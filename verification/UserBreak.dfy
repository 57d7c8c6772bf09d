/** The break of a user process (src/mm/alloc.c, sbrk_page, sbrk and alloc_initProcess): pages are
    taken from the frame allocator and mapped behind one another from USER_OFFSET on; mapping
    takes a further frame for a page table where the directory has none. */
module UserBreak {
  import opened Facts
  import opened FrameAllocator

  const USER_OFFSET := 0x4000_0000
  const MEMORY_END := 0xFFC0_0000
  const INT_BOUND := 0x8000_0000
  const PAGES_PER_TABLE := 1024

  // ---------------------------------------------------------------------------
  // What the allocator has left

  /** Frames still to be had: those below two gigabytes, which come first, and all of them; the
      bump counter never runs out. */
  datatype Stock = Stock(low: nat, all: nat, endless: bool)

  predicate Any(s: Stock) { s.endless || s.all > 0 }

  predicate AtLeast(s: Stock, n: nat) { s.endless || s.all >= n }

  function Less(a: nat, b: nat): nat { if a > b then a - b else 0 }

  /** The stock after `n` frames have been handed out. */
  function Without(s: Stock, n: nat): Stock { Stock(Less(s.low, n), if s.endless then s.all else Less(s.all, n), s.endless) }

  lemma WithoutTwice(s: Stock, n: nat, m: nat)
    ensures Without(Without(s, n), m) == Without(s, n + m)
  {
  }

  predicate LowFrame(start: nat, p: nat) { start + p * PAGE < INT_BOUND }

  function LowOf(free: set<nat>, start: nat): set<nat> { set p | p in free && LowFrame(start, p) }

  /** Bump pages behind page `at` that lie below two gigabytes. */
  function LowBumps(start: nat, at: nat): nat
  {
    if start >= INT_BOUND then 0 else Less((INT_BOUND - 1 - start) / PAGE, at)
  }

  lemma LowBumpsStep(start: nat, at: nat)
    ensures LowBumps(start, at) > 0 <==> LowFrame(start, at + 1)
    ensures LowBumps(start, at + 1) == Less(LowBumps(start, at), 1)
  {
  }

  ghost function StockOf(a: Allocator): Stock
    requires a.Valid()
    reads a, a.physMap
  {
    if a.mapped then Stock(|LowOf(a.FreePages(), a.start)|, |a.FreePages()|, false)
    else Stock(LowBumps(a.start, EarlyBase(a.totalPages) + a.early), 0, true)
  }

  /** Once the bitmap is in place the stock is what it has free, and what of it lies below two
      gigabytes; before, it never runs out. */
  lemma StockCounts(a: Allocator)
    requires a.Valid()
    ensures StockOf(a).endless == !a.mapped
    ensures a.mapped ==> StockOf(a).all == |a.FreePages()|
    ensures a.mapped ==> StockOf(a).low == |set p | p in a.FreePages() && a.start + 4096 * p < 0x8000_0000|
  {
    assert LowOf(a.FreePages(), a.start) == set p | p in a.FreePages() && a.start + 4096 * p < 0x8000_0000;
  }

  /** The lowest free page is a low one exactly when there is one. */
  lemma LowestFirst(free: set<nat>, start: nat, p: nat)
    requires p in free && forall q :: q in free ==> p <= q
    ensures |LowOf(free, start)| > 0 <==> LowFrame(start, p)
    ensures |LowOf(free - {p}, start)| == Less(|LowOf(free, start)|, 1) && |free - {p}| == |free| - 1
  {
    var low := LowOf(free, start);
    if LowFrame(start, p) {
      assert p in low && LowOf(free - {p}, start) == low - {p};
    } else {
      assert low == {} && LowOf(free - {p}, start) == {};
    }
  }

  /** alloc_getPage against the stock. */
  method TakeFrame(a: Allocator) returns (frame: int)
    requires a.Valid()
    modifies a, a.physMap
    ensures a.Valid() && a.mapped == old(a.mapped) && old(a.out) <= a.out
    ensures frame == -1 <==> !Any(old(StockOf(a)))
    ensures frame == -1 ==> a.out == old(a.out)
    ensures 0 <= frame < INT_BOUND <==> old(StockOf(a)).low > 0
    ensures frame != -1 ==> frame >= a.start && frame % PAGE == 0 && a.PageOf(frame) in a.out - old(a.out)
    ensures frame != -1 ==> StockOf(a) == Without(old(StockOf(a)), 1)
  {
    ghost var free, at := a.FreePages(), EarlyBase(a.totalPages) + a.early;
    frame := a.GetPage();
    hide Allocator.Valid, EarlyBase, Reserved, LowBumps;
    if !old(a.mapped) {
      LowBumpsStep(a.start, at);
    } else if frame != -1 {
      LowestFirst(free, a.start, a.PageOf(frame));
    }
  }

  // ---------------------------------------------------------------------------
  // What growing needs

  function TableOf(page: nat): nat { page / PAGES_PER_TABLE }

  /** The page tables `k` pages from page `v` on lie under. */
  function TablesOver(v: nat, k: nat): set<nat> { set u | v <= u < v + k :: TableOf(u) }

  /** Tables that have to be made for them. */
  function NewTables(tables: set<nat>, v: nat, k: nat): nat { |TablesOver(v, k) - tables| }

  lemma NewTablesStep(tables: set<nat>, v: nat, k: nat)
    ensures TablesOver(v, k + 1) == TablesOver(v, k) + {TableOf(v + k)}
    ensures NewTables(tables, v, k + 1) == NewTables(tables, v, k) + if TableOf(v + k) in tables + TablesOver(v, k) then 0 else 1
    ensures NewTables(tables, v, 0) == 0
  {
    assert TablesOver(v, k + 1) == TablesOver(v, k) + {TableOf(v + k)};
    assert TablesOver(v, k + 1) - tables ==
      if TableOf(v + k) in tables + TablesOver(v, k) then TablesOver(v, k) - tables else (TablesOver(v, k) - tables) + {TableOf(v + k)};
    assert TablesOver(v, 0) == {};
  }

  lemma {:induction false} NewTablesGrow(tables: set<nat>, v: nat, k: nat, m: nat)
    requires k <= m
    ensures NewTables(tables, v, k) <= NewTables(tables, v, m)
    decreases m - k
  {
    hide NewTables, TablesOver;
    if k < m {
      NewTablesStep(tables, v, k);
      NewTablesGrow(tables, v, k + 1, m);
    }
  }

  /** Page `i` of a growth finds a low frame: all pages up to it and the tables made before it
      come out of the low ones. */
  predicate PageFound(s: Stock, tables: set<nat>, v: nat, i: nat) { s.low >= i + 1 + NewTables(tables, v, i) }

  /** ... and its table, if it needs one, finds any frame. */
  predicate TableFound(s: Stock, tables: set<nat>, v: nat, i: nat) { AtLeast(s, i + 1 + NewTables(tables, v, i + 1)) }

  /** The frames suffice for `k` pages and their tables. */
  predicate Enough(s: Stock, tables: set<nat>, v: nat, k: nat)
  {
    k == 0 || (PageFound(s, tables, v, k - 1) && TableFound(s, tables, v, k - 1))
  }

  /** `k` pages at `next` can be added: not more than the machine has, below the page tables'
      own region, and with the frames left. */
  predicate CanGrow(s: Stock, machine: int, tables: set<nat>, next: nat, k: nat)
  {
    k <= machine && next + k * PAGE <= MEMORY_END - PAGE && Enough(s, tables, next / PAGE, k)
  }

  /** Page tables lie under 1024 pages each. */
  lemma NewTablesCount(tables: set<nat>, v: nat, k: nat)
    ensures NewTables(tables, v, k) == |set u | v <= u < v + k && u / 1024 !in tables :: u / 1024|
  {
    var made := set u | v <= u < v + k && u / 1024 !in tables :: u / 1024;
    forall t: nat ensures t in TablesOver(v, k) - tables <==> t in made {
      if t in TablesOver(v, k) - tables {
        var u :| v <= u < v + k && TableOf(u) == t;
        assert u / 1024 == t;
      }
      if t in made {
        var u :| v <= u < v + k && u / 1024 !in tables && u / 1024 == t;
        assert TableOf(u) == t;
      }
    }
    assert TablesOver(v, k) - tables == made;
  }

  /** Growth by `k` pages succeeds just when the machine has as many, they end below 0xFFBFF000,
      every page in turn finds a frame below two gigabytes after the pages and tables before it,
      and there are frames for all pages and their tables. */
  lemma CanGrowMeans(s: Stock, machine: int, tables: set<nat>, next: nat, k: nat)
    requires k > 0
    ensures CanGrow(s, machine, tables, next, k) <==>
      (&& k <= machine && next + 4096 * k <= 0xFFBF_F000
       && (forall i: nat :: i < k ==> i + NewTables(tables, next / 4096, i) < s.low)
       && (s.endless || k + NewTables(tables, next / 4096, k) <= s.all))
  {
    var v := next / 4096;
    if PageFound(s, tables, v, k - 1) {
      forall i: nat | i < k ensures i + NewTables(tables, v, i) < s.low {
        FoundBefore(s, tables, v, i, k - 1);
      }
    } else {
      assert !(k - 1 + NewTables(tables, v, k - 1) < s.low);
    }
  }

  /** Some page takes the last frame and still needs a table: the source does not notice. */
  ghost predicate GoesWild(s: Stock, machine: int, tables: set<nat>, next: nat, k: nat)
  {
    k <= machine && exists i: nat ::
      i < k && next + (i + 1) * PAGE <= MEMORY_END - PAGE
      && PageFound(s, tables, next / PAGE, i) && !TableFound(s, tables, next / PAGE, i)
  }

  /** One frame left and no table under USER_OFFSET yet: the page takes it and the table gets -1. */
  lemma LastFrameGoesWild(machine: int)
    requires machine >= 1
    ensures GoesWild(Stock(1, 1, false), machine, {}, USER_OFFSET, 1)
  {
    var v := USER_OFFSET / PAGE;
    NewTablesStep({}, v, 0);
    assert TablesOver(v, 0) == {};
    assert PageFound(Stock(1, 1, false), {}, v, 0) && !TableFound(Stock(1, 1, false), {}, v, 0);
  }

  /** The frames that sufficed for more sufficed for less. */
  lemma FoundBefore(s: Stock, tables: set<nat>, v: nat, i: nat, m: nat)
    requires i <= m
    ensures PageFound(s, tables, v, m) ==> PageFound(s, tables, v, i)
    ensures TableFound(s, tables, v, m) ==> TableFound(s, tables, v, i)
  {
    NewTablesGrow(tables, v, i, m);
    NewTablesGrow(tables, v, i + 1, m + 1);
  }

  /** What decides page `i` decides the whole growth. */
  lemma Decided(s: Stock, machine: int, tables: set<nat>, next: nat, k: nat, i: nat)
    requires i < k <= machine && next % PAGE == 0 && Enough(s, tables, next / PAGE, i)
    ensures next + (i + 1) * PAGE > MEMORY_END - PAGE || !PageFound(s, tables, next / PAGE, i) ==>
      !CanGrow(s, machine, tables, next, k) && !GoesWild(s, machine, tables, next, k)
    ensures next + (i + 1) * PAGE <= MEMORY_END - PAGE && PageFound(s, tables, next / PAGE, i) && !TableFound(s, tables, next / PAGE, i) ==>
      !CanGrow(s, machine, tables, next, k) && GoesWild(s, machine, tables, next, k)
  {
    hide PageFound, TableFound;
    var v := next / PAGE;
    FoundBefore(s, tables, v, i, k - 1);
    forall j: nat | j < k ensures (j < i ==> TableFound(s, tables, v, j)) && (j >= i && PageFound(s, tables, v, j) ==> PageFound(s, tables, v, i)) {
      if j < i {
        FoundBefore(s, tables, v, j, i - 1);
      } else {
        FoundBefore(s, tables, v, i, j);
      }
    }
  }

  lemma AllGrown(s: Stock, machine: int, tables: set<nat>, next: nat, k: nat)
    requires k <= machine && next % PAGE == 0 && Enough(s, tables, next / PAGE, k)
    ensures !GoesWild(s, machine, tables, next, k)
  {
    hide PageFound, TableFound;
    forall j: nat | j < k ensures TableFound(s, tables, next / PAGE, j) {
      FoundBefore(s, tables, next / PAGE, j, k - 1);
    }
  }

  predicate Sane(s: Stock) { s.endless || s.low <= s.all }

  lemma StockSane(a: Allocator)
    requires a.Valid()
    ensures Sane(StockOf(a))
  {
    if a.mapped {
      SubsetSize(LowOf(a.FreePages(), a.start), a.FreePages());
    }
  }

  /** The stock left after `i` pages tells whether page `i` and its table find frames. */
  lemma StockTells(s: Stock, tables: set<nat>, v: nat, i: nat)
    requires Sane(s) && Enough(s, tables, v, i)
    ensures var left := Without(s, i + NewTables(tables, v, i)); var need := if TableOf(v + i) in tables + TablesOver(v, i) then 0 else 1;
      && (left.low > 0 <==> PageFound(s, tables, v, i))
      && (left.low > 0 ==> (AtLeast(left, 1 + need) <==> TableFound(s, tables, v, i)))
      && (left.low > 0 && TableFound(s, tables, v, i) ==> Enough(s, tables, v, i + 1))
      && Without(left, 1 + need) == Without(s, i + 1 + NewTables(tables, v, i + 1))
  {
    NewTablesStep(tables, v, i);
    hide NewTables, TablesOver;
    WithoutTwice(s, i + NewTables(tables, v, i), 1);
  }

  // ---------------------------------------------------------------------------
  // The mapping

  /** The pages `lo` up to `hi` are mapped, each to a frame of its own that the allocator gave. */
  ghost predicate Backed(pages: map<nat, nat>, lo: nat, hi: nat, start: nat, out: set<nat>)
  {
    && (forall v :: lo <= v < hi ==> v in pages && pages[v] >= start && pages[v] % PAGE == 0 && (pages[v] - start) / PAGE in out)
    && (forall v, w :: lo <= v < w < hi ==> pages[v] != pages[w])
  }

  /** A frame not handed out before extends the break by one page. */
  lemma BackedGrows(pages: map<nat, nat>, lo: nat, hi: nat, start: nat, out: set<nat>, out': set<nat>, frame: nat)
    requires Backed(pages, lo, hi, start, out) && out <= out'
    requires frame >= start && frame % PAGE == 0 && (frame - start) / PAGE !in out && (frame - start) / PAGE in out'
    ensures Backed(pages[hi := frame], lo, hi + 1, start, out')
  {
  }

  lemma BackedMore(pages: map<nat, nat>, lo: nat, hi: nat, start: nat, out: set<nat>, out': set<nat>)
    requires Backed(pages, lo, hi, start, out) && out <= out'
    ensures Backed(pages, lo, hi, start, out')
  {
  }

  /** Pages needed for `n` more bytes when `slack` are left. */
  function PagesFor(n: nat, slack: nat): (k: nat)
    ensures k * PAGE >= n - slack
    ensures n > slack ==> k > 0 && (k - 1) * PAGE < n - slack
    ensures n <= slack ==> k == 0
  {
    if n > slack then (n - slack - 1) / PAGE + 1 else 0
  }

  datatype Growth = Grown | Refused | Wild

  /** Page `p` added or not, by what was there before; `room` is the address check. */
  ghost predicate PageOutcome(s: Stock, s': Stock, tables: set<nat>, tables': set<nat>, p: nat, room: bool, g: Growth)
  {
    var need := if TableOf(p) in tables then 0 else 1;
    && (g.Refused? <==> !room || s.low == 0)
    && (g.Wild? <==> !g.Refused? && !AtLeast(s, 1 + need))
    && (g.Grown? ==> s' == Without(s, 1 + need) && tables' == tables + {TableOf(p)})
  }

  /** The growth that started with stock `s` and tables `tabs` at page `v` has come to page `v + i`. */
  ghost predicate Growing(s: Stock, tabs: set<nat>, v: nat, i: nat, left: Stock, tables: set<nat>)
  {
    tables == tabs + TablesOver(v, i) && Enough(s, tabs, v, i) && left == Without(s, i + NewTables(tabs, v, i))
  }

  lemma GrowthStarts(s: Stock, tabs: set<nat>, v: nat)
    ensures Growing(s, tabs, v, 0, s, tabs)
  {
    NewTablesStep(tabs, v, 0);
    assert TablesOver(v, 0) == {};
  }

  /** What turn `i` of the loop finds, in terms of the start. */
  lemma TurnOutcome(s: Stock, tabs: set<nat>, v: nat, i: nat, left: Stock, left': Stock, tables: set<nat>, tables': set<nat>,
                    room: bool, g: Growth)
    requires Sane(s) && Growing(s, tabs, v, i, left, tables) && PageOutcome(left, left', tables, tables', v + i, room, g)
    ensures g.Refused? <==> !room || !PageFound(s, tabs, v, i)
    ensures g.Wild? <==> !g.Refused? && !TableFound(s, tabs, v, i)
    ensures g.Grown? ==> Growing(s, tabs, v, i + 1, left', tables')
  {
    StockTells(s, tabs, v, i);
    NewTablesStep(tabs, v, i);
    hide NewTables, TablesOver, PageFound, TableFound, Enough, Without, TableOf, AtLeast;
  }

  lemma PageIndex(start: nat, i: nat)
    ensures (start + i * PAGE) / PAGE == start / PAGE + i
  {
  }

  /** Page `i` from `start` on ends below the page tables' own region. */
  predicate Room(start: nat, i: nat) { start + (i + 1) * PAGE <= MEMORY_END - PAGE }

  /** A turn that does not add its page decides the whole growth. */
  lemma TurnDecides(s: Stock, machine: int, tabs: set<nat>, start: nat, k: nat, i: nat, left: Stock, left': Stock,
                    tables: set<nat>, tables': set<nat>, g: Growth)
    requires i < k <= machine && Sane(s) && start % PAGE == 0 && Growing(s, tabs, start / PAGE, i, left, tables)
    requires PageOutcome(left, left', tables, tables', start / PAGE + i, Room(start, i), g)
    ensures g.Refused? ==> !CanGrow(s, machine, tabs, start, k) && !GoesWild(s, machine, tabs, start, k)
    ensures g.Wild? ==> !CanGrow(s, machine, tabs, start, k) && GoesWild(s, machine, tabs, start, k)
    ensures g.Grown? ==> Growing(s, tabs, start / PAGE, i + 1, left', tables')
  {
    TurnOutcome(s, tabs, start / PAGE, i, left, left', tables, tables', Room(start, i), g);
    Decided(s, machine, tabs, start, k, i);
    hide Growing, PageOutcome, CanGrow, GoesWild, PageFound, TableFound;
  }

  lemma GrowthEnds(s: Stock, machine: int, tabs: set<nat>, start: nat, k: nat, left: Stock, tables: set<nat>)
    requires k <= machine && start % PAGE == 0 && Growing(s, tabs, start / PAGE, k, left, tables)
    requires start + k * PAGE <= MEMORY_END - PAGE
    ensures CanGrow(s, machine, tabs, start, k) && !GoesWild(s, machine, tabs, start, k)
  {
    AllGrown(s, machine, tabs, start, k);
  }

  /** What was mapped below page `limit` is mapped there still. */
  ghost predicate KeptBelow(was: map<nat, nat>, pages: map<nat, nat>, limit: nat)
  {
    forall v :: v in was && v < limit ==> v in pages && pages[v] == was[v]
  }

  lemma KeptOn(was: map<nat, nat>, pages: map<nat, nat>, pages': map<nat, nat>, limit: nat, limit': nat)
    requires KeptBelow(was, pages, limit) && KeptBelow(pages, pages', limit') && limit <= limit'
    ensures KeptBelow(was, pages', limit)
  {
  }

  class Process {
    var brkBegin: nat
    var brkEnd: nat
    var next: nat                      // brk_next_unallocated_page_begin
    var pages: map<nat, nat>           // user page number to frame address
    var tables: set<nat>               // directory slots that have a page table
    const alloc: Allocator
    ghost var failed: bool             // some call failed since the break was set up

    ghost predicate PagesOk()
      reads `brkBegin, `next, `pages, alloc, alloc.physMap
    {
      && alloc.Valid() && brkBegin == USER_OFFSET && next % PAGE == 0 && brkBegin <= next <= MEMORY_END - PAGE
      && Backed(pages, brkBegin / PAGE, next / PAGE, alloc.start, alloc.out)
    }

    ghost predicate Valid()
      reads this, alloc, alloc.physMap
    {
      && PagesOk() && brkBegin <= brkEnd <= next
      && next - brkEnd < INT_BOUND && (!failed ==> next - brkEnd < PAGE)
    }

    ghost function Machine(): int
      reads alloc
    {
      alloc.totalPages + alloc.used / PAGE
    }

    /** The page count that growth is held against: the machine's pages and those handed out. */
    lemma MachineCounts()
      requires alloc.Valid()
      ensures Machine() == alloc.totalPages + |alloc.out|
    {
    }

    constructor (alloc: Allocator)
      requires alloc.Valid()
      ensures Valid() && this.alloc == alloc && next == brkEnd == USER_OFFSET && tables == {} && !failed
    {
      this.alloc := alloc;
      brkBegin, brkEnd, next, pages, tables, failed := USER_OFFSET, USER_OFFSET, USER_OFFSET, map[], {}, false;
    }

    /** The page table under which page `v` lies, made if it is not there. */
    method MakeTable(v: nat) returns (ok: bool)
      requires alloc.Valid()
      modifies this`tables, alloc, alloc.physMap
      ensures alloc.Valid() && old(alloc.out) <= alloc.out
      ensures var s := old(StockOf(alloc)); var need := if TableOf(v) in old(tables) then 0 else 1;
        && (ok <==> AtLeast(s, need))
        && (ok ==> StockOf(alloc) == Without(s, need) && tables == old(tables) + {TableOf(v)})
    {
      hide Allocator.Valid, StockOf;
      var slot := TableOf(v);
      if slot !in tables {
        var t := TakeFrame(alloc);
        if t == -1 {
          return false;
        }
      }
      tables := tables + {slot};
      ok := true;
    }

    /** The page at `next` mapped to a frame that was free. */
    method MapNext(frame: nat, ghost out: set<nat>)
      requires brkBegin == USER_OFFSET <= next && next % PAGE == 0 && next + PAGE <= MEMORY_END - PAGE && alloc.Valid()
      requires Backed(pages, brkBegin / PAGE, next / PAGE, alloc.start, out) && out <= alloc.out
      requires frame >= alloc.start && frame % PAGE == 0 && alloc.PageOf(frame) in alloc.out - out
      modifies this`next, this`pages
      ensures PagesOk() && next == old(next) + PAGE && pages == old(pages)[old(next) / PAGE := frame]
    {
      hide Allocator.Valid;
      BackedGrows(pages, brkBegin / PAGE, next / PAGE, alloc.start, out, alloc.out, frame);
      hide Backed;
      pages := pages[next / PAGE := frame];
      next := next + PAGE;
    }

    /** One turn of the loop in sbrk_page, with the page table arch_mmu_mapPage may make.  `Wild`
        is the turn whose table frame is -1. */
    method OnePage() returns (g: Growth)
      requires PagesOk()
      modifies this`next, this`pages, this`tables, alloc, alloc.physMap
      ensures alloc.Valid()
      ensures PageOutcome(old(StockOf(alloc)), StockOf(alloc), old(tables), tables, old(next) / PAGE, Room(old(next), 0), g)
      ensures !g.Wild? ==> PagesOk()
      ensures next == old(next) + (if g.Grown? then PAGE else 0)
      ensures KeptBelow(old(pages), pages, old(next) / PAGE) && next <= MEMORY_END - PAGE
    {
      hide Allocator.Valid, StockOf;
      if next + PAGE > MEMORY_END - PAGE {
        return Refused;
      }
      StockSane(alloc);
      ghost var s, out := StockOf(alloc), alloc.out;
      var frame := TakeFrame(alloc);
      if frame < 0 || frame >= INT_BOUND {
        BackedMore(pages, brkBegin / PAGE, next / PAGE, alloc.start, out, alloc.out);
        return Refused;
      }
      hide Backed;
      var made := MakeTable(next / PAGE);
      if !made {
        return Wild;
      }
      WithoutTwice(s, 1, if TableOf(next / PAGE) in old(tables) then 0 else 1);
      MapNext(frame, out);
      g := Grown;
    }

    /** sbrk_page: all the pages, or fewer and a failure; exactly when is decided by the state
        before the call. */
    method SbrkPage(count: int) returns (g: Growth)
      requires PagesOk()
      modifies this`next, this`pages, this`tables, alloc, alloc.physMap
      ensures !g.Wild? ==> PagesOk()
      ensures count <= 0 ==> g.Grown? && next == old(next)
      ensures count > 0 ==>
        && (g.Grown? <==> CanGrow(old(StockOf(alloc)), old(Machine()), old(tables), old(next), count))
        && (g.Wild? <==> GoesWild(old(StockOf(alloc)), old(Machine()), old(tables), old(next), count))
      ensures count > 0 && g.Grown? ==> next == old(next) + count * PAGE
      ensures !g.Grown? ==> old(next) <= next <= old(next) + (count - 1) * PAGE
      ensures KeptBelow(old(pages), pages, old(next) / PAGE)
    {
      g := Grown;
      if count <= 0 {
        return;
      }
      if count > alloc.totalPages + alloc.used / PAGE {
        return Refused;
      }
      StockSane(alloc);
      ghost var s, tabs, start, machine, was := StockOf(alloc), tables, next, Machine(), pages;
      GrowthStarts(s, tabs, start / PAGE);
      assert KeptBelow(was, pages, start / PAGE);
      hide PagesOk, KeptBelow, StockOf, Growing, CanGrow, GoesWild, PageOutcome, Allocator.Valid, Room;
      for i := 0 to count
        invariant PagesOk() && alloc.Valid() && next <= MEMORY_END - PAGE && next == start + i * PAGE
        invariant Growing(s, tabs, start / PAGE, i, StockOf(alloc), tables) && KeptBelow(was, pages, start / PAGE)
      {
        PageIndex(start, i);
        g := Turn(s, machine, tabs, start, count, i, was);
        if !g.Grown? {
          return;
        }
      }
      GrowthEnds(s, machine, tabs, start, count, StockOf(alloc), tables);
      g := Grown;
    }

    /** Turn `i` of the loop, in terms of the start. */
    method Turn(ghost s: Stock, ghost machine: int, ghost tabs: set<nat>, ghost start: nat, ghost k: nat, ghost i: nat,
                ghost was: map<nat, nat>)
      returns (g: Growth)
      requires PagesOk() && i < k <= machine && Sane(s) && start % PAGE == 0 && next == start + i * PAGE && next / PAGE == start / PAGE + i
      requires Growing(s, tabs, start / PAGE, i, StockOf(alloc), tables) && KeptBelow(was, pages, start / PAGE)
      modifies this`next, this`pages, this`tables, alloc, alloc.physMap
      ensures alloc.Valid() && next <= MEMORY_END - PAGE && KeptBelow(was, pages, start / PAGE)
      ensures !g.Wild? ==> PagesOk()
      ensures g.Refused? ==> !CanGrow(s, machine, tabs, start, k) && !GoesWild(s, machine, tabs, start, k)
      ensures g.Wild? ==> !CanGrow(s, machine, tabs, start, k) && GoesWild(s, machine, tabs, start, k)
      ensures g.Grown? ==> Growing(s, tabs, start / PAGE, i + 1, StockOf(alloc), tables)
      ensures next == old(next) + (if g.Grown? then PAGE else 0)
    {
      assert alloc.Valid() && Room(next, 0) == Room(start, i);
      hide PagesOk, KeptBelow, StockOf, Growing, CanGrow, GoesWild, PageOutcome, Allocator.Valid, Room;
      ghost var left, tables0, pages0 := StockOf(alloc), tables, pages;
      g := OnePage();
      KeptOn(was, pages0, pages, start / PAGE, start / PAGE + i);
      TurnDecides(s, machine, tabs, start, k, i, left, StockOf(alloc), tables0, tables, g);
    }

    /** sbrk: the break before the call, or -1.  Whether it fails is decided by the stock of
        frames, the page tables there are and the room, before the call. */
    method Sbrk(n: int) returns (g: Growth, r: int)
      requires Valid() && n < INT_BOUND
      modifies this`next, this`pages, this`tables, this`brkEnd, this`failed, alloc, alloc.physMap
      ensures r == if g.Refused? then -1 else old(brkEnd)
      ensures !g.Wild? ==> Valid() && failed == (old(failed) || g.Refused?)
      ensures n <= old(next - brkEnd) ==> g.Grown?
      ensures n > old(next - brkEnd) ==> var k := PagesFor(n, old(next - brkEnd));
        && (g.Grown? <==> CanGrow(old(StockOf(alloc)), old(Machine()), old(tables), old(next), k))
        && (g.Wild? <==> GoesWild(old(StockOf(alloc)), old(Machine()), old(tables), old(next), k))
      ensures g.Grown? ==> brkEnd == old(brkEnd) + (if n > 0 then n else 0)
      ensures !g.Grown? ==> brkEnd == old(brkEnd) && next < old(brkEnd) + n
      ensures old(next) <= next && KeptBelow(old(pages), pages, old(next) / PAGE)
    {
      hide PagesOk, CanGrow, GoesWild, StockOf;
      g, r := Grown, brkEnd;
      if n <= 0 {
        return;
      }
      var left := next - brkEnd;
      if n > left {
        g := SbrkPage(PagesFor(n, left));
        if !g.Grown? {
          failed := failed || g.Refused?;
          r := if g.Refused? then -1 else brkEnd;
          return;
        }
      }
      brkEnd := brkEnd + n;
    }

    /** alloc_initProcess.  Whatever goes wrong in sbrk goes unnoticed. */
    method InitProcess(size: int) returns (g: Growth)
      requires alloc.Valid() && size < INT_BOUND
      modifies this, alloc, alloc.physMap
      ensures !g.Wild? ==> Valid() && failed == g.Refused?
      ensures size <= 0 ==> g.Grown? && next == USER_OFFSET
      ensures size > 0 ==> var k := PagesFor(size, 0);
        && (g.Grown? <==> CanGrow(old(StockOf(alloc)), old(Machine()), old(tables), USER_OFFSET, k))
        && (g.Wild? <==> GoesWild(old(StockOf(alloc)), old(Machine()), old(tables), USER_OFFSET, k))
      ensures size > 0 && g.Grown? ==> brkEnd == USER_OFFSET + size <= next < USER_OFFSET + size + PAGE
      ensures size > 0 && !g.Grown? ==> brkEnd == USER_OFFSET && next < USER_OFFSET + size
    {
      hide CanGrow, GoesWild, StockOf, Allocator.Valid;
      brkBegin, brkEnd, next, failed := USER_OFFSET, USER_OFFSET, USER_OFFSET, false;
      var r;
      g, r := Sbrk(size);
    }
  }
}
