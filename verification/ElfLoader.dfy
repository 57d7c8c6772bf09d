/** Loading an executable (src/elf.c): how far its segments reach, setting up the break for them,
    and writing them through the page mapping. */
module ElfLoader {
  import opened FrameAllocator
  import opened UserBreak

  type Byte = b: int | 0 <= b < 256
  type Word = w: nat | w < 0x1_0000_0000
  const PT_LOAD: Word := 1

  datatype Phdr = Phdr(ptype: Word, offset: Word, vaddr: Word, filesz: Word, memsz: Word)

  /** End of a segment, as the source computes it: 32 bits. */
  function VEnd(p: Phdr): (w: Word)
    ensures w == if p.vaddr + p.memsz < 0x1_0000_0000 then p.vaddr + p.memsz else p.vaddr + p.memsz - 0x1_0000_0000
  {
    (p.vaddr + p.memsz) % 0x1_0000_0000
  }

  /** elf_get_end_in_memory: the largest segment end; 0 for a bad header or without segments. */
  method EndInMemory(headerOk: bool, ph: seq<Phdr>) returns (end: Word)
    ensures !headerOk ==> end == 0
    ensures headerOk ==> forall i :: 0 <= i < |ph| && ph[i].ptype == 1 ==> VEnd(ph[i]) <= end
    ensures end > 0 ==> exists i :: 0 <= i < |ph| && ph[i].ptype == 1 && VEnd(ph[i]) == end
  {
    end := 0;
    if !headerOk {
      return;
    }
    for pe := 0 to |ph|
      invariant forall i :: 0 <= i < pe && ph[i].ptype == PT_LOAD ==> VEnd(ph[i]) <= end
      invariant end > 0 ==> exists i :: 0 <= i < pe && ph[i].ptype == PT_LOAD && VEnd(ph[i]) == end
    {
      if ph[pe].ptype == PT_LOAD && VEnd(ph[pe]) > end {
        end := VEnd(ph[pe]);
      }
    }
  }

  /** The size handed to alloc_initProcess: an unsigned difference read as an int. */
  function InitSize(memEnd: Word): (n: int)
    ensures -INT_BOUND <= n < INT_BOUND
    ensures n > 0 <==> USER_OFFSET < memEnd < USER_OFFSET + INT_BOUND
    ensures n > 0 ==> n == memEnd - USER_OFFSET
  {
    var d := (memEnd - USER_OFFSET) % 0x1_0000_0000;
    if d < INT_BOUND then d else d - 0x1_0000_0000
  }

  // ---------------------------------------------------------------------------
  // Memory seen through the mapping

  function RamAt(ram: map<nat, Byte>, a: nat): Byte { if a in ram then ram[a] else 0 }

  function Physical(pages: map<nat, nat>, v: nat): nat
    requires v / PAGE in pages
  {
    pages[v / PAGE] + v % PAGE
  }

  /** An address translates within its page: the frame of the page, the same place in it. */
  lemma PhysicalInPage(pages: map<nat, nat>, v: nat)
    requires v / PAGE in pages && pages[v / 4096] % 4096 == 0
    ensures Physical(pages, v) / 4096 == pages[v / 4096] / 4096 && Physical(pages, v) % 4096 == v % 4096
  {
  }

  /** Distinct frames: a write through the mapping changes one byte of the break and no other. */
  lemma PhysicalInjective(pages: map<nat, nat>, lo: nat, hi: nat, start: nat, out: set<nat>, v: nat, w: nat)
    requires Backed(pages, lo, hi, start, out) && lo <= v / PAGE < hi && lo <= w / PAGE < hi && v != w
    ensures Physical(pages, v) != Physical(pages, w)
  {
  }

  type Memory = map<nat, Byte>

  /** One segment laid over memory: the bytes the file has for it, then zeros. */
  ghost function Overlay(m: Memory, p: Phdr, file: seq<Byte>): Memory
  {
    map v | v in m :: SegmentByte(m[v], p, file, v)
  }

  function Available(p: Phdr, file: seq<Byte>): nat
  {
    if p.offset >= |file| then 0 else if p.offset + p.filesz <= |file| then p.filesz else |file| - p.offset
  }

  function SegmentByte(b: Byte, p: Phdr, file: seq<Byte>, v: nat): Byte
  {
    if p.vaddr <= v < p.vaddr + Available(p, file) then file[p.offset + (v - p.vaddr)]
    else if p.vaddr + p.filesz <= v < p.vaddr + p.memsz then 0
    else b
  }

  ghost function Loaded(m: Memory, ph: seq<Phdr>, file: seq<Byte>): Memory
  {
    if ph == [] then m
    else
      var m' := Loaded(m, ph[..|ph| - 1], file);
      var p := ph[|ph| - 1];
      if p.ptype == PT_LOAD then Overlay(m', p, file) else m'
  }

  ghost predicate Apart(p: Phdr, q: Phdr)
  {
    p.vaddr + p.memsz <= q.vaddr || q.vaddr + q.memsz <= p.vaddr
  }

  ghost predicate WellFormed(ph: seq<Phdr>)
  {
    && (forall i :: 0 <= i < |ph| && ph[i].ptype == PT_LOAD ==> ph[i].filesz <= ph[i].memsz)
    && (forall i, j :: 0 <= i < j < |ph| && ph[i].ptype == PT_LOAD && ph[j].ptype == PT_LOAD ==> Apart(ph[i], ph[j]))
  }

  /** Segments that do not overlap hold their file bytes, followed by zeros; where the file ends
      early, memory stays as it was. */
  lemma {:induction false} SegmentsHold(m: Memory, ph: seq<Phdr>, file: seq<Byte>, k: nat, i: nat)
    requires WellFormed(ph) && k < |ph| && ph[k].ptype == 1 && i < ph[k].memsz && ph[k].vaddr + i in m
    ensures Loaded(m, ph, file).Keys == m.Keys
    ensures Loaded(m, ph, file)[ph[k].vaddr + i] ==
      if i >= ph[k].filesz then 0 else if ph[k].offset + i < |file| then file[ph[k].offset + i] else m[ph[k].vaddr + i]
  {
    var n := |ph| - 1;
    LoadedKeys(m, ph, file);
    LoadedKeys(m, ph[..n], file);
    if k < n {
      SegmentsHold(m, ph[..n], file, k, i);
      assert ph[n].ptype == PT_LOAD ==> Apart(ph[k], ph[n]);
    } else {
      assert forall j :: 0 <= j < n && ph[j].ptype == PT_LOAD ==> Apart(ph[j], ph[k]);
      OutsideUntouched(m, ph[..n], file, ph[k].vaddr + i);
    }
  }

  lemma {:induction false} LoadedKeys(m: Memory, ph: seq<Phdr>, file: seq<Byte>)
    ensures Loaded(m, ph, file).Keys == m.Keys
  {
    if ph != [] {
      LoadedKeys(m, ph[..|ph| - 1], file);
    }
  }

  /** Bytes outside every segment stay as they were. */
  lemma {:induction false} OutsideUntouched(m: Memory, ph: seq<Phdr>, file: seq<Byte>, v: nat)
    requires v in m
    requires forall i :: 0 <= i < |ph| && ph[i].ptype == 1 ==> ph[i].filesz <= ph[i].memsz && !(ph[i].vaddr <= v < ph[i].vaddr + ph[i].memsz)
    ensures Loaded(m, ph, file).Keys == m.Keys && Loaded(m, ph, file)[v] == m[v]
  {
    if ph != [] {
      var n := |ph| - 1;
      OutsideUntouched(m, ph[..n], file, v);
      assert ph[n].ptype == PT_LOAD ==> !(ph[n].vaddr <= v < ph[n].vaddr + ph[n].memsz);
    }
  }

  ghost predicate WithinBreak(p: Phdr, next: nat)
  {
    USER_OFFSET <= p.vaddr && p.vaddr + p.memsz <= next && p.vaddr + p.filesz <= next
  }

  /** An executable for this machine: no segment below USER_OFFSET or around the address space,
      none with more bytes in the file than in memory. */
  ghost predicate UserImage(ph: seq<Phdr>)
  {
    forall i :: 0 <= i < |ph| && ph[i].ptype == PT_LOAD ==>
      USER_OFFSET <= ph[i].vaddr && ph[i].vaddr + ph[i].memsz < 0x1_0000_0000 && ph[i].filesz <= ph[i].memsz
  }

  /** What the break up to `next` holds. */
  ghost function ViewOf(pages: map<nat, nat>, ram: map<nat, Byte>, next: nat): Memory
  {
    map v: nat | USER_OFFSET <= v < next && v / PAGE in pages :: RamAt(ram, Physical(pages, v))
  }

  lemma ViewStore(pages: map<nat, nat>, ram: map<nat, Byte>, next: nat, start: nat, out: set<nat>, v: nat, b: Byte)
    requires next % PAGE == 0 && Backed(pages, USER_OFFSET / PAGE, next / PAGE, start, out) && USER_OFFSET <= v < next
    ensures v / PAGE in pages && v in ViewOf(pages, ram, next)
    ensures ViewOf(pages, ram[Physical(pages, v) := b], next) == ViewOf(pages, ram, next)[v := b]
  {
    forall w: nat | USER_OFFSET <= w < next && w != v
      ensures w / PAGE in pages && Physical(pages, w) != Physical(pages, v)
    {
      PhysicalInjective(pages, USER_OFFSET / PAGE, next / PAGE, start, out, v, w);
    }
  }

  /** 32-bit address arithmetic. */
  function Wrap(a: nat): (w: Word)
    ensures a < 0x1_0000_0000 ==> w == a
  {
    a % 0x1_0000_0000
  }

  ghost function Placed(m: Memory, at: nat, data: seq<Byte>): Memory
  {
    map v | v in m :: if at <= v < at + |data| then data[v - at] else m[v]
  }

  function Zeros(n: nat): (z: seq<Byte>)
    ensures |z| == n
  {
    seq(n, _ => 0)
  }

  function FileBytes(p: Phdr, file: seq<Byte>): seq<Byte>
  {
    if p.offset >= |file| then [] else file[p.offset..p.offset + Available(p, file)]
  }

  lemma PlacedNone(m: Memory, at: nat, data: seq<Byte>)
    ensures Placed(m, at, data[..0]) == m
  {
  }

  lemma PlacedStep(m: Memory, at: nat, data: seq<Byte>, i: nat)
    requires i < |data|
    ensures at + i in Placed(m, at, data[..i]) ==> Placed(m, at, data[..i])[at + i := data[i]] == Placed(m, at, data[..i + 1])
  {
  }

  lemma PlacedZeros(m: Memory, at: nat, i: nat)
    ensures Placed(m, at, Zeros(0)) == m
    ensures at + i in Placed(m, at, Zeros(i)) ==> Placed(m, at, Zeros(i))[at + i := 0] == Placed(m, at, Zeros(i + 1))
  {
  }

  lemma OverlayPlaced(m: Memory, p: Phdr, file: seq<Byte>)
    ensures |FileBytes(p, file)| <= p.filesz
    ensures p.filesz < p.memsz ==>
      Overlay(m, p, file) == Placed(Placed(m, p.vaddr, FileBytes(p, file)), p.vaddr + p.filesz, Zeros(p.memsz - p.filesz))
    ensures p.filesz >= p.memsz ==> Overlay(m, p, file) == Placed(m, p.vaddr, FileBytes(p, file))
  {
  }

  /** The view holds the break and nothing else. */
  lemma BackedView(pages: map<nat, nat>, ram: map<nat, Byte>, next: nat, start: nat, out: set<nat>, memEnd: nat)
    requires next % PAGE == 0 && USER_OFFSET <= next && Backed(pages, USER_OFFSET / PAGE, next / PAGE, start, out)
    ensures AllBacked(ViewOf(pages, ram, next), memEnd) <==> memEnd <= next || memEnd <= USER_OFFSET
  {
    assert memEnd > next && memEnd > USER_OFFSET ==> memEnd - 1 !in ViewOf(pages, ram, next);
  }

  lemma ImageWithin(ph: seq<Phdr>, memEnd: nat, next: nat)
    requires UserImage(ph) && USER_OFFSET <= next && (memEnd <= next || memEnd <= USER_OFFSET)
    requires forall i :: 0 <= i < |ph| && ph[i].ptype == PT_LOAD ==> VEnd(ph[i]) <= memEnd
    ensures forall i :: 0 <= i < |ph| && ph[i].ptype == PT_LOAD ==> WithinBreak(ph[i], next)
  {
  }

  /** An image that ends at `memEnd` can be backed by pages: decided before anything is done. */
  predicate Backable(s: Stock, machine: int, tables: set<nat>, memEnd: nat)
  {
    || memEnd <= USER_OFFSET
    || (memEnd < USER_OFFSET + INT_BOUND && CanGrow(s, machine, tables, USER_OFFSET, PagesFor(memEnd - USER_OFFSET, 0)))
  }

  /** An image that ends two gigabytes or more above USER_OFFSET, such as at 0xC0001000, is never
      backed, whatever memory there is: the size asked for is not positive. */
  lemma HighImageGetsNothing(s: Stock, machine: int, tables: set<nat>, memEnd: Word)
    requires memEnd >= USER_OFFSET + INT_BOUND
    ensures InitSize(memEnd) <= 0 && !Backable(s, machine, tables, memEnd)
    ensures InitSize(0xC000_1000) == -0x7FFF_F000
  {
  }

  /** Setting up the break for it takes the last frame and still needs a page table. */
  ghost predicate Derails(s: Stock, machine: int, tables: set<nat>, memEnd: nat)
  {
    USER_OFFSET < memEnd < USER_OFFSET + INT_BOUND && GoesWild(s, machine, tables, USER_OFFSET, PagesFor(memEnd - USER_OFFSET, 0))
  }

  datatype Outcome = Rejected | Fault | Derailed | Done

  class Loader {
    const proc: Process
    var ram: map<nat, Byte>

    ghost predicate Valid()
      reads this, proc, proc.alloc, proc.alloc.physMap
    {
      proc.Valid()
    }

    ghost function View(): Memory
      reads this, proc
    {
      ViewOf(proc.pages, ram, proc.next)
    }

    constructor (proc: Process, ram: map<nat, Byte>)
      ensures this.proc == proc && this.ram == ram
    {
      this.proc, this.ram := proc, ram;
    }

    /** A byte written at a user address. */
    method Store(v: nat, b: Byte) returns (ok: bool)
      requires Valid()
      modifies this
      ensures Valid()
      ensures USER_OFFSET <= v < proc.next ==> ok && v in old(View()) && View() == old(View())[v := b]
    {
      if USER_OFFSET <= v < proc.next {
        ViewStore(proc.pages, ram, proc.next, proc.alloc.start, proc.alloc.out, v, b);
      }
      ok := v / PAGE in proc.pages;
      if ok {
        ram := ram[Physical(proc.pages, v) := b];
      }
    }

    /** Byte `i` of `data`, at its place. */
    method StoreNth(at: Word, data: seq<Byte>, i: nat, ghost m: Memory, ghost fits: bool) returns (ok: bool)
      requires Valid() && i < |data| && (fits ==> USER_OFFSET <= at && at + |data| <= proc.next)
      requires fits ==> View() == Placed(m, at, data[..i])
      modifies this
      ensures Valid() && (fits ==> ok && View() == Placed(m, at, data[..i + 1]))
    {
      var v, b := Wrap(at + i), data[i];
      ghost var p0, p1 := Placed(m, at, data[..i]), Placed(m, at, data[..i + 1]);
      PlacedStep(m, at, data, i);
      assert fits ==> v == at + i && USER_OFFSET <= v < proc.next && View() == p0;
      hide *;
      ok := Store(v, b);
      assert fits ==> View() == p0[v := b] == p1;
    }

    /** vfs_read into user memory. */
    method StoreBytes(at: Word, data: seq<Byte>) returns (ok: bool)
      requires Valid()
      modifies this
      ensures Valid()
      ensures USER_OFFSET <= at && at + |data| <= proc.next ==> ok && View() == Placed(old(View()), at, data)
    {
      hide *;
      ghost var m, fits := View(), USER_OFFSET <= at && at + |data| <= proc.next;
      PlacedNone(m, at, data);
      for i := 0 to |data|
        invariant Valid() && (fits ==> View() == Placed(m, at, data[..i]))
      {
        ok := StoreNth(at, data, i, m, fits);
        if !ok {
          return;
        }
      }
      assert data[..|data|] == data;
      ok := true;
    }

    /** The loop that clears the part of a segment the file does not hold. */
    method StoreZeros(at: nat, n: nat) returns (ok: bool)
      requires Valid()
      modifies this
      ensures Valid()
      ensures USER_OFFSET <= at && at + n <= proc.next ==> ok && View() == Placed(old(View()), at, Zeros(n))
    {
      assert proc.next < 0x1_0000_0000;
      hide *;
      ghost var m := View();
      PlacedZeros(m, at, 0);
      for i := 0 to n
        invariant Valid()
        invariant USER_OFFSET <= at && at + n <= proc.next ==> View() == Placed(m, at, Zeros(i))
      {
        PlacedZeros(m, at, i);
        ok := Store(Wrap(at + i), 0);
        if !ok {
          return;
        }
      }
      ok := true;
    }

    /** A segment: the file's bytes, then zeros. */
    method LoadSegment(p: Phdr, file: seq<Byte>) returns (ok: bool)
      requires Valid()
      modifies this
      ensures Valid()
      ensures WithinBreak(p, proc.next) ==> ok && View() == Overlay(old(View()), p, file)
    {
      hide Process.Valid, ViewOf;
      ghost var m := View();
      OverlayPlaced(m, p, file);
      hide Overlay, Placed;
      ok := StoreBytes(p.vaddr, FileBytes(p, file));
      if ok && p.filesz < p.memsz {
        ok := StoreZeros(p.vaddr + p.filesz, p.memsz - p.filesz);
      }
    }

    method LoadSegments(ph: seq<Phdr>, file: seq<Byte>) returns (ok: bool)
      requires Valid()
      modifies this
      ensures Valid()
      ensures (forall i :: 0 <= i < |ph| && ph[i].ptype == PT_LOAD ==> WithinBreak(ph[i], proc.next)) ==>
        ok && View() == Loaded(old(View()), ph, file)
    {
      hide Process.Valid, ViewOf, WithinBreak, Overlay;
      ghost var m := View();
      ok := true;
      for pe := 0 to |ph|
        invariant Valid()
        invariant (forall i :: 0 <= i < |ph| && ph[i].ptype == PT_LOAD ==> WithinBreak(ph[i], proc.next)) ==>
          View() == Loaded(m, ph[..pe], file)
      {
        assert ph[..pe + 1][..pe] == ph[..pe];
        if ph[pe].ptype == PT_LOAD {
          ok := LoadSegment(ph[pe], file);
          if !ok {
            return;
          }
        }
      }
      assert ph[..|ph|] == ph;
      ok := true;
    }

    /** The part of elf_load_file that fills the address space.  The whole image is backed by
        pages exactly when it ends less than two gigabytes above USER_OFFSET and the frames left
        suffice for its pages and page tables; then its segments are loaded one over the other. */
    method LoadFile(headerOk: bool, ph: seq<Phdr>, file: seq<Byte>) returns (r: Outcome, memEnd: Word, ghost blank: Memory)
      requires proc.alloc.Valid()
      modifies this, proc, proc.alloc, proc.alloc.physMap
      ensures memEnd == 0 <==> r == Rejected
      ensures headerOk ==> forall i :: 0 <= i < |ph| && ph[i].ptype == PT_LOAD ==> VEnd(ph[i]) <= memEnd
      ensures r == Derailed <==> Derails(old(StockOf(proc.alloc)), old(proc.Machine()), old(proc.tables), memEnd)
      ensures memEnd > 0 && r != Derailed ==>
        (AllBacked(View(), memEnd) <==> Backable(old(StockOf(proc.alloc)), old(proc.Machine()), old(proc.tables), memEnd))
      ensures memEnd > 0 && r != Derailed && AllBacked(View(), memEnd) && UserImage(ph) ==>
        r == Done && View() == Loaded(blank, ph, file) && AllBacked(blank, memEnd)
    {
      memEnd := EndInMemory(headerOk, ph);
      blank := map[];
      if memEnd == 0 {
        return Rejected, memEnd, blank;
      }
      hide StockOf, CanGrow, GoesWild, Allocator.Valid;
      var g := proc.InitProcess(InitSize(memEnd));
      if g.Wild? {
        return Derailed, memEnd, blank;
      }
      ghost var fits := Backable(old(StockOf(proc.alloc)), old(proc.Machine()), old(proc.tables), memEnd);
      assert memEnd <= proc.next || memEnd <= USER_OFFSET <==> fits;
      blank := View();
      r := Fill(ph, file, memEnd);
    }

    /** The segments written into the break set up for them. */
    method Fill(ph: seq<Phdr>, file: seq<Byte>, memEnd: Word) returns (r: Outcome)
      requires Valid() && memEnd > 0
      requires forall i :: 0 <= i < |ph| && ph[i].ptype == PT_LOAD ==> VEnd(ph[i]) <= memEnd
      modifies this
      ensures r == Fault || r == Done
      ensures AllBacked(View(), memEnd) <==> memEnd <= proc.next || memEnd <= USER_OFFSET
      ensures AllBacked(View(), memEnd) && UserImage(ph) ==>
        r == Done && View() == Loaded(old(View()), ph, file) && AllBacked(old(View()), memEnd)
    {
      ghost var pages, next, start, out := proc.pages, proc.next, proc.alloc.start, proc.alloc.out;
      BackedView(pages, ram, next, start, out, memEnd);
      assert next % PAGE == 0 && USER_OFFSET <= next && Backed(pages, USER_OFFSET / PAGE, next / PAGE, start, out);
      hide Process.Valid, Process.PagesOk, Backed, ViewOf, AllBacked, VEnd, WithinBreak, Loaded;
      if UserImage(ph) && (memEnd <= next || memEnd <= USER_OFFSET) {
        ImageWithin(ph, memEnd, next);
      }
      hide UserImage;
      var ok := LoadSegments(ph, file);
      BackedView(pages, ram, next, start, out, memEnd);
      r := if ok then Done else Fault;
    }
  }

  ghost predicate AllBacked(m: Memory, memEnd: nat) { forall v: nat :: USER_OFFSET <= v < memEnd ==> v in m }
}
