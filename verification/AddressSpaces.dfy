/** The in-place page-table code of src/arch/x86/mmu.c and the write-fault handler of
    src/arch/x86/gdt.c.  `View` reads the tables as the maps of module `CowMachine`; every
    method is proved to perform the corresponding step of that machine. */
module AddressSpaces {
  import opened CowMachine
  import opened CowSafety
  import opened Facts
  import opened FrameAllocator
  import opened FrameMarks
  import opened PageTables

  // Page directories live in a fixed area that holds 257 of them, beside the kernel's own.
  const DIRECTORY_AREA := 257

  // ---------------------------------------------------------------------------
  // Half-done forks and teardowns, as values

  /** Fork has treated the parent's pages below `cur`. */
  function ForkProgress(k: Kernel, p: nat, c: nat, cur: nat, tabs: map<nat, Tab>): Kernel
    requires p < |k.spaces| && c < |k.spaces| && p != c
  {
    var pages := k.spaces[p].pages;
    k.(spaces := k.spaces[p := Space(ProtectBelow(pages, cur), k.spaces[p].tables)]
                         [c := Space(Below(Protect(pages), cur), tabs)],
       used := k.used + FramesOf(tabs))
  }

  lemma ForkProgressAt(k: Kernel, p: nat, c: nat, cur: nat, tabs: map<nat, Tab>)
    requires p < |k.spaces| && c < |k.spaces| && p != c
    ensures var k' := ForkProgress(k, p, c, cur, tabs);
      && |k'.spaces| == |k.spaces|
      && k'.spaces[p] == Space(ProtectBelow(k.spaces[p].pages, cur), k.spaces[p].tables)
      && k'.spaces[c] == Space(Below(Protect(k.spaces[p].pages), cur), tabs)
  {
  }

  function Below(pages: map<nat, Pte>, cur: nat): map<nat, Pte>
  {
    map v | v in pages && v < cur :: pages[v]
  }

  function ProtectBelow(pages: map<nat, Pte>, cur: nat): map<nat, Pte>
  {
    map v | v in pages :: if v < cur then Protect(pages)[v] else pages[v]
  }

  function SlotsOf(pages: map<nat, Pte>): set<nat> { set v | v in pages :: Slot(v) }

  ghost predicate TabsFresh(k: Kernel, tabs: map<nat, Tab>)
  {
    && (forall i :: i in tabs ==> Fresh(k, tabs[i].frame))
    && (forall i, j :: i in tabs && j in tabs && i != j ==> tabs[i].frame != tabs[j].frame)
  }

  /** Pages the fork loop passes over without a mapping leave everything as it was. */
  lemma ForkSkips(k: Kernel, p: nat, c: nat, cur: nat, cur': nat, tabs: map<nat, Tab>)
    requires p < |k.spaces| && c < |k.spaces| && p != c && cur <= cur'
    requires forall v :: v in k.spaces[p].pages ==> !(cur <= v < cur')
    ensures ForkProgress(k, p, c, cur', tabs) == ForkProgress(k, p, c, cur, tabs)
    ensures SlotsOf(Below(k.spaces[p].pages, cur')) == SlotsOf(Below(k.spaces[p].pages, cur))
  {
    var pages := k.spaces[p].pages;
    assert ProtectBelow(pages, cur') == ProtectBelow(pages, cur);
    assert Below(Protect(pages), cur') == Below(Protect(pages), cur);
    assert Below(pages, cur') == Below(pages, cur);
  }

  lemma ForkPasses(k: Kernel, p: nat, c: nat, v: nat, tabs: map<nat, Tab>)
    requires p < |k.spaces| && c < |k.spaces| && p != c && v !in k.spaces[p].pages
    ensures ForkProgress(k, p, c, v + 1, tabs) == ForkProgress(k, p, c, v, tabs)
    ensures SlotsOf(Below(k.spaces[p].pages, v + 1)) == SlotsOf(Below(k.spaces[p].pages, v))
  {
    ForkSkips(k, p, c, v, v + 1, tabs);
  }

  lemma SlotIndex(i: nat, j: nat)
    requires j < TABLE_ENTRIES
    ensures Slot(i * TABLE_ENTRIES + j) == i
  {
  }

  lemma ForkStarts(k: Kernel, p: nat, c: nat)
    requires Inv(k) && p < |k.spaces| && c < |k.spaces| && p != c && k.spaces[c] == EmptySpace
    ensures ForkProgress(k, p, c, FirstUserPage(), map[]) == k
    ensures SlotsOf(Below(k.spaces[p].pages, FirstUserPage())) == {}
  {
    var pages := k.spaces[p].pages;
    forall v | v in pages ensures v >= FirstUserPage() {
      assert Maps(k, p, v);
    }
    assert ProtectBelow(pages, FirstUserPage()) == pages;
    assert Below(pages, FirstUserPage()) == map[] && Below(Protect(pages), FirstUserPage()) == map[];
    assert ForkProgress(k, p, c, FirstUserPage(), map[]).spaces == k.spaces;
  }

  lemma ForkEnds(k: Kernel, p: nat, c: nat, tabs: map<nat, Tab>)
    requires Inv(k) && p < |k.spaces| && c < |k.spaces| && p != c && k.spaces[c] == EmptySpace
    requires tabs.Keys == SlotsOf(Below(k.spaces[p].pages, SELF_SLOT * TABLE_ENTRIES)) && TabsFresh(k, tabs)
    ensures Enabled(k, Fork(p, c, tabs))
    ensures ForkProgress(k, p, c, SELF_SLOT * TABLE_ENTRIES, tabs) == Step(k, Fork(p, c, tabs))
  {
    var pages, cur := k.spaces[p].pages, SELF_SLOT * TABLE_ENTRIES;
    forall v | v in pages ensures v < cur {
      assert Maps(k, p, v);
    }
    assert Below(pages, cur) == pages;
    assert ProtectBelow(pages, cur) == Protect(pages) && Below(Protect(pages), cur) == Protect(pages);
  }

  lemma BelowAdvances(pages: map<nat, Pte>, v: nat)
    requires v in pages
    ensures Below(Protect(pages), v)[v := Protect(pages)[v]] == Below(Protect(pages), v + 1)
    ensures ProtectBelow(pages, v)[v := Protect(pages)[v]] == ProtectBelow(pages, v + 1)
    ensures !pages[v].owned ==> ProtectBelow(pages, v) == ProtectBelow(pages, v + 1)
  {
  }

  lemma SlotsAdvance(pages: map<nat, Pte>, v: nat)
    requires v in pages
    ensures SlotsOf(Below(pages, v + 1)) == SlotsOf(Below(pages, v)) + {Slot(v)}
  {
    assert Below(pages, v + 1) == Below(pages, v)[v := pages[v]];
    assert v in Below(pages, v + 1);
    forall w | w in Below(pages, v) ensures Slot(w) in SlotsOf(Below(pages, v + 1)) {
      assert w in Below(pages, v + 1);
    }
  }

  /** The child's tables after mapping page `v`. */
  function TabsWith(tabs: map<nat, Tab>, v: nat, t: Frame, owned: bool): map<nat, Tab>
  {
    if Slot(v) in tabs then tabs else tabs[Slot(v) := Tab(t, owned)]
  }

  lemma TabsWithFrames(tabs: map<nat, Tab>, v: nat, t: Frame, owned: bool)
    ensures FramesOf(TabsWith(tabs, v, t, owned)) == if Slot(v) in tabs then FramesOf(tabs) else FramesOf(tabs) + {t}
    ensures TabsWith(tabs, v, t, owned).Keys == tabs.Keys + {Slot(v)}
  {
    var tabs' := TabsWith(tabs, v, t, owned);
    if Slot(v) !in tabs {
      assert forall j :: j in tabs ==> tabs'[j] == tabs[j];
      assert tabs'[Slot(v)].frame == t;
    }
  }

  /** Mapping page `v` into the child. */
  lemma ForkMapsChild(k: Kernel, p: nat, c: nat, v: nat, tabs: map<nat, Tab>, t: Frame)
    requires p < |k.spaces| && c < |k.spaces| && p != c && v in k.spaces[p].pages
    ensures var pages := k.spaces[p].pages; var pte := Protect(pages)[v]; var tabs' := TabsWith(tabs, v, t, pte.owned);
      MapPage(ForkProgress(k, p, c, v, tabs), c, v, pte, t)
      == ForkProgress(k, p, c, v + 1, tabs').(spaces :=
           ForkProgress(k, p, c, v + 1, tabs').spaces[p := Space(ProtectBelow(pages, v), k.spaces[p].tables)])
  {
    var pages := k.spaces[p].pages;
    var pte := Protect(pages)[v];
    var tabs' := TabsWith(tabs, v, t, pte.owned);
    BelowAdvances(pages, v);
    TabsWithFrames(tabs, v, t, pte.owned);
    var a := MapPage(ForkProgress(k, p, c, v, tabs), c, v, pte, t);
    var k' := ForkProgress(k, p, c, v + 1, tabs');
    assert a.spaces == k'.spaces[p := Space(ProtectBelow(pages, v), k.spaces[p].tables)];
  }

  /** A table taken for the child is fresh, and only slots of the parent's pages need one. */
  lemma TabsWithFresh(k: Kernel, pages: map<nat, Pte>, tabs: map<nat, Tab>, v: nat, t: Frame, owned: bool)
    requires TabsFresh(k, tabs) && v in pages && tabs.Keys == SlotsOf(Below(pages, v))
    requires Slot(v) in tabs || (Fresh(k, t) && t !in FramesOf(tabs))
    ensures TabsFresh(k, TabsWith(tabs, v, t, owned))
    ensures |TabsWith(tabs, v, t, owned)| == |tabs| + (if Slot(v) in tabs then 0 else 1)
  {
    assert forall i :: i in tabs ==> tabs[i].frame in FramesOf(tabs);
  }

  lemma TableStillNeeded(pages: map<nat, Pte>, tabs: map<nat, Tab>, v: nat)
    requires v in pages && tabs.Keys == SlotsOf(Below(pages, v))
    ensures Slot(v) !in tabs ==> |tabs| < |SlotsOf(pages)|
  {
    if Slot(v) !in tabs {
      forall i | i in tabs.Keys ensures i in SlotsOf(pages) {
        var w :| w in Below(pages, v) && Slot(w) == i;
        assert w in pages;
      }
      assert Slot(v) in SlotsOf(pages);
      Smaller(tabs.Keys, SlotsOf(pages), Slot(v));
    }
  }

  lemma Smaller(a: set<nat>, b: set<nat>, x: nat)
    requires a <= b && x in b && x !in a
    ensures |a| < |b|
  {
    assert a <= b - {x};
    SubsetSize(a, b - {x});
  }

  /** One page copied: entry into the child first, then write permission taken from the parent. */
  lemma ForkAdvances(k: Kernel, p: nat, c: nat, v: nat, tabs: map<nat, Tab>, t: Frame)
    requires p < |k.spaces| && c < |k.spaces| && p != c && v in k.spaces[p].pages
    requires HasTable(k, p, Slot(v)) && tabs.Keys == SlotsOf(Below(k.spaces[p].pages, v))
    ensures var pte := Protect(k.spaces[p].pages)[v]; var tabs' := TabsWith(tabs, v, t, pte.owned);
      var k1 := MapPage(ForkProgress(k, p, c, v, tabs), c, v, pte, t);
      && (forall t' :: MapPage(k1, p, v, pte, t') == ForkProgress(k, p, c, v + 1, tabs'))
      && (!pte.owned ==> k1 == ForkProgress(k, p, c, v + 1, tabs'))
      && tabs'.Keys == SlotsOf(Below(k.spaces[p].pages, v + 1))
  {
    var pages := k.spaces[p].pages;
    var pte := Protect(pages)[v];
    var tabs' := TabsWith(tabs, v, t, pte.owned);
    ForkMapsChild(k, p, c, v, tabs, t);
    BelowAdvances(pages, v);
    SlotsAdvance(pages, v);
    TabsWithFrames(tabs, v, t, pte.owned);
    var k1 := MapPage(ForkProgress(k, p, c, v, tabs), c, v, pte, t);
    var k' := ForkProgress(k, p, c, v + 1, tabs');
    assert k1.spaces[p] == Space(ProtectBelow(pages, v), k.spaces[p].tables);
    assert k1.spaces[p := k'.spaces[p]] == k'.spaces;
  }

  /** A table taken for the child uses up one free frame. */
  lemma ForkFramesLeft(ram: set<Frame>, used: set<Frame>, tabs: map<nat, Tab>, v: nat, t: Frame, owned: bool)
    requires Slot(v) in tabs || (t in ram && t !in used)
    ensures var used' := if Slot(v) in tabs then used else used + {t};
      |ram - used'| + |TabsWith(tabs, v, t, owned)| == |ram - used| + |tabs|
  {
    if Slot(v) !in tabs {
      assert ram - (used + {t}) == (ram - used) - {t};
    }
  }

  /** Teardown has treated the pages below `cur` and the tables below slot `i`. */
  function DestroyProgress(k: Kernel, s: nat, all: bool, i: nat, cur: nat): Kernel
    requires s < |k.spaces|
  {
    k.(spaces := k.spaces[s := Space(Remaining(k.spaces[s], all, i, cur), TablesFrom(k.spaces[s], i))],
       used := k.used - PagesFreed(k.spaces[s], all, cur) - TablesFreed(k.spaces[s], i))
  }

  function Remaining(sp: Space, all: bool, i: nat, cur: nat): map<nat, Pte>
  {
    map v | v in sp.pages && !(v < cur && Releases(sp, all, v)) && !(Slot(v) < i && TableReleased(sp, Slot(v)))
      :: sp.pages[v]
  }

  function TablesFrom(sp: Space, i: nat): map<nat, Tab>
  {
    map t | t in sp.tables && !(t < i && TableReleased(sp, t)) :: sp.tables[t]
  }

  function PagesFreed(sp: Space, all: bool, cur: nat): set<Frame>
  {
    set v | v in sp.pages && v < cur && Releases(sp, all, v) :: sp.pages[v].frame
  }

  function TablesFreed(sp: Space, i: nat): set<Frame>
  {
    set t | t in sp.tables && t < i && TableReleased(sp, t) :: sp.tables[t].frame
  }

  lemma DestroyStarts(k: Kernel, s: nat, all: bool)
    requires s < |k.spaces|
    ensures DestroyProgress(k, s, all, USER_SLOT_LO, USER_SLOT_LO * TABLE_ENTRIES) == k
  {
    var sp := k.spaces[s];
    assert Remaining(sp, all, USER_SLOT_LO, USER_SLOT_LO * TABLE_ENTRIES) == sp.pages;
    assert TablesFrom(sp, USER_SLOT_LO) == sp.tables;
    assert k.spaces[s := sp] == k.spaces;
  }

  lemma DestroyEnds(k: Kernel, s: nat, all: bool)
    requires s < |k.spaces|
    ensures DestroyProgress(k, s, all, DESTROY_SLOT_HI, DESTROY_SLOT_HI * TABLE_ENTRIES) == Destroyed(k, s, all)
  {
    var sp := k.spaces[s];
    var cur := DESTROY_SLOT_HI * TABLE_ENTRIES;
    assert forall v: nat :: Releases(sp, all, v) ==> v < cur;
    assert Remaining(sp, all, DESTROY_SLOT_HI, cur) == Teardown(sp, all).pages;
    assert TablesFrom(sp, DESTROY_SLOT_HI) == Teardown(sp, all).tables;
    assert PagesFreed(sp, all, cur) + TablesFreed(sp, DESTROY_SLOT_HI) == FreedFrames(sp, all);
  }

  /** Entries that are not released leave everything as it was. */
  lemma DestroySkips(k: Kernel, s: nat, all: bool, i: nat, cur: nat, cur': nat)
    requires s < |k.spaces| && cur <= cur'
    requires forall v: nat :: Releases(k.spaces[s], all, v) ==> !(cur <= v < cur')
    ensures DestroyProgress(k, s, all, i, cur') == DestroyProgress(k, s, all, i, cur)
  {
    var sp := k.spaces[s];
    assert Remaining(sp, all, i, cur') == Remaining(sp, all, i, cur);
    assert PagesFreed(sp, all, cur') == PagesFreed(sp, all, cur);
  }

  lemma DestroyKeepsTable(k: Kernel, s: nat, all: bool, i: nat, cur: nat)
    requires s < |k.spaces| && !TableReleased(k.spaces[s], i)
    ensures DestroyProgress(k, s, all, i + 1, cur) == DestroyProgress(k, s, all, i, cur)
  {
    var sp := k.spaces[s];
    assert Remaining(sp, all, i + 1, cur) == Remaining(sp, all, i, cur);
    assert TablesFrom(sp, i + 1) == TablesFrom(sp, i);
    assert TablesFreed(sp, i + 1) == TablesFreed(sp, i);
  }

  /** `k` without page `v` of space `s` and with frame `f` given back. */
  function DropPage(k: Kernel, s: nat, v: nat, f: Frame): Kernel
    requires s < |k.spaces|
  {
    k.(spaces := k.spaces[s := k.spaces[s].(pages := k.spaces[s].pages - {v})], used := k.used - {f})
  }

  /** `k` without table `i` of space `s` and the pages under it, and with the table's frame given back. */
  function DropTable(k: Kernel, s: nat, i: nat, f: Frame): Kernel
    requires s < |k.spaces|
  {
    k.(spaces := k.spaces[s := Space(OutsideSlot(k.spaces[s].pages, i), k.spaces[s].tables - {i})], used := k.used - {f})
  }

  /** Releasing page `v`: its frame is still allocated, and afterwards the page is gone. */
  lemma DestroyFreesPage(k: Kernel, s: nat, all: bool, v: nat)
    requires Inv(k) && s < |k.spaces| && Releases(k.spaces[s], all, v)
    ensures var f := k.spaces[s].pages[v].frame; var k0 := DestroyProgress(k, s, all, Slot(v), v);
      f in k0.used && DestroyProgress(k, s, all, Slot(v), v + 1) == DropPage(k0, s, v, f)
  {
    var sp, i := k.spaces[s], Slot(v);
    assert Maps(k, s, v) && At(k, s, v) == sp.pages[v];
    forall w | w in sp.pages && w < v && Releases(sp, all, w) ensures sp.pages[w].frame != sp.pages[v].frame {
      assert Maps(k, s, w) && At(k, s, w) == sp.pages[w];
    }
    forall t | t in sp.tables ensures sp.tables[t].frame != sp.pages[v].frame {
      assert HasTable(k, s, t) && TableAt(k, s, t) == sp.tables[t];
    }
    assert Remaining(sp, all, i, v + 1) == Remaining(sp, all, i, v) - {v};
    assert PagesFreed(sp, all, v + 1) == PagesFreed(sp, all, v) + {sp.pages[v].frame};
    assert DestroyProgress(k, s, all, i, v + 1).spaces == DropPage(DestroyProgress(k, s, all, i, v), s, v, sp.pages[v].frame).spaces;
  }

  lemma DestroyFreesTable(k: Kernel, s: nat, all: bool, i: nat, cur: nat)
    requires Inv(k) && s < |k.spaces| && TableReleased(k.spaces[s], i) && cur == (i + 1) * TABLE_ENTRIES
    ensures var f := k.spaces[s].tables[i].frame; var k0 := DestroyProgress(k, s, all, i, cur);
      f in k0.used && DestroyProgress(k, s, all, i + 1, cur) == DropTable(k0, s, i, f)
  {
    var sp := k.spaces[s];
    assert HasTable(k, s, i) && TableAt(k, s, i) == sp.tables[i];
    forall w | w in sp.pages ensures sp.pages[w].frame != sp.tables[i].frame {
      assert Maps(k, s, w) && At(k, s, w) == sp.pages[w];
    }
    forall t | t in sp.tables && t != i ensures sp.tables[t].frame != sp.tables[i].frame {
      assert HasTable(k, s, t) && TableAt(k, s, t) == sp.tables[t];
    }
    assert Remaining(sp, all, i + 1, cur) == OutsideSlot(Remaining(sp, all, i, cur), i);
    assert TablesFrom(sp, i + 1) == TablesFrom(sp, i) - {i};
    assert TablesFreed(sp, i + 1) == TablesFreed(sp, i) + {sp.tables[i].frame};
    assert DestroyProgress(k, s, all, i + 1, cur).spaces == DropTable(DestroyProgress(k, s, all, i, cur), s, i, sp.tables[i].frame).spaces;
  }

  // ---------------------------------------------------------------------------
  // The machine's memory, as a value

  ghost function ViewOf(dirs: seq<Table>, tables: map<Frame, Table>, ram: set<Frame>, used: set<Frame>,
                        mem: map<Frame, Page>): (k: Kernel)
  {
    Kernel(seq(|dirs|, s requires 0 <= s < |dirs| => SpaceOf(dirs[s], tables)), ram, used, mem)
  }

  predicate KernelSlot(i: int) { USER_SLOT_HI <= i < SELF_SLOT }

  /** Slots 960 to 1022 are the kernel's: the same tables in every directory, none of them
      owned, holding no owned page.  Directory 0 is the kernel's own. */
  ghost predicate KernelSlotsWf(dirs: seq<Table>, tables: map<Frame, Table>)
    requires TablesWf(dirs, tables)
  {
    && |dirs| > 0
    && (forall s, i {:trigger dirs[s][i]} :: 0 <= s < |dirs| && KernelSlot(i)
          ==> dirs[s][i] == dirs[0][i] && !dirs[s][i].owned)
    && (forall i, j :: KernelSlot(i) && Filled(dirs, 0, i) && 0 <= j < TABLE_ENTRIES
          ==> !tables[dirs[0][i].frame][j].owned)
  }

  ghost predicate MemoryWf(dirs: seq<Table>, tables: map<Frame, Table>, ram: set<Frame>, used: set<Frame>)
  {
    && TablesWf(dirs, tables) && KernelSlotsWf(dirs, tables)
    && (forall s, i :: Filled(dirs, s, i) ==> !(dirs[s][i].frame in ram && dirs[s][i].frame !in used))
  }

  /** Frames of the kernel's shared tables. */
  ghost function KernelFrames(dirs: seq<Table>): set<Frame>
    requires |dirs| > 0 && |dirs[0]| == TABLE_ENTRIES
  {
    set i: int | USER_SLOT_HI <= i < SELF_SLOT && KernelSlot(i) && dirs[0][i].present :: dirs[0][i].frame
  }

  /** No space maps one of the frames `fs`. */
  ghost predicate Apart(k: Kernel, fs: set<Frame>)
  {
    forall s, v :: Maps(k, s, v) ==> At(k, s, v).frame !in fs
  }

  /** Steps on user pages map no frame that was held for another purpose. */
  lemma StepKeepsApart(k: Kernel, e: Event, fs: set<Frame>)
    requires Inv(k) && Enabled(k, e) && !e.MapForeign? && Apart(k, fs)
    requires forall f :: f in fs ==> !Fresh(k, f)
    ensures Apart(Step(k, e), fs)
  {
    var k' := Step(k, e);
    if e.Fork? {
      ForkEntries(k, e.parent, e.child, e.tabs);
    } else if e.Write? || e.Grow? {
      var f := if e.Write? then e.copy else e.page;
      assert forall s', v' :: Maps(k', s', v') ==>
        (At(k', s', v').frame == f && Fresh(k, f)) || (Maps(k, s', v') && At(k', s', v') == At(k, s', v'));
    } else {
      assert forall s', v' :: Maps(k', s', v') ==> Maps(k, s', v') && At(k', s', v') == At(k, s', v');
    }
  }

  /** The kernel's own tables are not free frames. */
  lemma KernelFramesHeld(dirs: seq<Table>, tables: map<Frame, Table>, ram: set<Frame>, used: set<Frame>, mem: map<Frame, Page>)
    requires MemoryWf(dirs, tables, ram, used)
    ensures forall f :: f in KernelFrames(dirs) ==> !Fresh(ViewOf(dirs, tables, ram, used, mem), f)
  {
    forall f | f in KernelFrames(dirs) ensures !(f in ram && f !in used) {
      var i :| KernelSlot(i) && dirs[0][i].present && dirs[0][i].frame == f;
      assert Filled(dirs, 0, i);
    }
  }

  /** Page `v` copied into frame `copy` and mapped writable and owned. */
  function Privatized(k: Kernel, s: nat, v: nat, copy: Frame): Kernel
    requires Maps(k, s, v) && At(k, s, v).frame in k.mem
  {
    MapPage(k, s, v, Pte(copy, true, true, true), 0)
      .(used := k.used + {copy}, mem := k.mem[copy := k.mem[At(k, s, v).frame]])
  }

  /** Copying the page and then storing into the copy is the machine's faulting store. */
  lemma StoreIsStep(k: Kernel, k': Kernel, s: nat, v: nat, off: nat, b: Byte, copy: Frame)
    requires PagesWf(k) && Maps(k, s, v) && off < PAGE_SIZE
    requires !At(k, s, v).write ==> Fresh(k, copy)
    requires var k1 := if At(k, s, v).write then k else Privatized(k, s, v, copy);
      Maps(k1, s, v) && At(k1, s, v).frame in k1.mem
      && k' == k1.(mem := k1.mem[At(k1, s, v).frame := Poke(k1.mem[At(k1, s, v).frame], off, b)])
    ensures Enabled(k, Write(s, v, off, b, copy)) && k' == Step(k, Write(s, v, off, b, copy))
  {
    if !At(k, s, v).write {
      var f := At(k, s, v).frame;
      assert k.mem[copy := k.mem[f]][copy := Poke(k.mem[f], off, b)] == k.mem[copy := Poke(k.mem[f], off, b)];
    }
  }

  /** Taking the page frame first and the table frame second is the Grow step. */
  lemma GrowView(k: Kernel, s: nat, v: nat, f: Frame, t: Frame) returns (t': Frame)
    requires PagesWf(k) && s < |k.spaces| && UserPage(v) && Fresh(k, f)
    requires TableReady(k.(used := k.used + {f}), s, v, t)
    ensures f in k.mem && Enabled(k, Grow(s, v, f, t', k.mem[f]))
    ensures MapPage(k.(used := k.used + {f}), s, v, Pte(f, true, true, true), t) == Step(k, Grow(s, v, f, t', k.mem[f]))
  {
    // When the table exists no second frame is taken, and any other number stands for it.
    t' := if Slot(v) in k.spaces[s].tables then f + 1 else t;
    assert k.mem[f := k.mem[f]] == k.mem;
  }

  /** Storing into an existing user table updates one entry of the view. */
  lemma StoreView(dirs: seq<Table>, tables: map<Frame, Table>, ram: set<Frame>, used: set<Frame>,
                  mem: map<Frame, Page>, s: nat, v: nat, e: Entry)
    requires MemoryWf(dirs, tables, ram, used)
    requires s < |dirs| && UserPage(v) && dirs[s][Slot(v)].present && EntryWf(e)
    ensures var tables' := StoreEntry(tables, dirs[s][Slot(v)].frame, v % TABLE_ENTRIES, e);
      var k := ViewOf(dirs, tables, ram, used, mem); var pages := k.spaces[s].pages;
      && MemoryWf(dirs, tables', ram, used)
      && ViewOf(dirs, tables', ram, used, mem)
         == k.(spaces := k.spaces[s := k.spaces[s].(pages := if e.present then pages[v := ToPte(e)] else pages - {v})])
  {
    var tables' := StoreEntry(tables, dirs[s][Slot(v)].frame, v % TABLE_ENTRIES, e);
    StoreEntrySpaces(dirs, tables, s, v, e);
    assert Filled(dirs, s, Slot(v));
    assert forall i :: KernelSlot(i) && Filled(dirs, 0, i) ==> tables'[dirs[0][i].frame] == tables[dirs[0][i].frame];
    var k := ViewOf(dirs, tables, ram, used, mem);
    var pages := k.spaces[s].pages;
    assert ViewOf(dirs, tables', ram, used, mem).spaces
        == k.spaces[s := k.spaces[s].(pages := if e.present then pages[v := ToPte(e)] else pages - {v})];
  }

  /** Putting a zeroed table behind an empty user slot only records the table. */
  lemma AddTableView(dirs: seq<Table>, tables: map<Frame, Table>, ram: set<Frame>, used: set<Frame>,
                     mem: map<Frame, Page>, s: nat, i: nat, d: Entry)
    requires MemoryWf(dirs, tables, ram, used)
    requires s < |dirs| && USER_SLOT_LO <= i < USER_SLOT_HI && !dirs[s][i].present && d.present && NoTable(dirs, d.frame)
    ensures var dirs', tables', used' := dirs[s := dirs[s][i := d]], tables[d.frame := ZeroTable()], used + {d.frame};
      var k := ViewOf(dirs, tables, ram, used, mem);
      && MemoryWf(dirs', tables', ram, used')
      && ViewOf(dirs', tables', ram, used', mem)
         == k.(spaces := k.spaces[s := Space(k.spaces[s].pages, k.spaces[s].tables[i := Tab(d.frame, d.owned)])], used := used')
  {
    var dirs', tables', used' := dirs[s := dirs[s][i := d]], tables[d.frame := ZeroTable()], used + {d.frame};
    AddTableSpaces(dirs, tables, s, i, d);
    var k := ViewOf(dirs, tables, ram, used, mem);
    assert forall s', i' :: Filled(dirs', s', i') ==>
      (if s' == s && i' == i then dirs'[s'][i'] == d else Filled(dirs, s', i') && dirs'[s'][i'] == dirs[s'][i']);
    assert ViewOf(dirs', tables', ram, used', mem).spaces
        == k.spaces[s := Space(k.spaces[s].pages, k.spaces[s].tables[i := Tab(d.frame, d.owned)])];
  }

  /** Clearing an entry and giving its frame back. */
  lemma ClearView(dirs: seq<Table>, tables: map<Frame, Table>, ram: set<Frame>, used: set<Frame>,
                  mem: map<Frame, Page>, s: nat, v: nat, f: Frame)
    requires MemoryWf(dirs, tables, ram, used) && NoTable(dirs, f)
    requires s < |dirs| && UserPage(v) && dirs[s][Slot(v)].present
    ensures var tables' := StoreEntry(tables, dirs[s][Slot(v)].frame, v % TABLE_ENTRIES, Zero);
      && MemoryWf(dirs, tables', ram, used - {f})
      && ViewOf(dirs, tables', ram, used - {f}, mem) == DropPage(ViewOf(dirs, tables, ram, used, mem), s, v, f)
  {
    StoreView(dirs, tables, ram, used, mem, s, v, Zero);
  }

  /** Clearing a directory entry and giving its table back. */
  lemma ClearTableView(dirs: seq<Table>, tables: map<Frame, Table>, ram: set<Frame>, used: set<Frame>,
                       mem: map<Frame, Page>, s: nat, i: nat)
    requires MemoryWf(dirs, tables, ram, used) && s < |dirs| && USER_SLOT_LO <= i < USER_SLOT_HI && dirs[s][i].present
    ensures var dirs' := dirs[s := dirs[s][i := Zero]]; var f := dirs[s][i].frame;
      && MemoryWf(dirs', tables, ram, used - {f}) && KernelFrames(dirs') == KernelFrames(dirs)
      && ViewOf(dirs', tables, ram, used - {f}, mem) == DropTable(ViewOf(dirs, tables, ram, used, mem), s, i, f)
  {
    var dirs', f := dirs[s := dirs[s][i := Zero]], dirs[s][i].frame;
    DropTableSpaces(dirs, tables, s, i);
    assert Filled(dirs, s, i);
    assert forall s', i' :: Filled(dirs', s', i') ==> Filled(dirs, s', i') && dirs'[s'][i'] == dirs[s'][i'] && (s', i') != (s, i);
    SameKernelFrames(dirs, dirs');
    assert ViewOf(dirs', tables, ram, used - {f}, mem).spaces == DropTable(ViewOf(dirs, tables, ram, used, mem), s, i, f).spaces;
  }

  lemma SameKernelFrames(dirs: seq<Table>, dirs': seq<Table>)
    requires |dirs| > 0 && |dirs[0]| == TABLE_ENTRIES && |dirs'| > 0 && |dirs'[0]| == TABLE_ENTRIES
    requires forall i :: KernelSlot(i) ==> dirs'[0][i] == dirs[0][i]
    ensures KernelFrames(dirs') == KernelFrames(dirs)
  {
  }

  /** The directories and tables after mapping page `v` with entry `e`, `t` being the frame
      taken for a table that was missing. */
  function MapTables(dirs: seq<Table>, tables: map<Frame, Table>, s: nat, v: nat, e: Entry, t: Frame)
    : (seq<Table>, map<Frame, Table>)
    requires s < |dirs| && Slot(v) < |dirs[s]|
    requires dirs[s][Slot(v)].present ==>
      dirs[s][Slot(v)].frame in tables && |tables[dirs[s][Slot(v)].frame]| == TABLE_ENTRIES
  {
    if dirs[s][Slot(v)].present then
      (dirs, StoreEntry(tables, dirs[s][Slot(v)].frame, v % TABLE_ENTRIES, e))
    else
      (dirs[s := dirs[s][Slot(v) := Entry(t, true, true, e.user, e.owned)]],
       StoreEntry(tables[t := ZeroTable()], t, v % TABLE_ENTRIES, e))
  }

  /** Two-level tables refine a map: whether or not a table had to be added, mapping a page
      updates that page of that space and leaves every other page of every space alone. */
  lemma MapTablesView(dirs: seq<Table>, tables: map<Frame, Table>, ram: set<Frame>, used: set<Frame>,
                      mem: map<Frame, Page>, s: nat, v: nat, e: Entry, t: Frame)
    requires MemoryWf(dirs, tables, ram, used) && s < |dirs| && UserPage(v) && e.present
    requires !dirs[s][Slot(v)].present ==> t in ram && t !in used
    ensures var (dirs', tables') := MapTables(dirs, tables, s, v, e, t);
      var used' := if dirs[s][Slot(v)].present then used else used + {t};
      && MemoryWf(dirs', tables', ram, used') && KernelFrames(dirs') == KernelFrames(dirs)
      && ViewOf(dirs', tables', ram, used', mem) == MapPage(ViewOf(dirs, tables, ram, used, mem), s, v, ToPte(e), t)
  {
    var k := ViewOf(dirs, tables, ram, used, mem);
    SameKernelFrames(dirs, MapTables(dirs, tables, s, v, e, t).0);
    if dirs[s][Slot(v)].present {
      StoreView(dirs, tables, ram, used, mem, s, v, e);
    } else {
      var d := Entry(t, true, true, e.user, e.owned);
      AddTableView(dirs, tables, ram, used, mem, s, Slot(v), d);
      StoreView(dirs[s := dirs[s][Slot(v) := d]], tables[t := ZeroTable()], ram, used + {t}, mem, s, v, e);
    }
  }

  /** The entry the fork loop reads at `v` is the parent's original one. */
  lemma ForkReads(dir: Table, tables: map<Frame, Table>, pages: map<nat, Pte>, v: nat)
    requires UserPage(v) && PagesOf(dir, tables) == ProtectBelow(pages, v)
    ensures v in pages <==> Lookup(dir, tables, v).present
    ensures v in pages ==> ToPte(Lookup(dir, tables, v)) == pages[v]
  {
    PageMember(dir, tables, v);
  }

  /** A space has no pages under a directory slot without a table. */
  lemma EmptySlot(k: Kernel, p: nat, dir: Table, i: nat)
    requires PagesWf(k) && p < |k.spaces| && k.spaces[p].tables == TabsOf(dir) && i < |dir| && !dir[i].present
    ensures forall v :: v in k.spaces[p].pages ==> !(i * TABLE_ENTRIES <= v < (i + 1) * TABLE_ENTRIES)
  {
    forall v | v in k.spaces[p].pages ensures !(i * TABLE_ENTRIES <= v < (i + 1) * TABLE_ENTRIES) {
      assert Maps(k, p, v) && HasTable(k, p, Slot(v));
      if i * TABLE_ENTRIES <= v < (i + 1) * TABLE_ENTRIES {
        SlotIndex(i, v - i * TABLE_ENTRIES);
      }
    }
  }

  /** In the kernel's slots parent and child read the same, foreign, entry. */
  lemma KernelEntryShared(dirs: seq<Table>, tables: map<Frame, Table>, p: nat, c: nat, v: nat)
    requires TablesWf(dirs, tables) && KernelSlotsWf(dirs, tables) && p < |dirs| && c < |dirs| && KernelSlot(Slot(v))
    ensures Lookup(dirs[p], tables, v) == Lookup(dirs[c], tables, v) && !Lookup(dirs[p], tables, v).owned
  {
    assert dirs[p][Slot(v)] == dirs[0][Slot(v)] && dirs[c][Slot(v)] == dirs[0][Slot(v)];
    if dirs[0][Slot(v)].present {
      assert Filled(dirs, 0, Slot(v));
    }
  }

  /** Appending a directory with zeroed user slots appends an empty space. */
  lemma NewDirectory(dirs: seq<Table>, tables: map<Frame, Table>, ram: set<Frame>, used: set<Frame>,
                     mem: map<Frame, Page>, pd: Table)
    requires MemoryWf(dirs, tables, ram, used) && |pd| == TABLE_ENTRIES
    requires forall i :: USER_SLOT_LO <= i < USER_SLOT_HI ==> pd[i] == Zero
    requires forall i :: KernelSlot(i) ==> pd[i] == dirs[0][i]
    ensures MemoryWf(dirs + [pd], tables, ram, used) && KernelFrames(dirs + [pd]) == KernelFrames(dirs)
    ensures var k := ViewOf(dirs, tables, ram, used, mem);
      ViewOf(dirs + [pd], tables, ram, used, mem) == k.(spaces := k.spaces + [EmptySpace])
  {
    var dirs' := dirs + [pd];
    assert forall s, i :: Filled(dirs', s, i) ==>
      if s == |dirs| then KernelSlot(i) && Filled(dirs, 0, i) && dirs'[s][i] == dirs[0][i]
      else Filled(dirs, s, i) && dirs'[s][i] == dirs[s][i];
    assert TabsOf(pd) == map[] && PagesOf(pd, tables) == map[];
    SameKernelFrames(dirs, dirs');
  }

  /** A new directory: kernel slots copied without the ownership bit, user slots zero, the
      last slot the directory itself. */
  method BuildDirectory(kernel: Table, self: Frame) returns (pd: Table)
    requires |kernel| == TABLE_ENTRIES
    ensures |pd| == 1024 && pd[1023] == Entry(self, true, true, false, false)
    ensures forall m :: 0 <= m < 256 || 960 <= m < 1023 ==> pd[m] == kernel[m].(owned := false)
    ensures forall m :: 256 <= m < 960 ==> pd[m] == Zero
  {
    pd := [];
    for i := 0 to USER_SLOT_LO
      invariant |pd| == i && forall m :: 0 <= m < i ==> pd[m] == kernel[m].(owned := false)
    {
      pd := pd + [kernel[i].(owned := false)];
    }
    for i := USER_SLOT_LO to USER_SLOT_HI
      invariant |pd| == i && forall m :: 0 <= m < USER_SLOT_LO ==> pd[m] == kernel[m].(owned := false)
      invariant forall m :: USER_SLOT_LO <= m < i ==> pd[m] == Zero
    {
      pd := pd + [Zero];
    }
    for i := USER_SLOT_HI to SELF_SLOT
      invariant |pd| == i && forall m :: 0 <= m < USER_SLOT_LO ==> pd[m] == kernel[m].(owned := false)
      invariant forall m :: USER_SLOT_LO <= m < USER_SLOT_HI ==> pd[m] == Zero
      invariant forall m :: KernelSlot(m) && m < i ==> pd[m] == kernel[m].(owned := false)
    {
      pd := pd + [kernel[i].(owned := false)];
    }
    pd := pd + [Entry(self, true, true, false, false)];
  }

  /** What the machine says about a space is what the processor walks: a page is mapped if and only
      if, between 0x40000000 and 0xF0000000, directory entry a / 4 MB and entry a / 4 KB modulo
      1024 of its table are present, and then with that entry's frame and bits. */
  lemma ViewIsWalk(dirs: seq<Table>, tables: map<Frame, Table>, ram: set<Frame>, used: set<Frame>, mem: map<Frame, Page>,
                   s: nat, a: nat)
    requires TablesWf(dirs, tables) && s < |dirs| && a < 0x1_0000_0000
    ensures var k, d := ViewOf(dirs, tables, ram, used, mem), dirs[s][a / 0x40_0000];
      var there := 0x4000_0000 <= a < 0xF000_0000 && d.present;
      && (there ==> d.frame in tables && |tables[d.frame]| == 1024)
      && (HasTable(k, s, a / 0x40_0000) <==> there)
      && (there ==> TableAt(k, s, a / 0x40_0000).frame == d.frame && TableAt(k, s, a / 0x40_0000).owned == d.owned)
      && (Maps(k, s, a / 0x1000) <==> there && tables[d.frame][a / 0x1000 % 1024].present)
      && (Maps(k, s, a / 0x1000) ==>
            var p, e := At(k, s, a / 0x1000), tables[d.frame][a / 0x1000 % 1024];
            p.frame == e.frame && p.write == e.write && p.user == e.user && p.owned == e.owned)
  {
    var v, i := a / 0x1000, a / 0x40_0000;
    assert v / 1024 == i && Slot(v) == i;
    assert 0x4000_0000 <= a < 0xF000_0000 <==> 256 <= i < 960;
    assert ViewOf(dirs, tables, ram, used, mem).spaces[s] == SpaceOf(dirs[s], tables);
    PageMember(dirs[s], tables, v);
    WalkByAddress(dirs[s], tables, a);
    if 256 <= i < 960 && dirs[s][i].present {
      assert Walkable(i) && dirs[s][i].frame in tables;
    }
  }

  // ---------------------------------------------------------------------------
  // The machine

  class Mmu {
    var dirs: seq<Table>               // page directories; dirs[0] is the kernel's
    var tables: map<Frame, Table>      // page tables, by frame
    const alloc: Allocator             // the page bitmap
    ghost var ram: set<Frame>          // frames it can hand out or has handed out
    ghost var used: set<Frame>         // those it has handed out
    var mem: map<Frame, Page>          // page frames

    ghost function View(): Kernel
      reads this
    {
      ViewOf(dirs, tables, ram, used, mem)
    }

    ghost predicate Wf()
      reads this
    {
      MemoryWf(dirs, tables, ram, used)
    }

    ghost predicate Valid()
      reads this
    {
      && Wf() && Inv(View())
      && Apart(View(), KernelFrames(dirs))
    }

    /** The bitmap marks exactly the frames in use. */
    ghost predicate Glued()
      reads `ram, `used, alloc, alloc.physMap
    {
      Agrees(alloc, ram, used)
    }

    /** The machine after boot: the kernel's directory only, its user slots empty. */
    constructor (kernel: Table, tables: map<Frame, Table>, alloc: Allocator, ghost ram: set<Frame>, ghost used: set<Frame>,
                 mem: map<Frame, Page>)
      requires Agrees(alloc, ram, used)
      requires |kernel| == TABLE_ENTRIES && MemoryWf([kernel], tables, ram, used) && ram <= mem.Keys
      requires forall i :: USER_SLOT_LO <= i < USER_SLOT_HI ==> !kernel[i].present
      ensures Valid() && Glued() && View() == Kernel([EmptySpace], ram, used, mem) && this.alloc == alloc
    {
      this.dirs, this.tables, this.alloc := [kernel], tables, alloc;
      this.ram, this.used, this.mem := ram, used, mem;
      new;
      assert TabsOf(kernel) == map[] && PagesOf(kernel, tables) == map[];
      assert View().spaces == [EmptySpace];
    }

    /** alloc_getPage. */
    method GetPage() returns (f: Frame)
      requires ram - used != {}
      requires Glued()
      modifies this`used, alloc, alloc.physMap
      ensures Glued()
      ensures f in ram && f !in old(used) && used == old(used) + {f}
    {
      f := Take(alloc, ram, used);
      used := used + {f};
    }

    /** alloc_freePage.  Its precondition is the absence of double frees. */
    method FreePage(f: Frame)
      requires f in used
      requires Glued()
      modifies this`used, alloc, alloc.physMap
      ensures Glued()
      ensures used == old(used) - {f}
    {
      Give(alloc, f, ram, used);
      used := used - {f};
    }

    /** add_page_to_pd: store an entry, allocating and zeroing a page table first if the
        directory slot is empty.  In the kernel's slots only the entry already there is stored. */
    method AddPageToPd(s: nat, v: nat, e: Entry) returns (ghost t: Frame)
      requires Wf() && s < |dirs| && Walkable(Slot(v)) && e.present
      requires !UserPage(v) ==> Lookup(dirs[s], tables, v) == e
      requires !dirs[s][Slot(v)].present ==> ram - used != {}
      requires Glued()
      modifies this`dirs, this`tables, this`used, alloc, alloc.physMap
      ensures Glued()
      ensures Wf() && KernelFrames(dirs) == old(KernelFrames(dirs))
      ensures UserPage(v) ==> View() == MapPage(old(View()), s, v, ToPte(e), t) && TableReady(old(View()), s, v, t)
      ensures !UserPage(v) ==> dirs == old(dirs) && tables == old(tables)
      ensures used == if old(dirs[s][Slot(v)].present) then old(used) else old(used) + {t}
      ensures |dirs| == |old(dirs)| && |dirs[s]| == TABLE_ENTRIES && dirs[s][Slot(v)].present
      ensures !old(dirs[s][Slot(v)].present) ==> dirs[s][v / 1024] == Entry(t, true, true, e.user, e.owned)
      ensures forall i :: 0 <= i < 1024 && (i != v / 1024 || old(dirs[s][Slot(v)].present)) ==> dirs[s][i] == old(dirs[s])[i]
      ensures forall s' :: 0 <= s' < |dirs| && s' != s ==> dirs[s'] == old(dirs)[s']
    {
      hide Agrees;
      var i, j := v / TABLE_ENTRIES, v % TABLE_ENTRIES;
      t := 0;
      if !dirs[s][i].present {
        var table := GetPage();
        t := table;
        dirs := dirs[s := dirs[s][i := Entry(table, true, true, e.user, e.owned)]];
        var pt := ZeroedTable();
        tables := tables[table := pt];
      }
      tables := tables[dirs[s][i].frame := tables[dirs[s][i].frame][j := e]];
      if !UserPage(v) {
        assert tables[dirs[s][i].frame] == old(tables)[dirs[s][i].frame];
      } else {
        MapTablesView(old(dirs), old(tables), ram, old(used), mem, s, v, e, t);
      }
    }

    method ZeroedTable() returns (pt: Table)
      ensures pt == ZeroTable()
    {
      pt := [];
      for k := 0 to TABLE_ENTRIES
        invariant |pt| == k && forall m :: 0 <= m < k ==> pt[m] == Zero
      {
        pt := pt + [Zero];
      }
    }

    /** arch_mmu_newAspace: the next free directory, kernel slots copied, user slots zeroed.
        `self` is the directory's own frame.  -1 when the directory area is full. */
    method NewAspace(self: Frame) returns (s: int)
      requires Valid()
      modifies this`dirs
      ensures Valid()
      ensures |old(dirs)| <= 257 ==> s == |old(dirs)| && View() == Step(old(View()), New)
      ensures |old(dirs)| > 257 ==> s == -1 && dirs == old(dirs)
    {
      if |dirs| > DIRECTORY_AREA {
        return -1;
      }
      var pd := BuildDirectory(dirs[0], self);
      ghost var k := View();
      NewDirectory(dirs, tables, ram, used, mem, pd);
      KernelFramesHeld(dirs, tables, ram, used, mem);
      StepKeepsInv(k, New);
      StepKeepsApart(k, New, KernelFrames(dirs));
      s := |dirs|;
      dirs := dirs + [pd];
    }

    /** remove_page: clear the entry if the directory has a table for it. */
    method RemovePage(s: nat, v: nat)
      requires Valid() && s < |dirs| && UserPage(v)
      modifies this`tables
      ensures Valid() && View() == Step(old(View()), Unmap(s, v))
    {
      ghost var k := View();
      KernelFramesHeld(dirs, tables, ram, used, mem);
      StepKeepsInv(k, Unmap(s, v));
      StepKeepsApart(k, Unmap(s, v), KernelFrames(dirs));
      if !dirs[s][v / TABLE_ENTRIES].present {
        PageMember(dirs[s], tables, v);
        assert k.spaces[s].pages - {v} == k.spaces[s].pages;
        assert k.spaces[s := k.spaces[s]] == k.spaces;
        return;
      }
      StoreView(dirs, tables, ram, used, mem, s, v, Zero);
      var t := dirs[s][v / TABLE_ENTRIES].frame;
      tables := tables[t := tables[t][v % TABLE_ENTRIES := Zero]];
    }

    /** arch_mmu_getPhysical, for an address in the user slots.  A mapped page translates to
        frame plus offset.  An unmapped page gives NULL only when its table is missing too;
        otherwise the result is the bare offset (or the address itself at or below `kernelEnd`). */
    method GetPhysical(s: nat, vaddr: nat, kernelEnd: nat) returns (phys: nat)
      requires Wf() && s < |dirs| && UserPage(vaddr / PAGE_SIZE)
      ensures Maps(View(), s, vaddr / PAGE_SIZE) ==>
        phys == At(View(), s, vaddr / PAGE_SIZE).frame * PAGE_SIZE + vaddr % PAGE_SIZE
      ensures !Maps(View(), s, vaddr / PAGE_SIZE) ==>
        phys == if !HasTable(View(), s, Slot(vaddr / PAGE_SIZE)) then 0
                else if vaddr <= kernelEnd then vaddr else vaddr % PAGE_SIZE
    {
      var v := vaddr / PAGE_SIZE;
      PageMember(dirs[s], tables, v);
      assert View().spaces[s] == SpaceOf(dirs[s], tables);
      if dirs[s][v / TABLE_ENTRIES] == Zero {
        return 0;
      }
      var e := tables[dirs[s][v / TABLE_ENTRIES].frame][v % TABLE_ENTRIES];
      if !e.present && vaddr <= kernelEnd {
        return vaddr;
      }
      phys := e.frame * PAGE_SIZE + vaddr % PAGE_SIZE;
    }

    /** One turn of the loop in sbrk_page: a fresh frame mapped writable and owned. */
    method GrowPage(s: nat, v: nat) returns (ghost f: Frame, ghost t: Frame)
      requires Valid() && s < |dirs| && UserPage(v)
      requires |ram - used| >= (if dirs[s][Slot(v)].present then 1 else 2)
      requires Glued()
      modifies this`dirs, this`tables, this`used, alloc, alloc.physMap
      ensures Glued()
      ensures Valid() && f in mem
      ensures Enabled(old(View()), Grow(s, v, f, t, mem[f])) && View() == Step(old(View()), Grow(s, v, f, t, mem[f]))
    {
      hide Agrees;
      ghost var k := View();
      KernelFramesHeld(dirs, tables, ram, used, mem);
      assert ram - used != {};
      var page := GetPage();
      assert ram - used == (ram - old(used)) - {page};
      f := page;
      t := AddPageToPd(s, v, Entry(page, true, true, true, true));
      t := GrowView(k, s, v, f, t);
      StepKeepsInv(k, Grow(s, v, f, t, mem[f]));
      StepKeepsApart(k, Grow(s, v, f, t, mem[f]), KernelFrames(dirs));
    }

    // -------------------------------------------------------------------------
    // Stores and the write fault

    /** handle_COW for a fault at page `v`.  A fault on an absent page is not handled; with no
        live faulting process it counts as handled and nothing changes; a process without a
        parent, or a page whose frame number is zero, is refused.  Otherwise the page is copied
        to a fresh frame and remapped writable and owned. */
    method HandleCow(s: nat, v: nat, present: bool, faulterLive: bool, hasParent: bool)
      returns (handled: bool, ghost copy: Frame)
      requires Valid() && s < |dirs| && UserPage(v) && (present ==> Maps(View(), s, v))
      requires present && faulterLive && hasParent && At(View(), s, v).frame != 0 ==> ram - used != {}
      requires Glued()
      modifies this`dirs, this`tables, this`used, this`mem, alloc, alloc.physMap
      ensures Glued()
      ensures Wf() && KernelFrames(dirs) == old(KernelFrames(dirs))
      ensures !present || !faulterLive || !hasParent || old(At(View(), s, v)).frame == 0 ==>
        View() == old(View()) && handled == (present && !faulterLive)
      ensures present && faulterLive && hasParent && old(At(View(), s, v)).frame != 0 ==>
        && handled && Fresh(old(View()), copy)
        && View() == Privatized(old(View()), s, v, copy)
    {
      hide Agrees;
      hide KernelSlotsWf, TablesUnshared, Apart, WritableIsPrivate, OwnershipClear, TablesPrivate, FramesHeld, Privatized;
      copy := 0;
      if !present {
        return false, 0;
      }
      if !faulterLive {
        return true, 0;
      }
      if !hasParent {
        return false, 0;
      }
      var phys := GetPhysical(s, v * PAGE_SIZE, 0);
      if phys == 0 {
        return false, 0;
      }
      assert phys / PAGE_SIZE == At(View(), s, v).frame;
      copy := CopyPage(s, v, phys / PAGE_SIZE);
      handled := true;
    }

    /** alloc_getPage, copy_page_physical, arch_mmu_mapPage. */
    method CopyPage(s: nat, v: nat, from: Frame) returns (ghost copy: Frame)
      requires Wf() && PagesWf(View()) && Maps(View(), s, v) && At(View(), s, v).frame == from && ram - used != {}
      requires Glued()
      modifies this`dirs, this`tables, this`used, this`mem, alloc, alloc.physMap
      ensures Glued()
      ensures Wf() && KernelFrames(dirs) == old(KernelFrames(dirs))
      ensures Fresh(old(View()), copy) && View() == Privatized(old(View()), s, v, copy)
    {
      hide Agrees;
      ghost var k := View();
      assert HasTable(k, s, Slot(v)) && k.spaces[s] == SpaceOf(dirs[s], tables);
      var page := GetPage();
      mem := mem[page := mem[from]];
      copy := page;
      ghost var k1 := View();
      assert k1.spaces == k.spaces;
      ghost var t := AddPageToPd(s, v, Entry(page, true, true, true, true));
      assert View() == MapPage(k1, s, v, Pte(copy, true, true, true), t);
    }

    /** A user store to a mapped page.  On a read-only page the fault handler runs and the
        store is retried; `ok` is false when the handler refuses. */
    method UserStore(s: nat, v: nat, off: nat, b: Byte, hasParent: bool) returns (ok: bool, ghost copy: Frame)
      requires Valid() && Maps(View(), s, v) && off < PAGE_SIZE
      requires !At(View(), s, v).write && hasParent && At(View(), s, v).frame != 0 ==> ram - used != {}
      requires Glued()
      modifies this`dirs, this`tables, this`used, this`mem, alloc, alloc.physMap
      ensures Glued()
      ensures Valid()
      ensures ok <==> old(At(View(), s, v)).write || (hasParent && old(At(View(), s, v)).frame != 0)
      ensures ok ==> Enabled(old(View()), Write(s, v, off, b, copy)) && View() == Step(old(View()), Write(s, v, off, b, copy))
      ensures !ok ==> View() == old(View())
    {
      hide Agrees;
      hide KernelSlotsWf, TablesUnshared, Apart, WritableIsPrivate, OwnershipClear, TablesPrivate, FramesHeld;
      ghost var k, held := View(), KernelFrames(dirs);
      KernelFramesHeld(dirs, tables, ram, used, mem);
      copy := 0;
      var e := ReadEntry(s, v);
      if !e.write {
        ok, copy := HandleCow(s, v, true, true, hasParent);
        if !ok {
          return;
        }
        e := ReadEntry(s, v);
      }
      mem := mem[e.frame := Poke(mem[e.frame], off, b)];
      ok := true;
      StoreIsStep(k, View(), s, v, off, b, copy);
      StepKeepsInv(k, Write(s, v, off, b, copy));
      StepKeepsApart(k, Write(s, v, off, b, copy), held);
    }

    /** A user load. */
    method UserLoad(s: nat, v: nat, off: nat) returns (b: Byte)
      requires Valid() && Maps(View(), s, v) && off < PAGE_SIZE
      ensures At(View(), s, v).frame in mem && b == mem[At(View(), s, v).frame][off]
    {
      var e := ReadEntry(s, v);
      b := mem[e.frame][off];
    }

    /** The processor's table walk. */
    method ReadEntry(s: nat, v: nat) returns (e: Entry)
      requires Wf() && Maps(View(), s, v)
      ensures ToPte(e) == At(View(), s, v) && e.present
    {
      PageMember(dirs[s], tables, v);
      assert View().spaces[s] == SpaceOf(dirs[s], tables);
      e := tables[dirs[s][v / TABLE_ENTRIES].frame][v % TABLE_ENTRIES];
    }

    // -------------------------------------------------------------------------
    // Fork

    /** The fork of `p` into `c` started in `k` has treated the pages below `cur`. */
    ghost predicate Forking(k: Kernel, p: nat, c: nat, cur: nat, tabs: map<nat, Tab>)
      reads this
    {
      && |dirs| == |k.spaces| && p < |dirs| && c < |dirs| && p != c && ram == k.ram && mem == k.mem
      && Wf() && PagesWf(k)
      && View() == ForkProgress(k, p, c, cur, tabs)
      && tabs.Keys == SlotsOf(Below(k.spaces[p].pages, cur)) && TabsFresh(k, tabs)
      && |SlotsOf(k.spaces[p].pages)| <= |ram - used| + |tabs|
    }

    /** Page `v` of the parent can be mapped into the child. */
    ghost predicate CanShare(k: Kernel, p: nat, c: nat, v: nat, tabs: map<nat, Tab>, e: Entry)
      reads this
    {
      && Forking(k, p, c, v, tabs) && UserPage(v) && v in k.spaces[p].pages && HasTable(k, p, Slot(v))
      && e.present && ToPte(e) == k.spaces[p].pages[v]
      && dirs[p][Slot(v)].present && (dirs[c][Slot(v)].present <==> Slot(v) in tabs)
      && (Slot(v) !in tabs ==> ram - used != {})
    }

    /** The owned arm of the fork loop: both spaces get the frame read-only. */
    method ShareOwned(p: nat, c: nat, v: nat, e: Entry, ghost k: Kernel, ghost tabs: map<nat, Tab>)
      returns (ghost tabs': map<nat, Tab>)
      requires CanShare(k, p, c, v, tabs, e) && e.owned
      requires Glued()
      modifies this`dirs, this`tables, this`used, alloc, alloc.physMap
      ensures Glued()
      ensures Forking(k, p, c, v + 1, tabs') && KernelFrames(dirs) == old(KernelFrames(dirs))
      ensures |dirs[p]| == TABLE_ENTRIES && dirs[p][Slot(v)].present
    {
      hide Agrees, SlotsOf, Below, TabsFresh, TabsWith, ProtectBelow, PagesOf, TabsOf, TablesUnshared, KernelFrames;
      var shared := Entry(e.frame, true, false, true, true);
      ghost var k0 := View();
      ForkProgressAt(k, p, c, v, tabs);
      ghost var t := AddPageToPd(c, v, shared);
      tabs' := TabsWith(tabs, v, t, true);
      ForkAdvances(k, p, c, v, tabs, t);
      TabsWithFresh(k, k.spaces[p].pages, tabs, v, t, true);
      ForkFramesLeft(ram, k0.used, tabs, v, t, true);
      ghost var k1 := View();
      assert k1 == MapPage(k0, c, v, Protect(k.spaces[p].pages)[v], t);
      ghost var t' := AddPageToPd(p, v, shared);
      assert View() == MapPage(k1, p, v, Protect(k.spaces[p].pages)[v], t');
    }

    /** The other arm: a foreign page is mapped into the child as it is. */
    method ShareForeign(p: nat, c: nat, v: nat, e: Entry, ghost k: Kernel, ghost tabs: map<nat, Tab>)
      returns (ghost tabs': map<nat, Tab>)
      requires CanShare(k, p, c, v, tabs, e) && !e.owned
      requires Glued()
      modifies this`dirs, this`tables, this`used, alloc, alloc.physMap
      ensures Glued()
      ensures Forking(k, p, c, v + 1, tabs') && KernelFrames(dirs) == old(KernelFrames(dirs))
      ensures |dirs[p]| == TABLE_ENTRIES && dirs[p][Slot(v)].present
    {
      hide Agrees, SlotsOf, Below, TabsFresh, TabsWith, ProtectBelow, PagesOf, TabsOf, TablesUnshared, KernelFrames;
      ghost var k0 := View();
      ForkProgressAt(k, p, c, v, tabs);
      ghost var t := AddPageToPd(c, v, e);
      tabs' := TabsWith(tabs, v, t, false);
      ForkAdvances(k, p, c, v, tabs, t);
      TabsWithFresh(k, k.spaces[p].pages, tabs, v, t, false);
      ForkFramesLeft(ram, k0.used, tabs, v, t, false);
      assert View() == MapPage(k0, c, v, Protect(k.spaces[p].pages)[v], t);
    }

    /** What the entry read at `v` says: a page of the parent to share, or a kernel entry that
        the child already has, or nothing. */
    lemma EntryCases(p: nat, c: nat, v: nat, k: Kernel, tabs: map<nat, Tab>, e: Entry)
      requires Forking(k, p, c, v, tabs) && Walkable(Slot(v)) && dirs[p][Slot(v)].present
      requires e == Lookup(dirs[p], tables, v)
      ensures e.present && UserPage(v) ==> CanShare(k, p, c, v, tabs, e)
      ensures !UserPage(v) ==> !e.owned && Lookup(dirs[c], tables, v) == e
      ensures !UserPage(v) && e.present ==> dirs[c][Slot(v)].present
      ensures !(e.present && UserPage(v)) ==> Forking(k, p, c, v + 1, tabs)
    {
      ForkProgressAt(k, p, c, v, tabs);
      assert View().spaces[p] == SpaceOf(dirs[p], tables) && View().spaces[c] == SpaceOf(dirs[c], tables);
      if UserPage(v) {
        ForkReads(dirs[p], tables, k.spaces[p].pages, v);
        if e.present {
          assert Maps(k, p, v);
          TableStillNeeded(k.spaces[p].pages, tabs, v);
        } else {
          ForkPasses(k, p, c, v, tabs);
        }
      } else {
        KernelEntryShared(dirs, tables, p, c, v);
        assert !Maps(k, p, v);
        ForkPasses(k, p, c, v, tabs);
      }
    }

    /** The body of the fork loop for one entry of the parent's table. */
    method CopyEntry(p: nat, c: nat, v: nat, ghost k: Kernel, ghost tabs: map<nat, Tab>) returns (ghost tabs': map<nat, Tab>)
      requires Forking(k, p, c, v, tabs) && Walkable(Slot(v)) && dirs[p][Slot(v)].present
      requires Glued()
      modifies this`dirs, this`tables, this`used, alloc, alloc.physMap
      ensures Glued()
      ensures Forking(k, p, c, v + 1, tabs') && KernelFrames(dirs) == old(KernelFrames(dirs))
      ensures |dirs[p]| == TABLE_ENTRIES && dirs[p][Slot(v)].present
    {
      hide Agrees;
      hide PagesWf, ForkProgress, ViewOf, KernelFrames, KernelSlotsWf, TabsFresh, SlotsOf, Below;
      tabs' := tabs;
      var e := tables[dirs[p][v / TABLE_ENTRIES].frame][v % TABLE_ENTRIES];
      EntryCases(p, c, v, k, tabs, e);
      if e.present {
        if e.owned {
          tabs' := ShareOwned(p, c, v, e, k, tabs);
        } else if UserPage(v) {
          tabs' := ShareForeign(p, c, v, e, k, tabs);
        } else {
          ghost var t := AddPageToPd(c, v, e);
        }
      }
    }

    /** The inner loop of fork, over one page table of the parent. */
    method CopyTable(p: nat, c: nat, i: nat, ghost k: Kernel, ghost tabs: map<nat, Tab>, start: nat)
      returns (ghost tabs': map<nat, Tab>, v: nat)
      requires Forking(k, p, c, start, tabs) && Walkable(i) && dirs[p][i].present
      requires start == i * TABLE_ENTRIES
      requires Glued()
      modifies this`dirs, this`tables, this`used, alloc, alloc.physMap
      ensures Glued()
      ensures v == start + TABLE_ENTRIES && Forking(k, p, c, v, tabs') && KernelFrames(dirs) == old(KernelFrames(dirs))
    {
      hide Agrees;
      hide PagesWf, ForkProgress, ViewOf, KernelFrames, KernelSlotsWf, TabsFresh, SlotsOf, Below;
      tabs', v := tabs, start;
      for j := 0 to TABLE_ENTRIES
        invariant v == i * TABLE_ENTRIES + j
        invariant Glued()
        invariant Forking(k, p, c, v, tabs') && KernelFrames(dirs) == old(KernelFrames(dirs))
        invariant |dirs[p]| == TABLE_ENTRIES && dirs[p][i].present
      {
        SlotIndex(i, j);
        assert Slot(v) == i;
        tabs' := CopyEntry(p, c, v, k, tabs');
        v := v + 1;
      }
    }

    /** A directory slot of the parent without a table is passed over. */
    lemma SkipTable(p: nat, c: nat, i: nat, k: Kernel, tabs: map<nat, Tab>, cur: nat, end: nat)
      requires Forking(k, p, c, cur, tabs) && Walkable(i) && !dirs[p][i].present
      requires cur == i * TABLE_ENTRIES && end == (i + 1) * TABLE_ENTRIES
      ensures Forking(k, p, c, end, tabs)
    {
      ForkProgressAt(k, p, c, cur, tabs);
      assert View().spaces[p] == SpaceOf(dirs[p], tables);
      EmptySlot(k, p, dirs[p], i);
      ForkSkips(k, p, c, cur, end, tabs);
    }

    lemma ForkBegin(p: nat, c: nat, k: Kernel, cur: nat)
      requires Wf() && k == View() && Inv(k) && p < |dirs| && c < |dirs| && p != c && k.spaces[c] == EmptySpace
      requires |SlotsOf(k.spaces[p].pages)| <= |ram - used| && cur == USER_SLOT_LO * TABLE_ENTRIES
      ensures Forking(k, p, c, cur, map[])
    {
      ForkStarts(k, p, c);
    }

    /** arch_mmu_duplicate.  The frames it needs are page tables for the child. */
    method Duplicate(p: nat, c: nat) returns (ghost tabs: map<nat, Tab>)
      requires Valid() && p < |dirs| && c < |dirs| && p != c && View().spaces[c] == EmptySpace
      requires |SlotsOf(View().spaces[p].pages)| <= |ram - used|
      requires Glued()
      modifies this`dirs, this`tables, this`used, alloc, alloc.physMap
      ensures Glued()
      ensures Valid()
      ensures Enabled(old(View()), Fork(p, c, tabs)) && View() == Step(old(View()), Fork(p, c, tabs))
    {
      hide Agrees;
      ghost var k := View();
      var cur := USER_SLOT_LO * TABLE_ENTRIES;
      ForkBegin(p, c, k, cur);
      tabs, cur := CopyTables(p, c, k, cur);
      ForkDone(p, c, k, tabs, cur);
    }

    method CopySlot(p: nat, c: nat, i: nat, ghost k: Kernel, ghost tabs: map<nat, Tab>, start: nat)
      returns (ghost tabs': map<nat, Tab>, v: nat)
      requires Forking(k, p, c, start, tabs) && Walkable(i) && start == i * TABLE_ENTRIES
      requires Glued()
      modifies this`dirs, this`tables, this`used, alloc, alloc.physMap
      ensures Glued()
      ensures v == start + TABLE_ENTRIES && Forking(k, p, c, v, tabs') && KernelFrames(dirs) == old(KernelFrames(dirs))
    {
      hide Agrees;
      if dirs[p][i].present {
        tabs', v := CopyTable(p, c, i, k, tabs, start);
      } else {
        tabs', v := tabs, start + TABLE_ENTRIES;
        SkipTable(p, c, i, k, tabs, start, v);
      }
    }

    /** The outer loop of fork, over the parent's page directory. */
    method CopyTables(p: nat, c: nat, ghost k: Kernel, start: nat) returns (ghost tabs: map<nat, Tab>, cur: nat)
      requires Forking(k, p, c, start, map[]) && start == USER_SLOT_LO * TABLE_ENTRIES
      requires Glued()
      modifies this`dirs, this`tables, this`used, alloc, alloc.physMap
      ensures Glued()
      ensures cur == SELF_SLOT * TABLE_ENTRIES && Forking(k, p, c, cur, tabs)
      ensures KernelFrames(dirs) == old(KernelFrames(dirs))
    {
      hide Agrees;
      hide PagesWf, ForkProgress, ViewOf, KernelFrames, KernelSlotsWf, TabsFresh, SlotsOf, Below;
      tabs, cur := map[], start;
      for i := USER_SLOT_LO to SELF_SLOT
        invariant cur == i * TABLE_ENTRIES
        invariant Glued()
        invariant Forking(k, p, c, cur, tabs) && KernelFrames(dirs) == old(KernelFrames(dirs))
      {
        tabs, cur := CopySlot(p, c, i, k, tabs, cur);
      }
    }

    lemma ForkDone(p: nat, c: nat, k: Kernel, tabs: map<nat, Tab>, cur: nat)
      requires Forking(k, p, c, cur, tabs) && cur == SELF_SLOT * TABLE_ENTRIES
      requires Inv(k) && k.spaces[c] == EmptySpace
      requires Apart(k, KernelFrames(dirs))
      ensures Valid()
      ensures Enabled(k, Fork(p, c, tabs)) && View() == Step(k, Fork(p, c, tabs))
    {
      ForkEnds(k, p, c, tabs);
      StepKeepsInv(k, Fork(p, c, tabs));
      ForkEntries(k, p, c, tabs);
      assert Apart(Step(k, Fork(p, c, tabs)), KernelFrames(dirs));
    }

    // -------------------------------------------------------------------------
    // Teardown

    /** The teardown of `s` started in `k` has treated the pages below `cur` and the tables below slot `i`. */
    ghost predicate Tearing(k: Kernel, s: nat, all: bool, i: nat, cur: nat)
      reads this
    {
      && |dirs| == |k.spaces| && s < |dirs| && ram == k.ram && mem == k.mem && Wf()
      && View() == DestroyProgress(k, s, all, i, cur)
      && Apart(k, KernelFrames(dirs))
    }

    /** The frame behind a page of `k` is no table of the current directories. */
    lemma PageIsNoTable(k: Kernel, s: nat, all: bool, i: nat, cur: nat, v: nat)
      requires Tearing(k, s, all, i, cur) && TablesPrivate(k) && Maps(k, s, v)
      ensures NoTable(dirs, At(k, s, v).frame)
    {
      forall s', i' | Filled(dirs, s', i') ensures dirs[s'][i'].frame != At(k, s, v).frame {
        if i' < USER_SLOT_HI {
          assert View().spaces[s'] == SpaceOf(dirs[s'], tables);
          assert i' in View().spaces[s'].tables && View().spaces[s'].tables[i'].frame == dirs[s'][i'].frame;
          assert HasTable(k, s', i') && TableAt(k, s', i').frame == dirs[s'][i'].frame;
        } else {
          assert KernelSlot(i') && dirs[s'][i'] == dirs[0][i'];
          assert dirs[0][i'].frame in KernelFrames(dirs);
        }
      }
    }

    /** The body of the teardown loop for one entry of one table. */
    method ReleaseEntry(s: nat, all: bool, i: nat, v: nat, ghost k: Kernel)
      requires Tearing(k, s, all, i, v) && Inv(k) && InTeardown(v) && i == Slot(v) && dirs[s][i].present
      requires Glued()
      modifies this`tables, this`used, alloc, alloc.physMap
      ensures Glued()
      ensures Tearing(k, s, all, i, v + 1)
    {
      hide Agrees;
      var t := dirs[s][i].frame;
      var e := tables[t][v % TABLE_ENTRIES];
      EntryReleased(s, all, i, v, k, e);
      if e.present && e.owned && (all || e.write) {
        PageIsNoTable(k, s, all, i, v, v);
        DestroyFreesPage(k, s, all, v);
        ReleasePage(s, i, v, e.frame);
      }
    }

    /** Give the frame back, then clear the entry. */
    method ReleasePage(s: nat, i: nat, v: nat, f: Frame)
      requires Wf() && s < |dirs| && UserPage(v) && i == Slot(v) && dirs[s][i].present && f in used && NoTable(dirs, f)
      requires Glued()
      modifies this`tables, this`used, alloc, alloc.physMap
      ensures Glued()
      ensures Wf() && View() == DropPage(old(View()), s, v, f)
    {
      hide Agrees;
      ClearView(dirs, tables, ram, used, mem, s, v, f);
      FreePage(f);
      tables := tables[dirs[s][i].frame := tables[dirs[s][i].frame][v % TABLE_ENTRIES := Zero]];
    }

    /** The inner loop of teardown, over one page table. */
    method ReleaseEntries(s: nat, all: bool, i: nat, ghost k: Kernel, start: nat) returns (v: nat)
      requires Tearing(k, s, all, i, start) && Inv(k) && USER_SLOT_LO <= i < DESTROY_SLOT_HI && dirs[s][i].present
      requires start == i * TABLE_ENTRIES
      requires Glued()
      modifies this`tables, this`used, alloc, alloc.physMap
      ensures Glued()
      ensures v == start + TABLE_ENTRIES && Tearing(k, s, all, i, v)
    {
      hide Agrees;
      hide Inv, Apart, DestroyProgress, ViewOf, KernelFrames, KernelSlotsWf;
      v := start;
      for j := 0 to TABLE_ENTRIES
        invariant v == start + j
        invariant Glued()
        invariant Tearing(k, s, all, i, v)
      {
        SlotIndex(i, j);
        assert Slot(v) == i;
        ReleaseEntry(s, all, i, v, k);
        v := v + 1;
      }
    }

    /** After the entries, an owned page table goes back too. */
    method ReleaseTable(s: nat, all: bool, i: nat, ghost k: Kernel, cur: nat)
      requires Tearing(k, s, all, i, cur) && Inv(k) && USER_SLOT_LO <= i < DESTROY_SLOT_HI && dirs[s][i].present
      requires cur == (i + 1) * TABLE_ENTRIES
      requires Glued()
      modifies this`dirs, this`used, alloc, alloc.physMap
      ensures Glued()
      ensures Tearing(k, s, all, i + 1, cur)
    {
      hide Agrees;
      assert View().spaces[s] == SpaceOf(dirs[s], tables);
      assert i in TabsOf(dirs[s]) && i in k.spaces[s].tables && k.spaces[s].tables[i] == Tab(dirs[s][i].frame, dirs[s][i].owned);
      if dirs[s][i].owned {
        DestroyFreesTable(k, s, all, i, cur);
        ClearTableView(dirs, tables, ram, used, mem, s, i);
        FreePage(dirs[s][i].frame);
        dirs := dirs[s := dirs[s][i := Zero]];
      } else {
        DestroyKeepsTable(k, s, all, i, cur);
      }
    }

    method ReleaseSlot(s: nat, all: bool, i: nat, ghost k: Kernel, start: nat) returns (cur: nat)
      requires Tearing(k, s, all, i, start) && Inv(k) && USER_SLOT_LO <= i < DESTROY_SLOT_HI && start == i * TABLE_ENTRIES
      requires Glued()
      modifies this`dirs, this`tables, this`used, alloc, alloc.physMap
      ensures Glued()
      ensures cur == start + TABLE_ENTRIES && Tearing(k, s, all, i + 1, cur)
    {
      hide Agrees;
      if dirs[s][i].present {
        cur := ReleaseEntries(s, all, i, k, start);
        ReleaseTable(s, all, i, k, cur);
      } else {
        cur := start + TABLE_ENTRIES;
        PassSlot(s, all, i, k, start, cur);
      }
    }

    lemma PassSlot(s: nat, all: bool, i: nat, k: Kernel, start: nat, cur: nat)
      requires Tearing(k, s, all, i, start) && PagesWf(k) && USER_SLOT_LO <= i < DESTROY_SLOT_HI && !dirs[s][i].present
      requires start == i * TABLE_ENTRIES && cur == start + TABLE_ENTRIES
      ensures Tearing(k, s, all, i + 1, cur)
    {
      assert View().spaces[s] == SpaceOf(dirs[s], tables);
      assert i !in TabsOf(dirs[s]) && i !in TablesFrom(k.spaces[s], i);
      forall v: nat | Releases(k.spaces[s], all, v) ensures !(start <= v < cur) {
        assert Maps(k, s, v) && HasTable(k, s, Slot(v));
        if start <= v < cur {
          SlotIndex(i, v - start);
        }
      }
      DestroySkips(k, s, all, i, start, cur);
      DestroyKeepsTable(k, s, all, i, cur);
    }

    /** arch_mmu_destroyAspace.  Every frame it gives back is allocated at that moment
        (`FreePage`), so none goes back twice; with `all` false no surviving mapping anywhere
        uses one of them. */
    method DestroyAspace(s: nat, all: bool)
      requires Valid() && s < |dirs|
      requires Glued()
      modifies this`dirs, this`tables, this`used, alloc, alloc.physMap
      ensures Glued()
      ensures Wf() && View() == Destroyed(old(View()), s, all)
      ensures !all || NoSharedRelease(old(View()), s) ==> Valid()
    {
      hide Agrees;
      ghost var k := View();
      var cur := USER_SLOT_LO * TABLE_ENTRIES;
      DestroyStarts(k, s, all);
      cur := ReleaseSlots(s, all, k, cur);
      DestroyDone(s, all, k, cur);
    }

    /** The outer loop of teardown. */
    method ReleaseSlots(s: nat, all: bool, ghost k: Kernel, start: nat) returns (cur: nat)
      requires Tearing(k, s, all, USER_SLOT_LO, start) && Inv(k) && start == USER_SLOT_LO * TABLE_ENTRIES
      requires Glued()
      modifies this`dirs, this`tables, this`used, alloc, alloc.physMap
      ensures Glued()
      ensures cur == DESTROY_SLOT_HI * TABLE_ENTRIES && Tearing(k, s, all, DESTROY_SLOT_HI, cur)
    {
      hide Agrees;
      hide Inv, Apart, DestroyProgress, ViewOf, KernelFrames, KernelSlotsWf;
      cur := start;
      for i := USER_SLOT_LO to DESTROY_SLOT_HI
        invariant Glued()
        invariant cur == i * TABLE_ENTRIES && Tearing(k, s, all, i, cur)
      {
        cur := ReleaseSlot(s, all, i, k, cur);
      }
    }

    lemma DestroyDone(s: nat, all: bool, k: Kernel, cur: nat)
      requires Tearing(k, s, all, DESTROY_SLOT_HI, cur) && cur == DESTROY_SLOT_HI * TABLE_ENTRIES && Inv(k)
      ensures View() == Destroyed(k, s, all)
      ensures !all || NoSharedRelease(k, s) ==> Valid()
    {
      DestroyEnds(k, s, all);
      if !all || NoSharedRelease(k, s) {
        DestroyKeepsInv(k, s, all);
        assert forall s', v' :: Maps(View(), s', v') ==> Maps(k, s', v') && At(View(), s', v') == At(k, s', v');
      }
    }

    lemma EntryReleased(s: nat, all: bool, i: nat, v: nat, k: Kernel, e: Entry)
      requires Tearing(k, s, all, i, v) && InTeardown(v) && i == Slot(v)
      requires e == Lookup(dirs[s], tables, v)
      ensures Releases(k.spaces[s], all, v) <==> e.present && e.owned && (all || e.write)
      ensures e.present ==> Maps(k, s, v) && At(k, s, v).frame == e.frame
      ensures !Releases(k.spaces[s], all, v) ==> Tearing(k, s, all, i, v + 1)
    {
      PageMember(dirs[s], tables, v);
      assert View().spaces[s] == SpaceOf(dirs[s], tables);
      assert v in k.spaces[s].pages ==> v in Remaining(k.spaces[s], all, i, v);
      if !Releases(k.spaces[s], all, v) {
        DestroySkips(k, s, all, i, v, v + 1);
      }
    }
  }
}
