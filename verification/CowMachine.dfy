/** The copy-on-write protocol between address spaces, as a state machine over maps.

    An address space is a map from virtual page number to page-table entry, plus the
    page-table frame behind every directory slot in use.  The steps are the operations
    of src/arch/x86/mmu.c and the write-fault arm of src/arch/x86/gdt.c; module
    `AddressSpaces` shows that the in-place page-table code performs exactly these steps.

    The main results: every step keeps `Inv` (frame ownership, sharing and freshness),
    and every run agrees, page by page, with a machine whose fork copies eagerly. */
module CowMachine {

  const PAGE_SIZE := 4096
  // Directory slots that belong to one space only (0x40000000 up to 0xF0000000).
  const USER_SLOT_LO := 256
  const USER_SLOT_HI := 960
  // Teardown stops at directory slot 576 (0x90000000).
  const DESTROY_SLOT_HI := 576
  const TABLE_ENTRIES := 1024

  type Byte = b: int | 0 <= b < 256
  type Page = p: seq<Byte> | |p| == PAGE_SIZE witness seq(PAGE_SIZE, _ => 0)
  type Frame = nat

  /** A present page-table entry: frame number and the flag bits the kernel looks at. */
  datatype Pte = Pte(frame: Frame, write: bool, user: bool, owned: bool)

  /** A present directory entry: the table's frame and its ownership bit. */
  datatype Tab = Tab(frame: Frame, owned: bool)

  datatype Space = Space(pages: map<nat, Pte>, tables: map<nat, Tab>)

  /** `ram` is the set of frames the page allocator manages, `used` those marked in its bitmap. */
  datatype Kernel = Kernel(spaces: seq<Space>, ram: set<Frame>, used: set<Frame>, mem: map<Frame, Page>)

  const EmptySpace := Space(map[], map[])

  function Slot(v: nat): (i: nat) { v / TABLE_ENTRIES }

  predicate UserPage(v: nat) { USER_SLOT_LO <= Slot(v) < USER_SLOT_HI }

  predicate InTeardown(v: nat) { USER_SLOT_LO <= Slot(v) < DESTROY_SLOT_HI }

  predicate Maps(k: Kernel, s: nat, v: nat) { s < |k.spaces| && v in k.spaces[s].pages }

  function At(k: Kernel, s: nat, v: nat): Pte
    requires Maps(k, s, v)
  {
    k.spaces[s].pages[v]
  }

  predicate HasTable(k: Kernel, s: nat, i: nat) { s < |k.spaces| && i in k.spaces[s].tables }

  function TableAt(k: Kernel, s: nat, i: nat): Tab
    requires HasTable(k, s, i)
  {
    k.spaces[s].tables[i]
  }

  predicate Fresh(k: Kernel, f: Frame) { f in k.ram && f !in k.used }

  // ---------------------------------------------------------------------------
  // Invariant

  ghost predicate PagesWf(k: Kernel)
  {
    && k.ram <= k.mem.Keys
    && (forall s, v :: Maps(k, s, v) ==> UserPage(v) && At(k, s, v).frame in k.mem && HasTable(k, s, Slot(v)))
  }

  /** Owned frames are allocated; foreign frames can never be handed out by the allocator. */
  ghost predicate FramesHeld(k: Kernel)
  {
    && (forall s, v :: Maps(k, s, v) && At(k, s, v).owned ==> At(k, s, v).frame in k.used && At(k, s, v).frame in k.ram)
    && (forall s, v :: Maps(k, s, v) && !At(k, s, v).owned ==> !Fresh(k, At(k, s, v).frame))
  }

  /** A frame owned with write permission has one mapping in the whole machine. */
  ghost predicate WritableIsPrivate(k: Kernel)
  {
    forall s, v, s', v' ::
      (Maps(k, s, v) && Maps(k, s', v') && (s, v) != (s', v') && At(k, s, v).owned && At(k, s, v).write)
      ==> At(k, s, v).frame != At(k, s', v').frame
  }

  /** No frame is owned here and foreign there, and no space owns a frame at two addresses. */
  ghost predicate OwnershipClear(k: Kernel)
  {
    && (forall s, v, s', v' :: Maps(k, s, v) && Maps(k, s', v') && At(k, s, v).owned && !At(k, s', v').owned
          ==> At(k, s, v).frame != At(k, s', v').frame)
    && (forall s, v, v' :: Maps(k, s, v) && Maps(k, s, v') && v != v' && At(k, s, v).owned
          ==> At(k, s, v).frame != At(k, s, v').frame)
  }

  /** Page-table frames are allocated, private to one slot of one space, and never mapped as pages. */
  ghost predicate TablesPrivate(k: Kernel)
  {
    && (forall s, i :: HasTable(k, s, i) ==> TableAt(k, s, i).frame in k.used && TableAt(k, s, i).frame in k.ram)
    && (forall s, i, s', i' :: HasTable(k, s, i) && HasTable(k, s', i') && (s, i) != (s', i')
          ==> TableAt(k, s, i).frame != TableAt(k, s', i').frame)
    && (forall s, i, s', v :: HasTable(k, s, i) && Maps(k, s', v) ==> TableAt(k, s, i).frame != At(k, s', v).frame)
  }

  ghost predicate Inv(k: Kernel)
  {
    PagesWf(k) && FramesHeld(k) && WritableIsPrivate(k) && OwnershipClear(k) && TablesPrivate(k)
  }

  // ---------------------------------------------------------------------------
  // Steps.  An event carries the frames the allocator chose; `stale` is whatever bytes a
  // newly allocated page happens to hold.

  datatype Event =
    | New
    | Fork(parent: nat, child: nat, tabs: map<nat, Tab>)
    | Read(s: nat, v: nat, off: nat)
    | Write(s: nat, v: nat, off: nat, b: Byte, copy: Frame)
    | Grow(s: nat, v: nat, page: Frame, table: Frame, stale: Page)
    | MapForeign(s: nat, v: nat, pte: Pte, table: Frame)
    | Unmap(s: nat, v: nat)
    | Destroy(s: nat, all: bool)

  /** What fork leaves in both spaces: owned pages lose write permission, foreign ones are kept. */
  function Protect(pages: map<nat, Pte>): map<nat, Pte>
  {
    map v | v in pages :: if pages[v].owned then Pte(pages[v].frame, false, true, true) else pages[v]
  }

  function FramesOf(tabs: map<nat, Tab>): set<Frame> { set i | i in tabs :: tabs[i].frame }

  /** Installs an entry, adding a page table for its slot when there is none. */
  function MapIn(sp: Space, v: nat, pte: Pte, table: Frame): Space
  {
    Space(sp.pages[v := pte],
          if Slot(v) in sp.tables then sp.tables else sp.tables[Slot(v) := Tab(table, pte.owned)])
  }

  function MapPage(k: Kernel, s: nat, v: nat, pte: Pte, table: Frame): Kernel
    requires s < |k.spaces|
  {
    k.(spaces := k.spaces[s := MapIn(k.spaces[s], v, pte, table)],
       used := if Slot(v) in k.spaces[s].tables then k.used else k.used + {table})
  }

  predicate TableReady(k: Kernel, s: nat, v: nat, table: Frame)
    requires s < |k.spaces|
  {
    Slot(v) in k.spaces[s].tables || Fresh(k, table)
  }

  /** Pages of `sp` whose frames teardown gives back. */
  predicate Releases(sp: Space, all: bool, v: nat)
  {
    v in sp.pages && InTeardown(v) && sp.pages[v].owned && (all || sp.pages[v].write)
  }

  predicate TableReleased(sp: Space, i: nat)
  {
    i in sp.tables && USER_SLOT_LO <= i < DESTROY_SLOT_HI && sp.tables[i].owned
  }

  predicate Gone(sp: Space, all: bool, v: nat)
  {
    Releases(sp, all, v) || (v in sp.pages && TableReleased(sp, Slot(v)))
  }

  function FreedFrames(sp: Space, all: bool): (fs: set<Frame>)
  {
    (set v | v in sp.pages && Releases(sp, all, v) :: sp.pages[v].frame)
    + (set i | i in sp.tables && TableReleased(sp, i) :: sp.tables[i].frame)
  }

  function Teardown(sp: Space, all: bool): Space
  {
    Space(map v | v in sp.pages && !Gone(sp, all, v) :: sp.pages[v],
          map i | i in sp.tables && !TableReleased(sp, i) :: sp.tables[i])
  }

  function Destroyed(k: Kernel, s: nat, all: bool): Kernel
    requires s < |k.spaces|
  {
    k.(spaces := k.spaces[s := Teardown(k.spaces[s], all)], used := k.used - FreedFrames(k.spaces[s], all))
  }

  /** No page of `s` that a full teardown would free is owned by a mapping that survives it. */
  ghost predicate NoSharedRelease(k: Kernel, s: nat)
    requires s < |k.spaces|
  {
    forall v, s', v' ::
      (Releases(k.spaces[s], true, v) && Maps(k, s', v') && !(s' == s && Gone(k.spaces[s], true, v')))
      ==> At(k, s, v).frame != At(k, s', v').frame
  }

  ghost predicate Enabled(k: Kernel, e: Event)
  {
    match e
    case New => true
    case Fork(p, c, tabs) =>
      && p < |k.spaces| && c < |k.spaces| && p != c && k.spaces[c] == EmptySpace
      && tabs.Keys == (set v | v in k.spaces[p].pages :: Slot(v))
      && (forall i :: i in tabs ==> Fresh(k, tabs[i].frame))
      && (forall i, j :: i in tabs && j in tabs && i != j ==> tabs[i].frame != tabs[j].frame)
    case Read(s, v, off) => Maps(k, s, v) && off < PAGE_SIZE
    case Write(s, v, off, _, copy) =>
      Maps(k, s, v) && off < PAGE_SIZE && (At(k, s, v).write || Fresh(k, copy))
    case Grow(s, v, f, t, _) =>
      s < |k.spaces| && UserPage(v) && Fresh(k, f) && f != t && TableReady(k, s, v, t)
    case MapForeign(s, v, pte, t) =>
      && s < |k.spaces| && UserPage(v) && !pte.owned && pte.frame in k.mem && TableReady(k, s, v, t)
      && !Fresh(k, pte.frame)
      && (forall s', v' :: Maps(k, s', v') && At(k, s', v').owned ==> At(k, s', v').frame != pte.frame)
      && (forall s', i :: HasTable(k, s', i) ==> TableAt(k, s', i).frame != pte.frame)
    case Unmap(s, v) => s < |k.spaces|
    case Destroy(s, all) => s < |k.spaces| && (all ==> NoSharedRelease(k, s))
  }

  function Poke(p: Page, off: nat, b: Byte): Page
    requires off < PAGE_SIZE
  {
    p[off := b]
  }

  /** A user store.  A store to a read-only page faults; the handler copies the page into a
      new frame, maps it writable and owned, and the store is retried. */
  function StoreByte(k: Kernel, s: nat, v: nat, off: nat, b: Byte, copy: Frame): Kernel
    requires Maps(k, s, v) && off < PAGE_SIZE && At(k, s, v).frame in k.mem
  {
    var f := At(k, s, v).frame;
    if At(k, s, v).write then
      k.(mem := k.mem[f := Poke(k.mem[f], off, b)])
    else
      MapPage(k, s, v, Pte(copy, true, true, true), 0)
        .(used := k.used + {copy}, mem := k.mem[copy := Poke(k.mem[f], off, b)])
  }

  ghost function Step(k: Kernel, e: Event): Kernel
    requires PagesWf(k) && Enabled(k, e)
  {
    match e
    case New => k.(spaces := k.spaces + [EmptySpace])
    case Fork(p, c, tabs) =>
      var kept := Protect(k.spaces[p].pages);
      k.(spaces := k.spaces[p := k.spaces[p].(pages := kept)][c := Space(kept, tabs)],
         used := k.used + FramesOf(tabs))
    case Read(_, _, _) => k
    case Write(s, v, off, b, copy) => StoreByte(k, s, v, off, b, copy)
    case Grow(s, v, f, t, stale) =>
      var k1 := MapPage(k, s, v, Pte(f, true, true, true), t);
      k1.(used := k1.used + {f}, mem := k.mem[f := stale])
    case MapForeign(s, v, pte, t) => MapPage(k, s, v, pte, t)
    case Unmap(s, v) => k.(spaces := k.spaces[s := k.spaces[s].(pages := k.spaces[s].pages - {v})])
    case Destroy(s, all) => Destroyed(k, s, all)
  }
}
