/** Copy-on-write fork is indistinguishable from a fork that copies every page at once. */
module CowRefinement {
  import opened CowMachine
  import opened CowSafety

  /** The reference machine: each space simply holds its private pages. */
  type Eager = seq<map<nat, Page>>

  datatype EagerEvent =
    | Nothing
    | EagerNew
    | EagerFork(parent: nat, child: nat)
    | EagerWrite(s: nat, v: nat, off: nat, b: Byte)
    | EagerPut(s: nat, v: nat, page: Page)
    | EagerDrop(s: nat, vs: set<nat>)

  predicate EagerEnabled(m: Eager, e: EagerEvent)
  {
    match e
    case Nothing => true
    case EagerNew => true
    case EagerFork(p, c) => p < |m| && c < |m| && p != c && m[c] == map[]
    case EagerWrite(s, v, off, _) => s < |m| && v in m[s] && off < PAGE_SIZE
    case EagerPut(s, _, _) => s < |m|
    case EagerDrop(s, _) => s < |m|
  }

  function Put(pages: map<nat, Page>, v: nat, page: Page): map<nat, Page> { pages[v := page] }

  function EagerStep(m: Eager, e: EagerEvent): Eager
    requires EagerEnabled(m, e)
  {
    match e
    case Nothing => m
    case EagerNew => m + [map[]]
    case EagerFork(p, c) => m[c := m[p]]
    case EagerWrite(s, v, off, b) => m[s := Put(m[s], v, Poke(m[s][v], off, b))]
    case EagerPut(s, v, page) => m[s := Put(m[s], v, page)]
    case EagerDrop(s, vs) => m[s := m[s] - vs]
  }

  /** The private pages a space reads through its page tables. */
  function Contents(sp: Space, mem: map<Frame, Page>): (m: map<nat, Page>)
    requires forall v :: v in sp.pages ==> sp.pages[v].frame in mem
  {
    map v | v in sp.pages && sp.pages[v].owned :: mem[sp.pages[v].frame]
  }

  ghost predicate Readable(k: Kernel)
  {
    forall s, v :: 0 <= s < |k.spaces| && v in k.spaces[s].pages ==> k.spaces[s].pages[v].frame in k.mem
  }

  ghost function Abs(k: Kernel): (m: Eager)
    requires Readable(k)
  {
    seq(|k.spaces|, s requires 0 <= s < |k.spaces| => Contents(k.spaces[s], k.mem))
  }

  lemma InvReadable(k: Kernel)
    requires PagesWf(k)
    ensures Readable(k)
  {
    forall s, v | 0 <= s < |k.spaces| && v in k.spaces[s].pages ensures k.spaces[s].pages[v].frame in k.mem {
      assert Maps(k, s, v) && At(k, s, v) == k.spaces[s].pages[v];
    }
  }

  lemma StepReadable(k: Kernel, e: Event)
    requires Inv(k) && Enabled(k, e)
    ensures Readable(k) && Readable(Step(k, e))
  {
    InvReadable(k);
    StepKeepsInv(k, e);
    InvReadable(Step(k, e));
  }

  /** What each step means to the reference machine.  A fork is a fork and a store to an owned
      page is that store, whatever the sharing. */
  ghost function Meaning(k: Kernel, e: Event): EagerEvent
    requires PagesWf(k) && Enabled(k, e)
  {
    match e
    case New => EagerNew
    case Fork(p, c, _) => EagerFork(p, c)
    case Read(_, _, _) => Nothing
    case Write(s, v, off, b, _) =>
      if At(k, s, v).owned then EagerWrite(s, v, off, b)
      else if At(k, s, v).write then Nothing
      else EagerPut(s, v, Poke(k.mem[At(k, s, v).frame], off, b))
    case Grow(s, v, _, _, stale) => EagerPut(s, v, stale)
    case MapForeign(s, v, _, _) => EagerDrop(s, {v})
    case Unmap(s, v) => EagerDrop(s, {v})
    case Destroy(s, all) => EagerDrop(s, set v | v in k.spaces[s].pages && Gone(k.spaces[s], all, v))
  }

  /** The kernel's step and its meaning lead to the same private pages. */
  ghost predicate Refines(k: Kernel, e: Event)
    requires PagesWf(k) && Enabled(k, e)
  {
    && Readable(k) && Readable(Step(k, e)) && EagerEnabled(Abs(k), Meaning(k, e))
    && Abs(Step(k, e)) == EagerStep(Abs(k), Meaning(k, e))
  }

  /** A space's contents do not change when the memory behind its owned entries does not. */
  lemma SameContents(sp: Space, mem: map<Frame, Page>, mem': map<Frame, Page>)
    requires forall v :: v in sp.pages ==> sp.pages[v].frame in mem && sp.pages[v].frame in mem'
    requires forall v :: v in sp.pages && sp.pages[v].owned ==> mem'[sp.pages[v].frame] == mem[sp.pages[v].frame]
    ensures Contents(sp, mem') == Contents(sp, mem)
  {
  }

  lemma WriteRefines(k: Kernel, s: nat, v: nat, off: nat, b: Byte, copy: Frame)
    requires Inv(k) && Enabled(k, Write(s, v, off, b, copy))
    ensures Refines(k, Write(s, v, off, b, copy))
  {
    var e := Write(s, v, off, b, copy);
    var k' := Step(k, e);
    StepReadable(k, e);
    var m := EagerStep(Abs(k), Meaning(k, e));
    var touched := if At(k, s, v).write then At(k, s, v).frame else copy;
    forall x | 0 <= x < |k.spaces| && x != s ensures Contents(k'.spaces[x], k'.mem) == m[x] {
      forall w | w in k.spaces[x].pages && k.spaces[x].pages[w].owned
        ensures k.spaces[x].pages[w].frame != touched
      {
        assert Maps(k, x, w) && At(k, x, w) == k.spaces[x].pages[w];
      }
      SameContents(k.spaces[x], k.mem, k'.mem);
    }
    assert Contents(k'.spaces[s], k'.mem) == m[s] by {
      forall w | w in k.spaces[s].pages && k.spaces[s].pages[w].owned && w != v
        ensures k.spaces[s].pages[w].frame != touched
      {
        assert Maps(k, s, w) && At(k, s, w) == k.spaces[s].pages[w];
      }
    }
    assert Abs(k') == m;
  }

  lemma ForkRefines(k: Kernel, p: nat, c: nat, tabs: map<nat, Tab>)
    requires Inv(k) && Enabled(k, Fork(p, c, tabs))
    ensures Refines(k, Fork(p, c, tabs))
  {
    var k' := Step(k, Fork(p, c, tabs));
    StepReadable(k, Fork(p, c, tabs));
    ForkContents(k.spaces[p].pages, k.spaces[p].tables, tabs, k.mem);
    assert k'.mem == k.mem && k'.spaces == k.spaces[p := Space(Protect(k.spaces[p].pages), k.spaces[p].tables)]
                                                   [c := Space(Protect(k.spaces[p].pages), tabs)];
    hide Contents, Protect, Inv, Step, Enabled;
    AbsForked(k, k', p, c);
  }

  lemma AbsForked(k: Kernel, k': Kernel, p: nat, c: nat)
    requires Readable(k) && Readable(k') && |k'.spaces| == |k.spaces| && k'.mem == k.mem && p < |k.spaces| && c < |k.spaces| && p != c
    requires forall x :: 0 <= x < |k.spaces| && x != p && x != c ==> k'.spaces[x] == k.spaces[x]
    requires Contents(k'.spaces[p], k.mem) == Contents(k.spaces[p], k.mem) == Contents(k'.spaces[c], k.mem)
    ensures Abs(k') == Abs(k)[c := Abs(k)[p]]
  {
    hide Contents;
  }

  /** Taking write permission away changes nothing that is read, in either space. */
  lemma ForkContents(pages: map<nat, Pte>, tables: map<nat, Tab>, tabs: map<nat, Tab>, mem: map<Frame, Page>)
    requires forall v :: v in pages ==> pages[v].frame in mem
    ensures forall v :: v in Protect(pages) ==> Protect(pages)[v].frame in mem
    ensures Contents(Space(Protect(pages), tables), mem) == Contents(Space(pages, tables), mem)
    ensures Contents(Space(Protect(pages), tabs), mem) == Contents(Space(pages, tables), mem)
    ensures Contents(EmptySpace, mem) == map[]
  {
  }

  /** A step that changes the mappings of one space and no memory another space owns. */
  lemma AbsUpdate(k: Kernel, k': Kernel, s: nat, c: map<nat, Page>)
    requires Readable(k) && Readable(k') && k.mem.Keys <= k'.mem.Keys && |k'.spaces| == |k.spaces| && s < |k.spaces|
    requires forall x :: 0 <= x < |k.spaces| && x != s ==> k'.spaces[x] == k.spaces[x]
    requires forall x, v :: Maps(k, x, v) && At(k, x, v).owned ==> k'.mem[At(k, x, v).frame] == k.mem[At(k, x, v).frame]
    requires Contents(k'.spaces[s], k'.mem) == c
    ensures Abs(k') == Abs(k)[s := c]
  {
    forall x | 0 <= x < |k.spaces| && x != s ensures Contents(k'.spaces[x], k'.mem) == Contents(k.spaces[x], k.mem) {
      assert forall v :: v in k.spaces[x].pages ==> Maps(k, x, v) && At(k, x, v) == k.spaces[x].pages[v];
      SameContents(k.spaces[x], k.mem, k'.mem);
    }
  }

  lemma InstallContents(sp: Space, mem: map<Frame, Page>, v: nat, pte: Pte, page: Page, sp': Space)
    requires forall w :: w in sp.pages ==> sp.pages[w].frame in mem
    requires forall w :: w in sp.pages && sp.pages[w].owned ==> sp.pages[w].frame != pte.frame
    requires pte.owned && sp'.pages == sp.pages[v := pte]
    ensures Contents(sp', mem[pte.frame := page]) == Put(Contents(sp, mem), v, page)
  {
  }

  lemma GrowRefines(k: Kernel, s: nat, v: nat, f: Frame, t: Frame, stale: Page)
    requires Inv(k) && Enabled(k, Grow(s, v, f, t, stale))
    ensures Refines(k, Grow(s, v, f, t, stale))
  {
    var k' := Step(k, Grow(s, v, f, t, stale));
    StepReadable(k, Grow(s, v, f, t, stale));
    forall w | w in k.spaces[s].pages && k.spaces[s].pages[w].owned ensures k.spaces[s].pages[w].frame != f {
      assert Maps(k, s, w) && At(k, s, w) == k.spaces[s].pages[w];
    }
    InstallContents(k.spaces[s], k.mem, v, Pte(f, true, true, true), stale, k'.spaces[s]);
    AbsUpdate(k, k', s, Put(Contents(k.spaces[s], k.mem), v, stale));
  }

  lemma DropRefines(k: Kernel, e: Event)
    requires e.MapForeign? || e.Unmap?
    requires Inv(k) && Enabled(k, e)
    ensures Refines(k, e)
  {
    var k' := Step(k, e);
    StepReadable(k, e);
    AbsUpdate(k, k', e.s, Contents(k.spaces[e.s], k.mem) - {e.v});
  }

  lemma DestroyRefines(k: Kernel, s: nat, all: bool)
    requires Inv(k) && Enabled(k, Destroy(s, all))
    ensures Refines(k, Destroy(s, all))
  {
    var k' := Step(k, Destroy(s, all));
    StepReadable(k, Destroy(s, all));
    var gone := set v | v in k.spaces[s].pages && Gone(k.spaces[s], all, v);
    AbsUpdate(k, k', s, Contents(k.spaces[s], k.mem) - gone);
  }

  lemma NewRefines(k: Kernel)
    requires Inv(k)
    ensures Refines(k, New)
  {
    StepReadable(k, New);
    assert Contents(EmptySpace, k.mem) == map[];
    assert Abs(Step(k, New)) == EagerStep(Abs(k), EagerNew);
  }

  /** One step of the kernel is one step of the reference machine. */
  lemma StepRefines(k: Kernel, e: Event)
    requires Inv(k) && Enabled(k, e)
    ensures Refines(k, e)
  {
    match e
    case New => NewRefines(k);
    case Fork(p, c, tabs) => ForkRefines(k, p, c, tabs);
    case Read(_, _, _) => InvReadable(k);
    case Write(s, v, off, b, copy) => WriteRefines(k, s, v, off, b, copy);
    case Grow(s, v, f, t, stale) => GrowRefines(k, s, v, f, t, stale);
    case MapForeign(_, _, _, _) => DropRefines(k, e);
    case Unmap(_, _) => DropRefines(k, e);
    case Destroy(s, all) => DestroyRefines(k, s, all);
  }

  // ---------------------------------------------------------------------------
  // Whole runs

  ghost predicate Runs(k: Kernel, es: seq<Event>)
    decreases |es|
  {
    es == [] || (PagesWf(k) && Enabled(k, es[0]) && Runs(Step(k, es[0]), es[1..]))
  }

  ghost function After(k: Kernel, es: seq<Event>): Kernel
    requires Runs(k, es)
    decreases |es|
  {
    if es == [] then k else After(Step(k, es[0]), es[1..])
  }

  ghost function Meanings(k: Kernel, es: seq<Event>): (r: seq<EagerEvent>)
    requires Runs(k, es)
    decreases |es|
  {
    if es == [] then [] else [Meaning(k, es[0])] + Meanings(Step(k, es[0]), es[1..])
  }

  ghost predicate EagerRuns(m: Eager, es: seq<EagerEvent>)
    decreases |es|
  {
    es == [] || (EagerEnabled(m, es[0]) && EagerRuns(EagerStep(m, es[0]), es[1..]))
  }

  ghost function EagerAfter(m: Eager, es: seq<EagerEvent>): Eager
    requires EagerRuns(m, es)
    decreases |es|
  {
    if es == [] then m else EagerAfter(EagerStep(m, es[0]), es[1..])
  }

  /** Main result: along every run the invariant holds and the private pages are those of
      the machine that copies at fork. */
  lemma {:induction false} RunRefinesEagerCopy(k: Kernel, es: seq<Event>)
    requires Inv(k) && Runs(k, es)
    ensures Inv(After(k, es)) && Readable(k) && Readable(After(k, es))
    ensures EagerRuns(Abs(k), Meanings(k, es))
    ensures Abs(After(k, es)) == EagerAfter(Abs(k), Meanings(k, es))
    decreases |es|
  {
    InvReadable(k);
    if es != [] {
      StepKeepsInv(k, es[0]);
      StepRefines(k, es[0]);
      RunRefinesEagerCopy(Step(k, es[0]), es[1..]);
      assert Meanings(k, es)[1..] == Meanings(Step(k, es[0]), es[1..]);
    }
  }

  /** A load from an owned page returns the byte the reference machine holds there. */
  lemma ReadSeesEagerByte(k: Kernel, es: seq<Event>, s: nat, v: nat, off: nat)
    requires Inv(k) && Runs(k, es) && off < PAGE_SIZE
    requires Maps(After(k, es), s, v) && At(After(k, es), s, v).owned
    ensures Readable(k) && EagerRuns(Abs(k), Meanings(k, es))
    ensures var k' := After(k, es); var m := EagerAfter(Abs(k), Meanings(k, es));
      PagesWf(k') && s < |m| && v in m[s] && k'.mem[At(k', s, v).frame][off] == m[s][v][off]
  {
    RunRefinesEagerCopy(k, es);
  }

  predicate Names(e: Event, s: nat)
  {
    match e
    case New => false
    case Fork(p, c, _) => c == s
    case Read(_, _, _) => false
    case Write(x, _, _, _, _) => x == s
    case Grow(x, _, _, _, _) => x == s
    case MapForeign(x, _, _, _) => x == s
    case Unmap(x, _) => x == s
    case Destroy(x, _) => x == s
  }

  lemma StepLeavesContents(k: Kernel, e: Event, s: nat)
    requires Inv(k) && Enabled(k, e) && s < |k.spaces| && !Names(e, s)
    ensures Readable(k) && Readable(Step(k, e)) && s < |Step(k, e).spaces| && Abs(Step(k, e))[s] == Abs(k)[s]
  {
    StepRefines(k, e);
    assert |Abs(k)| == |k.spaces|;
    hide Step, Enabled, Inv, Abs;
  }

  lemma {:induction false} OthersLeaveContents(k: Kernel, es: seq<Event>, s: nat)
    requires Inv(k) && Runs(k, es) && s < |k.spaces|
    requires forall e :: e in es ==> !Names(e, s)
    ensures Readable(k) && Readable(After(k, es)) && s < |After(k, es).spaces|
    ensures Abs(After(k, es))[s] == Abs(k)[s]
    decreases |es|
  {
    InvReadable(k);
    if es != [] {
      StepKeepsInv(k, es[0]);
      assert es[0] in es;
      forall e | e in es[1..] ensures !Names(e, s) { assert e in es; }
      StepLeavesContents(k, es[0], s);
      hide Step, Inv, Names;
      OthersLeaveContents(Step(k, es[0]), es[1..], s);
    }
  }

  /** Fork isolation: whatever the parent and everyone else do afterwards, the child keeps
      reading the parent's pages as they were at the fork, until it changes them itself. */
  lemma ForkIsSnapshot(k: Kernel, p: nat, c: nat, tabs: map<nat, Tab>, es: seq<Event>)
    requires Inv(k) && Enabled(k, Fork(p, c, tabs)) && Runs(Step(k, Fork(p, c, tabs)), es)
    requires forall e :: e in es ==> !Names(e, c)
    ensures var k' := After(Step(k, Fork(p, c, tabs)), es);
      Readable(k) && Readable(k') && c < |k'.spaces| && Abs(k')[c] == Abs(k)[p]
  {
    StepKeepsInv(k, Fork(p, c, tabs));
    StepRefines(k, Fork(p, c, tabs));
    OthersLeaveContents(Step(k, Fork(p, c, tabs)), es, c);
  }

  // ---------------------------------------------------------------------------
  // Stores by the kernel

  /** A store in kernel mode, such as a read into a user buffer: CR0.WP is never set, so it does
      not fault on a read-only page and goes to the frame that is mapped. */
  function KernelStored(k: Kernel, s: nat, v: nat, off: nat, b: Byte): Kernel
    requires Maps(k, s, v) && off < PAGE_SIZE && At(k, s, v).frame in k.mem
  {
    var f := At(k, s, v).frame;
    k.(mem := k.mem[f := Poke(k.mem[f], off, b)])
  }

  /** The frame of page `v` is owned by no other space. */
  ghost predicate Alone(k: Kernel, s: nat, v: nat)
    requires Maps(k, s, v)
  {
    forall s', v' :: Maps(k, s', v') && At(k, s', v').owned && s' != s ==> At(k, s', v').frame != At(k, s, v).frame
  }

  /** It is the eager machine's store if and only if no other space owns the frame, or the byte
      was there already. */
  lemma KernelStoreRefinesIff(k: Kernel, s: nat, v: nat, off: nat, b: Byte)
    requires Inv(k) && Maps(k, s, v) && At(k, s, v).owned && off < PAGE_SIZE
    ensures At(k, s, v).frame in k.mem
    ensures var k', e := KernelStored(k, s, v, off, b), EagerWrite(s, v, off, b);
      && Readable(k) && Readable(k') && EagerEnabled(Abs(k), e)
      && (Abs(k') == EagerStep(Abs(k), e) <==> Alone(k, s, v) || k.mem[At(k, s, v).frame][off] == b)
  {
    InvReadable(k);
    var k', m := KernelStored(k, s, v, off, b), EagerStep(Abs(k), EagerWrite(s, v, off, b));
    var f := At(k, s, v).frame;
    assert Contents(k'.spaces[s], k'.mem) == m[s] by {
      forall w | w in k.spaces[s].pages && k.spaces[s].pages[w].owned && w != v ensures k.spaces[s].pages[w].frame != f {
        assert Maps(k, s, w) && At(k, s, w) == k.spaces[s].pages[w];
      }
    }
    if Alone(k, s, v) || k.mem[f][off] == b {
      forall x | 0 <= x < |k.spaces| && x != s ensures Contents(k'.spaces[x], k'.mem) == m[x] {
        OtherSpaceSame(k, s, v, off, b, x);
      }
      assert Abs(k') == m;
    } else {
      SharedByteSeen(k, s, v, off, b);
    }
  }

  lemma OtherSpaceSame(k: Kernel, s: nat, v: nat, off: nat, b: Byte, x: nat)
    requires Readable(k) && Maps(k, s, v) && At(k, s, v).frame in k.mem && off < PAGE_SIZE && x < |k.spaces| && x != s
    requires Alone(k, s, v) || k.mem[At(k, s, v).frame][off] == b
    ensures Readable(KernelStored(k, s, v, off, b))
    ensures Contents(k.spaces[x], KernelStored(k, s, v, off, b).mem) == Contents(k.spaces[x], k.mem)
  {
    var k', f := KernelStored(k, s, v, off, b), At(k, s, v).frame;
    assert k.mem[f][off] == b ==> Poke(k.mem[f], off, b) == k.mem[f];
    forall w | w in k.spaces[x].pages && k.spaces[x].pages[w].owned
      ensures k'.mem[k.spaces[x].pages[w].frame] == k.mem[k.spaces[x].pages[w].frame]
    {
      assert Maps(k, x, w) && At(k, x, w) == k.spaces[x].pages[w];
    }
    SameContents(k.spaces[x], k.mem, k'.mem);
  }

  lemma SharedByteSeen(k: Kernel, s: nat, v: nat, off: nat, b: Byte)
    requires Readable(k) && Maps(k, s, v) && At(k, s, v).owned && At(k, s, v).frame in k.mem && off < PAGE_SIZE
    requires !Alone(k, s, v) && k.mem[At(k, s, v).frame][off] != b
    ensures var k' := KernelStored(k, s, v, off, b);
      Readable(k') && EagerEnabled(Abs(k), EagerWrite(s, v, off, b)) && Abs(k') != EagerStep(Abs(k), EagerWrite(s, v, off, b))
  {
    var k', f := KernelStored(k, s, v, off, b), At(k, s, v).frame;
    var m := EagerStep(Abs(k), EagerWrite(s, v, off, b));
    var x: nat, w: nat :| Maps(k, x, w) && At(k, x, w).owned && x != s && At(k, x, w).frame == f;
    assert w in Abs(k')[x] && Abs(k')[x][w] == Poke(k.mem[f], off, b) && Abs(k')[x][w][off] == b;
    assert m[x] == Abs(k)[x] && m[x][w] == k.mem[f];
  }

  /** So right after a fork, a kernel store of a new byte into a page the child shares is seen by
      the child. */
  lemma KernelStoreAfterFork(k: Kernel, p: nat, c: nat, tabs: map<nat, Tab>, v: nat, off: nat, b: Byte)
    requires Inv(k) && Enabled(k, Fork(p, c, tabs)) && Maps(k, p, v) && At(k, p, v).owned && off < PAGE_SIZE
    requires k.mem[At(k, p, v).frame][off] != b
    ensures var k' := Step(k, Fork(p, c, tabs));
      && Maps(k', p, v) && At(k', p, v).owned && At(k', p, v).frame in k'.mem && !Alone(k', p, v)
      && k'.mem[At(k', p, v).frame][off] != b
  {
    var k' := Step(k, Fork(p, c, tabs));
    assert Maps(k', c, v) && At(k', c, v).owned && At(k', c, v).frame == At(k', p, v).frame;
  }
}
