/** What each step of the copy-on-write machine does to every mapping, table and frame, spelled
    out entry by entry and with the addresses as numbers. */
module CowEffects {
  import opened CowMachine

  /** Fork: parent and child map the same pages with equal entries.  An owned page is shared
      read-only and stays accessible to user mode; any other entry is kept as it was. */
  lemma ForkShares(k: Kernel, p: nat, c: nat, tabs: map<nat, Tab>, v: nat)
    requires PagesWf(k) && Enabled(k, Fork(p, c, tabs))
    ensures var k' := Step(k, Fork(p, c, tabs));
      && (Maps(k', p, v) <==> Maps(k, p, v)) && (Maps(k', c, v) <==> Maps(k, p, v))
      && (Maps(k, p, v) ==>
            && At(k', c, v) == At(k', p, v)
            && At(k', p, v) == if At(k, p, v).owned then Pte(At(k, p, v).frame, false, true, true) else At(k, p, v))
  {
  }

  /** ... and takes exactly one frame for each page table of the child, nothing else. */
  lemma ForkTakes(k: Kernel, p: nat, c: nat, tabs: map<nat, Tab>)
    requires PagesWf(k) && Enabled(k, Fork(p, c, tabs))
    ensures var k' := Step(k, Fork(p, c, tabs));
      && k'.mem == k.mem && |k'.spaces| == |k.spaces|
      && (forall s :: 0 <= s < |k.spaces| && s != p && s != c ==> k'.spaces[s] == k.spaces[s])
      && (forall i: nat :: HasTable(k', c, i) <==> exists v: nat :: Maps(k, p, v) && v / 1024 == i)
      && (forall i: nat :: HasTable(k', p, i) <==> HasTable(k, p, i))
      && (forall f :: f in k'.used <==> f in k.used || exists i: nat :: HasTable(k', c, i) && TableAt(k', c, i).frame == f)
  {
    var k' := Step(k, Fork(p, c, tabs));
    assert k'.spaces[c].tables == tabs;
    forall v: nat | Maps(k, p, v) ensures HasTable(k', c, v / 1024) {
      assert Slot(v) in tabs;
    }
    forall i | HasTable(k', c, i) ensures exists v: nat :: Maps(k, p, v) && v / 1024 == i {
      var v :| v in k.spaces[p].pages && Slot(v) == i;
      assert Maps(k, p, v);
    }
    forall i | i in tabs ensures HasTable(k', c, i) && TableAt(k', c, i).frame == tabs[i].frame {}
  }

  /** A user store through a writable entry changes one byte of that frame, and nothing else. */
  lemma StoreInPlace(k: Kernel, s: nat, v: nat, off: nat, b: Byte, copy: Frame, f: Frame, x: nat)
    requires PagesWf(k) && Enabled(k, Write(s, v, off, b, copy)) && At(k, s, v).write
    ensures var k' := Step(k, Write(s, v, off, b, copy));
      && k'.spaces == k.spaces && k'.used == k.used && k'.mem.Keys == k.mem.Keys
      && (f in k.mem && x < 4096 ==> k'.mem[f][x] == if f == At(k, s, v).frame && x == off then b else k.mem[f][x])
  {
  }

  /** A user store through a read-only entry takes one frame.  The page moves there, writable,
      owned and accessible to user mode, with the byte stored; every other entry and every
      other frame stays. */
  lemma StoreCopies(k: Kernel, s: nat, v: nat, off: nat, b: Byte, copy: Frame)
    requires PagesWf(k) && Enabled(k, Write(s, v, off, b, copy)) && !At(k, s, v).write
    ensures var k' := Step(k, Write(s, v, off, b, copy));
      && |k'.spaces| == |k.spaces| && k'.used == k.used + {copy} && k'.mem.Keys == k.mem.Keys + {copy}
      && Maps(k', s, v) && At(k', s, v) == Pte(copy, true, true, true)
      && (forall s': nat, v': nat :: (s', v') != (s, v) ==> (Maps(k', s', v') <==> Maps(k, s', v')))
      && (forall s': nat, v': nat :: (s', v') != (s, v) && Maps(k, s', v') ==> At(k', s', v') == At(k, s', v'))
      && (forall s': nat, i: nat :: HasTable(k', s', i) <==> HasTable(k, s', i))
      && (forall x :: 0 <= x < 4096 ==> k'.mem[copy][x] == if x == off then b else k.mem[At(k, s, v).frame][x])
      && (forall f :: f in k.mem && f != copy ==> k'.mem[f] == k.mem[f])
  {
    var k' := Step(k, Write(s, v, off, b, copy));
    assert HasTable(k, s, Slot(v));
    assert k'.spaces[s].tables == k.spaces[s].tables;
  }

  /** A page can be added just between 0x40000000 and 0xF0000000, with a frame that is free, and a
      second one if its slot has no table. */
  lemma GrowEnabledExactly(k: Kernel, s: nat, v: nat, f: Frame, t: Frame, stale: Page)
    requires s < |k.spaces|
    ensures Enabled(k, Grow(s, v, f, t, stale)) <==>
      (&& 0x40000 <= v < 0xF0000 && f in k.ram && f !in k.used && f != t
       && (HasTable(k, s, v / 1024) || (t in k.ram && t !in k.used)))
  {
  }

  /** Entering `pte` at `v`: that entry is there, all others are as before, and the page's slot
      has a table, a new one - with the entry's ownership bit - exactly when there was none. */
  ghost predicate Entered(k: Kernel, k': Kernel, s: nat, v: nat, pte: Pte, t: Frame)
  {
    && |k'.spaces| == |k.spaces| && Maps(k', s, v) && At(k', s, v) == pte
    && (forall s': nat, v': nat :: (s', v') != (s, v) ==> (Maps(k', s', v') <==> Maps(k, s', v')))
    && (forall s': nat, v': nat :: (s', v') != (s, v) && Maps(k, s', v') ==> At(k', s', v') == At(k, s', v'))
    && (forall s': nat, i: nat :: HasTable(k', s', i) <==> HasTable(k, s', i) || (s' == s && i == v / 1024))
    && (forall s': nat, i: nat :: HasTable(k, s', i) ==> TableAt(k', s', i) == TableAt(k, s', i))
    && (!HasTable(k, s, v / 1024) ==> TableAt(k', s, v / 1024) == Tab(t, pte.owned))
  }

  /** Growing enters a fresh frame writable, owned and accessible to user mode; it and the frame
      of a new table are in use afterwards, and no other frame's bytes change. */
  lemma GrowEnters(k: Kernel, s: nat, v: nat, f: Frame, t: Frame, stale: Page)
    requires PagesWf(k) && Enabled(k, Grow(s, v, f, t, stale))
    ensures var k' := Step(k, Grow(s, v, f, t, stale));
      && Entered(k, k', s, v, Pte(f, true, true, true), t)
      && k'.used == k.used + (if HasTable(k, s, v / 1024) then {f} else {f, t})
      && k'.mem.Keys == k.mem.Keys + {f} && k'.mem[f] == stale
      && (forall g :: g in k.mem && g != f ==> k'.mem[g] == k.mem[g])
  {
    EntersPage(k, s, v, Pte(f, true, true, true), t);
  }

  /** Mapping a foreign page enters exactly the entry asked for and uses no frame but a table's. */
  lemma MapForeignEnters(k: Kernel, s: nat, v: nat, pte: Pte, t: Frame)
    requires PagesWf(k) && Enabled(k, MapForeign(s, v, pte, t))
    ensures var k' := Step(k, MapForeign(s, v, pte, t));
      && Entered(k, k', s, v, pte, t) && k'.mem == k.mem
      && k'.used == k.used + (if HasTable(k, s, v / 1024) then {} else {t})
  {
    EntersPage(k, s, v, pte, t);
  }

  lemma EntersPage(k: Kernel, s: nat, v: nat, pte: Pte, t: Frame)
    requires s < |k.spaces|
    ensures Entered(k, MapPage(k, s, v, pte, t), s, v, pte, t)
  {
    var k' := MapPage(k, s, v, pte, t);
    assert forall s' :: 0 <= s' < |k.spaces| && s' != s ==> k'.spaces[s'] == k.spaces[s'];
  }

  /** Unmapping takes one entry away; no table goes and no frame is given back. */
  lemma UnmapTakes(k: Kernel, s: nat, v: nat)
    requires PagesWf(k) && Enabled(k, Unmap(s, v))
    ensures var k' := Step(k, Unmap(s, v));
      && |k'.spaces| == |k.spaces| && k'.used == k.used && k'.mem == k.mem
      && (forall s': nat, v': nat :: Maps(k', s', v') <==> Maps(k, s', v') && (s', v') != (s, v))
      && (forall s': nat, v': nat :: Maps(k', s', v') ==> At(k', s', v') == At(k, s', v'))
      && (forall s': nat, i: nat :: HasTable(k', s', i) <==> HasTable(k, s', i))
      && (forall s': nat, i: nat :: HasTable(k, s', i) ==> TableAt(k', s', i) == TableAt(k, s', i))
  {
  }

  // ---------------------------------------------------------------------------
  // Teardown

  /** The page table behind slot `i` of `s` goes back: it is owned and lies between 0x40000000
      and 0x90000000. */
  ghost predicate TableGoes(k: Kernel, s: nat, i: nat)
  {
    256 <= i < 576 && HasTable(k, s, i) && TableAt(k, s, i).owned
  }

  /** The frame of page `v` of `s` goes back: it is owned and in that range, and writable or
      torn down with all = true. */
  ghost predicate FrameGoes(k: Kernel, s: nat, all: bool, v: nat)
  {
    0x40000 <= v < 0x90000 && Maps(k, s, v) && At(k, s, v).owned && (At(k, s, v).write || all)
  }

  /** Teardown empties the range and gives back everything it should: after it a table is there
      exactly if it does not go, a page exactly if neither its frame nor its table goes, and a
      frame is in use exactly if it was and is neither of a page nor of a table that goes. */
  lemma DestroyReleasesExactly(k: Kernel, s: nat, all: bool)
    requires PagesWf(k) && Enabled(k, Destroy(s, all))
    ensures var k' := Step(k, Destroy(s, all));
      && |k'.spaces| == |k.spaces| && k'.mem == k.mem
      && (forall s': nat, i: nat :: HasTable(k', s', i) <==> HasTable(k, s', i) && !(s' == s && TableGoes(k, s, i)))
      && (forall s': nat, v: nat :: Maps(k', s', v) <==>
            Maps(k, s', v) && !(s' == s && (FrameGoes(k, s, all, v) || TableGoes(k, s, v / 1024))))
      && (forall s': nat, i: nat :: HasTable(k', s', i) ==> TableAt(k', s', i) == TableAt(k, s', i))
      && (forall s': nat, v: nat :: Maps(k', s', v) ==> At(k', s', v) == At(k, s', v))
      && (forall f :: f in k'.used <==>
            (&& f in k.used
             && (forall i: nat :: TableGoes(k, s, i) ==> TableAt(k, s, i).frame != f)
             && (forall v: nat :: FrameGoes(k, s, all, v) ==> At(k, s, v).frame != f)))
  {
    var k', sp := Step(k, Destroy(s, all)), k.spaces[s];
    assert forall s' :: 0 <= s' < |k.spaces| && s' != s ==> k'.spaces[s'] == k.spaces[s'];
    assert forall v: nat :: FrameGoes(k, s, all, v) <==> Releases(sp, all, v);
    assert forall i: nat :: TableGoes(k, s, i) <==> TableReleased(sp, i);
    forall f
      ensures f in FreedFrames(sp, all) <==>
        (exists i: nat :: TableGoes(k, s, i) && TableAt(k, s, i).frame == f) || (exists v: nat :: FrameGoes(k, s, all, v) && At(k, s, v).frame == f)
    {
      FreedExactly(k, s, all, f);
    }
  }

  lemma FreedExactly(k: Kernel, s: nat, all: bool, f: Frame)
    requires s < |k.spaces|
    ensures f in FreedFrames(k.spaces[s], all) <==>
      (exists i: nat :: TableGoes(k, s, i) && TableAt(k, s, i).frame == f) || (exists v: nat :: FrameGoes(k, s, all, v) && At(k, s, v).frame == f)
  {
    var sp := k.spaces[s];
    if i :| TableGoes(k, s, i) && TableAt(k, s, i).frame == f {
      assert TableReleased(sp, i);
    }
    if v :| FrameGoes(k, s, all, v) && At(k, s, v).frame == f {
      assert Releases(sp, all, v);
    }
    if v :| v in sp.pages && Releases(sp, all, v) && sp.pages[v].frame == f {
      assert FrameGoes(k, s, all, v) && At(k, s, v).frame == f;
    }
    if i :| i in sp.tables && TableReleased(sp, i) && sp.tables[i].frame == f {
      assert TableGoes(k, s, i) && TableAt(k, s, i).frame == f;
    }
  }

  /** So with every table of the range owned, nothing is left in it, shared or not. */
  lemma NothingLeftBehind(k: Kernel, s: nat, all: bool, v: nat)
    requires Inv(k) && Enabled(k, Destroy(s, all)) && 0x40000 <= v < 0x90000
    requires forall i: nat :: 256 <= i < 576 && HasTable(k, s, i) ==> TableAt(k, s, i).owned
    ensures var k' := Step(k, Destroy(s, all));
      !Maps(k', s, v) && !HasTable(k', s, v / 1024)
  {
    DestroyReleasesExactly(k, s, all);
    assert Maps(k, s, v) ==> HasTable(k, s, Slot(v));
  }

  /** A new space is empty, a load changes nothing. */
  lemma NewAndReadEffects(k: Kernel, s: nat, v: nat, off: nat)
    requires PagesWf(k) && Enabled(k, Read(s, v, off))
    ensures Step(k, Read(s, v, off)) == k
    ensures var k' := Step(k, New);
      && |k'.spaces| == |k.spaces| + 1 && k'.used == k.used && k'.mem == k.mem && k'.spaces[..|k.spaces|] == k.spaces
      && (forall w: nat :: !Maps(k', |k.spaces|, w)) && (forall i: nat :: !HasTable(k', |k.spaces|, i))
  {
  }
}
