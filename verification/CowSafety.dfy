/** Every step of the copy-on-write machine keeps the ownership invariant. */
module CowSafety {
  import opened CowMachine

  // ---------------------------------------------------------------------------
  // Steps that only take mappings away

  /** `k'` has no mapping and no table that `k` lacks, and still holds the frames it uses. */
  ghost predicate Shrinks(k: Kernel, k': Kernel)
  {
    && k'.ram == k.ram && k'.mem.Keys == k.mem.Keys && k'.used <= k.used
    && (forall s, v :: Maps(k', s, v) ==>
          Maps(k, s, v) && At(k', s, v) == At(k, s, v) && HasTable(k', s, Slot(v)))
    && (forall s, v :: Maps(k', s, v) && At(k', s, v).frame in k.used ==> At(k', s, v).frame in k'.used)
    && (forall s, i :: HasTable(k', s, i) ==>
          HasTable(k, s, i) && TableAt(k', s, i) == TableAt(k, s, i) && TableAt(k', s, i).frame in k'.used)
  }

  lemma ShrinkKeepsInv(k: Kernel, k': Kernel)
    requires Inv(k) && Shrinks(k, k')
    ensures Inv(k')
  {
  }

  // ---------------------------------------------------------------------------
  // Steps that install one entry

  /** `k'` is `k` with the entry at (s, v) replaced and perhaps a new table `t` behind it. */
  ghost predicate Installs(k: Kernel, k': Kernel, s: nat, v: nat, pte: Pte, t: Frame)
  {
    && k'.ram == k.ram && k.mem.Keys <= k'.mem.Keys && k.used <= k'.used
    && UserPage(v) && HasTable(k', s, Slot(v)) && pte.frame in k'.mem
    && (forall s', v' :: Maps(k', s', v') ==>
          if s' == s && v' == v then At(k', s', v') == pte else Maps(k, s', v') && At(k', s', v') == At(k, s', v'))
    && (forall s', i :: HasTable(k, s', i) ==> HasTable(k', s', i))
    && (forall s', i :: HasTable(k', s', i) ==>
          || (HasTable(k, s', i) && TableAt(k', s', i) == TableAt(k, s', i))
          || (s' == s && i == Slot(v) && TableAt(k', s', i).frame == t && Fresh(k, t) && t in k'.used))
  }

  /** The new entry either owns a fresh frame with write permission or is foreign. */
  ghost predicate MayInstall(k: Kernel, k': Kernel, pte: Pte, t: Frame)
  {
    if pte.owned then
      pte.write && Fresh(k, pte.frame) && pte.frame in k'.used && pte.frame != t
    else
      && !Fresh(k, pte.frame)
      && (forall s', v' :: Maps(k, s', v') && At(k, s', v').owned ==> At(k, s', v').frame != pte.frame)
      && (forall s', i :: HasTable(k, s', i) ==> TableAt(k, s', i).frame != pte.frame)
  }

  lemma InstallKeepsPages(k: Kernel, k': Kernel, s: nat, v: nat, pte: Pte, t: Frame)
    requires Inv(k) && Installs(k, k', s, v, pte, t) && MayInstall(k, k', pte, t)
    ensures PagesWf(k') && FramesHeld(k')
  {
  }

  lemma InstallKeepsPrivacy(k: Kernel, k': Kernel, s: nat, v: nat, pte: Pte, t: Frame)
    requires Inv(k) && Installs(k, k', s, v, pte, t) && MayInstall(k, k', pte, t)
    ensures WritableIsPrivate(k') && OwnershipClear(k')
  {
    forall s', v' | Maps(k, s', v') ensures pte.owned ==> At(k, s', v').frame != pte.frame {}
  }

  lemma InstallKeepsTables(k: Kernel, k': Kernel, s: nat, v: nat, pte: Pte, t: Frame)
    requires Inv(k) && Installs(k, k', s, v, pte, t) && MayInstall(k, k', pte, t)
    ensures TablesPrivate(k')
  {
    forall s', v' | Maps(k, s', v') ensures Fresh(k, t) ==> At(k, s', v').frame != t {}
  }

  lemma InstallKeepsInv(k: Kernel, k': Kernel, s: nat, v: nat, pte: Pte, t: Frame)
    requires Inv(k) && Installs(k, k', s, v, pte, t) && MayInstall(k, k', pte, t)
    ensures Inv(k')
  {
    InstallKeepsPages(k, k', s, v, pte, t);
    InstallKeepsPrivacy(k, k', s, v, pte, t);
    InstallKeepsTables(k, k', s, v, pte, t);
  }

  lemma WriteKeepsInv(k: Kernel, s: nat, v: nat, off: nat, b: Byte, copy: Frame)
    requires Inv(k) && Enabled(k, Write(s, v, off, b, copy))
    ensures Inv(Step(k, Write(s, v, off, b, copy)))
  {
    var k' := Step(k, Write(s, v, off, b, copy));
    assert HasTable(k, s, Slot(v));
    if At(k, s, v).write {
      assert k'.spaces == k.spaces;
      assert forall s', v' :: Maps(k', s', v') ==> Maps(k, s', v');
      assert forall s', i :: HasTable(k', s', i) ==> HasTable(k, s', i);
      ShrinkKeepsInv(k, k');
    } else {
      // No table is added, so any number other than the copied frame stands for it.
      InstallKeepsInv(k, k', s, v, Pte(copy, true, true, true), copy + 1);
    }
  }

  // ---------------------------------------------------------------------------
  // Fork

  /** What the spaces look like after fork, entry by entry. */
  lemma ForkEntries(k: Kernel, p: nat, c: nat, tabs: map<nat, Tab>)
    requires Inv(k) && Enabled(k, Fork(p, c, tabs))
    ensures Forked(k, Step(k, Fork(p, c, tabs)), p, c, tabs)
  {
    var k' := Step(k, Fork(p, c, tabs));
    var before, kept := k.spaces[p].pages, Protect(k.spaces[p].pages);
    assert k'.spaces[c] == Space(kept, tabs);
    assert k'.spaces[p] == Space(kept, k.spaces[p].tables);
    assert forall s :: 0 <= s < |k.spaces| && s != p && s != c ==> k'.spaces[s] == k.spaces[s];
    forall s, v | Maps(k', s, v)
      ensures var from := if s == c then p else s;
        && Maps(k, from, v) && At(k', s, v).frame == At(k, from, v).frame
        && At(k', s, v).owned == At(k, from, v).owned
        && (At(k', s, v).owned && At(k', s, v).write ==> At(k, from, v).write && s != p && s != c)
        && HasTable(k', s, Slot(v))
    {
      if s == c || s == p {
        assert v in before && Maps(k, p, v) && Slot(v) in tabs;
      } else {
        assert Maps(k, s, v);
      }
    }
  }

  ghost predicate Forked(k: Kernel, k': Kernel, p: nat, c: nat, tabs: map<nat, Tab>)
  {
    && |k'.spaces| == |k.spaces| && k'.ram == k.ram && k'.mem == k.mem
    && k.used <= k'.used && (forall i :: i in tabs ==> tabs[i].frame in k'.used)
    && (forall f :: f in k'.used ==> f in k.used || Fresh(k, f))
    && (forall s, v :: Maps(k', s, v) ==>
          var from := if s == c then p else s;
          && Maps(k, from, v) && At(k', s, v).frame == At(k, from, v).frame
          && At(k', s, v).owned == At(k, from, v).owned
          && (At(k', s, v).owned && At(k', s, v).write ==> At(k, from, v).write && s != p && s != c)
          && HasTable(k', s, Slot(v)))
    && (forall s, i :: HasTable(k', s, i) && s != c ==> HasTable(k, s, i) && TableAt(k', s, i) == TableAt(k, s, i))
    && (forall i :: HasTable(k', c, i) ==> i in tabs && TableAt(k', c, i) == tabs[i])
  }

  lemma ForkKeepsPages(k: Kernel, k': Kernel, p: nat, c: nat, tabs: map<nat, Tab>)
    requires Inv(k) && Forked(k, k', p, c, tabs)
    ensures PagesWf(k') && FramesHeld(k')
  {
  }

  lemma ForkKeepsPrivacy(k: Kernel, k': Kernel, p: nat, c: nat, tabs: map<nat, Tab>)
    requires Inv(k) && Forked(k, k', p, c, tabs)
    ensures WritableIsPrivate(k') && OwnershipClear(k')
  {
  }

  lemma ForkKeepsTables(k: Kernel, k': Kernel, p: nat, c: nat, tabs: map<nat, Tab>)
    requires Inv(k) && Enabled(k, Fork(p, c, tabs)) && Forked(k, k', p, c, tabs)
    ensures TablesPrivate(k')
  {
    forall i, s, v | i in tabs && Maps(k, s, v) ensures tabs[i].frame != At(k, s, v).frame {}
  }

  lemma ForkKeepsInv(k: Kernel, p: nat, c: nat, tabs: map<nat, Tab>)
    requires Inv(k) && Enabled(k, Fork(p, c, tabs))
    ensures Inv(Step(k, Fork(p, c, tabs)))
  {
    var k' := Step(k, Fork(p, c, tabs));
    ForkEntries(k, p, c, tabs);
    ForkKeepsPages(k, k', p, c, tabs);
    ForkKeepsPrivacy(k, k', p, c, tabs);
    ForkKeepsTables(k, k', p, c, tabs);
  }

  // ---------------------------------------------------------------------------
  // Teardown

  /** Teardown gives back only allocated frames, and only frames with no mapping left. */
  lemma FreedHaveNoMapping(k: Kernel, s: nat, all: bool)
    requires Inv(k) && Enabled(k, Destroy(s, all))
    ensures var k' := Step(k, Destroy(s, all));
      && (forall s', v' :: Maps(k', s', v') ==> At(k', s', v').frame !in FreedFrames(k.spaces[s], all))
      && (forall s', i :: HasTable(k', s', i) ==> TableAt(k', s', i).frame !in FreedFrames(k.spaces[s], all))
      && FreedFrames(k.spaces[s], all) <= k.used
  {
    var k' := Step(k, Destroy(s, all));
    var sp := k.spaces[s];
    forall s', v' | Maps(k', s', v')
      ensures At(k', s', v').frame !in FreedFrames(sp, all)
    {
      assert Maps(k, s', v') && At(k', s', v') == At(k, s', v');
      forall v | Releases(sp, all, v) ensures sp.pages[v].frame != At(k', s', v').frame {
        assert Maps(k, s, v) && At(k, s, v) == sp.pages[v];
      }
      forall i | TableReleased(sp, i) ensures sp.tables[i].frame != At(k', s', v').frame {
        assert HasTable(k, s, i) && TableAt(k, s, i) == sp.tables[i];
      }
    }
    forall s', i' | HasTable(k', s', i')
      ensures TableAt(k', s', i').frame !in FreedFrames(sp, all)
    {
      assert HasTable(k, s', i') && TableAt(k', s', i') == TableAt(k, s', i');
      forall v | Releases(sp, all, v) ensures sp.pages[v].frame != TableAt(k', s', i').frame {
        assert Maps(k, s, v) && At(k, s, v) == sp.pages[v];
      }
      forall i | TableReleased(sp, i) ensures sp.tables[i].frame != TableAt(k', s', i').frame {
        assert HasTable(k, s, i) && TableAt(k, s, i) == sp.tables[i];
      }
    }
    forall v | Releases(sp, all, v) ensures sp.pages[v].frame in k.used {
      assert Maps(k, s, v) && At(k, s, v) == sp.pages[v];
    }
    forall i | TableReleased(sp, i) ensures sp.tables[i].frame in k.used {
      assert HasTable(k, s, i) && TableAt(k, s, i) == sp.tables[i];
    }
  }

  lemma DestroyKeepsInv(k: Kernel, s: nat, all: bool)
    requires Inv(k) && Enabled(k, Destroy(s, all))
    ensures Inv(Step(k, Destroy(s, all)))
  {
    var k' := Step(k, Destroy(s, all));
    FreedHaveNoMapping(k, s, all);
    forall s', v' | Maps(k', s', v')
      ensures Maps(k, s', v') && At(k', s', v') == At(k, s', v') && HasTable(k', s', Slot(v'))
    {
      assert Maps(k, s', v') && HasTable(k, s', Slot(v'));
    }
    assert forall s', i :: HasTable(k', s', i) ==> HasTable(k, s', i) && TableAt(k', s', i) == TableAt(k, s', i);
    ShrinkKeepsInv(k, k');
  }

  /** Full teardown (all = true) frees read-only frames too.  It is safe exactly when no
      mapping that survives it still uses one of them. */
  lemma FullTeardownSafeIff(k: Kernel, s: nat)
    requires Inv(k) && s < |k.spaces|
    ensures Inv(Destroyed(k, s, true)) <==> NoSharedRelease(k, s)
  {
    if NoSharedRelease(k, s) {
      DestroyKeepsInv(k, s, true);
    } else {
      var k', sp := Destroyed(k, s, true), k.spaces[s];
      var v: nat, s': nat, v': nat :| Releases(sp, true, v) && Maps(k, s', v')
        && !(s' == s && Gone(sp, true, v')) && At(k, s, v).frame == At(k, s', v').frame;
      assert Maps(k, s, v) && At(k, s, v).owned;
      assert Maps(k', s', v') && At(k', s', v') == At(k, s', v');
      assert sp.pages[v].frame in FreedFrames(sp, true);
    }
  }

  /** It is not safe for a process that has forked: once a child shares a page in the range of
      the teardown, tearing the parent down with all = true frees a frame the child maps. */
  lemma ForkedParentTeardownBreaks(k: Kernel, p: nat, c: nat, tabs: map<nat, Tab>, v: nat)
    requires Inv(k) && Enabled(k, Fork(p, c, tabs)) && Maps(k, p, v) && At(k, p, v).owned && InTeardown(v)
    ensures var k' := Step(k, Fork(p, c, tabs));
      && Inv(k') && !Inv(Destroyed(k', p, true))
      && Maps(Destroyed(k', p, true), c, v) && At(Destroyed(k', p, true), c, v).frame !in Destroyed(k', p, true).used
  {
    var k' := Step(k, Fork(p, c, tabs));
    ForkKeepsInv(k, p, c, tabs);
    assert k'.spaces[c].pages == Protect(k.spaces[p].pages) == k'.spaces[p].pages;
    assert Releases(k'.spaces[p], true, v) && Maps(k', c, v) && At(k', c, v).frame == At(k', p, v).frame;
    FullTeardownSafeIff(k', p);
  }

  // ---------------------------------------------------------------------------

  lemma GrowKeepsInv(k: Kernel, s: nat, v: nat, f: Frame, t: Frame, stale: Page)
    requires Inv(k) && Enabled(k, Grow(s, v, f, t, stale))
    ensures Inv(Step(k, Grow(s, v, f, t, stale)))
  {
    InstallKeepsInv(k, Step(k, Grow(s, v, f, t, stale)), s, v, Pte(f, true, true, true), t);
  }

  lemma MapForeignKeepsInv(k: Kernel, s: nat, v: nat, pte: Pte, t: Frame)
    requires Inv(k) && Enabled(k, MapForeign(s, v, pte, t))
    ensures Inv(Step(k, MapForeign(s, v, pte, t)))
  {
    InstallKeepsInv(k, Step(k, MapForeign(s, v, pte, t)), s, v, pte, t);
  }

  lemma NewOrUnmapKeepsInv(k: Kernel, e: Event)
    requires (e.New? || e.Unmap?) && Inv(k) && Enabled(k, e)
    ensures Inv(Step(k, e))
  {
    var k' := Step(k, e);
    assert forall s, v :: Maps(k', s, v) ==> Maps(k, s, v);
    assert forall s, i :: HasTable(k', s, i) <==> HasTable(k, s, i);
    ShrinkKeepsInv(k, k');
  }

  /** Every step keeps the invariant. */
  lemma StepKeepsInv(k: Kernel, e: Event)
    requires Inv(k) && Enabled(k, e)
    ensures Inv(Step(k, e))
  {
    match e
    case New => NewOrUnmapKeepsInv(k, e);
    case Fork(p, c, tabs) => ForkKeepsInv(k, p, c, tabs);
    case Read(_, _, _) =>
    case Write(s, v, off, b, copy) => WriteKeepsInv(k, s, v, off, b, copy);
    case Grow(s, v, f, t, stale) => GrowKeepsInv(k, s, v, f, t, stale);
    case MapForeign(s, v, pte, t) => MapForeignKeepsInv(k, s, v, pte, t);
    case Unmap(s, v) => NewOrUnmapKeepsInv(k, e);
    case Destroy(s, all) => DestroyKeepsInv(k, s, all);
  }
}
