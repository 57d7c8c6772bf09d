/** What each scheduler step does to the processes, their signals and the run queue, spelled out
    with the states and numbers of the source, and what this means for signals over whole runs. */
module SchedulerEffects {
  import opened Facts
  import opened RunQueue
  import opened SchedulerMachine
  import opened SchedulerProofs

  // ---------------------------------------------------------------------------
  // Which task

  /** With an empty queue nothing is dispatched.  A head that is alive and not idle, a zombie or
      being created is taken, or idle in its place if it waits (state above 3); the task taken
      goes to the end if there is room. */
  lemma HeadTaken(s: Sched)
    requires TickEnabled(s) && !Keeps(s)
    ensures s.queue == [] ==> Dispatched(s) == NoTask && Tick(s) == s
    ensures s.queue != [] && !s.procs[s.queue[0]].died && s.procs[s.queue[0]].state !in {-1, 4, 6} ==>
      var h := if s.procs[s.queue[0]].state > 3 then s.idle else s.queue[0];
      Dispatched(s) == Task(h) && Tick(s).queue == s.queue[1..] + (if |s.queue| - 1 < s.cap then [h] else [])
  {
  }

  /** A head that cannot be taken leaves the queue.  The first task behind it that is alive and in
      state 1 or 2 is dispatched; without one the queue is left empty. */
  lemma HeadPassedOver(s: Sched, k: nat)
    requires TickEnabled(s) && !Keeps(s) && PassesTo(s, k)
    ensures k == |s.queue| ==> Dispatched(s) == NoTask && Tick(s) == s.(queue := [])
    ensures k < |s.queue| ==> Dispatched(s) == Task(s.queue[k])
  {
    var q := s.queue[1..];
    assert forall h :: h in q ==> h in s.procs;
    forall i | 0 <= i < k - 1 ensures !Runnable(s.procs[q[i]]) {
      assert q[i] == s.queue[i + 1];
    }
    if k < |s.queue| {
      assert q[k - 1] == s.queue[k];
      FirstRunnableIs(q, s.procs, k - 1);
    } else {
      assert FirstRunnable(q, s.procs) == |q|;
    }
  }

  ghost predicate PassesTo(s: Sched, k: nat)
    requires Known(s)
  {
    && 1 <= k <= |s.queue| && (s.procs[s.queue[0]].died || s.procs[s.queue[0]].state in {-1, 4, 6})
    && (forall i :: 1 <= i < k ==> s.procs[s.queue[i]].died || s.procs[s.queue[i]].state !in {1, 2})
    && (k < |s.queue| ==> !s.procs[s.queue[k]].died && s.procs[s.queue[k]].state in {1, 2})
  }

  /** Those passed over on the way come after the rest of the queue, in their order and without the
      dead ones, and before the task dispatched. */
  lemma PassedOverRequeued(s: Sched, k: nat, live: seq<Handle>)
    requires TickEnabled(s) && !Keeps(s) && PassesTo(s, k) && k < |s.queue|
    requires LiveOnes(s, s.queue[1..k], live)
    ensures var q := s.queue[k + 1..] + live;
      Tick(s).queue == q + (if |q| < s.cap then [s.queue[k]] else [])
  {
    HeadPassedOver(s, k);
    var q := s.queue[1..];
    forall i | 0 <= i < k - 1 ensures !Runnable(s.procs[q[i]]) {
      assert q[i] == s.queue[i + 1];
    }
    assert q[k - 1] == s.queue[k] && q[..k - 1] == s.queue[1..k] && q[k..] == s.queue[k + 1..];
    FirstRunnableIs(q, s.procs, k - 1);
    LiveIsAlive(s, s.queue[1..k], live);
  }

  /** `live` is `q` without the dead. */
  ghost predicate LiveOnes(s: Sched, q: seq<Handle>, live: seq<Handle>)
    requires forall h :: h in q ==> h in s.procs
  {
    if q == [] then live == []
    else
      var n, last := |q| - 1, q[|q| - 1];
      if s.procs[last].died then LiveOnes(s, q[..n], live)
      else live != [] && live[|live| - 1] == last && LiveOnes(s, q[..n], live[..|live| - 1])
  }

  lemma {:induction false} LiveIsAlive(s: Sched, q: seq<Handle>, live: seq<Handle>)
    requires (forall h :: h in q ==> h in s.procs) && LiveOnes(s, q, live)
    ensures Alive(q, s.procs) == live
  {
    if q != [] {
      var n := |q| - 1;
      AliveSnoc(q[..n], q[n], s.procs);
      assert q[..n] + [q[n]] == q;
      if s.procs[q[n]].died {
        LiveIsAlive(s, q[..n], live);
      } else {
        LiveIsAlive(s, q[..n], live[..|live| - 1]);
        assert live == live[..|live| - 1] + [q[n]];
      }
    }
  }

  lemma {:induction false} AliveSnoc(q: seq<Handle>, h: Handle, procs: map<Handle, Proc>)
    requires (forall x :: x in q ==> x in procs) && h in procs
    ensures Alive(q + [h], procs) == Alive(q, procs) + (if procs[h].died then [] else [h])
  {
    if q != [] {
      AliveSnoc(q[1..], h, procs);
      assert (q + [h])[1..] == q[1..] + [h];
    }
  }

  /** What a tick does besides the signal: a running task below its quota of 10 keeps the processor
      and is charged one; otherwise the task chosen starts with a quota of 0 at the end of the
      queue.  No other process changes. */
  lemma TickCharges(s: Sched, h: Handle)
    requires TickEnabled(s) && h in s.procs
    ensures h in Tick(s).procs && Tick(s).procs.Keys == s.procs.Keys && Tick(s).idle == s.idle && Tick(s).cap == s.cap
    ensures Keeps(s) <==> s.running in s.procs && !s.procs[s.running].died && s.procs[s.running].quota < 10
    ensures Keeps(s) ==> Tick(s).queue == s.queue && Tick(s).running == s.running
    ensures Keeps(s) && s.procs[s.running].signals == [] ==> Tick(s).procs[s.running] == s.procs[s.running].(quota := s.procs[s.running].quota + 1)
    ensures Keeps(s) && s.procs[s.running].signals != [] ==>
      var p, p' := s.procs[s.running], Tick(s).procs[s.running];
      p'.quota == p.quota && p'.started == p.started && p'.state == p.state && p'.died == p.died && p'.parent == p.parent && p'.user == p.user
    ensures Keeps(s) && h != s.running ==> Tick(s).procs[h] == s.procs[h]
    ensures !Keeps(s) && Dispatched(s) == NoTask ==> Tick(s).procs == s.procs && Tick(s).running == s.running
    ensures !Keeps(s) && Dispatched(s).Task? ==> Tick(s).running == Dispatched(s).h
    ensures !Keeps(s) && Dispatched(s).Task? && h != Dispatched(s).h ==> Tick(s).procs[h] == s.procs[h]
    ensures !Keeps(s) && Dispatched(s) == Task(h) ==>
      var p, p' := s.procs[h], Tick(s).procs[h];
      p'.quota == 0 && p'.started && p'.state == p.state && p'.died == p.died && p'.parent == p.parent && p'.user == p.user
  {
    if !Keeps(s) && Dispatched(s).Task? {
      ChosenKnown(s);
    }
    hide Choose;
    assert Dispatched(s).Task? ==> Tick(s).procs.Keys == s.procs.Keys + {Dispatched(s).h};
  }

  lemma ChosenKnown(s: Sched)
    requires TickEnabled(s) && !Keeps(s) && Dispatched(s).Task?
    ensures Dispatched(s).h in s.procs
  {
  }

  // ---------------------------------------------------------------------------
  // Signals

  /** The task a tick switches to, which is the one that takes a signal: the running one if it
      keeps the processor with a signal pending, else the one dispatched. */
  ghost predicate Switches(s: Sched, h: Handle)
    requires TickEnabled(s)
  {
    if Keeps(s) then h == s.running && s.procs[h].signals != [] else Dispatched(s) == Task(h)
  }

  /** The handler for the first pending signal is there and may be called: the task is a user
      process and the number is below 32. */
  predicate Handled(p: Proc)
  {
    p.signals != [] && p.user && p.signals[0] < 32 && p.signals[0] < |p.handlers| && p.handlers[p.signals[0]].installed
  }

  /** A task that is not switched to, or has nothing pending, keeps its signals and handlers. */
  lemma SignalsWait(s: Sched, h: Handle)
    requires TickEnabled(s) && h in s.procs && (!Switches(s, h) || s.procs[h].signals == [])
    ensures h in Tick(s).procs && Tick(s).procs[h].signals == s.procs[h].signals && Tick(s).procs[h].handlers == s.procs[h].handlers
    ensures Tick(s).procs[h].switches == s.procs[h].switches + (if Switches(s, h) then 1 else 0)
  {
    hide Choose;
  }

  /** While the handler of the first pending signal is running, the signal goes to the end of the
      line: nothing is lost and no handler is touched. */
  lemma BlockedSignalRequeued(s: Sched, h: Handle)
    requires TickEnabled(s) && h in s.procs && Switches(s, h) && Handled(s.procs[h])
    requires s.procs[h].handlers[s.procs[h].signals[0]].blocked
    ensures h in Tick(s).procs && Tick(s).procs[h].handlers == s.procs[h].handlers
    ensures Tick(s).procs[h].signals == s.procs[h].signals[1..] + [s.procs[h].signals[0]]
    ensures multiset(Tick(s).procs[h].signals) == multiset(s.procs[h].signals)
  {
    hide Choose;
    var sig := s.procs[h].signals;
    assert sig == [sig[0]] + sig[1..];
  }

  /** A handler that is not running is called: the signal is gone and its handler, no other, is
      marked as running. */
  lemma SignalDelivered(s: Sched, h: Handle)
    requires TickEnabled(s) && h in s.procs && Switches(s, h) && Handled(s.procs[h])
    requires !s.procs[h].handlers[s.procs[h].signals[0]].blocked
    ensures h in Tick(s).procs
    ensures var p, p', num := s.procs[h], Tick(s).procs[h], s.procs[h].signals[0];
      && p'.signals == p.signals[1..] && |p'.handlers| == |p.handlers|
      && p'.handlers[num].installed && p'.handlers[num].blocked
      && forall i :: 0 <= i < |p.handlers| && i != num ==> p'.handlers[i] == p.handlers[i]
  {
    hide Choose;
  }

  /** A signal that no handler can take - a number from 32 on, SIGCHLD without a handler, or any
      in a kernel process - is dropped without touching a handler. */
  lemma SignalDropped(s: Sched, h: Handle)
    requires TickEnabled(s) && h in s.procs && Switches(s, h) && s.procs[h].signals != [] && !Handled(s.procs[h])
    ensures h in Tick(s).procs
    ensures Tick(s).procs[h].signals == s.procs[h].signals[1..] && Tick(s).procs[h].handlers == s.procs[h].handlers
    ensures var num := s.procs[h].signals[0];
      num >= 32 || num >= |s.procs[h].handlers| || num == 20 || s.procs[h].handlers[num].installed
  {
    hide Choose;
  }

  /** Signal `num` is pending at `h` at least `c` times while its handler runs. */
  predicate HeldBack(s: Sched, h: Handle, num: nat, c: nat)
  {
    && h in s.procs && s.procs[h].user && num < 32 && num < |s.procs[h].handlers|
    && s.procs[h].handlers[num] == Handler(true, true) && multiset(s.procs[h].signals)[num] >= c
  }

  lemma TickHoldsBack(s: Sched, h: Handle, num: nat, c: nat)
    requires TickEnabled(s) && HeldBack(s, h, num, c)
    ensures HeldBack(Tick(s), h, num, c)
  {
    var p := s.procs[h];
    TickKeepsUser(s, h);
    if !Switches(s, h) || p.signals == [] {
      SignalsWait(s, h);
    } else {
      assert p.signals == [p.signals[0]] + p.signals[1..];
      if !Handled(p) {
        SignalDropped(s, h);
      } else if p.handlers[p.signals[0]].blocked {
        BlockedSignalRequeued(s, h);
      } else {
        SignalDelivered(s, h);
      }
    }
  }

  lemma TickKeepsUser(s: Sched, h: Handle)
    requires TickEnabled(s) && h in s.procs
    ensures h in Tick(s).procs && Tick(s).procs[h].user == s.procs[h].user
  {
    hide Choose;
  }

  lemma StepHoldsBack(s: Sched, e: Event, h: Handle, num: nat, c: nat)
    requires Enabled(s, e) && HeldBack(s, h, num, c) && !(e.Kill? && e.h == h)
    ensures HeldBack(Step(s, e), h, num, c + if e == Signal(h, num) then 1 else 0)
  {
    if e.Timer? {
      TickHoldsBack(s, h, num, c);
    } else if e.Kill? {
      KillEffects(s, e.h, e.reschedule, h);
    }
  }

  /** How often `num` is sent to `h` along a run. */
  function SentTo(es: seq<Event>, h: Handle, num: nat): nat
  {
    if es == [] then 0 else (if es[0] == Signal(h, num) then 1 else 0) + SentTo(es[1..], h, num)
  }

  /** Over every run that does not kill `h`: while the handler of `num` runs no instance of the
      signal is lost, neither those pending at the start nor those sent on the way. */
  lemma {:induction false} BlockedStaysPending(s: Sched, es: seq<Event>, h: Handle, num: nat, c: nat)
    requires Runs(s, es) && HeldBack(s, h, num, c)
    requires forall i :: 0 <= i < |es| ==> !(es[i].Kill? && es[i].h == h)
    ensures HeldBack(After(s, es), h, num, c + SentTo(es, h, num))
    decreases |es|
  {
    if es != [] {
      StepHoldsBack(s, es[0], h, num, c);
      BlockedStaysPending(Step(s, es[0]), es[1..], h, num, c + if es[0] == Signal(h, num) then 1 else 0);
    }
  }

  // ---------------------------------------------------------------------------
  // The other steps

  /** When the steps besides the tick can be taken. */
  lemma EnabledExactly(s: Sched, e: Event)
    requires Wf(s) && !e.Timer?
    ensures Enabled(s, e) <==>
      match e
      case Create(h, _) => h != NULL && h !in s.procs.Keys
      case Kill(h, _) => h in s.procs.Keys && h != s.idle && !s.procs[h].died
      case SetState(h, _) => h in s.procs.Keys && !s.procs[h].died
      case Signal(h, _) => h in s.procs.Keys && !s.procs[h].died
      case ForceSwitch => true
  {
  }

  /** A new process is ready, alive, a child of the running task, with a quota of 10, nothing
      pending and 32 empty handlers; it goes to the end of the queue unless the ring is full. */
  lemma CreateEffects(s: Sched, h: Handle, user: bool)
    requires Enabled(s, Create(h, user))
    ensures var s' := Step(s, Create(h, user));
      && s'.procs.Keys == s.procs.Keys + {h} && (forall x :: x in s.procs ==> s'.procs[x] == s.procs[x])
      && s'.procs[h].parent == s.running && s'.procs[h].user == user && s'.procs[h].state == 1 && !s'.procs[h].died
      && s'.procs[h].quota == 10 && s'.procs[h].signals == [] && !s'.procs[h].started && s'.procs[h].switches == 0
      && |s'.procs[h].handlers| == 32 && (forall i :: 0 <= i < 32 ==> s'.procs[h].handlers[i] == Handler(false, false))
      && s'.queue == s.queue + (if |s.queue| < s.cap then [h] else []) && s'.running == s.running && s'.idle == s.idle && s'.cap == s.cap
  {
  }

  /** A kill: the victim is a dead zombie (state 4) without signals, exactly one SIGCHLD (20) is
      added to the signals of its parent and to no other, and of the quotas only that of the task
      to be rescheduled - idle if the victim was running - is set to 11. */
  lemma KillEffects(s: Sched, h: Handle, reschedule: bool, x: Handle)
    requires Enabled(s, Kill(h, reschedule)) && x in s.procs
    ensures var s' := Step(s, Kill(h, reschedule));
      && s'.procs.Keys == s.procs.Keys && s'.idle == s.idle && s'.cap == s.cap
      && s'.running == (if reschedule && s.running == h then s.idle else s.running)
      && var p, p' := s.procs[x], s'.procs[x];
      && p'.died == (p.died || x == h) && p'.state == (if x == h then 4 else p.state)
      && p'.signals == (if x == h then [] else p.signals) + (if x == s.procs[h].parent then [20] else [])
      && p'.quota == (if reschedule && x == s'.running then 11 else p.quota)
      && p'.handlers == p.handlers && p'.parent == p.parent && p'.user == p.user && p'.started == p.started && p'.switches == p.switches
  {
    var s1 := Buried(s, h);
    var s2 := if reschedule then Yielded(s1, h) else s1;
    YieldedAt(s1, h, x);
    NotifiedAt(s2, s.procs[h].parent, x);
    hide RemoveFirst, Yielded, Notified;
  }

  lemma YieldedAt(s: Sched, h: Handle, x: Handle)
    requires x in s.procs && s.idle in s.procs && (s.running != NULL ==> s.running in s.procs) && NULL !in s.procs
    ensures var s' := Yielded(s, h);
      && s'.procs.Keys == s.procs.Keys && s'.idle == s.idle && s'.cap == s.cap && s'.queue == s.queue
      && s'.running == (if s.running == h then s.idle else s.running)
      && s'.procs[x] == if x == s'.running then s.procs[x].(quota := 11) else s.procs[x]
  {
  }

  lemma NotifiedAt(s: Sched, parent: Handle, x: Handle)
    requires x in s.procs && NULL !in s.procs
    ensures var s' := Notified(s, parent);
      && s'.procs.Keys == s.procs.Keys && s'.idle == s.idle && s'.cap == s.cap && s'.queue == s.queue && s'.running == s.running
      && s'.procs[x] == if x == parent then s.procs[x].(signals := s.procs[x].signals + [20]) else s.procs[x]
  {
  }

  /** ... and its first place in the queue closes up. */
  lemma KillUnqueues(s: Sched, h: Handle, reschedule: bool, k: nat)
    requires Enabled(s, Kill(h, reschedule)) && k <= |s.queue|
    requires (forall i :: 0 <= i < k ==> s.queue[i] != h) && (k < |s.queue| ==> s.queue[k] == h)
    ensures Step(s, Kill(h, reschedule)).queue == if k == |s.queue| then s.queue else s.queue[..k] + s.queue[k + 1..]
  {
    if k < |s.queue| {
      RemoveFirstAt(s.queue, h, k);
    }
    hide RemoveFirst;
  }

  /** Setting a state, sending a signal and forcing a switch change just that of one process. */
  lemma SmallEffects(s: Sched, e: Event, x: Handle)
    requires Enabled(s, e) && (e.SetState? || e.Signal? || e.ForceSwitch?) && x in s.procs
    ensures var s' := Step(s, e);
      && s'.queue == s.queue && s'.running == s.running && s'.idle == s.idle && s'.cap == s.cap && s'.procs.Keys == s.procs.Keys
      && (e.SetState? ==> s'.procs[x] == if x == e.h then s.procs[x].(state := e.state) else s.procs[x])
      && (e.Signal? ==> s'.procs[x] == if x == e.h then s.procs[x].(signals := s.procs[x].signals + [e.num]) else s.procs[x])
      && (e.ForceSwitch? ==> s'.procs[x] == if x == s.running then s.procs[x].(quota := 11) else s.procs[x])
  {
  }

  /** The search never ends just when the head is passed over, nothing behind it is alive in state
      1 or 2, and something behind it is alive. */
  lemma HangsExactly(s: Sched)
    requires Known(s)
    ensures Hangs(s) <==>
      (&& s.queue != [] && (s.procs[s.queue[0]].died || s.procs[s.queue[0]].state in {-1, 4, 6})
       && (forall i :: 1 <= i < |s.queue| ==> s.procs[s.queue[i]].died || s.procs[s.queue[i]].state !in {1, 2})
       && (exists i :: 1 <= i < |s.queue| && !s.procs[s.queue[i]].died))
  {
    if s.queue != [] {
      var q := s.queue[1..];
      assert forall i :: 0 <= i < |q| ==> q[i] == s.queue[i + 1] && q[i] in q;
      if h :| h in q && !s.procs[h].died {
        var j :| 0 <= j < |q| && q[j] == h;
        assert !s.procs[s.queue[j + 1]].died;
      }
      if i :| 1 <= i < |s.queue| && !s.procs[s.queue[i]].died {
        assert q[i - 1] == s.queue[i];
      }
      if forall i :: 1 <= i < |s.queue| ==> s.procs[s.queue[i]].died || s.procs[s.queue[i]].state !in {1, 2} {
        forall h | h in q ensures !Runnable(s.procs[h]) {
          var j :| 0 <= j < |q| && q[j] == h;
          assert s.queue[j + 1] == h;
        }
      }
    }
  }

  /** The default action of the first pending signal kills just when it has a number below 32 other
      than SIGCHLD (20) and no handler. */
  lemma DefaultKillExactly(p: Proc)
    requires |p.handlers| == 32
    ensures DefaultKill(p) <==> |p.signals| > 0 && p.signals[0] < 32 && p.signals[0] != 20 && p.handlers[p.signals[0]] in {Handler(false, false), Handler(false, true)}
  {
  }

  /** A tick goes through just when neither the search hangs nor a signal of the task switched to
      kills by default. */
  lemma TickEnabledExactly(s: Sched)
    requires Wf(s)
    ensures Keeps(s) ==> (TickEnabled(s) <==> !DefaultKill(s.procs[s.running]))
    ensures !Keeps(s) && Hangs(s) ==> !TickEnabled(s)
    ensures !Keeps(s) && !Hangs(s) && TickEnabled(s) && Dispatched(s).Task? ==> !DefaultKill(s.procs[Dispatched(s).h])
    ensures !Keeps(s) && !Hangs(s) && !TickEnabled(s) ==> exists h :: h in s.procs && DefaultKill(s.procs[h]) && (h in s.queue || h == s.idle)
  {
    if !Keeps(s) && !Hangs(s) && !TickEnabled(s) {
      var (c, rest) := Choose(s);
      assert c.h in s.procs && DefaultKill(s.procs[c.h]) && (c.h in s.queue || c.h == s.idle) by {
        if s.queue != [] {
          assert s.queue == [s.queue[0]] + s.queue[1..];
        }
      }
    }
  }
}
