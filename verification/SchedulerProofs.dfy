/** What every run of the scheduler keeps: dead processes stay out, and nobody is overtaken. */
module SchedulerProofs {
  import opened Facts
  import opened RunQueue
  import opened SchedulerMachine

  /** Only idle may be queued more than once. */
  ghost predicate NoRepeats(q: seq<Handle>, idle: Handle)
  {
    forall i, j :: 0 <= i < j < |q| && q[i] == q[j] ==> q[i] == idle
  }

  ghost predicate Inv(s: Sched)
  {
    && Wf(s) && NoRepeats(s.queue, s.idle)
    && (forall h :: h in s.queue ==> !s.procs[h].died)
    && (forall h :: h in s.procs ==> s.procs[h].quota >= 0)
  }

  // ---------------------------------------------------------------------------
  // Pieces

  lemma {:induction false} AliveAll(q: seq<Handle>, procs: map<Handle, Proc>)
    requires forall h :: h in q ==> h in procs && !procs[h].died
    ensures Alive(q, procs) == q
  {
    if q != [] {
      assert q == [q[0]] + q[1..];
      AliveAll(q[1..], procs);
    }
  }

  lemma {:induction false} RemoveFirstKeeps(q: seq<Handle>, x: Handle, idle: Handle)
    requires NoRepeats(q, idle) && x != idle
    ensures NoRepeats(RemoveFirst(q, x), idle)
    ensures forall h :: h in RemoveFirst(q, x) <==> h in q && h != x
  {
    if q != [] {
      assert q == [q[0]] + q[1..];
      assert forall j :: 0 <= j < |q| - 1 ==> q[1..][j] == q[j + 1];
      if q[0] == x {
        assert x !in q[1..];
      } else {
        RemoveFirstKeeps(q[1..], x, idle);
        var r := RemoveFirst(q[1..], x);
        assert RemoveFirst(q, x) == [q[0]] + r;
        if q[0] in q[1..] {
          assert q[0] == idle;
        }
      }
    }
  }

  /** With nothing dead in the queue, the search takes the first runnable task out and puts
      what was before it behind what was after it. */
  lemma SearchRotates(q: seq<Handle>, procs: map<Handle, Proc>, idle: Handle)
    requires forall h :: h in q ==> h in procs && !procs[h].died
    requires NoRepeats(q, idle) && !Spins(q, procs)
    ensures var (c, rest) := SelectLoop(q, procs);
      && (c.Task? ==> c.h in q && |rest| < |q| && (c.h == idle || c.h !in rest))
      && (forall h :: h in rest ==> h in q) && NoRepeats(rest, idle)
  {
    var k := FirstRunnable(q, procs);
    if k < |q| {
      AliveAll(q[..k], procs);
      RotatedNoRepeats(q, k, idle);
      assert q[k] in q;
    }
  }

  lemma ChooseRotates(s: Sched)
    requires Inv(s) && !Hangs(s)
    ensures var (c, rest) := Choose(s);
      && (c.Task? ==> c.h in s.procs && !s.procs[c.h].died && |rest| < |s.queue|)
      && (forall h :: h in rest ==> h in s.queue)
      && NoRepeats(rest, s.idle) && (c.Task? ==> c.h == s.idle || c.h !in rest)
  {
    hide SelectLoop;
    if s.queue != [] {
      var q := s.queue[1..];
      assert s.queue[0] in s.queue && forall j :: 0 <= j < |q| ==> q[j] == s.queue[j + 1];
      if Skipped(s.procs[s.queue[0]]) {
        SearchRotates(q, s.procs, s.idle);
      }
    }
  }

  lemma RotatedNoRepeats(q: seq<Handle>, k: nat, idle: Handle)
    requires NoRepeats(q, idle) && k < |q|
    ensures NoRepeats(q[k + 1..] + q[..k], idle) && (q[k] == idle || q[k] !in q[k + 1..] + q[..k])
  {
    var r := q[k + 1..] + q[..k];
    assert forall j :: 0 <= j < |r| ==> r[j] == if j < |q| - k - 1 then q[k + 1 + j] else q[j - (|q| - k - 1)];
  }

  // ---------------------------------------------------------------------------
  // Every step keeps the invariant

  /** The processes of `s'` are those of `s`: nobody but `except` dies or changes state. */
  ghost predicate SameLives(s: Sched, s': Sched, except: Handle)
  {
    && s'.idle == s.idle && s'.procs.Keys == s.procs.Keys
    && (forall g :: g in s.procs ==> s'.procs[g].quota >= 0 || s.procs[g].quota < 0)
    && (forall g :: g in s.procs && g != except ==>
          s'.procs[g].died == s.procs[g].died && s'.procs[g].state == s.procs[g].state)
  }

  lemma SwitchFrame(s: Sched, h: Handle)
    requires h in s.procs
    ensures SameLives(s, SwitchTo(s, h), NULL) && SwitchTo(s, h).queue == s.queue && SwitchTo(s, h).running == h
  {
  }

  lemma TickFrame(s: Sched)
    requires TickEnabled(s) && forall h :: h in s.queue ==> !s.procs[h].died
    requires !Keeps(s) && Choose(s).0.Task? ==> Choose(s).0.h in s.procs
    ensures SameLives(s, Tick(s), NULL) && (Tick(s).running != NULL ==> Tick(s).running in s.procs)
    ensures Tick(s).queue == if Keeps(s) then s.queue
                             else if Choose(s).0.NoTask? || |Choose(s).1| >= s.cap then Choose(s).1
                             else Choose(s).1 + [Choose(s).0.h]
  {
    hide Choose, SwitchTo;
    if Keeps(s) {
      SwitchFrame(s, s.running);
    } else if Choose(s).0.Task? {
      var (c, rest) := Choose(s);
      var s1 := Push(Update(s.(queue := rest), c.h, s.procs[c.h].(quota := 0, started := true)), c.h);
      SwitchFrame(s1, c.h);
    }
  }

  lemma TimerKeepsInv(s: Sched)
    requires Inv(s) && TickEnabled(s)
    ensures Inv(Tick(s))
  {
    hide Choose, Tick;
    if !Keeps(s) {
      ChooseRotates(s);
    }
    TickFrame(s);
    var q := if Keeps(s) then s.queue else Choose(s).1;
    assert forall h :: h in Tick(s).queue ==> h in q || (!Keeps(s) && Choose(s).0 == Task(h));
  }

  lemma CreateKeepsInv(s: Sched, h: Handle, user: bool)
    requires Inv(s) && Enabled(s, Create(h, user))
    ensures Inv(Step(s, Create(h, user)))
  {
    assert h !in s.queue;
  }

  lemma SameLivesTrans(s: Sched, s1: Sched, s2: Sched, h: Handle)
    requires SameLives(s, s1, h) && SameLives(s1, s2, NULL) && NULL !in s.procs
    ensures SameLives(s, s2, h)
    ensures h in s.procs ==> s2.procs[h].died == s1.procs[h].died
  {
  }

  lemma KillFrame(s: Sched, h: Handle, reschedule: bool)
    requires Enabled(s, Kill(h, reschedule))
    ensures var s' := Killed(s, h, reschedule);
      && SameLives(s, s', h) && s'.queue == RemoveFirst(s.queue, h) && s'.procs[h].died
      && (s'.running != NULL ==> s'.running in s.procs)
  {
    hide RemoveFirst, SameLives;
    var s1 := Buried(s, h);
    var s2 := if reschedule then Yielded(s1, h) else s1;
    var s3 := Notified(s2, s.procs[h].parent);
    BuriedFrame(s, h);
    YieldedFrame(s1, h, reschedule);
    NotifiedFrame(s2, s.procs[h].parent);
    SameLivesTrans(s, s1, s2, h);
    SameLivesTrans(s, s2, s3, h);
  }

  lemma BuriedFrame(s: Sched, h: Handle)
    requires h in s.procs
    ensures SameLives(s, Buried(s, h), h)
  {
    hide RemoveFirst;
  }

  lemma YieldedFrame(s: Sched, h: Handle, reschedule: bool)
    ensures SameLives(s, if reschedule then Yielded(s, h) else s, NULL)
  {
  }

  lemma NotifiedFrame(s: Sched, parent: Handle)
    ensures SameLives(s, Notified(s, parent), NULL)
  {
  }

  lemma KillKeepsInv(s: Sched, h: Handle, reschedule: bool)
    requires Inv(s) && Enabled(s, Kill(h, reschedule))
    ensures Inv(Step(s, Kill(h, reschedule)))
    ensures Step(s, Kill(h, reschedule)).procs[h].died && h !in Step(s, Kill(h, reschedule)).queue
  {
    hide Killed, RemoveFirst;
    RemoveFirstKeeps(s.queue, h, s.idle);
    KillFrame(s, h, reschedule);
  }

  lemma StepKeepsInv(s: Sched, e: Event)
    requires Inv(s) && Enabled(s, e)
    ensures Inv(Step(s, e))
  {
    match e
    case Timer => TimerKeepsInv(s);
    case Create(h, user) => CreateKeepsInv(s, h, user);
    case Kill(h, reschedule) => KillKeepsInv(s, h, reschedule);
    case SetState(_, _) =>
    case Signal(_, _) =>
    case ForceSwitch =>
  }

  /** The dead are never revived, and a tick never dispatches one. */
  lemma StepKeepsDead(s: Sched, e: Event, h: Handle)
    requires Inv(s) && Enabled(s, e) && h in s.procs && s.procs[h].died
    ensures h in Step(s, e).procs && Step(s, e).procs[h].died
    ensures e == Timer ==> Dispatched(s) != Task(h)
  {
    hide Tick, Choose, Killed, NoRepeats;
    if e == Timer {
      if !Keeps(s) {
        ChooseRotates(s);
      }
      TickFrame(s);
    } else if e.Kill? {
      KillFrame(s, e.h, e.reschedule);
    }
  }

  // ---------------------------------------------------------------------------
  // Whole runs

  ghost predicate Runs(s: Sched, es: seq<Event>)
    decreases |es|
  {
    es == [] || (Enabled(s, es[0]) && Runs(Step(s, es[0]), es[1..]))
  }

  ghost function After(s: Sched, es: seq<Event>): Sched
    requires Runs(s, es)
    decreases |es|
  {
    if es == [] then s else After(Step(s, es[0]), es[1..])
  }

  ghost function HeadDispatch(s: Sched, e: Event): seq<Handle>
    requires Enabled(s, e)
  {
    if e == Timer && Dispatched(s).Task? then [Dispatched(s).h] else []
  }

  /** The tasks dispatched along a run, in order. */
  ghost function Dispatches(s: Sched, es: seq<Event>): (ds: seq<Handle>)
    requires Runs(s, es)
    decreases |es|
  {
    if es == [] then []
    else HeadDispatch(s, es[0]) + Dispatches(Step(s, es[0]), es[1..])
  }

  /** Over every run: nothing dead is queued, everything queued is known. */
  lemma {:induction false} RunKeepsInv(s: Sched, es: seq<Event>)
    requires Inv(s) && Runs(s, es)
    ensures Inv(After(s, es))
    decreases |es|
  {
    if es != [] {
      StepKeepsInv(s, es[0]);
      RunKeepsInv(Step(s, es[0]), es[1..]);
    }
  }

  /** Dead stays dead: whatever happens later, a killed process is never queued and never
      dispatched again. */
  lemma {:induction false} DeadStaysDead(s: Sched, es: seq<Event>, h: Handle)
    requires Inv(s) && Runs(s, es) && h in s.procs && s.procs[h].died
    ensures h in After(s, es).procs && After(s, es).procs[h].died
    ensures h !in After(s, es).queue && h !in Dispatches(s, es)
    decreases |es|
  {
    if es != [] {
      StepKeepsInv(s, es[0]);
      StepKeepsDead(s, es[0], h);
      DeadStaysDead(Step(s, es[0]), es[1..], h);
    }
  }

  lemma KilledStaysDead(s: Sched, h: Handle, reschedule: bool, es: seq<Event>)
    requires Inv(s) && Enabled(s, Kill(h, reschedule)) && Runs(Step(s, Kill(h, reschedule)), es)
    ensures var s' := Step(s, Kill(h, reschedule)); h !in After(s', es).queue && h !in Dispatches(s', es)
  {
    KillKeepsInv(s, h, reschedule);
    DeadStaysDead(Step(s, Kill(h, reschedule)), es, h);
  }

  // ---------------------------------------------------------------------------
  // No overtaking

  /** Every queued process can run; idle may be queued too. */
  ghost predicate AllRunning(s: Sched)
    requires Known(s)
  {
    forall h :: h in s.queue ==> s.procs[h].state == RUNNING || (h == s.idle && s.procs[h].state == IDLE_STATE)
  }

  /** `p` can run and is at place `i`. */
  ghost predicate ReadyAt(s: Sched, p: Handle, i: nat)
    requires Known(s)
  {
    i < |s.queue| && s.queue[i] == p && s.procs[p].state == RUNNING
  }

  /** The choice when the head is idle: the first process that can run, which is `p` or before it;
      idle handles before it go to the back, the head is dropped. */
  lemma SearchPasses(s: Sched, p: Handle, i: nat)
    requires Inv(s) && !Hangs(s) && AllRunning(s) && ReadyAt(s, p, i) && Skipped(s.procs[s.queue[0]])
    ensures var (c, rest) := Choose(s);
      && c.Task? && c.h in s.queue && s.procs[c.h].state == RUNNING
      && (c.h == p || exists j: nat :: j < i && j < |rest| && rest[j] == p)
  {
    var q := s.queue[1..];
    assert s.queue[0] in s.queue && p in s.queue && i > 0 && q[i - 1] == p;
    var k := FirstRunnable(q, s.procs);
    assert Runnable(s.procs[p]);
    assert k <= i - 1;
    assert q[k] in s.queue;
    if q[k] != p {
      var rest := q[k + 1..] + Alive(q[..k], s.procs);
      assert rest[i - 1 - (k + 1)] == p;
    }
  }

  /** A tick that switches dispatches `p` or brings it forward. */
  lemma ChoosePasses(s: Sched, p: Handle, i: nat)
    requires Inv(s) && !Hangs(s) && AllRunning(s) && ReadyAt(s, p, i)
    ensures var (c, rest) := Choose(s);
      && c.Task? && c.h in s.queue && s.procs[c.h].state == RUNNING
      && (c.h == p || exists j: nat :: j < i && j < |rest| && rest[j] == p)
  {
    assert s.queue[0] in s.queue;
    if Skipped(s.procs[s.queue[0]]) {
      SearchPasses(s, p, i);
    } else {
      assert i > 0 ==> s.queue[1..][i - 1] == p;
    }
  }

  /** With every queued process able to run, a tick keeps the queue as it is, or dispatches a
      process that is `p` or was before it; `p` then comes forward to place `i'`. */
  lemma TickRotates(s: Sched, p: Handle, i: nat) returns (i': nat)
    requires Inv(s) && TickEnabled(s) && AllRunning(s) && ReadyAt(s, p, i)
    ensures Keeps(s) ==> Tick(s).queue == s.queue && Dispatched(s) == NoTask && i' == i
    ensures !Keeps(s) ==> Dispatched(s).Task? && Dispatched(s).h in s.queue && s.procs[Dispatched(s).h].state == RUNNING
    ensures Inv(Tick(s)) && AllRunning(Tick(s))
    ensures Dispatched(s) != Task(p) ==> ReadyAt(Tick(s), p, i') && i' <= i && (!Keeps(s) ==> i' < i)
  {
    hide Choose, Tick;
    i' := i;
    TimerKeepsInv(s);
    if Keeps(s) {
      TickFrame(s);
    } else {
      ChooseRotates(s);
      ChoosePasses(s, p, i);
      TickFrame(s);
      var (c, rest) := Choose(s);
      assert rest <= Tick(s).queue;
      if c.h != p {
        var j: nat :| j < i && j < |rest| && rest[j] == p;
        assert Tick(s).queue[j] == rest[j];
        i' := j;
      }
    }
  }

  /** Steps that neither kill `p` nor change a process state from outside. */
  predicate Spares(e: Event, p: Handle)
  {
    match e
    case Timer => true
    case Create(_, _) => true
    case Kill(h, _) => h != p
    case SetState(_, _) => false
    case Signal(_, _) => true
    case ForceSwitch => true
  }

  lemma {:induction false} RemoveFirstPlace(q: seq<Handle>, x: Handle, i: nat)
    requires i < |q| && q[i] != x
    ensures var r := RemoveFirst(q, x); (i < |r| && r[i] == q[i]) || (0 < i <= |r| && r[i - 1] == q[i])
  {
    if i > 0 && q[0] != x {
      RemoveFirstPlace(q[1..], x, i - 1);
    }
  }

  /** A kill of another process moves `p` forward by at most one place. */
  lemma PlaceAfterKill(s: Sched, h: Handle, reschedule: bool, p: Handle, i: nat) returns (i': nat)
    requires Inv(s) && Enabled(s, Kill(h, reschedule)) && AllRunning(s) && ReadyAt(s, p, i) && h != p
    ensures Inv(Killed(s, h, reschedule)) && AllRunning(Killed(s, h, reschedule))
    ensures i' <= i && ReadyAt(Killed(s, h, reschedule), p, i')
  {
    hide Killed, RemoveFirst;
    KillKeepsInv(s, h, reschedule);
    KillFrame(s, h, reschedule);
    RemoveFirstPlace(s.queue, h, i);
    RemoveFirstKeeps(s.queue, h, s.idle);
    var r := RemoveFirst(s.queue, h);
    i' := if i < |r| && r[i] == p then i else i - 1;
  }

  /** After a step that spares it, a process that was not dispatched is no further back; a switch
      brings it forward. */
  lemma PlaceAfter(s: Sched, e: Event, p: Handle, i: nat) returns (i': nat)
    requires Inv(s) && Enabled(s, e) && AllRunning(s) && ReadyAt(s, p, i) && Spares(e, p)
    requires e == Timer ==> Dispatched(s) != Task(p)
    ensures Inv(Step(s, e)) && AllRunning(Step(s, e)) && ReadyAt(Step(s, e), p, i')
    ensures i' <= i && (e == Timer && !Keeps(s) ==> i' < i)
  {
    hide Tick, Killed, Choose, Dispatched;
    StepKeepsInv(s, e);
    i' := i;
    match e
    case Timer => i' := TickRotates(s, p, i);
    case Create(h, _) => assert h !in s.queue && p in s.queue;
    case Kill(h, reschedule) => i' := PlaceAfterKill(s, h, reschedule, p, i);
    case Signal(_, _) =>
    case ForceSwitch =>
  }

  lemma InPrefix(a: seq<Handle>, p: Handle, i: nat, j: nat)
    requires i <= j <= |a| && p in a[..i]
    ensures p in a[..j]
  {
    assert a[..i] <= a[..j];
  }

  lemma InLaterPrefix(d: Handle, a: seq<Handle>, p: Handle, i: nat)
    requires i <= |a| && p in a[..i]
    ensures p in ([d] + a)[..i + 1]
  {
    assert ([d] + a)[..i + 1] == [d] + a[..i];
  }

  /** What the first event dispatches. */
  lemma HeadCases(s: Sched, e: Event, p: Handle, i: nat)
    requires Inv(s) && Enabled(s, e) && AllRunning(s) && ReadyAt(s, p, i)
    ensures e == Timer && !Keeps(s) ==> Dispatched(s).Task? && HeadDispatch(s, e) == [Dispatched(s).h]
    ensures !(e == Timer && !Keeps(s)) ==> HeadDispatch(s, e) == [] && (e == Timer ==> Dispatched(s) == NoTask)
  {
    hide Tick, Choose;
    if e == Timer {
      var _ := TickRotates(s, p, i);
    }
  }

  /** No overtaking: from place i a process that can run is among the next i + 1 dispatches,
      whatever other processes are created, signalled or killed in between. */
  lemma {:induction false} NoOvertaking(s: Sched, es: seq<Event>, p: Handle, i: nat)
    requires Inv(s) && Runs(s, es) && AllRunning(s) && ReadyAt(s, p, i)
    requires forall e :: e in es ==> Spares(e, p)
    ensures |Dispatches(s, es)| > i ==> p in Dispatches(s, es)[..i + 1]
    decreases |es|
  {
    hide Step, Tick, Choose, NoRepeats, Wf, Spares, HeadDispatch, Dispatched, ReadyAt;
    if es != [] {
      var s', ds := Step(s, es[0]), Dispatches(s, es);
      assert es[0] in es && forall e :: e in es[1..] ==> e in es;
      HeadCases(s, es[0], p, i);
      DispatchesHead(s, es);
      var ds' := Dispatches(s', es[1..]);
      if es[0] == Timer && Dispatched(s) == Task(p) {
        assert |ds| > 0 && ds[0] == p;
        assert |ds| > i ==> ds[..i + 1][0] == p;
      } else {
        var i' := PlaceAfter(s, es[0], p, i);
        NoOvertaking(s', es[1..], p, i');
        if |ds| > i {
          if es[0] == Timer && !Keeps(s) {
            InPrefix(ds', p, i' + 1, i);
            InLaterPrefix(Dispatched(s).h, ds', p, i);
          } else {
            assert ds == ds';
            InPrefix(ds', p, i' + 1, i + 1);
          }
        }
      }
    }
  }

  lemma DispatchesHead(s: Sched, es: seq<Event>)
    requires Runs(s, es) && es != []
    ensures Dispatches(s, es) == HeadDispatch(s, es[0]) + Dispatches(Step(s, es[0]), es[1..])
  {
  }

  // ---------------------------------------------------------------------------
  // A bound in clock ticks

  ghost predicate NoSignals(s: Sched) { forall h :: h in s.procs ==> s.procs[h].signals == [] }

  predicate Quiet(e: Event) { e.Timer? || e.Create? || e.ForceSwitch? }

  function Ticks(es: seq<Event>): nat
  {
    if es == [] then 0 else (if es[0] == Timer then 1 else 0) + Ticks(es[1..])
  }

  /** Ticks until the running task loses the processor, that one included. */
  function TicksLeft(s: Sched): int { if Keeps(s) then QUOTA + 1 - s.procs[s.running].quota else 1 }

  lemma TicksLeftAfter(s: Sched, e: Event, p: Handle, i: nat)
    requires Inv(s) && Enabled(s, e) && AllRunning(s) && ReadyAt(s, p, i) && NoSignals(s) && Quiet(e)
    ensures NoSignals(Step(s, e)) && 1 <= TicksLeft(s) <= QUOTA + 1
    ensures e == Timer ==> TicksLeft(Step(s, e)) == if Keeps(s) then TicksLeft(s) - 1 else QUOTA + 1
    ensures e != Timer ==> TicksLeft(Step(s, e)) <= TicksLeft(s)
  {
    hide Choose;
    if e == Timer && !Keeps(s) {
      ChooseRotates(s);
      ChoosePasses(s, p, i);
    }
  }

  /** A process that can run, at place i, is dispatched within the ticks left to the running task
      and 11 more per place, when nothing is killed and no signal is pending. */
  lemma {:induction false} DispatchedInTime(s: Sched, es: seq<Event>, p: Handle, i: nat)
    requires Inv(s) && Runs(s, es) && AllRunning(s) && NoSignals(s) && ReadyAt(s, p, i)
    requires forall e :: e in es ==> Quiet(e)
    requires Ticks(es) >= TicksLeft(s) + (QUOTA + 1) * i
    ensures p in Dispatches(s, es)
    decreases |es|
  {
    hide Step, Tick, Choose, NoRepeats, Wf, HeadDispatch, Dispatched, ReadyAt, Keeps, Inv;
    assert TicksLeft(s) >= 1 by { assert Inv(s); LeastTick(s); }
    if es != [] {
      assert es[0] in es;
      assert forall e :: e in es[1..] ==> e in es;
      TicksLeftAfter(s, es[0], p, i);
      HeadCases(s, es[0], p, i);
      DispatchesHead(s, es);
      if es[0] != Timer || Dispatched(s) != Task(p) {
        var i' := PlaceAfter(s, es[0], p, i);
        DispatchedInTime(Step(s, es[0]), es[1..], p, i');
      }
    }
  }

  lemma LeastTick(s: Sched)
    requires Inv(s)
    ensures 1 <= TicksLeft(s) <= QUOTA + 1
  {
  }

  lemma DispatchedWithinQuota(s: Sched, es: seq<Event>, p: Handle, i: nat)
    requires Inv(s) && Runs(s, es) && AllRunning(s) && NoSignals(s) && ReadyAt(s, p, i)
    requires forall e :: e in es ==> Quiet(e)
    requires Ticks(es) >= 11 * (i + 1)
    ensures p in Dispatches(s, es)
  {
    LeastTick(s);
    DispatchedInTime(s, es, p, i);
  }
}
