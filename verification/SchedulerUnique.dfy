/** When the run queue holds nobody twice: always, except after a tick that falls back to idle for
    a waiting task while idle is queued. */
module SchedulerUnique {
  import opened Facts
  import opened RunQueue
  import opened SchedulerMachine
  import opened SchedulerProofs

  /** The tick pops a task that is neither skipped nor able to run and pushes idle in its place,
      though idle is queued. */
  ghost predicate Doubles(s: Sched)
    requires Known(s) && s.idle in s.procs
  {
    && !Keeps(s) && s.queue != [] && !Skipped(s.procs[s.queue[0]]) && s.procs[s.queue[0]].state > 3
    && s.idle in s.queue[1..] && |s.queue| <= s.cap
  }

  lemma PushedUnique(q: seq<Handle>, x: Handle)
    ensures Distinct(q) ==> (Distinct(q + [x]) <==> x !in q)
  {
    var r := q + [x];
    if x in q && Distinct(q) {
      var i :| 0 <= i < |q| && q[i] == x;
      assert r[i] == r[|q|];
    }
  }

  lemma RotatedUnique(q: seq<Handle>, k: nat)
    requires Distinct(q) && k < |q|
    ensures Distinct(q[k + 1..] + q[..k]) && q[k] !in q[k + 1..] + q[..k]
  {
    var r := q[k + 1..] + q[..k];
    assert forall j :: 0 <= j < |r| ==> r[j] == if j < |q| - k - 1 then q[k + 1 + j] else q[j - (|q| - k - 1)];
  }

  /** What is left behind the chosen task is free of duplicates, and the chosen task is in it only
      if it is idle standing in for a waiting one. */
  lemma ChooseUnique(s: Sched)
    requires Inv(s) && Distinct(s.queue) && !Hangs(s)
    ensures var (c, rest) := Choose(s);
      && Distinct(rest) && |rest| <= |s.queue|
      && (c.Task? ==> |rest| < |s.queue|) && (c.Task? && c.h in rest ==> |rest| == |s.queue| - 1)
      && (c.Task? && c.h in rest <==> s.queue != [] && !Skipped(s.procs[s.queue[0]]) && s.procs[s.queue[0]].state > 3 && s.idle in s.queue[1..])
  {
    hide SelectLoop;
    if s.queue != [] {
      var q := s.queue[1..];
      assert s.queue[0] in s.queue && forall j :: 0 <= j < |q| ==> q[j] == s.queue[j + 1];
      if Skipped(s.procs[s.queue[0]]) {
        SearchUnique(q, s.procs);
      }
    }
  }

  lemma SearchUnique(q: seq<Handle>, procs: map<Handle, Proc>)
    requires (forall h :: h in q ==> h in procs && !procs[h].died) && Distinct(q) && !Spins(q, procs)
    ensures var (c, rest) := SelectLoop(q, procs);
      Distinct(rest) && |rest| <= |q| && (c.Task? ==> c.h in q && procs[c.h].state <= 3 && c.h !in rest && |rest| < |q|)
  {
    var k := FirstRunnable(q, procs);
    if k < |q| {
      AliveAll(q[..k], procs);
      RotatedUnique(q, k);
    }
  }

  /** Exactly then does a tick queue idle a second time. */
  lemma TickUniqueIff(s: Sched)
    requires Inv(s) && Distinct(s.queue) && TickEnabled(s)
    ensures Distinct(Tick(s).queue) <==> !Doubles(s)
  {
    hide Choose, Tick, Distinct;
    if !Keeps(s) {
      ChooseRotates(s);
      ChooseUnique(s);
      var (c, rest) := Choose(s);
      if c.Task? {
        PushedUnique(rest, c.h);
      }
    }
    TickFrame(s);
  }

  /** The other steps never queue anybody twice. */
  lemma StepUnique(s: Sched, e: Event)
    requires Inv(s) && Distinct(s.queue) && Enabled(s, e) && e != Timer
    ensures Distinct(Step(s, e).queue)
  {
    hide Killed, RemoveFirst;
    match e
    case Timer =>
    case Create(h, _) =>
      assert h !in s.queue;
      PushedUnique(s.queue, h);
    case Kill(h, reschedule) =>
      KillFrame(s, h, reschedule);
      RemovedUnique(s.queue, h);
    case SetState(_, _) =>
    case Signal(_, _) =>
    case ForceSwitch =>
  }

  lemma {:induction false} RemovedUnique(q: seq<Handle>, x: Handle)
    requires Distinct(q)
    ensures Distinct(RemoveFirst(q, x)) && forall h :: h in RemoveFirst(q, x) ==> h in q
  {
    if q != [] {
      assert q == [q[0]] + q[1..] && forall j :: 0 <= j < |q| - 1 ==> q[1..][j] == q[j + 1];
      assert q[0] !in q[1..];
      if q[0] != x {
        RemovedUnique(q[1..], x);
        assert RemoveFirst(q, x) == [q[0]] + RemoveFirst(q[1..], x);
      }
    }
  }

  // ---------------------------------------------------------------------------
  // Whole runs

  ghost predicate AlwaysUnique(s: Sched, es: seq<Event>)
    requires Runs(s, es)
    decreases |es|
  {
    Distinct(s.queue) && (es != [] ==> AlwaysUnique(Step(s, es[0]), es[1..]))
  }

  ghost predicate NeverDoubles(s: Sched, es: seq<Event>)
    requires Runs(s, es)
    decreases |es|
  {
    es == [] || ((es[0] == Timer ==> !Doubles(s)) && NeverDoubles(Step(s, es[0]), es[1..]))
  }

  /** Along every run the queue is free of duplicates if and only if no tick meets that case. */
  lemma {:induction false} UniqueThroughoutIff(s: Sched, es: seq<Event>)
    requires Inv(s) && Distinct(s.queue) && Runs(s, es)
    ensures AlwaysUnique(s, es) <==> NeverDoubles(s, es)
    decreases |es|
  {
    if es != [] {
      hide Distinct, Doubles, Step;
      StepKeepsInv(s, es[0]);
      if es[0] == Timer {
        TimerIsTick(s);
        TickUniqueIff(s);
      } else {
        StepUnique(s, es[0]);
      }
      if Distinct(Step(s, es[0]).queue) {
        UniqueThroughoutIff(Step(s, es[0]), es[1..]);
      } else {
        assert !AlwaysUnique(Step(s, es[0]), es[1..]);
      }
    }
  }

  lemma TimerIsTick(s: Sched)
    requires Enabled(s, Timer)
    ensures TickEnabled(s) && Wf(s) && Step(s, Timer) == Tick(s)
  {
  }

  /** Idle idles, and nobody queued waits in a state the search does not skip. */
  ghost predicate NobodyWaits(s: Sched)
    requires Known(s) && s.idle in s.procs
  {
    s.procs[s.idle].state == IDLE_STATE && forall h :: h in s.queue ==> s.procs[h].state <= 3 || Skipped(s.procs[h])
  }

  /** State changes from outside that put no task into such a state. */
  predicate Calm(e: Event, idle: Handle)
  {
    e.SetState? ==> e.h != idle && (e.state <= 3 || e.state == CREATING || e.state == ZOMBIE)
  }

  lemma StepNobodyWaits(s: Sched, e: Event)
    requires Inv(s) && Enabled(s, e) && NobodyWaits(s) && Calm(e, s.idle)
    ensures Inv(Step(s, e)) && NobodyWaits(Step(s, e)) && Step(s, e).idle == s.idle
  {
    hide Tick, Killed, RemoveFirst, Choose;
    StepKeepsInv(s, e);
    match e
    case Timer =>
      if !Keeps(s) {
        ChooseRotates(s);
        ChosenFromQueue(s);
      }
      TickFrame(s);
    case Create(h, _) =>
    case Kill(h, reschedule) =>
      KillFrame(s, h, reschedule);
      RemoveFirstKeeps(s.queue, h, s.idle);
    case SetState(_, _) =>
    case Signal(_, _) =>
    case ForceSwitch =>
  }

  lemma ChosenFromQueue(s: Sched)
    requires Inv(s) && !Hangs(s)
    ensures Choose(s).0.Task? ==> Choose(s).0.h in s.queue || Choose(s).0.h == s.idle
  {
    hide SelectLoop;
    if s.queue != [] && Skipped(s.procs[s.queue[0]]) {
      var q := s.queue[1..];
      assert forall j :: 0 <= j < |q| ==> q[j] == s.queue[j + 1];
      SearchRotates(q, s.procs, s.idle);
    }
  }

  /** The run queue has no duplicates, over every run of ticks, creations, kills, signals and
      forced switches, and of state changes other than to a waiting state. */
  lemma {:induction false} NoDuplicates(s: Sched, es: seq<Event>)
    requires Inv(s) && Distinct(s.queue) && NobodyWaits(s) && Runs(s, es)
    requires forall e :: e in es ==> Calm(e, s.idle)
    ensures AlwaysUnique(s, es) && Distinct(After(s, es).queue)
    decreases |es|
  {
    if es != [] {
      hide Distinct, Step, Calm;
      assert es[0] in es && forall e :: e in es[1..] ==> e in es;
      StepNobodyWaits(s, es[0]);
      if es[0] == Timer {
        TimerIsTick(s);
        TickUniqueIff(s);
        assert s.queue != [] ==> s.queue[0] in s.queue;
      } else {
        StepUnique(s, es[0]);
      }
      NoDuplicates(Step(s, es[0]), es[1..]);
    }
  }

  // ---------------------------------------------------------------------------
  // From boot on

  /** After thread_init: idle alone, queued and running. */
  function Boot(idle: Handle): Sched
  {
    Sched([idle], idle, idle, map[idle := NewProc(false, NULL).(state := IDLE_STATE)], 999)
  }

  lemma BootMeetsInv(idle: Handle)
    requires idle != NULL
    ensures Inv(Boot(idle)) && Distinct(Boot(idle).queue) && NobodyWaits(Boot(idle))
    ensures Boot(idle).queue == [idle] && Boot(idle).running == Boot(idle).idle == idle && Boot(idle).cap == 999
    ensures Boot(idle).procs.Keys == {idle} && Boot(idle).procs[idle].state == -1 && Boot(idle).procs[idle].quota == 10
    ensures Boot(idle).procs[idle].signals == [] && !Boot(idle).procs[idle].user && Boot(idle).procs[idle].parent == NULL
  {
  }

  /** A tick that finds only idle and a process still being created never comes back. */
  lemma CreatingHangs(idle: Handle, h: Handle, user: bool)
    requires idle != NULL && h != NULL && h != idle
    ensures Runs(Boot(idle), [Create(h, user), SetState(h, CREATING)])
    ensures var s := After(Boot(idle), [Create(h, user), SetState(h, CREATING)]); Wf(s) && Hangs(s)
  {
    var s0, e1, e2 := Boot(idle), Create(h, user), SetState(h, CREATING);
    var s1 := Step(s0, e1);
    var s2 := Step(s1, e2);
    assert [e1, e2][1..] == [e2] && [e2][1..] == [];
    assert s2.queue == [idle, h] && s2.queue[1..] == [h];
    assert h in s2.queue[1..] && !s2.procs[h].died;
    assert After(s2, []) == s2 && After(s1, [e2]) == s2;
  }

  const WAITPID := 5

  /** Idle and two processes, `run` running with `quota` used up so far; nobody dead, no signals. */
  ghost predicate Trio(s: Sched, idle: Handle, a: Handle, b: Handle, q: seq<Handle>, run: Handle, st: int, quota: int)
  {
    && idle != NULL && a != NULL && b != NULL && a != idle && b != idle && a != b
    && s.queue == q && s.running == run && s.idle == idle && s.cap == 999 && s.procs.Keys == {idle, a, b}
    && run in s.procs && s.procs[run].quota == quota && (forall x :: x in q ==> x in s.procs)
    && (forall x :: x in s.procs ==> !s.procs[x].died && s.procs[x].signals == [])
    && s.procs[idle].state == IDLE_STATE && s.procs[a].state == st && s.procs[b].state == st
  }

  lemma TwoCreated(idle: Handle, a: Handle, b: Handle)
    requires idle != NULL && a != NULL && b != NULL && a != idle && b != idle && a != b
    ensures var s0, e1, e2 := Boot(idle), Create(a, true), Create(b, true);
      Enabled(s0, e1) && Enabled(Step(s0, e1), e2) && Trio(Step(Step(s0, e1), e2), idle, a, b, [idle, a, b], idle, RUNNING, 10)
  {
  }

  /** The first tick drops idle and runs the first process. */
  lemma FirstRuns(s: Sched, idle: Handle, a: Handle, b: Handle)
    requires Trio(s, idle, a, b, [idle, a, b], idle, RUNNING, 10)
    ensures Enabled(s, Timer) && Trio(Step(s, Timer), idle, a, b, [b, a], a, RUNNING, 0)
  {
    assert s.queue[1..] == [a, b] && a in s.queue[1..] && Runnable(s.procs[a]);
    assert FirstRunnable([a, b], s.procs) == 0 && [a, b][1..] + Alive([a, b][..0], s.procs) == [b];
    assert Choose(s) == (Task(a), [b]);
  }

  /** A tick that pops a waiting process pushes idle in its place. */
  lemma IdleStandsIn(s: Sched, idle: Handle, a: Handle, b: Handle, x: Handle, y: Handle, run: Handle, quota: int)
    requires Trio(s, idle, a, b, [x, y], run, WAITPID, quota) && quota >= QUOTA && (x == a || x == b)
    ensures Enabled(s, Timer) && Trio(Step(s, Timer), idle, a, b, [y, idle], idle, WAITPID, 0)
  {
    assert s.queue[1..] == [y] && y in s.queue && Choose(s) == (Task(idle), [y]);
  }

  lemma BothWait(s: Sched, idle: Handle, a: Handle, b: Handle)
    requires Trio(s, idle, a, b, [b, a], a, RUNNING, 0)
    ensures var e1, e2 := SetState(a, WAITPID), SetState(b, WAITPID);
      && Enabled(s, e1) && Enabled(Step(s, e1), e2) && Enabled(Step(Step(s, e1), e2), ForceSwitch)
      && Trio(Step(Step(Step(s, e1), e2), ForceSwitch), idle, a, b, [b, a], a, WAITPID, QUOTA + 1)
  {
  }

  lemma Forced(s: Sched, idle: Handle, a: Handle, b: Handle, q: seq<Handle>, quota: int)
    requires Trio(s, idle, a, b, q, idle, WAITPID, quota)
    ensures Enabled(s, ForceSwitch) && Trio(Step(s, ForceSwitch), idle, a, b, q, idle, WAITPID, QUOTA + 1)
  {
  }

  /** A run with one more step in front. */
  lemma RunFrom(s: Sched, e: Event, es: seq<Event>)
    requires Enabled(s, e) && Runs(Step(s, e), es)
    ensures Runs(s, [e] + es) && After(s, [e] + es) == After(Step(s, e), es)
    ensures AlwaysUnique(s, [e] + es) ==> AlwaysUnique(Step(s, e), es)
  {
    assert ([e] + es)[1..] == es;
  }

  /** Both wait; two switches later idle is queued twice. */
  function LaterEvents(a: Handle, b: Handle): seq<Event>
  {
    [SetState(a, WAITPID)] + ([SetState(b, WAITPID)] + ([ForceSwitch] + ([Timer] + ([ForceSwitch] + ([Timer] + [])))))
  }

  lemma SecondSwitch(s6: Sched, idle: Handle, a: Handle, b: Handle)
    requires Trio(s6, idle, a, b, [b, a], a, WAITPID, QUOTA + 1)
    ensures var es := [Timer] + ([ForceSwitch] + ([Timer] + []));
      Runs(s6, es) && After(s6, es).queue == [idle, idle] && !AlwaysUnique(s6, es)
  {
    hide Step, Enabled;
    IdleStandsIn(s6, idle, a, b, b, a, a, QUOTA + 1);
    var s7 := Step(s6, Timer);
    Forced(s7, idle, a, b, [a, idle], 0);
    var s8 := Step(s7, ForceSwitch);
    IdleStandsIn(s8, idle, a, b, a, idle, idle, QUOTA + 1);
    var s9 := Step(s8, Timer);
    assert s9.queue == [idle, idle] && s9.queue[0] == s9.queue[1] && !AlwaysUnique(s9, []);
    hide Trio, Distinct;
    RunFrom(s8, Timer, []);
    RunFrom(s7, ForceSwitch, [Timer] + []);
    RunFrom(s6, Timer, [ForceSwitch] + ([Timer] + []));
  }

  lemma LaterQueuesIdleTwice(s3: Sched, idle: Handle, a: Handle, b: Handle)
    requires Trio(s3, idle, a, b, [b, a], a, RUNNING, 0)
    ensures var es := LaterEvents(a, b); Runs(s3, es) && After(s3, es).queue == [idle, idle] && !AlwaysUnique(s3, es)
  {
    hide Step, Enabled, Trio, Distinct;
    var w1, w2 := SetState(a, WAITPID), SetState(b, WAITPID);
    BothWait(s3, idle, a, b);
    var s4 := Step(s3, w1);
    var s5 := Step(s4, w2);
    var r6 := [Timer] + ([ForceSwitch] + ([Timer] + []));
    SecondSwitch(Step(s5, ForceSwitch), idle, a, b);
    RunFrom(s5, ForceSwitch, r6);
    RunFrom(s4, w2, [ForceSwitch] + r6);
    RunFrom(s3, w1, [w2] + ([ForceSwitch] + r6));
  }

  /** Two processes are created and start waiting for a child. */
  function TwoWait(a: Handle, b: Handle): seq<Event>
  {
    [Create(a, true)] + ([Create(b, true)] + ([Timer] + LaterEvents(a, b)))
  }

  /** From boot on, that run queues idle twice. */
  lemma TwoWaitQueueIdleTwice(idle: Handle, a: Handle, b: Handle)
    requires idle != NULL && a != NULL && b != NULL && a != idle && b != idle && a != b
    ensures Runs(Boot(idle), TwoWait(a, b)) && After(Boot(idle), TwoWait(a, b)).queue == [idle, idle]
    ensures !AlwaysUnique(Boot(idle), TwoWait(a, b))
  {
    hide Step, Enabled, Trio, Distinct, Boot, LaterEvents;
    var s0, e1, e2, later := Boot(idle), Create(a, true), Create(b, true), LaterEvents(a, b);
    TwoCreated(idle, a, b);
    var s1 := Step(s0, e1);
    var s2 := Step(s1, e2);
    FirstRuns(s2, idle, a, b);
    LaterQueuesIdleTwice(Step(s2, Timer), idle, a, b);
    RunFrom(s2, Timer, later);
    RunFrom(s1, e2, [Timer] + later);
    RunFrom(s0, e1, [e2] + ([Timer] + later));
  }
}
