/** The round-robin scheduler of src/thread.c as a state machine over its run queue.  The
    context switch written in assembly is taken to set `runningTask` to the chosen task. */
module SchedulerMachine {
  import opened Facts
  import opened RunQueue

  const RUNNING := 1
  const SLEEP := 2
  const ZOMBIE := 4
  const CREATING := 6
  const IDLE_STATE := -1
  const QUOTA := 10            // PROCESS_QUOTA
  const NSIGNALS := 32
  const SIGCHLD := 20

  datatype Handler = Handler(installed: bool, blocked: bool)

  datatype Proc = Proc(state: int, died: bool, quota: int, started: bool, switches: nat, user: bool, parent: Handle,
                       signals: seq<nat>, handlers: seq<Handler>)

  /** `cap` is the number of handles the ring can hold. */
  datatype Sched = Sched(queue: seq<Handle>, running: Handle, idle: Handle, procs: map<Handle, Proc>, cap: nat)

  function Update(s: Sched, h: Handle, p: Proc): Sched { s.(procs := s.procs[h := p]) }

  /** push_prc: a full ring drops the handle silently. */
  function Push(s: Sched, h: Handle): Sched
  {
    if |s.queue| < s.cap then s.(queue := s.queue + [h]) else s
  }

  // ---------------------------------------------------------------------------
  // Choosing the next task

  predicate Skipped(p: Proc) { p.state == CREATING || p.state == IDLE_STATE || p.state == ZOMBIE || p.died }

  predicate Runnable(p: Proc) { !p.died && (p.state == RUNNING || p.state == SLEEP) }

  ghost predicate Known(s: Sched)
  {
    forall h :: h in s.queue ==> h in s.procs
  }

  /** The search loop at `selectTask` never ends: nothing queued can run and something queued is alive. */
  predicate Spins(q: seq<Handle>, procs: map<Handle, Proc>)
    requires forall h :: h in q ==> h in procs
  {
    (forall h :: h in q ==> !Runnable(procs[h])) && exists h :: h in q && !procs[h].died
  }

  /** The handles of `q` that are alive, in order. */
  function Alive(q: seq<Handle>, procs: map<Handle, Proc>): (r: seq<Handle>)
    requires forall h :: h in q ==> h in procs
  {
    if q == [] then [] else if procs[q[0]].died then Alive(q[1..], procs) else [q[0]] + Alive(q[1..], procs)
  }

  /** The place of the first runnable handle, or the length. */
  function FirstRunnable(q: seq<Handle>, procs: map<Handle, Proc>): (k: nat)
    requires forall h :: h in q ==> h in procs
    ensures k <= |q| && (k < |q| ==> Runnable(procs[q[k]])) && forall i :: 0 <= i < k ==> !Runnable(procs[q[i]])
  {
    if q == [] || Runnable(procs[q[0]]) then 0 else 1 + FirstRunnable(q[1..], procs)
  }

  datatype Choice = NoTask | Task(h: Handle)

  /** What the loop at `selectTask` leaves: the first runnable task, the live ones before it at
      the back, the dead ones gone. */
  function SelectLoop(q: seq<Handle>, procs: map<Handle, Proc>): (Choice, seq<Handle>)
    requires forall h :: h in q ==> h in procs
    requires !Spins(q, procs)
  {
    var k := FirstRunnable(q, procs);
    if k == |q| then (NoTask, []) else (Task(q[k]), q[k + 1..] + Alive(q[..k], procs))
  }

  ghost predicate Hangs(s: Sched)
    requires Known(s)
  {
    s.queue != [] && Skipped(s.procs[s.queue[0]]) && Spins(s.queue[1..], s.procs)
  }

  /** pop_prc, the search loop, and the fallback to idle for states above WAITING. */
  ghost function Choose(s: Sched): (Choice, seq<Handle>)
    requires Known(s) && !Hangs(s)
  {
    if s.queue == [] then (NoTask, [])
    else
      var (c, rest) := if Skipped(s.procs[s.queue[0]]) then SelectLoop(s.queue[1..], s.procs)
                       else (Task(s.queue[0]), s.queue[1..]);
      if c.Task? && s.procs[c.h].state > 3 then (Task(s.idle), rest) else (c, rest)
  }

  // ---------------------------------------------------------------------------
  // Signals and the switch

  /** The pending signal has no handler and is not SIGCHLD: the default action kills. */
  predicate DefaultKill(p: Proc)
  {
    p.signals != [] && p.signals[0] < NSIGNALS && p.signals[0] < |p.handlers|
    && !p.handlers[p.signals[0]].installed && p.signals[0] != SIGCHLD
  }

  /** One pending signal taken, as `processSignals` does when the default action is not a kill. */
  function TakeSignal(p: Proc): Proc
  {
    if p.signals == [] then p
    else
      var num, p1 := p.signals[0], p.(signals := p.signals[1..]);
      if num >= NSIGNALS || num >= |p.handlers| || !p.handlers[num].installed || !p.user then p1
      else if p.handlers[num].blocked then p1.(signals := p1.signals + [num])
      else p1.(handlers := p.handlers[num := Handler(true, true)])
  }

  function SwitchTo(s: Sched, h: Handle): Sched
    requires h in s.procs
  {
    var p := TakeSignal(s.procs[h]);
    Update(s, h, p.(switches := p.switches + 1)).(running := h)
  }

  /** The running task keeps the processor on this tick. */
  predicate Keeps(s: Sched)
  {
    s.running != NULL && s.running in s.procs && s.procs[s.running].quota < QUOTA && !s.procs[s.running].died
  }

  ghost predicate Wf(s: Sched)
  {
    && Known(s) && s.idle in s.procs && s.idle != NULL && !s.procs[s.idle].died
    && (s.running != NULL ==> s.running in s.procs) && NULL !in s.procs
  }

  /** thread_schedule can be modelled: the search ends and no signal's default action kills. */
  ghost predicate TickEnabled(s: Sched)
  {
    && Wf(s)
    && (if Keeps(s) then !DefaultKill(s.procs[s.running])
        else !Hangs(s) && var (c, _) := Choose(s); c.Task? ==> !DefaultKill(s.procs[c.h]))
  }

  /** thread_schedule. */
  ghost function Tick(s: Sched): Sched
    requires TickEnabled(s)
  {
    if Keeps(s) then
      var p := s.procs[s.running];
      if p.signals != [] then SwitchTo(s, s.running)
      else Update(s, s.running, p.(quota := p.quota + 1))
    else
      var (c, rest) := Choose(s);
      if c.NoTask? then s.(queue := rest)
      else
        var p := s.procs[c.h].(quota := 0, started := true);
        SwitchTo(Push(Update(s.(queue := rest), c.h, p), c.h), c.h)
  }

  /** The task this tick dispatches from the queue, if any. */
  ghost function Dispatched(s: Sched): Choice
    requires TickEnabled(s)
  {
    if Keeps(s) then NoTask else Choose(s).0
  }

  // ---------------------------------------------------------------------------
  // Steps

  datatype Event =
    | Timer
    | Create(h: Handle, user: bool)
    | Kill(h: Handle, reschedule: bool)
    | SetState(h: Handle, state: int)
    | Signal(h: Handle, num: nat)
    | ForceSwitch

  function NewProc(user: bool, parent: Handle): Proc
  {
    Proc(RUNNING, false, 10, false, 0, user, parent, [], seq(NSIGNALS, _ => Handler(false, false)))
  }

  ghost predicate Enabled(s: Sched, e: Event)
  {
    match e
    case Timer => TickEnabled(s)
    case Create(h, _) => Wf(s) && h != NULL && h !in s.procs
    case Kill(h, _) => Wf(s) && h in s.procs && !s.procs[h].died && h != s.idle
    case SetState(h, _) => Wf(s) && h in s.procs && !s.procs[h].died
    case Signal(h, _) => Wf(s) && h in s.procs && !s.procs[h].died
    case ForceSwitch => Wf(s)
  }

  function Expire(s: Sched, h: Handle): Sched
  {
    if h in s.procs then Update(s, h, s.procs[h].(quota := QUOTA + 1)) else s
  }

  /** Dead, a zombie, out of the run queue. */
  function Buried(s: Sched, h: Handle): Sched
    requires h in s.procs
  {
    Update(s, h, s.procs[h].(died := true, state := ZOMBIE, signals := [])).(queue := RemoveFirst(s.queue, h))
  }

  /** The processor is given up at the next tick, by idle if `h` was running. */
  function Yielded(s: Sched, h: Handle): Sched
  {
    if s.running == h then Expire(s.(running := s.idle), s.idle) else Expire(s, s.running)
  }

  /** The parent, if any, is sent SIGCHLD. */
  function Notified(s: Sched, parent: Handle): Sched
  {
    if parent != NULL && parent in s.procs then
      Update(s, parent, s.procs[parent].(signals := s.procs[parent].signals + [SIGCHLD]))
    else s
  }

  /** thread_killThread for a priority-1 process. */
  function Killed(s: Sched, h: Handle, reschedule: bool): Sched
    requires h in s.procs
  {
    var s1 := Buried(s, h);
    Notified(if reschedule then Yielded(s1, h) else s1, s.procs[h].parent)
  }

  ghost function Step(s: Sched, e: Event): Sched
    requires Enabled(s, e)
  {
    match e
    case Timer => Tick(s)
    case Create(h, user) => Push(Update(s, h, NewProc(user, s.running)), h)
    case Kill(h, reschedule) => Killed(s, h, reschedule)
    case SetState(h, st) => Update(s, h, s.procs[h].(state := st))
    case Signal(h, num) => Update(s, h, s.procs[h].(signals := s.procs[h].signals + [num]))
    case ForceSwitch => Expire(s, s.running)
  }

  // ---------------------------------------------------------------------------
  // The search loop

  /** One turn of the loop: a dead handle is dropped, another that cannot run goes to the back. */
  function LoopTurn(q: seq<Handle>, procs: map<Handle, Proc>): seq<Handle>
    requires q != [] && q[0] in procs
  {
    if procs[q[0]].died then q[1..] else q[1..] + [q[0]]
  }

  /** The condition is exact: once it holds, every turn leaves it true, so the loop never ends. */
  lemma SpinsForever(q: seq<Handle>, procs: map<Handle, Proc>)
    requires forall h :: h in q ==> h in procs
    requires Spins(q, procs)
    ensures q != [] && !Runnable(procs[q[0]])
    ensures (forall h :: h in LoopTurn(q, procs) ==> h in procs) && Spins(LoopTurn(q, procs), procs)
  {
    var h :| h in q && !procs[h].died;
    assert q == [q[0]] + q[1..];
    assert h in LoopTurn(q, procs);
  }

  /** A turn does not change what the loop will leave. */
  lemma TurnKeepsChoice(q: seq<Handle>, procs: map<Handle, Proc>)
    requires forall h :: h in q ==> h in procs
    requires q != [] && !Runnable(procs[q[0]]) && !Spins(q, procs)
    ensures var q' := LoopTurn(q, procs);
      && (forall h :: h in q' ==> h in procs) && !Spins(q', procs)
      && FirstRunnable(q, procs) > 0
      && (FirstRunnable(q, procs) < |q| ==> FirstRunnable(q', procs) == FirstRunnable(q, procs) - 1)
      && SelectLoop(q', procs) == SelectLoop(q, procs)
  {
    var q', k := LoopTurn(q, procs), FirstRunnable(q, procs);
    assert q == [q[0]] + q[1..];
    assert forall h :: h in q' ==> h in q;
    if k == |q| {
      AllDead(q, procs);
      AllDead(q', procs);
    } else {
      TurnBefore(q, procs, k);
    }
  }

  /** With nothing runnable and no endless search, everything queued is dead. */
  lemma AllDead(q: seq<Handle>, procs: map<Handle, Proc>)
    requires forall h :: h in q ==> h in procs
    requires forall h :: h in q ==> procs[h].died || (FirstRunnable(q, procs) == |q| && !Spins(q, procs))
    ensures forall h :: h in q ==> procs[h].died
    ensures !Spins(q, procs) && FirstRunnable(q, procs) == |q|
  {
    forall h | h in q ensures procs[h].died {
      var i :| 0 <= i < |q| && q[i] == h;
    }
  }

  lemma TurnBefore(q: seq<Handle>, procs: map<Handle, Proc>, k: nat)
    requires forall h :: h in q ==> h in procs
    requires k == FirstRunnable(q, procs) && 0 < k < |q|
    ensures var q' := LoopTurn(q, procs);
      && (forall h :: h in q' ==> h in procs) && !Spins(q', procs) && !Spins(q, procs)
      && FirstRunnable(q', procs) == k - 1 && SelectLoop(q', procs) == SelectLoop(q, procs)
  {
    hide Alive, FirstRunnable;
    var q' := LoopTurn(q, procs);
    assert forall h :: h in q' ==> h in q;
    assert forall i :: 0 <= i < |q| - 1 ==> q'[i] == q[i + 1];
    assert q'[k - 1] == q[k] && q[k] in q && q[k] in q';
    FirstRunnableIs(q', procs, k - 1);
    LeftAfterTurn(q, procs, k);
  }

  lemma LeftAfterTurn(q: seq<Handle>, procs: map<Handle, Proc>, k: nat)
    requires forall h :: h in q ==> h in procs
    requires 0 < k < |q|
    ensures var q' := LoopTurn(q, procs);
      (forall h :: h in q'[..k - 1] ==> h in procs)
      && q'[k..] + Alive(q'[..k - 1], procs) == q[k + 1..] + Alive(q[..k], procs)
  {
    var q' := LoopTurn(q, procs);
    var front := q[..k][1..];
    assert q'[..k - 1] == front;
    if procs[q[0]].died {
      assert q'[k..] == q[k + 1..];
    } else {
      assert q'[k..] == q[k + 1..] + [q[0]];
      assert Alive(q[..k], procs) == [q[0]] + Alive(front, procs);
    }
  }

  lemma FirstRunnableIs(q: seq<Handle>, procs: map<Handle, Proc>, k: nat)
    requires forall h :: h in q ==> h in procs
    requires k < |q| && Runnable(procs[q[k]]) && forall i :: 0 <= i < k ==> !Runnable(procs[q[i]])
    ensures FirstRunnable(q, procs) == k
  {
  }
}
