/** The scheduler of src/thread.c over the in-place ring.  Each method performs the step of
    `SchedulerMachine` with the same name. */
module Scheduler {
  import opened Facts
  import opened RunQueue
  import opened SchedulerMachine
  import opened SchedulerUnique

  class Threads {
    const ring: Filo
    var running: Handle
    const idle: Handle
    var procs: map<Handle, Proc>

    ghost predicate Valid()
      reads this, ring, ring.data
    {
      ring.Valid() && Wf(Abs())
    }

    ghost function Abs(): Sched
      reads this, ring, ring.data
      requires ring.Valid()
    {
      Sched(ring.Contents(), running, idle, procs, ring.size - 1)
    }

    /** thread_init: the idle process is created first and stays in the ring. */
    constructor (idleHandle: Handle)
      requires idleHandle != NULL
      ensures Valid() && fresh(ring) && fresh(ring.data) && ring.size == 1000
      ensures Abs() == Boot(idleHandle)
    {
      ring := new Filo(1000);
      running, idle := idleHandle, idleHandle;
      procs := map[idleHandle := NewProc(false, NULL).(state := IDLE_STATE)];
      new;
      var _ := ring.Write(idleHandle);
    }

    /** thread_schedule. */
    method Schedule()
      requires Valid() && TickEnabled(Abs())
      modifies this, ring, ring.data
      ensures ring.Valid() && Abs() == Tick(old(Abs()))
    {
      hide Choose;
      ghost var s := Abs();
      if running != NULL {
        var p := procs[running];
        if p.quota < QUOTA && !p.died {
          if |p.signals| > 0 {
            SwitchContext(running);
          } else {
            procs := procs[running := p.(quota := p.quota + 1)];
          }
          return;
        }
      }
      assert !Keeps(s);
      var next := PickNext();
      if next != NULL {
        procs := procs[next := procs[next].(quota := 0, started := true)];
        var _ := ring.Write(next);
        SwitchContext(next);
      }
    }

    /** pop_prc, the search for a task that can run, and idle in place of a task that waits. */
    method PickNext() returns (next: Handle)
      requires Valid() && !Hangs(Abs())
      modifies ring, ring.data
      ensures ring.Valid() && ring.Contents() == old(Choose(Abs())).1
      ensures next == NULL <==> old(Choose(Abs())).0.NoTask?
      ensures next != NULL ==> old(Choose(Abs())).0 == Task(next) && next in procs
    {
      hide FirstRunnable, Alive, SelectLoop;
      ghost var q := ring.Contents();
      assert NULL !in q;
      next := ring.Read();
      if next == NULL {
        return;
      }
      assert next == q[0] && q[0] in q && ring.Contents() == q[1..];
      var p := procs[next];
      if p.state == CREATING || p.state == IDLE_STATE || p.state == ZOMBIE || p.died {
        next := SelectTask();
        if next == NULL {
          return;
        }
      }
      if procs[next].state > 3 {
        next := idle;
      }
    }

    /** The loop at `selectTask`: dead tasks are dropped, others that cannot run are requeued. */
    method SelectTask() returns (next: Handle)
      requires ring.Valid() && NULL !in procs
      requires (forall h :: h in ring.Contents() ==> h in procs) && !Spins(ring.Contents(), procs)
      modifies ring, ring.data
      ensures ring.Valid()
      ensures next == NULL <==> old(SelectLoop(ring.Contents(), procs)).0.NoTask?
      ensures next != NULL ==> old(SelectLoop(ring.Contents(), procs)).0 == Task(next) && next in procs
      ensures ring.Contents() == old(SelectLoop(ring.Contents(), procs)).1
    {
      ghost var goal := SelectLoop(ring.Contents(), procs);
      while true
        invariant ring.Valid() && procs == old(procs)
        invariant (forall h :: h in ring.Contents() ==> h in procs) && !Spins(ring.Contents(), procs)
        invariant SelectLoop(ring.Contents(), procs) == goal
        decreases Turns(ring.Contents(), procs)
      {
        ghost var q := ring.Contents();
        assert NULL !in q;
        next := ring.Read();
        if next == NULL {
          return;
        }
        assert q[0] in q;
        if !procs[next].died && (procs[next].state == RUNNING || procs[next].state == SLEEP) {
          return;
        }
        TurnKeepsChoice(q, procs);
        if !procs[next].died {
          var _ := ring.Write(next);
        }
        assert ring.Contents() == LoopTurn(q, procs);
      }
    }

    /** From `processSignals` to the context switch. */
    method SwitchContext(h: Handle)
      requires ring.Valid() && h in procs && !DefaultKill(procs[h])
      modifies this
      ensures ring.Valid() && Abs() == SwitchTo(old(Abs()), h)
    {
      var p := procs[h];
      if |p.signals| > 0 {
        var num := p.signals[0];
        p := p.(signals := p.signals[1..]);
        if num < NSIGNALS && num < |p.handlers| {
          var handler := p.handlers[num];
          if handler.installed && p.user {
            if handler.blocked {
              p := p.(signals := p.signals + [num]);
            } else {
              p := p.(handlers := p.handlers[num := Handler(true, true)]);
            }
          }
        }
      }
      procs := procs[h := p.(switches := p.switches + 1)];
      running := h;
    }

    /** thread_create. */
    method CreateThread(h: Handle, user: bool)
      requires Valid() && h != NULL && h !in procs
      modifies this, ring, ring.data
      ensures ring.Valid() && Abs() == Step(old(Abs()), Create(h, user))
    {
      procs := procs[h := NewProc(user, running)];
      var _ := ring.Write(h);
    }

    /** thread_killThread. */
    method KillThread(h: Handle, reschedule: bool)
      requires Valid() && h in procs && !procs[h].died && h != idle
      modifies this, ring, ring.data
      ensures ring.Valid() && Abs() == Step(old(Abs()), Kill(h, reschedule))
    {
      hide RemoveFirst;
      var parent := procs[h].parent;
      procs := procs[h := procs[h].(died := true, state := ZOMBIE, signals := [])];
      var _ := ring.Remove(h);
      if reschedule && running != NULL {
        if running == h {
          running := idle;
        }
        procs := procs[running := procs[running].(quota := QUOTA + 1)];
      }
      if parent != NULL && parent in procs {
        procs := procs[parent := procs[parent].(signals := procs[parent].signals + [SIGCHLD])];
      }
    }

    /** clock_handler with the scheduler enabled or not. */
    method ClockHandler(enabled: bool)
      requires Valid() && (enabled ==> TickEnabled(Abs()))
      modifies this, ring, ring.data
      ensures ring.Valid() && Abs() == if enabled then Tick(old(Abs())) else old(Abs())
    {
      if enabled {
        Schedule();
      }
    }
  }

  /** Turns the search loop still takes. */
  ghost function Turns(q: seq<Handle>, procs: map<Handle, Proc>): nat
    requires forall h :: h in q ==> h in procs
  {
    var k := FirstRunnable(q, procs);
    if k < |q| then k else |q|
  }
}
