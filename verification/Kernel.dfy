/** The functions of `src/thread/thread.c`, `src/thread/sync.c` and `src/device/timer.c` that the kernel
    runs with interrupts off, on the fields they change. Each does what its specification in `Threads` or
    `Locks` says, and none of its assertions fails. */
module Kernel {
  import opened Options
  import opened Threads
  import opened Locks

  class Scheduler {
    var threads: map<Tid, Thread>
    var ready: seq<Tid>
    var cur: Tid
    const idle: Tid
    var locks: map<LockId, Lock>

    /** `thread_init`, for the main thread and the idle thread. */
    constructor (main: Tid, idleTid: Tid, lockIds: set<LockId>)
      requires main != idleTid
      ensures Initial(Snap()) && cur == main && idle == idleTid && locks.Keys == lockIds
    {
      idle := idleTid;
      threads := map[main := Thread(Running, 31, 31, Out, map[]), idleTid := Thread(Ready, 10, 10, Out, map[])];
      ready, cur := [idleTid], main;
      locks := map l | l in lockIds :: Lock(None, 0, 1, [], None);
    }

    ghost function Snap(): State
      reads this
    {
      State(threads, ready, cur, idle, locks)
    }

    /** `thread_unblock`. */
    method ThreadUnblock(t: Tid)
      requires SchedOK(Snap()) || Parked(Snap())
      requires t in threads && threads[t].status in {Blocked, Waiting, Hanging}
      modifies this`threads, this`ready
      ensures Unblock(old(Snap()), t) == Next(Snap())
    {
      if threads[t].status != Ready {
        assert t !in ready;
        ready := [t] + ready;
        threads := threads[t := threads[t].(status := Ready)];
      }
    }

    /** `schedule`, called by the current thread in any state but ready-and-listed twice. */
    method DoSchedule()
      requires SchedOK(Snap()) || (Parked(Snap()) && cur in threads)
      modifies this`threads, this`ready, this`cur
      ensures Runnable(old(Snap())) && Schedule(old(Snap())) == Next(Snap())
      ensures SchedOK(Snap())
    {
      ghost var s := Snap();
      var c := threads[cur];
      if c.status == Running {
        assert cur !in ready;
        ready := ready + [cur];
        threads := threads[cur := c.(ticks := c.priority, status := Ready)];
        ParkedAtEnd(s, threads[cur]);
      }
      DispatchRuns(Snap());
      hide SchedOK, SamePlaces;
      if ready == [] {
        ThreadUnblock(idle);
      }
      assert ready != [];
      var next := ready[0];
      ready := ready[1..];
      threads := threads[next := threads[next].(status := Running)];
      cur := next;
    }

    /** `thread_block`. */
    method ThreadBlock(st: Status)
      requires SchedOK(Snap()) && st in {Blocked, Waiting, Hanging} && (cur == idle ==> st == Blocked)
      modifies this`threads, this`ready, this`cur
      ensures Runnable(old(Snap())) && Block(old(Snap()), st) == Next(Snap()) && SchedOK(Snap())
    {
      ParkedByBlock(Snap(), st);
      threads := threads[cur := threads[cur].(status := st)];
      DoSchedule();
    }

    /** `thread_yield`. */
    method ThreadYield()
      requires SchedOK(Snap())
      modifies this`threads, this`ready, this`cur
      ensures Runnable(old(Snap())) && Yield(old(Snap())) == Next(Snap()) && SchedOK(Snap())
      ensures HandedOver(old(Snap()), Snap())
      ensures forall t :: t in threads ==> t in old(threads) && threads[t].ticks == old(threads)[t].ticks
    {
      YieldHandsOver(Snap());
      hide HandedOver;
      assert cur !in ready;
      ParkedAtEnd(Snap(), threads[cur].(status := Ready));
      ready := ready + [cur];
      threads := threads[cur := threads[cur].(status := Ready)];
      DoSchedule();
    }

    /** `thread_start`. */
    method ThreadStart(t: Tid, prio: nat)
      requires SchedOK(Snap()) && t !in threads && prio < 0x100
      modifies this`threads, this`ready
      ensures Start(old(Snap()), t, prio) == Next(Snap()) && SchedOK(Snap())
    {
      StartKeeps(Snap(), t, prio);
      var thread := Thread(Ready, prio, prio, Out, map[]);
      assert t !in ready;
      ready := ready + [t];
      threads := threads[t := thread];
    }

    /** `intr_timer_handler`. */
    method TimerInterrupt()
      requires SchedOK(Snap())
      modifies this`threads, this`ready, this`cur
      ensures Runnable(old(Snap())) && Tick(old(Snap())) == Next(Snap()) && SchedOK(Snap())
      ensures old(threads)[old(cur)].ticks == 0 ==>
                HandedOver(old(Snap()), Snap()) && old(cur) in threads
                && threads[old(cur)].ticks == old(threads)[old(cur)].priority
    {
      hide HandedOver;
      TickKeeps(Snap());
      var c := threads[cur];
      if c.ticks == 0 {
        TickHandsOver(Snap());
        DoSchedule();
      } else {
        threads := threads[cur := c.(ticks := c.ticks - 1)];
      }
    }

    /** One round of the loop of `sema_down`, up to the next call of `schedule` or to its end. */
    method SemaDownRound(l: LockId)
      requires Inv(Snap()) && cur != idle && l in locks
      requires threads[cur].pc == DownTest(l) || threads[cur].pc == DownRetest(l)
      modifies this`threads, this`ready, this`cur, this`locks
      ensures Runnable(old(Snap())) && Down(old(Snap()), l) == Next(Snap()) && Inv(Snap())
      ensures l in locks
              && locks[l].waiters == old(locks)[l].waiters + if old(locks)[l].value == 0 then [old(cur)] else []
    {
      hide Inv, SchedOK, Parked, Schedule;
      ghost var s := Snap();
      DownFacts(s, l);
      var k := locks[l];
      if k.value == 0 {
        assert cur !in k.waiters;
        locks := locks[l := k.(waiters := k.waiters + [cur])];
        threads := threads[cur := threads[cur].(status := Blocked, pc := DownRetest(l))];
        assert Snap() == Queued(s, l);
        DoSchedule();
      } else {
        assert k.value - 1 == 0;
        locks := locks[l := k.(value := k.value - 1, owner := Some(cur))];
        threads := threads[cur := threads[cur].(pc := AcqSetHolder(l))];
      }
    }

    /** `sema_up`. */
    method DoSemaUp(l: LockId)
      requires Inv(Snap()) && cur != idle && l in locks && threads[cur].pc == Up(l)
      modifies this`threads, this`ready, this`locks
      ensures Runnable(old(Snap())) && (forall t :: t in old(locks)[l].waiters ==> t in old(threads))
      ensures SemaUp(old(Snap()), l) == Next(Snap()) && Inv(Snap())
    {
      ghost var s := Snap();
      CurrentFacts(s);
      UpWakes(s, l);
      UpFacts(s, l);
      hide LocksOK, LockOK, PcOK, Inside, OwnerOK;
      var k := locks[l];
      assert k.value == 0;
      var waiters := k.waiters;
      if waiters != [] {
        var threadBlocked := waiters[0];
        waiters := waiters[1..];
        ThreadUnblock(threadBlocked);
      }
      assert k.value + 1 == 1;
      locks := locks[l := k.(value := (k.value + 1) % 0x100, owner := None, waiters := waiters)];
      threads := threads[cur := threads[cur].(pc := Out)];
    }

    /** The clock strikes while the current thread runs with interrupts on: the whole system is still in
        order. */
    method ClockStep()
      requires Inv(Snap()) && Enabled(Snap(), Clock)
      modifies this`threads, this`ready, this`cur
      ensures Step(old(Snap()), Clock) == Next(Snap()) && Inv(Snap())
    {
      ghost var s := Snap();
      StepKeeps(s, Clock);
      hide LocksOK;
      TimerInterrupt();
    }
  }

  /** What `sema_down` needs: its assertions hold, and `schedule` may be called if it has to wait. */
  lemma DownFacts(s: State, l: LockId)
    requires Inv(s) && s.cur != s.idle && l in s.locks
    requires s.threads[s.cur].pc == DownTest(l) || s.threads[s.cur].pc == DownRetest(l)
    ensures Runnable(s) && Down(s, l).Next? && Inv(Down(s, l).s)
    ensures s.locks[l].value == 0 ==> s.cur !in s.locks[l].waiters && Parked(Queued(s, l))
    ensures s.locks[l].value <= 1
  {
    CurrentFacts(s);
    hide LocksOK, SchedOK;
    if s.locks[l].value == 0 {
      DownWaits(s, l);
      QueuedLock(s, l);
      QueuedParked(s, l);
    } else {
      DownTakes(s, l);
    }
  }
}
