/** The scheduler of `src/thread/thread.c` and the clock handler of `src/device/timer.c`, as functions on
    the scheduling state. Each function covers a stretch that the kernel runs with interrupts off. */
module Threads {
  import opened Options
  import opened Sequences

  type Tid = nat
  type LockId = nat

  datatype Status = Running | Ready | Blocked | Waiting | Hanging

  /** Where a thread is within `lock_acquire` and `lock_release` (`src/thread/sync.c`). */
  datatype Pc =
    | Out
    | AcqTest(l: LockId) | AcqInc(l: LockId)
    | DownTest(l: LockId) | DownRetest(l: LockId)
    | AcqSetHolder(l: LockId) | AcqCheck(l: LockId) | AcqSetNr(l: LockId)
    | RelCheck(l: LockId) | RelTest(l: LockId) | RelDec(l: LockId)
    | RelCheckOne(l: LockId) | RelClearHolder(l: LockId) | RelClearNr(l: LockId) | Up(l: LockId)

  /** A thread. `held` counts, per lock, the acquires that it has completed and not given back. */
  datatype Thread = Thread(status: Status, priority: nat, ticks: nat, pc: Pc, held: map<LockId, nat>)

  /** A lock with its semaphore. `owner` records whose `sema_down` was the last to succeed, until the
      matching `sema_up`. */
  datatype Lock = Lock(holder: Option<Tid>, nr: nat, value: nat, waiters: seq<Tid>, owner: Option<Tid>)

  datatype State = State(threads: map<Tid, Thread>, ready: seq<Tid>, cur: Tid, idle: Tid, locks: map<LockId, Lock>)

  /** A kernel assertion may fail. */
  datatype Outcome = Next(s: State) | Panic

  // ---- The operations ----

  /** The threads that the scheduler looks at exist. */
  predicate Runnable(s: State) {
    s.idle in s.threads && s.cur in s.threads && forall t :: t in s.ready ==> t in s.threads
  }

  function SetStatus(s: State, t: Tid, st: Status): State
    requires t in s.threads
  {
    s.(threads := s.threads[t := s.threads[t].(status := st)])
  }

  /** `thread_unblock`. */
  function Unblock(s: State, t: Tid): Outcome
    requires t in s.threads
  {
    if s.threads[t].status !in {Blocked, Waiting, Hanging} || t in s.ready then Panic
    else Next(SetStatus(s, t, Ready).(ready := [t] + s.ready))
  }

  /** The end of `schedule`: the first ready thread runs, the idle thread if there is none. */
  function Dispatch(s: State): Outcome
    requires s.idle in s.threads && forall t :: t in s.ready ==> t in s.threads
  {
    var o := if s.ready == [] then Unblock(s, s.idle) else Next(s);
    if o.Panic? || o.s.ready == [] then Panic
    else
      var next := o.s.ready[0];
      Next(SetStatus(o.s, next, Running).(ready := o.s.ready[1..], cur := next))
  }

  /** `schedule`. */
  function Schedule(s: State): Outcome
    requires Runnable(s)
  {
    var c := s.threads[s.cur];
    if c.status == Running then
      if s.cur in s.ready then Panic
      else Dispatch(s.(ready := s.ready + [s.cur],
                       threads := s.threads[s.cur := c.(ticks := c.priority, status := Ready)]))
    else Dispatch(s)
  }

  /** `thread_block`. */
  function Block(s: State, st: Status): Outcome
    requires Runnable(s)
  {
    if st !in {Blocked, Waiting, Hanging} then Panic else Schedule(SetStatus(s, s.cur, st))
  }

  /** `thread_yield`. The ticks are not renewed. */
  function Yield(s: State): Outcome
    requires Runnable(s)
  {
    if s.cur in s.ready then Panic
    else Schedule(SetStatus(s, s.cur, Ready).(ready := s.ready + [s.cur]))
  }

  /** `thread_start`, for a new thread `t`. */
  function Start(s: State, t: Tid, prio: nat): Outcome {
    if t in s.ready then Panic
    else Next(s.(ready := s.ready + [t], threads := s.threads[t := Thread(Ready, prio, prio, Out, map[])]))
  }

  /** `intr_timer_handler`. */
  function Tick(s: State): Outcome
    requires Runnable(s)
  {
    var c := s.threads[s.cur];
    if c.ticks == 0 then Schedule(s) else Next(s.(threads := s.threads[s.cur := c.(ticks := c.ticks - 1)]))
  }

  // ---- What every operation keeps ----

  /** Exactly the current thread runs, exactly the ready threads are on the ready list, once each, and
      the idle thread runs, is ready or is blocked. */
  ghost predicate SchedOK(s: State) {
    && s.cur in s.threads && s.threads[s.cur].status == Running
    && (forall t :: t in s.threads && s.threads[t].status == Running ==> t == s.cur)
    && QueueOK(s)
  }

  ghost predicate QueueOK(s: State) {
    && NoDup(s.ready)
    && (forall t :: t in s.ready <==> t in s.threads && s.threads[t].status == Ready)
    && (forall t :: t in s.threads ==> s.threads[t].ticks <= s.threads[t].priority < 0x100)
    && s.idle in s.threads && s.threads[s.idle].status in {Running, Ready, Blocked}
  }

  /** Nobody runs: the state in which `schedule` looks for the next thread. */
  ghost predicate Parked(s: State) {
    QueueOK(s) && forall t :: t in s.threads ==> s.threads[t].status != Running
  }

  /** Only the scheduling fields of some threads have changed. */
  ghost predicate SamePlaces(s: State, s': State) {
    && s'.idle == s.idle && s'.locks == s.locks && s'.threads.Keys == s.threads.Keys
    && forall t :: t in s.threads ==>
         && s'.threads[t].pc == s.threads[t].pc && s'.threads[t].held == s.threads[t].held
         && s'.threads[t].priority == s.threads[t].priority
  }

  /** Of the threads other than the current one and the idle thread, one may have been dispatched. */
  ghost predicate Promoted(s: State, s': State) {
    forall t :: t in s.threads && t in s'.threads && t != s.cur && t != s.idle ==>
      || s'.threads[t].status == s.threads[t].status
      || (s.threads[t].status == Ready && s'.threads[t].status == Running)
  }

  lemma Basics(s: State)
    requires SchedOK(s)
    ensures Runnable(s) && s.threads[s.cur].status == Running && s.cur !in s.ready
    ensures s.threads[s.cur].ticks <= s.threads[s.cur].priority < 0x100
  {
  }

  /** `schedule` never pops an empty list and never unblocks an idle thread that is not blocked. The
      first ready thread runs next. */
  lemma DispatchRuns(s: State)
    requires Parked(s)
    ensures Dispatch(s).Next? && SchedOK(Dispatch(s).s) && SamePlaces(s, Dispatch(s).s)
    ensures Dispatch(s).s.cur == if s.ready == [] then s.idle else s.ready[0]
    ensures Dispatch(s).s.ready == if s.ready == [] then [] else s.ready[1..]
    ensures forall t :: t in s.threads && t != Dispatch(s).s.cur ==> Dispatch(s).s.threads[t] == s.threads[t]
    ensures Dispatch(s).s.cur == s.idle || s.threads[Dispatch(s).s.cur].status == Ready
  {
    var s1 := if s.ready == [] then Unblock(s, s.idle).s else s;
    assert s1.ready != [] ==> s1.ready == [s1.ready[0]] + s1.ready[1..];
  }

  /** Leaving the processor in any way keeps the lists in order. */
  lemma ParkedByBlock(s: State, st: Status)
    requires SchedOK(s) && st in {Blocked, Waiting, Hanging} && (s.cur == s.idle ==> st == Blocked)
    ensures Parked(SetStatus(s, s.cur, st))
  {
  }

  lemma ParkedAtEnd(s: State, c: Thread)
    requires SchedOK(s) && c.status == Ready && c.ticks <= c.priority < 0x100
    ensures Parked(s.(ready := s.ready + [s.cur], threads := s.threads[s.cur := c]))
  {
    var s1 := s.(ready := s.ready + [s.cur], threads := s.threads[s.cur := c]);
    forall t
      ensures t in s1.ready <==> t in s1.threads && s1.threads[t].status == Ready
    {
    }
  }

  lemma BlockKeeps(s: State, st: Status)
    requires SchedOK(s) && st in {Blocked, Waiting, Hanging} && (s.cur == s.idle ==> st == Blocked)
    ensures Block(s, st).Next? && SchedOK(Block(s, st).s) && SamePlaces(s, Block(s, st).s)
    ensures Promoted(s, Block(s, st).s)
    ensures Block(s, st).s.cur != s.cur ==> Block(s, st).s.threads[s.cur].status == st
  {
    hide Dispatch, NoDup, SchedOK, Parked, QueueOK, Runnable, Block;
    Basics(s);
    ParkedByBlock(s, st);
    BlockDispatches(s, st);
    DispatchRuns(SetStatus(s, s.cur, st));
  }

  lemma BlockDispatches(s: State, st: Status)
    requires Runnable(s) && st in {Blocked, Waiting, Hanging}
    ensures Runnable(SetStatus(s, s.cur, st)) && Block(s, st) == Dispatch(SetStatus(s, s.cur, st))
  {
    hide Dispatch;
  }

  lemma YieldKeeps(s: State)
    requires SchedOK(s)
    ensures Yield(s).Next? && SchedOK(Yield(s).s) && SamePlaces(s, Yield(s).s)
    ensures Promoted(s, Yield(s).s)
    ensures Yield(s).s.cur != s.cur ==> Yield(s).s.threads[s.cur].status == Ready
  {
    hide Dispatch, NoDup, SchedOK, Parked, QueueOK, Runnable;
    Basics(s);
    ParkedAtEnd(s, s.threads[s.cur].(status := Ready));
    DispatchRuns(SetStatus(s, s.cur, Ready).(ready := s.ready + [s.cur]));
  }

  lemma TickKeeps(s: State)
    requires SchedOK(s)
    ensures Tick(s).Next? && SchedOK(Tick(s).s) && SamePlaces(s, Tick(s).s)
    ensures Promoted(s, Tick(s).s)
    ensures Tick(s).s.cur != s.cur ==> Tick(s).s.threads[s.cur].status == Ready
  {
    hide Dispatch, NoDup, SchedOK, Parked, QueueOK, Runnable;
    Basics(s);
    var c := s.threads[s.cur];
    if c.ticks == 0 {
      ParkedAtEnd(s, c.(ticks := c.priority, status := Ready));
      DispatchRuns(s.(ready := s.ready + [s.cur],
                      threads := s.threads[s.cur := c.(ticks := c.priority, status := Ready)]));
    } else {
      CountKeeps(s);
    }
  }

  lemma CountKeeps(s: State)
    requires SchedOK(s) && s.threads[s.cur].ticks > 0
    ensures SchedOK(s.(threads := s.threads[s.cur := s.threads[s.cur].(ticks := s.threads[s.cur].ticks - 1)]))
  {
  }

  lemma UnblockKeeps(s: State, t: Tid)
    requires SchedOK(s) && t in s.threads && s.threads[t].status in {Blocked, Waiting, Hanging}
    ensures Unblock(s, t).Next? && SchedOK(Unblock(s, t).s) && SamePlaces(s, Unblock(s, t).s)
    ensures Unblock(s, t).s.threads == s.threads[t := s.threads[t].(status := Ready)] && Unblock(s, t).s.cur == s.cur
  {
    var s' := Unblock(s, t).s;
    forall i, j | 0 <= i < j < |s'.ready|
      ensures s'.ready[i] != s'.ready[j]
    {
      assert s'.ready[j] == s.ready[j - 1];
      assert s.ready[j - 1] in s.ready;
    }
  }

  lemma StartKeeps(s: State, t: Tid, prio: nat)
    requires SchedOK(s) && t !in s.threads && prio < 0x100
    ensures Start(s, t, prio).Next? && SchedOK(Start(s, t, prio).s)
  {
    var s' := Start(s, t, prio).s;
    forall i, j | 0 <= i < j < |s'.ready|
      ensures s'.ready[i] != s'.ready[j]
    {
      assert s.ready[i] in s.ready;
    }
  }

  // ---- Who runs next ----

  /** The current thread left the processor to the first thread of the ready list and is now its last one. */
  ghost predicate HandedOver(s: State, s': State) {
    && (s.ready != [] ==> s'.cur == s.ready[0] && s'.ready == s.ready[1..] + [s.cur])
    && (s.ready == [] ==> s'.cur == s.cur && s'.ready == [])
    && s'.threads.Keys == s.threads.Keys
    && (forall t :: t in s.threads && t != s.cur && t != s'.cur ==> s'.threads[t] == s.threads[t])
    && s'.cur in s.threads && s'.threads[s'.cur].status == Running
    && (s'.cur != s.cur ==> s.cur in s.threads && s'.threads[s.cur].status == Ready)
  }

  /** After `thread_yield` the thread that has been ready for longest runs, and the caller is the last of the
      ready list; with an empty list the caller runs again. Nobody's ticks change. */
  lemma YieldHandsOver(s: State)
    requires SchedOK(s)
    ensures Runnable(s) && Yield(s).Next? && HandedOver(s, Yield(s).s)
    ensures forall t :: t in s.threads ==> Yield(s).s.threads[t].ticks == s.threads[t].ticks
  {
    Basics(s);
    var parked := SetStatus(s, s.cur, Ready).(ready := s.ready + [s.cur]);
    ParkedAtEnd(s, s.threads[s.cur].(status := Ready));
    DispatchRuns(parked);
    assert Yield(s) == Dispatch(parked);
    assert s.ready == [] ==> parked.ready[1..] == [];
  }

  /** The same when the ticks of the running thread are used up; it gets as many as its priority again. */
  lemma TickHandsOver(s: State)
    requires SchedOK(s) && s.threads[s.cur].ticks == 0
    ensures Runnable(s) && Tick(s).Next? && HandedOver(s, Tick(s).s)
    ensures forall t :: t in s.threads ==>
              Tick(s).s.threads[t].ticks == if t == s.cur then s.threads[t].priority else s.threads[t].ticks
  {
    Basics(s);
    var c := s.threads[s.cur].(ticks := s.threads[s.cur].priority, status := Ready);
    var parked := s.(ready := s.ready + [s.cur], threads := s.threads[s.cur := c]);
    ParkedAtEnd(s, c);
    DispatchRuns(parked);
    assert s.ready == [] ==> parked.ready[1..] == [];
  }

  /** `thread_block` leaves the processor to the first ready thread, too, but the caller is on no list. */
  lemma BlockHandsOver(s: State, st: Status)
    requires SchedOK(s) && st in {Blocked, Waiting, Hanging} && (s.cur == s.idle ==> st == Blocked)
    ensures Runnable(s) && Block(s, st).Next?
    ensures var s' := Block(s, st).s;
            && s'.cur == (if s.ready == [] then s.idle else s.ready[0])
            && s'.ready == (if s.ready == [] then [] else s.ready[1..])
            && s'.threads.Keys == s.threads.Keys
            && (s'.cur != s.cur ==> s'.threads[s.cur] == s.threads[s.cur].(status := st))
            && forall t :: t in s.threads ==> s'.threads[t].ticks == s.threads[t].ticks
  {
    hide Dispatch, NoDup, SchedOK, Parked, QueueOK, Runnable, Block;
    Basics(s);
    ParkedByBlock(s, st);
    BlockDispatches(s, st);
    DispatchRuns(SetStatus(s, s.cur, st));
    DispatchTicks(SetStatus(s, s.cur, st));
  }

  lemma DispatchTicks(s: State)
    requires Parked(s)
    ensures Dispatch(s).Next? && Dispatch(s).s.threads.Keys == s.threads.Keys
    ensures forall t :: t in s.threads ==> Dispatch(s).s.threads[t].ticks == s.threads[t].ticks
  {
    DispatchRuns(s);
  }

  /** A started thread is the last of the ready list and has as many ticks as its priority; a thread that is
      unblocked is the first. Nothing else changes. */
  lemma StartAndUnblockPlaces(s: State, t: Tid, prio: nat)
    requires SchedOK(s)
    ensures t !in s.threads ==>
              && Start(s, t, prio).Next?
              && var s' := Start(s, t, prio).s;
                 && |s'.ready| == |s.ready| + 1 && s'.ready[|s.ready|] == t && s'.ready[..|s.ready|] == s.ready
                 && s'.cur == s.cur && s'.threads.Keys == s.threads.Keys + {t}
                 && (forall u :: u in s.threads ==> s'.threads[u] == s.threads[u])
                 && s'.threads[t].status == Ready && s'.threads[t].priority == s'.threads[t].ticks == prio
    ensures t in s.threads && s.threads[t].status in {Blocked, Waiting, Hanging} ==>
              && Unblock(s, t).Next?
              && var s' := Unblock(s, t).s;
                 && |s'.ready| == |s.ready| + 1 && s'.ready[0] == t && s'.ready[1..] == s.ready
                 && s'.cur == s.cur && s'.threads.Keys == s.threads.Keys
                 && (forall u :: u in s.threads && u != t ==> s'.threads[u] == s.threads[u])
                 && s'.threads[t] == s.threads[t].(status := Ready)
  {
  }

  /** `n` yields in a row, each by the thread that runs then. */
  function Yields(s: State, n: nat): State
    requires SchedOK(s)
    ensures SchedOK(Yields(s, n))
    decreases n
  {
    if n == 0 then s else
      YieldKeeps(s);
      Yields(Yield(s).s, n - 1)
  }

  /** Threads that only yield take turns: after `n` yields the thread `n` places behind the first one runs, and
      those that have run stand behind it in the order in which they did. */
  lemma {:induction false} YieldsRotate(s: State, n: nat)
    requires SchedOK(s) && n <= |s.ready|
    ensures var q := [s.cur] + s.ready;
            Yields(s, n).cur == q[n] && Yields(s, n).ready == q[n + 1..] + q[..n]
    decreases n
  {
    hide SchedOK, Yield, HandedOver;
    if n > 0 {
      YieldHandsOver(s);
      YieldKeeps(s);
      var s1, q := Yield(s).s, [s.cur] + s.ready;
      NextInLine(s, s1);
      YieldsRotate(s1, n - 1);
      var q1 := [s1.cur] + s1.ready;
      assert q1 == q[1..] + [s.cur];
      assert q1[n..] + q1[..n - 1] == q[n + 1..] + q[..n];
    }
  }

  lemma NextInLine(s: State, s': State)
    requires HandedOver(s, s') && s.ready != []
    ensures s'.cur == s.ready[0] && s'.ready == s.ready[1..] + [s.cur]
  {
  }

  // ---- Bounded waiting ----

  /** `n` clock interrupts in a row. */
  function Ticks(s: State, n: nat): State
    requires SchedOK(s)
    ensures SchedOK(Ticks(s, n))
    decreases n
  {
    if n == 0 then s else
      TickKeeps(s);
      Ticks(Tick(s).s, n - 1)
  }

  /** The interrupts that the thread at place `k` of the ready list has to wait for: each thread before
      it uses up the ticks it has left, and one more. */
  function Delay(s: State, k: nat): nat
    requires SchedOK(s) && k < |s.ready|
  {
    s.threads[s.cur].ticks + 1 + DelayOf(s.threads, s.ready[..k])
  }

  function DelayOf(threads: map<Tid, Thread>, q: seq<Tid>): nat
    requires forall t :: t in q ==> t in threads
  {
    if q == [] then 0 else threads[q[0]].ticks + 1 + DelayOf(threads, q[1..])
  }

  lemma {:induction false} DelayOfSame(threads: map<Tid, Thread>, threads': map<Tid, Thread>, q: seq<Tid>)
    requires forall t :: t in q ==> t in threads && t in threads' && threads'[t].ticks == threads[t].ticks
    ensures DelayOf(threads', q) == DelayOf(threads, q)
  {
    if q != [] {
      DelayOfSame(threads, threads', q[1..]);
    }
  }

  /** It is at most the sum over the priorities. */
  function Bound(threads: map<Tid, Thread>, q: seq<Tid>): nat
    requires forall t :: t in q ==> t in threads
  {
    if q == [] then 0 else threads[q[0]].priority + 1 + Bound(threads, q[1..])
  }

  lemma {:induction false} DelayBelowBound(s: State, q: seq<Tid>)
    requires SchedOK(s) && forall t :: t in q ==> t in s.threads
    ensures DelayOf(s.threads, q) <= Bound(s.threads, q)
  {
    if q != [] {
      DelayBelowBound(s, q[1..]);
    }
  }

  /** While the current thread has ticks left, an interrupt only takes one of them. */
  lemma TickCounts(s: State)
    requires SchedOK(s) && s.threads[s.cur].ticks > 0
    ensures Tick(s).Next? && Tick(s).s.ready == s.ready && Tick(s).s.cur == s.cur
    ensures Tick(s).s.threads == s.threads[s.cur := s.threads[s.cur].(ticks := s.threads[s.cur].ticks - 1)]
  {
  }

  /** When it has none left, the first ready thread runs, and it goes to the end of the list. */
  lemma TickSwitches(s: State)
    requires SchedOK(s) && s.threads[s.cur].ticks == 0 && s.ready != []
    ensures Tick(s).Next? && Tick(s).s.cur == s.ready[0] && Tick(s).s.ready == s.ready[1..] + [s.cur]
    ensures forall t :: t in s.ready ==> t in Tick(s).s.threads && Tick(s).s.threads[t].ticks == s.threads[t].ticks
  {
    var c := s.threads[s.cur].(ticks := s.threads[s.cur].priority, status := Ready);
    ParkedAtEnd(s, c);
    DispatchRuns(s.(ready := s.ready + [s.cur], threads := s.threads[s.cur := c]));
  }

  lemma DelayCounts(s: State, k: nat)
    requires SchedOK(s) && k < |s.ready| && s.threads[s.cur].ticks > 0
    ensures Tick(s).Next? && SchedOK(Tick(s).s) && Tick(s).s.ready == s.ready && Delay(Tick(s).s, k) == Delay(s, k) - 1
  {
    TickKeeps(s);
    TickCounts(s);
    hide Tick;
    DelayOfSame(s.threads, Tick(s).s.threads, s.ready[..k]);
  }

  lemma DelaySwitches(s: State, k: nat)
    requires SchedOK(s) && 0 < k < |s.ready| && s.threads[s.cur].ticks == 0
    ensures Tick(s).Next? && SchedOK(Tick(s).s) && k - 1 < |Tick(s).s.ready| && Tick(s).s.ready[k - 1] == s.ready[k]
    ensures Delay(Tick(s).s, k - 1) == Delay(s, k) - 1
  {
    TickKeeps(s);
    TickSwitches(s);
    hide Tick, SchedOK;
    Basics(s);
    var s1 := Tick(s).s;
    assert s.ready[..k][0] == s.ready[0] && s.ready[..k][1..] == s1.ready[..k - 1];
    DelayOfSame(s.threads, s1.threads, s1.ready[..k - 1]);
  }

  /** If only the clock interrupts, the thread at place `k` runs after exactly `Delay` interrupts, and
      not before. */
  lemma {:induction false} WaitsExactly(s: State, k: nat, n: nat)
    requires SchedOK(s) && k < |s.ready| && n <= Delay(s, k)
    ensures n == Delay(s, k) ==> Ticks(s, n).cur == s.ready[k]
    ensures n < Delay(s, k) ==> Ticks(s, n).cur != s.ready[k]
    decreases n
  {
    hide SchedOK, Tick, DelayOf, Runnable;
    Basics(s);
    if n > 0 {
      if s.threads[s.cur].ticks > 0 {
        DelayCounts(s, k);
        WaitsExactly(Tick(s).s, k, n - 1);
      } else {
        TickSwitches(s);
        if k > 0 {
          DelaySwitches(s, k);
          WaitsExactly(Tick(s).s, k - 1, n - 1);
        } else {
          TickKeeps(s);
          assert s.ready[..0] == [];
          assert DelayOf(s.threads, []) == 0 by { DelayOfNone(s.threads); }
          assert Delay(s, 0) == 1 && n == 1;
          assert Ticks(Tick(s).s, 0) == Tick(s).s;
        }
      }
    }
  }

  lemma DelayOfNone(threads: map<Tid, Thread>)
    ensures DelayOf(threads, []) == 0
  {
  }

  /** The wait is within the ticks of the running thread and the quanta of the threads ahead. */
  lemma WaitIsBounded(s: State, k: nat)
    requires SchedOK(s) && k < |s.ready|
    ensures Delay(s, k) <= s.threads[s.cur].ticks + 1 + Bound(s.threads, s.ready[..k])
  {
    DelayBelowBound(s, s.ready[..k]);
  }
}
