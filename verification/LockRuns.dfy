/** Runs of the lock machine, over time: who is woken when, and how many acquires are outstanding. */
module LockRuns {
  import opened Options
  import opened Sequences
  import opened Threads
  import opened Locks

  // ---- The waiters of a lock are a queue ----

  /** In this step the current thread finds the semaphore of `l` taken and joins its waiters. */
  ghost predicate Joins(s: State, a: Action, l: LockId) {
    && s.cur in s.threads && l in s.locks && a.Go?
    && (s.threads[s.cur].pc == DownTest(l) || s.threads[s.cur].pc == DownRetest(l)) && s.locks[l].value == 0
  }

  /** In this step the current thread calls `sema_up` on the semaphore of `l`. */
  ghost predicate Ups(s: State, a: Action, l: LockId) {
    s.cur in s.threads && a.Go? && s.threads[s.cur].pc == Up(l)
  }

  /** Every step leaves the waiters alone, or adds the current thread behind them, or takes the first one. */
  ghost predicate QueueStep(s: State, a: Action, s': State, l: LockId) {
    && l in s.locks && l in s'.locks
    && var q, q' := s.locks[l].waiters, s'.locks[l].waiters;
       if Joins(s, a, l) then s.cur !in q && q' == q + [s.cur]
       else if Ups(s, a, l) && q != [] then q' == q[1..] && s'.ready == [q[0]] + s.ready
       else q' == q
  }

  lemma StepQueues(s: State, a: Action, s': State, l: LockId)
    requires Inv(s) && Follows(s, a, s') && l in s.locks
    ensures QueueStep(s, a, s', l)
  {
    hide Inv, QueueStep, Enabled, Advance, Tick, Yield, Block, Unblock, Start;
    StepIs(s, a);
    if a.Go? {
      GoQueues(s, s', l);
    } else {
      SchedQueues(s, a, s', l);
    }
  }

  /** The parts of a step. */
  lemma StepIs(s: State, a: Action)
    requires Inv(s) && Enabled(s, a)
    ensures WellPlaced(s, a) && Runnable(s) && SchedOK(s)
    ensures a.Go? ==> !s.threads[s.cur].pc.Out? && s.cur != s.idle
  {
    StepKeeps(s, a);
    InvBasics(s);
    hide LockOK, SchedOK, Advance, Tick, Yield, Block, Unblock, Start;
    assert ThreadOK(s, s.cur);
  }

  lemma SchedQueues(s: State, a: Action, s': State, l: LockId)
    requires Inv(s) && Follows(s, a, s') && l in s.locks && !a.Go? && WellPlaced(s, a) && SchedOK(s)
    ensures QueueStep(s, a, s', l) && s'.locks == s.locks
  {
    hide LocksOK, SchedOK;
    SchedPlaces(s, a, s');
  }

  /** An action that is no statement of `sync.c` moves nobody within `sync.c`, except that the current thread
      may begin a call. */
  lemma SchedPlaces(s: State, a: Action, s': State)
    requires Inv(s) && Follows(s, a, s') && !a.Go? && WellPlaced(s, a) && SchedOK(s)
    ensures s'.locks == s.locks
    ensures forall t :: t in s.threads ==>
              && t in s'.threads && s'.threads[t].held == s.threads[t].held
              && (s'.threads[t].pc == s.threads[t].pc
                  || (t == s.cur && s.threads[t].pc.Out? && (s'.threads[t].pc.AcqTest? || s'.threads[t].pc.RelCheck?)))
    ensures forall t :: t in s'.threads && t !in s.threads ==> s'.threads[t].held == map[] && s'.threads[t].pc.Out?
  {
    hide LocksOK, SchedOK, Tick, Yield, Block, Unblock, Start;
    match a
    case Clock => TickKeeps(s);
    case YieldNow => YieldKeeps(s);
    case Wait(st) => BlockKeeps(s, st);
    case Wake(t) => UnblockKeeps(s, t);
    case IdleBlock => BlockKeeps(s, Blocked);
    case Begin(t, prio) => Started(s, t, prio, s');
    case Acquire(l) =>
    case Release(l) =>
  }

  lemma Started(s: State, t: Tid, prio: nat, s': State)
    requires Start(s, t, prio) == Next(s') && t !in s.threads
    ensures s'.locks == s.locks && s'.threads.Keys == s.threads.Keys + {t}
    ensures s'.threads[t].held == map[] && s'.threads[t].pc.Out?
    ensures forall u :: u in s.threads ==> s'.threads[u] == s.threads[u]
  {
  }

  lemma GoQueues(s: State, s': State, l: LockId)
    requires Inv(s) && Follows(s, Go, s') && l in s.locks && WellPlaced(s, Go) && s.cur != s.idle
    ensures QueueStep(s, Go, s', l)
  {
    hide SchedOK, LocksOK, LockOK, Schedule, Unblock, Inv, Down, SemaUp, Runnable, NoDup;
    var pc := s.threads[s.cur].pc;
    GoIs(s, s');
    if pc.DownTest? || pc.DownRetest? {
      if s.locks[pc.l].value == 0 {
        WaitsAtEnd(s, s', pc.l);
      } else {
        TakesQueue(s, s', pc.l);
      }
    } else if pc.Up? {
      UpTakesFirst(s, s', pc.l);
    } else {
      PlainQueues(s, s');
    }
  }

  /** The next statement, if it is one of a semaphore. */
  lemma GoIs(s: State, s': State)
    requires Follows(s, Go, s') && WellPlaced(s, Go)
    ensures Advance(s) == Next(s')
    ensures var pc := s.threads[s.cur].pc;
            && (pc.DownTest? || pc.DownRetest? ==> Down(s, pc.l) == Next(s'))
            && (pc.Up? ==> SemaUp(s, pc.l) == Next(s'))
  {
    hide Down, SemaUp, Runnable;
  }

  lemma PlainQueues(s: State, s': State)
    requires WellPlaced(s, Go) && Advance(s) == Next(s')
    requires !s.threads[s.cur].pc.DownTest? && !s.threads[s.cur].pc.DownRetest? && !s.threads[s.cur].pc.Up?
    ensures s'.locks.Keys == s.locks.Keys && forall m :: m in s.locks ==> s'.locks[m].waiters == s.locks[m].waiters
  {
    hide Down, SemaUp;
    var l := s.threads[s.cur].pc.l;
    assert s'.locks == s.locks || s'.locks == s.locks[l := s'.locks[l]];
  }

  lemma TakesQueue(s: State, s': State, l: LockId)
    requires Runnable(s) && l in s.locks && s.locks[l].value != 0 && Down(s, l) == Next(s')
    ensures s'.locks.Keys == s.locks.Keys && forall m :: m in s.locks ==> s'.locks[m].waiters == s.locks[m].waiters
  {
  }

  lemma WaitsAtEnd(s: State, s': State, l: LockId)
    requires Runnable(s) && l in s.locks && s.locks[l].value == 0 && Down(s, l) == Next(s')
    ensures s.cur !in s.locks[l].waiters
    ensures s'.locks == s.locks[l := s.locks[l].(waiters := s.locks[l].waiters + [s.cur])]
  {
  }

  lemma UpTakesFirst(s: State, s': State, l: LockId)
    requires WellPlaced(s, Go) && l in s.locks && s.threads[s.cur].pc == Up(l) && SemaUp(s, l) == Next(s')
    ensures var q := s.locks[l].waiters;
            && s'.locks == s.locks[l := s'.locks[l]]
            && s'.locks[l].waiters == (if q == [] then [] else q[1..])
            && (q != [] ==> s'.ready == [q[0]] + s.ready)
  {
  }

  lemma RunQueues(ss: seq<State>, acts: seq<Action>, l: LockId, i: nat)
    requires Run(ss, acts) && i < |acts| && l in ss[i].locks
    ensures QueueStep(ss[i], acts[i], ss[i + 1], l) && NoDup(ss[i].locks[l].waiters)
  {
    hide Inv, Initial, QueueStep, Follows;
    RunKeeps(ss, acts, i);
    StepQueues(ss[i], acts[i], ss[i + 1], l);
    QueueIsSet(ss[i], l);
  }

  lemma QueueIsSet(s: State, l: LockId)
    requires Inv(s) && l in s.locks
    ensures NoDup(s.locks[l].waiters)
  {
    assert LockOK(s, l);
  }

  /** The calls of `sema_up` for lock `l` in the steps from `i` to `j`. */
  ghost function UpCount(ss: seq<State>, acts: seq<Action>, l: LockId, i: nat, j: nat): nat
    requires i <= j <= |acts| < |ss|
  {
    if i == j then 0 else UpCount(ss, acts, l, i, j - 1) + if Ups(ss[j - 1], acts[j - 1], l) then 1 else 0
  }

  /** A waiter with `k` waiters before it moves up by one place with every `sema_up`, whatever else happens. */
  lemma {:induction false} WaiterAdvances(ss: seq<State>, acts: seq<Action>, l: LockId, i: nat, j: nat, k: nat)
    requires Run(ss, acts) && i <= j <= |acts| && l in ss[i].locks && k < |ss[i].locks[l].waiters|
    requires UpCount(ss, acts, l, i, j) <= k
    ensures l in ss[j].locks && k - UpCount(ss, acts, l, i, j) < |ss[j].locks[l].waiters|
    ensures ss[j].locks[l].waiters[k - UpCount(ss, acts, l, i, j)] == ss[i].locks[l].waiters[k]
  {
    hide Run;
    RunLength(ss, acts);
    if i < j {
      WaiterAdvances(ss, acts, l, i, j - 1, k);
      RunQueues(ss, acts, l, j - 1);
    }
  }

  lemma RunLength(ss: seq<State>, acts: seq<Action>)
    requires Run(ss, acts)
    ensures |ss| == |acts| + 1
  {
  }

  /** So the `sema_up` after `k` others takes it off, and puts it first on the ready list. */
  lemma WokenByItsTurn(ss: seq<State>, acts: seq<Action>, l: LockId, i: nat, j: nat, k: nat)
    requires Run(ss, acts) && i <= j < |acts| && l in ss[i].locks && k < |ss[i].locks[l].waiters|
    requires UpCount(ss, acts, l, i, j) == k && Ups(ss[j], acts[j], l)
    ensures l in ss[j + 1].locks && ss[i].locks[l].waiters[k] !in ss[j + 1].locks[l].waiters
    ensures ss[j + 1].ready != [] && ss[j + 1].ready[0] == ss[i].locks[l].waiters[k]
  {
    hide Run;
    RunLength(ss, acts);
    WaiterAdvances(ss, acts, l, i, j, k);
    RunQueues(ss, acts, l, j);
  }

  ghost predicate Before(q: seq<Tid>, t: Tid, u: Tid) {
    exists a, b :: 0 <= a < b < |q| && q[a] == t && q[b] == u
  }

  lemma {:induction false} StaysBehind(ss: seq<State>, acts: seq<Action>, l: LockId, i: nat, j: nat, t: Tid, u: Tid)
    requires Run(ss, acts) && i <= j <= |acts| && l in ss[i].locks && Before(ss[i].locks[l].waiters, t, u)
    requires forall m :: i <= m <= j && l in ss[m].locks ==> t in ss[m].locks[l].waiters
    ensures l in ss[j].locks && Before(ss[j].locks[l].waiters, t, u)
  {
    hide Run, Joins, Ups, Before;
    RunLength(ss, acts);
    if i < j {
      StaysBehind(ss, acts, l, i, j - 1, t, u);
      RunQueues(ss, acts, l, j - 1);
      BeforeStep(ss[j - 1], acts[j - 1], ss[j], l, t, u);
    }
  }

  lemma BeforeStep(s: State, a: Action, s': State, l: LockId, t: Tid, u: Tid)
    requires QueueStep(s, a, s', l) && Before(s.locks[l].waiters, t, u) && NoDup(s.locks[l].waiters)
    requires t in s'.locks[l].waiters
    ensures Before(s'.locks[l].waiters, t, u)
  {
    hide Joins, Ups;
    var q, q' := s.locks[l].waiters, s'.locks[l].waiters;
    var x, y :| 0 <= x < y < |q| && q[x] == t && q[y] == u;
    if q' == q[1..] && q' != q {
      assert x > 0;
      assert q'[x - 1] == t && q'[y - 1] == u;
    } else {
      assert q'[x] == t && q'[y] == u;
    }
  }

  /** First come, first served: a thread that joins while `t` waits is not taken off before `t` is. */
  lemma FirstComeFirstServed(ss: seq<State>, acts: seq<Action>, l: LockId, i: nat, j: nat, t: Tid)
    requires Run(ss, acts) && i < j <= |acts| && Joins(ss[i], acts[i], l) && t in ss[i].locks[l].waiters
    requires l in ss[j].locks && ss[i].cur !in ss[j].locks[l].waiters
    ensures exists m :: i < m <= j && l in ss[m].locks && t !in ss[m].locks[l].waiters
  {
    hide Run;
    RunLength(ss, acts);
    if forall m :: i < m <= j && l in ss[m].locks ==> t in ss[m].locks[l].waiters {
      RunQueues(ss, acts, l, i);
      var q := ss[i].locks[l].waiters;
      var a: nat :| a < |q| && q[a] == t;
      assert ss[i + 1].locks[l].waiters[a] == t && ss[i + 1].locks[l].waiters[|q|] == ss[i].cur;
      StaysBehind(ss, acts, l, i + 1, j, t, ss[i].cur);
    }
  }

  // ---- What is held ----

  /** In this step thread `t` comes back from `lock_acquire` of `l`. */
  ghost predicate Acquired(s: State, a: Action, s': State, t: Tid, l: LockId) {
    && a.Go? && s.cur == t && t in s.threads && t in s'.threads && s'.threads[t].pc.Out?
    && s.threads[t].pc in {AcqTest(l), AcqInc(l), DownTest(l), DownRetest(l), AcqSetHolder(l), AcqCheck(l), AcqSetNr(l)}
  }

  /** In this step it comes back from `lock_release`. */
  ghost predicate Released(s: State, a: Action, s': State, t: Tid, l: LockId) {
    && a.Go? && s.cur == t && t in s.threads && t in s'.threads && s'.threads[t].pc.Out?
    && s.threads[t].pc in {RelCheck(l), RelTest(l), RelDec(l), RelCheckOne(l), RelClearHolder(l), RelClearNr(l), Up(l)}
  }

  ghost function Acquires(ss: seq<State>, acts: seq<Action>, t: Tid, l: LockId, n: nat): nat
    requires n <= |acts| < |ss|
  {
    if n == 0 then 0
    else Acquires(ss, acts, t, l, n - 1) + if Acquired(ss[n - 1], acts[n - 1], ss[n], t, l) then 1 else 0
  }

  ghost function Releases(ss: seq<State>, acts: seq<Action>, t: Tid, l: LockId, n: nat): nat
    requires n <= |acts| < |ss|
  {
    if n == 0 then 0
    else Releases(ss, acts, t, l, n - 1) + if Released(ss[n - 1], acts[n - 1], ss[n], t, l) then 1 else 0
  }

  /** Thread `t` is in `lock_release` and has given up its last acquire. */
  ghost predicate Giving(s: State, t: Tid, l: LockId)
    requires t in s.threads
  {
    s.threads[t].pc == RelClearNr(l) || s.threads[t].pc == Up(l)
  }

  /** The acquires that a thread has not given back, for one that does not exist none. */
  ghost function Owed(s: State, t: Tid, l: LockId): nat {
    if t !in s.threads then 0 else Held(s, t, l) + if Giving(s, t, l) then 1 else 0
  }

  /** Each return from `lock_acquire` adds one, each return from `lock_release` takes one, nothing else counts. */
  ghost predicate OwedStep(s: State, a: Action, s': State, t: Tid, l: LockId) {
    Owed(s', t, l) + (if Released(s, a, s', t, l) then 1 else 0)
    == Owed(s, t, l) + if Acquired(s, a, s', t, l) then 1 else 0
  }

  lemma StepOwes(s: State, a: Action, s': State, t: Tid, l: LockId)
    requires Inv(s) && Follows(s, a, s') && l in s.locks
    ensures OwedStep(s, a, s', t, l) && l in s'.locks
  {
    hide Inv, OwedStep, Enabled, Advance, Tick, Yield, Block, Unblock, Start;
    StepIs(s, a);
    if a.Go? {
      GoOwes(s, s', t, l);
    } else {
      SchedOwes(s, a, s', t, l);
    }
  }

  lemma SchedOwes(s: State, a: Action, s': State, t: Tid, l: LockId)
    requires Inv(s) && Follows(s, a, s') && !a.Go? && WellPlaced(s, a) && SchedOK(s)
    ensures OwedStep(s, a, s', t, l) && s'.locks == s.locks
  {
    hide LocksOK, SchedOK, Follows;
    SchedPlaces(s, a, s');
  }

  /** Who does not run owes what it did. */
  lemma OthersOwe(s: State, s': State, t: Tid, l: LockId)
    requires s'.threads.Keys == s.threads.Keys && t != s.cur
    requires t in s.threads ==> s'.threads[t].pc == s.threads[t].pc && s'.threads[t].held == s.threads[t].held
    ensures OwedStep(s, Go, s', t, l)
  {
  }

  function HeldBy(c: Thread, l: LockId): nat {
    if l in c.held then c.held[l] else 0
  }

  /** What a statement does to the thread that executes it. */
  ghost predicate ThreadStep(c: Thread, c': Thread) {
    && !c.pc.Out?
    && var k, n := c.pc.l, HeldBy(c, c.pc.l);
       match c.pc
       case AcqInc(_) => c'.pc == Out && c'.held == c.held[k := n + 1]
       case AcqSetNr(_) => c'.pc == Out && c'.held == c.held[k := n + 1]
       case RelDec(_) => c'.pc == Out && n > 0 && c'.held == c.held[k := n - 1]
       case RelClearHolder(_) => c'.pc == RelClearNr(k) && n > 0 && c'.held == c.held[k := n - 1]
       case RelClearNr(_) => c'.pc == Up(k) && c'.held == c.held
       case Up(_) => c'.pc == Out && c'.held == c.held
       case _ => !c'.pc.Out? && !c'.pc.RelClearNr? && !c'.pc.Up? && c'.held == c.held
  }

  lemma ThreadStepOwes(s: State, s': State, l: LockId)
    requires s.cur in s.threads && s.cur in s'.threads && ThreadStep(s.threads[s.cur], s'.threads[s.cur])
    ensures OwedStep(s, Go, s', s.cur, l)
  {
  }

  lemma GoOwes(s: State, s': State, t: Tid, l: LockId)
    requires Inv(s) && Follows(s, Go, s') && WellPlaced(s, Go) && s.cur != s.idle && l in s.locks
    ensures OwedStep(s, Go, s', t, l) && l in s'.locks
  {
    hide SchedOK, LocksOK, LockOK, Schedule, Unblock, Inv, Down, SemaUp, NoDup, OwedStep, Enabled, Advance, QueueStep,
         ThreadStep;
    var pc := s.threads[s.cur].pc;
    GoIs(s, s');
    GoQueues(s, s', l);
    assert l in s'.locks by { QueueLocks(s, s', l); }
    if pc.DownTest? || pc.DownRetest? {
      DownPlaces(s, s', pc.l);
    } else if pc.Up? {
      UpPlaces(s, s', pc.l);
    } else {
      PlainPlaces(s, s');
    }
    if t == s.cur {
      ThreadStepOwes(s, s', l);
    } else {
      OthersOwe(s, s', t, l);
    }
  }

  lemma QueueLocks(s: State, s': State, l: LockId)
    requires QueueStep(s, Go, s', l)
    ensures l in s'.locks
  {
  }

  lemma PlainPlaces(s: State, s': State)
    requires Inv(s) && WellPlaced(s, Go) && Advance(s) == Next(s') && s.cur != s.idle
    requires !s.threads[s.cur].pc.DownTest? && !s.threads[s.cur].pc.DownRetest? && !s.threads[s.cur].pc.Up?
    ensures s'.threads.Keys == s.threads.Keys && ThreadStep(s.threads[s.cur], s'.threads[s.cur])
    ensures forall t :: t in s.threads && t != s.cur ==> s'.threads[t] == s.threads[t]
  {
    hide LocksOK, SchedOK, LockOK, PcOK, OwnerOK, Inside, ThreadStep, Advance, Runnable;
    CurrentFacts(s);
    var pc := s.threads[s.cur].pc;
    if pc.AcqTest? || pc.AcqInc? || pc.AcqSetHolder? || pc.AcqCheck? || pc.AcqSetNr? {
      AcquirePlaces(s, s');
    } else {
      ReleasePlaces(s, s');
    }
  }

  lemma AcquirePlaces(s: State, s': State)
    requires WellPlaced(s, Go) && Advance(s) == Next(s')
    requires var pc := s.threads[s.cur].pc;
             pc.AcqTest? || pc.AcqInc? || pc.AcqSetHolder? || pc.AcqCheck? || pc.AcqSetNr?
    ensures s'.threads == s.threads[s.cur := s'.threads[s.cur]]
    ensures s.cur in s'.threads && ThreadStep(s.threads[s.cur], s'.threads[s.cur])
  {
    hide Down, SemaUp;
  }

  lemma ReleasePlaces(s: State, s': State)
    requires WellPlaced(s, Go) && Advance(s) == Next(s') && PcOK(s, s.cur, s.threads[s.cur].pc.l)
    requires var pc := s.threads[s.cur].pc;
             pc.RelCheck? || pc.RelTest? || pc.RelDec? || pc.RelCheckOne? || pc.RelClearHolder? || pc.RelClearNr?
    ensures s'.threads == s.threads[s.cur := s'.threads[s.cur]]
    ensures s.cur in s'.threads && ThreadStep(s.threads[s.cur], s'.threads[s.cur])
  {
    hide Down, SemaUp;
  }

  lemma DownPlaces(s: State, s': State, l: LockId)
    requires WellPlaced(s, Go) && l in s.locks && Down(s, l) == Next(s')
    requires s.threads[s.cur].pc == DownTest(l) || s.threads[s.cur].pc == DownRetest(l)
    ensures s'.threads.Keys == s.threads.Keys && ThreadStep(s.threads[s.cur], s'.threads[s.cur])
    ensures forall t :: t in s.threads && t != s.cur ==>
              s'.threads[t].pc == s.threads[t].pc && s'.threads[t].held == s.threads[t].held
  {
    hide Dispatch;
    if s.locks[l].value == 0 {
      DispatchPlaces(Queued(s, l), s');
    }
  }

  lemma DispatchPlaces(s: State, s': State)
    requires Runnable(s) && Dispatch(s) == Next(s')
    ensures s'.threads.Keys == s.threads.Keys && s'.locks == s.locks
    ensures forall t :: t in s.threads ==>
              s'.threads[t].pc == s.threads[t].pc && s'.threads[t].held == s.threads[t].held
  {
  }

  lemma UpPlaces(s: State, s': State, l: LockId)
    requires WellPlaced(s, Go) && l in s.locks && s.threads[s.cur].pc == Up(l) && SemaUp(s, l) == Next(s')
    ensures s'.threads.Keys == s.threads.Keys && ThreadStep(s.threads[s.cur], s'.threads[s.cur])
    ensures forall t :: t in s.threads && t != s.cur ==>
              s'.threads[t].pc == s.threads[t].pc && s'.threads[t].held == s.threads[t].held
  {
  }

  lemma NobodyOwes(s: State, t: Tid, l: LockId)
    requires Initial(s)
    ensures Owed(s, t, l) == 0
  {
  }

  lemma {:induction false} OwedIsBalance(ss: seq<State>, acts: seq<Action>, t: Tid, l: LockId, n: nat)
    requires Run(ss, acts) && n <= |acts| && l in ss[0].locks
    ensures l in ss[n].locks
    ensures Owed(ss[n], t, l) + Releases(ss, acts, t, l, n) == Acquires(ss, acts, t, l, n)
  {
    hide Inv, Initial, Follows, Owed, Acquired, Released;
    if n == 0 {
      NobodyOwes(ss[0], t, l);
    } else {
      OwedIsBalance(ss, acts, t, l, n - 1);
      RunKeeps(ss, acts, n - 1);
      assert Follows(ss[n - 1], acts[n - 1], ss[n]);
      StepOwes(ss[n - 1], acts[n - 1], ss[n], t, l);
    }
  }

  /** In every state of every run, a thread that is not within a call is the holder of a lock iff it has come
      back from more acquires than releases, and `holder_repeat_nr` is the difference. */
  lemma HolderIsBalance(ss: seq<State>, acts: seq<Action>, t: Tid, l: LockId, n: nat)
    requires Run(ss, acts) && n <= |acts| && l in ss[0].locks && t in ss[n].threads && ss[n].threads[t].pc.Out?
    ensures l in ss[n].locks && Releases(ss, acts, t, l, n) <= Acquires(ss, acts, t, l, n)
    ensures var balance := Acquires(ss, acts, t, l, n) - Releases(ss, acts, t, l, n);
            && Held(ss[n], t, l) == balance
            && (ss[n].locks[l].holder == Some(t) <==> balance > 0)
            && (balance > 0 ==> ss[n].locks[l].nr == balance)
  {
    hide Run, Inv;
    OwedIsBalance(ss, acts, t, l, n);
    RunLength(ss, acts);
    RunKeeps(ss, acts, n);
    if Held(ss[n], t, l) > 0 {
      HolderIs(ss[n], l, t);
    } else {
      NoHolder(ss[n], l, t);
    }
  }

  lemma NoHolder(s: State, l: LockId, t: Tid)
    requires Inv(s) && l in s.locks && t in s.threads && s.threads[t].pc.Out? && Held(s, t, l) == 0
    ensures s.locks[l].holder != Some(t)
  {
    assert LockOK(s, l);
    if s.locks[l].owner != None {
      assert OwnerOK(s, s.locks[l].owner.value, l);
    }
  }
}
