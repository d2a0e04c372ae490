/** `src/thread/sync.c` under preemption: any number of threads run `lock_acquire` and `lock_release`
    statement by statement, and the clock may switch threads between any two statements that run with
    interrupts on. */
module Locks {
  import opened Options
  import opened Sequences
  import opened Threads

  const MAX_NR: nat := 0xffff_ffff

  function Held(s: State, t: Tid, l: LockId): nat
    requires t in s.threads
  {
    if l in s.threads[t].held then s.threads[t].held[l] else 0
  }

  // ---- The steps ----

  function SetPc(s: State, pc: Pc): State
    requires s.cur in s.threads
  {
    s.(threads := s.threads[s.cur := s.threads[s.cur].(pc := pc)])
  }

  /** The current thread moves to `pc`, the lock becomes `k`. */
  function Move(s: State, l: LockId, k: Lock, pc: Pc): State
    requires s.cur in s.threads
  {
    SetPc(s, pc).(locks := s.locks[l := k])
  }

  /** As `Move`, and the thread now has `n` acquires outstanding. */
  function MoveHeld(s: State, l: LockId, k: Lock, pc: Pc, n: nat): State
    requires s.cur in s.threads
  {
    var c := s.threads[s.cur];
    s.(locks := s.locks[l := k], threads := s.threads[s.cur := c.(pc := pc, held := c.held[l := n])])
  }

  /** The current thread joins the waiters and stops running (lines 23-30, up to `schedule`). */
  function Queued(s: State, l: LockId): State
    requires s.cur in s.threads && l in s.locks
  {
    var k := s.locks[l];
    SetStatus(Move(s, l, k.(waiters := k.waiters + [s.cur]), DownRetest(l)), s.cur, Blocked)
  }

  /** One round of the loop of `sema_down`, with what follows it when the value is not 0. */
  function Down(s: State, l: LockId): Outcome
    requires Runnable(s) && l in s.locks
  {
    var k := s.locks[l];
    if k.value == 0 then
      if s.cur in k.waiters then Panic else Schedule(Queued(s, l))
    else if k.value - 1 != 0 then Panic
    else Next(Move(s, l, k.(value := k.value - 1, owner := Some(s.cur)), AcqSetHolder(l)))
  }

  /** `sema_up`. */
  function SemaUp(s: State, l: LockId): Outcome
    requires Runnable(s) && l in s.locks && forall t :: t in s.locks[l].waiters ==> t in s.threads
  {
    var k := s.locks[l];
    if k.value != 0 then Panic else
      var o := if k.waiters == [] then Next(s) else Unblock(s, k.waiters[0]);
      if o.Panic? || (k.value + 1) % 0x100 != 1 then Panic
      else Next(Move(o.s, l, k.(value := (k.value + 1) % 0x100, owner := None,
                                waiters := if k.waiters == [] then [] else k.waiters[1..]), Out))
  }

  /** `n - 1` as a 32-bit unsigned number. */
  function Dec32(n: nat): nat {
    (n + 0xffff_ffff) % 0x1_0000_0000
  }

  function Fewer(n: nat): nat {
    if n == 0 then 0 else n - 1
  }

  /** The next statement of the current thread within `lock_acquire` or `lock_release`. */
  function Advance(s: State): Outcome
    requires Runnable(s) && !s.threads[s.cur].pc.Out? && s.threads[s.cur].pc.l in s.locks
    requires forall t :: t in s.locks[s.threads[s.cur].pc.l].waiters ==> t in s.threads
  {
    var pc := s.threads[s.cur].pc;
    var l := pc.l;
    var k := s.locks[l];
    match pc
    case AcqTest(_) => Next(SetPc(s, if k.holder != Some(s.cur) then DownTest(l) else AcqInc(l)))
    case AcqInc(_) => Next(MoveHeld(s, l, k.(nr := (k.nr + 1) % 0x1_0000_0000), Out, Held(s, s.cur, l) + 1))
    case DownTest(_) => Down(s, l)
    case DownRetest(_) => Down(s, l)
    case AcqSetHolder(_) => Next(Move(s, l, k.(holder := Some(s.cur)), AcqCheck(l)))
    case AcqCheck(_) => if k.nr != 0 then Panic else Next(SetPc(s, AcqSetNr(l)))
    case AcqSetNr(_) => Next(MoveHeld(s, l, k.(nr := 1), Out, Held(s, s.cur, l) + 1))
    case RelCheck(_) => if k.holder != Some(s.cur) then Panic else Next(SetPc(s, RelTest(l)))
    case RelTest(_) => Next(SetPc(s, if k.nr > 1 then RelDec(l) else RelCheckOne(l)))
    case RelDec(_) => Next(MoveHeld(s, l, k.(nr := Dec32(k.nr)), Out, Fewer(Held(s, s.cur, l))))
    case RelCheckOne(_) => if k.nr != 1 then Panic else Next(SetPc(s, RelClearHolder(l)))
    case RelClearHolder(_) => Next(MoveHeld(s, l, k.(holder := None), RelClearNr(l), Fewer(Held(s, s.cur, l))))
    case RelClearNr(_) => Next(Move(s, l, k.(nr := 0), Up(l)))
    case Up(_) => SemaUp(s, l)
  }

  datatype Action =
    | Go | Clock | Acquire(l: LockId) | Release(l: LockId)
    | YieldNow | Wait(st: Status) | Wake(t: Tid) | IdleBlock | Begin(t: Tid, prio: nat)

  /** The clock can interrupt, unless the thread has just come back from `schedule` inside `sema_down`,
      where interrupts are still off. Threads call `lock_release` only for what they hold, no thread
      holds a lock 2^32 times, and the idle thread only blocks. */
  ghost predicate Enabled(s: State, a: Action) {
    && s.cur in s.threads
    && var pc := s.threads[s.cur].pc;
       match a
       case Go => !pc.Out?
       case Clock => !pc.DownRetest?
       case Acquire(l) => pc.Out? && s.cur != s.idle && l in s.locks && Held(s, s.cur, l) < MAX_NR
       case Release(l) => pc.Out? && s.cur != s.idle && l in s.locks && Held(s, s.cur, l) > 0
       case YieldNow => pc.Out? && s.cur != s.idle
       case Wait(st) => pc.Out? && s.cur != s.idle && (st == Waiting || st == Hanging)
       case Wake(t) => pc.Out? && s.cur != s.idle && t in s.threads
           && (s.threads[t].status == Waiting || s.threads[t].status == Hanging)
       case IdleBlock => s.cur == s.idle
       case Begin(t, prio) => pc.Out? && s.cur != s.idle && t !in s.threads && prio < 0x100
  }

  /** The locks, the waiters and the threads that the next statement looks at exist. */
  ghost predicate WellPlaced(s: State, a: Action) {
    && Runnable(s)
    && (a.Go? ==> !s.threads[s.cur].pc.Out? && s.threads[s.cur].pc.l in s.locks
                  && forall t :: t in s.locks[s.threads[s.cur].pc.l].waiters ==> t in s.threads)
    && (a.Wake? ==> a.t in s.threads)
  }

  /** A dangling reference counts as a failure, too. */
  ghost function Step(s: State, a: Action): Outcome {
    if !WellPlaced(s, a) then Panic else
      match a
      case Go => Advance(s)
      case Clock => Tick(s)
      case Acquire(l) => Next(SetPc(s, AcqTest(l)))
      case Release(l) => Next(SetPc(s, RelCheck(l)))
      case YieldNow => Yield(s)
      case Wait(st) => Block(s, st)
      case Wake(t) => Unblock(s, t)
      case IdleBlock => Block(s, Blocked)
      case Begin(t, prio) => Start(s, t, prio)
  }

  // ---- The invariant ----

  /** Thread `t` is between the success of its `sema_down` and its `sema_up`. */
  predicate Inside(s: State, t: Tid, l: LockId)
    requires t in s.threads
  {
    s.threads[t].pc in {AcqSetHolder(l), AcqCheck(l), AcqSetNr(l), RelClearNr(l), Up(l)} || Held(s, t, l) > 0
  }

  /** A thread that was taken off the waiters and still has to test the value. */
  ghost predicate Retests(s: State, t: Tid, l: LockId) {
    t in s.threads && s.threads[t].pc == DownRetest(l)
        && (s.threads[t].status == Ready || s.threads[t].status == Running)
  }

  ghost predicate OwnerOK(s: State, t: Tid, l: LockId)
    requires l in s.locks
  {
    && t in s.threads && Inside(s, t, l)
    && var k, pc, n := s.locks[l], s.threads[t].pc, Held(s, t, l);
       if pc == AcqSetHolder(l) then k.holder == None && k.nr == 0 && n == 0
       else if pc == AcqCheck(l) || pc == AcqSetNr(l) then k.holder == Some(t) && k.nr == 0 && n == 0
       else if pc == RelClearNr(l) then k.holder == None && k.nr == 1 && n == 0
       else if pc == Up(l) then k.holder == None && k.nr == 0 && n == 0
       else k.holder == Some(t) && k.nr == n && 1 <= n <= MAX_NR
  }

  /** What a thread at `pc` knows about the lock from the tests it made. */
  ghost predicate PcOK(s: State, t: Tid, l: LockId)
    requires t in s.threads
  {
    var pc, n := s.threads[t].pc, Held(s, t, l);
    && (pc == AcqTest(l) ==> n < MAX_NR)
    && (pc == AcqInc(l) ==> 1 <= n < MAX_NR)
    && (pc == DownTest(l) || pc == DownRetest(l) ==> n == 0)
    && (pc == RelCheck(l) || pc == RelTest(l) ==> n >= 1)
    && (pc == RelDec(l) ==> n > 1)
    && (pc == RelCheckOne(l) || pc == RelClearHolder(l) ==> n == 1)
  }

  ghost predicate LockOK(s: State, l: LockId)
    requires l in s.locks
  {
    var k := s.locks[l];
    && k.value == (if k.owner == None then 1 else 0)
    && NoDup(k.waiters)
    && (forall t :: t in k.waiters ==>
        t in s.threads && s.threads[t].status == Blocked && s.threads[t].pc == DownRetest(l))
    && (if k.owner == None then k.holder == None && k.nr == 0 else OwnerOK(s, k.owner.value, l))
    && (forall t :: t in s.threads ==> PcOK(s, t, l) && (Inside(s, t, l) ==> k.owner == Some(t)))
    && (k.value == 1 && k.waiters != [] ==> exists t :: Retests(s, t, l))
  }

  ghost predicate ThreadOK(s: State, t: Tid)
    requires t in s.threads
  {
    var c := s.threads[t];
    && (c.pc.Out? || c.pc.l in s.locks)
    && (c.status == Blocked && t != s.idle ==> c.pc.DownRetest? && t in s.locks[c.pc.l].waiters)
    && (c.status == Waiting || c.status == Hanging ==> c.pc.Out?)
    && (t == s.idle ==> c.pc.Out?)
  }

  ghost predicate LocksOK(s: State) {
    && (forall t :: t in s.threads ==> ThreadOK(s, t))
    && (forall l :: l in s.locks ==> LockOK(s, l))
  }

  ghost predicate Inv(s: State) {
    SchedOK(s) && LocksOK(s)
  }

  lemma WaitersExist(s: State)
    requires Inv(s) && !s.threads[s.cur].pc.Out?
    ensures s.threads[s.cur].pc.l in s.locks && Runnable(s)
    ensures forall t :: t in s.locks[s.threads[s.cur].pc.l].waiters ==> t in s.threads
  {
    assert ThreadOK(s, s.cur);
    assert LockOK(s, s.threads[s.cur].pc.l);
  }

  // ---- Changes of scheduling only ----

  predicate Awake(st: Status) {
    st == Ready || st == Running
  }

  /** No thread has moved; who was blocked on a lock still is, who was awake still is. */
  ghost predicate Rescheduled(s: State, s': State) {
    && SamePlaces(s, s')
    && forall t :: t in s.threads && t != s.idle ==>
         || s'.threads[t].status == s.threads[t].status
         || (Awake(s.threads[t].status) && Awake(s'.threads[t].status))
         || (s.threads[t].pc.Out? && s.threads[t].status != Blocked && s'.threads[t].status != Blocked)
  }

  lemma RescheduledKeeps(s: State, s': State)
    requires LocksOK(s) && Rescheduled(s, s')
    ensures LocksOK(s')
  {
    forall t | t in s'.threads
      ensures ThreadOK(s', t)
    {
      assert ThreadOK(s, t);
    }
    forall l | l in s'.locks
      ensures LockOK(s', l)
    {
      RescheduledLock(s, s', l);
    }
  }

  lemma RescheduledLock(s: State, s': State, l: LockId)
    requires l in s.locks && LockOK(s, l) && Rescheduled(s, s') && forall t :: t in s.threads ==> ThreadOK(s, t)
    ensures l in s'.locks && LockOK(s', l)
  {
    var k := s.locks[l];
    forall t | t in s'.threads
      ensures PcOK(s', t, l) && (Inside(s', t, l) ==> k.owner == Some(t))
    {
      assert PcOK(s, t, l);
    }
    forall t | t in k.waiters
      ensures s'.threads[t].status == Blocked
    {
      assert ThreadOK(s, t);
    }
    if k.value == 1 && k.waiters != [] {
      var t :| Retests(s, t, l);
      assert ThreadOK(s, t);
      assert Retests(s', t, l);
    }
  }

  // ---- Steps of one thread on one lock ----

  /** Only the current thread has moved, within its operation on lock `l`; perhaps a waiter of `l` was
      woken. */
  ghost predicate Local(s: State, s': State, l: LockId) {
    && s'.idle == s.idle && s'.threads.Keys == s.threads.Keys && s'.locks.Keys == s.locks.Keys
    && s.cur in s.threads && l in s.locks && s.cur != s.idle
    && (forall m :: m in s.locks && m != l ==> s'.locks[m] == s.locks[m])
    && (forall t :: t in s.threads && t != s.cur ==>
          && s'.threads[t].pc == s.threads[t].pc && s'.threads[t].held == s.threads[t].held
          && (s'.threads[t].status == s.threads[t].status
              || (s.threads[t].pc == DownRetest(l) && Awake(s'.threads[t].status))))
    && (s.threads[s.cur].pc.Out? || s.threads[s.cur].pc.l == l)
    && (s'.threads[s.cur].pc.Out? || s'.threads[s.cur].pc.l == l)
    && (forall m :: m != l ==> Held(s', s.cur, m) == Held(s, s.cur, m))
    && Awake(s.threads[s.cur].status)
  }

  lemma LocalPc(s: State, s': State, l: LockId, m: LockId, t: Tid)
    requires Local(s, s', l) && m in s.locks && m != l && LockOK(s, m) && t in s.threads
    ensures PcOK(s', t, m) && (Inside(s', t, m) ==> s.locks[m].owner == Some(t))
    ensures Inside(s, t, m) == Inside(s', t, m) && (s'.threads[t].pc == s.threads[t].pc || t == s.cur)
    ensures t == s.cur && Inside(s, t, m) ==>
              s.threads[t].pc !in {AcqSetHolder(m), AcqCheck(m), AcqSetNr(m), RelClearNr(m), Up(m)}
  {
    assert PcOK(s, t, m);
  }

  /** The other locks do not notice. */
  lemma LocalOther(s: State, s': State, l: LockId, m: LockId)
    requires Local(s, s', l) && m in s.locks && m != l && LockOK(s, m)
    ensures LockOK(s', m)
  {
    hide Held, PcOK, Inside;
    var k := s.locks[m];
    forall t | t in s'.threads
      ensures PcOK(s', t, m) && (Inside(s', t, m) ==> k.owner == Some(t))
    {
      LocalPc(s, s', l, m, t);
    }
    if k.owner != None {
      LocalOwner(s, s', l, m, k.owner.value);
    }
    if k.value == 1 && k.waiters != [] {
      var t :| Retests(s, t, m);
      assert t != s.cur;
      assert Retests(s', t, m);
    }
  }

  lemma LocalOwner(s: State, s': State, l: LockId, m: LockId, t: Tid)
    requires Local(s, s', l) && m in s.locks && m != l && LockOK(s, m) && OwnerOK(s, t, m)
    ensures OwnerOK(s', t, m)
  {
    hide LockOK, PcOK;
    LocalPc(s, s', l, m, t);
  }

  lemma LocalThread(s: State, s': State, l: LockId, t: Tid)
    requires LocksOK(s) && Local(s, s', l) && t in s'.threads
    requires t in s.locks[l].waiters ==> t in s'.locks[l].waiters || s'.threads[t].status != Blocked
    requires Awake(s'.threads[s.cur].status) || (s'.threads[s.cur].pc == DownRetest(l) && s.cur in s'.locks[l].waiters)
    requires s'.threads[s.cur].status != Waiting && s'.threads[s.cur].status != Hanging
    ensures ThreadOK(s', t)
  {
    hide LockOK, Held;
    assert ThreadOK(s, t);
  }

  lemma LocalKeeps(s: State, s': State, l: LockId)
    requires LocksOK(s) && Local(s, s', l) && LockOK(s', l)
    requires forall t :: t in s.locks[l].waiters && t in s'.threads ==>
               t in s'.locks[l].waiters || s'.threads[t].status != Blocked
    requires Awake(s'.threads[s.cur].status) || (s'.threads[s.cur].pc == DownRetest(l) && s.cur in s'.locks[l].waiters)
    requires s'.threads[s.cur].status != Waiting && s'.threads[s.cur].status != Hanging
    ensures LocksOK(s')
  {
    hide LockOK, Held, ThreadOK;
    forall m | m in s'.locks
      ensures LockOK(s', m)
    {
      if m != l {
        LocalOther(s, s', l, m);
      }
    }
    forall t | t in s'.threads
      ensures ThreadOK(s', t)
    {
      LocalThread(s, s', l, t);
    }
  }

  /** The current thread went on without being descheduled, and with no effect on the waiters. */
  ghost predicate Moved(s: State, s': State, l: LockId) {
    && Local(s, s', l) && s'.ready == s.ready && s'.cur == s.cur
    && (forall t :: t in s.threads && t != s.cur ==> s'.threads[t] == s.threads[t])
    && s'.threads[s.cur].status == s.threads[s.cur].status && s'.threads[s.cur].ticks == s.threads[s.cur].ticks
    && s'.threads[s.cur].priority == s.threads[s.cur].priority
    && s'.locks[l].waiters == s.locks[l].waiters && !s.threads[s.cur].pc.DownRetest?
  }

  lemma MovedKeeps(s: State, s': State, l: LockId)
    requires Inv(s) && Moved(s, s', l)
    requires LockOK(s', l)
    ensures Inv(s')
  {
    hide LockOK, ThreadOK, Held;
    MovedSched(s, s', l);
    MovedWaiters(s, s', l);
    LocalKeeps(s, s', l);
  }

  lemma MovedWaiters(s: State, s': State, l: LockId)
    requires SchedOK(s) && Moved(s, s', l)
    ensures Awake(s'.threads[s.cur].status)
  {
  }

  lemma MovedSched(s: State, s': State, l: LockId)
    requires SchedOK(s) && Moved(s, s', l)
    ensures SchedOK(s')
  {
  }

  /** What is left to show for a statement that leaves value, owner and waiters alone: whoever is the
      owner, the current thread's view and, if it is the owner, the lock. */
  lemma MovedLock(s: State, s': State, l: LockId)
    requires Moved(s, s', l) && LockOK(s, l)
    requires s'.locks[l].value == s.locks[l].value && s'.locks[l].owner == s.locks[l].owner
    requires PcOK(s', s.cur, l)
    requires if s.locks[l].owner == Some(s.cur) then OwnerOK(s', s.cur, l)
             else s'.locks[l] == s.locks[l] && !Inside(s', s.cur, l)
    ensures LockOK(s', l)
  {
    var k := s.locks[l];
    forall t | t in s'.threads
      ensures PcOK(s', t, l) && (Inside(s', t, l) ==> k.owner == Some(t))
    {
      assert PcOK(s, t, l);
    }
    if k.value == 1 && k.waiters != [] {
      var t :| Retests(s, t, l);
      assert Retests(s', t, l);
    }
  }

  /** What the invariant says of the current thread and its lock. */
  lemma CurrentFacts(s: State)
    requires Inv(s) && s.cur != s.idle && !s.threads[s.cur].pc.Out?
    ensures Runnable(s) && s.threads[s.cur].pc.l in s.locks
    ensures forall t :: t in s.locks[s.threads[s.cur].pc.l].waiters ==> t in s.threads
    ensures LockOK(s, s.threads[s.cur].pc.l) && PcOK(s, s.cur, s.threads[s.cur].pc.l)
    ensures Awake(s.threads[s.cur].status)
    ensures var k := s.locks[s.threads[s.cur].pc.l];
            if k.owner == Some(s.cur) then OwnerOK(s, s.cur, s.threads[s.cur].pc.l)
            else !Inside(s, s.cur, s.threads[s.cur].pc.l) && k.holder != Some(s.cur)
  {
    WaitersExist(s);
    assert LockOK(s, s.threads[s.cur].pc.l);
  }

  /** Every statement that neither takes nor gives the semaphore. */
  lemma PlainStep(s: State)
    requires Inv(s) && s.cur != s.idle && !s.threads[s.cur].pc.Out?
    requires !s.threads[s.cur].pc.DownTest? && !s.threads[s.cur].pc.DownRetest? && !s.threads[s.cur].pc.Up?
    ensures s.threads[s.cur].pc.l in s.locks && Runnable(s)
    ensures forall t :: t in s.locks[s.threads[s.cur].pc.l].waiters ==> t in s.threads
    ensures Advance(s).Next? && Inv(Advance(s).s)
  {
    hide LockOK, SchedOK, LocksOK;
    CurrentFacts(s);
    var l := s.threads[s.cur].pc.l;
    var o := Advance(s);
    PlainMoves(s);
    MovedLock(s, o.s, l);
    MovedKeeps(s, o.s, l);
  }

  /** What `CurrentFacts` says, for a thread at a statement that leaves the semaphore alone. */
  ghost predicate AtPlain(s: State) {
    && Runnable(s) && s.cur != s.idle && !s.threads[s.cur].pc.Out? && s.threads[s.cur].pc.l in s.locks
    && !s.threads[s.cur].pc.DownTest? && !s.threads[s.cur].pc.DownRetest? && !s.threads[s.cur].pc.Up?
    && (forall t :: t in s.locks[s.threads[s.cur].pc.l].waiters ==> t in s.threads)
    && PcOK(s, s.cur, s.threads[s.cur].pc.l) && Awake(s.threads[s.cur].status)
    && var k := s.locks[s.threads[s.cur].pc.l];
       if k.owner == Some(s.cur) then OwnerOK(s, s.cur, s.threads[s.cur].pc.l)
       else !Inside(s, s.cur, s.threads[s.cur].pc.l) && k.holder != Some(s.cur)
  }

  ghost predicate PlainResult(s: State, o: Outcome)
    requires AtPlain(s)
  {
    && o.Next?
    && var l, s' := s.threads[s.cur].pc.l, o.s;
       && Moved(s, s', l)
       && s'.locks[l].value == s.locks[l].value && s'.locks[l].owner == s.locks[l].owner
       && PcOK(s', s.cur, l)
       && if s.locks[l].owner == Some(s.cur) then OwnerOK(s', s.cur, l)
          else s'.locks[l] == s.locks[l] && !Inside(s', s.cur, l)
  }

  /** The statements of `lock_acquire` around `sema_down`, and those of `lock_release` before `sema_up`. */
  lemma PlainMoves(s: State)
    requires AtPlain(s)
    ensures PlainResult(s, Advance(s))
  {
    var pc := s.threads[s.cur].pc;
    if pc.AcqTest? {
      PlainTest(s);
    } else if pc.AcqInc? {
      PlainAgain(s);
    } else if pc.AcqSetHolder? || pc.AcqCheck? || pc.AcqSetNr? {
      PlainTaken(s);
    } else if pc.RelCheck? || pc.RelTest? || pc.RelDec? {
      PlainGive(s);
    } else {
      PlainLast(s);
    }
  }

  lemma PlainTest(s: State)
    requires AtPlain(s) && s.threads[s.cur].pc.AcqTest?
    ensures PlainResult(s, Advance(s))
  {
  }

  lemma PlainAgain(s: State)
    requires AtPlain(s) && s.threads[s.cur].pc.AcqInc?
    ensures PlainResult(s, Advance(s))
  {
  }

  lemma PlainTaken(s: State)
    requires AtPlain(s) && (s.threads[s.cur].pc.AcqSetHolder? || s.threads[s.cur].pc.AcqCheck?
                            || s.threads[s.cur].pc.AcqSetNr?)
    ensures PlainResult(s, Advance(s))
  {
  }

  lemma PlainGive(s: State)
    requires AtPlain(s) && (s.threads[s.cur].pc.RelCheck? || s.threads[s.cur].pc.RelTest?
                            || s.threads[s.cur].pc.RelDec?)
    ensures PlainResult(s, Advance(s))
  {
  }

  lemma PlainLast(s: State)
    requires AtPlain(s) && (s.threads[s.cur].pc.RelCheckOne? || s.threads[s.cur].pc.RelClearHolder?
                            || s.threads[s.cur].pc.RelClearNr?)
    ensures PlainResult(s, Advance(s))
  {
  }

  // ---- The semaphore ----

  /** The value was 1: the current thread takes the semaphore. */
  lemma DownTakes(s: State, l: LockId)
    requires Inv(s) && s.cur != s.idle && l in s.locks && s.locks[l].value != 0
    requires s.threads[s.cur].pc == DownTest(l) || s.threads[s.cur].pc == DownRetest(l)
    ensures Runnable(s) && Down(s, l).Next? && Inv(Down(s, l).s)
  {
    hide ThreadOK;
    CurrentFacts(s);
    TakenLock(s, l);
    LocalKeeps(s, Down(s, l).s, l);
    TakenSched(s, l);
  }

  lemma TakenSched(s: State, l: LockId)
    requires SchedOK(s) && l in s.locks && s.locks[l].value == 1
    ensures Runnable(s) && SchedOK(Down(s, l).s)
  {
  }

  lemma TakenLock(s: State, l: LockId)
    requires Runnable(s) && s.cur != s.idle && l in s.locks && s.locks[l].value != 0
    requires s.threads[s.cur].pc == DownTest(l) || s.threads[s.cur].pc == DownRetest(l)
    requires LockOK(s, l) && s.threads[s.cur].status == Running
    ensures Down(s, l).Next? && Local(s, Down(s, l).s, l) && LockOK(Down(s, l).s, l)
    ensures Down(s, l).s.locks[l].waiters == s.locks[l].waiters
    ensures Down(s, l).s.threads[s.cur].status == Running
  {
    var s' := Down(s, l).s;
    assert PcOK(s, s.cur, l);
    forall t | t in s'.threads
      ensures PcOK(s', t, l) && (Inside(s', t, l) ==> s'.locks[l].owner == Some(t))
    {
      assert PcOK(s, t, l);
    }
    assert OwnerOK(s', s.cur, l);
  }

  /** The value was 0: the current thread goes to the end of the waiters and another one runs. */
  lemma DownWaits(s: State, l: LockId)
    requires Inv(s) && s.cur != s.idle && l in s.locks && s.locks[l].value == 0
    requires s.threads[s.cur].pc == DownTest(l) || s.threads[s.cur].pc == DownRetest(l)
    ensures Runnable(s) && Down(s, l).Next? && Inv(Down(s, l).s)
  {
    hide ThreadOK, Dispatch;
    CurrentFacts(s);
    var s1 := Queued(s, l);
    QueuedLock(s, l);
    QueuedLockOK(s, l);
    LocalKeeps(s, s1, l);
    QueuedParked(s, l);
    ParkedDispatch(s1);
  }

  lemma QueuedParked(s: State, l: LockId)
    requires SchedOK(s) && s.cur != s.idle && l in s.locks
    ensures Parked(Queued(s, l)) && Runnable(Queued(s, l))
  {
  }

  /** Dispatching from a state in which nobody runs keeps everything. */
  lemma ParkedDispatch(s: State)
    requires Parked(s) && LocksOK(s) && Runnable(s)
    ensures Dispatch(s).Next? && Inv(Dispatch(s).s)
  {
    DispatchRuns(s);
    hide Dispatch, LocksOK, SchedOK;
    DispatchReschedules(s);
    RescheduledKeeps(s, Dispatch(s).s);
  }

  lemma DispatchReschedules(s: State)
    requires Parked(s)
    ensures Runnable(s) ==> Dispatch(s).Next? && Rescheduled(s, Dispatch(s).s)
  {
    if Runnable(s) {
      DispatchRuns(s);
    }
  }

  lemma SamePc(s: State, s': State, t: Tid, l: LockId)
    requires t in s.threads && t in s'.threads
    requires s'.threads[t].pc == s.threads[t].pc && s'.threads[t].held == s.threads[t].held
    ensures PcOK(s', t, l) == PcOK(s, t, l) && Inside(s', t, l) == Inside(s, t, l)
    ensures l in s.locks && l in s'.locks && s'.locks[l].holder == s.locks[l].holder
            && s'.locks[l].nr == s.locks[l].nr ==>
              OwnerOK(s', t, l) == OwnerOK(s, t, l)
  {
  }

  /** A thread before its `sema_down` does not own the lock. */
  lemma NotInside(s: State, l: LockId)
    requires s.cur in s.threads && l in s.locks && LockOK(s, l)
    requires s.threads[s.cur].pc == DownTest(l) || s.threads[s.cur].pc == DownRetest(l)
    ensures s.threads[s.cur].status == Running ==> s.cur !in s.locks[l].waiters
    ensures Held(s, s.cur, l) == 0 && !Inside(s, s.cur, l) && s.locks[l].owner != Some(s.cur)
  {
    assert PcOK(s, s.cur, l);
  }

  lemma QueuedLock(s: State, l: LockId)
    requires Runnable(s) && s.cur != s.idle && l in s.locks && s.locks[l].value == 0
    requires s.threads[s.cur].pc == DownTest(l) || s.threads[s.cur].pc == DownRetest(l)
    requires LockOK(s, l) && s.threads[s.cur].status == Running
    ensures s.cur !in s.locks[l].waiters && Local(s, Queued(s, l), l)
  {
    hide Inside, PcOK, OwnerOK, LockOK;
    NotInside(s, l);
  }

  lemma QueuedLockOK(s: State, l: LockId)
    requires Runnable(s) && s.cur != s.idle && l in s.locks && s.locks[l].value == 0
    requires s.threads[s.cur].pc == DownTest(l) || s.threads[s.cur].pc == DownRetest(l)
    requires LockOK(s, l) && s.threads[s.cur].status == Running
    ensures LockOK(Queued(s, l), l)
  {
    var u := s.locks[l].owner.value;
    assert OwnerOK(s, u, l);
    NotInside(s, l);
    var s' := Queued(s, l);
    NowRetests(s, s', l);
    hide Inside, PcOK, OwnerOK, Held;
    SamePc(s, s', u, l);
    forall t | t in s'.threads
      ensures PcOK(s', t, l) && (Inside(s', t, l) ==> s'.locks[l].owner == Some(t))
    {
      if t != s.cur {
        SamePc(s, s', t, l);
      }
    }
  }

  lemma NowRetests(s: State, s': State, l: LockId)
    requires s.cur in s.threads && s.cur in s'.threads && s'.threads[s.cur].pc == DownRetest(l)
    requires s'.threads[s.cur].held == s.threads[s.cur].held && Held(s, s.cur, l) == 0
    ensures PcOK(s', s.cur, l) && !Inside(s', s.cur, l)
  {
  }

  /** `sema_up` by the owner: the first waiter becomes ready and has to test again. */
  lemma UpWakes(s: State, l: LockId)
    requires Inv(s) && s.cur != s.idle && l in s.locks && s.threads[s.cur].pc == Up(l)
    ensures Runnable(s) && (forall t :: t in s.locks[l].waiters ==> t in s.threads)
    ensures SemaUp(s, l).Next? && Inv(SemaUp(s, l).s)
    ensures SemaUp(s, l).s.cur == s.cur
    ensures s.locks[l].waiters != [] ==> SemaUp(s, l).s.ready == [s.locks[l].waiters[0]] + s.ready
  {
    hide ThreadOK, Held, LockOK, Inside, PcOK, OwnerOK;
    CurrentFacts(s);
    var k := s.locks[l];
    UpLock(s, l);
    UpLocal(s, l);
    if k.waiters != [] {
      UnblockKeeps(s, k.waiters[0]);
    }
    UpSched(s, l);
    LocalKeeps(s, SemaUp(s, l).s, l);
  }

  lemma UpSched(s: State, l: LockId)
    requires SchedOK(s) && l in s.locks && s.locks[l].value == 0 && Runnable(s)
    requires forall t :: t in s.locks[l].waiters ==> t in s.threads
    requires s.locks[l].waiters != [] ==> s.locks[l].waiters[0] != s.cur
    requires s.locks[l].waiters != [] ==>
               Unblock(s, s.locks[l].waiters[0]).Next? && SchedOK(Unblock(s, s.locks[l].waiters[0]).s)
    ensures SemaUp(s, l).Next? && SchedOK(SemaUp(s, l).s)
  {
    hide Unblock;
    var o := if s.locks[l].waiters == [] then Next(s) else Unblock(s, s.locks[l].waiters[0]);
    assert SchedOK(o.s);
  }

  /** The lock of a thread that is about to call `sema_up`. */
  lemma UpFacts(s: State, l: LockId)
    requires SchedOK(s) && s.cur != s.idle && l in s.locks && s.threads[s.cur].pc == Up(l)
    requires LockOK(s, l)
    ensures var k := s.locks[l];
            && k.value == 0 && k.holder == None && k.nr == 0 && k.owner == Some(s.cur) && NoDup(k.waiters)
    ensures Held(s, s.cur, l) == 0
    ensures forall t :: t in s.threads ==> PcOK(s, t, l) && (t != s.cur ==> !Inside(s, t, l))
    ensures forall t :: t in s.locks[l].waiters ==>
              t in s.threads && s.threads[t].status == Blocked && s.threads[t].pc == DownRetest(l) && t != s.cur
  {
    assert Inside(s, s.cur, l) && OwnerOK(s, s.cur, l);
  }

  lemma UpLock(s: State, l: LockId)
    requires SchedOK(s) && s.cur != s.idle && l in s.locks && s.threads[s.cur].pc == Up(l)
    requires LockOK(s, l)
    ensures Runnable(s) && forall t :: t in s.locks[l].waiters ==>
              t in s.threads && s.threads[t].status == Blocked && t != s.cur
    ensures s.locks[l].value == 0 && SemaUp(s, l).Next?
    ensures LockOK(SemaUp(s, l).s, l)
  {
    hide Inside, PcOK, OwnerOK, Held;
    UpFacts(s, l);
    Basics(s);
    UpShape(s, l);
    hide SemaUp, SchedOK;
    var k, s' := s.locks[l], SemaUp(s, l).s;
    NowOut(s, s', l);
    forall t | t in s'.threads
      ensures PcOK(s', t, l) && !Inside(s', t, l)
    {
      if t != s.cur {
        SamePc(s, s', t, l);
      }
    }
    if k.waiters != [] {
      assert Retests(s', k.waiters[0], l);
    }
  }

  lemma UpLocal(s: State, l: LockId)
    requires SchedOK(s) && s.cur != s.idle && l in s.locks && s.threads[s.cur].pc == Up(l)
    requires LockOK(s, l)
    ensures Runnable(s) && forall t :: t in s.locks[l].waiters ==>
              t in s.threads && s.threads[t].status == Blocked && t != s.cur
    ensures s.locks[l].value == 0 && SemaUp(s, l).Next?
    ensures Local(s, SemaUp(s, l).s, l)
    ensures SemaUp(s, l).s.threads[s.cur].status == Running
    ensures forall t :: t in s.locks[l].waiters ==>
              t in SemaUp(s, l).s.locks[l].waiters || SemaUp(s, l).s.threads[t].status != Blocked
  {
    hide Inside, PcOK, OwnerOK, SemaUp, SchedOK, LockOK, NoDup;
    UpFacts(s, l);
    Basics(s);
    UpShape(s, l);
  }

  lemma NowOut(s: State, s': State, l: LockId)
    requires s.cur in s.threads && s.cur in s'.threads && s'.threads[s.cur].pc == Out
    requires s'.threads[s.cur].held == s.threads[s.cur].held && Held(s, s.cur, l) == 0
    ensures PcOK(s', s.cur, l) && !Inside(s', s.cur, l)
  {
  }

  /** `sema_up`, field by field. */
  lemma UpShape(s: State, l: LockId)
    requires SchedOK(s) && l in s.locks && Runnable(s)
    requires s.locks[l].value == 0 && NoDup(s.locks[l].waiters)
    requires forall t :: t in s.locks[l].waiters ==> t in s.threads && s.threads[t].status == Blocked && t != s.cur
    ensures SemaUp(s, l).Next?
    ensures var k, s' := s.locks[l], SemaUp(s, l).s;
            && s'.idle == s.idle && s'.threads.Keys == s.threads.Keys && s'.cur == s.cur
            && s'.threads[s.cur] == s.threads[s.cur].(pc := Out)
            && (forall t :: t in s.threads && t != s.cur && (k.waiters == [] || t != k.waiters[0]) ==>
                s'.threads[t] == s.threads[t])
            && (k.waiters != [] ==> s'.threads[k.waiters[0]] == s.threads[k.waiters[0]].(status := Ready))
            && s'.locks == s.locks[l := k.(value := 1, owner := None,
                                           waiters := if k.waiters == [] then [] else k.waiters[1..])]
    ensures forall t :: t in s.locks[l].waiters ==> t == s.locks[l].waiters[0] || t in SemaUp(s, l).s.locks[l].waiters
    ensures forall t :: t in SemaUp(s, l).s.locks[l].waiters ==> t in s.locks[l].waiters && t != s.locks[l].waiters[0]
    ensures NoDup(SemaUp(s, l).s.locks[l].waiters)
  {
    var k := s.locks[l];
    if k.waiters != [] {
      assert k.waiters == [k.waiters[0]] + k.waiters[1..];
    }
  }

  // ---- All steps, all runs ----

  lemma GoKeeps(s: State)
    requires Inv(s) && Enabled(s, Go)
    ensures WellPlaced(s, Go) && Advance(s).Next? && Inv(Advance(s).s)
  {
    assert ThreadOK(s, s.cur);
    WaitersExist(s);
    hide LockOK, SchedOK, LocksOK, ThreadOK;
    var pc := s.threads[s.cur].pc;
    if pc.DownTest? || pc.DownRetest? {
      if s.locks[pc.l].value == 0 {
        DownWaits(s, pc.l);
      } else {
        DownTakes(s, pc.l);
      }
    } else if pc.Up? {
      UpWakes(s, pc.l);
    } else {
      PlainStep(s);
    }
  }

  /** Calling `lock_acquire` or `lock_release`. */
  lemma CallKeeps(s: State, l: LockId, pc: Pc)
    requires Inv(s) && s.cur != s.idle && s.threads[s.cur].pc.Out? && l in s.locks
    requires (pc == AcqTest(l) && Held(s, s.cur, l) < MAX_NR) || (pc == RelCheck(l) && Held(s, s.cur, l) > 0)
    ensures Inv(SetPc(s, pc))
  {
    var s' := SetPc(s, pc);
    assert LockOK(s, l);
    Basics(s);
    hide LockOK, SchedOK, LocksOK;
    CallMoves(s, l, pc);
    CallFacts(s, l, pc);
    MovedLock(s, s', l);
    MovedKeeps(s, s', l);
  }

  lemma CallMoves(s: State, l: LockId, pc: Pc)
    requires s.cur in s.threads && s.cur != s.idle && s.threads[s.cur].pc.Out? && l in s.locks
    requires s.threads[s.cur].status == Running && !pc.Out? && pc.l == l
    ensures Moved(s, SetPc(s, pc), l)
  {
  }

  lemma CallFacts(s: State, l: LockId, pc: Pc)
    requires s.cur in s.threads && s.threads[s.cur].pc.Out? && l in s.locks && LockOK(s, l)
    requires (pc == AcqTest(l) && Held(s, s.cur, l) < MAX_NR) || (pc == RelCheck(l) && Held(s, s.cur, l) > 0)
    ensures PcOK(SetPc(s, pc), s.cur, l)
    ensures if s.locks[l].owner == Some(s.cur) then OwnerOK(SetPc(s, pc), s.cur, l) else !Inside(SetPc(s, pc), s.cur, l)
  {
    if s.locks[l].owner == Some(s.cur) {
      assert OwnerOK(s, s.cur, l);
    }
  }

  lemma ClockKeeps(s: State)
    requires Inv(s)
    ensures Runnable(s) && Tick(s).Next? && Inv(Tick(s).s)
  {
    TickKeeps(s);
    Basics(s);
    hide LocksOK, Tick, SchedOK;
    assert Rescheduled(s, Tick(s).s);
    RescheduledKeeps(s, Tick(s).s);
  }

  lemma YieldStep(s: State)
    requires Inv(s)
    ensures Runnable(s) && Yield(s).Next? && Inv(Yield(s).s)
  {
    YieldKeeps(s);
    Basics(s);
    hide LocksOK, Yield, SchedOK;
    assert Rescheduled(s, Yield(s).s);
    RescheduledKeeps(s, Yield(s).s);
  }

  lemma BlockStep(s: State, st: Status)
    requires Inv(s)
    requires if s.cur == s.idle then st == Blocked else s.threads[s.cur].pc.Out? && (st == Waiting || st == Hanging)
    ensures Runnable(s) && Block(s, st).Next? && Inv(Block(s, st).s)
  {
    BlockKeeps(s, st);
    Basics(s);
    hide LocksOK, Block, SchedOK;
    assert Rescheduled(s, Block(s, st).s);
    RescheduledKeeps(s, Block(s, st).s);
  }

  lemma WakeStep(s: State, t: Tid)
    requires Inv(s) && t in s.threads && (s.threads[t].status == Waiting || s.threads[t].status == Hanging)
    ensures Unblock(s, t).Next? && Inv(Unblock(s, t).s)
  {
    assert ThreadOK(s, t);
    UnblockKeeps(s, t);
    hide LocksOK, Unblock, SchedOK;
    assert Rescheduled(s, Unblock(s, t).s);
    RescheduledKeeps(s, Unblock(s, t).s);
  }

  lemma BeginStep(s: State, t: Tid, prio: nat)
    requires Inv(s) && t !in s.threads && prio < 0x100
    ensures Start(s, t, prio).Next? && Inv(Start(s, t, prio).s)
  {
    StartKeeps(s, t, prio);
    var s' := Start(s, t, prio).s;
    forall u | u in s'.threads
      ensures ThreadOK(s', u)
    {
      assert u != t ==> ThreadOK(s, u);
    }
    forall l | l in s'.locks
      ensures LockOK(s', l)
    {
      BeginLock(s, t, prio, l);
    }
  }

  lemma BeginLock(s: State, t: Tid, prio: nat, l: LockId)
    requires t !in s.threads && t !in s.ready && l in s.locks && LockOK(s, l)
    ensures LockOK(Start(s, t, prio).s, l)
  {
    hide SchedOK;
    var k, s' := s.locks[l], Start(s, t, prio).s;
    forall u | u in s'.threads
      ensures PcOK(s', u, l) && (Inside(s', u, l) ==> k.owner == Some(u))
    {
      assert u != t ==> PcOK(s, u, l);
    }
    if k.value == 1 && k.waiters != [] {
      var u :| Retests(s, u, l);
      assert Retests(s', u, l);
    }
  }

  lemma InvBasics(s: State)
    requires Inv(s)
    ensures Runnable(s) && SchedOK(s)
  {
    Basics(s);
  }

  lemma GoStepKeeps(s: State)
    requires Inv(s) && Enabled(s, Go)
    ensures Step(s, Go).Next? && Inv(Step(s, Go).s)
  {
    hide Inv, Enabled, Advance, WellPlaced;
    GoKeeps(s);
  }

  lemma CallStepKeeps(s: State, a: Action)
    requires Inv(s) && Enabled(s, a) && (a.Acquire? || a.Release?)
    ensures Step(s, a).Next? && Inv(Step(s, a).s)
  {
    hide Inv, Runnable, Held, SetPc;
    InvBasics(s);
    if a.Acquire? {
      CallKeeps(s, a.l, AcqTest(a.l));
    } else {
      CallKeeps(s, a.l, RelCheck(a.l));
    }
  }

  lemma SchedStepKeeps(s: State, a: Action)
    requires Inv(s) && Enabled(s, a) && !a.Go? && !a.Acquire? && !a.Release?
    ensures Step(s, a).Next? && Inv(Step(s, a).s)
  {
    hide Inv, Runnable, Tick, Yield, Block, Unblock, Start, Held;
    InvBasics(s);
    match a
    case Clock => ClockKeeps(s);
    case YieldNow => YieldStep(s);
    case Wait(st) => BlockStep(s, st);
    case Wake(t) => WakeStep(s, t);
    case IdleBlock => BlockStep(s, Blocked);
    case Begin(t, prio) => BeginStep(s, t, prio);
  }

  /** No step fails an assertion, and every step keeps the invariant. */
  lemma StepKeeps(s: State, a: Action)
    requires Inv(s) && Enabled(s, a)
    ensures Step(s, a).Next? && Inv(Step(s, a).s)
  {
    hide Inv, Enabled, Step;
    if a.Go? {
      GoStepKeeps(s);
    } else if a.Acquire? || a.Release? {
      CallStepKeeps(s, a);
    } else {
      SchedStepKeeps(s, a);
    }
  }

  /** The kernel after `thread_init`: the main thread runs, the idle thread is ready, all locks are free. */
  ghost predicate Initial(s: State) {
    && s.cur != s.idle && s.threads.Keys == {s.cur, s.idle} && s.ready == [s.idle]
    && s.threads[s.cur] == Thread(Running, 31, 31, Out, map[])
    && s.threads[s.idle] == Thread(Ready, 10, 10, Out, map[])
    && forall l :: l in s.locks ==> s.locks[l] == Lock(None, 0, 1, [], None)
  }

  lemma InitialKeeps(s: State)
    requires Initial(s)
    ensures Inv(s)
  {
  }

  /** A run: any enabled actions, one after the other. */
  ghost predicate Run(ss: seq<State>, acts: seq<Action>) {
    && |ss| == |acts| + 1 && Initial(ss[0])
    && forall i :: 0 <= i < |acts| ==> Follows(ss[i], acts[i], ss[i + 1])
  }

  ghost predicate Follows(s: State, a: Action, s': State) {
    Enabled(s, a) && Step(s, a) == Next(s')
  }

  lemma {:induction false} RunKeeps(ss: seq<State>, acts: seq<Action>, i: nat)
    requires Run(ss, acts) && i < |ss|
    ensures Inv(ss[i])
  {
    hide Inv, Enabled, Initial, Step;
    if i == 0 {
      InitialKeeps(ss[0]);
    } else {
      RunKeeps(ss, acts, i - 1);
      assert Follows(ss[i - 1], acts[i - 1], ss[i]);
      StepKeeps(ss[i - 1], acts[i - 1]);
    }
  }

  /** Whatever happens next in any run, no assertion of `thread.c` or `sync.c` fails. */
  lemma RunNeverPanics(ss: seq<State>, acts: seq<Action>, a: Action)
    requires Run(ss, acts) && Enabled(ss[|acts|], a)
    ensures Step(ss[|acts|], a).Next?
  {
    hide Inv, Enabled, Initial, Step;
    RunKeeps(ss, acts, |acts|);
    StepKeeps(ss[|acts|], a);
  }

  // ---- What holds in every state of every run ----

  /** At most one thread is between its `sema_down` and its `sema_up`. */
  lemma MutualExclusion(ss: seq<State>, acts: seq<Action>, i: nat, l: LockId, t: Tid, u: Tid)
    requires Run(ss, acts) && i < |ss|
    requires l in ss[i].locks && t in ss[i].threads && u in ss[i].threads && Inside(ss[i], t, l) && Inside(ss[i], u, l)
    ensures t == u
  {
    RunKeeps(ss, acts, i);
    hide Run;
    assert LockOK(ss[i], l);
  }

  /** The value of the semaphore is 1 or 0, and it is 0 iff somebody is inside. */
  lemma ValueTellsInside(ss: seq<State>, acts: seq<Action>, i: nat, l: LockId)
    requires Run(ss, acts) && i < |ss| && l in ss[i].locks
    ensures ss[i].locks[l].value == 0 || ss[i].locks[l].value == 1
    ensures ss[i].locks[l].value == 0 <==> exists t :: t in ss[i].threads && Inside(ss[i], t, l)
  {
    RunKeeps(ss, acts, i);
    hide Run;
    var s := ss[i];
    assert LockOK(s, l);
    if s.locks[l].value == 0 {
      assert OwnerOK(s, s.locks[l].owner.value, l);
    }
  }

  /** Once an acquire is complete, `holder` and `holder_repeat_nr` are the thread and the number of its
      outstanding acquires. */
  lemma HolderCounts(ss: seq<State>, acts: seq<Action>, i: nat, l: LockId, t: Tid)
    requires Run(ss, acts) && i < |ss| && l in ss[i].locks && t in ss[i].threads && Held(ss[i], t, l) > 0
    ensures ss[i].locks[l].holder == Some(t) && ss[i].locks[l].nr == Held(ss[i], t, l)
  {
    RunKeeps(ss, acts, i);
    hide Run;
    HolderIs(ss[i], l, t);
  }

  lemma HolderIs(s: State, l: LockId, t: Tid)
    requires Inv(s) && l in s.locks && t in s.threads && Held(s, t, l) > 0
    ensures s.locks[l].holder == Some(t) && s.locks[l].nr == Held(s, t, l)
  {
    assert LockOK(s, l);
    assert Inside(s, t, l);
  }

  /** No thread is on two lists: on the ready list and among the waiters of a lock, or among those of two
      locks, and on each list it is at most once. */
  lemma OnOneList(ss: seq<State>, acts: seq<Action>, i: nat, l: LockId, t: Tid)
    requires Run(ss, acts) && i < |ss| && l in ss[i].locks && t in ss[i].locks[l].waiters
    ensures t !in ss[i].ready && forall k :: k in ss[i].locks && t in ss[i].locks[k].waiters ==> k == l
    ensures NoDup(ss[i].locks[l].waiters) && NoDup(ss[i].ready)
  {
    RunKeeps(ss, acts, i);
    hide Run;
    assert forall k :: k in ss[i].locks ==> LockOK(ss[i], k);
  }

  /** No wake-up is lost: if the semaphore is free although threads wait, one that was taken off the
      waiters is about to test again. */
  lemma NoLostWakeup(ss: seq<State>, acts: seq<Action>, i: nat, l: LockId)
    requires Run(ss, acts) && i < |ss| && l in ss[i].locks
    requires ss[i].locks[l].value == 1 && ss[i].locks[l].waiters != []
    ensures exists t :: Retests(ss[i], t, l)
  {
    RunKeeps(ss, acts, i);
    hide Run;
    assert LockOK(ss[i], l);
  }

  /** Without the rule that threads release only what they hold, the first assertion of `lock_release`
      fails exactly when the rule is broken. */
  lemma ReleaseFailsIff(s: State, l: LockId)
    requires Inv(s) && s.cur != s.idle && s.threads[s.cur].pc.Out? && l in s.locks
    ensures var s1 := SetPc(s, RelCheck(l));
            && Runnable(s1) && (forall t :: t in s1.locks[l].waiters ==> t in s1.threads)
            && (Advance(s1).Panic? <==> Held(s, s.cur, l) == 0)
  {
    ReleaseFacts(s, l);
    hide Inv, LockOK, Held, Advance, Runnable, SetPc;
    CheckStep(s, l);
    if Held(s, s.cur, l) > 0 {
      HolderIs(s, l, s.cur);
    }
  }

  lemma CheckStep(s: State, l: LockId)
    requires Runnable(s) && l in s.locks && forall t :: t in s.locks[l].waiters ==> t in s.threads
    ensures var s1 := SetPc(s, RelCheck(l));
            && Runnable(s1) && s1.locks == s.locks && s1.cur == s.cur && s1.threads[s.cur].pc == RelCheck(l)
            && (forall t :: t in s1.locks[l].waiters ==> t in s1.threads)
            && (Advance(s1).Panic? <==> s.locks[l].holder != Some(s.cur))
  {
    hide Down, SemaUp;
  }

  lemma ReleaseFacts(s: State, l: LockId)
    requires Inv(s) && l in s.locks && s.threads[s.cur].pc.Out?
    ensures Runnable(s) && forall t :: t in s.locks[l].waiters ==> t in s.threads
    ensures s.locks[l].holder == Some(s.cur) ==> Held(s, s.cur, l) > 0
  {
    InvBasics(s);
    assert LockOK(s, l);
    var k := s.locks[l];
    if k.holder == Some(s.cur) {
      assert OwnerOK(s, s.cur, l);
    }
  }

  /** A woken waiter is the next thread to run, even before those that have been ready for longer. */
  lemma WokenRunsNext(s: State, l: LockId)
    requires Inv(s) && s.cur != s.idle && l in s.locks && s.threads[s.cur].pc == Up(l) && s.locks[l].waiters != []
    ensures Runnable(s) && (forall t :: t in s.locks[l].waiters ==> t in s.threads) && SemaUp(s, l).Next?
    ensures SchedOK(SemaUp(s, l).s) && SemaUp(s, l).s.ready != []
    ensures Ticks(SemaUp(s, l).s, s.threads[s.cur].ticks + 1).cur == s.locks[l].waiters[0]
  {
    CurrentFacts(s);
    hide SemaUp, LockOK, LocksOK, SchedOK, DelayOf, Ticks, PcOK, Inside, OwnerOK;
    UpWakes(s, l);
    UpFacts(s, l);
    UpShape(s, l);
    var s1 := SemaUp(s, l).s;
    FirstDelay(s1);
    WaitsExactly(s1, 0, s.threads[s.cur].ticks + 1);
  }

  lemma FirstDelay(s: State)
    requires SchedOK(s) && s.ready != []
    ensures Delay(s, 0) == s.threads[s.cur].ticks + 1
  {
    assert s.ready[..0] == [];
  }
}
