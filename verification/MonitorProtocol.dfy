/**
  The win32 Monitor of the debug agent: a mutex made of an interlocked counter and an
  auto-reset event, and a condition variable made of tickets, a notification
  counter and a manual-reset event. Any number of threads call lock, unlock,
  wait, notify and notifyAll in any interleaving of the shared operations.
 */
module MonitorProtocol {
  import opened Words
  import opened Wrappers

  type Tid = nat

  /** Why a thread enters or leaves the lock: for its caller, or inside wait(), with the value
      of the counter saved when the wait began. */
  datatype Cause = User | Waiter(c: int, timed: bool, timedOut: bool)

  datatype Phase =
    | Outside
    | Entering(why: Cause)      // in lock(), before InterlockedIncrement
    | Blocked(why: Cause)       // in lock(), in WaitForSingleObject(_lock_event)
    | Acquired(why: Cause)      // in lock(), before setOwner(self)
    | Inside(why: Cause)        // lock() has returned
    | Notifying(all: bool)      // in notify() or notifyAll(), _wait_event set, counters not yet
    | Consumed(taker: Cause)    // in wait(), tickets taken down to zero, event not yet reset
    | Leaving(why: Cause)       // in unlock(), before setOwner(NULL)
    | Releasing(why: Cause)     // in unlock(), before InterlockedDecrement
    | Signalling(why: Cause)    // in unlock(), before SetEvent(_lock_event)
    | Sleeping(c: int, timed: bool)   // in wait(), in WaitForSingleObject(_wait_event)

  /** The fields of the Monitor. `counter` counts all notifications; the code has its low 32 bits. `issued` and `woken`
      count tickets and are not read by the code. */
  datatype Fields = Fields(lockCount: int, owner: Option<Tid>, lockEvent: bool,
                           waitEvent: bool, counter: int, tickets: int, waiters: int,
                           issued: int, woken: int)

  datatype State = State(f: Fields, threads: map<Tid, Phase>)

  /** The choices left open by the code: which operation comes next, and how a Win32 call ends. */
  datatype Action = Lock | Unlock | Wait(timed: bool) | Notify(all: bool) | Advance | EventFails | TimesOut

  function ThreadStep(f: Fields, t: Tid, p: Phase, a: Action): Option<(Fields, Phase)> {
    match (p, a)
    case (Outside, Lock) => Some((f, Entering(User)))
    case (Entering(why), Advance) =>
      var n := f.lockCount + 1;
      Some((f.(lockCount := n), if n == 0 then Acquired(why) else Blocked(why)))
    case (Blocked(why), Advance) =>
      if f.lockEvent then Some((f.(lockEvent := false), Acquired(why))) else None
    case (Acquired(why), Advance) => Some((f.(owner := Some(t)), Inside(why)))

    case (Inside(User), Unlock) => Some((f, Leaving(User)))
    case (Leaving(why), Advance) => Some((f.(owner := None), Releasing(why)))
    case (Releasing(why), Advance) =>
      var n := f.lockCount - 1;
      Some((f.(lockCount := n), if n >= 0 then Signalling(why) else Left(why)))
    case (Signalling(why), Advance) => Some((f.(lockEvent := true), Left(why)))

    case (Inside(User), Wait(timed)) =>
      Some((f.(waiters := f.waiters + 1), Leaving(Waiter(f.counter, timed, false))))
    case (Sleeping(c, timed), Advance) =>
      if f.waitEvent then Some((f, Entering(Waiter(c, timed, false)))) else None
    case (Sleeping(c, timed), TimesOut) =>
      if timed then Some((f, Entering(Waiter(c, timed, true)))) else None
    case (Inside(Waiter(c, timed, timedOut)), Advance) =>
      if f.tickets != 0 && !SameWord(f.counter, c) then
        var g := f.(waiters := f.waiters - 1, tickets := f.tickets - 1, woken := f.woken + 1);
        Some((g, if g.tickets == 0 then Consumed(p.why) else Inside(User)))
      else if timedOut then Some((f.(waiters := f.waiters - 1), Inside(User)))
      else Some((f, Leaving(Waiter(c, timed, false))))
    case (Consumed(_), Advance) => Some((f.(waitEvent := false), Inside(User)))

    case (Inside(User), Notify(all)) =>
      if f.waiters > (if all then 0 else f.tickets) then Some((f.(waitEvent := true), Notifying(all)))
      else Some((f, p))
    case (Inside(User), EventFails) => Some((f, p))      // SetEvent failed: notify returns false
    case (Notifying(all), Advance) =>
      var n := if all then f.waiters else f.tickets + 1;
      Some((f.(tickets := n, counter := f.counter + 1, issued := f.issued + n - f.tickets), Inside(User)))
    case _ => None
  }

  /** Where unlock() returns to. */
  function Left(why: Cause): Phase {
    match why
    case User => Outside
    case Waiter(c, timed, _) => Sleeping(c, timed)
  }

  ghost predicate StepBy(s: State, s': State, t: Tid, a: Action)
  {
    && t in s.threads
    && var r := ThreadStep(s.f, t, s.threads[t], a);
       r.Some? && s' == State(r.value.0, s.threads[t := r.value.1])
  }

  ghost predicate Step(s: State, s': State)
  {
    exists t, a :: StepBy(s, s', t, a)
  }

  ghost predicate Init(s: State)
  {
    && s.f == Fields(-1, None, false, false, 0, 0, 0, 0, 0)
    && forall t :: t in s.threads ==> s.threads[t] == Outside
  }

  ghost predicate Run(run: seq<State>)
  {
    && |run| > 0 && Init(run[0])
    && forall i :: 0 <= i < |run| - 1 ==> Step(run[i], run[i + 1])
  }

  // --------------------------------------------------------------------------
  // Counting threads

  ghost function Having(threads: map<Tid, Phase>, q: Phase -> bool): set<Tid> {
    set t | t in threads && q(threads[t])
  }

  function One(b: bool): int {
    if b then 1 else 0
  }

  lemma HavingUpdate(threads: map<Tid, Phase>, t: Tid, p: Phase, q: Phase -> bool)
    requires t in threads
    ensures |Having(threads[t := p], q)| == |Having(threads, q)| - One(q(threads[t])) + One(q(p))
  {
    var a, b := Having(threads, q), Having(threads[t := p], q);
    WithoutOne(a, t);
    WithoutOne(b, t);
    assert a - {t} == b - {t};
  }

  lemma WithoutOne(a: set<Tid>, t: Tid)
    ensures |a| == |a - {t}| + One(t in a)
  {
    if t in a {
      assert a == (a - {t}) + {t};
    } else {
      assert a == a - {t};
    }
  }

  function Why(p: Phase): Cause {
    match p
    case Outside => User
    case Notifying(_) => User
    case Consumed(_) => User
    case Sleeping(c, timed) => Waiter(c, timed, false)
    case _ => p.why
  }

  ghost const IsBlocked: Phase -> bool := (p: Phase) => p.Blocked?

  /** A thread inside wait() that still counts as a waiter. */
  ghost const IsWaiter: Phase -> bool := (p: Phase) => Why(p).Waiter?

  /** A waiter allowed to return: there was a notification after its wait began. */
  ghost function IsNotified(counter: int): Phase -> bool {
    (p: Phase) => Why(p).Waiter? && Why(p).c != counter
  }

  // --------------------------------------------------------------------------
  // The lock

  /** Where the right to enter is: nowhere, with a thread, with a thread about to signal, or in the event. */
  datatype Baton = Free | Held(t: Tid) | Passing(t: Tid) | Posted

  predicate Holds(p: Phase) {
    p.Acquired? || p.Inside? || p.Notifying? || p.Consumed? || p.Leaving? || p.Releasing?
  }

  /** The phases in which the code has recorded the thread as the owner. */
  predicate IsOwner(p: Phase) {
    p.Inside? || p.Notifying? || p.Consumed? || p.Leaving?
  }

  ghost predicate LockInv(s: State, baton: Baton)
  {
    && (forall t :: t in s.threads ==>
         && (Holds(s.threads[t]) <==> baton == Held(t))
         && (s.threads[t].Signalling? <==> baton == Passing(t))
         && (IsOwner(s.threads[t]) <==> s.f.owner == Some(t)))
    && (baton.Held? || baton.Passing? ==> baton.t in s.threads)
    && (s.f.owner.Some? ==> s.f.owner.value in s.threads)
    && (s.f.lockEvent <==> baton == Posted)
    && s.f.lockCount + 1 == |Having(s.threads, IsBlocked)| + One(baton.Held?)
    && (baton == Free ==> |Having(s.threads, IsBlocked)| == 0)
    && (baton.Passing? || baton == Posted ==> |Having(s.threads, IsBlocked)| > 0)
  }

  /** The baton after a step of t. */
  function NextBaton(baton: Baton, t: Tid, p: Phase, p': Phase): Baton {
    if p.Entering? && p'.Acquired? then Held(t)
    else if p.Blocked? then Held(t)
    else if p.Releasing? then (if p'.Signalling? then Passing(t) else Free)
    else if p.Signalling? then Posted
    else baton
  }

  predicate MovesBaton(p: Phase) {
    p.Entering? || p.Blocked? || p.Releasing? || p.Signalling?
  }

  lemma PassKeepsLockInv(s: State, baton: Baton, s': State, t: Tid, a: Action)
    requires LockInv(s, baton) && StepBy(s, s', t, a) && MovesBaton(s.threads[t])
    ensures LockInv(s', NextBaton(baton, t, s.threads[t], s'.threads[t]))
  {
    HavingUpdate(s.threads, t, s'.threads[t], IsBlocked);
  }

  lemma StayKeepsLockInv(s: State, baton: Baton, s': State, t: Tid, a: Action)
    requires LockInv(s, baton) && StepBy(s, s', t, a) && !MovesBaton(s.threads[t])
    ensures LockInv(s', baton)
  {
    HavingUpdate(s.threads, t, s'.threads[t], IsBlocked);
  }

  lemma StepKeepsLockInv(s: State, baton: Baton, s': State, t: Tid, a: Action)
    requires LockInv(s, baton) && StepBy(s, s', t, a)
    ensures LockInv(s', NextBaton(baton, t, s.threads[t], s'.threads[t]))
  {
    if MovesBaton(s.threads[t]) {
      PassKeepsLockInv(s, baton, s', t, a);
    } else {
      StayKeepsLockInv(s, baton, s', t, a);
    }
  }

  // --------------------------------------------------------------------------
  // The condition variable

  ghost predicate CondInv(s: State)
  {
    var notified := Having(s.threads, IsNotified(s.f.counter));
    && 0 <= s.f.counter
    && (forall t :: t in s.threads && Why(s.threads[t]).Waiter? ==> 0 <= Why(s.threads[t]).c <= s.f.counter)
    && s.f.waiters == |Having(s.threads, IsWaiter)|
    && 0 <= s.f.tickets && (s.f.counter < W32 ==> s.f.tickets <= |notified|)
    && s.f.issued == s.f.woken + s.f.tickets
    && (s.f.waitEvent <==> s.f.tickets > 0 || SetsEvent(s))
    && (forall t :: t in s.threads && s.threads[t].Consumed? ==>
          s.f.tickets == 0 && s.threads[t].taker.Waiter? && !SameWord(s.f.counter, s.threads[t].taker.c))
    && (forall t :: t in s.threads && s.threads[t].Notifying? ==>
          s.f.waiters > if s.threads[t].all then 0 else s.f.tickets)
  }

  /** The owner is in the middle of an operation on the wait event. */
  predicate SetsEvent(s: State) {
    s.f.owner.Some? && s.f.owner.value in s.threads && InEventOp(s.threads[s.f.owner.value])
  }

  predicate InEventOp(p: Phase) {
    p.Notifying? || p.Consumed?
  }

  /** After a notification every waiter is allowed to return. */
  lemma AllNotified(threads: map<Tid, Phase>, counter: int)
    requires forall t :: t in threads && Why(threads[t]).Waiter? ==> Why(threads[t]).c < counter
    ensures Having(threads, IsNotified(counter)) == Having(threads, IsWaiter)
  {
  }

  lemma NotifiedAreWaiters(threads: map<Tid, Phase>, counter: int)
    ensures |Having(threads, IsNotified(counter))| <= |Having(threads, IsWaiter)|
  {
    Subset(Having(threads, IsNotified(counter)), Having(threads, IsWaiter));
  }

  lemma {:induction false} Subset(a: set<Tid>, b: set<Tid>)
    requires a <= b
    ensures |a| <= |b|
  {
    assert b == a + (b - a);
  }

  lemma NotifyKeepsCondInv(s: State, baton: Baton, s': State, t: Tid, a: Action)
    requires LockInv(s, baton) && CondInv(s) && StepBy(s, s', t, a) && s.threads[t].Notifying?
    ensures CondInv(s')
  {
    HavingUpdate(s.threads, t, s'.threads[t], IsWaiter);
    NotifiedAreWaiters(s.threads, s.f.counter);
    AllNotified(s'.threads, s'.f.counter);
  }

  /** Lock and unlock change nothing the condition variable depends on. */
  lemma LockingIsQuiet(f: Fields, t: Tid, p: Phase, a: Action)
    requires ThreadStep(f, t, p, a).Some? && (!IsOwner(p) || p.Leaving?)
    ensures var (f', p') := ThreadStep(f, t, p, a).value;
            && Why(p').Waiter? == Why(p).Waiter? && (Why(p).Waiter? ==> Why(p').c == Why(p).c)
            && f'.counter == f.counter && f'.tickets == f.tickets && f'.waiters == f.waiters
            && f'.waitEvent == f.waitEvent && f'.issued == f.issued && f'.woken == f.woken
            && !InEventOp(p) && !InEventOp(p')
            && (f'.owner == f.owner || p.Acquired? || p.Leaving?)
  {
  }

  lemma LockingKeepsCondInv(s: State, baton: Baton, s': State, t: Tid, a: Action)
    requires LockInv(s, baton) && CondInv(s) && StepBy(s, s', t, a)
    requires !IsOwner(s.threads[t]) || s.threads[t].Leaving?
    ensures CondInv(s')
  {
    var p, p' := s.threads[t], s'.threads[t];
    LockingIsQuiet(s.f, t, p, a);
    HavingUpdate(s.threads, t, p', IsWaiter);
    HavingUpdate(s.threads, t, p', IsNotified(s.f.counter));
    assert SetsEvent(s') == SetsEvent(s) by {
      LockingKeepsEventOp(s, baton, s', t, a);
    }
  }

  lemma LockingKeepsEventOp(s: State, baton: Baton, s': State, t: Tid, a: Action)
    requires LockInv(s, baton) && StepBy(s, s', t, a)
    requires !IsOwner(s.threads[t]) || s.threads[t].Leaving?
    ensures SetsEvent(s') == SetsEvent(s)
  {
    LockingIsQuiet(s.f, t, s.threads[t], a);
  }

  /** The caller's thread starts a wait, or sets the event for a notification. */
  lemma UserKeepsCondInv(s: State, baton: Baton, s': State, t: Tid, a: Action)
    requires LockInv(s, baton) && CondInv(s) && StepBy(s, s', t, a) && s.threads[t] == Inside(User)
    ensures CondInv(s')
  {
    HavingUpdate(s.threads, t, s'.threads[t], IsWaiter);
    HavingUpdate(s.threads, t, s'.threads[t], IsNotified(s.f.counter));
    assert baton == Held(t);
  }

  /** A waiter back inside the lock takes a ticket, gives up, or sleeps again. */
  lemma CheckKeepsCondInv(s: State, baton: Baton, s': State, t: Tid, a: Action)
    requires LockInv(s, baton) && CondInv(s) && StepBy(s, s', t, a)
    requires (s.threads[t].Inside? && s.threads[t].why.Waiter?) || s.threads[t].Consumed?
    ensures CondInv(s')
  {
    HavingUpdate(s.threads, t, s'.threads[t], IsWaiter);
    HavingUpdate(s.threads, t, s'.threads[t], IsNotified(s.f.counter));
    assert baton == Held(t);
  }

  ghost predicate Inv(s: State)
  {
    exists baton :: LockInv(s, baton) && CondInv(s)
  }

  lemma StepKeepsCondInv(s: State, baton: Baton, s': State, t: Tid, a: Action)
    requires LockInv(s, baton) && CondInv(s) && StepBy(s, s', t, a)
    ensures CondInv(s')
  {
    if s.threads[t].Notifying? {
      NotifyKeepsCondInv(s, baton, s', t, a);
    } else if s.threads[t] == Inside(User) {
      UserKeepsCondInv(s, baton, s', t, a);
    } else if s.threads[t].Inside? || s.threads[t].Consumed? {
      CheckKeepsCondInv(s, baton, s', t, a);
    } else {
      LockingKeepsCondInv(s, baton, s', t, a);
    }
  }

  lemma StepKeepsInv(s: State, s': State, t: Tid, a: Action)
    requires Inv(s) && StepBy(s, s', t, a)
    ensures Inv(s')
  {
    var baton :| LockInv(s, baton) && CondInv(s);
    StepKeepsLockInv(s, baton, s', t, a);
    StepKeepsCondInv(s, baton, s', t, a);
  }

  lemma {:induction false} RunKeepsInv(run: seq<State>, i: nat)
    requires Run(run) && i < |run|
    ensures Inv(run[i])
  {
    if i == 0 {
      InitInv(run[0]);
    } else {
      RunKeepsInv(run, i - 1);
      assert Step(run[i - 1], run[i - 1 + 1]);
      var t, a :| StepBy(run[i - 1], run[i], t, a);
      StepKeepsInv(run[i - 1], run[i], t, a);
    }
  }

  lemma InitInv(s: State)
    requires Init(s)
    ensures LockInv(s, Free) && CondInv(s)
  {
    assert Having(s.threads, IsBlocked) == {};
    assert Having(s.threads, IsWaiter) == {};
    assert LockInv(s, Free) && CondInv(s);
  }

  // --------------------------------------------------------------------------
  // Main results

  ghost const IsHolder: Phase -> bool := (p: Phase) => Holds(p)
  ghost const IsSignaller: Phase -> bool := (p: Phase) => p.Signalling?

  /** Nobody is inside the monitor. */
  ghost predicate LockFree(s: State)
  {
    forall t :: t in s.threads ==> !Holds(s.threads[t])
  }

  lemma AtMost(threads: map<Tid, Phase>, q: Phase -> bool, t: Tid)
    requires forall u :: u in threads && q(threads[u]) ==> u == t
    ensures |Having(threads, q)| == One(t in threads && q(threads[t]))
  {
    if t in threads && q(threads[t]) {
      assert Having(threads, q) == {t};
    } else {
      assert Having(threads, q) == {};
    }
  }

  /** Mutual exclusion by passing a baton: in every reachable state the holders, the threads about to signal
      and the pending lock event number at most one together, and exactly one when the lock count
      is not negative. */
  lemma BatonExclusion(run: seq<State>, i: nat)
    requires Run(run) && i < |run|
    ensures var s := run[i];
            var batons := |Having(s.threads, IsHolder)| + |Having(s.threads, IsSignaller)| + One(s.f.lockEvent);
            batons <= 1 && (batons == 1 <==> s.f.lockCount >= 0)
  {
    RunKeepsInv(run, i);
    var s := run[i];
    var baton :| LockInv(s, baton) && CondInv(s);
    var t := if baton.Held? || baton.Passing? then baton.t else 0;
    AtMost(s.threads, IsHolder, t);
    AtMost(s.threads, IsSignaller, t);
  }

  /** The assertions of the code hold on every run: a thread that gets the lock finds no owner, a thread
      that unlocks is the owner, and SetEvent never finds the lock event already set. */
  lemma AssertionsHold(run: seq<State>, i: nat, t: Tid)
    requires Run(run) && i < |run| && t in run[i].threads
    ensures run[i].threads[t].Acquired? ==> run[i].f.owner == None
    ensures IsOwner(run[i].threads[t]) <==> run[i].f.owner == Some(t)
    ensures run[i].threads[t].Signalling? ==> !run[i].f.lockEvent
  {
    RunKeepsInv(run, i);
    var baton :| LockInv(run[i], baton) && CondInv(run[i]);
  }

  /** With the lock free: the event is set exactly when tickets are left; every ticket ever issued was taken by one
      wakeup or is still left; and up to 2^32 - 1 notifications, tickets never outnumber the waiters notified since they
      began to wait, who are among the waiters. */
  lemma TicketsAccounted(run: seq<State>, i: nat)
    requires Run(run) && i < |run| && LockFree(run[i])
    ensures var s := run[i];
            var notified := |Having(s.threads, IsNotified(s.f.counter))|;
            && 0 <= s.f.tickets && notified <= s.f.waiters == |Having(s.threads, IsWaiter)|
            && (s.f.waitEvent <==> s.f.tickets > 0)
            && s.f.issued == s.f.woken + s.f.tickets
            && (s.f.counter < W32 ==> s.f.tickets <= notified)
  {
    RunKeepsInv(run, i);
    var baton :| LockInv(run[i], baton) && CondInv(run[i]);
    NotifiedAreWaiters(run[i].threads, run[i].f.counter);
  }

  /** A waiter that finds a ticket takes it. */
  predicate MayTake(f: Fields, p: Phase) {
    Why(p).Waiter? && !SameWord(f.counter, Why(p).c)
  }

  /** If tickets are left and the lock is free, the event is set and some waiter may take one. */
  ghost predicate TicketFound(s: State)
  {
    LockFree(s) && s.f.tickets > 0 ==> s.f.waitEvent && exists t :: t in s.threads && MayTake(s.f, s.threads[t])
  }

  /** No wakeup is lost in the first 2^32 - 1 notifications. */
  lemma TicketFindsWaiter(run: seq<State>, i: nat)
    requires Run(run) && i < |run| && run[i].f.counter < W32
    ensures TicketFound(run[i])
  {
    var s := run[i];
    if LockFree(s) && s.f.tickets > 0 {
      TicketsAccounted(run, i);
      var t :| t in Having(s.threads, IsNotified(s.f.counter));
      RunKeepsInv(run, i);
      assert MayTake(s.f, s.threads[t]);
    }
  }

  // --------------------------------------------------------------------------
  // A run with 2^32 notifications

  ghost predicate RunTo(run: seq<State>, s: State)
  {
    Run(run) && run[|run| - 1] == s
  }

  ghost predicate Reachable(s: State)
  {
    exists run :: RunTo(run, s)
  }

  /** Thread 0 waits, thread 1 waits again and again, thread 2 notifies. */
  function Three(f: Fields, p0: Phase, p1: Phase, p2: Phase): State {
    State(f, map[0 := p0, 1 := p1, 2 := p2])
  }

  /** One more step of a thread. */
  lemma Go(s: State, t: Tid, a: Action, s': State)
    requires Reachable(s) && t in s.threads && s.threads.Keys == s'.threads.Keys
    requires ThreadStep(s.f, t, s.threads[t], a) == Some((s'.f, s'.threads[t]))
    requires forall u :: u in s.threads && u != t ==> s'.threads[u] == s.threads[u]
    ensures Reachable(s')
  {
    var run :| RunTo(run, s);
    assert s'.threads == s.threads[t := s'.threads[t]];
    assert StepBy(s, s', t, a);
    assert RunTo(run + [s'], s');
  }

  /** The fields with the lock free, n notifications, and these tickets and waiters. */
  function Quiet(n: int, tickets: int, waiters: int): Fields {
    Fields(-1, None, false, tickets > 0, n, tickets, waiters, n, n - tickets)
  }

  /** Thread t inside the lock. */
  function Locked(f: Fields, t: Tid): Fields {
    f.(lockCount := 0, owner := Some(t))
  }

  lemma GoLock(s: State, t: Tid, why: Cause)
    requires Reachable(s) && t in s.threads && s.f.lockCount == -1 && s.f.owner == None
    requires s.threads[t] == Entering(why)
    ensures Reachable(State(Locked(s.f, t), s.threads[t := Inside(why)]))
  {
    var s1 := State(s.f.(lockCount := 0), s.threads[t := Acquired(why)]);
    Go(s, t, Advance, s1);
    Go(s1, t, Advance, State(Locked(s.f, t), s.threads[t := Inside(why)]));
  }

  lemma GoUnlock(f: Fields, s: State, t: Tid, why: Cause)
    requires Reachable(s) && t in s.threads && f.lockCount == -1 && f.owner == None && s.f == Locked(f, t)
    requires s.threads[t] == Leaving(why)
    ensures Reachable(State(f, s.threads[t := Left(why)]))
  {
    var s1 := State(s.f.(owner := None), s.threads[t := Releasing(why)]);
    Go(s, t, Advance, s1);
    Go(s1, t, Advance, State(f, s.threads[t := Left(why)]));
  }

  /** A thread locks, waits, and sleeps. */
  lemma GoWait(s: State, t: Tid)
    requires Reachable(s) && t in s.threads && s.f.lockCount == -1 && s.f.owner == None && s.threads[t] == Outside
    ensures Reachable(State(s.f.(waiters := s.f.waiters + 1), s.threads[t := Sleeping(s.f.counter, false)]))
  {
    var w := Waiter(s.f.counter, false, false);
    var f := s.f.(waiters := s.f.waiters + 1);
    Go(s, t, Lock, State(s.f, s.threads[t := Entering(User)]));
    GoLock(State(s.f, s.threads[t := Entering(User)]), t, User);
    var s1 := State(Locked(s.f, t), s.threads[t := Inside(User)]);
    assert s.threads[t := Entering(User)][t := Inside(User)] == s1.threads;
    var s2 := State(Locked(f, t), s.threads[t := Leaving(w)]);
    Go(s1, t, Wait(false), s2);
    GoUnlock(f, s2, t, w);
    assert s2.threads[t := Left(w)] == s.threads[t := Sleeping(s.f.counter, false)];
  }

  /** A thread locks, notifies one waiter, and unlocks. */
  lemma GoNotify(s: State, t: Tid)
    requires Reachable(s) && t in s.threads && s.f.lockCount == -1 && s.f.owner == None && s.threads[t] == Outside
    requires s.f.waiters > s.f.tickets
    ensures var f := s.f.(waitEvent := true, tickets := s.f.tickets + 1, counter := s.f.counter + 1,
                          issued := s.f.issued + 1);
            Reachable(State(f, s.threads))
  {
    var f := s.f.(waitEvent := true, tickets := s.f.tickets + 1, counter := s.f.counter + 1, issued := s.f.issued + 1);
    Go(s, t, Lock, State(s.f, s.threads[t := Entering(User)]));
    GoLock(State(s.f, s.threads[t := Entering(User)]), t, User);
    var s1 := State(Locked(s.f, t), s.threads[t := Inside(User)]);
    assert s.threads[t := Entering(User)][t := Inside(User)] == s1.threads;
    var s2 := State(Locked(s.f, t).(waitEvent := true), s.threads[t := Notifying(false)]);
    Go(s1, t, Notify(false), s2);
    var s3 := State(Locked(f, t), s.threads[t := Inside(User)]);
    Go(s2, t, Advance, s3);
    var s4 := State(Locked(f, t), s.threads[t := Leaving(User)]);
    Go(s3, t, Unlock, s4);
    GoUnlock(f, s4, t, User);
    assert s4.threads[t := Left(User)] == s.threads;
  }

  /** A sleeping thread wakes up, takes the last ticket, and unlocks. */
  lemma GoWake(s: State, t: Tid, c: int)
    requires Reachable(s) && t in s.threads && s.f.lockCount == -1 && s.f.owner == None
    requires s.threads[t] == Sleeping(c, false)
    requires s.f.waitEvent && s.f.tickets == 1 && !SameWord(s.f.counter, c)
    ensures var f := s.f.(waitEvent := false, tickets := 0, waiters := s.f.waiters - 1, woken := s.f.woken + 1);
            Reachable(State(f, s.threads[t := Outside]))
  {
    var f := s.f.(waitEvent := false, tickets := 0, waiters := s.f.waiters - 1, woken := s.f.woken + 1);
    var w := Waiter(c, false, false);
    Go(s, t, Advance, State(s.f, s.threads[t := Entering(w)]));
    GoLock(State(s.f, s.threads[t := Entering(w)]), t, w);
    var s1 := State(Locked(s.f, t), s.threads[t := Inside(w)]);
    assert s.threads[t := Entering(w)][t := Inside(w)] == s1.threads;
    var s2 := State(Locked(f, t).(waitEvent := true), s.threads[t := Consumed(w)]);
    Go(s1, t, Advance, s2);
    var s3 := State(Locked(f, t), s.threads[t := Inside(User)]);
    Go(s2, t, Advance, s3);
    var s4 := State(Locked(f, t), s.threads[t := Leaving(User)]);
    Go(s3, t, Unlock, s4);
    GoUnlock(f, s4, t, User);
    assert s4.threads[t := Left(User)] == s.threads[t := Outside];
  }

  /** Thread 1 is notified n times, each time after it has begun to wait, and thread 0 sleeps on. */
  lemma {:induction false} GoRounds(n: nat)
    ensures Reachable(Three(Quiet(n, 0, 1), Sleeping(0, false), Outside, Outside))
  {
    if n == 0 {
      var s := Three(Quiet(0, 0, 0), Outside, Outside, Outside);
      assert RunTo([s], s);
      GoWait(s, 0);
      assert s.threads[0 := Sleeping(0, false)] == Three(s.f, Sleeping(0, false), Outside, Outside).threads;
    } else {
      GoRounds(n - 1);
      var s := Three(Quiet(n - 1, 0, 1), Sleeping(0, false), Outside, Outside);
      GoWait(s, 1);
      var s1 := Three(Quiet(n - 1, 0, 2), Sleeping(0, false), Sleeping(n - 1, false), Outside);
      assert s.threads[1 := Sleeping(n - 1, false)] == s1.threads;
      GoNotify(s1, 2);
      var s2 := Three(Quiet(n, 1, 2), Sleeping(0, false), Sleeping(n - 1, false), Outside);
      assert Reachable(s2);
      GoWake(s2, 1, n - 1);
      assert s2.threads[1 := Outside] == s.threads;
    }
  }

  /** The 2^32nd notification after thread 0 began to wait leaves a ticket that it does not take, and there is nobody
      else to take it. */
  lemma LostTicket() returns (s: State)
    ensures Reachable(s) && s.f.counter == W32 && !TicketFound(s)
  {
    GoRounds(W32 - 1);
    var s0 := Three(Quiet(W32 - 1, 0, 1), Sleeping(0, false), Outside, Outside);
    GoNotify(s0, 2);
    s := Three(Quiet(W32, 1, 1), Sleeping(0, false), Outside, Outside);
    assert Why(s.threads[0]).c == 0 && SameWord(W32, 0);
  }

  /** Every ticket finds a waiter, in all states with at most n notifications, if and only if n is below 2^32. */
  lemma TicketFoundIff(n: int)
    ensures (forall s: State :: Reachable(s) && s.f.counter <= n ==> TicketFound(s)) <==> n < W32
  {
    if n < W32 {
      forall s: State | Reachable(s) && s.f.counter <= n ensures TicketFound(s) {
        var run: seq<State> :| RunTo(run, s);
        TicketFindsWaiter(run, |run| - 1);
      }
    } else {
      var s := LostTicket();
      assert Reachable(s) && s.f.counter <= n && !TicketFound(s);
    }
  }

  /** The thread waits, with saved counter c, in all states from i to k. */
  ghost predicate WaitsFrom(run: seq<State>, i: nat, k: nat, t: Tid)
    requires i <= k < |run|
  {
    forall j {:trigger run[j].threads} :: i <= j <= k ==> t in run[j].threads && Why(run[j].threads[t]).Waiter?
  }

  /** The same wait goes on: same saved counter, and it can only time out if it has a timeout. */
  predicate SameWait(w: Cause, w': Cause) {
    && w.Waiter? && w'.Waiter? && w'.c == w.c && w'.timed == w.timed
    && (!w.timed && !w.timedOut ==> !w'.timedOut)
  }

  lemma WaitKeepsItsTerms(f: Fields, t: Tid, p: Phase, a: Action)
    requires ThreadStep(f, t, p, a).Some? && Why(p).Waiter?
    ensures var (f', p') := ThreadStep(f, t, p, a).value;
            SameWait(Why(p), Why(p')) || (!Why(p').Waiter? && (f'.woken == f.woken + 1 || Why(p).timedOut))
  {
  }

  lemma StepKeepsWait(s: State, s': State, t: Tid)
    requires Step(s, s') && t in s.threads && t in s'.threads
    requires Why(s.threads[t]).Waiter? && Why(s'.threads[t]).Waiter?
    ensures SameWait(Why(s.threads[t]), Why(s'.threads[t]))
  {
    var u, a :| StepBy(s, s', u, a);
    if u == t {
      WaitKeepsItsTerms(s.f, t, s.threads[t], a);
    }
  }

  /** A wait keeps its terms as long as it lasts. */
  lemma {:induction false} WaitTermsKept(run: seq<State>, i: nat, k: nat, t: Tid)
    requires Run(run) && i <= k < |run| && WaitsFrom(run, i, k, t)
    ensures SameWait(Why(run[i].threads[t]), Why(run[k].threads[t]))
  {
    assert t in run[k].threads;
    if i < k {
      WaitTermsKept(run, i, k - 1, t);
      assert Step(run[k - 1], run[k - 1 + 1]);
      StepKeepsWait(run[k - 1], run[k], t);
    }
  }

  lemma CounterStep(s: State, s': State)
    requires Step(s, s')
    ensures s'.f.counter == s.f.counter || s'.f.counter == s.f.counter + 1
  {
    var t, a :| StepBy(s, s', t, a);
  }

  lemma {:induction false} CounterMoves(run: seq<State>, i: nat, k: nat) returns (j: nat)
    requires Run(run) && i <= k < |run| && run[i].f.counter != run[k].f.counter
    ensures i <= j < k && run[j + 1].f.counter == run[j].f.counter + 1
  {
    if run[k - 1].f.counter == run[k].f.counter {
      j := CounterMoves(run, i, k - 1);
    } else {
      j := k - 1;
      assert Step(run[j], run[j + 1]);
      CounterStep(run[j], run[j + 1]);
    }
  }

  /** A waiter never takes a notification older than its wait: if t starts to wait in step i and
      takes a ticket in step k, a notification happened in between. */
  lemma WakeupIsFresh(run: seq<State>, i: nat, k: nat, t: Tid, timed: bool) returns (j: nat)
    requires Run(run) && i < k && k + 1 < |run|
    requires StepBy(run[i], run[i + 1], t, Wait(timed)) && run[i].threads[t] == Inside(User)
    requires WaitsFrom(run, i + 1, k, t)
    requires StepBy(run[k], run[k + 1], t, Advance) && run[k + 1].f.woken > run[k].f.woken
    ensures i < j < k && run[j + 1].f.counter == run[j].f.counter + 1
  {
    WaitTermsKept(run, i + 1, k, t);
    j := CounterMoves(run, i + 1, k);
  }

  /** A wait without a timeout ends only by taking a ticket. */
  lemma UntimedWaitTakesTicket(run: seq<State>, i: nat, k: nat, t: Tid)
    requires Run(run) && i < k && k + 1 < |run|
    requires StepBy(run[i], run[i + 1], t, Wait(false)) && run[i].threads[t] == Inside(User)
    requires WaitsFrom(run, i + 1, k, t) && t in run[k + 1].threads && !Why(run[k + 1].threads[t]).Waiter?
    ensures run[k + 1].f.woken == run[k].f.woken + 1
  {
    WaitTermsKept(run, i + 1, k, t);
    assert Step(run[k], run[k + 1]);
    var u, a :| StepBy(run[k], run[k + 1], u, a);
    assert u == t;
    WaitKeepsItsTerms(run[k].f, t, run[k].threads[t], a);
  }
}
