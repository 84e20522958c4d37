/**
  The monitor of the debug agent as its callers see it: a lock with one holder, and a condition variable whose
  operations happen all at once. Module MonitorRefinement proves that the shared operations of the
  implementation, in any interleaving, do no more than this.
 */
module AtomicMonitor {
  import opened Words
  import opened Wrappers

  type Tid = nat

  /** The condition variable: the number of notifications, the tickets left, the waiters, and the event. */
  datatype Cond = Cond(counter: int, tickets: int, waiters: int, waitEvent: bool)

  function Notify(k: Cond): Cond {
    if k.waiters > k.tickets then Cond(k.counter + 1, k.tickets + 1, k.waiters, true) else k
  }

  function NotifyAll(k: Cond): Cond {
    if k.waiters > 0 then Cond(k.counter + 1, k.waiters, k.waiters, true) else k
  }

  function StartWait(k: Cond): Cond {
    k.(waiters := k.waiters + 1)
  }

  /** A waiter that began to wait at count c finds a ticket, and the 32-bit count has changed. */
  predicate MayReturn(k: Cond, c: int) {
    k.tickets != 0 && !SameWord(k.counter, c)
  }

  function EndWait(k: Cond): Cond {
    Cond(k.counter, k.tickets - 1, k.waiters - 1, k.waitEvent && k.tickets - 1 != 0)
  }

  function GiveUp(k: Cond): Cond {
    k.(waiters := k.waiters - 1)
  }

  // --------------------------------------------------------------------------
  // Any number of callers

  /** Where a caller is; waits remember the count at which they began. */
  datatype Caller =
    | Away
    | Wanting                                          // in lock()
    | In                                               // holds the lock
    | Parting(c: int, timed: bool)                     // in wait(), still holds the lock
    | Asleep(c: int, timed: bool)                      // in wait(), without the lock
    | Awake(c: int, timed: bool, timedOut: bool)       // in wait(), wants the lock again
    | Checking(c: int, timed: bool, timedOut: bool)    // in wait(), holds the lock again

  datatype Monitor = Monitor(holder: Option<Tid>, k: Cond, callers: map<Tid, Caller>)

  datatype Move = Lock | Enter | Unlock | Wait(timed: bool) | Sleep | Wake | TimeOut | Check | NotifyOne | NotifyEvery

  /** What a move of caller t makes of the holder, the condition variable and the caller. */
  function Next(holder: Option<Tid>, k: Cond, t: Tid, p: Caller, a: Move): Option<(Option<Tid>, Cond, Caller)> {
    match (p, a)
    case (Away, Lock) => Some((holder, k, Wanting))
    case (Wanting, Enter) => if holder == None then Some((Some(t), k, In)) else None
    case (In, Unlock) => Some((None, k, Away))
    case (In, Wait(timed)) => Some((holder, StartWait(k), Parting(k.counter, timed)))
    case (Parting(c, timed), Sleep) => Some((None, k, Asleep(c, timed)))
    case (Asleep(c, timed), Wake) => if k.waitEvent then Some((holder, k, Awake(c, timed, false))) else None
    case (Asleep(c, timed), TimeOut) => if timed then Some((holder, k, Awake(c, timed, true))) else None
    case (Awake(c, timed, timedOut), Enter) =>
      if holder == None then Some((Some(t), k, Checking(c, timed, timedOut))) else None
    case (Checking(c, timed, timedOut), Check) =>
      if MayReturn(k, c) then Some((holder, EndWait(k), In))
      else if timedOut then Some((holder, GiveUp(k), In))
      else Some((holder, k, Parting(c, timed)))
    case (In, NotifyOne) => Some((holder, Notify(k), In))
    case (In, NotifyEvery) => Some((holder, NotifyAll(k), In))
    case _ => None
  }

  ghost predicate MoveBy(m: Monitor, m': Monitor, t: Tid, a: Move)
  {
    && t in m.callers
    && var r := Next(m.holder, m.k, t, m.callers[t], a);
       r.Some? && m' == Monitor(r.value.0, r.value.1, m.callers[t := r.value.2])
  }

  /** One move, or nothing. */
  ghost predicate Moves(m: Monitor, m': Monitor)
  {
    m' == m || exists t, a :: MoveBy(m, m', t, a)
  }

  ghost predicate Init(m: Monitor)
  {
    && m.holder == None && m.k == Cond(0, 0, 0, false)
    && forall t :: t in m.callers ==> m.callers[t] == Away
  }

  ghost predicate Run(run: seq<Monitor>)
  {
    && |run| > 0 && Init(run[0])
    && forall i :: 0 <= i < |run| - 1 ==> Moves(run[i], run[i + 1])
  }

  // --------------------------------------------------------------------------
  // What a notification of all is for

  /** Some moves lead from m to m'. */
  ghost predicate Leads(m: Monitor, m': Monitor, n: nat)
    decreases n
  {
    if n == 0 then m' == m else exists between :: Moves(m, between) && Leads(between, m', n - 1)
  }

  lemma {:induction false} LeadsOn(m: Monitor, between: Monitor, m': Monitor, n: nat, k: nat)
    requires Leads(m, between, n) && Leads(between, m', k)
    ensures Leads(m, m', n + k)
    decreases n
  {
    if n > 0 {
      var next :| Moves(m, next) && Leads(next, between, n - 1);
      LeadsOn(next, between, m', n - 1, k);
    }
  }

  lemma LeadsMove(m: Monitor, between: Monitor, m': Monitor, t: Tid, a: Move, n: nat)
    requires MoveBy(m, between, t, a) && Leads(between, m', n)
    ensures Leads(m, m', n + 1)
  {
    assert Moves(m, between);
  }

  /** Asleep in wait(), and the count has changed since. */
  predicate MayWake(m: Monitor, t: Tid) {
    t in m.callers && m.callers[t].Asleep? && !SameWord(m.k.counter, m.callers[t].c)
  }

  /** One sleeper wakes up, takes a ticket and leaves. */
  lemma OneReturns(m: Monitor, t: Tid) returns (m': Monitor)
    requires m.holder == None && MayWake(m, t) && m.k.waitEvent && m.k.tickets > 0
    ensures Leads(m, m', 4) && m' == Monitor(None, EndWait(m.k), m.callers[t := Away])
  {
    var p := m.callers[t];
    var m1 := m.(callers := m.callers[t := Awake(p.c, p.timed, false)]);
    var m2 := m1.(holder := Some(t), callers := m.callers[t := Checking(p.c, p.timed, false)]);
    var m3 := Monitor(Some(t), EndWait(m.k), m.callers[t := In]);
    m' := Monitor(None, EndWait(m.k), m.callers[t := Away]);
    assert m1.callers[t := Checking(p.c, p.timed, false)] == m2.callers && m2.callers[t := In] == m3.callers;
    assert m3.callers[t := Away] == m'.callers;
    assert MoveBy(m, m1, t, Wake) && MoveBy(m1, m2, t, Enter) && MoveBy(m2, m3, t, Check) && MoveBy(m3, m', t, Unlock);
    assert Leads(m', m', 0);
    LeadsMove(m3, m', m', t, Unlock, 0);
    LeadsMove(m2, m3, m', t, Check, 1);
    LeadsMove(m1, m2, m', t, Enter, 2);
    LeadsMove(m, m1, m', t, Wake, 3);
  }

  /** The callers, with those of the list gone. */
  function Gone(callers: map<Tid, Caller>, w: seq<Tid>): map<Tid, Caller>
    decreases w
  {
    if w == [] then callers else Gone(callers[w[0] := Away], w[1..])
  }

  ghost predicate Distinct(w: seq<Tid>)
  {
    forall i, j :: 0 <= i < j < |w| ==> w[i] != w[j]
  }

  /** With a ticket for each, sleepers can return one after the other, in any order; the last one resets the event. */
  lemma {:induction false} AllReturn(m: Monitor, w: seq<Tid>) returns (m': Monitor, n: nat)
    requires m.holder == None && Distinct(w) && forall i :: 0 <= i < |w| ==> MayWake(m, w[i])
    requires m.k.tickets == |w| && m.k.waitEvent == (|w| > 0)
    ensures Leads(m, m', n)
    ensures m' == Monitor(None, Cond(m.k.counter, 0, m.k.waiters - |w|, false), Gone(m.callers, w))
    decreases |w|
  {
    if w == [] {
      m', n := m, 0;
    } else {
      var rest := w[1..];
      var m1 := OneReturns(m, w[0]);
      forall i | 0 <= i < |rest| ensures MayWake(m1, rest[i]) {
        assert w[0] != w[i + 1] && MayWake(m, w[i + 1]);
      }
      var k: nat;
      m', k := AllReturn(m1, rest);
      n := 4 + k;
      LeadsOn(m, m1, m', 4, k);
    }
  }

  /** After notifyAll, all that were waiting can return one after the other, in any order, and then nobody waits, no
      ticket is left and the event is reset; if the 32-bit count is not back where one of them began to wait. */
  lemma NotifyAllFreesAll(m: Monitor, t: Tid, w: seq<Tid>) returns (m': Monitor, n: nat)
    requires t in m.callers && m.callers[t] == In && m.holder == Some(t) && Distinct(w)
    requires m.k.waiters == |w| && (|w| == 0 ==> m.k.tickets == 0 && !m.k.waitEvent)
    requires forall i :: 0 <= i < |w| ==>
               w[i] in m.callers && m.callers[w[i]].Asleep? && !SameWord(m.k.counter + 1, m.callers[w[i]].c)
    ensures var freed := Monitor(Some(t), NotifyAll(m.k), m.callers);
            MoveBy(m, freed, t, NotifyEvery) && Leads(freed, m', n)
    ensures m'.holder == None && m'.callers == Gone(m.callers[t := Away], w)
    ensures m'.k.tickets == 0 && m'.k.waiters == 0 && !m'.k.waitEvent
  {
    var freed := Monitor(Some(t), NotifyAll(m.k), m.callers);
    assert m.callers[t := In] == m.callers;
    var left := Monitor(None, freed.k, m.callers[t := Away]);
    assert MoveBy(freed, left, t, Unlock);
    var k: nat;
    m', k := AllReturn(left, w);
    n := k + 1;
    LeadsMove(freed, left, m', t, Unlock, k);
  }

  /** After notify, one that was waiting can return. */
  lemma NotifyFreesOne(m: Monitor, t: Tid, u: Tid) returns (m': Monitor)
    requires t in m.callers && m.callers[t] == In && m.holder == Some(t) && m.k.waiters > m.k.tickets >= 0
    requires u in m.callers && m.callers[u].Asleep? && !SameWord(m.k.counter + 1, m.callers[u].c)
    ensures var freed := Monitor(Some(t), Notify(m.k), m.callers);
            MoveBy(m, freed, t, NotifyOne) && Leads(freed, m', 5)
    ensures m'.callers == m.callers[t := Away][u := Away] && m'.k.tickets == m.k.tickets
    ensures m'.k.waiters == m.k.waiters - 1
  {
    var freed := Monitor(Some(t), Notify(m.k), m.callers);
    assert m.callers[t := In] == m.callers;
    var left := Monitor(None, freed.k, m.callers[t := Away]);
    assert MoveBy(freed, left, t, Unlock);
    m' := OneReturns(left, u);
    LeadsMove(freed, left, m', t, Unlock, 4);
  }
}
