/**
  The monitor of the debug agent implements the atomic monitor. While a thread is between the two
  halves of notify, or between taking the last ticket and resetting the event, it holds the
  lock; the abstraction counts a notification from the setting of the event on, and a
  taken ticket from the resetting of the event on.
 */
module MonitorRefinement {
  import opened Words
  import opened Wrappers
  import A = AtomicMonitor
  import P = MonitorProtocol

  /** A thread on its way in or out has not entered, or has not left. */
  function CallerOf(p: P.Phase): A.Caller {
    match p
    case Outside => A.Away
    case Notifying(_) => A.In
    case Sleeping(c, timed) => A.Asleep(c, timed)
    case Consumed(taker) => Back(taker)
    case Entering(why) => if why.User? then A.Wanting else A.Awake(why.c, why.timed, why.timedOut)
    case Blocked(why) => if why.User? then A.Wanting else A.Awake(why.c, why.timed, why.timedOut)
    case Acquired(why) => Back(why)
    case Inside(why) => Back(why)
    case Leaving(why) => if why.User? then A.In else A.Parting(why.c, why.timed)
    case Releasing(why) => if why.User? then A.In else A.Parting(why.c, why.timed)
    case Signalling(why) => if why.User? then A.Away else A.Asleep(why.c, why.timed)
  }

  function Back(why: P.Cause): A.Caller {
    if why.User? then A.In else A.Checking(why.c, why.timed, why.timedOut)
  }

  /** The condition variable, completed or taken back as the phase of the holder says. */
  function CondOf(f: P.Fields, p: P.Phase): A.Cond {
    match p
    case Notifying(all) => A.Cond(f.counter + 1, if all then f.waiters else f.tickets + 1, f.waiters, true)
    case Consumed(_) => A.Cond(f.counter, f.tickets + 1, f.waiters + 1, f.waitEvent)
    case _ => A.Cond(f.counter, f.tickets, f.waiters, f.waitEvent)
  }

  function Callers(threads: map<P.Tid, P.Phase>): map<P.Tid, A.Caller> {
    map t | t in threads :: CallerOf(threads[t])
  }

  function HolderOf(baton: P.Baton): Option<P.Tid> {
    if baton.Held? then Some(baton.t) else None
  }

  function HolderPhase(s: P.State, baton: P.Baton): P.Phase {
    if baton.Held? && baton.t in s.threads then s.threads[baton.t] else P.Outside
  }

  function Abstract(s: P.State, baton: P.Baton): A.Monitor {
    A.Monitor(HolderOf(baton), CondOf(s.f, HolderPhase(s, baton)), Callers(s.threads))
  }

  /** The move a step stands for; none if it is internal. */
  function MoveOf(f: P.Fields, p: P.Phase, a: P.Action): Option<A.Move> {
    match p
    case Outside => Some(A.Lock)
    case Entering(_) => if f.lockCount + 1 == 0 then Some(A.Enter) else None
    case Blocked(_) => Some(A.Enter)
    case Releasing(why) => Some(if why.User? then A.Unlock else A.Sleep)
    case Sleeping(_, _) => Some(if a == P.TimesOut then A.TimeOut else A.Wake)
    case Consumed(_) => Some(A.Check)
    case Inside(why) =>
      if why.Waiter? then
        (if f.tickets != 0 && !SameWord(f.counter, why.c) && f.tickets - 1 == 0 then None else Some(A.Check))
      else if a.Wait? then Some(A.Wait(a.timed))
      else if a.Notify? then Some(if a.all then A.NotifyEvery else A.NotifyOne)
      else None
    case _ => None
  }

  ghost predicate Invs(s: P.State, baton: P.Baton)
  {
    P.LockInv(s, baton) && P.CondInv(s)
  }

  /** What a step of t does to its caller, the condition variable and the holder. */
  ghost predicate Matches(f: P.Fields, f': P.Fields, q: P.Phase, q': P.Phase, holder: Option<P.Tid>,
                          holder': Option<P.Tid>, t: P.Tid, p: P.Phase, p': P.Phase, a: P.Action)
  {
    match MoveOf(f, p, a)
    case None => holder' == holder && CondOf(f', q') == CondOf(f, q) && CallerOf(p') == CallerOf(p)
    case Some(m) =>
      A.Next(holder, CondOf(f, q), t, CallerOf(p), m) == Some((holder', CondOf(f', q'), CallerOf(p')))
  }

  /** What the holder of the lock finds. */
  ghost predicate Sound(f: P.Fields, p: P.Phase)
  {
    && (p.Notifying? ==> f.waitEvent && f.waiters > if p.all then 0 else f.tickets)
    && (p.Consumed? ==> f.waitEvent && f.tickets == 0 && p.taker.Waiter? && !SameWord(f.counter, p.taker.c))
  }

  lemma HolderEffect(f: P.Fields, t: P.Tid, p: P.Phase, a: P.Action)
    requires P.ThreadStep(f, t, p, a).Some? && P.Holds(p) && Sound(f, p)
    ensures var (f', p') := P.ThreadStep(f, t, p, a).value;
            var q' := if p.Releasing? then P.Outside else p';
            Matches(f, f', p, q', Some(t), if p.Releasing? then None else Some(t), t, p, p', a)
  {
  }

  /** Before it enters, and after it has left, a thread leaves the condition variable alone. */
  lemma OtherEffect(f: P.Fields, t: P.Tid, p: P.Phase, a: P.Action, q: P.Phase)
    requires P.ThreadStep(f, t, p, a).Some? && !P.Holds(p) && Sound(f, q)
    ensures var (f', p') := P.ThreadStep(f, t, p, a).value;
            CondOf(f', q) == CondOf(f, q) && CondOf(f', P.Outside) == CondOf(f, P.Outside)
            && (!P.Holds(p') ==> forall holder :: Matches(f, f', q, q, holder, holder, t, p, p', a))
            && (P.Holds(p') ==> Matches(f, f', P.Outside, p', None, Some(t), t, p, p', a))
  {
  }

  lemma HolderSound(s: P.State, baton: P.Baton)
    requires Invs(s, baton)
    ensures Sound(s.f, HolderPhase(s, baton))
  {
  }

  lemma StepMatches(s: P.State, baton: P.Baton, s': P.State, t: P.Tid, a: P.Action)
    requires Invs(s, baton) && P.StepBy(s, s', t, a)
    ensures var baton' := P.NextBaton(baton, t, s.threads[t], s'.threads[t]);
            Matches(s.f, s'.f, HolderPhase(s, baton), HolderPhase(s', baton'), HolderOf(baton), HolderOf(baton'),
                    t, s.threads[t], s'.threads[t], a)
  {
    var p := s.threads[t];
    HolderSound(s, baton);
    if P.Holds(p) {
      HolderEffect(s.f, t, p, a);
    } else {
      P.StepKeepsLockInv(s, baton, s', t, a);
      OtherEffect(s.f, t, p, a, HolderPhase(s, baton));
    }
  }

  lemma CallersUpdate(threads: map<P.Tid, P.Phase>, t: P.Tid, p: P.Phase)
    requires t in threads
    ensures Callers(threads[t := p]) == Callers(threads)[t := CallerOf(p)]
  {
  }

  /** Every step of the implementation is one move of the atomic monitor, or none. */
  lemma StepRefines(s: P.State, baton: P.Baton, s': P.State, t: P.Tid, a: P.Action)
    requires Invs(s, baton) && P.StepBy(s, s', t, a)
    ensures A.Moves(Abstract(s, baton), Abstract(s', P.NextBaton(baton, t, s.threads[t], s'.threads[t])))
  {
    var baton' := P.NextBaton(baton, t, s.threads[t], s'.threads[t]);
    var m, m' := Abstract(s, baton), Abstract(s', baton');
    StepMatches(s, baton, s', t, a);
    CallersUpdate(s.threads, t, s'.threads[t]);
    match MoveOf(s.f, s.threads[t], a)
    case None => assert m'.callers == m.callers;
    case Some(move) => assert A.MoveBy(m, m', t, move);
  }

  lemma InitRefines(s: P.State)
    requires P.Init(s)
    ensures Invs(s, P.Free) && A.Init(Abstract(s, P.Free))
  {
    P.InitInv(s);
    assert P.Having(s.threads, P.IsBlocked) == {};
  }

  lemma LastRefines(run: seq<P.State>, baton: P.Baton) returns (baton': P.Baton)
    requires P.Run(run) && |run| > 1 && Invs(run[|run| - 2], baton)
    ensures Invs(run[|run| - 1], baton')
    ensures A.Moves(Abstract(run[|run| - 2], baton), Abstract(run[|run| - 1], baton'))
  {
    var i := |run| - 2;
    assert P.Step(run[i], run[i + 1]);
    var t, a :| P.StepBy(run[i], run[i + 1], t, a);
    baton' := P.NextBaton(baton, t, run[i].threads[t], run[i + 1].threads[t]);
    P.StepKeepsLockInv(run[i], baton, run[i + 1], t, a);
    P.StepKeepsCondInv(run[i], baton, run[i + 1], t, a);
    StepRefines(run[i], baton, run[i + 1], t, a);
  }

  ghost predicate AllInvs(run: seq<P.State>, batons: seq<P.Baton>)
  {
    |batons| == |run| && forall i :: 0 <= i < |run| ==> Invs(run[i], batons[i])
  }

  lemma InvsExtend(run: seq<P.State>, before: seq<P.Baton>, baton: P.Baton)
    requires |run| > 0 && AllInvs(run[..|run| - 1], before) && Invs(run[|run| - 1], baton)
    ensures AllInvs(run, before + [baton])
  {
    forall i | 0 <= i < |run| ensures Invs(run[i], (before + [baton])[i]) {
      if i < |before| {
        assert Invs(run[..|run| - 1][i], before[i]);
      }
    }
  }

  lemma Extends(run: seq<P.State>, before: seq<P.Baton>, baton: P.Baton)
    requires |run| > 1 && |before| == |run| - 1 && A.Run(Abstracts(run[..|run| - 1], before))
    requires A.Moves(Abstract(run[|run| - 2], before[|run| - 2]), Abstract(run[|run| - 1], baton))
    ensures A.Run(Abstracts(run, before + [baton]))
  {
    var short, all := Abstracts(run[..|run| - 1], before), Abstracts(run, before + [baton]);
    assert all[..|run| - 1] == short;
    forall i | 0 <= i < |all| - 1 ensures A.Moves(all[i], all[i + 1]) {
      if i < |run| - 2 {
        assert A.Moves(short[i], short[i + 1]);
      }
    }
  }

  function Abstracts(run: seq<P.State>, batons: seq<P.Baton>): seq<A.Monitor>
    requires |batons| == |run|
  {
    seq(|run|, i requires 0 <= i < |run| => Abstract(run[i], batons[i]))
  }

  lemma FrontIsRun(run: seq<P.State>)
    requires P.Run(run) && |run| > 1
    ensures P.Run(run[..|run| - 1])
  {
    var front := run[..|run| - 1];
    forall i | 0 <= i < |front| - 1 ensures P.Step(front[i], front[i + 1]) {
      assert P.Step(run[i], run[i + 1]);
    }
  }

  /** On every run of the implementation, the callers see a run of the atomic monitor. */
  lemma {:induction false} RunRefines(run: seq<P.State>) returns (batons: seq<P.Baton>)
    requires P.Run(run)
    ensures AllInvs(run, batons) && A.Run(Abstracts(run, batons))
    decreases |run|
  {
    var n := |run| - 1;
    if n == 0 {
      InitRefines(run[0]);
      batons := [P.Free];
    } else {
      FrontIsRun(run);
      var before := RunRefines(run[..n]);
      assert Invs(run[..n][n - 1], before[n - 1]);
      var baton := LastRefines(run, before[n - 1]);
      InvsExtend(run, before, baton);
      Extends(run, before, baton);
      batons := before + [baton];
    }
  }

  /** A caller that holds the lock and is between operations finds the fields as they are. */
  lemma HolderSeesFields(s: P.State, baton: P.Baton, t: P.Tid)
    requires Invs(s, baton) && t in s.threads && s.threads[t] == P.Inside(P.User)
    ensures var m := Abstract(s, baton);
            && m.holder == Some(t) && m.callers[t] == A.In
            && m.k == A.Cond(s.f.counter, s.f.tickets, s.f.waiters, s.f.waitEvent)
  {
    assert baton == P.Held(t);
  }
}
