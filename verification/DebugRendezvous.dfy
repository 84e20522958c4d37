/**
  The rendezvous between the two threads of the debug subprocess. The debug thread posts a
  debug event and waits on the monitor until the main thread, serving
  messages, releases it with CONTINUEEVENT or DETACH. Lock and condition variable are those of
  module AtomicMonitor, which the implementation in module MonitorProtocol refines.
 */
module DebugRendezvous {
  import opened Wrappers
  import A = AtomicMonitor

  /** A debug event: its number, whether its code is one that is posted, and how it is continued if it
      is not posted. */
  datatype Event = Event(id: nat, posts: bool, notHandled: bool)

  datatype Message = ATTACH | DETACH | POLLEVENT | CONTINUEEVENT(pass: bool)

  datatype Reply = Polled(event: Option<Event>) | Continued(ok: bool)

  /** How a posted event was released. */
  datatype Release = ByContinue(event: Event, pass: bool) | ByDetach(event: Event)

  /** How an event was handed back to the target process, and whether it had been posted. */
  datatype Outcome = Outcome(event: Event, notHandled: bool, posted: bool)

  datatype DebugPhase =
    | Waiting                              // in WaitForDebugEvent
    | Received(ev: Event)                  // conditionalPostDebugEvent called, before lock()
    | Entered(ev: Event)                   // holds the lock, before the test of generateDebugEvents
    | Testing(ev: Event)                   // holds the lock, at the head of the while loop
    | Asleep(ev: Event, c: int)            // in wait(), lock released
    | Woken(ev: Event, c: int)             // in wait(), about to lock again
    | Checking(ev: Event, c: int)          // in wait(), holds the lock again
    | Finished(ev: Event, notHandled: bool, posted: bool) // lock released, before ContinueDebugEvent

  datatype MainPhase =
    | Reading                              // in readMessage
    | Wanting(msg: Message)                // before lock()
    | Serving(msg: Message)                // holds the lock
    | Served                               // body done, before unlock()

  datatype Holder = Nobody | DebugThread | MainThread

  /** What has happened so far; the code does not read it. */
  datatype Logs = Logs(posted: seq<Event>, released: seq<Release>, outcomes: seq<Outcome>, replies: seq<Reply>)

  datatype State = State(
    holder: Holder, generate: bool, current: Option<Event>, pass: bool, cond: A.Cond,
    debug: DebugPhase, main: MainPhase, logs: Logs)

  datatype Action = Arrive(ev: Event) | DebugRuns | Read(msg: Message) | MainRuns

  // --------------------------------------------------------------------------
  // Keeping the logs

  function LogPost(l: Logs, ev: Event): Logs {
    l.(posted := l.posted + [ev])
  }

  function LogRelease(l: Logs, r: Release): Logs {
    l.(released := l.released + [r])
  }

  function LogOutcome(l: Logs, o: Outcome): Logs {
    l.(outcomes := l.outcomes + [o])
  }

  function LogReply(l: Logs, r: Reply): Logs {
    l.(replies := l.replies + [r])
  }

  // --------------------------------------------------------------------------
  // The two threads

  function DebugStep(s: State): Option<State> {
    match s.debug
    case Waiting => None
    case Received(ev) =>
      if !ev.posts then Some(s.(debug := Finished(ev, ev.notHandled, false)))
      else if s.holder == Nobody then Some(s.(holder := DebugThread, debug := Entered(ev)))
      else None
    case Entered(ev) =>
      if s.generate then Some(s.(current := Some(ev), logs := LogPost(s.logs, ev), debug := Testing(ev)))
      else Some(s.(holder := Nobody, debug := Finished(ev, ev.notHandled, false)))
    case Testing(ev) =>
      if s.current.Some? then
        Some(s.(cond := A.StartWait(s.cond), holder := Nobody, debug := Asleep(ev, s.cond.counter)))
      else Some(s.(holder := Nobody, debug := Finished(ev, s.pass, true)))
    case Asleep(ev, c) =>
      if s.cond.waitEvent then Some(s.(debug := Woken(ev, c))) else None
    case Woken(ev, c) =>
      if s.holder == Nobody then Some(s.(holder := DebugThread, debug := Checking(ev, c))) else None
    case Checking(ev, c) =>
      if A.MayReturn(s.cond, c) then Some(s.(cond := A.EndWait(s.cond), debug := Testing(ev)))
      else Some(s.(holder := Nobody, debug := Asleep(ev, c)))
    case Finished(ev, notHandled, posted) =>
      Some(s.(debug := Waiting, logs := LogOutcome(s.logs, Outcome(ev, notHandled, posted))))
  }

  /** What the main thread does with a message while it holds the lock. */
  function Serve(s: State, msg: Message): State {
    match msg
    case ATTACH => s.(generate := true)
    case DETACH =>
      if s.current.Some? then
        s.(generate := false, current := None, cond := A.NotifyAll(s.cond),
           logs := LogRelease(s.logs, ByDetach(s.current.value)))
      else s.(generate := false)
    case POLLEVENT => s.(logs := LogReply(s.logs, Polled(s.current)))
    case CONTINUEEVENT(pass) =>
      if s.current.Some? then
        s.(current := None, pass := pass, cond := A.Notify(s.cond),
           logs := LogReply(LogRelease(s.logs, ByContinue(s.current.value, pass)), Continued(true)))
      else s.(logs := LogReply(s.logs, Continued(false)))
  }

  function MainStep(s: State): Option<State> {
    match s.main
    case Reading => None
    case Wanting(msg) =>
      if s.holder == Nobody then Some(s.(holder := MainThread, main := Serving(msg))) else None
    case Serving(msg) => Some(Serve(s, msg).(main := Served))
    case Served => Some(s.(holder := Nobody, main := Reading))
  }

  /** One step; events arrive with growing numbers. */
  function Next(s: State, a: Action): Option<State> {
    match a
    case Arrive(ev) =>
      if s.debug == Waiting && ev.id == |s.logs.outcomes| then Some(s.(debug := Received(ev))) else None
    case DebugRuns => DebugStep(s)
    case Read(msg) => if s.main == Reading then Some(s.(main := Wanting(msg))) else None
    case MainRuns => MainStep(s)
  }

  const INITIAL: State :=
    State(Nobody, false, None, true, A.Cond(0, 0, 0, false), Waiting, Reading, Logs([], [], [], []))

  ghost predicate Step(s: State, s': State)
  {
    exists a :: Next(s, a) == Some(s')
  }

  ghost predicate Run(run: seq<State>)
  {
    && |run| > 0 && run[0] == INITIAL
    && forall i :: 0 <= i < |run| - 1 ==> Step(run[i], run[i + 1])
  }

  // --------------------------------------------------------------------------
  // Steps as moves of the monitor

  /** The two threads as callers of the monitor. */
  const DEBUG: A.Tid := 0
  const MAIN: A.Tid := 1

  function DebugCaller(d: DebugPhase): A.Caller {
    match d
    case Entered(_) => A.In
    case Testing(_) => A.In
    case Asleep(_, c) => A.Asleep(c, false)
    case Woken(_, c) => A.Awake(c, false, false)
    case Checking(_, c) => A.Checking(c, false, false)
    case _ => A.Away
  }

  function MainCaller(m: MainPhase): A.Caller {
    if m.Serving? || m.Served? then A.In else A.Away
  }

  function HolderTid(h: Holder): Option<A.Tid> {
    match h
    case Nobody => None
    case DebugThread => Some(DEBUG)
    case MainThread => Some(MAIN)
  }

  function MonitorOf(s: State): A.Monitor {
    A.Monitor(HolderTid(s.holder), s.cond, map[DEBUG := DebugCaller(s.debug), MAIN := MainCaller(s.main)])
  }

  /** One after the other, two moves or fewer. */
  ghost predicate TwoMoves(m: A.Monitor, m': A.Monitor)
  {
    exists between :: A.Moves(m, between) && A.Moves(between, m')
  }

  lemma MoveThenMove(m: A.Monitor, t: A.Tid, a: A.Move, between: A.Monitor, b: A.Move, m': A.Monitor)
    requires A.MoveBy(m, between, t, a) && A.MoveBy(between, m', t, b)
    ensures TwoMoves(m, m')
  {
    assert A.Moves(m, between) && A.Moves(between, m');
  }

  lemma OneMove(m: A.Monitor, t: A.Tid, a: A.Move, m': A.Monitor)
    requires A.MoveBy(m, m', t, a)
    ensures TwoMoves(m, m')
  {
    assert A.Moves(m, m') && A.Moves(m', m');
  }

  lemma NoMove(m: A.Monitor)
    ensures TwoMoves(m, m)
  {
    assert A.Moves(m, m);
  }

  lemma PostMoves(s: State)
    requires DebugStep(s).Some? && (s.debug.Received? || s.debug.Entered? || s.debug.Finished?)
    ensures TwoMoves(MonitorOf(s), MonitorOf(DebugStep(s).value))
  {
    var m, m' := MonitorOf(s), MonitorOf(DebugStep(s).value);
    if s.debug.Received? && s.debug.ev.posts {
      MoveThenMove(m, DEBUG, A.Lock, m.(callers := m.callers[DEBUG := A.Wanting]), A.Enter, m');
    } else if s.debug.Entered? && !s.generate {
      OneMove(m, DEBUG, A.Unlock, m');
    } else {
      NoMove(m);
    }
  }

  lemma TestMoves(s: State)
    requires s.debug.Testing?
    ensures TwoMoves(MonitorOf(s), MonitorOf(DebugStep(s).value))
  {
    var m, m' := MonitorOf(s), MonitorOf(DebugStep(s).value);
    if s.current.Some? {
      var between := A.Monitor(m.holder, A.StartWait(m.k), m.callers[DEBUG := A.Parting(m.k.counter, false)]);
      MoveThenMove(m, DEBUG, A.Wait(false), between, A.Sleep, m');
    } else {
      OneMove(m, DEBUG, A.Unlock, m');
    }
  }

  lemma CheckMoves(s: State)
    requires s.debug.Checking?
    ensures TwoMoves(MonitorOf(s), MonitorOf(DebugStep(s).value))
  {
    var m, m' := MonitorOf(s), MonitorOf(DebugStep(s).value);
    if A.MayReturn(s.cond, s.debug.c) {
      OneMove(m, DEBUG, A.Check, m');
    } else {
      MoveThenMove(m, DEBUG, A.Check, m.(callers := m.callers[DEBUG := A.Parting(s.debug.c, false)]), A.Sleep, m');
    }
  }

  lemma DebugMoves(s: State)
    requires DebugStep(s).Some?
    ensures TwoMoves(MonitorOf(s), MonitorOf(DebugStep(s).value))
  {
    var m, m' := MonitorOf(s), MonitorOf(DebugStep(s).value);
    match s.debug
    case Testing(_) => TestMoves(s);
    case Asleep(_, _) => OneMove(m, DEBUG, A.Wake, m');
    case Woken(_, _) => OneMove(m, DEBUG, A.Enter, m');
    case Checking(_, _) => CheckMoves(s);
    case _ => PostMoves(s);
  }

  lemma MainMoves(s: State)
    requires MainStep(s).Some?
    ensures TwoMoves(MonitorOf(s), MonitorOf(MainStep(s).value))
  {
    var m, m' := MonitorOf(s), MonitorOf(MainStep(s).value);
    match s.main
    case Wanting(msg) => MoveThenMove(m, MAIN, A.Lock, m.(callers := m.callers[MAIN := A.Wanting]), A.Enter, m');
    case Serving(msg) =>
      if msg.DETACH? && s.current.Some? {
        OneMove(m, MAIN, A.NotifyEvery, m');
      } else if msg.CONTINUEEVENT? && s.current.Some? {
        OneMove(m, MAIN, A.NotifyOne, m');
      } else {
        NoMove(m);
      }
    case Served => OneMove(m, MAIN, A.Unlock, m');
  }

  /** The threads use lock and condition variable only through the operations of the monitor: every step is at most two
      of its moves. */
  lemma StepsAreMoves(s: State, s': State)
    requires Step(s, s')
    ensures TwoMoves(MonitorOf(s), MonitorOf(s'))
  {
    var a :| Next(s, a) == Some(s');
    match a
    case Arrive(_) => NoMove(MonitorOf(s));
    case Read(_) => NoMove(MonitorOf(s));
    case DebugRuns => DebugMoves(s);
    case MainRuns => MainMoves(s);
  }

  // --------------------------------------------------------------------------
  // What the logs mean

  function ReleasedEvents(rs: seq<Release>): seq<Event> {
    if rs == [] then [] else ReleasedEvents(rs[..|rs| - 1]) + [rs[|rs| - 1].event]
  }

  /** The decision in force after these releases: that of the last CONTINUEEVENT, and true before the first. */
  function Decision(rs: seq<Release>): bool {
    if rs == [] then true else
    match rs[|rs| - 1]
    case ByContinue(_, pass) => pass
    case ByDetach(_) => Decision(rs[..|rs| - 1])
  }

  /** The outcomes the posted events must get, in order. */
  function Decided(rs: seq<Release>): seq<Outcome> {
    if rs == [] then [] else
    Decided(rs[..|rs| - 1]) + [Outcome(rs[|rs| - 1].event, Decision(rs), true)]
  }

  /** The outcomes of the posted events only. */
  function OfPosted(outcomes: seq<Outcome>): seq<Outcome> {
    if outcomes == [] then [] else
    var o := outcomes[|outcomes| - 1];
    OfPosted(outcomes[..|outcomes| - 1]) + if o.posted then [o] else []
  }

  predicate Increasing(events: seq<Event>) {
    forall i, j :: 0 <= i < j < |events| ==> events[i].id < events[j].id
  }

  // --------------------------------------------------------------------------
  // The invariant

  /** The event the debug thread has posted and not yet handed on. */
  function InHand(d: DebugPhase): Option<Event> {
    match d
    case Testing(ev) => Some(ev)
    case Asleep(ev, _) => Some(ev)
    case Woken(ev, _) => Some(ev)
    case Checking(ev, _) => Some(ev)
    case _ => None
  }

  predicate InWait(d: DebugPhase) {
    d.Asleep? || d.Woken? || d.Checking?
  }

  ghost predicate LockInv(s: State)
  {
    && (s.holder == DebugThread <==> s.debug.Entered? || s.debug.Testing? || s.debug.Checking?)
    && (s.holder == MainThread <==> s.main.Serving? || s.main.Served?)
  }

  /** The only waiter is the debug thread; an event in hand is current until it is released, and
      its release leaves a ticket that the debug thread may take. */
  ghost predicate WaitInv(k: A.Cond, d: DebugPhase, current: Option<Event>)
  {
    && k.waiters == (if InWait(d) then 1 else 0)
    && k.tickets == (if InWait(d) && current.None? then 1 else 0)
    && k.waitEvent == (k.tickets > 0)
    && (InWait(d) ==> if current.None? then d.c == k.counter - 1 else d.c == k.counter)
    && (d.Woken? || d.Checking? ==> current.None?)
    && (current.Some? ==> InHand(d) == current)
  }

  /** Posted events are released in order, one by one, and handed on with the decision in force. */
  ghost predicate LogInv(l: Logs, d: DebugPhase, current: Option<Event>, pass: bool)
  {
    && l.posted == ReleasedEvents(l.released) + Outstanding(current)
    && pass == Decision(l.released)
    && Decided(l.released) == OfPosted(l.outcomes) + HandedOn(d, current, pass)
  }

  function Outstanding(current: Option<Event>): seq<Event> {
    if current.Some? then [current.value] else []
  }

  /** The outcome of a released event that the debug thread still has to report. */
  function HandedOn(d: DebugPhase, current: Option<Event>, pass: bool): seq<Outcome> {
    if d.Finished? && d.posted then [Outcome(d.ev, d.notHandled, true)]
    else if InHand(d).Some? && current.None? then [Outcome(InHand(d).value, pass, true)]
    else []
  }

  /** Posted events have growing numbers. */
  ghost predicate NumberInv(l: Logs, d: DebugPhase)
  {
    && Increasing(l.posted)
    && (!d.Waiting? ==> d.ev.id == |l.outcomes|)
    && (l.posted != [] ==>
          l.posted[|l.posted| - 1].id < |l.outcomes| + if InHand(d).Some? || d.Finished? then 1 else 0)
  }

  /** Events that were not posted keep their own way of being continued. */
  ghost predicate DefaultInv(l: Logs, d: DebugPhase)
  {
    && (forall i :: 0 <= i < |l.outcomes| && !l.outcomes[i].posted ==>
          l.outcomes[i].notHandled == l.outcomes[i].event.notHandled)
    && (d.Finished? && !d.posted ==> d.notHandled == d.ev.notHandled)
  }

  ghost predicate Inv(s: State)
  {
    && LockInv(s)
    && DefaultInv(s.logs, s.debug)
    && WaitInv(s.cond, s.debug, s.current)
    && LogInv(s.logs, s.debug, s.current, s.pass)
    && NumberInv(s.logs, s.debug)
  }

  lemma ReleaseExtends(rs: seq<Release>, r: Release)
    ensures ReleasedEvents(rs + [r]) == ReleasedEvents(rs) + [r.event]
    ensures Decision(rs + [r]) == if r.ByContinue? then r.pass else Decision(rs)
    ensures Decided(rs + [r]) == Decided(rs) + [Outcome(r.event, Decision(rs + [r]), true)]
  {
    assert (rs + [r])[..|rs|] == rs;
  }

  lemma OutcomeExtends(os: seq<Outcome>, o: Outcome)
    ensures OfPosted(os + [o]) == OfPosted(os) + if o.posted then [o] else []
  {
    assert (os + [o])[..|os|] == os;
  }

  lemma StepKeepsLockInv(s: State, a: Action)
    requires LockInv(s) && Next(s, a).Some?
    ensures LockInv(Next(s, a).value)
  {
  }

  lemma DebugKeepsWaitInv(s: State)
    requires LockInv(s) && WaitInv(s.cond, s.debug, s.current) && DebugStep(s).Some?
    ensures var s' := DebugStep(s).value; WaitInv(s'.cond, s'.debug, s'.current)
  {
  }

  /** Whoever serves a message while an event is current finds the debug thread asleep, waiting for it. */
  lemma ServeFindsWaiter(s: State)
    requires LockInv(s) && WaitInv(s.cond, s.debug, s.current) && s.main.Serving? && s.current.Some?
    ensures s.debug == Asleep(s.current.value, s.cond.counter) && s.cond.waiters == 1 && s.cond.tickets == 0
  {
  }

  lemma ServeKeepsWaitInv(s: State)
    requires LockInv(s) && WaitInv(s.cond, s.debug, s.current) && s.main.Serving?
    ensures var s' := Serve(s, s.main.msg); WaitInv(s'.cond, s'.debug, s'.current)
  {
    if s.current.Some? {
      ServeFindsWaiter(s);
    }
  }

  /** Releasing the current event moves it from the outstanding events to the decided ones. */
  lemma ReleaseKeepsLogInv(l: Logs, d: DebugPhase, current: Option<Event>, pass: bool, r: Release)
    requires LogInv(l, d, current, pass) && current == Some(r.event) && InHand(d) == current
    ensures LogInv(LogRelease(l, r), d, None, if r.ByContinue? then r.pass else pass)
  {
    ReleaseExtends(l.released, r);
  }

  /** Reporting an outcome moves it from the debug thread to the log. */
  lemma OutcomeKeepsLogInv(l: Logs, d: DebugPhase, pass: bool, current: Option<Event>)
    requires LogInv(l, d, current, pass) && d.Finished?
    ensures LogInv(LogOutcome(l, Outcome(d.ev, d.notHandled, d.posted)), Waiting, current, pass)
  {
    OutcomeExtends(l.outcomes, Outcome(d.ev, d.notHandled, d.posted));
  }

  /** A step of the debug thread that logs no outcome and posts nothing. */
  lemma DebugMoveKeepsLogInv(l: Logs, d: DebugPhase, d': DebugPhase, current: Option<Event>, pass: bool)
    requires LogInv(l, d, current, pass) && HandedOn(d', current, pass) == HandedOn(d, current, pass)
    ensures LogInv(l, d', current, pass)
  {
  }

  lemma PostKeepsLogInv(l: Logs, d: DebugPhase, pass: bool, ev: Event)
    requires LogInv(l, d, None, pass) && d == Entered(ev)
    ensures LogInv(LogPost(l, ev), Testing(ev), Some(ev), pass)
  {
  }

  /** Most steps of the debug thread leave the logs and the decision as they are. */
  lemma DebugMoveIsQuiet(s: State)
    requires WaitInv(s.cond, s.debug, s.current) && DebugStep(s).Some?
    requires !s.debug.Finished? && !(s.debug.Entered? && s.generate)
    ensures var s' := DebugStep(s).value;
            && s'.logs == s.logs && s'.current == s.current && s'.pass == s.pass
            && HandedOn(s'.debug, s.current, s.pass) == HandedOn(s.debug, s.current, s.pass)
  {
  }

  lemma DebugKeepsLogInv(s: State)
    requires WaitInv(s.cond, s.debug, s.current) && LogInv(s.logs, s.debug, s.current, s.pass)
    requires DebugStep(s).Some?
    ensures var s' := DebugStep(s).value; LogInv(s'.logs, s'.debug, s'.current, s'.pass)
  {
    if s.debug.Finished? {
      OutcomeKeepsLogInv(s.logs, s.debug, s.pass, s.current);
    } else if s.debug.Entered? && s.generate {
      PostKeepsLogInv(s.logs, s.debug, s.pass, s.debug.ev);
    } else {
      DebugMoveIsQuiet(s);
      DebugMoveKeepsLogInv(s.logs, s.debug, DebugStep(s).value.debug, s.current, s.pass);
    }
  }

  lemma ServeKeepsLogInv(s: State)
    requires LockInv(s) && WaitInv(s.cond, s.debug, s.current) && LogInv(s.logs, s.debug, s.current, s.pass)
    requires s.main.Serving?
    ensures var s' := Serve(s, s.main.msg); LogInv(s'.logs, s'.debug, s'.current, s'.pass)
  {
    if s.current.Some? {
      ServeFindsWaiter(s);
      match s.main.msg
      case DETACH =>
        ReleaseKeepsLogInv(s.logs, s.debug, s.current, s.pass, ByDetach(s.current.value));
      case CONTINUEEVENT(pass) =>
        ReleaseKeepsLogInv(s.logs, s.debug, s.current, s.pass, ByContinue(s.current.value, pass));
      case _ =>
    }
  }

  lemma DebugKeepsNumberInv(s: State)
    requires NumberInv(s.logs, s.debug) && DebugStep(s).Some?
    ensures var s' := DebugStep(s).value; NumberInv(s'.logs, s'.debug)
  {
    if s.debug.Entered? && s.generate {
      PostKeepsNumbers(s.logs, s.debug.ev);
    }
  }

  lemma PostKeepsNumbers(l: Logs, ev: Event)
    requires NumberInv(l, Entered(ev))
    ensures NumberInv(LogPost(l, ev), Testing(ev))
  {
  }

  lemma DebugKeepsDefaultInv(s: State)
    requires DefaultInv(s.logs, s.debug) && DebugStep(s).Some?
    ensures var s' := DebugStep(s).value; DefaultInv(s'.logs, s'.debug)
  {
  }

  /** The main thread does not touch what numbering depends on. */
  lemma MainIgnoresNumbers(s: State)
    requires MainStep(s).Some?
    ensures var s' := MainStep(s).value;
            s'.logs.posted == s.logs.posted && s'.debug == s.debug && s'.logs.outcomes == s.logs.outcomes
  {
  }

  lemma DebugKeepsInv(s: State)
    requires Inv(s) && DebugStep(s).Some?
    ensures Inv(DebugStep(s).value)
  {
    StepKeepsLockInv(s, DebugRuns);
    DebugKeepsWaitInv(s);
    DebugKeepsLogInv(s);
    DebugKeepsNumberInv(s);
    DebugKeepsDefaultInv(s);
  }

  lemma MainKeepsInv(s: State)
    requires Inv(s) && MainStep(s).Some?
    ensures Inv(MainStep(s).value)
  {
    StepKeepsLockInv(s, MainRuns);
    MainIgnoresNumbers(s);
    if s.main.Serving? {
      ServeKeepsWaitInv(s);
      ServeKeepsLogInv(s);
    }
  }

  lemma StepKeepsInv(s: State, a: Action)
    requires Inv(s) && Next(s, a).Some?
    ensures Inv(Next(s, a).value)
  {
    match a
    case DebugRuns => DebugKeepsInv(s);
    case MainRuns => MainKeepsInv(s);
    case Arrive(_) =>
    case Read(_) =>
  }

  lemma {:induction false} RunKeepsInv(run: seq<State>, i: nat)
    requires Run(run) && i < |run|
    ensures Inv(run[i])
  {
    if i > 0 {
      RunKeepsInv(run, i - 1);
      assert Step(run[i - 1], run[i - 1 + 1]);
      var a :| Next(run[i - 1], a) == Some(run[i]);
      StepKeepsInv(run[i - 1], a);
    }
  }

  // --------------------------------------------------------------------------
  // Main results

  /** On every run the posted events, all different, are released in the order posted, each
      exactly once, and the current event is the one posted and not yet released. */
  lemma ReleasedExactlyOnce(run: seq<State>, i: nat)
    requires Run(run) && i < |run|
    ensures Increasing(run[i].logs.posted)
    ensures run[i].logs.posted == ReleasedEvents(run[i].logs.released) + Outstanding(run[i].current)
  {
    RunKeepsInv(run, i);
  }

  /** A release always finds the debug thread waiting, with no ticket left over, and gives it one it may
      take: no wakeup is lost. */
  lemma ReleaseWakesDebugThread(run: seq<State>, i: nat)
    requires Run(run) && i < |run| && run[i].main.Serving? && run[i].current.Some?
    requires run[i].main.msg.DETACH? || run[i].main.msg.CONTINUEEVENT?
    ensures var s := run[i];
            && s.debug == Asleep(s.current.value, s.cond.counter) && s.cond.waiters == 1 && s.cond.tickets == 0
            && var s' := Serve(s, s.main.msg);
               s'.debug == s.debug && s'.cond == A.Cond(s.cond.counter + 1, 1, 1, true)
  {
    RunKeepsInv(run, i);
    ServeFindsWaiter(run[i]);
  }

  /** Left alone with a free lock after a release, the debug thread finishes in four steps, with the
      decision in force. */
  lemma ReleasedThreadFinishes(run: seq<State>, i: nat, ev: Event, c: int)
    requires Run(run) && i < |run|
    requires run[i].debug == Asleep(ev, c) && run[i].current.None? && run[i].holder == Nobody
    ensures var s := run[i];
            exists s1, s2, s3, s4 ::
              && DebugStep(s) == Some(s1) && DebugStep(s1) == Some(s2)
              && DebugStep(s2) == Some(s3) && DebugStep(s3) == Some(s4)
              && s4.debug == Finished(ev, Decision(s.logs.released), true) && s4.holder == Nobody
  {
    RunKeepsInv(run, i);
    var s := run[i];
    var s1 := s.(debug := Woken(ev, c));
    var s2 := s1.(holder := DebugThread, debug := Checking(ev, c));
    var s3 := s2.(cond := A.EndWait(s2.cond), debug := Testing(ev));
    var s4 := s3.(holder := Nobody, debug := Finished(ev, s3.pass, true));
    assert DebugStep(s) == Some(s1) && DebugStep(s1) == Some(s2);
    assert DebugStep(s2) == Some(s3) && DebugStep(s3) == Some(s4);
  }

  /** Posted events are continued in order, an event released by CONTINUEEVENT with the decision of that
      message, an event flushed by DETACH with the decision of the last CONTINUEEVENT before it. */
  lemma DecisionsRespected(run: seq<State>, i: nat)
    requires Run(run) && i < |run|
    ensures OfPosted(run[i].logs.outcomes) <= Decided(run[i].logs.released)
    ensures |Decided(run[i].logs.released)| <= |OfPosted(run[i].logs.outcomes)| + 1
    ensures forall k :: 0 <= k < |run[i].logs.outcomes| && !run[i].logs.outcomes[k].posted ==>
              run[i].logs.outcomes[k].notHandled == run[i].logs.outcomes[k].event.notHandled
  {
    RunKeepsInv(run, i);
  }

  lemma {:induction false} DecidedAt(rs: seq<Release>, k: nat)
    requires k < |rs|
    ensures |Decided(rs)| == |rs|
    ensures Decided(rs)[k] == Outcome(rs[k].event, Decision(rs[..k + 1]), true)
    ensures rs[k].ByContinue? ==> Decided(rs)[k].notHandled == rs[k].pass
  {
    var front := rs[..|rs| - 1];
    if k == |rs| - 1 {
      assert rs[..k + 1] == rs;
      if front != [] {
        DecidedAt(front, 0);
      }
    } else {
      DecidedAt(front, k);
      assert front[..k + 1] == rs[..k + 1];
    }
  }

  lemma {:induction false} ReleasedCount(rs: seq<Release>)
    ensures |ReleasedEvents(rs)| == |rs|
  {
    if rs != [] {
      ReleasedCount(rs[..|rs| - 1]);
    }
  }

  /** POLLEVENT reports the first posted event that is not yet released, and CONTINUEEVENT succeeds exactly
      when there is one. */
  lemma RepliesTellOutstanding(run: seq<State>, i: nat)
    requires Run(run) && i < |run| && run[i].main.Serving?
    ensures var l := run[i].logs; var l' := Serve(run[i], run[i].main.msg).logs;
            var n := |l.released|;
            && n <= |l.posted| <= n + 1
            && (run[i].main.msg == POLLEVENT ==>
                  l'.replies == l.replies + [Polled(if n < |l.posted| then Some(l.posted[n]) else None)])
            && (run[i].main.msg.CONTINUEEVENT? ==>
                  l'.replies == l.replies + [Continued(n < |l.posted|)])
  {
    RunKeepsInv(run, i);
    ReleasedCount(run[i].logs.released);
  }

  lemma DetachedStepPostsNothing(s: State, s': State)
    requires Step(s, s') && !s.generate && s.main != Serving(ATTACH)
    ensures !s'.generate && s'.logs.posted == s.logs.posted
  {
    var a :| Next(s, a) == Some(s');
  }

  /** Nothing is posted from a DETACH until the next ATTACH. */
  lemma {:induction false} NothingPostedDetached(run: seq<State>, i: nat, k: nat)
    requires Run(run) && i <= k < |run| && !run[i].generate
    requires forall j :: i <= j < k ==> run[j].main != Serving(ATTACH)
    ensures !run[k].generate && run[k].logs.posted == run[i].logs.posted
  {
    if i < k {
      NothingPostedDetached(run, i, k - 1);
      assert Step(run[k - 1], run[k - 1 + 1]);
      DetachedStepPostsNothing(run[k - 1], run[k]);
    }
  }

  /** The main thread serves the message in this step. */
  predicate Serves(s: State, s': State, msg: Message) {
    s.main == Serving(msg) && s'.main == Served
  }

  /** The last of the ATTACH and DETACH messages served before state k is an ATTACH. */
  ghost predicate Attached(run: seq<State>, k: nat)
    requires k < |run|
  {
    k > 0 && (Serves(run[k - 1], run[k], ATTACH) || (!Serves(run[k - 1], run[k], DETACH) && Attached(run, k - 1)))
  }

  lemma StepSetsGenerate(s: State, s': State)
    requires Step(s, s')
    ensures s'.generate == (Serves(s, s', ATTACH) || (!Serves(s, s', DETACH) && s.generate))
  {
    var a :| Next(s, a) == Some(s');
  }

  lemma {:induction false} GenerateIsAttached(run: seq<State>, k: nat)
    requires Run(run) && k < |run|
    ensures run[k].generate <==> Attached(run, k)
  {
    if k > 0 {
      GenerateIsAttached(run, k - 1);
      assert Step(run[k - 1], run[k - 1 + 1]);
      StepSetsGenerate(run[k - 1], run[k]);
    }
  }

  /** An event of a kind that is posted becomes the current event, at the end of those posted, if and only if the last
      of ATTACH and DETACH served is ATTACH; otherwise it is handed on as it came. No other step posts anything. */
  lemma PostsIffAttached(run: seq<State>, k: nat)
    requires Run(run) && k + 1 < |run|
    ensures var s, s' := run[k], run[k + 1];
            if s.debug.Entered? && s'.debug != s.debug then
              var ev := s.debug.ev;
              if Attached(run, k) then
                s'.logs.posted == s.logs.posted + [ev] && s'.current == Some(ev) && s'.debug == Testing(ev)
              else
                && s'.logs.posted == s.logs.posted && s'.current == s.current
                && s'.debug == Finished(ev, ev.notHandled, false)
            else s'.logs.posted == s.logs.posted
  {
    GenerateIsAttached(run, k);
    assert Step(run[k], run[k + 1]);
    var a :| Next(run[k], a) == Some(run[k + 1]);
  }

  /** With the lock free and left alone, an event that has come is posted in two steps of the debug thread if its kind
      is posted and the debugger is attached, and is handed on as it came otherwise. */
  lemma EventIsPosted(run: seq<State>, i: nat, ev: Event) returns (s1: State, s2: State)
    requires Run(run) && i < |run| && run[i].debug == Received(ev) && run[i].holder == Nobody
    ensures DebugStep(run[i]) == Some(s1)
    ensures !ev.posts ==> s1 == run[i].(debug := Finished(ev, ev.notHandled, false))
    ensures ev.posts ==> DebugStep(s1) == Some(s2)
    ensures ev.posts && Attached(run, i) ==>
              s2.current == Some(ev) && s2.logs.posted == run[i].logs.posted + [ev] && s2.debug == Testing(ev)
    ensures ev.posts && !Attached(run, i) ==> s2 == run[i].(debug := Finished(ev, ev.notHandled, false))
  {
    GenerateIsAttached(run, i);
    s1 := DebugStep(run[i]).value;
    s2 := if ev.posts then DebugStep(s1).value else s1;
  }

  /** With the lock free and left alone, the main thread serves a message in three steps and reads again: ATTACH and
      DETACH switch posting, DETACH and CONTINUEEVENT release the current event, POLLEVENT and CONTINUEEVENT reply. */
  lemma MessageIsServed(s: State, msg: Message) returns (s1: State, s2: State, s3: State)
    requires s.main == Wanting(msg) && s.holder == Nobody
    ensures MainStep(s) == Some(s1) && MainStep(s1) == Some(s2) && MainStep(s2) == Some(s3)
    ensures Serves(s1, s2, msg) && s3.main == Reading && s3.holder == Nobody && s3.debug == s.debug
    ensures s3.generate == (msg == ATTACH || (msg != DETACH && s.generate))
    ensures s3.current == if msg == DETACH || msg.CONTINUEEVENT? then None else s.current
    ensures s3.pass == if msg.CONTINUEEVENT? && s.current.Some? then msg.pass else s.pass
    ensures |s3.logs.replies| == |s.logs.replies| + if msg == POLLEVENT || msg.CONTINUEEVENT? then 1 else 0
    ensures |s3.logs.released| == |s.logs.released| + if s.current.Some? && s3.current.None? then 1 else 0
  {
    s1 := MainStep(s).value;
    s2 := MainStep(s1).value;
    s3 := MainStep(s2).value;
  }

  /** The message the main thread is busy with. */
  predicate BusyWith(m: MainPhase, msg: Message) {
    m == Wanting(msg) || m == Serving(msg) || m == Served
  }

  lemma StepKeepsMessage(s: State, s': State, msg: Message)
    requires Step(s, s') && BusyWith(s.main, msg) && s'.main != Reading
    ensures BusyWith(s'.main, msg)
  {
    var a :| Next(s, a) == Some(s');
  }

  lemma StepKeepsEvent(s: State, s': State, ev: Event)
    requires Step(s, s') && !s.debug.Waiting? && s.debug.ev == ev && !s'.debug.Waiting?
    ensures s'.debug.ev == ev && s'.logs.outcomes == s.logs.outcomes
  {
    var a :| Next(s, a) == Some(s');
  }

  /** A message read is the one served: no other is served until the main thread reads again. */
  lemma {:induction false} ServedAsRead(run: seq<State>, b: nat, j: nat, msg: Message)
    requires Run(run) && b < j < |run| && Next(run[b], Read(msg)) == Some(run[b + 1])
    requires forall k {:trigger run[k].main} :: b < k <= j ==> run[k].main != Reading
    ensures BusyWith(run[j].main, msg)
    decreases j
  {
    if j > b + 1 {
      ServedAsRead(run, b, j - 1, msg);
      assert Step(run[j - 1], run[j - 1 + 1]) && run[j].main != Reading;
      StepKeepsMessage(run[j - 1], run[j], msg);
    }
  }

  /** The event that came is the one the debug thread has in hand until it waits for the next. */
  lemma {:induction false} EventKept(run: seq<State>, b: nat, j: nat, ev: Event)
    requires Run(run) && b < j < |run| && Next(run[b], Arrive(ev)) == Some(run[b + 1])
    requires forall k {:trigger run[k].debug} :: b < k <= j ==> run[k].debug != Waiting
    ensures !run[j].debug.Waiting? && run[j].debug.ev == ev && run[j].logs.outcomes == run[b].logs.outcomes
    decreases j
  {
    assert run[j].debug != Waiting;
    if j > b + 1 {
      EventKept(run, b, j - 1, ev);
      assert Step(run[j - 1], run[j - 1 + 1]);
      StepKeepsEvent(run[j - 1], run[j], ev);
    }
  }

  lemma ReportStep(s: State, s': State)
    requires Step(s, s') && !s.debug.Waiting? && s'.debug.Waiting?
    ensures s.debug.Finished?
    ensures s'.logs.outcomes == s.logs.outcomes + [Outcome(s.debug.ev, s.debug.notHandled, s.debug.posted)]
  {
    var a :| Next(s, a) == Some(s');
  }

  /** When it waits again it has reported the outcome of that event, and nothing else. */
  lemma EventReported(run: seq<State>, b: nat, j: nat, ev: Event)
    requires Run(run) && b < j && j + 1 < |run| && Next(run[b], Arrive(ev)) == Some(run[b + 1])
    requires forall k {:trigger run[k].debug} :: b < k <= j ==> run[k].debug != Waiting
    requires run[j + 1].debug == Waiting
    ensures run[j].debug.Finished?
    ensures run[j + 1].logs.outcomes
         == run[b].logs.outcomes + [Outcome(ev, run[j].debug.notHandled, run[j].debug.posted)]
  {
    EventKept(run, b, j, ev);
    assert Step(run[j], run[j + 1]);
    ReportStep(run[j], run[j + 1]);
  }
}
