/**
  The stack-lock fast path of one Java object, as emitted by the C2 macro
  assembler (with its transient BUSY mark) and by C1, run by any number of
  threads in any interleaving. Biased locking and inflation are not modelled:
  a thread that would call the slow path simply gives up the attempt.
 */
module StackLock {
  import opened Wrappers

  type Tid = nat

  /** The two emitted forms of lock and unlock. */
  datatype Form = C2 | C1

  /** An on-stack BasicLock: its address and its displaced header word. */
  datatype Box = Box(addr: int, dhw: int)

  const BUSY: int := 0
  const PAGE: int := 0x1000
  const STACK_BIAS: int := 0x7ff

  /** What surrounds the protocol: the neutral header of the object, the stack of each
      thread, the width of a word and the bias between %sp and the real stack pointer. */
  datatype Env = Env(header: int, lo: map<Tid, int>, hi: map<Tid, int>, modulus: int, bias: int)

  ghost predicate ValidEnv(e: Env)
  {
    && 0 < e.header < e.modulus && e.header % 8 == 1    // unlocked, not biased
    && (e.bias == 0 || e.bias == STACK_BIAS) && e.modulus % 4 == 0
    && e.lo.Keys == e.hi.Keys
    && (forall t :: t in e.lo ==> PAGE <= e.lo[t] < e.hi[t] && e.lo[t] % 4 == 0 && e.hi[t] + PAGE <= e.modulus)
    && (forall t, u :: t in e.lo && u in e.lo && t != u ==> Apart(e, t, u))
  }

  /** Different stacks never come closer than a guard page. */
  ghost predicate Apart(e: Env, t: Tid, u: Tid)
  {
    t in e.lo && u in e.lo && t in e.hi && u in e.hi &&
    (e.hi[t] + PAGE <= e.lo[u] || e.hi[u] + PAGE <= e.lo[t])
  }

  ghost predicate OnStack(e: Env, t: Tid, a: int) {
    t in e.lo && t in e.hi && e.lo[t] <= a < e.hi[t] && a % 4 == 0
  }

  ghost predicate OnSomeStack(e: Env, a: int) {
    exists t :: OnStack(e, t, a)
  }

  /** On a biased stack the header, read as a number, must not fall in the window that the
      recursion test of C1 takes for the frames above a stack pointer. */
  ghost predicate HeaderFar(e: Env)
  {
    e.bias == 0 || forall t, sp :: OnStack(e, t, sp) ==> !(sp <= e.header + e.bias < sp + PAGE)
  }

  /** Where a thread is inside the emitted code. */
  datatype Phase =
    | Idle
    | Loaded(form: Form, box: int, sp: int, rmark: int)     // after ld_ptr(mark_addr, Rmark)
    | Won(box: int, rmark: int)                             // C2: the CAS installed BUSY
    | Saved(box: int, rmark: int)                           // C2: box->dhw stored, mark still BUSY
    | Lost(form: Form, box: int, sp: int, fetched: int)     // the CAS failed, Rscratch = fetched mark
    | Unlocking(form: Form, rmark: int)                     // C2 unlock has loaded the mark
    | Inflated                                              // branched to code for inflated marks
    | UnlockFailed                                          // the unlocking CAS lost

  datatype Thread = Thread(phase: Phase, held: seq<Box>)

  datatype State = State(mark: int, threads: map<Tid, Thread>)

  /** The choices a thread makes: start an attempt, or go on with the emitted code. */
  datatype Action = BeginLock(form: Form, box: int, sp: int) | BeginUnlock(form: Form) | Advance

  function OrUnlocked(mark: int): int {
    if mark % 2 == 0 then mark + 1 else mark
  }

  predicate HasMonitorBit(mark: int) {
    mark / 2 % 2 == 1
  }

  /** andcc(Rscratch, 0xfffff003, Rscratch): the bits of x outside 0xffc. */
  function OutsidePage(x: int): int {
    x - x % PAGE + x % 4
  }

  /** A difference of two words, as a word again. */
  function Wrap(x: int, modulus: int): int {
    if x < 0 then x + modulus else if x >= modulus then x - modulus else x
  }

  /** The value left in Rscratch by the recursion test of each form.
      C1 does not take the stack bias off the fetched mark. */
  function Displacement(e: Env, form: Form, fetched: int, sp: int): int
  {
    var spReg := sp - e.bias;
    match form
    case C2 => OutsidePage(Wrap(fetched - e.bias - spReg, e.modulus))
    case C1 => OutsidePage(Wrap(fetched - spReg, e.modulus))
  }

  /** A frame may hold a fresh box between its stack pointer and the end of the stack. */
  ghost predicate FreshBox(e: Env, t: Tid, held: seq<Box>, box: int, sp: int)
  {
    && OnStack(e, t, sp) && OnStack(e, t, box) && sp <= box
    && (forall i :: 0 <= i < |held| ==> sp <= held[i].addr && held[i].addr != box)
  }

  /** One atomic step of thread t: the new mark word and the new thread, if the action is possible. */
  ghost function ThreadStep(e: Env, mark: int, t: Tid, th: Thread, a: Action): Option<(int, Thread)>
    requires ValidEnv(e)
  {
    match (th.phase, a)
    case (Idle, BeginLock(form, box, sp)) =>
      if FreshBox(e, t, th.held, box, sp) then
        Some((mark, th.(phase := Loaded(form, box, sp, mark))))
      else None
    case (Loaded(C2, box, sp, rmark), Advance) =>
      if HasMonitorBit(rmark) then Some((mark, th.(phase := Inflated)))
      else if mark == OrUnlocked(rmark) then Some((BUSY, th.(phase := Won(box, OrUnlocked(rmark)))))
      else Some((mark, th.(phase := Lost(C2, box, sp, mark))))
    case (Won(box, rmark), Advance) =>
      Some((mark, th.(phase := Saved(box, rmark))))
    case (Saved(box, rmark), Advance) =>
      Some((box, Thread(Idle, th.held + [Box(box, rmark)])))
    case (Loaded(C1, box, sp, rmark), Advance) =>
      if mark == OrUnlocked(rmark) then
        Some((box, Thread(Idle, th.held + [Box(box, OrUnlocked(rmark))])))
      else Some((mark, th.(phase := Lost(C1, box, sp, mark))))
    case (Lost(form, box, sp, fetched), Advance) =>
      var d := Displacement(e, form, fetched, sp);
      Some((mark, Thread(Idle, if d == 0 then th.held + [Box(box, 0)] else th.held)))
    case (Idle, BeginUnlock(form)) =>
      if th.held == [] then None
      else Some((mark, th.(phase := Unlocking(form, mark))))
    case (Unlocking(form, rmark), Advance) =>
      if th.held == [] then None else
      var box, rest := th.held[|th.held| - 1], th.held[..|th.held| - 1];
      if box.dhw == 0 then Some((mark, Thread(Idle, rest)))
      else if form == C2 && HasMonitorBit(rmark) then Some((mark, th.(phase := Inflated)))
      else if mark == box.addr then Some((box.dhw, Thread(Idle, rest)))
      else Some((mark, th.(phase := UnlockFailed)))
    case _ => None
  }

  ghost predicate Init(e: Env, s: State)
  {
    && s.mark == e.header && s.threads.Keys == e.lo.Keys
    && forall t :: t in s.threads ==> s.threads[t] == Thread(Idle, [])
  }

  ghost predicate StepBy(e: Env, s: State, s': State, t: Tid, a: Action)
    requires ValidEnv(e)
  {
    && t in s.threads
    && var r := ThreadStep(e, s.mark, t, s.threads[t], a);
       r.Some? && s' == State(r.value.0, s.threads[t := r.value.1])
  }

  ghost predicate Step(e: Env, s: State, s': State)
    requires ValidEnv(e)
  {
    exists t, a :: StepBy(e, s, s', t, a)
  }

  ghost predicate Run(e: Env, run: seq<State>)
    requires ValidEnv(e)
  {
    && |run| > 0 && Init(e, run[0])
    && forall i :: 0 <= i < |run| - 1 ==> Step(e, run[i], run[i + 1])
  }

  // --------------------------------------------------------------------------
  // The inductive invariant

  predicate InWindow(th: Thread) {
    th.phase.Won? || th.phase.Saved?
  }

  /** A thread that has acquired the object and not released it. */
  predicate Owns(th: Thread) {
    InWindow(th) || th.held != []
  }

  /** The boxes of an owner: the outermost one displaces the header, the others are recursive. */
  ghost predicate HeldWell(e: Env, t: Tid, held: seq<Box>)
  {
    forall i :: 0 <= i < |held| ==>
      && OnStack(e, t, held[i].addr)
      && held[i].dhw == if i == 0 then e.header else 0
  }

  ghost predicate PhaseWell(e: Env, t: Tid, th: Thread, mark: int)
  {
    match th.phase
    case Idle => true
    case Loaded(_, box, sp, rmark) => FreshBox(e, t, th.held, box, sp) && !HasMonitorBit(rmark)
    case Won(box, rmark) => OnStack(e, t, box) && rmark == e.header && th.held == []
    case Saved(box, rmark) => OnStack(e, t, box) && rmark == e.header && th.held == []
    case Lost(_, box, sp, fetched) =>
      && FreshBox(e, t, th.held, box, sp) && !HasMonitorBit(fetched)
      && (th.held != [] ==> fetched == mark)
      && (fetched == BUSY || fetched == e.header || OnSomeStack(e, fetched))
      && (th.held == [] ==> !OnStack(e, t, fetched))
    case Unlocking(_, rmark) => th.held != [] && !HasMonitorBit(rmark)
    case Inflated => false
    case UnlockFailed => false
  }

  /** What the invariant says of one thread, given whether it is the owner. */
  ghost predicate ThreadInv(e: Env, t: Tid, th: Thread, mark: int, owner: bool)
  {
    && HeldWell(e, t, th.held)
    && PhaseWell(e, t, th, mark)
    && (Owns(th) <==> owner)
    && (owner ==> mark == if InWindow(th) then BUSY else th.held[0].addr)
  }

  /** The inductive invariant, for the thread that owns the object, if any. */
  ghost predicate InvFor(e: Env, s: State, owner: Option<Tid>)
  {
    && s.threads.Keys == e.lo.Keys
    && (forall t :: t in s.threads ==> ThreadInv(e, t, s.threads[t], s.mark, owner == Some(t)))
    && match owner
       case None => s.mark == e.header
       case Some(t) => t in s.threads
  }

  ghost predicate Inv(e: Env, s: State)
  {
    exists owner :: InvFor(e, s, owner)
  }

  ghost predicate AtMostOneOwner(s: State)
  {
    forall t, u :: t in s.threads && u in s.threads && Owns(s.threads[t]) && Owns(s.threads[u]) ==> t == u
  }

  ghost predicate Unowned(s: State)
  {
    forall t :: t in s.threads ==> !Owns(s.threads[t])
  }

  // --------------------------------------------------------------------------
  // Facts about the words involved

  lemma HeaderWord(h: int)
    requires h % 8 == 1
    ensures !HasMonitorBit(h) && OrUnlocked(h) == h && h % 4 == 1 && h % 2 == 1
  {
  }

  lemma BoxWord(b: int)
    requires b % 4 == 0
    ensures !HasMonitorBit(b) && OrUnlocked(b) == b + 1 && b % 2 == 0
  {
  }

  lemma OrSetsLowBit(x: int)
    ensures OrUnlocked(x) % 2 == 1
  {
  }

  /** The mark is the header of a free object, BUSY, or the outermost box of the owner. */
  lemma MarkKinds(e: Env, s: State, owner: Option<Tid>)
    requires ValidEnv(e) && InvFor(e, s, owner)
    ensures s.mark == BUSY || s.mark == e.header || OnSomeStack(e, s.mark)
    ensures !HasMonitorBit(s.mark)
    ensures s.mark % 2 == 1 <==> owner.None?
  {
    match owner
    case None => HeaderWord(e.header);
    case Some(o) =>
      assert ThreadInv(e, o, s.threads[o], s.mark, true);
      assert InWindow(s.threads[o]) || OnStack(e, o, s.mark);
      BoxWord(s.mark);
  }

  /** The mark never points into the stack of a thread that does not own the object. */
  lemma MarkNotOnIdleStack(e: Env, s: State, owner: Option<Tid>, t: Tid)
    requires ValidEnv(e) && InvFor(e, s, owner) && t in s.threads && owner != Some(t)
    ensures !OnStack(e, t, s.mark)
  {
    match owner
    case None => HeaderWord(e.header);
    case Some(o) =>
      assert ThreadInv(e, o, s.threads[o], s.mark, true);
      assert InWindow(s.threads[o]) || OnStack(e, o, s.mark);
      assert Apart(e, t, o);
  }

  /** A word passes the test exactly when, bias included, it is aligned and within a page of the stack pointer. */
  lemma PageWindow(fetched: int, sp: int, bias: int, modulus: int)
    requires 0 <= bias < PAGE <= sp && sp + PAGE <= modulus && 0 <= fetched < modulus && sp % 4 == 0
    ensures OutsidePage(Wrap(fetched - (sp - bias), modulus)) == 0
       <==> sp <= fetched + bias < sp + PAGE && (fetched + bias) % 4 == 0
  {
    var x := Wrap(fetched - (sp - bias), modulus);
    assert OutsidePage(x) == 0 <==> x < PAGE && x % 4 == 0;
  }

  /** The recursion test of C2 succeeds exactly on a word inside the page above the stack pointer. */
  lemma C2RecursionTest(e: Env, t: Tid, fetched: int, sp: int)
    requires ValidEnv(e) && OnStack(e, t, sp) && 0 <= fetched < e.modulus
    ensures Displacement(e, C2, fetched, sp) == 0 <==> (sp <= fetched < sp + PAGE && fetched % 4 == 0)
  {
    PageWindow(fetched, sp, 0, e.modulus);
    assert fetched - e.bias - (sp - e.bias) == fetched - (sp - 0);
  }

  /** The recursion test of C1 forgets the stack bias: without a bias it is the test of C2,
      with one it fails on every box and only a header near the stack can pass it. */
  lemma C1RecursionTest(e: Env, t: Tid, fetched: int, sp: int)
    requires ValidEnv(e) && OnStack(e, t, sp) && 0 <= fetched < e.modulus
    ensures e.bias == 0 ==> Displacement(e, C1, fetched, sp) == Displacement(e, C2, fetched, sp)
    ensures e.bias != 0 ==>
      (Displacement(e, C1, fetched, sp) == 0 <==> sp <= fetched + e.bias < sp + PAGE && fetched % 4 == 1)
  {
    PageWindow(fetched, sp, e.bias, e.modulus);
    BiasShiftsResidue(fetched);
  }

  lemma BiasShiftsResidue(x: int)
    ensures (x + STACK_BIAS) % 4 == 0 <==> x % 4 == 1
  {
  }

  /** The page above a stack pointer meets no other stack. */
  lemma PageAboveIsOwn(e: Env, t: Tid, u: Tid, sp: int, a: int)
    requires ValidEnv(e) && OnStack(e, t, sp) && OnStack(e, u, a) && sp <= a < sp + PAGE
    ensures t == u
  {
    assert t != u ==> Apart(e, t, u);
  }

  /** A lost CAS is taken for a recursive lock only by the thread that owns the object. */
  lemma RecursionOnlyByOwner(e: Env, t: Tid, th: Thread, mark: int)
    requires ValidEnv(e) && HeaderFar(e) && th.phase.Lost? && PhaseWell(e, t, th, mark)
    requires Displacement(e, th.phase.form, th.phase.fetched, th.phase.sp) == 0
    ensures th.held != []
  {
    var f, sp := th.phase.fetched, th.phase.sp;
    C2RecursionTest(e, t, f, sp);
    C1RecursionTest(e, t, f, sp);
    var u :| OnStack(e, u, f);
    PageAboveIsOwn(e, t, u, sp, f);
  }

  // --------------------------------------------------------------------------
  // Preservation

  /** A step of t that leaves the mark alone. */
  lemma QuietStep(e: Env, s: State, owner: Option<Tid>, t: Tid, th: Thread)
    requires InvFor(e, s, owner) && t in s.threads
    requires ThreadInv(e, t, th, s.mark, owner == Some(t))
    ensures InvFor(e, State(s.mark, s.threads[t := th]), owner)
  {
  }

  /** What is known of a thread that does not own the object does not depend on the mark. */
  lemma OthersIgnoreMark(e: Env, t: Tid, th: Thread, mark: int, mark': int)
    requires ThreadInv(e, t, th, mark, false)
    ensures ThreadInv(e, t, th, mark', false)
  {
  }

  /** A step of t that changes the mark, while t or nobody owns the object before and after. */
  lemma MarkStep(e: Env, s: State, owner: Option<Tid>, t: Tid, th: Thread, mark: int, owner': Option<Tid>)
    requires InvFor(e, s, owner) && t in s.threads
    requires (owner == None || owner == Some(t)) && (owner' == None || owner' == Some(t))
    requires ThreadInv(e, t, th, mark, owner' == Some(t)) && (owner' == None ==> mark == e.header)
    ensures InvFor(e, State(mark, s.threads[t := th]), owner')
  {
    var s' := State(mark, s.threads[t := th]);
    forall u | u in s'.threads ensures ThreadInv(e, u, s'.threads[u], mark, owner' == Some(u)) {
      if u != t {
        assert ThreadInv(e, u, s.threads[u], s.mark, false);
        OthersIgnoreMark(e, u, s.threads[u], s.mark, mark);
      }
    }
  }

  lemma LoadKeepsInv(e: Env, s: State, owner: Option<Tid>, s': State, t: Tid, a: Action)
    requires ValidEnv(e) && InvFor(e, s, owner) && StepBy(e, s, s', t, a) && s.threads[t].phase.Idle?
    ensures InvFor(e, s', owner)
  {
    MarkKinds(e, s, owner);
    QuietStep(e, s, owner, t, s'.threads[t]);
  }

  lemma CasWinKeepsInv(e: Env, s: State, owner: Option<Tid>, s': State, t: Tid, a: Action)
    requires ValidEnv(e) && InvFor(e, s, owner) && StepBy(e, s, s', t, a) && s.threads[t].phase.Loaded?
    requires s.mark == OrUnlocked(s.threads[t].phase.rmark)
    ensures owner == None && InvFor(e, s', Some(t))
  {
    var th, th' := s.threads[t], s'.threads[t];
    MarkKinds(e, s, owner);
    OrSetsLowBit(th.phase.rmark);
    assert ThreadInv(e, t, th, s.mark, false);
    MarkStep(e, s, owner, t, th', s'.mark, Some(t));
  }

  lemma CasLossKeepsInv(e: Env, s: State, owner: Option<Tid>, s': State, t: Tid, a: Action)
    requires ValidEnv(e) && InvFor(e, s, owner) && StepBy(e, s, s', t, a) && s.threads[t].phase.Loaded?
    requires s.mark != OrUnlocked(s.threads[t].phase.rmark)
    ensures InvFor(e, s', owner)
  {
    var th, th' := s.threads[t], s'.threads[t];
    MarkKinds(e, s, owner);
    if owner != Some(t) {
      MarkNotOnIdleStack(e, s, owner, t);
    }
    assert ThreadInv(e, t, th, s.mark, owner == Some(t));
    assert th' == th.(phase := Lost(th.phase.form, th.phase.box, th.phase.sp, s.mark));
    QuietStep(e, s, owner, t, th');
  }

  lemma WindowKeepsInv(e: Env, s: State, owner: Option<Tid>, s': State, t: Tid, a: Action)
    requires ValidEnv(e) && InvFor(e, s, owner) && StepBy(e, s, s', t, a) && InWindow(s.threads[t])
    ensures owner == Some(t) && InvFor(e, s', owner)
  {
    assert ThreadInv(e, t, s.threads[t], s.mark, owner == Some(t));
    MarkStep(e, s, owner, t, s'.threads[t], s'.mark, owner);
  }

  lemma LostKeepsInv(e: Env, s: State, owner: Option<Tid>, s': State, t: Tid, a: Action)
    requires ValidEnv(e) && HeaderFar(e)
    requires InvFor(e, s, owner) && StepBy(e, s, s', t, a) && s.threads[t].phase.Lost?
    ensures InvFor(e, s', owner)
  {
    var th := s.threads[t];
    assert ThreadInv(e, t, th, s.mark, owner == Some(t));
    if Displacement(e, th.phase.form, th.phase.fetched, th.phase.sp) == 0 {
      RecursionOnlyByOwner(e, t, th, s.mark);
    }
    QuietStep(e, s, owner, t, s'.threads[t]);
  }

  lemma UnlockKeepsInv(e: Env, s: State, owner: Option<Tid>, s': State, t: Tid, a: Action)
    requires ValidEnv(e) && InvFor(e, s, owner) && StepBy(e, s, s', t, a) && s.threads[t].phase.Unlocking?
    ensures InvFor(e, s', if s'.threads[t].held == [] then None else owner)
  {
    var th, th' := s.threads[t], s'.threads[t];
    assert ThreadInv(e, t, th, s.mark, owner == Some(t));
    if |th.held| > 1 {
      QuietStep(e, s, owner, t, th');
    } else {
      MarkStep(e, s, owner, t, th', s'.mark, None);
    }
  }

  lemma StepKeepsInv(e: Env, s: State, s': State, t: Tid, a: Action)
    requires ValidEnv(e) && HeaderFar(e) && Inv(e, s) && StepBy(e, s, s', t, a)
    ensures Inv(e, s')
  {
    var owner :| InvFor(e, s, owner);
    match s.threads[t].phase
    case Idle => LoadKeepsInv(e, s, owner, s', t, a);
    case Loaded(_, _, _, rmark) =>
      if s.mark == OrUnlocked(rmark) {
        CasWinKeepsInv(e, s, owner, s', t, a);
      } else {
        CasLossKeepsInv(e, s, owner, s', t, a);
      }
    case Won(_, _) => WindowKeepsInv(e, s, owner, s', t, a);
    case Saved(_, _) => WindowKeepsInv(e, s, owner, s', t, a);
    case Lost(_, _, _, _) => LostKeepsInv(e, s, owner, s', t, a);
    case Unlocking(_, _) => UnlockKeepsInv(e, s, owner, s', t, a);
    case Inflated =>
    case UnlockFailed =>
  }

  /** Every state of every run satisfies the invariant. */
  lemma {:induction false} RunKeepsInv(e: Env, run: seq<State>, i: nat)
    requires ValidEnv(e) && HeaderFar(e) && Run(e, run) && i < |run|
    ensures Inv(e, run[i])
  {
    if i == 0 {
      assert InvFor(e, run[0], None);
    } else {
      RunKeepsInv(e, run, i - 1);
      assert Step(e, run[i - 1], run[i - 1 + 1]);
      var t, a :| StepBy(e, run[i - 1], run[i], t, a);
      StepKeepsInv(e, run[i - 1], run[i], t, a);
    }
  }

  // --------------------------------------------------------------------------
  // Main results

  /** In every reachable state at most one thread owns the object; the mark is BUSY exactly
      while one thread is between its winning CAS and its store of the box; and the mark is the
      displaced header exactly when nobody owns the object. */
  lemma MutualExclusion(e: Env, run: seq<State>, i: nat)
    requires ValidEnv(e) && HeaderFar(e) && Run(e, run) && i < |run|
    ensures AtMostOneOwner(run[i])
    ensures run[i].mark == BUSY <==> exists t :: t in run[i].threads && InWindow(run[i].threads[t])
    ensures run[i].mark == e.header <==> Unowned(run[i])
  {
    RunKeepsInv(e, run, i);
    var owner :| InvFor(e, run[i], owner);
    MarkKinds(e, run[i], owner);
    HeaderWord(e.header);
    match owner
    case None =>
    case Some(t) => assert ThreadInv(e, t, run[i].threads[t], run[i].mark, true);
  }

  /** No run reaches the code for inflated marks, and no unlocking CAS ever loses. */
  lemma SlowArmsUnreachable(e: Env, run: seq<State>, i: nat, t: Tid)
    requires ValidEnv(e) && HeaderFar(e) && Run(e, run) && i < |run| && t in run[i].threads
    ensures !run[i].threads[t].phase.Inflated? && !run[i].threads[t].phase.UnlockFailed?
  {
    RunKeepsInv(e, run, i);
    var owner :| InvFor(e, run[i], owner);
    assert ThreadInv(e, t, run[i].threads[t], run[i].mark, owner == Some(t));
  }

  lemma OnlyUnlockPops(e: Env, s: State, s': State, t: Tid, a: Action)
    requires ValidEnv(e) && StepBy(e, s, s', t, a)
    ensures forall u :: u in s.threads && u != t ==> s'.threads[u] == s.threads[u]
    ensures |s'.threads[t].held| < |s.threads[t].held| ==> s.threads[t].phase.Unlocking?
  {
  }

  /** When the last box is popped, by either form of unlock, the mark is the header again. */
  lemma UnlockRestoresHeader(e: Env, run: seq<State>, i: nat, t: Tid)
    requires ValidEnv(e) && HeaderFar(e) && Run(e, run) && 0 < i < |run|
    requires t in run[i - 1].threads && t in run[i].threads
    requires run[i - 1].threads[t].held != [] && run[i].threads[t].held == []
    ensures run[i].mark == e.header && Unowned(run[i])
  {
    RunKeepsInv(e, run, i - 1);
    assert Step(e, run[i - 1], run[i - 1 + 1]);
    var u, a :| StepBy(e, run[i - 1], run[i], u, a);
    OnlyUnlockPops(e, run[i - 1], run[i], u, a);
    var owner :| InvFor(e, run[i - 1], owner);
    UnlockKeepsInv(e, run[i - 1], owner, run[i], t, a);
  }

  // --------------------------------------------------------------------------
  // Locks that are taken

  /** The state after a step of t. */
  ghost function After(e: Env, s: State, t: Tid, a: Action): State
    requires ValidEnv(e) && t in s.threads && ThreadStep(e, s.mark, t, s.threads[t], a).Some?
  {
    var r := ThreadStep(e, s.mark, t, s.threads[t], a).value;
    State(r.0, s.threads[t := r.1])
  }

  /** The thread makes one step after the other along the path. */
  ghost predicate Path(e: Env, path: seq<State>, t: Tid)
    requires ValidEnv(e)
  {
    forall i :: 0 <= i < |path| - 1 ==> StepBy(e, path[i], path[i + 1], t, Advance)
  }

  /** A C2 thread that has lost its compare-and-swap comes out of it with one box more, marked recursive, if and only if
      it holds the object and its outermost box is within the page above its stack pointer. So does C1 without a
      bias. */
  lemma RecursionIff(e: Env, run: seq<State>, i: nat, t: Tid)
    requires ValidEnv(e) && HeaderFar(e) && Run(e, run) && i < |run|
    requires t in run[i].threads && run[i].threads[t].phase.Lost?
    requires run[i].threads[t].phase.form == C2 || e.bias == 0
    ensures var th := run[i].threads[t];
            var s' := After(e, run[i], t, Advance);
            && s'.mark == run[i].mark
            && s'.threads[t] == Thread(Idle, if th.held != [] && th.held[0].addr < th.phase.sp + PAGE
                                             then th.held + [Box(th.phase.box, 0)] else th.held)
  {
    RunKeepsInv(e, run, i);
    var s := run[i];
    var owner :| InvFor(e, s, owner);
    var th := s.threads[t];
    assert ThreadInv(e, t, th, s.mark, owner == Some(t));
    var f, sp := th.phase.fetched, th.phase.sp;
    FetchedIsWord(e, t, th, s.mark);
    C2RecursionTest(e, t, f, sp);
    C1RecursionTest(e, t, f, sp);
    if Displacement(e, th.phase.form, f, sp) == 0 {
      RecursionOnlyByOwner(e, t, th, s.mark);
    }
  }

  lemma FetchedIsWord(e: Env, t: Tid, th: Thread, mark: int)
    requires ValidEnv(e) && th.phase.Lost? && PhaseWell(e, t, th, mark)
    ensures 0 <= th.phase.fetched < e.modulus
  {
  }

  /** Left alone, a thread takes a free object: it ends with its box, which displaces the header, in the mark word. */
  lemma AloneLocks(e: Env, s: State, t: Tid, form: Form, box: int, sp: int) returns (path: seq<State>)
    requires ValidEnv(e) && s.mark == e.header && t in s.threads && s.threads[t] == Thread(Idle, [])
    requires FreshBox(e, t, [], box, sp)
    ensures |path| > 0 && StepBy(e, s, path[0], t, BeginLock(form, box, sp)) && Path(e, path, t)
    ensures Last(path) == State(box, s.threads[t := Thread(Idle, [Box(box, e.header)])])
  {
    HeaderWord(e.header);
    var s0 := After(e, s, t, BeginLock(form, box, sp));
    var s1 := After(e, s0, t, Advance);
    if form == C1 {
      path := [s0, s1];
    } else {
      var s2 := After(e, s1, t, Advance);
      var s3 := After(e, s2, t, Advance);
      path := [s0, s1, s2, s3];
    }
    assert [] + [Box(box, e.header)] == [Box(box, e.header)];
    assert Last(path).threads == s.threads[t := Thread(Idle, [Box(box, e.header)])];
  }

  /** An unlock pops the last box; the mark changes only with the outermost one, and is then the header again. */
  lemma AloneUnlocks(e: Env, run: seq<State>, i: nat, t: Tid, form: Form) returns (path: seq<State>)
    requires ValidEnv(e) && HeaderFar(e) && Run(e, run) && i < |run|
    requires t in run[i].threads && run[i].threads[t].phase == Idle && run[i].threads[t].held != []
    ensures |path| == 2 && StepBy(e, run[i], path[0], t, BeginUnlock(form)) && Path(e, path, t)
    ensures var held := run[i].threads[t].held;
            path[1] == State(if |held| == 1 then e.header else run[i].mark,
                             run[i].threads[t := Thread(Idle, held[..|held| - 1])])
  {
    RunKeepsInv(e, run, i);
    var s := run[i];
    var owner :| InvFor(e, s, owner);
    var th := s.threads[t];
    assert ThreadInv(e, t, th, s.mark, owner == Some(t));
    MarkKinds(e, s, owner);
    var s0 := After(e, s, t, BeginUnlock(form));
    var s1 := After(e, s0, t, Advance);
    path := [s0, s1];
    assert s1.threads == s.threads[t := s1.threads[t]];
  }

  // --------------------------------------------------------------------------
  // Why the header must be far from the stacks

  ghost function Last(run: seq<State>): State
    requires |run| > 0
  {
    run[|run| - 1]
  }

  /** Appends one step to a run. */
  lemma Extend(e: Env, run: seq<State>, t: Tid, a: Action, mark: int, th: Thread) returns (run': seq<State>)
    requires ValidEnv(e) && Run(e, run) && t in Last(run).threads
    requires ThreadStep(e, Last(run).mark, t, Last(run).threads[t], a) == Some((mark, th))
    ensures Run(e, run') && Last(run') == State(mark, Last(run).threads[t := th])
  {
    var s := Last(run);
    var s' := State(mark, s.threads[t := th]);
    assert StepBy(e, s, s', t, a);
    run' := run + [s'];
  }

  lemma AcquireFree(e: Env, run: seq<State>, u: Tid, box: int) returns (run': seq<State>)
    requires ValidEnv(e) && Run(e, run) && u in Last(run).threads && Last(run).mark == e.header
    requires Last(run).threads[u] == Thread(Idle, []) && FreshBox(e, u, [], box, box)
    ensures Run(e, run')
    ensures Last(run') == State(box, Last(run).threads[u := Thread(Idle, [Box(box, e.header)])])
  {
    HeaderWord(e.header);
    var r := Extend(e, run, u, BeginLock(C1, box, box), e.header, Thread(Loaded(C1, box, box, e.header), []));
    var none: seq<Box> := [];
    assert none + [Box(box, e.header)] == [Box(box, e.header)];
    run' := Extend(e, r, u, Advance, box, Thread(Idle, [Box(box, e.header)]));
    assert Last(run').threads == Last(run).threads[u := Thread(Idle, [Box(box, e.header)])];
  }

  lemma Release(e: Env, run: seq<State>, u: Tid, box: int) returns (run': seq<State>)
    requires ValidEnv(e) && Run(e, run) && u in Last(run).threads && Last(run).mark == box
    requires Last(run).threads[u] == Thread(Idle, [Box(box, e.header)])
    ensures Run(e, run')
    ensures Last(run') == State(e.header, Last(run).threads[u := Thread(Idle, [])])
  {
    var r := Extend(e, run, u, BeginUnlock(C1), box, Thread(Unlocking(C1, box), [Box(box, e.header)]));
    assert Last(r).threads[u].held[..0] == [];
    run' := Extend(e, r, u, Advance, e.header, Thread(Idle, []));
    assert Last(run').threads == Last(run).threads[u := Thread(Idle, [])];
  }

  /** The lost CAS of a thread that fetched a near header is taken for a recursive lock. */
  lemma MistakeHeader(e: Env, run: seq<State>, t: Tid, box: int, sp: int) returns (run': seq<State>)
    requires ValidEnv(e) && e.bias != 0 && Run(e, run) && t in Last(run).threads && Last(run).mark == e.header
    requires Last(run).threads[t] == Thread(Lost(C1, box, sp, e.header), [])
    requires OnStack(e, t, sp) && sp <= e.header + e.bias < sp + PAGE
    ensures Run(e, run')
    ensures Last(run') == State(e.header, Last(run).threads[t := Thread(Idle, [Box(box, 0)])])
  {
    C1RecursionTest(e, t, e.header, sp);
    HeaderWord(e.header);
    var none: seq<Box> := [];
    assert none + [Box(box, 0)] == [Box(box, 0)];
    run' := Extend(e, run, t, Advance, e.header, Thread(Idle, [Box(box, 0)]));
  }

  /** If a header on a biased stack lies where the recursion test of C1 accepts it, two threads can
      both come to own the object. */
  lemma NearHeaderBreaksExclusion(e: Env, t: Tid, u: Tid, sp: int, box: int, boxU: int) returns (run: seq<State>)
    requires ValidEnv(e) && t in e.lo && u in e.lo && t != u && e.bias != 0
    requires FreshBox(e, t, [], box, sp) && FreshBox(e, u, [], boxU, boxU)
    requires sp <= e.header + e.bias < sp + PAGE
    ensures Run(e, run) && !AtMostOneOwner(Last(run))
  {
    run := [State(e.header, map v | v in e.lo :: Thread(Idle, []))];
    run := AcquireFree(e, run, u, boxU);
    run := Extend(e, run, t, BeginLock(C1, box, sp), boxU, Thread(Loaded(C1, box, sp, boxU), []));
    run := Release(e, run, u, boxU);
    BoxNotHeader(e, t, u, sp, boxU);
    run := Extend(e, run, t, Advance, e.header, Thread(Lost(C1, box, sp, e.header), []));
    run := MistakeHeader(e, run, t, box, sp);
    run := AcquireFree(e, run, u, boxU);
    assert Owns(Last(run).threads[t]) && Owns(Last(run).threads[u]);
  }

  lemma BoxNotHeader(e: Env, t: Tid, u: Tid, sp: int, boxU: int)
    requires ValidEnv(e) && t != u && OnStack(e, t, sp) && OnStack(e, u, boxU)
    requires e.bias != 0 && sp <= e.header + e.bias < sp + PAGE
    ensures OrUnlocked(boxU) != e.header
  {
    assert Apart(e, t, u);
  }

  /** With two threads or more, the emitted code excludes on every run exactly when the header is
      far from the stacks. */
  lemma ExclusionIffHeaderFar(e: Env, t: Tid, u: Tid)
    requires ValidEnv(e) && t in e.lo && u in e.lo && t != u
    ensures HeaderFar(e) <==> forall run: seq<State> {:trigger Run(e, run)} :: Run(e, run) ==> AtMostOneOwner(Last(run))
  {
    if HeaderFar(e) {
      forall run: seq<State> | Run(e, run) ensures AtMostOneOwner(Last(run)) {
        MutualExclusion(e, run, |run| - 1);
      }
    } else {
      var v, sp :| OnStack(e, v, sp) && sp <= e.header + e.bias < sp + PAGE;
      var w := if v == t then u else t;
      var run := NearHeaderBreaksExclusion(e, v, w, sp, sp, e.lo[w]);
    }
  }

  /** On a biased stack C1 never recognises a recursive lock: after a lost CAS it always gives up. */
  lemma C1NeverRecursesOnBiasedStack(e: Env, run: seq<State>, i: nat, t: Tid)
    requires ValidEnv(e) && HeaderFar(e) && e.bias != 0 && Run(e, run) && i < |run| && t in run[i].threads
    requires run[i].threads[t].phase.Lost? && run[i].threads[t].phase.form == C1
    ensures ThreadStep(e, run[i].mark, t, run[i].threads[t], Advance)
         == Some((run[i].mark, Thread(Idle, run[i].threads[t].held)))
  {
    RunKeepsInv(e, run, i);
    var owner :| InvFor(e, run[i], owner);
    var th := run[i].threads[t];
    assert ThreadInv(e, t, th, run[i].mark, owner == Some(t));
    C1RecursionTest(e, t, th.phase.fetched, th.phase.sp);
  }
}
