/**
  The V8 form of compare-and-swap: a plain load, compare and store protected by
  a spin lock taken with SWAP. Any number of threads run it on one word, in any
  interleaving of the emitted memory operations. A history of the operations, each entered
  at the instruction that decides it, shows that the word behaves like an
  atomic compare-and-swap register.
 */
module CasUnderLock {
  import opened Wrappers

  type Tid = nat
  type Word = int

  const UNLOCKED: int := 0
  const LOCKED: int := 1

  /** One compare-and-swap, as it takes effect: what the word held, and what was asked for. */
  datatype Entry = Entry(tid: Tid, expected: Word, replacement: Word, found: Word)

  /** Where a thread is inside the emitted code. `start` is the length of the history when the
      operation began, `index` the place of the operation in it; neither is read by the code. */
  datatype Phase =
    | Idle
    | Spin(expected: Word, replacement: Word, lockReg: int, spins: nat, start: nat)
    | Swapped(expected: Word, replacement: Word, lockReg: int, spins: nat, start: nat)
    | Locked(expected: Word, replacement: Word, lockReg: int, start: nat)
    | Loaded(expected: Word, replacement: Word, lockReg: int, value: Word, start: nat)
    | Decided(expected: Word, replacement: Word, lockReg: int, value: Word, start: nat, index: nat)
    | Returned(expected: Word, replacement: Word, value: Word, start: nat, index: nat)

  datatype State = State(lock: int, word: Word, threads: map<Tid, Phase>, history: seq<Entry>)

  datatype Action = Begin(expected: Word, replacement: Word) | Advance

  /** What one step of a thread does to the shared words, the history and the thread. */
  datatype Effect = Effect(lock: int, word: Word, history: seq<Entry>, phase: Phase)

  function ThreadStep(spinCount: nat, s: State, t: Tid, p: Phase, a: Action): Option<Effect> {
    match (p, a)
    case (Idle, Begin(expected, replacement)) =>
      Some(Effect(s.lock, s.word, s.history, Spin(expected, replacement, LOCKED, 0, |s.history|)))
    case (Spin(expected, replacement, lockReg, spins, start), Advance) =>
      if spins < spinCount then       // swap(lock_ptr_reg, 0, lock_reg)
        Some(Effect(lockReg, s.word, s.history, Swapped(expected, replacement, s.lock, spins, start)))
      else                             // yield, reset the counter, then try the swap
        Some(Effect(lockReg, s.word, s.history, Swapped(expected, replacement, s.lock, 0, start)))
    case (Swapped(expected, replacement, lockReg, spins, start), Advance) =>
      if lockReg != UNLOCKED then
        Some(Effect(s.lock, s.word, s.history, Spin(expected, replacement, lockReg, spins + 1, start)))
      else
        Some(Effect(s.lock, s.word, s.history, Locked(expected, replacement, lockReg, start)))
    case (Locked(expected, replacement, lockReg, start), Advance) =>
      Some(Effect(s.lock, s.word, s.history, Loaded(expected, replacement, lockReg, s.word, start)))
    case (Loaded(expected, replacement, lockReg, value, start), Advance) =>
      var h := s.history + [Entry(t, expected, replacement, value)];
      var word := if value == expected then replacement else s.word;
      Some(Effect(s.lock, word, h, Decided(expected, replacement, lockReg, value, start, |s.history|)))
    case (Decided(expected, replacement, lockReg, value, start, index), Advance) =>
      Some(Effect(lockReg, s.word, s.history, Returned(expected, replacement, value, start, index)))
    case (Returned(_, _, _, _, _), Advance) =>
      Some(Effect(s.lock, s.word, s.history, Idle))
    case _ => None
  }

  ghost predicate StepBy(spinCount: nat, s: State, s': State, t: Tid, a: Action)
  {
    && t in s.threads
    && var r := ThreadStep(spinCount, s, t, s.threads[t], a);
       r.Some? && s' == State(r.value.lock, r.value.word, s.threads[t := r.value.phase], r.value.history)
  }

  ghost predicate Step(spinCount: nat, s: State, s': State)
  {
    exists t, a :: StepBy(spinCount, s, s', t, a)
  }

  ghost predicate Init(w0: Word, s: State)
  {
    && s.lock == UNLOCKED && s.word == w0 && s.history == []
    && forall t :: t in s.threads ==> s.threads[t] == Idle
  }

  ghost predicate Run(spinCount: nat, w0: Word, run: seq<State>)
  {
    && |run| > 0 && Init(w0, run[0])
    && forall i :: 0 <= i < |run| - 1 ==> Step(spinCount, run[i], run[i + 1])
  }

  // --------------------------------------------------------------------------
  // The atomic register

  /** The value of an atomic compare-and-swap register after the given operations. */
  function Replay(w0: Word, h: seq<Entry>): Word {
    if h == [] then w0 else
    var e := h[|h| - 1];
    var before := Replay(w0, h[..|h| - 1]);
    if before == e.expected then e.replacement else before
  }

  /** Every operation returned what the atomic register held when it took effect. */
  ghost predicate Legal(w0: Word, h: seq<Entry>)
  {
    forall i :: 0 <= i < |h| ==> h[i].found == Replay(w0, h[..i])
  }

  function CountOf(h: seq<Entry>, t: Tid): nat {
    if h == [] then 0 else
    CountOf(h[..|h| - 1], t) + if h[|h| - 1].tid == t then 1 else 0
  }

  // --------------------------------------------------------------------------
  // The invariant

  /** Between its winning swap and its unlocking store. */
  predicate Holds(p: Phase) {
    (p.Swapped? && p.lockReg == UNLOCKED) || p.Locked? || p.Loaded? || p.Decided?
  }

  ghost predicate PhaseInv(t: Tid, p: Phase, word: Word, h: seq<Entry>)
  {
    match p
    case Idle => true
    case Spin(_, _, lockReg, _, start) => lockReg == LOCKED && start <= |h|
    case Swapped(_, _, lockReg, _, start) => (lockReg == UNLOCKED || lockReg == LOCKED) && start <= |h|
    case Locked(_, _, lockReg, start) => lockReg == UNLOCKED && start <= |h|
    case Loaded(_, _, lockReg, value, start) => lockReg == UNLOCKED && value == word && start <= |h|
    case Decided(expected, replacement, lockReg, value, start, index) =>
      && lockReg == UNLOCKED && start <= index < |h|
      && h[index] == Entry(t, expected, replacement, value)
      && word == if value == expected then replacement else value
    case Returned(expected, replacement, value, start, index) =>
      start <= index < |h| && h[index] == Entry(t, expected, replacement, value)
  }

  ghost predicate InvFor(w0: Word, s: State, holder: Option<Tid>)
  {
    && (forall t :: t in s.threads ==>
          (Holds(s.threads[t]) <==> holder == Some(t)) && PhaseInv(t, s.threads[t], s.word, s.history))
    && s.lock == (if holder.None? then UNLOCKED else LOCKED)
    && (holder.Some? ==> holder.value in s.threads)
    && s.word == Replay(w0, s.history)
    && Legal(w0, s.history)
  }

  ghost predicate Inv(w0: Word, s: State)
  {
    exists holder :: InvFor(w0, s, holder)
  }

  lemma LegalExtend(w0: Word, h: seq<Entry>, e: Entry)
    requires Legal(w0, h) && e.found == Replay(w0, h)
    ensures Legal(w0, h + [e])
    ensures Replay(w0, h + [e]) == if e.found == e.expected then e.replacement else e.found
  {
    var h' := h + [e];
    assert h'[..|h|] == h;
    forall i | 0 <= i < |h'| ensures h'[i].found == Replay(w0, h'[..i]) {
      if i < |h| {
        assert h'[..i] == h[..i];
      }
    }
  }

  /** The step of the holder that decides the operation. */
  lemma DecideKeepsInv(spinCount: nat, w0: Word, s: State, holder: Option<Tid>, s': State, t: Tid, a: Action)
    requires InvFor(w0, s, holder) && StepBy(spinCount, s, s', t, a) && s.threads[t].Loaded?
    ensures InvFor(w0, s', holder)
  {
    var p := s.threads[t];
    LegalExtend(w0, s.history, Entry(t, p.expected, p.replacement, p.value));
    forall u | u in s'.threads ensures PhaseInv(u, s'.threads[u], s'.word, s'.history) {
      assert u != t ==> !Holds(s.threads[u]) && PhaseInv(u, s.threads[u], s.word, s.history);
    }
  }

  /** The swap, which may win the lock. */
  lemma SwapKeepsInv(spinCount: nat, w0: Word, s: State, holder: Option<Tid>, s': State, t: Tid, a: Action)
    requires InvFor(w0, s, holder) && StepBy(spinCount, s, s', t, a) && s.threads[t].Spin?
    ensures InvFor(w0, s', if s.lock == UNLOCKED then Some(t) else holder)
  {
    assert PhaseInv(t, s.threads[t], s.word, s.history);
  }

  /** Every other step leaves word and history alone, and at most releases the lock. */
  lemma OtherKeepsInv(spinCount: nat, w0: Word, s: State, holder: Option<Tid>, s': State, t: Tid, a: Action)
    requires InvFor(w0, s, holder) && StepBy(spinCount, s, s', t, a)
    requires !s.threads[t].Loaded? && !s.threads[t].Spin?
    ensures InvFor(w0, s', if s.threads[t].Decided? then None else holder)
  {
    assert PhaseInv(t, s.threads[t], s.word, s.history);
  }

  lemma StepKeepsInv(spinCount: nat, w0: Word, s: State, s': State, t: Tid, a: Action)
    requires Inv(w0, s) && StepBy(spinCount, s, s', t, a)
    ensures Inv(w0, s')
  {
    var holder :| InvFor(w0, s, holder);
    if s.threads[t].Loaded? {
      DecideKeepsInv(spinCount, w0, s, holder, s', t, a);
    } else if s.threads[t].Spin? {
      SwapKeepsInv(spinCount, w0, s, holder, s', t, a);
    } else {
      OtherKeepsInv(spinCount, w0, s, holder, s', t, a);
    }
  }

  lemma {:induction false} RunKeepsInv(spinCount: nat, w0: Word, run: seq<State>, i: nat)
    requires Run(spinCount, w0, run) && i < |run|
    ensures Inv(w0, run[i])
  {
    if i == 0 {
      assert InvFor(w0, run[0], None);
    } else {
      RunKeepsInv(spinCount, w0, run, i - 1);
      assert Step(spinCount, run[i - 1], run[i - 1 + 1]);
      var t, a :| StepBy(spinCount, run[i - 1], run[i], t, a);
      StepKeepsInv(spinCount, w0, run[i - 1], run[i], t, a);
    }
  }

  // --------------------------------------------------------------------------
  // Main results

  /** In every reachable state the lock word reads locked exactly when some thread is between its
      winning swap and its unlocking store, and then exactly one thread is. */
  lemma LockExclusion(spinCount: nat, w0: Word, run: seq<State>, i: nat)
    requires Run(spinCount, w0, run) && i < |run|
    ensures run[i].lock == LOCKED || run[i].lock == UNLOCKED
    ensures run[i].lock == LOCKED <==> exists t :: t in run[i].threads && Holds(run[i].threads[t])
    ensures var threads := run[i].threads;
            forall t, u :: t in threads && u in threads && Holds(threads[t]) && Holds(threads[u]) ==> t == u
  {
    RunKeepsInv(spinCount, w0, run, i);
    var holder :| InvFor(w0, run[i], holder);
    if holder.Some? {
      assert Holds(run[i].threads[holder.value]);
    }
  }

  /** Linearizability: in every reachable state the history is a legal history of an atomic
      compare-and-swap register that ends in the value of the word, and an operation about to
      return stands in it at a place not before the operations that had returned when it began,
      with the result it returns. */
  lemma Linearizable(spinCount: nat, w0: Word, run: seq<State>, i: nat)
    requires Run(spinCount, w0, run) && i < |run|
    ensures Legal(w0, run[i].history) && run[i].word == Replay(w0, run[i].history)
    ensures forall t :: t in run[i].threads && run[i].threads[t].Returned? ==>
              var p := run[i].threads[t];
              && p.start <= p.index < |run[i].history|
              && run[i].history[p.index] == Entry(t, p.expected, p.replacement, p.value)
  {
    RunKeepsInv(spinCount, w0, run, i);
    var holder :| InvFor(w0, run[i], holder);
    forall t | t in run[i].threads && run[i].threads[t].Returned?
      ensures PhaseInv(t, run[i].threads[t], run[i].word, run[i].history)
    {
    }
  }

  lemma CountExtend(h: seq<Entry>, e: Entry, t: Tid)
    ensures CountOf(h + [e], t) == CountOf(h, t) + if e.tid == t then 1 else 0
  {
    assert (h + [e])[..|h|] == h;
  }

  /** Whether the operation in progress already stands in the history. */
  function Due(p: Phase): nat {
    if p.Decided? || p.Returned? then 1 else 0
  }

  predicate Finishes(s: State, s': State, t: Tid) {
    t in s.threads && t in s'.threads && s.threads[t].Returned? && s'.threads[t].Idle?
  }

  lemma StepCounts(spinCount: nat, s: State, s': State, t: Tid, a: Action, u: Tid)
    requires StepBy(spinCount, s, s', t, a) && u in s.threads
    ensures u in s'.threads
    ensures CountOf(s'.history, u) + Due(s.threads[u])
         == CountOf(s.history, u) + Due(s'.threads[u]) + if Finishes(s, s', u) then 1 else 0
    ensures |s.history| <= |s'.history|
  {
    if s.threads[t].Loaded? {
      var p := s.threads[t];
      CountExtend(s.history, Entry(t, p.expected, p.replacement, p.value), u);
    }
  }

  /** The number of operations thread t has finished in the first n steps of a run. */
  ghost function Finished(run: seq<State>, n: nat, t: Tid): nat
    requires n < |run|
  {
    if n == 0 then 0 else
    Finished(run, n - 1, t) + if Finishes(run[n - 1], run[n], t) then 1 else 0
  }

  /** Every operation enters the history exactly once: a thread has as many entries as it has finished
      operations, plus one while an operation is decided but not yet finished. */
  lemma {:induction false} OncePerOperation(spinCount: nat, w0: Word, run: seq<State>, n: nat, t: Tid)
    requires Run(spinCount, w0, run) && n < |run| && t in run[0].threads
    ensures t in run[n].threads
    ensures CountOf(run[n].history, t) == Finished(run, n, t) + Due(run[n].threads[t])
  {
    if n > 0 {
      OncePerOperation(spinCount, w0, run, n - 1, t);
      assert Step(spinCount, run[n - 1], run[n - 1 + 1]);
      var u, a :| StepBy(spinCount, run[n - 1], run[n], u, a);
      StepCounts(spinCount, run[n - 1], run[n], u, a, t);
    }
  }

  lemma {:induction false} HistoryGrows(spinCount: nat, w0: Word, run: seq<State>, i: nat, j: nat)
    requires Run(spinCount, w0, run) && i <= j < |run|
    ensures |run[i].history| <= |run[j].history|
  {
    if i < j {
      HistoryGrows(spinCount, w0, run, i, j - 1);
      assert Step(spinCount, run[j - 1], run[j - 1 + 1]);
      var u, a :| StepBy(spinCount, run[j - 1], run[j], u, a);
      StepCounts(spinCount, run[j - 1], run[j], u, a, u);
    }
  }

  /** The value an operation returns equals the expected value exactly when it stored the new one. */
  lemma ReturnTellsStore(spinCount: nat, w0: Word, run: seq<State>, i: nat, t: Tid, a: Action)
    requires Run(spinCount, w0, run) && i + 1 < |run| && StepBy(spinCount, run[i], run[i + 1], t, a)
    requires run[i].threads[t].Loaded?
    ensures var p := run[i + 1].threads[t];
            && p.Decided? && p.value == run[i].word
            && run[i + 1].word == if p.value == p.expected then p.replacement else run[i].word
  {
    RunKeepsInv(spinCount, w0, run, i);
    var holder :| InvFor(w0, run[i], holder);
    assert PhaseInv(t, run[i].threads[t], run[i].word, run[i].history);
  }

  /** Thread u begins an operation in the step after state b and is still in it in state j. */
  ghost predicate BeganAfter(run: seq<State>, b: nat, j: nat, u: Tid)
    requires b < j < |run|
  {
    && u in run[b].threads && run[b].threads[u].Idle?
    && forall k {:trigger run[k].threads} :: b < k <= j ==> u in run[k].threads && !run[k].threads[u].Idle?
  }

  /** Where the history stood when the operation of a phase began. */
  function StartOf(p: Phase): nat
    requires !p.Idle?
  {
    p.start
  }

  lemma StepKeepsStart(spinCount: nat, s: State, s': State, t: Tid, a: Action, u: Tid)
    requires StepBy(spinCount, s, s', t, a) && u in s.threads && !s'.threads[u].Idle?
    ensures StartOf(s'.threads[u]) == if s.threads[u].Idle? then |s.history| else StartOf(s.threads[u])
  {
  }

  /** An operation remembers the length of the history at its beginning as long as it lasts. */
  lemma {:induction false} StartIsBeginning(spinCount: nat, w0: Word, run: seq<State>, b: nat, j: nat, u: Tid)
    requires Run(spinCount, w0, run) && b < j < |run| && BeganAfter(run, b, j, u)
    ensures u in run[j].threads && !run[j].threads[u].Idle? && StartOf(run[j].threads[u]) == |run[b].history|
    decreases j
  {
    assert u in run[j].threads && !run[j].threads[u].Idle?;
    assert Step(spinCount, run[j - 1], run[j - 1 + 1]);
    var t, a :| StepBy(spinCount, run[j - 1], run[j], t, a);
    if j - 1 > b {
      StartIsBeginning(spinCount, w0, run, b, j - 1, u);
    }
    StepKeepsStart(spinCount, run[j - 1], run[j], t, a, u);
  }

  /** An operation that begins after another one has returned comes later in the history: t has returned in state i, u
      is idle in a later state b, begins in the next step, and has returned in state j. */
  lemma RealTimeOrder(spinCount: nat, w0: Word, run: seq<State>, i: nat, b: nat, j: nat, t: Tid, u: Tid)
    requires Run(spinCount, w0, run) && i <= b < j < |run|
    requires t in run[i].threads && run[i].threads[t].Returned?
    requires BeganAfter(run, b, j, u) && run[j].threads[u].Returned?
    ensures run[i].threads[t].index < run[j].threads[u].index
  {
    Linearizable(spinCount, w0, run, i);
    Linearizable(spinCount, w0, run, j);
    HistoryGrows(spinCount, w0, run, i, b);
    StartIsBeginning(spinCount, w0, run, b, j, u);
  }

  /** The operation in progress is a compare-and-swap of y for x. */
  predicate Asks(p: Phase, x: Word, y: Word) {
    !p.Idle? && p.expected == x && p.replacement == y
  }

  lemma StepKeepsRequest(spinCount: nat, s: State, s': State, t: Tid, a: Action, u: Tid, x: Word, y: Word)
    requires StepBy(spinCount, s, s', t, a) && u in s.threads && Asks(s.threads[u], x, y) && !s'.threads[u].Idle?
    ensures Asks(s'.threads[u], x, y)
  {
  }

  lemma {:induction false} RequestKept(spinCount: nat, w0: Word, run: seq<State>, b: nat, j: nat, u: Tid,
                                       x: Word, y: Word)
    requires Run(spinCount, w0, run) && b < j < |run| && BeganAfter(run, b, j, u)
    requires StepBy(spinCount, run[b], run[b + 1], u, Begin(x, y))
    ensures u in run[j].threads && Asks(run[j].threads[u], x, y)
    decreases j
  {
    assert u in run[j].threads && !run[j].threads[u].Idle?;
    if j - 1 > b {
      RequestKept(spinCount, w0, run, b, j - 1, u, x, y);
      assert Step(spinCount, run[j - 1], run[j - 1 + 1]);
      var t, a :| StepBy(spinCount, run[j - 1], run[j], t, a);
      StepKeepsRequest(spinCount, run[j - 1], run[j], t, a, u, x, y);
    }
  }

  /** An operation begun to swap y for x stands in the history as that, with the value it returns, which is what the
      atomic register held just before it. */
  lemma RequestServed(spinCount: nat, w0: Word, run: seq<State>, b: nat, j: nat, u: Tid, x: Word, y: Word)
    requires Run(spinCount, w0, run) && b < j < |run| && BeganAfter(run, b, j, u)
    requires StepBy(spinCount, run[b], run[b + 1], u, Begin(x, y)) && run[j].threads[u].Returned?
    ensures var p, h := run[j].threads[u], run[j].history;
            && |run[b].history| <= p.index < |h| && h[p.index] == Entry(u, x, y, p.value)
            && p.value == Replay(w0, h[..p.index])
  {
    RequestKept(spinCount, w0, run, b, j, u, x, y);
    StartIsBeginning(spinCount, w0, run, b, j, u);
    Linearizable(spinCount, w0, run, j);
  }

  /** The thread makes one step after the other along the path. */
  ghost predicate Path(spinCount: nat, path: seq<State>, t: Tid)
  {
    forall i :: 0 <= i < |path| - 1 ==> StepBy(spinCount, path[i], path[i + 1], t, Advance)
  }

  /** The state after a step of t. */
  function After(spinCount: nat, s: State, t: Tid, a: Action): State
    requires t in s.threads && ThreadStep(spinCount, s, t, s.threads[t], a).Some?
  {
    var r := ThreadStep(spinCount, s, t, s.threads[t], a).value;
    State(r.lock, r.word, s.threads[t := r.phase], r.history)
  }

  /** With the lock free and left alone, a thread finishes its operation in five steps: it returns what the word held,
      the word is swapped exactly if that is the value expected, and the lock is free again. */
  lemma AloneFinishes(spinCount: nat, s: State, t: Tid, x: Word, y: Word) returns (path: seq<State>)
    requires t in s.threads && s.threads[t] == Idle && s.lock == UNLOCKED
    ensures |path| == 6 && StepBy(spinCount, s, path[0], t, Begin(x, y)) && Path(spinCount, path, t)
    ensures var e := path[5];
            && t in e.threads && e.threads[t].Returned? && e.threads[t].value == s.word && e.lock == UNLOCKED
            && e.word == (if s.word == x then y else s.word) && e.history == s.history + [Entry(t, x, y, s.word)]
            && e.threads == s.threads[t := e.threads[t]]
  {
    var s0 := After(spinCount, s, t, Begin(x, y));
    var s1 := After(spinCount, s0, t, Advance);
    var s2 := After(spinCount, s1, t, Advance);
    var s3 := After(spinCount, s2, t, Advance);
    var s4 := After(spinCount, s3, t, Advance);
    var s5 := After(spinCount, s4, t, Advance);
    path := [s0, s1, s2, s3, s4, s5];
  }
}
