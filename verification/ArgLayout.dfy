/**
  Where the Java and native calling conventions on SPARC put the arguments of a call: a layout of a
  signature in two passes, the first counting what goes into registers and into single stack slots, the
  second handing out places and overwriting the signature in place.
 */
module ArgLayout {

  // --------------------------------------------------------------------------
  // Modes, places and entries

  datatype Mode = Mode(lp64: bool, longsInOneEntry: bool)

  predicate Supported(m: Mode) {
    m.lp64 ==> m.longsInOneEntry
  }

  /** Integer registers are named by word halves if longs take one register. */
  datatype File = IntReg | FloatReg | Stack

  datatype Place = Place(file: File, index: nat)

  /** An element of the signature array: still a character, or the place of an argument, or nothing for the second
      half of a long or double. */
  datatype Entry = Raw(c: char) | Single(at: Place) | Pair(first: Place, second: Place) | Half

  const INT_REGS: nat := 6
  const FLOAT_REGS: nat := 32

  function Round(n: nat): (r: nat)
    ensures n <= r <= n + 1 && r % 2 == 0
  {
    if n % 2 == 0 then n else n + 1
  }

  function Smear(p: Place): Entry {
    Pair(p, Place(p.file, p.index + 1))
  }

  /** The places an entry takes up. */
  function Places(e: Entry): set<Place> {
    match e
    case Single(at) => {at}
    case Pair(first, second) => {first, second}
    case _ => {}
  }

  // --------------------------------------------------------------------------
  // Signatures

  datatype Kind = WordKind | LongKind | FloatKind | DoubleKind | HalfKind | BadKind

  /** Pointers are words or longs. */
  function KindOf(m: Mode, c: char): Kind {
    if c == 'I' then WordKind
    else if c == 'P' then (if m.lp64 then LongKind else WordKind)
    else if c == 'L' then LongKind
    else if c == 'F' then FloatKind
    else if c == 'D' then DoubleKind
    else if c == 'h' then HalfKind
    else BadKind
  }

  /** The element behind position i; behind the signature the array holds whatever it held. */
  function Behind(s: string, after: Entry, i: nat): Entry {
    if i + 1 < |s| then Raw(s[i + 1]) else after
  }

  /** A known character, a long or double being followed by its half. */
  predicate Acceptable(s: string, after: Entry, i: nat)
    requires i < |s|
  {
    s[i] in "IPFh" || (s[i] in "LD" && Behind(s, after, i) == Raw('h'))
  }

  ghost predicate WellFormed(s: string, after: Entry)
  {
    forall i :: 0 <= i < |s| ==> Acceptable(s, after, i)
  }

  // --------------------------------------------------------------------------
  // The Java convention

  /** Integer registers, float registers and single stack slots used so far. */
  datatype Counts = Counts(ints: nat, floats: nat, singles: nat)

  function Count(m: Mode, c: Counts, k: Kind): Counts {
    match k
    case WordKind => if c.ints < INT_REGS then c.(ints := c.ints + 1) else c.(singles := c.singles + 1)
    case LongKind => if m.longsInOneEntry && c.ints < INT_REGS then c.(ints := c.ints + 1) else c
    case FloatKind => if c.floats < FLOAT_REGS then c.(floats := c.floats + 1) else c.(singles := c.singles + 1)
    case _ => c
  }

  function Counted(m: Mode, s: string, i: nat): Counts
    requires i <= |s|
  {
    if i == 0 then Counts(0, 0, 0) else Count(m, Counted(m, s, i - 1), KindOf(m, s[i - 1]))
  }

  /** Where the next pair goes in each file. */
  datatype Pairs = Pairs(ints: nat, floats: nat, stack: nat)

  /** Whether a long or double at these counts is given a pair of its own, and in which file. */
  function Take(m: Mode, c: Counts, p: Pairs, k: Kind): Pairs {
    match k
    case LongKind =>
      if m.longsInOneEntry then (if c.ints < INT_REGS then p else p.(stack := p.stack + 2))
      else if p.ints < INT_REGS then p.(ints := p.ints + 2) else p.(stack := p.stack + 2)
    case DoubleKind => if p.floats < FLOAT_REGS then p.(floats := p.floats + 2) else p.(stack := p.stack + 2)
    case _ => p
  }

  /** The pairs start behind everything the first pass counted. */
  function StartPairs(m: Mode, s: string): Pairs {
    var all := Counted(m, s, |s|);
    Pairs(Round(all.ints), Round(all.floats), Round(all.singles))
  }

  function Taken(m: Mode, s: string, i: nat): Pairs
    requires i <= |s|
  {
    if i == 0 then StartPairs(m, s)
    else Take(m, Counted(m, s, i - 1), Taken(m, s, i - 1), KindOf(m, s[i - 1]))
  }

  function Scale(m: Mode, x: nat): nat {
    if m.longsInOneEntry then 2 * x else x
  }

  /** The entry for an argument of kind k at these counts. */
  function JavaPlace(m: Mode, c: Counts, p: Pairs, k: Kind): Entry {
    match k
    case WordKind => Single(if c.ints < INT_REGS then Place(IntReg, Scale(m, c.ints)) else Place(Stack, c.singles))
    case LongKind =>
      Smear(if m.longsInOneEntry then
              (if c.ints < INT_REGS then Place(IntReg, Scale(m, c.ints)) else Place(Stack, p.stack))
            else if p.ints < INT_REGS then Place(IntReg, p.ints) else Place(Stack, p.stack))
    case FloatKind => Single(if c.floats < FLOAT_REGS then Place(FloatReg, c.floats) else Place(Stack, c.singles))
    case DoubleKind => Smear(if p.floats < FLOAT_REGS then Place(FloatReg, p.floats) else Place(Stack, p.stack))
    case _ => Half
  }

  function JavaEntry(m: Mode, s: string, i: nat): Entry
    requires i < |s|
  {
    JavaPlace(m, Counted(m, s, i), Taken(m, s, i), KindOf(m, s[i]))
  }

  method Reset(s: string, sig: array<Entry>)
    requires |s| < sig.Length
    modifies sig
    ensures forall k :: 0 <= k < |s| ==> sig[k] == Raw(s[k])
    ensures sig[|s|] == old(sig[|s|])
  {
    for i := 0 to |s|
      invariant forall k :: 0 <= k < i ==> sig[k] == Raw(s[k])
      invariant sig[|s|] == old(sig[|s|])
    {
      sig[i] := Raw(s[i]);
    }
  }

  /** The first pass. */
  method CountPass(m: Mode, s: string, sig: array<Entry>) returns (c: Counts)
    requires Supported(m) && |s| < sig.Length && forall k :: 0 <= k < |s| ==> sig[k] == Raw(s[k])
    ensures c == Counted(m, s, |s|)
  {
    var ints, floats, singles := 0, 0, 0;
    for i := 0 to |s|
      invariant Counts(ints, floats, singles) == Counted(m, s, i)
    {
      if sig[i] == Raw('L') {
        if m.longsInOneEntry && ints < INT_REGS { ints := ints + 1; }
      } else if sig[i] == Raw('P') {
        if ints < INT_REGS { ints := ints + 1; } else if !m.lp64 { singles := singles + 1; }
      } else if sig[i] == Raw('I') {
        if ints < INT_REGS { ints := ints + 1; } else { singles := singles + 1; }
      } else if sig[i] == Raw('F') {
        if floats < FLOAT_REGS { floats := floats + 1; } else { singles := singles + 1; }
      }
    }
    c := Counts(ints, floats, singles);
  }

  /** The second pass at one argument: its place, and the counters behind it. */
  method PlaceOne(m: Mode, sig: array<Entry>, i: nat, ch: char, c: Counts, p: Pairs)
    returns (ok: bool, c': Counts, p': Pairs)
    requires Supported(m) && i + 1 < sig.Length && sig[i] == Raw(ch)
    modifies sig
    ensures ok <==> ch in "IPFh" || (ch in "LD" && old(sig[i + 1]) == Raw('h'))
    ensures ok ==> sig[i] == JavaPlace(m, c, p, KindOf(m, ch)) && c' == Count(m, c, KindOf(m, ch))
    ensures ok ==> p' == Take(m, c, p, KindOf(m, ch))
    ensures forall k :: 0 <= k < sig.Length && k != i ==> sig[k] == old(sig[k])
  {
    var stkPairs, intPairs, fltPairs := p.stack, p.ints, p.floats;
    var stk, ints, flts := c.singles, c.ints, c.floats;
    ok, c', p' := false, c, p;
    match KindOf(m, ch) {
      case WordKind =>
        if ints < INT_REGS {
          sig[i] := Single(Place(IntReg, Scale(m, ints)));
          ints := ints + 1;
        } else {
          sig[i] := Single(Place(Stack, stk));
          stk := stk + 1;
        }
      case LongKind =>
        if sig[i] != Raw('P') && sig[i + 1] != Raw('h') {
          return;
        }
        if m.longsInOneEntry {
          if ints < INT_REGS {
            sig[i] := Smear(Place(IntReg, Scale(m, ints)));
            ints := ints + 1;
          } else {
            sig[i] := Smear(Place(Stack, stkPairs));
            stkPairs := stkPairs + 2;
          }
        } else {
          if intPairs < INT_REGS {
            sig[i] := Smear(Place(IntReg, intPairs));
            intPairs := intPairs + 2;
          } else {
            sig[i] := Smear(Place(Stack, stkPairs));
            stkPairs := stkPairs + 2;
          }
        }
      case FloatKind =>
        if flts < FLOAT_REGS {
          sig[i] := Single(Place(FloatReg, flts));
          flts := flts + 1;
        } else {
          sig[i] := Single(Place(Stack, stk));
          stk := stk + 1;
        }
      case DoubleKind =>
        if sig[i + 1] != Raw('h') {
          return;
        }
        if fltPairs < FLOAT_REGS {
          sig[i] := Smear(Place(FloatReg, fltPairs));
          fltPairs := fltPairs + 2;
        } else {
          sig[i] := Smear(Place(Stack, stkPairs));
          stkPairs := stkPairs + 2;
        }
      case HalfKind =>
        sig[i] := Half;
      case BadKind =>
        return;
    }
    ok, c', p' := true, Counts(ints, flts, stk), Pairs(intPairs, fltPairs, stkPairs);
  }

  /** Both passes. It fails for a character it does not know, or a long or double without its half. */
  method JavaConvention(m: Mode, s: string, sig: array<Entry>) returns (ok: bool)
    requires |s| < sig.Length
    modifies sig
    ensures ok <==> Supported(m) && WellFormed(s, old(sig[|s|]))
    ensures ok ==> forall k :: 0 <= k < |s| ==> sig[k] == JavaEntry(m, s, k)
  {
    if !Supported(m) {
      return false;
    }
    Reset(s, sig);
    ghost var after := sig[|s|];
    var all := CountPass(m, s, sig);
    var p := Pairs(Round(all.ints), Round(all.floats), Round(all.singles));
    var c := Counts(0, 0, 0);
    for i := 0 to |s|
      invariant forall k :: 0 <= k < i ==> sig[k] == JavaEntry(m, s, k) && Acceptable(s, after, k)
      invariant forall k :: i <= k < |s| ==> sig[k] == Raw(s[k])
      invariant sig[|s|] == after && c == Counted(m, s, i) && p == Taken(m, s, i)
    {
      assert sig[i + 1] == Behind(s, after, i);
      ok, c, p := PlaceOne(m, sig, i, s[i], c, p);
      if !ok {
        assert !Acceptable(s, after, i);
        return false;
      }
    }
    ok := true;
  }

  // --------------------------------------------------------------------------
  // The Java layout is sound

  /** The counters only grow. */
  lemma {:induction false} CountsGrow(m: Mode, s: string, i: nat, j: nat)
    requires i <= j <= |s|
    ensures var a, b := Counted(m, s, i), Counted(m, s, j);
            a.ints <= b.ints && a.floats <= b.floats && a.singles <= b.singles
    decreases j
  {
    if i < j {
      CountsGrow(m, s, i, j - 1);
    }
  }

  lemma {:induction false} PairsGrow(m: Mode, s: string, i: nat, j: nat)
    requires i <= j <= |s|
    ensures var a, b := Taken(m, s, i), Taken(m, s, j); a.ints <= b.ints && a.floats <= b.floats && a.stack <= b.stack
    decreases j
  {
    if i < j {
      PairsGrow(m, s, i, j - 1);
    }
  }

  lemma {:induction false} PairsEven(m: Mode, s: string, i: nat)
    requires i <= |s|
    ensures var p := Taken(m, s, i); p.ints % 2 == 0 && p.floats % 2 == 0 && p.stack % 2 == 0
  {
    if i > 0 {
      PairsEven(m, s, i - 1);
    }
  }

  /** The part of a file that is handed out between two states of the counters: singles below what the first pass
      counted, pairs above it. */
  predicate Between(m: Mode, c: Counts, c': Counts, p: Pairs, p': Pairs, at: Place) {
    match at.file
    case IntReg =>
      Scale(m, c.ints) <= at.index < Scale(m, c'.ints) || (!m.longsInOneEntry && p.ints <= at.index < p'.ints)
    case FloatReg => c.floats <= at.index < c'.floats || p.floats <= at.index < p'.floats
    case Stack => c.singles <= at.index < c'.singles || p.stack <= at.index < p'.stack
  }

  lemma PlaceBetween(m: Mode, c: Counts, p: Pairs, k: Kind, at: Place)
    requires Supported(m) && at in Places(JavaPlace(m, c, p, k))
    ensures Between(m, c, Count(m, c, k), p, Take(m, c, p, k), at)
  {
  }

  lemma NotBetweenTwice(m: Mode, a: Counts, a': Counts, b: Counts, b': Counts, p: Pairs, p': Pairs, q: Pairs, q': Pairs,
                        start: Pairs, at: Place)
    requires a'.ints <= b.ints && a'.floats <= b.floats && a'.singles <= b.singles
    requires p'.ints <= q.ints && p'.floats <= q.floats && p'.stack <= q.stack
    requires Above(p, start) && Above(q, start) && Below(a', start) && Below(b', start)
    ensures !(Between(m, a, a', p, p', at) && Between(m, b, b', q, q', at))
  {
  }

  /** No register half and no stack slot is given to two arguments. */
  lemma JavaInjective(m: Mode, s: string, i: nat, j: nat)
    requires Supported(m) && i < j < |s|
    ensures Places(JavaEntry(m, s, i)) !! Places(JavaEntry(m, s, j))
  {
    forall at | at in Places(JavaEntry(m, s, i)) ensures at !in Places(JavaEntry(m, s, j)) {
      GrownApart(m, s, i, j, at);
    }
  }

  lemma GrownApart(m: Mode, s: string, i: nat, j: nat, at: Place)
    requires Supported(m) && i < j < |s| && at in Places(JavaEntry(m, s, i))
    ensures at !in Places(JavaEntry(m, s, j))
  {
    CountsGrow(m, s, i + 1, j);
    PairsGrow(m, s, i + 1, j);
    Bounds(m, s, i);
    Bounds(m, s, j);
    JavaApart(m, s, i, j, at);
  }

  lemma Bounds(m: Mode, s: string, i: nat)
    requires Supported(m) && i < |s|
    ensures Above(Taken(m, s, i), StartPairs(m, s)) && Below(Counted(m, s, i + 1), StartPairs(m, s))
  {
    PairsGrow(m, s, 0, i);
    CountsGrow(m, s, i + 1, |s|);
  }

  lemma JavaApart(m: Mode, s: string, i: nat, j: nat, at: Place)
    requires Supported(m) && i < j < |s| && at in Places(JavaEntry(m, s, i))
    requires var a, b := Counted(m, s, i + 1), Counted(m, s, j);
             a.ints <= b.ints && a.floats <= b.floats && a.singles <= b.singles
    requires var p, q := Taken(m, s, i + 1), Taken(m, s, j);
             p.ints <= q.ints && p.floats <= q.floats && p.stack <= q.stack
    requires Above(Taken(m, s, i), StartPairs(m, s)) && Above(Taken(m, s, j), StartPairs(m, s))
    requires Below(Counted(m, s, i + 1), StartPairs(m, s)) && Below(Counted(m, s, j + 1), StartPairs(m, s))
    ensures at !in Places(JavaEntry(m, s, j))
  {
    PlaceBetween(m, Counted(m, s, i), Taken(m, s, i), KindOf(m, s[i]), at);
    NotBetweenTwice(m, Counted(m, s, i), Counted(m, s, i + 1), Counted(m, s, j), Counted(m, s, j + 1),
                    Taken(m, s, i), Taken(m, s, i + 1), Taken(m, s, j), Taken(m, s, j + 1), StartPairs(m, s), at);
    if at in Places(JavaEntry(m, s, j)) {
      PlaceBetween(m, Counted(m, s, j), Taken(m, s, j), KindOf(m, s[j]), at);
    }
  }

  predicate Above(p: Pairs, start: Pairs) {
    start.ints <= p.ints && start.floats <= p.floats && start.stack <= p.stack
  }

  predicate Below(c: Counts, start: Pairs) {
    c.ints <= start.ints && c.floats <= start.floats && c.singles <= start.stack
  }

  /** Pairs start at even places and registers stay within their file. */
  lemma JavaAligned(m: Mode, s: string, i: nat)
    requires Supported(m) && i < |s|
    ensures var e := JavaEntry(m, s, i);
            && (e.Pair? ==> e.first.index % 2 == 0 && e.second == Place(e.first.file, e.first.index + 1))
            && forall at :: at in Places(e) ==>
                 && (at.file == IntReg ==> at.index < Scale(m, INT_REGS))
                 && (at.file == FloatReg ==> at.index < FLOAT_REGS)
  {
    PairsEven(m, s, i);
    CountsGrow(m, s, i, |s|);
  }

  // --------------------------------------------------------------------------
  // Which place each argument of a Java call gets

  function Min(a: nat, b: nat): nat {
    if a < b then a else b
  }

  /** Arguments of one integer register each: ints and pointers, and longs if they fit one register. */
  predicate TakesInt(m: Mode, c: char) {
    c == 'I' || c == 'P' || (c == 'L' && m.longsInOneEntry)
  }

  /** How many of them come before position i. */
  function IntRank(m: Mode, s: string, i: nat): nat
    requires i <= |s|
  {
    if i == 0 then 0 else IntRank(m, s, i - 1) + if TakesInt(m, s[i - 1]) then 1 else 0
  }

  /** How often a character comes before position i. */
  function Rank(c: char, s: string, i: nat): nat
    requires i <= |s|
  {
    if i == 0 then 0 else Rank(c, s, i - 1) + if s[i - 1] == c then 1 else 0
  }

  /** The first even register behind all single words, and behind all floats. */
  function IntBase(m: Mode, s: string): nat {
    Round(Min(IntRank(m, s, |s|), INT_REGS))
  }

  function FloatBase(s: string): nat {
    Round(Min(Rank('F', s, |s|), FLOAT_REGS))
  }

  /** The argument at i is one word for which no register is left. */
  predicate SpillsWord(m: Mode, s: string, i: nat)
    requires i < |s|
  {
    || ((s[i] == 'I' || (s[i] == 'P' && !m.lp64)) && IntRank(m, s, i) >= INT_REGS)
    || (s[i] == 'F' && Rank('F', s, i) >= FLOAT_REGS)
  }

  /** It is two words for which no register, or no pair of registers, is left. */
  predicate SpillsPair(m: Mode, s: string, i: nat)
    requires i < |s|
  {
    || (m.longsInOneEntry && (s[i] == 'L' || (s[i] == 'P' && m.lp64)) && IntRank(m, s, i) >= INT_REGS)
    || (!m.longsInOneEntry && s[i] == 'L' && IntBase(m, s) + 2 * Rank('L', s, i) >= INT_REGS)
    || (s[i] == 'D' && FloatBase(s) + 2 * Rank('D', s, i) >= FLOAT_REGS)
  }

  function SpilledWords(m: Mode, s: string, i: nat): nat
    requires i <= |s|
  {
    if i == 0 then 0 else SpilledWords(m, s, i - 1) + if SpillsWord(m, s, i - 1) then 1 else 0
  }

  function SpilledPairs(m: Mode, s: string, i: nat): nat
    requires i <= |s|
  {
    if i == 0 then 0 else SpilledPairs(m, s, i - 1) + if SpillsPair(m, s, i - 1) then 1 else 0
  }

  lemma {:induction false} CountedIs(m: Mode, s: string, i: nat)
    requires Supported(m) && i <= |s|
    ensures Counted(m, s, i)
         == Counts(Min(IntRank(m, s, i), INT_REGS), Min(Rank('F', s, i), FLOAT_REGS), SpilledWords(m, s, i))
  {
    if i > 0 {
      CountedIs(m, s, i - 1);
    }
  }

  lemma StartIs(m: Mode, s: string)
    requires Supported(m)
    ensures StartPairs(m, s) == Pairs(IntBase(m, s), FloatBase(s), Round(SpilledWords(m, s, |s|)))
  {
    CountedIs(m, s, |s|);
  }

  lemma {:induction false} TakenInts(m: Mode, s: string, i: nat)
    requires Supported(m) && i <= |s|
    ensures Taken(m, s, i).ints
         == if m.longsInOneEntry then IntBase(m, s) else Min(IntBase(m, s) + 2 * Rank('L', s, i), INT_REGS)
  {
    if i == 0 {
      StartIs(m, s);
    } else {
      TakenInts(m, s, i - 1);
    }
  }

  lemma {:induction false} TakenFloats(m: Mode, s: string, i: nat)
    requires Supported(m) && i <= |s|
    ensures Taken(m, s, i).floats == Min(FloatBase(s) + 2 * Rank('D', s, i), FLOAT_REGS)
  {
    if i == 0 {
      StartIs(m, s);
    } else {
      TakenFloats(m, s, i - 1);
    }
  }

  lemma {:induction false} TakenStack(m: Mode, s: string, i: nat)
    requires Supported(m) && i <= |s|
    ensures Taken(m, s, i).stack == Round(SpilledWords(m, s, |s|)) + 2 * SpilledPairs(m, s, i)
  {
    if i == 0 {
      StartIs(m, s);
    } else {
      TakenStack(m, s, i - 1);
      TakenInts(m, s, i - 1);
      TakenFloats(m, s, i - 1);
      CountedIs(m, s, i - 1);
    }
  }

  /** The first place of an entry. */
  function First(e: Entry): Place
    requires e.Single? || e.Pair?
  {
    if e.Single? then e.at else e.first
  }

  /** Ints, floats and 32-bit pointers get one place; longs, doubles and 64-bit pointers get two, side by side; halves
      get none. */
  lemma JavaShape(m: Mode, s: string, i: nat)
    requires Supported(m) && i < |s|
    ensures var e := JavaEntry(m, s, i);
            && (s[i] == 'I' || s[i] == 'F' || (s[i] == 'P' && !m.lp64) ==> e.Single?)
            && (s[i] == 'L' || s[i] == 'D' || (s[i] == 'P' && m.lp64) ==>
                  e.Pair? && e.second == Place(e.first.file, e.first.index + 1))
            && (s[i] == 'h' ==> e == Half)
  {
  }

  /** The k-th argument of one integer register is in register k as long as there are any. */
  lemma JavaInts(m: Mode, s: string, i: nat)
    requires Supported(m) && i < |s| && TakesInt(m, s[i]) && IntRank(m, s, i) < INT_REGS
    ensures var e, k := JavaEntry(m, s, i), IntRank(m, s, i);
            (e.Single? || e.Pair?) && First(e) == Place(IntReg, if m.longsInOneEntry then 2 * k else k)
  {
    CountedIs(m, s, i);
  }

  /** The k-th float is in float register k; the k-th double in the k-th pair behind all floats. */
  lemma JavaFloats(m: Mode, s: string, i: nat)
    requires Supported(m) && i < |s|
    ensures s[i] == 'F' && Rank('F', s, i) < FLOAT_REGS ==>
              JavaEntry(m, s, i) == Single(Place(FloatReg, Rank('F', s, i)))
    ensures s[i] == 'D' && FloatBase(s) + 2 * Rank('D', s, i) < FLOAT_REGS ==>
              JavaEntry(m, s, i).Pair?
              && JavaEntry(m, s, i).first == Place(FloatReg, FloatBase(s) + 2 * Rank('D', s, i))
  {
    CountedIs(m, s, i);
    TakenFloats(m, s, i);
  }

  /** If a long takes two registers, the k-th is in the k-th pair behind all single words. */
  lemma JavaLongs(m: Mode, s: string, i: nat)
    requires !m.lp64 && !m.longsInOneEntry && i < |s| && s[i] == 'L'
    requires IntBase(m, s) + 2 * Rank('L', s, i) < INT_REGS
    ensures JavaEntry(m, s, i).Pair? && JavaEntry(m, s, i).first == Place(IntReg, IntBase(m, s) + 2 * Rank('L', s, i))
  {
    TakenInts(m, s, i);
  }

  /** Only what is left goes on the stack: first the words in their order, then, from an even slot, the pairs in
      theirs. */
  lemma JavaStackOrder(m: Mode, s: string, i: nat)
    requires Supported(m) && i < |s|
    ensures SpillsWord(m, s, i) ==> JavaEntry(m, s, i) == Single(Place(Stack, SpilledWords(m, s, i)))
    ensures SpillsPair(m, s, i) ==>
              JavaEntry(m, s, i).Pair?
              && JavaEntry(m, s, i).first
                 == Place(Stack, Round(SpilledWords(m, s, |s|)) + 2 * SpilledPairs(m, s, i))
    ensures !SpillsWord(m, s, i) && !SpillsPair(m, s, i) ==>
              forall at :: at in Places(JavaEntry(m, s, i)) ==> at.file != Stack
  {
    CountedIs(m, s, i);
    TakenInts(m, s, i);
    TakenFloats(m, s, i);
    TakenStack(m, s, i);
  }

  // --------------------------------------------------------------------------
  // The native conventions

  function IntOrStack(m: Mode, i: nat): Place {
    if i < INT_REGS then Place(IntReg, Scale(m, i)) else Place(Stack, if m.lp64 then 2 * i else i)
  }

  /** V8: argument words in order, the first six in registers. */
  function V8Entry(m: Mode, s: string, i: nat): Entry
    requires i < |s|
  {
    if s[i] in "IPF" then Single(IntOrStack(m, i))
    else if s[i] in "LD" then Pair(IntOrStack(m, i), IntOrStack(m, i + 1))
    else Half
  }

  /** The number of arguments before position i. */
  function ArgIndex(s: string, i: nat): nat
    requires i <= |s|
  {
    if i == 0 then 0 else ArgIndex(s, i - 1) + if s[i - 1] == 'h' then 0 else 1
  }

  /** V9: every argument has a double slot; floats go into the odd half of theirs. */
  function V9Entry(m: Mode, s: string, i: nat): Entry
    requires i < |s|
  {
    var j := ArgIndex(s, i);
    if s[i] == 'I' then Single(IntOrStack(m, j))
    else if s[i] in "LP" then Smear(IntOrStack(m, j))
    else if s[i] == 'F' then Single(Place(if j < 16 then FloatReg else Stack, 2 * j + 1))
    else if s[i] == 'D' then Smear(Place(if j < 16 then FloatReg else Stack, 2 * j))
    else Half
  }

  /** V9 does not look for the half of a double. */
  predicate AcceptableV9(s: string, after: Entry, i: nat)
    requires i < |s|
  {
    s[i] in "IPFDh" || (s[i] == 'L' && Behind(s, after, i) == Raw('h'))
  }

  ghost predicate WellFormedV9(s: string, after: Entry)
  {
    forall i :: 0 <= i < |s| ==> AcceptableV9(s, after, i)
  }

  method NativeConvention(m: Mode, s: string, sig: array<Entry>) returns (ok: bool)
    requires |s| < sig.Length
    modifies sig
    ensures ok <==> Supported(m) && if m.lp64 then WellFormedV9(s, old(sig[|s|])) else WellFormed(s, old(sig[|s|]))
    ensures ok ==> forall k :: 0 <= k < |s| ==> sig[k] == if m.lp64 then V9Entry(m, s, k) else V8Entry(m, s, k)
  {
    if !Supported(m) {
      return false;
    }
    Reset(s, sig);
    if m.lp64 {
      ok := V9Pass(m, s, sig);
    } else {
      ok := V8Pass(m, s, sig);
    }
  }

  method V9Pass(m: Mode, s: string, sig: array<Entry>) returns (ok: bool)
    requires |s| < sig.Length && forall k :: 0 <= k < |s| ==> sig[k] == Raw(s[k])
    modifies sig
    ensures ok <==> WellFormedV9(s, old(sig[|s|]))
    ensures ok ==> forall k :: 0 <= k < |s| ==> sig[k] == V9Entry(m, s, k)
  {
    ghost var after := sig[|s|];
    var j := 0;
    for i := 0 to |s|
      invariant forall k :: 0 <= k < i ==> sig[k] == V9Entry(m, s, k) && AcceptableV9(s, after, k)
      invariant forall k :: i <= k < |s| ==> sig[k] == Raw(s[k])
      invariant sig[|s|] == after && j == ArgIndex(s, i)
    {
      assert sig[i + 1] == Behind(s, after, i);
      match sig[i].c {
        case 'I' => sig[i] := Single(IntOrStack(m, j));
        case 'L' =>
          if sig[i + 1] != Raw('h') {
            assert !AcceptableV9(s, after, i);
            return false;
          }
          sig[i] := Smear(IntOrStack(m, j));
        case 'P' => sig[i] := Smear(IntOrStack(m, j));
        case 'F' => sig[i] := Single(Place(if j < 16 then FloatReg else Stack, 2 * j + 1));
        case 'D' => sig[i] := Smear(Place(if j < 16 then FloatReg else Stack, 2 * j));
        case 'h' =>
          sig[i] := Half;
          j := j - 1;
        case _ =>
          assert !AcceptableV9(s, after, i);
          return false;
      }
      j := j + 1;
    }
    ok := true;
  }

  method V8Pass(m: Mode, s: string, sig: array<Entry>) returns (ok: bool)
    requires |s| < sig.Length && forall k :: 0 <= k < |s| ==> sig[k] == Raw(s[k])
    modifies sig
    ensures ok <==> WellFormed(s, old(sig[|s|]))
    ensures ok ==> forall k :: 0 <= k < |s| ==> sig[k] == V8Entry(m, s, k)
  {
    ghost var after := sig[|s|];
    for i := 0 to |s|
      invariant forall k :: 0 <= k < i ==> sig[k] == V8Entry(m, s, k) && Acceptable(s, after, k)
      invariant forall k :: i <= k < |s| ==> sig[k] == Raw(s[k])
      invariant sig[|s|] == after
    {
      assert sig[i + 1] == Behind(s, after, i);
      var c := sig[i].c;
      if c in "IPF" {
        sig[i] := Single(IntOrStack(m, i));
      } else if c in "LD" {
        if sig[i + 1] != Raw('h') {
          assert !Acceptable(s, after, i);
          return false;
        }
        sig[i] := Pair(IntOrStack(m, i), IntOrStack(m, i + 1));
      } else if c == 'h' {
        sig[i] := Half;
      } else {
        assert !Acceptable(s, after, i);
        return false;
      }
    }
    ok := true;
  }

  lemma IntOrStackInjective(m: Mode, i: nat, j: nat)
    requires i != j
    ensures IntOrStack(m, i) != IntOrStack(m, j)
  {
  }

  /** V8: a pair takes the word of its half, so no word is given twice. */
  lemma V8Injective(m: Mode, s: string, after: Entry, i: nat, j: nat)
    requires WellFormed(s, after) && i < j < |s|
    ensures Places(V8Entry(m, s, i)) !! Places(V8Entry(m, s, j))
  {
    assert Acceptable(s, after, i);
    forall a, b | a in {i, i + 1} && b in {j, j + 1} && a != b ensures IntOrStack(m, a) != IntOrStack(m, b) {
      IntOrStackInjective(m, a, b);
    }
  }

  lemma {:induction false} ArgIndexGrows(s: string, i: nat, j: nat)
    requires i < j <= |s| && s[i] != 'h'
    ensures ArgIndex(s, i) < ArgIndex(s, j)
    decreases j
  {
    if i + 1 < j {
      ArgIndexGrows(s, i, j - 1);
    }
  }

  /** V9: an argument stays within the double slot of its index. */
  lemma V9Slot(m: Mode, s: string, i: nat, at: Place)
    requires m.longsInOneEntry && m.lp64 && i < |s| && at in Places(V9Entry(m, s, i))
    ensures at.index / 2 == ArgIndex(s, i) && s[i] != 'h'
  {
  }

  /** V9: no register half and no stack slot is given twice, and pairs start at even places. */
  lemma V9Injective(m: Mode, s: string, i: nat, j: nat)
    requires Supported(m) && m.lp64 && i < j < |s|
    ensures Places(V9Entry(m, s, i)) !! Places(V9Entry(m, s, j))
    ensures V9Entry(m, s, i).Pair? ==> V9Entry(m, s, i).first.index % 2 == 0
  {
    forall at | at in Places(V9Entry(m, s, i)) ensures at !in Places(V9Entry(m, s, j)) {
      V9Slot(m, s, i, at);
      ArgIndexGrows(s, i, j);
      if at in Places(V9Entry(m, s, j)) {
        V9Slot(m, s, j, at);
      }
    }
  }

  // --------------------------------------------------------------------------
  // Which place each argument of a native call gets

  /** Every half stands behind a long or a double, and every long or double before its half. */
  ghost predicate Proper(s: string)
  {
    && (forall i :: 0 <= i < |s| ==> s[i] in "IPFLDh")
    && (forall i :: 0 <= i < |s| && s[i] in "LD" ==> i + 1 < |s| && s[i + 1] == 'h')
    && (forall i :: 0 <= i < |s| && s[i] == 'h' ==> i > 0 && s[i - 1] in "LD")
  }

  /** The places of an entry, in order. */
  function InOrder(e: Entry): seq<Place> {
    match e
    case Single(at) => [at]
    case Pair(first, second) => [first, second]
    case _ => []
  }

  /** The places of the arguments before position i, in order. */
  function V8Places(m: Mode, s: string, i: nat): seq<Place>
    requires i <= |s|
  {
    if i == 0 then [] else V8Places(m, s, i - 1) + InOrder(V8Entry(m, s, i - 1))
  }

  /** Word k of the arguments: one of the six registers, or its slot on the stack. */
  function ArgWord(m: Mode, k: nat): Place {
    if k < 6 then Place(IntReg, if m.longsInOneEntry then 2 * k else k) else Place(Stack, k)
  }

  function ArgWords(m: Mode, n: nat): seq<Place> {
    seq(n, k requires 0 <= k < n => ArgWord(m, k))
  }

  lemma ArgWordsGrow(m: Mode, n: nat)
    ensures ArgWords(m, n + 1) == ArgWords(m, n) + [ArgWord(m, n)]
  {
  }

  lemma V8Words(m: Mode, s: string, i: nat)
    requires !m.lp64 && i < |s| && s[i] in "IPFLDh"
    ensures InOrder(V8Entry(m, s, i)) ==
              if s[i] == 'h' then [] else if s[i] in "LD" then [ArgWord(m, i), ArgWord(m, i + 1)] else [ArgWord(m, i)]
  {
  }

  lemma Append(a: seq<Place>, x: Place, y: Place)
    ensures a + [x, y] == a + [x] + [y]
  {
  }

  /** V8: the places given to all arguments, one after the other, are the argument words one after the other. */
  lemma {:induction false} V8InOrder(m: Mode, s: string, i: nat)
    requires !m.lp64 && Proper(s) && i <= |s|
    ensures V8Places(m, s, i) == ArgWords(m, if i > 0 && s[i - 1] in "LD" then i + 1 else i)
  {
    if i > 0 {
      V8InOrder(m, s, i - 1);
      V8Words(m, s, i - 1);
      assert s[i - 1] == 'h' <==> i - 1 > 0 && s[i - 2] in "LD";
      ArgWordsGrow(m, i - 1);
      ArgWordsGrow(m, i);
      Append(ArgWords(m, i - 1), ArgWord(m, i - 1), ArgWord(m, i));
    }
  }

  /** V9: argument j has the double slot of words 2j and 2j + 1, hoisted into a register while j is below six, or
      sixteen for floats and doubles. An int takes the first word, a float the second, all others both. */
  lemma V9DoubleSlots(m: Mode, s: string, i: nat)
    requires Supported(m) && m.lp64 && i < |s| && s[i] in "IPFLD"
    ensures var places, j := InOrder(V9Entry(m, s, i)), ArgIndex(s, i);
            && (s[i] in "FD" ==> forall at :: at in places ==> at.file == if j < 16 then FloatReg else Stack)
            && (s[i] in "IPL" ==> forall at :: at in places ==> at.file == if j < 6 then IntReg else Stack)
            && |places| == (if s[i] in "IF" then 1 else 2)
            && places[0].index == (if s[i] == 'F' then 2 * j + 1 else 2 * j)
            && (|places| == 2 ==> places[1].index == 2 * j + 1)
  {
  }

  /** A half gets nothing of its own. */
  lemma NativeHalves(m: Mode, s: string, i: nat)
    requires i < |s| && s[i] == 'h'
    ensures V9Entry(m, s, i) == Half && V8Entry(m, s, i) == Half
  {
  }

  // --------------------------------------------------------------------------
  // The numbers in the array

  function CodeOf(p: Place): nat {
    p.index + match p.file case IntReg => 1000 case FloatReg => 3000 case Stack => 4000
  }

  /** A pair is two codes in one number; a half is zero. */
  function Packed(e: Entry): int {
    match e
    case Single(at) => CodeOf(at)
    case Pair(first, second) => CodeOf(first) + 0x1_0000 * CodeOf(second)
    case _ => 0
  }

  function PlaceOf(code: nat): Place
    requires code >= 1000
  {
    if code < 3000 then Place(IntReg, code - 1000) else if code < 4000 then Place(FloatReg, code - 3000)
    else Place(Stack, code - 4000)
  }

  function Unpacked(x: nat): Entry {
    var low, high := x % 0x1_0000, x / 0x1_0000;
    if low < 1000 then Half
    else if high < 1000 then Single(PlaceOf(low))
    else Pair(PlaceOf(low), PlaceOf(high))
  }

  /** The place is in the range of its file, and on the stack its code and the next one fit fifteen bits. */
  predicate InFile(p: Place) {
    match p.file
    case IntReg => p.index < 12
    case FloatReg => p.index < 32
    case Stack => p.index < 0x7000
  }

  predicate Packable(e: Entry) {
    match e
    case Raw(_) => false
    case Single(at) => InFile(at)
    case Pair(first, second) => InFile(first) && InFile(second)
    case Half => true
  }

  lemma CodeInverse(p: Place)
    requires InFile(p)
    ensures 1000 <= CodeOf(p) < 0x8000 && PlaceOf(CodeOf(p)) == p
  {
  }

  lemma PackedParts(low: nat, high: nat)
    requires low < 0x8000 && high < 0x8000
    ensures var x := low + 0x1_0000 * high; x % 0x1_0000 == low && x / 0x1_0000 == high && x < 0x8000_0000
  {
  }

  /** The places can be read off the number, which stays a positive 32-bit number. */
  lemma PackedInverse(e: Entry)
    requires Packable(e)
    ensures 0 <= Packed(e) < 0x8000_0000 && Unpacked(Packed(e)) == e
  {
    match e
    case Single(at) => CodeInverse(at);
    case Pair(first, second) =>
      CodeInverse(first);
      CodeInverse(second);
      PackedParts(CodeOf(first), CodeOf(second));
    case _ =>
  }

  /** What the printer writes for a number: nothing useful for a code a hundred or more above the first of its file. */
  datatype Token = Halves | Name(at: Place) | Wretched(code: int)

  function PrintReg(code: nat): Token {
    if code == 0 then Halves
    else if 4000 <= code < 4100 then Name(Place(Stack, code - 4000))
    else if 3000 <= code < 3100 then Name(Place(FloatReg, code - 3000))
    else if 1000 <= code < 1100 then Name(Place(IntReg, code - 1000))
    else Wretched(code)
  }

  /** An element of the array is printed as one place or two; halves are skipped. */
  function PrintEntry(x: nat): seq<Token> {
    if x == 0 then []
    else if x / 0x1_0000 == 0 then [PrintReg(x % 0x1_0000)]
    else [PrintReg(x % 0x1_0000), PrintReg(x / 0x1_0000)]
  }

  function Names(e: Entry): seq<Token> {
    match e
    case Single(at) => [Name(at)]
    case Pair(first, second) => [Name(first), Name(second)]
    case _ => []
  }

  lemma PrintRegIff(p: Place)
    requires InFile(p)
    ensures PrintReg(CodeOf(p)) == Name(p) <==> p.index < 100
  {
  }

  lemma PrintTwo(low: nat, high: nat)
    requires 1000 <= low < 0x8000 && 1000 <= high < 0x8000
    ensures PrintEntry(low) == [PrintReg(low)]
    ensures PrintEntry(low + 0x1_0000 * high) == [PrintReg(low), PrintReg(high)]
  {
    PackedParts(low, high);
  }

  /** The places of an argument are printed as they are if and only if each is among the first hundred of its file. */
  lemma PrintedIff(e: Entry)
    requires Packable(e)
    ensures Packed(e) >= 0 && (PrintEntry(Packed(e)) == Names(e) <==> forall at :: at in Places(e) ==> at.index < 100)
  {
    match e
    case Single(at) =>
      CodeInverse(at);
      PrintTwo(CodeOf(at), CodeOf(at));
      PrintRegIff(at);
    case Pair(first, second) => PrintedPair(first, second);
    case Half =>
  }

  lemma PrintedPair(first: Place, second: Place)
    requires InFile(first) && InFile(second)
    ensures var e := Pair(first, second);
            Packed(e) >= 0 && (PrintEntry(Packed(e)) == Names(e) <==> first.index < 100 && second.index < 100)
  {
    CodeInverse(first);
    CodeInverse(second);
    PrintTwo(CodeOf(first), CodeOf(second));
    PrintRegIff(first);
    PrintRegIff(second);
    assert [PrintReg(CodeOf(first)), PrintReg(CodeOf(second))] == Names(Pair(first, second)) <==>
           PrintReg(CodeOf(first)) == Name(first) && PrintReg(CodeOf(second)) == Name(second);
  }

  lemma {:induction false} StackBound(m: Mode, s: string, i: nat)
    requires i <= |s|
    ensures Counted(m, s, i).singles <= i
    ensures Taken(m, s, i).stack <= StartPairs(m, s).stack + 2 * i
  {
    if i > 0 {
      StackBound(m, s, i - 1);
    }
  }

  /** Signatures that fit the array of a thousand elements can be packed. */
  lemma JavaPackable(m: Mode, s: string, i: nat)
    requires Supported(m) && i < |s| <= 1000
    ensures Packable(JavaEntry(m, s, i))
  {
    StackBound(m, s, i);
    StackBound(m, s, |s|);
    JavaAligned(m, s, i);
    var e := JavaEntry(m, s, i);
    forall at | at in Places(e) ensures InFile(at) {
      if at.file == Stack {
        JavaStack(m, s, i, at);
      }
    }
  }

  lemma JavaStack(m: Mode, s: string, i: nat, at: Place)
    requires Supported(m) && i < |s| <= 1000 && at in Places(JavaEntry(m, s, i)) && at.file == Stack
    requires Counted(m, s, i).singles <= 1000 && Taken(m, s, i).stack <= 4000
    ensures at.index < 0x7000
  {
  }
}
