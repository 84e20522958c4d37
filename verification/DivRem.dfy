/**
  Integer division and remainder as the client compiler emits them: shifts and masks for a constant
  power of two, sdivcc with a repair of its overflow case otherwise. On both machine widths the code
  computes Java's truncating division and remainder.
 */
module DivRem {
  import opened Words
  import opened Arithmetic
  import opened SparcMachine

  // --------------------------------------------------------------------------
  // The bytecode interpreter's operations, on signed 32-bit numbers

  function VMintDiv(a: int, b: int): int
    requires b != 0
  {
    if a == -HALF32 && b == -1 then a else TruncDiv(a, b)
  }

  /** The remainder has the sign of the dividend. */
  function VMintRem(a: int, b: int): int
    requires b != 0
  {
    if a == -HALF32 && b == -1 then 0
    else if a < 0 then -(AbsInt(a) % AbsInt(b)) else AbsInt(a) % AbsInt(b)
  }

  // --------------------------------------------------------------------------
  // The emitted code

  datatype Code = Idiv | Irem

  /** The operands of a division. A constant divisor is an immediate. */
  datatype Division = Division(code: Code, dividend: Reg, divisor: Operand, scratch: Reg, result: Reg)

  /** What the assembler asserts about the operands, and that the registers it writes are real ones. */
  predicate DivisionRegs(v: Division) {
    && v.scratch != G0 && v.result != G0
    && v.dividend != v.scratch && v.divisor != R(v.scratch)
    && (v.divisor.Imm? ==> -4096 <= v.divisor.value < 4096)
  }

  predicate IsPowerOf2(v: int) {
    v > 0 && BitAnd(v, v - 1) == 0
  }

  function Log2(v: nat): nat {
    if v < 2 then 0 else 1 + Log2(v / 2)
  }

  predicate ByShifts(v: Division) {
    v.divisor.Imm? && IsPowerOf2(v.divisor.value)
  }

  /** Adds divisor - 1 to a negative dividend. */
  function Rounding(v: Division, n: int): seq<Instr> {
    (if n == 2 then
      [ Op(SRL, v.dividend, Imm(31), v.scratch) ]
    else
      [ Op(SRA, v.dividend, Imm(31), v.scratch),
        Op(AND, v.scratch, Imm(n - 1), v.scratch) ]) +
    [ Op(ADD, v.dividend, R(v.scratch), v.scratch) ]
  }

  function ShiftCode(v: Division, n: nat): seq<Instr> {
    Rounding(v, n) +
    match v.code
    case Idiv =>
      [ Op(SRA, v.scratch, Imm(Log2(n)), v.result) ]
    case Irem =>
      [ Op(ANDN, v.scratch, Imm(n - 1), v.scratch),
        Op(SUB, v.dividend, R(v.scratch), v.result) ]
  }

  function QuotientReg(v: Division): Reg {
    if v.code == Idiv then v.result else v.scratch
  }

  /** V8 needs four instructions between writing Y and using it. */
  function DivideCode(v9: bool, v: Division): seq<Instr> {
    var wait := if v9 then [] else [Nop, Nop, Nop, Nop];
    var skip := |wait| + 5;
    [ Op(SRA, v.dividend, Imm(31), v.scratch),
      Wry(v.scratch) ] +
    wait +
    [ SdivCC(v.dividend, v.divisor, QuotientReg(v)),
      Branch(OverflowSet, true, skip),
      Sethi(0x8000_0000, QuotientReg(v)) ] +
    if v.code == Idiv then [] else
      [ Op(SMUL, v.scratch, v.divisor, v.scratch),
        Op(SUB, v.dividend, R(v.scratch), v.result) ]
  }

  function DivisionCode(v9: bool, v: Division): seq<Instr> {
    if ByShifts(v) then ShiftCode(v, v.divisor.value) else DivideCode(v9, v)
  }

  // --------------------------------------------------------------------------
  // Powers of two

  lemma {:induction false} AndSelf(u: nat)
    ensures BitAnd(u, u) == u
  {
    if u > 0 {
      AndSelf(u / 2);
      AndUnfold(u, u);
    }
  }

  /** The test on v and v - 1 finds exactly the powers of two, and the logarithm is theirs. */
  lemma {:induction false} PowerOf2(v: nat)
    requires v > 0
    ensures IsPowerOf2(v) <==> v == Pow2(Log2(v))
  {
    if v == 1 {
      assert BitAnd(1, 0) == 0;
    } else {
      var u := v / 2;
      PowerOf2(u);
      if v % 2 == 0 {
        assert (v - 1) / 2 == u - 1 && (v - 1) % 2 == 1;
      } else {
        assert (v - 1) / 2 == u && (v - 1) % 2 == 0;
        AndSelf(u);
        assert Pow2(Log2(v)) == 2 * Pow2(Log2(u));
      }
    }
  }

  lemma {:induction false} Log2Below(v: nat, k: nat)
    requires 0 < v < Pow2(k)
    ensures Log2(v) < k
  {
    if v >= 2 {
      Log2Below(v / 2, k - 1);
    }
  }

  /** What emit_op3 divides by with shifts: a power of two below 2^12. */
  ghost predicate Shiftable(n: int, k: nat)
  {
    0 < n < 4096 && n == Pow2(k) && k < 12
  }

  /** The constants divided by with shifts. */
  lemma SmallPower(n: int)
    requires IsPowerOf2(n) && n < 4096
    ensures Shiftable(n, Log2(n))
  {
    PowerOf2(n);
    assert Pow2(6) == 64;
    Pow2Add(6, 6);
    Log2Below(n, 12);
  }

  // --------------------------------------------------------------------------
  // Words modulo 2^32

  /** The number v stands for the signed number a. */
  predicate Stands(v: int, a: int) {
    (v - a) % W32 == 0
  }

  lemma StandsSigned(v: int)
    ensures Stands(v, Signed(v)) && IsInt(Signed(v))
  {
  }

  lemma SignedStands(v: int, a: int)
    requires IsInt(a) && Stands(v, a)
    ensures Signed(v) == a
  {
  }

  lemma StandsWord(m: int, v: int, a: int)
    requires Width(m) && Stands(v, a)
    ensures Stands(v % m, a)
  {
  }

  lemma StandsSum(v: int, a: int, w: int, b: int)
    requires Stands(v, a) && Stands(w, b)
    ensures Stands(v + w, a + b) && Stands(v - w, a - b)
  {
  }

  /** A multiple of 2^32 is a multiple of n, so both have the same remainder. */
  lemma StandsMod(v: int, a: int, n: int, b: int)
    requires n > 0 && W32 == n * b && Stands(v, a)
    ensures v % n == a % n
  {
    var j := (v - a) / W32;
    assert v == a + W32 * j;
    assert W32 * j == n * (b * j) by {
      MulAssoc(n, b, j);
    }
    assert n * (a / n + b * j) == n * (a / n) + n * (b * j);
    ModUnique(v, n, a / n + b * j, a % n);
  }

  // --------------------------------------------------------------------------
  // Truncating division

  function Bias(a: int, n: int): int {
    if a < 0 then n - 1 else 0
  }

  /** Rounding down after adding the bias is rounding toward zero. */
  lemma RoundedDiv(a: int, n: int)
    requires n > 0
    ensures (a + Bias(a, n)) / n == TruncDiv(a, n)
  {
    if a < 0 {
      var q, r := (-a) / n, (-a) % n;
      assert n * -q == -(n * q);
      ModUnique(a + n - 1, n, -q, n - 1 - r);
    }
  }

  /** Quotient and remainder give the dividend back, and the remainder is small. */
  lemma RemainderIs(a: int, b: int)
    requires b != 0
    ensures TruncDiv(a, b) * b + (if a < 0 then -(AbsInt(a) % AbsInt(b)) else AbsInt(a) % AbsInt(b)) == a
  {
    var q, r := AbsInt(a) / AbsInt(b), AbsInt(a) % AbsInt(b);
    assert AbsInt(a) == AbsInt(b) * q + r;
    assert (-q) * b == -(q * b) && q * (-b) == -(q * b);
  }

  lemma QuotientSmall(a: int, b: int)
    requires b != 0
    ensures AbsInt(TruncDiv(a, b)) <= AbsInt(a)
    ensures AbsInt(b) >= 2 ==> 2 * AbsInt(TruncDiv(a, b)) <= AbsInt(a)
  {
    var u, w := AbsInt(a), AbsInt(b);
    var q := u / w;
    assert u == w * q + u % w;
    if q > 0 {
      MulAtLeast(q, w);
      assert w * q == q * w;
      if w >= 2 {
        DoubleAtMost(q, w);
      }
    }
  }

  lemma {:induction false} DoubleAtMost(q: int, w: int)
    requires q > 0 && w >= 2
    ensures q * w >= 2 * q
  {
    if w > 2 {
      DoubleAtMost(q, w - 1);
      assert q * w == q * (w - 1) + q;
    }
  }

  /** The one quotient that does not fit a word. */
  lemma QuotientFits(a: int, b: int)
    requires IsInt(a) && b != 0
    ensures IsInt(TruncDiv(a, b)) <==> !(a == -HALF32 && b == -1)
    ensures a == -HALF32 && b == -1 ==> TruncDiv(a, b) == HALF32
  {
    QuotientSmall(a, b);
    if b == -1 {
      assert AbsInt(a) / 1 == AbsInt(a);
    } else if b == 1 {
      assert AbsInt(a) / 1 == AbsInt(a);
    }
  }

  // --------------------------------------------------------------------------
  // Running the code for powers of two

  lemma SignWord(m: int, x: int)
    requires Width(m)
    ensures Compute(m, SRA, x, 31 % m) == if Signed(x) < 0 then m - 1 else 0
    ensures Compute(m, SRL, x, 31 % m) == if Signed(x) < 0 then 1 else 0
  {
    Pow2Values();
    assert 31 % m == 31 && 31 % 32 == 31;
  }

  lemma WidthMultiple(m: int, n: int, k: nat)
    requires Width(m) && Shiftable(n, k)
    ensures n * Pow2(32 - k) == W32 && n * (if m == W32 then Pow2(32 - k) else Pow2(64 - k)) == m
  {
    Pow2Values();
    Pow2Add(k, 32 - k);
    Pow2Add(k, 64 - k);
  }

  lemma AllOnes(m: int, n: int, k: nat)
    requires Width(m) && Shiftable(n, k)
    ensures BitAnd(m - 1, n - 1) == n - 1
  {
    WidthMultiple(m, n, k);
    AndMask(m - 1, k);
    var c := if m == W32 then Pow2(32 - k) else Pow2(64 - k);
    MulDistribute(n, c, -1);
    ModUnique(m - 1, n, c - 1, n - 1);
  }

  lemma BiasWord(m: int, x: int, n: int, k: nat)
    requires Width(m) && Shiftable(n, k)
    ensures var sign := Compute(m, SRA, x, 31 % m);
            sign >= 0 && (n - 1) % m == n - 1 && Compute(m, AND, sign, (n - 1) % m) == Bias(Signed(x), n)
  {
    SignWord(m, x);
    AllOnes(m, n, k);
  }

  /** The code starts by adding the bias. */
  ghost predicate StartsRounding(v: Division, n: int, code: seq<Instr>, len: nat)
  {
    len <= |code| &&
    if n == 2 then
      && len == 2
      && code[0] == Op(SRL, v.dividend, Imm(31), v.scratch)
      && code[1] == Op(ADD, v.dividend, R(v.scratch), v.scratch)
    else
      && len == 3
      && code[0] == Op(SRA, v.dividend, Imm(31), v.scratch)
      && code[1] == Op(AND, v.scratch, Imm(n - 1), v.scratch)
      && code[2] == Op(ADD, v.dividend, R(v.scratch), v.scratch)
  }

  lemma RoundingRuns(m: int, v: Division, n: int, k: nat, code: seq<Instr>, d: Data, len: nat) returns (r: Data)
    requires Width(m) && DivisionRegs(v) && Shiftable(n, k) && StartsRounding(v, n, code, len)
    ensures Leads(m, code, At(0, d), At(len, r))
    ensures var x := Get(d.regs, v.dividend);
            Get(r.regs, v.dividend) == x && Get(r.regs, v.scratch) == (x + Bias(Signed(x), n)) % m
  {
    var x := Get(d.regs, v.dividend);
    SignWord(m, x);
    BiasWord(m, x, n, k);
    if n == 2 {
      r := ShortRoundingRuns(m, v, code, d);
    } else {
      r := LongRoundingRuns(m, v, n, code, d);
    }
  }

  lemma ShortRoundingRuns(m: int, v: Division, code: seq<Instr>, d: Data) returns (r: Data)
    requires Width(m) && DivisionRegs(v) && StartsRounding(v, 2, code, 2)
    ensures Leads(m, code, At(0, d), At(2, r))
    ensures var x := Get(d.regs, v.dividend);
            && Get(r.regs, v.dividend) == x
            && Get(r.regs, v.scratch) == (x + Compute(m, SRL, x, 31 % m)) % m
  {
    var a := At(0, d);
    LeadsStart(m, code, a);
    var d1 := Exec(m, code[0], d);
    Follow(m, code, a, 0, d, d1);
    r := Exec(m, code[1], d1);
    Follow(m, code, a, 1, d1, r);
  }

  lemma LongRoundingRuns(m: int, v: Division, n: int, code: seq<Instr>, d: Data) returns (r: Data)
    requires Width(m) && DivisionRegs(v) && n != 2 && StartsRounding(v, n, code, 3)
    ensures Leads(m, code, At(0, d), At(3, r))
    ensures var x := Get(d.regs, v.dividend);
            && Get(r.regs, v.dividend) == x
            && Get(r.regs, v.scratch) == (x + Compute(m, AND, Compute(m, SRA, x, 31 % m), (n - 1) % m)) % m
  {
    var a := At(0, d);
    LeadsStart(m, code, a);
    var d1 := Exec(m, code[0], d);
    Follow(m, code, a, 0, d, d1);
    var d2 := Exec(m, code[1], d1);
    Follow(m, code, a, 1, d1, d2);
    r := Exec(m, code[2], d2);
    Follow(m, code, a, 2, d2, r);
  }

  /** The biased dividend does not overflow. */
  lemma BiasedStands(m: int, x: int, n: int)
    requires Width(m) && 0 < n < 4096
    ensures Stands((x + Bias(Signed(x), n)) % m, Signed(x) + Bias(Signed(x), n))
    ensures Signed((x + Bias(Signed(x), n)) % m) == Signed(x) + Bias(Signed(x), n)
  {
    var b := Bias(Signed(x), n);
    StandsSigned(x);
    StandsSum(x, Signed(x), b, b);
    StandsWord(m, x + b, Signed(x) + b);
    SignedStands((x + b) % m, Signed(x) + b);
  }

  lemma ShiftQuotient(m: int, x: int, n: int, k: nat)
    requires Width(m) && Shiftable(n, k)
    ensures Signed(Compute(m, SRA, (x + Bias(Signed(x), n)) % m, k % m)) == TruncDiv(Signed(x), n)
  {
    assert k % m == k && k % 32 == k;
    BiasedStands(m, x, n);
    RoundedDiv(Signed(x), n);
    StandsSigned(x);
    QuotientSmall(Signed(x), n);
    var q := TruncDiv(Signed(x), n);
    QuotientFits(Signed(x), n);
    StandsWord(m, q, q);
    SignedStands(q % m, q);
  }

  /** Clearing the low bits of the biased dividend leaves the quotient times the divisor. */
  lemma MaskedStands(x: int, a: int, b: int, s: int, n: int, c: int, q: int)
    requires n > 0 && W32 == n * c && Stands(x, a) && Stands(s, a + b) && (a + b) / n == q
    ensures Stands(x - (s - s % n), a - n * q)
  {
    StandsMod(s, a + b, n, c);
    assert a + b == n * q + (a + b) % n;
    var r := s % n;
    StandsSum(s, a + b, r, r);
    StandsSum(x, a, s - r, n * q);
  }

  lemma MaskValue(m: int, s: nat, n: int, k: nat)
    requires Width(m) && Shiftable(n, k)
    ensures Compute(m, ANDN, s, (n - 1) % m) == s - s % n
  {
    assert (n - 1) % m == n - 1;
    AndMask(s, k);
  }

  lemma RemainderStands(x: int, a: int, n: int, s: int, c: int)
    requires n > 0 && IsInt(a) && IsInt(n) && W32 == n * c && Stands(x, a) && Stands(s, a + Bias(a, n))
    ensures Stands(x - (s - s % n), VMintRem(a, n)) && IsInt(VMintRem(a, n))
  {
    RoundedDiv(a, n);
    MaskedStands(x, a, Bias(a, n), s, n, c, TruncDiv(a, n));
    RemainderIs(a, n);
    assert TruncDiv(a, n) * n == n * TruncDiv(a, n);
    RemainderInt(a, n);
  }

  lemma MaskedRemainder(m: int, x: int, n: int, k: nat)
    requires Width(m) && Shiftable(n, k)
    ensures var s := (x + Bias(Signed(x), n)) % m;
            Signed((x - Compute(m, ANDN, s, (n - 1) % m)) % m) == VMintRem(Signed(x), n)
  {
    var a := Signed(x);
    var s := (x + Bias(a, n)) % m;
    MaskValue(m, s, n, k);
    BiasedStands(m, x, n);
    WidthMultiple(m, n, k);
    StandsSigned(x);
    RemainderStands(x, a, n, s, Pow2(32 - k));
    var t := x - (s - s % n);
    StandsWord(m, t, VMintRem(a, n));
    SignedStands(t % m, VMintRem(a, n));
  }

  lemma RemainderInt(a: int, b: int)
    requires IsInt(a) && IsInt(b) && b != 0
    ensures IsInt(VMintRem(a, b))
  {
  }

  function RoundingLength(n: int): nat {
    if n == 2 then 2 else 3
  }

  lemma ShiftLayout(v: Division, n: nat)
    ensures var code, len := ShiftCode(v, n), RoundingLength(n);
            && StartsRounding(v, n, code, len)
            && match v.code
               case Idiv => |code| == len + 1 && code[len] == Op(SRA, v.scratch, Imm(Log2(n)), v.result)
               case Irem =>
                 && |code| == len + 2
                 && code[len] == Op(ANDN, v.scratch, Imm(n - 1), v.scratch)
                 && code[len + 1] == Op(SUB, v.dividend, R(v.scratch), v.result)
  {
  }

  lemma DivideByShifts(m: int, v: Division, d: Data) returns (r: Data)
    requires Width(m) && DivisionRegs(v) && ByShifts(v) && v.code == Idiv
    ensures Ends(m, ShiftCode(v, v.divisor.value), d, r)
    ensures Signed(Get(r.regs, v.result)) == TruncDiv(Signed(Get(d.regs, v.dividend)), v.divisor.value)
  {
    var n := v.divisor.value;
    SmallPower(n);
    var code, len := ShiftCode(v, n), RoundingLength(n);
    ShiftLayout(v, n);
    var d1 := RoundingRuns(m, v, n, Log2(n), code, d, len);
    r := FinishQuotient(m, v, Log2(n), code, At(0, d), len, d1);
    ShiftQuotient(m, Get(d.regs, v.dividend), n, Log2(n));
  }

  lemma FinishQuotient(m: int, v: Division, k: nat, code: seq<Instr>, a: State, len: nat, d: Data) returns (r: Data)
    requires Width(m) && DivisionRegs(v) && |code| == len + 1
    requires code[len] == Op(SRA, v.scratch, Imm(k), v.result) && Leads(m, code, a, At(len, d))
    ensures Leads(m, code, a, At(|code|, r))
    ensures Get(r.regs, v.result) == Compute(m, SRA, Get(d.regs, v.scratch), k % m)
  {
    r := Exec(m, code[len], d);
    Follow(m, code, a, len, d, r);
  }

  lemma FinishRemainder(m: int, v: Division, n: int, code: seq<Instr>, a: State, len: nat, d: Data) returns (r: Data)
    requires Width(m) && DivisionRegs(v) && |code| == len + 2
    requires code[len] == Op(ANDN, v.scratch, Imm(n - 1), v.scratch)
    requires code[len + 1] == Op(SUB, v.dividend, R(v.scratch), v.result) && Leads(m, code, a, At(len, d))
    ensures Leads(m, code, a, At(|code|, r))
    ensures Get(r.regs, v.result)
         == (Get(d.regs, v.dividend) - Compute(m, ANDN, Get(d.regs, v.scratch), (n - 1) % m)) % m
  {
    var d1 := Exec(m, code[len], d);
    Follow(m, code, a, len, d, d1);
    r := Exec(m, code[len + 1], d1);
    Follow(m, code, a, len + 1, d1, r);
  }

  lemma RemainderByShifts(m: int, v: Division, d: Data) returns (r: Data)
    requires Width(m) && DivisionRegs(v) && ByShifts(v) && v.code == Irem
    ensures Ends(m, ShiftCode(v, v.divisor.value), d, r)
    ensures Signed(Get(r.regs, v.result)) == VMintRem(Signed(Get(d.regs, v.dividend)), v.divisor.value)
  {
    var n := v.divisor.value;
    SmallPower(n);
    var code, len := ShiftCode(v, n), RoundingLength(n);
    ShiftLayout(v, n);
    var d1 := RoundingRuns(m, v, n, Log2(n), code, d, len);
    r := FinishRemainder(m, v, n, code, At(0, d), len, d1);
    MaskedRemainder(m, Get(d.regs, v.dividend), n, Log2(n));
  }

  // --------------------------------------------------------------------------
  // Running the code with sdivcc

  /** The code from the sdivcc on, behind Y. */
  ghost predicate DividesAt(v: Division, code: seq<Instr>, i: nat)
  {
    && |code| == i + (if v.code == Idiv then 3 else 5)
    && code[i] == SdivCC(v.dividend, v.divisor, QuotientReg(v))
    && code[i + 1] == Branch(OverflowSet, true, i + 3)
    && code[i + 2] == Sethi(0x8000_0000, QuotientReg(v))
    && (v.code == Irem ==> code[i + 3] == Op(SMUL, v.scratch, v.divisor, v.scratch))
    && (v.code == Irem ==> code[i + 4] == Op(SUB, v.dividend, R(v.scratch), v.result))
  }

  lemma DivideLayout(v9: bool, v: Division)
    ensures var code, i := DivideCode(v9, v), if v9 then 2 else 6;
            && DividesAt(v, code, i)
            && code[0] == Op(SRA, v.dividend, Imm(31), v.scratch)
            && code[1] == Wry(v.scratch)
            && forall k :: 2 <= k < i ==> code[k] == Nop
  {
  }

  /** Y and the dividend together are the dividend with its sign extended. */
  lemma ExtendedDividend(m: int, x: int)
    requires Width(m)
    ensures Signed(Compute(m, SRA, x, 31 % m) % W32) * W32 + x % W32 == Signed(x)
  {
    SignWord(m, x);
    assert (m - 1) % W32 == W32 - 1;
  }

  lemma {:induction false} FollowNops(m: int, code: seq<Instr>, a: State, i: nat, n: nat, d: Data)
    requires m > 0 && Leads(m, code, a, At(i, d)) && i + n <= |code|
    requires forall k :: i <= k < i + n ==> code[k] == Nop
    ensures Leads(m, code, a, At(i + n, d))
    decreases n
  {
    if n > 0 {
      Follow(m, code, a, i, d, d);
      FollowNops(m, code, a, i + 1, n - 1, d);
    }
  }

  /** Up to the sdivcc. */
  lemma SetsY(m: int, v9: bool, v: Division, d: Data) returns (r: Data)
    requires Width(m) && DivisionRegs(v)
    ensures Leads(m, DivideCode(v9, v), At(0, d), At(if v9 then 2 else 6, r))
    ensures r == d.(regs := Set(d.regs, v.scratch, Compute(m, SRA, Get(d.regs, v.dividend), 31 % m)), y := r.y)
    ensures r.y == Compute(m, SRA, Get(d.regs, v.dividend), 31 % m) % W32
  {
    var code := DivideCode(v9, v);
    DivideLayout(v9, v);
    LeadsStart(m, code, At(0, d));
    var d1 := Exec(m, code[0], d);
    Follow(m, code, At(0, d), 0, d, d1);
    r := Exec(m, code[1], d1);
    Follow(m, code, At(0, d), 1, d1, r);
    FollowNops(m, code, At(0, d), 2, if v9 then 0 else 4, r);
  }

  /** sdivcc and the repair of its overflow leave the interpreter's quotient. */
  lemma Divides(m: int, v: Division, code: seq<Instr>, a: State, i: nat, d: Data, x: int, b: int) returns (r: Data)
    requires Width(m) && DivisionRegs(v) && DividesAt(v, code, i) && Leads(m, code, a, At(i, d))
    requires Get(d.regs, v.dividend) == x && Signed(Value(m, d.regs, v.divisor)) == b != 0
    requires Signed(d.y) * W32 + x % W32 == Signed(x)
    ensures Leads(m, code, a, At(i + 3, r))
    ensures r.regs == Set(d.regs, QuotientReg(v), Get(r.regs, QuotientReg(v)))
    ensures Signed(Get(r.regs, QuotientReg(v))) == VMintDiv(Signed(x), b)
  {
    var q := TruncDiv(Signed(x), b);
    assert Quotient(d.y, x, Value(m, d.regs, v.divisor)) == q;
    StandsSigned(x);
    QuotientFits(Signed(x), b);
    var d1 := Exec(m, code[i], d);
    Follow(m, code, a, i, d, d1);
    assert d1.icc.v == (q != Clamp(q));
    if q == Clamp(q) {
      r := d1;
      FollowNotTaken(m, code, a, i + 1, d1, d1);
      StandsWord(m, q, q);
      SignedStands(q % m, q);
    } else {
      r := RepairsOverflow(m, v, code, a, i, d1);
      assert r.regs == Set(d.regs, QuotientReg(v), HALF32);
    }
  }

  lemma RepairsOverflow(m: int, v: Division, code: seq<Instr>, a: State, i: nat, d: Data) returns (r: Data)
    requires Width(m) && DivisionRegs(v) && DividesAt(v, code, i) && Leads(m, code, a, At(i + 1, d)) && d.icc.v
    ensures Leads(m, code, a, At(i + 3, r)) && r.regs == Set(d.regs, QuotientReg(v), HALF32)
    ensures Signed(HALF32) == -HALF32
  {
    r := Exec(m, code[i + 2], d);
    assert 0x8000_0000 % W32 / 1024 * 1024 == HALF32;
    FollowTaken(m, code, a, i + 1, d, r);
  }

  lemma ProductRemainder(m: int, x: int, s: int, b: int)
    requires Width(m) && b != 0 && IsInt(b) && Signed(s) == VMintDiv(Signed(x), b)
    ensures Signed((x - (Signed(s) * b) % m) % m) == VMintRem(Signed(x), b)
  {
    var a := Signed(x);
    var back := Signed(s) * b;
    StandsSigned(x);
    RemainderInt(a, b);
    ProductStands(a, b);
    DifferenceStands(m, x, a, back);
    StandsAgain((x - back % m) % m, a - back, VMintRem(a, b));
    SignedStands((x - back % m) % m, VMintRem(a, b));
  }

  lemma DifferenceStands(m: int, x: int, a: int, back: int)
    requires Width(m) && Stands(x, a)
    ensures Stands((x - back % m) % m, a - back)
  {
    StandsWord(m, back, back);
    StandsSum(x, a, back % m, back);
    StandsWord(m, x - back % m, a - back);
  }

  lemma StandsAgain(v: int, a: int, b: int)
    requires Stands(v, a) && Stands(a, b)
    ensures Stands(v, b)
  {
  }

  /** The dividend less the quotient times the divisor is the remainder, up to a multiple of 2^32. */
  lemma ProductStands(a: int, b: int)
    requires b != 0
    ensures Stands(a - VMintDiv(a, b) * b, VMintRem(a, b))
  {
    if a == -HALF32 && b == -1 {
      assert VMintDiv(a, b) * b == HALF32;
    } else {
      RemainderIs(a, b);
    }
  }

  /** What is left of the remainder code. */
  lemma MultipliesBack(m: int, v: Division, code: seq<Instr>, a: State, i: nat, d: Data, x: int, b: int)
    returns (r: Data)
    requires Width(m) && DivisionRegs(v) && v.code == Irem && DividesAt(v, code, i) && Leads(m, code, a, At(i + 3, d))
    requires Get(d.regs, v.dividend) == x && Signed(Value(m, d.regs, v.divisor)) == b
    ensures Leads(m, code, a, At(|code|, r))
    ensures Get(r.regs, v.result) == (x - (Signed(Get(d.regs, v.scratch)) * b) % m) % m
  {
    var d1 := Exec(m, code[i + 3], d);
    Follow(m, code, a, i + 3, d, d1);
    r := Exec(m, code[i + 4], d1);
    Follow(m, code, a, i + 4, d1, r);
  }

  lemma DivideByInstruction(m: int, v9: bool, v: Division, d: Data) returns (r: Data)
    requires Width(m) && DivisionRegs(v) && Signed(Value(m, d.regs, v.divisor)) != 0
    ensures Ends(m, DivideCode(v9, v), d, r)
    ensures var a, b := Signed(Get(d.regs, v.dividend)), Signed(Value(m, d.regs, v.divisor));
            Signed(Get(r.regs, v.result)) == if v.code == Idiv then VMintDiv(a, b) else VMintRem(a, b)
  {
    var code, i := DivideCode(v9, v), if v9 then 2 else 6;
    var x, b := Get(d.regs, v.dividend), Signed(Value(m, d.regs, v.divisor));
    DivideLayout(v9, v);
    var d1 := SetsY(m, v9, v, d);
    ExtendedDividend(m, x);
    var d2 := Divides(m, v, code, At(0, d), i, d1, x, b);
    if v.code == Idiv {
      r := d2;
    } else {
      r := MultipliesBack(m, v, code, At(0, d), i, d2, x, b);
      StandsSigned(Value(m, d.regs, v.divisor));
      ProductRemainder(m, x, Get(d2.regs, v.scratch), b);
    }
  }

  // --------------------------------------------------------------------------
  // The emitted code computes the interpreter's operations

  lemma ImmediateValue(m: int, value: int)
    requires Width(m) && -4096 <= value < 4096
    ensures Signed(value % m) == value
  {
    StandsWord(m, value, value);
    SignedStands(value % m, value);
  }

  lemma DivisionWrites(v9: bool, v: Division)
    ensures WritesOnly(DivisionCode(v9, v), {v.scratch, v.result})
  {
  }

  /** For every dividend and every divisor but zero, on V8 and V9 and for 32-bit and 64-bit registers, the code
      leaves the interpreter's quotient or remainder in the result register, and changes no register but that and
      the scratch register. */
  lemma DivisionCorrect(m: int, v9: bool, v: Division, d: Data) returns (r: Data)
    requires Width(m) && DivisionRegs(v) && Signed(Value(m, d.regs, v.divisor)) != 0
    ensures Ends(m, DivisionCode(v9, v), d, r)
    ensures var a, b := Signed(Get(d.regs, v.dividend)), Signed(Value(m, d.regs, v.divisor));
            Signed(Get(r.regs, v.result)) == if v.code == Idiv then VMintDiv(a, b) else VMintRem(a, b)
    ensures SameOutside(d, r, {v.scratch, v.result})
  {
    if ByShifts(v) {
      ImmediateValue(m, v.divisor.value);
      if v.code == Idiv {
        r := DivideByShifts(m, v, d);
      } else {
        r := RemainderByShifts(m, v, d);
      }
    } else {
      r := DivideByInstruction(m, v9, v, d);
    }
    DivisionWrites(v9, v);
    EndsFrame(m, DivisionCode(v9, v), d, r, {v.scratch, v.result});
  }

  /** Java's law for the two results. */
  lemma QuotientAndRemainder(a: int, b: int)
    requires IsInt(a) && IsInt(b) && b != 0
    ensures (VMintDiv(a, b) * b + VMintRem(a, b) - a) % W32 == 0
    ensures AbsInt(VMintRem(a, b)) < AbsInt(b) && IsInt(VMintDiv(a, b))
    ensures VMintRem(a, b) != 0 ==> (VMintRem(a, b) < 0 <==> a < 0)
  {
    RemainderIs(a, b);
    QuotientFits(a, b);
  }
}
