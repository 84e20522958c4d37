/**
  Code for 32-bit values on registers of either width. A V9 machine run on such code does in the lower halves of its
  registers what a V8 machine does in its registers, step by step.
 */
module Widths {
  import opened Words
  import opened Arithmetic
  import opened SparcMachine

  /** Registers hold numbers of the machine's width. */
  ghost predicate InRange(m: int, d: Data)
  {
    forall r :: r in d.regs ==> 0 <= d.regs[r] < m
  }

  ghost predicate Natural(d: Data)
  {
    forall r :: r in d.regs ==> d.regs[r] >= 0
  }

  /** The lower half of a register. */
  function LowGet(d: Data, r: Reg): int {
    Get(d.regs, r) % W32
  }

  function LowRegs(regs: map<Reg, int>): map<Reg, int> {
    map r | r in regs :: regs[r] % W32
  }

  /** The same data on a V8 machine: the lower halves of all registers. */
  function Low(d: Data): Data {
    d.(regs := LowRegs(d.regs))
  }

  function LowState(s: State): State {
    State(s.pc, s.npc, Low(s.d))
  }

  /** Instructions whose lower half of the result depends on lower halves only. */
  predicate IsNarrow(i: Instr) {
    match i
    case Op(alu, _, _, _) => alu in {ADD, SUB, AND, OR, SLL, SRL, SRA, SMUL}
    case Lduh(_, _, _) => false
    case Ld(_, _, _) => false
    case _ => true
  }

  ghost predicate Narrow(code: seq<Instr>)
  {
    forall i :: 0 <= i < |code| ==> IsNarrow(code[i])
  }

  // --------------------------------------------------------------------------
  // One result

  lemma ModAgain(x: int)
    ensures x % W64 % W32 == x % W32
  {
    ModUnique(x, W32, x / W64 * W32 + x % W64 / W32, x % W64 % W32);
  }

  lemma LowSigned(x: int)
    ensures Signed(x % W32) == Signed(x)
  {
  }

  lemma SumLow(a: int, b: int)
    ensures (a % W32 + b % W32) % W32 == (a + b) % W32 && (a % W32 - b % W32) % W32 == (a - b) % W32
  {
    AddMultiple(a % W32 + b % W32, W32, a / W32 + b / W32);
    AddMultiple(a % W32 - b % W32, W32, a / W32 - b / W32);
  }

  lemma SumWideLow(a: int, b: int)
    ensures (a + b) % W64 % W32 == (a % W32 + b % W32) % W32 && (a - b) % W64 % W32 == (a % W32 - b % W32) % W32
  {
    SumLow(a, b);
    ModAgain(a + b);
    ModAgain(a - b);
  }

  lemma ProductLow(a: int, p: int)
    ensures (a % W32 * p) % W32 == (a * p) % W32
  {
    var q, r := a / W32, a % W32;
    assert a * p == r * p + q * p * W32 by {
      MulDistribute(q * W32, r, p);
      MulAssoc(q, p, W32);
      MulAssoc(q, W32, p);
    }
    AddMultiple(r * p, W32, q * p);
  }

  lemma HalfAgain(a: nat, p: nat)
    requires p > 0
    ensures a % (2 * p) == a % 2 + 2 * (a / 2 % p) && a % (2 * p) / 2 == a / 2 % p && a % (2 * p) % 2 == a % 2
  {
    HalveMod(a, p);
  }

  lemma AppendBit(x: nat, bit: nat, rest: nat, p: nat)
    requires p > 0 && bit < 2 && x == bit + 2 * rest
    ensures x % (2 * p) == bit + 2 * (rest % p)
  {
    HalfAgain(x, p);
  }

  lemma AndOfLow(a: nat, b: nat, p: nat)
    requires p > 0
    ensures BitAnd(a % (2 * p), b % (2 * p)) == AndBit(a, b) + 2 * BitAnd(a / 2 % p, b / 2 % p)
  {
    HalfAgain(a, p);
    HalfAgain(b, p);
    AndUnfold(a % (2 * p), b % (2 * p));
  }

  lemma OrOfLow(a: nat, b: nat, p: nat)
    requires p > 0
    ensures BitOr(a % (2 * p), b % (2 * p)) == OrBit(a, b) + 2 * BitOr(a / 2 % p, b / 2 % p)
  {
    HalfAgain(a, p);
    HalfAgain(b, p);
    OrUnfold(a % (2 * p), b % (2 * p));
  }

  lemma {:induction false} AndLow(a: nat, b: nat, k: nat)
    ensures BitAnd(a, b) % Pow2(k) == BitAnd(a % Pow2(k), b % Pow2(k))
    decreases k
  {
    if k > 0 {
      var p := Pow2(k - 1);
      AndUnfold(a, b);
      AppendBit(BitAnd(a, b), AndBit(a, b), BitAnd(a / 2, b / 2), p);
      AndLow(a / 2, b / 2, k - 1);
      AndOfLow(a, b, p);
    }
  }

  lemma {:induction false} OrLow(a: nat, b: nat, k: nat)
    ensures BitOr(a, b) % Pow2(k) == BitOr(a % Pow2(k), b % Pow2(k))
    decreases k
  {
    if k > 0 {
      var p := Pow2(k - 1);
      OrUnfold(a, b);
      AppendBit(BitOr(a, b), OrBit(a, b), BitOr(a / 2, b / 2), p);
      OrLow(a / 2, b / 2, k - 1);
      OrOfLow(a, b, p);
    }
  }

  lemma ShiftCountLow(b: int)
    ensures b % W32 % 32 == b % 32
  {
  }

  lemma ComputeLow(alu: Alu, a: nat, b: nat)
    requires alu in {ADD, SUB, AND, OR, SLL, SRL, SRA, SMUL}
    ensures Compute(W64, alu, a, b) >= 0
    ensures Compute(W64, alu, a, b) % W32 == Compute(W32, alu, a % W32, b % W32)
  {
    ShiftCountLow(b);
    LowSigned(a);
    LowSigned(b);
    match alu
    case ADD => SumWideLow(a, b);
    case SUB => SumWideLow(a, b);
    case AND => Pow2Values(); AndLow(a, b, 32);
    case OR => Pow2Values(); OrLow(a, b, 32);
    case SLL => ProductLow(a, Pow2(b % 32)); ModAgain(a * Pow2(b % 32));
    case SRL => QuotientLow(a % W32, Pow2(b % 32));
    case SRA => ModAgain(Signed(a) / Pow2(b % 32));
    case SMUL => ModAgain(Signed(a) * Signed(b));
  }

  lemma QuotientLow(a: nat, p: nat)
    requires a < W32 && p > 0
    ensures 0 <= a / p < W32
  {
    assert a == a / p * p + a % p;
    assert a / p > 0 ==> a / p * p >= a / p by {
      if a / p > 0 {
        MulAtLeast(a / p, p);
      }
    }
  }

  lemma FlagsLow(a: int, b: int)
    ensures SubFlags(a % W32, b % W32) == SubFlags(a, b) && AddFlags(a % W32, b % W32) == AddFlags(a, b)
  {
    SumLow(a, b);
    LowSigned(a);
    LowSigned(b);
    LowSigned(a - b);
    LowSigned(a % W32 - b % W32);
    LowSigned(a + b);
    LowSigned(a % W32 + b % W32);
  }

  // --------------------------------------------------------------------------
  // One instruction

  lemma SetLow(regs: map<Reg, int>, r: Reg, v: int)
    ensures LowRegs(Set(regs, r, v)) == Set(LowRegs(regs), r, v % W32)
  {
  }

  lemma ValueLow(regs: map<Reg, int>, o: Operand)
    ensures Value(W64, regs, o) % W32 == Value(W32, LowRegs(regs), o)
  {
    if o.Imm? {
      ModAgain(o.value);
    }
  }

  lemma QuotientOfLow(y: int, a: int, b: int)
    requires Signed(b) != 0
    ensures Signed(b % W32) != 0 && Quotient(y, a % W32, b % W32) == Quotient(y, a, b)
  {
    LowSigned(b);
    LowTwice(a);
    assert Quotient(y, a % W32, b % W32) == TruncDiv(Signed(y) * W32 + a % W32 % W32, Signed(b % W32));
  }

  lemma LowTwice(a: int)
    ensures a % W32 % W32 == a % W32
  {
  }

  lemma ExecNatural(i: Instr, d: Data)
    requires IsNarrow(i) && Natural(d)
    ensures Natural(Exec(W64, i, d))
  {
    if i.Op? {
      ComputeLow(i.alu, Get(d.regs, i.rs1), Value(W64, d.regs, i.op2));
    }
  }

  lemma OpLow(alu: Alu, rs1: Reg, op2: Operand, rd: Reg, d: Data)
    requires IsNarrow(Op(alu, rs1, op2, rd)) && Natural(d)
    ensures Low(Exec(W64, Op(alu, rs1, op2, rd), d)) == Exec(W32, Op(alu, rs1, op2, rd), Low(d))
  {
    var a, b := Get(d.regs, rs1), Value(W64, d.regs, op2);
    ValueLow(d.regs, op2);
    ComputeLow(alu, a, b);
    SetLow(d.regs, rd, Compute(W64, alu, a, b));
  }

  /** A result and condition codes, on either width. */
  lemma EffectLow(d: Data, rd: Reg, x: int, y: int, icc: Flags)
    requires x % W32 == y
    ensures Low(d.(regs := Set(d.regs, rd, x), icc := icc)) == Low(d).(regs := Set(LowRegs(d.regs), rd, y), icc := icc)
  {
    SetLow(d.regs, rd, x);
  }

  lemma AddLow(rs1: Reg, op2: Operand, rd: Reg, d: Data)
    ensures Low(Exec(W64, AddCC(rs1, op2, rd), d)) == Exec(W32, AddCC(rs1, op2, rd), Low(d))
  {
    var a, b := Get(d.regs, rs1), Value(W64, d.regs, op2);
    var f := AddFlags(a, b);
    ValueLow(d.regs, op2);
    assert Exec(W32, AddCC(rs1, op2, rd), Low(d))
        == Low(d).(regs := Set(LowRegs(d.regs), rd, (a % W32 + b % W32) % W32), icc := AddFlags(a % W32, b % W32));
    FlagsLow(a, b);
    SumWideLow(a, b);
    EffectLow(d, rd, (a + b) % W64, (a % W32 + b % W32) % W32, f);
  }

  lemma SubtractLow(rs1: Reg, op2: Operand, rd: Reg, d: Data)
    ensures Low(Exec(W64, SubCC(rs1, op2, rd), d)) == Exec(W32, SubCC(rs1, op2, rd), Low(d))
  {
    var a, b := Get(d.regs, rs1), Value(W64, d.regs, op2);
    ValueLow(d.regs, op2);
    FlagsLow(a, b);
    SumWideLow(a, b);
    EffectLow(d, rd, (a - b) % W64, (a % W32 - b % W32) % W32, SubFlags(a, b));
  }

  lemma DivideEffect(m: int, rs1: Reg, op2: Operand, rd: Reg, d: Data, q: int)
    requires m > 0 && Signed(Value(m, d.regs, op2)) != 0
    requires q == Quotient(d.y, Get(d.regs, rs1), Value(m, d.regs, op2))
    ensures Exec(m, SdivCC(rs1, op2, rd), d)
         == d.(regs := Set(d.regs, rd, Clamp(q) % m), icc := Flags(Clamp(q) < 0, Clamp(q) == 0, q != Clamp(q), false))
  {
  }

  lemma DivideLow(rs1: Reg, op2: Operand, rd: Reg, d: Data)
    requires Natural(d)
    ensures Low(Exec(W64, SdivCC(rs1, op2, rd), d)) == Exec(W32, SdivCC(rs1, op2, rd), Low(d))
  {
    var a, b := Get(d.regs, rs1), Value(W64, d.regs, op2);
    ValueLow(d.regs, op2);
    LowSigned(b);
    if Signed(b) != 0 {
      var q := Quotient(d.y, a, b);
      QuotientOfLow(d.y, a, b);
      DivideEffect(W64, rs1, op2, rd, d, q);
      DivideEffect(W32, rs1, op2, rd, Low(d), q);
      ModAgain(Clamp(q));
      EffectLow(d, rd, Clamp(q) % W64, Clamp(q) % W32, Flags(Clamp(q) < 0, Clamp(q) == 0, q != Clamp(q), false));
    }
  }

  lemma SethiLow(imm: int, rd: Reg, d: Data)
    ensures Low(Exec(W64, Sethi(imm, rd), d)) == Exec(W32, Sethi(imm, rd), Low(d))
  {
    SetLow(d.regs, rd, imm % W32 / 1024 * 1024);
  }

  /** Executed on either width, an instruction leaves the same lower halves. */
  lemma ExecLow(i: Instr, d: Data)
    requires IsNarrow(i) && Natural(d) && !i.Branch?
    ensures Low(Exec(W64, i, d)) == Exec(W32, i, Low(d))
  {
    match i
    case Op(alu, rs1, op2, rd) => OpLow(alu, rs1, op2, rd, d);
    case AddCC(rs1, op2, rd) => AddLow(rs1, op2, rd, d);
    case SubCC(rs1, op2, rd) => SubtractLow(rs1, op2, rd, d);
    case SdivCC(rs1, op2, rd) => DivideLow(rs1, op2, rd, d);
    case Sethi(imm, rd) => SethiLow(imm, rd, d);
    case Wry(rs1) =>
    case MovCC(cond, imm, rd) =>
      ModAgain(imm);
      SetLow(d.regs, rd, imm % W64);
    case Nop =>
  }

  // --------------------------------------------------------------------------
  // Whole runs

  lemma StepLow(code: seq<Instr>, s: State)
    requires Narrow(code) && Natural(s.d) && s.pc < |code|
    ensures Natural(Step(W64, code, s).d) && LowState(Step(W64, code, s)) == Step(W32, code, LowState(s))
  {
    var i := code[s.pc];
    if !i.Branch? {
      ExecNatural(i, s.d);
      ExecLow(i, s.d);
    }
  }

  /** Where the V8 machine gets from the lower halves, the V9 machine gets. */
  lemma {:induction false} ReachesWide(code: seq<Instr>, s: State, low: State, n: nat) returns (r: State)
    requires Narrow(code) && Natural(s.d) && Reaches(W32, code, LowState(s), low, n)
    ensures Reaches(W64, code, s, r, n) && LowState(r) == low
    decreases n
  {
    if n == 0 {
      r := s;
    } else {
      StepLow(code, s);
      r := ReachesWide(code, Step(W64, code, s), low, n - 1);
    }
  }

  lemma {:induction false} ReachesLow(code: seq<Instr>, s: State, r: State, n: nat)
    requires Narrow(code) && Natural(s.d) && Reaches(W64, code, s, r, n)
    ensures Reaches(W32, code, LowState(s), LowState(r), n)
    decreases n
  {
    if n > 0 {
      StepLow(code, s);
      ReachesLow(code, Step(W64, code, s), r, n - 1);
    }
  }

  /** Code for 32-bit values ends on a V9 machine exactly as it does on a V8 machine started with the lower halves. */
  lemma EndsOnBoth(code: seq<Instr>, d: Data, low: Data)
    requires Narrow(code) && InRange(W64, d)
    ensures Ends(W32, code, Low(d), low) <==> exists r :: Ends(W64, code, d, r) && Low(r) == low
  {
    var a := At(0, d);
    if Ends(W32, code, Low(d), low) {
      var n :| Reaches(W32, code, At(0, Low(d)), At(|code|, low), n);
      var r := ReachesWide(code, a, At(|code|, low), n);
      assert Reaches(W64, code, a, At(|code|, r.d), n);
      assert Ends(W64, code, d, r.d);
    }
    if r :| Ends(W64, code, d, r) && Low(r) == low {
      var n :| Reaches(W64, code, a, At(|code|, r), n);
      ReachesLow(code, a, At(|code|, r), n);
      assert Reaches(W32, code, At(0, Low(d)), At(|code|, low), n);
    }
  }

  lemma LowOfWords(d: Data)
    requires InRange(W32, d)
    ensures Low(d) == d
  {
    assert LowRegs(d.regs) == d.regs;
  }

  /** On either width: a run on the lower halves leaves the lower halves of the run. */
  lemma EndsFromLow(m: int, code: seq<Instr>, d: Data, low: Data) returns (r: Data)
    requires Width(m) && Narrow(code) && InRange(m, d) && Ends(W32, code, Low(d), low)
    ensures Ends(m, code, d, r) && forall x :: LowGet(r, x) == Get(low.regs, x)
  {
    assert InRange(W64, d);
    EndsOnBoth(code, d, low);
    r :| Ends(W64, code, d, r) && Low(r) == low;
    if m == W32 {
      LowOfWords(d);
      r := low;
    }
  }
}
