/**
  A small SPARC machine: integer registers, the icc condition codes, the Y register, read-only
  memory, and a pair of program counters for delay slots, as in sections A.3 to A.10, A.32, A.38 and A.48 of
  the SPARC Architecture Manual, Version 9. Words are natural numbers below a modulus, 2^32 on V8 and 2^64 on V9.
 */
module SparcMachine {
  import opened Words
  import opened Arithmetic

  /** The two register widths. */
  predicate Width(m: int) {
    m == W32 || m == W64
  }

  type Reg = nat
  const G0: Reg := 0

  // --------------------------------------------------------------------------
  // Words

  function Pow2(n: nat): (r: int)
    ensures r > 0
  {
    if n == 0 then 1 else 2 * Pow2(n - 1)
  }

  function BitAnd(a: nat, b: nat): nat
    decreases a
  {
    if a == 0 || b == 0 then 0 else a % 2 * (b % 2) + 2 * BitAnd(a / 2, b / 2)
  }

  function BitOr(a: nat, b: nat): nat
    decreases a
  {
    if a == 0 then b else if b == 0 then a
    else (if a % 2 == 1 || b % 2 == 1 then 1 else 0) + 2 * BitOr(a / 2, b / 2)
  }

  function BitXor(a: nat, b: nat): nat
    decreases a
  {
    if a == 0 then b else if b == 0 then a
    else (if a % 2 == b % 2 then 0 else 1) + 2 * BitXor(a / 2, b / 2)
  }

  // --------------------------------------------------------------------------
  // Instructions

  /** The second operand of an instruction: a register or an immediate. */
  datatype Operand = R(reg: Reg) | Imm(value: int)

  datatype Alu = ADD | SUB | AND | ANDN | OR | XOR | SLL | SRL | SRA | SLLX | SMUL

  datatype Cond = Always | Equal | NotEqual | Less | Greater | GreaterUnsigned | OverflowSet

  datatype Instr =
    | Op(alu: Alu, rs1: Reg, op2: Operand, rd: Reg)
    | AddCC(rs1: Reg, op2: Operand, rd: Reg)
    | SubCC(rs1: Reg, op2: Operand, rd: Reg)
    | Sethi(imm: int, rd: Reg)                        // the operand's low ten bits are dropped
    | Wry(rs1: Reg)
    | SdivCC(rs1: Reg, op2: Operand, rd: Reg)
    | MovCC(cond: Cond, imm: int, rd: Reg)
    | Lduh(rs1: Reg, rs2: Reg, rd: Reg)
    | Ld(rs1: Reg, disp: int, rd: Reg)
    | Nop
    | Branch(cond: Cond, annul: bool, target: nat)

  datatype Flags = Flags(n: bool, z: bool, v: bool, c: bool)

  /** The half words and the words of memory, by their addresses. */
  datatype Memory = Memory(half: map<int, int>, word: map<int, int>)

  function Load(cells: map<int, int>, a: int): int {
    if a in cells then cells[a] else 0
  }

  /** Registers, condition codes, Y and memory. */
  datatype Data = Data(regs: map<Reg, int>, icc: Flags, y: int, mem: Memory)

  datatype State = State(pc: nat, npc: nat, d: Data)

  function Get(regs: map<Reg, int>, r: Reg): int {
    if r == G0 || r !in regs then 0 else regs[r]
  }

  function Set(regs: map<Reg, int>, r: Reg, v: int): map<Reg, int> {
    if r == G0 then regs else regs[r := v]
  }

  function Value(m: int, regs: map<Reg, int>, o: Operand): int
    requires m > 0
  {
    match o
    case R(reg) => Get(regs, reg)
    case Imm(value) => value % m
  }

  /** Results of the arithmetic and logic unit. The 32-bit shifts use the low five bits of the count; on V9 the
      left shift keeps the upper half, the right shifts work on the lower half. */
  function Compute(m: int, alu: Alu, a: int, b: int): int
    requires m > 0
  {
    match alu
    case ADD => (a + b) % m
    case SUB => (a - b) % m
    case AND => if a >= 0 && b >= 0 then BitAnd(a, b) else 0
    case ANDN => if a >= 0 && b >= 0 then a - BitAnd(a, b) else 0
    case OR => if a >= 0 && b >= 0 then BitOr(a, b) else 0
    case XOR => if a >= 0 && b >= 0 then BitXor(a, b) else 0
    case SLL => (a * Pow2(b % 32)) % m
    case SRL => (a % W32) / Pow2(b % 32)
    case SRA => (Signed(a) / Pow2(b % 32)) % m
    case SLLX => (a * Pow2(b % 64)) % m
    case SMUL => (Signed(a) * Signed(b)) % m
  }

  /** The codes after a subtraction, from the lower 32 bits. */
  function SubFlags(a: int, b: int): Flags {
    var r := Signed(a) - Signed(b);
    Flags(Signed(a - b) < 0, (a - b) % W32 == 0, r < -HALF32 || r >= HALF32, a % W32 < b % W32)
  }

  function AddFlags(a: int, b: int): Flags {
    var r := Signed(a) + Signed(b);
    Flags(Signed(a + b) < 0, (a + b) % W32 == 0, r < -HALF32 || r >= HALF32, a % W32 + b % W32 >= W32)
  }

  predicate Holds(cond: Cond, f: Flags) {
    match cond
    case Always => true
    case Equal => f.z
    case NotEqual => !f.z
    case Less => f.n != f.v
    case Greater => !(f.z || f.n != f.v)
    case GreaterUnsigned => !(f.c || f.z)
    case OverflowSet => f.v
  }

  /** C's division of signed numbers: truncation toward zero. */
  function TruncDiv(a: int, b: int): int
    requires b != 0
  {
    if (a < 0) == (b < 0) then AbsInt(a) / AbsInt(b) else -(AbsInt(a) / AbsInt(b))
  }

  function AbsInt(a: int): nat {
    if a < 0 then -a else a
  }

  /** sdivcc divides the 64 bits Y:rs1 by a 32-bit number. A quotient that does not fit is replaced by the
      nearest number that does, and V is set. */
  function Quotient(y: int, a: int, b: int): int
    requires Signed(b) != 0
  {
    TruncDiv(Signed(y) * W32 + a % W32, Signed(b))
  }

  function Clamp(q: int): int {
    if q >= HALF32 then HALF32 - 1 else if q < -HALF32 then -HALF32 else q
  }

  /** What an instruction other than a branch does. Division by zero traps; the model leaves the state. */
  function Exec(m: int, i: Instr, d: Data): Data
    requires m > 0
  {
    match i
    case Op(alu, rs1, op2, rd) =>
      d.(regs := Set(d.regs, rd, Compute(m, alu, Get(d.regs, rs1), Value(m, d.regs, op2))))
    case AddCC(rs1, op2, rd) =>
      var a, b := Get(d.regs, rs1), Value(m, d.regs, op2);
      d.(regs := Set(d.regs, rd, (a + b) % m), icc := AddFlags(a, b))
    case SubCC(rs1, op2, rd) =>
      var a, b := Get(d.regs, rs1), Value(m, d.regs, op2);
      d.(regs := Set(d.regs, rd, (a - b) % m), icc := SubFlags(a, b))
    case Sethi(imm, rd) => d.(regs := Set(d.regs, rd, imm % W32 / 1024 * 1024))
    case Wry(rs1) => d.(y := Get(d.regs, rs1) % W32)
    case SdivCC(rs1, op2, rd) =>
      var b := Value(m, d.regs, op2);
      if Signed(b) == 0 then d else
      var q := Quotient(d.y, Get(d.regs, rs1), b);
      var r := Clamp(q) % m;
      d.(regs := Set(d.regs, rd, r), icc := Flags(Clamp(q) < 0, Clamp(q) == 0, q != Clamp(q), false))
    case MovCC(cond, imm, rd) =>
      if Holds(cond, d.icc) then d.(regs := Set(d.regs, rd, imm % m)) else d
    case Lduh(rs1, rs2, rd) =>
      d.(regs := Set(d.regs, rd, Load(d.mem.half, (Get(d.regs, rs1) + Get(d.regs, rs2)) % m)))
    case Ld(rs1, disp, rd) =>
      d.(regs := Set(d.regs, rd, Load(d.mem.word, (Get(d.regs, rs1) + disp) % m)))
    case Nop => d
    case Branch(_, _, _) => d
  }

  /** One step. The instruction after a branch is in its delay slot: it is executed before the branch takes effect,
      except that the annul bit skips it when a conditional branch is not taken, and when a branch always is. */
  function Step(m: int, code: seq<Instr>, s: State): State
    requires m > 0 && s.pc < |code|
  {
    var i := code[s.pc];
    if i.Branch? then
      if Holds(i.cond, s.d.icc) then
        if i.cond == Always && i.annul then State(i.target, i.target + 1, s.d)
        else State(s.npc, i.target, s.d)
      else if i.annul then State(s.npc + 1, s.npc + 2, s.d)
      else State(s.npc, s.npc + 1, s.d)
    else State(s.npc, s.npc + 1, Exec(m, i, s.d))
  }

  /** The machine reaches the state r from s. */
  ghost predicate Reaches(m: int, code: seq<Instr>, s: State, r: State, n: nat)
    requires m > 0
    decreases n
  {
    if n == 0 then r == s else s.pc < |code| && Reaches(m, code, Step(m, code, s), r, n - 1)
  }

  /** At instruction i, with no branch pending. */
  function At(i: nat, d: Data): State {
    State(i, i + 1, d)
  }

  ghost predicate Leads(m: int, code: seq<Instr>, a: State, b: State)
    requires m > 0
  {
    exists n :: Reaches(m, code, a, b, n)
  }

  /** Run from its first instruction with data d, the code ends just behind its last one with data r. */
  ghost predicate Ends(m: int, code: seq<Instr>, d: Data, r: Data)
    requires m > 0
  {
    Leads(m, code, At(0, d), At(|code|, r))
  }

  lemma {:induction false} ReachesTrans(m: int, code: seq<Instr>, a: State, b: State, c: State, j: nat, k: nat)
    requires m > 0 && Reaches(m, code, a, b, j) && Reaches(m, code, b, c, k)
    ensures Reaches(m, code, a, c, j + k)
    decreases j
  {
    if j > 0 {
      ReachesTrans(m, code, Step(m, code, a), b, c, j - 1, k);
    }
  }

  /** The machine is deterministic, so the end of a run is unique. */
  lemma {:induction false} EndsUnique(m: int, code: seq<Instr>, a: State, r: State, r': State, j: nat, k: nat)
    requires m > 0 && Reaches(m, code, a, r, j) && Reaches(m, code, a, r', k)
    requires r.pc >= |code| && r'.pc >= |code|
    ensures r == r' && j == k
    decreases j
  {
    if j > 0 && k > 0 {
      EndsUnique(m, code, Step(m, code, a), r, r', j - 1, k - 1);
    }
  }

  // --------------------------------------------------------------------------
  // Following a run

  lemma LeadsStart(m: int, code: seq<Instr>, a: State)
    requires m > 0
    ensures Leads(m, code, a, a)
  {
    assert Reaches(m, code, a, a, 0);
  }

  lemma LeadsTrans(m: int, code: seq<Instr>, a: State, b: State, c: State)
    requires m > 0 && Leads(m, code, a, b) && Leads(m, code, b, c)
    ensures Leads(m, code, a, c)
  {
    var j :| Reaches(m, code, a, b, j);
    var k :| Reaches(m, code, b, c, k);
    ReachesTrans(m, code, a, b, c, j, k);
  }

  lemma LeadsStep(m: int, code: seq<Instr>, a: State, b: State)
    requires m > 0 && Leads(m, code, a, b) && b.pc < |code|
    ensures Leads(m, code, a, Step(m, code, b))
  {
    var c := Step(m, code, b);
    assert Reaches(m, code, c, c, 0);
    assert Reaches(m, code, b, c, 1);
    LeadsTrans(m, code, a, b, c);
  }

  /** An instruction that is not a branch. */
  lemma Follow(m: int, code: seq<Instr>, a: State, i: nat, d: Data, d': Data)
    requires m > 0 && Leads(m, code, a, At(i, d)) && i < |code| && !code[i].Branch?
    requires Exec(m, code[i], d) == d'
    ensures Leads(m, code, a, At(i + 1, d'))
  {
    LeadsStep(m, code, a, At(i, d));
  }

  /** An arithmetic or logic instruction with the result v. */
  lemma FollowOp(m: int, code: seq<Instr>, a: State, i: nat, d: Data, v: int) returns (r: Data)
    requires m > 0 && Leads(m, code, a, At(i, d)) && i < |code| && code[i].Op? && code[i].rd != G0
    requires Compute(m, code[i].alu, Get(d.regs, code[i].rs1), Value(m, d.regs, code[i].op2)) == v
    ensures r == d.(regs := d.regs[code[i].rd := v]) && Leads(m, code, a, At(i + 1, r))
  {
    r := Exec(m, code[i], d);
    Follow(m, code, a, i, d, r);
  }

  /** A branch that is taken, with the instruction in its delay slot. */
  lemma FollowTaken(m: int, code: seq<Instr>, a: State, i: nat, d: Data, d': Data)
    requires m > 0 && Leads(m, code, a, At(i, d)) && i + 1 < |code| && code[i].Branch? && !code[i + 1].Branch?
    requires Holds(code[i].cond, d.icc) && !(code[i].cond == Always && code[i].annul)
    requires Exec(m, code[i + 1], d) == d'
    ensures Leads(m, code, a, At(code[i].target, d'))
  {
    LeadsStep(m, code, a, At(i, d));
    LeadsStep(m, code, a, State(i + 1, code[i].target, d));
  }

  /** A branch that is not taken, with the instruction in its delay slot unless that is annulled. */
  lemma FollowNotTaken(m: int, code: seq<Instr>, a: State, i: nat, d: Data, d': Data)
    requires m > 0 && Leads(m, code, a, At(i, d)) && i + 1 < |code| && code[i].Branch? && !code[i + 1].Branch?
    requires !Holds(code[i].cond, d.icc)
    requires d' == if code[i].annul then d else Exec(m, code[i + 1], d)
    ensures Leads(m, code, a, At(i + 2, d'))
  {
    LeadsStep(m, code, a, At(i, d));
    if !code[i].annul {
      LeadsStep(m, code, a, State(i + 1, i + 2, d));
    }
  }

  /** The register an instruction writes; g0 if none. */
  function Dest(i: Instr): Reg {
    match i
    case Op(_, _, _, rd) => rd
    case AddCC(_, _, rd) => rd
    case SubCC(_, _, rd) => rd
    case Sethi(_, rd) => rd
    case SdivCC(_, _, rd) => rd
    case MovCC(_, _, rd) => rd
    case Lduh(_, _, rd) => rd
    case Ld(_, _, rd) => rd
    case _ => G0
  }

  ghost predicate WritesOnly(code: seq<Instr>, regs: set<Reg>)
  {
    forall i :: 0 <= i < |code| ==> Dest(code[i]) == G0 || Dest(code[i]) in regs
  }

  /** The same memory, and the same registers outside the given ones. */
  ghost predicate SameOutside(d: Data, r: Data, regs: set<Reg>)
  {
    r.mem == d.mem && forall x :: x !in regs ==> Get(r.regs, x) == Get(d.regs, x)
  }

  lemma ExecFrame(m: int, i: Instr, d: Data, regs: set<Reg>)
    requires m > 0 && (Dest(i) == G0 || Dest(i) in regs)
    ensures SameOutside(d, Exec(m, i, d), regs)
  {
  }

  lemma {:induction false} ReachesFrame(m: int, code: seq<Instr>, a: State, b: State, n: nat, regs: set<Reg>)
    requires m > 0 && WritesOnly(code, regs) && Reaches(m, code, a, b, n)
    ensures SameOutside(a.d, b.d, regs)
    decreases n
  {
    if n > 0 {
      ExecFrame(m, code[a.pc], a.d, regs);
      ReachesFrame(m, code, Step(m, code, a), b, n - 1, regs);
    }
  }

  /** A run changes no register but those its code names as destinations. */
  lemma EndsFrame(m: int, code: seq<Instr>, d: Data, r: Data, regs: set<Reg>)
    requires m > 0 && WritesOnly(code, regs) && Ends(m, code, d, r)
    ensures SameOutside(d, r, regs)
  {
    var n :| Reaches(m, code, At(0, d), At(|code|, r), n);
    ReachesFrame(m, code, At(0, d), At(|code|, r), n, regs);
  }

  /** What the conditions mean after a comparison of two words. */
  lemma Comparison(a: int, b: int)
    requires 0 <= a < W32 && 0 <= b < W32
    ensures Holds(Equal, SubFlags(a, b)) <==> a == b
    ensures Holds(Less, SubFlags(a, b)) <==> Signed(a) < Signed(b)
    ensures Holds(Greater, SubFlags(a, b)) <==> Signed(a) > Signed(b)
    ensures Holds(GreaterUnsigned, SubFlags(a, b)) <==> a > b
  {
  }

  // --------------------------------------------------------------------------
  // Bits and powers of two

  lemma {:induction false} AndMask(x: nat, k: nat)
    ensures BitAnd(x, Pow2(k) - 1) == x % Pow2(k)
  {
    if k == 0 {
      assert x % 1 == 0;
    } else {
      AndMask(x / 2, k - 1);
      AndOdd(x, Pow2(k - 1) - 1);
      HalveMod(x, Pow2(k - 1));
    }
  }

  lemma AndOdd(x: nat, m: nat)
    ensures BitAnd(x, 2 * m + 1) == x % 2 + 2 * BitAnd(x / 2, m)
  {
    assert (2 * m + 1) / 2 == m && (2 * m + 1) % 2 == 1;
  }

  lemma HalveMod(x: nat, p: int)
    requires p > 0
    ensures x % (2 * p) == x % 2 + 2 * (x / 2 % p)
  {
    var q := x / 2 / p;
    var r := x % 2 + 2 * (x / 2 % p);
    assert x / 2 == p * q + x / 2 % p;
    assert 2 * (p * q) == (2 * p) * q;
    ModUnique(x, 2 * p, q, r);
  }

  function AndBit(a: nat, b: nat): nat {
    if a % 2 == 1 && b % 2 == 1 then 1 else 0
  }

  function OrBit(a: nat, b: nat): nat {
    if a % 2 == 1 || b % 2 == 1 then 1 else 0
  }

  lemma BitTimes(x: nat, y: nat)
    requires x < 2 && y < 2
    ensures x * y == if x == 0 || y == 0 then 0 else 1
  {
    if x == 1 {
      assert x * y == y;
    }
  }

  lemma AndUnfold(a: nat, b: nat)
    ensures BitAnd(a, b) == AndBit(a, b) + 2 * BitAnd(a / 2, b / 2)
  {
    BitTimes(a % 2, b % 2);
    if a == 0 || b == 0 {
      assert BitAnd(a / 2, b / 2) == 0;
    }
  }

  lemma OrUnfold(a: nat, b: nat)
    ensures BitOr(a, b) == OrBit(a, b) + 2 * BitOr(a / 2, b / 2)
  {
  }

  /** A number shifted to the left, one bit at a time. */
  function Times(k: nat, x: nat): nat {
    if k == 0 then x else 2 * Times(k - 1, x)
  }

  lemma {:induction false} TimesValue(k: nat, x: nat)
    ensures Times(k, x) == Pow2(k) * x
  {
    if k > 0 {
      TimesValue(k - 1, x);
      assert 2 * (Pow2(k - 1) * x) == 2 * Pow2(k - 1) * x;
    }
  }

  lemma AndDigit(a: nat, b: nat, x: nat, y: nat, z: nat)
    requires BitAnd(a / 2 + x, b / 2 + y) == BitAnd(a / 2, b / 2) + z
    ensures BitAnd(a + 2 * x, b + 2 * y) == BitAnd(a, b) + 2 * z
  {
    AndUnfold(a + 2 * x, b + 2 * y);
    AndUnfold(a, b);
    assert (a + 2 * x) / 2 == a / 2 + x && (b + 2 * y) / 2 == b / 2 + y;
  }

  lemma TimesMod(k: nat, x: nat)
    ensures Times(k, x) % Pow2(k) == 0
  {
    TimesValue(k, x);
    MultipleMod(Pow2(k), x);
  }

  /** And goes digit by digit. */
  lemma {:induction false} AndParts(a: nat, b: nat, x: nat, y: nat, k: nat)
    requires a < Pow2(k) && b < Pow2(k)
    ensures BitAnd(a + Times(k, x), b + Times(k, y)) == BitAnd(a, b) + Times(k, BitAnd(x, y))
    decreases k
  {
    if k > 0 {
      AndParts(a / 2, b / 2, x, y, k - 1);
      AndDigit(a, b, Times(k - 1, x), Times(k - 1, y), Times(k - 1, BitAnd(x, y)));
    }
  }

  lemma OrDigit(a: nat, b: nat, x: nat, y: nat, z: nat)
    requires BitOr(a / 2 + x, b / 2 + y) == BitOr(a / 2, b / 2) + z
    ensures BitOr(a + 2 * x, b + 2 * y) == BitOr(a, b) + 2 * z
  {
    OrUnfold(a + 2 * x, b + 2 * y);
    OrUnfold(a, b);
    assert (a + 2 * x) / 2 == a / 2 + x && (b + 2 * y) / 2 == b / 2 + y;
  }

  /** So does or. */
  lemma {:induction false} OrParts(a: nat, b: nat, x: nat, y: nat, k: nat)
    requires a < Pow2(k) && b < Pow2(k)
    ensures BitOr(a + Times(k, x), b + Times(k, y)) == BitOr(a, b) + Times(k, BitOr(x, y))
    decreases k
  {
    if k > 0 {
      OrParts(a / 2, b / 2, x, y, k - 1);
      OrDigit(a, b, Times(k - 1, x), Times(k - 1, y), Times(k - 1, BitOr(x, y)));
    }
  }

  /** Numbers without a common bit position: or is addition. */
  lemma {:induction false} OrDisjoint(a: nat, b: nat, k: nat)
    requires a % Pow2(k) == 0 && b < Pow2(k)
    ensures BitOr(a, b) == a + b
  {
    if k > 0 && a > 0 && b > 0 {
      var p := Pow2(k - 1);
      HalveMod(a, p);
      OrDisjoint(a / 2, b / 2, k - 1);
    }
  }

  lemma {:induction false} OrCommutes(a: nat, b: nat)
    ensures BitOr(a, b) == BitOr(b, a)
  {
    if a > 0 && b > 0 {
      OrCommutes(a / 2, b / 2);
    }
  }

  /** Low bits of one number only are kept by exclusive or. */
  lemma {:induction false} XorLow(x: nat, y: nat, l: nat, k: nat)
    requires x % Pow2(k) == 0 && y % Pow2(k) == 0 && l < Pow2(k)
    ensures BitXor(x, y + l) == BitXor(x, y) + l
  {
    if k > 0 && x > 0 {
      var p := Pow2(k - 1);
      HalveMod(x, p);
      HalveMod(y, p);
      XorLow(x / 2, y / 2, l / 2, k - 1);
      assert (y + l) / 2 == y / 2 + l / 2 && (y + l) % 2 == l % 2;
    }
  }

  /** Exclusive or with ones is the complement. */
  lemma {:induction false} XorOnes(x: nat, ones: nat, k: nat)
    requires ones + 1 == Pow2(k) && x <= ones
    ensures BitXor(x, ones) == ones - x
    decreases k
  {
    if k > 0 {
      var half := Pow2(k - 1) - 1;
      assert ones == 2 * half + 1;
      XorOnes(x / 2, half, k - 1);
      XorOnesStep(x, half);
    }
  }

  lemma XorOnesStep(x: nat, m: nat)
    requires BitXor(x / 2, m) == m - x / 2
    ensures BitXor(x, 2 * m + 1) == 2 * m + 1 - x
  {
    XorOdd(x, m);
    assert x == x % 2 + 2 * (x / 2);
  }

  lemma XorOdd(x: nat, m: nat)
    ensures BitXor(x, 2 * m + 1) == 1 - x % 2 + 2 * BitXor(x / 2, m)
  {
    assert (2 * m + 1) / 2 == m && (2 * m + 1) % 2 == 1;
  }

  lemma {:induction false} Pow2Add(a: nat, b: nat)
    ensures Pow2(a + b) == Pow2(a) * Pow2(b)
  {
    if a > 0 {
      Pow2Add(a - 1, b);
      assert Pow2(a + b) == 2 * Pow2(a - 1 + b);
      MulAssoc(2, Pow2(a - 1), Pow2(b));
    }
  }

  lemma Pow2Values()
    ensures Pow2(5) == 32 && Pow2(6) == 64 && Pow2(16) == 65536 && Pow2(31) == HALF32
    ensures Pow2(32) == W32 && Pow2(64) == W64
  {
    assert Pow2(5) == 32;
    assert Pow2(6) == 64;
    assert Pow2(8) == 256;
    Pow2Add(8, 8);
    Pow2Add(16, 16);
    Pow2Add(32, 32);
    assert Pow2(32) == 2 * Pow2(31);
  }
}
