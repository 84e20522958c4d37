/**
  The two-word long shifts and the long compare of the macro assembler: the code they emit, run on
  the SPARC machine with 32-bit words, computes the 64-bit operations of the bytecode interpreter.
 */
module LongOps {
  import opened Words
  import opened SparcMachine
  import opened Widths
  import opened ShiftArithmetic

  /** The long held by two registers. */
  function Join(hi: int, lo: int): int {
    hi * W32 + lo
  }

  function Signed64(x: int): int {
    if x < HALF32 * W32 then x else x - W64
  }

  // --------------------------------------------------------------------------
  // The bytecode interpreter's operations, on 64-bit words

  function VMlongShl(x: int, count: int): int {
    (x * Pow2(count % 64)) % W64
  }

  function VMlongUshr(x: int, count: int): int {
    x / Pow2(count % 64)
  }

  function VMlongShr(x: int, count: int): int {
    (Signed64(x) / Pow2(count % 64)) % W64
  }

  function VMlongCompare(x: int, y: int): int {
    if Signed64(x) < Signed64(y) then -1 else if Signed64(x) > Signed64(y) then 1 else 0
  }

  // --------------------------------------------------------------------------
  // The emitted code

  /** The registers of a shift: the operand, the count, the result and a scratch register. */
  datatype Shift = Shift(inHi: Reg, inLo: Reg, count: Reg, outHi: Reg, outLo: Reg, temp: Reg)

  /** Takes the count modulo 64 and branches to index 11 if it is 32 or more. */
  function Prologue(s: Shift): seq<Instr> {
    [ Op(AND, s.count, Imm(0x3f), s.count),
      SubCC(s.count, Imm(31), s.temp),
      Branch(Greater, true, 11),
      Op(SUB, s.temp, Imm(1), s.temp),
      Op(SUB, G0, R(s.temp), s.temp) ]
  }

  function LshlCode(s: Shift): seq<Instr> {
    var low := Op(SLL, s.inLo, R(s.count), s.outLo);
    var high := Op(SLL, s.inHi, R(s.count), s.outHi);
    Prologue(s) +
    [ Op(SRL, s.inLo, R(s.temp), s.temp) ] +
    (if s.count != s.outLo then [low, high] else [high, low]) +
    [ Op(SRL, s.temp, Imm(1), s.temp),
      Branch(Always, false, 13),
      Op(OR, s.outHi, R(s.temp), s.outHi),
      Op(SLL, s.inLo, R(s.temp), s.outHi),
      Op(OR, G0, R(G0), s.outLo) ]
  }

  datatype Kind = Arithmetic | Logical

  /** lshr and lushr. */
  function LshrCode(kind: Kind, s: Shift): seq<Instr> {
    var alu := if kind == Arithmetic then SRA else SRL;
    var low := Op(SRL, s.inLo, R(s.count), s.outLo);
    var middle := [ Op(SLL, s.inHi, R(s.temp), s.temp),
                    Op(alu, s.inHi, R(s.count), s.outHi),
                    Op(SLL, s.temp, Imm(1), s.temp) ];
    Prologue(s) +
    (if s.count != s.outLo then [low] + middle else middle + [low]) +
    [ Branch(Always, false, 13),
      Op(OR, s.outLo, R(s.temp), s.outLo),
      Op(alu, s.inHi, R(s.temp), s.outLo),
      if kind == Arithmetic then Op(SRA, s.inHi, Imm(31), s.outHi) else Op(OR, G0, R(G0), s.outHi) ]
  }

  /** The aliasings under which the shifts work: results may replace operands or the count. */
  predicate ShiftRegs(s: Shift) {
    && G0 !in {s.count, s.outHi, s.outLo, s.temp}
    && s.count !in {s.inHi, s.inLo}
    && s.temp !in {s.inHi, s.inLo, s.count, s.outHi, s.outLo}
    && s.outHi != s.outLo && s.outLo != s.inHi
    && (s.count == s.outLo ==> s.outHi != s.inLo)
  }

  ghost predicate Operands(s: Shift, d: Data, hi: int, lo: int)
  {
    IsWord(hi) && IsWord(lo) && Get(d.regs, s.inHi) == hi && Get(d.regs, s.inLo) == lo
  }

  lemma CountMod64(count: int)
    requires IsWord(count)
    ensures BitAnd(count, 63) == count % 64
  {
    Pow2Values();
    AndMask(count, 6);
  }

  /** The code begins with the prologue. */
  ghost predicate HasPrologue(s: Shift, code: seq<Instr>)
  {
    && |code| == 13
    && code[0] == Op(AND, s.count, Imm(0x3f), s.count)
    && code[1] == SubCC(s.count, Imm(31), s.temp)
    && code[2] == Branch(Greater, true, 11)
    && code[3] == Op(SUB, s.temp, Imm(1), s.temp)
    && code[4] == Op(SUB, G0, R(s.temp), s.temp)
  }

  predicate PrologueRegs(s: Shift) {
    s.count != G0 && s.temp != G0 && s.temp != s.count
  }

  lemma PrologueHead(s: Shift, code: seq<Instr>, d: Data, count: int) returns (r: Data)
    requires PrologueRegs(s) && HasPrologue(s, code) && IsWord(count) && Get(d.regs, s.count) == count
    ensures var c := count % 64;
            && r.regs == d.regs[s.count := c][s.temp := (c - 31) % W32]
            && (Holds(Greater, r.icc) <==> c > 31)
            && Leads(W32, code, At(0, d), At(2, r))
  {
    var c := count % 64;
    CountMod64(count);
    Comparison(c, 31);
    LeadsStart(W32, code, At(0, d));
    var d1 := d.(regs := d.regs[s.count := c]);
    Follow(W32, code, At(0, d), 0, d, d1);
    r := d1.(regs := d1.regs[s.temp := (c - 31) % W32], icc := SubFlags(c, 31));
    Follow(W32, code, At(0, d), 1, d1, r);
  }

  /** A count below 32: the scratch register ends with 31 - count. */
  lemma PrologueSmall(s: Shift, code: seq<Instr>, d: Data, count: int) returns (r: Data)
    requires PrologueRegs(s) && HasPrologue(s, code) && IsWord(count) && Get(d.regs, s.count) == count
    requires count % 64 < 32
    ensures r.regs == d.regs[s.count := count % 64][s.temp := 31 - count % 64]
    ensures Leads(W32, code, At(0, d), At(5, r))
  {
    var d2 := PrologueHead(s, code, d, count);
    FollowNotTaken(W32, code, At(0, d), 2, d2, d2);
    NegateSmall(count % 64);
    r := d2.(regs := d2.regs[s.temp := 31 - count % 64]);
    Follow(W32, code, At(0, d), 4, d2, r);
    assert r.regs == d.regs[s.count := count % 64][s.temp := 31 - count % 64];
  }

  lemma NegateSmall(c: int)
    requires 0 <= c < 32
    ensures (0 - (c - 31) % W32) % W32 == 31 - c
  {
  }

  /** A count of 32 or more: the scratch register ends with count - 32. */
  lemma PrologueBig(s: Shift, code: seq<Instr>, d: Data, count: int) returns (r: Data)
    requires PrologueRegs(s) && HasPrologue(s, code) && IsWord(count) && Get(d.regs, s.count) == count
    requires count % 64 >= 32
    ensures r.regs == d.regs[s.count := count % 64][s.temp := count % 64 - 32]
    ensures Leads(W32, code, At(0, d), At(11, r))
  {
    var d2 := PrologueHead(s, code, d, count);
    r := d2.(regs := d2.regs[s.temp := count % 64 - 32]);
    FollowTaken(W32, code, At(0, d), 2, d2, r);
    assert r.regs == d.regs[s.count := count % 64][s.temp := count % 64 - 32];
  }

  // --------------------------------------------------------------------------
  // lshl

  ghost predicate IsLshl(s: Shift, code: seq<Instr>)
  {
    && HasPrologue(s, code)
    && code[5] == Op(SRL, s.inLo, R(s.temp), s.temp)
    && (if s.count != s.outLo then
          code[6] == Op(SLL, s.inLo, R(s.count), s.outLo) && code[7] == Op(SLL, s.inHi, R(s.count), s.outHi)
        else
          code[6] == Op(SLL, s.inHi, R(s.count), s.outHi) && code[7] == Op(SLL, s.inLo, R(s.count), s.outLo))
    && code[8] == Op(SRL, s.temp, Imm(1), s.temp)
    && code[9] == Branch(Always, false, 13)
    && code[10] == Op(OR, s.outHi, R(s.temp), s.outHi)
    && code[11] == Op(SLL, s.inLo, R(s.temp), s.outHi)
    && code[12] == Op(OR, G0, R(G0), s.outLo)
  }

  lemma LshlLayout(s: Shift)
    ensures IsLshl(s, LshlCode(s))
  {
  }

  /** The three shifts of the short path. */
  lemma LshlShifts(s: Shift, code: seq<Instr>, a: State, d: Data, hi: int, lo: int, c: int) returns (r: Data)
    requires ShiftRegs(s) && IsLshl(s, code) && Operands(s, d, hi, lo) && 0 <= c < 32
    requires Get(d.regs, s.count) == c && Get(d.regs, s.temp) == 31 - c && Leads(W32, code, a, At(5, d))
    ensures Get(r.regs, s.outLo) == Compute(W32, SLL, lo, c) && Get(r.regs, s.outHi) == Compute(W32, SLL, hi, c)
    ensures Get(r.regs, s.temp) == Compute(W32, SRL, lo, 31 - c)
    ensures Leads(W32, code, a, At(8, r))
  {
    var d1 := d.(regs := d.regs[s.temp := Compute(W32, SRL, lo, 31 - c)]);
    Follow(W32, code, a, 5, d, d1);
    var low, high := Compute(W32, SLL, lo, c), Compute(W32, SLL, hi, c);
    if s.count != s.outLo {
      var d2 := d1.(regs := d1.regs[s.outLo := low]);
      Follow(W32, code, a, 6, d1, d2);
      r := d2.(regs := d2.regs[s.outHi := high]);
      Follow(W32, code, a, 7, d2, r);
    } else {
      var d2 := d1.(regs := d1.regs[s.outHi := high]);
      Follow(W32, code, a, 6, d1, d2);
      r := d2.(regs := d2.regs[s.outLo := low]);
      Follow(W32, code, a, 7, d2, r);
    }
  }

  /** The end of the short path: the bits carried over are or-ed into the upper half. */
  lemma LshlMerge(s: Shift, code: seq<Instr>, a: State, d: Data, high: int, low: int, xfer: int) returns (r: Data)
    requires ShiftRegs(s) && IsLshl(s, code) && Leads(W32, code, a, At(8, d)) && high >= 0 && 0 <= xfer < W32
    requires Get(d.regs, s.outLo) == low && Get(d.regs, s.outHi) == high && Get(d.regs, s.temp) == xfer
    ensures Get(r.regs, s.outLo) == low && Get(r.regs, s.outHi) == BitOr(high, xfer / 2)
    ensures Leads(W32, code, a, At(13, r))
  {
    ShiftByOne(xfer);
    var d1 := d.(regs := d.regs[s.temp := xfer / 2]);
    Follow(W32, code, a, 8, d, d1);
    r := d1.(regs := d1.regs[s.outHi := BitOr(high, xfer / 2)]);
    FollowTaken(W32, code, a, 9, d1, r);
  }

  lemma ShiftByOne(x: int)
    requires 0 <= x < W32
    ensures Compute(W32, SRL, x, 1) == x / 2 && Compute(W32, SLL, x, 1) == (x * 2) % W32
  {
    assert Pow2(1) == 2;
  }

  lemma LshlLong(s: Shift, code: seq<Instr>, a: State, d: Data, hi: int, lo: int, e: int) returns (r: Data)
    requires ShiftRegs(s) && IsLshl(s, code) && Operands(s, d, hi, lo) && 0 <= e < 32
    requires Get(d.regs, s.temp) == e && Leads(W32, code, a, At(11, d))
    ensures Get(r.regs, s.outLo) == 0 && Get(r.regs, s.outHi) == Compute(W32, SLL, lo, e)
    ensures Leads(W32, code, a, At(13, r))
  {
    var d1 := d.(regs := d.regs[s.outHi := Compute(W32, SLL, lo, e)]);
    Follow(W32, code, a, 11, d, d1);
    r := d1.(regs := d1.regs[s.outLo := 0]);
    Follow(W32, code, a, 12, d1, r);
  }

  /** The powers of two behind a shift by c: 2^c and 2^(32-c) multiply to the word size. */
  lemma ShiftPowers(c: int)
    requires 0 <= c < 32
    ensures W32 == Pow2(c) * Pow2(32 - c) && Pow2(32 - c) == Pow2(31 - c) * 2 && c % 32 == c && (31 - c) % 32 == 31 - c
  {
    Pow2Values();
    Pow2Add(c, 32 - c);
  }

  lemma SllValue(x: int, c: int)
    requires 0 <= c < 32
    ensures Compute(W32, SLL, x, c) == (x * Pow2(c)) % W32
  {
    assert c % 32 == c;
  }

  lemma SrlValue(x: int, c: int)
    requires IsWord(x) && 0 <= c < 32
    ensures Compute(W32, SRL, x, c) == x / Pow2(c) && 0 <= x / Pow2(c) <= x
  {
    assert c % 32 == c && x % W32 == x;
    QuotientBelow(x, Pow2(c));
  }

  lemma SraValue(x: int, c: int)
    requires 0 <= c < 32
    ensures Compute(W32, SRA, x, c) == (Signed(x) / Pow2(c)) % W32
  {
    assert c % 32 == c;
  }

  lemma ShlShortSum(hi: int, lo: int, c: int)
    requires IsWord(hi) && IsWord(lo) && 0 <= c < 32
    ensures var high, xfer := (hi * Pow2(c)) % W32, lo / Pow2(31 - c);
            && high >= 0 && xfer >= 0
            && Join(BitOr(high, xfer / 2), (lo * Pow2(c)) % W32) == (Join(hi, lo) * Pow2(c)) % W64
  {
    ShiftPowers(c);
    QuotientBelow(lo, Pow2(31 - c));
    LeftShort(hi, lo, Pow2(c), Pow2(32 - c), Pow2(31 - c), W32);
    OrDisjoint((hi * Pow2(c)) % W32, lo / Pow2(31 - c) / 2, c);
  }

  lemma ShlShortValue(hi: int, lo: int, c: int)
    requires IsWord(hi) && IsWord(lo) && 0 <= c < 32
    ensures var high, low := Compute(W32, SLL, hi, c), Compute(W32, SLL, lo, c);
            var xfer := Compute(W32, SRL, lo, 31 - c);
            && high >= 0 && 0 <= xfer < W32
            && Join(BitOr(high, xfer / 2), low) == (Join(hi, lo) * Pow2(c)) % W64
  {
    SllValue(hi, c);
    SllValue(lo, c);
    SrlValue(lo, 31 - c);
    ShlShortSum(hi, lo, c);
  }

  lemma ShlLongValue(hi: int, lo: int, c: int)
    requires IsWord(hi) && IsWord(lo) && 32 <= c < 64
    ensures Join(Compute(W32, SLL, lo, c - 32), 0) == (Join(hi, lo) * Pow2(c)) % W64
  {
    SllValue(lo, c - 32);
    Pow2Values();
    Pow2Add(c - 32, 32);
    LeftLong(hi, lo, Pow2(c - 32), W32);
  }

  function Written(s: Shift): set<Reg> {
    {s.count, s.temp, s.outHi, s.outLo}
  }

  lemma ShiftsWrite(s: Shift)
    ensures WritesOnly(LshlCode(s), Written(s))
    ensures forall kind :: WritesOnly(LshrCode(kind, s), Written(s))
  {
  }

  lemma LshlOnWords(s: Shift, d: Data, hi: int, lo: int, count: int) returns (r: Data)
    requires ShiftRegs(s) && Operands(s, d, hi, lo) && IsWord(count) && Get(d.regs, s.count) == count
    ensures Ends(W32, LshlCode(s), d, r)
    ensures Join(Get(r.regs, s.outHi), Get(r.regs, s.outLo)) == VMlongShl(Join(hi, lo), count)
  {
    var code, c := LshlCode(s), count % 64;
    LshlLayout(s);
    if c < 32 {
      var d1 := PrologueSmall(s, code, d, count);
      var d2 := LshlShifts(s, code, At(0, d), d1, hi, lo, c);
      ShlShortValue(hi, lo, c);
      r := LshlMerge(s, code, At(0, d), d2, Compute(W32, SLL, hi, c), Compute(W32, SLL, lo, c),
                     Compute(W32, SRL, lo, 31 - c));
    } else {
      var d1 := PrologueBig(s, code, d, count);
      r := LshlLong(s, code, At(0, d), d1, hi, lo, c - 32);
      ShlLongValue(hi, lo, c);
    }
  }

  // --------------------------------------------------------------------------
  // lshr and lushr

  function RightAlu(kind: Kind): Alu {
    if kind == Arithmetic then SRA else SRL
  }

  ghost predicate IsLshr(kind: Kind, s: Shift, code: seq<Instr>)
  {
    && HasPrologue(s, code)
    && (if s.count != s.outLo then
          && code[5] == Op(SRL, s.inLo, R(s.count), s.outLo)
          && code[6] == Op(SLL, s.inHi, R(s.temp), s.temp)
          && code[7] == Op(RightAlu(kind), s.inHi, R(s.count), s.outHi)
          && code[8] == Op(SLL, s.temp, Imm(1), s.temp)
        else
          && code[5] == Op(SLL, s.inHi, R(s.temp), s.temp)
          && code[6] == Op(RightAlu(kind), s.inHi, R(s.count), s.outHi)
          && code[7] == Op(SLL, s.temp, Imm(1), s.temp)
          && code[8] == Op(SRL, s.inLo, R(s.count), s.outLo))
    && code[9] == Branch(Always, false, 13)
    && code[10] == Op(OR, s.outLo, R(s.temp), s.outLo)
    && code[11] == Op(RightAlu(kind), s.inHi, R(s.temp), s.outLo)
    && code[12] == (if kind == Arithmetic then Op(SRA, s.inHi, Imm(31), s.outHi) else Op(OR, G0, R(G0), s.outHi))
  }

  lemma LshrLayout(kind: Kind, s: Shift)
    ensures IsLshr(kind, s, LshrCode(kind, s))
  {
  }

  /** The upper half after a right shift by c. */
  function ShiftedRight(kind: Kind, hi: int, c: int): int {
    Compute(W32, RightAlu(kind), hi, c)
  }

  /** The shifts of the short path when the count is not overwritten by the lower half. */
  lemma LshrShifts(kind: Kind, s: Shift, code: seq<Instr>, a: State, d: Data, hi: int, lo: int, c: int)
    returns (r: Data)
    requires ShiftRegs(s) && IsLshr(kind, s, code) && Operands(s, d, hi, lo) && 0 <= c < 32 && s.count != s.outLo
    requires Get(d.regs, s.count) == c && Get(d.regs, s.temp) == 31 - c && Leads(W32, code, a, At(5, d))
    ensures Get(r.regs, s.outLo) == Compute(W32, SRL, lo, c) && Get(r.regs, s.outHi) == ShiftedRight(kind, hi, c)
    ensures Get(r.regs, s.temp) == Compute(W32, SLL, Compute(W32, SLL, hi, 31 - c), 1)
    ensures Leads(W32, code, a, At(9, r))
  {
    var x := Compute(W32, SLL, hi, 31 - c);
    var d1 := d.(regs := d.regs[s.outLo := Compute(W32, SRL, lo, c)]);
    Follow(W32, code, a, 5, d, d1);
    var d2 := d1.(regs := d1.regs[s.temp := x]);
    Follow(W32, code, a, 6, d1, d2);
    var d3 := d2.(regs := d2.regs[s.outHi := ShiftedRight(kind, hi, c)]);
    Follow(W32, code, a, 7, d2, d3);
    r := d3.(regs := d3.regs[s.temp := Compute(W32, SLL, x, 1)]);
    Follow(W32, code, a, 8, d3, r);
  }

  /** The shifts of the short path when the lower half replaces the count. */
  lemma LshrShiftsInPlace(kind: Kind, s: Shift, code: seq<Instr>, a: State, d: Data, hi: int, lo: int, c: int)
    returns (r: Data)
    requires ShiftRegs(s) && IsLshr(kind, s, code) && Operands(s, d, hi, lo) && 0 <= c < 32 && s.count == s.outLo
    requires Get(d.regs, s.count) == c && Get(d.regs, s.temp) == 31 - c && Leads(W32, code, a, At(5, d))
    ensures Get(r.regs, s.outLo) == Compute(W32, SRL, lo, c) && Get(r.regs, s.outHi) == ShiftedRight(kind, hi, c)
    ensures Get(r.regs, s.temp) == Compute(W32, SLL, Compute(W32, SLL, hi, 31 - c), 1)
    ensures Leads(W32, code, a, At(9, r))
  {
    var x := Compute(W32, SLL, hi, 31 - c);
    var d1 := d.(regs := d.regs[s.temp := x]);
    Follow(W32, code, a, 5, d, d1);
    var d2 := d1.(regs := d1.regs[s.outHi := ShiftedRight(kind, hi, c)]);
    Follow(W32, code, a, 6, d1, d2);
    var d3 := d2.(regs := d2.regs[s.temp := Compute(W32, SLL, x, 1)]);
    Follow(W32, code, a, 7, d2, d3);
    r := d3.(regs := d3.regs[s.outLo := Compute(W32, SRL, lo, c)]);
    Follow(W32, code, a, 8, d3, r);
  }

  lemma LshrMerge(kind: Kind, s: Shift, code: seq<Instr>, a: State, d: Data, low: int, xfer: int) returns (r: Data)
    requires ShiftRegs(s) && IsLshr(kind, s, code) && Leads(W32, code, a, At(9, d)) && low >= 0 && xfer >= 0
    requires Get(d.regs, s.outLo) == low && Get(d.regs, s.temp) == xfer
    ensures Get(r.regs, s.outLo) == BitOr(low, xfer) && Get(r.regs, s.outHi) == Get(d.regs, s.outHi)
    ensures Leads(W32, code, a, At(13, r))
  {
    r := d.(regs := d.regs[s.outLo := BitOr(low, xfer)]);
    FollowTaken(W32, code, a, 9, d, r);
  }

  lemma LshrLong(kind: Kind, s: Shift, code: seq<Instr>, a: State, d: Data, hi: int, lo: int, e: int)
    returns (r: Data)
    requires ShiftRegs(s) && IsLshr(kind, s, code) && Operands(s, d, hi, lo) && 0 <= e < 32
    requires Get(d.regs, s.temp) == e && Leads(W32, code, a, At(11, d))
    ensures Get(r.regs, s.outLo) == ShiftedRight(kind, hi, e)
    ensures Get(r.regs, s.outHi) == if kind == Arithmetic then Compute(W32, SRA, hi, 31) else 0
    ensures Leads(W32, code, a, At(13, r))
  {
    var d1 := d.(regs := d.regs[s.outLo := ShiftedRight(kind, hi, e)]);
    Follow(W32, code, a, 11, d, d1);
    r := d1.(regs := d1.regs[s.outHi := if kind == Arithmetic then Compute(W32, SRA, hi, 31) else 0]);
    Follow(W32, code, a, 12, d1, r);
  }

  /** The upper digit of the number being shifted, as the kind of shift reads it. */
  function UpperDigit(kind: Kind, hi: int): int {
    if kind == Arithmetic then Signed(hi) else hi
  }

  /** The 64-bit right shift by c. */
  function Shifted64(kind: Kind, hi: int, lo: int, c: nat): int {
    ((UpperDigit(kind, hi) * W32 + lo) / Pow2(c)) % W64
  }

  lemma ShrShortCore(n: int, hi: int, lo: int, a: int, b: int, p: int, k: nat)
    requires a > 0 && p > 0 && b == p * 2 && W32 == a * b && b == Pow2(k)
    requires IsWord(lo) && (hi == n || hi == n + W32)
    ensures var low, xfer := lo / a, (hi * p) % W32 * 2 % W32;
            low >= 0 && xfer >= 0 && Join((n / a) % W32, BitOr(low, xfer)) == ((n * W32 + lo) / a) % W64
  {
    RightShort(n, hi, lo, a, b, p, W32);
    var low, xfer := lo / a, (hi * p) % W32 * 2 % W32;
    OrDisjoint(xfer, low, k);
    OrCommutes(xfer, low);
    PairMod(n / a, xfer + low, W32);
  }

  lemma ShrShortSum(kind: Kind, hi: int, lo: int, c: int)
    requires IsWord(hi) && IsWord(lo) && 0 <= c < 32
    ensures var low, xfer := lo / Pow2(c), (hi * Pow2(31 - c)) % W32 * 2 % W32;
            && low >= 0 && xfer >= 0
            && Join((UpperDigit(kind, hi) / Pow2(c)) % W32, BitOr(low, xfer)) == Shifted64(kind, hi, lo, c)
  {
    ShiftPowers(c);
    ShrShortCore(UpperDigit(kind, hi), hi, lo, Pow2(c), Pow2(32 - c), Pow2(31 - c), 32 - c);
  }

  lemma ShiftedRightValue(kind: Kind, hi: int, c: int)
    requires IsWord(hi) && 0 <= c < 32
    ensures ShiftedRight(kind, hi, c) == (UpperDigit(kind, hi) / Pow2(c)) % W32
  {
    match kind
    case Arithmetic => SraValue(hi, c);
    case Logical => LogicalRight(hi, c);
  }

  lemma LogicalRight(x: int, c: int)
    requires IsWord(x) && 0 <= c < 32
    ensures Compute(W32, SRL, x, c) == (x / Pow2(c)) % W32
  {
    SrlValue(x, c);
    SmallWord(x / Pow2(c));
  }

  lemma SmallWord(q: int)
    requires IsWord(q)
    ensures q % W32 == q
  {
  }

  lemma ShrShortValue(kind: Kind, hi: int, lo: int, c: int)
    requires IsWord(hi) && IsWord(lo) && 0 <= c < 32
    ensures var low, xfer := Compute(W32, SRL, lo, c), Compute(W32, SLL, Compute(W32, SLL, hi, 31 - c), 1);
            && low >= 0 && xfer >= 0
            && Join(ShiftedRight(kind, hi, c), BitOr(low, xfer)) == Shifted64(kind, hi, lo, c)
  {
    ShiftedRightValue(kind, hi, c);
    SrlValue(lo, c);
    SllValue(hi, 31 - c);
    ShiftByOne((hi * Pow2(31 - c)) % W32);
    ShrShortSum(kind, hi, lo, c);
  }

  /** The word of sign bits. */
  lemma SignBits(hi: int)
    requires IsWord(hi)
    ensures Compute(W32, SRA, hi, 31) == if Signed(hi) < 0 then W32 - 1 else 0
  {
    SraValue(hi, 31);
    Pow2Values();
  }

  lemma ShrLongCore(n: int, lo: int, a: int)
    requires a > 0 && IsWord(lo) && -HALF32 <= n < W32
    ensures a * W32 > 0
    ensures ((n * W32 + lo) / (a * W32)) % W64 == (if n < 0 then W32 - 1 else 0) * W32 + (n / a) % W32
  {
    RightLong(n, lo, a, W32);
    if n >= 0 {
      QuotientBelow(n, a);
    } else {
      QuotientAbove(n, a);
    }
    SignWord(n / a, n);
  }

  lemma ShrLongValue(kind: Kind, hi: int, lo: int, c: int)
    requires IsWord(hi) && IsWord(lo) && 32 <= c < 64
    ensures Join(if kind == Arithmetic then Compute(W32, SRA, hi, 31) else 0, ShiftedRight(kind, hi, c - 32))
         == Shifted64(kind, hi, lo, c)
  {
    Pow2Values();
    Pow2Add(c - 32, 32);
    ShiftedRightValue(kind, hi, c - 32);
    SignBits(hi);
    ShrLongCore(UpperDigit(kind, hi), lo, Pow2(c - 32));
  }

  /** A number of word size as a pair: its sign, then itself. */
  lemma SignWord(q: int, n: int)
    requires -HALF32 <= n < W32 && (n >= 0 ==> 0 <= q <= n) && (n < 0 ==> n <= q < 0)
    ensures q % W64 == (if n < 0 then W32 - 1 else 0) * W32 + q % W32
  {
  }

  lemma Signed64OfPair(hi: int, lo: int)
    requires IsWord(hi) && IsWord(lo)
    ensures Signed64(Join(hi, lo)) == Signed(hi) * W32 + lo
  {
  }

  lemma LshrShortRuns(kind: Kind, s: Shift, code: seq<Instr>, d: Data, hi: int, lo: int, count: int) returns (r: Data)
    requires ShiftRegs(s) && Operands(s, d, hi, lo) && IsWord(count) && Get(d.regs, s.count) == count
    requires IsLshr(kind, s, code) && count % 64 < 32
    ensures Leads(W32, code, At(0, d), At(13, r))
    ensures Join(Get(r.regs, s.outHi), Get(r.regs, s.outLo)) == Shifted64(kind, hi, lo, count % 64)
  {
    var c := count % 64;
    var d1 := PrologueSmall(s, code, d, count);
    var d2;
    if s.count != s.outLo {
      d2 := LshrShifts(kind, s, code, At(0, d), d1, hi, lo, c);
    } else {
      d2 := LshrShiftsInPlace(kind, s, code, At(0, d), d1, hi, lo, c);
    }
    ShrShortValue(kind, hi, lo, c);
    r := LshrMerge(kind, s, code, At(0, d), d2, Compute(W32, SRL, lo, c),
                   Compute(W32, SLL, Compute(W32, SLL, hi, 31 - c), 1));
  }

  /** lshr and lushr compute the 64-bit right shift by the count modulo 64, in place or not. */
  lemma LshrRuns(kind: Kind, s: Shift, d: Data, hi: int, lo: int, count: int) returns (r: Data)
    requires ShiftRegs(s) && Operands(s, d, hi, lo) && IsWord(count) && Get(d.regs, s.count) == count
    ensures Ends(W32, LshrCode(kind, s), d, r)
    ensures Join(Get(r.regs, s.outHi), Get(r.regs, s.outLo)) == Shifted64(kind, hi, lo, count % 64)
  {
    var code, c := LshrCode(kind, s), count % 64;
    LshrLayout(kind, s);
    if c < 32 {
      r := LshrShortRuns(kind, s, code, d, hi, lo, count);
    } else {
      var d1 := PrologueBig(s, code, d, count);
      r := LshrLong(kind, s, code, At(0, d), d1, hi, lo, c - 32);
      ShrLongValue(kind, hi, lo, c);
    }
  }

  lemma LshrOnWords(s: Shift, d: Data, hi: int, lo: int, count: int) returns (r: Data)
    requires ShiftRegs(s) && Operands(s, d, hi, lo) && IsWord(count) && Get(d.regs, s.count) == count
    ensures Ends(W32, LshrCode(Arithmetic, s), d, r)
    ensures Join(Get(r.regs, s.outHi), Get(r.regs, s.outLo)) == VMlongShr(Join(hi, lo), count)
  {
    r := LshrRuns(Arithmetic, s, d, hi, lo, count);
    Signed64OfPair(hi, lo);
  }

  lemma LushrOnWords(s: Shift, d: Data, hi: int, lo: int, count: int) returns (r: Data)
    requires ShiftRegs(s) && Operands(s, d, hi, lo) && IsWord(count) && Get(d.regs, s.count) == count
    ensures Ends(W32, LshrCode(Logical, s), d, r)
    ensures Join(Get(r.regs, s.outHi), Get(r.regs, s.outLo)) == VMlongUshr(Join(hi, lo), count)
  {
    r := LshrRuns(Logical, s, d, hi, lo, count);
    QuotientBelow(Join(hi, lo), Pow2(count % 64));
  }

  // --------------------------------------------------------------------------
  // The shifts on registers of either width

  /** The long in the lower halves of two registers. */
  function LowJoin(d: Data, hi: Reg, lo: Reg): int {
    Join(LowGet(d, hi), LowGet(d, lo))
  }

  lemma ShiftsNarrow(s: Shift)
    ensures Narrow(LshlCode(s)) && forall kind :: Narrow(LshrCode(kind, s))
  {
  }

  /** lshl computes the 64-bit left shift by the count modulo 64, in place or not. */
  lemma LshlCorrect(m: int, s: Shift, d: Data) returns (r: Data)
    requires Width(m) && ShiftRegs(s) && InRange(m, d)
    ensures Ends(m, LshlCode(s), d, r) && SameOutside(d, r, Written(s))
    ensures LowJoin(r, s.outHi, s.outLo) == VMlongShl(LowJoin(d, s.inHi, s.inLo), LowGet(d, s.count))
  {
    var low := LshlOnWords(s, Low(d), LowGet(d, s.inHi), LowGet(d, s.inLo), LowGet(d, s.count));
    ShiftsNarrow(s);
    r := EndsFromLow(m, LshlCode(s), d, low);
    ShiftsWrite(s);
    EndsFrame(m, LshlCode(s), d, r, Written(s));
  }

  /** lshr computes the arithmetic right shift. */
  lemma LshrCorrect(m: int, s: Shift, d: Data) returns (r: Data)
    requires Width(m) && ShiftRegs(s) && InRange(m, d)
    ensures Ends(m, LshrCode(Arithmetic, s), d, r) && SameOutside(d, r, Written(s))
    ensures LowJoin(r, s.outHi, s.outLo) == VMlongShr(LowJoin(d, s.inHi, s.inLo), LowGet(d, s.count))
  {
    var low := LshrOnWords(s, Low(d), LowGet(d, s.inHi), LowGet(d, s.inLo), LowGet(d, s.count));
    ShiftsNarrow(s);
    r := EndsFromLow(m, LshrCode(Arithmetic, s), d, low);
    ShiftsWrite(s);
    EndsFrame(m, LshrCode(Arithmetic, s), d, r, Written(s));
  }

  /** lushr computes the logical right shift. */
  lemma LushrCorrect(m: int, s: Shift, d: Data) returns (r: Data)
    requires Width(m) && ShiftRegs(s) && InRange(m, d)
    ensures Ends(m, LshrCode(Logical, s), d, r) && SameOutside(d, r, Written(s))
    ensures LowJoin(r, s.outHi, s.outLo) == VMlongUshr(LowJoin(d, s.inHi, s.inLo), LowGet(d, s.count))
  {
    var low := LushrOnWords(s, Low(d), LowGet(d, s.inHi), LowGet(d, s.inLo), LowGet(d, s.count));
    ShiftsNarrow(s);
    r := EndsFromLow(m, LshrCode(Logical, s), d, low);
    ShiftsWrite(s);
    EndsFrame(m, LshrCode(Logical, s), d, r, Written(s));
  }

  // --------------------------------------------------------------------------
  // Exactly which aliasings work, among those the register checks of the source let through

  /** What lshl asserts of its registers. */
  predicate LshlChecks(s: Shift) {
    s.temp !in {s.inHi, s.inLo, s.count, s.outLo} && s.outLo != s.inHi
  }

  /** What lshr and lushr assert of their registers. */
  predicate LshrChecks(s: Shift) {
    s.temp !in {s.inHi, s.inLo, s.count, s.outHi} && s.outHi != s.inLo
  }

  /** Registers that hold values, the operand in two of them. */
  predicate RealRegs(s: Shift) {
    G0 !in {s.inHi, s.inLo, s.count, s.outHi, s.outLo, s.temp} && s.inHi != s.inLo
  }

  /** Run with data d, the code ends with this long in the result registers. */
  ghost predicate Gives(m: int, s: Shift, code: seq<Instr>, d: Data, x: int)
    requires m > 0
  {
    exists r :: Ends(m, code, d, r) && LowJoin(r, s.outHi, s.outLo) == x
  }

  function Shl(s: Shift, d: Data): int {
    VMlongShl(LowJoin(d, s.inHi, s.inLo), LowGet(d, s.count))
  }

  function Right(kind: Kind, s: Shift, d: Data): int {
    var x, count := LowJoin(d, s.inHi, s.inLo), LowGet(d, s.count);
    if kind == Arithmetic then VMlongShr(x, count) else VMlongUshr(x, count)
  }

  /** For all operands and counts the code of lshl gives the interpreter's result. */
  ghost predicate LshlWorks(m: int, s: Shift)
    requires m > 0
  {
    forall d :: InRange(m, d) ==> Gives(m, s, LshlCode(s), d, Shl(s, d))
  }

  /** The same for lshr and lushr. */
  ghost predicate LshrWorks(m: int, kind: Kind, s: Shift)
    requires m > 0
  {
    forall d :: InRange(m, d) ==> Gives(m, s, LshrCode(kind, s), d, Right(kind, s, d))
  }

  /** Code ends in one state only, so a wrong result on words is wrong on either width. */
  lemma GivesNot(m: int, s: Shift, code: seq<Instr>, d: Data, low: Data, x: int)
    requires Width(m) && Narrow(code) && InRange(W32, d) && Ends(W32, code, d, low)
    requires Join(Get(low.regs, s.outHi), Get(low.regs, s.outLo)) != x
    ensures InRange(m, d) && !Gives(m, s, code, d, x)
  {
    LowOfWords(d);
    var r := EndsFromLow(m, code, d, low);
    if r' :| Ends(m, code, d, r') && LowJoin(r', s.outHi, s.outLo) == x {
      var j :| Reaches(m, code, At(0, d), At(|code|, r), j);
      var k :| Reaches(m, code, At(0, d), At(|code|, r'), k);
      EndsUnique(m, code, At(0, d), At(|code|, r), At(|code|, r'), j, k);
    }
  }

  /** Data with these values in the operand and the count; where the count is an operand, the count's. */
  function Holding(s: Shift, hi: int, lo: int, count: int): Data {
    Data(map[s.inHi := hi, s.inLo := lo, s.count := count], Flags(false, false, false, false), 0, Memory(map[], map[]))
  }

  // ---- the count is half of the operand

  /** After the prologue: operand and count are zero. */
  ghost predicate AllZero(s: Shift, d: Data)
  {
    Get(d.regs, s.inHi) == 0 && Get(d.regs, s.inLo) == 0 && Get(d.regs, s.count) == 0
  }

  lemma ZeroShifts()
    ensures forall alu, c :: alu in {SLL, SRL, SRA} && 0 <= c ==> Compute(W32, alu, 0, c) == 0
  {
    forall c | 0 <= c ensures 0 / Pow2(c % 32) == 0 && 0 * Pow2(c % 32) == 0 {
    }
  }

  /** A shift of zero keeps this. */
  lemma FollowZero(s: Shift, code: seq<Instr>, a: State, i: nat, d: Data) returns (r: Data)
    requires AllZero(s, d) && Leads(W32, code, a, At(i, d)) && i < |code| && code[i].Op? && code[i].rd != G0
    requires code[i].alu in {SLL, SRL, SRA} && Get(d.regs, code[i].rs1) == 0 && Value(W32, d.regs, code[i].op2) >= 0
    ensures r == d.(regs := d.regs[code[i].rd := 0]) && AllZero(s, r) && Leads(W32, code, a, At(i + 1, r))
  {
    ZeroShifts();
    r := FollowOp(W32, code, a, i, d, 0);
  }

  lemma LshlOfZero(s: Shift, code: seq<Instr>, a: State, d: Data) returns (r: Data)
    requires RealRegs(s) && LshlChecks(s) && IsLshl(s, code) && AllZero(s, d)
    requires Get(d.regs, s.temp) == 31 && Leads(W32, code, a, At(5, d))
    ensures Get(r.regs, s.outHi) == 0 && Get(r.regs, s.outLo) == 0 && Leads(W32, code, a, At(13, r))
  {
    var d1 := FollowZero(s, code, a, 5, d);
    var d2 := FollowZero(s, code, a, 6, d1);
    var d3 := FollowZero(s, code, a, 7, d2);
    var d4 := FollowZero(s, code, a, 8, d3);
    r := d4.(regs := d4.regs[s.outHi := 0]);
    FollowTaken(W32, code, a, 9, d4, r);
  }

  lemma LshrOfZero(kind: Kind, s: Shift, code: seq<Instr>, a: State, d: Data) returns (r: Data)
    requires RealRegs(s) && LshrChecks(s) && IsLshr(kind, s, code) && AllZero(s, d)
    requires Get(d.regs, s.temp) == 31 && Leads(W32, code, a, At(5, d))
    ensures Get(r.regs, s.outHi) == 0 && Get(r.regs, s.outLo) == 0 && Leads(W32, code, a, At(13, r))
  {
    var d1 := FollowZero(s, code, a, 5, d);
    var d2 := FollowZero(s, code, a, 6, d1);
    var d3 := FollowZero(s, code, a, 7, d2);
    var d4 := FollowZero(s, code, a, 8, d3);
    r := d4.(regs := d4.regs[s.outLo := 0]);
    FollowTaken(W32, code, a, 9, d4, r);
  }

  /** Both halves and a count of 64, or 0: taking the count modulo 64 clears the operand's half it shares. */
  function CountClash(s: Shift): Data {
    Holding(s, 0, 0, 64)
  }

  lemma CountClashResult(s: Shift)
    requires RealRegs(s) && s.count in {s.inHi, s.inLo}
    ensures var d := CountClash(s);
            InRange(W32, d) && Get(d.regs, s.count) == 64 && Shl(s, d) != 0 && forall kind :: Right(kind, s, d) != 0
  {
    assert Pow2(0) == 1;
  }

  /** The count modulo 64 replaces the count, so a half of the operand in its register is lost. */
  lemma LshlCountClash(m: int, s: Shift)
    requires Width(m) && RealRegs(s) && LshlChecks(s) && s.count in {s.inHi, s.inLo}
    ensures !LshlWorks(m, s)
  {
    var d, code := CountClash(s), LshlCode(s);
    CountClashResult(s);
    LshlLayout(s);
    var d1 := PrologueSmall(s, code, d, 64);
    var r := LshlOfZero(s, code, At(0, d), d1);
    ShiftsNarrow(s);
    GivesNot(m, s, code, d, r, Shl(s, d));
  }

  lemma LshrCountClash(m: int, kind: Kind, s: Shift)
    requires Width(m) && RealRegs(s) && LshrChecks(s) && s.count in {s.inHi, s.inLo}
    ensures !LshrWorks(m, kind, s)
  {
    var d, code := CountClash(s), LshrCode(kind, s);
    CountClashResult(s);
    LshrLayout(kind, s);
    var d1 := PrologueSmall(s, code, d, 64);
    var r := LshrOfZero(kind, s, code, At(0, d), d1);
    ShiftsNarrow(s);
    GivesNot(m, s, code, d, r, Right(kind, s, d));
  }

  // ---- one register for both halves of the result

  lemma OneResultRegister(m: int, s: Shift, code: seq<Instr>, d: Data)
    requires m > 0 && s.outHi == s.outLo
    ensures !Gives(m, s, code, d, 1)
  {
    if r :| Ends(m, code, d, r) && LowJoin(r, s.outHi, s.outLo) == 1 {
      EqualHalves(LowGet(r, s.outHi));
    }
  }

  lemma EqualHalves(x: int)
    ensures Join(x, x) != 1
  {
  }

  /** The operand 1 with a count of zero. */
  lemma OneByZero(s: Shift)
    requires RealRegs(s) && s.count !in {s.inHi, s.inLo}
    ensures var d := Holding(s, 0, 1, 0); InRange(W32, d) && Shl(s, d) == 1 && forall kind :: Right(kind, s, d) == 1
  {
    assert Pow2(0) == 1;
  }

  // ---- lshl: the scratch register is the upper result

  lemma ScratchGapShifts(s: Shift, code: seq<Instr>, a: State, d: Data) returns (r: Data)
    requires RealRegs(s) && LshlChecks(s) && s.temp == s.outHi && s.count !in {s.inHi, s.inLo} && IsLshl(s, code)
    requires Operands(s, d, 0, HALF32) && Get(d.regs, s.count) == 1 && Get(d.regs, s.temp) == 30
    requires Leads(W32, code, a, At(5, d))
    ensures Get(r.regs, s.outHi) == 0 && Get(r.regs, s.outLo) == 0 && Leads(W32, code, a, At(8, r))
  {
    ScratchGapValues();
    var d1 := FollowOp(W32, code, a, 5, d, 2);
    var d2 := FollowOp(W32, code, a, 6, d1, 0);
    r := FollowOp(W32, code, a, 7, d2, 0);
  }

  lemma ScratchGapValues()
    ensures Compute(W32, SRL, HALF32, 30) == 2 && Compute(W32, SLL, HALF32, 1) == 0
    ensures Compute(W32, SLL, 0, 1) == 0 && Compute(W32, SRL, 0, 1) == 0
    ensures VMlongShl(Join(0, HALF32), 1) == W32
  {
    Pow2Values();
    assert Pow2(31) == 2 * Pow2(30) && Pow2(1) == 2;
  }

  /** The bits carried over are always lost: shifting 2^31 by one gives zero. */
  lemma LshlScratchGap(s: Shift, d: Data) returns (r: Data)
    requires RealRegs(s) && LshlChecks(s) && s.temp == s.outHi && s.count !in {s.inHi, s.inLo}
    requires Operands(s, d, 0, HALF32) && Get(d.regs, s.count) == 1
    ensures Ends(W32, LshlCode(s), d, r)
    ensures Join(Get(r.regs, s.outHi), Get(r.regs, s.outLo)) == 0 && VMlongShl(Join(0, HALF32), 1) == W32
  {
    var code, a := LshlCode(s), At(0, d);
    LshlLayout(s);
    var d1 := PrologueSmall(s, code, d, 1);
    var d2 := ScratchGapShifts(s, code, a, d1);
    ScratchGapValues();
    var d3 := FollowOp(W32, code, a, 8, d2, 0);
    r := d3.(regs := d3.regs[s.outHi := 0]);
    FollowTaken(W32, code, a, 9, d3, r);
  }

  lemma LshlScratchClash(m: int, s: Shift)
    requires Width(m) && RealRegs(s) && LshlChecks(s) && s.temp == s.outHi && s.count !in {s.inHi, s.inLo}
    ensures !LshlWorks(m, s)
  {
    var d := Holding(s, 0, HALF32, 1);
    var r := LshlScratchGap(s, d);
    ShiftsNarrow(s);
    GivesNot(m, s, LshlCode(s), d, r, Shl(s, d));
  }

  // ---- lshl: the count is the lower result and the upper result is the lower operand

  /** The upper half is then shifted first, over the lower operand: shifting 1 by zero gives zero. */
  lemma LshlOrderGap(s: Shift, d: Data) returns (r: Data)
    requires RealRegs(s) && LshlChecks(s) && s.count !in {s.inHi, s.inLo} && s.temp != s.outHi
    requires s.count == s.outLo && s.outHi == s.inLo
    requires Operands(s, d, 0, 1) && Get(d.regs, s.count) == 0
    ensures Ends(W32, LshlCode(s), d, r) && Join(Get(r.regs, s.outHi), Get(r.regs, s.outLo)) == 0
  {
    var code, a := LshlCode(s), At(0, d);
    LshlLayout(s);
    var d1 := PrologueSmall(s, code, d, 0);
    OneShifts();
    ZeroShifts();
    var d2 := FollowOp(W32, code, a, 5, d1, 0);
    var d3 := FollowOp(W32, code, a, 6, d2, 0);
    var d4 := FollowOp(W32, code, a, 7, d3, 0);
    var d5 := FollowOp(W32, code, a, 8, d4, 0);
    r := d5.(regs := d5.regs[s.outHi := 0]);
    FollowTaken(W32, code, a, 9, d5, r);
  }

  lemma LshlOrderClash(m: int, s: Shift)
    requires Width(m) && RealRegs(s) && LshlChecks(s) && s.count !in {s.inHi, s.inLo} && s.temp != s.outHi
    requires s.count == s.outLo && s.outHi == s.inLo
    ensures !LshlWorks(m, s)
  {
    var d := Holding(s, 0, 1, 0);
    var r := LshlOrderGap(s, d);
    OneByZero(s);
    ShiftsNarrow(s);
    GivesNot(m, s, LshlCode(s), d, r, 1);
  }

  lemma OneShifts()
    ensures Compute(W32, SRL, 0, 0) == 0 && Compute(W32, SLL, 1, 0) == 1 && Compute(W32, SLL, 1, 1) == 2
    ensures Compute(W32, SRL, 1, 0) == 1 && Compute(W32, SRA, 1, 0) == 1 && Compute(W32, SRL, 1, 31) == 0
  {
    assert Pow2(0) == 1 && Pow2(1) == 2;
    Pow2Values();
  }

  // ---- lshr and lushr: the lower result is the upper operand

  lemma OverlapGapShifts(kind: Kind, s: Shift, code: seq<Instr>, a: State, d: Data) returns (r: Data)
    requires RealRegs(s) && s.count !in {s.inHi, s.inLo} && s.temp !in {s.inHi, s.inLo, s.count, s.outHi, s.outLo}
    requires s.outLo == s.inHi && IsLshr(kind, s, code)
    requires Operands(s, d, 1, 0) && Get(d.regs, s.count) == 0 && Get(d.regs, s.temp) == 31
    requires Leads(W32, code, a, At(5, d))
    ensures Get(r.regs, s.outHi) == 0 && Get(r.regs, s.outLo) == 0 && Get(r.regs, s.temp) == 0
    ensures Leads(W32, code, a, At(9, r))
  {
    ZeroShifts();
    var d1 := FollowOp(W32, code, a, 5, d, 0);
    var d2 := FollowOp(W32, code, a, 6, d1, 0);
    var d3 := FollowOp(W32, code, a, 7, d2, 0);
    r := FollowOp(W32, code, a, 8, d3, 0);
  }

  /** The checks ask that the upper result is not the lower operand, but the code needs that the lower result is
      not the upper operand: shifting 2^32 by zero then gives zero. */
  lemma LshrOverlapGap(kind: Kind, s: Shift, d: Data) returns (r: Data)
    requires RealRegs(s) && LshrChecks(s) && s.count !in {s.inHi, s.inLo} && s.temp != s.outLo && s.outLo == s.inHi
    requires Operands(s, d, 1, 0) && Get(d.regs, s.count) == 0
    ensures Ends(W32, LshrCode(kind, s), d, r)
    ensures Join(Get(r.regs, s.outHi), Get(r.regs, s.outLo)) == 0
    ensures VMlongShr(Join(1, 0), 0) == VMlongUshr(Join(1, 0), 0) == W32
  {
    var code, a := LshrCode(kind, s), At(0, d);
    LshrLayout(kind, s);
    var d1 := PrologueSmall(s, code, d, 0);
    var d2 := OverlapGapShifts(kind, s, code, a, d1);
    r := d2.(regs := d2.regs[s.outLo := 0]);
    FollowTaken(W32, code, a, 9, d2, r);
  }

  lemma UpperOperand(s: Shift)
    requires RealRegs(s) && s.count !in {s.inHi, s.inLo}
    ensures var d := Holding(s, 1, 0, 0); InRange(W32, d) && forall kind :: Right(kind, s, d) == W32
  {
    assert Pow2(0) == 1;
  }

  lemma LshrOverlapClash(m: int, kind: Kind, s: Shift)
    requires Width(m) && RealRegs(s) && LshrChecks(s) && s.count !in {s.inHi, s.inLo}
    requires s.temp != s.outLo && s.outLo == s.inHi
    ensures !LshrWorks(m, kind, s)
  {
    var d := Holding(s, 1, 0, 0);
    var r := LshrOverlapGap(kind, s, d);
    UpperOperand(s);
    ShiftsNarrow(s);
    GivesNot(m, s, LshrCode(kind, s), d, r, W32);
  }

  // ---- lshr and lushr: the scratch register is the lower result

  lemma ScratchClashShifts(kind: Kind, s: Shift, code: seq<Instr>, a: State, d: Data) returns (r: Data)
    requires RealRegs(s) && LshrChecks(s) && s.temp == s.outLo && s.count !in {s.inHi, s.inLo} && IsLshr(kind, s, code)
    requires Operands(s, d, 1, 0) && Get(d.regs, s.count) == 0 && Leads(W32, code, a, At(5, d))
    ensures Get(r.regs, s.outLo) == 2 && Leads(W32, code, a, At(9, r))
  {
    OneShifts();
    var d1 := FollowOp(W32, code, a, 5, d, 0);
    var d2 := FollowOp(W32, code, a, 6, d1, 1);
    var d3 := FollowOp(W32, code, a, 7, d2, 1);
    r := FollowOp(W32, code, a, 8, d3, 2);
  }

  /** A shift by zero of 2^32 sets a bit in the lower half. */
  lemma LshrScratchGap(kind: Kind, s: Shift, d: Data) returns (r: Data)
    requires RealRegs(s) && LshrChecks(s) && s.temp == s.outLo && s.count !in {s.inHi, s.inLo}
    requires Operands(s, d, 1, 0) && Get(d.regs, s.count) == 0
    ensures Ends(W32, LshrCode(kind, s), d, r) && Get(r.regs, s.outLo) == 2
    ensures VMlongShr(Join(1, 0), 0) == VMlongUshr(Join(1, 0), 0) == W32
  {
    var code, a := LshrCode(kind, s), At(0, d);
    LshrLayout(kind, s);
    var d1 := PrologueSmall(s, code, d, 0);
    var d2 := ScratchClashShifts(kind, s, code, a, d1);
    assert BitOr(2, 2) == 2;
    r := d2.(regs := d2.regs[s.outLo := 2]);
    FollowTaken(W32, code, a, 9, d2, r);
  }

  lemma LowerHalfSet(hi: int)
    ensures Join(hi, 2) != W32
  {
  }

  lemma LshrScratchClash(m: int, kind: Kind, s: Shift)
    requires Width(m) && RealRegs(s) && LshrChecks(s) && s.temp == s.outLo && s.count !in {s.inHi, s.inLo}
    ensures !LshrWorks(m, kind, s)
  {
    var d := Holding(s, 1, 0, 0);
    var r := LshrScratchGap(kind, s, d);
    UpperOperand(s);
    LowerHalfSet(Get(r.regs, s.outHi));
    ShiftsNarrow(s);
    GivesNot(m, s, LshrCode(kind, s), d, r, W32);
  }

  // ---- the exact conditions

  /** With registers that pass its checks, lshl computes every shift if and only if they are as ShiftRegs says: the
      count is no half of the operand, the results and the scratch register differ, and no result replaces an operand
      that is still needed. */
  lemma LshlWorksIff(m: int, s: Shift)
    requires Width(m) && RealRegs(s) && LshlChecks(s)
    ensures LshlWorks(m, s) <==> ShiftRegs(s)
  {
    if ShiftRegs(s) {
      forall d | InRange(m, d) ensures Gives(m, s, LshlCode(s), d, Shl(s, d)) {
        var r := LshlCorrect(m, s, d);
      }
    } else if s.count in {s.inHi, s.inLo} {
      LshlCountClash(m, s);
    } else if s.outHi == s.outLo {
      var d := Holding(s, 0, 1, 0);
      OneByZero(s);
      OneResultRegister(m, s, LshlCode(s), d);
      assert InRange(m, d) && Shl(s, d) == 1;
    } else if s.temp == s.outHi {
      LshlScratchClash(m, s);
    } else {
      LshlOrderClash(m, s);
    }
  }

  /** The same for lshr and lushr and their checks. */
  lemma LshrWorksIff(m: int, kind: Kind, s: Shift)
    requires Width(m) && RealRegs(s) && LshrChecks(s)
    ensures LshrWorks(m, kind, s) <==> ShiftRegs(s)
  {
    if ShiftRegs(s) {
      forall d | InRange(m, d) ensures Gives(m, s, LshrCode(kind, s), d, Right(kind, s, d)) {
        if kind == Arithmetic {
          var r := LshrCorrect(m, s, d);
        } else {
          var r := LushrCorrect(m, s, d);
        }
      }
    } else if s.count in {s.inHi, s.inLo} {
      LshrCountClash(m, kind, s);
    } else if s.outHi == s.outLo {
      var d := Holding(s, 0, 1, 0);
      OneByZero(s);
      OneResultRegister(m, s, LshrCode(kind, s), d);
      assert InRange(m, d) && Right(kind, s, d) == 1;
    } else if s.temp == s.outLo {
      LshrScratchClash(m, kind, s);
    } else {
      LshrOverlapClash(m, kind, s);
    }
  }

  // --------------------------------------------------------------------------
  // lcmp

  datatype Compare = Compare(aHi: Reg, aLo: Reg, bHi: Reg, bLo: Reg, result: Reg)

  function SetWord(v: int, rd: Reg): Instr {
    Op(OR, G0, Imm(v), rd)
  }

  /** The form with conditional moves. */
  function LcmpV9Code(c: Compare): seq<Instr> {
    [ SubCC(c.aHi, R(c.bHi), G0),
      Branch(Equal, true, 6),
      SubCC(c.aLo, R(c.bLo), G0),
      SetWord(-1, c.result),
      Branch(Always, false, 9),
      MovCC(Greater, 1, c.result),
      SetWord(-1, c.result),
      MovCC(Equal, 0, c.result),
      MovCC(GreaterUnsigned, 1, c.result) ]
  }

  /** The form with annulled branches. */
  function LcmpV8Code(c: Compare): seq<Instr> {
    [ SubCC(c.aHi, R(c.bHi), G0),
      Branch(Equal, true, 7),
      SubCC(c.aLo, R(c.bLo), G0),
      Branch(Less, true, 12),
      SetWord(-1, c.result),
      Branch(Greater, true, 12),
      SetWord(1, c.result),
      SetWord(-1, c.result),
      Branch(Equal, true, 12),
      SetWord(0, c.result),
      Branch(GreaterUnsigned, true, 12),
      SetWord(1, c.result) ]
  }

  ghost predicate CompareOperands(c: Compare, d: Data, aHi: int, aLo: int, bHi: int, bLo: int)
  {
    && IsWord(aHi) && IsWord(aLo) && IsWord(bHi) && IsWord(bLo) && c.result != G0
    && Get(d.regs, c.aHi) == aHi && Get(d.regs, c.aLo) == aLo
    && Get(d.regs, c.bHi) == bHi && Get(d.regs, c.bLo) == bLo
  }

  /** Both forms first compare the upper halves, and the lower halves only if those are equal. */
  lemma LcmpHead(c: Compare, code: seq<Instr>, t: nat, d: Data, aHi: int, aLo: int, bHi: int, bLo: int)
    returns (r: Data)
    requires CompareOperands(c, d, aHi, aLo, bHi, bLo) && |code| > 3
    requires code[0] == SubCC(c.aHi, R(c.bHi), G0) && code[1] == Branch(Equal, true, t)
    requires code[2] == SubCC(c.aLo, R(c.bLo), G0)
    ensures r.regs == d.regs && r.icc == if aHi == bHi then SubFlags(aLo, bLo) else SubFlags(aHi, bHi)
    ensures Leads(W32, code, At(0, d), At(if aHi == bHi then t else 3, r))
  {
    LeadsStart(W32, code, At(0, d));
    Comparison(aHi, bHi);
    var d1 := d.(icc := SubFlags(aHi, bHi));
    Follow(W32, code, At(0, d), 0, d, d1);
    if aHi == bHi {
      r := d1.(icc := SubFlags(aLo, bLo));
      FollowTaken(W32, code, At(0, d), 1, d1, r);
    } else {
      r := d1;
      FollowNotTaken(W32, code, At(0, d), 1, d1, d1);
    }
  }

  /** The order of longs is the order of their upper halves, then of their lower halves without sign. */
  lemma CompareHalves(aHi: int, aLo: int, bHi: int, bLo: int)
    requires IsWord(aHi) && IsWord(aLo) && IsWord(bHi) && IsWord(bLo)
    ensures VMlongCompare(Join(aHi, aLo), Join(bHi, bLo)) ==
            if Signed(aHi) < Signed(bHi) then -1 else if Signed(aHi) > Signed(bHi) then 1
            else if aLo < bLo then -1 else if aLo > bLo then 1 else 0
    ensures Signed(aHi) == Signed(bHi) <==> aHi == bHi
  {
    Signed64OfPair(aHi, aLo);
    Signed64OfPair(bHi, bLo);
  }

  lemma SetWordValue(v: int)
    requires -1 <= v <= 1
    ensures Compute(W32, OR, 0, v % W32) == v % W32 && Signed(v % W32) == v
  {
  }

  lemma LcmpV9Low(c: Compare, d0: Data, d: Data, aLo: int, bLo: int) returns (r: Data)
    requires c.result != G0 && IsWord(aLo) && IsWord(bLo) && d.icc == SubFlags(aLo, bLo)
    requires Leads(W32, LcmpV9Code(c), At(0, d0), At(6, d))
    ensures Ends(W32, LcmpV9Code(c), d0, r)
    ensures Signed(Get(r.regs, c.result)) == if aLo < bLo then -1 else if aLo > bLo then 1 else 0
  {
    var code := LcmpV9Code(c);
    Comparison(aLo, bLo);
    SetWordValue(-1);
    var d1 := d.(regs := d.regs[c.result := W32 - 1]);
    Follow(W32, code, At(0, d0), 6, d, d1);
    var d2 := if aLo == bLo then d1.(regs := d1.regs[c.result := 0]) else d1;
    Follow(W32, code, At(0, d0), 7, d1, d2);
    r := if aLo > bLo then d2.(regs := d2.regs[c.result := 1]) else d2;
    Follow(W32, code, At(0, d0), 8, d2, r);
  }

  lemma LcmpV9OnWords(c: Compare, d: Data, aHi: int, aLo: int, bHi: int, bLo: int) returns (r: Data)
    requires CompareOperands(c, d, aHi, aLo, bHi, bLo)
    ensures Ends(W32, LcmpV9Code(c), d, r)
    ensures Signed(Get(r.regs, c.result)) == VMlongCompare(Join(aHi, aLo), Join(bHi, bLo))
  {
    var code := LcmpV9Code(c);
    CompareHalves(aHi, aLo, bHi, bLo);
    var d1 := LcmpHead(c, code, 6, d, aHi, aLo, bHi, bLo);
    if aHi == bHi {
      r := LcmpV9Low(c, d, d1, aLo, bLo);
    } else {
      Comparison(aHi, bHi);
      SetWordValue(-1);
      var d2 := d1.(regs := d1.regs[c.result := W32 - 1]);
      Follow(W32, code, At(0, d), 3, d1, d2);
      r := if Signed(aHi) > Signed(bHi) then d2.(regs := d2.regs[c.result := 1]) else d2;
      FollowTaken(W32, code, At(0, d), 4, d2, r);
    }
  }

  /** An annulled conditional move of the V8 form: taken, it sets the result and leaves; not taken, it does nothing. */
  lemma V8Choice(c: Compare, code: seq<Instr>, a: State, i: nat, v: int, d: Data) returns (r: Data)
    requires c.result != G0 && -1 <= v <= 1 && i + 1 < |code| && Leads(W32, code, a, At(i, d))
    requires code[i].Branch? && code[i].annul && code[i].cond != Always && code[i + 1] == SetWord(v, c.result)
    ensures r.icc == d.icc
    ensures Holds(code[i].cond, d.icc) ==>
              Leads(W32, code, a, At(code[i].target, r)) && Signed(Get(r.regs, c.result)) == v
    ensures !Holds(code[i].cond, d.icc) ==> r == d && Leads(W32, code, a, At(i + 2, r))
  {
    SetWordValue(v);
    if Holds(code[i].cond, d.icc) {
      r := d.(regs := d.regs[c.result := v % W32]);
      FollowTaken(W32, code, a, i, d, r);
    } else {
      r := d;
      FollowNotTaken(W32, code, a, i, d, d);
    }
  }

  lemma LcmpV8Low(c: Compare, d0: Data, d: Data, aLo: int, bLo: int) returns (r: Data)
    requires c.result != G0 && IsWord(aLo) && IsWord(bLo) && d.icc == SubFlags(aLo, bLo)
    requires Leads(W32, LcmpV8Code(c), At(0, d0), At(7, d))
    ensures Ends(W32, LcmpV8Code(c), d0, r)
    ensures Signed(Get(r.regs, c.result)) == if aLo < bLo then -1 else if aLo > bLo then 1 else 0
  {
    var code := LcmpV8Code(c);
    Comparison(aLo, bLo);
    SetWordValue(-1);
    var d1 := d.(regs := d.regs[c.result := W32 - 1]);
    Follow(W32, code, At(0, d0), 7, d, d1);
    r := V8Choice(c, code, At(0, d0), 8, 0, d1);
    if aLo != bLo {
      r := V8Choice(c, code, At(0, d0), 10, 1, r);
    }
  }

  /** lcmp with annulled branches compares two longs; the result may replace an operand. */
  lemma LcmpV8Correct(c: Compare, d: Data, aHi: int, aLo: int, bHi: int, bLo: int) returns (r: Data)
    requires CompareOperands(c, d, aHi, aLo, bHi, bLo)
    ensures Ends(W32, LcmpV8Code(c), d, r) && SameOutside(d, r, {c.result})
    ensures Signed(Get(r.regs, c.result)) == VMlongCompare(Join(aHi, aLo), Join(bHi, bLo))
  {
    var code := LcmpV8Code(c);
    CompareHalves(aHi, aLo, bHi, bLo);
    var d1 := LcmpHead(c, code, 7, d, aHi, aLo, bHi, bLo);
    if aHi == bHi {
      r := LcmpV8Low(c, d, d1, aLo, bLo);
    } else {
      Comparison(aHi, bHi);
      r := V8Choice(c, code, At(0, d), 3, -1, d1);
      if Signed(aHi) > Signed(bHi) {
        r := V8Choice(c, code, At(0, d), 5, 1, r);
      }
    }
    EndsFrame(W32, code, d, r, {c.result});
  }

  /** lcmp with conditional moves, on registers of either width, compares two longs; the result may replace an
      operand. */
  lemma LcmpV9Correct(m: int, c: Compare, d: Data) returns (r: Data)
    requires Width(m) && c.result != G0 && InRange(m, d)
    ensures Ends(m, LcmpV9Code(c), d, r) && SameOutside(d, r, {c.result})
    ensures Signed(Get(r.regs, c.result)) == VMlongCompare(LowJoin(d, c.aHi, c.aLo), LowJoin(d, c.bHi, c.bLo))
  {
    var code := LcmpV9Code(c);
    var low := LcmpV9OnWords(c, Low(d), LowGet(d, c.aHi), LowGet(d, c.aLo), LowGet(d, c.bHi), LowGet(d, c.bLo));
    r := EndsFromLow(m, code, d, low);
    LowSigned(Get(r.regs, c.result));
    EndsFrame(m, code, d, r, {c.result});
  }
}
