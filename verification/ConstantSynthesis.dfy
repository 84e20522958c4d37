/**
  Loading constants into registers on a 64-bit SPARC: the sethi, set and set64 sequences of the macro
  assembler, and the size predicted for the first. Constants are signed 64-bit numbers.
 */
module ConstantSynthesis {
  import opened Words
  import opened SparcMachine

  predicate IsLong(v: int) {
    -0x8000_0000_0000_0000 <= v < 0x8000_0000_0000_0000
  }

  // --------------------------------------------------------------------------
  // Parts of a constant, as the 32-bit fields of an address and their bit fields

  /** The upper half, a signed number. */
  function Hi32(v: int): int {
    v / W32
  }

  /** The pieces of a general constant: the last 10 bits of the upper half, then 12 and 10 of the lower half. */
  function UpperTen(v: int): int {
    Hi32(v) % 1024
  }

  function MiddleTwelve(v: int): int {
    Low32(v) / 0x10_0000
  }

  function LowerTen(v: int): int {
    Low32(v) / 1024 % 1024
  }

  function Cleared(v: int): int {
    (v - v % 1024) % W64
  }

  /** The size predicted for a sethi sequence, in bytes. */
  function SizeOfSethi(v: int): (size: nat)
    ensures 4 <= size <= 4 * 7
  {
    var count :=
      if Hi32(v) == 0 && Low32(v) < HALF32 then 1
      else if Hi32(v) == -1 then 2
      else GeneralLength(v);
    4 * count
  }

  function GeneralLength(v: int): (count: nat)
    ensures 2 <= count <= 7
  {
    2 + (if UpperTen(v) != 0 then 1 else 0)
      + (if Low32(v) < 1024 then 0
         else (if MiddleTwelve(v) != 0 then 2 else 0) + (if LowerTen(v) != 0 then 2 else 0))
  }

  // --------------------------------------------------------------------------
  // What the instructions do with the pieces

  lemma PowerTable()
    ensures Pow2(10) == 1024 && Pow2(12) == 4096 && Pow2(20) == 0x10_0000 && Pow2(22) == 0x40_0000
    ensures Pow2(32) == W32 && Pow2(64) == W64
  {
    assert Pow2(10) == 1024;
    Pow2Add(10, 10);
    Pow2Add(10, 12);
    assert Pow2(12) == 4 * Pow2(10);
    Pow2Values();
  }

  /** The shifts that occur, of numbers that stay below 2^64. */
  lemma ShiftedTen(x: nat)
    requires x < 0x40_0000_0000_0000
    ensures Compute(W64, SLLX, x, 10 % W64) == x * 1024
  {
    PowerTable();
  }

  lemma ShiftedTwelve(x: nat)
    requires x < 0x10_0000_0000_0000
    ensures Compute(W64, SLLX, x, 12 % W64) == x * 4096
  {
    PowerTable();
  }

  lemma ShiftedTwenty(x: nat)
    requires x < 0x1000_0000_0000
    ensures Compute(W64, SLLX, x, 20 % W64) == x * 0x10_0000
  {
    PowerTable();
  }

  lemma ShiftedTwentyTwo(x: nat)
    requires x < 0x400_0000_0000
    ensures Compute(W64, SLLX, x, 22 % W64) == x * 0x40_0000
  {
    PowerTable();
  }

  lemma ShiftedWord(x: int)
    ensures Compute(W64, SLLX, x, 32 % W64) == (x * W32) % W64
  {
    PowerTable();
  }

  /** Bits or-ed into zeros. */
  lemma OrTen(x: nat, l: int)
    requires x % 1024 == 0 && 0 <= l < 1024
    ensures Compute(W64, OR, x, l % W64) == x + l
  {
    assert Pow2(10) == 1024;
    OrDisjoint(x, l, 10);
    SmallMod(l);
  }

  lemma OrTwelve(x: nat, l: int)
    requires x % 4096 == 0 && 0 <= l < 4096
    ensures Compute(W64, OR, x, l % W64) == x + l
  {
    assert Pow2(10) == 1024;
    assert Pow2(12) == 4 * Pow2(10);
    OrDisjoint(x, l, 12);
    SmallMod(l);
  }

  lemma SmallMod(l: int)
    requires 0 <= l < W64
    ensures l % W64 == l
  {
  }

  /** Or-ing into g0 loads an immediate. */
  lemma OrNothing(l: int)
    ensures Compute(W64, OR, 0, l % W64) == l % W64
  {
  }

  lemma XorComplement(x: nat)
    requires x < W32 && x % 1024 == 0
    ensures BitXor(x, W64 - 1024) == W64 - 1024 - x
  {
    Pow2Values();
    assert Pow2(10) == 1024;
    XorOnes(x, W64 - 1, 64);
    XorLow(x, W64 - 1024, 1023, 10);
  }

  lemma XorWithLow(x: nat, l: nat)
    requires x < W32 && x % 1024 == 0 && l < 1024
    ensures BitXor(x, W64 - 1024 + l) == W64 - 1024 - x + l
  {
    assert Pow2(10) == 1024;
    XorLow(x, W64 - 1024, l, 10);
    XorComplement(x);
  }

  /** Exclusive or with an immediate whose upper bits are ones. */
  lemma XorHigh(x: int, l: int)
    requires 0 <= x < W32 && x % 1024 == 0 && 0 <= l < 1024
    ensures Compute(W64, XOR, x, (l - 1024) % W64) == W64 - 1024 - x + l
  {
    assert (l - 1024) % W64 == W64 - 1024 + l;
    XorWithLow(x, l);
  }

  /** The two arms that find no bits exclude each other. */
  lemma SomeBits(v: int)
    requires Low32(v) >= 1024
    ensures MiddleTwelve(v) != 0 || LowerTen(v) != 0
  {
  }

  function UpperWord(v: int): int {
    Hi32(v) % W32
  }

  /** The upper half and the twelve bits below it. */
  function Top(v: int): int {
    UpperWord(v) * 4096 + MiddleTwelve(v)
  }

  lemma TopBounds(v: int)
    ensures 0 <= UpperWord(v) < W32 && 0 <= MiddleTwelve(v) < 4096 && 0 <= LowerTen(v) < 1024
    ensures 0 <= Top(v) < 0x1000_0000_0000
  {
  }

  /** The pieces make up the constant. */
  lemma Assembled(v: int)
    ensures Cleared(v) == (Top(v) * 1024 + LowerTen(v)) * 1024
  {
    var hi, low := Hi32(v), Low32(v);
    LowPieces(low);
    ClearedPair(hi, low);
    WordPair(hi, low - low % 1024);
    Regrouped(hi % W32, low / 0x10_0000, low / 1024 % 1024);
  }

  lemma LowPieces(low: int)
    requires 0 <= low < W32
    ensures low - low % 1024 == (low / 0x10_0000 * 1024 + low / 1024 % 1024) * 1024
  {
  }

  lemma ClearedPair(hi: int, low: int)
    requires 0 <= low < W32
    ensures var v := hi * W32 + low; v - v % 1024 == hi * W32 + (low - low % 1024)
  {
  }

  lemma Regrouped(h: int, t: int, u: int)
    ensures h * W32 + (t * 1024 + u) * 1024 == ((h * 4096 + t) * 1024 + u) * 1024
  {
  }

  lemma WordPair(hi: int, low: int)
    requires 0 <= low < W32
    ensures (hi * W32 + low) % W64 == hi % W32 * W32 + low
  {
  }

  lemma UpperParts(v: int)
    ensures UpperWord(v) / 1024 * 1024 + UpperTen(v) == UpperWord(v) && 0 <= UpperTen(v) < 1024
    ensures UpperWord(v) / 1024 * 1024 >= 0 && (UpperWord(v) / 1024 * 1024) % 1024 == 0
  {
  }

  lemma PositiveParts(v: int)
    requires Hi32(v) == 0
    ensures Low32(v) % W32 / 1024 * 1024 == Cleared(v)
  {
  }

  lemma NegativeParts(v: int)
    requires Hi32(v) == -1
    ensures var x := (-Low32(v) - 1) % W32 / 1024 * 1024;
            0 <= x < W32 && x % 1024 == 0 && W64 - 1024 - x + 0 == Cleared(v)
  {
    var low := Low32(v);
    assert (-low - 1) % W32 == W32 - 1 - low;
  }

  lemma UpperOnly(v: int)
    requires Low32(v) < 1024
    ensures Compute(W64, SLLX, UpperWord(v), 32 % W64) == Cleared(v)
  {
    ShiftedWord(UpperWord(v));
    Assembled(v);
  }

  /** What is in the register before the last ten bits: the top, or only the upper half. */
  function BeforeTen(v: int, middleCount: nat): int {
    if middleCount == 0 then Top(v) else UpperWord(v)
  }

  /** The shift before the last ten bits: by ten, or by the twelve skipped bits as well. */
  lemma RoomForTen(v: int, middleCount: nat)
    requires middleCount == if MiddleTwelve(v) != 0 then 0 else 12
    ensures Compute(W64, SLLX, BeforeTen(v, middleCount), (middleCount + 10) % W64) == Top(v) * 1024
  {
    TopBounds(v);
    if middleCount == 0 {
      ShiftedTen(Top(v));
    } else {
      ShiftedTwentyTwo(UpperWord(v));
    }
  }

  lemma FinalShift(v: int, shiftCount: nat)
    requires shiftCount == if LowerTen(v) != 0 then 0 else 10
    ensures var x := if shiftCount == 0 then Top(v) * 1024 + LowerTen(v) else Top(v);
            Compute(W64, SLLX, x, (shiftCount + 10) % W64) == (Top(v) * 1024 + LowerTen(v)) * 1024
  {
    TopBounds(v);
    ShiftedTen(Top(v) * 1024 + LowerTen(v));
    ShiftedTwenty(Top(v));
  }

  lemma NothingCleared(v: int)
    requires Signed(Low32(v) / 1024 * 1024) == v
    ensures Cleared(v) == v % W64
  {
  }

  lemma ClearedAndRest(v: int)
    ensures v % 1024 == 0 ==> Cleared(v) == v % W64
    ensures (Cleared(v) + v % 1024 % W64) % W64 == v % W64
  {
  }

  /** The halves of a constant, and the operands of sethi that stand for them. */
  lemma WholeWord(v: int)
    ensures v % W64 == UpperWord(v) * W32 + Low32(v) && Signed(v) % W32 == Low32(v)
    ensures Hi32(v) == 0 ==> v % W64 == Low32(v)
  {
    WordPair(Hi32(v), Low32(v));
  }

  lemma NegativeWhole(low: int)
    requires 0 <= low < W32
    ensures Compute(W64, XOR, (W32 - 1 - low) / 1024 * 1024, (low % 1024 - 1024) % W64) == (low - W32) % W64
  {
    NegativeSum(low);
    XorHigh((W32 - 1 - low) / 1024 * 1024, low % 1024);
  }

  lemma ComplementWord(v: int)
    requires Hi32(v) == -1
    ensures (-Signed(v) - 1) % W32 == W32 - 1 - Low32(v) && v == Low32(v) - W32
  {
  }

  lemma NegativeSum(low: int)
    requires 0 <= low < W32
    ensures W64 - 1024 - (W32 - 1 - low) / 1024 * 1024 + low % 1024 == (low - W32) % W64
  {
  }

  /** Only the lower half of a number matters to a shift by a word. */
  lemma ShiftsLowerHalf(x: int, h: int)
    requires x % W32 == h % W32
    ensures Compute(W64, SLLX, x, 32 % W64) == h % W32 * W32
  {
    ShiftedWord(x);
    WordPair(x, 0);
  }

  lemma ShiftedHalf(h: int)
    requires 0 <= h < W32
    ensures Compute(W64, SLLX, h, 32 % W64) == h * W32
  {
    ShiftsLowerHalf(h, h);
  }

  /** The upper half alone, loaded as a word or as a signed immediate. */
  lemma UpperWhole(v: int)
    requires Low32(v) == 0
    ensures Compute(W64, SLLX, UpperWord(v), 32 % W64) == v % W64
    ensures Compute(W64, SLLX, Hi32(v) % W64, 32 % W64) == v % W64
  {
    var h := Hi32(v);
    WholeWord(v);
    assert h % W32 % W32 == h % W32 && h % W64 % W32 == h % W32;
    ShiftsLowerHalf(h % W32, h);
    ShiftsLowerHalf(h % W64, h);
  }

  lemma JoinedHalves(h: int, l: int)
    requires 0 <= h < W32 && 0 <= l < W32
    ensures Compute(W64, OR, l, h * W32) == h * W32 + l
  {
    PowerTable();
    OrDisjoint(h * W32, l, 32);
    OrCommutes(h * W32, l);
  }

  // --------------------------------------------------------------------------
  // The assembler

  /** The relocation of a constant: only some kinds are patched later. */
  datatype Reloc = NoReloc | RuntimeCall | Patchable

  function RunCode(d: Data, code: seq<Instr>): Data {
    if code == [] then d else Exec(W64, code[|code| - 1], RunCode(d, code[..|code| - 1]))
  }

  predicate Encodable(i: Instr) {
    i.Op? && i.op2.Imm? ==> if i.alu == SLLX then 0 <= i.op2.value < 64 else IsSimm13(i.op2.value)
  }

  /** Executed from any state, the code leaves x in register r. */
  ghost predicate Has(code: seq<Instr>, r: Reg, x: int)
  {
    forall start :: Get(RunCode(start, code).regs, r) == x
  }

  /** The same for a second operand. */
  ghost predicate HasValue(code: seq<Instr>, o: Operand, x: int)
  {
    forall start :: Value(W64, RunCode(start, code).regs, o) == x
  }

  /** From any state, the longer code changes no other registers after the shorter one. */
  ghost predicate Keeps(code: seq<Instr>, longer: seq<Instr>, regs: set<Reg>)
  {
    forall start :: SameOutside(RunCode(start, code), RunCode(start, longer), regs)
  }

  lemma RunOneMore(start: Data, code: seq<Instr>, i: Instr)
    ensures RunCode(start, code + [i]) == Exec(W64, i, RunCode(start, code))
  {
    assert (code + [i])[..|code|] == code;
  }

  /** The code emitted so far, all of it straight-line. */
  class MacroAssembler {
    var code: seq<Instr>

    constructor ()
      ensures code == []
    {
      code := [];
    }

    method Emit(i: Instr)
      requires !i.Branch? && Encodable(i)
      modifies this
      ensures code == old(code) + [i]
    {
      code := code + [i];
    }

    /** One instruction that changes d only. */
    method EmitOp(alu: Alu, rs: Reg, op2: Operand, d: Reg, ghost a: int, ghost b: int)
      requires d != G0 && Encodable(Op(alu, rs, op2, d)) && Has(code, rs, a) && HasValue(code, op2, b)
      modifies this
      ensures code == old(code) + [Op(alu, rs, op2, d)] && Keeps(old(code), code, {d})
      ensures Has(code, d, Compute(W64, alu, a, b))
    {
      Emit(Op(alu, rs, op2, d));
      forall start
        ensures SameOutside(RunCode(start, old(code)), RunCode(start, code), {d})
        ensures Get(RunCode(start, code).regs, d) == Compute(W64, alu, a, b)
      {
        RunOneMore(start, old(code), Op(alu, rs, op2, d));
      }
    }

    /** The same with an immediate operand, for a register that holds a. */
    method EmitImm(alu: Alu, rs: Reg, imm: int, d: Reg, ghost a: int)
      requires d != G0 && Encodable(Op(alu, rs, Imm(imm), d)) && Has(code, rs, a)
      modifies this
      ensures code == old(code) + [Op(alu, rs, Imm(imm), d)] && Keeps(old(code), code, {d})
      ensures Has(code, d, Compute(W64, alu, a, imm % W64))
    {
      EmitOp(alu, rs, Imm(imm), d, a, imm % W64);
    }

    /** The hardware instruction: bits 31 to 10 of the operand. */
    method EmitSethiInsn(imm: int, d: Reg)
      requires d != G0
      modifies this
      ensures code == old(code) + [Sethi(imm, d)] && Keeps(old(code), code, {d})
      ensures Has(code, d, imm % W32 / 1024 * 1024)
    {
      Emit(Sethi(imm, d));
      forall start
        ensures SameOutside(RunCode(start, old(code)), RunCode(start, code), {d})
        ensures Get(RunCode(start, code).regs, d) == imm % W32 / 1024 * 1024
      {
        RunOneMore(start, old(code), Sethi(imm, d));
      }
    }

    /** The upper half of a general constant. */
    method EmitUpper(v: int, d: Reg)
      requires d != G0
      modifies this
      ensures old(code) <= code && Keeps(old(code), code, {d})
      ensures Has(code, d, UpperWord(v))
      ensures |code| == |old(code)| + if UpperTen(v) != 0 then 2 else 1
    {
      UpperParts(v);
      EmitSethiInsn(Hi32(v), d);
      if UpperTen(v) != 0 {
        OrTen(UpperWord(v) / 1024 * 1024, UpperTen(v));
        EmitImm(OR, d, UpperTen(v), d, UpperWord(v) / 1024 * 1024);
      }
    }

    /** The next twelve bits, if any is set; otherwise their shift is left to the next step. */
    method EmitMiddle(v: int, d: Reg) returns (shiftCount: nat)
      requires d != G0 && Has(code, d, UpperWord(v))
      modifies this
      ensures old(code) <= code && Keeps(old(code), code, {d})
      ensures shiftCount == if MiddleTwelve(v) != 0 then 0 else 12
      ensures Has(code, d, BeforeTen(v, shiftCount))
      ensures |code| == |old(code)| + if shiftCount == 0 then 2 else 0
    {
      TopBounds(v);
      if MiddleTwelve(v) != 0 {
        ShiftedTwelve(UpperWord(v));
        EmitImm(SLLX, d, 12, d, UpperWord(v));
        OrTwelve(UpperWord(v) * 4096, MiddleTwelve(v));
        EmitImm(OR, d, MiddleTwelve(v), d, UpperWord(v) * 4096);
        shiftCount := 0;
      } else {
        shiftCount := 12;
      }
    }

    /** A shift to the left whose result is known. */
    method EmitShift(d: Reg, count: nat, ghost x: int, ghost result: int)
      requires d != G0 && count < 64 && Has(code, d, x) && Compute(W64, SLLX, x, count % W64) == result
      modifies this
      ensures old(code) <= code && |code| == |old(code)| + 1 && Keeps(old(code), code, {d})
      ensures Has(code, d, result)
    {
      EmitImm(SLLX, d, count, d, x);
    }

    /** Ten bits or-ed behind a number. */
    method EmitTen(d: Reg, l: int, ghost x: nat)
      requires d != G0 && Has(code, d, x * 1024) && 0 <= l < 1024
      modifies this
      ensures old(code) <= code && |code| == |old(code)| + 1 && Keeps(old(code), code, {d})
      ensures Has(code, d, x * 1024 + l)
    {
      OrTen(x * 1024, l);
      EmitImm(OR, d, l, d, x * 1024);
    }

    /** The last ten bits that sethi keeps, and the final shift. */
    method EmitLower(v: int, d: Reg, middleCount: nat)
      requires d != G0 && Low32(v) >= 1024
      requires middleCount == if MiddleTwelve(v) != 0 then 0 else 12
      requires Has(code, d, BeforeTen(v, middleCount))
      modifies this
      ensures old(code) <= code && Keeps(old(code), code, {d})
      ensures Has(code, d, (Top(v) * 1024 + LowerTen(v)) * 1024)
      ensures |code| == |old(code)| + if LowerTen(v) != 0 then 3 else 1
    {
      var shiftCount: nat;
      SomeBits(v);
      TopBounds(v);
      if LowerTen(v) != 0 {
        RoomForTen(v, middleCount);
        EmitShift(d, middleCount + 10, BeforeTen(v, middleCount), Top(v) * 1024);
        EmitTen(d, LowerTen(v), Top(v));
        shiftCount := 0;
      } else {
        shiftCount := 10;
      }
      FinalShift(v, shiftCount);
      EmitShift(d, shiftCount + 10, if shiftCount == 0 then Top(v) * 1024 + LowerTen(v) else Top(v),
                (Top(v) * 1024 + LowerTen(v)) * 1024);
    }

    /** No-ops up to a position. */
    method PadTo(pc: nat)
      requires |code| <= pc
      modifies this
      ensures old(code) <= code && |code| == pc && Keeps(old(code), code, {})
    {
      while |code| < pc
        invariant old(code) <= code && |code| <= pc && Keeps(old(code), code, {})
      {
        Emit(Nop);
      }
    }

    /** A constant whose upper half is all ones. */
    method EmitComplement(v: int, d: Reg)
      requires d != G0 && Hi32(v) == -1
      modifies this
      ensures old(code) <= code && |code| == |old(code)| + 2 && Keeps(old(code), code, {d})
      ensures Has(code, d, Cleared(v))
    {
      NegativeParts(v);
      EmitSethiInsn(-Low32(v) - 1, d);
      XorHigh((-Low32(v) - 1) % W32 / 1024 * 1024, 0);
      EmitImm(XOR, d, -1024, d, (-Low32(v) - 1) % W32 / 1024 * 1024);
    }

    /** Any other constant, piece by piece. */
    method EmitGeneral(v: int, d: Reg)
      requires d != G0
      modifies this
      ensures old(code) <= code && Keeps(old(code), code, {d})
      ensures Has(code, d, Cleared(v))
      ensures |code| - |old(code)| == GeneralLength(v)
    {
      Assembled(v);
      EmitUpper(v, d);
      if Low32(v) >= 1024 {
        var shiftCount := EmitMiddle(v, d);
        EmitLower(v, d, shiftCount);
      } else {
        UpperOnly(v);
        EmitShift(d, 32, UpperWord(v), Cleared(v));
      }
    }

    /** Loads a constant with its low ten bits cleared. The sequence has the predicted size, or is padded to seven
        instructions if it will be patched. */
    method EmitSethi(v: int, d: Reg, forceRelocatable: bool, reloc: Reloc)
      requires d != G0 && IsLong(v)
      modifies this
      ensures old(code) <= code && Keeps(old(code), code, {d})
      ensures Has(code, d, Cleared(v))
      ensures |code| - |old(code)| == if forceRelocatable || reloc == Patchable then 7 else SizeOfSethi(v) / 4
    {
      var savePc := |code|;
      if Hi32(v) == 0 && Low32(v) < HALF32 {
        PositiveParts(v);
        EmitSethiInsn(Low32(v), d);
      } else if Hi32(v) == -1 {
        EmitComplement(v, d);
      } else {
        EmitGeneral(v, d);
      }
      if forceRelocatable || reloc == Patchable {
        PadTo(savePc + 7);
      }
    }

    /** Loads a constant exactly. */
    method EmitSet(v: int, d: Reg, reloc: Reloc)
      requires d != G0 && IsLong(v)
      modifies this
      ensures old(code) <= code && Keeps(old(code), code, {d})
      ensures Has(code, d, v % W64)
      ensures |code| - |old(code)| <= 8
    {
      if reloc == NoReloc {
        if IsSimm13(v) {
          OrNothing(v);
          EmitImm(OR, G0, v, d, 0);
          return;
        }
        if Signed(Low32(v) / 1024 * 1024) == v {
          NothingCleared(v);
          EmitSethi(v, d, false, reloc);
          return;
        }
      }
      EmitSethi(v, d, false, reloc);
      ClearedAndRest(v);
      if reloc != NoReloc || v % 1024 != 0 {
        EmitImm(ADD, d, v % 1024, d, Cleared(v));
      }
    }

    /** The ten low bits of a word whose other bits are loaded, unless they are zero. */
    method EmitLow10(w: int, d: Reg)
      requires d != G0 && 0 <= w < W32 && Has(code, d, w / 1024 * 1024)
      modifies this
      ensures old(code) <= code && |code| <= |old(code)| + 1 && Keeps(old(code), code, {d})
      ensures Has(code, d, w)
    {
      if w % 1024 != 0 {
        EmitTen(d, w % 1024, w / 1024);
      }
    }

    /** A constant whose upper half is all ones, exactly. */
    method EmitNegative(v: int, lo: int, d: Reg)
      requires d != G0 && Hi32(v) == -1 && lo == Signed(v)
      modifies this
      ensures old(code) <= code && |code| == |old(code)| + 2 && Keeps(old(code), code, {d})
      ensures Has(code, d, v % W64)
    {
      ComplementWord(v);
      NegativeWhole(Low32(v));
      EmitSethiInsn(-lo - 1, d);
      EmitImm(XOR, d, Low32(v) % 1024 - 1024, d, (-lo - 1) % W32 / 1024 * 1024);
    }

    /** Loads a constant exactly, with a second register for the upper half of a general one. */
    method EmitSet64(v: int, d: Reg, tmp: Reg)
      requires d != G0 && tmp != G0 && tmp != d && IsLong(v)
      modifies this
      ensures old(code) <= code && Keeps(old(code), code, {d, tmp})
      ensures Has(code, d, v % W64)
      ensures |code| - |old(code)| <= 6
    {
      var hi, lo := Hi32(v), Signed(v);
      WholeWord(v);
      if IsSimm13(lo) && v == lo {
        OrNothing(v);
        EmitImm(OR, G0, lo, d, 0);
      } else if hi == 0 {
        EmitSethiInsn(lo, d);
        EmitLow10(Low32(v), d);
      } else if hi == -1 {
        EmitNegative(v, lo, d);
      } else if lo == 0 {
        if IsSimm13(hi) {
          OrNothing(hi);
          EmitImm(OR, G0, hi, d, 0);
        } else {
          EmitSethiInsn(hi, d);
          EmitLow10(UpperWord(v), d);
        }
        UpperWhole(v);
        EmitShift(d, 32, if IsSimm13(hi) then hi % W64 else UpperWord(v), v % W64);
      } else {
        TopBounds(v);
        EmitHalves(hi, Low32(v), lo, d, tmp);
        EmitJoin(d, tmp, UpperWord(v), Low32(v));
      }
    }

    /** The two halves in two registers, the upper one loaded first. */
    method EmitHalves(h: int, l: int, lo: int, d: Reg, tmp: Reg)
      requires d != G0 && tmp != G0 && tmp != d && lo % W32 == l
      modifies this
      ensures old(code) <= code && Keeps(old(code), code, {d, tmp})
      ensures Has(code, tmp, h % W32) && Has(code, d, l)
      ensures |code| - |old(code)| <= 4
    {
      EmitSethiInsn(h, tmp);
      EmitSethiInsn(lo, d);
      EmitLow10(h % W32, tmp);
      EmitLow10(l, d);
    }

    /** Shifts the upper half up and joins the halves. */
    method EmitJoin(d: Reg, tmp: Reg, ghost h: int, ghost l: int)
      requires d != G0 && tmp != G0 && tmp != d && 0 <= h < W32 && 0 <= l < W32
      requires Has(code, tmp, h) && Has(code, d, l)
      modifies this
      ensures old(code) <= code && Keeps(old(code), code, {d, tmp})
      ensures Has(code, d, h * W32 + l)
      ensures |code| == |old(code)| + 2
    {
      ShiftedHalf(h);
      EmitShift(tmp, 32, h, h * W32);
      EmitOr(d, tmp, h, l);
    }

    method EmitOr(d: Reg, tmp: Reg, ghost h: int, ghost l: int)
      requires d != G0 && 0 <= h < W32 && 0 <= l < W32
      requires Has(code, tmp, h * W32) && Has(code, d, l)
      modifies this
      ensures old(code) <= code && |code| == |old(code)| + 1 && Keeps(old(code), code, {d})
      ensures Has(code, d, h * W32 + l)
    {
      JoinedHalves(h, l);
      EmitOp(OR, d, R(tmp), d, l, h * W32);
    }
  }

  /** The sequence of a sethi, by itself: executed from any state it loads the constant without its low ten bits,
      in as many instructions as predicted. */
  method SethiSequence(v: int, d: Reg) returns (code: seq<Instr>)
    requires d != G0 && IsLong(v)
    ensures forall start ::
              Get(RunCode(start, code).regs, d) == Cleared(v) && SameOutside(start, RunCode(start, code), {d})
    ensures 4 * |code| == SizeOfSethi(v)
  {
    var masm := new MacroAssembler();
    masm.EmitSethi(v, d, false, NoReloc);
    code := masm.code;
    assert forall start :: RunCode(start, []) == start;
  }

  /** The sequence of a set64, by itself. */
  method Set64Sequence(v: int, d: Reg, tmp: Reg) returns (code: seq<Instr>)
    requires d != G0 && tmp != G0 && tmp != d && IsLong(v)
    ensures forall start ::
              Get(RunCode(start, code).regs, d) == v % W64 && SameOutside(start, RunCode(start, code), {d, tmp})
    ensures |code| <= 6
  {
    var masm := new MacroAssembler();
    masm.EmitSet64(v, d, tmp);
    code := masm.code;
    assert forall start :: RunCode(start, []) == start;
  }
}
