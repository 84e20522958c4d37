/**
  The machine instructions the client compiler emits for the operations its peephole pass considers for delay slots:
  null checks, additions, shifts and moves. What goes into a slot must be one instruction; here the emitting functions
  are followed, so that the rules of the pass can be compared with them.
 */
module Emission {
  import opened Words
  import opened Wrappers
  import opened Peephole
  import ConstantSynthesis

  const O7: nat := 15
  const SP: nat := 14

  /** A displacement or an index register. */
  datatype Offset = Disp(d: int) | Index(r: nat)

  datatype Insn =
    | Load(base: nat, at: Offset, to: nat)
    | Store(from: nat, base: nat, at: Offset)
    | LoadFloat(double: bool, base: nat, at: Offset, to: nat)
    | StoreFloat(double: bool, from: nat, base: nat, at: Offset)
    | Alu(left: nat, right: Offset, to: nat)       // add, or, the shifts
    | Sethi(value: int, to: nat)
    | MoveFloat(double: bool, from: nat, to: nat)
    | AddFloat(to: nat)
    | VerifyOop(oopReg: nat)                        // a dozen instructions
    | Pad                                           // a no-op

  /** The machine: register width, the flag for null checks, and the displacements of the frame's slots. */
  datatype Target = Target(lp64: bool, nullChecks: bool, bias: int, frameSize: nat)

  /** The displacement of a slot from the stack pointer. */
  function SlotDisp(t: Target, slot: nat): int {
    t.bias + t.frameSize + 4 * slot
  }

  // --------------------------------------------------------------------------
  // Parts of emitted code. None: an assertion of the emitting function fails

  type Code = Option<seq<Insn>>

  function Then(a: Code, b: Code): Code {
    if a.None? || b.None? then None else Some(a.value + b.value)
  }

  function Verified(opts: Options, check: bool, reg: nat): seq<Insn> {
    if check && opts.verifyOops && reg != 0 then [VerifyOop(reg)] else []
  }

  /** The macro instruction for the upper bits of a constant. */
  function SethiCode(t: Target, v: int, to: nat): seq<Insn> {
    if t.lp64 then seq(ConstantSynthesis.SizeOfSethi(v) / 4, i => Sethi(v, to)) else [Sethi(v, to)]
  }

  /** The macro instruction for a constant. */
  function SetCode(t: Target, v: int, to: nat): seq<Insn> {
    if IsSimm13(v) then [Alu(0, Disp(v), to)]
    else SethiCode(t, v, to) + if v % 1024 == 0 then [] else [Alu(to, Disp(v % 1024), to)]
  }

  /** An object constant, known or to be filled in later by relocation. */
  function ObjectCode(t: Target, v: int, to: nat): seq<Insn> {
    if v == 0 then SetCode(t, 0, to)
    else seq(if t.lp64 then 7 else 1, i => Sethi(v, to)) + [Alu(to, Disp(0), to)]
  }

  function MovCode(from: nat, to: nat): seq<Insn> {
    if from == to then [] else [Alu(0, Index(from), to)]
  }

  /** An instruction with an immediate operand must encode it. */
  function Encoded(d: int, code: seq<Insn>): Code {
    if IsSimm13(d) then Some(code) else None
  }

  /** A load at a displacement. The test for large displacements asks for the word size instead, so it never fails. */
  function LoadAt(opts: Options, t: Target, base: nat, d: int, to: Opr, unaligned: bool): Code {
    match to
    case SingleCpu(r, ty) => Encoded(d, [Load(base, Disp(d), r)] + Verified(opts, ty == ObjectType, r))
    case DoubleCpu(r, _) =>
      if !unaligned then Encoded(d, [Load(base, Disp(d), r)])
      else
        Then(Encoded(d, [Load(base, Disp(d), r)]),
             Encoded(d + 4, (if t.lp64 then [Alu(r, Disp(32), r)] else []) + [Load(base, Disp(d + 4), r + 1)]))
    case SingleFpu(r, _) => Encoded(d, [LoadFloat(false, base, Disp(d), r)])
    case DoubleFpu(r, _) =>
      if unaligned || opts.patchALot then
        Then(Encoded(d + 4, [LoadFloat(false, base, Disp(d + 4), r + 1)]),
             Encoded(d, [LoadFloat(false, base, Disp(d), r)]))
      else Encoded(d, [LoadFloat(true, base, Disp(d), r)])
    case _ => None
  }

  function LoadIndexed(opts: Options, base: nat, index: nat, to: Opr): Code {
    match to
    case SingleCpu(r, ty) => Some([Load(base, Index(index), r)] + Verified(opts, ty == ObjectType, r))
    case DoubleCpu(r, _) => Some([Load(base, Index(index), r)])
    case SingleFpu(r, _) => Some([LoadFloat(false, base, Index(index), r)])
    case DoubleFpu(r, _) => Some([LoadFloat(true, base, Index(index), r)])
    case _ => None
  }

  function StoreAt(opts: Options, t: Target, from: Opr, base: nat, d: int, unaligned: bool): Code {
    match from
    case SingleCpu(r, ty) => Encoded(d, Verified(opts, ty == ObjectType, r) + [Store(r, base, Disp(d))])
    case DoubleCpu(r, _) =>
      if t.lp64 && !unaligned && !opts.patchALot then Encoded(d, [Store(r, base, Disp(d))])
      else
        Then(Encoded(d + 4, (if t.lp64 then [Alu(r, Disp(32), O7)] else []) + [Store(r, base, Disp(d + 4))]),
             Encoded(d, [Store(if t.lp64 then O7 else r + 1, base, Disp(d))]))
    case SingleFpu(r, _) => Encoded(d, [StoreFloat(false, r, base, Disp(d))])
    case DoubleFpu(r, _) =>
      if unaligned || opts.patchALot then
        Then(Encoded(d + 4, [StoreFloat(false, r + 1, base, Disp(d + 4))]),
             Encoded(d, [StoreFloat(false, r, base, Disp(d))]))
      else Encoded(d, [StoreFloat(true, r, base, Disp(d))])
    case _ => None
  }

  function StoreIndexed(opts: Options, from: Opr, base: nat, index: nat): Code {
    match from
    case SingleCpu(r, ty) => Some(Verified(opts, ty == ObjectType, r) + [Store(r, base, Index(index))])
    case DoubleCpu(r, _) => Some([Store(r, base, Index(index))])
    case SingleFpu(r, _) => Some([StoreFloat(false, r, base, Index(index))])
    case DoubleFpu(r, _) => Some([StoreFloat(true, r, base, Index(index))])
    case _ => None
  }

  /** Code that may be patched has room for a call. */
  function Patchable(patched: bool, code: Code): Code {
    if patched && code.Some? && |code.value| < 2 then Some(code.value + seq(2 - |code.value|, i => Pad)) else code
  }

  /** A load or store with an address: its displacement may need a register, its index may need an addition. */
  function Access(opts: Options, t: Target, store: bool, reg: Opr, a: Opr, patched: bool, unaligned: bool): Code
    requires a.Address?
  {
    var check := Some(Verified(opts, a.oop, a.base));
    if a.index.None? then
      if !IsSimm13(a.disp) && (!unaligned || IsSimm13(a.disp + 4)) then
        if unaligned then None else
        var setup := if patched then [Sethi(0, O7), Alu(O7, Disp(0), O7)] else SetCode(t, a.disp, O7);
        var access := if store then StoreIndexed(opts, reg, a.base, O7) else LoadIndexed(opts, a.base, O7, reg);
        Then(check, Patchable(patched, Then(Some(setup), access)))
      else
        var access :=
          if store then StoreAt(opts, t, reg, a.base, a.disp, unaligned)
          else LoadAt(opts, t, a.base, a.disp, reg, unaligned);
        Then(check, Patchable(patched, access))
    else if unaligned || opts.patchALot then
      var access :=
        if store then StoreAt(opts, t, reg, O7, a.disp, unaligned) else LoadAt(opts, t, O7, a.disp, reg, unaligned);
      Then(check, Patchable(patched, Then(Some([Alu(a.base, Index(a.index.value), O7)]), access)))
    else if a.disp != 0 then None
    else
      var access :=
        if store then StoreIndexed(opts, reg, a.base, a.index.value)
        else LoadIndexed(opts, a.base, a.index.value, reg);
      Then(check, Patchable(patched, access))
  }

  predicate IsStack(o: Opr) {
    o.SingleStack? || o.DoubleStack?
  }

  predicate IsFloat(o: Opr) {
    o.SingleFpu? || o.DoubleFpu?
  }

  predicate Misaligned(t: Target, slot: nat) {
    (SlotDisp(t, slot) - t.bias) % 8 != 0
  }

  function RegToReg(opts: Options, t: Target, from: Opr, to: Opr): Code
    requires IsRegister(from) && IsRegister(to)
  {
    if IsFloat(from) && IsFloat(to) then
      if from.DoubleFpu? != to.DoubleFpu? then None
      else Some([MoveFloat(from.DoubleFpu?, from.reg, to.reg)])
    else if IsFloat(from) || IsFloat(to) then None
    else if from.DoubleCpu? then
      if t.lp64 then Some(MovCode(from.reg, to.reg))
      else if !to.DoubleCpu? then None
      else Some(MovCode(from.reg + 1, to.reg + 1) + MovCode(from.reg, to.reg))
    else if to.DoubleCpu? then if t.lp64 then Some(MovCode(from.reg, to.reg)) else None
    else Some(MovCode(from.reg, to.reg) + Verified(opts, to.ty == ObjectType, to.reg))
  }

  function StackToStack(t: Target, src: Opr, dst: Opr): Code
    requires IsStack(src) && IsStack(dst)
  {
    var a, b := SlotDisp(t, src.slot), SlotDisp(t, dst.slot);
    var word := Then(Encoded(a, [Load(SP, Disp(a), O7)]), Encoded(b, [Store(O7, SP, Disp(b))]));
    if src.SingleStack? && dst.SingleStack? then word
    else if src.SingleStack? || dst.SingleStack? then None
    else Then(word, Then(Encoded(a + 4, [Load(SP, Disp(a + 4), O7)]), Encoded(b + 4, [Store(O7, SP, Disp(b + 4))])))
  }

  /** A word of a constant in a register; zero is in one already. */
  function WordCode(t: Target, v: int): seq<Insn> {
    if v == 0 then [] else SetCode(t, v, O7)
  }

  /** Two words of a constant, stored one after the other. */
  function StoreTwo(t: Target, v: int, base: nat, d: int): Code {
    Then(Then(Some(WordCode(t, Signed(v))), Encoded(d + 4, [Store(O7, base, Disp(d + 4))])),
         Then(Some(WordCode(t, Signed(v / W32))), Encoded(d, [Store(O7, base, Disp(d))])))
  }

  function ConstToStack(t: Target, c: Opr, dst: Opr): Code
    requires c.Constant? && IsStack(dst)
  {
    var d := SlotDisp(t, dst.slot);
    if c.ty == LongType || c.ty == DoubleType then
      if dst.DoubleStack? then StoreTwo(t, c.value, SP, d) else None
    else if !dst.SingleStack? then None
    else
      var word := if c.ty == ObjectType then ObjectCode(t, c.value, O7) else WordCode(t, c.value);
      Then(Some(word), Encoded(d, [Store(O7, SP, Disp(d))]))
  }

  /** A constant to an address. A word that is not small is not loaded at all. */
  function ConstToMemory(t: Target, c: Opr, a: Opr): Code
    requires c.Constant? && a.Address?
  {
    if c.ty == LongType || c.ty == DoubleType then
      if a.index.Some? then None else StoreTwo(t, c.value, a.base, a.disp)
    else
      var word :=
        if c.ty == ObjectType then if c.value == 0 then [] else ObjectCode(t, c.value, O7)
        else if IsSimm13(c.value) then WordCode(t, c.value) else [];
      var at := if a.index.Some? then Index(a.index.value) else Disp(a.disp);
      if a.index.Some? && a.disp != 0 then None
      else Then(Some(word), Encoded(a.disp, [Store(O7, a.base, at)]))
  }

  function ConstToReg(opts: Options, t: Target, c: Opr, to: Opr, patched: bool): Code
    requires c.Constant? && IsRegister(to)
  {
    match c.ty
    case IntType => if to.SingleCpu? && !patched then Some(SetCode(t, c.value, to.reg)) else None
    case LongType =>
      if !to.DoubleCpu? then None
      else if t.lp64 then Some(SetCode(t, c.value, to.reg))
      else Some(SetCode(t, Signed(c.value), to.reg) + SetCode(t, Signed(c.value / W32), to.reg + 1))
    case ObjectType =>
      if !to.SingleCpu? then None
      else if patched then Some([Sethi(0, to.reg), Alu(to.reg, Disp(0), to.reg)])
      else Some(ObjectCode(t, c.value, to.reg))
    case FloatType =>
      if to.SingleFpu? then
        Some(seq(if t.lp64 then 7 else 1, i => Sethi(c.value, O7)) + [LoadFloat(false, O7, Disp(0), to.reg)])
      else if to.SingleCpu? then Some(seq(2, i => Sethi(c.value, O7)) + [Load(O7, Disp(0), to.reg)])
      else None
    case DoubleType =>
      if to.DoubleFpu? then
        Some(seq(if t.lp64 then 7 else 1, i => Sethi(c.value, O7)) + [LoadFloat(true, O7, Disp(0), to.reg)])
      else if !to.DoubleCpu? then None
      else if t.lp64 then Some(SetCode(t, c.value, to.reg))
      else Some(SetCode(t, Signed(c.value), to.reg) + SetCode(t, Signed(c.value / W32), to.reg + 1))
  }

  function NormalMove(opts: Options, t: Target, src: Opr, dst: Opr, patched: bool, unaligned: bool): Code {
    if IsRegister(src) then
      if IsRegister(dst) then if patched then None else RegToReg(opts, t, src, dst)
      else if IsStack(dst) then
        if patched then None
        else StoreAt(opts, t, src, SP, SlotDisp(t, dst.slot), Misaligned(t, dst.slot))
      else if dst.Address? then Access(opts, t, true, src, dst, patched, unaligned)
      else None
    else if IsStack(src) then
      if patched then None
      else if IsRegister(dst) then LoadAt(opts, t, SP, SlotDisp(t, src.slot), dst, Misaligned(t, src.slot))
      else if IsStack(dst) then StackToStack(t, src, dst)
      else None
    else if src.Constant? then
      if IsRegister(dst) then ConstToReg(opts, t, src, dst, patched)
      else if patched then None
      else if IsStack(dst) then ConstToStack(t, src, dst)
      else if dst.Address? then ConstToMemory(t, src, dst)
      else None
    else if src.Address? && IsRegister(dst) then Access(opts, t, false, dst, src, patched, unaligned)
    else None
  }

  /** Volatile longs go through a pair of scratch registers, other volatiles are moved as usual; only in 32-bit code. */
  function VolatileMove(opts: Options, t: Target, src: Opr, dst: Opr, patched: bool): Code {
    if t.lp64 || patched then None
    else if src.DoubleCpu? && dst.Address? then Some(seq(4, i => Alu(0, Disp(0), O7)))
    else if src.Address? && dst.DoubleCpu? then Some(seq(3, i => Alu(0, Disp(0), O7)))
    else NormalMove(opts, t, src, dst, false, false)
  }

  /** Additions and shifts. In 32-bit code those of longs take several instructions. */
  function AluCode(t: Target, arith: ArithCode, left: Opr, right: Opr, result: Opr): Code {
    match result
    case SingleCpu(r, _) =>
      if !left.SingleCpu? then None
      else if right.SingleCpu? then Some([Alu(left.reg, Index(right.reg), r)])
      else if !(right.Constant? && right.ty == IntType) then None
      else if arith == Add then Encoded(right.value, [Alu(left.reg, Disp(right.value), r)])
      else if t.lp64 && left.ty == ObjectType then None
      else Some([Alu(left.reg, Disp(right.value % 32), r)])
    case DoubleCpu(r, _) =>
      if t.lp64 then Some([Alu(if IsRegister(left) then left.reg else 0, Disp(0), r)])
      else if !left.DoubleCpu? then None
      else if arith == Add then
        if right.DoubleCpu? then
          Some([Alu(left.reg, Index(right.reg), r), Alu(left.reg + 1, Index(right.reg + 1), r + 1)])
        else None
      else if right.SingleCpu? then Some(seq(13, i => Alu(left.reg, Index(right.reg), r)))
      else None
    case SingleFpu(r, _) => if arith == Add && left.SingleFpu? && right.SingleFpu? then Some([AddFloat(r)]) else None
    case DoubleFpu(r, _) => if arith == Add && left.DoubleFpu? && right.DoubleFpu? then Some([AddFloat(r)]) else None
    case _ => None
  }

  /** The code of an operation. */
  function Emitted(opts: Options, t: Target, op: Op): Code {
    match op
    case NullCheck(opr, info) =>
      if !t.nullChecks then Some([]) else if info == None || !opr.SingleCpu? then None
      else Some([Load(opr.reg, Disp(0), 0)])
    case Arith(arith, left, right, result, info) =>
      if info != None then None else AluCode(t, arith, left, right, result)
    case Move(src, dst, patched, kind, _) =>
      if kind == Volatile then VolatileMove(opts, t, src, dst, patched)
      else NormalMove(opts, t, src, dst, patched, kind == Unaligned)
    case Nop => Some([Pad])
    case _ => None
  }

  // --------------------------------------------------------------------------
  // One instruction

  /** What the pass does not look at: whether null checks are emitted at all, unaligned moves with an index register,
      and doubles moved to or from a slot of one word. */
  predicate Regular(opts: Options, t: Target, op: Op) {
    match op
    case NullCheck(_, _) => t.nullChecks
    case Move(src, dst, _, kind, _) =>
      && !(kind == Unaligned && ((src.Address? && src.index.Some?) || (dst.Address? && dst.index.Some?)))
      && (src.SingleStack? && dst.DoubleFpu? ==> !Misaligned(t, src.slot) && !opts.patchALot)
      && (dst.SingleStack? && src.DoubleFpu? ==> !Misaligned(t, dst.slot) && !opts.patchALot)
    case _ => true
  }

  lemma AccessIsOne(opts: Options, t: Target, store: bool, reg: Opr, a: Opr, unaligned: bool)
    requires a.Address? && IsRegister(reg) && !reg.DoubleCpu? && !opts.verifyOops && !opts.patchALot && IsSimm13(a.disp)
    requires reg.DoubleFpu? ==> !unaligned
    ensures var c := Access(opts, t, store, reg, a, false, unaligned);
            c.Some? ==> |c.value| == if unaligned && a.index.Some? then 2 else 1
  {
  }

  lemma MoveIsOne(opts: Options, t: Target, src: Opr, dst: Opr, patched: bool, kind: MoveKind, info: Info)
    requires IsSingleMove(opts, src, dst, patched, kind)
    ensures var c := NormalMove(opts, t, src, dst, patched, kind == Unaligned);
            c.Some? ==> (|c.value| == 1 <==> Regular(opts, t, Move(src, dst, patched, kind, info)))
  {
    if src.Address? {
      AccessIsOne(opts, t, false, dst, src, kind == Unaligned);
    } else if dst.Address? {
      AccessIsOne(opts, t, true, src, dst, kind == Unaligned);
    }
  }

  /** What the pass takes for a single instruction is emitted as exactly one, if and only if it is regular. */
  lemma SingleIsOne(opts: Options, t: Target, op: Op)
    requires IsSingleInstruction(opts, op) && Emitted(opts, t, op).Some?
    ensures |Emitted(opts, t, op).value| == 1 <==> Regular(opts, t, op)
  {
    if op.Move? {
      MoveIsOne(opts, t, op.src, op.dst, op.patched, op.kind, op.info);
    }
  }

  /** Three operations the pass takes for single instructions: with null checks off a null check is nothing, an
      unaligned load with an index register is an addition and a load, and a double from a misaligned slot of one word
      is two loads. */
  lemma PassMisjudges(opts: Options, t: Target)
    requires !opts.verifyOops && !opts.patchALot && t == Target(false, false, 0, 4)
    ensures var check := NullCheck(SingleCpu(9, ObjectType), None);
            IsSingleInstruction(opts, check) && Emitted(opts, t, check) == Some([])
    ensures var move := Move(Address(9, false, Some(10), 0), SingleCpu(11, IntType), false, Unaligned, None);
            IsSingleInstruction(opts, move)
            && Emitted(opts, t, move) == Some([Alu(9, Index(10), O7), Load(O7, Disp(0), 11)])
    ensures var move := Move(SingleStack(0), DoubleFpu(2, DoubleType), false, Normal, None);
            IsSingleInstruction(opts, move)
            && Emitted(opts, t, move) == Some([LoadFloat(false, SP, Disp(8), 3), LoadFloat(false, SP, Disp(4), 2)])
  {
    var add, load := Alu(9, Index(10), O7), Load(O7, Disp(0), 11);
    assert [] + ([add] + ([load] + [])) == [add, load];
    var upper, lower := LoadFloat(false, SP, Disp(8), 3), LoadFloat(false, SP, Disp(4), 2);
    assert [upper] + [lower] == [upper, lower];
  }

  /** Conversely a plain move that is emitted as one instruction is taken for one: between a register, not of a long,
      and memory, between registers of one type and one word, or of a small constant. */
  lemma OneIsSingle(opts: Options, t: Target, src: Opr, dst: Opr)
    requires !opts.verifyOops && !opts.patchALot && src != dst
    requires (IsRegister(src) && !IsRegister(dst)) || (IsRegister(dst) && !IsRegister(src))
             || (IsRegister(src) && IsRegister(dst) && src.ty == dst.ty && !IsDouble(src) && !IsDouble(dst))
    requires !src.DoubleCpu? && !dst.DoubleCpu? && !src.DoubleStack? && !dst.DoubleStack?
    requires src.Constant? ==> src.ty == IntType && IsSimm13(src.value)
    requires Emitted(opts, t, Move(src, dst, false, Normal, None)).Some?
    ensures |Emitted(opts, t, Move(src, dst, false, Normal, None)).value| == 1 ==>
              IsSingleInstruction(opts, Move(src, dst, false, Normal, None))
  {
    if src.Address? && !IsSimm13(src.disp) {
      LargeIsMore(opts, t, false, dst, src);
    } else if dst.Address? && !IsSimm13(dst.disp) {
      LargeIsMore(opts, t, true, src, dst);
    }
  }

  /** So is every addition and shift of words. */
  lemma WordArithIsSingle(opts: Options, t: Target, arith: ArithCode, left: Opr, right: Opr, result: Opr)
    requires result.SingleCpu? && Emitted(opts, t, Arith(arith, left, right, result, None)).Some?
    ensures IsSingleInstruction(opts, Arith(arith, left, right, result, None))
    ensures |Emitted(opts, t, Arith(arith, left, right, result, None)).value| == 1
  {
  }

  predicate IsDouble(o: Opr) {
    o.DoubleCpu? || o.DoubleFpu?
  }

  lemma SetIsSome(t: Target, v: int, to: nat)
    ensures |SetCode(t, v, to)| >= 1
  {
  }

  /** A displacement that is not small takes at least one instruction more. */
  lemma LargeIsMore(opts: Options, t: Target, store: bool, reg: Opr, a: Opr)
    requires a.Address? && IsRegister(reg) && !IsSimm13(a.disp)
    ensures var c := Access(opts, t, store, reg, a, false, false); c.Some? ==> |c.value| >= 2
  {
    SetIsSome(t, a.disp, O7);
  }

  /** Every slot of the result of the pass is one machine instruction: a no-op, or an operation that is emitted as one,
      unless it is irregular. */
  lemma SlotsAreOne(opts: Options, t: Target, ops: seq<Op>, i: nat)
    requires NoDelays(ops) && i < |Filled(opts, ops)| && Filled(opts, ops)[i].Delay?
    ensures var slot := Filled(opts, ops)[i].op;
            Emitted(opts, t, slot).Some? ==> (|Emitted(opts, t, slot).value| == 1 <==> Regular(opts, t, slot))
  {
    SlotsFollowRules(opts, ops, i);
    var slot := Filled(opts, ops)[i].op;
    if slot != Nop && Emitted(opts, t, slot).Some? {
      SingleIsOne(opts, t, slot);
    }
  }
}
