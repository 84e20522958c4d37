/**
  The peephole pass of the client compiler on SPARC. It gives every branch and call of a LIR list the
  operation for its delay slot: the operation before it where that is safe, else a no-op. The list is
  rewritten in place and grows while it is walked. The result, executed with delay slots, means
  what the original list means when executed in order.
 */
module Peephole {
  import opened Words
  import opened Wrappers

  // --------------------------------------------------------------------------
  // Operands and operations

  datatype Type = IntType | LongType | ObjectType | FloatType | DoubleType

  /** Registers of one or two words, stack slots of one or two words, addresses and constants. */
  datatype Opr =
    | Illegal
    | SingleCpu(reg: nat, ty: Type)
    | DoubleCpu(reg: nat, ty: Type)
    | SingleFpu(reg: nat, ty: Type)
    | DoubleFpu(reg: nat, ty: Type)
    | SingleStack(slot: nat)
    | DoubleStack(slot: nat)
    | Address(base: nat, oop: bool, index: Option<nat>, disp: int)   // oop: the base is a typed object
    | Constant(ty: Type, value: int)

  datatype MoveKind = Normal | Volatile | Unaligned

  datatype ArithCode = Add | Shl | Shr | Ushr

  datatype CallCode = StaticCall | VirtualCall | IcVirtualCall | OptVirtualCall

  /** The debug information of an operation, where it has any. */
  type Info = Option<nat>

  datatype Op =
    | Label(id: nat)
    | NullCheck(opr: Opr, info: Info)
    | Arith(arith: ArithCode, left: Opr, right: Opr, result: Opr, info: Info)
    | Move(src: Opr, dst: Opr, patched: bool, kind: MoveKind, info: Info)
    | Branch(cond: nat, float: bool, target: nat, toBlock: bool)
    | Call(call: CallCode, callee: nat, callInfo: Info)
    | Nop
    | Delay(op: Op, delayInfo: Info)
    | Other(opcode: nat, operands: seq<Opr>, info: Info)

  /** The VM's options that matter here. */
  datatype Options = Options(fillDelaySlots: bool, verifyOops: bool, patchALot: bool)

  const O0: nat := 8

  predicate IsRegister(o: Opr) {
    o.SingleCpu? || o.DoubleCpu? || o.SingleFpu? || o.DoubleFpu?
  }

  predicate IsSmallConstant(o: Opr) {
    o.Constant? && o.ty == IntType && IsSimm13(o.value)
  }

  predicate IsSameWord(src: Opr, dst: Opr)
    requires IsRegister(dst)
  {
    (src.SingleCpu? || src.SingleFpu?) && src.ty == dst.ty
  }

  predicate IsSingleMove(opts: Options, src: Opr, dst: Opr, patched: bool, kind: MoveKind) {
    if src == dst || opts.verifyOops then false
    else if src.DoubleCpu? || dst.DoubleCpu? || patched then false
    else if (src.DoubleFpu? || dst.DoubleFpu?) && kind != Normal then false
    else if IsRegister(dst) && src.Address? && IsSimm13(src.disp) then !opts.patchALot
    else if IsRegister(dst) && src.SingleStack? then true
    else if IsRegister(src) && dst.Address? && IsSimm13(dst.disp) then !opts.patchALot
    else if IsRegister(src) && dst.SingleStack? then true
    else IsRegister(dst) && (IsSameWord(src, dst) || IsSmallConstant(src))
  }

  /** The operation becomes exactly one machine instruction. */
  predicate IsSingleInstruction(opts: Options, op: Op) {
    match op
    case NullCheck(_, _) => true
    case Arith(_, _, _, result, _) => result.SingleCpu?
    case Move(src, dst, patched, kind, _) => IsSingleMove(opts, src, dst, patched, kind)
    case _ => false
  }

  function InfoOf(op: Op): Info {
    match op
    case NullCheck(_, info) => info
    case Arith(_, _, _, _, info) => info
    case Move(_, _, _, _, info) => info
    case Call(_, _, info) => info
    case Delay(_, info) => info
    case Other(_, _, info) => info
    case _ => None
  }

  /** A branch or a call. */
  predicate IsTransfer(op: Op) {
    op.Branch? || op.Call?
  }

  predicate WritesO0(op: Op) {
    op.Move? && op.dst.SingleCpu? && op.dst.reg == O0
  }

  /** prev can be moved behind the branch or call op. */
  predicate CanFill(opts: Options, prev: Op, op: Op) {
    if op.Branch? then
      opts.fillDelaySlots && op.toBlock && IsSingleInstruction(opts, prev) && InfoOf(prev) == None
    else
      && op.Call? && opts.fillDelaySlots && prev.Move? && InfoOf(prev) == None
      && (op.call != VirtualCall || !WritesO0(prev))
      && IsSingleInstruction(opts, prev)
  }

  // --------------------------------------------------------------------------
  // The result of the pass, as a function of the list

  function Filled(opts: Options, ops: seq<Op>): seq<Op> {
    if ops == [] then []
    else if |ops| >= 2 && CanFill(opts, ops[0], ops[1]) then
      [ops[1], Delay(ops[0], InfoOf(ops[1]))] + Filled(opts, ops[2..])
    else if IsTransfer(ops[0]) then
      [ops[0], Delay(Nop, InfoOf(ops[0]))] + Filled(opts, ops[1..])
    else
      [ops[0]] + Filled(opts, ops[1..])
  }

  function Transfers(ops: seq<Op>): nat {
    if ops == [] then 0 else (if IsTransfer(ops[0]) then 1 else 0) + Transfers(ops[1..])
  }

  /** Where the loop stands at i: the operations before the last one are final, and what remains to be done depends
      on the last one, unless that is a branch or call whose slot has just been inserted. */
  ghost predicate Progress(opts: Options, all: seq<Op>, ops: seq<Op>, i: nat)
  {
    && 1 <= i <= |ops|
    && if IsTransfer(ops[i - 1]) then
         i < |ops| && ops[i].Delay? && Filled(opts, all) == ops[..i] + Filled(opts, ops[i..])
       else
         Filled(opts, all) == ops[..i - 1] + Filled(opts, ops[i - 1..])
  }

  lemma Rest(ops: seq<Op>, i: nat)
    requires i < |ops|
    ensures ops[i..] == [ops[i]] + ops[i + 1..] && ops[i..][1..] == ops[i + 1..]
    ensures ops[..i + 1] == ops[..i] + [ops[i]]
  {
  }

  /** Any other operation is passed over. */
  lemma PassOver(opts: Options, all: seq<Op>, ops: seq<Op>, i: nat)
    requires Progress(opts, all, ops, i) && i < |ops| && !IsTransfer(ops[i])
    ensures Progress(opts, all, ops, i + 1)
  {
    if !IsTransfer(ops[i - 1]) {
      Rest(ops, i - 1);
      assert Filled(opts, ops[i - 1..]) == [ops[i - 1]] + Filled(opts, ops[i..]);
    }
    assert ops[..i] == ops[..i - 1] + [ops[i - 1]];
  }

  /** The previous operation moves into the slot. */
  lemma FillStep(opts: Options, all: seq<Op>, ops: seq<Op>, i: nat)
    requires Progress(opts, all, ops, i) && i < |ops| && IsTransfer(ops[i]) && CanFill(opts, ops[i - 1], ops[i])
    ensures Progress(opts, all, ops[i - 1 := ops[i]][i := Delay(ops[i - 1], InfoOf(ops[i]))], i + 1)
  {
    var d := Delay(ops[i - 1], InfoOf(ops[i]));
    var ops' := ops[i - 1 := ops[i]][i := d];
    Rest(ops, i - 1);
    assert ops[i - 1..][2..] == ops[i + 1..] == ops'[i + 1..];
    assert Filled(opts, ops[i - 1..]) == [ops[i], d] + Filled(opts, ops[i + 1..]);
    Rest(ops', i);
    assert Filled(opts, ops'[i..]) == [d] + Filled(opts, ops'[i + 1..]);
    assert ops'[..i] == ops[..i - 1] + [ops[i]];
  }

  lemma FilledTransfer(opts: Options, op: Op, rest: seq<Op>)
    requires IsTransfer(op)
    ensures Filled(opts, [op] + rest) == [op, Delay(Nop, InfoOf(op))] + Filled(opts, rest)
  {
    assert ([op] + rest)[1..] == rest;
  }

  lemma FilledSlot(opts: Options, d: Op, rest: seq<Op>)
    requires d.Delay?
    ensures Filled(opts, [d] + rest) == [d] + Filled(opts, rest)
  {
    assert ([d] + rest)[1..] == rest;
  }

  lemma Regroup(a: seq<Op>, prev: Op, op: Op, d: Op, f: seq<Op>)
    ensures a + ([prev] + ([op, d] + f)) == (a + [prev, op]) + ([d] + f)
  {
  }

  /** A no-op is inserted for the slot. */
  lemma InsertStep(opts: Options, all: seq<Op>, ops: seq<Op>, i: nat)
    requires Progress(opts, all, ops, i) && i < |ops| && IsTransfer(ops[i]) && !CanFill(opts, ops[i - 1], ops[i])
    ensures Progress(opts, all, ops[..i + 1] + [Delay(Nop, InfoOf(ops[i]))] + ops[i + 1..], i + 1)
  {
    var prev, op, rest := ops[i - 1], ops[i], ops[i + 1..];
    var d := Delay(Nop, InfoOf(op));
    Rest(ops, i - 1);
    Rest(ops, i);
    assert Filled(opts, ops[i - 1..]) == [prev] + Filled(opts, ops[i..]);
    FilledTransfer(opts, op, rest);
    FilledSlot(opts, d, rest);
    Regroup(ops[..i - 1], prev, op, d, Filled(opts, rest));
    InsertedParts(ops, i, d);
  }

  lemma InsertedParts(ops: seq<Op>, i: nat, d: Op)
    requires 1 <= i < |ops|
    ensures var ops' := ops[..i + 1] + [d] + ops[i + 1..];
            && ops'[..i + 1] == ops[..i - 1] + [ops[i - 1], ops[i]] && ops'[i + 1..] == [d] + ops[i + 1..]
            && ops'[i] == ops[i] && ops'[i + 1] == d
  {
  }

  // --------------------------------------------------------------------------
  // The pass

  lemma TransfersSplit(ops: seq<Op>, i: nat)
    requires i < |ops|
    ensures Transfers(ops[i..]) == Transfers(ops[i + 1..]) + if IsTransfer(ops[i]) then 1 else 0
  {
    Rest(ops, i);
  }

  class LirList {
    var instructions: seq<Op>

    /** For lists that start with a label. The list grows by one for every slot that is not filled, yet the loop
        ends: it leaves one branch or call fewer, or as many and a shorter rest. */
    method Peephole(opts: Options)
      requires instructions != [] ==> instructions[0].Label?
      modifies this
      ensures instructions == Filled(opts, old(instructions))
    {
      ghost var all := instructions;
      if instructions == [] {
        return;
      }
      var i := 1;
      assert instructions[0..] == instructions;
      while i < |instructions|
        invariant Progress(opts, all, instructions, i)
        decreases Transfers(instructions[i..]), |instructions| - i
      {
        var op := instructions[i];
        TransfersSplit(instructions, i);
        if IsTransfer(op) {
          var prev := instructions[i - 1];
          if CanFill(opts, prev, op) {
            FillStep(opts, all, instructions, i);
            ghost var rest := instructions[i + 1..];
            instructions := instructions[i - 1 := op];
            instructions := instructions[i := Delay(prev, InfoOf(op))];
            assert instructions[i + 1..] == rest;
          } else {
            InsertStep(opts, all, instructions, i);
            ghost var rest := instructions[i + 1..];
            instructions := instructions[..i + 1] + [Delay(Nop, InfoOf(op))] + instructions[i + 1..];
            assert instructions[i + 1..] == [Delay(Nop, InfoOf(op))] + rest;
            assert instructions[i + 1..][1..] == rest;
          }
        } else {
          PassOver(opts, all, instructions, i);
        }
        i := i + 1;
      }
      LoopDone(opts, all, instructions);
    }
  }

  lemma LoopDone(opts: Options, all: seq<Op>, ops: seq<Op>)
    requires Progress(opts, all, ops, |ops|)
    ensures Filled(opts, all) == ops
  {
    var i := |ops|;
    var last := ops[i - 1..];
    assert last == [ops[i - 1]] && last[1..] == [];
    assert Filled(opts, last) == last;
    assert ops == ops[..i - 1] + last;
  }

  // --------------------------------------------------------------------------
  // What goes into the slots

  lemma Associates(x: seq<Op>, y: seq<Op>, z: seq<Op>)
    ensures x + (y + z) == (x + y) + z
  {
  }

  /** The pass works piece by piece: a list may be cut wherever the operation before does not fill the slot of the one
      behind. */
  lemma {:induction false} FilledSplit(opts: Options, a: seq<Op>, b: seq<Op>)
    requires a != [] && b != [] ==> !CanFill(opts, a[|a| - 1], b[0])
    ensures Filled(opts, a + b) == Filled(opts, a) + Filled(opts, b)
    decreases |a|
  {
    if a == [] {
      assert a + b == b;
    } else if |a| >= 2 && CanFill(opts, a[0], a[1]) {
      FilledSplit(opts, a[2..], b);
      assert (a + b)[2..] == a[2..] + b;
      Associates([a[1], Delay(a[0], InfoOf(a[1]))], Filled(opts, a[2..]), Filled(opts, b));
    } else {
      FilledSplit(opts, a[1..], b);
      assert (a + b)[1..] == a[1..] + b;
      Associates(if IsTransfer(a[0]) then [a[0], Delay(Nop, InfoOf(a[0]))] else [a[0]],
                 Filled(opts, a[1..]), Filled(opts, b));
    }
  }

  /** What a slot may hold: without the option nothing; before a branch, which must be to a block, any single
      instruction; before a call a single move, and for a virtual call not one into the receiver's register. Nothing
      that has debug information. */
  ghost predicate SlotRule(opts: Options, op: Op, slot: Op)
  {
    && opts.fillDelaySlots && IsSingleInstruction(opts, slot) && InfoOf(slot) == None
    && (op.Branch? ==> op.toBlock) && (op.Call? ==> slot.Move?)
    && !(op.Call? && op.call == VirtualCall && slot.Move? && slot.dst.SingleCpu? && slot.dst.reg == O0)
  }

  lemma RuleIsTest(opts: Options, op: Op, prev: Op)
    requires IsTransfer(op)
    ensures SlotRule(opts, op, prev) <==> CanFill(opts, prev, op)
  {
  }

  lemma SlotFilled(opts: Options, a: seq<Op>, prev: Op, op: Op, b: seq<Op>)
    requires IsTransfer(op) && !IsTransfer(prev) && CanFill(opts, prev, op)
    ensures Filled(opts, a + [prev, op] + b) == Filled(opts, a) + [op, Delay(prev, InfoOf(op))] + Filled(opts, b)
  {
    assert a + [prev, op] + b == a + ([prev, op] + b);
    FilledSplit(opts, a, [prev, op] + b);
    assert ([prev, op] + b)[2..] == b;
  }

  lemma SlotNotFilled(opts: Options, a: seq<Op>, prev: Op, op: Op, b: seq<Op>)
    requires IsTransfer(op) && !IsTransfer(prev) && !CanFill(opts, prev, op)
    ensures Filled(opts, a + [prev, op] + b)
         == Filled(opts, a + [prev]) + [op, Delay(Nop, InfoOf(op))] + Filled(opts, b)
  {
    assert a + [prev, op] + b == (a + [prev]) + ([op] + b);
    FilledSplit(opts, a + [prev], [op] + b);
    FilledTransfer(opts, op, b);
  }

  /** The slot of a branch or call gets the operation before it exactly by these rules, and a no-op otherwise; the rest
      of the list is filled on its own. */
  lemma SlotFilledIff(opts: Options, a: seq<Op>, prev: Op, op: Op, b: seq<Op>)
    requires IsTransfer(op) && !IsTransfer(prev)
    ensures Filled(opts, a + [prev, op] + b) ==
              if SlotRule(opts, op, prev) then
                Filled(opts, a) + [op, Delay(prev, InfoOf(op))] + Filled(opts, b)
              else
                Filled(opts, a + [prev]) + [op, Delay(Nop, InfoOf(op))] + Filled(opts, b)
  {
    RuleIsTest(opts, op, prev);
    if SlotRule(opts, op, prev) {
      SlotFilled(opts, a, prev, op, b);
    } else {
      SlotNotFilled(opts, a, prev, op, b);
    }
  }

  /** Every slot holds a no-op or an operation of the list that the rules allow there. */
  lemma {:induction false} SlotsFollowRules(opts: Options, ops: seq<Op>, i: nat)
    requires NoDelays(ops) && i < |Filled(opts, ops)| && Filled(opts, ops)[i].Delay?
    ensures i > 0 && IsTransfer(Filled(opts, ops)[i - 1])
    ensures var slot := Filled(opts, ops)[i].op;
            slot == Nop || (slot in ops && SlotRule(opts, Filled(opts, ops)[i - 1], slot))
    decreases |ops|
  {
    if |ops| >= 2 && CanFill(opts, ops[0], ops[1]) {
      if i >= 2 {
        SlotsFollowRules(opts, ops[2..], i - 2);
      }
    } else if IsTransfer(ops[0]) {
      if i >= 2 {
        SlotsFollowRules(opts, ops[1..], i - 2);
      }
    } else {
      SlotsFollowRules(opts, ops[1..], i - 1);
    }
  }

  // --------------------------------------------------------------------------
  // Where delay slots are

  ghost predicate NoDelays(ops: seq<Op>)
  {
    forall i :: 0 <= i < |ops| ==> !ops[i].Delay?
  }

  /** Every branch and call is followed by a slot with its information, and there are no other slots. */
  ghost predicate WellDelayed(ops: seq<Op>)
  {
    && (ops != [] ==> !ops[0].Delay?)
    && forall i :: 0 <= i < |ops| ==> Delayed(ops, i)
  }

  ghost predicate Delayed(ops: seq<Op>, i: nat)
    requires i < |ops|
  {
    if IsTransfer(ops[i]) then i + 1 < |ops| && ops[i + 1].Delay? && ops[i + 1].delayInfo == InfoOf(ops[i])
    else i + 1 < |ops| ==> !ops[i + 1].Delay?
  }

  lemma WellDelayedPrepend(head: seq<Op>, tail: seq<Op>)
    requires WellDelayed(head) && WellDelayed(tail)
    ensures WellDelayed(head + tail)
  {
    var ops := head + tail;
    forall i | 0 <= i < |ops| ensures Delayed(ops, i) {
      if i < |head| {
        assert Delayed(head, i);
      } else {
        assert Delayed(tail, i - |head|);
      }
    }
  }

  lemma {:induction false} FilledWellDelayed(opts: Options, ops: seq<Op>)
    requires NoDelays(ops)
    ensures WellDelayed(Filled(opts, ops))
    decreases |ops|
  {
    if ops != [] {
      if |ops| >= 2 && CanFill(opts, ops[0], ops[1]) {
        FilledWellDelayed(opts, ops[2..]);
        WellDelayedPrepend([ops[1], Delay(ops[0], InfoOf(ops[1]))], Filled(opts, ops[2..]));
      } else if IsTransfer(ops[0]) {
        FilledWellDelayed(opts, ops[1..]);
        WellDelayedPrepend([ops[0], Delay(Nop, InfoOf(ops[0]))], Filled(opts, ops[1..]));
      } else {
        FilledWellDelayed(opts, ops[1..]);
        WellDelayedPrepend([ops[0]], Filled(opts, ops[1..]));
      }
    }
  }

  // --------------------------------------------------------------------------
  // Undoing the pass

  /** Pulls every delayed operation back before its branch or call, and drops the no-ops. */
  function PulledBack(ops: seq<Op>): seq<Op> {
    if |ops| >= 2 && ops[1].Delay? then
      (if ops[1].op == Nop then [ops[0]] else [ops[1].op, ops[0]]) + PulledBack(ops[2..])
    else if ops == [] then []
    else [ops[0]] + PulledBack(ops[1..])
  }

  lemma {:induction false} FilledHead(opts: Options, ops: seq<Op>)
    requires NoDelays(ops) && ops != []
    ensures Filled(opts, ops) != [] && !Filled(opts, ops)[0].Delay?
  {
  }

  /** Nothing is lost, added or reordered but for the slots: the original list comes back. */
  lemma {:induction false} PullBackInverse(opts: Options, ops: seq<Op>)
    requires NoDelays(ops)
    ensures PulledBack(Filled(opts, ops)) == ops
    decreases |ops|
  {
    if ops != [] {
      var f := Filled(opts, ops);
      if |ops| >= 2 && CanFill(opts, ops[0], ops[1]) {
        PullBackInverse(opts, ops[2..]);
        assert f[2..] == Filled(opts, ops[2..]);
        assert ops == [ops[0], ops[1]] + ops[2..];
      } else if IsTransfer(ops[0]) {
        PullBackInverse(opts, ops[1..]);
        assert f[2..] == Filled(opts, ops[1..]);
        assert ops == [ops[0]] + ops[1..];
      } else {
        PullBackInverse(opts, ops[1..]);
        assert f[1..] == Filled(opts, ops[1..]);
        assert ops == [ops[0]] + ops[1..];
        if |ops| > 1 {
          FilledHead(opts, ops[1..]);
          assert f[1] == f[1..][0];
        }
      }
    }
  }

  // --------------------------------------------------------------------------
  // Execution

  /** What the machine does with each operation, over any kind of state. A branch decides by the condition codes. A
      virtual call fetches its target from the receiver before its slot is executed; other calls fetch nothing. */
  datatype Semantics<!S, !C, !V> = Semantics(
    effect: (Op, S) -> S,
    codes: S -> C,
    taken: (Op, C) -> bool,
    receiver: S -> V,
    invoke: (Op, Option<V>, S) -> S
  )

  /** Single instructions do not set the condition codes, single moves elsewhere keep the receiver, and no-ops do
      nothing. */
  ghost predicate Respects<S(!new), C, V>(opts: Options, m: Semantics<S, C, V>)
  {
    && (forall op, s :: IsSingleInstruction(opts, op) ==> m.codes(m.effect(op, s)) == m.codes(s))
    && (forall op: Op, s :: op.Move? && IsSingleInstruction(opts, op) && !WritesO0(op) ==>
          m.receiver(m.effect(op, s)) == m.receiver(s))
    && (forall s :: m.effect(Nop, s) == s)
  }

  /** The registers and condition codes of a machine, and the rest of its state. */
  datatype Registers<M> = Registers(codes: nat, cpu: nat -> int, rest: M)

  /** The integer registers that an operation writes: those of its result, a long in two of them. */
  function Written(op: Op): set<nat> {
    var result := if op.Move? then op.dst else if op.Arith? then op.result else Illegal;
    match result
    case SingleCpu(reg, _) => {reg}
    case DoubleCpu(reg, _) => {reg, reg + 1}
    case _ => {}
  }

  /** A machine whose operations write no register but those of their results, and set the condition codes only in
      operations other than moves, null checks, shifts and additions, respects the rules; long moves into the receiver's
      register are among its operations. */
  lemma RegisterMachineRespects<M(!new)>(opts: Options, effect: (Op, Registers<M>) -> Registers<M>,
                                         taken: (Op, nat) -> bool,
                                         invoke: (Op, Option<int>, Registers<M>) -> Registers<M>)
    requires forall op: Op, s, r :: (op.Move? || op.Arith? || op.NullCheck?) && r !in Written(op) ==>
               effect(op, s).cpu(r) == s.cpu(r)
    requires forall op: Op, s :: op.Move? || op.Arith? || op.NullCheck? ==> effect(op, s).codes == s.codes
    requires forall s :: effect(Nop, s) == s
    ensures Respects(opts, Semantics(effect, (s: Registers<M>) => s.codes, taken, (s: Registers<M>) => s.cpu(O0),
                                     invoke))
  {
    var m := Semantics(effect, (s: Registers<M>) => s.codes, taken, (s: Registers<M>) => s.cpu(O0), invoke);
    forall op: Op, s | op.Move? && IsSingleInstruction(opts, op) && !WritesO0(op)
      ensures m.receiver(m.effect(op, s)) == m.receiver(s)
    {
      assert O0 !in Written(op);
    }
  }

  /** Execution continues with the operations in rest, or has left the list for a label that is not in it. */
  datatype Config<S> = At(rest: seq<Op>, s: S) | Left(exit: nat, s: S)

  /** The list from a label on. */
  function FromLabel(ops: seq<Op>, id: nat): Option<seq<Op>> {
    if ops == [] then None
    else if ops[0] == Label(id) then Some(ops)
    else FromLabel(ops[1..], id)
  }

  function Jump<S>(all: seq<Op>, id: nat, s: S): Config<S> {
    match FromLabel(all, id)
    case None => Left(id, s)
    case Some(rest) => At(rest, s)
  }

  function Fetched<S, C, V>(m: Semantics<S, C, V>, op: Op, s: S): Option<V> {
    if op.Call? && op.call == VirtualCall then Some(m.receiver(s)) else None
  }

  predicate Halted<S>(c: Config<S>) {
    c.Left? || c.rest == []
  }

  /** One operation in order. */
  function InOrder<S, C, V>(m: Semantics<S, C, V>, all: seq<Op>, c: Config<S>): Config<S> {
    if Halted(c) then c
    else
      var op, next, s := c.rest[0], c.rest[1..], c.s;
      match op
      case Branch(_, _, target, _) => if m.taken(op, m.codes(s)) then Jump(all, target, s) else At(next, s)
      case Call(_, _, _) => At(next, m.invoke(op, Fetched(m, op, s), s))
      case _ => At(next, m.effect(op, s))
  }

  /** One operation with delay slots: a branch or call decides or fetches first, then its slot is executed, then it
      takes effect. */
  function WithSlots<S, C, V>(m: Semantics<S, C, V>, all: seq<Op>, c: Config<S>): Config<S> {
    if Halted(c) then c
    else
      var op, next, s := c.rest[0], c.rest[1..], c.s;
      if IsTransfer(op) && next != [] && next[0].Delay? then
        var s' := m.effect(next[0].op, s);
        if op.Call? then At(next[1..], m.invoke(op, Fetched(m, op, s), s'))
        else if m.taken(op, m.codes(s)) then Jump(all, op.target, s')
        else At(next[1..], s')
      else At(next, m.effect(op, s))
  }

  function RunInOrder<S, C, V>(m: Semantics<S, C, V>, all: seq<Op>, c: Config<S>, n: nat): Config<S>
    decreases n
  {
    if n == 0 then c else RunInOrder(m, all, InOrder(m, all, c), n - 1)
  }

  function RunWithSlots<S, C, V>(m: Semantics<S, C, V>, all: seq<Op>, c: Config<S>, n: nat): Config<S>
    decreases n
  {
    if n == 0 then c else RunWithSlots(m, all, WithSlots(m, all, c), n - 1)
  }

  // --------------------------------------------------------------------------
  // The two executions agree

  /** The same place in the original and the filled list. */
  function Image<S>(opts: Options, c: Config<S>): Config<S> {
    match c
    case At(rest, s) => At(Filled(opts, rest), s)
    case Left(_, _) => c
  }

  /** A label starts the same part of both lists. */
  lemma {:induction false} FromLabelFilled(opts: Options, ops: seq<Op>, id: nat)
    requires NoDelays(ops)
    ensures FromLabel(Filled(opts, ops), id)
         == match FromLabel(ops, id) case None => None case Some(rest) => Some(Filled(opts, rest))
    decreases |ops|
  {
    if ops != [] {
      var f := Filled(opts, ops);
      if |ops| >= 2 && CanFill(opts, ops[0], ops[1]) {
        FromLabelFilled(opts, ops[2..], id);
        assert f[1..][1..] == Filled(opts, ops[2..]);
        assert ops[1..][1..] == ops[2..];
      } else if IsTransfer(ops[0]) {
        FromLabelFilled(opts, ops[1..], id);
        assert f[1..][1..] == Filled(opts, ops[1..]);
      } else {
        FromLabelFilled(opts, ops[1..], id);
        assert f[1..] == Filled(opts, ops[1..]);
      }
    }
  }

  lemma {:induction false} FromLabelNoDelays(ops: seq<Op>, id: nat)
    requires NoDelays(ops)
    ensures FromLabel(ops, id).Some? ==> NoDelays(FromLabel(ops, id).value)
  {
    if ops != [] && ops[0] != Label(id) {
      FromLabelNoDelays(ops[1..], id);
    }
  }

  lemma JumpFilled<S>(opts: Options, all: seq<Op>, id: nat, s: S)
    requires NoDelays(all)
    ensures Jump(Filled(opts, all), id, s) == Image(opts, Jump(all, id, s)) && Clean(Jump(all, id, s))
  {
    FromLabelFilled(opts, all, id);
    FromLabelNoDelays(all, id);
  }

  ghost predicate Clean<S>(c: Config<S>)
  {
    c.At? ==> NoDelays(c.rest)
  }

  /** How many operations of the original list the next step of the filled list stands for. */
  function Width<S>(opts: Options, c: Config<S>): nat {
    if c.At? && |c.rest| >= 2 && CanFill(opts, c.rest[0], c.rest[1]) then 2 else 1
  }

  /** A step of the filled list does what one or two operations of the original list do. */
  lemma StepAgrees<S(!new), C, V>(opts: Options, m: Semantics<S, C, V>, all: seq<Op>, c: Config<S>)
    requires NoDelays(all) && Clean(c) && Respects(opts, m)
    ensures var c' := RunInOrder(m, all, c, Width(opts, c));
            Clean(c') && WithSlots(m, Filled(opts, all), Image(opts, c)) == Image(opts, c')
  {
    if !Halted(c) {
      if Width(opts, c) == 2 {
        FilledStep(opts, m, all, c);
      } else {
        PlainStep(opts, m, all, c);
      }
      assert Width(opts, c) == 1 ==> RunInOrder(m, all, c, 1) == InOrder(m, all, c);
    }
  }

  lemma PlainStep<S(!new), C, V>(opts: Options, m: Semantics<S, C, V>, all: seq<Op>, c: Config<S>)
    requires NoDelays(all) && Clean(c) && Respects(opts, m) && !Halted(c) && Width(opts, c) == 1
    ensures var c' := InOrder(m, all, c);
            Clean(c') && WithSlots(m, Filled(opts, all), Image(opts, c)) == Image(opts, c')
  {
    var op, next := c.rest[0], c.rest[1..];
    assert c.rest == [op] + next;
    if IsTransfer(op) {
      FilledTransfer(opts, op, next);
      TransferStep(opts, m, all, c, op, next);
    } else {
      assert Filled(opts, c.rest)[1..] == Filled(opts, next);
    }
  }

  lemma TransferStep<S(!new), C, V>(opts: Options, m: Semantics<S, C, V>, all: seq<Op>, c: Config<S>, op: Op,
                                    next: seq<Op>)
    requires NoDelays(all) && Clean(c) && Respects(opts, m) && c.At? && c.rest == [op] + next && IsTransfer(op)
    requires Filled(opts, c.rest) == [op, Delay(Nop, InfoOf(op))] + Filled(opts, next)
    ensures var c' := InOrder(m, all, c);
            Clean(c') && WithSlots(m, Filled(opts, all), Image(opts, c)) == Image(opts, c')
  {
    var f := Filled(opts, c.rest);
    assert f[1..][0] == Delay(Nop, InfoOf(op)) && f[1..][1..] == Filled(opts, next);
    assert c.rest[1..] == next;
    if op.Branch? {
      JumpFilled(opts, all, op.target, c.s);
    }
  }

  lemma FilledStep<S(!new), C, V>(opts: Options, m: Semantics<S, C, V>, all: seq<Op>, c: Config<S>)
    requires NoDelays(all) && Clean(c) && Respects(opts, m) && !Halted(c) && Width(opts, c) == 2
    ensures var c' := RunInOrder(m, all, c, 2);
            Clean(c') && WithSlots(m, Filled(opts, all), Image(opts, c)) == Image(opts, c')
  {
    var prev, op, next := c.rest[0], c.rest[1], c.rest[2..];
    var f := Filled(opts, c.rest);
    assert f == [op, Delay(prev, InfoOf(op))] + Filled(opts, next);
    assert f[1..][1..] == Filled(opts, next);
    var s' := m.effect(prev, c.s);
    var c1 := InOrder(m, all, c);
    assert c1 == At(c.rest[1..], s');
    assert c.rest[1..][1..] == next;
    assert RunInOrder(m, all, c, 2) == RunInOrder(m, all, c1, 1) == InOrder(m, all, c1);
    if op.Branch? {
      JumpFilled(opts, all, op.target, s');
    }
  }

  lemma {:induction false} RunTrans<S, C, V>(m: Semantics<S, C, V>, all: seq<Op>, c: Config<S>, j: nat, k: nat)
    ensures RunInOrder(m, all, RunInOrder(m, all, c, j), k) == RunInOrder(m, all, c, j + k)
    decreases j
  {
    if j > 0 {
      RunTrans(m, all, InOrder(m, all, c), j - 1, k);
    }
  }

  lemma {:induction false} HaltedStays<S, C, V>(m: Semantics<S, C, V>, all: seq<Op>, c: Config<S>, n: nat)
    requires Halted(c)
    ensures RunInOrder(m, all, c, n) == c
    decreases n
  {
    if n > 0 {
      HaltedStays(m, all, c, n - 1);
    }
  }

  /** Every run of the filled list is a run of the original list, at least as long. */
  lemma {:induction false} RunAgrees<S(!new), C, V>(opts: Options, m: Semantics<S, C, V>, all: seq<Op>,
                                                    c: Config<S>, n: nat)
    returns (k: nat)
    requires NoDelays(all) && Clean(c) && Respects(opts, m)
    ensures k >= n
    ensures RunWithSlots(m, Filled(opts, all), Image(opts, c), n) == Image(opts, RunInOrder(m, all, c, k))
    decreases n
  {
    k := 0;
    if n > 0 {
      var w := Width(opts, c);
      StepAgrees(opts, m, all, c);
      var c' := RunInOrder(m, all, c, w);
      var k' := RunAgrees(opts, m, all, c', n - 1);
      RunTrans(m, all, c, w, k');
      k := w + k';
    }
  }

  ghost predicate EndsInOrder<S, C, V>(m: Semantics<S, C, V>, all: seq<Op>, c: Config<S>, r: Config<S>)
  {
    Halted(r) && exists n :: RunInOrder(m, all, c, n) == r
  }

  ghost predicate EndsWithSlots<S, C, V>(m: Semantics<S, C, V>, all: seq<Op>, c: Config<S>, r: Config<S>)
  {
    Halted(r) && exists n :: RunWithSlots(m, all, c, n) == r
  }

  lemma ImageHalted<S>(opts: Options, c: Config<S>)
    ensures Halted(Image(opts, c)) <==> Halted(c)
    ensures Halted(c) ==> Image(opts, c) == c
  {
    if c.At? && c.rest != [] {
      assert Filled(opts, c.rest) != [];
    }
  }

  /** For every list, every start state and every machine that respects the rules for slots: the filled
      list ends exactly when the original one does, in the same state and at the same exit. */
  lemma PassPreservesMeaning<S(!new), C, V>(opts: Options, m: Semantics<S, C, V>, all: seq<Op>, s: S, r: Config<S>)
    requires NoDelays(all) && Respects(opts, m)
    ensures EndsInOrder(m, all, At(all, s), r)
       <==> EndsWithSlots(m, Filled(opts, all), At(Filled(opts, all), s), r)
  {
    var c := At(all, s);
    var f := Filled(opts, all);
    assert Image(opts, c) == At(f, s);
    if EndsInOrder(m, all, c, r) {
      var n :| RunInOrder(m, all, c, n) == r;
      var k := RunAgrees(opts, m, all, c, n);
      RunTrans(m, all, c, n, k - n);
      HaltedStays(m, all, r, k - n);
      ImageHalted(opts, r);
      assert RunWithSlots(m, f, At(f, s), n) == r;
    }
    if EndsWithSlots(m, f, At(f, s), r) {
      var n :| RunWithSlots(m, f, At(f, s), n) == r;
      var k := RunAgrees(opts, m, all, c, n);
      ImageHalted(opts, RunInOrder(m, all, c, k));
      assert RunInOrder(m, all, c, k) == r;
    }
  }
}
