/**
  Branch displacements: reading the destination of a branch or call instruction and patching in a
  new one. An instruction is a 32-bit word; masks and shifts are written as remainders and quotients by
  powers of two. A position is a signed 32-bit offset in the code.
 */
module BranchPatch {
  import opened Words
  import opened Wrappers
  import opened Arithmetic
  import opened SparcMachine

  /** The displacement fields: 30 bits of a call, 16 bits in two parts of a branch on a register, 19 bits of a
      branch with prediction, 22 bits of a branch without. */
  datatype Format = Call30 | Split16 | Predicted19 | Plain22

  /** Branches and calls by their op and op2 fields; nothing else can be patched. */
  function FormatOf(inst: int): Option<Format> {
    if inst / 0x4000_0000 == 1 then Some(Call30)
    else if inst / 0x4000_0000 != 0 then None
    else
      var op2 := inst / 0x40_0000 % 8;
      if op2 == 3 then Some(Split16)
      else if op2 == 5 || op2 == 1 then Some(Predicted19)
      else if op2 == 6 || op2 == 2 || op2 == 7 then Some(Plain22)
      else None
  }

  // --------------------------------------------------------------------------
  // Displacement fields

  /** Two to the number of bits of the field. */
  function Size(f: Format): int {
    match f
    case Call30 => 0x4000_0000
    case Split16 => 0x1_0000
    case Predicted19 => 0x8_0000
    case Plain22 => 0x40_0000
  }

  /** A byte displacement as a field value. */
  function Wdisp(f: Format, disp: int): nat {
    if f == Split16 then disp / 4 % 0x4000 + disp / 0x1_0000 % 4 * 0x10_0000
    else disp / 4 % Size(f)
  }

  function SignExtend(x: int, half: int): int {
    if x >= half then x - 2 * half else x
  }

  /** The byte displacement in an instruction, its field sign-extended. */
  function InvWdisp(f: Format, inst: int): int {
    if f == Split16 then (SignExtend(inst / 0x10_0000 % 4, 2) * 0x4000 + inst % 0x4000) * 4
    else SignExtend(inst % Size(f), Size(f) / 2) * 4
  }

  /** The instruction with a displacement field of zeros. */
  function Outside(f: Format, inst: int): int {
    if f == Split16 then inst - inst % 0x4000 - inst / 0x10_0000 % 4 * 0x10_0000
    else inst - inst % Size(f)
  }

  function PatchedBranch(dest: int, inst: int, pos: int): Option<int> {
    match FormatOf(inst)
    case None => None
    case Some(f) => Some(Outside(f, inst) + Wdisp(f, dest - pos))
  }

  function BranchDestination(inst: int, pos: int): Option<int> {
    match FormatOf(inst)
    case None => None
    case Some(f) => Some(Signed(InvWdisp(f, inst) + pos))
  }

  /** The displacement, as a 32-bit number, is a multiple of four and in the range of the field. */
  predicate Fits(f: Format, disp: int) {
    disp % 4 == 0 && -2 * Size(f) <= Signed(disp) < 2 * Size(f)
  }

  // --------------------------------------------------------------------------
  // Numbers modulo a power of two

  /** A number in the range of a field is read back from it. */
  lemma SignExtendInverse(u: int, half: int)
    requires half > 0 && -half <= u < half
    ensures SignExtend(u % (2 * half), half) == u
  {
    if u >= 0 {
      ModUnique(u, 2 * half, 0, u);
    } else {
      ModUnique(u, 2 * half, -1, u + 2 * half);
    }
  }

  lemma SignExtendRange(u: int, half: int)
    requires half > 0
    ensures -half <= SignExtend(u % (2 * half), half) < half
  {
  }

  lemma Truncation(x: int)
    ensures IsInt(Signed(x)) && (x - Signed(x)) % W32 == 0
  {
  }

  lemma TruncationUnique(x: int, t: int)
    requires IsInt(t) && (x - t) % W32 == 0
    ensures Signed(x) == t
  {
  }

  /** The field of a displacement, whole: sixteen bits are also put together from two and fourteen. */
  function Field(f: Format, disp: int): int {
    disp / 4 % Size(f)
  }

  /** The displacement read back, as it was put in. */
  function ReadBack(f: Format, disp: int): int {
    SignExtend(Field(f, disp), Size(f) / 2) * 4
  }

  /** What is read back is the displacement exactly when it fits. */
  lemma FieldInverse(f: Format, disp: int)
    ensures (ReadBack(f, disp) - disp) % W32 == 0 <==> Fits(f, disp)
  {
    if (ReadBack(f, disp) - disp) % W32 == 0 {
      ReadBackRange(f, disp);
      TruncatedField(ReadBack(f, disp), disp);
    } else if Fits(f, disp) {
      FittingReadBack(f, disp);
    }
  }

  lemma ReadBackRange(f: Format, disp: int)
    ensures ReadBack(f, disp) % 4 == 0 && -2 * Size(f) <= ReadBack(f, disp) < 2 * Size(f)
  {
    SignExtendRange(disp / 4, Size(f) / 2);
  }

  lemma FittingReadBack(f: Format, disp: int)
    requires Fits(f, disp)
    ensures ReadBack(f, disp) == Signed(disp) && (Signed(disp) - disp) % W32 == 0
  {
    var t := Signed(disp);
    TruncationBack(disp);
    FittingField(f, disp, t);
    var half := Size(f) / 2;
    assert 2 * half == Size(f) && -half <= t / 4 < half;
    SignExtendInverse(t / 4, half);
  }

  lemma TruncationBack(x: int)
    ensures (Signed(x) - x) % W32 == 0
  {
  }

  lemma TruncatedField(x: int, disp: int)
    requires (x - disp) % W32 == 0 && x % 4 == 0 && IsInt(x)
    ensures disp % 4 == 0 && Signed(disp) == x
  {
    var k := (x - disp) / W32;
    assert disp == x + W32 * -k;
    AddMultiple(x, W32, -k);
    AddMultiple(x, 4, 0x4000_0000 * -k);
  }

  lemma FittingField(f: Format, disp: int, t: int)
    requires disp % 4 == 0 && t == Signed(disp)
    ensures t % 4 == 0 && Field(f, disp) == t / 4 % Size(f)
  {
    var k := (disp - t) / W32;
    WordsApart(disp, t, k);
    var c := 0x4000_0000 / Size(f);
    assert Size(f) * c == 0x4000_0000;
    assert Size(f) * (c * k) == (Size(f) * c) * k;
    AddMultiple(t / 4, Size(f), c * k);
  }

  lemma WordsApart(disp: int, t: int, k: int)
    requires disp % 4 == 0 && t == Signed(disp) && k == (disp - t) / W32
    ensures t % 4 == 0 && disp / 4 == t / 4 + 0x4000_0000 * k
  {
    Truncation(disp);
    assert t == 4 * (disp / 4 - 0x4000_0000 * k);
    ModUnique(t, 4, disp / 4 - 0x4000_0000 * k, 0);
  }

  // --------------------------------------------------------------------------
  // The field and the rest of the instruction

  /** An instruction word as its four parts around the split field. */
  lemma SplitDigits(low: int, mid: int, high: int, top: int)
    requires 0 <= low < 0x4000 && 0 <= mid < 64 && 0 <= high < 4
    ensures var p := low + 0x4000 * mid + 0x10_0000 * high + 0x40_0000 * top;
            && p % 0x4000 == low && p / 0x10_0000 % 4 == high && p / 0x40_0000 == top
            && Outside(Split16, p) == 0x4000 * mid + 0x40_0000 * top
  {
    var p := low + 0x4000 * mid + 0x10_0000 * high + 0x40_0000 * top;
    ModUnique(p, 0x4000, mid + 64 * high + 256 * top, low);
    ModUnique(p, 0x10_0000, high + 4 * top, low + 0x4000 * mid);
    ModUnique(high + 4 * top, 4, top, high);
    ModUnique(p, 0x40_0000, top, low + 0x4000 * mid + 0x10_0000 * high);
  }

  lemma SplitParts(inst: int) returns (low: int, mid: int, high: int, top: int)
    ensures inst == low + 0x4000 * mid + 0x10_0000 * high + 0x40_0000 * top
    ensures 0 <= low < 0x4000 && 0 <= mid < 64 && 0 <= high < 4
  {
    var a := inst / 0x4000;
    var b := a / 64;
    low, mid, high, top := inst % 0x4000, a % 64, b % 4, b / 4;
  }

  /** The two parts of the split field together. */
  lemma SplitWhole(w: int)
    ensures w / 0x4000 % 4 * 0x4000 + w % 0x4000 == w % 0x1_0000
    ensures SignExtend(w / 0x4000 % 4, 2) * 0x4000 + w % 0x4000 == SignExtend(w % 0x1_0000, 0x8000)
  {
    var high, low := w / 0x4000, w % 0x4000;
    assert w == high / 4 * 0x1_0000 + (high % 4 * 0x4000 + low);
    ModUnique(w, 0x1_0000, high / 4, high % 4 * 0x4000 + low);
  }

  lemma QuarterTwice(disp: int)
    ensures disp / 0x1_0000 == disp / 4 / 0x4000
  {
  }

  /** The field of a patched instruction is the one put in, and all else is as before. */
  lemma PatchedParts(f: Format, inst: int, disp: int)
    ensures var p := Outside(f, inst) + Wdisp(f, disp);
            && InvWdisp(f, p) == ReadBack(f, disp)
            && Outside(f, p) == Outside(f, inst)
  {
    if f == Split16 {
      var low, mid, high, top := SplitParts(inst);
      SplitDigits(low, mid, high, top);
      QuarterTwice(disp);
      SplitDigits(disp / 4 % 0x4000, mid, disp / 4 / 0x4000 % 4, top);
      SplitWhole(disp / 4);
    } else {
      ModUnique(Outside(f, inst) + Wdisp(f, disp), Size(f), inst / Size(f), Wdisp(f, disp));
    }
  }

  /** Fields end below the bits that tell the format. */
  lemma FormatFromTop(inst: int, p: int)
    requires inst / 0x40_0000 == p / 0x40_0000
    ensures FormatOf(inst) == FormatOf(p)
  {
    TopTwice(inst);
    TopTwice(p);
  }

  lemma TopTwice(inst: int)
    ensures inst / 0x4000_0000 == inst / 0x40_0000 / 256
  {
  }

  lemma SmallerField(inst: int, p: int)
    requires inst / 0x8_0000 == p / 0x8_0000
    ensures inst / 0x40_0000 == p / 0x40_0000
  {
    assert inst / 0x40_0000 == inst / 0x8_0000 / 8 && p / 0x40_0000 == p / 0x8_0000 / 8;
  }

  lemma PatchedFormat(f: Format, inst: int, disp: int)
    requires FormatOf(inst) == Some(f)
    ensures FormatOf(Outside(f, inst) + Wdisp(f, disp)) == Some(f)
  {
    var p := Outside(f, inst) + Wdisp(f, disp);
    if f == Split16 {
      var low, mid, high, top := SplitParts(inst);
      SplitDigits(low, mid, high, top);
      SplitDigits(disp / 4 % 0x4000, mid, disp / 0x1_0000 % 4, top);
      FormatFromTop(inst, p);
    } else {
      ModUnique(p, Size(f), inst / Size(f), Wdisp(f, disp));
      if f == Predicted19 {
        SmallerField(inst, p);
      }
      if f != Call30 {
        FormatFromTop(inst, p);
      }
    }
  }

  // --------------------------------------------------------------------------
  // The masks of the code

  function Bits(f: Format): nat {
    match f
    case Call30 => 30
    case Split16 => 16
    case Predicted19 => 19
    case Plain22 => 22
  }

  lemma FieldPowers()
    ensures Pow2(2) == 4 && Pow2(6) == 64 && Pow2(8) == 256 && Pow2(10) == 0x400 && Pow2(13) == 0x2000
    ensures Pow2(14) == 0x4000 && Pow2(19) == 0x8_0000 && Pow2(22) == 0x40_0000 && Pow2(30) == 0x4000_0000
  {
    assert Pow2(2) == 4 && Pow2(3) == 8 && Pow2(6) == 64;
    Pow2Add(6, 2);
    Pow2Add(8, 2);
    Pow2Add(10, 3);
    Pow2Add(8, 6);
    Pow2Add(13, 6);
    Pow2Add(14, 8);
    Pow2Add(22, 8);
  }

  lemma KeepAll(x: nat, k: nat)
    requires x < Pow2(k)
    ensures BitAnd(x, Pow2(k) - 1) == x
  {
    AndMask(x, k);
    ModUnique(x, Pow2(k), 0, x);
  }

  /** The complement of the low k bits of a word clears them. */
  lemma ClearLow(r: nat, q: nat, k: nat, j: nat)
    requires r < Pow2(k) && q < Pow2(j)
    ensures BitAnd(r + Times(k, q), Times(k, Pow2(j) - 1)) == Times(k, q)
  {
    AndParts(r, 0, q, Pow2(j) - 1, k);
    KeepAll(q, j);
  }

  /** The mask of a field: the displacement of all ones. */
  function Mask(f: Format): nat {
    Wdisp(f, -4)
  }

  function Masked(f: Format, inst: nat, v: nat): nat
    requires Mask(f) < W32
  {
    BitOr(BitAnd(inst, W32 - 1 - Mask(f)), v)
  }

  lemma MaskValue(f: Format)
    ensures Mask(f) == if f == Split16 then 0x3f_ffff - 0xf_c000 else Size(f) - 1
  {
  }

  /** A field of k bits at the end of a word of k + j bits. */
  lemma LowField(r: nat, q: nat, v: nat, k: nat, j: nat)
    requires r < Pow2(k) && q < Pow2(j) && v < Pow2(k)
    ensures BitOr(BitAnd(r + Times(k, q), Times(k, Pow2(j) - 1)), v) == Times(k, q) + v
  {
    ClearLow(r, q, k, j);
    TimesMod(k, q);
    OrDisjoint(Times(k, q), v, k);
  }

  lemma WholeMask(f: Format, inst: nat, v: nat)
    requires f != Split16 && inst < W32 && v < Size(f)
    ensures Mask(f) < W32 && Masked(f, inst, v) == Outside(f, inst) + v
  {
    FieldPowers();
    MaskValue(f);
    var k, j := Bits(f), 32 - Bits(f);
    var r, q := inst % Size(f), inst / Size(f);
    assert q < Pow2(j);
    TimesValue(k, q);
    TimesValue(k, Pow2(j) - 1);
    LowField(r, q, v, k, j);
    assert inst == r + Size(f) * q && Size(f) * (Pow2(j) - 1) == W32 - Size(f);
  }

  lemma AndQuarter(low: nat, h: nat, n: nat)
    requires low < 4
    ensures BitAnd(low + 4 * h, 4 * n) == 4 * BitAnd(h, n)
  {
    FieldPowers();
    AndParts(low, 0, h, n, 2);
    TimesValue(2, h);
    TimesValue(2, n);
    TimesValue(2, BitAnd(h, n));
  }

  lemma And4(high: nat, top: nat)
    requires high < 4 && top < 0x400
    ensures BitAnd(high + 4 * top, 4 * 0x3ff) == 4 * top
  {
    AndQuarter(high, top, 0x3ff);
    assert BitAnd(top, 0x3ff) == top by {
      FieldPowers();
      KeepAll(top, 10);
    }
  }

  lemma And64(mid: nat, h: nat, n: nat)
    requires mid < 64
    ensures BitAnd(mid + 64 * h, 63 + 64 * n) == mid + 64 * BitAnd(h, n)
  {
    FieldPowers();
    KeepAll(mid, 6);
    AndParts(mid, 63, h, n, 6);
    TimesValue(6, h);
    TimesValue(6, n);
    TimesValue(6, BitAnd(h, n));
  }

  lemma And4000(low: nat, h: nat, n: nat)
    requires low < 0x4000
    ensures BitAnd(low + 0x4000 * h, 0x4000 * n) == 0x4000 * BitAnd(h, n)
  {
    FieldPowers();
    AndParts(low, 0, h, n, 14);
    TimesValue(14, h);
    TimesValue(14, n);
    TimesValue(14, BitAnd(h, n));
  }

  /** The split field is cleared in both parts. */
  lemma SplitCleared(low: nat, mid: nat, h: nat, m: nat, n: nat, cleared: nat)
    requires low < 0x4000 && mid < 64 && m == 63 + 64 * n && BitAnd(h, n) == cleared
    ensures BitAnd(low + 0x4000 * (mid + 64 * h), 0x4000 * m) == 0x4000 * (mid + 64 * cleared)
  {
    And64(mid, h, n);
    And4000(low, mid + 64 * h, m);
  }

  lemma Or4(high: nat, top: nat)
    requires high < 4
    ensures BitOr(4 * top, high) == high + 4 * top
  {
    FieldPowers();
    OrParts(0, high, top, 0, 2);
    TimesValue(2, top);
    TimesValue(2, 0);
  }

  lemma Or64(mid: nat, h: nat, n: nat)
    requires mid < 64
    ensures BitOr(mid + 64 * h, 64 * n) == mid + 64 * BitOr(h, n)
  {
    FieldPowers();
    OrParts(mid, 0, h, n, 6);
    TimesValue(6, h);
    TimesValue(6, n);
    TimesValue(6, BitOr(h, n));
  }

  lemma Or4000(low: nat, h: nat, n: nat)
    requires low < 0x4000
    ensures BitOr(0x4000 * h, low + 0x4000 * n) == low + 0x4000 * BitOr(h, n)
  {
    FieldPowers();
    OrParts(0, low, h, n, 14);
    TimesValue(14, h);
    TimesValue(14, n);
    TimesValue(14, BitOr(h, n));
  }

  /** Both parts are filled. */
  lemma SplitFilled(low: nat, mid: nat, high: nat, top: nat)
    requires low < 0x4000 && mid < 64 && high < 4
    ensures BitOr(0x4000 * (mid + 64 * (4 * top)), low + 0x4000 * (64 * high))
         == low + 0x4000 * (mid + 64 * (high + 4 * top))
  {
    Or4(high, top);
    Or64(mid, 4 * top, high);
    Or4000(low, mid + 64 * (4 * top), 64 * high);
  }

  /** The parts a and b of a field replace what was there. */
  lemma SplitReplaced(low: nat, mid: nat, high: nat, top: nat, a: nat, b: nat)
    requires low < 0x4000 && mid < 64 && high < 4 && top < 0x400 && a < 0x4000 && b < 4
    ensures var inst := low + 0x4000 * (mid + 64 * (high + 4 * top));
            BitOr(BitAnd(inst, 0x4000 * (63 + 64 * (4 * 0x3ff))), a + 0x4000 * (64 * b))
            == a + 0x4000 * (mid + 64 * (b + 4 * top))
  {
    And4(high, top);
    SplitCleared(low, mid, high + 4 * top, 63 + 64 * (4 * 0x3ff), 4 * 0x3ff, 4 * top);
    SplitFilled(a, mid, b, top);
  }

  lemma SplitPatched(inst: nat, a: nat, b: nat)
    requires inst < W32 && a < 0x4000 && b < 4
    ensures BitOr(BitAnd(inst, 0x4000 * (63 + 64 * (4 * 0x3ff))), a + 0x4000 * (64 * b))
            == Outside(Split16, inst) + a + b * 0x10_0000
  {
    var low, mid, high, top := SplitParts(inst);
    SplitDigits(low, mid, high, top);
    SplitReplaced(low, mid, high, top, a, b);
  }

  lemma SplitMask(inst: nat, disp: int)
    requires inst < W32
    ensures Mask(Split16) < W32
    ensures Masked(Split16, inst, Wdisp(Split16, disp)) == Outside(Split16, inst) + Wdisp(Split16, disp)
  {
    MaskValue(Split16);
    SplitPatched(inst, disp / 4 % 0x4000, disp / 0x1_0000 % 4);
  }

  /** Clearing the bits of the mask and or-ing the new field is what the quotients say. */
  lemma PatchedByMasks(dest: int, inst: nat, pos: int)
    requires FormatOf(inst).Some? && inst < W32
    ensures var f := FormatOf(inst).value;
            && Mask(f) < W32
            && PatchedBranch(dest, inst, pos) == Some(Masked(f, inst, Wdisp(f, dest - pos)))
  {
    var f := FormatOf(inst).value;
    if f == Split16 {
      SplitMask(inst, dest - pos);
    } else {
      WholeMask(f, inst, Wdisp(f, dest - pos));
    }
  }

  // --------------------------------------------------------------------------
  // Patching and reading

  /** A patched instruction leads to the new destination if and only if the displacement fits. */
  lemma PatchThenRead(dest: int, inst: int, pos: int)
    requires FormatOf(inst).Some? && IsInt(dest) && IsInt(pos)
    ensures var p := PatchedBranch(dest, inst, pos).value;
            BranchDestination(p, pos) == Some(dest) <==> Fits(FormatOf(inst).value, dest - pos)
  {
    var f, disp := FormatOf(inst).value, dest - pos;
    PatchedFormat(f, inst, disp);
    PatchedParts(f, inst, disp);
    FieldInverse(f, disp);
    DestinationReached(ReadBack(f, disp), dest, pos);
  }

  lemma DestinationReached(x: int, dest: int, pos: int)
    requires IsInt(dest)
    ensures Signed(x + pos) == dest <==> (x - (dest - pos)) % W32 == 0
  {
    Truncation(x + pos);
    assert x + pos - dest == x - (dest - pos);
    if (x - (dest - pos)) % W32 == 0 {
      TruncationUnique(x + pos, dest);
    }
  }

  /** Patching changes the displacement field only. */
  lemma PatchKeepsOthers(dest: int, inst: int, pos: int)
    requires FormatOf(inst).Some?
    ensures var f, p := FormatOf(inst), PatchedBranch(dest, inst, pos).value;
            FormatOf(p) == f && Outside(f.value, p) == Outside(f.value, inst)
  {
    var f := FormatOf(inst).value;
    PatchedFormat(f, inst, dest - pos);
    PatchedParts(f, inst, dest - pos);
  }

  /** Which instructions can be patched: calls, and branches by their op2 field. */
  lemma PatchableIff(dest: int, inst: nat, pos: int)
    requires inst < W32
    ensures var op, op2 := inst / 0x4000_0000, inst / 0x40_0000 % 8;
            PatchedBranch(dest, inst, pos).Some? <==> op == 1 || (op == 0 && op2 in {1, 2, 3, 5, 6, 7})
  {
  }

  /** Which bits change, by the encoding: the low 30 of a call; the low 19 of a branch with prediction, whose prediction
      and condition-code bits above them stay; the low 22 of a branch without; and of a branch on a register the low 14
      and bits 20 and 21, while the register and prediction bits between them stay. */
  lemma PatchedBits(dest: int, inst: nat, pos: int)
    requires inst < W32 && PatchedBranch(dest, inst, pos).Some?
    ensures var p, d := PatchedBranch(dest, inst, pos).value, (dest - pos) / 4;
            var op, op2 := inst / 0x4000_0000, inst / 0x40_0000 % 8;
            && (op == 1 ==> p / 0x4000_0000 == op && p % 0x4000_0000 == d % 0x4000_0000)
            && (op == 0 && op2 in {1, 5} ==> p / 0x8_0000 == inst / 0x8_0000 && p % 0x8_0000 == d % 0x8_0000)
            && (op == 0 && op2 in {2, 6, 7} ==> p / 0x40_0000 == inst / 0x40_0000 && p % 0x40_0000 == d % 0x40_0000)
            && (op == 0 && op2 == 3 ==>
                  && p / 0x40_0000 == inst / 0x40_0000 && p / 0x4000 % 64 == inst / 0x4000 % 64
                  && p % 0x4000 == d % 0x4000 && p / 0x10_0000 % 4 == d / 0x4000 % 4)
  {
    var f := FormatOf(inst).value;
    if f == Split16 {
      SplitBits(inst, dest - pos);
    } else {
      ModUnique(Outside(f, inst) + Wdisp(f, dest - pos), Size(f), inst / Size(f), Wdisp(f, dest - pos));
    }
  }

  lemma SplitBits(inst: int, disp: int)
    ensures var p := Outside(Split16, inst) + Wdisp(Split16, disp);
            && p / 0x40_0000 == inst / 0x40_0000 && p / 0x4000 % 64 == inst / 0x4000 % 64
            && p % 0x4000 == disp / 4 % 0x4000 && p / 0x10_0000 % 4 == disp / 4 / 0x4000 % 4
  {
    var low, mid, high, top := SplitParts(inst);
    SplitDigits(low, mid, high, top);
    MiddleDigit(low, mid, high, top);
    QuarterTwice(disp);
    SplitDigits(disp / 4 % 0x4000, mid, disp / 4 / 0x4000 % 4, top);
    MiddleDigit(disp / 4 % 0x4000, mid, disp / 4 / 0x4000 % 4, top);
  }

  lemma MiddleDigit(low: int, mid: int, high: int, top: int)
    requires 0 <= low < 0x4000 && 0 <= mid < 64
    ensures (low + 0x4000 * mid + 0x10_0000 * high + 0x40_0000 * top) / 0x4000 % 64 == mid
  {
    var p := low + 0x4000 * mid + 0x10_0000 * high + 0x40_0000 * top;
    ModUnique(p, 0x4000, mid + 64 * high + 256 * top, low);
    ModUnique(mid + 64 * high + 256 * top, 64, high + 4 * top, mid);
  }

  /** Nothing of an earlier destination is left after patching again, whether or not the earlier one fitted. */
  lemma PatchOverwrites(first: int, second: int, inst: int, pos: int, pos': int)
    requires FormatOf(inst).Some?
    ensures PatchedBranch(second, PatchedBranch(first, inst, pos).value, pos') == PatchedBranch(second, inst, pos')
  {
    PatchKeepsOthers(first, inst, pos);
  }

  lemma SignExtendBack(x: int, half: int)
    requires half > 0 && 0 <= x < 2 * half
    ensures SignExtend(x, half) % (2 * half) == x && -half <= SignExtend(x, half) < half
  {
    ModUnique(SignExtend(x, half), 2 * half, if x >= half then -1 else 0, x);
  }

  lemma SplitBack(low: int, high: int)
    requires 0 <= low < 0x4000 && 0 <= high < 4
    ensures var w := SignExtend(high, 2) * 0x4000 + low;
            w % 0x4000 == low && w / 0x4000 % 4 == high && -0x8000 <= w < 0x8000
  {
  }

  /** Writing back the displacement of an instruction changes nothing; it is always in range. */
  lemma TimesFour(w: int)
    ensures (w * 4) % 4 == 0 && w * 4 / 4 == w
  {
  }

  lemma SplitOfInstruction(inst: int)
    ensures Outside(Split16, inst) + Wdisp(Split16, InvWdisp(Split16, inst)) == inst
    ensures var d := InvWdisp(Split16, inst); d % 4 == 0 && -2 * Size(Split16) <= d < 2 * Size(Split16)
  {
    var low, high := inst % 0x4000, inst / 0x10_0000 % 4;
    var w := SignExtend(high, 2) * 0x4000 + low;
    SplitBack(low, high);
    TimesFour(w);
    QuarterTwice(w * 4);
  }

  lemma WholeOfInstruction(f: Format, inst: int)
    requires f != Split16
    ensures Outside(f, inst) + Wdisp(f, InvWdisp(f, inst)) == inst
    ensures var d := InvWdisp(f, inst); d % 4 == 0 && -2 * Size(f) <= d < 2 * Size(f)
  {
    SignExtendBack(inst % Size(f), Size(f) / 2);
    TimesFour(SignExtend(inst % Size(f), Size(f) / 2));
  }

  lemma FieldOfInstruction(f: Format, inst: int)
    ensures Outside(f, inst) + Wdisp(f, InvWdisp(f, inst)) == inst
    ensures var d := InvWdisp(f, inst); d % 4 == 0 && -2 * Size(f) <= d < 2 * Size(f)
  {
    if f == Split16 {
      SplitOfInstruction(inst);
    } else {
      WholeOfInstruction(f, inst);
    }
  }

  /** An instruction patched with its own destination is unchanged, and its displacement always fits. */
  lemma ReadThenPatch(inst: int, pos: int)
    requires FormatOf(inst).Some? && IsInt(pos)
    ensures var d := BranchDestination(inst, pos).value;
            PatchedBranch(d, inst, pos) == Some(inst) && Fits(FormatOf(inst).value, d - pos)
  {
    var f := FormatOf(inst).value;
    var disp, d := InvWdisp(f, inst), Signed(InvWdisp(f, inst) + pos);
    FieldOfInstruction(f, inst);
    Truncation(disp + pos);
    SameField(f, disp, d - pos);
  }

  /** Displacements that differ by a multiple of 2^32 have the same field. */
  lemma SameField(f: Format, disp: int, other: int)
    requires (disp - other) % W32 == 0 && disp % 4 == 0 && -2 * Size(f) <= disp < 2 * Size(f)
    ensures Wdisp(f, other) == Wdisp(f, disp) && Fits(f, other)
  {
    var k := (disp - other) / W32;
    assert other == disp + W32 * -k;
    MultipleMod(W32, -k);
    AddMultiple(disp, 4, 0x4000_0000 * -k);
    TruncationUnique(other, disp);
    FittingField(f, other, disp);
    if f == Split16 {
      SameQuarter(disp, other);
    }
  }

  lemma SameQuarter(disp: int, other: int)
    requires (disp - other) % W32 == 0
    ensures disp / 4 % 0x4000 == other / 4 % 0x4000 && disp / 0x1_0000 % 4 == other / 0x1_0000 % 4
  {
    var k := (other - disp) / W32;
    assert other == disp + W32 * k;
    ModUnique(other, 4, disp / 4 + 0x4000_0000 * k, disp % 4);
    ModUnique(other, 0x1_0000, disp / 0x1_0000 + 0x1_0000 * k, disp % 0x1_0000);
    AddMultiple(disp / 4, 0x4000, 0x1_0000 * k);
    AddMultiple(disp / 0x1_0000, 4, 0x4000 * k);
  }

  /** Only the distance counts, so code and destination can move together. */
  lemma PatchMoves(dest: int, inst: int, pos: int, shift: int)
    requires FormatOf(inst).Some?
    ensures PatchedBranch(dest + shift, inst, pos + shift) == PatchedBranch(dest, inst, pos)
    ensures BranchDestination(inst, pos + shift).value == Signed(BranchDestination(inst, pos).value + shift)
  {
    assert dest + shift - (pos + shift) == dest - pos;
    TruncationMoves(InvWdisp(FormatOf(inst).value, inst) + pos, shift);
  }

  lemma TruncationMoves(x: int, shift: int)
    ensures Signed(Signed(x) + shift) == Signed(x + shift)
  {
    var t := Signed(Signed(x) + shift);
    Truncation(x);
    Truncation(Signed(x) + shift);
    MultiplesAdd(x - Signed(x), Signed(x) + shift - t);
    TruncationUnique(x + shift, t);
  }

  lemma MultiplesAdd(a: int, b: int)
    requires a % W32 == 0 && b % W32 == 0
    ensures (a + b) % W32 == 0
  {
  }
}
