/**
  The string comparison intrinsic of the client compiler. Its code walks two character arrays with
  one index that runs from minus the shorter length up to zero, and uses one annulled and one
  ordinary delay slot per round. It ends with the difference of the first characters that differ, or
  else with the difference of the lengths.
 */
module StringCompare {
  import opened Words
  import opened Arithmetic
  import opened SparcMachine

  const L0: Reg := 16
  const L1: Reg := 17
  const L2: Reg := 18
  const L3: Reg := 19
  const I0: Reg := 24
  const I1: Reg := 25
  const O7: Reg := 15

  // --------------------------------------------------------------------------
  // The meaning: String.compareTo

  function CompareTo(s: seq<int>, t: seq<int>): int {
    if s == [] || t == [] then |s| - |t|
    else if s[0] != t[0] then s[0] - t[0]
    else CompareTo(s[1..], t[1..])
  }

  ghost predicate FirstMismatch(s: seq<int>, t: seq<int>, k: nat)
  {
    k < |s| && k < |t| && s[..k] == t[..k] && s[k] != t[k]
  }

  /** At the first mismatch the result is the difference of the characters. */
  lemma {:induction false} CompareMismatch(s: seq<int>, t: seq<int>, k: nat)
    requires FirstMismatch(s, t, k)
    ensures CompareTo(s, t) == s[k] - t[k]
  {
    if k > 0 {
      assert s[0] == s[..k][0] == t[..k][0] == t[0];
      assert s[1..][..k - 1] == s[..k][1..] == t[..k][1..] == t[1..][..k - 1];
      CompareMismatch(s[1..], t[1..], k - 1);
    }
  }

  /** If one is a prefix of the other the result is the difference of the lengths. */
  lemma {:induction false} ComparePrefix(s: seq<int>, t: seq<int>)
    requires s <= t || t <= s
    ensures CompareTo(s, t) == |s| - |t|
  {
    if s != [] && t != [] {
      assert s[0] == t[0];
      assert s[1..] <= t[1..] || t[1..] <= s[1..];
      ComparePrefix(s[1..], t[1..]);
    }
  }

  /** There is no third case. */
  lemma {:induction false} MismatchOrPrefix(s: seq<int>, t: seq<int>) returns (k: nat)
    ensures FirstMismatch(s, t, k) || s <= t || t <= s
  {
    k := 0;
    while k < |s| && k < |t| && s[k] == t[k]
      invariant k <= |s| && k <= |t| && s[..k] == t[..k]
    {
      assert s[..k + 1] == s[..k] + [s[k]];
      assert t[..k + 1] == t[..k] + [t[k]];
      k := k + 1;
    }
    assert k == |s| ==> s == s[..k];
    assert k == |t| ==> t == t[..k];
  }

  /** The order is antisymmetric, and equal strings are the only ones that compare as equal. */
  lemma {:induction false} CompareAntisymmetric(s: seq<int>, t: seq<int>)
    ensures CompareTo(t, s) == -CompareTo(s, t)
    ensures CompareTo(s, t) == 0 <==> s == t
  {
    if s != [] && t != [] {
      CompareAntisymmetric(s[1..], t[1..]);
      if s[0] == t[0] {
        assert s == [s[0]] + s[1..] && t == [t[0]] + t[1..];
      }
    }
  }

  // --------------------------------------------------------------------------
  // The emitted code

  /** Where a string keeps its character array, its first index and its length; where an array has its elements. */
  datatype Offsets = Offsets(value: int, offset: int, count: int, elements: int)

  /** Loads the fields: both starts, both lengths, and the difference of the lengths with its condition codes. */
  function LoadCode(f: Offsets): seq<Instr> {
    [ Ld(I0, f.value, L0),
      Ld(I0, f.offset, L2),
      Op(ADD, L0, Imm(f.elements), L0),
      Ld(I0, f.count, I0),
      Op(SLL, L2, Imm(1), L2),
      Ld(I1, f.value, L1),
      Op(ADD, L0, R(L2), L0),
      Ld(I1, f.offset, L2),
      Op(ADD, L1, Imm(f.elements), L1),
      Ld(I1, f.count, I1),
      Op(SLL, L2, Imm(1), L2),
      SubCC(I0, R(I1), O7),
      Op(ADD, L1, R(L2), L1) ]
  }

  /** The shorter length in bytes; done if it is zero. */
  function LimitCode(): seq<Instr> {
    [ Op(SLL, I0, Imm(1), L3),
      Branch(Greater, true, 16),
      Op(SLL, I1, Imm(1), L3),
      SubCC(L3, Imm(0), G0),
      Branch(Equal, true, 30),
      Op(OR, G0, R(O7), I0) ]
  }

  function LoopCode(): seq<Instr> {
    [ Op(ADD, L0, R(L3), L0),
      Op(ADD, L1, R(L3), L1),
      Op(SUB, G0, R(L3), L3),
      Lduh(L0, L3, I0),
      Lduh(L1, L3, I1),
      SubCC(I0, R(I1), I0),
      Branch(NotEqual, false, 30),
      AddCC(L3, Imm(2), L3),
      Branch(NotEqual, true, 23),
      Lduh(L0, L3, I0),
      Op(OR, G0, R(O7), I0) ]
  }

  function CompareCode(f: Offsets): seq<Instr> {
    LoadCode(f) + LimitCode() + LoopCode()
  }

  /** The address of a string's first character. */
  function Start(m: int, f: Offsets, mem: Memory, ref: int): int
    requires m > 0
  {
    (Load(mem.word, (ref + f.value) % m) + f.elements + 2 * Load(mem.word, (ref + f.offset) % m)) % m
  }

  ghost predicate CharsAt(m: int, mem: Memory, start: int, s: seq<int>)
    requires m > 0
  {
    forall i :: 0 <= i < |s| ==> 0 <= s[i] < 65536 && Load(mem.half, (start + 2 * i) % m) == s[i]
  }

  /** The string object at ref holds the characters s. */
  ghost predicate StringAt(m: int, f: Offsets, mem: Memory, ref: int, s: seq<int>)
    requires m > 0
  {
    && |s| < HALF32
    && Load(mem.word, (ref + f.count) % m) == |s|
    && CharsAt(m, mem, Start(m, f, mem, ref), s)
  }

  // --------------------------------------------------------------------------
  // Loading the fields

  ghost predicate FirstLayout(f: Offsets, code: seq<Instr>)
  {
    && |code| == 30
    && code[0] == Ld(I0, f.value, L0)
    && code[1] == Ld(I0, f.offset, L2)
    && code[2] == Op(ADD, L0, Imm(f.elements), L0)
    && code[3] == Ld(I0, f.count, I0)
    && code[4] == Op(SLL, L2, Imm(1), L2)
  }

  ghost predicate SecondLayout(f: Offsets, code: seq<Instr>)
  {
    && |code| == 30
    && code[5] == Ld(I1, f.value, L1)
    && code[6] == Op(ADD, L0, R(L2), L0)
    && code[7] == Ld(I1, f.offset, L2)
    && code[8] == Op(ADD, L1, Imm(f.elements), L1)
    && code[9] == Ld(I1, f.count, I1)
  }

  ghost predicate LastLayout(code: seq<Instr>)
  {
    && |code| == 30
    && code[10] == Op(SLL, L2, Imm(1), L2)
    && code[11] == SubCC(I0, R(I1), O7)
    && code[12] == Op(ADD, L1, R(L2), L1)
  }

  ghost predicate LimitLayout(code: seq<Instr>)
  {
    && |code| == 30
    && code[13] == Op(SLL, I0, Imm(1), L3)
    && code[14] == Branch(Greater, true, 16)
    && code[15] == Op(SLL, I1, Imm(1), L3)
    && code[16] == SubCC(L3, Imm(0), G0)
    && code[17] == Branch(Equal, true, 30)
    && code[18] == Op(OR, G0, R(O7), I0)
  }

  ghost predicate LoopLayout(code: seq<Instr>)
  {
    && |code| == 30
    && code[19] == Op(ADD, L0, R(L3), L0)
    && code[20] == Op(ADD, L1, R(L3), L1)
    && code[21] == Op(SUB, G0, R(L3), L3)
    && code[22] == Lduh(L0, L3, I0)
    && code[23] == Lduh(L1, L3, I1)
    && code[24] == SubCC(I0, R(I1), I0)
    && code[25] == Branch(NotEqual, false, 30)
    && code[26] == AddCC(L3, Imm(2), L3)
    && code[27] == Branch(NotEqual, true, 23)
    && code[28] == Lduh(L0, L3, I0)
    && code[29] == Op(OR, G0, R(O7), I0)
  }

  lemma LoadLayout(f: Offsets)
    ensures FirstLayout(f, CompareCode(f)) && SecondLayout(f, CompareCode(f)) && LastLayout(CompareCode(f))
  {
    var head, tail, code := LoadCode(f), LimitCode() + LoopCode(), CompareCode(f);
    assert code == head + tail;
    assert |head| == 13 && |tail| == 17;
  }

  lemma LimitLayouts(f: Offsets)
    ensures LimitLayout(CompareCode(f))
  {
    var head, limit, loop := LoadCode(f), LimitCode(), LoopCode();
    assert |head| == 13 && |limit| == 6 && |loop| == 11;
  }

  lemma LoopLayouts(f: Offsets)
    ensures LoopLayout(CompareCode(f))
  {
    var head, loop := LoadCode(f) + LimitCode(), LoopCode();
    assert |head| == 19 && |loop| == 11;
  }

  lemma Doubled(m: int, x: int)
    requires Width(m)
    ensures Compute(m, SLL, x, 1 % m) == (2 * x) % m
  {
    assert Pow2(1) == 2;
    assert 1 % m == 1;
  }

  /** A summand may be reduced before adding. */
  lemma AddMod(m: int, a: int, b: int)
    requires m > 0
    ensures (a % m + b) % m == (a + b) % m
  {
    var q, u := a / m, (a % m + b) / m;
    assert m * (q + u) == m * q + m * u;
    ModUnique(a + b, m, q + u, (a % m + b) % m);
  }

  lemma AddMods(m: int, a: int, b: int)
    requires m > 0
    ensures (a % m + b % m) % m == (a + b) % m
  {
    AddMod(m, a, b % m);
    AddMod(m, b, a);
  }

  lemma SumOfParts(m: int, value: int, elements: int, twice: int)
    requires m > 0
    ensures ((value + elements % m) % m + twice % m) % m == (value + elements + twice) % m
  {
    AddMod(m, elements, value);
    AddMods(m, value + elements, twice);
  }

  /** The start of the string's characters as the code adds it up. */
  function StartSum(m: int, f: Offsets, mem: Memory, ref: int): int
    requires m > 0
  {
    ((Load(mem.word, (ref + f.value) % m) + f.elements % m) % m
     + Compute(m, SLL, Load(mem.word, (ref + f.offset) % m), 1 % m)) % m
  }

  /** The first string: its fields up to the sum that gives the start. */
  lemma LoadsFirst(m: int, f: Offsets, code: seq<Instr>, d: Data) returns (r: Data)
    requires m > 0 && FirstLayout(f, code)
    ensures Leads(m, code, At(0, d), At(5, r)) && r.mem == d.mem
    ensures var ref, word := Get(d.regs, I0), d.mem.word;
            && Get(r.regs, L0) == (Load(word, (ref + f.value) % m) + f.elements % m) % m
            && Get(r.regs, L2) == Compute(m, SLL, Load(word, (ref + f.offset) % m), 1 % m)
            && Get(r.regs, I0) == Load(word, (ref + f.count) % m)
            && Get(r.regs, I1) == Get(d.regs, I1)
  {
    var a := At(0, d);
    LeadsStart(m, code, a);
    var d1 := Exec(m, code[0], d);
    Follow(m, code, a, 0, d, d1);
    var d2 := Exec(m, code[1], d1);
    Follow(m, code, a, 1, d1, d2);
    var d3 := Exec(m, code[2], d2);
    Follow(m, code, a, 2, d2, d3);
    var d4 := Exec(m, code[3], d3);
    Follow(m, code, a, 3, d3, d4);
    r := Exec(m, code[4], d4);
    Follow(m, code, a, 4, d4, r);
  }

  lemma LoadsSecond(m: int, f: Offsets, code: seq<Instr>, a: State, d: Data) returns (r: Data)
    requires m > 0 && SecondLayout(f, code) && Leads(m, code, a, At(5, d))
    ensures Leads(m, code, a, At(10, r)) && r.mem == d.mem
    ensures var ref, word := Get(d.regs, I1), d.mem.word;
            && Get(r.regs, L0) == (Get(d.regs, L0) + Get(d.regs, L2)) % m
            && Get(r.regs, I0) == Get(d.regs, I0)
            && Get(r.regs, L1) == (Load(word, (ref + f.value) % m) + f.elements % m) % m
            && Get(r.regs, L2) == Load(word, (ref + f.offset) % m)
            && Get(r.regs, I1) == Load(word, (ref + f.count) % m)
  {
    var d1 := Exec(m, code[5], d);
    Follow(m, code, a, 5, d, d1);
    var d2 := Exec(m, code[6], d1);
    Follow(m, code, a, 6, d1, d2);
    var d3 := Exec(m, code[7], d2);
    Follow(m, code, a, 7, d2, d3);
    var d4 := Exec(m, code[8], d3);
    Follow(m, code, a, 8, d3, d4);
    r := Exec(m, code[9], d4);
    Follow(m, code, a, 9, d4, r);
  }

  lemma LoadsEnd(m: int, code: seq<Instr>, a: State, d: Data) returns (r: Data)
    requires m > 0 && LastLayout(code) && Leads(m, code, a, At(10, d))
    ensures Leads(m, code, a, At(13, r)) && r.mem == d.mem
    ensures Get(r.regs, L0) == Get(d.regs, L0)
    ensures Get(r.regs, I0) == Get(d.regs, I0) && Get(r.regs, I1) == Get(d.regs, I1)
    ensures Get(r.regs, L1) == (Get(d.regs, L1) + Compute(m, SLL, Get(d.regs, L2), 1 % m)) % m
    ensures Get(r.regs, O7) == (Get(d.regs, I0) - Get(d.regs, I1)) % m
    ensures r.icc == SubFlags(Get(d.regs, I0), Get(d.regs, I1))
  {
    var d1 := Exec(m, code[10], d);
    Follow(m, code, a, 10, d, d1);
    var d2 := Exec(m, code[11], d1);
    Follow(m, code, a, 11, d1, d2);
    r := Exec(m, code[12], d2);
    Follow(m, code, a, 12, d2, r);
  }

  /** With the fields loaded: the starts, the lengths, their difference and its codes. */
  ghost predicate Loaded(m: int, d: Data, b: int, c: int, s: seq<int>, t: seq<int>)
    requires m > 0
  {
    && Get(d.regs, L0) == b && Get(d.regs, L1) == c
    && Get(d.regs, I0) == |s| && Get(d.regs, I1) == |t| && Get(d.regs, O7) == (|s| - |t|) % m
    && |s| < HALF32 && |t| < HALF32 && CharsAt(m, d.mem, b, s) && CharsAt(m, d.mem, c, t)
  }

  lemma StartIs(m: int, f: Offsets, mem: Memory, ref: int)
    requires Width(m)
    ensures Start(m, f, mem, ref) == StartSum(m, f, mem, ref)
  {
    var value, offset := Load(mem.word, (ref + f.value) % m), Load(mem.word, (ref + f.offset) % m);
    Doubled(m, offset);
    SumOfParts(m, value, f.elements, 2 * offset);
  }

  lemma LoadsBoth(m: int, f: Offsets, code: seq<Instr>, d: Data) returns (r: Data)
    requires m > 0 && FirstLayout(f, code) && SecondLayout(f, code)
    ensures Leads(m, code, At(0, d), At(10, r)) && r.mem == d.mem
    ensures Get(r.regs, L0) == StartSum(m, f, d.mem, Get(d.regs, I0))
    ensures Get(r.regs, L1) == (Load(d.mem.word, (Get(d.regs, I1) + f.value) % m) + f.elements % m) % m
    ensures Get(r.regs, L2) == Load(d.mem.word, (Get(d.regs, I1) + f.offset) % m)
    ensures Get(r.regs, I0) == Load(d.mem.word, (Get(d.regs, I0) + f.count) % m)
    ensures Get(r.regs, I1) == Load(d.mem.word, (Get(d.regs, I1) + f.count) % m)
  {
    var d1 := LoadsFirst(m, f, code, d);
    r := LoadsSecond(m, f, code, At(0, d), d1);
  }

  /** All thirteen instructions. */
  lemma LoadsFields(m: int, f: Offsets, code: seq<Instr>, d: Data) returns (r: Data)
    requires m > 0 && FirstLayout(f, code) && SecondLayout(f, code) && LastLayout(code)
    ensures Leads(m, code, At(0, d), At(13, r)) && r.mem == d.mem
    ensures Get(r.regs, L0) == StartSum(m, f, d.mem, Get(d.regs, I0))
    ensures Get(r.regs, L1) == StartSum(m, f, d.mem, Get(d.regs, I1))
    ensures var c := Load(d.mem.word, (Get(d.regs, I0) + f.count) % m);
            var e := Load(d.mem.word, (Get(d.regs, I1) + f.count) % m);
            Get(r.regs, I0) == c && Get(r.regs, I1) == e && Get(r.regs, O7) == (c - e) % m && r.icc == SubFlags(c, e)
  {
    var d2 := LoadsBoth(m, f, code, d);
    r := LoadsEnd(m, code, At(0, d), d2);
  }

  lemma LoadedIs(m: int, f: Offsets, d: Data, x: int, y: int, s: seq<int>, t: seq<int>)
    requires m > 0 && StringAt(m, f, d.mem, x, s) && StringAt(m, f, d.mem, y, t)
    requires Get(d.regs, L0) == Start(m, f, d.mem, x) && Get(d.regs, L1) == Start(m, f, d.mem, y)
    requires Get(d.regs, I0) == |s| && Get(d.regs, I1) == |t| && Get(d.regs, O7) == (|s| - |t|) % m
    ensures Loaded(m, d, Start(m, f, d.mem, x), Start(m, f, d.mem, y), s, t)
  {
  }

  lemma Loads(m: int, f: Offsets, code: seq<Instr>, d: Data, s: seq<int>, t: seq<int>) returns (r: Data)
    requires m > 0 && FirstLayout(f, code) && SecondLayout(f, code) && LastLayout(code)
    requires StringAt(m, f, d.mem, Get(d.regs, I0), s) && StringAt(m, f, d.mem, Get(d.regs, I1), t)
    requires forall ref :: Start(m, f, d.mem, ref) == StartSum(m, f, d.mem, ref)
    ensures Leads(m, code, At(0, d), At(13, r)) && r.mem == d.mem && r.icc == SubFlags(|s|, |t|)
    ensures Loaded(m, r, Start(m, f, d.mem, Get(d.regs, I0)), Start(m, f, d.mem, Get(d.regs, I1)), s, t)
  {
    r := LoadsFields(m, f, code, d);
    LoadedIs(m, f, r, Get(d.regs, I0), Get(d.regs, I1), s, t);
  }

  // --------------------------------------------------------------------------
  // The shorter length

  function Min(a: int, b: int): int {
    if a <= b then a else b
  }

  lemma SmallWord(m: int, x: int)
    requires Width(m) && 0 <= x < W32
    ensures x % m == x && (0 - x) % m == if x == 0 then 0 else m - x
  {
  }

  lemma DoubledLength(m: int, n: int)
    requires Width(m) && 0 <= n < HALF32
    ensures Compute(m, SLL, n, 1 % m) == 2 * n && 0 <= 2 * n < W32
  {
    Doubled(m, n);
    SmallWord(m, 2 * n);
  }

  lemma LengthsCompared(c: int, e: int)
    requires 0 <= c < HALF32 && 0 <= e < HALF32
    ensures Holds(Greater, SubFlags(c, e)) <==> c > e
    ensures Holds(Equal, SubFlags(2 * c, 0)) <==> c == 0
  {
    Comparison(c, e);
    Comparison(2 * c, 0);
  }

  /** What the loop relies on besides its index. */
  ghost predicate Frame(m: int, d: Data, s: seq<int>, t: seq<int>)
    requires m > 0
  {
    Get(d.regs, O7) == (|s| - |t|) % m && |s| < HALF32 && |t| < HALF32
  }

  lemma LimitSets(m: int, code: seq<Instr>, a: State, d: Data, c: int, e: int) returns (r: Data)
    requires m > 0 && LimitLayout(code) && Leads(m, code, a, At(13, d))
    requires Get(d.regs, I0) == c && Get(d.regs, I1) == e && d.icc == SubFlags(c, e)
    requires Holds(Greater, SubFlags(c, e)) <==> c > e
    ensures Leads(m, code, a, At(16, r))
    ensures r == d.(regs := Set(d.regs, L3, Get(r.regs, L3))) && Get(r.regs, L3) == Compute(m, SLL, Min(c, e), 1 % m)
  {
    var d1 := Exec(m, code[13], d);
    Follow(m, code, a, 13, d, d1);
    if c > e {
      r := Exec(m, code[15], d1);
      FollowTaken(m, code, a, 14, d1, r);
    } else {
      r := d1;
      FollowNotTaken(m, code, a, 14, d1, r);
    }
  }

  lemma OrZero(m: int, x: int)
    requires m > 0 && x >= 0
    ensures Compute(m, OR, 0, x) == x
  {
  }

  /** With an empty string the code is done here. */
  lemma LimitEnds(m: int, code: seq<Instr>, a: State, d: Data, n: int, o: int) returns (r: Data)
    requires Width(m) && LimitLayout(code) && Leads(m, code, a, At(16, d))
    requires Get(d.regs, L3) == 2 * n && 0 <= n < HALF32 && Get(d.regs, O7) == o >= 0
    ensures n == 0 ==> Leads(m, code, a, At(30, r)) && Get(r.regs, I0) == o
    ensures n > 0 ==> Leads(m, code, a, At(19, r)) && r.regs == d.regs && r.mem == d.mem
  {
    LengthsCompared(n, 0);
    assert 0 % m == 0;
    var d1 := Exec(m, code[16], d);
    assert d1.regs == d.regs && d1.icc == SubFlags(2 * n, 0);
    Follow(m, code, a, 16, d, d1);
    if n == 0 {
      OrZero(m, o);
      r := Exec(m, code[18], d1);
      FollowTaken(m, code, a, 17, d1, r);
    } else {
      r := d1;
      FollowNotTaken(m, code, a, 17, d1, d1);
    }
  }

  // --------------------------------------------------------------------------
  // The loop

  /** Before round k: both pointers at the end of the shorter length, the index 2 (n - k) bytes before it, and the
      character of the first string loaded. */
  ghost predicate Round(m: int, d: Data, b: int, c: int, s: seq<int>, t: seq<int>, k: nat)
    requires m > 0
  {
    var n := Min(|s|, |t|);
    && k < n && s[..k] == t[..k]
    && Get(d.regs, L0) == (b + 2 * n) % m && Get(d.regs, L1) == (c + 2 * n) % m
    && Get(d.regs, L3) == (-2 * (n - k)) % m
    && Get(d.regs, I0) == s[k]
    && Frame(m, d, s, t) && CharsAt(m, d.mem, b, s) && CharsAt(m, d.mem, c, t)
  }

  /** The address of character k, from the pointer behind the last one. */
  lemma CharAddress(m: int, b: int, n: int, k: int)
    requires m > 0
    ensures ((b + 2 * n) % m + (-2 * (n - k)) % m) % m == (b + 2 * k) % m
  {
    AddMods(m, b + 2 * n, -2 * (n - k));
  }

  lemma LoopStarts(m: int, code: seq<Instr>, a: State, d: Data, b: int, c: int, s: seq<int>, t: seq<int>)
    returns (r: Data)
    requires m > 0 && LoopLayout(code) && Leads(m, code, a, At(19, d)) && Frame(m, d, s, t)
    requires Get(d.regs, L0) == b && Get(d.regs, L1) == c && Get(d.regs, L3) == 2 * Min(|s|, |t|) > 0
    requires CharsAt(m, d.mem, b, s) && CharsAt(m, d.mem, c, t)
    ensures Leads(m, code, a, At(23, r)) && Round(m, r, b, c, s, t, 0)
  {
    var n := Min(|s|, |t|);
    var d1 := Exec(m, code[19], d);
    Follow(m, code, a, 19, d, d1);
    var d2 := Exec(m, code[20], d1);
    Follow(m, code, a, 20, d1, d2);
    var d3 := Exec(m, code[21], d2);
    Follow(m, code, a, 21, d2, d3);
    CharAddress(m, b, n, 0);
    assert 0 - 2 * n == -2 * (n - 0);
    r := Exec(m, code[22], d3);
    Follow(m, code, a, 22, d3, r);
    assert Get(r.regs, I0) == s[0];
  }

  /** Instructions 23 and 24: the difference of the characters, with its condition codes. */
  lemma RoundCompares(m: int, code: seq<Instr>, a: State, d: Data, b: int, c: int, s: seq<int>, t: seq<int>, k: nat)
    returns (r: Data)
    requires m > 0 && LoopLayout(code) && Leads(m, code, a, At(23, d)) && Round(m, d, b, c, s, t, k)
    ensures Leads(m, code, a, At(25, r)) && r.icc == SubFlags(s[k], t[k]) && r.mem == d.mem
    ensures Get(r.regs, I0) == (s[k] - t[k]) % m
    ensures forall x :: x in {L0, L1, L3, O7} ==> Get(r.regs, x) == Get(d.regs, x)
  {
    CharAddress(m, c, Min(|s|, |t|), k);
    var d1 := Exec(m, code[23], d);
    Follow(m, code, a, 23, d, d1);
    assert Get(d1.regs, I1) == t[k];
    r := Exec(m, code[24], d1);
    Follow(m, code, a, 24, d1, r);
  }

  lemma CharsCompared(x: int, y: int)
    requires 0 <= x < 65536 && 0 <= y < 65536
    ensures Holds(NotEqual, SubFlags(x, y)) <==> x != y
  {
    Comparison(x, y);
  }

  /** Counting up: the codes say whether the end is reached. */
  lemma IndexCounts(m: int, j: int)
    requires Width(m) && 0 < j < HALF32
    ensures ((-2 * j) % m + 2 % m) % m == (-2 * (j - 1)) % m
    ensures Holds(NotEqual, AddFlags((-2 * j) % m, 2 % m)) <==> j != 1
  {
    assert (-2 * j) % m == m - 2 * j && 2 % m == 2;
    assert j > 1 ==> (-2 * (j - 1)) % m == m - 2 * (j - 1);
  }

  /** Instruction 25 at a mismatch, with the increment in its delay slot. */
  lemma RoundMismatch(m: int, code: seq<Instr>, a: State, d: Data) returns (r: Data)
    requires m > 0 && LoopLayout(code) && Leads(m, code, a, At(25, d)) && Holds(NotEqual, d.icc)
    ensures Leads(m, code, a, At(30, r)) && Get(r.regs, I0) == Get(d.regs, I0)
  {
    r := Exec(m, code[26], d);
    FollowTaken(m, code, a, 25, d, r);
  }

  /** Instruction 25 otherwise. */
  lemma RoundCounts(m: int, code: seq<Instr>, a: State, d: Data, j: int) returns (r: Data)
    requires Width(m) && LoopLayout(code) && Leads(m, code, a, At(25, d)) && !Holds(NotEqual, d.icc)
    requires 0 < j < HALF32 && Get(d.regs, L3) == (-2 * j) % m
    ensures Leads(m, code, a, At(27, r)) && r.mem == d.mem
    ensures Get(r.regs, L3) == (-2 * (j - 1)) % m && (Holds(NotEqual, r.icc) <==> j != 1)
    ensures forall x :: x in {L0, L1, O7} ==> Get(r.regs, x) == Get(d.regs, x)
  {
    IndexCounts(m, j);
    r := Exec(m, code[26], d);
    FollowNotTaken(m, code, a, 25, d, r);
  }

  /** Instruction 27 with more to compare: the annulled slot loads the next character. */
  lemma RoundRepeats(m: int, code: seq<Instr>, a: State, d: Data, b: int, c: int, s: seq<int>, t: seq<int>, k: nat)
    returns (r: Data)
    requires m > 0 && LoopLayout(code) && Leads(m, code, a, At(27, d)) && Holds(NotEqual, d.icc)
    requires Round(m, d.(regs := Set(d.regs, I0, if k < |s| then s[k] else 0)), b, c, s, t, k)
    ensures Leads(m, code, a, At(23, r)) && Round(m, r, b, c, s, t, k)
  {
    CharAddress(m, b, Min(|s|, |t|), k);
    r := Exec(m, code[28], d);
    FollowTaken(m, code, a, 27, d, r);
    assert r == d.(regs := Set(d.regs, I0, s[k]));
  }

  /** Instruction 27 at the end, and the move behind it. */
  lemma RoundFinishes(m: int, code: seq<Instr>, a: State, d: Data) returns (r: Data)
    requires m > 0 && LoopLayout(code) && Leads(m, code, a, At(27, d)) && !Holds(NotEqual, d.icc)
    requires Get(d.regs, O7) >= 0
    ensures Leads(m, code, a, At(30, r)) && Get(r.regs, I0) == Get(d.regs, O7)
  {
    FollowNotTaken(m, code, a, 27, d, d);
    OrZero(m, Get(d.regs, O7));
    r := Exec(m, code[29], d);
    Follow(m, code, a, 29, d, r);
  }

  lemma EqualSoFar(s: seq<int>, t: seq<int>, k: nat)
    requires k < Min(|s|, |t|) && s[..k] == t[..k] && s[k] == t[k]
    ensures s[..k + 1] == t[..k + 1]
  {
    assert s[..k + 1] == s[..k] + [s[k]];
    assert t[..k + 1] == t[..k] + [t[k]];
  }

  lemma EqualToTheEnd(s: seq<int>, t: seq<int>)
    requires var n := Min(|s|, |t|); s[..n] == t[..n]
    ensures CompareTo(s, t) == |s| - |t|
  {
    assert s[..|s|] == s && t[..|t|] == t;
    ComparePrefix(s, t);
  }

  /** From any round the code ends with the comparison in I0. */
  lemma {:induction false} LoopEnds(m: int, code: seq<Instr>, a: State, d: Data, b: int, c: int, s: seq<int>,
                                    t: seq<int>, k: nat)
    returns (r: Data)
    requires Width(m) && LoopLayout(code) && Leads(m, code, a, At(23, d)) && Round(m, d, b, c, s, t, k)
    ensures Leads(m, code, a, At(30, r)) && Get(r.regs, I0) == CompareTo(s, t) % m
    decreases |s| - k
  {
    var n := Min(|s|, |t|);
    var d1 := RoundCompares(m, code, a, d, b, c, s, t, k);
    CharsCompared(s[k], t[k]);
    if s[k] != t[k] {
      r := RoundMismatch(m, code, a, d1);
      CompareMismatch(s, t, k);
    } else {
      var d2 := RoundCounts(m, code, a, d1, n - k);
      EqualSoFar(s, t, k);
      if k + 1 < n {
        assert n - (k + 1) == n - k - 1;
        var d3 := RoundRepeats(m, code, a, d2, b, c, s, t, k + 1);
        r := LoopEnds(m, code, a, d3, b, c, s, t, k + 1);
      } else {
        r := RoundFinishes(m, code, a, d2);
        EqualToTheEnd(s, t);
      }
    }
  }

  // --------------------------------------------------------------------------
  // The result

  /** The comparison fits a word. */
  lemma {:induction false} CompareBounded(s: seq<int>, t: seq<int>, m: int, mem: Memory, b: int, c: int)
    requires Width(m) && |s| < HALF32 && |t| < HALF32 && CharsAt(m, mem, b, s) && CharsAt(m, mem, c, t)
    ensures Signed(CompareTo(s, t) % m) == CompareTo(s, t)
  {
    var k := MismatchOrPrefix(s, t);
    if FirstMismatch(s, t, k) {
      CompareMismatch(s, t, k);
    } else {
      ComparePrefix(s, t);
    }
    SignedBack(m, CompareTo(s, t));
  }

  lemma SignedBack(m: int, x: int)
    requires Width(m) && -HALF32 <= x < HALF32
    ensures Signed(x % m) == x
  {
  }

  lemma CompareWrites(f: Offsets)
    ensures WritesOnly(CompareCode(f), {L0, L1, L2, L3, I0, I1, O7})
  {
    assert CompareCode(f) == LoadCode(f) + (LimitCode() + LoopCode());
  }

  /** For all strings, on both machine widths: given two string objects in I0 and I1 the code ends with
      their comparison in I0, and memory and the registers it does not name are as before. */
  lemma CompareCorrect(m: int, f: Offsets, d: Data, s: seq<int>, t: seq<int>) returns (r: Data)
    requires Width(m)
    requires StringAt(m, f, d.mem, Get(d.regs, I0), s) && StringAt(m, f, d.mem, Get(d.regs, I1), t)
    ensures Ends(m, CompareCode(f), d, r)
    ensures Signed(Get(r.regs, I0)) == CompareTo(s, t)
    ensures SameOutside(d, r, {L0, L1, L2, L3, I0, I1, O7})
  {
    var b, c := Start(m, f, d.mem, Get(d.regs, I0)), Start(m, f, d.mem, Get(d.regs, I1));
    r := CompareRuns(m, f, d, s, t, b, c);
    CompareBounded(s, t, m, d.mem, b, c);
    CompareWrites(f);
    EndsFrame(m, CompareCode(f), d, r, {L0, L1, L2, L3, I0, I1, O7});
  }

  lemma CompareRuns(m: int, f: Offsets, d: Data, s: seq<int>, t: seq<int>, b: int, c: int) returns (r: Data)
    requires Width(m)
    requires StringAt(m, f, d.mem, Get(d.regs, I0), s) && StringAt(m, f, d.mem, Get(d.regs, I1), t)
    requires b == Start(m, f, d.mem, Get(d.regs, I0)) && c == Start(m, f, d.mem, Get(d.regs, I1))
    ensures Ends(m, CompareCode(f), d, r) && Get(r.regs, I0) == CompareTo(s, t) % m
  {
    var code := CompareCode(f);
    LoadLayout(f);
    LimitLayouts(f);
    LoopLayouts(f);
    forall ref ensures Start(m, f, d.mem, ref) == StartSum(m, f, d.mem, ref) {
      StartIs(m, f, d.mem, ref);
    }
    var d1 := Loads(m, f, code, d, s, t);
    r := ComparesLoaded(m, code, At(0, d), d1, s, t, b, c);
  }

  lemma ComparesLoaded(m: int, code: seq<Instr>, a: State, d: Data, s: seq<int>, t: seq<int>, b: int, c: int)
    returns (r: Data)
    requires Width(m) && LimitLayout(code) && LoopLayout(code) && Leads(m, code, a, At(13, d))
    requires Loaded(m, d, b, c, s, t) && d.icc == SubFlags(|s|, |t|)
    ensures Leads(m, code, a, At(30, r)) && Get(r.regs, I0) == CompareTo(s, t) % m
  {
    var n := Min(|s|, |t|);
    LengthsCompared(|s|, |t|);
    DoubledLength(m, n);
    var d1 := LimitSets(m, code, a, d, |s|, |t|);
    var d2 := LimitEnds(m, code, a, d1, n, (|s| - |t|) % m);
    if n == 0 {
      r := d2;
    } else {
      var d3 := LoopStarts(m, code, a, d2, b, c, s, t);
      r := LoopEnds(m, code, a, d3, b, c, s, t, 0);
    }
  }
}
