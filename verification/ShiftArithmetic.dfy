/**
  Multiplying and dividing a two-digit number by a power of the base's divisor, digit by digit. With base
  W = A * B, these are the facts behind shifting a register pair by a count below the word size.
 */
module ShiftArithmetic {
  import opened Words
  import opened Arithmetic
  import opened SparcMachine

  lemma ProductBelow(x: int, y: int, a: int, b: int)
    requires 0 <= x < b && 0 <= y < a
    ensures 0 <= x * a + y < a * b
  {
    assert x * a >= 0 by {
      if x > 0 {
        MulAtLeast(a, x);
      }
    }
    MulAtLeast(a, b - x);
    assert a * (b - x) == a * b - x * a;
  }

  /** Shifting a digit left: what stays and what is carried out. */
  lemma ShiftDigit(x: int, a: int, b: int, w: int)
    requires a > 0 && b > 0 && w == a * b
    ensures w > 0 && x * a == w * (x / b) + (x % b) * a
    ensures (x * a) % w == (x % b) * a && 0 <= (x % b) * a < w
  {
    MulAtLeast(a, b);
    var q, r := x / b, x % b;
    assert x * a == w * q + r * a by {
      assert x == b * q + r;
      MulDistribute(a, b * q, r);
      MulAssoc(b, q, a);
      MulAssoc(a, b, q);
    }
    ProductBelow(r, 0, a, b);
    ModUnique(x * a, w, q, r * a);
  }

  /** A left shift of the pair (hi, lo) by a, in base w = a * b. */
  lemma ShiftPairLeft(hi: int, lo: int, a: int, b: int, w: int)
    requires a > 0 && b > 0 && w == a * b && 0 <= lo < w
    ensures w * w > 0
    ensures ((hi * w + lo) * a) % (w * w) == ((hi % b) * a + lo / b) * w + (lo % b) * a
  {
    ShiftDigit(hi, a, b, w);
    ShiftDigit(lo, a, b, w);
    CarryBelow(lo, a, b, w);
    ProductBelow(hi % b, lo / b, a, b);
    var top := (hi % b) * a + lo / b;
    var low := (lo % b) * a;
    ProductBelow(top, low, w, w);
    var x := (hi * w + lo) * a;
    assert x == (w * w) * (hi / b) + (top * w + low) by {
      MulDistribute(a, hi * w, lo);
      MulAssoc(hi, w, a);
      PairIdentity(hi * a, lo * a, w, hi / b, (hi % b) * a, lo / b, low);
    }
    ModUnique(x, w * w, hi / b, top * w + low);
  }

  lemma PairIdentity(x: int, y: int, w: int, q: int, r: int, k: int, low: int)
    requires x == w * q + r && y == w * k + low
    ensures x * w + y == (w * w) * q + ((r + k) * w + low)
  {
    assert x * w == (w * q) * w + r * w by {
      MulDistribute(w, w * q, r);
    }
    MulAssoc(w, q, w);
    MulDistribute(w, r, k);
  }

  /** The digits carried out of a digit are few. */
  lemma CarryBelow(x: int, a: int, b: int, w: int)
    requires a > 0 && b > 0 && w == a * b && 0 <= x < w
    ensures 0 <= x / b < a
  {
    var q := x / b;
    if q >= a {
      MulAtLeastTimes(b, a, q);
    }
    if q < 0 {
      MulAtLeast(b, -q);
    }
  }

  lemma {:induction false} MulAtLeastTimes(d: int, a: int, b: int)
    requires d > 0 && a <= b
    ensures d * a <= d * b
    decreases b - a
  {
    if a < b {
      MulAtLeastTimes(d, a, b - 1);
      MulDistribute(d, b - 1, 1);
    }
  }

  /** A right shift of the pair (hi, lo) by a, in base w = a * b. The upper digit may be negative. */
  lemma ShiftPairRight(hi: int, lo: int, a: int, b: int, w: int)
    requires a > 0 && b > 0 && w == a * b && 0 <= lo < w
    ensures (hi * w + lo) / a == (hi / a) * w + ((hi % a) * b + lo / a)
    ensures 0 <= (hi % a) * b + lo / a < w
  {
    var q, r, k, low := hi / a, hi % a, lo / a, lo % a;
    CarryBelow(lo, b, a, w);
    ProductBelow(r, k, b, a);
    var x := hi * w + lo;
    var y := q * w + (r * b + k);
    assert x == a * y + low by {
      assert hi == a * q + r && lo == a * k + low;
      MulDistribute(w, a * q, r);
      MulAssoc(a, q, w);
      MulDistribute(a, q * w, r * b + k);
      MulDistribute(a, r * b, k);
      MulAssoc(r, b, a);
      MulAssoc(a, b, r);
    }
    ModUnique(x, a, y, low);
  }

  /** Two divisions in a row. */
  lemma DivTwice(x: int, p: int, q: int)
    requires p > 0 && q > 0
    ensures p * q > 0 && x / p / q == x / (p * q)
  {
    MulAtLeast(p, q);
    var u, r := x / p, x % p;
    var v, t := u / q, u % q;
    ProductBelow(t, r, p, q);
    assert x == (p * q) * v + (t * p + r) by {
      assert x == p * u + r && u == q * v + t;
      MulDistribute(p, q * v, t);
      MulAssoc(p, q, v);
    }
    ModUnique(x, p * q, v, t * p + r);
  }

  /** Reduction before a doubling does not matter. */
  lemma DoubleMod(x: int, w: int)
    requires w > 0
    ensures (x % w * 2) % w == (x * 2) % w
  {
    AddMultiple(x % w * 2, w, 2 * (x / w));
    assert x * 2 == x % w * 2 + w * (2 * (x / w)) by {
      assert x == w * (x / w) + x % w;
      MulAssoc(w, 2, x / w);
    }
  }

  /** A left shift by less than a word, from its pieces: the halves shifted on their own, and the bits
      carried over, which are found by shifting right once too little and then by one more. */
  lemma LeftShort(hi: int, lo: int, a: int, b: int, p: int, w: int)
    requires a > 0 && p > 0 && b == p * 2 && w == a * b && 0 <= lo < w
    ensures w > 0
    ensures var high, low, x := (hi * a) % w, (lo * a) % w, lo / p / 2;
            && high >= 0 && high % a == 0 && 0 <= x < a
            && ((hi * w + lo) * a) % (w * w) == (high + x) * w + low
  {
    ShiftDigit(hi, a, b, w);
    ShiftDigit(lo, a, b, w);
    DivTwice(lo, p, 2);
    CarryBelow(lo, a, b, w);
    MultipleMod(a, hi % b);
    ShiftPairLeft(hi, lo, a, b, w);
  }

  /** A left shift by a word or more: the upper half is lost. */
  lemma LeftLong(hi: int, lo: int, a: int, w: int)
    requires w > 0
    ensures w * w > 0 && ((hi * w + lo) * (a * w)) % (w * w) == ((lo * a) % w) * w
  {
    MulAtLeast(w, w);
    var q, r := lo * a / w, lo * a % w;
    var x := (hi * w + lo) * (a * w);
    assert x == (w * w) * (hi * a + q) + r * w by {
      var y := (hi * w + lo) * a;
      assert y == w * (hi * a + q) + r by {
        MulDistribute(a, hi * w, lo);
        MulAssoc(hi, w, a);
        MulDistribute(w, hi * a, q);
        assert lo * a == w * q + r;
      }
      assert x == y * w by {
        MulAssoc(hi * w + lo, a, w);
      }
      MulDistribute(w, w * (hi * a + q), r);
      MulAssoc(w, hi * a + q, w);
    }
    ProductBelow(r, 0, w, w);
    ModUnique(x, w * w, hi * a + q, r * w);
  }

  /** A right shift by less than a word of the number n * w + lo, whose upper digit n is held as the word hi. */
  lemma RightShort(n: int, hi: int, lo: int, a: int, b: int, p: int, w: int)
    requires a > 0 && p > 0 && b == p * 2 && w == a * b && 0 <= lo < w && (hi == n || hi == n + w)
    ensures w > 0
    ensures var x := (hi * p) % w * 2 % w;
            && x >= 0 && x % b == 0 && 0 <= lo / a < b && x + lo / a < w
            && (n * w + lo) / a == (n / a) * w + (x + lo / a)
  {
    ShiftDigit(hi, b, a, w);
    DoubleMod(hi * p, w);
    MulAssoc(hi, p, 2);
    AddMultiple(n, a, b);
    MultipleMod(b, hi % a);
    CarryBelow(lo, b, a, w);
    ShiftPairRight(n, lo, a, b, w);
  }

  /** A right shift by a word or more: the lower digit is lost. */
  lemma RightLong(n: int, lo: int, a: int, w: int)
    requires a > 0 && w > 0 && 0 <= lo < w
    ensures a * w > 0 && (n * w + lo) / (a * w) == n / a
  {
    var x := n * w + lo;
    assert x == w * n + lo;
    ModUnique(x, w, n, lo);
    DivTwice(x, w, a);
    assert w * a == a * w;
  }

  /** Reducing a two-digit number modulo the square of the base reduces its upper digit. */
  lemma PairMod(k: int, y: int, w: int)
    requires w > 0 && 0 <= y < w
    ensures w * w > 0 && (k * w + y) % (w * w) == (k % w) * w + y
  {
    MulAtLeast(w, w);
    ProductBelow(k % w, y, w, w);
    assert k * w + y == (w * w) * (k / w) + ((k % w) * w + y) by {
      assert k == w * (k / w) + k % w;
      MulDistribute(w, w * (k / w), k % w);
      MulAssoc(w, k / w, w);
    }
    ModUnique(k * w + y, w * w, k / w, (k % w) * w + y);
  }

  lemma QuotientBelow(x: int, p: int)
    requires x >= 0 && p > 0
    ensures 0 <= x / p <= x
  {
    MulAtLeast(x + 1, p);
    CarryBelow(x, x + 1, p, (x + 1) * p);
  }

  /** A negative number divided by a positive one stays negative and does not move away from zero. */
  lemma QuotientAbove(n: int, a: int)
    requires n < 0 && a > 0
    ensures n <= n / a < 0
  {
    var q, r := n / a, n % a;
    assert n == a * q + r;
    if q >= 0 {
      MulAtLeastTimes(a, 0, q);
    }
    if q < n {
      MulAtLeastTimes(a, q, n - 1);
      MulDistribute(a, n, -1);
      MulAtLeast(-n, a);
    }
  }
}
