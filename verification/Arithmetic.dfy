/**
  Division with remainder, for divisors that are not literals.
 */
module Arithmetic {

  lemma {:induction false} MulAtLeast(d: int, e: int)
    requires d > 0 && e > 0
    ensures d * e >= d
  {
    if e > 1 {
      MulAtLeast(d, e - 1);
      assert d * e == d * (e - 1) + d;
    }
  }

  lemma ModUnique(x: int, d: int, q: int, r: int)
    requires d > 0 && x == d * q + r && 0 <= r < d
    ensures x % d == r && x / d == q
  {
    var q' := x / d;
    var e := q' - q;
    assert d * e == r - x % d by {
      assert x == d * q' + x % d;
      assert d * e == d * q' - d * q;
    }
    if e > 0 {
      MulAtLeast(d, e);
    } else if e < 0 {
      MulAtLeast(d, -e);
    }
  }

  lemma MultipleMod(p: int, k: int)
    requires p > 0
    ensures (p * k) % p == 0 && (k * p) % p == 0
  {
    ModUnique(p * k, p, k, 0);
  }

  /** The next smaller multiple. */
  lemma MultipleBelow(p: int, j: int, k: int)
    requires p > 0 && p * j < p * k
    ensures p * j <= p * k - p
  {
    var e := k - j;
    assert p * e == p * k - p * j;
    if e > 0 {
      MulAtLeast(p, e);
    } else if e < 0 {
      MulAtLeast(p, -e);
    }
  }

  lemma MulDistribute(a: int, x: int, y: int)
    ensures a * (x + y) == a * x + a * y && (x + y) * a == x * a + y * a
  {
  }

  lemma MulAssoc(a: int, b: int, c: int)
    ensures (a * b) * c == a * (b * c) && (a * b) * c == (a * c) * b
  {
  }

  lemma AddMultiple(x: int, w: int, k: int)
    requires w > 0
    ensures (x + w * k) % w == x % w
  {
    assert x + w * k == w * (x / w + k) + x % w by {
      MulDistribute(w, x / w, k);
    }
    ModUnique(x + w * k, w, x / w + k, x % w);
  }
}
