/**
 * Python's `round` on an exact rational n/d (d > 0): the nearest integer,
 * an exact half going to the even neighbour.
 */
module Rounding {

  function RoundHalfEven(n: int, d: int): (r: int)
    requires d > 0
    ensures n / d <= r <= n / d + 1
  {
    var q := n / d;
    var m := n % d;
    if 2 * m < d then q
    else if 2 * m > d then q + 1
    else if q % 2 == 0 then q
    else q + 1
  }

  /**
   * The reference definition: r lies within one half of n/d, and is even
   * when n/d lies exactly halfway between two integers.
   */
  predicate IsNearestTiesEven(n: int, d: int, r: int)
    requires d > 0
  {
    && d * (2 * r - 1) <= 2 * n <= d * (2 * r + 1)
    && (2 * n == d * (2 * r - 1) || 2 * n == d * (2 * r + 1) ==> r % 2 == 0)
  }

  lemma MulLeft(d: int, a: int, b: int)
    requires d > 0 && a <= b
    ensures d * a <= d * b
  {
  }

  lemma MulLeftStrict(d: int, a: int, b: int)
    requires d > 0 && a < b
    ensures d * a < d * b
  {
  }

  lemma MulCancel(d: int, a: int, b: int)
    requires d > 0 && d * a == d * b
    ensures a == b
  {
    if a < b { MulLeftStrict(d, a, b); } else if b < a { MulLeftStrict(d, b, a); }
  }

  /** The bounds of IsNearestTiesEven for r = q and r = q + 1, written out around d * q. */
  lemma Expand(d: int, q: int)
    ensures d * (2 * q - 1) == 2 * (d * q) - d
    ensures d * (2 * q + 1) == 2 * (d * q) + d
    ensures d * (2 * (q + 1) - 1) == 2 * (d * q) + d
    ensures d * (2 * (q + 1) + 1) == 2 * (d * q) + 3 * d
  {
  }

  /** The computed rounding meets the reference definition. */
  lemma RoundHalfEvenIsNearest(n: int, d: int)
    requires d > 0
    ensures IsNearestTiesEven(n, d, RoundHalfEven(n, d))
  {
    var q := n / d;
    var m := n % d;
    assert n == d * q + m && 0 <= m < d;
    Expand(d, q);
  }

  /** At most one integer meets the reference definition. */
  lemma NearestTiesEvenUnique(n: int, d: int, r1: int, r2: int)
    requires d > 0
    requires IsNearestTiesEven(n, d, r1) && IsNearestTiesEven(n, d, r2)
    ensures r1 == r2
  {
    if r1 != r2 {
      var a, b := if r1 < r2 then r1 else r2, if r1 < r2 then r2 else r1;
      // d(2b - 1) <= 2n <= d(2a + 1) with 2a + 1 <= 2b - 1 leaves only equality
      MulLeft(d, 2 * a + 1, 2 * b - 1);
      assert 2 * n == d * (2 * a + 1) == d * (2 * b - 1);
      MulCancel(d, 2 * a + 1, 2 * b - 1);
      // so b == a + 1 and both are even
      assert false;
    }
  }

  /** RoundHalfEven is the one integer nearest n/d with ties to even. */
  lemma RoundHalfEvenCharacterized(n: int, d: int, r: int)
    requires d > 0
    ensures RoundHalfEven(n, d) == r <==> IsNearestTiesEven(n, d, r)
  {
    RoundHalfEvenIsNearest(n, d);
    if IsNearestTiesEven(n, d, r) {
      NearestTiesEvenUnique(n, d, r, RoundHalfEven(n, d));
    }
  }

  /**
   * If a/2 <= n1/d1 <= n2/d2 <= b/2 then a <= b, and a == b only when both
   * outer bounds are reached.
   */
  lemma ScaledBounds(n1: int, d1: int, n2: int, d2: int, a: int, b: int)
    requires d1 > 0 && d2 > 0
    requires d1 * a <= 2 * n1 && 2 * n2 <= d2 * b
    requires n1 * d2 <= n2 * d1
    ensures a <= b
    ensures a == b ==> d1 * a == 2 * n1 && 2 * n2 == d2 * b
  {
    var dd := d1 * d2;
    MulLeft(d2, d1 * a, 2 * n1);
    MulLeft(d1, 2 * n2, d2 * b);
    assert d2 * (d1 * a) == dd * a;
    assert d1 * (d2 * b) == dd * b;
    assert dd * a <= dd * b;
    if b < a {
      MulLeftStrict(dd, b, a);
      assert false;
    }
    if a == b {
      assert d2 * (d1 * a) == d2 * (2 * n1);
      MulCancel(d2, d1 * a, 2 * n1);
      assert d1 * (2 * n2) == d1 * (d2 * b);
      MulCancel(d1, 2 * n2, d2 * b);
    }
  }

  /** Rounding never reverses the order of two rationals n1/d1 <= n2/d2. */
  lemma RoundHalfEvenMonotone(n1: int, d1: int, n2: int, d2: int)
    requires d1 > 0 && d2 > 0
    requires n1 * d2 <= n2 * d1
    ensures RoundHalfEven(n1, d1) <= RoundHalfEven(n2, d2)
  {
    var r1, r2 := RoundHalfEven(n1, d1), RoundHalfEven(n2, d2);
    RoundHalfEvenIsNearest(n1, d1);
    RoundHalfEvenIsNearest(n2, d2);
    ScaledBounds(n1, d1, n2, d2, 2 * r1 - 1, 2 * r2 + 1);
    // r1 <= r2 + 1; at r1 == r2 + 1 both quotients are ties, so both are even
  }
}
