/** Integer division by a positive divisor. */
module Division {

  lemma Cancel(d: int, a: int, b: int)
    requires d > 0
    ensures d * a < d * b ==> a < b
    ensures d * (b + 1) == d * b + d
  {
    assert d * b - d * a == d * (b - a);
  }

  /** The quotient of `x` is the one multiple count that brackets it. */
  lemma QuotientUnique(x: int, d: int, q: int)
    requires d > 0 && d * q <= x < d * q + d
    ensures x / d == q
  {
    var p := x / d;
    assert d * p <= x < d * p + d;
    Cancel(d, p, q + 1);
    Cancel(d, q, p + 1);
    Cancel(d, p, q);
    Cancel(d, q, p);
  }

  lemma QuotientMonotone(x: int, y: int, d: int)
    requires d > 0 && x <= y
    ensures x / d <= y / d
  {
    var q, r := x / d, y / d;
    assert d * q <= x < d * q + d && d * r <= y < d * r + d;
    Cancel(d, q, r + 1);
    Cancel(d, r, r);
  }

  lemma QuotientApart(x: int, y: int, d: int)
    requires d > 0 && y >= x + d
    ensures x / d < y / d
  {
    QuotientMonotone(x + d, y, d);
    var q := x / d;
    assert d * q <= x < d * q + d;
    Cancel(d, q, q);
    QuotientUnique(x + d, d, q + 1);
  }

  lemma QuotientWithin(x: int, d: int, q: int)
    requires d > 0 && 0 <= x <= d * q
    ensures 0 <= x / d <= q
  {
    QuotientMonotone(0, x, d);
    QuotientMonotone(x, d * q, d);
    QuotientUnique(d * q, d, q);
    QuotientUnique(0, d, 0);
  }

  /** Two numbers that add up to a multiple have quotients that do, less one unless they are multiples. */
  lemma QuotientsAddUp(x: int, y: int, d: int, q: int)
    requires d > 0 && x + y == d * q
    ensures x / d + y / d == if x % d == 0 then q else q - 1
  {
    var p := x / d;
    assert x == d * p + x % d;
    if x % d == 0 {
      assert d * (q - p) == d * q - d * p;
      QuotientUnique(y, d, q - p);
    } else {
      assert d * (q - p - 1) == d * q - d * p - d;
      QuotientUnique(y, d, q - p - 1);
    }
  }
}
