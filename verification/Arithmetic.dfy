/** Products and quotients of integers. */
module Arithmetic {
  lemma QuotientIs(p: nat, top: nat, q: nat)
    requires top >= 1 && q * top <= p < (q + 1) * top
    ensures p / top == q
  {
    var r := p - q * top;
    assert p == top * q + r && 0 <= r < top;
    if p / top < q { LessTimes(p / top + 1, q, top); }
    if p / top > q { LessTimes(q + 1, p / top, top); }
  }

  lemma LessTimes(a: nat, b: nat, c: nat)
    requires a <= b
    ensures a * c <= b * c
  {
  }

  lemma Cancel(a: int, b: int, d: nat)
    requires d >= 1 && a * d < b * d
    ensures a < b
  {
    if a >= b {
      LessTimes(0, a - b, d);
      DistributeMinus(d, a, b);
      assert false;
    }
  }

  lemma DistributeMinus(a: int, b: int, c: int)
    ensures a * (b - c) == a * b - a * c && (b - c) * a == b * a - c * a
  {
  }

  lemma Associate(a: int, b: int, c: int)
    ensures (a * b) * c == a * (b * c) && (a * b) * c == (a * c) * b
  {
  }

  lemma Distribute(a: int, b: int, c: int)
    ensures a * (b + c) == a * b + a * c && (b + c) * a == b * a + c * a
  {
  }

  /** Two multiples of `d` that differ, differ by at least `d`. */
  lemma MultipleApart(a: nat, b: nat, d: nat)
    requires a < b
    ensures a * d + d <= b * d
  {
    LessTimes(a + 1, b, d);
    Distribute(d, a, 1);
  }

  /** The rounded quotient gives the nearest multiple, the larger one of two. */
  lemma RoundedNearest(x: nat, d: nat)
    requires d >= 1
    ensures var q := (x + d / 2) / d; 2 * (q * d - x) <= d && 2 * (x - q * d) < d
  {
    var q, r := (x + d / 2) / d, (x + d / 2) % d;
    var t := q * d;
    assert x + d / 2 == t + r;
  }

  lemma NearestOnly(x: nat, d: nat, v: nat)
    requires d >= 1 && 2 * (v * d - x) <= d && 2 * (x - v * d) < d
    ensures v == (x + d / 2) / d
  {
    var q := (x + d / 2) / d;
    RoundedNearest(x, d);
    if v < q { MultipleApart(v, q, d); }
    if q < v { MultipleApart(q, v, d); }
  }
}
