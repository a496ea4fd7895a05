/**
 * `Math.max` and `Math.min` on integers, and the facts about integer
 * division the interpolations of the extension rely on (`/` by a positive
 * divisor is `Math.floor` of the quotient).
 */
module JsMath {
  function Max(a: int, b: int): int {
    if a >= b then a else b
  }

  function Min(a: int, b: int): int {
    if a <= b then a else b
  }

  lemma DivShift(x: int, d: int, c: int)
    requires d > 0
    ensures (x + d * c) / d == x / d + c
  {
    var q, r := x / d, x % d;
    var q', r' := (x + d * c) / d, (x + d * c) % d;
    assert d * q' + r' == d * (q + c) + r;
    assert d * (q' - (q + c)) == r - r';
    if q' > q + c {
      MulAtLeast(d, q' - (q + c));
    } else if q' < q + c {
      MulAtLeast(d, (q + c) - q');
    }
  }

  lemma MulAtLeast(d: int, m: int)
    requires d > 0 && m >= 1
    ensures d * m >= d
  {
  }

  lemma MulNonNegative(a: int, b: int)
    requires a >= 0 && b >= 0
    ensures a * b >= 0
  {
  }

  lemma MulMonotone(a: int, b: int, m: int)
    requires a <= b && m >= 0
    ensures a * m <= b * m
  {
    MulNonNegative(b - a, m);
  }

  lemma DivMonotone(x: int, y: int, d: int)
    requires x <= y && d > 0
    ensures x / d <= y / d
  {
    var q, q' := x / d, y / d;
    if q > q' {
      assert d * q + x % d == x;
      assert d * q' + y % d == y;
      MulAtLeast(d, q - q');
    }
  }
}
