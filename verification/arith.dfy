/** Integer division as Python writes it: `int(a / b)` truncates, `math.ceil(a / b)` rounds up. */
module Arith {

  /** Python's `int(a / b)` for a positive divisor: the quotient truncated toward zero. */
  function TruncDiv(a: int, b: int): (q: int)
    requires b > 0
    ensures a >= 0 ==> q * b <= a < (q + 1) * b
    ensures a < 0 ==> (q - 1) * b < a <= q * b
  {
    if a >= 0 then a / b else -((-a) / b)
  }

  /** `math.ceil(a / b)` for a non-zero divisor of either sign. */
  function CeilDiv(a: int, b: int): (q: int)
    requires b != 0
    ensures b > 0 ==> (q - 1) * b < a <= q * b
    ensures b < 0 ==> q * b <= a < (q - 1) * b
  {
    if b > 0 then -((-a) / b) else -(a / (-b))
  }

  /** Euclidean division recovers the quotient and remainder of `q * b + r`. */
  lemma DivModOfSum(q: int, b: int, r: int)
    requires b > 0 && 0 <= r < b
    ensures (q * b + r) / b == q
    ensures (q * b + r) % b == r
  {
    var a := q * b + r;
    var q' := a / b;
    var r' := a % b;
    var d := q - q';
    assert q * b + r == q' * b + r';
    assert d * b == q * b - q' * b;
    assert d * b == r' - r;
    if d >= 1 {
      MulAtLeast(d, b);
    } else if d <= -1 {
      MulAtLeast(-d, b);
    }
  }

  lemma MulAtLeast(d: int, b: int)
    requires d >= 1 && b > 0
    ensures d * b >= b
  {
    assert d * b == (d - 1) * b + b;
  }

  /** A multiple of `b` is its quotient times `b`. */
  lemma ExactDiv(a: int, b: int)
    requires b > 0 && a % b == 0
    ensures (a / b) * b == a
  {
  }

  /** An index below `n * b` has quotient below `n`. */
  lemma DivBelow(i: int, b: int, n: int)
    requires b > 0 && 0 <= i < n * b
    ensures 0 <= i / b < n
  {
  }

  /** Row-major grid positions: cell `(j, c)` of an `n × b` grid lies inside it. */
  lemma GridIndex(j: int, c: int, b: int, n: int)
    requires 0 <= j < n && 0 <= c < b
    ensures 0 <= j * b + c < n * b
  {
    assert (j + 1) * b <= n * b by {
      assert n * b == (j + 1) * b + (n - j - 1) * b;
      MulNonNegative(n - j - 1, b);
    }
  }

  lemma MulNonNegative(x: int, y: int)
    requires x >= 0 && y >= 0
    ensures x * y >= 0
  {
  }

  /** Multiples of a positive `b` are ordered as their factors. */
  lemma ProductOrder(x: int, y: int, b: int)
    requires b > 0
    ensures x * b < y * b <==> x < y
    ensures x * b <= y * b <==> x <= y
  {
    if x < y {
      MulAtLeast(y - x, b);
      assert y * b - x * b == (y - x) * b;
    } else {
      MulNonNegative(x - y, b);
      assert x * b - y * b == (x - y) * b;
    }
  }

  /** Distinct multiples of a positive `b` lie at least `b` apart. */
  lemma MultiplesApart(x: int, y: int, b: int)
    requires b > 0
    ensures x < y ==> y * b - x * b >= b
    ensures x * b == y * b <==> x == y
  {
    if x < y {
      MulAtLeast(y - x, b);
      assert y * b - x * b == (y - x) * b;
    } else if y < x {
      MulAtLeast(x - y, b);
      assert x * b - y * b == (x - y) * b;
    }
  }

  /** For a non-negative numerator the rounded-up quotient is the truncated one or one
      more. */
  lemma CeilNearTrunc(a: int, b: int)
    requires a >= 0 && b > 0
    ensures TruncDiv(a, b) <= CeilDiv(a, b) <= TruncDiv(a, b) + 1
  {
    var q := TruncDiv(a, b);
    var c := CeilDiv(a, b);
    assert q * b <= c * b by {
      assert q * b <= a <= c * b;
    }
    ProductOrder(q, c, b);
    assert (c - 1) * b < (q + 1) * b by {
      assert (c - 1) * b < a < (q + 1) * b;
    }
    ProductOrder(c - 1, q + 1, b);
  }
}
