/** Integer facts behind the factor search: squares, divisibility and the
    integer square root that stands in for `floor(sqrt(x))`. */
module Arith {

  function Square(k: int): int {
    k * k
  }

  /** `d` is a positive divisor of `x`. */
  predicate Divides(d: int, x: int) {
    d >= 1 && x % d == 0
  }

  lemma MulLe(a: nat, b: nat, c: nat, d: nat)
    requires a <= b && c <= d
    ensures a * c <= b * d
  {
    assert a * c <= b * c;
    assert b * c <= b * d;
  }

  lemma MulLeCancel(a: int, b: int, c: int)
    requires c >= 1 && a * c <= b * c
    ensures a <= b
  {
    assert (a - b) * c == a * c - b * c;
    SignedProductBounds(a - b, c);
  }

  lemma MulCancel(a: int, b: int, c: int)
    requires c >= 1 && a * c == b * c
    ensures a == b
  {
    MulLeCancel(a, b, c);
    MulLeCancel(b, a, c);
  }

  lemma SignedProductBounds(d: int, b: int)
    requires b >= 1
    ensures d >= 1 ==> d * b >= b
    ensures d <= -1 ==> d * b <= -b
  {
  }

  lemma SquareMonotone(a: nat, b: nat)
    requires a <= b
    ensures Square(a) <= Square(b)
  {
    MulLe(a, b, a, b);
  }

  /** A product is divisible by each of its positive factors, with the other
      factor as quotient. */
  lemma DividesProduct(a: nat, b: nat)
    requires b >= 1
    ensures Divides(b, a * b) && (a * b) / b == a
  {
    var x := a * b;
    var q, r := x / b, x % b;
    assert x == q * b + r && 0 <= r < b;
    assert (a - q) * b == r;
    SignedProductBounds(a - q, b);
  }

  lemma IsqrtStep(x: nat, s: nat)
    requires Square(s) <= x / 4 < Square(s + 1)
    ensures Square(2 * s) <= x < Square(2 * s + 2)
  {
    assert Square(2 * s) == 4 * Square(s);
    assert Square(2 * s + 2) == 4 * Square(s + 1);
  }

  /** The integer square root: the unique `r` with r*r <= x < (r+1)*(r+1). */
  function Isqrt(x: nat): (r: nat)
    ensures Square(r) <= x < Square(r + 1)
  {
    if x < 4 then
      (if x == 0 then 0 else 1)
    else
      var s := Isqrt(x / 4);
      IsqrtStep(x, s);
      var t := 2 * s;
      if Square(t + 1) <= x then t + 1 else t
  }

  lemma IsqrtUnique(x: nat, k: nat)
    requires Square(k) <= x < Square(k + 1)
    ensures Isqrt(x) == k
  {
    var r := Isqrt(x);
    if r < k {
      SquareMonotone(r + 1, k);
    } else if k < r {
      SquareMonotone(k + 1, r);
    }
  }

  /** Every divisor `q` with q*q <= x lies at or below the integer square root. */
  lemma BelowIsqrt(x: nat, q: nat)
    requires Square(q) <= x
    ensures q <= Isqrt(x)
  {
    if Isqrt(x) < q {
      SquareMonotone(Isqrt(x) + 1, q);
    }
  }

  // Facts about exact real (rational) arithmetic. Each is stated over plain
  // variables so that the solver meets one nonlinear step at a time.

  lemma RealProduct(a: nat, b: nat)
    ensures (a * b) as real == a as real * b as real
  {
  }

  lemma PosProduct(x: real, y: real)
    requires x > 0.0 && y > 0.0
    ensures x * y > 0.0
  {
  }

  lemma NonNegProduct(x: real, y: real)
    requires x >= 0.0 && y >= 0.0
    ensures x * y >= 0.0
  {
  }

  lemma SignOfProduct(x: real, y: real)
    requires y > 0.0
    ensures x <= 0.0 <==> x * y <= 0.0
  {
    if x > 0.0 {
      PosProduct(x, y);
    } else {
      NonNegProduct(-x, y);
      assert (-x) * y == -(x * y);
    }
  }

  /** On non-negative reals, squaring preserves and reflects the order. */
  lemma SquareLeIff(a: real, b: real)
    requires a >= 0.0 && b >= 0.0
    ensures a <= b <==> a * a <= b * b
  {
    assert (b - a) * (b + a) == b * b - a * a;
    if a <= b {
      NonNegProduct(b - a, b + a);
    } else {
      PosProduct(a - b, a + b);
      assert (a - b) * (a + b) == a * a - b * b;
    }
  }

  /** Cross-multiplication compares quotients with positive denominators. */
  lemma QuotientLeIff(a: real, b: real, c: real, d: real)
    requires b > 0.0 && d > 0.0
    ensures a * d <= c * b <==> a / b <= c / d
  {
    var p, q := a / b, c / d;
    assert a == p * b;
    assert c == q * d;
    assert a * d - c * b == (p - q) * (b * d);
    PosProduct(b, d);
    SignOfProduct(p - q, b * d);
  }
}
