/** The most nearly square factor pair of an integer (`squarish_factors`),
    the perfect-square test (`is_square`) and the primality test built on the
    factor pair (`is_prime`). */
module Factors {
  import opened Outcomes
  import opened Arith

  /** A factor pair as `squarish_factors` returns it: larger factor first. */
  datatype FactorPair = FactorPair(large: nat, small: nat)

  /** `is_square`: the integer square root squares back to `x`; negative
      numbers are never squares, and a non-square lies strictly between two
      consecutive squares. */
  predicate IsSquare(x: int): (b: bool)
    ensures b ==> x >= 0
    ensures x >= 0 && !b ==> Square(Isqrt(x)) < x < Square(Isqrt(x) + 1)
  {
    x >= 0 && Square(Isqrt(x)) == x
  }

  /** The integer square-root test agrees with the mathematical notion of a
      perfect square, for every integer including the negative ones. */
  lemma IsSquareIffPerfectSquare(x: int)
    ensures IsSquare(x) <==> exists k: nat :: Square(k) == x
  {
    if k: nat :| Square(k) == x {
      assert Square(k) < Square(k + 1);
      IsqrtUnique(x, k);
    }
  }

  /** The downward scan `for d in range(mid, 0, -1)`: the largest divisor of
      `x` in `[1, d]`, or `None` when there is none. */
  function LargestDivisorUpTo(x: nat, d: nat): (r: Option<nat>)
    ensures r.Some? ==> 1 <= r.value <= d && Divides(r.value, x)
    ensures r.Some? ==> forall e :: r.value < e <= d ==> !Divides(e, x)
    ensures r.None? ==> forall e :: 1 <= e <= d ==> !Divides(e, x)
    decreases d
  {
    if d == 0 then None
    else if x % d == 0 then Some(d)
    else LargestDivisorUpTo(x, d - 1)
  }

  lemma PairOfDivisor(x: nat, d: nat)
    requires Divides(d, x) && Square(d) <= x
    ensures (x / d) * d == x && d <= x / d
  {
    var q := x / d;
    assert x == q * d + x % d;
    assert x == q * d;
    MulLeCancel(d, q, d);
  }

  /** `squarish_factors`: a perfect square yields its root twice; any other
      non-negative `x` yields `(x / d, d)` for the first divisor `d` met
      scanning down from the integer square root. A negative `x` fails in the
      square root. */
  function SquarishFactors(x: int): (r: Result<FactorPair>)
    ensures r.Ok? ==> x >= 0 && r.value.large * r.value.small == x
    ensures r.Ok? ==> r.value.small <= r.value.large
    ensures r.Ok? && x >= 1 ==> 1 <= r.value.small
    ensures r.Ok? ==> r.value.small <= Isqrt(x)
    ensures r.Ok? ==> forall e :: r.value.small < e <= Isqrt(x) ==> !Divides(e, x)
    ensures r == Err(MathDomainError) <==> x < 0
  {
    if x < 0 then Err(MathDomainError)
    else if IsSquare(x) then
      var s := Isqrt(x);
      Ok(FactorPair(s, s))
    else
      match LargestDivisorUpTo(x, Isqrt(x))
      case Some(d) =>
        SquareMonotone(d, Isqrt(x));
        PairOfDivisor(x, d);
        Ok(FactorPair(x / d, d))
      case None => Err(NoFactorFound)
  }

  /** The closing `raise` of `squarish_factors` is unreachable: the scan always
      meets the divisor 1, so the search fails exactly for negative input. */
  lemma FactorSearchSucceeds(x: int)
    ensures SquarishFactors(x).Ok? <==> x >= 0
  {
    if x >= 0 && !IsSquare(x) {
      assert x != 0 by {
        IsqrtUnique(0, 0);
      }
      assert Square(1) <= x;
      BelowIsqrt(x, 1);
      assert Divides(1, x);
    }
  }

  /** The reference notion of "most nearly square": a factor pair, larger
      factor first, whose smaller factor is at least every divisor `q` of `x`
      with q*q <= x. */
  ghost predicate IsSquarestPair(x: nat, p: FactorPair) {
    && p.large * p.small == x
    && 1 <= p.small <= p.large
    && forall q :: Divides(q, x) && Square(q) <= x ==> q <= p.small
  }

  /** For every positive `x`, the scan returns exactly the most nearly square
      factor pair, and no other pair qualifies. */
  lemma SquarishFactorsIsSquarestPair(x: nat, p: FactorPair)
    requires x >= 1
    ensures SquarishFactors(x) == Ok(p) <==> IsSquarestPair(x, p)
  {
    FactorSearchSucceeds(x);
    var f := SquarishFactors(x).value;
    forall q | Divides(q, x) && Square(q) <= x
      ensures q <= f.small
    {
      BelowIsqrt(x, q);
    }
    assert IsSquarestPair(x, f);
    if IsSquarestPair(x, p) {
      DividesProduct(p.large, p.small);
      MulLe(p.small, p.large, p.small, p.small);
      assert Square(p.small) <= x;
      DividesProduct(f.large, f.small);
      MulLe(f.small, f.large, f.small, f.small);
      assert p.small == f.small;
      MulCancel(p.large, f.large, f.small);
    }
  }

  /** Among all factorisations x == p * q with q <= p, the returned pair has
      the smallest ratio large/small and the smallest spread large - small. */
  lemma SquarishFactorsMostNearlySquare(x: nat, p: nat, q: nat)
    requires 1 <= q <= p && p * q == x
    ensures SquarishFactors(x).Ok?
    ensures var f := SquarishFactors(x).value;
      q <= f.small <= f.large <= p
    ensures var f := SquarishFactors(x).value;
      q * f.large <= f.small * p && f.large - f.small <= p - q
  {
    FactorSearchSucceeds(x);
    var f := SquarishFactors(x).value;
    DividesProduct(p, q);
    MulLe(q, p, q, q);
    BelowIsqrt(x, q);
    assert q <= f.small;
    MulLe(p, p, q, f.small);
    MulLeCancel(f.large, p, f.small);
    MulLe(q, f.small, f.large, p);
  }

  /** A perfect square k*k factors as (k, k); in particular 0 gives (0, 0). */
  lemma PerfectSquareFactors(k: nat)
    ensures SquarishFactors(Square(k)) == Ok(FactorPair(k, k))
  {
    assert Square(k) < Square(k + 1);
    IsqrtUnique(Square(k), k);
  }

  function Min(a: int, b: int): int {
    if a <= b then a else b
  }

  /** `is_prime`: the smaller factor of the most nearly square pair is 1. */
  function IsPrime(x: int): (r: Result<bool>)
    ensures r.Ok? <==> x >= 0
    ensures r.Err? ==> r.error == MathDomainError
  {
    if x < 0 then Err(MathDomainError)
    else
      FactorSearchSucceeds(x);
      var p := SquarishFactors(x).value;
      Ok(Min(p.large, p.small) == 1)
  }

  /** The textbook notion of a prime number. */
  ghost predicate Prime(x: int) {
    x >= 2 && forall d :: 2 <= d < x ==> !Divides(d, x)
  }

  /** A proper divisor of `x` forces a smaller factor of at least 2. */
  lemma ProperDivisorGivesSmallFactor(x: nat, d: nat)
    requires Divides(d, x) && 2 <= d < x
    ensures SquarishFactors(x).Ok? && SquarishFactors(x).value.small >= 2
  {
    var e := x / d;
    assert x == e * d + x % d;
    assert e * d == x;
    if e <= d {
      SquarishFactorsMostNearlySquare(x, d, e);
    } else {
      SquarishFactorsMostNearlySquare(x, e, d);
    }
  }

  /** A smaller factor of 1 leaves no proper divisor. */
  lemma SmallFactorOneMeansPrime(x: nat)
    requires x >= 2 && SquarishFactors(x).Ok? && SquarishFactors(x).value.small == 1
    ensures Prime(x)
  {
    forall d | 2 <= d < x
      ensures !Divides(d, x)
    {
      if Divides(d, x) {
        ProperDivisorGivesSmallFactor(x, d);
      }
    }
  }

  /** A smaller factor of 2 or more is itself a proper divisor. */
  lemma SmallFactorAboveOneMeansComposite(x: nat)
    requires SquarishFactors(x).Ok? && SquarishFactors(x).value.small >= 2
    ensures x >= 2 && !Prime(x)
  {
    var f := SquarishFactors(x).value;
    assert f.large * f.small == x;
    MulLe(2, f.large, f.small, f.small);
    assert 2 * f.small <= x;
    DividesProduct(f.large, f.small);
    assert Divides(f.small, x) && 2 <= f.small < x;
  }

  /** `is_prime` holds exactly for 1 and the primes; 0 is not prime. */
  lemma IsPrimeMeansOneOrPrime(x: int)
    requires x >= 0
    ensures IsPrime(x) == Ok(x == 1 || Prime(x))
  {
    FactorSearchSucceeds(x);
    var f := SquarishFactors(x).value;
    if x == 0 {
      PerfectSquareFactors(0);
    } else if f.small == 1 {
      if x >= 2 {
        SmallFactorOneMeansPrime(x);
      }
    } else {
      SmallFactorAboveOneMeansComposite(x);
    }
  }
}
