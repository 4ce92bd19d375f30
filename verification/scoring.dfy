/** How square a number is (`squareness`) and the threshold test on it
    (`is_squarish`).

    The source scores `x`, with most nearly square pair `m * n == x`, as
    `(sqrt(x)/m + n/sqrt(x)) / 2`. Both summands equal `sqrt(n/m)`, so the score
    is the square root of the exact ratio `n/m`. The model keeps that ratio and
    compares scores by cross-multiplication; since the square root is
    monotone, every comparison of scores is a comparison of ratios. */
module Scoring {
  import opened Outcomes
  import opened Arith
  import opened Factors

  /** A squareness of `sqrt(short / long)`, kept as the ratio itself. */
  datatype Score = Score(short: nat, long: nat) {
    /** The square of the score, as an exact rational. */
    function Ratio(): real
      requires long > 0
    {
      short as real / long as real
    }
  }

  /** `s` is no squarer than `t`. */
  predicate AtMost(s: Score, t: Score) {
    s.short * t.long <= t.short * s.long
  }

  /** `squareness`: 1 for 0, the ratio small/large of the most nearly square
      pair otherwise; a negative `x` fails in the square root. */
  function Squareness(x: int): (r: Result<Score>)
    ensures r.Ok? <==> x >= 0
    ensures r.Err? ==> r.error == MathDomainError
    ensures r.Ok? ==> 0 < r.value.short <= r.value.long
    ensures r.Ok? && x >= 1 ==> r.value.long * r.value.short == x
  {
    if x < 0 then Err(MathDomainError)
    else if x == 0 then Ok(Score(1, 1))
    else
      FactorSearchSucceeds(x);
      var f := SquarishFactors(x).value;
      Ok(Score(f.small, f.large))
  }

  /** A score of exactly 1 singles out the perfect squares (0 included). */
  lemma SquarenessOneIffSquare(x: nat)
    ensures Squareness(x).value.short == Squareness(x).value.long <==> IsSquare(x)
  {
    if x == 0 {
      IsqrtUnique(0, 0);
    } else {
      FactorSearchSucceeds(x);
      var f := SquarishFactors(x).value;
      if IsSquare(x) {
        PerfectSquareFactors(Isqrt(x));
      }
      if f.small == f.large {
        assert Square(f.small) == x;
        IsSquareIffPerfectSquare(x);
      }
    }
  }

  /** Both summands of the source's formula equal n/sr, whose square is n/m. */
  lemma FormulaCollapse(m: real, n: real, sr: real)
    requires m > 0.0 && n > 0.0 && sr > 0.0 && sr * sr == m * n
    ensures (sr / m + n / sr) / 2.0 == n / sr
    ensures (n / sr) * (n / sr) == n / m
  {
    var u := n / sr;
    assert n == u * sr;
    assert sr * sr == m * (u * sr);
    assert sr == m * u;
    assert sr / m == u;
    assert (u * u) * m == u * sr;
    assert (u * u) * m == n;
  }

  /** The source's score for the pair `m * n` (larger factor `m`), given the
      square root `sr` of the product: `(sr/m + n/sr) / 2`. A zero divisor,
      which no positive pair meets, gives 0. */
  function Formula(m: nat, n: nat, sr: real): real {
    if m == 0 || sr == 0.0 then 0.0 else (sr / m as real + n as real / sr) / 2.0
  }

  /** The source's formula for a factor pair `m * n` with n <= m, evaluated
      with an exact square root `sr` of the product, squares to n/m and lies
      in (0, 1]. */
  lemma FormulaOfPair(m: nat, n: nat, sr: real)
    requires 0 < n <= m && sr > 0.0 && sr * sr == (m * n) as real
    ensures var v := Formula(m, n, sr);
      v * v == Score(n, m).Ratio() && 0.0 < v <= 1.0
  {
    RealProduct(m, n);
    FormulaCollapse(m as real, n as real, sr);
    var v := n as real / sr;
    assert v > 0.0;
    QuotientLeIff(n as real, m as real, 1.0, 1.0);
    SquareLeIff(v, 1.0);
  }

  /** The model's ratio is exactly the square of the source's floating-point
      formula, evaluated with an exact square root `sr` of `x`, and that
      formula lies in (0, 1]. */
  lemma SquarenessMatchesFormula(x: nat, sr: real, f: FactorPair)
    requires x >= 1 && sr > 0.0 && sr * sr == x as real
    requires SquarishFactors(x) == Ok(f)
    ensures var v := Formula(f.large, f.small, sr);
      v * v == Squareness(x).value.Ratio() && 0.0 < v <= 1.0
  {
    SquarenessOfFactors(x);
    PairScoreFormula(x, f, Squareness(x).value, sr);
  }

  /** The formula step of the lemma above, stated over plain values. */
  lemma PairScoreFormula(x: nat, f: FactorPair, s: Score, sr: real)
    requires f.large * f.small == x && 0 < f.small <= f.large
    requires sr > 0.0 && sr * sr == x as real && s == Score(f.small, f.large)
    ensures var v := Formula(f.large, f.small, sr);
      v * v == s.Ratio() && 0.0 < v <= 1.0
  {
    FormulaOfPair(f.large, f.small, sr);
  }

  /** For positive `x` the score is read off the pair `squarish_factors`
      returns. */
  lemma SquarenessOfFactors(x: nat)
    requires x >= 1
    ensures SquarishFactors(x).Ok?
    ensures var f := SquarishFactors(x).value;
      Squareness(x) == Ok(Score(f.small, f.large))
  {
    FactorSearchSucceeds(x);
  }

  /** The score is that of the most nearly square factor pair: the pair
      (long, short) is the squarest pair of `x`. */
  lemma SquarenessIsSquarestPair(x: nat)
    requires x >= 1
    ensures var s := Squareness(x).value;
      IsSquarestPair(x, FactorPair(s.long, s.short))
  {
    FactorSearchSucceeds(x);
    SquarishFactorsIsSquarestPair(x, SquarishFactors(x).value);
  }

  /** No factorisation of `x` scores higher than `squareness(x)`. */
  lemma SquarenessIsBestRatio(x: nat, p: nat, q: nat)
    requires 1 <= q <= p && p * q == x
    ensures AtMost(Score(q, p), Squareness(x).value)
  {
    SquarishFactorsMostNearlySquare(x, p, q);
  }

  /** Comparing ratios by cross-multiplication is comparing the source's
      scores, the positive square roots `vs` and `vt` of those ratios. */
  lemma AtMostIffScoreLe(s: Score, t: Score, vs: real, vt: real)
    requires s.long > 0 && t.long > 0 && vs > 0.0 && vt > 0.0
    requires vs * vs == s.Ratio() && vt * vt == t.Ratio()
    ensures AtMost(s, t) <==> vs <= vt
  {
    RealProduct(s.short, t.long);
    RealProduct(t.short, s.long);
    QuotientLeIff(s.short as real, s.long as real, t.short as real, t.long as real);
    SquareLeIff(vs, vt);
  }

  lemma AtMostTransitive(s: Score, t: Score, u: Score)
    requires t.long > 0
    requires AtMost(s, t) && AtMost(t, u)
    ensures AtMost(s, u)
  {
    MulLe(s.short * t.long, t.short * s.long, u.long, u.long);
    MulLe(t.short * u.long, u.short * t.long, s.long, s.long);
    assert s.short * u.long * t.long <= u.short * s.long * t.long;
    MulLeCancel(s.short * u.long, u.short * s.long, t.long);
  }

  /** The default threshold of `is_squarish`. */
  const DefaultThreshold: real := 0.75

  /** The score `sqrt(short/long)` exceeds `t`: always when `t` is negative,
      otherwise exactly when `t * t` is below the ratio. */
  predicate Exceeds(s: Score, t: real) {
    t < 0.0 || t * t * (s.long as real) < s.short as real
  }

  /** `is_squarish`: the squareness strictly exceeds the threshold. */
  function IsSquarish(x: int, threshold: real): (r: Result<bool>)
    ensures r.Ok? <==> x >= 0
    ensures r.Err? ==> r.error == MathDomainError
  {
    match Squareness(x)
    case Ok(s) => Ok(Exceeds(s, threshold))
    case Err(e) => Err(e)
  }

  /** `is_squarish(x, t)` is exactly `squareness(x) > t`, where `v` is the
      source's score, the positive square root of the model's ratio. */
  lemma IsSquarishIffAbove(x: int, t: real, v: real)
    requires x >= 0 && v > 0.0 && v * v == Squareness(x).value.Ratio()
    ensures IsSquarish(x, t) == Ok(v > t)
  {
    ExceedsIffAbove(Squareness(x).value, t, v);
  }

  /** The threshold test on the ratio is the comparison of its square root. */
  lemma ExceedsIffAbove(s: Score, t: real, v: real)
    requires s.long > 0 && v > 0.0 && v * v == s.Ratio()
    ensures Exceeds(s, t) <==> v > t
  {
    if t >= 0.0 {
      QuotientLeIff(s.short as real, s.long as real, t * t, 1.0);
      SquareLeIff(v, t);
    }
  }
}
