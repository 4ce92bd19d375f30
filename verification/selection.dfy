/** Picking the squarest member of a collection (`squarest_of`) or of an
    inclusive integer range (`squarest_total`). */
module Selection {
  import opened Outcomes
  import opened Arith
  import opened Factors
  import opened Scoring

  predicate HasSquare(c: seq<int>) {
    exists i :: 0 <= i < |c| && IsSquare(c[i])
  }

  predicate AllNonNegative(c: seq<int>) {
    forall i :: 0 <= i < |c| ==> c[i] >= 0
  }

  /** The perfect squares of `c`, in their order in `c`. */
  function Squares(c: seq<int>): (r: seq<int>)
    ensures forall y :: y in r <==> y in c && IsSquare(y)
    ensures |r| > 0 <==> HasSquare(c)
  {
    if |c| == 0 then []
    else
      var rest := Squares(c[1..]);
      assert HasSquare(c) <==> IsSquare(c[0]) || HasSquare(c[1..]) by {
        if HasSquare(c[1..]) {
          var i :| 0 <= i < |c[1..]| && IsSquare(c[1..][i]);
          assert c[i + 1] == c[1..][i];
        }
        if HasSquare(c) && !IsSquare(c[0]) {
          var i :| 0 <= i < |c| && IsSquare(c[i]);
          assert c[1..][i - 1] == c[i];
        }
      }
      (if IsSquare(c[0]) then [c[0]] else []) + rest
  }

  /** The first element of the ascending sort. */
  function Least(s: seq<int>): (m: int)
    requires |s| > 0
    ensures m in s && forall y :: y in s ==> m <= y
  {
    if |s| == 1 then s[0]
    else
      var m := Least(s[1..]);
      assert forall y :: y in s ==> y == s[0] || y in s[1..];
      if s[0] <= m then s[0] else m
  }

  /** The first element of the descending sort. */
  function Greatest(s: seq<int>): (m: int)
    requires |s| > 0
    ensures m in s && forall y :: y in s ==> y <= m
  {
    if |s| == 1 then s[0]
    else
      var m := Greatest(s[1..]);
      assert forall y :: y in s ==> y == s[0] || y in s[1..];
      if m <= s[0] then s[0] else m
  }

  /** The key `max` ranks candidates by: the squareness of a non-negative
      number. */
  function Key(x: int): (s: Score)
    requires x >= 0
    ensures 0 < s.short <= s.long
  {
    Squareness(x).value
  }

  /** Once the last element beats the best of the prefix, it is at least as
      square as every element and strictly squarer than every earlier one. */
  lemma NewBestDominates(c: seq<int>, k: nat)
    requires |c| > 1 && AllNonNegative(c) && k < |c| - 1
    requires forall i :: 0 <= i < |c| - 1 ==> AtMost(Key(c[i]), Key(c[k]))
    requires !AtMost(Key(c[|c| - 1]), Key(c[k]))
    ensures forall i :: 0 <= i < |c| ==> AtMost(Key(c[i]), Key(c[|c| - 1]))
    ensures forall i :: 0 <= i < |c| - 1 ==> !AtMost(Key(c[|c| - 1]), Key(c[i]))
  {
    var last := c[|c| - 1];
    forall i | 0 <= i < |c| - 1
      ensures AtMost(Key(c[i]), Key(last)) && !AtMost(Key(last), Key(c[i]))
    {
      AtMostTransitive(Key(c[i]), Key(c[k]), Key(last));
      if AtMost(Key(last), Key(c[i])) {
        AtMostTransitive(Key(last), Key(c[i]), Key(c[k]));
      }
    }
  }

  /** The index `max(c, key=squareness)` picks: the running best is replaced
      only by a strictly squarer element, so the first element of maximal
      squareness wins. */
  function SquarestIndex(c: seq<int>): (k: nat)
    requires |c| > 0 && AllNonNegative(c)
    ensures k < |c|
    ensures forall i :: 0 <= i < |c| ==> AtMost(Key(c[i]), Key(c[k]))
    ensures forall i :: 0 <= i < k ==> !AtMost(Key(c[k]), Key(c[i]))
  {
    if |c| == 1 then 0
    else
      var k := SquarestIndex(c[..|c| - 1]);
      if !AtMost(Key(c[|c| - 1]), Key(c[k])) then
        NewBestDominates(c, k);
        |c| - 1
      else
        k
  }

  /** `squarest_of` with the default sort key: the least perfect square of
      `c` (the greatest when `greatest` is set) if there is one, otherwise the
      first element of maximal squareness. Scoring a negative element fails,
      and an empty collection has no maximum. */
  function SquarestOf(c: seq<int>, greatest: bool): (r: Result<int>)
    ensures r.Ok? ==> r.value in c
    ensures r.Ok? <==> HasSquare(c) || (|c| > 0 && AllNonNegative(c))
    ensures r == Err(EmptySequence) <==> |c| == 0
    ensures r.Err? ==> r.error != NoFactorFound
  {
    var squares := Squares(c);
    if |squares| > 0 then
      Ok(if greatest then Greatest(squares) else Least(squares))
    else if |c| == 0 then
      Err(EmptySequence)
    else if !AllNonNegative(c) then
      Err(MathDomainError)
    else
      Ok(c[SquarestIndex(c)])
  }

  /** The reference description of the squarest choice: with perfect squares
      present, the least (or greatest) of them; otherwise an element at the
      first position of maximal squareness. */
  ghost predicate IsSquarestChoice(c: seq<int>, greatest: bool, r: int) {
    if HasSquare(c) then
      && r in c && IsSquare(r)
      && forall y :: y in c && IsSquare(y) ==> if greatest then y <= r else r <= y
    else
      && AllNonNegative(c)
      && exists k :: 0 <= k < |c| && c[k] == r && IsFirstSquarest(c, k)
  }

  ghost predicate IsFirstSquarest(c: seq<int>, k: nat)
    requires k < |c| && AllNonNegative(c)
  {
    && (forall i :: 0 <= i < |c| ==> AtMost(Key(c[i]), Key(c[k])))
    && (forall i :: 0 <= i < k ==> !AtMost(Key(c[k]), Key(c[i])))
  }

  lemma FirstSquarestUnique(c: seq<int>, j: nat, k: nat)
    requires AllNonNegative(c) && j < |c| && k < |c|
    requires IsFirstSquarest(c, j) && IsFirstSquarest(c, k)
    ensures j == k
  {
    assert AtMost(Key(c[k]), Key(c[j])) && AtMost(Key(c[j]), Key(c[k]));
  }

  /** `squarest_of` returns exactly the reference choice: a result satisfies
      the description, and no other value does. */
  lemma SquarestOfIsSquarestChoice(c: seq<int>, greatest: bool, r: int)
    ensures SquarestOf(c, greatest) == Ok(r) <==> IsSquarestChoice(c, greatest, r)
  {
    var squares := Squares(c);
    if HasSquare(c) {
      var best := if greatest then Greatest(squares) else Least(squares);
      assert SquarestOf(c, greatest) == Ok(best);
      if IsSquarestChoice(c, greatest, r) {
        assert r in squares && best in c && IsSquare(best);
      }
    } else if |c| > 0 && AllNonNegative(c) {
      var k := SquarestIndex(c);
      assert SquarestOf(c, greatest) == Ok(c[k]);
      assert IsFirstSquarest(c, k);
      if IsSquarestChoice(c, greatest, r) {
        var j :| 0 <= j < |c| && c[j] == r && IsFirstSquarest(c, j);
        FirstSquarestUnique(c, j, k);
      }
    }
  }

  /** Perfect squares are exactly the non-negative numbers of maximal
      squareness: nothing is squarer than a square, and whatever is as square
      as a square is one. */
  lemma SquaresAreSquarest(z: nat, y: nat)
    requires IsSquare(z)
    ensures AtMost(Key(y), Key(z))
    ensures AtMost(Key(z), Key(y)) <==> IsSquare(y)
  {
    SquarenessOneIffSquare(z);
    SquarenessOneIffSquare(y);
    var s, t := Key(z), Key(y);
    assert s.short == s.long;
    MulLe(t.short, t.long, s.long, s.long);
    if AtMost(s, t) {
      MulLe(t.short, t.long, s.long, s.long);
      MulLeCancel(t.long, t.short, s.long);
    }
  }

  /** Taking a perfect square first is only a shortcut: whatever
      `squarest_of` returns is at least as square as every non-negative
      candidate. */
  lemma SquarestOfMaximisesSquareness(c: seq<int>, greatest: bool)
    requires SquarestOf(c, greatest).Ok?
    ensures var r := SquarestOf(c, greatest).value;
      r >= 0 && forall i :: 0 <= i < |c| && c[i] >= 0 ==> AtMost(Key(c[i]), Key(r))
  {
    var r := SquarestOf(c, greatest).value;
    if HasSquare(c) {
      SquarestOfIsSquarestChoice(c, greatest, r);
      forall i | 0 <= i < |c| && c[i] >= 0
        ensures AtMost(Key(c[i]), Key(r))
      {
        SquaresAreSquarest(r, c[i]);
      }
    }
  }

  /** The candidates of `squarest_total`: the integers m, m+1, ..., m+n, as
      `range(m, m + n + 1)`; empty when n < 0. */
  function InclusiveRange(m: int, n: int): (r: seq<int>)
    ensures |r| == if n >= 0 then n + 1 else 0
    ensures forall i :: 0 <= i < |r| ==> r[i] == m + i
  {
    seq(if n >= 0 then n + 1 else 0, i => m + i)
  }

  lemma RangeCases(m: int, n: int)
    ensures var c := InclusiveRange(m, n);
      (0 <= n && 0 <= m + n ==> HasSquare(c) || AllNonNegative(c))
      && (m + n < 0 ==> !HasSquare(c) && (n >= 0 ==> !AllNonNegative(c)))
  {
    var c := InclusiveRange(m, n);
    if 0 <= n && m <= 0 <= m + n {
      IsqrtUnique(0, 0);
      assert c[-m] == 0 && IsSquare(c[-m]);
    }
    if m + n < 0 && n >= 0 {
      assert c[0] < 0;
    }
  }

  /** `squarest_total`: the squarest integer of the range [m, m + n]. It
      succeeds exactly when the range is non-empty and reaches 0 or above
      (an all-negative range fails when scored), and the result lies in the
      range. */
  function SquarestTotal(m: int, n: int, greatest: bool): (r: Result<int>)
    ensures r.Ok? <==> 0 <= n && 0 <= m + n
    ensures r.Ok? ==> m <= r.value <= m + n
  {
    RangeCases(m, n);
    SquarestOf(InclusiveRange(m, n), greatest)
  }

  /** In a range that contains a perfect square, the result is the first
      square k*k at or above m (the last one at or below m + n when the
      greatest is asked for). */
  lemma SquarestTotalIsBoundarySquare(m: int, n: int, k: nat, greatest: bool)
    requires m <= Square(k) <= m + n
    requires !greatest ==> k == 0 || Square(k - 1) < m
    requires greatest ==> m + n < Square(k + 1)
    ensures SquarestTotal(m, n, greatest) == Ok(Square(k))
  {
    var c := InclusiveRange(m, n);
    var z := Square(k);
    assert c[z - m] == z;
    IsSquareIffPerfectSquare(z);
    forall y | y in c && IsSquare(y)
      ensures if greatest then y <= z else z <= y
    {
      IsSquareIffPerfectSquare(y);
      var j: nat :| Square(j) == y;
      if greatest && j > k {
        SquareMonotone(k + 1, j);
      } else if !greatest && j < k {
        SquareMonotone(j, k - 1);
      } else if greatest {
        SquareMonotone(j, k);
      } else {
        SquareMonotone(k, j);
      }
    }
    assert IsSquarestChoice(c, greatest, z);
    SquarestOfIsSquarestChoice(c, greatest, z);
  }

  /** A prime scores 1/p and is not a perfect square. */
  lemma KeyOfPrime(p: int)
    requires Prime(p)
    ensures !IsSquare(p) && Key(p) == Score(1, p)
  {
    IsPrimeMeansOneOrPrime(p);
    FactorSearchSucceeds(p);
    var f := SquarishFactors(p).value;
    assert Min(f.large, f.small) == 1;
    assert f.small == 1 && f.large == p;
    assert Key(p) == Score(f.small, f.large);
    SquarenessOneIffSquare(p);
  }

  /** Among primes listed in ascending order the first is the squarest: the
      smaller a prime, the larger its score 1/p. */
  lemma SquarestOfAscendingPrimes(c: seq<int>, greatest: bool)
    requires |c| > 0
    requires forall i :: 0 <= i < |c| ==> Prime(c[i])
    requires forall i, j :: 0 <= i < j < |c| ==> c[i] < c[j]
    ensures SquarestOf(c, greatest) == Ok(c[0])
  {
    forall i | 0 <= i < |c|
      ensures c[i] >= 0 && !IsSquare(c[i]) && AtMost(Key(c[i]), Key(c[0]))
    {
      KeyOfPrime(c[i]);
      KeyOfPrime(c[0]);
    }
    assert IsFirstSquarest(c, 0);
    assert IsSquarestChoice(c, greatest, c[0]);
    SquarestOfIsSquarestChoice(c, greatest, c[0]);
  }
}
