/** The worked examples from the library's documentation, proved about the
    model. */
module Examples {
  import opened Outcomes
  import opened Arith
  import opened Factors
  import opened Scoring
  import opened Selection

  lemma SquarishFactorsExamples()
    ensures SquarishFactors(20) == Ok(FactorPair(5, 4))
    ensures SquarishFactors(36) == Ok(FactorPair(6, 6))
    ensures SquarishFactors(53) == Ok(FactorPair(53, 1))
    ensures SquarishFactors(0) == Ok(FactorPair(0, 0))
  {
    FactorsFromScan(20, 4, 4);
    PerfectSquareFactors(6);
    FactorsFromScan(53, 7, 1);
    PerfectSquareFactors(0);
  }

  lemma IsSquareExamples()
    ensures IsSquare(1) && !IsSquare(-1) && IsSquare(4)
  {
  }

  lemma IsPrimeExamples()
    ensures IsPrime(1) == Ok(true) && IsPrime(2) == Ok(true) && IsPrime(3) == Ok(true)
    ensures IsPrime(4) == Ok(false) && IsPrime(5) == Ok(true) && IsPrime(6) == Ok(false)
    ensures IsPrime(7) == Ok(true)
  {
  }

  lemma SquarenessExamples()
    ensures Squareness(1) == Ok(Score(1, 1)) && Squareness(4) == Ok(Score(2, 2))
    ensures !AtMost(Key(12), Key(5))
  {
  }

  lemma IsSquarishExamples()
    ensures IsSquarish(67, DefaultThreshold) == Ok(false)
    ensures IsSquarish(12, DefaultThreshold) == Ok(true)
  {
    KeyFromScan(67, 8, 1, 67);
    KeyFromScan(12, 3, 3, 4);
  }

  lemma SquarestOfExamples()
    ensures SquarestOf([1, 2, 3, 4, 5, 6, 7, 8, 9, 10, 11, 12], false) == Ok(1)
    ensures SquarestOf([1, 2, 3, 4, 5, 6, 7, 8, 9, 10, 11, 12], true) == Ok(9)
  {
    var c := [1, 2, 3, 4, 5, 6, 7, 8, 9, 10, 11, 12];
    assert IsSquare(c[0]) && IsSquare(c[8]);
    assert !IsSquare(10) && !IsSquare(11) && !IsSquare(12);
    assert HasSquare(c);
    assert forall y :: y in c ==> 1 <= y <= 12;
    assert forall y :: y in c && IsSquare(y) ==> y <= 9;
    assert IsSquarestChoice(c, false, 1);
    assert IsSquarestChoice(c, true, 9);
    SquarestOfIsSquarestChoice(c, false, 1);
    SquarestOfIsSquarestChoice(c, true, 9);
  }

  /** For a non-square `x` whose integer square root is `k`, the squarest
      pair is read off the first divisor `d` of the downward scan from `k`. */
  lemma FactorsFromScan(x: nat, k: nat, d: nat)
    requires Square(k) < x < Square(k + 1)
    requires LargestDivisorUpTo(x, k) == Some(d)
    ensures SquarishFactors(x) == Ok(FactorPair(x / d, d))
  {
    IsqrtUnique(x, k);
    NotSquareBetween(k, x);
  }

  lemma KeyFromScan(x: nat, k: nat, d: nat, q: nat)
    requires Square(k) < x < Square(k + 1)
    requires LargestDivisorUpTo(x, k) == Some(d) && q == x / d
    ensures Key(x) == Score(d, q)
  {
    FactorsFromScan(x, k, d);
    assert x >= 1;
  }

  lemma KeysOfEvenRowA()
    ensures Key(8) == Score(2, 4) && Key(10) == Score(2, 5) && Key(15) == Score(3, 5)
    ensures Key(17) == Score(1, 17) && Key(24) == Score(4, 6) && Key(26) == Score(2, 13)
  {
    KeyFromScan(8, 2, 2, 4);
    KeyFromScan(10, 3, 2, 5);
    KeyFromScan(15, 3, 3, 5);
    KeyFromScan(17, 4, 1, 17);
    KeyFromScan(24, 4, 4, 6);
    KeyFromScan(26, 5, 2, 13);
  }

  lemma KeysOfEvenRowB()
    ensures Key(35) == Score(5, 7) && Key(37) == Score(1, 37) && Key(48) == Score(6, 8)
    ensures Key(50) == Score(5, 10) && Key(63) == Score(7, 9) && Key(65) == Score(5, 13)
  {
    KeyFromScan(35, 5, 5, 7);
    KeyFromScan(37, 6, 1, 37);
    KeyFromScan(48, 6, 6, 8);
    KeyFromScan(50, 7, 5, 10);
    KeyFromScan(63, 7, 7, 9);
    KeyFromScan(65, 8, 5, 13);
  }

  const EvenRow: seq<int> := [8, 10, 15, 17, 24, 26, 35, 37, 48, 50, 63, 65]

  lemma EvenRowHasNoSquare()
    ensures !HasSquare(EvenRow)
  {
    var c := EvenRow;
    forall y | y in c
      ensures !IsSquare(y)
    {
      if y < 9 {
        NotSquareBetween(2, y);
      } else if y < 16 {
        NotSquareBetween(3, y);
      } else if y < 25 {
        NotSquareBetween(4, y);
      } else if y < 36 {
        NotSquareBetween(5, y);
      } else if y < 49 {
        NotSquareBetween(6, y);
      } else if y < 64 {
        NotSquareBetween(7, y);
      } else {
        NotSquareBetween(8, y);
      }
    }
    assert forall i :: 0 <= i < |c| ==> c[i] in c;
  }

  lemma EvenRowFirstSquarest()
    ensures AllNonNegative(EvenRow) && EvenRow[10] == 63 && IsFirstSquarest(EvenRow, 10)
  {
    var c := EvenRow;
    KeysOfEvenRowA();
    KeysOfEvenRowB();
    forall i | 0 <= i < |c|
      ensures c[i] >= 0 && AtMost(Key(c[i]), Score(7, 9))
      ensures i < 10 ==> !AtMost(Score(7, 9), Key(c[i]))
    {
      if i == 0 {
        assert c[i] == 8;
      } else if i == 1 {
        assert c[i] == 10;
      } else if i == 2 {
        assert c[i] == 15;
      } else if i == 3 {
        assert c[i] == 17;
      } else if i == 4 {
        assert c[i] == 24;
      } else if i == 5 {
        assert c[i] == 26;
      } else if i == 6 {
        assert c[i] == 35;
      } else if i == 7 {
        assert c[i] == 37;
      } else if i == 8 {
        assert c[i] == 48;
      } else if i == 9 {
        assert c[i] == 50;
      } else if i == 10 {
        assert c[i] == 63;
      } else {
        assert c[i] == 65;
      }
    }
  }

  lemma SquarestOfNoSquareExample()
    ensures SquarestOf([8, 10, 15, 17, 24, 26, 35, 37, 48, 50, 63, 65], false) == Ok(63)
  {
    EvenRowHasNoSquare();
    EvenRowFirstSquarest();
    assert IsSquarestChoice(EvenRow, false, 63);
    SquarestOfIsSquarestChoice(EvenRow, false, 63);
  }

  /** The candidates strictly between two consecutive squares are not squares. */
  lemma NotSquareBetween(k: nat, y: int)
    requires Square(k) < y < Square(k + 1)
    ensures !IsSquare(y)
  {
    IsqrtUnique(y, k);
  }

  lemma SquarestTotalExample1()
    ensures SquarestTotal(10, 7, false) == Ok(16)
  {
    var c := InclusiveRange(10, 7);
    assert c[6] == 16 && IsSquare(16);
    forall y | y in c
      ensures IsSquare(y) ==> 16 <= y
    {
      if y < 16 {
        NotSquareBetween(3, y);
      }
    }
    assert IsSquarestChoice(c, false, 16);
    SquarestOfIsSquarestChoice(c, false, 16);
  }

  lemma SquarestTotalExample2()
    ensures SquarestTotal(3, 8, false) == Ok(4)
    ensures SquarestTotal(3, 8, true) == Ok(9)
  {
    var c := InclusiveRange(3, 8);
    assert c[1] == 4 && IsSquare(4) && c[6] == 9 && IsSquare(9);
    forall y | y in c
      ensures IsSquare(y) ==> 4 <= y <= 9
    {
      if y < 4 {
        NotSquareBetween(1, y);
      } else if y > 9 {
        NotSquareBetween(3, y);
      }
    }
    assert IsSquarestChoice(c, false, 4) && IsSquarestChoice(c, true, 9);
    SquarestOfIsSquarestChoice(c, false, 4);
    SquarestOfIsSquarestChoice(c, true, 9);
  }

  lemma SquarestTotalExample3()
    ensures SquarestTotal(9, 27, false) == Ok(9)
    ensures SquarestTotal(9, 27, true) == Ok(36)
  {
    var c := InclusiveRange(9, 27);
    assert c[0] == 9 && IsSquare(9) && c[27] == 36 && IsSquare(36);
    assert forall y :: y in c ==> 9 <= y <= 36;
    assert IsSquarestChoice(c, false, 9) && IsSquarestChoice(c, true, 36);
    SquarestOfIsSquarestChoice(c, false, 9);
    SquarestOfIsSquarestChoice(c, true, 36);
  }

  lemma KeysOfRangeA()
    ensures Key(37) == Score(1, 37) && Key(38) == Score(2, 19) && Key(39) == Score(3, 13)
    ensures Key(40) == Score(5, 8) && Key(41) == Score(1, 41) && Key(42) == Score(6, 7)
  {
    KeyFromScan(37, 6, 1, 37);
    KeyFromScan(38, 6, 2, 19);
    KeyFromScan(39, 6, 3, 13);
    KeyFromScan(40, 6, 5, 8);
    KeyFromScan(41, 6, 1, 41);
    KeyFromScan(42, 6, 6, 7);
  }

  lemma KeysOfRangeB()
    ensures Key(43) == Score(1, 43) && Key(44) == Score(4, 11) && Key(45) == Score(5, 9)
    ensures Key(46) == Score(2, 23) && Key(47) == Score(1, 47)
  {
    KeyFromScan(43, 6, 1, 43);
    KeyFromScan(44, 6, 4, 11);
    KeyFromScan(45, 6, 5, 9);
    KeyFromScan(46, 6, 2, 23);
    KeyFromScan(47, 6, 1, 47);
  }

  lemma RangeFrom37HasNoSquare()
    ensures !HasSquare(InclusiveRange(37, 10))
  {
    var c := InclusiveRange(37, 10);
    forall i | 0 <= i < |c|
      ensures !IsSquare(c[i])
    {
      NotSquareBetween(6, c[i]);
    }
  }

  lemma RangeFrom37FirstSquarest()
    ensures var c := InclusiveRange(37, 10);
      AllNonNegative(c) && c[5] == 42 && IsFirstSquarest(c, 5)
  {
    var c := InclusiveRange(37, 10);
    KeysOfRangeA();
    KeysOfRangeB();
    forall i | 0 <= i < |c|
      ensures c[i] >= 0 && AtMost(Key(c[i]), Score(6, 7))
      ensures i < 5 ==> !AtMost(Score(6, 7), Key(c[i]))
    {
      assert c[i] in {37, 38, 39, 40, 41, 42, 43, 44, 45, 46, 47};
    }
  }

  lemma SquarestTotalNoSquareExample()
    ensures SquarestTotal(37, 10, false) == Ok(42)
  {
    var c := InclusiveRange(37, 10);
    RangeFrom37HasNoSquare();
    RangeFrom37FirstSquarest();
    assert IsSquarestChoice(c, false, 42);
    SquarestOfIsSquarestChoice(c, false, 42);
  }
}
