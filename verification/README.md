# squarish — a Dafny model of the squarest-factor search

This project models the core of the `squarish` Python library
(`squarish/squarish.py`): finding the most nearly square factor pair of an
integer, scoring how square an integer is, and picking the squarest member of
a collection or of an inclusive integer range.

The model is purely functional and uses exact arithmetic:

- `Arith` — the integer square root `Isqrt`, divisibility, and small
  arithmetic facts. `Isqrt` is the exact floor of the square root, which is
  what `math.floor(math.sqrt(x))` computes while the float square root is
  exact; for large `x` the float expression can differ from it.
- `Factors` — `IsSquare` (`is_square`), the downward divisor scan
  `LargestDivisorUpTo`, `SquarishFactors` (`squarish_factors`) and `IsPrime`
  (`is_prime`).
- `Scoring` — `Squareness` (`squareness`) and `IsSquarish` (`is_squarish`).
  For a squarest pair `m * n == x` the source's score
  `(sqrt(x)/m + n/sqrt(x)) / 2` equals `sqrt(n/m)`; the model keeps the exact
  ratio `n/m` as a `Score(short, long)` and compares scores by
  cross-multiplication (`AtMost`). Lemmas tie the ratio back to the source's
  formula and its comparisons, using any real `sr` with `sr * sr == x`.
- `Selection` — `SquarestOf` (`squarest_of` with the default sort key) and
  `SquarestTotal` (`squarest_total`).
- `Examples` — the documentation examples of each function, proved.
- `Outcomes` — `Option`/`Result` and the error values: `MathDomainError` for
  the square root of a negative number, `NoFactorFound` for the `raise` after
  the scan, and `EmptySequence` for `max()` of an empty collection.

Behaviour of the code worth knowing, all of which the model reproduces:

- A negative `x` makes `math.sqrt` raise a domain error; no function checks
  its input first.
- `is_prime(0)` returns false, because the pair of 0 is (0, 0).
- `is_prime(1)` returns true, because the pair of 1 is (1, 1).
- Without perfect squares, `squarest_of` returns the first element of maximal
  squareness in collection order, as Python's `max` does.
- `squarest_of` fails on a negative element only when the collection holds no
  perfect square, because the perfect-square path never scores the elements.
- The parameter notes of `squarest_of` (`squarish/squarish.py:76-77`) say
  that `reverse_on_key=False` returns the highest perfect square. The code
  and its examples return the highest one with `reverse_on_key=True`, and so
  does the model.

## Model

| member | source | states |
|---|---|---|
| Arith.Isqrt | squarish/squarish.py:133 | the scan start `r` satisfies r*r <= x < (r+1)*(r+1), the exact floor of the square root |
| Arith.IsqrtUnique | squarish/squarish.py:133 | any k with k*k <= x < (k+1)*(k+1) is that floor square root |
| Factors.IsSquare | squarish/squarish.py:223-242 | `is_square(x)` holds only for x >= 0; a non-negative non-square lies strictly between the squares of its floor root and the next integer |
| Factors.IsSquareIffPerfectSquare | squarish/squarish.py:223-242 | `is_square(x)` holds iff x == k*k for some natural k, so it is false for every negative x |
| Factors.LargestDivisorUpTo | squarish/squarish.py:135-137 | the downward scan from d returns the largest divisor of x in [1, d]; it returns nothing only when no number in [1, d] divides x |
| Factors.SquarishFactors | squarish/squarish.py:105-140 | on success a*b == x and b <= a; b >= 1 when x >= 1; b <= floor(sqrt x), and no d with b < d <= floor(sqrt x) divides x; it fails with the domain error exactly for negative x |
| Factors.FactorSearchSucceeds | squarish/squarish.py:133-140 | the search succeeds iff x >= 0, so the closing `raise` is unreachable |
| Factors.SquarishFactorsIsSquarestPair | squarish/squarish.py:105-137 | for x >= 1 the result is p iff p is a factor pair with 1 <= small <= large whose small factor bounds every divisor q of x with q*q <= x |
| Factors.SquarishFactorsMostNearlySquare | squarish/squarish.py:133-137 | for every factorisation x == p*q with 1 <= q <= p, the result's ratio large/small is at most p/q and its spread large - small is at most p - q |
| Factors.PerfectSquareFactors | squarish/squarish.py:129-131 | k*k yields (k, k); in particular 0 yields (0, 0) |
| Factors.IsPrime | squarish/squarish.py:245-274 | defined exactly for x >= 0; a negative x fails in the square root |
| Factors.ProperDivisorGivesSmallFactor | squarish/squarish.py:274 | a divisor d with 2 <= d < x forces the smaller factor of the squarest pair to be at least 2 |
| Factors.IsPrimeMeansOneOrPrime | squarish/squarish.py:245-274 | for x >= 0, `is_prime(x)` is true iff x is 1 or a prime, and it is false for 0 |
| Scoring.Squareness | squarish/squarish.py:168-195 | defined iff x >= 0; the ratio short/long lies in (0, 1]; for x >= 1, short and long multiply to x |
| Scoring.SquarenessOneIffSquare | squarish/squarish.py:168-195 | the score is exactly 1 iff x is a perfect square, 0 included |
| Scoring.FormulaCollapse | squarish/squarish.py:195 | with sr*sr == m*n, both summands of the formula equal n/sr, and (n/sr)^2 == n/m |
| Scoring.FormulaOfPair | squarish/squarish.py:192-195 | for a pair n <= m, the formula's value v satisfies v*v == n/m and 0 < v <= 1 |
| Scoring.SquarenessMatchesFormula | squarish/squarish.py:190-195 | for x >= 1 and `m, n = squarish_factors(x)`, the formula `(sr/m + n/sr)/2`, evaluated with an exact square root sr of x, squares to the model's ratio and lies in (0, 1] |
| Scoring.SquarenessIsSquarestPair | squarish/squarish.py:190-195 | for x >= 1 the score's two parts (long, short) form the most nearly square factor pair of x, in the independent sense of `IsSquarestPair` |
| Scoring.SquarenessIsBestRatio | squarish/squarish.py:190-195 | every factorisation x == p*q with 1 <= q <= p scores at most `squareness(x)` |
| Scoring.AtMostIffScoreLe | squarish/squarish.py:101 | comparing ratios by cross-multiplication orders scores exactly as comparing their positive square roots does |
| Scoring.AtMostTransitive | squarish/squarish.py:101 | the ordering used for `max` is transitive |
| Scoring.IsSquarish | squarish/squarish.py:144-165 | defined iff x >= 0; a negative x fails in the square root |
| Scoring.ExceedsIffAbove | squarish/squarish.py:165 | the ratio test `t < 0 or t*t < ratio` is exactly `sqrt(ratio) > t` |
| Scoring.IsSquarishIffAbove | squarish/squarish.py:165 | `is_squarish(x, t)` returns exactly `squareness(x) > t` |
| Selection.Squares | squarish/squarish.py:98 | the filtered list holds exactly the perfect squares of c, and it is non-empty iff c holds a perfect square |
| Selection.Key | squarish/squarish.py:101 | the `max` key of a non-negative candidate is its squareness, a ratio in (0, 1] |
| Selection.Least | squarish/squarish.py:98 | the head of the ascending sort is a member of the list that is <= every member |
| Selection.Greatest | squarish/squarish.py:98 | the head of the descending sort is a member of the list that is >= every member |
| Selection.NewBestDominates | squarish/squarish.py:101 | an element strictly squarer than the best of the prefix is at least as square as all, and strictly squarer than all earlier ones |
| Selection.SquarestIndex | squarish/squarish.py:101 | `max(c, key=squareness)` picks an index whose squareness is maximal, with every earlier element strictly less square |
| Selection.SquarestOf | squarish/squarish.py:55-101 | the result is a member of c; it succeeds iff c holds a perfect square, or c is non-empty with no negative element; it fails with the empty-sequence error iff c is empty |
| Selection.FirstSquarestUnique | squarish/squarish.py:101 | the first position of maximal squareness is unique |
| Selection.SquarestOfIsSquarestChoice | squarish/squarish.py:96-101 | the result is r iff r is the least (greatest when reversed) perfect square of c, or, with no perfect square, the element at the first position of maximal squareness |
| Selection.SquaresAreSquarest | squarish/squarish.py:96-101 | no number is squarer than a perfect square, and only perfect squares are as square |
| Selection.SquarestOfMaximisesSquareness | squarish/squarish.py:96-101 | taking a perfect square first is only a shortcut: the result is at least as square as every non-negative candidate |
| Selection.InclusiveRange | squarish/squarish.py:52 | `range(m, m + n + 1)` holds n + 1 elements, the i-th being m + i, and is empty when n < 0 |
| Selection.RangeCases | squarish/squarish.py:52 | a non-empty range that reaches 0 or above holds a square or no negatives; a range entirely below 0 holds no square and, if non-empty, a negative |
| Selection.SquarestTotal | squarish/squarish.py:8-52 | succeeds iff n >= 0 and m + n >= 0; the result lies in [m, m + n] |
| Selection.SquarestTotalIsBoundarySquare | squarish/squarish.py:8-52 | when [m, m + n] contains k*k, the result is the first square at or above m, or the last one at or below m + n when reversed |
| Selection.KeyOfPrime | squarish/squarish.py:190-195 | a prime p is not a perfect square and scores 1/p |
| Selection.SquarestOfAscendingPrimes | squarish/squarish.py:92-93 | for primes in ascending order the first is returned, e.g. 2 for the primes below 8000 |
| Examples.SquarishFactorsExamples | squarish/squarish.py:116-126 | 20 -> (5, 4), 36 -> (6, 6), 53 -> (53, 1), 0 -> (0, 0) |
| Examples.IsSquareExamples | squarish/squarish.py:229-236 | 1 and 4 are squares; -1 is not |
| Examples.IsPrimeExamples | squarish/squarish.py:251-272 | 1, 2, 3, 5, 7 are reported prime; 4 and 6 are not |
| Examples.SquarenessExamples | squarish/squarish.py:177-184 | squareness(1) and squareness(4) are 1; squareness(5) < squareness(12) |
| Examples.IsSquarishExamples | squarish/squarish.py:158-162 | at the default threshold 0.75, 67 is not squarish and 12 is |
| Examples.SquarestOfExamples | squarish/squarish.py:83-87 | [1..12] gives 1, and 9 when reversed |
| Examples.SquarestOfNoSquareExample | squarish/squarish.py:89-90 | [8, 10, ..., 65] gives 63 |
| Examples.SquarestTotalExample1 | squarish/squarish.py:32-33 | squarest_total(10, 7) is 16 |
| Examples.SquarestTotalExample2 | squarish/squarish.py:35-39 | squarest_total(3, 8) is 4, and 9 with return_greatest |
| Examples.SquarestTotalExample3 | squarish/squarish.py:41-45 | squarest_total(9, 27) is 9, and 36 with return_greatest |
| Examples.SquarestTotalNoSquareExample | squarish/squarish.py:47-48 | squarest_total(37, 10) is 42 |

## Left out

- `squarish/arbitrary_ratios.py` is not part of this model. It has no well-defined behaviour to model:
  - `fittest_of` and `fittest_factors` only raise `NotImplementedError`.
  - `factors_of` takes `x % 0` on its first iteration.
  - `squareness` and `is_prime` in that file call a function the file never defines.
  - Its remaining helpers repeat `squarish.py`.
- `r_size` is a plain `max - min` with nothing to verify.
- Floating point: `math.sqrt`, `int(x/d)` and the score formula are modelled with exact integers and rationals. Rounding for large `x` is not modelled. For example, the float square root can report a large non-square as a square.
- Scoring.Squareness: returns the exact ratio `n/m`, not the float `sqrt(n/m)`. Lemmas relate the two. Two equal ratios whose float scores differ in the last bit would break a tie differently in the source.
- Scoring.IsSquarish: the threshold is an exact real number. A NaN or infinite float threshold is not modelled.
- `functools.lru_cache`: memoisation does not change any result.
- Selection.SquarestOf: only the default sort key (numeric order) and the reverse flag are modelled. Arbitrary `sort_key` callables are not.
- Selection.SquarestOf: the collection is a finite sequence. A one-shot iterator, which the source would consume twice, is not modelled.
- Inputs that are not integers, such as floats passed to `is_square`, are not modelled.
