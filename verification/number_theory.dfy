/** The divisor and multiple lists of a board number
    (`getFactors` and `getMultiples` in services/gameLogic.ts). */
module NumberTheory {
  import opened OrderedSet

  /** The largest number on the board; multiples are listed up to it. */
  const BoardSize := 100

  /** `d` is a positive divisor of `n`. */
  predicate Divides(d: int, n: int) {
    d >= 1 && n % d == 0
  }

  /** `m` is a multiple of the positive `n` that lies on the board above `n`. */
  predicate MultipleOnBoard(m: int, n: int) {
    n >= 1 && n < m <= BoardSize && m % n == 0
  }

  // ---------------------------------------------------------------------
  // getFactors
  // ---------------------------------------------------------------------

  /** `getFactors(n)`: an empty list for 0, otherwise the set built by the
      scan `i = 1, 2, ...` while `i <= sqrt(n)`, read in insertion order. */
  function Factors(n: int): (r: seq<int>)
    ensures Distinct(r)
    ensures n <= 0 ==> r == []
  {
    if n == 0 then [] else FactorScan(n, 1, [])
  }

  /** One step of the loop at lines 6-11, with `acc` the set so far. The
      bound `i <= Math.sqrt(n)` is the integer test `i * i <= n`; for a
      negative `n` the square root is NaN and the loop does not run, as
      here. */
  function FactorScan(n: int, i: int, acc: seq<int>): (r: seq<int>)
    requires i >= 1
    ensures Distinct(acc) ==> Distinct(r)
    ensures n < i * i ==> r == acc
    decreases n - i + 1
  {
    if i * i > n then acc
    else
      MulMono(1, i, i);
      var acc' := if n % i == 0 then Add(Add(acc, i), n / i) else acc;
      FactorScan(n, i + 1, acc')
  }

  /** Reference order of the divisors: for ascending `i` with `i * i <= n`
      that divide `n`, the pair `i, n / i`, written once when they coincide. */
  function FactorPairs(n: int, i: int): seq<int>
    requires i >= 1
    decreases n - i + 1
  {
    if i * i > n then []
    else
      MulMono(1, i, i);
      StepPair(n, i) + FactorPairs(n, i + 1)
  }

  // ---------------------------------------------------------------------
  // Arithmetic facts the proofs below rely on
  // ---------------------------------------------------------------------

  /** Multiplying by a non-negative number keeps `<=`. */
  lemma MulMono(a: int, b: int, c: int)
    requires a <= b && 0 <= c
    ensures a * c <= b * c
  {
    assert b * c - a * c == (b - a) * c;
  }

  /** Multiplying by a positive number keeps `<`. */
  lemma MulStrict(a: int, b: int, c: int)
    requires a < b && 0 < c
    ensures a * c < b * c
  {
    assert b * c - a * c == (b - a) * c;
  }

  /** Euclidean division has one quotient and one remainder. */
  lemma DivUnique(n: int, q: int, d: int, m: int)
    requires q >= 1 && 0 <= m < q && n == d * q + m
    ensures n / q == d && n % q == m
  {
    var d' := n / q;
    var m' := n % q;
    assert d * q - d' * q == m' - m;
    if d > d' {
      MulMono(1, d - d', q);
      assert false;
    } else if d < d' {
      MulMono(1, d' - d, q);
      assert false;
    }
  }

  /** For a divisor `d` of a positive `n`, `n / d` is the divisor paired with it. */
  lemma CoDivisor(n: int, d: int)
    requires n >= 1 && Divides(d, n)
    ensures (n / d) * d == n
    ensures Divides(n / d, n) && n / (n / d) == d
    ensures d <= n
  {
    var q := n / d;
    assert n == q * d;
    if q <= 0 {
      MulMono(q, 0, d);
      assert false;
    }
    MulMono(1, q, d);
    DivUnique(n, q, d, 0);
  }

  /** What the divisor scan has gathered before step `i`: divisors of `n`
      that are either below `i` or the partner `n / j` of some `j < i`. */
  ghost predicate Gathered(n: int, i: int, acc: seq<int>) {
    forall x :: x in acc ==> Divides(x, n) && (x < i || n / x < i)
  }

  /** Neither `i` nor its partner `n / i` has been gathered before step `i`,
      and the partner is not below `i`. */
  lemma PairIsFresh(n: int, i: int, acc: seq<int>)
    requires n >= 1 && i >= 1 && i * i <= n && n % i == 0
    requires Gathered(n, i, acc)
    ensures i <= n / i && i !in acc && n / i !in acc
  {
    var q := n / i;
    CoDivisor(n, i);
    if q < i {
      MulStrict(q, i, i);
      assert false;
    }
  }

  /** What was gathered before step `i` still fits the invariant of step `i + 1`. */
  lemma GatheredNext(n: int, i: int, acc: seq<int>)
    requires n >= 1 && i >= 1 && Gathered(n, i, acc)
    ensures Gathered(n, i + 1, acc)
  {
  }

  /** The pair `i, n / i` (once when they coincide) that step `i` adds for a
      divisor `i`, and nothing for a non-divisor. */
  function StepPair(n: int, i: int): seq<int>
    requires i >= 1
  {
    if n % i != 0 then [] else if i == n / i then [i] else [i, n / i]
  }

  /** Gathering the pair of step `i` keeps the invariant of step `i + 1`. */
  lemma GatheredPair(n: int, i: int, acc: seq<int>)
    requires n >= 1 && i >= 1 && Gathered(n, i + 1, acc)
    ensures Gathered(n, i + 1, acc + StepPair(n, i))
  {
    if n % i == 0 {
      CoDivisor(n, i);
    }
  }

  /** Adding a fresh pair to the set appends it (once, for a square root). */
  lemma AddFreshPair(n: int, i: int, acc: seq<int>)
    requires i >= 1
    requires n % i == 0 ==> i !in acc && n / i !in acc
    ensures (if n % i == 0 then Add(Add(acc, i), n / i) else acc) == acc + StepPair(n, i)
  {
    if n % i == 0 {
      var once := Add(acc, i);
      assert once == acc + [i];
      if i == n / i {
        assert Add(once, n / i) == acc + [i];
      } else {
        assert n / i !in once;
        assert Add(once, n / i) == acc + [i, n / i];
      }
    }
  }

  /** One step of the scan adds exactly the step's pair to what was
      gathered, and keeps the invariant. */
  lemma ScanStep(n: int, i: int, acc: seq<int>)
    requires n >= 1 && i >= 1 && i * i <= n && Gathered(n, i, acc)
    ensures FactorScan(n, i, acc) == FactorScan(n, i + 1, acc + StepPair(n, i))
    ensures Gathered(n, i + 1, acc + StepPair(n, i))
  {
    if n % i == 0 {
      PairIsFresh(n, i, acc);
    }
    AddFreshPair(n, i, acc);
    GatheredNext(n, i, acc);
    GatheredPair(n, i, acc);
  }

  /** The scan's set equals the reference pair order appended to what was
      gathered before: `Set.add` only ever merges `i` with `n / i`, when `n`
      is a perfect square. */
  lemma {:induction false} ScanIsPairs(n: int, i: int, acc: seq<int>)
    requires n >= 1 && i >= 1 && Gathered(n, i, acc)
    ensures FactorScan(n, i, acc) == acc + FactorPairs(n, i)
    decreases n - i + 1
  {
    if i * i <= n {
      MulMono(1, i, i);
      ScanStep(n, i, acc);
      assert FactorPairs(n, i) == StepPair(n, i) + FactorPairs(n, i + 1);
      ScanIsPairs(n, i + 1, acc + StepPair(n, i));
      AppendAssoc(acc, StepPair(n, i), FactorPairs(n, i + 1));
    }
  }

  /** Concatenation regroups freely; the induction step of `ScanIsPairs`
      moves the step's pair from the gathered part to the pending part. */
  lemma AppendAssoc(a: seq<int>, b: seq<int>, c: seq<int>)
    ensures a + b + c == a + (b + c)
  {
  }

  /** The order in which `getFactors` yields the divisors: the factor pairs
      `i, n / i` for ascending `i`, each perfect-square root once. */
  lemma FactorsInPairOrder(n: int)
    ensures Factors(n) == FactorPairs(n, 1)
  {
    if n >= 1 {
      ScanIsPairs(n, 1, []);
    }
  }

  /** Everything the pair scan lists divides `n`. */
  lemma {:induction false} PairsAreDivisors(n: int, i: int, x: int)
    requires n >= 1 && i >= 1
    requires x in FactorPairs(n, i)
    ensures Divides(x, n)
    decreases n - i + 1
  {
    MulMono(1, i, i);
    if n % i == 0 && (x == i || x == n / i) {
      CoDivisor(n, i);
    } else {
      PairsAreDivisors(n, i + 1, x);
    }
  }

  /** The pair scan from `i` meets every divisor `j >= i` below the square
      root, and its partner `n / j`. */
  lemma {:induction false} PairsReach(n: int, i: int, j: int)
    requires n >= 1 && 1 <= i <= j && j * j <= n && n % j == 0
    ensures j in FactorPairs(n, i) && n / j in FactorPairs(n, i)
    decreases j - i
  {
    MulMono(i, j, i);
    MulMono(i, j, j);
    MulMono(1, i, i);
    if i < j {
      PairsReach(n, i + 1, j);
    }
  }

  /** Every divisor of a positive `n` is met by the pair scan: below the
      square root as `i`, above it as the partner of `n / x`. */
  lemma PairsReachDivisor(n: int, x: int)
    requires n >= 1 && Divides(x, n)
    ensures x in FactorPairs(n, 1)
  {
    CoDivisor(n, x);
    var q := n / x;
    if x * x <= n {
      PairsReach(n, 1, x);
    } else {
      if q >= x {
        MulMono(x, q, x);
        assert false;
      }
      MulMono(q, x, q);
      PairsReach(n, 1, q);
    }
  }

  /** `getFactors(n)` lists exactly the positive divisors of `n` for
      positive `n`, and nothing otherwise. */
  lemma FactorsAreDivisors(n: int, x: int)
    ensures x in Factors(n) <==> n >= 1 && Divides(x, n)
  {
    FactorsInPairOrder(n);
    if n >= 1 {
      if x in FactorPairs(n, 1) {
        PairsAreDivisors(n, 1, x);
      }
      if Divides(x, n) {
        PairsReachDivisor(n, x);
      }
    }
  }

  /** For positive `n`, 1 and `n` itself are both listed. */
  lemma FactorsHaveTrivialDivisors(n: int)
    requires n >= 1
    ensures 1 in Factors(n) && n in Factors(n)
  {
    FactorsAreDivisors(n, 1);
    FactorsAreDivisors(n, n);
  }

  /** The divisors of `n` as a set. */
  function DivisorSet(n: int): set<int> {
    set d | 1 <= d <= n && n % d == 0
  }

  /** A value is in `DivisorSet(n)` exactly when it divides `n`. */
  lemma InDivisorSet(n: int, x: int)
    ensures x in DivisorSet(n) <==> n >= 1 && Divides(x, n)
  {
    if n >= 1 && Divides(x, n) {
      CoDivisor(n, x);
    }
  }

  /** The values `getFactors(n)` lists are the divisors of `n`. */
  lemma FactorsElements(n: int)
    ensures Elements(Factors(n)) == DivisorSet(n)
  {
    forall x
      ensures x in Elements(Factors(n)) <==> x in DivisorSet(n)
    {
      FactorsAreDivisors(n, x);
      InDivisorSet(n, x);
    }
  }

  /** `getFactors(n)` has as many entries as `n` has divisors. */
  lemma FactorsCount(n: int)
    ensures |Factors(n)| == |DivisorSet(n)|
  {
    FactorsElements(n);
    DistinctCardinality(Factors(n));
  }

  /** Every listed divisor of a positive `n` is at most `n`. */
  lemma FactorsBounded(n: int, x: int)
    requires x in Factors(n)
    ensures 1 <= x <= n
  {
    FactorsAreDivisors(n, x);
    CoDivisor(n, x);
  }

  // ---------------------------------------------------------------------
  // getMultiples
  // ---------------------------------------------------------------------

  /** `getMultiples(n)`: `2n, 3n, ...` up to the board size. For a negative
      `n` the loop at line 19 counts downward without end and does not
      return normally, so the source only returns for `n >= 0`. */
  function Multiples(n: int): (r: seq<int>)
    requires n >= 0
    ensures |r| == 0 <==> n == 0 || BoardSize < 2 * n
  {
    if n == 0 then [] else MultiplesFrom(n, 2 * n)
  }

  /** The loop at lines 19-21 from the value `m` on: it starts at `m`,
      steps by `n`, and stops at the first value past the board. */
  function MultiplesFrom(n: int, m: int): (r: seq<int>)
    requires n >= 1
    ensures |r| > 0 ==> r[0] == m
    ensures forall k :: 0 < k < |r| ==> r[k] == r[k - 1] + n
    ensures forall k :: 0 <= k < |r| ==> m <= r[k] <= BoardSize
    ensures if |r| == 0 then BoardSize < m else BoardSize < r[|r| - 1] + n
    decreases BoardSize - m + 1
  {
    if m > BoardSize then [] else [m] + MultiplesFrom(n, m + n)
  }

  /** The `k`-th entry of a run that starts at `m` and steps by `n`. */
  lemma {:induction false} StepsFrom(r: seq<int>, m: int, n: int, k: int)
    requires 0 <= k < |r| && r[0] == m
    requires forall j :: 0 < j < |r| ==> r[j] == r[j - 1] + n
    ensures r[k] == m + k * n
    decreases k
  {
    if k > 0 {
      StepsFrom(r, m, n, k - 1);
      assert (k - 1) * n + n == k * n;
    }
  }

  /** `getMultiples(n)` is `2n, 3n, ..., kn` with `kn <= 100 < (k + 1)n`. */
  lemma MultiplesShape(n: int)
    requires n >= 1
    ensures forall k :: 0 <= k < |Multiples(n)| ==> Multiples(n)[k] == (k + 2) * n
    ensures forall k :: 0 <= k < |Multiples(n)| ==> Multiples(n)[k] <= BoardSize
    ensures BoardSize < (|Multiples(n)| + 2) * n
  {
    var r := Multiples(n);
    forall k | 0 <= k < |r|
      ensures r[k] == (k + 2) * n
    {
      StepsFrom(r, 2 * n, n, k);
      assert 2 * n + k * n == (k + 2) * n;
    }
    if |r| > 0 {
      assert r[|r| - 1] + n == (|r| + 2) * n;
    }
  }

  /** `getMultiples(n)` is strictly increasing. */
  lemma MultiplesIncreasing(n: int)
    requires n >= 0
    ensures forall j, k :: 0 <= j < k < |Multiples(n)| ==> Multiples(n)[j] < Multiples(n)[k]
  {
    if n >= 1 {
      MultiplesShape(n);
      forall j, k | 0 <= j < k < |Multiples(n)|
        ensures Multiples(n)[j] < Multiples(n)[k]
      {
        MulStrict(j + 2, k + 2, n);
      }
    }
  }

  /** `getMultiples(n)` lists exactly the multiples of `n` in `(n, 100]`. */
  lemma MultiplesAreMultiples(n: int, x: int)
    requires n >= 0
    ensures x in Multiples(n) <==> MultipleOnBoard(x, n)
  {
    if n >= 1 {
      var r := Multiples(n);
      MultiplesShape(n);
      if x in r {
        var k :| 0 <= k < |r| && r[k] == x;
        MulStrict(1, k + 2, n);
        DivUnique(x, n, k + 2, 0);
      }
      if MultipleOnBoard(x, n) {
        var q := x / n;
        assert x == q * n;
        if q <= 1 {
          MulMono(q, 1, n);
          assert false;
        }
        if q >= |r| + 2 {
          MulMono(|r| + 2, q, n);
          assert false;
        }
        assert r[q - 2] == x;
      }
    }
  }

  /** A divisor of `n` is at most `n` and a listed multiple is above it, so
      the two lists never share a value. */
  lemma FactorsBelowMultiples(n: int, x: int, y: int)
    requires n >= 0 && x in Factors(n) && y in Multiples(n)
    ensures x < y
  {
    FactorsBounded(n, x);
    MultiplesAreMultiples(n, y);
  }
}
