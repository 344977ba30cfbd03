/** A JavaScript `Set<number>` observed through its iteration order.

    The move engine builds its results with `new Set(...)`, `Set.add` and
    `Set.delete`, and then turns them back into arrays, so the order in which
    a set yields its members is part of the engine's behaviour: the computer
    player breaks ties by that order. A set is modelled here as a
    duplicate-free sequence in insertion order.
 */
module OrderedSet {

  /** No value occurs twice in `s`. */
  predicate Distinct(s: seq<int>) {
    forall i, j :: 0 <= i < j < |s| ==> s[i] != s[j]
  }

  /** The members of `s`, forgetting the order. */
  function Elements(s: seq<int>): set<int> {
    set x | x in s
  }

  /** `set.add(x)`: a new value goes to the end; a value already present
      keeps its place and nothing changes. */
  function Add(s: seq<int>, x: int): (r: seq<int>)
    ensures forall y :: y in r <==> y in s || y == x
    ensures Distinct(s) ==> Distinct(r)
    ensures |s| <= |r| <= |s| + 1 && r[..|s|] == s
    ensures x !in s ==> r[|s|] == x
  {
    if x in s then s else s + [x]
  }

  /** Adds every element of `xs`, left to right, to the set `acc`. */
  function AddAll(acc: seq<int>, xs: seq<int>): (r: seq<int>)
    ensures forall y :: y in r <==> y in acc || y in xs
    ensures Distinct(acc) ==> Distinct(r)
    decreases |xs|
  {
    if |xs| == 0 then acc else AddAll(Add(acc, xs[0]), xs[1..])
  }

  /** `new Set(xs)`: the first occurrence of each value, in order. */
  function FromSeq(xs: seq<int>): (r: seq<int>)
    ensures forall y :: y in r <==> y in xs
    ensures Distinct(r)
  {
    AddAll([], xs)
  }

  /** The elements of `s` that are not in `excluded`, in their order.
      This is both `set.delete(x)` (with `excluded == {x}`) on a
      duplicate-free `s` and `Array.filter(v => !excluded.has(v))`. */
  function Without(s: seq<int>, excluded: set<int>): (r: seq<int>)
    ensures forall y :: y in r <==> y in s && y !in excluded
    ensures Distinct(s) ==> Distinct(r)
    ensures |r| <= |s|
  {
    if |s| == 0 then []
    else if s[0] in excluded then Without(s[1..], excluded)
    else [s[0]] + Without(s[1..], excluded)
  }

  /** Adding values that are all new and pairwise different appends them
      unchanged: the set's order is then just the insertion order. */
  lemma {:induction false} AddAllFresh(acc: seq<int>, xs: seq<int>)
    requires Distinct(acc + xs)
    ensures AddAll(acc, xs) == acc + xs
    decreases |xs|
  {
    if |xs| > 0 {
      assert (acc + xs)[|acc|] == xs[0];
      assert xs[0] !in acc by {
        forall i | 0 <= i < |acc|
          ensures acc[i] != xs[0]
        {
          assert (acc + xs)[i] == acc[i];
        }
      }
      assert Add(acc, xs[0]) + xs[1..] == acc + xs;
      AddAllFresh(Add(acc, xs[0]), xs[1..]);
    }
  }

  /** `new Set(xs)` of a duplicate-free `xs` keeps `xs` as it is. */
  lemma FromSeqOfDistinct(xs: seq<int>)
    requires Distinct(xs)
    ensures FromSeq(xs) == xs
  {
    AddAllFresh([], xs);
  }

  /** Filtering by one excluded set and then by another is filtering by
      their union once. */
  lemma {:induction false} WithoutTwice(s: seq<int>, a: set<int>, b: set<int>)
    ensures Without(Without(s, a), b) == Without(s, a + b)
    decreases |s|
  {
    if |s| > 0 {
      WithoutTwice(s[1..], a, b);
    }
  }

  /** Filtering a concatenation filters each part. */
  lemma {:induction false} WithoutAppend(s: seq<int>, t: seq<int>, excluded: set<int>)
    ensures Without(s + t, excluded) == Without(s, excluded) + Without(t, excluded)
    decreases |s|
  {
    if |s| == 0 {
      assert s + t == t;
    } else {
      assert (s + t)[0] == s[0];
      assert (s + t)[1..] == s[1..] + t;
      WithoutAppend(s[1..], t, excluded);
    }
  }

  /** Filtering out values that do not occur changes nothing. */
  lemma {:induction false} WithoutAbsent(s: seq<int>, excluded: set<int>)
    requires forall i :: 0 <= i < |s| ==> s[i] !in excluded
    ensures Without(s, excluded) == s
    decreases |s|
  {
    if |s| > 0 {
      WithoutAbsent(s[1..], excluded);
    }
  }

  /** Filtering out every value of `s` leaves nothing. */
  lemma {:induction false} WithoutEverything(s: seq<int>, excluded: set<int>)
    requires forall i :: 0 <= i < |s| ==> s[i] in excluded
    ensures Without(s, excluded) == []
    decreases |s|
  {
    if |s| > 0 {
      WithoutEverything(s[1..], excluded);
    }
  }

  /** Removing a run of excluded values from between two runs of kept
      values leaves the kept runs side by side. */
  lemma WithoutGap(a: seq<int>, gap: seq<int>, b: seq<int>, excluded: set<int>)
    requires forall i :: 0 <= i < |a| ==> a[i] !in excluded
    requires forall i :: 0 <= i < |gap| ==> gap[i] in excluded
    requires forall i :: 0 <= i < |b| ==> b[i] !in excluded
    ensures Without(a + gap + b, excluded) == a + b
  {
    WithoutAppend(a + gap, b, excluded);
    WithoutAppend(a, gap, excluded);
    WithoutAbsent(a, excluded);
    WithoutEverything(gap, excluded);
    WithoutAbsent(b, excluded);
    assert Without(a + gap, excluded) == a;
  }

  /** A duplicate-free sequence has exactly as many elements as its set. */
  lemma {:induction false} DistinctCardinality(s: seq<int>)
    requires Distinct(s)
    ensures |Elements(s)| == |s|
    decreases |s|
  {
    if |s| > 0 {
      DistinctCardinality(s[1..]);
      assert Elements(s) == {s[0]} + Elements(s[1..]);
      assert s[0] !in Elements(s[1..]);
    }
  }
}
