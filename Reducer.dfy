/** The per-axis reducer: a list of values becomes {min, max, count, sum,
    median}, with an all-zero sentinel for the empty list. Values are reals;
    floating-point rounding is not modelled. */
module Reducer {
  import opened Schemas

  // ---------------------------------------------------------------------
  // Sum, minimum and maximum

  /** Left-to-right sum starting from 0, the way Python's sum() adds. */
  function Sum(s: seq<real>): real
  {
    if s == [] then 0.0 else Sum(s[..|s| - 1]) + s[|s| - 1]
  }

  function Min(s: seq<real>): (m: real)
    requires |s| > 0
    ensures m in s
    ensures forall v :: v in s ==> m <= v
  {
    if |s| == 1 then s[0]
    else
      var rest := Min(s[1..]);
      assert s == [s[0]] + s[1..];
      if s[0] <= rest then s[0] else rest
  }

  function Max(s: seq<real>): (m: real)
    requires |s| > 0
    ensures m in s
    ensures forall v :: v in s ==> v <= m
  {
    if |s| == 1 then s[0]
    else
      var rest := Max(s[1..]);
      assert s == [s[0]] + s[1..];
      if rest <= s[0] then s[0] else rest
  }

  /** The sum of a concatenation is the sum of the parts. */
  lemma {:induction false} SumConcat(a: seq<real>, b: seq<real>)
    ensures Sum(a + b) == Sum(a) + Sum(b)
    decreases |b|
  {
    if b == [] {
      assert a + b == a;
    } else {
      var b' := b[..|b| - 1];
      assert (a + b)[..|a + b| - 1] == a + b';
      SumConcat(a, b');
    }
  }

  /** The sum does not depend on the order of the values. */
  lemma {:induction false} SumPermutation(a: seq<real>, b: seq<real>)
    requires multiset(a) == multiset(b)
    ensures Sum(a) == Sum(b)
    decreases |a|
  {
    if a == [] {
      assert |b| == |multiset(b)| == 0;
    } else {
      var x := a[|a| - 1];
      var a' := a[..|a| - 1];
      assert a == a' + [x];
      assert x in multiset(b);
      var j :| 0 <= j < |b| && b[j] == x;
      var b' := b[..j] + b[j + 1..];
      assert b == b[..j] + [x] + b[j + 1..];
      assert multiset(b) == multiset(b[..j]) + multiset{x} + multiset(b[j + 1..]);
      assert multiset(b') == multiset(b[..j]) + multiset(b[j + 1..]);
      assert multiset(a') == multiset(a) - multiset{x};
      assert multiset(b') == multiset(b) - multiset{x};
      SumPermutation(a', b');
      SumRemove(b[..j], x, b[j + 1..]);
    }
  }

  lemma SumSingle(x: real)
    ensures Sum([x]) == x
  {
    assert [x][..0] == [];
  }

  /** Taking a value out of a sequence takes it out of the sum. */
  lemma SumRemove(pre: seq<real>, x: real, post: seq<real>)
    ensures Sum(pre + [x] + post) == Sum(pre + post) + x
  {
    SumConcat(pre + [x], post);
    SumConcat(pre, [x]);
    SumSingle(x);
    SumConcat(pre, post);
  }

  // ---------------------------------------------------------------------
  // Sorting and the median

  /** Non-decreasing order. */
  predicate Sorted(s: seq<real>)
  {
    forall i, j :: 0 <= i < j < |s| ==> s[i] <= s[j]
  }

  /** t is the sorted copy of values. */
  predicate IsSortedPermutation(values: seq<real>, t: seq<real>)
  {
    Sorted(t) && multiset(t) == multiset(values)
  }

  function Insert(x: real, s: seq<real>): (r: seq<real>)
    requires Sorted(s)
    ensures Sorted(r)
    ensures multiset(r) == multiset(s) + multiset{x}
  {
    if s == [] then [x]
    else if x <= s[0] then
      HeadIsLeast(s);
      InsertSortedCons(x, s);
      [x] + s
    else
      SortedTail(s);
      var rest := Insert(x, s[1..]);
      InsertBehindHead(s, x, rest);
      [s[0]] + rest
  }

  /** Inserting behind the head of a sorted sequence: the head stays in front. */
  lemma InsertBehindHead(s: seq<real>, x: real, rest: seq<real>)
    requires Sorted(s) && |s| > 0 && s[0] < x
    requires Sorted(rest) && multiset(rest) == multiset(s[1..]) + multiset{x}
    ensures Sorted([s[0]] + rest)
    ensures multiset([s[0]] + rest) == multiset(s) + multiset{x}
  {
    assert s == [s[0]] + s[1..];
    HeadIsLeast(s);
    InsertSortedCons(s[0], rest);
  }

  lemma HeadIsLeast(s: seq<real>)
    requires Sorted(s) && |s| > 0
    ensures forall v :: v in multiset(s) ==> s[0] <= v
  {
    forall v | v in multiset(s) ensures s[0] <= v {
      var k :| 0 <= k < |s| && s[k] == v;
    }
  }

  /** Putting a lower bound in front of a sorted sequence keeps it sorted. */
  lemma InsertSortedCons(h: real, rest: seq<real>)
    requires Sorted(rest)
    requires forall v :: v in multiset(rest) ==> h <= v
    ensures Sorted([h] + rest)
  {
    var r := [h] + rest;
    forall i, j | 0 <= i < j < |r| ensures r[i] <= r[j] {
      assert r[j] == rest[j - 1];
      assert rest[j - 1] in multiset(rest);
      if i > 0 { assert r[i] == rest[i - 1]; }
    }
  }

  /** Insertion sort; any other sort gives the same sequence (SortedPermutationUnique). */
  function Sort(s: seq<real>): (t: seq<real>)
    ensures IsSortedPermutation(s, t)
  {
    if s == [] then []
    else
      assert s == [s[0]] + s[1..];
      Insert(s[0], Sort(s[1..]))
  }

  /** A multiset has exactly one sorted arrangement. */
  lemma {:induction false} SortedPermutationUnique(a: seq<real>, b: seq<real>)
    requires Sorted(a) && Sorted(b) && multiset(a) == multiset(b)
    ensures a == b
    decreases |a|
  {
    assert |a| == |multiset(a)| == |multiset(b)| == |b|;
    if a != [] {
      SmallestFirst(a, b);
      SmallestFirst(b, a);
      var a', b' := a[1..], b[1..];
      assert a == [a[0]] + a';
      assert b == [b[0]] + b';
      assert multiset(a) == multiset{a[0]} + multiset(a');
      assert multiset(b) == multiset{b[0]} + multiset(b');
      assert multiset(a') == multiset(a) - multiset{a[0]};
      assert multiset(b') == multiset(b) - multiset{b[0]};
      SortedTail(a);
      SortedTail(b);
      SortedPermutationUnique(a', b');
    }
  }

  /** The head of a sorted sequence is no larger than anything in a permutation of it. */
  lemma SmallestFirst(a: seq<real>, b: seq<real>)
    requires Sorted(a) && |a| > 0 && |b| > 0 && multiset(a) == multiset(b)
    ensures a[0] <= b[0]
  {
    assert b[0] in multiset(a);
    var j :| 0 <= j < |a| && a[j] == b[0];
    if j > 0 {
      assert a[0] <= a[j];
    }
  }

  lemma SortedTail(a: seq<real>)
    requires Sorted(a) && |a| > 0
    ensures Sorted(a[1..])
  {
    forall i, j | 0 <= i < j < |a| - 1 ensures a[1..][i] <= a[1..][j] {
      assert a[1..][i] == a[i + 1] && a[1..][j] == a[j + 1];
    }
  }

  /** The middle element of a sorted odd-length sequence, or the mean of the
      two central elements of an even-length one. */
  function MiddleOf(t: seq<real>): real
    requires |t| > 0
  {
    if |t| % 2 == 1 then t[|t| / 2] else (t[|t| / 2 - 1] + t[|t| / 2]) / 2.0
  }

  /** Python's statistics.median: sort, then take the middle (mean of the two
      middles for an even count). */
  function Median(values: seq<real>): (m: real)
    requires |values| > 0
    ensures forall t :: IsSortedPermutation(values, t) ==> |t| == |values| && m == MiddleOf(t)
    ensures Min(values) <= m <= Max(values)
  {
    var t := Sort(values);
    assert forall t' :: IsSortedPermutation(values, t') ==> t' == t by {
      forall t' | IsSortedPermutation(values, t') ensures t' == t {
        SortedPermutationUnique(t', t);
      }
    }
    MiddleWithinBounds(values, t);
    MiddleOf(t)
  }

  /** The middle of the sorted copy lies between the extrema. */
  lemma MiddleWithinBounds(values: seq<real>, t: seq<real>)
    requires |values| > 0 && IsSortedPermutation(values, t)
    ensures |t| == |values|
    ensures Min(values) <= MiddleOf(t) <= Max(values)
  {
    assert |t| == |multiset(t)| == |values|;
    var lo, hi := Min(values), Max(values);
    var k := |t| / 2;
    assert t[k] in multiset(values);
    assert t[k] in values;
    assert lo <= t[k] <= hi;
    if |t| % 2 == 0 {
      assert t[k - 1] in multiset(values);
      assert t[k - 1] in values;
      assert lo <= t[k - 1] <= hi;
    }
  }

  // ---------------------------------------------------------------------
  // The reducer

  const Empty := StatsAnalysis(0.0, 0.0, 0, 0.0, 0.0)

  /** _calculate_stats_analysis: an all-zero sentinel for no values, otherwise
      the extrema, count, sum and median of the values. */
  function CalculateStatsAnalysis(values: seq<real>): (r: StatsAnalysis)
    ensures values == [] ==> r == Empty
    ensures r.count == |values|
    ensures r.sum == Sum(values)
    ensures values != [] ==> r.minValue in values && r.maxValue in values
    ensures values != [] ==> forall v :: v in values ==> r.minValue <= v <= r.maxValue
    ensures values != [] ==> forall t :: IsSortedPermutation(values, t) ==> r.median == MiddleOf(t)
    ensures values != [] ==> r.minValue <= r.median <= r.maxValue
  {
    if values == [] then Empty
    else StatsAnalysis(Min(values), Max(values), |values|, Sum(values), Median(values))
  }

  /** The summary depends only on the multiset of values, not their order. */
  lemma ReduceOrderIndependent(a: seq<real>, b: seq<real>)
    requires multiset(a) == multiset(b)
    ensures CalculateStatsAnalysis(a) == CalculateStatsAnalysis(b)
  {
    assert |a| == |multiset(a)| == |multiset(b)| == |b|;
    SumPermutation(a, b);
    if a != [] {
      ExtremaOrderIndependent(a, b);
      var t := Sort(a);
      assert IsSortedPermutation(b, t);
      assert Median(a) == MiddleOf(t) == Median(b);
    }
  }

  lemma ExtremaOrderIndependent(a: seq<real>, b: seq<real>)
    requires |a| > 0 && multiset(a) == multiset(b)
    ensures |b| > 0 && Min(a) == Min(b) && Max(a) == Max(b)
  {
    assert |a| == |multiset(a)| == |multiset(b)| == |b|;
    MinBelow(a, b);
    MinBelow(b, a);
    MaxAbove(a, b);
    MaxAbove(b, a);
  }

  lemma MinBelow(a: seq<real>, b: seq<real>)
    requires |a| > 0 && |b| > 0 && multiset(a) == multiset(b)
    ensures Min(a) <= Min(b)
  {
    var m := Min(b);
    assert m in multiset(b);
    assert m in a;
  }

  lemma MaxAbove(a: seq<real>, b: seq<real>)
    requires |a| > 0 && |b| > 0 && multiset(a) == multiset(b)
    ensures Max(b) <= Max(a)
  {
    var m := Max(b);
    assert m in multiset(b);
    assert m in a;
  }

  /** On values that are already sorted, the median is read off directly. */
  lemma MedianOfSorted(values: seq<real>)
    requires |values| > 0 && Sorted(values)
    ensures CalculateStatsAnalysis(values).median == MiddleOf(values)
  {
    assert IsSortedPermutation(values, values);
  }

  lemma SortedExample(a: seq<real>, b: seq<real>)
    requires a == [1.0, 2.0, 3.0] && b == [10.0]
    ensures Sorted(a) && Sorted(b) && Sorted(a + b)
    ensures MiddleOf(a) == 2.0 && MiddleOf(b) == 10.0
    ensures |a + b| == 4 && MiddleOf(a + b) == 2.5
  {
    assert a + b == [1.0, 2.0, 3.0, 10.0];
  }

  /** Medians do not combine: pooling [1, 2, 3] and [10] gives 2.5, not the
      mean 6 of the two medians 2 and 10. */
  lemma PooledMedianExample(a: seq<real>, b: seq<real>)
    requires a == [1.0, 2.0, 3.0] && b == [10.0]
    ensures CalculateStatsAnalysis(a).median == 2.0
    ensures CalculateStatsAnalysis(b).median == 10.0
    ensures CalculateStatsAnalysis(a + b).count == 4
    ensures CalculateStatsAnalysis(a + b).median == 2.5
    ensures CalculateStatsAnalysis(a + b).median
         != (CalculateStatsAnalysis(a).median + CalculateStatsAnalysis(b).median) / 2.0
  {
    SortedExample(a, b);
    MedianOfSorted(a);
    MedianOfSorted(b);
    MedianOfSorted(a + b);
  }
}
