/** Latency summaries: nearest-rank percentiles of the finite samples. */
module Percentiles {
  import opened Text
  import opened Sorting

  datatype Sample = Finite(value: real) | NotANumber | Infinite(positive: bool)

  predicate NumberLe(a: real, b: real) { a <= b }

  function FiniteValues(samples: seq<Sample>): seq<real> {
    if samples == [] then []
    else (if samples[0].Finite? then [samples[0].value] else []) + FiniteValues(samples[1..])
  }

  function Ceil(x: real): int { -((-x).Floor) }

  // p percent of n samples.
  function Share(p: real, n: nat): real { p / 100.0 * n as real }

  // The index is clamped to the array; an empty one has no value and gives zero.
  function Index(n: nat, p: real): int {
    var rank := Ceil(Share(p, n)) - 1;
    var low := if rank < n - 1 then rank else n - 1;
    if low > 0 then low else 0
  }

  function Percentile(sorted: seq<real>, p: real): real {
    var i := Index(|sorted|, p);
    if i < |sorted| then sorted[i] else 0.0
  }

  datatype Summary = Summary(count: nat, max: real, p50: real, p95: real, p99: real)

  function Summarize(samples: seq<Sample>): Option<Summary> {
    var sorted := Sort(NumberLe, FiniteValues(samples));
    if sorted == [] then None
    else
      var p50, p95, p99 := Percentile(sorted, 50.0), Percentile(sorted, 95.0), Percentile(sorted, 99.0);
      Some(Summary(|sorted|, sorted[|sorted| - 1], p50, p95, p99))
  }

  // ----- what a percentile means

  function AtMost(values: seq<real>, v: real): (r: seq<real>)
    ensures forall x :: multiset(r)[x] == if x <= v then multiset(values)[x] else 0
  {
    if values == [] then []
    else
      assert values == [values[0]] + values[1..];
      (if values[0] <= v then [values[0]] else []) + AtMost(values[1..], v)
  }

  function Below(values: seq<real>, v: real): (r: seq<real>)
    ensures forall x :: multiset(r)[x] == if x < v then multiset(values)[x] else 0
  {
    if values == [] then []
    else
      assert values == [values[0]] + values[1..];
      (if values[0] < v then [values[0]] else []) + Below(values[1..], v)
  }

  /** At least p percent of the values are at most `v`, and fewer than p percent are
      strictly below it. */
  predicate IsNearestRank(values: seq<real>, p: real, v: real) {
    && |AtMost(values, v)| as real >= Share(p, |values|)
    && |Below(values, v)| as real < Share(p, |values|)
  }

  lemma SameLength(a: seq<real>, b: seq<real>)
    requires forall x :: multiset(a)[x] == multiset(b)[x]
    ensures |a| == |b|
  {
    forall x | x in multiset(a) + multiset(b) ensures multiset(a)[x] == multiset(b)[x] {
    }
    assert multiset(a) <= multiset(b) && multiset(b) <= multiset(a);
    SameElements(a, b);
  }

  lemma CountsForgetOrder(a: seq<real>, b: seq<real>, v: real)
    requires multiset(a) == multiset(b)
    ensures |AtMost(a, v)| == |AtMost(b, v)| && |Below(a, v)| == |Below(b, v)|
  {
    SameLength(AtMost(a, v), AtMost(b, v));
    SameLength(Below(a, v), Below(b, v));
  }

  // In a sorted array, the values up to an index are at most the one there.
  lemma {:induction false} AtMostSorted(sorted: seq<real>, i: nat, v: real)
    requires i <= |sorted| && forall k :: 0 <= k < i ==> sorted[k] <= v
    ensures i <= |AtMost(sorted, v)| <= |sorted|
    decreases |sorted|
  {
    if sorted == [] {
    } else {
      var j: nat := if i > 0 then i - 1 else 0;
      assert forall k :: 0 <= k < j ==> sorted[1..][k] == sorted[k + 1];
      AtMostSorted(sorted[1..], j, v);
    }
  }

  // Only values before the index can be below the one there.
  lemma {:induction false} BelowSorted(sorted: seq<real>, i: nat, v: real)
    requires i <= |sorted| && forall k :: i <= k < |sorted| ==> sorted[k] >= v
    ensures |Below(sorted, v)| <= i
    decreases |sorted|
  {
    if sorted == [] {
    } else {
      var j: nat := if i > 0 then i - 1 else 0;
      assert forall k :: 0 <= k < |sorted| - 1 ==> sorted[1..][k] == sorted[k + 1];
      BelowSorted(sorted[1..], j, v);
    }
  }

  lemma ShareBounds(p: real, n: nat)
    requires n > 0
    ensures 0.0 < p <= 100.0 ==> 0.0 < Share(p, n) <= n as real
    ensures p <= 0.0 ==> Share(p, n) <= 0.0
    ensures p > 100.0 ==> Share(p, n) > n as real
  {
    var share, m := p / 100.0, n as real;
    assert share * m <= 1.0 * m <==> share <= 1.0;
    assert share * m > 0.0 <==> share > 0.0;
  }

  // Within the range the share of a percentage is its index, rounded up.
  lemma IndexIs(p: real, n: nat)
    requires n > 0 && 0.0 < p <= 100.0
    ensures var i := Index(n, p);
      0 <= i < n && i as real < Share(p, n) <= (i + 1) as real
  {
    hide Share;
    ShareBounds(p, n);
  }

  lemma RankAt(sorted: seq<real>, i: nat)
    requires SortedBy(NumberLe, sorted) && i < |sorted|
    ensures |AtMost(sorted, sorted[i])| >= i + 1 && |Below(sorted, sorted[i])| <= i
  {
    hide AtMost, Below;
    forall k | 0 <= k < |sorted| ensures k <= i ==> sorted[k] <= sorted[i]
      ensures k >= i ==> sorted[k] >= sorted[i]
    {
      assert k < i ==> NumberLe(sorted[k], sorted[i]);
      assert i < k ==> NumberLe(sorted[i], sorted[k]);
    }
    AtMostSorted(sorted, i + 1, sorted[i]);
    BelowSorted(sorted, i, sorted[i]);
  }

  lemma SortedRank(sorted: seq<real>, p: real)
    requires SortedBy(NumberLe, sorted) && sorted != [] && 0.0 < p <= 100.0
    ensures IsNearestRank(sorted, p, Percentile(sorted, p))
  {
    hide Share, Index, AtMost, Below, SortedBy;
    IndexIs(p, |sorted|);
    RankAt(sorted, Index(|sorted|, p));
  }

  // Outside its range a percentage has no nearest rank.
  lemma NoRankOutside(values: seq<real>, p: real, v: real)
    requires values != [] && !(0.0 < p <= 100.0)
    ensures !IsNearestRank(values, p, v)
  {
    ShareBounds(p, |values|);
    AtMostSorted(values, 0, v);
  }

  lemma PercentileIsMember(values: seq<real>, p: real)
    requires values != []
    ensures Percentile(Sort(NumberLe, values), p) in values
  {
    var sorted := Sort(NumberLe, values);
    SameElements(values, sorted);
    assert Percentile(sorted, p) in sorted;
  }

  lemma RankForgetsOrder(a: seq<real>, b: seq<real>, p: real, v: real)
    requires multiset(a) == multiset(b) && IsNearestRank(a, p, v)
    ensures IsNearestRank(b, p, v)
  {
    CountsForgetOrder(a, b, v);
    SameElements(a, b);
  }

  /** The percentile of a non-empty array is one of its values, and is its nearest rank
      exactly for percentages above zero and up to a hundred. */
  lemma PercentileIsNearestRankIff(values: seq<real>, p: real)
    requires values != []
    ensures var v := Percentile(Sort(NumberLe, values), p);
      v in values && (IsNearestRank(values, p, v) <==> 0.0 < p <= 100.0)
  {
    var sorted := Sort(NumberLe, values);
    var v := Percentile(sorted, p);
    PercentileIsMember(values, p);
    if 0.0 < p <= 100.0 {
      SortSorts(NumberLe, values);
      SortedRank(sorted, p);
      RankForgetsOrder(sorted, values, p, v);
    } else {
      NoRankOutside(values, p, v);
    }
  }

  // Values at most the smaller of two are below the larger.
  lemma {:induction false} BelowCoversAtMost(values: seq<real>, v: real, w: real)
    requires v < w
    ensures |AtMost(values, v)| <= |Below(values, w)|
    decreases |values|
  {
    if values == [] {
    } else {
      BelowCoversAtMost(values[1..], v, w);
    }
  }

  /** Nearest ranks grow with the percentage, so no two values are nearest ranks for one. */
  lemma NearestRanksGrow(values: seq<real>, p: real, q: real, v: real, w: real)
    requires p <= q && IsNearestRank(values, p, v) && IsNearestRank(values, q, w)
    ensures v <= w
  {
    if w < v {
      BelowCoversAtMost(values, w, v);
    }
  }

  lemma NearestRankUnique(values: seq<real>, p: real, v: real, w: real)
    requires IsNearestRank(values, p, v) && IsNearestRank(values, p, w)
    ensures v == w
  {
    NearestRanksGrow(values, p, p, v, w);
    NearestRanksGrow(values, p, p, w, v);
  }

  /** A summary exists exactly when a sample is finite. Its figures are samples, each
      percentile is the one nearest rank, and p50 <= p95 <= p99 <= max. */
  lemma SummaryIsRight(samples: seq<Sample>)
    ensures Summarize(samples).Some? <==> exists s :: s in samples && s.Finite?
    ensures var values := FiniteValues(samples);
      Summarize(samples).Some? ==>
        var r := Summarize(samples).value;
        && r.count == |values| && r.max in values && (forall v :: v in values ==> v <= r.max)
        && IsNearestRank(values, 50.0, r.p50) && IsNearestRank(values, 95.0, r.p95)
        && IsNearestRank(values, 99.0, r.p99)
        && r.p50 <= r.p95 <= r.p99 <= r.max
  {
    var values := FiniteValues(samples);
    FiniteIff(samples);
    if values != [] {
      var sorted := Sort(NumberLe, values);
      var r := Summarize(samples).value;
      PercentileIsNearestRankIff(values, 50.0);
      PercentileIsNearestRankIff(values, 95.0);
      PercentileIsNearestRankIff(values, 99.0);
      NearestRanksGrow(values, 50.0, 95.0, r.p50, r.p95);
      NearestRanksGrow(values, 95.0, 99.0, r.p95, r.p99);
      LastIsMax(values);
    }
  }

  lemma LastIsMax(values: seq<real>)
    requires values != []
    ensures var sorted := Sort(NumberLe, values); var last := sorted[|sorted| - 1];
      last in values && forall v :: v in values ==> v <= last
  {
    var sorted := Sort(NumberLe, values);
    var last := sorted[|sorted| - 1];
    SortSorts(NumberLe, values);
    SameElements(values, sorted);
    assert last in sorted;
    forall v | v in values ensures v <= last {
      var k :| 0 <= k < |sorted| && sorted[k] == v;
      assert k < |sorted| - 1 ==> NumberLe(sorted[k], last);
    }
  }

  lemma {:induction false} FiniteIff(samples: seq<Sample>)
    ensures FiniteValues(samples) != [] <==> exists s :: s in samples && s.Finite?
    decreases |samples|
  {
    if samples == [] {
    } else {
      FiniteIff(samples[1..]);
      assert samples == [samples[0]] + samples[1..];
    }
  }

  lemma {:induction false} FiniteForgetsOrder(samples: seq<Sample>, x: real)
    ensures multiset(FiniteValues(samples))[x] == multiset(samples)[Finite(x)]
    decreases |samples|
  {
    if samples == [] {
    } else {
      FiniteForgetsOrder(samples[1..], x);
      assert samples == [samples[0]] + samples[1..];
    }
  }

  lemma SortedSummary(a: seq<Sample>, b: seq<Sample>)
    requires Sort(NumberLe, FiniteValues(a)) == Sort(NumberLe, FiniteValues(b))
    ensures Summarize(a) == Summarize(b)
  {
    hide Sort, Percentile, FiniteValues;
  }

  lemma NumberOrder()
    ensures Preorder(NumberLe) && forall s :: Separates(NumberLe, s)
  {
  }

  /** The summary does not depend on the order of the samples. */
  lemma SummaryForgetsOrder(a: seq<Sample>, b: seq<Sample>)
    requires multiset(a) == multiset(b)
    ensures Summarize(a) == Summarize(b)
  {
    forall x ensures multiset(FiniteValues(a))[x] == multiset(FiniteValues(b))[x] {
      FiniteForgetsOrder(a, x);
      FiniteForgetsOrder(b, x);
    }
    NumberOrder();
    hide *;
    assert multiset(FiniteValues(a)) == multiset(FiniteValues(b));
    SortForgets(NumberLe, FiniteValues(a), FiniteValues(b));
    SortedSummary(a, b);
  }
}
