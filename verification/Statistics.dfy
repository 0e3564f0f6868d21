/** Order statistics of the reports: nearest-rank percentiles of duration lists and the
    interpolating quantile of the paired analysis. Samples are exact reals. */
module Statistics {
  import opened Common
  import opened Order

  predicate Leq(a: real, b: real) { a <= b }

  ghost predicate Rising(s: seq<real>) {
    forall i, j :: 0 <= i <= j < |s| ==> s[i] <= s[j]
  }

  function Ascending(values: seq<real>): (r: seq<real>)
    ensures Rising(r) && multiset(r) == multiset(values) && |r| == |values|
  {
    var r := Sort(Leq, values);
    SameElements(r, values);
    assert Rising(r) by {
      forall i, j | 0 <= i <= j < |r|
        ensures r[i] <= r[j]
      {
        assert i == j || Leq(r[i], r[j]);
      }
    }
    r
  }

  lemma AscendingPermutation(a: seq<real>, b: seq<real>)
    requires multiset(a) == multiset(b)
    ensures Ascending(a) == Ascending(b)
  {
    SortPermutation(Leq, a, b);
  }

  lemma AscendingElements(values: seq<real>)
    ensures forall v :: v in Ascending(values) <==> v in values
  {
    SameElements(Ascending(values), values);
  }

  // ----- weighted totals

  ghost function Total(s: seq<real>, weight: real -> real): real {
    if s == [] then 0.0 else Total(s[..|s| - 1], weight) + weight(s[|s| - 1])
  }

  function Itself(): real -> real { v => v }
  function AtMost(x: real): real -> real { v => if v <= x then 1.0 else 0.0 }
  function Below(x: real): real -> real { v => if v < x then 1.0 else 0.0 }

  lemma {:induction false} TotalConcat(a: seq<real>, b: seq<real>, w: real -> real)
    ensures Total(a + b, w) == Total(a, w) + Total(b, w)
    decreases |b|
  {
    if b == [] {
      assert a + b == a;
    } else {
      assert (a + b)[..|a + b| - 1] == a + b[..|b| - 1];
      TotalConcat(a, b[..|b| - 1], w);
    }
  }

  ghost function Without(s: seq<real>, k: nat): seq<real>
    requires k < |s|
  {
    s[..k] + s[k + 1..]
  }

  lemma TotalOne(x: real, w: real -> real)
    ensures Total([x], w) == w(x)
  {
    assert [x][..0] == [];
  }

  lemma {:induction false} TotalMiddle(a: seq<real>, x: real, c: seq<real>, w: real -> real)
    ensures Total(a + [x] + c, w) == Total(a + c, w) + w(x)
  {
    TotalConcat(a + [x], c, w);
    TotalConcat(a, [x], w);
    TotalConcat(a, c, w);
    TotalOne(x, w);
  }

  lemma WithoutParts(s: seq<real>, k: nat)
    requires k < |s|
    ensures s == s[..k] + [s[k]] + s[k + 1..]
    ensures multiset(Without(s, k)) == multiset(s) - multiset{s[k]}
  {
    assert s == s[..k] + [s[k]] + s[k + 1..];
  }

  lemma {:induction false} TotalWithout(s: seq<real>, k: nat, w: real -> real)
    requires k < |s|
    ensures Total(s, w) == Total(Without(s, k), w) + w(s[k])
  {
    WithoutParts(s, k);
    TotalMiddle(s[..k], s[k], s[k + 1..], w);
  }

  lemma {:induction false} TotalPermutation(a: seq<real>, b: seq<real>, w: real -> real)
    requires multiset(a) == multiset(b)
    ensures Total(a, w) == Total(b, w)
    decreases |a|
  {
    SameElements(a, b);
    if a != [] {
      var z := |a| - 1;
      assert a[z] in b;
      var k :| 0 <= k < |b| && b[k] == a[z];
      WithoutParts(a, z);
      WithoutParts(b, k);
      TotalWithout(a, z, w);
      TotalWithout(b, k, w);
      TotalPermutation(Without(a, z), Without(b, k), w);
    }
  }

  lemma {:induction false} TotalBounds(s: seq<real>, w: real -> real, lo: real, hi: real)
    requires forall i :: 0 <= i < |s| ==> lo <= w(s[i]) <= hi
    ensures lo * |s| as real <= Total(s, w) <= hi * |s| as real
  {
    if s != [] {
      TotalBounds(s[..|s| - 1], w, lo, hi);
      assert |s| as real == (|s| - 1) as real + 1.0;
    }
  }

  lemma {:induction false} TotalMonotone(s: seq<real>, v: real -> real, w: real -> real)
    requires forall i :: 0 <= i < |s| ==> v(s[i]) <= w(s[i])
    ensures Total(s, v) <= Total(s, w)
  {
    if s != [] {
      TotalMonotone(s[..|s| - 1], v, w);
    }
  }

  // ----- nearest rank

  /** n * x, as the n-fold sum. */
  function Times(n: nat, x: real): real {
    if n == 0 then 0.0 else Times(n - 1, x) + x
  }

  lemma {:induction false} TimesIsProduct(n: nat, x: real)
    ensures Times(n, x) == n as real * x
  {
    if n > 0 {
      TimesIsProduct(n - 1, x);
      assert n as real * x == ((n - 1) as real + 1.0) * x == (n - 1) as real * x + x;
    }
  }

  lemma {:induction false} TimesMonotone(n: nat, x: real, y: real)
    requires x <= y
    ensures Times(n, x) <= Times(n, y)
    ensures n > 0 && x < y ==> Times(n, x) < Times(n, y)
    ensures Times(n, 0.0) == 0.0 && Times(n, 1.0) == n as real
  {
    if n > 0 {
      TimesMonotone(n - 1, x, y);
    }
  }

  /** The index the percentile of n samples is read at, 0 < p < 1. */
  function Rank(n: nat, p: real): nat
    requires n > 0
  {
    var index := Ceil(Times(n, p)) - 1;
    var atLeast := if index < 0 then 0 else index;
    if atLeast >= n then n - 1 else atLeast
  }

  function PercentileSorted(sorted: seq<real>, percentile: real): real {
    if |sorted| == 0 then 0.0
    else if percentile <= 0.0 then sorted[0]
    else if percentile >= 1.0 then sorted[|sorted| - 1]
    else sorted[Rank(|sorted|, percentile)]
  }

  /** The rank is in range before any clamp, so the clamps take no effect. */
  lemma {:induction false} RankInRange(n: nat, p: real)
    requires n > 0 && 0.0 < p < 1.0
    ensures Rank(n, p) == Ceil(Times(n, p)) - 1 < n
    ensures Rank(n, p) as real < Times(n, p) <= (Rank(n, p) + 1) as real
  {
    TimesMonotone(n, 0.0, p);
    TimesMonotone(n, p, 1.0);
  }

  lemma RankMonotone(n: nat, p: real, q: real)
    requires n > 0 && p <= q
    ensures Rank(n, p) <= Rank(n, q) < n
  {
    TimesMonotone(n, p, q);
    assert Ceil(Times(n, p)) <= Ceil(Times(n, q));
  }

  lemma PercentileMonotone(s: seq<real>, p: real, q: real)
    requires Rising(s) && s != [] && p <= q
    ensures s[0] <= PercentileSorted(s, p) <= PercentileSorted(s, q) <= s[|s| - 1]
  {
    RankMonotone(|s|, p, q);
  }

  lemma {:induction false} LowCounts(s: seq<real>, v: real)
    requires forall i :: 0 <= i < |s| ==> s[i] <= v
    ensures Total(s, AtMost(v)) == |s| as real
    ensures Total(s, Below(v)) <= |s| as real
  {
    TotalBounds(s, AtMost(v), 1.0, 1.0);
    TotalBounds(s, Below(v), 0.0, 1.0);
  }

  lemma {:induction false} HighCounts(s: seq<real>, v: real)
    requires forall i :: 0 <= i < |s| ==> v <= s[i]
    ensures Total(s, AtMost(v)) >= 0.0
    ensures Total(s, Below(v)) == 0.0
  {
    TotalBounds(s, AtMost(v), 0.0, 1.0);
    TotalBounds(s, Below(v), 0.0, 0.0);
  }

  /** In a rising list, index + 1 samples are at most the one at index, and no more than
      index are below it. */
  lemma {:induction false} CountsAround(s: seq<real>, index: nat)
    requires Rising(s) && index < |s|
    ensures Total(s, AtMost(s[index])) >= (index + 1) as real
    ensures Total(s, Below(s[index])) <= index as real
  {
    SplitCounts(s, index, s[index]);
    SplitCounts(s, index + 1, s[index]);
  }

  lemma {:induction false} SplitCounts(s: seq<real>, k: nat, v: real)
    requires k <= |s| && (forall i :: 0 <= i < k ==> s[i] <= v) && forall i :: k <= i < |s| ==> v <= s[i]
    ensures Total(s, AtMost(v)) >= k as real
    ensures Total(s, Below(v)) <= k as real
  {
    assert s == s[..k] + s[k..];
    CountsAtMost(s[..k], s[k..], v);
    CountsBelow(s[..k], s[k..], v);
  }

  lemma {:induction false} CountsAtMost(low: seq<real>, high: seq<real>, v: real)
    requires forall i :: 0 <= i < |low| ==> low[i] <= v
    requires forall i :: 0 <= i < |high| ==> v <= high[i]
    ensures Total(low + high, AtMost(v)) >= |low| as real
  {
    LowCounts(low, v);
    HighCounts(high, v);
    TotalConcat(low, high, AtMost(v));
  }

  lemma {:induction false} CountsBelow(low: seq<real>, high: seq<real>, v: real)
    requires forall i :: 0 <= i < |low| ==> low[i] <= v
    requires forall i :: 0 <= i < |high| ==> v <= high[i]
    ensures Total(low + high, Below(v)) <= |low| as real
  {
    LowCounts(low, v);
    HighCounts(high, v);
    TotalConcat(low, high, Below(v));
  }

  /** x is a nearest-rank percentile of the samples, by counting. */
  ghost predicate IsNearestRank(values: seq<real>, need: real, x: real) {
    x in values && Total(values, Below(x)) < need <= Total(values, AtMost(x))
  }

  lemma {:induction false} RankMeetsCounts(values: seq<real>, p: real)
    requires values != [] && 0.0 < p < 1.0
    ensures IsNearestRank(values, Times(|values|, p), PercentileSorted(Ascending(values), p))
  {
    var s := Ascending(values);
    var index := Rank(|s|, p);
    RankInRange(|s|, p);
    AscendingElements(values);
    CountsAround(s, index);
    TotalPermutation(s, values, AtMost(s[index]));
    TotalPermutation(s, values, Below(s[index]));
  }

  /** Nearest rank: a sample with at least p*n samples at most it and fewer than p*n below
      it. No other value meets both counts. */
  lemma NearestRank(values: seq<real>, p: real, need: real, x: real)
    requires values != [] && 0.0 < p < 1.0 && need == |values| as real * p
    ensures IsNearestRank(values, need, x) <==> x == PercentileSorted(Ascending(values), p)
  {
    TimesIsProduct(|values|, p);
    OnlyPercentile(values, p, need, x);
  }

  lemma {:induction false} OnlyPercentile(values: seq<real>, p: real, need: real, x: real)
    requires values != [] && 0.0 < p < 1.0 && need == Times(|values|, p)
    ensures IsNearestRank(values, need, x) <==> x == PercentileSorted(Ascending(values), p)
  {
    RankMeetsCounts(values, p);
    OnlyOneRank(values, need, x, PercentileSorted(Ascending(values), p));
  }

  lemma OnlyOneRank(values: seq<real>, need: real, x: real, y: real)
    requires IsNearestRank(values, need, y)
    ensures IsNearestRank(values, need, x) ==> x == y
  {
    if x < y {
      TotalMonotone(values, AtMost(x), Below(y));
    } else if y < x {
      TotalMonotone(values, AtMost(y), Below(x));
    }
  }

  // ----- the duration summary

  datatype DurationStats = DurationStats(count: nat, total: real, avg: real, p50: real, p95: real, max: real)

  ghost function Average(values: seq<real>): real
    requires values != []
  {
    Total(values, Itself()) / |values| as real
  }

  ghost function StatsOf(values: seq<real>): DurationStats
    requires values != []
  {
    var s := Ascending(values);
    DurationStats(|values|, Total(values, Itself()), Average(values),
                  PercentileSorted(s, 0.5), PercentileSorted(s, 0.95), s[|s| - 1])
  }

  method Sum(values: seq<real>) returns (total: real)
    ensures total == Total(values, Itself())
  {
    total := 0.0;
    for i := 0 to |values|
      invariant total == Total(values[..i], Itself())
    {
      assert values[..i + 1][..i] == values[..i];
      total := total + values[i];
    }
    assert values[..|values|] == values;
  }

  method SummarizeDurations(values: seq<real>) returns (stats: Option<DurationStats>)
    ensures stats == if values == [] then None else Some(StatsOf(values))
  {
    if |values| == 0 {
      return None;
    }
    var sorted := Ascending(values);
    var total := Sum(sorted);
    TotalPermutation(sorted, values, Itself());
    stats := Some(DurationStats(|sorted|, total, total / |sorted| as real,
                                PercentileSorted(sorted, 0.5), PercentileSorted(sorted, 0.95), sorted[|sorted| - 1]));
  }

  /** The figures are ordered, the average lies between the extremes, and the order in which
      the durations were recorded does not matter. */
  lemma {:induction false} StatsAreConsistent(values: seq<real>, permuted: seq<real>)
    requires values != [] && multiset(values) == multiset(permuted)
    ensures permuted != [] && StatsOf(permuted) == StatsOf(values)
    ensures var stats, min := StatsOf(values), Ascending(values)[0];
            && min <= stats.p50 <= stats.p95 <= stats.max
            && min <= stats.avg <= stats.max
            && stats.count == |values| && stats.total == Total(values, Itself()) && stats.avg == Average(values)
            && min in values && stats.max in values && (forall v :: v in values ==> min <= v <= stats.max)
  {
    SameElements(values, permuted);
    AscendingPermutation(values, permuted);
    TotalPermutation(values, permuted, Itself());
    var s := Ascending(values);
    AscendingElements(values);
    PercentileMonotone(s, 0.5, 0.95);
    assert s[0] in s && s[|s| - 1] in s;
    Extremes(s, values);
    AverageWithin(values, s[0], s[|s| - 1]);
  }

  /** P50 and P95 are the nearest-rank percentiles of the durations. */
  lemma PercentilesMean(values: seq<real>, half: real, most: real)
    requires values != [] && half == |values| as real * 0.5 && most == |values| as real * 0.95
    ensures IsNearestRank(values, half, StatsOf(values).p50)
    ensures IsNearestRank(values, most, StatsOf(values).p95)
  {
    NearestRank(values, 0.5, half, StatsOf(values).p50);
    NearestRank(values, 0.95, most, StatsOf(values).p95);
  }

  /** The average times the count is the sum of the durations. */
  lemma {:induction false} AverageMeans(values: seq<real>, n: real)
    requires values != [] && n == |values| as real
    ensures Average(values) * n == Total(values, Itself())
  {
    DivideBack(Average(values), Total(values, Itself()), n);
  }

  lemma DivideBack(q: real, x: real, n: real)
    requires n > 0.0 && q == x / n
    ensures q * n == x
  {
  }

  lemma {:induction false} AverageWithin(values: seq<real>, lo: real, hi: real)
    requires values != [] && forall v :: v in values ==> lo <= v <= hi
    ensures lo <= Total(values, Itself()) / |values| as real <= hi
  {
    assert forall i :: 0 <= i < |values| ==> values[i] in values;
    TotalBounds(values, Itself(), lo, hi);
    DivideBounds(lo, Total(values, Itself()), hi, |values| as real);
  }

  lemma Extremes(s: seq<real>, values: seq<real>)
    requires Rising(s) && s != [] && forall v :: v in values ==> v in s
    ensures forall v :: v in values ==> s[0] <= v <= s[|s| - 1]
  {
    forall v | v in values
      ensures s[0] <= v <= s[|s| - 1]
    {
      var i :| 0 <= i < |s| && s[i] == v;
    }
  }

  lemma DivideBounds(lo: real, x: real, hi: real, n: real)
    requires n > 0.0 && lo * n <= x <= hi * n
    ensures lo <= x / n <= hi
  {
  }

  // ----- the interpolating quantile of the analysis script

  /** The value of the broken line through the samples at a position. */
  function Interpolate(s: seq<real>, position: real): real
    requires s != [] && 0.0 <= position <= (|s| - 1) as real
  {
    var lower, upper := position.Floor, Ceil(position);
    if lower == upper then s[lower]
    else s[lower] + (s[upper] - s[lower]) * (position - lower as real)
  }

  function Quantile(values: seq<real>, fraction: real): real
    requires 0.0 <= fraction <= 1.0
  {
    var ordered := Ascending(values);
    if ordered == [] then 0.0
    else
      PositionInRange(|ordered|, fraction, fraction);
      Interpolate(ordered, Times(|ordered| - 1, fraction))
  }

  lemma PositionInRange(n: nat, f: real, g: real)
    requires n > 0 && 0.0 <= f <= g <= 1.0
    ensures 0.0 <= Times(n - 1, f) <= Times(n - 1, g) <= (n - 1) as real
  {
    TimesMonotone(n - 1, 0.0, f);
    TimesMonotone(n - 1, f, g);
    TimesMonotone(n - 1, g, 1.0);
  }

  lemma Between(a: real, b: real, x: real, y: real)
    requires a <= b && 0.0 <= x <= y <= 1.0
    ensures a <= a + (b - a) * x <= a + (b - a) * y <= b
  {
    assert 0.0 <= (b - a) * x;
    assert (b - a) * x <= (b - a) * y;
    assert (b - a) * y <= (b - a) * 1.0;
  }

  /** The value lies between the two samples around its position. */
  lemma InterpolateBetween(s: seq<real>, x: real)
    requires Rising(s) && s != [] && 0.0 <= x <= (|s| - 1) as real
    ensures 0 <= x.Floor <= Ceil(x) < |s| && s[x.Floor] <= Interpolate(s, x) <= s[Ceil(x)]
  {
    Between(s[x.Floor], s[Ceil(x)], x - x.Floor as real, 1.0);
  }

  lemma InterpolateMonotone(s: seq<real>, x: real, y: real)
    requires Rising(s) && s != [] && 0.0 <= x <= y <= (|s| - 1) as real
    ensures s[0] <= Interpolate(s, x) <= Interpolate(s, y) <= s[|s| - 1]
  {
    InterpolateBetween(s, x);
    InterpolateBetween(s, y);
    if x.Floor == y.Floor {
      Between(s[x.Floor], s[Ceil(y)], x - x.Floor as real, y - y.Floor as real);
    }
  }

  /** Within the extremes, and monotone in the fraction. */
  lemma QuantileMonotone(values: seq<real>, f: real, g: real)
    requires values != [] && 0.0 <= f <= g <= 1.0
    ensures Quantile(values, f) <= Quantile(values, g)
    ensures var s := Ascending(values); s[0] <= Quantile(values, f) && Quantile(values, g) <= s[|s| - 1]
  {
    PositionInRange(|values|, f, g);
    QuantileIsInterpolated(values, f);
    QuantileIsInterpolated(values, g);
    InterpolateMonotone(Ascending(values), Times(|values| - 1, f), Times(|values| - 1, g));
  }

  lemma {:induction false} QuantileIsInterpolated(values: seq<real>, f: real)
    requires values != [] && 0.0 <= f <= 1.0
    ensures |Ascending(values)| == |values| && 0.0 <= Times(|values| - 1, f) <= (|values| - 1) as real
    ensures Quantile(values, f) == Interpolate(Ascending(values), Times(|values| - 1, f))
  {
    PositionInRange(|values|, f, f);
  }

  /** At the ends and at every sample position the quantile is that sample. */
  lemma QuantileAtSample(values: seq<real>, k: nat)
    requires k < |values| && |values| > 1
    ensures 0.0 <= k as real / (|values| - 1) as real <= 1.0
    ensures Quantile(values, k as real / (|values| - 1) as real) == Ascending(values)[k]
  {
    var m := |values| - 1;
    PositionOfSample(m, k as real);
    var s := Ascending(values);
    assert Quantile(values, k as real / m as real) == Interpolate(s, k as real);
  }

  lemma PositionOfSample(m: nat, x: real)
    requires 0 < m && 0.0 <= x <= m as real
    ensures 0.0 <= x / m as real <= 1.0
    ensures Times(m, x / m as real) == x
  {
    DivideBounds(0.0, x, 1.0, m as real);
    TimesIsProduct(m, x / m as real);
    DivideBack(x / m as real, x, m as real);
  }

  /** Between two neighbouring samples the quantile is their average, weighted by the place
      between them. */
  lemma QuantileIsWeighted(values: seq<real>, k: nat, w: real, x: real)
    requires k + 1 < |values| && 0.0 <= w <= 1.0 && x == (k as real + w) / (|values| - 1) as real
    ensures 0.0 <= x <= 1.0
    ensures Quantile(values, x) == Weighted(Ascending(values)[k], Ascending(values)[k + 1], w)
  {
    PositionOfSample(|values| - 1, k as real + w);
    QuantileIsInterpolated(values, x);
    InterpolateWeighted(Ascending(values), k, w, k as real + w);
  }

  function Weighted(a: real, b: real, w: real): real { a * (1.0 - w) + b * w }

  lemma InterpolateWeighted(s: seq<real>, k: nat, w: real, x: real)
    requires k + 1 < |s| && 0.0 <= w <= 1.0 && x == k as real + w
    ensures Interpolate(s, x) == Weighted(s[k], s[k + 1], w)
  {
    if w == 0.0 {
      assert x.Floor == Ceil(x) == k;
      WeighEnds(s[k], s[k + 1]);
    } else if w == 1.0 {
      assert x.Floor == Ceil(x) == k + 1;
      WeighEnds(s[k], s[k + 1]);
    } else {
      assert x.Floor == k && Ceil(x) == k + 1 && x - k as real == w;
      Weigh(s[k], s[k + 1], w);
    }
  }

  lemma WeighEnds(a: real, b: real)
    ensures Weighted(a, b, 0.0) == a && Weighted(a, b, 1.0) == b
  {
  }

  lemma Weigh(a: real, b: real, w: real)
    ensures a + (b - a) * w == Weighted(a, b, w)
  {
  }

  lemma QuantilePermutation(a: seq<real>, b: seq<real>, fraction: real)
    requires multiset(a) == multiset(b) && 0.0 <= fraction <= 1.0
    ensures Quantile(a, fraction) == Quantile(b, fraction)
  {
    AscendingPermutation(a, b);
  }

  /** The bootstrap interval of the paired effect is never inverted. */
  lemma BootstrapBoundsOrdered(bootstrap: seq<real>)
    ensures Quantile(bootstrap, 0.025) <= Quantile(bootstrap, 0.975)
  {
    if bootstrap != [] {
      QuantileMonotone(bootstrap, 0.025, 0.975);
    }
  }
}
