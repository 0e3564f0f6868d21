/** Wall-clock intervals of the load window: clipping, the sorted in-place merge and
    the measure of the union. An interval is the half-open set of instants
    [started, ended), in whole nanoseconds; instant 0 stands for Go's zero time. */
module Intervals {
  import opened Common
  import opened Order

  type Instant = nat

  datatype Interval = Interval(started: Instant, ended: Instant)
  {
    predicate NonEmpty() { started < ended }
    predicate Has(t: int) { started <= t < ended }
    function Length(): int { ended - started }
  }

  ghost function Range(iv: Interval): set<int> {
    set t | iv.started <= t < iv.ended && iv.Has(t)
  }

  /** The instants some interval of the list covers. */
  ghost function Instants(s: seq<Interval>): set<int> {
    set i, t | 0 <= i < |s| && s[i].started <= t < s[i].ended && s[i].Has(t) :: t
  }

  ghost predicate AllNonEmpty(s: seq<Interval>) {
    forall i :: 0 <= i < |s| ==> s[i].NonEmpty()
  }

  /** Increasing, with at least one uncovered instant between neighbours. */
  ghost predicate Separated(s: seq<Interval>) {
    AllNonEmpty(s) && forall i, j :: 0 <= i < j < |s| ==> s[i].ended < s[j].started
  }

  ghost function TotalLength(s: seq<Interval>): int {
    if s == [] then 0 else TotalLength(s[..|s| - 1]) + s[|s| - 1].Length()
  }

  predicate StartThenEnd(a: Interval, b: Interval) {
    if a.started == b.started then a.ended <= b.ended else a.started < b.started
  }

  function MinTime(a: Instant, b: Instant): Instant { if a < b then a else b }

  function MaxTime(a: Instant, b: Instant): Instant { if a > b then a else b }

  /** Cut an interval to the window; zero times, inverted intervals and empty
      intersections are dropped. */
  function Clip(iv: Interval, windowStart: Instant, windowEnd: Instant): Option<Interval> {
    if iv.started == 0 || iv.ended == 0 || iv.ended <= iv.started then None
    else
      var started := MaxTime(iv.started, windowStart);
      var ended := MinTime(iv.ended, windowEnd);
      if ended <= started then None else Some(Interval(started, ended))
  }

  /** A recorded interval loses exactly what lies outside the window. */
  lemma ClipIsIntersection(iv: Interval, windowStart: Instant, windowEnd: Instant)
    requires iv.started != 0
    ensures var kept := Range(iv) * Range(Interval(windowStart, windowEnd));
            match Clip(iv, windowStart, windowEnd)
            case None => kept == {}
            case Some(c) => c.NonEmpty() && Range(c) == kept
  {
    var kept := Range(iv) * Range(Interval(windowStart, windowEnd));
    var window := Interval(windowStart, windowEnd);
    match Clip(iv, windowStart, windowEnd)
    case None =>
      assert forall t :: !(iv.Has(t) && window.Has(t));
    case Some(c) =>
      assert forall t :: c.Has(t) <==> iv.Has(t) && window.Has(t);
  }

  lemma {:induction false} RangeSize(iv: Interval)
    ensures |Range(iv)| == if iv.NonEmpty() then iv.Length() else 0
    decreases iv.ended
  {
    if iv.NonEmpty() {
      var shorter := iv.(ended := iv.ended - 1);
      assert forall t :: iv.Has(t) <==> shorter.Has(t) || t == iv.ended - 1;
      assert Range(iv) == Range(shorter) + {iv.ended - 1};
      RangeSize(shorter);
    } else {
      assert Range(iv) == {};
    }
  }

  lemma InstantsAppend(s: seq<Interval>, x: Interval)
    ensures Instants(s + [x]) == Instants(s) + Range(x)
  {
    var longer := s + [x];
    forall t | t in Instants(s) + Range(x)
      ensures t in Instants(longer)
    {
      if t in Instants(s) {
        var i :| 0 <= i < |s| && s[i].Has(t);
        assert longer[i].Has(t);
      } else {
        assert longer[|s|].Has(t);
      }
    }
  }

  lemma InstantsOfPermutation(a: seq<Interval>, b: seq<Interval>)
    requires multiset(a) == multiset(b)
    ensures Instants(a) == Instants(b)
    ensures AllNonEmpty(a) <==> AllNonEmpty(b)
  {
    SameElements(a, b);
    InstantsSubset(a, b);
    InstantsSubset(b, a);
    assert forall i :: 0 <= i < |a| ==> a[i] in b;
    assert forall i :: 0 <= i < |b| ==> b[i] in a;
  }

  lemma InstantsSubset(a: seq<Interval>, b: seq<Interval>)
    requires forall x :: x in a ==> x in b
    ensures Instants(a) <= Instants(b)
  {
    forall t | t in Instants(a)
      ensures t in Instants(b)
    {
      var i :| 0 <= i < |a| && a[i].Has(t);
      assert a[i] in b;
      var j :| 0 <= j < |b| && b[j] == a[i];
      assert b[j].Has(t);
    }
  }

  /** For separated intervals the summed lengths are the size of the covered set. */
  lemma {:induction false} SeparatedMeasure(s: seq<Interval>)
    requires Separated(s)
    ensures TotalLength(s) == |Instants(s)|
  {
    if s == [] {
      assert Instants(s) == {};
    } else {
      var front, last := s[..|s| - 1], s[|s| - 1];
      assert s == front + [last];
      SeparatedMeasure(front);
      InstantsAppend(front, last);
      RangeSize(last);
      assert Instants(front) !! Range(last);
    }
  }

  lemma OrderIsTotal()
    ensures TotalPreorder(StartThenEnd)
    ensures forall a, b :: StartThenEnd(a, b) && StartThenEnd(b, a) ==> a == b
  {
  }

  /** One pass of the merge loop, as an equation between sets of instants. */
  lemma MergeStep(merged: seq<Interval>, interval: Interval)
    requires merged != [] && Separated(merged) && interval.NonEmpty()
    requires merged[|merged| - 1].started <= interval.started
    ensures var last := merged[|merged| - 1];
            var all := Instants(merged) + Range(interval);
            if last.ended < interval.started then
              Separated(merged + [interval]) && Instants(merged + [interval]) == all
            else if last.ended < interval.ended then
              var grown := merged[|merged| - 1 := last.(ended := interval.ended)];
              Separated(grown) && Instants(grown) == all
            else
              Instants(merged) == all
  {
    var last := merged[|merged| - 1];
    if last.ended < interval.started {
      InstantsAppend(merged, interval);
    } else {
      RangeJoin(last, interval);
      ReplaceLast(merged, Interval(last.started, MaxTime(last.ended, interval.ended)));
      assert merged[|merged| - 1 := last] == merged;
    }
  }

  /** Ranges that meet join into one. */
  lemma RangeJoin(a: Interval, b: Interval)
    requires a.started <= b.started <= a.ended
    ensures Range(a) + Range(b) == Range(Interval(a.started, MaxTime(a.ended, b.ended)))
  {
    var joined := Interval(a.started, MaxTime(a.ended, b.ended));
    assert forall t :: joined.Has(t) <==> a.Has(t) || b.Has(t);
  }

  lemma ReplaceLast(s: seq<Interval>, x: Interval)
    requires s != [] && Range(s[|s| - 1]) <= Range(x)
    ensures Instants(s[|s| - 1 := x]) == Instants(s) + Range(x)
  {
    var front := s[..|s| - 1];
    assert s == front + [s[|s| - 1]] && s[|s| - 1 := x] == front + [x];
    InstantsAppend(front, s[|s| - 1]);
    InstantsAppend(front, x);
  }

  function SortByStart(intervals: seq<Interval>): seq<Interval> {
    OrderIsTotal();
    Sort(StartThenEnd, intervals)
  }

  lemma SortByStartKeeps(intervals: seq<Interval>)
    requires AllNonEmpty(intervals)
    ensures var r := SortByStart(intervals);
            && |r| == |intervals| && AllNonEmpty(r) && Instants(r) == Instants(intervals)
            && forall i :: 0 < i < |r| ==> r[i - 1].started <= r[i].started
  {
    OrderIsTotal();
    var r := SortByStart(intervals);
    SameElements(r, intervals);
    InstantsOfPermutation(r, intervals);
    assert forall i :: 0 < i < |r| ==> StartThenEnd(r[i - 1], r[i]);
  }

  /** The sorted in-place merge. Touching intervals are joined. */
  method MergeClipped(intervals: seq<Interval>) returns (merged: seq<Interval>)
    requires AllNonEmpty(intervals)
    ensures Separated(merged)
    ensures Instants(merged) == Instants(intervals)
  {
    if |intervals| == 0 {
      return [];
    }
    var ordered := SortByStart(intervals);
    SortByStartKeeps(intervals);
    merged := [ordered[0]];
    FirstMerged(ordered);
    for i := 1 to |ordered|
      invariant Merges(merged, ordered, i)
    {
      var interval := ordered[i];
      var last := merged[|merged| - 1];
      MergesStep(merged, ordered, i);
      if interval.started <= last.ended {
        if interval.ended > last.ended {
          merged := merged[|merged| - 1 := last.(ended := interval.ended)];
        }
      } else {
        merged := merged + [interval];
      }
    }
    assert ordered[..|ordered|] == ordered;
  }

  /** The first i sorted intervals have been merged. */
  ghost predicate Merges(merged: seq<Interval>, ordered: seq<Interval>, i: int) {
    && 0 < i <= |ordered| && merged != [] && Separated(merged)
    && merged[|merged| - 1].started <= ordered[i - 1].started
    && Instants(merged) == Instants(ordered[..i])
  }

  lemma FirstMerged(ordered: seq<Interval>)
    requires ordered != [] && ordered[0].NonEmpty()
    ensures Merges([ordered[0]], ordered, 1)
  {
    assert [ordered[0]] == ordered[..1];
  }

  lemma MergesStep(merged: seq<Interval>, ordered: seq<Interval>, i: int)
    requires i < |ordered| && Merges(merged, ordered, i)
    requires ordered[i].NonEmpty() && ordered[i - 1].started <= ordered[i].started
    ensures var last, interval := merged[|merged| - 1], ordered[i];
            Merges(if last.ended < interval.started then merged + [interval]
                   else if last.ended < interval.ended then merged[|merged| - 1 := last.(ended := interval.ended)]
                   else merged, ordered, i + 1)
  {
    assert ordered[..i + 1] == ordered[..i] + [ordered[i]];
    InstantsAppend(ordered[..i], ordered[i]);
    MergeStep(merged, ordered[i]);
  }

  method UnionLength(intervals: seq<Interval>) returns (total: int)
    requires AllNonEmpty(intervals)
    ensures total == |Instants(intervals)|
  {
    var merged := MergeClipped(intervals);
    total := 0;
    for i := 0 to |merged|
      invariant total == TotalLength(merged[..i])
    {
      assert merged[..i + 1][..i] == merged[..i];
      total := total + merged[i].Length();
    }
    assert merged[..|merged|] == merged;
    SeparatedMeasure(merged);
  }

  lemma FirstInstant(s: seq<Interval>)
    requires Separated(s) && s != []
    ensures s[0].started in Instants(s) && s[0].ended !in Instants(s)
    ensures forall t :: t in Instants(s) ==> s[0].started <= t
    ensures Range(s[0]) <= Instants(s)
    ensures Instants(s[1..]) == Instants(s) - Range(s[0])
  {
    assert s[0].Has(s[0].started) && forall t :: s[0].Has(t) ==> t in Instants(s);
    var rest := s[1..];
    forall t | t in Instants(s) && t !in Range(s[0])
      ensures t in Instants(rest)
    {
      var i :| 0 <= i < |s| && s[i].Has(t);
      assert rest[i - 1] == s[i];
    }
    forall t | t in Instants(rest)
      ensures t in Instants(s) && t !in Range(s[0])
    {
      var i :| 0 <= i < |rest| && rest[i].Has(t);
      assert rest[i] == s[i + 1];
    }
  }

  /** A set of instants has one separated description only, so the merge result does
      not depend on the order or the multiplicity of its input. */
  lemma {:induction false} SeparatedUnique(a: seq<Interval>, b: seq<Interval>)
    requires Separated(a) && Separated(b) && Instants(a) == Instants(b)
    ensures a == b
  {
    if a == [] || b == [] {
      if a != [] { FirstInstant(a); }
      if b != [] { FirstInstant(b); }
    } else {
      SameFirst(a, b);
      FirstInstant(a);
      FirstInstant(b);
      SeparatedUnique(a[1..], b[1..]);
      assert a == [a[0]] + a[1..] && b == [b[0]] + b[1..];
    }
  }

  lemma SameFirst(a: seq<Interval>, b: seq<Interval>)
    requires Separated(a) && Separated(b) && Instants(a) == Instants(b) && a != [] && b != []
    ensures a[0] == b[0]
  {
    FirstInstant(a);
    FirstInstant(b);
    assert b[0].Has(a[0].ended) || a[0].ended >= b[0].ended;
    assert a[0].Has(b[0].ended) || b[0].ended >= a[0].ended;
  }
}
