/** What the sampled busy union says about the ABCI calls behind the counters. A call is timed
    when it ends: only then do the count and the sum of its series grow. */
module AbciCalls {
  import opened Common
  import opened Intervals
  import opened Sampler
  import opened SamplerTheorems
  import opened WindowAccounting

  datatype Call = Call(abciMethod: string, labels: string, started: Instant, ended: Instant)
  {
    predicate RunsAt(t: int) { started <= t < ended }
  }

  predicate Counted(c: Call, k: Series, read: Instant) {
    c.abciMethod == k.abciMethod && c.labels == k.labels && c.ended <= read
  }

  function Weight(c: Call, k: Series): real {
    if k.metric == TIMING_COUNT then 1.0 else (c.ended - c.started) as real
  }

  /** What timing counter k shows when it is read: the calls that have ended, or their time. */
  ghost function Shown(calls: seq<Call>, k: Series, read: Instant): real {
    if calls == [] then 0.0
    else
      var last := calls[|calls| - 1];
      Shown(calls[..|calls| - 1], k, read) + if Counted(last, k, read) then Weight(last, k) else 0.0
  }

  ghost predicate RealCalls(calls: seq<Call>) {
    forall p :: 0 <= p < |calls| ==> calls[p].abciMethod != "" && calls[p].started < calls[p].ended
  }

  ghost predicate Exposes(m: Metrics, calls: seq<Call>, read: Instant) {
    forall k :: IsAbciTimer(k) ==> Value(m, k) == Shown(calls, k, read)
  }

  /** The node's counters report its calls and are never reset. The counters of scrape j are
      read at readAt[j]; the sampler looks at the clock only when the scrape is done. */
  ghost predicate Reports(scrapes: seq<Scrape>, readAt: seq<Instant>, n: string, calls: seq<Call>) {
    && |readAt| == |scrapes| && RealCalls(calls)
    && (forall i, j :: 0 <= i < j < |readAt| ==> readAt[i] <= readAt[j])
    && forall j :: 0 <= j < |scrapes| && UsableAt(scrapes[j], n) ==>
         && FirstUsable(scrapes[j].snapshots, n) == LastUsable(scrapes[j].snapshots, n)
         && Exposes(LastUsable(scrapes[j].snapshots, n).value.metrics, calls, readAt[j])
  }

  // ----- counters and ends of calls

  ghost predicate EndsBetween(calls: seq<Call>, from: Instant, to: Instant) {
    exists p :: 0 <= p < |calls| && from < calls[p].ended <= to
  }

  /** A timing counter rises exactly when one of its calls has ended in between. */
  lemma {:induction false} ShownGrows(calls: seq<Call>, k: Series, from: Instant, to: Instant)
    requires RealCalls(calls) && from <= to
    ensures Shown(calls, k, from) >= 0.0
    ensures Shown(calls, k, from) <= Shown(calls, k, to)
    ensures Shown(calls, k, from) < Shown(calls, k, to) <==>
            exists p :: 0 <= p < |calls| && Counted(calls[p], k, to) && !Counted(calls[p], k, from)
  {
    if calls != [] {
      var front := calls[..|calls| - 1];
      ShownGrows(front, k, from, to);
      assert forall p :: 0 <= p < |front| ==> front[p] == calls[p];
    }
  }

  lemma RisesWithEnds(before: Metrics, after: Metrics, calls: seq<Call>, from: Instant, to: Instant)
    requires RealCalls(calls) && from <= to && Exposes(before, calls, from) && Exposes(after, calls, to)
    ensures GrownMethods(MetricDeltas(before, after)) != {} <==> EndsBetween(calls, from, to)
  {
    var deltas := MetricDeltas(before, after);
    if m :| m in GrownMethods(deltas) {
      var k :| k in deltas.Keys && Grows(deltas, k) && k.abciMethod == m;
      ShownGrows(calls, k, from, to);
    }
    if p :| 0 <= p < |calls| && from < calls[p].ended <= to {
      var k := Series(TIMING_COUNT, calls[p].abciMethod, calls[p].labels);
      ShownGrows(calls, k, from, to);
      assert Counted(calls[p], k, to) && !Counted(calls[p], k, from);
      assert Grows(deltas, k);
      assert k.abciMethod in GrownMethods(deltas);
    }
  }

  /** Some call of the node, of whatever method, ended between the two readings that close the
      gap of scrape j. */
  ghost predicate GapEnds(scrapes: seq<Scrape>, readAt: seq<Instant>, n: string, calls: seq<Call>, j: int) {
    && |readAt| == |scrapes| && 0 <= j < |scrapes| && UsableAt(scrapes[j], n)
    && var i := Latest(scrapes[..j], n);
       i >= 0 && EndsBetween(calls, readAt[i], readAt[j])
  }

  lemma RisesWhenACallEnds(scrapes: seq<Scrape>, readAt: seq<Instant>, n: string, calls: seq<Call>, j: int, t: int)
    requires Reports(scrapes, readAt, n, calls) && InGap(scrapes, j, n, t)
    ensures GapRises(scrapes, j, n) <==> GapEnds(scrapes, readAt, n, calls, j)
  {
    var i := Latest(scrapes[..j], n);
    assert scrapes[..j][i] == scrapes[i];
    RisesWithEnds(LastUsable(scrapes[i].snapshots, n).value.metrics, LastUsable(scrapes[j].snapshots, n).value.metrics,
                  calls, readAt[i], readAt[j]);
  }

  /** An instant of a gap is covered exactly when a call of the node ends in the gap. */
  lemma {:induction false} CoveredWhenACallEnds(scrapes: seq<Scrape>, readAt: seq<Instant>, n: string, calls: seq<Call>, j: int, t: int)
    requires TimeOrdered(scrapes) && Reports(scrapes, readAt, n, calls) && InGap(scrapes, j, n, t)
    ensures CoveredFor(Run(scrapes).out, n, t) <==> GapEnds(scrapes, readAt, n, calls, j)
  {
    CoverageOfInstant(scrapes, j, n, t);
    RisesWhenACallEnds(scrapes, readAt, n, calls, j, t);
  }

  // ----- which calls the busy union bounds

  ghost function Running(calls: set<Call>): set<int> {
    set c, t | c in calls && c.started <= t < c.ended && c.RunsAt(t) :: t
  }

  /** Call c runs at some instant of the gap that scrape j closes. */
  ghost predicate RunsIn(scrapes: seq<Scrape>, j: int, n: string, c: Call) {
    && 0 <= j < |scrapes| && UsableAt(scrapes[j], n)
    && var i := Latest(scrapes[..j], n);
       i >= 0 && MaxTime(c.started, scrapes[i].at) < MinTime(c.ended, scrapes[j].at)
  }

  lemma RunsAtAnInstant(scrapes: seq<Scrape>, j: int, n: string, c: Call)
    ensures RunsIn(scrapes, j, n, c) <==> exists t :: c.RunsAt(t) && InGap(scrapes, j, n, t)
  {
    if RunsIn(scrapes, j, n, c) {
      assert InGap(scrapes, j, n, MaxTime(c.started, scrapes[Latest(scrapes[..j], n)].at));
    }
  }

  ghost predicate EveryGapEnds(scrapes: seq<Scrape>, readAt: seq<Instant>, n: string, calls: seq<Call>, some: set<Call>) {
    forall j, c :: c in some && RunsIn(scrapes, j, n, c) ==> GapEnds(scrapes, readAt, n, calls, j)
  }

  lemma EndsMeansRises(scrapes: seq<Scrape>, readAt: seq<Instant>, n: string, calls: seq<Call>, some: set<Call>)
    requires Reports(scrapes, readAt, n, calls)
    ensures RisesWhereActive(scrapes, n, Running(some)) <==> EveryGapEnds(scrapes, readAt, n, calls, some)
  {
    if EveryGapEnds(scrapes, readAt, n, calls, some) {
      forall j, t | t in Running(some) && InGap(scrapes, j, n, t)
        ensures GapRises(scrapes, j, n)
      {
        var c :| c in some && c.RunsAt(t);
        RunsAtAnInstant(scrapes, j, n, c);
        RisesWhenACallEnds(scrapes, readAt, n, calls, j, t);
      }
    } else {
      var j, c :| c in some && RunsIn(scrapes, j, n, c) && !GapEnds(scrapes, readAt, n, calls, j);
      RunsAtAnInstant(scrapes, j, n, c);
      var t :| c.RunsAt(t) && InGap(scrapes, j, n, t);
      RisesWhenACallEnds(scrapes, readAt, n, calls, j, t);
      assert t in Running(some);
    }
  }

  /** The published upper bound as a containment, with its exact condition. The busy union contains the running
      time of the given calls exactly when, in every gap that one of them runs in, some call
      of the node ends. A call that outlives a scrape is missed in the gaps where no call ends. */
  lemma BusyBoundsCalls(scrapes: seq<Scrape>, readAt: seq<Instant>, n: string, calls: seq<Call>, some: set<Call>)
    requires scrapes != [] && TimeOrdered(scrapes) && Reports(scrapes, readAt, n, calls)
    requires UsableAt(scrapes[0], n) && UsableAt(scrapes[|scrapes| - 1], n)
    ensures Running(some) * WindowOf(scrapes) <= BusyOf(scrapes, n) <==> EveryGapEnds(scrapes, readAt, n, calls, some)
    ensures EveryGapEnds(scrapes, readAt, n, calls, some) ==> AtLeastBusy(Running(some), WindowOf(scrapes), BusyOf(scrapes, n))
  {
    BusyIsUpperBound(scrapes, n, Running(some));
    EndsMeansRises(scrapes, readAt, n, calls, some);
  }

  // ----- the published seconds

  /** The chosen intervals among the first z, in order. */
  ghost function Chosen(gap: int -> Interval, chosen: int -> bool, z: nat): seq<Interval> {
    if z == 0 then []
    else if chosen(z - 1) then Chosen(gap, chosen, z - 1) + [gap(z - 1)]
    else Chosen(gap, chosen, z - 1)
  }

  lemma {:induction false} ChosenHas(gap: int -> Interval, chosen: int -> bool, z: nat, iv: Interval)
    ensures iv in Chosen(gap, chosen, z) <==> exists j :: 0 <= j < z && chosen(j) && gap(j) == iv
  {
    if z > 0 {
      ChosenHas(gap, chosen, z - 1, iv);
      assert chosen(z - 1) && gap(z - 1) == iv ==> iv in Chosen(gap, chosen, z);
    }
  }

  /** Intervals each of which begins no earlier than the one before it ends. */
  ghost predicate InSuccession(s: seq<Interval>) {
    && (forall p :: 0 <= p < |s| ==> s[p].started <= s[p].ended)
    && forall p, q :: 0 <= p < q < |s| ==> s[p].ended <= s[q].started
  }

  lemma {:induction false} SuccessionMeasure(s: seq<Interval>)
    requires InSuccession(s)
    ensures |Instants(s)| == TotalLength(s)
  {
    if s == [] {
      assert Instants(s) == {};
    } else {
      var front, last := s[..|s| - 1], s[|s| - 1];
      assert s == front + [last];
      SuccessionMeasure(front);
      InstantsAppend(front, last);
      RangeSize(last);
      forall p | 0 <= p < |front|
        ensures front[p].ended <= last.started
      {
        assert s[p].ended <= s[|s| - 1].started;
      }
      BeforeRange(front, last);
    }
  }

  lemma BeforeRange(s: seq<Interval>, iv: Interval)
    requires forall p :: 0 <= p < |s| ==> s[p].ended <= iv.started
    ensures |Instants(s) + Range(iv)| == |Instants(s)| + |Range(iv)|
  {
    forall t | t in Instants(s)
      ensures t !in Range(iv)
    {
      var p :| 0 <= p < |s| && s[p].Has(t);
    }
    assert Instants(s) !! Range(iv);
  }

  lemma SuccessionAppend(s: seq<Interval>, iv: Interval)
    requires InSuccession(s) && iv.started <= iv.ended && forall p :: 0 <= p < |s| ==> s[p].ended <= iv.started
    ensures InSuccession(s + [iv])
    ensures forall p :: 0 <= p < |s + [iv]| ==> (s + [iv])[p].ended <= iv.ended
  {
  }

  lemma {:induction false} ChosenInSuccession(gap: int -> Interval, chosen: int -> bool, reach: int -> Instant, z: nat)
    requires forall j :: 0 <= j < z ==> reach(j) <= reach(j + 1)
    requires forall j :: 0 <= j < z && chosen(j) ==> gap(j) == Interval(reach(j), reach(j + 1))
    ensures InSuccession(Chosen(gap, chosen, z))
    ensures forall p :: 0 <= p < |Chosen(gap, chosen, z)| ==> Chosen(gap, chosen, z)[p].ended <= reach(z)
  {
    if z > 0 {
      ChosenInSuccession(gap, chosen, reach, z - 1);
      assert reach(z - 1) <= reach(z);
      if chosen(z - 1) {
        assert gap(z - 1) == Interval(reach(z - 1), reach(z));
        SuccessionAppend(Chosen(gap, chosen, z - 1), gap(z - 1));
      }
    }
  }

  /** The gap that scrape j closes, as an interval. */
  ghost function GapOf(scrapes: seq<Scrape>, n: string): int -> Interval {
    (j: int) =>
      if 0 <= j < |scrapes| && Latest(scrapes[..j], n) >= 0 then Interval(scrapes[Latest(scrapes[..j], n)].at, scrapes[j].at)
      else Interval(0, 0)
  }

  ghost function Ends(scrapes: seq<Scrape>, readAt: seq<Instant>, n: string, calls: seq<Call>): int -> bool {
    (j: int) => GapEnds(scrapes, readAt, n, calls, j)
  }

  /** The time of the latest usable scrape among the first j. */
  ghost function Reach(scrapes: seq<Scrape>, n: string): int -> Instant {
    (j: int) => if 0 <= j <= |scrapes| && Latest(scrapes[..j], n) >= 0 then scrapes[Latest(scrapes[..j], n)].at else 0
  }

  /** The gaps in which some call of the node ends. */
  ghost function CountedGaps(scrapes: seq<Scrape>, readAt: seq<Instant>, n: string, calls: seq<Call>): seq<Interval> {
    Chosen(GapOf(scrapes, n), Ends(scrapes, readAt, n, calls), |scrapes|)
  }

  lemma {:induction false} ReachStep(scrapes: seq<Scrape>, n: string, j: int)
    requires 0 <= j < |scrapes| && TimeOrdered(scrapes)
    ensures Reach(scrapes, n)(j) <= Reach(scrapes, n)(j + 1)
    ensures UsableAt(scrapes[j], n) && Latest(scrapes[..j], n) >= 0 ==>
              GapOf(scrapes, n)(j) == Interval(Reach(scrapes, n)(j), Reach(scrapes, n)(j + 1))
  {
    assert scrapes[..j + 1][..j] == scrapes[..j];
    var i := Latest(scrapes[..j], n);
    if i >= 0 {
      assert scrapes[..j][i] == scrapes[i];
    }
  }

  lemma CountedMeasure(scrapes: seq<Scrape>, readAt: seq<Instant>, n: string, calls: seq<Call>)
    requires TimeOrdered(scrapes)
    ensures |Instants(CountedGaps(scrapes, readAt, n, calls))| == TotalLength(CountedGaps(scrapes, readAt, n, calls))
  {
    var gap, ends, reach := GapOf(scrapes, n), Ends(scrapes, readAt, n, calls), Reach(scrapes, n);
    forall j | 0 <= j < |scrapes|
      ensures reach(j) <= reach(j + 1)
      ensures ends(j) ==> gap(j) == Interval(reach(j), reach(j + 1))
    {
      ReachStep(scrapes, n, j);
    }
    ChosenInSuccession(gap, ends, reach, |scrapes|);
    SuccessionMeasure(CountedGaps(scrapes, readAt, n, calls));
  }

  lemma GapHas(scrapes: seq<Scrape>, readAt: seq<Instant>, n: string, calls: seq<Call>, j: int, t: int)
    requires GapEnds(scrapes, readAt, n, calls, j)
    ensures GapOf(scrapes, n)(j).Has(t) <==> InGap(scrapes, j, n, t)
  {
  }

  lemma CountedInstant(scrapes: seq<Scrape>, readAt: seq<Instant>, n: string, calls: seq<Call>, j: int, t: int)
    requires InGap(scrapes, j, n, t) && GapEnds(scrapes, readAt, n, calls, j)
    ensures t in Instants(CountedGaps(scrapes, readAt, n, calls))
  {
    var gaps, iv := CountedGaps(scrapes, readAt, n, calls), GapOf(scrapes, n)(j);
    ChosenHas(GapOf(scrapes, n), Ends(scrapes, readAt, n, calls), |scrapes|, iv);
    assert Ends(scrapes, readAt, n, calls)(j);
    GapHas(scrapes, readAt, n, calls, j, t);
    var p :| 0 <= p < |gaps| && gaps[p] == iv;
    assert gaps[p].Has(t);
  }

  lemma GapOfCounted(scrapes: seq<Scrape>, readAt: seq<Instant>, n: string, calls: seq<Call>, t: int) returns (j: int)
    requires t in Instants(CountedGaps(scrapes, readAt, n, calls))
    ensures InGap(scrapes, j, n, t) && GapEnds(scrapes, readAt, n, calls, j)
  {
    var gaps, gap, ends := CountedGaps(scrapes, readAt, n, calls), GapOf(scrapes, n), Ends(scrapes, readAt, n, calls);
    var p :| 0 <= p < |gaps| && gaps[p].Has(t);
    ChosenHas(gap, ends, |scrapes|, gaps[p]);
    j :| 0 <= j < |scrapes| && ends(j) && gap(j) == gaps[p];
    GapHas(scrapes, readAt, n, calls, j, t);
  }

  lemma GapInWindow(scrapes: seq<Scrape>, n: string, j: int, t: int)
    requires scrapes != [] && TimeOrdered(scrapes) && UsableAt(scrapes[0], n) && UsableAt(scrapes[|scrapes| - 1], n)
    requires InGap(scrapes, j, n, t)
    ensures scrapes[0].at <= t < scrapes[|scrapes| - 1].at
  {
    var i := Latest(scrapes[..j], n);
    assert scrapes[..j][i] == scrapes[i];
  }

  lemma CountedIsBusy(scrapes: seq<Scrape>, readAt: seq<Instant>, n: string, calls: seq<Call>, t: int)
    requires scrapes != [] && TimeOrdered(scrapes) && Reports(scrapes, readAt, n, calls)
    requires UsableAt(scrapes[0], n) && UsableAt(scrapes[|scrapes| - 1], n)
    requires t in Instants(CountedGaps(scrapes, readAt, n, calls))
    ensures t in BusyOf(scrapes, n)
  {
    var j := GapOfCounted(scrapes, readAt, n, calls, t);
    GapInWindow(scrapes, n, j, t);
    CoveredWhenACallEnds(scrapes, readAt, n, calls, j, t);
    BusyIsCovered(scrapes, n, t);
  }

  lemma BusyIsCounted(scrapes: seq<Scrape>, readAt: seq<Instant>, n: string, calls: seq<Call>, t: int)
    requires scrapes != [] && TimeOrdered(scrapes) && Reports(scrapes, readAt, n, calls)
    requires UsableAt(scrapes[0], n) && UsableAt(scrapes[|scrapes| - 1], n)
    requires t in BusyOf(scrapes, n)
    ensures t in Instants(CountedGaps(scrapes, readAt, n, calls))
  {
    BusyInWindow(Run(scrapes).out, n, scrapes[0].at, scrapes[|scrapes| - 1].at);
    BusyIsCovered(scrapes, n, t);
    var j := GapOfInstant(scrapes, n, t);
    RisesWhenACallEnds(scrapes, readAt, n, calls, j, t);
    CountedInstant(scrapes, readAt, n, calls, j, t);
  }

  /** The busy union in closed form: the gaps in which some call of the node ends, whole, and
      in seconds the sum of their lengths. */
  lemma BusyInClosedForm(scrapes: seq<Scrape>, readAt: seq<Instant>, n: string, calls: seq<Call>)
    requires scrapes != [] && TimeOrdered(scrapes) && Reports(scrapes, readAt, n, calls)
    requires UsableAt(scrapes[0], n) && UsableAt(scrapes[|scrapes| - 1], n)
    ensures BusyOf(scrapes, n) == Instants(CountedGaps(scrapes, readAt, n, calls))
    ensures |BusyOf(scrapes, n)| == TotalLength(CountedGaps(scrapes, readAt, n, calls))
  {
    CountedMeasure(scrapes, readAt, n, calls);
    forall t
      ensures t in BusyOf(scrapes, n) <==> t in Instants(CountedGaps(scrapes, readAt, n, calls))
    {
      if t in BusyOf(scrapes, n) {
        BusyIsCounted(scrapes, readAt, n, calls, t);
      }
      if t in Instants(CountedGaps(scrapes, readAt, n, calls)) {
        CountedIsBusy(scrapes, readAt, n, calls, t);
      }
    }
  }

  lemma SplitSize(s: set<int>, p: set<int>)
    ensures |s| == |s * p| + |s - p|
  {
    assert s == s * p + (s - p);
  }

  /** Sizes compare as what is missed compares with what is counted for nothing. */
  lemma SizesCompare(active: set<int>, window: set<int>, busy: set<int>)
    requires busy <= window
    ensures AtLeastBusy(active, window, busy) <==> |active * window| <= |busy|
    ensures AtLeastBusy(active, window, busy) <==> |active * window - busy| <= |busy - active|
  {
    SplitSize(window, busy);
    SplitSize(window, active);
    SplitSize(busy, active);
    SplitSize(active * window, busy);
    assert window * busy == busy && window * active == active * window;
    assert active * window * busy == busy * active;
  }

  /** The published bounds in seconds, with their exact condition: both hold for the given
      calls exactly when these run no longer than the gaps in which some call ends, that is,
      when the running time missed in the other gaps is at most the idle time counted as busy. */
  lemma BusyBoundsSeconds(scrapes: seq<Scrape>, readAt: seq<Instant>, n: string, calls: seq<Call>, some: set<Call>)
    requires scrapes != [] && TimeOrdered(scrapes) && Reports(scrapes, readAt, n, calls)
    requires UsableAt(scrapes[0], n) && UsableAt(scrapes[|scrapes| - 1], n)
    ensures AtLeastBusy(Running(some), WindowOf(scrapes), BusyOf(scrapes, n)) <==>
            |Running(some) * WindowOf(scrapes)| <= TotalLength(CountedGaps(scrapes, readAt, n, calls))
    ensures AtLeastBusy(Running(some), WindowOf(scrapes), BusyOf(scrapes, n)) <==>
            var counted := Instants(CountedGaps(scrapes, readAt, n, calls));
            |Running(some) * WindowOf(scrapes) - counted| <= |counted - Running(some)|
  {
    BusyInClosedForm(scrapes, readAt, n, calls);
    BusyInWindow(Run(scrapes).out, n, scrapes[0].at, scrapes[|scrapes| - 1].at);
    SizesCompare(Running(some), WindowOf(scrapes), BusyOf(scrapes, n));
  }

  // ----- a failing input

  function Sample(n: string, at: Instant, ended: real): Scrape {
    Scrape(at, [Snapshot(n, "", map[Series("up", "", "") := 1.0, Series(TIMING_COUNT, "commit", "") := ended,
                                    Series(TIMING_SUM, "commit", "") := ended])])
  }

  lemma {:induction false} SampleExposes(n: string, at: Instant, ended: real, calls: seq<Call>)
    requires n != "" && at > 0
    requires forall k :: IsAbciTimer(k) ==>
               Shown(calls, k, at) == if k.abciMethod == "commit" && k.labels == "" then ended else 0.0
    ensures var s := Sample(n, at, ended);
            && UsableAt(s, n) && FirstUsable(s.snapshots, n) == LastUsable(s.snapshots, n) == Some(s.snapshots[0])
            && Exposes(s.snapshots[0].metrics, calls, at)
  {
    var s := Sample(n, at, ended);
    assert s.snapshots[..0] == [];
    assert Series("up", "", "") in s.snapshots[0].metrics;
    assert |TIMING_COUNT| == 52 && |TIMING_SUM| == 50 && |"up"| == 2;
  }

  function TwoCalls(): seq<Call> { [Call("commit", "", 1, 2), Call("commit", "", 3, 7)] }

  function ThreeSamples(n: string): seq<Scrape> { [Sample(n, 1, 0.0), Sample(n, 3, 1.0), Sample(n, 5, 1.0)] }

  lemma {:induction false} SamplesInOrder(n: string)
    requires n != ""
    ensures var scrapes := ThreeSamples(n);
            && TimeOrdered(scrapes) && (forall j :: 0 <= j < 3 ==> UsableAt(scrapes[j], n))
            && Latest(scrapes[..1], n) == 0 && Latest(scrapes[..2], n) == 1
  {
    TwoCallsShown();
    SampleExposes(n, 1, 0.0, TwoCalls());
    SampleExposes(n, 3, 1.0, TwoCalls());
    SampleExposes(n, 5, 1.0, TwoCalls());
  }

  lemma SamplesReport(n: string)
    requires n != ""
    ensures Reports(ThreeSamples(n), [1, 3, 5], n, TwoCalls())
  {
    TwoCallsShown();
    SampleExposes(n, 1, 0.0, TwoCalls());
    SampleExposes(n, 3, 1.0, TwoCalls());
    SampleExposes(n, 5, 1.0, TwoCalls());
  }

  lemma SampleCovered(n: string, t: int)
    requires n != "" && 1 <= t < 5
    ensures CoveredFor(Run(ThreeSamples(n)).out, n, t) <==> t < 3
  {
    var scrapes, calls := ThreeSamples(n), TwoCalls();
    SamplesInOrder(n);
    SamplesReport(n);
    if t < 3 {
      CoveredWhenACallEnds(scrapes, [1, 3, 5], n, calls, 1, t);
      assert 1 < calls[0].ended <= 3;
    } else {
      CoveredWhenACallEnds(scrapes, [1, 3, 5], n, calls, 2, t);
    }
  }

  lemma SamplesBusy(n: string)
    requires n != ""
    ensures BusyOf(ThreeSamples(n), n) == {1, 2} && WindowOf(ThreeSamples(n)) == {1, 2, 3, 4}
  {
    var scrapes := ThreeSamples(n);
    SamplesInOrder(n);
    SamplesReport(n);
    BusyInWindow(Run(scrapes).out, n, 1, 5);
    forall t
      ensures t in WindowOf(scrapes) <==> 1 <= t < 5
      ensures t in BusyOf(scrapes, n) <==> 1 <= t < 3
    {
      BusyIsCovered(scrapes, n, t);
      if 1 <= t < 5 {
        SampleCovered(n, t);
      }
    }
    Listed(BusyOf(scrapes, n), WindowOf(scrapes));
  }

  lemma Listed(two: set<int>, four: set<int>)
    requires forall t :: t in two <==> 1 <= t < 3
    requires forall t :: t in four <==> 1 <= t < 5
    ensures two == {1, 2} && four == {1, 2, 3, 4}
  {
    forall t
      ensures t in two <==> t == 1 || t == 2
      ensures t in four <==> t == 1 || t == 2 || t == 3 || t == 4
    {
    }
    assert two == {1, 2};
    assert four == {1, 2, 3, 4};
  }

  /** A failing input: one call from 1 to 2 and one from 3 to 7, scraped at 1, 3 and 5. The
      published union is 2, the calls ran for 3 instants of the window. */
  lemma LongCallIsMissed(n: string)
    requires n != ""
    ensures var scrapes, calls := ThreeSamples(n), TwoCalls();
            && TimeOrdered(scrapes) && Reports(scrapes, [1, 3, 5], n, calls)
            && |BusyOf(scrapes, n)| == 2 && |Running({calls[0], calls[1]}) * WindowOf(scrapes)| == 3
  {
    SamplesInOrder(n);
    SamplesReport(n);
    SamplesBusy(n);
    TwoCallsRun();
  }

  lemma TwoCallsShown()
    ensures forall k, at :: IsAbciTimer(k) && at < 7 ==>
              Shown(TwoCalls(), k, at) == if k.abciMethod == "commit" && k.labels == "" && at >= 2 then 1.0 else 0.0
  {
    var calls := TwoCalls();
    assert calls[..1] == [calls[0]] && calls[..1][..0] == [];
    forall k, at | IsAbciTimer(k) && at < 7
      ensures Shown(calls, k, at) == if k.abciMethod == "commit" && k.labels == "" && at >= 2 then 1.0 else 0.0
    {
      assert Shown(calls[..1], k, at) == if Counted(calls[0], k, at) then Weight(calls[0], k) else 0.0;
    }
  }

  lemma TwoCallsRun()
    ensures Running({TwoCalls()[0], TwoCalls()[1]}) * {1, 2, 3, 4} == {1, 3, 4}
  {
    var calls := TwoCalls();
    forall t
      ensures t in Running({calls[0], calls[1]}) <==> calls[0].RunsAt(t) || calls[1].RunsAt(t)
    {
    }
  }
}
