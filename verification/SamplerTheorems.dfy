/** What a whole run of scrapes emits, said without the sampler's state. */
module SamplerTheorems {
  import opened Common
  import opened Order
  import opened Intervals
  import opened Sampler
  import Text

  function FirstUsable(snaps: seq<Snapshot>, n: string): Option<Snapshot> {
    if snaps == [] then None
    else
      var earlier := FirstUsable(snaps[..|snaps| - 1], n);
      var last := snaps[|snaps| - 1];
      if earlier.Some? then earlier else if last.Usable() && last.name == n then Some(last) else None
  }

  function LastUsable(snaps: seq<Snapshot>, n: string): Option<Snapshot> {
    if snaps == [] then None
    else
      var last := snaps[|snaps| - 1];
      if last.Usable() && last.name == n then Some(last) else LastUsable(snaps[..|snaps| - 1], n)
  }

  predicate UsableAt(scrape: Scrape, n: string) {
    scrape.at != 0 && LastUsable(scrape.snapshots, n).Some?
  }

  lemma {:induction false} FirstAndLastUsable(snaps: seq<Snapshot>, n: string)
    ensures FirstUsable(snaps, n).Some? <==> LastUsable(snaps, n).Some?
    ensures FirstUsable(snaps, n).Some? ==>
              FirstUsable(snaps, n).value.Usable() && FirstUsable(snaps, n).value.name == n
    ensures LastUsable(snaps, n).Some? ==>
              LastUsable(snaps, n).value.Usable() && LastUsable(snaps, n).value.name == n
  {
    if snaps != [] {
      FirstAndLastUsable(snaps[..|snaps| - 1], n);
    }
  }

  /** The latest usable scrape of node n, -1 when there is none. */
  function Latest(scrapes: seq<Scrape>, n: string): (i: int)
    ensures -1 <= i < |scrapes|
    ensures i >= 0 ==> UsableAt(scrapes[i], n)
    ensures forall k :: i < k < |scrapes| ==> !UsableAt(scrapes[k], n)
  {
    if scrapes == [] then -1
    else if UsableAt(scrapes[|scrapes| - 1], n) then |scrapes| - 1
    else Latest(scrapes[..|scrapes| - 1], n)
  }

  /** The methods whose timing counters rose from one usable scrape of n to another. */
  ghost function RisenMethods(before: Scrape, after: Scrape, n: string): set<string>
    requires UsableAt(before, n) && UsableAt(after, n)
  {
    FirstAndLastUsable(after.snapshots, n);
    GrownMethods(MetricDeltas(LastUsable(before.snapshots, n).value.metrics,
                              FirstUsable(after.snapshots, n).value.metrics))
  }

  /** Scrape j closes a gap of node n that opened at instant a, and method m rose across it. */
  ghost predicate Closes(scrapes: seq<Scrape>, j: int, n: string, m: string, a: Instant) {
    && 0 <= j < |scrapes| && UsableAt(scrapes[j], n)
    && var i := Latest(scrapes[..j], n);
       && i >= 0 && a == scrapes[i].at < scrapes[j].at
       && m in RisenMethods(scrapes[i], scrapes[j], n)
  }

  ghost predicate TimeOrdered(scrapes: seq<Scrape>) {
    forall i, j :: 0 <= i < j < |scrapes| && scrapes[i].at != 0 && scrapes[j].at != 0 ==> scrapes[i].at <= scrapes[j].at
  }

  /** A failed, empty or nameless snapshot changes nothing; any other is held from then on. */
  lemma OnlyGoodSnapshotsCount(st: SampleState, at: Instant, snap: Snapshot)
    ensures var next := StepSnapshot(st, at, snap);
            if snap.name == "" || snap.error != "" || snap.metrics == map[] then next == st
            else snap.name in next.previous && next.previous[snap.name] == SamplePoint(at, snap) && st.out <= next.out
  {
  }

  // ----- one scrape, seen from one node

  ghost predicate NewInterval(st: SampleState, at: Instant, first: Option<Snapshot>, n: string, iv: LoadInterval) {
    && first.Some? && n in st.previous
    && iv in GapIntervals(st.previous[n], at, first.value)
  }

  lemma SnapshotForNode(st: SampleState, at: Instant, snap: Snapshot, n: string, iv: LoadInterval)
    requires iv.name == n
    ensures var next := StepSnapshot(st, at, snap);
            if snap.Usable() && snap.name == n then
              && n in next.previous && next.previous[n] == SamplePoint(at, snap)
              && (iv in next.out <==> iv in st.out || (n in st.previous && iv in GapIntervals(st.previous[n], at, snap)))
            else
              && (n in next.previous <==> n in st.previous)
              && (n in st.previous ==> next.previous[n] == st.previous[n])
              && (iv in next.out <==> iv in st.out)
  {
  }

  lemma {:induction false} ScrapeForNode(st: SampleState, at: Instant, snaps: seq<Snapshot>, n: string)
    requires at != 0
    ensures var next := StepSnapshots(st, at, snaps);
            && (match LastUsable(snaps, n)
                case None => (n in next.previous <==> n in st.previous) &&
                             (n in st.previous ==> next.previous[n] == st.previous[n])
                case Some(s) => n in next.previous && next.previous[n] == SamplePoint(at, s))
            && forall iv: LoadInterval :: iv.name == n ==>
                 (iv in next.out <==> iv in st.out || NewInterval(st, at, FirstUsable(snaps, n), n, iv))
  {
    if snaps != [] {
      var front, last := snaps[..|snaps| - 1], snaps[|snaps| - 1];
      ScrapeForNode(st, at, front, n);
      FirstAndLastUsable(front, n);
      var mid := StepSnapshots(st, at, front);
      SnapshotForNode(mid, at, last, n, AbciInterval(n, "", 0, 0));
      forall iv: LoadInterval | iv.name == n
        ensures iv in StepSnapshots(st, at, snaps).out <==> iv in st.out || NewInterval(st, at, FirstUsable(snaps, n), n, iv)
      {
        SnapshotForNode(mid, at, last, n, iv);
      }
    }
  }

  /** The point the sampler holds for a node is its latest usable snapshot. */
  lemma {:induction false} HoldsLatest(scrapes: seq<Scrape>, n: string)
    ensures var i := Latest(scrapes, n);
            && (n in Run(scrapes).previous <==> i >= 0)
            && (i >= 0 ==> Run(scrapes).previous[n] ==
                             SamplePoint(scrapes[i].at, LastUsable(scrapes[i].snapshots, n).value))
  {
    if scrapes != [] {
      var front, last := scrapes[..|scrapes| - 1], scrapes[|scrapes| - 1];
      HoldsLatest(front, n);
      if last.at != 0 {
        ScrapeForNode(Run(front), last.at, last.snapshots, n);
      }
    }
  }

  lemma GapMembers(prior: SamplePoint, at: Instant, after: Snapshot, m: string, a: Instant, b: Instant)
    requires prior.at != 0 && prior.snapshot.Usable() && after.Usable()
    ensures AbciInterval(after.name, m, a, b) in GapIntervals(prior, at, after) <==>
            a == prior.at < at == b && m in GrownMethods(MetricDeltas(prior.snapshot.metrics, after.metrics))
  {
    var grown := GrownMethods(MetricDeltas(prior.snapshot.metrics, after.metrics));
    var methods := Text.SortedStrings(grown);
    Text.SortedStringsListSet(grown);
    assert m in methods <==> m in Elements(methods);
    if prior.at < at {
      var gap := GapIntervals(prior, at, after);
      assert forall q :: 0 <= q < |methods| ==> gap[q] == AbciInterval(after.name, methods[q], prior.at, at);
    }
  }

  // ----- a whole run

  /** Every emitted interval is an ABCI interval of some named node. */
  lemma {:induction false} OnlyAbciIntervals(scrapes: seq<Scrape>, iv: LoadInterval)
    requires iv in Run(scrapes).out
    ensures iv == AbciInterval(iv.name, iv.abciMethod, iv.started, iv.ended)
  {
    if scrapes != [] {
      var front, last := scrapes[..|scrapes| - 1], scrapes[|scrapes| - 1];
      if iv in Run(front).out {
        OnlyAbciIntervals(front, iv);
      } else {
        ScrapeForNode(Run(front), last.at, last.snapshots, iv.name);
        FirstAndLastUsable(last.snapshots, iv.name);
      }
    }
  }

  /** Refinement: an interval is emitted exactly when it spans the gap between two successive
      usable scrapes of its node and a timing counter of its method rose across that gap. */
  lemma {:induction false} EmittedExactly(scrapes: seq<Scrape>, n: string, m: string, a: Instant, b: Instant)
    ensures AbciInterval(n, m, a, b) in Run(scrapes).out <==>
            exists j :: Closes(scrapes, j, n, m, a) && b == scrapes[j].at
  {
    if scrapes != [] {
      var front, z := scrapes[..|scrapes| - 1], |scrapes| - 1;
      EmittedExactly(front, n, m, a, b);
      EmittedByLast(scrapes, n, m, a, b);
      forall j | 0 <= j < z
        ensures Closes(front, j, n, m, a) <==> Closes(scrapes, j, n, m, a)
      {
        assert front[..j] == scrapes[..j];
      }
    }
  }

  lemma EmittedByLast(scrapes: seq<Scrape>, n: string, m: string, a: Instant, b: Instant)
    requires scrapes != []
    ensures var front, z := scrapes[..|scrapes| - 1], |scrapes| - 1;
            AbciInterval(n, m, a, b) in Run(scrapes).out <==>
            AbciInterval(n, m, a, b) in Run(front).out || (Closes(scrapes, z, n, m, a) && b == scrapes[z].at)
  {
    var front, last := scrapes[..|scrapes| - 1], scrapes[|scrapes| - 1];
    if last.at != 0 {
      ScrapeForNode(Run(front), last.at, last.snapshots, n);
      FirstAndLastUsable(last.snapshots, n);
      HoldsLatest(front, n);
      var i := Latest(front, n);
      if i >= 0 && UsableAt(last, n) {
        FirstAndLastUsable(front[i].snapshots, n);
        GapMembers(Run(front).previous[n], last.at, FirstUsable(last.snapshots, n).value, m, a, b);
      }
    }
  }

  // ----- intervals of one node and method never overlap

  ghost predicate Orderly(st: SampleState, now: Instant) {
    && (forall n :: n in st.previous ==> 0 < st.previous[n].at <= now)
    && (forall p :: 0 <= p < |st.out| ==>
          st.out[p].name in st.previous && st.out[p].started < st.out[p].ended <= st.previous[st.out[p].name].at)
    && NoOverlap(st.out)
  }

  ghost predicate NoOverlap(out: seq<LoadInterval>) {
    forall p, q :: 0 <= p < q < |out| && out[p].name == out[q].name && out[p].abciMethod == out[q].abciMethod ==>
                     out[p].ended <= out[q].started
  }

  lemma NoOverlapAppend(out: seq<LoadInterval>, gap: seq<LoadInterval>, name: string, at: Instant)
    requires NoOverlap(out) && Distinct(gap)
    requires forall p :: 0 <= p < |out| && out[p].name == name ==> out[p].ended <= at
    requires forall q :: 0 <= q < |gap| ==> gap[q] == AbciInterval(name, gap[q].abciMethod, at, gap[q].ended)
    requires forall p, q :: 0 <= p < q < |gap| ==> gap[p].abciMethod != gap[q].abciMethod
    ensures NoOverlap(out + gap)
  {
  }

  lemma OrderlyStep(st: SampleState, at: Instant, snap: Snapshot)
    requires at != 0 && Orderly(st, at)
    ensures Orderly(StepSnapshot(st, at, snap), at)
  {
    if snap.Usable() && snap.name in st.previous {
      var prior := st.previous[snap.name];
      var gap := GapIntervals(prior, at, snap);
      GapIsDistinct(prior, at, snap);
      NoOverlapAppend(st.out, gap, snap.name, prior.at);
      var next := StepSnapshot(st, at, snap);
      assert next.out == st.out + gap;
    }
  }

  lemma GapIsDistinct(prior: SamplePoint, at: Instant, after: Snapshot)
    ensures var gap := GapIntervals(prior, at, after);
            && Distinct(gap)
            && (forall q :: 0 <= q < |gap| ==>
                  gap[q] == AbciInterval(after.name, gap[q].abciMethod, prior.at, at) && prior.at < at)
            && forall p, q :: 0 <= p < q < |gap| ==> gap[p].abciMethod != gap[q].abciMethod
  {
    var deltas := MetricDeltas(prior.snapshot.metrics, after.metrics);
    Text.SortedStringsListSet(GrownMethods(deltas));
    IntervalsAreDistinct(after.name, MethodList(deltas), prior.at, at);
  }

  lemma IntervalsAreDistinct(name: string, methods: seq<string>, started: Instant, ended: Instant)
    requires Distinct(methods)
    ensures var gap := IntervalsFor(name, methods, started, ended);
            && Distinct(gap)
            && (forall q :: 0 <= q < |gap| ==> gap[q] == AbciInterval(name, gap[q].abciMethod, started, ended))
            && forall p, q :: 0 <= p < q < |gap| ==> gap[p].abciMethod != gap[q].abciMethod
  {
    var gap := IntervalsFor(name, methods, started, ended);
    assert forall q :: 0 <= q < |gap| ==> gap[q].abciMethod == methods[q];
  }

  lemma {:induction false} OrderlyScrape(st: SampleState, at: Instant, snaps: seq<Snapshot>)
    requires at != 0 && Orderly(st, at)
    ensures Orderly(StepSnapshots(st, at, snaps), at)
  {
    if snaps != [] {
      OrderlyScrape(st, at, snaps[..|snaps| - 1]);
      OrderlyStep(StepSnapshots(st, at, snaps[..|snaps| - 1]), at, snaps[|snaps| - 1]);
    }
  }

  lemma {:induction false} NeverOverlap(scrapes: seq<Scrape>) returns (now: Instant)
    requires TimeOrdered(scrapes)
    ensures NoOverlap(Run(scrapes).out)
    ensures Orderly(Run(scrapes), now)
    ensures now == 0 || exists k :: 0 <= k < |scrapes| && scrapes[k].at == now
  {
    now := 0;
    if scrapes != [] {
      var front, last := scrapes[..|scrapes| - 1], scrapes[|scrapes| - 1];
      now := NeverOverlap(front);
      if last.at != 0 {
        assert now <= last.at;
        OrderlyScrape(Run(front), last.at, last.snapshots);
        now := last.at;
        assert scrapes[|scrapes| - 1].at == now;
      } else if now != 0 {
        var k :| 0 <= k < |front| && front[k].at == now;
        assert scrapes[k].at == now;
      }
    }
  }

  // ----- soundness: what the intervals cover

  ghost predicate CoveredFor(out: seq<LoadInterval>, n: string, t: int) {
    exists p :: 0 <= p < |out| && out[p].name == n && out[p].Span().Has(t)
  }

  ghost predicate InGap(scrapes: seq<Scrape>, j: int, n: string, t: int) {
    && 0 <= j < |scrapes| && UsableAt(scrapes[j], n)
    && var i := Latest(scrapes[..j], n);
       i >= 0 && scrapes[i].at <= t < scrapes[j].at
  }

  lemma {:induction false} GapExists(scrapes: seq<Scrape>, n: string, t: int) returns (j: int)
    requires scrapes != [] && UsableAt(scrapes[0], n)
    requires scrapes[0].at <= t < scrapes[Latest(scrapes, n)].at
    ensures InGap(scrapes, j, n, t)
  {
    var front, z := scrapes[..|scrapes| - 1], |scrapes| - 1;
    if UsableAt(scrapes[z], n) && scrapes[Latest(front, n)].at <= t {
      j := z;
    } else {
      j := GapExists(front, n, t);
      assert front[..j] == scrapes[..j];
    }
  }

  lemma GapUnique(scrapes: seq<Scrape>, j: int, k: int, n: string, t: int)
    requires TimeOrdered(scrapes) && InGap(scrapes, j, n, t) && InGap(scrapes, k, n, t)
    ensures j == k
  {
  }

  lemma {:induction false} CoveredMeansRisen(scrapes: seq<Scrape>, j: int, n: string, t: int, iv: LoadInterval)
    requires TimeOrdered(scrapes) && InGap(scrapes, j, n, t)
    requires iv in Run(scrapes).out && iv.name == n && iv.Span().Has(t)
    ensures iv.abciMethod in RisenMethods(scrapes[Latest(scrapes[..j], n)], scrapes[j], n)
  {
    OnlyAbciIntervals(scrapes, iv);
    EmittedExactly(scrapes, n, iv.abciMethod, iv.started, iv.ended);
    var k :| Closes(scrapes, k, n, iv.abciMethod, iv.started) && iv.ended == scrapes[k].at;
    GapUnique(scrapes, j, k, n, t);
  }

  lemma {:induction false} RisenMeansCovered(scrapes: seq<Scrape>, j: int, n: string, t: int, m: string)
    requires InGap(scrapes, j, n, t)
    requires m in RisenMethods(scrapes[Latest(scrapes[..j], n)], scrapes[j], n)
    ensures CoveredFor(Run(scrapes).out, n, t)
  {
    var a, b := scrapes[Latest(scrapes[..j], n)].at, scrapes[j].at;
    EmittedExactly(scrapes, n, m, a, b);
    assert Closes(scrapes, j, n, m, a);
    var out := Run(scrapes).out;
    var p :| 0 <= p < |out| && out[p] == AbciInterval(n, m, a, b);
    assert out[p].Span().Has(t);
  }

  /** Some method rose across the gap that scrape j closes. */
  ghost predicate GapRises(scrapes: seq<Scrape>, j: int, n: string) {
    && 0 <= j < |scrapes| && UsableAt(scrapes[j], n)
    && var i := Latest(scrapes[..j], n);
       i >= 0 && RisenMethods(scrapes[i], scrapes[j], n) != {}
  }

  /** An instant is covered exactly when some method rose across the gap that holds it. */
  lemma {:induction false} CoverageOfInstant(scrapes: seq<Scrape>, j: int, n: string, t: int)
    requires TimeOrdered(scrapes) && InGap(scrapes, j, n, t)
    ensures CoveredFor(Run(scrapes).out, n, t) <==> GapRises(scrapes, j, n)
  {
    var out := Run(scrapes).out;
    var risen := RisenMethods(scrapes[Latest(scrapes[..j], n)], scrapes[j], n);
    if CoveredFor(out, n, t) {
      var p :| 0 <= p < |out| && out[p].name == n && out[p].Span().Has(t);
      CoveredMeansRisen(scrapes, j, n, t, out[p]);
    } else if m :| m in risen {
      RisenMeansCovered(scrapes, j, n, t, m);
    }
  }

  /** Every active instant between the first and the last scrape is covered. */
  ghost predicate CoversActive(scrapes: seq<Scrape>, n: string, active: set<int>)
    requires scrapes != []
  {
    forall t :: t in active && scrapes[0].at <= t < scrapes[|scrapes| - 1].at ==> CoveredFor(Run(scrapes).out, n, t)
  }

  /** Every gap that holds an active instant shows a rise. */
  ghost predicate RisesWhereActive(scrapes: seq<Scrape>, n: string, active: set<int>) {
    forall j, t :: t in active && InGap(scrapes, j, n, t) ==> GapRises(scrapes, j, n)
  }

  lemma GapOfInstant(scrapes: seq<Scrape>, n: string, t: int) returns (j: int)
    requires scrapes != [] && TimeOrdered(scrapes) && UsableAt(scrapes[0], n) && UsableAt(scrapes[|scrapes| - 1], n)
    requires scrapes[0].at <= t < scrapes[|scrapes| - 1].at
    ensures InGap(scrapes, j, n, t)
    ensures CoveredFor(Run(scrapes).out, n, t) <==> GapRises(scrapes, j, n)
  {
    j := GapExists(scrapes, n, t);
    CoverageOfInstant(scrapes, j, n, t);
  }

  lemma {:induction false} RisesMeansCovers(scrapes: seq<Scrape>, n: string, active: set<int>, t: int)
    requires scrapes != [] && TimeOrdered(scrapes) && UsableAt(scrapes[0], n) && UsableAt(scrapes[|scrapes| - 1], n)
    requires RisesWhereActive(scrapes, n, active) && t in active && scrapes[0].at <= t < scrapes[|scrapes| - 1].at
    ensures CoveredFor(Run(scrapes).out, n, t)
  {
    var j := GapOfInstant(scrapes, n, t);
    assert GapRises(scrapes, j, n);
  }

  lemma CoversMeansRises(scrapes: seq<Scrape>, n: string, active: set<int>, j: int, t: int)
    requires scrapes != [] && TimeOrdered(scrapes) && UsableAt(scrapes[0], n) && UsableAt(scrapes[|scrapes| - 1], n)
    requires CoversActive(scrapes, n, active) && t in active && InGap(scrapes, j, n, t)
    ensures GapRises(scrapes, j, n)
  {
    CoverageOfInstant(scrapes, j, n, t);
  }

  /** Soundness with its exact condition. Take a node that is usable at the first and at the
      last scrape of the run. Every instant of true activity between them is covered by an
      emitted interval if and only if some ABCI timing counter of the node rose across
      every gap between successive usable scrapes that holds activity. */
  lemma SamplerSoundness(scrapes: seq<Scrape>, n: string, active: set<int>)
    requires scrapes != [] && TimeOrdered(scrapes)
    requires UsableAt(scrapes[0], n) && UsableAt(scrapes[|scrapes| - 1], n)
    ensures CoversActive(scrapes, n, active) <==> RisesWhereActive(scrapes, n, active)
  {
    if RisesWhereActive(scrapes, n, active) {
      forall t | t in active && scrapes[0].at <= t < scrapes[|scrapes| - 1].at
        ensures CoveredFor(Run(scrapes).out, n, t)
      {
        RisesMeansCovers(scrapes, n, active, t);
      }
    }
    if CoversActive(scrapes, n, active) {
      forall j, t | t in active && InGap(scrapes, j, n, t)
        ensures GapRises(scrapes, j, n)
      {
        CoversMeansRises(scrapes, n, active, j, t);
      }
    }
  }

  lemma {:induction false} OnlySnapshot(n: string, m: Metrics)
    requires n != "" && |m| > 0
    ensures var s := Snapshot(n, "", m); LastUsable([s], n) == Some(s) && FirstUsable([s], n) == Some(s)
  {
    var s := Snapshot(n, "", m);
    assert [s][..0] == [];
  }

  /** A failing input: a counter at 5 is reset and reaches 1 again before the next scrape. The
      call it counted ran in the gap, and no interval shows it. */
  lemma ResetHidesActivity(n: string, k: Series)
    requires n != "" && IsAbciTimer(k)
    ensures var scrapes := [Scrape(1, [Snapshot(n, "", map[k := 5.0])]), Scrape(3, [Snapshot(n, "", map[k := 1.0])])];
            && TimeOrdered(scrapes) && UsableAt(scrapes[0], n) && UsableAt(scrapes[1], n)
            && InGap(scrapes, 1, n, 2) && !CoveredFor(Run(scrapes).out, n, 2)
  {
    var before, after := Snapshot(n, "", map[k := 5.0]), Snapshot(n, "", map[k := 1.0]);
    assert k in before.metrics && k in after.metrics;
    var scrapes := [Scrape(1, [before]), Scrape(3, [after])];
    OnlySnapshot(n, before.metrics);
    OnlySnapshot(n, after.metrics);
    assert scrapes[..1] == [scrapes[0]] && Latest(scrapes[..1], n) == 0;
    assert RisenMethods(scrapes[0], scrapes[1], n) == {};
    CoverageOfInstant(scrapes, 1, n, 2);
  }
}
