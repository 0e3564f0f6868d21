/** The scrape sampler: counters read at successive scrapes become wall-clock intervals
    during which an ABCI method must have been active. */
module Sampler {
  import opened Order
  import opened Intervals
  import Text

  /** A Prometheus series, already parsed: metric name, `method` label ("" when it has
      none) and the text of its other labels. */
  datatype Series = Series(metric: string, abciMethod: string, labels: string)

  type Metrics = map<Series, real>

  datatype Snapshot = Snapshot(name: string, error: string, metrics: Metrics)
  {
    predicate Usable() { name != "" && error == "" && |metrics| > 0 }
  }

  datatype Scrape = Scrape(at: Instant, snapshots: seq<Snapshot>)

  datatype LoadInterval = LoadInterval(name: string, kind: string, abciMethod: string, source: string,
                                       provenance: string, started: Instant, ended: Instant)
  {
    function Span(): Interval { Interval(started, ended) }
  }

  datatype SamplePoint = SamplePoint(at: Instant, snapshot: Snapshot)

  const TIMING_COUNT := "cometbft_abci_connection_method_timing_seconds_count"
  const TIMING_SUM := "cometbft_abci_connection_method_timing_seconds_sum"
  const TIMING_SOURCE := "cometbft_abci_connection_method_timing_seconds"

  function Value(m: Metrics, k: Series): real {
    if k in m then m[k] else 0.0
  }

  function MetricDeltas(before: Metrics, after: Metrics): Metrics {
    map k | k in after :: after[k] - Value(before, k)
  }

  predicate IsAbciTimer(k: Series) {
    k.abciMethod != "" && (k.metric == TIMING_COUNT || k.metric == TIMING_SUM)
  }

  predicate Grows(deltas: Metrics, k: Series) {
    k in deltas && IsAbciTimer(k) && deltas[k] > 0.0
  }

  /** The ABCI methods some timing counter of which went up, among the series `among`. */
  ghost function GrownAmong(deltas: Metrics, among: set<Series>): set<string> {
    set k | k in among && Grows(deltas, k) :: k.abciMethod
  }

  ghost function GrownMethods(deltas: Metrics): set<string> {
    GrownAmong(deltas, deltas.Keys)
  }

  ghost function MethodList(deltas: Metrics): seq<string> {
    Text.SortedStrings(GrownMethods(deltas))
  }

  lemma GrownAmongAdd(deltas: Metrics, among: set<Series>, k: Series)
    ensures GrownAmong(deltas, among + {k}) ==
            GrownAmong(deltas, among) + if Grows(deltas, k) then {k.abciMethod} else {}
  {
  }

  predicate IsActive(sums: (real, real)) {
    sums.0 >= 0.0 && sums.1 >= 0.0 && (sums.0 > 0.0 || sums.1 > 0.0)
  }

  /** The positive deltas of the ABCI timers, tallied by method in any order of the map. */
  method TallyActivity(deltas: Metrics) returns (activity: map<string, (real, real)>)
    ensures activity.Keys == GrownMethods(deltas)
    ensures forall m :: m in activity ==> activity[m].0 > 0.0 || activity[m].1 > 0.0
  {
    activity := map[];
    var left := deltas.Keys;
    while left != {}
      invariant left <= deltas.Keys
      invariant activity.Keys == GrownAmong(deltas, deltas.Keys - left)
      invariant forall m :: m in activity ==> IsActive(activity[m])
      decreases |left|
    {
      var key :| key in left;
      assert deltas.Keys - (left - {key}) == (deltas.Keys - left) + {key};
      GrownAmongAdd(deltas, deltas.Keys - left, key);
      left := left - {key};
      var delta := deltas[key];
      if delta <= 0.0 || key.abciMethod == "" {
        continue;
      }
      var sums := if key.abciMethod in activity then activity[key.abciMethod] else (0.0, 0.0);
      if key.metric == TIMING_COUNT {
        activity := activity[key.abciMethod := (sums.0 + delta, sums.1)];
      } else if key.metric == TIMING_SUM {
        activity := activity[key.abciMethod := (sums.0, sums.1 + delta)];
      }
    }
    assert deltas.Keys - left == deltas.Keys;
  }

  /** Both maps are walked in an arbitrary order; the result does not show it. */
  method AbciMethodsWithActivity(deltas: Metrics) returns (methods: seq<string>)
    ensures methods == MethodList(deltas)
  {
    var activity := TallyActivity(deltas);
    methods := [];
    var names := activity.Keys;
    while names != {}
      invariant names <= activity.Keys
      invariant Distinct(methods) && Elements(methods) == activity.Keys - names
      decreases |names|
    {
      var name :| name in names;
      names := names - {name};
      if activity[name].0 > 0.0 || activity[name].1 > 0.0 {
        ElementsAppend(methods, name);
        methods := methods + [name];
      }
    }
    assert Elements(methods) == GrownMethods(deltas);
    Text.CollectStrings(methods);
    methods := Text.SortStrings(methods);
  }

  // ----- one scrape as a state change

  datatype SampleState = SampleState(previous: map<string, SamplePoint>, out: seq<LoadInterval>)

  const UNSAMPLED := SampleState(map[], [])

  function AbciInterval(name: string, m: string, started: Instant, ended: Instant): LoadInterval {
    LoadInterval(name, "abci", m, TIMING_SOURCE, "bounded_sample", started, ended)
  }

  function IntervalsFor(name: string, methods: seq<string>, started: Instant, ended: Instant): seq<LoadInterval> {
    seq(|methods|, i requires 0 <= i < |methods| => AbciInterval(name, methods[i], started, ended))
  }

  /** What two successive usable snapshots of a node contribute. */
  ghost function GapIntervals(prior: SamplePoint, at: Instant, after: Snapshot): seq<LoadInterval> {
    if prior.at == 0 || at <= prior.at || !prior.snapshot.Usable() || !after.Usable() then []
    else
      IntervalsFor(after.name, MethodList(MetricDeltas(prior.snapshot.metrics, after.metrics)), prior.at, at)
  }

  ghost function StepSnapshot(st: SampleState, at: Instant, snap: Snapshot): SampleState {
    if !snap.Usable() then st
    else
      SampleState(
        st.previous[snap.name := SamplePoint(at, snap)],
        if snap.name in st.previous then st.out + GapIntervals(st.previous[snap.name], at, snap) else st.out)
  }

  ghost function StepSnapshots(st: SampleState, at: Instant, snaps: seq<Snapshot>): SampleState {
    if snaps == [] then st
    else StepSnapshot(StepSnapshots(st, at, snaps[..|snaps| - 1]), at, snaps[|snaps| - 1])
  }

  ghost function StepScrape(st: SampleState, scrape: Scrape): SampleState {
    if scrape.at == 0 then st else StepSnapshots(st, scrape.at, scrape.snapshots)
  }

  /** The state after a run of scrapes; the first one seeds the sampler. */
  ghost function Run(scrapes: seq<Scrape>): SampleState {
    if scrapes == [] then UNSAMPLED
    else StepScrape(Run(scrapes[..|scrapes| - 1]), scrapes[|scrapes| - 1])
  }

  class MetricSampler {
    var previous: map<string, SamplePoint>
    var out: seq<LoadInterval>

    ghost function State(): SampleState
      reads this
    {
      SampleState(previous, out)
    }

    /** Seeding from the baseline scrape emits nothing. */
    constructor (at: Instant, baseline: seq<Snapshot>)
      ensures State() == StepScrape(UNSAMPLED, Scrape(at, baseline))
    {
      var seeded: map<string, SamplePoint> := map[];
      if at != 0 {
        for i := 0 to |baseline|
          invariant SampleState(seeded, []) == StepSnapshots(UNSAMPLED, at, baseline[..i])
          invariant forall n :: n in seeded ==> seeded[n].at == at
        {
          assert baseline[..i + 1][..i] == baseline[..i];
          if baseline[i].Usable() {
            seeded := seeded[baseline[i].name := SamplePoint(at, baseline[i])];
          }
        }
        assert baseline[..|baseline|] == baseline;
      }
      previous := seeded;
      out := [];
    }

    method Observe(at: Instant, current: seq<Snapshot>)
      modifies this
      ensures State() == StepScrape(old(State()), Scrape(at, current))
    {
      if at == 0 || |current| == 0 {
        return;
      }
      for i := 0 to |current|
        invariant State() == StepSnapshots(old(State()), at, current[..i])
      {
        assert current[..i + 1][..i] == current[..i];
        var snap := current[i];
        if snap.Usable() {
          if snap.name in previous && at > previous[snap.name].at {
            AppendGap(previous[snap.name], at, snap);
          }
          previous := previous[snap.name := SamplePoint(at, snap)];
        }
      }
      assert current[..|current|] == current;
    }

    method AppendGap(prior: SamplePoint, at: Instant, after: Snapshot)
      modifies this`out
      ensures out == old(out) + GapIntervals(prior, at, after)
    {
      if prior.at == 0 || at == 0 || at <= prior.at || !prior.snapshot.Usable() || !after.Usable() {
        return;
      }
      var methods := AbciMethodsWithActivity(MetricDeltas(prior.snapshot.metrics, after.metrics));
      EmitEach(after.name, methods, prior.at, at);
    }

    method EmitEach(name: string, methods: seq<string>, started: Instant, ended: Instant)
      modifies this`out
      ensures out == old(out) + IntervalsFor(name, methods, started, ended)
    {
      ghost var gap := IntervalsFor(name, methods, started, ended);
      for i := 0 to |methods|
        invariant out == old(out) + gap[..i]
      {
        out := out + [AbciInterval(name, methods[i], started, ended)];
      }
    }
  }
}
