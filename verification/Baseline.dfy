/** The metric baseline of a load window, and how a window delta relates to the deltas
    between successive samples. */
module Baseline {
  import opened Common
  import opened Sampler
  import opened SamplerTheorems

  function UsableOnly(snaps: seq<Snapshot>): (r: seq<Snapshot>) {
    if snaps == [] then []
    else
      var front := UsableOnly(snaps[..|snaps| - 1]);
      if snaps[|snaps| - 1].Usable() then front + [snaps[|snaps| - 1]] else front
  }

  /** The entry a by-name index of the list holds: the last one wins. */
  function Lookup(snaps: seq<Snapshot>, n: string): Option<Snapshot> {
    if snaps == [] then None
    else if snaps[|snaps| - 1].name == n then Some(snaps[|snaps| - 1])
    else Lookup(snaps[..|snaps| - 1], n)
  }

  function AppendMissing(baseline: seq<Snapshot>, current: seq<Snapshot>): seq<Snapshot> {
    if current == [] then baseline
    else
      var b := AppendMissing(baseline, current[..|current| - 1]);
      var last := current[|current| - 1];
      if last.Usable() && Lookup(b, last.name).None? then b + [last] else b
  }

  method UsableMetricSnapshots(snaps: seq<Snapshot>) returns (out: seq<Snapshot>)
    ensures out == UsableOnly(snaps)
  {
    out := [];
    for i := 0 to |snaps|
      invariant out == UsableOnly(snaps[..i])
    {
      assert snaps[..i + 1][..i] == snaps[..i];
      if snaps[i].Usable() {
        out := out + [snaps[i]];
      }
    }
    assert snaps[..|snaps|] == snaps;
  }

  method AppendMissingUsableBaseline(baseline: seq<Snapshot>, current: seq<Snapshot>) returns (out: seq<Snapshot>)
    ensures out == AppendMissing(baseline, current)
  {
    out := baseline;
    var indexByName: map<string, nat> := map[];
    for i := 0 to |out|
      invariant forall n :: n in indexByName <==> n != "" && Lookup(out[..i], n).Some?
    {
      assert out[..i + 1][..i] == out[..i];
      if out[i].name != "" {
        indexByName := indexByName[out[i].name := i];
      }
    }
    assert out[..|out|] == out;
    for i := 0 to |current|
      invariant out == AppendMissing(baseline, current[..i])
      invariant forall n :: n in indexByName <==> n != "" && Lookup(out, n).Some?
    {
      assert current[..i + 1][..i] == current[..i];
      var snap := current[i];
      if snap.Usable() && snap.name !in indexByName {
        indexByName := indexByName[snap.name := |out|];
        assert (out + [snap])[..|out|] == out;
        out := out + [snap];
      }
    }
    assert current[..|current|] == current;
  }

  /** The baseline after a run of scrapes; the first scrape is the fresh baseline. */
  ghost function BaselineAfter(scrapes: seq<Scrape>): seq<Snapshot> {
    if scrapes == [] then []
    else if |scrapes| == 1 then UsableOnly(scrapes[0].snapshots)
    else AppendMissing(BaselineAfter(scrapes[..|scrapes| - 1]), scrapes[|scrapes| - 1].snapshots)
  }

  lemma {:induction false} LookupUsableOnly(snaps: seq<Snapshot>, n: string)
    ensures Lookup(UsableOnly(snaps), n) == LastUsable(snaps, n)
  {
    if snaps != [] {
      var front, last := snaps[..|snaps| - 1], snaps[|snaps| - 1];
      LookupUsableOnly(front, n);
      if last.Usable() {
        assert (UsableOnly(front) + [last])[..|UsableOnly(front)|] == UsableOnly(front);
      }
    }
  }

  lemma {:induction false} LookupAppendMissing(baseline: seq<Snapshot>, current: seq<Snapshot>, n: string)
    ensures Lookup(AppendMissing(baseline, current), n) ==
            if Lookup(baseline, n).Some? then Lookup(baseline, n) else FirstUsable(current, n)
  {
    if current != [] {
      var front, last := current[..|current| - 1], current[|current| - 1];
      LookupAppendMissing(baseline, front, n);
      var b := AppendMissing(baseline, front);
      assert (b + [last])[..|b|] == b;
    }
  }

  ghost predicate Sees(scrape: Scrape, n: string) {
    LastUsable(scrape.snapshots, n).Some?
  }

  ghost predicate UniqueUsable(scrapes: seq<Scrape>, n: string) {
    forall k :: 0 <= k < |scrapes| ==> FirstUsable(scrapes[k].snapshots, n) == LastUsable(scrapes[k].snapshots, n)
  }

  /** Scrape k is the first that has a usable snapshot of n. */
  ghost predicate FirstSight(scrapes: seq<Scrape>, n: string, k: int) {
    && 0 <= k < |scrapes| && Sees(scrapes[k], n)
    && forall i :: 0 <= i < k ==> !Sees(scrapes[i], n)
  }

  /** The baseline entry of a node is its first usable snapshot, whatever came later. */
  lemma {:induction false} BaselineIsFirstUsable(scrapes: seq<Scrape>, n: string)
    ensures forall k :: FirstSight(scrapes, n, k) ==>
              Lookup(BaselineAfter(scrapes), n) ==
              if k == 0 then LastUsable(scrapes[0].snapshots, n) else FirstUsable(scrapes[k].snapshots, n)
    ensures (forall k :: 0 <= k < |scrapes| ==> !Sees(scrapes[k], n)) ==> Lookup(BaselineAfter(scrapes), n) == None
  {
    if |scrapes| == 1 {
      LookupUsableOnly(scrapes[0].snapshots, n);
    } else if scrapes != [] {
      var front, last := scrapes[..|scrapes| - 1], scrapes[|scrapes| - 1];
      BaselineIsFirstUsable(front, n);
      LookupAppendMissing(BaselineAfter(front), last.snapshots, n);
      FirstAndLastUsable(last.snapshots, n);
      forall k | FirstSight(scrapes, n, k)
        ensures Lookup(BaselineAfter(scrapes), n) ==
                if k == 0 then LastUsable(scrapes[0].snapshots, n) else FirstUsable(scrapes[k].snapshots, n)
      {
        FirstAndLastUsable(scrapes[k].snapshots, n);
        if k < |front| {
          assert FirstSight(front, n, k);
          FirstAndLastUsable(front[0].snapshots, n);
        }
      }
    }
  }

  // ----- telescoping

  /** The usable snapshots of a node along a run. */
  ghost function Samples(scrapes: seq<Scrape>, n: string): seq<Metrics> {
    if scrapes == [] then []
    else
      var front, last := Samples(scrapes[..|scrapes| - 1], n), LastUsable(scrapes[|scrapes| - 1].snapshots, n);
      if last.Some? then front + [last.value.metrics] else front
  }

  /** The sum of the deltas between successive samples. */
  ghost function DeltaSum(samples: seq<Metrics>, k: Series): real {
    if |samples| < 2 then 0.0
    else
      var z := |samples| - 1;
      DeltaSum(samples[..z], k) + Value(MetricDeltas(samples[z - 1], samples[z]), k)
  }

  /** The values that vanish because the next sample does not carry the series. */
  ghost function Lost(samples: seq<Metrics>, k: Series): real {
    if |samples| < 2 then 0.0
    else
      var z := |samples| - 1;
      Lost(samples[..z], k) + if k in samples[z] then 0.0 else Value(samples[z - 1], k)
  }

  lemma {:induction false} DeltaSumFormula(samples: seq<Metrics>, k: Series)
    requires samples != []
    ensures DeltaSum(samples, k) == Value(samples[|samples| - 1], k) - Value(samples[0], k) + Lost(samples, k)
  {
    if |samples| > 1 {
      DeltaSumFormula(samples[..|samples| - 1], k);
    }
  }

  ghost predicate StaysOnceSeen(samples: seq<Metrics>, k: Series) {
    forall i :: 0 <= i < |samples| - 1 && k in samples[i] ==> k in samples[i + 1]
  }

  ghost predicate DropsAValue(samples: seq<Metrics>, k: Series, i: int) {
    0 <= i < |samples| - 1 && k !in samples[i + 1] && Value(samples[i], k) != 0.0
  }

  lemma {:induction false} LostIsDropped(samples: seq<Metrics>, k: Series)
    requires forall i :: 0 <= i < |samples| ==> Value(samples[i], k) >= 0.0
    ensures Lost(samples, k) >= 0.0
    ensures Lost(samples, k) == 0.0 <==> forall i :: !DropsAValue(samples, k, i)
  {
    if |samples| > 1 {
      var z := |samples| - 1;
      var front := samples[..z];
      LostIsDropped(front, k);
      assert forall i :: DropsAValue(front, k, i) ==> DropsAValue(samples, k, i);
      assert forall i :: DropsAValue(samples, k, i) && i != z - 1 ==> DropsAValue(front, k, i);
      assert DropsAValue(samples, k, z - 1) <==> k !in samples[z] && Value(samples[z - 1], k) != 0.0;
    }
  }

  /** What the report gives for the window: last sample against baseline. */
  ghost function WindowDelta(scrapes: seq<Scrape>, n: string, k: Series): real
    requires Samples(scrapes, n) != [] && Lookup(BaselineAfter(scrapes), n).Some?
  {
    var samples := Samples(scrapes, n);
    Value(MetricDeltas(Lookup(BaselineAfter(scrapes), n).value.metrics, samples[|samples| - 1]), k)
  }

  /** What has to vanish along the way for the sums to agree: nothing when the last sample has
      the series, and as much as the first value when it has not. */
  ghost function MustVanish(samples: seq<Metrics>, k: Series): real
    requires samples != []
  {
    if k in samples[|samples| - 1] then 0.0 else Value(samples[0], k)
  }

  /** Telescoping with its exact condition, for every run and every series. The window delta
      is taken against the baseline, which is the node's first sample. It equals the sum of
      the successive sample deltas exactly when the values that vanish with their series add
      up to what has to vanish. */
  lemma {:induction false} Telescoping(scrapes: seq<Scrape>, n: string, k: Series)
    requires UniqueUsable(scrapes, n) && Samples(scrapes, n) != []
    ensures Lookup(BaselineAfter(scrapes), n).Some?
    ensures var samples := Samples(scrapes, n);
            WindowDelta(scrapes, n, k) == DeltaSum(samples, k) <==> Lost(samples, k) == MustVanish(samples, k)
  {
    FirstSampleIsBaseline(scrapes, n);
    DeltaSumFormula(Samples(scrapes, n), k);
  }

  /** Two cases of it: a series that stays once seen always telescopes, and a non-negative one
      that the last sample has telescopes exactly when it never disappears at a non-zero
      value. */
  lemma {:induction false} TelescopingCases(scrapes: seq<Scrape>, n: string, k: Series)
    requires UniqueUsable(scrapes, n) && Samples(scrapes, n) != []
    ensures Lookup(BaselineAfter(scrapes), n).Some?
    ensures var samples := Samples(scrapes, n);
            var agree := WindowDelta(scrapes, n, k) == DeltaSum(samples, k);
            && (StaysOnceSeen(samples, k) ==> agree)
            && (k in samples[|samples| - 1] && (forall i :: 0 <= i < |samples| ==> Value(samples[i], k) >= 0.0) ==>
                  (agree <==> forall i :: !DropsAValue(samples, k, i)))
  {
    var samples := Samples(scrapes, n);
    Telescoping(scrapes, n, k);
    if forall i :: 0 <= i < |samples| ==> Value(samples[i], k) >= 0.0 {
      LostIsDropped(samples, k);
    }
    if StaysOnceSeen(samples, k) {
      NothingLost(samples, k);
    }
  }

  /** A series that stays once seen loses no value, and the last sample has it if any has. */
  lemma {:induction false} NothingLost(samples: seq<Metrics>, k: Series)
    requires samples != [] && StaysOnceSeen(samples, k)
    ensures Lost(samples, k) == 0.0
    ensures k in samples[0] ==> k in samples[|samples| - 1]
  {
    if |samples| > 1 {
      NothingLost(samples[..|samples| - 1], k);
    }
  }

  /** Failing inputs: a counter that is away for one sample only. With 5, nothing and 3 the
      window delta is -2 while the sample deltas add up to 3. */
  lemma {:induction false} DroppedSeriesBreaksTelescoping(n: string, k: Series, before: Metrics, gone: Metrics, after: Metrics)
    requires n != "" && k in before && before[k] > 0.0 && k !in gone && |gone| > 0 && k in after && after[k] >= 0.0
    ensures var scrapes := ThreeScrapes(n, before, gone, after);
            && Lookup(BaselineAfter(scrapes), n).Some? && Samples(scrapes, n) == [before, gone, after]
            && WindowDelta(scrapes, n, k) != DeltaSum([before, gone, after], k)
  {
    var scrapes := ThreeScrapes(n, before, gone, after);
    assert scrapes[..2][..1] == scrapes[..1] && scrapes[..1][..0] == [];
    assert |before| > 0 && |after| > 0;
    OnlySnapshot(n, before);
    OnlySnapshot(n, gone);
    OnlySnapshot(n, after);
    assert Samples(scrapes[..1], n) == [before];
    assert Samples(scrapes[..2], n) == [before, gone];
    assert Samples(scrapes, n) == [before, gone, after];
    assert DropsAValue([before, gone, after], k, 0);
    TelescopingCases(scrapes, n, k);
  }

  ghost function ThreeScrapes(n: string, a: Metrics, b: Metrics, c: Metrics): (r: seq<Scrape>) {
    [Scrape(1, [Snapshot(n, "", a)]), Scrape(2, [Snapshot(n, "", b)]), Scrape(3, [Snapshot(n, "", c)])]
  }

  lemma {:induction false} FirstSampleIsBaseline(scrapes: seq<Scrape>, n: string)
    requires UniqueUsable(scrapes, n)
    ensures var samples := Samples(scrapes, n);
            var entry := Lookup(BaselineAfter(scrapes), n);
            (samples != [] <==> entry.Some?) && (samples != [] ==> entry.value.metrics == samples[0])
  {
    if |scrapes| == 1 {
      LookupUsableOnly(scrapes[0].snapshots, n);
    } else if scrapes != [] {
      var front, last := scrapes[..|scrapes| - 1], scrapes[|scrapes| - 1];
      FirstSampleIsBaseline(front, n);
      LookupAppendMissing(BaselineAfter(front), last.snapshots, n);
      assert scrapes[|scrapes| - 1] == last;
    }
  }
}
