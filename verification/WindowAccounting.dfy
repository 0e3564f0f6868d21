/** The accounting row of one validator: how the load window splits into ABCI-busy and
    non-ABCI time, and how that split relates to true activity. */
module WindowAccounting {
  import opened Common
  import opened Order
  import opened Intervals
  import opened Sampler
  import opened SamplerTheorems
  import opened Accounting
  import Text

  datatype Classification = ExactIntervalUnion | BoundedSampleLowerBound | ApproximateSumBased

  datatype Row = Row(
    abciBusyUnion: Option<int>,
    abciIntervalCount: nat,
    abciIntervalProvenance: string,
    abciOverlap: Option<int>,
    nonAbciWall: Option<int>,
    unaccountedResidual: int,
    residualClassification: Classification,
    attribution: seq<Attribution>)

  ghost function AbciClips(ivs: seq<LoadInterval>, node: string, ws: Instant, we: Instant): seq<Interval> {
    if NoWindow(ws, we) then [] else Clips(ivs, node, ws, we, OfClass("abci"))
  }

  ghost function Busy(ivs: seq<LoadInterval>, node: string, ws: Instant, we: Instant): set<int> {
    Instants(AbciClips(ivs, node, ws, we))
  }

  ghost function Window(ws: Instant, we: Instant): set<int> {
    Range(Interval(ws, we))
  }

  lemma BusyInWindow(ivs: seq<LoadInterval>, node: string, ws: Instant, we: Instant)
    ensures Busy(ivs, node, ws, we) <= Window(ws, we)
    ensures |Window(ws, we) - Busy(ivs, node, ws, we)| == |Window(ws, we)| - |Busy(ivs, node, ws, we)|
    ensures |Window(ws, we)| == if ws < we then we - ws else 0
  {
    if NoWindow(ws, we) {
      assert Instants([]) == {};
    } else {
      ClipsInWindow(ivs, node, ws, we, OfClass("abci"));
    }
    RangeSize(Interval(ws, we));
    assert Window(ws, we) == (Window(ws, we) - Busy(ivs, node, ws, we)) + Busy(ivs, node, ws, we);
  }

  ghost function Provenance(ivs: seq<LoadInterval>, node: string, ws: Instant, we: Instant): string {
    if NoWindow(ws, we) then "" else Join(Text.SortedStrings(Origins(ivs, node, ws, we, OfClass("abci"))))
  }

  function MakeRow(busy: int, count: nat, provenance: string, seconds: int, observedSum: int,
                   attribution: seq<Attribution>): Row
  {
    if count > 0 then
      var origin := if provenance == "" then "wall_clock_intervals" else provenance;
      var nonAbci := NonNegative(seconds - busy);
      if origin == "exact_event" then
        Row(Some(busy), count, origin, Some(NonNegative(observedSum - busy)), Some(nonAbci), nonAbci,
            ExactIntervalUnion, attribution)
      else
        Row(Some(busy), count, origin, None, Some(nonAbci), nonAbci, BoundedSampleLowerBound, attribution)
    else
      Row(None, 0, "", None, None, NonNegative(seconds - observedSum), ApproximateSumBased, attribution)
  }

  /** One row, from the observation's intervals, its bounds and length, and the summed ABCI
      timers of the node. */
  method AccountNode(ivs: seq<LoadInterval>, node: string, ws: Instant, we: Instant, seconds: int, observedSum: int)
    returns (row: Row)
    ensures RowTells(row, ivs, node, ws, we, seconds, observedSum)
    ensures AttributionTable(row.attribution, ivs, node, ws, we)
  {
    var attribution := SummarizeAttributions(ivs, node, ws, we);
    var busy, count, provenance := AbciUnion(ivs, node, ws, we);
    row := MakeRow(busy, count, provenance, seconds, observedSum, attribution);
    RowsTell(row, ivs, node, ws, we, seconds, observedSum);
  }

  method AbciUnion(ivs: seq<LoadInterval>, node: string, ws: Instant, we: Instant)
    returns (busy: int, count: nat, provenance: string)
    ensures busy == |Busy(ivs, node, ws, we)| && count == |AbciClips(ivs, node, ws, we)|
    ensures provenance == Provenance(ivs, node, ws, we)
  {
    busy, count, provenance := ClassUnion(ivs, node, "abci", ws, we);
    assert Instants([]) == {};
  }

  /** When the published length is the distance of the bounds, a row with intervals splits the
      window exactly: the non-ABCI part is the measure of the uncovered instants, the two
      parts add up to the window, and the clamp at zero takes no effect. The attribution
      table accounts for the same intervals. */
  lemma ExactSplit(row: Row, ivs: seq<LoadInterval>, node: string, ws: Instant, we: Instant, seconds: int, observedSum: int)
    requires RowTells(row, ivs, node, ws, we, seconds, observedSum)
    requires !NoWindow(ws, we) && seconds == we - ws
    requires AttributionTable(row.attribution, ivs, node, ws, we)
    ensures row.abciBusyUnion.Some? <==> Busy(ivs, node, ws, we) != {}
    ensures row.nonAbciWall.Some? <==> row.abciBusyUnion.Some?
    ensures row.abciBusyUnion.Some? ==>
              && row.abciBusyUnion.value + row.nonAbciWall.value == seconds
              && row.nonAbciWall.value == |Window(ws, we) - Busy(ivs, node, ws, we)| == seconds - row.abciBusyUnion.value
              && row.unaccountedResidual == row.nonAbciWall.value
    ensures CountSum(row.attribution, "abci") == row.abciIntervalCount
    ensures row.abciBusyUnion.Some? ==>
              (forall r :: r in row.attribution && r.key.kind == "abci" ==> r.unionSeconds <= row.abciBusyUnion.value) &&
              row.abciBusyUnion.value <= UnionSum(row.attribution, "abci")
  {
    BusyInWindow(ivs, node, ws, we);
    AttributionConservation(row.attribution, ivs, node, ws, we, "abci");
    SomeInstant(AbciClips(ivs, node, ws, we));
  }

  /** v is the part of x that exceeds y, and nothing when there is none. */
  predicate IsExcess(v: int, x: int, y: int) {
    v >= 0 && (x >= y ==> v == x - y) && (x < y ==> v == 0)
  }

  /** What a row says about itself, in terms of the node's clipped intervals and their origins. */
  ghost predicate RowTells(row: Row, ivs: seq<LoadInterval>, node: string, ws: Instant, we: Instant, seconds: int, observedSum: int) {
    var clips, origin := AbciClips(ivs, node, ws, we), Provenance(ivs, node, ws, we);
    && row.abciIntervalCount == |clips|
    // the class: exact for event-exact intervals only, approximate without any
    && (row.residualClassification == ExactIntervalUnion <==> clips != [] && origin == "exact_event")
    && (row.residualClassification == ApproximateSumBased <==> clips == [])
    // the split, when there are intervals
    && (row.abciBusyUnion.Some? <==> clips != []) && (row.nonAbciWall.Some? <==> clips != [])
    && (clips != [] ==>
          && row.abciBusyUnion.value == |Instants(clips)|
          && IsExcess(row.nonAbciWall.value, seconds, |Instants(clips)|)
          && row.unaccountedResidual == row.nonAbciWall.value
          && row.abciIntervalProvenance == if origin == "" then "wall_clock_intervals" else origin)
    // the overlap with the summed timers means something for event-exact intervals only
    && (row.abciOverlap.Some? <==> row.residualClassification == ExactIntervalUnion)
    && (row.abciOverlap.Some? ==> IsExcess(row.abciOverlap.value, observedSum, |Instants(clips)|))
    // without intervals the residual falls back on the summed timers
    && (clips == [] ==> IsExcess(row.unaccountedResidual, seconds, observedSum) && row.abciIntervalProvenance == "")
  }

  /** The labels and figures of every row, read off the intervals. */
  lemma RowsTell(row: Row, ivs: seq<LoadInterval>, node: string, ws: Instant, we: Instant, seconds: int, observedSum: int)
    requires row == MakeRow(|Busy(ivs, node, ws, we)|, |AbciClips(ivs, node, ws, we)|,
                            Provenance(ivs, node, ws, we), seconds, observedSum, row.attribution)
    ensures RowTells(row, ivs, node, ws, we, seconds, observedSum)
  {
  }

  /** A row built from scrapes never claims to be exact: with intervals it is a bounded sample
      and has no overlap. */
  lemma {:induction false} SampledRows(row: Row, scrapes: seq<Scrape>, node: string, ws: Instant, we: Instant, seconds: int, observedSum: int)
    requires RowTells(row, Run(scrapes).out, node, ws, we, seconds, observedSum)
    ensures row.abciOverlap == None
    ensures row.residualClassification ==
            if AbciClips(Run(scrapes).out, node, ws, we) == [] then ApproximateSumBased else BoundedSampleLowerBound
    ensures row.abciBusyUnion.Some? ==> row.abciIntervalProvenance == "bounded_sample"
  {
    if AbciClips(Run(scrapes).out, node, ws, we) != [] {
      SampledProvenance(scrapes, node, ws, we);
      assert "bounded_sample"[0] == 'b' && "exact_event"[0] == 'e';
    }
  }

  lemma SomeInstant(clips: seq<Interval>)
    requires AllNonEmpty(clips)
    ensures Instants(clips) != {} <==> clips != []
  {
    if clips != [] {
      assert clips[0].Has(clips[0].started);
      assert clips[0].started in Instants(clips);
    }
  }

  // ----- sampler and accounting together

  lemma {:induction false} CoveredInstantIsBusy(ivs: seq<LoadInterval>, p: nat, n: string, ws: Instant, we: Instant, t: int)
    requires p < |ivs| && !NoWindow(ws, we) && ws <= t < we
    requires ivs[p].kind == "abci" && ivs[p].name == n && ivs[p].started != 0 && ivs[p].Span().Has(t)
    ensures t in Instants(Clips(ivs, n, ws, we, OfClass("abci")))
  {
    var front, last := ivs[..|ivs| - 1], ivs[|ivs| - 1];
    var earlier := Clips(front, n, ws, we, OfClass("abci"));
    var clip := ClipOf(last, n, ws, we);
    if clip.Some? {
      InstantsAppend(earlier, clip.value);
    }
    if p == |front| {
      ClipIsIntersection(last.Span(), ws, we);
      assert Interval(ws, we).Has(t) && clip.value.Has(t);
    } else {
      CoveredInstantIsBusy(front, p, n, ws, we, t);
    }
  }

  lemma {:induction false} BusyInstantIsCovered(ivs: seq<LoadInterval>, n: string, ws: Instant, we: Instant, t: int)
    requires n != "" && t in Instants(Clips(ivs, n, ws, we, OfClass("abci")))
    ensures CoveredFor(ivs, n, t)
  {
    if ivs != [] {
      var front, last := ivs[..|ivs| - 1], ivs[|ivs| - 1];
      var earlier := Clips(front, n, ws, we, OfClass("abci"));
      if t in Instants(earlier) {
        BusyInstantIsCovered(front, n, ws, we, t);
        var p :| 0 <= p < |front| && front[p].name == n && front[p].Span().Has(t);
        assert ivs[p].Span().Has(t);
      } else {
        var clip := ClipOf(last, n, ws, we);
        InstantsAppend(earlier, clip.value);
        ClipIsIntersection(last.Span(), ws, we);
        assert t in Range(last.Span());
        assert ivs[|ivs| - 1].Span().Has(t);
      }
    }
  }

  /** The window from the first to the last scrape, and the busy union of a node in it. */
  ghost function WindowOf(scrapes: seq<Scrape>): set<int>
    requires scrapes != []
  {
    Window(scrapes[0].at, scrapes[|scrapes| - 1].at)
  }

  ghost function BusyOf(scrapes: seq<Scrape>, n: string): set<int>
    requires scrapes != []
  {
    Busy(Run(scrapes).out, n, scrapes[0].at, scrapes[|scrapes| - 1].at)
  }

  /** Inside the window the busy union is what the sampled intervals of the node cover. */
  lemma {:induction false} BusyIsCovered(scrapes: seq<Scrape>, n: string, t: int)
    requires scrapes != [] && UsableAt(scrapes[0], n) && UsableAt(scrapes[|scrapes| - 1], n)
    ensures t in WindowOf(scrapes) <==> scrapes[0].at <= t < scrapes[|scrapes| - 1].at
    ensures t in WindowOf(scrapes) ==> (t in BusyOf(scrapes, n) <==> CoveredFor(Run(scrapes).out, n, t))
  {
    var ws, we := scrapes[0].at, scrapes[|scrapes| - 1].at;
    var out := Run(scrapes).out;
    FirstAndLastUsable(scrapes[0].snapshots, n);
    assert Interval(ws, we).Has(t) <==> ws <= t < we;
    if t in BusyOf(scrapes, n) && ws <= t < we {
      BusyInstantIsCovered(out, n, ws, we, t);
    }
    if CoveredFor(out, n, t) && ws <= t < we {
      var p :| 0 <= p < |out| && out[p].name == n && out[p].Span().Has(t);
      OnlyAbciIntervals(scrapes, out[p]);
      StartsAreReal(scrapes, out[p]);
      CoveredInstantIsBusy(out, p, n, ws, we, t);
    }
  }

  lemma CoversMeansBusy(scrapes: seq<Scrape>, n: string, active: set<int>)
    requires scrapes != [] && UsableAt(scrapes[0], n) && UsableAt(scrapes[|scrapes| - 1], n)
    ensures active * WindowOf(scrapes) <= BusyOf(scrapes, n) <==> CoversActive(scrapes, n, active)
  {
    forall t
      ensures t in WindowOf(scrapes) <==> scrapes[0].at <= t < scrapes[|scrapes| - 1].at
      ensures t in WindowOf(scrapes) ==> (t in BusyOf(scrapes, n) <==> CoveredFor(Run(scrapes).out, n, t))
    {
      BusyIsCovered(scrapes, n, t);
    }
  }

  /** The busy part is at least as long as the activity, and the rest at most as long as the
      idle time. */
  ghost predicate AtLeastBusy(active: set<int>, window: set<int>, busy: set<int>) {
    |active * window| <= |busy| && |window - busy| <= |window - active|
  }

  lemma BoundedSizes(active: set<int>, window: set<int>, busy: set<int>)
    ensures active * window <= busy ==> AtLeastBusy(active, window, busy)
  {
    if active * window <= busy {
      SubsetSize(active * window, busy);
      SubsetSize(window - busy, window - active);
    }
  }

  /** When the published union is the bound it is said to be: it contains the activity of the
      window exactly when every gap that holds some shows it in a counter. Then it is at
      least the busy time, and the reported non-ABCI time is at most the idle time. */
  lemma BusyIsUpperBound(scrapes: seq<Scrape>, n: string, active: set<int>)
    requires scrapes != [] && TimeOrdered(scrapes)
    requires UsableAt(scrapes[0], n) && UsableAt(scrapes[|scrapes| - 1], n)
    ensures active * WindowOf(scrapes) <= BusyOf(scrapes, n) <==> RisesWhereActive(scrapes, n, active)
    ensures RisesWhereActive(scrapes, n, active) ==> AtLeastBusy(active, WindowOf(scrapes), BusyOf(scrapes, n))
  {
    SamplerSoundness(scrapes, n, active);
    CoversMeansBusy(scrapes, n, active);
    BoundedSizes(active, WindowOf(scrapes), BusyOf(scrapes, n));
  }

  lemma {:induction false} StartsAreReal(scrapes: seq<Scrape>, iv: LoadInterval)
    requires iv in Run(scrapes).out
    ensures iv.started != 0
  {
    OnlyAbciIntervals(scrapes, iv);
    EmittedExactly(scrapes, iv.name, iv.abciMethod, iv.started, iv.ended);
  }

  /** Rows built from scrapes never claim to be event-exact. */
  lemma {:induction false} SampledProvenance(scrapes: seq<Scrape>, node: string, ws: Instant, we: Instant)
    requires AbciClips(Run(scrapes).out, node, ws, we) != []
    ensures Provenance(Run(scrapes).out, node, ws, we) == "bounded_sample"
  {
    var out := Run(scrapes).out;
    var origins := Origins(out, node, ws, we, OfClass("abci"));
    forall iv | iv in out
      ensures Origin(iv) == "bounded_sample"
    {
      OnlyAbciIntervals(scrapes, iv);
    }
    ClipHasOrigin(out, node, ws, we);
    assert origins == {"bounded_sample"};
    Text.SortedStringsListSet(origins);
    var list := Text.SortedStrings(origins);
    assert list[0] in Elements(list);
  }

  lemma {:induction false} ClipHasOrigin(ivs: seq<LoadInterval>, node: string, ws: Instant, we: Instant)
    requires Clips(ivs, node, ws, we, OfClass("abci")) != []
    ensures exists iv :: iv in ivs && iv.kind == "abci" && ClipOf(iv, node, ws, we).Some?
  {
    var front, last := ivs[..|ivs| - 1], ivs[|ivs| - 1];
    if ClipOf(last, node, ws, we).Some? && last.kind == "abci" {
    } else {
      ClipHasOrigin(front, node, ws, we);
    }
  }
}
