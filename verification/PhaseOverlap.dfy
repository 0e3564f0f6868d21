/** How the phases of a run overlap the load window. */
module PhaseOverlap {
  import opened Intervals

  datatype PhaseSpan = PhaseSpan(name: string, note: string, started: Instant, ended: Instant)
  {
    function Span(): Interval { Interval(started, ended) }
  }

  datatype Overlap = Overlap(name: string, note: string, started: Instant, ended: Instant,
                             phase: int, before: int, inWindow: int, after: int, classification: string)

  function Classify(before: int, inWindow: int, after: int): string {
    if inWindow == 0 && before > 0 && after == 0 then "before_window"
    else if inWindow == 0 && after > 0 && before == 0 then "after_window"
    else if before > 0 && after > 0 then "spans_window"
    else if before > 0 then "crosses_window_start"
    else if after > 0 then "crosses_window_end"
    else if inWindow > 0 then "inside_window"
    else "outside_window"
  }

  predicate Measurable(span: PhaseSpan) {
    span.started != 0 && span.ended != 0 && span.ended > span.started
  }

  function BeforePart(span: PhaseSpan, ws: Instant): int {
    if span.started < ws then
      var beforeEnd := MinTime(span.ended, ws);
      if beforeEnd > span.started then beforeEnd - span.started else 0
    else 0
  }

  function InPart(span: PhaseSpan, ws: Instant, we: Instant): int {
    var inStart := MaxTime(span.started, ws);
    var inEnd := MinTime(span.ended, we);
    if inEnd > inStart then inEnd - inStart else 0
  }

  function AfterPart(span: PhaseSpan, we: Instant): int {
    if span.ended > we then
      var afterStart := MaxTime(span.started, we);
      if span.ended > afterStart then span.ended - afterStart else 0
    else 0
  }

  function OverlapOf(span: PhaseSpan, ws: Instant, we: Instant): Overlap {
    var before, inWindow, after := BeforePart(span, ws), InPart(span, ws, we), AfterPart(span, we);
    Overlap(span.name, span.note, span.started, span.ended, span.ended - span.started,
            before, inWindow, after, Classify(before, inWindow, after))
  }

  ghost function Overlaps(spans: seq<PhaseSpan>, ws: Instant, we: Instant): seq<Overlap> {
    if spans == [] then []
    else
      var front := Overlaps(spans[..|spans| - 1], ws, we);
      var last := spans[|spans| - 1];
      if Measurable(last) then front + [OverlapOf(last, ws, we)] else front
  }

  method SummarizePhaseOverlaps(spans: seq<PhaseSpan>, ws: Instant, we: Instant) returns (out: seq<Overlap>)
    ensures out == if ws == 0 || we == 0 || we <= ws then [] else Overlaps(spans, ws, we)
  {
    out := [];
    if |spans| == 0 || ws == 0 || we == 0 || we <= ws {
      return;
    }
    for i := 0 to |spans|
      invariant out == Overlaps(spans[..i], ws, we)
    {
      assert spans[..i + 1][..i] == spans[..i];
      if Measurable(spans[i]) {
        out := out + [OverlapOf(spans[i], ws, we)];
      }
    }
    assert spans[..|spans|] == spans;
  }

  /** The rows are those of the spans with two recorded times in order, one for each, in the
      order of the spans. */
  lemma {:induction false} RowsOfSpans(spans: seq<PhaseSpan>, ws: Instant, we: Instant, i: nat)
    requires i < |spans|
    ensures |Overlaps(spans[..i], ws, we)| <= |Overlaps(spans, ws, we)|
    ensures 0 < spans[i].started < spans[i].ended ==>
              var k := |Overlaps(spans[..i], ws, we)|;
              k < |Overlaps(spans, ws, we)| && Overlaps(spans, ws, we)[k] == OverlapOf(spans[i], ws, we)
    ensures |Overlaps(spans[..i + 1], ws, we)| ==
            |Overlaps(spans[..i], ws, we)| + if 0 < spans[i].started < spans[i].ended then 1 else 0
  {
    var z := |spans| - 1;
    assert spans[..i + 1][..i] == spans[..i];
    if i < z {
      RowsOfSpans(spans[..z], ws, we, i);
      assert spans[..z][..i] == spans[..i] && spans[..z][..i + 1] == spans[..i + 1];
    } else {
      assert spans[..i + 1] == spans;
    }
  }

  /** Conservation: each part is the measure of the phase's instants on that side of the
      window, and the parts make up the phase. */
  lemma PartsAreMeasures(span: PhaseSpan, ws: Instant, we: Instant)
    requires 0 < span.started < span.ended && ws < we
    ensures var phase, row := Range(span.Span()), OverlapOf(span, ws, we);
            && row.before == |set t | t in phase && t < ws|
            && row.inWindow == |phase * Range(Interval(ws, we))|
            && row.after == |set t | t in phase && we <= t|
            && row.before + row.inWindow + row.after == row.phase == |phase|
            && (row.name, row.note, row.started, row.ended) == (span.name, span.note, span.started, span.ended)
  {
    var phase := Range(span.Span());
    var row := OverlapOf(span, ws, we);
    PartIsRange(span, span.started, MinTime(span.ended, ws), set t | t in phase && t < ws);
    PartIsRange(span, MaxTime(span.started, ws), MinTime(span.ended, we), phase * Range(Interval(ws, we)));
    PartIsRange(span, MaxTime(span.started, we), span.ended, set t | t in phase && we <= t);
    RangeSize(span.Span());
  }

  lemma PartIsRange(span: PhaseSpan, lo: Instant, hi: Instant, part: set<int>)
    requires forall t :: t in part <==> lo <= t < hi
    ensures |part| == if lo < hi then hi - lo else 0
  {
    var iv := Interval(lo, hi);
    assert forall t :: t in Range(iv) <==> iv.Has(t);
    assert part == Range(iv);
    RangeSize(iv);
  }

  /** The label says which parts are positive, and no phase is left without a place. */
  lemma ClassificationAgrees(span: PhaseSpan, ws: Instant, we: Instant)
    requires 0 < span.started < span.ended && ws < we
    ensures var row := OverlapOf(span, ws, we);
            && (row.classification == "before_window" <==> row.before == row.phase)
            && (row.classification == "after_window" <==> row.after == row.phase)
            && (row.classification == "inside_window" <==> row.inWindow == row.phase)
            && (row.classification == "spans_window" <==> row.before > 0 && row.after > 0)
            && (row.classification == "spans_window" ==> row.inWindow == we - ws)
            && (row.classification == "crosses_window_start" <==> row.before > 0 && row.inWindow > 0 && row.after == 0)
            && (row.classification == "crosses_window_end" <==> row.before == 0 && row.inWindow > 0 && row.after > 0)
            && row.classification != "outside_window"
  {
    var row := OverlapOf(span, ws, we);
    assert |"before_window"| == 13 && |"after_window"| == 12 && |"inside_window"| == 13 && |"spans_window"| == 12;
    assert |"crosses_window_start"| == 20 && |"crosses_window_end"| == 18 && |"outside_window"| == 14;
    assert "before_window"[0] == 'b' && "inside_window"[0] == 'i' && "after_window"[0] == 'a' && "spans_window"[0] == 's';
  }
}
