/** The one-pass timing builder over Catalyst task logs, started from parsed lines. */
module CatalystLog {
  import opened Common

  datatype Event =
    | SendStart(block: int, expected: int)
    | SendComplete(block: int, sent: int)
    | BlockEvent(height: int)
    | Processing(height: int, chainAt: Option<int>)
    | Processed(height: int)
    | Other

  datatype Line = Blank | Untimed | Timed(at: int, event: Event)

  /** The three tables of the builder: what opens an entry and what closes it. */
  datatype Table = Sends | Blocks | Announcements

  /** The block an entry of the table is opened for by this line; 0 for none. */
  function OpenKey(t: Table, line: Line): int {
    if !line.Timed? then 0 else
    match (t, line.event)
    case (Sends, SendStart(b, _)) => b
    case (Blocks, Processing(h, _)) => h
    case (Announcements, BlockEvent(h)) => h
    case _ => 0
  }

  function CloseKey(t: Table, line: Line): int {
    if !line.Timed? then 0 else
    match (t, line.event)
    case (Sends, SendComplete(b, _)) => b
    case (Blocks, Processed(h)) => h
    case (Announcements, Processed(h)) => h
    case _ => 0
  }

  /** A close removes an entry opened no later; an announcement is removed in any case. */
  predicate Removes(t: Table, close: Line, openedAt: int)
    requires close.Timed?
  {
    t == Announcements || openedAt <= close.at
  }

  // ----- the matching, declared over the whole log

  /** Line i holds the open entry of block b: nothing after it reopened or removed it. */
  ghost predicate Open(t: Table, log: seq<Line>, i: int, b: int) {
    && 0 <= i < |log| && b != 0 && OpenKey(t, log[i]) == b
    && forall k :: i < k < |log| ==>
         OpenKey(t, log[k]) != b && !(CloseKey(t, log[k]) == b && Removes(t, log[k], log[i].at))
  }

  /** Line j is the first close of i's block that is not earlier in time than i, and the
      block was not opened again in between. */
  ghost predicate Paired(t: Table, log: seq<Line>, i: int, j: int) {
    && 0 <= i < j < |log| && OpenKey(t, log[i]) != 0
    && CloseKey(t, log[j]) == OpenKey(t, log[i]) && Removes(t, log[j], log[i].at)
    && forall k :: i < k < j ==>
         OpenKey(t, log[k]) != OpenKey(t, log[i]) &&
         !(CloseKey(t, log[k]) == OpenKey(t, log[i]) && Removes(t, log[k], log[i].at))
  }

  // ----- the same, line by line

  /** The line closes the entry that the table m over the lines front holds for its block. */
  ghost predicate Hits(t: Table, m: map<int, int>, front: seq<Line>, line: Line) {
    var c := CloseKey(t, line);
    c in m && 0 <= m[c] < |front| && front[m[c]].Timed? && line.Timed? && Removes(t, line, front[m[c]].at)
  }

  ghost function Update(t: Table, m: map<int, int>, front: seq<Line>, line: Line): map<int, int> {
    if OpenKey(t, line) != 0 then m[OpenKey(t, line) := |front|]
    else if Hits(t, m, front, line) then m - {CloseKey(t, line)}
    else m
  }

  /** The open entries: block to the line that opened it. */
  ghost function OpenMap(t: Table, log: seq<Line>): map<int, int> {
    if log == [] then map[]
    else Update(t, OpenMap(t, log[..|log| - 1]), log[..|log| - 1], log[|log| - 1])
  }

  lemma {:induction false} OpenMapExact(t: Table, log: seq<Line>)
    ensures forall b, i :: Open(t, log, i, b) <==> b in OpenMap(t, log) && OpenMap(t, log)[b] == i
  {
    if log != [] {
      var z := |log| - 1;
      var front, line := log[..z], log[z];
      OpenMapExact(t, front);
      forall b, i
        ensures Open(t, log, i, b) <==> b in OpenMap(t, log) && OpenMap(t, log)[b] == i
      {
        var m := OpenMap(t, front);
        assert Open(t, front, i, b) <==> b in m && m[b] == i;
        if 0 <= i < z {
          assert Open(t, log, i, b) <==>
                 Open(t, front, i, b) && OpenKey(t, line) != b &&
                 !(CloseKey(t, line) == b && Removes(t, line, front[i].at));
        } else {
          assert Open(t, log, i, b) <==> i == z && b != 0 && OpenKey(t, line) == b;
        }
      }
    }
  }

  /** The matched pairs, in the order of their closes. */
  ghost function Matched(t: Table, log: seq<Line>): seq<(int, int)> {
    if log == [] then []
    else
      var z := |log| - 1;
      var front, line := log[..z], log[z];
      if Hits(t, OpenMap(t, front), front, line) then Matched(t, front) + [(OpenMap(t, front)[CloseKey(t, line)], z)]
      else Matched(t, front)
  }

  /** Refinement: the pass finds exactly the declared pairs, ordered by their closes. */
  lemma {:induction false} MatchedExactly(t: Table, log: seq<Line>)
    ensures forall i, j :: (i, j) in Matched(t, log) <==> Paired(t, log, i, j)
    ensures forall p, q :: 0 <= p < q < |Matched(t, log)| ==> Matched(t, log)[p].1 < Matched(t, log)[q].1
  {
    if log != [] {
      var z := |log| - 1;
      var front := log[..z];
      MatchedExactly(t, front);
      OpenMapExact(t, front);
      forall i, j | j < z
        ensures Paired(t, log, i, j) <==> Paired(t, front, i, j)
      {
      }
      forall i
        ensures Paired(t, log, i, z) <==> Hits(t, OpenMap(t, front), front, log[z]) && OpenMap(t, front)[CloseKey(t, log[z])] == i
      {
        assert Paired(t, log, i, z) <==>
               Open(t, front, i, CloseKey(t, log[z])) && CloseKey(t, log[z]) != 0 && Removes(t, log[z], front[i].at);
      }
      forall p | 0 <= p < |Matched(t, front)|
        ensures Matched(t, front)[p].1 < z
      {
        var pair := Matched(t, front)[p];
        assert (pair.0, pair.1) in Matched(t, front);
        assert Paired(t, front, pair.0, pair.1);
      }
    }
  }

  /** What a matched pair of send lines is: a completion and the latest start of the same block
      before it, not later in time, that no other completion has taken. */
  lemma SendPairMeans(log: seq<Line>, i: int, j: int)
    ensures Paired(Sends, log, i, j) <==>
            && 0 <= i < j < |log| && log[i].Timed? && log[i].event.SendStart? && log[i].event.block != 0
            && log[j].Timed? && log[j].event.SendComplete? && log[j].event.block == log[i].event.block
            && log[i].at <= log[j].at
            && forall k :: i < k < j && log[k].Timed? ==>
                 && !(log[k].event.SendStart? && log[k].event.block == log[i].event.block)
                 && !(log[k].event.SendComplete? && log[k].event.block == log[i].event.block && log[i].at <= log[k].at)
  {
  }

  lemma BlockPairMeans(log: seq<Line>, i: int, j: int)
    ensures Paired(Blocks, log, i, j) <==>
            && 0 <= i < j < |log| && log[i].Timed? && log[i].event.Processing? && log[i].event.height != 0
            && log[j].Timed? && log[j].event.Processed? && log[j].event.height == log[i].event.height
            && log[i].at <= log[j].at
            && forall k :: i < k < j && log[k].Timed? ==>
                 && !(log[k].event.Processing? && log[k].event.height == log[i].event.height)
                 && !(log[k].event.Processed? && log[k].event.height == log[i].event.height && log[i].at <= log[k].at)
  {
  }

  /** An announcement is open until its height is announced again or processed, at any time. */
  lemma OpenAnnouncementMeans(log: seq<Line>, i: int, h: int)
    ensures Open(Announcements, log, i, h) <==>
            && 0 <= i < |log| && h != 0 && log[i].Timed? && log[i].event == BlockEvent(h)
            && forall k :: i < k < |log| && log[k].Timed? ==> log[k].event != BlockEvent(h) && log[k].event != Processed(h)
  {
  }

  /** A start is matched at most once and a completion at most once. */
  lemma PairedOneToOne(t: Table, log: seq<Line>, i: int, j: int, i': int, j': int)
    requires Paired(t, log, i, j) && Paired(t, log, i', j')
    ensures i == i' <==> j == j'
  {
  }

  /** Line k opens the block of line i again while i still holds the open entry. */
  ghost predicate Reopens(t: Table, log: seq<Line>, i: int, k: int) {
    && 0 <= i < k < |log|
    && OpenKey(t, log[k]) == OpenKey(t, log[i]) && Open(t, log[..k], i, OpenKey(t, log[i]))
  }

  ghost predicate IsPaired(t: Table, log: seq<Line>, i: int) { exists j :: Paired(t, log, i, j) }

  ghost predicate IsReopened(t: Table, log: seq<Line>, i: int) { exists k :: Reopens(t, log, i, k) }

  /** The fate of a start: every line that opens a block is still open, or paired, or was
      reopened while open, and only one of the three. */
  lemma {:induction false} StartFate(t: Table, log: seq<Line>, i: int)
    requires 0 <= i < |log| && OpenKey(t, log[i]) != 0
    ensures Open(t, log, i, OpenKey(t, log[i])) || IsPaired(t, log, i) || IsReopened(t, log, i)
    ensures !(Open(t, log, i, OpenKey(t, log[i])) && IsPaired(t, log, i))
    ensures !(Open(t, log, i, OpenKey(t, log[i])) && IsReopened(t, log, i))
    ensures !(IsPaired(t, log, i) && IsReopened(t, log, i))
  {
    var b := OpenKey(t, log[i]);
    forall j, k | Paired(t, log, i, j) && i < k < |log|
      ensures !Reopens(t, log, i, k)
    {
      PairedNotReopened(t, log, i, j, k);
    }
    if !Open(t, log, i, b) {
      var k := FirstEnd(t, log, i);
      forall m | i < m < k
        ensures OpenKey(t, log[m]) != b && !(CloseKey(t, log[m]) == b && Removes(t, log[m], log[i].at))
      {
        assert !Ends(t, log, i, m);
      }
      if OpenKey(t, log[k]) == b {
        assert forall m :: 0 <= m < k ==> log[..k][m] == log[m];
        assert Reopens(t, log, i, k);
      } else {
        assert Paired(t, log, i, k);
      }
    }
  }

  lemma PairedNotReopened(t: Table, log: seq<Line>, i: int, j: int, k: int)
    requires Paired(t, log, i, j) && i < k < |log|
    ensures !Reopens(t, log, i, k)
  {
    var before := log[..k];
    assert forall m :: 0 <= m < k ==> before[m] == log[m];
    if j < k {
      assert before[j] == log[j];
    }
  }

  ghost predicate Ends(t: Table, log: seq<Line>, i: int, k: int)
    requires 0 <= i < |log| && 0 <= k < |log|
  {
    OpenKey(t, log[k]) == OpenKey(t, log[i]) ||
    (CloseKey(t, log[k]) == OpenKey(t, log[i]) && log[k].Timed? && log[i].Timed? && Removes(t, log[k], log[i].at))
  }

  lemma {:induction false} FirstEnd(t: Table, log: seq<Line>, i: int) returns (k: int)
    requires 0 <= i < |log| && OpenKey(t, log[i]) != 0 && !Open(t, log, i, OpenKey(t, log[i]))
    ensures i < k < |log| && Ends(t, log, i, k) && forall m :: i < m < k ==> !Ends(t, log, i, m)
  {
    var z := |log| - 1;
    var front := log[..z];
    if i < z && !Open(t, front, i, OpenKey(t, log[i])) {
      k := FirstEnd(t, front, i);
      assert forall m :: i < m <= k ==> (Ends(t, log, i, m) <==> Ends(t, front, i, m));
    } else {
      k := z;
      assert forall m :: i < m < z ==> front[m] == log[m];
    }
  }

  // ----- counting

  ghost function Sum(log: seq<Line>, f: Line -> int): int {
    if log == [] then 0 else Sum(log[..|log| - 1], f) + f(log[|log| - 1])
  }

  function OpensOne(t: Table): Line -> int { line => if OpenKey(t, line) != 0 then 1 else 0 }
  function ClosesOne(t: Table): Line -> int { line => if CloseKey(t, line) != 0 then 1 else 0 }

  /** Opens that replace an entry still open. */
  ghost function Superseded(t: Table, log: seq<Line>): nat {
    if log == [] then 0
    else
      var front, line := log[..|log| - 1], log[|log| - 1];
      Superseded(t, front) + if OpenKey(t, line) in OpenMap(t, front) then 1 else 0
  }

  ghost function Unmatched(t: Table, log: seq<Line>): nat {
    if log == [] then 0
    else
      var front, line := log[..|log| - 1], log[|log| - 1];
      Unmatched(t, front) + if CloseKey(t, line) != 0 && !Hits(t, OpenMap(t, front), front, line) then 1 else 0
  }

  /** Conservation: every start is open, matched or superseded, and every completion is
      matched or unmatched. */
  lemma {:induction false} CountsConserved(t: Table, log: seq<Line>)
    ensures Sum(log, OpensOne(t)) == |OpenMap(t, log)| + |Matched(t, log)| + Superseded(t, log)
    ensures Sum(log, ClosesOne(t)) == |Matched(t, log)| + Unmatched(t, log)
  {
    if log != [] {
      var front, line := log[..|log| - 1], log[|log| - 1];
      CountsConserved(t, front);
      OpenMapExact(t, front);
      assert 0 in OpenMap(t, front) ==> Open(t, front, OpenMap(t, front)[0], 0);
      UpdateSize(t, OpenMap(t, front), front, line);
    }
  }

  /** No start is lost to the count exactly when no line reopens a block that is open. */
  lemma {:induction false} SupersededIsReopened(t: Table, log: seq<Line>)
    ensures Superseded(t, log) == 0 <==> forall i, k :: !Reopens(t, log, i, k)
  {
    if log != [] {
      var z := |log| - 1;
      var front, line := log[..z], log[z];
      SupersededIsReopened(t, front);
      OpenMapExact(t, front);
      forall i, k | k < z
        ensures Reopens(t, log, i, k) <==> Reopens(t, front, i, k)
      {
        assert k > 0 ==> front[..k] == log[..k];
      }
      if OpenKey(t, line) in OpenMap(t, front) {
        var i := OpenMap(t, front)[OpenKey(t, line)];
        assert Open(t, front, i, OpenKey(t, line));
        assert Reopens(t, log, i, z);
      }
      forall i | Reopens(t, log, i, z)
        ensures OpenKey(t, line) in OpenMap(t, front)
      {
        assert Open(t, front, i, OpenKey(t, line));
      }
    }
  }

  lemma UpdateSize(t: Table, m: map<int, int>, front: seq<Line>, line: Line)
    requires 0 !in m
    ensures |Update(t, m, front, line)| ==
            |m| + (if OpenKey(t, line) != 0 && OpenKey(t, line) !in m then 1 else 0) - (if Hits(t, m, front, line) then 1 else 0)
  {
    var k, c := OpenKey(t, line), CloseKey(t, line);
    assert m[k := |front|].Keys == m.Keys + {k};
    assert |m[k := |front|]| == |m[k := |front|].Keys|;
    assert (m - {c}).Keys == m.Keys - {c};
    assert |m - {c}| == |(m - {c}).Keys| && |m| == |m.Keys|;
  }

  // ----- what the summary reports

  /** The time from open to close of every matched pair, in the order of the closes. */
  ghost function Durations(t: Table, log: seq<Line>): seq<int> {
    if log == [] then []
    else
      var front, line := log[..|log| - 1], log[|log| - 1];
      Durations(t, front) + Lag(t, OpenMap(t, front), front, line)
  }

  ghost function Lag(t: Table, m: map<int, int>, front: seq<Line>, line: Line): seq<int> {
    if Hits(t, m, front, line) then [line.at - front[m[CloseKey(t, line)]].at] else []
  }

  /** Entry p of the durations is the time between the lines of matched pair p. */
  lemma {:induction false} DurationsOfPairs(t: Table, log: seq<Line>)
    ensures |Durations(t, log)| == |Matched(t, log)|
    ensures forall p :: 0 <= p < |Matched(t, log)| ==>
              var (i, j) := Matched(t, log)[p];
              0 <= i < j < |log| && log[i].Timed? && log[j].Timed? && Durations(t, log)[p] == log[j].at - log[i].at
  {
    if log != [] {
      DurationsOfPairs(t, log[..|log| - 1]);
    }
  }

  lemma {:induction false} NoNegativeDuration(t: Table, log: seq<Line>)
    requires t != Announcements
    ensures forall p :: 0 <= p < |Durations(t, log)| ==> Durations(t, log)[p] >= 0
  {
    if log != [] {
      NoNegativeDuration(t, log[..|log| - 1]);
    }
  }

  lemma {:induction false} OpenMapStep(t: Table, log: seq<Line>, line: Line)
    ensures OpenMap(t, log + [line]) == Update(t, OpenMap(t, log), log, line)
  {
    assert (log + [line])[..|log|] == log;
  }

  lemma {:induction false} DurationsStep(t: Table, log: seq<Line>, line: Line)
    ensures Durations(t, log + [line]) == Durations(t, log) + Lag(t, OpenMap(t, log), log, line)
  {
    var longer := log + [line];
    assert longer[..|longer| - 1] == log && longer[|longer| - 1] == line;
  }

  /** A processing line and the latest announcement of its height that no processed line
      has cleared: the lag counted when the announcement is not later. */
  ghost function EventLag(log: seq<Line>, line: Line): seq<int> {
    var m := OpenMap(Announcements, log);
    var h := OpenKey(Blocks, line);
    if h in m && 0 <= m[h] < |log| && log[m[h]].Timed? && line.Timed? && log[m[h]].at <= line.at
    then [line.at - log[m[h]].at] else []
  }

  function ChainLag(line: Line): seq<int> {
    if OpenKey(Blocks, line) != 0 && line.event.chainAt.Some? && line.event.chainAt.value <= line.at
    then [line.at - line.event.chainAt.value] else []
  }

  ghost function EventLags(log: seq<Line>): seq<int> {
    if log == [] then []
    else EventLags(log[..|log| - 1]) + EventLag(log[..|log| - 1], log[|log| - 1])
  }

  ghost function ChainLags(log: seq<Line>): seq<int> {
    if log == [] then []
    else ChainLags(log[..|log| - 1]) + ChainLag(log[|log| - 1])
  }

  // ----- the lags of processing lines, by the lines they come from

  /** Processing line j and the open announcement i that it is measured from. */
  ghost predicate Announced(log: seq<Line>, i: int, j: int) {
    && 0 <= j < |log| && log[j].Timed? && log[j].event.Processing?
    && Open(Announcements, log[..j], i, log[j].event.height) && log[i].at <= log[j].at
  }

  /** The announcement that line j is measured from, -1 when there is none. */
  ghost function AnnouncementOf(log: seq<Line>, j: nat): int
    requires j < |log|
  {
    var m := OpenMap(Announcements, log[..j]);
    var h := OpenKey(Blocks, log[j]);
    if h in m && Announced(log, m[h], j) then m[h] else -1
  }

  lemma AnnouncementExact(log: seq<Line>, j: nat, i: int)
    requires j < |log|
    ensures Announced(log, i, j) <==> i >= 0 && AnnouncementOf(log, j) == i
    ensures EventLag(log[..j], log[j]) ==
            var k := AnnouncementOf(log, j);
            if 0 <= k < j && log[j].Timed? && log[k].Timed? then [log[j].at - log[k].at] else []
  {
    var front := log[..j];
    var m, h := OpenMap(Announcements, front), OpenKey(Blocks, log[j]);
    OpenMapExact(Announcements, front);
    if h in m {
      assert Open(Announcements, front, m[h], h);
      assert front[m[h]] == log[m[h]] && log[m[h]].Timed?;
    }
  }

  /** The announced lines among the first z, in order, with their announcements. */
  ghost function AnnouncedPairs(log: seq<Line>, z: nat): seq<(int, int)>
    requires z <= |log|
  {
    if z == 0 then []
    else AnnouncedPairs(log, z - 1) + if AnnouncementOf(log, z - 1) >= 0 then [(AnnouncementOf(log, z - 1), z - 1)] else []
  }

  lemma {:induction false} AnnouncedPairsExact(log: seq<Line>, z: nat, i: int, j: int)
    requires z <= |log|
    ensures (i, j) in AnnouncedPairs(log, z) <==> j < z && Announced(log, i, j)
  {
    if z > 0 {
      AnnouncedPairsExact(log, z - 1, i, j);
      AnnouncementExact(log, z - 1, i);
    }
  }

  /** The event lags are the times from announcement to processing line, pair by pair. */
  lemma {:induction false} EventLagsOfPairs(log: seq<Line>, z: nat)
    requires z <= |log|
    ensures |EventLags(log[..z])| == |AnnouncedPairs(log, z)|
    ensures forall p :: 0 <= p < |AnnouncedPairs(log, z)| ==>
              var (i, j) := AnnouncedPairs(log, z)[p];
              0 <= i < j < z && log[i].Timed? && log[j].Timed? && EventLags(log[..z])[p] == log[j].at - log[i].at
    ensures forall p, q :: 0 <= p < q < |AnnouncedPairs(log, z)| ==> AnnouncedPairs(log, z)[p].1 < AnnouncedPairs(log, z)[q].1
  {
    if z > 0 {
      EventLagsOfPairs(log, z - 1);
      assert log[..z][..z - 1] == log[..z - 1];
      AnnouncementExact(log, z - 1, AnnouncementOf(log, z - 1));
    }
  }

  /** The lines with a chain timestamp that is not later than they are. */
  ghost predicate Stamped(line: Line) {
    && line.Timed? && line.event.Processing? && line.event.height != 0
    && line.event.chainAt.Some? && line.event.chainAt.value <= line.at
  }

  ghost function StampedLines(log: seq<Line>, z: nat): seq<int>
    requires z <= |log|
  {
    if z == 0 then [] else StampedLines(log, z - 1) + if Stamped(log[z - 1]) then [z - 1] else []
  }

  lemma {:induction false} StampedExact(log: seq<Line>, z: nat)
    requires z <= |log|
    ensures forall j :: j in StampedLines(log, z) <==> 0 <= j < z && Stamped(log[j])
    ensures forall p :: 0 <= p < |StampedLines(log, z)| ==> 0 <= StampedLines(log, z)[p] < z
    ensures forall p, q :: 0 <= p < q < |StampedLines(log, z)| ==> StampedLines(log, z)[p] < StampedLines(log, z)[q]
  {
    if z > 0 {
      StampedExact(log, z - 1);
    }
  }

  /** The chain lags are the times from chain timestamp to line, line by line. */
  lemma {:induction false} ChainLagsOfLines(log: seq<Line>, z: nat)
    requires z <= |log|
    ensures |ChainLags(log[..z])| == |StampedLines(log, z)|
    ensures forall p :: 0 <= p < |StampedLines(log, z)| ==>
              var j := StampedLines(log, z)[p];
              0 <= j < z && Stamped(log[j]) && ChainLags(log[..z])[p] == log[j].at - log[j].event.chainAt.value
  {
    if z > 0 {
      ChainLagsOfLines(log, z - 1);
      assert log[..z][..z - 1] == log[..z - 1];
    }
  }

  /** The transactions of matched completions. */
  ghost function MatchedTxs(log: seq<Line>): int {
    if log == [] then 0
    else
      var front, line := log[..|log| - 1], log[|log| - 1];
      MatchedTxs(front) + if Hits(Sends, OpenMap(Sends, front), front, line) then SentOf(line) else 0
  }

  function ParsedOf(line: Line): int { if line.Blank? then 0 else 1 }
  function TimedOf(line: Line): int { if line.Timed? then 1 else 0 }
  function SentOf(line: Line): int { if CloseKey(Sends, line) != 0 then line.event.sent else 0 }
  function ExpectedOf(line: Line): int { if OpenKey(Sends, line) != 0 then line.event.expected else 0 }

  /** What a line adds to the send totals: a start of a numbered block its expected, a completion
      its sent transactions, any other line nothing. */
  lemma LineFigures(line: Line)
    ensures line.Timed? && line.event.SendStart? && line.event.block != 0 ==>
              ExpectedOf(line) == line.event.expected && SentOf(line) == 0
    ensures line.Timed? && line.event.SendComplete? && line.event.block != 0 ==>
              SentOf(line) == line.event.sent && ExpectedOf(line) == 0
    ensures !line.Timed? || !(line.event.SendStart? || line.event.SendComplete?) || line.event.block == 0 ==>
              SentOf(line) == 0 && ExpectedOf(line) == 0
  {
  }

  ghost function SentIn(log: seq<Line>, pairs: seq<(int, int)>): int {
    if pairs == [] then 0
    else
      var j := pairs[|pairs| - 1].1;
      SentIn(log, pairs[..|pairs| - 1]) +
      if 0 <= j < |log| && log[j].Timed? && log[j].event.SendComplete? then log[j].event.sent else 0
  }

  lemma {:induction false} SentInPrefix(log: seq<Line>, z: nat, pairs: seq<(int, int)>)
    requires z <= |log| && forall p :: 0 <= p < |pairs| ==> 0 <= pairs[p].1 < z
    ensures SentIn(log[..z], pairs) == SentIn(log, pairs)
  {
    if pairs != [] {
      SentInPrefix(log, z, pairs[..|pairs| - 1]);
    }
  }

  /** The matched transactions are the sent transactions of the matched completions. */
  lemma {:induction false} MatchedTxsOfPairs(log: seq<Line>)
    ensures MatchedTxs(log) == SentIn(log, Matched(Sends, log))
  {
    if log != [] {
      var z := |log| - 1;
      MatchedTxsOfPairs(log[..z]);
      DurationsOfPairs(Sends, log[..z]);
      SentInPrefix(log, z, Matched(Sends, log[..z]));
      if Hits(Sends, OpenMap(Sends, log[..z]), log[..z], log[z]) {
        OpenMapExact(Sends, log[..z]);
        assert 0 in OpenMap(Sends, log[..z]) ==> Open(Sends, log[..z], OpenMap(Sends, log[..z])[0], 0);
        LineFigures(log[z]);
        var last := (OpenMap(Sends, log[..z])[CloseKey(Sends, log[z])], z);
        assert Matched(Sends, log) == Matched(Sends, log[..z]) + [last];
        assert Matched(Sends, log)[..|Matched(Sends, log[..z])|] == Matched(Sends, log[..z]);
      }
    }
  }

  /** The positions of the lines that are p. */
  ghost function Where(log: seq<Line>, p: Line -> bool): set<int> {
    set i | 0 <= i < |log| && p(log[i])
  }

  /** A sum of ones counts the lines it is about. */
  lemma {:induction false} SumCounts(log: seq<Line>, f: Line -> int, p: Line -> bool)
    requires forall line :: f(line) == if p(line) then 1 else 0
    ensures Sum(log, f) == |Where(log, p)|
  {
    if log == [] {
      assert Where(log, p) == {};
    } else {
      var z := |log| - 1;
      SumCounts(log[..z], f, p);
      assert Where(log, p) == Where(log[..z], p) + if p(log[z]) then {z} else {};
    }
  }

  /** The counters, by the lines they count. */
  lemma ClockCounters(timing: Timing, log: seq<Line>)
    requires ClockTallies(timing, log)
    ensures timing.parsedLines == |Where(log, (line: Line) => !line.Blank?)|
    ensures timing.timestampedLines == |Where(log, (line: Line) => line.Timed?)|
  {
    SumCounts(log, ParsedOf, (line: Line) => !line.Blank?);
    SumCounts(log, TimedOf, (line: Line) => line.Timed?);
  }

  lemma SendCounters(timing: Timing, log: seq<Line>)
    requires SendTallies(timing, log)
    ensures timing.sendStartEvents == |Where(log, (line: Line) => line.Timed? && line.event.SendStart? && line.event.block != 0)|
    ensures timing.sendCompleteEvents == |Where(log, (line: Line) => line.Timed? && line.event.SendComplete? && line.event.block != 0)|
  {
    SumCounts(log, OpensOne(Sends), (line: Line) => line.Timed? && line.event.SendStart? && line.event.block != 0);
    SumCounts(log, ClosesOne(Sends), (line: Line) => line.Timed? && line.event.SendComplete? && line.event.block != 0);
  }

  lemma BlockCounters(timing: Timing, log: seq<Line>)
    requires BlockTallies(timing, log)
    ensures timing.blockEventEvents == |Where(log, (line: Line) => line.Timed? && line.event.BlockEvent? && line.event.height != 0)|
    ensures timing.blockProcessingEvents == |Where(log, (line: Line) => line.Timed? && line.event.Processing? && line.event.height != 0)|
    ensures timing.blockProcessedEvents == |Where(log, (line: Line) => line.Timed? && line.event.Processed? && line.event.height != 0)|
  {
    SumCounts(log, OpensOne(Announcements), (line: Line) => line.Timed? && line.event.BlockEvent? && line.event.height != 0);
    SumCounts(log, OpensOne(Blocks), (line: Line) => line.Timed? && line.event.Processing? && line.event.height != 0);
    SumCounts(log, ClosesOne(Blocks), (line: Line) => line.Timed? && line.event.Processed? && line.event.height != 0);
  }

  /** The earliest and the latest timestamp of the log. */
  ghost predicate Bounds(log: seq<Line>, first: Option<int>, last: Option<int>) {
    && (first.Some? <==> exists i :: 0 <= i < |log| && log[i].Timed?)
    && (last.Some? <==> first.Some?)
    && (first.Some? ==>
          && (exists i :: 0 <= i < |log| && log[i].Timed? && log[i].at == first.value)
          && (exists i :: 0 <= i < |log| && log[i].Timed? && log[i].at == last.value)
          && forall i :: 0 <= i < |log| && log[i].Timed? ==> first.value <= log[i].at <= last.value)
  }

  /** A Go map from block to time holds the open entries of a table. */
  ghost predicate HoldsTimes(times: map<int, int>, t: Table, log: seq<Line>) {
    var m := OpenMap(t, log);
    times.Keys == m.Keys && 0 !in times &&
    forall b :: b in m ==> 0 <= m[b] < |log| && log[m[b]].Timed? && times[b] == log[m[b]].at
  }

  // ----- the same quantities, carried forward over the maps of times

  predicate ClosesEntry(t: Table, times: map<int, int>, line: Line) {
    CloseKey(t, line) in times && line.Timed? && Removes(t, line, times[CloseKey(t, line)])
  }

  function NextTimes(t: Table, times: map<int, int>, line: Line): map<int, int> {
    if OpenKey(t, line) != 0 then times[OpenKey(t, line) := line.at]
    else if ClosesEntry(t, times, line) then times - {CloseKey(t, line)}
    else times
  }

  function NextDurations(t: Table, times: map<int, int>, durations: seq<int>, line: Line): seq<int> {
    if ClosesEntry(t, times, line) then durations + [line.at - times[CloseKey(t, line)]] else durations
  }

  function NextExpected(starts: map<int, int>, expected: map<int, int>, line: Line): map<int, int> {
    if OpenKey(Sends, line) != 0 then expected[OpenKey(Sends, line) := ExpectedOf(line)]
    else if ClosesEntry(Sends, starts, line) then expected - {CloseKey(Sends, line)}
    else expected
  }

  function NextEventLags(events: map<int, int>, lags: seq<int>, line: Line): seq<int> {
    if OpenKey(Blocks, line) in events && line.Timed? && events[OpenKey(Blocks, line)] <= line.at
    then lags + [line.at - events[OpenKey(Blocks, line)]] else lags
  }

  lemma {:induction false} HitsByTimes(times: map<int, int>, t: Table, log: seq<Line>, line: Line)
    requires HoldsTimes(times, t, log)
    ensures ClosesEntry(t, times, line) <==> Hits(t, OpenMap(t, log), log, line)
  {
  }

  lemma HoldsTimesStep(times: map<int, int>, t: Table, log: seq<Line>, line: Line)
    requires HoldsTimes(times, t, log)
    ensures HoldsTimes(NextTimes(t, times, line), t, log + [line])
  {
    HitsByTimes(times, t, log, line);
    OpenMapStep(t, log, line);
    var next := NextTimes(t, times, line);
    forall b | b in next
      ensures var m := OpenMap(t, log + [line]);
              b in m && 0 <= m[b] < |log + [line]| && (log + [line])[m[b]].Timed? && next[b] == (log + [line])[m[b]].at
    {
    }
    assert next.Keys == OpenMap(t, log + [line]).Keys;
  }

  lemma {:induction false} DurationsByTimes(times: map<int, int>, t: Table, log: seq<Line>, line: Line)
    requires HoldsTimes(times, t, log)
    ensures Durations(t, log + [line]) == NextDurations(t, times, Durations(t, log), line)
  {
    HitsByTimes(times, t, log, line);
    DurationsStep(t, log, line);
  }

  datatype Timing = Timing(
    parsedLines: int, timestampedLines: int, firstTimestamp: Option<int>, lastTimestamp: Option<int>,
    sendStartEvents: int, sendExpectedTxsTotal: int, sendCompleteEvents: int, sendTxsSentTotal: int,
    sendMatchedTxsTotal: int, blockEventEvents: int, blockProcessingEvents: int, blockProcessedEvents: int)

  ghost predicate ClockTallies(timing: Timing, log: seq<Line>) {
    && timing.parsedLines == Sum(log, ParsedOf)
    && timing.timestampedLines == Sum(log, TimedOf)
    && Bounds(log, timing.firstTimestamp, timing.lastTimestamp)
  }

  ghost predicate SendTallies(timing: Timing, log: seq<Line>) {
    && timing.sendStartEvents == Sum(log, OpensOne(Sends))
    && timing.sendExpectedTxsTotal == Sum(log, ExpectedOf)
    && timing.sendCompleteEvents == Sum(log, ClosesOne(Sends))
    && timing.sendTxsSentTotal == Sum(log, SentOf)
    && timing.sendMatchedTxsTotal == MatchedTxs(log)
  }

  ghost predicate BlockTallies(timing: Timing, log: seq<Line>) {
    && timing.blockEventEvents == Sum(log, OpensOne(Announcements))
    && timing.blockProcessingEvents == Sum(log, OpensOne(Blocks))
    && timing.blockProcessedEvents == Sum(log, ClosesOne(Blocks))
  }

  lemma {:induction false} SendTalliesStep(timing: Timing, log: seq<Line>, line: Line, matched: bool)
    requires SendTallies(timing, log)
    requires matched <==> Hits(Sends, OpenMap(Sends, log), log, line)
    ensures SendTallies(
              timing.(sendStartEvents := timing.sendStartEvents + OpensOne(Sends)(line),
                      sendExpectedTxsTotal := timing.sendExpectedTxsTotal + ExpectedOf(line),
                      sendCompleteEvents := timing.sendCompleteEvents + ClosesOne(Sends)(line),
                      sendTxsSentTotal := timing.sendTxsSentTotal + SentOf(line),
                      sendMatchedTxsTotal := timing.sendMatchedTxsTotal + if matched then SentOf(line) else 0),
              log + [line])
  {
    assert (log + [line])[..|log|] == log;
  }

  lemma BlockTalliesStep(timing: Timing, log: seq<Line>, line: Line)
    requires BlockTallies(timing, log)
    ensures BlockTallies(
              timing.(blockEventEvents := timing.blockEventEvents + OpensOne(Announcements)(line),
                      blockProcessingEvents := timing.blockProcessingEvents + OpensOne(Blocks)(line),
                      blockProcessedEvents := timing.blockProcessedEvents + ClosesOne(Blocks)(line)),
              log + [line])
  {
    assert (log + [line])[..|log|] == log;
  }

  ghost predicate SendSide(log: seq<Line>, starts: map<int, int>, expected: map<int, int>, durations: seq<int>, unmatched: int) {
    && HoldsTimes(starts, Sends, log)
    && expected.Keys == starts.Keys
    && (forall b :: b in expected ==> expected[b] == ExpectedOf(log[OpenMap(Sends, log)[b]]))
    && durations == Durations(Sends, log)
    && unmatched == Unmatched(Sends, log)
  }

  lemma {:induction false} SendSideStep(log: seq<Line>, line: Line, starts: map<int, int>, expected: map<int, int>, durations: seq<int>, unmatched: int)
    requires SendSide(log, starts, expected, durations, unmatched)
    ensures ClosesEntry(Sends, starts, line) <==> Hits(Sends, OpenMap(Sends, log), log, line)
    ensures SendSide(log + [line],
                     NextTimes(Sends, starts, line),
                     NextExpected(starts, expected, line),
                     NextDurations(Sends, starts, durations, line),
                     unmatched + if CloseKey(Sends, line) != 0 && !ClosesEntry(Sends, starts, line) then 1 else 0)
  {
    HoldsTimesStep(starts, Sends, log, line);
    HitsByTimes(starts, Sends, log, line);
    DurationsByTimes(starts, Sends, log, line);
    assert (log + [line])[..|log|] == log;
  }

  ghost predicate BlockSide(log: seq<Line>, events: map<int, int>, processing: map<int, int>, eventLags: seq<int>,
                            durations: seq<int>, chainLags: seq<int>)
  {
    && HoldsTimes(events, Announcements, log)
    && HoldsTimes(processing, Blocks, log)
    && eventLags == EventLags(log)
    && durations == Durations(Blocks, log)
    && chainLags == ChainLags(log)
  }

  lemma BlockSideStep(log: seq<Line>, line: Line, events: map<int, int>, processing: map<int, int>, eventLags: seq<int>,
                      durations: seq<int>, chainLags: seq<int>)
    requires BlockSide(log, events, processing, eventLags, durations, chainLags)
    ensures BlockSide(log + [line],
                      NextTimes(Announcements, events, line),
                      NextTimes(Blocks, processing, line),
                      NextEventLags(events, eventLags, line),
                      NextDurations(Blocks, processing, durations, line),
                      chainLags + ChainLag(line))
  {
    HoldsTimesStep(events, Announcements, log, line);
    HoldsTimesStep(processing, Blocks, log, line);
    DurationsByTimes(processing, Blocks, log, line);
    assert (log + [line])[..|log|] == log;
  }

  /** The builder's state as a value. */
  datatype Builder = Builder(
    timing: Timing, sendStarts: map<int, int>, sendExpected: map<int, int>, sendDurations: seq<int>, unmatched: int,
    blockEvents: map<int, int>, blockProcessing: map<int, int>, eventLags: seq<int>, blockDurations: seq<int>, chainLags: seq<int>)

  /** The builder's tables, lists and counters are those of the log. */
  ghost predicate Describes(b: Builder, log: seq<Line>) {
    && ClockTallies(b.timing, log) && SendTallies(b.timing, log) && BlockTallies(b.timing, log)
    && SendSide(log, b.sendStarts, b.sendExpected, b.sendDurations, b.unmatched)
    && BlockSide(log, b.blockEvents, b.blockProcessing, b.eventLags, b.blockDurations, b.chainLags)
  }

  function NextClock(timing: Timing, line: Line): Timing {
    var at := if line.Timed? then line.at else 0;
    timing.(parsedLines := timing.parsedLines + ParsedOf(line),
            timestampedLines := timing.timestampedLines + TimedOf(line),
            firstTimestamp := if line.Timed? && (timing.firstTimestamp.None? || at < timing.firstTimestamp.value)
                              then Some(at) else timing.firstTimestamp,
            lastTimestamp := if line.Timed? && (timing.lastTimestamp.None? || at > timing.lastTimestamp.value)
                             then Some(at) else timing.lastTimestamp)
  }

  function NextSends(timing: Timing, line: Line, matched: bool): Timing {
    timing.(sendStartEvents := timing.sendStartEvents + OpensOne(Sends)(line),
            sendExpectedTxsTotal := timing.sendExpectedTxsTotal + ExpectedOf(line),
            sendCompleteEvents := timing.sendCompleteEvents + ClosesOne(Sends)(line),
            sendTxsSentTotal := timing.sendTxsSentTotal + SentOf(line),
            sendMatchedTxsTotal := timing.sendMatchedTxsTotal + if matched then SentOf(line) else 0)
  }

  function NextBlocks(timing: Timing, line: Line): Timing {
    timing.(blockEventEvents := timing.blockEventEvents + OpensOne(Announcements)(line),
            blockProcessingEvents := timing.blockProcessingEvents + OpensOne(Blocks)(line),
            blockProcessedEvents := timing.blockProcessedEvents + ClosesOne(Blocks)(line))
  }

  function NextUnmatched(starts: map<int, int>, unmatched: int, line: Line): int {
    unmatched + if CloseKey(Sends, line) != 0 && !ClosesEntry(Sends, starts, line) then 1 else 0
  }

  function Next(b: Builder, line: Line): Builder {
    Builder(
      NextBlocks(NextSends(NextClock(b.timing, line), line, ClosesEntry(Sends, b.sendStarts, line)), line),
      NextTimes(Sends, b.sendStarts, line), NextExpected(b.sendStarts, b.sendExpected, line),
      NextDurations(Sends, b.sendStarts, b.sendDurations, line), NextUnmatched(b.sendStarts, b.unmatched, line),
      NextTimes(Announcements, b.blockEvents, line), NextTimes(Blocks, b.blockProcessing, line),
      NextEventLags(b.blockEvents, b.eventLags, line),
      NextDurations(Blocks, b.blockProcessing, b.blockDurations, line), b.chainLags + ChainLag(line))
  }

  lemma ClockStep(timing: Timing, log: seq<Line>, line: Line)
    requires ClockTallies(timing, log)
    ensures ClockTallies(NextClock(timing, line), log + [line])
  {
    assert (log + [line])[..|log|] == log;
    if line.Timed? {
      BoundsStep(log, line, timing.firstTimestamp, timing.lastTimestamp);
    } else {
      BoundsUntimed(log, line, timing.firstTimestamp, timing.lastTimestamp);
    }
  }

  lemma {:induction false} TalliesStep(timing: Timing, log: seq<Line>, line: Line, matched: bool)
    requires ClockTallies(timing, log) && SendTallies(timing, log) && BlockTallies(timing, log)
    requires matched <==> Hits(Sends, OpenMap(Sends, log), log, line)
    ensures var next := NextBlocks(NextSends(NextClock(timing, line), line, matched), line);
            ClockTallies(next, log + [line]) && SendTallies(next, log + [line]) && BlockTallies(next, log + [line])
  {
    ClockStep(timing, log, line);
    SendTalliesStep(timing, log, line, matched);
    BlockTalliesStep(timing, log, line);
  }

  lemma DescribesStep(b: Builder, log: seq<Line>, line: Line)
    requires Describes(b, log)
    ensures Describes(Next(b, line), log + [line])
  {
    SendSideStep(log, line, b.sendStarts, b.sendExpected, b.sendDurations, b.unmatched);
    BlockSideStep(log, line, b.blockEvents, b.blockProcessing, b.eventLags, b.blockDurations, b.chainLags);
    TalliesStep(b.timing, log, line, ClosesEntry(Sends, b.sendStarts, line));
  }

  /** What the reported figures of any log satisfy: completions are durations or unmatched,
      starts are open, matched or superseded (none of them exactly when no line reopens an
      open block), the two start tables have the same keys, and no duration is negative. */
  lemma {:induction false} SendTotals(b: Builder, log: seq<Line>)
    requires Describes(b, log)
    ensures b.timing.sendCompleteEvents == |b.sendDurations| + b.unmatched
    ensures b.timing.sendStartEvents == |b.sendStarts| + |b.sendDurations| + Superseded(Sends, log)
    ensures b.timing.blockProcessingEvents == |b.blockProcessing| + |b.blockDurations| + Superseded(Blocks, log)
    ensures b.timing.sendStartEvents == |b.sendStarts| + |b.sendDurations| <==> forall i, k :: !Reopens(Sends, log, i, k)
    ensures b.timing.blockProcessingEvents == |b.blockProcessing| + |b.blockDurations| <==> forall i, k :: !Reopens(Blocks, log, i, k)
    ensures b.sendExpected.Keys == b.sendStarts.Keys
    ensures forall p :: 0 <= p < |b.sendDurations| ==> b.sendDurations[p] >= 0
    ensures forall p :: 0 <= p < |b.blockDurations| ==> b.blockDurations[p] >= 0
  {
    CountsConserved(Sends, log);
    CountsConserved(Blocks, log);
    SupersededIsReopened(Sends, log);
    SupersededIsReopened(Blocks, log);
    assert |b.sendStarts| == |b.sendStarts.Keys| == |OpenMap(Sends, log).Keys|;
    assert |b.blockProcessing| == |b.blockProcessing.Keys| == |OpenMap(Blocks, log).Keys|;
    DurationsOfPairs(Sends, log);
    DurationsOfPairs(Blocks, log);
    NoNegativeDuration(Sends, log);
    NoNegativeDuration(Blocks, log);
  }

  /** A start that was replaced is gone: while the newer one is open, a completion pairs with
      the newer one if that is not later in time, and else with none, even when the older
      start is not later. */
  lemma SupersededStartIsLost(log: seq<Line>, older: int, newer: int, j: int, x: int)
    requires 0 <= older < newer < j < |log|
    requires OpenKey(Sends, log[older]) == OpenKey(Sends, log[newer]) == CloseKey(Sends, log[j])
    requires Open(Sends, log[..j], newer, CloseKey(Sends, log[j]))
    ensures Paired(Sends, log, x, j) <==> x == newer && log[newer].at <= log[j].at
  {
    assert forall m :: 0 <= m < j ==> log[..j][m] == log[m];
  }

  /** A failing input: starts at 1 and 5, a completion at 3. The summary counts two starts, one
      open and none matched. */
  lemma ReopenedStartIsNotCounted()
    ensures var log := [Timed(1, SendStart(7, 10)), Timed(5, SendStart(7, 10)), Timed(3, SendComplete(7, 10))];
            && Reopens(Sends, log, 0, 1) && (forall x, j :: !Paired(Sends, log, x, j))
            && Open(Sends, log, 1, 7)
  {
    var log := [Timed(1, SendStart(7, 10)), Timed(5, SendStart(7, 10)), Timed(3, SendComplete(7, 10))];
    assert log[..1][0] == log[0];
  }

  /** The lag of a processing line is measured from the one announcement of its height that
      was neither repeated nor cleared since. */
  lemma EventLagFromOpenAnnouncement(log: seq<Line>, line: Line, i: int)
    requires OpenKey(Blocks, line) != 0 && Open(Announcements, log, i, OpenKey(Blocks, line))
    ensures EventLag(log, line) == if log[i].at <= line.at then [line.at - log[i].at] else []
  {
    OpenMapExact(Announcements, log);
  }

  class TimingBuilder {
    var timing: Timing
    var sendStarts: map<int, int>
    var sendExpected: map<int, int>
    var blockEvents: map<int, int>
    var blockProcessing: map<int, int>
    var sendDurations: seq<int>
    var unmatchedSendCompletes: int
    var eventToProcessing: seq<int>
    var processingToProcessed: seq<int>
    var chainTimestampToProcess: seq<int>
    ghost var log: seq<Line>

    ghost function State(): Builder
      reads this
    {
      Builder(timing, sendStarts, sendExpected, sendDurations, unmatchedSendCompletes,
              blockEvents, blockProcessing, eventToProcessing, processingToProcessed, chainTimestampToProcess)
    }

    ghost predicate Valid()
      reads this
    {
      Describes(State(), log)
    }

    constructor ()
      ensures Valid() && log == []
    {
      timing := Timing(0, 0, None, None, 0, 0, 0, 0, 0, 0, 0, 0);
      sendStarts, sendExpected, blockEvents, blockProcessing := map[], map[], map[], map[];
      sendDurations, eventToProcessing, processingToProcessed, chainTimestampToProcess := [], [], [], [];
      unmatchedSendCompletes := 0;
      log := [];
    }

    method Observe(line: Line)
      requires Valid()
      modifies this
      ensures Valid() && log == old(log) + [line]
    {
      DescribesStep(State(), log, line);
      Advance(line);
      log := log + [line];
    }

    method Advance(line: Line)
      requires 0 !in sendStarts && 0 !in blockEvents && 0 !in blockProcessing
      modifies this
      ensures log == old(log) && State() == Next(old(State()), line)
    {
      ObserveClock(line);
      ObserveSend(line);
      ObserveBlock(line);
    }

    method ObserveClock(line: Line)
      modifies this`timing
      ensures timing == NextClock(old(timing), line)
    {
      if line.Blank? {
        return;
      }
      timing := timing.(parsedLines := timing.parsedLines + 1);
      if line.Untimed? {
        return;
      }
      var at := line.at;
      timing := timing.(timestampedLines := timing.timestampedLines + 1);
      if timing.firstTimestamp.None? || at < timing.firstTimestamp.value {
        timing := timing.(firstTimestamp := Some(at));
      }
      if timing.lastTimestamp.None? || at > timing.lastTimestamp.value {
        timing := timing.(lastTimestamp := Some(at));
      }
    }

    /** The send events: the cases that touch the send tables. */
    method ObserveSend(line: Line)
      requires 0 !in sendStarts
      modifies this`timing, this`sendStarts, this`sendExpected, this`sendDurations, this`unmatchedSendCompletes
      ensures timing == NextSends(old(timing), line, ClosesEntry(Sends, old(sendStarts), line))
      ensures sendStarts == NextTimes(Sends, old(sendStarts), line)
      ensures sendExpected == NextExpected(old(sendStarts), old(sendExpected), line)
      ensures sendDurations == NextDurations(Sends, old(sendStarts), old(sendDurations), line)
      ensures unmatchedSendCompletes == NextUnmatched(old(sendStarts), old(unmatchedSendCompletes), line)
    {
      if line.Timed? && line.event.SendStart? {
        var block, expected := line.event.block, line.event.expected;
        if block == 0 {
          return;
        }
        timing := timing.(sendStartEvents := timing.sendStartEvents + 1,
                          sendExpectedTxsTotal := timing.sendExpectedTxsTotal + expected);
        sendStarts := sendStarts[block := line.at];
        sendExpected := sendExpected[block := expected];
      } else if line.Timed? && line.event.SendComplete? {
        var block, sent := line.event.block, line.event.sent;
        if block == 0 {
          return;
        }
        timing := timing.(sendCompleteEvents := timing.sendCompleteEvents + 1,
                          sendTxsSentTotal := timing.sendTxsSentTotal + sent);
        if block in sendStarts && line.at >= sendStarts[block] {
          sendDurations := sendDurations + [line.at - sendStarts[block]];
          timing := timing.(sendMatchedTxsTotal := timing.sendMatchedTxsTotal + sent);
          sendStarts := sendStarts - {block};
          sendExpected := sendExpected - {block};
        } else {
          unmatchedSendCompletes := unmatchedSendCompletes + 1;
        }
      }
    }

    /** The block events: the cases that touch the block tables. */
    method ObserveBlock(line: Line)
      requires 0 !in blockEvents && 0 !in blockProcessing
      modifies this`timing, this`blockEvents, this`blockProcessing, this`eventToProcessing,
               this`processingToProcessed, this`chainTimestampToProcess
      ensures timing == NextBlocks(old(timing), line)
      ensures blockEvents == NextTimes(Announcements, old(blockEvents), line)
      ensures blockProcessing == NextTimes(Blocks, old(blockProcessing), line)
      ensures eventToProcessing == NextEventLags(old(blockEvents), old(eventToProcessing), line)
      ensures processingToProcessed == NextDurations(Blocks, old(blockProcessing), old(processingToProcessed), line)
      ensures chainTimestampToProcess == old(chainTimestampToProcess) + ChainLag(line)
    {
      if !line.Timed? {
        return;
      }
      var at := line.at;
      match line.event
      case BlockEvent(height) =>
        if height == 0 {
          return;
        }
        timing := timing.(blockEventEvents := timing.blockEventEvents + 1);
        blockEvents := blockEvents[height := at];
      case Processing(height, chainAt) =>
        if height == 0 {
          return;
        }
        timing := timing.(blockProcessingEvents := timing.blockProcessingEvents + 1);
        blockProcessing := blockProcessing[height := at];
        if height in blockEvents && at >= blockEvents[height] {
          eventToProcessing := eventToProcessing + [at - blockEvents[height]];
        }
        if chainAt.Some? && at >= chainAt.value {
          chainTimestampToProcess := chainTimestampToProcess + [at - chainAt.value];
        }
      case Processed(height) =>
        if height == 0 {
          return;
        }
        timing := timing.(blockProcessedEvents := timing.blockProcessedEvents + 1);
        if height in blockProcessing && at >= blockProcessing[height] {
          processingToProcessed := processingToProcessed + [at - blockProcessing[height]];
          blockProcessing := blockProcessing - {height};
        }
        if height in blockEvents {
          blockEvents := blockEvents - {height};
        }
      case _ =>
    }
  }

  lemma BoundsUntimed(log: seq<Line>, line: Line, first: Option<int>, last: Option<int>)
    requires Bounds(log, first, last) && !line.Timed?
    ensures Bounds(log + [line], first, last)
  {
    var longer := log + [line];
    assert forall i :: 0 <= i < |log| ==> longer[i] == log[i];
    if first.Some? {
      var i :| 0 <= i < |log| && log[i].Timed? && log[i].at == first.value;
      var j :| 0 <= j < |log| && log[j].Timed? && log[j].at == last.value;
      assert longer[i].at == first.value && longer[j].at == last.value;
    }
  }

  lemma BoundsStep(log: seq<Line>, line: Line, first: Option<int>, last: Option<int>)
    requires Bounds(log, first, last) && line.Timed?
    ensures Bounds(log + [line],
                   if first.None? || line.at < first.value then Some(line.at) else first,
                   if last.None? || line.at > last.value then Some(line.at) else last)
  {
    var longer := log + [line];
    assert longer[|log|] == line;
    assert forall i :: 0 <= i < |log| ==> longer[i] == log[i];
    if first.Some? {
      var i :| 0 <= i < |log| && log[i].Timed? && log[i].at == first.value;
      var j :| 0 <= j < |log| && log[j].Timed? && log[j].at == last.value;
      assert longer[i].at == first.value && longer[j].at == last.value;
    }
  }
}
