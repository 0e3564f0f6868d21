/** TreeDB timing deltas, grouped by container, store and kind of work. */
module TreeDBTiming {
  import opened Order
  import opened Sums
  import Text

  datatype Snapshot = Snapshot(name: string, store: string, metrics: map<string, real>)

  datatype Key = Key(container: string, store: string, group: string)

  datatype Row = Row(key: Key, seconds: real)

  predicate Contains(s: string, sub: string) {
    sub <= s || (s != "" && Contains(s[1..], sub))
  }

  predicate HasSuffix(s: string, suffix: string) {
    |suffix| <= |s| && s[|s| - |suffix|..] == suffix
  }

  datatype Reading = Seconds(value: real) | NoTiming

  /** The delta of a timing metric in seconds, by the unit its name gives. */
  function DeltaSeconds(metric: string, delta: real): Reading {
    if Contains(metric, "ns_total") || HasSuffix(metric, ".ns") then Seconds(delta / 1000000000.0)
    else if Contains(metric, "ms_total") || HasSuffix(metric, ".ms") || HasSuffix(metric, "total_ms") then Seconds(delta / 1000.0)
    else if Contains(metric, "seconds_total") || HasSuffix(metric, ".seconds") then Seconds(delta)
    else NoTiming
  }

  function MetricGroup(metric: string): string {
    if Contains(metric, "treedb.public.batch.write_sync") then "public batch WriteSync"
    else if Contains(metric, "treedb.public.batch.write") then "public batch Write"
    else if Contains(metric, "treedb.public.checkpoint") then "public checkpoint"
    else if Contains(metric, "command_wal") then "command WAL"
    else if Contains(metric, "checkpoint") then "checkpoint"
    else if Contains(metric, "flush_apply") || Contains(metric, "flush_span") || Contains(metric, "flush_backlog") then "flush/apply"
    else if Contains(metric, "vlog") || Contains(metric, "value_log") then "value log"
    else if Contains(metric, "maintenance") || Contains(metric, "bg_vacuum") then "maintenance"
    else if Contains(metric, "wait") then "foreground wait"
    else "other TreeDB timing"
  }

  lemma {:induction false} ContainsMeans(s: string, sub: string)
    ensures Contains(s, sub) <==> exists i :: 0 <= i <= |s| && sub <= s[i..]
  {
    if s == "" {
      assert s[0..] == s;
    } else {
      ContainsMeans(s[1..], sub);
      assert s[0..] == s;
      forall i | 0 <= i < |s|
        ensures s[1..][i..] == s[i + 1..]
      {
      }
      if i :| 0 <= i <= |s| && sub <= s[i..] {
        assert i > 0 ==> s[1..][i - 1..] == s[i..];
      }
    }
  }

  lemma HasSuffixMeans(s: string, suffix: string)
    ensures HasSuffix(s, suffix) <==> exists p :: s == p + suffix
  {
    if HasSuffix(s, suffix) {
      assert s == s[..|s| - |suffix|] + suffix;
    }
  }

  /** A metric named in nanoseconds, milliseconds or seconds gives its delta in seconds; any
      other name is no timing. */
  lemma {:induction false} SecondsMean(metric: string, delta: real)
    ensures var reading := DeltaSeconds(metric, delta);
            var ns := Contains(metric, "ns_total") || HasSuffix(metric, ".ns");
            var ms := Contains(metric, "ms_total") || HasSuffix(metric, ".ms") || HasSuffix(metric, "total_ms");
            var s := Contains(metric, "seconds_total") || HasSuffix(metric, ".seconds");
            && (reading.Seconds? <==> ns || ms || s)
            && (ns ==> delta == reading.value * 1000000000.0)
            && (!ns && ms ==> delta == reading.value * 1000.0)
            && (!ns && !ms && s ==> delta == reading.value)
  {
  }

  /** Which names make which group; the earlier groups win. */
  lemma {:induction false} GroupsMean(metric: string)
    ensures var sync, write := Contains(metric, "treedb.public.batch.write_sync"), Contains(metric, "treedb.public.batch.write");
            var public, wal := Contains(metric, "treedb.public.checkpoint"), Contains(metric, "command_wal");
            var inner := Contains(metric, "checkpoint");
            var flush := Contains(metric, "flush_apply") || Contains(metric, "flush_span") || Contains(metric, "flush_backlog");
            var values := Contains(metric, "vlog") || Contains(metric, "value_log");
            var upkeep := Contains(metric, "maintenance") || Contains(metric, "bg_vacuum");
            var early := sync || write || public || wal || inner || flush;
            && (sync ==> MetricGroup(metric) == "public batch WriteSync")
            && (write && !sync ==> MetricGroup(metric) == "public batch Write")
            && (public && !sync && !write ==> MetricGroup(metric) == "public checkpoint")
            && (wal && !sync && !write && !public ==> MetricGroup(metric) == "command WAL")
            && (inner && !sync && !write && !public && !wal ==> MetricGroup(metric) == "checkpoint")
            && (flush && !sync && !write && !public && !wal && !inner ==> MetricGroup(metric) == "flush/apply")
            && (values && !early ==> MetricGroup(metric) == "value log")
            && (upkeep && !early && !values ==> MetricGroup(metric) == "maintenance")
            && (Contains(metric, "wait") && !early && !values && !upkeep ==> MetricGroup(metric) == "foreground wait")
            && (!Contains(metric, "wait") && !early && !values && !upkeep ==> MetricGroup(metric) == "other TreeDB timing")
  {
  }

  /** The seconds a metric of the snapshot contributes; 0 for what is not a timing. */
  function SecondsOf(s: Snapshot): string -> real {
    metric =>
      if metric !in s.metrics then 0.0 else
      match DeltaSeconds(metric, s.metrics[metric])
      case Seconds(v) => v
      case NoTiming => 0.0
  }

  function KeyOf(s: Snapshot): string -> Key {
    metric => Key(s.name, s.store, MetricGroup(metric))
  }

  /** All timing seconds of the snapshots, and those that belong to one key. */
  ghost function GrandTotal(snaps: seq<Snapshot>): real {
    if snaps == [] then 0.0
    else
      var last := snaps[|snaps| - 1];
      GrandTotal(snaps[..|snaps| - 1]) + SetSum(last.metrics.Keys, SecondsOf(last))
  }

  ghost function KeyTotal(snaps: seq<Snapshot>, k: Key): real {
    if snaps == [] then 0.0
    else
      var last := snaps[|snaps| - 1];
      KeyTotal(snaps[..|snaps| - 1], k) + SetSum(last.metrics.Keys, Share(SecondsOf(last), KeyOf(last), k))
  }

  ghost function KeysOf(s: Snapshot): set<Key> {
    KeysIn(s.metrics.Keys, SecondsOf(s), KeyOf(s))
  }

  /** The keys some non-zero timing delta belongs to. */
  ghost function AllKeys(snaps: seq<Snapshot>): set<Key> {
    if snaps == [] then {}
    else AllKeys(snaps[..|snaps| - 1]) + KeysOf(snaps[|snaps| - 1])
  }

  // ----- the accumulation

  method AddMetric(before: map<Key, real>, s: Snapshot, metric: string) returns (totals: map<Key, real>)
    requires metric in s.metrics
    ensures totals == AddTo(before, KeyOf(s)(metric), SecondsOf(s)(metric))
  {
    totals := before;
    var reading := DeltaSeconds(metric, s.metrics[metric]);
    if reading.NoTiming? || reading.value == 0.0 {
      return;
    }
    var key := Key(s.name, s.store, MetricGroup(metric));
    totals := totals[key := (if key in totals then totals[key] else 0.0) + reading.value];
  }

  /** All metrics but those left have been added, in the order listed. */
  ghost predicate Added(totals: map<Key, real>, before: map<Key, real>, s: Snapshot, order: seq<string>, left: set<string>) {
    && left <= s.metrics.Keys && Distinct(order) && Elements(order) == s.metrics.Keys - left
    && totals == AddInOrder(before, order, SecondsOf(s), KeyOf(s))
  }

  lemma AddedStep(totals: map<Key, real>, before: map<Key, real>, s: Snapshot, order: seq<string>, left: set<string>,
                  metric: string)
    requires Added(totals, before, s, order, left) && metric in left
    ensures Added(AddTo(totals, KeyOf(s)(metric), SecondsOf(s)(metric)), before, s, order + [metric], left - {metric})
  {
    ElementsAppend(order, metric);
    AddInOrderStep(before, order, SecondsOf(s), KeyOf(s), metric);
  }

  method AddSnapshot(before: map<Key, real>, s: Snapshot) returns (totals: map<Key, real>, ghost order: seq<string>)
    ensures Distinct(order) && Elements(order) == s.metrics.Keys
    ensures totals == AddInOrder(before, order, SecondsOf(s), KeyOf(s))
  {
    totals := before;
    order := [];
    var left := s.metrics.Keys;
    while left != {}
      invariant Added(totals, before, s, order, left)
      decreases |left|
    {
      var metric :| metric in left;  // any order
      AddedStep(totals, before, s, order, left, metric);
      left := left - {metric};
      totals := AddMetric(totals, s, metric);
      order := order + [metric];
    }
  }

  /** Group totals by definition: what the accumulated map must be. */
  ghost function TotalsOf(snaps: seq<Snapshot>): map<Key, real> {
    map k | k in AllKeys(snaps) :: KeyTotal(snaps, k)
  }

  ghost predicate IsTotals(totals: map<Key, real>, snaps: seq<Snapshot>) {
    && totals.Keys == AllKeys(snaps)
    && (forall k :: Lookup(totals)(k) == KeyTotal(snaps, k))
    && MapSum(totals) == GrandTotal(snaps)
  }

  lemma IsTotalsStep(before: map<Key, real>, totals: map<Key, real>, snaps: seq<Snapshot>, s: Snapshot)
    requires IsTotals(before, snaps) && Accumulated(totals, before, s.metrics.Keys, SecondsOf(s), KeyOf(s))
    ensures IsTotals(totals, snaps + [s])
  {
    var longer := snaps + [s];
    assert longer[..|longer| - 1] == snaps && longer[|longer| - 1] == s;
    forall k
      ensures Lookup(totals)(k) == KeyTotal(longer, k)
    {
      assert Lookup(totals)(k) == Lookup(before)(k) + SetSum(s.metrics.Keys, Share(SecondsOf(s), KeyOf(s), k));
    }
  }

  lemma TotalsAreTotalsOf(totals: map<Key, real>, snaps: seq<Snapshot>)
    requires IsTotals(totals, snaps)
    ensures totals == TotalsOf(snaps)
  {
    forall k | k in totals
      ensures totals[k] == TotalsOf(snaps)[k]
    {
      assert Lookup(totals)(k) == totals[k];
    }
  }

  /** The group totals add up to the total of all timing deltas. */
  lemma {:induction false} TotalsConserve(snaps: seq<Snapshot>)
    ensures IsTotals(TotalsOf(snaps), snaps)
  {
    if snaps == [] {
      assert TotalsOf(snaps) == map[];
    } else {
      var front, last := snaps[..|snaps| - 1], snaps[|snaps| - 1];
      TotalsConserve(front);
      var order := Listing(last.metrics.Keys);
      var totals := AddInOrder(TotalsOf(front), order, SecondsOf(last), KeyOf(last));
      AnyOrderAccumulates(TotalsOf(front), order, SecondsOf(last), KeyOf(last));
      IsTotalsStep(TotalsOf(front), totals, front, last);
      assert front + [last] == snaps;
      TotalsAreTotalsOf(totals, snaps);
    }
  }

  method Totals(snaps: seq<Snapshot>) returns (totals: map<Key, real>)
    ensures totals == TotalsOf(snaps)
  {
    totals := map[];
    for i := 0 to |snaps|
      invariant IsTotals(totals, snaps[..i])
    {
      ghost var before := totals;
      ghost var order;
      totals, order := AddSnapshot(totals, snaps[i]);
      AnyOrderAccumulates(before, order, SecondsOf(snaps[i]), KeyOf(snaps[i]));
      IsTotalsStep(before, totals, snaps[..i], snaps[i]);
      assert snaps[..i + 1] == snaps[..i] + [snaps[i]];
    }
    assert snaps[..|snaps|] == snaps;
    TotalsAreTotalsOf(totals, snaps);
  }

  // ----- the rows

  predicate RowLeq(a: Row, b: Row) {
    if a.key.container == b.key.container then
      if a.key.store == b.key.store then
        if a.seconds == b.seconds then Text.Leq(a.key.group, b.key.group) else a.seconds > b.seconds
      else Text.Leq(a.key.store, b.key.store)
    else Text.Leq(a.key.container, b.key.container)
  }

  lemma RowLeqIsTotalOrder()
    ensures TotalPreorder(RowLeq)
    ensures forall a, b :: RowLeq(a, b) && RowLeq(b, a) ==> a == b
  {
    Text.LeqIsTotalOrder();
  }

  function RowFor(totals: map<Key, real>, k: Key): Row { Row(k, Lookup(totals)(k)) }

  /** The rows of a table of totals: one for each key, ordered for the report. */
  ghost function Rows(totals: map<Key, real>): seq<Row> {
    RowLeqIsTotalOrder();
    SortedListing(RowLeq, set k | k in totals :: RowFor(totals, k))
  }

  method TimingSummaryRows(snaps: seq<Snapshot>) returns (rows: seq<Row>)
    ensures rows == Rows(TotalsOf(snaps))
  {
    var totals := Totals(snaps);
    rows := RowsOf(totals);
  }

  method RowsOf(totals: map<Key, real>) returns (rows: seq<Row>)
    ensures rows == Rows(totals)
  {
    rows := [];
    var left := totals.Keys;
    while left != {}
      invariant left <= totals.Keys && Distinct(rows)
      invariant Elements(rows) == set k | k in totals.Keys - left :: RowFor(totals, k)
      decreases |left|
    {
      var k :| k in left;  // any order
      ElementsAppend(rows, RowFor(totals, k));
      assert (set x | x in totals.Keys - (left - {k}) :: RowFor(totals, x)) ==
             (set x | x in totals.Keys - left :: RowFor(totals, x)) + {RowFor(totals, k)};
      left := left - {k};
      rows := rows + [Row(k, totals[k])];
    }
    RowLeqIsTotalOrder();
    assert Elements(rows) == set k | k in totals :: RowFor(totals, k);
    CollectThenSort(RowLeq, rows, Elements(rows));
    rows := Sort(RowLeq, rows);
  }

  ghost function RowSum(rows: seq<Row>): real {
    if rows == [] then 0.0 else RowSum(rows[..|rows| - 1]) + rows[|rows| - 1].seconds
  }

  /** Grouped totals: each key has one row holding exactly its deltas, and the rows add up to
      the total of all timing deltas. */
  lemma {:induction false} RowsConserveTotal(snaps: seq<Snapshot>)
    ensures var rows := Rows(TotalsOf(snaps));
            && Sorted(RowLeq, rows)
            && (forall i, j :: 0 <= i < j < |rows| ==> rows[i].key != rows[j].key)
            && (forall k, x :: Row(k, x) in rows <==> k in AllKeys(snaps) && x == KeyTotal(snaps, k))
            && RowSum(rows) == GrandTotal(snaps)
  {
    var totals := TotalsOf(snaps);
    TotalsConserve(snaps);
    RowsListTotals(totals);
    RowKeysDiffer(Rows(totals), totals);
    RowSumIsMapSum(Rows(totals), totals, totals.Keys);
    forall k, x
      ensures Row(k, x) in Rows(totals) <==> k in AllKeys(snaps) && x == KeyTotal(snaps, k)
    {
      assert Lookup(totals)(k) == KeyTotal(snaps, k);
      assert Row(k, x) in Rows(totals) <==> k in totals && Row(k, x) == RowFor(totals, k);
    }
  }

  lemma RowKeysDiffer(rows: seq<Row>, totals: map<Key, real>)
    requires Distinct(rows) && forall r :: r in rows ==> r == RowFor(totals, r.key)
    ensures forall i, j :: 0 <= i < j < |rows| ==> rows[i].key != rows[j].key
  {
    assert forall i :: 0 <= i < |rows| ==> rows[i] in rows;
  }

  lemma RowsListTotals(totals: map<Key, real>)
    ensures var rows := Rows(totals);
            && Sorted(RowLeq, rows) && Distinct(rows)
            && forall r :: r in rows <==> r.key in totals && r == RowFor(totals, r.key)
  {
    RowLeqIsTotalOrder();
    var all := set k | k in totals :: RowFor(totals, k);
    CollectThenSort(RowLeq, Listing(all), all);
    var rows := Rows(totals);
    assert forall r :: r in rows <==> r in Elements(rows);
  }

  lemma {:induction false} RowSumIsMapSum(rows: seq<Row>, totals: map<Key, real>, keys: set<Key>)
    requires Distinct(rows) && forall r :: r in rows <==> r.key in keys && r == RowFor(totals, r.key)
    ensures RowSum(rows) == SetSum(keys, Lookup(totals))
  {
    if rows == [] {
      assert forall k :: k in keys ==> RowFor(totals, k) in rows;
      assert keys == {};
    } else {
      var front, last := rows[..|rows| - 1], rows[|rows| - 1];
      assert rows == front + [last];
      assert last in rows;
      SetSumRemove(keys, Lookup(totals), last.key);
      forall r
        ensures r in front <==> r.key in keys - {last.key} && r == RowFor(totals, r.key)
      {
        if r in front {
          assert r in rows && r != last;
        }
      }
      RowSumIsMapSum(front, totals, keys - {last.key});
    }
  }
}
