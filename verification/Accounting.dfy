/** Splitting the load window into ABCI-busy and non-ABCI time, and attributing the busy
    time to (class, method, source, provenance) groups. */
module Accounting {
  import opened Common
  import opened Order
  import opened Intervals
  import opened Sampler
  import Text

  datatype GroupKey = GroupKey(kind: string, abciMethod: string, source: string, provenance: string)

  datatype Attribution = Attribution(key: GroupKey, intervalCount: nat, unionSeconds: int)

  function KeyOf(iv: LoadInterval): GroupKey {
    GroupKey(iv.kind, iv.abciMethod, iv.source, iv.provenance)
  }

  /** Which intervals a summary is about: a whole class, or one group. */
  datatype Selection = OfClass(kind: string) | OfGroup(key: GroupKey)
  {
    predicate Wants(k: GroupKey) {
      match this
      case OfClass(c) => k.kind == c
      case OfGroup(g) => k == g
    }
  }

  predicate MatchesNode(iv: LoadInterval, node: string) {
    node == "" || iv.name == node
  }

  predicate NoWindow(windowStart: Instant, windowEnd: Instant) {
    windowStart == 0 || windowEnd == 0 || windowEnd <= windowStart
  }

  function ClipOf(iv: LoadInterval, node: string, windowStart: Instant, windowEnd: Instant): Option<Interval> {
    if MatchesNode(iv, node) then Clip(iv.Span(), windowStart, windowEnd) else None
  }

  /** The clipped intervals of a node that a selection is about, in recorded order. */
  ghost function Clips(ivs: seq<LoadInterval>, node: string, ws: Instant, we: Instant, sel: Selection): (r: seq<Interval>)
    ensures AllNonEmpty(r) && |r| <= |ivs|
  {
    if ivs == [] then []
    else
      var front, last := ivs[..|ivs| - 1], ivs[|ivs| - 1];
      var clip := ClipOf(last, node, ws, we);
      var earlier := Clips(front, node, ws, we, sel);
      if clip.Some? && sel.Wants(KeyOf(last)) then earlier + [clip.value] else earlier
  }

  function Origin(iv: LoadInterval): string {
    if iv.provenance == "" then iv.source else iv.provenance
  }

  ghost function Origins(ivs: seq<LoadInterval>, node: string, ws: Instant, we: Instant, sel: Selection): set<string> {
    set iv | iv in ivs && sel.Wants(KeyOf(iv)) && ClipOf(iv, node, ws, we).Some? && Origin(iv) != "" :: Origin(iv)
  }

  function Join(parts: seq<string>): string {
    if parts == [] then ""
    else if |parts| == 1 then parts[0]
    else parts[0] + ", " + Join(parts[1..])
  }

  /** What the origins of a selection are: the provenance of a clipped interval, or its source
      when it has none. */
  lemma OriginsMean(ivs: seq<LoadInterval>, node: string, ws: Instant, we: Instant, sel: Selection, x: string)
    ensures x in Origins(ivs, node, ws, we, sel) <==>
            && x != ""
            && exists iv :: iv in ivs && sel.Wants(KeyOf(iv)) && ClipOf(iv, node, ws, we).Some? &&
                            x == if iv.provenance != "" then iv.provenance else iv.source
  {
  }

  lemma {:induction false} JoinMeans(a: string, b: string, rest: seq<string>)
    ensures Join([]) == "" && Join([a]) == a && Join([a, b] + rest) == a + ", " + Join([b] + rest)
  {
    assert ([a, b] + rest)[1..] == [b] + rest;
  }

  method SortedSetSummary(values: set<string>) returns (r: string)
    ensures r == Join(Text.SortedStrings(values))
  {
    var out := [];
    var left := values;
    while left != {}
      invariant left <= values && Distinct(out) && Elements(out) == values - left
      decreases |left|
    {
      var v :| v in left;  // any order
      left := left - {v};
      ElementsAppend(out, v);
      out := out + [v];
    }
    Text.CollectStrings(out);
    assert Elements(out) == values;
    r := Join(Text.SortStrings(out));
  }

  method ClassUnion(ivs: seq<LoadInterval>, node: string, kind: string, ws: Instant, we: Instant)
    returns (seconds: int, count: nat, provenance: string)
    ensures kind == "" || NoWindow(ws, we) ==> seconds == 0 && count == 0 && provenance == ""
    ensures kind != "" && !NoWindow(ws, we) ==>
              var clips := Clips(ivs, node, ws, we, OfClass(kind));
              && count == |clips| && seconds == |Instants(clips)|
              && provenance == Join(Text.SortedStrings(Origins(ivs, node, ws, we, OfClass(kind))))
  {
    if kind == "" || NoWindow(ws, we) {
      return 0, 0, "";
    }
    var clipped: seq<Interval> := [];
    var origins: set<string> := {};
    for i := 0 to |ivs|
      invariant clipped == Clips(ivs[..i], node, ws, we, OfClass(kind))
      invariant origins == Origins(ivs[..i], node, ws, we, OfClass(kind))
    {
      assert ivs[..i + 1] == ivs[..i] + [ivs[i]] && ivs[..i + 1][..i] == ivs[..i];
      var iv := ivs[i];
      if iv.kind != kind || !MatchesNode(iv, node) {
        continue;
      }
      var next := Clip(iv.Span(), ws, we);
      if next.None? {
        continue;
      }
      clipped := clipped + [next.value];
      if Origin(iv) != "" {
        origins := origins + {Origin(iv)};
      }
    }
    assert ivs[..|ivs|] == ivs;
    count := |clipped|;
    seconds := UnionLength(clipped);
    provenance := SortedSetSummary(origins);
  }

  // ----- attribution rows

  predicate KeyLeq(a: GroupKey, b: GroupKey) {
    if a.kind != b.kind then Text.Leq(a.kind, b.kind)
    else if a.abciMethod != b.abciMethod then Text.Leq(a.abciMethod, b.abciMethod)
    else if a.source != b.source then Text.Leq(a.source, b.source)
    else Text.Leq(a.provenance, b.provenance)
  }

  predicate RowLeq(a: Attribution, b: Attribution) {
    KeyLeq(a.key, b.key)
  }

  lemma RowLeqIsTotalOrder()
    ensures TotalPreorder(RowLeq)
    ensures forall a, b :: RowLeq(a, b) && RowLeq(b, a) ==> a.key == b.key
  {
    Text.LeqIsTotalOrder();
  }

  ghost function RowFor(ivs: seq<LoadInterval>, node: string, ws: Instant, we: Instant, k: GroupKey): Attribution {
    var clips := Clips(ivs, node, ws, we, OfGroup(k));
    Attribution(k, |clips|, |Instants(clips)|)
  }

  ghost predicate DistinctKeys(rows: seq<Attribution>) {
    forall i, j :: 0 <= i < j < |rows| ==> rows[i].key != rows[j].key
  }

  ghost function KeySet(rows: seq<Attribution>): set<GroupKey> {
    set r | r in rows :: r.key
  }

  ghost predicate RowsFor(rows: seq<Attribution>, keys: set<GroupKey>, ivs: seq<LoadInterval>, node: string,
                          ws: Instant, we: Instant)
  {
    && DistinctKeys(rows) && KeySet(rows) == keys
    && forall r :: r in rows ==> r == RowFor(ivs, node, ws, we, r.key) && r.intervalCount > 0
  }

  /** One row for every group with a clipped interval, none for any other group. */
  ghost predicate Attributes(rows: seq<Attribution>, ivs: seq<LoadInterval>, node: string, ws: Instant, we: Instant) {
    && RowsFor(rows, KeySet(rows), ivs, node, ws, we)
    && forall k :: Clips(ivs, node, ws, we, OfGroup(k)) != [] ==> k in KeySet(rows)
  }

  /** The published table: those rows in key order, and none at all without a window. */
  ghost predicate AttributionTable(rows: seq<Attribution>, ivs: seq<LoadInterval>, node: string, ws: Instant, we: Instant) {
    if NoWindow(ws, we) then rows == [] else Attributes(rows, ivs, node, ws, we) && Sorted(RowLeq, rows)
  }

  lemma RowsForAppend(rows: seq<Attribution>, keys: set<GroupKey>, row: Attribution, ivs: seq<LoadInterval>,
                      node: string, ws: Instant, we: Instant)
    requires RowsFor(rows, keys, ivs, node, ws, we) && row.key !in keys
    requires row == RowFor(ivs, node, ws, we, row.key) && row.intervalCount > 0
    ensures RowsFor(rows + [row], keys + {row.key}, ivs, node, ws, we)
  {
    assert forall i :: 0 <= i < |rows| ==> rows[i] in rows && rows[i].key in KeySet(rows);
    assert KeySet(rows + [row]) == KeySet(rows) + {row.key};
  }

  method SummarizeAttributions(ivs: seq<LoadInterval>, node: string, ws: Instant, we: Instant)
    returns (rows: seq<Attribution>)
    ensures AttributionTable(rows, ivs, node, ws, we)
  {
    if NoWindow(ws, we) {
      return [];
    }
    var groups := GroupClips(ivs, node, ws, we);
    rows := GroupRows(groups, ivs, node, ws, we);
    rows := SortRows(rows, ivs, node, ws, we);
  }

  method GroupRows(groups: map<GroupKey, seq<Interval>>, ghost ivs: seq<LoadInterval>, ghost node: string,
                   ghost ws: Instant, ghost we: Instant)
    returns (rows: seq<Attribution>)
    requires forall k :: k in groups ==> groups[k] != [] && groups[k] == Clips(ivs, node, ws, we, OfGroup(k))
    ensures RowsFor(rows, groups.Keys, ivs, node, ws, we)
  {
    rows := [];
    var left := groups.Keys;
    while left != {}
      invariant left <= groups.Keys && RowsFor(rows, groups.Keys - left, ivs, node, ws, we)
      decreases |left|
    {
      var k :| k in left;  // any order
      var union := UnionLength(groups[k]);
      var row := Attribution(k, |groups[k]|, union);
      RowsForAppend(rows, groups.Keys - left, row, ivs, node, ws, we);
      assert groups.Keys - (left - {k}) == groups.Keys - left + {k};
      left := left - {k};
      rows := rows + [row];
    }
    assert groups.Keys - left == groups.Keys;
  }

  method SortRows(unsorted: seq<Attribution>, ghost ivs: seq<LoadInterval>, ghost node: string,
                  ghost ws: Instant, ghost we: Instant)
    returns (rows: seq<Attribution>)
    requires Attributes(unsorted, ivs, node, ws, we)
    ensures Attributes(rows, ivs, node, ws, we) && Sorted(RowLeq, rows)
  {
    RowLeqIsTotalOrder();
    rows := Sort(RowLeq, unsorted);
    AttributesPermutation(unsorted, rows, ivs, node, ws, we);
  }

  method GroupClips(ivs: seq<LoadInterval>, node: string, ws: Instant, we: Instant)
    returns (groups: map<GroupKey, seq<Interval>>)
    ensures forall k :: k in groups <==> Clips(ivs, node, ws, we, OfGroup(k)) != []
    ensures forall k :: k in groups ==> groups[k] == Clips(ivs, node, ws, we, OfGroup(k))
  {
    groups := map[];
    for i := 0 to |ivs|
      invariant forall k :: k in groups <==> Clips(ivs[..i], node, ws, we, OfGroup(k)) != []
      invariant forall k :: k in groups ==> groups[k] == Clips(ivs[..i], node, ws, we, OfGroup(k))
    {
      assert ivs[..i + 1][..i] == ivs[..i];
      var iv := ivs[i];
      if !MatchesNode(iv, node) {
        continue;
      }
      var clipped := Clip(iv.Span(), ws, we);
      if clipped.None? {
        continue;
      }
      var k := KeyOf(iv);
      groups := groups[k := (if k in groups then groups[k] else []) + [clipped.value]];
    }
    assert ivs[..|ivs|] == ivs;
  }

  lemma AttributesPermutation(a: seq<Attribution>, b: seq<Attribution>, ivs: seq<LoadInterval>, node: string,
                              ws: Instant, we: Instant)
    requires Attributes(a, ivs, node, ws, we) && multiset(a) == multiset(b)
    ensures Attributes(b, ivs, node, ws, we)
  {
    SameElements(a, b);
    assert KeySet(a) == KeySet(b);
    assert forall i, j :: 0 <= i < j < |a| ==> a[i] != a[j];
    DistinctTransfer(a, b);
    forall i, j | 0 <= i < j < |b|
      ensures b[i].key != b[j].key
    {
      assert b[i] in a && b[j] in a && b[i] != b[j];
    }
  }

  /** The table is a function of the intervals: no map order shows in it. */
  lemma AttributionUnique(a: seq<Attribution>, b: seq<Attribution>, ivs: seq<LoadInterval>, node: string,
                          ws: Instant, we: Instant)
    requires Attributes(a, ivs, node, ws, we) && Attributes(b, ivs, node, ws, we)
    requires Sorted(RowLeq, a) && Sorted(RowLeq, b)
    ensures a == b
  {
    RowLeqIsTotalOrder();
    AttributesIncluded(a, b, ivs, node, ws, we);
    AttributesIncluded(b, a, ivs, node, ws, we);
    DistinctMultiset(a, b);
    SortedUnique(RowLeq, a, b);
  }

  lemma AttributesIncluded(a: seq<Attribution>, b: seq<Attribution>, ivs: seq<LoadInterval>, node: string,
                           ws: Instant, we: Instant)
    requires Attributes(a, ivs, node, ws, we) && Attributes(b, ivs, node, ws, we)
    ensures Elements(a) <= Elements(b)
  {
    forall r | r in a
      ensures r in b
    {
      assert r.key in KeySet(b);
    }
  }

  // ----- conservation

  ghost function CountSum(rows: seq<Attribution>, kind: string): nat {
    if rows == [] then 0
    else (if rows[0].key.kind == kind then rows[0].intervalCount else 0) + CountSum(rows[1..], kind)
  }

  ghost function UnionSum(rows: seq<Attribution>, kind: string): int {
    if rows == [] then 0
    else (if rows[0].key.kind == kind then rows[0].unionSeconds else 0) + UnionSum(rows[1..], kind)
  }

  /** Clips of the groups listed in keys, counted group by group. */
  ghost function GroupCount(keys: seq<GroupKey>, ivs: seq<LoadInterval>, node: string, ws: Instant, we: Instant): nat {
    if keys == [] then 0
    else |Clips(ivs, node, ws, we, OfGroup(keys[0]))| + GroupCount(keys[1..], ivs, node, ws, we)
  }

  lemma {:induction false} GroupCountStep(keys: seq<GroupKey>, ivs: seq<LoadInterval>, node: string, ws: Instant, we: Instant)
    requires ivs != [] && Distinct(keys)
    ensures var front, last := ivs[..|ivs| - 1], ivs[|ivs| - 1];
            GroupCount(keys, ivs, node, ws, we) == GroupCount(keys, front, node, ws, we)
              + if ClipOf(last, node, ws, we).Some? && KeyOf(last) in keys then 1 else 0
  {
    if keys != [] {
      GroupCountStep(keys[1..], ivs, node, ws, we);
      assert keys == [keys[0]] + keys[1..];
    }
  }

  lemma {:induction false} GroupCountIsClassCount(keys: seq<GroupKey>, ivs: seq<LoadInterval>, node: string,
                                                  ws: Instant, we: Instant, kind: string)
    requires Distinct(keys) && forall i :: 0 <= i < |keys| ==> keys[i].kind == kind
    requires forall k: GroupKey :: k.kind == kind && Clips(ivs, node, ws, we, OfGroup(k)) != [] ==> k in keys
    ensures GroupCount(keys, ivs, node, ws, we) == |Clips(ivs, node, ws, we, OfClass(kind))|
  {
    if ivs == [] {
      NothingToCount(keys, node, ws, we);
    } else {
      GroupCountStep(keys, ivs, node, ws, we);
      GroupCountIsClassCount(keys, ivs[..|ivs| - 1], node, ws, we, kind);
      var last := ivs[|ivs| - 1];
      if ClipOf(last, node, ws, we).Some? && last.kind == kind {
        assert Clips(ivs, node, ws, we, OfGroup(KeyOf(last))) != [];
      }
    }
  }

  lemma {:induction false} NothingToCount(keys: seq<GroupKey>, node: string, ws: Instant, we: Instant)
    ensures GroupCount(keys, [], node, ws, we) == 0
  {
    if keys != [] {
      NothingToCount(keys[1..], node, ws, we);
    }
  }

  ghost function KeysOfClass(rows: seq<Attribution>, kind: string): seq<GroupKey> {
    if rows == [] then []
    else if rows[0].key.kind == kind then [rows[0].key] + KeysOfClass(rows[1..], kind)
    else KeysOfClass(rows[1..], kind)
  }

  lemma {:induction false} ClassKeys(rows: seq<Attribution>, kind: string)
    requires DistinctKeys(rows)
    ensures var keys := KeysOfClass(rows, kind);
            Distinct(keys) && forall k: GroupKey :: k in keys <==> k.kind == kind && k in KeySet(rows)
  {
    if rows != [] {
      ClassKeys(rows[1..], kind);
      assert rows == [rows[0]] + rows[1..];
      assert KeySet(rows) == {rows[0].key} + KeySet(rows[1..]);
      assert rows[0].key !in KeySet(rows[1..]);
    }
  }

  lemma {:induction false} CountSumByGroup(rows: seq<Attribution>, kind: string, ivs: seq<LoadInterval>, node: string,
                                           ws: Instant, we: Instant)
    requires forall r :: r in rows ==> r == RowFor(ivs, node, ws, we, r.key)
    ensures CountSum(rows, kind) == GroupCount(KeysOfClass(rows, kind), ivs, node, ws, we)
  {
    if rows != [] {
      assert rows[0] in rows;
      CountSumByGroup(rows[1..], kind, ivs, node, ws, we);
    }
  }

  lemma {:induction false} ClipsInWindow(ivs: seq<LoadInterval>, node: string, ws: Instant, we: Instant, sel: Selection)
    ensures Instants(Clips(ivs, node, ws, we, sel)) <= Range(Interval(ws, we))
  {
    if ivs != [] {
      var front, last := ivs[..|ivs| - 1], ivs[|ivs| - 1];
      ClipsInWindow(front, node, ws, we, sel);
      var clip := ClipOf(last, node, ws, we);
      if clip.Some? {
        InstantsAppend(Clips(front, node, ws, we, sel), clip.value);
        ClipIsIntersection(last.Span(), ws, we);
      }
    } else {
      assert Instants([]) == {};
    }
  }

  lemma {:induction false} GroupInClass(ivs: seq<LoadInterval>, node: string, ws: Instant, we: Instant, k: GroupKey)
    ensures forall c :: c in Clips(ivs, node, ws, we, OfGroup(k)) ==> c in Clips(ivs, node, ws, we, OfClass(k.kind))
  {
    if ivs != [] {
      GroupInClass(ivs[..|ivs| - 1], node, ws, we, k);
    }
  }

  lemma {:induction false} ClassInGroups(ivs: seq<LoadInterval>, node: string, ws: Instant, we: Instant, kind: string, c: Interval)
    returns (k: GroupKey)
    requires c in Clips(ivs, node, ws, we, OfClass(kind))
    ensures k.kind == kind && c in Clips(ivs, node, ws, we, OfGroup(k))
  {
    var front, last := ivs[..|ivs| - 1], ivs[|ivs| - 1];
    if c in Clips(front, node, ws, we, OfClass(kind)) {
      k := ClassInGroups(front, node, ws, we, kind, c);
    } else {
      k := KeyOf(last);
    }
  }

  ghost function GroupsUnion(rows: seq<Attribution>, kind: string, ivs: seq<LoadInterval>, node: string,
                             ws: Instant, we: Instant): set<int>
  {
    if rows == [] then {}
    else
      var rest := GroupsUnion(rows[1..], kind, ivs, node, ws, we);
      if rows[0].key.kind == kind then Instants(Clips(ivs, node, ws, we, OfGroup(rows[0].key))) + rest else rest
  }

  lemma {:induction false} GroupInUnion(rows: seq<Attribution>, i: nat, ivs: seq<LoadInterval>, node: string,
                                        ws: Instant, we: Instant)
    requires i < |rows|
    ensures Instants(Clips(ivs, node, ws, we, OfGroup(rows[i].key))) <=
            GroupsUnion(rows, rows[i].key.kind, ivs, node, ws, we)
  {
    if i > 0 {
      GroupInUnion(rows[1..], i - 1, ivs, node, ws, we);
    }
  }

  /** The union over the groups is no larger than the sum of their unions. */
  lemma {:induction false} UnionAtMostSum(rows: seq<Attribution>, kind: string, ivs: seq<LoadInterval>, node: string,
                                          ws: Instant, we: Instant)
    requires forall r :: r in rows ==> r == RowFor(ivs, node, ws, we, r.key)
    ensures |GroupsUnion(rows, kind, ivs, node, ws, we)| <= UnionSum(rows, kind)
  {
    if rows != [] {
      UnionAtMostSum(rows[1..], kind, ivs, node, ws, we);
      assert rows[0] in rows;
      UnionSize(Instants(Clips(ivs, node, ws, we, OfGroup(rows[0].key))),
                GroupsUnion(rows[1..], kind, ivs, node, ws, we));
    }
  }

  lemma UnionSize<T>(a: set<T>, b: set<T>)
    ensures |a + b| <= |a| + |b|
  {
    assert a + b == a + (b - a);
    SubsetSize(b - a, b);
  }

  lemma {:induction false} SubsetSize<T>(a: set<T>, b: set<T>)
    requires a <= b
    ensures |a| <= |b|
  {
    assert b == a + (b - a);
  }

  lemma {:induction false} InstantInGroups(rows: seq<Attribution>, ivs: seq<LoadInterval>, node: string, ws: Instant, we: Instant,
                        kind: string, c: Interval, t: int)
    requires Attributes(rows, ivs, node, ws, we)
    requires c in Clips(ivs, node, ws, we, OfClass(kind)) && c.Has(t)
    ensures t in GroupsUnion(rows, kind, ivs, node, ws, we)
  {
    var k := ClassInGroups(ivs, node, ws, we, kind, c);
    var group := Clips(ivs, node, ws, we, OfGroup(k));
    var q :| 0 <= q < |group| && group[q] == c;
    assert group[q].Has(t) && k in KeySet(rows);
    var i :| 0 <= i < |rows| && rows[i].key == k;
    GroupInUnion(rows, i, ivs, node, ws, we);
  }

  /** Conservation over the attribution table: the counts of a class add up to the class
      count; each group's union is at most the class union, which is at most the sum of the
      group unions and at most the window. */
  lemma {:induction false} AttributionConservation(rows: seq<Attribution>, ivs: seq<LoadInterval>, node: string, ws: Instant, we: Instant,
                                kind: string)
    requires Attributes(rows, ivs, node, ws, we) && ws <= we
    ensures var busy := |Instants(Clips(ivs, node, ws, we, OfClass(kind)))|;
            && CountSum(rows, kind) == |Clips(ivs, node, ws, we, OfClass(kind))|
            && (forall r :: r in rows && r.key.kind == kind ==> r.unionSeconds <= busy)
            && busy <= UnionSum(rows, kind)
            && busy <= we - ws
  {
    var clips := Clips(ivs, node, ws, we, OfClass(kind));
    ClassKeys(rows, kind);
    CountSumByGroup(rows, kind, ivs, node, ws, we);
    GroupCountIsClassCount(KeysOfClass(rows, kind), ivs, node, ws, we, kind);
    forall r | r in rows && r.key.kind == kind
      ensures r.unionSeconds <= |Instants(clips)|
    {
      GroupInClass(ivs, node, ws, we, r.key);
      InstantsSubset(Clips(ivs, node, ws, we, OfGroup(r.key)), clips);
      SubsetSize(Instants(Clips(ivs, node, ws, we, OfGroup(r.key))), Instants(clips));
    }
    forall t | t in Instants(clips)
      ensures t in GroupsUnion(rows, kind, ivs, node, ws, we)
    {
      var i :| 0 <= i < |clips| && clips[i].Has(t);
      InstantInGroups(rows, ivs, node, ws, we, kind, clips[i], t);
    }
    UnionAtMostSum(rows, kind, ivs, node, ws, we);
    SubsetSize(Instants(clips), GroupsUnion(rows, kind, ivs, node, ws, we));
    ClipsInWindow(ivs, node, ws, we, OfClass(kind));
    RangeSize(Interval(ws, we));
    SubsetSize(Instants(clips), Range(Interval(ws, we)));
  }
}
