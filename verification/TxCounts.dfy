/** Transaction counts on their way through the report: hashes from the logs, the raw audit,
    the application metrics, and the corrected result. */
module TxCounts {
  import opened Common
  import opened Order
  import opened Monitor

  // ----- hashes

  /** The first position of a value that occurs. */
  function FirstIndex(s: seq<string>, x: string): (i: nat)
    requires x in s
    ensures i < |s| && s[i] == x && forall k :: 0 <= k < i ==> s[k] != x
  {
    if s[0] == x then 0 else 1 + FirstIndex(s[1..], x)
  }

  /** Each value once, in the order of first appearance. */
  ghost predicate FirstSeenOrder(r: seq<string>, s: seq<string>) {
    && Distinct(r) && (forall x :: x in r <==> x in s)
    && forall i, j :: 0 <= i < j < |r| ==> FirstIndex(s, r[i]) < FirstIndex(s, r[j])
  }

  lemma {:induction false} FirstIndexAppend(s: seq<string>, y: string, x: string)
    requires x in s + [y]
    ensures FirstIndex(s + [y], x) == if x in s then FirstIndex(s, x) else |s|
  {
    var longer := s + [y];
    var i := FirstIndex(longer, x);
    assert forall k :: 0 <= k < |s| ==> longer[k] == s[k];
    if x in s {
      assert longer[FirstIndex(s, x)] == x;
    }
  }

  /** The hash pattern's matches, in the order they occur in the logs, without repeats. */
  method TxHashes(matches: seq<string>) returns (hashes: seq<string>)
    ensures FirstSeenOrder(hashes, matches)
  {
    hashes := [];
    var seen: map<string, bool> := map[];
    for i := 0 to |matches|
      invariant FirstSeenOrder(hashes, matches[..i])
      invariant forall x :: x in seen <==> x in hashes
    {
      var hash := matches[i];
      assert matches[..i + 1] == matches[..i] + [hash];
      forall x | x in matches[..i] + [hash] { FirstIndexAppend(matches[..i], hash, x); }
      if hash in seen {
        continue;
      }
      seen := seen[hash := true];
      hashes := hashes + [hash];
    }
    assert matches[..|matches|] == matches;
  }

  // ----- the raw audit

  datatype TxAudit = TxAudit(hash: string, rpc: string, found: bool, code: nat, gasUsed: int, error: string)

  const NO_AUDIT := TxAudit("", "", false, 0, 0, "")

  /** The answer an audit keeps for a hash: the first node that has it, else the last node asked. */
  ghost predicate IsVerdict(a: TxAudit, hash: string, rpcs: seq<string>, query: (string, string) -> TxAudit) {
    if rpcs == [] then a == TxAudit(hash, "", false, 0, 0, "no RPC addresses available")
    else
      exists k :: 0 <= k < |rpcs| && a == query(rpcs[k], hash)
        && (forall j :: 0 <= j < k ==> !query(rpcs[j], hash).found)
        && (a.found || k == |rpcs| - 1)
  }

  /** One verdict for each hash, in order. */
  ghost predicate Verdicts(audits: seq<TxAudit>, hashes: seq<string>, rpcs: seq<string>, query: (string, string) -> TxAudit) {
    |audits| == |hashes| &&
    forall i :: 0 <= i < |hashes| ==> audits[i].hash == hashes[i] && IsVerdict(audits[i], hashes[i], rpcs, query)
  }

  lemma VerdictsAppend(audits: seq<TxAudit>, hashes: seq<string>, i: nat, rpcs: seq<string>,
                       query: (string, string) -> TxAudit, audit: TxAudit)
    requires i < |hashes| && Verdicts(audits, hashes[..i], rpcs, query)
    requires audit.hash == hashes[i] && IsVerdict(audit, hashes[i], rpcs, query)
    ensures Verdicts(audits + [audit], hashes[..i + 1], rpcs, query)
  {
  }

  method AuditRawTxs(hashes: seq<string>, rpcs: seq<string>, query: (string, string) -> TxAudit)
    returns (audits: seq<TxAudit>)
    requires forall i :: 0 <= i < |hashes| ==> hashes[i] != ""
    requires forall rpc, hash :: query(rpc, hash).hash == hash
    ensures Verdicts(audits, hashes, rpcs, query)
  {
    audits := [];
    if |rpcs| == 0 {
      for i := 0 to |hashes|
        invariant Verdicts(audits, hashes[..i], rpcs, query)
      {
        audits := audits + [TxAudit(hashes[i], "", false, 0, 0, "no RPC addresses available")];
      }
      assert hashes[..|hashes|] == hashes;
      return;
    }
    for i := 0 to |hashes|
      invariant Verdicts(audits, hashes[..i], rpcs, query)
    {
      ghost var before := audits;
      var last := NO_AUDIT;
      var j := 0;
      while j < |rpcs|
        invariant 0 <= j <= |rpcs| && audits == before
        invariant forall k :: 0 <= k < j ==> !query(rpcs[k], hashes[i]).found
        invariant last == if j == 0 then NO_AUDIT else query(rpcs[j - 1], hashes[i])
      {
        var audit := query(rpcs[j], hashes[i]);
        if audit.found {
          VerdictsAppend(audits, hashes, i, rpcs, query, audit);
          audits := audits + [audit];
          last := NO_AUDIT;
          break;
        }
        last := audit;
        j := j + 1;
      }
      if last.hash != "" {
        VerdictsAppend(audits, hashes, i, rpcs, query, last);
        audits := audits + [last];
      }
    }
    assert hashes[..|hashes|] == hashes;
  }

  datatype AuditSummary = AuditSummary(queried: nat, found: nat, successful: nat, failed: nat, totalGasUsed: int)

  ghost function CountWhere(audits: seq<TxAudit>, p: TxAudit -> bool): nat {
    if audits == [] then 0
    else CountWhere(audits[..|audits| - 1], p) + if p(audits[|audits| - 1]) then 1 else 0
  }

  ghost function GasWhereFound(audits: seq<TxAudit>): int {
    if audits == [] then 0
    else
      var last := audits[|audits| - 1];
      GasWhereFound(audits[..|audits| - 1]) + if last.found then last.gasUsed else 0
  }

  function IsFound(): TxAudit -> bool { (a: TxAudit) => a.found }
  function IsSuccess(): TxAudit -> bool { (a: TxAudit) => a.found && a.code == 0 }
  function IsFailure(): TxAudit -> bool { (a: TxAudit) => a.found && a.code != 0 }

  /** Found is exactly successful plus failed, and no more than queried. */
  method SummarizeTxAudit(audits: seq<TxAudit>) returns (summary: Option<AuditSummary>)
    ensures summary.None? <==> audits == []
    ensures summary.Some? ==>
              var s := summary.value;
              && s.queried == |audits| && s.found == CountWhere(audits, IsFound())
              && s.successful == CountWhere(audits, IsSuccess()) && s.failed == CountWhere(audits, IsFailure())
              && s.totalGasUsed == GasWhereFound(audits)
              && s.found == s.successful + s.failed <= s.queried
  {
    if |audits| == 0 {
      return None;
    }
    var s := AuditSummary(|audits|, 0, 0, 0, 0);
    for i := 0 to |audits|
      invariant s.queried == |audits| && s.found == CountWhere(audits[..i], IsFound())
      invariant s.successful == CountWhere(audits[..i], IsSuccess()) && s.failed == CountWhere(audits[..i], IsFailure())
      invariant s.totalGasUsed == GasWhereFound(audits[..i])
      invariant s.found == s.successful + s.failed <= i
    {
      assert audits[..i + 1][..i] == audits[..i];
      var audit := audits[i];
      if !audit.found {
        continue;
      }
      s := s.(found := s.found + 1, totalGasUsed := s.totalGasUsed + audit.gasUsed);
      if audit.code == 0 {
        s := s.(successful := s.successful + 1);
      } else {
        s := s.(failed := s.failed + 1);
      }
    }
    assert audits[..|audits|] == audits;
    summary := Some(s);
  }

  // ----- application metrics

  datatype Signal = Signal(sdkTxCount: real, consensusTotal: real, mempoolSuccessful: real, sdkTxSuccessful: real)

  function Rounded(value: real): nat {
    if value <= 0.0 then 0 else (value + 0.5).Floor
  }

  function IncludedOf(s: Signal): seq<nat> {
    [Rounded(s.sdkTxCount), Rounded(s.consensusTotal), Rounded(s.mempoolSuccessful)]
  }

  function SuccessfulOf(s: Signal): seq<nat> {
    [Rounded(s.sdkTxSuccessful), Rounded(s.mempoolSuccessful)]
  }

  /** A count is the nearest whole number, halves upwards, and none is negative. */
  lemma RoundedIsNearest(value: real)
    ensures value <= 0.0 ==> Rounded(value) == 0
    ensures value > 0.0 ==> Rounded(value) as real - 0.5 <= value < Rounded(value) as real + 0.5
  {
  }

  /** n is the largest candidate of any signal, 0 when there is none. */
  ghost predicate IsLargest(n: nat, signals: seq<Signal>, candidates: Signal -> seq<nat>) {
    && (forall i, c :: 0 <= i < |signals| && c in candidates(signals[i]) ==> c <= n)
    && (n == 0 || exists i :: 0 <= i < |signals| && n in candidates(signals[i]))
  }

  function Max(a: nat, b: nat): nat { if b > a then b else a }

  /** The candidates folded in, one after the other. */
  function MaxOver(n: nat, candidates: seq<nat>): nat
    decreases candidates
  {
    if candidates == [] then n else MaxOver(Max(n, candidates[0]), candidates[1..])
  }

  function Largest(signals: seq<Signal>, candidates: Signal -> seq<nat>): nat {
    if signals == [] then 0
    else MaxOver(Largest(signals[..|signals| - 1], candidates), candidates(signals[|signals| - 1]))
  }

  /** What the metrics of all nodes say: included is raised to successful. */
  function MetricCounts(signals: seq<Signal>): Counts {
    var included, successful := Largest(signals, IncludedOf), Largest(signals, SuccessfulOf);
    var raised := Max(included, successful);
    Counts(raised, successful, raised > 0 || successful > 0)
  }

  method AppMetricLoadCounts(signals: seq<Signal>) returns (counts: Counts)
    ensures counts == MetricCounts(signals)
  {
    var included, successful := 0, 0;
    for i := 0 to |signals|
      invariant included == Largest(signals[..i], IncludedOf)
      invariant successful == Largest(signals[..i], SuccessfulOf)
    {
      assert signals[..i + 1][..i] == signals[..i];
      var s := signals[i];
      var a, b, c, d := Rounded(s.sdkTxCount), Rounded(s.consensusTotal), Rounded(s.mempoolSuccessful), Rounded(s.sdkTxSuccessful);
      OverThree(included, a, b, c);
      OverTwo(successful, d, c);
      if a > included {
        included := a;
      }
      if b > included {
        included := b;
      }
      if c > included {
        included := c;
      }
      if d > successful {
        successful := d;
      }
      if c > successful {
        successful := c;
      }
    }
    assert signals[..|signals|] == signals;
    if included < successful {
      included := successful;
    }
    counts := Counts(included, successful, included > 0 || successful > 0);
  }

  lemma {:induction false} OverTwo(n: nat, a: nat, b: nat)
    ensures MaxOver(n, [a, b]) == Max(Max(n, a), b)
  {
    assert [a, b][1..] == [b] && [b][1..] == [];
    assert MaxOver(n, [a, b]) == MaxOver(Max(n, a), [b]) == MaxOver(Max(Max(n, a), b), []);
  }

  lemma {:induction false} OverThree(n: nat, a: nat, b: nat, c: nat)
    ensures MaxOver(n, [a, b, c]) == Max(Max(Max(n, a), b), c)
  {
    assert [a, b, c][1..] == [b, c];
    OverTwo(Max(n, a), b, c);
  }

  lemma {:induction false} MaxOverIsMax(n: nat, candidates: seq<nat>)
    ensures var m := MaxOver(n, candidates);
            n <= m && (m == n || m in candidates) && forall c :: c in candidates ==> c <= m
    decreases candidates
  {
    if candidates != [] {
      assert candidates == [candidates[0]] + candidates[1..];
      MaxOverIsMax(Max(n, candidates[0]), candidates[1..]);
    }
  }

  lemma {:induction false} LargestIsLargest(signals: seq<Signal>, candidates: Signal -> seq<nat>)
    ensures IsLargest(Largest(signals, candidates), signals, candidates)
  {
    if signals != [] {
      var front, last := signals[..|signals| - 1], signals[|signals| - 1];
      LargestIsLargest(front, candidates);
      MaxOverIsMax(Largest(front, candidates), candidates(last));
      LargestStep(Largest(front, candidates), front, last, candidates, Largest(signals, candidates));
      assert signals == front + [last];
    }
  }

  lemma LargestStep(n: nat, signals: seq<Signal>, s: Signal, candidates: Signal -> seq<nat>, m: nat)
    requires IsLargest(n, signals, candidates)
    requires (m == n || m in candidates(s)) && n <= m && forall c :: c in candidates(s) ==> c <= m
    ensures IsLargest(m, signals + [s], candidates)
  {
    var longer := signals + [s];
    assert longer[|signals|] == s;
    assert forall i :: 0 <= i < |signals| ==> longer[i] == signals[i];
    if m != 0 && m == n {
      var i :| 0 <= i < |signals| && n in candidates(signals[i]);
      assert n in candidates(longer[i]);
    }
  }

  /** The counts the monitor works with: the largest candidates of any node, successful at
      most included, whatever the order of the nodes. */
  lemma MetricCountsMean(signals: seq<Signal>, permuted: seq<Signal>)
    requires multiset(permuted) == multiset(signals)
    ensures var counts := MetricCounts(signals);
            && counts.Valid() && MetricCounts(permuted) == counts
            && IsLargest(counts.successful, signals, SuccessfulOf)
            && (IsLargest(counts.included, signals, IncludedOf) || counts.included == counts.successful)
            && (forall i, c :: 0 <= i < |signals| && c in IncludedOf(signals[i]) ==> c <= counts.included)
  {
    LargestIsLargest(signals, IncludedOf);
    LargestIsLargest(signals, SuccessfulOf);
    LargestOfPermutation(signals, permuted, IncludedOf);
    LargestOfPermutation(signals, permuted, SuccessfulOf);
  }

  /** The same by the names of the metrics: no node shows more, and some node shows as much. */
  lemma CountsByMetric(signals: seq<Signal>)
    ensures forall s :: s in signals ==> var counts := MetricCounts(signals);
              && Rounded(s.sdkTxCount) <= counts.included && Rounded(s.consensusTotal) <= counts.included
              && Rounded(s.mempoolSuccessful) <= counts.successful && Rounded(s.sdkTxSuccessful) <= counts.successful
    ensures var n := MetricCounts(signals).successful;
            n > 0 ==> exists s :: s in signals && (n == Rounded(s.mempoolSuccessful) || n == Rounded(s.sdkTxSuccessful))
    ensures var counts := MetricCounts(signals);
            counts.included > counts.successful ==>
              exists s :: s in signals && (counts.included == Rounded(s.sdkTxCount) || counts.included == Rounded(s.consensusTotal))
  {
    MetricCountsMean(signals, signals);
    LargestIsLargest(signals, IncludedOf);
    forall s | s in signals
      ensures var counts := MetricCounts(signals);
              && Rounded(s.sdkTxCount) <= counts.included && Rounded(s.consensusTotal) <= counts.included
              && Rounded(s.mempoolSuccessful) <= counts.successful && Rounded(s.sdkTxSuccessful) <= counts.successful
    {
      var i :| 0 <= i < |signals| && signals[i] == s;
      assert IncludedOf(s)[0] in IncludedOf(signals[i]) && IncludedOf(s)[1] in IncludedOf(signals[i]);
      assert SuccessfulOf(s)[0] in SuccessfulOf(signals[i]) && SuccessfulOf(s)[1] in SuccessfulOf(signals[i]);
    }
  }

  lemma {:induction false} LargestOfPermutation(a: seq<Signal>, b: seq<Signal>, candidates: Signal -> seq<nat>)
    requires multiset(b) == multiset(a)
    ensures Largest(b, candidates) == Largest(a, candidates)
  {
    SameElements(a, b);
    LargestIsLargest(a, candidates);
    LargestIsLargest(b, candidates);
    LargestAtMost(a, b, candidates);
    LargestAtMost(b, a, candidates);
  }

  lemma {:induction false} LargestAtMost(a: seq<Signal>, b: seq<Signal>, candidates: Signal -> seq<nat>)
    requires IsLargest(Largest(a, candidates), a, candidates) && IsLargest(Largest(b, candidates), b, candidates)
    requires forall s :: s in a ==> s in b
    ensures Largest(a, candidates) <= Largest(b, candidates)
  {
    if Largest(a, candidates) != 0 {
      var i :| 0 <= i < |a| && Largest(a, candidates) in candidates(a[i]);
      assert a[i] in b;
      var j :| 0 <= j < |b| && b[j] == a[i];
      assert Largest(a, candidates) in candidates(b[j]);
    }
  }

  // ----- the corrected result

  /** What Catalyst reported; the counts are taken as they come. */
  datatype Overall = Overall(total: int, included: int, successful: int, failed: int, runtime: int)

  datatype Inputs = Inputs(
    overall: Overall, txIndexer: string, rawSummary: Option<AuditSummary>, signals: seq<Signal>, stopped: string,
    window: Option<Observation>)

  /** The source label of a corrected result. */
  datatype Source = Catalyst | RawTxAudit | AppMetrics

  datatype Corrected = Corrected(
    source: Source, total: int, included: int, successful: int, failed: int, fromWindow: bool, mismatch: bool)

  function UsableRaw(inp: Inputs): Option<AuditSummary> {
    if inp.txIndexer == "null" then None else inp.rawSummary
  }

  function UsesAppMetrics(overall: Overall, included: int, successful: int): bool {
    if included <= 0 && successful <= 0 then false
    else if overall.total == 0 then true
    else if successful > overall.successful then true
    else overall.included == 0 && included > 0 && overall.failed > 0
  }

  function AtLeast(a: int, b: int): int { if a < b then b else a }

  /** The window replaces the counts when Catalyst was stopped before it reported a runtime. */
  function UsesWindow(inp: Inputs): bool {
    inp.overall.runtime == 0 && inp.stopped != "" && inp.window.Some? && Accepted(inp.window.value)
  }

  function BeforeWindow(inp: Inputs): Corrected {
    var o, raw, metrics := inp.overall, UsableRaw(inp), MetricCounts(inp.signals);
    if raw.Some? && raw.value.queried > 0 then
      Corrected(RawTxAudit, raw.value.queried, raw.value.found, raw.value.successful, raw.value.failed, false, false)
    else if metrics.ok && UsesAppMetrics(o, metrics.included, metrics.successful) then
      var total := AtLeast(AtLeast(o.total, metrics.included), metrics.successful);
      Corrected(AppMetrics, total, metrics.included, metrics.successful,
                NonNegative(total - metrics.successful), false, false)
    else Corrected(Catalyst, o.total, o.included, o.successful, o.failed, false, false)
  }

  function OverrideByWindow(out: Corrected, w: Observation): Corrected {
    var included := if w.included > 0 then w.included else out.included;
    var successful := if w.successful > 0 then w.successful else out.successful;
    var windowTotal := AtLeast(included, successful);
    var total := if windowTotal > 0 then windowTotal else out.total;
    Corrected(out.source, total, included, successful, NonNegative(total - successful), true, false)
  }

  function CorrectedOf(inp: Inputs): Corrected {
    var out := if UsesWindow(inp) then OverrideByWindow(BeforeWindow(inp), inp.window.value) else BeforeWindow(inp);
    var o := inp.overall;
    out.(mismatch := o.included != out.included || o.successful != out.successful || o.failed != out.failed)
  }

  method SummarizeCorrectedLoadTest(inp: Inputs) returns (r: Option<Corrected>)
    ensures r.None? <==> inp.overall.total == 0 && (inp.txIndexer == "null" || inp.rawSummary.None?) && inp.signals == []
    ensures r.Some? ==> r.value == CorrectedOf(inp)
  {
    var overall := inp.overall;
    if overall.total == 0 && UsableRaw(inp).None? && |inp.signals| == 0 {
      return None;
    }
    var out := CorrectFromSources(inp);
    if overall.runtime == 0 && inp.stopped != "" && inp.window.Some? && Accepted(inp.window.value) {
      out := CorrectFromWindow(out, inp.window.value);
    }
    var differs := overall.included != out.included || overall.successful != out.successful || overall.failed != out.failed;
    r := Some(out.(mismatch := differs));
  }

  method CorrectFromSources(inp: Inputs) returns (out: Corrected)
    ensures out == BeforeWindow(inp)
  {
    var overall, raw := inp.overall, UsableRaw(inp);
    var total, included, successful, failed := overall.total, overall.included, overall.successful, overall.failed;
    var source := Catalyst;
    if raw.Some? && raw.value.queried > 0 {
      source := RawTxAudit;
      total, included := raw.value.queried, raw.value.found;
      successful, failed := raw.value.successful, raw.value.failed;
    } else {
      var metrics := AppMetricLoadCounts(inp.signals);
      if metrics.ok && UsesAppMetrics(overall, metrics.included, metrics.successful) {
        source := AppMetrics;
        included, successful := metrics.included, metrics.successful;
        if total < included {
          total := included;
        }
        if total < successful {
          total := successful;
        }
        failed := NonNegative(total - successful);
      }
    }
    out := Corrected(source, total, included, successful, failed, false, false);
  }

  method CorrectFromWindow(before: Corrected, w: Observation) returns (out: Corrected)
    ensures out == OverrideByWindow(before, w)
  {
    var total, included, successful := before.total, before.included, before.successful;
    if w.included > 0 {
      included := w.included;
    }
    if w.successful > 0 {
      successful := w.successful;
    }
    var windowTotal := included;
    if windowTotal < successful {
      windowTotal := successful;
    }
    if windowTotal > 0 {
      total := windowTotal;
    }
    out := Corrected(before.source, total, included, successful, NonNegative(total - successful), true, false);
  }

  /** Inputs as the pipeline makes them: the audit summary adds up, and the window comes from
      the monitor. */
  ghost predicate FromPipeline(inp: Inputs, cfg: Config) {
    && (inp.rawSummary.Some? ==>
          var s := inp.rawSummary.value; s.found == s.successful + s.failed <= s.queried)
    && (inp.window.Some? && inp.window.value.reached ==> FromScrape(cfg, inp.window.value))
  }

  // ----- which source decides, and what it yields

  /** The raw audit counts when the indexer keeps transactions and some were queried. */
  ghost predicate AuditDecides(inp: Inputs) {
    inp.txIndexer != "null" && inp.rawSummary.Some? && inp.rawSummary.value.queried > 0
  }

  /** The metrics count when Catalyst reports nothing, fewer successes, or only failures. */
  ghost predicate MetricsDecide(inp: Inputs, m: Counts) {
    && !AuditDecides(inp) && m.included > 0
    && (inp.overall.total == 0 || inp.overall.successful < m.successful || (inp.overall.included == 0 && inp.overall.failed > 0))
  }

  /** The window counts when Catalyst was stopped without a runtime and the window is accepted. */
  ghost predicate WindowCounts(inp: Inputs) {
    && inp.overall.runtime == 0 && inp.stopped != "" && inp.window.Some? && inp.window.value.reached
    && (inp.window.value.minimum <= 0 || inp.window.value.durationSatisfied)
  }

  /** When each source decides, on the reported counts alone, and the counts that follow. */
  lemma SourceDecides(inp: Inputs)
    ensures var out, o, m := CorrectedOf(inp), inp.overall, MetricCounts(inp.signals);
            && (out.source == RawTxAudit <==> AuditDecides(inp))
            && (out.source == AppMetrics <==> MetricsDecide(inp, m))
            && (out.fromWindow <==> WindowCounts(inp))
            && (AuditDecides(inp) && !WindowCounts(inp) ==>
                  var raw := inp.rawSummary.value;
                  && out.total == raw.queried && out.included == raw.found
                  && out.successful == raw.successful && out.failed == raw.failed)
            && (MetricsDecide(inp, m) && !WindowCounts(inp) ==>
                  && out.included == m.included && out.successful == m.successful
                  && out.total >= o.total && out.total >= m.included && (out.total == o.total || out.total == m.included))
            && (!AuditDecides(inp) && !MetricsDecide(inp, m) && !WindowCounts(inp) ==>
                  && out.total == o.total && out.included == o.included
                  && out.successful == o.successful && out.failed == o.failed)
            && (out.mismatch <==> out.included != o.included || out.successful != o.successful || out.failed != o.failed)
  {
    MetricCountsMean(inp.signals, inp.signals);
  }

  /** What the metrics have counted is not lost: without a usable audit and without the window
      the result has at least their successes, and at least Catalyst's. */
  lemma MetricsAreNotLost(inp: Inputs)
    requires !AuditDecides(inp) && !WindowCounts(inp) && inp.overall.successful >= 0
    ensures CorrectedOf(inp).successful >= MetricCounts(inp.signals).successful
    ensures inp.overall.total > 0 && inp.overall.included > 0 ==> CorrectedOf(inp).successful >= inp.overall.successful
  {
    MetricCountsMean(inp.signals, inp.signals);
  }

  /** Conservation: every corrected result that is not plain Catalyst has successful <=
      included <= total, and where the counts come from the metrics or the window the failed
      ones are the rest. Only a result that differs from Catalyst's is marked. */
  lemma CorrectedIsOrdered(inp: Inputs, cfg: Config)
    requires FromPipeline(inp, cfg)
    ensures var out := CorrectedOf(inp);
            && (out.source != Catalyst || out.fromWindow ==> 0 <= out.successful <= out.included <= out.total)
            && (out.source == AppMetrics || out.fromWindow ==> out.failed == out.total - out.successful)
            && (out.source == RawTxAudit && !out.fromWindow ==> out.failed == out.included - out.successful)
            && (out.source == Catalyst && !out.fromWindow ==> !out.mismatch && out.total == inp.overall.total)
            && (!out.mismatch ==> out.included == inp.overall.included && out.successful == inp.overall.successful)
  {
    MetricCountsMean(inp.signals, inp.signals);
  }

  /** An accepted window decides the counts by itself: whatever Catalyst, the audit or the
      metrics said, the result is the window's own, meets the target and loses nothing. */
  lemma WindowDecides(inp: Inputs, cfg: Config)
    requires FromPipeline(inp, cfg) && UsesWindow(inp)
    ensures var out, w := CorrectedOf(inp), inp.window.value;
            && out.fromWindow && out.successful == w.successful >= cfg.target > 0
            && out.total == out.included == w.included
            && out.failed == w.included - w.successful
  {
  }
}
