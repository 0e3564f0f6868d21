# Ironbird: verified model

A Dafny model of the parts of Ironbird that compute claims rather than drive other
programs, with proofs of those claims. Four parts belong to the local report runner:

- the **measurement engine** (`Intervals`, `Sampler`, `SamplerTheorems`, `Accounting`,
  `WindowAccounting`, `AbciCalls`, `Baseline`, `PhaseOverlap`): scraped counters become
  wall-clock intervals, which are clipped, merged and split into ABCI-busy and non-ABCI time;
- the **load-window monitor** (`Monitor`): a goroutine, a guarded last
  observation, a one-slot channel and the scenario that polls, waits and stops, in every
  interleaving;
- the **Catalyst log builder** (`CatalystLog`): a one-pass matcher of start and completion
  lines, proved equal to a relation over the whole log;
- **printers and summaries** (`EnvFile`, `Statistics`, `TxCounts`, `Sums`, `TreeDBTiming`).

Four smaller ones belong to the service: the testnet workflow's provider lifecycle
(`ProviderState`, with the local runner's use of it, and `TestnetWorkflow`), the image
tag (`BuildTag`) and the cleanup job (`Cleanup`). `Common`, `Order` and `Text` hold shared
definitions, sorting and string order.

`dafny verify dfyconfig.toml` checks everything.

## How to read it

- A time is a whole number of nanoseconds and 0 is Go's zero time. An interval is half-open,
  so its measure is the size of a finite set of instants. Seconds are exact: whole
  nanoseconds for clock time, reals where the source divides.
- A Go map is walked by taking any remaining key; a library sort is some sorted permutation.
  The theorems then show that neither choice is visible in the results.
- Scrapes, HTTP and RPC answers, page requests and activity results are inputs and may fail.
- Proofs by induction are written out; Dafny's automatic induction is switched off wherever it
  would apply.
- Objects the source updates in place are classes (`MetricSampler`, `TimingBuilder`): their
  methods state the whole new state, and lemmas about runs say what that state means. The
  captured variables of the monitor's `observe` closure that belong to the sampler are the
  fields of `MetricSampler`.
- The shell that reads the environment file follows sections 2.2.1 to 2.2.3 of the
  POSIX.1-2017 Shell Command Language; anything but assignments and comments, and anything
  a shell would expand, is rejected.

## Where the code does less than one might expect

Each of these has its exact condition, for all inputs, and a failing input.

- The note that the busy union is an upper bound (cmd/local-report-runner/main.go:5495) does
  not hold for calls that outlive a scrape: the counters move when a call ends, so the gap in
  which a long call only runs may stay uncovered. The union contains the calls exactly when
  some call ends in every gap that a call runs in (`BusyBoundsCalls`). Its length is that of
  the gaps in which some call ends (`BusyInClosedForm`), so the published seconds bound the
  calls exactly when they run no longer than those gaps (`BusyBoundsSeconds`);
  `LongCallIsMissed` has a union of 2 for 3 busy instants.
- In terms of counters, activity is covered exactly when one rises in every gap that holds
  some (`SamplerSoundness`); a counter reset inside a gap hides it (`ResetHidesActivity`).
- The window delta is the sum of the sample deltas exactly when the values that vanish with
  their series add up to zero, or to the first value when the last sample lacks the series
  (`Telescoping`, `DroppedSeriesBreaksTelescoping`).
- A repeated send start or processing line replaces an open one, which is then never paired,
  although the summary counts it as a start. Starts are open or matched exactly when no line
  reopens an open block (`StartFate`, `SendTotals`, `ReopenedStartIsNotCounted`).
- Sourcing the environment file yields exactly its non-blank entries when, and only when,
  their names are shell identifiers (`RoundTrip`, `DashedNameIsNotSourced`); names are not checked or quoted.
- A target fraction above one would be treated as one (`FractionGuarantee`, `AboveOne`); the
  flag check keeps it out.
- An image tag identifies its build, among all requests with dash-free shas, exactly when it
  is a module tag with at most one override and that one is clean (`TagIdentifiesBuild`,
  `UncleanCollides`, `BothOverridesCollide`). Among requests with any sha it does exactly
  when it carries no override, its sha does not read as one and the tag does not read as that
  of a cometbft request (`TagIdentifiesBuildForAnySha`, `DashedVersionsCollide`). A cometbft
  tag never does (`CometTagNeverIdentifies`).
- A cleanup name prefix longer than the group name hides protected droplets of the group
  (`LongPrefixMissesProtection`); with a shorter one whole testnets are protected
  (`GroupProtection`).

## Model

| member | source | states |
|---|---|---|
| `Intervals.ClipIsIntersection` | cmd/local-report-runner/main.go:2434-2444 | A recorded interval clipped to the window covers exactly the instants it shares with the window; it is dropped exactly when there are none. |
| `Intervals.MergeClipped` | cmd/local-report-runner/main.go:2455-2478 | The sorted in-place merge returns strictly separated, increasing, non-empty intervals that cover exactly the input's instants, for every list of non-empty intervals. |
| `Intervals.SeparatedMeasure` | cmd/local-report-runner/main.go:2446-2453 | The summed lengths of separated intervals are the number of instants they cover. |
| `Intervals.UnionLength` | cmd/local-report-runner/main.go:2446-2453 | The union seconds are the measure of the set of instants covered by the input. |
| `Intervals.SeparatedUnique` | cmd/local-report-runner/main.go:2455-2478 | A set of instants has only one separated list, so input order and duplication cannot show in a merge result. |
| `Sampler.TallyActivity` | cmd/local-report-runner/main.go:2627-2645 | Whatever the map order, the methods tallied are those with a positive delta of a timing counter, each with a positive count or sum. |
| `Sampler.AbciMethodsWithActivity` | cmd/local-report-runner/main.go:2622-2655 | The sorted list of exactly those methods, independent of map order. |
| `Sampler.MetricSampler.constructor` | cmd/local-report-runner/main.go:2546-2564 | Seeding from the baseline scrape is one step of the sampler that emits nothing. |
| `Sampler.MetricSampler.Observe` | cmd/local-report-runner/main.go:2503-2523 | One scrape advances the held points and the emitted intervals as the step function says: failed, empty and zero-time scrapes change nothing. |
| `Sampler.MetricSampler.AppendGap` | cmd/local-report-runner/main.go:2525-2544 | A gap between two usable snapshots appends one interval for each method that rose, in order of name. |
| `SamplerTheorems.HoldsLatest` | cmd/local-report-runner/main.go:2503-2523 | After any run of scrapes, the point held for a node is its latest usable snapshot, and there is one exactly when the node was ever usable. |
| `SamplerTheorems.OnlyGoodSnapshotsCount` | cmd/local-report-runner/main.go:2510-2521 | A failed, empty or nameless snapshot changes nothing; any other is held from then on. |
| `SamplerTheorems.EmittedExactly` | cmd/local-report-runner/main.go:2503-2544 | Refinement over whole runs: an interval of a node and method is emitted if and only if it spans the gap between two successive usable scrapes of that node and a timing counter of the method rose across the gap. |
| `SamplerTheorems.NeverOverlap` | cmd/local-report-runner/main.go:2503-2544 | In a time-ordered run the intervals of one node and method never overlap. |
| `SamplerTheorems.CoverageOfInstant` | cmd/local-report-runner/main.go:2503-2544 | An instant between two successive usable scrapes is covered exactly when some method rose across that gap. |
| `SamplerTheorems.SamplerSoundness` | cmd/local-report-runner/main.go:2503-2564 | For a node usable at both ends of a run, every active instant is covered if and only if a counter of the node rose across every gap that holds activity. |
| `Accounting.SortedSetSummary` | cmd/local-report-runner/main.go:2480-2490 | The joined summary of a set does not depend on map order. |
| `Accounting.OriginsMean` | cmd/local-report-runner/main.go:2416-2422 | The origins of a selection are the provenances of its clipped intervals, or their sources where they have none, and never empty. |
| `Accounting.ClassUnion` | cmd/local-report-runner/main.go:2401-2425 | Seconds, count and provenance of a class are the measure, the number and the joined origins of the node's clipped intervals of that class; nothing without a window or a class. |
| `Accounting.GroupClips` | cmd/local-report-runner/main.go:2358-2374 | The grouping map holds, for each key, exactly the clipped intervals of that key in recorded order, and no empty group. |
| `Accounting.SummarizeAttributions` | cmd/local-report-runner/main.go:2348-2399 | One row for each (class, method, source, provenance) that has a clipped interval, with the count and the measure of that group's intervals, in key order. |
| `Accounting.AttributionUnique` | cmd/local-report-runner/main.go:2376-2399 | The table is determined by the intervals: map order and sort algorithm do not show. |
| `Accounting.AttributionConservation` | cmd/local-report-runner/main.go:2348-2425 | For every class the group counts add up to the class count, each group's union is at most the class union, and the class union is at most the sum of its groups' unions and at most the window. |
| `WindowAccounting.AccountNode` | cmd/local-report-runner/main.go:5448-5504 | The row of one validator, read off the node's clipped intervals: the class is exact if and only if there are intervals and their joined origins read exact_event, approximate if and only if there are none, else a bounded sample; busy union, non-ABCI time, overlap and residual are the stated measures and excesses, each present exactly in its class; with the attribution table. |
| `WindowAccounting.ExactSplit` | cmd/local-report-runner/main.go:5477-5496 | Busy union and non-ABCI time add up to the window, the non-ABCI time is the measure of the uncovered instants (so the clamp at zero never bites), and the busy union and count agree with the attribution rows. |
| `WindowAccounting.BusyIsUpperBound` | cmd/local-report-runner/main.go:5492-5496 | Sampler and accounting together: the busy union contains a given set of active instants of the window if and only if some timing counter rose in every gap that holds one of them; then it is at least the true busy time and the non-ABCI time at most the true idle time. |
| `AbciCalls.CoveredWhenACallEnds` | cmd/local-report-runner/main.go:2503-2544 | For counters that report calls when they end: an instant of a gap is covered if and only if some call of the node ended between the two readings that close the gap. |
| `AbciCalls.BusyBoundsCalls` | cmd/local-report-runner/main.go:5492-5496 | The published upper bound as a containment, over the calls themselves: the busy union contains the running time of a set of calls if and only if in every gap that one of them runs in some call of the node ends; then both published bounds hold for them. |
| `AbciCalls.BusyInClosedForm` | cmd/local-report-runner/main.go:2446-2453 | The busy union is the gaps in which some call of the node ends, whole, and its seconds are the sum of their lengths. |
| `AbciCalls.BusyBoundsSeconds` | cmd/local-report-runner/main.go:5492-5496 | The published bounds in seconds: both hold for a set of calls if and only if these run no longer than the gaps in which some call ends, that is, the running time missed elsewhere is at most the idle time counted as busy. |
| `WindowAccounting.SampledProvenance` | cmd/local-report-runner/main.go:2525-2544 | Rows built from scrapes are always labelled bounded_sample, never exact_event. |
| `WindowAccounting.SampledRows` | cmd/local-report-runner/main.go:5477-5503 | A row built from scrapes is a bounded sample whenever it has intervals, approximate otherwise, and never has an overlap. |
| `Baseline.UsableMetricSnapshots` | cmd/local-report-runner/main.go:2570-2584 | Keeps exactly the usable snapshots, in order. |
| `Baseline.AppendMissingUsableBaseline` | cmd/local-report-runner/main.go:2586-2605 | Appends, in order, each usable snapshot whose node has no entry yet; the index by name agrees with the list throughout. |
| `Baseline.LookupAppendMissing` | cmd/local-report-runner/main.go:2586-2605 | An entry that is there is never replaced; a missing one becomes the first usable snapshot of the new scrape. |
| `Baseline.BaselineIsFirstUsable` | cmd/local-report-runner/main.go:2586-2605 | Over every run of scrapes the baseline entry of a node is its first usable snapshot for ever, and there is none for a node that was never usable. |
| `Baseline.DeltaSumFormula` | cmd/local-report-runner/main.go:4529-4535 | The sum of successive sample deltas is last minus first plus the values that vanished with their series. |
| `Baseline.Telescoping` | cmd/local-report-runner/main.go:4529-4535 | For every run and series: the window delta against the baseline equals the sum of the successive sample deltas if and only if the values that vanish with the series add up to zero, or to the first value when the last sample lacks the series. |
| `Baseline.TelescopingCases` | cmd/local-report-runner/main.go:4529-4535 | A series that stays once seen always telescopes, whatever its sign; a non-negative one that the last sample has telescopes if and only if it never disappears at a non-zero value. |
| `PhaseOverlap.SummarizePhaseOverlaps` | cmd/local-report-runner/main.go:2285-2322 | One row for every measurable span, in order; no rows without a window. |
| `PhaseOverlap.RowsOfSpans` | cmd/local-report-runner/main.go:2290-2320 | One row for each span with two recorded times in order, at the place its predecessors leave it, and for no other. |
| `PhaseOverlap.PartsAreMeasures` | cmd/local-report-runner/main.go:2303-2317 | Before, in and after are the measures of the phase's instants on each side of and inside the window, and add up to the phase length. |
| `PhaseOverlap.ClassificationAgrees` | cmd/local-report-runner/main.go:2324-2341 | Each label holds exactly when the matching parts are positive or make up the whole phase; outside_window is never produced. |
| `CatalystLog.TimingBuilder.constructor` | cmd/local-report-runner/main.go:4823-4833 | A new builder describes the empty log. |
| `CatalystLog.TimingBuilder.Observe` | cmd/local-report-runner/main.go:4835-4914 | After any sequence of lines every counter, table and duration list of the builder is the one defined over the whole log. |
| `CatalystLog.TimingBuilder.ObserveClock` | cmd/local-report-runner/main.go:4835-4853 | The line counters and the earliest and latest timestamps after one line. |
| `CatalystLog.TimingBuilder.ObserveSend` | cmd/local-report-runner/main.go:4856-4881 | The send counters, both start tables, the durations and the unmatched count after one line. |
| `CatalystLog.TimingBuilder.ObserveBlock` | cmd/local-report-runner/main.go:4882-4913 | The block counters, both block tables and the three lag lists after one line. |
| `CatalystLog.OpenMapExact` | cmd/local-report-runner/main.go:4835-4914 | Whole-log meaning of the tables: a line holds the open entry of its block exactly when no later line reopened or removed it. |
| `CatalystLog.MatchedExactly` | cmd/local-report-runner/main.go:4856-4913 | Refinement: the one-pass matching finds exactly the pairs of a declarative relation over the list (a completion with the latest still-open start of its block that is not later in time), in the order of the completions. |
| `CatalystLog.SendPairMeans` | cmd/local-report-runner/main.go:4856-4881 | A matched pair by its events: a completion and the latest start of the same numbered block before it, not later in time, that no completion between them could take. |
| `CatalystLog.BlockPairMeans` | cmd/local-report-runner/main.go:4889-4912 | The same for processing and processed lines. |
| `CatalystLog.OpenAnnouncementMeans` | cmd/local-report-runner/main.go:4882-4888 | An announcement is open until its height is announced again or processed, at whatever time. |
| `CatalystLog.PairedOneToOne` | cmd/local-report-runner/main.go:4856-4913 | A start is matched at most once and a completion at most once. |
| `CatalystLog.CountsConserved` | cmd/local-report-runner/main.go:4856-4913 | Over every log: starts = open + matched + superseded, and completions = matched + unmatched. |
| `CatalystLog.DurationsOfPairs` | cmd/local-report-runner/main.go:4874-4878 | Entry p of the durations is the time between the two lines of matched pair p. |
| `CatalystLog.SendTotals` | cmd/local-report-runner/main.go:4835-4914 | For every state the builder reaches: completions = durations + unmatched, starts = open + durations + superseded, starts = open + durations if and only if no line reopens an open block, the two start tables have equal keys, and no duration is negative. |
| `CatalystLog.ClockCounters` | cmd/local-report-runner/main.go:4835-4846 | The line counters are the numbers of non-blank and of timestamped lines. |
| `CatalystLog.SendCounters` | cmd/local-report-runner/main.go:4856-4881 | The send counters are the numbers of start and completion lines of numbered blocks. |
| `CatalystLog.BlockCounters` | cmd/local-report-runner/main.go:4882-4913 | The block counters are the numbers of announcement, processing and processed lines of numbered heights. |
| `CatalystLog.MatchedTxsOfPairs` | cmd/local-report-runner/main.go:4874-4878 | The matched transactions are the sent transactions of the matched completions. |
| `CatalystLog.StartFate` | cmd/local-report-runner/main.go:4856-4913 | Every line that opens a block is exactly one of: still open, paired, or reopened by a later line while it was open. |
| `CatalystLog.SupersededIsReopened` | cmd/local-report-runner/main.go:4864-4865 | The superseded count is zero if and only if no line of the log reopens a block that is open. |
| `CatalystLog.SupersededStartIsLost` | cmd/local-report-runner/main.go:4864-4881 | While a newer start of the same block is open, a completion pairs with a line x if and only if x is the newer start and it is not later in time; the older start is never taken. |
| `CatalystLog.EventLagFromOpenAnnouncement` | cmd/local-report-runner/main.go:4882-4898 | A processing line's lag is measured from the one announcement of its height that was neither repeated nor cleared. |
| `CatalystLog.AnnouncedPairsExact` | cmd/local-report-runner/main.go:4889-4898 | The announced pairs are exactly the processing lines with an open announcement of their height that is not later. |
| `CatalystLog.EventLagsOfPairs` | cmd/local-report-runner/main.go:4896-4898 | Entry p of the event lags is the time between the lines of announced pair p, in the order of the processing lines. |
| `CatalystLog.ChainLagsOfLines` | cmd/local-report-runner/main.go:4899-4901 | Entry p of the chain lags is the time from the chain timestamp to the p-th processing line that has one not later than itself. |
| `EnvFile.ShellEnvFile` | cmd/local-report-runner/main.go:7295-7312 | The text is the header and one quoted assignment for each kept entry in name order, whatever the map order. |
| `EnvFile.BlankMeans` | cmd/local-report-runner/main.go:7298-7300 | A name or value is left out exactly when trimming both ends leaves nothing. |
| `EnvFile.SpacesAreWhite` | cmd/local-report-runner/main.go:7298-7300 | What is trimmed are exactly the characters with the Unicode White_Space property. |
| `EnvFile.ReadQuoted` | cmd/local-report-runner/main.go:7314-7319 | A quoted value is read back by the shell as itself, whatever quotes, newlines or # it holds. |
| `EnvFile.RoundTrip` | cmd/local-report-runner/main.go:7295-7319 | Sourcing the file yields exactly the entries with non-blank names and values if and only if all their names are shell identifiers. |
| `EnvFile.AssignmentsInOrder` | cmd/local-report-runner/main.go:7295-7312 | For identifier names the file reads as one assignment each, in ascending order. |
| `Statistics.SummarizeDurations` | cmd/local-report-runner/main.go:4978-4996 | Count, total, average, P50, P95 and maximum of the durations; nothing for an empty list. |
| `Statistics.NearestRank` | cmd/local-report-runner/main.go:4998-5016 | For 0 < p < 1 and n samples, the percentile is the one sample with at least p*n samples at most it and fewer than p*n below it (if and only if). |
| `Statistics.RankInRange` | cmd/local-report-runner/main.go:5008-5014 | The rank is in range before the clamps, so they never take effect. |
| `Statistics.PercentileMonotone` | cmd/local-report-runner/main.go:4998-5016 | The percentile is monotone in p and between the least and the largest sample. |
| `Statistics.StatsAreConsistent` | cmd/local-report-runner/main.go:4978-4996 | min <= P50 <= P95 <= max, the average lies between min and max, and a permutation of the durations gives the same summary. |
| `Statistics.PercentilesMean` | cmd/local-report-runner/main.go:4988-4995 | P50 and P95 are the nearest-rank percentiles at 0.5 and 0.95 of the recorded durations. |
| `Statistics.AverageMeans` | cmd/local-report-runner/main.go:4984-4991 | The average times the count is the sum of the recorded durations. |
| `Statistics.QuantileMonotone` | scripts/analyze_ironbird_durable_m4.py:47-56 | The interpolated quantile is monotone in the fraction and within the extremes of the samples. |
| `Statistics.QuantileAtSample` | scripts/analyze_ironbird_durable_m4.py:47-56 | At every sample position the quantile is that sample. |
| `Statistics.QuantileIsWeighted` | scripts/analyze_ironbird_durable_m4.py:51-56 | Between two neighbouring samples the quantile is their average, weighted by the place between them. |
| `Statistics.QuantilePermutation` | scripts/analyze_ironbird_durable_m4.py:47-56 | The quantile does not depend on the order of the samples. |
| `Statistics.BootstrapBoundsOrdered` | scripts/analyze_ironbird_durable_m4.py:92-95 | The reported bootstrap bounds are never inverted. |
| `Monitor.SentOnceWithoutBlocking` | cmd/local-report-runner/main.go:2820-2891 | In every interleaving exactly one observation is ever sent on done, at the goroutine's end, and the send always finds room. |
| `Monitor.ReachedIsFinal` | cmd/local-report-runner/main.go:2673-2686 | Once Last() reports a reached target it never changes again. |
| `Monitor.TargetIsReported` | cmd/local-report-runner/main.go:2837-2867 | In every state of every interleaving, with a positive target, Last() is reached if and only if the counts it shows meet the target, and these are the counts of the latest published scrape. |
| `Monitor.StopsAtFirstMeeting` | cmd/local-report-runner/main.go:2872-2878 | The monitor stops at the first scrape that meets the target: no earlier one did, and none follows. |
| `Monitor.DeliveredIsLast` | cmd/local-report-runner/main.go:2688-2710 | What Stop and Wait return is Last(), stays Last() and is the one value sent. For a positive target it tells the last scrape's counts and times, is reached if and only if its successful count meets the target, and its error is empty, the too-fast message or the text of the cancellation, each exactly when it applies; the drain-timeout message is never added. |
| `Monitor.CancelledMonitorProgresses` | cmd/local-report-runner/main.go:2874-2889 | After a cancel the goroutine can always step, every step except a tick brings its exit nearer, and once it has exited the waiting receive is enabled. |
| `Monitor.TargetIsLeast` | cmd/local-report-runner/main.go:5953-5968 | For a fraction in (0, 1] a count reaches the target exactly when it is at least that fraction of the intended count; otherwise the target is the intended count. |
| `Monitor.FractionGuarantee` | cmd/local-report-runner/main.go:5953-5968 | Reaching the target implies reaching the asked fraction if and only if the fraction is at most one, which lines 899-901 demand of the flag. |
| `Monitor.StopAndAcceptAgree` | cmd/local-report-runner/main.go:1694-1735 | In every interleaving a run stopped by the condition returns the very observation the condition saw, with at least the asked fraction of the intended transactions, and ends without error exactly when the window met the minimum duration (lines 1803-1812, 5946-5951). |
| `ProviderState.CodecRoundTrip` | util/util.go:67-104 | Decompressing undoes compressing, also for empty data; no state is both raw and packed. |
| `ProviderState.LaunchTestnet` | activities/testnet/testnet.go:166-305 | Exactly when launching fails, and exactly when the response, of a failed launch too, holds packed provider state. |
| `ProviderState.TeardownProvider` | activities/testnet/testnet.go:116-138 | Teardown reaches the provider exactly for packed state; empty state is skipped and any other form is an error. |
| `TestnetWorkflow.TeardownExactlyOnce` | workflows/testnet/testnet.go:286-336 | In every run, over success, every failure and cancellation at any point, there is at most one teardown, and a finished run has torn down exactly when it received a non-empty provider state. |
| `TestnetWorkflow.TeardownUsesLastState` | workflows/testnet/testnet.go:286-328 | The teardown call carries the last state received from create, launch or load balancer. It comes only after a started load test resolved or the context was cancelled, and for a testnet that came up only after its load test resolved, its time was over or the context was cancelled. |
| `TestnetWorkflow.AsksAsRequested` | workflows/testnet/testnet.go:187-314 | The load balancer is asked only when requested on DigitalOcean and a load test started only when requested, and once the workflow waits it has done both if and only if requested. |
| `TestnetWorkflow.EncodingDiscipline` | workflows/testnet/testnet.go:125-293 | On all paths each consumer is called with the form it decodes: raw and non-empty for launch, packed for load balancer, load test and teardown. |
| `TestnetWorkflow.CancelledWorkflowFinishes` | workflows/testnet/testnet.go:307-336 | A cancelled workflow can step from every unfinished place, and each of its steps brings it nearer to the end. |
| `ProviderState.RunScenario` | cmd/local-report-runner/main.go:1573-1626 | In the local runner: launch first with raw state, then the load test with the launch response, and teardown last and once, on every path that created a provider and does not keep it, with the load test's answer if it ran and gave one, else the launch's, failed or not, else the created state compressed. |
| `BuildTag.ReplaceCmdDetermines` | activities/builder/builder.go:130-152 | What the replacement command determines: for sdk versions (and, in a cometbft build, shas) without a space, two requests have the same command if and only if their overrides agree, and in a cometbft build their shas. |
| `BuildTag.GenerateTag` | activities/builder/builder.go:154-181 | The tag of a request, with sanitised override versions. |
| `BuildTag.BuildArguments` | activities/builder/builder.go:290-309 | The build argument map that the request yields. |
| `BuildTag.ArgumentsMean` | activities/builder/builder.go:290-309 | What each repository's build gets: the tag, the clone URL, the version or sha, and a replacement command exactly for cometbft builds and for requests with overrides. |
| `BuildTag.SpecsRead` | activities/builder/builder.go:125-128 | The replacement specs, as go mod edit reads them. |
| `BuildTag.TagIsCacheKey` | activities/builder/builder.go:154-181 | For cosmos-sdk, gaia and evm with a dash-free sha and override versions free of -, @ and /, two requests share a tag if and only if repo, sha and both overrides agree, so an existing image (lines 225-236) was built with the same arguments. |
| `BuildTag.TagIdentifiesBuild` | activities/builder/builder.go:154-181 | Exact condition: among all requests (module and cometbft, any overrides) with a dash-free sha, every request with this tag asks for the same build if and only if it is a module tag with at most one override and that override is free of -, @ and /. |
| `BuildTag.TagIdentifiesBuildForAnySha` | activities/builder/builder.go:154-181 | Exact condition against arbitrary shas too: among all requests, every one with this tag asks for the same build if and only if it is a module tag without overrides, no proper tail of its sha reads as an override, and the tag does not split as image, version and sha of a cometbft request. |
| `BuildTag.CometTagIgnoresOverrides` | activities/builder/builder.go:160-162 | For cometbft requests with dash-free shas and equal or dash-free images the tag determines image, version and sha only; two requests with one tag (sdk versions without a space) ask for the same build if and only if both overrides agree. |
| `BuildTag.CometTagNeverIdentifies` | activities/builder/builder.go:160-162 | For every cometbft request there is another with the same tag and a different build. |
| `Cleanup.GroupIsUptoThirdDash` | cmd/cleanup/main.go:61-68 | The group of a name is the text before its third dash, and a prefix of the name. |
| `Cleanup.FirewallSharesGroup` | cmd/cleanup/main.go:61-68 | A firewall named by a tag is in the group of the tag-... droplets if and only if the tag has at least three parts. |
| `Cleanup.ListAll` | cmd/cleanup/main.go:70-90 | Pagination terminates with the whole listing, and fails exactly when one of the pages it needs fails. |
| `Cleanup.GetSkippedDropletPrefixes` | cmd/cleanup/main.go:70-145 | The skip set is exactly the groups of prefix-bearing droplets that are tagged, unparsable or recent, in any listing order. |
| `Cleanup.CleanupResources` | cmd/cleanup/main.go:147-219 | The deletion requests are exactly the selected resources in listing order, none in a dry run, and the count is that of the requests that succeed (firewalls at lines 226-294 likewise). |
| `Cleanup.DeletedCounts` | cmd/cleanup/main.go:194-212 | The count is all requests exactly when every one succeeds, none exactly when every one fails, and additive over parts of the listing. |
| `Cleanup.SelectedIffUnprotected` | cmd/cleanup/main.go:171-183 | When both listings agree, a resource bearing the prefix is selected if and only if every prefix-bearing droplet of its group is untagged, has a readable creation time and is at least 1800 seconds old. |
| `Cleanup.GroupProtection` | cmd/cleanup/main.go:221-224 | When the name prefix is no longer than the group, that is every droplet of the group: whole testnets are kept or deleted. |
| `Cleanup.SelectionIsStable` | cmd/cleanup/main.go:135-141 | Protection by age only lapses: what is selected stays selected at any later time. |
| `Cleanup.LongPrefixMissesProtection` | cmd/cleanup/main.go:95-104 | The bound is exact: under any longer prefix a protected droplet of the group fails to keep the resource. |
| `TxCounts.TxHashes` | cmd/local-report-runner/main.go:6108-6120 | The hashes are distinct, are exactly the matches, and stand in order of first appearance. |
| `TxCounts.AuditRawTxs` | cmd/local-report-runner/main.go:6074-6106 | Exactly one audit for each hash, in that order: the first node that has it, else the last node asked, else the no-address error. |
| `TxCounts.SummarizeTxAudit` | cmd/local-report-runner/main.go:6219-6240 | Each figure counts what it names, and found = successful + failed <= queried. |
| `TxCounts.AppMetricLoadCounts` | cmd/local-report-runner/main.go:5741-5773 | The counts are the folded maxima of the candidates, with included raised to successful. |
| `TxCounts.MetricCountsMean` | cmd/local-report-runner/main.go:5741-5773 | Those maxima are the largest candidates of any node, successful <= included, ok holds exactly when one is positive, and the order of the nodes does not matter. |
| `TxCounts.CountsByMetric` | cmd/local-report-runner/main.go:5763-5772 | By name of metric: no node shows more than the counts, and some node shows as much. |
| `TxCounts.RoundedIsNearest` | cmd/local-report-runner/main.go:5775-5780 | A metric value counts as the nearest whole number, halves upwards, and never as a negative one. |
| `TxCounts.SummarizeCorrectedLoadTest` | cmd/local-report-runner/main.go:5646-5719 | Nothing exactly when Catalyst reports no transactions, the audit is absent or unusable and there are no signals; else the corrected result. |
| `TxCounts.SourceDecides` | cmd/local-report-runner/main.go:5661-5739 | On the reported counts alone: exactly when the audit, the metrics, the window or plain Catalyst decides, what counts follow from each, and that a mismatch is marked if and only if a count differs from Catalyst's. |
| `TxCounts.MetricsAreNotLost` | cmd/local-report-runner/main.go:5671-5684 | Without a usable audit and without the window the result has at least the successes the metrics have counted, and Catalyst's own when it included any. |
| `TxCounts.CorrectedIsOrdered` | cmd/local-report-runner/main.go:5646-5719 | For all inputs the pipeline can produce, a result not sourced from plain Catalyst has successful <= included <= total, failed is the rest in the app-metric and load-window cases, plain Catalyst counts pass through unmarked, and an unmarked result has Catalyst's included and successful counts. |
| `TxCounts.WindowDecides` | cmd/local-report-runner/main.go:5687-5702 | When an accepted window overrides the counts, the result is the window's own whatever Catalyst, the audit and the metrics said: total = included, successful is at least the target, and failed is the difference. |
| `Sums.AnyOrderAccumulates` | cmd/local-report-runner/main.go:7074-7087 | Adding amounts under their keys in any order gives each key the sum of its own amounts and the map the sum of all. |
| `TreeDBTiming.TotalsConserve` | cmd/local-report-runner/main.go:7074-7087 | The group totals are exactly the sums by (container, store, group), and add up to all timing deltas. |
| `TreeDBTiming.SecondsMean` | cmd/local-report-runner/main.go:7112-7123 | Names in nanoseconds, milliseconds or seconds give their delta in seconds, in that order of precedence; no other name is a timing. |
| `TreeDBTiming.GroupsMean` | cmd/local-report-runner/main.go:7125-7148 | Which metric names make which group, earlier groups winning. |
| `TreeDBTiming.TimingSummaryRows` | cmd/local-report-runner/main.go:7068-7110 | The rows come out the same for any map iteration order. |
| `TreeDBTiming.RowsConserveTotal` | cmd/local-report-runner/main.go:7068-7110 | Rows have unique keys, hold exactly the deltas of their key, are sorted for the report, and add up to the total of all timing deltas. |

## Left out

- Docker, HTTP, git, BuildKit, AWS, DigitalOcean and Temporal calls: their results are inputs of the model.
- gzip, JSON and YAML: compression is taken as an invertible codec that does not fail, so the fallback for a failing compression (workflows/testnet/testnet.go:174-177) is not reachable here.
- Floating-point rounding and integer overflow: sums, ratios and thresholds are exact, and `time.Duration` does not saturate.
- Field extraction from log lines and Prometheus text parsing: the model starts from parsed lines and series.
- The derived rates and texts around the proved figures: TPS, runtime and gas of corrected results and audits, candidate lists, notes, `build()`'s span and rate fields, cadence and backlog columns of the accounting rows.
- The loop over validators that maps the accounting row over the signals and sorts by name: it adds nothing to `AccountNode`.
- The TreeDB statistics collector that the monitor may run beside its own loop: it shares no state the monitor's theorems speak of.
- `metricDelta` on several matching series: it returns whichever the map yields first.
- Monitor.SentOnceWithoutBlocking: mutex and channel are steps of a state machine on values, so the memory model below them and aliasing of the cloned snapshots are not captured; scrape contents appear as the counts they yield.
- Monitor.CancelledMonitorProgresses: does not bound the number of steps to the exit, because a ready ticker may keep winning the select.
- TestnetWorkflow.TeardownExactlyOnce: a state machine on values; the error that the workflow returns, activity retries and the image build before the launch are not modelled, and a failing teardown ends the run like a successful one.
- AbciCalls.BusyBoundsCalls: the counters of a node are taken to report exactly its ended calls and never to be reset; a call's time is counted in nanoseconds.
- Cleanup.SelectedIffUnprotected: droplets that appear between the two listings are outside it; both listings are taken to agree.
- Cleanup.CleanupResources: models the droplet and the firewall loop, which differ in their client calls only.
- EnvFile.RoundTrip: NUL characters and invalid UTF-8 in values are not treated apart.
- BuildTag.TagIsCacheKey: speaks of the build arguments; the Dockerfile, chosen by image name, is not part of the tag of module repositories and not of this model.
- BuildTag.TagIdentifiesBuildForAnySha: any image name counts as configured, so the cometbft request that shares a tag may name an image a worker does not offer; repositories without an owner cannot be built and are left aside.
- BuildTag.ReplaceCmdDetermines: an sdk version that holds a space is outside it; git references hold none.
- Statistics.BootstrapBoundsOrdered: the geometric means that are fed to the quantile are arbitrary values here.
- The server, its database, the frontend, report writers, genesis and load-balancer domain construction: field copying or presentation.
