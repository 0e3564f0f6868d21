/** The load-window monitor as a state machine: the observing goroutine, the scenario that
    polls Last() and then waits or stops, and the parent context, interleaved freely. Each
    step is one access to shared state: the guarded last observation, the one-slot done
    channel, or the cancellation of the monitor's context. */
module Monitor {
  import opened Common

  datatype Config = Config(target: int, minDuration: int, started: int, stopAfterWindow: bool)

  datatype Observation = Observation(
    target: int, minimum: int, durationSatisfied: bool, reached: bool, startedAt: int, endedAt: int,
    included: int, successful: int, error: string)

  /** The application counts of one scrape: successful is included among included. */
  datatype Counts = Counts(included: nat, successful: nat, ok: bool)
  {
    predicate Valid() { successful <= included && (ok <==> included > 0 || successful > 0) }
  }

  /** One scrape: when it was done and what it counted. */
  datatype Reading = Reading(ended: int, counts: Counts)

  datatype ContextError = Canceled | DeadlineExceeded
  {
    function Text(): string { if Canceled? then "context canceled" else "context deadline exceeded" }
  }

  const TOO_FAST := "load window reached below minimum duration"
  const NO_TARGET := "target transaction count is not positive"
  const NOT_REACHED := "load window target not reached before drain timeout"

  const NO_OBSERVATION := Observation(0, 0, false, false, 0, 0, 0, 0, "")

  /** What one pass of the observe closure reports. */
  function Observe(cfg: Config, ended: int, counts: Counts): Observation {
    var satisfied := cfg.minDuration <= 0 || ended - cfg.started >= cfg.minDuration;
    var obs := Observation(cfg.target, cfg.minDuration, satisfied, false, cfg.started, ended,
                           counts.included, counts.successful, "");
    if counts.ok && counts.successful >= cfg.target then
      obs.(reached := true, error := if satisfied then "" else TOO_FAST)
    else obs
  }

  /** Where the monitor goroutine stands. */
  datatype Goroutine = Observing | Publishing | Deciding | Sending | Selecting | StopPublishing | StopSending | Exited

  /** How RunLoadTest ended, with the observation its stop condition saw. */
  datatype LoadOutcome = Completed(resultError: string) | StoppedByCondition(seen: Observation) | Failed

  /** Where the scenario stands. */
  datatype Scenario =
    | Running
    | LoadDone(outcome: LoadOutcome)
    | Waiting(outcome: LoadOutcome)
    | Stopping(outcome: LoadOutcome, timedOut: bool)
    | Returned(outcome: LoadOutcome, window: Observation)

  datatype State = State(
    cfg: Config,
    goroutine: Goroutine,
    latest: Observation,            // the goroutine's own copy
    last: Observation,              // guarded by the mutex: what Last() returns
    done: seq<Observation>,         // the one-slot channel
    sent: seq<Observation>,         // everything ever sent on it
    cancelled: Option<ContextError>,
    scenario: Scenario,
    annotated: bool,                // the drain-timeout message was added
    readings: seq<Reading>)         // every scrape the goroutine has made

  ghost predicate Init(s: State) {
    && s.cancelled == None && s.scenario == Running && !s.annotated && s.readings == []
    && if s.cfg.target <= 0 then
         && s.goroutine == Exited && s.done == s.sent == [s.last] && s.latest == s.last
         && s.last.target == s.cfg.target && s.last.minimum == s.cfg.minDuration
         && s.last.durationSatisfied == (s.cfg.minDuration <= 0)
         && !s.last.reached && s.last.error == NO_TARGET && s.last.startedAt == s.cfg.started
         && s.last.included == 0 && s.last.successful == 0
       else
         s.goroutine == Observing && s.latest == NO_OBSERVATION && s.last == NO_OBSERVATION && s.done == s.sent == []
  }

  datatype Step =
    // the goroutine
    | DoObserve(ended: int, counts: Counts)
    | DoPublish
    | DoDecide
    | DoSend
    | DoTick
    | DoNoticeCancel
    | DoStopPublish
    | DoStopSend
    // the scenario
    | StopConditionFires(stopped: bool)
    | LoadEnds(outcome: LoadOutcome)
    | CallWait
    | CallStop
    | DrainTimeout
    | Receive
    // the parent
    | ParentCancels(cause: ContextError)

  ghost predicate Enabled(s: State, step: Step) {
    match step
    case DoObserve(_, counts) => s.goroutine == Observing && counts.Valid()
    case DoPublish => s.goroutine == Publishing
    case DoDecide => s.goroutine == Deciding
    case DoSend => s.goroutine == Sending && |s.done| < 1
    case DoTick => s.goroutine == Selecting
    case DoNoticeCancel => s.goroutine == Selecting && s.cancelled.Some?
    case DoStopPublish => s.goroutine == StopPublishing
    case DoStopSend => s.goroutine == StopSending && |s.done| < 1
    case StopConditionFires(_) => s.scenario == Running && s.cfg.stopAfterWindow && s.last.reached
    case LoadEnds(outcome) => s.scenario == Running && !outcome.StoppedByCondition?
    case CallWait => s.scenario.LoadDone?
    case CallStop => s.scenario.LoadDone?
    case DrainTimeout => s.scenario.Waiting?
    case Receive => (s.scenario.Waiting? || s.scenario.Stopping?) && s.done != []
    case ParentCancels(_) => true
  }

  function Cancel(c: Option<ContextError>, cause: ContextError): Option<ContextError> {
    if c.Some? then c else Some(cause)
  }

  ghost function Apply(s: State, step: Step): State
    requires Enabled(s, step)
  {
    match step
    case DoObserve(ended, counts) =>
      s.(latest := Observe(s.cfg, ended, counts), goroutine := Publishing, readings := s.readings + [Reading(ended, counts)])
    case DoPublish => s.(last := s.latest, goroutine := Deciding)
    case DoDecide => s.(goroutine := if s.latest.reached then Sending else Selecting)
    case DoSend => s.(done := s.done + [s.latest], sent := s.sent + [s.latest], goroutine := Exited)
    case DoTick => s.(goroutine := Observing)
    case DoNoticeCancel =>
      s.(latest := if s.latest.error == "" then s.latest.(error := s.cancelled.value.Text()) else s.latest,
         goroutine := StopPublishing)
    case DoStopPublish => s.(last := s.latest, goroutine := StopSending)
    case DoStopSend => s.(done := s.done + [s.latest], sent := s.sent + [s.latest], goroutine := Exited)
    case StopConditionFires(stopped) =>
      s.(scenario := LoadDone(if stopped then StoppedByCondition(s.last) else Failed))
    case LoadEnds(outcome) => s.(scenario := LoadDone(outcome))
    case CallWait => s.(scenario := Waiting(s.scenario.outcome))
    case CallStop => s.(cancelled := Cancel(s.cancelled, Canceled), scenario := Stopping(s.scenario.outcome, false))
    case DrainTimeout => s.(cancelled := Cancel(s.cancelled, Canceled), scenario := Stopping(s.scenario.outcome, true))
    case Receive =>
      var obs := s.done[0];
      var annotate := s.scenario.Stopping? && s.scenario.timedOut && obs.error == "" && !obs.reached;
      s.(done := s.done[1..],
         scenario := Returned(s.scenario.outcome, if annotate then obs.(error := NOT_REACHED) else obs),
         annotated := s.annotated || annotate)
    case ParentCancels(cause) => s.(cancelled := Cancel(s.cancelled, cause))
  }

  ghost predicate Next(s: State, t: State) {
    exists step :: Enabled(s, step) && t == Apply(s, step)
  }

  /** Every interleaving: any sequence of enabled steps from an initial state. */
  ghost predicate IsRun(run: seq<State>) {
    && run != [] && Init(run[0])
    && forall i :: 0 < i < |run| ==> Next(run[i - 1], run[i])
  }

  // ----- the invariant

  /** What an observation says about the scrape it was made from: its counts, whether they meet
      the target, and whether the window has lasted long enough. */
  ghost predicate Tells(cfg: Config, o: Observation, r: Reading) {
    && o.included == r.counts.included && o.successful == r.counts.successful && o.successful <= o.included
    && o.startedAt == cfg.started && o.endedAt == r.ended && o.target == cfg.target && o.minimum == cfg.minDuration
    && (o.reached <==> r.counts.successful >= cfg.target)
    && (o.durationSatisfied <==> cfg.minDuration <= 0 || r.ended - cfg.started >= cfg.minDuration)
    && (o.reached ==> o.error == if o.durationSatisfied then "" else TOO_FAST)
  }

  /** A window that a scrape of a monitor with a target has told. */
  ghost predicate FromScrape(cfg: Config, o: Observation) {
    cfg.target > 0 && exists r :: Tells(cfg, o, r)
  }

  /** The observation of the last of these scrapes, the blank one before the first. */
  ghost predicate TellsLast(cfg: Config, o: Observation, readings: seq<Reading>) {
    if readings == [] then o == NO_OBSERVATION else Tells(cfg, o, readings[|readings| - 1])
  }

  /** The scrapes whose observation is published: all but one that is still under way. */
  ghost function Published(s: State): seq<Reading> {
    if s.goroutine == Publishing && s.readings != [] then s.readings[..|s.readings| - 1] else s.readings
  }

  /** None of these scrapes met the target. */
  ghost predicate AllShort(cfg: Config, readings: seq<Reading>) {
    forall k :: 0 <= k < |readings| ==> readings[k].counts.successful < cfg.target
  }

  /** What a monitor without a positive target hands out. */
  ghost predicate RefusesTarget(cfg: Config, o: Observation) {
    && !o.reached && o.error == NO_TARGET && o.included == 0 && o.successful == 0
    && o.target == cfg.target && o.minimum == cfg.minDuration && o.startedAt == cfg.started
    && (o.durationSatisfied <==> cfg.minDuration <= 0)
  }

  /** How an observation that ends the goroutine reports its end. */
  ghost predicate Final(s: State, o: Observation) {
    if s.cfg.target <= 0 then RefusesTarget(s.cfg, o)
    else if o.reached then o.error == if o.durationSatisfied then "" else TOO_FAST
    else s.cancelled.Some? && o.error == s.cancelled.value.Text()
  }

  /** The part of the invariant about what is observed and published. */
  ghost predicate Observed(s: State) {
    && (s.cfg.target <= 0 ==> s.goroutine == Exited && s.readings == [] && !s.last.reached)
    && (s.cfg.target > 0 ==>
          && TellsLast(s.cfg, s.latest, s.readings) && TellsLast(s.cfg, s.last, Published(s))
          && AllShort(s.cfg, if s.readings == [] then [] else s.readings[..|s.readings| - 1]))
  }

  /** No cancellation has been written into it. */
  ghost predicate Untouched(o: Observation) { !o.reached ==> o.error == "" }

  ghost predicate Inv(s: State) {
    && Observed(s)
    && (match s.goroutine
        case Observing => !s.last.reached && s.last == s.latest
        case Publishing => !s.last.reached && s.readings != [] && Untouched(s.latest)
        case Deciding => s.last == s.latest && s.readings != [] && Untouched(s.latest)
        case Sending => s.last == s.latest && s.latest.reached
        case Selecting => s.last == s.latest && s.readings != [] && !s.latest.reached && Untouched(s.latest)
        case StopPublishing => !s.last.reached && Final(s, s.latest)
        case StopSending => s.last == s.latest && Final(s, s.latest)
        case Exited => s.last == s.latest && Final(s, s.last) && s.sent == [s.last])
    && (s.goroutine == StopPublishing || s.goroutine == StopSending ==> !s.latest.reached)
    && (s.goroutine != Exited ==> s.sent == [])
    && s.done == (if s.scenario.Returned? then [] else s.sent)
    && !s.annotated
    && (s.scenario.Returned? ==> s.goroutine == Exited && s.scenario.window == s.last)
    && (!s.scenario.Running? && s.scenario.outcome.StoppedByCondition? ==>
          s.cfg.stopAfterWindow && s.scenario.outcome.seen.reached && s.scenario.outcome.seen == s.last)
  }

  lemma InitInv(s: State)
    requires Init(s)
    ensures Inv(s)
  {
  }

  lemma ObserveInv(s: State, step: Step)
    requires Inv(s) && Enabled(s, step) && step.DoObserve?
    ensures Inv(Apply(s, step)) && Apply(s, step).last == s.last
  {
    var t := Apply(s, step);
    assert t.readings[..|t.readings| - 1] == s.readings && Published(t) == s.readings;
    assert Tells(s.cfg, t.latest, Reading(step.ended, step.counts));
  }

  lemma PublishInv(s: State, step: Step)
    requires Inv(s) && Enabled(s, step) && (step.DoPublish? || step.DoDecide? || step.DoSend? || step.DoTick?)
    ensures Inv(Apply(s, step))
    ensures s.last.reached ==> Apply(s, step).last == s.last
  {
  }

  lemma CancelInv(s: State, step: Step)
    requires Inv(s) && Enabled(s, step) && (step.DoNoticeCancel? || step.DoStopPublish? || step.DoStopSend?)
    ensures Inv(Apply(s, step))
    ensures s.last.reached ==> Apply(s, step).last == s.last
  {
  }

  lemma LoadEndInv(s: State, step: Step)
    requires Inv(s) && Enabled(s, step) && (step.StopConditionFires? || step.LoadEnds? || step.CallWait?)
    ensures Inv(Apply(s, step)) && Apply(s, step).last == s.last
  {
  }

  lemma StopInv(s: State, step: Step)
    requires Inv(s) && Enabled(s, step) && (step.CallStop? || step.DrainTimeout? || step.ParentCancels?)
    ensures Inv(Apply(s, step)) && Apply(s, step).last == s.last
  {
  }

  lemma ReceiveInv(s: State, step: Step)
    requires Inv(s) && Enabled(s, step) && step.Receive?
    ensures Inv(Apply(s, step)) && Apply(s, step).last == s.last
  {
  }

  lemma NextInv(s: State, t: State)
    requires Inv(s) && Next(s, t)
    ensures Inv(t) && t.cfg == s.cfg
    ensures s.last.reached ==> t.last == s.last
    ensures s.sent <= t.sent
  {
    var step :| Enabled(s, step) && t == Apply(s, step);
    if step.DoObserve? {
      ObserveInv(s, step);
    } else if step.DoNoticeCancel? || step.DoStopPublish? || step.DoStopSend? {
      CancelInv(s, step);
    } else if OfGoroutine(step) {
      PublishInv(s, step);
    } else if step.StopConditionFires? || step.LoadEnds? || step.CallWait? {
      LoadEndInv(s, step);
    } else if step.Receive? {
      ReceiveInv(s, step);
    } else {
      StopInv(s, step);
    }
    OnlyGrows(s, step);
  }

  lemma OnlyGrows(s: State, step: Step)
    requires Enabled(s, step)
    ensures s.sent <= Apply(s, step).sent && Apply(s, step).cfg == s.cfg
  {
  }

  lemma {:induction false} RunInv(run: seq<State>, i: nat)
    requires IsRun(run) && i < |run|
    ensures Inv(run[i]) && run[i].cfg == run[0].cfg
  {
    if i == 0 {
      InitInv(run[0]);
    } else {
      RunInv(run, i - 1);
      NextInv(run[i - 1], run[i]);
    }
  }

  lemma RunStep(run: seq<State>, j: nat)
    requires IsRun(run) && 0 < j < |run|
    ensures run[j - 1].last.reached ==> run[j].last == run[j - 1].last
    ensures run[j - 1].sent <= run[j].sent
  {
    RunInv(run, j - 1);
    NextInv(run[j - 1], run[j]);
  }

  // ----- the protocol theorems

  /** Exactly one observation is ever sent, and the send never has to wait for room. */
  lemma SentOnceWithoutBlocking(run: seq<State>, i: nat)
    requires IsRun(run) && i < |run|
    ensures |run[i].sent| == if run[i].goroutine == Exited then 1 else 0
    ensures run[i].goroutine == Sending ==> Enabled(run[i], DoSend)
    ensures run[i].goroutine == StopSending ==> Enabled(run[i], DoStopSend)
    ensures |run[i].done| <= 1
  {
    RunInv(run, i);
  }

  /** Once Last() reports the target as reached it never changes again. */
  lemma {:induction false} ReachedIsFinal(run: seq<State>, i: nat, j: nat)
    requires IsRun(run) && i <= j < |run| && run[i].last.reached
    ensures run[j].last == run[i].last
    decreases j - i
  {
    if i < j {
      ReachedIsFinal(run, i, j - 1);
      RunStep(run, j);
    }
  }

  /** In every state Last() says the target is reached exactly when the counts it shows meet it,
      and these are the counts of the latest published scrape. */
  lemma TargetIsReported(run: seq<State>, i: nat)
    requires IsRun(run) && i < |run| && run[i].cfg.target > 0
    ensures run[i].last.reached <==> run[i].last.successful >= run[i].cfg.target
    ensures TellsLast(run[i].cfg, run[i].last, Published(run[i]))
  {
    RunInv(run, i);
  }

  /** The monitor stops at the first scrape that meets the target: no earlier one did, and once
      one did and is published it makes no other. */
  lemma StopsAtFirstMeeting(run: seq<State>, i: nat, k: nat)
    requires IsRun(run) && i < |run| && k < |run[i].readings|
    ensures run[i].readings[k].counts.successful >= run[i].cfg.target ==>
              k == |run[i].readings| - 1 && (run[i].last.reached || run[i].goroutine == Publishing)
    ensures run[i].last.reached ==> run[i].goroutine in {Deciding, Sending, Exited}
  {
    RunInv(run, i);
    StopsHere(run[i], k);
  }

  lemma StopsHere(s: State, k: nat)
    requires Inv(s) && k < |s.readings|
    ensures s.readings[k].counts.successful >= s.cfg.target ==>
              k == |s.readings| - 1 && (s.last.reached || s.goroutine == Publishing)
    ensures s.last.reached ==> s.goroutine in {Deciding, Sending, Exited}
  {
    var z := |s.readings| - 1;
    if k < z {
      assert s.readings[..z][k] == s.readings[k];
    }
  }

  /** What Stop and Wait hand back is Last() and stays Last(). For a positive target it tells the
      last scrape, is reached exactly when that met the target, and carries no error when it
      lasted long enough, the too-fast error when it did not, and the text of the cancellation
      when the target was missed. The drain-timeout message is never added. */
  lemma DeliveredIsLast(run: seq<State>, i: nat, j: nat)
    requires IsRun(run) && i <= j < |run| && run[i].scenario.Returned?
    ensures var obs, cfg := run[i].scenario.window, run[i].cfg;
            && obs == run[i].last == run[j].last && [obs] == run[i].sent && !run[j].annotated
            && (cfg.target <= 0 ==> RefusesTarget(cfg, obs))
            && (cfg.target > 0 ==> TellsLast(cfg, obs, run[i].readings))
            && (cfg.target > 0 ==> (obs.reached <==> obs.successful >= cfg.target))
            && (obs.reached ==> FromScrape(cfg, obs))
            && (cfg.target > 0 && !obs.reached ==>
                  run[i].cancelled.Some? &&
                  obs.error == if run[i].cancelled == Some(Canceled) then "context canceled" else "context deadline exceeded")
    decreases j - i
  {
    RunInv(run, i);
    RunInv(run, j);
    SentGrows(run, i, j);
    assert run[j].sent[0] == run[i].sent[0];
    if run[i].scenario.window.reached {
      assert Tells(run[i].cfg, run[i].scenario.window, run[i].readings[|run[i].readings| - 1]);
    }
  }

  lemma {:induction false} SentGrows(run: seq<State>, i: nat, j: nat)
    requires IsRun(run) && i <= j < |run|
    ensures run[i].sent <= run[j].sent
    decreases j - i
  {
    if i < j {
      SentGrows(run, i, j - 1);
      RunStep(run, j);
    }
  }

  /** How many goroutine steps other than ticks remain at most. */
  function StepsLeft(g: Goroutine): nat {
    match g
    case Observing => 6
    case Publishing => 5
    case Deciding => 4
    case Selecting => 3
    case StopPublishing => 2
    case Sending => 1
    case StopSending => 1
    case Exited => 0
  }

  predicate OfGoroutine(step: Step) {
    step.DoObserve? || step.DoPublish? || step.DoDecide? || step.DoSend? || step.DoTick? || step.DoNoticeCancel? ||
    step.DoStopPublish? || step.DoStopSend?
  }

  lemma StepsShrink(s: State, step: Step)
    requires Inv(s) && Enabled(s, step) && OfGoroutine(step) && !step.DoTick?
    ensures StepsLeft(Apply(s, step).goroutine) < StepsLeft(s.goroutine)
  {
  }

  lemma CanStep(s: State) returns (a: Step)
    requires Inv(s) && s.cancelled.Some? && s.goroutine != Exited
    ensures OfGoroutine(a) && !a.DoTick? && Enabled(s, a)
  {
    match s.goroutine
    case Observing => a := DoObserve(0, Counts(0, 0, false));
    case Publishing => a := DoPublish;
    case Deciding => a := DoDecide;
    case Sending => a := DoSend;
    case Selecting => a := DoNoticeCancel;
    case StopPublishing => a := DoStopPublish;
    case StopSending => a := DoStopSend;
  }

  /** Progress: whoever waits for a cancelled monitor is never stuck, and only a tick that
      wins the select can put the exit off: every other goroutine step brings it nearer. */
  lemma CancelledMonitorProgresses(run: seq<State>, i: nat, step: Step)
    requires IsRun(run) && i < |run| && run[i].cancelled.Some?
    ensures run[i].goroutine != Exited ==>
              exists a :: OfGoroutine(a) && !a.DoTick? && Enabled(run[i], a)
    ensures run[i].goroutine == Exited && (run[i].scenario.Waiting? || run[i].scenario.Stopping?) ==> Enabled(run[i], Receive)
    ensures Enabled(run[i], step) && OfGoroutine(step) && !step.DoTick? ==>
              StepsLeft(Apply(run[i], step).goroutine) < StepsLeft(run[i].goroutine)
  {
    RunInv(run, i);
    if run[i].goroutine != Exited {
      var a := CanStep(run[i]);
    }
    if Enabled(run[i], step) && OfGoroutine(step) && !step.DoTick? {
      StepsShrink(run[i], step);
    }
  }

  // ----- stopping Catalyst on the load window, and accepting the window afterwards

  function TargetTransactions(intended: int, fraction: real): int {
    if intended <= 0 then intended
    else if fraction <= 0.0 || fraction > 1.0 then intended
    else
      var target := Ceil(intended as real * fraction);
      if target < 1 then 1 else if target > intended then intended else target
  }

  /** The target is the least count that is the asked fraction of the intended one; a
      fraction outside (0, 1] asks for all of them. */
  lemma TargetIsLeast(intended: int, fraction: real, count: int)
    requires intended > 0
    ensures 1 <= TargetTransactions(intended, fraction) <= intended
    ensures 0.0 < fraction <= 1.0 ==>
              (count >= TargetTransactions(intended, fraction) <==> count as real >= intended as real * fraction)
    ensures fraction <= 0.0 || fraction > 1.0 ==> TargetTransactions(intended, fraction) == intended
  {
    if 0.0 < fraction <= 1.0 {
      ProductBounds(intended as real, fraction);
    }
  }

  lemma ProductBounds(n: real, f: real)
    requires n > 0.0 && 0.0 < f <= 1.0
    ensures 0.0 < n * f <= n
  {
    assert n * f <= n * 1.0;
  }

  function Accepted(window: Observation): bool {
    window.reached && (window.minimum <= 0 || window.durationSatisfied)
  }

  /** Whether the scenario reports an error for this end of the load test. */
  function ScenarioFails(stopAfterWindow: bool, outcome: LoadOutcome, window: Observation): bool {
    match outcome
    case StoppedByCondition(_) => !(stopAfterWindow && Accepted(window))
    case Failed => true
    case Completed(resultError) => resultError != ""
  }

  /** Agreement: a run whose load test was stopped by the condition returns the very
      observation the condition saw, that observation has at least the asked fraction of the
      intended transactions, and the scenario ends without error exactly when the window
      lasted at least the minimum duration. */
  lemma StopAndAcceptAgree(run: seq<State>, i: nat, intended: int, fraction: real)
    requires IsRun(run) && i < |run| && intended > 0
    requires run[0].cfg.target == TargetTransactions(intended, fraction)
    requires run[i].scenario.Returned? && run[i].scenario.outcome.StoppedByCondition?
    ensures var window, cfg := run[i].scenario.window, run[i].cfg;
            && window == run[i].scenario.outcome.seen
            && (0.0 < fraction <= 1.0 ==> window.successful as real >= intended as real * fraction)
            && (fraction <= 0.0 || fraction > 1.0 ==> window.successful >= intended)
            && window.successful <= window.included
            && (!ScenarioFails(cfg.stopAfterWindow, run[i].scenario.outcome, window) <==>
                  cfg.minDuration <= 0 || window.endedAt - cfg.started >= cfg.minDuration)
  {
    RunInv(run, i);
    TargetIsLeast(intended, fraction, run[i].scenario.window.successful);
  }

  lemma ProductOrder(n: real, f: real, g: real)
    requires n > 0.0 && f <= g
    ensures n * f <= n * g && (f < g ==> n * f < n * g)
  {
    if f < g {
      assert n * (g - f) > 0.0;
    }
  }

  predicate MeetsFraction(count: int, intended: int, fraction: real) {
    count as real >= intended as real * fraction
  }

  lemma AboveOne(n: int, fraction: real)
    requires n > 0 && fraction > 1.0
    ensures !MeetsFraction(n, n, fraction)
  {
    ProductOrder(n as real, 1.0, fraction);
  }

  lemma AtMostOne(count: int, intended: int, fraction: real)
    requires intended > 0 && fraction <= 1.0 && count >= TargetTransactions(intended, fraction)
    ensures MeetsFraction(count, intended, fraction)
  {
    TargetIsLeast(intended, fraction, count);
    if fraction <= 0.0 {
      ProductOrder(intended as real, fraction, 0.0);
    }
  }

  /** Reaching the target means reaching the asked fraction exactly for fractions of at most
      one, which is what the command line admits; above one the target itself falls short. */
  lemma FractionGuarantee(intended: int, fraction: real)
    requires intended > 0
    ensures (forall count :: count >= TargetTransactions(intended, fraction) ==> MeetsFraction(count, intended, fraction)) <==>
            fraction <= 1.0
  {
    if fraction > 1.0 {
      AboveOne(intended, fraction);
    } else {
      forall count | count >= TargetTransactions(intended, fraction)
        ensures MeetsFraction(count, intended, fraction)
      {
        AtMostOne(count, intended, fraction);
      }
    }
  }
}
