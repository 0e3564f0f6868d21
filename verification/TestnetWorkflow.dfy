/** The testnet workflow: create, launch, load balancer, load test, wait, teardown. The
    context may be cancelled, the load test may resolve and the timer may fire at any time. */
module TestnetWorkflow {
  import opened ProviderState

  datatype Request = Request(launchLoadBalancer: bool, digitalOcean: bool, loadTest: bool)

  /** Where startWorkflow stands. */
  datatype Place =
    | Creating
    | Launching
    | LoadBalancing
    | StartingLoad
    | Selecting
    | AwaitingLoad
    | Deferring
    | TearingDown
    | Finished

  datatype Event =
    | Created(state: Bytes)
    | LaunchCalled(state: Bytes)
    | Launched(state: Bytes)
    | BalancerCalled(state: Bytes)
    | Balanced(state: Bytes)
    | LoadStarted(state: Bytes)
    | WaitBegan
    | LoadResolved
    | TimerExpired
    | CancelRequested
    | TeardownCalled(state: Bytes)

  datatype State = State(
    req: Request, place: Place,
    created: Bytes,          // launchTestnet's local copy of the created state
    providerState: Bytes,    // the captured variable the deferred teardown reads
    cancelled: bool, loadStarted: bool, loadResolved: bool, timerFired: bool,
    events: seq<Event>)

  ghost predicate Init(s: State) {
    s == State(s.req, Creating, NO_BYTES, NO_BYTES, false, false, false, false, [])
  }

  datatype Step =
    | CreateReturns(ok: bool, content: string)
    | LaunchReturns(ok: bool, content: string)
    | BalancerReturns(ok: bool, content: string)
    | LoadBegins
    | SelectReturns
    | AwaitReturns
    | DeferRuns
    | TeardownReturns
    | LoadSettles
    | TimerFires
    | Cancels

  ghost predicate Enabled(s: State, step: Step) {
    match step
    case CreateReturns(ok, content) => s.place == Creating && (ok ==> content != "")
    case LaunchReturns(ok, content) => s.place == Launching && (ok ==> content != "")
    case BalancerReturns(ok, content) =>
      s.place == LoadBalancing && (ok && s.req.digitalOcean ==> content != "" && IsPacked(s.providerState)) &&
      (!s.req.digitalOcean ==> ok)
    case LoadBegins => s.place == StartingLoad
    case SelectReturns => s.place == Selecting && (s.loadResolved || s.timerFired || s.cancelled)
    case AwaitReturns => s.place == AwaitingLoad && (s.loadResolved || s.cancelled)
    case DeferRuns => s.place.Deferring?
    case TeardownReturns => s.place.TearingDown?
    case LoadSettles => s.loadStarted && !s.loadResolved
    case TimerFires => s.place == Selecting || s.place == AwaitingLoad
    case Cancels => true
  }

  /** The balancer is asked only when the request wants one. */
  function AfterLaunch(req: Request): Place {
    if req.launchLoadBalancer then LoadBalancing else StartingLoad
  }

  function BalancerCall(s: State): seq<Event> {
    if s.req.launchLoadBalancer && s.req.digitalOcean then [BalancerCalled(s.providerState)] else []
  }

  ghost function Apply(s: State, step: Step): State
    requires Enabled(s, step)
  {
    match step
    case CreateReturns(ok, content) =>
      if !ok then s.(place := Deferring)
      else s.(created := Plain(content), place := Launching, events := s.events + [Created(Plain(content)), LaunchCalled(Plain(content))])
    case LaunchReturns(ok, content) =>
      if !ok then s.(providerState := Compress(s.created), place := Deferring)
      else
        var t := s.(providerState := Compress(Plain(content)), place := AfterLaunch(s.req));
        t.(events := s.events + [Launched(t.providerState)] + BalancerCall(t))
    case BalancerReturns(ok, content) =>
      if !ok then s.(place := Deferring)
      else if !s.req.digitalOcean then s.(place := StartingLoad)
      else
        s.(providerState := Compress(Plain(content)), place := StartingLoad,
           events := s.events + [Balanced(Compress(Plain(content)))])
    case LoadBegins =>
      if s.req.loadTest then
        s.(loadStarted := true, place := Selecting, events := s.events + [LoadStarted(s.providerState), WaitBegan])
      else s.(place := Selecting, events := s.events + [WaitBegan])
    case SelectReturns =>
      if s.loadStarted && !s.cancelled then s.(place := AwaitingLoad) else s.(place := Deferring)
    case AwaitReturns => s.(place := Deferring)
    case DeferRuns =>
      if s.providerState.Empty() then s.(place := Finished)
      else s.(place := TearingDown, events := s.events + [TeardownCalled(s.providerState)])
    case TeardownReturns => s.(place := Finished)
    case LoadSettles => s.(loadResolved := true, events := s.events + [LoadResolved])
    case TimerFires => s.(timerFired := true, events := s.events + [TimerExpired])
    case Cancels => s.(cancelled := true, events := s.events + [CancelRequested])
  }

  ghost predicate Next(s: State, t: State) {
    exists step :: Enabled(s, step) && t == Apply(s, step)
  }

  ghost predicate IsRun(run: seq<State>) {
    && run != [] && Init(run[0])
    && forall i :: 0 < i < |run| ==> Next(run[i - 1], run[i])
  }

  // ----- what the trace says

  predicate IsReceipt(e: Event) { e.Created? || e.Launched? || e.Balanced? }

  /** The last state the workflow received, as the events record it. */
  function LastReceived(events: seq<Event>): Bytes {
    if events == [] then NO_BYTES
    else if IsReceipt(events[|events| - 1]) then events[|events| - 1].state
    else LastReceived(events[..|events| - 1])
  }

  function Teardowns(events: seq<Event>): nat {
    if events == [] then 0
    else Teardowns(events[..|events| - 1]) + if events[|events| - 1].TeardownCalled? then 1 else 0
  }

  /** The form teardown needs: raw state is compressed, packed state is used as it came. */
  function Packed(b: Bytes): Bytes { if b.Plain? then Compress(b) else b }

  /** Every consumer is called with the form it decodes. */
  predicate RightForm(e: Event) {
    match e
    case LaunchCalled(b) => IsRaw(b)
    case BalancerCalled(b) => IsPacked(b)
    case LoadStarted(b) => IsPacked(b)
    case TeardownCalled(b) => IsPacked(b)
    case _ => true
  }

  ghost predicate Has(events: seq<Event>, e: Event -> bool) {
    exists k :: 0 <= k < |events| && e(events[k])
  }

  function IsCancel(): Event -> bool { (e: Event) => e.CancelRequested? }
  function IsResolved(): Event -> bool { (e: Event) => e.LoadResolved? }
  function IsLoadStart(): Event -> bool { (e: Event) => e.LoadStarted? }
  function IsWait(): Event -> bool { (e: Event) => e.WaitBegan? }
  function IsExpiry(): Event -> bool { (e: Event) => e.TimerExpired? }
  function IsBalancerCall(): Event -> bool { (e: Event) => e.BalancerCalled? }

  /** The trace, condensed event by event. */
  datatype Digest = Digest(last: Bytes, teardowns: nat, cancelled: bool, resolved: bool, started: bool, wellFormed: bool,
                           waiting: bool, expired: bool, asked: bool)

  function Extend(d: Digest, e: Event): Digest {
    Digest(if IsReceipt(e) then e.state else d.last,
           d.teardowns + if e.TeardownCalled? then 1 else 0,
           d.cancelled || e.CancelRequested?, d.resolved || e.LoadResolved?, d.started || e.LoadStarted?,
           d.wellFormed && RightForm(e),
           d.waiting || e.WaitBegan?, d.expired || e.TimerExpired?, d.asked || e.BalancerCalled?)
  }

  function DigestOf(events: seq<Event>): Digest {
    if events == [] then Digest(NO_BYTES, 0, false, false, false, true, false, false, false)
    else Extend(DigestOf(events[..|events| - 1]), events[|events| - 1])
  }

  lemma {:induction false} DigestAppend(events: seq<Event>, e: Event)
    ensures DigestOf(events + [e]) == Extend(DigestOf(events), e)
  {
    assert (events + [e])[..|events|] == events;
  }

  lemma HasStep(events: seq<Event>, p: Event -> bool)
    requires events != []
    ensures Has(events, p) <==> Has(events[..|events| - 1], p) || p(events[|events| - 1])
  {
    var front := events[..|events| - 1];
    assert forall k :: 0 <= k < |front| ==> front[k] == events[k];
  }

  lemma {:induction false} DigestMeans(events: seq<Event>)
    ensures var d := DigestOf(events);
            && d.last == LastReceived(events) && d.teardowns == Teardowns(events)
            && (d.cancelled <==> Has(events, IsCancel()))
            && (d.resolved <==> Has(events, IsResolved()))
            && (d.started <==> Has(events, IsLoadStart()))
            && (d.waiting <==> Has(events, IsWait())) && (d.expired <==> Has(events, IsExpiry()))
            && (d.asked <==> Has(events, IsBalancerCall()))
            && (d.wellFormed <==> forall k :: 0 <= k < |events| ==> RightForm(events[k]))
  {
    if events != [] {
      DigestMeans(events[..|events| - 1]);
      HasStep(events, IsCancel());
      HasStep(events, IsResolved());
      HasStep(events, IsLoadStart());
      HasStep(events, IsWait());
      HasStep(events, IsExpiry());
      HasStep(events, IsBalancerCall());
    }
  }

  predicate Agrees(s: State, d: Digest) {
    && d.wellFormed
    && d.cancelled == s.cancelled && d.resolved == s.loadResolved && d.started == s.loadStarted
    && d.expired == s.timerFired && (s.loadResolved ==> s.loadStarted)
    && (d.asked ==> s.req.launchLoadBalancer && s.req.digitalOcean) && (d.started ==> s.req.loadTest)
    && (d.waiting ==> d.asked == (s.req.launchLoadBalancer && s.req.digitalOcean) && d.started == s.req.loadTest)
    && (s.place.TearingDown? ==> !s.providerState.Empty())
    && d.teardowns == (if s.place.TearingDown? || (s.place.Finished? && !s.providerState.Empty()) then 1 else 0)
    && (match s.place
        case Creating => s.providerState.Empty() && d.last.Empty() && !s.loadStarted && !d.waiting && !d.asked
        case Launching => IsRaw(s.created) && d.last == s.created && s.providerState.Empty() && !s.loadStarted && !d.waiting && !d.asked
        case LoadBalancing =>
          && IsPacked(s.providerState) && s.providerState == d.last && !s.loadStarted && !d.waiting
          && s.req.launchLoadBalancer && d.asked == s.req.digitalOcean
        case StartingLoad =>
          && IsPacked(s.providerState) && s.providerState == d.last && !s.loadStarted && !d.waiting
          && d.asked == (s.req.launchLoadBalancer && s.req.digitalOcean)
        case Selecting => IsPacked(s.providerState) && s.providerState == d.last && d.waiting
        case AwaitingLoad => IsPacked(s.providerState) && s.providerState == d.last && s.loadStarted && d.waiting
        case _ =>
          && s.providerState == Packed(d.last)
          && (s.providerState.Empty() || IsPacked(s.providerState))
          && (s.loadStarted ==> s.loadResolved || s.cancelled)
          && (d.waiting ==> s.loadResolved || s.timerFired || s.cancelled))
  }

  ghost predicate Inv(s: State) {
    Agrees(s, DigestOf(s.events))
  }

  lemma CreateInv(s: State, step: Step)
    requires Inv(s) && Enabled(s, step) && step.CreateReturns?
    ensures Inv(Apply(s, step))
  {
    if step.ok {
      var e := Plain(step.content);
      DigestAppend(s.events, Created(e));
      DigestAppend(s.events + [Created(e)], LaunchCalled(e));
      assert s.events + [Created(e), LaunchCalled(e)] == s.events + [Created(e)] + [LaunchCalled(e)];
    }
    CreatedAgrees(s, DigestOf(s.events), Plain(step.content));
  }

  lemma CreatedAgrees(s: State, d: Digest, e: Bytes)
    requires Agrees(s, d) && s.place == Creating
    ensures Agrees(s.(place := Deferring), d)
    ensures IsRaw(e) ==> Agrees(s.(created := e, place := Launching), Extend(Extend(d, Created(e)), LaunchCalled(e)))
  {
  }

  lemma LaunchInv(s: State, step: Step)
    requires Inv(s) && Enabled(s, step) && step.LaunchReturns?
    ensures Inv(Apply(s, step))
  {
    var b := Compress(Plain(step.content));
    if step.ok {
      DigestAppend(s.events, Launched(b));
      DigestAppend(s.events + [Launched(b)], BalancerCalled(b));
      assert s.events + [Launched(b)] + [] == s.events + [Launched(b)];
      LaunchedAgrees(s, DigestOf(s.events), b);
    }
  }

  lemma LaunchedAgrees(s: State, d: Digest, b: Bytes)
    requires Agrees(s, d) && s.place == Launching && IsPacked(b)
    ensures var t := s.(providerState := b, place := AfterLaunch(s.req));
            if s.req.launchLoadBalancer && s.req.digitalOcean then Agrees(t, Extend(Extend(d, Launched(b)), BalancerCalled(b)))
            else Agrees(t, Extend(d, Launched(b)))
  {
  }

  lemma BalancerInv(s: State, step: Step)
    requires Inv(s) && Enabled(s, step) && step.BalancerReturns?
    ensures Inv(Apply(s, step))
  {
    var b := Compress(Plain(step.content));
    DigestAppend(s.events, Balanced(b));
    BalancedAgrees(s, DigestOf(s.events), b);
  }

  lemma BalancedAgrees(s: State, d: Digest, b: Bytes)
    requires Agrees(s, d) && s.place == LoadBalancing
    ensures Agrees(s.(place := Deferring), d) && Agrees(s.(place := StartingLoad), d)
    ensures IsPacked(b) ==> Agrees(s.(providerState := b, place := StartingLoad), Extend(d, Balanced(b)))
  {
  }

  lemma LoadBeginsInv(s: State, step: Step)
    requires Inv(s) && Enabled(s, step) && step.LoadBegins?
    ensures Inv(Apply(s, step))
  {
    var e := LoadStarted(s.providerState);
    DigestAppend(s.events, WaitBegan);
    DigestAppend(s.events, e);
    DigestAppend(s.events + [e], WaitBegan);
    assert s.events + [e, WaitBegan] == s.events + [e] + [WaitBegan];
    LoadBegunAgrees(s, DigestOf(s.events));
  }

  lemma LoadBegunAgrees(s: State, d: Digest)
    requires Agrees(s, d) && s.place == StartingLoad
    ensures !s.req.loadTest ==> Agrees(s.(place := Selecting), Extend(d, WaitBegan))
    ensures s.req.loadTest ==>
              Agrees(s.(loadStarted := true, place := Selecting), Extend(Extend(d, LoadStarted(s.providerState)), WaitBegan))
  {
  }

  lemma DeferInv(s: State, step: Step)
    requires Inv(s) && Enabled(s, step) && step.DeferRuns?
    ensures Inv(Apply(s, step))
  {
    DigestAppend(s.events, TeardownCalled(s.providerState));
    DeferredAgrees(s, DigestOf(s.events));
  }

  lemma DeferredAgrees(s: State, d: Digest)
    requires Agrees(s, d) && s.place == Deferring
    ensures s.providerState.Empty() ==> Agrees(s.(place := Finished), d)
    ensures !s.providerState.Empty() ==> Agrees(s.(place := TearingDown), Extend(d, TeardownCalled(s.providerState)))
  {
  }

  lemma WaitInv(s: State, step: Step)
    requires Inv(s) && Enabled(s, step) && (step.SelectReturns? || step.AwaitReturns? || step.TeardownReturns?)
    ensures Inv(Apply(s, step))
  {
  }

  lemma WorldInv(s: State, step: Step)
    requires Inv(s) && Enabled(s, step)
    requires step.LoadSettles? || step.TimerFires? || step.Cancels?
    ensures Inv(Apply(s, step))
  {
    DigestAppend(s.events, LoadResolved);
    DigestAppend(s.events, TimerExpired);
    DigestAppend(s.events, CancelRequested);
    WorldAgrees(s, DigestOf(s.events));
  }

  lemma WorldAgrees(s: State, d: Digest)
    requires Agrees(s, d)
    ensures s.loadStarted ==> Agrees(s.(loadResolved := true), Extend(d, LoadResolved))
    ensures Agrees(s.(timerFired := true), Extend(d, TimerExpired))
    ensures Agrees(s.(cancelled := true), Extend(d, CancelRequested))
  {
  }

  lemma StepInv(s: State, step: Step)
    requires Inv(s) && Enabled(s, step)
    ensures Inv(Apply(s, step))
  {
    if step.CreateReturns? {
      CreateInv(s, step);
    } else if step.LaunchReturns? {
      LaunchInv(s, step);
    } else if step.BalancerReturns? {
      BalancerInv(s, step);
    } else if step.LoadSettles? || step.TimerFires? || step.Cancels? {
      WorldInv(s, step);
    } else if step.LoadBegins? {
      LoadBeginsInv(s, step);
    } else if step.DeferRuns? {
      DeferInv(s, step);
    } else {
      WaitInv(s, step);
    }
  }

  lemma {:induction false} RunInv(run: seq<State>, i: nat)
    requires IsRun(run) && i < |run|
    ensures Inv(run[i]) && run[i].req == run[0].req
  {
    if i > 0 {
      RunInv(run, i - 1);
      var step :| Enabled(run[i - 1], step) && run[i] == Apply(run[i - 1], step);
      StepInv(run[i - 1], step);
      RequestStays(run[i - 1], step);
    }
  }

  lemma RequestStays(s: State, step: Step)
    requires Enabled(s, step)
    ensures Apply(s, step).req == s.req
  {
  }

  /** At most one teardown in any run; a finished run has torn down exactly when the last
      state it received was not empty. */
  lemma TeardownExactlyOnce(run: seq<State>, i: nat)
    requires IsRun(run) && i < |run|
    ensures Teardowns(run[i].events) <= 1
    ensures run[i].place.Finished? ==>
              (Teardowns(run[i].events) == 1 <==> !LastReceived(run[i].events).Empty())
  {
    RunInv(run, i);
    DigestMeans(run[i].events);
  }

  /** The teardown call carries the last state received from create, launch or the load
      balancer, and comes after a started load test has resolved or the context was
      cancelled. A testnet that came up is not torn down before its load test has resolved,
      its time is over or the context was cancelled. */
  lemma TeardownUsesLastState(run: seq<State>, i: nat)
    requires IsRun(run) && 0 < i < |run|
    requires Teardowns(run[i].events) > Teardowns(run[i - 1].events)
    ensures var before := run[i - 1].events;
            && run[i].events == before + [TeardownCalled(Packed(LastReceived(before)))]
            && (Has(before, IsLoadStart()) ==> Has(before, IsResolved()) || Has(before, IsCancel()))
            && (Has(before, IsWait()) ==> Has(before, IsResolved()) || Has(before, IsExpiry()) || Has(before, IsCancel()))
  {
    RunInv(run, i - 1);
    TeardownCall(run[i - 1], run[i]);
  }

  /** Only the deferred function adds a teardown to the trace. */
  lemma TeardownCall(s: State, t: State)
    requires Inv(s) && Next(s, t) && Teardowns(t.events) > Teardowns(s.events)
    ensures t.events == s.events + [TeardownCalled(Packed(LastReceived(s.events)))]
    ensures Has(s.events, IsLoadStart()) ==> Has(s.events, IsResolved()) || Has(s.events, IsCancel())
    ensures Has(s.events, IsWait()) ==> Has(s.events, IsResolved()) || Has(s.events, IsExpiry()) || Has(s.events, IsCancel())
  {
    var step :| Enabled(s, step) && t == Apply(s, step);
    StepInv(s, step);
    DigestMeans(s.events);
    DigestMeans(t.events);
    CountsRiseOnce(s, DigestOf(s.events), t, DigestOf(t.events), step);
  }

  lemma CountsRiseOnce(s: State, d: Digest, t: State, e: Digest, step: Step)
    requires Agrees(s, d) && Agrees(t, e) && Enabled(s, step) && t == Apply(s, step) && e.teardowns > d.teardowns
    ensures step.DeferRuns? && t.events == s.events + [TeardownCalled(Packed(d.last))]
    ensures (d.started ==> d.resolved || d.cancelled) && (d.waiting ==> d.resolved || d.expired || d.cancelled)
  {
  }

  /** How far a place is from the end. */
  function Distance(p: Place): nat {
    match p
    case Creating => 8
    case Launching => 7
    case LoadBalancing => 6
    case StartingLoad => 5
    case Selecting => 4
    case AwaitingLoad => 3
    case Deferring => 2
    case TearingDown => 1
    case Finished => 0
  }

  predicate OfWorkflow(step: Step) {
    !(step.LoadSettles? || step.TimerFires? || step.Cancels?)
  }

  /** Cancellation always leads to the end: a cancelled workflow can take a step from every
      unfinished place, and each of its steps brings it nearer to Finished. */
  lemma CancelledWorkflowFinishes(s: State, step: Step)
    requires s.cancelled && s.place != Finished
    ensures exists a :: OfWorkflow(a) && Enabled(s, a)
    ensures Enabled(s, step) && OfWorkflow(step) ==> Distance(Apply(s, step).place) < Distance(s.place)
  {
    match s.place
    case Creating => assert Enabled(s, CreateReturns(false, ""));
    case Launching => assert Enabled(s, LaunchReturns(false, ""));
    case LoadBalancing => assert Enabled(s, BalancerReturns(!s.req.digitalOcean, ""));
    case StartingLoad => assert Enabled(s, LoadBegins);
    case Selecting => assert Enabled(s, SelectReturns);
    case AwaitingLoad => assert Enabled(s, AwaitReturns);
    case Deferring => assert Enabled(s, DeferRuns);
    case TearingDown => assert Enabled(s, TeardownReturns);
    case Finished =>
  }

  /** The workflow asks for what the request wants and for nothing else: the load balancer on
      DigitalOcean, the load test when there is one. Once it waits it has asked for both. */
  lemma AsksAsRequested(run: seq<State>, i: nat)
    requires IsRun(run) && i < |run|
    ensures var events, req := run[i].events, run[0].req;
            && (Has(events, IsBalancerCall()) ==> req.launchLoadBalancer && req.digitalOcean)
            && (Has(events, IsLoadStart()) ==> req.loadTest)
            && (Has(events, IsWait()) ==>
                  (Has(events, IsBalancerCall()) <==> req.launchLoadBalancer && req.digitalOcean) &&
                  (Has(events, IsLoadStart()) <==> req.loadTest))
  {
    RunInv(run, i);
    DigestMeans(run[i].events);
  }

  /** Nothing keeps the world from acting: the context can be cancelled at any time, the timer
      ends the wait, and a started load test can resolve. */
  lemma WorldCanAct(s: State)
    ensures Enabled(s, Cancels) && Apply(s, Cancels).cancelled
    ensures s.place == Selecting ==> Enabled(s, TimerFires) && Enabled(Apply(s, TimerFires), SelectReturns)
    ensures s.loadStarted && !s.loadResolved ==> Enabled(s, LoadSettles) && Apply(s, LoadSettles).loadResolved
    ensures s.place == AwaitingLoad && s.loadResolved ==> Enabled(s, AwaitReturns)
  {
  }

  /** On every path each consumer gets provider state in the form it decodes. */
  lemma EncodingDiscipline(run: seq<State>, i: nat, k: nat)
    requires IsRun(run) && i < |run| && k < |run[i].events|
    ensures RightForm(run[i].events[k])
  {
    RunInv(run, i);
    DigestMeans(run[i].events);
  }
}
