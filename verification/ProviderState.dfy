/** Provider state on the wire, and the activities that produce and consume it. Gzip is an
    invertible codec that does not fail; nothing readable as serialized state starts like a
    gzip stream. */
module ProviderState {
  datatype Bytes = Plain(content: string) | Gzip(inner: Bytes)
  {
    predicate Empty() { this == Plain("") }
  }

  const NO_BYTES := Plain("")

  datatype Decoded = Data(bytes: Bytes) | BadData

  /** Empty data is passed through, both ways. */
  function Compress(b: Bytes): Bytes { if b.Empty() then b else Gzip(b) }

  function Decompress(b: Bytes): Decoded {
    if b.Empty() then Data(b) else if b.Gzip? then Data(b.inner) else BadData
  }

  /** What LaunchTestnet restores a provider from. */
  predicate IsRaw(b: Bytes) { b.Plain? && !b.Empty() }

  /** What the load balancer, the load test and the teardown restore a provider from. */
  predicate IsPacked(b: Bytes) {
    match Decompress(b)
    case Data(d) => IsRaw(d)
    case BadData => false
  }

  lemma CodecRoundTrip(b: Bytes)
    ensures Decompress(Compress(b)) == Data(b)
    ensures IsPacked(Compress(b)) <==> IsRaw(b)
    ensures !(IsRaw(b) && IsPacked(b))
  {
  }

  /** What happens outside the activity: which calls fail, and the serialized states. */
  datatype LaunchWorld = LaunchWorld(
    restores: bool, creates: bool, initializes: bool, starts: bool, serialized: string, serializes: bool,
    chainSerializes: bool, addressesKnown: bool)

  datatype LaunchResponse = LaunchResponse(providerState: Bytes, chainState: Bytes)

  /** Launching fills in the response step by step: it holds packed provider state, on failure
      too, unless the provider was not restored or serialized or the chain did not start. */
  method LaunchTestnet(providerState: Bytes, world: LaunchWorld) returns (resp: LaunchResponse, failed: bool)
    requires world.serialized != ""
    ensures !failed <==>
              IsRaw(providerState) && world.restores && world.creates && world.initializes && world.starts &&
              world.serializes && world.chainSerializes && world.addressesKnown
    ensures resp.providerState ==
              if IsRaw(providerState) && world.restores && world.serializes &&
                 (world.creates && world.initializes ==> world.starts)
              then Compress(Plain(world.serialized)) else NO_BYTES
    ensures resp.providerState.Empty() || IsPacked(resp.providerState)
    ensures !resp.chainState.Empty() ==> IsPacked(resp.chainState) && IsPacked(resp.providerState)
    ensures !failed ==> IsPacked(resp.providerState) && IsPacked(resp.chainState)
  {
    resp := LaunchResponse(NO_BYTES, NO_BYTES);
    failed := true;
    if !IsRaw(providerState) || !world.restores {
      return;
    }
    if !world.creates {
      if !world.serializes {
        return;
      }
      resp := resp.(providerState := Compress(Plain(world.serialized)));
      return;
    }
    if !world.initializes {
      if !world.serializes {
        return;
      }
      resp := resp.(providerState := Compress(Plain(world.serialized)));
      return;
    }
    if !world.starts {
      return;
    }
    if !world.serializes {
      return;
    }
    resp := resp.(providerState := Compress(Plain(world.serialized)));
    if !world.chainSerializes {
      return;
    }
    resp := resp.(chainState := Compress(Plain("chain")));
    if !world.addressesKnown {
      return;
    }
    failed := false;
  }

  datatype TeardownOutcome = Skipped | DecodeFailed | TornDown(content: string)

  /** Teardown reaches the provider exactly for packed state. */
  method TeardownProvider(providerState: Bytes) returns (outcome: TeardownOutcome)
    ensures outcome.TornDown? <==> IsPacked(providerState)
    ensures outcome.TornDown? ==> providerState == Compress(Plain(outcome.content))
    ensures outcome.Skipped? <==> providerState.Empty()
  {
    if providerState.Empty() {
      return Skipped;
    }
    match Decompress(providerState)
    case BadData => return DecodeFailed;
    case Data(d) =>
      if IsRaw(d) {
        return TornDown(d.content);
      }
      return DecodeFailed;
  }

  // ----- the local runner, in one process: it sees the response of a failed launch as well

  /** The responses of the activities in one scenario run. */
  datatype World = World(
    createFails: bool, created: string, launchFails: bool, launchResponse: Bytes, stopsEarly: bool, loadResponse: Bytes,
    keep: bool)
  {
    /** What LaunchTestnet and RunLoadTest are able to answer. */
    ghost predicate Possible() {
      && created != ""
      && (launchResponse.Empty() || IsPacked(launchResponse))
      && (!launchFails ==> IsPacked(launchResponse))
      && (loadResponse.Empty() || IsPacked(loadResponse))
    }
  }

  datatype Call = Launch(state: Bytes) | LoadTest(state: Bytes) | Teardown(state: Bytes)

  /** Teardown runs once, last, unless the provider was never created or is to be kept. It gets
      the newest state received: what the load test answered, if it ran and answered with one,
      else what the launch answered, failed or not, else the created state, compressed. Every
      consumer gets the form it decodes. */
  method RunScenario(w: World) returns (calls: seq<Call>)
    requires w.Possible()
    ensures w.createFails <==> calls == []
    ensures !w.createFails ==> calls[0] == Launch(Plain(w.created))
    ensures forall i :: 0 < i < |calls| ==> !calls[i].Launch?
    ensures !w.createFails && !w.launchFails && !w.stopsEarly <==> |calls| > 1 && calls[1].LoadTest?
    ensures forall i :: 0 <= i < |calls| && calls[i].LoadTest? ==> i == 1 && calls[i].state == w.launchResponse
    ensures (calls != [] && calls[|calls| - 1].Teardown?) <==> !w.createFails && !w.keep
    ensures forall i :: 0 <= i < |calls| - 1 ==> !calls[i].Teardown?
    ensures calls != [] && calls[|calls| - 1].Teardown? ==>
              var state := calls[|calls| - 1].state;
              if calls[1].LoadTest? && !w.loadResponse.Empty() then state == w.loadResponse
              else if !w.launchResponse.Empty() then state == w.launchResponse
              else state == Gzip(Plain(w.created))
    ensures forall i :: 0 <= i < |calls| ==> if calls[i].Launch? then IsRaw(calls[i].state) else IsPacked(calls[i].state)
  {
    calls := [];
    if w.createFails {
      return;
    }
    var providerStateForLaunch := Plain(w.created);
    var providerStateForTeardown := Compress(providerStateForLaunch);
    calls := calls + [Launch(providerStateForLaunch)];
    if !w.launchResponse.Empty() {
      providerStateForTeardown := w.launchResponse;
    }
    if !w.launchFails {
      providerStateForTeardown := w.launchResponse;
      if !w.stopsEarly {
        calls := calls + [LoadTest(w.launchResponse)];
        if !w.loadResponse.Empty() {
          providerStateForTeardown := w.loadResponse;
        }
      }
    }
    if !w.keep && !providerStateForTeardown.Empty() {
      calls := calls + [Teardown(providerStateForTeardown)];
    }
  }
}
