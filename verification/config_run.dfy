/** Configurations over whole runs of the controller: what is stored, and what the car is told. */
module ConfigRun {
  import opened Bytes
  import opened Messaging
  import opened MsgPipe
  import opened PhevCore
  import opened PhevConfig
  import opened CarLink
  import opened PhevController
  import PingRun

  /** The configuration handled in a step, if any: one the cloud client hands over, or the
      one read during a turn. */
  function Handled(fx: Foreign, w: World, step: PingRun.Step): seq<Config> {
    match step
    case Turn(tick) =>
      var (_, arrived) := AfterRead(w.ends.inbound, tick.inRead);
      if arrived.None? then [] else [ParseConfig(fx.document(arrived.value), tick.memory.state)]
    case ConfigArrives(config, memory) => [ParseConfig(fx.document(config), memory.state)]
    case _ => []
  }

  /** All of them over a run, oldest first. */
  function History(fx: Foreign, w: World, steps: seq<PingRun.Step>): seq<Config>
    decreases |steps|
  {
    if steps == [] then [] else Handled(fx, w, steps[0]) + History(fx, PingRun.After(fx, w, steps[0]), steps[1..])
  }

  /** What the car sends never touches the configuration. */
  lemma OutChainKeepsConfig(fx: Foreign, c: Ctx, m: Msg)
    ensures Transformation(OutChain(fx), c, m).state.config == c.config
  {
    if ValidBuffer(m) {
      var e := OutChainElement(fx, c, m);
    }
  }

  lemma StoredOnDelivery(fx: Foreign, ends: Ends<Ctx>, m: Msg, earlier: seq<Config>)
    requires ends.user.config == SetConfigs(earlier)
    ensures InboundDelivered(Some(InChain(fx)), ends, m).user.config
            == SetConfigs(earlier + [ParseConfig(fx.document(m), ends.user.memory.state)])
  {
    var config := ParseConfig(fx.document(m), ends.user.memory.state);
    assert (earlier + [config])[..|earlier|] == earlier;
    InChainOutcome(fx, ends.user, m);
  }

  lemma StoredOnTurn(fx: Foreign, w: World, tick: Tick, earlier: seq<Config>)
    requires w.ends.user.config == SetConfigs(earlier)
    ensures AfterTurn(fx, w, tick).ends.user.config == SetConfigs(earlier + Handled(fx, w, PingRun.Turn(tick)))
  {
    hide SetConfigs, Transformation, PublishedAll;
    assert earlier + [] == earlier;
    if w.ends.inbound.connected {
      var w1 := AfterLinkCheck(WithMemory(w, tick.memory));
      var (t, arrived) := AfterRead(w1.ends.inbound, tick.inRead);
      if arrived.Some? {
        StoredOnDelivery(fx, w1.ends.(inbound := t), arrived.value, earlier);
      }
      var ends := InboundLooped(Some(InChain(fx)), w1.ends, tick.inRead);
      var (_, bytes) := AfterRead(ends.outbound, tick.outRead);
      if bytes.Some? {
        OutChainKeepsConfig(fx, ends.user, bytes.value);
      }
    }
  }

  lemma StoredOnStep(fx: Foreign, w: World, step: PingRun.Step, earlier: seq<Config>)
    requires w.ends.user.config == SetConfigs(earlier)
    ensures PingRun.After(fx, w, step).ends.user.config == SetConfigs(earlier + Handled(fx, w, step))
  {
    hide SetConfigs, AfterTurn, InboundDelivered;
    assert earlier + [] == earlier;
    match step
    case Turn(tick) => StoredOnTurn(fx, w, tick, earlier);
    case ConfigArrives(config, memory) => StoredOnDelivery(fx, WithMemory(w, memory).ends, config, earlier);
    case _ =>
  }

  lemma {:induction false} StoredOverRun(fx: Foreign, w: World, steps: seq<PingRun.Step>, earlier: seq<Config>)
    requires w.ends.user.config == SetConfigs(earlier)
    ensures PingRun.Final(fx, w, steps).ends.user.config == SetConfigs(earlier + History(fx, w, steps))
    decreases |steps|
  {
    hide SetConfigs, PingRun.After, Handled;
    if steps == [] {
      assert earlier + [] == earlier;
    } else {
      var now := Handled(fx, w, steps[0]);
      StoredOnStep(fx, w, steps[0], earlier);
      StoredOverRun(fx, PingRun.After(fx, w, steps[0]), steps[1..], earlier + now);
      var later := History(fx, PingRun.After(fx, w, steps[0]), steps[1..]);
      assert earlier + now + later == earlier + (now + later);
    }
  }

  /** Over every run from a controller without a configuration, whatever the car and the
      links do: each stored switch is the last value set by a configuration of the run,
      FALSE if none was, and nothing else, so never NOTSET. */
  lemma ConfigOverRun(fx: Foreign, w: World, steps: seq<PingRun.Step>)
    requires w.ends.user.config.None?
    ensures var history := History(fx, w, steps);
            var stored := PingRun.Final(fx, w, steps).ends.user.config;
            && (stored.None? <==> history == [])
            && (stored.Some? ==>
                  && (forall v :: LastSet(HeadLights(history), v) <==> v == stored.value.state.headLightsOn)
                  && (forall v :: LastSet(ParkLights(history), v) <==> v == stored.value.state.parkLightsOn)
                  && (forall v :: LastSet(AirCon(history), v) <==> v == stored.value.state.airConOn)
                  && stored.value.state.headLightsOn != NOTSET
                  && stored.value.state.parkLightsOn != NOTSET
                  && stored.value.state.airConOn != NOTSET
                  && stored.value.state.connectedClients == history[|history| - 1].state.connectedClients)
  {
    var history := History(fx, w, steps);
    StoredOverRun(fx, w, steps, []);
    assert [] + history == history;
    if history != [] {
      ConfigMerge(history);
      var state := SetConfigs(history).value.state;
      OnlyLast(HeadLights(history), state.headLightsOn);
      OnlyLast(ParkLights(history), state.parkLightsOn);
      OnlyLast(AirCon(history), state.airConOn);
    }
  }

  lemma OnlyLast(history: seq<TriState>, last: TriState)
    requires LastSet(history, last)
    ensures forall v :: LastSet(history, v) <==> v == last
  {
    hide LastSet;
    forall v | LastSet(history, v)
      ensures v == last
    {
      LastSetUnique(history, v, last);
    }
  }

  /** So what the car is told after any run, when one more configuration comes in that
      brings no update, is the last value set for each switch in the whole run. */
  lemma CommandsShowHistory(fx: Foreign, w: World, steps: seq<PingRun.Step>, config: Msg, memory: Memory,
                            junk: seq<byte>)
    returns (last: State)
    requires w.ends.user.config.None?
    requires !CheckForFirmwareUpdate(fx.document(config).update)
    ensures var history := History(fx, w, steps + [PingRun.ConfigArrives(config, memory)]);
            && history != []
            && LastSet(HeadLights(history), last.headLightsOn)
            && LastSet(ParkLights(history), last.parkLightsOn)
            && LastSet(AirCon(history), last.airConOn)
            && last.connectedClients == history[|history| - 1].state.connectedClients
    ensures var c := WithMemory(PingRun.Final(fx, w, steps), memory).ends.user;
            var told := Transformation(InChain(fx), c, config).result;
            && told.Some?
            && Unread(told.value, junk) == []
            && ReadCommands(Walk(told.value, junk))
               == Readback(last.connectedClients > 0, last.headLightsOn == TRUE, last.parkLightsOn == TRUE,
                   last.airConOn == TRUE)
  {
    hide Transformation, Walk, Unread, ReadCommands, LastSet, HeadLights, ParkLights, AirCon, InboundDelivered;
    var step := PingRun.ConfigArrives(config, memory);
    var before := PingRun.Final(fx, w, steps);
    var c := WithMemory(before, memory).ends.user;
    FinalMore(fx, w, steps, step);
    ConfigOverRun(fx, w, steps + [step]);
    StoredOnConfig(fx, before, config, memory);
    ConfigToWire(fx, c, config, junk);
    last := Merged(fx, c, config).state;
  }

  lemma StoredOnConfig(fx: Foreign, w: World, config: Msg, memory: Memory)
    ensures AfterConfig(fx, w, config, memory).ends.user.config
            == Some(Merged(fx, WithMemory(w, memory).ends.user, config))
  {
    hide Merged, Transformation;
    InChainOutcome(fx, WithMemory(w, memory).ends.user, config);
  }

  lemma {:induction false} FinalMore(fx: Foreign, w: World, steps: seq<PingRun.Step>, step: PingRun.Step)
    ensures PingRun.Final(fx, w, steps + [step]) == PingRun.After(fx, PingRun.Final(fx, w, steps), step)
    ensures History(fx, w, steps + [step]) == History(fx, w, steps) + Handled(fx, PingRun.Final(fx, w, steps), step)
    decreases |steps|
  {
    hide PingRun.After, Handled;
    var all := steps + [step];
    if steps == [] {
      assert all == [step] && all[1..] == [];
      assert History(fx, PingRun.After(fx, w, step), []) == [];
      assert Handled(fx, w, step) + [] == [] + Handled(fx, w, step);
    } else {
      assert all[0] == steps[0] && all[1..] == steps[1..] + [step];
      FinalMore(fx, PingRun.After(fx, w, steps[0]), steps[1..], step);
      assert forall a: seq<Config>, b: seq<Config>, c: seq<Config> :: a + (b + c) == a + b + c;
    }
  }
}
