/** Configuration records and their merge (components/phev_core/src/phev_config.c and
    setConfig of phev_controller.c). */
module PhevConfig {
  import opened Bytes

  datatype TriState = FALSE | TRUE | NOTSET

  datatype State = State(
    connectedClients: int, headLightsOn: TriState, parkLightsOn: TriState, airConOn: TriState)

  datatype UpdateConfig = UpdateConfig(
    latestBuild: nat, currentBuild: nat, updateOverPPP: bool, forceUpdate: bool)

  datatype Config = Config(update: UpdateConfig, state: State)

  /** The "state" object of a configuration document; a missing member is None. */
  datatype StateObject = StateObject(
    connectedClients: int, headLightsOn: Option<bool>, parkLightsOn: Option<bool>, airConOn: Option<bool>)

  function GetConfigTriState(value: Option<bool>): TriState {
    if value.None? then NOTSET else if value.value then TRUE else FALSE
  }

  /** Without a state object the freshly allocated record keeps its unspecified content. */
  function ParseState(json: Option<StateObject>, unspecified: State): State {
    if json.None? then unspecified
    else
      State(json.value.connectedClients, GetConfigTriState(json.value.headLightsOn),
            GetConfigTriState(json.value.parkLightsOn), GetConfigTriState(json.value.airConOn))
  }

  /** A parsed configuration document. */
  datatype Document = Document(update: UpdateConfig, state: Option<StateObject>)

  function ParseConfig(document: Document, unspecified: State): Config {
    Config(document.update, ParseState(document.state, unspecified))
  }

  predicate CheckForFirmwareUpdate(u: UpdateConfig) {
    u.latestBuild > u.currentBuild || u.forceUpdate
  }

  predicate CheckForConnection(s: State) { s.connectedClients > 0 }
  predicate CheckForHeadLightsOn(s: State) { s.headLightsOn == TRUE }
  predicate CheckForHeadLightsOff(s: State) { !(s.headLightsOn == TRUE) }
  predicate CheckForParkLightsOn(s: State) { s.parkLightsOn == TRUE }
  predicate CheckForParkLightsOff(s: State) { !(s.parkLightsOn == TRUE) }
  predicate CheckForAirConOn(s: State) { s.airConOn == TRUE }
  predicate CheckForAirConOff(s: State) { !(s.airConOn == TRUE) }

  /** setConfig: everything is overwritten except the switches the new config does not set. */
  function SetConfig(stored: Option<Config>, config: Config): Config {
    var old' := if stored.Some? then stored.value.state else State(0, FALSE, FALSE, FALSE);
    Config(
      config.update,
      State(
        config.state.connectedClients,
        if config.state.headLightsOn != NOTSET then config.state.headLightsOn else old'.headLightsOn,
        if config.state.parkLightsOn != NOTSET then config.state.parkLightsOn else old'.parkLightsOn,
        if config.state.airConOn != NOTSET then config.state.airConOn else old'.airConOn))
  }

  function SetConfigs(configs: seq<Config>): Option<Config> {
    if configs == [] then None
    else Some(SetConfig(SetConfigs(configs[..|configs| - 1]), configs[|configs| - 1]))
  }

  /** `last` is the most recent value in the history that was set, FALSE if none was. */
  ghost predicate LastSet(history: seq<TriState>, last: TriState) {
    || (last == FALSE && forall i | 0 <= i < |history| :: history[i] == NOTSET)
    || (exists k | 0 <= k < |history| ::
          last == history[k] != NOTSET && forall i | k < i < |history| :: history[i] == NOTSET)
  }

  lemma LastSetStep(history: seq<TriState>, last: TriState, value: TriState)
    requires LastSet(history, last)
    ensures LastSet(history + [value], if value != NOTSET then value else last)
  {
    var longer := history + [value];
    if value != NOTSET {
      assert longer[|history|] == value;
    } else if !(last == FALSE && forall i | 0 <= i < |history| :: history[i] == NOTSET) {
      var k :| 0 <= k < |history| && last == history[k] != NOTSET
          && forall i | k < i < |history| :: history[i] == NOTSET;
      assert longer[k] == last;
    }
  }

  /** The last value in a history is unique, so LastSet determines it. */
  lemma LastSetUnique(history: seq<TriState>, a: TriState, b: TriState)
    requires LastSet(history, a) && LastSet(history, b)
    ensures a == b && a != NOTSET
  {
  }

  function HeadLights(configs: seq<Config>): seq<TriState> {
    seq(|configs|, i requires 0 <= i < |configs| => configs[i].state.headLightsOn)
  }

  function ParkLights(configs: seq<Config>): seq<TriState> {
    seq(|configs|, i requires 0 <= i < |configs| => configs[i].state.parkLightsOn)
  }

  function AirCon(configs: seq<Config>): seq<TriState> {
    seq(|configs|, i requires 0 <= i < |configs| => configs[i].state.airConOn)
  }

  /** Over any run of configs: every stored switch is the last value set, FALSE if none,
      and so never NOTSET; the rest is that of the latest config. */
  lemma {:induction false} ConfigMerge(configs: seq<Config>)
    requires configs != []
    ensures var merged := SetConfigs(configs).value;
            && LastSet(HeadLights(configs), merged.state.headLightsOn) && merged.state.headLightsOn != NOTSET
            && LastSet(ParkLights(configs), merged.state.parkLightsOn) && merged.state.parkLightsOn != NOTSET
            && LastSet(AirCon(configs), merged.state.airConOn) && merged.state.airConOn != NOTSET
            && merged.update == configs[|configs| - 1].update
            && merged.state.connectedClients == configs[|configs| - 1].state.connectedClients
  {
    var earlier, c := configs[..|configs| - 1], configs[|configs| - 1];
    var was := if earlier == [] then State(0, FALSE, FALSE, FALSE) else SetConfigs(earlier).value.state;
    if earlier != [] {
      ConfigMerge(earlier);
    }
    LastSetStep(HeadLights(earlier), was.headLightsOn, c.state.headLightsOn);
    LastSetStep(ParkLights(earlier), was.parkLightsOn, c.state.parkLightsOn);
    LastSetStep(AirCon(earlier), was.airConOn, c.state.airConOn);
    assert HeadLights(configs) == HeadLights(earlier) + [c.state.headLightsOn];
    assert ParkLights(configs) == ParkLights(earlier) + [c.state.parkLightsOn];
    assert AirCon(configs) == AirCon(earlier) + [c.state.airConOn];
  }
}
