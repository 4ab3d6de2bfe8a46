/** What a turn of the event loop does, spelled out. */
module TurnLaws {
  import opened Bytes
  import opened Messaging
  import opened MsgPipe
  import opened PhevCore
  import opened PhevConfig
  import opened CarLink
  import opened WireLaws
  import opened PhevController
  import PingRun

  predicate Writes(t: Tcp, n: nat) {
    t.connected && n <= |t.writes| && forall i | 0 <= i < n :: t.writes[i]
  }

  /** The bytes of a ping, and of the time sync before every thirtieth. */
  function PingBytes(number: byte): seq<byte> {
    [249, 4, 0, number, 0, (249 + 4 + number) % 256]
  }

  function DateBytes(date: Date): seq<byte> {
    [246, 10, 0, 5] + (date + [1]) + [(246 + 10 + 5 + Total(date) + 1) % 256]
  }

  lemma PingSpelled(number: byte)
    ensures FrameBytes(PingFrame(number)) == PingBytes(number)
  {
    ShortFrame(249, 0, number, 0);
  }

  lemma DateSpelled(date: Date)
    ensures FrameBytes(DateFrame(date)) == DateBytes(date)
  {
    TotalAppend(date, [1]);
    TotalOne(1);
    hide Total;
    FrameSpelled(DateFrame(date));
    hide FrameBytes;
  }

  function Remembering(w: World, memory: Memory): World {
    w.(ends := w.ends.(user := w.ends.user.(memory := memory)))
  }

  // ---------------------------------------------------------------- turns in which nothing is read

  /** With the cloud link down a turn only tries to open it. */
  lemma CloudDownTurn(fx: Foreign, w: World, tick: Tick)
    requires !w.ends.inbound.connected
    ensures var t := w.ends.inbound;
            AfterTurn(fx, w, tick)
            == w.(ends := w.ends.(inbound :=
                   if t.connects != [] && t.connects[0] then Tcp(true, t.connects[1..], t.writes, [], [])
                   else Tcp(false, if t.connects == [] then [] else t.connects[1..], t.writes, [], [])))
  {
  }

  predicate NothingRead(w: World, tick: Tick) {
    w.ends.inbound.connected && tick.inRead == Idle && tick.outRead == Idle
  }

  /** With the car link down the counter goes back to 0, and nothing is sent. */
  lemma CarDownTurn(fx: Foreign, w: World, tick: Tick)
    requires NothingRead(w, tick) && !w.ends.outbound.connected
    ensures var w' := AfterTurn(fx, w, tick);
            && w'.ends.inbound == w.ends.inbound && w'.ends.outbound == w.ends.outbound
            && (w.ends.user.currentPing > 0 ==>
                  && w'.ends.user == w.ends.user.(currentPing := 0, lastPingTime := 0, memory := tick.memory)
                  && w'.trace == w.trace + [Reset])
            && (w.ends.user.currentPing == 0 ==> w' == Remembering(w, tick.memory))
  {
    hide InboundDelivered, OutboundDelivered, AfterPing;
  }

  /** With both links up nothing happens before the clock has moved on. */
  lemma EarlyTurn(fx: Foreign, w: World, tick: Tick)
    requires NothingRead(w, tick) && w.ends.outbound.connected && tick.now <= w.ends.user.lastPingTime
    ensures AfterTurn(fx, w, tick) == Remembering(w, tick.memory)
  {
    hide InboundDelivered, OutboundDelivered, AfterPing;
  }

  /** Then the counter's number is pinged, after a time sync if it is 29, 59 or 89. */
  lemma PingingTurn(fx: Foreign, w: World, tick: Tick)
    requires NothingRead(w, tick) && w.ends.outbound.connected && tick.now > w.ends.user.lastPingTime
    requires w.ends.user.currentPing < 100
    requires Writes(w.ends.outbound, if w.ends.user.currentPing in {29, 59, 89} then 2 else 1)
    ensures var number, out := w.ends.user.currentPing, w.ends.outbound;
            var sync := number in {29, 59, 89};
            var w' := AfterTurn(fx, w, tick);
            && w'.ends.inbound == w.ends.inbound
            && w'.ends.user == w.ends.user.(successfulPing := false, lastPingTime := tick.after, memory := tick.memory)
            && w'.ends.outbound.connected && w'.ends.outbound.fromPeer == out.fromPeer
            && w'.ends.outbound.connects == out.connects
            && w'.ends.outbound.writes == out.writes[if sync then 2 else 1..]
            && w'.ends.outbound.toPeer
               == out.toPeer + (if sync then [DateBytes(tick.date)] else []) + [PingBytes(number)]
            && w'.trace == w.trace + (if sync then [Sync] else []) + [Ping(number, tick.now)]
  {
    hide InboundDelivered, OutboundDelivered, FrameBytes, PingBytes, DateBytes;
    PingSpelled(w.ends.user.currentPing);
    DateSpelled(tick.date);
    PingsWhen(w.ends.user.currentPing);
    NotEmpty(tick.date, w.ends.user.currentPing);
  }

  lemma PingsWhen(number: byte)
    requires number < 100
    ensures SyncDue(number) <==> number in {29, 59, 89}
  {
  }

  lemma NotEmpty(date: Date, number: byte)
    ensures FrameBytes(DateFrame(date)) != [] && FrameBytes(PingFrame(number)) != []
  {
  }

  // ---------------------------------------------------------------- turns in which something is read

  /** What a turn amounts to when both links are up and no ping is due. */
  lemma PipeTurn(fx: Foreign, w: World, tick: Tick, ends: Ends<Ctx>)
    requires w.ends.inbound.connected && w.ends.outbound.connected
    requires var first := InboundLooped(Some(InChain(fx)), Remembering(w, tick.memory).ends, tick.inRead);
             ends == OutboundLooped(Some(OutChain(fx)), first, tick.outRead)
    requires tick.now <= ends.user.lastPingTime
    ensures AfterTurn(fx, w, tick) == World(ends, w.trace)
  {
    hide InboundLooped, OutboundLooped, AfterPing;
  }

  /** Bytes waiting to be read on an open link. */
  predicate Waiting(t: Tcp, m: Msg) {
    t.connected && t.fromPeer != [] && t.fromPeer[0] == m && 1 <= |m| <= 2047
  }

  lemma CarRead(fx: Foreign, ends: Ends<Ctx>, m: Msg)
    requires Waiting(ends.outbound, m)
    ensures var out := ends.outbound;
            var o := Transformation(OutChain(fx), ends.user, m);
            OutboundLooped(Some(OutChain(fx)), ends, Ready)
            == Ends(o.state, LazilyPublished(ends.inbound, o.result),
                    PublishedAll(out.(fromPeer := out.fromPeer[1..]), o.responses))
  {
    hide Transformation, OutChain, LazilyPublished, PublishedAll;
  }

  lemma CloudRead(fx: Foreign, ends: Ends<Ctx>, m: Msg)
    requires Waiting(ends.inbound, m)
    ensures var inb := ends.inbound;
            var o := Transformation(InChain(fx), ends.user, m);
            InboundLooped(Some(InChain(fx)), ends, Ready)
            == Ends(o.state, PublishedAll(inb.(fromPeer := inb.fromPeer[1..]), o.responses),
                    LazilyPublished(ends.outbound, o.result))
  {
    hide Transformation, InChain, LazilyPublished, PublishedAll;
  }

  /** A link after a read, with what has been sent on it since. */
  function ReadAndSent(t: Tcp, sent: seq<Msg>): Tcp
    requires t.fromPeer != [] && |sent| <= |t.writes|
  {
    t.(fromPeer := t.fromPeer[1..], writes := t.writes[|sent|..], toPeer := t.toPeer + sent)
  }

  function JustSent(t: Tcp, sent: seq<Msg>): Tcp
    requires |sent| <= |t.writes|
  {
    t.(writes := t.writes[|sent|..], toPeer := t.toPeer + sent)
  }

  lemma SentOne(t: Tcp, m: Msg)
    requires Writes(t, 1) && m != []
    ensures PublishedAll(t, [m]) == LazilyPublished(t, Some(m)) == JustSent(t, [m])
  {
    PublishedOne(t, m);
  }

  lemma SentNone(t: Tcp)
    ensures PublishedAll(t, []) == LazilyPublished(t, None) == t
  {
  }

  /** The acknowledgement of a request with command 16 * h + l. */
  function AckOf(h: byte, l: byte, reg: byte): seq<byte>
    requires h < 16 && l < 16
  {
    [16 * l + h, 4, 1, reg, 0, (16 * l + h + 4 + 1 + reg) % 256]
  }

  predicate Digits(m: Msg, h: byte, l: byte) {
    |m| > 0 && h < 16 && l < 16 && m[0] == 16 * h + l
  }

  /** No ping is due in this turn. */
  predicate TooEarly(w: World, tick: Tick) {
    w.ends.inbound.connected && w.ends.outbound.connected && tick.now <= w.ends.user.lastPingTime
  }

  /** A request is read from the car: it is acknowledged to the car, and to nobody else. The
      cloud gets a report of a 0x6f frame, and nothing else. */
  lemma RequestTurn(fx: Foreign, w: World, tick: Tick, m: Msg, h: byte, l: byte) returns (p: PhevMessage)
    requires TooEarly(w, tick) && tick.inRead == Idle && tick.outRead == Ready
    requires Waiting(w.ends.outbound, m) && StartsFrame(m) && Digits(m, h, l) && m[2] == 0
    requires Writes(w.ends.outbound, 1) && Writes(w.ends.inbound, 1) && forall q :: fx.responseText(q) != []
    ensures p.command == m[0] && p.typ == m[2] && p.reg == m[3]
    ensures AfterTurn(fx, w, tick)
            == World(Ends(w.ends.user.(memory := tick.memory),
                          if m[0] == 0x6f then JustSent(w.ends.inbound, [fx.responseText(p)]) else w.ends.inbound,
                          ReadAndSent(w.ends.outbound, [AckOf(h, l, m[3])])), w.trace)
  {
    hide Transformation, OutChain, InChain, LazilyPublished, PublishedAll, AfterTurn;
    var ends := Remembering(w, tick.memory).ends;
    p := FrameOutcome(fx, ends.user, m, h, l);
    CarRead(fx, ends, m);
    var out := w.ends.outbound;
    SentOne(out.(fromPeer := out.fromPeer[1..]), AckOf(h, l, m[3]));
    SentOne(w.ends.inbound, fx.responseText(p));
    SentNone(w.ends.inbound);
    PipeTurn(fx, w, tick, OutboundLooped(Some(OutChain(fx)), ends, Ready));
  }

  /** Anything else that is read from the car is not acknowledged: the car gets nothing. The
      cloud gets a report of a 0x6f frame that is no response; an answer to a ping moves the
      counter on. */
  lemma OtherTurn(fx: Foreign, w: World, tick: Tick, m: Msg, h: byte, l: byte) returns (p: PhevMessage)
    requires TooEarly(w, tick) && tick.inRead == Idle && tick.outRead == Ready
    requires Waiting(w.ends.outbound, m) && StartsFrame(m) && Digits(m, h, l) && m[2] != 0
    requires Writes(w.ends.inbound, 1) && forall q :: fx.responseText(q) != []
    ensures p.command == m[0] && p.typ == m[2] && p.reg == m[3]
    ensures var user, inb := w.ends.user.(memory := tick.memory), w.ends.inbound;
            var counted := user.(currentPing := (m[3] as int + 1) % 100, successfulPing := true);
            AfterTurn(fx, w, tick)
            == World(Ends(if m[0] == 0x9f then counted else user,
                          if m[0] == 0x6f && m[2] != 1 then JustSent(inb, [fx.responseText(p)]) else inb,
                          ReadAndSent(w.ends.outbound, [])), w.trace)
  {
    hide Transformation, OutChain, InChain, LazilyPublished, PublishedAll, AfterTurn;
    var ends := Remembering(w, tick.memory).ends;
    p := FrameOutcome(fx, ends.user, m, h, l);
    CarRead(fx, ends, m);
    var out := w.ends.outbound;
    SentNone(out.(fromPeer := out.fromPeer[1..]));
    assert out.toPeer + [] == out.toPeer;
    SentOne(w.ends.inbound, fx.responseText(p));
    SentNone(w.ends.inbound);
    PipeTurn(fx, w, tick, OutboundLooped(Some(OutChain(fx)), ends, Ready));
  }

  /** Bytes that are no frame are read, and that is all. */
  lemma GarbageTurn(fx: Foreign, w: World, tick: Tick, m: Msg)
    requires TooEarly(w, tick) && tick.inRead == Idle && tick.outRead == Ready && Waiting(w.ends.outbound, m)
    requires |m| < 2 || m[0] !in {0xf2, 0x2f, 0xf6, 0x6f, 0xf9, 0x9f} || m[1] + 2 > |m|
    ensures AfterTurn(fx, w, tick)
            == World(Ends(w.ends.user.(memory := tick.memory), w.ends.inbound,
                          ReadAndSent(w.ends.outbound, [])), w.trace)
  {
    hide Transformation, OutChain, InChain, LazilyPublished, PublishedAll, AfterTurn;
    var ends := Remembering(w, tick.memory).ends;
    NoFrameOutcome(fx, ends.user, m);
    CarRead(fx, ends, m);
    var out := w.ends.outbound;
    SentNone(out.(fromPeer := out.fromPeer[1..]));
    assert out.toPeer + [] == out.toPeer;
    SentNone(w.ends.inbound);
    PipeTurn(fx, w, tick, OutboundLooped(Some(OutChain(fx)), ends, Ready));
  }

  /** The bytes a document makes of what is stored. */
  function ToldBy(fx: Foreign, c: Ctx, m: Msg): seq<byte>
    requires fx.document(m).state.Some?
  {
    var s := fx.document(m).state.value;
    Told(s.connectedClients > 0,
         Switched(s.headLightsOn, Was(c, (t: State) => t.headLightsOn)),
         Switched(s.parkLightsOn, Was(c, (t: State) => t.parkLightsOn)),
         Switched(s.airConOn, Was(c, (t: State) => t.airConOn)))
  }

  predicate BringsNoUpdate(fx: Foreign, m: Msg) {
    var u := fx.document(m).update;
    u.latestBuild <= u.currentBuild && !u.forceUpdate && fx.document(m).state.Some?
  }

  predicate AllSet(c: Ctx) {
    c.config.Some? ==>
      var s := c.config.value.state; s.headLightsOn != NOTSET && s.parkLightsOn != NOTSET && s.airConOn != NOTSET
  }

  lemma DocumentRead(fx: Foreign, ends: Ends<Ctx>, m: Msg) returns (stored: Config)
    requires BringsNoUpdate(fx, m) && AllSet(ends.user) && forall s :: fx.stateText(s) != []
    requires Waiting(ends.inbound, m) && Writes(ends.inbound, 1) && Writes(ends.outbound, 1)
    ensures InboundLooped(Some(InChain(fx)), ends, Ready)
            == Ends(ends.user.(config := Some(stored)),
                    ReadAndSent(ends.inbound, [fx.stateText(stored.state)]),
                    JustSent(ends.outbound, [ToldBy(fx, ends.user, m)]))
  {
    hide Transformation, InChain, LazilyPublished, PublishedAll, Told;
    DocumentTold(fx, ends.user, m);
    InChainOutcome(fx, ends.user, m);
    stored := Merged(fx, ends.user, m);
    hide Merged, Stream, CarCommands;
    CloudRead(fx, ends, m);
    var inb := ends.inbound;
    SentOne(inb.(fromPeer := inb.fromPeer[1..]), fx.stateText(stored.state));
    ToldSomething(fx, ends.user, m);
    SentOne(ends.outbound, ToldBy(fx, ends.user, m));
  }

  lemma ToldSomething(fx: Foreign, c: Ctx, m: Msg)
    requires fx.document(m).state.Some?
    ensures ToldBy(fx, c, m) != []
  {
  }

  /** A configuration is read from the cloud: the car gets the commands, the cloud the state. */
  lemma ConfigTurn(fx: Foreign, w: World, tick: Tick, m: Msg) returns (stored: Config)
    requires TooEarly(w, tick) && tick.inRead == Ready && tick.outRead == Idle && Waiting(w.ends.inbound, m)
    requires BringsNoUpdate(fx, m) && AllSet(w.ends.user) && forall s :: fx.stateText(s) != []
    requires Writes(w.ends.inbound, 1) && Writes(w.ends.outbound, 1)
    ensures AfterTurn(fx, w, tick)
            == World(Ends(w.ends.user.(memory := tick.memory, config := Some(stored)),
                          ReadAndSent(w.ends.inbound, [fx.stateText(stored.state)]),
                          JustSent(w.ends.outbound, [ToldBy(fx, w.ends.user, m)])), w.trace)
  {
    hide Transformation, OutChain, InChain, LazilyPublished, PublishedAll, AfterTurn, InboundLooped, Told;
    var ends := Remembering(w, tick.memory).ends;
    stored := DocumentRead(fx, ends, m);
    PipeTurn(fx, w, tick, InboundLooped(Some(InChain(fx)), ends, Ready));
  }

  /** The same when the cloud client hands the configuration over outside the event loop. */
  lemma ConfigCallback(fx: Foreign, w: World, m: Msg, memory: Memory) returns (stored: Config)
    requires BringsNoUpdate(fx, m) && AllSet(w.ends.user) && forall s :: fx.stateText(s) != []
    requires Writes(w.ends.inbound, 1) && Writes(w.ends.outbound, 1)
    ensures AfterConfig(fx, w, m, memory)
            == World(Ends(w.ends.user.(memory := memory, config := Some(stored)),
                          JustSent(w.ends.inbound, [fx.stateText(stored.state)]),
                          JustSent(w.ends.outbound, [ToldBy(fx, w.ends.user, m)])), w.trace)
  {
    hide Transformation, InChain, LazilyPublished, PublishedAll, Told;
    var user := w.ends.user.(memory := memory);
    DocumentTold(fx, user, m);
    InChainOutcome(fx, user, m);
    stored := Merged(fx, user, m);
    hide Merged, Stream, CarCommands;
    SentOne(w.ends.inbound, fx.stateText(stored.state));
    ToldSomething(fx, user, m);
    SentOne(w.ends.outbound, ToldBy(fx, user, m));
  }

  /** An update keeps everybody quiet. */
  lemma UpdateTurn(fx: Foreign, w: World, tick: Tick, m: Msg)
    requires TooEarly(w, tick) && tick.inRead == Ready && tick.outRead == Idle && Waiting(w.ends.inbound, m)
    requires var u := fx.document(m).update; u.latestBuild > u.currentBuild || u.forceUpdate
    requires fx.document(m).state.Some? && AllSet(w.ends.user)
    ensures var w' := AfterTurn(fx, w, tick);
            && w'.ends.user.otaUpdating && w'.ends.outbound == w.ends.outbound && w'.trace == w.trace
            && w'.ends.inbound == ReadAndSent(w.ends.inbound, [])
  {
    hide Transformation, OutChain, InChain, LazilyPublished, PublishedAll, AfterTurn, Told;
    var ends := Remembering(w, tick.memory).ends;
    DocumentTold(fx, ends.user, m);
    InChainOutcome(fx, ends.user, m);
    hide Merged, Stream, CarCommands;
    CloudRead(fx, ends, m);
    var inb := w.ends.inbound;
    SentNone(inb.(fromPeer := inb.fromPeer[1..]));
    SentNone(w.ends.outbound);
    assert inb.toPeer + [] == inb.toPeer;
    PipeTurn(fx, w, tick, InboundLooped(Some(InChain(fx)), ends, Ready));
  }

  /** When both are read in one turn, the cloud comes first: the car gets the commands, then
      the acknowledgement. */
  lemma BothTurn(fx: Foreign, w: World, tick: Tick, config: Msg, m: Msg, h: byte, l: byte) returns (stored: Config)
    requires TooEarly(w, tick) && tick.inRead == Ready && tick.outRead == Ready
    requires Waiting(w.ends.inbound, config) && Waiting(w.ends.outbound, m)
    requires BringsNoUpdate(fx, config) && AllSet(w.ends.user) && forall s :: fx.stateText(s) != []
    requires StartsFrame(m) && Digits(m, h, l) && m[2] == 0 && m[0] != 0x6f && forall q :: fx.responseText(q) != []
    requires Writes(w.ends.inbound, 1) && Writes(w.ends.outbound, 2)
    ensures AfterTurn(fx, w, tick)
            == World(Ends(w.ends.user.(memory := tick.memory, config := Some(stored)),
                          ReadAndSent(w.ends.inbound, [fx.stateText(stored.state)]),
                          ReadAndSent(w.ends.outbound, [ToldBy(fx, w.ends.user, config), AckOf(h, l, m[3])])), w.trace)
  {
    hide Transformation, OutChain, InChain, LazilyPublished, PublishedAll, AfterTurn, InboundLooped, Told, AckOf;
    var ends := Remembering(w, tick.memory).ends;
    stored := DocumentRead(fx, ends, config);
    var ends1 := InboundLooped(Some(InChain(fx)), ends, Ready);
    var p := FrameOutcome(fx, ends1.user, m, h, l);
    CarRead(fx, ends1, m);
    var out := ends1.outbound;
    AckThere(h, l, m[3]);
    SentOne(out.(fromPeer := out.fromPeer[1..]), AckOf(h, l, m[3]));
    SentNone(ends1.inbound);
    SentTwice(w.ends.outbound, ToldBy(fx, w.ends.user, config), AckOf(h, l, m[3]));
    PipeTurn(fx, w, tick, OutboundLooped(Some(OutChain(fx)), ends1, Ready));
  }

  lemma AckThere(h: byte, l: byte, reg: byte)
    requires h < 16 && l < 16
    ensures AckOf(h, l, reg) == [16 * l + h, 4, 1, reg, 0, (16 * l + h + 4 + 1 + reg) % 256] != []
  {
  }

  lemma SentTwice(t: Tcp, a: Msg, b: Msg)
    requires t.fromPeer != [] && 2 <= |t.writes|
    ensures var once := JustSent(t, [a]);
            JustSent(once.(fromPeer := once.fromPeer[1..]), [b]) == ReadAndSent(t, [a, b])
  {
    assert t.toPeer + [a] + [b] == t.toPeer + [a, b];
    assert t.writes[1..][1..] == t.writes[2..];
  }

  // ---------------------------------------------------------------- resets over runs

  /** In every run: a turn that starts with the cloud link up, the car link down and a counter
      above 0 leaves a reset in the trace, and the next ping after it carries 0. */
  lemma ResetThenZero(fx: Foreign, w: World, before: seq<PingRun.Step>, tick: Tick, later: seq<PingRun.Step>, j: nat)
    requires PingRun.Initial(w) && PingRun.Run(fx, w, before + [PingRun.Turn(tick)] + later)
    requires var v := PingRun.Final(fx, w, before);
             v.ends.inbound.connected && !v.ends.outbound.connected && v.ends.user.currentPing > 0
    ensures var reset := |PingRun.Final(fx, w, before).trace|;
            var trace := PingRun.Final(fx, w, before + [PingRun.Turn(tick)] + later).trace;
            && reset < |trace| && trace[reset].Reset?
            && (reset < j < |trace| && trace[j].Ping? && (forall k | reset < k < j :: !trace[k].Ping?) ==>
                  trace[j].number == 0)
  {
    hide AfterTurn, PingRun.After, PingRun.Possible, PingRun.GoodTrace, PingRun.Initial;
    var v := PingRun.Final(fx, w, before);
    var v' := AfterTurn(fx, v, tick);
    ResetExactly(fx, v, tick);
    FinalParts(fx, w, before, PingRun.Turn(tick), later);
    TraceGrowsOver(fx, PingRun.After(fx, v, PingRun.Turn(tick)), later);
    TurnIs(fx, v, tick);
    PingRun.PingSequence(fx, w, before + [PingRun.Turn(tick)] + later);
    var trace := PingRun.Final(fx, w, before + [PingRun.Turn(tick)] + later).trace;
    var reset := |v.trace|;
    assert trace[reset] == v'.trace[reset];
    if reset < j < |trace| && trace[j].Ping? && forall k | reset < k < j :: !trace[k].Ping? {
      NoPingSince(trace, reset, j);
      PingRun.FirstPing(trace, j);
    }
  }

  lemma TurnIs(fx: Foreign, w: World, tick: Tick)
    ensures PingRun.After(fx, w, PingRun.Turn(tick)) == AfterTurn(fx, w, tick)
  {
  }

  lemma {:induction false} FinalParts(fx: Foreign, w: World, before: seq<PingRun.Step>, step: PingRun.Step,
                                      later: seq<PingRun.Step>)
    ensures PingRun.Final(fx, w, before + [step] + later)
            == PingRun.Final(fx, PingRun.After(fx, PingRun.Final(fx, w, before), step), later)
    decreases |before|
  {
    hide PingRun.After;
    var all := before + [step] + later;
    if before == [] {
      assert all[0] == step && all[1..] == later;
    } else {
      FinalParts(fx, PingRun.After(fx, w, before[0]), before[1..], step, later);
      assert all[0] == before[0] && all[1..] == before[1..] + [step] + later;
    }
  }

  /** Steps only add to the trace. */
  lemma TraceGrows(fx: Foreign, w: World, step: PingRun.Step)
    ensures w.trace <= PingRun.After(fx, w, step).trace
  {
    hide AfterTurn, InboundDelivered;
    match step
    case Turn(tick) => ResetExactly(fx, w, tick);
    case _ =>
  }

  lemma {:induction false} TraceGrowsOver(fx: Foreign, w: World, steps: seq<PingRun.Step>)
    ensures w.trace <= PingRun.Final(fx, w, steps).trace
    decreases |steps|
  {
    hide PingRun.After;
    if steps != [] {
      TraceGrows(fx, w, steps[0]);
      TraceGrowsOver(fx, PingRun.After(fx, w, steps[0]), steps[1..]);
    }
  }

  lemma {:induction false} NoPingSince(trace: seq<Event>, reset: nat, j: nat)
    requires reset < j <= |trace| && trace[reset].Reset? && forall k | reset < k < j :: !trace[k].Ping?
    ensures PingRun.LastPing(trace[..j]).None?
    decreases j
  {
    assert trace[..j][..j - 1] == trace[..j - 1];
    if j > reset + 1 {
      NoPingSince(trace, reset, j - 1);
    }
  }
}
