/** Runs that do happen: a car that answers every ping. */
module EchoRun {
  import opened Bytes
  import opened Messaging
  import opened MsgPipe
  import opened PhevCore
  import opened PhevConfig
  import opened CarLink
  import opened PhevController
  import opened PingRun

  function EchoFrame(number: byte): Frame {
    Frame(PING_RESP_CMD, RESPONSE_TYPE, number, [0])
  }

  /** What the outside world supplies in such a run, besides the clock. */
  datatype Weather = Weather(date: Date, memory: Memory)

  /** A turn at this time in which the car's bytes, if any, are read. */
  function TickAt(now: int, weather: Weather): Tick {
    Tick(ReadOutcome.Idle, ReadOutcome.Ready, now, now, weather.date, weather.memory)
  }

  /** Both links are open, no ping or answer is in flight, and c is to be pinged next. */
  predicate Settled(w: World, c: byte) {
    && w.ends.inbound.connected && w.ends.outbound.connected
    && w.ends.outbound.fromPeer == [] && PingsIn(w.ends.outbound.toPeer) == []
    && w.ends.user.currentPing == c < 100
  }

  /** The writes of one ping, and of n of them from c on. */
  function Cost(c: byte): nat {
    if SyncDue(c) then 2 else 1
  }

  function Needed(c: byte, n: nat): nat
    decreases n
  {
    if n == 0 then 0 else Cost(c) + Needed(Succ(c), n - 1)
  }

  predicate Succeed(writes: seq<bool>, n: nat) {
    n <= |writes| && forall i | 0 <= i < n :: writes[i]
  }

  /** What n answered pings leave in the trace, one in each second. */
  function Pinged(c: byte, at: int): seq<Event> {
    (if SyncDue(c) then [Sync] else []) + [Ping(c, at)]
  }

  function Events(c: byte, n: nat, at: int): seq<Event>
    decreases n
  {
    if n == 0 then [] else Pinged(c, at) + Events(Succ(c), n - 1, at + 1)
  }

  // ---------------------------------------------------------------- one ping and its answer

  /** These steps can happen in w and lead to w'. */
  ghost predicate Leads(fx: Foreign, w: World, steps: seq<Step>, w': World) {
    Run(fx, w, steps) && Final(fx, w, steps) == w'
  }

  lemma {:induction false} LeadsOn(fx: Foreign, w: World, a: seq<Step>, w1: World, b: seq<Step>, w2: World)
    requires Leads(fx, w, a, w1) && Leads(fx, w1, b, w2)
    ensures Leads(fx, w, a + b, w2)
    decreases |a|
  {
    hide After, Possible;
    if a == [] {
      assert a + b == b;
    } else {
      LeadsOn(fx, After(fx, w, a[0]), a[1..], w1, b, w2);
      assert (a + b)[0] == a[0] && (a + b)[1..] == a[1..] + b;
    }
  }

  lemma LeadsNowhere(fx: Foreign, w: World)
    ensures Leads(fx, w, [], w)
  {
  }

  lemma OneStep(fx: Foreign, w: World, step: Step)
    requires Possible(w, step)
    ensures Leads(fx, w, [step], After(fx, w, step))
  {
    hide After, Possible;
    var steps := [step];
    assert steps[0] == step && steps[1..] == [];
    assert Run(fx, After(fx, w, step), []) && Final(fx, After(fx, w, step), []) == After(fx, w, step);
    assert Final(fx, w, steps) == Final(fx, After(fx, w, steps[0]), steps[1..]);
  }

  /** A turn in which nothing arrives and a ping is due. */
  lemma PingTurn(fx: Foreign, w: World, c: byte, weather: Weather)
    requires Settled(w, c)
    ensures AfterTurn(fx, w, TickAt(w.ends.user.lastPingTime + 1, weather))
            == var now := w.ends.user.lastPingTime + 1;
               var pinged := AfterPing(WithMemory(w, weather.memory), now, weather.date);
               pinged.(ends := pinged.ends.(user := pinged.ends.user.(lastPingTime := now)))
  {
    hide AfterPing, Transformation, InChain, OutChain;
  }

  /** A write on an open link succeeds: what is sent is in flight. */
  lemma Sent(t: Tcp, f: Frame)
    requires t.connected && Succeed(t.writes, 1) && Sendable(f)
    ensures LazilyPublished(t, Some(FrameBytes(f)))
            == t.(writes := t.writes[1..], toPeer := t.toPeer + [FrameBytes(f)])
    ensures PingsIn(t.toPeer + [FrameBytes(f)])
            == PingsIn(t.toPeer) + if f.command == PING_SEND_CMD && f.typ == REQUEST_TYPE then [f.reg] else []
  {
    FrameWrite(f);
    PingsAppend(t.toPeer, [FrameBytes(f)]);
    assert FrameBytes(f) != [];
    hide FrameBytes, PingsIn;
  }

  /** The ping, and the date before it if one is due. */
  lemma PingSent(w: World, c: byte, now: int, date: Date)
    requires Settled(w, c) && Succeed(w.ends.outbound.writes, Cost(c))
    ensures var w' := AfterPing(w, now, date);
            var out, out' := w.ends.outbound, w'.ends.outbound;
            && out' == out.(writes := out.writes[Cost(c)..], toPeer := out'.toPeer)
            && PingsIn(out'.toPeer) == [c]
            && w'.ends.inbound == w.ends.inbound
            && w'.ends.user == w.ends.user.(successfulPing := false)
            && w'.trace == w.trace + Pinged(c, now)
  {
    hide FrameBytes, PingsIn, LazilyPublished;
    var t := w.ends.outbound;
    if SyncDue(c) {
      Sent(t, DateFrame(date));
      var t' := t.(writes := t.writes[1..], toPeer := t.toPeer + [FrameBytes(DateFrame(date))]);
      Sent(t', PingFrame(c));
      assert t.writes[1..][1..] == t.writes[2..];
    } else {
      Sent(t, PingFrame(c));
    }
    assert w.trace + [Ping(c, now)] == w.trace + ([] + [Ping(c, now)]);
  }

  /** The car takes everything in and answers the ping. */
  lemma CarEchoes(fx: Foreign, w: World, c: byte)
    requires w.ends.outbound.connected && PingsIn(w.ends.outbound.toPeer) == [c]
    ensures var step, out := CarActs(|w.ends.outbound.toPeer|, [FrameBytes(EchoFrame(c))]), w.ends.outbound;
            && Possible(w, step)
            && After(fx, w, step)
               == w.(ends := w.ends.(outbound := out.(toPeer := [],
                                                      fromPeer := out.fromPeer + [FrameBytes(EchoFrame(c))])))
  {
    hide FrameBytes, PingsIn, EchoesIn, EchoOf, Legible, Subsequence, Possible, After;
    var chunk := FrameBytes(EchoFrame(c));
    EchoLegible(c);
    OneRead(chunk);
    SubsequenceRefl([c]);
    AllConsumed(fx, w, chunk, c);
  }

  lemma EchoLegible(c: byte)
    ensures Legible(FrameBytes(EchoFrame(c))) && EchoOf(FrameBytes(EchoFrame(c))) == [c]
  {
    FrameThenTail(EchoFrame(c), []);
    assert FrameBytes(EchoFrame(c)) + [] == FrameBytes(EchoFrame(c));
  }

  lemma OneRead(m: Msg)
    ensures EchoesIn([m]) == EchoOf(m)
  {
    hide EchoOf;
    assert [m][1..] == [] && EchoOf(m) + [] == EchoOf(m);
  }

  lemma AllConsumed(fx: Foreign, w: World, chunk: Msg, c: byte)
    requires w.ends.outbound.connected && PingsIn(w.ends.outbound.toPeer) == [c]
    requires Legible(chunk) && EchoesIn([chunk]) == [c] && Subsequence([c], [c])
    ensures var step, out := CarActs(|w.ends.outbound.toPeer|, [chunk]), w.ends.outbound;
            && Possible(w, step)
            && After(fx, w, step)
               == w.(ends := w.ends.(outbound := out.(toPeer := [], fromPeer := out.fromPeer + [chunk])))
  {
    hide PingsIn, EchoesIn, Subsequence, Legible;
    var out := w.ends.outbound;
    assert out.toPeer[..|out.toPeer|] == out.toPeer && out.toPeer[|out.toPeer|..] == [];
  }

  /** The answer is read, in the same second. */
  lemma AnswerRead(fx: Foreign, w: World, c: byte, weather: Weather)
    requires w.ends.inbound.connected && w.ends.outbound.connected
    requires w.ends.outbound.fromPeer == [FrameBytes(EchoFrame(c))]
    ensures AfterTurn(fx, w, TickAt(w.ends.user.lastPingTime, weather))
            == w.(ends := w.ends.(outbound := w.ends.outbound.(fromPeer := []),
                                  user := Answered(WithMemory(w, weather.memory).ends.user, EchoFrame(c))))
  {
    hide FrameBytes, AfterPing, Transformation, InChain, OutChain;
    var user := WithMemory(w, weather.memory).ends.user;
    assert FrameBytes(EchoFrame(c)) + [] == FrameBytes(EchoFrame(c));
    OutChainOutcome(fx, user, EchoFrame(c), []);
    PublishedNothing(w.ends.outbound.(fromPeer := []));
    hide PublishedAll, Answered;
    AnsweredTime(user, EchoFrame(c));
  }

  /** Without that condition all is lost: a read that looks like an answer nobody gave, from the
      middle of some frame on, moves the counter anywhere. */
  lemma StrayAnswer(fx: Foreign, w: World, c: byte, stray: byte, weather: Weather)
    requires Settled(w, c)
    ensures var w1 := After(fx, w, CarActs(0, [FrameBytes(EchoFrame(stray))]));
            AfterTurn(fx, w1, TickAt(w.ends.user.lastPingTime, weather)).ends.user.currentPing == Succ(stray)
  {
    hide FrameBytes, AfterTurn, PingsIn;
    var out := w.ends.outbound;
    assert out.toPeer[0..] == out.toPeer;
    AnswerRead(fx, After(fx, w, CarActs(0, [FrameBytes(EchoFrame(stray))])), stray, weather);
  }

  lemma AnsweredTime(c: Ctx, f: Frame)
    ensures Answered(c, f).lastPingTime == c.lastPingTime
  {
  }

  /** What a number of answered pings changes. */
  predicate Served(w: World, w': World, c: byte, n: nat) {
    var out, out' := w.ends.outbound, w'.ends.outbound;
    && Settled(w', ((c as int + n) % 100) as byte)
    && Needed(c, n) <= |out.writes| && out'.writes == out.writes[Needed(c, n)..] && out'.connects == out.connects
    && w'.ends.user.lastPingTime == w.ends.user.lastPingTime + n
    && w'.trace == w.trace + Events(c, n, w.ends.user.lastPingTime + 1)
  }

  lemma ServedOnce(w: World, w': World, c: byte)
    requires c < 100 && Settled(w', Succ(c)) && Cost(c) <= |w.ends.outbound.writes|
    requires w'.ends.outbound.writes == w.ends.outbound.writes[Cost(c)..]
    requires w'.ends.outbound.connects == w.ends.outbound.connects
    requires w'.ends.user.lastPingTime == w.ends.user.lastPingTime + 1
    requires w'.trace == w.trace + Pinged(c, w.ends.user.lastPingTime + 1)
    ensures Served(w, w', c, 1)
  {
    hide Pinged, Settled;
    var at := w.ends.user.lastPingTime + 1;
    assert Events(Succ(c), 0, at + 1) == [] && Needed(Succ(c), 0) == 0;
    assert Events(c, 1, at) == Pinged(c, at) + [] == Pinged(c, at);
    assert Needed(c, 1) == Cost(c);
  }

  lemma ServedNone(w: World, c: byte)
    requires Settled(w, c)
    ensures Served(w, w, c, 0)
  {
    hide PingsIn;
    assert w.trace + [] == w.trace && c as int % 100 == c;
  }

  lemma ServedOn(w: World, w1: World, w2: World, c: byte, n: nat)
    requires c < 100 && Served(w, w1, c, 1) && Served(w1, w2, Succ(c), n)
    ensures Served(w, w2, c, n + 1)
  {
    var at := w.ends.user.lastPingTime + 1;
    EventsStep(c, 1, at);
    EventsStep(c, n + 1, at);
    NeededStep(c, 1);
    NeededStep(c, n + 1);
    hide Pinged, Settled, Cost, Needed, Events;
    var writes := w.ends.outbound.writes;
    assert writes[Cost(c)..][Needed(Succ(c), n)..] == writes[Needed(c, n + 1)..];
    Joined(w.trace, Pinged(c, at), Events(Succ(c), n, at + 1));
    GoingRound(c, n);
  }

  lemma GoingRound(c: byte, n: nat)
    requires c < 100
    ensures (Succ(c) as int + n) % 100 == (c as int + n + 1) % 100
  {
    if c == 99 {
      assert (n + 100) % 100 == n % 100;
    }
  }

  lemma Joined(a: seq<Event>, b: seq<Event>, c: seq<Event>)
    ensures a + (b + []) + c == a + b + c == a + (b + c)
  {
  }

  lemma NeededStep(c: byte, n: nat)
    requires n > 0
    ensures Needed(c, n) == Cost(c) + Needed(Succ(c), n - 1) && Needed(c, 0) == 0 && Needed(Succ(c), 0) == 0
  {
  }

  /** One ping, its answer, and the turn that reads it. */
  lemma Cycle(fx: Foreign, w: World, c: byte, weather: Weather) returns (steps: seq<Step>, w': World)
    requires Settled(w, c) && Succeed(w.ends.outbound.writes, Cost(c))
    ensures Leads(fx, w, steps, w') && Served(w, w', c, 1)
  {
    hide AfterTurn, After, Leads, Served, AfterPing, FrameBytes, PingsIn, Pinged, Events, Needed;
    var now := w.ends.user.lastPingTime + 1;
    var tick := TickAt(now, weather);
    var w1 := AfterTurn(fx, w, tick);
    TurnToPing(fx, w, c, weather);
    var echo := CarActs(|w1.ends.outbound.toPeer|, [FrameBytes(EchoFrame(c))]);
    CarEchoes(fx, w1, c);
    var w2 := After(fx, w1, echo);
    AnswerRead(fx, w2, c, weather);
    w' := AfterTurn(fx, w2, tick);
    PingAnswered(w2, w', c, weather);
    ServedOnce(w, w', c);
    TurnStep(fx, w, tick);
    TurnStep(fx, w2, tick);
    OneStep(fx, w1, echo);
    LeadsOn(fx, w, [Step.Turn(tick)], w1, [echo], w2);
    LeadsOn(fx, w, [Step.Turn(tick)] + [echo], w2, [Step.Turn(tick)], w');
    steps := [Step.Turn(tick)] + [echo] + [Step.Turn(tick)];
  }

  lemma TurnStep(fx: Foreign, w: World, tick: Tick)
    requires tick.now <= tick.after
    ensures Leads(fx, w, [Step.Turn(tick)], AfterTurn(fx, w, tick))
  {
    hide AfterTurn, Leads;
    OneStep(fx, w, Step.Turn(tick));
  }

  lemma TurnToPing(fx: Foreign, w: World, c: byte, weather: Weather)
    requires Settled(w, c) && Succeed(w.ends.outbound.writes, Cost(c))
    ensures var now := w.ends.user.lastPingTime + 1;
            var w1 := AfterTurn(fx, w, TickAt(now, weather));
            var out, out' := w.ends.outbound, w1.ends.outbound;
            && out' == out.(writes := out.writes[Cost(c)..], toPeer := out'.toPeer)
            && PingsIn(out'.toPeer) == [c] && w1.ends.inbound == w.ends.inbound
            && w1.ends.user.currentPing == c && w1.ends.user.lastPingTime == now
            && w1.trace == w.trace + Pinged(c, now)
  {
    hide AfterTurn, AfterPing, FrameBytes, PingsIn, Pinged;
    var now := w.ends.user.lastPingTime + 1;
    PingTurn(fx, w, c, weather);
    PingSent(WithMemory(w, weather.memory), c, now, weather.date);
  }

  lemma PingAnswered(w: World, w': World, c: byte, weather: Weather)
    requires c < 100 && w.ends.inbound.connected && w.ends.outbound.connected && w.ends.outbound.toPeer == []
    requires w' == w.(ends := w.ends.(outbound := w.ends.outbound.(fromPeer := []),
                                      user := Answered(WithMemory(w, weather.memory).ends.user, EchoFrame(c))))
    ensures Settled(w', Succ(c)) && w'.ends.user.lastPingTime == w.ends.user.lastPingTime
  {
  }

  /** n pings in a row, each answered. */
  lemma {:induction false} Cycles(fx: Foreign, w: World, c: byte, n: nat, weather: Weather)
    returns (steps: seq<Step>, w': World)
    requires Settled(w, c) && Succeed(w.ends.outbound.writes, Needed(c, n))
    ensures Leads(fx, w, steps, w') && Served(w, w', c, n)
    decreases n
  {
    hide *;
    if n == 0 {
      steps, w' := [], w;
      LeadsNowhere(fx, w);
      ServedNone(w, c);
    } else {
      EnoughWrites(w, c, n);
      var first, w1 := Cycle(fx, w, c, weather);
      OneServed(w, w1, c, n);
      var more, w2 := Cycles(fx, w1, Succ(c), n - 1, weather);
      LeadsOn(fx, w, first, w1, more, w2);
      ServedOn(w, w1, w2, c, n - 1);
      steps, w' := first + more, w2;
    }
  }

  lemma EnoughWrites(w: World, c: byte, n: nat)
    requires n > 0 && Settled(w, c) && Succeed(w.ends.outbound.writes, Needed(c, n))
    ensures c < 100 && Succeed(w.ends.outbound.writes, Cost(c))
  {
    NeededStep(c, n);
  }

  lemma OneServed(w: World, w1: World, c: byte, n: nat)
    requires c < 100 && n > 0 && Succeed(w.ends.outbound.writes, Needed(c, n)) && Served(w, w1, c, 1)
    ensures Settled(w1, Succ(c)) && Succeed(w1.ends.outbound.writes, Needed(Succ(c), n - 1))
  {
    NeededStep(c, n);
    NeededStep(c, 1);
    hide Needed, Cost, Events, PingsIn;
  }

  // ---------------------------------------------------------------- from the start

  /** A controller just initialised over a cloud link that is open and a car link that is
      not, with these results for opening the latter and writing to it. */
  function Start(connects: seq<bool>, writes: seq<bool>, memory: Memory): World {
    Initialised(Tcp(false, [true], [true], [], []), Tcp(false, connects, writes, [], []), memory)
  }

  /** The first configuration opens the car link. */
  lemma Opened(fx: Foreign, connects: seq<bool>, writes: seq<bool>, config: Msg, weather: Weather)
    requires !CheckForFirmwareUpdate(fx.document(config).update)
    requires connects != [] && connects[0] && writes != [] && writes[0]
    ensures var w := Start(connects, writes, weather.memory);
            var w' := AfterConfig(fx, w, config, weather.memory);
            && Initial(w) && Settled(w', 0)
            && w'.ends.outbound.connects == connects[1..] && w'.ends.outbound.writes == writes[1..]
            && w'.ends.user.lastPingTime == 0 && w'.trace == []
  {
    hide Transformation, InChain, Stream, CarCommands, PingsIn, SetConfig, PublishedAll, LazilyPublished;
    var w := Start(connects, writes, weather.memory);
    var merged := Merged(fx, w.ends.user, config);
    InChainOutcome(fx, w.ends.user, config);
    PublishedOne(w.ends.inbound, fx.stateText(merged.state));
    MergedUpdate(fx, w.ends.user, config);
    CommandBytes(merged.state);
    CommandsWrite(merged.state);
    hide Merged;
    LinkOpened(w.ends.outbound, Stream(CarCommands(merged.state)));
  }

  /** Something to send on a closed link opens it. */
  lemma LinkOpened(t: Tcp, m: Msg)
    requires !t.connected && t.connects != [] && t.connects[0] && t.writes != [] && t.writes[0] && m != []
    ensures LazilyPublished(t, Some(m)) == Tcp(true, t.connects[1..], t.writes[1..], [m], [])
  {
    assert [] + [m] == [m];
  }

  lemma MergedUpdate(fx: Foreign, c: Ctx, config: Msg)
    ensures Merged(fx, c, config).update == fx.document(config).update
  {
  }

  /** A run of answered pings from the start. */
  lemma EchoRunFrom(fx: Foreign, n: nat, connects: seq<bool>, writes: seq<bool>, config: Msg, weather: Weather)
    returns (steps: seq<Step>, w': World)
    requires !CheckForFirmwareUpdate(fx.document(config).update)
    requires connects != [] && connects[0] && Succeed(writes, 1 + Needed(0, n))
    ensures var w := Start(connects, writes, weather.memory);
            && Initial(w) && Leads(fx, w, steps, w')
            && Settled(w', (n % 100) as byte)
            && w'.ends.outbound.connects == connects[1..]
            && w'.ends.outbound.writes == writes[1 + Needed(0, n)..]
            && w'.trace == Events(0, n, 1)
  {
    hide AfterConfig, After, Leads, Initial, Start, Settled, Events, Needed;
    var w := Start(connects, writes, weather.memory);
    Opened(fx, connects, writes, config, weather);
    ConfigStep(fx, w, config, weather.memory);
    var first := [Step.ConfigArrives(config, weather.memory)];
    var w1 := AfterConfig(fx, w, config, weather.memory);
    var more;
    more, w' := Cycles(fx, w1, 0, n, weather);
    LeadsOn(fx, w, first, w1, more, w');
    steps := first + more;
    assert writes[1..][Needed(0, n)..] == writes[1 + Needed(0, n)..];
    assert [] + Events(0, n, 1) == Events(0, n, 1);
  }

  lemma ConfigStep(fx: Foreign, w: World, config: Msg, memory: Memory)
    ensures Leads(fx, w, [Step.ConfigArrives(config, memory)], AfterConfig(fx, w, config, memory))
  {
    hide AfterConfig, Leads;
    OneStep(fx, w, Step.ConfigArrives(config, memory));
  }

  // ---------------------------------------------------------------- a lost sync

  lemma {:induction false} NoSyncYet(c: byte, n: nat)
    requires c as int + n <= 29
    ensures Needed(c, n) == n
    decreases n
  {
    if n > 0 {
      NoSyncYet(Succ(c), n - 1);
    }
  }

  /** A whole run that loses a sync: 29 pings are answered, then the write of the sync fails
      and the link comes straight back. Sync and ping 29 have been submitted, but only the ping
      is on its way to the car. */
  lemma SyncLost(fx: Foreign, config: Msg, weather: Weather) returns (w: World, steps: seq<Step>)
    requires !CheckForFirmwareUpdate(fx.document(config).update)
    ensures Initial(w) && Run(fx, w, steps)
    ensures var w' := Final(fx, w, steps);
            && w'.ends.outbound.connected && w'.ends.outbound.toPeer == [FrameBytes(PingFrame(29))]
            && w'.trace == Events(0, 29, 1) + [Sync, Ping(29, w'.ends.user.lastPingTime)]
  {
    var writes := seq(30, _ => true) + [false, true];
    NoSyncYet(0, 29);
    w := Start([true, true], writes, weather.memory);
    var first, w1 := EchoRunFrom(fx, 29, [true, true], writes, config, weather);
    assert writes[30..] == [false, true] && [true, true][1..] == [true];
    var tick := TickAt(w1.ends.user.lastPingTime + 1, weather);
    PingTurn(fx, w1, 29, weather);
    hide AfterTurn, AfterPing, FrameBytes, Events, Initial, Start, PingsIn;
    LostAndFound(WithMemory(w1, weather.memory), tick.now, tick.date);
    TurnStep(fx, w1, tick);
    LeadsOn(fx, w, first, w1, [Step.Turn(tick)], AfterTurn(fx, w1, tick));
    steps := first + [Step.Turn(tick)];
  }

  lemma LostAndFound(w: World, now: int, date: Date)
    requires w.ends.user.currentPing == 29 && w.ends.outbound.connected
    requires w.ends.outbound.writes == [false, true] && w.ends.outbound.connects == [true]
    ensures var w' := AfterPing(w, now, date);
            && w'.ends.outbound.connected && w'.ends.outbound.toPeer == [FrameBytes(PingFrame(29))]
            && w'.trace == w.trace + [Sync, Ping(29, now)]
  {
    hide FrameBytes;
    assert w.trace + [Sync] + [Ping(29, now)] == w.trace + [Sync, Ping(29, now)];
  }

  // ---------------------------------------------------------------- all the way round

  /** What comes later does not change how far the number has advanced. */
  lemma {:induction false} AdvancePrefix(trace: seq<Event>, more: seq<Event>, i: nat, j: nat)
    requires i < j <= |trace| && trace[i].Ping?
    ensures Advance(trace + more, i, j) == Advance(trace, i, j)
    decreases j
  {
    if j > i + 1 {
      AdvancePrefix(trace, more, i, j - 1);
      assert (trace + more)[..j - 1] == trace[..j - 1];
    }
  }

  /** One more event. */
  lemma AdvanceLast(trace: seq<Event>, i: nat, e: Event)
    requires i < |trace| && trace[i].Ping?
    ensures var longer := trace + [e];
            && longer[..|trace|] == trace
            && Advance(longer, i, |longer|)
               == Advance(trace, i, |trace|)
                  + if e.Ping? && LastPing(trace).Some? && LastPing(trace).value.number != e.number then 1 else 0
  {
    var longer := trace + [e];
    assert longer[..|trace|] == trace && longer[|trace|] == e;
    AdvancePrefix(trace, [e], i, |trace|);
    hide LastPing;
  }

  lemma AdvanceSync(trace: seq<Event>, i: nat)
    requires i < |trace| && trace[i].Ping?
    ensures var longer := trace + [Sync];
            Advance(longer, i, |longer|) == Advance(trace, i, |trace|) && LastPing(longer) == LastPing(trace)
  {
    hide Advance;
    AdvanceLast(trace, i, Sync);
  }

  lemma AdvancePing(trace: seq<Event>, i: nat, p: Event)
    requires i < |trace| && trace[i].Ping? && LastPing(trace).Some? && p.Ping?
             && LastPing(trace).value.number != p.number
    ensures var longer := trace + [p];
            Advance(longer, i, |longer|) == Advance(trace, i, |trace|) + 1 && LastPing(longer) == Some(p)
  {
    hide Advance;
    AdvanceLast(trace, i, p);
  }

  lemma AdvanceOnce(trace: seq<Event>, i: nat, c: byte, at: int)
    requires i < |trace| && trace[i].Ping? && LastPing(trace).Some? && LastPing(trace).value.number != c
    ensures var longer := trace + Pinged(c, at);
            && Advance(longer, i, |longer|) == Advance(trace, i, |trace|) + 1
            && LastPing(longer) == Some(Ping(c, at))
  {
    hide Advance, LastPing;
    if SyncDue(c) {
      AdvanceSync(trace, i);
      AdvancePing(trace + [Sync], i, Ping(c, at));
      assert trace + [Sync] + [Ping(c, at)] == trace + Pinged(c, at);
    } else {
      AdvancePing(trace, i, Ping(c, at));
      assert trace + [Ping(c, at)] == trace + Pinged(c, at);
    }
  }

  lemma {:induction false} EventsAdvance(trace: seq<Event>, i: nat, c: byte, n: nat, at: int)
    requires i < |trace| && trace[i].Ping? && c < 100
    requires LastPing(trace).Some? && LastPing(trace).value.number == Pred(c)
    ensures var longer := trace + Events(c, n, at); Advance(longer, i, |longer|) == Advance(trace, i, |trace|) + n
    decreases n
  {
    if n == 0 {
      assert Events(c, n, at) == [] && trace + [] == trace;
      hide *;
    } else {
      hide LastPing, Advance, Pinged, Events;
      var next := trace + Pinged(c, at);
      AdvanceOnce(trace, i, c, at);
      EventsAdvance(next, i, Succ(c), n - 1, at + 1);
      EventsStep(c, n, at);
      Joined(trace, Pinged(c, at), Events(Succ(c), n - 1, at + 1));
    }
  }

  lemma {:induction false} EventsWithoutReset(c: byte, n: nat, at: int)
    ensures forall k | 0 <= k < |Events(c, n, at)| :: !Events(c, n, at)[k].Reset?
    decreases n
  {
    if n > 0 {
      EventsWithoutReset(Succ(c), n - 1, at + 1);
    }
  }

  /** A whole run in which the number advances by 100 without a reset, so that there are
      syncs not to be skipped. */
  lemma AllTheWayRound(fx: Foreign, config: Msg, weather: Weather) returns (w: World, steps: seq<Step>)
    requires !CheckForFirmwareUpdate(fx.document(config).update)
    ensures Initial(w) && Run(fx, w, steps)
    ensures var trace := Final(fx, w, steps).trace;
            && trace != [] && trace[0].Ping?
            && (forall k | 0 <= k < |trace| :: !trace[k].Reset?)
            && Advance(trace, 0, |trace|) == 100
  {
    hide Run, Final, Settled, Initial, Needed, Advance, Events, Start;
    var writes := seq(1 + Needed(0, 101), _ => true);
    w := Start([true], writes, weather.memory);
    var w';
    steps, w' := EchoRunFrom(fx, 101, [true], writes, config, weather);
    Round();
  }

  lemma Round()
    ensures var trace := Events(0, 101, 1);
            && trace != [] && trace[0].Ping?
            && (forall k | 0 <= k < |trace| :: !trace[k].Reset?)
            && Advance(trace, 0, |trace|) == 100
  {
    var first: seq<Event> := [Ping(0, 1)];
    EventsWithoutReset(0, 101, 1);
    assert LastPing(first) == Some(first[0]);
    assert Advance(first, 0, 1) == 0;
    FirstEvents();
    hide Events, Advance, LastPing;
    EventsAdvance(first, 0, 1, 100, 2);
  }

  lemma FirstEvents()
    ensures Events(0, 101, 1) == [Ping(0, 1)] + Events(1, 100, 2)
  {
    assert Pinged(0, 1) == [Ping(0, 1)];
    hide Pinged;
    EventsStep(0, 101, 1);
  }

  lemma EventsStep(c: byte, n: nat, at: int)
    requires n > 0
    ensures Events(c, n, at) == Pinged(c, at) + Events(Succ(c), n - 1, at + 1) && Events(Succ(c), 0, at + 1) == []
  {
  }
}
