/** Whole runs of the controller against a car that answers pings in order. */
module PingRun {
  import opened Bytes
  import opened Messaging
  import opened MsgPipe
  import opened PhevCore
  import opened CarLink
  import opened PhevController
  import PhevConfig

  // ---------------------------------------------------------------- what is in flight

  function EchoRegs(fs: seq<Frame>): seq<byte> {
    if fs == [] then []
    else (if IsEcho(fs[0]) then [fs[0].reg] else []) + EchoRegs(fs[1..])
  }

  function PingRegs(fs: seq<Frame>): seq<byte> {
    if fs == [] then []
    else (if fs[0].command == PING_SEND_CMD && fs[0].typ == REQUEST_TYPE then [fs[0].reg] else []) + PingRegs(fs[1..])
  }

  /** What the code takes for ping answers in a list of reads, and the pings in a list of
      writes. */
  function EchoesIn(chunks: seq<Msg>): seq<byte> {
    if chunks == [] then [] else EchoOf(chunks[0]) + EchoesIn(chunks[1..])
  }

  function PingsIn(writes: seq<Msg>): seq<byte> {
    if writes == [] then [] else PingRegs(Walk(writes[0], [])) + PingsIn(writes[1..])
  }

  /** Ping numbers on their way, oldest first: answers coming back, then pings going out. */
  function InFlight(t: Tcp): seq<byte> {
    EchoesIn(t.fromPeer) + PingsIn(t.toPeer)
  }

  ghost predicate Subsequence(a: seq<byte>, b: seq<byte>) {
    a == [] || (b != [] && ((a[0] == b[0] && Subsequence(a[1..], b[1..])) || Subsequence(a, b[1..])))
  }

  // ---------------------------------------------------------------- steps and runs

  /** The car works through `consumed` of the messages sent to it, and some reads become
      available, cut anywhere; the link loses everything in flight unnoticed; the cloud link changes, sends
      a message, or hands a configuration over; or the controller takes a turn. */
  datatype Step =
    | Turn(tick: Tick)
    | CarActs(consumed: nat, chunks: seq<Msg>)
    | InFlightLost
    | CloudLink(up: bool)
    | CloudSends(message: Msg)
    | ConfigArrives(config: Msg, memory: Memory)

  function After(fx: Foreign, w: World, step: Step): World {
    var out := w.ends.outbound;
    match step
    case Turn(tick) => AfterTurn(fx, w, tick)
    case CarActs(consumed, chunks) =>
      if |out.toPeer| < consumed then w
      else w.(ends := w.ends.(outbound := out.(toPeer := out.toPeer[consumed..], fromPeer := out.fromPeer + chunks)))
    case InFlightLost => w.(ends := w.ends.(outbound := out.(toPeer := [], fromPeer := [])))
    case CloudLink(up) => w.(ends := w.ends.(inbound := w.ends.inbound.(connected := up)))
    case CloudSends(message) =>
      w.(ends := w.ends.(inbound := w.ends.inbound.(fromPeer := w.ends.inbound.fromPeer + [message])))
    case ConfigArrives(config, memory) => AfterConfig(fx, w, config, memory)
  }

  /** The car answers pings first in, first out: it may delay or omit answers and send anything
      else, but the reads that look like ping answers carry the numbers it received, in that
      order, and can be made out whatever unwritten memory holds. A stray read, from the middle of
      a frame on, must not look like a ping answer. The clock does not run backwards during a
      turn. */
  ghost predicate Possible(w: World, step: Step) {
    var out := w.ends.outbound;
    match step
    case Turn(tick) => tick.now <= tick.after
    case CarActs(consumed, chunks) =>
      && out.connected && consumed <= |out.toPeer|
      && (forall r <- chunks :: Legible(r))
      && Subsequence(EchoesIn(chunks), PingsIn(out.toPeer[..consumed]))
    case _ => true
  }

  ghost predicate Run(fx: Foreign, w: World, steps: seq<Step>)
    decreases |steps|
  {
    steps == [] || (Possible(w, steps[0]) && Run(fx, After(fx, w, steps[0]), steps[1..]))
  }

  function Final(fx: Foreign, w: World, steps: seq<Step>): World
    decreases |steps|
  {
    if steps == [] then w else Final(fx, After(fx, w, steps[0]), steps[1..])
  }

  /** A controller that has just been initialised, with nothing in flight to or from the car. */
  predicate Initial(w: World) {
    && w.trace == []
    && w.ends.user.currentPing == 0 && w.ends.user.lastPingTime == 0
    && w.ends.outbound.toPeer == [] && w.ends.outbound.fromPeer == []
  }

  // ---------------------------------------------------------------- what a trace must look like

  /** The last ping since the last reset. */
  function LastPing(trace: seq<Event>): (last: Option<Event>)
    ensures last.Some? ==> last.value.Ping?
  {
    if trace == [] || trace[|trace| - 1].Reset? then None
    else if trace[|trace| - 1].Ping? then Some(trace[|trace| - 1])
    else LastPing(trace[..|trace| - 1])
  }

  function Succ(number: byte): byte {
    (number as int + 1) % 100
  }

  /** Ping `p` may follow the trace: the first number after a reset is 0, then each is the
      previous number or its successor; its second is later than that of the previous one;
      and numbers 29, 59 and 89 come right after a time sync. */
  predicate MayFollow(trace: seq<Event>, p: Event)
    requires p.Ping?
  {
    var last := LastPing(trace);
    && p.number < 100
    && (last.None? ==> p.number == 0)
    && (last.Some? ==> p.number == last.value.number || p.number == Succ(last.value.number))
    && (last.Some? ==> last.value.at < p.at)
    && (SyncDue(p.number) ==> trace != [] && trace[|trace| - 1].Sync?)
  }

  predicate GoodTrace(trace: seq<Event>) {
    forall j | 0 <= j < |trace| && trace[j].Ping? :: MayFollow(trace[..j], trace[j])
  }

  // ---------------------------------------------------------------- the inductive invariant

  function Pred(number: byte): byte {
    (number as int + 99) % 100
  }

  /** Some copies of the number before c, then copies of c. */
  predicate Staircase(q: seq<byte>, c: byte) {
    if q != [] && q[0] == Pred(c) then Staircase(q[1..], c) else AllAre(q, c)
  }

  predicate AllAre(q: seq<byte>, c: byte) {
    q == [] || (q[0] == c && AllAre(q[1..], c))
  }

  predicate Quiet(t: Tcp) {
    t.connected || (t.toPeer == [] && t.fromPeer == [])
  }

  predicate WellFormed(t: Tcp) {
    Quiet(t) && forall r <- t.fromPeer :: Legible(r)
  }

  /** The counter, the last ping sent and the numbers in flight. */
  predicate Consistent(c: byte, last: Option<Event>, q: seq<byte>) {
    && c < 100
    && Staircase(q, c)
    && match last
       case None => c == 0 && q == []
       case Some(p) => p.Ping? && (p.number == c || p.number == Pred(c)) && (c in q ==> p.number == c)
  }

  predicate Inv(w: World) {
    var last := LastPing(w.trace);
    && WellFormed(w.ends.outbound)
    && Consistent(w.ends.user.currentPing, last, InFlight(w.ends.outbound))
    && GoodTrace(w.trace)
    && (last.Some? ==> last.value.at <= w.ends.user.lastPingTime)
  }

  // ---------------------------------------------------------------- subsequences

  lemma {:induction false} SubsequenceRefl(a: seq<byte>)
    ensures Subsequence(a, a)
  {
    if a != [] {
      SubsequenceRefl(a[1..]);
    }
  }

  lemma {:induction false} SubsequenceAppend(a': seq<byte>, a: seq<byte>, b': seq<byte>, b: seq<byte>)
    requires Subsequence(a', a) && Subsequence(b', b)
    ensures Subsequence(a' + b', a + b)
  {
    if a == [] {
      assert a' + b' == b' && a + b == b;
    } else {
      assert (a + b)[0] == a[0] && (a + b)[1..] == a[1..] + b;
      if a' == [] {
        SubsequenceAppend([], a[1..], b', b);
        assert a' + b' == [] + b';
      } else if a'[0] == a[0] && Subsequence(a'[1..], a[1..]) {
        SubsequenceAppend(a'[1..], a[1..], b', b);
        assert (a' + b')[0] == a'[0] && (a' + b')[1..] == a'[1..] + b';
      } else {
        SubsequenceAppend(a', a[1..], b', b);
      }
    }
  }

  lemma SubsequenceSuffix(a: seq<byte>, b: seq<byte>)
    ensures Subsequence(b, a + b)
  {
    SubsequenceRefl(b);
    SubsequenceAppend([], a, b, b);
    assert [] + b == b;
  }

  lemma SubsequencePrefix(a: seq<byte>, b: seq<byte>)
    ensures Subsequence(a, a + b)
  {
    SubsequenceRefl(a);
    SubsequenceAppend(a, a, [], b);
    assert a + [] == a;
  }

  lemma {:induction false} AllSubsequence(q': seq<byte>, q: seq<byte>, c: byte)
    requires Subsequence(q', q) && AllAre(q, c)
    ensures AllAre(q', c)
    decreases |q|
  {
    if q' != [] {
      if q'[0] == q[0] && Subsequence(q'[1..], q[1..]) {
        AllSubsequence(q'[1..], q[1..], c);
      } else {
        AllSubsequence(q', q[1..], c);
      }
    }
  }

  lemma {:induction false} MemberSubsequence(q': seq<byte>, q: seq<byte>, c: byte)
    requires Subsequence(q', q) && c in q'
    ensures c in q
    decreases |q|
  {
    if q'[0] == q[0] && Subsequence(q'[1..], q[1..]) {
      if c != q'[0] {
        assert c in q'[1..];
        MemberSubsequence(q'[1..], q[1..], c);
      }
    } else {
      MemberSubsequence(q', q[1..], c);
    }
  }

  lemma {:induction false} StaircaseSubsequence(q': seq<byte>, q: seq<byte>, c: byte)
    requires Subsequence(q', q) && Staircase(q, c) && c < 100
    ensures Staircase(q', c)
    decreases |q|
  {
    if q' != [] {
      if q[0] != Pred(c) {
        AllSubsequence(q', q, c);
      } else if q'[0] == q[0] && Subsequence(q'[1..], q[1..]) {
        StaircaseSubsequence(q'[1..], q[1..], c);
      } else {
        StaircaseSubsequence(q', q[1..], c);
      }
    }
  }

  lemma {:induction false} AllGrow(q: seq<byte>, c: byte)
    requires AllAre(q, c)
    ensures AllAre(q + [c], c)
  {
    if q == [] {
      assert [c][1..] == [];
    } else {
      AllGrow(q[1..], c);
      assert (q + [c])[1..] == q[1..] + [c];
    }
  }

  lemma {:induction false} StaircaseGrows(q: seq<byte>, c: byte)
    requires Staircase(q, c) && c < 100
    ensures Staircase(q + [c], c)
  {
    if q != [] && q[0] == Pred(c) {
      StaircaseGrows(q[1..], c);
      assert (q + [c])[1..] == q[1..] + [c];
    } else {
      AllGrow(q, c);
    }
  }

  // ---------------------------------------------------------------- consistency is kept

  lemma ConsistentShrinks(c: byte, last: Option<Event>, q: seq<byte>, q': seq<byte>)
    requires Consistent(c, last, q) && Subsequence(q', q)
    ensures Consistent(c, last, q')
  {
    StaircaseSubsequence(q', q, c);
    if c in q' {
      MemberSubsequence(q', q, c);
    }
  }

  /** Sending the counter's number. */
  lemma ConsistentPing(c: byte, last: Option<Event>, q: seq<byte>, q': seq<byte>, p: Event)
    requires Consistent(c, last, q) && Subsequence(q', q + [c]) && p.Ping? && p.number == c
    ensures Consistent(c, Some(p), q')
  {
    StaircaseGrows(q, c);
    StaircaseSubsequence(q', q + [c], c);
  }

  /** Receiving the oldest number in flight: the counter stays or moves on by one. */
  lemma ConsistentAnswer(c: byte, last: Option<Event>, r: byte, q: seq<byte>)
    requires Consistent(c, last, [r] + q)
    ensures Consistent((r as int + 1) % 100, last, q)
  {
    var all := [r] + q;
    assert all[0] == r && all[1..] == q;
    assert r in all;
    if r == Pred(c) {
      assert (r as int + 1) % 100 == c;
      assert c in q ==> c in all;
    } else {
      var c': byte := (r as int + 1) % 100;
      assert Pred(c') == c && c' != c;
      AllBefore(q, c');
    }
  }

  /** Once the counter has moved on, everything in flight carries its predecessor. */
  lemma {:induction false} AllBefore(q: seq<byte>, c: byte)
    requires AllAre(q, Pred(c)) && c < 100
    ensures Staircase(q, c) && c !in q
  {
    if q != [] {
      AllBefore(q[1..], c);
    }
  }

  // ---------------------------------------------------------------- the link

  lemma {:induction false} EchoesAppend(a: seq<Msg>, b: seq<Msg>)
    ensures EchoesIn(a + b) == EchoesIn(a) + EchoesIn(b)
  {
    hide EchoOf;
    if a == [] {
      assert a + b == b;
    } else {
      EchoesAppend(a[1..], b);
      assert (a + b)[0] == a[0] && (a + b)[1..] == a[1..] + b;
      Regroup(EchoOf(a[0]), EchoesIn(a[1..]), EchoesIn(b));
    }
  }

  lemma {:induction false} PingsAppend(a: seq<Msg>, b: seq<Msg>)
    ensures PingsIn(a + b) == PingsIn(a) + PingsIn(b)
  {
    hide PingRegs, Walk;
    if a == [] {
      assert a + b == b;
    } else {
      PingsAppend(a[1..], b);
      assert (a + b)[0] == a[0] && (a + b)[1..] == a[1..] + b;
      Regroup(PingRegs(Walk(a[0], [])), PingsIn(a[1..]), PingsIn(b));
    }
  }

  lemma Regroup(a: seq<byte>, b: seq<byte>, c: seq<byte>)
    ensures a + (b + c) == a + b + c
  {
  }

  /** Publishing a message adds its pings to what is in flight, or loses things. */
  lemma PublishedInFlight(t: Tcp, m: Msg)
    requires WellFormed(t)
    ensures WellFormed(Published(t, m))
    ensures Subsequence(InFlight(Published(t, m)), InFlight(t) + PingsIn([m]))
  {
    var t' := Published(t, m);
    if t' == t {
      SubsequencePrefix(InFlight(t), PingsIn([m]));
    } else if t'.connected {
      PingsAppend(t.toPeer, [m]);
      SubsequenceRefl(InFlight(t'));
      assert InFlight(t') == InFlight(t) + PingsIn([m]);
    } else {
      if t.connected && m != [] && t'.toPeer == [] {
        assert InFlight(t') == [];
      }
    }
  }

  lemma LazilyPublishedInFlight(t: Tcp, m: Msg)
    requires WellFormed(t)
    ensures WellFormed(LazilyPublished(t, Some(m)))
    ensures Subsequence(InFlight(LazilyPublished(t, Some(m))), InFlight(t) + PingsIn([m]))
  {
    if t.connected {
      PublishedInFlight(t, m);
    } else {
      PublishedInFlight(Connected(t), m);
      assert InFlight(t) == InFlight(Connected(t)) == [];
    }
  }

  lemma OneWrite(m: Msg)
    ensures PingsIn([m]) == PingRegs(Walk(m, []))
  {
    assert [m][1..] == [];
    assert PingRegs(Walk(m, [])) + [] == PingRegs(Walk(m, []));
  }

  lemma FrameWrite(f: Frame)
    requires Sendable(f)
    ensures PingsIn([FrameBytes(f)])
            == if f.command == PING_SEND_CMD && f.typ == REQUEST_TYPE then [f.reg] else []
  {
    OneWrite(FrameBytes(f));
    FramingRoundTrip([f], []);
    assert Stream([f]) == FrameBytes(f) by {
      assert [f][1..] == [];
      assert FrameBytes(f) + [] == FrameBytes(f);
    }
    hide FrameBytes;
    assert PingRegs([f][1..]) == [];
  }

  lemma CommandsWrite(s: PhevConfig.State)
    ensures PingsIn([Stream(CarCommands(s))]) == []
  {
    hide Stream, Walk, FrameBytes, PingRegs;
    NoPings(CarCommands(s));
    hide CarCommands;
    OneWrite(Stream(CarCommands(s)));
    FramingRoundTrip(CarCommands(s), []);
  }

  lemma {:induction false} NoPings(fs: seq<Frame>)
    requires forall f <- fs :: f.command != PING_SEND_CMD
    ensures PingRegs(fs) == []
  {
    if fs != [] {
      NoPings(fs[1..]);
    }
  }

  // ---------------------------------------------------------------- the invariant is kept

  /** Nothing but the queues changed, and those only lost things. */
  lemma InvShrinks(w: World, w': World)
    requires Inv(w) && w'.trace == w.trace
    requires w'.ends.user.currentPing == w.ends.user.currentPing
    requires w'.ends.user.lastPingTime == w.ends.user.lastPingTime
    requires WellFormed(w'.ends.outbound)
    requires Subsequence(InFlight(w'.ends.outbound), InFlight(w.ends.outbound))
    ensures Inv(w')
  {
    ConsistentShrinks(w.ends.user.currentPing, LastPing(w.trace), InFlight(w.ends.outbound),
                      InFlight(w'.ends.outbound));
  }

  lemma InvSameLink(w: World, w': World)
    requires Inv(w) && w'.trace == w.trace && w'.ends.outbound == w.ends.outbound
    requires w'.ends.user.currentPing == w.ends.user.currentPing
    requires w'.ends.user.lastPingTime == w.ends.user.lastPingTime
    ensures Inv(w')
  {
    SubsequenceRefl(InFlight(w.ends.outbound));
    InvShrinks(w, w');
  }

  lemma InvReset(w: World)
    requires Inv(w) && !w.ends.outbound.connected
    ensures Inv(AfterReset(w))
  {
    var w' := AfterReset(w);
    GoodTraceGrows(w.trace, Reset);
    assert LastPing(w'.trace) == None;
    assert InFlight(w'.ends.outbound) == [];
  }

  lemma GoodTraceGrows(trace: seq<Event>, e: Event)
    requires GoodTrace(trace) && (e.Ping? ==> MayFollow(trace, e))
    ensures GoodTrace(trace + [e])
  {
    var longer := trace + [e];
    forall j | 0 <= j < |longer| && longer[j].Ping?
      ensures MayFollow(longer[..j], longer[j])
    {
      if j < |trace| {
        assert longer[..j] == trace[..j];
      } else {
        assert longer[..j] == trace;
      }
    }
  }

  /** Submitting a date frame. */
  lemma InvSync(w: World, date: Date)
    requires Inv(w)
    ensures var t := LazilyPublished(w.ends.outbound, Some(FrameBytes(DateFrame(date))));
            Inv(World(w.ends.(outbound := t), w.trace + [Sync]))
    ensures LastPing(w.trace + [Sync]) == LastPing(w.trace)
  {
    hide FrameBytes, Consistent, Subsequence, GoodTrace, LazilyPublished, WellFormed, InFlight;
    var t, f := w.ends.outbound, DateFrame(date);
    LazilyPublishedInFlight(t, FrameBytes(f));
    FrameWrite(f);
    assert InFlight(t) + [] == InFlight(t);
    ConsistentShrinks(w.ends.user.currentPing, LastPing(w.trace), InFlight(t),
                      InFlight(LazilyPublished(t, Some(FrameBytes(f)))));
    GoodTraceGrows(w.trace, Sync);
    assert (w.trace + [Sync])[..|w.trace|] == w.trace;
  }

  /** Submitting the ping itself, a sync having gone before it if one was due. */
  lemma InvPingFrame(w: World, now: int)
    requires Inv(w) && w.ends.user.lastPingTime < now
    requires SyncDue(w.ends.user.currentPing) ==> w.trace != [] && w.trace[|w.trace| - 1] == Sync
    ensures var c := w.ends.user.currentPing;
            var t := LazilyPublished(w.ends.outbound, Some(FrameBytes(PingFrame(c))));
            Inv(World(w.ends.(user := w.ends.user.(successfulPing := false, lastPingTime := now), outbound := t),
                      w.trace + [Ping(c, now)]))
  {
    hide FrameBytes, Staircase, Subsequence, GoodTrace, MayFollow, LazilyPublished, WellFormed, InFlight;
    var c, t, last := w.ends.user.currentPing, w.ends.outbound, LastPing(w.trace);
    FrameWrite(PingFrame(c));
    LazilyPublishedInFlight(t, FrameBytes(PingFrame(c)));
    ConsistentPing(c, last, InFlight(t), InFlight(LazilyPublished(t, Some(FrameBytes(PingFrame(c))))), Ping(c, now));
    MayPing(w.trace, c, now, last);
    GoodTraceGrows(w.trace, Ping(c, now));
  }

  lemma InvPing(w: World, now: int, date: Date)
    requires Inv(w) && w.ends.user.lastPingTime < now
    ensures var w' := AfterPing(w, now, date);
            Inv(w'.(ends := w'.ends.(user := w'.ends.user.(lastPingTime := now))))
  {
    hide Inv, FrameBytes, LazilyPublished;
    if SyncDue(w.ends.user.currentPing) {
      InvSync(w, date);
      var t := LazilyPublished(w.ends.outbound, Some(FrameBytes(DateFrame(date))));
      InvPingFrame(World(w.ends.(outbound := t), w.trace + [Sync]), now);
    } else {
      assert w.trace + [] == w.trace;
      InvPingFrame(w, now);
    }
  }

  lemma MayPing(trace: seq<Event>, c: byte, now: int, last: Option<Event>)
    requires last == LastPing(trace) && c < 100
    requires last.None? ==> c == 0
    requires last.Some? ==> (last.value.number == c || last.value.number == Pred(c)) && last.value.at < now
    requires SyncDue(c) ==> trace != [] && trace[|trace| - 1] == Sync
    ensures MayFollow(trace, Ping(c, now))
  {
  }

  lemma NothingInFlight(t: Tcp)
    ensures Subsequence(InFlight(Dropped(t)), InFlight(t))
  {
    assert InFlight(Dropped(t)) == [];
  }

  /** A read that hands nothing to the chain. */
  lemma ReceivedInFlight(t: Tcp, r: ReadOutcome)
    requires WellFormed(t)
    ensures var (t', arrived) := AfterRead(t, r);
            && WellFormed(t')
            && Subsequence(InFlight(t'), InFlight(t))
            && (arrived.Some? ==> Legible(arrived.value) && InFlight(t) == EchoOf(arrived.value) + InFlight(t'))
  {
    hide EchoOf, PingsIn, Legible;
    NothingInFlight(t);
    var (t', arrived) := AfterRead(t, r);
    SubsequenceRefl(InFlight(t));
    if t.connected && r.Ready? && t.fromPeer != [] {
      var chunk := t.fromPeer[0];
      assert InFlight(t) == EchoOf(chunk) + InFlight(t');
      SubsequenceSuffix(EchoOf(chunk), InFlight(t'));
      forall later <- t'.fromPeer
        ensures Legible(later)
      {
        assert later in t.fromPeer;
      }
    }
  }

  /** A read through the outbound chain. */
  lemma InvOutboundLooped(fx: Foreign, w: World, r: ReadOutcome)
    requires Inv(w)
    ensures Inv(w.(ends := OutboundLooped(Some(OutChain(fx)), w.ends, r)))
  {
    hide Transformation, FrameBytes, Stream, Walk, GoodTrace, Staircase, Subsequence, LazilyPublished;
    var t := w.ends.outbound;
    var (t', arrived) := AfterRead(t, r);
    ReceivedInFlight(t, r);
    if arrived.None? {
      InvShrinks(w, w.(ends := w.ends.(outbound := t')));
    } else {
      InvChunk(fx, w, t', arrived.value);
    }
  }

  /** The counter and what is left in flight after a read. */
  lemma ChunkCounted(c: Ctx, last: Option<Event>, m: Msg, q: seq<byte>)
    requires Consistent(c.currentPing, last, EchoOf(m) + q)
    ensures Consistent(Counted(c, m).currentPing, last, q)
  {
    hide Staircase, EchoOf;
    if EchoOf(m) != [] {
      OneEcho(m);
      ConsistentAnswer(c.currentPing, last, EchoOf(m)[0], q);
    } else {
      assert EchoOf(m) + q == q;
    }
  }

  lemma OneEcho(m: Msg)
    requires EchoOf(m) != []
    ensures EchoOf(m) == [EchoOf(m)[0]]
  {
  }

  /** Publishing an acknowledgement puts no ping in flight. */
  lemma AckInFlight(t: Tcp, command: byte, reg: byte)
    requires WellFormed(t) && Allowed(command)
    ensures var t' := PublishedAll(t, [FrameBytes(Ack(command, reg))]);
            WellFormed(t') && Subsequence(InFlight(t'), InFlight(t))
  {
    AllowedSwap(command);
    hide FrameBytes, Subsequence, InFlight, WellFormed, PublishedAll;
    var ack := FrameBytes(Ack(command, reg));
    PublishedOne(t, ack);
    PublishedInFlight(t, ack);
    FrameWrite(Ack(command, reg));
    assert InFlight(t) + [] == InFlight(t);
  }

  lemma NoAckInFlight(t: Tcp)
    ensures PublishedAll(t, []) == t && Subsequence(InFlight(t), InFlight(t))
  {
    SubsequenceRefl(InFlight(t));
  }

  lemma InvChunk(fx: Foreign, w: World, t': Tcp, chunk: Msg)
    requires Inv(w) && WellFormed(t') && Legible(chunk)
    requires InFlight(w.ends.outbound) == EchoOf(chunk) + InFlight(t')
    ensures Inv(w.(ends := OutboundDelivered(Some(OutChain(fx)), w.ends.(outbound := t'), chunk)))
  {
    hide Transformation, GoodTrace, Consistent, Subsequence, LazilyPublished, PublishedAll, EchoOf, InFlight,
         WellFormed, Legible, FrameBytes;
    var last := LastPing(w.trace);
    LegibleRead(fx, w.ends.user, chunk);
    ChunkCounted(w.ends.user, last, chunk, InFlight(t'));
    var responses := Transformation(OutChain(fx), w.ends.user, chunk).responses;
    if responses == [] {
      NoAckInFlight(t');
    } else {
      var reg: byte :| responses == [FrameBytes(Ack(chunk[0], reg))];
      AckInFlight(t', chunk[0], reg);
    }
    ConsistentShrinks(Counted(w.ends.user, chunk).currentPing, last, InFlight(t'),
                      InFlight(PublishedAll(t', responses)));
  }

  /** A configuration through the inbound chain. */
  lemma InvInboundDelivered(fx: Foreign, w: World, m: Msg)
    requires Inv(w)
    ensures Inv(w.(ends := InboundDelivered(Some(InChain(fx)), w.ends, m)))
  {
    hide Transformation, FrameBytes, Stream, Walk, GoodTrace, Staircase, Subsequence, Published, LazilyPublished;
    var o := Transformation(InChain(fx), w.ends.user, m);
    var w' := w.(ends := InboundDelivered(Some(InChain(fx)), w.ends, m));
    InChainOutcome(fx, w.ends.user, m);
    var t := w.ends.outbound;
    SubsequenceRefl(InFlight(t));
    if o.result.Some? {
      var s := o.state.config.value.state;
      LazilyPublishedInFlight(t, o.result.value);
      CommandsWrite(s);
      assert InFlight(t) + [] == InFlight(t);
    } else {
      assert LazilyPublished(t, None) == t by { OutboundNothing(t); }
    }
    InvShrinks(w, w');
  }

  lemma OutboundNothing(t: Tcp)
    ensures LazilyPublished(t, None) == t
  {
  }

  lemma InvInboundLooped(fx: Foreign, w: World, r: ReadOutcome)
    requires Inv(w)
    ensures Inv(w.(ends := InboundLooped(Some(InChain(fx)), w.ends, r)))
  {
    hide InboundDelivered, Inv;
    var (t, arrived) := AfterRead(w.ends.inbound, r);
    var w' := w.(ends := w.ends.(inbound := t));
    InvSameLink(w, w');
    if arrived.Some? {
      InvInboundDelivered(fx, w', arrived.value);
    }
  }

  lemma InvTurn(fx: Foreign, w: World, tick: Tick)
    requires Inv(w) && tick.now <= tick.after
    ensures Inv(AfterTurn(fx, w, tick))
  {
    hide Inv, AfterPing, AfterReset, InboundLooped, OutboundLooped;
    if !w.ends.inbound.connected {
      InvSameLink(w, AfterTurn(fx, w, tick));
    } else {
      var w0 := WithMemory(w, tick.memory);
      InvSameLink(w, w0);
      if !w0.ends.outbound.connected && w0.ends.user.currentPing > 0 {
        InvReset(w0);
      }
      var w1 := AfterLinkCheck(w0);
      InvInboundLooped(fx, w1, tick.inRead);
      var w2 := w1.(ends := InboundLooped(Some(InChain(fx)), w1.ends, tick.inRead));
      InvOutboundLooped(fx, w2, tick.outRead);
      var w3 := AfterPipeLoop(fx, w1, tick);
      if PingDue(w3, tick.now) {
        InvPing(w3, tick.now, tick.date);
        var pinged := AfterPing(w3, tick.now, tick.date);
        InvLater(pinged.(ends := pinged.ends.(user := pinged.ends.user.(lastPingTime := tick.now))), tick.after);
      }
    }
  }

  lemma InvLater(w: World, after: int)
    requires Inv(w) && w.ends.user.lastPingTime <= after
    ensures Inv(w.(ends := w.ends.(user := w.ends.user.(lastPingTime := after))))
  {
  }

  /** What the car sends in one go, read in one go or cut short behind its first frame: it
      looks like at most one answer, one of those it holds. */
  lemma FramesRead(frames: seq<Frame>, tail: seq<byte>)
    requires frames != [] && forall f <- frames :: Receivable(f)
    ensures forall f <- frames :: Sendable(f)
    ensures Legible(Stream(frames) + tail) && Subsequence(EchoOf(Stream(frames) + tail), EchoRegs(frames))
  {
    hide *;
    FirstOfStream(frames, tail);
    FrameThenTail(frames[0], Stream(frames[1..]) + tail);
    FirstEcho(frames);
  }

  lemma FirstEcho(frames: seq<Frame>)
    requires frames != []
    ensures Subsequence(if IsEcho(frames[0]) then [frames[0].reg] else [], EchoRegs(frames))
  {
    hide Subsequence;
    SubsequencePrefix(if IsEcho(frames[0]) then [frames[0].reg] else [], EchoRegs(frames[1..]));
  }

  lemma FirstOfStream(frames: seq<Frame>, tail: seq<byte>)
    requires frames != [] && forall f <- frames :: Receivable(f)
    ensures (forall f <- frames :: Sendable(f)) && Receivable(frames[0]) && forall f <- frames[1..] :: Sendable(f)
    ensures Stream(frames) + tail == FrameBytes(frames[0]) + (Stream(frames[1..]) + tail)
  {
    hide FrameBytes;
    assert forall f <- frames :: Receivable(f);
    assert forall f <- frames[1..] :: f in frames;
  }

  lemma CarInFlight(t: Tcp, consumed: nat, chunks: seq<Msg>, t': Tcp)
    requires consumed <= |t.toPeer|
    requires Subsequence(EchoesIn(chunks), PingsIn(t.toPeer[..consumed]))
    requires t' == t.(toPeer := t.toPeer[consumed..], fromPeer := t.fromPeer + chunks)
    ensures Subsequence(InFlight(t'), InFlight(t))
  {
    hide *;
    var e, a := EchoesIn(t.fromPeer), EchoesIn(chunks);
    var p, q := PingsIn(t.toPeer[..consumed]), PingsIn(t.toPeer[consumed..]);
    CarQueues(t, consumed, chunks, t');
    SubsequenceRefl(e);
    SubsequenceRefl(q);
    SubsequenceAppend(e, e, a, p);
    SubsequenceAppend(e + a, e + p, q, q);
  }

  lemma CarQueues(t: Tcp, consumed: nat, chunks: seq<Msg>, t': Tcp)
    requires consumed <= |t.toPeer|
    requires t' == t.(toPeer := t.toPeer[consumed..], fromPeer := t.fromPeer + chunks)
    ensures var e, p, q := EchoesIn(t.fromPeer), PingsIn(t.toPeer[..consumed]), PingsIn(t.toPeer[consumed..]);
            InFlight(t') == e + EchoesIn(chunks) + q && InFlight(t) == e + p + q
  {
    hide EchoesIn, PingsIn;
    EchoesAppend(t.fromPeer, chunks);
    PingsAppend(t.toPeer[..consumed], t.toPeer[consumed..]);
    assert t.toPeer == t.toPeer[..consumed] + t.toPeer[consumed..];
    var e, p, q := EchoesIn(t.fromPeer), PingsIn(t.toPeer[..consumed]), PingsIn(t.toPeer[consumed..]);
    assert e + (p + q) == e + p + q;
  }

  lemma InvCarActs(fx: Foreign, w: World, consumed: nat, chunks: seq<Msg>)
    requires Inv(w) && Possible(w, CarActs(consumed, chunks))
    ensures Inv(After(fx, w, CarActs(consumed, chunks)))
  {
    hide GoodTrace, Consistent, Subsequence, Legible, InFlight;
    var w' := After(fx, w, CarActs(consumed, chunks));
    CarInFlight(w.ends.outbound, consumed, chunks, w'.ends.outbound);
    InvShrinks(w, w');
  }

  lemma InvStep(fx: Foreign, w: World, step: Step)
    requires Inv(w) && Possible(w, step)
    ensures Inv(After(fx, w, step))
  {
    hide Inv, AfterTurn, InboundDelivered;
    match step
    case Turn(tick) => InvTurn(fx, w, tick);
    case CarActs(consumed, chunks) => InvCarActs(fx, w, consumed, chunks);
    case InFlightLost => InvNothingInFlight(w);
    case CloudLink(up) => InvSameLink(w, After(fx, w, step));
    case CloudSends(message) => InvSameLink(w, After(fx, w, step));
    case ConfigArrives(config, memory) =>
      InvSameLink(w, WithMemory(w, memory));
      InvInboundDelivered(fx, WithMemory(w, memory), config);
  }

  lemma InvNothingInFlight(w: World)
    requires Inv(w)
    ensures Inv(w.(ends := w.ends.(outbound := w.ends.outbound.(toPeer := [], fromPeer := []))))
  {
    InvShrinks(w, w.(ends := w.ends.(outbound := w.ends.outbound.(toPeer := [], fromPeer := []))));
  }

  lemma {:induction false} InvRun(fx: Foreign, w: World, steps: seq<Step>)
    requires Inv(w) && Run(fx, w, steps)
    ensures Inv(Final(fx, w, steps))
    decreases |steps|
  {
    if steps != [] {
      hide Inv, Possible, After;
      InvStep(fx, w, steps[0]);
      InvRun(fx, After(fx, w, steps[0]), steps[1..]);
    }
  }

  // ---------------------------------------------------------------- main results

  /** Over every run: the counter stays below 100, and the trace is good throughout. */
  lemma PingSequence(fx: Foreign, w: World, steps: seq<Step>)
    requires Initial(w) && Run(fx, w, steps)
    ensures Final(fx, w, steps).ends.user.currentPing < 100
    ensures GoodTrace(Final(fx, w, steps).trace)
  {
    InvRun(fx, w, steps);
  }

  /** Consecutive pings between two resets: the same number or its successor, later. */
  lemma NextPing(trace: seq<Event>, i: nat, j: nat)
    requires GoodTrace(trace) && i < j < |trace| && trace[i].Ping? && trace[j].Ping?
    requires forall k | i < k < j :: trace[k].Sync?
    ensures trace[j].number == trace[i].number || trace[j].number == Succ(trace[i].number)
    ensures trace[i].at < trace[j].at
  {
    LastPingAt(trace, i, j);
    assert MayFollow(trace[..j], trace[j]);
  }

  lemma {:induction false} LastPingAt(trace: seq<Event>, i: nat, j: nat)
    requires i < j <= |trace| && trace[i].Ping?
    requires forall k | i < k < j :: trace[k].Sync?
    ensures LastPing(trace[..j]) == Some(trace[i])
    decreases j
  {
    if j - 1 != i {
      LastPingAt(trace, i, j - 1);
      assert trace[..j][..j - 1] == trace[..j - 1];
    }
  }

  /** The first ping after a reset, or of all, carries number 0. */
  lemma FirstPing(trace: seq<Event>, j: nat)
    requires GoodTrace(trace) && j < |trace| && trace[j].Ping?
    requires LastPing(trace[..j]).None?
    ensures trace[j].number == 0
  {
    assert MayFollow(trace[..j], trace[j]);
  }

  /** The ping before position j, when no reset comes between i and j. */
  lemma {:induction false} PingBefore(trace: seq<Event>, i: nat, j: nat) returns (k: nat)
    requires i < j <= |trace| && trace[i].Ping? && forall m | i < m < j :: !trace[m].Reset?
    ensures i <= k < j && trace[k].Ping? && forall m | k < m < j :: trace[m].Sync?
    decreases j
  {
    if trace[j - 1].Ping? {
      k := j - 1;
    } else {
      k := PingBefore(trace, i, j - 1);
    }
  }

  /** Ping rate: between two resets the seconds at which pings are sent strictly increase. */
  lemma {:induction false} PingRate(trace: seq<Event>, i: nat, j: nat)
    requires GoodTrace(trace) && i < j < |trace| && trace[i].Ping? && trace[j].Ping?
    requires forall m | i < m < j :: !trace[m].Reset?
    ensures trace[i].at < trace[j].at
    decreases j
  {
    var k := PingBefore(trace, i, j);
    NextPing(trace, k, j);
    if k != i {
      PingRate(trace, i, k);
    }
  }

  /** How often the number changed from the ping at i to the last ping before j. */
  function Advance(trace: seq<Event>, i: nat, j: nat): nat
    requires i < j <= |trace| && trace[i].Ping?
  {
    if j == i + 1 then 0
    else
      var before := Advance(trace, i, j - 1);
      var last := LastPing(trace[..j - 1]);
      if trace[j - 1].Ping? && last.Some? && last.value.number != trace[j - 1].number then before + 1 else before
  }

  /** The last ping before j carries the number at i advanced that often. */
  lemma {:induction false} AdvancedNumber(trace: seq<Event>, i: nat, j: nat)
    requires GoodTrace(trace) && i < j <= |trace| && trace[i].Ping?
    requires forall m | i < m < j :: !trace[m].Reset?
    ensures LastPing(trace[..j]).Some?
    ensures LastPing(trace[..j]).value.number == (trace[i].number + Advance(trace, i, j)) % 100
    decreases j
  {
    hide GoodTrace, LastPing, MayFollow;
    LastPingStep(trace, j - 1);
    if j == i + 1 {
      NumberBelow100(trace, i);
    } else {
      AdvancedNumber(trace, i, j - 1);
      if trace[j - 1].Ping? {
        NumberFollows(trace, j - 1);
        StepNumber(trace[i].number, Advance(trace, i, j - 1), LastPing(trace[..j - 1]).value.number,
            trace[j - 1].number);
      }
    }
  }

  lemma LastPingStep(trace: seq<Event>, k: nat)
    requires k < |trace|
    ensures LastPing(trace[..k + 1])
            == match trace[k] case Reset => None case Ping(_, _) => Some(trace[k]) case Sync => LastPing(trace[..k])
  {
    assert trace[..k + 1][..k] == trace[..k];
  }

  lemma NumberBelow100(trace: seq<Event>, k: nat)
    requires GoodTrace(trace) && k < |trace| && trace[k].Ping?
    ensures trace[k].number < 100
  {
    assert MayFollow(trace[..k], trace[k]);
  }

  lemma NumberFollows(trace: seq<Event>, k: nat)
    requires GoodTrace(trace) && k < |trace| && trace[k].Ping? && LastPing(trace[..k]).Some?
    ensures var last := LastPing(trace[..k]).value.number;
            trace[k].number == last || trace[k].number == Succ(last)
  {
    assert MayFollow(trace[..k], trace[k]);
  }

  lemma StepNumber(start: byte, d: nat, last: byte, number: byte)
    requires last == (start + d) % 100
    requires number == last || number == Succ(last)
    ensures number == (start + if number != last then d + 1 else d) % 100
  {
  }

  /** Between resets every number on the way is pinged. */
  lemma {:induction false} EveryNumber(trace: seq<Event>, i: nat, j: nat, d: nat) returns (k: nat)
    requires GoodTrace(trace) && i < j <= |trace| && trace[i].Ping?
    requires forall m | i < m < j :: !trace[m].Reset?
    requires 0 < d <= Advance(trace, i, j)
    ensures i < k < j && trace[k].Ping? && trace[k].number == (trace[i].number + d) % 100
    decreases j
  {
    hide GoodTrace, LastPing;
    if d <= Advance(trace, i, j - 1) {
      k := EveryNumber(trace, i, j - 1, d);
    } else {
      k := j - 1;
      AdvancedNumber(trace, i, j);
      LastPingStep(trace, k);
    }
  }

  /** No time sync is skipped: whenever the number advances by 100 between resets, each of
      29, 59 and 89 is pinged on the way, and a date sync is submitted right before it. */
  lemma NoSkippedSync(trace: seq<Event>, i: nat, j: nat, due: byte) returns (k: nat)
    requires GoodTrace(trace) && i < j <= |trace| && trace[i].Ping?
    requires forall m | i < m < j :: !trace[m].Reset?
    requires Advance(trace, i, j) >= 100
    requires due in {29, 59, 89}
    ensures i < k < j && trace[k].Ping? && trace[k].number == due && trace[k - 1].Sync?
  {
    hide GoodTrace, MayFollow, Advance;
    NumberBelow100(trace, i);
    var d := StepsTo(trace[i].number, due);
    k := EveryNumber(trace, i, j, d);
    SyncBefore(trace, k);
  }

  /** How far a number lies ahead of another one, going round. */
  lemma StepsTo(start: byte, due: byte) returns (d: nat)
    requires start < 100 && due < 100
    ensures 0 < d <= 100 && (start + d) % 100 == due
  {
    d := if due > start then due - start else due + 100 - start;
  }

  lemma SyncBefore(trace: seq<Event>, k: nat)
    requires GoodTrace(trace) && k < |trace| && trace[k].Ping? && SyncDue(trace[k].number)
    ensures k > 0 && trace[k - 1].Sync?
  {
    hide LastPing;
    assert MayFollow(trace[..k], trace[k]);
  }

  /** Submitted is not delivered. On an open link, a due ping is in flight without its sync
      exactly when the write of the sync fails, the link comes straight back, and the write of
      the ping succeeds. */
  lemma SyncMissing(w: World, now: int, date: Date)
    requires SyncDue(w.ends.user.currentPing) && w.ends.outbound.connected
    ensures var before, t := w.ends.outbound, AfterPing(w, now, date).ends.outbound;
            t.toPeer == [FrameBytes(PingFrame(w.ends.user.currentPing))]
            <==> |before.writes| >= 2 && !before.writes[0] && before.writes[1]
                 && before.connects != [] && before.connects[0]
  {
    hide FrameBytes;
  }

  /** On an open link, a due sync and its ping are both in flight afterwards, in that order
      and behind what was, exactly when both writes succeed. */
  lemma SyncDelivered(w: World, now: int, date: Date)
    requires SyncDue(w.ends.user.currentPing) && w.ends.outbound.connected
    ensures var t := AfterPing(w, now, date).ends.outbound;
            var pair := [FrameBytes(DateFrame(date)), FrameBytes(PingFrame(w.ends.user.currentPing))];
            var writes := w.ends.outbound.writes;
            t.toPeer == w.ends.outbound.toPeer + pair <==> |writes| >= 2 && writes[0] && writes[1]
  {
    hide FrameBytes;
  }
}
