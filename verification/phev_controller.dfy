/** The controller's event loop: ping counter, time sync, link handling
    (components/phev_core/src/phev_controller.c). */
module PhevController {
  import opened Bytes
  import opened Messaging
  import opened MsgPipe
  import opened PhevCore
  import opened CarLink

  type Date = d: seq<byte> | |d| == 6 witness [0, 0, 0, 0, 0, 0]

  /** What the controller submitted for publication, and when it reset its counter. */
  datatype Event = Reset | Sync | Ping(number: byte, at: int)

  datatype World = World(ends: Ends<Ctx>, trace: seq<Event>)

  /** The outside world during one turn of the event loop: what the two reads report, the
      two readings of the clock, the date, and what unwritten memory holds. */
  datatype Tick = Tick(inRead: ReadOutcome, outRead: ReadOutcome, now: int, after: int, date: Date, memory: Memory)

  function DateFrame(date: Date): Frame {
    Frame(SEND_CMD, REQUEST_TYPE, KO_WF_DATE_INFO_SYNC_SP, date + [1])
  }

  function PingFrame(number: byte): Frame {
    Frame(PING_SEND_CMD, REQUEST_TYPE, number, [0])
  }

  // ---------------------------------------------------------------- turns as functions

  function AfterReset(w: World): World {
    w.(ends := w.ends.(user := w.ends.user.(currentPing := 0, lastPingTime := 0)), trace := w.trace + [Reset])
  }

  predicate SyncDue(number: byte) {
    (number as int + 1) % 30 == 0
  }

  /** ping: every thirtieth number a date goes first, then the ping itself. */
  function AfterPing(w: World, now: int, date: Date): World {
    var number := w.ends.user.currentPing;
    var synced :=
      if SyncDue(number) then LazilyPublished(w.ends.outbound, Some(FrameBytes(DateFrame(date))))
      else w.ends.outbound;
    World(
      w.ends.(user := w.ends.user.(successfulPing := false),
              outbound := LazilyPublished(synced, Some(FrameBytes(PingFrame(number))))),
      w.trace + (if SyncDue(number) then [Sync] else []) + [Ping(number, now)])
  }

  /** The part of a turn before the pipe is served. */
  function AfterLinkCheck(w: World): World {
    if !w.ends.outbound.connected && w.ends.user.currentPing > 0 then AfterReset(w) else w
  }

  /** The pipe's loop: both clients are read once. */
  function AfterPipeLoop(fx: Foreign, w: World, tick: Tick): World {
    var ends := InboundLooped(Some(InChain(fx)), w.ends, tick.inRead);
    w.(ends := OutboundLooped(Some(OutChain(fx)), ends, tick.outRead))
  }

  function WithMemory(w: World, memory: Memory): World {
    w.(ends := w.ends.(user := w.ends.user.(memory := memory)))
  }

  predicate PingDue(w: World, now: int) {
    now > w.ends.user.lastPingTime && w.ends.outbound.connected
  }

  function AfterPingCheck(w: World, tick: Tick): World {
    if !PingDue(w, tick.now) then w
    else
      var pinged := AfterPing(w, tick.now, tick.date);
      pinged.(ends := pinged.ends.(user := pinged.ends.user.(lastPingTime := tick.after)))
  }

  /** One turn of the event loop. */
  function AfterTurn(fx: Foreign, w: World, tick: Tick): World {
    if !w.ends.inbound.connected then w.(ends := w.ends.(inbound := Connected(w.ends.inbound)))
    else AfterPingCheck(AfterPipeLoop(fx, AfterLinkCheck(WithMemory(w, tick.memory)), tick), tick)
  }

  /** A configuration handed over by the cloud client outside the event loop. */
  function AfterConfig(fx: Foreign, w: World, m: Msg, memory: Memory): World {
    w.(ends := InboundDelivered(Some(InChain(fx)), WithMemory(w, memory).ends, m))
  }

  /** A controller that has just been initialised over two clients. */
  function Initialised(inbound: Tcp, outbound: Tcp, memory: Memory): World {
    World(Ends(Ctx(0, false, 0, None, false, memory), Connected(inbound), outbound), [])
  }

  /** When a turn resets the counter: the cloud link is up, the car link is down, and something
      has been counted. */
  predicate MustReset(cloudUp: bool, carUp: bool, counter: byte) {
    cloudUp && !carUp && counter > 0
  }

  /** Then the reset is the first thing a turn adds to the trace, and no turn ever adds another. */
  lemma ResetExactly(fx: Foreign, w: World, tick: Tick)
    ensures var cloudUp, carUp := w.ends.inbound.connected, w.ends.outbound.connected;
            var counter, trace := w.ends.user.currentPing, AfterTurn(fx, w, tick).trace;
            && w.trace <= trace
            && (MustReset(cloudUp, carUp, counter) ==> |trace| > |w.trace|)
            && forall k | |w.trace| <= k < |trace| ::
                 trace[k].Reset? <==> k == |w.trace| && MustReset(cloudUp, carUp, counter)
  {
    hide InboundLooped, OutboundLooped, LazilyPublished, FrameBytes;
  }

  // ---------------------------------------------------------------- the controller

  class Controller {
    const pipe: Pipe<Ctx>
    const fx: Foreign
    ghost var trace: seq<Event>

    ghost predicate Valid()
      reads this, pipe, pipe.heap
    {
      && pipe.Valid()
      && pipe.inChain == Some(InChain(fx)) && pipe.outChain == Some(OutChain(fx))
      && forall p :: fx.responseText(p) != []
    }

    ghost function View(): World
      reads this, pipe, pipe.inbound, pipe.outbound
    {
      World(pipe.View(), trace)
    }

    /** phev_controller_init: chains wired, inbound link opened, counters cleared, no
        configuration yet. */
    constructor (inbound: Client, outbound: Client, fx: Foreign, memory: Memory)
      requires inbound != outbound && forall p :: fx.responseText(p) != []
      modifies inbound, outbound
      ensures Valid() && fresh(pipe) && fresh(pipe.heap) && pipe.heap.faults == 0
      ensures View() == Initialised(old(inbound.View()), old(outbound.View()), memory)
      ensures pipe.inbound == inbound && pipe.outbound == outbound && this.fx == fx
    {
      this.fx := fx;
      trace := [];
      pipe := new Pipe(inbound, outbound, Some(InChain(fx)), Some(OutChain(fx)),
                       Ctx(0, false, 0, None, false, memory), true);
    }

    method SendMessage(message: Msg)
      requires Valid()
      modifies pipe.outbound, pipe.heap
      ensures Valid() && pipe.heap.faults == old(pipe.heap.faults)
      ensures pipe.outbound.View() == LazilyPublished(old(pipe.outbound.View()), Some(message))
    {
      var id := pipe.heap.CreateMsg(message);
      pipe.Publish(pipe.outbound, Some(id));
    }

    method ResetPing()
      requires Valid()
      modifies this`trace, pipe`user
      ensures Valid() && View() == AfterReset(old(View()))
    {
      pipe.user := pipe.user.(currentPing := 0);
      pipe.user := pipe.user.(lastPingTime := 0);
      trace := trace + [Reset];
    }

    /** Encode a freshly created message and send it. */
    method SendCreated(m: PhevMessage, ghost f: Frame)
      requires Valid() && |f.payload| <= MAX_PAYLOAD
      requires m == CreateMessage(f.command, f.typ, f.reg, f.payload, 0)
      modifies pipe.outbound, pipe.heap
      ensures Valid() && pipe.heap.faults == old(pipe.heap.faults)
      ensures pipe.outbound.View() == LazilyPublished(old(pipe.outbound.View()), Some(FrameBytes(f)))
    {
      var message := ConvertToMessage(m, pipe.user.memory.payload);
      CreatedFrame(f, 0, pipe.user.memory.payload);
      hide FrameBytes, EncodedBytes;
      SendMessage(message);
    }

    method Ping(ghost now: int, date: Date)
      requires Valid()
      modifies this`trace, pipe`user, pipe.outbound, pipe.heap
      ensures Valid() && pipe.heap.faults == old(pipe.heap.faults)
      ensures View() == AfterPing(old(View()), now, date)
    {
      hide FrameBytes, EncodedBytes, LazilyPublished;
      if (pipe.user.currentPing as int + 1) % 30 == 0 {
        SendCreated(CommandMessage(KO_WF_DATE_INFO_SYNC_SP, date + [1]), DateFrame(date));
        trace := trace + [Sync];
      }
      pipe.user := pipe.user.(successfulPing := false);
      SendCreated(PingMessage(pipe.user.currentPing), PingFrame(pipe.user.currentPing));
      trace := trace + [Event.Ping(pipe.user.currentPing, now)];
    }

    /** msg_pipe_loop: no message is freed twice or used after it is freed. */
    method PipeLoop(tick: Tick)
      requires Valid()
      modifies pipe`user, pipe.inbound, pipe.outbound, pipe.heap
      ensures Valid() && pipe.heap.faults == old(pipe.heap.faults)
      ensures View() == AfterPipeLoop(fx, old(View()), tick)
    {
      hide Transformation, PublishedAll;
      ghost var (_, config) := AfterRead(pipe.inbound.View(), tick.inRead);
      if config.Some? {
        InChainOutcome(fx, pipe.user, config.value);
      }
      pipe.LoopInbound(tick.inRead);
      ghost var (_, bytes) := AfterRead(pipe.outbound.View(), tick.outRead);
      if bytes.Some? {
        OutChainClean(fx, pipe.user, bytes.value);
      }
      pipe.LoopOutbound(tick.outRead);
    }

    method EventLoop(tick: Tick)
      requires Valid()
      modifies this`trace, pipe`user, pipe.inbound, pipe.outbound, pipe.heap
      ensures Valid() && pipe.heap.faults == old(pipe.heap.faults)
      ensures View() == AfterTurn(fx, old(View()), tick)
      ensures |old(trace)| <= |trace| && trace[..|old(trace)|] == old(trace)
      ensures var reset :=
                MustReset(old(pipe.inbound.connected), old(pipe.outbound.connected), old(pipe.user.currentPing));
              && (reset ==> |trace| > |old(trace)|)
              && forall k | |old(trace)| <= k < |trace| :: trace[k].Reset? <==> k == |old(trace)| && reset
    {
      hide AfterPing, AfterReset, AfterPipeLoop, MustReset;
      ResetExactly(fx, View(), tick);
      if !pipe.inbound.connected {
        var status := pipe.inbound.Connect();
      } else {
        ghost var start := View();
        pipe.user := pipe.user.(memory := tick.memory);
        assert View() == WithMemory(start, tick.memory);
        if !pipe.outbound.connected && pipe.user.currentPing > 0 {
          ResetPing();
        }
        PipeLoop(tick);
        if tick.now > pipe.user.lastPingTime && pipe.outbound.connected {
          Ping(tick.now, tick.date);
          pipe.user := pipe.user.(lastPingTime := tick.after);
        }
      }
    }

    /** The cloud client's callback: the message stays the client's. */
    method ConfigArrives(config: Msg, memory: Memory)
      requires Valid()
      modifies pipe`user, pipe.inbound, pipe.outbound, pipe.heap
      ensures Valid() && pipe.heap.faults == old(pipe.heap.faults)
      ensures View() == AfterConfig(fx, old(View()), config, memory)
    {
      hide Transformation, PublishedAll;
      pipe.user := pipe.user.(memory := memory);
      InChainOutcome(fx, pipe.user, config);
      var message := pipe.heap.CreateMsg(config);
      pipe.InboundSubscription(message);
    }
  }
}
