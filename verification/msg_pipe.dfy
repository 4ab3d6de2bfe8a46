/** The message pipeline (components/msg_core/src/msg_pipe.c, msg_pipe_splitter.c, msg_core.c). */
module MsgPipe {
  import opened Bytes
  import opened Messaging

  // ---------------------------------------------------------------- chains as functions

  /** An input transformer drops its message, passes the same object on, or makes a new one. */
  datatype Transformed = Nothing | Same | Fresh(data: Msg)

  /** msg_pipe_chain_t: every stage may be NULL, and threads the user context S.
      Splitters, responders, output transformers and aggregators return new messages. */
  datatype Chain<!S> = Chain(
    splitter: Option<(S, Msg) -> (S, Option<seq<Option<Msg>>>)>,
    inputTransformer: Option<(S, Msg) -> (S, Transformed)>,
    filter: Option<(S, Msg) -> (S, bool)>,
    responder: Option<(S, Msg) -> (S, Option<Msg>)>,
    outputTransformer: Option<(S, Msg) -> (S, Option<Msg>)>,
    aggregator: Option<(S, seq<Msg>) -> (S, Option<Msg>)>,
    respondOnce: bool)

  /** What running stages does: the context afterwards, the responses to publish, the results. */
  datatype Effect<S> = Effect(state: S, responses: seq<Msg>, outs: seq<Msg>)

  function Listed(m: Option<Msg>): seq<Msg> {
    if m.Some? then [m.value] else []
  }

  function InputStage<S>(chain: Chain<S>, s: S, m: Msg): (S, Transformed) {
    if chain.inputTransformer.Some? then chain.inputTransformer.value(s, m) else (s, Same)
  }

  function FilterStage<S>(chain: Chain<S>, s: S, m: Msg): (S, bool) {
    if chain.filter.Some? then chain.filter.value(s, m) else (s, true)
  }

  function RespondStage<S>(chain: Chain<S>, s: S, m: Msg, respond: bool): (S, Option<Msg>) {
    if chain.responder.Some? && respond then chain.responder.value(s, m) else (s, None)
  }

  function OutputStage<S>(chain: Chain<S>, s: S, m: Msg): (S, Option<Msg>) {
    if chain.outputTransformer.Some? then chain.outputTransformer.value(s, m) else (s, Some(m))
  }

  /** One message through the stages. */
  function TransformOne<S>(chain: Chain<S>, s: S, m: Msg, respond: bool): Effect<S> {
    var (s1, t) := InputStage(chain, s, m);
    if t.Nothing? then Effect(s1, [], [])
    else
      var msg := if t.Fresh? then t.data else m;
      var (s2, pass) := FilterStage(chain, s1, msg);
      if !pass then Effect(s2, [], [])
      else
        var (s3, response) := RespondStage(chain, s2, msg, respond);
        var (s4, out) := OutputStage(chain, s3, msg);
        Effect(s4, Listed(response), Listed(out))
  }

  function Then<S>(first: Effect<S>, second: Effect<S>): Effect<S> {
    Effect(second.state, first.responses + second.responses, first.outs + second.outs)
  }

  /** The sequential fold: messages one after the other, responding to all of them
      or, with respondOnce, to the first only. */
  function TransformAll<S>(chain: Chain<S>, s: S, ms: seq<Msg>, respond: bool): Effect<S> {
    if ms == [] then Effect(s, [], [])
    else
      var one := TransformOne(chain, s, ms[0], respond);
      Then(one, TransformAll(chain, one.state, ms[1..], respond && !chain.respondOnce))
  }

  /** The elements of a bundle before its first NULL. */
  function Leading(pieces: seq<Option<Msg>>): (ms: seq<Msg>)
    ensures |ms| <= |pieces|
  {
    if pieces == [] || pieces[0].None? then [] else [pieces[0].value] + Leading(pieces[1..])
  }

  /** The default aggregator: the concatenation, NULL when that is empty. */
  function Concatenated(ms: seq<Msg>): Option<Msg> {
    if Flatten(ms) == [] then None else Some(Flatten(ms))
  }

  function AggregateStage<S>(chain: Chain<S>, s: S, outs: seq<Msg>): (S, Option<Msg>) {
    if chain.aggregator.Some? then chain.aggregator.value(s, outs) else (s, Concatenated(outs))
  }

  /** `crashed`: the code goes on to read the aggregate although it is NULL. */
  datatype Outcome<S> = Outcome(state: S, responses: seq<Msg>, result: Option<Msg>, crashed: bool)

  /** What callTransformers computes. */
  function Transformation<S>(chain: Chain<S>, s: S, m: Msg): Outcome<S> {
    if chain.splitter.None? then
      var e := TransformOne(chain, s, m, true);
      Outcome(e.state, e.responses, if e.outs == [] then None else Some(e.outs[0]), false)
    else
      var (s1, pieces) := chain.splitter.value(s, m);
      if pieces.None? then Outcome(s1, [], None, false)
      else
        var e := TransformAll(chain, s1, Leading(pieces.value), true);
        if |Leading(pieces.value)| < |pieces.value| || e.outs == [] then Outcome(e.state, e.responses, None, false)
        else
          var (s2, result) := AggregateStage(chain, e.state, e.outs);
          Outcome(s2, e.responses, result, result.None?)
  }

  // ---------------------------------------------------------------- laws of the fold

  lemma ThenAssociative<S>(a: Effect<S>, b: Effect<S>, c: Effect<S>)
    ensures Then(Then(a, b), c) == Then(a, Then(b, c))
  {
    assert a.responses + b.responses + c.responses == a.responses + (b.responses + c.responses);
    assert a.outs + b.outs + c.outs == a.outs + (b.outs + c.outs);
  }

  lemma TransformAllStep<S>(chain: Chain<S>, s: S, ms: seq<Msg>, respond: bool)
    requires ms != []
    ensures var one := TransformOne(chain, s, ms[0], respond);
            TransformAll(chain, s, ms, respond)
            == Then(one, TransformAll(chain, one.state, ms[1..], respond && !chain.respondOnce))
  {
  }

  /** Nothing is published for messages the chain may not respond to, and no message
      yields more than one result, so a bundle of 25 never overflows the next one. */
  lemma {:induction false} FoldBounds<S>(chain: Chain<S>, s: S, ms: seq<Msg>, respond: bool)
    ensures |TransformAll(chain, s, ms, respond).outs| <= |ms|
    ensures |TransformAll(chain, s, ms, respond).responses| <= |ms|
    ensures !respond ==> TransformAll(chain, s, ms, respond).responses == []
  {
    if ms != [] {
      FoldBounds(chain, TransformOne(chain, s, ms[0], respond).state, ms[1..], respond && !chain.respondOnce);
    }
  }

  /** With respondOnce, whatever is published is the response to the first element. */
  lemma RespondOnce<S>(chain: Chain<S>, s: S, ms: seq<Msg>, respond: bool)
    requires chain.respondOnce && ms != []
    ensures TransformAll(chain, s, ms, respond).responses == TransformOne(chain, s, ms[0], respond).responses
    ensures |TransformAll(chain, s, ms, respond).responses| <= 1
  {
    FoldBounds(chain, TransformOne(chain, s, ms[0], respond).state, ms[1..], false);
  }

  /** The pipeline promise: a bundle without NULLs and with some non-empty result returns
      the aggregate of the results of the fold in order, and publishes its responses. */
  lemma PipelineRefinesFold<S>(chain: Chain<S>, s: S, m: Msg, s1: S, ms: seq<Msg>)
    requires chain.splitter.Some? && chain.aggregator.None?
    requires chain.splitter.value(s, m) == (s1, Some(seq(|ms|, i requires 0 <= i < |ms| => Some(ms[i]))))
    ensures var e := TransformAll(chain, s1, ms, true);
            var o := Transformation(chain, s, m);
            && o.responses == e.responses && o.state == e.state
            && (Flatten(e.outs) != [] ==> o.result == Some(Flatten(e.outs)) && !o.crashed)
            && (e.outs == [] ==> o.result == None && !o.crashed)
            && (o.crashed <==> e.outs != [] && Flatten(e.outs) == [])
  {
    var pieces := seq(|ms|, i requires 0 <= i < |ms| => Some(ms[i]));
    LeadingAll(pieces, ms);
  }

  lemma {:induction false} LeadingAll(pieces: seq<Option<Msg>>, ms: seq<Msg>)
    requires |pieces| == |ms| && forall i | 0 <= i < |ms| :: pieces[i] == Some(ms[i])
    ensures Leading(pieces) == ms
  {
    if pieces != [] {
      LeadingAll(pieces[1..], ms[1..]);
      assert ms == [ms[0]] + ms[1..];
    }
  }

  // ---------------------------------------------------------------- the order of the stages

  /** A message the input transformer drops goes no further. */
  lemma DroppedStops<S>(chain: Chain<S>, s: S, m: Msg, respond: bool, s': S)
    requires chain.inputTransformer.Some? && chain.inputTransformer.value(s, m) == (s', Nothing)
    ensures TransformOne(chain, s, m, respond) == Effect(s', [], [])
  {
  }

  /** A message the filter rejects is neither answered nor handed on; the filter sees it as
      the input transformer left it. */
  lemma RejectedStops<S>(chain: Chain<S>, s: S, m: Msg, respond: bool, s1: S, msg: Msg, s2: S)
    requires chain.inputTransformer.Some? && chain.inputTransformer.value(s, m) == (s1, Fresh(msg))
    requires chain.filter.Some? && chain.filter.value(s1, msg) == (s2, false)
    ensures TransformOne(chain, s, m, respond) == Effect(s2, [], [])
  {
  }

  /** Any other message is answered, if that is allowed, and then handed on, both as the input
      transformer left it: the responder comes first, and neither sees the other's message. */
  lemma PassedOn<S>(chain: Chain<S>, s: S, m: Msg, respond: bool, s1: S, msg: Msg, s2: S)
    requires chain.inputTransformer.Some? && chain.inputTransformer.value(s, m) == (s1, Fresh(msg))
    requires chain.filter.Some? && chain.filter.value(s1, msg) == (s2, true)
    requires chain.responder.Some? && chain.outputTransformer.Some?
    ensures var (s3, response) := if respond then chain.responder.value(s2, msg) else (s2, None);
            var (s4, out) := chain.outputTransformer.value(s3, msg);
            TransformOne(chain, s, m, respond)
            == Effect(s4, if response.None? then [] else [response.value], if out.None? then [] else [out.value])
  {
    var (s3, response) := if respond then chain.responder.value(s2, msg) else (s2, None);
    var (s4, out) := chain.outputTransformer.value(s3, msg);
    assert InputStage(chain, s, m) == (s1, Fresh(msg)) && FilterStage(chain, s1, msg) == (s2, true);
    assert RespondStage(chain, s2, msg, respond) == (s3, response);
    assert OutputStage(chain, s3, msg) == (s4, out);
  }

  /** A chain without stages copies. */
  lemma NoStages<S>(s: S, m: Msg, respond: bool)
    ensures TransformOne(Chain(None, None, None, None, None, None, false), s, m, respond) == Effect(s, [], [m])
  {
  }

  /** Without a splitter the result is that of the one message; a splitter that returns NULL
      ends it; a NULL among the pieces ends it there, without a result. */
  lemma SplitOrNot<S>(chain: Chain<S>, s: S, m: Msg, before: seq<Msg>, after: seq<Option<Msg>>)
    ensures chain.splitter.None? ==>
              var e, o := TransformOne(chain, s, m, true), Transformation(chain, s, m);
              && o.state == e.state && o.responses == e.responses && !o.crashed
              && o.result == if e.outs == [] then None else Some(e.outs[0])
    ensures chain.splitter.Some? && chain.splitter.value(s, m).1.None? ==>
              Transformation(chain, s, m) == Outcome(chain.splitter.value(s, m).0, [], None, false)
    ensures chain.splitter.Some? && chain.splitter.value(s, m).1 == Some(Somes(before) + [None] + after) ==>
              var e := TransformAll(chain, chain.splitter.value(s, m).0, before, true);
              Transformation(chain, s, m) == Outcome(e.state, e.responses, None, false)
  {
    if chain.splitter.Some? && chain.splitter.value(s, m).1 == Some(Somes(before) + [None] + after) {
      LeadingStops(before, after);
    }
  }

  lemma {:induction false} LeadingStops(before: seq<Msg>, after: seq<Option<Msg>>)
    ensures Leading(Somes(before) + [None] + after) == before
    ensures |Leading(Somes(before) + [None] + after)| < |Somes(before) + [None] + after|
  {
    var pieces := Somes(before) + [None] + after;
    if before == [] {
      assert pieces[0] == None;
    } else {
      LeadingStops(before[1..], after);
      assert pieces[0] == Some(before[0]) && pieces[1..] == Somes(before[1..]) + [None] + after;
    }
  }

  /** An aggregator of the chain's own takes the place of concatenation. */
  lemma OwnAggregator<S>(chain: Chain<S>, s: S, m: Msg, s1: S, ms: seq<Msg>)
    requires chain.splitter.Some? && chain.aggregator.Some?
    requires chain.splitter.value(s, m) == (s1, Some(Somes(ms)))
    ensures var e := TransformAll(chain, s1, ms, true);
            var o := Transformation(chain, s, m);
            && o.responses == e.responses
            && (e.outs == [] ==> o.state == e.state && o.result == None && !o.crashed)
            && (e.outs != [] ==>
                  && (o.state, o.result) == chain.aggregator.value(e.state, e.outs)
                  && (o.crashed <==> o.result == None))
  {
    LeadingAll(Somes(ms), ms);
  }

  // ---------------------------------------------------------------- the pipe

  /** A pipe as a value: the user context and its two clients. */
  datatype Ends<S> = Ends(user: S, inbound: Tcp, outbound: Tcp)

  /** A message from the inbound client: responses go back to it, the result is
      published outbound, opening that link first if it is down. */
  function InboundDelivered<S>(chain: Option<Chain<S>>, p: Ends<S>, m: Msg): Ends<S> {
    if chain.None? then p.(outbound := LazilyPublished(p.outbound, Some(m)))
    else
      var o := Transformation(chain.value, p.user, m);
      Ends(o.state, PublishedAll(p.inbound, o.responses), LazilyPublished(p.outbound, o.result))
  }

  function OutboundDelivered<S>(chain: Option<Chain<S>>, p: Ends<S>, m: Msg): Ends<S> {
    if chain.None? then p.(inbound := LazilyPublished(p.inbound, Some(m)))
    else
      var o := Transformation(chain.value, p.user, m);
      Ends(o.state, LazilyPublished(p.inbound, o.result), PublishedAll(p.outbound, o.responses))
  }

  /** Lazy connection: the link is opened when there is something to publish on it. */
  function LazilyPublished(t: Tcp, m: Option<Msg>): Tcp {
    if m.None? then t
    else Published(if t.connected then t else Connected(t), m.value)
  }

  /** On an open link this is publishing; on a closed one there is one attempt to open it, and the
      message reaches the peer if that and the write succeed. Nothing happens for no message. */
  lemma LazyExactly(t: Tcp, m: Msg)
    requires m != []
    ensures LazilyPublished(t, None) == t
    ensures t.connected ==> LazilyPublished(t, Some(m)) == Published(t, m)
    ensures !t.connected ==>
              var t' := LazilyPublished(t, Some(m));
              var nowOpen := t.connects != [] && t.connects[0];
              var written := nowOpen && t.writes != [] && t.writes[0];
              && (t'.connected <==> written)
              && t'.toPeer == (if written then [m] else []) && t'.fromPeer == []
              && t'.connects == (if t.connects == [] then [] else t.connects[1..])
              && t'.writes == if nowOpen && t.writes != [] then t.writes[1..] else t.writes
  {
  }

  /** A delivery is clean when a chain takes the message (without a chain the very same
      object is published, destroyed, and then destroyed again by the loop) and the
      chain does not end up reading a NULL aggregate. */
  predicate Clean<S>(chain: Option<Chain<S>>, s: S, m: Msg) {
    chain.Some? && !Transformation(chain.value, s, m).crashed
  }

  function InboundLooped<S>(chain: Option<Chain<S>>, p: Ends<S>, r: ReadOutcome): Ends<S> {
    var (t, arrived) := AfterRead(p.inbound, r);
    if arrived.None? then p.(inbound := t) else InboundDelivered(chain, p.(inbound := t), arrived.value)
  }

  function OutboundLooped<S>(chain: Option<Chain<S>>, p: Ends<S>, r: ReadOutcome): Ends<S> {
    var (t, arrived) := AfterRead(p.outbound, r);
    if arrived.None? then p.(outbound := t) else OutboundDelivered(chain, p.(outbound := t), arrived.value)
  }

  class Pipe<S> {
    const inbound: Client
    const outbound: Client
    const heap: MessageHeap
    const inChain: Option<Chain<S>>
    const outChain: Option<Chain<S>>
    var user: S

    ghost predicate Valid()
      reads this, heap
    {
      inbound != outbound && heap.Valid()
    }

    ghost function View(): Ends<S>
      reads this, inbound, outbound
    {
      Ends(user, inbound.View(), outbound.View())
    }

    /** msg_pipe: the inbound link is opened at once, the outbound one only without lazyConnect. */
    constructor (inbound: Client, outbound: Client, inChain: Option<Chain<S>>, outChain: Option<Chain<S>>, user: S,
                 lazyConnect: bool)
      requires inbound != outbound
      modifies inbound, outbound
      ensures Valid() && fresh(heap) && heap.faults == 0
      ensures this.inbound == inbound && this.outbound == outbound
      ensures this.inChain == inChain && this.outChain == outChain
      ensures View()
              == Ends(user, Connected(old(inbound.View())),
                      if lazyConnect then old(outbound.View()) else Connected(old(outbound.View())))
    {
      this.inbound, this.outbound := inbound, outbound;
      this.inChain, this.outChain := inChain, outChain;
      this.user := user;
      heap := new MessageHeap();
      new;
      var status := inbound.Connect();
      if !lazyConnect {
        status := outbound.Connect();
      }
    }

    /** Nothing was freed twice or used after it was freed, and every message that was
        live still is, unchanged. */
    twostate predicate Preserved()
      reads heap
    {
      Kept() && heap.faults == old(heap.faults)
    }

    twostate predicate Kept()
      reads heap
    {
      && heap.Valid()
      && heap.next >= old(heap.next)
      && forall id <- old(heap.cells) :: id in heap.cells && heap.cells[id] == old(heap.cells[id])
    }

    /** `out` is a message made since, holding the one listed content, or NULL if none is listed. */
    twostate predicate Made(new out: Option<nat>, outs: seq<Msg>)
      reads heap
    {
      && |outs| == (if out.Some? then 1 else 0)
      && (out.Some? ==> out.value >= old(heap.next) && out.value in heap.cells && heap.cells[out.value] == outs[0])
    }

    /** The message the input transformer hands on: NULL, the same object or a new one. */
    method TransformInput(chain: Chain<S>, message: nat) returns (msg: Option<nat>)
      requires heap.Valid() && message in heap.cells
      modifies this`user, heap
      ensures Preserved()
      ensures var (state, t) := InputStage(chain, old(user), old(heap.cells[message]));
              && user == state
              && (msg.None? <==> t.Nothing?)
              && (msg.Some? ==> msg.value in heap.cells)
              && (msg.Some? ==> heap.cells[msg.value] == if t.Fresh? then t.data else old(heap.cells[message]))
    {
      if chain.inputTransformer.None? {
        return Some(message);
      }
      var data := heap.Read(message);
      var (state, t) := chain.inputTransformer.value(user, data);
      user := state;
      match t {
        case Nothing => return None;
        case Same => return Some(message);
        case Fresh(content) =>
          var made := heap.CreateMsg(content);
          return Some(made);
      }
    }

    method Filter(chain: Chain<S>, msg: nat) returns (pass: bool)
      requires heap.Valid() && msg in heap.cells
      modifies this`user, heap
      ensures Preserved()
      ensures (user, pass) == FilterStage(chain, old(user), old(heap.cells[msg]))
    {
      if chain.filter.None? {
        return true;
      }
      var data := heap.Read(msg);
      var (state, result) := chain.filter.value(user, data);
      user := state;
      return result;
    }

    /** The responder's message is published and then destroyed. */
    method Respond(client: Client, chain: Chain<S>, msg: nat)
      requires heap.Valid() && msg in heap.cells && chain.responder.Some?
      modifies this`user, client, heap
      ensures Preserved()
      ensures var (state, response) := chain.responder.value(old(user), old(heap.cells[msg]));
              && user == state
              && client.View() == PublishedAll(old(client.View()), Listed(response))
    {
      var data := heap.Read(msg);
      var (state, response) := chain.responder.value(user, data);
      user := state;
      if response.Some? {
        var made := heap.CreateMsg(response.value);
        var content := heap.Read(made);
        client.Publish(content);
        heap.DestroyMsg(made);
        PublishedOne(old(client.View()), content);
      }
    }

    /** The output transformer's message, or a copy. */
    method TransformOutput(chain: Chain<S>, msg: nat) returns (out: Option<nat>)
      requires heap.Valid() && msg in heap.cells
      modifies this`user, heap
      ensures Preserved()
      ensures var (state, result) := OutputStage(chain, old(user), old(heap.cells[msg]));
              user == state && Made(out, Listed(result))
    {
      if chain.outputTransformer.None? {
        var copy := heap.CopyMsg(msg);
        return Some(copy);
      }
      var data := heap.Read(msg);
      var (state, result) := chain.outputTransformer.value(user, data);
      user := state;
      if result.None? {
        return None;
      }
      var made := heap.CreateMsg(result.value);
      return Some(made);
    }

    method TransformChain(client: Client, chain: Chain<S>, message: nat, respond: bool) returns (out: Option<nat>)
      requires heap.Valid() && message in heap.cells
      modifies this`user, client, heap
      ensures Preserved()
      ensures var e := TransformOne(chain, old(user), old(heap.cells[message]), respond);
              && user == e.state
              && Made(out, e.outs)
              && client.View() == PublishedAll(old(client.View()), e.responses)
    {
      var msg := TransformInput(chain, message);
      if msg.None? {
        return None;
      }
      var pass := Filter(chain, msg.value);
      if !pass {
        return None;
      }
      if chain.responder.Some? && respond {
        Respond(client, chain, msg.value);
      }
      out := TransformOutput(chain, msg.value);
    }

    /** The splitter's bundle: a new message for every non-NULL piece. */
    method MakeBundle(pieces: seq<Option<Msg>>) returns (bundle: seq<Option<nat>>)
      requires heap.Valid()
      modifies heap
      ensures Preserved() && Holds(bundle, pieces)
      ensures forall i | 0 <= i < |bundle| && bundle[i].Some? :: bundle[i].value >= old(heap.next)
    {
      bundle := [];
      while |bundle| < |pieces|
        invariant |bundle| <= |pieces|
        invariant Preserved() && Holds(bundle, pieces[..|bundle|])
        invariant forall i | 0 <= i < |bundle| && bundle[i].Some? :: bundle[i].value >= old(heap.next)
      {
        var piece := pieces[|bundle|];
        if piece.Some? {
          var id := heap.CreateMsg(piece.value);
          bundle := bundle + [Some(id)];
        } else {
          bundle := bundle + [None];
        }
      }
    }

    /** A bundle of distinct live messages with the given contents. */
    ghost predicate Holds(bundle: seq<Option<nat>>, pieces: seq<Option<Msg>>)
      reads heap
    {
      && |bundle| == |pieces|
      && (forall i | 0 <= i < |bundle| :: bundle[i].None? <==> pieces[i].None?)
      && (forall i | 0 <= i < |bundle| && bundle[i].Some? ::
            bundle[i].value in heap.cells && heap.cells[bundle[i].value] == pieces[i].value)
      && (forall i, j | 0 <= i < j < |bundle| && bundle[i].Some? && bundle[j].Some? ::
            bundle[i].value != bundle[j].value)
    }

    /** msg_pipe_concat over the results. */
    method Concat(bundle: seq<Option<nat>>, ghost outs: seq<Msg>) returns (message: Option<nat>)
      requires heap.Valid() && Holds(bundle, Somes(outs))
      modifies heap
      ensures Preserved() && Made(message, Listed(Concatenated(outs)))
    {
      if |bundle| == 0 || bundle[0].None? {
        return None;
      }
      var data: Msg := [];
      var i := 0;
      while i < |bundle|
        invariant 0 <= i <= |bundle|
        invariant data == Flatten(outs[..i])
        invariant heap.Valid() && heap.faults == old(heap.faults) && heap.cells == old(heap.cells)
        invariant heap.next == old(heap.next)
      {
        if bundle[i].None? {
          break;
        }
        var part := heap.Read(bundle[i].value);
        FlattenAppend(outs[..i], [outs[i]]);
        assert outs[..i + 1] == outs[..i] + [outs[i]];
        data := data + part;
        i := i + 1;
      }
      assert outs[..i] == outs;
      if data == [] {
        return None;
      }
      var made := heap.CreateMsg(data);
      return Some(made);
    }

    /** One turn of the transform loop: the result, if any, joins the output bundle. */
    method TransformElement(client: Client, chain: Chain<S>, id: nat, respond: bool,
                            out: seq<Option<nat>>, ghost outs: seq<Msg>)
      returns (out': seq<Option<nat>>)
      requires heap.Valid() && id in heap.cells && Holds(out, Somes(outs))
      modifies this`user, client, heap
      ensures Preserved()
      ensures var e := TransformOne(chain, old(user), old(heap.cells[id]), respond);
              && user == e.state
              && client.View() == PublishedAll(old(client.View()), e.responses)
              && Holds(out', Somes(outs + e.outs))
      ensures out <= out' && forall k | |out| <= k < |out'| :: out'[k].Some? && out'[k].value >= old(heap.next)
    {
      var transMsg := TransformChain(client, chain, id, respond);
      hide TransformOne;
      if transMsg.Some? {
        out' := out + [transMsg];
      } else {
        out' := out;
      }
    }

    /** The transform loop; a NULL element ends it early and incomplete. */
    method TransformBundle(client: Client, chain: Chain<S>, bundle: seq<Option<nat>>, ghost pieces: seq<Option<Msg>>)
      returns (out: seq<Option<nat>>, complete: bool)
      requires heap.Valid() && Holds(bundle, pieces)
      modifies this`user, client, heap
      ensures Preserved()
      ensures complete <==> |Leading(pieces)| == |pieces|
      ensures var e := TransformAll(chain, old(user), Leading(pieces), true);
              && user == e.state
              && client.View() == PublishedAll(old(client.View()), e.responses)
              && Holds(out, Somes(e.outs))
      ensures forall k | 0 <= k < |out| && out[k].Some? :: out[k].value >= old(heap.next)
    {
      hide TransformOne, TransformAll, Leading, PublishedAll;
      out := [];
      var respond := true;
      ghost var acc := Effect(user, [], []);
      ghost var goal := TransformAll(chain, user, Leading(pieces), true);
      assert Then(acc, goal) == goal;
      PublishedNothing(client.View());
      var i := 0;
      assert pieces[i..] == pieces;
      while i < |bundle|
        invariant 0 <= i <= |bundle|
        invariant Preserved()
        invariant |Leading(pieces)| == i + |Leading(pieces[i..])|
        invariant acc.state == user
        invariant goal == Then(acc, TransformAll(chain, user, Leading(pieces[i..]), respond))
        invariant client.View() == PublishedAll(old(client.View()), acc.responses)
        invariant Holds(out, Somes(acc.outs))
        invariant forall k | 0 <= k < |out| && out[k].Some? :: out[k].value >= old(heap.next)
      {
        LeadingStep(pieces, i);
        if bundle[i].None? {
          FoldDone(chain, acc, respond);
          return out, false;
        }
        FoldStep(chain, acc, Leading(pieces[i..]), respond);
        ghost var one := TransformOne(chain, user, pieces[i].value, respond);
        PublishedAllAppend(old(client.View()), acc.responses, one.responses);

        out := TransformElement(client, chain, bundle[i].value, respond, out, acc.outs);
        acc := Then(acc, one);
        if chain.respondOnce {
          respond := false;
        }
        i := i + 1;
      }
      complete := true;
      LeadingStep(pieces, i);
      FoldDone(chain, acc, respond);
    }

    /** Split, then transform; the split messages are destroyed. NULL when there is nothing
        to aggregate. */
    method TransformSplit(client: Client, chain: Chain<S>, message: nat)
      returns (out: Option<seq<Option<nat>>>, ghost outs: seq<Msg>)
      requires heap.Valid() && message in heap.cells && chain.splitter.Some?
      modifies this`user, client, heap
      ensures Preserved()
      ensures var (s1, pieces) := chain.splitter.value(old(user), old(heap.cells[message]));
              if pieces.None? then
                out.None? && user == s1 && client.View() == old(client.View())
              else
                var e := TransformAll(chain, s1, Leading(pieces.value), true);
                && user == e.state && outs == e.outs
                && client.View() == PublishedAll(old(client.View()), e.responses)
                && (out.None? <==> |Leading(pieces.value)| < |pieces.value| || e.outs == [])
      ensures out.Some? ==> Holds(out.value, Somes(outs))
      ensures out.Some? ==>
                forall k | 0 <= k < |out.value| && out.value[k].Some? :: out.value[k].value >= old(heap.next)
    {
      hide TransformOne, TransformAll, Leading, PublishedAll;
      outs := [];
      PublishedNothing(client.View());
      var data := heap.Read(message);
      var (state, pieces) := chain.splitter.value(user, data);
      user := state;
      if pieces.None? {
        return None, [];
      }
      outs := TransformAll(chain, state, Leading(pieces.value), true).outs;
      var messages := MakeBundle(pieces.value);
      if |messages| == 0 {
        LeadingStep(pieces.value, 0);
        FoldDone(chain, Effect(user, [], []), true);
        return None, outs;
      }
      var bundle, complete := TransformBundle(client, chain, messages, pieces.value);
      if !complete {
        return None, outs;
      }
      heap.DestroyMsgBundle(messages);
      if |bundle| == 0 {
        heap.DestroyMsgBundle(bundle);
        return None, outs;
      }
      out := Some(bundle);
    }

    /** The split, transform and aggregate path. */
    method CallSplitTransformers(client: Client, chain: Chain<S>, message: nat) returns (ret: Option<nat>)
      requires heap.Valid() && message in heap.cells && chain.splitter.Some?
      modifies this`user, client, heap
      ensures Kept()
      ensures var o := Transformation(chain, old(user), old(heap.cells[message]));
              && user == o.state
              && Made(ret, Listed(o.result))
              && client.View() == PublishedAll(old(client.View()), o.responses)
              && heap.faults == old(heap.faults) + (if o.crashed then 1 else 0)
    {
      hide TransformOne, TransformAll, Leading, PublishedAll, Concatenated;
      PublishedNothing(client.View());
      var out, outs := TransformSplit(client, chain, message);
      if out.None? {
        return None;
      }
      ret := Aggregate(chain, out.value, outs);
      if ret.None? {
        heap.NullRead();
      }
      heap.DestroyMsgBundle(out.value);
    }

    /** The chain's aggregator, or concatenation. */
    method Aggregate(chain: Chain<S>, out: seq<Option<nat>>, ghost outs: seq<Msg>) returns (ret: Option<nat>)
      requires heap.Valid() && Holds(out, Somes(outs))
      modifies this`user, heap
      ensures Preserved()
      ensures var (state, result) := AggregateStage(chain, old(user), outs);
              user == state && Made(ret, Listed(result))
    {
      if chain.aggregator.None? {
        ret := Concat(out, outs);
        return;
      }
      var contents := [];
      while |contents| < |out|
        invariant |contents| <= |out| && contents == outs[..|contents|]
        invariant Preserved() && heap.cells == old(heap.cells) && heap.next == old(heap.next) && user == old(user)
      {
        var data := heap.Read(out[|contents|].value);
        contents := contents + [data];
      }
      assert contents == outs;
      var (state, result) := chain.aggregator.value(user, contents);
      user := state;
      if result.None? {
        return None;
      }
      var made := heap.CreateMsg(result.value);
      return Some(made);
    }

    method CallTransformers(client: Client, chain: Chain<S>, message: nat) returns (ret: Option<nat>)
      requires heap.Valid() && message in heap.cells
      modifies this`user, client, heap
      ensures Kept()
      ensures var o := Transformation(chain, old(user), old(heap.cells[message]));
              && user == o.state
              && Made(ret, Listed(o.result))
              && client.View() == PublishedAll(old(client.View()), o.responses)
              && heap.faults == old(heap.faults) + (if o.crashed then 1 else 0)
    {
      hide TransformOne, TransformAll, Leading, PublishedAll;
      if chain.splitter.Some? {
        ret := CallSplitTransformers(client, chain, message);
      } else {
        ret := TransformChain(client, chain, message, true);
      }
    }

    /** outboundPublish and inboundPublish: connect if need be, publish, destroy. */
    method Publish(client: Client, message: Option<nat>)
      requires heap.Valid() && (message.Some? ==> message.value in heap.cells)
      modifies client, heap
      ensures heap.Valid() && heap.faults == old(heap.faults) && heap.next == old(heap.next)
      ensures heap.cells == if message.Some? then old(heap.cells) - {message.value} else old(heap.cells)
      ensures message.Some? ==>
                client.View() == LazilyPublished(old(client.View()), Some(old(heap.cells[message.value])))
      ensures message.None? ==>
                client.View() == if old(client.connected) then old(client.View()) else Connected(old(client.View()))
    {
      if !client.connected {
        var status := client.Connect();
      }
      if message.Some? {
        var data := heap.Read(message.value);
        client.Publish(data);
        heap.DestroyMsg(message.value);
      }
    }

    /** A message delivered to the pipe by its inbound client. */
    method InboundSubscription(message: nat)
      requires Valid() && message in heap.cells
      modifies this`user, inbound, outbound, heap
      ensures Valid() && heap.next >= old(heap.next)
      ensures View() == InboundDelivered(inChain, old(View()), old(heap.cells[message]))
      ensures inChain.Some? ==>
                var o := Transformation(inChain.value, old(user), old(heap.cells[message]));
                && user == o.state
                && inbound.View() == PublishedAll(old(inbound.View()), o.responses)
                && outbound.View() == LazilyPublished(old(outbound.View()), o.result)
      ensures inChain.Some? ==>
                && message in heap.cells
                && heap.faults == old(heap.faults)
                     + (if Clean(inChain, old(user), old(heap.cells[message])) then 0 else 1)
      ensures inChain.None? ==> message !in heap.cells && heap.faults == old(heap.faults)
    {
      hide Transformation, PublishedAll;
      var out := Some(message);
      if inChain.Some? {
        out := CallTransformers(inbound, inChain.value, message);
      }
      if out.Some? {
        Publish(outbound, out);
      }
    }

    /** A message delivered to the pipe by its outbound client. */
    method OutboundSubscription(message: nat)
      requires Valid() && message in heap.cells
      modifies this`user, inbound, outbound, heap
      ensures Valid() && heap.next >= old(heap.next)
      ensures View() == if old(heap.cells[message]) == [] then old(View())
                        else OutboundDelivered(outChain, old(View()), old(heap.cells[message]))
      ensures outChain.Some? && old(heap.cells[message]) != [] ==>
                var o := Transformation(outChain.value, old(user), old(heap.cells[message]));
                && user == o.state
                && outbound.View() == PublishedAll(old(outbound.View()), o.responses)
                && inbound.View() == LazilyPublished(old(inbound.View()), o.result)
      ensures outChain.Some? ==>
                && message in heap.cells
                && heap.faults == old(heap.faults)
                     + (if old(heap.cells[message]) == [] || Clean(outChain, old(user), old(heap.cells[message]))
                        then 0 else 1)
      ensures outChain.None? && old(heap.cells[message]) != [] ==>
                message !in heap.cells && heap.faults == old(heap.faults)
    {
      hide Transformation, PublishedAll;
      var data := heap.Read(message);
      if |data| == 0 {
        return;
      }
      var out := Some(message);
      if outChain.Some? {
        out := CallTransformers(outbound, outChain.value, message);
      }
      if out.Some? {
        Publish(inbound, out);
      }
    }

    /** msg_core_loop of the inbound client: read, deliver to the one subscription, destroy.
        No message is misused exactly when nothing arrived or the delivery was clean. */
    method LoopInbound(outcome: ReadOutcome)
      requires Valid()
      modifies this`user, inbound, outbound, heap
      ensures Valid()
      ensures View() == InboundLooped(inChain, old(View()), outcome)
      ensures var (_, arrived) := AfterRead(old(inbound.View()), outcome);
              heap.faults == old(heap.faults) <==> arrived.None? || Clean(inChain, old(user), arrived.value)
    {
      hide Transformation, PublishedAll;
      var arrived := inbound.IncomingHandler(outcome);
      if arrived.Some? {
        var message := heap.CreateMsg(arrived.value);
        InboundSubscription(message);
        heap.DestroyMsg(message);
      }
    }

    method LoopOutbound(outcome: ReadOutcome)
      requires Valid()
      modifies this`user, inbound, outbound, heap
      ensures Valid()
      ensures View() == OutboundLooped(outChain, old(View()), outcome)
      ensures var (_, arrived) := AfterRead(old(outbound.View()), outcome);
              heap.faults == old(heap.faults) <==> arrived.None? || Clean(outChain, old(user), arrived.value)
    {
      hide Transformation, PublishedAll;
      var arrived := outbound.IncomingHandler(outcome);
      if arrived.Some? {
        var message := heap.CreateMsg(arrived.value);
        OutboundSubscription(message);
        heap.DestroyMsg(message);
      }
    }
  }

  function Somes(ms: seq<Msg>): seq<Option<Msg>> {
    seq(|ms|, i requires 0 <= i < |ms| => Some(ms[i]))
  }

  lemma LeadingStep(pieces: seq<Option<Msg>>, i: nat)
    requires i <= |pieces|
    ensures var rest := Leading(pieces[i..]);
            if i == |pieces| || pieces[i].None? then rest == []
            else rest == [pieces[i].value] + Leading(pieces[i + 1..])
  {
  }

  lemma FoldDone<S>(chain: Chain<S>, acc: Effect<S>, respond: bool)
    ensures Then(acc, TransformAll(chain, acc.state, [], respond)) == acc
  {
  }

  lemma FoldStep<S>(chain: Chain<S>, acc: Effect<S>, ms: seq<Msg>, respond: bool)
    requires ms != []
    ensures var one := TransformOne(chain, acc.state, ms[0], respond);
            Then(acc, TransformAll(chain, acc.state, ms, respond))
            == Then(Then(acc, one), TransformAll(chain, one.state, ms[1..], respond && !chain.respondOnce))
  {
    var one := TransformOne(chain, acc.state, ms[0], respond);
    TransformAllStep(chain, acc.state, ms, respond);
    ThenAssociative(acc, one, TransformAll(chain, one.state, ms[1..], respond && !chain.respondOnce));
  }
}
