/** The controller's stages on the two chains of its pipe: splitter, acknowledgements,
    configuration commands (components/phev_core/src/phev_controller.c). */
module CarLink {
  import opened Bytes
  import opened Messaging
  import opened MsgPipe
  import opened PhevCore
  import opened PhevConfig

  const KO_WF_MANUAL_AC_ON_RQ_SP: byte := 4
  const KO_WF_DATE_INFO_SYNC_SP: byte := 5
  const KO_WF_H_LAMP_CONT_SP: byte := 10
  const KO_WF_P_LAMP_CONT_SP: byte := 11
  const MAX_MESSAGE_BUNDLE_SIZE := 25

  /** What memory nobody has written holds at the moment: behind the bytes received, behind
      the payload the encoder copies, behind the bytes encoded again, and in a new state. */
  datatype Memory = Memory(received: seq<byte>, payload: seq<byte>, encoded: seq<byte>, state: State)

  /** The fields of phevCtx_t the link depends on. */
  datatype Ctx = Ctx(
    currentPing: byte, successfulPing: bool, lastPingTime: int,
    config: Option<Config>, otaUpdating: bool, memory: Memory)

  /** The JSON library: parsing a configuration, printing a car response and the state. */
  datatype Foreign = Foreign(
    document: Msg -> Document, responseText: PhevMessage -> Msg, stateText: State -> Msg)

  // ---------------------------------------------------------------- splitting car bytes

  /** extractMessage as written takes all remaining bytes; the test suite expects one frame. */
  datatype Extract = AllRemaining | OneFrame

  function Extracted(extract: Extract, data: seq<byte>): Option<Msg> {
    if !ValidBuffer(data) then None
    else if extract.AllRemaining? then Some(data)
    else Some(data[..data[1] as int + 2])
  }

  method ExtractMessage(extract: Extract, data: seq<byte>) returns (message: Option<Msg>)
    ensures message == Extracted(extract, data)
  {
    var valid := ValidateBuffer(data, []);
    if valid == 0 {
      return None;
    }
    return Some(if extract.AllRemaining? then data else data[..data[1] as int + 2]);
  }

  function Split(extract: Extract, data: seq<byte>): seq<Msg>
    decreases |data|
  {
    var piece := Extracted(extract, data);
    if piece.None? then [] else [piece.value] + Split(extract, data[|piece.value|..])
  }

  /** The splitter loop over a bundle of MAX_MESSAGE_BUNDLE_SIZE slots. NULL when the
      bytes do not start with a valid frame. */
  method Splitter(extract: Extract, message: Msg) returns (messages: array?<Msg>, numMessages: nat)
    requires |Split(extract, message)| <= MAX_MESSAGE_BUNDLE_SIZE
    ensures messages == null <==> !ValidBuffer(message)
    ensures messages != null ==>
              && fresh(messages) && numMessages <= messages.Length == MAX_MESSAGE_BUNDLE_SIZE
              && messages[..numMessages] == Split(extract, message)
  {
    var out := ExtractMessage(extract, message);
    if out.None? {
      return null, 0;
    }
    SplitFirst(extract, message);
    hide *;
    var bundle := new Msg[MAX_MESSAGE_BUNDLE_SIZE];
    numMessages := AddToBundle(bundle, 0, out.value);
    numMessages := SplitRest(extract, message, |out.value|, bundle, numMessages);
    messages := bundle;
  }

  /** The splitter's loop, from `from` on. */
  method SplitRest(extract: Extract, message: Msg, from: nat, bundle: array<Msg>, count: nat)
    returns (numMessages: nat)
    requires from <= |message| && count + |Split(extract, message[from..])| <= bundle.Length
    modifies bundle
    ensures numMessages <= bundle.Length
    ensures bundle[..numMessages] == old(bundle[..count]) + Split(extract, message[from..])
  {
    hide *;
    var total := from;
    numMessages := count;
    ghost var pieces: seq<Msg> := [];
    ghost var rest := Split(extract, message[from..]);
    ghost var goal := rest;
    while |message| > total
      invariant total <= |message| && numMessages + |rest| <= bundle.Length
      invariant bundle[..numMessages] == old(bundle[..count]) + pieces
      invariant rest == Split(extract, message[total..])
      invariant pieces + rest == goal
      decreases |message| - total
    {
      var out := ExtractMessage(extract, message[total..]);
      if out.Some? {
        SplitNext(extract, message, total);
        total := total + |out.value|;
        rest := Split(extract, message[total..]);
        SplitBound(pieces, out.value, rest);
        numMessages := AddToBundle(bundle, numMessages, out.value);
        pieces := pieces + [out.value];
      } else {
        break;
      }
    }
    SplitEnd(extract, message[total..]);
    assert pieces + [] == pieces;
  }

  /** messages->messages[messages->numMessages++] = piece */
  method AddToBundle(bundle: array<Msg>, numMessages: nat, piece: Msg) returns (n: nat)
    requires numMessages < bundle.Length
    modifies bundle
    ensures n == numMessages + 1 && bundle[..n] == old(bundle[..numMessages]) + [piece]
  {
    bundle[numMessages] := piece;
    n := numMessages + 1;
  }

  lemma SplitBound(pieces: seq<Msg>, piece: Msg, rest: seq<Msg>)
    ensures pieces + ([piece] + rest) == pieces + [piece] + rest
    ensures |pieces| < |pieces + ([piece] + rest)|
  {
  }

  lemma SplitFirst(extract: Extract, message: seq<byte>)
    requires Extracted(extract, message).Some?
    ensures var piece := Extracted(extract, message).value;
            && ValidBuffer(message) && 2 <= |piece| <= |message|
            && Split(extract, message) == [piece] + Split(extract, message[|piece|..])
  {
  }

  lemma SplitEnd(extract: Extract, rest: seq<byte>)
    requires rest == [] || Extracted(extract, rest).None?
    ensures Split(extract, rest) == []
  {
  }

  lemma SplitNext(extract: Extract, message: seq<byte>, total: nat)
    requires total < |message| && Extracted(extract, message[total..]).Some?
    ensures var piece := Extracted(extract, message[total..]).value;
            && 2 <= |piece| && total + |piece| <= |message|
            && Split(extract, message[total..]) == [piece] + Split(extract, message[total + |piece|..])
  {
    SplitFirst(extract, message[total..]);
    hide Split, Extracted;
    var piece := Extracted(extract, message[total..]).value;
    assert message[total..][|piece|..] == message[total + |piece|..];
  }

  /** Whichever way pieces are extracted: they are non-empty, each starts with a valid
      frame, and together they are a prefix of the input. */
  lemma {:induction false} SplitShape(extract: Extract, data: seq<byte>)
    ensures Flatten(Split(extract, data)) <= data
    ensures forall piece <- Split(extract, data) :: piece != [] && ValidBuffer(piece)
    ensures Split(extract, data) == [] <==> !ValidBuffer(data)
    decreases |data|
  {
    var piece := Extracted(extract, data);
    if piece.Some? {
      SplitShape(extract, data[|piece.value|..]);
      assert data == piece.value + data[|piece.value|..];
    }
  }

  /** As written, whatever the car sends in one read becomes at most one piece. */
  lemma SplitAsWritten(data: seq<byte>)
    ensures Split(AllRemaining, data) == if ValidBuffer(data) then [data] else []
  {
    if ValidBuffer(data) {
      assert data[|data|..] == [];
      assert Split(AllRemaining, []) == [];
    }
  }

  /** Extracting one frame at a time, a stream of frames splits into exactly those frames. */
  lemma {:induction false} SplitAsIntended(fs: seq<Frame>)
    requires forall f <- fs :: Sendable(f)
    ensures Split(OneFrame, Stream(fs)) == FramePieces(fs)
  {
    if fs != [] {
      var f, rest := fs[0], Stream(fs[1..]);
      assert Sendable(f);
      ParseFirst(f, rest, []);
      hide FrameBytes;
      assert Stream(fs) == FrameBytes(f) + rest;
      assert Stream(fs)[..|FrameBytes(f)|] == FrameBytes(f) && Stream(fs)[|FrameBytes(f)|..] == rest;
      SplitAsIntended(fs[1..]);
    }
  }

  function FramePieces(fs: seq<Frame>): seq<Msg>
    requires forall f <- fs :: Sendable(f)
  {
    if fs == [] then []
    else
      assert Sendable(fs[0]);
      [FrameBytes(fs[0])] + FramePieces(fs[1..])
  }

  /** So on a read of whole frames the splitter does what is intended exactly when there is at
      most one: it keeps everything after the first frame inside the first piece. */
  lemma SplitDiffers(fs: seq<Frame>)
    requires forall f <- fs :: Sendable(f)
    ensures Split(AllRemaining, Stream(fs)) == FramePieces(fs) <==> |fs| <= 1
    ensures |Split(AllRemaining, Stream(fs))| <= 1
  {
    SplitAsWritten(Stream(fs));
    FramePiecesLength(fs);
    if fs != [] {
      assert Sendable(fs[0]);
      ParseFirst(fs[0], Stream(fs[1..]), []);
      hide FrameBytes;
      if |fs| == 1 {
        assert FrameBytes(fs[0]) + [] == FrameBytes(fs[0]);
      }
    }
  }

  lemma {:induction false} FramePiecesLength(fs: seq<Frame>)
    requires forall f <- fs :: Sendable(f)
    ensures |FramePieces(fs)| == |fs|
  {
    if fs != [] {
      FramePiecesLength(fs[1..]);
    }
  }

  // ---------------------------------------------------------------- the chain from the car

  function OutputSplitterStage(c: Ctx, m: Msg): (Ctx, Option<seq<Option<Msg>>>) {
    (c, if ValidBuffer(m) then Some(Somes(Split(AllRemaining, m))) else None)
  }

  /** outputChainInputTransformer: decode, then encode again. */
  function InputTransformerStage(c: Ctx, m: Msg): (Ctx, Transformed) {
    var parsed := ParsedMessage(m, c.memory.received);
    (c, if parsed.None? then Nothing else Fresh(EncodedBytes(parsed.value, c.memory.payload)))
  }

  /** A phevMessage_t nobody has filled in. */
  function Unfilled(junk: seq<byte>): PhevMessage {
    PhevMessage(Unspecified(junk, 0), 0, Unspecified(junk, 1), Unspecified(junk, 2), [], 0)
  }

  /** What decodeMessage leaves in an unfilled structure. */
  function Decoded(m: Msg, junk: seq<byte>): PhevMessage {
    var parsed := ParsedMessage(m, junk);
    if parsed.Some? then parsed.value else Unfilled(junk)
  }

  /** responder: acknowledge requests; a ping response moves the ping counter on. */
  function ResponderStage(c: Ctx, m: Msg): (Ctx, Option<Msg>) {
    var p := Decoded(m, c.memory.encoded);
    if p.typ == REQUEST_TYPE then
      (c, Some(EncodedBytes(ResponseHandler(p), c.memory.payload)))
    else if p.command == PING_RESP_CMD then
      (c.(currentPing := (At(m, 3, c.memory.encoded) + 1) % 100, successfulPing := true), None)
    else
      (c, None)
  }

  /** outputChainOutputTransformer: only a 0x6f request is reported inbound. */
  function OutputTransformerStage(fx: Foreign, c: Ctx, m: Msg): (Ctx, Option<Msg>) {
    var p := Decoded(m, c.memory.encoded);
    (c, if p.typ == RESPONSE_TYPE || p.command != RESP_CMD then None else Some(fx.responseText(p)))
  }

  function OutChain(fx: Foreign): Chain<Ctx> {
    Chain(
      Some((c: Ctx, m: Msg) => OutputSplitterStage(c, m)),
      Some((c: Ctx, m: Msg) => InputTransformerStage(c, m)),
      None,
      Some((c: Ctx, m: Msg) => ResponderStage(c, m)),
      Some((c: Ctx, m: Msg) => OutputTransformerStage(fx, c, m)),
      None,
      false)
  }

  // ---------------------------------------------------------------- acknowledgements

  /** The acknowledgement of a frame: nibble-swapped command, response type, same register. */
  function Ack(command: byte, reg: byte): Frame {
    Frame(SwapNibbles(command), RESPONSE_TYPE, reg, [0])
  }

  /** What the chain is meant to publish back for a piece: the acknowledgement of a request
      whose header has been received, and nothing otherwise. */
  function ExpectedAcks(m: Msg): seq<Msg> {
    if 4 <= |m| && m[2] == REQUEST_TYPE then [FrameBytes(Ack(m[0], m[3]))] else []
  }

  /** What it does publish. */
  function Acks(fx: Foreign, c: Ctx, m: Msg): seq<Msg> {
    TransformOne(OutChain(fx), c, m, true).responses
  }

  /** A piece decoded and encoded again. */
  function Again(m: Msg, memory: Memory): Msg
    requires ValidBuffer(m)
  {
    EncodedBytes(ParsedMessage(m, memory.received).value, memory.payload)
  }

  /** Type and register that are read back from it. Re-encoding grows a frame by three
      unspecified bytes but keeps its header as long as the length byte does not wrap, or wraps
      to exactly 2; wrapping to 0 or 1 cuts the header short. */
  function Reread(m: Msg, memory: Memory): (byte, byte)
    requires ValidBuffer(m)
  {
    if |m| < 4 then (At(m, 2, memory.received), At(m, 3, memory.received))
    else if m[1] == 253 then (Unspecified(memory.encoded, 0), Unspecified(memory.encoded, 1))
    else if m[1] == 254 then (m[2], Unspecified(memory.encoded, 0))
    else (m[2], m[3])
  }

  /** The header survives when it was there and the length byte allows. */
  lemma ReencodedHeader(m: Msg, memory: Memory)
    requires ValidBuffer(m)
    ensures var again := Again(m, memory);
            var parsed := ParsedMessage(again, memory.encoded);
            && parsed.Some? && parsed.value.command == m[0]
            && (parsed.value.typ, parsed.value.reg) == Reread(m, memory)
            && At(again, 3, memory.encoded) == parsed.value.reg
    ensures 4 <= |m| && (m[1] <= 252 || m[1] == 255) ==> Reread(m, memory) == (m[2], m[3])
  {
    var p := ParsedMessage(m, memory.received).value;
    assert p.command == m[0] && p.length == m[1];
    if m[1] <= MAX_PAYLOAD {
      var f := Frame(p.command, p.typ, p.reg, CopiedPayload(p, memory.payload));
      assert Again(m, memory) == FrameBytes(f);
      ParseFirst(f, [], memory.encoded);
      assert FrameBytes(f) + [] == FrameBytes(f) && FrameBytes(f)[3] == f.reg;
    } else {
      ShortHeader(m, memory);
    }
  }

  lemma ShortHeader(m: Msg, memory: Memory)
    requires ValidBuffer(m) && m[1] > 252
    ensures Again(m, memory)
            == if m[1] == 253 then [m[0], 0] else if m[1] == 254 then [m[0], 1, m[2]] else [m[0], 2, m[2], m[3]]
  {
    hide FrameBytes;
  }

  lemma AckBytes(p: PhevMessage, junk: seq<byte>)
    ensures EncodedBytes(ResponseHandler(p), junk) == FrameBytes(Ack(p.command, p.reg))
  {
    CreatedFrame(Ack(p.command, p.reg), 0, junk);
  }

  /** The context after a piece whose header is read back like this. */
  function Moved(c: Ctx, command: byte, typ: byte, reg: byte): Ctx {
    if typ != REQUEST_TYPE && command == PING_RESP_CMD then
      c.(currentPing := (reg + 1) % 100, successfulPing := true)
    else c
  }

  /** What is reported inbound: a 0x6f frame that is no response. */
  function Reports(fx: Foreign, m: Msg, memory: Memory): seq<Msg>
    requires ValidBuffer(m)
  {
    if Reread(m, memory).0 == RESPONSE_TYPE || m[0] != RESP_CMD then []
    else [fx.responseText(Decoded(Again(m, memory), memory.encoded))]
  }

  /** What the stages do with a piece is determined by its command and what is read back. */
  lemma PieceOutcome(fx: Foreign, c: Ctx, m: Msg)
    requires ValidBuffer(m)
    ensures var e := TransformOne(OutChain(fx), c, m, true);
            var (typ, reg) := Reread(m, c.memory);
            && e.state == Moved(c, m[0], typ, reg)
            && e.responses == (if typ == REQUEST_TYPE then [FrameBytes(Ack(m[0], reg))] else [])
            && e.outs == Reports(fx, m, c.memory)
  {
    hide EncodedBytes, FrameBytes, ResponseHandler, Reread, At;
    ReencodedHeader(m, c.memory);
    AckBytes(ParsedMessage(Again(m, c.memory), c.memory.encoded).value, c.memory.payload);
  }

  /** One acknowledgement for a request, none for anything else, whatever the
      unspecified bytes are. */
  lemma Acknowledged(fx: Foreign, c: Ctx, m: Msg)
    requires ValidBuffer(m) && 4 <= |m| && (m[1] <= 252 || m[1] == 255)
    ensures Acks(fx, c, m) == ExpectedAcks(m)
  {
    PieceOutcome(fx, c, m);
    hide TransformOne, FrameBytes;
  }

  /** An acknowledgement is itself a valid frame, with a correct checksum. */
  lemma AckIsValid(command: byte, reg: byte, junk: seq<byte>)
    requires Allowed(command)
    ensures Walk(FrameBytes(Ack(command, reg)), junk) == [Ack(command, reg)]
    ensures ChecksumHolds(FrameBytes(Ack(command, reg)))
  {
    AllowedSwap(command);
    FramingRoundTrip([Ack(command, reg)], junk);
    assert Stream([Ack(command, reg)]) == FrameBytes(Ack(command, reg));
    FrameChecksum(Ack(command, reg));
  }

  function Filled(c: Ctx, memory: Memory): Ctx {
    c.(memory := memory)
  }

  /** Whether the bytes received determine the answer: the header is there, at least up to
      a type that asks for no answer, and re-encoding does not cut the header short. */
  predicate Determined(m: Msg)
    requires ValidBuffer(m)
  {
    if 4 <= |m| then m[1] <= 252 || m[1] == 255 || (m[1] == 254 && m[2] != REQUEST_TYPE)
    else |m| == 3 && m[2] != REQUEST_TYPE
  }

  /** Memory in which a missing type and a missing register read like this. */
  function Reading(typ: byte, reg: byte): Memory {
    var bytes := [typ, reg];
    Memory(bytes, [], bytes, State(0, FALSE, FALSE, FALSE))
  }

  lemma AcksAre(fx: Foreign, c: Ctx, m: Msg, memory: Memory)
    requires ValidBuffer(m)
    ensures var (typ, reg) := Reread(m, memory);
            Acks(fx, Filled(c, memory), m) == if typ == REQUEST_TYPE then [FrameBytes(Ack(m[0], reg))] else []
  {
    PieceOutcome(fx, Filled(c, memory), m);
    hide TransformOne, FrameBytes, Reread;
  }

  /** Exactly when that promise survives any content of unwritten memory. */
  lemma AckExactly(fx: Foreign, c: Ctx, m: Msg)
    requires ValidBuffer(m)
    ensures (forall memory: Memory :: Acks(fx, Filled(c, memory), m) == ExpectedAcks(m)) <==> Determined(m)
  {
    hide Acks, FrameBytes;
    if Determined(m) {
      forall memory: Memory
        ensures Acks(fx, Filled(c, memory), m) == ExpectedAcks(m)
      {
        AcksAre(fx, c, m, memory);
      }
    } else {
      AckUndetermined(fx, c, m);
    }
  }

  lemma AckUndetermined(fx: Foreign, c: Ctx, m: Msg)
    requires ValidBuffer(m) && !Determined(m)
    ensures exists memory: Memory :: Acks(fx, Filled(c, memory), m) != ExpectedAcks(m)
  {
    hide Acks, FrameBytes;
    if |m| < 4 || m[1] == 253 {
      var memory := Reading(if 4 <= |m| && m[2] == REQUEST_TYPE then RESPONSE_TYPE else REQUEST_TYPE, 0);
      AcksAre(fx, c, m, memory);
      assert |Acks(fx, Filled(c, memory), m)| != |ExpectedAcks(m)|;
      assert Acks(fx, Filled(c, memory), m) != ExpectedAcks(m);
    } else {
      var wrong: byte := (m[3] as int + 1) % 256;
      var memory := Reading(wrong, 0);
      AcksAre(fx, c, m, memory);
      AckRegister(m[0], wrong);
      AckRegister(m[0], m[3]);
      assert Acks(fx, Filled(c, memory), m)[0][3] != ExpectedAcks(m)[0][3];
      assert Acks(fx, Filled(c, memory), m) != ExpectedAcks(m);
    }
  }

  lemma AckRegister(command: byte, reg: byte)
    ensures FrameBytes(Ack(command, reg))[3] == reg
  {
  }

  // ---------------------------------------------------------------- a whole read

  /** The ping number a read seems to answer: its bytes start like an answer. */
  function EchoOf(m: Msg): seq<byte> {
    if ValidBuffer(m) && 4 <= |m| && m[0] == PING_RESP_CMD && m[2] != REQUEST_TYPE then [m[3]] else []
  }

  /** The context once that number has been counted. */
  function Counted(c: Ctx, m: Msg): Ctx {
    if EchoOf(m) == [] then c
    else c.(currentPing := (EchoOf(m)[0] as int + 1) % 100, successfulPing := true)
  }

  /** Whether the bytes received determine how the counter moves: they do unless they start like
      a ping answer whose header is missing or gets lost on the way. */
  predicate Legible(m: Msg) {
    || !ValidBuffer(m)
    || m[0] != PING_RESP_CMD
    || if 4 <= |m| then m[1] <= 252 || m[1] == 255 || (m[1] == 254 && m[2] == REQUEST_TYPE)
       else |m| == 3 && m[2] == REQUEST_TYPE
  }

  /** Any read through the chain: the responses are none, or one acknowledgement. */
  lemma OutChainRead(fx: Foreign, c: Ctx, m: Msg)
    ensures var o := Transformation(OutChain(fx), c, m);
            if !ValidBuffer(m) then o.state == c && o.responses == [] && o.result.None?
            else
              var (typ, reg) := Reread(m, c.memory);
              && o.state == Moved(c, m[0], typ, reg)
              && o.responses == (if typ == REQUEST_TYPE then [FrameBytes(Ack(m[0], reg))] else [])
              && (typ == RESPONSE_TYPE ==> o.result.None?)
              && var reports := Reports(fx, m, c.memory);
              && (reports == [] ==> o.result.None?)
              && (reports != [] && reports[0] != [] ==> o.result == Some(reports[0]))
  {
    hide FrameBytes, Reread, Moved, EncodedBytes, ParsedMessage;
    if ValidBuffer(m) {
      PieceOutcome(fx, c, m);
      var e := OutChainElement(fx, c, m);
      hide Transformation, TransformOne;
    }
  }

  lemma LegibleRead(fx: Foreign, c: Ctx, m: Msg)
    requires Legible(m)
    ensures var o := Transformation(OutChain(fx), c, m);
            && o.state == Counted(c, m)
            && (o.responses == []
                || (ValidBuffer(m) && exists reg: byte :: o.responses == [FrameBytes(Ack(m[0], reg))]))
  {
    hide Transformation, FrameBytes, OutChain;
    OutChainRead(fx, c, m);
  }

  /** Exactly when a read moves the counter as its first bytes say, whatever unwritten memory
      holds. Reads may start and end anywhere. */
  lemma CountExactly(fx: Foreign, c: Ctx, m: Msg)
    ensures (forall memory: Memory ::
               Transformation(OutChain(fx), Filled(c, memory), m).state == Counted(Filled(c, memory), m))
            <==> Legible(m)
  {
    hide Transformation, FrameBytes, OutChain;
    if Legible(m) {
      forall memory: Memory
        ensures Transformation(OutChain(fx), Filled(c, memory), m).state == Counted(Filled(c, memory), m)
      {
        LegibleRead(fx, Filled(c, memory), m);
      }
    } else {
      CountUndetermined(fx, c, m);
    }
  }

  lemma CountUndetermined(fx: Foreign, c: Ctx, m: Msg)
    requires !Legible(m)
    ensures exists memory: Memory ::
              Transformation(OutChain(fx), Filled(c, memory), m).state != Counted(Filled(c, memory), m)
  {
    hide Transformation, FrameBytes, OutChain;
    var expected := Counted(c, m).currentPing;
    var reg: byte := if expected == 1 then 1 else 0;
    var memory := if |m| == 3 || (4 <= |m| && m[1] == 254) then Reading(reg, 0) else Reading(RESPONSE_TYPE, reg);
    OutChainRead(fx, Filled(c, memory), m);
    assert Reread(m, memory).0 != REQUEST_TYPE && Reread(m, memory).1 == reg;
    hide Reread;
    assert Transformation(OutChain(fx), Filled(c, memory), m).state.currentPing == reg + 1;
    assert Counted(Filled(c, memory), m).currentPing == expected;
    assert Transformation(OutChain(fx), Filled(c, memory), m).state != Counted(Filled(c, memory), m);
  }

  predicate IsEcho(f: Frame) {
    f.command == PING_RESP_CMD && f.typ != REQUEST_TYPE
  }

  /** The context after the first frame of a read has been handled. */
  function Answered(c: Ctx, f: Frame): Ctx {
    if IsEcho(f) then c.(currentPing := (f.reg + 1) % 100, successfulPing := true) else c
  }

  /** A received frame that re-encoding does not cut short. */
  predicate Receivable(f: Frame) {
    Allowed(f.command) && |f.payload| <= 249
  }

  /** A read that starts with a frame of the car and goes on in any way. */
  lemma FrameThenTail(f: Frame, tail: seq<byte>)
    requires Receivable(f)
    ensures var m := FrameBytes(f) + tail;
            && ValidBuffer(m) && 4 <= |m| && m[1] <= 252 && Legible(m)
            && m[0] == f.command && m[2] == f.typ && m[3] == f.reg
            && EchoOf(m) == if IsEcho(f) then [f.reg] else []
  {
    var m := FrameBytes(f) + tail;
    ParseFirst(f, tail, []);
    assert m[1] == |f.payload| + 3 && m[3] == f.reg && m[2] == f.typ && m[0] == f.command;
  }

  /** One read of a whole frame and any tail through the chain: the first frame alone is
      acknowledged or counted as a ping answer; what is behind it is ignored. */
  lemma OutChainOutcome(fx: Foreign, c: Ctx, f: Frame, tail: seq<byte>)
    requires Receivable(f)
    ensures var o := Transformation(OutChain(fx), c, FrameBytes(f) + tail);
            && o.state == Answered(c, f)
            && o.responses == (if f.typ == REQUEST_TYPE then [FrameBytes(Ack(f.command, f.reg))] else [])
            && (f.typ == RESPONSE_TYPE ==> o.result.None?)
  {
    hide Transformation, FrameBytes, OutChain;
    FrameThenTail(f, tail);
    OutChainRead(fx, c, FrameBytes(f) + tail);
  }

  /** A read, valid at its start, is one element of the fold. */
  lemma OutChainElement(fx: Foreign, c: Ctx, m: Msg) returns (e: Effect<Ctx>)
    requires ValidBuffer(m)
    ensures e == TransformOne(OutChain(fx), c, m, true)
    ensures var o := Transformation(OutChain(fx), c, m);
            && o.state == e.state && o.responses == e.responses
            && (e.outs == [] ==> o.result.None?)
            && (e.outs != [] && e.outs[0] != [] ==> o.result == Some(e.outs[0]))
            && (o.crashed <==> e.outs != [] && Flatten(e.outs) == [])
  {
    SplitAsWritten(m);
    LeadingAll(Somes([m]), [m]);
    e := OneElement(OutChain(fx), c, m);
    assert e.outs != [] ==> e.outs == [e.outs[0]] && Flatten(e.outs) == e.outs[0] + Flatten([]) == e.outs[0];
    hide TransformOne, TransformAll, ValidBuffer;
  }

  /** The chain never ends up with an empty aggregate, provided the JSON printer never
      prints an empty text. */
  lemma OutChainClean(fx: Foreign, c: Ctx, m: Msg)
    requires forall p :: fx.responseText(p) != []
    ensures !Transformation(OutChain(fx), c, m).crashed
  {
    hide FrameBytes, ParsedMessage, EncodedBytes;
    if ValidBuffer(m) {
      var e := OutChainElement(fx, c, m);
      PieceOutcome(fx, c, m);
      hide Transformation, TransformOne;
      if e.outs != [] {
        FlattenOne(e.outs[0]);
        assert e.outs == [e.outs[0]];
      }
    }
  }

  /** Folding a chain over a single message is transforming that message. */
  lemma OneElement(chain: Chain<Ctx>, c: Ctx, m: Msg) returns (e: Effect<Ctx>)
    ensures e == TransformOne(chain, c, m, true) == TransformAll(chain, c, [m], true)
  {
    e := TransformOne(chain, c, m, true);
    TransformAllStep(chain, c, [m], true);
    assert e.responses + [] == e.responses && e.outs + [] == e.outs;
  }

  // ---------------------------------------------------------------- configuration commands

  function SwitchFrame(reg: byte, value: byte): Frame {
    Frame(SEND_CMD, REQUEST_TYPE, reg, [value])
  }

  const NO_MAC: seq<byte> := [0, 0, 0, 0, 0, 0]

  /** The commands a state stands for, in the order they are sent. */
  function CarCommands(s: State): (fs: seq<Frame>)
    ensures forall f <- fs :: Sendable(f)
  {
    (if s.connectedClients > 0 then
       [Frame(START_SEND, REQUEST_TYPE, 1, [2] + NO_MAC), SwitchFrame(0xaa, 0)]
     else [])
    + [SwitchFrame(KO_WF_H_LAMP_CONT_SP, if s.headLightsOn == TRUE then 1 else 2),
       SwitchFrame(KO_WF_P_LAMP_CONT_SP, if s.parkLightsOn == TRUE then 1 else 2),
       SwitchFrame(KO_WF_MANUAL_AC_ON_RQ_SP, if s.airConOn == TRUE then 2 else 1)]
  }

  /** The bundle they travel in: the two frames of a start share one message. */
  function CommandBundle(s: State): seq<Msg> {
    (if s.connectedClients > 0 then [StartMessageEncoded(2, NO_MAC)] else [])
    + [FrameBytes(SwitchFrame(KO_WF_H_LAMP_CONT_SP, if s.headLightsOn == TRUE then 1 else 2)),
       FrameBytes(SwitchFrame(KO_WF_P_LAMP_CONT_SP, if s.parkLightsOn == TRUE then 1 else 2)),
       FrameBytes(SwitchFrame(KO_WF_MANUAL_AC_ON_RQ_SP, if s.airConOn == TRUE then 2 else 1))]
  }

  /** turnHeadLightsOn and its siblings. */
  method Turn(reg: byte, value: byte) returns (message: Msg)
    ensures message == FrameBytes(SwitchFrame(reg, value))
  {
    message := ConvertToMessage(SimpleRequestCommandMessage(reg, value), []);
    CreatedFrame(SwitchFrame(reg, value), 0, []);
  }

  method ConfigToMessageBundle(s: State) returns (messages: seq<Msg>)
    ensures messages == CommandBundle(s)
  {
    hide FrameBytes, EncodedBytes;
    messages := [];
    if CheckForConnection(s) {
      messages := messages + [StartMessageEncoded(2, NO_MAC)];
    }
    if CheckForHeadLightsOn(s) {
      var m := Turn(KO_WF_H_LAMP_CONT_SP, 1);
      messages := messages + [m];
    }
    if CheckForHeadLightsOff(s) {
      var m := Turn(KO_WF_H_LAMP_CONT_SP, 2);
      messages := messages + [m];
    }
    if CheckForParkLightsOn(s) {
      var m := Turn(KO_WF_P_LAMP_CONT_SP, 1);
      messages := messages + [m];
    }
    if CheckForParkLightsOff(s) {
      var m := Turn(KO_WF_P_LAMP_CONT_SP, 2);
      messages := messages + [m];
    }
    if CheckForAirConOn(s) {
      var m := Turn(KO_WF_MANUAL_AC_ON_RQ_SP, 2);
      messages := messages + [m];
    }
    if CheckForAirConOff(s) {
      var m := Turn(KO_WF_MANUAL_AC_ON_RQ_SP, 1);
      messages := messages + [m];
    }
  }

  /** The stored configuration once a new one is merged in. */
  function Merged(fx: Foreign, c: Ctx, m: Msg): Config {
    SetConfig(c.config, ParseConfig(fx.document(m), c.memory.state))
  }

  /** configSplitter: merge the configuration, then either start an update or send commands. */
  function ConfigSplitterStage(fx: Foreign, c: Ctx, m: Msg): (Ctx, Option<seq<Option<Msg>>>) {
    var merged := Merged(fx, c, m);
    var c1 := c.(config := Some(merged));
    if CheckForFirmwareUpdate(merged.update) then (c1.(otaUpdating := true), None)
    else (c1, Some(Somes(CommandBundle(merged.state))))
  }

  /** phev_response_incomingHandler: report the stored state. */
  function StateReportStage(fx: Foreign, c: Ctx, m: Msg): (Ctx, Option<Msg>) {
    (c, if c.config.Some? then Some(fx.stateText(c.config.value.state)) else None)
  }

  function InChain(fx: Foreign): Chain<Ctx> {
    Chain(
      Some((c: Ctx, m: Msg) => ConfigSplitterStage(fx, c, m)),
      None,
      None,
      Some((c: Ctx, m: Msg) => StateReportStage(fx, c, m)),
      None,
      None,
      true)
  }

  lemma StartBytes()
    ensures StartMessageEncoded(2, NO_MAC)
            == Stream([Frame(START_SEND, REQUEST_TYPE, 1, [2] + NO_MAC), SwitchFrame(0xaa, 0)])
  {
    var start, aa := Frame(START_SEND, REQUEST_TYPE, 1, [2] + NO_MAC), SwitchFrame(0xaa, 0);
    CreatedFrame(start, 0, []);
    CreatedFrame(aa, 0, []);
    TwoFrames(start, aa);
  }

  lemma CommandBytes(s: State)
    ensures Flatten(CommandBundle(s)) == Stream(CarCommands(s))
    ensures |Stream(CarCommands(s))| == if s.connectedClients > 0 then 36 else 18
  {
    hide FrameBytes, EncodedBytes, StartMessageEncoded, Stream, Flatten;
    var head := SwitchFrame(KO_WF_H_LAMP_CONT_SP, if s.headLightsOn == TRUE then 1 else 2);
    var park := SwitchFrame(KO_WF_P_LAMP_CONT_SP, if s.parkLightsOn == TRUE then 1 else 2);
    var air := SwitchFrame(KO_WF_MANUAL_AC_ON_RQ_SP, if s.airConOn == TRUE then 2 else 1);
    ThreeFrames(head, park, air);
    var switches := [FrameBytes(head), FrameBytes(park), FrameBytes(air)];
    if s.connectedClients > 0 {
      var start, aa := Frame(START_SEND, REQUEST_TYPE, 1, [2] + NO_MAC), SwitchFrame(0xaa, 0);
      StartBytes();
      TwoFrames(start, aa);
      StreamAppend([start, aa], [head, park, air]);
      assert CarCommands(s) == [start, aa] + [head, park, air];
      FlattenAppend([StartMessageEncoded(2, NO_MAC)], switches);
      FlattenOne(StartMessageEncoded(2, NO_MAC));
      assert CommandBundle(s) == [StartMessageEncoded(2, NO_MAC)] + switches;
    } else {
      assert CarCommands(s) == [head, park, air];
      assert CommandBundle(s) == switches;
    }
  }

  lemma FlattenOne(part: seq<byte>)
    ensures Flatten([part]) == part
  {
    assert [part][1..] == [];
  }

  lemma TwoFrames(a: Frame, b: Frame)
    requires Sendable(a) && Sendable(b)
    ensures Stream([a, b]) == FrameBytes(a) + FrameBytes(b)
  {
    hide FrameBytes;
    assert [a, b][1..] == [b] && [b][1..] == [];
    assert Stream([b]) == FrameBytes(b);
  }

  lemma ThreeFrames(a: Frame, b: Frame, c: Frame)
    requires Sendable(a) && Sendable(b) && Sendable(c)
    ensures Stream([a, b, c]) == Flatten([FrameBytes(a), FrameBytes(b), FrameBytes(c)])
    ensures |Stream([a, b, c])| == |FrameBytes(a)| + |FrameBytes(b)| + |FrameBytes(c)|
  {
    hide FrameBytes;
    TwoFrames(b, c);
    assert [a, b, c][1..] == [b, c];
    var bytes := [FrameBytes(a), FrameBytes(b), FrameBytes(c)];
    assert bytes[1..] == [FrameBytes(b), FrameBytes(c)] && bytes[1..][1..] == [FrameBytes(c)];
    assert Flatten([FrameBytes(c)]) == FrameBytes(c);
    assert Flatten(bytes[1..]) == FrameBytes(b) + FrameBytes(c);
  }

  /** What a reader of the command stream learns from it. */
  datatype Readback = Readback(connected: bool, headLights: bool, parkLights: bool, airCon: bool)

  predicate Carries(fs: seq<Frame>, reg: byte, value: byte) {
    exists i | 0 <= i < |fs| :: fs[i].command == SEND_CMD && fs[i].reg == reg && fs[i].payload == [value]
  }

  function ReadCommands(fs: seq<Frame>): Readback {
    Readback(
      exists i | 0 <= i < |fs| :: fs[i].command == START_SEND,
      Carries(fs, KO_WF_H_LAMP_CONT_SP, 1),
      Carries(fs, KO_WF_P_LAMP_CONT_SP, 1),
      Carries(fs, KO_WF_MANUAL_AC_ON_RQ_SP, 2))
  }

  /** A register written once carries exactly the value written. */
  lemma SwitchRead(fs: seq<Frame>, k: nat, value: byte)
    requires k < |fs| && fs[k].command == SEND_CMD && fs[k].payload == [value]
    requires forall i | 0 <= i < |fs| && i != k :: fs[i].command != SEND_CMD || fs[i].reg != fs[k].reg
    ensures forall v: byte :: Carries(fs, fs[k].reg, v) <==> v == value
  {
    forall v: byte
      ensures Carries(fs, fs[k].reg, v) <==> v == value
    {
      if Carries(fs, fs[k].reg, v) {
        var i :| 0 <= i < |fs| && fs[i].command == SEND_CMD && fs[i].reg == fs[k].reg && fs[i].payload == [v];
        assert fs[i].payload[0] == v;
      }
    }
  }

  lemma CommandsReadBack(s: State)
    ensures ReadCommands(CarCommands(s))
            == Readback(s.connectedClients > 0, s.headLightsOn == TRUE, s.parkLightsOn == TRUE, s.airConOn == TRUE)
    ensures Carries(CarCommands(s), KO_WF_H_LAMP_CONT_SP, 1) != Carries(CarCommands(s), KO_WF_H_LAMP_CONT_SP, 2)
    ensures Carries(CarCommands(s), KO_WF_P_LAMP_CONT_SP, 1) != Carries(CarCommands(s), KO_WF_P_LAMP_CONT_SP, 2)
    ensures Carries(CarCommands(s), KO_WF_MANUAL_AC_ON_RQ_SP, 1)
            != Carries(CarCommands(s), KO_WF_MANUAL_AC_ON_RQ_SP, 2)
  {
    var fs := CarCommands(s);
    var n := |fs|;
    assert fs[n - 3].reg == KO_WF_H_LAMP_CONT_SP && fs[n - 2].reg == KO_WF_P_LAMP_CONT_SP;
    assert fs[n - 1].reg == KO_WF_MANUAL_AC_ON_RQ_SP;
    assert fs[n - 3].payload[0] == (if s.headLightsOn == TRUE then 1 else 2);
    assert fs[n - 2].payload[0] == (if s.parkLightsOn == TRUE then 1 else 2);
    assert fs[n - 1].payload[0] == (if s.airConOn == TRUE then 2 else 1);
    if s.connectedClients > 0 {
      assert fs[0].command == START_SEND;
    } else {
      assert forall i | 0 <= i < |fs| :: fs[i].command == SEND_CMD;
    }
    assert forall i | 0 <= i < n - 3 :: fs[i].command == START_SEND || fs[i].reg == 0xaa;
    SwitchRead(fs, n - 3, if s.headLightsOn == TRUE then 1 else 2);
    SwitchRead(fs, n - 2, if s.parkLightsOn == TRUE then 1 else 2);
    SwitchRead(fs, n - 1, if s.airConOn == TRUE then 2 else 1);
  }

  /** With no transformer between splitter and aggregator the pieces come out as they
      went in, and the context is left alone. */
  lemma {:induction false} InChainCopies(fx: Foreign, c: Ctx, ms: seq<Msg>, respond: bool)
    ensures var e := TransformAll(InChain(fx), c, ms, respond);
            && e.state == c && e.outs == ms
            && e.responses == if respond && ms != [] then Listed(StateReportStage(fx, c, ms[0]).1) else []
  {
    if ms != [] {
      InChainCopies(fx, c, ms[1..], false);
      TransformAllStep(InChain(fx), c, ms, respond);
      assert ms == [ms[0]] + ms[1..];
    }
  }

  lemma BundleThroughChain(fx: Foreign, c: Ctx, m: Msg, bundle: seq<Msg>, c1: Ctx)
    requires ConfigSplitterStage(fx, c, m) == (c1, Some(Somes(bundle))) && |bundle| > 0 && Flatten(bundle) != []
    requires c1.config.Some?
    ensures Transformation(InChain(fx), c, m)
            == Outcome(c1, [fx.stateText(c1.config.value.state)], Some(Flatten(bundle)), false)
  {
    hide ConfigSplitterStage, Flatten, TransformAll;
    LeadingAll(Somes(bundle), bundle);
    hide Leading;
    InChainCopies(fx, c1, bundle, true);
  }

  /** A configuration through its chain, end to end. */
  lemma InChainOutcome(fx: Foreign, c: Ctx, m: Msg)
    ensures var merged := Merged(fx, c, m);
            var o := Transformation(InChain(fx), c, m);
            && !o.crashed && o.state.config == Some(merged)
            && o.state == c.(config := Some(merged), otaUpdating := o.state.otaUpdating)
            && if CheckForFirmwareUpdate(merged.update) then
                 o.result.None? && o.responses == [] && o.state.otaUpdating
               else
                 && o.result == Some(Stream(CarCommands(merged.state)))
                 && o.responses == [fx.stateText(merged.state)]
                 && o.state.otaUpdating == c.otaUpdating
  {
    hide SetConfig, ParseConfig, CommandBundle, CarCommands, Stream, Flatten, TransformAll, Leading;
    var merged := Merged(fx, c, m);
    CommandBytes(merged.state);
    if !CheckForFirmwareUpdate(merged.update) {
      BundleSize(merged.state);
      BundleThroughChain(fx, c, m, CommandBundle(merged.state), c.(config := Some(merged)));
    }
  }

  lemma BundleSize(s: State)
    ensures |CommandBundle(s)| >= 3
  {
    hide FrameBytes, StartMessageEncoded;
  }

  /** Configuration to wire and back: walking the published bytes recovers exactly whether
      a client is connected and the three switches. */
  lemma ConfigToWire(fx: Foreign, c: Ctx, m: Msg, junk: seq<byte>)
    ensures var merged := Merged(fx, c, m);
            var result := Transformation(InChain(fx), c, m).result;
            !CheckForFirmwareUpdate(merged.update) ==>
              && result.Some?
              && Unread(result.value, junk) == []
              && ReadCommands(Walk(result.value, junk))
                 == Readback(merged.state.connectedClients > 0, merged.state.headLightsOn == TRUE,
                             merged.state.parkLightsOn == TRUE, merged.state.airConOn == TRUE)
              && |Walk(result.value, junk)| == (if merged.state.connectedClients > 0 then 5 else 3)
              && |result.value| == (if merged.state.connectedClients > 0 then 36 else 18)
  {
    hide Transformation, SetConfig, Walk, Stream, ReadCommands, Unread;
    var s := Merged(fx, c, m).state;
    InChainOutcome(fx, c, m);
    CommandBytes(s);
    FramingRoundTrip(CarCommands(s), junk);
    CommandsReadBack(s);
  }
}
