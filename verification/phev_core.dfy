/** The byte-framed protocol spoken with the car (components/phev_core/src/phev_core.c). */
module PhevCore {
  import opened Bytes

  const REQUEST_TYPE: byte := 0
  const RESPONSE_TYPE: byte := 1
  const PING_SEND_CMD: byte := 0xf9
  const PING_RESP_CMD: byte := 0x9f
  const START_SEND: byte := 0xf2
  const SEND_CMD: byte := 0xf6
  const RESP_CMD: byte := 0x6f
  const ALLOWED_COMMANDS: seq<byte> := [0xf2, 0x2f, 0xf6, 0x6f, 0xf9, 0x9f]

  // ---------------------------------------------------------------- protocol view

  /** What one frame says, without any of its representation. */
  datatype Frame = Frame(command: byte, typ: byte, reg: byte, payload: seq<byte>)

  const MAX_PAYLOAD := 252

  predicate Allowed(command: byte) {
    command in ALLOWED_COMMANDS
  }

  predicate Sendable(f: Frame) {
    Allowed(f.command) && |f.payload| <= MAX_PAYLOAD
  }

  /** The wire form: command, length, type, register, payload, sum of all of these. */
  function FrameBytes(f: Frame): (s: seq<byte>)
    requires |f.payload| <= MAX_PAYLOAD
    ensures |s| == |f.payload| + 5
  {
    var body := [f.command, |f.payload| + 3, f.typ, f.reg] + f.payload;
    body + [Truncate(Total(body))]
  }

  function Stream(fs: seq<Frame>): seq<byte>
    requires forall f <- fs :: Sendable(f)
  {
    if fs == [] then []
    else
      assert Sendable(fs[0]);
      FrameBytes(fs[0]) + Stream(fs[1..])
  }

  /** A received frame is intact when the byte after its body is the sum of its body. */
  predicate ChecksumHolds(s: seq<byte>) {
    && 2 <= |s|
    && s[1] + 2 <= |s|
    && s[s[1] + 1] == Truncate(Total(s[..s[1] + 1]))
  }

  // ---------------------------------------------------------------- the C structures

  /** phevMessage_t. `data` holds the bytes the pointer owns ([] for NULL); `length`
      is the payload length in a message built by CreateMessage, and the wire
      length (payload + 3) in a message filled in by DecodeMessage. */
  datatype PhevMessage = PhevMessage(
    command: byte, length: byte, typ: byte, reg: byte, data: seq<byte>, checksum: byte)

  function FrameOf(m: PhevMessage): Frame {
    Frame(m.command, m.typ, m.reg, m.data)
  }

  /** The `length` bytes the encoder copies from `data`: reads past what the pointer
      owns, and a NULL pointer, leave unspecified bytes. */
  function CopiedPayload(m: PhevMessage, junk: seq<byte>): (p: seq<byte>)
    ensures |p| == m.length
  {
    seq(m.length, k requires 0 <= k < m.length => At(m.data, k, junk))
  }

  /** The bytes encodeMessage hands out: a whole frame while the length byte does not
      wrap, otherwise only the first 2 to 4 bytes of the header. */
  function EncodedBytes(m: PhevMessage, junk: seq<byte>): seq<byte> {
    if m.length <= MAX_PAYLOAD then
      FrameBytes(Frame(m.command, m.typ, m.reg, CopiedPayload(m, junk)))
    else
      [m.command, Truncate(m.length + 3), m.typ, m.reg][..m.length - 251]
  }

  predicate ValidBuffer(data: seq<byte>) {
    2 <= |data| && Allowed(data[0]) && data[1] + 2 <= |data|
  }

  /** What decodeMessage stores, None for an invalid buffer (which it leaves unread). */
  function ParsedMessage(data: seq<byte>, junk: seq<byte>): Option<PhevMessage> {
    if !ValidBuffer(data) then None
    else
      var length: int := data[1];
      Some(PhevMessage(
        data[0], length, At(data, 2, junk), At(data, 3, junk),
        if length > 3 then data[4..length + 1] else [],
        At(data, 5 + length, junk)))
  }

  // ---------------------------------------------------------------- operations

  function CreateMessage(command: byte, typ: byte, reg: byte, data: seq<byte>, junk: byte): PhevMessage
    requires |data| < 256
  {
    PhevMessage(command, |data|, typ, reg, data, junk)
  }

  method Checksum(d: array<byte>) returns (b: byte)
    requires 2 <= d.Length && d[1] + 1 <= d.Length
    ensures b == Truncate(Total(d[..d[1] + 1]))
  {
    b := 0;
    var j: int := d[1] as int + 2;
    var i := 0;
    while true
      invariant 0 <= i <= j - 1
      invariant b == Truncate(Total(d[..i]))
      decreases j - i
    {
      if i >= j - 1 {
        return;
      }
      assert d[..i + 1][..i] == d[..i];
      b := Truncate(d[i] + b);
      i := i + 1;
    }
  }

  method ValidateBuffer(msg: seq<byte>, junk: seq<byte>) returns (r: int)
    ensures r == if ValidBuffer(msg) then 1 else 0
  {
    var i := 0;
    while i < |ALLOWED_COMMANDS|
      invariant 0 <= i <= |ALLOWED_COMMANDS|
      invariant At(msg, 0, junk) !in ALLOWED_COMMANDS[..i]
    {
      if At(msg, 0, junk) == ALLOWED_COMMANDS[i] {
        if At(msg, 1, junk) + 2 > |msg| {
          return 0;
        }
        return 1;
      }
      i := i + 1;
    }
    return 0;
  }

  /** decodeMessage: the out-parameter keeps its old value `was` on an invalid buffer. */
  method DecodeMessage(data: seq<byte>, was: PhevMessage, junk: seq<byte>)
    returns (consumed: int, msg: PhevMessage)
    ensures ParsedMessage(data, junk).None? ==> consumed == 0 && msg == was
    ensures ParsedMessage(data, junk).Some? ==>
              msg == ParsedMessage(data, junk).value && consumed == msg.length + 2
  {
    msg := was;
    var valid := ValidateBuffer(data, junk);
    if valid != 0 {
      msg := msg.(command := data[0]);
      msg := msg.(length := data[1]);
      msg := msg.(typ := At(data, 2, junk));
      msg := msg.(reg := At(data, 3, junk));
      if msg.length > 3 {
        msg := msg.(data := data[4..4 + msg.length - 3]);
      } else {
        msg := msg.(data := []);
      }
      msg := msg.(checksum := At(data, 5 + msg.length, junk));
      return msg.length + 2, msg;
    } else {
      return 0, msg;
    }
  }

  /** A buffer holding header, payload and checksum starts with the encoded bytes. */
  lemma PackedBuffer(m: PhevMessage, junk: seq<byte>, d: seq<byte>)
    requires |d| == m.length + 5
    requires d[0] == m.command && d[1] == Truncate(m.length + 3) && d[2] == m.typ && d[3] == m.reg
    requires d[4..m.length + 4] == CopiedPayload(m, junk)
    requires d[m.length + 4] == Truncate(Total(d[..d[1] as int + 1]))
    ensures d[..d[1] as int + 2] == EncodedBytes(m, junk)
  {
    var header := [m.command, Truncate(m.length + 3), m.typ, m.reg];
    assert d[..4] == header;
    if m.length <= MAX_PAYLOAD {
      assert d[..m.length + 4] == header + CopiedPayload(m, junk);
    }
  }

  lemma SumPlaced(m: PhevMessage, junk: seq<byte>, d: seq<byte>, sum: byte)
    requires |d| == m.length + 5
    requires d[0] == m.command && d[1] == Truncate(m.length + 3) && d[2] == m.typ && d[3] == m.reg
    requires d[4..m.length + 4] == CopiedPayload(m, junk)
    requires sum == Truncate(Total(d[..d[1] as int + 1]))
    ensures d[m.length + 4 := sum][..d[1] as int + 2] == EncodedBytes(m, junk)
  {
    hide EncodedBytes, Total, CopiedPayload;
    var d' := d[m.length + 4 := sum];
    assert d'[..d[1] as int + 1] == d[..d[1] as int + 1] && d'[4..m.length + 4] == d[4..m.length + 4];
    PackedBuffer(m, junk, d');
  }

  method EncodeMessage(m: PhevMessage, junk: seq<byte>) returns (d: array<byte>, n: nat)
    ensures fresh(d) && d.Length == m.length + 5
    ensures n <= d.Length && d[..n] == EncodedBytes(m, junk)
  {
    hide EncodedBytes, Total, CopiedPayload;
    d := new byte[m.length + 5];
    FillBuffer(d, m, junk);
    var sum := Checksum(d);
    SumPlaced(m, junk, d[..], sum);
    d[m.length + 4] := sum;
    n := d[1] as int + 2;
    assert d[..n] == d[..][..n];
  }

  /** Everything but the checksum. */
  method FillBuffer(d: array<byte>, m: PhevMessage, junk: seq<byte>)
    requires d.Length == m.length + 5
    modifies d
    ensures d[0] == m.command && d[1] == Truncate(m.length + 3) && d[2] == m.typ && d[3] == m.reg
    ensures d[4..m.length + 4] == CopiedPayload(m, junk)
  {
    hide CopiedPayload, Truncate;
    d[0] := m.command;
    d[1] := Truncate(m.length + 3);
    d[2] := m.typ;
    d[3] := m.reg;
    forall k | 0 <= k < m.length {
      d[4 + k] := CopiedPayload(m, junk)[k];
    }
  }

  /** convertToMessage: the encoded bytes become the content of a message_t. */
  method ConvertToMessage(m: PhevMessage, junk: seq<byte>) returns (out: seq<byte>)
    ensures out == EncodedBytes(m, junk)
  {
    var d, n := EncodeMessage(m, junk);
    out := d[..n];
  }

  function RequestMessage(command: byte, reg: byte, data: seq<byte>): PhevMessage
    requires |data| < 256
  {
    CreateMessage(command, REQUEST_TYPE, reg, data, 0)
  }

  function ResponseMessage(command: byte, reg: byte, data: seq<byte>): PhevMessage
    requires |data| < 256
  {
    CreateMessage(command, RESPONSE_TYPE, reg, data, 0)
  }

  function CommandMessage(reg: byte, data: seq<byte>): PhevMessage
    requires |data| < 256
  {
    RequestMessage(SEND_CMD, reg, data)
  }

  function SimpleRequestCommandMessage(reg: byte, value: byte): PhevMessage {
    RequestMessage(SEND_CMD, reg, [value])
  }

  function AckMessage(command: byte, reg: byte): PhevMessage {
    ResponseMessage(command, reg, [0])
  }

  function PingMessage(number: byte): PhevMessage {
    RequestMessage(PING_SEND_CMD, number, [0])
  }

  function StartMessage(pos: byte, mac: seq<byte>): PhevMessage
    requires |mac| == 6
  {
    RequestMessage(START_SEND, 1, [pos] + mac)
  }

  /** The start message: a start frame and a command frame in one message_t. */
  function StartMessageEncoded(pos: byte, mac: seq<byte>): seq<byte>
    requires |mac| == 6
  {
    EncodedBytes(StartMessage(pos, mac), []) + EncodedBytes(SimpleRequestCommandMessage(0xaa, 0), [])
  }

  function SwapNibbles(command: byte): byte {
    command % 16 * 16 + command / 16
  }

  function ResponseHandler(m: PhevMessage): PhevMessage {
    AckMessage(SwapNibbles(m.command), m.reg)
  }

  // ---------------------------------------------------------------- properties

  /** Walking a byte string by decodeMessage's return value. */
  function Walk(data: seq<byte>, junk: seq<byte>): seq<Frame>
    decreases |data|
  {
    match ParsedMessage(data, junk)
    case None => []
    case Some(m) => [FrameOf(m)] + Walk(data[m.length + 2..], junk)
  }

  /** What such a walk leaves unread. */
  function Unread(data: seq<byte>, junk: seq<byte>): seq<byte>
    decreases |data|
  {
    match ParsedMessage(data, junk)
    case None => data
    case Some(m) => Unread(data[m.length + 2..], junk)
  }

  /** The encoder applied to a freshly created message writes exactly the frame. */
  lemma CreatedFrame(f: Frame, checksum: byte, junk: seq<byte>)
    requires |f.payload| <= MAX_PAYLOAD
    ensures EncodedBytes(CreateMessage(f.command, f.typ, f.reg, f.payload, checksum), junk) == FrameBytes(f)
  {
    var m := CreateMessage(f.command, f.typ, f.reg, f.payload, checksum);
    assert CopiedPayload(m, junk) == f.payload;
  }

  /** The first frame of a byte string is recovered, and its length is what is consumed. */
  lemma ParseFirst(f: Frame, tail: seq<byte>, junk: seq<byte>)
    requires Sendable(f)
    ensures ParsedMessage(FrameBytes(f) + tail, junk).Some?
    ensures var m := ParsedMessage(FrameBytes(f) + tail, junk).value;
            && FrameOf(m) == f
            && m.length == |f.payload| + 3
            && (FrameBytes(f) + tail)[m.length + 2..] == tail
  {
    var s := FrameBytes(f) + tail;
    assert s[..4] == [f.command, |f.payload| + 3, f.typ, f.reg];
    assert s[0] == f.command && s[1] == |f.payload| + 3 && s[2] == f.typ && s[3] == f.reg;
    assert s[4..|f.payload| + 4] == f.payload;
  }

  lemma WalkFirst(fs: seq<Frame>, tail: seq<byte>, junk: seq<byte>)
    requires fs != [] && forall f <- fs :: Sendable(f)
    ensures Walk(Stream(fs) + tail, junk) == [fs[0]] + Walk(Stream(fs[1..]) + tail, junk)
    ensures Unread(Stream(fs) + tail, junk) == Unread(Stream(fs[1..]) + tail, junk)
  {
    var f, rest := fs[0], Stream(fs[1..]) + tail;
    assert Sendable(f);
    assert Stream(fs) + tail == FrameBytes(f) + rest;
    ParseFirst(f, rest, junk);
  }

  lemma WalkNone(fs: seq<Frame>, tail: seq<byte>)
    requires fs == []
    ensures Stream(fs) + tail == tail
  {
  }

  /** Framing round trip, with whatever follows the frames left to the walk. */
  lemma {:induction false} WalkPrefix(fs: seq<Frame>, tail: seq<byte>, junk: seq<byte>)
    requires forall f <- fs :: Sendable(f)
    ensures Walk(Stream(fs) + tail, junk) == fs + Walk(tail, junk)
    ensures Unread(Stream(fs) + tail, junk) == Unread(tail, junk)
  {
    hide *;
    if fs == [] {
      WalkNone(fs, tail);
      assert fs + Walk(tail, junk) == Walk(tail, junk);
    } else {
      WalkFirst(fs, tail, junk);
      WalkPrefix(fs[1..], tail, junk);
      assert fs == [fs[0]] + fs[1..];
    }
  }

  /** Every list of sendable frames survives the wire and every byte is consumed. */
  lemma FramingRoundTrip(fs: seq<Frame>, junk: seq<byte>)
    requires forall f <- fs :: Sendable(f)
    ensures Walk(Stream(fs), junk) == fs
    ensures Unread(Stream(fs), junk) == []
  {
    WalkPrefix(fs, [], junk);
    assert Stream(fs) + [] == Stream(fs);
    assert fs + Walk([], junk) == fs;
  }

  lemma {:induction false} StreamAppend(a: seq<Frame>, b: seq<Frame>)
    requires forall f <- a :: Sendable(f)
    requires forall f <- b :: Sendable(f)
    ensures forall f <- a + b :: Sendable(f)
    ensures Stream(a + b) == Stream(a) + Stream(b)
  {
    if a == [] {
      assert a + b == b;
    } else {
      StreamAppend(a[1..], b);
      assert (a + b)[1..] == a[1..] + b;
    }
  }

  /** Exactly which messages survive: an allowed command and a payload that does not
      wrap the length byte. Stated for every payload createMessage can hold. */
  lemma RoundTripExactly(f: Frame, checksum: byte, junk: seq<byte>, junk': seq<byte>)
    requires |f.payload| < 256
    ensures
      var wire := EncodedBytes(CreateMessage(f.command, f.typ, f.reg, f.payload, checksum), junk);
      var read := ParsedMessage(wire, junk');
      (read.Some? && FrameOf(read.value) == f) <==> Sendable(f)
  {
    if |f.payload| <= MAX_PAYLOAD {
      CreatedFrame(f, checksum, junk);
      var wire := FrameBytes(f);
      if Allowed(f.command) {
        ParseFirst(f, [], junk');
        assert wire + [] == wire;
      } else {
        assert wire[0] == f.command;
      }
    } else {
      var wire := EncodedBytes(CreateMessage(f.command, f.typ, f.reg, f.payload, checksum), junk);
      assert wire[1] == |f.payload| - 253;
    }
  }

  lemma FrameChecksum(f: Frame)
    requires |f.payload| <= MAX_PAYLOAD
    ensures ChecksumHolds(FrameBytes(f))
  {
    var s := FrameBytes(f);
    var body := [f.command, |f.payload| + 3, f.typ, f.reg] + f.payload;
    assert s[1] == body[1] == |f.payload| + 3;
    assert s[..s[1] + 1] == body;
  }

  /** Replacing any one byte of an intact frame, other than the length byte, is noticed. */
  lemma SingleByteCorruption(s: seq<byte>, i: nat, v: byte)
    requires ChecksumHolds(s) && i <= s[1] as int + 1 && i != 1
    ensures ChecksumHolds(s[i := v]) <==> v == s[i]
  {
    var t := s[i := v];
    var end: int := s[1] as int + 1;
    assert t[1] == s[1];
    if i == end {
      assert t[..end] == s[..end];
    } else {
      TotalUpdate(s[..end], i, v);
      assert t[..end] == s[..end][i := v];
    }
    if v == s[i] {
      assert t == s;
    }
  }

  /** The length byte is a real exception: here shortening the frame goes unnoticed. */
  lemma LengthCorruptionUnnoticed()
    ensures var s := FrameBytes(Frame(RESP_CMD, RESPONSE_TYPE, 0, [0x73]));
            ChecksumHolds(s) && s[1] == 4 && ChecksumHolds(s[1 := 3])
  {
    var f := Frame(RESP_CMD, RESPONSE_TYPE, 0, [0x73]);
    var s := FrameBytes(f);
    FrameChecksum(f);
    var t := s[1 := 3];
    assert t[..4] == [0x6f, 3, 1, 0];
    assert t[..4][..3] == [0x6f, 3, 1] && t[..3][..2] == [0x6f, 3] && t[..2][..1] == [0x6f];
    assert [0x6f, 3, 1][..2] == [0x6f, 3] && [0x6f, 3][..1] == [0x6f] && [0x6f][..0] == [];
    assert Total([0x6f]) == 0x6f;
    assert Total([0x6f, 3]) == 0x72;
    assert Total([0x6f, 3, 1]) == 0x73;
    assert Total([0x6f, 3, 1, 0]) == 0x73;
  }

  lemma NibbleParts(high: int, low: int)
    requires 0 <= high < 16 && 0 <= low < 16
    ensures (high * 16 + low) / 16 == high && (high * 16 + low) % 16 == low
  {
  }

  lemma AllowedSwap(c: byte)
    requires Allowed(c)
    ensures Allowed(SwapNibbles(c))
  {
    assert c == 0xf2 || c == 0x2f || c == 0xf6 || c == 0x6f || c == 0xf9 || c == 0x9f;
    var i :| 0 <= i < |ALLOWED_COMMANDS| && ALLOWED_COMMANDS[i] == c;
    assert SwapNibbles(c) == ALLOWED_COMMANDS[if i % 2 == 0 then i + 1 else i - 1];
  }

  /** Acknowledging maps request commands onto response commands and back. */
  lemma SwapNibblesInvolutive(c: byte)
    ensures SwapNibbles(SwapNibbles(c)) == c
    ensures Allowed(SwapNibbles(c)) <==> Allowed(c)
  {
    NibbleParts(c / 16, c % 16);
    NibbleParts(c % 16, c / 16);
    if Allowed(c) {
      AllowedSwap(c);
    }
    if Allowed(SwapNibbles(c)) {
      AllowedSwap(SwapNibbles(c));
    }
  }
}
