/** The bytes on the car link, spelled out. */
module WireLaws {
  import opened Bytes
  import opened Messaging
  import opened MsgPipe
  import opened PhevCore
  import opened PhevConfig
  import opened CarLink

  // ---------------------------------------------------------------- frames

  lemma TotalOne(b: byte)
    ensures Total([b]) == b
  {
    assert [b][..0] == [];
  }

  lemma {:induction false} TotalAppend(a: seq<byte>, b: seq<byte>)
    ensures Total(a + b) == Total(a) + Total(b)
  {
    if b == [] {
      assert a + b == a;
    } else {
      TotalAppend(a, b[..|b| - 1]);
      assert (a + b)[..|a + b| - 1] == a + b[..|b| - 1];
    }
  }

  lemma TotalFour(a: byte, b: byte, c: byte, d: byte)
    ensures Total([a, b, c, d]) == a + b + c + d
  {
    TotalOne(a);
    TotalOne(b);
    TotalOne(c);
    TotalOne(d);
    TotalAppend([a], [b]);
    TotalAppend([a, b], [c]);
    TotalAppend([a, b, c], [d]);
    assert [a] + [b] == [a, b] && [a, b] + [c] == [a, b, c] && [a, b, c] + [d] == [a, b, c, d];
  }

  /** A frame with any payload: four bytes, the payload, and the sum of both. */
  lemma FrameSpelled(f: Frame)
    requires |f.payload| <= 252
    ensures FrameBytes(f)
            == [f.command, |f.payload| + 3, f.typ, f.reg] + f.payload
               + [(f.command + |f.payload| + 3 + f.typ + f.reg + Total(f.payload)) % 256]
  {
    TotalFour(f.command, |f.payload| + 3, f.typ, f.reg);
    TotalAppend([f.command, |f.payload| + 3, f.typ, f.reg], f.payload);
  }

  /** A frame with one byte of payload. */
  lemma ShortFrame(command: byte, typ: byte, reg: byte, value: byte)
    ensures FrameBytes(Frame(command, typ, reg, [value]))
            == [command, 4, typ, reg, value, (command + 4 + typ + reg + value) % 256]
  {
    FrameSpelled(Frame(command, typ, reg, [value]));
    TotalOne(value);
    hide FrameBytes;
    assert [command, 4, typ, reg] + [value] == [command, 4, typ, reg, value];
  }

  /** The commands of the protocol. */
  lemma AllowedCommands(c: byte)
    ensures Allowed(c) <==> c in {0xf2, 0x2f, 0xf6, 0x6f, 0xf9, 0x9f}
  {
    assert ALLOWED_COMMANDS[0] == 0xf2 && ALLOWED_COMMANDS[1] == 0x2f && ALLOWED_COMMANDS[2] == 0xf6;
    assert ALLOWED_COMMANDS[3] == 0x6f && ALLOWED_COMMANDS[4] == 0xf9 && ALLOWED_COMMANDS[5] == 0x9f;
  }

  /** Which bytes are taken for a frame, and what is read from them. */
  lemma DecodedFields(data: seq<byte>, junk: seq<byte>)
    requires 6 <= |data| && 4 <= data[1] && data[1] + 2 <= |data|
    ensures ParsedMessage(data, junk).Some? <==> data[0] in {0xf2, 0x2f, 0xf6, 0x6f, 0xf9, 0x9f}
    ensures ParsedMessage(data, junk).Some? ==>
              var m := ParsedMessage(data, junk).value;
              && m.command == data[0] && m.length == data[1] && m.typ == data[2] && m.reg == data[3]
              && m.data == data[4..data[1] + 1]
              && (5 + data[1] < |data| ==> m.checksum == data[5 + data[1]])
  {
    AllowedCommands(data[0]);
  }

  /** Acknowledging exchanges the two hexadecimal digits of a command. */
  lemma DigitsSwapped(h: byte, l: byte)
    requires h < 16 && l < 16
    ensures SwapNibbles(16 * h + l) == 16 * l + h
  {
    NibbleParts(h, l);
  }

  // ---------------------------------------------------------------- what is read from the car

  /** A read that starts with a frame of wire length 3 to 252, whatever follows. */
  predicate StartsFrame(m: Msg) {
    4 <= |m| && m[0] in {0xf2, 0x2f, 0xf6, 0x6f, 0xf9, 0x9f} && 3 <= m[1] <= 252 && m[1] + 2 <= |m|
  }

  /** A frame of the car, received: a request, of type 0, is acknowledged under the command with
      its digits exchanged; nothing else is. A 0x6f frame that is no response, of type 1, is
      reported with its command, type and register; nothing else is. An answer to a ping, 0x9f and
      no request, moves the counter on to the next number. */
  lemma FrameOutcome(fx: Foreign, c: Ctx, m: Msg, h: byte, l: byte) returns (p: PhevMessage)
    requires StartsFrame(m) && h < 16 && l < 16 && m[0] == 16 * h + l
    requires forall q :: fx.responseText(q) != []
    ensures p.command == m[0] && p.typ == m[2] && p.reg == m[3]
    ensures var o := Transformation(OutChain(fx), c, m);
            && o.responses
               == (if m[2] == 0 then [[16 * l + h, 4, 1, m[3], 0, (16 * l + h + 4 + 1 + m[3]) % 256]] else [])
            && o.result == (if m[0] == 0x6f && m[2] != 1 then Some(fx.responseText(p)) else None)
            && o.state == (if m[0] == 0x9f && m[2] != 0 then
                             c.(currentPing := (m[3] as int + 1) % 100, successfulPing := true)
                           else c)
  {
    hide Transformation, OutChain, FrameBytes, Ack, Reread, Reports;
    AllowedCommands(m[0]);
    OutChainRead(fx, c, m);
    AckSpelled(h, l, m[3]);
    p := FrameReread(fx, m, c.memory);
  }

  lemma AckSpelled(h: byte, l: byte, reg: byte)
    requires h < 16 && l < 16
    ensures FrameBytes(Ack(16 * h + l, reg)) == [16 * l + h, 4, 1, reg, 0, (16 * l + h + 4 + 1 + reg) % 256]
  {
    hide FrameBytes;
    DigitsSwapped(h, l);
    ShortFrame(16 * l + h, 1, reg, 0);
  }

  lemma FrameReread(fx: Foreign, m: Msg, memory: Memory) returns (p: PhevMessage)
    requires StartsFrame(m) && ValidBuffer(m)
    ensures p.command == m[0] && p.typ == m[2] && p.reg == m[3]
    ensures Reread(m, memory) == (m[2], m[3])
    ensures Reports(fx, m, memory) == if m[0] == 0x6f && m[2] != 1 then [fx.responseText(p)] else []
  {
    ReencodedHeader(m, memory);
    p := Decoded(Again(m, memory), memory.encoded);
    hide ParsedMessage, Again;
  }

  /** Bytes that are no frame do nothing at all. */
  lemma NoFrameOutcome(fx: Foreign, c: Ctx, m: Msg)
    requires |m| < 2 || m[0] !in {0xf2, 0x2f, 0xf6, 0x6f, 0xf9, 0x9f} || m[1] + 2 > |m|
    ensures var o := Transformation(OutChain(fx), c, m);
            o.responses == [] && o.result == None && o.state == c
  {
    if 2 <= |m| {
      AllowedCommands(m[0]);
    }
    OutChainRead(fx, c, m);
    hide Transformation;
  }

  // ---------------------------------------------------------------- what the car is told

  /** The bytes for a client connected or not and three switches. */
  function Told(connected: bool, head: bool, park: bool, air: bool): seq<byte> {
    (if connected then [242, 10, 0, 1, 2, 0, 0, 0, 0, 0, 0, 255] + [246, 4, 0, 170, 0, 164] else [])
    + (if head then [246, 4, 0, 10, 1, 5] else [246, 4, 0, 10, 2, 6])
    + (if park then [246, 4, 0, 11, 1, 6] else [246, 4, 0, 11, 2, 7])
    + (if air then [246, 4, 0, 4, 2, 0] else [246, 4, 0, 4, 1, 255])
  }

  lemma StartSpelled()
    ensures FrameBytes(Frame(START_SEND, REQUEST_TYPE, 1, [2] + NO_MAC)) == [242, 10, 0, 1, 2, 0, 0, 0, 0, 0, 0, 255]
  {
    var payload := [2] + NO_MAC;
    FrameSpelled(Frame(START_SEND, REQUEST_TYPE, 1, payload));
    TotalFour(2, 0, 0, 0);
    TotalOne(0);
    TotalAppend([0], [0]);
    TotalAppend([0, 0], [0]);
    TotalAppend([2, 0, 0, 0], [0, 0, 0]);
    hide FrameBytes, Total;
    assert [0] + [0] == [0, 0] && [0, 0] + [0] == [0, 0, 0] && [2, 0, 0, 0] + [0, 0, 0] == payload;
    assert [242, 10, 0, 1] + payload + [255] == [242, 10, 0, 1, 2, 0, 0, 0, 0, 0, 0, 255];
  }

  /** The bytes for three switches. */
  function ToldSwitches(head: bool, park: bool, air: bool): seq<byte> {
    (if head then [246, 4, 0, 10, 1, 5] else [246, 4, 0, 10, 2, 6])
    + (if park then [246, 4, 0, 11, 1, 6] else [246, 4, 0, 11, 2, 7])
    + (if air then [246, 4, 0, 4, 2, 0] else [246, 4, 0, 4, 1, 255])
  }

  lemma ToldParts(connected: bool, head: bool, park: bool, air: bool)
    ensures Told(connected, head, park, air)
            == (if connected then [242, 10, 0, 1, 2, 0, 0, 0, 0, 0, 0, 255] + [246, 4, 0, 170, 0, 164] else [])
               + ToldSwitches(head, park, air)
  {
    Regrouped(if connected then [242, 10, 0, 1, 2, 0, 0, 0, 0, 0, 0, 255] + [246, 4, 0, 170, 0, 164] else [],
              if head then [246, 4, 0, 10, 1, 5] else [246, 4, 0, 10, 2, 6],
              if park then [246, 4, 0, 11, 1, 6] else [246, 4, 0, 11, 2, 7],
              if air then [246, 4, 0, 4, 2, 0] else [246, 4, 0, 4, 1, 255]);
  }

  function Switches(s: State): (fs: seq<Frame>)
    ensures forall f <- fs :: Sendable(f)
  {
    [SwitchFrame(KO_WF_H_LAMP_CONT_SP, if s.headLightsOn == TRUE then 1 else 2),
     SwitchFrame(KO_WF_P_LAMP_CONT_SP, if s.parkLightsOn == TRUE then 1 else 2),
     SwitchFrame(KO_WF_MANUAL_AC_ON_RQ_SP, if s.airConOn == TRUE then 2 else 1)]
  }

  lemma SwitchSpelled(on: bool)
    ensures FrameBytes(SwitchFrame(KO_WF_H_LAMP_CONT_SP, if on then 1 else 2))
            == if on then [246, 4, 0, 10, 1, 5] else [246, 4, 0, 10, 2, 6]
    ensures FrameBytes(SwitchFrame(KO_WF_P_LAMP_CONT_SP, if on then 1 else 2))
            == if on then [246, 4, 0, 11, 1, 6] else [246, 4, 0, 11, 2, 7]
    ensures FrameBytes(SwitchFrame(KO_WF_MANUAL_AC_ON_RQ_SP, if on then 2 else 1))
            == if on then [246, 4, 0, 4, 2, 0] else [246, 4, 0, 4, 1, 255]
  {
    hide FrameBytes;
    ShortFrame(246, 0, 10, if on then 1 else 2);
    ShortFrame(246, 0, 11, if on then 1 else 2);
    ShortFrame(246, 0, 4, if on then 2 else 1);
  }

  lemma SwitchesSpelled(s: State)
    ensures Stream(Switches(s)) == ToldSwitches(s.headLightsOn == TRUE, s.parkLightsOn == TRUE, s.airConOn == TRUE)
  {
    hide FrameBytes, Stream;
    var fs := Switches(s);
    SwitchesStream(fs[0], fs[1], fs[2]);
    assert [fs[0], fs[1], fs[2]] == fs;
    SwitchSpelled(s.headLightsOn == TRUE);
    SwitchSpelled(s.parkLightsOn == TRUE);
    SwitchSpelled(s.airConOn == TRUE);
    hide Switches;
  }

  lemma ConnectionSpelled()
    ensures Stream([Frame(START_SEND, REQUEST_TYPE, 1, [2] + NO_MAC), SwitchFrame(0xaa, 0)])
            == [242, 10, 0, 1, 2, 0, 0, 0, 0, 0, 0, 255] + [246, 4, 0, 170, 0, 164]
  {
    StartSpelled();
    ShortFrame(246, 0, 170, 0);
    hide FrameBytes, Stream;
    TwoFrames(Frame(START_SEND, REQUEST_TYPE, 1, [2] + NO_MAC), SwitchFrame(0xaa, 0));
  }

  lemma CommandsSpelled(s: State)
    ensures Stream(CarCommands(s))
            == Told(s.connectedClients > 0, s.headLightsOn == TRUE, s.parkLightsOn == TRUE, s.airConOn == TRUE)
  {
    hide FrameBytes, Stream, Told, ToldSwitches;
    SwitchesSpelled(s);
    ToldParts(s.connectedClients > 0, s.headLightsOn == TRUE, s.parkLightsOn == TRUE, s.airConOn == TRUE);
    if s.connectedClients > 0 {
      var start := [Frame(START_SEND, REQUEST_TYPE, 1, [2] + NO_MAC), SwitchFrame(0xaa, 0)];
      ConnectionSpelled();
      StreamAppend(start, Switches(s));
      assert CarCommands(s) == start + Switches(s);
    } else {
      assert CarCommands(s) == Switches(s);
      assert [] + Stream(Switches(s)) == Stream(Switches(s));
    }
  }

  lemma SwitchesStream(a: Frame, b: Frame, c: Frame)
    requires Sendable(a) && Sendable(b) && Sendable(c)
    ensures Stream([a, b, c]) == FrameBytes(a) + FrameBytes(b) + FrameBytes(c)
  {
    hide FrameBytes;
    TwoFrames(b, c);
    assert [a, b, c][1..] == [b, c];
    assert Stream([a, b, c]) == FrameBytes(a) + Stream([b, c]);
  }

  lemma Regrouped(a: seq<byte>, b: seq<byte>, c: seq<byte>, d: seq<byte>)
    ensures a + (b + c + d) == a + b + c + d
  {
  }

  /** A switch as a configuration leaves it: as the document says, as it was, or off. */
  function Switched(said: Option<bool>, was: Option<TriState>): bool {
    if said.Some? then said.value else was == Some(TRUE)
  }

  function Was(c: Ctx, switch: State -> TriState): Option<TriState> {
    if c.config.None? then None else Some(switch(c.config.value.state))
  }

  /** A configuration with a state object, end to end: it starts an update if and only if its
      latest build is newer than the current one or it says so; otherwise the car is told,
      in these very bytes, whether a client is connected, and of each switch what the document
      says, or else what it was. */
  lemma DocumentTold(fx: Foreign, c: Ctx, m: Msg)
    requires fx.document(m).state.Some?
    requires c.config.Some? ==>
               var s := c.config.value.state;
               s.headLightsOn != NOTSET && s.parkLightsOn != NOTSET && s.airConOn != NOTSET
    ensures var u, s := fx.document(m).update, fx.document(m).state.value;
            var o := Transformation(InChain(fx), c, m);
            if u.latestBuild > u.currentBuild || u.forceUpdate then
              o.result == None && o.responses == [] && o.state.otaUpdating
            else
              && o.result
                 == Some(Told(s.connectedClients > 0,
                              Switched(s.headLightsOn, Was(c, (t: State) => t.headLightsOn)),
                              Switched(s.parkLightsOn, Was(c, (t: State) => t.parkLightsOn)),
                              Switched(s.airConOn, Was(c, (t: State) => t.airConOn))))
              && o.state.otaUpdating == c.otaUpdating
              && o.state.config.Some? && o.responses == [fx.stateText(o.state.config.value.state)]
  {
    var merged := Merged(fx, c, m);
    InChainOutcome(fx, c, m);
    CommandsSpelled(merged.state);
    hide Transformation, InChain, Told, Stream, CarCommands;
  }
}
