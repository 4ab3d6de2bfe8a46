/** The update receiver: it strips the header of an HTTP response (section 6 of RFC 1945)
    and writes the body to flash, one receive buffer at a time
    (components/phev_ota/src/phev_ota.c). */
module PhevOta {
  import opened Bytes

  const BUFFSIZE := 1024
  const TEXT_BUFFSIZE := 1024
  const CR: byte := 13
  const LF: byte := 10

  // ---------------------------------------------------------------- scanning a buffer

  /** read_until from `at`, with i bytes already passed: the position after the delimiter,
      or len + 1. It may look past the end of the buffer. */
  function Until(text: seq<byte>, junk: seq<byte>, at: nat, delim: byte, len: nat, i: nat): nat
    decreases len - i
  {
    if At(text, at + i, junk) != delim && i < len then Until(text, junk, at, delim, len, i + 1) else i + 1
  }

  lemma {:induction false} UntilGrows(text: seq<byte>, junk: seq<byte>, at: nat, delim: byte, len: nat, i: nat)
    ensures Until(text, junk, at, delim, len, i) > i
    decreases len - i
  {
    if At(text, at + i, junk) != delim && i < len {
      UntilGrows(text, junk, at, delim, len, i + 1);
    }
  }

  /** Where the scan for a two-byte line, started at i, says the body begins. */
  function BodyStart(text: seq<byte>, junk: seq<byte>, total: nat, i: nat): Option<nat>
    decreases total - i
  {
    if At(text, i, junk) == 0 || i >= total then None
    else
      UntilGrows(text, junk, i, LF, total, 0);
      var length := Until(text, junk, i, LF, total, 0);
      if length == 2 then Some(i + 2) else BodyStart(text, junk, total, i + length)
  }

  /** The receive buffer after one receive: the data, then zeros. */
  function Padded(data: seq<byte>): (s: seq<byte>)
    requires |data| <= TEXT_BUFFSIZE
    ensures |s| == TEXT_BUFFSIZE + 1 && s[..|data|] == data
    ensures forall k | |data| <= k <= TEXT_BUFFSIZE :: s[k] == 0
  {
    data + seq(TEXT_BUFFSIZE + 1 - |data|, _ => 0)
  }

  /** strstr(s, "200") finds something. */
  predicate Contains200(s: seq<byte>) {
    exists i | 0 <= i < |s| - 2 :: s[i] == 50 && s[i + 1] == 48 && s[i + 2] == 48
  }

  /** A two-byte line lies within the received bytes, because what follows them is zero.
      The one exception is a lone byte, which the scan takes for two. */
  lemma {:induction false} BodyWithin(data: seq<byte>, junk: seq<byte>, i: nat)
    requires |data| <= TEXT_BUFFSIZE && |data| != 1
    ensures var start := BodyStart(Padded(data), junk, |data|, i);
            start.Some? ==> start.value <= |data|
    decreases |data| - i
  {
    var text := Padded(data);
    if At(text, i, junk) != 0 && i < |data| {
      UntilGrows(text, junk, i, LF, |data|, 0);
      var length := Until(text, junk, i, LF, |data|, 0);
      if length == 2 {
        UntilGrows(text, junk, i, LF, |data|, 2);
        assert At(text, i + 1, junk) == text[i + 1] == LF;
      } else {
        BodyWithin(data, junk, i + length);
      }
    }
  }

  lemma LoneByteMisread(b: byte, junk: seq<byte>)
    requires b != 0 && b != LF
    ensures BodyStart(Padded([b]), junk, 1, 0) == Some(2)
  {
    var text := Padded([b]);
    assert text[0] == b && At(text, 1, junk) == 0;
    assert Until(text, junk, 0, LF, 1, 1) == 2;
  }

  // ---------------------------------------------------------------- the receive loop as a fold

  /** What recv reports. */
  datatype Reception = Data(bytes: seq<byte>) | Closed | Failed

  /** Broken: the code copies a negative length; what happens then is not modelled. */
  datatype Status = Receiving | Complete | Aborted | Broken

  /** The receiver: what has been written to flash, the length counted, the results of the
      writes still to come (exhausted: failure), and the two flags. */
  datatype Progress = Progress(
    status: Status, bodyStarted: bool, ok200: bool, flash: seq<byte>, length: int, writes: seq<bool>)

  /** One esp_ota_write. */
  function Write(p: Progress, data: seq<byte>): (Progress, bool) {
    var rest := if p.writes == [] then [] else p.writes[1..];
    if p.writes != [] && p.writes[0] then
      (p.(flash := p.flash + data, length := p.length + |data|, writes := rest), true)
    else (p.(writes := rest), false)
  }

  /** A chunk while the header is still expected. A failing write leaves it expected. */
  function OnHeader(p: Progress, data: seq<byte>, junk: seq<byte>): Progress
    requires |data| <= TEXT_BUFFSIZE
  {
    if !Contains200(CString(Padded(data))) && !p.ok200 then p.(status := Aborted)
    else
      var q := p.(ok200 := true);
      var start := BodyStart(Padded(data), junk, |data|, 0);
      if start.None? then q
      else if start.value > |data| then q.(status := Broken)
      else
        var (r, ok) := Write(q, data[start.value..]);
        r.(bodyStarted := ok)
  }

  function OnBody(p: Progress, data: seq<byte>): Progress {
    var (r, ok) := Write(p, data);
    if ok then r else r.(status := Aborted)
  }

  function OnReceived(p: Progress, received: Reception, junk: seq<byte>): Progress
    requires received.Data? ==> 0 < |received.bytes| <= TEXT_BUFFSIZE
  {
    match received
    case Closed => p.(status := Complete)
    case Failed => p.(status := Aborted)
    case Data(bytes) => if p.bodyStarted then OnBody(p, bytes) else OnHeader(p, bytes, junk)
  }

  predicate Sized(input: seq<Reception>) {
    forall i | 0 <= i < |input| && input[i].Data? :: 0 < |input[i].bytes| <= TEXT_BUFFSIZE
  }

  /** All that is received, in order, until the receiver stops. */
  function OnAll(p: Progress, input: seq<Reception>, junk: seq<byte>): Progress
    requires Sized(input)
    decreases |input|
  {
    if input == [] || !p.status.Receiving? then p
    else OnAll(OnReceived(p, input[0], junk), input[1..], junk)
  }

  // ---------------------------------------------------------------- the code

  class Receiver {
    const text: array<byte>
    const otaWriteData: array<byte>
    var binaryFileLength: int
    var flash: seq<byte>
    var writes: seq<bool>

    ghost predicate Valid()
      reads this
    {
      text != otaWriteData && text.Length == TEXT_BUFFSIZE + 1 && otaWriteData.Length == BUFFSIZE + 1
    }

    /** The progress these fields stand for, given the loop's own variables. */
    ghost function View(status: Status, bodyStarted: bool, ok200: bool): Progress
      reads this
    {
      Progress(status, bodyStarted, ok200, flash, binaryFileLength, writes)
    }

    constructor (writes: seq<bool>)
      ensures Valid() && fresh(text) && fresh(otaWriteData)
      ensures View(Receiving, false, false) == Progress(Receiving, false, false, [], 0, writes)
    {
      text := new byte[TEXT_BUFFSIZE + 1](_ => 0);
      otaWriteData := new byte[BUFFSIZE + 1](_ => 0);
      binaryFileLength := 0;
      flash := [];
      this.writes := writes;
    }

    method EspOtaWrite(len: nat) returns (ok: bool)
      requires Valid() && len <= otaWriteData.Length
      modifies this`flash, this`writes
      ensures ok == (old(writes) != [] && old(writes)[0])
      ensures writes == if old(writes) == [] then [] else old(writes)[1..]
      ensures flash == if ok then old(flash) + otaWriteData[..len] else old(flash)
    {
      ok := writes != [] && writes[0];
      writes := if writes == [] then [] else writes[1..];
      if ok {
        flash := flash + otaWriteData[..len];
      }
    }

    method ReadUntil(at: nat, delim: byte, len: nat, junk: seq<byte>) returns (r: nat)
      ensures r == Until(text[..], junk, at, delim, len, 0) && r > 0
    {
      var i: nat := 0;
      UntilGrows(text[..], junk, at, delim, len, 0);
      while At(text[..], at + i, junk) != delim && i < len
        invariant i <= len
        invariant Until(text[..], junk, at, delim, len, i) == Until(text[..], junk, at, delim, len, 0)
        decreases len - i
      {
        i := i + 1;
      }
      return i + 1;
    }

    /** memset and memcpy into the write buffer. */
    method Fill(from: nat, len: nat)
      requires Valid() && from + len <= text.Length && len <= otaWriteData.Length
      modifies otaWriteData
      ensures otaWriteData[..len] == text[from..from + len]
    {
      forall k | 0 <= k < BUFFSIZE {
        otaWriteData[k] := 0;
      }
      forall k | 0 <= k < len {
        otaWriteData[k] := text[from + k];
      }
    }

    /** read_past_http_header: whether the body has begun, its first bytes being written. */
    method ReadPastHttpHeader(ghost data: seq<byte>, totalLen: nat, junk: seq<byte>)
      returns (status: Status, started: bool)
      requires Valid() && 0 < totalLen == |data| <= TEXT_BUFFSIZE && text[..] == Padded(data)
      modifies this`binaryFileLength, this`flash, this`writes, otaWriteData
      ensures var p := old(View(Receiving, false, true));
              var start := BodyStart(Padded(data), junk, totalLen, 0);
              if start.None? || start.value > totalLen then
                && !started && View(Receiving, false, true) == p
                && status == if start.None? then Receiving else Broken
              else
                && status == Receiving
                && View(Receiving, started, true) == Write(p, data[start.value..]).0.(bodyStarted := started)
                && started == Write(p, data[start.value..]).1
    {
      var i: nat := 0;
      while At(text[..], i, junk) != 0 && i < totalLen
        invariant BodyStart(text[..], junk, totalLen, i) == BodyStart(text[..], junk, totalLen, 0)
        invariant text[..] == Padded(data)
        invariant View(Receiving, false, true) == old(View(Receiving, false, true))
        decreases totalLen - i
      {
        var length := ReadUntil(i, LF, totalLen, junk);
        if length == 2 {
          var writeLen := totalLen - (i + 2);
          if writeLen < 0 {
            return Broken, false;
          }
          Fill(i + 2, writeLen);
          assert text[i + 2..totalLen] == data[i + 2..];
          var ok := EspOtaWrite(writeLen);
          if !ok {
            return Receiving, false;
          }
          binaryFileLength := binaryFileLength + writeLen;
          return Receiving, true;
        }
        i := i + length;
      }
      return Receiving, false;
    }

    /** recv: the buffer is cleared, then filled. */
    method FillText(bytes: seq<byte>)
      requires Valid() && |bytes| <= TEXT_BUFFSIZE
      modifies text
      ensures text[..] == Padded(bytes)
    {
      forall k | 0 <= k < TEXT_BUFFSIZE + 1 {
        text[k] := if k < |bytes| then bytes[k] else 0;
      }
    }

    /** A chunk received while the header is still expected. */
    method ReceiveHeader(bytes: seq<byte>, http200Flag: bool, junk: seq<byte>)
      returns (status: Status, started: bool, ok200: bool)
      requires Valid() && 0 < |bytes| <= TEXT_BUFFSIZE
      modifies this`binaryFileLength, this`flash, this`writes, text, otaWriteData
      ensures View(status, started, ok200) == OnHeader(old(View(Receiving, false, http200Flag)), bytes, junk)
      ensures status != Complete
    {
      hide BodyStart, CString, Contains200, Padded;
      FillText(bytes);
      if !Contains200(CString(text[..])) && !http200Flag {
        return Aborted, false, http200Flag;
      }
      status, started := ReadPastHttpHeader(bytes, |bytes|, junk);
      return status, started, true;
    }

    /** A chunk of the body. */
    method ReceiveBody(bytes: seq<byte>, ghost ok200: bool) returns (status: Status)
      requires Valid() && 0 < |bytes| <= TEXT_BUFFSIZE
      modifies this`binaryFileLength, this`flash, this`writes, text, otaWriteData
      ensures View(status, true, ok200) == OnBody(old(View(Receiving, true, ok200)), bytes)
      ensures status == Receiving || status == Aborted
    {
      FillText(bytes);
      Fill(0, |bytes|);
      assert otaWriteData[..|bytes|] == bytes;
      var written := EspOtaWrite(|bytes|);
      if !written {
        return Aborted;
      }
      binaryFileLength := binaryFileLength + |bytes|;
      return Receiving;
    }

    /** The receive loop of ota over everything the socket delivers. */
    method Receive(input: seq<Reception>, junk: seq<byte>)
      returns (status: Status, ghost started: bool, ghost ok: bool)
      requires Valid() && Sized(input)
      modifies this`binaryFileLength, this`flash, this`writes, text, otaWriteData
      ensures View(status, started, ok) == OnAll(old(View(Receiving, false, false)), input, junk)
      ensures status == Complete <==>
                exists k :: Reached(old(View(Receiving, false, false)), input, k, junk) && input[k].Closed?
    {
      hide OnAll, OnHeader, OnBody, Reached;
      CompleteExactly(View(Receiving, false, false), input, junk);
      var respBodyStart, http200Flag := false, false;
      ghost var goal := OnAll(View(Receiving, false, false), input, junk);
      var n := 0;
      assert input[n..] == input;
      while n < |input|
        invariant 0 <= n <= |input|
        invariant goal == OnAll(View(Receiving, respBodyStart, http200Flag), input[n..], junk)
      {
        OnAllStep(View(Receiving, respBodyStart, http200Flag), input, n, junk);
        status := Receiving;
        match input[n] {
          case Failed =>
            status := Aborted;
          case Closed =>
            status := Complete;
          case Data(bytes) =>
            if !respBodyStart {
              status, respBodyStart, http200Flag := ReceiveHeader(bytes, http200Flag, junk);
            } else {
              status := ReceiveBody(bytes, http200Flag);
            }
        }
        if status != Receiving {
          return status, respBodyStart, http200Flag;
        }
        n := n + 1;
      }
      OnAllNothing(View(Receiving, respBodyStart, http200Flag), junk);
      return Receiving, respBodyStart, http200Flag;
    }
  }

  lemma OnAllNothing(p: Progress, junk: seq<byte>)
    ensures OnAll(p, [], junk) == p
  {
  }

  /** One step of the fold; a receiver that has stopped stays as it is. */
  lemma OnAllStep(p: Progress, input: seq<Reception>, n: nat, junk: seq<byte>)
    requires Sized(input) && n < |input| && p.status.Receiving?
    ensures OnAll(p, input[n..], junk) == OnAll(OnReceived(p, input[n], junk), input[n + 1..], junk)
    ensures !OnReceived(p, input[n], junk).status.Receiving? ==>
              OnAll(p, input[n..], junk) == OnReceived(p, input[n], junk)
  {
    assert input[n..][0] == input[n] && input[n..][1..] == input[n + 1..];
  }

  // ---------------------------------------------------------------- what a response amounts to

  const BLANK_LINE: seq<byte> := [CR, LF]

  /** A header line: more than two bytes, NUL-free, ended by its only line feed. */
  predicate HeaderLine(l: seq<byte>) {
    && |l| > 2 && l[|l| - 1] == LF
    && forall k | 0 <= k < |l| - 1 :: l[k] != LF && l[k] != 0
  }

  function Header(lines: seq<seq<byte>>): seq<byte> {
    Flatten(lines) + BLANK_LINE
  }

  lemma {:induction false} UntilFinds(text: seq<byte>, junk: seq<byte>, at: nat, len: nat, k: nat, i: nat)
    requires i <= k <= len && at + k < |text| && text[at + k] == LF
    requires forall q | at + i <= q < at + k :: text[q] != LF
    ensures Until(text, junk, at, LF, len, i) == k + 1
    decreases k - i
  {
    if i < k {
      UntilFinds(text, junk, at, len, k, i + 1);
    }
  }

  /** The scan steps over a header line. */
  lemma LineScanned(text: seq<byte>, junk: seq<byte>, total: nat, at: nat, l: seq<byte>)
    requires HeaderLine(l) && at + |l| <= total && at + |l| <= |text|
    requires forall k | 0 <= k < |l| :: text[at + k] == l[k]
    ensures BodyStart(text, junk, total, at) == BodyStart(text, junk, total, at + |l|)
  {
    assert text[at + (|l| - 1)] == l[|l| - 1] && text[at + 0] == l[0];
    forall q | at <= q < at + (|l| - 1)
      ensures text[q] != LF
    {
      assert text[at + (q - at)] == l[q - at];
    }
    UntilFinds(text, junk, at, total, |l| - 1, 0);
  }

  lemma BlankLineScanned(text: seq<byte>, junk: seq<byte>, total: nat, at: nat)
    requires at + |Header([])| <= total <= |text| && text[at..at + |Header([])|] == Header([])
    ensures BodyStart(text, junk, total, at) == Some(at + |Header([])|)
  {
    assert Header([]) == BLANK_LINE;
    assert text[at..at + 2][0] == text[at] == CR && text[at..at + 2][1] == text[at + 1] == LF;
    UntilFinds(text, junk, at, total, 1, 0);
  }

  /** The scan walks over the header lines to just behind the blank line. */
  lemma {:induction false} ScanHeader(text: seq<byte>, junk: seq<byte>, total: nat, at: nat, lines: seq<seq<byte>>)
    requires forall l <- lines :: HeaderLine(l)
    requires at + |Header(lines)| <= total <= |text| && text[at..at + |Header(lines)|] == Header(lines)
    ensures BodyStart(text, junk, total, at) == Some(at + |Header(lines)|)
    decreases |lines|
  {
    if lines == [] {
      BlankLineScanned(text, junk, total, at);
    } else {
      var l, rest := lines[0], lines[1..];
      assert HeaderLine(l) && forall m <- rest :: m in lines;
      hide HeaderLine, BodyStart;
      assert lines == [l] + rest;
      LineAndRest(text, at, l, rest, lines);
      LineScanned(text, junk, total, at, l);
      ScanHeader(text, junk, total, at + |l|, rest);
    }
  }

  lemma LineAndRest(text: seq<byte>, at: nat, l: seq<byte>, rest: seq<seq<byte>>, lines: seq<seq<byte>>)
    requires lines == [l] + rest && HeaderLine(l)
    requires at + |Header(lines)| <= |text| && text[at..at + |Header(lines)|] == Header(lines)
    ensures |Header(lines)| == |l| + |Header(rest)|
    ensures forall k | 0 <= k < |l| :: text[at + k] == l[k]
    ensures text[at + |l|..at + |l| + |Header(rest)|] == Header(rest)
  {
    var header := Header(lines);
    assert lines[1..] == rest;
    assert header == l + Header(rest);
    Subslice(text, at, at + |header|, |l|, |header|);
    assert header[|l|..|header|] == Header(rest);
    forall k | 0 <= k < |l|
      ensures text[at + k] == l[k]
    {
      assert text[at..at + |header|][k] == header[k];
    }
  }

  /** One body chunk, when its write succeeds. */
  lemma ReceiveOne(p: Progress, chunk: seq<byte>, input: seq<Reception>, junk: seq<byte>)
    requires p.status.Receiving? && p.bodyStarted && 0 < |chunk| <= TEXT_BUFFSIZE && Sized(input)
    requires p.writes != [] && p.writes[0]
    ensures Sized([Data(chunk)] + input)
    ensures OnAll(p, [Data(chunk)] + input, junk)
            == OnAll(p.(flash := p.flash + chunk, length := p.length + |chunk|, writes := p.writes[1..]), input, junk)
  {
    var all := [Data(chunk)] + input;
    assert all[0] == Data(chunk) && all[1..] == input;
  }

  lemma ReceiveEnd(p: Progress, junk: seq<byte>)
    requires p.status.Receiving?
    ensures Sized([Closed]) && OnAll(p, [Closed], junk) == p.(status := Complete)
  {
    var end: seq<Reception> := [Closed];
    assert end[1..] == [];
  }

  /** The body chunks that follow, when every write succeeds. */
  lemma {:induction false} ReceiveChunks(p: Progress, chunks: seq<seq<byte>>, junk: seq<byte>)
    requires p.status.Receiving? && p.bodyStarted
    requires forall c <- chunks :: 0 < |c| <= TEXT_BUFFSIZE
    requires |chunks| <= |p.writes| && forall i | 0 <= i < |chunks| :: p.writes[i]
    ensures Sized(Inputs(chunks))
    ensures var q := OnAll(p, Inputs(chunks), junk);
            q.status == Complete && q.flash == p.flash + Flatten(chunks) && q.length == p.length + |Flatten(chunks)|
    decreases |chunks|
  {
    hide OnAll, Sized;
    InputsSized(chunks);
    if chunks == [] {
      ReceiveEnd(p, junk);
      assert p.flash + [] == p.flash;
      assert Inputs(chunks) == [Closed];
    } else {
      var c, rest := chunks[0], chunks[1..];
      assert c in chunks && forall d <- rest :: d in chunks;
      InputsSized(rest);
      assert Inputs(chunks) == [Data(c)] + Inputs(rest);
      ReceiveOne(p, c, Inputs(rest), junk);
      hide Inputs;
      ReceiveChunks(p.(flash := p.flash + c, length := p.length + |c|, writes := p.writes[1..]), rest, junk);
      assert p.flash + c + Flatten(rest) == p.flash + (c + Flatten(rest));
    }
  }

  /** Chunks one by one, then the end of the connection. */
  function Inputs(chunks: seq<seq<byte>>): (input: seq<Reception>)
    ensures input != []
  {
    if chunks == [] then [Closed] else [Data(chunks[0])] + Inputs(chunks[1..])
  }

  lemma {:induction false} InputsSized(chunks: seq<seq<byte>>)
    requires forall c <- chunks :: 0 < |c| <= TEXT_BUFFSIZE
    ensures Sized(Inputs(chunks))
    decreases |chunks|
  {
    if chunks != [] {
      assert chunks[0] in chunks && forall c <- chunks[1..] :: c in chunks;
      InputsSized(chunks[1..]);
    }
  }

  /** What the first chunk, holding the whole header, leads to. */
  lemma FirstChunk(p: Progress, lines: seq<seq<byte>>, begin: seq<byte>, junk: seq<byte>)
    requires forall l <- lines :: HeaderLine(l)
    requires |Header(lines) + begin| <= TEXT_BUFFSIZE
    requires p.ok200 || Contains200(CString(Padded(Header(lines) + begin)))
    ensures var (q, ok) := Write(p.(ok200 := true), begin);
            OnHeader(p, Header(lines) + begin, junk) == q.(bodyStarted := ok)
  {
    var data := Header(lines) + begin;
    var text := Padded(data);
    assert text[0..|Header(lines)|] == data[..|Header(lines)|] == Header(lines);
    ScanHeader(text, junk, |data|, 0, lines);
    assert data[|Header(lines)|..] == begin;
  }

  /** Stream refinement: when the header lies in the first chunk and all writes succeed,
      what reaches the flash is exactly the body, however it is cut into chunks, if and only
      if "200" is found in the first chunk; otherwise nothing is written at all. */
  lemma StreamRefinement(p: Progress, lines: seq<seq<byte>>, begin: seq<byte>, chunks: seq<seq<byte>>,
                         junk: seq<byte>)
    requires p.status.Receiving? && !p.bodyStarted && !p.ok200
    requires forall l <- lines :: HeaderLine(l)
    requires |Header(lines) + begin| <= TEXT_BUFFSIZE && forall c <- chunks :: 0 < |c| <= TEXT_BUFFSIZE
    requires |chunks| < |p.writes| && forall i | 0 <= i <= |chunks| :: p.writes[i]
    ensures Sized(Inputs([Header(lines) + begin] + chunks))
    ensures var q := OnAll(p, Inputs([Header(lines) + begin] + chunks), junk);
            var body := begin + Flatten(chunks);
            if Contains200(CString(Padded(Header(lines) + begin))) then
              q.status == Complete && q.flash == p.flash + body && q.length == p.length + |body|
            else
              q.status == Aborted && q.flash == p.flash && q.length == p.length
  {
    var first := Header(lines) + begin;
    InputsCons(first, chunks);
    AllSized(first, chunks);
    hide *;
    AfterFirst(p, first, Inputs(chunks), junk);
    if Contains200(CString(Padded(first))) {
      StreamAccepted(p, lines, begin, chunks, junk);
    }
  }

  lemma InputsCons(first: seq<byte>, chunks: seq<seq<byte>>)
    ensures Inputs([first] + chunks) == [Data(first)] + Inputs(chunks)
    ensures !([first] + chunks == [])
  {
    assert ([first] + chunks)[1..] == chunks;
  }

  lemma StreamAccepted(p: Progress, lines: seq<seq<byte>>, begin: seq<byte>, chunks: seq<seq<byte>>, junk: seq<byte>)
    requires p.status.Receiving? && !p.bodyStarted
    requires forall l <- lines :: HeaderLine(l)
    requires |Header(lines) + begin| <= TEXT_BUFFSIZE && forall c <- chunks :: 0 < |c| <= TEXT_BUFFSIZE
    requires |chunks| < |p.writes| && forall i | 0 <= i <= |chunks| :: p.writes[i]
    requires p.ok200 || Contains200(CString(Padded(Header(lines) + begin)))
    ensures Sized(Inputs(chunks))
    ensures var q := OnAll(OnHeader(p, Header(lines) + begin, junk), Inputs(chunks), junk);
            var body := begin + Flatten(chunks);
            Exactly(p, q, body)
  {
    FirstChunk(p, lines, begin, junk);
    var q := p.(ok200 := true, bodyStarted := true, flash := p.flash + begin, length := p.length + |begin|,
        writes := p.writes[1..]);
    assert OnHeader(p, Header(lines) + begin, junk) == q by { hide OnHeader; }
    hide *;
    ReceiveChunks(q, chunks, junk);
    ExactlyTwice(p, begin, q, OnAll(q, Inputs(chunks), junk), Flatten(chunks));
  }

  lemma AllSized(first: seq<byte>, chunks: seq<seq<byte>>)
    requires 0 < |first| <= TEXT_BUFFSIZE && forall c <- chunks :: 0 < |c| <= TEXT_BUFFSIZE
    ensures Sized(Inputs(chunks)) && Sized(Inputs([first] + chunks))
  {
    InputsSized(chunks);
    InputsSized([first] + chunks);
  }

  /** The first receive, then the rest unless it stopped the receiver. */
  lemma AfterFirst(p: Progress, first: seq<byte>, rest: seq<Reception>, junk: seq<byte>)
    requires p.status.Receiving? && !p.bodyStarted && 0 < |first| <= TEXT_BUFFSIZE
    requires Sized(rest) && Sized([Data(first)] + rest)
    ensures OnAll(p, [Data(first)] + rest, junk) == OnAll(OnHeader(p, first, junk), rest, junk)
    ensures !Contains200(CString(Padded(first))) && !p.ok200 ==>
              OnAll(p, [Data(first)] + rest, junk) == p.(status := Aborted)
  {
    var all := [Data(first)] + rest;
    assert all[0] == Data(first) && all[1..] == rest;
  }

  /** A status line with 200 in the header is found, since no NUL comes before it. */
  lemma HeaderHolds200(lines: seq<seq<byte>>, begin: seq<byte>)
    requires forall l <- lines :: HeaderLine(l)
    requires |Header(lines) + begin| <= TEXT_BUFFSIZE && Contains200(Flatten(lines))
    ensures Contains200(CString(Padded(Header(lines) + begin)))
  {
    var text, n := Padded(Header(lines) + begin), |Flatten(lines)|;
    LinesWithoutNul(lines);
    assert text[..n] == Flatten(lines);
    CStringAtLeast(text, n);
    var s := CString(text);
    var i :| 0 <= i < n - 2 && Flatten(lines)[i] == 50 && Flatten(lines)[i + 1] == 48 && Flatten(lines)[i + 2] == 48;
    assert s[i] == text[i] == text[..n][i];
    assert s[i + 1] == text[i + 1] == text[..n][i + 1];
    assert s[i + 2] == text[i + 2] == text[..n][i + 2];
  }

  lemma {:induction false} LinesWithoutNul(lines: seq<seq<byte>>)
    requires forall l <- lines :: HeaderLine(l)
    ensures 0 !in Flatten(lines)
    decreases |lines|
  {
    if lines != [] {
      assert HeaderLine(lines[0]) && forall l <- lines[1..] :: l in lines;
      LinesWithoutNul(lines[1..]);
    }
  }

  lemma CStringAtLeast(s: seq<byte>, n: nat)
    requires n <= |s| && 0 !in s[..n]
    ensures |CString(s)| >= n
  {
    forall k | 0 <= k < n
      ensures s[k] != 0
    {
      assert s[..n][k] in s[..n];
    }
  }

  lemma {:induction false} UntilPasses(text: seq<byte>, junk: seq<byte>, at: nat, len: nat, k: nat, i: nat)
    requires i <= k <= len && at + k <= |text|
    requires forall q | at + i <= q < at + k :: text[q] != LF
    ensures Until(text, junk, at, LF, len, i) > k
    decreases k - i
  {
    if i < k {
      UntilPasses(text, junk, at, len, k, i + 1);
    } else {
      UntilGrows(text, junk, at, LF, len, i);
    }
  }

  /** Whole header lines followed by the beginning of one: no blank line is seen. */
  lemma {:induction false} ScanPartial(text: seq<byte>, junk: seq<byte>, total: nat, at: nat,
                                       lines: seq<seq<byte>>, part: seq<byte>)
    requires forall l <- lines :: HeaderLine(l)
    requires 2 <= |part| && forall k | 0 <= k < |part| :: part[k] != LF && part[k] != 0
    requires at + |Flatten(lines) + part| == total <= |text| && text[at..total] == Flatten(lines) + part
    ensures BodyStart(text, junk, total, at).None?
    decreases |lines|
  {
    if lines == [] {
      assert Flatten(lines) + part == part;
      forall q | at <= q < total
        ensures text[q] == part[q - at]
      {
        assert text[at..total][q - at] == part[q - at];
      }
      UntilPasses(text, junk, at, total, |part|, 0);
    } else {
      var l, rest := lines[0], lines[1..];
      assert HeaderLine(l) && forall m <- rest :: m in lines;
      var all := Flatten(lines) + part;
      assert all == l + (Flatten(rest) + part);
      forall k | 0 <= k < |l|
        ensures text[at + k] == l[k]
      {
        assert text[at..total][k] == all[k];
      }
      LineScanned(text, junk, total, at, l);
      hide BodyStart, HeaderLine;
      Subslice(text, at, total, |l|, |all|);
      assert all[|l|..|all|] == Flatten(rest) + part;
      ScanPartial(text, junk, total, at + |l|, rest, part);
    }
  }

  /** The header must lie in the first chunk: if a chunk boundary cuts a header line right
      before its CR LF, that CR LF is taken for the blank line, and the real blank line goes
      to flash in front of the body. */
  lemma CutHeader(p: Progress, lines: seq<seq<byte>>, part: seq<byte>, begin: seq<byte>, junk: seq<byte>)
    requires p.status.Receiving? && !p.bodyStarted && |p.writes| > 0 && p.writes[0]
    requires forall l <- lines :: HeaderLine(l)
    requires 2 <= |part| && forall k | 0 <= k < |part| :: part[k] != LF && part[k] != 0
    requires |Flatten(lines) + part| <= TEXT_BUFFSIZE && |BLANK_LINE + BLANK_LINE + begin| <= TEXT_BUFFSIZE
    requires Contains200(CString(Padded(Flatten(lines) + part)))
    ensures var q := OnHeader(OnHeader(p, Flatten(lines) + part, junk), BLANK_LINE + (BLANK_LINE + begin), junk);
            q.bodyStarted && q.flash == p.flash + (BLANK_LINE + begin)
  {
    var data := Flatten(lines) + part;
    assert Padded(data)[0..|data|] == data;
    ScanPartial(Padded(data), junk, |data|, 0, lines, part);
    assert Header([]) == BLANK_LINE;
    FirstChunk(OnHeader(p, data, junk), [], BLANK_LINE + begin, junk);
  }

  // ---------------------------------------------------------------- every way to cut a response

  /** What is left of a header line once its beginning has been received. */
  predicate TailLine(part: seq<byte>) {
    part == [] || (part[|part| - 1] == LF && forall k | 0 <= k < |part| - 1 :: part[k] != LF && part[k] != 0)
  }

  /** Where the header may be cut: what is left of it must not begin with two bytes that look
      like a whole line, unless it is the blank line. */
  predicate SafeStart(rest: seq<byte>) {
    2 <= |rest| && (rest[1] == LF ==> |rest| == 2)
  }

  /** Chunks that begin with what is left of the header: every cut inside the header is safe,
      and no chunk is a lone byte of it, other than a line feed. */
  predicate SafeChunks(rest: seq<byte>, chunks: seq<seq<byte>>) {
    && chunks != [] && SafeStart(rest)
    && (|chunks[0]| < |rest| ==>
          (|chunks[0]| != 1 || rest[0] == LF) && SafeChunks(rest[|chunks[0]|..], chunks[1..]))
  }

  /** The receiver took in the whole connection and wrote exactly the body. */
  predicate Exactly(p: Progress, q: Progress, body: seq<byte>) {
    q.status == Complete && q.flash == p.flash + body && q.length == p.length + |body|
  }

  /** A line whose end has not been received is not taken for a blank line. */
  lemma LineUnfinished(data: seq<byte>, junk: seq<byte>, at: nat)
    requires 2 <= |data| <= TEXT_BUFFSIZE && at < |data|
    requires forall k | at <= k < |data| :: data[k] != LF
    ensures BodyStart(Padded(data), junk, |data|, at).None?
  {
    var text := Padded(data);
    assert forall k | 0 <= k < |data| :: text[k] == data[k];
    var length := Until(text, junk, at, LF, |data|, 0);
    if at + 1 == |data| {
      UntilPasses(text, junk, at, |data|, 2, 0);
    } else {
      UntilPasses(text, junk, at, |data|, |data| - at, 0);
    }
  }

  /** Less than a header: no blank line is seen. */
  lemma {:induction false} ScanCut(data: seq<byte>, junk: seq<byte>, at: nat, lines: seq<seq<byte>>)
    requires forall l <- lines :: HeaderLine(l)
    requires 2 <= |data| <= TEXT_BUFFSIZE && at <= |data|
    requires data[at..] <= Header(lines) && |data| - at < |Header(lines)|
    ensures BodyStart(Padded(data), junk, |data|, at).None?
    decreases |lines|
  {
    hide BodyStart, Padded;
    var left := |data| - at;
    if left == 0 {
      NothingLeft(data, junk);
    } else if lines == [] {
      assert Header(lines) == BLANK_LINE && data[at] == data[at..][0] == CR;
      LineUnfinished(data, junk, at);
    } else {
      var l, rest := lines[0], lines[1..];
      assert HeaderLine(l) && forall m <- rest :: m in lines;
      assert Header(lines) == l + Header(rest);
      LineHere(data, at, l, Header(rest));
      if left < |l| {
        LineUnfinished(data, junk, at);
      } else {
        PaddedKeeps(data);
        LineScanned(Padded(data), junk, |data|, at, l);
        ScanCut(data, junk, at + |l|, rest);
      }
    }
  }

  lemma NothingLeft(data: seq<byte>, junk: seq<byte>)
    requires |data| <= TEXT_BUFFSIZE
    ensures BodyStart(Padded(data), junk, |data|, |data|).None?
  {
  }

  lemma PaddedKeeps(data: seq<byte>)
    requires |data| <= TEXT_BUFFSIZE
    ensures forall k | 0 <= k < |data| :: Padded(data)[k] == data[k]
  {
    assert forall k | 0 <= k < |data| :: Padded(data)[..|data|][k] == data[k];
  }

  /** The beginning of a line and what follows it, as far as it has been received. */
  lemma LineHere(data: seq<byte>, at: nat, l: seq<byte>, rest: seq<byte>)
    requires at <= |data| && data[at..] <= l + rest
    ensures forall k | 0 <= k < |l| && at + k < |data| :: data[at + k] == l[k]
    ensures forall k | at <= k < |data| && k < at + |l| :: data[k] == l[k - at]
    ensures at + |l| <= |data| ==> data[at + |l|..] <= rest
  {
    var all := l + rest;
    assert forall k | 0 <= k < |data| - at :: data[at + k] == data[at..][k] == all[k];
  }

  /** The rest of a header, all of it received. */
  lemma ScanWhole(data: seq<byte>, junk: seq<byte>, part: seq<byte>, lines: seq<seq<byte>>)
    requires TailLine(part) && forall l <- lines :: HeaderLine(l)
    requires |data| <= TEXT_BUFFSIZE && part + Header(lines) <= data && SafeStart(part + Header(lines))
    ensures BodyStart(Padded(data), junk, |data|, 0) == Some(|part + Header(lines)|)
  {
    var text, rest := Padded(data), part + Header(lines);
    assert text[|part|..|rest|] == data[|part|..|rest|] == rest[|part|..] == Header(lines);
    ScanHeader(text, junk, |data|, |part|, lines);
    if part != [] {
      FirstLine(data, junk, part);
      assert rest[1] == data[1];
    }
  }

  /** The scan steps over the end of a line, unless that is two bytes long. */
  lemma FirstLine(data: seq<byte>, junk: seq<byte>, part: seq<byte>)
    requires TailLine(part) && part != [] && part <= data && |data| <= TEXT_BUFFSIZE
    ensures BodyStart(Padded(data), junk, |data|, 0)
            == if |part| == 2 then Some(2) else BodyStart(Padded(data), junk, |data|, |part|)
    ensures |part| == 2 ==> data[1] == LF
  {
    var text := Padded(data);
    assert forall k | 0 <= k < |part| :: text[k] == data[k] == part[k];
    UntilFinds(text, junk, 0, |data|, |part| - 1, 0);
  }

  /** The rest of a header, cut once more. */
  lemma ScanAgainCut(data: seq<byte>, junk: seq<byte>, part: seq<byte>, lines: seq<seq<byte>>)
    requires TailLine(part) && forall l <- lines :: HeaderLine(l)
    requires 0 < |data| <= TEXT_BUFFSIZE && data <= part + Header(lines) && |data| < |part + Header(lines)|
    requires SafeStart(part + Header(lines)) && (|data| != 1 || data[0] == LF)
    ensures BodyStart(Padded(data), junk, |data|, 0).None?
  {
    var rest := part + Header(lines);
    assert forall k | 0 <= k < |data| :: data[k] == rest[k];
    if |data| == 1 {
      assert Padded(data)[0] == LF;
      UntilFinds(Padded(data), junk, 0, 1, 0, 0);
    } else if |data| < |part| {
      LineUnfinished(data, junk, 0);
    } else {
      assert data[|part|..] == rest[..|data|][|part|..] <= Header(lines);
      ScanCut(data, junk, |part|, lines);
      if part != [] {
        FirstLine(data, junk, part);
      }
    }
  }

  /** What is left of the header after a cut, if that is more than a line feed. */
  lemma {:induction false} CutLines(lines: seq<seq<byte>>, k: nat) returns (part: seq<byte>, rest: seq<seq<byte>>)
    requires (forall l <- lines :: HeaderLine(l)) && k + 2 <= |Header(lines)|
    ensures TailLine(part) && (forall l <- rest :: HeaderLine(l)) && Header(lines)[k..] == part + Header(rest)
    decreases |lines|
  {
    if lines == [] {
      part, rest := [], [];
      assert k == 0;
    } else {
      var l, more := lines[0], lines[1..];
      assert HeaderLine(l) && forall m <- more :: m in lines;
      assert Header(lines) == l + Header(more);
      if k < |l| {
        part, rest := l[k..], more;
      } else {
        part, rest := CutLines(more, k - |l|);
        assert Header(lines)[k..] == Header(more)[k - |l|..];
      }
    }
  }

  lemma {:induction false} StartLater(text: seq<byte>, junk: seq<byte>, total: nat, i: nat)
    ensures var start := BodyStart(text, junk, total, i); start.Some? ==> start.value >= i + 2
    decreases total - i
  {
    if At(text, i, junk) != 0 && i < total {
      UntilGrows(text, junk, i, LF, total, 0);
      var length := Until(text, junk, i, LF, total, 0);
      if length != 2 {
        StartLater(text, junk, total, i + length);
      }
    }
  }

  lemma OnInputs(p: Progress, chunks: seq<seq<byte>>, junk: seq<byte>)
    requires p.status.Receiving? && chunks != [] && forall c <- chunks :: 0 < |c| <= TEXT_BUFFSIZE
    ensures 0 < |chunks[0]| <= TEXT_BUFFSIZE && Sized(Inputs(chunks)) && Sized(Inputs(chunks[1..]))
    ensures OnAll(p, Inputs(chunks), junk) == OnAll(OnReceived(p, Data(chunks[0]), junk), Inputs(chunks[1..]), junk)
  {
    InputsSized(chunks);
    InputsSized(chunks[1..]);
    assert chunks[0] in chunks;
    var input := Inputs(chunks);
    assert input[0] == Data(chunks[0]) && input[1..] == Inputs(chunks[1..]);
  }

  /** A chunk adds at most itself, and less while the header is still expected. */
  lemma OneGain(p: Progress, c: seq<byte>, junk: seq<byte>)
    requires 0 < |c| <= TEXT_BUFFSIZE
    ensures |OnReceived(p, Data(c), junk).flash| <= |p.flash| + |c|
    ensures !p.bodyStarted ==> |OnReceived(p, Data(c), junk).flash| < |p.flash| + |c|
  {
    StartLater(Padded(c), junk, |c|, 0);
    hide BodyStart, Contains200, CString, Padded;
  }

  /** Never more is written than is received. */
  lemma {:induction false} NoGain(p: Progress, chunks: seq<seq<byte>>, junk: seq<byte>)
    requires forall c <- chunks :: 0 < |c| <= TEXT_BUFFSIZE
    ensures Sized(Inputs(chunks))
    ensures |OnAll(p, Inputs(chunks), junk).flash| <= |p.flash| + |Flatten(chunks)|
    decreases |chunks|
  {
    hide OnAll, OnReceived, Sized, Inputs;
    InputsSized(chunks);
    if !p.status.Receiving? {
      Stopped(p, Inputs(chunks), junk);
    } else if chunks == [] {
      ReceiveEnd(p, junk);
      assert Inputs(chunks) == [Closed] by { InputsNone(); }
    } else {
      OnInputs(p, chunks, junk);
      assert forall c <- chunks[1..] :: c in chunks;
      OneGain(p, chunks[0], junk);
      NoGain(OnReceived(p, Data(chunks[0]), junk), chunks[1..], junk);
    }
  }

  lemma InputsNone()
    ensures Inputs([]) == [Closed]
  {
  }

  /** And less, as long as the header is still expected. */
  lemma HeaderLoses(p: Progress, chunks: seq<seq<byte>>, junk: seq<byte>)
    requires p.status.Receiving? && !p.bodyStarted && chunks != [] && forall c <- chunks :: 0 < |c| <= TEXT_BUFFSIZE
    ensures Sized(Inputs(chunks))
    ensures |OnAll(p, Inputs(chunks), junk).flash| < |p.flash| + |Flatten(chunks)|
  {
    hide OnAll, OnReceived, Sized, Inputs;
    OnInputs(p, chunks, junk);
    assert forall c <- chunks[1..] :: c in chunks;
    OneGain(p, chunks[0], junk);
    NoGain(OnReceived(p, Data(chunks[0]), junk), chunks[1..], junk);
  }

  /** A cut between the two bytes of the blank line: the line feed is a line by itself, and the
      body is searched for a blank line. */
  lemma BlankLineCut(p: Progress, chunks: seq<seq<byte>>, body: seq<byte>, junk: seq<byte>)
    requires p.status.Receiving? && !p.bodyStarted && p.ok200 && body != []
    requires (forall c <- chunks :: 0 < |c| <= TEXT_BUFFSIZE) && Flatten(chunks) == [LF] + body
    ensures Sized(Inputs(chunks)) && !Exactly(p, OnAll(p, Inputs(chunks), junk), body)
  {
    var c, rest := chunks[0], chunks[1..];
    OnInputs(p, chunks, junk);
    assert forall d <- rest :: d in chunks;
    var q := OnReceived(p, Data(c), junk);
    assert c[0] == Flatten(chunks)[0] == LF;
    assert Padded(c)[0] == LF;
    UntilFinds(Padded(c), junk, 0, |c|, 0, 0);
    StartLater(Padded(c), junk, |c|, 1);
    NoGain(q, rest, junk);
    if |c| == 1 {
      assert q == p && |Flatten(rest)| == |body|;
      HeaderLoses(p, rest, junk);
    }
  }

  /** A lone byte of the header, or a cut that leaves two bytes of a line. */
  lemma UnsafeCut(p: Progress, part: seq<byte>, lines: seq<seq<byte>>, chunks: seq<seq<byte>>, body: seq<byte>,
                  junk: seq<byte>)
    requires p.status.Receiving? && !p.bodyStarted && p.ok200 && body != []
    requires TailLine(part) && forall l <- lines :: HeaderLine(l)
    requires (forall c <- chunks :: 0 < |c| <= TEXT_BUFFSIZE) && Flatten(chunks) == part + Header(lines) + body
    requires |chunks| <= |p.writes| && forall i | 0 <= i < |chunks| :: p.writes[i]
    requires chunks != []
    requires !SafeStart(part + Header(lines)) || (|chunks[0]| == 1 && (part + Header(lines))[0] != LF)
    ensures Sized(Inputs(chunks)) && !Exactly(p, OnAll(p, Inputs(chunks), junk), body)
  {
    var c, rest, header := chunks[0], chunks[1..], part + Header(lines);
    OnInputs(p, chunks, junk);
    RestStarts(part, lines);
    assert forall k | 0 <= k < |c| && k < |header| :: c[k] == Flatten(chunks)[k] == header[k];
    if |c| == 1 {
      LoneByteMisread(c[0], junk);
      assert c == [c[0]];
    } else {
      FirstLine(c, junk, part);
      BodyFollows(p, c, 2, rest, junk);
    }
  }

  /** The rest of a header has at least two bytes, the first no NUL; if it starts like a whole
      line of two bytes, that is the end of a line. */
  lemma RestStarts(part: seq<byte>, lines: seq<seq<byte>>)
    requires TailLine(part) && forall l <- lines :: HeaderLine(l)
    ensures var rest := part + Header(lines);
            && 2 <= |rest| && rest[0] != 0
            && (!SafeStart(rest) ==> |part| == 2 && rest[0] != LF)
  {
    if lines != [] {
      assert HeaderLine(lines[0]);
      assert Header(lines) == lines[0] + Header(lines[1..]);
    }
  }

  /** The header ends in this chunk, and everything else is taken for the body. */
  lemma BodyFollows(p: Progress, c: seq<byte>, start: nat, rest: seq<seq<byte>>, junk: seq<byte>)
    requires p.status.Receiving? && !p.bodyStarted && p.ok200
    requires 0 < |c| <= TEXT_BUFFSIZE && forall d <- rest :: 0 < |d| <= TEXT_BUFFSIZE
    requires |rest| < |p.writes| && forall i | 0 <= i <= |rest| :: p.writes[i]
    requires BodyStart(Padded(c), junk, |c|, 0) == Some(start) && start <= |c|
    ensures Sized(Inputs(rest))
    ensures Exactly(p, OnAll(OnReceived(p, Data(c), junk), Inputs(rest), junk), c[start..] + Flatten(rest))
  {
    HeaderEnds(p, c, start, junk);
    var q := p.(bodyStarted := true, flash := p.flash + c[start..], length := p.length + |c| - start,
        writes := p.writes[1..]);
    hide *;
    ReceiveChunks(q, rest, junk);
    ExactlyTwice(p, c[start..], q, OnAll(q, Inputs(rest), junk), Flatten(rest));
  }

  lemma ExactlyTwice(p: Progress, first: seq<byte>, q: Progress, r: Progress, rest: seq<byte>)
    requires q.flash == p.flash + first && q.length == p.length + |first|
    requires r.status == Complete && r.flash == q.flash + rest && r.length == q.length + |rest|
    ensures Exactly(p, r, first + rest)
  {
    assert p.flash + first + rest == p.flash + (first + rest);
  }

  lemma HeaderEnds(p: Progress, c: seq<byte>, start: nat, junk: seq<byte>)
    requires p.status.Receiving? && !p.bodyStarted && p.ok200 && p.writes != [] && p.writes[0]
    requires 0 < |c| <= TEXT_BUFFSIZE && BodyStart(Padded(c), junk, |c|, 0) == Some(start) && start <= |c|
    ensures OnReceived(p, Data(c), junk)
            == p.(bodyStarted := true, flash := p.flash + c[start..], length := p.length + |c| - start,
                writes := p.writes[1..])
  {
    hide BodyStart, CString, Padded, Contains200;
  }

  lemma HeaderContinues(p: Progress, c: seq<byte>, junk: seq<byte>)
    requires !p.bodyStarted && p.ok200 && 0 < |c| <= TEXT_BUFFSIZE && BodyStart(Padded(c), junk, |c|, 0).None?
    ensures OnReceived(p, Data(c), junk) == p
  {
    hide BodyStart, CString, Padded, Contains200;
  }

  /** From anywhere in the header on. */
  lemma {:induction false} ChunksExactly(p: Progress, part: seq<byte>, lines: seq<seq<byte>>, chunks: seq<seq<byte>>,
                                         body: seq<byte>, junk: seq<byte>)
    requires p.status.Receiving? && !p.bodyStarted && p.ok200 && body != []
    requires TailLine(part) && forall l <- lines :: HeaderLine(l)
    requires (forall c <- chunks :: 0 < |c| <= TEXT_BUFFSIZE) && Flatten(chunks) == part + Header(lines) + body
    requires |chunks| <= |p.writes| && forall i | 0 <= i < |chunks| :: p.writes[i]
    ensures Sized(Inputs(chunks))
    ensures Exactly(p, OnAll(p, Inputs(chunks), junk), body) <==> SafeChunks(part + Header(lines), chunks)
    decreases |chunks|, 0
  {
    hide OnAll, OnReceived, Sized, Inputs, BodyStart, Padded, SafeStart, SafeChunks, HeaderLine, TailLine, Exactly;
    var header := part + Header(lines);
    var c, rest := chunks[0], chunks[1..];
    OnInputs(p, chunks, junk);
    assert forall d <- rest :: d in chunks;
    RestStarts(part, lines);
    SafeStep(header, chunks);
    hide Header;
    Divided(header, body, c, Flatten(rest));
    if !SafeStart(header) || (|c| == 1 && header[0] != LF) {
      UnsafeCut(p, part, lines, chunks, body, junk);
    } else if |c| >= |header| {
      ScanWhole(c, junk, part, lines);
      BodyFollows(p, c, |header|, rest, junk);
    } else {
      ScanAgainCut(c, junk, part, lines);
      HeaderContinues(p, c, junk);
      CutAgain(p, part, lines, |c|, rest, body, junk);
    }
  }

  lemma SafeStep(rest: seq<byte>, chunks: seq<seq<byte>>)
    requires chunks != [] && 2 <= |rest|
    ensures SafeChunks(rest, chunks)
            <==> SafeStart(rest)
                 && (|chunks[0]| < |rest| ==>
                       (|chunks[0]| != 1 || rest[0] == LF) && SafeChunks(rest[|chunks[0]|..], chunks[1..]))
  {
  }

  /** A chunk and what follows it, against a header and what follows that. */
  lemma Divided(header: seq<byte>, body: seq<byte>, c: seq<byte>, rest: seq<byte>)
    requires c + rest == header + body
    ensures |c| >= |header| ==> header <= c && c[|header|..] + rest == body
    ensures |c| < |header| ==> c == header[..|c|] && rest == header[|c|..] + body
    ensures c != [] && header != [] ==> c[0] == header[0]
  {
    if |c| >= |header| {
      assert header == (header + body)[..|header|] == c[..|header|];
      assert c[|header|..] + rest == (header + body)[|header|..] == body;
    } else {
      assert c == (header + body)[..|c|] == header[..|c|];
      assert rest == (header + body)[|c|..] == header[|c|..] + body;
    }
  }

  /** One chunk further. */
  lemma {:induction false} CutAgain(p: Progress, part: seq<byte>, lines: seq<seq<byte>>, k: nat, rest: seq<seq<byte>>,
                                    body: seq<byte>, junk: seq<byte>)
    requires p.status.Receiving? && !p.bodyStarted && p.ok200 && body != []
    requires TailLine(part) && forall l <- lines :: HeaderLine(l)
    requires k < |part + Header(lines)| && Flatten(rest) == (part + Header(lines))[k..] + body
    requires forall c <- rest :: 0 < |c| <= TEXT_BUFFSIZE
    requires |rest| <= |p.writes| && forall i | 0 <= i < |rest| :: p.writes[i]
    ensures Sized(Inputs(rest))
    ensures Exactly(p, OnAll(p, Inputs(rest), junk), body) <==> SafeChunks((part + Header(lines))[k..], rest)
    decreases |rest|, 1
  {
    hide OnAll, Sized, Inputs, SafeStart, SafeChunks, HeaderLine, TailLine, Exactly, Header;
    var header := part + Header(lines);
    if k + 1 == |header| {
      LastByte(part, lines);
      NotSafe(rest);
      BlankLineCut(p, rest, body, junk);
    } else {
      var part', lines' := RestOf(part, lines, k);
      ChunksExactly(p, part', lines', rest, body, junk);
    }
  }

  lemma LastByte(part: seq<byte>, lines: seq<seq<byte>>)
    ensures var header := part + Header(lines); |header| >= 2 && header[|header| - 1..] == [LF]
  {
    var header := part + Header(lines);
    assert header[|header| - 1] == Header(lines)[|Header(lines)| - 1] == LF;
  }

  lemma NotSafe(chunks: seq<seq<byte>>)
    ensures !SafeChunks([LF], chunks)
  {
  }

  /** What is left of a header after a cut, again as the end of a line and whole lines. */
  lemma RestOf(part: seq<byte>, lines: seq<seq<byte>>, k: nat) returns (part': seq<byte>, lines': seq<seq<byte>>)
    requires TailLine(part) && (forall l <- lines :: HeaderLine(l)) && k + 2 <= |part + Header(lines)|
    ensures TailLine(part') && (forall l <- lines' :: HeaderLine(l))
    ensures (part + Header(lines))[k..] == part' + Header(lines')
  {
    var header := part + Header(lines);
    if k < |part| {
      part', lines' := part[k..], lines;
      assert header[k..] == part[k..] + Header(lines);
    } else {
      part', lines' := CutLines(lines, k - |part|);
      assert header[k..] == Header(lines)[k - |part|..];
    }
  }

  /** Exactly when the update is received: for every way to cut a response with a non-empty
      body into chunks, if all writes succeed, exactly the body reaches the flash if and only
      if "200" is found in the first chunk and every cut inside the header is safe. */
  lemma StreamExactly(p: Progress, lines: seq<seq<byte>>, chunks: seq<seq<byte>>, body: seq<byte>, junk: seq<byte>)
    requires p.status.Receiving? && !p.bodyStarted && !p.ok200 && body != []
    requires forall l <- lines :: HeaderLine(l)
    requires (forall c <- chunks :: 0 < |c| <= TEXT_BUFFSIZE) && Flatten(chunks) == Header(lines) + body
    requires |chunks| <= |p.writes| && forall i | 0 <= i < |chunks| :: p.writes[i]
    ensures chunks != [] && Sized(Inputs(chunks))
    ensures Exactly(p, OnAll(p, Inputs(chunks), junk), body)
            <==> Contains200(CString(Padded(chunks[0]))) && SafeChunks(Header(lines), chunks)
  {
    var found := p.(ok200 := true);
    assert [] + Header(lines) == Header(lines) && TailLine([]);
    NonEmptyResponse(lines, chunks, body);
    ChunksExactly(found, [], lines, chunks, body, junk);
    hide OnAll, Inputs, SafeChunks, Header, BodyStart, Padded, CString, Contains200, HeaderLine, Flatten;
    if Contains200(CString(Padded(chunks[0]))) {
      Found200(p, chunks, junk);
    } else {
      Missing200(p, chunks, junk);
    }
  }

  lemma NonEmptyResponse(lines: seq<seq<byte>>, chunks: seq<seq<byte>>, body: seq<byte>)
    requires (forall c <- chunks :: 0 < |c| <= TEXT_BUFFSIZE) && Flatten(chunks) == Header(lines) + body
    ensures chunks != [] && 0 < |chunks[0]| <= TEXT_BUFFSIZE
  {
    assert chunks != [] && chunks[0] in chunks;
  }

  /** "200" in the first chunk: from then on it does not matter. */
  lemma Found200(p: Progress, chunks: seq<seq<byte>>, junk: seq<byte>)
    requires p.status.Receiving? && !p.bodyStarted && chunks != [] && forall c <- chunks :: 0 < |c| <= TEXT_BUFFSIZE
    requires 0 < |chunks[0]| <= TEXT_BUFFSIZE && Contains200(CString(Padded(chunks[0])))
    ensures Sized(Inputs(chunks)) && OnAll(p, Inputs(chunks), junk) == OnAll(p.(ok200 := true), Inputs(chunks), junk)
  {
    OnInputs(p, chunks, junk);
    OnInputs(p.(ok200 := true), chunks, junk);
    hide OnAll, Inputs, BodyStart, Padded, CString, Contains200;
  }

  lemma Missing200(p: Progress, chunks: seq<seq<byte>>, junk: seq<byte>)
    requires p.status.Receiving? && !p.bodyStarted && !p.ok200 && chunks != []
    requires forall c <- chunks :: 0 < |c| <= TEXT_BUFFSIZE
    requires 0 < |chunks[0]| <= TEXT_BUFFSIZE && !Contains200(CString(Padded(chunks[0])))
    ensures Sized(Inputs(chunks)) && OnAll(p, Inputs(chunks), junk).status == Aborted
  {
    OnInputs(p, chunks, junk);
    hide OnAll, Inputs, BodyStart, Padded, CString, Contains200;
    Stopped(p.(status := Aborted), Inputs(chunks[1..]), junk);
  }

  lemma Stopped(p: Progress, input: seq<Reception>, junk: seq<byte>)
    requires Sized(input) && !p.status.Receiving?
    ensures OnAll(p, input, junk) == p
  {
  }

  /** A header cut once: which cuts are safe. Not those inside the blank line, and not those
      that leave two bytes of a line. */
  lemma CutExactly(p: Progress, lines: seq<seq<byte>>, k: nat, begin: seq<byte>, chunks: seq<seq<byte>>,
                   junk: seq<byte>)
    requires p.status.Receiving? && !p.bodyStarted && !p.ok200 && begin + Flatten(chunks) != []
    requires forall l <- lines :: HeaderLine(l)
    requires 0 < k < |Header(lines)| && k <= TEXT_BUFFSIZE && |Header(lines)[k..] + begin| <= TEXT_BUFFSIZE
    requires forall c <- chunks :: 0 < |c| <= TEXT_BUFFSIZE
    requires |chunks| + 2 <= |p.writes| && forall i | 0 <= i < |chunks| + 2 :: p.writes[i]
    requires Contains200(CString(Padded(Header(lines)[..k])))
    ensures var header := Header(lines);
            var input := Inputs([header[..k], header[k..] + begin] + chunks);
            && Sized(input)
            && (Exactly(p, OnAll(p, input, junk), begin + Flatten(chunks))
                <==> k == |header| - 2 || (k < |header| - 2 && header[k + 1] != LF))
  {
    var header := Header(lines);
    var a, b := header[..k], header[k..] + begin;
    var all := [a, b] + chunks;
    assert all[1..] == [b] + chunks && ([b] + chunks)[1..] == chunks;
    assert Flatten(all) == a + (b + Flatten(chunks)) == header + (begin + Flatten(chunks));
    CutTwice(lines, k, all);
    hide SafeChunks, Flatten, Inputs, OnAll, HeaderLine;
    StreamExactly(p, lines, all, begin + Flatten(chunks), junk);
  }

  lemma CutTwice(lines: seq<seq<byte>>, k: nat, chunks: seq<seq<byte>>)
    requires (forall l <- lines :: HeaderLine(l)) && 0 < k < |Header(lines)| && 2 <= |chunks|
    requires chunks[0] == Header(lines)[..k] && Header(lines)[k..] <= chunks[1]
    requires k <= TEXT_BUFFSIZE && Contains200(CString(Padded(chunks[0])))
    ensures var header := Header(lines);
            SafeChunks(header, chunks) <==> k == |header| - 2 || (k < |header| - 2 && header[k + 1] != LF)
  {
    var header := Header(lines);
    RestStarts([], lines);
    assert [] + header == header;
    ThreeBytes(chunks[0]);
    assert chunks[1..][0] == chunks[1];
    assert SafeChunks(header, chunks) <==> SafeChunks(header[k..], chunks[1..]);
    assert SafeChunks(header[k..], chunks[1..]) <==> SafeStart(header[k..]);
  }

  lemma ThreeBytes(data: seq<byte>)
    requires |data| <= TEXT_BUFFSIZE && Contains200(CString(Padded(data)))
    ensures 3 <= |data|
  {
    var s := CString(Padded(data));
    var i :| 0 <= i < |s| - 2 && s[i] == 50 && s[i + 1] == 48 && s[i + 2] == 48;
    assert s[i + 2] == Padded(data)[i + 2];
  }

  // ---------------------------------------------------------------- writes that fail

  predicate Succeed(writes: seq<bool>, n: nat) {
    n <= |writes| && forall i | 0 <= i < n :: writes[i]
  }

  /** A failing write of the body stops the receiver. */
  lemma {:induction false} BodyWriteFails(p: Progress, chunks: seq<seq<byte>>, junk: seq<byte>)
    requires p.status.Receiving? && p.bodyStarted && !Succeed(p.writes, |chunks|)
    requires forall c <- chunks :: 0 < |c| <= TEXT_BUFFSIZE
    ensures Sized(Inputs(chunks)) && OnAll(p, Inputs(chunks), junk).status == Aborted
    decreases |chunks|
  {
    OnInputs(p, chunks, junk);
    hide OnAll, Inputs, Sized;
    var q := OnReceived(p, Data(chunks[0]), junk);
    assert forall c <- chunks[1..] :: c in chunks;
    if p.writes != [] && p.writes[0] {
      BodyWriteFails(q, chunks[1..], junk);
    } else {
      Stopped(q, Inputs(chunks[1..]), junk);
    }
  }

  /** A failing write of what follows the header does not: the header is still expected. */
  lemma HeaderWriteFails(p: Progress, c: seq<byte>, start: nat, junk: seq<byte>)
    requires p.status.Receiving? && !p.bodyStarted && p.ok200 && !(p.writes != [] && p.writes[0])
    requires 0 < |c| <= TEXT_BUFFSIZE && BodyStart(Padded(c), junk, |c|, 0) == Some(start) && start <= |c|
    ensures OnReceived(p, Data(c), junk) == p.(writes := if p.writes == [] then [] else p.writes[1..])
  {
    hide BodyStart, CString, Padded, Contains200;
  }

  /** The chunks from the one on in which the header ends. */
  function BodyChunks(header: seq<byte>, chunks: seq<seq<byte>>): nat {
    if chunks == [] then 0
    else if |chunks[0]| >= |header| then |chunks|
    else BodyChunks(header[|chunks[0]|..], chunks[1..])
  }

  /** What the writes decide, once all cuts are safe: exactly the body is written if and only
      if all writes succeed; and if the receiver completes, if and only if the first does. */
  predicate WritesDecide(p: Progress, q: Progress, body: seq<byte>, count: nat) {
    && (Exactly(p, q, body) <==> Succeed(p.writes, count))
    && (q.status == Complete ==> (Exactly(p, q, body) <==> p.writes != [] && p.writes[0]))
  }

  lemma SucceedShift(writes: seq<bool>, n: nat)
    ensures Succeed(writes, n + 1) <==> writes != [] && writes[0] && Succeed(writes[1..], n)
  {
    if writes != [] && writes[0] && Succeed(writes[1..], n) {
      forall i | 0 <= i < n + 1
        ensures writes[i]
      {
        assert i > 0 ==> writes[1..][i - 1];
      }
    }
  }

  /** The chunk in which the header ends, and those behind it. */
  lemma BodyWrites(p: Progress, c: seq<byte>, start: nat, rest: seq<seq<byte>>, junk: seq<byte>)
    requires p.status.Receiving? && !p.bodyStarted && p.ok200
    requires 0 < |c| <= TEXT_BUFFSIZE && forall d <- rest :: 0 < |d| <= TEXT_BUFFSIZE
    requires start <= |c| && BodyStart(Padded(c), junk, |c|, 0) == Some(start)
    requires c[start..] + Flatten(rest) != []
    ensures Sized(Inputs(rest))
    ensures var q := OnAll(OnReceived(p, Data(c), junk), Inputs(rest), junk);
            WritesDecide(p, q, c[start..] + Flatten(rest), |rest| + 1)
  {
    InputsSized(rest);
    SucceedShift(p.writes, |rest|);
    if Succeed(p.writes, |rest| + 1) {
      BodyFollows(p, c, start, rest, junk);
    } else if p.writes != [] && p.writes[0] {
      HeaderEnds(p, c, start, junk);
      hide *;
      BodyWriteFails(OnReceived(p, Data(c), junk), rest, junk);
      NotComplete(p, OnAll(OnReceived(p, Data(c), junk), Inputs(rest), junk), c[start..] + Flatten(rest), |rest| + 1);
    } else {
      HeaderWriteFails(p, c, start, junk);
      hide OnAll, OnReceived, Inputs, Sized, BodyStart, Padded, Flatten;
      NothingExact(p, OnReceived(p, Data(c), junk), rest, c[start..] + Flatten(rest), junk);
    }
  }

  lemma NotComplete(p: Progress, q: Progress, body: seq<byte>, count: nat)
    requires q.status == Aborted && !Succeed(p.writes, count)
    ensures WritesDecide(p, q, body, count)
  {
  }

  lemma NothingExact(p: Progress, q: Progress, rest: seq<seq<byte>>, body: seq<byte>, junk: seq<byte>)
    requires q.status.Receiving? && !q.bodyStarted && q.flash == p.flash && body != [] && |Flatten(rest)| <= |body|
    requires forall d <- rest :: 0 < |d| <= TEXT_BUFFSIZE
    ensures Sized(Inputs(rest)) && !Exactly(p, OnAll(q, Inputs(rest), junk), body)
  {
    hide OnAll, Inputs, Sized, Flatten;
    if rest == [] {
      InputsNone();
      ReceiveEnd(q, junk);
    } else {
      HeaderLoses(q, rest, junk);
    }
  }

  lemma {:induction false} ChunksWritten(p: Progress, part: seq<byte>, lines: seq<seq<byte>>, chunks: seq<seq<byte>>,
                                         body: seq<byte>, junk: seq<byte>)
    requires p.status.Receiving? && !p.bodyStarted && p.ok200 && body != []
    requires TailLine(part) && forall l <- lines :: HeaderLine(l)
    requires (forall c <- chunks :: 0 < |c| <= TEXT_BUFFSIZE) && Flatten(chunks) == part + Header(lines) + body
    requires SafeChunks(part + Header(lines), chunks)
    ensures Sized(Inputs(chunks))
    ensures WritesDecide(p, OnAll(p, Inputs(chunks), junk), body, BodyChunks(part + Header(lines), chunks))
    decreases |chunks|
  {
    hide OnAll, OnReceived, Sized, Inputs, BodyStart, Padded, SafeStart, SafeChunks, HeaderLine, TailLine, Exactly,
         WritesDecide;
    var header := part + Header(lines);
    RestStarts(part, lines);
    var c, rest := chunks[0], chunks[1..];
    OnInputs(p, chunks, junk);
    assert forall d <- rest :: d in chunks;
    SafeStep(header, chunks);
    hide Header;
    Divided(header, body, c, Flatten(rest));
    if |c| >= |header| {
      ScanWhole(c, junk, part, lines);
      BodyWrites(p, c, |header|, rest, junk);
    } else {
      ScanAgainCut(c, junk, part, lines);
      HeaderContinues(p, c, junk);
      SafeLength(header[|c|..], rest);
      var part', lines' := RestOf(part, lines, |c|);
      ChunksWritten(p, part', lines', rest, body, junk);
    }
  }

  lemma SafeLength(rest: seq<byte>, chunks: seq<seq<byte>>)
    requires SafeChunks(rest, chunks)
    ensures |rest| >= 2
  {
  }

  /** Whatever writes fail: when "200" is found and every cut inside the header is safe, exactly
      the body reaches the flash if and only if the writes succeed from the chunk on in which
      the header ends. A failing write of a later chunk stops the receiver, but not one of that
      chunk: when the receiver completes, it has written exactly the body if and only if that
      first write succeeded. */
  lemma StreamWritten(p: Progress, lines: seq<seq<byte>>, chunks: seq<seq<byte>>, body: seq<byte>, junk: seq<byte>)
    requires p.status.Receiving? && !p.bodyStarted && body != []
    requires forall l <- lines :: HeaderLine(l)
    requires (forall c <- chunks :: 0 < |c| <= TEXT_BUFFSIZE) && Flatten(chunks) == Header(lines) + body
    requires SafeChunks(Header(lines), chunks) && chunks != []
    requires 0 < |chunks[0]| <= TEXT_BUFFSIZE && Contains200(CString(Padded(chunks[0])))
    ensures Sized(Inputs(chunks))
    ensures WritesDecide(p, OnAll(p, Inputs(chunks), junk), body, BodyChunks(Header(lines), chunks))
  {
    var found := p.(ok200 := true);
    assert [] + Header(lines) == Header(lines) && TailLine([]);
    Found200(p, chunks, junk);
    ChunksWritten(found, [], lines, chunks, body, junk);
    hide OnAll, Inputs, BodyChunks, Header, SafeChunks, BodyStart, Padded, CString, Contains200, HeaderLine, Flatten;
  }

  /** A whole response in one chunk whose write fails: the update completes, and nothing has
      been written. */
  lemma HeaderWriteLost(p: Progress, lines: seq<seq<byte>>, body: seq<byte>, junk: seq<byte>)
    requires p.status.Receiving? && !p.bodyStarted && !(p.writes != [] && p.writes[0])
    requires forall l <- lines :: HeaderLine(l)
    requires |Header(lines) + body| <= TEXT_BUFFSIZE && Contains200(CString(Padded(Header(lines) + body)))
    ensures Sized(Inputs([Header(lines) + body]))
    ensures var q := OnAll(p, Inputs([Header(lines) + body]), junk);
            q.status == Complete && q.flash == p.flash && q.length == p.length
  {
    var chunks := [Header(lines) + body];
    OnInputs(p, chunks, junk);
    FirstChunk(p, lines, body, junk);
    var q := OnReceived(p, Data(chunks[0]), junk);
    hide OnAll, OnHeader, Header, BodyStart, Padded, CString;
    assert chunks[1..] == [];
    InputsNone();
    ReceiveEnd(q, junk);
  }

  // ---------------------------------------------------------------- how a connection ends

  lemma {:induction false} OnAllAppend(p: Progress, a: seq<Reception>, b: seq<Reception>, junk: seq<byte>)
    requires Sized(a) && Sized(b)
    ensures Sized(a + b) && OnAll(p, a + b, junk) == OnAll(OnAll(p, a, junk), b, junk)
    decreases |a|
  {
    hide OnReceived;
    if a == [] {
      assert a + b == b;
    } else {
      assert (a + b)[0] == a[0] && (a + b)[1..] == a[1..] + b;
      assert Sized(a[1..]);
      if p.status.Receiving? {
        OnAllAppend(OnReceived(p, a[0], junk), a[1..], b, junk);
      }
      assert Sized(a + b);
    }
  }

  /** What is received up to k is data, and the receiver is still at work. */
  ghost predicate Reached(p: Progress, input: seq<Reception>, k: int, junk: seq<byte>)
    requires Sized(input)
  {
    && 0 <= k < |input| && (forall i | 0 <= i < k :: input[i].Data?)
    && OnAll(p, input[..k], junk).status.Receiving?
  }

  /** A connection that is closed completes the update, and one that fails aborts it, whatever
      would have come later; in both cases with what had been written by then. */
  lemma EndsThere(p: Progress, input: seq<Reception>, k: nat, junk: seq<byte>)
    requires Sized(input) && Reached(p, input, k, junk) && !input[k].Data?
    ensures input[k].Closed? ==> OnAll(p, input, junk) == OnAll(p, input[..k], junk).(status := Complete)
    ensures input[k].Failed? ==> OnAll(p, input, junk) == OnAll(p, input[..k], junk).(status := Aborted)
  {
    var q := OnAll(p, input[..k], junk);
    assert input == input[..k] + input[k..];
    OnAllAppend(p, input[..k], input[k..], junk);
    OnAllStep(q, input, k, junk);
  }

  /** Receiving data alone never completes the update. */
  lemma DataGoesOn(p: Progress, bytes: seq<byte>, junk: seq<byte>)
    requires p.status.Receiving? && 0 < |bytes| <= TEXT_BUFFSIZE
    ensures OnReceived(p, Data(bytes), junk).status != Complete
  {
    hide BodyStart, Contains200, CString, Padded;
  }

  /** The update completes if and only if the connection is closed while the receiver is at
      work, with nothing but data before. */
  lemma {:induction false} CompleteExactly(p: Progress, input: seq<Reception>, junk: seq<byte>)
    requires Sized(input) && p.status.Receiving?
    ensures OnAll(p, input, junk).status == Complete <==> exists k :: Reached(p, input, k, junk) && input[k].Closed?
    decreases |input|
  {
    hide OnAll;
    if exists k :: Reached(p, input, k, junk) && input[k].Closed? {
      var k :| Reached(p, input, k, junk) && input[k].Closed?;
      EndsThere(p, input, k, junk);
    }
    if OnAll(p, input, junk).status == Complete {
      var k := ClosedAt(p, input, junk);
    }
  }

  lemma {:induction false} ClosedAt(p: Progress, input: seq<Reception>, junk: seq<byte>) returns (k: int)
    requires Sized(input) && p.status.Receiving? && OnAll(p, input, junk).status == Complete
    ensures Reached(p, input, k, junk) && input[k].Closed?
    decreases |input|
  {
    OnAllNothing(p, junk);
    assert input[0..] == input;
    OnAllStep(p, input, 0, junk);
    if input[0].Data? {
      DataGoesOn(p, input[0].bytes, junk);
      var q := OnReceived(p, input[0], junk);
      assert Sized(input[1..]);
      hide OnReceived;
      var j := ClosedAt(q, input[1..], junk);
      k := j + 1;
      assert input[..k][0] == input[0] && input[..k][1..] == input[1..][..k - 1];
      assert forall i | 1 <= i < k :: input[i] == input[1..][i - 1];
    } else {
      k := 0;
    }
  }

  /** Chunks as they are received. */
  function Datas(chunks: seq<seq<byte>>): seq<Reception> {
    seq(|chunks|, i requires 0 <= i < |chunks| => Data(chunks[i]))
  }

  /** What a stream of bytes holds beyond the header. */
  function Beyond(header: seq<byte>, received: seq<byte>): seq<byte> {
    if |received| <= |header| then [] else received[|header|..]
  }

  predicate Holding(p: Progress, q: Progress, body: seq<byte>) {
    q.status.Receiving? && q.flash == p.flash + body && q.length == p.length + |body|
  }

  lemma DatasCons(p: Progress, chunks: seq<seq<byte>>, junk: seq<byte>)
    requires chunks != [] && p.status.Receiving? && forall c <- chunks :: 0 < |c| <= TEXT_BUFFSIZE
    ensures 0 < |chunks[0]| <= TEXT_BUFFSIZE && Sized(Datas(chunks)) && Sized(Datas(chunks[1..]))
    ensures OnAll(p, Datas(chunks), junk) == OnAll(OnReceived(p, Data(chunks[0]), junk), Datas(chunks[1..]), junk)
  {
    assert forall i | 0 <= i < |chunks| :: chunks[i] in chunks;
    var input := Datas(chunks);
    assert input[0] == Data(chunks[0]) && input[1..] == Datas(chunks[1..]);
  }

  lemma {:induction false} BodySoFar(p: Progress, chunks: seq<seq<byte>>, junk: seq<byte>)
    requires p.status.Receiving? && p.bodyStarted && forall c <- chunks :: 0 < |c| <= TEXT_BUFFSIZE
    requires Succeed(p.writes, |chunks|)
    ensures Sized(Datas(chunks)) && Holding(p, OnAll(p, Datas(chunks), junk), Flatten(chunks))
    decreases |chunks|
  {
    if chunks == [] {
      assert Datas(chunks) == [] && p.flash + [] == p.flash;
    } else {
      DatasCons(p, chunks, junk);
      SucceedShift(p.writes, |chunks| - 1);
      assert forall c <- chunks[1..] :: c in chunks;
      hide OnAll, Datas, Succeed, Flatten, Holding;
      var q := OnReceived(p, Data(chunks[0]), junk);
      BodySoFar(q, chunks[1..], junk);
      FlattenFirst(chunks);
      HoldingOn(p, q, OnAll(q, Datas(chunks[1..]), junk), chunks[0], Flatten(chunks[1..]));
    }
  }

  lemma HoldingOn(p: Progress, q: Progress, r: Progress, first: seq<byte>, rest: seq<byte>)
    requires q.flash == p.flash + first && q.length == p.length + |first| && Holding(q, r, rest)
    ensures Holding(p, r, first + rest)
  {
    assert p.flash + first + rest == p.flash + (first + rest);
  }

  lemma {:induction false} ReceivedSoFar(p: Progress, part: seq<byte>, lines: seq<seq<byte>>, chunks: seq<seq<byte>>,
                                         others: seq<seq<byte>>, body: seq<byte>, junk: seq<byte>)
    requires p.status.Receiving? && !p.bodyStarted && p.ok200
    requires TailLine(part) && forall l <- lines :: HeaderLine(l)
    requires (forall c <- chunks :: 0 < |c| <= TEXT_BUFFSIZE) && Flatten(chunks + others) == part + Header(lines) + body
    requires SafeChunks(part + Header(lines), chunks + others) && Succeed(p.writes, |chunks|)
    ensures Sized(Datas(chunks))
    ensures Holding(p, OnAll(p, Datas(chunks), junk), Beyond(part + Header(lines), Flatten(chunks)))
    decreases |chunks|
  {
    hide OnAll, OnReceived, Sized, Datas, BodyStart, Padded, SafeStart, SafeChunks, HeaderLine, TailLine, Succeed;
    var header := part + Header(lines);
    if chunks == [] {
      NothingYet(p, junk);
    } else {
      var c, rest := chunks[0], chunks[1..];
      assert chunks + others == [c] + (rest + others) && (chunks + others)[1..] == rest + others;
      DatasCons(p, chunks, junk);
      SucceedShift(p.writes, |rest|);
      assert forall d <- rest :: d in chunks;
      RestStarts(part, lines);
      SafeStep(header, chunks + others);
      FlattenCons(c, rest + others);
      hide Header, Flatten;
      Divided(header, body, c, Flatten(rest + others));
      FlattenFirst(chunks);
      if |c| >= |header| {
        ScanWhole(c, junk, part, lines);
        HeaderEnds(p, c, |header|, junk);
        var q := OnReceived(p, Data(c), junk);
        BodySoFar(q, rest, junk);
        HoldingOn(p, q, OnAll(q, Datas(rest), junk), c[|header|..], Flatten(rest));
        BeyondChunk(header, c, Flatten(rest));
      } else {
        ScanAgainCut(c, junk, part, lines);
        HeaderContinues(p, c, junk);
        SafeLength(header[|c|..], rest + others);
        var part', lines' := RestOf(part, lines, |c|);
        SucceedLess(p.writes, |rest|);
        ReceivedSoFar(p, part', lines', rest, others, body, junk);
        BeyondChunk(header, c, Flatten(rest));
      }
    }
  }

  lemma NothingYet(p: Progress, junk: seq<byte>)
    requires p.status.Receiving?
    ensures Sized(Datas([])) && OnAll(p, Datas([]), junk) == p && Flatten([]) == [] && p.flash + [] == p.flash
  {
    assert Datas([]) == [];
  }

  lemma SucceedLess(writes: seq<bool>, n: nat)
    requires Succeed(writes, n + 1)
    ensures Succeed(writes, n)
  {
  }

  lemma FlattenFirst(chunks: seq<seq<byte>>)
    requires chunks != []
    ensures Flatten(chunks) == chunks[0] + Flatten(chunks[1..])
  {
  }

  lemma BeyondChunk(header: seq<byte>, c: seq<byte>, rest: seq<byte>)
    ensures |c| >= |header| ==> Beyond(header, c + rest) == c[|header|..] + rest
    ensures |c| < |header| ==> Beyond(header, c + rest) == Beyond(header[|c|..], rest)
  {
    if |c| < |header| && |c + rest| > |header| {
      assert (c + rest)[|header|..] == rest[|header| - |c|..];
    }
  }

  /** A connection that ends early, when all cuts are safe and all writes succeed: flash holds
      exactly the part of the body received so far. An error aborts the update; but an orderly
      close completes it, whatever is missing. */
  lemma EndsEarly(p: Progress, lines: seq<seq<byte>>, chunks: seq<seq<byte>>, others: seq<seq<byte>>, body: seq<byte>,
                  junk: seq<byte>)
    requires p.status.Receiving? && !p.bodyStarted && chunks != []
    requires forall l <- lines :: HeaderLine(l)
    requires (forall c <- chunks :: 0 < |c| <= TEXT_BUFFSIZE) && Flatten(chunks + others) == Header(lines) + body
    requires SafeChunks(Header(lines), chunks + others) && Succeed(p.writes, |chunks|)
    requires 0 < |chunks[0]| <= TEXT_BUFFSIZE && Contains200(CString(Padded(chunks[0])))
    ensures Sized(Datas(chunks) + [Failed]) && Sized(Datas(chunks) + [Closed])
    ensures var received := Beyond(Header(lines), Flatten(chunks));
            var failed, closed := OnAll(p, Datas(chunks) + [Failed], junk), OnAll(p, Datas(chunks) + [Closed], junk);
            && received <= body
            && failed.status == Aborted && failed.flash == p.flash + received
            && closed.status == Complete && closed.flash == p.flash + received
  {
    var found := p.(ok200 := true);
    assert [] + Header(lines) == Header(lines) && TailLine([]);
    ReceivedSoFar(found, [], lines, chunks, others, body, junk);
    FlattenAppend(chunks, others);
    DatasCons(p, chunks, junk);
    DatasCons(found, chunks, junk);
    FoundOnce(p, chunks[0], junk);
    BeyondPrefix(Header(lines), body, Flatten(chunks), Flatten(others));
    hide SafeChunks, Flatten, Header, HeaderLine, Datas, OnReceived, Contains200, CString, Padded, BodyStart;
    EndOf(p, Datas(chunks), junk);
  }

  lemma FoundOnce(p: Progress, c: seq<byte>, junk: seq<byte>)
    requires p.status.Receiving? && !p.bodyStarted && 0 < |c| <= TEXT_BUFFSIZE && Contains200(CString(Padded(c)))
    ensures OnReceived(p, Data(c), junk) == OnReceived(p.(ok200 := true), Data(c), junk)
  {
    hide BodyStart, CString, Padded, Contains200;
  }

  lemma BeyondPrefix(header: seq<byte>, body: seq<byte>, received: seq<byte>, missing: seq<byte>)
    requires received + missing == header + body
    ensures Beyond(header, received) <= body
  {
    if |received| > |header| {
      assert body == (header + body)[|header|..] == (received + missing)[|header|..] == received[|header|..] + missing;
    }
  }

  lemma EndOf(p: Progress, input: seq<Reception>, junk: seq<byte>)
    requires Sized(input) && OnAll(p, input, junk).status.Receiving?
    ensures Sized(input + [Failed]) && OnAll(p, input + [Failed], junk) == OnAll(p, input, junk).(status := Aborted)
    ensures Sized(input + [Closed]) && OnAll(p, input + [Closed], junk) == OnAll(p, input, junk).(status := Complete)
  {
    OnAllAppend(p, input, [Failed], junk);
    OnAllAppend(p, input, [Closed], junk);
    var q := OnAll(p, input, junk);
    assert [Failed][1..] == [] && [Closed][1..] == [];
    hide BodyStart, CString, Padded, Contains200;
  }

  // ---------------------------------------------------------------- a response, spelled out

  /** "HTTP/1.0 200 OK" and "HTTP/1.0 404", each ended by carriage return and line feed. */
  const OK_LINE: seq<byte> := [72, 84, 84, 80, 47, 49, 46, 48, 32, 50, 48, 48, 32, 79, 75, 13, 10]
  const ERROR_LINE: seq<byte> := [72, 84, 84, 80, 47, 49, 46, 48, 32, 52, 48, 52, 13, 10]

  lemma OkResponse(p: Progress, body: seq<byte>, junk: seq<byte>)
    requires p.status.Receiving? && !p.bodyStarted && !p.ok200 && |body| <= 1000 && p.writes != [] && p.writes[0]
    ensures Sized([Data(OK_LINE + [13, 10] + body), Closed])
    ensures var q := OnAll(p, [Data(OK_LINE + [13, 10] + body), Closed], junk);
            q.status == Complete && q.flash == p.flash + body && q.length == p.length + |body|
  {
    OkHeader();
    OneInput(OK_LINE + [13, 10] + body);
    OneChunk(p, [OK_LINE], body, junk);
    hide *;
  }

  /** A response in one chunk. */
  lemma OneChunk(p: Progress, lines: seq<seq<byte>>, body: seq<byte>, junk: seq<byte>)
    requires p.status.Receiving? && !p.bodyStarted && !p.ok200 && p.writes != [] && p.writes[0]
    requires (forall l <- lines :: HeaderLine(l)) && Contains200(Flatten(lines))
    requires |Header(lines) + body| <= TEXT_BUFFSIZE
    ensures Sized(Inputs([Header(lines) + body]))
    ensures var q := OnAll(p, Inputs([Header(lines) + body]), junk);
            q.status == Complete && q.flash == p.flash + body && q.length == p.length + |body|
  {
    hide Contains200, CString, Padded, OnAll, Header, HeaderLine, Inputs, Sized;
    HeaderHolds200(lines, body);
    StreamRefinement(p, lines, body, [], junk);
    NoMore(Header(lines) + body, body);
  }

  lemma NoMore(c: seq<byte>, body: seq<byte>)
    ensures [c] + [] == [c] && body + Flatten([]) == body
  {
  }

  lemma OkHeader()
    ensures |OK_LINE| == 17 && HeaderLine(OK_LINE)
    ensures Header([OK_LINE]) == OK_LINE + [13, 10] && Contains200(Flatten([OK_LINE]))
  {
    var lines: seq<seq<byte>> := [OK_LINE];
    assert lines[1..] == [] && Flatten(lines) == OK_LINE + Flatten([]) == OK_LINE;
    assert OK_LINE[9] == 50 && OK_LINE[10] == 48 && OK_LINE[11] == 48;
    assert Header(lines) == Flatten(lines) + BLANK_LINE;
  }

  lemma OneInput(c: seq<byte>)
    ensures Inputs([c]) == [Data(c), Closed]
  {
    assert [c][1..] == [];
  }

  lemma ErrorResponse(p: Progress, junk: seq<byte>)
    requires p.status.Receiving? && !p.bodyStarted && !p.ok200
    ensures Sized([Data(ERROR_LINE + [13, 10]), Closed])
    ensures OnAll(p, [Data(ERROR_LINE + [13, 10]), Closed], junk) == p.(status := Aborted)
  {
    var data := ERROR_LINE + [13, 10];
    No200(data);
    OneInput(data);
    var chunks: seq<seq<byte>> := [data];
    OnInputs(p, chunks, junk);
    assert chunks[1..] == [];
    hide Contains200, CString, Padded, OnAll;
    Stopped(p.(status := Aborted), Inputs([]), junk);
    hide Inputs;
  }

  lemma No200(data: seq<byte>)
    requires |data| <= TEXT_BUFFSIZE && 50 !in data
    ensures !Contains200(CString(Padded(data)))
  {
    var s := CString(Padded(data));
    forall i | 0 <= i < |s|
      ensures s[i] != 50
    {
      assert s[i] == Padded(data)[i];
      if i < |data| {
        assert Padded(data)[..|data|][i] == data[i] && data[i] in data;
      }
    }
  }

  /** A full buffer of the body. */
  lemma FullChunk(p: Progress, chunk: seq<byte>, junk: seq<byte>)
    requires p.status.Receiving? && p.bodyStarted && |chunk| == 1024 && p.writes != [] && p.writes[0]
    ensures OnReceived(p, Data(chunk), junk)
            == p.(flash := p.flash + chunk, length := p.length + 1024, writes := p.writes[1..])
  {
  }
}
