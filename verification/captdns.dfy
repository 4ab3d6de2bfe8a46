/** The captive-portal DNS responder (components/captdns/src/captdns.c). */
module CaptDns {
  import opened Bytes
  import opened DnsNames
  import opened DnsMessages

  const DNS_LEN := 512
  const QTYPE_A := 1
  const QTYPE_NS := 2
  const QTYPE_URI := 256
  const QCLASS_IN := 1
  const QCLASS_URI := 256
  const FLAG_QR := 128

  /** "ns" as a name, and "http://esp.nonet". */
  const NS_DATA: seq<byte> := [2, 110, 115, 0]
  const URI_TEXT: seq<byte> := [104, 116, 116, 112, 58, 47, 47, 101, 115, 112, 46, 110, 111, 110, 101, 116]

  // ---------------------------------------------------------------- what is asked

  /** The entry checks: size, no records of any kind, not truncated. */
  predicate Passes(mem: seq<byte>, n: nat)
    requires n <= |mem|
  {
    && HEADER_SIZE <= n <= DNS_LEN
    && WordAt(mem, 6) == 0 && WordAt(mem, 8) == 0 && WordAt(mem, 10) == 0
    && mem[2] / 2 % 2 == 0
  }

  /** What the question loop makes of the packet: something this model excludes, a NULL
      from labelToStr after some questions (no reply), or its questions. Each name is granted
      some number of turns. Only the names are checked against the size of the packet: the
      loop reads on behind it, in the receive buffer `mem`. */
  datatype Hearing = Broken | Dropped(questions: seq<Question>) | Heard(questions: seq<Question>)

  function Hear(mem: seq<byte>, n: nat, turns: nat, count: nat, pos: nat): Hearing
    requires n + 2 <= |mem|
    decreases count
  {
    if count == 0 then Heard([])
    else if pos + 2 > |mem| then Broken
    else
      match Scan(mem, n, DNS_LEN, turns, pos, 0)
      case Unsupported => Broken
      case Null => Dropped([])
      case Done(labels, end, _) =>
        if end + 4 > |mem| then Broken
        else
          var q := Question(labels, WordAt(mem, end), WordAt(mem, end + 2));
          Following([q], Hear(mem, n, turns, count - 1, end + 4))
  }

  function Following(earlier: seq<Question>, h: Hearing): Hearing {
    match h
    case Broken => Broken
    case Dropped(later) => Dropped(earlier + later)
    case Heard(later) => Heard(earlier + later)
  }

  lemma FollowingTwice(a: seq<Question>, b: seq<Question>, h: Hearing)
    ensures Following(a, Following(b, h)) == Following(a + b, h)
  {
    if !h.Broken? {
      assert a + (b + h.questions) == a + b + h.questions;
    }
  }

  // ---------------------------------------------------------------- what is answered

  predicate Answerable(q: Question) {
    q.qtype == QTYPE_A || q.qtype == QTYPE_NS || q.qtype == QTYPE_URI
  }

  function AnswerCount(qs: seq<Question>): nat {
    if qs == [] then 0 else AnswerCount(qs[..|qs| - 1]) + if Answerable(qs[|qs| - 1]) then 1 else 0
  }

  /** The name of an answer: the question's text, as a C string, put back into labels. */
  function NameBytes(q: Question): seq<byte> {
    EncodeName(Pieces(CString(Join(q.labels) + [0])))
  }

  function LongBytes(n: nat): (s: seq<byte>)
    requires n < 0x1_0000_0000
    ensures |s| == 4
  {
    [n / 0x100_0000, n / 0x1_0000 % 256, n / 256 % 256, n % 256]
  }

  /** Type, class, a TTL whose upper half is 0 and whose lower half is `low`, data length. */
  function Footer(rtype: nat, rclass: nat, low: seq<byte>, rdlength: nat): (s: seq<byte>)
    requires rtype < 0x1_0000 && rclass < 0x1_0000 && rdlength < 0x1_0000 && |low| == 2
    ensures |s| == 10
  {
    var (t, c, z, r) := (WordBytes(rtype), WordBytes(rclass), WordBytes(0), WordBytes(rdlength));
    [t[0], t[1], c[0], c[1], z[0], z[1], low[0], low[1], r[0], r[1]]
  }

  lemma FooterParts(rtype: nat, rclass: nat, low: seq<byte>, rdlength: nat)
    requires rtype < 0x1_0000 && rclass < 0x1_0000 && rdlength < 0x1_0000 && |low| == 2
    ensures WordBytes(rtype) + WordBytes(rclass) + WordBytes(0) + low + WordBytes(rdlength)
            == Footer(rtype, rclass, low, rdlength)
  {
    hide WordBytes;
    TenBytes(WordBytes(rtype), WordBytes(rclass), WordBytes(0), low, WordBytes(rdlength));
  }

  lemma TenBytes(a: seq<byte>, b: seq<byte>, c: seq<byte>, d: seq<byte>, e: seq<byte>)
    requires |a| == |b| == |c| == |d| == |e| == 2
    ensures a + b + c + d + e == [a[0], a[1], b[0], b[1], c[0], c[1], d[0], d[1], e[0], e[1]]
  {
    assert a + b == [a[0], a[1], b[0], b[1]];
    assert a + b + c == [a[0], a[1], b[0], b[1], c[0], c[1]];
    assert a + b + c + d == [a[0], a[1], b[0], b[1], c[0], c[1], d[0], d[1]];
  }

  /** Everything after the name. `spare` is what the reply buffer held where the code
      leaves the lower half of a TTL unwritten. */
  function AnswerTail(q: Question, ip: seq<byte>, spare: seq<byte>): seq<byte>
    requires |spare| == 2
  {
    if q.qtype == QTYPE_A then
      Footer(QTYPE_A, QCLASS_IN, [0, 0], 4) + ip
    else if q.qtype == QTYPE_NS then
      Footer(QTYPE_NS, QCLASS_IN, spare, 4) + NS_DATA
    else
      Footer(QTYPE_URI, QCLASS_URI, spare, 20) + (WordBytes(10) + WordBytes(1) + URI_TEXT)
  }

  function Spare(init: seq<byte>, k: nat): (s: seq<byte>)
    ensures |s| == 2
  {
    if k + 2 <= |init| then init[k..k + 2] else [0, 0]
  }

  function Answer(q: Question, ip: seq<byte>, init: seq<byte>, at: nat): seq<byte> {
    if !Answerable(q) then []
    else NameBytes(q) + AnswerTail(q, ip, Spare(init, at + |NameBytes(q)| + 6))
  }

  /** The answers to all questions, written from `at` into a buffer that held `init`. */
  function Answers(qs: seq<Question>, ip: seq<byte>, init: seq<byte>, at: nat): seq<byte> {
    if qs == [] then []
    else
      var earlier := Answers(qs[..|qs| - 1], ip, init, at);
      earlier + Answer(qs[|qs| - 1], ip, init, at + |earlier|)
  }

  /** A message with its answer count set. */
  function WithCount(s: seq<byte>, count: nat): (r: seq<byte>)
    requires HEADER_SIZE <= |s| && count < 0x1_0000
    ensures |r| == |s|
  {
    s[6 := count / 256][7 := count % 256]
  }

  /** The request with QR set and an answer count. */
  function ReplyHeader(request: seq<byte>, count: nat): (r: seq<byte>)
    requires HEADER_SIZE <= |request| && count < 0x1_0000
    ensures |r| == |request|
  {
    WithCount(request[2 := if request[2] < FLAG_QR then request[2] + FLAG_QR else request[2]], count)
  }

  lemma {:induction false} AnswersPrefix(qs: seq<Question>, k: nat, ip: seq<byte>, init: seq<byte>, at: nat)
    requires k <= |qs|
    ensures Answers(qs[..k], ip, init, at) <= Answers(qs, ip, init, at)
    ensures AnswerCount(qs[..k]) <= AnswerCount(qs)
    decreases |qs|
  {
    hide Answer, Answerable;
    if k < |qs| {
      AnswersPrefix(qs[..|qs| - 1], k, ip, init, at);
      assert qs[..|qs| - 1][..k] == qs[..k];
    } else {
      assert qs[..k] == qs;
    }
  }

  /** Every answer takes more than one byte, so the count never wraps in a 512-byte reply. */
  lemma {:induction false} CountBound(qs: seq<Question>, ip: seq<byte>, init: seq<byte>, at: nat)
    ensures AnswerCount(qs) <= |Answers(qs, ip, init, at)|
  {
    if qs != [] {
      CountBound(qs[..|qs| - 1], ip, init, at);
    }
  }

  // ---------------------------------------------------------------- captdnsRecv

  /** Replace a stretch of a byte string. */
  function Patched(s: seq<byte>, at: nat, t: seq<byte>): (r: seq<byte>)
    requires at + |t| <= |s|
    ensures |r| == |s|
  {
    s[..at] + t + s[at + |t|..]
  }

  /** Writing u right behind t. */
  lemma PatchedTwice(s: seq<byte>, at: nat, t: seq<byte>, u: seq<byte>)
    requires at + |t| + |u| <= |s|
    ensures Patched(Patched(s, at, t), at + |t|, u) == Patched(s, at, t + u)
  {
    var once := Patched(s, at, t);
    assert once[..at + |t|] == s[..at] + t;
    assert once[at + |t| + |u|..] == s[at + |t| + |u|..];
    assert s[..at] + t + u == s[..at] + (t + u);
  }

  /** Writing u behind t, leaving two bytes between them as they were. */
  lemma PatchedGap(s: seq<byte>, at: nat, t: seq<byte>, u: seq<byte>)
    requires at + |t| + 2 + |u| <= |s|
    ensures var gap := at + |t|;
            Patched(Patched(s, at, t), gap + 2, u) == Patched(s, at, t + s[gap..gap + 2] + u)
  {
    var gap := at + |t|;
    var once := Patched(s, at, t);
    assert once[..gap + 2] == s[..at] + t + s[gap..gap + 2];
    assert once[gap + 2 + |u|..] == s[gap + 2 + |u|..];
    assert s[..at] + t + s[gap..gap + 2] + u == s[..at] + (t + s[gap..gap + 2] + u);
  }

  method WriteBytes(reply: array<byte>, at: nat, data: seq<byte>)
    requires at + |data| <= reply.Length
    modifies reply
    ensures reply[..] == Patched(old(reply[..]), at, data)
  {
    forall k | 0 <= k < |data| {
      reply[at + k] := data[k];
    }
    assert reply[..at] == old(reply[..at]);
    assert reply[at..at + |data|] == data;
    assert reply[at + |data|..] == old(reply[at + |data|..]);
    assert reply[..] == reply[..at] + reply[at..at + |data|] + reply[at + |data|..];
  }

  method SetN16(a: array<byte>, at: nat, n: nat)
    requires at + 2 <= a.Length && n < 0x1_0000
    modifies a
    ensures a[..] == Patched(old(a[..]), at, WordBytes(n))
  {
    a[at] := n / 256;
    a[at + 1] := n % 256;
    assert a[..at] == old(a[..at]) && a[at + 2..] == old(a[at + 2..]);
    assert a[..] == a[..at] + [a[at], a[at + 1]] + a[at + 2..];
  }

  method SetN32(a: array<byte>, at: nat, n: nat)
    requires at + 4 <= a.Length && n < 0x1_0000_0000
    modifies a
    ensures a[..] == Patched(old(a[..]), at, LongBytes(n))
  {
    a[at] := n / 0x100_0000;
    a[at + 1] := n / 0x1_0000 % 256;
    a[at + 2] := n / 256 % 256;
    a[at + 3] := n % 256;
    assert a[..at] == old(a[..at]) && a[at + 4..] == old(a[at + 4..]);
    assert a[..] == a[..at] + [a[at], a[at + 1], a[at + 2], a[at + 3]] + a[at + 4..];
  }

  function MyNtohs(a: array<byte>, at: nat): (r: nat)
    requires at + 2 <= a.Length
    reads a
    ensures r == WordAt(a[..], at) < 0x1_0000
  {
    Word(a[at], a[at + 1])
  }

  /** Reading back what setn16 wrote gives the number, and no other word changes. */
  lemma NumberReadBack(s: seq<byte>, at: nat, n: nat, k: nat)
    requires at + 2 <= |s| && n < 0x1_0000 && k + 2 <= |s|
    ensures WordAt(Patched(s, at, WordBytes(n)), at) == n
    ensures k + 2 <= at || at + 2 <= k ==> WordAt(Patched(s, at, WordBytes(n)), k) == WordAt(s, k)
  {
  }

  method WriteA(reply: array<byte>, at: nat, ghost q: Question, ip: seq<byte>) returns (rend: nat)
    requires |ip| == 4 && at + 14 <= reply.Length && q.qtype == QTYPE_A
    modifies reply
    ensures rend == at + 14
    ensures reply[..] == Patched(old(reply[..]), at, AnswerTail(q, ip, old(reply[at + 6..at + 8])))
  {
    hide Patched, WordBytes, Footer, LongBytes;
    ghost var was := reply[..];
    rend := at + 10;
    SetN16(reply, at, QTYPE_A);
    SetN16(reply, at + 2, QCLASS_IN);
    PatchedTwice(was, at, WordBytes(QTYPE_A), WordBytes(QCLASS_IN));
    SetN32(reply, at + 4, 0);
    PatchedTwice(was, at, WordBytes(QTYPE_A) + WordBytes(QCLASS_IN), LongBytes(0));
    SetN16(reply, at + 8, 4);
    PatchedTwice(was, at, WordBytes(QTYPE_A) + WordBytes(QCLASS_IN) + LongBytes(0), WordBytes(4));
    FooterA();
    WriteBytes(reply, rend, ip);
    PatchedTwice(was, at, Footer(QTYPE_A, QCLASS_IN, [0, 0], 4), ip);
    rend := rend + 4;
  }

  lemma FooterA()
    ensures WordBytes(QTYPE_A) + WordBytes(QCLASS_IN) + LongBytes(0) + WordBytes(4)
            == Footer(QTYPE_A, QCLASS_IN, [0, 0], 4)
  {
    hide WordBytes, LongBytes, Footer;
    FooterParts(QTYPE_A, QCLASS_IN, [0, 0], 4);
    LongZero();
    Regroup(WordBytes(QTYPE_A), WordBytes(QCLASS_IN), WordBytes(0), [0, 0], WordBytes(4));
  }

  lemma LongZero()
    ensures LongBytes(0) == WordBytes(0) + [0, 0]
  {
    hide *;
    ZeroBytes();
    FourZeros(LongBytes(0), WordBytes(0));
  }

  lemma ZeroBytes()
    ensures var l := LongBytes(0); l[0] == l[1] == l[2] == l[3] == 0
    ensures var w := WordBytes(0); w[0] == w[1] == 0
  {
  }

  lemma FourZeros(l: seq<byte>, w: seq<byte>)
    requires |l| == 4 && l[0] == l[1] == l[2] == l[3] == 0
    requires |w| == 2 && w[0] == w[1] == 0
    ensures l == w + [0, 0]
  {
  }

  lemma Regroup(a: seq<byte>, b: seq<byte>, c: seq<byte>, d: seq<byte>, e: seq<byte>)
    ensures a + b + (c + d) + e == a + b + c + d + e
  {
    assert a + b + (c + d) == a + b + c + d;
  }

  method WriteFooter(reply: array<byte>, at: nat, rtype: nat, rclass: nat, rdlength: nat)
    requires at + 10 <= reply.Length && rtype < 0x1_0000 && rclass < 0x1_0000 && rdlength < 0x1_0000
    modifies reply
    ensures reply[..] == Patched(old(reply[..]), at, Footer(rtype, rclass, old(reply[at + 6..at + 8]), rdlength))
  {
    hide Patched, WordBytes, Footer, LongBytes;
    ghost var was := reply[..];
    SetN16(reply, at, rtype);
    SetN16(reply, at + 2, rclass);
    PatchedTwice(was, at, WordBytes(rtype), WordBytes(rclass));
    SetN16(reply, at + 4, 0);
    ghost var six := WordBytes(rtype) + WordBytes(rclass) + WordBytes(0);
    PatchedTwice(was, at, WordBytes(rtype) + WordBytes(rclass), WordBytes(0));
    SetN16(reply, at + 8, rdlength);
    PatchedGap(was, at, six, WordBytes(rdlength));
    FooterParts(rtype, rclass, was[at + 6..at + 8], rdlength);
  }

  method WriteNs(reply: array<byte>, at: nat, ghost q: Question, ip: seq<byte>) returns (rend: nat)
    requires at + 14 <= reply.Length && q.qtype == QTYPE_NS
    modifies reply
    ensures rend == at + 14
    ensures reply[..] == Patched(old(reply[..]), at, AnswerTail(q, ip, old(reply[at + 6..at + 8])))
  {
    hide Patched, WordBytes, Footer, LongBytes;
    ghost var was := reply[..];
    rend := at + 10;
    WriteFooter(reply, at, QTYPE_NS, QCLASS_IN, 4);
    WriteBytes(reply, rend, NS_DATA);
    rend := rend + 4;
    PatchedTwice(was, at, Footer(QTYPE_NS, QCLASS_IN, was[at + 6..at + 8], 4), NS_DATA);
  }

  method WriteUri(reply: array<byte>, at: nat, ghost q: Question, ip: seq<byte>) returns (rend: nat)
    requires at + 30 <= reply.Length && q.qtype == QTYPE_URI
    modifies reply
    ensures rend == at + 30
    ensures reply[..] == Patched(old(reply[..]), at, AnswerTail(q, ip, old(reply[at + 6..at + 8])))
  {
    hide Patched, WordBytes, Footer, LongBytes;
    ghost var was := reply[..];
    ghost var footer := Footer(QTYPE_URI, QCLASS_URI, was[at + 6..at + 8], 20);
    rend := at + 10;
    var uh := rend;
    rend := rend + 4;
    WriteFooter(reply, at, QTYPE_URI, QCLASS_URI, 20);
    ghost var mid := reply[..];
    SetN16(reply, uh, 10);
    SetN16(reply, uh + 2, 1);
    PatchedTwice(mid, uh, WordBytes(10), WordBytes(1));
    WriteBytes(reply, rend, URI_TEXT);
    PatchedTwice(mid, uh, WordBytes(10) + WordBytes(1), URI_TEXT);
    PatchedTwice(was, at, footer, WordBytes(10) + WordBytes(1) + URI_TEXT);
    rend := rend + 16;
  }

  /** A buffer that starts with a NUL-terminated text holds that C string. */
  lemma {:induction false} CStringOf(s: seq<byte>, t: seq<byte>)
    requires |t| < |s| && s[..|t|] == t && s[|t|] == 0
    ensures CString(s) == CString(t + [0]) && |CString(s)| < |s|
  {
    if t != [] && t[0] != 0 {
      assert s[0] == t[0];
      assert s[1..][..|t| - 1] == t[1..];
      assert (t + [0])[1..] == t[1..] + [0];
      CStringOf(s[1..], t[1..]);
    }
  }

  /** The fixed part of an answer. */
  method WriteTail(reply: array<byte>, at: nat, qtype: nat, ghost q: Question, ip: seq<byte>) returns (rend: nat)
    requires qtype == q.qtype && Answerable(q) && |ip| == 4 && at + |AnswerTail(q, ip, [0, 0])| <= reply.Length
    modifies reply
    ensures rend == at + |AnswerTail(q, ip, [0, 0])|
    ensures reply[..] == Patched(old(reply[..]), at, AnswerTail(q, ip, old(reply[at + 6..at + 8])))
  {
    hide Patched;
    if qtype == QTYPE_A {
      rend := WriteA(reply, at, q, ip);
    } else if qtype == QTYPE_NS {
      rend := WriteNs(reply, at, q, ip);
    } else {
      rend := WriteUri(reply, at, q, ip);
    }
  }

  /** Where nothing has been written yet the buffer holds what it held before. */
  lemma SpareUntouched(was: seq<byte>, init: seq<byte>, at: nat, name: seq<byte>)
    requires |was| == |init| && at + |name| + 8 <= |was| && was[at..] == init[at..]
    ensures var p := at + |name|;
            Patched(was, at, name)[p + 6..p + 8] == Spare(init, p + 6)
  {
    var p := at + |name|;
    assert was[at..][p + 6 - at] == init[at..][p + 6 - at] && was[at..][p + 7 - at] == init[at..][p + 7 - at];
  }

  /** strToLabel and the answer's fixed part, for one question. */
  method WriteAnswer(reply: array<byte>, at: nat, buff: array<byte>, qtype: nat, ghost q: Question,
                     ip: seq<byte>, ghost init: seq<byte>)
    returns (rend: nat)
    requires qtype == q.qtype && reply != buff && |ip| == 4 && |init| == reply.Length
    requires |CString(buff[..])| < buff.Length && CString(buff[..]) == CString(Join(q.labels) + [0])
    requires at + |Answer(q, ip, init, at)| <= reply.Length && reply[at..] == init[at..]
    modifies reply
    ensures rend == at + |Answer(q, ip, init, at)|
    ensures reply[..] == Patched(old(reply[..]), at, Answer(q, ip, init, at))
  {
    hide NameBytes, Patched, Answer, AnswerTail, Spare, CString, Join, Pieces, EncodeName;
    ghost var was := reply[..];
    rend := at;
    if qtype == QTYPE_A || qtype == QTYPE_NS || qtype == QTYPE_URI {
      AnswerShape(q, ip, init, at);
      rend := WriteName(reply, at, buff, q);
      AnswerPatched(was, init, at, q, ip);
      rend := WriteTail(reply, rend, qtype, q, ip);
    } else {
      NoAnswer(q, ip, init, at, was);
    }
  }

  method WriteName(reply: array<byte>, at: nat, buff: array<byte>, ghost q: Question) returns (rend: nat)
    requires reply != buff && at + |NameBytes(q)| <= reply.Length
    requires |CString(buff[..])| < buff.Length && CString(buff[..]) == CString(Join(q.labels) + [0])
    modifies reply
    ensures rend == at + |NameBytes(q)|
    ensures reply[..] == Patched(old(reply[..]), at, NameBytes(q))
  {
    PiecesLength(CString(buff[..]));
    rend := StrToLabel(buff, reply, at);
  }

  /** Name, then fixed part: together the answer. */
  lemma AnswerPatched(was: seq<byte>, init: seq<byte>, at: nat, q: Question, ip: seq<byte>)
    requires Answerable(q) && |ip| == 4 && |was| == |init|
    requires at + |Answer(q, ip, init, at)| <= |was| && was[at..] == init[at..]
    ensures var p := at + |NameBytes(q)|;
            && p + |AnswerTail(q, ip, [0, 0])| <= |was|
            && p + 8 <= |was|
            && var mid := Patched(was, at, NameBytes(q));
            var tail := AnswerTail(q, ip, mid[p + 6..p + 8]);
            && p + |tail| <= |was|
            && Patched(mid, p, tail) == Patched(was, at, Answer(q, ip, init, at))
  {
    hide NameBytes, Patched, Answer, AnswerTail, Spare;
    AnswerShape(q, ip, init, at);
    var p := at + |NameBytes(q)|;
    SpareUntouched(was, init, at, NameBytes(q));
    PatchedTwice(was, at, NameBytes(q), AnswerTail(q, ip, Spare(init, p + 6)));
  }

  lemma AnswerShape(q: Question, ip: seq<byte>, init: seq<byte>, at: nat)
    requires Answerable(q) && |ip| == 4
    ensures Answer(q, ip, init, at) == NameBytes(q) + AnswerTail(q, ip, Spare(init, at + |NameBytes(q)| + 6))
    ensures |AnswerTail(q, ip, Spare(init, at + |NameBytes(q)| + 6))| == |AnswerTail(q, ip, [0, 0])|
    ensures |AnswerTail(q, ip, [0, 0])| == (if q.qtype == QTYPE_URI then 30 else 14)
    ensures |NameBytes(q)| == |CString(Join(q.labels) + [0])| + 2
  {
    hide Pieces, EncodeName, Join, CString, WordBytes;
    PiecesLength(CString(Join(q.labels) + [0]));
  }

  lemma NoAnswer(q: Question, ip: seq<byte>, init: seq<byte>, at: nat, was: seq<byte>)
    requires !Answerable(q) && at <= |was|
    ensures Answer(q, ip, init, at) == [] && Patched(was, at, []) == was
  {
  }

  /** The reply buffer once the questions qs have been answered. */
  predicate Replied(bytes: seq<byte>, request: seq<byte>, init: seq<byte>, qs: seq<Question>, ip: seq<byte>,
                    rend: nat)
    requires HEADER_SIZE <= |request| <= |init| == |bytes| < 0x1_0000
  {
    var answers := Answers(qs, ip, init, |request|);
    && rend == |request| + |answers| <= |bytes|
    && AnswerCount(qs) <= |answers|
    && bytes == ReplyHeader(request, AnswerCount(qs)) + answers + init[rend..]
  }

  lemma RepliedMore(bytes: seq<byte>, request: seq<byte>, init: seq<byte>, qs: seq<Question>, q: Question,
                    ip: seq<byte>, rend: nat)
    requires HEADER_SIZE <= |request| <= |init| == |bytes| < 0x1_0000
    requires Replied(bytes, request, init, qs, ip, rend)
    requires rend + |Answer(q, ip, init, rend)| <= |bytes|
    ensures var answer := Answer(q, ip, init, rend);
            var count := AnswerCount(qs + [q]);
            && count < 0x1_0000
            && Replied(WithCount(Patched(bytes, rend, answer), count), request, init, qs + [q], ip, rend + |answer|)
  {
    hide ReplyHeader, Answer, Answers, AnswerCount, Patched, WithCount;
    var answer := Answer(q, ip, init, rend);
    AnswersGrow(qs, q, ip, init, |request|);
    CountBound(qs + [q], ip, init, |request|);
    HeaderCounts(request, AnswerCount(qs), AnswerCount(qs + [q]));
    Recount(ReplyHeader(request, AnswerCount(qs)), Answers(qs, ip, init, |request|), answer, init, rend,
        AnswerCount(qs + [q]));
  }

  lemma AnswersGrow(qs: seq<Question>, q: Question, ip: seq<byte>, init: seq<byte>, at: nat)
    ensures var earlier := Answers(qs, ip, init, at);
            Answers(qs + [q], ip, init, at) == earlier + Answer(q, ip, init, at + |earlier|)
    ensures AnswerCount(qs + [q]) == AnswerCount(qs) + if Answerable(q) then 1 else 0
  {
    hide Answer;
    assert (qs + [q])[..|qs|] == qs;
  }

  lemma Recount(head: seq<byte>, answers: seq<byte>, answer: seq<byte>, init: seq<byte>, rend: nat, count: nat)
    requires HEADER_SIZE <= |head| && rend == |head| + |answers| && rend + |answer| <= |init| && count < 0x1_0000
    ensures WithCount(Patched(head + answers + init[rend..], rend, answer), count)
            == WithCount(head, count) + (answers + answer) + init[rend + |answer|..]
  {
    var rest := init[rend + |answer|..];
    PatchedTail(head + answers, init, rend, answer);
    assert head + answers + answer + rest == head + (answers + answer + rest);
    SetCount(head, answers + answer + rest, count);
    hide WithCount, Patched;
    assert WithCount(head, count) + (answers + answer + rest) == WithCount(head, count) + (answers + answer) + rest;
  }

  lemma HeaderCounts(request: seq<byte>, count: nat, count': nat)
    requires HEADER_SIZE <= |request| && count < 0x1_0000 && count' < 0x1_0000
    ensures WithCount(ReplyHeader(request, count), count') == ReplyHeader(request, count')
  {
  }

  lemma SetCount(head: seq<byte>, rest: seq<byte>, count: nat)
    requires HEADER_SIZE <= |head| && count < 0x1_0000
    ensures WithCount(head + rest, count) == WithCount(head, count) + rest
  {
  }

  lemma PatchedTail(done: seq<byte>, init: seq<byte>, rend: nat, answer: seq<byte>)
    requires |done| == rend && rend + |answer| <= |init|
    ensures Patched(done + init[rend..], rend, answer) == done + answer + init[rend + |answer|..]
  {
    var s := done + init[rend..];
    assert s[..rend] == done && s[rend + |answer|..] == init[rend + |answer|..];
  }

  /** The answer count is where the header says it is. */
  lemma RepliedCount(bytes: seq<byte>, request: seq<byte>, init: seq<byte>, qs: seq<Question>, ip: seq<byte>,
                     rend: nat)
    requires HEADER_SIZE <= |request| <= |init| == |bytes| < 0x1_0000
    requires Replied(bytes, request, init, qs, ip, rend)
    ensures WordAt(bytes, 6) == AnswerCount(qs) && WithCount(bytes, AnswerCount(qs)) == bytes
    ensures bytes[rend..] == init[rend..]
  {
    var head := ReplyHeader(request, AnswerCount(qs));
    assert bytes[6] == head[6] == AnswerCount(qs) / 256 && bytes[7] == head[7] == AnswerCount(qs) % 256;
  }

  lemma RepliedNothing(request: seq<byte>, init: seq<byte>, ip: seq<byte>, bytes: seq<byte>)
    requires HEADER_SIZE <= |request| <= |init| < 0x1_0000 && WordAt(request, 6) == 0
    requires bytes
            == Patched(init, 0, request)[2 := if request[2] < FLAG_QR then request[2] + FLAG_QR else request[2]]
    ensures Replied(bytes, request, init, [], ip, |request|)
  {
    assert bytes == ReplyHeader(request, 0) + init[|request|..];
    assert Answers([], ip, init, |request|) == [];
    assert ReplyHeader(request, 0) + [] == ReplyHeader(request, 0);
  }

  lemma FollowingNothing(h: Hearing)
    ensures Following([], h) == h
  {
    if !h.Broken? {
      assert [] + h.questions == h.questions;
    }
  }

  /** One turn of the question loop. */
  lemma HearStep(mem: seq<byte>, n: nat, turns: nat, count: nat, pos: nat, qs: seq<Question>)
    requires n + 2 <= |mem| && count > 0
    requires !Following(qs, Hear(mem, n, turns, count, pos)).Broken?
    ensures pos + 2 <= |mem|
    ensures var s := Scan(mem, n, DNS_LEN, turns, pos, 0);
            && !s.Unsupported?
            && (s.Null? ==> Following(qs, Hear(mem, n, turns, count, pos)).Dropped?)
            && (s.Done? ==>
                  && s.end + 4 <= |mem|
                  && var q := Question(s.labels, WordAt(mem, s.end), WordAt(mem, s.end + 2));
                  var goal := Following(qs, Hear(mem, n, turns, count, pos));
                  && goal == Following(qs + [q], Hear(mem, n, turns, count - 1, s.end + 4))
                  && qs + [q] <= goal.questions)
  {
    var s := Scan(mem, n, DNS_LEN, turns, pos, 0);
    if s.Done? {
      var q := Question(s.labels, WordAt(mem, s.end), WordAt(mem, s.end + 2));
      FollowingTwice(qs, [q], Hear(mem, n, turns, count - 1, s.end + 4));
    }
  }

  /** A prefix of what is answered fits wherever all of it does. */
  lemma AnswerFits(qs: seq<Question>, q: Question, all: seq<Question>, ip: seq<byte>, init: seq<byte>, at: nat,
                   room: nat)
    requires qs + [q] <= all && at + |Answers(all, ip, init, at)| <= room
    ensures var rend := at + |Answers(qs, ip, init, at)|;
            rend + |Answer(q, ip, init, rend)| <= room
  {
    AnswersPrefix(all, |qs| + 1, ip, init, at);
    assert all[..|qs| + 1] == qs + [q];
    AnswersGrow(qs, q, ip, init, at);
  }

  /** Answer one question and count the answer. */
  method AnswerQuestion(reply: array<byte>, at: nat, buff: array<byte>, qtype: nat, ip: seq<byte>,
                        ghost request: seq<byte>, ghost init: seq<byte>, ghost qs: seq<Question>, ghost q: Question)
    returns (rend: nat)
    requires qtype == q.qtype && reply != buff && |ip| == 4
    requires HEADER_SIZE <= |request| <= |init| == reply.Length < 0x1_0000
    requires |CString(buff[..])| < buff.Length && CString(buff[..]) == CString(Join(q.labels) + [0])
    requires Replied(reply[..], request, init, qs, ip, at)
    requires at + |Answer(q, ip, init, at)| <= reply.Length
    modifies reply
    ensures Replied(reply[..], request, init, qs + [q], ip, rend)
    ensures var answered := q.qtype == 1 || q.qtype == 2 || q.qtype == 256;
            && (answered <==> rend > at)
            && WordAt(reply[..], 6) == old(WordAt(reply[..], 6)) + if answered then 1 else 0
  {
    hide Answer, Answers, Replied, CString, Join, Patched, WithCount, AnswerCount, WordBytes;
    ghost var was, answer := reply[..], Answer(q, ip, init, at);
    RepliedCount(was, request, init, qs, ip, at);
    RepliedEnd(was, request, init, qs, ip, at);
    RepliedMore(was, request, init, qs, q, ip, at);
    AnswersGrow(qs, q, ip, init, |request|);
    rend := WriteAnswer(reply, at, buff, qtype, q, ip, init);
    CountUntouched(was, at, answer);
    if qtype == QTYPE_A || qtype == QTYPE_NS || qtype == QTYPE_URI {
      var count := MyNtohs(reply, 6);
      WithCountIs(reply[..], count + 1);
      SetN16(reply, 6, count + 1);
    }
    QuestionCounted(was, reply[..], request, init, qs, q, ip, at, rend);
  }

  lemma QuestionCounted(was: seq<byte>, bytes: seq<byte>, request: seq<byte>, init: seq<byte>, qs: seq<Question>,
                        q: Question, ip: seq<byte>, at: nat, rend: nat)
    requires HEADER_SIZE <= |request| <= |init| == |was| == |bytes| < 0x1_0000 && |ip| == 4
    requires Replied(was, request, init, qs, ip, at) && Replied(bytes, request, init, qs + [q], ip, rend)
    ensures var answered := q.qtype == 1 || q.qtype == 2 || q.qtype == 256;
            && (answered <==> rend > at)
            && WordAt(bytes, 6) == WordAt(was, 6) + if answered then 1 else 0
  {
    RepliedCount(was, request, init, qs, ip, at);
    RepliedCount(bytes, request, init, qs + [q], ip, rend);
    RepliedEnd(was, request, init, qs, ip, at);
    RepliedEnd(bytes, request, init, qs + [q], ip, rend);
    AnswersGrow(qs, q, ip, init, |request|);
    AnswerThere(q, ip, init, at);
    hide *;
  }

  /** Exactly questions of type 1, 2 and 256 are answered. */
  lemma AnswerThere(q: Question, ip: seq<byte>, init: seq<byte>, at: nat)
    requires |ip| == 4
    ensures Answer(q, ip, init, at) != [] <==> q.qtype == 1 || q.qtype == 2 || q.qtype == 256
    ensures Answerable(q) <==> q.qtype == 1 || q.qtype == 2 || q.qtype == 256
  {
    if Answerable(q) {
      AnswerShape(q, ip, init, at);
    }
  }

  /** The entry checks, spelled out: 12 to 512 bytes, no records counted, and the second bit of
      the flags not set. */
  lemma PassesExactly(mem: seq<byte>, n: nat)
    requires n <= |mem|
    ensures Passes(mem, n) <==>
              && 12 <= n <= 512
              && mem[6] == mem[7] == mem[8] == mem[9] == mem[10] == mem[11] == 0
              && mem[2] % 4 < 2
  {
    if 12 <= n {
      ZeroWord(mem[6], mem[7]);
      ZeroWord(mem[8], mem[9]);
      ZeroWord(mem[10], mem[11]);
      SecondBit(mem[2]);
    }
    hide Word;
  }

  lemma ZeroWord(hi: byte, lo: byte)
    ensures Word(hi, lo) == 0 <==> hi == lo == 0
  {
  }

  lemma SecondBit(flags: byte)
    ensures flags / 2 % 2 == 0 <==> flags % 4 < 2
  {
    var q, r := flags / 4, flags % 4;
    assert flags == 4 * q + r;
    assert flags / 2 == 2 * q + r / 2;
  }

  lemma CountUntouched(s: seq<byte>, at: nat, t: seq<byte>)
    requires HEADER_SIZE <= at && at + |t| <= |s|
    ensures WordAt(Patched(s, at, t), 6) == WordAt(s, 6) < 0x1_0000
    ensures WithCount(Patched(s, at, t), WordAt(s, 6)) == Patched(s, at, t)
  {
    var r := Patched(s, at, t);
    assert r[6] == s[6] && r[7] == s[7];
    SameCount(r);
  }

  lemma SameCount(s: seq<byte>)
    requires HEADER_SIZE <= |s|
    ensures WithCount(s, WordAt(s, 6)) == s
  {
    assert WordAt(s, 6) / 256 == s[6] && WordAt(s, 6) % 256 == s[7];
  }

  lemma WithCountIs(s: seq<byte>, count: nat)
    requires HEADER_SIZE <= |s| && count < 0x1_0000
    ensures WithCount(s, count) == Patched(s, 6, WordBytes(count))
  {
  }

  /** What is sent back: header, and the answers behind the questions. */
  predicate IsReply(reply: seq<byte>, request: seq<byte>, qs: seq<Question>, ip: seq<byte>, init: seq<byte>)
    requires HEADER_SIZE <= |request|
  {
    && AnswerCount(qs) < 0x1_0000
    && reply == ReplyHeader(request, AnswerCount(qs)) + Answers(qs, ip, init, |request|)
  }

  /** The whole receive routine. `reply` is the buffer the reply is built in, with whatever
      it held before; the result is the length sent, or nothing. */
  method CaptdnsRecv(packet: array<byte>, length: nat, ip: seq<byte>, reply: array<byte>, buff: array<byte>,
                     ghost turns: nat)
    returns (sent: Option<nat>)
    requires |ip| == 4 && reply != buff && packet != reply && packet != buff
    requires reply.Length == buff.Length == DNS_LEN && length + 2 <= packet.Length
    requires Passes(packet[..], length) ==>
               var h := Hear(packet[..], length, turns, WordAt(packet[..], 4), HEADER_SIZE);
               !h.Broken? && length + |Answers(h.questions, ip, reply[..], length)| <= DNS_LEN
    modifies reply, buff
    ensures !Passes(packet[..], length) ==> sent.None?
    ensures Passes(packet[..], length) ==>
              var h := Hear(packet[..], length, turns, WordAt(packet[..], 4), HEADER_SIZE);
              && (sent.Some? <==> h.Heard?)
              && (h.Heard? ==>
                    && sent.value <= DNS_LEN
                    && IsReply(reply[..sent.value], packet[..length], h.questions, ip, old(reply[..])))
  {
    if length > DNS_LEN {
      return None;
    }
    if length < HEADER_SIZE {
      return None;
    }
    if MyNtohs(packet, 6) != 0 || MyNtohs(packet, 8) != 0 || MyNtohs(packet, 10) != 0 {
      return None;
    }
    if packet[2] / 2 % 2 != 0 {
      return None;
    }
    hide Hear, Answers, IsReply, Replied;
    ghost var init := reply[..];
    StartReply(packet, length, ip, reply);
    sent := AnswerAll(packet, length, ip, reply, buff, turns, packet[..length], init);
  }

  /** The reply starts as the request with QR set. */
  method StartReply(packet: array<byte>, length: nat, ghost ip: seq<byte>, reply: array<byte>)
    requires packet != reply && HEADER_SIZE <= length <= packet.Length && length <= reply.Length == DNS_LEN
    requires WordAt(packet[..], 6) == 0
    modifies reply
    ensures Replied(reply[..], packet[..length], old(reply[..]), [], ip, length)
  {
    hide Replied;
    ghost var init, request := reply[..], packet[..length];
    WriteBytes(reply, 0, packet[..length]);
    reply[2] := if reply[2] < FLAG_QR then reply[2] + FLAG_QR else reply[2];
    RepliedNothing(request, init, ip, reply[..]);
  }

  /** The question loop. */
  method AnswerAll(packet: array<byte>, length: nat, ip: seq<byte>, reply: array<byte>, buff: array<byte>,
                   ghost turns: nat, ghost request: seq<byte>, ghost init: seq<byte>)
    returns (sent: Option<nat>)
    requires |ip| == 4 && reply != buff && packet != reply && packet != buff
    requires reply.Length == buff.Length == |init| == DNS_LEN && length + 2 <= packet.Length
    requires HEADER_SIZE <= length <= DNS_LEN && request == packet[..length]
    requires Replied(reply[..], request, init, [], ip, length)
    requires var h := Hear(packet[..], length, turns, WordAt(packet[..], 4), HEADER_SIZE);
             !h.Broken? && length + |Answers(h.questions, ip, init, length)| <= DNS_LEN
    modifies reply, buff
    ensures var h := Hear(packet[..], length, turns, WordAt(packet[..], 4), HEADER_SIZE);
            && (sent.Some? <==> h.Heard?)
            && (h.Heard? ==> sent.value <= DNS_LEN && IsReply(reply[..sent.value], request, h.questions, ip, init))
  {
    hide Hear, Scan, Answers, Answer, AnswerCount, Join, CString, Replied, IsReply;
    ghost var mem := packet[..];
    var count := MyNtohs(packet, 4);
    ghost var goal := Hear(mem, length, turns, count, HEADER_SIZE);
    ghost var qs: seq<Question> := [];
    FollowingNothing(goal);
    var rend: nat := length;
    var p: nat := HEADER_SIZE;
    var i := 0;
    while i < count
      invariant 0 <= i <= count
      invariant packet[..] == mem
      invariant goal == Following(qs, Hear(mem, length, turns, count - i, p))
      invariant Replied(reply[..], request, init, qs, ip, rend)
    {
      HearStep(mem, length, turns, count - i, p, qs);
      ghost var s := Scan(mem, length, DNS_LEN, turns, p, 0);
      var next := LabelToStr(packet, p, length, buff, buff.Length, turns);
      if next.None? {
        return None;
      }
      CStringOf(buff[..], Join(s.labels));
      ghost var q := Question(s.labels, WordAt(mem, s.end), WordAt(mem, s.end + 2));
      p := next.value;
      var qtype := MyNtohs(packet, p);
      p := p + 4;
      RepliedEnd(reply[..], request, init, qs, ip, rend);
      AnswerFits(qs, q, goal.questions, ip, init, length, DNS_LEN);
      rend := AnswerQuestion(reply, rend, buff, qtype, ip, request, init, qs, q);
      qs := qs + [q];
      i := i + 1;
    }
    HearNothing(mem, length, turns, p, qs);
    RepliedIsReply(reply[..], request, init, qs, ip, rend);
    assert reply[..rend] == reply[..][..rend];
    return Some(rend);
  }

  lemma RepliedEnd(bytes: seq<byte>, request: seq<byte>, init: seq<byte>, qs: seq<Question>, ip: seq<byte>, rend: nat)
    requires HEADER_SIZE <= |request| <= |init| == |bytes| < 0x1_0000
    requires Replied(bytes, request, init, qs, ip, rend)
    ensures rend == |request| + |Answers(qs, ip, init, |request|)| <= |bytes|
  {
  }

  lemma RepliedIsReply(bytes: seq<byte>, request: seq<byte>, init: seq<byte>, qs: seq<Question>, ip: seq<byte>,
                       rend: nat)
    requires HEADER_SIZE <= |request| <= |init| == |bytes| < 0x1_0000
    requires Replied(bytes, request, init, qs, ip, rend)
    ensures rend <= |bytes| && IsReply(bytes[..rend], request, qs, ip, init)
  {
  }

  lemma HearNothing(mem: seq<byte>, n: nat, turns: nat, pos: nat, qs: seq<Question>)
    requires n + 2 <= |mem|
    ensures Following(qs, Hear(mem, n, turns, 0, pos)) == Heard(qs)
  {
    assert qs + [] == qs;
  }
}
