/** The responder's replies, read back by the reference reader of section 4.1 of RFC 1035. */
module DnsReplies {
  import opened Bytes
  import opened DnsNames
  import opened DnsMessages
  import opened CaptDns

  /** The questions the code can take: names other than the root, with at most one pointer,
      whose text fits. */
  predicate Asks(pkt: seq<byte>, count: nat, pos: nat)
    decreases count
  {
    count == 0 ||
    match ReadName(pkt, HEADER_SIZE, pos, pos)
    case None => false
    case Some(name) =>
      && pkt[pos] != 0 && name.labels != [] && name.pointers <= 1 && |Join(name.labels)| < DNS_LEN
      && Asks(pkt, count - 1, name.end + 4)
  }

  /** The questions that get an answer, in order. */
  function AnsweredOf(qs: seq<Question>): seq<Question> {
    if qs == [] then []
    else AnsweredOf(qs[..|qs| - 1]) + if Answerable(qs[|qs| - 1]) then [qs[|qs| - 1]] else []
  }

  function DataFor(q: Question, ip: seq<byte>): seq<byte> {
    if q.qtype == QTYPE_A then ip
    else if q.qtype == QTYPE_NS then NS_DATA
    else WordBytes(10) + WordBytes(1) + URI_TEXT
  }

  function ClassFor(q: Question): nat {
    if q.qtype == QTYPE_URI then QCLASS_URI else QCLASS_IN
  }

  /** The record a question is answered with. The code leaves the lower half of the TTL of an
      NS or URI record unwritten: it is whatever the two bytes `spare` of the buffer were. */
  function RecordOf(q: Question, ip: seq<byte>, spare: seq<byte>): Record
    requires |spare| == 2
  {
    Record(q.labels, q.qtype, ClassFor(q), if q.qtype == QTYPE_A then 0 else WordAt(spare, 0), DataFor(q, ip))
  }

  /** Where that half lies, for an answer written at `at` into a buffer that held `init`. */
  function SpareFor(q: Question, init: seq<byte>, at: nat): (s: seq<byte>)
    ensures |s| == 2
  {
    Spare(init, at + |NameBytes(q)| + 6)
  }

  /** The records of all answers, written from `at`. */
  function RecordsOf(qs: seq<Question>, ip: seq<byte>, init: seq<byte>, at: nat): seq<Record> {
    if qs == [] then []
    else
      var earlier, q := qs[..|qs| - 1], qs[|qs| - 1];
      RecordsOf(earlier, ip, init, at)
      + if Answerable(q) then [RecordOf(q, ip, SpareFor(q, init, at + |Answers(earlier, ip, init, at)|))] else []
  }

  predicate Matches(q: Question, r: Record, ip: seq<byte>) {
    r.labels == q.labels && r.rtype == q.qtype && r.rclass == ClassFor(q) && r.rdata == DataFor(q, ip)
  }

  predicate AllMatch(qs: seq<Question>, rs: seq<Record>, ip: seq<byte>) {
    |qs| == |rs| && forall i | 0 <= i < |qs| :: Matches(qs[i], rs[i], ip)
  }

  /** A question with a name the wire can carry. */
  predicate Sound(q: Question) {
    q.labels != [] && Labels(q.labels)
  }

  /** No label of an answered question holds a dot or a NUL. */
  predicate AnswersPlain(qs: seq<Question>) {
    forall q <- qs :: Answerable(q) ==> Plain(q.labels)
  }

  // ---------------------------------------------------------------- the questions

  /** One question name, as the code scans it. */
  lemma ScansQuestion(mem: seq<byte>, n: nat, turns: nat, pos: nat)
    requires n + 2 <= |mem| && ReadName(mem[..n], HEADER_SIZE, pos, pos).Some? && ManyTurns(n) <= turns
    requires var name := ReadName(mem[..n], HEADER_SIZE, pos, pos).value;
             mem[..n][pos] != 0 && name.labels != [] && name.pointers <= 1 && |Join(name.labels)| < DNS_LEN
    ensures pos < n
    ensures var name := ReadName(mem[..n], HEADER_SIZE, pos, pos).value;
            && Scan(mem, n, DNS_LEN, turns, pos, 0) == Done(name.labels, name.end, name.pointers)
            && Labels(name.labels)
  {
    assert pos < n && mem[pos] == mem[..n][pos];
    ReadLabels(mem[..n], HEADER_SIZE, pos, pos);
    TurnsSuffice(mem[..n], HEADER_SIZE, pos);
    ScanReads(mem, n, DNS_LEN, turns, HEADER_SIZE, pos, pos, 0);
  }

  /** One question, as the loop hears it and as the reader reads it. */
  lemma OneQuestion(mem: seq<byte>, n: nat, turns: nat, count: nat, pos: nat) returns (q: Question, next: nat)
    requires n + 2 <= |mem| && count > 0 && ManyTurns(n) <= turns
    requires ReadQuestions(mem[..n], HEADER_SIZE, count, pos).Some? && Asks(mem[..n], count, pos)
    ensures pos < next <= n && Sound(q)
    ensures ReadQuestions(mem[..n], HEADER_SIZE, count - 1, next).Some? && Asks(mem[..n], count - 1, next)
    ensures var (rest, end) := ReadQuestions(mem[..n], HEADER_SIZE, count - 1, next).value;
            ReadQuestions(mem[..n], HEADER_SIZE, count, pos) == Some(([q] + rest, end))
    ensures Hear(mem, n, turns, count, pos) == Following([q], Hear(mem, n, turns, count - 1, next))
  {
    hide ReadName, Scan, Join, Labels;
    var name := ReadName(mem[..n], HEADER_SIZE, pos, pos).value;
    ScansQuestion(mem, n, turns, pos);
    EndsLater(mem[..n], HEADER_SIZE, pos, pos);
    WordsBefore(mem, n, name.end);
    WordsBefore(mem, n, name.end + 2);
    next := name.end + 4;
    q := Question(name.labels, WordAt(mem, name.end), WordAt(mem, name.end + 2));
  }

  lemma WordsBefore(mem: seq<byte>, n: nat, k: nat)
    requires k + 2 <= n <= |mem|
    ensures WordAt(mem[..n], k) == WordAt(mem, k)
  {
  }

  predicate AllSound(qs: seq<Question>) {
    forall q <- qs :: Sound(q)
  }

  lemma AllSoundCons(q: Question, qs: seq<Question>)
    requires Sound(q) && AllSound(qs)
    ensures AllSound([q] + qs)
  {
    hide Sound;
  }

  lemma NoQuestions(mem: seq<byte>, n: nat, turns: nat, pos: nat)
    requires n + 2 <= |mem|
    ensures Hear(mem, n, turns, 0, pos) == Heard([])
             && ReadQuestions(mem[..n], HEADER_SIZE, 0, pos) == Some(([], pos))
    ensures AllSound([])
  {
  }

  /** The question loop hears exactly the questions the reader reads. */
  lemma {:induction false} HearsQuestions(mem: seq<byte>, n: nat, turns: nat, count: nat, pos: nat)
    requires n + 2 <= |mem| && ManyTurns(n) <= turns
    requires ReadQuestions(mem[..n], HEADER_SIZE, count, pos).Some? && Asks(mem[..n], count, pos)
    ensures Hear(mem, n, turns, count, pos) == Heard(ReadQuestions(mem[..n], HEADER_SIZE, count, pos).value.0)
    ensures AllSound(ReadQuestions(mem[..n], HEADER_SIZE, count, pos).value.0)
    decreases count
  {
    hide Hear, ReadQuestions, Asks, Sound, AllSound;
    if count > 0 {
      var q, next := OneQuestion(mem, n, turns, count, pos);
      HearsQuestions(mem, n, turns, count - 1, next);
      AllSoundCons(q, ReadQuestions(mem[..n], HEADER_SIZE, count - 1, next).value.0);
    } else {
      NoQuestions(mem, n, turns, pos);
    }
  }

  /** Questions depend only on what lies between the header and the end of the packet. */
  lemma {:induction false} QuestionsStable(pkt: seq<byte>, pkt': seq<byte>, count: nat, pos: nat)
    requires HEADER_SIZE <= pos && |pkt| <= |pkt'|
    requires forall k | HEADER_SIZE <= k < |pkt| :: pkt[k] == pkt'[k]
    requires ReadQuestions(pkt, HEADER_SIZE, count, pos).Some?
    ensures ReadQuestions(pkt', HEADER_SIZE, count, pos) == ReadQuestions(pkt, HEADER_SIZE, count, pos)
    decreases count
  {
    hide ReadQuestions, ReadName, WordAt;
    if count == 0 {
      NoneRead(pkt, pos);
      NoneRead(pkt', pos);
    } else {
      var name, rest, end := FirstRead(pkt, count, pos);
      ReadNameStable(pkt, pkt', HEADER_SIZE, pos, pos);
      EndsLater(pkt, HEADER_SIZE, pos, pos);
      QuestionsStable(pkt, pkt', count - 1, name.end + 4);
      WordStable(pkt, pkt', name.end);
      WordStable(pkt, pkt', name.end + 2);
      OneMore(pkt, count - 1, pos, name, rest, end);
      OneMore(pkt', count - 1, pos, name, rest, end);
    }
  }

  lemma NoneRead(pkt: seq<byte>, pos: nat)
    ensures ReadQuestions(pkt, HEADER_SIZE, 0, pos) == Some(([], pos))
  {
  }

  lemma FirstRead(pkt: seq<byte>, count: nat, pos: nat) returns (name: Name, rest: seq<Question>, end: nat)
    requires count > 0 && ReadQuestions(pkt, HEADER_SIZE, count, pos).Some?
    ensures ReadName(pkt, HEADER_SIZE, pos, pos) == Some(name) && name.end + 4 <= |pkt|
    ensures ReadQuestions(pkt, HEADER_SIZE, count - 1, name.end + 4) == Some((rest, end))
  {
    hide ReadName, WordAt;
    name := ReadName(pkt, HEADER_SIZE, pos, pos).value;
    rest := ReadQuestions(pkt, HEADER_SIZE, count - 1, name.end + 4).value.0;
    end := ReadQuestions(pkt, HEADER_SIZE, count - 1, name.end + 4).value.1;
  }

  lemma WordStable(pkt: seq<byte>, pkt': seq<byte>, k: nat)
    requires k + 2 <= |pkt| <= |pkt'| && pkt[k] == pkt'[k] && pkt[k + 1] == pkt'[k + 1]
    ensures WordAt(pkt, k) == WordAt(pkt', k)
  {
  }

  lemma {:induction false} EndsLater(pkt: seq<byte>, low: nat, start: nat, pos: nat)
    requires start <= pos && ReadName(pkt, low, start, pos).Some?
    ensures ReadName(pkt, low, start, pos).value.end > pos
    decreases start, if pos < |pkt| then |pkt| - pos else 0
  {
    if pkt[pos] != 0 && pkt[pos] < 64 {
      EndsLater(pkt, low, start, pos + 1 + pkt[pos]);
    }
  }

  // ---------------------------------------------------------------- the answers

  /** One answer, wherever it stands, is read as its record, and its announced data length
      is the length of its data. */
  lemma ReadAnswer(pkt: seq<byte>, at: nat, q: Question, ip: seq<byte>, init: seq<byte>)
    requires Sound(q) && Plain(q.labels) && Answerable(q) && |ip| == 4
    requires var a := Answer(q, ip, init, at); at + |a| <= |pkt| && pkt[at..at + |a|] == a
    ensures ReadRecord(pkt, HEADER_SIZE, at)
            == Some((RecordOf(q, ip, SpareFor(q, init, at)), at + |Answer(q, ip, init, at)|))
  {
    hide EncodeName, NameBytes, Answer, AnswerTail, RecordOf, ReadName, ReadRecord, Sound, Labels, Plain, Spare, Word,
         Answerable;
    var p := at + |NameBytes(q)|;
    var tail := AnswerTail(q, ip, Spare(init, p + 6));
    NameIsEncoded(q);
    AnswerShape(q, ip, init, at);
    SplitAt(pkt, at, NameBytes(q), tail, Answer(q, ip, init, at));
    SoundLabels(q);
    ReadEncoded(pkt, HEADER_SIZE, at, at, q.labels);
    ReadTail(pkt, p, q, ip, Spare(init, p + 6));
    RecordAt(pkt, at, q.labels, p, |tail|);
  }

  lemma SoundLabels(q: Question)
    requires Sound(q)
    ensures Labels(q.labels) && q.labels != []
  {
  }

  /** A name, then at least ten bytes of which the last two announce the rest. */
  lemma RecordAt(pkt: seq<byte>, at: nat, labels: seq<Label>, p: nat, size: nat)
    requires ReadName(pkt, HEADER_SIZE, at, at) == Some(Name(labels, p, 0))
    requires 10 <= size && p + size <= |pkt| && WordAt(pkt, p + 8) == size - 10
    ensures ReadRecord(pkt, HEADER_SIZE, at)
            == Some((Record(labels, WordAt(pkt, p), WordAt(pkt, p + 2),
                            WordAt(pkt, p + 4) * 0x1_0000 + WordAt(pkt, p + 6), pkt[p + 10..p + size]), p + size))
  {
    hide ReadName, Word;
  }

  lemma SplitAt(s: seq<byte>, at: nat, x: seq<byte>, y: seq<byte>, xy: seq<byte>)
    requires xy == x + y && at + |xy| <= |s| && s[at..at + |xy|] == xy
    ensures at + |xy| == at + |x| + |y| && s[at..at + |x|] == x && s[at + |x|..at + |x| + |y|] == y
  {
    BothParts(s, at, x, y);
  }

  lemma NameIsEncoded(q: Question)
    requires Sound(q) && Plain(q.labels)
    ensures NameBytes(q) == EncodeName(q.labels)
  {
    WireOfText(q.labels);
  }

  lemma BothParts(s: seq<byte>, at: nat, x: seq<byte>, y: seq<byte>)
    requires at + |x| + |y| <= |s| && s[at..at + |x + y|] == x + y
    ensures s[at..at + |x|] == x && s[at + |x|..at + |x| + |y|] == y
  {
    var a := x + y;
    Subslice(s, at, at + |a|, 0, |x|);
    Subslice(s, at, at + |a|, |x|, |a|);
    assert a[0..|x|] == x && a[|x|..|a|] == y;
  }

  /** The words and the data of the three kinds of fixed part. */
  lemma TailWords(q: Question, ip: seq<byte>, spare: seq<byte>)
    requires Answerable(q) && |ip| == 4 && |spare| == 2
    ensures var t := AnswerTail(q, ip, spare);
            && 10 <= |t|
            && WordAt(t, 0) == q.qtype
            && WordAt(t, 2) == ClassFor(q)
            && WordAt(t, 4) == 0
            && WordAt(t, 6) == (if q.qtype == QTYPE_A then 0 else WordAt(spare, 0))
            && WordAt(t, 8) == |t| - 10
            && t[10..] == DataFor(q, ip)
  {
    if q.qtype == QTYPE_A {
      FooterWords(QTYPE_A, QCLASS_IN, [0, 0], 4, ip);
    } else if q.qtype == QTYPE_NS {
      FooterWords(QTYPE_NS, QCLASS_IN, spare, 4, NS_DATA);
    } else {
      FooterWords(QTYPE_URI, QCLASS_URI, spare, 20, WordBytes(10) + WordBytes(1) + URI_TEXT);
    }
  }

  lemma FooterWords(rtype: nat, rclass: nat, low: seq<byte>, rdlength: nat, data: seq<byte>)
    requires rtype < 0x1_0000 && rclass < 0x1_0000 && rdlength < 0x1_0000 && |low| == 2
    ensures var t := Footer(rtype, rclass, low, rdlength) + data;
            && WordAt(t, 0) == rtype && WordAt(t, 2) == rclass
            && WordAt(t, 4) == 0 && WordAt(t, 6) == WordAt(low, 0) && WordAt(t, 8) == rdlength
            && t[10..] == data
  {
    hide WordBytes;
    var f := Footer(rtype, rclass, low, rdlength);
    assert forall k | 0 <= k < 10 :: (f + data)[k] == f[k];
  }

  lemma WordWithin(pkt: seq<byte>, p: nat, t: seq<byte>, k: nat)
    requires p + |t| <= |pkt| && pkt[p..p + |t|] == t && k + 2 <= |t|
    ensures WordAt(pkt, p + k) == WordAt(t, k)
  {
    assert pkt[p..p + |t|][k] == t[k] && pkt[p..p + |t|][k + 1] == t[k + 1];
  }

  /** The fixed part behind a name. */
  lemma ReadTail(pkt: seq<byte>, p: nat, q: Question, ip: seq<byte>, spare: seq<byte>)
    requires Answerable(q) && |ip| == 4 && |spare| == 2
    requires var t := AnswerTail(q, ip, spare); p + |t| <= |pkt| && pkt[p..p + |t|] == t
    ensures var t := AnswerTail(q, ip, spare);
            && 10 <= |t|
            && WordAt(pkt, p + 8) == |t| - 10
            && RecordOf(q, ip, spare)
               == Record(q.labels, WordAt(pkt, p), WordAt(pkt, p + 2),
                         WordAt(pkt, p + 4) * 0x1_0000 + WordAt(pkt, p + 6), pkt[p + 10..p + |t|])
  {
    var t := AnswerTail(q, ip, spare);
    TailWords(q, ip, spare);
    hide AnswerTail, DataFor, Word;
    WordWithin(pkt, p, t, 0);
    WordWithin(pkt, p, t, 2);
    WordWithin(pkt, p, t, 4);
    WordWithin(pkt, p, t, 6);
    WordWithin(pkt, p, t, 8);
    Subslice(pkt, p, p + |t|, 10, |t|);
    assert t[10..|t|] == t[10..];
  }

  lemma {:induction false} ReadRecordsMore(pkt: seq<byte>, count: nat, pos: nat, rs: seq<Record>, end: nat,
                                           r: Record, end': nat)
    requires ReadRecords(pkt, HEADER_SIZE, count, pos) == Some((rs, end))
    requires ReadRecord(pkt, HEADER_SIZE, end) == Some((r, end'))
    ensures ReadRecords(pkt, HEADER_SIZE, count + 1, pos) == Some((rs + [r], end'))
    decreases count
  {
    hide ReadRecord;
    if count == 0 {
      assert ReadRecords(pkt, HEADER_SIZE, 0, end') == Some(([], end'));
      assert [] + [r] == [r] + [];
    } else {
      var (first, next) := ReadRecord(pkt, HEADER_SIZE, pos).value;
      ReadRecordsMore(pkt, count - 1, next, rs[1..], end, r, end');
      assert rs == [first] + rs[1..];
      assert [first] + (rs[1..] + [r]) == rs + [r];
    }
  }

  /** The answers, read one after the other. */
  lemma {:induction false} ReadAnswers(pkt: seq<byte>, n: nat, qs: seq<Question>, ip: seq<byte>, init: seq<byte>)
    requires |ip| == 4 && AllSound(qs) && AnswersPlain(qs)
    requires var as' := Answers(qs, ip, init, n); n + |as'| <= |pkt| && pkt[n..n + |as'|] == as'
    ensures ReadRecords(pkt, HEADER_SIZE, AnswerCount(qs), n)
            == Some((RecordsOf(qs, ip, init, n), n + |Answers(qs, ip, init, n)|))
    decreases |qs|
  {
    hide ReadRecord, RecordOf, SpareFor, Answer, Sound, Plain, Answerable;
    if qs == [] {
      assert ReadRecords(pkt, HEADER_SIZE, 0, n) == Some(([], n));
    } else {
      var earlier, q := qs[..|qs| - 1], qs[|qs| - 1];
      assert forall e <- earlier :: e in qs;
      assert q in qs;
      var before := Answers(earlier, ip, init, n);
      var at := n + |before|;
      BothParts(pkt, n, before, Answer(q, ip, init, at));
      ReadAnswers(pkt, n, earlier, ip, init);
      hide ReadRecords, Answers;
      if Answerable(q) {
        ReadAnswer(pkt, at, q, ip, init);
        ReadRecordsMore(pkt, AnswerCount(earlier), n, RecordsOf(earlier, ip, init, n), at,
                        RecordOf(q, ip, SpareFor(q, init, at)), at + |Answer(q, ip, init, at)|);
      } else {
        NothingAnswered(q, ip, init, at);
        assert RecordsOf(earlier, ip, init, n) + [] == RecordsOf(earlier, ip, init, n);
        assert before + [] == before;
      }
    }
  }

  /** Those records match the answered questions. */
  lemma {:induction false} RecordsMatch(qs: seq<Question>, ip: seq<byte>, init: seq<byte>, at: nat)
    ensures AllMatch(AnsweredOf(qs), RecordsOf(qs, ip, init, at), ip)
    decreases |qs|
  {
    if qs != [] {
      RecordsMatch(qs[..|qs| - 1], ip, init, at);
    }
  }

  /** An NS question answered in a buffer that held ones: the record read back has TTL 65535. */
  lemma TtlLeftOver(pkt: seq<byte>, q: Question, ip: seq<byte>, init: seq<byte>, at: nat)
    requires Sound(q) && Plain(q.labels) && q.qtype == QTYPE_NS && |ip| == 4
    requires init == seq(DNS_LEN, _ => 255) && at + |Answer(q, ip, init, at)| <= |pkt| <= DNS_LEN
    requires pkt[at..at + |Answer(q, ip, init, at)|] == Answer(q, ip, init, at)
    ensures ReadRecord(pkt, HEADER_SIZE, at).Some? && ReadRecord(pkt, HEADER_SIZE, at).value.0.ttl == 0xFFFF
  {
    hide ReadRecord, NameBytes, AnswerTail, Labels, Plain, Answer;
    ReadAnswer(pkt, at, q, ip, init);
    AnswerShape(q, ip, init, at);
    assert SpareFor(q, init, at) == [255, 255];
  }

  lemma NothingAnswered(q: Question, ip: seq<byte>, init: seq<byte>, at: nat)
    requires !Answerable(q)
    ensures Answer(q, ip, init, at) == []
  {
  }

  // ---------------------------------------------------------------- the reply

  /** A request that passes the entry checks and that the reader accepts. */
  predicate Accepted(mem: seq<byte>, n: nat) {
    n + 2 <= |mem| && Passes(mem, n) && ReadMessage(mem[..n]).Some?
  }

  /** And whose questions the code can take. */
  predicate Takes(mem: seq<byte>, n: nat) {
    Accepted(mem, n) && Asks(mem[..n], WordAt(mem, 4), HEADER_SIZE)
  }

  function QuestionsIn(mem: seq<byte>, n: nat): seq<Question>
    requires Accepted(mem, n)
  {
    ReadMessage(mem[..n]).value.questions
  }

  lemma QuestionsRead(mem: seq<byte>, n: nat)
    requires Accepted(mem, n)
    ensures ReadQuestions(mem[..n], HEADER_SIZE, WordAt(mem, 4), HEADER_SIZE) == Some((QuestionsIn(mem, n), n))
  {
    hide ReadQuestions, Word;
    assert forall k | 0 <= k < HEADER_SIZE :: mem[..n][k] == mem[k];
    RequestEnds(mem[..n], WordAt(mem, 4));
  }

  /** The code hears exactly the questions it can take. */
  lemma RequestHeard(mem: seq<byte>, n: nat, turns: nat)
    requires Takes(mem, n) && ManyTurns(n) <= turns
    ensures Hear(mem, n, turns, WordAt(mem, 4), HEADER_SIZE) == Heard(QuestionsIn(mem, n))
             && AllSound(QuestionsIn(mem, n))
  {
    hide Asks, Hear, ReadQuestions, AllSound, Word, ReadMessage;
    QuestionsRead(mem, n);
    HearsQuestions(mem, n, turns, WordAt(mem, 4), HEADER_SIZE);
  }

  /** What a reply with the answers to these questions looks like to a reader, up to its
      answers. */
  lemma ReplyRead(mem: seq<byte>, n: nat, hs: seq<Question>, ip: seq<byte>, init: seq<byte>, reply: seq<byte>)
    requires Accepted(mem, n) && IsReply(reply, mem[..n], hs, ip, init)
    ensures var answers := Answers(hs, ip, init, n);
            && HEADER_SIZE <= n <= |reply| == n + |answers| && reply[n..n + |answers|] == answers
            && WordAt(reply, 6) == AnswerCount(hs) && WordAt(reply, 8) == 0 && WordAt(reply, 10) == 0
            && WordAt(reply, 0) == WordAt(mem, 0) && WordAt(reply, 4) == WordAt(mem, 4)
            && reply[2] == (if mem[2] < FLAG_QR then mem[2] + FLAG_QR else mem[2]) && reply[3] == mem[3]
            && ReadQuestions(reply, HEADER_SIZE, WordAt(reply, 4), HEADER_SIZE) == Some((QuestionsIn(mem, n), n))
  {
    hide Answers, AnswerCount, ReplyHeader, ReadQuestions, Word;
    var request := mem[..n];
    assert forall k | 0 <= k < HEADER_SIZE :: request[k] == mem[k];
    RequestEnds(request, WordAt(mem, 4));
    ReplyHeaderReads(request, AnswerCount(hs), Answers(hs, ip, init, n), reply);
    QuestionsStable(request, reply, WordAt(mem, 4), HEADER_SIZE);
  }

  /** The same answers: for the same names, of the same types. */
  predicate SameAnswers(a: seq<Question>, b: seq<Question>) {
    |a| == |b| && forall i | 0 <= i < |a| :: a[i].labels == b[i].labels && a[i].qtype == b[i].qtype
  }

  lemma SameMatches(a: seq<Question>, b: seq<Question>, rs: seq<Record>, ip: seq<byte>)
    requires AllMatch(a, rs, ip)
    ensures AllMatch(b, rs, ip) <==> SameAnswers(a, b)
  {
    if AllMatch(b, rs, ip) {
      forall i | 0 <= i < |a|
        ensures a[i].labels == b[i].labels && a[i].qtype == b[i].qtype
      {
        assert Matches(a[i], rs[i], ip) && Matches(b[i], rs[i], ip);
      }
    }
  }

  /** Whatever questions the code hears, if no label of an answered one holds a dot or a NUL,
      the reply is read as the same header with QR set, the questions asked, and exactly one
      record for each answered question heard, in order. It is the promised reply exactly when
      the questions to be answered are heard right. */
  lemma ReplyOfHeard(mem: seq<byte>, n: nat, hs: seq<Question>, ip: seq<byte>, init: seq<byte>, reply: seq<byte>)
    requires Accepted(mem, n) && AllSound(hs) && AnswersPlain(hs)
    requires IsReply(reply, mem[..n], hs, ip, init) && |ip| == 4
    ensures ReadMessage(reply).Some?
    ensures var request := ReadMessage(mem[..n]).value;
            var m := ReadMessage(reply).value;
            && m.id == request.id && m.rcode == request.rcode
            && m.flags == (if request.flags < FLAG_QR then request.flags + FLAG_QR else request.flags)
            && m.questions == request.questions
            && m.answers == RecordsOf(hs, ip, init, n)
            && (AllMatch(AnsweredOf(request.questions), m.answers, ip)
                <==> SameAnswers(AnsweredOf(hs), AnsweredOf(request.questions)))
  {
    hide Answers, AnswerCount, ReplyHeader, ReadQuestions, ReadRecords, AllSound, AllMatch, AnsweredOf,
         AnswersPlain, RecordsOf, Accepted, IsReply, Word, ReadMessage, SameAnswers;
    ReplyRead(mem, n, hs, ip, init, reply);
    RequestFields(mem, n);
    RecordsMatch(hs, ip, init, n);
    ReadAnswers(reply, n, hs, ip, init);
    WholeReply(reply, n, QuestionsIn(mem, n), RecordsOf(hs, ip, init, n));
    SameMatches(AnsweredOf(hs), AnsweredOf(QuestionsIn(mem, n)), RecordsOf(hs, ip, init, n), ip);
  }

  /** Reply well-formedness: if no label of an answered question holds a dot or a NUL, the
      reply is read as the same header with QR set, the same questions, and exactly one record
      for each A, NS and URI question, in order. */
  lemma ReplyWellFormed(mem: seq<byte>, n: nat, ip: seq<byte>, init: seq<byte>, reply: seq<byte>)
    requires Takes(mem, n) && IsReply(reply, mem[..n], QuestionsIn(mem, n), ip, init) && |ip| == 4
    requires AnswersPlain(QuestionsIn(mem, n))
    ensures ReadMessage(reply).Some?
    ensures var request := ReadMessage(mem[..n]).value;
            var m := ReadMessage(reply).value;
            && m.id == request.id && m.rcode == request.rcode
            && m.flags == (if request.flags < FLAG_QR then request.flags + FLAG_QR else request.flags)
            && m.questions == request.questions
            && m.answers == RecordsOf(request.questions, ip, init, n)
            && AllMatch(AnsweredOf(request.questions), m.answers, ip)
  {
    hide Hear, AllSound, AllMatch, AnsweredOf, AnswersPlain, RecordsOf, IsReply, Word, ReadMessage, Asks;
    RequestHeard(mem, n, ManyTurns(n));
    ReplyOfHeard(mem, n, QuestionsIn(mem, n), ip, init, reply);
  }

  lemma WholeReply(reply: seq<byte>, n: nat, qs: seq<Question>, rs: seq<Record>)
    requires HEADER_SIZE <= |reply| && WordAt(reply, 8) == 0 && WordAt(reply, 10) == 0
    requires ReadQuestions(reply, HEADER_SIZE, WordAt(reply, 4), HEADER_SIZE) == Some((qs, n))
    requires ReadRecords(reply, HEADER_SIZE, WordAt(reply, 6), n) == Some((rs, |reply|))
    ensures ReadMessage(reply) == Some(Message(WordAt(reply, 0), reply[2], reply[3], qs, rs))
  {
    hide ReadQuestions, ReadRecords, Word;
  }

  // ---------------------------------------------------------------- the answers, spelled out

  predicate Wanted(q: Question) {
    q.qtype == 1 || q.qtype == 2 || q.qtype == 256
  }

  function AllWanted(qs: seq<Question>): seq<Question> {
    if qs == [] then []
    else AllWanted(qs[..|qs| - 1]) + if Wanted(qs[|qs| - 1]) then [qs[|qs| - 1]] else []
  }

  /** The record for a question: an address of TTL 0 in class 1, the name "ns" in class 1, or in
      class 256 priority 10, weight 1 and "http://esp.nonet". */
  predicate Gives(q: Question, r: Record, ip: seq<byte>) {
    && r.labels == q.labels && r.rtype == q.qtype
    && (q.qtype == 1 ==> r.rclass == 1 && r.ttl == 0 && r.rdata == ip)
    && (q.qtype == 2 ==> r.rclass == 1 && r.rdata == [2, 110, 115, 0])
    && (q.qtype == 256 ==>
          && r.rclass == 256
          && r.rdata == [0, 10, 0, 1] + [104, 116, 116, 112, 58, 47, 47, 101, 115, 112, 46, 110, 111, 110, 101, 116])
  }

  lemma RecordGives(q: Question, ip: seq<byte>, spare: seq<byte>)
    requires Wanted(q) && |spare| == 2
    ensures Answerable(q) && Gives(q, RecordOf(q, ip, spare), ip)
  {
    if q.qtype == 256 {
      assert WordBytes(10) + WordBytes(1) == [0, 10, 0, 1];
    }
  }

  lemma {:induction false} RecordsGive(qs: seq<Question>, ip: seq<byte>, init: seq<byte>, at: nat)
    ensures var rs, wanted := RecordsOf(qs, ip, init, at), AllWanted(qs);
            |rs| == |wanted| && forall i | 0 <= i < |rs| :: Gives(wanted[i], rs[i], ip)
    decreases |qs|
  {
    hide RecordOf, SpareFor, Gives, Answers;
    if qs != [] {
      var earlier, q := qs[..|qs| - 1], qs[|qs| - 1];
      RecordsGive(earlier, ip, init, at);
      if Wanted(q) {
        RecordGives(q, ip, SpareFor(q, init, at + |Answers(earlier, ip, init, at)|));
      }
    }
  }

  /** What the sender of a request reads, without a name of the code: flags with the first bit
      set and the rest as they were, the questions, and exactly one record for each question of
      type 1, 2 or 256, in order. */
  lemma ReplySpelled(mem: seq<byte>, n: nat, ip: seq<byte>, init: seq<byte>, reply: seq<byte>)
    requires Takes(mem, n) && IsReply(reply, mem[..n], QuestionsIn(mem, n), ip, init) && |ip| == 4
    requires forall q <- QuestionsIn(mem, n) :: Wanted(q) ==> Plain(q.labels)
    ensures ReadMessage(reply).Some?
    ensures var m, wanted := ReadMessage(reply).value, AllWanted(QuestionsIn(mem, n));
            && m.id == 256 * mem[0] as int + mem[1] && m.flags == 128 + mem[2] % 128 && m.rcode == mem[3]
            && m.questions == QuestionsIn(mem, n)
            && |m.answers| == |wanted|
            && forall i | 0 <= i < |wanted| :: Gives(wanted[i], m.answers[i], ip)
  {
    TakesAccepted(mem, n);
    IdSpelled(mem, n);
    hide *;
    PlainWanted(QuestionsIn(mem, n));
    ReplyWellFormed(mem, n, ip, init, reply);
    RequestFields(mem, n);
    RecordsGive(QuestionsIn(mem, n), ip, init, n);
  }

  lemma IdSpelled(mem: seq<byte>, n: nat)
    requires Accepted(mem, n)
    ensures WordAt(mem, 0) == 256 * mem[0] as int + mem[1]
    ensures (if mem[2] < FLAG_QR then mem[2] + FLAG_QR else mem[2]) == 128 + mem[2] % 128
  {
    hide ReadMessage;
    FirstBit(mem[2]);
  }

  lemma FirstBit(b: byte)
    ensures (if b < FLAG_QR then b + FLAG_QR else b) == 128 + b % 128
  {
    if b >= 128 {
      assert b % 128 == b - 128;
    }
  }

  lemma PlainWanted(qs: seq<Question>)
    requires forall q <- qs :: Wanted(q) ==> Plain(q.labels)
    ensures AnswersPlain(qs)
  {
    hide Plain;
  }

  // ---------------------------------------------------------------- the TTLs in a reply

  lemma {:induction false} RecordsPrefix(qs: seq<Question>, k: nat, ip: seq<byte>, init: seq<byte>, at: nat)
    requires k <= |qs|
    ensures RecordsOf(qs[..k], ip, init, at) <= RecordsOf(qs, ip, init, at)
    ensures |RecordsOf(qs[..k], ip, init, at)| == AnswerCount(qs[..k])
    decreases |qs|
  {
    hide RecordOf, SpareFor, Answers, Answerable;
    if k < |qs| {
      RecordsPrefix(qs[..|qs| - 1], k, ip, init, at);
      assert qs[..|qs| - 1][..k] == qs[..k];
    } else {
      assert qs[..k] == qs;
      if qs != [] {
        RecordsPrefix(qs[..|qs| - 1], |qs| - 1, ip, init, at);
        assert qs[..|qs| - 1][..|qs| - 1] == qs[..|qs| - 1];
      }
    }
  }

  /** The record of the k-th question, if it is answered. */
  lemma RecordFor(qs: seq<Question>, k: nat, ip: seq<byte>, init: seq<byte>, at: nat)
    requires k < |qs| && Answerable(qs[k])
    ensures var c, rs := AnswerCount(qs[..k]), RecordsOf(qs, ip, init, at);
            && c < |rs|
            && rs[c] == RecordOf(qs[k], ip, SpareFor(qs[k], init, at + |Answers(qs[..k], ip, init, at)|))
  {
    hide *;
    RecordsPrefix(qs, k, ip, init, at);
    RecordsPrefix(qs, k + 1, ip, init, at);
    RecordsGrow(qs, k, ip, init, at);
    PrefixAt(RecordsOf(qs[..k], ip, init, at), RecordsOf(qs[..k + 1], ip, init, at), RecordsOf(qs, ip, init, at),
             RecordOf(qs[k], ip, SpareFor(qs[k], init, at + |Answers(qs[..k], ip, init, at)|)));
  }

  lemma RecordsGrow(qs: seq<Question>, k: nat, ip: seq<byte>, init: seq<byte>, at: nat)
    requires k < |qs| && Answerable(qs[k])
    ensures RecordsOf(qs[..k + 1], ip, init, at)
            == RecordsOf(qs[..k], ip, init, at)
               + [RecordOf(qs[k], ip, SpareFor(qs[k], init, at + |Answers(qs[..k], ip, init, at)|))]
  {
    hide RecordOf, SpareFor, Answers, Answerable;
    assert qs[..k + 1][..k] == qs[..k];
  }

  lemma PrefixAt(a: seq<Record>, longer: seq<Record>, all: seq<Record>, r: Record)
    requires longer == a + [r] && longer <= all
    ensures |a| < |all| && all[|a|] == r
  {
    assert all[|a|] == longer[|a|];
  }

  /** Where the reply buffer keeps the lower half of the TTL of the answer to question k. */
  function TtlPlace(qs: seq<Question>, k: nat, ip: seq<byte>, init: seq<byte>, n: nat): nat
    requires k < |qs|
  {
    n + |Answers(qs[..k], ip, init, n)| + |NameBytes(qs[k])| + 6
  }

  /** The record for question k has TTL 0 exactly when it is an A record or those two bytes
      were 0. */
  predicate ZeroTtl(qs: seq<Question>, k: nat, rs: seq<Record>, ip: seq<byte>, init: seq<byte>, n: nat)
    requires k < |qs|
  {
    var c, place := AnswerCount(qs[..k]), TtlPlace(qs, k, ip, init, n);
    && c < |rs| && place + 2 <= |init|
    && (rs[c].ttl == 0 <==> qs[k].qtype == QTYPE_A || (init[place] == 0 && init[place + 1] == 0))
  }

  /** The TTL read in the answer to question k is 0 if and only if that is an A record or the
      two bytes the code leaves unwritten were 0 in the buffer. */
  lemma TtlExactly(mem: seq<byte>, n: nat, ip: seq<byte>, init: seq<byte>, reply: seq<byte>, k: nat)
    requires Takes(mem, n) && IsReply(reply, mem[..n], QuestionsIn(mem, n), ip, init) && |ip| == 4
    requires AnswersPlain(QuestionsIn(mem, n)) && |reply| <= |init|
    requires k < |QuestionsIn(mem, n)| && Answerable(QuestionsIn(mem, n)[k])
    ensures ReadMessage(reply).Some?
    ensures ZeroTtl(QuestionsIn(mem, n), k, ReadMessage(reply).value.answers, ip, init, n)
  {
    TakesAccepted(mem, n);
    hide *;
    var qs := QuestionsIn(mem, n);
    RequestFields(mem, n);
    ReplyWellFormed(mem, n, ip, init, reply);
    ReplyLength(mem, n, qs, ip, init, reply);
    TtlRecorded(qs, k, ip, init, n);
  }

  lemma ReplyLength(mem: seq<byte>, n: nat, hs: seq<Question>, ip: seq<byte>, init: seq<byte>, reply: seq<byte>)
    requires Accepted(mem, n) && IsReply(reply, mem[..n], hs, ip, init)
    ensures |reply| == n + |Answers(hs, ip, init, n)|
  {
    hide Answers, AnswerCount, WithCount, ReadMessage;
  }

  lemma TtlRecorded(qs: seq<Question>, k: nat, ip: seq<byte>, init: seq<byte>, n: nat)
    requires k < |qs| && Answerable(qs[k]) && |ip| == 4 && n + |Answers(qs, ip, init, n)| <= |init|
    ensures ZeroTtl(qs, k, RecordsOf(qs, ip, init, n), ip, init, n)
  {
    hide RecordsOf, AnswerCount, TtlPlace, Answers, RecordOf, SpareFor, Answerable;
    RecordFor(qs, k, ip, init, n);
    PlaceInside(qs, k, ip, init, n);
    TtlOf(qs, k, ip, init, n);
  }

  lemma TtlOf(qs: seq<Question>, k: nat, ip: seq<byte>, init: seq<byte>, n: nat)
    requires k < |qs| && TtlPlace(qs, k, ip, init, n) + 2 <= |init|
    ensures var place := TtlPlace(qs, k, ip, init, n);
            var r := RecordOf(qs[k], ip, SpareFor(qs[k], init, n + |Answers(qs[..k], ip, init, n)|));
            r.ttl == 0 <==> qs[k].qtype == QTYPE_A || (init[place] == 0 && init[place + 1] == 0)
  {
    hide Answers, NameBytes, DataFor;
  }

  lemma TakesAccepted(mem: seq<byte>, n: nat)
    requires Takes(mem, n)
    ensures Accepted(mem, n) && HEADER_SIZE <= n <= |mem|
  {
  }

  lemma PlaceInside(qs: seq<Question>, k: nat, ip: seq<byte>, init: seq<byte>, n: nat)
    requires k < |qs| && Answerable(qs[k]) && |ip| == 4
    ensures TtlPlace(qs, k, ip, init, n) + 8 <= n + |Answers(qs, ip, init, n)|
  {
    hide Answers, Answer, NameBytes, AnswerTail;
    AnswersBefore(qs, k, ip, init, n);
    AnswerShape(qs[k], ip, init, n + |Answers(qs[..k], ip, init, n)|);
  }

  lemma RequestFields(mem: seq<byte>, n: nat)
    requires Accepted(mem, n)
    ensures var m := ReadMessage(mem[..n]).value;
            m.id == WordAt(mem, 0) && m.flags == mem[2] && m.rcode == mem[3] && m.questions == QuestionsIn(mem, n)
  {
    hide ReadQuestions, ReadRecords;
  }

  lemma RequestEnds(request: seq<byte>, count: nat)
    requires HEADER_SIZE <= |request| && WordAt(request, 6) == 0 && WordAt(request, 4) == count
    requires ReadMessage(request).Some?
    ensures ReadQuestions(request, HEADER_SIZE, count, HEADER_SIZE)
            == Some((ReadMessage(request).value.questions, |request|))
    ensures WordAt(request, 8) == 0 && WordAt(request, 10) == 0
  {
    hide ReadQuestions;
  }

  lemma ReplyHeaderReads(request: seq<byte>, count: nat, answers: seq<byte>, reply: seq<byte>)
    requires HEADER_SIZE <= |request| && count < 0x1_0000 && reply == ReplyHeader(request, count) + answers
    requires WordAt(request, 8) == 0 && WordAt(request, 10) == 0
    ensures |reply| == |request| + |answers| && reply[|request|..|request| + |answers|] == answers
    ensures WordAt(reply, 0) == WordAt(request, 0) && WordAt(reply, 4) == WordAt(request, 4)
             && WordAt(reply, 6) == count
    ensures WordAt(reply, 8) == 0 && WordAt(reply, 10) == 0
    ensures reply[2] == (if request[2] < FLAG_QR then request[2] + FLAG_QR else request[2]) && reply[3] == request[3]
    ensures forall k | HEADER_SIZE <= k < |request| :: reply[k] == request[k]
  {
    var head := ReplyHeader(request, count);
    assert forall k | 0 <= k < |head| :: reply[k] == head[k];
  }

  // ---------------------------------------------------------------- exactly when it is well formed

  lemma {:induction false} AnsweredPrefix(qs: seq<Question>, k: nat)
    requires k <= |qs|
    ensures |AnsweredOf(qs[..k])| == AnswerCount(qs[..k]) <= AnswerCount(qs)
    ensures AnsweredOf(qs[..k]) <= AnsweredOf(qs)
    decreases |qs|
  {
    if k < |qs| {
      AnsweredPrefix(qs[..|qs| - 1], k);
      assert qs[..|qs| - 1][..k] == qs[..k];
    } else {
      assert qs[..k] == qs;
      if qs != [] {
        AnsweredPrefix(qs[..|qs| - 1], |qs| - 1);
        assert qs[..|qs| - 1][..|qs| - 1] == qs[..|qs| - 1];
      }
    }
  }

  /** The k-th question, if it is answered, is answered by the record at this place. */
  lemma AnsweredAt(qs: seq<Question>, k: nat)
    requires k < |qs| && Answerable(qs[k])
    ensures var c := AnswerCount(qs[..k]); c < |AnsweredOf(qs)| == AnswerCount(qs) && AnsweredOf(qs)[c] == qs[k]
  {
    AnsweredPrefix(qs, k);
    AnsweredPrefix(qs, k + 1);
    AnsweredPrefix(qs, |qs|);
    assert qs[..|qs|] == qs;
    assert qs[..k + 1][..k] == qs[..k];
  }

  /** If records are read one after the other, the record after the first few is the one
      that starts where they end. */
  lemma {:induction false} RecordAfter(pkt: seq<byte>, count: nat, pos: nat, more: nat)
    requires count < more
    requires ReadRecords(pkt, HEADER_SIZE, count, pos).Some? && ReadRecords(pkt, HEADER_SIZE, more, pos).Some?
    ensures var at := ReadRecords(pkt, HEADER_SIZE, count, pos).value.1;
            var rs := ReadRecords(pkt, HEADER_SIZE, more, pos).value.0;
            && |rs| == more && ReadRecord(pkt, HEADER_SIZE, at).Some?
            && rs[count] == ReadRecord(pkt, HEADER_SIZE, at).value.0
    decreases count
  {
    hide ReadRecord;
    var next := ReadRecord(pkt, HEADER_SIZE, pos).value.1;
    if count == 0 {
      RecordsCount(pkt, more, pos);
    } else {
      RecordAfter(pkt, count - 1, next, more - 1);
    }
  }

  lemma {:induction false} RecordsCount(pkt: seq<byte>, count: nat, pos: nat)
    requires ReadRecords(pkt, HEADER_SIZE, count, pos).Some?
    ensures |ReadRecords(pkt, HEADER_SIZE, count, pos).value.0| == count
    decreases count
  {
    hide ReadRecord;
    if count > 0 {
      RecordsCount(pkt, count - 1, ReadRecord(pkt, HEADER_SIZE, pos).value.1);
    }
  }

  /** Whatever its question, the name an answer bears holds no dots and NULs. */
  lemma AnswerNamePlain(pkt: seq<byte>, at: nat, q: Question, ip: seq<byte>, init: seq<byte>)
    requires Sound(q) && Answerable(q) && |ip| == 4
    requires var a := Answer(q, ip, init, at); at + |a| <= |pkt| && pkt[at..at + |a|] == a
    requires ReadRecord(pkt, HEADER_SIZE, at).Some?
    ensures Plain(ReadRecord(pkt, HEADER_SIZE, at).value.0.labels)
  {
    hide NameBytes, Answer, AnswerTail, Plain, Labels, ReadName, Word;
    AnswerShape(q, ip, init, at);
    SplitAt(pkt, at, NameBytes(q), AnswerTail(q, ip, Spare(init, at + |NameBytes(q)| + 6)), Answer(q, ip, init, at));
    NameFromText(q);
    ReadText(pkt, HEADER_SIZE, at, q.labels);
  }

  lemma NameFromText(q: Question)
    ensures NameBytes(q) == EncodeName(Pieces(CString(Join(q.labels) + [0])))
  {
  }

  /** The records read match the answered questions. */
  predicate ReadMatching(pkt: seq<byte>, n: nat, qs: seq<Question>, ip: seq<byte>, init: seq<byte>) {
    var answers := Answers(qs, ip, init, n);
    && n + |answers| <= |pkt| && pkt[n..n + |answers|] == answers
    && ReadRecords(pkt, HEADER_SIZE, AnswerCount(qs), n).Some?
    && AllMatch(AnsweredOf(qs), ReadRecords(pkt, HEADER_SIZE, AnswerCount(qs), n).value.0, ip)
  }

  /** So the first questions are plain if the records match them. */
  lemma {:induction false} MatchedPlain(pkt: seq<byte>, n: nat, qs: seq<Question>, k: nat, ip: seq<byte>,
                                        init: seq<byte>)
    requires |ip| == 4 && AllSound(qs) && k <= |qs| && ReadMatching(pkt, n, qs, ip, init)
    ensures AnswersPlain(qs[..k])
    decreases k
  {
    hide ReadMatching, Sound, Plain, Answerable;
    if k > 0 {
      assert qs[..k] == qs[..k - 1] + [qs[k - 1]] && qs[k - 1] in qs;
      MatchedPlain(pkt, n, qs, k - 1, ip, init);
      if Answerable(qs[k - 1]) {
        NextPlain(pkt, n, qs, k - 1, ip, init);
      }
    }
  }

  lemma NextPlain(pkt: seq<byte>, n: nat, qs: seq<Question>, k: nat, ip: seq<byte>, init: seq<byte>)
    requires |ip| == 4 && AllSound(qs) && k < |qs| && Answerable(qs[k]) && ReadMatching(pkt, n, qs, ip, init)
    requires AnswersPlain(qs[..k])
    ensures Plain(qs[k].labels)
  {
    hide Answers, Answer, ReadRecords, ReadRecord, AnsweredOf, AnswerCount, Sound, Plain, Answerable, RecordsOf,
         AnswersPlain;
    var earlier, q := qs[..k], qs[k];
    assert AllSound(earlier) && q in qs by {
      assert forall e <- earlier :: e in qs;
    }
    AnswersSplit(pkt, n, qs, k, ip, init);
    ReadAnswers(pkt, n, earlier, ip, init);
    AnsweredAt(qs, k);
    RecordAfter(pkt, AnswerCount(earlier), n, AnswerCount(qs));
    AnswerNamePlain(pkt, n + |Answers(earlier, ip, init, n)|, q, ip, init);
  }

  /** Where the answers to the first k questions and to the next one lie. */
  lemma AnswersSplit(pkt: seq<byte>, n: nat, qs: seq<Question>, k: nat, ip: seq<byte>, init: seq<byte>)
    requires k < |qs|
    requires var as' := Answers(qs, ip, init, n); n + |as'| <= |pkt| && pkt[n..n + |as'|] == as'
    ensures var before := Answers(qs[..k], ip, init, n);
            var at := n + |before|;
            var answer := Answer(qs[k], ip, init, at);
            && at + |answer| <= |pkt| && pkt[n..at] == before && pkt[at..at + |answer|] == answer
  {
    hide *;
    var before := Answers(qs[..k], ip, init, n);
    AnswersBefore(qs, k, ip, init, n);
    PrefixParts(pkt, n, before, Answer(qs[k], ip, init, n + |before|), Answers(qs, ip, init, n));
  }

  lemma AnswersBefore(qs: seq<Question>, k: nat, ip: seq<byte>, init: seq<byte>, n: nat)
    requires k < |qs|
    ensures var before := Answers(qs[..k], ip, init, n);
            before + Answer(qs[k], ip, init, n + |before|) <= Answers(qs, ip, init, n)
  {
    hide *;
    AnswersPrefix(qs, k + 1, ip, init, n);
    AnswersGrow(qs[..k], qs[k], ip, init, n);
    assert qs[..k + 1] == qs[..k] + [qs[k]];
  }

  lemma PrefixParts(s: seq<byte>, at: nat, x: seq<byte>, y: seq<byte>, all: seq<byte>)
    requires x + y <= all && at + |all| <= |s| && s[at..at + |all|] == all
    ensures s[at..at + |x|] == x && s[at + |x|..at + |x| + |y|] == y
  {
    Subslice(s, at, at + |all|, 0, |x + y|);
    assert all[0..|x + y|] == x + y;
    BothParts(s, at, x, y);
  }

  lemma MatchingRead(reply: seq<byte>, n: nat, qs: seq<Question>, ip: seq<byte>, init: seq<byte>)
    requires var answers := Answers(qs, ip, init, n); |reply| == n + |answers| && reply[n..n + |answers|] == answers
    requires HEADER_SIZE <= |reply| && WordAt(reply, 6) == AnswerCount(qs)
    requires ReadQuestions(reply, HEADER_SIZE, WordAt(reply, 4), HEADER_SIZE) == Some((qs, n))
    requires ReadMessage(reply).Some? && AllMatch(AnsweredOf(qs), ReadMessage(reply).value.answers, ip)
    ensures ReadMatching(reply, n, qs, ip, init)
  {
    hide Answers, ReadQuestions, ReadRecords, AnsweredOf, AllMatch, AnswerCount, Word;
  }

  /** Exactly when the answers are the promised ones: for every request whose questions the
      code can take, the reply is read with one record bearing the question's name for each
      A, NS and URI question, if and only if none of their labels holds a dot or a NUL. */
  lemma ReplyExactly(mem: seq<byte>, n: nat, ip: seq<byte>, init: seq<byte>, reply: seq<byte>)
    requires Takes(mem, n) && IsReply(reply, mem[..n], QuestionsIn(mem, n), ip, init) && |ip| == 4
    ensures ReadMessage(reply).Some?
             && AllMatch(AnsweredOf(QuestionsIn(mem, n)), ReadMessage(reply).value.answers, ip)
            <==> AnswersPlain(QuestionsIn(mem, n))
  {
    TakesAccepted(mem, n);
    hide *;
    if AnswersPlain(QuestionsIn(mem, n)) {
      ReplyWellFormed(mem, n, ip, init, reply);
      RequestFields(mem, n);
    } else if ReadMessage(reply).Some?
              && AllMatch(AnsweredOf(QuestionsIn(mem, n)), ReadMessage(reply).value.answers, ip) {
      OnlyPlainMatches(mem, n, ip, init, reply);
    }
  }

  lemma OnlyPlainMatches(mem: seq<byte>, n: nat, ip: seq<byte>, init: seq<byte>, reply: seq<byte>)
    requires Takes(mem, n) && IsReply(reply, mem[..n], QuestionsIn(mem, n), ip, init) && |ip| == 4
    requires ReadMessage(reply).Some?
             && AllMatch(AnsweredOf(QuestionsIn(mem, n)), ReadMessage(reply).value.answers, ip)
    ensures AnswersPlain(QuestionsIn(mem, n))
  {
    hide *;
    TakesAccepted(mem, n);
    RequestHeard(mem, n, ManyTurns(n));
    ReplyMatching(mem, n, QuestionsIn(mem, n), ip, init, reply);
    AllPlain(reply, n, QuestionsIn(mem, n), ip, init);
  }

  lemma ReplyMatching(mem: seq<byte>, n: nat, qs: seq<Question>, ip: seq<byte>, init: seq<byte>, reply: seq<byte>)
    requires Accepted(mem, n) && IsReply(reply, mem[..n], qs, ip, init) && qs == QuestionsIn(mem, n)
    requires ReadMessage(reply).Some? && AllMatch(AnsweredOf(qs), ReadMessage(reply).value.answers, ip)
    ensures ReadMatching(reply, n, qs, ip, init)
  {
    hide *;
    ReplyRead(mem, n, qs, ip, init, reply);
    MatchingRead(reply, n, qs, ip, init);
  }

  lemma AllPlain(pkt: seq<byte>, n: nat, qs: seq<Question>, ip: seq<byte>, init: seq<byte>)
    requires |ip| == 4 && AllSound(qs) && ReadMatching(pkt, n, qs, ip, init)
    ensures AnswersPlain(qs)
  {
    hide *;
    MatchedPlain(pkt, n, qs, |qs|, ip, init);
    assert qs[..|qs|] == qs;
  }

  // ---------------------------------------------------------------- requests the code cannot take

  /** Asking for the address of the root. */
  predicate AsksRoot(mem: seq<byte>) {
    && 19 <= |mem| && Passes(mem, 17) && WordAt(mem, 4) == 1
    && mem[12] == 0 && WordAt(mem, 13) == QTYPE_A && WordAt(mem, 15) == QCLASS_IN
  }

  /** One question in front of others, as the reader reads it. */
  lemma OneMore(pkt: seq<byte>, count: nat, pos: nat, name: Name, rest: seq<Question>, end: nat)
    requires ReadName(pkt, HEADER_SIZE, pos, pos) == Some(name) && name.end + 4 <= |pkt|
    requires ReadQuestions(pkt, HEADER_SIZE, count, name.end + 4) == Some((rest, end))
    ensures ReadQuestions(pkt, HEADER_SIZE, count + 1, pos)
            == Some(([Question(name.labels, WordAt(pkt, name.end), WordAt(pkt, name.end + 2))] + rest, end))
  {
  }

  lemma RootRead(mem: seq<byte>)
    requires AsksRoot(mem)
    ensures ReadMessage(mem[..17]).Some?
             && ReadMessage(mem[..17]).value.questions == [Question([], QTYPE_A, QCLASS_IN)]
  {
    var request := mem[..17];
    assert forall k | 0 <= k < 16 :: WordAt(request, k) == WordAt(mem, k);
    assert request[12] == mem[12];
    ReadZero(request, HEADER_SIZE, 12, 12);
    hide ReadName, WordAt;
    OneMore(request, 0, 12, Name([], 13, 0), [], 17);
    hide ReadQuestions;
    assert ReadRecords(request, HEADER_SIZE, 0, 17) == Some(([], 17));
  }

  /** The code takes two bytes for the root name and then finds type 256 ... */
  lemma RootHeard(mem: seq<byte>, turns: nat)
    requires AsksRoot(mem) && turns > 0
    ensures Hear(mem, 17, turns, 1, HEADER_SIZE) == Heard([Question([], QTYPE_URI, 256 + mem[17] as int)])
  {
    RootWords(mem);
    hide Scan, AtEnd, ReadName, Hear, AsksRoot, WordAt;
    RootMisread(mem, 17, DNS_LEN, turns, 12);
    NoQuestions(mem, 17, turns, 18);
    HearOne(mem, 17, turns, 0, 12, Done([], 14, 0));
  }

  /** Read one byte late, the words 1 and 1 are 256 and 256 and something. */
  lemma RootWords(mem: seq<byte>)
    requires AsksRoot(mem)
    ensures 19 <= |mem| && mem[12] == 0 && mem[13] == 0
    ensures WordAt(mem, 14) == QTYPE_URI && WordAt(mem, 16) == 256 + mem[17] as int
  {
    assert mem[13] == 0 && mem[14] == 1 && mem[15] == 0 && mem[16] == 1;
  }

  /** One question in front of others, as the code hears it. */
  lemma HearOne(mem: seq<byte>, n: nat, turns: nat, count: nat, pos: nat, s: Scanned)
    requires n + 2 <= |mem| && pos + 2 <= |mem| && Scan(mem, n, DNS_LEN, turns, pos, 0) == s
    requires s.Done? && s.end + 4 <= |mem|
    ensures Hear(mem, n, turns, count + 1, pos)
            == Following([Question(s.labels, WordAt(mem, s.end), WordAt(mem, s.end + 2))],
                         Hear(mem, n, turns, count, s.end + 4))
  {
  }

  /** ... and what it sends in reply cannot be read at all. */
  lemma RootReplyUnreadable(mem: seq<byte>, ip: seq<byte>, init: seq<byte>, reply: seq<byte>)
    requires AsksRoot(mem) && |ip| == 4
    requires IsReply(reply, mem[..17], [Question([], QTYPE_URI, 256 + mem[17] as int)], ip, init)
    ensures |reply| == 49 && ReadMessage(reply).None?
  {
    var q := Question([], QTYPE_URI, 256 + mem[17] as int);
    RootAnswer(q, ip, init);
    RootReplyIs(mem, q, ip, init, reply);
    hide *;
    RootReplyRead(reply);
  }

  lemma RootReplyIs(mem: seq<byte>, q: Question, ip: seq<byte>, init: seq<byte>, reply: seq<byte>)
    requires AsksRoot(mem) && q.qtype == QTYPE_URI && IsReply(reply, mem[..17], [q], ip, init)
    requires var a := Answer(q, ip, init, 17); |a| == 32 && a[0] == a[1] == 0 && a[10] == 0
    ensures |reply| == 49 && WordAt(reply, 4) == 1 && WordAt(reply, 6) == 1
    ensures reply[12] == 0 && reply[17] == 0 && reply[27] == 0
  {
    hide Answer, Answers, AnswerCount, ReplyHeader, Word, IsReply, Passes;
    var request, answer := mem[..17], Answer(q, ip, init, 17);
    AnswerAlone(request, q, ip, init, reply);
    assert forall k | 0 <= k < 17 :: request[k] == mem[k];
    RootPasses(mem);
    ReplyHeaderReads(request, 1, answer, reply);
    assert reply[17] == reply[17..49][0] && reply[27] == reply[17..49][10];
  }

  lemma RootPasses(mem: seq<byte>)
    requires AsksRoot(mem)
    ensures WordAt(mem, 8) == 0 && WordAt(mem, 10) == 0
  {
  }

  lemma AnswerAlone(request: seq<byte>, q: Question, ip: seq<byte>, init: seq<byte>, reply: seq<byte>)
    requires HEADER_SIZE <= |request| && Answerable(q) && IsReply(reply, request, [q], ip, init)
    ensures reply == ReplyHeader(request, 1) + Answer(q, ip, init, |request|)
  {
    hide Answer, ReplyHeader;
    var last: Question := [q][|[q]| - 1];
    assert last == q && [q][..0] == [];
    assert AnswerCount([q]) == AnswerCount([]) + 1 == 1;
    assert Answers([], ip, init, |request|) == [];
    assert Answers([q], ip, init, |request|) == [] + Answer(q, ip, init, |request|) == Answer(q, ip, init, |request|);
  }

  /** Two zeros, type and class 256, half a TTL, two stray bytes, a length of 20. */
  lemma RootAnswer(q: Question, ip: seq<byte>, init: seq<byte>)
    requires q.labels == [] && q.qtype == QTYPE_URI && |ip| == 4
    ensures var a := Answer(q, ip, init, 17);
            |a| == 32 && a[0] == a[1] == 0 && a[10] == 0
  {
    assert CString([0]) == [] && Join([]) + [0] == [0];
    var none: seq<Label> := [[]];
    assert Pieces([]) == none && none[1..] == [];
    assert EncodeName(none) == [0, 0];
    AnswerShape(q, ip, init, 17);
  }

  /** A reader takes the first zero for the root name, so it finds the data length one byte
      early: a multiple of 256. */
  lemma RootReplyRead(reply: seq<byte>)
    requires |reply| == 49 && WordAt(reply, 4) == 1 && WordAt(reply, 6) == 1
    requires reply[12] == 0 && reply[17] == 0 && reply[27] == 0
    ensures ReadMessage(reply).None?
  {
    ReadZero(reply, HEADER_SIZE, 12, 12);
    ReadZero(reply, HEADER_SIZE, 17, 17);
    assert ReadQuestions(reply, HEADER_SIZE, 0, 17) == Some(([], 17));
    assert ReadQuestions(reply, HEADER_SIZE, 1, 12).value.1 == 17;
    assert WordAt(reply, 26) % 256 == 0;
    if ReadRecord(reply, HEADER_SIZE, 17).Some? {
      var end := ReadRecord(reply, HEADER_SIZE, 17).value.1;
      assert end == 28 + WordAt(reply, 26) == 28;
      assert ReadRecords(reply, HEADER_SIZE, 0, 28) == Some(([], 28));
    }
  }

  /** Three questions about the same one-letter name, the second name a pointer to the first,
      the third a pointer to the second. The first two are of a type that is not answered, the
      third asks for an address. */
  predicate AsksThrice(mem: seq<byte>) {
    && 33 <= |mem| && Passes(mem, 31) && WordAt(mem, 4) == 3
    && mem[12] == 1 && mem[14] == 0 && mem[19] == mem[25] == 192 && mem[20] == 12 && mem[26] == 19
    && WordAt(mem, 15) == WordAt(mem, 21) == 5 && WordAt(mem, 27) == QTYPE_A
  }

  /** The code looks for the third type behind the second name, finds a type it does not
      answer, and the address is never given. */
  lemma TwoPointersUnanswered(mem: seq<byte>, turns: nat, ip: seq<byte>, init: seq<byte>, reply: seq<byte>)
    requires AsksThrice(mem) && turns >= 3
    ensures ReadMessage(mem[..31]).Some?
    ensures var qs := ReadMessage(mem[..31]).value.questions;
            && |qs| == 3 && qs[2] == Question([[mem[13]]], QTYPE_A, WordAt(mem, 29))
            && AnsweredOf(qs) == [qs[2]]
            && var heard := [qs[0], qs[1], Question([[mem[13]]], 5, WordAt(mem, 23))];
            && Hear(mem, 31, turns, 3, HEADER_SIZE) == Heard(heard)
            && Answers(heard, ip, init, 31) == [] && AnswerCount(heard) == 0
  {
    TwoPointersRead(mem);
    TwoPointersHeard(mem, turns);
    hide ReadMessage, Hear, Word;
    var a, b, c := Question([[mem[13]]], 5, WordAt(mem, 17)), Question([[mem[13]]], 5, WordAt(mem, 23)),
                   Question([[mem[13]]], QTYPE_A, WordAt(mem, 29));
    assert [a, b, c][..2] == [a, b] && [a, b, b][..2] == [a, b] && [a, b][..1] == [a] && [a][..0] == [];
    assert AnsweredOf([a, b]) == AnsweredOf([a]) == AnsweredOf([]) == [];
    assert Answers([a, b], ip, init, 31) == Answers([a], ip, init, 31) == Answers([], ip, init, 31) == [];
    assert AnswerCount([a, b]) == AnswerCount([a]) == AnswerCount([]) == 0;
  }

  lemma TwoPointersRead(mem: seq<byte>)
    requires AsksThrice(mem)
    ensures ReadMessage(mem[..31]).Some?
    ensures ReadMessage(mem[..31]).value.questions
            == [Question([[mem[13]]], 5, WordAt(mem, 17)), Question([[mem[13]]], 5, WordAt(mem, 23)),
                Question([[mem[13]]], QTYPE_A, WordAt(mem, 29))]
  {
    var pkt, labels := mem[..31], [[mem[13]]];
    TwoPointersNames(mem);
    assert forall k | 0 <= k < 30 :: WordAt(pkt, k) == WordAt(mem, k);
    hide ReadName, WordAt;
    var a, b, c := Question(labels, 5, WordAt(mem, 17)), Question(labels, 5, WordAt(mem, 23)),
                   Question(labels, QTYPE_A, WordAt(mem, 29));
    OneMore(pkt, 0, 25, Name(labels, 27, 2), [], 31);
    OneMore(pkt, 1, 19, Name(labels, 21, 1), [c] + [], 31);
    OneMore(pkt, 2, 12, Name(labels, 15, 0), [b] + ([c] + []), 31);
    assert [a] + ([b] + ([c] + [])) == [a, b, c];
    hide ReadQuestions;
    assert ReadRecords(pkt, HEADER_SIZE, 0, 31) == Some(([], 31));
  }

  lemma TwoPointersHeard(mem: seq<byte>, turns: nat)
    requires AsksThrice(mem) && turns >= 3
    ensures Hear(mem, 31, turns, 3, HEADER_SIZE)
            == Heard([Question([[mem[13]]], 5, WordAt(mem, 17)), Question([[mem[13]]], 5, WordAt(mem, 23)),
                      Question([[mem[13]]], 5, WordAt(mem, 23))])
  {
    var pkt := mem[..31];
    assert forall k | 0 <= k < 31 :: pkt[k] == mem[k];
    TwoPointersNames(mem);
    TwoPointersMisread(mem, DNS_LEN, turns);
    JoinNothing();
    assert |Join([[mem[13]]])| == 1;
    ScanReads(mem, 31, DNS_LEN, turns, 12, 12, 12, 0);
    ScanReads(mem, 31, DNS_LEN, turns, 12, 19, 19, 0);
    hide ReadName, Scan, WordAt, Hear;
    var a, b := Question([[mem[13]]], 5, WordAt(mem, 17)), Question([[mem[13]]], 5, WordAt(mem, 23));
    NoQuestions(mem, 31, turns, 25);
    HearOne(mem, 31, turns, 0, 25, Done([[mem[13]]], 21, 2));
    HearOne(mem, 31, turns, 1, 19, Done([[mem[13]]], 21, 1));
    HearOne(mem, 31, turns, 2, 12, Done([[mem[13]]], 15, 0));
    assert [a] + ([b] + ([b] + [])) == [a, b, b];
  }

  lemma TwoPointersNames(mem: seq<byte>)
    requires AsksThrice(mem)
    ensures var pkt := mem[..31];
            && ReadName(pkt, 12, 12, 12) == Some(Name([[mem[13]]], 15, 0))
            && ReadName(pkt, 12, 19, 19) == Some(Name([[mem[13]]], 21, 1))
            && ReadName(pkt, 12, 25, 25) == Some(Name([[mem[13]]], 27, 2))
  {
    ThreeNames(mem);
    hide ReadName;
  }

  // ---------------------------------------------------------------- a last question with any name

  /** The code can take all questions but the last, whose name may use any number of pointers. */
  predicate AsksButLast(pkt: seq<byte>, count: nat, pos: nat)
    decreases count
  {
    count > 0 &&
    match ReadName(pkt, HEADER_SIZE, pos, pos)
    case None => false
    case Some(name) =>
      && pkt[pos] != 0 && name.labels != [] && |Join(name.labels)| < DNS_LEN
      && (count > 1 ==> name.pointers <= 1 && AsksButLast(pkt, count - 1, name.end + 4))
  }

  /** A question, with the position of its name, where that really ends, and where the code
      takes it to end. */
  datatype Place = Place(name: Name, at: nat, end: nat)

  /** The question as it was asked, and as the code hears it. */
  function Asked(mem: seq<byte>, p: Place): Question
    requires p.name.end + 4 <= |mem|
  {
    Question(p.name.labels, WordAt(mem, p.name.end), WordAt(mem, p.name.end + 2))
  }

  function HeardAs(mem: seq<byte>, p: Place): Question
    requires p.end + 4 <= |mem|
  {
    Question(p.name.labels, WordAt(mem, p.end), WordAt(mem, p.end + 2))
  }

  predicate LastPlace(mem: seq<byte>, n: nat, p: Place) {
    && n + 4 <= |mem| && p.name.end + 4 <= n && p.end <= n
    && ReadName(mem[..n], HEADER_SIZE, p.at, p.at) == Some(p.name)
    && (p.end == p.name.end <==> p.name.pointers <= 1)
  }

  /** Where the code takes the name to end, and where it does. */
  lemma ScansLast(mem: seq<byte>, n: nat, turns: nat, pos: nat)
    requires n + 4 <= |mem| && ManyTurns(n) <= turns && ReadName(mem[..n], HEADER_SIZE, pos, pos).Some?
    requires var name := ReadName(mem[..n], HEADER_SIZE, pos, pos).value;
             mem[..n][pos] != 0 && name.labels != [] && |Join(name.labels)| < DNS_LEN
    ensures var name := ReadName(mem[..n], HEADER_SIZE, pos, pos).value;
            var s := Scan(mem, n, DNS_LEN, turns, pos, 0);
            && pos < n && Labels(name.labels)
            && s.Done? && s.labels == name.labels && (name.end <= n ==> s.end <= n)
            && (s.end == name.end <==> name.pointers <= 1)
  {
    assert pos < n && mem[pos] == mem[..n][pos];
    ReadLabels(mem[..n], HEADER_SIZE, pos, pos);
    TurnsSuffice(mem[..n], HEADER_SIZE, pos);
    hide ReadName, Scan, Join, Labels, PointerTarget, Turns;
    ScanReads(mem, n, DNS_LEN, turns, HEADER_SIZE, pos, pos, 0);
  }

  lemma LastQuestion(mem: seq<byte>, n: nat, turns: nat, pos: nat) returns (p: Place)
    requires n + 4 <= |mem| && ManyTurns(n) <= turns
    requires ReadQuestions(mem[..n], HEADER_SIZE, 1, pos).Some? && AsksButLast(mem[..n], 1, pos)
    ensures LastPlace(mem, n, p) && Labels(p.name.labels) && p.name.labels != []
    ensures ReadQuestions(mem[..n], HEADER_SIZE, 1, pos).value.0 == [Asked(mem, p)]
    ensures Hear(mem, n, turns, 1, pos) == Heard([HeardAs(mem, p)])
  {
    hide ReadName, Scan, Join, Labels, Hear, Word;
    var name := ReadName(mem[..n], HEADER_SIZE, pos, pos).value;
    ScansLast(mem, n, turns, pos);
    var s := Scan(mem, n, DNS_LEN, turns, pos, 0);
    p := Place(name, pos, s.end);
    WordsBefore(mem, n, name.end);
    WordsBefore(mem, n, name.end + 2);
    hide WordAt;
    NoQuestions(mem, n, turns, s.end + 4);
    HearOne(mem, n, turns, 0, pos, s);
    assert [HeardAs(mem, p)] + [] == [HeardAs(mem, p)] && [Asked(mem, p)] + [] == [Asked(mem, p)];
  }

  /** The reader finds these questions and the one at p; the code hears the same ones, but the
      last as it hears p. */
  ghost predicate HeardButLast(mem: seq<byte>, n: nat, turns: nat, count: nat, pos: nat,
                               earlier: seq<Question>, p: Place)
    requires n + 2 <= |mem|
  {
    && LastPlace(mem, n, p) && Labels(p.name.labels) && p.name.labels != [] && AllSound(earlier)
    && ReadQuestions(mem[..n], HEADER_SIZE, count, pos).Some?
    && ReadQuestions(mem[..n], HEADER_SIZE, count, pos).value.0 == earlier + [Asked(mem, p)]
    && Hear(mem, n, turns, count, pos) == Heard(earlier + [HeardAs(mem, p)])
  }

  /** The code hears all but the last question right, and the last with its right name. */
  lemma {:induction false} HearsButLast(mem: seq<byte>, n: nat, turns: nat, count: nat, pos: nat)
    returns (earlier: seq<Question>, p: Place)
    requires n + 4 <= |mem| && ManyTurns(n) <= turns
    requires ReadQuestions(mem[..n], HEADER_SIZE, count, pos).Some? && AsksButLast(mem[..n], count, pos)
    ensures HeardButLast(mem, n, turns, count, pos, earlier, p)
    decreases count
  {
    hide *;
    SomeQuestion(mem[..n], count, pos);
    if count == 1 {
      p := LastQuestion(mem, n, turns, pos);
      earlier := [];
      OnlyOne(mem, n, turns, pos, p);
    } else {
      var q, next := NotYetLast(mem, n, turns, count, pos);
      var more;
      more, p := HearsButLast(mem, n, turns, count - 1, next);
      earlier := [q] + more;
      OneInFront(mem, n, turns, count, pos, q, next, more, p);
    }
  }

  lemma OnlyOne(mem: seq<byte>, n: nat, turns: nat, pos: nat, p: Place)
    requires LastPlace(mem, n, p) && Labels(p.name.labels) && p.name.labels != []
    requires ReadQuestions(mem[..n], HEADER_SIZE, 1, pos).Some?
    requires ReadQuestions(mem[..n], HEADER_SIZE, 1, pos).value.0 == [Asked(mem, p)]
    requires Hear(mem, n, turns, 1, pos) == Heard([HeardAs(mem, p)])
    ensures HeardButLast(mem, n, turns, 1, pos, [], p)
  {
    hide ReadQuestions, Hear, Labels, Asked, HeardAs, ReadName;
    assert [] + [Asked(mem, p)] == [Asked(mem, p)] && [] + [HeardAs(mem, p)] == [HeardAs(mem, p)];
  }

  lemma OneInFront(mem: seq<byte>, n: nat, turns: nat, count: nat, pos: nat, q: Question, next: nat,
                   more: seq<Question>, p: Place)
    requires n + 4 <= |mem| && count > 1 && Sound(q) && HeardButLast(mem, n, turns, count - 1, next, more, p)
    requires ReadQuestions(mem[..n], HEADER_SIZE, count, pos).Some?
    requires ReadQuestions(mem[..n], HEADER_SIZE, count - 1, next).Some?
    requires ReadQuestions(mem[..n], HEADER_SIZE, count, pos).value.0
             == [q] + ReadQuestions(mem[..n], HEADER_SIZE, count - 1, next).value.0
    requires Hear(mem, n, turns, count, pos) == Following([q], Hear(mem, n, turns, count - 1, next))
    ensures HeardButLast(mem, n, turns, count, pos, [q] + more, p)
  {
    hide ReadQuestions, Hear, Labels, Asked, HeardAs, ReadName, Sound, AllSound;
    AllSoundCons(q, more);
    assert [q] + (more + [Asked(mem, p)]) == [q] + more + [Asked(mem, p)];
    assert [q] + (more + [HeardAs(mem, p)]) == [q] + more + [HeardAs(mem, p)];
  }

  lemma SomeQuestion(pkt: seq<byte>, count: nat, pos: nat)
    requires AsksButLast(pkt, count, pos)
    ensures count > 0
  {
  }

  lemma NotYetLast(mem: seq<byte>, n: nat, turns: nat, count: nat, pos: nat) returns (q: Question, next: nat)
    requires n + 2 <= |mem| && count > 1 && ManyTurns(n) <= turns
    requires ReadQuestions(mem[..n], HEADER_SIZE, count, pos).Some? && AsksButLast(mem[..n], count, pos)
    ensures Sound(q)
    ensures ReadQuestions(mem[..n], HEADER_SIZE, count - 1, next).Some? && AsksButLast(mem[..n], count - 1, next)
    ensures ReadQuestions(mem[..n], HEADER_SIZE, count, pos).value.0
            == [q] + ReadQuestions(mem[..n], HEADER_SIZE, count - 1, next).value.0
    ensures Hear(mem, n, turns, count, pos) == Following([q], Hear(mem, n, turns, count - 1, next))
  {
    hide ReadName, Scan, Join, Labels;
    var name := ReadName(mem[..n], HEADER_SIZE, pos, pos).value;
    ScansQuestion(mem, n, turns, pos);
    EndsLater(mem[..n], HEADER_SIZE, pos, pos);
    WordsBefore(mem, n, name.end);
    WordsBefore(mem, n, name.end + 2);
    next := name.end + 4;
    q := Question(name.labels, WordAt(mem, name.end), WordAt(mem, name.end + 2));
  }

  lemma AnsweredLast(earlier: seq<Question>, a: Question)
    ensures AnsweredOf(earlier + [a]) == AnsweredOf(earlier) + if Answerable(a) then [a] else []
  {
    hide Answerable;
    assert (earlier + [a])[..|earlier|] == earlier;
  }

  lemma SameBehind(before: seq<Question>, a: seq<Question>, b: seq<Question>)
    requires |a| <= 1 && |b| <= 1
    ensures SameAnswers(before + a, before + b) <==> SameAnswers(a, b)
  {
    if SameAnswers(before + a, before + b) && a != [] {
      assert (before + a)[|before|] == a[0] && (before + b)[|before|] == b[0];
    }
  }

  lemma SameButLast(earlier: seq<Question>, a: Question, b: Question)
    requires a.labels == b.labels
    ensures SameAnswers(AnsweredOf(earlier + [a]), AnsweredOf(earlier + [b]))
            <==> a.qtype == b.qtype || (!Answerable(a) && !Answerable(b))
  {
    hide AnsweredOf;
    AnsweredLast(earlier, a);
    AnsweredLast(earlier, b);
    var x, y := if Answerable(a) then [a] else [], if Answerable(b) then [b] else [];
    SameBehind(AnsweredOf(earlier), x, y);
    assert x != [] ==> x[0] == a;
    assert y != [] ==> y[0] == b;
  }

  /** A request whose last name uses any number of pointers, and no labels with dots or NULs:
      the reply is the promised one if and only if the type word where the code takes the last
      name to end agrees with the one where it does end, or neither type is answered. With at
      most one pointer the two places are the same. */
  lemma LastTypeDecides(mem: seq<byte>, n: nat, turns: nat, ip: seq<byte>, init: seq<byte>, reply: seq<byte>)
    returns (heard: seq<Question>, p: Place)
    requires Accepted(mem, n) && n + 4 <= |mem| && ManyTurns(n) <= turns && |ip| == 4
    requires AsksButLast(mem[..n], WordAt(mem, 4), HEADER_SIZE)
    requires forall q <- QuestionsIn(mem, n) :: Plain(q.labels)
    ensures LastPlace(mem, n, p)
    ensures Hear(mem, n, turns, WordAt(mem, 4), HEADER_SIZE) == Heard(heard)
    ensures IsReply(reply, mem[..n], heard, ip, init) ==>
              (ReadMessage(reply).Some?
               && AllMatch(AnsweredOf(QuestionsIn(mem, n)), ReadMessage(reply).value.answers, ip)
               <==> WordAt(mem, p.end) == WordAt(mem, p.name.end)
                    || (!Answerable(HeardAs(mem, p)) && !Answerable(Asked(mem, p))))
  {
    AcceptedSize(mem, n);
    hide ReadQuestions, Hear, AsksButLast, Labels, Plain, IsReply, ReadMessage, AllMatch, AnsweredOf,
         SameAnswers, Word, RecordsOf, Accepted, AnswersPlain, AllSound, ReadName, Answerable;
    var qs := QuestionsIn(mem, n);
    QuestionsRead(mem, n);
    var earlier;
    earlier, p := HearsButLast(mem, n, turns, WordAt(mem, 4), HEADER_SIZE);
    heard := earlier + [HeardAs(mem, p)];
    LastSound(earlier, HeardAs(mem, p), Asked(mem, p));
    if IsReply(reply, mem[..n], heard, ip, init) {
      ReplyOfHeard(mem, n, heard, ip, init, reply);
      SameButLast(earlier, HeardAs(mem, p), Asked(mem, p));
    }
  }

  lemma AcceptedSize(mem: seq<byte>, n: nat)
    requires Accepted(mem, n)
    ensures HEADER_SIZE <= n <= |mem|
  {
  }

  lemma LastSound(earlier: seq<Question>, h: Question, q: Question)
    requires AllSound(earlier) && Labels(h.labels) && h.labels != [] && h.labels == q.labels
    requires forall e <- earlier + [q] :: Plain(e.labels)
    ensures AllSound(earlier + [h]) && AnswersPlain(earlier + [h])
  {
    hide Labels, Plain;
    assert forall e <- earlier :: e in earlier + [q];
    assert q in earlier + [q];
  }

  // ---------------------------------------------------------------- the size of a reply

  function AnswerSize(q: Question): nat {
    if !Answerable(q) then 0 else |Join(q.labels)| + 2 + if q.qtype == QTYPE_URI then 30 else 14
  }

  function AnswerSizes(qs: seq<Question>): nat {
    if qs == [] then 0 else AnswerSizes(qs[..|qs| - 1]) + AnswerSize(qs[|qs| - 1])
  }

  lemma OneAnswerSize(q: Question, ip: seq<byte>, init: seq<byte>, at: nat)
    requires |ip| == 4
    ensures |Answer(q, ip, init, at)| <= AnswerSize(q)
    ensures Sound(q) && Plain(q.labels) ==> |Answer(q, ip, init, at)| == AnswerSize(q)
  {
    if Answerable(q) {
      AnswerShape(q, ip, init, at);
      CStringWithin(Join(q.labels));
      if Sound(q) && Plain(q.labels) {
        WireOfText(q.labels);
      }
    }
  }

  /** The answers take at most the lengths of their names' texts plus 2 plus 14 bytes (30 for
      URI), and exactly that if no label of an answered question holds a dot or a NUL. */
  lemma {:induction false} AnswersSize(qs: seq<Question>, ip: seq<byte>, init: seq<byte>, at: nat)
    requires |ip| == 4
    ensures |Answers(qs, ip, init, at)| <= AnswerSizes(qs)
    ensures AllSound(qs) && AnswersPlain(qs) ==> |Answers(qs, ip, init, at)| == AnswerSizes(qs)
    decreases |qs|
  {
    hide Answer, AnswerSize, Plain, Sound, Answerable, AllSound, AnswersPlain;
    if qs != [] {
      var earlier, q := qs[..|qs| - 1], qs[|qs| - 1];
      assert qs == earlier + [q];
      if AllSound(qs) && AnswersPlain(qs) {
        SoundPlainLast(earlier, q);
      }
      AnswersSize(earlier, ip, init, at);
      var next := at + |Answers(earlier, ip, init, at)|;
      OneAnswerSize(q, ip, init, next);
      NothingToAnswer(q, ip, init, next);
    }
  }

  lemma SoundPlainLast(earlier: seq<Question>, q: Question)
    requires AllSound(earlier + [q]) && AnswersPlain(earlier + [q])
    ensures AllSound(earlier) && AnswersPlain(earlier) && Sound(q) && (Answerable(q) ==> Plain(q.labels))
  {
    hide Sound, Plain, Answerable;
    assert q in earlier + [q] && forall e <- earlier :: e in earlier + [q];
  }

  lemma NothingToAnswer(q: Question, ip: seq<byte>, init: seq<byte>, at: nat)
    ensures !Answerable(q) ==> Answer(q, ip, init, at) == [] && AnswerSize(q) == 0
  {
  }

  /** The reply is the request plus the answers. */
  lemma ReplySize(request: seq<byte>, qs: seq<Question>, ip: seq<byte>, init: seq<byte>, reply: seq<byte>)
    requires HEADER_SIZE <= |request| && |ip| == 4 && AllSound(qs) && AnswersPlain(qs)
    requires IsReply(reply, request, qs, ip, init)
    ensures |reply| == |request| + AnswerSizes(qs)
  {
    AnswersSize(qs, ip, init, |request|);
  }

  /** So a request for the address of one uncompressed name of w encoded bytes is answered
      within the buffer exactly when w is at most 241. */
  lemma SingleQuestionFits(labels: seq<Label>, qclass: nat, request: seq<byte>, ip: seq<byte>, init: seq<byte>,
                           reply: seq<byte>)
    requires var q := Question(labels, QTYPE_A, qclass); Sound(q) && IsReplyTo(reply, request, q, ip, init)
    requires Plain(labels)
    ensures |reply| <= DNS_LEN <==> |EncodeName(labels)| <= 241
  {
    var q := Question(labels, QTYPE_A, qclass);
    WireOfText(labels);
    ReplySize(request, [q], ip, init, reply);
    assert [q][..0] == [];
    assert AnswerSizes([q]) == AnswerSizes([]) + AnswerSize(q);
  }

  /** The reply to a request that asks this one question, its name uncompressed. */
  predicate IsReplyTo(reply: seq<byte>, request: seq<byte>, q: Question, ip: seq<byte>, init: seq<byte>) {
    |ip| == 4 && |request| == HEADER_SIZE + |EncodeName(q.labels)| + 4 && IsReply(reply, request, [q], ip, init)
  }

  // ---------------------------------------------------------------- from request to reply

  /** The bytes sent are read as the promised answers exactly when no label of an answered question
      holds a dot or a NUL; then they have the announced length, and the header of a reply. */
  predicate Promised(mem: seq<byte>, n: nat, ip: seq<byte>, reply: seq<byte>)
    requires Takes(mem, n)
  {
    var qs, m := QuestionsIn(mem, n), ReadMessage(reply);
    && (m.Some? && AllMatch(AnsweredOf(qs), m.value.answers, ip) <==> AnswersPlain(qs))
    && (AnswersPlain(qs) ==>
          && m.Some? && |reply| == n + AnswerSizes(qs)
          && m.value.questions == qs && m.value.id == WordAt(mem, 0) && m.value.flags >= FLAG_QR)
  }

  /** captdnsRecv as its sender sees it: a request whose questions the code can take and whose
      answers fit is answered, and the bytes sent are read as the promised answers exactly when
      no label of an answered question holds a dot or a NUL. */
  method Exchange(packet: array<byte>, length: nat, ip: seq<byte>, reply: array<byte>, buff: array<byte>)
    returns (sent: nat)
    requires |ip| == 4 && reply != buff && packet != reply && packet != buff
    requires reply.Length == buff.Length == DNS_LEN
    requires Takes(packet[..], length) && length + AnswerSizes(QuestionsIn(packet[..], length)) <= DNS_LEN
    modifies reply, buff
    ensures sent <= DNS_LEN
    ensures Promised(packet[..], length, ip, reply[..sent])
  {
    ghost var mem, init := packet[..], reply[..];
    hide Hear, Answers, AnswerCount, Asks, ReadMessage, AnswerSizes, AllMatch, AnsweredOf, AnswersPlain, IsReply,
         AllSound, RecordsOf, Word, WordAt, Takes, QuestionsIn, Accepted, Passes, Promised, ManyTurns;
    ExchangeAllowed(mem, length, ip, init);
    var result := CaptdnsRecv(packet, length, ip, reply, buff, ManyTurns(length));
    sent := result.value;
    ExchangeRead(mem, length, ip, init, reply[..sent]);
  }

  lemma ExchangeAllowed(mem: seq<byte>, n: nat, ip: seq<byte>, init: seq<byte>)
    requires Takes(mem, n) && n + AnswerSizes(QuestionsIn(mem, n)) <= DNS_LEN && |ip| == 4
    ensures HEADER_SIZE <= n && n + 2 <= |mem| && Passes(mem, n)
    ensures Hear(mem, n, ManyTurns(n), WordAt(mem, 4), HEADER_SIZE) == Heard(QuestionsIn(mem, n))
    ensures n + |Answers(QuestionsIn(mem, n), ip, init, n)| <= DNS_LEN
  {
    TakenPasses(mem, n);
    hide *;
    RequestHeard(mem, n, ManyTurns(n));
    AnswersSize(QuestionsIn(mem, n), ip, init, n);
  }

  lemma ExchangeRead(mem: seq<byte>, n: nat, ip: seq<byte>, init: seq<byte>, reply: seq<byte>)
    requires Takes(mem, n) && IsReply(reply, mem[..n], QuestionsIn(mem, n), ip, init) && |ip| == 4
    ensures Promised(mem, n, ip, reply)
  {
    hide Hear, Answers, AnswerCount, Asks, ReadMessage, AnswerSizes, AllMatch, AnsweredOf, AnswersPlain, IsReply,
         AllSound, RecordsOf, Word, Passes;
    var qs := QuestionsIn(mem, n);
    ReplyExactly(mem, n, ip, init, reply);
    RequestFields(mem, n);
    if AnswersPlain(qs) {
      RequestHeard(mem, n, ManyTurns(n));
      ReplyWellFormed(mem, n, ip, init, reply);
      TakenPasses(mem, n);
      ReplySize(mem[..n], qs, ip, init, reply);
    }
  }

  lemma TakenPasses(mem: seq<byte>, n: nat)
    requires Takes(mem, n)
    ensures n + 2 <= |mem| && Passes(mem, n) && HEADER_SIZE <= n
  {
  }

  // ---------------------------------------------------------------- looking up an address

  /** A request with one question, its name uncompressed. */
  predicate AsksOnce(request: seq<byte>, q: Question) {
    && q.qtype < 0x1_0000 && q.qclass < 0x1_0000
    && HEADER_SIZE <= |request| <= DNS_LEN
    && WordAt(request, 4) == 1 && WordAt(request, 6) == 0 && WordAt(request, 8) == 0 && WordAt(request, 10) == 0
    && request[2] / 2 % 2 == 0
    && request[HEADER_SIZE..] == EncodeName(q.labels) + (WordBytes(q.qtype) + WordBytes(q.qclass))
  }

  /** The name and the two words of such a request, where the reader finds them. */
  lemma QuestionRead(request: seq<byte>, q: Question)
    requires AsksOnce(request, q) && Sound(q)
    ensures |request| == HEADER_SIZE + |EncodeName(q.labels)| + 4
    ensures ReadName(request, HEADER_SIZE, HEADER_SIZE, HEADER_SIZE) == Some(Name(q.labels, |request| - 4, 0))
    ensures WordAt(request, |request| - 4) == q.qtype && WordAt(request, |request| - 2) == q.qclass
    ensures request[HEADER_SIZE] != 0
  {
    hide EncodeName, WordBytes, ReadName, Word, WordAt;
    var name, t, c := EncodeName(q.labels), WordBytes(q.qtype), WordBytes(q.qclass);
    RestIs(request, HEADER_SIZE, name + (t + c));
    BothParts(request, HEADER_SIZE, name, t + c);
    BothParts(request, HEADER_SIZE + |name|, t, c);
    ReadEncoded(request, HEADER_SIZE, HEADER_SIZE, HEADER_SIZE, q.labels);
    FirstByte(q.labels);
    EncodedLength(q.labels);
    FirstIs(request, HEADER_SIZE, name);
    WordHere(request, |request| - 4, q.qtype);
    WordHere(request, |request| - 2, q.qclass);
  }

  lemma RestIs(s: seq<byte>, at: nat, t: seq<byte>)
    requires at <= |s| && s[at..] == t
    ensures |s| == at + |t| && s[at..at + |t|] == t
  {
  }

  lemma FirstIs(s: seq<byte>, at: nat, t: seq<byte>)
    requires t != [] && at + |t| <= |s| && s[at..at + |t|] == t
    ensures s[at] == t[0]
  {
  }

  lemma WordHere(s: seq<byte>, k: nat, n: nat)
    requires k + 2 <= |s| && n < 0x1_0000 && s[k..k + 2] == WordBytes(n)
    ensures WordAt(s, k) == n
  {
    assert s[k] == s[k..k + 2][0] && s[k + 1] == s[k..k + 2][1];
  }

  /** The reader accepts it, and the code takes it. */
  lemma RequestAccepted(mem: seq<byte>, n: nat, q: Question)
    requires n + 2 <= |mem| && AsksOnce(mem[..n], q) && Sound(q) && |Join(q.labels)| < DNS_LEN
    ensures Takes(mem, n) && WordAt(mem, 4) == 1 && QuestionsIn(mem, n) == [q]
  {
    hide ReadName, EncodeName, Join, Labels, Word;
    var request := mem[..n];
    QuestionRead(request, q);
    assert forall k | 0 <= k < HEADER_SIZE :: request[k] == mem[k];
    assert ReadQuestions(request, HEADER_SIZE, 0, n) == Some(([], n));
    assert ReadQuestions(request, HEADER_SIZE, 1, HEADER_SIZE) == Some(([q] + [], n));
    assert ReadRecords(request, HEADER_SIZE, 0, n) == Some(([], n));
    assert Asks(request, 0, n);
  }

  /** Whoever asks for the address of any encodable name, uncompressed, in at most 241 bytes,
      is told this address under this very name, and nothing else, exactly when no label
      holds a dot or a NUL. */
  lemma AddressLookup(mem: seq<byte>, n: nat, labels: seq<Label>, ip: seq<byte>, init: seq<byte>, turns: nat)
    requires var q := Question(labels, QTYPE_A, QCLASS_IN);
             n + 2 <= |mem| && AsksOnce(mem[..n], q) && Sound(q)
    requires |ip| == 4 && |EncodeName(labels)| <= 241 && ManyTurns(n) <= turns
    ensures var q := Question(labels, QTYPE_A, QCLASS_IN);
            && Passes(mem, n)
            && Hear(mem, n, turns, 1, HEADER_SIZE) == Heard([q])
            && n + |Answers([q], ip, init, n)| <= DNS_LEN
            && AnswerCount([q]) == 1
            && var m := ReadMessage(ReplyHeader(mem[..n], 1) + Answers([q], ip, init, n));
            && (m.Some? && m.value.answers == [Record(labels, QTYPE_A, QCLASS_IN, 0, ip)] <==> Plain(labels))
  {
    var q := Question(labels, QTYPE_A, QCLASS_IN);
    OneAnswered(q);
    LookupFits(mem, n, q, ip, init);
    hide Asks, Hear, Answers, AnswerCount, ReplyHeader, ReadMessage, EncodeName, Join, Labels, Plain, AllMatch,
         AnsweredOf, AsksOnce, AllSound, AnswersPlain, ReadQuestions, RecordsOf, Word;
    RequestHeard(mem, n, turns);
    LookupAnswered(mem, n, q, ip, init, ReplyHeader(mem[..n], 1) + Answers([q], ip, init, n));
  }

  lemma LookupFits(mem: seq<byte>, n: nat, q: Question, ip: seq<byte>, init: seq<byte>)
    requires n + 2 <= |mem| && AsksOnce(mem[..n], q) && Sound(q) && q.qtype == QTYPE_A
    requires |ip| == 4 && |EncodeName(q.labels)| <= 241
    ensures Takes(mem, n) && WordAt(mem, 4) == 1 && QuestionsIn(mem, n) == [q]
    ensures n + |Answers([q], ip, init, n)| <= DNS_LEN
  {
    hide Takes, Answers, ReadMessage, EncodeName, Join, Labels, AsksOnce, Word, ReadName;
    QuestionRead(mem[..n], q);
    EncodedLength(q.labels);
    RequestAccepted(mem, n, q);
    LookupSize(q, ip, init, n);
  }

  lemma LookupSize(q: Question, ip: seq<byte>, init: seq<byte>, n: nat)
    requires q.qtype == QTYPE_A && |ip| == 4
    ensures |Answers([q], ip, init, n)| <= |Join(q.labels)| + 16
  {
    OneAnswered(q);
    hide Answers, Join, Sound, AnswerSizes, AnsweredOf, AnswerCount;
    AnswersSize([q], ip, init, n);
  }

  lemma LookupAnswered(mem: seq<byte>, n: nat, q: Question, ip: seq<byte>, init: seq<byte>, reply: seq<byte>)
    requires Takes(mem, n) && |ip| == 4 && q.qtype == QTYPE_A && q.qclass == QCLASS_IN && QuestionsIn(mem, n) == [q]
    requires reply == ReplyHeader(mem[..n], 1) + Answers([q], ip, init, n)
    ensures ReadMessage(reply).Some?
             && ReadMessage(reply).value.answers == [Record(q.labels, QTYPE_A, QCLASS_IN, 0, ip)]
            <==> Plain(q.labels)
  {
    OneAnswered(q);
    hide Takes, Answers, AnswerCount, ReplyHeader, ReadMessage, AllMatch, AnsweredOf, AnswerSizes, Join, Plain, Word,
         AnswersPlain, RecordsOf;
    OnePlain(q);
    OneReply(mem, n, q, ip, init, reply);
    ReplyExactly(mem, n, ip, init, reply);
    if ReadMessage(reply).Some? {
      OneMatch(q, ReadMessage(reply).value.answers, ip);
    }
    if Plain(q.labels) {
      ReplyWellFormed(mem, n, ip, init, reply);
      OneRecord(q, ip, init, n);
    }
  }

  lemma OneReply(mem: seq<byte>, n: nat, q: Question, ip: seq<byte>, init: seq<byte>, reply: seq<byte>)
    requires Takes(mem, n) && AnswerCount([q]) == 1
    requires reply == ReplyHeader(mem[..n], 1) + Answers([q], ip, init, n)
    ensures IsReply(reply, mem[..n], [q], ip, init)
  {
    hide ReplyHeader, Answers, AnswerCount;
  }

  lemma OnePlain(q: Question)
    requires Answerable(q)
    ensures AnswersPlain([q]) <==> Plain(q.labels)
  {
    assert [q][0] in [q];
  }

  lemma OneRecord(q: Question, ip: seq<byte>, init: seq<byte>, at: nat)
    requires q.qtype == QTYPE_A
    ensures RecordsOf([q], ip, init, at) == [Record(q.labels, QTYPE_A, QCLASS_IN, 0, ip)]
  {
    assert [q][..0] == [];
  }

  lemma OneAnswered(q: Question)
    requires q.qtype == QTYPE_A
    ensures AnswerCount([q]) == 1 && AnsweredOf([q]) == [q] && AnswerSizes([q]) == |Join(q.labels)| + 16
  {
    assert [q][..0] == [];
  }

  lemma OneMatch(q: Question, rs: seq<Record>, ip: seq<byte>)
    requires q.qtype == QTYPE_A && q.qclass == QCLASS_IN
    ensures rs == [Record(q.labels, QTYPE_A, QCLASS_IN, 0, ip)] ==> AllMatch([q], rs, ip)
  {
  }
}
