/** DNS messages as section 4.1 of RFC 1035 describes them: a reference reader. */
module DnsMessages {
  import opened Bytes
  import opened DnsNames

  const HEADER_SIZE := 12

  datatype Question = Question(labels: seq<Label>, qtype: nat, qclass: nat)

  datatype Record = Record(labels: seq<Label>, rtype: nat, rclass: nat, ttl: nat, rdata: seq<byte>)

  /** A message without authority and additional records. `flags` and `rcode` are the two
      bytes of the flag word. */
  datatype Message = Message(
    id: nat, flags: byte, rcode: byte, questions: seq<Question>, answers: seq<Record>)

  /** Section 4.1.2, `count` times: a name, a type and a class. */
  function ReadQuestions(pkt: seq<byte>, low: nat, count: nat, pos: nat): Option<(seq<Question>, nat)>
    decreases count
  {
    if count == 0 then Some(([], pos))
    else
      match ReadName(pkt, low, pos, pos)
      case None => None
      case Some(name) =>
        if name.end + 4 > |pkt| then None
        else
          match ReadQuestions(pkt, low, count - 1, name.end + 4)
          case None => None
          case Some((rest, end)) =>
            Some(([Question(name.labels, WordAt(pkt, name.end), WordAt(pkt, name.end + 2))] + rest, end))
  }

  /** Section 4.1.3: a name, type, class, TTL, and data of the announced length. */
  function ReadRecord(pkt: seq<byte>, low: nat, pos: nat): Option<(Record, nat)> {
    match ReadName(pkt, low, pos, pos)
    case None => None
    case Some(name) =>
      var p := name.end;
      if p + 10 > |pkt| || p + 10 + WordAt(pkt, p + 8) > |pkt| then None
      else
        var end := p + 10 + WordAt(pkt, p + 8);
        Some((Record(name.labels, WordAt(pkt, p), WordAt(pkt, p + 2),
                     WordAt(pkt, p + 4) * 0x1_0000 + WordAt(pkt, p + 6), pkt[p + 10..end]), end))
  }

  function ReadRecords(pkt: seq<byte>, low: nat, count: nat, pos: nat): Option<(seq<Record>, nat)>
    decreases count
  {
    if count == 0 then Some(([], pos))
    else
      match ReadRecord(pkt, low, pos)
      case None => None
      case Some((record, end)) =>
        match ReadRecords(pkt, low, count - 1, end)
        case None => None
        case Some((rest, last)) => Some(([record] + rest, last))
  }

  /** A whole packet, with nothing left over; pointers do not lead into the header. */
  function ReadMessage(pkt: seq<byte>): Option<Message> {
    if |pkt| < HEADER_SIZE || WordAt(pkt, 8) != 0 || WordAt(pkt, 10) != 0 then None
    else
      match ReadQuestions(pkt, HEADER_SIZE, WordAt(pkt, 4), HEADER_SIZE)
      case None => None
      case Some((questions, p)) =>
        match ReadRecords(pkt, HEADER_SIZE, WordAt(pkt, 6), p)
        case None => None
        case Some((answers, end)) =>
          if end != |pkt| then None
          else Some(Message(WordAt(pkt, 0), pkt[2], pkt[3], questions, answers))
  }
}
