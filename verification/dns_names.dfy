/** Domain names: the wire form of section 3.1 of RFC 1035, the compression of section
    4.1.4, and the two conversions of components/captdns/src/captdns.c. */
module DnsNames {
  import opened Bytes

  type Label = seq<byte>

  const DOT: byte := 46

  // ---------------------------------------------------------------- text and wire forms

  /** The dotted text of a list of labels. */
  function Join(labels: seq<Label>): seq<byte> {
    if labels == [] then []
    else if |labels| == 1 then labels[0]
    else labels[0] + [DOT] + Join(labels[1..])
  }

  /** The stretches between the dots of a text. */
  function Pieces(text: seq<byte>): (pieces: seq<Label>)
    ensures pieces != []
  {
    if text == [] then [[]] else Before(text[0], Pieces(text[1..]))
  }

  /** A character in front of the stretches of a text. */
  function Before(c: byte, pieces: seq<Label>): (r: seq<Label>)
    requires pieces != []
    ensures r != []
  {
    if c == DOT then [[]] + pieces else [[c] + pieces[0]] + pieces[1..]
  }

  /** A character behind them: a dot closes the open stretch, anything else extends it. */
  function Behind(pieces: seq<Label>, c: byte): (r: seq<Label>)
    requires pieces != []
    ensures r != []
  {
    if c == DOT then pieces + [[]] else pieces[..|pieces| - 1] + [pieces[|pieces| - 1] + [c]]
  }

  /** Length-prefixed labels, without the closing zero. */
  function LabelBytes(labels: seq<Label>): seq<byte> {
    if labels == [] then [] else [Truncate(|labels[0]|)] + labels[0] + LabelBytes(labels[1..])
  }

  function EncodeName(labels: seq<Label>): seq<byte> {
    LabelBytes(labels) + [0]
  }

  predicate Labels(labels: seq<Label>) {
    forall l <- labels :: 1 <= |l| <= 63
  }

  /** Labels a dotted C string can represent. */
  predicate Plain(labels: seq<Label>) {
    forall l <- labels :: DOT !in l && 0 !in l
  }

  // ---------------------------------------------------------------- the reference reader

  /** A name read from a packet: its labels, the position after it, the pointers followed. */
  datatype Name = Name(labels: seq<Label>, end: nat, pointers: nat)

  function PointerTarget(hi: byte, lo: byte): nat {
    Word(hi, lo) % 0x4000
  }

  /** The last fourteen bits of two bytes that start with two ones. */
  lemma PointerSpelled(high: byte, low: byte)
    requires high < 64
    ensures PointerTarget(192 + high, low) == 256 * high + low
  {
  }

  /** Section 4.1.4: labels, ended by a zero or by a pointer to an earlier name. `start` is
      where the current run of labels began; pointers lead before it, and not below `low`. */
  function ReadName(pkt: seq<byte>, low: nat, start: nat, pos: nat): Option<Name>
    requires start <= pos
    decreases start, if pos < |pkt| then |pkt| - pos else 0
  {
    if pos >= |pkt| then None
    else if pkt[pos] == 0 then Some(Name([], pos + 1, 0))
    else if pkt[pos] < 64 then
      var next := pos + 1 + pkt[pos];
      if next > |pkt| then None
      else
        match ReadName(pkt, low, start, next)
        case None => None
        case Some(rest) => Some(Name([pkt[pos + 1..next]] + rest.labels, rest.end, rest.pointers))
    else if pkt[pos] >= 192 && pos + 1 < |pkt| then
      var target := PointerTarget(pkt[pos], pkt[pos + 1]);
      if target < low || start <= target then None
      else
        match ReadName(pkt, low, target, target)
        case None => None
        case Some(rest) => Some(Name(rest.labels, pos + 2, rest.pointers + 1))
    else None
  }

  // ---------------------------------------------------------------- labelToStr

  /** What labelToStr does: NULL, a name, or something outside this model (it does not come
      to an end within the turns granted, or it writes past the end of the result buffer). */
  datatype Scanned = Unsupported | Null | Done(labels: seq<Label>, end: nat, pointers: nat)

  /** Where the text of a label goes: behind a separator, if there is text and room. */
  function From(i: nat, room: nat): (from: nat)
    requires i <= room
    ensures i <= from <= room
  {
    if 0 < i < room then i + 1 else i
  }

  /** How much of a label is copied, and passed, before the result buffer is full. */
  function Copied(b: nat, from: nat, room: nat): (k: nat)
    requires from <= room
    ensures k <= b && from + k <= room && (k < b ==> from + k == room)
  {
    if from + b <= room then b else room - from
  }

  /** The rest of the code's loop from labelPtr == pos with i text bytes written, granted
      some number of turns. The code looks past the packet, but not past `mem`. `end` is what
      it returns: the position past the last pointer it followed, or past the zero if there
      was none. Once the buffer is full the code goes on from inside a label; a label of a
      reserved type is looked at again and again. */
  function Scan(mem: seq<byte>, n: nat, room: nat, turns: nat, pos: nat, i: nat): Scanned
    requires n + 2 <= |mem| && pos + 2 <= |mem| && i <= room
    decreases turns, 0
  {
    var b := mem[pos];
    if turns == 0 then Unsupported
    else if b < 64 then
      var from := From(i, room);
      var k := Copied(b, from, room);
      var next := pos + 1 + k;
      if next > n then Null
      else AddLabel(mem[pos + 1..next], AtEnd(mem, n, room, turns - 1, next, from + k))
    else if b >= 192 then
      var target := PointerTarget(b, mem[pos + 1]);
      if target > n then Null else AddPointer(pos + 2, AtEnd(mem, n, room, turns - 1, target, i))
    else if pos > n then Null
    else Scan(mem, n, room, turns - 1, pos, i)
  }

  /** The loop's test at the end of a turn: stop at a zero byte, where the text is ended by
      a NUL, or go on. */
  function AtEnd(mem: seq<byte>, n: nat, room: nat, turns: nat, pos: nat, i: nat): Scanned
    requires n + 2 <= |mem| && pos <= n && i <= room
    decreases turns, 1
  {
    if mem[pos] != 0 then Scan(mem, n, room, turns, pos, i)
    else if i == room then Unsupported
    else Done([], pos + 1, 0)
  }

  function AddLabel(l: Label, rest: Scanned): Scanned {
    if rest.Done? && l != [] then rest.(labels := [l] + rest.labels) else rest
  }

  function AddPointer(after: nat, rest: Scanned): Scanned {
    if rest.Done? then
      Done(rest.labels, if rest.pointers > 0 then rest.end else after, rest.pointers + 1)
    else rest
  }

  /** What has been read so far, completed by the rest of the loop. */
  function Completed(labels: seq<Label>, endPtr: Option<nat>, pointers: nat, rest: Scanned): Scanned {
    if rest.Done? then
      Done(labels + rest.labels,
           if rest.pointers > 0 || endPtr.None? then rest.end else endPtr.value,
           pointers + rest.pointers)
    else rest
  }

  /** The text is that of the labels, whatever their number. */
  lemma {:induction false} JoinAppend(labels: seq<Label>, l: Label)
    ensures Join(labels + [l]) == if labels == [] then l else Join(labels) + [DOT] + l
  {
    if labels == [] {
      assert [] + [l] == [l];
    } else if |labels| == 1 {
      assert (labels + [l])[1..] == [l];
    } else {
      JoinAppend(labels[1..], l);
      assert (labels + [l])[1..] == labels[1..] + [l];
      assert labels[0] + [DOT] + (Join(labels[1..]) + [DOT] + l) == labels[0] + [DOT] + Join(labels[1..]) + [DOT] + l;
    }
  }

  /** A full result buffer never leads to a name. */
  lemma {:induction false} FullNeverDone(mem: seq<byte>, n: nat, room: nat, turns: nat, pos: nat)
    requires n + 2 <= |mem| && pos + 2 <= |mem|
    ensures !Scan(mem, n, room, turns, pos, room).Done?
    ensures pos <= n ==> !AtEnd(mem, n, room, turns, pos, room).Done?
    decreases turns
  {
    if turns > 0 {
      var b := mem[pos];
      if b < 64 {
        if pos + 1 <= n {
          FullNeverDone(mem, n, room, turns - 1, pos + 1);
        }
      } else if b >= 192 {
        var target := PointerTarget(b, mem[pos + 1]);
        if target <= n {
          FullNeverDone(mem, n, room, turns - 1, target);
        }
      } else {
        FullNeverDone(mem, n, room, turns - 1, pos);
      }
    }
  }

  /** A turn of the loop over a label. */
  lemma LabelTurn(labels: seq<Label>, endPtr: Option<nat>, pointers: nat,
                  mem: seq<byte>, n: nat, room: nat, turns: nat, pos: nat, i: nat)
    requires n + 2 <= |mem| && pos + 2 <= |mem| && mem[pos] < 64 && i <= room
    requires !Scan(mem, n, room, turns, pos, i).Unsupported?
    ensures var from := From(i, room);
            var k := Copied(mem[pos], from, room);
            var next := pos + 1 + k;
            && turns > 0
            && (next > n ==> Scan(mem, n, room, turns, pos, i).Null?)
            && (next <= n ==>
                  var l := mem[pos + 1..next];
                  Completed(labels, endPtr, pointers, Scan(mem, n, room, turns, pos, i))
                  == Completed(if l == [] || from + k == room then labels else labels + [l], endPtr, pointers,
                               AtEnd(mem, n, room, turns - 1, next, from + k)))
  {
    var from := From(i, room);
    var k := Copied(mem[pos], from, room);
    var next := pos + 1 + k;
    if next <= n {
      var l := mem[pos + 1..next];
      var rest := AtEnd(mem, n, room, turns - 1, next, from + k);
      assert Scan(mem, n, room, turns, pos, i) == AddLabel(l, rest);
      FullNeverDone(mem, n, room, turns - 1, next);
      if rest.Done? {
        assert labels + ([l] + rest.labels) == labels + [l] + rest.labels;
      }
    }
  }

  /** A turn of the loop over a pointer. */
  lemma PointerTurn(labels: seq<Label>, endPtr: Option<nat>, pointers: nat,
                    mem: seq<byte>, n: nat, room: nat, turns: nat, pos: nat, i: nat)
    requires n + 2 <= |mem| && pos + 2 <= |mem| && mem[pos] >= 192 && i <= room
    requires !Scan(mem, n, room, turns, pos, i).Unsupported?
    ensures var target := PointerTarget(mem[pos], mem[pos + 1]);
            && turns > 0
            && (target > n ==> Scan(mem, n, room, turns, pos, i).Null?)
            && (target <= n ==>
                  Completed(labels, endPtr, pointers, Scan(mem, n, room, turns, pos, i))
                  == Completed(labels, Some(pos + 2), pointers + 1, AtEnd(mem, n, room, turns - 1, target, i)))
  {
  }

  /** A turn of the loop over a reserved label type changes nothing. */
  lemma ReservedTurn(mem: seq<byte>, n: nat, room: nat, turns: nat, pos: nat, i: nat)
    requires n + 2 <= |mem| && pos + 2 <= |mem| && 64 <= mem[pos] < 192 && i <= room
    requires !Scan(mem, n, room, turns, pos, i).Unsupported?
    ensures turns > 0
    ensures pos > n ==> Scan(mem, n, room, turns, pos, i).Null?
    ensures pos <= n ==> Scan(mem, n, room, turns, pos, i) == AtEnd(mem, n, room, turns - 1, pos, i)
  {
  }

  /** So inside the packet the code never gets past it, however many turns it takes. */
  lemma {:induction false} ReservedLabel(mem: seq<byte>, n: nat, room: nat, turns: nat, pos: nat, i: nat)
    requires n + 2 <= |mem| && pos <= n && 64 <= mem[pos] < 192 && i <= room
    ensures Scan(mem, n, room, turns, pos, i).Unsupported?
    decreases turns
  {
    if turns > 0 {
      ReservedLabel(mem, n, room, turns - 1, pos, i);
    }
  }

  /** Nor past pointers in a circle: here one that leads to itself, or two to each other. */
  lemma {:induction false} PointerCircle(mem: seq<byte>, n: nat, room: nat, turns: nat, a: nat, b: nat, i: nat)
    requires n + 2 <= |mem| && a <= n && b <= n && mem[a] >= 192 && mem[b] >= 192 && i <= room
    requires PointerTarget(mem[a], mem[a + 1]) == b && PointerTarget(mem[b], mem[b + 1]) == a
    ensures Scan(mem, n, room, turns, a, i).Unsupported?
    decreases turns
  {
    if turns > 0 {
      PointerCircle(mem, n, room, turns - 1, b, a, i);
    }
  }

  /** The turns granted do not matter as long as they are enough. */
  lemma {:induction false} MoreTurns(mem: seq<byte>, n: nat, room: nat, turns: nat, more: nat, pos: nat, i: nat)
    requires n + 2 <= |mem| && pos + 2 <= |mem| && i <= room && turns <= more
    requires !Scan(mem, n, room, turns, pos, i).Unsupported?
    ensures Scan(mem, n, room, more, pos, i) == Scan(mem, n, room, turns, pos, i)
    decreases turns
  {
    var next := Next(mem, n, room, pos, i);
    if next.Some? {
      var (pos', i') := next.value;
      if mem[pos'] != 0 {
        MoreTurns(mem, n, room, turns - 1, more - 1, pos', i');
      }
    }
  }

  /** The copy loop over one label: NULL when it runs past the packet. */
  method CopyLabel(packet: array<byte>, at: nat, packetSz: nat, res: array<byte>, from: nat, resMaxLen: nat, j: nat)
    returns (ok: bool, labelPtr: nat, i: nat)
    requires packet != res && packetSz + 1 <= packet.Length && at <= packet.Length
    requires from <= resMaxLen <= res.Length
    modifies res
    ensures var k := Copied(j, from, resMaxLen);
            if ok then
              && labelPtr == at + k <= packet.Length && i == from + k
              && res[..i] == old(res[..from]) + packet[at..labelPtr]
            else
              at + k > packetSz
  {
    labelPtr, i := at, from;
    var k := 0;
    while k < j
      invariant 0 <= k <= j
      invariant labelPtr == at + Copied(k, from, resMaxLen) <= packet.Length && i == from + Copied(k, from, resMaxLen)
      invariant res[..i] == old(res[..from]) + packet[at..labelPtr]
    {
      if labelPtr > packetSz {
        return false, labelPtr, i;
      }
      if i < resMaxLen {
        res[i] := packet[labelPtr];
        i := i + 1;
        labelPtr := labelPtr + 1;
      }
      k := k + 1;
    }
    ok := true;
  }

  /** A label of j bytes: a separator if there is text already, then the copy. */
  method AppendLabel(packet: array<byte>, at: nat, packetSz: nat, res: array<byte>, len: nat, resMaxLen: nat, j: nat,
                     ghost labels: seq<Label>)
    returns (ok: bool, labelPtr: nat, i: nat)
    requires packet != res && packetSz + 1 <= packet.Length && at <= packet.Length
    requires len <= resMaxLen <= res.Length
    requires (len < resMaxLen ==> Told(res[..len], labels)) && (len != 0 ==> j != 0)
    modifies res
    ensures var k := Copied(j, From(len, resMaxLen), resMaxLen);
            if ok then
              && labelPtr == at + k <= packet.Length && i == From(len, resMaxLen) + k
              && (i < resMaxLen ==>
                    Told(res[..i], if k == 0 then labels else labels + [packet[at..labelPtr]]))
            else
              at + k > packetSz
  {
    i := len;
    ghost var was := res[..i];
    if i < resMaxLen && i != 0 {
      res[i] := DOT;
      i := i + 1;
    }
    ghost var text := res[..i];
    assert len < resMaxLen ==> text == if was == [] then [] else was + [DOT];
    ok, labelPtr, i := CopyLabel(packet, at, packetSz, res, i, resMaxLen, j);
    if ok && i < resMaxLen && j > 0 {
      ToldMore(was, labels, packet[at..labelPtr]);
    }
  }

  /** labelToStr: on success res holds the NUL-terminated dotted text. It comes to an end
      whenever some number of turns is enough. */
  method LabelToStr(packet: array<byte>, at: nat, packetSz: nat, res: array<byte>, resMaxLen: nat, ghost turns: nat)
    returns (end: Option<nat>)
    requires packet != res && packetSz + 2 <= packet.Length && at + 2 <= packet.Length && resMaxLen <= res.Length
    requires !Scan(packet[..], packetSz, resMaxLen, turns, at, 0).Unsupported?
    modifies res
    ensures var s := Scan(packet[..], packetSz, resMaxLen, turns, at, 0);
            && (s.Null? <==> end.None?)
            && (s.Done? ==>
                  && end == Some(s.end)
                  && |Join(s.labels)| < resMaxLen
                  && res[..|Join(s.labels)|] == Join(s.labels)
                  && res[|Join(s.labels)|] == 0)
  {
    hide Scan, Join;
    ghost var mem := packet[..];
    ghost var goal := Scan(mem, packetSz, resMaxLen, turns, at, 0);
    ghost var left: nat, labels: seq<Label>, pointers: nat := turns, [], 0;
    var endPtr: Option<nat> := None;
    var labelPtr: nat, i: nat := at, 0;
    JoinNothing();
    while true
      invariant packet[..] == mem
      invariant labelPtr + 2 <= packet.Length && i <= resMaxLen
      invariant goal == Completed(labels, endPtr, pointers, Scan(mem, packetSz, resMaxLen, left, labelPtr, i))
      invariant pointers > 0 <==> endPtr.Some?
      invariant i < resMaxLen ==> Told(res[..i], labels)
      invariant i != 0 ==> mem[labelPtr] != 0
      decreases left
    {
      ghost var pos := labelPtr;
      if packet[labelPtr] < 64 {
        LabelTurn(labels, endPtr, pointers, mem, packetSz, resMaxLen, left, pos, i);
        var j: nat := packet[labelPtr];
        labelPtr := labelPtr + 1;
        var ok: bool;
        ok, labelPtr, i := AppendLabel(packet, labelPtr, packetSz, res, i, resMaxLen, j, labels);
        if !ok {
          return None;
        }
        if labelPtr > packetSz {
          return None;
        }
        if labelPtr > pos + 1 && i < resMaxLen {
          labels := labels + [mem[pos + 1..labelPtr]];
        }
      } else if packet[labelPtr] >= 192 {
        PointerTurn(labels, endPtr, pointers, mem, packetSz, resMaxLen, left, pos, i);
        endPtr := Some(labelPtr + 2);
        var offset: nat := PointerTarget(packet[labelPtr], packet[labelPtr + 1]);
        if offset > packetSz {
          return None;
        }
        labelPtr := offset;
        pointers := pointers + 1;
      } else {
        ReservedTurn(mem, packetSz, resMaxLen, left, pos, i);
      }
      if labelPtr > packetSz {
        return None;
      }
      left := left - 1;
      if packet[labelPtr] == 0 {
        break;
      }
    }
    assert labels + [] == labels;
    res[i] := 0;
    if endPtr.None? {
      endPtr := Some(labelPtr + 1);
    }
    return endPtr;
  }

  /** The text written so far is that of these labels. */
  ghost predicate Told(text: seq<byte>, labels: seq<Label>) {
    text == Join(labels) && (text == [] <==> labels == [])
  }

  lemma ToldMore(text: seq<byte>, labels: seq<Label>, l: Label)
    requires Told(text, labels) && l != []
    ensures Told((if text == [] then [] else text + [DOT]) + l, labels + [l])
  {
    JoinAppend(labels, l);
    hide Join;
  }

  lemma JoinNothing()
    ensures Join([]) == []
  {
  }

  // ---------------------------------------------------------------- how many turns there can be

  /** The next position and text length, if the code does not stop in this turn. */
  function Next(mem: seq<byte>, n: nat, room: nat, pos: nat, i: nat): (r: Option<(nat, nat)>)
    requires n + 2 <= |mem| && pos + 2 <= |mem| && i <= room
    ensures r.Some? ==> r.value.0 <= n && r.value.1 <= room
  {
    var b := mem[pos];
    if b < 64 then
      var k := Copied(b, From(i, room), room);
      if pos + 1 + k > n then None else Some((pos + 1 + k, From(i, room) + k))
    else if b >= 192 then
      var target := PointerTarget(b, mem[pos + 1]);
      if target > n then None else Some((target, i))
    else if pos > n then None
    else Some((pos, i))
  }

  /** The code comes to an end in exactly so many turns. */
  predicate EndsIn(mem: seq<byte>, n: nat, room: nat, pos: nat, i: nat, turns: nat)
    requires n + 2 <= |mem| && pos + 2 <= |mem| && i <= room
  {
    turns > 0 && !Scan(mem, n, room, turns, pos, i).Unsupported? && Scan(mem, n, room, turns - 1, pos, i).Unsupported?
  }

  lemma EndsOnce(mem: seq<byte>, n: nat, room: nat, pos: nat, i: nat, t: nat, t': nat)
    requires n + 2 <= |mem| && pos + 2 <= |mem| && i <= room
    requires EndsIn(mem, n, room, pos, i, t) && EndsIn(mem, n, room, pos, i, t')
    ensures t == t'
  {
    if t < t' {
      MoreTurns(mem, n, room, t, t' - 1, pos, i);
    } else if t' < t {
      MoreTurns(mem, n, room, t', t - 1, pos, i);
    }
  }

  lemma EndsNext(mem: seq<byte>, n: nat, room: nat, pos: nat, i: nat, t: nat)
    requires n + 2 <= |mem| && pos + 2 <= |mem| && i <= room
    requires EndsIn(mem, n, room, pos, i, t) && t > 1
    ensures Next(mem, n, room, pos, i).Some?
    ensures var (pos', i') := Next(mem, n, room, pos, i).value; EndsIn(mem, n, room, pos', i', t - 1)
  {
    NextTurn(mem, n, room, t, pos, i);
    NextTurn(mem, n, room, t - 1, pos, i);
    hide Next;
  }

  lemma NextTurn(mem: seq<byte>, n: nat, room: nat, turns: nat, pos: nat, i: nat)
    requires n + 2 <= |mem| && pos + 2 <= |mem| && i <= room && turns > 0
    ensures var next := Next(mem, n, room, pos, i);
            Scan(mem, n, room, turns, pos, i).Unsupported?
            <==> next.Some? && AtEnd(mem, n, room, turns - 1, next.value.0, next.value.1).Unsupported?
  {
    hide PointerTarget, Word;
  }

  /** The states the code goes through in those turns. */
  function Visited(mem: seq<byte>, n: nat, room: nat, pos: nat, i: nat, t: nat): set<(nat, nat)>
    requires n + 2 <= |mem| && pos + 2 <= |mem| && i <= room
    decreases t
  {
    var next := Next(mem, n, room, pos, i);
    {(pos, i)} + if t <= 1 || next.None? then {} else Visited(mem, n, room, next.value.0, next.value.1, t - 1)
  }

  /** The code comes to an end in at most so many turns. */
  ghost predicate EndsWithin(mem: seq<byte>, n: nat, room: nat, v: (nat, nat), turns: nat)
    requires n + 2 <= |mem|
  {
    v.0 + 2 <= |mem| && v.1 <= room && exists t: nat :: t <= turns && EndsIn(mem, n, room, v.0, v.1, t)
  }

  lemma EndsStillWithin(mem: seq<byte>, n: nat, room: nat, visited: set<(nat, nat)>, t: nat)
    requires n + 2 <= |mem| && t > 0 && forall v <- visited :: EndsWithin(mem, n, room, v, t - 1)
    ensures forall v <- visited :: EndsWithin(mem, n, room, v, t)
  {
    hide EndsIn;
  }

  lemma NotSooner(mem: seq<byte>, n: nat, room: nat, pos: nat, i: nat, t: nat)
    requires n + 2 <= |mem| && pos + 2 <= |mem| && i <= room && EndsIn(mem, n, room, pos, i, t)
    ensures t > 0 && EndsWithin(mem, n, room, (pos, i), t) && !EndsWithin(mem, n, room, (pos, i), t - 1)
  {
    assert t > 0;
    hide EndsIn;
    if EndsWithin(mem, n, room, (pos, i), t - 1) {
      var t': nat :| t' <= t - 1 && EndsIn(mem, n, room, pos, i, t');
      EndsOnce(mem, n, room, pos, i, t, t');
    }
  }

  /** No state comes twice: from each one the end is a different number of turns away. */
  lemma {:induction false} NoneTwice(mem: seq<byte>, n: nat, room: nat, pos: nat, i: nat, t: nat)
    requires n + 2 <= |mem| && pos + 2 <= |mem| && i <= room
    requires EndsIn(mem, n, room, pos, i, t)
    ensures |Visited(mem, n, room, pos, i, t)| == t
    ensures forall v <- Visited(mem, n, room, pos, i, t) :: EndsWithin(mem, n, room, v, t)
    ensures forall v <- Visited(mem, n, room, pos, i, t) :: v == (pos, i) || (v.0 <= n && v.1 <= room)
    decreases t
  {
    hide EndsIn, Next, Visited, EndsWithin;
    NotSooner(mem, n, room, pos, i, t);
    VisitedFirst(mem, n, room, pos, i, t);
    if t > 1 {
      EndsNext(mem, n, room, pos, i, t);
      var (pos', i') := Next(mem, n, room, pos, i).value;
      NoneTwice(mem, n, room, pos', i', t - 1);
      EndsStillWithin(mem, n, room, Visited(mem, n, room, pos', i', t - 1), t);
    }
  }

  lemma VisitedFirst(mem: seq<byte>, n: nat, room: nat, pos: nat, i: nat, t: nat)
    requires n + 2 <= |mem| && pos + 2 <= |mem| && i <= room
    ensures var next := Next(mem, n, room, pos, i);
            Visited(mem, n, room, pos, i, t)
            == {(pos, i)}
               + if t <= 1 || next.None? then {} else Visited(mem, n, room, next.value.0, next.value.1, t - 1)
  {
    hide Next;
  }

  function Row(p: nat, width: nat): set<(nat, nat)> {
    if width == 0 then {} else Row(p, width - 1) + {(p, width - 1)}
  }

  function Grid(height: nat, width: nat): set<(nat, nat)>
    decreases height
  {
    if height == 0 then {} else Grid(height - 1, width) + Row(height - 1, width)
  }

  lemma {:induction false} RowHolds(p: nat, width: nat)
    ensures |Row(p, width)| <= width && forall j | 0 <= j < width :: (p, j) in Row(p, width)
  {
    if width > 0 {
      RowHolds(p, width - 1);
    }
  }

  lemma OneMoreRow(height: nat, width: nat)
    requires height > 0
    ensures (height - 1) * width + width == height * width
  {
  }

  lemma {:induction false} GridSize(height: nat, width: nat)
    ensures |Grid(height, width)| <= height * width
    decreases height
  {
    if height > 0 {
      GridSize(height - 1, width);
      RowHolds(height - 1, width);
      OneMoreRow(height, width);
      hide Row;
    }
  }

  lemma {:induction false} GridHolds(height: nat, width: nat)
    ensures forall p, j | 0 <= p < height && 0 <= j < width :: (p, j) in Grid(height, width)
    decreases height
  {
    if height > 0 {
      GridHolds(height - 1, width);
      RowHolds(height - 1, width);
      hide Row;
    }
  }

  lemma {:induction false} SubsetSize<T>(a: set<T>, b: set<T>)
    requires a <= b
    ensures |a| <= |b|
  {
    if a != {} {
      var x :| x in a;
      SubsetSize(a - {x}, b - {x});
    }
  }

  /** One turn for every position in the packet and every length of the text, and the first. */
  function MostTurns(n: nat, room: nat): nat {
    (n + 1) * (room + 1) + 1
  }

  lemma EndsSoon(mem: seq<byte>, n: nat, room: nat, pos: nat, i: nat, t: nat)
    requires n + 2 <= |mem| && pos + 2 <= |mem| && i <= room
    requires EndsIn(mem, n, room, pos, i, t)
    ensures t <= MostTurns(n, room)
  {
    hide EndsIn, Visited;
    NoneTwice(mem, n, room, pos, i, t);
    hide Grid;
    GridHolds(n + 1, room + 1);
    GridSize(n + 1, room + 1);
    var visited := Visited(mem, n, room, pos, i, t);
    SubsetSize(visited - {(pos, i)}, Grid(n + 1, room + 1));
    assert |visited| <= |visited - {(pos, i)}| + 1;
  }

  lemma {:induction false} FewestTurns(mem: seq<byte>, n: nat, room: nat, turns: nat, pos: nat, i: nat)
    returns (t: nat)
    requires n + 2 <= |mem| && pos + 2 <= |mem| && i <= room
    requires !Scan(mem, n, room, turns, pos, i).Unsupported?
    ensures t <= turns && EndsIn(mem, n, room, pos, i, t)
    decreases turns
  {
    if turns > 0 && Scan(mem, n, room, turns - 1, pos, i).Unsupported? {
      t := turns;
    } else {
      t := FewestTurns(mem, n, room, turns - 1, pos, i);
    }
  }

  /** So if so many turns are not enough, no number of turns is: the code never ends, or it
      writes past the result buffer. */
  lemma TurnsBounded(mem: seq<byte>, n: nat, room: nat, turns: nat, pos: nat, i: nat)
    requires n + 2 <= |mem| && pos + 2 <= |mem| && i <= room
    ensures Scan(mem, n, room, turns, pos, i).Unsupported?
            || Scan(mem, n, room, turns, pos, i) == Scan(mem, n, room, MostTurns(n, room), pos, i)
  {
    hide Scan;
    if !Scan(mem, n, room, turns, pos, i).Unsupported? {
      var t := FewestTurns(mem, n, room, turns, pos, i);
      EndsSoon(mem, n, room, pos, i, t);
      assert !Scan(mem, n, room, t, pos, i).Unsupported?;
      hide MostTurns;
      MoreTurns(mem, n, room, t, turns, pos, i);
      MoreTurns(mem, n, room, t, MostTurns(n, room), pos, i);
    }
  }

  // ---------------------------------------------------------------- labelToStr against the reader

  /** The position labelToStr returns, compared with the true end of the name. */
  predicate ReturnsEnd(pkt: seq<byte>, start: nat, name: Name, end: nat) {
    && (name.pointers <= 1 ==> end == name.end)
    && (name.pointers >= 2 ==> end != name.end)
    && (name.pointers >= 1 ==>
          2 <= end <= |pkt| && PointerTarget(pkt[end - 2], pkt[end - 1]) < start)
  }

  /** Text bytes written once these labels have been added to i bytes of text. */
  function TextLength(i: nat, labels: seq<Label>): nat {
    if labels == [] then i else (if i != 0 then i + 1 else 0) + |Join(labels)|
  }

  predicate ScanAgrees(mem: seq<byte>, n: nat, start: nat, s: Scanned, name: Name)
    requires n <= |mem|
  {
    s.Done? && s.labels == name.labels && s.pointers == name.pointers && ReturnsEnd(mem[..n], start, name, s.end)
  }

  lemma JoinCons(l: Label, labels: seq<Label>)
    ensures Join([l] + labels) == if labels == [] then l else l + [DOT] + Join(labels)
  {
    assert ([l] + labels)[1..] == labels;
  }

  /** The turns a name takes: one for each label and each pointer. */
  function Turns(name: Name): nat {
    |name.labels| + name.pointers
  }

  /** The first label of a name and what follows it. */
  lemma FirstLabel(mem: seq<byte>, n: nat, low: nat, start: nat, pos: nat, i: nat)
    requires n <= |mem| && start <= pos < n && 0 < mem[pos] < 64
    requires ReadName(mem[..n], low, start, pos).Some?
    ensures var next := pos + 1 + mem[pos];
            var name := ReadName(mem[..n], low, start, pos).value;
            && next < n && ReadName(mem[..n], low, start, next).Some?
            && var rest := ReadName(mem[..n], low, start, next).value;
            && name == Name([mem[pos + 1..next]] + rest.labels, rest.end, rest.pointers)
            && Turns(name) == Turns(rest) + 1
            && TextLength((if i != 0 then i + 1 else 0) + mem[pos], rest.labels) <= TextLength(i, name.labels)
  {
    var next := pos + 1 + mem[pos];
    assert mem[..n][pos] == mem[pos];
    var rest := ReadName(mem[..n], low, start, next).value;
    assert mem[pos + 1..next] == mem[..n][pos + 1..next];
    JoinCons(mem[pos + 1..next], rest.labels);
    hide Join, PointerTarget;
  }

  lemma ScanLabel(mem: seq<byte>, n: nat, room: nat, turns: nat, low: nat, start: nat, pos: nat, i: nat)
    requires n + 2 <= |mem| && start <= pos < n && 0 < mem[pos] < 64 && i < room
    requires ReadName(mem[..n], low, start, pos).Some?
    requires TextLength(i, ReadName(mem[..n], low, start, pos).value.labels) < room
    requires Turns(ReadName(mem[..n], low, start, pos).value) <= turns
    ensures var next := pos + 1 + mem[pos];
            var name := ReadName(mem[..n], low, start, pos).value;
            var from := (if i != 0 then i + 1 else 0) + mem[pos];
            && turns > 0 && next < n && ReadName(mem[..n], low, start, next).Some?
            && var rest := ReadName(mem[..n], low, start, next).value;
            && from < room && TextLength(from, rest.labels) < room && Turns(rest) <= turns - 1
            && (mem[next] == 0 ==> ScanAgrees(mem, n, start, Scan(mem, n, room, turns, pos, i), name))
            && (mem[next] != 0 && ScanAgrees(mem, n, start, Scan(mem, n, room, turns - 1, next, from), rest)
                ==> ScanAgrees(mem, n, start, Scan(mem, n, room, turns, pos, i), name))
  {
    hide Join, ReadName, PointerTarget;
    var next := pos + 1 + mem[pos];
    FirstLabel(mem, n, low, start, pos, i);
    var l := mem[pos + 1..next];
    if mem[next] == 0 {
      assert mem[..n][next] == mem[next];
      ReadZero(mem[..n], low, start, next);
      assert [l] + [] == [l];
    }
  }

  lemma ReadZero(pkt: seq<byte>, low: nat, start: nat, pos: nat)
    requires start <= pos < |pkt| && pkt[pos] == 0
    ensures ReadName(pkt, low, start, pos) == Some(Name([], pos + 1, 0))
  {
  }

  lemma ScanPointer(mem: seq<byte>, n: nat, room: nat, turns: nat, low: nat, start: nat, pos: nat, i: nat)
    requires n + 2 <= |mem| && start <= pos < n && 64 <= mem[pos] && i < room
    requires ReadName(mem[..n], low, start, pos).Some?
    requires Turns(ReadName(mem[..n], low, start, pos).value) <= turns
    ensures mem[pos] >= 192
    ensures var target := PointerTarget(mem[pos], mem[pos + 1]);
            var name := ReadName(mem[..n], low, start, pos).value;
            && turns > 0 && target < start && ReadName(mem[..n], low, target, target).Some?
            && var rest := ReadName(mem[..n], low, target, target).value;
            && name.labels == rest.labels && Turns(rest) <= turns - 1
            && (mem[target] == 0 ==> ScanAgrees(mem, n, start, Scan(mem, n, room, turns, pos, i), name))
            && (mem[target] != 0 && ScanAgrees(mem, n, target, Scan(mem, n, room, turns - 1, target, i), rest)
                ==> ScanAgrees(mem, n, start, Scan(mem, n, room, turns, pos, i), name))
  {
    hide PointerTarget, Word;
    var target := PointerTarget(mem[pos], mem[pos + 1]);
    var name := ReadName(mem[..n], low, start, pos).value;
    assert mem[..n][pos] == mem[pos] && mem[..n][pos + 1] == mem[pos + 1];
    var rest := ReadName(mem[..n], low, target, target).value;
    assert name == Name(rest.labels, pos + 2, rest.pointers + 1);
    assert Scan(mem, n, room, turns, pos, i) == AddPointer(pos + 2, AtEnd(mem, n, room, turns - 1, target, i));
    if mem[target] == 0 {
      ReadZero(mem[..n], low, target, target);
    }
    hide ReadName, Scan;
  }

  /** Decompression: on a name the reader accepts, other than the bare root, whose text
      fits, the code ends with exactly its labels, after one turn for each label and pointer. */
  lemma {:induction false} ScanReads(mem: seq<byte>, n: nat, room: nat, turns: nat, low: nat, start: nat,
                                     pos: nat, i: nat)
    requires n + 2 <= |mem| && start <= pos < n && mem[pos] != 0 && i < room
    requires ReadName(mem[..n], low, start, pos).Some?
    requires TextLength(i, ReadName(mem[..n], low, start, pos).value.labels) < room
    requires Turns(ReadName(mem[..n], low, start, pos).value) <= turns
    ensures ScanAgrees(mem, n, start, Scan(mem, n, room, turns, pos, i), ReadName(mem[..n], low, start, pos).value)
    decreases start, n - pos
  {
    hide ScanAgrees, Scan, ReadName, TextLength, Turns;
    if mem[pos] < 64 {
      ScanLabel(mem, n, room, turns, low, start, pos, i);
      var next := pos + 1 + mem[pos];
      if mem[next] != 0 {
        ScanReads(mem, n, room, turns - 1, low, start, next, (if i != 0 then i + 1 else 0) + mem[pos]);
      }
    } else {
      ScanPointer(mem, n, room, turns, low, start, pos, i);
      var target := PointerTarget(mem[pos], mem[pos + 1]);
      if mem[target] != 0 {
        ScanReads(mem, n, room, turns - 1, low, target, target, i);
      }
    }
  }

  /** An upper bound for the turns left: whole runs of labels, then the rest of this one. */
  function TurnsLeft(start: nat, size: nat, pos: nat): int {
    start * size + size - pos
  }

  lemma {:induction false} Product(a: nat, b: nat, c: nat)
    requires a < b
    ensures a * c + c <= b * c
    decreases b
  {
    if a + 1 < b {
      Product(a, b - 1, c);
    }
  }

  lemma FewerRuns(target: nat, start: nat, size: nat, pos: nat)
    requires target < start && pos < size
    ensures TurnsLeft(target, size, target) < TurnsLeft(start, size, pos)
  {
    Product(target, start, size);
  }

  /** Enough turns for every name in a packet of this size. */
  lemma {:induction false} TurnsBound(pkt: seq<byte>, low: nat, start: nat, pos: nat)
    requires start <= pos && ReadName(pkt, low, start, pos).Some?
    ensures pos < |pkt| && Turns(ReadName(pkt, low, start, pos).value) <= TurnsLeft(start, |pkt|, pos)
    decreases start, if pos < |pkt| then |pkt| - pos else 0
  {
    if pkt[pos] == 0 {
      assert start * |pkt| >= 0;
    } else if pkt[pos] < 64 {
      TurnsBound(pkt, low, start, pos + 1 + pkt[pos]);
    } else {
      var target := PointerTarget(pkt[pos], pkt[pos + 1]);
      TurnsBound(pkt, low, target, target);
      FewerRuns(target, start, |pkt|, pos);
      hide TurnsLeft;
    }
  }

  /** Turns enough for every name in a packet of this size. */
  function ManyTurns(size: nat): nat {
    size * size
  }

  lemma TurnsSuffice(pkt: seq<byte>, low: nat, pos: nat)
    requires ReadName(pkt, low, pos, pos).Some?
    ensures Turns(ReadName(pkt, low, pos, pos).value) <= ManyTurns(|pkt|)
  {
    TurnsBound(pkt, low, pos, pos);
    Product(pos, |pkt|, |pkt|);
    hide ReadName, Turns;
  }

  /** labelToStr yields the labels of every such name, and the position after it exactly
      when the name uses at most one pointer. */
  lemma Decompression(mem: seq<byte>, n: nat, room: nat, turns: nat, pos: nat)
    requires n + 2 <= |mem| && pos < n && mem[pos] != 0
    requires ReadName(mem[..n], 0, pos, pos).Some?
    requires |Join(ReadName(mem[..n], 0, pos, pos).value.labels)| < room
    requires Turns(ReadName(mem[..n], 0, pos, pos).value) <= turns
    ensures var name := ReadName(mem[..n], 0, pos, pos).value;
            var s := Scan(mem, n, room, turns, pos, 0);
            && s.Done? && s.labels == name.labels
            && (s.end == name.end <==> name.pointers <= 1)
  {
    JoinNothing();
    ScanReads(mem, n, room, turns, 0, pos, pos, 0);
  }

  /** The bare root is misread: the code takes it for an empty label in front of whatever
      follows, and never returns no labels and the position behind the zero. */
  lemma RootMisread(mem: seq<byte>, n: nat, room: nat, turns: nat, pos: nat)
    requires n + 2 <= |mem| && pos + 1 < n && mem[pos] == 0 && 0 < room && 0 < turns
    ensures ReadName(mem[..n], 0, pos, pos) == Some(Name([], pos + 1, 0))
    ensures var s := Scan(mem, n, room, turns, pos, 0);
            && s == AtEnd(mem, n, room, turns - 1, pos + 1, 0)
            && (mem[pos + 1] == 0 ==> s == Done([], pos + 2, 0))
            && (0 < mem[pos + 1] < 64 && s.Done? ==> s.labels != [])
  {
  }

  lemma ReadPointer(pkt: seq<byte>, low: nat, pos: nat, target: nat, rest: Name)
    requires pos + 1 < |pkt| && pkt[pos] >= 192 && PointerTarget(pkt[pos], pkt[pos + 1]) == target
    requires low <= target < pos && ReadName(pkt, low, target, target) == Some(rest)
    ensures ReadName(pkt, low, pos, pos) == Some(Name(rest.labels, pos + 2, rest.pointers + 1))
  {
  }

  /** A one-letter name, a pointer to it, and a pointer to that pointer. */
  lemma ThreeNames(mem: seq<byte>)
    requires 33 <= |mem|
    requires mem[12] == 1 && mem[14] == 0 && mem[19] == mem[25] == 192 && mem[20] == 12 && mem[26] == 19
    ensures var pkt := mem[..31];
            && ReadName(pkt, 12, 12, 12) == Some(Name([[mem[13]]], 15, 0))
            && ReadName(pkt, 12, 19, 19) == Some(Name([[mem[13]]], 21, 1))
            && ReadName(pkt, 12, 25, 25) == Some(Name([[mem[13]]], 27, 2))
  {
    hide ReadName;
    var pkt := mem[..31];
    assert pkt[12] == 1 && pkt[14] == 0 && pkt[19] == pkt[25] == 192 && pkt[20] == 12 && pkt[26] == 19;
    assert pkt[13..14] == [mem[13]];
    ReadZero(pkt, 12, 12, 14);
    ReadOneLabel(pkt, 12, 12, 12, [mem[13]]);
    assert [[mem[13]]] + [] == [[mem[13]]];
    ReadPointer(pkt, 12, 19, 12, Name([[mem[13]]], 15, 0));
    ReadPointer(pkt, 12, 25, 19, Name([[mem[13]]], 21, 1));
  }

  /** A name with two pointers whose end is missed: a label at 12, a pointer to it at 19, and
      at 25 a pointer to that pointer. The code returns 21, the end of the second name. */
  lemma TwoPointersMisread(mem: seq<byte>, room: nat, turns: nat)
    requires 33 <= |mem| && 1 < room && 3 <= turns
    requires mem[12] == 1 && mem[14] == 0 && mem[19] == mem[25] == 192 && mem[20] == 12 && mem[26] == 19
    ensures ReadName(mem[..31], 12, 25, 25) == Some(Name([[mem[13]]], 27, 2))
    ensures Scan(mem, 31, room, turns, 25, 0) == Done([[mem[13]]], 21, 2)
  {
    ThreeNames(mem);
    hide ReadName;
    assert mem[13..14] == [mem[13]] && [mem[13..14]] + [] == [[mem[13]]];
    assert Scan(mem, 31, room, turns - 2, 12, 0) == Done([[mem[13]]], 15, 0);
    assert Scan(mem, 31, room, turns - 1, 19, 0) == Done([[mem[13]]], 21, 1);
  }

  // ---------------------------------------------------------------- strToLabel

  lemma BeforeBehind(c: byte, pieces: seq<Label>, d: byte)
    requires pieces != []
    ensures Before(c, Behind(pieces, d)) == Behind(Before(c, pieces), d)
  {
    var n := |pieces| - 1;
    if d == DOT {
      BeforeMore(c, pieces, [[]]);
    } else if c == DOT {
      var all: seq<Label> := [[]] + pieces;
      assert all[..|all| - 1] == [[]] + pieces[..n];
      assert [[]] + (pieces[..n] + [pieces[n] + [d]]) == [[]] + pieces[..n] + [pieces[n] + [d]];
    } else if n == 0 {
      assert [c] + (pieces[0] + [d]) == [c] + pieces[0] + [d];
    } else {
      var init, last := pieces[..n], pieces[n];
      BeforeMore(c, init, [last + [d]]);
      BeforeMore(c, init, [last]);
      assert pieces == init + [last];
    }
  }

  lemma BeforeMore(c: byte, pieces: seq<Label>, more: seq<Label>)
    requires pieces != []
    ensures Before(c, pieces + more) == Before(c, pieces) + more
  {
    assert (pieces + more)[1..] == pieces[1..] + more;
  }

  lemma {:induction false} PiecesGrow(text: seq<byte>, c: byte)
    ensures Pieces(text + [c]) == Behind(Pieces(text), c)
  {
    if text == [] {
      var one: seq<byte> := [c];
      assert text + [c] == one && one[1..] == [];
      assert Pieces(one) == Before(c, Pieces(one[1..])) == Before(c, [[]]);
      var none: seq<Label> := [[]];
      assert none[..0] == [] && none[1..] == [];
      var nothing: Label := none[0];
      assert [c] + nothing == [c] == nothing + [c];
      assert Before(c, none) == Behind(none, c);
    } else {
      PiecesGrow(text[1..], c);
      assert (text + [c])[1..] == text[1..] + [c];
      BeforeBehind(text[0], Pieces(text[1..]), c);
    }
  }

  lemma {:induction false} LabelBytesAppend(labels: seq<Label>, l: Label)
    ensures LabelBytes(labels + [l]) == LabelBytes(labels) + [Truncate(|l|)] + l
  {
    if labels == [] {
      assert [] + [l] == [l] && [l][1..] == [];
    } else {
      LabelBytesAppend(labels[1..], l);
      assert (labels + [l])[1..] == labels[1..] + [l];
    }
  }

  /** A text of k characters takes k + 2 bytes on the wire. */
  lemma {:induction false} PiecesLength(text: seq<byte>)
    ensures |EncodeName(Pieces(text))| == |text| + 2
  {
    if text == [] {
      var none: seq<Label> := [[]];
      assert none[1..] == [] && LabelBytes(none) == [0];
    } else {
      PiecesLength(text[1..]);
      BeforeLength(text[0], Pieces(text[1..]));
    }
  }

  lemma BeforeLength(c: byte, pieces: seq<Label>)
    requires pieces != []
    ensures |LabelBytes(Before(c, pieces))| == |LabelBytes(pieces)| + 1
  {
    assert Before(c, pieces)[1..] == if c == DOT then pieces else pieces[1..];
  }

  lemma PiecesStep(text: seq<byte>, k: nat)
    requires k < |text|
    ensures Pieces(text[..k + 1]) == Behind(Pieces(text[..k]), text[k])
  {
    PiecesGrow(text[..k], text[k]);
    assert text[..k + 1] == text[..k] + [text[k]];
  }

  /** The destination after part of the text: finished labels up to `len`, then the place
      of the open one's length byte, then its characters up to `p`; the rest as it was. */
  predicate Written(bytes: seq<byte>, was: seq<byte>, at: nat, done: seq<Label>, piece: Label, len: nat, p: nat) {
    && |bytes| == |was| && at <= len < p == len + 1 + |piece| && p <= |was|
    && bytes[..len] == was[..at] + LabelBytes(done)
    && bytes[len + 1..p] == piece
    && bytes[p..] == was[p..]
  }

  lemma WrittenNothing(was: seq<byte>, at: nat)
    requires at < |was|
    ensures Written(was, was, at, [], [], at, at + 1)
  {
  }

  lemma WrittenCharacter(bytes: seq<byte>, was: seq<byte>, at: nat, done: seq<Label>, piece: Label, len: nat,
                         p: nat, c: byte)
    requires Written(bytes, was, at, done, piece, len, p) && p < |was|
    ensures Written(bytes[p := c], was, at, done, piece + [c], len, p + 1)
  {
    var bytes' := bytes[p := c];
    assert bytes'[..len] == bytes[..len];
    assert bytes'[len + 1..p + 1] == bytes[len + 1..p] + [c];
    assert bytes'[p + 1..] == bytes[p..][1..];
  }

  lemma WrittenLabel(bytes: seq<byte>, was: seq<byte>, at: nat, done: seq<Label>, piece: Label, len: nat, p: nat)
    requires Written(bytes, was, at, done, piece, len, p) && p < |was|
    ensures Written(bytes[len := Truncate(|piece|)], was, at, done + [piece], [], p, p + 1)
  {
    var bytes' := bytes[len := Truncate(|piece|)];
    LabelBytesAppend(done, piece);
    assert bytes'[..p] == bytes[..len] + [Truncate(|piece|)] + bytes[len + 1..p];
    assert was[..at] + LabelBytes(done) + [Truncate(|piece|)] + piece
        == was[..at] + (LabelBytes(done) + [Truncate(|piece|)] + piece);
    assert bytes'[p + 1..] == bytes[p..][1..];
  }

  lemma WrittenName(bytes: seq<byte>, was: seq<byte>, at: nat, done: seq<Label>, len: nat, p: nat)
    requires Written(bytes, was, at, done, [], len, p)
    ensures bytes[len := 0] == was[..at] + EncodeName(done) + was[p..]
  {
    var bytes' := bytes[len := 0];
    assert bytes' == bytes[..len] + [0] + bytes[p..];
    assert was[..at] + LabelBytes(done) + [0] == was[..at] + (LabelBytes(done) + [0]);
  }

  /** The destination once s characters of the text have been converted: p is the next place
      to be written, len the place of the length byte of the stretch that is still open. */
  ghost predicate Converted(bytes: seq<byte>, was: seq<byte>, at: nat, text: seq<byte>, s: nat, len: nat, p: nat,
                            done: seq<Label>, piece: Label)
  {
    && s <= |text| && p == at + s + 1 && Pieces(text[..s]) == done + [piece]
    && Written(bytes, was, at, done, piece, len, p)
  }

  lemma ConvertedNothing(was: seq<byte>, at: nat, text: seq<byte>)
    requires at < |was|
    ensures Converted(was, was, at, text, 0, at, at + 1, [], [])
  {
    NoPieces(text);
    WrittenNothing(was, at);
  }

  lemma ConvertedBounds(bytes: seq<byte>, was: seq<byte>, at: nat, text: seq<byte>, s: nat, len: nat, p: nat,
                        done: seq<Label>, piece: Label)
    requires Converted(bytes, was, at, text, s, len, p, done, piece)
    ensures s <= |text| && p == at + s + 1 && at <= len < p <= |was| == |bytes| && p == len + 1 + |piece|
  {
  }

  lemma ConvertedCharacter(bytes: seq<byte>, was: seq<byte>, at: nat, text: seq<byte>, s: nat, len: nat, p: nat,
                           done: seq<Label>, piece: Label)
    requires Converted(bytes, was, at, text, s, len, p, done, piece)
    requires s < |text| && text[s] != DOT && p < |was|
    ensures p < |bytes|
    ensures Converted(bytes[p := text[s]], was, at, text, s + 1, len, p + 1, done, piece + [text[s]])
  {
    NextPiece(text, s, done, piece);
    WrittenCharacter(bytes, was, at, done, piece, len, p, text[s]);
    hide Pieces, Written;
  }

  lemma ConvertedDot(bytes: seq<byte>, was: seq<byte>, at: nat, text: seq<byte>, s: nat, len: nat, p: nat,
                     done: seq<Label>, piece: Label)
    requires Converted(bytes, was, at, text, s, len, p, done, piece)
    requires s < |text| && text[s] == DOT && p < |was|
    ensures len < |bytes|
    ensures Converted(bytes[len := Truncate(|piece|)], was, at, text, s + 1, p, p + 1, done + [piece], [])
  {
    NextPiece(text, s, done, piece);
    WrittenLabel(bytes, was, at, done, piece, len, p);
    hide Pieces, Written;
  }

  /** The closing two bytes: the length of the last stretch and the zero. */
  lemma WrittenEnd(bytes: seq<byte>, was: seq<byte>, at: nat, done: seq<Label>, piece: Label, len: nat, p: nat)
    requires Written(bytes, was, at, done, piece, len, p) && p < |was|
    ensures len < |bytes| == |was|
    ensures bytes[len := Truncate(|piece|)][p := 0] == was[..at] + EncodeName(done + [piece]) + was[p + 1..]
  {
    WrittenLabel(bytes, was, at, done, piece, len, p);
    WrittenName(bytes[len := Truncate(|piece|)], was, at, done + [piece], p, p + 1);
    hide EncodeName, LabelBytes, Truncate;
  }

  lemma ConvertedPieces(bytes: seq<byte>, was: seq<byte>, at: nat, text: seq<byte>, len: nat, p: nat,
                        done: seq<Label>, piece: Label)
    requires Converted(bytes, was, at, text, |text|, len, p, done, piece)
    ensures Written(bytes, was, at, done, piece, len, p) && p == at + |text| + 1 && Pieces(text) == done + [piece]
  {
    hide Pieces, Written;
    assert text[..|text|] == text;
  }

  lemma ConvertedAll(bytes: seq<byte>, was: seq<byte>, at: nat, text: seq<byte>, len: nat, p: nat,
                     done: seq<Label>, piece: Label)
    requires Converted(bytes, was, at, text, |text|, len, p, done, piece) && p < |was|
    ensures len < |bytes| == |was| && p + 1 == at + |text| + 2
    ensures bytes[len := Truncate(|piece|)][p := 0] == was[..at] + EncodeName(Pieces(text)) + was[p + 1..]
  {
    hide *;
    ConvertedPieces(bytes, was, at, text, len, p, done, piece);
    WrittenEnd(bytes, was, at, done, piece, len, p);
  }

  /** strToLabel: the C string in str is written at `at`, nothing else changes. */
  method StrToLabel(str: array<byte>, dest: array<byte>, at: nat) returns (p: nat)
    requires str != dest && |CString(str[..])| < str.Length
    requires at + |CString(str[..])| + 2 <= dest.Length
    modifies dest
    ensures p == at + |CString(str[..])| + 2
    ensures dest[..] == old(dest[..at]) + EncodeName(Pieces(CString(str[..]))) + old(dest[p..])
  {
    hide CString, Pieces, Converted, EncodeName, Truncate;
    ghost var text := CString(str[..]);
    ghost var was := dest[..];
    var len: nat := at;
    p := at + 1;
    var s: nat := 0;
    ghost var done: seq<Label>, piece: Label := [], [];
    ConvertedNothing(was, at, text);
    while true
      invariant s <= |text| && str[..] == old(str[..])
      invariant Converted(dest[..], was, at, text, s, len, p, done, piece)
      decreases |text| - s
    {
      ConvertedBounds(dest[..], was, at, text, s, len, p, done, piece);
      assert str[s] == 0 <==> s == |text|;
      if str[s] == DOT || str[s] == 0 {
        if s == |text| {
          ConvertedAll(dest[..], was, at, text, len, p, done, piece);
        } else {
          ConvertedDot(dest[..], was, at, text, s, len, p, done, piece);
        }
        dest[len] := Truncate(p - len - 1);
        len := p;
        p := p + 1;
        done, piece := done + [piece], [];
        if str[s] == 0 {
          break;
        }
        s := s + 1;
      } else {
        ConvertedCharacter(dest[..], was, at, text, s, len, p, done, piece);
        dest[p] := str[s];
        p := p + 1;
        piece := piece + [text[s]];
        s := s + 1;
      }
    }
    dest[len] := 0;
  }

  lemma NoPieces(text: seq<byte>)
    ensures Pieces(text[..0]) == [] + [[]]
  {
  }

  lemma NextPiece(text: seq<byte>, s: nat, done: seq<Label>, piece: Label)
    requires s < |text| && Pieces(text[..s]) == done + [piece]
    ensures Pieces(text[..s + 1])
            == if text[s] == DOT then done + [piece] + [[]] else done + [piece + [text[s]]]
  {
    PiecesStep(text, s);
    hide Pieces;
  }

  // ---------------------------------------------------------------- round trips

  /** Splitting at the dots and joining again gives the text back. */
  lemma {:induction false} JoinPieces(text: seq<byte>)
    ensures Join(Pieces(text)) == text
  {
    if text != [] {
      JoinPieces(text[1..]);
      JoinBefore(text[0], Pieces(text[1..]));
      assert [text[0]] + text[1..] == text;
    }
  }

  lemma JoinBefore(c: byte, pieces: seq<Label>)
    requires pieces != []
    ensures Join(Before(c, pieces)) == [c] + Join(pieces)
  {
    if c == DOT {
      JoinCons([], pieces);
      assert [] + [DOT] + Join(pieces) == [DOT] + Join(pieces);
    } else {
      JoinCons([c] + pieces[0], pieces[1..]);
      JoinCons(pieces[0], pieces[1..]);
      assert [pieces[0]] + pieces[1..] == pieces;
      assert [c] + pieces[0] + [DOT] + Join(pieces[1..]) == [c] + (pieces[0] + [DOT] + Join(pieces[1..]));
    }
  }

  /** And the other way round for labels without dots. */
  lemma {:induction false} PiecesJoin(labels: seq<Label>)
    requires labels != [] && Plain(labels)
    ensures Pieces(Join(labels)) == labels
    decreases |labels|, |labels[0]|
  {
    var l, rest := labels[0], labels[1..];
    assert labels == [l] + rest;
    assert l in labels && forall m <- rest :: m in labels;
    if l != [] {
      PlainShorter(l, rest);
      PiecesJoin([l[1..]] + rest);
      PiecesJoinCharacter(l, rest);
    } else if rest != [] {
      PiecesJoin(rest);
      PiecesJoinDot(rest);
    }
  }

  lemma PlainShorter(l: Label, rest: seq<Label>)
    requires l != [] && Plain([l] + rest)
    ensures Plain([l[1..]] + rest)
  {
    assert l in [l] + rest && forall m <- rest :: m in [l] + rest;
    forall m <- [l[1..]] + rest
      ensures DOT !in m && 0 !in m
    {
      assert m == l[1..] || m in rest;
    }
  }

  lemma PiecesJoinCharacter(l: Label, rest: seq<Label>)
    requires l != [] && l[0] != DOT
    requires Pieces(Join([l[1..]] + rest)) == [l[1..]] + rest
    ensures Pieces(Join([l] + rest)) == [l] + rest
  {
    hide Join;
    JoinCons(l, rest);
    JoinCons(l[1..], rest);
    var text := Join([l] + rest);
    assert text[0] == l[0] && text[1..] == Join([l[1..]] + rest);
    PiecesOf(text);
    hide Pieces;
    assert ([l[1..]] + rest)[0] == l[1..] && ([l[1..]] + rest)[1..] == rest;
    assert [l[0]] + l[1..] == l;
  }

  lemma PiecesOf(text: seq<byte>)
    requires text != []
    ensures Pieces(text) == Before(text[0], Pieces(text[1..]))
  {
  }

  lemma PiecesJoinDot(rest: seq<Label>)
    requires rest != [] && Pieces(Join(rest)) == rest
    ensures Pieces(Join([[]] + rest)) == [[]] + rest
  {
    JoinCons([], rest);
    hide Join;
    var text := Join([[]] + rest);
    assert text[0] == DOT && text[1..] == Join(rest);
  }

  /** The text of plain labels contains no NUL. */
  lemma {:induction false} JoinPlain(labels: seq<Label>)
    requires Plain(labels)
    ensures 0 !in Join(labels)
  {
    if |labels| > 1 {
      assert labels[0] in labels;
      assert forall m <- labels[1..] :: m in labels;
      JoinPlain(labels[1..]);
    } else if |labels| == 1 {
      assert labels[0] in labels;
    }
  }

  lemma LabelBytesCons(l: Label, labels: seq<Label>)
    ensures LabelBytes([l] + labels) == [Truncate(|l|)] + l + LabelBytes(labels)
  {
    assert ([l] + labels)[1..] == labels;
  }

  /** The reader reads back what the encoder wrote, wherever it stands. */
  lemma {:induction false} ReadEncoded(pkt: seq<byte>, low: nat, start: nat, pos: nat, labels: seq<Label>)
    requires start <= pos && pos + |EncodeName(labels)| <= |pkt| && Labels(labels)
    requires pkt[pos..pos + |EncodeName(labels)|] == EncodeName(labels)
    ensures ReadName(pkt, low, start, pos) == Some(Name(labels, pos + |EncodeName(labels)|, 0))
    decreases |labels|
  {
    hide ReadName;
    if labels == [] {
      assert pkt[pos] == pkt[pos..pos + 1][0];
      ReadZero(pkt, low, start, pos);
    } else {
      var l, rest := labels[0], labels[1..];
      assert l in labels && forall m <- rest :: m in labels;
      assert [l] + rest == labels;
      EncodedSlices(pkt, pos, l, rest);
      hide EncodeName;
      ReadEncoded(pkt, low, start, pos + 1 + |l|, rest);
      ReadOneLabel(pkt, low, start, pos, l);
    }
  }

  lemma ReadOneLabel(pkt: seq<byte>, low: nat, start: nat, pos: nat, l: Label)
    requires start <= pos && pos + 1 + |l| <= |pkt| && 1 <= |l| <= 63
    requires pkt[pos] == |l| && pkt[pos + 1..pos + 1 + |l|] == l
    requires ReadName(pkt, low, start, pos + 1 + |l|).Some?
    ensures var rest := ReadName(pkt, low, start, pos + 1 + |l|).value;
            ReadName(pkt, low, start, pos) == Some(Name([l] + rest.labels, rest.end, rest.pointers))
  {
  }

  lemma EncodedSlices(pkt: seq<byte>, pos: nat, l: Label, rest: seq<Label>)
    requires |l| <= 63 && pos + |EncodeName([l] + rest)| <= |pkt|
    requires pkt[pos..pos + |EncodeName([l] + rest)|] == EncodeName([l] + rest)
    ensures var next := pos + 1 + |l|;
            && |EncodeName([l] + rest)| == 1 + |l| + |EncodeName(rest)|
            && pkt[pos] == |l|
            && pkt[pos + 1..next] == l
            && pkt[next..next + |EncodeName(rest)|] == EncodeName(rest)
  {
    EncodeCons(l, rest);
    ThreeParts(pkt, pos, |l|, l, EncodeName(rest));
  }

  lemma ThreeParts(pkt: seq<byte>, pos: nat, b: byte, l: seq<byte>, rest: seq<byte>)
    requires var all := [b] + l + rest; pos + |all| <= |pkt| && pkt[pos..pos + |all|] == all
    ensures var next := pos + 1 + |l|;
            pkt[pos] == b && pkt[pos + 1..next] == l && pkt[next..next + |rest|] == rest
  {
    var all := [b] + l + rest;
    assert pkt[pos] == pkt[pos..pos + |all|][0];
    Subslice(pkt, pos, pos + |all|, 1, 1 + |l|);
    Subslice(pkt, pos, pos + |all|, 1 + |l|, |all|);
    assert all[1..1 + |l|] == l && all[1 + |l|..|all|] == rest;
  }

  // ---------------------------------------------------------------- any text on the wire

  predicate Short(pieces: seq<Label>, most: nat) {
    forall p <- pieces :: |p| <= most
  }

  /** The stretches of a text are no longer than the text. */
  lemma {:induction false} PiecesShort(text: seq<byte>)
    ensures Short(Pieces(text), |text|)
  {
    if text != [] {
      PiecesShort(text[1..]);
    }
  }

  /** Whatever dots the labels contain, no stretch of their text is longer than a label. */
  lemma {:induction false} JoinShort(labels: seq<Label>)
    requires Labels(labels)
    ensures Short(Pieces(Join(labels)), 63)
  {
    if labels != [] {
      var l, rest := labels[0], labels[1..];
      assert l in labels && forall m <- rest :: m in labels;
      PiecesShort(l);
      JoinShort(rest);
      JoinCons(l, rest);
      assert labels == [l] + rest;
      PiecesSplit(l, Join(rest));
    }
  }

  /** Cutting a text short makes no stretch longer. */
  lemma {:induction false} PrefixShort(text: seq<byte>, k: nat, most: nat)
    requires k <= |text| && Short(Pieces(text), most)
    ensures Short(Pieces(text[..k]), most)
    decreases |text| - k
  {
    if k == |text| {
      assert text[..k] == text;
    } else {
      PrefixShort(text, k + 1, most);
      PiecesStep(text, k);
      BehindShort(Pieces(text[..k]), text[k], most);
    }
  }

  lemma BehindShort(pieces: seq<Label>, c: byte, most: nat)
    requires pieces != [] && Short(Behind(pieces, c), most)
    ensures Short(pieces, most)
  {
    var longer := Behind(pieces, c);
    forall i | 0 <= i < |pieces|
      ensures |pieces[i]| <= most
    {
      assert longer[i] in longer;
    }
  }

  /** No stretch of a C string contains a dot or a NUL. */
  lemma {:induction false} PiecesPlain(text: seq<byte>)
    requires 0 !in text
    ensures Plain(Pieces(text))
  {
    if text != [] {
      PiecesPlain(text[1..]);
    }
  }

  /** Whatever text is put back on the wire, a reader finds labels without dots and NULs. */
  lemma {:induction false} ReadPieces(pkt: seq<byte>, low: nat, start: nat, pos: nat, pieces: seq<Label>)
    requires Plain(pieces) && Short(pieces, 63)
    requires start <= pos && pos + |EncodeName(pieces)| <= |pkt|
    requires pkt[pos..pos + |EncodeName(pieces)|] == EncodeName(pieces)
    ensures ReadName(pkt, low, start, pos).Some? && Plain(ReadName(pkt, low, start, pos).value.labels)
    decreases |pieces|
  {
    hide ReadName;
    if pieces == [] {
      assert pkt[pos] == pkt[pos..pos + 1][0];
      ReadZero(pkt, low, start, pos);
    } else {
      var l, rest := pieces[0], pieces[1..];
      assert l in pieces && forall m <- rest :: m in pieces;
      assert [l] + rest == pieces;
      EncodedSlices(pkt, pos, l, rest);
      hide EncodeName;
      if l == [] {
        ReadZero(pkt, low, start, pos);
      } else {
        ReadPieces(pkt, low, start, pos + 1 + |l|, rest);
        ReadOneLabel(pkt, low, start, pos, l);
      }
    }
  }

  lemma CStringWithin(text: seq<byte>)
    ensures var s := CString(text + [0]); |s| <= |text| && s == text[..|s|]
  {
    var s := CString(text + [0]);
    assert 0 in (text + [0])[..|text| + 1] by {
      assert (text + [0])[..|text| + 1][|text|] == 0;
    }
    assert |s| != |text| + 1;
  }

  /** In particular the text of any labels, cut at its first NUL. */
  lemma ReadText(pkt: seq<byte>, low: nat, pos: nat, labels: seq<Label>)
    requires Labels(labels)
    requires var name := EncodeName(Pieces(CString(Join(labels) + [0])));
             pos + |name| <= |pkt| && pkt[pos..pos + |name|] == name
    ensures ReadName(pkt, low, pos, pos).Some? && Plain(ReadName(pkt, low, pos, pos).value.labels)
  {
    hide ReadName, EncodeName, Pieces, Join, CString;
    var text := Join(labels);
    var s := CString(text + [0]);
    CStringWithin(text);
    JoinShort(labels);
    PrefixShort(text, |s|, 63);
    PiecesPlain(s);
    ReadPieces(pkt, low, pos, pos, Pieces(s));
  }

  /** Texts and labels, spelled out: the separator is 46, and neither it nor a zero can be part
      of a label in a text. */
  lemma TextSpelled(a: seq<byte>, b: seq<byte>)
    requires a != [] && b != [] && 46 !in a && 46 !in b
    ensures Join([a, b]) == a + [46] + b && Pieces(a + [46] + b) == [a, b]
    ensures forall labels: seq<Label> :: Plain(labels) <==> forall l <- labels :: 46 !in l && 0 !in l
  {
    PiecesSplit(a, b);
    PiecesDotless(a);
    PiecesDotless(b);
    assert [a, b][1..] == [b];
  }

  // ---------------------------------------------------------------- whole round trips

  /** labelToStr undoes strToLabel: a non-empty dotted name with labels of 1..63 bytes is
      read back as the same text, and takes its length + 2 bytes. */
  lemma TextRoundTrip(mem: seq<byte>, n: nat, room: nat, turns: nat, pos: nat, text: seq<byte>)
    requires text != [] && Labels(Pieces(text)) && |text| < room && |Pieces(text)| <= turns
    requires n + 2 <= |mem| && pos + |text| + 2 <= n
    requires mem[pos..pos + |text| + 2] == EncodeName(Pieces(text))
    ensures var s := Scan(mem, n, room, turns, pos, 0);
            s.Done? && Join(s.labels) == text && s.end == pos + |text| + 2
  {
    hide Scan, ReadName, Pieces, Join;
    var labels := Pieces(text);
    PiecesLength(text);
    JoinPieces(text);
    assert mem[..n][pos..pos + |text| + 2] == mem[pos..pos + |text| + 2];
    ReadEncoded(mem[..n], 0, pos, pos, labels);
    assert labels[0] in labels;
    FirstByte(labels);
    assert mem[pos] == mem[pos..pos + |text| + 2][0];
    JoinNothing();
    hide EncodeName;
    ScanReads(mem, n, room, turns, 0, pos, pos, 0);
  }

  lemma FirstByte(labels: seq<Label>)
    requires labels != [] && Labels(labels)
    ensures EncodeName(labels)[0] == |labels[0]| > 0
  {
    assert labels[0] in labels;
  }

  /** strToLabel undoes labelToStr up to compression: from any name the reader accepts,
      however compressed, it writes the fully expanded encoding of the same labels, if and
      only if no label contains a dot or a NUL. */
  lemma NameRoundTrip(mem: seq<byte>, n: nat, room: nat, turns: nat, pos: nat)
    requires n + 2 <= |mem| && pos < n && mem[pos] != 0
    requires ReadName(mem[..n], 0, pos, pos).Some? && Turns(ReadName(mem[..n], 0, pos, pos).value) <= turns
    requires var labels := ReadName(mem[..n], 0, pos, pos).value.labels;
             labels != [] && |Join(labels)| < room
    ensures var labels := ReadName(mem[..n], 0, pos, pos).value.labels;
            var s := Scan(mem, n, room, turns, pos, 0);
            && s.Done? && s.labels == labels
            && (EncodeName(Pieces(CString(Join(s.labels) + [0]))) == EncodeName(labels) <==> Plain(labels))
            && |EncodeName(labels)| == |Join(labels)| + 2
  {
    hide *;
    var labels := ReadName(mem[..n], 0, pos, pos).value.labels;
    Decompression(mem, n, room, turns, pos);
    ReadLabels(mem[..n], 0, pos, pos);
    EncodedLength(labels);
    if Plain(labels) {
      WireOfText(labels);
    } else if EncodeName(Pieces(CString(Join(labels) + [0]))) == EncodeName(labels) {
      ExpandedPlain(labels);
    }
  }

  lemma {:induction false} EncodedLength(labels: seq<Label>)
    requires labels != []
    ensures |EncodeName(labels)| == |Join(labels)| + 2
  {
    if |labels| == 1 {
      assert labels[1..] == [];
    } else {
      EncodedLength(labels[1..]);
    }
  }

  /** The first stretch of a text ends at its first dot. */
  lemma {:induction false} FirstPiece(text: seq<byte>)
    ensures var p := Pieces(text)[0];
            p <= text && (forall k | 0 <= k < |p| :: text[k] != DOT) && (|p| < |text| ==> text[|p|] == DOT)
  {
    if text != [] {
      FirstPiece(text[1..]);
    }
  }

  /** A dot separates the stretches before it from those behind it. */
  lemma {:induction false} PiecesSplit(a: seq<byte>, b: seq<byte>)
    ensures Pieces(a + [DOT] + b) == Pieces(a) + Pieces(b)
  {
    var all := a + [DOT] + b;
    if a == [] {
      assert all[1..] == b;
    } else {
      PiecesSplit(a[1..], b);
      assert all[1..] == a[1..] + [DOT] + b;
      assert all[0] == a[0];
      BeforeMore(a[0], Pieces(a[1..]), Pieces(b));
    }
  }

  lemma {:induction false} PiecesDotless(l: Label)
    requires DOT !in l
    ensures Pieces(l) == [l]
  {
    if l != [] {
      PiecesDotless(l[1..]);
      assert l == [l[0]] + l[1..];
    }
  }

  /** A text whose encoding is that of the labels it was joined from has no further dots. */
  lemma {:induction false} NoFurtherDots(labels: seq<Label>)
    requires labels != [] && Labels(labels) && EncodeName(Pieces(Join(labels))) == EncodeName(labels)
    ensures forall l <- labels :: DOT !in l
    decreases |labels|
  {
    hide EncodeName, Pieces, Join;
    var l, rest := labels[0], labels[1..];
    assert l in labels && labels == [l] + rest;
    NoDotInFirst(l, rest);
    if rest != [] {
      JoinCons(l, rest);
      PiecesSplit(l, Join(rest));
      PiecesDotless(l);
      EncodeCons(l, Pieces(Join(rest)));
      EncodeCons(l, rest);
      SameTail([|l|] + l, EncodeName(Pieces(Join(rest))), EncodeName(rest));
      assert forall m <- rest :: m in labels;
      NoFurtherDots(rest);
    }
  }

  lemma NoDotInFirst(l: Label, rest: seq<Label>)
    requires |l| <= 63 && EncodeName(Pieces(Join([l] + rest))) == EncodeName([l] + rest)
    ensures DOT !in l
  {
    hide EncodeName, Pieces, Join;
    var text := Join([l] + rest);
    var p, more := Pieces(text)[0], Pieces(text)[1..];
    JoinCons(l, rest);
    FirstPiece(text);
    assert text[..|l|] == l;
    assert |p| <= |l| by {
      assert rest == [] || text[|l|] == DOT;
    }
    assert Pieces(text) == [p] + more;
    EncodeCons(l, rest);
    EncodeCons(p, more);
    assert EncodeName([p] + more)[0] == |p| && EncodeName([l] + rest)[0] == |l|;
    assert forall k | 0 <= k < |l| :: l[k] == text[k];
  }

  lemma EncodeCons(l: Label, labels: seq<Label>)
    requires |l| <= 63
    ensures EncodeName([l] + labels) == [|l|] + l + EncodeName(labels)
  {
    LabelBytesCons(l, labels);
  }

  lemma SameTail(a: seq<byte>, b: seq<byte>, c: seq<byte>)
    requires a + b == a + c
    ensures b == c
  {
    assert (a + b)[|a|..] == b && (a + c)[|a|..] == c;
  }

  /** A NUL would cut the text short, and a dot would split a label. */
  lemma ExpandedPlain(labels: seq<Label>)
    requires labels != [] && Labels(labels)
    requires EncodeName(Pieces(CString(Join(labels) + [0]))) == EncodeName(labels)
    ensures Plain(labels)
  {
    hide Pieces, EncodeName, Join, CString;
    var text := Join(labels);
    var s := CString(text + [0]);
    PiecesLength(s);
    EncodedLength(labels);
    assert s == (text + [0])[..|text|] == text;
    NoFurtherDots(labels);
    JoinHolds(labels);
  }

  lemma {:induction false} JoinHolds(labels: seq<Label>)
    ensures forall l <- labels, b <- l :: b in Join(labels)
  {
    if |labels| > 1 {
      JoinHolds(labels[1..]);
      assert labels == [labels[0]] + labels[1..];
    }
  }

  lemma WireOfText(labels: seq<Label>)
    requires labels != [] && Plain(labels)
    ensures CString(Join(labels) + [0]) == Join(labels)
    ensures Pieces(Join(labels)) == labels
    ensures |EncodeName(labels)| == |Join(labels)| + 2
  {
    JoinPlain(labels);
    PiecesJoin(labels);
    CStringEnds(Join(labels) + [0], Join(labels));
    PiecesLength(Join(labels));
  }

  /** The labels the reader returns have lengths the wire can carry. */
  lemma {:induction false} ReadLabels(pkt: seq<byte>, low: nat, start: nat, pos: nat)
    requires start <= pos && ReadName(pkt, low, start, pos).Some?
    ensures Labels(ReadName(pkt, low, start, pos).value.labels)
    decreases start, if pos < |pkt| then |pkt| - pos else 0
  {
    if pkt[pos] == 0 {
    } else if pkt[pos] < 64 {
      ReadLabels(pkt, low, start, pos + 1 + pkt[pos]);
    } else {
      var target := PointerTarget(pkt[pos], pkt[pos + 1]);
      ReadLabels(pkt, low, target, target);
    }
  }

  /** A name depends only on the bytes between `low` and the end of the packet. */
  lemma {:induction false} ReadNameStable(pkt: seq<byte>, pkt': seq<byte>, low: nat, start: nat, pos: nat)
    requires low <= start <= pos && |pkt| <= |pkt'| && ReadName(pkt, low, start, pos).Some?
    requires forall k | low <= k < |pkt| :: pkt[k] == pkt'[k]
    ensures ReadName(pkt', low, start, pos) == ReadName(pkt, low, start, pos)
    decreases start, if pos < |pkt| then |pkt| - pos else 0
  {
    if pkt[pos] == 0 {
    } else if pkt[pos] < 64 {
      var next := pos + 1 + pkt[pos];
      ReadNameStable(pkt, pkt', low, start, next);
      assert pkt[pos + 1..next] == pkt'[pos + 1..next];
    } else {
      var target := PointerTarget(pkt[pos], pkt[pos + 1]);
      ReadNameStable(pkt, pkt', low, target, target);
    }
  }
}
