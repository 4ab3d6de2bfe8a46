/** Messages with their allocation, and messaging clients
    (components/msg_core/src/include/msg_utils.h, msg_core.c, msg_tcpip.c). */
module Messaging {
  import opened Bytes

  /** The content of a message_t. */
  type Msg = seq<byte>

  /** msg_tcpip reads into a buffer of this size and accepts only shorter reads. */
  const READ_BUF_SIZE := 2048

  // ---------------------------------------------------------------- allocation

  /** The message_t objects of the program. `cells` maps the live ones to their
      content; using or freeing anything else is counted in `faults`. */
  class MessageHeap {
    var cells: map<nat, Msg>
    var next: nat
    var faults: nat

    ghost predicate Valid()
      reads this
    {
      forall id <- cells :: id < next
    }

    constructor ()
      ensures Valid() && cells == map[] && faults == 0
    {
      cells, next, faults := map[], 0, 0;
    }

    method CreateMsg(data: Msg) returns (id: nat)
      requires Valid()
      modifies this
      ensures Valid() && id == old(next) && next == old(next) + 1
      ensures cells == old(cells)[id := data] && faults == old(faults)
    {
      id := next;
      cells := cells[id := data];
      next := next + 1;
    }

    /** Reading message->data. */
    method Read(id: nat) returns (data: Msg)
      modifies this`faults
      ensures id in cells ==> data == cells[id] && faults == old(faults)
      ensures id !in cells ==> faults == old(faults) + 1
    {
      if id in cells {
        data := cells[id];
      } else {
        data := [];
        faults := faults + 1;
      }
    }

    /** Reading through a NULL message pointer. */
    method NullRead()
      modifies this`faults
      ensures faults == old(faults) + 1
    {
      faults := faults + 1;
    }

    method CopyMsg(id: nat) returns (copy: nat)
      requires Valid() && id in cells
      modifies this
      ensures Valid() && copy == old(next) && next == old(next) + 1
      ensures cells == old(cells)[copy := old(cells)[id]] && faults == old(faults)
    {
      var data := Read(id);
      copy := CreateMsg(data);
    }

    method DestroyMsg(id: nat)
      requires Valid()
      modifies this`cells, this`faults
      ensures Valid() && cells == old(cells) - {id}
      ensures faults == old(faults) + (if id in old(cells) then 0 else 1)
    {
      if id !in cells {
        faults := faults + 1;
      }
      cells := cells - {id};
    }

    /** NULL entries of a bundle are skipped. */
    method DestroyMsgBundle(bundle: seq<Option<nat>>)
      requires Valid()
      requires forall i | 0 <= i < |bundle| && bundle[i].Some? :: bundle[i].value in cells
      requires forall i, j | 0 <= i < j < |bundle| && bundle[i].Some? && bundle[j].Some? ::
                 bundle[i].value != bundle[j].value
      modifies this`cells, this`faults
      ensures Valid() && faults == old(faults)
      ensures cells == old(cells) - Ids(bundle)
    {
      var i := 0;
      while i < |bundle|
        invariant 0 <= i <= |bundle|
        invariant Valid() && faults == old(faults)
        invariant cells == old(cells) - Ids(bundle[..i])
      {
        if bundle[i].Some? {
          assert bundle[i].value !in Ids(bundle[..i]);
          DestroyMsg(bundle[i].value);
        }
        assert Ids(bundle[..i + 1]) == Ids(bundle[..i]) + if bundle[i].Some? then {bundle[i].value} else {};
        i := i + 1;
      }
      assert bundle[..i] == bundle;
    }
  }

  function Ids(bundle: seq<Option<nat>>): set<nat> {
    set b | b in bundle && b.Some? :: b.value
  }

  // ---------------------------------------------------------------- clients

  /** A client as a value. The outcomes of the foreign calls still to come are listed
      in advance (an exhausted list means failure); the two queues hold what is in
      flight on the current connection, one element per write and per read. */
  datatype Tcp = Tcp(
    connected: bool, connects: seq<bool>, writes: seq<bool>, toPeer: seq<Msg>, fromPeer: seq<Msg>)

  /** Losing a link loses everything in flight on it. */
  function Dropped(t: Tcp): Tcp {
    t.(connected := false, toPeer := [], fromPeer := [])
  }

  /** One attempt to open a new link. */
  function Connected(t: Tcp): Tcp {
    if t.connects != [] && t.connects[0] then
      t.(connected := true, connects := t.connects[1..], toPeer := [], fromPeer := [])
    else
      Dropped(t).(connects := if t.connects == [] then [] else t.connects[1..])
  }

  /** Publishing one message: nothing while disconnected, and a short write loses the link. */
  function Published(t: Tcp, m: Msg): Tcp {
    if !t.connected || m == [] then t
    else if t.writes != [] && t.writes[0] then
      t.(toPeer := t.toPeer + [m], writes := t.writes[1..])
    else
      Dropped(t).(writes := if t.writes == [] then [] else t.writes[1..])
  }

  function PublishedAll(t: Tcp, ms: seq<Msg>): Tcp {
    if ms == [] then t else Published(PublishedAll(t, ms[..|ms| - 1]), ms[|ms| - 1])
  }

  lemma {:induction false} PublishedAllAppend(t: Tcp, a: seq<Msg>, b: seq<Msg>)
    ensures PublishedAll(t, a + b) == PublishedAll(PublishedAll(t, a), b)
  {
    if b == [] {
      assert a + b == a;
    } else {
      PublishedAllAppend(t, a, b[..|b| - 1]);
      assert (a + b)[..|a + b| - 1] == a + b[..|b| - 1];
    }
  }

  lemma PublishedNothing(t: Tcp)
    ensures PublishedAll(t, []) == t
  {
  }

  lemma PublishedOne(t: Tcp, m: Msg)
    ensures PublishedAll(t, [m]) == Published(t, m)
  {
    assert [m][..0] == [];
  }

  /** What read() reports: nothing yet, an error, or the next bytes if there are any. */
  datatype ReadOutcome = Idle | Error | Ready

  function AfterRead(t: Tcp, r: ReadOutcome): (Tcp, Option<Msg>) {
    if !t.connected then (t, None)
    else
      match r
      case Idle => (t, None)
      case Error => (Dropped(t), None)
      case Ready =>
        if t.fromPeer == [] then (t, None)
        else
          var chunk := t.fromPeer[0];
          (t.(fromPeer := t.fromPeer[1..]), if 0 < |chunk| < READ_BUF_SIZE then Some(chunk) else None)
  }

  /** Only an open link is read; an error closes it and loses what is in flight; bytes are
      taken from the front, and delivered if they are 1 to 2047. */
  lemma ReadExactly(t: Tcp, r: ReadOutcome)
    ensures var (t', m) := AfterRead(t, r);
            && (t'.connected <==> t.connected && !r.Error?)
            && t'.connects == t.connects && t'.writes == t.writes
            && t'.toPeer == (if t.connected && r.Error? then [] else t.toPeer)
            && (t.connected && r.Ready? && t.fromPeer != [] ==>
                  && t'.fromPeer == t.fromPeer[1..]
                  && m == if 1 <= |t.fromPeer[0]| <= 2047 then Some(t.fromPeer[0]) else None)
            && (!(t.connected && r.Ready? && t.fromPeer != []) ==>
                  m == None && t'.fromPeer == if t.connected && r.Error? then [] else t.fromPeer)
  {
  }

  /** A message reaches the peer if and only if the link is open and the write succeeds; a
      failing write closes the link. An empty message is not written. */
  lemma WriteExactly(t: Tcp, m: Msg)
    requires m != []
    ensures var t' := Published(t, m);
            var written := t.connected && t.writes != [] && t.writes[0];
            && (t'.connected <==> written)
            && (written ==> t'.toPeer == t.toPeer + [m] && t'.fromPeer == t.fromPeer)
            && (t.connected && !written ==> t'.toPeer == [] && t'.fromPeer == [])
            && t'.connects == t.connects
            && t'.writes == if t.connected && t.writes != [] then t.writes[1..] else t.writes
    ensures Published(t, []) == t
  {
  }

  class Client {
    var connected: bool
    var connects: seq<bool>
    var writes: seq<bool>
    var toPeer: seq<Msg>
    var fromPeer: seq<Msg>

    ghost function View(): Tcp
      reads this
    {
      Tcp(connected, connects, writes, toPeer, fromPeer)
    }

    constructor (t: Tcp)
      ensures View() == t
    {
      connected, connects, writes, toPeer, fromPeer := t.connected, t.connects, t.writes, t.toPeer, t.fromPeer;
    }

    method CallConnect() returns (ok: bool)
      modifies this`connects
      ensures ok == (old(connects) != [] && old(connects)[0])
      ensures connects == if old(connects) == [] then [] else old(connects)[1..]
    {
      ok := connects != [] && connects[0];
      connects := if connects == [] then [] else connects[1..];
    }

    method CallWrite(data: Msg) returns (complete: bool)
      modifies this`writes
      ensures complete == (old(writes) != [] && old(writes)[0])
      ensures writes == if old(writes) == [] then [] else old(writes)[1..]
    {
      complete := writes != [] && writes[0];
      writes := if writes == [] then [] else writes[1..];
    }

    method Connect() returns (status: int)
      modifies this
      ensures View() == Connected(old(View()))
      ensures status == if connected then 0 else -1
    {
      var ok := CallConnect();
      toPeer, fromPeer := [], [];
      if ok {
        connected := true;
        return 0;
      } else {
        connected := false;
        return -1;
      }
    }

    /** publish, that is msg_tcpip_outgoingHandler. */
    method Publish(message: Msg)
      modifies this
      ensures View() == Published(old(View()), message)
    {
      if connected {
        if message != [] {
          var complete := CallWrite(message);
          if !complete {
            connected := false;
            toPeer, fromPeer := [], [];
          } else {
            toPeer := toPeer + [message];
          }
        }
      }
    }

    method IncomingHandler(outcome: ReadOutcome) returns (message: Option<Msg>)
      modifies this
      ensures (View(), message) == AfterRead(old(View()), outcome)
    {
      message := None;
      if connected {
        match outcome {
          case Idle =>
          case Error =>
            connected := false;
            toPeer, fromPeer := [], [];
          case Ready =>
            if fromPeer != [] {
              var chunk := fromPeer[0];
              fromPeer := fromPeer[1..];
              if 0 < |chunk| && |chunk| < READ_BUF_SIZE {
                message := Some(chunk);
              }
            }
        }
      }
    }
  }
}
