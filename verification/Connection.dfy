/**
 The output side of an accepted connection and its deferred close.  The pure state machine
 (Conn, Label, Step, Exec) says what each entry point does; class TcpConnection does it in place.
 */
module Connections {
  import opened Common
  import Buffers
  import opened Events

  const IO_BUFFER_SIZE := 8192

  /** wire: bytes the kernel accepted; pending: readable bytes of writeBuffer_. */
  datatype Conn = Conn(
    wire: string, pending: string, willClose: bool, state: State,
    readArmed: bool, writeArmed: bool, writeBound: bool, registered: bool)
  {
    predicate Open() { state.ESTABLISHED? }

    /** send(isLast) with something to send. */
    function Scheduled(isLast: bool): Conn {
      this.(willClose := isLast, writeArmed := true, writeBound := writeArmed ==> writeBound)
    }

    function Destroyed(): Conn {
      this.(state := CLOSED, registered := false)
    }

    /** closeConnection: bytes still to send postpone the close and stop the reading. */
    function CloseAsked(): Conn {
      if pending != "" then this.(readArmed := false).Scheduled(true) else Destroyed()
    }

    /** sendNonblock, when the kernel takes n bytes. */
    function Written(n: nat): Conn
      requires n <= |pending|
    {
      var after := this.(wire := wire + pending[..n], pending := pending[n..]);
      if after.pending != "" then after
      else if willClose then after.(writeArmed := false).CloseAsked()
      else after.(writeArmed := false)
    }

    /** What holds of a connection between any two handlers. */
    ghost predicate Settled() {
      && (state.ESTABLISHED? || state.CLOSED?)
      && (writeArmed <==> pending != "")
      && (writeArmed ==> writeBound)
      && (Open() && willClose ==> pending != "" && !readArmed)
      && (registered <==> Open())
    }
  }

  /** As acceptCallback leaves a new connection. */
  const Accepted := Conn("", "", false, ESTABLISHED, true, false, false, true)

  datatype Label =
    | Send(data: string)    // TcpConnection::send(str, len)
    | CloseRequest          // activeClose by the user, or end of file seen by preConnMsgCallback
    | WriteReady(n: int)    // epoll reports EPOLLOUT and write takes n bytes; -1 if it fails

  datatype Misuse =
    | FailsAssertion    // send with nothing to send, or retrieve of the -1 that a failed write returns
    | UsesFreedEvent    // destroy has given the connection's event back

  datatype Outcome =
    | Goes(conn: Conn)
    | Stops(why: Misuse)
    | CannotHappen      // epoll does not report this, or write does not return this

  /** On a connection that is no longer ESTABLISHED, send only logs, and goes on. */
  function Step(c: Conn, l: Label): Outcome {
    match l
    case Send(d) =>
      if c.pending + d == "" then Stops(FailsAssertion)
      else if c.Open() then Goes(c.(pending := c.pending + d).Scheduled(false)) else Stops(UsesFreedEvent)
    case CloseRequest => if c.Open() then Goes(c.CloseAsked()) else Stops(UsesFreedEvent)
    case WriteReady(n) =>
      if !(c.Open() && c.writeArmed && c.writeBound && -1 <= n <= |c.pending|) then CannotHappen
      else if n < 0 then Stops(FailsAssertion) else Goes(c.Written(n))
  }

  function Exec(ls: seq<Label>): Outcome {
    if ls == [] then Goes(Accepted)
    else
      var before := Exec(ls[..|ls| - 1]);
      if before.Goes? then Step(before.conn, ls[|ls| - 1]) else before
  }

  /** Everything the user sent. */
  function Sent(ls: seq<Label>): string {
    if ls == [] then ""
    else Sent(ls[..|ls| - 1]) + (if ls[|ls| - 1].Send? then ls[|ls| - 1].data else "")
  }

  /** The latest send or close request is a close request. */
  predicate CloseStands(ls: seq<Label>) {
    if ls == [] then false
    else match ls[|ls| - 1]
      case Send(_) => false
      case CloseRequest => true
      case WriteReady(_) => CloseStands(ls[..|ls| - 1])
  }

  /**
   Every run of an accepted connection: no byte is lost, duplicated or reordered, output interest
   is armed exactly while output is waiting, and the connection is closed exactly when everything
   is on the wire and the latest request was to close.
   */
  lemma {:induction false} EveryRun(ls: seq<Label>)
    requires Exec(ls).Goes?
    ensures Exec(ls).conn.Settled()
    ensures var c := Exec(ls).conn;
            && c.wire + c.pending == Sent(ls)
            && (c.state.CLOSED? <==> c.pending == "" && CloseStands(ls))
            && (c.Open() ==> (c.willClose <==> CloseStands(ls)) && (!c.readArmed <==> CloseRequest in ls))
  {
    if ls != [] {
      var before, l := ls[..|ls| - 1], ls[|ls| - 1];
      EveryRun(before);
      assert ls == before + [l];
      var b := Exec(before).conn;
      StepSettles(b, l);
      assert l != CloseRequest ==> (CloseRequest in ls <==> CloseRequest in before);
    }
  }

  lemma SendSettles(b: Conn, d: string)
    requires b.Settled() && b.Open() && b.pending + d != ""
    ensures var c := b.(pending := b.pending + d).Scheduled(false);
            c.Settled() && c.wire + c.pending == b.wire + b.pending + d
  {
    assert b.wire + (b.pending + d) == b.wire + b.pending + d;
  }

  lemma WriteSettles(b: Conn, n: nat)
    requires b.Settled() && b.Open() && n <= |b.pending|
    ensures var c := b.Written(n); c.Settled() && c.wire + c.pending == b.wire + b.pending
  {
    assert b.pending[..n] + b.pending[n..] == b.pending;
    assert b.wire + b.pending[..n] + b.pending[n..] == b.wire + b.pending;
  }

  lemma StepSettles(b: Conn, l: Label)
    requires b.Settled() && Step(b, l).Goes?
    ensures var c := Step(b, l).conn;
            && c.Settled()
            && c.wire + c.pending == b.wire + b.pending + (if l.Send? then l.data else "")
            && (c.Open() && !l.CloseRequest? ==> c.readArmed == b.readArmed)
  {
    assert b.wire + b.pending + "" == b.wire + b.pending;
    match l {
      case Send(d) =>
        SendSettles(b, d);
      case CloseRequest =>
      case WriteReady(n) =>
        WriteSettles(b, n);
    }
  }

  /** A response followed by activeClose is on the wire in full before the connection closes. */
  lemma ResponseThenClose(ls: seq<Label>, response: string, writes: seq<Label>)
    requires forall l <- writes :: l.WriteReady?
    requires Exec(ls + [Send(response), CloseRequest] + writes).Goes?
    ensures var c := Exec(ls + [Send(response), CloseRequest] + writes).conn;
            && c.wire + c.pending == Sent(ls) + response
            && (c.state.CLOSED? <==> c.wire == Sent(ls) + response)
  {
    var run := ls + [Send(response), CloseRequest] + writes;
    OnlyWrites(ls + [Send(response), CloseRequest], writes);
    var asked := ls + [Send(response), CloseRequest];
    assert asked[..|asked| - 1] == ls + [Send(response)];
    assert (ls + [Send(response)])[..|ls|] == ls;
    EveryRun(run);
  }

  lemma {:induction false} OnlyWrites(ls: seq<Label>, writes: seq<Label>)
    requires forall l <- writes :: l.WriteReady?
    ensures Sent(ls + writes) == Sent(ls) && CloseStands(ls + writes) == CloseStands(ls)
  {
    if writes == [] {
      assert ls + writes == ls;
    } else {
      var fewer := writes[..|writes| - 1];
      OnlyWrites(ls, fewer);
      assert (ls + writes)[..|ls + writes| - 1] == ls + fewer;
      assert (ls + writes)[|ls + writes| - 1] == writes[|writes| - 1];
      assert writes[|writes| - 1] in writes;
    }
  }

  /** The bytes the kernel takes in a sequence of writes. */
  function Taken(ns: seq<nat>): nat {
    if ns == [] then 0 else ns[0] + Taken(ns[1..])
  }

  /** The writes ns, one poll after another, from state c. */
  function WriteAll(c: Conn, ns: seq<nat>): Outcome
    decreases ns
  {
    if ns == [] then Goes(c)
    else
      var next := Step(c, WriteReady(ns[0]));
      if next.Goes? then WriteAll(next.conn, ns[1..]) else next
  }

  /**
   One write on an open connection: the first n waiting bytes go to the wire, no other byte moves, and only
   an emptied buffer disarms output or, under a postponed close, closes.
   */
  lemma WriteMovesExactly(c: Conn, n: nat)
    requires c.Settled() && Step(c, WriteReady(n)).Goes?
    ensures var d := Step(c, WriteReady(n)).conn;
            && n <= |c.pending| && d.wire == c.wire + c.pending[..n] && d.pending == c.pending[n..]
            && (n < |c.pending| ==> d == c.(wire := d.wire, pending := d.pending))
            && (n == |c.pending| ==> (d.Open() <==> !c.willClose) && !d.writeArmed && d.readArmed == c.readArmed)
  {
  }

  /** One write under a postponed close. */
  lemma OneWrite(c: Conn, n: nat)
    requires c.Settled() && c.Open() && c.willClose && Step(c, WriteReady(n)).Goes?
    ensures var d := Step(c, WriteReady(n)).conn;
            && n <= |c.pending| && d.pending == c.pending[n..] && d.wire == c.wire + c.pending[..n]
            && (if n == |c.pending| then d.state.CLOSED? else d.Settled() && d.Open() && d.willClose)
  {
  }

  lemma WriteTwice(wire: string, pending: string, n: nat, m: nat)
    requires n + m <= |pending|
    ensures pending[n..][m..] == pending[n + m..]
    ensures wire + pending[..n] + pending[n..][..m] == wire + pending[..n + m]
  {
    assert pending[..n] + pending[n..][..m] == pending[..n + m];
  }

  /** Epoll reports nothing of a closed connection. */
  lemma {:induction false} NoWriteWhenClosed(c: Conn, ns: seq<nat>)
    requires c.state.CLOSED? && WriteAll(c, ns).Goes?
    ensures ns == []
  {
  }

  /**
   A postponed close happens on exactly the write that empties the buffer: the remaining bytes
   fall by what each write takes, and any later write is impossible.
   */
  lemma {:induction false} CloseOnLastWrite(c: Conn, ns: seq<nat>)
    requires c.Settled() && c.Open() && c.willClose
    requires WriteAll(c, ns).Goes?
    ensures var d := WriteAll(c, ns).conn;
            && Taken(ns) <= |c.pending|
            && d.pending == c.pending[Taken(ns)..]
            && d.wire == c.wire + c.pending[..Taken(ns)]
            && (d.state.CLOSED? <==> Taken(ns) == |c.pending|)
    decreases ns
  {
    hide Step, Conn.Settled;
    if ns == [] {
      SettledPending(c);
      assert c.wire + c.pending[..0] == c.wire;
    } else {
      var d := Step(c, WriteReady(ns[0])).conn;
      OneWrite(c, ns[0]);
      if ns[0] == |c.pending| {
        NoWriteWhenClosed(d, ns[1..]);
      } else {
        CloseOnLastWrite(d, ns[1..]);
        WriteTwice(c.wire, c.pending, ns[0], Taken(ns[1..]));
      }
    }
  }

  lemma SettledPending(c: Conn)
    requires c.Settled() && c.Open() && c.willClose
    ensures c.pending != ""
  {
  }

  /** Nothing is armed although the connection is open: no poll will ever report it again. */
  predicate Deaf(c: Conn) { c.Open() && !c.readArmed && !c.writeArmed }

  /**
   A connection goes deaf exactly when a close was postponed, a later send took it back
   and everything has been written.
   */
  lemma DeafExactlyWhen(ls: seq<Label>)
    requires Exec(ls).Goes?
    ensures Deaf(Exec(ls).conn) <==>
              Exec(ls).conn.pending == "" && CloseRequest in ls && !CloseStands(ls)
  {
    EveryRun(ls);
    var c := Exec(ls).conn;
    if c.state.CLOSED? {
      assert CloseStands(ls);
    }
  }

  /** And such runs exist. */
  lemma DeafConnection()
    ensures var c := Exec([Send("a"), CloseRequest, Send("b"), WriteReady(2)]);
            c.Goes? && Deaf(c.conn) && c.conn.wire == "ab"
  {
    var ls := [Send("a"), CloseRequest, Send("b"), WriteReady(2)];
    assert ls[..3] == [Send("a"), CloseRequest, Send("b")];
    assert ls[..3][..2] == [Send("a"), CloseRequest];
    assert ls[..3][..2][..1] == [Send("a")];
    assert ls[..3][..2][..1][..0] == [];
    assert Exec([Send("a")]).conn.pending == "a";
    assert Exec([Send("a"), CloseRequest]).conn.pending == "a";
    assert Exec(ls[..3]).conn.pending == "ab";
  }

  /**
   What a run of an accepted connection must not do next: send or close once it is CLOSED, that is,
   once all is written and the latest request was to close; send nothing with nothing waiting; or
   meet a write that fails.
   */
  lemma StopsExactlyWhen(ls: seq<Label>, l: Label)
    requires Exec(ls).Goes?
    ensures var c := Exec(ls).conn;
            && (Step(c, l) == Stops(UsesFreedEvent) <==>
                  c.pending == "" && CloseStands(ls) && ((l.Send? && l.data != "") || l.CloseRequest?))
            && (Step(c, l) == Stops(FailsAssertion) <==>
                  (l.Send? && c.pending == "" && l.data == "") || (l == WriteReady(-1) && c.pending != ""))
  {
    EveryRun(ls);
    var c := Exec(ls).conn;
    if l.Send? && c.pending + l.data == "" {
      assert |c.pending| + |l.data| == 0;
    }
  }

  /** Such a run: the answer comes after the peer's end of file has closed the connection. */
  lemma SendAfterClose()
    ensures Exec([CloseRequest]).Goes? && Exec([CloseRequest, Send("a")]) == Stops(UsesFreedEvent)
  {
    assert [CloseRequest][..0] == [];
    assert [CloseRequest, Send("a")][..1] == [CloseRequest];
  }

  class TcpConnection {
    const writeBuffer: Buffers.Buffer
    const event: Event
    var isWillClose: bool
    var state: State
    var wire: string

    /** The server's connections are ESTABLISHED or CLOSED. */
    ghost predicate Valid()
      reads this, event, writeBuffer
    {
      writeBuffer.Valid() && (state.ESTABLISHED? || state.CLOSED?)
    }

    ghost function Footprint(): set<object>
      reads this, writeBuffer
    {
      {this, event, writeBuffer, writeBuffer.vec}
    }

    ghost function Abs(): Conn
      requires Valid()
      reads this, event, writeBuffer, writeBuffer.vec
    {
      Conn(wire, writeBuffer.Contents(), isWillClose, state,
           event.IsReadable(), event.IsWritable(), event.writeCallback == Some(WritePending), event.registered)
    }

    /** The constructor and the part of acceptCallback that arms reading. */
    constructor (bufferSize: nat := IO_BUFFER_SIZE)
      ensures Valid() && fresh(Footprint() - {this})
      ensures Abs() == Accepted
    {
      var connEvent := ArmedEvent();
      writeBuffer := new Buffers.Buffer(bufferSize);
      event := connEvent;
      isWillClose, state, wire := false, ESTABLISHED, "";
    }

    /** Event::make, and what acceptCallback does to the event. */
    static method ArmedEvent() returns (e: Event)
      ensures fresh(e) && e.IsReadable() && !e.IsWritable() && e.registered
      ensures e.readCallback == Some(ReadMessage) && e.writeCallback.None?
    {
      e := new Event();
      e.readCallback := Some(ReadMessage);
      e.SetReadable(true);
    }

    /**
     send(str, len).  On a connection that is not ESTABLISHED it logs and goes on, so that send()
     touches the event that destroy gave back; without bytes to send its assertion fails.
     */
    method Send(str: string) returns (misuse: Option<Misuse>)
      requires Valid()
      modifies Footprint()
      ensures Valid() && fresh(Footprint() - old(Footprint()))
      ensures Step(old(Abs()), Label.Send(str)) == match misuse case None => Goes(Abs()) case Some(why) => Stops(why)
    {
      writeBuffer.Append(str);
      if writeBuffer.ReadableBytes() == 0 {
        return Some(FailsAssertion);
      }
      if state != ESTABLISHED {
        return Some(UsesFreedEvent);
      }
      SendPending(false);
      misuse := None;
    }

    /** send(isLast). */
    method SendPending(isLast: bool)
      requires Valid() && writeBuffer.ReadableBytes() > 0
      modifies this`isWillClose, event
      ensures Valid() && Abs() == old(Abs()).Scheduled(isLast)
    {
      isWillClose := isLast;
      if event.IsWritable() {
        return;
      }
      event.SetWritable(true);
      event.writeCallback := Some(WritePending);
    }

    /** sendNonblock, run as the write callback; n is what write(2) returned: -1 fails retrieve's assertion. */
    method SendNonblock(n: int) returns (misuse: Option<Misuse>)
      requires Valid() && state.ESTABLISHED? && event.IsWritable() && Abs().writeBound
      requires -1 <= n <= writeBuffer.ReadableBytes()
      modifies Footprint()
      ensures Valid() && Footprint() == old(Footprint())
      ensures Step(old(Abs()), WriteReady(n)) == match misuse case None => Goes(Abs()) case Some(why) => Stops(why)
    {
      if n < 0 {
        return Some(FailsAssertion);
      }
      wire := wire + writeBuffer.vec[writeBuffer.readIndex..writeBuffer.writeIndex][..n];
      var _ := writeBuffer.Retrieve(n);
      misuse := None;
      if writeBuffer.ReadableBytes() == 0 {
        event.SetWritable(false);
        if isWillClose {
          misuse := ActiveClose();
        }
      }
    }

    method ActiveClose() returns (misuse: Option<Misuse>)
      requires Valid()
      modifies this, event
      ensures Valid()
      ensures Step(old(Abs()), CloseRequest) == match misuse case None => Goes(Abs()) case Some(why) => Stops(why)
    {
      misuse := CloseConnection();
    }

    /** TcpServer::closeConnection; either way it touches the event. */
    method CloseConnection() returns (misuse: Option<Misuse>)
      requires Valid()
      modifies this, event
      ensures Valid()
      ensures Step(old(Abs()), CloseRequest) == match misuse case None => Goes(Abs()) case Some(why) => Stops(why)
    {
      if state == CLOSED {
        return Some(UsesFreedEvent);
      }
      misuse := None;
      if writeBuffer.ReadableBytes() > 0 {
        event.SetReadable(false);
        SendPending(true);
        return;
      }
      Destroy();
    }

    method Destroy()
      requires Valid()
      modifies this`state, event`registered
      ensures Valid() && Abs() == old(Abs()).Destroyed()
    {
      state := CLOSED;
      event.registered := false;
    }
  }
}
