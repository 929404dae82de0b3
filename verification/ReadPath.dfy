/** The server's read path: what preConnMsgCallback makes of the result of readFromSocket. */
module ReadPaths {
  import opened Common
  import opened B = Buffers
  import opened Events
  import opened C = Connections

  /**
   preConnMsgCallback up to the codec: at the end of file, and when the first read fails with neither
   EINTR nor EWOULDBLOCK, the connection is asked to close; otherwise goOn, and it is left alone.
   Either way the bytes that arrived are behind the unread ones.
   */
  method ReadMessage(conn: TcpConnection, readBuffer: B.Buffer, s: Socket)
    returns (goOn: bool, misuse: Option<Misuse>, ghost taken: string, ghost first: Reading)
    requires conn.Valid() && readBuffer.Valid()
    requires {readBuffer, readBuffer.vec, s} !! conn.Footprint()
    modifies conn, conn.event, readBuffer, readBuffer.vec, s
    ensures readBuffer.Valid() && readBuffer.Contents() == old(readBuffer.Contents()) + taken
    ensures old(s.incoming) == taken + s.incoming
    ensures s.readings != [] && |old(s.readings)| < |s.readings| && s.readings[|old(s.readings)|] == first
    ensures goOn <==> !first.EndOfFile() && !first.Failed()
    ensures conn.Valid()
    ensures goOn ==> misuse.None? && conn.Abs() == old(conn.Abs())
    ensures !goOn ==> C.Step(old(conn.Abs()), CloseRequest)
                      == match misuse case None => Goes(conn.Abs()) case Some(why) => Stops(why)
  {
    ghost var before := conn.Abs();
    var r;
    ghost var readings;
    r, taken, readings := readBuffer.ReadFromSocket(s);
    first := readings[0];
    assert conn.Valid() && conn.Abs() == before;
    if r == 0 {
      misuse := conn.CloseConnection();
      return false, misuse, taken, first;
    } else if r < 0 {
      misuse := conn.CloseConnection();
      return false, misuse, taken, first;
    }
    goOn, misuse := true, None;
  }
}
