/**
 HTTP request framing and the in-place tokeniser.  The tokeniser walks a pointer through the
 connection's byte vector, overwrites separators with NUL and records where each field starts;
 the fields are then C strings inside the vector.  A pointer is an index into the vector, and
 running off the vector's end is the outcome None.
 */
module HttpTokens {
  import opened Common
  import opened Scans

  /** The byte vector as the tokeniser has rewritten it so far, and its pointer. */
  datatype Cursor = Cursor(cells: string, pos: nat)

  /** readField: end the field at the next ch and skip every ch that follows. */
  function ReadField(c: Cursor, ch: char): (r: Option<Cursor>)
    ensures r.Some? ==> |r.value.cells| == |c.cells| && c.pos < r.value.pos < |c.cells|
  {
    var i := Until(c.cells, c.pos, {ch});
    if i >= |c.cells| then None
    else
      var cells := c.cells[i := NUL];
      var j := Past(cells, i + 1, ch);
      if j == |cells| then None else Some(Cursor(cells, j))
  }

  /** readLastField: end the field at the next space or CR, then step over the line's end. */
  function ReadLastField(c: Cursor): (r: Option<Cursor>)
    ensures r.Some? ==> |r.value.cells| == |c.cells| && c.pos < r.value.pos
  {
    var i := Until(c.cells, c.pos, {'\r', ' '});
    if i >= |c.cells| then None
    else
      var cells := c.cells[i := NUL];
      var j := Past(cells, i + 1, ' ');
      if j == |cells| then None
      else Some(Cursor(cells, if cells[j] == '\r' then j + 2 else j + 1))
  }

  /** Where one header's key and value start. */
  datatype Slot = Slot(key: nat, value: nat)

  /** One round of the header loop. */
  function ReadHeader(c: Cursor): (r: Option<(Slot, Cursor)>)
    ensures r.Some? ==> |r.value.1.cells| == |c.cells| && c.pos < r.value.1.pos
  {
    match ReadField(c, ':')
    case None => None
    case Some(c1) =>
      var v := Past(c1.cells, c1.pos, ' ');
      if v == |c1.cells| then None
      else
        match ReadLastField(Cursor(c1.cells, v))
        case None => None
        case Some(c2) => Some((Slot(c.pos, v), c2))
  }

  /** The header loop: up to the line that starts with CR. */
  function ReadHeaders(c: Cursor): (r: Option<(seq<Slot>, Cursor)>)
    ensures r.Some? ==> |r.value.1.cells| == |c.cells| && c.pos <= r.value.1.pos
    decreases |c.cells| - c.pos
  {
    if c.pos >= |c.cells| then None
    else if c.cells[c.pos] == '\r' then Some(([], c))
    else
      match ReadHeader(c)
      case None => None
      case Some((slot, c1)) =>
        match ReadHeaders(c1)
        case None => None
        case Some((slots, c2)) => Some(([slot] + slots, c2))
  }

  /** The recorded pointers, the rewritten vector, and the index just behind the request. */
  datatype Tokens = Tokens(verb: nat, url: nat, version: nat, headers: seq<Slot>, cells: string, end: nat)

  /** The request line: the pointer after each of its three fields. */
  function ReadRequestLine(c: Cursor): (r: Option<(Cursor, Cursor, Cursor)>)
    ensures r.Some? ==> |r.value.2.cells| == |c.cells| && c.pos < r.value.2.pos
  {
    match ReadField(c, ' ')
    case None => None
    case Some(c1) =>
      match ReadField(c1, ' ')
      case None => None
      case Some(c2) =>
        match ReadLastField(c2)
        case None => None
        case Some(c3) => Some((c1, c2, c3))
  }

  /** The headers, the blank line and the NUL that the codec left at its end. */
  function ReadRest(start: nat, url: nat, version: nat, c: Cursor): (r: Option<Tokens>)
    ensures r.Some? ==> |r.value.cells| == |c.cells| && c.pos < r.value.end <= |c.cells|
  {
    match ReadHeaders(c)
    case None => None
    case Some((slots, c4)) =>
      var e := Until(c4.cells, c4.pos, {NUL});
      if e >= |c4.cells| then None
      else Some(Tokens(start, url, version, slots, c4.cells, e + 1))
  }

  /** handleRtspRequest up to the retrieve. */
  function Tokenise(cells: string, start: nat): (r: Option<Tokens>)
    ensures r.Some? ==> |r.value.cells| == |cells| && start < r.value.end <= |cells|
  {
    match ReadRequestLine(Cursor(cells, start))
    case None => None
    case Some((c1, c2, c3)) => ReadRest(start, c1.pos, c2.pos, c3)
  }

  /** The C string at p. */
  function CString(cells: string, p: nat): string {
    if p > |cells| then "" else cells[p..Until(cells, p, {NUL})]
  }

  datatype Header = Header(key: string, value: string)

  datatype Request = Request(verb: string, url: string, version: string, headers: seq<Header>)

  function ResolveHeaders(cells: string, slots: seq<Slot>): seq<Header> {
    seq(|slots|, i requires 0 <= i < |slots| => Header(CString(cells, slots[i].key), CString(cells, slots[i].value)))
  }

  /** The request that the recorded pointers denote. */
  function Resolve(t: Tokens): Request {
    Request(CString(t.cells, t.verb), CString(t.cells, t.url), CString(t.cells, t.version),
            ResolveHeaders(t.cells, t.headers))
  }
}
