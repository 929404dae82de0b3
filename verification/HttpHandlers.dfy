/** The tokeniser and the codec check as they run: pointer loops that write NULs into a connection's read buffer. */
module HttpHandlers {
  import opened Common
  import opened Scans
  import Buffers
  import opened HttpTokens
  import opened HttpStream

  ghost function ViewOf(b: Buffers.Buffer): View
    reads b, b.vec
  {
    View(b.vec[..], b.readIndex, b.writeIndex)
  }

  /** while (!(*ptr in stop)) ++ptr; */
  method ScanUntil(vec: array<char>, start: nat, stop: set<char>) returns (p: nat)
    ensures p == Until(vec[..], start, stop)
  {
    p := start;
    while p < vec.Length && vec[p] !in stop
      invariant Until(vec[..], start, stop) == Until(vec[..], p, stop)
    {
      p := p + 1;
    }
    if p > vec.Length {
      p := vec.Length;
    }
  }

  /** while (*ptr == ch) ++ptr; */
  method SkipPast(vec: array<char>, start: nat, ch: char) returns (p: nat)
    ensures p == Past(vec[..], start, ch)
  {
    p := start;
    while p < vec.Length && vec[p] == ch
      invariant Past(vec[..], start, ch) == Past(vec[..], p, ch)
    {
      p := p + 1;
    }
    if p > vec.Length {
      p := vec.Length;
    }
  }

  /** *p = '\0'; */
  method Terminate(vec: array<char>, p: nat)
    requires p < vec.Length
    modifies vec
    ensures vec[..] == old(vec[..])[p := NUL]
  {
    vec[p] := NUL;
  }

  /** ok is false when the pointer runs off the vector. */
  method TakeField(vec: array<char>, ptr: nat, ch: char) returns (ok: bool, next: nat)
    modifies vec
    ensures ReadField(Cursor(old(vec[..]), ptr), ch) == if ok then Some(Cursor(vec[..], next)) else None
  {
    next := ScanUntil(vec, ptr, {ch});
    if next >= vec.Length {
      return false, next;
    }
    Terminate(vec, next);
    next := SkipPast(vec, next + 1, ch);
    ok := next != vec.Length;
  }

  method TakeLastField(vec: array<char>, ptr: nat) returns (ok: bool, next: nat)
    modifies vec
    ensures ReadLastField(Cursor(old(vec[..]), ptr)) == if ok then Some(Cursor(vec[..], next)) else None
  {
    next := ScanUntil(vec, ptr, {'\r', ' '});
    if next >= vec.Length {
      return false, next;
    }
    Terminate(vec, next);
    next := SkipPast(vec, next + 1, ' ');
    if next == vec.Length {
      return false, next;
    }
    ok := true;
    if vec[next] == '\r' {
      next := next + 1;
    }
    next := next + 1;
  }

  /** The body of the header loop. */
  method TakeHeader(vec: array<char>, ptr: nat) returns (ok: bool, slot: Slot, next: nat)
    modifies vec
    ensures ReadHeader(Cursor(old(vec[..]), ptr)) == if ok then Some((slot, Cursor(vec[..], next))) else None
  {
    slot := Slot(ptr, ptr);
    ok, next := TakeField(vec, ptr, ':');
    if !ok {
      return;
    }
    var value := SkipPast(vec, next, ' ');
    if value == vec.Length {
      return false, slot, next;
    }
    slot := Slot(ptr, value);
    ok, next := TakeLastField(vec, value);
  }

  /** What the header loop still does from its current position, with the headers found so far in front. */
  ghost function Remaining(done: seq<Slot>, c: Cursor): Option<(seq<Slot>, Cursor)> {
    match ReadHeaders(c)
    case None => None
    case Some((slots, c')) => Some((done + slots, c'))
  }

  lemma RemainingAtFirst(c: Cursor)
    ensures Remaining([], c) == ReadHeaders(c)
  {
    if ReadHeaders(c).Some? {
      assert [] + ReadHeaders(c).value.0 == ReadHeaders(c).value.0;
    }
  }

  /** One more header, or the vector's end inside it. */
  lemma RemainingNext(done: seq<Slot>, c: Cursor)
    requires c.pos < |c.cells| && c.cells[c.pos] != '\r'
    ensures Remaining(done, c) == match ReadHeader(c)
                                  case None => None
                                  case Some((slot, c1)) => Remaining(done + [slot], c1)
  {
    hide ReadHeader;
    if ReadHeader(c).Some? {
      var (slot, c1) := ReadHeader(c).value;
      if ReadHeaders(c1).Some? {
        assert done + ([slot] + ReadHeaders(c1).value.0) == done + [slot] + ReadHeaders(c1).value.0;
      }
    }
  }

  /** The blank line, or the vector's end. */
  lemma RemainingAtLast(done: seq<Slot>, c: Cursor)
    requires c.pos >= |c.cells| || c.cells[c.pos] == '\r'
    ensures Remaining(done, c) == if c.pos < |c.cells| then Some((done, c)) else None
  {
    assert done + [] == done;
  }

  method TakeHeaders(vec: array<char>, ptr: nat) returns (ok: bool, slots: seq<Slot>, next: nat)
    modifies vec
    ensures ReadHeaders(Cursor(old(vec[..]), ptr)) == if ok then Some((slots, Cursor(vec[..], next))) else None
  {
    hide ReadHeader, ReadHeaders, Remaining;
    slots, next := [], ptr;
    ghost var start := Cursor(vec[..], ptr);
    RemainingAtFirst(start);
    while next < vec.Length && vec[next] != '\r'
      invariant Remaining(slots, Cursor(vec[..], next)) == ReadHeaders(start)
      decreases vec.Length - next
    {
      RemainingNext(slots, Cursor(vec[..], next));
      var slot;
      ok, slot, next := TakeHeader(vec, next);
      if !ok {
        return;
      }
      slots := slots + [slot];
    }
    ok := next < vec.Length;
    RemainingAtLast(slots, Cursor(vec[..], next));
  }

  /** The request line: where url, version and the headers start. */
  method TakeRequestLine(vec: array<char>, start: nat) returns (ok: bool, url: nat, version: nat, headers: nat)
    modifies vec
    ensures ok == ReadRequestLine(Cursor(old(vec[..]), start)).Some?
    ensures ok ==> var (c1, c2, c3) := ReadRequestLine(Cursor(old(vec[..]), start)).value;
                   c1.pos == url && c2.pos == version && c3 == Cursor(vec[..], headers)
  {
    hide ReadField, ReadLastField;
    version, headers := start, start;
    ok, url := TakeField(vec, start, ' ');
    if !ok {
      return;
    }
    ok, version := TakeField(vec, url, ' ');
    if !ok {
      return;
    }
    ok, headers := TakeLastField(vec, version);
  }

  /** handleRtspRequest up to the retrieve; None when the pointer runs off the vector. */
  method TakeRequest(vec: array<char>, start: nat) returns (r: Option<Tokens>)
    modifies vec
    ensures r == Tokenise(old(vec[..]), start)
    ensures r.Some? ==> r.value.cells == vec[..]
  {
    hide ReadRequestLine, ReadHeaders;
    var ok, url, version, ptr := TakeRequestLine(vec, start);
    if !ok {
      return None;
    }
    var slots;
    ok, slots, ptr := TakeHeaders(vec, ptr);
    if !ok {
      return None;
    }
    var end := ScanUntil(vec, ptr, {NUL});
    if end >= vec.Length {
      return None;
    }
    r := Some(Tokens(start, url, version, slots, vec[..], end + 1));
  }

  /** The C string at p. */
  method ReadCString(vec: array<char>, p: nat) returns (s: string)
    ensures s == CString(vec[..], p)
  {
    if p > vec.Length {
      return "";
    }
    var end := ScanUntil(vec, p, {NUL});
    s := vec[p..end];
    assert vec[..][p..end] == vec[p..end];
  }

  /** The recorded pointers, read as C strings. */
  method ReadHeaderStrings(vec: array<char>, slots: seq<Slot>) returns (headers: seq<Header>)
    ensures headers == ResolveHeaders(vec[..], slots)
  {
    hide CString;
    headers := [];
    for i := 0 to |slots|
      invariant |headers| == i
      invariant forall k :: 0 <= k < i ==> headers[k] == ResolveHeaders(vec[..], slots)[k]
    {
      var key := ReadCString(vec, slots[i].key);
      var value := ReadCString(vec, slots[i].value);
      headers := headers + [Header(key, value)];
    }
  }

  method ReadRequest(vec: array<char>, t: Tokens) returns (r: Request)
    requires t.cells == vec[..]
    ensures r == Resolve(t)
  {
    hide CString, ResolveHeaders;
    var verb := ReadCString(vec, t.verb);
    var url := ReadCString(vec, t.url);
    var version := ReadCString(vec, t.version);
    var headers := ReadHeaderStrings(vec, t.headers);
    r := Request(verb, url, version, headers);
  }

  /** Codec::http_request_default_callback: on a complete request, its last byte becomes NUL. */
  method CheckRequest(b: Buffers.Buffer) returns (complete: bool)
    requires b.Valid()
    modifies b.vec
    ensures match Buffers.FirstOccurrence(old(ViewOf(b).Text()), BLANK_LINE)
            case None => !complete && b.vec[..] == old(b.vec[..])
            case Some(i) => complete && b.readIndex + i + 3 < b.vec.Length
                            && b.vec[..] == old(b.vec[..])[b.readIndex + i + 3 := NUL]
  {
    assert ViewOf(b).Text() == b.Contents();
    var pc := b.FindStr(BLANK_LINE);
    complete := pc.Some?;
    if complete {
      Terminate(b.vec, pc.value + 3);
    }
  }

  /** The read path behind readFromSocket; the request is None when none is complete. */
  method ServeRead(b: Buffers.Buffer) returns (fault: bool, request: Option<Request>)
    requires b.Valid()
    modifies b`readIndex, b.vec
    ensures match Serve(old(ViewOf(b)))
            case NeedMore => !fault && request.None? && ViewOf(b) == old(ViewOf(b))
            case Fault => fault
            case Handled(r, view) => !fault && request == Some(r) && ViewOf(b) == view && b.Valid()
  {
    hide Tokenise, Resolve, Buffers.FirstOccurrence;
    var complete := CheckRequest(b);
    if !complete {
      return false, None;
    }
    var t := TakeRequest(b.vec, b.readIndex);
    if t.None? || t.value.end > b.writeIndex {
      return true, None;
    }
    var r := ReadRequest(b.vec, t.value);
    var _ := b.Retrieve(t.value.end - b.readIndex);
    return false, Some(r);
  }
}
