/** Framing of HTTP requests in the read buffer, request by request and over a whole stream. */
module HttpStream {
  import opened Common
  import opened Scans
  import opened Buffers
  import opened HttpTokens
  import opened HttpRoundTrip

  const BLANK_LINE := CRLF + CRLF

  /** The read buffer: its byte vector and its readable range. */
  datatype View = View(cells: string, read: nat, write: nat) {
    predicate Valid() { read <= write <= |cells| }

    function Text(): string
      requires Valid()
    {
      cells[read..write]
    }
  }

  /** Fault: the tokeniser ran off the vector, or past the readable bytes. */
  datatype Outcome = NeedMore | Fault | Handled(request: Request, view: View)

  /** After one read: the codec's check and, if it says yes, the tokeniser and the retrieve. */
  function Serve(v: View): Outcome
    requires v.Valid()
  {
    match FirstOccurrence(v.Text(), BLANK_LINE)
    case None => NeedMore
    case Some(i) =>
      match Tokenise(v.cells[v.read + i + 3 := NUL], v.read)
      case None => Fault
      case Some(t) => if t.end > v.write then Fault else Handled(Resolve(t), View(t.cells, t.end, v.write))
  }

  /** No line of a request contains CR. */
  lemma LinesLackCR(m: Message)
    requires Framed(m)
    ensures Lacks(m.FirstLine(), {'\r'})
    ensures forall i :: 0 <= i < |m.fields| ==> Lacks(m.fields[i].Print(), {'\r'})
  {
  }

  /** What follows the request line: the fields, the blank line and any later bytes. */
  function Tail(fs: seq<Field>, rest: string): string { PrintFields(fs) + CRLF + rest }

  /** In front of a line's CRLF no blank line starts, unless at the CRLF itself. */
  lemma NoBlankLineInLine(line: string, tail: string, k: nat)
    requires Lacks(line, {'\r'}) && OccursAt(line + CRLF + tail, BLANK_LINE, k)
    ensures if k == |line| then tail != "" && tail[0] == '\r'
            else k >= |line| + 2 && OccursAt(tail, BLANK_LINE, k - |line| - 2)
  {
    var text := line + CRLF + tail;
    var found := text[k..k + 4];
    assert found[0] == text[k] && found[2] == text[k + 2];
    assert forall j :: 0 <= j < |line| ==> text[j] == line[j] && line[j] != '\r';
    assert text[|line| + 1] == '\n';
    assert k == |line| || k >= |line| + 2;
    if k >= |line| + 2 {
      var j := k - |line| - 2;
      assert text[k..k + 4] == tail[j..j + 4];
    } else {
      assert text[k + 2] == tail[0];
    }
  }

  /** A printed field does not start like the blank line. */
  lemma TailStart(fs: seq<Field>, rest: string)
    requires fs != [] && FieldFramed(fs[0])
    ensures Tail(fs, rest)[0] != '\r'
  {
    assert Tail(fs, rest)[0] == if fs[0].key == "" then ':' else fs[0].key[0];
  }

  /** The only blank line that starts within the printed fields is at the end of the last one. */
  lemma {:induction false} NoBlankLineInFields(fs: seq<Field>, rest: string, k: nat)
    requires AllFramed(fs) && forall i :: 0 <= i < |fs| ==> Lacks(fs[i].Print(), {'\r'})
    requires OccursAt(Tail(fs, rest), BLANK_LINE, k) && k < |PrintFields(fs)|
    ensures k + 2 == |PrintFields(fs)|
    decreases |fs|
  {
    var line, tail := fs[0].Print(), Tail(fs[1..], rest);
    assert Tail(fs, rest) == line + CRLF + tail;
    NoBlankLineInLine(line, tail, k);
    if fs[1..] != [] {
      TailStart(fs[1..], rest);
    }
    if k != |line| {
      NoBlankLineInFields(fs[1..], rest, k - |line| - 2);
    }
  }

  /** Everything before the blank line ends in CRLF. */
  lemma {:induction false} FieldsEndLine(fs: seq<Field>, before: string)
    ensures |before + CRLF + PrintFields(fs)| >= 2
    ensures (before + CRLF + PrintFields(fs))[|before + PrintFields(fs)|..] == CRLF
    decreases |fs|
  {
    if fs == [] {
      assert before + CRLF + "" == before + CRLF && before + "" == before;
    } else {
      var next := before + CRLF + fs[0].Print();
      FieldsEndLine(fs[1..], next);
      assert before + CRLF + PrintFields(fs) == next + CRLF + PrintFields(fs[1..]);
      assert |before + PrintFields(fs)| == |next + PrintFields(fs[1..])|;
    }
  }

  lemma OwnBlankLine(m: Message, rest: string)
    ensures |m.Print()| == |m.FirstLine()| + |PrintFields(m.fields)| + 4
    ensures OccursAt(m.Print() + rest, BLANK_LINE, |m.FirstLine()| + |PrintFields(m.fields)|)
  {
    hide Message.FirstLine, PrintFields;
    var text := m.Print() + rest;
    var end := |m.FirstLine()| + |PrintFields(m.fields)|;
    FieldsEndLine(m.fields, m.FirstLine());
    var body := m.FirstLine() + CRLF + PrintFields(m.fields);
    assert text == body + (CRLF + rest) && |body| == end + 2;
    assert text[end..end + 4] == body[end..] + CRLF;
  }

  lemma EarlyBlankLine(m: Message, rest: string, k: nat)
    requires Framed(m) && OccursAt(m.Print() + rest, BLANK_LINE, k)
    ensures k >= |m.FirstLine()| + |PrintFields(m.fields)|
  {
    LinesLackCR(m);
    var line, tail := m.FirstLine(), Tail(m.fields, rest);
    assert m.Print() + rest == line + CRLF + tail;
    NoBlankLineInLine(line, tail, k);
    if m.fields != [] {
      TailStart(m.fields, rest);
    }
    if k != |line| && k - |line| - 2 < |PrintFields(m.fields)| {
      NoBlankLineInFields(m.fields, rest, k - |line| - 2);
    }
  }

  /** The first blank line in a printed request, whatever follows it, is its own. */
  lemma FirstBlankLine(m: Message, rest: string)
    requires Framed(m)
    ensures |m.Print()| >= 4 && FirstOccurrence(m.Print() + rest, BLANK_LINE) == Some(|m.Print()| - 4)
  {
    hide Message.Print, Message.FirstLine, PrintFields, OccursAt, Framed;
    OwnBlankLine(m, rest);
    forall k: nat | OccursAt(m.Print() + rest, BLANK_LINE, k) ensures k >= |m.Print()| - 4 {
      EarlyBlankLine(m, rest, k);
    }
  }

  lemma NotYet(text: string, part: string)
    requires part <= text && part != text
    requires forall k: nat :: OccursAt(text, BLANK_LINE, k) ==> |text| <= k + 4
    ensures FirstOccurrence(part, BLANK_LINE).None?
  {
    forall k: nat ensures OccursAt(part, BLANK_LINE, k) ==> OccursAt(text, BLANK_LINE, k) {
      if k + 4 <= |part| {
        assert text[k..k + 4] == part[k..k + 4];
      }
    }
  }

  /** A proper prefix of a printed request holds no blank line. */
  lemma NoBlankLineYet(m: Message, part: string)
    requires Framed(m) && part <= m.Print() && part != m.Print()
    ensures FirstOccurrence(part, BLANK_LINE).None?
  {
    var text := m.Print();
    assert text + "" == text;
    forall k: nat | OccursAt(text, BLANK_LINE, k) ensures |text| <= k + 4 {
      EarlyBlankLine(m, "", k);
    }
    NotYet(text, part);
  }

  /** Where the parts of a printed request stand. */
  lemma PrintedAt(cells: string, start: nat, m: Message)
    requires At(cells, start, m.Print())
    ensures var line, fields := m.FirstLine() + CRLF, PrintFields(m.fields);
            var mid := start + |line|; var end := mid + |fields| + 2;
            && end == start + |m.Print()| <= |cells|
            && At(cells, start, line) && At(cells, mid, fields) && cells[mid + |fields|] == '\r'
  {
    hide At, Message.FirstLine, PrintFields;
    var line, fields := m.FirstLine() + CRLF, PrintFields(m.fields);
    assert m.Print() == line + (fields + CRLF);
    AtSplit(cells, start, line, fields + CRLF);
    AtSplit(cells, start + |line|, fields, CRLF);
    AtChar(cells, start + |line| + |fields|, CRLF, 0);
    AtChar(cells, start + |line| + |fields|, CRLF, 1);
    AtFits(cells, start, m.Print());
  }

  lemma AtFits(cells: string, p: nat, t: string)
    requires At(cells, p, t)
    ensures p + |t| <= |cells|
  {
  }

  /** The printed request in the vector, with the codec's NUL, is what the tokeniser expects. */
  lemma CodecDelivers(cells: string, start: nat, m: Message)
    requires Framed(m) && At(cells, start, m.Print())
    ensures var mid := start + FirstLineLength(m) + 2; var end := start + |m.Print()|;
            Delivered(cells[end - 1 := NUL], start, m, mid, end)
  {
    hide At, Message.FirstLine, Message.Print, PrintFields, FirstLineAt, FieldsAt, FirstLineLength, Framed;
    var line, fields := m.FirstLine() + CRLF, PrintFields(m.fields);
    var mid, end := start + |line|, start + |m.Print()|;
    PrintedAt(cells, start, m);
    var cells' := cells[end - 1 := NUL];
    AtOutside(cells, cells', end - 1, end, start, line);
    AtOutside(cells, cells', end - 1, end, mid, fields);
    PrintedFirstLineAt(cells', start, m);
    PrintedFieldsAt(cells', mid, m.fields);
  }

  lemma FrontOfView(v: View, text: string, rest: string)
    requires v.Valid() && v.Text() == text + rest
    ensures v.read + |text| + |rest| == v.write && At(v.cells, v.read, text)
  {
    assert forall k :: 0 <= k < |text| ==> (text + rest)[k] == text[k] && v.Text()[k] == v.cells[v.read + k];
  }

  lemma RestOfView(v: View, text: string, rest: string, cells: string)
    requires v.Valid() && v.Text() == text + rest && v.read + |text| <= v.write
    requires SameOutside(v.cells, cells, v.read, v.read + |text|)
    ensures View(cells, v.read + |text|, v.write).Text() == rest
  {
    var w := View(cells, v.read + |text|, v.write);
    forall k | 0 <= k < |rest| ensures w.Text()[k] == rest[k] {
      assert v.Text()[|text| + k] == rest[k];
    }
  }

  lemma ServeByParts(v: View, i: nat, t: Tokens)
    requires v.Valid() && FirstOccurrence(v.Text(), BLANK_LINE) == Some(i) && v.read + i + 3 < |v.cells|
    requires Tokenise(v.cells[v.read + i + 3 := NUL], v.read) == Some(t) && t.end <= v.write
    ensures Serve(v) == Handled(Resolve(t), View(t.cells, t.end, v.write))
  {
    hide Tokenise, Resolve, FirstOccurrence;
  }

  /**
   Wherever a complete request stands in the buffer, whatever was discarded before it and whatever
   follows it: it is handled with exactly its parts, exactly its bytes are consumed, and every byte
   outside it is left alone.
   */
  lemma ServeComplete(v: View, m: Message, rest: string) returns (v': View)
    requires v.Valid() && v.Text() == m.Print() + rest && Framed(m) && Solid(m)
    ensures Serve(v) == Handled(m.Parts(), v') && v'.Valid()
    ensures v'.read == v.read + |m.Print()| && v'.write == v.write && v'.Text() == rest
    ensures SameOutside(v.cells, v'.cells, v.read, v'.read)
  {
    hide At, Framed, Solid, Delivered, Tokenise, Resolve, OccursAt, Message.Print;
    var text := m.Print();
    var end := v.read + |text|;
    FirstBlankLine(m, rest);
    FrontOfView(v, text, rest);
    CodecDelivers(v.cells, v.read, m);
    var t := TokeniseSolid(v.cells[end - 1 := NUL], v.read, m, v.read + FirstLineLength(m) + 2, end);
    ServeByParts(v, |text| - 4, t);
    v' := View(t.cells, end, v.write);
    RestOfView(v, text, rest, t.cells);
  }

  lemma ServedIsResolved(v: View, i: nat)
    requires v.Valid() && FirstOccurrence(v.Text(), BLANK_LINE) == Some(i) && v.read + i + 3 < |v.cells|
    ensures var t := Tokenise(v.cells[v.read + i + 3 := NUL], v.read);
            Serve(v).Handled? ==> t.Some? && Serve(v).request == Resolve(t.value)
  {
    hide Tokenise, Resolve, FirstOccurrence;
  }

  /** A complete request, solid or not, is handled with its own parts exactly when it is solid. */
  lemma ServedExactlyWhen(v: View, m: Message, rest: string)
    requires v.Valid() && v.Text() == m.Print() + rest && Framed(m)
    ensures Serve(v).Handled? && Serve(v).request == m.Parts() <==> Solid(m)
  {
    hide At, Framed, Solid, Delivered, Tokenise, Resolve, OccursAt, Message.Print, Message.Parts, Serve;
    if Solid(m) {
      var _ := ServeComplete(v, m, rest);
    } else if Serve(v).Handled? {
      var end := v.read + |m.Print()|;
      FirstBlankLine(m, rest);
      FrontOfView(v, m.Print(), rest);
      CodecDelivers(v.cells, v.read, m);
      ServedIsResolved(v, |m.Print()| - 4);
      RecoveredExactlyWhen(v.cells[end - 1 := NUL], v.read, m, v.read + FirstLineLength(m) + 2, end);
    }
  }

  /** So the everyday header "User-Agent: a b" is never handed to the service as it was sent. */
  lemma SpacedValueIsCut(v: View, rest: string)
    requires v.Valid()
    requires v.Text() == Message("GET", "/", "HTTP/1.1", 0, 0, 0, [Field("User-Agent", "a b", 1, 0)]).Print() + rest
    ensures Serve(v).Handled? ==>
              Serve(v).request != Request("GET", "/", "HTTP/1.1", [Header("User-Agent", "a b")])
  {
    var m := Message("GET", "/", "HTTP/1.1", 0, 0, 0, [Field("User-Agent", "a b", 1, 0)]);
    assert "a b"[1] == ' ' && !FieldSolid(m.fields[0]);
    ServedExactlyWhen(v, m, rest);
    assert m.Parts().headers == [Header("User-Agent", "a b")];
  }

  /** An incomplete request changes nothing. */
  lemma ServeIncomplete(v: View, m: Message)
    requires v.Valid() && Framed(m) && v.Text() <= m.Print() && v.Text() != m.Print()
    ensures Serve(v) == NeedMore
  {
    NoBlankLineYet(m, v.Text());
  }

  /** The printed requests, one behind the other. */
  function Stream(ms: seq<Message>): string {
    if ms == [] then "" else ms[0].Print() + Stream(ms[1..])
  }

  function AllParts(ms: seq<Message>): seq<Request> {
    seq(|ms|, i requires 0 <= i < |ms| => ms[i].Parts())
  }

  predicate WellFormed(ms: seq<Message>) {
    forall i :: 0 <= i < |ms| ==> Framed(ms[i]) && Solid(ms[i])
  }

  /** One read event: the bytes that arrived and where append left the buffer. */
  datatype Read = Read(chunk: string, placed: View)

  /** The requests handled so far and the read buffer; broken after a Fault. */
  datatype Session = Session(handled: seq<Request>, view: View, broken: bool)

  const Opened := Session([], View("", 0, 0), false)

  /** preConnMsgCallback with a handler that leaves the connection open: at most one request per read event. */
  function OnRead(s: Session, placed: View): Session
    requires placed.Valid()
  {
    match Serve(placed)
    case NeedMore => Session(s.handled, placed, s.broken)
    case Fault => Session(s.handled, placed, true)
    case Handled(r, view) => Session(s.handled + [r], view, s.broken)
  }

  /** The session after the reads, and whether append placed every chunk behind the unread bytes. */
  function Exec(rs: seq<Read>): Option<Session> {
    if rs == [] then Some(Opened)
    else
      var last := rs[|rs| - 1];
      match Exec(rs[..|rs| - 1])
      case None => None
      case Some(s) =>
        if s.view.Valid() && last.placed.Valid() && last.placed.Text() == s.view.Text() + last.chunk
        then Some(OnRead(s, last.placed)) else None
  }

  function Received(rs: seq<Read>): string {
    if rs == [] then "" else Received(rs[..|rs| - 1]) + rs[|rs| - 1].chunk
  }

  lemma {:induction false} StreamSplit(ms: seq<Message>, k: nat)
    requires k <= |ms|
    ensures Stream(ms) == Stream(ms[..k]) + Stream(ms[k..])
    decreases |ms|
  {
    hide Message.Print;
    if k == 0 {
      assert ms[..0] == [] && ms[0..] == ms;
    } else {
      StreamSplit(ms[1..], k - 1);
      assert ms[..k][1..] == ms[1..][..k - 1] && ms[k..] == ms[1..][k - 1..];
      assert Stream(ms[..k]) == ms[0].Print() + Stream(ms[..k][1..]);
    }
  }

  /** The session has handled the first k requests and holds exactly what it received behind them. */
  ghost predicate InStep(s: Session, ms: seq<Message>, received: string) {
    var k := |s.handled|;
    && !s.broken && s.view.Valid() && k <= |ms|
    && s.handled == AllParts(ms[..k]) && received == Stream(ms[..k]) + s.view.Text()
  }

  lemma {:induction false} PrefixOfSum(a: string, b: string, d: string)
    requires a + b <= a + d
    ensures b <= d
  {
    assert (a + d)[|a|..] == d && (a + b)[|a|..] == b;
    assert (a + d)[|a|..|a| + |b|] == (a + b)[|a|..];
    assert d[..|b|] == (a + d)[|a|..|a| + |b|];
  }

  /** What is unread is the front of what is still to be handled. */
  lemma UnreadIsFront(ms: seq<Message>, k: nat, unread: string)
    requires k <= |ms| && Stream(ms[..k]) + unread <= Stream(ms)
    ensures unread <= Stream(ms[k..])
    ensures k == |ms| ==> unread == ""
    ensures k < |ms| ==> Stream(ms[k..]) == ms[k].Print() + Stream(ms[k + 1..])
  {
    hide Message.Print;
    StreamSplit(ms, k);
    PrefixOfSum(Stream(ms[..k]), unread, Stream(ms[k..]));
    if k < |ms| {
      assert ms[k..][0] == ms[k] && ms[k..][1..] == ms[k + 1..];
    }
  }

  lemma PrefixEither(a: string, b: string, d: string)
    requires a <= b + d
    ensures a <= b || b <= a
  {
    if |a| > |b| {
      assert a[..|b|] == (b + d)[..|b|] == b;
    } else {
      assert a == (b + d)[..|a|] == b[..|a|];
    }
  }

  /** The next request, message k, has arrived in full. */
  predicate Complete(ms: seq<Message>, k: nat, unread: string) {
    k < |ms| && ms[k].Print() <= unread
  }

  predicate Begins(part: string, whole: string) { part <= whole }

  /** Of an unread front of the stream, either the next request is complete or nothing can be done yet. */
  lemma ServeFront(placed: View, ms: seq<Message>, k: nat) returns (v: View)
    requires WellFormed(ms) && k <= |ms| && placed.Valid()
    requires Begins(Stream(ms[..k]) + placed.Text(), Stream(ms))
    ensures if Complete(ms, k, placed.Text()) then
              Serve(placed) == Handled(ms[k].Parts(), v) && v.Valid() && placed.Text() == ms[k].Print() + v.Text()
            else Serve(placed) == NeedMore
  {
    hide Framed, Solid, Message.Print, Message.Parts, Serve, FirstOccurrence;
    var unread := placed.Text();
    v := placed;
    UnreadIsFront(ms, k, unread);
    if k == |ms| {
      ServeNothing(placed);
    } else if ms[k].Print() <= unread {
      var rest := unread[|ms[k].Print()|..];
      assert unread == ms[k].Print() + rest;
      v := ServeComplete(placed, ms[k], rest);
    } else {
      PrefixEither(unread, ms[k].Print(), Stream(ms[k + 1..]));
      ServeIncomplete(placed, ms[k]);
    }
  }

  lemma InStepNext(s: Session, ms: seq<Message>, all: string, v: View)
    requires !s.broken && |s.handled| < |ms| && s.handled == AllParts(ms[..|s.handled|]) && v.Valid()
    requires all == Stream(ms[..|s.handled|]) + (ms[|s.handled|].Print() + v.Text())
    ensures InStep(Session(s.handled + [ms[|s.handled|].Parts()], v, s.broken), ms, all)
  {
    hide Message.Print, Message.Parts, Stream, AllParts, View.Text;
    HandledNext(ms, |s.handled|, v.Text());
  }

  lemma CompleteIndex(ms: seq<Message>, k: nat, unread: string)
    requires Complete(ms, k, unread)
    ensures k < |ms|
  {
  }

  /** One read event keeps the session in step; it handles a request exactly if a complete one is there. */
  lemma ReadKeepsStep(s: Session, ms: seq<Message>, received: string, chunk: string, placed: View)
    requires WellFormed(ms) && InStep(s, ms, received) && Begins(received + chunk, Stream(ms))
    requires placed.Valid() && placed.Text() == s.view.Text() + chunk
    ensures var t := OnRead(s, placed); var k := |s.handled|;
            && InStep(t, ms, received + chunk)
            && |t.handled| == if Complete(ms, k, placed.Text()) then k + 1 else k
  {
    hide Message.Print, Message.Parts, Serve, Stream, WellFormed, AllParts, View.Text, Begins, Complete;
    var k, all := |s.handled|, received + chunk;
    assert all == Stream(ms[..k]) + placed.Text();
    var v := ServeFront(placed, ms, k);
    if Complete(ms, k, placed.Text()) {
      CompleteIndex(ms, k, placed.Text());
      assert OnRead(s, placed) == Session(s.handled + [ms[k].Parts()], v, s.broken);
      InStepNext(s, ms, all, v);
    } else {
      assert OnRead(s, placed) == Session(s.handled, placed, s.broken);
    }
  }

  lemma ServeNothing(v: View)
    requires v.Valid() && v.Text() == ""
    ensures Serve(v) == NeedMore
  {
    assert FirstOccurrence("", BLANK_LINE).None?;
  }

  lemma HandledNext(ms: seq<Message>, k: nat, rest: string)
    requires k < |ms|
    ensures Stream(ms[..k]) + (ms[k].Print() + rest) == Stream(ms[..k + 1]) + rest
    ensures AllParts(ms[..k]) + [ms[k].Parts()] == AllParts(ms[..k + 1])
  {
    hide Message.Print, Message.Parts;
    StreamSplit(ms[..k + 1], k);
    assert ms[..k + 1][..k] == ms[..k] && ms[..k + 1][k..] == [ms[k]];
    assert Stream([ms[k]]) == ms[k].Print() + "" == ms[k].Print();
  }

  /**
   Framing does not depend on how the stream is cut into reads: whatever the cuts and wherever
   append puts the bytes, the handled requests are the stream's first ones and the buffer holds
   exactly the bytes received behind them.
   */
  lemma {:induction false} ChunkingIndependent(ms: seq<Message>, rs: seq<Read>)
    requires WellFormed(ms) && Exec(rs).Some? && Received(rs) <= Stream(ms)
    ensures InStep(Exec(rs).value, ms, Received(rs))
    decreases |rs|
  {
    if rs == [] {
      assert AllParts(ms[..0]) == [] && Stream(ms[..0]) == "";
    } else {
      var before, last := rs[..|rs| - 1], rs[|rs| - 1];
      assert Received(before) <= Stream(ms) by {
        assert Received(rs)[..|Received(before)|] == Received(before);
      }
      ChunkingIndependent(ms, before);
      ReadKeepsStep(Exec(before).value, ms, Received(before), last.chunk, last.placed);
    }
  }

  /** Two requests in one read: the second stays in the buffer until the next read event. */
  lemma SecondOfTwoWaits(ms: seq<Message>, placed: View)
    requires WellFormed(ms) && |ms| == 2 && placed.Valid() && placed.Text() == Stream(ms)
    ensures var s := Exec([Read(Stream(ms), placed)]);
            s.Some? && s.value.handled == [ms[0].Parts()] && s.value.view.Text() == ms[1].Print()
  {
    hide Message.Print, Message.Parts, Serve, Framed, Solid;
    assert Stream(ms) == ms[0].Print() + Stream(ms[1..]);
    assert Stream(ms[1..]) == ms[1].Print() + Stream(ms[1..][1..]) == ms[1].Print();
    var rs := [Read(Stream(ms), placed)];
    assert rs[..0] == [];
    assert Opened.view.Text() + Stream(ms) == Stream(ms);
    var _ := ServeComplete(placed, ms[0], ms[1].Print());
  }
}
