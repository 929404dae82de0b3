/**
 What the line-by-line reference comes to: what one header line gives and leaves behind, and the requests
 in which one value has spaces, or a colon in front, that the tokeniser trips over.
 */
module HttpWords {
  import opened Common
  import opened Scans
  import opened Buffers
  import opened HttpTokens
  import opened HttpRoundTrip
  import opened HttpStream
  import opened HttpLines

  function HeadersOf(fs: seq<Field>): seq<Header> {
    seq(|fs|, i requires 0 <= i < |fs| => Header(fs[i].key, fs[i].value))
  }

  /** A value of two or more words: the first, spaces, and what begins with something else. */
  predicate Words(f: Field, x: string, spaces: nat, y: string) {
    && f.value == x + Sp(spaces + 1) + y && Lacks(x, {' '}) && y != "" && y[0] != ' ' && !ColonFirst(f)
  }

  /** What is left of such a line behind the first byte of its second word. */
  function Left(f: Field, y: string): string
    requires y != ""
  {
    y[1..] + Sp(f.after)
  }

  lemma PastIs(s: string, p: nat, ch: char, r: nat)
    requires p <= r <= |s| && (r < |s| ==> s[r] != ch) && forall k :: p <= k < r ==> s[k] == ch
    ensures Past(s, p, ch) == r
  {
  }

  /** A line by its parts: key, colons, spaces, the value's first word, spaces, and the rest. */
  function ByParts(key: string, colons: nat, lead: nat, word: string, trail: nat, tail: string): string {
    key + ":" + Repeat(':', colons) + Sp(lead) + word + Sp(trail) + tail
  }

  lemma Parts(key: string, colons: nat, lead: nat, word: string, trail: nat, tail: string)
    ensures var line := ByParts(key, colons, lead, word, trail, tail);
            var u := |key| + 1 + colons; var v := u + lead; var e := v + |word|;
            && |line| == e + trail + |tail|
            && line[..|key|] == key && line[|key|] == ':' && line[v..e] == word && line[e + trail..] == tail
            && (forall i :: |key| + 1 <= i < u ==> line[i] == ':')
            && (forall i :: u <= i < v ==> line[i] == ' ')
            && (forall i :: e <= i < e + trail ==> line[i] == ' ')
  {
  }

  /** Key and colons end where they seem to. */
  lemma KeyAndColons(line: string, key: string, u: nat, v: nat, e: nat, word: string)
    requires |key| + 1 <= u <= v <= e <= |line| && line[v..e] == word && line[..|key|] == key && line[|key|] == ':'
    requires forall i :: |key| + 1 <= i < u ==> line[i] == ':'
    requires forall i :: u <= i < v ==> line[i] == ' '
    requires Lacks(key, {':'}) && (if word == "" then e == |line| else word[0] != ' ')
    requires v == u && word != "" ==> word[0] != ':'
    ensures KeyEnd(line) == |key| && WordStart(line) == v
  {
    hide Until, Past;
    assert forall i :: 0 <= i < |key| ==> line[i] == line[..|key|][i];
    UntilIs(line, 0, {':'}, |key|);
    assert word != "" ==> line[v] == line[v..e][0];
    PastIs(line, |key| + 1, ':', u);
    PastIs(line, u, ' ', v);
  }

  lemma OneWord(line: string, v: nat, e: nat, n: nat, word: string)
    requires v <= e <= n <= |line| && line[v..e] == word && Lacks(word, {' '}) && (e < |line| ==> e < n)
    requires (forall i :: e <= i < n ==> line[i] == ' ') && (n < |line| ==> line[n] != ' ')
    ensures Until(line, v, {' '}) == e && Past(line, e + 1, ' ') == n
  {
    hide Until, Past;
    forall i | v <= i < e ensures line[i] !in {' '} {
      assert line[i] == line[v..e][i - v];
    }
    if e == |line| {
      UntilNone(line, v, {' '});
      PastBehind(line, e + 1, ' ');
    } else {
      UntilIs(line, v, {' '}, e);
      PastIs(line, e + 1, ' ', n);
    }
  }

  /** What the loop makes of such a line: only the first word behind the colons is the value. */
  lemma LineParts(key: string, colons: nat, lead: nat, word: string, trail: nat, tail: string)
    requires Lacks(key, {':'}) && Lacks(word, {' '})
    requires lead == 0 && word != "" ==> word[0] != ':'
    requires word == "" ==> trail == 0 && tail == ""
    requires tail != "" ==> trail > 0 && tail[0] != ' '
    ensures var line := ByParts(key, colons, lead, word, trail, tail);
            && KeyEnd(line) < |line| && LineHeader(line) == Header(key, word)
            && WordStart(line) == |key| + 1 + colons + lead
            && NextWord(line) == |line| - |tail| && line[NextWord(line)..] == tail
  {
    hide Until, Past, ByParts;
    var line := ByParts(key, colons, lead, word, trail, tail);
    var u := |key| + 1 + colons;
    var e := u + lead + |word|;
    Parts(key, colons, lead, word, trail, tail);
    KeyAndColons(line, key, u, u + lead, e, word);
    assert tail != "" ==> line[e + trail] == line[e + trail..][0];
    OneWord(line, u + lead, e, e + trail, word);
  }

  /**
   One round of the loop on any header line, spaces and colons in its value included: it is always read;
   key and first word come back, and the pointer ends behind the line or one byte behind the next word's
   first byte.
   */
  lemma ReadHeaderByParts(c: Cursor, key: string, colons: nat, lead: nat, word: string, trail: nat, tail: string)
    returns (slot: Slot, c': Cursor)
    requires Lacks(key, {':'}) && Lacks(word, {' '}) && Lacks(ByParts(key, colons, lead, word, trail, tail), {'\r', NUL})
    requires lead == 0 && word != "" ==> word[0] != ':'
    requires word == "" ==> trail == 0 && tail == ""
    requires tail != "" ==> trail > 0 && tail[0] != ' '
    requires At(c.cells, c.pos, ByParts(key, colons, lead, word, trail, tail) + CRLF)
    ensures ReadHeader(c) == Some((slot, c'))
    ensures CString(c'.cells, slot.key) == key && CString(c'.cells, slot.value) == word
    ensures SameOutside(c.cells, c'.cells, c.pos, c'.pos)
    ensures var length := |key| + 1 + colons + lead + |word| + trail;
            c'.pos == c.pos + if tail == "" then length + 2 else length + 1
  {
    hide Until, Past, ReadHeader, ByParts, At, SameOutside, CString, LineHeader, Slice;
    var line := ByParts(key, colons, lead, word, trail, tail);
    Parts(key, colons, lead, word, trail, tail);
    LineParts(key, colons, lead, word, trail, tail);
    assert line + Sp(0) + CRLF == line + CRLF;
    LineEnd(c.cells, c.pos, line, 0);
    slot, c' := ReadLine(c, line);
    SliceIsCString(c'.cells, slot.key, key);
    SliceIsCString(c'.cells, slot.value, word);
  }

  /** The line of a value of two or more words. */
  lemma WordsLine(f: Field, x: string, spaces: nat, y: string)
    requires FieldFramed(f) && Words(f, x, spaces, y) && x != ""
    ensures var line := f.Print();
            && KeyEnd(line) < |line| && LineHeader(line) == Header(f.key, x)
            && NextWord(line) < |line| && line[NextWord(line) + 1..] == Left(f, y)
  {
    hide Until, Past, KeyEnd, WordStart, WordEnd, NextWord, LineHeader;
    var line, tail := f.Print(), y + Sp(f.after);
    assert line == ByParts(f.key, 0, f.before, x, spaces + 1, tail);
    assert x[0] == f.value[0];
    LineParts(f.key, 0, f.before, x, spaces + 1, tail);
    assert line[NextWord(line) + 1..] == tail[1..];
  }

  /** A line that the loop reads exactly; its key may hold anything but a colon. */
  predicate Keyed(f: Field) {
    && Lacks(f.key, {':'}) && FieldSolid(f)
    && (f.value != "" ==> f.value[0] != ' ' && f.value[|f.value| - 1] != ' ')
  }

  /** Where the parts of such a line are. */
  lemma KeyedLine(f: Field)
    requires Keyed(f)
    ensures var line := f.Print();
            KeyEnd(line) < |line| && LineHeader(line) == Header(f.key, f.value) && NextWord(line) == |line|
  {
    hide Until, Past, KeyEnd, WordStart, WordEnd, NextWord, LineHeader;
    KeyedShape(f);
    LineParts(f.key, 0, Lead(f), f.value, Trail(f), "");
  }

  lemma KeyedShape(f: Field)
    requires Keyed(f)
    ensures f.Print() == ByParts(f.key, 0, Lead(f), f.value, Trail(f), "") && Lacks(f.value, {' '})
    ensures Lead(f) == 0 && f.value != "" ==> f.value[0] != ':'
  {
    if f.value == "" {
      assert Sp(f.before) + "" + Sp(f.after) == Sp(Lead(f));
    }
  }

  lemma PastBehind(s: string, p: nat, ch: char)
    requires p >= |s|
    ensures Past(s, p, ch) == |s|
  {
  }

  lemma UntilNone(s: string, p: nat, stop: set<char>)
    requires p <= |s| && forall k :: p <= k < |s| ==> s[k] !in stop
    ensures Until(s, p, stop) == |s|
  {
  }

  /** A keyed line gives its header and keeps step. */
  lemma KeyedFirst(f: Field, rest: seq<string>)
    requires Keyed(f)
    ensures ReadLines([f.Print()] + rest) == Behind([Header(f.key, f.value)], ReadLines(rest))
  {
    hide ReadLines, KeyEnd, WordStart, WordEnd, NextWord, LineHeader, Field.Print, Keyed;
    var lines := [f.Print()] + rest;
    assert lines[0] == f.Print() && lines[1..] == rest;
    KeyedLine(f);
    ReadLinesFirst(lines);
  }

  /** Headers, and behind them what the loop makes of the rest. */
  function Behind(front: seq<Header>, rest: Option<seq<Header>>): Option<seq<Header>> {
    match rest
    case None => None
    case Some(headers) => Some(front + headers)
  }

  lemma BehindBoth(a: seq<Header>, b: seq<Header>, rest: Option<seq<Header>>)
    ensures Behind(a, Behind(b, rest)) == Behind(a + b, rest)
  {
    if rest.Some? {
      assert a + (b + rest.value) == (a + b) + rest.value;
    }
  }

  lemma BehindNone(rest: Option<seq<Header>>)
    ensures Behind([], rest) == rest
  {
    if rest.Some? {
      assert [] + rest.value == rest.value;
    }
  }

  lemma {:induction false} SolidPrefix(fs: seq<Field>, rest: seq<string>)
    requires AllFramed(fs) && AllSolid(fs)
    ensures ReadLines(Lines(fs) + rest) == Behind(HeadersOf(fs), ReadLines(rest))
    decreases |fs|
  {
    hide ReadLines, FieldFramed, FieldSolid, Field.Print, Behind;
    if fs == [] {
      assert Lines(fs) + rest == rest && HeadersOf(fs) == [];
      BehindNone(ReadLines(rest));
    } else {
      assert Lines(fs) + rest == [fs[0].Print()] + (Lines(fs[1..]) + rest);
      SolidKeyed(fs[0]);
      KeyedFirst(fs[0], Lines(fs[1..]) + rest);
      SolidPrefix(fs[1..], rest);
      BehindBoth([Header(fs[0].key, fs[0].value)], HeadersOf(fs[1..]), ReadLines(rest));
      assert HeadersOf(fs) == [Header(fs[0].key, fs[0].value)] + HeadersOf(fs[1..]);
    }
  }

  lemma SolidKeyed(f: Field)
    requires FieldFramed(f) && FieldSolid(f)
    ensures Keyed(f)
  {
  }

  lemma SolidLines(fs: seq<Field>)
    requires AllFramed(fs) && AllSolid(fs)
    ensures ReadLines(Lines(fs)) == Some(HeadersOf(fs))
  {
    hide FieldFramed, FieldSolid, Field.Print;
    SolidPrefix(fs, []);
    assert Lines(fs) + [] == Lines(fs) && HeadersOf(fs) + [] == HeadersOf(fs);
  }

  /** The headers that the loop takes out of one line, */
  function LineHeaders(line: string): seq<Header>
    decreases |line|
  {
    if KeyEnd(line) >= |line| then []
    else [LineHeader(line)] + if NextWord(line) < |line| then LineHeaders(line[NextWord(line) + 1..]) else []
  }

  /** and what it leaves of it: nothing at all if it keeps step, otherwise text without a colon. */
  function Residue(line: string): (r: Option<string>)
    ensures r.Some? ==> Lacks(r.value, {':'})
    decreases |line|
  {
    if KeyEnd(line) >= |line| then Some(line)
    else if NextWord(line) < |line| then Residue(line[NextWord(line) + 1..]) else None
  }

  lemma {:induction false} OneLine(line: string, rest: seq<string>)
    ensures ReadLines([line] + rest) == Behind(LineHeaders(line), match Residue(line)
                                                                  case None => ReadLines(rest)
                                                                  case Some(left) => ReadLines([left] + rest))
    decreases |line|
  {
    hide ReadLines, KeyEnd, WordStart, WordEnd, NextWord, LineHeader, Behind;
    KeyEndBound(line);
    if KeyEnd(line) < |line| {
      var lines := [line] + rest;
      assert lines[0] == line && lines[1..] == rest;
      ReadLinesFirst(lines);
      BehindIs([LineHeader(line)], ReadLines(Following(lines)));
      if NextWord(line) < |line| {
        var left := line[NextWord(line) + 1..];
        var behind := match Residue(left) case None => ReadLines(rest) case Some(r) => ReadLines([r] + rest);
        OneLine(left, rest);
        BehindBoth([LineHeader(line)], LineHeaders(left), behind);
      } else {
        assert [LineHeader(line)] + [] == [LineHeader(line)];
      }
    } else {
      BehindNone(ReadLines([line] + rest));
    }
  }

  lemma BehindIs(front: seq<Header>, rest: Option<seq<Header>>)
    ensures Behind(front, rest) == match rest case None => None case Some(headers) => Some(front + headers)
  {
  }

  /** Text left over becomes the front of the next header's key, line end and all. */
  function Joined(left: string, f: Field): Field {
    Field(left + CRLF + f.key, f.value, f.before, f.after)
  }

  lemma JoinsNext(left: string, f: Field, rest: seq<string>)
    requires left != "" && Lacks(left, {':'}) && FieldFramed(f) && FieldSolid(f)
    ensures ReadLines([left] + ([f.Print()] + rest))
         == Behind([Header(left + CRLF + f.key, f.value)], ReadLines(rest))
  {
    hide ReadLines, Field.Print, Behind;
    var lines := [left] + ([f.Print()] + rest);
    assert lines[0] == left && lines[1] == f.Print() && lines[2..] == rest;
    JoinedPrint(left, f);
    MergedFirst(lines);
    JoinedKeyed(left, f);
    KeyedFirst(Joined(left, f), rest);
  }

  lemma MergedFirst(lines: seq<string>)
    requires |lines| > 1 && lines[0] != "" && Lacks(lines[0], {':'})
    ensures ReadLines(lines) == ReadLines([lines[0] + CRLF + lines[1]] + lines[2..])
  {
    UntilNone(lines[0], 0, {':'});
  }

  lemma JoinedPrint(left: string, f: Field)
    ensures left + CRLF + f.Print() == Joined(left, f).Print()
  {
  }

  lemma JoinedKeyed(left: string, f: Field)
    requires Lacks(left, {':'}) && FieldFramed(f) && FieldSolid(f)
    ensures Keyed(Joined(left, f))
  {
  }

  /** Text left over with no line behind it: the loop leaves the request. */
  lemma LeftAlone(left: string)
    requires left != "" && Lacks(left, {':'})
    ensures ReadLines([left]) == None
  {
    UntilNone(left, 0, {':'});
  }

  lemma LinesFirst(fs: seq<Field>)
    requires fs != []
    ensures Lines(fs) == [fs[0].Print()] + Lines(fs[1..])
  {
  }

  lemma NoLines(fs: seq<Field>)
    requires fs == []
    ensures Lines(fs) == []
  {
  }

  lemma {:induction false} LinesSplit(fs: seq<Field>, w: nat)
    requires w < |fs|
    ensures Lines(fs) == Lines(fs[..w]) + ([fs[w].Print()] + Lines(fs[w + 1..]))
    decreases w
  {
    hide Field.Print, Lines;
    LinesFirst(fs);
    if w == 0 {
      NoLines(fs[..0]);
    } else {
      LinesSplit(fs[1..], w - 1);
      LinesFirst(fs[..w]);
      assert fs[1..][w..] == fs[w + 1..] && fs[..w][1..] == fs[1..][..w - 1];
    }
  }

  /** The headers of a request in which only field w may have spaces or colons that the loop trips over. */
  function AroundOne(fs: seq<Field>, w: nat): Option<seq<Header>>
    requires w < |fs|
  {
    var front := HeadersOf(fs[..w]) + LineHeaders(fs[w].Print());
    match Residue(fs[w].Print())
    case None => Some(front + HeadersOf(fs[w + 1..]))
    case Some(left) =>
      if left == "" then Some(front)
      else if w + 1 == |fs| then None
      else Some(front + ([Header(left + CRLF + fs[w + 1].key, fs[w + 1].value)] + HeadersOf(fs[w + 2..])))
  }

  lemma AroundOneReads(fs: seq<Field>, w: nat)
    requires AllFramed(fs) && w < |fs| && AllSolid(fs[..w]) && AllSolid(fs[w + 1..])
    ensures ReadLines(Lines(fs)) == AroundOne(fs, w)
  {
    hide ReadLines, FieldFramed, FieldSolid, Field.Print, LineHeaders, Residue, Behind;
    var line, rest := fs[w].Print(), Lines(fs[w + 1..]);
    LinesSplit(fs, w);
    SolidPrefix(fs[..w], [line] + rest);
    OneLine(line, rest);
    var behind := match Residue(line) case None => ReadLines(rest) case Some(left) => ReadLines([left] + rest);
    BehindBoth(HeadersOf(fs[..w]), LineHeaders(line), behind);
    BehindIs(HeadersOf(fs[..w]) + LineHeaders(line), behind);
    match Residue(line)
    case None => SolidLines(fs[w + 1..]);
    case Some(left) => LeftAndSolid(left, fs[w + 1..]);
      if left == "" {
        assert HeadersOf(fs[..w]) + LineHeaders(line) + [] == HeadersOf(fs[..w]) + LineHeaders(line);
      } else if w + 1 < |fs| {
        assert fs[w + 1..][1..] == fs[w + 2..];
      }
  }

  lemma LeftAndSolid(left: string, fs: seq<Field>)
    requires Lacks(left, {':'}) && AllFramed(fs) && AllSolid(fs)
    ensures ReadLines([left] + Lines(fs)) ==
            if left == "" then Some([])
            else if fs == [] then None
            else Some([Header(left + CRLF + fs[0].key, fs[0].value)] + HeadersOf(fs[1..]))
  {
    hide ReadLines, FieldFramed, FieldSolid, Field.Print, Behind;
    if left == "" {
      NothingLeft(Lines(fs));
    } else if fs == [] {
      assert [left] + Lines(fs) == [left];
      LeftAlone(left);
    } else {
      JoinsNext(left, fs[0], Lines(fs[1..]));
      SolidLines(fs[1..]);
      BehindIs([Header(left + CRLF + fs[0].key, fs[0].value)], ReadLines(Lines(fs[1..])));
    }
  }

  /** Nothing left of the line: the loop takes its end for the blank line, and the headers behind it are lost. */
  lemma NothingLeft(rest: seq<string>)
    ensures ReadLines([""] + rest) == Some([])
  {
  }

  /**
   A framed request in which every header but field w is solid, wherever it stands in the buffer, with
   text behind it: it is handled exactly unless that line leaves text without a colon and is the last.
   */
  lemma ServeAroundOne(v: View, m: Message, rest: string, w: nat)
    requires v.Valid() && v.Text() == m.Print() + rest && Framed(m) && w < |m.fields|
    requires AllSolid(m.fields[..w]) && AllSolid(m.fields[w + 1..])
    ensures var left := Residue(m.fields[w].Print());
            Lacks(rest, {NUL}) ==>
              (Serve(v).Handled? <==> left.None? || left.value == "" || w < |m.fields| - 1)
    ensures match AroundOne(m.fields, w)
            case Some(headers) =>
              Serve(v).Handled? && Serve(v).request == Recovered(m, headers) && Serve(v).view.Text() == rest
            case None => Lacks(rest, {NUL}) ==> Serve(v) == Fault
  {
    hide Message.Print, Serve, ReadLines, View.Text, View.Valid, LineFramed, FieldFramed, FieldSolid, Residue, LineHeaders;
    AroundOneReads(m.fields, w);
    ServeFramed(v, m, rest);
  }

  /** A value of words: the loop takes the first, and what the second leaves is a line of its own. */
  lemma WordsLeave(f: Field, x: string, spaces: nat, y: string)
    requires FieldFramed(f) && Words(f, x, spaces, y)
    ensures LineHeaders(f.Print()) == [Header(f.key, x)] + LineHeaders(Left(f, y))
    ensures Residue(f.Print()) == Residue(Left(f, y))
  {
    hide KeyEnd, WordStart, WordEnd, NextWord, LineHeader, Field.Print, Left, Words;
    FirstWord(f, x, spaces, y);
    WordsLine(f, x, spaces, y);
  }

  /** The first word of a framed value is not empty. */
  lemma FirstWord(f: Field, x: string, spaces: nat, y: string)
    requires FieldFramed(f) && Words(f, x, spaces, y)
    ensures x != ""
  {
    assert (Sp(spaces + 1) + y)[0] == ' ';
    assert f.value == x + (Sp(spaces + 1) + y);
  }

  /** Without a colon nothing more is read from it. */
  lemma PlainLeaves(left: string)
    requires Lacks(left, {':'})
    ensures LineHeaders(left) == [] && Residue(left) == Some(left)
  {
    UntilNone(left, 0, {':'});
  }

  /**
   The only spaces inside a value are those of field w, and no colon follows them.  A second word of one
   byte ends the headers there; a longer one is lost with the request if the field is the last, and else
   grows into the next header's key.
   */
  lemma ServeWords(v: View, m: Message, rest: string, w: nat, x: string, spaces: nat, y: string)
    requires v.Valid() && v.Text() == m.Print() + rest && Framed(m) && w < |m.fields|
    requires AllSolid(m.fields[..w]) && AllSolid(m.fields[w + 1..])
    requires Words(m.fields[w], x, spaces, y) && Lacks(y, {':'})
    ensures var front := HeadersOf(m.fields[..w]) + [Header(m.fields[w].key, x)];
            var left := Left(m.fields[w], y);
            if left == "" then Serve(v).Handled? && Serve(v).request == Recovered(m, front)
            else if w == |m.fields| - 1 then Lacks(rest, {NUL}) ==> Serve(v) == Fault
            else
              var next := m.fields[w + 1];
              && Serve(v).Handled?
              && Serve(v).request == Recovered(m, front + ([Header(left + CRLF + next.key, next.value)]
                                                           + HeadersOf(m.fields[w + 2..])))
  {
    hide Message.Print, Serve, View.Text, View.Valid, LineFramed, FieldFramed, FieldSolid, Residue, LineHeaders, Words;
    var f := m.fields[w];
    ServeAroundOne(v, m, rest, w);
    WordsLeave(f, x, spaces, y);
    LeftLacks(f, x, spaces, y);
    PlainLeaves(Left(f, y));
    assert [Header(f.key, x)] + [] == [Header(f.key, x)];
  }

  lemma LeftLacks(f: Field, x: string, spaces: nat, y: string)
    requires Words(f, x, spaces, y) && Lacks(y, {':'})
    ensures y != "" && Lacks(Left(f, y), {':'})
  {
  }

  // ---- everyday requests ----------------------------------------------------------------------

  function Get(fields: seq<Field>): Message {
    Message("GET", "/", "HTTP/1.1", 0, 0, 0, fields)
  }

  const AGENT := Field("User-Agent", "Mozilla/5.0 (X11)", 1, 0)

  lemma AgentWords()
    ensures FieldFramed(AGENT) && Words(AGENT, "Mozilla/5.0", 0, "(X11)") && Left(AGENT, "(X11)") == "X11)"
    ensures Lacks("(X11)", {':'})
  {
    assert "Mozilla/5.0 (X11)" == "Mozilla/5.0" + Sp(1) + "(X11)";
  }

  /** A browser's User-Agent as the only header: the tokeniser runs past the readable bytes. */
  lemma UserAgentFaults(v: View, rest: string)
    requires v.Valid() && v.Text() == Get([AGENT]).Print() + rest && Lacks(rest, {NUL})
    ensures Serve(v) == Fault
  {
    hide Message.Print, Serve, View.Text, View.Valid, Words, Left;
    var m := Get([AGENT]);
    AgentWords();
    assert m.fields[..0] == [] && m.fields[1..] == [];
    ServeWords(v, m, rest, 0, "Mozilla/5.0", 0, "(X11)");
  }

  /** With Host behind it the request is handled, and the header that names the host has another name. */
  lemma UserAgentHidesHost(v: View, rest: string)
    requires v.Valid() && v.Text() == Get([AGENT, Field("Host", "x", 1, 0)]).Print() + rest
    ensures Serve(v).Handled?
    ensures Serve(v).request.headers == [Header("User-Agent", "Mozilla/5.0"), Header("X11)\r\nHost", "x")]
  {
    hide Message.Print, Serve, View.Text, View.Valid, Words, Left;
    var m := Get([AGENT, Field("Host", "x", 1, 0)]);
    AgentWords();
    assert m.fields[..0] == [] && m.fields[1..] == [m.fields[1]] && m.fields[2..] == [];
    assert FieldFramed(m.fields[1]) && FieldSolid(m.fields[1]);
    assert "X11)" + CRLF + "Host" == "X11)\r\nHost";
    assert HeadersOf(m.fields[..0]) == [] && HeadersOf(m.fields[2..]) == [];
    ServeWords(v, m, rest, 0, "Mozilla/5.0", 0, "(X11)");
  }

  /** A second word of one byte: handled, cut short there. */
  lemma OneByteWordCuts(v: View, rest: string)
    requires v.Valid() && v.Text() == Get([Field("A", "b c", 1, 0)]).Print() + rest
    ensures Serve(v).Handled? && Serve(v).request.headers == [Header("A", "b")]
  {
    hide Message.Print, Serve, View.Text, View.Valid;
    var m := Get([Field("A", "b c", 1, 0)]);
    assert "b c" == "b" + Sp(1) + "c";
    assert m.fields[..0] == [] && m.fields[1..] == [];
    ServeWords(v, m, rest, 0, "b", 0, "c");
  }
}
