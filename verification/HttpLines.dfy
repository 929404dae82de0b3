/**
 What the tokeniser makes of every framed request, spaces and colons in header values included: a
 reference that reads the header lines as text, and the proof that the pointer loop agrees with it.
 Behind a space inside a value the loop is out of step with the lines: it goes on in the middle of one.
 */
module HttpLines {
  import opened Common
  import opened Scans
  import opened Buffers
  import opened HttpTokens
  import opened HttpRoundTrip
  import opened HttpStream
  import opened HttpLocality

  /** The key ends at the first colon. */
  function KeyEnd(line: string): nat { Until(line, 0, {':'}) }

  /** Colons and then spaces are skipped; */
  function WordStart(line: string): nat { Past(line, Past(line, KeyEnd(line) + 1, ':'), ' ') }

  /** the value is one word; */
  function WordEnd(line: string): nat { Until(line, WordStart(line), {' '}) }

  /** and behind its spaces stands the next word, or nothing. */
  function NextWord(line: string): nat { Past(line, WordEnd(line) + 1, ' ') }

  lemma LineBounds(line: string)
    requires KeyEnd(line) < |line|
    ensures KeyEnd(line) < WordStart(line) <= WordEnd(line) <= |line| && NextWord(line) <= |line|
    ensures NextWord(line) < |line| ==> WordEnd(line) < NextWord(line)
  {
  }

  function LineHeader(line: string): Header
    requires KeyEnd(line) < |line|
  {
    LineBounds(line);
    Header(line[..KeyEnd(line)], line[WordStart(line)..WordEnd(line)])
  }

  function Size(lines: seq<string>): nat {
    if lines == [] then 0 else |lines[0]| + 2 + Size(lines[1..])
  }

  lemma SizeOfRest(line: string, next: nat, rest: seq<string>)
    requires next < |line|
    ensures Size([line[next + 1..]] + rest) < Size([line] + rest)
    ensures Size(rest) < Size([line] + rest)
  {
    assert ([line[next + 1..]] + rest)[1..] == rest && ([line] + rest)[1..] == rest;
  }

  lemma SizeMerged(a: string, b: string, rest: seq<string>)
    ensures Size([a + CRLF + b] + rest) == Size([a] + ([b] + rest))
  {
    assert ([a + CRLF + b] + rest)[1..] == rest;
    assert ([a] + ([b] + rest))[1..] == [b] + rest && ([b] + rest)[1..] == rest;
  }

  lemma Split(lines: seq<string>)
    requires lines != []
    ensures lines == [lines[0]] + lines[1..]
    ensures |lines| > 1 ==> lines == [lines[0]] + ([lines[1]] + lines[2..])
  {
  }

  /**
   The headers that the loop records for these lines, in front of the blank line; None if it runs
   past the blank line looking for a colon.
   - A line without a colon becomes the front of the next line's key.
   - Behind the first word of a value that has a second one, the loop skips one byte of that, and takes
     what is left of the line for the next header; if nothing is left, for the end of the headers.
   */
  function ReadLines(lines: seq<string>): Option<seq<Header>>
    decreases Size(lines), |lines|
  {
    if lines == [] || lines[0] == "" then Some([])
    else
      var line := lines[0];
      Split(lines);
      if KeyEnd(line) == |line| then
        if |lines| == 1 then None
        else
          SizeMerged(line, lines[1], lines[2..]);
          ReadLines([line + CRLF + lines[1]] + lines[2..])
      else
        LineBounds(line);
        SizeOfRest(line, if NextWord(line) < |line| then NextWord(line) else 0, lines[1..]);
        match ReadLines(if NextWord(line) < |line| then [line[NextWord(line) + 1..]] + lines[1..] else lines[1..])
        case None => None
        case Some(headers) => Some([LineHeader(line)] + headers)
  }

  // ---- the loop on one line -------------------------------------------------------------------

  /** cells shows line from index q on, at p. */
  predicate Shows(cells: string, p: nat, line: string, q: nat) {
    p + |line| < |cells| && forall k :: q <= k < |line| ==> cells[p + k] == line[k]
  }

  lemma AtShows(cells: string, p: nat, line: string)
    requires At(cells, p, line) && p + |line| < |cells|
    ensures Shows(cells, p, line, 0)
  {
  }

  lemma ShowsSet(cells: string, p: nat, line: string, q: nat, i: nat, ch: char)
    requires Shows(cells, p, line, q) && p + i < |cells|
    ensures Shows(cells[p + i := ch], p, line, if q <= i then i + 1 else q)
  {
  }

  lemma PastShown(cells: string, p: nat, line: string, q: nat, ch: char)
    requires Shows(cells, p, line, q) && q <= |line| && cells[p + |line|] != ch
    ensures Past(cells, p + q, ch) == p + Past(line, q, ch)
    decreases |line| - q
  {
    if q < |line| && line[q] == ch {
      PastShown(cells, p, line, q + 1, ch);
    }
  }

  /** A scan that stops within the line, or at the byte behind it. */
  lemma UntilShown(cells: string, p: nat, line: string, q: nat, stop: set<char>)
    requires Shows(cells, p, line, q) && q <= |line|
    requires Until(line, q, stop) < |line| || cells[p + |line|] in stop
    ensures Until(cells, p + q, stop) == p + Until(line, q, stop)
    decreases |line| - q
  {
    if q < |line| && line[q] !in stop {
      UntilShown(cells, p, line, q + 1, stop);
    }
  }

  /** Without CR in the way, the scan for CR or space is the scan for space. */
  lemma UntilSpace(line: string, q: nat)
    requires forall k :: q <= k < |line| ==> line[k] != '\r'
    ensures Until(line, q, {'\r', ' '}) == Until(line, q, {' '})
    decreases |line| - q
  {
    if q < |line| && line[q] != ' ' {
      UntilSpace(line, q + 1);
    }
  }

  /** readLastField in the middle of a line: it steps one byte into the next word. */
  lemma LineBreaks(c: Cursor, i: nat, j: nat)
    requires i == Until(c.cells, c.pos, {'\r', ' '}) < |c.cells| && j == Past(c.cells[i := NUL], i + 1, ' ')
    requires j < |c.cells| && c.cells[i := NUL][j] != '\r'
    ensures ReadLastField(c) == Some(Cursor(c.cells[i := NUL], j + 1))
  {
  }

  /** A line as the loop can meet it: CR, if at all, only inside the key. */
  predicate Head(line: string) {
    && Lacks(line, {NUL}) && (line != "" ==> line[0] != '\r')
    && forall k :: 0 <= k < |line| && (KeyEnd(line) == |line| || KeyEnd(line) <= k) ==> line[k] != '\r'
  }

  /** The scan for the word's end stops there. */
  lemma WordStops(cells: string, p: nat, line: string)
    requires KeyEnd(line) < |line| && Head(line)
    requires Shows(cells, p, line, KeyEnd(line) + 1) && cells[p + |line|] == '\r'
    ensures Until(cells, p + WordStart(line), {'\r', ' '}) == p + WordEnd(line)
  {
    hide Until, Past;
    LineBounds(line);
    UntilSpace(line, WordStart(line));
    UntilShown(cells, p, line, WordStart(line), {'\r', ' '});
  }

  /** readLastField on the word of the line. */
  lemma ReadWord(cells: string, p: nat, line: string) returns (c': Cursor)
    requires KeyEnd(line) < |line| && Head(line)
    requires Shows(cells, p, line, KeyEnd(line) + 1)
    requires p + |line| + 1 < |cells| && cells[p + |line|] == '\r' && cells[p + |line| + 1] == '\n'
    ensures ReadLastField(Cursor(cells, p + WordStart(line))) == Some(c')
    ensures p + WordEnd(line) < |cells| && c'.cells == cells[p + WordEnd(line) := NUL]
    ensures c'.pos == p + if NextWord(line) < |line| then NextWord(line) + 1 else |line| + 2
  {
    hide Until, Past, ReadLastField, KeyEnd, WordStart, WordEnd, NextWord, Head, Shows;
    LineBounds(line);
    var e := WordEnd(line);
    var c := Cursor(cells, p + WordStart(line));
    WordStops(cells, p, line);
    if e == |line| {
      LineSkipsNow(c, p + e);
      NothingBehind(line);
      c' := Cursor(cells[p + e := NUL], p + |line| + 2);
    } else {
      NextStops(cells, p, line);
      if NextWord(line) < |line| {
        NextShown(cells, p, line);
        LineBreaks(c, p + e, p + NextWord(line));
      } else {
        LineSkips(c, p + e, p + NextWord(line));
      }
      c' := Cursor(cells[p + e := NUL], p + if NextWord(line) < |line| then NextWord(line) + 1 else |line| + 2);
    }
  }

  /** The skip over the spaces behind the word stops at the next one, or at the line's end. */
  lemma NextStops(cells: string, p: nat, line: string)
    requires KeyEnd(line) < |line| && WordEnd(line) < |line|
    requires Shows(cells, p, line, KeyEnd(line) + 1) && cells[p + |line|] == '\r'
    ensures Past(cells[p + WordEnd(line) := NUL], p + WordEnd(line) + 1, ' ') == p + NextWord(line)
  {
    hide Until, Past;
    LineBounds(line);
    ShowsSet(cells, p, line, KeyEnd(line) + 1, WordEnd(line), NUL);
    PastShown(cells[p + WordEnd(line) := NUL], p, line, WordEnd(line) + 1, ' ');
  }

  lemma NextShown(cells: string, p: nat, line: string)
    requires KeyEnd(line) < |line| && NextWord(line) < |line| && Head(line) && Shows(cells, p, line, KeyEnd(line) + 1)
    ensures p + WordEnd(line) < |cells| && cells[p + WordEnd(line) := NUL][p + NextWord(line)] != '\r'
  {
    hide Until, Past;
    LineBounds(line);
  }

  lemma NothingBehind(line: string)
    requires WordEnd(line) == |line|
    ensures NextWord(line) == |line|
  {
  }

  /** Key and word of the line have become the slot's C strings. */
  predicate HeaderRead(cells: string, slot: Slot, h: Header, pos: nat) {
    && Slice(cells, slot.key, h.key) && slot.key + |h.key| < pos
    && Slice(cells, slot.value, h.value) && slot.value + |h.value| < pos
  }

  lemma HeaderReadBefore(a: string, b: string, slot: Slot, h: Header, lo: nat, hi: nat)
    requires HeaderRead(a, slot, h, lo) && SameOutside(a, b, lo, hi) && lo <= hi
    ensures HeaderRead(b, slot, h, hi)
  {
    SliceBefore(a, b, slot.key, h.key, lo, hi);
    SliceBefore(a, b, slot.value, h.value, lo, hi);
  }

  /** readField on the key */
  lemma ReadKey(c: Cursor, line: string)
    requires KeyEnd(line) < |line| && At(c.cells, c.pos, line)
    requires c.pos + |line| < |c.cells| && c.cells[c.pos + |line|] == '\r'
    ensures var cells := c.cells[c.pos + KeyEnd(line) := NUL];
            && Shows(cells, c.pos, line, KeyEnd(line) + 1)
            && ReadField(c, ':') == Some(Cursor(cells, c.pos + Past(line, KeyEnd(line) + 1, ':')))
  {
    hide Until, Past, ReadField, At, Shows;
    var p, i := c.pos, KeyEnd(line);
    AtShows(c.cells, p, line);
    UntilShown(c.cells, p, line, 0, {':'});
    var cells := c.cells[p + i := NUL];
    ShowsSet(c.cells, p, line, 0, i, NUL);
    PastShown(cells, p, line, i + 1, ':');
    ColonsBound(line);
    FieldSkips(c, ':', p + i, p + Past(line, i + 1, ':'));
  }

  /** and the skip over the spaces behind its colons. */
  lemma SkipLead(cells: string, p: nat, line: string)
    requires KeyEnd(line) < |line| && Shows(cells, p, line, KeyEnd(line) + 1) && cells[p + |line|] == '\r'
    ensures Past(cells, p + Past(line, KeyEnd(line) + 1, ':'), ' ') == p + WordStart(line)
  {
    hide Until, Past, Shows;
    ColonsBound(line);
    var j := Past(line, KeyEnd(line) + 1, ':');
    ShowsFrom(cells, p, line, KeyEnd(line) + 1, j);
    PastShown(cells, p, line, j, ' ');
  }

  /** One round of the loop on a line with a colon: always read, key and first word exactly. */
  lemma ReadLine(c: Cursor, line: string) returns (slot: Slot, c': Cursor)
    requires KeyEnd(line) < |line| && Head(line) && At(c.cells, c.pos, line)
    requires var e := c.pos + |line|; e + 1 < |c.cells| && c.cells[e] == '\r' && c.cells[e + 1] == '\n'
    ensures ReadHeader(c) == Some((slot, c')) && HeaderRead(c'.cells, slot, LineHeader(line), c'.pos)
    ensures c'.pos == c.pos + if NextWord(line) < |line| then NextWord(line) + 1 else |line| + 2
    ensures SameOutside(c.cells, c'.cells, c.pos, c'.pos)
  {
    hide Until, Past, ReadLastField, ReadField, ReadHeader, HeaderRead, Head, At, SameOutside, Shows;
    hide KeyEnd, WordStart, WordEnd, NextWord, LineHeader;
    LineBounds(line);
    var p := c.pos;
    var cells := c.cells[p + KeyEnd(line) := NUL];
    ReadKey(c, line);
    SkipLead(cells, p, line);
    c' := ReadWord(cells, p, line);
    HeaderByParts(c, cells, p + Past(line, KeyEnd(line) + 1, ':'), p + WordStart(line));
    slot := Slot(p, p + WordStart(line));
    LineSlices(c.cells, c'.cells, p, line, c'.pos);
  }

  lemma ColonsBound(line: string)
    requires KeyEnd(line) < |line|
    ensures KeyEnd(line) + 1 <= Past(line, KeyEnd(line) + 1, ':') <= |line|
  {
  }

  lemma ShowsFrom(cells: string, p: nat, line: string, q: nat, r: nat)
    requires Shows(cells, p, line, q) && q <= r
    ensures Shows(cells, p, line, r)
  {
  }

  lemma LineSlices(cells: string, cells': string, p: nat, line: string, pos: nat)
    requires KeyEnd(line) < |line| && Head(line) && At(cells, p, line) && p + |line| + 2 <= |cells|
    requires p + WordEnd(line) < |cells| && cells' == cells[p + KeyEnd(line) := NUL][p + WordEnd(line) := NUL]
    requires pos == p + if NextWord(line) < |line| then NextWord(line) + 1 else |line| + 2
    ensures HeaderRead(cells', Slot(p, p + WordStart(line)), LineHeader(line), pos)
    ensures SameOutside(cells, cells', p, pos)
  {
    hide Until, Past;
    LineBounds(line);
    var h := LineHeader(line);
    assert At(cells', p, h.key) && At(cells', p + WordStart(line), h.value);
  }

  // ---- the loop on all lines ------------------------------------------------------------------

  /** The lines stand in cells from p on, and then the CR and the NUL of the blank line, at the very end. */
  predicate LinesAt(cells: string, p: nat, lines: seq<string>)
    decreases |lines|
  {
    if lines == [] then p + 2 == |cells| && cells[p] == '\r' && cells[p + 1] == NUL
    else
      var e := p + |lines[0]|;
      && At(cells, p, lines[0]) && e + 2 < |cells| && cells[e] == '\r' && cells[e + 1] == '\n'
      && LinesAt(cells, e + 2, lines[1..])
  }

  /** A printed header line. */
  predicate Clean(line: string) {
    Lacks(line, {'\r', NUL}) && KeyEnd(line) < |line|
  }

  predicate AllClean(lines: seq<string>) {
    forall i :: 0 <= i < |lines| ==> Clean(lines[i])
  }

  predicate Readable(lines: seq<string>) {
    lines != [] ==> Head(lines[0]) && AllClean(lines[1..])
  }

  lemma {:induction false} LinesAtOutside(a: string, b: string, lo: nat, hi: nat, p: nat, lines: seq<string>)
    requires SameOutside(a, b, lo, hi) && hi <= p && LinesAt(a, p, lines)
    ensures LinesAt(b, p, lines)
    decreases |lines|
  {
    if lines != [] {
      AtOutside(a, b, lo, hi, p, lines[0]);
      LinesAtOutside(a, b, lo, hi, p + |lines[0]| + 2, lines[1..]);
    }
  }

  /** Before the end there is no NUL. */
  lemma {:induction false} NoNulBefore(cells: string, p: nat, lines: seq<string>)
    requires LinesAt(cells, p, lines) && forall i :: 0 <= i < |lines| ==> Lacks(lines[i], {NUL})
    ensures p + 2 <= |cells| && cells[|cells| - 1] == NUL && forall k :: p <= k < |cells| - 1 ==> cells[k] != NUL
    decreases |lines|
  {
    if lines != [] {
      var e := p + |lines[0]|;
      NoNulBefore(cells, e + 2, lines[1..]);
      forall k | p <= k < |cells| - 1 ensures cells[k] != NUL {
        if k < e {
          AtChar(cells, p, lines[0], k - p);
          assert lines[0][k - p] != NUL;
        }
      }
    }
  }

  lemma ReadableLacksNul(lines: seq<string>)
    requires Readable(lines)
    ensures forall i :: 0 <= i < |lines| ==> Lacks(lines[i], {NUL})
  {
    forall i | 0 <= i < |lines| ensures Lacks(lines[i], {NUL}) {
      if i > 0 {
        assert Clean(lines[1..][i - 1]);
      }
    }
  }

  /** Two lines seen as one. */
  lemma MergedAt(cells: string, p: nat, lines: seq<string>)
    requires |lines| > 1 && LinesAt(cells, p, lines)
    ensures LinesAt(cells, p, [lines[0] + CRLF + lines[1]] + lines[2..])
  {
    var a, b := lines[0], lines[1];
    var merged := a + CRLF + b;
    assert lines[1..][0] == b && lines[1..][1..] == lines[2..];
    assert ([merged] + lines[2..])[0] == merged && ([merged] + lines[2..])[1..] == lines[2..];
    forall k | 0 <= k < |merged| ensures merged[k] == cells[p + k] {
      if k < |a| {
        AtChar(cells, p, a, k);
      } else if k >= |a| + 2 {
        AtChar(cells, p + |a| + 2, b, k - |a| - 2);
      }
    }
  }

  lemma MergedReadable(lines: seq<string>)
    requires |lines| > 1 && Readable(lines) && lines[0] != "" && KeyEnd(lines[0]) == |lines[0]|
    ensures Readable([lines[0] + CRLF + lines[1]] + lines[2..])
  {
    var a, b := lines[0], lines[1];
    var merged := a + CRLF + b;
    assert lines[1..][0] == b && Clean(b) && lines[1..][1..] == lines[2..];
    assert ([merged] + lines[2..])[1..] == lines[2..];
    assert forall i :: 0 <= i < |lines[2..]| ==> lines[2..][i] == lines[1..][i + 1];
    forall k | 0 <= k < |merged| ensures merged[k] != NUL && (k < |a| + 2 + KeyEnd(b) ==> merged[k] != ':')
                                         && (k >= |a| + 2 ==> merged[k] != '\r')
    {
      if k >= |a| + 2 {
        assert merged[k] == b[k - |a| - 2];
      } else if k < |a| {
        assert merged[k] == a[k];
      }
    }
    UntilIs(merged, 0, {':'}, |a| + 2 + KeyEnd(b));
  }

  lemma UntilIs(s: string, p: nat, stop: set<char>, r: nat)
    requires p <= r < |s| && s[r] in stop && forall k :: p <= k < r ==> s[k] !in stop
    ensures Until(s, p, stop) == r
  {
  }

  /** What is left of a line behind its second word's first byte. */
  lemma LeftAt(cells: string, p: nat, lines: seq<string>, n: nat)
    requires lines != [] && LinesAt(cells, p, lines) && n < |lines[0]|
    ensures LinesAt(cells, p + n + 1, [lines[0][n + 1..]] + lines[1..])
  {
    var left := lines[0][n + 1..];
    assert ([left] + lines[1..])[0] == left && ([left] + lines[1..])[1..] == lines[1..];
    forall k | 0 <= k < |left| ensures left[k] == cells[p + n + 1 + k] {
      AtChar(cells, p, lines[0], n + 1 + k);
    }
  }

  lemma LeftReadable(lines: seq<string>, n: nat)
    requires lines != [] && Readable(lines) && KeyEnd(lines[0]) <= n < |lines[0]|
    ensures Readable([lines[0][n + 1..]] + lines[1..])
  {
    var left := lines[0][n + 1..];
    assert ([left] + lines[1..])[1..] == lines[1..];
    assert forall k :: 0 <= k < |left| ==> left[k] == lines[0][n + 1 + k];
  }

  lemma RestReadable(lines: seq<string>)
    requires lines != [] && Readable(lines)
    ensures Readable(lines[1..])
  {
    if lines[1..] != [] {
      assert Clean(lines[1..][0]);
      assert forall i :: 0 <= i < |lines[1..][1..]| ==> lines[1..][1..][i] == lines[1..][i + 1];
    }
  }

  /** A line does not look like the blank line. */
  lemma LineStart(cells: string, p: nat, line: string)
    requires line != "" && Head(line) && At(cells, p, line)
    ensures p < |cells| && cells[p] != '\r'
  {
    AtChar(cells, p, line, 0);
  }

  /** A last line without a colon: the loop runs past the blank line. */
  lemma LastLineLost(c: Cursor, line: string)
    requires line != "" && Head(line) && KeyEnd(line) == |line| && LinesAt(c.cells, c.pos, [line])
    ensures ReadHeaders(c).None?
  {
    assert [line][0] == line && [line][1..] == [];
    LineStart(c.cells, c.pos, line);
    forall k | c.pos <= k < |c.cells| ensures c.cells[k] != ':' {
      if k < c.pos + |line| {
        AtChar(c.cells, c.pos, line, k - c.pos);
      }
    }
    NoColon(c);
  }

  lemma NoColon(c: Cursor)
    requires c.pos < |c.cells| && c.cells[c.pos] != '\r' && forall k :: c.pos <= k < |c.cells| ==> c.cells[k] != ':'
    ensures ReadHeaders(c).None?
  {
    assert Until(c.cells, c.pos, {':'}) == |c.cells|;
  }

  ghost predicate AllHeadersRead(cells: string, slots: seq<Slot>, headers: seq<Header>, pos: nat) {
    |slots| == |headers| && forall i :: 0 <= i < |headers| ==> HeaderRead(cells, slots[i], headers[i], pos)
  }

  lemma AllHeadersCons(cells: string, slot: Slot, h: Header, slots: seq<Slot>, headers: seq<Header>, pos: nat)
    requires HeaderRead(cells, slot, h, pos) && AllHeadersRead(cells, slots, headers, pos)
    ensures AllHeadersRead(cells, [slot] + slots, [h] + headers, pos)
  {
  }

  /** The lines that the loop meets behind a line with a colon. */
  function Following(lines: seq<string>): seq<string>
    requires lines != [] && KeyEnd(lines[0]) < |lines[0]|
  {
    if NextWord(lines[0]) < |lines[0]| then [lines[0][NextWord(lines[0]) + 1..]] + lines[1..] else lines[1..]
  }

  lemma ReadLinesFirst(lines: seq<string>)
    requires lines != [] && lines[0] != "" && KeyEnd(lines[0]) < |lines[0]|
    ensures Size(Following(lines)) < Size(lines)
    ensures ReadLines(lines) == match ReadLines(Following(lines))
                                case None => None
                                case Some(headers) => Some([LineHeader(lines[0])] + headers)
  {
    var line := lines[0];
    Split(lines);
    SizeOfRest(line, if NextWord(line) < |line| then NextWord(line) else 0, lines[1..]);
  }

  /** Where they stand. */
  lemma FollowingAt(cells: string, p: nat, lines: seq<string>)
    requires lines != [] && KeyEnd(lines[0]) < |lines[0]| && LinesAt(cells, p, lines) && Readable(lines)
    ensures var n := NextWord(lines[0]);
            LinesAt(cells, p + if n < |lines[0]| then n + 1 else |lines[0]| + 2, Following(lines))
    ensures Readable(Following(lines))
  {
    hide Head, KeyEnd, WordStart, WordEnd, NextWord, At, Readable, Clean, LinesAt;
    LineBounds(lines[0]);
    if NextWord(lines[0]) < |lines[0]| {
      LeftAt(cells, p, lines, NextWord(lines[0]));
      LeftReadable(lines, NextWord(lines[0]));
    } else {
      RestAt(cells, p, lines);
      RestReadable(lines);
    }
  }

  lemma RestAt(cells: string, p: nat, lines: seq<string>)
    requires lines != [] && LinesAt(cells, p, lines)
    ensures LinesAt(cells, p + |lines[0]| + 2, lines[1..])
  {
  }

  lemma FirstAt(cells: string, p: nat, lines: seq<string>)
    requires lines != [] && LinesAt(cells, p, lines) && Readable(lines)
    ensures At(cells, p, lines[0]) && Head(lines[0])
    ensures var e := p + |lines[0]|; e + 1 < |cells| && cells[e] == '\r' && cells[e + 1] == '\n'
  {
  }

  /** One round of the loop: a header, and the lines that follow. */
  lemma NextLine(c: Cursor, lines: seq<string>) returns (slot: Slot, c1: Cursor)
    requires lines != [] && lines[0] != "" && KeyEnd(lines[0]) < |lines[0]|
    requires LinesAt(c.cells, c.pos, lines) && Readable(lines)
    ensures ReadHeaders(c) == match ReadHeaders(c1)
                              case None => None
                              case Some((slots, c2)) => Some(([slot] + slots, c2))
    ensures c.pos <= c1.pos && SameOutside(c.cells, c1.cells, c.pos, c1.pos)
    ensures HeaderRead(c1.cells, slot, LineHeader(lines[0]), c1.pos)
    ensures LinesAt(c1.cells, c1.pos, Following(lines)) && Readable(Following(lines))
  {
    hide HeaderRead, ReadHeader, ReadHeaders, Head, SameOutside, KeyEnd, WordStart, WordEnd, NextWord, LineHeader;
    hide At, LinesAt, Readable, Following;
    FirstAt(c.cells, c.pos, lines);
    LineStart(c.cells, c.pos, lines[0]);
    slot, c1 := ReadLine(c, lines[0]);
    HeadersFirst(c, slot, c1);
    FollowingAt(c.cells, c.pos, lines);
    LinesAtOutside(c.cells, c1.cells, c.pos, c1.pos, c1.pos, Following(lines));
  }

  /** The header loop agrees with the reference on any lines. */
  lemma {:induction false} ReadLinesAt(c: Cursor, lines: seq<string>) returns (slots: seq<Slot>, c': Cursor)
    requires LinesAt(c.cells, c.pos, lines) && Readable(lines)
    ensures match ReadLines(lines)
            case None => ReadHeaders(c).None?
            case Some(headers) =>
              && ReadHeaders(c) == Some((slots, c')) && c.pos <= c'.pos
              && SameOutside(c.cells, c'.cells, c.pos, c'.pos) && AllHeadersRead(c'.cells, slots, headers, c'.pos)
    decreases Size(lines), |lines|
  {
    hide HeaderRead, ReadHeader, Head, SameOutside, KeyEnd, WordStart, WordEnd, NextWord, LineHeader, Following, At;
    slots, c' := [], c;
    if lines == [] || lines[0] == "" {
      NothingRead(c, lines);
    } else if KeyEnd(lines[0]) < |lines[0]| {
      var slot, c1 := NextLine(c, lines);
      ReadLinesFirst(lines);
      slots, c' := ReadLinesAt(c1, Following(lines));
      if ReadLines(lines).Some? {
        var headers := ReadLines(Following(lines)).value;
        SameInTurn(c.cells, c1.cells, c'.cells, c.pos, c1.pos, c'.pos);
        HeaderReadBefore(c1.cells, c'.cells, slot, LineHeader(lines[0]), c1.pos, c'.pos);
        AllHeadersCons(c'.cells, slot, LineHeader(lines[0]), slots, headers, c'.pos);
        slots := [slot] + slots;
      }
    } else {
      KeyEndBound(lines[0]);
      if |lines| == 1 {
        assert lines == [lines[0]];
        LastLineLost(c, lines[0]);
      } else {
        MergedAt(c.cells, c.pos, lines);
        MergedReadable(lines);
        Split(lines);
        SizeMerged(lines[0], lines[1], lines[2..]);
        slots, c' := ReadLinesAt(c, [lines[0] + CRLF + lines[1]] + lines[2..]);
      }
    }
  }

  lemma KeyEndBound(line: string)
    ensures KeyEnd(line) <= |line|
  {
  }

  lemma NothingRead(c: Cursor, lines: seq<string>)
    requires LinesAt(c.cells, c.pos, lines) && (lines == [] || lines[0] == "")
    ensures ReadHeaders(c) == Some(([], c)) && SameOutside(c.cells, c.cells, c.pos, c.pos)
    ensures AllHeadersRead(c.cells, [], [], c.pos)
  {
    hide At, Readable;
    assert c.cells[c.pos] == '\r';
  }

  // ---- whole requests -------------------------------------------------------------------------

  /** The header lines of a request. */
  function Lines(fs: seq<Field>): seq<string> {
    if fs == [] then [] else [fs[0].Print()] + Lines(fs[1..])
  }

  lemma PrintClean(f: Field)
    requires FieldFramed(f)
    ensures Clean(f.Print()) && f.Print() != "" && f.Print()[0] != '\r' && KeyEnd(f.Print()) == |f.key|
  {
    var line := f.Print();
    assert line == f.key + (":" + Sp(f.before) + f.value + Sp(f.after));
    assert line[|f.key|] == ':';
    assert forall k :: 0 <= k < |f.key| ==> line[k] == f.key[k];
    UntilIs(line, 0, {':'}, |f.key|);
  }

  lemma {:induction false} LinesReadable(fs: seq<Field>)
    requires AllFramed(fs)
    ensures AllClean(Lines(fs)) && Readable(Lines(fs)) && |Lines(fs)| == |fs|
    decreases |fs|
  {
    if fs != [] {
      PrintClean(fs[0]);
      LinesReadable(fs[1..]);
      assert Lines(fs)[1..] == Lines(fs[1..]);
    }
  }

  lemma {:induction false} FieldsAreLines(cells: string, p: nat, fs: seq<Field>)
    requires FieldsAt(cells, p, fs) && p + |PrintFields(fs)| + 2 == |cells| && cells[|cells| - 1] == NUL
    ensures LinesAt(cells, p, Lines(fs))
    decreases |fs|
  {
    if fs != [] {
      var line := fs[0].Print();
      AtSplit(cells, p, line, CRLF);
      AtChar(cells, p + |line|, CRLF, 0);
      AtChar(cells, p + |line|, CRLF, 1);
      FieldsAreLines(cells, p + |line| + 2, fs[1..]);
      assert Lines(fs)[1..] == Lines(fs[1..]);
    }
  }

  /** The bytes of a request as the codec leaves them. */
  function Marked(m: Message): string
    requires |m.Print()| > 0
  {
    m.Print()[|m.Print()| - 1 := NUL]
  }

  /** What the service is handed, given the headers that the loop records. */
  function Recovered(m: Message, headers: seq<Header>): Request {
    Request(m.verb, m.url, m.version, headers)
  }

  lemma PrintNotEmpty(m: Message)
    ensures |m.Print()| >= 4
  {
  }

  /** Every framed request: the tokeniser ends within it exactly if the reference does, and then with its headers. */
  lemma TokeniseFramed(m: Message)
    requires Framed(m)
    ensures |m.Print()| >= 4
    ensures match ReadLines(Lines(m.fields))
            case None => Tokenise(Marked(m), 0).None?
            case Some(headers) =>
              var t := Tokenise(Marked(m), 0);
              t.Some? && Resolve(t.value) == Recovered(m, headers) && t.value.end == |m.Print()|
  {
    hide At, Slice, FieldsAt, FirstLineAt, FirstLineLength, PrintFields, AllFramed, LineFramed, SameOutside, LineRead;
    hide LinesAt, ReadLines, Lines, Resolve, ReadRequestLine, Message.Print, Readable, AllHeadersRead, ReadRest;
    PrintNotEmpty(m);
    var cells, mid := Marked(m), FirstLineLength(m) + 2;
    WholeAt(m.Print());
    CodecDelivers(m.Print(), 0, m);
    var c1, c2, c3 := ReadFirstLine(Cursor(cells, 0), m, mid);
    FieldsAtOutside(cells, c3.cells, 0, mid, mid, m.fields);
    SameAt(cells, c3.cells, 0, mid, |cells| - 1);
    FieldsAreLines(c3.cells, mid, m.fields);
    LinesReadable(m.fields);
    RestFramed(c1.pos, c2.pos, c3, m);
  }

  lemma WholeAt(text: string)
    ensures At(text, 0, text)
  {
  }

  lemma RestFramed(url: nat, version: nat, c: Cursor, m: Message)
    requires LinesAt(c.cells, c.pos, Lines(m.fields)) && Readable(Lines(m.fields)) && LineRead(c, 0, url, version, m)
    ensures match ReadLines(Lines(m.fields))
            case None => ReadRest(0, url, version, c).None?
            case Some(headers) =>
              var t := ReadRest(0, url, version, c);
              t.Some? && Resolve(t.value) == Recovered(m, headers) && t.value.end == |c.cells|
  {
    hide LinesAt, ReadLines, Lines, Resolve, ReadHeaders, SameOutside, LineRead, Readable, AllHeadersRead;
    var lines := Lines(m.fields);
    var slots, c' := ReadLinesAt(c, lines);
    ReadableLacksNul(lines);
    NoNulBefore(c.cells, c.pos, lines);
    if ReadLines(lines).Some? {
      StopsAtCR(c);
      SameAt(c.cells, c'.cells, c.pos, c'.pos, c'.pos);
      EndsAtNul(c, c');
      ResolveFramed(c, c', url, version, slots, ReadLines(lines).value, m);
    }
  }

  lemma {:induction false} StopsAtCR(c: Cursor)
    requires ReadHeaders(c).Some?
    ensures var c' := ReadHeaders(c).value.1; c'.pos < |c'.cells| && c'.cells[c'.pos] == '\r'
    decreases |c.cells| - c.pos
  {
    if c.cells[c.pos] != '\r' {
      StopsAtCR(ReadHeader(c).value.1);
    }
  }

  lemma EndsAtNul(c: Cursor, c': Cursor)
    requires SameOutside(c.cells, c'.cells, c.pos, c'.pos) && c.pos <= c'.pos < |c'.cells| && c'.cells[c'.pos] == '\r'
    requires c.cells[|c.cells| - 1] == NUL && forall k :: c.pos <= k < |c.cells| - 1 ==> c.cells[k] != NUL
    ensures Until(c'.cells, c'.pos, {NUL}) == |c.cells| - 1
  {
    UntilIs(c'.cells, c'.pos, {NUL}, |c.cells| - 1);
  }

  lemma ResolveFramed(c: Cursor, c': Cursor, url: nat, version: nat, slots: seq<Slot>, headers: seq<Header>, m: Message)
    requires LineRead(c, 0, url, version, m) && SameOutside(c.cells, c'.cells, c.pos, c'.pos) && c.pos <= c'.pos
    requires AllHeadersRead(c'.cells, slots, headers, c'.pos)
    ensures forall end :: Resolve(Tokens(0, url, version, slots, c'.cells, end)) == Recovered(m, headers)
  {
    hide At, CString, Slice;
    SliceBefore(c.cells, c'.cells, 0, m.verb, c.pos, c'.pos);
    SliceBefore(c.cells, c'.cells, url, m.url, c.pos, c'.pos);
    SliceBefore(c.cells, c'.cells, version, m.version, c.pos, c'.pos);
    SliceIsCString(c'.cells, 0, m.verb);
    SliceIsCString(c'.cells, url, m.url);
    SliceIsCString(c'.cells, version, m.version);
    var resolved := ResolveHeaders(c'.cells, slots);
    forall i | 0 <= i < |headers| ensures resolved[i] == headers[i] {
      assert HeaderRead(c'.cells, slots[i], headers[i], c'.pos);
      SliceIsCString(c'.cells, slots[i].key, headers[i].key);
      SliceIsCString(c'.cells, slots[i].value, headers[i].value);
    }
    assert resolved == headers;
  }

  /**
   Wherever a framed request stands in the buffer, whatever its values and whatever surrounds it: if the
   reference ends, it is handled with the headers of the reference, exactly its bytes are consumed and no
   other byte changes; if not, it is not handled within its own bytes, and without a NUL behind it not at all.
   */
  lemma ServeFramed(v: View, m: Message, rest: string)
    requires v.Valid() && v.Text() == m.Print() + rest && Framed(m)
    ensures match ReadLines(Lines(m.fields))
            case Some(headers) =>
              && Serve(v).Handled? && Serve(v).request == Recovered(m, headers)
              && var w := Serve(v).view;
                 && w.Valid() && w.read == v.read + |m.Print()| && w.write == v.write && w.Text() == rest
                 && SameOutside(v.cells, w.cells, v.read, w.read)
            case None =>
              && (Serve(v).Handled? ==> Serve(v).view.read > v.read + |m.Print()|)
              && (Lacks(rest, {NUL}) ==> Serve(v) == Fault)
  {
    hide Framed, Message.Print, ReadLines, Lines, Tokenise, Resolve, Between, FirstOccurrence, Serve, At, Ended, Lacks;
    var text := m.Print();
    FirstBlankLine(m, rest);
    FrontOfView(v, text, rest);
    TokeniseFramed(m);
    var pre, post := v.cells[..v.read], v.cells[v.read + |text|..];
    OwnBytes(v, text, pre, post);
    BetweenSet(pre, text, post, |text| - 1, NUL);
    ServeFound(v, |text| - 4);
    TokeniseLocal(pre, Marked(m), post);
    if ReadLines(Lines(m.fields)).Some? {
      var t := Tokenise(Marked(m), 0).value;
      TokensEnd(Marked(m), 0);
      ResolveLocal(pre, t, post);
      SameBetween(pre, text, t.cells, post);
      RestOfView(v, text, rest, Between(pre, t.cells, post));
    } else if Serve(v).Handled? {
      var cells := v.cells[v.read + |text| - 1 := NUL];
      EndWasNul(cells, v.read);
      NulBehind(v, text, rest, Tokenise(cells, v.read).value.end - 1);
    }
  }

  lemma NulBehind(v: View, text: string, rest: string, q: nat)
    requires v.Valid() && v.Text() == text + rest && v.read + |text| <= q < v.write && v.cells[q] == NUL
    ensures !Lacks(rest, {NUL})
  {
    assert v.Text()[q - v.read] == rest[q - v.read - |text|];
  }

  // ---- the tokeniser writes only in front of its pointer ----------------------------------------

  predicate SameFrom(a: string, b: string, lo: nat) {
    |a| == |b| && forall k :: lo <= k < |a| ==> a[k] == b[k]
  }

  lemma FieldKeeps(c: Cursor, ch: char)
    requires ReadField(c, ch).Some?
    ensures SameFrom(c.cells, ReadField(c, ch).value.cells, ReadField(c, ch).value.pos)
  {
  }

  lemma LastFieldKeeps(c: Cursor)
    requires ReadLastField(c).Some?
    ensures SameFrom(c.cells, ReadLastField(c).value.cells, ReadLastField(c).value.pos)
  {
  }

  lemma HeaderKeeps(c: Cursor)
    requires ReadHeader(c).Some?
    ensures var c' := ReadHeader(c).value.1; SameFrom(c.cells, c'.cells, c'.pos)
  {
    hide ReadField, ReadLastField;
    var c1 := ReadField(c, ':').value;
    var v := Past(c1.cells, c1.pos, ' ');
    FieldKeeps(c, ':');
    LastFieldKeeps(Cursor(c1.cells, v));
  }

  lemma {:induction false} HeadersKeep(c: Cursor)
    requires ReadHeaders(c).Some?
    ensures var c' := ReadHeaders(c).value.1; SameFrom(c.cells, c'.cells, c'.pos)
    decreases |c.cells| - c.pos
  {
    hide ReadHeader;
    if c.cells[c.pos] != '\r' {
      HeaderKeeps(c);
      HeadersKeep(ReadHeader(c).value.1);
    }
  }

  /** The NUL at which it ends stood there before. */
  lemma EndWasNul(cells: string, start: nat)
    requires Tokenise(cells, start).Some?
    ensures var end := Tokenise(cells, start).value.end; 0 < end <= |cells| && cells[end - 1] == NUL
  {
    hide ReadField, ReadLastField, ReadHeaders;
    var (c1, c2, c3) := ReadRequestLine(Cursor(cells, start)).value;
    FieldKeeps(Cursor(cells, start), ' ');
    FieldKeeps(c1, ' ');
    LastFieldKeeps(c2);
    HeadersKeep(c3);
  }

  lemma OwnBytes(v: View, text: string, pre: string, post: string)
    requires v.Valid() && At(v.cells, v.read, text) && v.read + |text| <= |v.cells|
    requires pre == v.cells[..v.read] && post == v.cells[v.read + |text|..]
    ensures v.cells == Between(pre, text, post)
  {
    assert v.cells[v.read..v.read + |text|] == text;
  }

  lemma SameBetween(pre: string, a: string, b: string, post: string)
    requires |a| == |b|
    ensures SameOutside(Between(pre, a, post), Between(pre, b, post), |pre|, |pre| + |a|)
  {
  }
}
