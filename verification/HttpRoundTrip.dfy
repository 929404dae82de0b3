/** Printing a request and reading it back with the in-place tokeniser. */
module HttpRoundTrip {
  import opened Common
  import opened Scans
  import opened HttpTokens

  function Sp(n: nat): string { seq(n, _ => ' ') }

  /** A header with the optional white space around its value. */
  datatype Field = Field(key: string, value: string, before: nat, after: nat) {
    function Print(): string { key + ":" + Sp(before) + value + Sp(after) }
  }

  /** A request as it stands on the wire: its parts and every run of spaces between them. */
  datatype Message = Message(
    verb: string, url: string, version: string, gap1: nat, gap2: nat, trail: nat, fields: seq<Field>)
  {
    function FirstLine(): string {
      verb + Sp(gap1 + 1) + url + Sp(gap2 + 1) + version + Sp(trail)
    }

    function Print(): string {
      FirstLine() + CRLF + PrintFields(fields) + CRLF
    }

    /** The parts without the layout. */
    function Parts(): Request {
      Request(verb, url, version, seq(|fields|, i requires 0 <= i < |fields| => Header(fields[i].key, fields[i].value)))
    }
  }

  function PrintFields(fs: seq<Field>): string {
    if fs == [] then "" else fs[0].Print() + CRLF + PrintFields(fs[1..])
  }

  /** A header as section 3.2 of RFC 7230 lays it out, with spaces as the only white space around the value. */
  predicate FieldFramed(f: Field) {
    && Lacks(f.key, {':', '\r', NUL}) && Lacks(f.value, {'\r', NUL})
    && (f.value != "" ==> f.value[0] != ' ' && f.value[|f.value| - 1] != ' ')
  }

  /** The value begins with a colon right behind the key's colon. */
  predicate ColonFirst(f: Field) {
    f.before == 0 && f.value != "" && f.value[0] == ':'
  }

  /** No space inside the value, and no second colon right behind the key's. */
  predicate FieldSolid(f: Field) {
    ' ' !in f.value && !ColonFirst(f)
  }

  predicate LineFramed(m: Message) {
    Lacks(m.verb, {' ', '\r', NUL}) && Lacks(m.url, {' ', '\r', NUL}) && Lacks(m.version, {' ', '\r', NUL})
  }

  predicate Framed(m: Message) {
    && LineFramed(m)
    && m.url != "" && m.version != ""
    && AllFramed(m.fields)
  }

  predicate AllFramed(fs: seq<Field>) {
    forall i :: 0 <= i < |fs| ==> FieldFramed(fs[i])
  }

  predicate AllSolid(fs: seq<Field>) {
    forall i :: 0 <= i < |fs| ==> FieldSolid(fs[i])
  }

  predicate Solid(m: Message) {
    AllSolid(m.fields)
  }

  lemma PastSpaces(cells: string, p: nat, n: nat)
    requires At(cells, p, Sp(n)) && p + n < |cells| && cells[p + n] != ' '
    ensures Past(cells, p, ' ') == p + n
  {
    forall k | p <= k < p + n ensures cells[k] == ' ' {
      AtChar(cells, p, Sp(n), k - p);
    }
  }

  /** The C string s stands in cells at p, terminator included. */
  predicate Slice(cells: string, p: nat, s: string) {
    At(cells, p, s) && p + |s| < |cells| && cells[p + |s|] == NUL && Lacks(s, {NUL})
  }

  lemma SliceIsCString(cells: string, p: nat, s: string)
    requires Slice(cells, p, s)
    ensures CString(cells, p) == s
  {
    UntilAt(cells, p, s, {NUL});
    assert cells[p..p + |s|] == s;
  }

  /** The two vectors agree outside lo..hi. */
  predicate SameOutside(a: string, b: string, lo: nat, hi: nat) {
    |a| == |b| && forall k :: 0 <= k < |a| && !(lo <= k < hi) ==> a[k] == b[k]
  }

  lemma SameAt(a: string, b: string, lo: nat, hi: nat, k: nat)
    requires SameOutside(a, b, lo, hi) && k < |a| && !(lo <= k < hi)
    ensures |a| == |b| && a[k] == b[k]
  {
  }

  lemma AtOutside(a: string, b: string, lo: nat, hi: nat, p: nat, t: string)
    requires SameOutside(a, b, lo, hi) && At(a, p, t) && (p + |t| <= lo || hi <= p)
    ensures At(b, p, t)
  {
    forall k | 0 <= k < |t| ensures t[k] == b[p + k] {
      AtChar(a, p, t, k);
    }
  }

  lemma SliceBefore(a: string, b: string, p: nat, s: string, lo: nat, hi: nat)
    requires Slice(a, p, s) && SameOutside(a, b, lo, hi) && p + |s| < lo
    ensures Slice(b, p, s)
  {
    AtOutside(a, b, lo, hi, p, s);
  }

  /** Terminating the field f at the stop behind it makes f a C string. */
  lemma EndField(c: Cursor, f: string, stop: set<char>)
    requires At(c.cells, c.pos, f) && Lacks(f, stop + {NUL})
    requires c.pos + |f| < |c.cells| && c.cells[c.pos + |f|] in stop
    ensures Until(c.cells, c.pos, stop) == c.pos + |f|
    ensures Slice(c.cells[c.pos + |f| := NUL], c.pos, f)
  {
    UntilAt(c.cells, c.pos, f, stop);
    AtOutside(c.cells, c.cells[c.pos + |f| := NUL], c.pos + |f|, c.pos + |f| + 1, c.pos, f);
  }

  /** readField on a field, its separator, n more spaces and then something else. */
  lemma ReadSpacedField(c: Cursor, f: string, n: nat) returns (c': Cursor)
    requires At(c.cells, c.pos, f + Sp(n + 1)) && Lacks(f, {' ', NUL})
    requires c.pos + |f| + n + 1 < |c.cells| && c.cells[c.pos + |f| + n + 1] != ' '
    ensures ReadField(c, ' ') == Some(c') && c'.pos == c.pos + |f| + n + 1
    ensures SameOutside(c.cells, c'.cells, c.pos, c'.pos) && Slice(c'.cells, c.pos, f)
  {
    hide At, Until, Past, ReadField, Lacks;
    var sep := c.pos + |f|;
    AtSplit(c.cells, c.pos, f, Sp(n + 1));
    AtChar(c.cells, sep, Sp(n + 1), 0);
    assert {' '} + {NUL} == {' ', NUL};
    EndField(c, f, {' '});
    var cells := c.cells[sep := NUL];
    assert Sp(n + 1) == Sp(1) + Sp(n);
    AtSplit(c.cells, sep, Sp(1), Sp(n));
    AtOutside(c.cells, cells, sep, sep + 1, sep + 1, Sp(n));
    PastSpaces(cells, sep + 1, n);
    FieldSkips(c, ' ', sep, sep + n + 1);
    c' := Cursor(cells, sep + n + 1);
  }

  lemma LineEnd(cells: string, p: nat, f: string, n: nat)
    requires At(cells, p, f + Sp(n) + CRLF)
    ensures At(cells, p, f) && At(cells, p + |f|, Sp(n)) && p + |f| + n + 2 <= |cells|
    ensures cells[p + |f| + n] == '\r' && cells[p + |f| + n + 1] == '\n'
    ensures n > 0 ==> cells[p + |f|] == ' ' && At(cells, p + |f| + 1, Sp(n - 1))
  {
    AtSplit(cells, p, f + Sp(n), CRLF);
    AtSplit(cells, p, f, Sp(n));
    AtChar(cells, p + |f| + n, CRLF, 0);
    AtChar(cells, p + |f| + n, CRLF, 1);
    if n > 0 {
      AtChar(cells, p + |f|, Sp(n), 0);
      assert Sp(n) == Sp(1) + Sp(n - 1);
      AtSplit(cells, p + |f|, Sp(1), Sp(n - 1));
    }
  }

  /** readLastField on a field, n spaces and CRLF. */
  lemma ReadFieldAtLineEnd(c: Cursor, f: string, n: nat) returns (c': Cursor)
    requires At(c.cells, c.pos, f + Sp(n) + CRLF) && Lacks(f, {' ', '\r', NUL})
    ensures ReadLastField(c) == Some(c') && c'.pos == c.pos + |f| + n + 2
    ensures SameOutside(c.cells, c'.cells, c.pos, c'.pos) && Slice(c'.cells, c.pos, f)
  {
    LineEnd(c.cells, c.pos, f, n);
    c' := EndLine(c, f, n);
  }

  lemma EndLine(c: Cursor, f: string, n: nat) returns (c': Cursor)
    requires At(c.cells, c.pos, f) && Lacks(f, {' ', '\r', NUL}) && c.pos + |f| + n + 2 <= |c.cells|
    requires c.cells[c.pos + |f| + n] == '\r' && c.cells[c.pos + |f| + n + 1] == '\n'
    requires n > 0 ==> c.cells[c.pos + |f|] == ' ' && At(c.cells, c.pos + |f| + 1, Sp(n - 1))
    ensures ReadLastField(c) == Some(c') && c'.pos == c.pos + |f| + n + 2
    ensures SameOutside(c.cells, c'.cells, c.pos, c'.pos) && Slice(c'.cells, c.pos, f)
  {
    hide At, Until, Past, ReadLastField, Lacks, Slice;
    var sep := c.pos + |f|;
    assert c.cells[sep] in {'\r', ' '};
    assert Lacks(f, {'\r', ' '} + {NUL}) by {
      assert {'\r', ' '} + {NUL} == {' ', '\r', NUL};
    }
    EndField(c, f, {'\r', ' '});
    var cells := c.cells[sep := NUL];
    if n == 0 {
      LineSkipsNow(c, sep);
    } else {
      AtOutside(c.cells, cells, sep, sep + 1, sep + 1, Sp(n - 1));
      PastSpaces(cells, sep + 1, n - 1);
      LineSkips(c, sep, sep + n);
    }
    c' := Cursor(cells, sep + n + 2);
  }

  lemma LineSkips(c: Cursor, i: nat, j: nat)
    requires i == Until(c.cells, c.pos, {'\r', ' '}) < |c.cells| && j == Past(c.cells[i := NUL], i + 1, ' ')
    requires j < |c.cells| && c.cells[i := NUL][j] == '\r'
    ensures ReadLastField(c) == Some(Cursor(c.cells[i := NUL], j + 2))
  {
  }

  /** At the CR itself, the step over one byte behind it is the step over LF. */
  lemma LineSkipsNow(c: Cursor, i: nat)
    requires i == Until(c.cells, c.pos, {'\r', ' '}) && i + 1 < |c.cells| && c.cells[i + 1] == '\n'
    ensures ReadLastField(c) == Some(Cursor(c.cells[i := NUL], i + 2))
  {
    assert Past(c.cells[i := NUL], i + 1, ' ') == i + 1;
  }

  /** The spaces that stand before the value (all of them, if the value is empty), and those behind it. */
  function Lead(f: Field): nat { if f.value == "" then f.before + f.after else f.before }
  function Trail(f: Field): nat { if f.value == "" then 0 else f.after }

  function ValueLine(f: Field): string { f.value + Sp(Trail(f)) + CRLF }

  lemma FieldShape(f: Field)
    ensures f.Print() + CRLF == (f.key + ":") + (Sp(Lead(f)) + ValueLine(f))
  {
    if f.value == "" {
      assert Sp(f.before) + "" + Sp(f.after) == Sp(Lead(f));
      assert "" + Sp(0) + CRLF == CRLF;
    }
  }

  /** The value starts with something that is no space. */
  lemma ValueStart(cells: string, p: nat, f: Field)
    requires At(cells, p, Sp(Lead(f)) + ValueLine(f)) && FieldFramed(f)
    ensures var v := p + Lead(f);
            && At(cells, p, Sp(Lead(f))) && At(cells, v, ValueLine(f)) && v < |cells| && cells[v] != ' '
            && (cells[p] == ':' <==> ColonFirst(f))
  {
    var v := p + Lead(f);
    AtSplit(cells, p, Sp(Lead(f)), ValueLine(f));
    LineEnd(cells, v, f.value, Trail(f));
    if f.value != "" {
      AtChar(cells, v, f.value, 0);
    }
    if Lead(f) > 0 {
      AtChar(cells, p, Sp(Lead(f)), 0);
    }
  }

  /** readField on a key, its colon and something that is not another colon. */
  lemma ReadKey(c: Cursor, key: string) returns (c1: Cursor)
    requires At(c.cells, c.pos, key) && Lacks(key, {':', NUL})
    requires c.pos + |key| + 1 < |c.cells| && c.cells[c.pos + |key|] == ':' && c.cells[c.pos + |key| + 1] != ':'
    ensures ReadField(c, ':') == Some(c1) && c1.pos == c.pos + |key| + 1
    ensures SameOutside(c.cells, c1.cells, c.pos, c1.pos) && Slice(c1.cells, c.pos, key)
  {
    var k := c.pos + |key|;
    UntilAt(c.cells, c.pos, key, {':'});
    c1 := Cursor(c.cells[k := NUL], k + 1);
    assert Past(c1.cells, k + 1, ':') == k + 1;
    AtOutside(c.cells, c1.cells, k, k + 1, c.pos, key);
  }

  /** Where a header's parts stand. */
  lemma HeaderParts(cells: string, p: nat, f: Field)
    requires At(cells, p, f.Print() + CRLF) && FieldFramed(f)
    ensures var k := p + |f.key|; var v := k + 1 + Lead(f);
            && At(cells, p, f.key) && v < |cells| && cells[k] == ':' && (cells[k + 1] == ':' <==> ColonFirst(f))
            && At(cells, k + 1, Sp(Lead(f))) && At(cells, v, ValueLine(f)) && cells[v] != ' '
            && v + |ValueLine(f)| == p + |f.Print()| + 2
  {
    var k := p + |f.key|;
    FieldShape(f);
    AtSplit(cells, p, f.key + ":", Sp(Lead(f)) + ValueLine(f));
    AtSplit(cells, p, f.key, ":");
    AtChar(cells, k, ":", 0);
    ValueStart(cells, k + 1, f);
  }

  /** readField up to the colon, then the spaces: the pointer stands on the value. */
  lemma HeaderToValue(c: Cursor, f: Field) returns (c1: Cursor)
    requires At(c.cells, c.pos, f.Print() + CRLF) && FieldFramed(f) && !ColonFirst(f)
    ensures c.pos + |f.key| < c1.pos && c1.pos + |ValueLine(f)| == c.pos + |f.Print()| + 2
    ensures SameOutside(c.cells, c1.cells, c.pos, c1.pos)
    ensures At(c1.cells, c1.pos, ValueLine(f)) && Slice(c1.cells, c.pos, f.key)
    ensures ReadHeader(c) == match ReadLastField(c1)
                             case None => None
                             case Some(c2) => Some((Slot(c.pos, c1.pos), c2))
  {
    HeaderParts(c.cells, c.pos, f);
    var c0 := ReadKey(c, f.key);
    var v := c0.pos + Lead(f);
    AtOutside(c.cells, c0.cells, c.pos, c0.pos, c0.pos, Sp(Lead(f)));
    AtOutside(c.cells, c0.cells, c.pos, c0.pos, v, ValueLine(f));
    PastSpaces(c0.cells, c0.pos, Lead(f));
    HeaderByParts(c, c0.cells, c0.pos, v);
    c1 := Cursor(c0.cells, v);
  }

  lemma HeaderByParts(c: Cursor, cells: string, k: nat, v: nat)
    requires ReadField(c, ':') == Some(Cursor(cells, k)) && Past(cells, k, ' ') == v < |cells|
    ensures ReadHeader(c) == match ReadLastField(Cursor(cells, v))
                             case None => None
                             case Some(c2) => Some((Slot(c.pos, v), c2))
  {
  }

  /** A solid header is read exactly. */
  lemma ReadSolidHeader(c: Cursor, f: Field) returns (slot: Slot, c': Cursor)
    requires At(c.cells, c.pos, f.Print() + CRLF) && FieldFramed(f) && FieldSolid(f)
    ensures ReadHeader(c) == Some((slot, c'))
    ensures c'.pos == c.pos + |f.Print()| + 2 && SameOutside(c.cells, c'.cells, c.pos, c'.pos)
    ensures Slice(c'.cells, slot.key, f.key) && slot.key + |f.key| < c'.pos
    ensures Slice(c'.cells, slot.value, f.value) && slot.value + |f.value| < c'.pos
  {
    var c1 := HeaderToValue(c, f);
    c' := ReadFieldAtLineEnd(c1, f.value, Trail(f));
    slot := Slot(c.pos, c1.pos);
    SliceBefore(c1.cells, c'.cells, c.pos, f.key, c1.pos, c'.pos);
  }

  /** readLastField stops at the first space: only the part before it becomes the C string. */
  lemma ReadUpToSpace(c: Cursor, f: string, n: nat) returns (u: nat)
    requires At(c.cells, c.pos, f + Sp(n) + CRLF) && Lacks(f, {'\r', NUL})
    requires ' ' in f && ReadLastField(c).Some?
    ensures u < |f| && f[u] == ' ' && Slice(ReadLastField(c).value.cells, c.pos, f[..u])
    ensures c.pos + u < ReadLastField(c).value.pos
  {
    u := Until(f, 0, {' '});
    var i :| 0 <= i < |f| && f[i] == ' ';
    LineEnd(c.cells, c.pos, f, n);
    AtChar(c.cells, c.pos, f, u);
    EndField(c, f[..u], {'\r', ' '});
  }

  /** Of a value with a space inside, only the part before the space can ever be recovered. */
  lemma ReadCutHeader(c: Cursor, f: Field) returns (q: nat)
    requires At(c.cells, c.pos, f.Print() + CRLF) && FieldFramed(f) && !ColonFirst(f) && ' ' in f.value
    requires ReadHeader(c).Some?
    ensures TooShort(ReadHeader(c).value, f, q)
  {
    hide At, ReadHeader, ReadLastField, Lacks, Field.Print, SameOutside;
    var c1 := HeaderToValue(c, f);
    ValueLacks(f);
    var u := ReadUpToSpace(c1, f.value, Trail(f));
    q := c1.pos + u;
  }

  lemma ValueLacks(f: Field)
    requires FieldFramed(f)
    ensures Lacks(f.value, {'\r', NUL})
  {
  }

  /** The C string recorded for the value ends at q, which is too early. */
  predicate TooShort(r: (Slot, Cursor), f: Field, q: nat) {
    r.0.value <= q < r.0.value + |f.value| && q < r.1.pos && q < |r.1.cells| && r.1.cells[q] == NUL
  }

  /** readField skips every colon: of a value that begins with one right behind the key's, the front is lost. */
  lemma ReadColonHeader(c: Cursor, f: Field) returns (q: nat)
    requires At(c.cells, c.pos, f.Print() + CRLF) && FieldFramed(f) && ColonFirst(f)
    requires ReadHeader(c).Some?
    ensures TooShort(ReadHeader(c).value, f, q)
  {
    hide At, ReadHeader, ReadField, ReadLastField, Until, Past, FieldFramed, Field.Print;
    var k := c.pos + |f.key|;
    ColonParts(c.cells, c.pos, f);
    UntilAt(c.cells, c.pos, f.key, {':'});
    var cells := c.cells[k := NUL];
    var j := Past(cells, k + 1, ':');
    var v := Past(cells, j, ' ');
    AtOutside(c.cells, cells, k, k + 1, k + 1 + |f.value|, Sp(f.after));
    ValueLost(cells, k + 1, |f.value|, f.after, j, v);
    FieldSkips(c, ':', k, j);
    HeaderByParts(c, cells, j, v);
    LastFieldEnds(Cursor(cells, v));
    q := Until(cells, v, {'\r', ' '});
  }

  lemma FieldSkips(c: Cursor, ch: char, i: nat, j: nat)
    requires i == Until(c.cells, c.pos, {ch}) < |c.cells| && j == Past(c.cells[i := NUL], i + 1, ch) < |c.cells|
    ensures ReadField(c, ch) == Some(Cursor(c.cells[i := NUL], j))
  {
  }

  lemma LastFieldEnds(c: Cursor)
    requires ReadLastField(c).Some?
    ensures var q, r := Until(c.cells, c.pos, {'\r', ' '}), ReadLastField(c).value;
            q < |r.cells| && r.cells[q] == NUL && q < r.pos
  {
  }

  lemma ColonParts(cells: string, p: nat, f: Field)
    requires At(cells, p, f.Print() + CRLF) && FieldFramed(f) && ColonFirst(f)
    ensures var k := p + |f.key|; var e := k + 1 + |f.value|;
            && At(cells, p, f.key) && Lacks(f.key, {':'}) && e + f.after < |cells|
            && cells[k] == ':' && cells[k + 1] == ':' && At(cells, e, Sp(f.after)) && cells[e + f.after] == '\r'
  {
    HeaderParts(cells, p, f);
    LineEnd(cells, p + |f.key| + 1, f.value, f.after);
  }

  /** Skipping at least the first byte of a value of n bytes leaves a scan less than n bytes to its end. */
  lemma ValueLost(cells: string, s: nat, n: nat, after: nat, j: nat, v: nat)
    requires At(cells, s + n, Sp(after)) && s + n + after < |cells| && cells[s + n + after] == '\r'
    requires n > 0 && cells[s] == ':' && j == Past(cells, s, ':') && v == Past(cells, j, ' ')
    ensures j < |cells| && v < |cells|
    ensures var q := Until(cells, v, {'\r', ' '}); v <= q < v + n && q < |cells|
  {
    var r := s + n + after;
    forall k | s + n <= k < r ensures cells[k] == ' ' {
      AtChar(cells, s + n, Sp(after), k - s - n);
    }
    assert s < j <= v <= r;
    assert cells[s + n] in {'\r', ' '};
  }

  /** The slot's two C strings are the field's key and value, and end before pos. */
  predicate Reads(cells: string, slot: Slot, f: Field, pos: nat) {
    && Slice(cells, slot.key, f.key) && slot.key + |f.key| < pos
    && Slice(cells, slot.value, f.value) && slot.value + |f.value| < pos
  }

  lemma ReadsBefore(a: string, b: string, slot: Slot, f: Field, lo: nat, hi: nat)
    requires Reads(a, slot, f, lo) && SameOutside(a, b, lo, hi) && lo <= hi
    ensures Reads(b, slot, f, hi)
  {
    SliceBefore(a, b, slot.key, f.key, lo, hi);
    SliceBefore(a, b, slot.value, f.value, lo, hi);
  }

  /** The printed fields stand in cells from p on, and then the CR of the blank line. */
  predicate FieldsAt(cells: string, p: nat, fs: seq<Field>)
    decreases |fs|
  {
    if fs == [] then p < |cells| && cells[p] == '\r'
    else At(cells, p, fs[0].Print() + CRLF) && FieldsAt(cells, p + |fs[0].Print()| + 2, fs[1..])
  }

  lemma {:induction false} PrintedFieldsAt(cells: string, p: nat, fs: seq<Field>)
    requires At(cells, p, PrintFields(fs)) && p + |PrintFields(fs)| < |cells| && cells[p + |PrintFields(fs)|] == '\r'
    ensures FieldsAt(cells, p, fs)
    decreases |fs|
  {
    if fs != [] {
      AtSplit(cells, p, fs[0].Print() + CRLF, PrintFields(fs[1..]));
      PrintedFieldsAt(cells, p + |fs[0].Print()| + 2, fs[1..]);
    }
  }

  lemma {:induction false} FieldsAtOutside(a: string, b: string, lo: nat, hi: nat, p: nat, fs: seq<Field>)
    requires SameOutside(a, b, lo, hi) && hi <= p && FieldsAt(a, p, fs)
    ensures FieldsAt(b, p, fs)
    decreases |fs|
  {
    if fs != [] {
      AtOutside(a, b, lo, hi, p, fs[0].Print() + CRLF);
      FieldsAtOutside(a, b, lo, hi, p + |fs[0].Print()| + 2, fs[1..]);
    }
  }

  /** A printed field does not look like the blank line. */
  lemma FieldStart(cells: string, p: nat, f: Field)
    requires FieldFramed(f) && At(cells, p, f.Print() + CRLF)
    ensures p < |cells| && cells[p] != '\r'
  {
    AtChar(cells, p, f.Print() + CRLF, 0);
    assert (f.Print() + CRLF)[0] == if f.key == "" then ':' else f.key[0];
  }

  lemma HeadersFirst(c: Cursor, slot: Slot, c1: Cursor)
    requires c.pos < |c.cells| && c.cells[c.pos] != '\r' && ReadHeader(c) == Some((slot, c1))
    ensures ReadHeaders(c) == match ReadHeaders(c1)
                              case None => None
                              case Some((slots, c2)) => Some(([slot] + slots, c2))
  {
  }

  /** One round of the header loop on a solid field. */
  lemma NextField(c: Cursor, fs: seq<Field>) returns (slot: Slot, c1: Cursor)
    requires fs != [] && FieldFramed(fs[0]) && FieldSolid(fs[0]) && FieldsAt(c.cells, c.pos, fs)
    ensures ReadHeaders(c) == match ReadHeaders(c1)
                              case None => None
                              case Some((slots, c2)) => Some(([slot] + slots, c2))
    ensures c1.pos + |PrintFields(fs[1..])| == c.pos + |PrintFields(fs)|
    ensures c.pos <= c1.pos && SameOutside(c.cells, c1.cells, c.pos, c1.pos)
    ensures FieldsAt(c1.cells, c1.pos, fs[1..])
    ensures Reads(c1.cells, slot, fs[0], c1.pos)
  {
    FieldStart(c.cells, c.pos, fs[0]);
    slot, c1 := ReadSolidHeader(c, fs[0]);
    HeadersFirst(c, slot, c1);
    FieldsAtOutside(c.cells, c1.cells, c.pos, c1.pos, c1.pos, fs[1..]);
  }

  ghost predicate AllRead(cells: string, slots: seq<Slot>, fs: seq<Field>, pos: nat) {
    |slots| == |fs| && forall i :: 0 <= i < |fs| ==> Reads(cells, slots[i], fs[i], pos)
  }

  lemma AllReadCons(cells: string, slot: Slot, slots: seq<Slot>, fs: seq<Field>, pos: nat)
    requires fs != [] && Reads(cells, slot, fs[0], pos) && AllRead(cells, slots, fs[1..], pos)
    ensures AllRead(cells, [slot] + slots, fs, pos)
  {
    forall i | 0 <= i < |fs| ensures Reads(cells, ([slot] + slots)[i], fs[i], pos) {
      if i > 0 {
        assert fs[i] == fs[1..][i - 1] && ([slot] + slots)[i] == slots[i - 1];
      }
    }
  }

  /** The header loop reads solid fields exactly, in order, and stops at the blank line. */
  lemma {:induction false} ReadSolidFields(c: Cursor, fs: seq<Field>) returns (slots: seq<Slot>, c': Cursor)
    requires FieldsAt(c.cells, c.pos, fs)
    requires AllFramed(fs) && AllSolid(fs)
    ensures ReadHeaders(c) == Some((slots, c'))
    ensures c'.pos == c.pos + |PrintFields(fs)| && SameOutside(c.cells, c'.cells, c.pos, c'.pos)
    ensures AllRead(c'.cells, slots, fs, c'.pos)
    decreases |fs|
  {
    if fs == [] {
      slots, c' := [], c;
    } else {
      var slot, c1 := NextField(c, fs);
      var rest;
      rest, c' := ReadSolidFields(c1, fs[1..]);
      slots := [slot] + rest;
      ReadsBefore(c1.cells, c'.cells, slot, fs[0], c1.pos, c'.pos);
      AllReadCons(c'.cells, slot, rest, fs, c'.pos);
    }
  }

  /** Nothing before the pointer is rewritten any more. */
  lemma ReadHeaderKeeps(c: Cursor)
    requires ReadHeader(c).Some?
    ensures SameOutside(c.cells, ReadHeader(c).value.1.cells, c.pos, |c.cells|)
  {
  }

  lemma {:induction false} ReadHeadersKeeps(c: Cursor)
    requires ReadHeaders(c).Some?
    ensures SameOutside(c.cells, ReadHeaders(c).value.1.cells, c.pos, |c.cells|)
    decreases |c.cells| - c.pos
  {
    if c.cells[c.pos] != '\r' {
      ReadHeaderKeeps(c);
      ReadHeadersKeeps(ReadHeader(c).value.1);
    }
  }

  /** The i-th value that the loop recorded, if it got through, is not the i-th field's. */
  predicate Misread(r: Option<(seq<Slot>, Cursor)>, fs: seq<Field>, i: nat) {
    r.Some? ==> i < |fs| && i < |r.value.0| && CString(r.value.1.cells, r.value.0[i].value) != fs[i].value
  }

  lemma MisreadCons(c: Cursor, slot: Slot, c1: Cursor, fs: seq<Field>, k: nat) returns (i: nat)
    requires fs != [] && Misread(ReadHeaders(c1), fs[1..], k)
    requires ReadHeaders(c) == match ReadHeaders(c1)
                               case None => None
                               case Some((slots, c2)) => Some(([slot] + slots, c2))
    ensures Misread(ReadHeaders(c), fs, i)
  {
    i := k + 1;
  }

  /** If field w is not solid, the header loop cannot recover every value. */
  lemma {:induction false} ReadCutFields(c: Cursor, fs: seq<Field>, w: nat) returns (i: nat)
    requires FieldsAt(c.cells, c.pos, fs)
    requires AllFramed(fs)
    requires w < |fs| && !FieldSolid(fs[w])
    ensures Misread(ReadHeaders(c), fs, i)
    decreases |fs|
  {
    hide At, Slice, Lacks, PrintFields, CString, FieldFramed, FieldSolid, ReadHeaders, SameOutside, Reads;
    if ReadHeaders(c).None? {
      i := 0;
    } else if !FieldSolid(fs[0]) {
      CutFirst(c, fs);
      i := 0;
    } else {
      assert fs[1..][w - 1] == fs[w];
      var slot, c1 := NextField(c, fs);
      var k := ReadCutFields(c1, fs[1..], w - 1);
      i := MisreadCons(c, slot, c1, fs, k);
    }
  }

  lemma CutFirst(c: Cursor, fs: seq<Field>)
    requires FieldsAt(c.cells, c.pos, fs)
    requires fs != [] && FieldFramed(fs[0]) && !FieldSolid(fs[0]) && ReadHeaders(c).Some?
    ensures ReadHeaders(c).value.0 != []
    ensures CString(ReadHeaders(c).value.1.cells, ReadHeaders(c).value.0[0].value) != fs[0].value
  {
    FieldStart(c.cells, c.pos, fs[0]);
    var q;
    if ColonFirst(fs[0]) {
      q := ReadColonHeader(c, fs[0]);
    } else {
      q := ReadCutHeader(c, fs[0]);
    }
    var (slot, c1) := ReadHeader(c).value;
    HeadersFirst(c, slot, c1);
    var cells := ReadHeaders(c).value.1.cells;
    ReadHeadersKeeps(c1);
    SameAt(c1.cells, cells, c1.pos, |cells|, q);
    EndsBy(cells, slot.value, q);
  }

  lemma EndsBy(cells: string, p: nat, q: nat)
    requires p <= q < |cells| && cells[q] == NUL
    ensures |CString(cells, p)| <= q - p
  {
  }

  function FirstLineLength(m: Message): nat {
    |m.verb| + m.gap1 + 1 + |m.url| + m.gap2 + 1 + |m.version| + m.trail
  }

  /** The parts of the request line stand in cells from p on. */
  predicate FirstLineAt(cells: string, p: nat, m: Message) {
    var u := p + |m.verb| + m.gap1 + 1; var v := u + |m.url| + m.gap2 + 1;
    && At(cells, p, m.verb + Sp(m.gap1 + 1)) && u < |cells| && cells[u] != ' '
    && At(cells, u, m.url + Sp(m.gap2 + 1)) && v < |cells| && cells[v] != ' '
    && At(cells, v, m.version + Sp(m.trail) + CRLF)
  }

  lemma PrintedFirstLineAt(cells: string, p: nat, m: Message)
    requires At(cells, p, m.FirstLine() + CRLF) && Framed(m)
    ensures FirstLineAt(cells, p, m) && |m.FirstLine()| == FirstLineLength(m)
  {
    var u := p + |m.verb| + m.gap1 + 1;
    var a, b, d := m.verb + Sp(m.gap1 + 1), m.url + Sp(m.gap2 + 1), m.version + Sp(m.trail) + CRLF;
    assert m.FirstLine() + CRLF == a + (b + d);
    AtSplit(cells, p, a, b + d);
    AtSplit(cells, u, b, d);
    AtChar(cells, u, b, 0);
    AtChar(cells, u + |b|, d, 0);
  }

  /** Two spaced fields and one at the line's end. */
  lemma ReadThree(c: Cursor, f1: string, n1: nat, f2: string, n2: nat, f3: string, n3: nat)
    returns (c1: Cursor, c2: Cursor, c3: Cursor)
    requires Lacks(f1, {' ', NUL}) && Lacks(f2, {' ', NUL}) && Lacks(f3, {' ', '\r', NUL})
    requires var u := c.pos + |f1| + n1 + 1; var v := u + |f2| + n2 + 1;
             && At(c.cells, c.pos, f1 + Sp(n1 + 1)) && u < |c.cells| && c.cells[u] != ' '
             && At(c.cells, u, f2 + Sp(n2 + 1)) && v < |c.cells| && c.cells[v] != ' '
             && At(c.cells, v, f3 + Sp(n3) + CRLF)
    ensures ReadRequestLine(c) == Some((c1, c2, c3))
    ensures c1.pos == c.pos + |f1| + n1 + 1 && c2.pos == c1.pos + |f2| + n2 + 1 && c3.pos == c2.pos + |f3| + n3 + 2
    ensures SameOutside(c.cells, c3.cells, c.pos, c3.pos)
    ensures Slice(c3.cells, c.pos, f1) && Slice(c3.cells, c1.pos, f2) && Slice(c3.cells, c2.pos, f3)
  {
    hide At, SameOutside, Slice, Lacks;
    c1 := ReadSpacedField(c, f1, n1);
    AtOutside(c.cells, c1.cells, c.pos, c1.pos, c1.pos, f2 + Sp(n2 + 1));
    SameAt(c.cells, c1.cells, c.pos, c1.pos, c1.pos + |f2| + n2 + 1);
    c2 := ReadSpacedField(c1, f2, n2);
    SameInTurn(c.cells, c1.cells, c2.cells, c.pos, c1.pos, c2.pos);
    AtOutside(c.cells, c2.cells, c.pos, c2.pos, c2.pos, f3 + Sp(n3) + CRLF);
    c3 := ReadFieldAtLineEnd(c2, f3, n3);
    SameInTurn(c.cells, c2.cells, c3.cells, c.pos, c2.pos, c3.pos);
    SliceBefore(c1.cells, c2.cells, c.pos, f1, c1.pos, c2.pos);
    SliceBefore(c2.cells, c3.cells, c.pos, f1, c2.pos, c3.pos);
    SliceBefore(c2.cells, c3.cells, c1.pos, f2, c2.pos, c3.pos);
  }

  lemma SameInTurn(a: string, b: string, d: string, lo: nat, mid: nat, hi: nat)
    requires SameOutside(a, b, lo, mid) && SameOutside(b, d, mid, hi) && lo <= mid <= hi
    ensures SameOutside(a, d, lo, hi)
  {
  }

  /**
   What the codec hands to the tokeniser: the request line up to mid, the fields, and the blank
   line, whose last byte at end - 1 has become NUL.
   */
  predicate Delivered(cells: string, start: nat, m: Message, mid: nat, end: nat) {
    && mid == start + FirstLineLength(m) + 2 && end == mid + |PrintFields(m.fields)| + 2 <= |cells|
    && FirstLineAt(cells, start, m) && FieldsAt(cells, mid, m.fields) && cells[end - 1] == NUL
  }

  /** The three C strings of the request line, all in front of the pointer. */
  predicate LineRead(c: Cursor, verb: nat, url: nat, version: nat, m: Message) {
    && verb + |m.verb| < c.pos && url + |m.url| < c.pos && version + |m.version| < c.pos
    && Slice(c.cells, verb, m.verb) && Slice(c.cells, url, m.url) && Slice(c.cells, version, m.version)
  }

  /** The request line is read exactly. */
  lemma ReadFirstLine(c: Cursor, m: Message, mid: nat) returns (c1: Cursor, c2: Cursor, c3: Cursor)
    requires LineFramed(m) && FirstLineAt(c.cells, c.pos, m) && mid == c.pos + FirstLineLength(m) + 2
    ensures ReadRequestLine(c) == Some((c1, c2, c3))
    ensures c3.pos == mid && SameOutside(c.cells, c3.cells, c.pos, mid)
    ensures LineRead(c3, c.pos, c1.pos, c2.pos, m)
  {
    c1, c2, c3 := ReadThree(c, m.verb, m.gap1, m.url, m.gap2, m.version, m.trail);
  }

  lemma {:induction false} BlankLine(cells: string, p: nat, fs: seq<Field>, end: nat)
    requires FieldsAt(cells, p, fs) && end == p + |PrintFields(fs)|
    ensures end < |cells| && cells[end] == '\r'
    decreases |fs|
  {
    if fs != [] {
      BlankLine(cells, p + |fs[0].Print()| + 2, fs[1..], end);
    }
  }

  /** Headers, blank line and NUL of a solid request. */
  lemma RestSolid(start: nat, url: nat, version: nat, c: Cursor, fs: seq<Field>, p: nat) returns (t: Tokens)
    requires FieldsAt(c.cells, c.pos, fs) && p == c.pos + |PrintFields(fs)|
    requires AllFramed(fs) && AllSolid(fs)
    requires p + 1 < |c.cells| && c.cells[p + 1] == NUL
    ensures ReadRest(start, url, version, c) == Some(t)
    ensures t.verb == start && t.url == url && t.version == version
    ensures t.end == p + 2 && SameOutside(c.cells, t.cells, c.pos, t.end)
    ensures AllRead(t.cells, t.headers, fs, p)
  {
    var slots, c4 := ReadSolidFields(c, fs);
    BlankLine(c.cells, c.pos, fs, p);
    t := RestByParts(start, url, version, c, slots, c4);
  }

  lemma RestByParts(start: nat, url: nat, version: nat, c: Cursor, slots: seq<Slot>, c4: Cursor)
    returns (t: Tokens)
    requires ReadHeaders(c) == Some((slots, c4)) && c4.pos + 1 < |c.cells|
    requires SameOutside(c.cells, c4.cells, c.pos, c4.pos)
    requires c.cells[c4.pos] == '\r' && c.cells[c4.pos + 1] == NUL
    ensures t == Tokens(start, url, version, slots, c4.cells, c4.pos + 2)
    ensures ReadRest(start, url, version, c) == Some(t) && SameOutside(c.cells, t.cells, c.pos, t.end)
  {
    hide ReadHeaders, SameOutside, Until;
    var p := c4.pos;
    SameAt(c.cells, c4.cells, c.pos, p, p);
    SameAt(c.cells, c4.cells, c.pos, p, p + 1);
    NulNext(c4.cells, p);
    SameWider(c.cells, c4.cells, c.pos, p, p + 2);
    t := Tokens(start, url, version, slots, c4.cells, c4.pos + 2);
  }

  lemma NulNext(cells: string, p: nat)
    requires p + 1 < |cells| && cells[p] != NUL && cells[p + 1] == NUL
    ensures Until(cells, p, {NUL}) == p + 1
  {
  }

  lemma SameWider(a: string, b: string, lo: nat, hi: nat, wider: nat)
    requires SameOutside(a, b, lo, hi) && hi <= wider
    ensures SameOutside(a, b, lo, wider)
  {
  }

  /** A solid request is recovered exactly, and exactly its bytes are consumed and rewritten. */
  lemma TokeniseSolid(cells: string, start: nat, m: Message, mid: nat, end: nat) returns (t: Tokens)
    requires Framed(m) && Solid(m) && Delivered(cells, start, m, mid, end)
    ensures Tokenise(cells, start) == Some(t) && Resolve(t) == m.Parts()
    ensures t.end == end && SameOutside(cells, t.cells, start, end)
  {
    hide At, Slice, FieldsAt, Lacks, FirstLineAt, FirstLineLength, PrintFields, SameOutside, AllRead, LineRead;
    hide AllFramed, AllSolid, LineFramed, ReadRest, ReadRequestLine, Resolve, Message.Parts, Reads;
    var c1, c2, c3 := ReadFirstLine(Cursor(cells, start), m, mid);
    SameAt(cells, c3.cells, start, mid, end - 1);
    FieldsAtOutside(cells, c3.cells, start, mid, mid, m.fields);
    t := RestSolid(start, c1.pos, c2.pos, c3, m.fields, end - 2);
    LineThenRest(cells, start, c1.pos, c2.pos, c3, t, m);
  }

  lemma LineThenRest(cells: string, start: nat, url: nat, version: nat, c3: Cursor, t: Tokens, m: Message)
    requires SameOutside(cells, c3.cells, start, c3.pos) && SameOutside(c3.cells, t.cells, c3.pos, t.end)
    requires start <= c3.pos <= t.end - 2 && AllRead(t.cells, t.headers, m.fields, t.end - 2)
    requires LineRead(c3, start, url, version, m)
    requires t.verb == start && t.url == url && t.version == version
    ensures Resolve(t) == m.Parts() && SameOutside(cells, t.cells, start, t.end)
  {
    hide At;
    SliceBefore(c3.cells, t.cells, start, m.verb, c3.pos, t.end);
    SliceBefore(c3.cells, t.cells, url, m.url, c3.pos, t.end);
    SliceBefore(c3.cells, t.cells, version, m.version, c3.pos, t.end);
    ResolveSolid(t, m, t.end - 2);
  }

  lemma ResolveSolid(t: Tokens, m: Message, pos: nat)
    requires Slice(t.cells, t.verb, m.verb) && Slice(t.cells, t.url, m.url) && Slice(t.cells, t.version, m.version)
    requires AllRead(t.cells, t.headers, m.fields, pos)
    ensures Resolve(t) == m.Parts()
  {
    SliceIsCString(t.cells, t.verb, m.verb);
    SliceIsCString(t.cells, t.url, m.url);
    SliceIsCString(t.cells, t.version, m.version);
    forall i | 0 <= i < |m.fields|
      ensures Resolve(t).headers[i] == m.Parts().headers[i]
    {
      assert Reads(t.cells, t.headers[i], m.fields[i], pos);
      SliceIsCString(t.cells, t.headers[i].key, m.fields[i].key);
      SliceIsCString(t.cells, t.headers[i].value, m.fields[i].value);
    }
    assert Resolve(t).headers == m.Parts().headers;
  }

  /** If some field is not solid, what is recovered, if anything, is another request. */
  lemma CutIsMisread(cells: string, start: nat, m: Message, mid: nat, end: nat, w: nat)
    requires Framed(m) && Delivered(cells, start, m, mid, end)
    requires w < |m.fields| && !FieldSolid(m.fields[w])
    ensures Tokenise(cells, start).Some? ==> Resolve(Tokenise(cells, start).value) != m.Parts()
  {
    hide At, Slice, FieldsAt, FirstLineAt, FirstLineLength, PrintFields;
    hide AllFramed, LineFramed, SameOutside, LineRead, FieldSolid;
    var c1, c2, c3 := ReadFirstLine(Cursor(cells, start), m, mid);
    FieldsAtOutside(cells, c3.cells, start, mid, mid, m.fields);
    var i := ReadCutFields(c3, m.fields, w);
    if Tokenise(cells, start).Some? {
      assert Resolve(Tokenise(cells, start).value).headers[i] != m.Parts().headers[i];
    }
  }

  /** The request is recovered exactly when no header value has a space inside or a colon right behind the key's. */
  lemma RecoveredExactlyWhen(cells: string, start: nat, m: Message, mid: nat, end: nat)
    requires Framed(m) && Delivered(cells, start, m, mid, end)
    ensures Tokenise(cells, start).Some? && Resolve(Tokenise(cells, start).value) == m.Parts() <==> Solid(m)
  {
    hide Resolve, Tokenise;
    if Solid(m) {
      var _ := TokeniseSolid(cells, start, m, mid, end);
    } else {
      var w :| 0 <= w < |m.fields| && !FieldSolid(m.fields[w]);
      CutIsMisread(cells, start, m, mid, end, w);
    }
  }
}
