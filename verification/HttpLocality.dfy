/**
 The tokeniser has no length to go by: it runs until it meets what it looks for.  Whether it stays
 within the readable bytes, and what it then finds, depends on those bytes alone.
 */
module HttpLocality {
  import opened Common
  import opened Scans
  import opened Buffers
  import opened HttpTokens
  import opened HttpRoundTrip
  import opened HttpStream

  /** text between what was discarded and what is not yet written. */
  function Between(pre: string, text: string, post: string): string { pre + text + post }

  lemma BetweenAt(pre: string, text: string, post: string)
    ensures |Between(pre, text, post)| == |pre| + |text| + |post|
    ensures forall k :: 0 <= k < |text| ==> Between(pre, text, post)[|pre| + k] == text[k]
    ensures forall k :: |pre| <= k < |pre| + |text| ==> Between(pre, text, post)[k] == text[k - |pre|]
  {
  }

  lemma BetweenSet(pre: string, text: string, post: string, i: nat, ch: char)
    requires i < |text|
    ensures |pre| + i < |Between(pre, text, post)|
    ensures Between(pre, text, post)[|pre| + i := ch] == Between(pre, text[i := ch], post)
  {
  }

  lemma UntilBetween(pre: string, text: string, post: string, p: nat, stop: set<char>)
    ensures var r := Until(Between(pre, text, post), |pre| + p, stop);
            if Until(text, p, stop) < |text| then r == |pre| + Until(text, p, stop) else r >= |pre| + |text|
  {
    hide Between;
    BetweenAt(pre, text, post);
    var cells := Between(pre, text, post);
    var r, e := Until(cells, |pre| + p, stop), Until(text, p, stop);
    if p < |text| && r < |pre| + |text| {
      assert text[r - |pre|] in stop && e <= r - |pre|;
    }
    if e < |text| {
      assert p <= e && cells[|pre| + e] in stop;
    }
  }

  lemma PastBetween(pre: string, text: string, post: string, p: nat, ch: char)
    ensures Past(text, p, ch) <= |text|
    ensures var r := Past(Between(pre, text, post), |pre| + p, ch);
            if Past(text, p, ch) < |text| then r == |pre| + Past(text, p, ch) else r >= |pre| + |text|
  {
    hide Between;
    BetweenAt(pre, text, post);
    var cells := Between(pre, text, post);
    var r, e := Past(cells, |pre| + p, ch), Past(text, p, ch);
    if p < |text| && r < |pre| + |text| {
      assert text[r - |pre|] != ch && e <= r - |pre|;
    }
    if e < |text| {
      assert p <= e && cells[|pre| + e] != ch;
    }
  }

  /** The cursor on text, seen in the whole vector. */
  function Placed(pre: string, c: Cursor, post: string): Cursor {
    Cursor(Between(pre, c.cells, post), |pre| + c.pos)
  }

  /** What a reader does in the whole vector: the same as on text, or it leaves text. */
  predicate Local(pre: string, r: Option<Cursor>, post: string, whole: Option<Cursor>, size: nat) {
    if r.Some? then whole == Some(Placed(pre, r.value, post))
    else whole.Some? ==> whole.value.pos >= |pre| + size
  }

  lemma ReadFieldLocal(pre: string, c: Cursor, post: string, ch: char)
    ensures Local(pre, ReadField(c, ch), post, ReadField(Placed(pre, c, post), ch), |c.cells|)
  {
    hide Between, Until, Past;
    var i := Until(c.cells, c.pos, {ch});
    BetweenAt(pre, c.cells, post);
    UntilBetween(pre, c.cells, post, c.pos, {ch});
    if i < |c.cells| {
      BetweenSet(pre, c.cells, post, i, NUL);
      BetweenAt(pre, c.cells[i := NUL], post);
      PastBetween(pre, c.cells[i := NUL], post, i + 1, ch);
    }
  }

  lemma ReadLastFieldLocal(pre: string, c: Cursor, post: string)
    ensures Local(pre, ReadLastField(c), post, ReadLastField(Placed(pre, c, post)), |c.cells|)
  {
    hide Between, Until, Past;
    var i := Until(c.cells, c.pos, {'\r', ' '});
    BetweenAt(pre, c.cells, post);
    UntilBetween(pre, c.cells, post, c.pos, {'\r', ' '});
    if i < |c.cells| {
      BetweenSet(pre, c.cells, post, i, NUL);
      BetweenAt(pre, c.cells[i := NUL], post);
      PastBetween(pre, c.cells[i := NUL], post, i + 1, ' ');
    }
  }

  function Shifted(slot: Slot, d: nat): Slot { Slot(d + slot.key, d + slot.value) }

  function AllShifted(slots: seq<Slot>, d: nat): seq<Slot> {
    seq(|slots|, i requires 0 <= i < |slots| => Shifted(slots[i], d))
  }

  /** One round of the header loop on c, with the spaces skipped to v. */
  lemma HeaderByValue(c: Cursor)
    ensures ReadHeader(c) ==
            match ReadField(c, ':')
            case None => None
            case Some(c1) => ReadValue(c.pos, c1)
  {
  }

  function ReadValue(key: nat, c1: Cursor): Option<(Slot, Cursor)> {
    var v := Past(c1.cells, c1.pos, ' ');
    if v == |c1.cells| then None
    else
      match ReadLastField(Cursor(c1.cells, v))
      case None => None
      case Some(c2) => Some((Slot(key, v), c2))
  }

  lemma ValueBehind(key: nat, c1: Cursor)
    requires ReadValue(key, c1).Some?
    ensures ReadValue(key, c1).value.1.pos > c1.pos
  {
  }

  lemma ReadValueLocal(pre: string, key: nat, c: Cursor, post: string)
    ensures var r, whole := ReadValue(key, c), ReadValue(|pre| + key, Placed(pre, c, post));
            if r.Some? then whole == Some((Shifted(r.value.0, |pre|), Placed(pre, r.value.1, post)))
            else whole.Some? ==> whole.value.1.pos >= |pre| + |c.cells|
  {
    hide Between, Past, ReadLastField;
    BetweenAt(pre, c.cells, post);
    PastBetween(pre, c.cells, post, c.pos, ' ');
    ReadLastFieldLocal(pre, Cursor(c.cells, Past(c.cells, c.pos, ' ')), post);
  }

  lemma ReadHeaderLocal(pre: string, c: Cursor, post: string)
    ensures var r, whole := ReadHeader(c), ReadHeader(Placed(pre, c, post));
            if r.Some? then whole == Some((Shifted(r.value.0, |pre|), Placed(pre, r.value.1, post)))
            else whole.Some? ==> whole.value.1.pos >= |pre| + |c.cells|
  {
    hide Between, ReadField, ReadHeader, ReadValue;
    HeaderByValue(c);
    HeaderByValue(Placed(pre, c, post));
    ReadFieldLocal(pre, c, post, ':');
    if ReadField(c, ':').Some? {
      var c1 := ReadField(c, ':').value;
      ReadValueLocal(pre, c.pos, c1, post);
      assert ReadHeader(Placed(pre, c, post)) == ReadValue(|pre| + c.pos, Placed(pre, c1, post));
    } else if ReadField(Placed(pre, c, post), ':').Some? {
      var d1 := ReadField(Placed(pre, c, post), ':').value;
      if ReadValue(|pre| + c.pos, d1).Some? {
        ValueBehind(|pre| + c.pos, d1);
      }
    }
  }

  lemma {:induction false} ReadHeadersLocal(pre: string, c: Cursor, post: string)
    ensures var r, whole := ReadHeaders(c), ReadHeaders(Placed(pre, c, post));
            if r.Some? then whole == Some((AllShifted(r.value.0, |pre|), Placed(pre, r.value.1, post)))
            else whole.Some? ==> whole.value.1.pos >= |pre| + |c.cells|
    decreases |c.cells| - c.pos
  {
    hide Between, ReadHeader;
    BetweenAt(pre, c.cells, post);
    assert AllShifted([], |pre|) == [];
    if c.pos < |c.cells| && c.cells[c.pos] != '\r' {
      ReadHeaderLocal(pre, c, post);
      if ReadHeader(c).Some? {
        var (slot, c1) := ReadHeader(c).value;
        ReadHeadersLocal(pre, c1, post);
        if ReadHeaders(c1).Some? {
          ShiftedCons(slot, ReadHeaders(c1).value.0, |pre|);
        }
      }
    }
  }

  lemma ShiftedCons(slot: Slot, slots: seq<Slot>, d: nat)
    ensures AllShifted([slot] + slots, d) == [Shifted(slot, d)] + AllShifted(slots, d)
  {
  }

  lemma ReadRequestLineLocal(pre: string, c: Cursor, post: string)
    ensures var r, whole := ReadRequestLine(c), ReadRequestLine(Placed(pre, c, post));
            if r.Some? then
              var (c1, c2, c3) := r.value;
              whole == Some((Placed(pre, c1, post), Placed(pre, c2, post), Placed(pre, c3, post)))
            else whole.Some? ==> whole.value.2.pos >= |pre| + |c.cells|
  {
    hide Between, ReadField, ReadLastField;
    ReadFieldLocal(pre, c, post, ' ');
    if ReadField(c, ' ').Some? {
      var c1 := ReadField(c, ' ').value;
      ReadFieldLocal(pre, c1, post, ' ');
      if ReadField(c1, ' ').Some? {
        ReadLastFieldLocal(pre, ReadField(c1, ' ').value, post);
      }
    }
  }

  /** The tokens found in text, seen in the whole vector. */
  function PlacedTokens(pre: string, t: Tokens, post: string): Tokens {
    Tokens(|pre| + t.verb, |pre| + t.url, |pre| + t.version, AllShifted(t.headers, |pre|),
           Between(pre, t.cells, post), |pre| + t.end)
  }

  lemma ReadRestLocal(pre: string, start: nat, url: nat, version: nat, c: Cursor, post: string)
    ensures var r := ReadRest(start, url, version, c);
            var whole := ReadRest(|pre| + start, |pre| + url, |pre| + version, Placed(pre, c, post));
            if r.Some? then whole == Some(PlacedTokens(pre, r.value, post))
            else whole.Some? ==> whole.value.end > |pre| + |c.cells|
  {
    hide Between, ReadHeaders, Until;
    ReadHeadersLocal(pre, c, post);
    if ReadHeaders(c).Some? {
      var c4 := ReadHeaders(c).value.1;
      BetweenAt(pre, c4.cells, post);
      UntilBetween(pre, c4.cells, post, c4.pos, {NUL});
    } else if ReadHeaders(Placed(pre, c, post)).Some? {
      var d4 := ReadHeaders(Placed(pre, c, post)).value.1;
      UntilBehind(d4.cells, d4.pos, {NUL});
    }
  }

  lemma UntilBehind(cells: string, p: nat, stop: set<char>)
    ensures Until(cells, p, stop) >= p || Until(cells, p, stop) == |cells|
  {
  }

  lemma RestBeyond(start: nat, url: nat, version: nat, c: Cursor, size: nat)
    requires c.pos >= size && ReadRest(start, url, version, c).Some?
    ensures ReadRest(start, url, version, c).value.end > size
  {
  }

  /** In the whole vector the tokeniser finds what it finds in text alone, or it ends behind text. */
  lemma TokeniseLocal(pre: string, text: string, post: string)
    ensures var r, whole := Tokenise(text, 0), Tokenise(Between(pre, text, post), |pre|);
            if r.Some? then whole == Some(PlacedTokens(pre, r.value, post))
            else whole.Some? ==> whole.value.end > |pre| + |text|
  {
    hide Between, ReadRequestLine, ReadRest;
    var c := Cursor(text, 0);
    ReadRequestLineLocal(pre, c, post);
    var whole := ReadRequestLine(Placed(pre, c, post));
    if ReadRequestLine(c).Some? {
      var (c1, c2, c3) := ReadRequestLine(c).value;
      ReadRestLocal(pre, 0, c1.pos, c2.pos, c3, post);
    } else if whole.Some? {
      var (d1, d2, d3) := whole.value;
      if ReadRest(|pre|, d1.pos, d2.pos, d3).Some? {
        RestBeyond(|pre|, d1.pos, d2.pos, d3, |pre| + |text|);
      }
    }
  }

  /** Every recorded pointer is in front of the end. */
  lemma {:induction false} SlotsInFront(c: Cursor)
    requires ReadHeaders(c).Some?
    ensures var (slots, c') := ReadHeaders(c).value;
            forall i :: 0 <= i < |slots| ==> slots[i].key <= c'.pos && slots[i].value <= c'.pos
    decreases |c.cells| - c.pos
  {
    hide ReadHeader;
    if c.cells[c.pos] != '\r' {
      SlotInFront(c);
      SlotsInFront(ReadHeader(c).value.1);
    }
  }

  lemma SlotInFront(c: Cursor)
    requires ReadHeader(c).Some?
    ensures var (slot, c1) := ReadHeader(c).value; slot.key <= c1.pos && slot.value <= c1.pos
  {
  }

  /** The pointers of t are in front of its end, where the last NUL is. */
  predicate Ended(t: Tokens) {
    && 0 < t.end <= |t.cells| && t.cells[t.end - 1] == NUL
    && t.verb < t.end && t.url < t.end && t.version < t.end
    && forall i :: 0 <= i < |t.headers| ==> t.headers[i].key < t.end && t.headers[i].value < t.end
  }

  lemma RestEnds(start: nat, url: nat, version: nat, c: Cursor)
    requires start <= c.pos && url <= c.pos && version <= c.pos && ReadRest(start, url, version, c).Some?
    ensures Ended(ReadRest(start, url, version, c).value)
  {
    hide ReadHeaders;
    SlotsInFront(c);
  }

  lemma TokensEnd(cells: string, start: nat)
    requires Tokenise(cells, start).Some?
    ensures Ended(Tokenise(cells, start).value)
  {
    hide ReadRest, Ended, ReadField, ReadLastField;
    var (c1, c2, c3) := ReadRequestLine(Cursor(cells, start)).value;
    RestEnds(start, c1.pos, c2.pos, c3);
  }

  lemma CStringLocal(pre: string, text: string, post: string, p: nat, e: nat)
    requires p <= e < |text| && text[e] == NUL
    ensures CString(Between(pre, text, post), |pre| + p) == CString(text, p)
  {
    hide Between;
    var u := Until(text, p, {NUL});
    BetweenAt(pre, text, post);
    UntilBetween(pre, text, post, p, {NUL});
    BetweenSlice(pre, text, post, p, u);
  }

  lemma BetweenSlice(pre: string, text: string, post: string, p: nat, u: nat)
    requires p <= u <= |text|
    ensures |pre| + u <= |Between(pre, text, post)|
    ensures Between(pre, text, post)[|pre| + p..|pre| + u] == text[p..u]
  {
  }

  lemma ResolveLocal(pre: string, t: Tokens, post: string)
    requires Ended(t)
    ensures Resolve(PlacedTokens(pre, t, post)) == Resolve(t)
  {
    hide Between, CString;
    var e := t.end - 1;
    CStringLocal(pre, t.cells, post, t.verb, e);
    CStringLocal(pre, t.cells, post, t.url, e);
    CStringLocal(pre, t.cells, post, t.version, e);
    var whole := PlacedTokens(pre, t, post);
    forall i | 0 <= i < |t.headers| ensures Resolve(whole).headers[i] == Resolve(t).headers[i] {
      CStringLocal(pre, t.cells, post, t.headers[i].key, e);
      CStringLocal(pre, t.cells, post, t.headers[i].value, e);
    }
    assert Resolve(whole).headers == Resolve(t).headers;
  }

  /** The readable bytes on their own. */
  function Bare(text: string): View { View(text, 0, |text|) }

  lemma BareText(text: string)
    ensures Bare(text).Valid() && Bare(text).Text() == text
  {
  }

  /** What one read event comes to, once the blank line is found. */
  lemma ServeFound(v: View, i: nat)
    requires v.Valid() && FirstOccurrence(v.Text(), BLANK_LINE) == Some(i) && v.read + i + 3 < |v.cells|
    ensures Serve(v) ==
            match Tokenise(v.cells[v.read + i + 3 := NUL], v.read)
            case None => Fault
            case Some(t) => if t.end > v.write then Fault else Handled(Resolve(t), View(t.cells, t.end, v.write))
  {
    hide Tokenise, Resolve, FirstOccurrence;
  }

  lemma ViewParts(v: View)
    requires v.Valid()
    ensures v.cells == Between(v.cells[..v.read], v.Text(), v.cells[v.write..])
    ensures |v.Text()| == v.write - v.read
  {
  }

  lemma BlankLineFits(text: string, i: nat)
    requires FirstOccurrence(text, BLANK_LINE) == Some(i)
    ensures i + 4 <= |text|
  {
  }

  /**
   Nothing outside the readable bytes matters: Serve waits, faults or handles the same request as on
   these bytes alone, consumes as many of them, and changes none of the others.
   */
  lemma ServeIsLocal(v: View)
    requires v.Valid()
    ensures Bare(v.Text()).Valid()
    ensures match Serve(Bare(v.Text()))
            case NeedMore => Serve(v) == NeedMore
            case Fault => Serve(v) == Fault
            case Handled(r, w) =>
              Serve(v) == Handled(r, View(Between(v.cells[..v.read], w.cells, v.cells[v.write..]), v.read + w.read, v.write))
  {
    hide Between, Tokenise, Resolve, FirstOccurrence, Serve, View.Text, Ended;
    var text := v.Text();
    BareText(text);
    if FirstOccurrence(text, BLANK_LINE).None? {
      ServeWaits(v);
      ServeWaits(Bare(text));
    } else {
      var i := FirstOccurrence(text, BLANK_LINE).value;
      BlankLineFits(text, i);
      ServeFoundLocal(v, text, i);
    }
  }

  lemma ServeWaits(v: View)
    requires v.Valid() && FirstOccurrence(v.Text(), BLANK_LINE).None?
    ensures Serve(v) == NeedMore
  {
  }

  lemma ServeFoundLocal(v: View, text: string, i: nat)
    requires v.Valid() && text == v.Text() && FirstOccurrence(text, BLANK_LINE) == Some(i) && i + 4 <= |text|
    ensures Bare(text).Valid()
    ensures match Serve(Bare(text))
            case NeedMore => false
            case Fault => Serve(v) == Fault
            case Handled(r, w) =>
              Serve(v) == Handled(r, View(Between(v.cells[..v.read], w.cells, v.cells[v.write..]), v.read + w.read, v.write))
    ensures Serve(Bare(text)).Fault? <==> Tokenise(text[i + 3 := NUL], 0).None?
  {
    hide Between, Tokenise, Resolve, FirstOccurrence, Serve, View.Text;
    ViewParts(v);
    BareText(text);
    ServeBare(text, i);
    ServeWhole(v, v.cells[..v.read], text, v.cells[v.write..], i);
  }

  /** What the tokens of the readable bytes mean for the whole. */
  lemma ServeBare(text: string, i: nat)
    requires FirstOccurrence(text, BLANK_LINE) == Some(i) && i + 4 <= |text|
    ensures Bare(text).Valid()
    ensures Serve(Bare(text)) == match Tokenise(text[i + 3 := NUL], 0)
                                 case None => Fault
                                 case Some(t) => Handled(Resolve(t), View(t.cells, t.end, |text|))
  {
    hide Tokenise, Resolve, FirstOccurrence, Serve;
    BareText(text);
    ServeFound(Bare(text), i);
  }

  lemma ServeWhole(v: View, pre: string, text: string, post: string, i: nat)
    requires v.Valid() && text == v.Text() && FirstOccurrence(text, BLANK_LINE) == Some(i) && i + 4 <= |text|
    requires v.cells == Between(pre, text, post) && v.read == |pre| && v.write == |pre| + |text|
    ensures Serve(v) == match Tokenise(text[i + 3 := NUL], 0)
                        case None => Fault
                        case Some(t) =>
                          Handled(Resolve(t), View(Between(pre, t.cells, post), |pre| + t.end, v.write))
  {
    hide Between, Tokenise, Resolve, FirstOccurrence, Serve, Ended, View.Text;
    var marked := text[i + 3 := NUL];
    BetweenSet(pre, text, post, i + 3, NUL);
    ServeFound(v, i);
    TokeniseLocal(pre, marked, post);
    if Tokenise(marked, 0).Some? {
      TokensEnd(marked, 0);
      ResolveLocal(pre, Tokenise(marked, 0).value, post);
    }
  }

  /**
   The tokeniser leaves the readable bytes exactly when a blank line is there and it cannot come to
   an end within them, whatever surrounds them in the vector.
   */
  lemma FaultsExactlyWhen(v: View)
    requires v.Valid()
    ensures Serve(v).Fault? <==>
              match FirstOccurrence(v.Text(), BLANK_LINE)
              case None => false
              case Some(i) => Tokenise(v.Text()[i + 3 := NUL], 0).None?
  {
    hide Tokenise, FirstOccurrence, Serve, View.Text;
    ServeIsLocal(v);
    if FirstOccurrence(v.Text(), BLANK_LINE).None? {
      ServeWaits(v);
    } else {
      var i := FirstOccurrence(v.Text(), BLANK_LINE).value;
      BlankLineFits(v.Text(), i);
      ServeFoundLocal(v, v.Text(), i);
    }
  }

  /** Four bytes are enough. */
  lemma BlankLineFaults(v: View)
    requires v.Valid() && v.Text() == BLANK_LINE
    ensures Serve(v) == Fault
  {
    assert OccursAt(BLANK_LINE, BLANK_LINE, 0);
    assert FirstOccurrence(BLANK_LINE, BLANK_LINE) == Some(0);
    var marked := BLANK_LINE[3 := NUL];
    assert Until(marked, 0, {' '}) == 4;
    FaultsExactlyWhen(v);
  }
}
