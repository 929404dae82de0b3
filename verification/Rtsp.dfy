/**
 The RTSP example's parser, printer and request handler.  A C string is its text without the
 final NUL; a pointer p <= |text| into it, with the NUL at |text|.
 */
module Rtsp {
  import opened Common
  import opened Scans

  /** The first index at or after p whose byte is not in chars. */
  function PastAny(text: string, p: nat, chars: set<char>): (r: nat)
    ensures p <= |text| ==> p <= r <= |text|
    ensures r < |text| ==> text[r] !in chars
    ensures forall k :: p <= k < r && k < |text| ==> text[k] in chars
    decreases |text| - p
  {
    if p >= |text| then |text| else if text[p] !in chars then p else PastAny(text, p + 1, chars)
  }

  /** parseFieldAndBlanks: the field up to a space, and the pointer behind the spaces. */
  function FieldAndBlanks(text: string, p: nat): (r: (string, nat))
    requires p <= |text|
    ensures p <= r.1 <= |text|
  {
    var i := Until(text, p, {' '});
    (text[p..i], PastAny(text, i, {' '}))
  }

  /** parseFieldAndColon: the field up to a colon; empty, without moving, if the line ends first. */
  function FieldAndColon(text: string, p: nat): (r: (string, nat))
    requires p <= |text|
    ensures p <= r.1 <= |text| && (r.0 != "" ==> p < r.1)
  {
    var i := Until(text, p, {':', '\r'});
    if i < |text| && text[i] == '\r' then ("", i) else (text[p..i], PastAny(text, i, {':', ' '}))
  }

  /** parseFieldAndCRLF: the field up to CR, and the pointer behind CR and LF. */
  function FieldAndCRLF(text: string, p: nat): (r: (string, nat))
    requires p <= |text|
    ensures p <= r.1 <= |text|
  {
    var i := Until(text, p, {'\r'});
    var j := PastAny(text, i, {' '});
    var k := if j < |text| && text[j] == '\r' then j + 1 else j;
    (text[p..i], if k < |text| && text[k] == '\n' then k + 1 else k)
  }

  type Pair = (string, string)

  /** The header loop: key and value of every line up to an empty key. */
  function Pairs(text: string, p: nat): (r: (seq<Pair>, nat))
    requires p <= |text|
    ensures p <= r.1 <= |text|
    decreases |text| - p
  {
    var (key, p1) := FieldAndColon(text, p);
    if key == "" then ([], p1)
    else
      var (value, p2) := FieldAndCRLF(text, p1);
      var (rest, p3) := Pairs(text, p2);
      ([(key, value)] + rest, p3)
  }

  /** i is the first index from p on whose byte is in chars, or the text's end. */
  predicate FirstOf(text: string, p: nat, chars: set<char>, i: nat) {
    && p <= i <= |text| && (i < |text| ==> text[i] in chars)
    && forall k :: p <= k < i ==> text[k] !in chars
  }

  /** j is the first index from i on whose byte is not in chars, or the text's end. */
  predicate EndOfRun(text: string, i: nat, chars: set<char>, j: nat) {
    && i <= j <= |text| && (j < |text| ==> text[j] !in chars)
    && forall k :: i <= k < j ==> text[k] in chars
  }

  /** On any text: the bytes before the first space, and the pointer behind the spaces. */
  lemma BlanksExactly(text: string, p: nat, i: nat, j: nat)
    requires FirstOf(text, p, {' '}, i) && EndOfRun(text, i, {' '}, j)
    ensures FieldAndBlanks(text, p) == (text[p..i], j)
  {
  }

  /** On any text: the bytes before the first colon or CR; at a CR the field is empty and the pointer stays there. */
  lemma ColonExactly(text: string, p: nat, i: nat, j: nat)
    requires FirstOf(text, p, {':', '\r'}, i) && EndOfRun(text, i, {':', ' '}, j)
    ensures FieldAndColon(text, p) == if i < |text| && text[i] == '\r' then ("", i) else (text[p..i], j)
  {
  }

  /** On any text: the bytes before the first CR, and the pointer behind it and an LF that follows it. */
  lemma CRLFExactly(text: string, p: nat, i: nat)
    requires FirstOf(text, p, {'\r'}, i)
    ensures FieldAndCRLF(text, p) ==
            (text[p..i], if i == |text| then i else if i + 1 < |text| && text[i + 1] == '\n' then i + 2 else i + 1)
  {
  }

  /** A last line without a colon is a key with an empty value. */
  lemma UnendedLine(text: string, p: nat)
    requires p < |text| && forall k :: p <= k < |text| ==> text[k] !in {':', '\r'}
    ensures Pairs(text, p) == ([(text[p..], "")], |text|)
  {
    ColonExactly(text, p, |text|, |text|);
    CRLFExactly(text, |text|, |text|);
    ColonExactly(text, |text|, |text|, |text|);
    assert text[p..|text|] == text[p..] && text[|text|..|text|] == "";
    assert Pairs(text, |text|) == ([], |text|);
    assert [(text[p..], "")] + [] == [(text[p..], "")];
  }

  /** unordered_map::insert, pair after pair: a key that is present keeps its value. */
  function Inserted(pairs: seq<Pair>): map<string, string> {
    if pairs == [] then map[]
    else
      var m, pair := Inserted(pairs[..|pairs| - 1]), pairs[|pairs| - 1];
      if pair.0 in m then m else m[pair.0 := pair.1]
  }

  datatype RtspRequest = RtspRequest(verb: string, URI: string, version: string, headers: map<string, string>)

  datatype RtspResponse = RtspResponse(
    version: string, status_code: string, status_cause: string, headers: map<string, string>, body: string)

  function ParseRequest(text: string, p: nat): (r: (RtspRequest, nat))
    requires p <= |text|
    ensures p <= r.1 <= |text|
  {
    var (verb, p1) := FieldAndBlanks(text, p);
    var (uri, p2) := FieldAndBlanks(text, p1);
    var (version, p3) := FieldAndCRLF(text, p2);
    var (pairs, p4) := Pairs(text, p3);
    (RtspRequest(verb, uri, version, Inserted(pairs)), p4)
  }

  function StartLine(r: RtspResponse): string {
    r.version + " " + r.status_code + " " + r.status_cause
  }

  function PrintPairs(pairs: seq<Pair>): string {
    if pairs == [] then "" else LineOf(pairs[0]) + PrintPairs(pairs[1..])
  }

  /** A response's text, when iteration meets the headers in the given order. */
  function ResponseText(r: RtspResponse, order: seq<Pair>): string {
    StartLine(r) + CRLF + PrintPairs(order) + CRLF + (if r.body == "" then "" else r.body + CRLF)
  }

  /** sprintf writes the start line, CRLF and a NUL into char[512]. */
  predicate StartLineFits(r: RtspResponse) { |StartLine(r)| + 3 <= 512 }

  /** strifyResponse.  None: sprintf writes past the end of its array, which the code does not prevent. */
  function Strify(r: RtspResponse, order: seq<Pair>): Option<string> {
    if StartLineFits(r) then Some(ResponseText(r, order)) else None
  }

  ghost predicate Met(pairs: seq<Pair>, k: string) {
    exists i :: 0 <= i < |pairs| && pairs[i].0 == k
  }

  /** order meets every entry of m exactly once. */
  ghost predicate Lists(order: seq<Pair>, m: map<string, string>) {
    && (forall i :: 0 <= i < |order| ==> order[i].0 in m && m[order[i].0] == order[i].1)
    && (forall i, j :: 0 <= i < j < |order| ==> order[i].0 != order[j].0)
    && (forall k :: k in m ==> Met(order, k))
  }

  /** A header that the parser can take apart again. */
  predicate PairFramed(pair: Pair) {
    && pair.0 != "" && Lacks(pair.0, {':', '\r', NUL}) && Lacks(pair.1, {'\r', NUL})
    && (pair.1 != "" ==> pair.1[0] != ':' && pair.1[0] != ' ')
  }

  predicate AllPairsFramed(pairs: seq<Pair>) {
    forall i :: 0 <= i < |pairs| ==> PairFramed(pairs[i])
  }

  /** Fields the parser can take apart again. */
  predicate Printable(r: RtspResponse) {
    && Lacks(r.version, {' ', NUL}) && Lacks(r.status_code, {' ', NUL}) && r.status_code != ""
    && Lacks(r.status_cause, {'\r', NUL}) && (r.status_cause != "" ==> r.status_cause[0] != ' ')
  }

  ghost predicate HeadersFramed(m: map<string, string>) {
    forall k :: k in m ==> PairFramed((k, m[k]))
  }

  /** Each key keeps the value of its first pair, and only the pairs' keys are there. */
  lemma {:induction false} FirstValueKept(pairs: seq<Pair>, k: string)
    ensures k in Inserted(pairs) <==> Met(pairs, k)
    ensures forall i :: 0 <= i < |pairs| && pairs[i].0 == k && (forall j :: 0 <= j < i ==> pairs[j].0 != k) ==>
              Inserted(pairs)[k] == pairs[i].1
    decreases |pairs|
  {
    if pairs != [] {
      var fewer := pairs[..|pairs| - 1];
      FirstValueKept(fewer, k);
      assert forall i :: 0 <= i < |fewer| ==> pairs[i] == fewer[i];
    }
  }

  /** A listing of a map, inserted pair by pair, is the map. */
  lemma ListedIsMap(order: seq<Pair>, m: map<string, string>)
    requires Lists(order, m)
    ensures Inserted(order) == m
  {
    forall k ensures k in Inserted(order) <==> k in m {
      FirstValueKept(order, k);
    }
    forall k | k in m ensures Inserted(order)[k] == m[k] {
      FirstValueKept(order, k);
      var i :| 0 <= i < |order| && order[i].0 == k;
    }
  }

  function LineOf(pair: Pair): string { pair.0 + ": " + pair.1 + CRLF }

  /** The parts of a printed header line stand in text from p on. */
  predicate PairAt(text: string, p: nat, pair: Pair) {
    var k := p + |pair.0|; var e := k + 2 + |pair.1|;
    && At(text, p, pair.0) && At(text, k + 2, pair.1) && e + 2 <= |text|
    && text[k] == ':' && text[k + 1] == ' ' && text[e] == '\r' && text[e + 1] == '\n'
  }

  lemma LineParts(text: string, p: nat, pair: Pair)
    requires At(text, p, LineOf(pair))
    ensures PairAt(text, p, pair)
  {
    var k := p + |pair.0|;
    AtSplit(text, p, pair.0 + ": " + pair.1, CRLF);
    AtSplit(text, p, pair.0 + ": ", pair.1);
    AtSplit(text, p, pair.0, ": ");
    AtChar(text, k, ": ", 0);
    AtChar(text, k, ": ", 1);
    AtChar(text, k + 2 + |pair.1|, CRLF, 0);
    AtChar(text, k + 2 + |pair.1|, CRLF, 1);
  }

  lemma TextAt(text: string, p: nat, t: string)
    requires At(text, p, t)
    ensures text[p..p + |t|] == t
  {
  }

  lemma ParseKey(text: string, p: nat, key: string)
    requires At(text, p, key) && Lacks(key, {':', '\r'})
    requires var k := p + |key|; k + 2 <= |text| && text[k] == ':' && text[k + 1] == ' '
    requires p + |key| + 2 < |text| ==> text[p + |key| + 2] !in {':', ' '}
    ensures FieldAndColon(text, p) == (key, p + |key| + 2)
  {
    var k := p + |key|;
    UntilAt(text, p, key, {':', '\r'});
    TextAt(text, p, key);
    assert PastAny(text, k + 2, {':', ' '}) == k + 2;
    assert PastAny(text, k + 1, {':', ' '}) == k + 2;
  }

  /** A field that ends at CR, LF: true of header values and of the start line's last field. */
  lemma ParseToCRLF(text: string, p: nat, value: string)
    requires At(text, p, value) && Lacks(value, {'\r'})
    requires var e := p + |value|; e + 2 <= |text| && text[e] == '\r' && text[e + 1] == '\n'
    ensures FieldAndCRLF(text, p) == (value, p + |value| + 2)
  {
    UntilAt(text, p, value, {'\r'});
    TextAt(text, p, value);
  }

  /** A printed header line, wherever it stands, is parsed exactly. */
  lemma ParsePair(text: string, p: nat, pair: Pair)
    requires PairAt(text, p, pair) && PairFramed(pair)
    ensures p + |pair.0| + 2 <= |text|
    ensures var v := p + |pair.0| + 2;
            FieldAndColon(text, p) == (pair.0, v) && FieldAndCRLF(text, v) == (pair.1, v + |pair.1| + 2)
  {
    var v := p + |pair.0| + 2;
    if pair.1 != "" {
      AtChar(text, v, pair.1, 0);
    }
    ParseKey(text, p, pair.0);
    ParseToCRLF(text, v, pair.1);
  }

  /** Printed header lines, and then the CR of the blank line. */
  predicate PairsAt(text: string, p: nat, pairs: seq<Pair>)
    decreases |pairs|
  {
    if pairs == [] then p < |text| && text[p] == '\r'
    else PairAt(text, p, pairs[0]) && PairsAt(text, p + |LineOf(pairs[0])|, pairs[1..])
  }

  lemma {:induction false} PrintedPairsAt(text: string, p: nat, pairs: seq<Pair>)
    requires At(text, p, PrintPairs(pairs)) && p + |PrintPairs(pairs)| < |text| && text[p + |PrintPairs(pairs)|] == '\r'
    ensures PairsAt(text, p, pairs)
    decreases |pairs|
  {
    hide At, PairAt, LineOf;
    if pairs != [] {
      AtSplit(text, p, LineOf(pairs[0]), PrintPairs(pairs[1..]));
      LineParts(text, p, pairs[0]);
      PrintedPairsAt(text, p + |LineOf(pairs[0])|, pairs[1..]);
    }
  }

  lemma {:induction false} ParsePairs(text: string, p: nat, pairs: seq<Pair>)
    requires PairsAt(text, p, pairs) && AllPairsFramed(pairs)
    ensures p <= |text| && Pairs(text, p) == (pairs, p + |PrintPairs(pairs)|)
    decreases |pairs|
  {
    hide At, PairAt, FieldAndColon, FieldAndCRLF;
    if pairs == [] {
      assert FieldAndColon(text, p) == ("", p) by { EmptyLine(text, p); }
    } else {
      ParsePair(text, p, pairs[0]);
      ParsePairs(text, p + |LineOf(pairs[0])|, pairs[1..]);
      assert [pairs[0]] + pairs[1..] == pairs;
    }
  }

  lemma EmptyLine(text: string, p: nat)
    requires p < |text| && text[p] == '\r'
    ensures FieldAndColon(text, p) == ("", p)
  {
  }

  /** The parts of a start line stand in text from 0 on, and its three fields are c, d and e. */
  predicate StartAt(text: string, r: RtspResponse) {
    var a := |r.version|; var b := a + 1 + |r.status_code|; var e := b + 1 + |r.status_cause|;
    && At(text, 0, r.version) && At(text, a + 1, r.status_code) && At(text, b + 1, r.status_cause)
    && e + 2 <= |text| && text[a] == ' ' && text[b] == ' ' && text[e] == '\r' && text[e + 1] == '\n'
  }

  lemma PrintedStartAt(text: string, r: RtspResponse)
    requires At(text, 0, StartLine(r) + CRLF)
    ensures StartAt(text, r) && |StartLine(r)| == |r.version| + 1 + |r.status_code| + 1 + |r.status_cause|
  {
    hide At;
    var a, b := |r.version|, |r.version| + 1 + |r.status_code|;
    var e := b + 1 + |r.status_cause|;
    AtSplit(text, 0, StartLine(r), CRLF);
    AtSplit(text, 0, r.version + " " + r.status_code + " ", r.status_cause);
    AtSplit(text, 0, r.version + " " + r.status_code, " ");
    AtSplit(text, 0, r.version + " ", r.status_code);
    AtSplit(text, 0, r.version, " ");
    AtChar(text, a, " ", 0);
    AtChar(text, b, " ", 0);
    AtChar(text, e, CRLF, 0);
    AtChar(text, e, CRLF, 1);
    AtEnd(text, e, CRLF);
  }

  lemma AtEnd(text: string, p: nat, t: string)
    requires At(text, p, t)
    ensures p + |t| <= |text|
  {
  }

  lemma ParseWord(text: string, p: nat, word: string)
    requires At(text, p, word) && Lacks(word, {' '})
    requires var e := p + |word|; e + 1 < |text| && text[e] == ' ' && text[e + 1] != ' '
    ensures FieldAndBlanks(text, p) == (word, p + |word| + 1)
  {
    var e := p + |word|;
    UntilAt(text, p, word, {' '});
    TextAt(text, p, word);
    assert PastAny(text, e + 1, {' '}) == e + 1;
  }

  /** The three fields of the start line. */
  lemma ParseStart(text: string, r: RtspResponse)
    requires StartAt(text, r) && Printable(r)
    ensures var a := |r.version| + 1; var b := a + |r.status_code| + 1;
            && b <= |text| && FieldAndBlanks(text, 0) == (r.version, a)
            && FieldAndBlanks(text, a) == (r.status_code, b)
            && FieldAndCRLF(text, b) == (r.status_cause, b + |r.status_cause| + 2)
  {
    var a := |r.version| + 1;
    var b := a + |r.status_code| + 1;
    AtChar(text, a, r.status_code, 0);
    if r.status_cause != "" {
      AtChar(text, b, r.status_cause, 0);
    }
    ParseWord(text, 0, r.version);
    ParseWord(text, a, r.status_code);
    ParseToCRLF(text, b, r.status_cause);
  }

  lemma AtSelf(a: string, b: string, c: string, d: string)
    ensures At(a + b + c + d, 0, a) && At(a + b + c + d, |a|, b) && At(a + b + c + d, |a| + |b|, c)
  {
  }

  /** Where the parts of a response's text stand. */
  lemma TextParts(r: RtspResponse, order: seq<Pair>)
    ensures var text, line, pairs := ResponseText(r, order), StartLine(r) + CRLF, PrintPairs(order);
            && At(text, 0, line) && At(text, |line|, pairs) && At(text, |line| + |pairs|, CRLF)
            && |line| + |pairs| + 2 <= |text| && text[|line| + |pairs| + 2..] == BodyText(r)
  {
    hide At, StartLine, PrintPairs;
    var line, pairs := StartLine(r) + CRLF, PrintPairs(order);
    var body := if r.body == "" then "" else r.body + CRLF;
    AtSelf(line, pairs, CRLF, body);
    LastPart(line + pairs + CRLF, body);
  }

  lemma LastPart(a: string, b: string)
    ensures (a + b)[|a|..] == b
  {
  }

  /** What stands behind the blank line: the body on a line of its own, if there is one. */
  function BodyText(r: RtspResponse): string {
    if |r.body| > 0 then r.body + "\r\n" else ""
  }

  /** What follows the start line of a printed response. */
  lemma PrintedParts(r: RtspResponse, order: seq<Pair>)
    ensures var text := ResponseText(r, order); var p := |StartLine(r)| + 2;
            && StartAt(text, r) && PairsAt(text, p, order)
            && p == |r.version| + |r.status_code| + |r.status_cause| + 4
            && p + |PrintPairs(order)| + 2 <= |text|
            && text[p + |PrintPairs(order)|..p + |PrintPairs(order)| + 2] == CRLF
            && text[p + |PrintPairs(order)| + 2..] == BodyText(r)
  {
    hide At, StartAt, PairsAt, ResponseText, PrintPairs;
    var text, end := ResponseText(r, order), |StartLine(r)| + 2 + |PrintPairs(order)|;
    TextParts(r, order);
    AtEnd(text, end, CRLF);
    AtChar(text, end, CRLF, 0);
    TextAt(text, end, CRLF);
    PrintedStartAt(text, r);
    PrintedPairsAt(text, |StartLine(r)| + 2, order);
  }

  lemma ListingFramed(order: seq<Pair>, m: map<string, string>)
    requires Lists(order, m) && HeadersFramed(m)
    ensures AllPairsFramed(order)
  {
    forall i | 0 <= i < |order| ensures PairFramed(order[i]) {
      assert order[i] == (order[i].0, m[order[i].0]);
    }
  }

  /** The parser takes the text of a printable response apart again. */
  lemma ParseOfText(r: RtspResponse, order: seq<Pair>)
    requires Printable(r) && HeadersFramed(r.headers) && Lists(order, r.headers)
    ensures var text := ResponseText(r, order); var (request, p) := ParseRequest(text, 0);
            && request == RtspRequest(r.version, r.status_code, r.status_cause, r.headers)
            && p + 2 <= |text| && text[p..p + 2] == CRLF && text[p + 2..] == BodyText(r)
  {
    hide StartAt, PairsAt, ResponseText, StartLine, PrintPairs, FieldAndBlanks, FieldAndCRLF, Pairs, Printable, Inserted;
    PrintedParts(r, order);
    ParseStart(ResponseText(r, order), r);
    ListingFramed(order, r.headers);
    ParsePairs(ResponseText(r, order), |StartLine(r)| + 2, order);
    ListedIsMap(order, r.headers);
  }

  /**
   Printing and parsing are inverse for every order in which the headers are met: the three
   start-line fields and the header map come back, and the parser stops at the blank line.
   Printing itself succeeds exactly when the start line fits its array.
   */
  lemma ParseOfStrify(r: RtspResponse, order: seq<Pair>)
    requires Printable(r) && HeadersFramed(r.headers) && Lists(order, r.headers)
    ensures Strify(r, order).Some? <==> |r.version| + |r.status_code| + |r.status_cause| <= 507
    ensures Strify(r, order).Some? ==>
              var text := Strify(r, order).value; var (request, p) := ParseRequest(text, 0);
              && request == RtspRequest(r.version, r.status_code, r.status_cause, r.headers)
              && p + 2 <= |text| && text[p..p + 2] == CRLF && text[p + 2..] == BodyText(r)
  {
    hide ResponseText, ParseRequest, Printable, HeadersFramed, Lists;
    ParseOfText(r, order);
  }

  // ---- handling -------------------------------------------------------------------------------

  datatype State = NONE | PLAYING | PAUSED | DESTORYED

  datatype SessionState = SessionState(id: string, URI: string, version: string, cur_state: State)

  type Sessions = map<string, SessionState>

  /** A header value that is no line break and does not start with a separator. */
  predicate CleanValue(v: string) {
    Lacks(v, {'\r', NUL}) && (v != "" ==> v[0] != ':' && v[0] != ' ')
  }

  /**
   handleRequest, given the formatted time and a new session id; None where an assertion of the
   code fails.  The session map is returned beside the response.
   */
  function Handle(request: RtspRequest, sessions: Sessions, now: string, newId: string): Option<(RtspResponse, Sessions)> {
    if "CSeq" !in request.headers then None
    else
      var ok := RtspResponse(request.version, "200", "OK", map["CSeq" := request.headers["CSeq"]], "");
      if request.verb == "OPTIONS" then
        Some((ok.(headers := ok.headers["Public" := "DESCRIBE, SETUP, TEARDOWN, PLAY, PAUSE"]), sessions))
      else if request.verb == "SETUP" then
        if newId in sessions || "Transport" !in request.headers then None
        else
          Some((ok.(headers := ok.headers["Date" := now]["Session" := newId]
                                 ["Transport" := request.headers["Transport"] + ";server_port=554-555"]),
                sessions[newId := SessionState(newId, request.URI, request.version, NONE)]))
      else if request.verb == "TEARDOWN" then
        if "Session" !in request.headers || request.headers["Session"] !in sessions then None
        else Some((ok, sessions - {request.headers["Session"]}))
      else Some((ok.(status_code := "455", status_cause := "Method Not Valid in This State"), sessions))
  }

  /** Whatever the text, every parsed key and value could be printed and parsed again. */
  lemma {:induction false} ParsedPairsFramed(text: string, p: nat)
    requires p <= |text| && Lacks(text, {NUL})
    ensures AllPairsFramed(Pairs(text, p).0)
    decreases |text| - p
  {
    var (key, p1) := FieldAndColon(text, p);
    if key != "" {
      var (value, p2) := FieldAndCRLF(text, p1);
      ParsedPairsFramed(text, p2);
      assert PairFramed((key, value));
    }
  }

  lemma InsertedFramed(pairs: seq<Pair>)
    requires AllPairsFramed(pairs)
    ensures HeadersFramed(Inserted(pairs))
    decreases |pairs|
  {
  }

  lemma ParsedFramed(text: string, p: nat)
    requires p <= |text| && Lacks(text, {NUL})
    ensures HeadersFramed(ParseRequest(text, p).0.headers) && Lacks(ParseRequest(text, p).0.version, {'\r', NUL})
  {
    hide FieldAndBlanks, FieldAndCRLF, Pairs, Inserted, HeadersFramed, Lacks;
    var (_, p1) := FieldAndBlanks(text, p);
    var (_, p2) := FieldAndBlanks(text, p1);
    var (_, p3) := FieldAndCRLF(text, p2);
    LineLacks(text, p2);
    ParsedPairsFramed(text, p3);
    InsertedFramed(Pairs(text, p3).0);
  }

  lemma LineLacks(text: string, p: nat)
    requires p <= |text| && Lacks(text, {NUL})
    ensures Lacks(FieldAndCRLF(text, p).0, {'\r', NUL})
  {
  }

  /** What the two kinds of start-line field can be, whatever the text. */
  lemma ParsedWord(text: string, p: nat)
    requires p <= |text| && Lacks(text, {NUL})
    ensures var (word, next) := FieldAndBlanks(text, p);
            && Lacks(word, {' ', NUL}) && (next < |text| ==> text[next] != ' ')
            && (p < |text| && text[p] != ' ' ==> word != "")
  {
  }

  lemma ParsedLine(text: string, p: nat)
    requires p <= |text| && Lacks(text, {NUL}) && (p < |text| ==> text[p] != ' ')
    ensures var value := FieldAndCRLF(text, p).0; Lacks(value, {'\r', NUL}) && (value != "" ==> value[0] != ' ')
  {
  }

  /** The spaces behind a word end in front of any other byte that follows. */
  lemma WordEndsBefore(text: string, p: nat, e: nat)
    requires p <= e < |text| && text[e] != ' ' && (exists k :: p <= k < e && text[k] == ' ')
    ensures FieldAndBlanks(text, p).1 <= e
  {
  }

  /** What the parser returns for a printed response can be the response only if that is printable. */
  lemma RecoveredIsPrintable(r: RtspResponse, order: seq<Pair>)
    requires Lacks(ResponseText(r, order), {NUL})
    requires ParseRequest(ResponseText(r, order), 0).0 == RtspRequest(r.version, r.status_code, r.status_cause, r.headers)
    ensures Printable(r) && HeadersFramed(r.headers)
  {
    hide ResponseText, StartLine, PairsAt, HeadersFramed, FieldAndBlanks, FieldAndCRLF, Inserted, Pairs;
    var text := ResponseText(r, order);
    PrintedParts(r, order);
    ParsedFramed(text, 0);
    ParsedWord(text, 0);
    var p1 := FieldAndBlanks(text, 0).1;
    assert text[|r.version|] == ' ';
    WordEndsBefore(text, 0, |r.version| + |r.status_code| + |r.status_cause| + 2);
    ParsedWord(text, p1);
    ParsedLine(text, FieldAndBlanks(text, p1).1);
  }

  /**
   A response comes back from printer and parser exactly when its start line fits the printer's
   array and its parts can be told apart again.
   */
  lemma RecoveredExactlyWhen(r: RtspResponse, order: seq<Pair>)
    requires Lists(order, r.headers) && Lacks(ResponseText(r, order), {NUL})
    ensures Strify(r, order).Some?
            && ParseRequest(Strify(r, order).value, 0).0
               == RtspRequest(r.version, r.status_code, r.status_cause, r.headers)
       <==> StartLineFits(r) && Printable(r) && HeadersFramed(r.headers)
  {
    hide ParseRequest, ResponseText, Printable, HeadersFramed, Lists;
    if Printable(r) && HeadersFramed(r.headers) {
      ParseOfText(r, order);
    } else if ParseRequest(ResponseText(r, order), 0).0
              == RtspRequest(r.version, r.status_code, r.status_cause, r.headers) {
      RecoveredIsPrintable(r, order);
    }
  }

  /** A word and its blanks end at the latest at the first space that a non-space follows. */
  lemma WordSkips(text: string, p: nat, e: nat)
    requires p <= e && e + 1 < |text| && text[e] == ' ' && text[e + 1] != ' '
    ensures p <= |text| && FieldAndBlanks(text, p).1 <= e + 1
  {
  }

  lemma LineSkips(text: string, p: nat, e: nat)
    requires p <= e && e + 1 < |text| && text[e] == '\r' && text[e + 1] == '\n'
    requires forall k :: p <= k < e ==> text[k] != '\r'
    ensures FieldAndCRLF(text, p).1 == e + 2
  {
    assert Until(text, p, {'\r'}) == e;
  }

  lemma NoCRInStart(text: string, r: RtspResponse, k: nat)
    requires StartAt(text, r) && Lacks(r.version, {'\r', NUL})
    requires Lacks(r.status_code, {'\r', NUL}) && Lacks(r.status_cause, {'\r', NUL})
    requires k < |r.version| + |r.status_code| + |r.status_cause| + 2
    ensures text[k] != '\r'
  {
    var a := |r.version|;
    var b := a + 1 + |r.status_code|;
    if k < a {
      AtChar(text, 0, r.version, k);
    } else if a < k < b {
      AtChar(text, a + 1, r.status_code, k - a - 1);
    } else if b < k {
      AtChar(text, b + 1, r.status_cause, k - b - 1);
    }
  }

  /** Status fields as handleRequest sets them. */
  predicate CleanStatus(r: RtspResponse) {
    && Lacks(r.status_code, {'\r', NUL}) && Lacks(r.status_cause, {'\r', NUL})
    && r.status_code != "" && r.status_code[0] != ' ' && r.status_cause != "" && r.status_cause[0] != ' '
  }

  /** Whatever spaces the version has, the three fields together end exactly at the start line's end. */
  lemma StartLineSkipped(text: string, r: RtspResponse)
    requires StartAt(text, r) && Lacks(r.version, {'\r', NUL}) && CleanStatus(r)
    ensures var p1 := FieldAndBlanks(text, 0).1; var p2 := FieldAndBlanks(text, p1).1;
            FieldAndCRLF(text, p2).1 == |r.version| + |r.status_code| + |r.status_cause| + 4
  {
    hide FieldAndBlanks, FieldAndCRLF;
    var a := |r.version|;
    var b := a + 1 + |r.status_code|;
    var e := b + 1 + |r.status_cause|;
    AtChar(text, a + 1, r.status_code, 0);
    AtChar(text, b + 1, r.status_cause, 0);
    WordSkips(text, 0, a);
    var p1 := FieldAndBlanks(text, 0).1;
    WordSkips(text, p1, b);
    var p2 := FieldAndBlanks(text, p1).1;
    forall k | p2 <= k < e ensures text[k] != '\r' {
      NoCRInStart(text, r, k);
    }
    LineSkips(text, p2, e);
  }

  lemma FramedLookup(m: map<string, string>, k: string)
    requires HeadersFramed(m) && k in m
    ensures PairFramed((k, m[k]))
  {
  }

  lemma FramedInsert(m: map<string, string>, k: string, v: string)
    requires HeadersFramed(m) && PairFramed((k, v))
    ensures HeadersFramed(m[k := v])
  {
  }

  lemma TransportFramed(v: string)
    requires PairFramed(("Transport", v))
    ensures PairFramed(("Transport", v + ";server_port=554-555"))
  {
    PortLacks();
  }

  lemma PortLacks()
    ensures Lacks(";server_port=554-555", {'\r', NUL})
  {
  }

  lemma OwnHeadersFramed(now: string, newId: string)
    requires CleanValue(now) && CleanValue(newId)
    ensures PairFramed(("Date", now)) && PairFramed(("Session", newId))
    ensures PairFramed(("Public", "DESCRIBE, SETUP, TEARDOWN, PLAY, PAUSE"))
  {
    PublicFramed();
    DateFramed(now);
    SessionFramed(newId);
  }

  lemma PublicFramed()
    ensures PairFramed(("Public", "DESCRIBE, SETUP, TEARDOWN, PLAY, PAUSE"))
  {
  }

  lemma DateFramed(now: string)
    requires CleanValue(now)
    ensures PairFramed(("Date", now))
  {
  }

  lemma SessionFramed(newId: string)
    requires CleanValue(newId)
    ensures PairFramed(("Session", newId))
  {
  }

  lemma OwnStatusClean(r: RtspResponse)
    requires (r.status_code == "200" && r.status_cause == "OK")
             || (r.status_code == "455" && r.status_cause == "Method Not Valid in This State")
    ensures CleanStatus(r)
  {
    OwnStatusLacks();
  }

  lemma OwnStatusLacks()
    ensures Lacks("200", {'\r', NUL}) && Lacks("OK", {'\r', NUL}) && Lacks("455", {'\r', NUL})
    ensures Lacks("Method Not Valid in This State", {'\r', NUL})
  {
  }

  /** handleRequest answers a parsed request with headers that survive printing, the CSeq among them. */
  lemma HandledFramed(request: RtspRequest, sessions: Sessions, now: string, newId: string)
    requires HeadersFramed(request.headers) && CleanValue(now) && CleanValue(newId)
    requires Handle(request, sessions, now, newId).Some?
    ensures var r := Handle(request, sessions, now, newId).value.0;
            && HeadersFramed(r.headers) && r.version == request.version && CleanStatus(r)
            && "CSeq" in r.headers && r.headers["CSeq"] == request.headers["CSeq"]
  {
    hide HeadersFramed, PairFramed, CleanValue, CleanStatus;
    var m := map["CSeq" := request.headers["CSeq"]];
    assert m == map[]["CSeq" := request.headers["CSeq"]];
    FramedLookup(request.headers, "CSeq");
    FramedEmpty();
    FramedInsert(map[], "CSeq", request.headers["CSeq"]);
    OwnHeadersFramed(now, newId);
    OwnStatusClean(Handle(request, sessions, now, newId).value.0);
    if request.verb == "OPTIONS" {
      FramedInsert(m, "Public", "DESCRIBE, SETUP, TEARDOWN, PLAY, PAUSE");
    } else if request.verb == "SETUP" {
      var transport := request.headers["Transport"];
      FramedLookup(request.headers, "Transport");
      FramedInsert(m, "Date", now);
      FramedInsert(m["Date" := now], "Session", newId);
      TransportFramed(transport);
      FramedInsert(m["Date" := now]["Session" := newId], "Transport", transport + ";server_port=554-555");
    }
  }

  lemma FramedEmpty()
    ensures HeadersFramed(map[])
  {
  }

  /** How long the version of a request may be for its answer's start line to fit the printer's array. */
  function VersionRoom(verb: string): nat {
    if verb in {"OPTIONS", "SETUP", "TEARDOWN"} then 502 else 474
  }

  /** The answer to a request can be printed exactly when the request's version leaves room for the status. */
  lemma HandledFitsExactlyWhen(request: RtspRequest, sessions: Sessions, now: string, newId: string, order: seq<Pair>)
    requires Handle(request, sessions, now, newId).Some?
    ensures Strify(Handle(request, sessions, now, newId).value.0, order).Some?
       <==> |request.version| <= VersionRoom(request.verb)
  {
    hide ResponseText;
    var r := Handle(request, sessions, now, newId).value.0;
    assert r.version == request.version;
    if request.verb in {"OPTIONS", "SETUP", "TEARDOWN"} {
      assert r.status_code == "200" && r.status_cause == "OK";
    } else {
      assert r.status_code == "455" && r.status_cause == "Method Not Valid in This State";
    }
  }

  /** Parsing what the text of an answer says gives back its headers, the CSeq among them. */
  lemma AnswerRecovered(text: string, p: nat, sessions: Sessions, now: string, newId: string, order: seq<Pair>)
    requires p <= |text| && Lacks(text, {NUL}) && CleanValue(now) && CleanValue(newId)
    requires Handle(ParseRequest(text, p).0, sessions, now, newId).Some?
    requires Lists(order, Handle(ParseRequest(text, p).0, sessions, now, newId).value.0.headers)
    ensures var request := ParseRequest(text, p).0; var r := Handle(request, sessions, now, newId).value.0;
            var back := ParseRequest(ResponseText(r, order), 0).0;
            && back.headers == r.headers
            && "CSeq" in back.headers && back.headers["CSeq"] == request.headers["CSeq"]
  {
    hide Handle, ResponseText, HeadersFramed, Lists, StartAt, PairsAt, FieldAndBlanks, FieldAndCRLF, Pairs, Inserted;
    hide StartLine;
    var request := ParseRequest(text, p).0;
    ParsedFramed(text, p);
    HandledFramed(request, sessions, now, newId);
    var r := Handle(request, sessions, now, newId).value.0;
    PrintedParts(r, order);
    StartLineSkipped(ResponseText(r, order), r);
    ListingFramed(order, r.headers);
    ParsePairs(ResponseText(r, order), |StartLine(r)| + 2, order);
    ListedIsMap(order, r.headers);
  }

  /**
   Parse, handle, print and parse again: printing succeeds exactly when the request's version is
   short enough, and then the headers, and so the CSeq, of any handled text survive.
   */
  lemma CSeqSurvives(text: string, p: nat, sessions: Sessions, now: string, newId: string, order: seq<Pair>)
    requires p <= |text| && Lacks(text, {NUL}) && CleanValue(now) && CleanValue(newId)
    requires Handle(ParseRequest(text, p).0, sessions, now, newId).Some?
    requires Lists(order, Handle(ParseRequest(text, p).0, sessions, now, newId).value.0.headers)
    ensures var request := ParseRequest(text, p).0; var r := Handle(request, sessions, now, newId).value.0;
            var printed := Strify(r, order);
            && (printed.Some? <==> |request.version| <= VersionRoom(request.verb))
            && (printed.Some? ==>
                  var back := ParseRequest(printed.value, 0).0;
                  && back.headers == r.headers
                  && "CSeq" in back.headers && back.headers["CSeq"] == request.headers["CSeq"])
  {
    hide Handle, ParseRequest, ResponseText, Lists, StartLineFits, VersionRoom;
    AnswerRecovered(text, p, sessions, now, newId, order);
    HandledFitsExactlyWhen(ParseRequest(text, p).0, sessions, now, newId, order);
  }

  function LongVersion(): string { seq(600, _ => 'v') }

  /** "OPTIONS * vvv...v", CRLF, "CSeq: 1", CRLF, CRLF: the parser takes it. */
  function LongRequest(): string {
    "OPTIONS * " + LongVersion() + CRLF + "CSeq: 1" + CRLF + CRLF
  }

  /** And so some requests are answered by a write past the end of the printer's array. */
  lemma LongVersionOverflows(sessions: Sessions, now: string, newId: string, order: seq<Pair>)
    ensures var answer := Handle(ParseRequest(LongRequest(), 0).0, sessions, now, newId);
            answer.Some? && Strify(answer.value.0, order).None?
  {
    hide ParseRequest, ResponseText, StartLineFits;
    var headers, line: Pair := map["CSeq" := "1"], ("CSeq", "1");
    var r := RtspResponse("OPTIONS", "*", LongVersion(), headers, "");
    LongRequestIsText(r, line);
    LongIsPrintable(r, line);
    ParseOfText(r, [line]);
    HandledFitsExactlyWhen(ParseRequest(LongRequest(), 0).0, sessions, now, newId, order);
  }

  lemma LongRequestIsText(r: RtspResponse, line: Pair)
    requires line == ("CSeq", "1") && r == RtspResponse("OPTIONS", "*", LongVersion(), map["CSeq" := "1"], "")
    ensures ResponseText(r, [line]) == LongRequest()
  {
    hide LongVersion;
    assert PrintPairs([line]) == LineOf(line) + "";
    assert "CSeq" + ": " + "1" == "CSeq: 1";
    assert "OPTIONS" + " " + "*" + " " == "OPTIONS * ";
  }

  lemma LongIsPrintable(r: RtspResponse, line: Pair)
    requires line == ("CSeq", "1") && r == RtspResponse("OPTIONS", "*", LongVersion(), map["CSeq" := "1"], "")
    ensures Printable(r) && HeadersFramed(r.headers) && Lists([line], r.headers)
  {
    assert PairFramed(line);
    assert [line][0] == line;
  }

  /** Tearing down the session that a SETUP returned undoes exactly that SETUP. */
  lemma TeardownUndoesSetup(setup: RtspRequest, teardown: RtspRequest, sessions: Sessions,
                            now: string, newId: string, now': string, newId': string)
    requires setup.verb == "SETUP" && Handle(setup, sessions, now, newId).Some?
    requires teardown.verb == "TEARDOWN" && "CSeq" in teardown.headers && "Session" in teardown.headers
    requires var r := Handle(setup, sessions, now, newId).value.0;
             "Session" in r.headers && teardown.headers["Session"] == r.headers["Session"]
    ensures var after := Handle(setup, sessions, now, newId).value.1;
            && after != sessions
            && Handle(teardown, after, now', newId').Some? && Handle(teardown, after, now', newId').value.1 == sessions
  {
    var after := Handle(setup, sessions, now, newId).value.1;
    assert newId in after;
    assert after - {newId} == sessions;
  }
}
