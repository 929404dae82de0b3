/** The RTSP parser, printer and handler as they run: pointer loops, a header map built and walked, sessions updated. */
module RtspHandlers {
  import opened Common
  import opened Scans
  import opened Rtsp

  /** while (*p != 0 && !(*p in stop)) ++p; */
  method ScanText(text: string, start: nat, stop: set<char>) returns (p: nat)
    requires start <= |text|
    ensures p == Until(text, start, stop)
  {
    p := start;
    while p < |text| && text[p] !in stop
      invariant start <= p <= |text| && Until(text, start, stop) == Until(text, p, stop)
    {
      p := p + 1;
    }
  }

  /** while (*p in chars) ++p; the NUL is in no such set. */
  method SkipText(text: string, start: nat, chars: set<char>) returns (p: nat)
    requires start <= |text|
    ensures p == PastAny(text, start, chars)
  {
    p := start;
    while p < |text| && text[p] in chars
      invariant start <= p <= |text| && PastAny(text, start, chars) == PastAny(text, p, chars)
    {
      p := p + 1;
    }
  }

  method ParseFieldAndBlanks(text: string, p: nat) returns (field: string, next: nat)
    requires p <= |text|
    ensures (field, next) == FieldAndBlanks(text, p)
  {
    var end := ScanText(text, p, {' '});
    field := text[p..end];
    next := SkipText(text, end, {' '});
  }

  method ParseFieldAndColon(text: string, p: nat) returns (field: string, next: nat)
    requires p <= |text|
    ensures (field, next) == FieldAndColon(text, p)
  {
    var end := ScanText(text, p, {':', '\r'});
    if end < |text| && text[end] == '\r' {
      return "", end;
    }
    field := text[p..end];
    next := SkipText(text, end, {':', ' '});
  }

  method ParseFieldAndCRLF(text: string, p: nat) returns (field: string, next: nat)
    requires p <= |text|
    ensures (field, next) == FieldAndCRLF(text, p)
  {
    var end := ScanText(text, p, {'\r'});
    field := text[p..end];
    next := SkipText(text, end, {' '});
    if next < |text| && text[next] == '\r' {
      next := next + 1;
    }
    if next < |text| && text[next] == '\n' {
      next := next + 1;
    }
  }

  /** The pairs read so far, and those still ahead of pointer p. */
  ghost function Ahead(done: seq<Pair>, text: string, p: nat): (seq<Pair>, nat)
    requires p <= |text|
  {
    var (rest, end) := Pairs(text, p);
    (done + rest, end)
  }

  /** The pointer never passes the text's end, whatever the text. */
  method ParseRequestText(text: string, p: nat) returns (request: RtspRequest, next: nat)
    requires p <= |text|
    ensures (request, next) == ParseRequest(text, p)
    ensures p <= next <= |text|
  {
    var verb, uri, version;
    verb, next := ParseFieldAndBlanks(text, p);
    uri, next := ParseFieldAndBlanks(text, next);
    version, next := ParseFieldAndCRLF(text, next);
    var headers: map<string, string> := map[];
    ghost var start, done := next, [];
    assert [] + Pairs(text, start).0 == Pairs(text, start).0;
    while true
      invariant start <= next <= |text| && headers == Inserted(done)
      invariant Ahead(done, text, next) == Pairs(text, start)
      decreases |text| - next
    {
      var key, value;
      ghost var before := next;
      key, next := ParseFieldAndColon(text, next);
      if key == "" {
        assert done + [] == done;
        break;
      }
      value, next := ParseFieldAndCRLF(text, next);
      if key !in headers {
        headers := headers[key := value];
      }
      NextPair(done, text, before);
      assert (done + [(key, value)])[..|done|] == done;
      done := done + [(key, value)];
    }
    request := RtspRequest(verb, uri, version, headers);
  }

  lemma NextPair(done: seq<Pair>, text: string, p: nat)
    requires p <= |text| && FieldAndColon(text, p).0 != ""
    ensures var (key, p1) := FieldAndColon(text, p); var (value, p2) := FieldAndCRLF(text, p1);
            Ahead(done, text, p) == Ahead(done + [(key, value)], text, p2)
  {
    var (key, p1) := FieldAndColon(text, p);
    var (value, p2) := FieldAndCRLF(text, p1);
    var rest := Pairs(text, p2).0;
    assert done + ([(key, value)] + rest) == done + [(key, value)] + rest;
  }

  /** The header map is walked in some order; any order may be the one.  None: the array on the stack is overrun. */
  method StrifyResponse(r: RtspResponse) returns (printed: Option<string>)
    ensures printed.Some? <==> |r.version| + |r.status_code| + |r.status_cause| <= 507
    ensures exists order :: Lists(order, r.headers) && printed == Strify(r, order)
  {
    var s, order := PrintResponse(r);
    assert Lists(order, r.headers);
    printed := if StartLineFits(r) then Some(s) else None;
  }

  /** order meets every entry of m exactly once, but those of todo not at all. */
  ghost predicate ListsAllBut(order: seq<Pair>, m: map<string, string>, todo: set<string>) {
    && (forall i :: 0 <= i < |order| ==> order[i].0 in m && order[i].0 !in todo && m[order[i].0] == order[i].1)
    && (forall i, j :: 0 <= i < j < |order| ==> order[i].0 != order[j].0)
    && (forall k :: k in m ==> k in todo || Met(order, k))
  }

  lemma ListedNone(m: map<string, string>)
    ensures ListsAllBut([], m, m.Keys)
  {
  }

  lemma ListedAll(order: seq<Pair>, m: map<string, string>)
    requires ListsAllBut(order, m, {})
    ensures Lists(order, m)
  {
  }

  lemma ListedOneMore(order: seq<Pair>, m: map<string, string>, todo: set<string>, k: string)
    requires ListsAllBut(order, m, todo) && k in todo && k in m
    ensures ListsAllBut(order + [(k, m[k])], m, todo - {k})
  {
    hide Met;
    MetLonger(order, (k, m[k]));
  }

  /** The loop over the header map, with what stands before and behind it. */
  method PrintResponse(r: RtspResponse) returns (s: string, ghost order: seq<Pair>)
    ensures Lists(order, r.headers) && s == ResponseText(r, order)
  {
    hide ListsAllBut, Lists, StartLine;
    s := StartLine(r) + CRLF;
    order := [];
    var todo := r.headers.Keys;
    ListedNone(r.headers);
    while todo != {}
      invariant todo <= r.headers.Keys && ListsAllBut(order, r.headers, todo)
      invariant s == StartLine(r) + CRLF + PrintPairs(order)
      decreases |todo|
    {
      var k :| k in todo;
      var pair := (k, r.headers[k]);
      s := s + LineOf(pair);
      PrintPairsSnoc(order, pair);
      ListedOneMore(order, r.headers, todo, k);
      todo := todo - {k};
      order := order + [pair];
    }
    ListedAll(order, r.headers);
    s := s + CRLF;
    if r.body != "" {
      s := s + r.body + CRLF;
    }
  }

  lemma MetLonger(pairs: seq<Pair>, pair: Pair)
    ensures Met(pairs + [pair], pair.0)
    ensures forall k :: Met(pairs, k) ==> Met(pairs + [pair], k)
  {
    var longer := pairs + [pair];
    assert longer[|pairs|] == pair;
    assert forall i :: 0 <= i < |pairs| ==> longer[i] == pairs[i];
  }

  lemma {:induction false} PrintPairsSnoc(pairs: seq<Pair>, pair: Pair)
    ensures PrintPairs(pairs + [pair]) == PrintPairs(pairs) + LineOf(pair)
    decreases |pairs|
  {
    if pairs == [] {
      assert PrintPairs([pair]) == LineOf(pair) + PrintPairs([]);
    } else {
      assert (pairs + [pair])[1..] == pairs[1..] + [pair];
      PrintPairsSnoc(pairs[1..], pair);
    }
  }

  /** The global session table. */
  class SessionTable {
    var sessions: Sessions

    constructor ()
      ensures sessions == map[]
    {
      sessions := map[];
    }

    /** None where an assertion of handleRequest ends the process. */
    method HandleRequest(request: RtspRequest, now: string, newId: string) returns (r: Option<RtspResponse>)
      modifies this
      ensures match Handle(request, old(sessions), now, newId)
              case None => r.None?
              case Some((response, after)) => r == Some(response) && sessions == after
    {
      if "CSeq" !in request.headers {
        return None;
      }
      var headers := map["CSeq" := request.headers["CSeq"]];
      var code, cause := "200", "OK";
      if request.verb == "OPTIONS" {
        headers := headers["Public" := "DESCRIBE, SETUP, TEARDOWN, PLAY, PAUSE"];
      } else if request.verb == "SETUP" {
        headers := headers["Date" := now];
        if newId in sessions {
          return None;
        }
        sessions := sessions[newId := SessionState(newId, request.URI, request.version, NONE)];
        headers := headers["Session" := newId];
        if "Transport" !in request.headers {
          return None;
        }
        headers := headers["Transport" := request.headers["Transport"] + ";server_port=554-555"];
      } else if request.verb == "TEARDOWN" {
        if "Session" !in request.headers {
          return None;
        }
        var id := request.headers["Session"];
        if id !in sessions {
          return None;
        }
        sessions := sessions[id := sessions[id].(cur_state := DESTORYED)];
        sessions := sessions - {id};
        assert sessions == old(sessions) - {id};
      } else {
        code, cause := "455", "Method Not Valid in This State";
      }
      r := Some(RtspResponse(request.version, code, cause, headers, ""));
    }
  }
}
