/** What the RTSP handler answers, when it does not answer, and which sessions a run of requests leaves open. */
module RtspSessions {
  import opened Common
  import opened Rtsp

  const PUBLIC: seq<string> := ["DESCRIBE", "SETUP", "TEARDOWN", "PLAY", "PAUSE"]

  function Listed(words: seq<string>): string {
    if words == [] then "" else if |words| == 1 then words[0] else words[0] + ", " + Listed(words[1..])
  }

  lemma ListedFirst(word: string, rest: seq<string>)
    requires rest != []
    ensures Listed([word] + rest) == word + ", " + Listed(rest)
  {
    assert ([word] + rest)[1..] == rest;
  }

  lemma PublicListed()
    ensures Listed(PUBLIC) == "DESCRIBE, SETUP, TEARDOWN, PLAY, PAUSE"
  {
    hide Listed;
    assert Listed(["PAUSE"]) == "PAUSE" by { ListedOne("PAUSE"); }
    ListedFirst("PLAY", ["PAUSE"]);
    ListedFirst("TEARDOWN", ["PLAY"] + ["PAUSE"]);
    ListedFirst("SETUP", ["TEARDOWN"] + (["PLAY"] + ["PAUSE"]));
    ListedFirst("DESCRIBE", ["SETUP"] + (["TEARDOWN"] + (["PLAY"] + ["PAUSE"])));
    assert PUBLIC == ["DESCRIBE"] + (["SETUP"] + (["TEARDOWN"] + (["PLAY"] + ["PAUSE"])));
    PublicText();
  }

  lemma ListedOne(word: string)
    ensures Listed([word]) == word
  {
  }

  lemma PublicText()
    ensures "DESCRIBE" + ", " + ("SETUP" + ", " + ("TEARDOWN" + ", " + ("PLAY" + ", " + "PAUSE")))
         == "DESCRIBE, SETUP, TEARDOWN, PLAY, PAUSE"
  {
  }

  predicate Known(verb: string) { verb == "OPTIONS" || verb == "SETUP" || verb == "TEARDOWN" }

  /** An assertion of the handler fails exactly on a request without a header it needs, or about an impossible session. */
  lemma NoAnswerExactlyWhen(request: RtspRequest, sessions: Sessions, now: string, newId: string)
    ensures Handle(request, sessions, now, newId).None? <==>
              || "CSeq" !in request.headers
              || (request.verb == "SETUP" && (newId in sessions || "Transport" !in request.headers))
              || (request.verb == "TEARDOWN"
                  && ("Session" !in request.headers || request.headers["Session"] !in sessions))
  {
  }

  /** The start line of every answer: 200 for the three methods that are handled, 455 for all others. */
  lemma AnswerStatus(request: RtspRequest, sessions: Sessions, now: string, newId: string)
    requires Handle(request, sessions, now, newId).Some?
    ensures var r := Handle(request, sessions, now, newId).value.0;
            && r.version == request.version && r.body == ""
            && (r.status_code == "200" && r.status_cause == "OK" <==> Known(request.verb))
            && (r.status_code == "455" && r.status_cause == "Method Not Valid in This State" <==> !Known(request.verb))
  {
  }

  /** Its headers: the CSeq always, and what the method adds. */
  lemma AnswerHeaders(request: RtspRequest, sessions: Sessions, now: string, newId: string)
    requires Handle(request, sessions, now, newId).Some?
    ensures var headers := Handle(request, sessions, now, newId).value.0.headers; var cseq := request.headers["CSeq"];
            match request.verb
            case "OPTIONS" => headers == map["CSeq" := cseq, "Public" := Listed(PUBLIC)]
            case "SETUP" =>
              headers == map["CSeq" := cseq, "Date" := now, "Session" := newId,
                             "Transport" := request.headers["Transport"] + ";server_port=554-555"]
            case _ => headers == map["CSeq" := cseq]
  {
    PublicListed();
  }

  /** Three of the methods that an OPTIONS answer lists are answered with 455. */
  lemma ListedButRefused(verb: string, request: RtspRequest, sessions: Sessions, now: string, newId: string)
    requires verb in PUBLIC && request.verb == verb && Handle(request, sessions, now, newId).Some?
    ensures Handle(request, sessions, now, newId).value.0.status_code == "455" <==>
              verb == "DESCRIBE" || verb == "PLAY" || verb == "PAUSE"
  {
    AnswerStatus(request, sessions, now, newId);
  }

  /** The table: SETUP adds its session, TEARDOWN takes one away, nothing else touches it. */
  lemma AnswerTable(request: RtspRequest, sessions: Sessions, now: string, newId: string)
    requires Handle(request, sessions, now, newId).Some?
    ensures var after := Handle(request, sessions, now, newId).value.1;
            match request.verb
            case "SETUP" =>
              newId !in sessions && after == sessions[newId := SessionState(newId, request.URI, request.version, NONE)]
            case "TEARDOWN" =>
              "Session" in request.headers && request.headers["Session"] in sessions
              && after == sessions - {request.headers["Session"]}
            case _ => after == sessions
  {
  }

  // ---- runs -----------------------------------------------------------------------------------

  /** A request as it is handled, with the time and the random session id of that moment. */
  datatype Incoming = Incoming(request: RtspRequest, now: string, newId: string)

  /** The session table after all requests, from an empty one; None if an assertion fails on the way. */
  function Table(ins: seq<Incoming>): Option<Sessions> {
    if ins == [] then Some(map[])
    else
      var last := ins[|ins| - 1];
      match Table(ins[..|ins| - 1])
      case None => None
      case Some(sessions) =>
        match Handle(last.request, sessions, last.now, last.newId)
        case None => None
        case Some((_, after)) => Some(after)
  }

  predicate Closes(i: Incoming, id: string) {
    i.request.verb == "TEARDOWN" && "Session" in i.request.headers && i.request.headers["Session"] == id
  }

  /** Request i is a SETUP that was given id, and no TEARDOWN has named id since. */
  predicate OpenSince(ins: seq<Incoming>, id: string, i: nat) {
    && i < |ins| && ins[i].request.verb == "SETUP" && ins[i].newId == id
    && forall k :: i < k < |ins| ==> !Closes(ins[k], id)
  }

  /**
   Over every run of requests the open sessions are exactly those that a SETUP opened and no TEARDOWN
   named since, each with the URI and the version of its SETUP, in state NONE.
   */
  lemma {:induction false} OpenSessionsExactly(ins: seq<Incoming>, id: string)
    requires Table(ins).Some?
    ensures id in Table(ins).value <==> exists i: nat :: OpenSince(ins, id, i)
    ensures forall i: nat :: OpenSince(ins, id, i) ==>
              Table(ins).value[id] == SessionState(id, ins[i].request.URI, ins[i].request.version, NONE)
    decreases |ins|
  {
    hide Handle, Closes;
    if ins == [] {
      NothingOpen(id);
    } else {
      var before, last := ins[..|ins| - 1], ins[|ins| - 1];
      OpenSessionsExactly(before, id);
      AnswerTable(last.request, Table(before).value, last.now, last.newId);
      OpenAfter(ins, id);
      ClosesNamed(last, id);
      OpenStep(ins, id);
      forall i: nat | OpenSince(ins, id, i)
        ensures Table(ins).value[id] == SessionState(id, ins[i].request.URI, ins[i].request.version, NONE)
      {
        if i != |ins| - 1 {
          assert OpenSince(before, id, i) && before[i] == ins[i];
        }
      }
    }
  }

  lemma NothingOpen(id: string)
    ensures forall i: nat :: !OpenSince([], id, i)
  {
  }

  lemma ClosesNamed(i: Incoming, id: string)
    ensures i.request.verb != "TEARDOWN" ==> !Closes(i, id)
    ensures i.request.verb == "TEARDOWN" && "Session" in i.request.headers ==>
              (Closes(i, id) <==> i.request.headers["Session"] == id)
  {
  }

  lemma OpenStep(ins: seq<Incoming>, id: string)
    requires ins != []
    ensures var before, last := ins[..|ins| - 1], ins[|ins| - 1];
            (exists i: nat :: OpenSince(ins, id, i)) <==>
              || (last.request.verb == "SETUP" && last.newId == id)
              || ((exists i: nat :: OpenSince(before, id, i)) && !Closes(last, id))
  {
    hide OpenSince, Closes;
    OpenAfter(ins, id);
    var before, last := ins[..|ins| - 1], ins[|ins| - 1];
    if i: nat :| OpenSince(before, id, i) {
      OpenInside(before, id, i);
    }
    if last.request.verb == "SETUP" && last.newId == id {
      assert OpenSince(ins, id, |ins| - 1);
    }
  }

  lemma OpenInside(ins: seq<Incoming>, id: string, i: nat)
    requires OpenSince(ins, id, i)
    ensures i < |ins|
  {
  }

  /** One more request changes what is open only if it is a SETUP or a TEARDOWN of that very session. */
  lemma OpenAfter(ins: seq<Incoming>, id: string)
    requires ins != []
    ensures var before, last := ins[..|ins| - 1], ins[|ins| - 1];
            && (forall i: nat :: i != |ins| - 1 ==>
                  (OpenSince(ins, id, i) <==> OpenSince(before, id, i) && !Closes(last, id)))
            && (OpenSince(ins, id, |ins| - 1) <==> last.request.verb == "SETUP" && last.newId == id)
  {
    var before, last := ins[..|ins| - 1], ins[|ins| - 1];
    forall i: nat | i != |ins| - 1 ensures OpenSince(ins, id, i) <==> OpenSince(before, id, i) && !Closes(last, id) {
      if OpenSince(ins, id, i) {
        assert forall k :: i < k < |before| ==> before[k] == ins[k];
      }
    }
  }
}
