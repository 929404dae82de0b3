/**
 The asynchronous logger: many log callers and one collector thread hand string buffers to
 each other under a mutex.  Every critical section, and every write outside one, is one step;
 a run is any interleaving of steps.  A buffer keeps the identity it was allocated with.
 */
module Loggers {
  import opened Common

  const EMPTYS_INIT_SIZE := 4
  const EMPTYS_MAX_SIZE := 20
  const BUFFER_SIZE := 4096
  const NUM_LOG_LEVELS := 5
  const INFO := 1

  datatype Buf = Buf(id: nat, text: string)

  /** Where the collector thread stands. */
  datatype Pc =
    | Testing    // before running.test_and_set()
    | Preparing  // about to allocate newEmptys
    | Entering   // about to take the mutex
    | Waiting    // in cond_.wait_for, the mutex released
    | Writing    // writing fullBuffers back, the mutex released
    | Flushing   // out of the loop, about to take the mutex for good
    | Flushed    // the rest is written, the mutex still held

  datatype Logger = Logger(
    level: nat,
    callers: seq<string>,    // messages that passed the level test, their callers not yet in the mutex
    currentBuffer: Option<Buf>, buffers: seq<Buf>, emptys: seq<Buf>,  // guarded by the mutex
    fullBuffers: seq<Buf>, newEmptys: seq<Buf>,                       // local to the collector
    running: bool, pc: Pc,
    nextId: nat,             // identity of the next allocated buffer
    output: string,          // what the output file received
    accepted: seq<string>)   // history: messages in the order in which their callers held the mutex
  {
    /** The buffers allocated in one go, all empty. */
    static function Fresh(first: nat, n: nat): seq<Buf> { seq(n, i requires 0 <= i => Buf(first + i, "")) }

    /** BUFFER_SIZE - currentBuffer_->size() < msg.size(), computed in size_t. */
    predicate NoRoom(msg: string) {
      currentBuffer.None? || (BUFFER_SIZE - |currentBuffer.value.text|) % TWO64 < |msg|
    }

    /** Caller k leaves the list. */
    function Without(k: nat): Logger
      requires k < |callers|
    {
      this.(callers := callers[..k] + callers[k + 1..])
    }

    /** The critical section of log. */
    function Inserted(msg: string): Logger {
      var s := if NoRoom(msg) then Switched() else this;
      s.(currentBuffer := Some(Buf(s.currentBuffer.value.id, s.currentBuffer.value.text + msg)),
         accepted := accepted + [msg])
    }

    /** Retire the current buffer and take an empty one, allocating only when there is none. */
    function Switched(): (s: Logger)
      ensures s.currentBuffer.Some?
    {
      var retired := this.(buffers := Retired());
      if emptys == [] then retired.(currentBuffer := Some(Buf(nextId, "")), nextId := nextId + 1)
      else retired.(currentBuffer := Some(emptys[|emptys| - 1]), emptys := emptys[..|emptys| - 1])
    }

    function Retired(): seq<Buf> {
      if currentBuffer.Some? then buffers + [currentBuffer.value] else buffers
    }

    /** How many new buffers the collector moves into emptys_. */
    function Refill(): nat { RefillCount(|emptys|, |newEmptys|) }

    /** The collector's critical section, once it is past the wait. */
    function Collected(): Logger {
      this.(fullBuffers := Retired(), currentBuffer := None, buffers := [],
            emptys := emptys + newEmptys[..Refill()], newEmptys := newEmptys[Refill()..],
            pc := Writing)
    }
  }

  /** How many of the spare buffers top a pool up without passing EMPTYS_MAX_SIZE. */
  function RefillCount(pool: nat, spare: nat): (k: nat)
    ensures k <= spare && (k > 0 ==> pool + k <= EMPTYS_MAX_SIZE)
    ensures k < spare ==> pool + k >= EMPTYS_MAX_SIZE
  {
    var room := if pool < EMPTYS_MAX_SIZE then EMPTYS_MAX_SIZE - pool else 0;
    if room < spare then room else spare
  }

  const Initial := Logger(
    INFO, [], Some(Buf(0, "")), [], Logger.Fresh(1, EMPTYS_INIT_SIZE), [], [], true, Testing,
    EMPTYS_INIT_SIZE + 1, "", [])

  datatype Label =
    | Filter(level: nat, msg: string)  // log: the level test, before the mutex; msg carries its header
    | Insert(k: nat)                   // log: the critical section of the k-th caller that passed the test
    | SetLevel(newLevel: nat)
    | TestRunning | Prepare | Enter | Wake | WriteOne | EndRound | Flush   // the collector
    | Stop

  function Step(s: Logger, l: Label): Option<Logger> {
    match l
    case Filter(level, msg) =>
      if level < s.level || level >= NUM_LOG_LEVELS then Some(s) else Some(s.(callers := s.callers + [msg]))
    case Insert(k) =>
      if s.pc.Flushed? || k >= |s.callers| then None else Some(s.Without(k).Inserted(s.callers[k]))
    case SetLevel(level) => Some(s.(level := level))
    case TestRunning =>
      if s.pc.Testing? then Some(s.(running := true, pc := if s.running then Preparing else Flushing)) else None
    case Prepare =>
      if !s.pc.Preparing? then None
      else Some(s.(newEmptys := Logger.Fresh(s.nextId, EMPTYS_INIT_SIZE), nextId := s.nextId + EMPTYS_INIT_SIZE,
                   pc := Entering))
    case Enter =>
      if !s.pc.Entering? then None
      else if s.buffers == [] then Some(s.(pc := Waiting))
      else Some(s.Collected())
    case Wake => if s.pc.Waiting? then Some(s.Collected()) else None
    case WriteOne =>
      if s.pc.Writing? && s.fullBuffers != [] then
        Some(s.(output := s.output + s.fullBuffers[0].text, fullBuffers := s.fullBuffers[1..]))
      else None
    case EndRound =>
      if s.pc.Writing? && s.fullBuffers == [] then Some(s.(newEmptys := [], pc := Testing)) else None
    case Flush =>
      if !s.pc.Flushing? then None
      else Some(s.(buffers := s.Retired(), currentBuffer := None,
                   output := s.output + Concat(Texts(s.Retired())), pc := Flushed))
    case Stop => Some(s.(running := false))
  }

  function Exec(s: Logger, ls: seq<Label>): Option<Logger>
    decreases ls
  {
    if ls == [] then Some(s)
    else
      match Step(s, ls[0])
      case None => None
      case Some(t) => Exec(t, ls[1..])
  }

  function Texts(bufs: seq<Buf>): seq<string> { seq(|bufs|, i requires 0 <= i < |bufs| => bufs[i].text) }

  function Ids(bufs: seq<Buf>): seq<nat> { seq(|bufs|, i requires 0 <= i < |bufs| => bufs[i].id) }

  lemma IdsAppend(a: seq<Buf>, b: seq<Buf>)
    ensures Ids(a + b) == Ids(a) + Ids(b)
  {
  }

  function Flatten(groups: seq<seq<string>>): seq<string> {
    if groups == [] then [] else groups[0] + Flatten(groups[1..])
  }

  lemma {:induction false} FlattenSnoc(groups: seq<seq<string>>, g: seq<string>)
    ensures Flatten(groups + [g]) == Flatten(groups) + g
  {
    if groups == [] {
      assert Flatten([g]) == g + Flatten([]);
    } else {
      assert (groups + [g])[1..] == groups[1..] + [g];
      FlattenSnoc(groups[1..], g);
      assert groups[0] + (Flatten(groups[1..]) + g) == groups[0] + Flatten(groups[1..]) + g;
    }
  }

  /** Chunk i is exactly the messages of group i, each of them whole. */
  ghost predicate Holds(chunks: seq<string>, groups: seq<seq<string>>) {
    |groups| == |chunks| && forall i :: 0 <= i < |chunks| ==> chunks[i] == Concat(groups[i])
  }

  /** The chunks hold the messages in order, no message split between two chunks. */
  ghost predicate Packs(chunks: seq<string>, msgs: seq<string>) {
    exists groups :: Holds(chunks, groups) && Flatten(groups) == msgs
  }

  lemma HoldsSnoc(chunks: seq<string>, groups: seq<seq<string>>, chunk: string, g: seq<string>)
    requires Holds(chunks, groups) && chunk == Concat(g)
    ensures Holds(chunks + [chunk], groups + [g])
  {
  }

  lemma HoldsLast(chunks: seq<string>, last: string, groups: seq<seq<string>>)
    requires Holds(chunks + [last], groups)
    ensures |groups| == |chunks| + 1 && Holds(chunks, groups[..|chunks|]) && last == Concat(groups[|chunks|])
    ensures groups == groups[..|chunks|] + [groups[|chunks|]]
  {
    hide Concat;
    assert (chunks + [last])[|chunks|] == last;
    assert forall i :: 0 <= i < |chunks| ==> chunks[i] == (chunks + [last])[i];
  }

  lemma PackNew(chunks: seq<string>, msgs: seq<string>, msg: string)
    requires Packs(chunks, msgs)
    ensures Packs(chunks + [msg], msgs + [msg])
  {
    hide Holds;
    var groups :| Holds(chunks, groups) && Flatten(groups) == msgs;
    FlattenSnoc(groups, [msg]);
    assert Concat([msg]) == msg + Concat([]);
    HoldsSnoc(chunks, groups, msg, [msg]);
  }

  lemma PackIntoLast(chunks: seq<string>, last: string, msgs: seq<string>, msg: string)
    requires Packs(chunks + [last], msgs)
    ensures Packs(chunks + [last + msg], msgs + [msg])
  {
    hide Holds, Flatten, Concat;
    var groups :| Holds(chunks + [last], groups) && Flatten(groups) == msgs;
    HoldsLast(chunks, last, groups);
    var init, g := groups[..|chunks|], groups[|chunks|];
    FlattenSnoc(init, g);
    FlattenSnoc(init, g + [msg]);
    ConcatSnoc(g, msg);
    HoldsSnoc(chunks, init, last + msg, g + [msg]);
    assert Flatten(init) + (g + [msg]) == Flatten(init) + g + [msg];
  }

  /** Writing the first chunk behind what is already written. */
  lemma PackMergeFirst(a: string, b: string, rest: seq<string>, msgs: seq<string>)
    requires Packs([a, b] + rest, msgs)
    ensures Packs([a + b] + rest, msgs)
  {
    var groups :| Holds([a, b] + rest, groups) && Flatten(groups) == msgs;
    var merged := [groups[0] + groups[1]] + groups[2..];
    assert ([a, b] + rest)[0] == a && ([a, b] + rest)[1] == b;
    ConcatAppend(groups[0], groups[1]);
    forall i | 0 <= i < |[a + b] + rest| ensures ([a + b] + rest)[i] == Concat(merged[i]) {
      assert i > 0 ==> ([a + b] + rest)[i] == ([a, b] + rest)[i + 1] && merged[i] == groups[i + 1];
    }
    assert Holds([a + b] + rest, merged);
    calc {
      Flatten(merged);
      { assert merged[1..] == groups[2..]; }
      groups[0] + groups[1] + Flatten(groups[2..]);
      groups[0] + (groups[1] + Flatten(groups[2..]));
      { assert groups[1..][0] == groups[1] && groups[1..][1..] == groups[2..]; }
      groups[0] + Flatten(groups[1..]);
      msgs;
    }
  }

  lemma {:induction false} HeldBytes(chunks: seq<string>, groups: seq<seq<string>>)
    requires Holds(chunks, groups)
    ensures Concat(chunks) == Concat(Flatten(groups))
    decreases |chunks|
  {
    if chunks != [] {
      HeldBytes(chunks[1..], groups[1..]);
      ConcatAppend(groups[0], Flatten(groups[1..]));
    }
  }

  /** Together the chunks are all the messages, and the first chunk is the first few of them. */
  lemma PackedBytes(a: string, rest: seq<string>, msgs: seq<string>)
    requires Packs([a] + rest, msgs)
    ensures a + Concat(rest) == Concat(msgs)
    ensures exists k :: 0 <= k <= |msgs| && a == Concat(msgs[..k])
  {
    var groups :| Holds([a] + rest, groups) && Flatten(groups) == msgs;
    HeldBytes([a] + rest, groups);
    assert ([a] + rest)[0] == a && ([a] + rest)[1..] == rest;
    assert msgs[..|groups[0]|] == groups[0];
  }

  /** The buffers that hold accepted but unwritten messages, oldest first. */
  function Unwritten(s: Logger): seq<Buf> {
    if s.pc.Flushed? then [] else s.fullBuffers + s.Retired()
  }

  /** How often each buffer is owned, over all five places. */
  ghost function Owners(s: Logger): multiset<nat> {
    multiset(Ids(s.Retired())) + multiset(Ids(s.emptys)) + multiset(Ids(s.fullBuffers)) + multiset(Ids(s.newEmptys))
  }

  /** No buffer has two owners, and no owner holds a buffer that was never allocated. */
  ghost predicate OwnedOnce(s: Logger) {
    forall id: nat :: Owners(s)[id] <= if id < s.nextId then 1 else 0
  }

  ghost predicate Invariant(s: Logger) {
    && Packs([s.output] + Texts(Unwritten(s)), s.accepted)
    && (s.fullBuffers != [] ==> s.pc.Writing?)
    && (forall b <- s.emptys + s.newEmptys :: b.text == "")
    && |s.emptys| <= EMPTYS_MAX_SIZE && |s.newEmptys| <= EMPTYS_INIT_SIZE
    && OwnedOnce(s)
  }

  lemma PackAlone(a: string, msgs: seq<string>)
    requires a == Concat(msgs)
    ensures Packs([a], msgs)
  {
    assert Flatten([msgs]) == msgs + Flatten([]);
    assert Holds([a], [msgs]);
  }

  /** What log does to the unwritten buffers: a new last one, or a longer last one. */
  lemma InsertShape(s: Logger, msg: string)
    requires !s.pc.Flushed?
    requires forall b <- s.emptys :: b.text == ""
    ensures var t := s.Inserted(msg);
            && t.output == s.output && t.accepted == s.accepted + [msg]
            && if s.NoRoom(msg) then
                 Texts(Unwritten(t)) == Texts(Unwritten(s)) + [msg]
               else
                 var older := Texts(s.fullBuffers + s.buffers);
                 && Texts(Unwritten(s)) == older + [s.currentBuffer.value.text]
                 && Texts(Unwritten(t)) == older + [s.currentBuffer.value.text + msg]
  {
    var t := s.Inserted(msg);
    if s.NoRoom(msg) {
      assert s.Switched().currentBuffer.value.text == "" by {
        assert s.emptys != [] ==> s.emptys[|s.emptys| - 1] in s.emptys;
      }
      assert t.currentBuffer.value.text == msg;
      assert Unwritten(t) == Unwritten(s) + [t.currentBuffer.value];
    } else {
      assert Unwritten(s) == s.fullBuffers + s.buffers + [s.currentBuffer.value];
      assert Unwritten(t) == s.fullBuffers + s.buffers + [t.currentBuffer.value];
    }
  }

  lemma Front(a: string, older: seq<string>, last: string)
    ensures [a] + (older + [last]) == [a] + older + [last]
  {
  }

  /** log keeps every message whole and in lock order. */
  lemma InsertPacks(s: Logger, msg: string)
    requires !s.pc.Flushed?
    requires Packs([s.output] + Texts(Unwritten(s)), s.accepted)
    requires forall b <- s.emptys :: b.text == ""
    ensures var t := s.Inserted(msg); Packs([t.output] + Texts(Unwritten(t)), t.accepted)
  {
    hide Packs, Unwritten, Texts, Logger.Inserted;
    InsertShape(s, msg);
    if s.NoRoom(msg) {
      PackNew([s.output] + Texts(Unwritten(s)), s.accepted, msg);
      Front(s.output, Texts(Unwritten(s)), msg);
    } else {
      var older, last := Texts(s.fullBuffers + s.buffers), s.currentBuffer.value.text;
      Front(s.output, older, last);
      PackIntoLast([s.output] + older, last, s.accepted, msg);
      Front(s.output, older, last + msg);
    }
  }

  lemma WriteOnePacks(s: Logger)
    requires s.pc.Writing? && s.fullBuffers != []
    requires Packs([s.output] + Texts(Unwritten(s)), s.accepted)
    ensures var t := Step(s, WriteOne).value; Packs([t.output] + Texts(Unwritten(t)), t.accepted)
  {
    hide Packs, Texts, Logger.Retired;
    var b, rest := s.fullBuffers[0], s.fullBuffers[1..] + s.Retired();
    FirstUnwritten(s);
    TextBehind(s.output, b, rest);
    PackMergeFirst(s.output, b.text, Texts(rest), s.accepted);
  }

  lemma FirstUnwritten(s: Logger)
    requires s.pc.Writing? && s.fullBuffers != []
    ensures Unwritten(s) == [s.fullBuffers[0]] + (s.fullBuffers[1..] + s.Retired())
    ensures var t := Step(s, WriteOne).value;
            && Unwritten(t) == s.fullBuffers[1..] + s.Retired()
            && t.output == s.output + s.fullBuffers[0].text && t.accepted == s.accepted
  {
  }

  lemma TextBehind(text: string, b: Buf, rest: seq<Buf>)
    ensures [text] + Texts([b] + rest) == [text, b.text] + Texts(rest)
  {
  }

  lemma FlushPacks(s: Logger)
    requires s.pc.Flushing? && s.fullBuffers == []
    requires Packs([s.output] + Texts(Unwritten(s)), s.accepted)
    ensures var t := Step(s, Flush).value; Packs([t.output] + Texts(Unwritten(t)), t.accepted)
  {
    hide Packs;
    var t := Step(s, Flush).value;
    assert Unwritten(s) == s.Retired();
    PackedBytes(s.output, Texts(s.Retired()), s.accepted);
    PackAlone(t.output, s.accepted);
    assert [t.output] + Texts([]) == [t.output];
  }

  /** Moving buffers between owners, dropping some and allocating new ones keeps one owner each. */
  lemma StillOwnedOnce(s: Logger, t: Logger, dropped: multiset<nat>, made: nat)
    requires OwnedOnce(s) && t.nextId == s.nextId + made
    requires Owners(t) + dropped == Owners(s) + multiset(Ids(Logger.Fresh(s.nextId, made)))
    ensures OwnedOnce(t)
  {
    forall id: nat ensures Owners(t)[id] <= if id < t.nextId then 1 else 0 {
      IdsOnce(Logger.Fresh(s.nextId, made), s.nextId, id);
      var added := multiset(Ids(Logger.Fresh(s.nextId, made)));
      assert (Owners(t) + dropped)[id] == Owners(t)[id] + dropped[id];
      assert (Owners(s) + added)[id] == Owners(s)[id] + added[id];
    }
  }

  lemma {:induction false} IdsOnce(bufs: seq<Buf>, first: nat, id: nat)
    requires bufs == Logger.Fresh(first, |bufs|)
    ensures multiset(Ids(bufs))[id] == if first <= id < first + |bufs| then 1 else 0
    decreases |bufs|
  {
    if bufs == [] {
      assert Ids(bufs) == [];
    } else {
      var init, last := bufs[..|bufs| - 1], bufs[|bufs| - 1];
      IdsOnce(init, first, id);
      assert bufs == init + [last];
      IdsAppend(init, [last]);
      assert Ids([last]) == [last.id];
    }
  }

  lemma IdsSplit(bufs: seq<Buf>, k: nat)
    requires k <= |bufs|
    ensures multiset(Ids(bufs)) == multiset(Ids(bufs[..k])) + multiset(Ids(bufs[k..]))
  {
    assert Ids(bufs) == Ids(bufs[..k]) + Ids(bufs[k..]);
  }

  lemma IdsSnoc(bufs: seq<Buf>, b: Buf)
    ensures multiset(Ids(bufs + [b])) == multiset(Ids(bufs)) + multiset{b.id}
  {
    assert Ids(bufs + [b]) == Ids(bufs) + [b.id];
  }

  /** A longer text in the current buffer changes no owner. */
  lemma FillOwners(s: Logger, text: string)
    requires OwnedOnce(s) && s.currentBuffer.Some?
    ensures OwnedOnce(s.(currentBuffer := Some(Buf(s.currentBuffer.value.id, text))))
  {
    var t := s.(currentBuffer := Some(Buf(s.currentBuffer.value.id, text)));
    IdsSnoc(s.buffers, s.currentBuffer.value);
    IdsSnoc(s.buffers, t.currentBuffer.value);
    assert Owners(t) == Owners(s);
  }

  /** The new current buffer comes from emptys_ or is allocated; the old one is retired. */
  lemma SwitchOwners(s: Logger)
    requires OwnedOnce(s)
    ensures OwnedOnce(s.Switched())
  {
    var t := s.Switched();
    IdsSnoc(s.Retired(), t.currentBuffer.value);
    assert t.Retired() == s.Retired() + [t.currentBuffer.value];
    if s.emptys == [] {
      assert Ids(Logger.Fresh(s.nextId, 1)) == [s.nextId];
      StillOwnedOnce(s, t, multiset{}, 1);
    } else {
      var k := |s.emptys| - 1;
      assert s.emptys == s.emptys[..k] + [s.emptys[k]];
      IdsSnoc(s.emptys[..k], s.emptys[k]);
      assert Ids(Logger.Fresh(s.nextId, 0)) == [];
      StillOwnedOnce(s, t, multiset{}, 0);
    }
  }

  lemma AcceptedOwnsNothing(s: Logger, accepted: seq<string>)
    requires OwnedOnce(s)
    ensures OwnedOnce(s.(accepted := accepted))
  {
    assert Owners(s.(accepted := accepted)) == Owners(s);
  }

  lemma InsertOwners(s: Logger, msg: string)
    requires OwnedOnce(s)
    ensures OwnedOnce(s.Inserted(msg))
  {
    hide OwnedOnce;
    var t := s;
    if s.NoRoom(msg) {
      SwitchOwners(s);
      t := s.Switched();
    }
    FillOwners(t, t.currentBuffer.value.text + msg);
    AcceptedOwnsNothing(t.(currentBuffer := Some(Buf(t.currentBuffer.value.id, t.currentBuffer.value.text + msg))),
                        s.accepted + [msg]);
  }

  lemma StepOwners(s: Logger, l: Label)
    requires OwnedOnce(s) && Step(s, l).Some?
    ensures OwnedOnce(Step(s, l).value)
  {
    hide OwnedOnce, Logger.Inserted, Logger.Collected;
    var t := Step(s, l).value;
    match l {
      case Insert(k) =>
        SameOwners(s, s.Without(k));
        InsertOwners(s.Without(k), s.callers[k]);
      case Enter =>
        if s.buffers == [] { SameOwners(s, t); } else { CollectOwners(s); }
      case Wake =>
        CollectOwners(s);
      case Flush =>
        assert t.Retired() == s.Retired();
        SameOwners(s, t);
      case Prepare =>
        PrepareOwners(s);
      case WriteOne =>
        WriteOneOwners(s);
      case EndRound =>
        EndRoundOwners(s);
      case _ =>
        SameOwners(s, t);
    }
  }

  lemma PrepareOwners(s: Logger)
    requires OwnedOnce(s) && Step(s, Prepare).Some?
    ensures OwnedOnce(Step(s, Prepare).value)
  {
    StillOwnedOnce(s, Step(s, Prepare).value, multiset(Ids(s.newEmptys)), EMPTYS_INIT_SIZE);
  }

  lemma SameOwners(s: Logger, t: Logger)
    requires OwnedOnce(s) && s.Retired() == t.Retired() && s.nextId == t.nextId
    requires s.(buffers := t.buffers, currentBuffer := t.currentBuffer)
          == t.(level := s.level, callers := s.callers, running := s.running, pc := s.pc, output := s.output)
    ensures OwnedOnce(t)
  {
    assert Owners(t) == Owners(s);
  }

  lemma WriteOneOwners(s: Logger)
    requires OwnedOnce(s) && Step(s, WriteOne).Some?
    ensures OwnedOnce(Step(s, WriteOne).value)
  {
    IdsSplit(s.fullBuffers, 1);
    assert Ids(Logger.Fresh(s.nextId, 0)) == [];
    StillOwnedOnce(s, Step(s, WriteOne).value, multiset(Ids(s.fullBuffers[..1])), 0);
  }

  lemma EndRoundOwners(s: Logger)
    requires OwnedOnce(s) && Step(s, EndRound).Some?
    ensures OwnedOnce(Step(s, EndRound).value)
  {
    assert Ids(Logger.Fresh(s.nextId, 0)) == [] && Ids([]) == [];
    StillOwnedOnce(s, Step(s, EndRound).value, multiset(Ids(s.newEmptys)), 0);
  }

  lemma CollectOwners(s: Logger)
    requires OwnedOnce(s)
    ensures OwnedOnce(s.Collected())
  {
    var t := s.Collected();
    IdsSplit(s.newEmptys, s.Refill());
    IdsAppend(s.emptys, s.newEmptys[..s.Refill()]);
    assert Ids(Logger.Fresh(s.nextId, 0)) == [];
    StillOwnedOnce(s, t, multiset(Ids(s.fullBuffers)), 0);
  }

  lemma InsertKeeps(s: Logger, k: nat)
    requires Invariant(s) && Step(s, Insert(k)).Some?
    ensures Invariant(Step(s, Insert(k)).value)
  {
    hide OwnedOnce, Packs, Texts;
    StepOwners(s, Insert(k));
    assert forall b <- s.emptys :: b in s.emptys + s.newEmptys;
    assert Unwritten(s.Without(k)) == Unwritten(s);
    InsertPacks(s.Without(k), s.callers[k]);
    var t := Step(s, Insert(k)).value;
    assert forall b <- t.emptys + t.newEmptys :: b in s.emptys + s.newEmptys;
  }

  lemma WriteKeeps(s: Logger, l: Label)
    requires Invariant(s) && Step(s, l).Some? && (l.WriteOne? || l.Flush?)
    ensures Invariant(Step(s, l).value)
  {
    hide OwnedOnce, Packs, Texts, Unwritten;
    StepOwners(s, l);
    if l.WriteOne? {
      WriteOnePacks(s);
    } else {
      FlushPacks(s);
    }
  }

  lemma StepKeepsInvariant(s: Logger, l: Label)
    requires Invariant(s) && Step(s, l).Some?
    ensures Invariant(Step(s, l).value)
  {
    hide OwnedOnce, Packs, Texts, Logger.Inserted, Logger.Collected;
    var t := Step(s, l).value;
    match l {
      case Insert(k) =>
        InsertKeeps(s, k);
      case WriteOne =>
        WriteKeeps(s, l);
      case Flush =>
        WriteKeeps(s, l);
      case Enter =>
        StepOwners(s, l);
        CollectKeeps(s);
      case Wake =>
        StepOwners(s, l);
        CollectKeeps(s);
      case _ =>
        StepOwners(s, l);
        assert Unwritten(t) == Unwritten(s);
    }
  }

  lemma CollectKeeps(s: Logger)
    requires s.fullBuffers == [] && !s.pc.Flushed?
    requires forall b <- s.emptys + s.newEmptys :: b.text == ""
    requires |s.emptys| <= EMPTYS_MAX_SIZE
    ensures var t := s.Collected();
            && Unwritten(t) == Unwritten(s)
            && (forall b <- t.emptys + t.newEmptys :: b.text == "")
            && |t.emptys| <= EMPTYS_MAX_SIZE && |t.newEmptys| <= |s.newEmptys|
            && t.output == s.output && t.accepted == s.accepted && t.pc.Writing?
  {
    var t := s.Collected();
    assert t.Retired() == [];
    assert t.emptys + t.newEmptys == s.emptys + s.newEmptys;
  }

  lemma InitialOwned()
    ensures OwnedOnce(Initial)
  {
    assert Ids([Buf(0, "")]) == [0] && Ids([]) == [];
    assert Initial.Retired() == [Buf(0, "")];
    var pool := multiset(Ids(Logger.Fresh(1, EMPTYS_INIT_SIZE)));
    assert Owners(Initial) == multiset{0} + pool;
    forall id: nat ensures Owners(Initial)[id] <= if id < Initial.nextId then 1 else 0 {
      IdsOnce(Logger.Fresh(1, EMPTYS_INIT_SIZE), 1, id);
      assert (multiset{0} + pool)[id] == multiset{0}[id] + pool[id];
    }
  }

  lemma InitialInvariant()
    ensures Invariant(Initial)
  {
    hide OwnedOnce, Packs, Texts, Unwritten;
    InitialOwned();
    InitialPacks();
  }

  lemma InitialPacks()
    ensures Packs([Initial.output] + Texts(Unwritten(Initial)), Initial.accepted)
  {
    hide Logger.Fresh;
    assert Unwritten(Initial) == [Buf(0, "")];
    assert [""] + Texts([Buf(0, "")]) == ["", ""];
    assert Flatten([[], []]) == [] + Flatten([[]]) == [];
    assert Holds(["", ""], [[], []]);
  }

  lemma {:induction false} RunKeepsInvariant(s: Logger, ls: seq<Label>)
    requires Invariant(s) && Exec(s, ls).Some?
    ensures Invariant(Exec(s, ls).value)
    decreases ls
  {
    if ls != [] {
      StepKeepsInvariant(s, ls[0]);
      RunKeepsInvariant(Step(s, ls[0]).value, ls[1..]);
    }
  }

  /** The message that a label takes into the current buffer, if any. */
  function Taken(callers: seq<string>, l: Label): seq<string> {
    if l.Insert? && l.k < |callers| then [callers[l.k]] else []
  }

  /** The message that a label lets through the level test, if any. */
  function LetThrough(level: nat, l: Label): seq<string> {
    if l.Filter? && level <= l.level < NUM_LOG_LEVELS then [l.msg] else []
  }

  function CallersAfter(level: nat, callers: seq<string>, l: Label): seq<string> {
    if l.Insert? && l.k < |callers| then callers[..l.k] + callers[l.k + 1..] else callers + LetThrough(level, l)
  }

  function LevelAfter(level: nat, l: Label): nat {
    if l.SetLevel? then l.newLevel else level
  }

  /** The messages whose callers held the mutex, in this order, read off the run itself. */
  function Logged(level: nat, callers: seq<string>, ls: seq<Label>): seq<string>
    decreases ls
  {
    if ls == [] then []
    else Taken(callers, ls[0]) + Logged(LevelAfter(level, ls[0]), CallersAfter(level, callers, ls[0]), ls[1..])
  }

  /** The messages that passed the level test at the level of that moment. */
  function Passed(level: nat, ls: seq<Label>): seq<string>
    decreases ls
  {
    if ls == [] then [] else LetThrough(level, ls[0]) + Passed(LevelAfter(level, ls[0]), ls[1..])
  }

  lemma StepAccepts(s: Logger, l: Label)
    requires Step(s, l).Some?
    ensures var t := Step(s, l).value;
            && t.accepted == s.accepted + Taken(s.callers, l)
            && t.level == LevelAfter(s.level, l) && t.callers == CallersAfter(s.level, s.callers, l)
  {
  }

  lemma {:induction false} AcceptedInLockOrder(s: Logger, ls: seq<Label>)
    requires Exec(s, ls).Some?
    ensures Exec(s, ls).value.accepted == s.accepted + Logged(s.level, s.callers, ls)
    decreases ls
  {
    hide Step, Taken, CallersAfter, LevelAfter;
    if ls != [] {
      StepAccepts(s, ls[0]);
      AcceptedInLockOrder(Step(s, ls[0]).value, ls[1..]);
    }
  }

  lemma CallersKept(level: nat, callers: seq<string>, l: Label)
    ensures multiset(callers) + multiset(LetThrough(level, l))
         == multiset(Taken(callers, l)) + multiset(CallersAfter(level, callers, l))
  {
    if l.Insert? && l.k < |callers| {
      assert callers == callers[..l.k] + [callers[l.k]] + callers[l.k + 1..];
    }
  }

  /** What passed the level test is logged or still with its caller, each message as often as it passed. */
  lemma {:induction false} PassedIsLogged(s: Logger, ls: seq<Label>)
    requires Exec(s, ls).Some?
    ensures multiset(s.callers) + multiset(Passed(s.level, ls))
         == multiset(Logged(s.level, s.callers, ls)) + multiset(Exec(s, ls).value.callers)
    decreases ls
  {
    hide Step, Taken, CallersAfter, LevelAfter, LetThrough;
    if ls == [] {
      assert Passed(s.level, ls) == [] && Logged(s.level, s.callers, ls) == [];
    } else {
      var t := Step(s, ls[0]).value;
      StepAccepts(s, ls[0]);
      CallersKept(s.level, s.callers, ls[0]);
      PassedIsLogged(t, ls[1..]);
      var passed, logged := multiset(Passed(t.level, ls[1..])), multiset(Logged(t.level, t.callers, ls[1..]));
      assert multiset(s.callers) + (multiset(LetThrough(s.level, ls[0])) + passed)
          == multiset(s.callers) + multiset(LetThrough(s.level, ls[0])) + passed;
      assert multiset(Taken(s.callers, ls[0])) + (multiset(t.callers) + passed)
          == multiset(Taken(s.callers, ls[0])) + multiset(t.callers) + passed;
      assert multiset(Passed(s.level, ls)) == multiset(LetThrough(s.level, ls[0])) + passed;
      assert multiset(Logged(s.level, s.callers, ls)) == multiset(Taken(s.callers, ls[0])) + logged;
    }
  }

  /**
   In every interleaving: what is written, then what still waits in fullBuffers, buffers_ and
   currentBuffer_, is what was logged, in lock order; the output ends between two messages; and
   after the final flush nothing is missing.  What passed the level test is logged or with its caller.
   */
  lemma NothingLostNothingSplit(ls: seq<Label>)
    requires Exec(Initial, ls).Some?
    ensures var s, logged := Exec(Initial, ls).value, Logged(INFO, [], ls);
            && multiset(Passed(INFO, ls)) == multiset(logged) + multiset(s.callers)
            && s.output + Concat(Texts(Unwritten(s))) == Concat(logged)
            && (exists k :: 0 <= k <= |logged| && s.output == Concat(logged[..k]))
            && Packs([s.output] + Texts(Unwritten(s)), logged)
            && (s.pc.Flushed? ==> s.output == Concat(logged))
  {
    InitialInvariant();
    RunKeepsInvariant(Initial, ls);
    AcceptedInLockOrder(Initial, ls);
    PassedIsLogged(Initial, ls);
    var s := Exec(Initial, ls).value;
    assert s.accepted == Logged(INFO, [], ls);
    PackedBytes(s.output, Texts(Unwritten(s)), s.accepted);
    if s.pc.Flushed? {
      assert Texts(Unwritten(s)) == [];
      assert s.output + "" == s.output;
    }
  }

  /** In every interleaving no buffer has two owners and the pool holds at most 20 buffers, all empty. */
  lemma OneOwnerPerBuffer(ls: seq<Label>)
    requires Exec(Initial, ls).Some?
    ensures var s := Exec(Initial, ls).value;
            && OwnedOnce(s)
            && |s.emptys| <= EMPTYS_MAX_SIZE && (forall b <- s.emptys :: b.text == "")
  {
    InitialInvariant();
    RunKeepsInvariant(Initial, ls);
    var s := Exec(Initial, ls).value;
    assert forall b <- s.emptys :: b in s.emptys + s.newEmptys;
  }

  /** Every buffer with text is within its reserved size. */
  predicate Fits(s: Logger) {
    forall b <- s.Retired() + s.fullBuffers :: |b.text| <= BUFFER_SIZE
  }

  predicate AlwaysFits(s: Logger, ls: seq<Label>)
    decreases ls
  {
    Fits(s) && (ls == [] || (Step(s, ls[0]).Some? ==> AlwaysFits(Step(s, ls[0]).value, ls[1..])))
  }

  lemma InsertFits(s: Logger, msg: string)
    requires Fits(s) && forall b <- s.emptys :: b.text == ""
    ensures Fits(s.Inserted(msg)) <==> |msg| <= BUFFER_SIZE
  {
    var t := s.Inserted(msg);
    var b := t.currentBuffer.value;
    assert t.Retired()[|t.Retired()| - 1] == b;
    assert b in t.Retired() + t.fullBuffers;
    if s.currentBuffer.Some? {
      assert s.Retired()[|s.buffers|] == s.currentBuffer.value;
      assert s.currentBuffer.value in s.Retired() + s.fullBuffers;
    }
    if s.NoRoom(msg) {
      assert s.emptys != [] ==> s.emptys[|s.emptys| - 1] in s.emptys;
      assert b.text == "" + msg;
      assert t.Retired() == s.Retired() + [b];
    } else {
      assert t.Retired() == s.buffers + [b] && s.Retired() == s.buffers + [s.currentBuffer.value];
    }
    forall x | x in t.Retired() + t.fullBuffers && x != b ensures |x.text| <= BUFFER_SIZE {
      assert x in s.Retired() + s.fullBuffers;
    }
  }

  lemma QuietStepFits(s: Logger, l: Label)
    requires Invariant(s) && Fits(s) && Step(s, l).Some? && !l.Insert?
    ensures Fits(Step(s, l).value)
  {
    var t := Step(s, l).value;
    forall x | x in t.Retired() + t.fullBuffers ensures |x.text| <= BUFFER_SIZE {
      assert x in s.Retired() + s.fullBuffers;
    }
  }

  lemma StepFits(s: Logger, l: Label)
    requires Invariant(s) && Fits(s) && Step(s, l).Some?
    ensures Fits(Step(s, l).value) <==> WithinBuffer(Taken(s.callers, l))
  {
    if !l.Insert? {
      QuietStepFits(s, l);
    } else {
      var msg := s.callers[l.k];
      assert forall b <- s.emptys :: b in s.emptys + s.newEmptys;
      assert Fits(s.Without(l.k));
      InsertFits(s.Without(l.k), msg);
      assert Taken(s.callers, l) == [msg];
    }
  }

  predicate WithinBuffer(msgs: seq<string>) {
    forall m <- msgs :: |m| <= BUFFER_SIZE
  }

  lemma WithinBufferAppend(a: seq<string>, b: seq<string>)
    ensures WithinBuffer(a + b) <==> WithinBuffer(a) && WithinBuffer(b)
  {
    if WithinBuffer(a + b) {
      assert forall m <- a :: m in a + b;
      assert forall m <- b :: m in a + b;
    }
  }

  /** No buffer ever outgrows its reserved BUFFER_SIZE bytes exactly when no logged message does. */
  lemma {:induction false} BuffersFitExactlyWhen(s: Logger, ls: seq<Label>)
    requires Invariant(s) && Fits(s) && Exec(s, ls).Some?
    ensures AlwaysFits(s, ls) <==> WithinBuffer(Logged(s.level, s.callers, ls))
    decreases ls
  {
    if ls != [] {
      var t := Step(s, ls[0]).value;
      StepKeepsInvariant(s, ls[0]);
      StepFits(s, ls[0]);
      StepAccepts(s, ls[0]);
      WithinBufferAppend(Taken(s.callers, ls[0]), Logged(t.level, t.callers, ls[1..]));
      if Fits(t) {
        BuffersFitExactlyWhen(t, ls[1..]);
      }
    }
  }

  /** An outgrown current buffer is never retired by log again: BUFFER_SIZE - size has wrapped. */
  lemma OutgrownBufferKeepsGrowing(s: Logger, msg: string)
    requires s.currentBuffer.Some?
    requires BUFFER_SIZE < |s.currentBuffer.value.text| <= TWO64 + BUFFER_SIZE - |msg|
    ensures var t := s.Inserted(msg);
            t.currentBuffer == Some(Buf(s.currentBuffer.value.id, s.currentBuffer.value.text + msg))
            && t.buffers == s.buffers
  {
    var over := |s.currentBuffer.value.text| - BUFFER_SIZE;
    assert (-over) % TWO64 == (TWO64 - over) % TWO64;
  }

  lemma InitialFits()
    ensures Fits(Initial)
  {
    assert Initial.Retired() == [Buf(0, "")];
  }

  /** A message longer than a buffer, and then any other: both are written into one buffer, past its reserved size. */
  lemma OutgrowingRun(long: string, next: string)
    requires BUFFER_SIZE < |long| && |long| + |next| <= TWO64 + BUFFER_SIZE
    ensures var ls := [Filter(INFO, long), Insert(0), Filter(INFO, next), Insert(0)];
            && Exec(Initial, ls).Some? && !AlwaysFits(Initial, ls)
            && Exec(Initial, ls).value.currentBuffer == Some(Buf(EMPTYS_INIT_SIZE, long + next))
  {
    hide Exec, AlwaysFits;
    var ls := [Filter(INFO, long), Insert(0), Filter(INFO, next), Insert(0)];
    var s := LongInserted(long);
    var t := NextInserted(s, long, next);
    ExecSplit(Initial, [Filter(INFO, long), Insert(0)], [Filter(INFO, next), Insert(0)]);
    assert ls == [Filter(INFO, long), Insert(0)] + [Filter(INFO, next), Insert(0)];
    InitialInvariant();
    InitialFits();
    BuffersFitExactlyWhen(Initial, ls);
    LongLogged(long, next);
  }

  lemma {:induction false} ExecSplit(s: Logger, a: seq<Label>, b: seq<Label>)
    requires Exec(s, a).Some?
    ensures Exec(s, a + b) == Exec(Exec(s, a).value, b)
    decreases |a|
  {
    hide Step;
    if a == [] {
      assert a + b == b;
    } else {
      assert (a + b)[1..] == a[1..] + b;
      ExecSplit(Step(s, a[0]).value, a[1..], b);
    }
  }

  lemma LongInserted(long: string) returns (s: Logger)
    requires BUFFER_SIZE < |long|
    ensures Exec(Initial, [Filter(INFO, long), Insert(0)]) == Some(s)
    ensures s.callers == [] && s.level == INFO && s.pc.Testing? && s.currentBuffer == Some(Buf(EMPTYS_INIT_SIZE, long))
  {
    hide Exec;
    var waiting := Initial.(callers := [long]);
    assert Initial.callers + [long] == [long];
    assert waiting.NoRoom(long);
    s := waiting.Without(0).Inserted(long);
    assert "" + long == long;
    ExecTwo(Initial, Filter(INFO, long), waiting, Insert(0), s);
  }

  lemma NextInserted(s: Logger, long: string, next: string) returns (t: Logger)
    requires BUFFER_SIZE < |long| && |long| + |next| <= TWO64 + BUFFER_SIZE
    requires s.callers == [] && s.level == INFO && s.pc.Testing? && s.currentBuffer == Some(Buf(EMPTYS_INIT_SIZE, long))
    ensures Exec(s, [Filter(INFO, next), Insert(0)]) == Some(t)
    ensures t.currentBuffer == Some(Buf(EMPTYS_INIT_SIZE, long + next))
  {
    hide Exec, Logger.Inserted;
    var waiting := s.(callers := [next]);
    assert s.callers + [next] == [next];
    OutgrownBufferKeepsGrowing(waiting.Without(0), next);
    t := waiting.Without(0).Inserted(next);
    ExecTwo(s, Filter(INFO, next), waiting, Insert(0), t);
  }

  lemma LongLogged(long: string, next: string)
    requires BUFFER_SIZE < |long|
    ensures !WithinBuffer(Logged(INFO, [], [Filter(INFO, long), Insert(0), Filter(INFO, next), Insert(0)]))
  {
    var ls := [Filter(INFO, long), Insert(0), Filter(INFO, next), Insert(0)];
    assert ls[1..] == [Insert(0), Filter(INFO, next), Insert(0)];
    assert CallersAfter(INFO, [], ls[0]) == [long];
    var logged := Logged(INFO, [], ls);
    assert logged == [] + Logged(INFO, [long], ls[1..]);
    assert Logged(INFO, [long], ls[1..])[0] == long;
    assert logged[0] == long;
  }

  lemma FirstText(output: string, bufs: seq<Buf>)
    requires bufs != []
    ensures output + Concat(Texts(bufs)) == output + bufs[0].text + Concat(Texts(bufs[1..]))
  {
    assert Texts(bufs)[1..] == Texts(bufs[1..]);
    assert Concat(Texts(bufs)) == bufs[0].text + Concat(Texts(bufs[1..]));
  }

  /** Writing back one buffer after another, undisturbed. */
  lemma {:induction false} WriteBackRuns(s: Logger, rest: seq<Label>)
    requires s.pc.Writing?
    ensures Exec(s, Repeat(WriteOne, |s.fullBuffers|) + rest)
         == Exec(s.(output := s.output + Concat(Texts(s.fullBuffers)), fullBuffers := []), rest)
    decreases |s.fullBuffers|
  {
    hide Repeat, Texts;
    if s.fullBuffers == [] {
      NothingToWrite(s.output, rest);
    } else {
      RepeatFirst(WriteOne, |s.fullBuffers|, rest);
      WriteBackRuns(Step(s, WriteOne).value, rest);
      FirstText(s.output, s.fullBuffers);
    }
  }

  lemma NothingToWrite(output: string, rest: seq<Label>)
    ensures Repeat(WriteOne, 0) + rest == rest && output + Concat(Texts([])) == output
  {
  }

  lemma ExecOne(s: Logger, l: Label, t: Logger)
    requires Step(s, l) == Some(t)
    ensures Exec(s, [l]) == Some(t)
  {
    assert [l][1..] == [];
  }

  lemma ExecTwo(s: Logger, l: Label, t: Logger, m: Label, u: Logger)
    requires Step(s, l) == Some(t) && Step(t, m) == Some(u)
    ensures Exec(s, [l, m]) == Some(u)
  {
    assert [l, m][1..] == [m];
    ExecOne(t, m, u);
  }

  // ---- leaving the loop -----------------------------------------------------------------------

  /** The collector has left its loop for the final flush. */
  predicate LeftLoop(s: Logger) { s.pc.Flushing? || s.pc.Flushed? }

  /** Some test of the flag in the run comes behind a stop with no other test between. */
  predicate TestedAfterStop(ls: seq<Label>, stopped: bool := false)
    decreases ls
  {
    if ls == [] then false
    else match ls[0]
      case Stop => TestedAfterStop(ls[1..], true)
      case TestRunning => stopped || TestedAfterStop(ls[1..], false)
      case _ => TestedAfterStop(ls[1..], stopped)
  }

  lemma {:induction false} LeftForGood(s: Logger, ls: seq<Label>)
    requires LeftLoop(s) && Exec(s, ls).Some?
    ensures LeftLoop(Exec(s, ls).value)
    decreases ls
  {
    if ls != [] {
      LeftForGood(Step(s, ls[0]).value, ls[1..]);
    }
  }

  lemma StepLeaves(s: Logger, l: Label)
    requires !LeftLoop(s) && Step(s, l).Some?
    ensures LeftLoop(Step(s, l).value) <==> l.TestRunning? && !s.running
    ensures Step(s, l).value.running == if l.Stop? then false else if l.TestRunning? then true else s.running
  {
  }

  /** The collector leaves its loop exactly when it tests the flag behind a stop. */
  lemma {:induction false} LeavesExactlyWhen(s: Logger, ls: seq<Label>)
    requires !LeftLoop(s) && Exec(s, ls).Some?
    ensures LeftLoop(Exec(s, ls).value) <==> TestedAfterStop(ls, !s.running)
    decreases ls
  {
    hide Step, LeftLoop;
    if ls == [] {
      assert Exec(s, ls) == Some(s);
    } else {
      var t := Step(s, ls[0]).value;
      StepLeaves(s, ls[0]);
      if LeftLoop(t) {
        LeftForGood(t, ls[1..]);
      } else {
        LeavesExactlyWhen(t, ls[1..]);
      }
    }
  }

  /** The steps that finish the collector's round when nobody disturbs it. */
  function ToTesting(s: Logger): seq<Label> {
    match s.pc
    case Preparing => [Prepare] + FromEntering(s)
    case Entering => FromEntering(s)
    case Waiting => [Wake] + WriteOut(|s.Retired()|)
    case Writing => WriteOut(|s.fullBuffers|)
    case _ => []
  }

  function FromEntering(s: Logger): seq<Label> {
    (if s.buffers == [] then [Enter, Wake] else [Enter]) + WriteOut(|s.Retired()|)
  }

  function WriteOut(n: nat): seq<Label> { Repeat(WriteOne, n) + [EndRound] }

  /** Writing to the end of the round. */
  lemma WriteOutRuns(s: Logger)
    requires s.pc.Writing?
    ensures Exec(s, WriteOut(|s.fullBuffers|)) ==
            Some(s.(output := s.output + Concat(Texts(s.fullBuffers)), fullBuffers := [], newEmptys := [], pc := Testing))
  {
    hide Exec, Repeat, Texts;
    WriteBackRuns(s, [EndRound]);
    var written := s.(output := s.output + Concat(Texts(s.fullBuffers)), fullBuffers := []);
    ExecOne(written, EndRound, written.(newEmptys := [], pc := Testing));
  }

  /** A collection and its writing leave nothing unwritten. */
  lemma CollectedRuns(s: Logger)
    requires Invariant(s) && !s.pc.Flushed? && s.fullBuffers == []
    ensures Exec(s.Collected(), WriteOut(|s.Retired()|)).Some?
    ensures var t := Exec(s.Collected(), WriteOut(|s.Retired()|)).value;
            && t.pc.Testing? && t.running == s.running && t.accepted == s.accepted && t.output == Concat(s.accepted)
            && t.fullBuffers == [] && t.Retired() == []
  {
    hide Exec, WriteOut, Texts, Packs, OwnedOnce;
    WriteOutRuns(s.Collected());
    assert Unwritten(s) == s.Retired();
    PackedBytes(s.output, Texts(s.Retired()), s.accepted);
  }

  lemma EnterRuns(s: Logger)
    requires s.pc.Entering?
    ensures Exec(s, FromEntering(s)) == Exec(s.Collected(), WriteOut(|s.Retired()|))
  {
    hide Exec, WriteOut, Logger.Collected, Logger.Retired;
    var writing := WriteOut(|s.Retired()|);
    if s.buffers == [] {
      var waiting := s.(pc := Waiting);
      SameCollection(s, waiting);
      ExecFirst(s, Enter, [Wake] + writing);
      ExecFirst(waiting, Wake, writing);
      assert [Enter, Wake] + writing == [Enter] + ([Wake] + writing);
    } else {
      ExecFirst(s, Enter, writing);
    }
  }

  lemma SameCollection(s: Logger, waiting: Logger)
    requires waiting == s.(pc := Waiting)
    ensures waiting.Collected() == s.Collected()
  {
  }

  lemma ExecFirst(s: Logger, l: Label, rest: seq<Label>)
    requires Step(s, l).Some?
    ensures Exec(s, [l] + rest) == Exec(Step(s, l).value, rest)
  {
    assert ([l] + rest)[1..] == rest;
  }

  /** The round ends: a collector that had not collected yet has then written all that was accepted. */
  lemma RoundEnds(s: Logger)
    requires Invariant(s) && !LeftLoop(s)
    ensures Exec(s, ToTesting(s)).Some?
    ensures var t := Exec(s, ToTesting(s)).value;
            && t.pc.Testing? && t.running == s.running && t.accepted == s.accepted
            && (s.pc.Preparing? || s.pc.Entering? || s.pc.Waiting? ==> t.output == Concat(s.accepted))
  {
    hide Exec, WriteOut, Packs, OwnedOnce, Logger.Collected, FromEntering, Texts, Unwritten;
    match s.pc {
      case Preparing =>
        var entering := Step(s, Prepare).value;
        StepKeepsInvariant(s, Prepare);
        ExecFirst(s, Prepare, FromEntering(s));
        SameEntering(s, entering);
        EnterRuns(entering);
        CollectedRuns(entering);
      case Entering =>
        EnterRuns(s);
        CollectedRuns(s);
      case Waiting =>
        ExecFirst(s, Wake, WriteOut(|s.Retired()|));
        CollectedRuns(s);
      case Writing =>
        WriteOutRuns(s);
      case _ =>
        ExecNone(s);
    }
  }

  lemma SameEntering(s: Logger, entering: Logger)
    requires entering.buffers == s.buffers && entering.currentBuffer == s.currentBuffer
    ensures FromEntering(s) == FromEntering(entering)
  {
  }

  lemma ExecNone(s: Logger)
    ensures Exec(s, []) == Some(s)
  {
  }

  /** An undisturbed round from the test of the flag on writes everything accepted before it. */
  lemma RoundWritesAll(s: Logger)
    requires Invariant(s) && s.pc.Testing? && s.running
    ensures Exec(s, [TestRunning] + ToTesting(s.(pc := Preparing))).Some?
    ensures var t := Exec(s, [TestRunning] + ToTesting(s.(pc := Preparing))).value;
            t.pc.Testing? && t.running && t.accepted == s.accepted && t.output == Concat(s.accepted)
  {
    hide Exec, ToTesting, Packs, OwnedOnce;
    var preparing := s.(pc := Preparing);
    StepKeepsInvariant(s, TestRunning);
    ExecFirst(s, TestRunning, ToTesting(preparing));
    RoundEnds(preparing);
  }

  /** Wherever the collector stands, a stop makes it flush: it ends its round, leaves the loop and writes the rest. */
  lemma StopFlushes(s: Logger)
    requires Invariant(s) && !LeftLoop(s)
    ensures var ls := [Stop] + (ToTesting(s) + [TestRunning, Flush]);
            && Exec(s, ls).Some? && Exec(s, ls).value.pc.Flushed?
            && Exec(s, ls).value.output == Concat(s.accepted)
  {
    hide Exec, ToTesting, Packs, OwnedOnce;
    var stopped := s.(running := false);
    SameRound(s, stopped);
    StepKeepsInvariant(s, Stop);
    ExecFirst(s, Stop, ToTesting(s) + [TestRunning, Flush]);
    RoundEnds(stopped);
    RunKeepsInvariant(stopped, ToTesting(s));
    var testing := Exec(stopped, ToTesting(s)).value;
    ExecSplit(stopped, ToTesting(s), [TestRunning, Flush]);
    LastSteps(testing);
  }

  lemma SameRound(s: Logger, stopped: Logger)
    requires stopped == s.(running := false)
    ensures ToTesting(s) == ToTesting(stopped)
  {
  }

  lemma LastSteps(s: Logger)
    requires Invariant(s) && s.pc.Testing? && !s.running
    ensures var t := Exec(s, [TestRunning, Flush]);
            t.Some? && t.value.pc.Flushed? && t.value.output == Concat(s.accepted)
  {
    hide Exec, Packs, OwnedOnce, Texts;
    var flushing := s.(running := true, pc := Flushing);
    var flushed := Step(flushing, Flush).value;
    ExecTwo(s, TestRunning, flushing, Flush, flushed);
    assert Unwritten(s) == s.Retired();
    PackedBytes(s.output, Texts(s.Retired()), s.accepted);
  }

  /** So in every run: stop at any moment before the flush, and as the collector goes on all that was logged is written. */
  lemma StopNeverLoses(ls: seq<Label>)
    requires Exec(Initial, ls).Some? && !TestedAfterStop(ls)
    ensures var s := Exec(Initial, ls).value;
            && !LeftLoop(s)
            && var end := Exec(s, [Stop] + (ToTesting(s) + [TestRunning, Flush]));
               end.Some? && end.value.pc.Flushed? && end.value.output == Concat(Logged(INFO, [], ls))
  {
    hide Exec, ToTesting, Logged, TestedAfterStop;
    InitialInvariant();
    RunKeepsInvariant(Initial, ls);
    LeavesExactlyWhen(Initial, ls);
    AcceptedInLockOrder(Initial, ls);
    var s := Exec(Initial, ls).value;
    assert s.accepted == Logged(INFO, [], ls);
    StopFlushes(s);
  }

  // ---- the pool -------------------------------------------------------------------------------

  /** Within its reserved size a buffer is left exactly when the message does not fit behind its text. */
  lemma LeavesBufferExactlyWhen(s: Logger, msg: string)
    requires s.currentBuffer.Some? ==> |s.currentBuffer.value.text| <= BUFFER_SIZE
    ensures s.NoRoom(msg) <==> s.currentBuffer.None? || |s.currentBuffer.value.text| + |msg| > BUFFER_SIZE
  {
  }

  /** The next current buffer: the last spare one, or a new one exactly when none is spare. */
  lemma TakesFromPool(s: Logger, msg: string)
    ensures var t := s.Inserted(msg);
            && t.currentBuffer.Some?
            && (!s.NoRoom(msg) ==>
                  t.emptys == s.emptys && t.nextId == s.nextId && t.currentBuffer.value.id == s.currentBuffer.value.id)
            && (s.NoRoom(msg) && s.emptys == [] ==>
                  t.emptys == [] && t.nextId == s.nextId + 1 && t.currentBuffer.value.id == s.nextId)
            && (s.NoRoom(msg) && s.emptys != [] ==>
                  s.emptys == t.emptys + [s.emptys[|s.emptys| - 1]] && t.nextId == s.nextId
                  && t.currentBuffer.value.id == s.emptys[|s.emptys| - 1].id)
  {
  }

  /** A collection tops the pool up with the round's new buffers, as far as 20 allow. */
  lemma CollectionRefills(s: Logger)
    requires |s.emptys| <= EMPTYS_MAX_SIZE
    ensures |s.Collected().emptys| == if |s.emptys| + |s.newEmptys| <= 20 then |s.emptys| + |s.newEmptys| else 20
    ensures s.Collected().emptys + s.Collected().newEmptys == s.emptys + s.newEmptys
  {
  }

  /**
   A round up to its writing: four new empty buffers, as far as 20 allow, come behind the spare ones, and the
   full ones and the current one are what is to be written.
   */
  lemma RoundTopsUp(s: Logger)
    requires s.pc.Preparing? && |s.emptys| <= 20
    ensures var t := Exec(s, [Prepare] + if s.buffers == [] then [Enter, Wake] else [Enter]);
            && t.Some? && t.value.pc.Writing? && t.value.nextId == s.nextId + 4
            && |t.value.emptys| == (if |s.emptys| <= 16 then |s.emptys| + 4 else 20) && s.emptys <= t.value.emptys
            && (forall i :: |s.emptys| <= i < |t.value.emptys| ==> t.value.emptys[i] == Buf(s.nextId + i - |s.emptys|, ""))
            && t.value.currentBuffer.None? && t.value.buffers == []
            && t.value.fullBuffers == s.buffers + (if s.currentBuffer.Some? then [s.currentBuffer.value] else [])
  {
    hide Exec;
    var entering := Step(s, Prepare).value;
    CollectionRefills(entering);
    if s.buffers == [] {
      var waiting := entering.(pc := Waiting);
      ExecFirst(s, Prepare, [Enter, Wake]);
      ExecTwo(entering, Enter, waiting, Wake, waiting.Collected());
    } else {
      ExecFirst(s, Prepare, [Enter]);
      ExecOne(entering, Enter, entering.Collected());
    }
  }

  /** The logger object.  fullBuffers and newEmptys are locals of backThread that outlive one step. */
  class LoggerObject {
    var level: nat
    var callers: seq<string>   // locals of the callers between the level test and the mutex
    var currentBuffer: Option<Buf>
    var buffers: seq<Buf>
    var emptys: seq<Buf>
    var fullBuffers: seq<Buf>
    var newEmptys: seq<Buf>
    var running: bool
    var isInCollectLog: bool
    var pc: Pc
    var nextId: nat
    var output: string
    ghost var accepted: seq<string>

    /** isInCollectLog_ is set and cleared inside one critical section. */
    ghost predicate Valid()
      reads this
    {
      !isInCollectLog
    }

    ghost function Abs(): Logger
      reads this
    {
      Logger(level, callers, currentBuffer, buffers, emptys, fullBuffers, newEmptys, running, pc, nextId, output, accepted)
    }

    /** The constructor; start() leaves running set. */
    constructor ()
      ensures Valid() && Abs() == Initial
    {
      level, callers, output, accepted := INFO, [], "", [];
      currentBuffer, buffers := Some(Buf(0, "")), [];
      emptys := Logger.Fresh(1, EMPTYS_INIT_SIZE);
      fullBuffers, newEmptys := [], [];
      running, isInCollectLog, pc, nextId := true, false, Testing, EMPTYS_INIT_SIZE + 1;
    }

    /** The level test; header is the prepended time and level. */
    method TestLevel(msgLevel: nat, header: string, line: string) returns (passes: bool)
      requires Valid()
      modifies this`callers
      ensures Valid() && Step(old(Abs()), Filter(msgLevel, header + line)) == Some(Abs())
      ensures passes <==> level <= msgLevel < NUM_LOG_LEVELS
      ensures callers == if passes then old(callers) + [header + line] else old(callers)
    {
      passes := !(msgLevel < level || msgLevel >= NUM_LOG_LEVELS);
      if passes {
        callers := callers + [header + line];
      }
    }

    /** The critical section of log, for the k-th caller that passed the test; it always notifies the collector. */
    method InsertMessage(k: nat) returns (notified: bool)
      requires Valid() && !pc.Flushed? && k < |callers|
      modifies this
      ensures Valid() && Step(old(Abs()), Insert(k)) == Some(Abs()) && notified
    {
      var msg := callers[k];
      callers := callers[..k] + callers[k + 1..];
      if currentBuffer.None? || (BUFFER_SIZE - |currentBuffer.value.text|) % TWO64 < |msg| {
        SwitchBuffer();
      }
      currentBuffer := Some(Buf(currentBuffer.value.id, currentBuffer.value.text + msg));
      accepted := accepted + [msg];
      notified := !isInCollectLog;
    }

    /** The current buffer has no room: retire it and take an empty one. */
    method SwitchBuffer()
      modifies this
      ensures Abs() == old(Abs()).Switched() && isInCollectLog == old(isInCollectLog)
    {
      if currentBuffer.Some? {
        buffers := buffers + [currentBuffer.value];
      }
      if emptys == [] {
        currentBuffer := Some(Buf(nextId, ""));
        nextId := nextId + 1;
      } else {
        currentBuffer := Some(emptys[|emptys| - 1]);
        emptys := emptys[..|emptys| - 1];
      }
    }

    /** log, undisturbed between its level test and the mutex. */
    method Log(msgLevel: nat, header: string, line: string) returns (notified: bool)
      requires Valid() && !pc.Flushed?
      modifies this
      ensures Valid() && (notified <==> old(level) <= msgLevel < NUM_LOG_LEVELS)
      ensures var test := Filter(msgLevel, header + line);
              Exec(old(Abs()), if notified then [test, Insert(old(|callers|))] else [test]) == Some(Abs())
    {
      hide Step;
      ghost var start := Abs();
      var passes := TestLevel(msgLevel, header, line);
      ghost var tested := Abs();
      notified := false;
      if passes {
        notified := InsertMessage(|callers| - 1);
        ExecTwo(start, Filter(msgLevel, header + line), tested, Insert(|start.callers|), Abs());
      } else {
        ExecOne(start, Filter(msgLevel, header + line), tested);
      }
    }

    /** The head of a round: the loop test and the allocation of newEmptys. */
    method BeginRound()
      requires Valid() && pc.Testing?
      modifies this
      ensures Valid()
      ensures Exec(old(Abs()), if old(running) then [TestRunning, Prepare] else [TestRunning]) == Some(Abs())
      ensures running && pc == if old(running) then Entering else Flushing
    {
      hide Exec;
      ghost var start := Abs();
      var goOn := running;
      running := true;
      pc := if goOn then Preparing else Flushing;
      ghost var tested := Abs();
      if goOn {
        AllocateEmptys();
        ExecTwo(start, TestRunning, tested, Prepare, Abs());
      } else {
        ExecOne(start, TestRunning, tested);
      }
    }

    /** The allocation of newEmptys. */
    method AllocateEmptys()
      requires pc.Preparing?
      modifies this`newEmptys, this`nextId, this`pc
      ensures Step(old(Abs()), Prepare) == Some(Abs())
    {
      newEmptys := [];
      var first := nextId;
      while |newEmptys| < EMPTYS_INIT_SIZE
        invariant |newEmptys| <= EMPTYS_INIT_SIZE && nextId == first + |newEmptys| && pc.Preparing?
        invariant newEmptys == Logger.Fresh(first, |newEmptys|)
      {
        newEmptys := newEmptys + [Buf(nextId, "")];
        nextId := nextId + 1;
      }
      pc := Entering;
    }

    /** The collector finds nothing to do: it releases the mutex and waits. */
    method WaitForMessages()
      requires Valid() && pc.Entering? && buffers == []
      modifies this`pc
      ensures Valid() && Step(old(Abs()), Enter) == Some(Abs())
    {
      pc := Waiting;
    }

    /** The collector's critical section from the wait onwards. */
    method Collect()
      requires Valid() && |newEmptys| <= EMPTYS_INIT_SIZE
      requires (pc.Entering? && buffers != []) || pc.Waiting?
      modifies this
      ensures Valid() && Abs() == old(Abs()).Collected()
    {
      hide RefillCount, Logger.Retired;
      ghost var start := Abs();
      isInCollectLog := true;
      RetireCurrent();
      fullBuffers, buffers := buffers, [];
      ghost var taken := start.(fullBuffers := start.Retired(), currentBuffer := None, buffers := []);
      assert Abs() == taken;
      isInCollectLog := false;
      RefillEmptys();
      pc := Writing;
    }

    method RetireCurrent()
      modifies this`buffers, this`currentBuffer
      ensures buffers == old(Abs()).Retired() && currentBuffer.None?
    {
      if currentBuffer.Some? {
        buffers := buffers + [currentBuffer.value];
        currentBuffer := None;
      }
    }

    method RefillEmptys()
      modifies this`emptys, this`newEmptys
      ensures var s := old(Abs()); var k := RefillCount(|s.emptys|, |s.newEmptys|);
              Abs() == s.(emptys := s.emptys + s.newEmptys[..k], newEmptys := s.newEmptys[k..])
    {
      var i := 0;
      while |emptys| < EMPTYS_MAX_SIZE && i < |newEmptys|
        invariant i <= |newEmptys| && newEmptys == old(newEmptys)
        invariant emptys == old(emptys) + newEmptys[..i]
        invariant i > 0 ==> |emptys| <= EMPTYS_MAX_SIZE
      {
        emptys := emptys + [newEmptys[i]];
        i := i + 1;
      }
      newEmptys := newEmptys[i..];
    }

    /** write() for each buffer of bufs. */
    method WriteAll(bufs: seq<Buf>)
      modifies this`output
      ensures output == old(output) + Concat(Texts(bufs))
    {
      for i := 0 to |bufs|
        invariant output == old(output) + Concat(Texts(bufs[..i]))
      {
        assert Texts(bufs[..i + 1]) == Texts(bufs[..i]) + [bufs[i].text];
        ConcatSnoc(Texts(bufs[..i]), bufs[i].text);
        output := output + bufs[i].text;
      }
      assert bufs[..|bufs|] == bufs;
    }

    /** Writing the collected buffers back, and the end of the round. */
    method WriteBack()
      requires Valid() && pc.Writing?
      modifies this
      ensures Valid()
      ensures Exec(old(Abs()), Repeat(WriteOne, |old(fullBuffers)|) + [EndRound]) == Some(Abs())
    {
      WriteBackRuns(Abs(), [EndRound]);
      assert [EndRound][1..] == [];
      WriteAll(fullBuffers);
      fullBuffers, newEmptys, pc := [], [], Testing;
    }

    /** After the loop: whatever was logged since the last collection. */
    method FlushRest()
      requires Valid() && pc.Flushing?
      modifies this
      ensures Valid() && Step(old(Abs()), Flush) == Some(Abs())
    {
      RetireCurrent();
      WriteAll(buffers);
      pc := Flushed;
    }
  }
}
