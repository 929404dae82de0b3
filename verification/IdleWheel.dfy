/**
 Idle connections: the main thread accepts connections and ticks a timing wheel once a second,
 worker threads receive, close, and run the delete tasks that the wheel posts.  The main thread
 reads a connection's state and stamp while its worker may change them, so each such read is a step
 of its own, and what was read is kept in the phase; every interleaving with the workers is a run.

 M is both the number of buckets and the number of idle seconds allowed.
 */
module IdleWheels {
  import opened Common

  const MAX_IDLE_SECONDS := 60 * 10

  /** A worker's copy of timeInProcess, and the true tick at which it was made. */
  datatype Reading = Reading(stamp: nat, tick: nat)

  /**
   A connection object.  lastReceiveTime is the 32-bit stamp the code keeps; loaded is the time a
   worker has read for a stamp that it has not stored yet.  The rest but state, registered and
   deleted is history: the number of destroys, the true tick of the stamp and of the worker's close,
   the tick at which the scan found the connection overdue with the tick it was heard at, and whether
   its worker closed it while it was being reaped, or between the two reads of its state.
   */
  datatype Conn = Conn(
    state: State, lastReceiveTime: nat, loaded: Option<Reading>, registered: bool, deleted: bool, destroys: nat,
    heard: nat, closedAt: nat, reap: Option<(nat, nat)>, raced: bool, slipped: bool)
  {
    /** TcpConnection::destroy. */
    function Destroyed(): Conn {
      this.(state := CLOSED, registered := false, destroys := destroys + 1)
    }

    /** The idle test of the scan; the subtraction is in uint32_t. */
    predicate Overdue(timeInProcess: nat, M: nat) {
      (timeInProcess - lastReceiveTime) % TWO32 > M
    }
  }

  function NewConn(timeInProcess: nat, ticks: nat): Conn {
    Conn(ESTABLISHED, timeInProcess, None, true, false, 0, ticks, 0, None, false, false)
  }

  lemma WrapOnce(x: nat, n: nat)
    requires 0 < n && x < 2 * n
    ensures x % n == if x < n then x else x - n
  {
    if n <= x {
      assert x == n * 1 + (x - n);
    }
  }

  datatype Task = DeleteConn(conn: nat) | DestroyThenDelete(conn: nat)

  /** What one round of the scan does with its connection in the end. */
  datatype Verdict = PostDelete | PostDestroy | Keep | Drop

  /** Where the main thread stands; next is the position in the bucket that it scans. */
  datatype Phase =
    | Idle
    | Scanning(next: nat)                    // before the first read of the state
    | LookingAgain(next: nat)                // the first read was not CLOSED
    | Stamping(next: nat)                    // the second read was ESTABLISHED
    | Deciding(next: nat, verdict: Verdict)  // all reads done
  {
    /** The scan has the connection at next in its hand. */
    predicate MidRound() { LookingAgain? || Stamping? || Deciding? }
  }

  /** What a round decides about a connection that nobody touches meanwhile. */
  function Judge(c: Conn, timeInProcess: nat, M: nat): Verdict {
    match c.state
    case CLOSED => PostDelete
    case ESTABLISHED => if c.Overdue(timeInProcess, M) then PostDestroy else Keep
    case _ => Drop
  }

  /** Connections are numbered in the order of acceptance; tasks: posted and not yet run. */
  datatype World = World(
    conns: seq<Conn>, wheel: seq<seq<nat>>, cur: nat, ticks: nat, tasks: seq<Task>, phase: Phase)
  {
    function Size(): nat { |wheel| }

    /** timeInProcess: the true number of ticks, in 32 bits. */
    function TimeInProcess(): nat { ticks % TWO32 }

    predicate Shaped() { 2 <= |wheel| && cur < |wheel| }

    /** checkIndex: the bucket before the current one. */
    function Check(): (i: nat)
      requires Shaped()
      ensures i == if cur == 0 then |wheel| - 1 else cur - 1
    {
      WrapOnce(cur + |wheel| - 1, |wheel|);
      (cur + |wheel| - 1) % |wheel|
    }

    /** The bucket that becomes current when the wheel advances. */
    function Next(): (i: nat)
      requires Shaped()
      ensures i == if cur == |wheel| - 1 then 0 else cur + 1
    {
      WrapOnce(cur + 1, |wheel|);
      (cur + 1) % |wheel|
    }

    function Pushed(id: nat): World
      requires Shaped()
    {
      this.(wheel := wheel[cur := wheel[cur] + [id]])
    }

    /** The scanned position holds a connection object that still exists. */
    predicate AtLive() {
      && Shaped() && !phase.Idle? && phase.next < |wheel[Check()]|
      && wheel[Check()][phase.next] < |conns| && !conns[wheel[Check()][phase.next]].deleted
    }

    /** The connection at the scanned position. */
    function Held(): nat
      requires Shaped() && !phase.Idle? && phase.next < |wheel[Check()]|
    {
      wheel[Check()][phase.next]
    }

    /** The connection that the scan has in its hand, between the first read of its state and the verdict. */
    function Hand(): Option<nat> {
      if Shaped() && phase.MidRound() && phase.next < |wheel[Check()]| then Some(Held()) else None
    }

    /** The end of a round: the post, the re-adding, or neither. */
    function Settled(): World
      requires AtLive() && phase.Deciding?
    {
      var w := this.(phase := Scanning(phase.next + 1));
      match phase.verdict
      case PostDelete => w.(tasks := tasks + [DeleteConn(Held())])
      case PostDestroy => w.(tasks := tasks + [DestroyThenDelete(Held())])
      case Keep => w.Pushed(Held())
      case Drop => w
    }

    /** The stamp is read and compared with the time. */
    function Stamped(): World
      requires AtLive()
    {
      var c := conns[Held()];
      if c.Overdue(TimeInProcess(), Size()) then
        this.(phase := Deciding(phase.next, PostDestroy),
              conns := conns[Held() := c.(reap := Some((ticks, c.heard)))])
      else this.(phase := Deciding(phase.next, Keep))
    }

    /** After the scan: the bucket is cleared and the wheel advances. */
    function Advanced(): World
      requires Shaped()
    {
      this.(wheel := wheel[Check() := []], cur := Next(), phase := Idle)
    }

    /** deleteConn or destoryThenDeleteConn. */
    function Ran(k: nat): World
      requires k < |tasks| && tasks[k].conn < |conns|
    {
      var id := tasks[k].conn;
      var c := if tasks[k].DestroyThenDelete? then conns[id].Destroyed() else conns[id];
      this.(tasks := tasks[..k] + tasks[k + 1..], conns := conns[id := c.(deleted := true)])
    }

    /** The scan has read ESTABLISHED for the second time and will post the destruction, or has posted it. */
    predicate Reaping(id: nat) {
      || DestroyThenDelete(id) in tasks
      || (Hand() == Some(id) && phase == Deciding(phase.next, PostDestroy))
      || (Hand() == Some(id) && phase.Stamping? && id < |conns| && conns[id].Overdue(TimeInProcess(), Size()))
    }

    /** The scan is between its two reads of the connection's state. */
    predicate BetweenReads(id: nat) {
      Hand() == Some(id) && phase.LookingAgain?
    }
  }

  function Initial(M: nat): World {
    World([], seq(M, _ => []), 0, 0, [], Idle)
  }

  datatype Label =
    | Accept            // main thread: acceptCallback takes one connection
    | Tick              // main thread: the timer fires, ++timeInProcess, the scan begins
    | FirstLook         // main thread: is the state CLOSED?
    | SecondLook        // main thread: is the state ESTABLISHED?
    | ReadStamp         // main thread: lastReceiveTime against the time
    | Settle            // main thread: post, re-add or neither
    | Advance           // main thread: end of eraseIdleConnections
    | Load(id: nat)     // worker: preConnMsgCallback, no end of file and no error: reads timeInProcess
    | Store(id: nat)    // worker: and writes lastReceiveTime
    | Close(id: nat)    // worker: closeConnection reached destroy
    | Run(k: nat)       // worker: the k-th posted task

  /** None: impossible in this state, or a use of an object that is already gone. */
  function Step(w: World, l: Label): Option<World> {
    if !w.Shaped() then None
    else match l
      case Accept =>
        if w.phase.Idle? then
          Some(w.(conns := w.conns + [NewConn(w.TimeInProcess(), w.ticks)]).Pushed(|w.conns|))
        else None
      case Tick => if w.phase.Idle? then Some(w.(ticks := w.ticks + 1, phase := Scanning(0))) else None
      case FirstLook =>
        if w.phase.Scanning? && w.AtLive() then
          Some(w.(phase := if w.conns[w.Held()].state.CLOSED? then Deciding(w.phase.next, PostDelete)
                           else LookingAgain(w.phase.next)))
        else None
      case SecondLook =>
        if w.phase.LookingAgain? && w.AtLive() then
          Some(w.(phase := if w.conns[w.Held()].state.ESTABLISHED? then Stamping(w.phase.next)
                           else Deciding(w.phase.next, Drop)))
        else None
      case ReadStamp => if w.phase.Stamping? && w.AtLive() then Some(w.Stamped()) else None
      case Settle => if w.phase.Deciding? && w.AtLive() then Some(w.Settled()) else None
      case Advance =>
        if w.phase.Scanning? && w.phase.next == |w.wheel[w.Check()]| then Some(w.Advanced()) else None
      case Load(id) =>
        if id < |w.conns| && w.conns[id].registered && !w.conns[id].deleted && w.conns[id].loaded.None? then
          Some(w.(conns := w.conns[id := w.conns[id].(loaded := Some(Reading(w.TimeInProcess(), w.ticks)))]))
        else None
      case Store(id) =>
        if id < |w.conns| && !w.conns[id].deleted && w.conns[id].loaded.Some? then
          var r := w.conns[id].loaded.value;
          Some(w.(conns := w.conns[id := w.conns[id].(lastReceiveTime := r.stamp, heard := r.tick, loaded := None)]))
        else None
      case Close(id) =>
        if id < |w.conns| && w.conns[id].registered && !w.conns[id].deleted && w.conns[id].loaded.None? then
          Some(w.(conns := w.conns[id := w.conns[id].Destroyed().(
            closedAt := w.ticks, raced := w.Reaping(id), slipped := w.BetweenReads(id))]))
        else None
      case Run(k) =>
        if k < |w.tasks| && w.tasks[k].conn < |w.conns| && !w.conns[w.tasks[k].conn].deleted
           && w.conns[w.tasks[k].conn].loaded.None?
        then Some(w.Ran(k)) else None
  }

  function Exec(w: World, ls: seq<Label>): Option<World>
    decreases ls
  {
    if ls == [] then Some(w)
    else
      match Step(w, ls[0])
      case None => None
      case Some(v) => Exec(v, ls[1..])
  }

  function TaskConns(tasks: seq<Task>): seq<nat> { seq(|tasks|, i requires 0 <= i < |tasks| => tasks[i].conn) }

  /** The connections of the previous bucket that the scan has not taken in its hand yet. */
  function Ahead(w: World): seq<nat>
    requires w.Shaped()
  {
    var bucket := w.wheel[w.Check()];
    var first := if w.phase.Idle? then 0 else if w.phase.Scanning? then w.phase.next else w.phase.next + 1;
    if first <= |bucket| then bucket[first..] else bucket
  }

  /** Where connection id can be found: in the wheel, in the scan's hand, in a posted task, or deleted. */
  ghost function Places(w: World, id: nat): nat
    requires w.Shaped()
  {
    multiset(Ahead(w))[id] + multiset(w.wheel[w.cur])[id] + multiset(TaskConns(w.tasks))[id]
    + (if w.Hand() == Some(id) then 1 else 0)
    + (if id < |w.conns| && w.conns[id].deleted then 1 else 0)
  }

  /** Only the current and the previous bucket hold anything. */
  ghost predicate TwoBuckets(w: World)
    requires w.Shaped()
  {
    && (forall b :: 0 <= b < |w.wheel| && b != w.cur && b != w.Check() ==> w.wheel[b] == [])
    && (w.phase.Scanning? ==> w.phase.next <= |w.wheel[w.Check()]|)
    && (w.phase.MidRound() ==> w.phase.next < |w.wheel[w.Check()]|)
  }

  /** It was closed between the two reads of its state, and that round is over. */
  predicate Lost(w: World, id: nat) {
    id < |w.conns| && w.conns[id].slipped && w.Hand() != Some(id)
  }

  /** Every accepted connection is in exactly one place, exactly once, unless it is lost; then it is nowhere. */
  ghost predicate Conserved(w: World)
    requires w.Shaped()
  {
    forall id: nat :: Places(w, id) == if id < |w.conns| && !Lost(w, id) then 1 else 0
  }

  /** What is true of each connection wherever it is. */
  ghost predicate ConnOk(c: Conn, ticks: nat, M: nat) {
    && (c.state.ESTABLISHED? || c.state.CLOSED?)
    && c.lastReceiveTime == c.heard % TWO32 && c.heard <= ticks && c.closedAt <= ticks
    && (c.registered <==> c.state.ESTABLISHED?)
    && (c.deleted ==> c.state.CLOSED? && !c.slipped)
    && (c.loaded.Some? ==> c.state.ESTABLISHED? && c.heard <= c.loaded.value.tick <= ticks
                           && c.loaded.value.stamp == c.loaded.value.tick % TWO32)
    && (c.reap.Some? ==> c.reap.value.0 == c.reap.value.1 + M + 1)
    && c.destroys == (if c.state.ESTABLISHED? then 0 else if c.deleted && c.raced then 2 else 1)
    && (c.raced ==> c.state.CLOSED?)
    && (c.slipped ==> c.state.CLOSED? && c.reap.None? && !c.raced)
  }

  /** Neither overdue nor closed during an unfortunate round. */
  ghost predicate Plain(c: Conn) {
    !c.reap.Some? && !c.raced && !c.slipped
  }

  /** Heard within idle ticks, or, if closed, closed within late ticks. */
  ghost predicate Recent(c: Conn, ticks: nat, idle: nat, late: nat) {
    && (c.state.ESTABLISHED? ==> ticks <= c.heard + idle)
    && (c.state.CLOSED? ==> ticks <= c.closedAt + late)
    && Plain(c)
  }

  ghost predicate AllRecent(w: World, ids: seq<nat>, idle: nat, late: nat) {
    forall id <- ids :: id < |w.conns| && Recent(w.conns[id], w.ticks, idle, late)
  }

  /** Before a tick everything was heard within M ticks; during one, what is still ahead within M + 1. */
  ghost predicate Timely(w: World)
    requires w.Shaped()
  {
    if w.phase.Idle? then
      AllRecent(w, Ahead(w), w.Size(), 1) && AllRecent(w, w.wheel[w.cur], 0, 0)
    else
      AllRecent(w, Ahead(w), w.Size() + 1, 2) && AllRecent(w, w.wheel[w.cur], w.Size(), 1)
  }

  /** What the scan knows of a connection in its hand, although the worker may have closed it since. */
  ghost predicate HandOk(c: Conn, phase: Phase, ticks: nat, M: nat) {
    && !c.deleted
    && match phase
       case LookingAgain(_) => c.reap.None? && !c.raced && ticks <= c.heard + M + 1 && (c.slipped <==> c.state.CLOSED?)
       case Stamping(_) =>
         && c.reap.None? && !c.slipped && ticks <= c.heard + M + 1
         && (c.state.CLOSED? ==> ticks <= c.closedAt)
         && (c.raced <==> c.state.CLOSED? && c.Overdue(ticks % TWO32, M))
       case Deciding(_, PostDelete) => c.state.CLOSED? && Plain(c)
       case Deciding(_, Keep) => Recent(c, ticks, M, 0)
       case Deciding(_, PostDestroy) => c.reap.Some? && !c.slipped && (c.raced <==> c.state.CLOSED?)
       case Deciding(_, Drop) => c.slipped
       case _ => true
  }

  ghost predicate TasksOk(w: World) {
    forall t <- w.tasks :: t.conn < |w.conns| &&
      var c := w.conns[t.conn];
      && !c.deleted && !c.slipped
      && (t.DeleteConn? ==> c.state.CLOSED? && Plain(c))
      && (t.DestroyThenDelete? ==> c.reap.Some? && (c.raced <==> c.state.CLOSED?))
  }

  ghost predicate HandHeld(w: World) {
    w.Hand().Some? ==>
      w.Hand().value < |w.conns| && HandOk(w.conns[w.Hand().value], w.phase, w.ticks, w.Size())
  }

  ghost predicate Invariant(w: World) {
    && w.Shaped() && w.Size() + 1 < TWO32
    && TwoBuckets(w) && Conserved(w) && Timely(w) && HandHeld(w) && TasksOk(w)
    && (forall i :: 0 <= i < |w.conns| ==> ConnOk(w.conns[i], w.ticks, w.Size()))
  }

  lemma AcceptKeeps(w: World)
    requires Invariant(w) && Step(w, Accept).Some?
    ensures Invariant(Step(w, Accept).value)
  {
    var v := Step(w, Accept).value;
    var id := |w.conns|;
    assert v.Check() == w.Check() && Ahead(v) == Ahead(w);
    assert multiset(v.wheel[v.cur]) == multiset(w.wheel[w.cur]) + multiset{id};
    forall x: nat ensures Places(v, x) == if x < |v.conns| && !Lost(v, x) then 1 else 0 {
      assert Places(w, x) == if x < |w.conns| && !Lost(w, x) then 1 else 0;
    }
  }

  /** A step that leaves every connection where it is. */
  lemma SamePlaces(w: World, v: World)
    requires w.Shaped() && v.Shaped() && Conserved(w) && |v.conns| == |w.conns|
    requires Ahead(v) == Ahead(w) && v.Hand() == w.Hand() && v.wheel[v.cur] == w.wheel[w.cur] && v.tasks == w.tasks
    requires forall i :: 0 <= i < |w.conns| ==>
               v.conns[i].deleted == w.conns[i].deleted && (w.Hand() == Some(i) || v.conns[i].slipped == w.conns[i].slipped)
    ensures Conserved(v)
  {
    forall x: nat ensures Places(v, x) == if x < |v.conns| && !Lost(v, x) then 1 else 0 {
      assert Places(w, x) == if x < |w.conns| && !Lost(w, x) then 1 else 0;
    }
  }

  lemma TickKeeps(w: World)
    requires Invariant(w) && Step(w, Tick).Some?
    ensures Invariant(Step(w, Tick).value)
  {
    var v := Step(w, Tick).value;
    assert v.Check() == w.Check() && Ahead(v) == Ahead(w);
    SamePlaces(w, v);
  }

  lemma AdvanceKeeps(w: World)
    requires Invariant(w) && Step(w, Advance).Some?
    ensures Invariant(Step(w, Advance).value)
  {
    var v := Step(w, Advance).value;
    assert v.Check() == w.cur;
    assert Ahead(w) == [] && v.wheel[v.cur] == [];
    assert Ahead(v) == w.wheel[w.cur];
    forall x: nat ensures Places(v, x) == if x < |v.conns| && !Lost(v, x) then 1 else 0 {
      assert Places(w, x) == if x < |w.conns| && !Lost(w, x) then 1 else 0;
    }
  }

  /** The 32-bit subtraction tells the true distance of two stamps less than 2^32 apart. */
  lemma StampDistance(later: nat, earlier: nat)
    requires earlier <= later < earlier + TWO32
    ensures (later % TWO32 - earlier % TWO32) % TWO32 == later - earlier
  {
    var q := later / TWO32 - earlier / TWO32;
    assert later % TWO32 - earlier % TWO32 == (later - earlier) - TWO32 * q;
  }

  lemma NextStamp(ticks: nat)
    ensures (ticks % TWO32 + 1) % TWO32 == (ticks + 1) % TWO32
  {
  }

  /** In true time: a connection heard no longer than M + 1 ticks ago is overdue at exactly M + 1. */
  lemma OverdueInTrueTime(c: Conn, ticks: nat, M: nat)
    requires c.lastReceiveTime == c.heard % TWO32 && c.heard <= ticks <= c.heard + M + 1 < c.heard + TWO32
    ensures c.Overdue(ticks % TWO32, M) <==> ticks == c.heard + M + 1
  {
    StampDistance(ticks, c.heard);
  }

  /** What the scan finds at its next position: a live connection that is nowhere else. */
  lemma NextInScan(w: World) returns (id: nat)
    requires Invariant(w) && w.phase.Scanning? && w.phase.next < |w.wheel[w.Check()]|
    ensures w.AtLive() && id == w.Held() && id < |w.conns|
    ensures Ahead(w) == [id] + w.wheel[w.Check()][w.phase.next + 1..]
    ensures multiset(Ahead(w)) == multiset{id} + multiset(w.wheel[w.Check()][w.phase.next + 1..])
    ensures multiset(w.wheel[w.cur])[id] == 0 && multiset(TaskConns(w.tasks))[id] == 0 && !w.conns[id].deleted
    ensures Recent(w.conns[id], w.ticks, w.Size() + 1, 2) && ConnOk(w.conns[id], w.ticks, w.Size())
  {
    var bucket := w.wheel[w.Check()];
    id := bucket[w.phase.next];
    assert Ahead(w) == [id] + bucket[w.phase.next + 1..];
    assert id in Ahead(w);
    assert Places(w, id) == 1;
  }

  /** A connection in the scan's hand is alive and nowhere else. */
  lemma HandAlone(w: World, id: nat)
    requires Invariant(w) && w.Hand() == Some(id)
    ensures w.AtLive() && id == w.Held() < |w.conns|
    ensures id !in Ahead(w) && id !in w.wheel[w.cur] && multiset(TaskConns(w.tasks))[id] == 0
    ensures forall t <- w.tasks :: t.conn != id
    ensures ConnOk(w.conns[id], w.ticks, w.Size()) && HandOk(w.conns[id], w.phase, w.ticks, w.Size())
  {
    assert Places(w, id) == 1;
    forall t | t in w.tasks ensures t.conn != id {
      TaskOf(w.tasks, t);
    }
  }

  lemma TaskConnsSnoc(tasks: seq<Task>, t: Task)
    ensures multiset(TaskConns(tasks + [t])) == multiset(TaskConns(tasks)) + multiset{t.conn}
  {
    assert TaskConns(tasks + [t]) == TaskConns(tasks) + [t.conn];
  }

  lemma TaskAt(tasks: seq<Task>, k: nat)
    requires k < |tasks|
    ensures multiset(TaskConns(tasks)) == multiset(TaskConns(tasks[..k] + tasks[k + 1..])) + multiset{tasks[k].conn}
  {
    assert TaskConns(tasks) == TaskConns(tasks[..k]) + [tasks[k].conn] + TaskConns(tasks[k + 1..]);
    assert TaskConns(tasks[..k] + tasks[k + 1..]) == TaskConns(tasks[..k]) + TaskConns(tasks[k + 1..]);
  }

  lemma TaskOf(tasks: seq<Task>, t: Task)
    requires t in tasks
    ensures multiset(TaskConns(tasks))[t.conn] > 0
  {
    var k :| 0 <= k < |tasks| && tasks[k] == t;
    assert TaskConns(tasks)[k] == t.conn;
  }

  /** The first read takes the connection from the bucket into the scan's hand. */
  lemma FirstLookKeeps(w: World)
    requires Invariant(w) && Step(w, FirstLook).Some?
    ensures Invariant(Step(w, FirstLook).value)
  {
    var v := Step(w, FirstLook).value;
    var id := NextInScan(w);
    assert v.Hand() == Some(id) && Ahead(v) == w.wheel[w.Check()][w.phase.next + 1..];
    assert forall x <- Ahead(v) :: x in Ahead(w);
    forall x: nat ensures Places(v, x) == if x < |v.conns| && !Lost(v, x) then 1 else 0 {
      assert Places(w, x) == if x < |w.conns| && !Lost(w, x) then 1 else 0;
      assert multiset(Ahead(w))[x] == multiset{id}[x] + multiset(Ahead(v))[x];
    }
  }

  lemma SecondLookKeeps(w: World)
    requires Invariant(w) && Step(w, SecondLook).Some?
    ensures Invariant(Step(w, SecondLook).value)
  {
    var v := Step(w, SecondLook).value;
    HandAlone(w, w.Held());
    assert v.Hand() == w.Hand() && Ahead(v) == Ahead(w);
    SamePlaces(w, v);
  }

  lemma ReadStampKeeps(w: World)
    requires Invariant(w) && Step(w, ReadStamp).Some?
    ensures Invariant(Step(w, ReadStamp).value)
  {
    hide Conserved, TwoBuckets, Timely, TasksOk, HandHeld, ConnOk, Ahead, Conn.Overdue;
    StampConserves(w);
    StampHand(w);
    StampElsewhere(w);
  }

  lemma StampHand(w: World)
    requires Invariant(w) && Step(w, ReadStamp).Some?
    ensures var v := Step(w, ReadStamp).value;
            HandHeld(v) && ConnOk(v.conns[w.Held()], v.ticks, v.Size())
  {
    hide Conserved, TwoBuckets, Timely, TasksOk, Ahead, Conn.Overdue;
    HandAlone(w, w.Held());
    OverdueInTrueTime(w.conns[w.Held()], w.ticks, w.Size());
  }

  lemma StampElsewhere(w: World)
    requires Invariant(w) && Step(w, ReadStamp).Some?
    ensures Timely(Step(w, ReadStamp).value) && TasksOk(Step(w, ReadStamp).value)
  {
    hide Conserved, TwoBuckets, HandHeld, ConnOk, HandOk, Ahead, Recent, Plain;
    HandAlone(w, w.Held());
    StampConserves(w);
  }

  lemma StampConserves(w: World)
    requires Invariant(w) && Step(w, ReadStamp).Some?
    ensures var v := Step(w, ReadStamp).value;
            v.Hand() == w.Hand() && Ahead(v) == Ahead(w) && TwoBuckets(v) && Conserved(v)
  {
    var v := Step(w, ReadStamp).value;
    assert v.Hand() == w.Hand() && Ahead(v) == Ahead(w);
    SamePlaces(w, v);
  }

  /** The round ends: the connection goes where the verdict says, or nowhere. */
  lemma SettleMoves(w: World)
    requires Invariant(w) && Step(w, Settle).Some?
    ensures var v := Step(w, Settle).value;
            && v.Shaped() && TwoBuckets(v) && Ahead(v) == Ahead(w) && v.Hand() == None
            && multiset(v.wheel[v.cur]) + multiset(TaskConns(v.tasks))
               == multiset(w.wheel[w.cur]) + multiset(TaskConns(w.tasks))
                  + if w.phase.verdict.Drop? then multiset{} else multiset{w.Held()}
  {
    hide Conserved, Timely, TasksOk, ConnOk, HandOk, TaskConns;
    var v := Step(w, Settle).value;
    assert v.Check() == w.Check() && v.wheel[v.Check()] == w.wheel[w.Check()];
    TaskConnsSnoc(w.tasks, DeleteConn(w.Held()));
    TaskConnsSnoc(w.tasks, DestroyThenDelete(w.Held()));
  }

  lemma SettleConserves(w: World)
    requires Invariant(w) && Step(w, Settle).Some?
    ensures var v := Step(w, Settle).value; v.Shaped() && TwoBuckets(v) && Conserved(v) && Ahead(v) == Ahead(w)
  {
    hide Timely, TasksOk, TwoBuckets, TaskConns, Ahead;
    var v := Step(w, Settle).value;
    HandAlone(w, w.Held());
    SettleMoves(w);
    forall x: nat ensures Places(v, x) == if x < |v.conns| && !Lost(v, x) then 1 else 0 {
      assert Places(w, x) == if x < |w.conns| && !Lost(w, x) then 1 else 0;
      assert (multiset(v.wheel[v.cur]) + multiset(TaskConns(v.tasks)))[x]
          == multiset(v.wheel[v.cur])[x] + multiset(TaskConns(v.tasks))[x];
    }
  }

  lemma SettleTimely(w: World)
    requires Invariant(w) && Step(w, Settle).Some?
    ensures Step(w, Settle).value.Shaped() && Timely(Step(w, Settle).value)
  {
    hide Conserved, TwoBuckets, TasksOk, Recent, Ahead;
    HandAlone(w, w.Held());
    SettleConserves(w);
    if w.phase.verdict.Keep? {
      RecentLonger(w.conns[w.Held()], w.ticks, w.Size());
    }
  }

  lemma RecentLonger(c: Conn, ticks: nat, M: nat)
    requires Recent(c, ticks, M, 0)
    ensures Recent(c, ticks, M, 1)
  {
  }

  lemma SettleTasks(w: World)
    requires Invariant(w) && Step(w, Settle).Some?
    ensures TasksOk(Step(w, Settle).value)
  {
    hide Conserved, TwoBuckets, Timely, Ahead;
    HandAlone(w, w.Held());
  }

  lemma SettleKeeps(w: World)
    requires Invariant(w) && Step(w, Settle).Some?
    ensures Invariant(Step(w, Settle).value)
  {
    hide Conserved, TwoBuckets, Timely, TasksOk, ConnOk, Ahead;
    SettleConserves(w);
    SettleTimely(w);
    SettleTasks(w);
  }

  lemma WorkerKeepsPlaces(w: World, v: World, id: nat, c: Conn)
    requires Invariant(w) && id < |w.conns| && v == w.(conns := w.conns[id := c])
    requires c.deleted == w.conns[id].deleted && (w.Hand() == Some(id) || c.slipped == w.conns[id].slipped)
    ensures v.Hand() == w.Hand() && Ahead(v) == Ahead(w) && TwoBuckets(v) && Conserved(v)
  {
    assert v.Hand() == w.Hand() && Ahead(v) == Ahead(w);
    SamePlaces(w, v);
  }

  lemma LoadKeeps(w: World, id: nat)
    requires Invariant(w) && Step(w, Load(id)).Some?
    ensures Invariant(Step(w, Load(id)).value)
  {
    hide Conserved, TwoBuckets;
    var v := Step(w, Load(id)).value;
    WorkerKeepsPlaces(w, v, id, v.conns[id]);
  }

  lemma StoreKeeps(w: World, id: nat)
    requires Invariant(w) && Step(w, Store(id)).Some?
    ensures Invariant(Step(w, Store(id)).value)
  {
    hide Conserved, TwoBuckets;
    var v := Step(w, Store(id)).value;
    WorkerKeepsPlaces(w, v, id, v.conns[id]);
  }

  lemma CloseKeeps(w: World, id: nat)
    requires Invariant(w) && Step(w, Close(id)).Some?
    ensures Invariant(Step(w, Close(id)).value)
  {
    hide Conserved, TwoBuckets;
    var v := Step(w, Close(id)).value;
    WorkerKeepsPlaces(w, v, id, v.conns[id]);
    ClosedWhere(w, id);
  }

  /** A connection that its worker can close is in one place only, and that decides what the close does to it. */
  lemma ClosedWhere(w: World, id: nat)
    requires Invariant(w) && Step(w, Close(id)).Some?
    ensures w.Hand() == Some(id) ==> forall t <- w.tasks :: t.conn != id
    ensures w.Hand() == Some(id) || (exists t <- w.tasks :: t.conn == id) ==> id !in Ahead(w) && id !in w.wheel[w.cur]
    ensures forall t <- w.tasks :: t.conn == id ==> t == DestroyThenDelete(id)
  {
    assert Places(w, id) <= 1;
    forall t | t in w.tasks && t.conn == id
      ensures id !in Ahead(w) && id !in w.wheel[w.cur] && w.Hand() != Some(id) && t == DestroyThenDelete(id)
    {
      TaskOf(w.tasks, t);
    }
  }

  /** A posted task's connection is nowhere but in that task. */
  lemma RunAlone(w: World, k: nat)
    requires Invariant(w) && Step(w, Run(k)).Some?
    ensures var id := w.tasks[k].conn;
            && Places(w, id) == 1 && multiset(TaskConns(w.tasks))[id] == 1 && !Lost(w, id) && w.Hand() != Some(id)
            && id !in Ahead(w) && id !in w.wheel[w.cur] && !w.conns[id].deleted
  {
    var id := w.tasks[k].conn;
    assert w.tasks[k] in w.tasks;
    TaskOf(w.tasks, w.tasks[k]);
    assert Places(w, id) == 1;
  }

  lemma RunConserves(w: World, k: nat)
    requires Invariant(w) && Step(w, Run(k)).Some?
    ensures var v := Step(w, Run(k)).value; Conserved(v) && TwoBuckets(v) && Ahead(v) == Ahead(w) && v.Hand() == w.Hand()
    ensures multiset(TaskConns(Step(w, Run(k)).value.tasks))[w.tasks[k].conn] == 0
  {
    hide Timely, TasksOk, HandHeld, ConnOk, TaskConns;
    var v := Step(w, Run(k)).value;
    var id := w.tasks[k].conn;
    TaskAt(w.tasks, k);
    RunAlone(w, k);
    assert v.Hand() == w.Hand() && Ahead(v) == Ahead(w);
    forall x: nat ensures Places(v, x) == if x < |v.conns| && !Lost(v, x) then 1 else 0 {
      assert Places(w, x) == if x < |w.conns| && !Lost(w, x) then 1 else 0;
      assert (multiset(TaskConns(v.tasks)) + multiset{id})[x] == multiset(TaskConns(v.tasks))[x] + multiset{id}[x];
    }
  }

  lemma TasksLeft(w: World, k: nat)
    requires Invariant(w) && Step(w, Run(k)).Some?
    ensures forall t <- Step(w, Run(k)).value.tasks :: t in w.tasks && t.conn != w.tasks[k].conn
  {
    var v := Step(w, Run(k)).value;
    RunConserves(w, k);
    forall t | t in v.tasks ensures t in w.tasks && t.conn != w.tasks[k].conn {
      TaskOf(v.tasks, t);
    }
  }

  lemma RunKeeps(w: World, k: nat)
    requires Invariant(w) && Step(w, Run(k)).Some?
    ensures Invariant(Step(w, Run(k)).value)
  {
    hide Conserved, TwoBuckets;
    RunAlone(w, k);
    RunConserves(w, k);
    TasksLeft(w, k);
    assert w.tasks[k] in w.tasks;
  }

  lemma StepKeepsInvariant(w: World, l: Label)
    requires Invariant(w) && Step(w, l).Some?
    ensures Invariant(Step(w, l).value)
  {
    hide Invariant, Step;
    match l
    case Accept => AcceptKeeps(w);
    case Tick => TickKeeps(w);
    case FirstLook => FirstLookKeeps(w);
    case SecondLook => SecondLookKeeps(w);
    case ReadStamp => ReadStampKeeps(w);
    case Settle => SettleKeeps(w);
    case Advance => AdvanceKeeps(w);
    case Load(id) => LoadKeeps(w, id);
    case Store(id) => StoreKeeps(w, id);
    case Close(id) => CloseKeeps(w, id);
    case Run(k) => RunKeeps(w, k);
  }

  lemma {:induction false} RunKeepsInvariant(w: World, ls: seq<Label>)
    requires Invariant(w) && Exec(w, ls).Some?
    ensures Invariant(Exec(w, ls).value)
    decreases ls
  {
    hide Invariant, Step;
    if ls != [] {
      StepKeepsInvariant(w, ls[0]);
      RunKeepsInvariant(Step(w, ls[0]).value, ls[1..]);
    }
  }

  /**
   In every interleaving, for every wheel size: every accepted connection is in exactly one place,
   once, unless it is lost; only two buckets are ever occupied; and reaping happens at exact true times.
   */
  lemma EveryRun(M: nat, ls: seq<Label>)
    requires 2 <= M && M + 1 < TWO32 && Exec(Initial(M), ls).Some?
    ensures Invariant(Exec(Initial(M), ls).value) && Exec(Initial(M), ls).value.Size() == M
  {
    InitialInvariant(M);
    RunKeepsInvariant(Initial(M), ls);
    SizeStays(Initial(M), ls);
  }

  lemma InitialInvariant(M: nat)
    requires 2 <= M && M + 1 < TWO32
    ensures Invariant(Initial(M))
  {
    assert TaskConns(Initial(M).tasks) == [] && Ahead(Initial(M)) == [];
  }

  lemma {:induction false} SizeStays(w: World, ls: seq<Label>)
    requires Exec(w, ls).Some?
    ensures Exec(w, ls).value.Size() == w.Size()
    decreases ls
  {
    if ls != [] {
      SizeStays(Step(w, ls[0]).value, ls[1..]);
    }
  }

  lemma {:induction false} ExecAppend(w: World, a: seq<Label>, b: seq<Label>)
    requires Exec(w, a).Some?
    ensures Exec(w, a + b) == Exec(Exec(w, a).value, b)
    decreases a
  {
    hide Step;
    if a == [] {
      assert a + b == b;
    } else {
      assert (a + b)[1..] == a[1..] + b;
      ExecAppend(Step(w, a[0]).value, a[1..], b);
    }
  }

  lemma ExecSnoc(w: World, ls: seq<Label>, l: Label)
    requires Exec(w, ls).Some?
    ensures Exec(w, ls + [l]) == Step(Exec(w, ls).value, l)
  {
    hide Step;
    ExecAppend(w, ls, [l]);
    assert [l][1..] == [];
  }

  lemma ExecFirst(w: World, l: Label, rest: seq<Label>)
    requires Step(w, l).Some?
    ensures Exec(w, [l] + rest) == Exec(Step(w, l).value, rest)
  {
    assert ([l] + rest)[1..] == rest;
  }
}
