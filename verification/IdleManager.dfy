/** The timing wheel as it runs: the scan loop undisturbed, and the object whose methods are its steps. */
module IdleManagers {
  import opened Common
  import opened IdleWheels

  /** The steps of a round on connection c that nobody disturbs. */
  function Round(c: Conn): seq<Label> {
    if c.state.CLOSED? then [FirstLook, Settle] else [FirstLook, SecondLook, ReadStamp, Settle]
  }

  /** What such a round comes to. */
  function Examined(w: World): World
    requires w.AtLive()
  {
    var id := w.Held();
    var v := w.(phase := Scanning(w.phase.next + 1));
    match Judge(w.conns[id], w.TimeInProcess(), w.Size())
    case PostDelete => v.(tasks := w.tasks + [DeleteConn(id)])
    case PostDestroy =>
      v.(tasks := w.tasks + [DestroyThenDelete(id)],
         conns := w.conns[id := w.conns[id].(reap := Some((w.ticks, w.conns[id].heard)))])
    case Keep => v.Pushed(id)
    case Drop => v
  }

  lemma ExecTwo(w: World, a: World, b: World)
    requires Step(w, FirstLook) == Some(a) && Step(a, Settle) == Some(b)
    ensures Exec(w, [FirstLook, Settle]) == Some(b)
  {
    hide Step;
    ExecFirst(w, FirstLook, [Settle]);
    ExecFirst(a, Settle, []);
  }

  lemma ExecFour(w: World, a: World, b: World, c: World, d: World)
    requires Step(w, FirstLook) == Some(a) && Step(a, SecondLook) == Some(b)
    requires Step(b, ReadStamp) == Some(c) && Step(c, Settle) == Some(d)
    ensures Exec(w, [FirstLook, SecondLook, ReadStamp, Settle]) == Some(d)
  {
    hide Step;
    ExecFirst(w, FirstLook, [SecondLook, ReadStamp, Settle]);
    ExecFirst(a, SecondLook, [ReadStamp, Settle]);
    ExecFirst(b, ReadStamp, [Settle]);
    ExecFirst(c, Settle, []);
  }

  lemma ClosedRound(w: World)
    requires w.AtLive() && w.phase.Scanning? && w.conns[w.Held()].state.CLOSED?
    ensures Exec(w, [FirstLook, Settle]) == Some(Examined(w))
  {
    hide World.Check;
    ExecFirst(w, FirstLook, [Settle]);
    ExecFirst(w.(phase := Deciding(w.phase.next, PostDelete)), Settle, []);
  }

  lemma OpenLooks(w: World)
    requires w.AtLive() && w.phase.Scanning? && w.conns[w.Held()].state.ESTABLISHED?
    ensures var stamping := w.(phase := Stamping(w.phase.next));
            && stamping.AtLive()
            && Exec(w, [FirstLook, SecondLook] + [ReadStamp, Settle]) == Exec(stamping, [ReadStamp, Settle])
  {
    hide World.Check, Exec;
    var rest := [ReadStamp, Settle];
    ExecFirst(w, FirstLook, [SecondLook] + rest);
    ExecFirst(w.(phase := LookingAgain(w.phase.next)), SecondLook, rest);
    assert [FirstLook, SecondLook] + rest == [FirstLook] + ([SecondLook] + rest);
  }

  lemma OpenStamps(w: World)
    requires w.AtLive() && w.phase.Stamping?
    ensures w.Stamped().AtLive() && w.Stamped().phase.Deciding?
    ensures Exec(w, [ReadStamp, Settle]) == Some(w.Stamped().Settled())
  {
    hide World.Check, Conn.Overdue, World.Settled;
    ExecFirst(w, ReadStamp, [Settle]);
    ExecFirst(w.Stamped(), Settle, []);
  }

  lemma OpenExamined(w: World, stamping: World)
    requires w.AtLive() && w.phase.Scanning? && w.conns[w.Held()].state.ESTABLISHED?
    requires stamping == w.(phase := Stamping(w.phase.next))
    requires stamping.AtLive() && stamping.Stamped().AtLive() && stamping.Stamped().phase.Deciding?
    ensures stamping.Stamped().Settled() == Examined(w)
  {
    hide World.Check, Conn.Overdue;
  }

  lemma RoundIsExamined(w: World)
    requires w.AtLive() && w.phase.Scanning?
    requires w.conns[w.Held()].state.ESTABLISHED? || w.conns[w.Held()].state.CLOSED?
    ensures Exec(w, Round(w.conns[w.Held()])) == Some(Examined(w))
  {
    hide Exec, Examined, World.Stamped, World.Settled, World.Check;
    if w.conns[w.Held()].state.CLOSED? {
      ClosedRound(w);
    } else {
      var stamping := w.(phase := Stamping(w.phase.next));
      OpenLooks(w);
      OpenStamps(stamping);
      OpenExamined(w, stamping);
      assert Round(w.conns[w.Held()]) == [FirstLook, SecondLook] + [ReadStamp, Settle];
    }
  }

  /** The rounds on the connections ids, one after another. */
  function Rounds(conns: seq<Conn>, ids: seq<nat>): seq<Label> {
    if ids == [] then []
    else
      var fewer, id := ids[..|ids| - 1], ids[|ids| - 1];
      Rounds(conns, fewer) + (if id < |conns| then Round(conns[id]) else [])
  }

  /** One undisturbed second of the main thread. */
  function Turn(w: World): seq<Label>
    requires w.Shaped()
  {
    [Tick] + (Rounds(w.conns, w.wheel[w.Check()]) + [Advance])
  }

  /** The connections of ids that a scan at the given time keeps, in order. */
  function Kept(conns: seq<Conn>, ids: seq<nat>, timeInProcess: nat, M: nat): seq<nat> {
    if ids == [] then []
    else
      var fewer, id := ids[..|ids| - 1], ids[|ids| - 1];
      Kept(conns, fewer, timeInProcess, M) + (if id < |conns| && Judge(conns[id], timeInProcess, M).Keep? then [id] else [])
  }

  /** The tasks that it posts, in order. */
  function Posted(conns: seq<Conn>, ids: seq<nat>, timeInProcess: nat, M: nat): seq<Task> {
    if ids == [] then []
    else
      var fewer, id := ids[..|ids| - 1], ids[|ids| - 1];
      Posted(conns, fewer, timeInProcess, M)
      + (if id >= |conns| then []
         else match Judge(conns[id], timeInProcess, M)
           case PostDelete => [DeleteConn(id)]
           case PostDestroy => [DestroyThenDelete(id)]
           case _ => [])
  }

  predicate SameButReaped(a: seq<Conn>, b: seq<Conn>) {
    |a| == |b| && forall i :: 0 <= i < |a| ==> b[i] == a[i].(reap := b[i].reap)
  }

  /** After i rounds of an undisturbed scan of bucket ids. */
  predicate ScannedTo(w: World, v: World, ids: seq<nat>, i: nat)
    requires w.Shaped() && i <= |ids|
  {
    && v.wheel == w.wheel[w.cur := w.wheel[w.cur] + Kept(w.conns, ids[..i], w.TimeInProcess(), w.Size())]
    && v.tasks == w.tasks + Posted(w.conns, ids[..i], w.TimeInProcess(), w.Size())
    && v.cur == w.cur && v.ticks == w.ticks && v.phase == Scanning(i)
    && SameButReaped(w.conns, v.conns)
  }

  lemma ScanStart(w: World, ids: seq<nat>)
    requires w.Shaped() && w.phase == Scanning(0)
    ensures ScannedTo(w, w, ids, 0) && Exec(w, Rounds(w.conns, ids[..0])) == Some(w)
  {
    assert ids[..0] == [] && w.wheel[w.cur] + [] == w.wheel[w.cur];
    assert w.wheel[w.cur := w.wheel[w.cur]] == w.wheel;
  }

  lemma RoundsSnoc(conns: seq<Conn>, ids: seq<nat>, i: nat)
    requires i < |ids| && ids[i] < |conns|
    ensures Rounds(conns, ids[..i + 1]) == Rounds(conns, ids[..i]) + Round(conns[ids[i]])
  {
    assert ids[..i + 1][..i] == ids[..i];
  }

  lemma {:induction false} ScanResult(w: World, ids: seq<nat>, i: nat)
    requires Invariant(w) && w.phase == Scanning(0) && ids == w.wheel[w.Check()] && i <= |ids|
    ensures Exec(w, Rounds(w.conns, ids[..i])).Some? && Invariant(Exec(w, Rounds(w.conns, ids[..i])).value)
    ensures ScannedTo(w, Exec(w, Rounds(w.conns, ids[..i])).value, ids, i)
    decreases i
  {
    hide ScannedTo, Exec, Rounds, Round, TwoBuckets, Conserved, Timely, HandHeld, TasksOk, ConnOk;
    if i == 0 {
      ScanStart(w, ids);
    } else {
      ScanResult(w, ids, i - 1);
      var v := Exec(w, Rounds(w.conns, ids[..i - 1])).value;
      ScanStep(w, v, ids, i - 1);
      ScanRound(w, v, ids, i - 1);
      ExecAppend(w, Rounds(w.conns, ids[..i - 1]), Round(w.conns[ids[i - 1]]));
    }
  }

  /** The next round, and the labels up to its end. */
  lemma ScanRound(w: World, v: World, ids: seq<nat>, i: nat)
    requires Invariant(v) && w.Shaped() && ids == w.wheel[w.Check()] && i < |ids|
    requires ScannedTo(w, v, ids, i)
    ensures v.AtLive() && ids[i] < |w.conns|
    ensures Rounds(w.conns, ids[..i + 1]) == Rounds(w.conns, ids[..i]) + Round(w.conns[ids[i]])
    ensures Exec(v, Round(w.conns[ids[i]])) == Some(Examined(v)) && Invariant(Examined(v))
  {
    hide TwoBuckets, Conserved, Timely, HandHeld, TasksOk, Kept, Posted, Exec, Rounds, Examined;
    assert v.wheel[v.Check()] == ids;
    var id := NextInScan(v);
    RoundsSnoc(w.conns, ids, i);
    RoundIsExamined(v);
    RunKeepsInvariant(v, Round(w.conns[id]));
  }

  lemma KeptSnoc(conns: seq<Conn>, ids: seq<nat>, i: nat, now: nat, M: nat)
    requires i < |ids| && ids[i] < |conns|
    ensures Kept(conns, ids[..i + 1], now, M)
         == Kept(conns, ids[..i], now, M) + (if Judge(conns[ids[i]], now, M).Keep? then [ids[i]] else [])
    ensures Posted(conns, ids[..i + 1], now, M)
         == Posted(conns, ids[..i], now, M)
            + (match Judge(conns[ids[i]], now, M)
               case PostDelete => [DeleteConn(ids[i])]
               case PostDestroy => [DestroyThenDelete(ids[i])]
               case _ => [])
  {
    assert ids[..i + 1][..i] == ids[..i];
  }

  /** A round keeps the connection by re-adding it, or posts one task, or neither. */
  lemma ExaminedShape(w: World)
    requires w.AtLive()
    ensures var v, id := Examined(w), w.Held(); var verdict := Judge(w.conns[id], w.TimeInProcess(), w.Size());
            && v.wheel == (if verdict.Keep? then w.wheel[w.cur := w.wheel[w.cur] + [id]] else w.wheel)
            && v.tasks == w.tasks + (match verdict
                                     case PostDelete => [DeleteConn(id)]
                                     case PostDestroy => [DestroyThenDelete(id)]
                                     case _ => [])
            && v.cur == w.cur && v.ticks == w.ticks && v.phase == Scanning(w.phase.next + 1)
            && SameButReaped(w.conns, v.conns)
  {
    hide World.Check, Judge;
    assert w.tasks + [] == w.tasks;
  }

  lemma ScanStep(w: World, v: World, ids: seq<nat>, i: nat)
    requires Invariant(v) && w.Shaped() && ids == w.wheel[w.Check()] && i < |ids|
    requires ScannedTo(w, v, ids, i)
    ensures v.AtLive() && ScannedTo(w, Examined(v), ids, i + 1)
  {
    hide TwoBuckets, Conserved, Timely, HandHeld, TasksOk, ConnOk, Kept, Posted, Judge, Recent, Ahead, TaskConns, Examined;
    assert v.wheel[v.Check()] == ids;
    var id := NextInScan(v);
    ExaminedShape(v);
    KeptSnoc(w.conns, ids, i, w.TimeInProcess(), w.Size());
    SameVerdict(w.conns[id], v.conns[id], w.TimeInProcess(), w.Size());
    StillSame(w.conns, v.conns, Examined(v).conns);
    ScannedNext(w, ids, i);
  }

  /** What one more round adds to the kept connections and the posted tasks, put where they go. */
  lemma ScannedNext(w: World, ids: seq<nat>, i: nat)
    requires w.Shaped() && i < |ids| && ids[i] < |w.conns|
    ensures var k := Kept(w.conns, ids[..i], w.TimeInProcess(), w.Size());
            && w.wheel[w.cur] + (k + [ids[i]]) == w.wheel[w.cur] + k + [ids[i]] && k + [] == k
    ensures var p := Posted(w.conns, ids[..i], w.TimeInProcess(), w.Size());
            p + [] == p && forall t: Task :: w.tasks + (p + [t]) == w.tasks + p + [t]
  {
    hide Kept, Posted;
    var p := Posted(w.conns, ids[..i], w.TimeInProcess(), w.Size());
    assert forall t: Task :: w.tasks + (p + [t]) == w.tasks + p + [t];
  }

  lemma SameVerdict(a: Conn, b: Conn, now: nat, M: nat)
    requires b == a.(reap := b.reap)
    ensures Judge(a, now, M) == Judge(b, now, M)
  {
  }

  lemma StillSame(a: seq<Conn>, b: seq<Conn>, d: seq<Conn>)
    requires SameButReaped(a, b) && SameButReaped(b, d)
    ensures SameButReaped(a, d)
  {
  }

  /**
   One undisturbed second: what waited in the current bucket and what the scan kept, in this order,
   are exactly what the next second will examine; everything else examined is posted.
   */
  lemma TurnResult(w: World)
    requires Invariant(w) && w.phase.Idle?
    ensures var v := Exec(w, Turn(w)); var ids, now := w.wheel[w.Check()], (w.ticks + 1) % TWO32;
            && v.Some? && Invariant(v.value)
            && v.value.wheel[v.value.Check()] == w.wheel[w.cur] + Kept(w.conns, ids, now, w.Size())
            && v.value.wheel[v.value.cur] == []
            && v.value.tasks == w.tasks + Posted(w.conns, ids, now, w.Size())
            && v.value.ticks == w.ticks + 1
  {
    hide Conserved, Timely, HandHeld, TasksOk, ConnOk, Kept, Posted, TwoBuckets, SameButReaped, Exec, Rounds;
    var ids := w.wheel[w.Check()];
    var ticked := Step(w, Tick).value;
    StepKeepsInvariant(w, Tick);
    ExecFirst(w, Tick, Rounds(w.conns, ids) + [Advance]);
    ScanResult(ticked, ids, |ids|);
    assert ids[..|ids|] == ids;
    var scanned := Exec(ticked, Rounds(w.conns, ids)).value;
    AdvanceResult(ticked, scanned, ids);
    ExecSnoc(ticked, Rounds(w.conns, ids), Advance);
  }

  lemma AdvanceResult(w: World, scanned: World, ids: seq<nat>)
    requires Invariant(w) && Invariant(scanned) && ids == w.wheel[w.Check()]
    requires ScannedTo(w, scanned, ids, |ids|)
    ensures Step(scanned, Advance).Some?
    ensures var v := Step(scanned, Advance).value;
            && Invariant(v) && v.tasks == scanned.tasks && v.ticks == scanned.ticks
            && v.wheel[v.Check()] == scanned.wheel[w.cur] && v.wheel[v.cur] == []
  {
    hide Conserved, Timely, HandHeld, TasksOk, ConnOk, Kept, Posted, SameButReaped;
    assert scanned.wheel[scanned.Check()] == ids;
    StepKeepsInvariant(scanned, Advance);
    NewCurrentIsEmpty(scanned);
  }

  lemma NewCurrentIsEmpty(w: World)
    requires Invariant(w) && Step(w, Advance).Some?
    ensures Step(w, Advance).value.wheel[w.Next()] == []
  {
  }

  /**
   The server's connections, wheel and posted tasks; ticks, phase and the history in conns only record.
   A method is one step of a thread, or, where its contract lists labels, several steps undisturbed.
   */
  class IdleManager {
    var conns: seq<Conn>
    var wheeling: seq<seq<nat>>
    var curBucketIndex: nat
    var timeInProcess: nat
    var tasks: seq<Task>
    var ticks: nat
    var phase: Phase

    function Abs(): World
      reads this
    {
      World(conns, wheeling, curBucketIndex, ticks, tasks, phase)
    }

    ghost predicate Valid()
      reads this
    {
      Invariant(Abs()) && timeInProcess == ticks % TWO32
    }

    constructor (M: nat := MAX_IDLE_SECONDS)
      requires 2 <= M && M + 1 < TWO32
      ensures Valid() && Abs() == Initial(M)
    {
      conns, wheeling, curBucketIndex, timeInProcess, tasks := [], seq(M, _ => []), 0, 0, [];
      ticks, phase := 0, Idle;
      new;
      InitialInvariant(M);
    }

    /** The loop body of acceptCallback; the new connection's number is returned. */
    method AcceptOne() returns (id: nat)
      requires Valid() && phase.Idle?
      modifies this
      ensures Valid() && Step(old(Abs()), Accept) == Some(Abs()) && id == |old(conns)|
    {
      hide TwoBuckets, Conserved, Timely, HandHeld, TasksOk, ConnOk;
      StepKeepsInvariant(Abs(), Accept);
      id := |conns|;
      conns := conns + [NewConn(timeInProcess, ticks)];
      AddNewConnection(id);
    }

    method AddNewConnection(id: nat)
      requires curBucketIndex < |wheeling|
      modifies this`wheeling
      ensures wheeling == old(wheeling)[curBucketIndex := old(wheeling)[curBucketIndex] + [id]]
    {
      wheeling := wheeling[curBucketIndex := wheeling[curBucketIndex] + [id]];
    }

    /** The timer callback: one tick of the clock, one turn of the wheel. */
    method TimerFired()
      requires Valid() && phase.Idle?
      modifies this
      ensures Valid() && phase.Idle?
      ensures Exec(old(Abs()), Turn(old(Abs()))) == Some(Abs())
    {
      hide Invariant, Rounds, Exec;
      ghost var start := Abs();
      InvariantShapes(start);
      CountSecond();
      InvariantShapes(Abs());
      ExecFirst(start, Tick, Rounds(conns, wheeling[Abs().Check()]) + [Advance]);
      EraseIdleConnections();
    }

    method CountSecond()
      requires Valid() && phase.Idle?
      modifies this`timeInProcess, this`ticks, this`phase
      ensures Valid() && phase == Scanning(0) && Step(old(Abs()), Tick) == Some(Abs())
    {
      hide TwoBuckets, Conserved, Timely, HandHeld, TasksOk, ConnOk;
      StepKeepsInvariant(Abs(), Tick);
      NextStamp(ticks);
      timeInProcess := (timeInProcess + 1) % TWO32;
      ticks, phase := ticks + 1, Scanning(0);
    }

    method EraseIdleConnections()
      requires Valid() && Abs().Shaped() && phase == Scanning(0)
      modifies this
      ensures Valid() && phase.Idle?
      ensures Exec(old(Abs()), Rounds(old(conns), old(wheeling[Abs().Check()])) + [Advance]) == Some(Abs())
    {
      hide Invariant, Rounds, Round, Exec, Step;
      ghost var start := Abs();
      var checkIndex := (curBucketIndex + |wheeling| - 1) % |wheeling|;
      var bucket := wheeling[checkIndex];
      ScanStart(start, bucket);
      for i := 0 to |bucket|
        invariant Valid() && phase == Scanning(i) && Abs().Shaped()
        invariant checkIndex == Abs().Check() && wheeling[checkIndex] == bucket
        invariant Exec(start, Rounds(start.conns, bucket[..i])) == Some(Abs())
        invariant SameButReaped(start.conns, conns)
      {
        ghost var before := Abs();
        ExamineOne(checkIndex, bucket[i]);
        RoundsSnoc(start.conns, bucket, i);
        SameRound(start.conns[bucket[i]], before.conns[bucket[i]]);
        ExecAppend(start, Rounds(start.conns, bucket[..i]), Round(start.conns[bucket[i]]));
        StillSame(start.conns, before.conns, conns);
      }
      assert bucket[..|bucket|] == bucket;
      ExecSnoc(start, Rounds(start.conns, bucket), Advance);
      ClearAndAdvance(checkIndex);
    }

    /** One round of the scan loop, on the next connection of the scanned bucket, undisturbed. */
    method ExamineOne(checkIndex: nat, conn: nat)
      requires Valid() && Abs().Shaped() && phase.Scanning? && checkIndex == Abs().Check()
      requires phase.next < |wheeling[checkIndex]| && wheeling[checkIndex][phase.next] == conn
      modifies this
      ensures Valid() && Abs().Shaped() && phase == Scanning(old(phase).next + 1)
      ensures conn < |old(conns)| && Exec(old(Abs()), Round(old(conns[conn]))) == Some(Abs())
      ensures SameButReaped(old(conns), conns)
      // the bucket being scanned is not touched
      ensures checkIndex == Abs().Check() && wheeling[checkIndex] == old(wheeling[checkIndex])
    {
      hide Invariant, Exec, Step, Examined, World.Check;
      ghost var w := Abs();
      ghost var _ := NextInScan(w);
      LiveState(w, conn);
      RoundIsExamined(w);
      LookFirst(conn);
      ghost var looked := Abs();
      if phase.LookingAgain? {
        LookAgain(conn);
        ghost var again := Abs();
        ReadLastReceiveTime(conn);
        ghost var stamped := Abs();
        SettleRound(conn);
        ExecFour(w, looked, again, stamped, Abs());
      } else {
        SettleRound(conn);
        ExecTwo(w, looked, Abs());
      }
      ExaminedShape(w);
    }

    /** The first read of the state. */
    method LookFirst(conn: nat)
      requires Valid() && phase.Scanning? && Abs().AtLive() && conn == Abs().Held()
      modifies this`phase
      ensures Valid() && Step(old(Abs()), FirstLook) == Some(Abs())
      ensures phase == if conns[conn].state.CLOSED? then Deciding(old(phase).next, PostDelete)
                       else LookingAgain(old(phase).next)
    {
      hide TwoBuckets, Conserved, Timely, HandHeld, TasksOk, ConnOk;
      StepKeepsInvariant(Abs(), FirstLook);
      if conns[conn].state == CLOSED {
        phase := Deciding(phase.next, PostDelete);
      } else {
        phase := LookingAgain(phase.next);
      }
    }

    /** The second read of the state. */
    method LookAgain(conn: nat)
      requires Valid() && phase.LookingAgain? && Abs().AtLive() && conn == Abs().Held()
      modifies this`phase
      ensures Valid() && Step(old(Abs()), SecondLook) == Some(Abs())
      ensures phase == if conns[conn].state.ESTABLISHED? then Stamping(old(phase).next)
                       else Deciding(old(phase).next, Drop)
    {
      hide TwoBuckets, Conserved, Timely, HandHeld, TasksOk, ConnOk;
      StepKeepsInvariant(Abs(), SecondLook);
      if conns[conn].state == ESTABLISHED {
        phase := Stamping(phase.next);
      } else {
        phase := Deciding(phase.next, Drop);
      }
    }

    /** The idle test. */
    method ReadLastReceiveTime(conn: nat)
      requires Valid() && phase.Stamping? && Abs().AtLive() && conn == Abs().Held()
      modifies this`phase, this`conns
      ensures Valid() && Step(old(Abs()), ReadStamp) == Some(Abs())
      ensures phase.Deciding? && Abs().AtLive() && conn == Abs().Held()
    {
      hide TwoBuckets, Conserved, Timely, HandHeld, TasksOk, ConnOk;
      StepKeepsInvariant(Abs(), ReadStamp);
      var now := timeInProcess;
      if (now - conns[conn].lastReceiveTime) % TWO32 > |wheeling| {
        phase := Deciding(phase.next, PostDestroy);
        conns := conns[conn := conns[conn].(reap := Some((ticks, conns[conn].heard)))];
      } else {
        phase := Deciding(phase.next, Keep);
      }
    }

    /** The post, the re-adding, or neither. */
    method SettleRound(conn: nat)
      requires Valid() && phase.Deciding? && Abs().AtLive() && conn == Abs().Held()
      modifies this`phase, this`tasks, this`wheeling
      ensures Valid() && Step(old(Abs()), Settle) == Some(Abs())
    {
      hide TwoBuckets, Conserved, Timely, HandHeld, TasksOk, ConnOk;
      StepKeepsInvariant(Abs(), Settle);
      match phase.verdict {
        case PostDelete => tasks := tasks + [DeleteConn(conn)];
        case PostDestroy => tasks := tasks + [DestroyThenDelete(conn)];
        case Keep => AddNewConnection(conn);
        case Drop =>
      }
      phase := Scanning(phase.next + 1);
    }

    /** wheeling_[checkIndex].clear() and timeElasped. */
    method ClearAndAdvance(checkIndex: nat)
      requires Valid() && Abs().Shaped() && phase.Scanning? && checkIndex == Abs().Check()
      requires phase.next == |wheeling[checkIndex]|
      modifies this
      ensures Valid() && phase.Idle? && Step(old(Abs()), Advance) == Some(Abs())
    {
      hide TwoBuckets, Conserved, Timely, HandHeld, TasksOk, ConnOk;
      StepKeepsInvariant(Abs(), Advance);
      wheeling := wheeling[checkIndex := []];
      curBucketIndex := (curBucketIndex + 1) % |wheeling|;
      phase := Idle;
    }

    /** A worker's preConnMsgCallback reads the time. */
    method LoadTime(id: nat)
      requires Valid() && Step(Abs(), Load(id)).Some?
      modifies this`conns
      ensures Valid() && Step(old(Abs()), Load(id)) == Some(Abs())
    {
      hide TwoBuckets, Conserved, Timely, HandHeld, TasksOk, ConnOk;
      StepKeepsInvariant(Abs(), Load(id));
      conns := conns[id := conns[id].(loaded := Some(Reading(timeInProcess, ticks)))];
    }

    /** And stores it in the connection. */
    method StoreStamp(id: nat)
      requires Valid() && id < |conns| && conns[id].loaded.Some?
      modifies this`conns
      ensures Valid() && Step(old(Abs()), Store(id)) == Some(Abs())
    {
      hide TwoBuckets, Conserved, Timely, HandHeld, TasksOk;
      assert ConnOk(conns[id], ticks, |wheeling|);
      StepKeepsInvariant(Abs(), Store(id));
      var r := conns[id].loaded.value;
      conns := conns[id := conns[id].(lastReceiveTime := r.stamp, heard := r.tick, loaded := None)];
    }

    /** A worker's closeConnection, output drained: destroy. */
    method Close(id: nat)
      requires Valid() && Step(Abs(), Label.Close(id)).Some?
      modifies this`conns
      ensures Valid() && Step(old(Abs()), Label.Close(id)) == Some(Abs())
    {
      hide TwoBuckets, Conserved, Timely, HandHeld, TasksOk, ConnOk;
      StepKeepsInvariant(Abs(), Label.Close(id));
      conns := conns[id := conns[id].Destroyed().(
        closedAt := ticks, raced := Abs().Reaping(id), slipped := Abs().BetweenReads(id))];
    }

    /** A worker that is not in a read callback of the connection runs the k-th posted task and finds it alive. */
    method RunTask(k: nat)
      requires Valid() && k < |tasks| && tasks[k].conn < |conns| && conns[tasks[k].conn].loaded.None?
      modifies this
      ensures Valid() && Step(old(Abs()), Run(k)) == Some(Abs())
    {
      hide TwoBuckets, Conserved, Timely, HandHeld, ConnOk;
      assert tasks[k] in tasks;
      StepKeepsInvariant(Abs(), Run(k));
      var id := tasks[k].conn;
      match tasks[k] {
        case DeleteConn(_) =>
          conns := conns[id := conns[id].(deleted := true)];
        case DestroyThenDelete(_) =>
          conns := conns[id := conns[id].Destroyed().(deleted := true)];
      }
      tasks := tasks[..k] + tasks[k + 1..];
    }
  }

  lemma InvariantShapes(w: World)
    requires Invariant(w)
    ensures w.Shaped()
  {
  }

  lemma LiveState(w: World, id: nat)
    requires Invariant(w) && id < |w.conns|
    ensures w.conns[id].state.ESTABLISHED? || w.conns[id].state.CLOSED?
  {
    assert ConnOk(w.conns[id], w.ticks, w.Size());
  }

  lemma SameRound(a: Conn, b: Conn)
    requires b == a.(reap := b.reap)
    ensures Round(a) == Round(b)
  {
  }
}
