/** What every run of the idle-connection wheel guarantees, and exactly when it does not. */
module IdleWheelRuns {
  import opened Common
  import opened IdleWheels

  /** Between rounds, a connection that is in no task, not deleted and not lost is waiting in the wheel. */
  lemma WaitingInWheel(w: World, id: nat)
    requires Invariant(w) && id < |w.conns| && !w.conns[id].deleted && !Lost(w, id) && w.Hand().None?
    requires forall t <- w.tasks :: t.conn != id
    ensures id in Ahead(w) || id in w.wheel[w.cur]
  {
    assert Places(w, id) == 1;
    forall k | 0 <= k < |w.tasks| ensures TaskConns(w.tasks)[k] != id {
      assert w.tasks[k] in w.tasks;
    }
    assert id !in TaskConns(w.tasks);
  }

  /** An idle world's connection is deleted, lost, in a task, or waiting: overdue only with its destruction posted. */
  lemma WhereWhenIdle(w: World, id: nat)
    requires Invariant(w) && w.phase.Idle? && id < |w.conns|
    ensures var c := w.conns[id];
            && (c.state.ESTABLISHED? && c.reap.None? ==> w.ticks <= c.heard + w.Size())
            && (c.reap.Some? && !c.deleted ==> DestroyThenDelete(id) in w.tasks)
            && (c.state.CLOSED? && !c.deleted && !c.slipped && w.ticks >= c.closedAt + 2 ==>
                  DeleteConn(id) in w.tasks || DestroyThenDelete(id) in w.tasks)
            && (c.deleted || c.slipped ==> DeleteConn(id) !in w.tasks && DestroyThenDelete(id) !in w.tasks)
  {
    var c := w.conns[id];
    assert ConnOk(c, w.ticks, w.Size());
    if t :| t in w.tasks && t.conn == id {
      assert t == DeleteConn(id) || t == DestroyThenDelete(id);
    } else if !c.deleted && !c.slipped {
      WaitingInWheel(w, id);
    }
  }

  /**
   A silent connection is found overdue at tick heard + M + 1 exactly, and its destruction is posted
   before that tick's scan ends; between ticks none is left that was heard longer than M ticks ago.
   */
  lemma ReapedExactlyOnTime(M: nat, ls: seq<Label>, id: nat)
    requires 2 <= M && M + 1 < TWO32 && Exec(Initial(M), ls).Some?
    requires id < |Exec(Initial(M), ls).value.conns|
    ensures var w := Exec(Initial(M), ls).value; var c := w.conns[id];
            && (c.reap.Some? ==> c.reap.value.0 == c.reap.value.1 + M + 1)
            && (w.phase.Idle? && c.reap.Some? && !c.deleted ==> DestroyThenDelete(id) in w.tasks)
            && (w.phase.Idle? && c.state.ESTABLISHED? && c.reap.None? ==> w.ticks <= c.heard + M)
  {
    hide Exec;
    EveryRun(M, ls);
    var w := Exec(Initial(M), ls).value;
    assert ConnOk(w.conns[id], w.ticks, M);
    if w.phase.Idle? {
      WhereWhenIdle(w, id);
    }
  }

  /** With the 600 buckets that the server has: exactly at tick 601 of the silence. */
  lemma ReapedAtTick601(ls: seq<Label>, id: nat)
    requires Exec(Initial(MAX_IDLE_SECONDS), ls).Some?
    requires id < |Exec(Initial(MAX_IDLE_SECONDS), ls).value.conns|
    ensures var w := Exec(Initial(MAX_IDLE_SECONDS), ls).value; var c := w.conns[id];
            && |w.wheel| == 600
            && (c.reap.Some? ==> c.reap.value.0 == c.reap.value.1 + 601)
            && (w.phase.Idle? && c.state.ESTABLISHED? && c.reap.None? ==> w.ticks <= c.heard + 600)
  {
    hide Exec;
    EveryRun(MAX_IDLE_SECONDS, ls);
    ReapedExactlyOnTime(MAX_IDLE_SECONDS, ls, id);
  }

  /**
   When id's stamp was last made, read off the run itself: the number of ticks before its acceptance,
   or before the reading of the time that was stored last.
   */
  function LastHeard(ls: seq<Label>, id: nat, ticks: nat := 0, accepted: nat := 0, loaded: nat := 0, heard: nat := 0): nat
    decreases ls
  {
    if ls == [] then heard
    else match ls[0]
      case Tick => LastHeard(ls[1..], id, ticks + 1, accepted, loaded, heard)
      case Accept => LastHeard(ls[1..], id, ticks, accepted + 1, loaded, if accepted == id then ticks else heard)
      case Load(i) => LastHeard(ls[1..], id, ticks, accepted, if i == id then ticks else loaded, heard)
      case Store(i) => LastHeard(ls[1..], id, ticks, accepted, loaded, if i == id then loaded else heard)
      case _ => LastHeard(ls[1..], id, ticks, accepted, loaded, heard)
  }

  /** The two arguments of LastHeard that a world determines. */
  predicate Tracks(w: World, id: nat, loaded: nat, heard: nat) {
    id < |w.conns| ==>
      heard == w.conns[id].heard && (w.conns[id].loaded.Some? ==> loaded == w.conns[id].loaded.value.tick)
  }

  lemma TracksHeard(w: World, id: nat, loaded: nat, heard: nat)
    requires Tracks(w, id, loaded, heard) && id < |w.conns|
    ensures heard == w.conns[id].heard
  {
  }

  lemma TracksStep(w: World, l: Label, id: nat, loaded: nat, heard: nat)
    requires Step(w, l).Some? && Tracks(w, id, loaded, heard)
    ensures var v := Step(w, l).value;
            Tracks(v, id, if l == Load(id) then w.ticks else loaded,
                   if l == Store(id) then loaded else if l == Accept && |w.conns| == id then w.ticks else heard)
            && v.ticks == w.ticks + (if l.Tick? then 1 else 0)
            && |v.conns| == |w.conns| + (if l.Accept? then 1 else 0)
  {
  }

  lemma {:induction false} HeardIsLastHeard(w: World, ls: seq<Label>, id: nat, loaded: nat, heard: nat)
    requires Exec(w, ls).Some? && id < |Exec(w, ls).value.conns| && Tracks(w, id, loaded, heard)
    ensures Exec(w, ls).value.conns[id].heard == LastHeard(ls, id, w.ticks, |w.conns|, loaded, heard)
    decreases ls
  {
    hide Tracks, Step;
    if ls == [] {
      TracksHeard(w, id, loaded, heard);
    } else {
      var v, l := Step(w, ls[0]).value, ls[0];
      TracksStep(w, l, id, loaded, heard);
      var loaded' := if l == Load(id) then w.ticks else loaded;
      var heard' := if l == Store(id) then loaded else if l == Accept && |w.conns| == id then w.ticks else heard;
      HeardIsLastHeard(v, ls[1..], id, loaded', heard');
    }
  }

  lemma JudgedInTrueTime(w: World, id: nat)
    requires Invariant(w) && w.phase.Stamping? && w.Hand() == Some(id)
    ensures id < |w.conns| && Step(w, ReadStamp).Some? && Step(Step(w, ReadStamp).value, Settle).Some?
    ensures w.ticks <= w.conns[id].heard + w.Size() + 1
    ensures var u := Step(Step(w, ReadStamp).value, Settle).value;
            if w.ticks == w.conns[id].heard + w.Size() + 1 then
              u.tasks == w.tasks + [DestroyThenDelete(id)] && u.wheel == w.wheel
            else
              u.tasks == w.tasks && u.wheel == w.Pushed(id).wheel
  {
    hide TwoBuckets, Conserved, Timely, HandHeld, TasksOk, Conn.Overdue;
    HandAlone(w, id);
    OverdueInTrueTime(w.conns[id], w.ticks, w.Size());
  }

  /**
   When the scan reads a connection's stamp, whatever the worker does meanwhile: it posts the
   destruction exactly if the stamp was made M + 1 ticks ago, and otherwise keeps the connection;
   it never comes later than that.
   */
  lemma ScanJudgesExactly(M: nat, ls: seq<Label>, id: nat)
    requires 2 <= M && M + 1 < TWO32 && Exec(Initial(M), ls).Some?
    requires var w := Exec(Initial(M), ls).value; w.phase.Stamping? && w.Hand() == Some(id)
    ensures var w := Exec(Initial(M), ls).value; var v := Step(w, ReadStamp);
            && v.Some? && Step(v.value, Settle).Some? && w.ticks <= LastHeard(ls, id) + M + 1
            && var u := Step(v.value, Settle).value;
               if w.ticks == LastHeard(ls, id) + M + 1 then
                 u.tasks == w.tasks + [DestroyThenDelete(id)] && u.wheel == w.wheel
               else
                 u.tasks == w.tasks && u.wheel == w.Pushed(id).wheel
  {
    hide Exec, Invariant, Step;
    EveryRun(M, ls);
    JudgedInTrueTime(Exec(Initial(M), ls).value, id);
    HeardIsLastHeard(Initial(M), ls, id, 0, 0);
  }

  /** Somewhere in the run a worker closes id between the scan's two reads of its state in one round. */
  predicate ClosedBetweenReads(w: World, ls: seq<Label>, id: nat)
    decreases ls
  {
    ls != [] && Step(w, ls[0]).Some?
    && ((ls[0] == Close(id) && w.BetweenReads(id)) || ClosedBetweenReads(Step(w, ls[0]).value, ls[1..], id))
  }

  predicate Slipped(w: World, id: nat) { id < |w.conns| && w.conns[id].slipped }

  predicate ClosedForGood(w: World) {
    forall i :: 0 <= i < |w.conns| && (w.conns[i].raced || w.conns[i].slipped) ==> !w.conns[i].registered
  }

  lemma StepSlips(w: World, l: Label, id: nat)
    requires ClosedForGood(w) && Step(w, l).Some?
    ensures var v := Step(w, l).value;
            ClosedForGood(v) && (Slipped(v, id) <==> Slipped(w, id) || (l == Close(id) && w.BetweenReads(id)))
  {
  }

  lemma {:induction false} SlippedExactlyWhen(w: World, ls: seq<Label>, id: nat)
    requires ClosedForGood(w) && Exec(w, ls).Some?
    ensures Slipped(Exec(w, ls).value, id) <==> Slipped(w, id) || ClosedBetweenReads(w, ls, id)
    decreases ls
  {
    hide ClosedForGood, Slipped, Step;
    if ls != [] {
      StepSlips(w, ls[0], id);
      SlippedExactlyWhen(Step(w, ls[0]).value, ls[1..], id);
    }
  }

  /**
   A connection is lost, in no bucket and no task and never to be deleted, exactly when its worker
   closed it between the two reads of its state in one round of the scan.
   */
  lemma LostExactlyWhen(M: nat, ls: seq<Label>, id: nat)
    requires 2 <= M && M + 1 < TWO32 && Exec(Initial(M), ls).Some?
    requires id < |Exec(Initial(M), ls).value.conns|
    ensures var w := Exec(Initial(M), ls).value;
            && w.Shaped()
            && (w.phase.Idle? ==> (Places(w, id) == 0 <==> ClosedBetweenReads(Initial(M), ls, id)))
            && (ClosedBetweenReads(Initial(M), ls, id) ==> w.conns[id].state.CLOSED? && !w.conns[id].deleted)
  {
    hide Exec, ClosedBetweenReads;
    EveryRun(M, ls);
    var w := Exec(Initial(M), ls).value;
    SlippedExactlyWhen(Initial(M), ls, id);
    assert ConnOk(w.conns[id], w.ticks, M);
    assert Places(w, id) == if Lost(w, id) then 0 else 1;
  }

  /**
   Two ticks after its close a connection is deleted or has its delete posted, exactly if it was not
   closed between the two reads of its state.
   */
  lemma ClosedPostedWithinTwoTicks(M: nat, ls: seq<Label>, id: nat)
    requires 2 <= M && M + 1 < TWO32 && Exec(Initial(M), ls).Some?
    requires id < |Exec(Initial(M), ls).value.conns|
    requires var w := Exec(Initial(M), ls).value; var c := w.conns[id];
             w.phase.Idle? && c.state.CLOSED? && w.ticks >= c.closedAt + 2
    ensures var w := Exec(Initial(M), ls).value;
            w.conns[id].deleted || DeleteConn(id) in w.tasks || DestroyThenDelete(id) in w.tasks
            <==> !ClosedBetweenReads(Initial(M), ls, id)
  {
    hide Exec, ClosedBetweenReads;
    EveryRun(M, ls);
    var w := Exec(Initial(M), ls).value;
    SlippedExactlyWhen(Initial(M), ls, id);
    WhereWhenIdle(w, id);
    assert ConnOk(w.conns[id], w.ticks, M);
  }

  /**
   Deletion is safe: a deleted connection has left its epoller, no task and (between ticks) no
   bucket still holds it, and the scan, every store of a stamp and every task that its worker is
   free to run find a live object.
   */
  lemma DeletedOnceAndGone(M: nat, ls: seq<Label>, id: nat)
    requires 2 <= M && M + 1 < TWO32 && Exec(Initial(M), ls).Some?
    ensures var w := Exec(Initial(M), ls).value;
            && (id < |w.conns| && w.conns[id].deleted ==>
                  && !w.conns[id].registered
                  && (forall t <- w.tasks :: t.conn != id)
                  && (w.phase.Idle? ==> forall b :: 0 <= b < |w.wheel| ==> id !in w.wheel[b]))
            && (forall k :: 0 <= k < |w.tasks| ==>
                  w.tasks[k].conn < |w.conns| && (w.conns[w.tasks[k].conn].loaded.None? ==> Step(w, Run(k)).Some?))
            && (id < |w.conns| && w.conns[id].loaded.Some? ==> Step(w, Store(id)).Some?)
            && (!w.phase.Idle? ==>
                  exists l <- [FirstLook, SecondLook, ReadStamp, Settle, Advance] :: Step(w, l).Some?)
  {
    hide Exec;
    EveryRun(M, ls);
    var w := Exec(Initial(M), ls).value;
    if id < |w.conns| {
      assert ConnOk(w.conns[id], w.ticks, M);
      if w.conns[id].deleted {
        DeletedNowhere(w, id);
      }
    }
    forall k | 0 <= k < |w.tasks|
      ensures w.tasks[k].conn < |w.conns| && (w.conns[w.tasks[k].conn].loaded.None? ==> Step(w, Run(k)).Some?)
    {
      assert w.tasks[k] in w.tasks;
    }
    if !w.phase.Idle? {
      ScanGoesOn(w);
    }
  }

  lemma DeletedNowhere(w: World, id: nat)
    requires Invariant(w) && id < |w.conns| && w.conns[id].deleted
    ensures forall t <- w.tasks :: t.conn != id
    ensures w.phase.Idle? ==> forall b :: 0 <= b < |w.wheel| ==> id !in w.wheel[b]
  {
    assert Places(w, id) <= 1;
    forall t | t in w.tasks ensures t.conn != id {
      TaskOf(w.tasks, t);
    }
  }

  /** Within a scan there is always a next step of the main thread: it never meets a deleted connection. */
  lemma ScanGoesOn(w: World)
    requires Invariant(w) && !w.phase.Idle?
    ensures exists l <- [FirstLook, SecondLook, ReadStamp, Settle, Advance] :: Step(w, l).Some?
  {
    var ls := [FirstLook, SecondLook, ReadStamp, Settle, Advance];
    assert ls[0] == FirstLook && ls[1] == SecondLook && ls[2] == ReadStamp && ls[3] == Settle && ls[4] == Advance;
    var l := NextOfScan(w);
    assert l in ls;
  }

  lemma NextOfScan(w: World) returns (l: Label)
    requires Invariant(w) && !w.phase.Idle?
    ensures Step(w, l).Some? && (l.FirstLook? || l.SecondLook? || l.ReadStamp? || l.Settle? || l.Advance?)
  {
    if w.phase.Scanning? && w.phase.next == |w.wheel[w.Check()]| {
      l := Advance;
    } else if w.phase.Scanning? {
      var _ := NextInScan(w);
      l := FirstLook;
    } else {
      HandAlone(w, w.Held());
      l := if w.phase.LookingAgain? then SecondLook else if w.phase.Stamping? then ReadStamp else Settle;
    }
  }

  /** A deleted connection was destroyed once, or twice exactly when its worker closed it while it was being reaped. */
  lemma DestroyedTwiceExactlyWhenRaced(M: nat, ls: seq<Label>, id: nat)
    requires 2 <= M && M + 1 < TWO32 && Exec(Initial(M), ls).Some?
    requires id < |Exec(Initial(M), ls).value.conns| && Exec(Initial(M), ls).value.conns[id].deleted
    ensures Exec(Initial(M), ls).value.conns[id].destroys
         == if ClosedWhileReaping(Initial(M), ls, id) then 2 else 1
  {
    hide Exec, ClosedWhileReaping;
    EveryRun(M, ls);
    var w := Exec(Initial(M), ls).value;
    assert ConnOk(w.conns[id], w.ticks, M);
    RacedExactlyWhen(Initial(M), ls, id);
  }

  /**
   Somewhere in the run a worker closes id after the second read of its state in the round that finds
   it overdue, and before its destoryThenDeleteConn has run.
   */
  predicate ClosedWhileReaping(w: World, ls: seq<Label>, id: nat)
    decreases ls
  {
    ls != [] && Step(w, ls[0]).Some?
    && ((ls[0] == Close(id) && w.Reaping(id)) || ClosedWhileReaping(Step(w, ls[0]).value, ls[1..], id))
  }

  predicate Raced(w: World, id: nat) { id < |w.conns| && w.conns[id].raced }

  lemma StepRaces(w: World, l: Label, id: nat)
    requires ClosedForGood(w) && Step(w, l).Some?
    ensures var v := Step(w, l).value;
            ClosedForGood(v) && (Raced(v, id) <==> Raced(w, id) || (l == Close(id) && w.Reaping(id)))
  {
  }

  lemma {:induction false} RacedExactlyWhen(w: World, ls: seq<Label>, id: nat)
    requires ClosedForGood(w) && Exec(w, ls).Some?
    ensures Raced(Exec(w, ls).value, id) <==> Raced(w, id) || ClosedWhileReaping(w, ls, id)
    decreases ls
  {
    hide ClosedForGood, Raced, Step;
    if ls != [] {
      StepRaces(w, ls[0], id);
      RacedExactlyWhen(Step(w, ls[0]).value, ls[1..], id);
    }
  }

  /** Such losses are real: here the only connection is closed, and neither held nor posted anywhere. */
  lemma LosingRun(M: nat)
    requires 2 <= M && M + 1 < TWO32
    ensures var w := Exec(Initial(M), [Accept, Tick, Advance, Tick, FirstLook, Close(0), SecondLook, Settle, Advance]);
            && w.Some? && |w.value.conns| == 1 && w.value.conns[0].state.CLOSED? && !w.value.conns[0].deleted
            && w.value.phase.Idle? && w.value.tasks == [] && forall bucket <- w.value.wheel :: bucket == []
  {
    hide Exec;
    var w := FirstTurn(M);
    var ls := [Tick, FirstLook, Close(0), SecondLook, Settle, Advance];
    assert [Accept, Tick, Advance, Tick, FirstLook, Close(0), SecondLook, Settle, Advance] == [Accept, Tick, Advance] + ls;
    ExecAppend(Initial(M), [Accept, Tick, Advance], ls);
    assert w.Check() == 0;
    LosingTurn(w);
  }

  lemma FirstTurn(M: nat) returns (w: World)
    requires 2 <= M && M + 1 < TWO32
    ensures Exec(Initial(M), [Accept, Tick, Advance]) == Some(w)
    ensures w == World([NewConn(0, 0)], Initial(M).wheel[0 := [0]], 1, 1, [], Idle)
  {
    var wheel := Initial(M).wheel[0 := [0]];
    var accepted := World([NewConn(0, 0)], wheel, 0, 0, [], Idle);
    assert Step(Initial(M), Accept) == Some(accepted) by {
      assert [] + [NewConn(0, 0)] == [NewConn(0, 0)] && Initial(M).wheel[0] + [0] == [0];
    }
    var ticked := accepted.(ticks := 1, phase := Scanning(0));
    w := accepted.(cur := 1, ticks := 1);
    assert Step(ticked, Advance) == Some(w) by {
      assert wheel[M - 1 := []] == wheel;
    }
    assert [Accept, Tick, Advance] == [Accept] + [Tick, Advance];
    ExecFirst(Initial(M), Accept, [Tick, Advance]);
    ExecFirst(accepted, Tick, [Advance]);
    ExecFirst(ticked, Advance, []);
  }

  /** The scan of a bucket that holds only an open connection, its worker closing it between the two reads. */
  lemma LosingTurn(w: World)
    requires w.Shaped() && |w.conns| == 1 && w.conns[0] == NewConn(0, 0) && w.tasks == [] && w.phase.Idle?
    requires w.wheel[w.Check()] == [0] && forall b :: 0 <= b < |w.wheel| && b != w.Check() ==> w.wheel[b] == []
    ensures var v := Exec(w, [Tick, FirstLook, Close(0), SecondLook, Settle, Advance]);
            && v.Some? && |v.value.conns| == 1 && v.value.conns[0].state.CLOSED? && !v.value.conns[0].deleted
            && v.value.phase.Idle? && v.value.tasks == [] && forall bucket <- v.value.wheel :: bucket == []
  {
    hide Step, Exec;
    var scanning := w.(ticks := w.ticks + 1, phase := Scanning(0));
    var looking := scanning.(phase := LookingAgain(0));
    LosingLooks(w, scanning, looking);
    var closed := LosingClose(looking);
    LosingEnd(closed);
    var rest := [SecondLook, Settle, Advance];
    ExecFirst(w, Tick, [FirstLook] + ([Close(0)] + rest));
    ExecFirst(scanning, FirstLook, [Close(0)] + rest);
    ExecFirst(looking, Close(0), rest);
    assert [Tick, FirstLook, Close(0), SecondLook, Settle, Advance] == [Tick] + ([FirstLook] + ([Close(0)] + rest));
  }

  lemma LosingLooks(w: World, scanning: World, looking: World)
    requires w.Shaped() && |w.conns| == 1 && w.conns[0] == NewConn(0, 0) && w.phase.Idle? && w.wheel[w.Check()] == [0]
    requires scanning == w.(ticks := w.ticks + 1, phase := Scanning(0)) && looking == scanning.(phase := LookingAgain(0))
    ensures Step(w, Tick) == Some(scanning) && Step(scanning, FirstLook) == Some(looking)
  {
    hide World.Check;
  }

  lemma LosingClose(looking: World) returns (closed: World)
    requires looking.Shaped() && |looking.conns| == 1 && looking.conns[0] == NewConn(0, 0)
    requires looking.phase == LookingAgain(0) && looking.wheel[looking.Check()] == [0]
    ensures Step(looking, Close(0)) == Some(closed) && closed == looking.(conns := closed.conns)
    ensures |closed.conns| == 1 && closed.conns[0].state.CLOSED? && !closed.conns[0].deleted
  {
    hide World.Check, World.Reaping;
    closed := Step(looking, Close(0)).value;
  }

  lemma LosingEnd(closed: World)
    requires closed.Shaped() && |closed.conns| == 1 && closed.conns[0].state.CLOSED? && !closed.conns[0].deleted
    requires closed.phase == LookingAgain(0) && closed.wheel[closed.Check()] == [0] && closed.tasks == []
    requires forall b :: 0 <= b < |closed.wheel| && b != closed.Check() ==> closed.wheel[b] == []
    ensures var v := Exec(closed, [SecondLook, Settle, Advance]);
            && v.Some? && v.value.conns == closed.conns
            && v.value.phase.Idle? && v.value.tasks == [] && forall bucket <- v.value.wheel :: bucket == []
  {
    hide World.Check, Exec;
    var dropping, dropped := closed.(phase := Deciding(0, Drop)), closed.(phase := Scanning(1));
    ExecFirst(closed, SecondLook, [Settle] + [Advance]);
    ExecFirst(dropping, Settle, [Advance]);
    ExecFirst(dropped, Advance, []);
    ExecNone(dropped.Advanced());
    assert [SecondLook, Settle, Advance] == [SecondLook] + ([Settle] + [Advance]) && [Advance] == [Advance] + [];
  }

  lemma ExecNone(w: World)
    ensures Exec(w, []) == Some(w)
  {
  }

  /** The only connection, silent since tick 0, waits in the previous bucket. */
  predicate Solo(w: World, M: nat, ticks: nat) {
    && w.Shaped() && w.Size() == M && w.conns == [NewConn(0, 0)] && w.tasks == [] && w.ticks == ticks && w.phase.Idle?
    && w.wheel[w.Check()] == [0] && forall b :: 0 <= b < |w.wheel| && b != w.Check() ==> w.wheel[b] == []
  }

  /** The same, during the round on that connection. */
  predicate SoloRound(w: World, M: nat, ticks: nat, phase: Phase) {
    Solo(w.(phase := Idle), M, ticks) && w.phase == phase
  }

  const KEPT_TURN: seq<Label> := [Tick, FirstLook, SecondLook, ReadStamp, Settle, Advance]

  /** n undisturbed turns that keep the connection. */
  function KeptTurns(n: nat): seq<Label> {
    if n == 0 then [] else KeptTurns(n - 1) + KEPT_TURN
  }

  /** A turn's reads, up to the stamp. */
  lemma SoloLooks(w: World, M: nat, ticks: nat, rest: seq<Label>) returns (v: World)
    requires Solo(w, M, ticks)
    ensures SoloRound(v, M, ticks + 1, Stamping(0)) && v.AtLive() && v.Held() == 0
    ensures Exec(w, [Tick, FirstLook, SecondLook] + rest) == Exec(v, rest)
  {
    hide World.Check, Exec;
    var scanning := w.(ticks := ticks + 1, phase := Scanning(0));
    v := scanning.(phase := Stamping(0));
    ExecFirst(w, Tick, [FirstLook] + ([SecondLook] + rest));
    ExecFirst(scanning, FirstLook, [SecondLook] + rest);
    ExecFirst(scanning.(phase := LookingAgain(0)), SecondLook, rest);
    assert [Tick, FirstLook, SecondLook] + rest == [Tick] + ([FirstLook] + ([SecondLook] + rest));
  }

  lemma SmallStamp(ticks: nat, M: nat)
    requires ticks <= M + 1 < TWO32
    ensures NewConn(0, 0).Overdue(ticks % TWO32, M) <==> ticks == M + 1
  {
  }

  lemma SoloKept(v: World, M: nat, ticks: nat) returns (w: World)
    requires SoloRound(v, M, ticks, Stamping(0)) && v.AtLive() && ticks <= M && M + 1 < TWO32
    ensures Solo(w, M, ticks) && Exec(v, [ReadStamp, Settle, Advance]) == Some(w)
  {
    hide Exec, Conn.Overdue;
    SmallStamp(ticks, M);
    var keeping := v.(phase := Deciding(0, Keep));
    var kept := v.(phase := Scanning(1)).Pushed(0);
    ExecFirst(v, ReadStamp, [Settle] + [Advance]);
    ExecFirst(keeping, Settle, [Advance]);
    ExecFirst(kept, Advance, []);
    ExecNone(kept.Advanced());
    w := kept.Advanced();
    assert [ReadStamp, Settle, Advance] == [ReadStamp] + ([Settle] + [Advance]) && [Advance] == [Advance] + [];
    SoloAgain(v, w);
  }

  lemma SoloAgain(v: World, w: World)
    requires v.Shaped() && (forall b :: 0 <= b < |v.wheel| && b != v.Check() ==> v.wheel[b] == [])
    requires w == v.(phase := Scanning(1)).Pushed(0).Advanced()
    ensures w.Shaped() && w.Size() == v.Size() && w.Check() == v.cur && w.wheel[w.Check()] == [0]
    ensures forall b :: 0 <= b < |w.wheel| && b != w.Check() ==> w.wheel[b] == []
  {
    assert v.wheel[v.cur] + [0] == [0];
  }

  lemma {:induction false} SoloTurns(M: nat, w: World, n: nat) returns (v: World)
    requires Solo(w, M, 1) && n < M && M + 1 < TWO32
    ensures Solo(v, M, n + 1) && Exec(w, KeptTurns(n)) == Some(v)
  {
    hide Solo, SoloRound, World.AtLive, World.Held, Exec;
    if n == 0 {
      ExecNone(w);
      v := w;
    } else {
      var u := SoloTurns(M, w, n - 1);
      var round := SoloLooks(u, M, n, [ReadStamp, Settle, Advance]);
      v := SoloKept(round, M, n + 1);
      assert KEPT_TURN == [Tick, FirstLook, SecondLook] + [ReadStamp, Settle, Advance];
      ExecAppend(w, KeptTurns(n - 1), KEPT_TURN);
    }
  }

  lemma SoloPosted(v: World, M: nat) returns (stamped: World, posted: World)
    requires SoloRound(v, M, M + 1, Stamping(0)) && v.AtLive() && v.Held() == 0 && M + 1 < TWO32
    ensures Step(v, ReadStamp) == Some(stamped) && Step(stamped, Settle) == Some(posted)
    ensures posted.Shaped() && posted.tasks == [DestroyThenDelete(0)] && |posted.conns| == 1
    ensures posted.conns[0] == NewConn(0, 0).(reap := posted.conns[0].reap)
  {
    hide Conn.Overdue, World.Check;
    SmallStamp(M + 1, M);
    stamped := v.Stamped();
    posted := stamped.Settled();
  }

  lemma ClosedThenRun(posted: World) returns (closed: World, w: World)
    requires posted.Shaped() && posted.tasks == [DestroyThenDelete(0)] && |posted.conns| == 1
    requires posted.conns[0] == NewConn(0, 0).(reap := posted.conns[0].reap)
    ensures Step(posted, Close(0)) == Some(closed) && Step(closed, Run(0)) == Some(w)
    ensures |w.conns| == 1 && w.conns[0].deleted && w.conns[0].destroys == 2
  {
    hide World.Check, World.Reaping, World.BetweenReads;
    closed := Step(posted, Close(0)).value;
    w := Step(closed, Run(0)).value;
  }

  /** The destruction is posted, the worker closes, and the task destroys once more. */
  lemma SoloRaced(v: World, M: nat) returns (w: World)
    requires SoloRound(v, M, M + 1, Stamping(0)) && v.AtLive() && v.Held() == 0 && M + 1 < TWO32
    ensures Exec(v, [ReadStamp, Settle, Close(0), Run(0)]) == Some(w)
    ensures |w.conns| == 1 && w.conns[0].deleted && w.conns[0].destroys == 2
  {
    hide Exec, Conn.Overdue, World.Check;
    hide Step, World.Stamped, World.Settled;
    var stamped, posted := SoloPosted(v, M);
    var closed;
    closed, w := ClosedThenRun(posted);
    ExecFirst(v, ReadStamp, [Settle] + ([Close(0)] + [Run(0)]));
    ExecFirst(stamped, Settle, [Close(0)] + [Run(0)]);
    ExecFirst(posted, Close(0), [Run(0)]);
    ExecFirst(closed, Run(0), []);
    ExecNone(w);
    assert [ReadStamp, Settle, Close(0), Run(0)] == [ReadStamp] + ([Settle] + ([Close(0)] + [Run(0)]));
    assert [Run(0)] == [Run(0)] + [];
  }

  /** A run that destroys its only connection twice: silent for M + 1 ticks, and closed once its destruction is posted. */
  function RacingLabels(M: nat): seq<Label>
    requires M > 0
  {
    [Accept, Tick, Advance] + (KeptTurns(M - 1) + ([Tick, FirstLook, SecondLook] + [ReadStamp, Settle, Close(0), Run(0)]))
  }

  /** And so double destruction is real, for every wheel size. */
  lemma RacingRun(M: nat)
    requires 2 <= M && M + 1 < TWO32
    ensures var w := Exec(Initial(M), RacingLabels(M));
            && w.Some? && |w.value.conns| == 1 && w.value.conns[0].deleted && w.value.conns[0].destroys == 2
            && ClosedWhileReaping(Initial(M), RacingLabels(M), 0)
  {
    hide Exec, Solo, SoloRound, World.AtLive, World.Held, KeptTurns, ClosedWhileReaping;
    var first := FirstTurn(M);
    SoloFirst(M, first);
    var last := SoloTurns(M, first, M - 1);
    var ending := [ReadStamp, Settle, Close(0), Run(0)];
    var round := SoloLooks(last, M, M, ending);
    var w := SoloRaced(round, M);
    var turns := KeptTurns(M - 1) + ([Tick, FirstLook, SecondLook] + ending);
    ExecAppend(Initial(M), [Accept, Tick, Advance], turns);
    ExecAppend(first, KeptTurns(M - 1), [Tick, FirstLook, SecondLook] + ending);
    DestroyedTwiceExactlyWhenRaced(M, RacingLabels(M), 0);
  }

  lemma SoloFirst(M: nat, w: World)
    requires 2 <= M && w == World([NewConn(0, 0)], Initial(M).wheel[0 := [0]], 1, 1, [], Idle)
    ensures Solo(w, M, 1)
  {
    assert w.Check() == 0;
  }
}
