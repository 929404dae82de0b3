/**
 The timing wheel and the workers' event loops together: the deletes that the wheel posts are the
 tasks that the loops run.  Every step is a step of the wheel, of one loop, or of both.
 */
module Reclaims {
  import opened Common
  import W = IdleWheels
  import R = IdleWheelRuns
  import L = EventLoops

  /** owner: the loop of each connection; sent: what the tasks of each loop do, by their number. */
  datatype System = System(wheel: W.World, loops: seq<L.Loop>, owner: seq<nat>, sent: seq<seq<W.Task>>)

  function Initial(M: nat, n: nat): System {
    System(W.Initial(M), seq(n, _ => L.Initial), [], seq(n, _ => []))
  }

  datatype Label =
    | Accepted(loop: nat)        // main thread: one connection is accepted for that loop
    | Wheel(step: W.Label)       // main thread or a worker's event handler: no task is posted or run
    | Post                       // main thread: the round ends with a task, pushed to the owner's loop
    | Loop(j: nat, turn: L.Label)  // loop j, a flag check of runInLoop, or stop
    | Execute(j: nat)            // loop j runs the first task of its batch

  predicate Posts(w: W.World) {
    w.phase.Deciding? && (w.phase.verdict.PostDelete? || w.phase.verdict.PostDestroy?)
  }

  /** A worker reads, stores and closes only while its loop handles events. */
  predicate InHandler(s: System, l: W.Label) {
    l.Load? || l.Store? || l.Close? ==> l.id < |s.owner| && s.owner[l.id] < |s.loops| && s.loops[s.owner[l.id]].pc.Handling?
  }

  /** No connection of loop j is between the two halves of its stamp. */
  predicate NoneLoaded(s: System, j: nat) {
    forall id :: 0 <= id < |s.wheel.conns| && id < |s.owner| && s.owner[id] == j ==> s.wheel.conns[id].loaded.None?
  }

  function IndexOf(tasks: seq<W.Task>, t: W.Task): (k: nat)
    ensures k <= |tasks| && (t in tasks <==> k < |tasks|) && (k < |tasks| ==> tasks[k] == t)
  {
    if tasks == [] || tasks[0] == t then 0 else IndexOf(tasks[1..], t) + 1
  }

  /** The wheel's part of a step, if it has one. */
  function WheelPart(s: System, l: Label): Option<W.Label> {
    match l
    case Accepted(_) => Some(W.Accept)
    case Wheel(step) => Some(step)
    case Post => Some(W.Settle)
    case Loop(_, _) => None
    case Execute(j) =>
      if j < |s.loops| && j < |s.sent| && s.loops[j].curTask != [] && s.loops[j].curTask[0] < |s.sent[j]| then
        Some(W.Run(IndexOf(s.wheel.tasks, s.sent[j][s.loops[j].curTask[0]])))
      else None
  }

  /** Loop j's part of a step, if it has one. */
  function LoopPart(s: System, l: Label, j: nat): Option<L.Label> {
    match l
    case Loop(i, turn) => if i == j then Some(turn) else None
    case Execute(i) => if i == j then Some(L.RunTask) else None
    case Post => if PostsTo(s, j) then Some(L.Push) else None
    case _ => None
  }

  predicate PostsTo(s: System, j: nat) {
    s.wheel.AtLive() && s.wheel.Held() < |s.owner| && s.owner[s.wheel.Held()] == j
  }

  /** None: impossible in this state. */
  function Step(s: System, l: Label): Option<System> {
    match l
    case Accepted(j) =>
      if j < |s.loops| && W.Step(s.wheel, W.Accept).Some? then
        Some(s.(wheel := W.Step(s.wheel, W.Accept).value, owner := s.owner + [j]))
      else None
    case Wheel(step) =>
      if step.Accept? || step.Run? || (step.Settle? && Posts(s.wheel)) || !InHandler(s, step) then None
      else if W.Step(s.wheel, step).Some? then Some(s.(wheel := W.Step(s.wheel, step).value))
      else None
    case Post =>
      if !Posts(s.wheel) || !s.wheel.AtLive() || s.wheel.Held() >= |s.owner| then None
      else
        var j := s.owner[s.wheel.Held()];
        var w := s.wheel.Settled();
        if j >= |s.loops| || j >= |s.sent| || w.tasks == [] then None
        else Some(s.(wheel := w, loops := s.loops[j := L.Step(s.loops[j], L.Push).value],
                     sent := s.sent[j := s.sent[j] + [w.tasks[|w.tasks| - 1]]]))
    case Loop(j, turn) =>
      if j >= |s.loops| || turn.Push? || turn.RunTask? || (turn.EventsHandled? && !NoneLoaded(s, j)) then None
      else if L.Step(s.loops[j], turn).Some? then Some(s.(loops := s.loops[j := L.Step(s.loops[j], turn).value]))
      else None
    case Execute(j) =>
      if j >= |s.loops| || WheelPart(s, l).None? then None
      else if L.Step(s.loops[j], L.RunTask).Some? && W.Step(s.wheel, WheelPart(s, l).value).Some? then
        Some(s.(wheel := W.Step(s.wheel, WheelPart(s, l).value).value,
                loops := s.loops[j := L.Step(s.loops[j], L.RunTask).value]))
      else None
  }

  function Exec(s: System, ls: seq<Label>): Option<System>
    decreases ls
  {
    if ls == [] then Some(s)
    else
      match Step(s, ls[0])
      case None => None
      case Some(t) => Exec(t, ls[1..])
  }

  /** The run as the wheel sees it. */
  function WheelRun(s: System, ls: seq<Label>): seq<W.Label>
    decreases ls
  {
    if ls == [] || Step(s, ls[0]).None? then []
    else
      var rest := WheelRun(Step(s, ls[0]).value, ls[1..]);
      if WheelPart(s, ls[0]).Some? then [WheelPart(s, ls[0]).value] + rest else rest
  }

  /** The run as loop j sees it. */
  function LoopRun(s: System, ls: seq<Label>, j: nat): seq<L.Label>
    decreases ls
  {
    if ls == [] || Step(s, ls[0]).None? then []
    else
      var rest := LoopRun(Step(s, ls[0]).value, ls[1..], j);
      if LoopPart(s, ls[0], j).Some? then [LoopPart(s, ls[0], j).value] + rest else rest
  }

  lemma StepOfWheel(s: System, l: Label)
    requires Step(s, l).Some?
    ensures var t := Step(s, l).value;
            if WheelPart(s, l).Some? then W.Step(s.wheel, WheelPart(s, l).value) == Some(t.wheel)
            else t.wheel == s.wheel
  {
  }

  lemma StepOfLoop(s: System, l: Label, j: nat)
    requires Step(s, l).Some? && j < |s.loops|
    ensures var t := Step(s, l).value;
            && |t.loops| == |s.loops|
            && if LoopPart(s, l, j).Some? then L.Step(s.loops[j], LoopPart(s, l, j).value) == Some(t.loops[j])
               else t.loops[j] == s.loops[j]
  {
  }

  /** The wheel's part of a run is a run of the wheel. */
  lemma {:induction false} RunOfWheel(s: System, ls: seq<Label>)
    requires Exec(s, ls).Some?
    ensures W.Exec(s.wheel, WheelRun(s, ls)) == Some(Exec(s, ls).value.wheel)
    decreases ls
  {
    hide Step, WheelPart, W.Step;
    if ls != [] {
      var t := Step(s, ls[0]).value;
      StepOfWheel(s, ls[0]);
      RunOfWheel(t, ls[1..]);
      if WheelPart(s, ls[0]).Some? {
        W.ExecFirst(s.wheel, WheelPart(s, ls[0]).value, WheelRun(t, ls[1..]));
      }
    }
  }

  /** Each loop's part is a run of that loop. */
  lemma {:induction false} RunOfLoop(s: System, ls: seq<Label>, j: nat)
    requires Exec(s, ls).Some? && j < |s.loops|
    ensures |Exec(s, ls).value.loops| == |s.loops|
    ensures L.Exec(s.loops[j], LoopRun(s, ls, j)) == Some(Exec(s, ls).value.loops[j])
    decreases ls
  {
    hide Step, LoopPart, L.Step;
    if ls != [] {
      var t := Step(s, ls[0]).value;
      StepOfLoop(s, ls[0], j);
      RunOfLoop(t, ls[1..], j);
      if LoopPart(s, ls[0], j).Some? {
        L.ExecFirst(s.loops[j], LoopPart(s, ls[0], j).value, LoopRun(t, ls[1..], j));
      }
    }
  }

  /** The tasks of a loop that are not yet executed, in order. */
  function Queue(l: L.Loop): seq<nat> { l.curTask + l.tasks }

  ghost predicate Shaped(s: System) {
    && |s.sent| == |s.loops| && |s.owner| == |s.wheel.conns|
    && (forall i :: 0 <= i < |s.owner| ==> s.owner[i] < |s.loops|)
    && (forall j :: 0 <= j < |s.loops| ==> |s.sent[j]| == |s.loops[j].posts|)
  }

  /** Task n of loop j is the wheel's too, and of a connection of that loop. */
  ghost predicate Pending(s: System, j: nat, n: nat) {
    && j < |s.sent| && n < |s.sent[j]| && s.sent[j][n] in s.wheel.tasks
    && s.sent[j][n].conn < |s.owner| && s.owner[s.sent[j][n].conn] == j
  }

  /** Task n of loop j has deleted its connection. */
  ghost predicate Done(s: System, j: nat, n: nat) {
    && j < |s.sent| && n < |s.sent[j]| && s.sent[j][n].conn < |s.wheel.conns|
    && s.wheel.conns[s.sent[j][n].conn].deleted
  }

  ghost predicate Distinct(tasks: seq<W.Task>) {
    forall n, m :: 0 <= n < m < |tasks| ==> tasks[n].conn != tasks[m].conn
  }

  ghost predicate LoopOk(s: System, j: nat)
    requires j < |s.loops| && j < |s.sent|
  {
    && L.Invariant(s.loops[j])
    && (forall n <- Queue(s.loops[j]) :: Pending(s, j, n))
    && (forall n <- s.loops[j].executed :: Done(s, j, n))
    && Distinct(s.sent[j])
  }

  /** The task waits in the queue of the loop of its connection. */
  ghost predicate Queued(s: System, t: W.Task) {
    && t.conn < |s.owner| && s.owner[t.conn] < |s.loops| && s.owner[t.conn] < |s.sent|
    && exists n <- Queue(s.loops[s.owner[t.conn]]) :: n < |s.sent[s.owner[t.conn]]| && s.sent[s.owner[t.conn]][n] == t
  }

  /** Half-made stamps exist only in event handlers. */
  ghost predicate HandlersOk(s: System)
    requires Shaped(s)
  {
    forall id :: 0 <= id < |s.wheel.conns| && s.wheel.conns[id].loaded.Some? ==> s.loops[s.owner[id]].pc.Handling?
  }

  ghost predicate Invariant(s: System) {
    && W.Invariant(s.wheel) && Shaped(s)
    && (forall j :: 0 <= j < |s.loops| ==> LoopOk(s, j))
    && (forall t <- s.wheel.tasks :: Queued(s, t))
    && HandlersOk(s)
  }

  /** A wheel step that posts and runs no task. */
  lemma QuietWheel(w: W.World, l: W.Label)
    requires W.Step(w, l).Some? && !l.Run? && !(l.Settle? && Posts(w))
    ensures var v := W.Step(w, l).value;
            && v.tasks == w.tasks && |v.conns| == |w.conns| + (if l.Accept? then 1 else 0)
            && (forall i :: 0 <= i < |w.conns| ==> v.conns[i].deleted == w.conns[i].deleted)
            && (forall i :: 0 <= i < |v.conns| ==>
                  (v.conns[i].loaded.Some? ==> i < |w.conns| && (w.conns[i].loaded.Some? || l == W.Load(i))))
  {
  }

  lemma WheelMoved(s: System, t: System)
    requires Invariant(s) && W.Invariant(t.wheel) && t.loops == s.loops && t.sent == s.sent
    requires s.owner <= t.owner && |t.owner| == |t.wheel.conns| && t.wheel.tasks == s.wheel.tasks
    requires forall i :: |s.owner| <= i < |t.owner| ==> t.owner[i] < |s.loops|
    requires forall i :: 0 <= i < |s.wheel.conns| ==> t.wheel.conns[i].deleted == s.wheel.conns[i].deleted
    requires HandlersOk(t)
    ensures Invariant(t)
  {
    hide W.Invariant, L.Invariant, HandlersOk, Distinct, Queue;
    assert forall i :: 0 <= i < |s.owner| ==> t.owner[i] == s.owner[i];
    forall j | 0 <= j < |t.loops| ensures LoopOk(t, j) {
      assert LoopOk(s, j);
      forall n | n in Queue(t.loops[j]) ensures Pending(t, j, n) {
        assert Pending(s, j, n);
      }
      forall n | n in t.loops[j].executed ensures Done(t, j, n) {
        assert Done(s, j, n);
      }
    }
    forall u | u in t.wheel.tasks ensures Queued(t, u) {
      assert Queued(s, u);
    }
  }

  lemma AcceptedKeeps(s: System, j: nat)
    requires Invariant(s) && Step(s, Accepted(j)).Some?
    ensures Invariant(Step(s, Accepted(j)).value)
  {
    hide W.Invariant, W.Step, L.Invariant, LoopOk, Queued;
    var t := Step(s, Accepted(j)).value;
    W.StepKeepsInvariant(s.wheel, W.Accept);
    QuietWheel(s.wheel, W.Accept);
    WheelMoved(s, t);
  }

  lemma WheelKeeps(s: System, l: W.Label)
    requires Invariant(s) && Step(s, Wheel(l)).Some?
    ensures Invariant(Step(s, Wheel(l)).value)
  {
    hide W.Invariant, W.Step, L.Invariant, LoopOk, Queued;
    var t := Step(s, Wheel(l)).value;
    W.StepKeepsInvariant(s.wheel, l);
    QuietWheel(s.wheel, l);
    WheelMoved(s, t);
  }

  /** A loop's step that takes and gives no task. */
  lemma QuietLoop(l: L.Loop, turn: L.Label)
    requires L.Invariant(l) && L.Step(l, turn).Some? && !turn.Push? && !turn.RunTask?
    ensures var m := L.Step(l, turn).value;
            && Queue(m) == Queue(l) && m.executed == l.executed && |m.posts| == |l.posts|
            && (l.pc.Handling? && !turn.EventsHandled? ==> m.pc.Handling?)
  {
  }

  lemma LoopKeeps(s: System, j: nat, turn: L.Label)
    requires Invariant(s) && Step(s, Loop(j, turn)).Some?
    ensures Invariant(Step(s, Loop(j, turn)).value)
  {
    hide W.Invariant, L.Invariant, L.Step, Queue, Distinct;
    var t := Step(s, Loop(j, turn)).value;
    assert LoopOk(s, j);
    L.StepKeepsInvariant(s.loops[j], turn);
    QuietLoop(s.loops[j], turn);
    forall i | 0 <= i < |t.loops| ensures LoopOk(t, i) {
      assert LoopOk(s, i);
      forall n | n in Queue(t.loops[i]) ensures Pending(t, i, n) {
        assert Pending(s, i, n);
      }
      forall n | n in t.loops[i].executed ensures Done(t, i, n) {
        assert Done(s, i, n);
      }
    }
    forall u | u in t.wheel.tasks ensures Queued(t, u) {
      assert Queued(s, u);
    }
  }

  /** The number of a task is executed or queued. */
  lemma ExecutedOrQueued(l: L.Loop, n: nat)
    requires L.Invariant(l) && n < |l.posts|
    ensures n in l.executed || n in Queue(l)
  {
    assert (l.executed + l.curTask + l.tasks)[n] == n;
    assert l.executed + l.curTask + l.tasks == l.executed + Queue(l);
  }

  lemma Numbers(l: L.Loop)
    requires L.Invariant(l)
    ensures forall n <- Queue(l) :: n < |l.posts|
    ensures forall n <- l.executed :: n < |l.posts|
  {
    var all := l.executed + l.curTask + l.tasks;
    forall n | n in Queue(l) || n in l.executed ensures n < |l.posts| {
      assert n in all;
      var k :| 0 <= k < |all| && all[k] == n;
    }
  }

  /** What Post does to the wheel: the connection in the scan's hand gets its task. */
  lemma PostedTask(w: W.World) returns (task: W.Task)
    requires W.Invariant(w) && Posts(w) && w.AtLive()
    ensures var v := w.Settled();
            && W.Step(w, W.Settle) == Some(v) && v.tasks == w.tasks + [task] && task.conn == w.Held() && v.conns == w.conns
    ensures (forall t <- w.tasks :: t.conn != task.conn) && task.conn < |w.conns| && !w.conns[task.conn].deleted
  {
    W.HandAlone(w, w.Held());
    task := w.Settled().tasks[|w.tasks|];
  }

  lemma PostKeeps(s: System)
    requires Invariant(s) && Step(s, Post).Some?
    ensures Invariant(Step(s, Post).value)
  {
    hide W.Invariant, W.Step, L.Invariant, L.Step, HandlersOk;
    var task := PostedTask(s.wheel);
    W.StepKeepsInvariant(s.wheel, W.Settle);
    var j := s.owner[task.conn];
    var t := Step(s, Post).value;
    assert LoopOk(s, j);
    PushedLoop(s.loops[j]);
    L.StepKeepsInvariant(s.loops[j], L.Push);
    PostFresh(s, j, task);
    forall i | 0 <= i < |t.loops| ensures LoopOk(t, i) {
      PostLoop(s, t, task, j, i);
    }
    forall u | u in t.wheel.tasks ensures Queued(t, u) {
      PostQueued(s, t, task, j, u);
    }
    PostHandlers(s, t, j);
  }

  lemma PushedLoop(l: L.Loop)
    ensures L.Step(l, L.Push).Some?
    ensures var m := L.Step(l, L.Push).value;
            && Queue(m) == Queue(l) + [|l.posts|] && m.executed == l.executed && |m.posts| == |l.posts| + 1 && m.pc == l.pc
  {
  }

  /** The connection never had a task before. */
  lemma PostFresh(s: System, j: nat, task: W.Task)
    requires Invariant(s) && j < |s.loops| && (forall t <- s.wheel.tasks :: t.conn != task.conn)
    requires task.conn < |s.wheel.conns| && !s.wheel.conns[task.conn].deleted
    ensures forall n :: 0 <= n < |s.sent[j]| ==> s.sent[j][n].conn != task.conn
  {
    hide W.Invariant, L.Invariant;
    assert LoopOk(s, j);
    forall n | 0 <= n < |s.sent[j]| ensures s.sent[j][n].conn != task.conn {
      ExecutedOrQueued(s.loops[j], n);
      assert Done(s, j, n) || Pending(s, j, n);
    }
  }

  /** After a post of task to loop j. */
  ghost predicate PostedTo(s: System, t: System, task: W.Task, j: nat) {
    && j < |s.loops| && |s.sent| == |s.loops| && L.Step(s.loops[j], L.Push).Some?
    && t == s.(wheel := t.wheel, loops := s.loops[j := L.Step(s.loops[j], L.Push).value],
               sent := s.sent[j := s.sent[j] + [task]])
    && t.wheel.tasks == s.wheel.tasks + [task] && t.wheel.conns == s.wheel.conns
  }

  lemma PostLoop(s: System, t: System, task: W.Task, j: nat, i: nat)
    requires Invariant(s) && PostedTo(s, t, task, j) && i < |s.loops|
    requires task.conn < |s.owner| && s.owner[task.conn] == j && L.Invariant(t.loops[j])
    requires forall n :: 0 <= n < |s.sent[j]| ==> s.sent[j][n].conn != task.conn
    ensures LoopOk(t, i)
  {
    hide W.Invariant, L.Invariant, L.Step, Queue;
    assert LoopOk(s, i);
    Numbers(s.loops[i]);
    PushedLoop(s.loops[j]);
    forall n | n in Queue(t.loops[i]) ensures Pending(t, i, n) {
      if n in Queue(s.loops[i]) {
        assert Pending(s, i, n);
      }
    }
    forall n | n in t.loops[i].executed ensures Done(t, i, n) {
      assert Done(s, i, n);
    }
  }

  lemma PostQueued(s: System, t: System, task: W.Task, j: nat, u: W.Task)
    requires Invariant(s) && PostedTo(s, t, task, j) && u in t.wheel.tasks
    requires task.conn < |s.owner| && s.owner[task.conn] == j && |s.sent[j]| == |s.loops[j].posts|
    ensures Queued(t, u)
  {
    hide W.Invariant, L.Invariant, L.Step, Queue;
    PushedLoop(s.loops[j]);
    if u in s.wheel.tasks {
      assert Queued(s, u);
      var o := s.owner[u.conn];
      var n :| n in Queue(s.loops[o]) && n < |s.sent[o]| && s.sent[o][n] == u;
      assert n in Queue(t.loops[o]) && t.sent[o][n] == u;
    } else {
      assert |s.sent[j]| in Queue(t.loops[j]);
    }
  }

  lemma PostHandlers(s: System, t: System, j: nat)
    requires Invariant(s) && j < |s.loops| && t.owner == s.owner && t.wheel.conns == s.wheel.conns && Shaped(t)
    requires L.Step(s.loops[j], L.Push).Some? && t.loops == s.loops[j := L.Step(s.loops[j], L.Push).value]
    ensures HandlersOk(t)
  {
    hide W.Invariant, L.Invariant, L.Step, LoopOk, Queued;
    PushedLoop(s.loops[j]);
  }

  /** The first task of a running batch is the wheel's, and its worker is in no handler. */
  lemma FirstOfBatch(s: System, j: nat)
    requires Invariant(s) && j < |s.loops| && s.loops[j].pc.Running? && s.loops[j].curTask != []
    ensures Step(s, Execute(j)).Some? && Pending(s, j, s.loops[j].curTask[0])
  {
    hide W.Invariant, L.Invariant, Queued;
    assert LoopOk(s, j);
    var n := s.loops[j].curTask[0];
    assert n in Queue(s.loops[j]) && Pending(s, j, n);
    PostedLive(s.wheel, s.sent[j][n]);
  }

  lemma PostedLive(w: W.World, t: W.Task)
    requires W.Invariant(w) && t in w.tasks
    ensures w.Shaped() && t.conn < |w.conns| && !w.conns[t.conn].deleted
  {
  }

  /** What executing a task does to the wheel. */
  lemma RanTask(w: W.World, k: nat)
    requires W.Invariant(w) && W.Step(w, W.Run(k)).Some?
    ensures k < |w.tasks|
    ensures var v, id := W.Step(w, W.Run(k)).value, w.tasks[k].conn;
            && (forall t :: t in w.tasks && t.conn != id ==> t in v.tasks)
            && (forall t <- v.tasks :: t in w.tasks && t.conn != id)
            && |v.conns| == |w.conns| && id < |w.conns| && v.conns[id].deleted
            && (forall i :: 0 <= i < |w.conns| && i != id ==> v.conns[i] == w.conns[i])
            && v.conns[id].loaded == w.conns[id].loaded
  {
    W.TasksLeft(w, k);
    var v := W.Step(w, W.Run(k)).value;
    forall t | t in w.tasks && t.conn != w.tasks[k].conn ensures t in v.tasks {
      var i :| 0 <= i < |w.tasks| && w.tasks[i] == t;
      assert w.tasks == w.tasks[..k] + [w.tasks[k]] + w.tasks[k + 1..];
    }
  }

  /** What it does to the loop. */
  lemma RanFirst(l: L.Loop)
    requires L.Invariant(l) && L.Step(l, L.RunTask).Some?
    ensures l.curTask != []
    ensures var m := L.Step(l, L.RunTask).value;
            && Queue(l) == [l.curTask[0]] + Queue(m) && m.executed == l.executed + [l.curTask[0]]
            && m.posts == l.posts && m.pc == l.pc && l.pc.Running?
  {
  }

  /** No task waits twice. */
  lemma OnceInQueue(l: L.Loop, n: nat, rest: seq<nat>)
    requires L.Invariant(l) && Queue(l) == [n] + rest
    ensures n !in rest
  {
    var all := l.executed + l.curTask + l.tasks;
    assert all == l.executed + Queue(l);
    var d := |l.executed|;
    assert all[d] == d == n;
    forall k | 0 <= k < |rest| ensures rest[k] != n {
      assert all[d + 1 + k] == d + 1 + k == rest[k];
    }
  }

  lemma ExecuteKeeps(s: System, j: nat)
    requires Invariant(s) && Step(s, Execute(j)).Some?
    ensures Invariant(Step(s, Execute(j)).value)
  {
    hide W.Invariant, W.Step, L.Invariant, L.Step, HandlersOk, LoopOk, Queued, Queue;
    var t := Step(s, Execute(j)).value;
    var n := s.loops[j].curTask[0];
    var task := s.sent[j][n];
    var k := IndexOf(s.wheel.tasks, task);
    LoopInvariant(s, j);
    RanFirst(s.loops[j]);
    RanTask(s.wheel, k);
    BatchFirst(s, j, n);
    W.StepKeepsInvariant(s.wheel, W.Run(k));
    L.StepKeepsInvariant(s.loops[j], L.RunTask);
    OnceInQueue(s.loops[j], n, Queue(t.loops[j]));
    forall i | 0 <= i < |t.loops| ensures LoopOk(t, i) {
      ExecuteLoop(s, t, j, n, i);
    }
    forall u | u in t.wheel.tasks ensures Queued(t, u) {
      ExecuteQueued(s, t, j, n, u);
    }
    ExecuteHandlers(s, t, j, n);
  }

  lemma LoopInvariant(s: System, j: nat)
    requires Invariant(s) && j < |s.loops|
    ensures L.Invariant(s.loops[j])
  {
    assert LoopOk(s, j);
  }

  lemma BatchFirst(s: System, j: nat, n: nat)
    requires Invariant(s) && j < |s.loops| && s.loops[j].curTask != [] && n == s.loops[j].curTask[0]
    ensures Pending(s, j, n)
  {
    hide W.Invariant, L.Invariant, Queued;
    assert LoopOk(s, j);
    assert n in Queue(s.loops[j]);
  }

  /** After loop j has executed its task n. */
  ghost predicate Executed(s: System, t: System, j: nat, n: nat) {
    && j < |s.loops| && |s.sent| == |s.loops| && Pending(s, j, n)
    && |t.loops| == |s.loops| && t == s.(wheel := t.wheel, loops := s.loops[j := t.loops[j]])
    && Queue(s.loops[j]) == [n] + Queue(t.loops[j]) && n !in Queue(t.loops[j])
    && t.loops[j].executed == s.loops[j].executed + [n] && t.loops[j].posts == s.loops[j].posts
    && t.loops[j].pc == s.loops[j].pc
    && var id := s.sent[j][n].conn;
       && (forall u :: u in s.wheel.tasks && u.conn != id ==> u in t.wheel.tasks)
       && (forall u <- t.wheel.tasks :: u in s.wheel.tasks && u.conn != id)
       && |t.wheel.conns| == |s.wheel.conns| && id < |s.wheel.conns| && t.wheel.conns[id].deleted
       && (forall i :: 0 <= i < |s.wheel.conns| && i != id ==> t.wheel.conns[i] == s.wheel.conns[i])
       && t.wheel.conns[id].loaded == s.wheel.conns[id].loaded
  }

  lemma ExecuteLoop(s: System, t: System, j: nat, n: nat, i: nat)
    requires Invariant(s) && Executed(s, t, j, n) && i < |s.loops| && L.Invariant(t.loops[j])
    ensures LoopOk(t, i)
  {
    hide W.Invariant, L.Invariant, Queue, Queued;
    assert LoopOk(s, i);
    forall m | m in Queue(t.loops[i]) ensures Pending(t, i, m) {
      assert m in Queue(s.loops[i]) && Pending(s, i, m);
      assert i == j ==> m != n;
    }
    forall m | m in t.loops[i].executed ensures Done(t, i, m) {
      if m in s.loops[i].executed {
        assert Done(s, i, m);
      }
    }
  }

  lemma ExecuteQueued(s: System, t: System, j: nat, n: nat, u: W.Task)
    requires Invariant(s) && Executed(s, t, j, n) && u in t.wheel.tasks
    ensures Queued(t, u)
  {
    hide W.Invariant, L.Invariant, LoopOk, Queue;
    assert Queued(s, u);
    var o := s.owner[u.conn];
    var m :| m in Queue(s.loops[o]) && m < |s.sent[o]| && s.sent[o][m] == u;
    assert m in Queue(t.loops[o]);
  }

  lemma ExecuteHandlers(s: System, t: System, j: nat, n: nat)
    requires Invariant(s) && Executed(s, t, j, n) && Shaped(t)
    ensures HandlersOk(t)
  {
    hide W.Invariant, L.Invariant, LoopOk, Queue, Queued;
  }

  lemma StepKeepsInvariant(s: System, l: Label)
    requires Invariant(s) && Step(s, l).Some?
    ensures Invariant(Step(s, l).value)
  {
    hide Invariant, Step;
    match l
    case Accepted(j) => AcceptedKeeps(s, j);
    case Wheel(step) => WheelKeeps(s, step);
    case Post => PostKeeps(s);
    case Loop(j, turn) => LoopKeeps(s, j, turn);
    case Execute(j) => ExecuteKeeps(s, j);
  }

  lemma {:induction false} RunKeepsInvariant(s: System, ls: seq<Label>)
    requires Invariant(s) && Exec(s, ls).Some?
    ensures Invariant(Exec(s, ls).value)
    decreases ls
  {
    hide Invariant, Step;
    if ls != [] {
      StepKeepsInvariant(s, ls[0]);
      RunKeepsInvariant(Step(s, ls[0]).value, ls[1..]);
    }
  }

  lemma InitialInvariant(M: nat, n: nat)
    requires 2 <= M && M + 1 < TWO32
    ensures Invariant(Initial(M, n))
  {
    hide W.Invariant, L.Invariant;
    W.InitialInvariant(M);
    InitialLoop();
    forall j | 0 <= j < n ensures LoopOk(Initial(M, n), j) {
    }
  }

  lemma InitialLoop()
    ensures L.Invariant(L.Initial) && Queue(L.Initial) == [] && L.Initial.executed == []
  {
  }

  lemma InOrder(l: L.Loop)
    requires L.Invariant(l)
    ensures l.executed + Queue(l) == L.Iota(|l.posts|)
  {
    assert l.executed + Queue(l) == l.executed + l.curTask + l.tasks;
  }

  /**
   In every interleaving of the main thread, the workers' handlers and their loops: what a loop has
   executed and what it still queues are the tasks posted to it, in order; no two of them are for one
   connection; the executed ones have deleted theirs; the queued ones are the wheel's posted tasks.
   */
  lemma EveryRun(M: nat, n: nat, ls: seq<Label>, j: nat)
    requires 2 <= M && M + 1 < TWO32 && Exec(Initial(M, n), ls).Some? && j < n
    ensures var s := Exec(Initial(M, n), ls).value;
            && Shaped(s) && |s.loops| == n
            && s.loops[j].executed + Queue(s.loops[j]) == L.Iota(|s.sent[j]|) && Distinct(s.sent[j])
            && (forall k <- s.loops[j].executed :: Done(s, j, k))
            && (forall k <- Queue(s.loops[j]) :: Pending(s, j, k))
            && (forall t <- s.wheel.tasks :: Queued(s, t))
  {
    hide Exec, W.Invariant, Queued, L.Invariant, Distinct, Pending, Done;
    InitialInvariant(M, n);
    RunKeepsInvariant(Initial(M, n), ls);
    RunOfLoop(Initial(M, n), ls, j);
    var s := Exec(Initial(M, n), ls).value;
    assert LoopOk(s, j);
    InOrder(s.loops[j]);
  }

  /** A loop with a batch can always go on: the first task finds its connection alive, its worker in no handler. */
  lemma BatchGoesOn(M: nat, n: nat, ls: seq<Label>, j: nat)
    requires 2 <= M && M + 1 < TWO32 && Exec(Initial(M, n), ls).Some? && j < |Exec(Initial(M, n), ls).value.loops|
    ensures var s := Exec(Initial(M, n), ls).value;
            s.loops[j].pc.Running? && s.loops[j].curTask != [] ==> Step(s, Execute(j)).Some?
  {
    hide Exec, Invariant, Step;
    InitialInvariant(M, n);
    RunKeepsInvariant(Initial(M, n), ls);
    var s := Exec(Initial(M, n), ls).value;
    if s.loops[j].pc.Running? && s.loops[j].curTask != [] {
      FirstOfBatch(s, j);
    }
  }

  /** The loop blocks, nothing is under way that could wake it. */
  predicate Quiet(l: L.Loop) {
    l.pc.Polling? && !l.signalled && forall id <- l.tasks :: id < |l.posts| && !l.posts[id].InFlight?
  }

  /** The delete of connection id is among the tasks on which its loop is stranded. */
  ghost predicate StrandedDelete(s: System, id: nat)
    requires Shaped(s) && id < |s.owner|
  {
    var j := s.owner[id];
    L.Stranded(s.loops[j]) && exists n <- s.loops[j].tasks :: n < |s.sent[j]| && s.sent[j][n].conn == id
  }

  /**
   What becomes of a closed connection: two ticks later, between two scans and with its loop quiet, it is
   deleted, unless it was closed between the two reads of its state, or its delete waits on a loop that is
   stranded on it, its flag check having fallen into the window; and never two of these.
   */
  lemma ReclaimedUnlessLostOrStranded(M: nat, n: nat, ls: seq<Label>, id: nat)
    requires 2 <= M && M + 1 < TWO32 && Exec(Initial(M, n), ls).Some?
    requires Shaped(Exec(Initial(M, n), ls).value) && id < |Exec(Initial(M, n), ls).value.wheel.conns|
    requires var s := Exec(Initial(M, n), ls).value; var c := s.wheel.conns[id];
             s.wheel.phase.Idle? && c.state.CLOSED? && s.wheel.ticks >= c.closedAt + 2 && Quiet(s.loops[s.owner[id]])
    ensures var s := Exec(Initial(M, n), ls).value;
            var lost := R.ClosedBetweenReads(W.Initial(M), WheelRun(Initial(M, n), ls), id);
            && (s.wheel.conns[id].deleted <==> !lost && !StrandedDelete(s, id))
            && !(lost && StrandedDelete(s, id))
            && (StrandedDelete(s, id) ==>
                  forall k <- s.loops[s.owner[id]].tasks ::
                    L.CheckedInWindow(L.Initial, LoopRun(Initial(M, n), ls, s.owner[id]), k))
  {
    hide Exec, W.Exec, R.ClosedBetweenReads, Invariant, StrandedDelete, LoopRun, L.CheckedInWindow;
    var s := Exec(Initial(M, n), ls).value;
    InitialInvariant(M, n);
    RunKeepsInvariant(Initial(M, n), ls);
    RunOfWheel(Initial(M, n), ls);
    var labels := WheelRun(Initial(M, n), ls);
    R.ClosedPostedWithinTwoTicks(M, labels, id);
    R.LostExactlyWhen(M, labels, id);
    PostedIsStranded(s, id);
    NoTaskWhenLost(M, labels, id);
    if StrandedDelete(s, id) {
      StrandedInWindow(M, n, ls, s.owner[id]);
    }
  }

  lemma StrandedInWindow(M: nat, n: nat, ls: seq<Label>, j: nat)
    requires Exec(Initial(M, n), ls).Some? && j < |Exec(Initial(M, n), ls).value.loops|
    ensures var l := Exec(Initial(M, n), ls).value.loops[j];
            L.Stranded(l) ==> forall k <- l.tasks :: L.CheckedInWindow(L.Initial, LoopRun(Initial(M, n), ls, j), k)
  {
    hide Exec, LoopRun, L.Exec, L.CheckedInWindow;
    LoopCount(Initial(M, n), ls);
    RunOfLoop(Initial(M, n), ls, j);
    L.StrandedExactlyWhen(LoopRun(Initial(M, n), ls, j));
  }

  lemma {:induction false} LoopCount(s: System, ls: seq<Label>)
    requires Exec(s, ls).Some?
    ensures |Exec(s, ls).value.loops| == |s.loops|
    decreases ls
  {
    if ls != [] {
      LoopCount(Step(s, ls[0]).value, ls[1..]);
    }
  }

  lemma NoTaskWhenLost(M: nat, ls: seq<W.Label>, id: nat)
    requires 2 <= M && M + 1 < TWO32 && W.Exec(W.Initial(M), ls).Some?
    requires id < |W.Exec(W.Initial(M), ls).value.conns|
    ensures var w := W.Exec(W.Initial(M), ls).value;
            R.ClosedBetweenReads(W.Initial(M), ls, id) || w.conns[id].deleted ==> forall t <- w.tasks :: t.conn != id
  {
    hide W.Exec, R.ClosedBetweenReads;
    W.EveryRun(M, ls);
    R.SlippedExactlyWhen(W.Initial(M), ls, id);
  }

  /** With the loop quiet, a connection has a posted task exactly if its delete is stranded. */
  lemma PostedIsStranded(s: System, id: nat)
    requires Invariant(s) && Shaped(s) && id < |s.owner| && Quiet(s.loops[s.owner[id]])
    ensures StrandedDelete(s, id) <==> exists t <- s.wheel.tasks :: t.conn == id
  {
    hide W.Invariant;
    var j := s.owner[id];
    assert LoopOk(s, j);
    assert Queue(s.loops[j]) == s.loops[j].tasks;
    if t :| t in s.wheel.tasks && t.conn == id {
      assert Queued(s, t);
      var n :| n in Queue(s.loops[j]) && n < |s.sent[j]| && s.sent[j][n] == t;
      assert n in s.loops[j].tasks && s.sent[j][n].conn == id;
    }
    if StrandedDelete(s, id) {
      var n :| n in s.loops[j].tasks && n < |s.sent[j]| && s.sent[j][n].conn == id;
      assert n in Queue(s.loops[j]) && Pending(s, j, n);
    }
  }

  lemma {:induction false} ExecAppend(s: System, a: seq<Label>, b: seq<Label>)
    requires Exec(s, a).Some?
    ensures Exec(s, a + b) == Exec(Exec(s, a).value, b)
    decreases |a|
  {
    hide Step;
    if a == [] {
      assert a + b == b;
    } else {
      assert (a + b)[1..] == a[1..] + b;
      ExecAppend(Step(s, a[0]).value, a[1..], b);
    }
  }

  lemma ExecThree(s: System, a: Label, t: System, b: Label, u: System, c: Label, v: System)
    requires Step(s, a) == Some(t) && Step(t, b) == Some(u) && Step(u, c) == Some(v)
    ensures Exec(s, [a, b, c]) == Some(v)
  {
    hide Step, Exec;
    ExecFirst(s, a, t, [b] + [c]);
    ExecFirst(t, b, u, [c]);
    ExecFirst(u, c, v, []);
    ExecNone(v);
    assert [a, b, c] == [a] + ([b] + [c]) && [c] == [c] + [];
  }

  lemma ExecFirst(s: System, l: Label, t: System, rest: seq<Label>)
    requires Step(s, l) == Some(t)
    ensures Exec(s, [l] + rest) == Exec(t, rest)
  {
    hide Step;
    assert ([l] + rest)[1..] == rest;
  }

  lemma ExecNone(s: System)
    ensures Exec(s, []) == Some(s)
  {
  }

  /** A step of the only loop. */
  lemma OnlyLoopSteps(s: System, turn: L.Label, l: L.Loop)
    requires |s.loops| == 1 && !turn.Push? && !turn.RunTask? && L.Step(s.loops[0], turn) == Some(l)
    requires turn.EventsHandled? ==> NoneLoaded(s, 0)
    ensures Step(s, Loop(0, turn)) == Some(s.(loops := [l]))
  {
    hide L.Step;
    assert s.loops[0 := l] == [l];
  }

  const ACCEPT: seq<Label> := [Accepted(0), Wheel(W.Tick), Wheel(W.Advance)]
  const CLOSE: seq<Label> := [Loop(0, L.TestLooping), Loop(0, L.PollReturns(false)), Wheel(W.Close(0))]
  const SWAP: seq<Label> := [Loop(0, L.EventsHandled), Loop(0, L.SetFlag), Loop(0, L.SwapTasks)]
  const POST: seq<Label> := [Wheel(W.Tick), Wheel(W.FirstLook), Post]
  const MISS: seq<Label> := [Loop(0, L.Check(0)), Loop(0, L.ClearFlag), Loop(0, L.TestLooping)]

  lemma AcceptOnly(M: nat) returns (s: System)
    requires 2 <= M && M + 1 < TWO32
    ensures Exec(Initial(M, 1), ACCEPT) == Some(s)
    ensures s.loops == [L.Initial] && s.owner == [0] && s.sent == [[]]
    ensures s.wheel == W.World([W.NewConn(0, 0)], W.Initial(M).wheel[0 := [0]], 1, 1, [], W.Idle)
  {
    hide Exec, W.Exec;
    var w := R.FirstTurn(M);
    var start := Initial(M, 1);
    var accepted := W.Step(start.wheel, W.Accept).value;
    var ticked := W.Step(accepted, W.Tick).value;
    FirstTurnSteps(M, w);
    var a := start.(wheel := accepted, owner := [0]);
    s := a.(wheel := w);
    assert start.loops == [L.Initial] && start.sent == [[]] && start.owner + [0] == [0];
    ExecThree(start, Accepted(0), a, Wheel(W.Tick), a.(wheel := ticked), Wheel(W.Advance), s);
  }

  lemma FirstTurnSteps(M: nat, w: W.World)
    requires W.Exec(W.Initial(M), [W.Accept, W.Tick, W.Advance]) == Some(w)
    ensures W.Step(W.Initial(M), W.Accept).Some?
    ensures var a := W.Step(W.Initial(M), W.Accept).value;
            W.Step(a, W.Tick).Some? && W.Step(W.Step(a, W.Tick).value, W.Advance) == Some(w)
  {
    hide W.Step;
    assert [W.Accept, W.Tick, W.Advance][1..] == [W.Tick, W.Advance];
    assert [W.Tick, W.Advance][1..] == [W.Advance] && [W.Advance][1..] == [];
  }

  lemma CloseOnly(s: System) returns (t: System)
    requires s.loops == [L.Initial] && s.owner == [0] && s.wheel.Shaped() && s.wheel.conns == [W.NewConn(0, 0)]
    requires s.wheel.phase.Idle? && s.wheel.tasks == []
    ensures Exec(s, CLOSE) == Some(t)
    ensures t == s.(wheel := s.wheel.(conns := t.wheel.conns), loops := [L.Initial.(pc := L.Handling(false))])
    ensures |t.wheel.conns| == 1 && t.wheel.conns[0].state.CLOSED? && !t.wheel.conns[0].deleted
    ensures t.wheel.conns[0].loaded.None?
  {
    hide Exec;
    var a := s.(loops := [L.Initial.(pc := L.Polling)]);
    var b := s.(loops := [L.Initial.(pc := L.Handling(false))]);
    var closed := W.Step(s.wheel, W.Close(0)).value;
    t := b.(wheel := closed);
    OnlyLoopSteps(s, L.TestLooping, a.loops[0]);
    OnlyLoopSteps(a, L.PollReturns(false), b.loops[0]);
    ExecThree(s, Loop(0, L.TestLooping), a, Loop(0, L.PollReturns(false)), b, Wheel(W.Close(0)), t);
  }

  const SWAPPED: L.Loop := L.Initial.(pc := L.Running, isInTaskHanding := true)

  lemma SwapOnly(s: System) returns (t: System)
    requires s.loops == [L.Initial.(pc := L.Handling(false))] && |s.wheel.conns| == 1 && s.wheel.conns[0].loaded.None?
    ensures Exec(s, SWAP) == Some(t) && t == s.(loops := [SWAPPED])
  {
    hide Exec;
    var a := s.(loops := [L.Initial.(pc := L.SettingFlag)]);
    var b := s.(loops := [L.Initial.(pc := L.Swapping, isInTaskHanding := true)]);
    t := s.(loops := [SWAPPED]);
    OnlyLoopSteps(s, L.EventsHandled, a.loops[0]);
    OnlyLoopSteps(a, L.SetFlag, b.loops[0]);
    OnlyLoopSteps(b, L.SwapTasks, t.loops[0]);
    ExecThree(s, Loop(0, L.EventsHandled), a, Loop(0, L.SetFlag), b, Loop(0, L.SwapTasks), t);
  }

  lemma PostOnly(s: System) returns (t: System)
    requires s.loops == [SWAPPED] && s.owner == [0] && s.sent == [[]] && s.wheel.Shaped() && s.wheel.phase.Idle?
    requires |s.wheel.conns| == 1 && s.wheel.conns[0].state.CLOSED? && !s.wheel.conns[0].deleted
    requires s.wheel.wheel[s.wheel.Check()] == [0] && s.wheel.tasks == []
    ensures Exec(s, POST) == Some(t)
    ensures t.loops == [SWAPPED.(tasks := [0], posts := [L.InFlight])]
    ensures t.owner == [0] && t.sent == [[W.DeleteConn(0)]] && |t.wheel.conns| == 1
  {
    hide Exec, W.World.Check, W.World.Settled, Step;
    var scanning := s.wheel.(ticks := s.wheel.ticks + 1, phase := W.Scanning(0));
    var deciding := scanning.(phase := W.Deciding(0, W.PostDelete));
    var a, b := s.(wheel := scanning), s.(wheel := deciding);
    LooksClosed(s, a, b);
    t := PostStep(b);
    ExecThree(s, Wheel(W.Tick), a, Wheel(W.FirstLook), b, Post, t);
  }

  lemma LooksClosed(s: System, a: System, b: System)
    requires s.wheel.Shaped() && s.wheel.phase.Idle? && s.wheel.wheel[s.wheel.Check()] == [0]
    requires |s.wheel.conns| == 1 && s.wheel.conns[0].state.CLOSED? && !s.wheel.conns[0].deleted
    requires a == s.(wheel := s.wheel.(ticks := s.wheel.ticks + 1, phase := W.Scanning(0)))
    requires b == a.(wheel := a.wheel.(phase := W.Deciding(0, W.PostDelete)))
    ensures Step(s, Wheel(W.Tick)) == Some(a) && Step(a, Wheel(W.FirstLook)) == Some(b)
  {
    hide W.World.Check, W.World.Settled;
  }

  lemma PostStep(b: System) returns (t: System)
    requires b.loops == [SWAPPED] && b.owner == [0] && b.sent == [[]] && b.wheel.Shaped() && b.wheel.tasks == []
    requires b.wheel.phase == W.Deciding(0, W.PostDelete) && b.wheel.wheel[b.wheel.Check()] == [0]
    requires |b.wheel.conns| == 1 && !b.wheel.conns[0].deleted
    ensures Step(b, Post) == Some(t)
    ensures t.loops == [SWAPPED.(tasks := [0], posts := [L.InFlight])]
    ensures t.owner == [0] && t.sent == [[W.DeleteConn(0)]] && |t.wheel.conns| == 1
  {
    hide W.World.Check;
    assert b.wheel.Held() == 0;
    assert [] + [W.DeleteConn(0)] == [W.DeleteConn(0)];
    t := System(b.wheel.Settled(), [SWAPPED.(tasks := [0], posts := [L.InFlight])], [0], [[W.DeleteConn(0)]]);
    assert SWAPPED.tasks + [0] == [0] && SWAPPED.posts + [L.InFlight] == [L.InFlight];
    assert b.loops[0 := t.loops[0]] == t.loops && b.sent[0 := t.sent[0]] == t.sent;
  }

  lemma MissOnly(s: System) returns (t: System)
    requires s.loops == [SWAPPED.(tasks := [0], posts := [L.InFlight])]
    ensures Exec(s, MISS) == Some(t)
    ensures t == s.(loops := [L.Initial.(tasks := [0], posts := [L.Missed], pc := L.Polling)])
  {
    hide Exec;
    var missed := SWAPPED.(tasks := [0], posts := [L.Missed]);
    assert [L.InFlight][0 := L.Missed] == [L.Missed];
    var a := s.(loops := [missed]);
    var b := s.(loops := [missed.(isInTaskHanding := false, pc := L.Testing)]);
    t := s.(loops := [missed.(isInTaskHanding := false, pc := L.Polling)]);
    OnlyLoopSteps(s, L.Check(0), a.loops[0]);
    OnlyLoopSteps(a, L.ClearFlag, b.loops[0]);
    OnlyLoopSteps(b, L.TestLooping, t.loops[0]);
    ExecThree(s, Loop(0, L.Check(0)), a, Loop(0, L.ClearFlag), b, Loop(0, L.TestLooping), t);
  }

  /** Such deletes are real: a connection closed in its handler, its delete posted just after the loop's swap. */
  lemma StrandedDeleteRun(M: nat)
    requires 2 <= M && M + 1 < TWO32
    ensures var s := Exec(Initial(M, 1), ACCEPT + (CLOSE + (SWAP + (POST + MISS))));
            && s.Some? && Shaped(s.value) && s.value.owner == [0] && StrandedDelete(s.value, 0)
  {
    hide Exec;
    var a := AcceptOnly(M);
    assert a.wheel.Check() == 0;
    var b := CloseOnly(a);
    var c := SwapOnly(b);
    var d := PostOnly(c);
    var e := MissOnly(d);
    ExecAppend(Initial(M, 1), ACCEPT, CLOSE + (SWAP + (POST + MISS)));
    ExecAppend(a, CLOSE, SWAP + (POST + MISS));
    ExecAppend(b, SWAP, POST + MISS);
    ExecAppend(c, POST, MISS);
    assert e.loops[0].tasks == [0] && 0 in e.loops[0].tasks && e.sent[0][0].conn == 0;
  }
}
