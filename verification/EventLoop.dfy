/**
 The event loop's task hand-off: any number of posting threads, one looping thread.
 Every shared access of EventLoop::start and EventLoop::runInLoop is one step; a run is any
 interleaving of such steps.
 */
module EventLoops {
  import opened Common

  /** Where the looping thread stands. */
  datatype Pc =
    | Testing              // before the test of looping_
    | Polling              // about to block in epoll_wait
    | Handling(wake: bool) // events returned; wake: the wake-up descriptor is one of them
    | SettingFlag          // before isInTaskHanding_ = true
    | Swapping             // before curTask.swap(tasks_)
    | Running              // executing curTask, then clearing the flag
    | Ended

  /** A post pushes its task first and looks at the flag later. */
  datatype Post =
    | InFlight   // pushed, flag not yet read
    | Woke       // flag was clear: the wake-up descriptor was written
    | Covered    // flag was set, but the swap took or was about to take the task
    | Missed     // flag was set, between the swap that did not take the task and the clearing

  /** Tasks are numbered in the order in which they were pushed under the lock. */
  datatype Loop = Loop(
    tasks: seq<nat>, curTask: seq<nat>, executed: seq<nat>, posts: seq<Post>,
    isInTaskHanding: bool, signalled: bool, looping: bool, pc: Pc)

  const Initial := Loop([], [], [], [], false, false, true, Testing)

  datatype Label =
    | Push | Check(id: nat)                 // the two halves of runInLoop
    | TestLooping | PollReturns(wake: bool) | EventsHandled | SetFlag | SwapTasks | RunTask | ClearFlag
    | Stop | WakeToStop                     // the two halves of stop

  function Step(s: Loop, l: Label): Option<Loop> {
    match l
    case Push => Some(s.(tasks := s.tasks + [|s.posts|], posts := s.posts + [InFlight]))
    case Check(id) =>
      if !(id < |s.posts| && s.posts[id].InFlight?) then None
      else if !s.isInTaskHanding then Some(s.(posts := s.posts[id := Woke], signalled := true))
      else Some(s.(posts := s.posts[id := if s.pc.Running? && id in s.tasks then Missed else Covered]))
    case TestLooping =>
      if s.pc.Testing? then Some(s.(pc := if s.looping then Polling else Ended)) else None
    case PollReturns(wake) =>
      if s.pc.Polling? && (wake ==> s.signalled) then Some(s.(pc := Handling(wake))) else None
    case EventsHandled =>
      if !s.pc.Handling? then None
      else Some(s.(pc := SettingFlag, signalled := s.signalled && !s.pc.wake))
    case SetFlag =>
      if s.pc.SettingFlag? then Some(s.(pc := Swapping, isInTaskHanding := true)) else None
    case SwapTasks =>
      if s.pc.Swapping? then Some(s.(pc := Running, curTask := s.tasks, tasks := [])) else None
    case RunTask =>
      if s.pc.Running? && s.curTask != [] then
        Some(s.(executed := s.executed + [s.curTask[0]], curTask := s.curTask[1..]))
      else None
    case ClearFlag =>
      if s.pc.Running? && s.curTask == [] then Some(s.(isInTaskHanding := false, pc := Testing)) else None
    case Stop => Some(s.(looping := false))
    case WakeToStop => if s.looping then None else Some(s.(signalled := true))
  }

  function Exec(s: Loop, ls: seq<Label>): Option<Loop>
    decreases ls
  {
    if ls == [] then Some(s)
    else
      match Step(s, ls[0])
      case None => None
      case Some(t) => Exec(t, ls[1..])
  }

  lemma ExecFirst(s: Loop, l: Label, rest: seq<Label>)
    requires Step(s, l).Some?
    ensures Exec(s, [l] + rest) == Exec(Step(s, l).value, rest)
  {
    assert ([l] + rest)[1..] == rest;
  }

  function Iota(n: nat): seq<nat> { seq(n, i => i) }

  ghost predicate Invariant(s: Loop) {
    // executed exactly once, in the order of posting
    && s.executed + s.curTask + s.tasks == Iota(|s.posts|)
    && (s.curTask != [] ==> s.pc.Running?)
    && (s.isInTaskHanding <==> s.pc.Swapping? || s.pc.Running?)
    // what a queued task's post knows about the flag
    && (forall id <- s.tasks :: id < |s.posts|)
    && (forall id <- s.tasks :: s.posts[id].Covered? ==> s.pc.Swapping?)
    && (forall id <- s.tasks :: s.posts[id].Woke? ==> !s.pc.Running? && (s.pc.Testing? || s.pc.Polling? ==> s.signalled))
  }

  lemma StepKeepsInvariant(s: Loop, l: Label)
    requires Invariant(s) && Step(s, l).Some?
    ensures Invariant(Step(s, l).value)
  {
    var t := Step(s, l).value;
    match l {
      case Push =>
        assert t.executed + t.curTask + t.tasks == (s.executed + s.curTask + s.tasks) + [|s.posts|];
      case RunTask =>
        assert t.executed + t.curTask == s.executed + s.curTask;
      case SwapTasks =>
        assert t.executed + t.curTask + t.tasks == s.executed + s.curTask + s.tasks;
      case _ =>
    }
  }

  /** In every interleaving: executed ++ current batch ++ queue is what was posted, in order. */
  lemma {:induction false} EveryRun(s: Loop, ls: seq<Label>)
    requires Invariant(s) && Exec(s, ls).Some?
    ensures Invariant(Exec(s, ls).value)
    decreases ls
  {
    if ls != [] {
      StepKeepsInvariant(s, ls[0]);
      EveryRun(Step(s, ls[0]).value, ls[1..]);
    }
  }

  /** The loop blocks with no wake-up pending, work queued, and no post left that could still wake it. */
  ghost predicate Stranded(s: Loop) {
    && s.pc.Polling? && !s.signalled && s.tasks != []
    && forall id <- s.tasks :: id < |s.posts| && !s.posts[id].InFlight?
  }

  /** A flag check between the swap and the clearing, for a task that the swap did not take. */
  predicate InWindow(s: Loop, l: Label) {
    l.Check? && s.pc.Running? && l.id in s.tasks
  }

  /** Somewhere in the run, task id's flag check falls into that window. */
  predicate CheckedInWindow(s: Loop, ls: seq<Label>, id: nat)
    decreases ls
  {
    ls != [] && Step(s, ls[0]).Some?
    && ((ls[0] == Check(id) && InWindow(s, ls[0])) || CheckedInWindow(Step(s, ls[0]).value, ls[1..], id))
  }

  predicate WasMissed(s: Loop, id: nat) { id < |s.posts| && s.posts[id].Missed? }

  lemma MissedStep(s: Loop, l: Label, id: nat)
    requires Step(s, l).Some?
    ensures WasMissed(Step(s, l).value, id) <==> WasMissed(s, id) || (l == Check(id) && InWindow(s, l) && s.isInTaskHanding)
  {
  }

  lemma {:induction false} MissedExactlyInWindow(s: Loop, ls: seq<Label>, id: nat)
    requires Invariant(s) && Exec(s, ls).Some?
    ensures WasMissed(Exec(s, ls).value, id) <==> WasMissed(s, id) || CheckedInWindow(s, ls, id)
    decreases ls
  {
    if ls != [] {
      MissedStep(s, ls[0], id);
      StepKeepsInvariant(s, ls[0]);
      MissedExactlyInWindow(Step(s, ls[0]).value, ls[1..], id);
    }
  }

  /** A blocked loop is stranded on its queue exactly when every queued task's check fell in the window. */
  lemma StrandedExactlyWhen(ls: seq<Label>)
    requires Exec(Initial, ls).Some?
    ensures var s := Exec(Initial, ls).value;
            && (Stranded(s) <==> s.pc.Polling? && !s.signalled && s.tasks != []
                                 && forall id <- s.tasks :: CheckedInWindow(Initial, ls, id))
            && ((forall id: nat :: !CheckedInWindow(Initial, ls, id)) ==> !Stranded(s))
  {
    hide Step, CheckedInWindow;
    EveryRun(Initial, ls);
    var s := Exec(Initial, ls).value;
    forall id: nat ensures WasMissed(s, id) <==> CheckedInWindow(Initial, ls, id) {
      MissedExactlyInWindow(Initial, ls, id);
    }
    if Stranded(s) {
      assert s.tasks[0] in s.tasks;
    }
  }

  /** The steps of a turn up to the swap. */
  function ToSwap(wake: bool): seq<Label> { [PollReturns(wake), EventsHandled, SetFlag, SwapTasks] }

  function Swapped(s: Loop, wake: bool): Loop {
    s.(signalled := s.signalled && !wake, isInTaskHanding := true, curTask := s.tasks, tasks := [], pc := Running)
  }

  lemma TurnToSwap(s: Loop, wake: bool, rest: seq<Label>)
    requires s.pc.Polling? && (wake ==> s.signalled)
    ensures Exec(s, ToSwap(wake) + rest) == Exec(Swapped(s, wake), rest)
  {
    var handling := s.(pc := Handling(wake));
    var setting := handling.(pc := SettingFlag, signalled := s.signalled && !wake);
    var swapping := setting.(pc := Swapping, isInTaskHanding := true);
    calc {
      Exec(s, ToSwap(wake) + rest);
      { assert ToSwap(wake) + rest == [PollReturns(wake)] + ([EventsHandled, SetFlag, SwapTasks] + rest);
        ExecFirst(s, PollReturns(wake), [EventsHandled, SetFlag, SwapTasks] + rest); }
      Exec(handling, [EventsHandled, SetFlag, SwapTasks] + rest);
      { assert [EventsHandled, SetFlag, SwapTasks] + rest == [EventsHandled] + ([SetFlag, SwapTasks] + rest);
        ExecFirst(handling, EventsHandled, [SetFlag, SwapTasks] + rest); }
      Exec(setting, [SetFlag, SwapTasks] + rest);
      { assert [SetFlag, SwapTasks] + rest == [SetFlag] + ([SwapTasks] + rest);
        ExecFirst(setting, SetFlag, [SwapTasks] + rest); }
      Exec(swapping, [SwapTasks] + rest);
      { ExecFirst(swapping, SwapTasks, rest); }
      Exec(Swapped(s, wake), rest);
    }
  }

  /** The window is real: this run strands its only task. */
  lemma StrandingRun()
    ensures var s := Exec(Initial, [TestLooping] + (ToSwap(false) + [Push, Check(0), ClearFlag, TestLooping]));
            s.Some? && Stranded(s.value) && s.value.tasks == [0]
  {
    var polling := Initial.(pc := Polling);
    ExecFirst(Initial, TestLooping, ToSwap(false) + [Push, Check(0), ClearFlag, TestLooping]);
    TurnToSwap(polling, false, [Push, Check(0), ClearFlag, TestLooping]);
    MissingTail(Swapped(polling, false));
  }

  lemma MissingTail(s: Loop)
    requires s == Initial.(isInTaskHanding := true, pc := Running)
    ensures var t := Exec(s, [Push, Check(0), ClearFlag, TestLooping]);
            t.Some? && Stranded(t.value) && t.value.tasks == [0]
  {
    ExecFirst(s, Push, [Check(0), ClearFlag, TestLooping]);
    var pushed := s.(tasks := [0], posts := [InFlight]);
    ExecFirst(pushed, Check(0), [ClearFlag, TestLooping]);
    var missed := pushed.(posts := [Missed]);
    ExecFirst(missed, ClearFlag, [TestLooping]);
    ExecFirst(missed.(isInTaskHanding := false, pc := Testing), TestLooping, []);
  }

  lemma {:induction false} BatchRuns(s: Loop, rest: seq<Label>)
    requires s.pc.Running?
    ensures Exec(s, Repeat(RunTask, |s.curTask|) + rest)
         == Exec(s.(executed := s.executed + s.curTask, curTask := []), rest)
    decreases |s.curTask|
  {
    var ls := Repeat(RunTask, |s.curTask|) + rest;
    if s.curTask == [] {
      assert ls == rest;
      assert s.executed + s.curTask == s.executed;
    } else {
      var t := Step(s, RunTask).value;
      assert ls[1..] == Repeat(RunTask, |t.curTask|) + rest;
      BatchRuns(t, rest);
      assert t.executed + t.curTask == s.executed + s.curTask;
    }
  }

  /** One turn of the loop after a wake-up, with the given number of tasks in the queue. */
  function Turn(n: nat): seq<Label> {
    ToSwap(true) + (Repeat(RunTask, n) + [ClearFlag, TestLooping])
  }

  /** A wake-up pays off: undisturbed, the next turn executes everything queued and consumes it. */
  lemma WokenTurn(s: Loop)
    requires Invariant(s) && s.pc.Polling? && s.signalled
    ensures Exec(s, Turn(|s.tasks|)) ==
            Some(s.(executed := s.executed + s.tasks, tasks := [], signalled := false,
                    pc := if s.looping then Polling else Ended))
  {
    TurnToSwap(s, true, Repeat(RunTask, |s.tasks|) + [ClearFlag, TestLooping]);
    var running := Swapped(s, true);
    BatchRuns(running, [ClearFlag, TestLooping]);
    var done := running.(executed := s.executed + s.tasks, curTask := []);
    ExecFirst(done, ClearFlag, [TestLooping]);
    ExecFirst(done.(isInTaskHanding := false, pc := Testing), TestLooping, []);
  }

  /** A stopped and woken loop executes what is queued in one more turn, and ends. */
  lemma StoppedLoopEnds(s: Loop)
    requires Invariant(s) && s.pc.Polling?
    ensures Exec(s, [Stop, WakeToStop] + Turn(|s.tasks|)) ==
            Some(s.(executed := s.executed + s.tasks, tasks := [], signalled := false, looping := false, pc := Ended))
  {
    hide Exec, Turn;
    var stopped := s.(looping := false);
    var woken := stopped.(signalled := true);
    ExecFirst(s, Stop, [WakeToStop] + Turn(|s.tasks|));
    ExecFirst(stopped, WakeToStop, Turn(|s.tasks|));
    WokenTurn(woken);
    assert [Stop, WakeToStop] + Turn(|s.tasks|) == [Stop] + ([WakeToStop] + Turn(|s.tasks|));
  }

  /** Without stop it never ends. */
  lemma {:induction false} EndsOnlyAfterStop(s: Loop, ls: seq<Label>)
    requires s.looping && !s.pc.Ended? && Exec(s, ls).Some? && Stop !in ls
    ensures !Exec(s, ls).value.pc.Ended?
    decreases ls
  {
    if ls != [] {
      assert ls[0] in ls && forall l <- ls[1..] :: l in ls;
      EndsOnlyAfterStop(Step(s, ls[0]).value, ls[1..]);
    }
  }

  /** The loop object; the atomic sections of its two sides are its methods. */
  class EventLoop {
    var tasks: seq<nat>
    var curTask: seq<nat>      // local to start()
    var executed: seq<nat>     // effects of the tasks run so far
    var posts: seq<Post>       // progress of each runInLoop call
    var isInTaskHanding: bool
    var signalled: bool        // the wake-up descriptor is readable
    var looping: bool
    var pc: Pc

    function Abs(): Loop
      reads this
    {
      Loop(tasks, curTask, executed, posts, isInTaskHanding, signalled, looping, pc)
    }

    constructor ()
      ensures Abs() == Initial
    {
      tasks, curTask, executed, posts := [], [], [], [];
      isInTaskHanding, signalled, looping, pc := false, false, true, Testing;
    }

    /** The condition of the while loop. */
    method TestLoop() returns (goOn: bool)
      requires pc.Testing?
      modifies this
      ensures Step(old(Abs()), TestLooping) == Some(Abs()) && goOn == pc.Polling?
    {
      goOn := looping;
      pc := if goOn then Polling else Ended;
    }

    /** runInLoop under the lock. */
    method PushTask() returns (id: nat)
      modifies this
      ensures Step(old(Abs()), Push) == Some(Abs()) && id == |old(posts)|
    {
      id := |posts|;
      tasks := tasks + [id];
      posts := posts + [InFlight];
    }

    /** runInLoop after the lock: wake the loop unless it claims to be handling tasks. */
    method WakeUnlessHandling(id: nat)
      requires id < |posts| && posts[id].InFlight?
      modifies this
      ensures Step(old(Abs()), Check(id)) == Some(Abs())
    {
      if !isInTaskHanding {
        signalled := true;
        posts := posts[id := Woke];
      } else {
        posts := posts[id := if pc.Running? && id in tasks then Missed else Covered];
      }
    }

    /** From the return of poll to the raised flag. */
    method HandleEvents(wake: bool)
      requires pc.Polling? && (wake ==> signalled)
      modifies this
      ensures Exec(old(Abs()), [PollReturns(wake), EventsHandled, SetFlag]) == Some(Abs())
    {
      ghost var start := Abs();
      pc := Handling(wake);
      ExecFirst(start, PollReturns(wake), [EventsHandled, SetFlag]);
      ExecFirst(Abs(), EventsHandled, [SetFlag]);
      if wake {
        signalled := false;
      }
      pc := SettingFlag;
      ExecFirst(Abs(), SetFlag, []);
      isInTaskHanding := true;
      pc := Swapping;
    }

    /** curTask.swap(tasks_) under the lock. */
    method SwapQueue()
      requires pc.Swapping?
      modifies this
      ensures Step(old(Abs()), SwapTasks) == Some(Abs())
    {
      curTask, tasks := tasks, [];
      pc := Running;
    }

    /** The loop over curTask and the lowered flag. */
    method RunBatch()
      requires pc.Running?
      modifies this
      ensures Exec(old(Abs()), Repeat(RunTask, |old(curTask)|) + [ClearFlag]) == Some(Abs())
      ensures executed == old(executed) + old(curTask)
    {
      ghost var start := Abs();
      while curTask != []
        invariant executed + curTask == start.executed + start.curTask
        invariant Abs() == start.(executed := executed, curTask := curTask)
        decreases |curTask|
      {
        executed := executed + [curTask[0]];
        curTask := curTask[1..];
      }
      BatchRuns(start, [ClearFlag]);
      assert executed == start.executed + start.curTask;
      ExecFirst(Abs(), ClearFlag, []);
      isInTaskHanding := false;
      pc := Testing;
    }

    /** The two halves of stop. */
    method LeaveLoop()
      modifies this
      ensures Step(old(Abs()), Stop) == Some(Abs())
    {
      looping := false;
    }

    method WakeUpToStop()
      requires !looping
      modifies this
      ensures Step(old(Abs()), WakeToStop) == Some(Abs())
    {
      signalled := true;
    }
  }
}
