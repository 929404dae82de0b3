# Dagger-cpp: a verified model of the library's logic

Dagger-cpp is an epoll TCP library with an HTTP server and an RTSP example on top. This project models
the logic between its system calls and proves what that logic keeps over every input and every run:

* **Buffer** (`Buffer.dfy`, `BufferRuns.dfy`): the in-place byte buffer, with compaction by a forward byte
  copy, growth and the doubling read loop, refines a plain byte queue whose memory follows the backlog.
* **Connection** (`Event.dfy`, `Connection.dfy`, `ReadPath.dfy`): output, partial writes and the deferred close
  of an accepted connection, the interest bits of its event, and the read path that closes it at end of file.
* **Logger** (`Logger.dfy`): any number of `log` callers and one collector exchanging owned buffers.
* **Idle connections** (`IdleWheel.dfy`, `IdleWheelRuns.dfy`, `IdleManager.dfy`): the timing wheel, its clock
  in 32 bits, and the workers that receive, close and delete connections between any two of its steps.
* **Event loop** (`EventLoop.dfy`, `EventLoopPool.dfy`): task hand-off with its wake-up flag, and the
  round-robin choice of a loop.
* **Reclaiming** (`Reclaim.dfy`): the wheel and the event loops together, so that the deletes which the wheel
  posts are the tasks which the loops run.
* **HTTP** (`HttpTokens.dfy`, `HttpRoundTrip.dfy`, `HttpStream.dfy`, `HttpLocality.dfy`, `HttpLines.dfy`,
  `HttpWords.dfy`, `HttpHandlers.dfy`): the blank-line codec and the tokeniser that writes NULs into the read
  buffer, up to whole streams cut into reads, what the tokeniser does to text that is no request, and a
  line-by-line reference for what it makes of every request, spaces and colons in header values included.
* **Length codecs** (`Codec.dfy`) and **RTSP** (`Rtsp.dfy`, `RtspSessions.dfy`, `RtspHandlers.dfy`): parser,
  printer, handler, and the sessions that a run of requests leaves open.

`Common.dfy` and `Scans.dfy` hold the shared vocabulary. A component that changes in place is a class; each
of its methods is proved equal to a step of a pure state machine (`Step`, `Exec` over a sequence of labels),
and the theorems about runs are lemmas about that machine. A concurrent component's labels are its critical
sections and its single accesses to what another thread may change meanwhile, so a run is any interleaving of
its threads; accesses to what only one thread uses are not split. A byte is a `char`, a bit field is the set of
its bits, and `None` from a `Step` means that the code cannot do this in this state, or that an assertion of the
code would fail. Fields called history only record what happened.

`dafny verify dfyconfig.toml` checks the whole project.

Places where the code does not do what its comments or the protocols suggest, each with its exact condition:

* `IdleWheelRuns.LostExactlyWhen`: a connection that its worker closes between the scan's two reads of its state
  is neither re-added nor posted, and is never deleted; `LosingRun` is such a run.
* `IdleWheelRuns.DestroyedTwiceExactlyWhenRaced`: a connection that its worker closes while the scan is reaping it,
  from the second read of its state until its task has run, is destroyed a second time before it is deleted;
  `RacingRun` is such a run.
* `EventLoops.StrandedExactlyWhen`: a task posted between the loop's swap and the clearing of its flag is not seen
  until some other event wakes the loop, although `runInLoop` is meant to interrupt `poll`; `StrandingRun` is such
  a run, and `Reclaims.StrandedDeleteRun` one in which a closed connection's delete is stranded.
* `Connections.StopsExactlyWhen`: a `send` or a close of a connection that is already CLOSED uses the event that
  `destroy` gave back, since `send` only logs and goes on; a failed `write` fails an assertion of `retrieve`.
* `Connections.DeafExactlyWhen`: a `send` after a postponed close takes the close back but leaves reading disarmed.
* `Loggers.BuffersFitExactlyWhen`: a message longer than 4096 bytes lets its buffer outgrow the reserved size, and
  then `OutgrownBufferKeepsGrowing`: the wrapped subtraction keeps `log` filling the same buffer; `OutgrowingRun`
  is such a run.
* `HttpRoundTrip.RecoveredExactlyWhen` and `HttpStream.ServedExactlyWhen`: the tokeniser recovers a request exactly
  when no header value has a space inside, or a colon directly behind the key's colon; RFC 7230 allows both.
* `HttpWords.ServeAroundOne` and `ServeWords`: behind the first word of a header value the tokeniser is out of step.
  It takes what the second word leaves for the next header (`UserAgentHidesHost`: "Host" gets another name), ends
  the headers early if nothing is left, and runs past the request if nothing more follows (`UserAgentFaults`).
* `HttpLocality.FaultsExactlyWhen`: the tokeniser runs out of the readable bytes exactly when it cannot come to an
  end within them; a lone blank line (`BlankLineFaults`) does it.
* `RtspSessions.ListedButRefused`: three of the methods that the answer to OPTIONS lists are answered with 455.
* `Rtsp.HandledFitsExactlyWhen`: the answer to a request with a long version is printed past the end of an array on
  the stack; `LongVersionOverflows` is such a request.
* `Codecs.FixedLengthWantsOneMore`: the fixed-length codec compares with `>` where its comment says "size bytes".
  The length codec does not retrieve the prefix as its comment says, and takes a field that is no number for zero
  (`Codecs.MalformedLengthIsZero`; `LettersPass` is such a field).

## Model

| member | source | states |
|---|---|---|
| Buffers.Shape.GrowthBound | src/Buffer.h:43-55 | making room never takes the capacity past the larger of its old value and four times the request plus twice the backlog |
| Buffers.FirstOccurrence | src/Buffer.h:125-128 | the result is the least position at which the string occurs, and there is none exactly if it occurs nowhere |
| Buffers.Buffer.constructor | src/Buffer.h:21 | a new buffer of N bytes is the empty queue |
| Buffers.Buffer.Resize | src/Buffer.h:49 | growing keeps every readable byte |
| Buffers.Buffer.MoveReadableToFront | src/Buffer.h:52 | a forward byte copy moves the readable bytes to the front intact although source and target may overlap |
| Buffers.Buffer.MakeRoom | src/Buffer.h:83-96 | reuse, growth and compaction leave the queue of readable bytes as it was, with room for the request behind it |
| Buffers.Buffer.Fill | src/Buffer.h:97-98 | the bytes are appended to the queue; nothing else changes |
| Buffers.Buffer.Append | src/Buffer.h:82-101 | old contents followed by the new bytes, in the layout that the queue machine's step gives |
| Buffers.Buffer.Retrieve | src/Buffer.h:112-119 | exactly the first len readable bytes are gone; the answer is where they start |
| Buffers.Buffer.RetrieveAll | src/Buffer.h:121-123 | nothing is readable any more, both indices are equal, and the answer is where the bytes started |
| Buffers.Buffer.FindStr | src/Buffer.h:125-128 | the search loop over the vector finds the first occurrence within the readable bytes, as an absolute position |
| Buffers.Buffer.ReadOnce | src/Buffer.h:43-65 | one read appends exactly what arrived, and capacity stays within the growth bound |
| Buffers.Buffer.ReadFromSocket | src/Buffer.h:41-70 | the bytes of the successive reads are appended in order up to the first short or failing read; d full reads take maxBytes doubled d times minus maxBytes; the result is 0 exactly when the first read saw end of file, negative exactly when it failed with neither EINTR nor EWOULDBLOCK, else positive; capacity stays within max(old, 6 * readable + 4 * maxBytes); it terminates on any supply |
| Buffers.DoubledIsPower | src/Buffer.h:66-68 | the last of d + 1 reads of one call asks for maxBytes * 2^d, so the recursion is logarithmic in what it reads |
| BufferRuns.GrowthIsGeometric | src/Buffer.h:86-90 | an append reallocates exactly when neither the free nor the discarded bytes are enough, and then takes twice the capacity or exactly the backlog, at least doubling and staying within four times the backlog |
| BufferRuns.StepKeepsSound | src/Buffer.h:82-123 | each operation keeps the index order and both memory bounds |
| BufferRuns.StepHolds | src/Buffer.h:82-123 | an append adds its bytes behind those held, a retrieve takes exactly its length from their front, a retrieveAll takes them all |
| BufferRuns.BufferIsAQueue | src/Buffer.h:82-123 | over every run the bytes held are what the operations put in without what they took out, both read off the operations; read <= write <= capacity; capacity <= max(N, 4 * peak); N * 2^resizes <= capacity |
| BufferRuns.OnlyOverdrawnRetrieveFails | src/Buffer.h:112-119 | a run is stopped exactly by a retrieve of more than was put in and not taken out |
| Events.Event.constructor | src/Event.h:14-26 | a new event has nothing armed and is already registered |
| Events.Event.SetReadable | src/Event.h:46-54 | exactly EPOLLIN and EPOLLPRI are added or removed |
| Events.Event.SetWritable | src/Event.h:56-64 | exactly EPOLLOUT is added or removed |
| Events.Event.Handle | src/Event.h:92-110 | the one callback that runs, exactly: the first of error, read, write and hang-up that is reported and bound; on a connection waiting output is served unless input was reported too |
| Connections.EveryRun | src/Sources/TcpConnection.cpp:21-50 | over every run of sends, close requests and partial writes up to a step that StopsExactlyWhen rules out (in particular, no send on a CLOSED connection): wire ++ pending is everything sent; output interest is armed exactly while output waits, with its callback; closed exactly when all is on the wire and the latest request was to close; a standing close means data remains and reading is off |
| Connections.StepSettles | src/Sources/TcpConnection.cpp:21-50 | each handler keeps that state and adds to wire ++ pending exactly what was sent |
| Connections.WriteMovesExactly | src/Sources/TcpConnection.cpp:21-35 | one write puts exactly the first n waiting bytes on the wire; only an emptied buffer disarms output, and closes exactly under a postponed close |
| Connections.ResponseThenClose | src/HttpServer.h:172-173 | after send(response) and activeClose the connection closes exactly when the wire holds everything sent before and the whole response |
| Connections.CloseOnLastWrite | src/TcpServer.h:195-208 | under a postponed close the remaining bytes fall by what each write takes, and the connection closes on exactly the write that empties the buffer |
| Connections.DeafExactlyWhen | src/Sources/TcpConnection.cpp:37-46 | an open connection has neither interest armed exactly when a close was postponed, a later send took it back and all is written |
| Connections.DeafConnection | src/Sources/TcpConnection.cpp:37-46 | a concrete run that ends so |
| Connections.StopsExactlyWhen | src/TcpConnection.h:69-74 | after any run: a send or close uses the event that destroy gave back exactly when all is written and the latest request was to close, that is, on a CLOSED connection; an assertion fails exactly on an empty send with nothing waiting and on a failed write |
| Connections.SendAfterClose | src/TcpConnection.h:69-74 | a concrete run: end of file closes the connection, then the user sends |
| Connections.TcpConnection.constructor | src/Sources/TcpConnection.cpp:9-19 | construction and the arming in acceptCallback give an established connection that only reads |
| Connections.TcpConnection.ArmedEvent | src/TcpServer.h:174-187 | the event of a new connection is registered and armed for reading only, with its read callback |
| Connections.TcpConnection.Send | src/TcpConnection.h:69-74 | send(str, len) is the machine's Send step on any connection, and says which misuse stops it: on one that is not ESTABLISHED it goes on to use the freed event, and with nothing to send it fails its assertion |
| Connections.TcpConnection.SendPending | src/Sources/TcpConnection.cpp:37-46 | send(isLast) replaces the close flag, arms output and binds the write callback |
| Connections.TcpConnection.SendNonblock | src/Sources/TcpConnection.cpp:21-35 | a write of n bytes is the machine's WriteReady step: n bytes move to the wire, and an emptied buffer disarms output and completes a postponed close; a write that returns -1 fails the assertion of retrieve |
| Connections.TcpConnection.ActiveClose | src/Sources/TcpConnection.cpp:48-50 | activeClose is the machine's close request: on a CLOSED connection it uses the freed event |
| Connections.TcpConnection.CloseConnection | src/TcpServer.h:195-208 | with bytes pending the close is postponed and reading stops; otherwise an open connection is destroyed, and a CLOSED one uses the freed event |
| Connections.TcpConnection.Destroy | src/TcpConnection.h:102-107 | the connection is CLOSED and its event has left the epoller |
| ReadPaths.ReadMessage | src/TcpServer.h:143-156 | the read path asks for a close exactly at end of file and after a failure other than EINTR and EWOULDBLOCK of the first read, and otherwise leaves the connection alone; what arrived is behind the unread bytes |
| Loggers.RefillCount | src/Sources/Logger.cpp:117-120 | refilling never passes EMPTYS_MAX_SIZE and leaves a spare buffer out only when the pool is full |
| Loggers.InsertShape | src/Sources/Logger.cpp:74-87 | log either opens a new last buffer that holds just the message, or lengthens the last buffer by the whole message |
| Loggers.StepKeepsInvariant | src/Sources/Logger.cpp:64-135 | every critical section and every write keeps: messages whole and in order, one owner per buffer, emptys_ empty and at most 20 |
| Loggers.AcceptedInLockOrder | src/Sources/Logger.cpp:64-87 | what the buffers received is the messages of the callers that held the mutex, in this order, as read off the run |
| Loggers.PassedIsLogged | src/Sources/Logger.cpp:65-72 | each message that passed the level test, at the level of that moment, is logged or still with its caller, as often as it passed |
| Loggers.NothingLostNothingSplit | src/Sources/Logger.cpp:64-135 | in every interleaving, level changes between a caller's level test and its insertion included: output ++ fullBuffers ++ buffers_ ++ currentBuffer_ is what was logged in lock order; what passed the level test is logged or still with its caller; the output ends between two messages; no message is split over two buffers; after the final flush nothing logged is missing |
| Loggers.LeavesExactlyWhen | src/Sources/Logger.cpp:94-95 | over every run the collector has left its loop exactly when some test of the flag came behind a stop with no other test between |
| Loggers.RoundEnds | src/Sources/Logger.cpp:94-126 | from any place in its loop the collector, undisturbed, comes back to the test of the flag, and if it had not collected yet everything accepted is written |
| Loggers.RoundWritesAll | src/Sources/Logger.cpp:94-126 | a round from a set flag on writes everything accepted before it and tests the flag again |
| Loggers.StopFlushes | src/Sources/Logger.cpp:94-135 | a stop, wherever the collector stands in its loop, lets it end its round, leave the loop and flush: the output is then everything accepted |
| Loggers.StopNeverLoses | src/Sources/Logger.cpp:94-150 | so after any run whose flag was not tested behind a stop: stop, and the collector going on, writes exactly what was logged, read off the run |
| Loggers.LeavesBufferExactlyWhen | src/Sources/Logger.cpp:74 | within its reserved size a buffer is retired exactly when the message does not fit behind its text |
| Loggers.TakesFromPool | src/Sources/Logger.cpp:77-85 | the next current buffer is the last spare one, and a new one exactly when none is spare |
| Loggers.RoundTopsUp | src/Sources/Logger.cpp:96-121 | a round puts four new empty buffers behind the spare ones, as far as 20 allow, and collects the full buffers and the current one, in order |
| Loggers.OneOwnerPerBuffer | src/Sources/Logger.cpp:74-121 | in every interleaving no buffer has two owners, and emptys_ holds at most 20 buffers, all empty |
| Loggers.BuffersFitExactlyWhen | src/Sources/Logger.cpp:74-87 | no buffer ever outgrows its reserved 4096 bytes exactly when no logged message is longer than that |
| Loggers.OutgrownBufferKeepsGrowing | src/Sources/Logger.cpp:74 | once a buffer is past 4096 bytes the unsigned subtraction wraps and log goes on filling the same buffer |
| Loggers.OutgrowingRun | src/Sources/Logger.cpp:74-87 | a run from the start in which a message longer than 4096 bytes and any next message end up in one buffer past its reserved size |
| Loggers.WriteBackRuns | src/Sources/Logger.cpp:124-125 | writing the collected buffers one by one puts their texts, in order, behind the output |
| Loggers.LoggerObject.constructor | src/Logger.h:104-113 | the constructor establishes the machine's initial state |
| Loggers.LoggerObject.TestLevel | src/Sources/Logger.cpp:65-70 | the level test before the mutex is the machine's Filter step |
| Loggers.LoggerObject.InsertMessage | src/Sources/Logger.cpp:72-90 | the critical section of a caller that passed is the machine's Insert step, whatever the level is now |
| Loggers.LoggerObject.SwitchBuffer | src/Sources/Logger.cpp:77-85 | the current buffer is retired and an empty one taken, allocated only if there is none |
| Loggers.LoggerObject.Log | src/Sources/Logger.cpp:64-91 | log, undisturbed, is the level test and then, for a message that passes, its insertion with a notification |
| Loggers.LoggerObject.BeginRound | src/Sources/Logger.cpp:94-101 | with the flag set the loop test goes on to the allocation, with the flag cleared it leaves the loop for the flush; the flag is set again |
| Loggers.LoggerObject.AllocateEmptys | src/Sources/Logger.cpp:96-101 | the allocation loop is the machine's Prepare step |
| Loggers.LoggerObject.WaitForMessages | src/Sources/Logger.cpp:105-110 | with no full buffer the collector releases the mutex and waits |
| Loggers.LoggerObject.RetireCurrent | src/Sources/Logger.cpp:112-113 | the current buffer, if any, joins the full ones |
| Loggers.LoggerObject.Collect | src/Sources/Logger.cpp:111-120 | the collector's critical section takes everything unwritten and refills the pool |
| Loggers.LoggerObject.RefillEmptys | src/Sources/Logger.cpp:117-120 | the refill loop moves exactly the first RefillCount spare buffers into emptys_ |
| Loggers.LoggerObject.WriteAll | src/Sources/Logger.cpp:133-134 | the loop writes the texts of the buffers in order |
| Loggers.LoggerObject.WriteBack | src/Sources/Logger.cpp:124-126 | writing back is one WriteOne step per buffer and the end of the round |
| Loggers.LoggerObject.FlushRest | src/Sources/Logger.cpp:130-135 | the shutdown flush writes buffers_ and currentBuffer_ |
| IdleWheels.StampDistance | src/TimeWheeling.h:32-33 | the 32-bit difference of two stamps less than 2^32 ticks apart is their true distance |
| IdleWheels.OverdueInTrueTime | src/TimeWheeling.h:32-33 | a stamp no older than M + 1 ticks is overdue in 32 bits exactly at M + 1 |
| IdleWheelRuns.JudgedInTrueTime | src/TimeWheeling.h:32-42 | in any state of the invariant the stamp of the connection in the scan's hand is at most M + 1 ticks old, and reading it leads to a posted destruction exactly at M + 1, else to the re-adding |
| IdleWheels.StepKeepsInvariant | src/TimeWheeling.h:21-67 | every step of the main thread, each read of a connection's state or stamp by itself, and of the workers keeps: each accepted connection in exactly one place once, or lost; only two buckets occupied; every waiting connection recent; every posted task's connection alive |
| IdleWheels.EveryRun | src/TimeWheeling.h:21-67 | that invariant holds after every interleaving, for every wheel size M >= 2 |
| IdleWheelRuns.ReapedExactlyOnTime | src/TimeWheeling.h:32-38 | a connection is found overdue at tick heard + M + 1 exactly, its destruction is posted before that scan ends, and between ticks no open connection is left that was heard more than M ticks ago |
| IdleWheelRuns.ReapedAtTick601 | src/TimeWheeling.h:16-38 | with the 600 buckets of the server: found overdue exactly at tick 601 of its silence, and between ticks no open connection silent for more than 600 |
| IdleWheelRuns.HeardIsLastHeard | src/TcpServer.h:157-159 | the recorded time is the tick count at the connection's acceptance, or when its worker read the time that it stored last, read off the run itself |
| IdleWheelRuns.ScanJudgesExactly | src/TimeWheeling.h:26-46 | when the scan reads a connection's stamp, its worker running on, it posts the destruction exactly if the stamp was made M + 1 ticks ago, else moves the connection to the current bucket; it never comes later |
| IdleWheelRuns.ClosedPostedWithinTwoTicks | src/TimeWheeling.h:28-29 | two ticks after its close a connection is deleted or has its delete posted, exactly if it was not closed between the scan's two reads of its state in one round |
| IdleWheelRuns.LostExactlyWhen | src/TimeWheeling.h:28-47 | between ticks a connection is in no bucket, no task and not deleted exactly when its worker closed it between the two reads of its state in one round; such a connection is CLOSED and never deleted |
| IdleWheelRuns.LosingRun | src/TimeWheeling.h:28-47 | a concrete run, for every wheel size, that loses its only connection |
| IdleWheelRuns.DeletedOnceAndGone | src/TimeWheeling.h:56-63 | a deleted connection has left its epoller, no task and between ticks no bucket holds it; the scan, every store of a stamp and every posted task that its worker is free to run find a live object |
| IdleWheelRuns.DestroyedTwiceExactlyWhenRaced | src/TimeWheeling.h:30-63 | a deleted connection was destroyed once, or twice exactly when its worker closed it after the second read of its state in the round that found it overdue and before its destoryThenDeleteConn had run |
| IdleWheelRuns.RacingRun | src/TimeWheeling.h:30-63 | a concrete run, for every wheel size: a connection silent for M + 1 ticks, closed once its destruction is posted, is destroyed twice and deleted |
| IdleManagers.TurnResult | src/TimeWheeling.h:21-49 | one undisturbed second: what waited in the current bucket and then the kept connections are exactly what the next second examines, the rest of the examined ones is posted |
| IdleManagers.IdleManager.constructor | src/TimeWheeling.h:18-19 | an empty wheel of M buckets |
| IdleManagers.IdleManager.AcceptOne | src/TcpServer.h:170-181 | a new connection is stamped with the current time and enters the current bucket |
| IdleManagers.IdleManager.AddNewConnection | src/TimeWheeling.h:51-53 | the connection is appended to the current bucket; no other bucket changes |
| IdleManagers.IdleManager.TimerFired | src/TcpServer.h:127-132 | one timer callback, undisturbed, is Tick, one round per connection of the scanned bucket, and Advance |
| IdleManagers.IdleManager.CountSecond | src/TcpServer.h:130 | the 32-bit clock follows the true tick count |
| IdleManagers.IdleManager.EraseIdleConnections | src/TimeWheeling.h:21-49 | the scan loop, undisturbed, makes one round for every connection of the scanned bucket, re-adding never touches that bucket, and the wheel advances |
| IdleManagers.IdleManager.ExamineOne | src/TimeWheeling.h:26-46 | one round of the loop, undisturbed, is its two to four steps in order and leaves the scanned bucket as it is |
| IdleManagers.IdleManager.LookFirst | src/TimeWheeling.h:28 | the first read of the state: CLOSED decides for deletion, anything else goes on to the second read |
| IdleManagers.IdleManager.LookAgain | src/TimeWheeling.h:30 | the second read of the state, which may differ from the first: ESTABLISHED goes on to the stamp, anything else drops the connection |
| IdleManagers.IdleManager.ReadLastReceiveTime | src/TimeWheeling.h:32-33 | the one read of the stamp, and the idle test in 32 bits |
| IdleManagers.IdleManager.SettleRound | src/TimeWheeling.h:29-45 | the end of a round: a delete or a destruction is posted, the connection is re-added, or neither |
| IdleManagers.RoundIsExamined | src/TimeWheeling.h:28-45 | the steps of a round that nobody disturbs come to what one look at the connection would decide |
| IdleManagers.IdleManager.ClearAndAdvance | src/TimeWheeling.h:47-48 | the scanned bucket is emptied and the next bucket becomes current |
| IdleManagers.IdleManager.LoadTime | src/TcpServer.h:147-159 | a worker whose read saw neither end of file nor an error (EAGAIN and EINTR count as neither) reads the time |
| IdleManagers.IdleManager.StoreStamp | src/TcpServer.h:159 | and stores it, however many ticks later, in a connection that is still alive |
| IdleManagers.IdleManager.Close | src/TcpServer.h:205-208 | a worker's close destroys the connection and leaves it in the wheel |
| IdleManagers.IdleManager.RunTask | src/TimeWheeling.h:56-63 | a posted task, when its worker is not in a read callback of the connection, finds it alive, destroys it if it must, and deletes it |
| EventLoops.StepKeepsInvariant | src/EventLoop.h:26-78 | every access of the loop and of the posters keeps: executed ++ current batch ++ queue is what was posted, in order |
| EventLoops.EveryRun | src/EventLoop.h:26-78 | so in every interleaving each task runs at most once, in post order, and none is lost |
| EventLoops.MissedExactlyInWindow | src/EventLoop.h:74-77 | the post of a task goes unnoticed exactly when, somewhere in the run, its flag check falls between a swap that did not take it and the clearing of the flag |
| EventLoops.StrandedExactlyWhen | src/EventLoop.h:67-78 | the loop blocks on a queue with no wake-up coming exactly when, in the run, the flag check of every queued task fell into that window; without such a check it never does |
| EventLoops.StrandingRun | src/EventLoop.h:33-43 | a concrete run that strands its only task |
| EventLoops.WokenTurn | src/EventLoop.h:27-44 | after a wake-up an undisturbed turn executes everything queued, consumes the wake-up and tests looping_ again |
| EventLoops.StoppedLoopEnds | src/EventLoop.h:26-55 | a loop that is stopped and woken executes what is queued in one more turn and ends |
| EventLoops.EndsOnlyAfterStop | src/EventLoop.h:26-55 | no run without stop ends the loop |
| EventLoops.EventLoop.constructor | src/EventLoop.h:80-86 | a new loop is the machine's initial state |
| EventLoops.EventLoop.TestLoop | src/EventLoop.h:27 | the test of looping_ is a step of its own |
| EventLoops.EventLoop.LeaveLoop | src/EventLoop.h:52 | stop first clears looping_ |
| EventLoops.EventLoop.WakeUpToStop | src/EventLoop.h:53 | and then wakes the loop |
| EventLoops.EventLoop.PushTask | src/EventLoop.h:69-72 | the locked half of runInLoop is the Push step |
| EventLoops.EventLoop.WakeUnlessHandling | src/EventLoop.h:74-77 | the flag check of runInLoop is the Check step |
| EventLoops.EventLoop.HandleEvents | src/EventLoop.h:28-33 | from the return of poll to the raised flag: three steps |
| EventLoops.EventLoop.SwapQueue | src/EventLoop.h:35-39 | the locked swap takes the whole queue as the current batch |
| EventLoops.EventLoop.RunBatch | src/EventLoop.h:41-43 | the batch loop executes the batch in order, one step a task, and lowers the flag |
| Reclaims.RunOfWheel | src/TimeWheeling.h:21-67 | the wheel's part of any run of the whole is a run of the wheel, so all that holds of those holds here |
| Reclaims.RunOfLoop | src/EventLoop.h:26-78 | each loop's part of any run of the whole is a run of that loop |
| Reclaims.StepKeepsInvariant | src/TimeWheeling.h:29-37 | every step of the main thread, of a worker's event handler and of a loop keeps the wheel's posted tasks and the loops' queues the same |
| Reclaims.EveryRun | src/TimeWheeling.h:56-63 | in every interleaving: a loop executes the deletes posted to it in order, each at most once and never two for one connection; executed ones have deleted their connection; queued ones are exactly the wheel's posted tasks, each on its connection's own loop |
| Reclaims.BatchGoesOn | src/EventLoop.h:41-42 | a loop with a batch can always execute its next task: the connection is alive and its worker is in no handler |
| Reclaims.ReclaimedUnlessLostOrStranded | src/TimeWheeling.h:28-63 | two ticks after its close, between scans and with its loop quiet, a connection is deleted exactly if it was not closed between the two reads of its state and its delete is not stranded on its loop; a stranded delete's flag check fell into the window |
| Reclaims.StrandedDeleteRun | src/TimeWheeling.h:28-29 | a concrete run, for every wheel size, that strands the delete of a closed connection |
| EventLoopPools.ShareFormula | src/EventLoopPool.h:26-27 | while the counter does not wrap, the number of times a loop is chosen in a window is a difference of two quotients |
| EventLoopPools.FairUntilWrap | src/EventLoopPool.h:22-28 | in any window of k calls before the wrap each of the n loops is chosen floor(k/n) or ceil(k/n) times, from any counter value |
| EventLoopPools.FairAcrossWrapExactlyWhen | src/EventLoopPool.h:22-28 | across the wrap every window is fair exactly when n divides 2^64 |
| EventLoopPools.UnfairAtWrap | src/EventLoopPool.h:26 | otherwise the window that ends just behind the wrap is unfair |
| EventLoopPools.EventLoopPool.GetNextPool | src/EventLoopPool.h:22-28 | each call makes the choice its place in the sequence of calls demands and advances the 64-bit counter; without helpers the main loop is chosen |
| HttpRoundTrip.ReadSpacedField | src/HttpServer.h:74-80 | readField turns a field and any run of spaces behind it into a C string and changes nothing else |
| HttpRoundTrip.ReadFieldAtLineEnd | src/HttpServer.h:82-91 | readLastField turns the last field, with any spaces before CRLF, into a C string and steps over CRLF |
| HttpRoundTrip.ReadSolidHeader | src/HttpServer.h:104-113 | a header is split into exactly its key and its value |
| HttpRoundTrip.ReadCutHeader | src/HttpServer.h:82-91 | of a value with a space inside only a proper front can be recovered |
| HttpRoundTrip.ReadColonHeader | src/HttpServer.h:74-80 | a value that begins with a colon right behind the key's colon comes back too short |
| HttpRoundTrip.ReadSolidFields | src/HttpServer.h:104-113 | the header loop recovers every header in order and stops at the blank line |
| HttpRoundTrip.TokeniseSolid | src/HttpServer.h:93-119 | a printed request with any extra spaces is recovered exactly, the pointer ends just behind it, and no byte outside it changes |
| HttpRoundTrip.RecoveredExactlyWhen | src/HttpServer.h:74-116 | a request comes back as it was sent exactly when no value has a space inside or begins with a colon right behind the key's |
| HttpStream.FirstBlankLine | src/Codec.h:66-74 | whatever follows a request, the first blank line in the text is that request's own |
| HttpStream.NoBlankLineYet | src/Codec.h:66-71 | no proper prefix of a request passes the codec |
| HttpStream.CodecDelivers | src/Codec.h:72-73 | the NUL that the codec writes is the last byte of the request |
| HttpStream.ServeComplete | src/HttpServer.h:93-119 | wherever a complete request stands in the buffer it is handled with its own parts, exactly its bytes are consumed, and every byte outside it stays |
| HttpStream.ServedExactlyWhen | src/HttpServer.h:93-119 | a complete request is handled with its own parts exactly when it meets that condition |
| HttpStream.SpacedValueIsCut | src/HttpServer.h:82-91 | the request with the header "User-Agent: a b" is never handed on as it was sent |
| HttpStream.ServeIncomplete | src/Codec.h:66-71 | an incomplete request is left waiting |
| HttpStream.ReadKeepsStep | src/TcpServer.h:147-162 | one read event handles the next request exactly if it is complete, and otherwise nothing |
| HttpStream.ChunkingIndependent | src/Codec.h:66-74 | however a stream of requests is cut into reads and wherever the bytes are placed, the handled requests are the stream's first ones and the buffer holds exactly what was received behind them |
| HttpStream.SecondOfTwoWaits | src/TcpServer.h:161-162 | of two requests in one read the second waits for the next read event |
| HttpLocality.TokeniseLocal | src/HttpServer.h:93-116 | in the whole vector the tokeniser finds what it finds in the readable bytes alone, or it ends behind them |
| HttpLocality.ServeIsLocal | src/HttpServer.h:93-119 | whether a read event waits, runs out of the readable bytes or handles a request, and which, depends on these bytes alone; no byte outside them is changed |
| HttpLocality.FaultsExactlyWhen | src/HttpServer.h:74-119 | the tokeniser leaves the readable bytes exactly when they hold a blank line and it cannot come to an end within them |
| HttpLocality.BlankLineFaults | src/HttpServer.h:74-80 | a blank line alone makes it leave them |
| HttpLines.ReadLine | src/HttpServer.h:104-113 | one round of the loop always reads a line that holds a colon: key and first word come back, and the pointer ends behind the line, or one byte into its next word |
| HttpLines.ReadLinesAt | src/HttpServer.h:104-113 | on any lines the header loop records exactly what the reference ReadLines says, and runs past the blank line exactly when that has no answer |
| HttpLines.TokeniseFramed | src/HttpServer.h:93-119 | every framed request, whatever its values: the tokeniser ends exactly when the reference does, with the request line as sent, the headers of the reference, and the pointer just behind the request |
| HttpLines.ServeFramed | src/HttpServer.h:93-119 | wherever a framed request stands in the buffer: with an answer of the reference it is handled so, exactly its bytes are consumed and no other byte changes; without one it is not handled within its bytes, and if the readable bytes behind it hold no NUL it is not handled at all: the tokeniser leaves them |
| HttpWords.ReadHeaderByParts | src/HttpServer.h:104-113 | any header line, by its parts: key, colons, spaces, first word, spaces, rest. It is always read, key and first word come back, and the pointer ends behind the line, or one byte behind the second word's first byte |
| HttpWords.OneLine | src/HttpServer.h:104-113 | what one line adds to the headers, and the text that it leaves in front of the next line |
| HttpWords.ServeAroundOne | src/HttpServer.h:82-113 | with at most one odd value, that of field w, and text without NUL behind the request: handled exactly unless its line leaves text without a colon and is the last; verb, url, version and headers 0..w-1 come back, then what the line gives; the text it leaves becomes the front of the next key, and an empty rest ends the headers |
| HttpWords.WordsLeave | src/HttpServer.h:82-91 | of a value of two or more words the first comes back, and the line goes on one byte into the second |
| HttpWords.ServeWords | src/HttpServer.h:82-113 | such a value without a colon behind its first word, in field w, spelled out: cut off, lost or grown into the next key |
| HttpWords.UserAgentFaults | src/HttpServer.h:82-113 | "User-Agent: Mozilla/5.0 (X11)" as the only header makes it leave the readable bytes, whatever text follows |
| HttpWords.UserAgentHidesHost | src/HttpServer.h:82-113 | with "Host: x" behind it the request is handled, and the second header is called "X11)", CR, LF, "Host" |
| HttpWords.OneByteWordCuts | src/HttpServer.h:82-91 | "A: b c" is handled with the value "b" |
| HttpHandlers.ScanUntil | src/HttpServer.h:75-76 | the pointer loop stops at the first stop byte |
| HttpHandlers.SkipPast | src/HttpServer.h:78-79 | the pointer loop stops at the first other byte |
| HttpHandlers.Terminate | src/HttpServer.h:77 | exactly one byte becomes NUL |
| HttpHandlers.TakeField | src/HttpServer.h:74-80 | readField on the vector in place is the specification's ReadField |
| HttpHandlers.TakeLastField | src/HttpServer.h:82-91 | readLastField on the vector in place is ReadLastField, of which ReadHeaderByParts says where it ends |
| HttpHandlers.TakeHeader | src/HttpServer.h:105-112 | the loop body is ReadHeader |
| HttpHandlers.TakeHeaders | src/HttpServer.h:104-113 | the header loop is the recursive ReadHeaders |
| HttpHandlers.TakeRequestLine | src/HttpServer.h:98-103 | the request line's three fields are where ReadRequestLine says |
| HttpHandlers.TakeRequest | src/HttpServer.h:93-116 | the whole tokeniser in place is Tokenise |
| HttpHandlers.ReadCString | src/HttpServer.h:98-112 | a recorded pointer denotes the bytes up to the next NUL |
| HttpHandlers.ReadHeaderStrings | src/HttpServer.h:104-113 | the recorded pointer pairs denote the header list |
| HttpHandlers.ReadRequest | src/HttpServer.h:94-113 | the recorded pointers denote the request |
| HttpHandlers.CheckRequest | src/Codec.h:66-74 | the codec says yes exactly if a blank line is readable, and then writes one NUL at its last byte |
| HttpHandlers.ServeRead | src/HttpServer.h:93-119 | check, tokeniser and retrieve on the buffer object do what Serve says, so ServeComplete and ChunkingIndependent are about them |
| Codecs.PrefixValue | src/Codec.h:46-49 | the decimal value of a zero-padded printed length is the length |
| Codecs.PrefixParses | src/Codec.h:49 | parsing a printed length gives it back |
| Codecs.StoullExactlyWhen | src/Codec.h:49 | stoull returns a value exactly on text that is white space, at most one sign and digits worth less than 2^64, up to the first other byte |
| Codecs.LengthDataFraming | src/Codec.h:40-58 | on any front of prefix ++ payload ++ later bytes the check is true exactly when prefix and payload are complete |
| Codecs.MalformedLengthIsZero | src/Codec.h:52-57 | a length field that does not begin with a number of 64 bits counts as zero: the check passes as soon as the field is there |
| Codecs.NumericLengthExactly | src/Codec.h:46-57 | any field that does begin with such a number counts for its value, a negative one for 2^64 less that |
| Codecs.LettersPass | src/Codec.h:46-57 | a field of letters passes with nothing, or with anything, behind it |
| Codecs.FixedLengthWantsOneMore | src/Codec.h:60-63 | the check agrees with the documented "size readable bytes" exactly when the number of readable bytes is not size |
| Rtsp.FirstValueKept | examples/RTSP/rtspServer.cpp:58 | inserting the parsed pairs keeps, for each key, the value of its first pair, and no other key appears |
| Rtsp.BlanksExactly | examples/RTSP/rtspServer.cpp:10-18 | on any text: the field ends at the first space or the end, the pointer behind the spaces |
| Rtsp.ColonExactly | examples/RTSP/rtspServer.cpp:20-30 | on any text: the key ends at the first colon and the pointer behind all colons and spaces; at a CR it is empty and the pointer stays there |
| Rtsp.CRLFExactly | examples/RTSP/rtspServer.cpp:32-44 | on any text: the field ends at the first CR, the pointer behind it and an LF |
| Rtsp.UnendedLine | examples/RTSP/rtspServer.cpp:53-59 | a last line without a colon becomes a key with an empty value |
| Rtsp.ListedIsMap | examples/RTSP/rtspServer.cpp:79-80 | whatever the iteration order, inserting the listed headers again gives the same map |
| Rtsp.ParsePair | examples/RTSP/rtspServer.cpp:20-44 | a printed header line is taken apart into its key and value |
| Rtsp.ParsePairs | examples/RTSP/rtspServer.cpp:53-59 | the header loop recovers every printed header in order and stops at the blank line |
| Rtsp.ParseStart | examples/RTSP/rtspServer.cpp:49-51 | the three start-line fields come back |
| Rtsp.ParseOfStrify | examples/RTSP/rtspServer.cpp:46-85 | a response with parts that can be told apart is printed exactly when its start line fits the 512-byte array, and then parsing gives its three start-line fields and its header map for every iteration order, and stops at the blank line, behind which the body stands |
| Rtsp.RecoveredExactlyWhen | examples/RTSP/rtspServer.cpp:46-85 | a response comes back from printer and parser exactly when its start line fits the 512-byte array, its fields hold no separator of theirs, its status code and keys are not empty, and no value begins with a colon or a space |
| Rtsp.ParsedFramed | examples/RTSP/rtspServer.cpp:46-62 | whatever the text, every parsed key and value can be printed and parsed again |
| Rtsp.HandledFramed | examples/RTSP/rtspServer.cpp:109-149 | the answer to any parsed request has headers that survive printing, the request's CSeq among them |
| Rtsp.CSeqSurvives | examples/RTSP/rtspServer.cpp:46-149 | for any text: the answer is printed exactly when the request's version is at most 502 bytes (474 for an unknown method), and then printing and parsing it again keeps all response headers and the CSeq |
| Rtsp.HandledFitsExactlyWhen | examples/RTSP/rtspServer.cpp:75-77 | sprintf of a handled request's answer stays inside its array exactly when the request's version leaves room for the status |
| Rtsp.LongVersionOverflows | examples/RTSP/rtspServer.cpp:75-77 | a concrete request with a version of 600 bytes, which is parsed and handled, and whose answer overruns the array |
| Rtsp.TeardownUndoesSetup | examples/RTSP/rtspServer.cpp:121-143 | a TEARDOWN with the session that a SETUP returned restores the session table |
| RtspSessions.NoAnswerExactlyWhen | examples/RTSP/rtspServer.cpp:115-143 | an assertion of the handler fails exactly without CSeq, for a SETUP without Transport or with a session id in use, and for a TEARDOWN that names no open session |
| RtspSessions.AnswerStatus | examples/RTSP/rtspServer.cpp:112-146 | 200 OK exactly for OPTIONS, SETUP and TEARDOWN, 455 exactly for all others |
| RtspSessions.AnswerHeaders | examples/RTSP/rtspServer.cpp:115-133 | the whole header map of each kind of answer, with every method that Public lists |
| RtspSessions.ListedButRefused | examples/RTSP/rtspServer.cpp:119-146 | of the five methods that Public lists, DESCRIBE, PLAY and PAUSE are answered with 455 |
| RtspSessions.AnswerTable | examples/RTSP/rtspServer.cpp:121-143 | SETUP adds one session with its URI and version, TEARDOWN removes the one it names, nothing else changes the table |
| RtspSessions.OpenSessionsExactly | examples/RTSP/rtspServer.cpp:109-149 | over every run of requests the open sessions are exactly those that a SETUP opened and no TEARDOWN named since, each with the URI and version of its SETUP and in state NONE |
| RtspHandlers.ScanText | examples/RTSP/rtspServer.cpp:12-13 | the pointer loop stops at the first stop byte or at the NUL |
| RtspHandlers.SkipText | examples/RTSP/rtspServer.cpp:15-16 | the pointer loop stops at the first other byte or at the NUL |
| RtspHandlers.ParseFieldAndBlanks | examples/RTSP/rtspServer.cpp:10-18 | the loops compute FieldAndBlanks |
| RtspHandlers.ParseFieldAndColon | examples/RTSP/rtspServer.cpp:20-30 | the loops compute FieldAndColon, an empty field without moving at the line's end |
| RtspHandlers.ParseFieldAndCRLF | examples/RTSP/rtspServer.cpp:32-44 | the loops compute FieldAndCRLF |
| RtspHandlers.ParseRequestText | examples/RTSP/rtspServer.cpp:46-62 | on any text the parser terminates, never passes the NUL and returns what ParseRequest says |
| RtspHandlers.StrifyResponse | examples/RTSP/rtspServer.cpp:74-85 | the printer succeeds exactly when the start line fits the array, and then walking the header map in any order prints every header exactly once |
| RtspHandlers.PrintResponse | examples/RTSP/rtspServer.cpp:76-84 | the text is the start line, one line per header in the order of the walk, the blank line and the body |
| RtspHandlers.SessionTable.constructor | examples/RTSP/rtspServer.cpp:88 | no session at first |
| RtspHandlers.SessionTable.HandleRequest | examples/RTSP/rtspServer.cpp:109-149 | handling answers and changes the session table as Handle says, of which the RtspSessions rows say what it is |

## Left out

- Sockets, epoll, timerfd and eventfd: their results are arbitrary inputs of the model (bytes read, bytes taken, events ready). Writing the wake-up descriptor is assumed to wake the loop, whatever the uninitialised value written to it.
- Buffer sizes: indices are unbounded; a vector of nearly 2^64 bytes, where `vec_.size() * 2` would wrap, is not modelled.
- `Buffer::writeToSocket` (src/Buffer.h:73-80), which no modelled path calls.
- Connections.EveryRun: a run ends at a step that fails an assertion or uses a freed event; what the program does after that is not modelled.
- Connections.TcpConnection.CloseConnection: user callbacks and the check that the closing thread is the owner are not modelled; neither is the lifetime of an Event object while its own callback runs, nor a report that the same poll fetched for an event which another connection's handler has given back meanwhile (src/EventLoop.h:28-31).
- Events.Event.Handle: which callback runs is modelled, the callback's own effect is the connection's next step.
- Loggers.LoggerObject.Log: the header (time and level) is a parameter, and writing is assumed complete; file opening, fsync, `sync`, the wait in `stop` and a second `start` (two collectors) are not modelled. The model ends before the second lock of the same mutex at src/Sources/Logger.cpp:136.
- Logger memory order: `running`, `level_` and the queue are read and written as if under sequential consistency.
- IdleWheels.EveryRun: wheels of one bucket are excluded (the code has 600), as are wheels with 2^32 - 1 or more buckets. The idle manager is modelled as compiled in (it is commented out at src/TcpServer.h:8). Reads and writes of `state_`, `lastReceiveTime` and `timeInProcess`, which are not atomic, each take effect at once and in one order. Posted deletes may run in any order, which includes the order of each loop's queue. Connections in BLANK or WILL_CLOSED never occur on the server's path.
- Reclaims.EveryRun: the loops' only tasks are the wheel's, as in the library; a flag check may come later than right after its push, which includes the code's order.
- IdleManagers.IdleManager.Close: the drained close only; the postponed close is part of the Connections module.
- EventLoops.EventLoop.HandleEvents: the event callbacks themselves are not modelled; `looping_`, which is not atomic, is read and written as if it were.
- EventLoopPools.EventLoopPool.GetNextPool: thread start-up and the wait for `cnt` are not modelled; at most 2^64 helper loops.
- HttpStream.ChunkingIndependent: for handlers that leave the connection open and send nothing that changes the read buffer; service look-up, the built-in pages, `HttpResponse` and request bodies (which the codec ignores) are not modelled.
- HttpLines.ServeFramed: when the tokeniser leaves a request and a NUL stands among the readable bytes behind it, only that it does not end within the request is stated.
- HttpRoundTrip.RecoveredExactlyWhen: white space around a value is spaces; a tab would become part of the value.
- HttpTokens.Tokenise: a pointer that leaves the byte vector is the outcome None; what the memory behind the vector holds is not modelled.
- Rtsp.RecoveredExactlyWhen: only for text without NUL, since the parser takes a C string.
- RtspHandlers.SessionTable.HandleRequest: the date and the random session id are parameters; a failed assertion is None and ends the process.
- RTSP connection handler (examples/RTSP/rtspServer.cpp:151-165): it retrieves a negated length; only parser, printer and request handler are modelled. Message bodies of requests are not parsed by the code either.
- TcpClient and FreeServerClient: they repeat the server's path, and the client's connect callback disarms output, so EveryRun of Connections is about accepted connections only.
- ObjectPool, Timer, SpinLock, InAddr, Options, asio, SSL and ping-pong examples: easy or mostly foreign calls.
