# Verified models of the Aria package shims

The Aria packages are small C libraries behind a foreign-function interface. This
project models the ones that are algorithms in their own right and proves what
they are for:

- **Channels, actors and the thread pool** (`Ring`, `Channel`, `ChannelSystem`,
  `Rendezvous`, `Pump`, `Actor`, `TaskQueue`, `Pool`, `PoolAnswers`). The ring code is a class over an array,
  proved against the sequence it stands for. The protocols are transition systems:
  one step for each critical section or unlocked access, a condition wait as a step
  that can be repeated, and histories of what was accepted, received, handled and
  executed. A run is any list of actions, so each theorem speaks about every
  interleaving of any number of threads.
- **Fan-in and fan-out workers** (`FanIn`, `FanOut`, `FinalZero`), composed from the channel and
  the receive loop in `Pump`.
- **Decimals** (`Decimal`, `BigDecimal`, `BigDecimalCut`, `BigDecimalSum`,
  `BigDecimalOps`, `BigDecimalProduct`). `At(s, k)` is the value of a decimal string
  times 10^k; every operation is exact under it as far as the buffers reach, and
  `CutAt` is what is left beyond.
- **Line diff** (`Diff`, `DiffText`): table, backtrack and minimality, and how texts
  are cut into lines and scripts written out.
- **Hash map** (`HashMap`): heap-linked chains, relinked in place.
- **Rate limiter** (`RateLimit`, `RateKeys`, `RateMeter`): token buckets over whole
  runs, the number of keys they hold for, and the plain meters they refine.
- **Priority queue** (`PriorityQueue`): the array heap.
- **CSV, MessagePack, Base64** (`Csv`, `CsvScan`, `CsvRead`, `MsgPack`, `Base64`): printers and
  parsers.
- **Line editor** (`Editor`): an array of lines against one flat text.

Code that updates state in place is a class or a method over an array with a
contract that names a specification function; the properties are then proved about
that function. `Arith` holds the few facts about products and quotients that are
shared, `Octets` the byte. `dafny verify dfyconfig.toml` checks the whole project.

Some obvious claims about this code are false. They are stated with the exact
condition under which they hold, and with a concrete run or input where that helps:

- a received 0 that is the last value of a closed channel is dropped by the receive
  loops (`Pump.FinalZeroLostIff`, `ActorSystem.LossPossibleIff`,
  `FanInLoss.LossPossibleIff`, `FanOutLoss.LossPossibleIff`);
- a rendezvous `send` may answer -1 although its value was delivered; as long as one
  thread sends, the value was not delivered by then (`RendezvousReturns.FailureHonestIff`,
  `RendezvousReturns.DeliveredYetFailed`), but a later receive still hands it out
  (`RendezvousReturns.FailedStaysDeliverable`);
- an actor stopped before it starts runs all the same
  (`ActorSystem.StopSticksIffStarted`);
- `wait_idle` can return while a task accepted before it was called has not run
  (`PoolSystem.WaitIdleIff`, `PoolSystem.IdleTooEarly`);
- a CSV text whose last field is empty and not followed by a line break loses its
  last row and leaves its cells behind in the grid, against rule 2 in section 2 of
  RFC 4180 (`CsvSpec.FinalBreakOptionalIff`, `CsvScan.LeftOverIff`, and `CsvScan.OpenRowLost`
  for the smallest text);
- a string refused by MessagePack packing may leave its header in the buffer
  (`MsgPackBuffers.RefusalIsCleanIff`, `MsgPackBuffers.HeaderLeftBehind`);
- the editor's search is documented to wrap around, but does not come back to the
  start of the row it started in (`EditorSpec.FindMissesIff`, `EditorSpec.FindMissesStart`);
  saving and loading adds a line each time (`EditorSpec.SaveThenLoadGrows`); a typed line
  break breaks the form of the lines (`EditorSpec.InsertCharKeepsFormIff`,
  `EditorSpec.TypedBreakHidesRow`);
- a decimal string without a digit before its point is not brought to normal form, and
  may lose its value (`BigDecimal.Normalize`, `BigDecimal.PointFirstStays`,
  `BigDecimal.PointZeroVanishes`); decimal results are exact if and only if every digit
  that matters has room in the buffer (`BigDecimalOps.Add`,
  `BigDecimalProduct.MultiplyDecimal`);
- a diff does not see what lies beyond 1024 lines or 511 bytes of a line, nor a missing
  last line break (`DiffText.ChangesSeenIff`);
- the limiter's advice to retry is one second too long when tokens come one a second
  (`RateLimitSpec.RetryIsTightIff`), and a key that is evicted gets a full bucket back,
  so the limit holds if and only if at most 1024 keys are in use
  (`RateLimitKeys.LimitHoldsIff`, `RateLimitKeys.CrowdBreaks`).

The main results, one or two for each part; the other rows of the table below are what
they build on, or the methods that the properties are about:

- channels: `ChannelSystem.FifoConservation`, `ChannelSystem.RendezvousReceipt`,
  `ChannelSpec.TakesItsCapacity`, `RendezvousReturns.FailureHonestIff`;
- receive loops: `ActorSystem.HandlerSeesPrefix`, `ActorSystem.LossPossibleIff`,
  `ActorSystem.StopEndsHandling`,
  `FanInSystem.OutputIsMerge`, `FanOutSystem.RoundRobinRebuilds`;
- pool: `PoolSystem.DrainedExactlyOnce`, `PoolAnswers.SubmitAnswersHonest`,
  `PoolSystem.WaitIdleIff`;
- diff: `DiffEngine.Diff.Compute`, `DiffText.UnifiedTellsSides`,
  `DiffText.ChangesSeenIff`;
- decimals: `Decimal.CanonicalUnique`, `BigDecimalOps.Add`,
  `BigDecimalProduct.MultiplyDecimal`;
- hash map: `HashMaps.HashMap.Set`, `HashMaps.Replay`;
- limiter: `RateLimitMeter.GrantedByMeter`, `RateLimitKeys.LimitHoldsIff`;
- queue: `HeapSpec.EntriesConserved`, `PriorityQueues.Replay`;
- CSV: `CsvSpec.TableReadsBack`, `CsvRead.ParseIsReading`, `CsvScan.LeftOverIff`;
- MessagePack: `MsgPackSpec.StreamRoundTrip`, `MsgPackSpec.UnpackThenPackIff`;
- Base64: `Base64Spec.RoundTrip`;
- editor: `EditorSpec.SessionInText`, `EditorSpec.FindMissesIff`.

## Model

| member | source | states |
|---|---|---|
| Ring.Push | packages/aria-libc/shim/aria_libc_thread.c:413-415 | storing at `(head + count) % capacity` appends to the sequence the ring stands for, and the next tail is again at that place |
| Ring.Pop | packages/aria-libc/shim/aria_libc_thread.c:474-476 | moving `head` on by one drops exactly the first element of that sequence and leaves the tail where it was |
| ChannelSpec.CreateBuffered | packages/aria-libc/shim/aria_libc_thread.c:360-365 | a requested capacity outside 1..1024 becomes 1024; the channel starts open and empty |
| ChannelSpec.SendsInNumbers | packages/aria-libc/shim/aria_libc_thread.c:389-453 | an open channel stores a value exactly while fewer are in flight than its capacity, or none in the slot; with that many `send` waits and `try_send` refuses; only a oneshot channel is closed by it |
| ChannelSpec.TakesItsCapacity | packages/aria-libc/shim/aria_libc_thread.c:426-453 | with no receiver, of any values offered a buffered channel takes exactly the first as many as it has capacity |
| ChannelSpec.ReceivesInNumbers | packages/aria-libc/shim/aria_libc_thread.c:455-503 | a receive takes the oldest value whenever there is one, closed or not; it waits exactly on an open, empty channel |
| ChannelRing.LibcChannel.SendAttempt | packages/aria-libc/shim/aria_libc_thread.c:389-424 | one locked pass of `send` on the array refines the pass on the sequence: refused exactly when closed, waiting exactly with `count == capacity` or the slot taken, stored otherwise |
| ChannelRing.LibcChannel.TrySend | packages/aria-libc/shim/aria_libc_thread.c:426-453 | `try_send` stores exactly when the channel is open and `count < capacity`, or the slot is free, and answers -1 otherwise without change |
| ChannelRing.LibcChannel.RecvAttempt | packages/aria-libc/shim/aria_libc_thread.c:455-480 | one locked pass of `recv`: the first value, a wait on an open empty channel, or 0 from a closed empty one |
| ChannelRing.LibcChannel.TryRecv | packages/aria-libc/shim/aria_libc_thread.c:482-503 | the first value, or 0 without waiting |
| ChannelRing.LibcChannel.Count | packages/aria-libc/shim/aria_libc_thread.c:505-513 | number of values in flight, with the rendezvous slot counted as one |
| ChannelRing.LibcChannel.Close | packages/aria-libc/shim/aria_libc_thread.c:515-525 | closes, and keeps what is in flight |
| ChannelSystem.RunInv | packages/aria-libc/shim/aria_libc_thread.c:389-525 | the invariant holds in every reachable state, for any number of threads and any interleaving |
| ChannelSystem.FifoConservation | packages/aria-libc/shim/aria_libc_thread.c:389-525 | in every reachable state the accepted sends are, in order, the values received followed by those in flight |
| ChannelSystem.NothingAcceptedAfterClose | packages/aria-libc/shim/aria_libc_thread.c:394-399 | once closed a channel stays closed and the list of accepted sends never grows |
| ChannelSystem.OneshotAcceptsOnce | packages/aria-libc/shim/aria_libc_thread.c:417-421 | a oneshot channel accepts at most one value in its life |
| ChannelSystem.RendezvousReceipt | packages/aria-libc/shim/aria_libc_thread.c:396-407 | in unbuffered mode every blocking send that returned 0 had its own value taken by a receiver, with any number of concurrent senders and `try_send` callers on the one slot |
| ChannelSystem.ReturnsAreHonest | packages/aria-libc/shim/aria_libc_thread.c:389-503 | every logged return of every operation, in any run, means what its code claims: a send that returned 0 was accepted; a receive got the message at its own place; a refused `send` saw the channel closed, a refused `try_send` saw it closed or full; the 0 that is no message came from an empty channel, and from `recv` only when that was closed too |
| ChannelSystem.BlockingCallsAnswerIff | packages/aria-libc/shim/aria_libc_thread.c:389-480 | `recv` comes back without a message if and only if the channel is closed and empty and waits if and only if it is open and empty; `send` is refused if and only if it is closed and waits if and only if it is open with as many values in flight as it holds |
| ChannelSystem.TryCallsAnswerIff | packages/aria-libc/shim/aria_libc_thread.c:426-503 | `try_send` refuses if and only if the channel is closed or as many values are in flight as it holds; `try_recv` answers the 0 that is no message if and only if it is empty |
| ChannelSystem.RendezvousAnswersIff | packages/aria-libc/shim/aria_libc_thread.c:403-407 | with its value stored, a rendezvous send waits exactly while the slot is full and the channel open, answers 0 at once if it then reads it as open, and -1 exactly if it reads it as closed and the slot as full |
| ChannelSystem.CallsBegin | packages/aria-libc/shim/aria_libc_thread.c:389-525 | an idle thread can begin any call in any state, and closing takes effect at once |
| RendezvousReturns.FailureHonestIff | packages/aria-libc/shim/aria_libc_thread.c:396-407 | a rendezvous send that answers -1 after storing its value says truly that no receiver had taken it by then, in all runs whose sends are made by the given threads, if and only if at most one thread sends |
| RendezvousReturns.DeliveredYetFailed | packages/aria-libc/shim/aria_libc_thread.c:405-406 | for any two threads a run in which the value of one was received and it still got -1, because the slot is read again after unlocking |
| RendezvousReturns.FailedSendUndeliveredIff | packages/aria-libc/shim/aria_libc_thread.c:403-406 | seen from the whole history: at such a -1 the value is undelivered if and only if no other value was accepted after it |
| RendezvousReturns.FailedStaysDeliverable | packages/aria-libc/shim/aria_libc_thread.c:403-503 | undelivered is not withdrawn: the value stays in the closed channel, and the next receive hands it out although its send failed |
| Pump.StepInv | packages/aria-libc/shim/aria_libc_thread.c:642-668 | every step of the receive loop shared by actors and workers keeps: what was passed on, then what is held, then what is in the channel is what was accepted |
| Pump.DeliveredIsPrefix | packages/aria-libc/shim/aria_libc_thread.c:650-667 | what the loop passed on is always a prefix of what its channel accepted: nothing made up, reordered or lost in the middle |
| Pump.FinalZeroLostIff | packages/aria-libc/shim/aria_libc_thread.c:663-665 | a loop that ends without being stopped leaves something not passed on if and only if it ends at the second test with a received value in hand, and that value is then a 0 that nothing follows |
| Pump.CompleteUnlessFinalZero | packages/aria-libc/shim/aria_libc_thread.c:650-665 | a loop that ends without a stop passed on everything unless the last accepted value is 0 |
| Pump.ClosedLoopProgresses | packages/aria-libc/shim/aria_libc_thread.c:642-668 | after close every step lowers a measure, so the loop ends |
| Pump.LoopWaitsIff | packages/aria-libc/shim/aria_libc_thread.c:642-668 | open or closed, the loop waits if and only if it receives from an open, empty channel; every other step lowers the measure |
| Pump.TestsEndIff | packages/aria-libc/shim/aria_libc_thread.c:650-665 | the first test ends the loop exactly on a closed, empty channel, the second exactly if the value in hand is 0 as well |
| Pump.FeedStoresIff | packages/aria-libc/shim/aria_libc_thread.c:389-424 | a send gets in if and only if the channel is open and has room |
| Pump.StoppedStep | packages/aria-libc/shim/aria_libc_thread.c:642-661 | once the flag reads as stopped nothing new becomes due, each step that is not a wait brings the end nearer, and a test of the flag ends the loop |
| Pump.TurnBoundKept | packages/aria-libc/shim/aria_libc_thread.c:642-668 | after close the number of turns still possible never exceeds pending + 1 |
| ActorSystem.RunInv | packages/aria-libc/shim/aria_libc_thread.c:632-673 | the actor's invariant holds in every reachable state of senders, closers, stoppers and the loop |
| ActorSystem.HandlerSeesPrefix | packages/aria-libc/shim/aria_libc_thread.c:654-667 | in every run the handler has seen a prefix of the accepted messages; the 0 of a closed empty mailbox never reaches it |
| ActorSystem.HandledAllButFinalZero | packages/aria-libc/shim/aria_libc_thread.c:650-665 | if the loop ended without seeing STOPPED, everything accepted was handled except possibly one final 0 |
| ActorSystem.LossPossibleIff | packages/aria-libc/shim/aria_libc_thread.c:642-673 | for every list of messages sent: some run that was not stopped ends with one of them unhandled if and only if the last of them is 0 |
| ActorSystem.TurnsAfterClose | packages/aria-libc/shim/aria_libc_thread.c:642-668 | after close the loop makes at most pending + 1 further turns, whatever else runs |
| ActorSystem.ClosedActorEnds | packages/aria-libc/shim/aria_libc_thread.c:642-673 | after close every own step of the actor lowers its distance to the end and no other step raises it |
| ActorSystem.StopSticksIffStarted | packages/aria-libc/shim/aria_libc_thread.c:638-640 | STOPPED is final in every continuation if and only if the actor's thread has already started |
| ActorSystem.StopEndsHandling | packages/aria-libc/shim/aria_libc_thread.c:642-667 | after a stop of a started actor the handler is called at most once more in every continuation, and not at all unless the loop had passed its second test |
| ActorSystem.StopAllowsOneMore | packages/aria-libc/shim/aria_libc_thread.c:753-760 | so in every run: a stop after start-up leaves room for at most one more call |
| ActorSystem.StoppedActorEnds | packages/aria-libc/shim/aria_libc_thread.c:642-673 | a stopped actor ends within nine steps of its own, unless it waits on an open mailbox, which a stop closes |
| ActorSystem.CallsTakeEffect | packages/aria-libc/shim/aria_libc_thread.c:753-760 | in every reachable state a stop sets the word, a close closes the mailbox, and a send gets in exactly while it is open with fewer than 256 messages |
| ActorSystem.StopCanBeOverwritten | packages/aria-libc/shim/aria_libc_thread.c:638-640 | a stop before start-up is overwritten by RUNNING |
| ActorSystem.EarlyStopLosesNothing | packages/aria-libc/shim/aria_libc_thread.c:638-661 | a stop that came before start-up and was overwritten makes the loop behave as if it had not been stopped |
| FanInSystem.RunInv | packages/aria-channel/shim/aria_channel_shim.c:130-153 | the protocol invariant holds in every reachable state for any number of workers |
| FanInSystem.OutputIsMerge | packages/aria-channel/shim/aria_channel_shim.c:137-144 | the output is a merge: restricted to one input it is a prefix of what that input accepted, in order, with no made-up value |
| FanInSystem.ClosedOnceAndLast | packages/aria-channel/shim/aria_channel_shim.c:146-152 | the output is closed at most once, only after every worker has left its loop, and no worker ever sends on a closed output |
| FanInSystem.EverythingForwarded | packages/aria-channel/shim/aria_channel_shim.c:137-144 | a worker that has left its loop has forwarded its whole input except possibly a final 0, and by the time the output is closed every worker has |
| FanInSystem.WorkWaitsIff | packages/aria-channel/shim/aria_channel_shim.c:137-152 | a worker waits if and only if its input is open and empty or the output is full; every other step brings it nearer to its end |
| FanInSystem.OthersDoNotDelay | packages/aria-channel/shim/aria_channel_shim.c:137-152 | nothing another thread does puts its end off, but a value sent to its input |
| FanInSystem.OthersCan | packages/aria-channel/shim/aria_channel_shim.c:137-144 | inputs take values while open with room and are closed at any time; the output's oldest value is received whenever there is one |
| FanInLoss.LossPossibleIff | packages/aria-channel/shim/aria_channel_shim.c:137-144 | for every list of values an open, empty input accepts: some run leaves one of them unforwarded by the worker that is done if and only if the last of them is 0 |
| FanOutSystem.DealtAt | packages/aria-channel/shim/aria_channel_shim.c:47-48 | the k-th value forwarded is the (k / n)-th of output k mod n |
| FanOutSystem.DealtLength | packages/aria-channel/shim/aria_channel_shim.c:47-48 | how many of m forwarded values each output received |
| FanOutSystem.RunInv | packages/aria-channel/shim/aria_channel_shim.c:36-55 | the protocol invariant, with `rr` equal to the number of forwards mod n, holds in every reachable state |
| FanOutSystem.OutputsPartitionInput | packages/aria-channel/shim/aria_channel_shim.c:40-49 | in every run output i received exactly the input values at positions k with k mod n = i, in order, and those are a prefix of the input |
| FanOutSystem.RoundRobinRebuilds | packages/aria-channel/shim/aria_channel_shim.c:40-49 | reading the outputs round-robin rebuilds a prefix of what the input accepted |
| FanOutSystem.OutputsBalanced | packages/aria-channel/shim/aria_channel_shim.c:47-48 | output lengths differ by at most one |
| FanOutSystem.EverythingDealt | packages/aria-channel/shim/aria_channel_shim.c:41-54 | a worker that ended without a stop forwarded the whole input except possibly a final 0 |
| FanOutSystem.StopEndsDealing | packages/aria-channel/shim/aria_channel_shim.c:40-49 | once `running` is false at most one more value is dealt in every continuation, and none if the loop is at its top |
| FanOutSystem.StopAllowsOneMore | packages/aria-channel/shim/aria_channel_shim.c:40-49 | so in every run a stop at any moment lets at most one more value through |
| FanOutSystem.WorkWaitsIff | packages/aria-channel/shim/aria_channel_shim.c:40-55 | the loop waits if and only if its input is open and empty or the output whose turn it is is full; every other step brings it nearer to its end |
| FanOutSystem.OthersDoNotDelay | packages/aria-channel/shim/aria_channel_shim.c:40-55 | nothing another thread does puts its end off, but a value sent to the input |
| FanOutSystem.OthersCan | packages/aria-channel/shim/aria_channel_shim.c:40-49 | what the other threads can do, in every state |
| FanOutSystem.CreatedOutputs | packages/aria-channel/shim/aria_channel_shim.c:60-90 | every output is created open and empty, with the capacity asked for if that is between 1 and 1024 |
| FanOutLoss.LossPossibleIff | packages/aria-channel/shim/aria_channel_shim.c:41-54 | for every list of values an open, empty input accepts: some run that was not stopped leaves one of them undealt if and only if the last of them is 0 |
| TaskQueueRing.TaskQueue.PushPass | packages/aria-libc/shim/aria_libc_thread.c:826-838 | one locked pass of `tq_push`: refuse on shutdown, wait with 4096 tasks, append exactly with fewer |
| TaskQueueRing.TaskQueue.PopPass | packages/aria-libc/shim/aria_libc_thread.c:840-851 | one locked pass of `tq_pop`: the first pending task even after shutdown, refuse only when empty and shut down, wait otherwise |
| PoolSystem.RunInv | packages/aria-libc/shim/aria_libc_thread.c:826-935 | the invariant holds in every reachable state |
| PoolAnswers.SubmitAnswersHonest | packages/aria-libc/shim/aria_libc_thread.c:912-918 | in every run the submissions answered 0 are, one for one and in order, the accepted tasks, and a -1 means that the pool has been shut down |
| PoolAnswers.NeverRefusedWhileUp | packages/aria-libc/shim/aria_libc_thread.c:912-918 | a pool that nobody shuts down never answers -1 |
| PoolAnswers.SubmitReturnsIff | packages/aria-libc/shim/aria_libc_thread.c:826-838 | a submission returns in exactly two ways: its task stored at the end and 0, or the shutdown flag read as set, nothing changed and -1 |
| PoolAnswers.SubmitWaitsIff | packages/aria-libc/shim/aria_libc_thread.c:826-829 | it is turned away at once exactly on a pool that is not alive, and waits exactly for the lock or with 4096 tasks queued |
| PoolAnswers.PushIsOnePass | packages/aria-libc/shim/aria_libc_thread.c:826-838 | with the flag left alone, the steps from lock to unlock of a submission are one pass of the queue's push |
| PoolAnswers.PopIsOnePass | packages/aria-libc/shim/aria_libc_thread.c:840-851 | the same for a worker's pop |
| PoolAnswers.WorkerRuns | packages/aria-libc/shim/aria_libc_thread.c:864-873 | outside the lock a worker counts, runs and counts down, waiting for nothing but the lock |
| PoolAnswers.ShutdownStepsIff | packages/aria-libc/shim/aria_libc_thread.c:920-935 | a shutdown call goes on exactly if the pool is alive, clears `alive`, sets the flag and only then waits |
| PoolAnswers.WaitIdleStepsIff | packages/aria-libc/shim/aria_libc_thread.c:956-969 | `wait_idle` goes on exactly with nothing queued, returns exactly with no active task, and starts again otherwise; a shutdown call returns exactly when all workers have exited |
| PoolAnswers.OneMoreAfterShutdown | packages/aria-libc/shim/aria_libc_thread.c:826-838 | once the flag is set at most one more task is accepted, and none unless a thread is past its second test |
| PoolAnswers.WorkerNearsEnd | packages/aria-libc/shim/aria_libc_thread.c:840-873 | after shutdown every step of a worker that does not find the lock taken lowers its distance to the end |
| PoolAnswers.OthersDoNotDelay | packages/aria-libc/shim/aria_libc_thread.c:826-873 | no other step raises it but by the task it stores |
| PoolSystem.AtMostOnce | packages/aria-libc/shim/aria_libc_thread.c:864-873 | no accepted task is executed twice, by any workers, in any run |
| PoolSystem.ExitsOnlyWhenDrained | packages/aria-libc/shim/aria_libc_thread.c:844-844 | a worker exits only when shutdown is set and the queue is empty, and the queue stays empty |
| PoolSystem.NothingAcceptedAfterExit | packages/aria-libc/shim/aria_libc_thread.c:826-838 | once any worker has exited nothing is accepted again |
| PoolSystem.DrainedExactlyOnce | packages/aria-libc/shim/aria_libc_thread.c:826-873 | when all workers have exited, each accepted task was executed exactly once and the executed tasks equal the accepted ones as multisets |
| PoolSystem.ShutdownDrains | packages/aria-libc/shim/aria_libc_thread.c:920-934 | the same holds when a shutdown call has returned from its joins |
| PoolSystem.PendingRead | packages/aria-libc/shim/aria_libc_thread.c:961-965 | when `wait_idle` goes on to its second read, everything accepted until its first read had been popped |
| PoolSystem.WaitIdleIff | packages/aria-libc/shim/aria_libc_thread.c:956-969 | when `wait_idle` returns, every task accepted before its first read has been executed exactly once if and only if no worker stands between the pop of such a task and the increment of `active_tasks` |
| PoolSystem.IdleIffNoneJustPopped | packages/aria-libc/shim/aria_libc_thread.c:864-873 | at any one moment: with an empty queue and no active task, everything accepted has been executed if and only if no worker stands between its pop and that increment |
| PoolSystem.IdleTooEarly | packages/aria-libc/shim/aria_libc_thread.c:867-868 | a concrete run in which `wait_idle` returns while a task accepted before its call has been popped and not executed |
| DiffSpec.LcsIsUpperBound | packages/aria-diff/shim/aria_diff_shim.c:83-92 | the recurrence behind the table bounds every common subsequence of the two prefixes |
| DiffSpec.ScriptLowerBound | packages/aria-diff/shim/aria_diff_shim.c:157-180 | any script that turns A into B keeps at most the LCS length and therefore makes at least m + n - 2 LCS changes for texts of m and n lines |
| DiffSpec.Minimal | packages/aria-diff/shim/aria_diff_shim.c:72-130 | a script that keeps LCS many lines makes the fewest changes among all scripts that turn A into B |
| DiffText.ChangesSeenIff | packages/aria-diff/shim/aria_diff_shim.c:31-50 | a diff against a text tells apart every other text that differs by more than a last line break if and only if that text has fewer than 1024 lines, all shorter than 511 bytes |
| DiffText.SameLinesIff | packages/aria-diff/shim/aria_diff_shim.c:31-50 | two texts are cut into the same lines if and only if they differ by a last line break at most |
| DiffText.UnchangedIff | packages/aria-diff/shim/aria_diff_shim.c:72-130 | a shortest script has no changes if and only if the lines are equal |
| DiffText.UnifiedInjective | packages/aria-diff/shim/aria_diff_shim.c:185-207 | scripts over lines without breaks have the same unified text only if they are the same script |
| DiffText.UnifiedTellsSides | packages/aria-diff/shim/aria_diff_shim.c:196-207 | of the lines of a script's text, those without a plus are the old side and those without a minus the new side |
| DiffText.StoredLines | packages/aria-diff/shim/aria_diff_shim.c:31-50 | the stored lines are the first 1024, each the first 511 bytes of its line |
| DiffText.SplitLines | packages/aria-diff/shim/aria_diff_shim.c:31-50 | the loop gives the first 1024 lines, each cut to 511 bytes |
| DiffEngine.Diff.FillTable | packages/aria-diff/shim/aria_diff_shim.c:79-92 | after the nested loops every cell of the table is the LCS length of its prefixes |
| DiffEngine.Diff.Choose | packages/aria-diff/shim/aria_diff_shim.c:104-120 | one turn of the backtrack puts the right entry and moves to the remaining prefixes |
| DiffEngine.Diff.Backtrack | packages/aria-diff/shim/aria_diff_shim.c:97-121 | the reverse buffer holds a complete script and the MAX_HUNKS break never cuts it short |
| DiffEngine.Diff.Compute | packages/aria-diff/shim/aria_diff_shim.c:31-130 | for any two texts: context and removed entries spell the stored lines of A, context and added entries those of B, the context count is the LCS length, no script that does so has fewer changes, and there are no changes if and only if the stored lines are equal |
| DiffEngine.Diff.GetLine | packages/aria-diff/shim/aria_diff_shim.c:145-153 | the text of an entry comes from B for added entries and from A otherwise; empty out of range |
| DiffEngine.Diff.CountOf | packages/aria-diff/shim/aria_diff_shim.c:157-180 | the statistics count the script's entries of one tag |
| DiffEngine.Diff.WriteUnified | packages/aria-diff/shim/aria_diff_shim.c:185-207 | one signed line for each entry, whole lines only; the whole script if and only if more than 516 of the 65536 bytes are left before each entry, and then the lines without a plus are those of A, the lines without a minus those of B |
| Decimal.CanonicalUnique | packages/aria-bigdecimal/shim/aria_bigdecimal_shim.c:49-76 | canonical strings of equal value are equal strings |
| Decimal.ReadAsUsual | packages/aria-bigdecimal/shim/aria_bigdecimal_shim.c:49-76 | a decimal string is read in base ten, the digits after the point as decimal places |
| BigDecimal.Normalize | packages/aria-bigdecimal/shim/aria_bigdecimal_shim.c:49-76 | of any sign, digits and point: the value unchanged; the result canonical (no leading zeros, no trailing fraction zeros, no bare point, no -0) if and only if a digit stands before the point, and otherwise only the sign, the point and the significant digits; a canonical string comes back as it is |
| BigDecimal.CmpAbs | packages/aria-bigdecimal/shim/aria_bigdecimal_shim.c:80-102 | of any two strings of digits and points, what the lengths of the integer parts and then the first difference say; of stored magnitudes that is the sign of the exact difference, also for fractions of unequal length |
| BigDecimal.CmpTextIsSign | packages/aria-bigdecimal/shim/aria_bigdecimal_shim.c:80-102 | on stored magnitudes the comparison by lengths and first difference is that of the values |
| BigDecimal.PointFirstStays | packages/aria-bigdecimal/shim/aria_bigdecimal_shim.c:49-102 | `.5` is stored as it is beside `0.5`, which has the same value, and compares below it |
| BigDecimal.PointZeroVanishes | packages/aria-bigdecimal/shim/aria_bigdecimal_shim.c:49-76 | of `.0` and `-.0` no digit is left |
| BigDecimalCut.ClipValue | packages/aria-bigdecimal/shim/aria_bigdecimal_shim.c:148-151 | the value of a decimal string copied into too small a buffer |
| BigDecimalCut.CutExactIff | packages/aria-bigdecimal/shim/aria_bigdecimal_shim.c:148-151 | cutting a written number keeps its value if and only if every digit that matters has room, or it is 0 |
| BigDecimalCut.CanonicalKeepsIff | packages/aria-bigdecimal/shim/aria_bigdecimal_shim.c:198-213 | a canonical string keeps its value in a buffer if and only if it fits |
| BigDecimalSum.AddPositive | packages/aria-bigdecimal/shim/aria_bigdecimal_shim.c:105-152 | the sum of two magnitudes at their common scale, with the final carry in front, cut to as many of its written characters as the buffer holds |
| BigDecimalSum.SubPositive | packages/aria-bigdecimal/shim/aria_bigdecimal_shim.c:155-194 | the difference when a >= b, with final borrow 0, cut to as many of the written characters as the buffer holds, in canonical form |
| BigDecimalOps.Create | packages/aria-bigdecimal/shim/aria_bigdecimal_shim.c:198-213 | stores the value of the first 511 characters of any sign, digits and point: canonical if and only if a digit stands before the point, and the same value if and only if every character up to the last digit that matters has room |
| BigDecimalOps.Compare | packages/aria-bigdecimal/shim/aria_bigdecimal_shim.c:227-240 | the sign of the exact difference, for all sign combinations |
| BigDecimalOps.Add | packages/aria-bigdecimal/shim/aria_bigdecimal_shim.c:248-291 | the canonical string of the sum cut to 510 written characters behind a sign, for all sign combinations and unequal fraction lengths; the exact sum if and only if every digit that matters has room |
| BigDecimalOps.Negate | packages/aria-bigdecimal/shim/aria_bigdecimal_shim.c:293-307 | the canonical string of the opposite as far as the buffer holds it; the exact opposite if and only if the number is negative or shorter than 511 characters |
| BigDecimalOps.Subtract | packages/aria-bigdecimal/shim/aria_bigdecimal_shim.c:309-315 | the sum with the stored opposite; where that is exact, the exact difference if and only if every digit that matters has room |
| BigDecimalProduct.Row | packages/aria-bigdecimal/shim/aria_bigdecimal_shim.c:350-357 | one row of the multiplication adds digit times number at its place; between rows every cell is back below ten |
| BigDecimalProduct.CellsStep | packages/aria-bigdecimal/shim/aria_bigdecimal_shim.c:352-356 | the cell worked on is at most 18 and the carry at most 9, the other cells stay digits, and the cells' value grows by the digit product at its place |
| BigDecimalProduct.Multiply | packages/aria-bigdecimal/shim/aria_bigdecimal_shim.c:345-358 | the cells denote the exact product and are single digits when the loops end |
| BigDecimalProduct.PlacePoint | packages/aria-bigdecimal/shim/aria_bigdecimal_shim.c:369-383 | the point is put so that the string has the sum of both decimal places, with zeros filled in when `point_pos <= 0` |
| BigDecimalProduct.MultiplyDecimal | packages/aria-bigdecimal/shim/aria_bigdecimal_shim.c:317-386 | the canonical string of the exact product, cut to 511 characters; exact if and only if it is shorter than 512 |
| HashMaps.HashKey | packages/aria-map/shim/aria_map_shim.c:39-46 | the loop computes 64-bit FNV-1a with wrap-around |
| HashMaps.FnvVectors | packages/aria-map/shim/aria_map_shim.c:39-46 | the hash of "", "a" and "foobar" is the published FNV-1a value |
| HashMaps.HighByte | packages/aria-map/shim/aria_map_shim.c:39-46 | a byte above 127 is hashed as it is, without sign extension |
| HashMaps.HashMap.constructor | packages/aria-map/shim/aria_map_shim.c:67-78 | 64 empty buckets stand for the empty map |
| HashMaps.HashMap.Find | packages/aria-map/shim/aria_map_shim.c:104-112 | following one chain finds the entry of the key if and only if the map has it |
| HashMaps.HashMap.Get | packages/aria-map/shim/aria_map_shim.c:130-144 | the map's value, or the default |
| HashMaps.HashMap.Has | packages/aria-map/shim/aria_map_shim.c:146-160 | 1 exactly for keys of the map |
| HashMaps.HashMap.Length | packages/aria-map/shim/aria_map_shim.c:183-188 | the size of the map |
| HashMaps.HashMap.Set | packages/aria-map/shim/aria_map_shim.c:98-128 | the map with that key updated; distinct keys and right buckets; the table doubles exactly when a new key makes 4 * count exceed 3 * num_buckets |
| HashMaps.HashMap.Rehash | packages/aria-map/shim/aria_map_shim.c:48-65 | twice the buckets, the same entries, the same map: only links change |
| HashMaps.HashMap.RelinkAll | packages/aria-map/shim/aria_map_shim.c:52-61 | walking every old chain relinks every entry into the new buckets |
| HashMaps.HashMap.Remove | packages/aria-map/shim/aria_map_shim.c:162-181 | the map without the key; 1 if it was there |
| HashMaps.HashMap.Clear | packages/aria-map/shim/aria_map_shim.c:190-205 | the empty map, with the buckets kept |
| HashMaps.LookupIsLastWrite | packages/aria-map/shim/aria_map_shim.c:98-205 | the reference map answers with the last write to the key that no later remove or clear undid |
| HashMaps.Replay | packages/aria-map/shim/aria_map_shim.c:98-205 | over any sequence of operations the table gives exactly the answers of the mathematical map |
| RateLimitSpec.OthersUntouched | packages/aria-rate-limit/shim/aria_rate_limit_shim.c:50-157 | a request leaves every other key's bucket exactly as it was, unless it evicts it |
| RateLimitSpec.RefillUnseen | packages/aria-rate-limit/shim/aria_rate_limit_shim.c:95-105 | refilling early, with the cap on the way, changes nothing that can be seen later |
| RateLimitSpec.RequestLaw | packages/aria-rate-limit/shim/aria_rate_limit_shim.c:129-176 | a charge is granted if and only if its price is available at that time; a granted charge takes exactly the price; a refused charge or a look leaves no trace |
| RateLimitSpec.RunKeepsInv | packages/aria-rate-limit/shim/aria_rate_limit_shim.c:50-176 | the same over every run with a clock that never goes back |
| RateLimitSpec.RateBound | packages/aria-rate-limit/shim/aria_rate_limit_shim.c:50-157 | over every run, the total granted to a key plus what it can still spend is at most what it could spend at the start plus rate times elapsed time plus one full bucket per eviction of that key |
| RateLimitKeys.LimitHoldsIff | packages/aria-rate-limit/shim/aria_rate_limit_shim.c:50-157 | every key of a set is granted at most max + rate * elapsed, in all runs that ask for keys of the set, if and only if the set has at most 1024 keys |
| RateLimitKeys.NoneEvictedIff | packages/aria-rate-limit/shim/aria_rate_limit_shim.c:50-92 | over any run from any table no key loses its bucket if and only if the keys that have one and those that ask for one are together at most 1024 |
| RateLimitKeys.EvictsIffCrowded | packages/aria-rate-limit/shim/aria_rate_limit_shim.c:60-79 | one request evicts if and only if its key has no bucket and 1024 keys have one |
| RateLimitKeys.FewKeysLimited | packages/aria-rate-limit/shim/aria_rate_limit_shim.c:129-157 | with at most 1024 keys in use every key is granted at most max + rate * elapsed |
| RateLimitKeys.FewKeysRetry | packages/aria-rate-limit/shim/aria_rate_limit_shim.c:168-176 | with at most 1024 keys in use a check made at least the advised seconds later, with nothing granted to the key in between, succeeds |
| RateLimitKeys.CrowdBreaks | packages/aria-rate-limit/shim/aria_rate_limit_shim.c:60-92 | from the empty table, with any 1025 keys, a run at second 0 that grants the first key 2 * max |
| RateLimitSpec.UnspentRun | packages/aria-rate-limit/shim/aria_rate_limit_shim.c:129-176 | as long as a key is granted nothing and not evicted, what it can spend at any later time does not change |
| RateLimitMeter.GrantedByMeter | packages/aria-rate-limit/shim/aria_rate_limit_shim.c:129-176 | with at most 1024 keys in use, every charge of every run is granted if and only if the plain meter of its key, which grows by the rate up to the maximum and falls by granted charges, shows enough; an empty key is always let through |
| RateLimitMeter.Metered | packages/aria-rate-limit/shim/aria_rate_limit_shim.c:50-176 | over every run what a key that is not evicted can spend is exactly what its meter shows |
| RateLimitMeter.AvailableLater | packages/aria-rate-limit/shim/aria_rate_limit_shim.c:95-105 | between requests the level is exactly min(max, level + seconds * rate) |
| RateLimitMeter.ChargeGrantedIff | packages/aria-rate-limit/shim/aria_rate_limit_shim.c:145-157 | with nothing granted to the key and no eviction since t0, a charge of n is granted if and only if n is at most min(max, level + seconds * rate) |
| RateLimitMeter.RemainingIsAvailable | packages/aria-rate-limit/shim/aria_rate_limit_shim.c:160-165 | the tokens answered are those the key can spend at that time |
| RateLimitMeter.EvictsOldest | packages/aria-rate-limit/shim/aria_rate_limit_shim.c:79-92 | a bucket is taken away only from a full table, and it is the one refilled longest ago |
| RateLimitSpec.RetryIsTightIff | packages/aria-rate-limit/shim/aria_rate_limit_shim.c:173-175 | on an empty bucket one second less than advised would fail if and only if the rate is not one a second |
| RateLimiting.Limiter.constructor | packages/aria-rate-limit/shim/aria_rate_limit_shim.c:109-113 | limits that are not positive become 100 tokens and 10 a second |
| RateLimiting.Limiter.GetBucket | packages/aria-rate-limit/shim/aria_rate_limit_shim.c:50-92 | the loops pick the key's bucket, else the first vacant place, else a new place, else the least recently refilled bucket |
| RateLimiting.Limiter.CheckCost | packages/aria-rate-limit/shim/aria_rate_limit_shim.c:145-157 | one charge on the array of buckets refines the charge on the sequence |
| RateLimiting.Limiter.Check | packages/aria-rate-limit/shim/aria_rate_limit_shim.c:129-140 | the same with a price of one token |
| RateLimiting.Limiter.Remaining | packages/aria-rate-limit/shim/aria_rate_limit_shim.c:160-165 | the tokens after refill; the maximum for an empty key |
| RateLimiting.Limiter.RetrySeconds | packages/aria-rate-limit/shim/aria_rate_limit_shim.c:168-176 | the advised seconds after refill; 0 for an empty key |
| HeapSpec.RootIsMinimum | packages/aria-pqueue/shim/aria_pqueue_shim.c:127-132 | in heap order no entry is smaller than the root |
| HeapSpec.EntriesConserved | packages/aria-pqueue/shim/aria_pqueue_shim.c:99-124 | over any run of events that a queue can go through, what was there and what came in equals what went out and what is left, entry by entry |
| HeapSpec.DrainIsSorted | packages/aria-pqueue/shim/aria_pqueue_shim.c:112-124 | a run of extractions to empty yields entries by non-decreasing priority (`Drain` is such a run) |
| HeapSpec.DrainIsComplete | packages/aria-pqueue/shim/aria_pqueue_shim.c:112-124 | a run of extractions to empty yields every entry as often as it was held |
| HeapSpec.DrainPrioritiesUnique | packages/aria-pqueue/shim/aria_pqueue_shim.c:112-124 | any two results that `Drain` may give for the same entries have the same priorities in the same places, however ties are broken |
| PriorityQueues.PriorityQueue.Drain | packages/aria-pqueue/shim/aria_pqueue_shim.c:112-124 | extracting until the queue is empty gives exactly the queued entries, by non-decreasing priority |
| PriorityQueues.PriorityQueue.Perform | packages/aria-pqueue/shim/aria_pqueue_shim.c:99-124 | one request gives the event that explains its answer: accepted exactly when there is room, extracted exactly when not empty, a minimum of its time |
| PriorityQueues.Replay | packages/aria-pqueue/shim/aria_pqueue_shim.c:72-124 | any requests made of a new queue are such a run of events: each answer is the one the events before it explain, and the queue holds what they leave |
| PriorityQueues.PriorityQueue.constructor | packages/aria-pqueue/shim/aria_pqueue_shim.c:72-85 | an empty queue of a capacity between 1 and 65536 |
| PriorityQueues.PriorityQueue.SiftUp | packages/aria-pqueue/shim/aria_pqueue_shim.c:40-50 | restores heap order from one violation above an index and permutes the entries |
| PriorityQueues.PriorityQueue.SiftDown | packages/aria-pqueue/shim/aria_pqueue_shim.c:52-68 | restores heap order from one violation below an index and permutes the entries |
| PriorityQueues.PriorityQueue.Insert | packages/aria-pqueue/shim/aria_pqueue_shim.c:99-109 | adds exactly the new entry and keeps heap order; refuses without change exactly when full |
| PriorityQueues.PriorityQueue.Extract | packages/aria-pqueue/shim/aria_pqueue_shim.c:112-124 | removes exactly one entry of minimum priority and answers its value; -1 from an empty queue |
| PriorityQueues.PriorityQueue.Peek | packages/aria-pqueue/shim/aria_pqueue_shim.c:127-140 | an entry of minimum priority, namely the one the next extraction removes |
| CsvSpec.TableWritten | packages/aria-csv/shim/aria_csv_shim.c:159-187 | the calls for a table, field by field and row by row, emit exactly its text |
| CsvSpec.RowReadsBack | packages/aria-csv/shim/aria_csv_shim.c:49-102 | every written row reads back as that row, whatever follows |
| CsvSpec.TableReadsBack | packages/aria-csv/shim/aria_csv_shim.c:40-106 | parsing the writer's output gives back exactly the same rows and fields |
| CsvSpec.FinalBreakOptionalIff | packages/aria-csv/shim/aria_csv_shim.c:49-102 | without the last line break the table comes back if and only if its last field is not empty |
| CsvTables.CsvReader.GridClear | packages/aria-csv/shim/aria_csv_shim.c:28-36 | empties every cell of the counted rows and nothing else |
| CsvTables.CsvReader.Parse | packages/aria-csv/shim/aria_csv_shim.c:40-106 | row count, column count and every cell of the grid after parsing any text; in a grid that was clean, cells are left over below the last row if and only if the text ends in a comma outside quoted fields and has fewer rows than the grid |
| CsvTables.CsvReader.Get | packages/aria-csv/shim/aria_csv_shim.c:113-120 | the field of a cell, empty for absent cells and out of range |
| CsvScan.LeftOverIff | packages/aria-csv/shim/aria_csv_shim.c:49-105 | read off the text character by character: how many rows it gives, and that a row is left open if and only if the text ends in a comma outside quoted fields and its rows do not fill the grid |
| CsvRead.ParseIsReading | packages/aria-csv/shim/aria_csv_shim.c:40-106 | for every text, well formed or not, the parser gives the rows and fields of a machine that reads one character at a time, the first 4096 rows of them |
| CsvRead.OnePlainField | packages/aria-csv/shim/aria_csv_shim.c:70-77 | a field without a quote in front is all its characters, quotes included, up to 8191 |
| CsvRead.QuoteInsidePlain | packages/aria-csv/shim/aria_csv_shim.c:50-77 | the text `12" pipe,3` gives the fields `12" pipe` and `3` |
| CsvRead.OneBreak | packages/aria-csv/shim/aria_csv_shim.c:86-101 | CR LF is one break, as LF alone and CR alone are |
| CsvScan.OpenEndIsComma | packages/aria-csv/shim/aria_csv_shim.c:84-85 | a text not ending in a comma is never left open, and one without quotes that ends in a comma always is |
| CsvScan.OpenRowLost | packages/aria-csv/shim/aria_csv_shim.c:84-101 | the text `a,` gives no row and leaves its field behind |
| CsvScan.BrokenRowKept | packages/aria-csv/shim/aria_csv_shim.c:84-101 | with a line break after it the same row comes back whole |
| CsvTables.TableShows | packages/aria-csv/shim/aria_csv_shim.c:113-120 | a written and parsed table shows the same field in every cell and empty fields elsewhere |
| CsvTables.CsvWriter.WriteField | packages/aria-csv/shim/aria_csv_shim.c:159-182 | one call appends the comma and the quoted or plain field |
| CsvTables.CsvWriter.WriteRowEnd | packages/aria-csv/shim/aria_csv_shim.c:184-187 | ends the row |
| MsgPackSpec.IntBytesReadBack | packages/aria-msgpack/shim/aria_msgpack_shim.c:215-219 | sign recovery: shifting eight bytes into an int64 gives back the integer |
| MsgPackSpec.FormatBytes | packages/aria-msgpack/shim/aria_msgpack_shim.c:20-31 | the bytes at the ends of each family are those of the MessagePack specification |
| MsgPackSpec.FormatOfAll | packages/aria-msgpack/shim/aria_msgpack_shim.c:102-163 | for every value the form of the specification: which take one byte, the tag of the others, and the bytes behind it |
| MsgPackSpec.LongFormsRead | packages/aria-msgpack/shim/aria_msgpack_shim.c:210-247 | the forms that packing does not choose are read too: any integer behind 0xd3, any string of at most 255 bytes behind 0xd9 |
| MsgPackSpec.UnpackedIff | packages/aria-msgpack/shim/aria_msgpack_shim.c:185-250 | a value is found if and only if the first byte is a known tag and all bytes it announces are there; how far the cursor goes otherwise |
| MsgPackSpec.PackThenUnpack | packages/aria-msgpack/shim/aria_msgpack_shim.c:102-250 | any packed value is recognised with its type and exact length, whatever follows, so the tag ranges are disjoint |
| MsgPackSpec.PackedIsPrefixFree | packages/aria-msgpack/shim/aria_msgpack_shim.c:102-163 | no packed value is the beginning of another |
| MsgPackSpec.StreamRoundTrip | packages/aria-msgpack/shim/aria_msgpack_shim.c:185-250 | for every sequence of values repeated unpacking returns them in order and uses exactly the packed bytes |
| MsgPackSpec.UnpackThenPackIff | packages/aria-msgpack/shim/aria_msgpack_shim.c:203-247 | packing an unpacked value gives the same bytes if and only if it was not a small integer or short string in the long form |
| MsgPackBuffers.RefusalIsCleanIff | packages/aria-msgpack/shim/aria_msgpack_shim.c:147-163 | a refused pack leaves the buffer unchanged if and only if the value is no string, or is longer than 255 bytes, or the buffer was full |
| MsgPackBuffers.HeaderLeftBehind | packages/aria-msgpack/shim/aria_msgpack_shim.c:152-162 | with one byte of room a one-character string is refused and its header stays |
| MsgPackBuffers.AcceptedStream | packages/aria-msgpack/shim/aria_msgpack_shim.c:91-163 | packing onto a packed stream gives the stream with that value at the end, and it unpacks so |
| MsgPackBuffers.MsgPackBuffer.PackNil | packages/aria-msgpack/shim/aria_msgpack_shim.c:102-105 | appends the nil tag if it fits |
| MsgPackBuffers.MsgPackBuffer.PackBool | packages/aria-msgpack/shim/aria_msgpack_shim.c:107-110 | appends the tag of the truth value if it fits |
| MsgPackBuffers.MsgPackBuffer.PackInt | packages/aria-msgpack/shim/aria_msgpack_shim.c:112-130 | appends the shortest of the three integer forms if it fits |
| MsgPackBuffers.MsgPackBuffer.PackFloat | packages/aria-msgpack/shim/aria_msgpack_shim.c:132-145 | appends the float's pattern if it fits |
| MsgPackBuffers.MsgPackBuffer.PackStr | packages/aria-msgpack/shim/aria_msgpack_shim.c:147-163 | appends header and bytes if they fit, else possibly the header alone; refuses more than 255 bytes |
| MsgPackBuffers.MsgPackBuffer.Rewind | packages/aria-msgpack/shim/aria_msgpack_shim.c:168-171 | the whole content is unread again |
| MsgPackBuffers.MsgPackBuffer.UnpackNext | packages/aria-msgpack/shim/aria_msgpack_shim.c:185-250 | type, value and cursor after reading one value into the last value, which all buffers share; on failure -1, with the last value kept and the cursor past what was recognised |
| EditorSpec.LoadKeepsText | packages/aria-editor/shim/aria_editor_shim.c:57-98 | loading any text gives at least one line, no line with a line break in it, and lines that stand for exactly that text |
| EditorSpec.LinesOfFlat | packages/aria-editor/shim/aria_editor_shim.c:70-91 | well-formed lines are the only lines of their text |
| EditorSpec.SplitThenJoin | packages/aria-editor/shim/aria_editor_shim.c:182-216 | joining undoes splitting |
| EditorSpec.JoinThenSplit | packages/aria-editor/shim/aria_editor_shim.c:182-216 | splitting where two lines were joined undoes the joining |
| EditorSpec.SavedText | packages/aria-editor/shim/aria_editor_shim.c:220-236 | saving what was loaded gives the text followed by one line break |
| EditorSpec.SaveThenLoadGrows | packages/aria-editor/shim/aria_editor_shim.c:57-98 | so each saving and loading adds one empty line |
| EditorSpec.InsertCharKeepsFormIff | packages/aria-editor/shim/aria_editor_shim.c:154-168 | typing keeps lines free of line breaks if and only if the character is no line break |
| EditorSpec.WholeLineKeepsFormIff | packages/aria-editor/shim/aria_editor_shim.c:118-135 | whole lines handed in keep the form if and only if they hold no line break |
| EditorSpec.EditInText | packages/aria-editor/shim/aria_editor_shim.c:118-216 | each of the seven edits of any lines equals one edit of their flat text at the matching offset |
| EditorSpec.SessionInText | packages/aria-editor/shim/aria_editor_shim.c:118-236 | the same for every step of any editing session, down to the saved text |
| EditorSpec.EditRefines | packages/aria-editor/shim/aria_editor_shim.c:118-216 | on well-formed lines row and column can be read off the text alone, whatever is edited, typed line breaks included |
| EditorSpec.SessionRefines | packages/aria-editor/shim/aria_editor_shim.c:57-236 | the same over sessions in which only the last edit puts a line break into a line, down to the saved text |
| EditorSpec.TypedBreakHidesRow | packages/aria-editor/shim/aria_editor_shim.c:154-178 | why only the last: a typed line break makes a row of the text that the editor does not find |
| EditorSpec.FindMissesIff | packages/aria-editor/shim/aria_editor_shim.c:251-267 | the search answers -1 if and only if every occurrence lies in the starting row before the starting column |
| EditorSpec.FindMissesStart | packages/aria-editor/shim/aria_editor_shim.c:255-266 | searching `ab` for `a` from column 1 answers -1 |
| EditorSpec.FindIsNearest | packages/aria-editor/shim/aria_editor_shim.c:255-265 | the reported match is one, and no eligible match comes before it in circular row order |
| EditorSpec.FindAnswerIsNearest | packages/aria-editor/shim/aria_editor_shim.c:251-277 | row and column taken from the answer are those of a match at or after the start, and no other such match comes before it on the way round |
| EditorSpec.PackedApart | packages/aria-editor/shim/aria_editor_shim.c:262-277 | row and column come back out of the packed answer |
| Editors.Editor.constructor | packages/aria-editor/shim/aria_editor_shim.c:43-53 | one empty line, not modified |
| Editors.Editor.Load | packages/aria-editor/shim/aria_editor_shim.c:57-98 | the loop cuts the text into exactly its lines |
| Editors.Editor.Set | packages/aria-editor/shim/aria_editor_shim.c:118-123 | replaces one line, ignores an index out of range |
| Editors.Editor.Insert | packages/aria-editor/shim/aria_editor_shim.c:126-135 | inserts at the clamped index |
| Editors.Editor.Delete | packages/aria-editor/shim/aria_editor_shim.c:138-151 | deletes one line and keeps at least one |
| Editors.Editor.TypeChar | packages/aria-editor/shim/aria_editor_shim.c:154-168 | the line with the character at the clamped column |
| Editors.Editor.EraseChar | packages/aria-editor/shim/aria_editor_shim.c:171-178 | the line without that character |
| Editors.Editor.Split | packages/aria-editor/shim/aria_editor_shim.c:182-197 | the line cut at the clamped column |
| Editors.Editor.Join | packages/aria-editor/shim/aria_editor_shim.c:200-216 | the line joined with the one below |
| Editors.Editor.ToText | packages/aria-editor/shim/aria_editor_shim.c:220-236 | every line followed by a line break |
| Editors.Editor.Find | packages/aria-editor/shim/aria_editor_shim.c:251-267 | the nested loops compute the circular search |
| Base64Spec.DecodeCharInvertsAlphabets | packages/aria-base64/shim/aria_base64_shim.c:13-26 | the decoder's ranges are exactly the two alphabets, position by position |
| Base64Spec.EncodedLength | packages/aria-base64/shim/aria_base64_shim.c:40-65 | padded output has 4 * ceil(n / 3) characters, unpadded ceil(4 n / 3) |
| Base64Spec.RoomIsExact | packages/aria-base64/shim/aria_base64_shim.c:98-108 | the decoder's computed length equals the original length in every residue, padded or not |
| Base64Spec.RoundTrip | packages/aria-base64/shim/aria_base64_shim.c:37-136 | decoding after encoding is the identity for every byte sequence, in both alphabets, padded or not |
| Base64Spec.LettersOfEncoded | packages/aria-base64/shim/aria_base64_shim.c:44-65 | every character of the text is the table's entry for the six bits that stand there, and behind the ceil(8 n / 6) letters there is only padding |
| Base64Spec.ForeignSkipped | packages/aria-base64/shim/aria_base64_shim.c:115-123 | a character of neither alphabet is passed over wherever it stands |
| Base64Spec.UrlTextIsSafe | packages/aria-base64/shim/aria_base64_shim.c:16-17 | the URL variant uses no character that needs escaping in a URL |
| Base64Spec.Rfc4648Vectors | packages/aria-base64/shim/aria_base64_shim.c:37-68 | the encodings of the empty text, f, fo and foo are those of section 10 of RFC 4648 |
| Base64Spec.LetterInTable | packages/aria-base64/shim/aria_base64_shim.c:13-17 | the letter used for six bits is the one the alphabet's table holds at that place |
| Base64Coder.Encode | packages/aria-base64/shim/aria_base64_shim.c:37-68 | the loop emits exactly the encoding, inside the allocated buffer |
| Base64Coder.Decode | packages/aria-base64/shim/aria_base64_shim.c:92-136 | the decoded bytes of any text, malformed ones included |

## Left out

- Handle tables, `destroy` and object lifetimes, allocation failure and thread-creation failure: every object exists and every allocation succeeds.
- Liveness of the concurrent code: which waiter a signal wakes is not modelled, so a wait may be repeated at any time; what is proved is where each thread waits, that its other steps bring it nearer to its end, and what the others can add to the distance.
- Memory ordering: flags read without a lock (`pool->alive`, `queue.shutdown`, `fo->running`, the second read in a rendezvous send) are read one at a time in some global order.
- `channel_select`, which only reports a momentary observation, and pipelines, which run a caller's function.
- FanInSystem.OutputIsMerge: the inputs are distinct channels with the worker as sole receiver, and nobody else closes the output.
- FanInLoss.LossPossibleIff: as in `FanOutLoss.LossPossibleIff`, the input starts open and empty; a oneshot input accepts one value.
- FanOutSystem.OutputsPartitionInput: the worker is the sole receiver of the input and nobody else sends to or closes the outputs.
- ActorSystem.HandlerSeesPrefix: the actor's loop is the sole receiver of the mailbox.
- PoolSystem.ShutdownDrains: freeing the pool after the joins is not modelled; a call on a freed pool is outside the model.
- DiffEngine.Diff.Compute: texts are C strings and hold no null character; a null pointer counts as the empty text.
- BigDecimalOps.Add: takes stored operands in canonical form; operands such as `.5`, which storing leaves without a digit before the point, are not added.
- BigDecimalOps.Subtract: takes the same operands; for a positive subtrahend of 511 characters the opposite loses its last one, and the value is given as the outcome of two cuts; they can cancel, so no simple condition for an exact result is stated there.
- BigDecimalOps.Create: strings with any other character than a leading minus, digits and one point have no value and are not covered.
- BigDecimalProduct.MultiplyDecimal: takes stored operands in canonical form, as `Add` does.
- BigDecimal.Normalize: takes the same strings as `Create`; the in-place moves within the string are assignments of a new string.
- The decimal library's `is_zero` and `is_negative`, which read one string.
- HashMaps.HashMap.Find: `get`, `has` and `set` each repeat this loop in the source; here they share it.
- HashMaps.HashMap.Remove: the pointer to the previous link is a previous entry or the bucket itself, because a field has no address of its own.
- HashMaps.HashMap.Clear: releasing the entries is not modelled.
- HashMaps.HashMap.Set: `count` and `num_buckets` are unbounded integers.
- HashMaps.Replay: drives the table for the theorem; it has no counterpart in the source.
- PriorityQueues.PriorityQueue.Drain: like `Perform` and `Replay` there, calls the operations for the theorem; it has no counterpart in the source.
- RateLimitSpec.RateBound: one configuration and a clock that never goes back; keys are under 256 bytes, so truncation does not merge them; a null key behaves as an empty one.
- The limiter's `headers` text, `reset` and the test hook that sets tokens.
- RateLimiting.Limiter.GetBucket: tokens and rates are whole numbers, as configured through the interface, so the floating-point values are exact integers.
- CsvSpec.TableReadsBack: rows are non-empty, at most 4096 of them with at most 256 fields of at most 8191 bytes; a row without fields is written as an empty line and reads back as one empty field.
- CsvTables.CsvReader.Parse: a quoted field's escaped quotes are stored without the length check of the other characters, as in the source, but in a buffer without bound.
- CsvTables.TableShows: how many columns each row after the first has is not recorded by the grid, so trailing empty fields show like absent ones.
- Base64Coder.Decode: the terminating null byte, and with it a text of only one or two padding signs, for which the computed length wraps, is outside what is said about the buffer.
- Base64Spec.RoundTrip: fewer than 2^31 bytes, the range of the length argument.
- EditorSpec.SessionRefines: once a line break has been typed into a line, or handed in with a whole line, row and column of later edits are no longer those of the text (`TypedBreakHidesRow`); such sessions are covered by `SessionInText`, which takes them from the lines.
- Editors.Editor.Load: texts are C strings and hold no null character.
- Editors.Editor.Find: the starting row and column are not negative, as the source's indexing requires.
- The GUI, audio, database, network, file-system, process, GPU and regular-expression shims are wrappers over libraries that are not visible; tensor and statistics shims rest on floating point; TOML output is not escaped and does not round-trip; the remaining small shims would only add simpler members.
