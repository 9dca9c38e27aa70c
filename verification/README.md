# Hemerion protocols and clocks, verified

Models of the parts of Hemerion where a mistake would be quiet: the shared-memory
I2C bus and its TCP front end, the lockstep bridge between the FMI master and the
plant, the two timers that accumulate 32-bit milliseconds, the seed mixer, the GPS
outage bookkeeping with the script that reads it back, the resampling of logs and the
conversion schedule of the stand-alone barometer.

`dafny verify dfyconfig.toml` checks everything.

| file | about |
|---|---|
| `Words.dfy` | bytes and machine words |
| `I2cTransaction.dfy` | one transaction on one part, against the bus-event order of UM10204 |
| `I2cRegion.dfy` | the shared region, the part, and the service thread's walk over the buffers |
| `I2cLink.dfy` | the bus as a transition system: controller, service thread, `stop()` |
| `I2cLinkSafety.dfy` | ownership; which execution a returned call belongs to |
| `I2cLinkDirect.dfy` | undisturbed, the handshake is invisible |
| `I2cLinkAnswers.dfy` | which calls are refused, and what the others say of their bus events |
| `I2cLinkProgress.dfy` | bounded completion, the join in `stop()` |
| `I2cLinkShutdown.dfy` | after `stop()`, and after the ready flag is cleared; the transaction index; the shutdown phase |
| `I2cLinkTimeout.dfy` | exactly when the association survives a deadline passed |
| `I2cShmLink.dfy` | `transaction()` in place, other threads in between |
| `TcpFrame.dfy`, `TcpBridge.dfy`, `TcpEndToEnd.dfy` | the wire format, the server, the accept loop and the end-to-end theorem |
| `Lockstep.dfy`, `LockstepSafety.dfy`, `LockstepShutdown.dfy` | the four-phase handshake as a transition system |
| `LockstepCalls.dfy` | whole calls of either side as runs |
| `LockstepTurns.dfy` | the first choice out of turn is exactly where the lockstep can be lost |
| `LockstepWaits.dfy` | what the waits may say |
| `LockstepProgress.dfy` | bounded completion of a step |
| `ShmBridge.dfy` | the bridge's calls in place |
| `WatchdogModel.dfy`, `Watchdog.dfy` | the software watchdog on values and in place |
| `SequencerModel.dfy`, `SequencerHistory.dfy`, `RegulatorSequencer.dfy` | the regulator sequencer on values, over histories of calls and in place |
| `DerivedSeed.dfy` | one seed per sensor from one run seed |
| `FixTimes.dfy`, `OutageReader.dfy`, `FlightComputer.dfy` | GPS outages: normalised, read, written |
| `Interpolation.dfy` | binary-search interpolation |
| `Pacing.dfy` | the conversion schedule |

## How the concurrent parts are modelled

One step is one access to shared memory (an atomic load or store, or one element of
a plain buffer) or one bus event. Acquire and release atomics are taken as
sequentially consistent. `Next` is a total function of a state and a choice of actor, so a
schedule is a sequence of choices and "for every interleaving" is "for every
schedule". The classes `I2cShmLink.Link` and `ShmBridge.Bridge` hold the region
in place; one side's calls are straight-line code with loops, the other side makes any
number of moves before each of its accesses, and `Valid()` says that the object's
state is that of a schedule, so every theorem about schedules is one
about the objects. A simulated part is given by what it answers after every log of bus
events; because a log only grows, every run of a part that answers arbitrarily is a run
of one of these. A deadline passes when the environment says so. The lockstep
theorems assume of a schedule that both sides keep their turn (`Lockstep.InTurn`), which
the bridge's code does not enforce: `LockstepTurns.TurnIsExact` shows that nothing less
will do. The calls in `ShmBridge` assume no such thing.

## Where the code and its documentation disagree

- Both protocol headers call the shutdown phase terminal
  (`sim/i2c_shm/include/hemerion/sim/i2c_shm/i2c_shm_protocol.h:59-61`,
  `sim/shm_bridge/include/hemerion/sim/shm_bridge/bridge_protocol.h:43-44`). It can be overwritten;
  `I2cLinkShutdown.ShutdownPhaseIsTerminalIff` and `LockstepShutdown.ShutdownIsFinalIff`
  say exactly when it cannot, `ShutdownPhaseOverwritten` and `ShutdownMidStepIsOverwritten`
  are runs on which it is.
- `derived_seed` promises a distinct seed per sensor
  (`examples/f16_trim_ecos/cosim_host_main.cpp:191`). The 64-bit states are distinct, the reduced seeds need
  not be: run seed 170397147 gives the GPS and the barometer the same one
  (`DerivedSeed.SeedsCanCollide`, `SeedsCollideIff`).
- `current_rail_id()` promises the first rail whenever it is not enabling
  (`modules/power/include/hemerion/power/regulator_sequencer.h:88-94`); after a fault the
  code returns the rail that was late. `SequencerModel.LateSecondRail` is such a run and
  `SequencerModel.FirstRailIff` says exactly when the promise is kept.
- `configure()` is documented to reject a null pointer
  (`modules/power/include/hemerion/power/regulator_sequencer.h:33`) and does not look.
  `SequencerModel.NullIdsSlipThrough` is such a call and `SequencerModel.NullIdsSlipThroughIff`
  says exactly which calls get past the checks.
- The summary of the GPS outage takes a negative time for "none yet"
  (`examples/f16_trim_ecos/f16_flight_computer.cpp:841`), so with a negative `--fix-period` it forgets the
  first outage (`FlightComputer.NegativePeriodForgets`); `FlightComputer.ReaderAgreesWithWriter`
  says exactly when it does not.
- `interpolate` guards its division against an empty span
  (`examples/f16_trim_ecos/plot_results.py:608-609`); the guard never fires, sorted times or not.

## Model

| member | source | states |
|---|---|---|
| I2cTransaction.TransactionFits | sim/i2c_shm/src/i2c_shm_link.cpp:46-89 | whatever the part answers, the trace of one transaction is in the bus-event order, ends with its STOP, and carries the part's own answers; with its result and bytes |
| I2cTransaction.TransactionIsTheOnlyOne | sim/i2c_shm/src/i2c_shm_link.cpp:46-89 | the converse: the only trace in that order that carries the part's answers is the one the walk leaves |
| I2cTransaction.StartsReadsAndStop | sim/i2c_shm/src/i2c_shm_link.cpp:54-87 | one STOP and that last; `last` on the final read and no other; a second START only as a read START after an acknowledged write START |
| I2cTransaction.BytesRead | sim/i2c_shm/src/i2c_shm_link.cpp:74-85 | an acknowledged transaction reads exactly the bytes asked for, any other none |
| I2cTransaction.ResultIsTheLastAnswer | sim/i2c_shm/src/i2c_shm_link.cpp:46-89 | address not acknowledged exactly when the trace ends with a refused START, data not acknowledged exactly when with a refused written byte; every START is for the transaction's address |
| I2cRegion.ServeTransaction | sim/i2c_shm/src/i2c_shm_link.cpp:46-89 | the loops over the region leave that one trace in the part, return its result, and change the front of `read_bytes` and nothing else |
| I2cRegion.WriteBytes | sim/i2c_shm/src/i2c_shm_link.cpp:63-70 | the write loop walks the write phase up to the byte that is refused, if one is |
| I2cRegion.ReadBytes | sim/i2c_shm/src/i2c_shm_link.cpp:81-84 | the read loop walks the read phase and stores its bytes in front of the rest of the buffer |
| I2cRegion.BusRegion.constructor | sim/i2c_shm/include/hemerion/sim/i2c_shm/i2c_shm_protocol.h:84-113 | the freshly constructed region |
| I2cLink.ControllerStep | sim/i2c_shm/src/i2c_shm_link.cpp:240-311 | no single access of `transaction()`, guards and all, leads outside a buffer of the region or of the caller |
| I2cLink.ServiceStep | sim/i2c_shm/src/i2c_shm_link.cpp:154-172 | no single access or bus event of `service_loop()` leads outside the region's buffers, whatever lengths it finds posted |
| I2cLink.StopperStep | sim/i2c_shm/src/i2c_shm_link.cpp:125-137 | nor does one of `stop()`, which may be called again |
| I2cLink.RunConcat | sim/i2c_shm/src/i2c_shm_link.cpp:154-172 | running two schedules one after the other is running their concatenation |
| I2cLinkSafety.NextKeeps | sim/i2c_shm/src/i2c_shm_link.cpp:125-311 | every step of every actor keeps the ownership and association invariant, up to the first deadline passed |
| I2cLinkSafety.OneOwner | sim/i2c_shm/src/i2c_shm_link.cpp:160-170 | in every reachable state at most one side is at an access to the unguarded fields, and the phase names it |
| I2cLinkSafety.CallsAreExecutions | sim/i2c_shm/src/i2c_shm_link.cpp:240-311 | a call that returns anything but a bus fault had exactly its arguments executed, in an execution no other call shares, and returns that execution's result and bytes |
| I2cLinkSafety.LogIsTheExecutions | sim/i2c_shm/src/i2c_shm_link.cpp:154-172 | the part has seen the postings executed one after the other, each at most once and in order, in the middle of one a front of its trace, and nothing else |
| I2cLinkSafety.RunWhole | sim/i2c_shm/src/i2c_shm_link.cpp:295-310 | deadlines or not, a successful call with a read buffer fills all it asked for |
| I2cLinkSafety.ClampIsIdle | sim/i2c_shm/src/i2c_shm_link.cpp:49-50 | on every schedule the clamp of the lengths truncates nothing |
| I2cLinkDirect.CallsAreDirect | sim/i2c_shm/src/i2c_shm_link.cpp:240-311 | without a deadline passed or a `stop()`, every call answers as if it had walked its transaction on the part itself, and the part has seen what those walks show it |
| I2cLinkAnswers.FaultsIffUnacceptable | sim/i2c_shm/src/i2c_shm_link.cpp:247-260 | without a deadline passed or a `stop()` a call faults exactly when a phase is longer than 256 bytes or there are bytes to write and no buffer to take them from |
| I2cLinkAnswers.UnacceptableIsRefused | sim/i2c_shm/src/i2c_shm_link.cpp:247-254 | on every schedule such a call faults, posts nothing and stores nothing |
| I2cLinkAnswers.CallsTell | sim/i2c_shm/src/i2c_shm_link.cpp:240-311 | up to the first deadline passed: the events of a call that did not fault are a transaction with its seven-bit address, its bytes and its read length; the result names the answer that ended it and the bytes stored are those the part drove |
| I2cLinkProgress.Completes | sim/i2c_shm/src/i2c_shm_link.cpp:154-172 | a posted transaction is published within a number of service steps linear in its lengths, however the controller's polling is interleaved |
| I2cLinkProgress.CompletionIsLinear | sim/i2c_shm/src/i2c_shm_link.cpp:154-172 | that number is at most write length + read length + 13 |
| I2cLinkProgress.ServiceNearer | sim/i2c_shm/src/i2c_shm_link.cpp:158-171 | every service step with work decreases the measure or publishes |
| I2cLinkProgress.WaitingHarmless | sim/i2c_shm/src/i2c_shm_link.cpp:273-293 | a controller waiting for work in service changes nothing |
| I2cLinkProgress.JoinEnds | sim/i2c_shm/src/i2c_shm_link.cpp:125-131 | once `stop()` has raised its flag the service thread is done within 525 of its steps, whatever is posted meanwhile |
| I2cLinkShutdown.AfterStop | sim/i2c_shm/src/i2c_shm_link.cpp:125-137 | after `stop()` has returned the part sees no bus event and every call begun since returns a bus fault, even one that overwrites the phase |
| I2cLinkShutdown.NotReadyIsForGood | sim/i2c_shm/src/i2c_shm_link.cpp:125-137 | once the ready flag is cleared, `stop()` having returned or not and whatever deadlines passed, the part sees no bus event and every call begun since returns a bus fault |
| I2cLinkShutdown.RunStopped | sim/i2c_shm/src/i2c_shm_link.cpp:125-137 | on every schedule: the service thread done before the ready flag is cleared, that before the shutdown phase, late calls never past waiting |
| I2cLinkShutdown.TransactionIndex | sim/i2c_shm/src/i2c_shm_link.cpp:167-170 | on every schedule `transaction_index` is the number of completed executions, modulo 2^64, and the part has seen that many STOPs |
| I2cLinkShutdown.ShutdownPhaseIsTerminalIff | sim/i2c_shm/src/i2c_shm_link.cpp:256-300 | the stored shutdown phase stays for good exactly when the controller is not between its look at the phase and its next store |
| I2cLinkShutdown.ShutdownPhaseOverwritten | sim/i2c_shm/src/i2c_shm_link.cpp:256-269 | a run on which a call posts over the shutdown phase |
| I2cLinkShutdown.FailsFast | sim/i2c_shm/src/i2c_shm_link.cpp:133-136 | a call that waits, or has yet to look, when the shutdown phase is stored fails at its next look and not at its deadline |
| I2cLinkShutdown.StoppedOnlyByStop | sim/i2c_shm/src/i2c_shm_link.cpp:125-137 | the ready flag, the stop flag and the phase say stopped only where `stop()` is called |
| I2cLinkShutdown.TimedOutOnlyAtADeadline | sim/i2c_shm/src/i2c_shm_link.cpp:284-291 | a call gives up only where its deadline passes |
| I2cLinkTimeout.GivingUpIsHarmlessIff | sim/i2c_shm/src/i2c_shm_link.cpp:284-291 | at the first deadline passed: on every schedule that follows every call is still answered by its own execution, exactly when the service thread has ended or is about to |
| I2cLinkTimeout.GivingUpBreaksAssociation | sim/i2c_shm/src/i2c_shm_link.cpp:284-291 | a run on which, after a call gave up, the next call is answered for it |
| I2cShmLink.Link.constructor | sim/i2c_shm/src/i2c_shm_link.cpp:114-123 | the state in which `start()` has returned |
| I2cShmLink.Link.Transaction | sim/i2c_shm/src/i2c_shm_link.cpp:240-311 | the call in place, other threads between any two accesses: again a state of some schedule, one call longer, with the returned result and the caller's buffer filled with its bytes |
| I2cShmLink.Link.Await | sim/i2c_shm/src/i2c_shm_link.cpp:273-293 | polls until complete, shut down or the deadline, which has passed only after that many further looks |
| I2cShmLink.Link.ServiceMove | sim/i2c_shm/src/i2c_shm_link.cpp:154-172 | a move of the service thread in place is its step |
| I2cShmLink.Link.StopperMove | sim/i2c_shm/src/i2c_shm_link.cpp:125-137 | a move of the stopping thread in place is its step |
| I2cShmLink.Link.PeripheralPresent | sim/i2c_shm/src/i2c_shm_link.cpp:315-318 | returns the ready flag |
| TcpFrame.DecodeEncoded | sim/i2c_shm/tools/i2c_shm_tcp_bridge.cpp:160-196 | whole requests decode to themselves, each consuming 5 + write length bytes, oversize or not: framing never slips |
| TcpFrame.EncodeDecoded | sim/i2c_shm/tools/i2c_shm_tcp_bridge.cpp:160-196 | every byte stream is its decoded requests and an incomplete rest: nothing is lost or invented |
| TcpFrame.FrontOfEncoded | sim/i2c_shm/tools/i2c_shm_tcp_bridge.cpp:165-167 | the little-endian header is read back as written |
| TcpFrame.HeaderReads | sim/i2c_shm/tools/i2c_shm_tcp_bridge.cpp:165-167 | address, then write and read length, each low byte first |
| TcpFrame.ClientReadsReplies | sim/i2c_shm/tools/i2c_shm_tcp_bridge.cpp:16-19 | the client recovers the replies from the bytes alone |
| TcpBridge.RecvExact | sim/i2c_shm/tools/i2c_shm_tcp_bridge.cpp:86-100 | exactly the next bytes of the stream, however chunked, or the client is gone |
| TcpBridge.SendAll | sim/i2c_shm/tools/i2c_shm_tcp_bridge.cpp:102-116 | all of the bytes, however chunked, or a prefix and an error |
| TcpBridge.Drain | sim/i2c_shm/tools/i2c_shm_tcp_bridge.cpp:120-133 | exactly that many bytes consumed |
| TcpBridge.ServeOversize | sim/i2c_shm/tools/i2c_shm_tcp_bridge.cpp:169-192 | an oversize request is consumed to its last byte, answered with a fault, and makes no call |
| TcpBridge.ServeTransaction | sim/i2c_shm/tools/i2c_shm_tcp_bridge.cpp:198-209 | one call on the bus with the request's arguments, its code and, if acknowledged, its bytes sent |
| TcpBridge.ServeClient | sim/i2c_shm/tools/i2c_shm_tcp_bridge.cpp:153-217 | the requests served are the first the stream decodes to, in order, each by one call or one fault, whatever error ends the session, and all of them if none does; what was sent is their replies, up to an error; gives the part up only after a fault and when it is not ready, and after one call at the latest once `stop()` has returned |
| TcpBridge.CodesAreApart | sim/i2c_shm/tools/i2c_shm_tcp_bridge.cpp:16-19 | the four results are sent as 0, 1, 2 and 3 |
| TcpBridge.GivenUpIsGone | sim/i2c_shm/tools/i2c_shm_tcp_bridge.cpp:211-215 | a part given up on sees nothing more and answers no further call, on any schedule |
| TcpEndToEnd.ServedIsDirect | sim/i2c_shm/tools/i2c_shm_tcp_bridge.cpp:153-217 | a session whose calls answered directly is, after any earlier ones that did, the session with neither TCP nor shared memory |
| TcpEndToEnd.DirectRepliesFit | sim/i2c_shm/tools/i2c_shm_tcp_bridge.cpp:16-19 | one reply per request, with data of the requested length exactly when acknowledged |
| TcpEndToEnd.DirectRepliesSay | sim/i2c_shm/tools/i2c_shm_tcp_bridge.cpp:16-19 | reply by reply: code 3 exactly when the request is over-long, and then no event; otherwise code 1 exactly when its events end with a refused START, 2 with a refused written byte, 0 in any other case, with the bytes the part drove |
| TcpEndToEnd.ServeClients | sim/i2c_shm/tools/i2c_shm_tcp_bridge.cpp:314-324 | end to end, over the accept loop: for every part, any number of clients, every byte stream, chunking and interleaving without deadline or `stop()`, and connections failing at any point: each client whose own connection did not fail reads the replies of walking its requests through the part after those served before it; one whose connection failed had a front of its requests served and was sent a front of their replies; the part has seen the served requests and nothing else; the loop ends early only when the part is gone for good |
| TcpEndToEnd.AllAskedIsServed | sim/i2c_shm/tools/i2c_shm_tcp_bridge.cpp:314-324 | if no connection failed, what was served is all that every client asked |
| TcpEndToEnd.ServeSession | sim/i2c_shm/tools/i2c_shm_tcp_bridge.cpp:153-217 | one client on a part just started, without error, deadline or `stop()`: it reads the replies of walking its requests through the part, and that is all the part has seen |
| Lockstep.MasterStep | sim/shm_bridge/src/shm_bridge.cpp:79-105 | no single access of the master's calls leads outside a frame |
| Lockstep.PlantStep | sim/shm_bridge/src/shm_bridge.cpp:107-127 | no single access of the plant's calls leads outside a frame |
| LockstepSafety.RunKeeps | sim/shm_bridge/src/shm_bridge.cpp:79-127 | every schedule on which both sides keep their turn keeps the hand-over invariant |
| LockstepSafety.LockstepHolds | sim/shm_bridge/src/shm_bridge.cpp:79-127 | both sides keeping their turn, with any number of timed-out waits, the k-th ready wait of either side returns the k-th posted frame, time and step, and the answer to that same step; at most one step outstanding |
| LockstepSafety.OneOwner | sim/shm_bridge/src/shm_bridge.cpp:79-127 | frames change hands whole: while one side copies the other is elsewhere |
| LockstepSafety.StepIndex | sim/shm_bridge/src/shm_bridge.cpp:85 | `step_index` counts the posts, modulo 2^64 |
| LockstepTurns.TurnIsExact | sim/shm_bridge/src/shm_bridge.cpp:79-127 | after any run in turn, a choice keeps the turn exactly when every continuation in turn is still in lockstep: the master not posting over an outstanding step, and the plant not asking again while it holds one unless shutdown was requested |
| LockstepTurns.PostingOverLosesAStep | sim/shm_bridge/src/shm_bridge.cpp:79-87 | a run on which the master posts over an outstanding step: the first step is lost and the plant takes the second for it |
| LockstepTurns.AskingAgainRepeatsAStep | sim/shm_bridge/src/shm_bridge.cpp:107-120 | a run on which the plant asks again while holding a step: it is handed the same one twice |
| LockstepProgress.AnswerComesInTime | sim/shm_bridge/src/shm_bridge.cpp:107-127 | a posted step is answered within 137 accesses of a plant that answers what it takes, however the master's polling is interleaved |
| LockstepProgress.StepCompletes | sim/shm_bridge/src/shm_bridge.cpp:89-127 | a posted step is answered within 137 accesses of the plant and the master's wait returns ready within 68 of its own after that, however they are interleaved |
| LockstepWaits.ShutdownOnlyIfRequested | sim/shm_bridge/src/shm_bridge.cpp:32-39 | no wait of either side says shutdown on a run on which nobody requested it |
| LockstepWaits.TimedOutOnlyAtADeadline | sim/shm_bridge/src/shm_bridge.cpp:32-39 | no wait says timed out on a run on which no deadline of its side passed |
| LockstepWaits.ReadyIsReceived | sim/shm_bridge/src/shm_bridge.cpp:89-120 | as many ready waits as frames received, and as steps taken |
| LockstepWaits.OneLook | sim/shm_bridge/src/shm_bridge.cpp:20-42 | a wait ends at its first look at what it waits for, at shutdown or at a look after its deadline, and says which; otherwise it goes on |
| LockstepShutdown.ShutdownBetweenStepsIsFinal | sim/shm_bridge/src/shm_bridge.cpp:20-42 | requested between steps, both sides having kept their turn, and nothing posted after: the phase is never overwritten and every wait that returns says shutdown |
| LockstepShutdown.ShutdownIsFinalIff | sim/shm_bridge/src/shm_bridge.cpp:102-127 | without further posts, shutdown is final exactly when the plant is not taking or answering a step at the request |
| LockstepShutdown.ShutdownMidStepIsOverwritten | sim/shm_bridge/src/shm_bridge.cpp:122-127 | a run on which the answer overwrites the shutdown phase |
| ShmBridge.CallsInLockstep | sim/shm_bridge/src/shm_bridge.cpp:79-127 | the object's calls are in lockstep as long as both sides have kept their turn |
| ShmBridge.Bridge.PostInputs | sim/shm_bridge/src/shm_bridge.cpp:79-87 | the call in place, step outstanding or not: one more step posted, a state of some schedule |
| ShmBridge.Bridge.WaitForOutputs | sim/shm_bridge/src/shm_bridge.cpp:89-100 | the call in place: ready with the frame received, or nothing received |
| ShmBridge.Bridge.RequestShutdown | sim/shm_bridge/src/shm_bridge.cpp:102-105 | the shutdown phase is stored |
| ShmBridge.Bridge.WaitForInputs | sim/shm_bridge/src/shm_bridge.cpp:107-120 | the call in place, by a plant that may hold a step: ready with the step taken, or nothing taken |
| ShmBridge.Bridge.PostOutputs | sim/shm_bridge/src/shm_bridge.cpp:122-127 | the call in place: the held step answered |
| ShmBridge.Bridge.SpinForOutputs | sim/shm_bridge/src/shm_bridge.cpp:20-42 | ready, shutdown or timed out, as the last look at the phase showed, and timed out only after the given number of further looks |
| ShmBridge.Bridge.SpinForInputs | sim/shm_bridge/src/shm_bridge.cpp:20-42 | ready, shutdown or timed out, as the last look at the phase showed, and timed out only after the given number of further looks |
| WatchdogModel.WrapIsHarmless | modules/fault/src/watchdog.cpp:40-98 | for runs of any length and duration on whose steps no counter of a channel not yet expired overflows, the 32-bit supervisor returns what one with unbounded counters returns, with the same verdicts |
| WatchdogModel.WrapIsHarmlessIff | modules/fault/src/watchdog.cpp:72-92 | that condition is exact: the verdicts are the same through the whole run if and only if it holds |
| WatchdogModel.BoundedStepsFit | modules/fault/src/watchdog.cpp:81-85 | dt + timeout <= 2^32 on every step, for every channel, is enough |
| WatchdogModel.BoundIsExact | modules/fault/src/watchdog.cpp:72-92 | that bound is the best possible: of a channel silent up to the last moment and then for dt, the 32-bit supervisor reports what the unbounded one does exactly when dt + timeout <= 2^32 |
| WatchdogModel.ExpiredIffOverdue | modules/fault/src/watchdog.cpp:94-98 | a channel is expired exactly when, at the last step, it has been silent for its timeout in total time since its last kick or registration |
| WatchdogModel.StatusIffSomeOverdue | modules/fault/src/watchdog.cpp:72-92 | `step` reports expiry exactly when some channel is overdue |
| WatchdogModel.VerdictIsItsOwn | modules/fault/src/watchdog.cpp:40-98 | on either clock and with any steps, a run without the other channels' kicks leaves every id in its slot and the channel itself, counter and latch included, as it is |
| WatchdogModel.ExpiryIsItsOwn | modules/fault/src/watchdog.cpp:94-98 | so no other channel's kick changes what `is_expired` finds |
| WatchdogModel.RunWatched | modules/fault/src/watchdog.cpp:40-92 | the channels are exactly the registered ids, each once, each as its own time line says |
| WatchdogModel.KickReply | modules/fault/src/watchdog.cpp:60-70 | on either clock, no error for a registered id and kUnknownId for any other |
| WatchdogModel.RegisterReply | modules/fault/src/watchdog.cpp:40-58 | on either clock, kDuplicateId for a registered id, otherwise kRegistryFull exactly when eight are, otherwise no error |
| Watchdog.WatchdogSupervisor.RegisterChannel | modules/fault/src/watchdog.cpp:40-58 | in place: the next channel or the error, as the history of registrations says |
| Watchdog.WatchdogSupervisor.Kick | modules/fault/src/watchdog.cpp:60-70 | in place: silence and latch cleared, or unknown, as the history of registrations says |
| Watchdog.WatchdogSupervisor.Step | modules/fault/src/watchdog.cpp:72-92 | in place: every channel advanced, expiry reported |
| Watchdog.WatchdogSupervisor.Find | modules/fault/src/watchdog.cpp:16-38 | the slot that holds the id, or none |
| Watchdog.WatchdogSupervisor.IsExpired | modules/fault/src/watchdog.cpp:94-98 | if no step overflowed the counter of a channel not yet expired, exactly whether the channel is overdue |
| SequencerModel.RunKeepsValid | modules/power/src/regulator_sequencer.cpp:62-86 | index < rail count <= kMaxRails while enabling, over every run |
| SequencerModel.StepsAreAbsorbed | modules/power/src/regulator_sequencer.cpp:64-67 | complete, faulted and idle absorb every step |
| SequencerModel.PhaseIsItsHistory | modules/power/src/regulator_sequencer.cpp:62-86 | from the inputs alone: faulted exactly when some rail was silent beyond the timeout before all had confirmed, complete exactly when all confirmed in time, else waiting for the next rail in order |
| SequencerModel.WrapIsHarmless | modules/power/src/regulator_sequencer.cpp:80 | if no step overflows the counter while enabling, the 32-bit sequencer is the unbounded one |
| SequencerModel.WrapIsHarmlessIff | modules/power/src/regulator_sequencer.cpp:62-86 | that condition is exact: the phases are the same through the whole run if and only if it holds |
| SequencerModel.BoundedStepsFit | modules/power/src/regulator_sequencer.cpp:80 | dt + timeout < 2^32 on every accumulating step is enough |
| SequencerModel.BoundIsExact | modules/power/src/regulator_sequencer.cpp:80-84 | at the bound a late rail goes unnoticed: exactly dt + timeout < 2^32 prevents it |
| SequencerModel.WrappingPhaseIsItsHistory | modules/power/src/regulator_sequencer.cpp:62-86 | both together, for the code as it is |
| SequencerModel.FaultKeepsTheRail | modules/power/src/regulator_sequencer.cpp:80-84 | a faulted sequencer points at the rail that was late first |
| SequencerModel.EnablingEnds | modules/power/src/regulator_sequencer.cpp:62-86 | with every step taking time, enabling is over within rail count * (timeout + 1) steps |
| SequencerModel.BoundIsReached | modules/power/src/regulator_sequencer.cpp:62-86 | one step short of that it can still be enabling |
| RegulatorSequencer.Regulator.Configure | modules/power/src/regulator_sequencer.cpp:16-43 | in place: the ids copied and the sequence reset, or the error and no change; a null pointer with an accepted count is read |
| RegulatorSequencer.Regulator.Start | modules/power/src/regulator_sequencer.cpp:45-60 | in place: enabling from the first rail, or the error the header lists and no change; in the middle of a sequence always the latter |
| RegulatorSequencer.Regulator.StepOnce | modules/power/src/regulator_sequencer.cpp:62-86 | in place: the 32-bit step, one more in the history of calls, keeping what every operation keeps |
| RegulatorSequencer.PhaseOfRegulator | modules/power/src/regulator_sequencer.cpp:62-86 | after any history of calls none of whose sequences overflowed: the rails are those last configured while nothing ran, and the phase is what the steps since the last start made while nothing ran say |
| SequencerHistory.HistoryAgrees | modules/power/src/regulator_sequencer.cpp:16-86 | neither `configure` nor `start` disturbs a running sequence; the state is that of the last start made while nothing ran and the steps since |
| SequencerHistory.StartAnswersAsListed | modules/power/src/regulator_sequencer.cpp:45-60 | `start` returns the error the header lists, kAlreadyRunning exactly while a sequence runs and kNoRails exactly before any accepted configuration, and none where it lists none |
| SequencerHistory.StartsAgain | modules/power/src/regulator_sequencer.cpp:51-54 | a second start after the first rail has confirmed does not go back to it |
| SequencerModel.NullIdsSlipThroughIff | modules/power/include/hemerion/power/regulator_sequencer.h:29-35 | `configure` returns an error the header lists, or none where it lists none, exactly unless the pointer is null, nothing is running and the count is 1 to 8; while a sequence runs it is kAlreadyRunning |
| SequencerModel.NullIdsSlipThrough | modules/power/src/regulator_sequencer.cpp:16-43 | a call that returns no error where the header lists kNoRails: the first one on a fresh sequencer, with a null pointer and one rail |
| SequencerModel.FirstRailIff | modules/power/include/hemerion/power/regulator_sequencer.h:88-94 | on every run: the rail to enable while enabling; otherwise the first rail, as promised, exactly when it is not faulted or the late rail has the first one's id |
| SequencerModel.LateSecondRail | modules/power/include/hemerion/power/regulator_sequencer.h:88-94 | a run after which the promise fails: the second rail is late |
| RegulatorSequencer.Regulator.CurrentRailId | modules/power/include/hemerion/power/regulator_sequencer.h:88-94 | the rail being enabled or the one that was late, otherwise the first |
| DerivedSeed.Derive | examples/f16_trim_ecos/cosim_host_main.cpp:202-217 | the assignments in place compute the modelled seed |
| DerivedSeed.MixIsABijection | examples/f16_trim_ecos/cosim_host_main.cpp:210-214 | the 64-bit mixing has an inverse on both sides |
| DerivedSeed.StatesAreApart | examples/f16_trim_ecos/cosim_host_main.cpp:208-214 | distinct sensors of a run, and distinct runs for a sensor, have distinct 64-bit states |
| DerivedSeed.WidenedValue | examples/f16_trim_ecos/cosim_host_main.cpp:208-209 | a run seed or sensor index enters with its value modulo 2^64, a negative one sign-extended |
| DerivedSeed.SeedRange | examples/f16_trim_ecos/cosim_host_main.cpp:204-216 | between 1 and 2147483646, and 0 only for run seed 0 |
| DerivedSeed.SeedsCollideIff | examples/f16_trim_ecos/cosim_host_main.cpp:191-216 | two sensors share a seed exactly when their states differ by a non-zero multiple of the limit |
| DerivedSeed.SeedsAreBalanced | examples/f16_trim_ecos/cosim_host_main.cpp:208-216 | every seed from 1 to 2147483646 is reached from exactly 8589934600 or 8589934601 different 64-bit states |
| DerivedSeed.SeedsCanCollide | examples/f16_trim_ecos/cosim_host_main.cpp:191-216 | a run seed for which two sensors share one |
| FixTimes.ConventionIndependent | examples/f16_trim_ecos/plot_results.py:157-174 | stamps (index - 1 + L) * p, any integer L, any gaps: the result is (index - 1) * p |
| FixTimes.Idempotent | examples/f16_trim_ecos/plot_results.py:157-174 | normalising twice is normalising once, on every log |
| FixTimes.NormalisedToTheNearest | examples/f16_trim_ecos/plot_results.py:170-174 | on any log with a positive mean step: that step is taken off a whole number of times, leaving the first stamp at most half a step off its epoch; midway, an even number |
| FixTimes.KeptWithoutAPeriod | examples/f16_trim_ecos/plot_results.py:168-172 | any other log is left alone |
| FixTimes.ShiftsDisappearIff | examples/f16_trim_ecos/plot_results.py:170-174 | on every log, a shift by whole periods disappears exactly unless it is odd and the first stamp lies midway between epochs |
| OutageReader.ReadGaps | examples/f16_trim_ecos/plot_results.py:262-279 | the loop returns one window for each maximal run of silent rows |
| OutageReader.GapsInValidityTimes | examples/f16_trim_ecos/plot_results.py:242-279 | for increasing indices, any of them missing, and stamps (index - 1 + L) * p, any integer L: window i runs from (first index - 1) * p to (last index - 1) * p plus the least index step times p |
| OutageReader.GapsInOwnTimes | examples/f16_trim_ecos/plot_results.py:262-279 | without an index column, or with a single row, the windows are in the rows' own times |
| OutageReader.ScanRows | examples/f16_trim_ecos/plot_results.py:266-278 | the loop, for any times and step: one window for each maximal run of silent rows |
| OutageReader.RunsOfAreRuns | examples/f16_trim_ecos/plot_results.py:266-278 | the runs are maximal, in order, apart, and cover every silent row |
| OutageReader.RunsAreUnique | examples/f16_trim_ecos/plot_results.py:266-278 | and no other list of runs is |
| OutageReader.InsideIffSilent | examples/f16_trim_ecos/plot_results.py:242-279 | for increasing times, an epoch lies in a half-open window exactly when it carried no measurement |
| OutageReader.WindowsAreApart | examples/f16_trim_ecos/plot_results.py:242-279 | for increasing times the windows are non-empty, in order and do not touch |
| OutageReader.MinStep | examples/f16_trim_ecos/plot_results.py:265 | the smallest step of the log, attained, or 0.1 |
| FlightComputer.GpsLog.constructor | examples/f16_trim_ecos/f16_flight_computer.cpp:761-779 | nothing decoded yet |
| FlightComputer.GpsLog.FeedGps | examples/f16_trim_ecos/f16_flight_computer.cpp:805-883 | after any bytes: one row per epoch, numbered and stamped, counts that add up, and the first and last outage times of the lost epochs |
| FlightComputer.RowOfEpoch | examples/f16_trim_ecos/f16_flight_computer.cpp:829-866 | row by row: numbered from 1, stamped (index - 1) * period, and the fix type's value in the enumeration |
| FlightComputer.CountsAreExact | examples/f16_trim_ecos/f16_flight_computer.cpp:812-882 | the counted checksum errors are the mismatches among the fed bytes' results, the fixes that are not valid the epochs without one |
| FlightComputer.GapsOfLog | examples/f16_trim_ecos/f16_flight_computer.cpp:829-866 | the reader keeps the writer's stamps and finds the maximal runs of lost epochs |
| FlightComputer.ReaderAgreesWithWriter | examples/f16_trim_ecos/f16_flight_computer.cpp:841-848 | last window end = last outage time + one step; first window start = first outage time exactly when the period is not negative, or the first epoch was lost, or only one was |
| FlightComputer.NegativePeriodForgets | examples/f16_trim_ecos/f16_flight_computer.cpp:841-848 | a log on which the first outage time is not the first window's start |
| FlightComputer.WindowIffLost | examples/f16_trim_ecos/plot_results.py:269-278 | a window is found exactly when an epoch was lost |
| FlightComputer.OutageTimeIsConserved | examples/f16_trim_ecos/plot_results.py:265-278 | the windows are together as long as the lost epochs |
| FlightComputer.SummaryAgreesWithReader | examples/f16_trim_ecos/f16_flight_computer.cpp:1169-1177 | the printed counts and times against the windows read back |
| Interpolation.Interpolate | examples/f16_trim_ecos/plot_results.py:586-611 | the search ends on a segment around t on any times, so it never divides by an empty span; on sorted times it returns what the linear scan returns |
| Interpolation.ExactAtSamples | examples/f16_trim_ecos/plot_results.py:596-611 | a kept sample is returned at its own time |
| Interpolation.ExactWhenIncreasing | examples/f16_trim_ecos/plot_results.py:596-611 | on strictly increasing times every sample is returned at its own time |
| Interpolation.OnlyKeptSamplesAreExact | examples/f16_trim_ecos/plot_results.py:596-611 | of samples that share a time exactly one is returned: the first at the start, otherwise the last |
| Interpolation.StaysBetween | examples/f16_trim_ecos/plot_results.py:607-611 | between two samples the result lies between their values |
| Interpolation.Monotone | examples/f16_trim_ecos/plot_results.py:586-611 | rising values give a rising function of t |
| Interpolation.LineIsReproduced | examples/f16_trim_ecos/plot_results.py:586-611 | a log of a straight line is read back as that line, clamped |
| Pacing.Pace | sim/i2c_shm/tools/bmp390_shm_peripheral.cpp:134-185 | the loop latches what the turns say, up to the first turn at which a stop was requested or the duration had passed |
| Pacing.TurnLatchesExactly | sim/i2c_shm/tools/bmp390_shm_peripheral.cpp:144-171 | each turn latches a forced conversion if one was asked for and then the scheduled one if one is due, stamped with the whole microseconds from the start to that turn |
| Pacing.ForcedAreLatched | sim/i2c_shm/tools/bmp390_shm_peripheral.cpp:147-151 | as many forced conversions latched as asked for, awake or asleep |
| Pacing.PeriodInSeconds | sim/i2c_shm/tools/bmp390_shm_peripheral.cpp:160 | the part's period is in microseconds |
| Pacing.TimeIsConserved | sim/i2c_shm/tools/bmp390_shm_peripheral.cpp:153-171 | over a stretch with one period, time = (latched + dropped) * period + residual and the residual is the remainder, whatever the lengths of the turns |
| Pacing.TimeIsConservedThroughout | sim/i2c_shm/tools/bmp390_shm_peripheral.cpp:153-171 | over any run, with changing periods and sleep: the time passed is what the turns take off, each completed period of a turn a conversion latched (at most one) or dropped and all time found asleep, and the residual |
| Pacing.LatchedIffDue | sim/i2c_shm/tools/bmp390_shm_peripheral.cpp:165-170 | a conversion is latched in a turn exactly when another whole period has completed |
| Pacing.NothingDroppedIff | sim/i2c_shm/tools/bmp390_shm_peripheral.cpp:162-170 | nothing is dropped exactly when every turn finds less than two periods: the residual before it and the time since |
| Pacing.PromptTurnsDropNothing | sim/i2c_shm/tools/bmp390_shm_peripheral.cpp:162-170 | turns no longer than a period drop nothing |
| Pacing.ResidualBelowPeriod | sim/i2c_shm/tools/bmp390_shm_peripheral.cpp:153-171 | over any run, also with changing periods: never negative, below the period of the turn, zero asleep |

## Left out

- Weak memory: the acquire and release orders are modelled as sequentially consistent.
- `interrupt_line`: `stop()` clears it and nothing in the transaction protocol reads it.
- `create`, `attach`, `attach_within`, `open_peer`, destructors and moves: set-up of shared memory, not protocol.
- Restart of a part after `stop()`, and more than one controller on a bus, which the design rules out.
- Calls after a deadline has passed on the I2C bus: the source declares the bus out of contract there. What still holds on every schedule is stated without that bound (`AfterStop`, `NotReadyIsForGood`, `TransactionIndex`, `JoinEnds`, `RunWhole`, `ClampIsIdle`), and `GivingUpIsHarmlessIff` says when the association survives.
- A plant that posts outputs for a step it does not hold, or no longer holds because it asked again: there is no step for it to answer, and the header assigns that transition to a plant that has taken one.
- What else can follow once a side of the lockstep bridge has not kept its turn: `TurnIsExact` says only that the lockstep can be lost.
- What reading through a null pointer does: undefined in the source, here the end of `configure`.
- Sockets, signals, threads, clocks and file formats: `recv` and `send` are arbitrary chunks or errors, deadlines and wake times are inputs, log rows are records.
- The back-off sleeps of the spin loops, which change no shared state.
- Rounding of double arithmetic: `FixTimes`, `OutageReader`, `FlightComputer`, `Interpolation` and `Pacing` compute with exact reals.
- The sensor drivers, parsers and register models (BMP390, MMC5983MA, IMU, GPS, radar altimeter): a part is arbitrary, and a fed byte's result is an input.
- The measurement columns and extrema of the flight computer's logs, and the IMU, barometer, magnetometer and altimeter logs beside the GPS one: single assignments.
- Missing files, missing columns and half-written rows in the log readers: they return early or filter, and would only add easy members.
- `fault_registry.cpp`, `task_registry.cpp`, `queue_registry.cpp`, `can_frame.cpp` and `battery_monitor.cpp`: single look-ups and one-branch checks.
- Co-simulation wiring, plotting, trajectory checks and atmosphere and geodesy formulas: input and output, external libraries or transcendental floating point.
