# Fluvio Future: verified models of its stateful cores

Fluvio Future is mostly thin wrappers over executors, files and TLS libraries.
Four parts of it hold state whose correctness ranges over schedules, runs or all
inputs, and these are modelled and proved here:

- **Zero copy** (`Sendfile`, `CopyLoops`, `CopyTheorems`, `ZeroCopy`, `FileSlices`,
  `SliceTheorems`, `BoundedSink`, `BoundedFiles`): the `sendfile` loops of Linux and
  macOS, the slices handed to them and the bounded file sink that produces them.
- **Doomsday watchdog** (`Doomsday`, `DoomsdayTimers`): the timer loop and clones that
  reset, defuse and explode it, as an interleaved step machine.
- **Retry and backoff** (`Backoff`, `Retry`): the delay iterators and the retry loop.
- **Poll-to-blocking TLS bridge** (`TlsBridge`, `TlsTheorems`, `TlsObjects`): the
  handshake future, the wrapper that lends a poll's context to a synchronous engine,
  and the stream.

Each core has a specification on values (a state, a step, a run) about which the
theorems are proved for every run. Where the source updates an object or loops, a
class or method does the same and is proved equal to that specification.

## Environment

- *Kernel.* A schedule gives, for each `sendfile` call, what was appended to the file
  before it and whether it transfers, would block or fails. A successful call moves at
  least one byte unless none is asked for or left; on macOS a call that would block or
  fails may have moved some bytes, one that would block fewer than asked, and a length
  of zero means "up to the end of the file". No file is longer than `off_t` can say. A
  call on a descriptor not open for reading fails with EBADF, and one with a negative
  offset, a negative length, or on Linux a range that ends beyond what `off_t` can say,
  with EINVAL. A schedule may end before the loop does.
- *Clock.* Natural numbers that only grow; a sleep lasts at least its duration.
- *TLS engine.* Any function of what the transport has told it so far in this
  invocation, making finitely many calls. *Transport.* Any sequence of answers.
- *Integers.* `u64` arithmetic wraps, as in a release build (a build with overflow
  checks panics instead), and `usize` is 64 bits wide.

## Where the code is not what one would expect

- `BoundedFileSink::create` opens its file for writing only (`src/fs/bounded.rs:73`,
  `src/fs/mod.rs:23`), so a slice of such a sink can never be copied:
  `CreatedSinkCannotBeCopied`, and `SinkCopyReturnsIff` for the exact condition.
- `as_slice` refuses an explicit length that ends exactly at the end of the file, and
  accepts one whose end wraps around. No copy of such a wrapped slice returns, so those
  that do return are complete all the same: `AsSliceAcceptsIff`, `AcceptedSliceCopiesInFull`.
- `can_be_appended` is wrong when current length plus buffer wraps, and the bound is then
  broken: `CanBeAppendedIsRightIff`, `BoundIsKeptIff`.
- On macOS an empty slice sends the rest of the file: `MacEmptySliceAgreesIff`,
  `MacAcceptedSliceCopiesInFullIff`.
- A watchdog attended "at least every `duration`", as its documentation puts it, can
  explode when a reset stores late: the attention gap and the store lag together must
  fit in the duration, and no weaker condition will do: `WatchdogIsSafeIff`.
- A loop that wakes exactly at the deadline neither explodes nor sleeps, and spins
  while that instant lasts: `WakingAtTheDeadlineSpins`.
- A transport that answers ready-with-WouldBlock can lose a wakeup: `LosesWakeupIff`.

## Model

| member | source | states |
|---|---|---|
| Sendfile.EveryLegalTransferIsScheduled | src/zero_copy.rs:73-79 | for a range `off_t` can say, the amounts a successful call may report under its contract are exactly those some schedule produces, so "every schedule" is every kernel |
| Sendfile.EveryLegalMacTransferIsScheduled | src/zero_copy.rs:140-152 | the same for macOS, for what a call moved and for what it moved before it would block |
| Sendfile.AppendsLand | src/zero_copy.rs:65-78 | appends that fit reach the file whole and in order |
| CopyLoops.LinuxLoopMeetsSpec | src/zero_copy.rs:65-116 | from any faithful loop state: the target holds the file from `position` on, total stays within the slice and the file, a return carries exactly min(size, available at the last call), and calls are paid for by bytes, EAGAINs or the last one |
| CopyLoops.MacLoopMeetsSpec | src/zero_copy.rs:132-179 | the macOS loop, counting bytes moved on EAGAIN and on errors too, meets the same specification for every nonempty slice |
| CopyTheorems.CopyDuringAppends | src/zero_copy.rs:58-117 | while the file only grows, by every append that fits and in order, the target receives final_file[position..position+total]; a successful total is exactly min(size, bytes available at the last call), hence between what was there at the start and at the end |
| CopyTheorems.ScheduleIndependence | src/zero_copy.rs:58-117 | on a fixed file any two successful copies agree in bytes and count, k = min(size, bytes to EOF); every other run has delivered a prefix of them |
| CopyTheorems.PlatformAgreement | src/zero_copy.rs:123-180 | Linux and macOS deliver the same bytes and count for every nonempty slice and all pairs of schedules |
| CopyTheorems.MacEmptySliceAgreesIff | src/zero_copy.rs:133-168 | on an empty slice macOS returns zero under every schedule if and only if nothing follows the position |
| CopyTheorems.CallsAreBounded | src/zero_copy.rs:59-116 | calls <= bytes transferred + EAGAIN replies + 1, and without the 1 when the slice is filled, with offset = position + total and total within the slice; an unfinished run has used its whole schedule on bytes and EAGAINs |
| CopyTheorems.CopyReturns | src/zero_copy.rs:65-116 | without errors, for a slice ending where `off_t` can say, a schedule with more calls than slice length plus EAGAIN replies makes the copy return |
| CopyTheorems.CopyCanReturnIff | src/zero_copy.rs:56-116 | some copy of a slice returns if and only if the file is open for reading and the slice ends where `off_t` can say, inside the file or not |
| CopyTheorems.CopyFailsIff | src/zero_copy.rs:102-114 | a copy fails at its first call on a file not open for reading or a range `off_t` cannot say; otherwise if and only if the last call made was answered with an error, with that very error, and no earlier one was |
| CopyTheorems.MacCopyDuringAppends | src/zero_copy.rs:123-180 | the macOS copy of a nonempty slice while the file grows: same bytes, same exact total, same bound on calls |
| CopyTheorems.MacCopyReturns | src/zero_copy.rs:132-179 | the same for the macOS loop |
| CopyTheorems.MacCopyFailsIff | src/zero_copy.rs:169-177 | the same for the macOS loop and a nonempty slice |
| ZeroCopy.Host.CopySliceLinux | src/zero_copy.rs:58-117 | the imperative Linux loop returns, sends and leaves exactly what its specification run says |
| ZeroCopy.Host.CopySliceMac | src/zero_copy.rs:123-180 | the imperative macOS loop, casts and wrapping included, does the same |
| SliceTheorems.AsSliceAcceptsIff | src/fs/extension.rs:54-76 | when an explicit length is accepted, in both directions; one that ends exactly at EOF is refused |
| SliceTheorems.AcceptedSliceIsTheOneAsked | src/fs/extension.rs:62-76 | an accepted slice has the descriptor, the position and the length asked for, or the length up to the end |
| SliceTheorems.AcceptedSliceCopiesInFull | src/fs/extension.rs:49-77 | every returning copy of an accepted slice of an unchanged file has sent exactly the desired length from the position, or the whole suffix; some copy returns if and only if the requested end does not wrap, which is when the slice lies inside the file |
| SliceTheorems.MacAcceptedSliceCopiesInFullIff | src/fs/extension.rs:49-77 | on macOS every returning copy of an accepted slice has sent exactly what was asked for if and only if that is not zero bytes, and then some copy returns if and only if the end does not wrap |
| BoundedSink.CanBeAppendedIsRightIff | src/fs/bounded.rs:125-130 | a call answers current + buffer <= max if and only if that sum does not wrap, or wraps to more than max; with the current length within the bound, if and only if it does not wrap |
| BoundedSink.RunConserves | src/fs/bounded.rs:151-172 | in every run of checks, polls, errors and background writes, file followed by buffer is the first contents followed by all accepted bytes, and the counter counts them |
| BoundedSink.BoundIsKeptIff | src/fs/bounded.rs:125-172 | with one check per whole buffer, counted length plus what remains of the buffer is within max_len at every point of a run, partial writes, pending polls and errors included, if and only if no checked sum wraps |
| BoundedSink.OpenedSinkKeepsTheBoundIff | src/fs/bounded.rs:68-117 | so for a sink from `create`, and for one from `open_append` whose first length is within max_len |
| BoundedSink.PollsConsumeTheBuffer | src/fs/bounded.rs:151-172 | through any polls, what was accepted followed by what remains of the buffer is always the same bytes |
| BoundedSink.FlushEmptiesTheBuffer | src/fs/bounded.rs:174-176 | a flushed state can be reached from every run whose bytes the file can hold |
| BoundedSink.AppendToSocketRoundTrip | src/fs/bounded.rs:145-172 | for a flushed sink from `open_append`, a copy of `slice_from(p, n)` that returns delivers bytes p..p+n of the first contents followed by all accepted writes, under every schedule and further appends; and it does return |
| BoundedSink.MacAppendToSocketRoundTrip | src/fs/bounded.rs:145-172 | the same round trip through the macOS loop, for a nonempty range |
| BoundedSink.CreatedSinkCannotBeCopied | src/fs/bounded.rs:68-80 | for a sink from `create` every copy fails at its first call and delivers nothing |
| BoundedSink.SinkCopyReturnsIff | src/fs/bounded.rs:100-117 | some copy of a range on disk returns if and only if the sink's file is open for reading |
| BoundedFiles.BoundedFileSink.PollWrite | src/fs/bounded.rs:151-172 | the object's poll_write is the specified step: nothing changes on pending or error, and an accepted prefix is buffered and counted |
| BoundedFiles.BoundedFileSink.Append | src/fs/bounded.rs:125-172 | check once, then poll: an error, and only an error, ends it early; what is accepted is exactly the prefix the replies up to there took, counted with wrapping; when the checked sum does not wrap, begun exactly when the buffer fits, and the bound holds after any replies |
| Doomsday.WatchdogIsSafe | src/doomsday.rs:58-80 | if every reset stores within `lag` of its sample and at every instant some stored reset started within the last `window`, with window + lag <= duration, no interleaving explodes |
| Doomsday.WatchdogIsSafeIff | src/doomsday.rs:58-80 | that condition is exact: otherwise (unless the window is zero) there is an attended run that explodes, the deadline taken back by a late store where the lag allows one |
| Doomsday.ExplodesIff | src/doomsday.rs:44-75 | a run explodes if and only if at some point the loop reads the deadline with a sample later than the last stored sample, or the spawn, plus the duration |
| Doomsday.DeadlineIsLastStored | src/doomsday.rs:59-60 | the deadline is always the last stored sample plus the duration |
| Doomsday.TurnToTheInstant | src/doomsday.rs:66-78 | one whole turn, timed: it explodes, is back at its check, or is still asleep for exactly what is left, by when the deadline was at the sample and how long it had from the read |
| Doomsday.WatchdogProgress | src/doomsday.rs:64-80 | in every run at most one sleep completes for the spawn, one per reset store and one per sleep that ended exactly at its deadline; a sleep never reaches back before its deadline, and a loop with none left explodes in its next turn |
| Doomsday.PromptWatchdogProgress | src/doomsday.rs:64-80 | so when sleeps end strictly after their deadline, at most 1 + (reset stores) complete |
| Doomsday.WakingAtTheDeadlineSpins | src/doomsday.rs:70-78 | exact wakes do cost: at the deadline the loop completes any number of sleeps in one instant without a store |
| Doomsday.DefuseIsPermanentIff | src/doomsday.rs:64-101 | from a defused state of any run the loop can still explode if and only if it already has or is past its check with a sample, present or to come, that can be late for the current or an in-flight deadline |
| Doomsday.DefusedIff | src/doomsday.rs:98-101 | while the process lives the timer is defused if and only if some clone defused it |
| Doomsday.CheckAfterDefuseReturns | src/doomsday.rs:65-69 | after a defuse that finds the loop before its check or asleep, no other sleep starts and the first check it comes to returns |
| Doomsday.ExitsIff | src/doomsday.rs:82-96 | the process exits if and only if the timer is aggressive and exploded, by timeout or by hand; otherwise an explosion only panics its caller and the others go on |
| DoomsdayTimers.DoomsdayTimer.FinishReset | src/doomsday.rs:58-62 | storing a reset is the specified step, with the deadline of its own sample |
| DoomsdayTimers.DoomsdayTimer.Others | src/doomsday.rs:58-101 | any stretch of resets, defuses, manual explosions and passing time leaves the shared state the step machine says, recorded in order, and the loop where it was |
| DoomsdayTimers.DoomsdayTimer.ReadDeadline | src/doomsday.rs:70-78 | explodes exactly when the sample is past the deadline read, and otherwise starts the sleep, without underflow |
| DoomsdayTimers.DoomsdayTimer.TakeTurn | src/doomsday.rs:66-78 | one turn makes its check, sample, read and sleep in order, each after what the others do before it, or stops at a prefix of that |
| DoomsdayTimers.DoomsdayTimer.MainLoop | src/doomsday.rs:64-80 | the loop woven with anything the others do is exactly the weave of its turns as a run of the step machine, or a prefix when it ended; started defused it returns at its first check |
| Backoff.FibonacciClosedForm | src/retry.rs:189-231 | the k-th delay is min(cap, MAX, F(k+1)·d) for every first delay, cap and k, and delays never decrease |
| Backoff.FibonacciTotal | src/retry.rs:215-230 | n uncapped retries sleep (F(n+2) - 1)·d in all if and only if the last does not saturate; under a cap at most n caps |
| Backoff.ExponentialClosedForm | src/retry.rs:250-282 | the k-th delay is min(cap, min(2^64 - 1, b^(k+1)) ms) for every base, cap and k, and delays never decrease |
| Backoff.ExponentialTotal | src/retry.rs:268-281 | (b - 1)·S = b^(n+1) - b for the uncapped total S in milliseconds if and only if the last delay does not saturate; under a cap at most n caps |
| Retry.FixedDelay.Take | src/retry.rs:164-170 | every delay is the fixed one |
| Retry.FibonacciBackoff.Next | src/retry.rs:215-230 | the mutable iterator takes the specified step |
| Retry.FibonacciBackoff.Take | src/retry.rs:212-231 | n calls yield the specified delays, whatever state it starts in |
| Retry.ExponentialBackoff.Next | src/retry.rs:268-281 | the mutable iterator takes the specified step |
| Retry.ExponentialBackoff.Take | src/retry.rs:265-282 | n calls yield the specified delays, whatever state it starts in |
| Retry.RetryWatched | src/retry.rs:109-130 | under any strategy, even an endless one, watched for any number of attempts: it has returned exactly at the first attempt that succeeds, fails with an error the condition refuses, or has no delay after it; attempts are one more than delays slept, those are the first in order, and each attempt starts when the one before it and the sleep between are over |
| Retry.RetryIf | src/retry.rs:109-130 | with k the least index whose outcome is Ok or not retryable (n if none): k + 1 attempts, exactly the first k delays slept in order, outcome k returned, and attempt j not before the sum of the first j delays |
| Retry.RetryAny | src/retry.rs:71-79 | `retry` stops at the first success, or at the last attempt |
| Retry.RetryEndsIff | src/retry.rs:117-129 | under any strategy the loop ends if and only if some outcome ends it or the strategy runs out; under an infinite one, if and only if some outcome does |
| Retry.FiniteStrategyEnds | src/retry.rs:117-129 | under n delays the loop ends within n + 1 attempts, at the least index that stops it or at n |
| Retry.RetryWithFibonacci | src/retry.rs:109-130 | the loop fed by the Fibonacci iterator sleeps the series, and giving up costs its closed sum |
| Retry.RetryWithExponential | src/retry.rs:109-130 | the loop fed by the exponential iterator, likewise |
| TlsBridge.InvokeKeepsContext | src/openssl/async_to_sync_wrapper.rs:37-86 | with a context set, no engine trips the assertion, and all its transport calls carry that context |
| TlsBridge.HonestVerdictIsBacked | src/openssl/async_to_sync_wrapper.rs:62-86 | an honest would-block verdict is backed by a transport call of the same invocation that blocked |
| TlsBridge.InvokeIsAConversation | src/openssl/async_to_sync_wrapper.rs:62-86 | the transport sees exactly the operations the engine asks for, the engine hears exactly the ready results and otherwise that it would block, and its verdict is what it makes of all it heard |
| TlsTheorems.ServeIsDisciplined | src/openssl/handshake.rs:34-70 | a poll panics exactly when it polls a finished handshake, and otherwise clears the live wrapper's context and called the transport with its own |
| TlsTheorems.HandshakeFollowsTheVerdict | src/openssl/handshake.rs:40-66 | a poll of the handshake is ready with the stream, ready with an error holding the wrapper, or pending midway, as the verdict of the conversation is a success, another error, or would-block |
| TlsTheorems.StreamFollowsTheVerdict | src/openssl/stream.rs:22-71 | a poll of the stream answers with the count of a success, pending for would-block, and an error for any other error |
| TlsTheorems.VerdictIsUnique | src/openssl/async_to_sync_wrapper.rs:37-86 | engine and transport admit one conversation and one verdict |
| TlsTheorems.ContextDiscipline | src/openssl/handshake.rs:34-70 | a whole run panics if and only if it polls the handshake after it was ready; otherwise live contexts are clear between polls and only a failed handshake's wrapper still holds one |
| TlsTheorems.NoLostWakeup | src/openssl/stream.rs:22-54 | at every point of every run, Pending means the transport was polled with that call's context and answered not ready during the call |
| TlsTheorems.LosesWakeupIff | src/openssl/async_to_sync_wrapper.rs:62-86 | at any disciplined point some honest engine turns a poll of the handshake or of the stream into a Pending without a registered waker if and only if the transport in use answers ready-with-WouldBlock before any not-ready |
| TlsObjects.AsyncToSyncWrapper.Set | src/openssl/async_to_sync_wrapper.rs:26-29 | sets the context of a clear wrapper |
| TlsObjects.AsyncToSyncWrapper.Unset | src/openssl/async_to_sync_wrapper.rs:32-35 | clears the context of a set wrapper |
| TlsObjects.AsyncToSyncWrapper.Read | src/openssl/async_to_sync_wrapper.rs:62-67 | one poll of the transport with the context held, not-ready turned into WouldBlock |
| TlsObjects.AsyncToSyncWrapper.Write | src/openssl/async_to_sync_wrapper.rs:74-79 | the same for writing |
| TlsObjects.AsyncToSyncWrapper.Flush | src/openssl/async_to_sync_wrapper.rs:81-86 | the same for flushing |
| TlsObjects.TlsStream.WithContext | src/openssl/stream.rs:22-31 | set, run the engine, clear, translate: the specified poll, with the context clear afterwards |
| TlsObjects.HandshakeFuture.Poll | src/openssl/handshake.rs:34-70 | the state is taken and put back only on would-block; the wrapper leaves clear, except inside an error, where it still holds this poll's context |

## Left out

- `BoundedFileSink::open_write` and `mut_inner`: the first opens read-only, the second allows writes the counter does not see.
- A background write of the asynchronous file that fails and drops bytes it had accepted: accepted bytes here stay buffered until written.
- `TlsStream::poll_close`: one branch maps a shutdown result.
- The bytes that pass through TLS: the bridge is about polls and contexts, and buffers are counts.
- `RetryExt::timeout`: a race of a future and a timer owned by another library.
- Overflow of `Instant + Duration`, which panics: the clock is unbounded.
- The ordering of memory beyond one flag and one lock: each shared access is one atomic step.
- `src/rust_tls.rs`, `src/native_tls.rs`, the OpenSSL acceptor, connector and certificate, `src/net`: builders and plumbing over code that is not in the repository.
- `src/task.rs`, `src/timer.rs`, `src/future.rs`, `src/io.rs`, `src/fs/mmap.rs`: thin wrappers with no property of their own.
- `src/write.rs`, `src/fs/shared_file.rs`, `src/fs/stream.rs`: not part of the built crate.
- `fluvio-future-derive`, logging, certificates and build files: no state to reason about.
