# Stream buffers and completion handlers of the bundled Asio

The HTTP server library bundles Asio. This project models the three Asio
components that keep state of their own, and proves what they promise over whole
runs:

- `basic_streambuf`: a bounded, growable byte queue in one array. It compacts in
  place and grows under a hard maximum. It is shown to be a first-in first-out
  queue over every run, with exact conditions for length errors, growth, the
  narrowing casts, and the one place where a failing call damages the contents.
- `basic_socket_streambuf`: a 512-byte get buffer and a 512-byte put buffer over a
  non-blocking socket, with retry loops. Over every run, for every behaviour of the
  network and the clock, input is conserved and no output is lost or reordered, and
  the exact condition for output without duplicates is given.
- `any_completion_handler`: a type-erased one-shot handler. Ownership, typing and
  release are shown for every program over any number of wrappers, including
  programs whose handlers use the wrappers while they are called and while they
  are destroyed. Its aligned allocator is shown to find its blocks again from
  nothing but the bytes it hid in them.

## How it is built

Each component has a `Spec` module that says on plain values what an operation
does, a class that follows the source's own steps on arrays and fields, and
modules with the theorems. Every class method ensures that the new state is the
one the specification gives for the old state. The `Execution` modules apply
arbitrary operation sequences to the objects and prove that the result is the
one the theorems speak about. The `Effects` modules, and `SocketAnswers` for the
retry loops, say what single operations do without naming the specification of
that operation. The `Findings` modules hold runs that show where the
code does something else than one would expect.

| module | content |
|---|---|
| `Machine`, `Bits` | bytes, 64-bit sizes, the 32-bit cast, bit masks, byte encodings |
| `StreamBufferSpec`, `StreamBuffer`, `StreamBufferRuns`, `StreamBufferEffects`, `StreamBufferExecution`, `StreamBufferFindings` | `basic_streambuf` |
| `ReadUntil` | the `read_until` loop as a client of the stream buffer |
| `SocketSpec`, `SocketStreamBuffer`, `SocketAnswers`, `SocketRuns`, `SocketEffects`, `SocketOutput`, `SocketInput`, `SocketMoves`, `SocketConnect`, `SocketExecution`, `SocketFindings` | `basic_socket_streambuf` |
| `Alignment`, `AlignedSpec`, `AlignedAllocator`, `AlignedRuns`, `AlignedEffects`, `AlignedExecution` | the allocator inside `any_completion_handler_impl` |
| `HandlerSpec`, `CompletionHandler`, `HandlerFrames`, `HandlerRuns`, `HandlerEffects`, `HandlerDestructors`, `HandlerPrograms`, `HandlerSafety`, `HandlerExecution`, `HandlerFindings` | `any_completion_handler` and its implementations |

What stands for the environment:

- Socket calls and the clock are an infinite sequence of answers, fixed in advance
  and otherwise arbitrary, one for each time round a loop. A send accepts at most
  what it is offered, a receive delivers at most what there is room for, the clock
  never goes back, and a wait that works takes at least one tick. The last point
  is what makes the waiting loops end.
- The vector inside `basic_streambuf` picks any capacity that is large enough. Its
  storage may lie anywhere in a flat 64-bit address space.
- A stream answers reads in any way, except that a read which does not fail
  delivers at least one character; that makes the `read_until` loop end.
- The underlying allocator answers with any free range.
- The code of a handler, when it is called and when a wrapper destroys it, is any
  sequence of operations on the wrappers, with handler code nested to any depth.
  A call destroys its own copy of the handler at the end, which counts as part of
  its code.

## Where the code and its documentation part

- `consume(n)` is documented to consume everything when `n` is too large
  (`src/asio/basic_streambuf.hpp:244-245`). The code compares `gptr() + n` with
  `pptr()`. C++ leaves the sum undefined when it leaves the array; on a flat
  address space it wraps around, and then a huge `n` is cast to `int` and added.
  `ConsumeExact` says for which `n` the promise is kept, and `ConsumeWraps` shows a
  buffer with one character where it is not.
- `commit` and `consume` cast counts to `int`. `CommitExact` and `ConsumeExact`
  show that counts up to 2^31-1 are the ones that survive, and
  `CommitTurnsNegative` shows the first that does not.
- A failing `prepare` has already shifted the characters but keeps the positions.
  `FailedReserveExact` and `FailedReserveHarmless` say exactly when the input
  sequence survives; in `PrepareDamagesInput` it does not.
- A failing flush has sent a prefix and keeps all of the put area, so a retry
  sends that prefix again, as in `RetryDuplicates`. `ResentExactly` says from the
  state and the network's answers when a call does that, `SafeToSync` when no
  answers can make it do that, and `OutputIsConserved` makes it the only source of
  duplicates.
- Moving a socket stream buffer hands over the put area without what is pending in
  it. `Inherits`, used by both move lemmas, says that output is kept exactly when
  nothing is pending; `MoveLosesPending` shows a character that is lost. Moving an
  object to itself closes and resets it (`SelfAssignmentResets`).
- Operations after the expiry time are documented to fail with
  `operation_aborted` (`src/asio/basic_socket_streambuf.hpp:375-377`); the code
  sets `timed_out` (`ExpiredOperationsTimeOut`).
- The connect loop takes a poll that timed out for one that succeeded, so it can
  report success for a connection that is still under way, as in
  `TimedOutWaitCountsAsConnected`. `SuccessIsGenuine` says exactly when reported
  success is a connection.
- A wrapper's destructor leaves the target in its variable while the handler's own
  destructor runs, unlike both assignments, which go through a temporary. So
  assignment is safe for every code of that destructor, but a destructor that
  empties its own wrapper is run twice when the wrapper goes out of scope
  (`DestructorEmptiesItsWrapper`). `DestructOfAnyCode` and `DestructExact` say for
  all code exactly when the wrapper's destructor is safe: when the same code, run
  before it, would leave the wrapper its target.

## Model

| member | source | states |
|---|---|---|
| StreamBufferSpec.Reserve | src/asio/basic_streambuf.hpp:308-346 | A successful reservation keeps the input sequence, leaves at least `n` places, and puts the end of the put area at the maximum of its old value and size plus `n`; a length error changes no position. |
| StreamBufferSpec.Overflow | src/asio/basic_streambuf.hpp:283-306 | Appends exactly the character, or throws and changes nothing. |
| StreamBufferSpec.CompactedInPlace | src/asio/basic_streambuf.hpp:321-326 | With a zero read offset the shift changes nothing, which is why an `overflow` that throws leaves the contents alone. |
| StreamBuffer.StreamBuffer.constructor | src/asio/basic_streambuf.hpp:131-141 | The initial room is the smaller of the maximum and 128, over at least one stored character. |
| StreamBuffer.StreamBuffer.MoveToFront | src/asio/basic_streambuf.hpp:325 | The overlapping copy to the front gives the bytes of the old range, whatever the overlap. |
| StreamBuffer.StreamBuffer.Resize | src/asio/basic_streambuf.hpp:334 | Growing in place or into a new array gives the old characters followed by zeros. |
| StreamBuffer.StreamBuffer.ShiftOrGrow | src/asio/basic_streambuf.hpp:310-345 | The overflow-free guards throw exactly when size plus `n` exceeds the maximum, no 64-bit offset wraps, and the result is the compacted, padded store with the specified positions. |
| StreamBuffer.StreamBuffer.Reserve | src/asio/basic_streambuf.hpp:308-346 | With the early way out, the guards on shifted offsets amount to the plain test of the specification. |
| StreamBuffer.StreamBuffer.Prepare | src/asio/basic_streambuf.hpp:214-219 | Throws exactly when size plus `n` exceeds the maximum; otherwise the returned region lies inside the put area. |
| StreamBuffer.StreamBuffer.Commit | src/asio/basic_streambuf.hpp:233-238 | The put position moves by the clipped and narrowed count. |
| StreamBuffer.StreamBuffer.Consume | src/asio/basic_streambuf.hpp:247-254 | The get position moves by the count that the wrapping address comparison selects. |
| StreamBuffer.StreamBuffer.MakeRoom | src/asio/basic_streambuf.hpp:287-298 | With a full put area, room is refused exactly when size equals the maximum, and then nothing has changed. |
| StreamBuffer.StreamBuffer.Overflow | src/asio/basic_streambuf.hpp:283-306 | Throws exactly on a character with size equal to the maximum, and then nothing has changed. |
| StreamBuffer.StreamBuffer.Underflow | src/asio/basic_streambuf.hpp:263-274 | Brings the lagging end of the get area up to date and peeks. |
| StreamBuffer.StreamBuffer.Bump | src/asio/basic_streambuf.hpp:263-274 | The inherited read takes from the get area, or after bringing it up to date. |
| StreamBuffer.StreamBuffer.ReadSizeHelper | src/asio/basic_streambuf.hpp:353-359 | Its 64-bit differences never wrap, the result is a request that fits, and it is zero only for a zero limit or a full buffer. |
| StreamBufferRuns.Step | src/asio/basic_streambuf.hpp:62-68 | Every reachable state, also after a length error, has its positions in order inside the store and its size within the maximum. |
| StreamBufferEffects.NewIsEmpty | src/asio/basic_streambuf.hpp:131-141 | No input, and the smaller of the maximum and 128 places. |
| StreamBufferEffects.PrepareExact | src/asio/basic_streambuf.hpp:308-346 | With room behind the put position nothing moves; otherwise the input moves to the front, the get area covers it, and new places are zero. |
| StreamBufferEffects.FillExact | src/asio/basic_streambuf.hpp:95-101 | Writing into prepared places fills exactly these. |
| StreamBufferEffects.PositionsOnly | src/asio/basic_streambuf.hpp:233-254 | `commit` and `consume` only move positions, and bring the end of the get area up to date. |
| StreamBufferEffects.OverflowExact | src/asio/basic_streambuf.hpp:283-306 | Throws exactly on a character at the maximum size; makes 128 places when full, or what the maximum leaves; does nothing without a character. |
| StreamBufferEffects.ReadsMoveOnly | src/asio/basic_streambuf.hpp:263-274 | Peeking and reading only move the positions of the get area. |
| StreamBufferRuns.CommitExact | src/asio/basic_streambuf.hpp:221-238 | `commit(n)` appends the first `n` output characters, or all, if and only if the count fits a signed 32-bit integer. |
| StreamBufferRuns.ConsumeExact | src/asio/basic_streambuf.hpp:240-254 | `consume(n)` removes the first `n` input characters, or all, if and only if the count fits and the address sum does not wrap (or wraps to the right low word). |
| StreamBufferRuns.AfterFailedReserve | src/asio/basic_streambuf.hpp:321-345 | Every character after a failed reservation, in terms of the ones before. |
| StreamBufferRuns.FailedReserveExact | src/asio/basic_streambuf.hpp:321-345 | `prepare` throws exactly when the request does not fit, and the input sequence survives that exactly when it repeats with the read offset as period. |
| StreamBufferRuns.FailedReserveHarmless | src/asio/basic_streambuf.hpp:321-345 | It survives whatever it holds exactly when the read offset is zero or at least the size. |
| StreamBufferFindings.PrepareDamagesInput | src/asio/basic_streambuf.hpp:321-345 | Filling 1, 2, 3, 4 into a buffer of maximum 4 and consuming one, a `prepare(2)` throws and turns the input 2, 3, 4 into 3, 4, 4. |
| StreamBufferFindings.ConsumeWraps | src/asio/basic_streambuf.hpp:247-254 | With one character in a new buffer, consuming 2^64-1 moves the get position to one before the start. |
| StreamBufferFindings.CommitTurnsNegative | src/asio/basic_streambuf.hpp:233-238 | After preparing 2^31 characters, committing them moves the put position to -2^31. |
| StreamBufferRuns.ReadsFront | src/asio/basic_streambuf.hpp:263-274 | Reading shows and takes the oldest character, in every state of the lagging get area. |
| StreamBufferRuns.RunIsFifo | src/asio/basic_streambuf.hpp:214-346 | Over every run in which no throwing `prepare` damages the input: old contents and everything appended equal everything taken and what is left, in order. |
| StreamBufferRuns.StepIsFifo | src/asio/basic_streambuf.hpp:214-346 | A legal operation conserves the contents in order if and only if it is not a `prepare` that throws while the input does not repeat with the read offset. |
| StreamBufferRuns.FifoThroughout | src/asio/basic_streambuf.hpp:214-346 | A legal run conserves the contents in order at every point if and only if no operation of it is such a `prepare`. |
| StreamBufferRuns.NewBufferIsFifo | src/asio/basic_streambuf.hpp:131-346 | The same from construction on. |
| StreamBufferRuns.RunConservesCounts | src/asio/basic_streambuf.hpp:214-346 | Over every run, harmful length errors included, no character count goes astray. |
| StreamBufferRuns.PrepareFillCommit | src/asio/basic_streambuf.hpp:95-101 | Preparing, filling and committing appends exactly the bytes that were filled in. |
| StreamBufferRuns.PutAreaEndsAtPeak | src/asio/basic_streambuf.hpp:308-346 | Over every run the end of the put area is exactly the peak of its start and all successful requests, and the store is exactly that long, or one. |
| StreamBufferRuns.NewBufferEndsAtPeak | src/asio/basic_streambuf.hpp:137-346 | The same from construction on. |
| StreamBufferRuns.ReadSizeFits | src/asio/basic_streambuf.hpp:353-359 | With any capacity that holds the store, preparing the suggested size never throws. |
| StreamBufferEffects.ReadSizeIsLargest | src/asio/basic_streambuf.hpp:353-359 | The suggested size is the largest within limit and maximum that the capacity holds or that is at most 512. |
| StreamBufferExecution.Execute | src/asio/basic_streambuf.hpp:108-360 | The class, given any legal operations, ends in the state of the run. |
| ReadUntil.ReadMore | src/asio/impl/read_until.hpp:140-146 | One read never meets a length error, and appends exactly what the stream answers, up to the suggested size. |
| ReadUntil.Round | src/asio/impl/read_until.hpp:109-147 | Once round the loop searches only new data, reads only when there is no delimiter and room is left, and ends with the outcome or with more data and none of the delimiter before. |
| ReadUntil.ReadUntil | src/asio/impl/read_until.hpp:95-148 | Keeps and extends the buffer by exactly what was delivered. Reports a stream error if and only if a read failed; without one, the length up to the first delimiter if there is any, and otherwise not found for a full buffer. A delimiter that is there from the start is found without reading. |
| SocketSpec.SendAll | src/asio/basic_socket_streambuf.hpp:490-523 | The send loop ends, having sent a prefix of what was pending, and all of it exactly when it reports success. |
| SocketAnswers.SendIsAnswered | src/asio/basic_socket_streambuf.hpp:490-523 | The turn that ends a send is found from the answers alone. It decides whether everything went out or what the turns before it accepted, and the code: clear, `timed_out`, that of the failed send, or that of the failed poll. |
| SocketSpec.ReceiveSome | src/asio/basic_socket_streambuf.hpp:423-464 | The receive loop ends with at most the characters there is room for, and without error code when there are any. |
| SocketAnswers.ReceiveIsAnswered | src/asio/basic_socket_streambuf.hpp:423-464 | The first turn that is late or does not wait decides a receive: its bytes, as far as there is room, and the code: clear, end of file, `timed_out`, that of the failed receive, or that of the failed poll. |
| SocketAnswers.ReceivesTheAnswers | src/asio/basic_socket_streambuf.hpp:423-464 | What is received are exactly the bytes of the turns that were used. |
| SocketStreamBuffer.SocketStreamBuffer.constructor | src/asio/basic_socket_streambuf.hpp:202-208 | Both areas start empty, the get area behind the putback places. |
| SocketStreamBuffer.SocketStreamBuffer.SendTurn | src/asio/basic_socket_streambuf.hpp:492-522 | Once round the send loop is one unfolding of the specification, and sends something, stops, or uses up time. |
| SocketStreamBuffer.SocketStreamBuffer.SendOutput | src/asio/basic_socket_streambuf.hpp:490-523 | The loop with its advancing view of the output is the specified send. |
| SocketStreamBuffer.SocketStreamBuffer.Overflow | src/asio/basic_socket_streambuf.hpp:468-540 | The new buffers, positions, wire, error code and result, buffered and unbuffered. |
| SocketStreamBuffer.SocketStreamBuffer.SetBuf | src/asio/basic_socket_streambuf.hpp:547-558 | Switches to unbuffered output only on request and with nothing pending. |
| SocketStreamBuffer.SocketStreamBuffer.Underflow | src/asio/basic_socket_streambuf.hpp:414-466 | Refills places 8 to 512 with exactly what was received, or leaves the get area as it was. |
| SocketStreamBuffer.SocketStreamBuffer.ReceiveTurn | src/asio/basic_socket_streambuf.hpp:425-463 | Once round the receive loop is one unfolding of the specification, and ends or uses up time. |
| SocketStreamBuffer.SocketStreamBuffer.StoreReceived | src/asio/basic_socket_streambuf.hpp:434-444 | Received characters go behind the putback places and change nothing else. |
| SocketStreamBuffer.SocketStreamBuffer.PutChar | src/asio/basic_socket_streambuf.hpp:525-536 | The inherited write stores the character, or makes room first. |
| SocketStreamBuffer.SocketStreamBuffer.Sync | src/asio/basic_socket_streambuf.hpp:542-545 | Flushes without a new character. |
| SocketStreamBuffer.SocketStreamBuffer.InitBuffers | src/asio/basic_socket_streambuf.hpp:566-576 | Empties both areas, also when unbuffered. |
| SocketStreamBuffer.SocketStreamBuffer.Reset | src/asio/basic_socket_streambuf.hpp:239-241 | What a move leaves behind is an empty, buffered object without error. |
| SocketStreamBuffer.SocketStreamBuffer.CloseSocket | src/asio/basic_socket_streambuf.hpp:299-306 | Flushes, then overwrites the flush's error code by that of closing. |
| SocketStreamBuffer.SocketStreamBuffer.Move | src/asio/basic_socket_streambuf.hpp:211-224 | The swap of buffers and the copy of positions give the specified pair of states. |
| SocketStreamBuffer.SocketStreamBuffer.MoveFrom | src/asio/basic_socket_streambuf.hpp:227-243 | So does move assignment after closing, from another object or from itself, also when either side is unbuffered. |
| SocketStreamBuffer.SocketStreamBuffer.ConnectToEndpoints | src/asio/basic_socket_streambuf.hpp:597-657 | The loop ends with the specified error code, and with the socket open for the specified endpoint or closed. |
| SocketRuns.Step | src/asio/basic_socket_streambuf.hpp:413-576 | In every reachable state both areas lie inside their buffers and the unread input behind the putback places. |
| SocketEffects.FlushIsAnswered | src/asio/basic_socket_streambuf.hpp:468-540 | Buffered or not, the turn that ends the send decides a flush: wire, code, put area and result. |
| SocketEffects.FlushOfNothing | src/asio/basic_socket_streambuf.hpp:478-485 | With nothing to send it succeeds at once and asks nobody. |
| SocketEffects.PutStoresOrFlushes | src/asio/basic_socket_streambuf.hpp:525-545 | A write stores the character while there is room and else flushes; `sync` flushes. |
| SocketEffects.SetBufExact | src/asio/basic_socket_streambuf.hpp:547-558 | Unbuffered output is granted exactly when it is asked for with nothing pending; then the put buffer and its positions are gone and nothing else changes, and otherwise nothing at all. |
| SocketEffects.UnbufferedPut | src/asio/basic_socket_streambuf.hpp:478-523 | From then on a character is on the wire at once when the network takes it and refused when not, and never kept. |
| SocketEffects.ExpiryIsSet | src/asio/basic_socket_streambuf.hpp:367-370 | Setting the expiry time changes nothing else. |
| SocketEffects.CloseExact | src/asio/basic_socket_streambuf.hpp:299-306 | Leaves the code of closing, and empties both areas exactly when that is clear. |
| SocketEffects.NewIsEmpty | src/asio/basic_socket_streambuf.hpp:202-208 | 512 places for output, nothing to read behind 8 putback places, a clear code and no expiry. |
| SocketOutput.FailedOverflow | src/asio/basic_socket_streambuf.hpp:490-523 | A failed flush puts a proper prefix of what was pending on the wire and otherwise changes only the error code. |
| SocketOutput.SendsNothing | src/asio/basic_socket_streambuf.hpp:493-522 | The send loop sends nothing exactly when the time is up or a call fails before a send accepts something. |
| SocketOutput.SendCompletes | src/asio/basic_socket_streambuf.hpp:490-523 | The send loop succeeds exactly when the answers accept as many characters as are pending before the time is up or a call fails. |
| SocketOutput.ResentExactly | src/asio/basic_socket_streambuf.hpp:490-536 | Any operation sends characters that it keeps for sending again exactly when it flushes and the answers to come would take some, but not all, of what is pending. |
| SocketOutput.SafeToSync | src/asio/basic_socket_streambuf.hpp:542-545 | No network can make `sync` duplicate anything exactly when at most one character is pending. |
| SocketOutput.FailedSendHasCode | src/asio/basic_socket_streambuf.hpp:493-522 | A failed flush leaves an error code, unless a send accepted nothing at all. |
| SocketOutput.StepFlow | src/asio/basic_socket_streambuf.hpp:468-558 | Each operation appends what it accepted to the output, or failed and inserted characters already sent. |
| SocketOutput.NothingIsLost | src/asio/basic_socket_streambuf.hpp:468-558 | Over every run, failures included, wire and put area spell out all accepted characters in order. |
| SocketOutput.SurplusIsResent | src/asio/basic_socket_streambuf.hpp:468-558 | The surplus is exactly what failed flushes had sent. |
| SocketOutput.OutputIsConserved | src/asio/basic_socket_streambuf.hpp:468-558 | Over every run, wire and put area are exactly what was there and what was accepted if and only if no flush met answers that would take some, but not all, of what was pending. |
| SocketOutput.SyncSendsEverything | src/asio/basic_socket_streambuf.hpp:542-545 | `sync` succeeds exactly when the put area is empty and everything is on the wire. |
| SocketOutput.UnbufferedIsExact | src/asio/basic_socket_streambuf.hpp:479-484 | Unbuffered output is exact over every run, failures included. |
| SocketInput.FailedUnderflow | src/asio/basic_socket_streambuf.hpp:425-463 | A failing refill leaves the get area empty and unmoved. |
| SocketInput.RefillIsAnswered | src/asio/basic_socket_streambuf.hpp:414-466 | The bytes of the turn that ends a receive become the get area behind the putback places, and the first is shown; without any only the code changes. |
| SocketInput.ArrivalIsReceived | src/asio/basic_socket_streambuf.hpp:420-464 | Only a refill uses up answers, and their bytes are what is received. |
| SocketInput.ReadsOldest | src/asio/basic_socket_streambuf.hpp:420-421 | With unread characters, reading shows the oldest one and asks nobody. |
| SocketInput.InputIsConserved | src/asio/basic_socket_streambuf.hpp:414-466 | Over every run: unread characters and the bytes of the answers used equal delivered and unread ones, in order. |
| SocketInput.ReaderSeesWhatArrived | src/asio/basic_socket_streambuf.hpp:414-466 | On a new connection the bytes of all answers used are what was delivered and what is unread. |
| SocketMoves.MoveConstructInherits | src/asio/basic_socket_streambuf.hpp:211-224 | Unread input, connection, error and expiry carry over, output exactly when none is pending, and the source is reset. |
| SocketMoves.MoveAssignInherits | src/asio/basic_socket_streambuf.hpp:227-243 | The same, and the target's old connection got a prefix of its pending output, all of it exactly when the flush succeeded. |
| SocketMoves.SelfAssignmentResets | src/asio/basic_socket_streambuf.hpp:227-243 | Assigned to itself, an object sends a prefix of its pending output, all of it exactly when the flush succeeds, keeps its closed socket, and is reset otherwise. |
| SocketConnect.AttemptEnds | src/asio/basic_socket_streambuf.hpp:617-655 | Which answers of one turn end the loop, and the code each turn leaves. |
| SocketConnect.ConnectEnds | src/asio/basic_socket_streambuf.hpp:607-656 | Whichever turn is the last, the loop ends with its code and its socket, or late, with `timed_out` and the socket of the turn before. |
| SocketConnect.ConnectFindsFirstGood | src/asio/basic_socket_streambuf.hpp:607-655 | The loop ends clear exactly when it reaches an endpoint reported good, all earlier ones having been tried and failed, and then the socket is open for that endpoint. |
| SocketConnect.ConnectOutcome | src/asio/basic_socket_streambuf.hpp:597-657 | The same from the entry of the loop; no endpoints give not found, and an error on entry stays. |
| SocketConnect.SuccessIsGenuine | src/asio/basic_socket_streambuf.hpp:597-657 | Reported success is an established connection exactly when no reached endpoint was taken for connected after a wait that timed out. |
| SocketConnect.TimedOutWaitCountsAsConnected | src/asio/basic_socket_streambuf.hpp:637-654 | A concrete attempt whose wait timed out, so that it is not established, and that is reported as success. |
| SocketExecution.Execute | src/asio/basic_socket_streambuf.hpp:139-675 | The class, given any operations, ends in the state of the run. |
| SocketFindings.RetryDuplicates | src/asio/basic_socket_streambuf.hpp:490-523 | Two characters, a network whose second send fails, and two flushes: the other side gets the first character twice. |
| SocketFindings.MoveLosesPending | src/asio/basic_socket_streambuf.hpp:211-224 | One character written before a move is neither sent nor pending afterwards, on either object. |
| SocketFindings.ExpiredOperationsTimeOut | src/asio/basic_socket_streambuf.hpp:425-431 | Past the expiry time a refill and a flush with output pending fail at once with `timed_out` and transfer nothing. |
| Bits.MaskClearsLowBits | src/asio/detail/memory.hpp:83 | Masking with the negated power of two rounds down to its multiple, for every word width. |
| Bits.DecodeEncode | src/asio/any_completion_handler.hpp:145-166 | The bytes of a distance decode to it. |
| Alignment.PlaceIsAligned | src/asio/any_completion_handler.hpp:142-143 | The place handed out is aligned and inside the extra room. |
| Alignment.PlaceIsLeast | src/asio/detail/memory.hpp:76-90 | It is the least aligned place. |
| Alignment.AlignIsExact | src/asio/detail/memory.hpp:82-89 | `align` on wrapping words finds the least aligned place, exactly when the bytes fit behind it. |
| Alignment.AlignNeverFails | src/asio/any_completion_handler.hpp:137-152 | So the throw at the end of `allocate` is unreachable. |
| Alignment.DistanceFitsSigned | src/asio/any_completion_handler.hpp:145-167 | A hidden distance is never negative when it is read back as a signed number. |
| AlignedEffects.RequestTakes | src/asio/any_completion_handler.hpp:137-140 | A request takes one block of exactly size, alignment less one, and a pointer difference. |
| AlignedEffects.RequestHides | src/asio/any_completion_handler.hpp:145-146 | It writes only behind the user's bytes, how far the place is from the block's start. |
| AlignedEffects.RoomIsTight | src/asio/any_completion_handler.hpp:137-146 | The room asked for is enough wherever the block lies, and no byte could be spared. |
| AlignedEffects.NullIsIgnored | src/asio/any_completion_handler.hpp:155-158 | Releasing null does nothing. |
| AlignedRuns.RecoversGrant | src/asio/any_completion_handler.hpp:165-170 | `deallocate` computes exactly the block and the size that `allocate` obtained. |
| AlignedRuns.StepKeepsValid | src/asio/any_completion_handler.hpp:128-173 | With many live blocks, user writes and other clients, every operation keeps blocks apart and every hidden distance intact. |
| AlignedRuns.RunKeepsGrant | src/asio/any_completion_handler.hpp:128-173 | Over every run a request stays on record until its own release. |
| AlignedRuns.RunKeepsUserBytes | src/asio/any_completion_handler.hpp:145-146 | Over every run only its own user changes a user's bytes; hidden distances of others never reach into them. |
| AlignedRuns.AllocateRunDeallocate | src/asio/any_completion_handler.hpp:128-173 | A request, any run, and the matching release give back exactly the block that was obtained. |
| AlignedAllocator.AlignedAllocator.StoreOffset | src/asio/any_completion_handler.hpp:145-146 | The copied bytes are the encoded distance, and nothing else changes. |
| AlignedAllocator.AlignedAllocator.LoadOffset | src/asio/any_completion_handler.hpp:165-166 | The copied bytes decode to the distance. |
| AlignedAllocator.AlignedAllocator.Allocate | src/asio/any_completion_handler.hpp:128-153 | Returns the aligned place and leaves the specified heap. |
| AlignedAllocator.AlignedAllocator.Deallocate | src/asio/any_completion_handler.hpp:155-173 | Gives back a live block with its exact size, found from memory alone. |
| AlignedExecution.Execute | src/asio/any_completion_handler.hpp:128-173 | The allocator object, given any legal requests, releases, and writes of users and other clients, ends in the state of the run. |
| CompletionHandler.Store.Create | src/asio/any_completion_handler.hpp:94-110 | Allocates and constructs, or gives the storage back when constructing throws. |
| CompletionHandler.Store.Destroy | src/asio/any_completion_handler.hpp:112-119 | Starts to destroy through a cast that fits, with the allocator taken beforehand. |
| CompletionHandler.Store.Deallocate | src/asio/any_completion_handler.hpp:80-92 | After the handler's destructor the storage goes back, to the allocator it came from. |
| CompletionHandler.Store.Launch | src/asio/any_completion_handler.hpp:175-188 | Moves the handler out, destroys and frees, and only then invokes. |
| CompletionHandler.AnyCompletionHandler.MoveAssign | src/asio/any_completion_handler.hpp:636-642 | Through the temporary: a self-move changes nothing, any other empties the source and is complete when the release of the old target starts. |
| CompletionHandler.AnyCompletionHandler.AssignNull | src/asio/any_completion_handler.hpp:645-649 | Empties the wrapper, and then starts to release its target. |
| CompletionHandler.AnyCompletionHandler.Move | src/asio/any_completion_handler.hpp:624-630 | Takes over table and target and empties the source. |
| CompletionHandler.AnyCompletionHandler.Destruct | src/asio/any_completion_handler.hpp:652-656 | Starts to release the target, if any, and leaves the fields as they are. |
| CompletionHandler.AnyCompletionHandler.Swap | src/asio/any_completion_handler.hpp:671-675 | Exchanges table and target, also with itself. |
| CompletionHandler.AnyCompletionHandler.Call | src/asio/any_completion_handler.hpp:698-709 | Empties the wrapper before the call and throws exactly when it was empty. |
| HandlerPrograms.StepKeepsGood | src/asio/any_completion_handler.hpp:95-188 | Every operation, with everything that handlers do while they are called or destroyed, keeps ownership one to one, tables typed and lives well formed, as long as the code of a destructor leaves the wrapper that is being destroyed its target. |
| HandlerPrograms.RunKeepsGood | src/asio/any_completion_handler.hpp:590-709 | So does every sequence of operations. |
| HandlerPrograms.ProperIsCareful | src/asio/any_completion_handler.hpp:651-656 | Code that does not use a variable whose destructor is running meets that condition, from every state. |
| HandlerEffects.ConstructExact | src/asio/any_completion_handler.hpp:593-620 | A new wrapper is empty, or has a new implementation of its type and allocator; a throwing construction leaves only the returned storage. |
| HandlerEffects.SwapExchanges | src/asio/any_completion_handler.hpp:671-675 | Table and target change places, and nothing else. |
| HandlerEffects.MoveConstructTakes | src/asio/any_completion_handler.hpp:624-630 | The new wrapper has table and target, the source neither, and nothing else changes. |
| HandlerEffects.MoveAssignExact | src/asio/any_completion_handler.hpp:636-642 | The variables are assigned, then the old target is destroyed, its destructor's code runs, and its storage goes back. |
| HandlerEffects.NullAssignExact | src/asio/any_completion_handler.hpp:645-649 | The wrapper is empty before all that. |
| HandlerEffects.DestructIsLate | src/asio/any_completion_handler.hpp:652-656 | A destructor leaves its variable alone until all that is done. |
| HandlerEffects.CallExact | src/asio/any_completion_handler.hpp:698-709 | The wrapper is emptied, its target moved out, destroyed, freed and invoked in this order, and then the handler's code runs; an empty wrapper changes nothing. |
| HandlerRuns.DeadStaysDead | src/asio/any_completion_handler.hpp:698-706 | An implementation that is gone never comes back. |
| HandlerPrograms.ProgramIsGood | src/asio/any_completion_handler.hpp:590-709 | So they hold in every reachable state of every program. |
| HandlerPrograms.NothingLeaks | src/asio/any_completion_handler.hpp:651-656 | Once all wrappers are empty or gone, every implementation ever created came to a proper end. |
| HandlerPrograms.AtMostOnce | src/asio/any_completion_handler.hpp:176-188 | Each implementation is freed and invoked at most once, freed with the allocator it came from, invoked exactly when it was moved out, and then freed before. |
| HandlerPrograms.DestroyedBeforeFreed | src/asio/any_completion_handler.hpp:80-92 | No storage goes back with a constructed handler in it: that was destroyed before, exactly once, as its own type, after any move and before any invocation. |
| HandlerPrograms.AllDestroyed | src/asio/any_completion_handler.hpp:80-92 | Once no wrapper has a target, this is true of every handler ever constructed. |
| HandlerRuns.FreeBeforeInvoke | src/asio/any_completion_handler.hpp:182-187 | When a handler's code starts, its wrapper is empty, its storage is gone, and the invariant holds. |
| HandlerRuns.CallInvokesTarget | src/asio/any_completion_handler.hpp:698-706 | A call invokes exactly the wrapper's target, which never comes back whatever the handler does. |
| HandlerPrograms.MoveAssignTransfers | src/asio/any_completion_handler.hpp:636-642 | When the old target's destructor starts, the new one has changed hands, no other wrapper is affected and the invariant holds; whatever that destructor does, the old life then ends properly. |
| HandlerRuns.MovesCanBeUndone | src/asio/any_completion_handler.hpp:624-675 | Swapping twice, and moving away and back, change nothing and release nothing. |
| HandlerDestructors.DestructOfAnyCode | src/asio/any_completion_handler.hpp:651-656 | For all code of the handler's destructor, the wrapper's destructor keeps the invariant if and only if that code, run before it, leaves the target alive and a state that is good once the target is back in the wrapper. |
| HandlerDestructors.DestructExact | src/asio/any_completion_handler.hpp:651-656 | If that code by itself keeps the invariant: if and only if, run before, it leaves the wrapper its target. |
| HandlerFindings.DestructorEmptiesItsWrapper | src/asio/any_completion_handler.hpp:645-656 | With one wrapper whose handler's destructor empties it, going out of scope breaks the invariant, and null assignment does not. |
| HandlerFindings.SwapThereAndBack | src/asio/any_completion_handler.hpp:651-675 | Code that swaps the target out of the wrapper and back is harmless. |
| HandlerSafety.CarefulRunIsSafe | src/asio/any_completion_handler.hpp:651-706 | Under the same condition no operation ever reaches a target that is not alive, or through the wrong table, also while targets are being destroyed. |
| HandlerExecution.Scope.MoveAssign | src/asio/any_completion_handler.hpp:636-642 | On objects, aliased or not, move assignment up to the old target's destructor gives the specified state. |
| HandlerExecution.Scope.Swap | src/asio/any_completion_handler.hpp:671-675 | On objects the two variables exchange table and target; this is the specified step. |
| HandlerExecution.Scope.Launch | src/asio/any_completion_handler.hpp:698-706 | So is a call up to the start of the handler's own code. |
| HandlerExecution.Scope.Execute | src/asio/any_completion_handler.hpp:590-709 | Each operation on objects that reaches only live targets, with nested calls and destructors, is the specified step. |
| HandlerExecution.Scope.ExecuteAll | src/asio/any_completion_handler.hpp:590-709 | So is any sequence of them. |
| HandlerExecution.RunProgram | src/asio/any_completion_handler.hpp:590-709 | Any program on new objects, under the condition on destructors, ends in the state of the run, which is good. |

## Left out

- StreamBufferRuns.RunIsFifo: asks that no throwing `prepare` damages the input and that counts survive the casts; `FifoThroughout`, `CommitExact` and `ConsumeExact` show that these conditions are exact.
- StreamBufferRuns.NewBufferIsFifo: the same conditions.
- Running out of memory in `vector::resize`, and a capacity that shrinks.
- The inherited bulk and putback functions of stream buffers (`sgetn`, `sputn`, `sungetc`, `sputbackc`), and putback into the first 8 places of the socket get buffer.
- SocketOutput.OutputIsConserved: runs stay on one connection; `connect`, which empties the put area without sending, and `close` end such a run.
- Resolver lookups, blocking mode switches, the computation of poll timeouts, and the destructor's last flush.
- The Windows Runtime branches and error translation inside the system calls.
- The byte order of the hidden distance: the model stores the lowest byte first and reads an unsigned number (`DistanceFitsSigned`).
- HandlerPrograms.ProgramIsGood: asks that whenever a wrapper's destructor runs, the code of its target's destructor would leave the wrapper that target; the other results on runs and programs share this. `DestructOfAnyCode` is exact for one destruction.
- Code in the destructor of a handler that was moved out for a call.
- Exceptions thrown by a handler's move constructor, and cancellation slots and executors of handlers.
- Copies of a wrapper's associated allocator that outlive their handler.
- `basic_streambuf_ref`, `basic_socket_iostream`, associators and the socket, file and timer classes: they forward.
- Locale, traits and allocator template parameters: characters are bytes, with a separate end-of-file value.
