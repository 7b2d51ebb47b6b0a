# Streambufs, completion tokens and associators of asio

A Dafny model of three parts of the asio headers under `garak/include/asio`.

* **`basic_streambuf`** is a character queue in one array with five offsets. Its `reserve` first moves
  the live characters to the front of the array, then grows the array or throws. The class
  `BasicStreambuf` does this in place. Each method is proved to do what a function on values
  (`StreambufSpec`) says. The lemmas of `StreambufTheorems` prove that those functions refine a
  queue given by three sequences (consumed, unread, staged), throws and truncated counts included.
  `StreambufHistory` says what a whole history leaves in the buffer.
* **`basic_socket_streambuf`** buffers both directions of a non-blocking socket. The class
  `BasicSocketStreambuf` has the send and receive loops, `setbuf`, `close`, the moves and the
  connect loop (`Connecting`). `SocketStreambufSpec` describes the new states.
  `SocketStreambufTheorems` says what each operation does to the bytes on the wire, and from which
  kernel scripts it succeeds; `SocketStreambufOutcomes` how each loop ends under any script. `SocketStreambufEnds` adds what the user of one end has written and
  read. `SocketStreambufRuns` joins two ends by a channel in both directions and proves conservation
  over every run of whole operations, `SocketStreambufInterleaved` the same between any two rounds of
  their loops. `SocketStreambufRetries` follows one end, and then both, beyond failed flushes.
  `SocketStreambufDelivery` and, round by round, `SocketStreambufProgress` add progress: loops end, and
  with cooperating kernels everything written can be read.
* **Completion tokens**: `Binders` models tokens inside any nest of `allocator_binder` and
  `cancellation_slot_binder`, the `init_wrapper` continuations that `initiate` builds, and
  `completion_handler_type`. `Associators` models the lookups through such a nest, and `Signatures`
  the reduction of completion signatures.

The kernel and the clock are an oracle (`Sockets`): one turn for every round of a loop says what the
clock shows, how many bytes the kernel is willing to move, what it reports when it moves none, and
how polling ends. The oracle is any infinite sequence of turns that asks the caller to wait only
finitely often; with an oracle that asks forever and never expires, the loops of asio do not
end either. A turn is read only where the loop reads it, so the report of a turn that moves bytes
does not matter. Bytes put onto the wire at one end are inbound at the other until received.

Whether a loop succeeds is decided by the script before the call: `CanMove(socket, expiry, k)` says
that the next turns, up to some turn, are all in time and either move bytes or ask to wait and
answer the poll, and together offer at least `k` bytes.

Where the code does less than its documentation promises, the code is modelled and the exact
condition is proved:

* A throwing `prepare` can damage the input sequence. It leaves it intact, whatever its contents,
  exactly when the consumed part is empty or at least as long as the input sequence
  (`ThrowingPrepareIntactIff`; a run that reaches the damage: `ThrowDamagesReachableInput`).
* `commit` and `consume` cast their count to `int`. They do what is documented exactly when the count
  fits (`CommitExactIff`, `ConsumeExactIff`); the default maximum size allows one that does not
  (`CommitCanWrap`, `ConsumeCanWrap`).
* A flush that fails part-way leaves the delivered prefix in the put area, so a retry sends it again.
  Delivery is exactly-once exactly when the kernel let no byte through before it failed
  (`RetryDuplicates`, `FailedFlushOverlaps`, `AtLeastOnceBothWays`; an input: `FlushFailsPartWay`).
* Moving a streambuf with pending output drops it (`MoveExact`, `MoveDropsPending`,
  `MoveLosesOutput`). `close` delivers all pending output exactly when the kernel lets that many
  bytes through, but answers success from the descriptor alone (`CloseExact`, `CloseCanLoseSilently`).
* `sungetc` after a refill invents a NUL (`PutbackAcrossRefill`, `UngetInvents`, `PutbackForgets`).
* `connect` is documented to return `this` if the connection was established and null otherwise. A
  `poll_connect` that times out without a pending socket error is reported as success too; that is
  the only way for the answer to be wrong (`AnswerIsRightIff`, `TimeoutReportedAsSuccess`).

`dafny verify dfyconfig.toml` checks the project.

## Model

| member | source | states |
|---|---|---|
| Streambuf.BasicStreambuf.constructor | garak/include/asio/basic_streambuf.hpp:131-141 | a new buffer is empty, with min(max, 128) characters of put area and at least one array element |
| Streambuf.BasicStreambuf.Size | garak/include/asio/basic_streambuf.hpp:158-161 | size() is the length of data() and at most max_size() |
| Streambuf.BasicStreambuf.Data | garak/include/asio/basic_streambuf.hpp:192-196 | data() is the characters from gptr to pptr |
| Streambuf.BasicStreambuf.Reserve | garak/include/asio/basic_streambuf.hpp:308-346 | in place: the shift, then the growth or the throw, with the whole new state in both cases |
| Streambuf.BasicStreambuf.Prepare | garak/include/asio/basic_streambuf.hpp:214-219 | throws exactly when size() + n > max_size(); otherwise data() is unchanged and the region handed out starts at pptr, behind the input sequence, and lies inside the array |
| Streambuf.BasicStreambuf.Commit | garak/include/asio/basic_streambuf.hpp:233-238 | min(n, put area) characters move from the put area to the end of data(), if that count fits an int; the whole new state in any case |
| Streambuf.BasicStreambuf.Consume | garak/include/asio/basic_streambuf.hpp:247-254 | min(n, size()) characters leave the front of data(), if that count fits an int; the whole new state in any case |
| Streambuf.BasicStreambuf.Underflow | garak/include/asio/basic_streambuf.hpp:263-274 | egptr catches up with pptr; the first unread character, or eof |
| Streambuf.BasicStreambuf.Overflow | garak/include/asio/basic_streambuf.hpp:283-306 | a real character is appended to the bounded queue, or length_error and no change at the maximum size; the whole new state in both cases |
| StreambufTheorems.InitialExact | garak/include/asio/basic_streambuf.hpp:131-141 | a new buffer is empty, with min(max_size, 128) characters of put area and at least one array element |
| StreambufTheorems.ReserveArray | garak/include/asio/basic_streambuf.hpp:308-346 | making room moves the live characters to the front, leaves what is behind them alone and extends the array by zeros |
| StreambufTheorems.StepKeepsValid | garak/include/asio/basic_streambuf.hpp:233-254 | an operation keeps the offsets in order exactly when its count, cast to int, leaves the offset it moves inside the array; every operation without a count always does |
| StreambufTheorems.StepRefines | garak/include/asio/basic_streambuf.hpp:214-346 | every operation that stays inside the array, and its answer, is one of the bounded queue: append, drop front, putback or nothing, the count as cast to int, and the overwritten queue when prepare throws; across compactions and reallocations |
| StreambufTheorems.RunRefines | garak/include/asio/basic_streambuf.hpp:214-346 | every run from every valid state, damaging throws and truncated counts included, is with all its answers a run of the bounded queue; a run ends where a truncated count would leave the array |
| StreambufHistory.ForwardIffOrderly | garak/include/asio/basic_streambuf.hpp:214-346 | a step without putback takes its count off the front of data() and appends its characters exactly when the count fits an int and no throwing prepare changes the input sequence, that is unless the sequence repeats itself at the distance of the shift |
| StreambufHistory.SteadyIffOrderly | garak/include/asio/basic_streambuf.hpp:214-346 | the same for the consumed and unread characters together, which putbacks see |
| StreambufHistory.RunTotals | garak/include/asio/basic_streambuf.hpp:214-346 | with the array content and everything appended as one tape, data() is the tape from the old gptr plus removals less putbacks on; for every run whose steps meet the exact condition above |
| StreambufHistory.ChunkingIrrelevant | garak/include/asio/basic_streambuf.hpp:214-346 | two such histories of two buffers, putbacks included, that append the same characters and have the same net removals end with the same data() |
| StreambufTheorems.RunKeepsInvariant | garak/include/asio/basic_streambuf.hpp:62-68 | every state of every run of a new buffer, also after throws, keeps eback == 0 <= gptr <= egptr <= pptr <= epptr <= max_size, the array length, and size() <= max_size(); the run covers all operations unless a truncated count would leave the array |
| StreambufTheorems.SmallBufferFits | garak/include/asio/basic_streambuf.hpp:233-254 | with max_size() at most 2^31-1 no truncated count ever ends a run |
| StreambufTheorems.PrepareExact | garak/include/asio/basic_streambuf.hpp:209-219 | prepare throws exactly when size() + n > max_size(), and otherwise keeps data() and hands out n characters inside the array |
| StreambufTheorems.PrepareFillCommit | garak/include/asio/basic_streambuf.hpp:198-238 | prepare(n), storing n characters and commit(k) appends exactly the first k of them, if and only if k fits an int |
| StreambufTheorems.OverflowExact | garak/include/asio/basic_streambuf.hpp:276-306 | a real character is appended exactly when size() < max_size(); when overflow throws nothing has changed |
| StreambufTheorems.ThrowingPrepareLeaves | garak/include/asio/basic_streambuf.hpp:321-340 | after a throw the offsets are unchanged, the array starts with the old input, and what data() then denotes |
| StreambufTheorems.ThrowingPrepareIntactIff | garak/include/asio/basic_streambuf.hpp:321-340 | data() survives a throwing prepare for every content exactly when gptr is 0 or at least size() |
| StreambufTheorems.ThrowDamagesReachableInput | garak/include/asio/basic_streambuf.hpp:321-340 | after four puts and one get in a buffer of four, a throwing prepare turns the input 2 3 4 into 3 4 4 |
| StreambufTheorems.CommitExactIff | garak/include/asio/basic_streambuf.hpp:233-238 | commit appends min(n, put area) characters exactly when that count fits an int |
| StreambufTheorems.ConsumeExactIff | garak/include/asio/basic_streambuf.hpp:247-254 | consume removes min(n, size()) characters exactly when that count fits an int |
| StreambufTheorems.CommitCanWrap | garak/include/asio/basic_streambuf.hpp:131-141 | with the default maximum size, prepare and commit of 2^31 characters move pptr backwards |
| StreambufTheorems.ConsumeCanWrap | garak/include/asio/basic_streambuf.hpp:247-254 | with the default maximum size, two commits of 2^30 characters and one consume of them all move gptr in front of the array |
| Chars.CastToIntExact | garak/include/asio/basic_streambuf.hpp:233-254 | the cast of a count to int is the one int that differs from it by a multiple of 2^32 |
| StreambufTheorems.ReadSizeSafeAndProgresses | garak/include/asio/basic_streambuf.hpp:353-359 | preparing the suggested read size never throws, and it is positive exactly when the limit is and there is room; unless the limit or the maximum size cuts it short it is the spare capacity, or 512 if that is more |
| StreambufHistory.RunHolds | garak/include/asio/basic_streambuf.hpp:233-274 | over any run without a compaction whose counts fit an int, putbacks included, the array keeps all consumed and unread characters and appends |
| StreambufHistory.PutbackRestores | garak/include/asio/basic_streambuf.hpp:233-274 | after such a run as many sungetc calls as removals less putbacks restore the earlier input sequence plus what was appended |
| SocketStreambuf.BasicSocketStreambuf.constructor | garak/include/asio/basic_socket_streambuf.hpp:192-208 | empty get area behind 8 putback characters, empty 512-byte put area, no error |
| SocketStreambuf.BasicSocketStreambuf.InitBuffers | garak/include/asio/basic_socket_streambuf.hpp:566-576 | both areas become empty, the put area of full size |
| SocketStreambuf.BasicSocketStreambuf.Underflow | garak/include/asio/basic_socket_streambuf.hpp:414-466 | the receive loop ends for every oracle; get area plus inbound bytes stay the same, and the whole new state and answer are given |
| SocketStreambuf.BasicSocketStreambuf.Overflow | garak/include/asio/basic_socket_streambuf.hpp:468-540 | the send loop ends for every oracle; with a put area, non-eof means all of it is on the wire once and in order and only the new character is pending, eof means a proper prefix is and the put area is unchanged |
| SocketStreambuf.BasicSocketStreambuf.Sync | garak/include/asio/basic_socket_streambuf.hpp:542-545 | non-eof exactly when the whole put area went onto the wire and is now empty |
| SocketStreambuf.BasicSocketStreambuf.SetBuf | garak/include/asio/basic_socket_streambuf.hpp:547-558 | the whole new state of setbuf |
| SocketStreambuf.BasicSocketStreambuf.Close | garak/include/asio/basic_socket_streambuf.hpp:299-306 | flush, close, and buffers reset only when the close reports no error |
| SocketStreambuf.BasicSocketStreambuf.MoveFrom | garak/include/asio/basic_socket_streambuf.hpp:211-224 | the arrays change owners; both whole new states |
| SocketStreambuf.BasicSocketStreambuf.MoveAssign | garak/include/asio/basic_socket_streambuf.hpp:227-243 | close first, then the arrays are exchanged; both whole new states, and the old socket with all that is on its wire |
| SocketStreambuf.BasicSocketStreambuf.ConnectToEndpoints | garak/include/asio/basic_socket_streambuf.hpp:597-657 | how the loop ended, in terms of what happened at each endpoint: all were tried in time and all but the last one touched failed for good; then success, an unreadable pending error, timed_out at the next one, not_found for no endpoints, or the last own error; an earlier error leaves everything alone |
| SocketStreambuf.BasicSocketStreambuf.Connect | garak/include/asio/basic_socket_streambuf.hpp:260-266 | buffers reset, then the loop over one endpoint; this exactly when the error is clear |
| SocketStreambuf.BasicSocketStreambuf.ConnectResolved | garak/include/asio/basic_socket_streambuf.hpp:281-289 | a resolver error is kept and no endpoint is touched; otherwise the loop over all results |
| SocketStreambufTheorems.FlushSendsPrefix | garak/include/asio/basic_socket_streambuf.hpp:490-523 | the wire gains a prefix of the output, once and in order, all of it exactly on success |
| SocketStreambufTheorems.FlushTurns | garak/include/asio/basic_socket_streambuf.hpp:490-523 | the number of rounds is at most remaining waits plus unsent bytes plus one |
| SocketStreambufTheorems.FlushSendsIff | garak/include/asio/basic_socket_streambuf.hpp:490-523 | the loop sends at least k bytes exactly when the kernel script lets k bytes through before its first late turn, final refusal or failed poll |
| SocketStreambufTheorems.FlushOkIff | garak/include/asio/basic_socket_streambuf.hpp:490-523 | the loop succeeds exactly when the script lets all its bytes through, and sends nothing exactly when there are none or the script lets none through |
| SocketStreambufTheorems.RefillTakesPrefix | garak/include/asio/basic_socket_streambuf.hpp:423-464 | the bytes received are the front of the inbound ones; none are received exactly when an error is set; the rounds are bounded |
| SocketStreambufTheorems.RefillOkIff | garak/include/asio/basic_socket_streambuf.hpp:423-464 | something is received exactly when something is inbound and the script lets a byte through |
| SocketStreambufOutcomes.FlushOutcome | garak/include/asio/basic_socket_streambuf.hpp:490-523 | for every kernel script: the send loop uses turns that are in time and move bytes or report would_block or try_again, until all is offered, or until the first other turn, whose error it leaves after sending exactly what was offered before |
| SocketStreambufOutcomes.SendOutcomeUnique | garak/include/asio/basic_socket_streambuf.hpp:490-523 | that outcome is the only one: turns used, bytes sent, error and answer are determined |
| SocketStreambufOutcomes.RefillOutcome | garak/include/asio/basic_socket_streambuf.hpp:423-464 | for every kernel script: the receive loop passes turns that deliver nothing and report would_block or try_again; the first other turn delivers the front of what is inbound, as much as fits, or its error is left |
| SocketStreambufOutcomes.ReceiveOutcomeUnique | garak/include/asio/basic_socket_streambuf.hpp:423-464 | that outcome is the only one: turns used, bytes received and error are determined |
| SocketStreambufOutcomes.OverflowOutcome | garak/include/asio/basic_socket_streambuf.hpp:468-540 | overflow is the outcome of sending what is due, then an empty put area that starts at its front with the new character; nothing else changes |
| SocketStreambufOutcomes.UnderflowOutcome | garak/include/asio/basic_socket_streambuf.hpp:414-466 | underflow with characters unread does nothing; otherwise it is the outcome of receiving, whose bytes become the get area behind the putback area; nothing else changes |
| SocketStreambufOutcomes.SUngetCOutcome | garak/include/asio/basic_socket_streambuf.hpp:443-444 | sungetc makes the character in front of the get area unread again and answers it, as long as there is one |
| SocketStreambufTheorems.BufferedOverflow | garak/include/asio/basic_socket_streambuf.hpp:484-540 | not eof: the wire gained the whole old put area and only the new character is pending; eof: the wire gained a proper prefix and the put area is unchanged |
| SocketStreambufTheorems.UnbufferedOverflow | garak/include/asio/basic_socket_streambuf.hpp:478-483 | without a put area the character itself goes onto the wire, or nothing does |
| SocketStreambufTheorems.OverflowIff | garak/include/asio/basic_socket_streambuf.hpp:468-540 | overflow succeeds exactly when the script lets through the put area, or without one the character; it sends nothing exactly when there is nothing to send or no byte gets through |
| SocketStreambufTheorems.RetryDuplicates | garak/include/asio/basic_socket_streambuf.hpp:514-527 | a retry sends the delivered prefix again; each byte crosses once exactly when the script at the first attempt let no byte through |
| SocketStreambufTheorems.FlushFailsPartWay | garak/include/asio/basic_socket_streambuf.hpp:514-527 | a kernel that takes one byte and then reports an error: 1 2 stays pending with 1 on the wire, and the retry delivers 1 1 2 |
| SocketStreambufTheorems.UnderflowFills | garak/include/asio/basic_socket_streambuf.hpp:420-446 | get area plus inbound bytes stay the same; a failed underflow changes neither |
| SocketStreambufTheorems.PutbackAcrossRefill | garak/include/asio/basic_socket_streambuf.hpp:443-444 | sungetc right after a refill yields NUL, the character read last exactly when that was NUL |
| SocketStreambufTheorems.PutbackForgets | garak/include/asio/basic_socket_streambuf.hpp:443-444 | a new streambuf receives and reads 7, then receives 8: sungetc yields a NUL, where before the second refill it yields 7 |
| SocketStreambufTheorems.SetBufExact | garak/include/asio/basic_socket_streambuf.hpp:547-558 | setbuf takes effect exactly for (0, 0) with an empty put area and loses nothing |
| SocketStreambufTheorems.CloseExact | garak/include/asio/basic_socket_streambuf.hpp:294-306 | close delivers a prefix of the pending output, all of it exactly when the script lets that many bytes through; the error and the answer come from the descriptor alone |
| SocketStreambufTheorems.CloseLeaves | garak/include/asio/basic_socket_streambuf.hpp:299-306 | after a close without error both areas are empty; after one with an error unread input stays, and pending output stays unless all of it was sent |
| SocketStreambufTheorems.CloseCanLoseSilently | garak/include/asio/basic_socket_streambuf.hpp:294-306 | close can report success with a clear error although pending output was lost |
| SocketStreambufTheorems.MoveExact | garak/include/asio/basic_socket_streambuf.hpp:211-224 | unread input moves exactly, pending output survives exactly when there is none, the source is fresh |
| SocketStreambufTheorems.MoveDropsPending | garak/include/asio/basic_socket_streambuf.hpp:219-220 | after a move a successful sync sends none of what was pending |
| SocketStreambufTheorems.MoveLosesOutput | garak/include/asio/basic_socket_streambuf.hpp:219-220 | two characters put into a new streambuf and moved with it: the sync after the move succeeds and the wire is empty |
| SocketStreambufTheorems.MoveAssignExact | garak/include/asio/basic_socket_streambuf.hpp:227-243 | the source of a move assignment ends empty with a full-size put area, even from an unbuffered target; the target's old wire gains a prefix of its put area, all of it exactly when the script lets it through |
| SocketStreambufEnds.StepKeepsIff | garak/include/asio/basic_socket_streambuf.hpp:414-558 | an operation keeps every character exactly when, before the call, the script lets its flush through, the putback stays in the get area, or the move finds nothing pending |
| SocketStreambufEnds.StepSends | garak/include/asio/basic_socket_streambuf.hpp:468-540 | put area ++ accepted characters == bytes put onto the wire ++ new put area, for every operation that keeps every character |
| SocketStreambufEnds.StepReceives | garak/include/asio/basic_socket_streambuf.hpp:414-466 | read ++ get area ++ inbound is the same after every operation, but for a putback past the get area |
| SocketStreambufEnds.UngetInvents | garak/include/asio/basic_socket_streambuf.hpp:443-444 | a putback past the get area puts a NUL in front of what is unread and changes nothing else |
| SocketStreambufRuns.StepConserves | garak/include/asio/basic_socket_streambuf.hpp:414-558 | one operation at one end keeps both directions conserved |
| SocketStreambufRuns.TwoWayConservation | garak/include/asio/basic_socket_streambuf.hpp:414-558 | after every operation of every run without a loss, both ways: written == read ++ get area ++ channel ++ put area |
| SocketStreambufRuns.FailedFlushOverlaps | garak/include/asio/basic_socket_streambuf.hpp:514-522 | a failed flush leaves put area and channel overlapping by what it sent; conservation survives exactly when the script let no byte through |
| SocketStreambufRuns.RunIsPrefix | garak/include/asio/basic_socket_streambuf.hpp:414-558 | up to and including the first failure, whichever it is, each end reads only a prefix of what the other wrote; a putback past the get area adds one NUL in front of what is unread |
| SocketStreambufRuns.LossyMoveDrops | garak/include/asio/basic_socket_streambuf.hpp:219-220 | a move keeps conservation exactly when nothing is pending |
| SocketStreambufRuns.UnbufferedKeepsAll | garak/include/asio/basic_socket_streambuf.hpp:476-488 | unbuffered mode is never left, nothing is ever pending, and even a failed put keeps conservation |
| SocketStreambufRuns.SyncDelivers | garak/include/asio/basic_socket_streambuf.hpp:542-545 | a sync succeeds when the script lets the put area through, and then everything written is on its way |
| SocketStreambufInterleaved.RoundsAreTheOperation | garak/include/asio/basic_socket_streambuf.hpp:414-540 | the rounds of an end that is left alone do together exactly what the whole operation does |
| SocketStreambufInterleaved.InterleavedConservation | garak/include/asio/basic_socket_streambuf.hpp:414-540 | between any two rounds of any interleaving, with bytes arriving in the middle of a loop, both ways: written ++ being written == read ++ get area ++ channel ++ unsent |
| SocketStreambufInterleaved.FailingRoundOverlaps | garak/include/asio/basic_socket_streambuf.hpp:514-522 | when a flush gives up after any number of rounds, the channel has all of the put area but the unsent rest; conservation survives exactly when the rest is all of it |
| SocketStreambufInterleaved.InterleavedIsPrefix | garak/include/asio/basic_socket_streambuf.hpp:414-540 | up to and including the first loss of any interleaving of rounds each end reads only a prefix of what the other wrote or is writing, but for the NUL of a putback too far |
| SocketStreambufRetries.AtLeastOnceDelivery | garak/include/asio/basic_socket_streambuf.hpp:490-527 | over any number of failed flushes all that was written and is not pending is on the wire in order; the wire holds nothing else exactly when no failed flush could move a byte |
| SocketStreambufRetries.WireIsPieces | garak/include/asio/basic_socket_streambuf.hpp:490-527 | the wire consists of prefixes of the successive put areas, the whole put area exactly when its flush succeeds |
| SocketStreambufRetries.RetryDelivers | garak/include/asio/basic_socket_streambuf.hpp:542-545 | when the script lets the put area through, a sync after any failures ends the wire with it and completes all that was written |
| SocketStreambufRetries.AtLeastOnceBothWays | garak/include/asio/basic_socket_streambuf.hpp:414-558 | over every interleaving of two ends, going on after any number of failed flushes at either: each end receives the wire of the other, on which everything flushed occurs in order, exactly once precisely when no failed flush of that end could move a byte |
| SocketStreambufDelivery.FlushCompletes | garak/include/asio/basic_socket_streambuf.hpp:490-523 | a corollary of FlushOkIff: with a kernel that answers in time and never refuses for good, every flush sends everything and the kernel still cooperates |
| SocketStreambufDelivery.RefillCompletes | garak/include/asio/basic_socket_streambuf.hpp:423-464 | with such a kernel underflow receives something exactly when anything is inbound |
| SocketStreambufDelivery.RunWorks | garak/include/asio/basic_socket_streambuf.hpp:414-558 | with such kernels a run can lose something only by a putback past the get area or a move with output pending |
| SocketStreambufDelivery.DrainDelivers | garak/include/asio/basic_socket_streambuf.hpp:414-545 | from any conserved state with such kernels, a sync at either end succeeds and enough gets at the other read all that was written |
| SocketStreambufDelivery.EverythingArrives | garak/include/asio/basic_socket_streambuf.hpp:414-558 | after any run of a new connection that was not ended by such a putback or move, a sync at either end and enough gets at the other read exactly everything written, in order |
| SocketStreambufProgress.LoopEnds | garak/include/asio/basic_socket_streambuf.hpp:423-523 | for every kernel, an end inside a loop is idle after as many rounds of its own as waits remain plus unsent bytes plus one, whatever the other end does in between |
| SocketStreambufProgress.EverythingArrivesByRounds | garak/include/asio/basic_socket_streambuf.hpp:414-558 | the same as EverythingArrives between any two rounds: from the middle of any loops enough rounds of both ends in any order leave them idle, and then a sync and enough gets read everything written |
| Connecting.EndedUnique | garak/include/asio/basic_socket_streambuf.hpp:605-655 | the loop can end in one way only: same endpoints touched, same error |
| Connecting.EndedIsWalked | garak/include/asio/basic_socket_streambuf.hpp:605-655 | the ways the loop can end, said by what happened at each endpoint: which failures make it go on, which stop it, and which error it leaves |
| Connecting.ClearIff | garak/include/asio/basic_socket_streambuf.hpp:605-655 | the error is clear exactly when some endpoint was established, or left pending by a timeout, in time and after all earlier ones failed in a way that lets the loop go on |
| Connecting.ReopenedExact | garak/include/asio/basic_socket_streambuf.hpp:614-618 | every touched endpoint discards the old connection; the socket is open exactly when the last one could be opened, and always after a clear error |
| Connecting.ClearIsEstablishedIff | garak/include/asio/basic_socket_streambuf.hpp:605-655 | the error is clear exactly when an endpoint the loop touched was established or was still pending when poll_connect timed out, and that endpoint is the last one touched |
| Connecting.AnswerIsRightIff | garak/include/asio/basic_socket_streambuf.hpp:638-654 | this for an established connection and null otherwise: exactly when the last endpoint touched was not left pending by a timeout; a null answer always means that no endpoint touched was established |
| Connecting.TimeoutReportedAsSuccess | garak/include/asio/basic_socket_streambuf.hpp:638-654 | a poll timeout without a pending error is reported as success |
| Binders.InitiateRebuilds | garak/include/asio/bind_allocator.hpp:525-635 | through any nest the initiation is called once per handler of the inner token, with that handler inside the token's own nest, the arguments unchanged and the inner return value |
| Binders.InitiatePeels | garak/include/asio/bind_cancellation_slot.hpp:527-637 | the same below any stack of init_wrappers already built |
| Binders.DirectTokenArrivesWhole | garak/include/asio/async_result.hpp:473-484 | with a plain inner handler: exactly one call, with the whole token |
| Binders.HandlerTypeRebinds | garak/include/asio/bind_allocator.hpp:472-488 | completion_handler_type is what the inner token's async_result declares, inside the token's own nest, and is missing exactly when nothing is declared |
| Binders.HandlerTypeAgrees | garak/include/asio/bind_allocator.hpp:472-488 | completion_handler_type is the type of a handler that arrives exactly when the inner token declares the type of the handler it passes on: always, but for a custom async_result that declares another or none |
| Associators.LookupIsOutermost | garak/include/asio/bind_allocator.hpp:687-714 | a lookup answers with the outermost visible layer that supplies a value, else with the default |
| Associators.LookupOnRebound | garak/include/asio/bind_cancellation_slot.hpp:689-716 | a handler inside a nest sees the nest's binders first, then its own associations |
| Associators.LeafAnswers | garak/include/asio/associated_allocator.hpp:55-68 | a plain handler inside a nest answers with what the nest binds for that kind, else with its own allocator, slot or executor respectively, else with the default |
| Associators.InitiationKeepsLookups | garak/include/asio/async_result.hpp:879-919 | the handler that arrives answers a lookup as the token does exactly when a binder decides it or the inner handler answers alike |
| Associators.SwapBinders | garak/include/asio/bind_allocator.hpp:687-714 | swapping adjacent binders of different kinds changes no lookup |
| Associators.ReferenceTransparency | garak/include/asio/associated_allocator.hpp:154-168 | reference_wrappers, any number of them anywhere in a nest, change no allocator or executor lookup; the outermost one hides what is inside it from the cancellation slot |
| Associators.UnspecialisedIff | garak/include/asio/associated_executor.hpp:47-81 | the is_unspecialised marker is present exactly when nothing is found and no binder stands in between |
| Signatures.ResolvesIff | garak/include/asio/async_result.hpp:583-609 | every non-empty signature list resolves in at most one recursive step, the empty list never |
| Signatures.ResolvesToSimple | garak/include/asio/async_result.hpp:199-263 | the result is the list of plain signatures with the same result types and arguments, and simplifying again changes nothing |

## Left out

- Streambuf.BasicStreambuf.Consume: `gptr() + n` is mathematical; overflow of the pointer for an n near 2^64 is undefined in C++ and not modelled.
- StreambufTheorems.RunRefines: does not say what happens after a truncated count has moved an offset out of the array, which is undefined in C++.
- SocketStreambuf.BasicSocketStreambuf.MoveAssign: does not model assigning a streambuf to itself.
- The destructor of the socket streambuf: it is sync when output is pending.
- Descriptor state behind the system calls: the native_non_blocking calls, whose error the next system call overwrites, and the timeout passed to poll, whose outcome the oracle decides.
- What a connection is made of: resolver, DNS, real system calls and the clock are oracles or parameters.
- xsputn, xsgetn, sputbackc, seeking and locales of std::streambuf.
- Failure of allocations and the growth policy of vector: capacity() is any number at least the array length.
- The ASIO_WINDOWS_RUNTIME branches, the non-variadic macro copies and the documentation stubs, which repeat the code modelled here.
- Value categories, noexcept and overload selection; only the outcome of selection is modelled. An associator's nested `type` is not modelled apart from the value its `get` returns.
- bind_executor, the concepts and the probes of async_result, basic_streambuf_ref and basic_socket_iostream: forwarding that adds only easy members.
- Sockets, acceptors, timers and the other classes that forward to services.
