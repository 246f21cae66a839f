# Pimiento verification

A Dafny model of the parts of Pimiento, a desktop front end for the OMP coding agent, where the
hard invariants live, with proofs. Check it with `dafny verify dfyconfig.toml`.

What is modelled, one module a component:

- `Utf8`, `Transcript`: `BoundedText`, the capped buffer behind streamed transcript text. Its head
  fills and freezes, its tail buffer grows to twice a limit before it is compacted, and only a
  char-aligned suffix is shown. The caps are parameters with a tail limit of at least four bytes.
  What can be observed is a function of the whole stream; chunking, compaction and a
  save-and-load in between leave no trace; copying is amortized linear.
- `Wire`, `LineDecoding`, `Base64`, `Reassembler`: the wire decoder. The line splitter refines one
  split of the whole stream, the payload check accepts exactly the canonical encodings, and the
  reassembler emits exactly on complete sequences. The JSON parser is any fixed function.
- `Replay`, `FrameReading`: the two drivers of that pipeline, the transcript replay with its
  counters and the reader of a live child with its queue of frames.
- `ClientProtocol`: request correlation as interleaved steps of callers, reader, writer and closing
  tasks. An action is one stretch of the program between two awaits or one critical section;
  sending `Closed` and closing the channels is one action.
- `Supervision`: the stderr ring, the sliding-window crash breaker and the lifecycle over them.
- `Hydration`: the paged history loop with busy retries, one stale restart and a full fetch,
  against the list of the peer's replies.
- `Redaction`: the scanner that finds secrets and the loop that replaces them.
- `Recents`: the list of recent sessions, stored by time of use.
- `Discovery`: the parser of the login shell's output, and what the script prints.
- `HostBridge`: requests of the peer to the host, with the background tasks that answer them.
- `Seqs`, `Wrappers`: facts and functions on sequences, and values that may be missing.

Code that updates fields or advances indices is a class or a loop here, proved against a function
of its inputs; the theorems are lemmas about those functions.

Where the code differs from its own comments, the model follows the code:

- `render` and `len` leave out the tail when nothing is elided (transcript.rs:186-207), though both
  are described as head, marker and tail; and `tail` can hold text before anything is elided:
  `RenderVersusDisplay`, `LenVersusDisplay`, `RenderDropsTail`.
- The elided byte count is described as monotone (transcript.rs:58-59); it can shrink once the
  64-bit total saturates: `ElidedMonotoneExactly`.
- Late responses are described as events (client.rs:209-213). A response is one only if its entry is
  gone or its caller has dropped the call; one that comes while a call is bound to fail, or is in the
  slot when the timer wins, is lost (client.rs:525-545). `ResponseGoes`, `ReturnableExactly` and
  `LostOnArrivalExactly` say exactly when.
- Recovery from `Dead` is described as a manual reset (supervisor.rs:495-497), but a healthy report or
  an early death also leaves it (supervisor.rs:422-466): `DeadIsLeftExactly`, `DeadWithoutReset`.
- A peer error whose text is the internal restart signal makes hydration start the next page
  request without giving up, for as long as it is sent (session.rs:9383): `StopsExactly`.
- When a stored time is the greatest 64-bit number, the session just used need not come first
  (app_state.rs:670-678): `RememberExactly`.
- Long runs may hold `=` anywhere, not only at their end, and `sk-` takes all secret value bytes, though
  the comments say less (session.rs:5698-5733): `LongRunVersusComment`, `SkDashVersusComment`.
- A live reader treats an unfinished chunk sequence at the end of output as a clean end, a replay
  does not (client.rs:785-792, replay.rs:597-602): `CleanEndVersusReplay`.

## Model

| member | source | states |
|---|---|---|
| Utf8.FloorCharBoundary | crates/pimiento-core/src/transcript.rs:368-376 | the loop returns the greatest char boundary at or before the index, clamped to the length |
| Utf8.CeilCharBoundary | crates/pimiento-core/src/transcript.rs:378-386 | the loop returns the least char boundary at or after the index, clamped to the length |
| Utf8.ValidCut | crates/pimiento-core/src/transcript.rs:57-58 | well-formed text (section 4 of RFC 3629) cut at a char boundary leaves two well-formed texts |
| Utf8.ValidJoin | crates/pimiento-core/src/transcript.rs:57-58 | concatenating well-formed texts gives well-formed text |
| Utf8.CeilNear | crates/pimiento-core/src/transcript.rs:33-35 | a char boundary is at most three bytes away, the rounding slack the caps allow for |
| Utf8.CharIsEncoding | crates/pimiento-core/src/transcript.rs:57-58 | what is read as a character is the encoding of a code point, no surrogate, in the table of section 3 of RFC 3629 |
| Utf8.EncodingIsChar | crates/pimiento-core/src/transcript.rs:57-58 | every encoding of that table is read as one character, whatever follows |
| Transcript.PlanCaps | crates/pimiento-core/src/transcript.rs:20-36 | the two limits of the program leave room for a marker and add up to the 512 KiB budget |
| Transcript.ShownAbsorbs | crates/pimiento-core/src/transcript.rs:137-145 | cutting the tail before an append does not change what the cut after the append shows |
| Transcript.AppendTailShows | crates/pimiento-core/src/transcript.rs:253-274 | appending to the tail buffer, compacting or not, shows the tail of all that was appended, keeps UTF-8 and stays within twice the tail limit |
| Transcript.PushKeepsWellFormed | crates/pimiento-core/src/transcript.rs:43-59 | from every sound value, loaded ones included, an append keeps caps, UTF-8 and shown bytes at most the total |
| Transcript.PushReads | crates/pimiento-core/src/transcript.rs:224-249 | a value that has read a stream has, after an append, read the stream with the chunk: head cut at the last boundary within its limit, tail shown of the rest |
| Transcript.RunShowsStream | crates/pimiento-core/src/transcript.rs:224-274 | after any sequence of appends the observable value is a function of the whole stream alone |
| Transcript.ChunkingIrrelevant | crates/pimiento-core/src/transcript.rs:277-287 | any two chunkings of one text compare equal, and equal the value built from the text at once, whenever compaction happened |
| Transcript.ProjectionEnds | crates/pimiento-core/src/transcript.rs:43-59 | head and tail are a prefix and a suffix of the stream that meet if the limit allows and otherwise fall at most three bytes short of their limits |
| Transcript.SamePush | crates/pimiento-core/src/transcript.rs:277-287 | observable equality is a congruence for appends |
| Transcript.SameExactly | crates/pimiento-core/src/transcript.rs:277-287 | values compare equal exactly when a reader sees the same total, head and tail |
| Transcript.ReloadedStaysSame | crates/pimiento-core/src/transcript.rs:334-362 | a saved and loaded value is accepted, saves to the same shape, and stays equal to the original under all later appends |
| Transcript.LoadsWhatIsSaved | crates/pimiento-core/src/transcript.rs:345-361 | loading accepts exactly the shapes that some sound value saves to |
| Transcript.PushAmortized | crates/pimiento-core/src/transcript.rs:51-52 | bytes copied and moved by one append are paid by twice its size and the drop in hidden bytes |
| Transcript.StreamingIsLinear | crates/pimiento-core/src/transcript.rs:219-223 | over any appends, copies and compaction moves are at most twice the bytes appended; the tail buffer rests within twice its limit |
| Transcript.CostIsWork | crates/pimiento-core/src/transcript.rs:224-274 | what is counted are the bytes that reach the head, those put into the tail buffer, and those a compaction leaves there |
| Transcript.MarkerFits | crates/pimiento-core/src/transcript.rs:22-25 | the marker of any 64-bit count is well-formed text of at most 40 bytes |
| Transcript.DecimalReads | crates/pimiento-core/src/transcript.rs:175-181 | the digits of a count are decimal digits without a needless zero that, read from the left, have the value of the count |
| Transcript.MarkerSays | crates/pimiento-core/src/transcript.rs:175-181 | the marker is its fixed words around digits that read as the count |
| Transcript.DisplayBounded | crates/pimiento-core/src/transcript.rs:302-310 | the rendered form of every sound value is well-formed text within the budget |
| Transcript.DisplayOfStream | crates/pimiento-core/src/transcript.rs:302-310 | bytes are elided exactly when what follows the head outgrows the tail limit; until then the rendered form is the stream |
| Transcript.DisplayOfElided | crates/pimiento-core/src/transcript.rs:302-310 | once bytes are elided the rendered form is a prefix of the stream, the marker of the exact number of bytes missing, and a suffix of the stream |
| Transcript.ElidedMonotoneExactly | crates/pimiento-core/src/transcript.rs:58-59 | an append does not lower the elided count exactly when the bytes newly shown still fit the 64-bit total |
| Transcript.ElidedShrinksWhenSaturated | crates/pimiento-core/src/transcript.rs:224-228 | a loadable value and one more byte for which the elided count goes down |
| Transcript.RenderVersusDisplay | crates/pimiento-core/src/transcript.rs:195-207 | `render` agrees with the `Display` form exactly when bytes are elided or the tail is empty |
| Transcript.LenVersusDisplay | crates/pimiento-core/src/transcript.rs:186-191 | `len` is the length of `render`, within the budget, and the length of the `Display` form in those cases only |
| Transcript.RenderDropsTail | crates/pimiento-core/src/transcript.rs:195-207 | every text one byte longer than the head limit is stored whole but not rendered whole |
| Transcript.BoundedText.PushStr | crates/pimiento-core/src/transcript.rs:224-249 | the three fields after an append, soundness kept, and the exact number of bytes copied and moved |
| Transcript.BoundedText.AppendToTail | crates/pimiento-core/src/transcript.rs:253-274 | the tail buffer after an append, with its cost |
| Transcript.BoundedText.ShownTail | crates/pimiento-core/src/transcript.rs:137-145 | returns the shown tail |
| Transcript.BoundedText.Equals | crates/pimiento-core/src/transcript.rs:282-286 | decides observable equality |
| LineDecoding.JoinLines | crates/omp-rpc-client/src/decoder.rs:165-167 | splitting at newlines loses nothing: joined again, the lines are the stream |
| LineDecoding.WholeContinues | crates/omp-rpc-client/src/decoder.rs:71-123 | more input after an accepted part continues from the state and the rest; after a rejected part it changes neither sink calls nor error class |
| LineDecoding.ChunkedFeedIsWhole | crates/omp-rpc-client/src/decoder.rs:71-123 | any chunking of a byte stream makes the sink calls and reaches the verdict and error class of one whole-stream split with a per-line size check, early rejection included |
| LineDecoding.CleanEnd | crates/omp-rpc-client/src/decoder.rs:131-145 | after an accepted stream, end of stream is clean exactly when the stream is empty or ends in a newline |
| LineDecoding.LineEndings | crates/omp-rpc-client/src/decoder.rs:169-175 | one carriage return before the newline, and no other, is not part of the line |
| LineDecoding.SizesExactly | crates/omp-rpc-client/src/decoder.rs:71-123 | a line of 1048575 bytes is the longest taken, and the longest partial line kept; a longer one is refused with its size |
| LineDecoding.LineDecoder.Feed | crates/omp-rpc-client/src/decoder.rs:71-123 | state, buffer and error are those of the whole-stream reference on the buffered bytes and the input; poisoned exactly on error |
| LineDecoding.LineDecoder.Eof | crates/omp-rpc-client/src/decoder.rs:131-145 | an error exactly when poisoned or a partial line is buffered, and then poisoned |
| Base64.RoundTrip | crates/omp-rpc-client/src/decoder.rs:398-404 | decoding undoes encoding (sections 3.5 and 4 of RFC 4648) |
| Base64.Alphabet | crates/omp-rpc-client/src/decoder.rs:398-404 | each digit is written as the character at its place in the alphabet (table 1 of RFC 4648) |
| Base64.GroupIsNumber | crates/omp-rpc-client/src/decoder.rs:398-404 | four characters are the digits to the base 64 of the number whose digits to the base 256 are the bytes; a short group is filled up with zero bits (section 4 of RFC 4648) |
| Base64.LongExample | crates/omp-rpc-client/src/decoder.rs:398-404 | an example in section 10 of RFC 4648 |
| Base64.EncodeInjective | crates/omp-rpc-client/src/decoder.rs:401-404 | two payloads never share an encoding |
| Base64.CanonicalIsRegex | crates/omp-rpc-client/src/decoder.rs:437-467 | on non-empty input the byte check decides the regular expression it stands for |
| Base64.PayloadExact | crates/omp-rpc-client/src/decoder.rs:387-412 | accepted are exactly the canonical encodings of 1 to 262144 bytes, with those bytes as the result; longer payloads are reported as too large |
| Base64.RejectedEncodesNothing | crates/omp-rpc-client/src/decoder.rs:387-412 | a payload rejected as malformed is the encoding of nothing |
| Reassembler.ExtractMeta | crates/omp-rpc-client/src/decoder.rs:334-383 | accepted metadata is within every limit on id, count, index and length |
| Reassembler.ParseChunk | crates/omp-rpc-client/src/decoder.rs:270-275 | an accepted chunk has metadata in range and 1 to 262144 payload bytes |
| Reassembler.MadeChunkExactly | crates/omp-rpc-client/src/decoder.rs:334-412 | for a frame with all its fields, in numbers: which are accepted, which are refused as too large and with which size, and which otherwise |
| Reassembler.Utf16OfJoin | crates/omp-rpc-client/src/decoder.rs:342-345 | the length of an id in UTF-16 units adds up over its parts |
| Reassembler.OnlyAwaitingIsPending | crates/omp-rpc-client/src/decoder.rs:248-268 | after a push something is pending exactly when more chunks are awaited: errors and completed frames leave the fresh state |
| Reassembler.RunTracks | crates/omp-rpc-client/src/decoder.rs:277-305 | in every history without errors the pending sequence is exactly the last chunks pushed, in order, with their payloads |
| Reassembler.EmitsExactly | crates/omp-rpc-client/src/decoder.rs:248-329 | after any history, failed pushes included, a pushed chunk hands on a frame exactly when the last pushes since the latest failure were all chunks of one sequence, in order, whose payloads have the declared length and parse to that object |
| Reassembler.ErrorsAreForgotten | crates/omp-rpc-client/src/decoder.rs:263-267 | after a failed push the reassembler is as good as new: its state is that of the pushes since |
| Reassembler.PlainExactly | crates/omp-rpc-client/src/decoder.rs:248-262 | after any history a value that is no chunk is accepted exactly when it is an object and nothing is pending, and is then handed on as it is |
| Reassembler.AcceptedExactly | crates/omp-rpc-client/src/decoder.rs:248-329 | a list of values is accepted with nothing pending and hands on given frames exactly when it reads as plain objects and complete sequences with these frames, in order |
| Reassembler.PlainStream | crates/omp-rpc-client/src/decoder.rs:248-262 | a stream of plain objects is handed on as it is |
| Reassembler.RefusalsExactly | crates/omp-rpc-client/src/decoder.rs:248-329 | a chunk refused by itself is refused for its own reason, and every other refusal is a protocol violation |
| Reassembler.CompleteEmits | crates/omp-rpc-client/src/decoder.rs:307-328 | a complete sequence ends in the final check of its joined payload and the fresh state |
| Reassembler.SplitReassembles | crates/omp-rpc-client/src/decoder.rs:248-329 | cutting a payload of legal size into 2 to 256 legal pieces and pushing their chunks awaits all but the last, which returns what the payload parses to |
| Reassembler.WholeSequence | crates/omp-rpc-client/src/decoder.rs:248-329 | any complete sequence pushed into a fresh reassembler is awaited chunk by chunk and then concluded |
| Reassembler.ChunkReassembler.PushValue | crates/omp-rpc-client/src/decoder.rs:248-268 | the pending state and the verdict after a push, error cleanup included |
| Reassembler.ChunkReassembler.PushChunk | crates/omp-rpc-client/src/decoder.rs:270-329 | the verdict of a chunk, and the pending state if it is accepted |
| Replay.CompletedCount | crates/omp-rpc-client/src/decoder.rs:351-372 | a sequence that a chunk completes has 4 to 256 chunks |
| Replay.StepKeepsBalance | crates/pimiento-core/src/replay.rs:530-577 | every accepted frame keeps: logical + chunk = physical + sequences, 4 to 256 chunks a finished sequence, and the flag agrees with the reassembler |
| Replay.ProcessKeepsBalance | crates/pimiento-core/src/replay.rs:530-577 | so does every accepted list of lines |
| Replay.ReplayBytes | crates/pimiento-core/src/replay.rs:508-611 | succeeds exactly on accepted streams with nothing left over; then it counted the lines, the frames and the chunk frames of the stream, and logical = physical - chunk + sequences with 4 to 256 chunk frames a sequence |
| Replay.AcceptedStream | crates/pimiento-core/src/replay.rs:508-611 | a stream is accepted exactly when its lines fit and parse to objects, the rest leaves room for a newline, the reassembler accepts the objects and all it hands on decodes; frames and counters are then those of the stream |
| Replay.ReplaysExactly | crates/pimiento-core/src/replay.rs:508-611 | a replay succeeds exactly on whole lines of objects, with nothing after them, that read as plain objects and complete sequences whose frames all decode |
| Replay.ReplayedReads | crates/pimiento-core/src/replay.rs:508-611 | what a replay that succeeds has read are plain objects and complete sequences, one frame each; it counted lines, frames and chunks |
| Replay.PlainLinesReplay | crates/pimiento-core/src/replay.rs:530-577 | lines of plain objects that decode are replayed, and the frames are their decodings |
| Replay.ReadsAgreeWithReplay | crates/omp-rpc-client/src/client.rs:793-822 | however bytes arrive, the reader rejects exactly what a replay rejects, and otherwise yields its frames |
| FrameReading.LiveExactly | crates/omp-rpc-client/src/client.rs:771-824 | a whole run of the reader returns the frames of the reads before the first bad one and no others; it ends with the error of that read, of the class one split of all bytes reports, or with a failing pipe, or at the end of output, cleanly exactly when no partial line is left |
| FrameReading.LiveEnds | crates/omp-rpc-client/src/client.rs:785-792 | a run in which all reads are accepted ends with a failing pipe if there is one, cleanly if the output is empty or ends in a newline, and else for its partial line |
| FrameReading.PlainLinesLive | crates/omp-rpc-client/src/client.rs:771-824 | however such lines arrive, a live reader returns their decodings in order and ends cleanly |
| FrameReading.CleanEndVersusReplay | crates/omp-rpc-client/src/client.rs:785-792 | what replays ends cleanly with the same frames; the reader ends cleanly where a replay of the same bytes fails exactly when the only fault is an unfinished chunk sequence |
| FrameReading.UnfinishedSequenceEndsCleanly | crates/pimiento-core/src/replay.rs:597-602 | any single line that parses to a first chunk is such an input |
| FrameReading.UnfinishedSequenceInput | crates/pimiento-core/src/replay.rs:597-602 | a three-byte output that ends cleanly for the reader and is refused by a replay |
| FrameReading.FrameReader.Next | crates/omp-rpc-client/src/client.rs:771-824 | each call takes the first frame off what remains to be returned, or reports how it ends when nothing remains |
| ClientProtocol.StepKeepsSound | crates/omp-rpc-client/src/client.rs:207-236 | every step of every interleaving keeps the five invariants |
| ClientProtocol.ReachableSound | crates/omp-rpc-client/src/client.rs:494-546 | so every reachable state has them: nothing pending after close, slots hold own responses, one final `Closed`, every routed frame in exactly one place |
| ClientProtocol.RunGrows | crates/omp-rpc-client/src/client.rs:857-872 | in every interleaving: once closed the pending map is and stays empty, an outcome is never replaced, slots and events are never taken back, nothing follows `Closed` |
| ClientProtocol.EventsAndSlots | crates/omp-rpc-client/src/client.rs:207-236 | a response sits in the slot of the call that registered its id or is an event, never both; `Closed` is sent once, last, exactly when closing has finished |
| ClientProtocol.OutcomeIsOwnResponse | crates/omp-rpc-client/src/client.rs:525-545 | a call returns a response only if it carries its id and came in its own slot |
| ClientProtocol.WaitersFinish | crates/omp-rpc-client/src/client.rs:864-872 | after close every call still under way can finish by itself in at most three steps: with the response in its slot if it waits, or has yet to hand its line to a living writer; with the failure it has decided on; and else because the child died |
| ClientProtocol.FailuresHaveCauses | crates/omp-rpc-client/src/client.rs:528-545 | in every run a call that reports a timeout had its timer fire, and one that reports a dead child had the client closed or the writer gone |
| ClientProtocol.TimeoutIsReported | crates/omp-rpc-client/src/client.rs:528-540 | once its timer has fired a call reports a timeout in every continuation in which it is not dropped |
| ClientProtocol.CanAlwaysClose | crates/omp-rpc-client/src/client.rs:857-872 | whatever has happened, the client can be closed to the end: nothing is pending, the writer is gone, and `Closed` has been sent once |
| ClientProtocol.LateCallFails | crates/omp-rpc-client/src/client.rs:506-516 | a call begun after close fails at once and leaves nothing pending |
| ClientProtocol.WaitingCallReceives | crates/omp-rpc-client/src/client.rs:525-545 | a response that is in its slot while its call waits is what the call returns, in every continuation in which neither the timer fires for the call nor its caller drops it |
| ClientProtocol.ResponseGoes | crates/omp-rpc-client/src/client.rs:207-236 | in every reachable state a routed response goes to the events side exactly when no sender is registered for its id or the receiver is gone, and else into the empty slot |
| ClientProtocol.ReturnableExactly | crates/omp-rpc-client/src/client.rs:518-545 | a response in a slot can still be returned by some continuation exactly when its call waits, or has yet to hand its line to a living writer, or has returned it; else it is lost in every continuation |
| ClientProtocol.LostOnArrivalExactly | crates/omp-rpc-client/src/client.rs:209-228 | a response routed into a slot is lost from the start exactly when its call has already decided to fail, or can only fail because the writer is gone |
| ClientProtocol.FilledSlotCanTimeOut | crates/omp-rpc-client/src/client.rs:528-540 | from every reachable wait with a filled slot the timer can still win, and the response is then lost |
| ClientProtocol.LateResponseCanVanish | crates/omp-rpc-client/src/client.rs:541-544 | a reachable state in which a response came between a timeout and the removal of the entry, and was neither returned nor sent as an event |
| Supervision.RingHoldsTail | crates/omp-rpc-client/src/supervisor.rs:225-242 | after any pushes the ring holds exactly the last bytes of the stream, up to its capacity |
| Supervision.StderrRing.Push | crates/omp-rpc-client/src/supervisor.rs:228-242 | the bulk push keeps the last bytes of the old contents and the chunk |
| Supervision.AppendBytewise | crates/omp-rpc-client/src/client.rs:670-678 | evicting and appending byte by byte keeps the same bytes as the bulk push |
| Supervision.RestartBreaker.Record | crates/omp-rpc-client/src/supervisor.rs:302-313 | the eviction loop leaves the deaths from the first that is inside the window; tripped exactly at the limit |
| Supervision.DropIsRecent | crates/omp-rpc-client/src/supervisor.rs:304-311 | with ordered times, evicting from the front selects exactly the deaths younger than the window |
| Supervision.BreakerHoldsRecent | crates/omp-rpc-client/src/supervisor.rs:302-324 | for every run with a clock that does not go back, the breaker holds exactly the deaths since the last accepted reset that lie less than the window before the latest |
| Supervision.DeathVerdict | crates/omp-rpc-client/src/supervisor.rs:422-455 | a death leads to `Dead(CrashLoop)`, with the exit code and the right stderr tail, exactly when at least three deaths count, and else to `Restarting` with their number |
| Supervision.LogIsComplete | crates/omp-rpc-client/src/supervisor.rs:449-520 | the event log is the full list of states entered, and the current state is its last |
| Supervision.StateSaysWhy | crates/omp-rpc-client/src/supervisor.rs:422-520 | in every run the state says what was last reported, with its reason, exit code and text |
| Supervision.RingHoldsRecorded | crates/omp-rpc-client/src/supervisor.rs:402-404 | in every run the ring holds the last 64 KiB of the stderr recorded since the last accepted reset |
| Supervision.DeadIsLeft | crates/omp-rpc-client/src/supervisor.rs:422-520 | from any state that is `Dead`, the calls that leave it are exactly a healthy report, a reset and a death below the limit |
| Supervision.DeadIsLeftExactly | crates/omp-rpc-client/src/supervisor.rs:422-520 | in every run with a clock that does not go back, `Dead` is left by exactly a healthy report, a reset, and a death with which fewer than three count |
| Supervision.DeadWithoutReset | crates/omp-rpc-client/src/supervisor.rs:459-466 | after a fatal error, a healthy report ends in `Running` and a death in a first restart, with no reset between |
| Supervision.Supervisor.OnChildDied | crates/omp-rpc-client/src/supervisor.rs:422-455 | state, breaker, ring and log after a death |
| Supervision.Supervisor.ResetBreaker | crates/omp-rpc-client/src/supervisor.rs:503-520 | accepted exactly in `Dead`; then breaker and ring are emptied |
| Hydration.RequestsBounded | crates/pimiento-app/src/session.rs:9330-9414 | at most 800 page requests, plus eight for each error text taken for the restart signal; at most one restart; at most 50 pages kept |
| Hydration.ClassifyExactly | crates/pimiento-app/src/session.rs:9294-9312 | a refusal is busy exactly when code or text mention `session_busy` or say that the session is changing, and stale exactly when it is not busy and they mention `stale_cursor` or say that the cursor is stale |
| Hydration.BusyCodeDecides | crates/pimiento-app/src/session.rs:9294-9312 | the code `session_busy` is busy, whatever the text |
| Hydration.StaleCodeDecides | crates/pimiento-app/src/session.rs:9294-9312 | the code `stale_cursor` alone is stale |
| Hydration.ShoutedBusy | crates/pimiento-app/src/session.rs:9294-9312 | capitals make no difference |
| Hydration.BusyIsRetried | crates/pimiento-app/src/session.rs:9356-9370 | fewer than eight busy refusals before a page is served leave everything but the number of requests as if they had not come |
| Hydration.EighthBusyGivesUp | crates/pimiento-app/src/session.rs:9356-9394 | the eighth in a row gives up with the pages served so far |
| Hydration.StaleRestartsOnce | crates/pimiento-app/src/session.rs:9363-9383 | the first stale cursor starts over from nothing, a second one gives up |
| Hydration.StopsExactlyBy | crates/pimiento-app/src/session.rs:9330-9414 | which replies stop the loop, and why |
| Hydration.StopsExactly | crates/pimiento-app/src/session.rs:9383 | hydration is sure to stop by its 800th reply exactly when no error text the peer may send equals the restart signal |
| Hydration.SentinelNeverStops | crates/pimiento-app/src/session.rs:9383 | against a peer that always sends that text, hydration goes on without end |
| Hydration.HistoryIsServed | crates/pimiento-app/src/session.rs:9330-9414 | the history is exactly the pages served since the restart, in order; a restart happens exactly at the first stale cursor; each page is asked for with the cursor of the one before |
| Hydration.FinishExactly | crates/pimiento-app/src/session.rs:9384-9394 | the full fetch adds its page exactly when the loop gave up and nothing is shown |
| Hydration.HydrateHistoryPages | crates/pimiento-app/src/session.rs:9330-9414 | the nested loops compute that history, the page-limit notice, and at most one full fetch, made exactly after giving up with no rows |
| Redaction.MatchIsGood | crates/pimiento-app/src/session.rs:5636-5750 | a matched span lies inside the text, has no byte of a multi-byte character and no bracket, and is not followed by an alphanumeric byte |
| Redaction.MatchExactly | crates/pimiento-app/src/session.rs:5636-5750 | in letters: a span is a secret exactly when a keyword stands before a value that ends there, or, where there is none, when it is the whole long run that starts there |
| Redaction.BearerExactly | crates/pimiento-app/src/session.rs:5637-5649 | `bearer` in any case, white space, and a value of secret characters to its end |
| Redaction.ApiKeyExactly | crates/pimiento-app/src/session.rs:5651-5675 | `api` and `key` in any case with at most one of `_` and `-` between, `=` or `:`, any white space, and a value to its end |
| Redaction.TokenExactly | crates/pimiento-app/src/session.rs:5677-5696 | `token` in any case not after a letter or digit, `=` or `:`, any white space, and a value to its end |
| Redaction.SkDashExactly | crates/pimiento-app/src/session.rs:5698-5708 | `sk-` in any case and a value to its end |
| Redaction.LongRunExactly | crates/pimiento-app/src/session.rs:5710-5747 | a run of at least forty characters to its end with the mixture the program asks for |
| Redaction.MatchStable | crates/pimiento-app/src/session.rs:5636-5750 | text that begins with the bytes of a matched span matches there too |
| Redaction.NothingLeft | crates/pimiento-app/src/session.rs:5598-5613 | redaction is complete on its own output: no position of it starts a secret |
| Redaction.UnchangedExactly | crates/pimiento-app/src/session.rs:5598-5613 | text is left as it is exactly when no position of it starts a secret |
| Redaction.Idempotent | crates/pimiento-app/src/session.rs:5598-5613 | a second pass changes nothing |
| Redaction.FirstSecretReplaced | crates/pimiento-app/src/session.rs:5603-5611 | what precedes the first secret is kept, the secret is replaced, and what follows is redacted by itself |
| Redaction.SecretIsHidden | crates/pimiento-app/src/session.rs:5598-5613 | of a text that holds a keyword with a value, and no secret before it, what is shown is what precedes, `[redacted]`, and the rest redacted by itself |
| Redaction.NoCredentialLeft | crates/pimiento-app/src/session.rs:5598-5613 | nowhere in what is shown does a keyword stand before a value |
| Redaction.OutputIsText | crates/pimiento-app/src/session.rs:5609-5611 | redaction never splits a character: well-formed text stays well-formed |
| Redaction.SkDashVersusComment | crates/pimiento-app/src/session.rs:5698-5708 | after `sk-` the code takes the span of its comment exactly when the key bytes of the comment are not followed by one of `. + / =` |
| Redaction.SkDashInput | crates/pimiento-app/src/session.rs:5698-5708 | `sk-.` is a secret to the code and not to the comment |
| Redaction.LongRunVersusComment | crates/pimiento-app/src/session.rs:5710-5747 | the code takes the run of its comment, with padding at the end only, exactly when it takes none or no run byte follows the padding |
| Redaction.LongRunInput | crates/pimiento-app/src/session.rs:5731-5733 | twenty letters, an equals sign and twenty digits are a run to the code and not to the comment |
| Redaction.CopiesCharacter | crates/pimiento-app/src/session.rs:5609-5611 | copying a character at a time equals copying a byte at a time |
| Redaction.FindValue | crates/pimiento-app/src/session.rs:5627-5648 | the two skipping loops find the end of white space and value |
| Redaction.FindBearer | crates/pimiento-app/src/session.rs:5637-5649 | decides the bearer pattern at a position |
| Redaction.FindApiKey | crates/pimiento-app/src/session.rs:5651-5675 | decides the API key pattern |
| Redaction.FindToken | crates/pimiento-app/src/session.rs:5677-5696 | decides the token pattern, boundary before it included |
| Redaction.FindSkDash | crates/pimiento-app/src/session.rs:5698-5708 | decides the `sk-` pattern |
| Redaction.FindLongRun | crates/pimiento-app/src/session.rs:5710-5747 | the flag loop decides the long-run pattern |
| Redaction.MatchSecretSpan | crates/pimiento-app/src/session.rs:5636-5750 | the end of the first pattern that matches, in the order of the program |
| Redaction.RedactSecretsForDisplay | crates/pimiento-app/src/session.rs:5598-5613 | the loop over characters computes the byte-level redaction of every well-formed text |
| Recents.NormalizeIsNormal | crates/pimiento-app/src/app_state.rs:640-653 | normalizing yields usable sessions in order, one a file, at most twelve |
| Recents.NormalExactly | crates/pimiento-app/src/app_state.rs:640-653 | normalizing changes nothing exactly when there is nothing to normalize |
| Recents.NormalizeTwice | crates/pimiento-app/src/app_state.rs:640-653 | normalizing is idempotent |
| Recents.NormalizeKeepsNewest | crates/pimiento-app/src/app_state.rs:640-653 | only older entries for a kept file, or entries after twelve kept ones, are lost |
| Recents.NormalizeKeepsFirstOfTies | crates/pimiento-app/src/app_state.rs:644-650 | of entries with one file and one time the first listed is kept: the sort is stable |
| Recents.RememberInserts | crates/pimiento-app/src/app_state.rs:303-317 | saving after a remember puts the new record into its place in the old list without that file |
| Recents.RememberExactly | crates/pimiento-app/src/app_state.rs:291-318 | remembering is move-to-front exactly when no other session sits at the greatest time with a smaller path |
| Recents.TieAtTheEndOfTime | crates/pimiento-app/src/app_state.rs:670-678 | a list and a call for which the session just used does not come first |
| Recents.StepIsMoveToFront | crates/pimiento-app/src/app_state.rs:291-330 | one remember or forget, as the user sees the list, is one step of a move-to-front list of twelve |
| Recents.RunIsMoveToFront | crates/pimiento-app/src/app_state.rs:291-330 | over whole sequences of calls, from whatever the file held, the stored list reads as the move-to-front list |
| Recents.EarlyClocksNeverShadow | crates/pimiento-app/src/app_state.rs:670-678 | the condition holds as long as clock and stored times are not within the length of the run of the end of time |
| Recents.NormalizeRecentSessions | crates/pimiento-app/src/app_state.rs:640-653 | the retain, sort, dedupe and truncate steps compute the normal list |
| Recents.NextLastUsedAt | crates/pimiento-app/src/app_state.rs:670-678 | the time for a new record, later than all stored times unless one is the greatest there is |
| Recents.PathDiffers | crates/pimiento-app/src/app_state.rs:644-650 | the first component that differs decides which of two paths comes first |
| Recents.SessionPersistence.LoadRecentSessions | crates/pimiento-app/src/app_state.rs:193-198 | a loaded list is normal |
| Recents.CleanedIsTrimmed | crates/pimiento-app/src/app_state.rs:297-312 | what is left of a text after trimming is not empty and has no white space at its ends |
| Recents.CleanedKeeps | crates/pimiento-app/src/app_state.rs:297-312 | trimming keeps all between the white space at both ends, and nothing of a blank text |
| Recents.RequestSays | crates/pimiento-app/src/app_state.rs:291-312 | the trimmed name is stored, without one the name after the directory; a blank file or none asks for nothing |
| Recents.SessionPersistence.RememberRecentSession | crates/pimiento-app/src/app_state.rs:291-318 | the stored list after remembering: unchanged without a file, a directory or a successful write; else with the trimmed file and name in place, which is the move-to-front step under the condition |
| Recents.SessionPersistence.ForgetSession | crates/pimiento-app/src/app_state.rs:320-330 | once written the stored list no longer has the file, and the last-session record is cleared if it names it |
| Discovery.RoundTrip | crates/omp-rpc-client/src/discovery.rs:355-395 | parsing what the script prints for a good path and an environment gives both back, even if values hold newlines, equals signs or the marker |
| Discovery.PathComesBackExactly | crates/omp-rpc-client/src/discovery.rs:370-377 | a printed path is read back exactly when it is neither blank nor padded and has no newline and no marker |
| Discovery.FallbackRoundTrip | crates/omp-rpc-client/src/discovery.rs:388-392 | the newline fallback gives back path and environment as long as no value spans lines |
| Discovery.MissingMarkerExactly | crates/omp-rpc-client/src/discovery.rs:361-367 | the one error is reported exactly when the marker does not occur |
| Discovery.ResolvedIsGood | crates/omp-rpc-client/src/discovery.rs:369-377 | whatever the output, a path that is found is a good one |
| Discovery.EnvIsGood | crates/omp-rpc-client/src/discovery.rs:397-417 | whatever the output, keys are non-empty without equals sign, and no key or value has a NUL |
| Discovery.ReadingSettles | crates/omp-rpc-client/src/discovery.rs:355-395 | whatever was read, printed and read again is the same |
| Discovery.RecordsComeBack | crates/omp-rpc-client/src/discovery.rs:397-417 | separated records are collected into the environment they list, later records winning |
| Discovery.TrimAsciiSpace | crates/omp-rpc-client/src/discovery.rs:426-436 | the two index loops cut exactly the blanks at both ends |
| Discovery.TrimKeeps | crates/omp-rpc-client/src/discovery.rs:426-436 | what is left is all between spaces, tabs and carriage returns at both ends |
| Discovery.FindSubsliceIn | crates/omp-rpc-client/src/discovery.rs:419-424 | the first occurrence of the needle, none exactly when there is none |
| Discovery.ParseEnvRecords | crates/omp-rpc-client/src/discovery.rs:397-417 | the loop over pieces computes the environment |
| Discovery.ParseLoginShellOutput | crates/omp-rpc-client/src/discovery.rs:355-395 | the parser computes the specified result, with its error and path guarantees |
| HostBridge.StepCounts | crates/pimiento-app/src/host_bridge.rs:78-161 | no step lets results and open requests for an id outgrow the requests accepted with it |
| HostBridge.CancelCounts | crates/pimiento-app/src/host_bridge.rs:131-137 | a cancel takes its target out of everything and leaves every other id its counts |
| HostBridge.FirstIsAccepted | crates/pimiento-app/src/host_bridge.rs:78-127 | an enabled bridge accepts a request whose id is nowhere |
| HostBridge.RefusedExactly | crates/pimiento-app/src/host_bridge.rs:84-127 | a request is refused exactly when the bridge is off, one of its kind waits under its id, or the id is in flight; else it is listed last with its own fields |
| HostBridge.SettledWaitsNoMore | crates/pimiento-app/src/host_bridge.rs:139-161 | in every run, at most one call and one URI request wait under an id, so an id that is settled waits no more |
| HostBridge.SettledCall | crates/pimiento-app/src/host_bridge.rs:318-325 | with a connection a settled call has one task and is in flight; without one its id is free and no task works on it; nothing else changes |
| HostBridge.AtMostOneResult | crates/pimiento-app/src/host_bridge.rs:78-161 | in every run an id has at most as many results as the peer made requests with it; with one request it is in at most one of pending calls, pending URIs and in flight, and is answered at most once |
| HostBridge.DeadStaysSilent | crates/pimiento-app/src/host_bridge.rs:348-353 | an id that is neither waiting nor in flight gets no result until the peer uses it again |
| HostBridge.NoneAfterTheEnd | crates/pimiento-app/src/host_bridge.rs:68-72 | after a cancel or a reset no result is sent for the id, however late its task is done, unless the peer uses the id again |
| HostBridge.OldResultExactly | crates/pimiento-app/src/host_bridge.rs:346-357 | in every run, after a cancel or a reset with a task under way, some continuation with at most n further requests for its id sends the task's result exactly when n is positive |
| HostBridge.TasksAnswerOnce | crates/pimiento-app/src/host_bridge.rs:346-357 | letting all tasks finish sends exactly one result for each id in flight and none for any other |
| HostBridge.RunKeepsOrder | crates/pimiento-app/src/host_bridge.rs:78-161 | in every run waiting calls and waiting URI requests are listed in the order in which they were accepted |
| HostBridge.SentWasRequested | crates/pimiento-app/src/host_bridge.rs:318-363 | every result answers a request just as a frame made it |
| HostBridge.ReusedIdGetsOldResult | crates/pimiento-app/src/host_bridge.rs:346-357 | an id used again after a cancel gets the result of the earlier request |
| HostBridge.CallAndUriShareId | crates/pimiento-app/src/host_bridge.rs:84-127 | a call and a URI request may wait under one id |
| HostBridge.HostBridgeState.Observe | crates/pimiento-app/src/host_bridge.rs:78-129 | the collections after a frame; no id gains more than the one request that was accepted |
| HostBridge.HostBridgeState.Cancel | crates/pimiento-app/src/host_bridge.rs:131-137 | the id is in none of the collections afterwards |
| HostBridge.HostBridgeState.TakeCall | crates/pimiento-app/src/host_bridge.rs:139-147 | a call is taken exactly if one waits under the id, which is then in flight |
| HostBridge.HostBridgeState.TakeUri | crates/pimiento-app/src/host_bridge.rs:153-161 | the same for URI requests |

## Left out

- LineDecoding.ChunkedFeedIsWhole: compares sink calls, accepted rest and class of the error, not the size in the message of an over-long line, because that size depends on how much had arrived.
- Supervision.DeathVerdict: models stderr tails as bytes; the lossy conversion to UTF-8 is not modelled.
- Recents.RunIsMoveToFront: holds for runs in which every call meets the condition of `RememberExactly`, because a tie at the end of time breaks it.
- Recents.SessionPersistence.RememberRecentSession: a failed write leaves the old file; a write that fails after truncating it is not modelled. How a text becomes a path, and the name after a directory, are any fixed functions.
- HostBridge.NoneAfterTheEnd: a result counts as sent when its task finds the id in flight and hands the frame to the client; how long the client takes to write it is not modelled.
- Paths are their components in a code that keeps their order, so two spellings of one path are one path.
- JSON and the typed frame catalogue: any fixed functions; serialization formats are the fields they hold.
- The base64 library decoder is taken to ignore unused low bits; a stricter one accepts the same payloads, because the program compares with a fresh encoding.
- Channel capacities and the wait of a sender on a full channel.
- Processes, pipes, timers, files and the network: steps or inputs only. Sleeping between busy retries has no effect on the model.
- The race in `shutdown_child` over who receives `Closed`.
- `refresh_state`, window and theme persistence, rendering, menus, key handling.
- The contents of error messages, notices and result frames.
- `projection.rs`: hydrating is appending a page, clearing is emptying the list, and a page counts the rows it hydrates to.
- Discovery of sessions on disk, `collect_launcher_sessions`, version probing and absolute-path checks.
- `git_status.rs`, `update.rs`, `todos.rs`, `diff.rs`, `models.rs`, `strip_ansi`: thin code without a deep invariant.
