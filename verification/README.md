# corosh SFTP: a verified model

corosh contains an SFTP version 3 client and server written from scratch on top of any byte
stream: `src/sftp.cpp`, `include/corosh/sftp.hpp`, and an example backend in
`example/server.cpp`. This project models that engine in Dafny, as the code is written, and
proves what it keeps over every input, every interleaving and every run. Where the code does not
do what its documentation promises, the model follows the code, a lemma names a concrete failing
run or input, and another lemma gives the exact condition under which the promise holds.

`dafny verify dfyconfig.toml` checks everything.

## Layers

| file | what it models |
|---|---|
| `Wire`, `Cursors`, `Writers`, `Attrs` | big-endian scalars and strings with their 32-bit narrowing; the `take_*` and `put_*` cursors with a sticky error; ATTRS |
| `Framing` | `match_packet` and read-until-matched |
| `Requests`, `Dispatch` | every client encoder; the opcode switch of `serve_worker`; the round trip between them |
| `Replies`, `Completions` | every reply encoder, `build_status`; the client's response records; the round trip back |
| `Handshake` | INIT and VERSION |
| `ResponseQueues`, `RequestHistory`, `Sessions` | the intrusive response list as a linked structure; whole lives of it; `read_one_` |
| `ClientMux`, `MuxHistory`, `ClientLiveness` | any number of client coroutines on one stream: safety on arbitrary bytes, the life of the list in every interleaving, and termination against a server that answers each request once |
| `ServerPool` | any number of server workers on one stream |
| `EndToEnd`, `EndToEndLiveness`, `StrayReplies` | coroutines, workers and the two streams between them: what each caller is told; when it is told at all, by refinement of `ClientLiveness`; and two runs that tell a caller what was not meant for it |
| `Directory`, `Files`, `FanOut`, `Transfers`, `Handles`, `TrackedWork` | directory reading end to end, multi-buffer transfers, short transfers, the handle table, the join counter |

Mutable objects of the source are classes whose methods are proved against value-level functions;
the lemmas are about those functions. Concurrency is modelled as step relations: a step is what a
coroutine or worker does between two suspensions, and every invariant is proved for every step and
then for every run.

`EndToEnd` puts the two sides together, for any number of coroutines and workers. As long as no
stream is torn (no write fails, and no read of a worker) and every result is sent as a packet (it
fits, and it is not the data of a READ), a call of at most 2^32 that was told anything but a
cancellation was told the result the backend produced for that very call, with exactly the caller's
arguments (`EndToEnd.OwnAnswer`): whatever is cancelled, whatever the client fails to read, and
however records drop off the list. If moreover no read of the client fails, nobody is cancelled, and
requests are issued with the discipline of `RequestHistory.LosslessRuns` and with at most 2^32
records on the list, then the bound on the number of calls is not needed
(`EndToEndLiveness.OwnAnswerAlways`), somebody can go on while a call has not returned
(`EndToEndLiveness.AllServed`), and no run goes on for ever without new requests
(`EndToEndLiveness.EndlessRunsAsk`).

## What the code does not keep, and exactly when it does

- `response_queue::complete` never unlinks a record. A request whose younger sibling is answered
  first is off the list as soon as a third request is issued, and its coroutine waits for ever
  (`RequestHistory.RequestLost`, `ClientMux.StrandedRun`, `ClientMux.LostWaits`). No request is lost
  in a run if and only if none is issued while the newest one is answered and an older one is not
  (`RequestHistory.LosslessRuns`, and for every interleaving of the coroutines
  `MuxHistory.NoneStranded`).
- A record that was answered can be completed again (`RequestHistory.CompletedTwice`). In a run
  every record is completed at most once if and only if no reply repeats the id of an answered
  request that is still on the list, and no connection ends while one is
  (`RequestHistory.OnceRuns`, `MuxHistory.NoneTwice`).
- Ids count up in 32 bits, so after 2^32 requests more a late reply completes the record of another
  call (`StrayReplies.IdAnswersAnother`). With at most 2^32 calls it does not
  (`EndToEnd.OwnAnswer`).
- The server's successful reply to READ is sent without its header, whatever the data; every other
  reply is a whole packet (`Replies.SentIsPacket`, `ServerPool.OutputIsPackets`). A file that holds
  a packet therefore answers another caller, whose request has not even been sent
  (`StrayReplies.FileAnswers`).
- A call can return as a success with nothing in its record: one request, answered with an empty
  packet (`ClientMux.ShortPacketRun`); or a read that fails after the record has dropped off the list
  (`ClientMux.StrandedFails`). It happens on exactly these two kinds of step
  (`ClientMux.EmptyHanded`); the short packet stays in the buffer (`Sessions.Session.ReadOne`).
- ATTRS with the extended flag is written without the extended list, so a setstat with that flag is
  refused (`Dispatch.ExtendedRefused`). Attributes arrive if and only if the flag is clear
  (`Attrs.AttrsRoundTrip`, `Completions.AttrsReplyRoundTrip`, `Completions.NamesRoundTrip`).
- INIT carries its type in host order and is accepted only from little-endian clients
  (`Handshake.InitAccepted`).
- The multi-buffer transfers drop the error (`FanOut.ErrorDropped`): the count is the total if and
  only if every failed piece was empty (`FanOut.CountIsTotal`). A multi-buffer read can miss bytes
  that are there (`FanOut.ReadRefused`): it is complete if and only if no piece is hindered by the
  server's limit, by the 32-bit length or by an offset that wraps (`FanOut.ReadsConsecutive`). A
  multi-buffer write can go to the front of the file (`FanOut.WriteWraps`): it leaves the file as
  one write would if and only if no piece wraps (`FanOut.WritesCommute`).
- A directory iterator that fails ends the listing without an error (`Directory.ListingCut`): the
  listing is whole if and only if no increment but the last one fails (`Directory.YieldsAll`,
  `Directory.ReadsExample`).

## Model

| member | source | states |
|---|---|---|
| `Wire.ReadU32OfU32` | src/sftp.cpp:53-64 | a 32-bit value put in network order is read back, whatever follows it |
| `Wire.ReadU64OfU64` | src/sftp.cpp:67-80 | the same for the two halves of a 64-bit value |
| `Cursors.ConstBuffer.TakeU8` | src/sftp.cpp:40-50 | value and advance, or the sticky error with value zero and no advance |
| `Cursors.ConstBuffer.TakeU32` | src/sftp.cpp:53-64 | the same for four bytes |
| `Cursors.ConstBuffer.TakeU64` | src/sftp.cpp:67-80 | the same for eight bytes |
| `Cursors.ConstBuffer.TakeStr` | src/sftp.cpp:83-99 | length, then that many bytes; an error after the length leaves the cursor behind the length |
| `Cursors.TakeStrTook` | src/sftp.cpp:83-99 | on any bytes the cursor moves forward only, freezes on error and then yields nothing, and a success consumes the length word and the string |
| `Cursors.TakeStrOf` | src/sftp.cpp:202-214 | a string that was put is read back if and only if its length fits 32 bits |
| `Writers.MutableBuffer.PutU8` | src/sftp.cpp:102-112 | appends one byte or sets the sticky error; bytes behind the cursor are untouched |
| `Writers.MutableBuffer.PutU32` | src/sftp.cpp:114-124 | appends four bytes or sets the sticky error |
| `Writers.MutableBuffer.PutU64` | src/sftp.cpp:126-139 | appends eight bytes or sets the sticky error |
| `Writers.MutableBuffer.PutStr` | src/sftp.cpp:202-214 | the length goes in before the room for the characters is checked |
| `Attrs.ReadAttrs` | src/sftp.cpp:171-199 | the in-place reader, its extended-pair loop included, computes take_attrs on any bytes |
| `Attrs.WriteAttrs` | src/sftp.cpp:151-168 | for every subset of flags the puts write the ATTRS block, or fail as one put of the block would |
| `Attrs.AttrsBytes` | src/sftp.cpp:141-149 | attrs_length is the length of the block put_attrs writes |
| `Attrs.SkipPairsTook` | src/sftp.cpp:189-197 | the pair loop moves forward only, freezes on error, and consumes eight bytes for each completed round |
| `Attrs.PairRoundsBounded` | src/sftp.cpp:189-197 | the loop runs no more often than the remaining bytes allow, whatever count is claimed |
| `Attrs.TakeAttrsTook` | src/sftp.cpp:171-199 | a success consumed at least the encoded length of what it returned |
| `Attrs.AttrsRoundTrip` | src/sftp.cpp:141-199 | inside any message the block is read back, masked by its flags, if and only if the extended bit is clear |
| `Framing.MatchStable` | src/sftp.cpp:217-228 | a match does not change under any extension of the data |
| `Framing.MatchFrame` | src/sftp.cpp:217-228 | a well-sized frame is matched whole, whatever follows |
| `Framing.PrefixUnmatched` | src/sftp.cpp:217-228 | no proper prefix of a frame is matched |
| `Framing.MatchIsFrame` | src/sftp.cpp:217-228 | a match of four bytes or more is a well-sized frame |
| `Framing.SplitConserves` | src/sftp.cpp:309-330 | the packets of a stream and the leftover are the stream |
| `Framing.SplitFrames` | src/sftp.cpp:309-330 | a concatenation of frames is cut back into exactly those frames |
| `Framing.SplitResumes` | src/sftp.cpp:309-330 | splitting may stop anywhere and resume from the leftover |
| `Framing.ChunkingIrrelevant` | src/sftp.cpp:309-330 | any split of the stream into reads gives the same packets and the same leftover |
| `Framing.PacketReader.ReadOne` | src/sftp.cpp:1962-1981 | the worker's reader takes the bytes left over, reads until a packet is matched, cuts it off and leaves the rest: the next packet of four bytes or more, or no packet and the bytes unchanged |
| `Packets.SizeFieldExact` | src/sftp.cpp:392-403 | the size field equals the number of bytes behind it if and only if that number fits 32 bits |
| `Packets.TakeHeader` | src/sftp.cpp:1984-1986 | type and id are taken off the front of any packet, or the error is set because five bytes are missing |
| `Requests.LengthIsBody` | src/sftp.cpp:392-392 | the length each operation computes is the length of the body it writes |
| `Requests.Encode` | src/sftp.cpp:380-1806 | every client encoder fills its allocation exactly, with the error clear and no room left, with the packet of its operation |
| `Requests.PutPayload` | src/sftp.cpp:380-1806 | the operation-specific puts write the operation's payload |
| `Dispatch.Decode` | src/sftp.cpp:1984-2433 | the opcode switch in place computes the decision on any bytes |
| `Dispatch.RequestRoundTrip` | src/sftp.cpp:1990-2429 | for every operation whose packet fits, the server calls the backend with exactly the client's arguments and consumes the packet, if and only if the transfer is within the limit, the attributes are plain, and the operation is not home_directory |
| `Dispatch.PacketRoundTrip` | src/sftp.cpp:1983-2429 | the same from the bytes of the whole packet: type and id are read back, the reply carries the client's id, and the backend is called with the client's arguments, under the same condition exactly |
| `Dispatch.ExtendedRefused` | src/sftp.cpp:2131-2142 | a setstat whose attributes carry the extended flag alone is answered with a bad message and never reaches the backend |
| `Dispatch.RequestIdIs` | src/sftp.cpp:1983-1987 | every packet that reaches the backend or is refused has an id, and the reply carries it |
| `Dispatch.ReadReceived` | src/sftp.cpp:2027-2048 | READ for a buffer of any size: the narrowed length reaches the backend, or is refused beyond the limit |
| `Dispatch.ShortFrameQuits` | src/sftp.cpp:1983-1987 | a truncated header never reaches the backend and ends the worker |
| `Replies.BuildStatus` | src/sftp.cpp:1819-1876 | the STATUS packet fills its buffer exactly if it fits 32 bits, otherwise the error is set |
| `Replies.BuildHandle` | src/sftp.cpp:2003-2014 | the HANDLE packet, its size field narrowed |
| `Replies.BuildAttrs` | src/sftp.cpp:2092-2103 | the ATTRS packet |
| `Replies.BuildName` | src/sftp.cpp:2266-2286 | the one-name NAME packet fills its buffer exactly if it fits, otherwise the error is set |
| `Replies.BuildNames` | src/sftp.cpp:2190-2213 | the NAME packet for any list of entries fills its buffer exactly if and only if it fits, although the size is summed up in 32 bits |
| `Replies.BuildData` | src/sftp.cpp:2037-2063 | the buffer, cut down to what was read, holds the whole DATA packet; what is sent is the part behind the header |
| `Replies.SentIsPacket` | src/sftp.cpp:2055-2062 | what is sent is the reply's packet if and only if the reply is not a successful READ, which sends the data alone |
| `Completions.ReadEntries` | src/sftp.cpp:1029-1072 | the in-place NAME parser computes the entries on any payload and keeps those read before an error |
| `Completions.TakeEntriesPays` | src/sftp.cpp:1048-1068 | the bytes consumed pay for every entry kept, for any claimed count |
| `Completions.EntriesBounded` | src/sftp.cpp:1048-1068 | at least twelve bytes of payload for each entry |
| `Completions.StatusZero` | src/sftp.cpp:1832-1863 | the status word is zero exactly for success |
| `Completions.StatusEof` | src/sftp.cpp:1832-1837 | end of file is reported exactly for end of file |
| `Completions.StatusRoundTrip` | src/sftp.cpp:343-363 | the status record sees success if and only if the backend reported success, otherwise its status code |
| `Completions.FailureRoundTrip` | src/sftp.cpp:876-887 | so do the records that expect a handle, attributes, names, entries or data, and nothing else is delivered |
| `Completions.HandleRoundTrip` | src/sftp.cpp:876-901 | the handle arrives unchanged |
| `Completions.DataRoundTrip` | src/sftp.cpp:1254-1287 | the data of a DATA packet arrives, cut to the caller's buffer |
| `Completions.AttrsReplyRoundTrip` | src/sftp.cpp:1416-1436 | attributes arrive, masked by their flags, if and only if the extended bit is clear |
| `Completions.NameRoundTrip` | src/sftp.cpp:1553-1593 | the single name arrives |
| `Completions.NamesRoundTrip` | src/sftp.cpp:1029-1072 | a non-empty list that fits is read back entry by entry, in order, if and only if no entry has the extended bit |
| `Completions.EmptyNamesRefused` | src/sftp.cpp:1051-1052 | a NAME reply without entries would be refused |
| `Handshake.ToMapHolds` | src/sftp.cpp:268-275 | with distinct names the map holds exactly the pairs sent, so their order does not matter |
| `Handshake.ReadPairs` | src/sftp.cpp:270-275 | the extension loop in place, on any bytes |
| `Handshake.VersionRoundTrip` | src/sftp.cpp:259-284 | the VERSION packet of the server's map, iterated in any order, gives the client that very map and the version, and the bytes behind it start the session's buffer |
| `Handshake.BuildVersion` | src/sftp.cpp:1918-1938 | the VERSION packet fills its buffer exactly if and only if it fits |
| `Handshake.InitAccepted` | src/sftp.cpp:237-242 | the client's INIT is one whole packet, accepted by the server if and only if the client is little-endian |
| `ResponseQueues.ResponseQueue.GetRequestId` | include/corosh/sftp.hpp:75-75 | ids count up in 32 bits |
| `ResponseQueues.ResponseQueue.EnqueueResponse` | include/corosh/sftp.hpp:76-82 | the record is appended if `last` is set; otherwise it is the whole list |
| `ResponseQueues.ResponseQueue.Complete` | include/corosh/sftp.hpp:84-101 | exactly the first reachable record with the id is completed once, no link changes, and `last` is cleared if it was the last one |
| `ResponseQueues.ResponseQueue.CancelAll` | include/corosh/sftp.hpp:104-113 | every reachable record is completed once more and the list is empty |
| `RequestHistory.RunInv` | include/corosh/sftp.hpp:48-113 | in every life the list is the requests from some point up to the newest, completed ones included, and `last` is set exactly when the newest is unanswered |
| `RequestHistory.LosslessRuns` | include/corosh/sftp.hpp:76-101 | every unanswered request can still be reached if and only if no request was issued while the newest was answered and an older one was not |
| `RequestHistory.LostForever` | include/corosh/sftp.hpp:84-113 | a request off the list is never completed by anything that happens later |
| `RequestHistory.RequestLost` | include/corosh/sftp.hpp:76-101 | two requests, the younger answered, a third issued: the first is lost for good |
| `RequestHistory.AnswerSelects` | include/corosh/sftp.hpp:84-101 | with at most 2^32 requests on the list a frame completes the request whose id it carries |
| `RequestHistory.IdsSelect` | include/corosh/sftp.hpp:75-101 | that bound is exact |
| `RequestHistory.OnceRuns` | include/corosh/sftp.hpp:84-113 | in a run no record is completed twice if and only if no reply repeats the id of an answered request still on the list and no connection ends while one is |
| `RequestHistory.LowMoves` | include/corosh/sftp.hpp:76-113 | a request stays on the list until the next issue that finds the newest request answered, or the next cancellation |
| `RequestHistory.OldestIsOnly` | include/corosh/sftp.hpp:75-101 | with at most 2^32 requests on the list an id on it belongs to one request, so a repeated id is what the condition above says |
| `RequestHistory.CompletedTwice` | include/corosh/sftp.hpp:84-113 | one request, answered, then a cancellation: its record is completed twice |
| `Sessions.Session.ReadOne` | src/sftp.cpp:306-332 | the three outcomes of read_one_ on the real list: cancellation of all, a short packet that stays, or one completion and the bytes consumed |
| `ClientMux.StepKeeps` | src/sftp.cpp:380-432 | every step of every interleaving keeps mutual exclusion, whole frames on the stream, conservation of the bytes read, and own payloads |
| `ClientMux.Safety` | src/sftp.cpp:306-332 | in every run, on any bytes, with cancellations: until a write fails the output is whole frames and one prefix, input is the dispatched packets and the buffer, and no coroutine holds a payload from a packet without its own id |
| `ClientMux.EmptyHanded` | src/sftp.cpp:322-326 | a coroutine returns with its record untouched if and only if it read a short packet, or its read failed while its record was off the list |
| `ClientMux.LostWaits` | src/sftp.cpp:417-431 | a coroutine whose record is off the list waits for ever, unless it is cancelled or reads fail |
| `ClientMux.ShortPacketRun` | src/sftp.cpp:322-331 | for any request there is a run at whose end the call has returned and its record was never completed |
| `ClientMux.StrandedRun` | src/sftp.cpp:404-431 | a run of two requests, the younger answered first, and a third issued, after which the first call waits with its record off the list |
| `ClientMux.StrandedFails` | src/sftp.cpp:312-316 | if that call's read fails it returns with its record untouched |
| `MuxHistory.HistoryRuns` | src/sftp.cpp:306-431 | the list inside every run of the coroutines lives a history of RequestHistory: an issue, an answer for each packet with an id, a cancellation for each failed read |
| `MuxHistory.NoneStranded` | src/sftp.cpp:306-431 | in every interleaving no call is off the list unanswered if and only if no request was issued while the newest was answered and an older one was not |
| `MuxHistory.NoneTwice` | src/sftp.cpp:306-431 | in every interleaving no record is completed twice if and only if no packet repeats the id of an answered request still on the list and no read fails while one is |
| `ClientLiveness.StartNet` | src/sftp.cpp:305-331 | the invariant holds before the first request |
| `ClientLiveness.NetStep` | src/sftp.cpp:306-431 | against a server that answers each request once, with the discipline above, no request is lost and each completed call holds the answer to itself |
| `ClientLiveness.DispatchShrinks` | src/sftp.cpp:306-331 | every packet read takes exactly one call off the pending ones: the one it answers |
| `ClientLiveness.Progress` | src/sftp.cpp:417-431 | while a call has not returned, some coroutine or the server can take a step |
| `ClientLiveness.StepDecreases` | src/sftp.cpp:404-431 | every step but a new request uses up part of a finite bound |
| `ClientLiveness.RunBounded` | src/sftp.cpp:404-431 | no schedule is longer than the bound |
| `ClientLiveness.AllServed` | src/sftp.cpp:404-431 | a run that cannot go on has returned every call, with the server's answer to that very call |
| `ServerPool.StepKeeps` | src/sftp.cpp:1946-2449 | every step of every interleaving of workers keeps exclusion, conservation of input and output, one account for each packet, and faithful replies |
| `ServerPool.ClaimedInOrder` | src/sftp.cpp:1955-1981 | until a read fails, the bytes taken are the claimed packets in order and the next reader's bytes, and these are the packets of the stream |
| `ServerPool.OutputIsPackets` | src/sftp.cpp:1983-2447 | with no write in progress and none failed the output is the replies' packets, each with the id read in the packet it answers, if and only if no READ has succeeded |
| `ServerPool.RepliesReadable` | src/sftp.cpp:1983-2447 | then splitting the output gives exactly one reply for each packet answered |
| `ServerPool.AnsweredOnce` | src/sftp.cpp:1983-2447 | each claimed packet is answered at most once, and exactly once when every worker is idle |
| `EndToEnd.ClaimsHold` | src/sftp.cpp:1955-1981 | the packets the workers claim are the packets the coroutines have written, whole and in that order |
| `EndToEnd.ProducedIs` | src/sftp.cpp:1983-2447 | what the workers write is one reply for each packet answered, the backend's result under the id of the call that asked |
| `EndToEnd.HeardIs` | src/sftp.cpp:306-332 | the packets the coroutines dispatch are the first of these replies, in order |
| `EndToEnd.StepKeeps` | src/sftp.cpp:305-2449 | every step that tears no stream and sends its result as a packet keeps the two sides in step: client cancellations, failed client reads, and issues at any time included |
| `EndToEnd.ResultSeen` | src/sftp.cpp:343-1593 | the caller of each deliverable operation sees success, the status of the backend's error, or exactly what the backend delivered |
| `EndToEnd.OwnAnswer` | src/sftp.cpp:305-2449 | in every run without a torn stream and with results sent as packets, a call told anything but a cancellation holds the result produced for a packet with its id; with at most 2^32 calls, for its own packet, and for exactly its own arguments if the operation is deliverable |
| `EndToEndLiveness.LockWriteAnswers` | src/sftp.cpp:1983-2447 | a worker's first step under the write mutex is one answer of the abstract server: to a call that is written and not answered, with its id and its result |
| `EndToEndLiveness.StepRefines` | src/sftp.cpp:305-2449 | under the conditions for liveness every step is a step of `ClientLiveness` or leaves it as it is, and uses up its bound |
| `EndToEndLiveness.OwnAnswerAlways` | src/sftp.cpp:305-2449 | under these conditions every call that has returned was told the result of its own packet, however many calls there are |
| `EndToEndLiveness.Progress` | src/sftp.cpp:305-2449 | under these conditions, while a call has not returned, nothing is dropped and a worker is left, a coroutine or a worker can take a step |
| `EndToEndLiveness.AllServed` | src/sftp.cpp:305-2449 | under these conditions a run that cannot go on, with nothing dropped and a worker left, has returned every call with the result produced for it |
| `EndToEndLiveness.EndlessRunsAsk` | src/sftp.cpp:305-2449 | under any schedule that keeps these conditions, and however long the results, a run that never ends issues new requests for ever |
| `StrayReplies.FileAnswers` | src/sftp.cpp:2037-2063 | for any two requests of which the first is a READ there is a run in which the file's content completes the record of the second, unsent, and the first is told nothing |
| `StrayReplies.IdAnswersAnother` | include/corosh/sftp.hpp:75-101 | for any request and any result of it there is a run of 2^32 + 1 calls in which the last is told that result, although it has not been sent |
| `Directory.Backend.Readdir` | example/server.cpp:328-358 | the batch loop takes the next entries, at most 64 and none behind a failed increment, or reports end of file |
| `Directory.YieldsAll` | example/server.cpp:339-352 | an iterator delivers the entries up to the first failed increment, which is the whole directory if and only if no increment but the last fails |
| `Directory.ListingCut` | example/server.cpp:339-357 | of two entries the first alone is delivered, without an error, if the increment between them fails |
| `Directory.NeverEmpty` | example/server.cpp:354-357 | a NAME reply without entries is never sent |
| `Directory.Dir.Read` | include/corosh/sftp.hpp:238-274 | read fetches only when nothing is buffered and hands out the front of the buffer |
| `Directory.ExchangeDelivers` | src/sftp.cpp:1080-1127 | one READDIR exchange, from request bytes to parsed entries, delivers exactly the next batch |
| `Directory.ReadsDirectory` | include/corosh/sftp.hpp:238-274 | any number of reads of a directory of any size yield the entries its iterator delivers, in order, once each, then end of file for ever |
| `Directory.ReadsExample` | example/server.cpp:328-358 | the same for everything the example backend can list, with the condition under which that is the whole directory |
| `FanOut.WriteRequests` | include/corosh/sftp.hpp:187-193 | one request per buffer, at offsets that advance in 64 bits |
| `FanOut.AddResults` | include/corosh/sftp.hpp:196-205 | n adds up the requests without an error |
| `FanOut.CountIsTotal` | include/corosh/sftp.hpp:183-206 | n is the total length if and only if every failed request was empty |
| `FanOut.ErrorDropped` | include/corosh/sftp.hpp:196-205 | one byte written and one failed: the count is one and nothing else tells |
| `FanOut.WriteWraps` | include/corosh/sftp.hpp:187-193 | of two bytes written in two buffers at the last 64-bit offset the second lands at the front of the file |
| `FanOut.WritesCommute` | include/corosh/sftp.hpp:183-206 | in whatever order the pieces are applied, the file ends up as one write of the concatenation leaves it, gaps included, if and only if no piece that carries data wraps |
| `FanOut.AddRead` | include/corosh/sftp.hpp:170-179 | n is the number of bytes placed in all buffers together |
| `FanOut.PieceThroughWire` | src/sftp.cpp:1296-1348 | one READ exchange, from the request to the bytes copied by the response record when the DATA packet the server builds arrives, gives the file's bytes at the offset for the 32-bit length, or nothing beyond the server's limit |
| `FanOut.ReadRefused` | include/corosh/sftp.hpp:157-180 | a buffer above the server's limit receives nothing of a file of one byte |
| `FanOut.ReadsConsecutive` | include/corosh/sftp.hpp:157-180 | with offsets that advance in 64 bits, each buffer holds the file's bytes where the previous one ends if and only if no piece is hindered; if no offset wraps, n is max(0, min(total, length - offset)) under the same condition exactly |
| `Files.ReadSplit` | example/server.cpp:123-142 | a read may be cut anywhere |
| `Files.WriteSplit` | example/server.cpp:144-163 | a write may be cut anywhere |
| `Transfers.ReadHandle` | example/server.cpp:123-142 | a handle that is not open is an error and nothing is read; otherwise the loop below |
| `Transfers.WriteHandle` | example/server.cpp:144-163 | a handle that is not open is an error; otherwise the loop below, and no other file changes |
| `Transfers.ReadAll` | example/server.cpp:130-141 | for every offset and every schedule of short reads the buffer holds the file's bytes so far and is otherwise untouched; without a failure it is what one full read gives |
| `Transfers.WriteAll` | example/server.cpp:151-162 | for every schedule of short writes the file is as one write of the first `total` bytes leaves it, and the loop fails only with the file's error, on a write of no bytes, or when the file is as long as it can be |
| `Handles.HandleTable.Open` | example/server.cpp:92-121 | the handle was never given out before and only its own entry changes; a file that does not open changes nothing |
| `Handles.HandleTable.Opendir` | example/server.cpp:316-326 | the same for directories, never confused with a file handle, and nothing changes if the directory does not open |
| `Handles.HandleTable.Close` | example/server.cpp:228-243 | exactly the named handle goes, or the error and no change |
| `Handles.DecimalInjective` | example/server.cpp:118-118 | different counter values give different handles |
| `TrackedWork.NoLostWakeup` | example/server.cpp:533-574 | in every run the counter is the number of live tokens, copies included, and at zero no waiter is left on the event |
| `TrackedWork.SuccessAtZero` | example/server.cpp:562-572 | wait reports success only when no token is left |
| `TrackedWork.WaitersFinish` | example/server.cpp:562-572 | at zero every waiter returns by itself within two steps |

## Left out

- What is on the stream after a failed write: the writer's frame is torn there, and later writers append to it.
- Lifetime of response records, of string views and of moved sessions: a record is modelled as staying in place after its coroutine has returned, so what the list reaches there is its old content.
- The server's aliasing of the READ handle with the buffer it resizes: the handle is a copied value, as the backend uses it before the data arrives.
- A length field of 2^32 - 4 or more on the server: the iterator arithmetic runs past the buffer there, so a worker of the model does not claim such a packet. The client's handling of it is modelled (it is a short packet).
- Bytes that init_server has read behind INIT are dropped; the conservation theorems start with an empty shared buffer after the handshake.
- The coroutine runtime, the mutexes, the event and read_until: used by contract (mutual exclusion in any order, all waiters resumed by set, bytes appended until a match or the end of the stream).
- Files of more than 2^64 - 1 bytes: a write that would reach further moves what fits, then nothing. The multi-buffer theorems ask for a file of at most 2^64 bytes.
- FanOut.PieceThroughWire: the DATA packet is the one the server builds; what it sends is the data alone (Replies.SentIsPacket).
- FanOut.ReadsConsecutive: the data of each reply is taken from the DATA packet the server builds, not from the headerless bytes it sends, because otherwise no READ has a result at all.
- Directory.ReadsDirectory: entries whose batches of 64 fit a packet and plain attributes, which Directory.ReadsExample shows for the example backend.
- ClientLiveness.NetStep: reads and writes do not fail, nobody is cancelled, and requests are issued with the discipline of RequestHistory.LosslessRuns and with at most 2^32 of them on the list.
- EndToEnd.StepKeeps: failed writes and failed reads of a worker, which tear a stream; results that do not fit a packet; and a successful READ, whose reply is not a packet.
- EndToEnd.OwnAnswer: the same; without them a reply is no longer a packet of its own (StrayReplies.FileAnswers).
- EndToEndLiveness.StepRefines: these too, and a failed read or a cancellation of a client, requests issued without the discipline of RequestHistory.LosslessRuns, and more than 2^32 records on the list: outside these conditions a call can wait for ever (ClientMux.StrandedRun) or return without a result (ClientMux.StrandedFails).
- EndToEndLiveness.OwnAnswerAlways: the conditions of EndToEndLiveness.StepRefines.
- EndToEndLiveness.Progress: the conditions of EndToEndLiveness.StepRefines.
- EndToEndLiveness.AllServed: the conditions of EndToEndLiveness.StepRefines.
- EndToEndLiveness.EndlessRunsAsk: the conditions of EndToEndLiveness.StepRefines.
- The texts of error codes are arbitrary bytes; which conditions a platform's error code is equivalent to is arbitrary too.
- fstat, fsync and fsetstat have no client encoder in the repository; the server side of FSTAT and FSETSTAT is modelled.
- session.cpp, channel.cpp, message.cpp, acceptor.cpp, the option wrappers and error.cpp: wrappers around libssh whose meaning lies in code that is not part of this model.
- Path translation and POSIX metadata calls of the example backend.
