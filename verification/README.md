# NewtMQ broker: a verified model

NewtMQ is a STOMP 1.2 broker written in C. This project models its four linked parts and proves what
they promise each other:

1. **The streaming frame parser** (`Frames`, `ContentLength`, `Stomp`, `Chunking`, `OneCall`, `CutSafety`,
   `StreamCuts`, `BadLines`, `Crlf`):
   `recv_data` takes arbitrary network fragments, carries an unfinished line and an unfinished frame from
   call to call, and fills the frame bucket. Main result: well-formed messages come out the same for every
   way of cutting their bytes if and only if every header line satisfies a condition that can be read off
   the message.
2. **The persistent queue log** (`LogParser`, `QueueLog`, `Seek`, `SeekExact`, `Straddle`, `Sizes`,
   `QueueInfo`, `ParserAgreement`): the serializer, the parser that undoes it, the loader, what sizes count,
   exactly when a sum of sizes can be used as a file position, and exactly which frames survive a buffer end.
3. **The delivery pipeline** (`Pipeline`, `SentIndex`, `WriteOrder`, `Recovery`, `Passes`, `Completion`):
   producer, sending workers and persistent worker as a transition system of atomic steps, with invariants
   over every interleaving, exactly when the sent index is right, what a pass leaves on disk, crash recovery
   over any number of crashes, and the completion of every run.
4. **The structures beneath it** (`IntrusiveList`, `QueueBox`, `QueueRace`, `Transactions`): a circular
   doubly linked list on the heap, the 512-bucket queue box, the race inside `get_queue`, and the
   transaction manager.

`dafny verify dfyconfig.toml` checks the whole project.

## How to read it

Code that updates things in place is a class or a method with loops (`Stomp.Connection`,
`LogParser.ParseFrame`, `QueueInfo.Info`, `QueueBox.Box`, `Transactions.Manager`, `IntrusiveList`), proved
equal to a function on values; the theorems are about these functions. A C `char` is a Dafny `char`.
Integers are unbounded except for `get_hash`, which is computed modulo 2^64.

Preconditions on messages, and where they come from:

- `WellFormed`: the name is one of the eleven commands; header lines are nonempty, at most `LD_MAX` bytes,
  without newline or NUL and not starting with a carriage return; the body has no NUL; and the last
  `content-length` header gives the length of the body (a frame without one never finishes).
- `Streamable` adds, for a stream that arrives in several calls, that every header line is `CutSafe`: no
  carriage return, and a command name only at its end, and there only where a newline that is read as a line
  of its own does no harm. `StreamCuts.AnyCutIff` shows that this is exactly the condition on the messages.
- `Covered`, for the sent index on disk: `size` is at most the number of bytes written.
- `Clean`, for recovery: the body is not empty and no header was changed after parsing, so that `size` is
  the number of bytes written.

## What the code does differently from what one would expect

- A carriage return inside a header line, such as the CRLF line ends that STOMP 1.2 allows, makes the
  result depend on where the stream is cut (`CutSafety.HeaderCutIff`): a fragment that starts with a
  carriage return is taken as a line end.
- A header line that holds a command name can be cut in two by a fragmentation
  (`CutSafety.SenderIsUnsafe`).
- A message with CRLF line ends, when it arrives in one call, keeps the carriage return in every header, and
  its body is stored with a newline in front (`Crlf.CrlfMessage`).
- After a line that is no frame name, empty lines are answered with an error too (`BadLines.EmptyRefused`).
- A NUL in a body before its content length makes `recv_data` loop for ever (`Stomp.HangsInBodyIff`).
- For an empty body `size` is one byte short of what is written, so the sent index drifts
  (`Seek.SeekIff`). The loader skips the bytes in between unless a line of them starts with a command
  (`SeekExact.SeekLoadIff`); then it misreads what follows (`SeekExact.EmptyBodiesMislead`).
- The loader takes the end of its buffer for the end of a header line, so that a frame across a buffer end is
  read right only for some cuts (`Straddle.StraddleIff`); and when another frame lies before it in the buffer,
  bytes of stale memory become a header (`Straddle.StaleHeader`).
- `index_sent` is updated without a lock: it is exact if and only if no two updates overlap
  (`SentIndex.SentIndexExactIff`), and it never runs ahead of what was sent (`Pipeline.CreditKept`).
- A name line with trailing bytes makes `size` larger than what is written (`Frames.NameLineExcess`), so
  that the sent index on disk can point behind the end of the data file (`WriteOrder.CrlfNameUnsafe`).
- A header line above `LD_MAX` bytes loses every byte that follows `LD_MAX` others and becomes several
  headers; when nothing is left of it, its own newline is read as the blank line (`CutSafety.LongHeader`).
- Two threads that create the same queue at the same time strand the entries of one of them for ever
  (`QueueRace.InsertServedIff`, `QueueRace.RaceFromEmpty`, `QueueRace.LoserNeverServed`).
- A transaction is looked up by prefix (`Transactions.LookupExactIff`); `transaction_commit` does not
  come back when it meets a frame without a callback (`Transactions.HangsIff`), and it reports success even
  when a callback failed. The only assignment to `transaction_callback` in the repository is the NULL at
  `src/lib/frame.c:59`, so that every commit of a transaction that holds a frame hangs.

## Model

| member | source | states |
|---|---|---|
| Frames.Ssplit | src/lib/stomp.c:36-67 | the loop finds the first stop byte, the LD_MAX limit or the end of the input, and is complete exactly when it stopped before the end |
| Frames.SearchCommand | src/lib/stomp.c:69-94 | the table search returns a command that is a prefix of the line, or nothing when no command is |
| Frames.CommandInsideCommand | src/lib/stomp.c:19-32 | a command name occurs inside another one only as its suffix |
| Frames.CommandNames | src/lib/stomp.c:19-32 | the table holds exactly the eleven names, written out |
| Frames.NameAccepted | src/lib/stomp.c:69-94 | a line that starts with a name is given this name and no other, whatever follows |
| Frames.Pieces | src/lib/stomp.c:96-132 | the pieces of a line are at most LD_MAX bytes each and add up to the line |
| Frames.StompSetdata | src/lib/stomp.c:96-132 | the loop appends exactly these pieces to the list |
| Frames.FrameUpdate | src/lib/stomp.c:179-256 | the status machine of one line, equal to the function that the theorems are about |
| ContentLength.HeaderSets | src/lib/stomp.c:168-177 | in the header state a line sets contentlen, to what atoi reads behind the prefix, if and only if it is longer than "content-length:" and starts with it; every other line leaves contentlen as it was |
| ContentLength.LastCounts | src/lib/stomp.c:218-222 | the last such header gives the content length, wherever it stands |
| ContentLength.NoneCounts | src/lib/stomp.c:218-222 | without one there is no content length |
| ContentLength.AtoiReads | src/lib/stomp.c:168-170 | atoi skips blanks, takes one sign and reads the digits up to the first other byte |
| Frames.UpdateKeepsValid | src/lib/stomp.c:179-256 | on every line: past BORN the name is a command and size is positive, BODY has more to come, stored pieces are at most LD_MAX and total hasContentlen, and a finished frame has hasContentlen >= contentlen >= 0 |
| Frames.UpdateName | src/lib/stomp.c:184-192 | a name line puts a new frame into the header state of the message with that name |
| Frames.UpdateHeader | src/lib/stomp.c:218-229 | a header line adds itself to the headers, its length to size, and its value to contentlen if it is a content-length header |
| Frames.UpdateBlank | src/lib/stomp.c:194-216 | the blank line finishes the frame of an empty body and opens the body otherwise |
| Frames.UpdateBody | src/lib/stomp.c:230-253 | body pieces accumulate, and the frame finishes exactly when they reach the content length |
| Sizes.UpdateKeepsSize | src/lib/stomp.c:179-256 | every line keeps the size equal to the bytes that name, headers and body take when written, provided that a name line is exactly a command and a header line fits LD_MAX |
| Sizes.SizeAccounting | src/lib/stomp.c:389-469 | after any calls on any bytes, every frame in the bucket whose own name line was exactly a command and whose own header lines fitted LD_MAX has size equal to the bytes the serializer writes, and one less when contentlen is 0 |
| Sizes.ParsedAccounted | src/lib/frame.c:256-321 | the same for a frame that parse_frame finishes, on any input |
| Frames.NameLineExcess | src/lib/stomp.c:184-192 | size counts the whole name line although only the command is stored, so that the two agree if and only if the line is exactly a command |
| Stomp.Connection.Round | src/lib/stomp.c:396-466 | the loop body of recv_data equals the function Consume on the carried state |
| Stomp.Connection.RecvData | src/lib/stomp.c:389-469 | one call equals the function Recv on the carried state, and reports the inputs on which the C loop never ends |
| Stomp.FrameBucket.GetFrame | src/lib/stomp.c:471-484 | takes the oldest frame out of the bucket, or nothing when it is empty |
| Stomp.ZeroStepIff | src/lib/stomp.c:396-466 | a round makes no progress if and only if a NUL is met in body mode with fewer than contentlen bytes gathered, the carried fragment included |
| Stomp.HangIsFixpoint | src/lib/stomp.c:396-466 | a round without progress and with nothing carried leaves the state as it is, so that the C loop repeats it for ever |
| Stomp.HangsInBodyIff | src/lib/stomp.c:396-466 | with a body under way, the call loops for ever in that body if and only if the first NUL of the input lies before the content length, counting what was stored and carried |
| Stomp.FeedKeepsValid | src/lib/stomp.c:389-469 | the parser-state invariant holds for the frame under construction and for every frame in the bucket after every series of calls |
| BadLines.ShortBadLine | src/lib/stomp.c:442-451 | a line of at most LD_MAX bytes that starts with no command is answered with one error on a new connection; no frame is in the bucket, and the frame under construction still has no name |
| BadLines.BadLineRead | src/lib/stomp.c:396-466 | in any state that waits for a name, such a line of any length makes one error for every part of LD_MAX bytes, and one more when its newline is left over; reading goes on behind it |
| BadLines.BadLinesThenMessages | src/lib/stomp.c:389-469 | well-formed messages behind any number of bad lines are delivered, and the errors sent are exactly those of the lines |
| BadLines.OneErrorEach | src/lib/stomp.c:449-450 | for lines of at most LD_MAX bytes that is the number of lines |
| BadLines.EmptyRefused | src/lib/stomp.c:438-451 | an empty line behind a bad one is answered with an error as well |
| Chunking.ChunkedParse | src/lib/stomp.c:389-469 | for every stream of frames with any padding and every way of cutting it, the bucket holds exactly the frames of the stream in order, with names, headers, body bytes, contentlen and size, no error was sent and nothing is carried |
| Chunking.ChunkInvariance | src/lib/stomp.c:389-469 | two ways of cutting the same stream give the same frames and the same final state |
| Chunking.RecvReached | src/lib/stomp.c:396-466 | one call on any part of the stream keeps the relation between the carried state and the bytes still to come |
| Chunking.EncodedIsStream | src/lib/persistent_worker.c:268-305 | the bytes of the serializer are a stream that recv_data accepts |
| CutSafety.HeaderCutIff | src/lib/stomp.c:400-435 | a header line leaves the same state for every cut if and only if it has no carriage return and holds a command name only at its end while no content length is known |
| CutSafety.SenderIsUnsafe | src/lib/stomp.c:402-417 | a destination that holds a command name is a line for which some cut changes the result |
| CutSafety.LongRound | src/lib/stomp.c:419-424 | of a line above LD_MAX bytes the first LD_MAX become a header, the next byte is dropped, and reading goes on behind it |
| CutSafety.LongHeader | src/lib/stomp.c:396-466 | a header line of any length becomes the headers of LD_MAX bytes that remain when every byte after LD_MAX others is dropped; its newline is read as a line of its own if and only if its length is a multiple of LD_MAX + 1 |
| CutSafety.StoredLength | src/lib/stomp.c:419-424 | how many headers the line becomes and how many bytes are lost |
| CutSafety.LongestHeader | src/include/newt/frame.h:17-17 | a header line of 1024 bytes is stored whole; of 1025 bytes the last one is lost and the newline is read as a line of its own |
| CutSafety.BodyFragment | src/lib/stomp.c:400-417 | a fragment of a body is kept for the next call if and only if it starts with no command; otherwise it goes into the frame at once, with what was kept before it |
| StreamCuts.UnsafeSpoils | src/lib/stomp.c:396-466 | a well-formed message with an unsafe header line has a cut after which its frame is wrong, or will be whatever follows |
| StreamCuts.AnyCutIff | src/lib/stomp.c:389-469 | the bytes of well-formed messages fill the bucket with exactly their frames for every cut if and only if every message is streamable |
| OneCall.OneCallParse | src/lib/stomp.c:389-469 | any stream of well-formed messages that arrives in one call fills the bucket with exactly its frames, also when headers hold carriage returns or command names |
| Crlf.CrlfMessage | src/lib/stomp.c:389-469 | a well-formed message sent with CRLF line ends in one call comes out as one frame, without error, whose headers end in a carriage return and whose body is a newline and the body, or the body without its last byte when its length is a multiple of LD_MAX |
| Crlf.ReturnedContentlen | src/lib/stomp.c:168-177 | a carriage return at the end of the lines does not change the content length, unless a line is nothing but the prefix |
| LogParser.StepLen | src/lib/frame.c:301-308 | every round of parse_frame advances by at least one byte |
| LogParser.ParseFrame | src/lib/frame.c:256-321 | the loop equals the function ParseFrameOf, offset included, with nothing in prev_buffer |
| LogParser.ParseKeepsValid | src/lib/frame.c:170-242 | on every input the frame stays valid, success means a finished frame, and the offset lies behind the start and at most two bytes behind the end |
| LogParser.ParseEncoded | src/lib/frame.c:256-321 | parse_frame undoes the serializer: same name, headers, body, contentlen and size, and an offset equal to the encoded length, whatever bytes follow |
| QueueLog.WriteAllEncodes | src/lib/persistent_worker.c:268-305 | the bytes written for finished frames are the encodings of the messages they stand for |
| QueueLog.LoadLog | src/lib/persistent_worker.c:220-235 | a negative sent index, and only that, is refused; one behind the end of the file loads nothing |
| QueueLog.UnpersistQueueContext | src/lib/persistent_worker.c:212-266 | both loops of the loader equal the function LoadLog, with the over-long length that is passed to parse_frame and a frame that goes on from one buffer to the next |
| QueueLog.LoadAligned | src/lib/persistent_worker.c:235-257 | a log whose buffer ends fall on frame ends is loaded completely and in order, whatever lies in memory behind the buffer |
| QueueLog.LogLength | src/lib/persistent_worker.c:277-300 | the bytes written are the sum of the sizes plus one for every empty body |
| Seek.SeekIff | src/lib/persistent_worker.c:233-233 | the sum of the sizes of the first k frames is the file position of frame k if and only if none of them is empty |
| Seek.SkipsNames | src/lib/frame.c:256-321 | bytes that end with a NUL leave a new frame untouched if and only if no line of them starts with a command |
| Seek.SeekLoad | src/lib/persistent_worker.c:226-257 | loading from the sum of the sizes of the first k frames returns exactly the frames from k on, when no line of the bytes before frame k starts with a command and buffer ends fall on frame ends |
| Seek.LogRoundTrip | src/lib/persistent_worker.c:212-305 | what persist_queue_context writes for any list of frames is what unpersist_queue_context returns |
| SeekExact.SeekLoadIff | src/lib/persistent_worker.c:226-257 | for a rest of the log that fits one buffer, with no NUL in memory behind it, loading returns exactly the frames from k on if and only if no line of the bytes before frame k starts with a command |
| SeekExact.SeekLoadAlwaysIff | src/lib/persistent_worker.c:226-257 | the same without a condition on the memory: loading returns exactly these frames whatever lies behind the buffer if and only if no such line starts with a command |
| SeekExact.EmptyBodiesMislead | src/lib/stomp.c:203-209 | after four empty frames and a body ACK the loader does not return the frames that follow, whatever these are and whatever lies behind the buffer |
| Straddle.StraddleIff | src/lib/persistent_worker.c:235-257 | a log of two buffers whose first frame lies across the end of the first one, behind its name, is loaded completely and in order if and only if the buffer ends behind a line, or before the newline of a line where it may come late, or right behind the blank line |
| Straddle.StaleHeader | src/lib/persistent_worker.c:235-257 | a frame that does not start its buffer and is cut behind a line comes back with one more header, made of the memory behind the buffer, while the frames before and behind it come back whole |
| Straddle.LineAtEnd | src/lib/frame.c:266-308 | outside the body the end of the buffer ends the line |
| QueueInfo.Info.WriteFrame | src/lib/persistent_worker.c:277-298 | the writes of one frame append name, headers, blank line, body and NUL |
| QueueInfo.Info.PersistQueueContext | src/lib/persistent_worker.c:268-305 | drains the list to the file in order and advances index_persistent by the sizes |
| QueueInfo.Info.PersistFrame | src/lib/persistent_worker.c:439-452 | lists the frame and counts it, keeping the cursor invariant |
| QueueInfo.Info.UpdateIndexSent | src/lib/persistent_worker.c:454-470 | adds the size of the frame to index_sent and changes nothing else |
| QueueInfo.Info.PersistentPass | src/lib/persistent_worker.c:317-323 | after a pass every listed frame is in the file and the durable index is index_sent: the guard on the cursors skips nothing |
| ParserAgreement.ParsersAgree | src/lib/frame.c:256-321 | recv_data and parse_frame build the same frame from the bytes of any well-formed message, in one call, and under any cut when the message is streamable |
| ParserAgreement.LoaderAgrees | src/lib/persistent_worker.c:235-257 | the loader and recv_data read the same frames from the log of well-formed messages, in one call, and under any cut when they are streamable |
| ContentLength.AtoiDecimal | src/lib/stomp.c:168-170 | atoi reads back every content length written in decimal, with or without blanks before it |
| ContentLength.ClientMessage | src/lib/stomp.c:168-177 | a command, header lines, a decimal content-length header anywhere among them behind which no other one follows, and a NUL-free body are well formed |
| Pipeline.ListsKept | src/lib/persistent_worker.c:202-210 | every step keeps h_unpersistent and the queue as windows of the listing order, and the data file as the encoding of what was drained |
| Pipeline.CursorsInEveryRun | src/lib/persistent_worker.c:268-325 | in every interleaving index_head plus the size listed but not counted equals index_persistent plus the size written but not counted plus the sizes in h_unpersistent, and a check that finds nothing to do misses no enqueued frame |
| Pipeline.SkipMissesNothing | src/lib/persistent_worker.c:320-322 | when index_head <= index_persistent, every enqueued frame is in the data file |
| Pipeline.WriteKept | src/lib/stomp_proto_send.c:94-98 | because a frame is listed and counted before it is enqueued, every step keeps the durable sent index within the enqueued frames, and within the flushed ones between passes |
| Pipeline.DurableIndexFlushed | src/lib/persistent_worker.c:313-327 | in every interleaving, whenever a pass over the queue has ended, the sent index on disk is at most the sizes of the frames in the data file |
| Passes.PassPersists | src/lib/persistent_worker.c:313-327 | in every interleaving, from the beginning of a pass to the beginning of the next one the sent index on disk is index_sent as it was at its beginning, whatever waits to be persisted; and when the pass has ended, every frame enqueued by then is in the data file |
| Passes.SkippedPass | src/lib/persistent_worker.c:318-322 | when index_head is not above index_persistent, a pass is over after the check and has changed nothing but the index on disk |
| Passes.DrainWrites | src/lib/persistent_worker.c:268-305 | while the list is locked, whatever the other threads do, exactly the frames listed when the lock was taken are written, in order, and index_persistent advances by their sizes |
| Completion.Completes | src/lib/persistent_worker.c:307-333 | every state of every interleaving can be completed: nothing is queued, waits to be written or is in flight, all workers have left, the data file holds every frame, the sent index on disk is index_sent, and every frame from base on was sent by exactly one worker |
| Completion.DrainQueue | src/lib/stomp_sending_worker.c:178-193 | any worker that is ready can take and send everything that is queued, in queue order |
| Completion.Publishes | src/lib/persistent_worker.c:439-452 | in every state of every interleaving the producer can get any further frame listed, counted and enqueued |
| WriteOrder.WriteOrderSafety | src/lib/persistent_worker.c:313-327 | if no size counts more bytes than were written, the sent index on disk is then at most the length of the data file |
| WriteOrder.WriteOrderIff | src/lib/persistent_worker.c:313-327 | for one frame: the sent index stays inside the file in every interleaving if and only if its size is at most the bytes written |
| WriteOrder.CrlfNameUnsafe | src/lib/stomp.c:184-192 | a frame with a body whose name line is SEND and a carriage return breaks it |
| Pipeline.DeliveryInEveryRun | src/lib/stomp_sending_worker.c:178-193 | in every interleaving an enqueued frame is queued or with exactly one worker, every worker has its frames in queue order, and index_sent plus the sizes still owed is at most the sum of the dequeued sizes |
| Pipeline.Conservation | src/lib/queue.c:119-171 | a frame is in the queue if and only if it is not dequeued yet, and with a worker if and only if that worker dequeued it |
| Pipeline.CreditKept | src/lib/persistent_worker.c:454-470 | index_sent never counts a frame that was not sent, even when workers overwrite each other's updates |
| SentIndex.SentIndexExactIff | src/lib/persistent_worker.c:454-470 | for every run that ends with nothing in flight, index_sent is the sum of the dequeued sizes if and only if no worker read it while another was between reading and writing it, and it is never more |
| SentIndex.OverlapLoses | src/lib/persistent_worker.c:461-463 | after an update that overlapped another, in every continuation of the run two workers are between reading and writing, or index_sent plus what is owed stays below the dequeued sizes |
| SentIndex.LostUpdate | src/lib/persistent_worker.c:461-463 | an overlap can happen in every state in which two workers have just sent: four steps add only one of the two sizes |
| Recovery.SoloKept | src/lib/stomp_sending_worker.c:178-193 | with one worker at a time, index_sent and the durable index are always the sizes of a prefix of the queue order |
| Recovery.CrashRecovery | src/lib/persistent_worker.c:380-437 | after a crash between passes, loading from the durable index returns exactly the frames of the data file from there on, in order, and every frame before was sent |
| Passes.ReloadsUncounted | src/lib/persistent_worker.c:318-437 | after a pass, a crash loads exactly the frames of the data file that were not counted in index_sent when the pass began: none that was counted comes back |
| Passes.RestartAfterPass | src/lib/persistent_worker.c:380-437 | over every series of steps and crashes before it, the restart then queues exactly these frames in order, and takes index_head and index_persistent from the length of the data file and index_sent from the index file |
| Recovery.RestartKept | src/lib/persistent_worker.c:404-433 | the state that unpersist builds has both cursors at the length of the data file, index_sent at the durable index and the frames loaded in the queue, and satisfies all invariants again |
| Recovery.LifeKept | src/lib/persistent_worker.c:380-470 | the invariants hold over every series of steps and crashes |
| Recovery.AtLeastOnce | src/lib/persistent_worker.c:380-470 | over every series of steps and crashes, a frame in the data file was sent, or is in the worker's hands, or is queued, or is about to be enqueued |
| IntrusiveList.InitListHead | src/include/newt/list.h:26-30 | makes the empty list |
| IntrusiveList.Insert | src/include/newt/list.h:32-40 | links the entry at place k of the abstract sequence |
| IntrusiveList.ListAdd | src/include/newt/list.h:50-53 | prepends to the abstract sequence |
| IntrusiveList.ListAddTail | src/include/newt/list.h:63-66 | appends to the abstract sequence |
| IntrusiveList.ListDel | src/include/newt/list.h:74-91 | removes exactly this entry from the abstract sequence and clears its links |
| IntrusiveList.ListEmpty | src/include/newt/list.h:149-152 | true if and only if the abstract sequence is empty |
| IntrusiveList.MulticastPass | src/lib/stomp_sending_worker.c:206-234 | one pass over the clients visits each exactly once in order although it deletes under way, sends to exactly the valid ones in list order, and leaves exactly these in the same order |
| IntrusiveList.KeptExactly | src/lib/stomp_sending_worker.c:210-229 | an entry is kept if and only if it is in the list and its client is valid |
| IntrusiveList.KeptAppend | src/lib/stomp_sending_worker.c:210-229 | the kept entries are in list order, none twice |
| QueueBox.GetHash | src/lib/common.c:19-28 | the loop computes the function that the next three rows describe |
| QueueBox.HashSnoc | src/lib/common.c:20-25 | the empty name hashes to 5381, and one more byte gives 33 times the hash plus the byte, modulo 2^64 |
| QueueBox.HashToNul | src/lib/common.c:23-23 | bytes from the first NUL on do not matter |
| QueueBox.SiblingsDiffer | src/lib/common.c:24-24 | names that differ only in their last byte have different hashes |
| QueueBox.EnqueueBeside | src/lib/queue.c:119-171 | an entry for one of two such names does not come out under the other |
| QueueBox.Box.Search | src/lib/queue.c:85-93 | the search returns the last queue of the bucket with this hash |
| QueueBox.Box.GetQueue | src/lib/queue.c:67-117 | finds the queue or creates it in the bucket of its hash, keeping hashes unique and all contents |
| QueueBox.Box.Enqueue | src/lib/queue.c:119-147 | appends to the queue with this hash and adds one to its count, and leaves contents and counts of all others |
| QueueBox.Box.Dequeue | src/lib/queue.c:149-171 | takes the oldest entry of the queue with this hash, or nothing, leaves its count as it is, and leaves all others |
| QueueBox.Run | src/lib/queue.c:119-171 | every run of operations acts on each hash as on a FIFO of its own, and the count of a hash is what it holds plus what was ever taken out |
| QueueBox.FifoLaw | src/lib/queue.c:119-171 | for every run and hash, what was there plus what was put in is what came out plus what is left, in order |
| QueueRace.LookupStable | src/lib/queue.c:85-114 | in every interleaving of searches and insertions, once a queue is found for a hash every later search finds that same queue |
| QueueRace.InsertServedIff | src/lib/queue.c:85-114 | over every run after an insertion, later searches find the inserted queue if and only if there was none for its hash at the insertion; otherwise it is stranded as soon as its thread lets go of it |
| QueueRace.LaterSearches | src/lib/queue.c:85-93 | every later search of any thread for that hash returns this queue, or the one that was there before it |
| QueueRace.RaceStrands | src/lib/queue.c:95-114 | two threads that both missed strand what the second one enqueues |
| QueueRace.RaceFromEmpty | src/lib/queue.c:67-117 | five steps from the empty box lead there, for any two threads and any hash |
| QueueRace.LoserNeverServed | src/lib/queue.c:85-171 | no run changes the contents of a queue that lost the race |
| Transactions.LookupExactIff | src/lib/transaction.c:15-30 | in every reachable manager the prefix lookup of an id is exact if and only if no live id properly extends it |
| Transactions.Manager.GetTransaction | src/lib/transaction.c:15-30 | the loop returns the last transaction whose id starts with the given one |
| Transactions.Manager.TransactionStart | src/lib/transaction.c:92-103 | adds an empty transaction at the end exactly when the lookup finds none |
| Transactions.Manager.TransactionAdd | src/lib/transaction.c:105-123 | pushes the frame on the stack of the transaction found |
| Transactions.Manager.TransactionAbort | src/lib/transaction.c:125-139 | removes the transaction found |
| Transactions.Manager.TransactionCommit | src/lib/transaction.c:141-175 | calls callbacks from the top of the stack to the first failure, removes the transaction and succeeds; or does not come back, with what it called taken from the stack |
| Transactions.CallBacks | src/lib/transaction.c:150-165 | the loop calls exactly the frames of the function Called, and what is left when it hangs is the rest of the stack |
| Transactions.CalledExactly | src/lib/transaction.c:150-165 | for every stack: only frames with a callback are called, all before the last one succeeded, and the loop stops short of the end after a failure, or in front of a frame without a callback, the latter exactly when it hangs |
| Transactions.HungCalls | src/lib/transaction.c:152-164 | a commit that hangs has called exactly the frames above the first one without a callback |
| Transactions.CalledUpToFailure | src/lib/transaction.c:150-165 | with callbacks everywhere, all calls but the last succeeded, and the loop stopped early only right after a failure |
| Transactions.HangsIff | src/lib/transaction.c:152-164 | commit does not come back if and only if a frame without a callback lies before the first failure |
| Transactions.CommitCallsInReverse | src/lib/transaction.c:105-175 | frames added to a new transaction are called in reverse order of addition, and the other transactions are as before |
| Transactions.RunOrdered | src/lib/transaction.c:92-139 | in every run no live id is a prefix of an older live id |
| Transactions.RunRefinesMap | src/lib/transaction.c:92-175 | over every run in which no live id properly extends the id of the operation at hand, the manager is a map from id to stack |
| Transactions.StackIsReversedPushes | src/lib/transaction.c:105-123 | the stack of a live id is the frames pushed on it since its last start, the newest first |
| Transactions.CommitInEveryRun | src/lib/transaction.c:141-175 | after every such run, commit calls a prefix of the frames pushed since the last start in reverse order, and removes exactly this transaction |

## Left out

- Sockets, accept loops, signals, daemon start-up, logging, configuration, option parsing and newtctl.
- Directories, file names, `stat` and failing file operations: the data file is a sequence of bytes with atomic appends, the sent index file is one integer.
- malloc failures, buffer capacities (the carried fragment grows without limit) and freeing.
- The static `prev_buffer` of `parse_frame`: a call that would fill it ends with `Carried`, and the loader then stops with `Incomplete`.
- `atoi` reading on past the end of a line whose content-length value is blank, and its behaviour on numbers outside the range of int.
- `frame_finish` puts a frame into the bucket one statement before the last byte is added to `size`; the model adds the frame to the bucket with its final size.
- `conn_finish`, which puts partial frames into the bucket on disconnect.
- `transaction_destruct`, which takes a lock that it already holds.
- `transaction_commit` holding its lock while callbacks run, and what the callbacks themselves do: a callback is its result.
- ACK, NACK, CONNECT, SUBSCRIBE and the other handlers, `reply-to`, subscriber registration, `search_dest_group`, and liveness of the worker threads.
- `get_queuelist` and `cleanup_queuebox`.
- Crashes inside a pass of the persistent worker, and restarts whose unread log does not fit into one buffer.
- Straddle.StraddleIff: for one buffer end, behind the name of the first frame. A cut inside the name can leave a header line that starts with a command to be taken for the name, and a frame that does not start its buffer is continued in the memory behind it (`Straddle.StaleHeader` for one case).
- Crlf.CrlfMessage: one call; in several calls a carriage return can end a line early (`CutSafety.HeaderCutIff`).
- SeekExact.SeekLoadIff: for a rest of the log that fits into one buffer of at most `LD_MAX` bytes, which is the source's buffer (`src/lib/persistent_worker.c:21`), and for k below the number of frames. In a larger buffer a frame begun by mistake could end its body at an `LD_MAX` boundary inside a later frame and match it by chance; zero bytes behind the buffer can hide a frame begun by mistake, which `SeekExact.SeekLoadAlwaysIff` accounts for; and behind the last frame there is nothing to lose.
- IntrusiveList.MulticastPass: the frame, its headers and the validity check are the function `valid` and the list of receivers.
- Recovery.CrashRecovery: one subscriber worker at a time and frames with a body, because with several workers the sent index does not mark a prefix of the log.
- QueueBox.Box.GetQueue: one thread; the interleavings of several threads are in QueueRace.
