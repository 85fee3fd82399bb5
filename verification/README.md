# Verified models of xynet

xynet is a header-only C++20 network library on io_uring and coroutines. This project models its
stateful parts in Dafny and proves what they are for. The statements quantify over every
fragmentation of a byte stream, every interleaving of threads, and every partial count a kernel may
report.

`dafny verify dfyconfig.toml` checks everything.

## What is modelled

- **Chunked bodies** (`ChunkedDecoder.dfy`, `ChunkedGrammar.dfy`). The specification is an automaton that
  reads one byte at a time. The decoder works in place with two cursors, as the C code does, and is
  proved equal to the automaton. The automaton is independent of fragmentation, accepts exactly a
  written-out grammar, and inverts printing (section 4.1 of RFC 7230).
- **Header blocks** (`HeaderSpec.dfy`, `HeaderGrammar.dfy`, `HeaderScan.dfy`). A plain left-to-right reading is
  the specification. It is prefix-stable, accepts exactly a written-out grammar, and inverts printing
  (section 3.2 of RFC 7230). The block-wise and unrolled scanning loops compute the same. The quick
  completeness check is sound, with its exact exception.
- **The event loop** (`IoServices.dfy`). Producers, eventfd, one-shot poll and run loop are one transition
  system with any number of threads. A run is any sequence of enabled atomic actions.
- **The auto-reset event and the chat writer** (`AutoResetEvents.dfy`, `ChatWriter.dfy`). The event is a
  transition system with any number of setters; the writer is composed with it.
- **Joins** (`WhenAll.dfy`, `AsyncScopes.dfy`). Two counters as transition systems.
- **Transfers** (`BufferSequences.dfy`, `Transfers.dfy`). Buffer sequences, the resubmitting send and
  receive operations, and a sender and receiver joined by an adversarial kernel.
- **WebSocket frames** (`WebsocketHeaders.dfy`, `WebsocketFrames.dfy`). Builder, resumable parser, masking,
  and whole frames (sections 5.2 and 5.3 of RFC 6455).
- **The stream buffer and the chat reader** (`StreamBuffers.dfy`, `ChatReader.dfy`). The shifting, growing
  vector is a byte queue; the reader's lines do not depend on how the stream is cut into reads.

In the transition systems a step that the code's assertions or the coroutine rules forbid is not
disabled; it sets `broken`, and the proofs show that no run gets there. The classes beside them hold the
code: their atomic methods perform one action on mutable fields, and the source's functions are
composed from these. Between two atomic steps of a function lies a gap in which the other parties do
whatever a schedule says, and schedules are arbitrary. Each object keeps its history of actions, and
its invariant says that this history is a run; so what is proved of all runs holds of the code.

## Assumptions about the environment

- Atomics are sequentially consistent, and the mutex-protected blocks are atomic.
- The eventfd is a natural number: a write adds one, the loop's read sets it to zero. A poll is
  one-shot and level-triggered, and posts one completion when armed with a positive counter.
- A send or receive moves between one byte and all remaining bytes, in order, or ends with zero or an
  error. Error codes start clear. Byte counts kept in an `int` are below 2^31.
- Sizes are 64-bit. The decoder's size accumulator and the parser's length are written with their wrap-around,
  and the wrap-around is proved not to happen where it would matter.

## Where the code falls short

- The quick completeness check refuses a block that consists of the blank line alone
  (`HeaderSpec.EmptyBlockIsRefused`). `HeaderSpec.ResumingAgreesIff` says for which inputs it agrees with
  the parser: those that do not start with a line end, or have two line ends in a row with no stray CR before.
- A receive whose last buffer is empty reports end of file after all bytes have arrived
  (`Transfers.TrailingEmptyBuffer`). `Transfers.FillsIff` and `Transfers.RecvErrorFreeIff` give the exact
  condition for all buffers and all kernel results: there is a buffer, and the last one is not empty. The
  comment at include/xynet/socket/impl/recv_all.h:164-165 promises completion once the buffers are filled;
  the model follows the code, which agrees with test/socket_async_operation_test.cpp:127-158.
- A send that the kernel ends with zero reports no error although bytes are missing
  (`Transfers.SendCutShort`), unlike a receive. `Transfers.SendCutShortIff` says exactly for which kernel
  results.
- The frame-header constructors do not hand their mask to the builder. `WebsocketHeaders.ConstructorKeepsMaskIff`
  says exactly when a parser gets it back.

## Model

| member | source | states |
|---|---|---|
| ChunkedDecoder.Decoder.Decode | include/xynet/http/picohttpparser.h:608-721 | one in-place call leaves output, unread tail, untouched remainder, saved fields and return code of the one-byte automaton; the write cursor never passes the read cursor |
| ChunkedDecoder.Decoder.ReadSize | include/xynet/http/picohttpparser.h:615-635 | the digit loop keeps the automaton's outcome ahead of the cursor, or stops with its verdict |
| ChunkedDecoder.Decoder.ReadExtension | include/xynet/http/picohttpparser.h:637-654 | the same for the rest of the size line |
| ChunkedDecoder.Decoder.ReadData | include/xynet/http/picohttpparser.h:656-672 | moving a stretch of chunk data down equals reading its bytes one by one, and leaves unread bytes untouched |
| ChunkedDecoder.Decoder.ReadCrlf | include/xynet/http/picohttpparser.h:674-687 | the same outcome-preservation for the end of a chunk |
| ChunkedDecoder.Decoder.ReadTrailerHead | include/xynet/http/picohttpparser.h:688-697 | the same for the start of a trailer line |
| ChunkedDecoder.Decoder.ReadTrailerMiddle | include/xynet/http/picohttpparser.h:699-708 | the same inside a trailer line |
| ChunkedDecoder.Decoder.Scan | include/xynet/http/picohttpparser.h:613-712 | the state switch terminates and stops with the automaton's verdict |
| ChunkedDecoder.MoveDown | include/xynet/http/picohttpparser.h:659-660 | the overlapping move puts the old bytes behind the write cursor and changes nothing beyond them |
| ChunkedDecoder.DecodeFragments | include/xynet/http/picohttpparser.h:69-77 | an application feeding one decoder fragment by fragment ends with the output and code of the whole stream, and keeps what follows the body |
| ChunkedDecoder.RunSplit | include/xynet/http/picohttpparser.h:608-721 | decoding a + b is decoding a and then, unless the body ended, b from the saved fields |
| ChunkedDecoder.FragmentationIrrelevant | include/xynet/http/picohttpparser.h:69-77 | every cut into successive calls gives the outcome of one call on the whole input |
| ChunkedDecoder.OutputFitsBeforeRest | include/xynet/http/picohttpparser.h:717-719 | the unread bytes are a tail of the input and the output fits in front of them |
| ChunkedDecoder.SizeNeverWraps | include/xynet/http/picohttpparser.h:627-632 | the size stays below 16 to the number of digits, so the 64-bit accumulator never wraps |
| ChunkedDecoder.StepKeepsValid | include/xynet/http/picohttpparser.h:613-712 | every step from every valid decoder gives a valid decoder |
| ChunkedDecoder.RunKeepsValid | include/xynet/http/picohttpparser.h:613-712 | so does every input |
| ChunkedDecoder.RunData | include/xynet/http/picohttpparser.h:656-672 | up to the announced number of bytes pass through unchanged |
| ChunkedGrammar.AcceptsExactlyTheGrammar | include/xynet/http/picohttpparser.h:608-721 | the decoder completes if and only if the input starts with a body of the grammar, and then output and leftover are that body's data and what follows it |
| ChunkedGrammar.DecodesEveryBody | include/xynet/http/picohttpparser.h:613-720 | every body of the grammar, with extensions and trailers, is decoded to its chunks' data |
| ChunkedGrammar.Decompose | include/xynet/http/picohttpparser.h:613-720 | every accepted input splits into a body of the grammar and a tail |
| ChunkedGrammar.PrintDecodeRoundTrip | include/xynet/http/picohttpparser.h:613-720 | printing non-empty payloads as chunks and decoding them under any fragmentation gives their concatenation and the exact leftover |
| ChunkedGrammar.SpelledRoundTrip | include/xynet/http/picohttpparser.h:613-720 | the same with every size spelled in any mix of upper and lower case and with leading zeros |
| ChunkedGrammar.IncompleteIff | include/xynet/http/picohttpparser.h:608-721 | from every decoder state, -2 exactly when some continuation completes the body, -1 exactly when none does |
| ChunkedGrammar.StopsAtTheDecidingByte | include/xynet/http/picohttpparser.h:713-720 | nothing is read beyond the byte that decides; a refused byte stays unread |
| ChunkedGrammar.TooManyDigits | include/xynet/http/picohttpparser.h:627-630 | a seventeenth size digit is refused |
| ChunkedGrammar.HexRoundTrip | include/xynet/http/picohttpparser.h:595-606 | hexadecimal digits decode to the number they print, in at most the digits it needs |
| ChunkedGrammar.DecodeHexExact | include/xynet/http/picohttpparser.h:595-606 | exactly the characters 0-9, A-F and a-f are digits, with their positions in those lists as values |
| ChunkedGrammar.SpellsIff | include/xynet/http/picohttpparser.h:616-633 | the value read is the number that the digits spell, and no other bytes spell one |
| ChunkedGrammar.ReadsDigits | include/xynet/http/picohttpparser.h:616-633 | reading digits leaves their value in the accumulator |
| HeaderSpec.PrefixStable | include/xynet/http/picohttpparser.h:348-424 | any result but -2 is unchanged by appending bytes |
| HeaderSpec.ProperPrefixIncomplete | include/xynet/http/picohttpparser.h:348-424 | every proper prefix of an accepted block gives -2 |
| HeaderSpec.IncompleteIff | include/xynet/http/picohttpparser.h:348-424 | -2 exactly when the block is not accepted and some continuation is, -1 exactly when no continuation is |
| HeaderSpec.CheckFindsEnd | include/xynet/http/picohttpparser.h:282-308 | from any position at least three bytes before the end of an accepted block, the completeness check finds exactly that end |
| HeaderSpec.ResumingIsSound | include/xynet/http/picohttpparser.h:565-584 | for an accepted block with a header that ends at or beyond last_len, resuming gives the parser's own answer |
| HeaderSpec.FirstCallParses | include/xynet/http/picohttpparser.h:573-577 | with last_len zero the completeness check is skipped |
| HeaderSpec.ResumingAgreesIff | include/xynet/http/picohttpparser.h:565-584 | for every accepted block that does not end before last_len, whatever follows it, resuming agrees if and only if the input does not start with a line end, or two line ends follow each other in it with no stray CR before; the blank line alone gives -2 |
| HeaderSpec.CheckSucceedsIff | include/xynet/http/picohttpparser.h:282-308 | the completeness check succeeds exactly when two line ends follow each other with no stray CR before them |
| HeaderSpec.CheckIncompleteIff | include/xynet/http/picohttpparser.h:282-308 | the check reports -2 exactly when it has not succeeded and some continuation makes it succeed |
| HeaderSpec.LooksThreeBack | include/xynet/http/picohttpparser.h:282-286 | resuming depends on no byte more than three before last_len |
| HeaderSpec.RefusalIsFinal | include/xynet/http/picohttpparser.h:565-584 | after -1 while resuming, no continuation is a block with a header that ends at or beyond last_len |
| HeaderSpec.EmptyBlockIsRefused | include/xynet/http/picohttpparser.h:573-577 | the smallest refused block |
| HeaderSpec.HeadersOnlyGrow | include/xynet/http/picohttpparser.h:351-364 | headers already read stay in place, and an accepted block with none starts with its blank line |
| HeaderGrammar.AcceptsExactlyTheGrammar | include/xynet/http/picohttpparser.h:348-424 | the parser accepts if and only if the input starts with a block of the grammar, and its slices are the places of that block's names and values |
| HeaderGrammar.PrintParseRoundTrip | include/xynet/http/picohttpparser.h:348-424 | parsing a printed block with anything behind it consumes it exactly and finds every name and value |
| HeaderGrammar.SlicesInOrder | include/xynet/http/picohttpparser.h:412-421 | the slices hold the printed names and values, in order, disjoint and inside the consumed region |
| HeaderGrammar.AcceptedSlices | include/xynet/http/picohttpparser.h:348-424 | in every accepted input the slices are in order, disjoint and inside the consumed region; names are tokens, values have no control character and no trailing blank |
| HeaderGrammar.AlphabetOfTheStandard | include/xynet/http/picohttpparser.h:181-188 | the byte classes are those of section 3.2 of RFC 7230: token characters, SP and HT, field text, CR, LF and the colon |
| HeaderGrammar.BlockPrinted | include/xynet/http/picohttpparser.h:348-424 | every accepted input is a printed block of valid fields, at most max_headers of them, the first one named; values carry no trailing blank |
| HeaderGrammar.ValueAt | include/xynet/http/picohttpparser.h:407-421 | a value's slice ends before its trailing blanks |
| HeaderGrammar.NamedAt | include/xynet/http/picohttpparser.h:365-402 | a printed named field is read back with its places |
| HeaderGrammar.FoldAt | include/xynet/http/picohttpparser.h:403-406 | so is a folded continuation line |
| HeaderScan.PhrParseHeaders | include/xynet/http/picohttpparser.h:565-584 | code, count and slices equal those of the plain parser behind the completeness check, with and without the string-compare instruction |
| HeaderScan.ParseHeaders | include/xynet/http/picohttpparser.h:348-424 | code, count and filled array equal the plain parser's |
| HeaderScan.FindcharFast | include/xynet/http/picohttpparser.h:190-217 | only bytes outside the ranges are skipped, a reported byte is inside them, and otherwise all whole blocks are skipped; nothing happens without the instruction |
| HeaderScan.CompareRanges | include/xynet/http/picohttpparser.h:199-205 | the least position in a block whose byte is in a range, or 16 |
| HeaderScan.FindControl | include/xynet/http/picohttpparser.h:223-264 | the fast and the eight-at-a-time loop find the same first control byte as a byte loop |
| HeaderScan.GetTokenToEol | include/xynet/http/picohttpparser.h:219-280 | token length and next position, or the error, as the plain reading gives them |
| HeaderScan.ScanName | include/xynet/http/picohttpparser.h:365-402 | name end and value start, or the error, as the plain reading gives them |
| HeaderScan.TrimValue | include/xynet/http/picohttpparser.h:412-421 | the value without its trailing blanks |
| HeaderScan.CheckComplete | include/xynet/http/picohttpparser.h:282-308 | the loop computes the completeness check of the specification |
| HeaderScan.ValueRangesExact | include/xynet/http/picohttpparser.h:224-226 | the value ranges are exactly the bytes that end a value |
| HeaderScan.NameRangesCover | include/xynet/http/picohttpparser.h:369-376 | the name ranges stop at every byte that ends a name, and besides only at the two token characters 0x7c and 0x7e |
| IoServices.NoLostWakeup | include/xynet/io_service.h:93-115 | in every interleaving a waiting loop has exactly one poll armed or completed, and with work queued it has a completion to wake on, a poll that can fire, or a producer that owes its write |
| IoServices.EveryPushCanBeExecuted | include/xynet/io_service.h:229-302 | from every reachable state everything pushed so far can be executed, in order, without another push |
| IoServices.PushesConserved | include/xynet/io_service.h:220-266 | all pushes are those executed, then those in the batch, the local queue and the remote queue, in order |
| IoServices.WakeupsArePaidFor | include/xynet/io_service.h:93-115 | in every run polls fire at most as often as the eventfd is written, the loop wakes at most as often as completions are posted and goes round only after a wake-up, and producers write at most once per batch swapped out |
| IoServices.InvStep | include/xynet/io_service.h:93-115 | every atomic action keeps the wake-up, poll and conservation invariants |
| IoServices.WakeupStep | include/xynet/io_service.h:229-247 | every action keeps: work queued means an owed write, a positive counter, or a loop between drain and swap |
| IoServices.PollStep | include/xynet/io_service.h:362-381 | every action keeps: the flag is set exactly while one poll is prepared, armed or completed |
| IoServices.ConservedStep | include/xynet/io_service.h:249-302 | every action keeps: no operation and no completion is dropped, duplicated or reordered |
| IoServices.IoService.PushRemote | include/xynet/io_service.h:229-240 | the locked half of schedule_remote is one action; a write is owed exactly when the queue was empty |
| IoServices.IoService.EnableRemoteQueueEventfd | include/xynet/io_service.h:388-402 | the write is one action |
| IoServices.IoService.ScheduleRemote | include/xynet/io_service.h:229-247 | on any thread and with anything happening in between: a run that pushes the operation and leaves no write owed |
| IoServices.IoService.PreparePollIfNeeded | include/xynet/io_service.h:100-105 | a poll is prepared exactly when none is outstanding |
| IoServices.IoService.SubmitRequests | include/xynet/io_service.h:107-107 | submitting arms a prepared poll |
| IoServices.IoService.SubmitAndWait | include/xynet/io_service.h:107-107 | a run that ends with a completion there, or blocked with none for as long as nobody posts one |
| IoServices.IoService.ReapCompletion | include/xynet/io_service.h:274-298 | one completion: the poll's drains the eventfd, a link timeout is ignored, an operation is collected |
| IoServices.IoService.GetCompletionQueueOperationBases | include/xynet/io_service.h:268-302 | the walk over a queue that may grow meanwhile is a run, terminates, and leaves the queue empty |
| IoServices.IoService.ScheduleCompletions | include/xynet/io_service.h:300-301 | the collected operations go behind the local queue |
| IoServices.IoService.GetRemoteQueueOperationBases | include/xynet/io_service.h:351-360 | the remote queue is emptied behind the local queue |
| IoServices.IoService.TakePending | include/xynet/io_service.h:249-258 | the local queue becomes the batch |
| IoServices.IoService.ExecuteNext | include/xynet/io_service.h:260-263 | the batch is executed from its front |
| IoServices.IoService.ExecuteOperation | include/xynet/io_service.h:260-263 | an executed operation schedules all that it wants remotely, in order; the batch only loses its front |
| IoServices.IoService.ExecutePendingLocal | include/xynet/io_service.h:249-266 | the batch loop is a run, terminates, and executes the local queue to its end |
| IoServices.IoService.Process | include/xynet/io_service.h:109-111 | the three calls behind the wait execute everything pushed or completed before them |
| IoServices.IoService.RunRound | include/xynet/io_service.h:98-112 | one round is a run; unless it blocks, everything pushed or completed before it has been executed, in order, at its end |
| IoServices.IoService.Run | include/xynet/io_service.h:93-115 | so are any number of rounds, exactly as many as the token allows unless it blocks; a loop blocked with work queued has a poll that can fire or a producer that owes its write |
| IoServices.EmptiedOnTheWay | include/xynet/io_service.h:93-115 | a run that finds a queue empty and later is at the loop head has executed all that went through that queue before |
| AutoResetEvents.ResumedExactlyOnce | include/xynet/coroutine/single_consumer_async_auto_reset_event.h:41-97 | over any number of setters: each suspension is resumed once, in order and only while suspended, one setter at most holds a handle, the assertion never fails |
| AutoResetEvents.NoSetIsLost | include/xynet/coroutine/single_consumer_async_auto_reset_event.h:41-61 | an unobserved set is in the word or a setter is on its way; a consumer asleep with no setter at work has observed every set |
| AutoResetEvents.OneReleasePerSet | include/xynet/coroutine/single_consumer_async_auto_reset_event.h:36-97 | in every run the consumer gets past at most as many awaits as there were sets, the initial one included |
| AutoResetEvents.InvStep | include/xynet/coroutine/single_consumer_async_auto_reset_event.h:41-97 | every atomic operation keeps the invariant |
| AutoResetEvents.OnlySetter | include/xynet/coroutine/single_consumer_async_auto_reset_event.h:44-59 | a setter that holds a handle is the only one, and the consumer is suspended there |
| AutoResetEvents.AutoResetEvent.BeginSet | include/xynet/coroutine/single_consumer_async_auto_reset_event.h:43-47 | the first exchange and the handle it yields |
| AutoResetEvents.AutoResetEvent.FinishSet | include/xynet/coroutine/single_consumer_async_auto_reset_event.h:56-56 | the second exchange |
| AutoResetEvents.AutoResetEvent.TrySuspend | include/xynet/coroutine/single_consumer_async_auto_reset_event.h:80-93 | the compare-exchange; its failure means "set", so the assertion holds |
| AutoResetEvents.AutoResetEvent.ResumeWaiter | include/xynet/coroutine/single_consumer_async_auto_reset_event.h:58-59 | the coroutine whose handle was taken is suspended there when it is resumed |
| AutoResetEvents.AutoResetEvent.Set | include/xynet/coroutine/single_consumer_async_auto_reset_event.h:41-61 | with anything happening in between: a run after which a coroutine that was waiting has been resumed, and an unobserved set is in the word or with another setter |
| AutoResetEvents.AutoResetEvent.AwaitSuspend | include/xynet/coroutine/single_consumer_async_auto_reset_event.h:75-97 | a run that ends suspended with the handle in the word, or goes on having observed every set |
| ChatWriter.NeverSleepsOnWork | example/chat/chat_server.cpp:116-168 | a writer asleep while no delivery is between its push and the end of its set has an empty queue; the messages sent are a prefix, in order, of those delivered |
| ChatWriter.EveryDeliveryCanBeSent | example/chat/chat_server.cpp:147-168 | from every reachable state everything delivered can be sent without another delivery |
| ChatWriter.NeverSpins | example/chat/chat_server.cpp:147-168 | in every run the writer comes back from the event at most once per delivery, and goes round its loop only to send or to come back |
| ChatWriter.InvStep | example/chat/chat_server.cpp:116-168 | every step of writer, deliveries and event keeps the invariant |
| ChatWriter.ChatSession.Deliver | example/chat/chat_server.cpp:116-120 | a run that delivers the message; afterwards a writer asleep with no other delivery under way has sent everything |
| ChatWriter.ChatSession.AwaitEvent | example/chat/chat_server.cpp:153-156 | a run that comes back from the event, or sleeps for as long as nobody resumes it |
| ChatWriter.ChatSession.Writer | example/chat/chat_server.cpp:147-168 | the loop is a run; it sends a prefix of what is delivered, and asleep with no delivery under way it has sent everything |
| WhenAll.JoinsExactlyOnce | include/xynet/coroutine/detail/when_all_counter.h:27-51 | for any number of tasks and any interleaving the parent goes on at most once, after all have finished and with its handle stored; the counter is the unfinished tasks, plus one until registration |
| WhenAll.EveryRunJoins | include/xynet/coroutine/detail/when_all_counter.h:27-51 | no run of n tasks has more than 3n + 2 actions, and none is enabled any more if and only if the parent has gone on, exactly once |
| WhenAll.NeverStranded | include/xynet/coroutine/detail/when_all_ready_awaitable.h:263-271 | a parent that has not gone on always has a task that runs or resumes it, or a step of its own |
| WhenAll.InvStep | include/xynet/coroutine/detail/when_all_ready_awaitable.h:149-161 | every step, including completion during start, keeps the invariant |
| WhenAll.WhenAllReadyAwaitable.CounterTryAwait | include/xynet/coroutine/detail/when_all_counter.h:39-43 | store and decrement, with anything in between, are a run; the parent suspends, or goes on and every task has finished |
| WhenAll.WhenAllReadyAwaitable.TryAwait | include/xynet/coroutine/detail/when_all_ready_awaitable.h:263-271 | starting every task and registering is a run, whatever the tasks do meanwhile, with the same outcome |
| WhenAll.WhenAllReadyAwaitable.NotifyAwaitableCompleted | include/xynet/coroutine/detail/when_all_counter.h:45-51 | a run that resumes the parent exactly when it takes the counter from one, and then every task has finished |
| WhenAll.WhenAllReadyAwaitable.ResumeParent | include/xynet/coroutine/detail/when_all_counter.h:49-49 | at a resume the handle is stored and the parent is suspended |
| AsyncScopes.JoinsExactlyOnce | include/xynet/coroutine/async_scope.h:39-100 | with work spawning work before and during join: the continuation runs at most once and only when no work is left, the counter is the running work plus one until join takes its share, a suspended owner is never stranded |
| AsyncScopes.EveryRunJoins | include/xynet/coroutine/async_scope.h:39-100 | a run has at most three actions per spawn and two more, and no action is enabled any more if and only if the continuation has run, exactly once |
| AsyncScopes.AnyAmountOfWork | include/xynet/coroutine/async_scope.h:49-58 | any amount of work can be running while the owner is suspended in join, most of it spawned by other work |
| AsyncScopes.RestsAfterJoin | include/xynet/coroutine/async_scope.h:88-100 | after the continuation nothing can happen in the scope |
| AsyncScopes.InvStep | include/xynet/coroutine/async_scope.h:49-100 | every step keeps the invariant; a spawn never finds the counter at zero |
| AsyncScopes.AsyncScope.OnWorkStarted | include/xynet/coroutine/async_scope.h:96-100 | the increment; its assertion holds |
| AsyncScopes.AsyncScope.OnWorkFinished | include/xynet/coroutine/async_scope.h:88-94 | decrement and resume, with anything in between, are a run; it resumes exactly when it is the last, and then no work is left |
| AsyncScopes.AsyncScope.JoinBegin | include/xynet/coroutine/async_scope.h:68-75 | join stores its continuation; the counter is never zero yet |
| AsyncScopes.AsyncScope.JoinSuspend | include/xynet/coroutine/async_scope.h:73-77 | join suspends exactly when work is left |
| AsyncScopes.AsyncScope.Join | include/xynet/coroutine/async_scope.h:58-77 | a run that ends suspended, or goes on with no work left |
| BufferSequences.BufferSequence.Commit | include/xynet/buffer.h:94-110 | the loop leaves the specified vectors, and the view with that many bytes dropped |
| BufferSequences.BufferSequence.GetIovSpan | include/xynet/buffer.h:69-92 | nothing exactly when no vector remains, else their count |
| BufferSequences.CommitDrops | include/xynet/buffer.h:94-110 | committing n bytes drops the first n of the view, however the buffers are cut |
| BufferSequences.ViewAt | include/xynet/buffer.h:69-92 | byte i of buffer k comes behind the bytes of the buffers before it, at that buffer's address i |
| BufferSequences.CommitTwice | include/xynet/buffer.h:94-110 | commit(a) then commit(b) leaves the same vectors as commit(a + b) |
| BufferSequences.CommitReachesEnd | include/xynet/buffer.h:94-110 | with a non-empty last buffer the iterator is at the end exactly when no byte remains |
| BufferSequences.CommitKeepsLastEmpty | include/xynet/buffer.h:94-110 | an empty last buffer is never passed |
| BufferSequences.EndsExactlyIff | include/xynet/buffer.h:94-110 | after all bytes are committed the iterator is at the end if and only if the last buffer was non-empty |
| Transfers.EndToEnd | include/xynet/socket/impl/recv_all.h:99-140 | for all buffers on both sides and all kernel choices the receiver holds exactly the prefix its count says, and an error-free receive holds all of the sender's bytes it asked for |
| Transfers.EveryTransferCompletes | include/xynet/socket/impl/recv_all.h:99-140 | when the kernel ends nothing early, a transfer takes at most one step per byte and side whatever the partial counts, and when nothing more can move the send is complete and so is every receive of no more bytes |
| Transfers.KernelMayDoAnything | include/xynet/socket/impl/send_all.h:91-113 | any positive part of what is there may be moved, and either side may be ended at any time with any zero or error, which that side then reports |
| Transfers.UpdateStep | include/xynet/socket/impl/send_all.h:91-113 | a completion advances the count by what was moved; a resubmission leaves strictly fewer bytes; it ends as filled exactly when all are moved and the last buffer is not empty |
| Transfers.PlayMoves | include/xynet/socket/impl/send_all.h:91-113 | a run transfers the kernel's counts up to the first zero or error, capped by the buffers' size, and that zero or error decides how it ends if it comes before the last byte |
| Transfers.FillsIff | include/xynet/socket/impl/recv_all.h:99-121 | for all buffers and all kernel results an operation fills its buffers if and only if there is one, the last is not empty, and the kernel moves that many bytes |
| Transfers.RecvErrorFreeIff | include/xynet/socket/impl/recv_all.h:99-140 | a finished receive is error-free under exactly that condition, and has all bytes whenever the kernel moved that many |
| Transfers.ReportsTheStop | include/xynet/socket/impl/recv_all.h:99-140 | an operation stopped before its last byte reports the bytes moved until then and the kernel's own error number; a zero is end of file for a receive and no error for a send |
| Transfers.TrailingEmptyBuffer | include/xynet/socket/impl/recv_all.h:99-129 | a run with an empty last buffer that reports end of file after all bytes, and the zero-byte receive |
| Transfers.SendCompleteIff | include/xynet/socket/impl/send_all.h:91-134 | for all buffers and kernel results a finished error-free send is complete if and only if the kernel moved all of its bytes |
| Transfers.SendCutShortIff | include/xynet/socket/impl/send_all.h:91-134 | a send ends short without an error if and only if the first result that is not positive is zero and comes before the last byte |
| Transfers.SendCutShort | include/xynet/socket/impl/send_all.h:91-134 | a run that does |
| Transfers.AsyncMessage.OnCompleted | include/xynet/socket/impl/recv_all.h:99-121 | the callback computes update_result in place and resubmits exactly while bytes remain |
| Transfers.Drive | include/xynet/socket/impl/recv_all.h:99-121 | the count of any run is the capped sum of the kernel's counts and fits an int |
| Transfers.ScatterExtends | include/xynet/socket/impl/recv_all.h:85-97 | receiving into the next stretch of distinct addresses extends what is read back |
| WebsocketHeaders.BuildHeader | include/xynet/http/websocket_frame_header.h:136-175 | the array holds the header of section 5.2 of RFC 6455, the offset is the announced size, nothing behind it is written |
| WebsocketHeaders.WriteLength | include/xynet/http/websocket_frame_header.h:148-167 | the extended length is written big-endian in two or eight bytes |
| WebsocketHeaders.SizeIsExact | include/xynet/http/websocket_frame_header.h:111-134 | the announced size is the header's length and at most 14 |
| WebsocketHeaders.HeaderRoundTrip | include/xynet/http/websocket_frame_header.h:305-385 | parsing a built header with anything behind it ends at its last byte and recovers six flag bits, mask and length |
| WebsocketHeaders.FragmentedRoundTrip | include/xynet/http/websocket_frame_header.h:305-385 | the same under every fragmentation, incomplete before the last header byte |
| WebsocketHeaders.FragmentationIrrelevant | include/xynet/http/websocket_frame_header.h:305-385 | every cut gives the outcome of one call |
| WebsocketHeaders.ParsesEveryInput | include/xynet/http/websocket_frame_header.h:305-385 | for any bytes the parser ends exactly at the last byte of the header that the second byte announces, with the fields of section 5.2 of RFC 6455; reserved bits are ignored |
| WebsocketHeaders.UnmaskedReportsZero | include/xynet/http/websocket_frame_header.h:274-281 | a new or reset parser reports a zero mask for a header without one |
| WebsocketHeaders.FinishedStays | include/xynet/http/websocket_frame_header.h:374-384 | after the end of a header the parser takes nothing more until it is reset |
| WebsocketHeaders.BuiltHeaderIsShortest | include/xynet/http/websocket_frame_header.h:111-134 | no shorter header announces the same length |
| WebsocketHeaders.HeaderParser.Parse | include/xynet/http/websocket_frame_header.h:305-385 | the nested loops compute the one-byte automaton and return the bytes used or npos |
| WebsocketHeaders.HeaderParser.ReadLength | include/xynet/http/websocket_frame_header.h:347-355 | the length loop equals single steps |
| WebsocketHeaders.HeaderParser.ReadMask | include/xynet/http/websocket_frame_header.h:366-372 | the mask loop equals single steps |
| WebsocketHeaders.HeaderParser.Reset | include/xynet/http/websocket_frame_header.h:274-281 | the parser is as new |
| WebsocketHeaders.NewFrameHeader | include/xynet/http/websocket_frame_header.h:183-202 | the constructors' bytes carry a zero mask |
| WebsocketHeaders.ConstructorKeepsMaskIff | include/xynet/http/websocket_frame_header.h:191-202 | the mask survives construction and parsing if and only if there is no mask bit or it is zero |
| WebsocketFrames.WebsocketMask | include/xynet/http/websocket_frame_mask.h:14-25 | in place, byte k is combined with key byte (i + k) mod 4, and the index to go on with is returned |
| WebsocketFrames.MaskTwice | include/xynet/http/websocket_frame_mask.h:14-25 | masking is its own inverse |
| WebsocketFrames.XorIsBitwise | include/xynet/http/websocket_frame_mask.h:20-21 | the combined byte is the one whose bits are set exactly where data and key differ |
| WebsocketFrames.MaskOfZeros | include/xynet/http/websocket_frame_mask.h:14-25 | masking zeros shows the key from its first byte on, over and over |
| WebsocketFrames.ExamplesOfTheStandard | include/xynet/http/websocket_frame_header.h:136-175 | the frames and headers of section 5.7 of RFC 6455, byte for byte |
| WebsocketFrames.MaskSplit | include/xynet/http/websocket_frame_mask.h:14-25 | masking a + b is masking a and then b from the returned index |
| WebsocketFrames.MaskPiecesIsMask | include/xynet/http/websocket_frame_mask.h:14-25 | so is masking any number of pieces |
| WebsocketFrames.FrameRoundTrip | include/xynet/http/websocket_frame_header.h:136-175 | build and mask, cut anywhere, parse and unmask: the payload |
| WebsocketFrames.UnmaskInPieces | include/xynet/http/websocket_frame_mask.h:14-25 | unmasking in the pieces that arrive gives the payload |
| StreamBuffers.StreamBuffer.ReserveRoom | include/xynet/stream_buffer.h:73-102 | shifting and growing keep the contents and give the specified room and size |
| StreamBuffers.MoveToFront | include/xynet/stream_buffer.h:84-92 | the overlapping move puts the readable bytes in front and leaves the rest of the vector |
| StreamBuffers.StreamBuffer.Resize | include/xynet/stream_buffer.h:94-98 | growing keeps the bytes |
| StreamBuffers.StreamBuffer.PrepareAndWrite | include/xynet/stream_buffer.h:42-47 | prepare gives room behind the put position, where the client's bytes then are |
| StreamBuffers.StreamBuffer.AppendBytes | include/xynet/stream_buffer.h:42-54 | prepare, write and commit one after the other |
| StreamBuffers.StreamBuffer.CommitBytes | include/xynet/stream_buffer.h:49-54 | at most the room's worth of the bytes behind the put position becomes readable |
| StreamBuffers.StreamBuffer.ConsumeBytes | include/xynet/stream_buffer.h:56-69 | the queue loses that many bytes at its front, or all |
| StreamBuffers.StreamBuffer.Overflow | include/xynet/stream_buffer.h:104-119 | one character is appended; end of file changes nothing and is answered by another value |
| StreamBuffers.StreamBuffer.Underflow | include/xynet/stream_buffer.h:121-132 | the next character, or end of file exactly when the queue is empty |
| StreamBuffers.RunIsFifo | include/xynet/stream_buffer.h:43-132 | in every run of prepare, commit, consume, overflow and underflow the readable bytes are those made readable minus those consumed |
| StreamBuffers.CommitsWhatWasWritten | include/xynet/stream_buffer.h:42-54 | in every run whose commits are covered by writes, the bytes made readable are those written, whatever happens between a prepare and its commits |
| StreamBuffers.StepAppend | include/xynet/stream_buffer.h:42-54 | a prepare, write and commit append exactly the written bytes and make the size what that needs |
| StreamBuffers.StepPrepare | include/xynet/stream_buffer.h:42-47 | prepare leaves the readable bytes alone and makes the size exactly what is needed |
| StreamBuffers.StepCommit | include/xynet/stream_buffer.h:49-54 | commit makes the next bytes readable, all of the room's if more are asked for |
| StreamBuffers.StepConsume | include/xynet/stream_buffer.h:56-69 | consume takes that many bytes, or all |
| StreamBuffers.StepPut | include/xynet/stream_buffer.h:104-119 | a character that finds no room gets a stretch of 128 bytes |
| StreamBuffers.RunCapacity | include/xynet/stream_buffer.h:73-102 | in every run the size is exactly the larger of its first size and the largest live-plus-requested over all reserve calls |
| StreamBuffers.ReserveMakesRoom | include/xynet/stream_buffer.h:73-102 | reserve gives the room asked for and grows only to what is needed |
| StreamBuffers.Replay | include/xynet/stream_buffer.h:12-132 | any sequence of these operations on a new buffer leaves the queue's bytes and the predicted size |
| ChatReader.Reader | example/chat/chat_server.cpp:193-213 | for every cut of the stream into reads the lines are delivered with the head, in order, the unterminated rest stays, and the buffer grew to the longest such rest plus one read |
| ChatReader.ReadOnce | example/chat/chat_server.cpp:199-211 | one read keeps: the lines received so far are delivered, the rest is buffered |
| ChatReader.DeliverLines | example/chat/chat_server.cpp:203-211 | the inner loop terminates, delivers all lines in the buffer and leaves the rest |
| ChatReader.FindNewline | example/chat/chat_server.cpp:170-176 | the first newline |
| ChatReader.CutIsUnique | example/chat/chat_server.cpp:170-191 | lines and tail are the one way to cut the stream at its newlines |
| ChatReader.LinesAppend | example/chat/chat_server.cpp:193-213 | more input only adds lines, the first starting with the old tail |

## Left out

- Request-line and status-line parsing (include/xynet/http/picohttpparser.h:426-537): its space-skipping loops read without an end check, so a model would need a sentinel convention.
- HeaderScan.ParseHeaders: does not model what the entry of the line being read holds after a failure; the count does not include it.
- IoServices: `request_stop` is a spurious eventfd write, the stop token is a loop that stays at its head, and submission-queue overflow and interrupted waits are not modelled.
- ChatWriter.ChatSession: holds the event as a value; the event's own code is in AutoResetEvents.AutoResetEvent.
- Transfers: `recv_some` and timeouts end an operation after one completion and are not modelled.
- Chat room membership, session lifetime and error handling of the chat server: they depend on coroutine destruction order.
- Memory orderings weaker than sequential consistency.
- `sync_wait`, tasks, policy templates and the system-call wrappers: no unbounded behaviour to prove.
