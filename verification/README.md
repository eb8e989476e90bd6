# Blue-Bird in Dafny

Blue-Bird is a backend framework written in C. This project models the parts of it
that carry an algorithm or a protocol of their own, and proves what they are for:

- an HTTP/1.1 parser that may be fed any pieces of a byte stream, and the printer
  whose output it reads back (`Text`, `Http*`);
- an event loop with a task queue, a timer heap, a watcher table and a poller
  table, which together decide who frees a task, and the fairness cursors of two
  poller backends (`TimerHeap`, `EventLoop*`, `Runtime`, `PollBackends`);
- a JSON library: recursive parser, two-pass serializer, linked hash table
  (`Json*`);
- a migration tool: generator, planner, transactional runner, file names and
  checksum (`Migrate*`, `Checksum`);
- queries pushed down to SQLite and Postgres, and the Postgres connection pool
  (`Like`, `Query`, `Sql`, `Pushdown`, `PgPool`);
- streaming SHA-256, HMAC and PBKDF2 (`Octets`, `Sha256`, `Hmac`, `Pbkdf2`);
- WebSocket frames and the bytes of a connection (`Connection`, `WebSocket*`).

Code that loops and assigns is a method with loops; each method is proved to compute
a function of its inputs or of the old state, and the lemmas are about that
function. What C updates in place is a field or an array here. A C string or byte
buffer is a Dafny string, one char per byte, except where bytes are computed with
(`Octets`).

`dafny verify dfyconfig.toml` checks everything.

## How the parts are built

**HTTP.** `HttpMachine` is the parser as a machine that takes one byte at a time,
where cutting the input changes nothing because a byte is refused only when the
parse is over. `HttpParser` is the code: the class has the struct's fields, copies
whole stretches of body at once, keeps one growing line buffer and grows and resets
its buffers, and `Feed` is proved to reach the same state as the machine, byte for
byte. `HttpFraming` and `HttpMessage` run the machine over encoded bodies and
printed messages, `HttpWhole` over any message from its first byte, and
`HttpTargetExact` says which targets are accepted.

**Event loop.** `EventLoop` has the state and its operations as functions,
`EventLoopSafety` the ownership invariant, `EventLoopRuns` whole runs, in which
every callback may make any calls, and `Runtime` the code, with its table edited in
place while it is scanned and its timers in the array heap of `TimerHeap`.
`EventLoopCalls` and `EventLoopServes` say what each call and each tick does.

**JSON.** `Json` has the grammar as functions and the printed text, `JsonCodec` and
`JsonParser` the two passes and the index arithmetic; `JsonReal` and `JsonNumbers`
say which reals fit a float, `JsonStrings` which literals there are, `JsonDocs` what
any document denotes. `JsonTable` and `JsonObject` model the nodes that sit at once
in a bucket chain and in a doubly linked list: memory is a map from addresses to
nodes, so a wrong or missing link update is visible.

**Migrations.** `MigrateVerdict` says when the generator refuses, `MigrateSafety`
gives the generated statements the meaning SQLite gives them, on tables with data.
`MigrateHistory` runs the runner over and over, any driver call failing, and then
any number of runners interleaved.

**Queries.** `Query` is the in-memory evaluator. `Pushdown` renders the same query
as the two backends do, numbers the placeholders as the database does, and evaluates
the statement by the meaning `Sql` gives operators, ORDER BY and LIMIT.

**Pool.** `PgPool` is an interleaving of callers: the step taken, the server's
answers, spurious wakeups and the caller a signal wakes are all arbitrary.

## Where the code differs from what it promises

The model follows the code.

- The generator accepts a schema with two key columns for a missing table and
  writes a `CREATE TABLE` that SQLite rejects (`MigrateSafety.TwoKeysAreNotRefused`);
  tools/migrate/src/generate.h:10-11 promises the SQL that closes the gap.
  `MigrateSafety.GeneratorSound` states exactly when the script runs.
- A limit or offset above the range of a C int is truncated when bound in SQLite,
  while the in-memory evaluator and Postgres use all of it
  (`Pushdown.LimitTruncated`, and exactly when in `Pushdown.PageFitsExactly`).
- Removing a task's timers can miss one when the task has several, since an entry
  swapped into a hole may be sifted above the scan index
  (`TimerHeap.RepeatedTaskIsMissed`). The runtime never gives a task two timers.
- Unregistering a watcher clears its bits even when another watcher on the same
  descriptor wants them (`EventLoopPoller.OverlapLosesMirror`, and exactly when in
  `EventLoopPoller.DropKeepsMirrorExactly`).
- A WebSocket frame may claim a length with which the sum of head and length wraps in
  64 bits, and is then taken for complete (`WebSocket.LargestLengthOverruns`);
  modules/web/src/websocket/websocket.c:791 means to wait for the whole frame.
  `WebSocket.GuardExact` and `WebSocket.PiecesDoNotMatter` say exactly when it does.
- At the last value of the 64-bit clock a repeating timer is rearmed in the past
  (`TimerHeap.LastClockStaysDue`, and exactly then by `TimerHeap.NextFire`).
- The JSON table is resized when the load factor reaches 3/4, not when it exceeds
  it as modules/utils/src/json.c:376 says (`JsonObject.Object.Set`).
- The pass over the query in the request-target sanitizer can never report
  anything (`HttpTarget.QueryVerdictUnreachable`).

## Model

| member | source | states |
|---|---|---|
| `HttpMachine.FragmentationInvariance` | modules/web/src/http/parser.c:1033-1281 | Feeding any pieces in turn reaches the same state, message and error, and takes the same number of bytes, as feeding their concatenation. |
| `HttpMachine.AnyTwoCutsAgree` | modules/web/src/http/parser.c:1033-1281 | Two ways of cutting the same bytes cannot be told apart. |
| `HttpMachine.TerminalAbsorbs` | modules/web/src/http/parser.c:1043-1051 | COMPLETE and ERROR are absorbing and take no byte. |
| `HttpMachine.NothingPastTheMessage` | modules/web/src/http/parser.c:1033-1281 | Bytes after a finished message change nothing and are not consumed. |
| `HttpMachine.RunWithinLimits` | modules/web/src/http/parser.c:255-322 | Every reachable state keeps all limits: line, header and trailer counts and sizes, body_written + chunk_remaining within the body limit, and the phase fits the framing. |
| `HttpMachine.PipelinedMessages` | modules/web/src/http/parser.c:188-216 | Feed, reset and feed on over concatenated messages yields each message in order, whatever incomplete data follows. |
| `HttpParser.Parser.Feed` | modules/web/src/http/parser.c:1033-1281 | The new state and last_consumed are those of the byte-by-byte machine run on the same data; status says which state that is. |
| `HttpParser.Parser.ConsumeLine` | modules/web/src/http/parser.c:255-322 | One call on the shared line buffer does what the machine does byte by byte up to the end of the line, the error or the end of the data. |
| `HttpParser.Parser.Reset` | modules/web/src/http/parser.c:188-216 | A reset parser has the state of a fresh one; the line buffer is kept. |
| `HttpParser.Parser.EndHeaders` | modules/web/src/http/parser.c:929-959 | After the empty line: which phase follows for this framing, mode and status code, with room reserved for a fixed body. |
| `HttpParser.Parser.TakeHeaderLine` | modules/web/src/http/parser.c:1077-1123 | A header line is added or refused within the count and size limits, and framing headers take effect. |
| `HttpParser.Parser.TakeSizeLine` | modules/web/src/http/parser.c:1147-1177 | A chunk-size line is accepted only if the whole body stays within the limit. |
| `HttpParser.Parser.TakeFixed` | modules/web/src/http/parser.c:1125-1145 | Copies what is there of a fixed body, in one step where the machine takes many. |
| `HttpParser.Parser.TakeChunk` | modules/web/src/http/parser.c:1179-1200 | Copies what is there of a chunk, in one step where the machine takes many. |
| `HttpParser.Parser.BodyReserve` | modules/web/src/http/parser.c:888-909 | The body buffer has the capacity asked for, never above the body limit, and keeps its text. |
| `HttpFraming.ChunkedBodyDecodes` | modules/web/src/http/parser.c:1147-1258 | A body in chunks of any sizes and extensions, with trailers spelled with any optional white space, is consumed entirely and yields the concatenated data and the trailers (section 7.1 of RFC 9112). |
| `HttpFraming.RunFixed` | modules/web/src/http/parser.c:1125-1145 | A Content-Length body is taken byte for byte until it is complete. |
| `HttpWhole.ChunkedMessage` | modules/web/src/http/parser.c:1033-1281 | From the first byte to the last: a valid start line, fields in any spelling and order with a Transfer-Encoding that lists only "chunked" in any case and no Content-Length, then chunks, last chunk and trailers, is consumed entirely and delivers start line, fields, the data of the chunks and the trailers. |
| `HttpWhole.LengthMessage` | modules/web/src/http/parser.c:1033-1281 | With one Content-Length and no Transfer-Encoding, exactly that many bytes after the empty line are the body. |
| `HttpWhole.BodilessMessage` | modules/web/src/http/parser.c:929-959 | With neither, or with status 1xx, 204 or 304 whatever the fields say, the message ends at the empty line and takes nothing of what follows. |
| `HttpWhole.AmbiguousRefused` | modules/web/src/http/parser.c:929-959 | With both, the parse fails as ambiguous at the empty line. |
| `HttpWhole.FieldRefused` | modules/web/src/http/parser.c:796-886 | A second Content-Length, a value that is no length within the limit, or a coding other than "chunked" fails at its line with its own error. |
| `HttpWhole.LineRefused` | modules/web/src/http/parser.c:255-322 | Within any line a bare LF, a NUL, a CR without LF or a character too many ends the parse at that byte with its own error. |
| `HttpLines.ScanRequestLine` | modules/web/src/http/parser.c:521-608 | The loops over a request line compute RequestLineOf. |
| `HttpLines.RequestLineSound` | modules/web/src/http/parser.c:521-608 | An accepted request line is the text of the request it yields. |
| `HttpLines.RequestLineComplete` | modules/web/src/http/parser.c:521-608 | Every text of a valid request is accepted as that request. |
| `HttpLines.ScanStatusLine` | modules/web/src/http/parser.c:621-672 | The loops over a status line compute StatusLineOf. |
| `HttpLines.StatusLineSound` | modules/web/src/http/parser.c:621-672 | An accepted status line is the text of the status it yields, up to the space before an empty reason. |
| `HttpLines.StatusLineComplete` | modules/web/src/http/parser.c:621-672 | Every text of a valid status is accepted as that status. |
| `HttpLines.BareStatusLine` | modules/web/src/http/parser.c:621-672 | Without a reason, a status line is accepted without the space before it too. |
| `HttpSyntax.ScanField` | modules/web/src/http/parser.c:687-790 | The loops over a field line compute FieldOf. |
| `HttpSyntax.FieldSound` | modules/web/src/http/parser.c:687-790 | An accepted field line is a token, a colon and a trimmed value without control characters, with optional white space around it. |
| `HttpSyntax.FieldComplete` | modules/web/src/http/parser.c:687-790 | Every such line is accepted as that header. |
| `HttpSyntax.CharClasses` | modules/web/src/http/parser.c:70-85 | Token characters are the marks, digits and letters of section 5.6.2 of RFC 9110; a field may hold any byte but controls, and tabs. |
| `HttpLines.ScanContentLength` | modules/web/src/http/parser.c:796-835 | The digit loop with its overflow guard computes ContentLengthOf. |
| `HttpLines.ContentLengthExact` | modules/web/src/http/parser.c:796-835 | A Content-Length value is accepted with n exactly when it is all digits, denotes n and is within the body limit. |
| `HttpLines.ScanTransferEncoding` | modules/web/src/http/parser.c:841-886 | The loop over comma-separated codings computes TransferEncodingOf. |
| `HttpLines.TransferEncodingExact` | modules/web/src/http/parser.c:841-886 | Accepted exactly when every listed coding is "chunked" and something says so. |
| `HttpLines.ScanChunkSize` | modules/web/src/http/parser.c:965-1027 | The hexadecimal loop with its overflow guard computes ChunkSizeOf. |
| `HttpLines.ChunkSizeExact` | modules/web/src/http/parser.c:965-1027 | A chunk-size line is accepted with a size exactly when it spells that size, maybe with an extension, within the chunk limit. |
| `HttpTarget.SanitizeTarget` | modules/web/src/http/parser.c:350-519 | The two passes over a request target give the verdict TargetVerdict. |
| `HttpTarget.DotSpellings` | modules/web/src/http/parser.c:414-478 | A raw segment is refused as a dot segment exactly when it decodes to "." or "..". |
| `HttpTarget.SanitizerMatchesDecoder` | modules/web/src/http/server_request.c:54-129 | For a decodable target, some raw segment is refused as a dot segment exactly when has_dot_segment holds of the decoded path. |
| `HttpTarget.DecodedSegments` | modules/web/src/http/server_request.c:54-104 | Decoding neither adds nor removes a slash: the segments are decoded one by one. |
| `HttpTarget.AcceptedTargetDecodesSafely` | modules/web/src/http/server_request.c:286-344 | An accepted target is undecodable or decodes to an absolute path with the same slashes and no dot segment. |
| `HttpTarget.DecodePath` | modules/web/src/http/server_request.c:54-104 | The decode loop writes exactly the decoded path, and fails exactly when it is undecodable or does not fit. |
| `HttpTarget.CheckDotSegments` | modules/web/src/http/server_request.c:108-129 | The scan finds a dot segment exactly when the path has one. |
| `HttpTarget.QueryPassIsRedundant` | modules/web/src/http/parser.c:479-517 | The query pass finds nothing that the first pass has let through. |
| `HttpTarget.QueryVerdictUnreachable` | modules/web/src/http/parser.c:479-517 | So no target of printable characters is ever refused with one of the query errors. |
| `HttpTargetExact.TargetAcceptedExactly` | modules/web/src/http/parser.c:350-519 | A target of printable characters is accepted exactly when it is "*" or starts with a slash, has no fragment, backslash or unsafe escape, and no path segment that stands for "." or "..". |
| `HttpTargetExact.DecodedExactly` | modules/web/src/http/server_request.c:54-104 | A well-formed path decodes to its characters when all are fit for a path and no slash is escaped, and is refused otherwise. |
| `HttpTargetExact.MalformedRefused` | modules/web/src/http/server_request.c:54-104 | A path with a percent sign that no two hexadecimal digits follow is refused. |
| `HttpMessage.Message.SetHeader` | modules/web/src/http/message.c:104-136 | The first header of that name gets the value in place, or a new one is appended; names stay unique. |
| `HttpMessage.Message.NeededSize` | modules/web/src/http/message.c:182-214 | The computed size is the length of the printed message. |
| `HttpMessage.Message.Print` | modules/web/src/http/message.c:215-254 | Writes exactly that many bytes: the message text and a terminator. |
| `HttpMessage.Message.Serialize` | modules/web/src/http/message.c:182-254 | Sets Content-Length, then the buffer is exactly the message text. |
| `HttpMessage.PrintParseRoundTrip` | modules/web/src/http/message.c:182-254 | Printing a message with a valid start line and valid headers and feeding it to the parser completes, consumes every byte and returns the same start line, headers in order with Content-Length, and body. |
| `TimerHeap.PushHeap` | modules/runtime/src/timer_heap.c:113-137 | Pushing keeps the heap order and adds exactly the new entry. |
| `TimerHeap.RemoveAtHeap` | modules/runtime/src/timer_heap.c:149-164 | Removing an entry keeps the heap order. |
| `TimerHeap.RemoveAtContents` | modules/runtime/src/timer_heap.c:149-164 | Removing takes out exactly that entry. |
| `TimerHeap.RescheduleTopHeap` | modules/runtime/src/timer_heap.c:176-186 | Rescheduling the root keeps the heap order and changes only its deadline. |
| `TimerHeap.RootIsEarliest` | modules/runtime/src/timer_heap.c:139-147 | The root is no later than any entry. |
| `TimerHeap.RemoveTaskComplete` | modules/runtime/src/timer_heap.c:188-212 | If a task occurs at most once, the removal scan removes every entry of it and nothing else. |
| `TimerHeap.RepeatedTaskIsMissed` | modules/runtime/src/timer_heap.c:188-212 | With a repeated task the scan can miss an entry: in every heap of six of this shape one stays. |
| `TimerHeap.FireAllCorrect` | modules/runtime/src/runtime.c:242-278 | At every clock value but the last, the update loop fires exactly the due timers in deadline order; afterwards every remaining timer is strictly in the future, even if now + interval wraps, and the entries are the old ones with the fired repeating ones rearmed. |
| `TimerHeap.NextFire` | modules/runtime/src/runtime.c:262-269 | The next deadline is in the future exactly when now is not the last clock value, and is now + interval unless that wraps or the interval is zero. |
| `TimerHeap.LastClockStaysDue` | modules/runtime/src/runtime.c:262-269 | At the last clock value now + 1 wraps as well, so a rearmed timer is due again at once, whatever its interval. |
| `TimerHeap.TimeoutRespectsDeadlines` | modules/runtime/src/runtime.c:280-299 | The poll timeout never sleeps past a deadline, is zero exactly when something is due, and otherwise ends at a deadline or the idle limit. |
| `TimerHeap.Heap.Add` | modules/runtime/src/timer_heap.c:113-137 | The array with its doubling capacity holds Push of what it held. |
| `TimerHeap.Heap.SiftUpAt` | modules/runtime/src/timer_heap.c:55-69 | The swap loop in the array does SiftUp. |
| `TimerHeap.Heap.SiftDownAt` | modules/runtime/src/timer_heap.c:71-95 | The swap loop in the array does SiftDown. |
| `TimerHeap.Heap.Remove` | modules/runtime/src/timer_heap.c:149-164 | The array holds RemoveAt of what it held. |
| `TimerHeap.Heap.Reschedule` | modules/runtime/src/timer_heap.c:176-186 | The array holds RescheduleTop of what it held. |
| `TimerHeap.Heap.RemoveTimersOf` | modules/runtime/src/timer_heap.c:188-212 | The array holds RemoveTask of what it held; removed counts the entries. |
| `TimerHeap.Heap.FireDue` | modules/runtime/src/runtime.c:242-278 | The loop terminates (the number of due timers shrinks) and leaves and fires what FireAll says. |
| `EventLoopRuns.WholeRunOwnership` | modules/runtime/src/runtime.c:76-132 | Over every run of schedule, watch, timer, cancel, unwatch and tick, with any callbacks: the ownership invariant holds throughout, and after destroy every task ever created was freed exactly once and cleaned up exactly once, and none ran after it was cancelled. |
| `EventLoopRuns.ShutdownFreesAll` | modules/runtime/src/runtime.c:76-132 | Destroying the loop frees and cleans up every task exactly once. |
| `EventLoopRuns.LogSteps` | modules/runtime/src/runtime.c:301-332 | In every reachable state a task is freed once exactly when it is gone, cleaned up once exactly when it is gone or finalized, and no run follows a cancel. |
| `EventLoopSafety.CancelSafe` | modules/runtime/src/runtime.c:175-194 | Cancelling keeps the invariant: the task leaves its watcher or timer and is queued or current to be freed. |
| `EventLoopSafety.WatchSafe` | modules/runtime/src/runtime.c:420-487 | Watching, replacing or failing to register keeps the invariant. |
| `EventLoopSafety.UnwatchSafe` | modules/runtime/src/runtime.c:511-538 | Unwatching a descriptor keeps the invariant. |
| `EventLoopSafety.UpdateTimersSafe` | modules/runtime/src/runtime.c:242-278 | Firing timers keeps the invariant: one-shot tasks leave the heap, repeating ones stay. |
| `EventLoopSafety.DispatchAllSafe` | modules/runtime/src/runtime.c:196-240 | Dispatching readiness keeps the invariant: one-shot watchers leave the table as their task is queued. |
| `EventLoopSafety.ScheduleSafe` | modules/runtime/src/scheduler.c:53-89 | Scheduling keeps SCHEDULED equal to being in the queue, once. |
| `EventLoopRuns.TakeSafe` | modules/runtime/src/scheduler.c:91-112 | Taking the next task clears SCHEDULED and makes it current. |
| `EventLoopRuns.FinishSafe` | modules/runtime/src/task.c:37-61 | After execution a task is freed exactly when no watcher or timer still has it. |
| `EventLoopServes.TickServes` | modules/runtime/src/runtime.c:196-332 | What a tick does when callbacks make no calls: queued tasks first, then those whose watcher waits for something ready, then those with a due timer by deadline; each has one turn in this order, runs unless cancelled, is freed unless persistent; the queue is empty afterwards, watchers that fired stay exactly when persistent, and no timer left is due. |
| `EventLoopServes.TimerRunsOnTime` | modules/runtime/src/runtime.c:540-589 | A timer set at now with ms runs its task in the next tick exactly when that comes no earlier than now + ms. |
| `EventLoopServes.StoppedTick` | modules/runtime/src/runtime.c:301-332 | While the loop is stopped a tick queues what is ready and due, in the same order, and runs nothing. |
| `EventLoopServes.StopsTheQueue` | modules/runtime/src/runtime.c:317-331 | A callback that stops the loop is the last to run; the rest of the queue waits. |
| `EventLoopCalls.CancelDoes` | modules/runtime/src/runtime.c:175-194 | Cancelling removes exactly the task's own watchers and timers, cleans it up once and queues it once. |
| `EventLoopCalls.WatchAdds` | modules/runtime/src/runtime.c:420-487 | A watch the poller takes adds exactly one watcher, for a new task with the persistence asked for. |
| `EventLoopCalls.WatchRefused` | modules/runtime/src/runtime.c:420-487 | One it refuses changes no watcher, and its task is cleaned up and freed at once. |
| `EventLoopCalls.WatchReplaces` | modules/runtime/src/runtime.c:420-487 | A watch for the same events on the same descriptor takes the place of the one before, whose task is cancelled and queued. |
| `EventLoopCalls.UnwatchDoes` | modules/runtime/src/runtime.c:511-538 | Unwatching drops the descriptor's watchers and no other, and cancels and queues their tasks. |
| `EventLoopPoller.DropKeepsMirrorExactly` | modules/runtime/src/runtime.c:161-173 | Dropping a watcher keeps the poller mask equal to the union of the watched masks exactly when no other watcher on the descriptor shares a bit with it. |
| `EventLoopPoller.WholeRunMirror` | modules/runtime/src/poller.c:85-151 | After any run in which every watch, when made, shares no event bit with another watch then on its descriptor except one of exactly its mask, which it replaces, the poller mask of every descriptor is the union of its watchers' masks. |
| `EventLoopPoller.SingleBitRunMirror` | modules/runtime/src/poller.c:85-151 | So it is after every run whose watches use one event bit each, with no condition on the order of calls. |
| `EventLoopPoller.OverlapLosesMirror` | modules/runtime/src/runtime.c:161-173 | Three accepted calls from the initial state lose the mirror: watch a descriptor for both events, watch it for reading, cancel the second; the poller then listens for writing only. |
| `Runtime.Runtime.TickOnce` | modules/runtime/src/runtime.c:301-332 | The fields after a tick are those of the state machine's tick, and the invariant holds. |
| `Runtime.Runtime.CancelTask` | modules/runtime/src/runtime.c:175-194 | The watcher table is scanned with swap-removal and the heap's array with removal in place; the fields reach the state machine's cancel. |
| `Runtime.Runtime.WatchFdEx` | modules/runtime/src/runtime.c:420-487 | The table, the poller and the flags are those of the state machine's watch. |
| `Runtime.Runtime.UnwatchFdAll` | modules/runtime/src/runtime.c:511-538 | The swap-remove loop reaches the state machine's unwatch. |
| `Runtime.Runtime.UpdateTimersAt` | modules/runtime/src/runtime.c:242-278 | The loop over due timers, rearming or removing the root of the heap's array, reaches the state machine's update. |
| `Runtime.Runtime.DispatchReady` | modules/runtime/src/runtime.c:196-240 | The loop over ready descriptors and watchers reaches the state machine's dispatch. |
| `Runtime.Runtime.RunTasks` | modules/runtime/src/runtime.c:317-331 | The queue is run in order, each task with its callback's calls. |
| `Runtime.Runtime.ShutDown` | modules/runtime/src/runtime.c:76-132 | Afterwards every task has been freed and cleaned up exactly once. |
| `PollBackends.EpollFair` | modules/runtime/src/poller_backend/epoll.c:112-192 | With descriptors below n, one that is ready on every call is reported within n / max_events calls, rounded up, whatever else becomes ready. |
| `PollBackends.EpollCloser` | modules/runtime/src/poller_backend/epoll.c:165-187 | A call that passes over a ready descriptor moves the cursor at least max_events descriptors closer to it. |
| `PollBackends.EpollReports` | modules/runtime/src/poller_backend/epoll.c:112-192 | A call reports as many of the ready descriptors as it may, with what they are ready for, and none twice. |
| `PollBackends.EpollBackend.Wait` | modules/runtime/src/poller_backend/epoll.c:112-192 | The loops report and store what EpollReport and EpollCursor say. |
| `PollBackends.PollFair` | modules/runtime/src/poller_backend/poll.c:50-139 | In an unchanged table of n entries, wherever the cursor was left, one that stays ready is reported within n / max_events calls, rounded up. |
| `PollBackends.PollReports` | modules/runtime/src/poller_backend/poll.c:50-139 | A call reports ready entries only, none twice, and as many as are ready or as it may. |
| `PollBackends.PollBackend.Wait` | modules/runtime/src/poller_backend/poll.c:50-139 | The rotating scan reports and stores what PollReport and PollCursor say; nothing changes when nothing is ready. |
| `JsonRoundTrip.JsonRoundTrip` | modules/utils/src/json.c:807-859 | For every value without reals, with NUL-free text, C ints, no repeated key and at most 512 nested containers, parsing the compact or the indented text gives the same tree, keys in the same order. |
| `JsonDocs.DocumentParses` | modules/utils/src/json.c:1310-1368 | Any document of RFC 8259, in any spelling of strings and numbers and with blanks anywhere, is parsed to the value it denotes, a repeated key keeping its first place and last value, and is refused exactly when it nests more than 512 deep. |
| `JsonLayout.IndentingAddsLayoutOnly` | modules/utils/src/json.c:694-859 | Compact text is one line, and indented text without its line breaks and tabs is the compact text. |
| `JsonLayout.BreaksExactly` | modules/utils/src/json.c:694-805 | Indented, an object has line breaks, an array exactly when one of its items is a container. |
| `JsonText.EscapeDecodes` | modules/utils/src/json.c:568-616 | Decoding undoes escaping for every NUL-free text. |
| `JsonText.QuotedParses` | modules/utils/src/json.c:1069-1155 | A printed string literal parses back to its text, whatever follows. |
| `JsonText.DecodedFits` | modules/utils/src/json.c:1069-1155 | Decoding never outgrows the raw text, so the buffer of its length suffices. |
| `JsonText.Utf8RoundTrip` | modules/utils/src/json.c:1039-1067 | The code point can be read back from the encoded bytes, which are well formed (section 3 of RFC 3629). |
| `JsonStrings.LiteralParses` | modules/utils/src/json.c:1069-1155 | Every literal of section 7 of RFC 8259, characters as themselves, as short escapes or as their UTF-16 units in hexadecimal of either case, is read as the text it stands for, in UTF-8, whatever follows. |
| `JsonStrings.LiteralSound` | modules/utils/src/json.c:1069-1155 | Nothing else is read as a literal: whatever is accepted is such a sequence of characters. |
| `JsonStrings.BadUnitRefused` | modules/utils/src/json.c:1069-1155 | An escaped NUL, a low surrogate, or a high one without a low one after it is refused wherever it stands. |
| `JsonCodec.Measure` | modules/utils/src/json.c:694-805 | The sizing pass is the length of the text. |
| `JsonCodec.Serialize` | modules/utils/src/json.c:807-859 | The buffer has exactly the measured size plus a terminator and holds the text, compact or indented. |
| `JsonCodec.WriteEscaped` | modules/utils/src/json.c:568-616 | The escaping loop writes exactly the escaped text. |
| `JsonParser.ParseText` | modules/utils/src/json.c:1346-1368 | The index-based recursive parser computes Parse. |
| `JsonParser.ParseValueAt` | modules/utils/src/json.c:1310-1344 | One value at an index: result, next index and failure as the grammar function says. |
| `JsonParser.ParseArrayAt` | modules/utils/src/json.c:1185-1231 | The array loop, its nesting limit and its errors agree with the grammar. |
| `JsonParser.ParseObjectAt` | modules/utils/src/json.c:1271-1308 | The object loop agrees with the grammar; a repeated key keeps its first place and last value. |
| `JsonParser.DecodeInto` | modules/utils/src/json.c:1069-1155 | The decode loop, in a buffer as long as the raw text, computes the decoded text or fails with it. |
| `JsonParser.ScanNumberToken` | modules/utils/src/json.c:914-990 | The number scan accepts the grammar of section 6 of RFC 8259 and no more. |
| `JsonReal.RealOfNumber` | modules/utils/src/json.c:985-994 | The value read from the characters of a number is the one its integer part, fraction and exponent denote. |
| `JsonNumbers.RealAcceptedExactly` | modules/utils/src/json.c:914-1014 | A number with a fraction or an exponent, in any spelling and before text that cannot continue it, is taken whole when its value rounds to a finite float and refused otherwise. |
| `JsonNumbers.AcceptedRealSound` | modules/utils/src/json.c:914-1014 | Whatever real is accepted is the text of a number with a fraction or an exponent whose value rounds to a finite float. |
| `JsonReal.PowersOfTenFit` | modules/utils/src/json.c:985-994 | Among the powers of ten written with an exponent, 1e38 is the last that fits a float. |
| `JsonObject.Object.Set` | modules/utils/src/json.c:361-431 | On the linked table: the pairs in order become SetKey of the old pairs; the number of buckets doubles exactly when the old load factor was 3/4 or more, and all links and bucket membership stay right, also across a resize. |
| `JsonObject.Object.Get` | modules/utils/src/json.c:433-446 | Walking one bucket finds what lookup in the ordered pairs finds. |
| `JsonObject.Object.Remove` | modules/utils/src/json.c:448-511 | Unlinking from chain and order list removes exactly that pair and keeps the order of the others; it reports whether the key was there. |
| `JsonObject.Object.Merge` | modules/utils/src/json.c:513-544 | Every pair of the source is set in order, also when source and destination are one object. |
| `JsonObject.Object.Resize` | modules/utils/src/json.c:336-359 | Doubling relinks every node into its new bucket and changes neither order nor contents. |
| `JsonObject.Rehash` | modules/utils/src/json.c:336-359 | After moving all nodes, each is in the chain of its bucket and every chain is well formed; only next links changed. |
| `JsonTable.MaskIsRemainder` | modules/utils/src/json.c:324-334 | For a power of two, masking the hash is the remainder. |
| `JsonTable.OrderUnlink` | modules/utils/src/json.c:486-503 | Unlinking a node from the doubly linked list leaves a well-formed list of the others. |
| `JsonTable.ChainUnlink` | modules/utils/src/json.c:476-484 | Unlinking a node from its bucket leaves a well-formed chain of the others. |
| `JsonEqual.Equal` | modules/utils/src/json.c:1370-1422 | The recursive comparison computes Same, whatever equality of floats is given. |
| `JsonEqual.SameSymmetric` | modules/utils/src/json.c:1370-1422 | Equality is symmetric when that of floats is, though only the keys of the left object are looked up. |
| `JsonEqual.SameReflexive` | modules/utils/src/json.c:1370-1422 | A tree equals itself exactly when none of its reals is a NaN, that is, differs from itself as a float. |
| `JsonEqual.SameTransitive` | modules/utils/src/json.c:1370-1422 | Equality is transitive when that of floats is. |
| `JsonEqual.SameExactly` | modules/utils/src/json.c:1370-1422 | Two trees are equal exactly when whatever can be reached in the one by indices and keys is there in the other and agrees in kind, size and value. |
| `JsonEqual.Clone` | modules/utils/src/json.c:1424-1512 | A clone is the same tree with keys in the same order. |
| `JsonEqual.CloneAndCompare` | modules/utils/src/json.c:1424-1512 | A clone compares equal to its source exactly when the source has no NaN, either way round. |
| `Migrate.SpecDiff` | tools/migrate/src/table_spec.c:151-206 | The loops visit exactly the differences, in order. |
| `Migrate.NoDiffsIff` | tools/migrate/src/table_spec.c:151-206 | There is no difference exactly when the table exists and both shapes have the same columns with the same types and key flags, in any order. |
| `Migrate.ValidateRenames` | tools/migrate/src/generate.c:230-307 | The flag arrays say of each hint whether it is for this table and holds; refusals counts those that do not. |
| `Migrate.ScanForRefusals` | tools/migrate/src/generate.c:356-392 | Something is refused exactly when some difference is not one a generated statement may close. |
| `Migrate.GenerateSql` | tools/migrate/src/generate.c:427-530 | The verdict, and the script with it, is the one Generated gives. |
| `Migrate.OkScriptNotEmpty` | tools/migrate/src/generate.c:519-524 | When there are differences and nothing is refused the script is not empty, so "out of memory" is never reported for lack of text. |
| `MigrateVerdict.RefusedExactly` | tools/migrate/src/generate.c:230-392 | For distinct column names: refused exactly for more than 32 hints, a name that is no identifier, a hint for this table that is not sensible or renames what another does, or an existing table that needs a new key column, a dropped column or a changed one. |
| `MigrateSafety.GeneratorSound` | tools/migrate/src/generate.c:427-530 | For distinct column names: an Ok script runs without error exactly when the table exists or the schema has a column and at most one key; then it leaves no difference, and every existing column stays in place with its cells, type and key, under its own name or a hinted one, names distinct. |
| `MigrateSafety.TwoKeysAreNotRefused` | tools/migrate/src/generate.c:398-413 | The exception is real: two key columns in a missing table are answered with a script SQLite rejects. |
| `MigrateSafety.AlterSound` | tools/migrate/src/generate.c:502-517 | For an existing table the renames and additions all execute, and the result has no difference and keeps the data. |
| `MigrateSafety.NothingExactly` | tools/migrate/src/generate.c:491-492 | NOTHING is answered exactly when nothing is refused and the shapes already agree. |
| `MigrateSafety.RefusalNecessary` | tools/migrate/src/generate.c:356-392 | When names and hints are sound, a refusal means that no script of additions and hinted renames, in any order or number, closes the gap. |
| `MigratePlan.PlanBuild` | tools/migrate/src/plan.c:45-134 | None exactly for unsorted input; otherwise the entries are the merge and the counters count them. |
| `MigratePlan.MergeExact` | tools/migrate/src/plan.c:96-131 | The merge has exactly the entry that looking each version up on disk and in the ledger gives. |
| `MigratePlan.StatesMean` | tools/migrate/src/plan.c:45-131 | Each entry is done, modified, missing, pending, late or out of order exactly by what is on disk, in the ledger, their checksums and what was applied later. |
| `MigratePlan.MergeAscending` | tools/migrate/src/plan.c:96-131 | The entries are in strictly ascending version order. |
| `MigratePlan.NoProblemIff` | tools/migrate/src/plan.c:96-131 | No problem exactly when everything applied is on disk unchanged and nothing on disk came too late, unless allowed. |
| `MigratePlan.PendingIsTodo` | tools/migrate/src/plan.c:96-131 | A clean plan has pending exactly the files not in the ledger, in order. |
| `MigratePlan.FirstProblem` | tools/migrate/src/plan.c:145-157 | The first problem in version order, None exactly when there is none. |
| `MigrateRunner.ApplyOne` | tools/migrate/src/runner.c:68-101 | Whichever call fails, the database is unchanged; otherwise row and SQL take effect together. |
| `MigrateRunner.Up` | tools/migrate/src/runner.c:103-161 | Database, count and outcome after the driver calls are those of UpResult. |
| `MigrateHistory.HistoryExact` | tools/migrate/src/runner.c:103-161 | Over any history of runs with any calls failing, a version is in the ledger exactly when its SQL took effect, and at most once. |
| `MigrateHistory.HistoryInOrder` | tools/migrate/src/runner.c:103-161 | Without late migrations the database is the ledger's SQL in ascending version order. |
| `MigrateHistory.FailedRunResumes` | tools/migrate/src/runner.c:103-161 | After a run that failed anywhere, running again ends as if nothing had failed, applying exactly what was left. |
| `MigrateHistory.SecondRunIdle` | tools/migrate/src/runner.c:103-161 | After a success, running again applies nothing and succeeds. |
| `MigrateHistory.RefusedChangesNothing` | tools/migrate/src/runner.c:121-131 | A run stopped before its first migration applies nothing and leaves ledger rows and effects; it leaves the database as it was exactly when the ledger existed or could not be made. |
| `MigrateHistory.ProblemChangesNothing` | tools/migrate/src/runner.h:30 | A run refused because the plan has a problem changes nothing at all: a problem needs a ledger that is already there. |
| `MigrateHistory.InputErrorLeavesLedger` | tools/migrate/src/runner.c:114-131 | A run stopped by an error of its input may leave a new, empty ledger behind: here the files are not sorted. |
| `MigrateHistory.InterleavedExact` | tools/migrate/src/runner.c:68-101 | However any number of runners interleave and fail, the ledger stays exact and no version is applied twice. |
| `Checksum.MigrateChecksum` | tools/migrate/src/migration.c:113-148 | Feeding the pieces between dropped CRs gives the hexadecimal SHA-256 of the text with each CRLF replaced by LF. |
| `Checksum.LineEndsDoNotMatter` | tools/migrate/src/migration.c:113-148 | A checkout that turns LF into CRLF does not change the checksum of a text in which no LF had a CR before it. |
| `Checksum.LineEndsExactly` | tools/migrate/src/migration.c:113-148 | What is hashed after such a checkout is what was hashed before exactly when no LF had a CR before it. |
| `Checksum.HexInjective` | tools/migrate/src/migration.c:140-147 | Two checksums agree only when the digests do. |
| `MigrateNames.ParseFilename` | tools/migrate/src/migration.c:34-107 | A path is accepted exactly when its last component is digits, an underscore, a valid name and ".sql", and then with that version and name. |
| `MigrateNames.NamesAre` | tools/migrate/src/migration.c:34-107 | A name is 1 to 127 letters, digits, underscores and hyphens. |
| `MigrateNames.LastComponent` | tools/migrate/src/migration.c:34-56 | The last component of a path is what follows its last slash or backslash. |
| `MigrateNames.FormatFilename` | tools/migrate/src/migration.c:482-540 | A file name is produced exactly when the name is valid and it fits, and it is one the loader reads back as that version and name. |
| `MigrateNames.VersionWidth` | tools/migrate/src/migration.c:482-540 | A version is written with as many digits as the highest one has, and at least four. |
| `Like.LikeMatch` | modules/persist/src/model/query.c:105-135 | The recursive matcher with its shortcuts decides SQL's meaning of a pattern of literals and "%". |
| `Like.LikePatternToGlob` | modules/persist/src/model/model_sqlite.c:232-252 | The translation loop never outgrows three times the pattern and writes ToGlob. |
| `Like.GlobIsLike` | modules/persist/src/model/model_sqlite.c:232-252 | SQLite's GLOB, with its classes and ranges, on the translated pattern matches the same texts, for all texts and patterns. |
| `Like.EscapeLikePattern` | modules/persist/src/model/model_postgres.c:993-1008 | The escaping loop never outgrows twice the pattern and writes EscapeLike. |
| `Like.EscapedIsLike` | modules/persist/src/model/model_postgres.c:993-1008 | Postgres LIKE on the escaped pattern is never an error and matches the same texts, for all texts and patterns. |
| `Query.FieldCompare` | modules/persist/src/model/query.c:77-98 | strncmp or memcmp over the field's size orders stored values as SQL does: byte order, a prefix first. |
| `Query.CondMatches` | modules/persist/src/model/query.c:137-165 | A condition holds of a row as the reference says; LIKE on a field that is not text never does. |
| `Query.SortCmp` | modules/persist/src/model/query.c:191-212 | The comparator orders rows by the first key that tells them apart. |
| `Query.SortUnique` | modules/persist/src/model/query.c:191-212 | With keys that tell rows apart there is only one sorted order, whichever sort is used. |
| `Query.QueryApply` | modules/persist/src/model/query.c:214-294 | Filter, sort and page as the reference says, for every sort that returns the rows in order; how it orders ties is left open. |
| `Sql.IntCondition` | modules/persist/src/model/query.c:137-165 | A condition on an integer field holds exactly when the two integers compare as the operator says. |
| `Sql.BytesCondition` | modules/persist/src/model/query.c:77-165 | On text and blobs the operators compare the first byte that differs, a proper prefix coming first; LIKE matches text only. |
| `Sql.WantedMeans` | modules/persist/src/model/query.c:167-189 | A row matches a query exactly when every condition holds of it. |
| `Sql.RowOrdMeans` | modules/persist/src/model/query.c:191-212 | One row comes before another exactly when the first key in which they differ puts it ahead, ascending or descending. |
| `Sql.AnswerMeans` | modules/persist/src/model/query.c:214-294 | The result, for any sort, is a page of the matching rows, each as often as it was given, in the order the keys ask for. |
| `Sql.IntKeyOrders` | modules/persist/src/model/query.c:191-294 | By an integer first key, smaller integers come first when it ascends and larger ones when it descends. |
| `Pushdown.SqliteRender` | modules/persist/src/model/model_sqlite.c:1035-1084 | Once SQLite has numbered its question marks, the text is the statement Rendered. |
| `Pushdown.SqliteBind` | modules/persist/src/model/model_sqlite.c:1106-1168 | The second loop binds, in order, exactly the values of the placeholders the first wrote. |
| `Pushdown.PgRender` | modules/persist/src/model/model_postgres.c:1037-1110 | The one loop writes the same statement with numbered parameters and sets their values; None exactly for an unknown field. |
| `Pushdown.TermAligned` | modules/persist/src/model/model_sqlite.c:1106-1160 | Every placeholder meets the value bound for its own condition. |
| `Pushdown.WhereMeans` | modules/persist/src/model/model_postgres.c:1037-1075 | WHERE with its bound values keeps exactly the rows that match the query. |
| `Pushdown.PushdownExact` | modules/persist/src/model/model_sqlite.c:1035-1168 | When the sort keys include the primary key, the rows any conforming database returns for the rendered statement, with operators, ORDER BY and LIMIT as SQL defines them, are those of bb_query_apply with any sort, in SQLite and in Postgres. |
| `Pushdown.PushdownExactly` | modules/persist/src/model/model_sqlite.c:1035-1168 | For one table and query, the answer of bb_query_apply is an answer of the backend exactly when the bound limit and offset cut the same window out of the matching rows. |
| `Pushdown.PageFitsExactly` | modules/persist/src/model/model_sqlite.c:1164-1168 | The backend answers as bb_query_apply on every table and every query with this limit and offset exactly when the limit is zero or limit and offset fit a C int. |
| `Pushdown.LimitTruncated` | modules/persist/src/model/model_sqlite.c:1163-1168 | A limit of 2^32 on a table of one row: bb_query_apply returns the row, SQLite, bound to zero, only the empty answer. |
| `PgPool.PoolSafe` | modules/persist/src/model/model_postgres.c:239-314 | Under any interleaving: one holder per slot in use, no connection shared, at most eight made, no caller blocked beside a free slot without a wakeup on its way, tables created one at a time and none twice. |
| `PgPool.OneHolderKept` | modules/persist/src/model/model_postgres.c:255-314 | Every step keeps: a slot is in use exactly when one caller holds it. |
| `PgPool.ConnsKept` | modules/persist/src/model/model_postgres.c:286-297 | Every step keeps: a connection belongs to one slot, and as many were made as slots are filled. |
| `PgPool.WakeupKept` | modules/persist/src/model/model_postgres.c:239-248 | Every step keeps: while anyone is blocked, free slots do not outnumber the callers on their way. |
| `PgPool.TablesKept` | modules/persist/src/model/model_postgres.c:389-403 | Every step keeps: what is remembered was created once and is created no more. |
| `PgPool.AtMostEight` | modules/persist/src/model/model_postgres.c:38-56 | At most eight connections are ever made. |
| `PgPool.ScanChooses` | modules/persist/src/model/model_postgres.c:255-314 | A caller that looks takes an idle connection if there is one, connects only if there is none, and waits exactly when every slot is in use. |
| `PgPool.TableBeforeUse` | modules/persist/src/model/model_postgres.c:389-403 | In every run a caller goes on only with its table created once, by itself just now if it was not remembered. |
| `PgPool.LocksAreReleased` | modules/persist/src/model/model_postgres.c:239-314 | In every run the holder of the pool lock can give it up in one step, and of the tables lock in two. |
| `Sha256.Context.Update` | modules/utils/src/hash.c:274-313 | Any split of the input gives the state of the whole: the context holds the blocks folded so far and the rest. |
| `Sha256.Context.Absorb` | modules/utils/src/hash.c:282-312 | Top-up, whole blocks and leftover together process the pending bytes followed by the new ones. |
| `Sha256.Context.Final` | modules/utils/src/hash.c:315-350 | The digest is that of the message padded as in section 5.1.1 of FIPS 180-4. |
| `Sha256.ProcessAppend` | modules/utils/src/hash.c:274-313 | Processing can stop anywhere and go on from the unfinished block. |
| `Sha256.PaddedWhole` | modules/utils/src/hash.c:315-341 | A padded message is whole blocks. |
| `Sha256.PaddingInjective` | modules/utils/src/hash.c:315-341 | Different messages below 2^61 bytes have different padded forms. |
| `Sha256.HashOf` | modules/utils/src/hash.c:352-359 | One-shot hashing is the hash of the data. |
| `Sha256.StartIsRoots` | modules/utils/src/hash.c:258-272 | The initial state is the first 32 bits of the fractional parts of the square roots of the first eight primes. |
| `Sha256.PaddedShape` | modules/utils/src/hash.c:315-341 | The padding is the byte 0x80, zeros, and the length in bits in the last eight bytes. |
| `Sha256.HashChains` | modules/utils/src/hash.c:274-359 | However the padded message is written as blocks, the hash is the chaining value over them. |
| `Sha256.DigestReads` | modules/utils/src/hash.c:343-349 | Each four bytes of the digest read as the word of the state. |
| `Hmac.HmacContext.constructor` | modules/utils/src/hash.c:361-395 | Both contexts are primed with the padded key, hashed first when longer than a block. |
| `Hmac.HmacContext.Copy` | modules/utils/src/hash.c:402-416 | A struct copy of a primed context stands for the same key and text. |
| `Hmac.HmacContext.Final` | modules/utils/src/hash.c:402-416 | Resuming a copy of the primed outer context gives the code of section 2 of RFC 2104. |
| `Hmac.KeyBlockInjective` | modules/utils/src/hash.c:361-380 | Keys up to a block long collide exactly when they differ in trailing zeros. |
| `Hmac.HmacIsStandard` | modules/utils/src/hash.c:361-416 | For the key block said byte by byte and pads that differ from it in exactly the bits of 0x36 and 0x5c, the code is H(opad, H(ipad, text)) of section 2 of RFC 2104. |
| `Pbkdf2.Derive` | modules/security/src/pbkdf2.c:20-87 | The nested loops over copies of one primed state fill the output with section 5.2 of RFC 8018, for every length and with zero iterations counting as one. |
| `Pbkdf2.DeriveBlock` | modules/security/src/pbkdf2.c:51-70 | One block is the exclusive or of its iterates. |
| `Pbkdf2.DerivedPrefix` | modules/security/src/pbkdf2.c:43-82 | A shorter key is the beginning of a longer one. |
| `Pbkdf2.CounterOctets` | modules/security/src/pbkdf2.c:45-48 | The four octets of the 32-bit counter are those of the block number. |
| `Pbkdf2.DerivedBits` | modules/security/src/pbkdf2.c:20-87 | Each bit of the derived key is set exactly when an odd number of its block's iterates have it set, over all the iterations asked for (section 5.2 of RFC 8018). |
| `WebSocket.StreamRoundTrip` | modules/web/src/websocket/websocket.c:668-843 | Frames written with any masks and lengths below 2^63, the last perhaps incomplete, cut anywhere and read as they arrive: the same opcodes and payloads in order, and exactly the unfinished frame's bytes stay. |
| `WebSocket.PiecesDoNotMatter` | modules/web/src/websocket/websocket.c:668-843 | Reading after every piece is reading everything at once, for any bytes; the reader stays within its data exactly when, for every frame reached, head plus claimed length stay below 2^64. |
| `WebSocket.ReadsExactlyWhenFits` | modules/web/src/websocket/websocket.c:668-843 | A whole buffer can be read exactly when no frame reached in it claims a length that wraps. |
| `WebSocket.GuardExact` | modules/web/src/websocket/websocket.c:791-802 | The 64-bit comparison agrees with that of unbounded integers exactly when head plus claimed length stay below 2^64. |
| `WebSocket.OverrunsPastTheEnd` | modules/web/src/websocket/websocket.c:791-813 | Whenever the wrapped sum lets a frame through, its claimed end lies behind the bytes there are. |
| `WebSocket.LargestLengthOverruns` | modules/web/src/websocket/websocket.c:711-813 | Ten bytes that claim the largest length: head plus length wraps, and a frame that is not there is taken for complete. |
| `WebSocket.ReadFrames` | modules/web/src/websocket/websocket.c:668-843 | Unless some frame's length wraps, which is reported exactly then, every complete frame is taken off the connection's buffer and the rest moved to its front; nothing changes when none is complete. |
| `WebSocket.ReadOne` | modules/web/src/websocket/websocket.c:711-828 | One frame off the front with unmasking, or incomplete, or a length that wraps past the guard. |
| `WebSocket.QueueFrame` | modules/web/src/websocket/websocket.c:845-948 | The bytes written by position are the encoding, and they are queued. |
| `WebSocket.FrameOfEncoded` | modules/web/src/websocket/websocket.c:845-948 | An encoded frame is read back, whatever follows. |
| `WebSocket.PartIsIncomplete` | modules/web/src/websocket/websocket.c:711-802 | No proper part of a frame is taken for a frame. |
| `WebSocket.ShortestLength` | modules/web/src/websocket/websocket.c:860-872 | No head that says this length is shorter than the one written (section 5.2 of RFC 6455). |
| `WebSocket.MaskedTwice` | modules/web/src/websocket/websocket.c:811-817 | Unmasking undoes masking (section 5.3 of RFC 6455). |
| `Octets.XorByteExactly` | modules/web/src/websocket/websocket.c:815-821 | The exclusive or of two bytes is the one byte that differs from the first in exactly the bits of the second. |
| `WebSocketWire.WireRead` | modules/web/src/websocket/websocket.c:711-828 | Every frame laid out as in section 5.2 of RFC 6455, in any of the three length forms, is read as what it says; each payload byte differs from the wire in the bits of its key byte. |
| `WebSocketWire.WireWritten` | modules/web/src/websocket/websocket.c:845-948 | What is written is such a frame: final, nothing reserved, in the shortest length form. |
| `WebSocketWire.HelloExample` | modules/web/src/websocket/websocket.c:711-948 | The masked "Hello" of section 5.7 of RFC 6455 is read and written byte for byte. |
| `Connection.TransmitConserves` | modules/web/src/connection/connection.c:527-594 | Whatever the transport answers, the bytes it took followed by those still queued are the bytes that were queued. |
| `Connection.TransmitDrains` | modules/web/src/connection/connection.c:543-591 | As many successful answers as bytes are left empty the queue. |
| `Connection.TransmitEnds` | modules/web/src/connection/connection.c:543-591 | A call of the write loop ends when the queue runs dry or with the answer that stops it, and its outcome says which. |
| `Connection.Connection.BufferAdd` | modules/web/src/connection/connection.c:96-122 | The bytes join the end of the queue; everything ever queued is what was sent followed by what is unsent. |
| `Connection.Connection.Write` | modules/web/src/connection/connection.c:527-594 | Queue, sent bytes, outcome and closed flag are those of Transmit, and nothing changes once closed. |
| `Connection.Connection.EnsureSpace` | modules/web/src/connection/connection.c:453-487 | The buffer doubles while it is full, up to 4 MiB, keeps its bytes, and is refused only when full at that size. |
| `Connection.Connection.Read` | modules/web/src/connection/connection.c:449-525 | A closed connection is refused and nothing changes; otherwise the count, the outcome and the closed flag are those of Receive on what the transport answers, and the bytes are appended in order with a terminator. |
| `Connection.RefusedOnlyWhenFull` | modules/web/src/connection/connection.c:449-525 | A payload is refused as too large only when the buffer holds all it ever can. |
| `Connection.ReceiveEnds` | modules/web/src/connection/connection.c:449-525 | A call of the read loop ends for want of room or with the answer that stops it; only a full buffer and the end of the connection close it. |

## Left out

- Allocation failure everywhere: every allocation succeeds.
- Sockets, TLS, libpq and SQLite themselves, files, clocks and random bytes: their
  answers are parameters (transport answers, ready sets, times, faults, masks).
- NULL and invalid arguments: a C caller may pass them and gets an error at once.
- HTTP: the partly filled message of a failed parse is not visible; responses
  delimited by the end of the connection complete with an empty body, as in the
  code; the query string of a request is sanitized but its decoding into
  parameters (modules/web/src/http/server_request.c:169-284) is not modelled;
  chunk extensions are skipped as the code skips them.
- HttpParser.Parser.BodyReserve: the buffers are strings with a tracked capacity, so
  how realloc moves them is not modelled.
- HttpMessage.PrintParseRoundTrip: not stated for the bodiless 1xx, 204 and 304
  codes, whose body the parser does not read.
- Event loop: callbacks that tick or destroy the loop they run in, and cleanup
  functions that call it. A task is a key of the map of live tasks, so a dangling use is a
  missing key. The linked queue of the scheduler is a sequence.
- EventLoopPoller.WholeRunMirror: for a backend that registers what it is asked to, or
  restores what it had; watches that overlap when made may break the mirror, as
  OverlapLosesMirror shows.
- TimerHeap.FireAllCorrect: not for the last 64-bit clock value, where a timer rearmed
  in the past is fired again and again (LastClockStaysDue).
- PollBackends.EpollBackend.Wait: takes the ready set after interest was applied; the
  mapping of kernel event bits is not modelled.
- Kqueue, Windows polling, and readiness of the poll backend's error bits.
- JSON: reals keep their text; strtof is taken to round to nearest, so that reals
  beyond the floats are refused as in the code, but the float itself is not computed:
  how two texts compare as floats is a parameter of the comparison. Text with
  an embedded NUL and text that was never set are not values here. Values in the
  object table are trees, not tables again.
- JsonRoundTrip.JsonRoundTrip: not stated for reals, whose printing rounds.
- Generator: table and column names are compared byte for byte, while SQLite folds
  case; a plain identifier may still be an SQL keyword; statements are trees, not
  text; the wording of refusals and the rename it suggests are not modelled; reading
  a manifest (tools/migrate/src/table_spec.c:44-138) is not modelled.
- Migrate.GenerateSql: a specification with more than 64 columns, names over 127
  characters and types over 15 do not fit the C structures and are not excluded.
- Migration runner: SQL that commits or rolls back on its own; a commit that fails but
  took effect; directory listing and the loader's sort.
- MigrateNames.FormatFilename: the next version after the highest 64-bit one overflows
  in C; versions are within 63 bits here.
- Queries: NULL columns, SQLite's type affinity, UUID normalisation in Postgres; texts
  are bytes, so "any one character" is any one byte. Rows that fill a text field
  without a terminator are excluded, as the code that reads rows does.
- Pushdown.PushdownExact: needs the primary key among the sort keys; without it ties
  may come in any order in any of the three evaluators.
- PgPool.PoolSafe: liveness (a blocked caller is eventually served) needs fairness of
  the scheduler and is not stated; closing the pool is not modelled, so a connection
  stays with its slot.
- SQLite's connection pool, whose protocol is a subset of the Postgres one.
- SHA-1 and the rounds of SHA-256: the compression function is a parameter.
- Sha256.PaddingInjective: for messages whose bit length fits the 64-bit field, which
  wraps in the code as here.
- WebSocket.StreamRoundTrip: for lengths below 2^63; section 5.2 of RFC 6455 forbids
  longer ones.
- WebSocket.ReadFrames: once a frame's length has wrapped past the guard, what becomes
  of the connection is not said; whether the allocation fails or the copy leaves the
  buffer depends on the platform.
- WebSocket messages in several frames (the code does not reassemble them), control
  frame rules, heartbeat and the opening handshake.
- Connection.Connection.Read: the TLS handshake before the first read, and a transport
  that answers with zero bytes for ever.
- Asynchronous clients and servers, TLS direction flips, logging, metrics, sessions,
  router, middleware, key-value stores, templates, command lines: plumbing, or only
  easy members.
