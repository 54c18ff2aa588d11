# vector-engine request path, modelled in Dafny

This project models the request path of `vector-engine`, a small server that
speaks RESP 2, the Redis serialisation protocol. The path is:

- **Read buffer.** A connection's `ReadBuffer` lends the event loop room for
  each read. It grows by doubling up to a maximum and shrinks back to its
  minimum after a burst.
- **Command parser.** `RespCommandParser` reads every complete
  "array of bulk strings" request in the buffer and reports the bytes they
  span. A truncated request is left for the next read. Bad framing throws.
- **Dispatch.** `RespTaskCreator` turns each command into a task by its
  lower-cased name. `"ping"` is the only name with a task of its own.
- **Workers.** A `Worker` drains its queue of batches, runs the tasks and
  sends one reply per batch. `RespReplyBuilder` renders the replies.
- **Worker pool.** A `WorkerPool` picks a worker by `id % n` and stops all
  its workers.
- **`Connection::on_read`.** This glues the pieces together: commit the
  read, parse, drop the parsed bytes, dispatch the commands.

Each module is one source file:

| file | module | models |
|---|---|---|
| `decimal.dfy` | `Decimal` | `std::to_string`, and the digit run `std::from_chars` reads |
| `resp_reply.dfy` | `RespReply` | the reply encodings and `RespReplyBuilder` (a class over its `_buffer`) |
| `resp_parser.dfy` | `RespParser` | `RespCommandParser`: functions for each step, and methods with the source's loops |
| `resp_framing.dfy` | `RespFraming` | the request encoding, with round-trip, truncation, resumability and fault lemmas |
| `str_utils.dfy` | `StrUtils` | `to_lower`, `trim*`, `starts_with`, `ends_with` |
| `tasks.dfy` | `Tasks` | `PingTask`, `RespTaskCreator`, `RespRequestParser`, `RespResponseBuilder` |
| `read_buffer.dfy` | `ReadBuffers` | `ReadBuffer`, a class over an `array<char>` |
| `worker.dfy` | `Workers` | `Worker` and `WorkerPool` as sequential classes |
| `connection.dfy` | `Connections` | `Connection` and the reactor calls it makes |

How the parser is modelled:

- The C++ parser advances a `string_view` with `remove_prefix`. Here every
  parsing step returns the suffix that is left.
- A step ends in one of three ways: `Incomplete` (the source's `nullopt`),
  `Fail(error)` (the source's throw) or `Done(value, rest)`.
- `ParseStream` and `ParseAll` specify the loop of `parse`. The method
  `Parse` runs the loop and is proved equal to `ParseAll`.

Byte strings are `seq<char>`. Sizes are unbounded naturals.

Five places where the source as written differs from the code modelled:

- `read_buffer.cpp:25` has a stray `{` after the constructor's `assert`.
  The model takes the assertion `0 < min <= max` as the constructor's
  precondition.
- `worker.h` declares an older `Task`, `_run_task` and `_run_cmd`. The
  shapes modelled are the ones `worker.cpp` uses: `BatchTask`,
  `_run_batch_task` and `Reply`.
- `BatchTask` is not defined in the visible headers. Its fields are taken
  from their uses in `worker.cpp`: `reactor`, `connection_id`, `tasks` and
  `response_builder`.
- `resp.cpp:22` includes `string_utils.h` and calls `string_utils::to_lower`
  at line 193. The helper that exists is `sw::vengine::str::to_lower` in
  `str_utils.h`/`str_utils.cpp`. The model takes them to be the same
  function, and the case-insensitive dispatch of `create` rests on that.
- `connection.h:33-36` defines the constructor inline, and
  `connection.cpp:83-89` defines it a second time. `connection.h` does not
  declare `on_alloc`, `on_read` or `on_close`, which `connection.cpp` defines.
  The model follows `connection.cpp`.

## Model

| member | source | states |
|---|---|---|
| Decimal.DigitRun | src/sw/vector-engine/resp.cpp:93-98 | the digits `from_chars` reads: a run of digits that stops at the first non-digit or at the end |
| Decimal.NatToString | src/sw/vector-engine/resp.cpp:141 | `std::to_string` of a size: non-empty, all digits, no leading zero unless the number is 0, and its decimal value is the number |
| Decimal.NatToStringCanonical | src/sw/vector-engine/resp.cpp:141 | `to_string` never writes a leading zero: the text starts with `0` exactly when it is `"0"`, exactly when the number is 0 |
| Decimal.IntToString | src/sw/vector-engine/resp.h:77-80 | `std::to_string` of a `long long`: non-empty, a leading `-` exactly for negative numbers, then a non-empty run of digits with no leading zero (unless it is `0`) whose value is the magnitude |
| Decimal.DigitRunOfDigitsThen | src/sw/vector-engine/resp.cpp:93-98 | `from_chars` stops exactly at the end of a digit string when the next byte is not a digit |
| Decimal.DecimalRoundTrip | src/sw/vector-engine/resp.cpp:93-98 | reading back what `to_string` wrote gives the same number and stops right after it |
| RespReply.FramedParts | src/sw/vector-engine/resp.cpp:155-165 | a framed line is the type byte, the text unchanged, then CRLF, and 3 bytes longer than the text |
| RespReply.SimpleString | src/sw/vector-engine/resp.h:67-70 | the `+` encoding: the marker, the string unchanged, then CRLF |
| RespReply.ErrorReply | src/sw/vector-engine/resp.h:72-75 | the `-` encoding: the marker, the message unchanged, then CRLF |
| RespReply.Integer | src/sw/vector-engine/resp.h:77-80 | the `:` encoding: the marker, the number's `to_string` text, then CRLF |
| RespReply.ArrayHeader | src/sw/vector-engine/resp.h:90-93 | the `*` header: the marker, the element count's `to_string` text, then CRLF |
| RespReply.BulkString | src/sw/vector-engine/resp.cpp:139-153 | the `$` encoding written by `append_bulk_string`; its layout is stated by BulkStringShape |
| RespReply.IntegerShape | src/sw/vector-engine/resp.h:77-80 | an integer reply is `:`, then `-` exactly when the number is negative, then digits with no leading zero whose value is the magnitude, then CRLF |
| RespReply.BulkStringShape | src/sw/vector-engine/resp.cpp:139-153 | a bulk string is a header whose number is the payload's length, then the payload at a fixed offset, then CRLF |
| RespReply.ReplyBuilder.constructor | src/sw/vector-engine/resp.h:102 | a new builder holds nothing |
| RespReply.ReplyBuilder.Data | src/sw/vector-engine/resp.h:95-97 | `data()`: everything appended so far, in order (the appenders' ensures are stated over it) |
| RespReply.ReplyBuilder.AppendOk | src/sw/vector-engine/resp.h:62-65 | appends exactly `+OK\r\n` and changes nothing before it |
| RespReply.ReplyBuilder.AppendSimpleString | src/sw/vector-engine/resp.h:67-70 | appends `+`, the string, then CRLF |
| RespReply.ReplyBuilder.AppendError | src/sw/vector-engine/resp.h:72-75 | appends `-`, the message, then CRLF |
| RespReply.ReplyBuilder.AppendInteger | src/sw/vector-engine/resp.h:77-80 | for a `long long`, appends `:`, its decimal form, then CRLF (shape in IntegerShape) |
| RespReply.ReplyBuilder.AppendBulkString | src/sw/vector-engine/resp.cpp:139-153 | appends `$`, the decimal length, CRLF, the bytes, then CRLF |
| RespReply.ReplyBuilder.AppendNil | src/sw/vector-engine/resp.h:84-88 | appends exactly `$-1\r\n` |
| RespReply.ReplyBuilder.AppendArray | src/sw/vector-engine/resp.h:90-93 | appends only the header `*<n>\r\n` |
| RespReply.ReplyBuilder.AppendString | src/sw/vector-engine/resp.cpp:155-165 | appends the type byte, the text, then CRLF, after what is already there |
| RespParser.ParseNum | src/sw/vector-engine/resp.cpp:78-111 | when `_parse_num` succeeds, what is left is at least 4 bytes shorter (sentinel, a digit, CRLF) |
| RespParser.ParseArgc | src/sw/vector-engine/resp.h:50-53 | `_parse_argc` is `_parse_num` with the `*` marker; its cases are those of ParseNum, stated by NumRoundTrip, NumPrefix and NumFaults |
| RespParser.ParseArgv | src/sw/vector-engine/resp.cpp:113-137 | when `_parse_argv` succeeds, the cursor has moved forward |
| RespParser.ParseArgs | src/sw/vector-engine/resp.cpp:51-66 | reading `n` more arguments yields exactly `n` more, and moves the cursor forward when `n > 0` |
| RespParser.ParseCommand | src/sw/vector-engine/resp.cpp:35-71 | a complete command always consumes bytes |
| RespParser.ParseStream | src/sw/vector-engine/resp.cpp:34-73 | the loop keeps every command read so far and never grows the view; it stops on the whole input exactly when no command was read |
| RespParser.NumSuffix | src/sw/vector-engine/resp.cpp:87-108 | `remove_prefix` in `_parse_num`: what is left is the input with a prefix removed |
| RespParser.ArgvSuffix | src/sw/vector-engine/resp.cpp:115-134 | `remove_prefix` in `_parse_argv`: what is left is the input with a prefix removed |
| RespParser.ArgsSuffix | src/sw/vector-engine/resp.cpp:54-61 | reading the arguments only removes a prefix of the view |
| RespParser.CommandSuffix | src/sw/vector-engine/resp.cpp:35-71 | reading a whole command only removes a prefix of the view |
| RespParser.StreamSuffix | src/sw/vector-engine/resp.cpp:30-72 | the loop of `parse` stops on a suffix of the buffer, so the offset it reports is where the unparsed bytes start |
| RespParser.ParseAll | src/sw/vector-engine/resp.cpp:28-76 | the consumed count never exceeds the input, and it is 0 exactly when no command is returned |
| RespParser.Parse | src/sw/vector-engine/resp.cpp:28-76 | the `while (true)` loop returns exactly ParseAll, with `bytes_parsed` the offset after the last complete command |
| RespParser.ParseNextCommand | src/sw/vector-engine/resp.cpp:35-49 | one iteration of the loop (count, then zero check, then name) is exactly ParseCommand |
| RespParser.ParseCountedCommand | src/sw/vector-engine/resp.cpp:45-71 | once the count is read: the name and then the other arguments, exactly as ParseCommand |
| RespParser.ParseRemainingArgs | src/sw/vector-engine/resp.cpp:51-66 | the inner `for` loop, with its early `break`, is exactly ParseArgs |
| RespParser.CommandAtCount | src/sw/vector-engine/resp.cpp:35-43 | an incomplete count stops the command; a bad count throws; a count of 0 throws "zero argument" |
| RespParser.CommandAtName | src/sw/vector-engine/resp.cpp:45-49 | an incomplete or bad name stops or faults the command in the same way |
| RespParser.CommandOfParts | src/sw/vector-engine/resp.cpp:45-71 | a command is its name followed by the arguments the inner loop read |
| RespParser.ArgsStep | src/sw/vector-engine/resp.cpp:54-61 | each argument read is pushed after the earlier ones |
| RespParser.StreamStep | src/sw/vector-engine/resp.cpp:68-72 | each complete command is pushed after the earlier ones, and the loop goes on after it |
| RespParser.StreamStop | src/sw/vector-engine/resp.cpp:36-38 | an incomplete command ends the loop without losing the commands already read |
| RespParser.StreamFault | src/sw/vector-engine/resp.cpp:41-43 | a fault in front propagates out of the loop |
| RespParser.AllOfScan | src/sw/vector-engine/resp.cpp:72-75 | `parse` returns the loop's commands, and the offset where the loop stopped |
| RespParser.AllOfFault | src/sw/vector-engine/resp.cpp:28-76 | `parse` throws what its loop threw |
| RespParser.CommandStopsAtName | src/sw/vector-engine/resp.cpp:45-49 | a command cut inside its name is incomplete |
| RespFraming.NumRoundTrip | src/sw/vector-engine/resp.cpp:78-111 | `_parse_num` reads back a number line, whatever follows it |
| RespFraming.ArgvRoundTrip | src/sw/vector-engine/resp.cpp:113-137 | `_parse_argv` reads back a bulk string exactly, whatever bytes (CR and LF included) it holds, and advances by its whole frame |
| RespFraming.ArgsRoundTrip | src/sw/vector-engine/resp.cpp:51-66 | the inner loop reads back the encoded arguments in order |
| RespFraming.CommandRoundTrip | src/sw/vector-engine/resp.cpp:45-72 | an encoded command parses back to the same name and arguments, and consumes exactly its encoding |
| RespFraming.StreamAfterEncoded | src/sw/vector-engine/resp.cpp:34-73 | the loop reads a run of encoded commands in order and goes on after them |
| RespFraming.RoundTrip | src/sw/vector-engine/resp.cpp:28-76 | `parse` of any number of encoded commands returns them all, and consumes every byte |
| RespFraming.FaultDiscardsEarlierCommands | src/sw/vector-engine/resp.cpp:28-76 | a fault after complete commands throws, and those commands are not returned |
| RespFraming.NumPrefix | src/sw/vector-engine/resp.cpp:79-81 | a number line cut anywhere is incomplete and does not throw (89-91, 100-102 too) |
| RespFraming.ArgvPrefix | src/sw/vector-engine/resp.cpp:113-125 | a bulk string cut anywhere, before or inside its payload or CRLF, is incomplete |
| RespFraming.ArgsPrefix | src/sw/vector-engine/resp.cpp:54-66 | arguments cut anywhere make the inner loop stop as incomplete |
| RespFraming.CommandPrefix | src/sw/vector-engine/resp.cpp:35-66 | a command cut anywhere, in the count, the name or an argument, is incomplete, never a fault |
| RespFraming.CutInCount | src/sw/vector-engine/resp.cpp:35-38 | a command cut inside its count is incomplete |
| RespFraming.CutInName | src/sw/vector-engine/resp.cpp:45-49 | a command cut inside its name is incomplete |
| RespFraming.CutInArgs | src/sw/vector-engine/resp.cpp:54-66 | a command cut inside its other arguments is incomplete |
| RespFraming.Fitting | src/sw/vector-engine/resp.cpp:72 | the number of whole commands inside a prefix is at most the number of commands |
| RespFraming.FittingBytes | src/sw/vector-engine/resp.cpp:72 | the bytes those whole commands span never exceed the prefix |
| RespFraming.FittingSplit | src/sw/vector-engine/resp.cpp:72 | the bytes after the whole commands encode exactly the commands after them |
| RespFraming.StreamPrefix | src/sw/vector-engine/resp.cpp:34-73 | on a prefix of an encoded stream, the loop reads exactly the whole commands, and stops where they end |
| RespFraming.ParsePrefix | src/sw/vector-engine/resp.cpp:28-76 | `parse` of any prefix of an encoded stream does not throw; it returns the whole commands in it and exactly their byte count |
| RespFraming.Resumable | src/sw/vector-engine/resp.cpp:72-75 | the bytes left after a prefix, followed by the rest of the stream, parse to exactly the remaining commands |
| RespFraming.StreamLeftover | src/sw/vector-engine/resp.cpp:34-38 | where the loop stops without a fault, what is left starts with no complete command |
| RespFraming.LeftoverIncomplete | src/sw/vector-engine/resp.cpp:72-75 | the consumed count is the end of the last complete command: nothing complete follows it |
| RespFraming.ZeroArgumentThrows | src/sw/vector-engine/resp.cpp:41-43 | `*0\r\n` throws "invalid request: zero argument", whatever follows |
| RespFraming.NumFaults | src/sw/vector-engine/resp.cpp:83-106 | a wrong leading byte, a missing number, and a non-CRLF after the digits (once two bytes are there) each throw their error |
| RespFraming.PayloadFault | src/sw/vector-engine/resp.cpp:127-130 | a payload of `len` bytes that is not followed by CRLF throws |
| StrUtils.LowerChar | src/sw/vector-engine/str_utils.cpp:27 | `tolower` in the C locale: `A`-`Z` move to `a`-`z`, every other byte is kept, and the result is never upper case |
| StrUtils.Lower | src/sw/vector-engine/str_utils.cpp:23-31 | same length, each byte lowered on its own |
| StrUtils.LowerIdempotent | src/sw/vector-engine/str_utils.cpp:23-31 | lowering twice is lowering once |
| StrUtils.LowerCaseInsensitive | src/sw/vector-engine/str_utils.cpp:23-31 | strings that lower byte for byte alike lower to the same string |
| StrUtils.ToLower | src/sw/vector-engine/str_utils.cpp:23-31 | the `push_back` loop builds a string of the same length with every byte lowered |
| StrUtils.TrimLeft | src/sw/vector-engine/str_utils.cpp:39-50 | the result is a suffix; everything removed is whitespace; the result does not start with whitespace |
| StrUtils.TrimRight | src/sw/vector-engine/str_utils.cpp:52-63 | the result is a prefix; everything removed is whitespace; the result does not end with whitespace |
| StrUtils.Trim | src/sw/vector-engine/str_utils.cpp:33-37 | the result is a contiguous piece with only whitespace around it, with no whitespace at either end; it is empty exactly when the line is all whitespace |
| StrUtils.StartsWith | src/sw/vector-engine/str_utils.cpp:65-71 | `starts_with`: false when the string is shorter, else a comparison of its first bytes; StartsWithIff states what it decides |
| StrUtils.EndsWith | src/sw/vector-engine/str_utils.cpp:73-79 | `ends_with`: false when the string is shorter, else a comparison of its last bytes; EndsWithIff states what it decides |
| StrUtils.StartsWithIff | src/sw/vector-engine/str_utils.cpp:65-71 | `starts_with(s, p)` holds exactly when `s` is `p` followed by something |
| StrUtils.EndsWithIff | src/sw/vector-engine/str_utils.cpp:73-79 | `ends_with(s, p)` holds exactly when `s` is something followed by `p` |
| StrUtils.EmptyAffix | src/sw/vector-engine/str_utils.cpp:65-79 | the empty string is a prefix and a suffix of every string |
| Tasks.Run | src/sw/vector-engine/ping_task.cpp:21-23 | `PingTask::run` yields the ping output, whose reply is `+PONG\r\n` (PingEndToEnd) |
| Tasks.Build | src/sw/vector-engine/resp.cpp:167-171 | `RespResponseBuilder::build` is the output's own reply; for a ping output it is `+PONG\r\n` (PongBuilds) |
| Tasks.Create | src/sw/vector-engine/resp.cpp:192-206 | `create` looks the lower-cased name up and falls back to an unknown task; what it decides is stated by CreateDispatch and CreateIgnoresCase |
| Tasks.PingReply | src/sw/vector-engine/ping_task.cpp:25-30 | the builder with one simple string `PONG` holds exactly `+PONG\r\n` |
| Tasks.PongBuilds | src/sw/vector-engine/resp.cpp:167-171 | `build` of a ping output is `+PONG\r\n` |
| Tasks.PingSpellings | src/sw/vector-engine/resp.cpp:188-199 | a name lowers to `ping` exactly when it is `p`/`P`, `i`/`I`, `n`/`N`, `g`/`G` |
| Tasks.CreateDispatch | src/sw/vector-engine/resp.cpp:192-206 | `create` gives a ping task exactly for the name `ping` in any case, whatever the arguments (ping_task.h:29 ignores them); any other command becomes an unknown task carrying that command |
| Tasks.CreateIgnoresCase | src/sw/vector-engine/resp.cpp:192-194 | names that differ only in letter case dispatch alike |
| Tasks.ParseRequests | src/sw/vector-engine/resp.cpp:173-186 | the result is one task per parsed command, created in order, with the parser's byte count; a parser fault is passed on |
| Tasks.PingRequestEncodes | src/sw/vector-engine/resp.cpp:45-72 | `*1\r\n$4\r\n<name>\r\n` is the encoding of the command `<name>` with no arguments |
| Tasks.PingRequestParses | src/sw/vector-engine/resp.cpp:28-76 | that request parses to one command spanning all 14 bytes |
| Tasks.PingEndToEnd | src/sw/vector-engine/resp.cpp:173-199 | `*1\r\n$4\r\nPING\r\n` in any letter case is one ping task whose reply is `+PONG\r\n` (ping_task.cpp:25-30) |
| ReadBuffers.Grown | src/sw/vector-engine/read_buffer.cpp:63-75 | growth never shrinks, never exceeds the maximum, and stops once the free room covers the request or the maximum is reached |
| ReadBuffers.GrownIsFirstFit | src/sw/vector-engine/read_buffer.cpp:63-75 | growth stops at the first doubling that fits: half a grown capacity below the maximum was too small |
| ReadBuffers.ReadBuffer.constructor | src/sw/vector-engine/read_buffer.cpp:22-29 | requires `0 < min <= max`; starts empty, with capacity `min` |
| ReadBuffers.ReadBuffer.Data | src/sw/vector-engine/read_buffer.h:35-37 | `data()`: exactly the first `size` bytes of the allocation |
| ReadBuffers.ReadBuffer.Alloc | src/sw/vector-engine/read_buffer.cpp:31-35 | the unread bytes and their count are kept; capacity grows as Grown says; the array is the old one or a new one; returns the offset after the bytes and the room left |
| ReadBuffers.ReadBuffer.Occupy | src/sw/vector-engine/read_buffer.cpp:37-41 | requires the bytes to fit; the size grows by exactly `n`, and `data()` then covers them |
| ReadBuffers.ReadBuffer.Dealloc | src/sw/vector-engine/read_buffer.cpp:43-55 | requires `0 < n <= size`; the new `data()` is the old one without its first `n` bytes; capacity drops to `min` exactly when fewer than `min / 2` bytes remain, and is otherwise kept |
| ReadBuffers.ReadBuffer.ShiftDown | src/sw/vector-engine/read_buffer.cpp:51 | the in-place `std::copy` moves the bytes to the front and leaves the bytes after them alone |
| ReadBuffers.ReadBuffer.ReallocIfNeeded | src/sw/vector-engine/read_buffer.cpp:57-82 | the doubling loop reaches Grown's capacity; the resize keeps the unread bytes, in the old array or a new one; returns capacity minus size |
| Workers.BatchText | src/sw/vector-engine/worker.cpp:95-98 | the loop of `_run_batch_task`: each task's built reply, in task order; BatchTextAppend and AllPingBatch state its properties |
| Workers.BatchTextAppend | src/sw/vector-engine/worker.cpp:95-98 | the reply text of two task lists back to back is the two texts back to back |
| Workers.AllPingBatch | src/sw/vector-engine/worker.cpp:95-98 | a batch of `n` pings answers `+PONG\r\n` `n` times |
| Workers.OutgoingAppend | src/sw/vector-engine/worker.cpp:60-69 | the sends of two groups back to back are the two groups' sends back to back |
| Workers.SentinelSkipped | src/sw/vector-engine/worker.cpp:60-64 | a sentinel sends nothing, and the batches after it in the same group are still run and answered |
| Workers.OutgoingOfBatches | src/sw/vector-engine/worker.cpp:60-69 | a group without sentinels sends one reply per batch, in order, to the batch's reactor, with the batch's connection id |
| Workers.Worker.constructor | src/sw/vector-engine/worker.cpp:24-26 | a new worker has nothing queued and has sent nothing |
| Workers.Worker.Submit | src/sw/vector-engine/worker.cpp:36-44 | the batch goes to the end of the queue |
| Workers.Worker.Stop | src/sw/vector-engine/worker.cpp:46-51 | a sentinel goes to the end of the queue |
| Workers.Worker.FetchTasks | src/sw/vector-engine/worker.cpp:77-90 | returns the whole queue in FIFO order and leaves it empty |
| Workers.Worker.RunBatchTask | src/sw/vector-engine/worker.cpp:92-101 | the reply carries the batch's connection id, and its text is the task replies concatenated in order |
| Workers.Worker.RunRound | src/sw/vector-engine/worker.cpp:53-75 | one pass drains the queue and sends exactly the replies of its non-sentinel batches, in order; the thread stops exactly when the group held a sentinel |
| Workers.WorkerPool.constructor | src/sw/vector-engine/worker.cpp:103-112 | `num` fresh, distinct, idle workers |
| Workers.WorkerPool.Create | src/sw/vector-engine/worker.cpp:103-112 | no pool exactly when `num == 0`; otherwise exactly `num` workers |
| Workers.WorkerPool.Fetch | src/sw/vector-engine/worker.cpp:114-123 | fails exactly when slot `id % n` is empty; otherwise gives exactly that slot's worker, one of the pool's; fails for every id once all slots are empty |
| Workers.WorkerPool.FetchPeriodic | src/sw/vector-engine/worker.cpp:117 | ids a whole number of laps apart reach the same slot |
| Workers.WorkerPool.Stop | src/sw/vector-engine/worker.cpp:125-132 | every slot ends up empty; each worker that was in a slot gets exactly one sentinel and sends nothing; every `fetch` then fails; a second call changes nothing |
| Connections.ReadStep | src/sw/vector-engine/connection.cpp:47-81 | the decision `on_read` takes. A negative `nread` closes; 0 changes nothing. Otherwise a parse fault closes, no complete command keeps everything, and complete commands are consumed; the consumed count is then positive and within the buffer |
| Connections.Reactor.Dispatch | src/sw/vector-engine/connection.cpp:63 | records one dispatch of the connection id and its commands |
| Connections.Reactor.RemoveConnection | src/sw/vector-engine/connection.cpp:39 | records one removal of a connection id |
| Connections.Connection.constructor | src/sw/vector-engine/connection.cpp:83-89 | a fresh, empty read buffer with capacity, minimum and maximum as configured |
| Connections.Connection.OnAlloc | src/sw/vector-engine/connection.cpp:25-31 | delegates to `alloc`: the unread bytes are kept, the array is the old one or a new one, and the room after them is lent |
| Connections.Connection.OnRead | src/sw/vector-engine/connection.cpp:47-81 | commits `nread` bytes, then follows ReadStep. A consume drops exactly the consumed bytes and dispatches the commands in order with this id; a fault closes without dropping or dispatching; a negative `nread` closes. The array is kept on every path except a consume; a consume shrinks to a new array of `min` bytes exactly when fewer than `min / 2` bytes remain, as `dealloc` does, and otherwise keeps it |
| Connections.Connection.OnClose | src/sw/vector-engine/connection.cpp:33-45 | removes this connection's id from the reactor |
| Connections.ReadOfPrefix | src/sw/vector-engine/connection.cpp:54-64 | a well-formed stream cut at any byte never closes the connection; the read consumes exactly the whole commands and their bytes, or keeps everything |
| Connections.ReadResumes | src/sw/vector-engine/connection.cpp:54-64 | after a read that ends anywhere in a well-formed stream, the kept bytes followed by the rest make the next read dispatch exactly the remaining commands and consume every byte |
| Connections.FaultDropsBatch | src/sw/vector-engine/connection.cpp:65-70 | a malformed command closes the connection, and the complete commands before it are never dispatched |

## Left out

- Threads, the mutex and the condition variable of `Worker` (worker.cpp:24-34, 79-87) are not modelled. The queue is a field, and rounds of the run loop are called one at a time.
- Workers.Worker.FetchTasks and RunRound require a non-empty queue. They stand for the point where the blocking wait of `_fetch_tasks` has returned, not for the wait itself.
- The `while (true)` repetition of `_run` is left to the caller. RunRound is one pass; its result says whether the thread would leave the loop.
- `reactor->send` at worker.cpp:68 is an outbox. It records one reply per non-sentinel batch. The moved-from `replies` vector is not modelled.
- The destructor of `Worker`, with its second `stop` and its `join`, is not modelled. Neither is the destructor of `WorkerPool`.
- A reactor is an identity number in `BatchTask`. `nullptr` is the `Sentinel` case.
- `Reactor` (`dispatch`, `remove_connection`) is not defined in the visible sources. It is a record of the calls it receives.
- `delete connection` and `delete client` in `on_close` are not modelled.
- `uv::handle_close` only sets `closing`. The later `on_close` call is separate.
- The libuv read itself is not modelled. The bytes it writes into the lent room are whatever the array holds.
- Connections.Connection.OnRead requires that `nread` fits the room `on_alloc` lent. That is libuv's guarantee, and `occupy` asserts it.
- `EOF` and other negative `nread` values behave the same, so they are not told apart. The error log and `std::cerr` output are not modelled.
- unknown_task.h is not part of this model. An `UnknownTask`'s reply is kept opaque: a function from the command, carried as the batch's response builder.
- Tasks.Run does not model what an `UnknownTask` computes. Its output only carries the command.
- `std::from_chars` overflow is not modelled, because sizes are unbounded naturals. That overflow throws "expect a positive integer". The same goes for the `len + 2` and `capacity * 2` wrap-arounds near `SIZE_MAX`.
- RespParser.ParseCommand: once the name is read, `args.reserve(*argc - 1)` (resp.cpp:52) throws `std::length_error` or `std::bad_alloc` for a count too large to reserve, such as `*1000000000000000000\r\n$1\r\na\r\n`. That exception is not an `Error`, so the `catch` in `on_read` (connection.cpp:65) does not stop it and it leaves the libuv callback. The model has no allocation limit: it waits for the missing arguments (Incomplete), and Connections.ReadStep keeps the bytes.
- `reserve` calls and the storage layout of `std::string` are not modelled. `std::string` with `resize` is an `array<char>` of the capacity, and new room is filled with `'\0'`.
- `std::tolower` on negative `char` values and on other locales is not modelled. The model uses the "C" locale.
- RespReply.ReplyBuilder.AppendInteger and AppendArray require a `long long`. Their `std::to_string` is modelled for that range.
- `RespReplyBuilder` methods return `*this` for chaining. The model's methods return nothing, and chaining is successive calls.
- The logger, `json_rpc`, `reactor.cpp`, `uv_utils` and `main` are not part of this model.
