# A pipelined REST client, verified

The client sends HTTP/1.1 GET requests down one TLS connection and does not wait for an answer before it
sends the next request. Nothing on the wire says which request a response belongs to, so a response reaches
the right callback only because every queue on the way keeps its order (section 6.3.2 of RFC 7230). This
project models that engine and proves, for every run, that it does; and it models the three pieces around
it whose result must not depend on how work is cut up: target building and routing, the pacing of the
subscribe task, and the resumable stream components in the bundled Beast headers.

## How it is built

- `words.dfy`: 64-bit counters, powers of two, masks, and the size computation of the ring.
- `ring.dfy`: `RequestBuffer` as a value, one call at a time, against a bounded FIFO; what happens once the
  counters wrap. `request_buffer.dfy`: the same on a real array, as a class.
- `ring_steps.dfy`, `ring_theorems.dfy`: `add` and `get` cut into their atomic loads, stores, increments and
  exchanges, one producer and any number of consumers interleaved in every way. `ring_progress.dfy`: every
  call is answered and none waits for another thread.
- `session_state.dfy`, `session.dfy`: what each handler of `Session` and `Handler` does, as functions, and the
  two classes proved against them.
- `pipeline.dfy`, `pipeline_inv.dfy`, `pipeline_theorems.dfy`: the whole client as a transition system (client
  threads, subscribe task, io queue, session, ring, writes in progress, wire, peer), its invariant, and the
  statements about every run. `pipeline_flags.dfy`: what the flags say about a run.
  `pipeline_calls.dfy`: how the calls of client threads and task are answered. `pipeline_crash.dfy`: how the
  exception of a full ring is reached and avoided.
- `rest_client.dfy`, `pacing.dfy`: `RestClient`, its subscribe loop, and the rate arithmetic. `task_pacing.dfy`:
  the same loop inside the whole client, on a clock.
- `targets.dfy`: building a target and routing it.
- `detect_ssl.dfy`, `file_body.dfy`, `buffer_body.dfy`: the Beast components.

## Assumptions

- Atomics are sequentially consistent, although `get` loads `mReadPos` with relaxed order.
- One thread runs `mIoc` (src/rest_client.cpp:64), so handlers run one at a time, and posts run in the order
  they were made.
- Each `Write` puts its whole request on the wire, in the order of the calls, reading the request from its
  slot while it sends. The code does not wait for `OnWrite` before it starts the next write.
- The peer answers each request once, in order, and only after the whole request has arrived. `encode`, the
  bytes of a request, is any function.
- Statements over runs of the ring and of the client hold while fewer than 2^64 entries are added.
  For the ring one call at a time `Ring.RunsAgreeExactly` says exactly which runs need the bound: the
  emptiness test of `get` compares counters, and once the write counter has wrapped past the read counter
  nothing is ever handed out again (`Ring.WrapIsPermanent`). The fullness test of `add` subtracts, and stays
  right.
- `read_some` into an empty buffer returns at once with no bytes and no error.
- For the pacing, a sleep takes at least its time, and the clock does not go back.

## Where the code differs from its comments or its purpose

- A full ring throws a `std::string` out of the handler, through `mIoc.run()` and past every `catch` in
  `main`. `PipelineTheorems.CrashesExactlyWhenFull` says exactly when, `PipelineCrash.FullRingCrashes` that it
  happens for every size, and `PipelineCrash.ThrottledNeverCrashes` how callers avoid it.
- The throttle described at src/session.cpp:56-60 is not there. The pacing statements are about the
  subscribe task alone.
- `cTimeoutMs` is computed with two integer divisions. For the configured 120 requests a minute the limit
  is kept; for 180, say, it would be exceeded (`Pacing.PacingIsExact`, `Pacing.RoundedLimitIsExceeded`).
- `is_tls_client_hello` is documented to give an answer as soon as the bytes allow one. It can be later:
  `DetectSsl.LateExactly` says for which bytes, and `DetectSsl.AnswerCanBeLate` shows seven of them. It is
  never wrong.
- `detect_ssl` is said to block until there is an answer or an error. With a buffer that may hold fewer than
  nine bytes it can fill the buffer and then read nothing for ever (`DetectSsl.DetectOnStream` says exactly
  when, `DetectSsl.NineBytesSuffice` for which buffers, `DetectSsl.ZeroReadsGoOn` what follows).
- `get` copies the entry after it has claimed the index, so a claimant that the producer overtakes by a whole
  ring returns a later entry or a torn one (`RingTheorems.CopyReturnsLatest`, `RingTheorems.DisturbedCopy`).
  In the client, where one thread runs both sides, this does not happen.
- `dispatch` searches the whole target, so an endpoint inside an option can select the decoder
  (`Targets.RoutingFollowsName` says exactly when).
- The file writer takes `remain_` from the cached file size but reads from the file's current position, so it
  can end without error exactly from position 0 (`FileBody.FinishesExactlyFromStart`).

## Model

| member | source | states |
|---|---|---|
| `Words.ClosestExpIsLeastPower` | include/request_buffer.hpp:17-24 | the size is computed without an undefined shift exactly for 1 to 2^63, and is then the least power of two that is at least the argument and 2 |
| `Words.SlotIsMod` | include/request_buffer.hpp:24-41 | masking a 64-bit position is reduction modulo the size, also after the counter has wrapped |
| `Words.SlotsDistinct` | include/request_buffer.hpp:39-54 | positions less than one size apart have different slots |
| `Words.SlotPeriodic` | include/request_buffer.hpp:39-54 | a slot comes round again one size later |
| `Ring.FullExactlyAtSize` | include/request_buffer.hpp:31-32 | the counter difference is the number of queued entries, however often either counter has wrapped |
| `Ring.AddAppends` | include/request_buffer.hpp:29-42 | `add` appends, or throws and changes nothing exactly when the size is reached |
| `Ring.GetTakesOldest` | include/request_buffer.hpp:44-55 | `get` takes the oldest entry, and answers empty exactly when nothing is queued or the write counter has wrapped past the read counter |
| `Ring.RunsAgreeExactly` | include/request_buffer.hpp:29-59 | for every sequence of calls: its answers are those of the bounded FIFO, call by call, exactly when `get` is not called once 2^64 entries have been stored |
| `Ring.RingRefinesFifo` | include/request_buffer.hpp:29-59 | so every sequence with fewer than 2^64 stored entries answers as the FIFO |
| `Ring.WrapLosesEntry` | include/request_buffer.hpp:48 | a sequence with exactly 2^64 stored entries whose answers differ from the FIFO's |
| `Ring.WrapIsPermanent` | include/request_buffer.hpp:44-55 | once the write counter has wrapped past the read counter, no later call hands anything out |
| `RequestBuffers.RequestBuffer.constructor` | include/request_buffer.hpp:23-59 | an empty ring of the computed size |
| `RequestBuffers.RequestBuffer.Add` | include/request_buffer.hpp:29-42 | on the array: the queue grows by the entry, or is full and unchanged |
| `RequestBuffers.RequestBuffer.Get` | include/request_buffer.hpp:44-55 | on the array, with the exchange loop: the queue loses its head, or nothing is given and nothing changes |
| `RequestBuffers.RequestBuffer.CompareExchange` | include/request_buffer.hpp:53 | swaps exactly when the expected value is there, and reports what it saw |
| `RingSteps.StepInv` | include/request_buffer.hpp:29-55 | every atomic step of producer or consumer keeps the invariant: counters, stale local values, slots, claims, returned entries |
| `RingTheorems.ReachableSafety` | include/request_buffer.hpp:31-53 | in every interleaving the occupancy is within 0 and the size, the claimed indices are 0 to mReadPos - 1 each by one `get`, live slots hold their entries, and a store reuses only a claimed slot |
| `RingTheorems.ReachableReturns` | include/request_buffer.hpp:53-54 | every `get` that has returned gave the entry of the index it claimed, unless the store one size later had begun when its copy ended; no index is returned twice or lost |
| `RingTheorems.CopyReturnsLatest` | include/request_buffer.hpp:39-54 | in every state: what a copy that starts now and ends before any other step yields, over a store under way, over one not yet published, and otherwise; it is the claimed entry if and only if the store one size later has not begun |
| `RingTheorems.DisturbedCopy` | include/request_buffer.hpp:39-54 | a copy during which a store begins can yield any value if the store is into the same slot, and otherwise only what the slot holds |
| `RingTheorems.OvertakenCopyReturnsLater` | include/request_buffer.hpp:53-54 | for every size there is a run from the start in which an overtaken `get` returns a later entry for the first index |
| `RingTheorems.InterleavingsRefineFifo` | include/request_buffer.hpp:29-55 | every interleaving is, at the steps where the calls take effect, a run of the bounded FIFO; the n-th claim gets the n-th entry there, and every `get` that was not overtaken returns that value |
| `RingTheorems.FailuresAreOthersClaims` | include/request_buffer.hpp:44-53 | inside a call, failed exchanges are at most the claims others made since it began |
| `RingTheorems.GetIsBounded` | include/request_buffer.hpp:44-55 | with at most `bound` entries ever added, a call of `get` ends within a number of its own steps fixed when it starts |
| `RingProgress.AddIsBounded` | include/request_buffer.hpp:29-42 | a call of `add` ends within five of its own steps, stored or thrown, whatever the consumers do |
| `RingProgress.AddNeverWaits` | include/request_buffer.hpp:29-42 | in every state a call of `add` can take its next step |
| `RingProgress.GetNeverWaits` | include/request_buffer.hpp:44-55 | in every state a call of `get` can take its next step |
| `RingProgress.EveryCallIsAnswered` | include/request_buffer.hpp:29-55 | the entries passed to `add` are, in order, those answered for in the history and the one under way; each call of `get` has its answer in the history or is still before it |
| `Sessions.Session.constructor` | src/session.cpp:7-20 | a fresh session: empty queue, nothing posted, not ready, no error, nothing outstanding |
| `Sessions.Session.ExecRequest` | src/session.cpp:40-44 | sets the shared template, puts a copy behind everything queued and starts the write from its slot; with the size queued it throws and the queue stays |
| `Sessions.Session.AsyncRequest` | src/session.cpp:46-66 | posts behind everything posted exactly when ready; otherwise posts nothing and sleeps a second |
| `Sessions.Session.OnConnect` | src/session.cpp:79-88 | goes on to the handshake, or sets the error and stops the context: like ErrorHandle, Stop, Run, OnResolve, OnWrite and Write, the object does what the function of this name in `SessionState` does |
| `Sessions.Session.OnHandshake` | src/session.cpp:90-98 | becomes ready and starts the first read, or handles the error |
| `Sessions.Handler.Read` | src/handler.cpp:8-13 | clears the result and starts one read |
| `Sessions.Handler.OnRead` | src/handler.cpp:15-28 | takes the oldest queued entry, if `get` gives one, calls its callback with the response and its own target, and reads again; an error only sets the error |
| `PipelineInv.RunInv` | src/session.cpp:21-112 | every run of threads, handlers and peer keeps the invariant of the composed client |
| `PipelineInv.ExecEffect` | src/session.cpp:40-44 | executing a post stores it at the next index and writes it from there, or crashes and stores nothing |
| `PipelineInv.SlotStillHolds` | src/handler.cpp:37-41 | the write being sent reads the entry it was started for |
| `PipelineTheorems.ResponsesMatchRequests` | src/handler.cpp:15-28 | the k-th response goes to the callback of the k-th executed request with its target; none is lost or doubled; executed = delivered + (mWritePos - mReadPos) |
| `PipelineTheorems.PostsAreExecutedInOrder` | src/session.cpp:61-64 | what was posted is what was executed, then the post a crash interrupted, then the queue |
| `PipelineTheorems.WireIsRequestsInOrder` | src/session.cpp:40-44 | the wire holds the executed requests' bytes back to back, as they were when executed |
| `PipelineTheorems.PendingWritesAreStable` | src/handler.cpp:37-41 | the slot of every outstanding write keeps the entry of its request |
| `PipelineTheorems.OverwrittenWasAnswered` | include/request_buffer.hpp:32-41 | a slot is reused only when its earlier request was taken from the ring, answered and wholly sent |
| `PipelineTheorems.CrashesExactlyWhenFull` | include/request_buffer.hpp:32-38 | an execution throws exactly when the ring holds its size of unanswered requests |
| `PipelineCrash.FullRingCrashes` | src/session.cpp:40-44 | for every configuration, size and request: a run from the start in which one call more than the ring has slots, all unanswered, ends the client |
| `PipelineCrash.FewPostsDoNotCrash` | src/session.cpp:40-44 | an execution does not throw while at most as many posts as the ring has slots lack their callback |
| `PipelineCrash.ThrottledNeverCrashes` | src/session.cpp:40-66 | so no run throws in which callers keep within that number |
| `PipelineTheorems.CallbacksFollowCallOrder` | src/session.cpp:46-66 | callbacks of one caller's calls that returned RequestSent fire in the order of the calls |
| `PipelineCalls.ClientCallIsAnswered` | src/rest_client.cpp:68-80 | from every state and under any interleaving a client call ends within four of its own steps with one answer: a flag set before it began is seen, one not set when it ends was not, and only RequestSent has posted its endpoint and callback |
| `PipelineCalls.AnswerWithoutChange` | src/rest_client.cpp:68-80 | when no flag changes meanwhile: SessionError, EndSubscribeRequest, SessionNotReady or RequestSent, in the order of the tests |
| `PipelineCalls.EveryCallIsRecorded` | src/rest_client.cpp:68-94 | every finished call of every caller has exactly one answer, in the order of the calls |
| `PipelineCalls.ResponsesReachTheirCalls` | src/rest_client.cpp:68-80 | end to end: a response goes to the callback passed to the call it answers, with the target made from the endpoint passed to it |
| `PipelineTheorems.SubscriptionsTakeTurns` | src/rest_client.cpp:83-94 | in every interleaving the subscribe task's calls go round the subscriptions, and each response goes to its subscription's callback and target |
| `PipelineTheorems.Lifecycle` | src/session.cpp:68-98 | ready means resolved, connected, secured in this order; nothing is posted or stored before; one read outstanding while ready without error, never two |
| `PipelineFlags.FlagsExactly` | src/session.cpp:21-112 | in every run: the error is set exactly by a failed resolve, connect, handshake, write or read, the stop flag exactly by the signal, readiness exactly by a handshake; and `mIoc` runs exactly until the signal, an error or an exception |
| `PipelineFlags.SignalIsFinal` | src/rest_client.cpp:22-28 | the signal can come whenever `mIoc` runs, and from then on no callback is called and nothing is sent |
| `PipelineFlags.OneReadOutstanding` | src/handler.cpp:8-28 | one read is outstanding from the handshake on until a read fails |
| `PipelineTheorems.FlagsStay` | src/session.cpp:21-26 | the error, the stop flag and readiness, once set, stay set |
| `PipelineTheorems.StoppedIsFrozen` | src/session.cpp:110-112 | once `mIoc` has stopped, ring, wire and callback history never change again |
| `PipelineTheorems.TaskEndsAfterFlag` | src/rest_client.cpp:83-94 | after a flag is set the subscribe task makes at most one more call per subscription and exits within a bounded number of steps |
| `PipelineCalls.TaskKeepsCalling` | src/rest_client.cpp:83-94 | it exits only on a flag, and with something to subscribe to at most five of its steps lie between two calls |
| `PipelineCalls.NextCallComes` | src/rest_client.cpp:83-94 | without a flag it is never held up: at most five steps of its own begin the next call |
| `PipelineCalls.TaskCallsAreAnswered` | src/session.cpp:46-66 | in any continuation its calls are answered RequestSent if the session was ready before, SessionNotReady if it is not ready after |
| `PipelineTheorems.CanDeliverAll` | src/handler.cpp:15-28 | from every reachable open and running state all executed requests can still be answered and delivered |
| `RestClients.RestClient.constructor` | src/rest_client.cpp:7-20 | no subscription, no stop flag, the signal wait outstanding, and a fresh session that has been started |
| `RestClients.RestClient.SubscribeEndpoint` | src/rest_client.cpp:30-46 | appends the prefixed name with its callback |
| `RestClients.RestClient.SubscribeEndpointWith` | src/rest_client.cpp:48-60 | appends the prefixed name and its options with its callback |
| `RestClients.RestClient.AsyncRequest` | src/rest_client.cpp:68-80 | which of the four answers is given when, that only RequestSent posts, and that only SessionNotReady sleeps |
| `RestClients.RestClient.SignalHandler` | src/rest_client.cpp:22-28 | sets the stop flag and stops the session, so that `mIoc` no longer runs; the wait is over |
| `RestClients.SubscribeTask` | src/rest_client.cpp:83-94 | ends at the first test that finds a flag; the k-th call is for subscription k mod n; the next one follows after exactly the timeout, the sleep of an early call and the lateness of the sleep |
| `RestClients.TaskKeepsLimit` | src/rest_client.cpp:85-91 | no minute sees more calls of the loop than the configured limit |
| `TaskPacing.CallsAreTheLoops` | src/rest_client.cpp:83-94 | in every interleaving of the client on a clock the subscribe task's calls are calls of this loop: in turn, answered by readiness, spaced, and within the limit in every minute |
| `Pacing.WindowHolds` | src/rest_client.cpp:85-91 | n spaced calls in a window span less than its length |
| `Pacing.PacingIsExact` | include/rest_client.hpp:25-26 | a limit is kept in every minute of every schedule exactly when limit times timeout covers a minute |
| `Pacing.DividingLimitsAreKept` | include/rest_client.hpp:25-26 | in particular when the limit per second divides 1000 |
| `Pacing.RoundedLimitIsExceeded` | include/rest_client.hpp:25-26 | a limit for which the rounding loses too much |
| `Targets.GetTargetOpts` | include/helper.hpp:49-58 | a question mark and the options joined by ampersands |
| `Targets.TargetReadsBack` | src/rest_client.cpp:48-60 | name and options can be read back from the target exactly when the name is '?'-free and the options are '&'-free |
| `Targets.ParseBuilds` | include/helper.hpp:49-58 | every string behind the prefix is the target of the name and options read back from it, and those are free of the separators |
| `Targets.TargetInjective` | include/helper.hpp:49-58 | different names or options, no options included, give different targets |
| `Targets.TargetsCollideOtherwise` | include/helper.hpp:49-58 | every name and options outside these restrictions share their target with a different pair inside them |
| `Targets.SearchIsPrefixTest` | include/decoder.hpp:23-33 | for every target: a substring search succeeds exactly when the endpoint name begins with the searched name or the searched text occurs again further on |
| `Targets.InnerIsSmuggled` | include/decoder.hpp:23-33 | it occurs again further on exactly when it occurs in the endpoint name behind a slash or in one of the options |
| `Targets.RoutingFollowsName` | include/decoder.hpp:23-33 | for every name and options: the decoder is the one the endpoint name selects exactly when no endpoint searched before it occurs in the name behind a slash or in an option |
| `Targets.OptionCanRedirect` | include/decoder.hpp:23-33 | an option that contains an endpoint keeps the target from every endpoint searched later |
| `Targets.OrderMattersExactly` | include/decoder.hpp:23-33 | for every name and options: all orders of the four branches select the decoder the code selects exactly when at most one endpoint begins the name, occurs in it behind a slash or occurs in an option |
| `Targets.OnePrefixRoutesByName` | include/decoder.hpp:23-33 | in particular a target with the prefix only at its start is routed by its name, in any order of the branches |
| `Targets.SlashFreeRoutesByName` | include/decoder.hpp:7-33 | as is every target whose name and options have no '/' |
| `DetectSsl.AnswerIsFinal` | include/beast/boost/beast/core/detect_ssl.hpp:94-169 | an answer is kept on every extension and right about every stream that begins so; nine bytes suffice |
| `DetectSsl.LateExactly` | include/beast/boost/beast/core/detect_ssl.hpp:57-72 | for every undecided input: it already rules a client_hello out exactly when its first length bytes make the message too long for the record, and already forces one exactly when eight bytes fit whatever the last length byte is |
| `DetectSsl.DetectIsTheWholeAnswer` | include/beast/boost/beast/core/detect_ssl.hpp:213-264 | for every split into non-empty reads the loop returns the whole stream's answer, buffers exactly what it read, and needs at most nine reads |
| `DetectSsl.ChunkingDoesNotMatter` | include/beast/boost/beast/core/detect_ssl.hpp:213-264 | two splits of one stream give the same outcome |
| `DetectSsl.ErrorAnswersFalse` | include/beast/boost/beast/core/detect_ssl.hpp:251-263 | a read error returns false, with the bytes read so far kept |
| `DetectSsl.DetectOnStream` | include/beast/boost/beast/core/detect_ssl.hpp:213-264 | the loop on a stream and a buffer of any maximum size does this with exactly the reads made on the stream, each of at most 1536 bytes, and loses no byte; unless a read fails it stays undecided exactly when the first maximum-size bytes of buffer and stream leave the answer open |
| `DetectSsl.NineBytesSuffice` | include/beast/boost/beast/core/detect_ssl.hpp:94-169 | some bytes fill a buffer of a given size without an answer exactly when the size is below nine |
| `DetectSsl.ZeroReadsGoOn` | include/beast/boost/beast/core/detect_ssl.hpp:213-264 | with an undecided full buffer no number of the zero-byte reads that follow ends the loop |
| `FileBody.StoreAt` | include/beast/boost/beast/http/basic_file_body.hpp:493-522 | byte by byte: a store replaces the range from the position, extends the file if need be and keeps every other byte |
| `FileBody.StoreAllIsStore` | include/beast/boost/beast/http/basic_file_body.hpp:493-522 | any calls of `put` over any buffers store the concatenation |
| `FileBody.GetsRead` | include/beast/boost/beast/http/basic_file_body.hpp:335-392 | the pieces are consecutive bytes of the file from its position, and all of the count when finished |
| `FileBody.CallsBounded` | include/beast/boost/beast/http/basic_file_body.hpp:335-392 | a caller that stops at the first false flag makes at most as many calls as the count, and one when there is nothing to read |
| `FileBody.PieceFlags` | include/beast/boost/beast/http/basic_file_body.hpp:344-391 | a piece has 1 to 4096 bytes, and its flag is false exactly when it uses the count up |
| `FileBody.WriterGivesWholeFile` | include/beast/boost/beast/http/basic_file_body.hpp:303-392 | the writer can finish only if the file was at position 0, and has then given the whole file |
| `FileBody.NoShortReadFromStart` | include/beast/boost/beast/http/basic_file_body.hpp:361-370 | from position 0 a short read never comes before the count is used up |
| `FileBody.GetIsPossible` | include/beast/boost/beast/http/basic_file_body.hpp:344-359 | while the count fits the file there is always a piece to give, or nothing left |
| `FileBody.FinishesExactlyFromStart` | include/beast/boost/beast/http/basic_file_body.hpp:303-392 | the writer can come to an end exactly when the file is at position 0, and for any count exactly when it fits the file from its position |
| `FileBody.StoredIsReadBack` | include/beast/boost/beast/http/basic_file_body.hpp:335-522 | for every file before: what any finished calls of `get` give after reopening is what one store of all the bytes put leaves; for an empty file, those bytes |
| `FileBody.Body.Reset` | include/beast/boost/beast/http/basic_file_body.hpp:193-211 | closes the old file, keeps the new one and caches its size, or 0 and an error exactly when the one query for the size failed |
| `FileBody.BodyReader.Put` | include/beast/boost/beast/http/basic_file_body.hpp:493-522 | writes each buffer once, in order, up to the first write that fails and exactly then with an error; the counted bytes are the ones stored |
| `FileBody.BodyWriter.Get` | include/beast/boost/beast/http/basic_file_body.hpp:335-392 | each call is one of the outcomes above, made by one read of as much as count and buffer allow: a file error exactly when that read failed, otherwise a piece unless the file is at its end; buffer, count and file move on by the piece |
| `BufferBody.EachPieceOnce` | include/beast/boost/beast/http/buffer_body.hpp:180-209 | for any supplies, with or without data: what was supplied is yielded once and in order, and each round ends with a request or the end as its flag says |
| `BufferBody.ReceiveKeepsBytes` | include/beast/boost/beast/http/buffer_body.hpp:120-141 | with any receive buffers, resubmitting the rest loses and repeats nothing, and something is left only when all room is used |
| `BufferBody.ReceiveAllKeepsBytes` | include/beast/boost/beast/http/buffer_body.hpp:120-141 | the same for any list of pieces, with what is left being exactly what exceeds the room |
| `BufferBody.RoundTrip` | include/beast/boost/beast/http/buffer_body.hpp:120-209 | data supplied to the writer and passed through the reader arrives as its concatenation |
| `BufferBody.Writer.Get` | include/beast/boost/beast/http/buffer_body.hpp:180-209 | on the object: the toggle and the answer are those of the function the statements are about |
| `BufferBody.Reader.Put` | include/beast/boost/beast/http/buffer_body.hpp:120-141 | on the caller's memory: what fits is copied behind what is there, the pointer and size move, the rest is untouched; another buffer is asked for exactly when there is none or something is left over |

## Left out

- Relaxed memory order, several threads running `mIoc`, strands and object lifetimes.
- DNS, TCP, the TLS handshake, signals, sleeping and printing, except as events that succeed, fail or take time.
- SubscribeTask: flags, readiness and delays are given as functions, and some test must find a flag, because a run without one has no end; an empty subscription list makes the loop spin.
- GetTargetOpts: needs at least one option, because the code reads the first without looking.
- BodyWriter.Get: a file that reads some bytes and then fails is modelled as failing, without saying where it leaves the position.
- Body.Reset: `open`, which creates the handle itself and closes it again when its size cannot be had, is not modelled.
- RestClient.constructor: the TLS settings and the host and port strings are not modelled.
- The asynchronous form of the TLS detector: the same loop, with its completion posted.
- User callbacks that throw, and calls made from inside a callback.
- The parser, serializer, fields, dynamic buffers, websocket and zlib of the bundled headers: their algorithms are not part of this model.
- `string_body`, `vector_body`, `span_body`, `empty_body`, the demo program and the status printer: easy, and beside the point.
