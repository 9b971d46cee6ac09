# A verified model of a JSON-RPC 2.0 library

The library serves and calls JSON-RPC 2.0 over streams, packets and HTTP. What is hard in it is
not the JSON but the discipline around it: goroutines per message and per batch element, a
shutdown that has to wait for them, clients that pair replies with calls without looking at IDs,
a connection pool with retries and an idle reaper, deadlines shared by successive calls, and IDs
that compare across integers and number literals. This project models that discipline in Dafny
and proves what it guarantees.

## How the model is built

Code that works on fields is a class with those fields (`Batch`, `Client`, `BatchBuilder`,
`TransportClient`, `ClientPool`, `StreamDecoder`, `HTTPBridge`, `IdField`, `ResponseWriter`); its
methods are proved against functions of the old state, and lemmas then say what those functions
guarantee. Code whose difficulty is interleaving is a labelled transition system: a `State`, a
`Label` for every atomic step of every goroutine, `Enabled` and `Apply`. `Executions.IsRun` says
what a run of such a system is, and every theorem about one quantifies over all runs. JSON text,
sockets, contexts and clocks are inputs: what a decode, an encode, an acquisition or a clock
yields is a parameter, and every theorem holds for all of them.

| file | what it models |
|---|---|
| `Prelude.dfy` | optional values, runs of transition systems, induction over runs |
| `Errors.dfy` | Go errors as trees of wraps and joins, `errors.Is`, `errors.Join` |
| `Ids.dfy` | int64 text, number literals (section 6 of RFC 8259), `ID` |
| `Batches.dfy` | `Batch` and `BatchCorrelate` |
| `Clients.dfy` | the wrapping ID counter and the batch builder |
| `Rpc.dfy` | one message to at most one reply; first-byte dispatch |
| `FanOut.dfy` | the goroutines of one batch, with the append split into lock, read, write, unlock |
| `Pairing.dfy` | builder, server and correlation put together |
| `RunLoop.dfy` | `RPCServer.Run`: decode loop, handlers, the deferred shutdown |
| `Http.dfy` | `HTTPHandler.ServeHTTP` and `HTTPBridge` |
| `TransportClients.dfy` | one client on one stream |
| `ClientPools.dfy` | the assumed contract of the resource pool, the retry loop, a reaper pass |
| `ReaperClock.dfy` | the reaper in real time |
| `CloseRace.dfy` | `ClientPool.Close` against the timer's goroutines |
| `CrossTalk.dfy` | many callers, many connections, failures at every step |
| `Cancellation.dfy` | `cancelDecode` and `cancelEncode` |
| `ReadLimit.dfy` | the stream decoder's read limit |
| `ServePacket.dfy` | several routines on one packet connection |

## What the code does where one might expect otherwise

Each of these is kept as the code has it. The lemmas named say exactly when it happens and, where
that is not plain from the statement, give an input.

- `ID.Equal` is not transitive: the literals `-0` and `0` both equal the integer 0 but not each
  other (`Ids.EqualTransitiveExactly`, `Ids.NegativeZeroBreaksTransitivity`). On literals other
  than `-0` it is an equivalence (`Ids.EqualIsSameDenotation`).
- Decoding `null` into an ID field that already holds a value keeps the value: a reused field is
  the null ID only if it has never held a string or a number (`Ids.ReusedFieldIsNullExactly`).
- `BatchCorrelate` never reports a second response whose ID is Go-equal to a matched one
  (`Correlation.DroppedExactly`).
- A panicking handler is answered even when the message was a notification, and a handler that
  changes the ID of the request it is handed changes that of the reply, or silences it
  (`RunLoop.UnansweredExactly`, `RunLoop.RepliesBelongToElements`).
- The documentation of `Run` lists waiting for handlers before cancelling their context. With
  goroutines and without `WaitOnClose` the order is the reverse, and a handler may see the
  cancellation; that is so in exactly this configuration (`RunLoop.HandlersSeeStopExactly`).
- An HTTP body that ends in a syntax error gets status 500 and loses every reply already
  buffered (`HttpHandler.RepliesKeptExactly`, `HttpHandler.SyntaxErrorDropsReplies`).
- A `TransportClient` that stays in use after a failed call may hand a caller the reply to an
  earlier call (`TransportClients.OwnReplyExactly`, `TransportClients.StaleReply`). This needs an
  `Encoder` or `Decoder` that works again after an I/O error. The stream codecs over
  `encoding/json` do not, since that library repeats its first I/O error, except when clearing
  a deadline failed before any I/O; with codecs that repeat their errors every successful call gets
  its own reply (`TransportClients.RepeatingCodecsKeepPairing`). The pool, which destroys a connection
  on every error, is safe with any codec (`CrossTalk.NoCrossTalk`).
- A call may succeed and yet have closed its transport, in some run, if and only if the transport
  has no deadlines (`Cancellation.SuccessClosesExactly`). Only a call whose own context has ended
  ever closes one (`Cancellation.OnlyEndedContextsClose`); `Cancellation.SuccessMayClose` is the run.
- Of a batch the client sees every request unanswered and one unrequested response if and only if
  the server refused it: as a whole, by an answered decoding error, or because its only element
  did not decode (`TransportClients.RefusedExactly`; a truncated datagram is the input of
  `TransportClients.TruncatedBatch`).
- A bare number that is longer than the read limit is cut at the limit and accepted if what remains
  is a number, and the rest is accepted as the next value; otherwise it is refused
  (`ReadLimit.StreamDecoder.Decode`, with the input of `ReadLimit.CutNumber`).
- `nextWait` is measured from the instant each connection is examined, but the timer is set after
  the pass. A pass that takes time p adds exactly 2p to the worst idle time: that is the timeout,
  the lateness of the timer and 2p, so the timeout and the lateness alone are a bound if and only if
  passes take no time (`ReaperClock.IdleBound`, `ReaperClock.BoundIsTight`, `ReaperClock.BoundsExactly`).

## Model

| member | source | states |
|---|---|---|
| Correlation.BatchCorrelate | batch.go:78-104 | The callbacks made are the prefix, up to the first false answer, of the declared list: each request in order with its first Equal response or none, then each response whose ID was not marked; for callbacks that may depend on the whole history. |
| Correlation.CutIsUnique | batch.go:78-104 | That specification leaves no freedom: it determines the callbacks. |
| Correlation.EventsExactly | batch.go:78-104 | The declared list itself: for each request in order its first Equal response or none, then each response whose ID was not marked, in order. |
| Correlation.OccurrencesExactly | batch.go:78-104 | Over any batches, a response is reported once for each request whose lookup found it, and once more exactly when its ID was never marked. |
| Correlation.DroppedExactly | batch.go:85-100 | A response is never reported if and only if its ID is Go-equal to a matched one and no request's lookup found it. |
| Correlation.DuplicateResponseIsDropped | batch.go:85-100 | Two responses with one ID and one request: a single callback. |
| Correlation.NoSharedResponse | batch.go:78-104 | With distinct IDs, two requests never find the same response. |
| Correlation.MarkedIffFound | batch.go:85-100 | With distinct response IDs, marking by Go equality marks just the responses that Equal found. |
| Correlation.EachResponseOnce | batch.go:78-104 | With distinct IDs on each side, every response is reported exactly once. |
| Correlation.EventCount | batch.go:78-104 | The number of callbacks is requests plus responses less matches. |
| Batches.Batch.Add | batch.go:115-117 | Appends, keeping order. |
| Batches.Batch.Index | batch.go:160-171 | Returns the lookup function's value; the zero ID is never found. |
| Batches.IndexOfIsFirstMatch | batch.go:160-171 | The lookup gives the first position whose ID is Equal, and -1 if and only if there is none. |
| Batches.Batch.Contains | batch.go:143-145 | True if and only if some entry's ID is Equal. |
| Batches.Batch.Get | batch.go:186-193 | The first Equal entry, or none. |
| Batches.Batch.Delete | batch.go:212-223 | Removes the first Equal entry and returns it, moves the rest up in order, and changes nothing when there is none. |
| Batches.Batch.Reset | batch.go:228-234 | Leaves the batch empty. |
| Batches.DeleteForgets | batch.go:212-223 | With distinct IDs, a deleted ID is not found again. |
| Batches.DeleteKeepsOthers | batch.go:212-223 | After a delete, every other lookup finds the same entry as before. |
| Batches.DeleteUndoesAdd | batch.go:115-117 | Adding a new ID and deleting it restores the batch. |
| Numerals.ParsePrinted | id.go:232-247 | Parsing the text of any int64 gives it back, and that text is a JSON number literal. |
| Numerals.ParsesExactly | id.go:232-247 | A text parses as n if and only if it is a sign, any zeros and the digits of n, where zero may have either sign. |
| Numerals.ParseInjective | id.go:232-247 | Base-10 int64 parsing is injective on JSON number literals other than -0. |
| Numerals.ParsedLiteralIsCanonical | id.go:232-247 | A JSON number literal that parses as an int64 has no fraction, exponent or superfluous zero. |
| Ids.EqualSymmetric | id.go:83-117 | Equal is symmetric on all IDs. |
| Ids.EqualReflexiveIffPresent | id.go:83-117 | Equal is reflexive exactly on present IDs. |
| Ids.EqualExactly | id.go:83-117 | Present IDs are Equal if and only if both are null, the same string, the same int64 or the same number text, or one is an int64 and the other a text that parses as it. |
| Ids.EqualTransitiveExactly | id.go:83-117 | For two Equal steps, the third holds except exactly when an int64 links two different literals. |
| Ids.NegativeZeroBreaksTransitivity | id.go:83-117 | The literals -0 and 0 are linked by the integer 0 but not Equal. |
| Ids.EqualIsSameDenotation | id.go:83-117 | On IDs whose literals are JSON numbers other than -0, Equal holds if and only if both are present and denote the same string, null, integer or non-integer literal. |
| Ids.EqualTransitive | id.go:83-117 | On those IDs Equal is transitive. |
| Ids.IdField.UnmarshalJSON | id.go:252-278 | The new fields as a function of the old ones and the JSON value; an error changes nothing. |
| Ids.MarshalRoundTrip | id.go:252-296 | Decoding what an ID encodes to gives an Equal ID, for exactly the present IDs other than the empty number. |
| Ids.MarshalExactly | id.go:283-296 | Exactly the non-empty number texts that are not JSON literals fail to encode; exactly the zero and the null ID encode to null. |
| Ids.ReusedFieldIsNullExactly | id.go:252-278 | After any sequence of decodes into one field, it is the null ID if and only if null was among them and no string or number was, and it is the zero ID if and only if all failed. |
| Clients.Client.NextID | client.go:72-74 | The n-th call returns the n-th ID of the wrapping counter. |
| Clients.IssuedCountsUp | client.go:67-74 | The first ID is one more than where the counter stood, and each is one more than the one before, wrapping to 0 after 2^32 - 1. |
| Clients.IssuedRepeatsExactly | client.go:67-74 | From any start, two issued IDs coincide if and only if a multiple of 2^32 calls lies between them. |
| Clients.BatchBuilder.Add | batchbuilder.go:87-105 | Draws one ID and appends one entry with it, or on bad parameters changes neither the batch nor the counter. |
| Clients.BatchBuilder.EntriesDistinct | batchbuilder.go:94-96 | Entries drawn within one cycle have pairwise distinct IDs, however many IDs other callers drew in between. |
| Clients.BatchBuilder.OthersMayCall | client.go:72-74 | IDs drawn by other callers between two Adds leave the builder's invariant intact. |
| Rpc.RunSerialBatch | rpcserver.go:270-277 | The serial loop yields the reference list of replies. |
| Rpc.SilentBatch | rpcserver.go:270-277 | That list is empty if and only if no element is answered. |
| Rpc.SerialRepliesPointwise | rpcserver.go:270-277 | When all elements are answered, the list is their replies position by position. |
| Rpc.DispatchExactly | rpcserver.go:318-331 | A message is handled by its first character that is no white space: as the one object it decodes to, a batch split in order, or a parse error. |
| Rpc.TrimLeftStops | typehint.go:40-48 | Trimming stops at the first character that is no white space. |
| FanOut.ConcurrentRefinesSerial | rpcserver.go:278-305 | In every interleaving: nothing is encoded before all goroutines are done, and what is encoded, once, is a permutation of the serial list; nothing at all when that list is empty. |
| FanOut.NoDeadlock | rpcserver.go:278-305 | Until the batch returns, some step is possible. |
| FanOut.EveryRunEnds | rpcserver.go:278-305 | Every interleaving has at most 7 steps per element and 2 more, and stops only when the batch has returned. |
| Pairing.LookupFindsOwn | batch.go:82-92 | However the responses are ordered, each request's lookup finds its own. |
| Pairing.AnyOrderPairs | batch.go:78-104 | For any permutation of the replies, correlation reports each request once, with its own response, and nothing else. |
| Pairing.EndToEnd | batchbuilder.go:87-105 | A batch built within one counter cycle, handled by any interleaving of the server's goroutines, correlates perfectly: one event per request, with the reply that says what that very element's handler did, and no other. |
| BatchInRun.FinishedBatchMayBeProduced | rpcserver.go:242-306 | What a finished batch encodes is what the run machine allows for its message. |
| RunLoop.EachMessageAnsweredOnce | rpcserver.go:378-464 | In every run a message causes at most one EncodeTo, with its reference payload up to the order of a concurrent batch; when Run has returned, exactly one if a reply is due and none otherwise. |
| RunLoop.ShutdownIsOrderly | rpcserver.go:387-407 | In every run: the stop comes before Close, no EncodeTo after Close, and OnExit is the last event of all, once, after every handler; Run has returned if and only if it was called. |
| RunLoop.UnansweredExactly | rpcserver.go:183-226 | In every run that has returned, the messages without an EncodeTo are exactly those left without an ID by handlers that did not panic, batches of nothing else, empty messages and errors that end the loop unanswered. |
| RunLoop.EncodedTells | rpcserver.go:183-332 | In every run, what is encoded for a message says what became of it: an array has, for each element that is not silent, one reply with the handler's result, error or own reply, in order if the batch is serial; and each refusal has its code, text and null ID. |
| RunLoop.RepliesBelongToElements | rpcserver.go:194-306 | In every run, each reply encoded for a message is the reply to one of its elements and says what its handler did; unless the handler supplied the reply, it carries that element's ID if and only if the handler left the ID alone. |
| RunLoop.ShieldedHandlersFinishFirst | rpcserver.go:389-395 | With WaitOnClose, or without goroutines, no handler is at work and nothing is encoded once the context is stopped. |
| RunLoop.HandlersSeeStopExactly | rpcserver.go:387-395 | A run in which a handler is at work after the stop exists if and only if Run uses goroutines and WaitOnClose is off. |
| RunLoop.NoDeadlock | rpcserver.go:378-464 | Unless Run has returned, or waits for input with no handler left, some step is possible. |
| RunLoop.EveryRunEnds | rpcserver.go:378-464 | Every run over finite input has at most 5 steps per message and 5 more, and stops exactly when Run has returned or waits for input with no handler left. |
| RunLoop.EveryReturnReports | rpcserver.go:410-463 | Run stops at the first message that ends the loop and reports its error joined with those of the context and the close; without goroutines it has encoded the serial reference in input order. |
| RunLoop.LastTakenExactly | rpcserver.go:416-445 | In every run that has returned, a message is the last one taken if and only if it is a decoding error that is a syntax error on a stream, or neither a syntax error nor a type error. |
| RunLoop.ReportMatches | rpcserver.go:397-400 | The error reported then matches a sentinel if and only if that error, the context's or the close's does. |
| RunLoop.RunSynchronously | rpcserver.go:410-463 | The loop run synchronously encodes the serial reference of the messages up to the first that ends it, and returns that joined error. |
| HttpHandler.ServeHTTP | httphandler.go:90-164 | Status, content type and body written are those due for the request's content type, the body's messages, the replies that encode, and the errors. |
| HttpHandler.ResponseExactly | httphandler.go:91-163 | Which of 200, 204, 413, 415 and 500 is sent, with which content type and body, as a condition on the request's content type and the errors that end the run. |
| HttpHandler.BufferedTells | httphandler.go:107-128 | The buffered replies are, in input order, those of the messages that have one that encodes, and each says what became of its message. |
| HttpHandler.FirstSyntaxErrorEnds | httphandler.go:107-128 | The first syntax error, if nothing but type errors came before, is the last message taken from a body. |
| HttpHandler.NoContentExactly | httphandler.go:155-163 | 204 if and only if the content type is JSON, one of the three joined errors is EOF, and every message of the body was left unanswered or had a reply that does not encode. |
| HttpHandler.RepliesKeptExactly | httphandler.go:131-163 | The buffered replies are all sent, or none is; they are sent exactly when one of the errors of body, context and close is EOF, or one is a truncation and none an excess of size. |
| HttpHandler.SyntaxErrorDropsReplies | httphandler.go:149-153 | A body that ends in a syntax error gets 500 and no reply, although Run encoded one for it. |
| HttpHandler.MachineAgrees | httphandler.go:112-128 | Every run of the concurrent machine in this configuration encodes what the synchronous loop does. |
| HttpBridge.HTTPBridge.Encode | httpbridge.go:83-132 | Replaces all that the bridge stored by the new response, or by nothing; a closed bridge is left alone and answers EOF. |
| HttpBridge.HTTPBridge.Decode | httpbridge.go:150-179 | Delivers the stored body, or the error of exactly one of five disjoint conditions. |
| HttpBridge.HTTPBridge.Close | httpbridge.go:65-70 | Sets closed and keeps the rest. |
| HttpBridge.DecodeIsFresh | httpbridge.go:65-179 | After any sequence of operations, a Decode delivers bytes if and only if the bridge was never closed and the most recent Encode stored those bytes. |
| HttpBridge.DecodeFailsExactly | httpbridge.go:65-179 | After any sequence of operations, why a Decode fails, by what the most recent Encode met: its status, content type and body. |
| TransportClients.TransportClient.RoundTrip | transportclient.go:74-100 | Which call reaches the peer, which reply is taken, and the first error among context, encode and decode. |
| TransportClients.TransportClient.Call | transportclient.go:123-137 | The error of the round trip, or what the reply read unmarshals to. |
| TransportClients.TransportClient.CallBatch | transportclient.go:163-187 | A fresh batch with the responses of the reply read; a lone object becomes a batch of one. |
| TransportClients.ReadBatchExactly | transportclient.go:170-185 | A reply that begins with a brace is read as one response, any other as a list, and an unmarshalling error is reported as it is. |
| TransportClients.TransportClient.Notify | transportclient.go:258-264 | Leaves the stream as it was. |
| TransportClients.OwnReplyExactly | transportclient.go:74-100 | After any history, a successful call gets its own reply if and only if no earlier call left a reply unread; in general it gets the reply of that many calls before. |
| TransportClients.StaleReply | transportclient.go:74-100 | A call that times out before its reply is read, and the next call gets that reply. |
| TransportClients.RepeatingCodecsKeepPairing | transportclient.go:74-100 | With codecs that repeat their first I/O error, every successful call gets its own reply after any history. |
| TransportClients.OnlyFailuresLeaveReplies | transportclient.go:74-100 | If every earlier call succeeded, no reply was left. |
| TransportClients.AnsweredBatch | transportclient.go:163-187 | When the client reads back the text of an answered batch, whatever the order of its replies, the responses correlate perfectly. |
| TransportClients.RefusedExactly | rpcserver.go:242-306 | For a non-empty batch with numbered requests, whatever the server decodes from it and whatever payload it may encode: when the client reads that text back, correlation reports every request unanswered and then one unrequested response if and only if the batch was refused, and that response is an error with a null ID. |
| TransportClients.TruncatedBatch | rpcserver.go:416-441 | A batch of one request whose datagram arrives truncated is so refused. |
| ClientPools.NewClientPoolWithDialer | clientpool.go:129-205 | Rounds allowed are max(Retries, 1) + 1; the timer is armed for the idle timeout if that is positive; with AcquireOnCreate exactly one connection was dialled and is idle; any error leaves no client. |
| ClientPools.ClientPool.ReleaseMaybeRetry | clientpool.go:247-272 | Success releases and any error destroys, never both; retry if and only if the error is a connection error and not a context error. |
| ClientPools.ClientPool.Round | clientpool.go:296-312 | One round: what it reports, whether it asks for another, and that what it takes it disposes of once. |
| ClientPools.ClientPool.WithRetries | clientpool.go:293-494 | The loop of all six operations: its result, the number of connections used, and the exact sequence of calls on the pool, each connection taken and at once disposed of. |
| Retries.LoopIsExpected | clientpool.go:293-318 | The loop, for every environment, gives the verdict of the first round that asks for no other, or ErrRetriesExceeded joined with the last error. |
| Retries.OperationExactly | clientpool.go:293-494 | For every environment: the operation goes on exactly while a connection breaks, in an error tree with an end of file or closed connection and no context error; the first other round decides its result, error and connections; if all break, the error matches ErrRetriesExceeded and what the last one matches. |
| Retries.RetryableExactly | clientpool.go:255-265 | An error is retried if and only if neither context error occurs in its tree and one of the four connection errors does. |
| ClientPools.RoundsExactly | clientpool.go:247-272 | Every connection used is taken and at once released after success or destroyed after an error, and nothing else is called. |
| Retries.ExhaustedExactly | clientpool.go:293-318 | At most the allowed number of connections is used, and ErrRetriesExceeded is reported if and only if every allowed round asked for another. |
| Retries.SucceedsExactly | clientpool.go:293-318 | A response is returned if and only if some allowed round produced it and all rounds before it asked for another. |
| Retries.CancelledIsNotRetryable | clientpool.go:256-262 | An error that contains, anywhere, the join made for a done context is never retried, whatever else it contains. |
| Retries.CancelledRoundIsLast | clientpool.go:256-262 | Such a round is the last, and its error is what the caller gets. |
| ClientPools.ClientPool.ReapIdle | clientpool.go:175-202 | One pass: exactly the connections idle for the timeout when examined are destroyed and the others stay idle with their last use unchanged, each disposed of once; the next wait lies in (0, IdleTimeout], ends no later than any survivor's timeout, and is as long as that allows. |
| ClientPools.AfterAllIsExact | clientpool.go:183-201 | The same of the loop over any idle connections and any clock. |
| ClientPools.ClientPool.Close | clientpool.go:215-232 | Closes the resource pool on the first call only and leaves the timer stopped. |
| ReaperClock.IdleBound | clientpool.go:175-202 | In every run, no connection stays unused longer than the timeout, the lateness of a tick and two passes. |
| ReaperClock.InstantPassBound | clientpool.go:175-202 | When passes take no time, the next tick is never later than any connection's timeout, and the bound is the timeout and the lateness. |
| ReaperClock.ReapedOnlyAfterTimeout | clientpool.go:188-198 | Over whole runs: a connection the reaper removes was released at least the timeout ago and nobody has used it since. |
| ReaperClock.BoundIsTight | clientpool.go:175-202 | For every timeout, lateness and pass time there is a run that attains the timeout, the lateness and two passes. |
| ReaperClock.BoundsExactly | clientpool.go:175-202 | A bound holds in every run if and only if it is at least that; the timeout and the lateness suffice if and only if passes take no time. |
| CloseRace.NeverRearmedAfterClose | clientpool.go:176-201 | In every interleaving, no step arms the timer once closed is set. |
| CloseRace.ReaperIsOutBeforePoolClose | clientpool.go:215-232 | From when a caller is about to close the resource pool on, the timer is off and the reaper holds and takes nothing. |
| CloseRace.PoolClosedOnce | clientpool.go:215-232 | With or without an idle timer and however many callers, the resource pool's close is entered at most once, and once when all have returned. |
| CloseRace.NoDeadlock | clientpool.go:175-232 | While a callback or a caller of Close has not finished, some step is possible. |
| CrossTalk.NoCrossTalk | clientpool.go:293-318 | Over all interleavings of callers, errors, retries and peer: a call that returns a reply returns the one to its own message, and an idle connection has no reply outstanding or unread. |
| CrossTalk.ExclusiveUse | clientpool.go:302-312 | No two attempts ever use one connection at once. |
| CrossTalk.BrokenIsNeverReused | clientpool.go:247-272 | A connection on which anything failed stays with its attempt until destroyed, and never comes back. |
| CrossTalk.ErrorMeansDestroyed | clientpool.go:247-272 | In every run, once anything goes wrong in an attempt it returns nothing, and its connection stays its own until destroyed. |
| CrossTalk.NoConnectionLeaks | clientpool.go:293-318 | In every run, each connection is idle, gone or in use by an attempt under way on it. |
| CrossTalk.AttemptProceeds | clientpool.go:293-318 | An attempt under way, or the peer on its connection, can always take a step, without any error. |
| Cancellation.ActsOnlyInsideItsCall | decoder.go:132-191 | In every run, a call's deadline or close action executes only while that call is inside, and only after its own context is done. |
| Cancellation.NoStaleDeadline | encoder.go:89-148 | Once a call has cleared the deadline, until it returns only its own context can have set it, and it is set exactly when the call's own function has acted. |
| Cancellation.ClosedForGood | decoder.go:162-173 | A transport without deadlines is closed exactly when some call's function has acted, and then for good. |
| Cancellation.OnlyEndedContextsClose | decoder.go:162-173 | In every run, only a transport without deadlines is closed, and only by a call whose own context has ended. |
| Cancellation.SuccessClosesExactly | decoder.go:132-191 | A run in which a call returns no error and has closed its transport exists if and only if the transport has no deadlines. |
| Cancellation.ReturnedCallsAreInert | decoder.go:160-191 | After a call has returned, its function neither starts, acts nor ends. |
| Cancellation.CancelledCallIsNotRetried | decoder.go:180-191 | A call whose I/O failed with its context done returns an error that no retry loop retries, however it is wrapped. |
| Cancellation.AnswersExactly | decoder.go:176-190 | Over whole runs: a call answers nothing if and only if its I/O succeeded; otherwise its error matches exactly what the I/O error matches and, if its context had ended, what that error matches. |
| Cancellation.ClearingErrorIsAnswered | decoder.go:142-149 | A call that cannot clear the deadline answers with that error and registers nothing. |
| Cancellation.EndedContextInterrupts | decoder.go:162-173 | A call whose context ends during its I/O is interrupted. |
| Cancellation.WaitingCallProceeds | decoder.go:160-191 | A call that waits for its own function never waits for ever. |
| ReadLimit.StreamDecoder.SetLimit | decoder.go:80-92 | Installs the limit and discards what was buffered. |
| ReadLimit.StreamDecoder.Decode | decoder.go:196-214 | With limit n: at most n bytes are drawn, no value longer than 2n is accepted; unless a read fails, the object or array that comes next is accepted if and only if it is no longer than n and what was buffered, and a bare number, string or literal is accepted whole if it is that short, accepted cut there if the cut is a value, and refused otherwise; ErrJSONTooLarge means that exactly n bytes were drawn, unless it is the reader's own error. Whatever is accepted is a value to the scanner; and unless a read fails, the verdict on all that is within reach decides: value, syntax error, too large, end of file or truncation. |
| ReadLimit.CutNumber | decoder.go:117-128 | Digits longer than the limit are accepted as two numbers by two Decodes. |
| ReadLimit.StreamDecoder.DecodeMany | decoder.go:196-214 | k Decodes draw at most k times n bytes, and no byte is lost or reordered. |
| ReadLimit.BracketsAreLawful | decoder.go:196-214 | The assumptions on the wrapped JSON decoder can be met: a scanner that balances brackets outside strings meets them. |
| ServePacket.SendNeverBlocks | server.go:358-390 | For any number of routines and any schedule, a routine ready to send its error can, and the channel is closed only when all have finished. |
| ServePacket.FirstExitCancels | server.go:358-390 | Once any routine has exited, the shared context is cancelled. |
| ServePacket.ReturnsExactly | server.go:358-390 | Over whole runs: every routine's server has ended, and the result matches an error if and only if the cause of the cancellation or the error of one of them does. |
| ServePacket.ReturnsEveryError | server.go:358-390 | Exactly one error of each routine went through the channel and into the result. |
| ServePacket.FirstCauseWins | server.go:354-368 | The cause is that of the first cancellation, by a routine's exit or from outside, whatever follows. |
| ServePacket.NoDeadlock | server.go:358-390 | Until ServePacket returns, some step is possible. |
| ServePacket.EveryRunEnds | server.go:358-390 | Apart from cancellations from outside, every run has at most 6 steps per routine and 3 more, and stops exactly when ServePacket has returned. |

## Left out

- JSON text beyond number literals and the first-byte dispatch belongs to a pluggable library. Decoding and encoding are functions that the theorems quantify over; where a theorem needs a text to be read back as what was written, it assumes so for that one payload (`TransportClients.ReadsBack`).
- `bytes.TrimSpace` is modelled on decoded characters; bytes that are not UTF-8 are not modelled.
- The resource pool library is an assumed contract (`ResourcePool.Pool`), without its limit on connections, its blocking and the generations behind `ClientPool.Reset`.
- ReaperClock.IdleBound: a Create step makes a connection of a number not in use; acquisition that waits for a free slot is not part of this model.
- Pairing.EndToEnd: assumes the server's library decodes what the client's encodes, and excludes handlers that supply their own reply or change the ID of the request they are handed, which need not answer under the request's ID.
- HttpHandler.ServeHTTP: each reply is taken to encode whole or to leave nothing in the buffer, as a JSON encoder on a memory buffer does; of the headers only the content type is modelled.
- RunLoop.EachMessageAnsweredOnce: counts calls of EncodeTo; whether one succeeds is for the encoder, and its error only reaches a callback.
- CrossTalk.NoCrossTalk: assumes a peer that answers each call once, in the order written, and no notification. The invariant shows that at most one call is outstanding on a connection in use, so the order among several replies never comes into play.
- ReadLimit.StreamDecoder.Decode: sizes are in characters of the input.
- `MethodMux`, `Callbacks`, `Binder`, `Params`, `Data`, `Result`, `Version`, the timeout and raw wrappers, `Client.Call` and `Client.Notify`: thin accessors that would add only easy members.
- ClientPools.NewClientPoolWithDialer: dialling is an error or a success; the dial timeout and the limit on connections are left out.
- TransportClients.RepeatingCodecsKeepPairing: that `encoding/json` repeats its first I/O error is a fact about that library and is assumed, not proved.
- Dialling, `Server.Serve`, listeners, TLS and the internals of net/http: I/O plumbing.
- Packet encoders and decoders on a connection shared by several routines, whose deadlines have no single owner.
- Pointer casts between requests and notifications, slice capacities, logging, and error text.
- A handler that returns a typed nil `*Response`.
- Durations and instants are unbounded integers, so overflow of a 64-bit duration is not modelled.
