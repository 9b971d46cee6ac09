// One client on one stream: calls are serialised by a mutex, and a reply is taken to belong to
// the call that reads it. When that is so, and what a batch call makes of the reply it reads.

module TransportClients {
  import opened Prelude
  import opened Errors
  import opened Ids
  import opened Batches
  import opened Rpc
  import opened Correlation
  import opened Pairing
  import Clients
  import Retries
  import RunLoop

  // The peer answers the calls that reach it in order, one reply each, and no notification.
  // calls lists the tags of those that reached it; read counts the replies taken off the stream.
  datatype Wire = Wire(calls: seq<nat>, read: nat)

  // How the steps of one call go. A failed Encode may still have reached the peer, and a failed
  // Decode may still have taken a reply off the stream.
  datatype Env = Env(ctxErr: Option<Err>, encodeErr: Option<Err>, reached: bool, decodeErr: Option<Err>, consumed: bool)

  datatype Op = Op(tag: nat, isNotify: bool, env: Env)

  predicate Reaches(op: Op) {
    op.env.ctxErr.None? && !op.isNotify && (op.env.encodeErr.None? || op.env.reached)
  }

  predicate Consumes(op: Op) {
    op.env.ctxErr.None? && op.env.encodeErr.None? && !op.isNotify && (op.env.decodeErr.None? || op.env.consumed)
  }

  function StepError(op: Op): Option<Err> {
    if op.env.ctxErr.Some? then op.env.ctxErr
    else if op.env.encodeErr.Some? then op.env.encodeErr
    else if op.isNotify then None
    else op.env.decodeErr
  }

  function After(w: Wire, op: Op): Wire {
    Wire(if Reaches(op) then w.calls + [op.tag] else w.calls, if Consumes(op) then w.read + 1 else w.read)
  }

  function AfterAll(ops: seq<Op>): Wire {
    if ops == [] then Wire([], 0) else After(AfterAll(ops[..|ops| - 1]), ops[|ops| - 1])
  }

  // The call whose reply is returned.
  function Answered(w: Wire, op: Op): Option<nat> {
    if StepError(op).Some? || op.isNotify || w.read >= |After(w, op).calls| then None
    else Some(After(w, op).calls[w.read])
  }

  type ReadOutcome<+R> = Retries.Outcome<R>

  // The peer's JSON as the client's library reads it: as one response, or as a list of them.
  datatype Parser = Parser(one: string -> ReadOutcome<Response>, many: string -> ReadOutcome<seq<Response>>)

  function ReadBatch(parser: Parser, raw: string): ReadOutcome<seq<Response>> {
    if HintType(raw).TypeObject? then
      match parser.one(raw)
      case Success(response) => Retries.Success([response])
      case Failure(err) => Retries.Failure(err)
    else parser.many(raw)
  }

  // The reply to a batch as the client takes it: an object is one response, anything else a list,
  // and what does not unmarshal is reported.
  lemma ReadBatchExactly(parser: Parser, raw: string, k: nat)
    requires k <= |raw| && (forall j :: 0 <= j < k ==> IsSpace(raw[j])) && (k < |raw| ==> !IsSpace(raw[k]))
    ensures var isObject := k < |raw| && raw[k] == '{';
      && (!isObject ==> ReadBatch(parser, raw) == parser.many(raw))
      && (isObject && parser.one(raw).Success? ==> ReadBatch(parser, raw) == Retries.Success([parser.one(raw).resp]))
      && (isObject && parser.one(raw).Failure? ==> ReadBatch(parser, raw) == Retries.Failure(parser.one(raw).err))
  {
    TrimLeftStops(raw, k);
  }

  ghost function Contents(outcome: ReadOutcome<Batch<Body>>): ReadOutcome<seq<Response>>
    reads if outcome.Success? then {outcome.resp} else {}
  {
    match outcome
    case Success(batch) => Retries.Success(batch.items)
    case Failure(err) => Retries.Failure(err)
  }

  class TransportClient {
    const peer: nat -> string // the text of the reply to each call
    const parser: Parser
    var calls: seq<nat>
    var read: nat

    function Current(): Wire
      reads this
    {
      Wire(calls, read)
    }

    ghost predicate Valid()
      reads this
    {
      read <= |calls|
    }

    constructor (peer: nat -> string, parser: Parser)
      ensures Valid() && Current() == AfterAll([]) && this.peer == peer && this.parser == parser
    {
      this.peer, this.parser := peer, parser;
      calls, read := [], 0;
    }

    // The mutex is held throughout, so calls by different goroutines are totally ordered.
    method RoundTrip(op: Op) returns (reply: Option<nat>, err: Option<Err>)
      requires Valid()
      modifies this
      ensures Valid() && Current() == After(old(Current()), op)
      ensures err == StepError(op) && reply == Answered(old(Current()), op)
      ensures err.None? && !op.isNotify ==> reply.Some?
      // the first step that fails decides, and none after it is taken
      ensures op.env.ctxErr.Some? ==> err == op.env.ctxErr && Current() == old(Current())
      ensures op.env.ctxErr.None? && op.env.encodeErr.Some? ==> err == op.env.encodeErr && read == old(read)
      ensures op.env.ctxErr.None? && op.env.encodeErr.None? && op.isNotify ==> err.None? && Current() == old(Current())
      ensures op.env.ctxErr.None? && op.env.encodeErr.None? && !op.isNotify ==>
        err == op.env.decodeErr && calls == old(calls) + [op.tag]
    {
      if op.env.ctxErr.Some? {
        return None, op.env.ctxErr;
      }
      if !op.isNotify && (op.env.encodeErr.None? || op.env.reached) {
        calls := calls + [op.tag];
      }
      if op.env.encodeErr.Some? {
        return None, op.env.encodeErr;
      }
      if op.isNotify {
        return None, None;
      }
      if op.env.decodeErr.Some? {
        read := if op.env.consumed then read + 1 else read;
        return None, op.env.decodeErr;
      }
      read := read + 1;
      return Some(calls[read - 1]), None;
    }

    method Call(tag: nat, env: Env) returns (outcome: ReadOutcome<Response>)
      requires Valid()
      modifies this
      ensures Valid() && Current() == After(old(Current()), Op(tag, false, env))
      ensures outcome ==
        match StepError(Op(tag, false, env))
        case Some(e) => Retries.Failure(e)
        case None => parser.one(peer(Answered(old(Current()), Op(tag, false, env)).value))
    {
      var reply, err := RoundTrip(Op(tag, false, env));
      if err.Some? {
        return Retries.Failure(err.value);
      }
      outcome := parser.one(peer(reply.value));
    }

    method CallBatch(tag: nat, env: Env) returns (outcome: ReadOutcome<Batch<Body>>)
      requires Valid()
      modifies this
      ensures Valid() && Current() == After(old(Current()), Op(tag, false, env))
      ensures outcome.Success? ==> fresh(outcome.resp)
      ensures Contents(outcome) ==
        match StepError(Op(tag, false, env))
        case Some(e) => Retries.Failure(e)
        case None => ReadBatch(parser, peer(Answered(old(Current()), Op(tag, false, env)).value))
    {
      var reply, err := RoundTrip(Op(tag, false, env));
      if err.Some? {
        return Retries.Failure(err.value);
      }
      var raw := peer(reply.value);
      var batch := new Batch<Body>();
      if HintType(raw).TypeObject? {
        match parser.one(raw) {
          case Success(response) =>
            batch.Add([response]);
            assert batch.items == [response];
          case Failure(e) => return Retries.Failure(e);
        }
      } else {
        match parser.many(raw) {
          case Success(responses) =>
            batch.Add(responses);
            assert batch.items == responses;
          case Failure(e) => return Retries.Failure(e);
        }
      }
      return Retries.Success(batch);
    }

    method Notify(tag: nat, env: Env) returns (err: Option<Err>)
      requires Valid()
      modifies this
      ensures Valid() && err == StepError(Op(tag, true, env)) && Current() == old(Current())
    {
      var _, failure := RoundTrip(Op(tag, true, env));
      err := failure;
    }
  }

  // A call that reached the peer and left its reply, or another's, unread.
  predicate LeavesReply(op: Op) { Reaches(op) && !Consumes(op) }

  function Left(ops: seq<Op>): nat {
    if ops == [] then 0 else Left(ops[..|ops| - 1]) + if LeavesReply(ops[|ops| - 1]) then 1 else 0
  }

  lemma {:induction false} OutstandingReplies(ops: seq<Op>)
    ensures |AfterAll(ops).calls| == AfterAll(ops).read + Left(ops)
    ensures forall j :: 0 <= j < |AfterAll(ops).calls| ==>
      exists k :: 0 <= k < |ops| && ops[k].tag == AfterAll(ops).calls[j]
  {
    if ops != [] {
      var n := |ops| - 1;
      OutstandingReplies(ops[..n]);
      forall j | 0 <= j < |AfterAll(ops).calls|
        ensures exists k :: 0 <= k < |ops| && ops[k].tag == AfterAll(ops).calls[j]
      {
        if j < |AfterAll(ops[..n]).calls| {
          var k :| 0 <= k < n && ops[..n][k].tag == AfterAll(ops[..n]).calls[j];
          assert ops[k].tag == AfterAll(ops).calls[j];
        } else {
          assert ops[n].tag == AfterAll(ops).calls[j];
        }
      }
    }
  }

  // After any history, a call that succeeds returns the reply to its own message exactly when
  // no earlier call left a reply unread; in general it returns a reply that many calls old.
  lemma OwnReplyExactly(ops: seq<Op>, op: Op)
    requires !op.isNotify && StepError(op).None? && forall k :: 0 <= k < |ops| ==> ops[k].tag != op.tag
    ensures Answered(AfterAll(ops), op) == Some(op.tag) <==> Left(ops) == 0
    ensures Left(ops) <= |AfterAll(ops).calls|
    ensures Answered(AfterAll(ops), op) == Some((AfterAll(ops).calls + [op.tag])[|AfterAll(ops).calls| - Left(ops)])
  {
    OutstandingReplies(ops);
    var w := AfterAll(ops);
    AnswersNextUnread(w, op);
    if w.read < |w.calls| {
      assert (w.calls + [op.tag])[w.read] == w.calls[w.read];
    }
  }

  lemma AnswersNextUnread(w: Wire, op: Op)
    requires !op.isNotify && StepError(op).None? && w.read <= |w.calls|
    ensures Answered(w, op) == Some((w.calls + [op.tag])[w.read])
  {}

  lemma {:induction false} NothingLeft(ops: seq<Op>)
    requires forall k :: 0 <= k < |ops| ==> !LeavesReply(ops[k])
    ensures Left(ops) == 0
  {
    if ops != [] { NothingLeft(ops[..|ops| - 1]); }
  }

  // Only calls that fail leave replies, so a client given up at its first error never sees one.
  lemma OnlyFailuresLeaveReplies(ops: seq<Op>)
    requires forall k :: 0 <= k < |ops| ==> StepError(ops[k]).None?
    ensures Left(ops) == 0
  {
    NothingLeft(ops);
  }

  // The input on which a caller gets another's reply: the first call gives up before its reply
  // has been read, and the next reads that reply.
  lemma StaleReply(timeout: Err)
    ensures var quiet := Env(None, None, false, None, false);
      var ops, op := [Op(1, false, quiet.(decodeErr := Some(timeout)))], Op(2, false, quiet);
      StepError(op).None? && Answered(AfterAll(ops), op) == Some(1)
  {
    var quiet := Env(None, None, false, None, false);
    var ops := [Op(1, false, quiet.(decodeErr := Some(timeout)))];
    assert AfterAll(ops[..0]) == Wire([], 0);
    assert AfterAll(ops) == After(AfterAll(ops[..0]), ops[0]);
  }

  predicate WriteFailed(op: Op) { op.env.ctxErr.None? && op.env.encodeErr.Some? }

  predicate ReadFailed(op: Op) {
    op.env.ctxErr.None? && op.env.encodeErr.None? && !op.isNotify && op.env.decodeErr.Some?
  }

  // Codecs that repeat their first I/O error, as those of encoding/json do as long as clearing a
  // deadline does not fail: once a message has failed on its way out, every later one fails and
  // stays behind, and once a read has failed, every later read does. A message that does not
  // encode at all has no such effect.
  ghost predicate RepeatsErrors(ops: seq<Op>) {
    forall i, j :: 0 <= i < j < |ops| ==> Repeats(ops[i], ops[j])
  }

  predicate Repeats(earlier: Op, later: Op) {
    && (WriteFailed(earlier) && earlier.env.reached && later.env.ctxErr.None? ==>
          later.env.encodeErr.Some? && !later.env.reached)
    && (ReadFailed(earlier) && later.env.ctxErr.None? && later.env.encodeErr.None? && !later.isNotify ==>
          later.env.decodeErr.Some? && !later.env.consumed)
  }

  // With such codecs every call that succeeds gets its own reply, whatever failed before.
  lemma RepeatingCodecsKeepPairing(ops: seq<Op>, op: Op)
    requires RepeatsErrors(ops + [op])
    requires !op.isNotify && StepError(op).None? && forall k :: 0 <= k < |ops| ==> ops[k].tag != op.tag
    ensures Answered(AfterAll(ops), op) == Some(op.tag)
  {
    OwnReplyExactly(ops, op);
    var all := ops + [op];
    forall k | 0 <= k < |ops| ensures !LeavesReply(ops[k]) {
      assert Repeats(all[k], all[|ops|]);
    }
    NothingLeft(ops);
  }

  // The text of this payload is an object or an array, as it should be, and the client's library
  // reads back what was written.
  predicate ReadsBack(encode: Payload -> string, parser: Parser, p: Payload)
    requires AllRespond(Replies(p))
  {
    match p
    case One(_) => HintType(encode(p)).TypeObject? && parser.one(encode(p)) == Retries.Success(Received(Replies(p)[0]))
    case Many(replies) =>
      HintType(encode(p)).TypeArray? && parser.many(encode(p)) == Retries.Success(AllReceived(replies))
  }

  function AllUnanswered(n: nat): seq<Event> { seq(n, i requires 0 <= i < n => Unanswered(i)) }

  // What the server decodes when a batch of these requests is sent: an array with one element for
  // each, which may or may not decode; a message it refuses as a whole; or a decoding error that
  // it answers.
  ghost predicate DecodedFrom(requests: seq<Request>, d: RunLoop.Decoded) {
    match d
    case Arrived(Elements(objs)) => objs == [] || AllArriveOrNot(requests, objs)
    case Arrived(m) => m.Unsplit? || m.NotContainer?
    case DecodeError(err, _) => RunLoop.IsAnswered(err)
    case EmptyMessage => false
  }

  ghost predicate AllArriveOrNot(requests: seq<Request>, objs: seq<Element>) {
    |objs| == |requests| && forall i :: 0 <= i < |objs| ==> objs[i].Malformed? || Arrives(requests[i], objs[i])
  }

  predicate HasElements(d: RunLoop.Decoded) { d.Arrived? && d.message.Elements? && d.message.objs != [] }

  // No element is handled, and one object or one array entry says so.
  predicate IsRefused(d: RunLoop.Decoded) {
    HasElements(d) ==> |d.message.objs| == 1 && d.message.objs[0].Malformed?
  }

  // Every request is reported unanswered, followed by one response that nobody requested.
  ghost predicate NobodyAnswered(requests: seq<Request>, responses: seq<Response>) {
    AllEvents(requests, responses) == AllUnanswered(|requests|) + [Unrequested(0)]
  }

  predicate AllNumbered(requests: seq<Request>) {
    forall i :: 0 <= i < |requests| ==> requests[i].id.present && requests[i].id.value.Integer?
  }

  predicate AllNull(responses: seq<Response>) {
    forall j :: 0 <= j < |responses| ==> responses[j].id == NULL_ID
  }

  // Responses with a null ID match no numbered request, so each is reported as unrequested.
  lemma NullMatchesNobody(requests: seq<Request>, responses: seq<Response>)
    requires AllNumbered(requests) && AllNull(responses)
    ensures |AllEvents(requests, responses)| == |requests| + |responses|
    ensures |responses| == 1 ==> NobodyAnswered(requests, responses)
  {
    forall i | 0 <= i < |requests| ensures IndexOf(responses, requests[i].id) == -1 {
      IndexOfIsFirstMatch(responses, requests[i].id);
    }
    var marked := Marked(requests, responses, |requests|);
    assert marked == {};
    UnrequestedCount(responses, marked, |responses|);
    assert (set j: nat | j < |responses| && responses[j].id in marked) == {};
    assert RequestEvents(requests, responses, |requests|) == AllUnanswered(|requests|);
    if |responses| == 1 {
      assert ResponseEvents(responses, marked, 1) == ResponseEvents(responses, marked, 0) + [Unrequested(0)];
    }
  }

  // A request whose own response is there, wherever it is, is not reported unanswered.
  lemma AnsweredIsReported(requests: seq<Request>, responses: seq<Response>, i: nat, j: nat)
    requires i < |requests| && j < |responses| && Answers(requests[i], responses[j])
    ensures !NobodyAnswered(requests, responses)
  {
    TravelledInteger(requests[i].id);
    IndexOfIsFirstMatch(responses, requests[i].id);
    assert requests[i].id.Equal(responses[j].id);
    assert AllEvents(requests, responses)[i] == RequestEvent(requests, responses, i);
    assert (AllUnanswered(|requests|) + [Unrequested(0)])[i] == Unanswered(i);
  }

  // Every element, malformed or not, has one reply of the server's own making.
  lemma ElementReply(request: Request, e: Element)
    requires e.Malformed? || Arrives(request, e)
    ensures HandleRequest(e).Some? && HandleRequest(e).value.Respond?
    ensures e.Malformed? ==> Received(HandleRequest(e).value).id == NULL_ID
    ensures !e.Malformed? ==> Answers(request, Received(HandleRequest(e).value))
  {
    if !e.Malformed? { ReplyOf(request, e); }
  }

  // Each reply sent is that of one element, and each element's reply is sent.
  lemma ReplySource(requests: seq<Request>, objs: seq<Element>, replies: seq<Reply>, j: nat) returns (k: nat)
    requires AllArriveOrNot(requests, objs) && multiset(replies) == multiset(SerialReplies(objs)) && j < |replies|
    ensures k < |objs| && HandleRequest(objs[k]) == Some(replies[j])
  {
    assert replies[j] in multiset(replies);
    var e := SerialReplyOf(objs, replies[j]);
    k :| 0 <= k < |objs| && objs[k] == e;
  }

  lemma ReplySent(requests: seq<Request>, objs: seq<Element>, replies: seq<Reply>, k: nat) returns (j: nat)
    requires AllArriveOrNot(requests, objs) && multiset(replies) == multiset(SerialReplies(objs)) && k < |objs|
    ensures j < |replies| && HandleRequest(objs[k]) == Some(replies[j])
  {
    AllReplied(requests, objs);
    assert SerialReplies(objs)[k] in multiset(SerialReplies(objs));
    assert SerialReplies(objs)[k] in multiset(replies);
    j :| 0 <= j < |replies| && replies[j] == SerialReplies(objs)[k];
  }

  lemma AllReplied(requests: seq<Request>, objs: seq<Element>)
    requires AllArriveOrNot(requests, objs)
    ensures |SerialReplies(objs)| == |objs|
    ensures forall k :: 0 <= k < |objs| ==> HandleRequest(objs[k]) == Some(SerialReplies(objs)[k])
  {
    forall k | 0 <= k < |objs| ensures HandleRequest(objs[k]).Some? { ElementReply(requests[k], objs[k]); }
    SerialRepliesPointwise(objs);
  }

  lemma RepliesRespond(requests: seq<Request>, objs: seq<Element>, replies: seq<Reply>)
    requires AllArriveOrNot(requests, objs) && multiset(replies) == multiset(SerialReplies(objs))
    ensures AllRespond(replies) && |replies| == |objs|
  {
    AllReplied(requests, objs);
    assert |replies| == |multiset(replies)| == |SerialReplies(objs)|;
    forall j | 0 <= j < |replies| ensures replies[j].Respond? {
      var k := ReplySource(requests, objs, replies, j);
      ElementReply(requests[k], objs[k]);
    }
  }

  lemma MalformedGiveNulls(requests: seq<Request>, objs: seq<Element>, replies: seq<Reply>)
    requires AllArriveOrNot(requests, objs) && multiset(replies) == multiset(SerialReplies(objs)) && AllRespond(replies)
    requires forall k :: 0 <= k < |objs| ==> objs[k].Malformed?
    ensures AllNull(AllReceived(replies))
  {
    forall j | 0 <= j < |replies| ensures Received(replies[j]).id == NULL_ID {
      var k := ReplySource(requests, objs, replies, j);
      ElementReply(requests[k], objs[k]);
    }
  }

  // When the batch has elements, nobody is answered exactly when its only element is malformed.
  lemma ElementsCorrelate(requests: seq<Request>, objs: seq<Element>, replies: seq<Reply>)
    requires AllNumbered(requests) && AllArriveOrNot(requests, objs) && objs != []
    requires multiset(replies) == multiset(SerialReplies(objs)) && AllRespond(replies)
    ensures NobodyAnswered(requests, AllReceived(replies)) <==> |objs| == 1 && objs[0].Malformed?
  {
    RepliesRespond(requests, objs, replies);
    var responses := AllReceived(replies);
    if k: nat :| k < |objs| && !objs[k].Malformed? {
      ElementReply(requests[k], objs[k]);
      var j := ReplySent(requests, objs, replies, k);
      AnsweredIsReported(requests, responses, k, j);
    } else {
      MalformedGiveNulls(requests, objs, replies);
      NullMatchesNobody(requests, responses);
    }
  }

  // Whatever the server makes of a batch and in whatever order it replies: the client's
  // correlation reports every request unanswered, followed by one unrequested response, exactly
  // when the batch was refused. That response then is an error with a null ID.
  lemma RefusedExactly(requests: seq<Request>, d: RunLoop.Decoded, c: RunLoop.Config, payload: Payload,
                       encode: Payload -> string, parser: Parser)
    requires requests != [] && AllNumbered(requests) && DecodedFrom(requests, d)
    requires RunLoop.MayProduce(c, d, Some(payload))
    requires AllRespond(Replies(payload)) ==> ReadsBack(encode, parser, payload)
    ensures ReadBatch(parser, encode(payload)).Success?
    ensures var responses := ReadBatch(parser, encode(payload)).resp;
      && (NobodyAnswered(requests, responses) <==> IsRefused(d))
      && (IsRefused(d) ==> |responses| == 1 && responses[0].id == NULL_ID && responses[0].payload.Failure?)
  {
    if HasElements(d) {
      RepliesRespond(requests, d.message.objs, payload.replies);
      ElementsCorrelate(requests, d.message.objs, payload.replies);
      if IsRefused(d) { OnlyReply(d.message.objs[0], payload.replies); }
    } else {
      NullMatchesNobody(requests, [Received(payload.reply)]);
    }
  }

  lemma OnlyReply(e: Element, replies: seq<Reply>)
    requires e.Malformed? && multiset(replies) == multiset(SerialReplies([e]))
    ensures replies == [HandleRequest(e).value]
  {
    var objs := [e];
    SerialRepliesPointwise(objs);
    assert |replies| == |multiset(replies)|;
    assert replies[0] in multiset(replies);
    assert replies[0] in SerialReplies(objs);
  }

  // An input on which that happens: one request, whose datagram arrives truncated.
  lemma TruncatedBatch(call: Clients.Call, c: RunLoop.Config, text: string) returns (responses: seq<Response>)
    ensures var requests := [Entry(ID(Integer(1), true), call)];
      var d := RunLoop.DecodeError(Leaf(SyntaxError), text);
      && DecodedFrom(requests, d) && IsRefused(d)
      && RunLoop.MayProduce(c, d, Some(One(NullIdError(PARSE_ERROR.(data := text)))))
      && responses == [Received(NullIdError(PARSE_ERROR.(data := text)))]
      && NobodyAnswered(requests, responses)
  {
    responses := [Received(NullIdError(PARSE_ERROR.(data := text)))];
    NullMatchesNobody([Entry(ID(Integer(1), true), call)], responses);
  }

  // The reply to a batch that the server answers is read back as the responses to it, in any order.
  lemma AnsweredBatch(requests: seq<Request>, objs: seq<Element>, replies: seq<Reply>,
                      encode: Payload -> string, parser: Parser)
    requires BatchArrives(requests, objs) && Distinct(requests)
    requires multiset(replies) == multiset(SerialReplies(objs))
    requires AllRespond(replies) ==> ReadsBack(encode, parser, Many(replies))
    ensures AllRespond(SerialReplies(objs))
    ensures var responses := ReadBatch(parser, encode(Many(replies)));
      responses.Success? && PairedPerfectly(requests, AllReceived(SerialReplies(objs)), responses.resp)
  {
    AnyOrderPairs(requests, objs, replies);
  }
}
