// The HTTP adapters: one request served by a synchronous Run, and the client's bridge.

module HttpHandler {
  import opened Prelude
  import opened Errors
  import opened Rpc
  import opened RunLoop
  import Ids

  const OK := 200
  const NO_CONTENT := 204
  const TOO_LARGE := 413
  const UNSUPPORTED := 415
  const SERVER_ERROR := 500

  // What the client of one HTTP exchange sees. The body is a list of encoded documents.
  class ResponseWriter {
    var code: nat // 0 until a header is written
    var isJson: bool
    var body: seq<Payload>

    constructor ()
      ensures Sent() == HttpResponse(0, false, [])
    {
      code, isJson, body := 0, false, [];
    }

    function Sent(): HttpResponse
      reads this
    {
      HttpResponse(code, isJson, body)
    }

    // A header set after the status has been written has no effect.
    method SetJson()
      modifies this
      ensures Sent() == if old(code) == 0 then old(Sent()).(isJson := true) else old(Sent())
    {
      if code == 0 {
        isJson := true;
      }
    }

    method WriteHeader(status: nat)
      modifies this
      ensures Sent() == if old(code) == 0 then old(Sent()).(code := status) else old(Sent())
    {
      if code == 0 {
        code := status;
      }
    }

    method Write(documents: seq<Payload>)
      modifies this
      ensures Sent() == HttpResponse(if old(code) == 0 then OK else old(code), old(isJson), old(body) + documents)
    {
      WriteHeader(OK);
      body := body + documents;
    }
  }

  datatype HttpResponse = HttpResponse(code: nat, isJson: bool, body: seq<Payload>)

  const TRUNCATED: Payload := One(NullIdError(PARSE_ERROR))

  // The internal server is synchronous and serial, over a stream.
  function HandlerConfig(ctxErr: Option<Err>, closeErr: Option<Err>): Config {
    Config(true, true, true, true, ctxErr, closeErr)
  }

  // The number of messages taken from a body: up to the first that ends the loop.
  function Taken(c: Config, inputs: seq<Decoded>): (n: nat)
    requires exists k :: 0 <= k < |inputs| && Ends(c, inputs[k])
    ensures 0 < n <= |inputs| && Ends(c, inputs[n - 1]) && forall k :: 0 <= k < n - 1 ==> !Ends(c, inputs[k])
  {
    if Ends(c, inputs[0]) then 1
    else
      assert exists k :: 0 <= k < |inputs[1..]| && Ends(c, inputs[1..][k]) by {
        var k :| 0 <= k < |inputs| && Ends(c, inputs[k]);
        assert inputs[1..][k - 1] == inputs[k];
      }
      var n := 1 + Taken(c, inputs[1..]);
      assert forall k :: 1 <= k < n - 1 ==> inputs[1..][k - 1] == inputs[k];
      n
  }

  // inputs is what decoding the request body yields; a body is finite, so its end is among them.
  predicate IsBody(c: Config, inputs: seq<Decoded>) { exists k :: 0 <= k < |inputs| && Ends(c, inputs[k]) }

  function FinalError(c: Config, last: Err): Option<Err> { Join([Some(last), c.ctxErr, c.closeErr]) }

  function RunError(c: Config, inputs: seq<Decoded>): Option<Err>
    requires IsBody(c, inputs)
  {
    FinalError(c, inputs[Taken(c, inputs) - 1].err)
  }

  // What EncodeTo leaves in the buffer: a document that does not encode leaves nothing.
  function Written(replies: seq<Payload>, encodes: Payload -> bool): seq<Payload> {
    if replies == [] then []
    else
      var last := replies[|replies| - 1];
      Written(replies[..|replies| - 1], encodes) + if encodes(last) then [last] else []
  }

  // The replies to the body that the handler has buffered when Run returns.
  function Buffered(c: Config, inputs: seq<Decoded>, encodes: Payload -> bool): seq<Payload>
    requires IsBody(c, inputs)
  {
    Written(Output(inputs, Taken(c, inputs)), encodes)
  }

  // The response an HTTP request is due.
  function DueResponse(isJson: bool, c: Config, inputs: seq<Decoded>, encodes: Payload -> bool): HttpResponse
    requires IsBody(c, inputs)
  {
    var replies, err := Buffered(c, inputs, encodes), RunError(c, inputs);
    if !isJson then HttpResponse(UNSUPPORTED, false, [])
    else if IsIn(err, Eof) then HttpResponse(if replies == [] then NO_CONTENT else OK, true, replies)
    else if IsIn(err, MaxBytesError) then HttpResponse(TOO_LARGE, true, [])
    else if IsIn(err, UnexpectedEof) then HttpResponse(OK, true, replies + [TRUNCATED])
    else HttpResponse(SERVER_ERROR, true, [])
  }

  lemma TakenUnique(c: Config, inputs: seq<Decoded>, n: nat)
    requires IsBody(c, inputs) && 0 < n <= |inputs| && Ends(c, inputs[n - 1])
    requires forall k :: 0 <= k < n - 1 ==> !Ends(c, inputs[k])
    ensures n == Taken(c, inputs)
  {
    assert Ends(c, inputs[Min(Taken(c, inputs), n) - 1]);
  }

  method Buffer(sent: seq<Payload>, encodes: Payload -> bool) returns (buffer: seq<Payload>)
    ensures buffer == Written(sent, encodes)
  {
    buffer := [];
    for k := 0 to |sent|
      invariant buffer == Written(sent[..k], encodes)
    {
      assert sent[..k + 1][..k] == sent[..k];
      if encodes(sent[k]) {
        buffer := buffer + [sent[k]];
      }
    }
    assert sent[..|sent|] == sent;
  }

  method RunBuffered(c: Config, inputs: seq<Decoded>, encodes: Payload -> bool)
    returns (buffer: seq<Payload>, err: Option<Err>)
    requires c.noRoutines && c.serialBatch && IsBody(c, inputs)
    ensures buffer == Buffered(c, inputs, encodes) && err == RunError(c, inputs) && err.Some?
  {
    var sent, runErr, taken := RunSynchronously(c, inputs);
    TakenUnique(c, inputs, taken);
    JoinIsNil([Some(inputs[taken - 1].err), c.ctxErr, c.closeErr]);
    buffer := Buffer(sent, encodes);
    err := runErr;
  }

  // The parse error that ends a truncated body always encodes.
  method ServeHTTP(
    isJson: bool, inputs: seq<Decoded>, encodes: Payload -> bool, ctxErr: Option<Err>, closeErr: Option<Err>,
    resp: ResponseWriter)
    requires IsBody(HandlerConfig(ctxErr, closeErr), inputs)
    requires resp.Sent() == HttpResponse(0, false, [])
    modifies resp
    ensures resp.Sent() == DueResponse(isJson, HandlerConfig(ctxErr, closeErr), inputs, encodes)
  {
    if !isJson {
      resp.WriteHeader(UNSUPPORTED);
      return;
    }
    resp.SetJson();
    var buffer, err := RunBuffered(HandlerConfig(ctxErr, closeErr), inputs, encodes);
    if err.Some? && !Is(err.value, Eof) {
      if Is(err.value, MaxBytesError) {
        resp.WriteHeader(TOO_LARGE);
        return;
      } else if Is(err.value, UnexpectedEof) {
        buffer := buffer + [TRUNCATED];
      } else {
        resp.WriteHeader(SERVER_ERROR);
        return;
      }
    }
    if |buffer| > 0 {
      resp.Write(buffer);
    } else {
      resp.WriteHeader(NO_CONTENT);
    }
  }

  // Message d puts nothing into the response.
  predicate PutsNothing(d: Decoded, encodes: Payload -> bool) {
    Reference(d).None? || !encodes(Reference(d).value)
  }

  lemma {:induction false} WrittenEmpty(inputs: seq<Decoded>, n: nat, encodes: Payload -> bool)
    requires n <= |inputs|
    ensures Written(Output(inputs, n), encodes) == [] <==> forall k :: 0 <= k < n ==> PutsNothing(inputs[k], encodes)
  {
    if n > 0 {
      WrittenEmpty(inputs, n - 1, encodes);
      if Reference(inputs[n - 1]).Some? {
        assert Output(inputs, n)[..|Output(inputs, n)| - 1] == Output(inputs, n - 1);
      } else {
        assert Output(inputs, n) == Output(inputs, n - 1);
      }
    }
  }

  // The run ends in s: in the error that ended the body, or that of the context or the close.
  predicate EndsIn(c: Config, inputs: seq<Decoded>, s: Sentinel)
    requires IsBody(c, inputs)
  {
    Is(inputs[Taken(c, inputs) - 1].err, s) || IsIn(c.ctxErr, s) || IsIn(c.closeErr, s)
  }

  lemma RunErrorMatches(c: Config, inputs: seq<Decoded>, s: Sentinel)
    requires IsBody(c, inputs)
    ensures IsIn(RunError(c, inputs), s) <==> EndsIn(c, inputs, s)
  {
    FinalErrorMatches(c, inputs[Taken(c, inputs) - 1].err, s);
  }

  lemma FinalErrorMatches(c: Config, last: Err, s: Sentinel)
    ensures IsIn(FinalError(c, last), s) <==> Is(last, s) || IsIn(c.ctxErr, s) || IsIn(c.closeErr, s)
  {
    JoinThreeMatches(Some(last), c.ctxErr, c.closeErr, s);
  }

  // Which response is sent, by the request's content type and the errors that end the run.
  lemma ResponseExactly(isJson: bool, c: Config, inputs: seq<Decoded>, encodes: Payload -> bool)
    requires IsBody(c, inputs)
    ensures var r, replies := DueResponse(isJson, c, inputs, encodes), Buffered(c, inputs, encodes);
      && (r.isJson <==> isJson)
      && (r.code == 415 <==> !isJson)
      && (r.code == 413 <==> isJson && !EndsIn(c, inputs, Eof) && EndsIn(c, inputs, MaxBytesError))
      && (r.code == 500 <==> isJson && !EndsIn(c, inputs, Eof) && !EndsIn(c, inputs, MaxBytesError)
                             && !EndsIn(c, inputs, UnexpectedEof))
      && (r.code == 204 <==> isJson && EndsIn(c, inputs, Eof) && replies == [])
      && r.code in {200, 204, 413, 415, 500}
      && r.body == (if r.code != 200 then []
                    else if EndsIn(c, inputs, Eof) then replies else replies + [One(NullIdError(PARSE_ERROR))])
      && IsError(TRUNCATED.reply, Ids.NULL_ID, -32700, "")
  {
    RunErrorMatches(c, inputs, Eof);
    RunErrorMatches(c, inputs, MaxBytesError);
    RunErrorMatches(c, inputs, UnexpectedEof);
  }

  // The reply to a decoded message, if there is one and it encodes.
  function Encodable(d: Decoded, encodes: Payload -> bool): Option<Payload> {
    var p := Reference(d);
    if p.Some? && encodes(p.value) then p else None
  }

  lemma {:induction false} WrittenSelection(inputs: seq<Decoded>, n: nat, encodes: Payload -> bool)
    returns (at: seq<nat>)
    requires n <= |inputs|
    ensures IsSelection(inputs[..n], (d: Decoded) => Encodable(d, encodes), Written(Output(inputs, n), encodes), at)
  {
    if n == 0 {
      at := [];
    } else {
      var pick := (d: Decoded) => Encodable(d, encodes);
      var d := inputs[n - 1];
      at := WrittenSelection(inputs, n - 1, encodes);
      WrittenGrows(inputs, n, encodes);
      assert inputs[..n] == inputs[..n - 1] + [d];
      at := SelectionGrows(inputs[..n - 1], d, pick, Written(Output(inputs, n - 1), encodes), at,
                           inputs[..n], Written(Output(inputs, n), encodes));
    }
  }

  lemma WrittenGrows(inputs: seq<Decoded>, n: nat, encodes: Payload -> bool)
    requires 0 < n <= |inputs|
    ensures var p := Encodable(inputs[n - 1], encodes);
      Written(Output(inputs, n), encodes)
        == Written(Output(inputs, n - 1), encodes) + if p.Some? then [p.value] else []
  {
    if Reference(inputs[n - 1]).Some? {
      assert Output(inputs, n)[..|Output(inputs, n)| - 1] == Output(inputs, n - 1);
    } else {
      assert Output(inputs, n) == Output(inputs, n - 1);
    }
  }

  // The buffer holds, in input order, the replies that encode, each answering its own message.
  lemma BufferedTells(c: Config, inputs: seq<Decoded>, encodes: Payload -> bool) returns (at: seq<nat>)
    requires IsBody(c, inputs) && c.serialBatch
    ensures |at| == |Buffered(c, inputs, encodes)| && Increasing(at)
    ensures forall j :: 0 <= j < |at| ==>
      && at[j] < Taken(c, inputs) && encodes(Buffered(c, inputs, encodes)[j])
      && PayloadTells(true, Buffered(c, inputs, encodes)[j], inputs[at[j]])
    ensures forall i: nat :: i < Taken(c, inputs) && i !in at ==> PutsNothing(inputs[i], encodes)
  {
    var n, buffer := Taken(c, inputs), Buffered(c, inputs, encodes);
    at := WrittenSelection(inputs, n, encodes);
    forall j | 0 <= j < |at|
      ensures at[j] < n && encodes(buffer[j]) && PayloadTells(true, buffer[j], inputs[at[j]])
    {
      assert Encodable(inputs[..n][at[j]], encodes) == Some(buffer[j]);
      ProducedTells(c, inputs[at[j]], buffer[j]);
    }
    forall i: nat | i < n && i !in at ensures PutsNothing(inputs[i], encodes) {
      assert Encodable(inputs[..n][i], encodes).None?;
    }
  }

  // 204 is sent exactly when the body ends cleanly and every message in it puts nothing into the
  // response.
  lemma NoContentExactly(isJson: bool, c: Config, inputs: seq<Decoded>, encodes: Payload -> bool)
    requires IsBody(c, inputs)
    ensures DueResponse(isJson, c, inputs, encodes).code == NO_CONTENT <==>
      && isJson && EndsIn(c, inputs, Eof)
      && forall k :: 0 <= k < Taken(c, inputs) ==> PutsNothing(inputs[k], encodes)
  {
    WrittenEmpty(inputs, Taken(c, inputs), encodes);
    RunErrorMatches(c, inputs, Eof);
  }

  // The buffered replies are dropped exactly when no part of the final error is an end of file
  // and it is not a mere truncation either.
  lemma RepliesKeptExactly(c: Config, inputs: seq<Decoded>, encodes: Payload -> bool)
    requires IsBody(c, inputs)
    ensures var response, replies := DueResponse(true, c, inputs, encodes), Buffered(c, inputs, encodes);
      && (replies <= response.body || response.body == [])
      && (replies <= response.body <==>
            || replies == []
            || EndsIn(c, inputs, Eof)
            || (EndsIn(c, inputs, UnexpectedEof) && !EndsIn(c, inputs, MaxBytesError)))
  {
    RunErrorMatches(c, inputs, Eof);
    RunErrorMatches(c, inputs, UnexpectedEof);
    RunErrorMatches(c, inputs, MaxBytesError);
  }

  // The first syntax error ends the body, if no other error but type errors came before.
  lemma FirstSyntaxErrorEnds(inputs: seq<Decoded>, k: nat, ctxErr: Option<Err>, closeErr: Option<Err>)
    requires k < |inputs| && inputs[k].DecodeError? && Is(inputs[k].err, SyntaxError)
    requires forall j :: 0 <= j < k && inputs[j].DecodeError? ==>
      !Is(inputs[j].err, SyntaxError) && Is(inputs[j].err, UnmarshalTypeError)
    ensures IsBody(HandlerConfig(ctxErr, closeErr), inputs)
    ensures Taken(HandlerConfig(ctxErr, closeErr), inputs) == k + 1
  {
    assert Ends(HandlerConfig(ctxErr, closeErr), inputs[k]);
    TakenUnique(HandlerConfig(ctxErr, closeErr), inputs, k + 1);
  }

  // In particular, a body that ends in a syntax error gets 500 and no reply at all, although Run
  // has encoded a parse error for it.
  lemma SyntaxErrorDropsReplies(c: Config, inputs: seq<Decoded>, encodes: Payload -> bool)
    requires IsBody(c, inputs) && Is(inputs[Taken(c, inputs) - 1].err, SyntaxError)
    requires !EndsIn(c, inputs, Eof) && !EndsIn(c, inputs, MaxBytesError) && !EndsIn(c, inputs, UnexpectedEof)
    ensures DueResponse(true, c, inputs, encodes) == HttpResponse(SERVER_ERROR, true, [])
    ensures Output(inputs, Taken(c, inputs)) != []
  {
    RunErrorMatches(c, inputs, Eof);
    RunErrorMatches(c, inputs, UnexpectedEof);
    RunErrorMatches(c, inputs, MaxBytesError);
  }

  // Every run of the general machine under this configuration encodes the same documents.
  lemma MachineAgrees(c: Config, inputs: seq<Decoded>, states: seq<State>, labels: seq<Label>, at: nat)
    requires Run(c, inputs, states, labels) && at < |states| && HasReturned(states[at])
    requires c.noRoutines && c.serialBatch
    ensures IsBody(c, inputs)
    ensures Payloads(states[at].log) == Output(inputs, Taken(c, inputs))
  {
    EveryReturnReports(c, inputs, states, labels, at);
    assert Ends(c, inputs[states[at].next - 1]);
    TakenUnique(c, inputs, states[at].next);
  }
}

module HttpBridge {
  import opened Prelude
  import opened Errors

  type Bytes = seq<char>

  // How the POST of one Encode goes: it may fail before a response arrives, or the response may
  // carry JSON whose body is read fully or only in part.
  datatype Exchange =
    | NoResponse(err: Err)
    | Response(code: nat, isJson: bool, body: Bytes, readErr: Option<Err>)

  datatype Op = Encode(exchange: Exchange) | Decode(ctxErr: Option<Err>) | Close

  datatype State = State(buffer: Bytes, code: nat, isJson: bool, closed: bool)

  const FRESH := State([], 0, false, false)

  // io.EOF is not an error when reading a body.
  predicate ReadFailed(e: Option<Err>) { e.Some? && !Is(e.value, Eof) }

  function AfterEncode(s: State, x: Exchange): State {
    if s.closed then s
    else match x
      case NoResponse(_) => State([], 0, false, false)
      case Response(code, isJson, body, _) => State(if isJson then body else [], code, isJson, false)
  }

  function After(s: State, op: Op): State {
    match op
    case Encode(x) => AfterEncode(s, x)
    case Decode(_) => s
    case Close => s.(closed := true)
  }

  function AfterAll(ops: seq<Op>): State {
    if ops == [] then FRESH else After(AfterAll(ops[..|ops| - 1]), ops[|ops| - 1])
  }

  datatype Failure = CtxDone(err: Err) | BridgeClosed | EmptyBody | NotJson | BadStatus

  class HTTPBridge {
    var respBuffer: Bytes
    var respCode: nat
    var respJSON: bool
    var closed: bool

    function Current(): State
      reads this
    {
      State(respBuffer, respCode, respJSON, closed)
    }

    constructor ()
      ensures Current() == FRESH
    {
      respBuffer, respCode, respJSON, closed := [], 0, false, false;
    }

    method Encode(exchange: Exchange) returns (err: Option<Err>)
      modifies this
      ensures Current() == AfterEncode(old(Current()), exchange)
      ensures err == if old(closed) then Some(Leaf(Eof))
                     else match exchange
                       case NoResponse(e) => Some(e)
                       case Response(_, isJson, _, readErr) =>
                         if isJson && ReadFailed(readErr) then Some(Wrap(readErr.value)) else None
    {
      if closed {
        return Some(Leaf(Eof));
      }
      respBuffer := [];
      respCode := 0;
      respJSON := false;
      match exchange
      case NoResponse(e) =>
        return Some(e);
      case Response(code, isJson, body, readErr) =>
        respCode := code;
        if isJson {
          respJSON := true;
          respBuffer := body;
          if ReadFailed(readErr) {
            return Some(Wrap(readErr.value));
          }
        }
        return None;
    }

    // The bytes handed to Unmarshal, or why there are none.
    method Decode(ctxErr: Option<Err>) returns (bytes: Option<Bytes>, failure: Option<Failure>)
      ensures bytes.Some? <==> failure.None?
      ensures bytes == Delivered(Current(), ctxErr)
      ensures failure == Refusal(Current(), ctxErr)
    {
      if ctxErr.Some? {
        return None, Some(CtxDone(ctxErr.value));
      }
      if closed {
        return None, Some(BridgeClosed);
      }
      if respJSON {
        if |respBuffer| > 0 {
          return Some(respBuffer), None;
        }
        return None, Some(EmptyBody);
      }
      if 200 <= respCode < 300 {
        return None, Some(NotJson);
      }
      return None, Some(BadStatus);
    }

    method Close()
      modifies this
      ensures Current() == old(Current()).(closed := true)
    {
      closed := true;
    }
  }

  function Delivered(s: State, ctxErr: Option<Err>): Option<Bytes> {
    if ctxErr.None? && !s.closed && s.isJson && s.buffer != [] then Some(s.buffer) else None
  }

  // The exchange of the most recent Encode.
  function Latest(ops: seq<Op>): Option<Exchange> {
    if ops == [] then None
    else match ops[|ops| - 1]
      case Encode(x) => Some(x)
      case _ => Latest(ops[..|ops| - 1])
  }

  predicate CarriesJson(x: Option<Exchange>, bytes: Bytes) {
    x.Some? && x.value.Response? && x.value.isJson && x.value.body == bytes && bytes != []
  }

  lemma {:induction false} StateAfterAll(ops: seq<Op>)
    ensures AfterAll(ops).closed <==> Close in ops
    ensures forall bytes :: !AfterAll(ops).closed ==>
      (AfterAll(ops).isJson && AfterAll(ops).buffer == bytes && bytes != [] <==> CarriesJson(Latest(ops), bytes))
  {
    if ops != [] {
      var front := ops[..|ops| - 1];
      StateAfterAll(front);
      assert ops == front + [ops[|ops| - 1]];
    }
  }

  // After any sequence of operations, Decode delivers bytes exactly when the bridge was never
  // closed and the most recent Encode stored those bytes; never those of an earlier one.
  lemma DecodeIsFresh(ops: seq<Op>, ctxErr: Option<Err>, bytes: Bytes)
    ensures Delivered(AfterAll(ops), ctxErr) == Some(bytes) <==>
      ctxErr.None? && Close !in ops && CarriesJson(Latest(ops), bytes)
  {
    StateAfterAll(ops);
  }

  // Why a Decode would fail now.
  function Refusal(s: State, ctxErr: Option<Err>): Option<Failure> {
    if ctxErr.Some? then Some(CtxDone(ctxErr.value))
    else if s.closed then Some(BridgeClosed)
    else if s.isJson then (if s.buffer == [] then Some(EmptyBody) else None)
    else if 200 <= s.code < 300 then Some(NotJson)
    else Some(BadStatus)
  }

  lemma {:induction false} StateIsLatest(ops: seq<Op>)
    requires Close !in ops
    ensures !AfterAll(ops).closed
    ensures match Latest(ops)
            case Some(Response(code, isJson, body, _)) =>
              AfterAll(ops).code == code && AfterAll(ops).isJson == isJson && (isJson ==> AfterAll(ops).buffer == body)
            case _ => AfterAll(ops).code == 0 && !AfterAll(ops).isJson
  {
    if ops != [] {
      assert ops == ops[..|ops| - 1] + [ops[|ops| - 1]];
      StateIsLatest(ops[..|ops| - 1]);
    }
  }

  // After any operations, why a Decode fails, by what the most recent Encode met.
  lemma DecodeFailsExactly(ops: seq<Op>, ctxErr: Option<Err>)
    ensures var why, x := Refusal(AfterAll(ops), ctxErr), Latest(ops);
      && (ctxErr.Some? ==> why == Some(CtxDone(ctxErr.value)))
      && (ctxErr.None? && Close in ops ==> why == Some(BridgeClosed))
      && (ctxErr.None? && Close !in ops ==>
            && (x.Some? && x.value.Response? && x.value.isJson ==>
                  why == if x.value.body == [] then Some(EmptyBody) else None)
            && (x.Some? && x.value.Response? && !x.value.isJson ==>
                  why == Some(if 200 <= x.value.code < 300 then NotJson else BadStatus))
            && (x.None? || x.value.NoResponse? ==> why == Some(BadStatus)))
  {
    StateAfterAll(ops);
    if Close !in ops { StateIsLatest(ops); }
  }
}
