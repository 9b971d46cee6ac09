// How the server turns one message into at most one reply.

module Rpc {
  import opened Prelude
  import opened Ids
  import opened Batches
  import opened Clients

  datatype RpcError = RpcError(code: int, message: string, data: string)

  const PARSE_ERROR := RpcError(-32700, "Parse error", "")
  const INVALID_REQUEST := RpcError(-32600, "Invalid Request", "")
  const INTERNAL_ERROR := RpcError(-32603, "Internal error", "")

  datatype Body = Result(json: string) | Failure(error: RpcError)

  type Request = Entry<Call>
  type Response = Entry<Body>

  // What the server hands to the encoder for one element: a response, or a handler's own bytes.
  datatype Reply = Respond(response: Response) | Bytes(json: string)

  // A Go error: one that errors.As finds an Error in, or any other.
  datatype GoError = Rpc(error: RpcError) | Plain(text: string)

  function AsError(e: GoError): RpcError {
    match e
    case Rpc(error) => error
    case Plain(text) => INTERNAL_ERROR.(data := text)
  }

  // How a call of the handler ends.
  datatype Outcome =
    | Panicked
    | Failed(error: GoError)
    | ReturnedNil
    | Returned(json: string)
    | ReturnedResponse(response: Response)
    | ReturnedBytes(json: string)

  // One element: how it decodes, and how the handler ends if it is called with it. The handler is
  // handed the request itself; leftId is the ID it leaves in it.
  datatype Element = Malformed(text: string) | Element(request: Request, outcome: Outcome, leftId: ID)

  function NullIdError(error: RpcError): Reply {
    Respond(Entry(NULL_ID, Failure(error)))
  }

  function HandleRequest(e: Element): Option<Reply> {
    match e
    case Malformed(text) => Some(NullIdError(INVALID_REQUEST.(data := text)))
    case Element(_, outcome, id) =>
      // Recovery from a panic overwrites the result before notifications are looked at.
      if outcome.Panicked? then Some(Respond(Entry(id, Failure(INTERNAL_ERROR))))
      else if id.IsZero() then None
      else match outcome
        case Failed(error) => Some(Respond(Entry(id, Failure(AsError(error)))))
        case ReturnedResponse(response) => Some(Respond(response))
        case ReturnedBytes(json) => Some(Bytes(json))
        case Returned(json) => Some(Respond(Entry(id, Result(json))))
        case _ => Some(Respond(Entry(id, Result("null"))))
  }

  // r is an error of the server's own making.
  predicate IsError(r: Reply, id: ID, code: int, data: string) {
    && r.Respond? && r.response.id == id && r.response.payload.Failure?
    && r.response.payload.error.code == code && r.response.payload.error.data == data
    && (code == -32700 ==> r.response.payload.error.message == "Parse error")
    && (code == -32600 ==> r.response.payload.error.message == "Invalid Request")
    && (code == -32603 ==> r.response.payload.error.message == "Internal error")
  }

  // r tells the client what became of the element.
  predicate Tells(r: Reply, e: Element) {
    && (e.Malformed? ==> IsError(r, NULL_ID, -32600, e.text))
    && (e.Element? ==>
          && (e.outcome.Panicked? ==> IsError(r, e.leftId, -32603, ""))
          && (e.outcome.Failed? && e.outcome.error.Plain? ==> IsError(r, e.leftId, -32603, e.outcome.error.text))
          && (e.outcome.Failed? && e.outcome.error.Rpc? ==>
                r == Respond(Entry(e.leftId, Failure(e.outcome.error.error))))
          && (e.outcome.ReturnedNil? ==> r == Respond(Entry(e.leftId, Result("null"))))
          && (e.outcome.Returned? ==> r == Respond(Entry(e.leftId, Result(e.outcome.json))))
          && (e.outcome.ReturnedResponse? ==> r == Respond(e.outcome.response))
          && (e.outcome.ReturnedBytes? ==> r == Bytes(e.outcome.json)))
  }

  lemma ReplyTells(e: Element)
    requires HandleRequest(e).Some?
    ensures Tells(HandleRequest(e).value, e)
  {}

  predicate OwnReply(o: Outcome) { o.ReturnedResponse? || o.ReturnedBytes? }

  // An element goes unanswered exactly when it is left without an ID by a handler that did not panic.
  lemma SilentExactly(e: Element)
    ensures HandleRequest(e).None? <==> e.Element? && e.leftId.IsZero() && !e.outcome.Panicked?
  {}

  // The reply carries the ID left in the request unless the handler supplied the reply itself.
  lemma ReplyEchoesId(e: Element)
    requires e.Element? && !OwnReply(e.outcome) && HandleRequest(e).Some?
    ensures HandleRequest(e).value.Respond?
    ensures HandleRequest(e).value.response.id == e.leftId
    ensures HandleRequest(e).value.response.payload.Failure? <==> e.outcome.Failed? || e.outcome.Panicked?
    ensures e.outcome.Panicked? ==> HandleRequest(e).value.response.payload.error.code == -32603
  {}

  // The serial loop's result: the replies in input order.
  function SerialReplies(objs: seq<Element>): (replies: seq<Reply>)
    ensures |replies| <= |objs|
  {
    if objs == [] then []
    else
      var last := HandleRequest(objs[|objs| - 1]);
      SerialReplies(objs[..|objs| - 1]) + if last.Some? then [last.value] else []
  }

  method RunSerialBatch(objs: seq<Element>) returns (replies: seq<Reply>)
    ensures replies == SerialReplies(objs)
  {
    replies := [];
    for k := 0 to |objs|
      invariant replies == SerialReplies(objs[..k])
    {
      var reply := HandleRequest(objs[k]);
      if reply.Some? {
        replies := replies + [reply.value];
      }
      assert objs[..k + 1][..k] == objs[..k];
    }
    assert objs[..|objs|] == objs;
  }

  lemma {:induction false} SilentBatch(objs: seq<Element>)
    ensures SerialReplies(objs) == [] <==> forall k :: 0 <= k < |objs| ==> HandleRequest(objs[k]).None?
  {
    if objs != [] {
      var front := objs[..|objs| - 1];
      SilentBatch(front);
      assert forall k :: 0 <= k < |front| ==> front[k] == objs[k];
    }
  }

  // When every element is answered, the serial replies are the replies position by position.
  lemma {:induction false} SerialRepliesPointwise(objs: seq<Element>)
    requires forall k :: 0 <= k < |objs| ==> HandleRequest(objs[k]).Some?
    ensures |SerialReplies(objs)| == |objs|
    ensures forall k :: 0 <= k < |objs| ==> SerialReplies(objs)[k] == HandleRequest(objs[k]).value
  {
    if objs != [] { SerialRepliesPointwise(objs[..|objs| - 1]); }
  }

  lemma {:induction false} SerialSelection(objs: seq<Element>) returns (at: seq<nat>)
    ensures IsSelection(objs, HandleRequest, SerialReplies(objs), at)
  {
    if objs == [] {
      at := [];
    } else {
      var n := |objs| - 1;
      at := SerialSelection(objs[..n]);
      at := SelectionGrows(objs[..n], objs[n], HandleRequest, SerialReplies(objs[..n]), at, objs, SerialReplies(objs));
    }
  }

  lemma {:induction false} SerialReplyOf(objs: seq<Element>, r: Reply) returns (e: Element)
    requires r in SerialReplies(objs)
    ensures e in objs && HandleRequest(e) == Some(r)
  {
    e := objs[|objs| - 1];
    if HandleRequest(e) != Some(r) { e := SerialReplyOf(objs[..|objs| - 1], r); }
  }

  // First-byte dispatch of a message.
  datatype TypeHint =
    | TypeUnknown | TypeArray | TypeObject | TypeBool | TypeNumber | TypeString | TypeNull | TypeEmpty

  // unicode.IsSpace, by which bytes.TrimSpace trims.
  predicate IsSpace(c: char) {
    || 9 <= c as int <= 13
    || 0x2000 <= c as int <= 0x200a
    || c as int in {0x20, 0x85, 0xa0, 0x1680, 0x2028, 0x2029, 0x202f, 0x205f, 0x3000}
  }

  function TrimLeft(s: string): (t: string)
    ensures t == "" || !IsSpace(t[0])
  {
    if s != "" && IsSpace(s[0]) then TrimLeft(s[1..]) else s
  }

  function HintType(raw: string): TypeHint {
    var m := TrimLeft(raw);
    if m == "" then TypeEmpty
    else if m[0] == '[' then TypeArray
    else if m[0] == '{' then TypeObject
    else if m[0] in "tf" then TypeBool
    else if m[0] in "-0123456789" then TypeNumber
    else if m[0] == '"' then TypeString
    else if m[0] == 'n' then TypeNull
    else TypeUnknown
  }

  // A message as dispatched: one object, an array that splits or does not, or anything else.
  datatype Message = Single(element: Element) | Unsplit(text: string) | Elements(objs: seq<Element>) | NotContainer

  // The pluggable JSON library: Split is Unmarshal into raw messages (or its error text), and
  // Decode is Unmarshal into a request together with how the handler treats the element.
  datatype Library = Library(split: string -> Option<seq<string>>, decode: (string, nat) -> Element)

  function Dispatch(lib: Library, raw: string): Message {
    match HintType(raw)
    case TypeArray =>
      var parts := lib.split(raw);
      if parts.None? then Unsplit(raw)
      else Elements(seq(|parts.value|, k requires 0 <= k < |parts.value| => lib.decode(parts.value[k], k)))
    case TypeObject => Single(lib.decode(raw, 0))
    case _ => NotContainer
  }

  // A message is handled by its first character that is no white space, and by nothing else.
  lemma {:induction false} TrimLeftStops(raw: string, k: nat)
    requires k <= |raw| && (forall j :: 0 <= j < k ==> IsSpace(raw[j])) && (k < |raw| ==> !IsSpace(raw[k]))
    ensures TrimLeft(raw) == raw[k..]
  {
    if k > 0 {
      TrimLeftStops(raw[1..], k - 1);
      assert raw[1..][k - 1..] == raw[k..];
    }
  }

  lemma DispatchExactly(lib: Library, raw: string, k: nat)
    requires k <= |raw| && (forall j :: 0 <= j < k ==> IsSpace(raw[j])) && (k < |raw| ==> !IsSpace(raw[k]))
    ensures var m := Dispatch(lib, raw);
      && (m.Single? <==> k < |raw| && raw[k] == '{')
      && (m.Single? ==> m.element == lib.decode(raw, 0))
      && (m.Unsplit? ==> m.text == raw)
      && (m.Unsplit? <==> k < |raw| && raw[k] == '[' && lib.split(raw).None?)
      && (m.Elements? <==> k < |raw| && raw[k] == '[' && lib.split(raw).Some?)
      && (m.Elements? ==>
            && |m.objs| == |lib.split(raw).value|
            && forall j :: 0 <= j < |m.objs| ==> m.objs[j] == lib.decode(lib.split(raw).value[j], j))
  {
    TrimLeftStops(raw, k);
  }

  // What is passed to EncodeTo: one reply object, or an array of them.
  datatype Payload = One(reply: Reply) | Many(replies: seq<Reply>)

  // The serial reference: the payload a message causes, if any.
  function Expected(m: Message): Option<Payload> {
    match m
    case Single(e) =>
      var reply := HandleRequest(e);
      if reply.Some? then Some(One(reply.value)) else None
    case Unsplit(text) => Some(One(NullIdError(INVALID_REQUEST.(data := text))))
    case Elements(objs) =>
      if objs == [] then Some(One(NullIdError(INVALID_REQUEST)))
      else if SerialReplies(objs) == [] then None
      else Some(Many(SerialReplies(objs)))
    case NotContainer => Some(One(NullIdError(PARSE_ERROR)))
  }

  function Replies(p: Payload): seq<Reply> {
    match p
    case One(reply) => [reply]
    case Many(replies) => replies
  }

  // The goroutines of a batch may finish in any order, which permutes an array payload.
  predicate SameUpToOrder(a: Option<Payload>, b: Option<Payload>) {
    if a.Some? && b.Some? && a.value.Many? && b.value.Many?
    then multiset(a.value.replies) == multiset(b.value.replies)
    else a == b
  }
}
