// From a batch built by a client, through a concurrent server, back to the client's correlation.

module Pairing {
  import opened Prelude
  import opened Numerals
  import opened Ids
  import opened Batches
  import opened Clients
  import opened Rpc
  import opened Correlation
  import FanOut

  // An ID after one trip over the wire into a fresh field; one that does not encode stays behind.
  function Travelled(id: ID): ID {
    var data := Marshalled(id);
    if data.None? || Unmarshalled(ZERO_ID, data.value).None? then id
    else Unmarshalled(ZERO_ID, data.value).value
  }

  // The element the server decodes for a request that the builder numbered; how its handler
  // ends is arbitrary, except that it leaves the ID alone and does not supply its own reply.
  ghost predicate Arrives(request: Request, e: Element) {
    && e.Element?
    && request.id.present && request.id.value.Integer?
    && e.request == Entry(Travelled(request.id), request.payload)
    && !OwnReply(e.outcome)
    && e.leftId == e.request.id
  }

  ghost predicate BatchArrives(requests: seq<Request>, objs: seq<Element>) {
    |requests| == |objs| && forall i :: 0 <= i < |objs| ==> Arrives(requests[i], objs[i])
  }

  lemma TravelledInteger(id: ID)
    requires id.present && id.value.Integer?
    ensures Travelled(id) == ID(Number(PrintInt64(id.value.n)), true)
    ensures Travelled(Travelled(id)) == Travelled(id)
    ensures ParseInt64(PrintInt64(id.value.n)) == Some(id.value.n)
  {
    ParsePrinted(id.value.n);
  }

  // The response the client decodes for a reply.
  function Received(reply: Reply): Response
    requires reply.Respond?
  {
    Entry(Travelled(reply.response.id), reply.response.payload)
  }

  predicate AllRespond(replies: seq<Reply>) { forall j :: 0 <= j < |replies| ==> replies[j].Respond? }

  function AllReceived(replies: seq<Reply>): (responses: seq<Response>)
    requires AllRespond(replies)
    ensures |responses| == |replies|
    ensures forall j :: 0 <= j < |replies| ==> responses[j] == Received(replies[j])
  {
    seq(|replies|, j requires 0 <= j < |replies| => Received(replies[j]))
  }

  lemma ReplyOf(request: Request, e: Element)
    requires Arrives(request, e)
    ensures HandleRequest(e).Some? && HandleRequest(e).value.Respond?
    ensures Received(HandleRequest(e).value).id == ID(Number(PrintInt64(request.id.value.n)), true)
  {
    TravelledInteger(request.id);
    ReplyEchoesId(e);
  }

  // own is the response to request, under the ID that request was sent with.
  predicate Answers(request: Request, own: Response) {
    && request.id.present && request.id.value.Integer?
    && own.id == ID(Number(PrintInt64(request.id.value.n)), true)
  }

  predicate AllAnswer(requests: seq<Request>, own: seq<Response>) {
    |requests| == |own| && forall i :: 0 <= i < |own| ==> Answers(requests[i], own[i])
  }

  predicate SameMembers<T(==)>(a: seq<T>, b: seq<T>) {
    && (forall j :: 0 <= j < |a| ==> a[j] in b)
    && (forall j :: 0 <= j < |b| ==> b[j] in a)
  }

  lemma PermutationSameMembers<T>(a: seq<T>, b: seq<T>)
    requires multiset(a) == multiset(b)
    ensures SameMembers(a, b)
  {
    forall j | 0 <= j < |a| ensures a[j] in b { assert a[j] in multiset(a); }
    forall j | 0 <= j < |b| ensures b[j] in a { assert b[j] in multiset(b); }
  }

  // A request matches the response to another request only when the two are one.
  lemma MatchIsOwn(requests: seq<Request>, own: seq<Response>, i: nat, k: nat)
    requires AllAnswer(requests, own) && Distinct(requests) && i < |requests| && k < |requests|
    ensures requests[i].id.Equal(own[k].id) <==> i == k
  {
    assert Answers(requests[i], own[i]) && Answers(requests[k], own[k]);
    TravelledInteger(requests[i].id);
    TravelledInteger(requests[k].id);
    var lo, hi := Min(i, k), Max(i, k);
    assert i == k || !requests[lo].id.Equal(requests[hi].id);
  }

  // The lookup of request i finds the response to request i, however the responses are ordered.
  lemma LookupFindsOwn(requests: seq<Request>, own: seq<Response>, responses: seq<Response>, i: nat)
    requires AllAnswer(requests, own) && Distinct(requests) && i < |requests| && SameMembers(responses, own)
    ensures var j := IndexOf(responses, requests[i].id); j >= 0 && responses[j] == own[i]
  {
    var id := requests[i].id;
    IndexOfIsFirstMatch(responses, id);
    assert own[i] in responses;
    var at :| 0 <= at < |responses| && responses[at] == own[i];
    MatchIsOwn(requests, own, i, i);
    var j := IndexOf(responses, id);
    assert responses[j] in own;
    var k :| 0 <= k < |own| && own[k] == responses[j];
    MatchIsOwn(requests, own, i, k);
  }

  lemma {:induction false} AllMarkedNoneUnrequested(responses: seq<Response>, marked: set<ID>, n: nat)
    requires n <= |responses| && forall j :: 0 <= j < |responses| ==> responses[j].id in marked
    ensures ResponseEvents(responses, marked, n) == []
  {
    if n > 0 { AllMarkedNoneUnrequested(responses, marked, n - 1); }
  }

  lemma EveryResponseMarked(requests: seq<Request>, own: seq<Response>, responses: seq<Response>)
    requires AllAnswer(requests, own) && Distinct(requests) && SameMembers(responses, own)
    ensures forall j :: 0 <= j < |responses| ==> responses[j].id in Marked(requests, responses, |requests|)
  {
    forall j | 0 <= j < |responses| ensures responses[j].id in Marked(requests, responses, |requests|) {
      assert responses[j] in own;
      var k: nat :| k < |own| && own[k] == responses[j];
      LookupFindsOwn(requests, own, responses, k);
    }
  }

  predicate PairsOwn(e: Event, i: nat, own: Response, responses: seq<Response>) {
    e.Paired? && e.req == i && e.res < |responses| && responses[e.res] == own
  }

  // One event per request, in order, each with that request's own response, and nothing else.
  ghost predicate PairedPerfectly(requests: seq<Request>, own: seq<Response>, responses: seq<Response>) {
    var events := AllEvents(requests, responses);
    && |events| == |requests| == |own|
    && forall i: nat :: i < |events| ==> PairsOwn(events[i], i, own[i], responses)
  }

  lemma NothingUnrequested(requests: seq<Request>, own: seq<Response>, responses: seq<Response>)
    requires AllAnswer(requests, own) && Distinct(requests) && SameMembers(responses, own)
    ensures AllEvents(requests, responses) == RequestEvents(requests, responses, |requests|)
  {
    EveryResponseMarked(requests, own, responses);
    AllMarkedNoneUnrequested(responses, Marked(requests, responses, |requests|), |responses|);
  }

  lemma PermutationPairs(requests: seq<Request>, own: seq<Response>, responses: seq<Response>)
    requires AllAnswer(requests, own) && Distinct(requests) && SameMembers(responses, own)
    ensures PairedPerfectly(requests, own, responses)
  {
    NothingUnrequested(requests, own, responses);
    forall i: nat | i < |requests|
      ensures PairsOwn(RequestEvent(requests, responses, i), i, own[i], responses)
    {
      LookupFindsOwn(requests, own, responses, i);
    }
  }

  // The serial loop answers element i with the i-th of these.
  lemma SerialAnswers(requests: seq<Request>, objs: seq<Element>)
    requires BatchArrives(requests, objs)
    ensures AllRespond(SerialReplies(objs)) && |SerialReplies(objs)| == |objs|
    ensures forall i :: 0 <= i < |objs| ==> HandleRequest(objs[i]) == Some(SerialReplies(objs)[i])
    ensures AllAnswer(requests, AllReceived(SerialReplies(objs)))
  {
    forall k | 0 <= k < |objs| ensures HandleRequest(objs[k]).Some? && HandleRequest(objs[k]).value.Respond? {
      ReplyOf(requests[k], objs[k]);
    }
    SerialRepliesPointwise(objs);
    forall i | 0 <= i < |objs| ensures Answers(requests[i], AllReceived(SerialReplies(objs))[i]) {
      ReplyOf(requests[i], objs[i]);
    }
  }

  lemma ReceivedSameMembers(a: seq<Reply>, b: seq<Reply>)
    requires AllRespond(b) && SameMembers(a, b)
    ensures AllRespond(a) && SameMembers(AllReceived(a), AllReceived(b))
  {
    forall j | 0 <= j < |a| ensures a[j].Respond? { assert a[j] in b; }
    forall j | 0 <= j < |a| ensures AllReceived(a)[j] in AllReceived(b) {
      assert a[j] in b;
      var k :| 0 <= k < |b| && b[k] == a[j];
      assert AllReceived(b)[k] == Received(a[j]);
    }
    forall j | 0 <= j < |b| ensures AllReceived(b)[j] in AllReceived(a) {
      assert b[j] in a;
      var k :| 0 <= k < |a| && a[k] == b[j];
      assert AllReceived(a)[k] == Received(b[j]);
    }
  }

  // Whatever order the replies are sent in, correlation gives each request its own response.
  lemma AnyOrderPairs(requests: seq<Request>, objs: seq<Element>, replies: seq<Reply>)
    requires BatchArrives(requests, objs) && Distinct(requests)
    requires multiset(replies) == multiset(SerialReplies(objs))
    ensures AllRespond(replies) && AllRespond(SerialReplies(objs))
    ensures PairedPerfectly(requests, AllReceived(SerialReplies(objs)), AllReceived(replies))
  {
    SerialAnswers(requests, objs);
    PermutationSameMembers(replies, SerialReplies(objs));
    ReceivedSameMembers(replies, SerialReplies(objs));
    PermutationPairs(requests, AllReceived(SerialReplies(objs)), AllReceived(replies));
  }

  // End to end, for every interleaving of the server's goroutines and of the client's callers.
  lemma EndToEnd(builder: BatchBuilder, objs: seq<Element>,
                 states: seq<FanOut.State>, labels: seq<FanOut.Label>)
    requires builder.Valid() && builder.batch.items != []
    requires builder.tickets[|builder.tickets| - 1] - builder.tickets[0] < CYCLE
    requires BatchArrives(builder.batch.items, objs)
    requires FanOut.Run(objs, states, labels) && states[|labels|].main.Finished?
    ensures |states[|labels|].sent| == 1
    ensures var replies := states[|labels|].sent[0];
      && AllRespond(replies) && AllRespond(SerialReplies(objs))
      && (forall i :: 0 <= i < |objs| ==>
            i < |SerialReplies(objs)| && HandleRequest(objs[i]) == Some(SerialReplies(objs)[i]))
      && (forall i :: 0 <= i < |objs| ==> i < |SerialReplies(objs)| && Tells(SerialReplies(objs)[i], objs[i]))
      && PairedPerfectly(builder.batch.items, AllReceived(SerialReplies(objs)), AllReceived(replies))
  {
    builder.EntriesDistinct();
    FanOut.ConcurrentRefinesSerial(objs, states, labels, |labels|);
    SerialAnswers(builder.batch.items, objs);
    forall i | 0 <= i < |objs| ensures Tells(SerialReplies(objs)[i], objs[i]) { ReplyTells(objs[i]); }
    AnyOrderPairs(builder.batch.items, objs, states[|labels|].sent[0]);
  }
}
