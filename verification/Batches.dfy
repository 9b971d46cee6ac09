// Batches of messages, looked up by ID, and the correlation of requests with responses.

module Batches {
  import opened Prelude
  import opened Ids

  // A message as a batch sees it: its ID and everything else.
  datatype Entry<+T> = Entry(id: ID, payload: T)

  predicate Distinct<T>(items: seq<Entry<T>>) {
    forall i, j :: 0 <= i < j < |items| ==> !items[i].id.Equal(items[j].id)
  }

  predicate AllPlain<T>(items: seq<Entry<T>>) {
    forall i :: 0 <= i < |items| ==> IsPlain(items[i].id)
  }

  // The first position whose ID equals id, or -1.
  function IndexOf<T>(items: seq<Entry<T>>, id: ID): (i: int)
    ensures -1 <= i < |items|
  {
    if items == [] then -1
    else if id.Equal(items[0].id) then 0
    else
      var rest := IndexOf(items[1..], id);
      if rest < 0 then -1 else rest + 1
  }

  lemma {:induction false} IndexOfIsFirstMatch<T>(items: seq<Entry<T>>, id: ID)
    ensures var i := IndexOf(items, id);
      && (i >= 0 ==> id.Equal(items[i].id))
      && (forall j :: 0 <= j < |items| && (i < 0 || j < i) ==> !id.Equal(items[j].id))
    ensures IndexOf(items, id) < 0 <==> forall j :: 0 <= j < |items| ==> !id.Equal(items[j].id)
  {
    if items != [] {
      IndexOfIsFirstMatch(items[1..], id);
      forall j | 1 <= j < |items| ensures items[j] == items[1..][j - 1] {}
    }
  }

  lemma IndexOfUnique<T>(items: seq<Entry<T>>, id: ID, i: nat)
    requires i < |items| && id.Equal(items[i].id)
    requires forall j :: 0 <= j < i ==> !id.Equal(items[j].id)
    ensures IndexOf(items, id) == i
  {
    IndexOfIsFirstMatch(items, id);
  }

  class Batch<T(!new)> {
    var items: seq<Entry<T>>

    constructor ()
      ensures items == []
    {
      items := [];
    }

    method Add(added: seq<Entry<T>>)
      modifies this
      ensures items == old(items) + added
    {
      items := items + added;
    }

    method Index(id: ID) returns (i: int)
      ensures i == IndexOf(items, id)
    {
      if !id.IsZero() {
        for k := 0 to |items|
          invariant forall j :: 0 <= j < k ==> !id.Equal(items[j].id)
        {
          if id.Equal(items[k].id) {
            IndexOfUnique(items, id, k);
            return k;
          }
        }
      }
      IndexOfIsFirstMatch(items, id);
      return -1;
    }

    method Contains(id: ID) returns (found: bool)
      ensures found <==> exists j :: 0 <= j < |items| && id.Equal(items[j].id)
    {
      var i := Index(id);
      IndexOfIsFirstMatch(items, id);
      found := i >= 0;
    }

    method Get(id: ID) returns (entry: Option<Entry<T>>)
      ensures var i := IndexOf(items, id); entry == if i < 0 then None else Some(items[i])
    {
      var i := Index(id);
      if i < 0 {
        return None;
      }
      return Some(items[i]);
    }

    method Delete(id: ID) returns (deleted: Option<Entry<T>>)
      modifies this
      ensures var i := IndexOf(old(items), id);
        if i < 0 then deleted == None && items == old(items)
        else deleted == Some(old(items)[i]) && items == old(items)[..i] + old(items)[i + 1..]
    {
      var i := Index(id);
      if i < 0 {
        return None;
      }
      deleted := Some(items[i]);
      items := items[..i] + items[i + 1..];
    }

    method Reset()
      modifies this
      ensures items == []
    {
      items := items[..0];
    }
  }

  function Deleted<T>(items: seq<Entry<T>>, id: ID): seq<Entry<T>> {
    var i := IndexOf(items, id);
    if i < 0 then items else items[..i] + items[i + 1..]
  }

  lemma DistinctAt<T>(items: seq<Entry<T>>, via: ID, i: nat, j: nat)
    requires Distinct(items) && AllPlain(items) && IsPlain(via)
    requires i < |items| && j < |items|
    requires via.Equal(items[i].id) && via.Equal(items[j].id)
    ensures i == j
  {
    EqualVia(items[i].id, items[j].id, via);
  }

  // With distinct plain IDs, deleting an ID leaves no match for it ...
  lemma DeleteForgets<T>(items: seq<Entry<T>>, id: ID)
    requires Distinct(items) && AllPlain(items) && IsPlain(id)
    ensures IndexOf(Deleted(items, id), id) < 0
  {
    var i, after := IndexOf(items, id), Deleted(items, id);
    IndexOfIsFirstMatch(items, id);
    IndexOfIsFirstMatch(after, id);
    if i >= 0 && IndexOf(after, id) >= 0 {
      var j := IndexOf(after, id);
      DistinctAt(items, id, i, if j < i then j else j + 1);
    }
  }

  // ... and every other lookup still finds the entry it found before.
  lemma DeleteKeepsOthers<T>(items: seq<Entry<T>>, id: ID, other: ID)
    requires IsPlain(id) && IsPlain(other) && AllPlain(items)
    requires !id.Equal(other) && IndexOf(items, other) >= 0
    ensures var k := IndexOf(Deleted(items, id), other);
      k >= 0 && Deleted(items, id)[k] == items[IndexOf(items, other)]
  {
    var i, o, after := IndexOf(items, id), IndexOf(items, other), Deleted(items, id);
    IndexOfIsFirstMatch(items, other);
    if i >= 0 {
      IndexOfIsFirstMatch(items, id);
      if o == i { EqualVia(id, other, items[i].id); }
      var k := if o < i then o else o - 1;
      IndexOfUnique(after, other, k);
    }
  }

  // Adding an entry whose ID is new and deleting that ID again restores the batch.
  lemma DeleteUndoesAdd<T>(items: seq<Entry<T>>, added: Entry<T>)
    requires added.id.present && IndexOf(items, added.id) < 0
    ensures Deleted(items + [added], added.id) == items
  {
    IndexOfIsFirstMatch(items, added.id);
    EqualReflexiveIffPresent(added.id);
    IndexOfUnique(items + [added], added.id, |items|);
  }
}

module Correlation {
  import opened Prelude
  import opened Ids
  import opened Batches

  // One call of the correlated callback; positions stand for the message pointers.
  datatype Event = Paired(req: nat, res: nat) | Unanswered(req: nat) | Unrequested(res: nat)

  function RequestEvent<Q, R>(requests: seq<Entry<Q>>, responses: seq<Entry<R>>, i: nat): Event
    requires i < |requests|
  {
    var j := IndexOf(responses, requests[i].id);
    if j < 0 then Unanswered(i) else Paired(i, j)
  }

  function RequestEvents<Q, R>(requests: seq<Entry<Q>>, responses: seq<Entry<R>>, n: nat): (events: seq<Event>)
    requires n <= |requests|
    ensures |events| == n
    ensures forall i :: 0 <= i < n ==> events[i] == RequestEvent(requests, responses, i)
  {
    seq(n, i requires 0 <= i < n => RequestEvent(requests, responses, i))
  }

  // The IDs recorded as processed by the first n requests. Recording is by Go equality.
  function Marked<Q, R>(requests: seq<Entry<Q>>, responses: seq<Entry<R>>, n: nat): set<ID>
    requires n <= |requests|
  {
    set i | 0 <= i < n && IndexOf(responses, requests[i].id) >= 0 ::
      responses[IndexOf(responses, requests[i].id)].id
  }

  function ResponseEvents<R>(responses: seq<Entry<R>>, marked: set<ID>, n: nat): seq<Event>
    requires n <= |responses|
  {
    if n == 0 then []
    else ResponseEvents(responses, marked, n - 1)
         + if responses[n - 1].id in marked then [] else [Unrequested(n - 1)]
  }

  // Every callback that BatchCorrelate makes when no callback answers false.
  function AllEvents<Q, R>(requests: seq<Entry<Q>>, responses: seq<Entry<R>>): seq<Event> {
    RequestEvents(requests, responses, |requests|)
    + ResponseEvents(responses, Marked(requests, responses, |requests|), |responses|)
  }

  // events is what happens of all when cont(h) answers the last callback of history h.
  ghost predicate CutAtFirstFalse(events: seq<Event>, all: seq<Event>, cont: seq<Event> -> bool) {
    && events <= all
    && (forall k :: 0 < k < |events| ==> cont(events[..k]))
    && (events != all ==> events != [] && !cont(events))
  }

  // Every callback so far answered true.
  ghost predicate AllContinued(events: seq<Event>, cont: seq<Event> -> bool) {
    forall k :: 0 < k <= |events| ==> cont(events[..k])
  }

  lemma Continue(events: seq<Event>, e: Event, all: seq<Event>, cont: seq<Event> -> bool)
    requires AllContinued(events, cont) && events + [e] <= all
    ensures cont(events + [e]) ==> AllContinued(events + [e], cont)
    ensures !cont(events + [e]) ==> CutAtFirstFalse(events + [e], all, cont)
  {
    var longer := events + [e];
    assert longer[..|longer|] == longer;
    assert forall k :: 0 < k <= |events| ==> longer[..k] == events[..k];
  }

  method BatchCorrelate<Q(!new), R(!new)>(requests: Batch<Q>, responses: Batch<R>, cont: seq<Event> -> bool)
    returns (events: seq<Event>)
    ensures CutAtFirstFalse(events, AllEvents(requests.items, responses.items), cont)
  {
    ghost var qs, rs := requests.items, responses.items;
    ghost var all := AllEvents(qs, rs);
    events := [];
    var processed: set<ID> := {};
    for i := 0 to |requests.items|
      invariant events == RequestEvents(qs, rs, i)
      invariant processed == Marked(qs, rs, i)
      invariant AllContinued(events, cont)
    {
      var req := requests.items[i];
      var j := responses.Index(req.id);
      if j >= 0 {
        processed := processed + {responses.items[j].id};
      }
      var event := if j >= 0 then Paired(i, j) else Unanswered(i);
      assert events + [event] == RequestEvents(qs, rs, i + 1) <= all;
      Continue(events, event, all, cont);
      events := events + [event];
      if !cont(events) {
        return;
      }
    }
    for j := 0 to |responses.items|
      invariant events == RequestEvents(qs, rs, |qs|) + ResponseEvents(rs, processed, j)
      invariant AllContinued(events, cont)
    {
      if responses.items[j].id !in processed {
        ResponseEventsGrow(rs, processed, j + 1, |rs|);
        var event := Unrequested(j);
        assert events + [event] == RequestEvents(qs, rs, |qs|) + ResponseEvents(rs, processed, j + 1) <= all;
        Continue(events, event, all, cont);
        events := events + [event];
        if !cont(events) {
          return;
        }
      }
    }
  }

  lemma {:induction false} ResponseEventsGrow<R>(responses: seq<Entry<R>>, marked: set<ID>, m: nat, n: nat)
    requires m <= n <= |responses|
    ensures ResponseEvents(responses, marked, m) <= ResponseEvents(responses, marked, n)
  {
    if m < n { ResponseEventsGrow(responses, marked, m, n - 1); }
  }

  // The specification determines the events.
  lemma CutIsUnique(a: seq<Event>, b: seq<Event>, all: seq<Event>, cont: seq<Event> -> bool)
    requires CutAtFirstFalse(a, all, cont) && CutAtFirstFalse(b, all, cont)
    ensures a == b
  {
    var m := Min(|a|, |b|);
    assert a[..m] == all[..m] == b[..m];
    assert a[..|a|] == a && b[..|b|] == b;
  }

  // Every callback, in order: one for each request, with its first Equal response or none, and
  // then one for each response whose ID was not marked.
  lemma {:induction false} UnrequestedInOrder<R>(responses: seq<Entry<R>>, marked: set<ID>, n: nat)
    returns (at: seq<nat>)
    requires n <= |responses|
    ensures |at| == |ResponseEvents(responses, marked, n)| && Increasing(at)
    ensures forall i :: 0 <= i < |at| ==> ResponseEvents(responses, marked, n)[i] == Unrequested(at[i])
    ensures forall j: nat :: j in at <==> j < n && responses[j].id !in marked
  {
    if n == 0 {
      at := [];
    } else {
      at := UnrequestedInOrder(responses, marked, n - 1);
      if responses[n - 1].id !in marked {
        forall i | 0 <= i < |at| ensures at[i] < n - 1 { assert at[i] in at; }
        at := at + [n - 1];
      }
    }
  }

  lemma EventsExactly<Q, R>(requests: seq<Entry<Q>>, responses: seq<Entry<R>>) returns (at: seq<nat>)
    ensures var events := AllEvents(requests, responses);
      && |events| == |requests| + |at| && Increasing(at)
      && (forall i: nat :: i < |requests| ==>
            || (exists j: nat :: events[i] == Paired(i, j) && j < |responses| && requests[i].id.Equal(responses[j].id)
                  && forall m :: 0 <= m < j ==> !requests[i].id.Equal(responses[m].id))
            || (events[i] == Unanswered(i)
                  && forall m :: 0 <= m < |responses| ==> !requests[i].id.Equal(responses[m].id)))
      && (forall i :: 0 <= i < |at| ==> events[|requests| + i] == Unrequested(at[i]))
      && (forall j: nat :: j in at <==> j < |responses| && responses[j].id !in Marked(requests, responses, |requests|))
  {
    at := UnrequestedInOrder(responses, Marked(requests, responses, |requests|), |responses|);
    forall i: nat | i < |requests|
      ensures var j := IndexOf(responses, requests[i].id);
        if j < 0 then forall m :: 0 <= m < |responses| ==> !requests[i].id.Equal(responses[m].id)
        else requests[i].id.Equal(responses[j].id) && forall m :: 0 <= m < j ==> !requests[i].id.Equal(responses[m].id)
    {
      IndexOfIsFirstMatch(responses, requests[i].id);
    }
    forall i: nat | i < |requests|
      ensures AllEvents(requests, responses)[i] == RequestEvent(requests, responses, i)
    {}
  }

  function Carries(e: Event, j: nat): bool { (e.Paired? || e.Unrequested?) && e.res == j }

  // How many events carry response j.
  function Occurrences(events: seq<Event>, j: nat): nat {
    if events == [] then 0
    else Occurrences(events[..|events| - 1], j) + if Carries(events[|events| - 1], j) then 1 else 0
  }

  // The requests whose lookup found response j.
  function RequestsFor<Q, R>(requests: seq<Entry<Q>>, responses: seq<Entry<R>>, n: nat, j: nat): set<nat>
    requires n <= |requests|
  {
    set i: nat | i < n && IndexOf(responses, requests[i].id) == j
  }

  lemma {:induction false} OccurrencesConcat(a: seq<Event>, b: seq<Event>, j: nat)
    ensures Occurrences(a + b, j) == Occurrences(a, j) + Occurrences(b, j)
  {
    if b == [] {
      assert a + b == a;
    } else {
      OccurrencesConcat(a, b[..|b| - 1], j);
      assert (a + b)[..|a + b| - 1] == a + b[..|b| - 1];
    }
  }

  lemma RequestsForGrow<Q, R>(requests: seq<Entry<Q>>, responses: seq<Entry<R>>, n: nat, j: nat)
    requires 0 < n <= |requests|
    ensures |RequestsFor(requests, responses, n, j)| == |RequestsFor(requests, responses, n - 1, j)|
            + if IndexOf(responses, requests[n - 1].id) == j then 1 else 0
  {
    var hit := IndexOf(responses, requests[n - 1].id) == j;
    assert RequestsFor(requests, responses, n, j)
        == RequestsFor(requests, responses, n - 1, j) + if hit then {n - 1} else {};
  }

  lemma {:induction false} OccurrencesInRequests<Q, R>(
    requests: seq<Entry<Q>>, responses: seq<Entry<R>>, n: nat, j: nat)
    requires n <= |requests|
    ensures Occurrences(RequestEvents(requests, responses, n), j) == |RequestsFor(requests, responses, n, j)|
  {
    if n == 0 {
      assert RequestsFor(requests, responses, n, j) == {};
    } else {
      OccurrencesInRequests(requests, responses, n - 1, j);
      RequestsForGrow(requests, responses, n, j);
      var event := RequestEvent(requests, responses, n - 1);
      assert RequestEvents(requests, responses, n) == RequestEvents(requests, responses, n - 1) + [event];
      OccurrencesConcat(RequestEvents(requests, responses, n - 1), [event], j);
      assert Occurrences([event], j) == Occurrences([event][..0], j) + if Carries(event, j) then 1 else 0;
    }
  }

  lemma {:induction false} OccurrencesInResponses<R>(responses: seq<Entry<R>>, marked: set<ID>, n: nat, j: nat)
    requires n <= |responses|
    ensures Occurrences(ResponseEvents(responses, marked, n), j)
         == if j < n && responses[j].id !in marked then 1 else 0
  {
    if n > 0 {
      OccurrencesInResponses(responses, marked, n - 1, j);
      var events := ResponseEvents(responses, marked, n);
      if responses[n - 1].id !in marked {
        assert events[..|events| - 1] == ResponseEvents(responses, marked, n - 1);
      } else {
        assert events == ResponseEvents(responses, marked, n - 1);
      }
    }
  }

  // Response j is reported once for each request that found it, and once more when no
  // request found a response whose ID is Go-equal to its own.
  lemma OccurrencesExactly<Q, R>(requests: seq<Entry<Q>>, responses: seq<Entry<R>>, j: nat)
    requires j < |responses|
    ensures Occurrences(AllEvents(requests, responses), j)
         == |RequestsFor(requests, responses, |requests|, j)|
            + if responses[j].id in Marked(requests, responses, |requests|) then 0 else 1
    ensures responses[j].id !in Marked(requests, responses, |requests|) ==>
              RequestsFor(requests, responses, |requests|, j) == {}
  {
    var marked := Marked(requests, responses, |requests|);
    OccurrencesConcat(RequestEvents(requests, responses, |requests|),
                      ResponseEvents(responses, marked, |responses|), j);
    OccurrencesInRequests(requests, responses, |requests|, j);
    OccurrencesInResponses(responses, marked, |responses|, j);
    var hits := RequestsFor(requests, responses, |requests|, j);
    if hits != {} {
      var i :| i in hits;
      assert responses[j].id in marked;
    }
  }

  // A response goes unreported exactly when a request matched another response whose ID is Go-equal to its own.
  lemma DroppedExactly<Q, R>(requests: seq<Entry<Q>>, responses: seq<Entry<R>>, j: nat)
    requires j < |responses|
    ensures Occurrences(AllEvents(requests, responses), j) == 0 <==>
      && responses[j].id in Marked(requests, responses, |requests|)
      && forall i :: 0 <= i < |requests| ==> IndexOf(responses, requests[i].id) != j
  {
    OccurrencesExactly(requests, responses, j);
    var hits := RequestsFor(requests, responses, |requests|, j);
    if hits == {} {
      forall i | 0 <= i < |requests| ensures IndexOf(responses, requests[i].id) != j {
        assert i !in hits;
      }
    } else {
      var i :| i in hits;
      assert IndexOf(responses, requests[i].id) == j;
      assert |hits| > 0 by { SubsetSize({i}, hits); }
    }
  }

  lemma DuplicateResponseIsDropped()
    ensures var id := ID(Number("1"), true);
      AllEvents([Entry(id, "q")], [Entry(id, "first"), Entry(id, "second")]) == [Paired(0, 0)]
  {
    var id := ID(Number("1"), true);
    var requests, responses := [Entry(id, "q")], [Entry(id, "first"), Entry(id, "second")];
    var marked := Marked(requests, responses, 1);
    assert IndexOf(responses, id) == 0;
    assert responses[IndexOf(responses, requests[0].id)].id in marked;
    assert ResponseEvents(responses, marked, 0) == [];
    assert ResponseEvents(responses, marked, 1) == [];
    assert ResponseEvents(responses, marked, 2) == [];
    assert RequestEvents(requests, responses, 1) == [Paired(0, 0)];
  }

  // Two requests never find the same response.
  lemma NoSharedResponse<Q, R>(requests: seq<Entry<Q>>, responses: seq<Entry<R>>, i: nat, k: nat)
    requires Distinct(requests) && AllPlain(requests) && AllPlain(responses)
    requires i < |requests| && k < |requests|
    requires IndexOf(responses, requests[i].id) == IndexOf(responses, requests[k].id) >= 0
    ensures i == k
  {
    IndexOfIsFirstMatch(responses, requests[i].id);
    IndexOfIsFirstMatch(responses, requests[k].id);
    EqualVia(requests[i].id, requests[k].id, responses[IndexOf(responses, requests[i].id)].id);
  }

  // With distinct responses, recording an ID by Go equality records just the response found.
  lemma MarkedIffFound<Q, R>(requests: seq<Entry<Q>>, responses: seq<Entry<R>>, j: nat)
    requires Distinct(responses) && j < |responses|
    ensures responses[j].id in Marked(requests, responses, |requests|) <==>
              exists i: nat :: i < |requests| && IndexOf(responses, requests[i].id) == j
  {
    if responses[j].id in Marked(requests, responses, |requests|) {
      var i: nat :| i < |requests| && IndexOf(responses, requests[i].id) >= 0
            && responses[IndexOf(responses, requests[i].id)].id == responses[j].id;
      IndexOfIsFirstMatch(responses, requests[i].id);
      EqualReflexiveIffPresent(responses[j].id);
      assert IndexOf(responses, requests[i].id) == j;
    }
  }

  // With distinct plain IDs on both sides, every response is reported exactly once.
  lemma EachResponseOnce<Q, R>(requests: seq<Entry<Q>>, responses: seq<Entry<R>>, j: nat)
    requires Distinct(requests) && Distinct(responses) && AllPlain(requests) && AllPlain(responses)
    requires j < |responses|
    ensures Occurrences(AllEvents(requests, responses), j) == 1
  {
    OccurrencesExactly(requests, responses, j);
    MarkedIffFound(requests, responses, j);
    if responses[j].id in Marked(requests, responses, |requests|) {
      var i: nat :| i < |requests| && IndexOf(responses, requests[i].id) == j;
      forall i' | i' in RequestsFor(requests, responses, |requests|, j) ensures i' == i {
        NoSharedResponse(requests, responses, i, i');
      }
      assert RequestsFor(requests, responses, |requests|, j) == {i};
    }
  }

  // The requests that found a response, and the responses found by some of them.
  function Matches<Q, R>(requests: seq<Entry<Q>>, responses: seq<Entry<R>>): set<nat> {
    set i: nat | i < |requests| && IndexOf(responses, requests[i].id) >= 0
  }

  predicate IsFound<Q, R>(requests: seq<Entry<Q>>, responses: seq<Entry<R>>, from: set<nat>, j: nat) {
    exists i :: i in from && i < |requests| && IndexOf(responses, requests[i].id) == j
  }

  function FoundBy<Q, R>(requests: seq<Entry<Q>>, responses: seq<Entry<R>>, from: set<nat>): set<nat> {
    set j: nat | j < |responses| && IsFound(requests, responses, from, j)
  }

  lemma {:induction false} UnrequestedCount<R>(responses: seq<Entry<R>>, marked: set<ID>, n: nat)
    requires n <= |responses|
    ensures |ResponseEvents(responses, marked, n)| + |set j: nat | j < n && responses[j].id in marked| == n
  {
    var hit := set j: nat | j < n && responses[j].id in marked;
    if n == 0 {
      assert hit == {};
    } else {
      UnrequestedCount(responses, marked, n - 1);
      var rest := set j: nat | j < n - 1 && responses[j].id in marked;
      assert hit == rest + if responses[n - 1].id in marked then {n - 1} else {};
    }
  }

  lemma {:induction false} FoundBySize<Q, R>(requests: seq<Entry<Q>>, responses: seq<Entry<R>>, from: set<nat>)
    requires Distinct(requests) && AllPlain(requests) && AllPlain(responses)
    requires from <= Matches(requests, responses)
    ensures |FoundBy(requests, responses, from)| == |from|
  {
    if from == {} {
      assert FoundBy(requests, responses, from) == {};
    } else {
      var i :| i in from;
      var j: nat := IndexOf(responses, requests[i].id);
      FoundBySize(requests, responses, from - {i});
      forall k | k in from - {i} ensures IndexOf(responses, requests[k].id) != j {
        if IndexOf(responses, requests[k].id) == j { NoSharedResponse(requests, responses, i, k); }
      }
      assert FoundBy(requests, responses, from) == FoundBy(requests, responses, from - {i}) + {j};
    }
  }

  // The number of callbacks is the number of messages less the number of matches.
  lemma EventCount<Q, R>(requests: seq<Entry<Q>>, responses: seq<Entry<R>>)
    requires Distinct(requests) && Distinct(responses) && AllPlain(requests) && AllPlain(responses)
    ensures |AllEvents(requests, responses)|
         == |requests| + |responses| - |Matches(requests, responses)|
  {
    var marked := Marked(requests, responses, |requests|);
    FoundBySize(requests, responses, Matches(requests, responses));
    UnrequestedCount(responses, marked, |responses|);
    var hit := set j: nat | j < |responses| && responses[j].id in marked;
    forall j: nat ensures j in hit <==> j in FoundBy(requests, responses, Matches(requests, responses)) {
      if j < |responses| { MarkedIffFound(requests, responses, j); }
    }
    assert hit == FoundBy(requests, responses, Matches(requests, responses));
  }
}
