// Request IDs: the client's wrapping 32-bit counter and the batches built from it.

module Clients {
  import opened Prelude
  import opened Numerals
  import opened Ids
  import opened Batches

  const CYCLE: nat := 0x1_0000_0000

  datatype Call = Call(name: string, params: string)

  // The k-th ID, counting from 0, handed out after the counter stood at start.
  function IssuedID(start: nat, k: nat): (id: int64)
    ensures 0 <= id < CYCLE
  {
    (start + k + 1) % CYCLE
  }

  // Two issued IDs coincide exactly when a whole number of cycles lies between them.
  lemma IssuedRepeatsExactly(start: nat, i: nat, j: nat)
    requires i <= j
    ensures IssuedID(start, i) == IssuedID(start, j) <==> (j - i) % CYCLE == 0
  {
    var a, b := start + i + 1, start + j + 1;
    var d := j - i;
    assert a == CYCLE * (a / CYCLE) + a % CYCLE && b == CYCLE * (b / CYCLE) + b % CYCLE;
    assert d == CYCLE * (b / CYCLE - a / CYCLE) + (b % CYCLE - a % CYCLE);
    if b % CYCLE == a % CYCLE {
      assert d == CYCLE * (b / CYCLE - a / CYCLE);
    }
  }

  // The counter counts up from where it stood, and from the last ID wraps to 0.
  lemma IssuedCountsUp(start: nat, k: nat)
    ensures IssuedID(start, 0) == if start % CYCLE == CYCLE - 1 then 0 else start % CYCLE + 1
    ensures IssuedID(start, k + 1) == if IssuedID(start, k) == CYCLE - 1 then 0 else IssuedID(start, k) + 1
  {
    IncrementModulo(start);
    IncrementModulo(start + k + 1);
  }

  lemma IncrementModulo(n: nat)
    ensures (n + 1) % CYCLE == if n % CYCLE == CYCLE - 1 then 0 else n % CYCLE + 1
  {}

  class Client {
    ghost const start: nat
    ghost var issued: nat // IDs handed out so far, over all callers
    var counter: nat      // atomic.Uint32

    ghost predicate Valid()
      reads this
    {
      start < CYCLE && counter == (start + issued) % CYCLE
    }

    constructor (initial: nat)
      requires initial < CYCLE
      ensures Valid() && start == initial && issued == 0
    {
      start, issued, counter := initial, 0, initial;
    }

    // One atomic step, so calls by different goroutines are totally ordered.
    method NextID() returns (id: int64)
      requires Valid()
      modifies this
      ensures Valid() && issued == old(issued) + 1
      ensures id == IssuedID(start, old(issued))
    {
      counter := if counter == CYCLE - 1 then 0 else counter + 1;
      issued := issued + 1;
      id := counter;
    }
  }

  class BatchBuilder {
    const parent: Client
    const batch: Batch<Call>
    ghost var tickets: seq<nat> // which of the client's IDs each entry received

    ghost predicate Valid()
      reads this, parent, batch
    {
      && parent.Valid()
      && |tickets| == |batch.items|
      && Increasing(tickets)
      && forall i :: 0 <= i < |tickets| ==>
        && tickets[i] < parent.issued
        && batch.items[i].id == ID(Integer(IssuedID(parent.start, tickets[i])), true)
    }

    constructor (client: Client)
      requires client.Valid()
      ensures Valid() && parent == client && tickets == [] && fresh(batch)
    {
      parent := client;
      tickets := [];
      batch := new Batch();
    }

    // call is None when the parameters do not marshal to an object or array.
    method Add(call: Option<Call>) returns (ok: bool)
      requires Valid()
      modifies this, parent, batch
      ensures Valid() && ok == call.Some?
      ensures !ok ==> batch.items == old(batch.items) && parent.issued == old(parent.issued) && tickets == old(tickets)
      ensures ok ==>
        && parent.issued == old(parent.issued) + 1
        && tickets == old(tickets) + [old(parent.issued)]
        && batch.items == old(batch.items)
             + [Entry(ID(Integer(IssuedID(parent.start, old(parent.issued))), true), call.value)]
    {
      if call.None? {
        return false;
      }
      var id := parent.NextID();
      batch.Add([Entry(ID(Integer(id), true), call.value)]);
      tickets := tickets + [parent.issued - 1];
      return true;
    }

    // Other goroutines may draw any number of IDs between two Adds.
    twostate lemma OthersMayCall()
      requires old(Valid()) && parent.Valid() && parent.issued >= old(parent.issued)
      requires unchanged(this) && unchanged(batch)
      ensures Valid()
    {}

    // Entries whose IDs were drawn within one cycle of the counter have distinct IDs.
    lemma EntriesDistinct()
      requires Valid()
      requires tickets != [] ==> tickets[|tickets| - 1] - tickets[0] < CYCLE
      ensures Distinct(batch.items) && AllPlain(batch.items)
    {
      forall i, j | 0 <= i < j < |tickets| ensures !batch.items[i].id.Equal(batch.items[j].id) {
        assert tickets[0] <= tickets[i] && tickets[j] <= tickets[|tickets| - 1];
        IssuedRepeatsExactly(parent.start, tickets[i], tickets[j]);
      }
    }
  }
}
