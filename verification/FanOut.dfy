// A batch handled concurrently: one goroutine per element, an append guarded by a mutex,
// and a wait group that holds back the encoding.

module FanOut {
  import opened Prelude
  import opened Executions
  import opened Rpc

  // Where the goroutine of one element stands. The append is split into its read and its write.
  datatype Pc =
    | Unstarted
    | Running
    | WantsLock(reply: Reply)
    | Locked(reply: Reply)
    | HasRead(reply: Reply, snapshot: seq<Reply>)
    | HasWritten
    | Finishing
    | Done

  datatype MainPc = Spawning | Encoding | Finished

  datatype State = State(
    pcs: seq<Pc>, spawned: nat, waiting: nat, lock: Option<nat>, resps: seq<Reply>,
    main: MainPc, sent: seq<seq<Reply>>)

  datatype Label =
    | Spawn | Wait | Encode
    | Handle(i: nat) | Lock(i: nat) | Read(i: nat) | Write(i: nat) | Unlock(i: nat) | Finish(i: nat)

  predicate Init(objs: seq<Element>, s: State) {
    s == State(seq(|objs|, _ => Unstarted), 0, 0, None, [], Spawning, [])
  }

  predicate At(s: State, i: nat) { i < |s.pcs| }

  predicate Enabled(objs: seq<Element>, s: State, l: Label) {
    match l
    case Spawn => s.main.Spawning? && s.spawned < |objs| == |s.pcs|
    case Wait => s.main.Spawning? && s.spawned == |objs| && s.waiting == 0
    case Encode => s.main.Encoding?
    case Handle(i) => At(s, i) && i < |objs| && s.pcs[i].Running?
    case Lock(i) => At(s, i) && s.pcs[i].WantsLock? && s.lock.None?
    case Read(i) => At(s, i) && s.pcs[i].Locked?
    case Write(i) => At(s, i) && s.pcs[i].HasRead?
    case Unlock(i) => At(s, i) && s.pcs[i].HasWritten?
    case Finish(i) => At(s, i) && s.pcs[i].Finishing? && s.waiting > 0
  }

  function Apply(objs: seq<Element>, s: State, l: Label): State
    requires Enabled(objs, s, l)
  {
    match l
    case Spawn => s.(pcs := s.pcs[s.spawned := Running], spawned := s.spawned + 1, waiting := s.waiting + 1)
    case Wait => s.(main := Encoding)
    case Encode => s.(main := Finished, sent := if |s.resps| > 0 then s.sent + [s.resps] else s.sent)
    case Handle(i) =>
      var reply := HandleRequest(objs[i]);
      s.(pcs := s.pcs[i := if reply.Some? then WantsLock(reply.value) else Finishing])
    case Lock(i) => s.(pcs := s.pcs[i := Locked(s.pcs[i].reply)], lock := Some(i))
    case Read(i) => s.(pcs := s.pcs[i := HasRead(s.pcs[i].reply, s.resps)])
    case Write(i) => s.(pcs := s.pcs[i := HasWritten], resps := s.pcs[i].snapshot + [s.pcs[i].reply])
    case Unlock(i) => s.(pcs := s.pcs[i := Finishing], lock := None)
    case Finish(i) => s.(pcs := s.pcs[i := Done], waiting := s.waiting - 1)
  }

  predicate Next(objs: seq<Element>, s: State, l: Label, t: State) {
    Enabled(objs, s, l) && t == Apply(objs, s, l)
  }

  predicate InCritical(pc: Pc) { pc.Locked? || pc.HasRead? || pc.HasWritten? }

  predicate HasAppended(pc: Pc) { pc.HasWritten? || pc.Finishing? || pc.Done? }

  predicate IsActive(pc: Pc) { !pc.Unstarted? && !pc.Done? }

  // Whether this goroutine has put reply r into the shared list, and how many of the first n have.
  function Part(e: Element, pc: Pc, r: Reply): nat {
    if HasAppended(pc) && HandleRequest(e) == Some(r) then 1 else 0
  }

  function Appended(objs: seq<Element>, pcs: seq<Pc>, n: nat, r: Reply): nat
    requires n <= |objs| && n <= |pcs|
  {
    if n == 0 then 0 else Appended(objs, pcs, n - 1, r) + Part(objs[n - 1], pcs[n - 1], r)
  }

  predicate Carries(e: Element, pc: Pc) {
    pc.WantsLock? || pc.Locked? || pc.HasRead? ==> HandleRequest(e) == Some(pc.reply)
  }

  // Started goroutines are the spawned ones, and the wait group counts those still running.
  ghost predicate Spawned(objs: seq<Element>, s: State) {
    && |s.pcs| == |objs| && s.spawned <= |objs|
    && (forall i: nat :: i < |objs| ==> (s.pcs[i].Unstarted? <==> s.spawned <= i))
    && s.waiting == |Where(s.pcs, IsActive)|
  }

  // At most the lock holder is between Lock and Unlock, and what it read is still current.
  ghost predicate Exclusive(s: State) {
    && (s.lock.Some? ==> s.lock.value < |s.pcs|)
    && (forall i: nat :: i < |s.pcs| ==> (InCritical(s.pcs[i]) <==> s.lock == Some(i)))
    && (forall i: nat :: i < |s.pcs| && s.pcs[i].HasRead? ==> s.pcs[i].snapshot == s.resps)
  }

  // The list holds exactly the replies of the goroutines that have appended.
  ghost predicate Collected(objs: seq<Element>, s: State) {
    && |s.pcs| == |objs|
    && (forall i: nat :: i < |objs| ==> Carries(objs[i], s.pcs[i]))
    && (forall r :: multiset(s.resps)[r] == Appended(objs, s.pcs, |objs|, r))
  }

  ghost predicate MainWaits(s: State) {
    && (!s.main.Spawning? ==> forall i: nat :: i < |s.pcs| ==> s.pcs[i].Done?)
    && s.sent == if s.main.Finished? && |s.resps| > 0 then [s.resps] else []
  }

  ghost predicate Inv(objs: seq<Element>, s: State) {
    Spawned(objs, s) && Exclusive(s) && Collected(objs, s) && MainWaits(s)
  }

  lemma {:induction false} AppendedUpdate(objs: seq<Element>, pcs: seq<Pc>, n: nat, i: nat, pc: Pc, r: Reply)
    requires n <= |objs| == |pcs| && i < |pcs|
    ensures Appended(objs, pcs[i := pc], n, r) == Appended(objs, pcs, n, r)
            + if i < n then Part(objs[i], pc, r) - Part(objs[i], pcs[i], r) else 0
  {
    if n > 0 { AppendedUpdate(objs, pcs, n - 1, i, pc, r); }
  }

  // The goroutine a label moves.
  function Mover(s: State, l: Label): nat
    requires !l.Wait? && !l.Encode?
  {
    if l.Spawn? then s.spawned else l.i
  }

  lemma SpawnedStep(objs: seq<Element>, s: State, l: Label)
    requires Spawned(objs, s) && Enabled(objs, s, l)
    ensures Spawned(objs, Apply(objs, s, l))
  {
    var t := Apply(objs, s, l);
    if !l.Wait? && !l.Encode? {
      WhereUpdate(s.pcs, Mover(s, l), t.pcs[Mover(s, l)], IsActive);
    }
  }

  lemma ExclusiveStep(objs: seq<Element>, s: State, l: Label)
    requires Exclusive(s) && Enabled(objs, s, l) && (l.Spawn? ==> s.pcs[s.spawned].Unstarted?)
    ensures Exclusive(Apply(objs, s, l))
  {}

  lemma CarriesStep(objs: seq<Element>, s: State, l: Label)
    requires |s.pcs| == |objs| && Enabled(objs, s, l)
    requires forall i: nat :: i < |objs| ==> Carries(objs[i], s.pcs[i])
    ensures forall i: nat :: i < |objs| ==> Carries(objs[i], Apply(objs, s, l).pcs[i])
  {
    var t := Apply(objs, s, l);
    forall i: nat | i < |objs| ensures Carries(objs[i], t.pcs[i]) {
      assert Carries(objs[i], s.pcs[i]);
    }
  }

  lemma AppendedStep(objs: seq<Element>, s: State, l: Label, r: Reply)
    requires |s.pcs| == |objs| && Enabled(objs, s, l) && !l.Wait? && !l.Encode?
    requires Carries(objs[Mover(s, l)], s.pcs[Mover(s, l)])
    requires s.pcs[Mover(s, l)].HasRead? ==> s.pcs[Mover(s, l)].snapshot == s.resps
    requires l.Spawn? ==> s.pcs[s.spawned].Unstarted?
    requires multiset(s.resps)[r] == Appended(objs, s.pcs, |objs|, r)
    ensures multiset(Apply(objs, s, l).resps)[r] == Appended(objs, Apply(objs, s, l).pcs, |objs|, r)
  {
    var t, i := Apply(objs, s, l), Mover(s, l);
    AppendedUpdate(objs, s.pcs, |objs|, i, t.pcs[i], r);
    assert t.pcs == s.pcs[i := t.pcs[i]];
    if l.Write? {
      assert multiset(t.resps)[r] == multiset(s.resps)[r] + if s.pcs[i].reply == r then 1 else 0;
    }
  }

  lemma CollectedStep(objs: seq<Element>, s: State, l: Label)
    requires Collected(objs, s) && Exclusive(s) && Enabled(objs, s, l)
    requires l.Spawn? ==> s.pcs[s.spawned].Unstarted?
    ensures Collected(objs, Apply(objs, s, l))
  {
    CarriesStep(objs, s, l);
    if !l.Wait? && !l.Encode? {
      assert Carries(objs[Mover(s, l)], s.pcs[Mover(s, l)]);
      forall r ensures multiset(Apply(objs, s, l).resps)[r] == Appended(objs, Apply(objs, s, l).pcs, |objs|, r) {
        AppendedStep(objs, s, l, r);
      }
    }
  }

  lemma MainWaitsStep(objs: seq<Element>, s: State, l: Label)
    requires MainWaits(s) && Spawned(objs, s) && Enabled(objs, s, l)
    ensures MainWaits(Apply(objs, s, l))
  {
    if l.Wait? {
      forall i: nat | i < |objs| ensures s.pcs[i].Done? {
        assert i !in Where(s.pcs, IsActive);
      }
    }
  }

  lemma InvStep(objs: seq<Element>, s: State, l: Label, t: State)
    requires Inv(objs, s) && Next(objs, s, l, t)
    ensures Inv(objs, t)
  {
    assert l.Spawn? ==> s.pcs[s.spawned].Unstarted?;
    SpawnedStep(objs, s, l);
    ExclusiveStep(objs, s, l);
    CollectedStep(objs, s, l);
    MainWaitsStep(objs, s, l);
  }

  lemma {:induction false} NothingAppended(objs: seq<Element>, pcs: seq<Pc>, n: nat, r: Reply)
    requires n <= |objs| && n <= |pcs| && forall i :: 0 <= i < n ==> pcs[i].Unstarted?
    ensures Appended(objs, pcs, n, r) == 0
  {
    if n > 0 { NothingAppended(objs, pcs, n - 1, r); }
  }

  lemma {:induction false} AllAppended(objs: seq<Element>, pcs: seq<Pc>, n: nat, r: Reply)
    requires n <= |pcs| && n <= |objs| && forall i :: 0 <= i < |pcs| ==> pcs[i].Done?
    ensures Appended(objs, pcs, n, r) == multiset(SerialReplies(objs[..n]))[r]
  {
    if n > 0 {
      AllAppended(objs, pcs, n - 1, r);
      assert objs[..n][..n - 1] == objs[..n - 1];
    }
  }

  lemma InvIsInductive(objs: seq<Element>)
    ensures Inductive(s => Init(objs, s), (s, l, t) => Next(objs, s, l, t), s => Inv(objs, s))
  {
    forall s | Init(objs, s) ensures Inv(objs, s) {
      forall r ensures Appended(objs, s.pcs, |objs|, r) == 0 { NothingAppended(objs, s.pcs, |objs|, r); }
      assert Where(s.pcs, IsActive) == {};
    }
    forall s, l, t | Inv(objs, s) && Next(objs, s, l, t) ensures Inv(objs, t) {
      InvStep(objs, s, l, t);
    }
  }

  ghost predicate Run(objs: seq<Element>, states: seq<State>, labels: seq<Label>) {
    IsRun(s => Init(objs, s), (s, l, t) => Next(objs, s, l, t), states, labels)
  }

  // In every interleaving: nothing is encoded before all goroutines are done, no append is
  // lost, and what is encoded is a permutation of the serial loop's replies.
  lemma ConcurrentRefinesSerial(objs: seq<Element>, states: seq<State>, labels: seq<Label>, k: nat)
    requires Run(objs, states, labels) && k < |states|
    ensures var s := states[k];
      && (s.sent != [] ==> s.main.Finished?)
      && (!s.main.Spawning? ==> forall i :: 0 <= i < |s.pcs| ==> s.pcs[i].Done?)
      && (s.main.Finished? && SerialReplies(objs) == [] ==> s.sent == [])
      && (s.main.Finished? && SerialReplies(objs) != [] ==>
            |s.sent| == 1 && multiset(s.sent[0]) == multiset(SerialReplies(objs)))
  {
    InvIsInductive(objs);
    InvariantHolds(s => Init(objs, s), (s, l, t) => Next(objs, s, l, t), s => Inv(objs, s), states, labels);
    var s := states[k];
    assert Inv(objs, s);
    if !s.main.Spawning? {
      assert objs[..|objs|] == objs;
      forall r ensures multiset(s.resps)[r] == multiset(SerialReplies(objs))[r] {
        AllAppended(objs, s.pcs, |objs|, r);
      }
      assert |s.resps| == |multiset(s.resps)| && |SerialReplies(objs)| == |multiset(SerialReplies(objs))|;
    }
  }

  // No goroutine is ever stuck: until the batch returns, some step is possible.
  lemma NoDeadlock(objs: seq<Element>, s: State) returns (l: Label)
    requires Inv(objs, s) && !s.main.Finished?
    ensures Enabled(objs, s, l)
  {
    if s.main.Encoding? {
      l := Encode;
    } else if s.spawned < |objs| {
      l := Spawn;
    } else if s.waiting == 0 {
      l := Wait;
    } else {
      assert Where(s.pcs, IsActive) != {};
      var i :| i in Where(s.pcs, IsActive);
      if s.pcs[i].WantsLock? && s.lock.Some? {
        i := s.lock.value;
      }
      l := match s.pcs[i]
        case Running => Handle(i)
        case WantsLock(_) => Lock(i)
        case Locked(_) => Read(i)
        case HasRead(_, _) => Write(i)
        case HasWritten => Unlock(i)
        case _ => Finish(i);
    }
  }

  // How many more steps a goroutine, and the whole batch, can take.
  function PcRank(pc: Pc): nat {
    match pc
    case Unstarted => 7
    case Running => 6
    case WantsLock(_) => 5
    case Locked(_) => 4
    case HasRead(_, _) => 3
    case HasWritten => 2
    case Finishing => 1
    case Done => 0
  }

  function Rank(s: State): nat {
    Sum(s.pcs, PcRank) + match s.main case Spawning => 2 case Encoding => 1 case Finished => 0
  }

  lemma RankFalls(objs: seq<Element>, s: State, l: Label)
    requires Inv(objs, s) && Enabled(objs, s, l)
    ensures Rank(Apply(objs, s, l)) < Rank(s)
  {
    if !l.Wait? && !l.Encode? {
      var i := Mover(s, l);
      SumUpdate(s.pcs, i, Apply(objs, s, l).pcs[i], PcRank);
    }
  }

  // Every interleaving ends: it has at most 7 steps per element and 2 more, and a run that
  // cannot be continued has finished the batch.
  lemma EveryRunEnds(objs: seq<Element>, states: seq<State>, labels: seq<Label>)
    requires Run(objs, states, labels)
    ensures |labels| <= 7 * |objs| + 2
    ensures (forall l :: !Enabled(objs, states[|labels|], l)) <==> states[|labels|].main.Finished?
  {
    InvIsInductive(objs);
    forall s, l, t | Inv(objs, s) && Next(objs, s, l, t) ensures Rank(t) < Rank(s) {
      RankFalls(objs, s, l);
    }
    RankBoundsLength(s => Init(objs, s), (s, l, t) => Next(objs, s, l, t), s => Inv(objs, s), Rank, states, labels);
    InvariantHolds(s => Init(objs, s), (s, l, t) => Next(objs, s, l, t), s => Inv(objs, s), states, labels);
    SumOfEqual(states[0].pcs, Unstarted, PcRank);
    var last := states[|labels|];
    assert Inv(objs, last);
    if !last.main.Finished? {
      var l := NoDeadlock(objs, last);
    }
  }
}
