// Server.ServePacket: several routines on one packet connection, their errors collected
// through a channel with one slot for each.

module ServePacket {
  import opened Prelude
  import opened Executions
  import opened Errors

  datatype Pc = Unstarted | Serving | Sending(err: Option<Err>) | Sent | Stopped | Done

  datatype MainPc = Spawning | Closing | Draining | Returned(err: Option<Err>)

  datatype Message = Message(from: nat, err: Option<Err>)

  // sent is everything ever sent on the channel, of which main has received the first received.
  // cause is why the shared context is cancelled, once it is.
  datatype State = State(
    pcs: seq<Pc>, spawned: nat, waiting: nat, sent: seq<Message>, received: nat, closed: bool,
    cause: Option<Err>, joined: Option<Err>, main: MainPc)

  datatype Label =
    | Spawn | RunEnds(i: nat, err: Option<Err>) | Send(i: nat) | Stop(i: nat) | Finish(i: nat)
    | Cancelled(why: Err)
    | Wait | CloseChannel | Receive | Return

  predicate Init(routines: nat, s: State) {
    s == State(seq(routines, _ => Unstarted), 0, 0, [], 0, false, None, None, Spawning)
  }

  predicate At(s: State, i: nat) { i < |s.pcs| }

  predicate Enabled(routines: nat, s: State, l: Label) {
    match l
    case Spawn => s.main.Spawning? && s.spawned < routines == |s.pcs|
    case RunEnds(i, _) => At(s, i) && s.pcs[i].Serving?
    // a send blocks while the buffer is full
    case Send(i) => At(s, i) && s.pcs[i].Sending? && !s.closed && |s.sent| < s.received + routines
    case Stop(i) => At(s, i) && s.pcs[i].Sent?
    case Finish(i) => At(s, i) && s.pcs[i].Stopped? && s.waiting > 0
    case Cancelled(_) => true
    case Wait => s.main.Spawning? && s.spawned == routines && s.waiting == 0
    case CloseChannel => s.main.Closing?
    case Receive => s.main.Draining? && s.received < |s.sent|
    case Return => s.main.Draining? && s.closed && s.received == |s.sent|
  }

  // Only the first cancellation sets the cause; a nil cause stands for context.Canceled.
  function Cancel(s: State, err: Err): State {
    if s.cause.None? then s.(cause := Some(err)) else s
  }

  function Apply(routines: nat, s: State, l: Label): State
    requires Enabled(routines, s, l)
  {
    match l
    case Spawn => s.(pcs := s.pcs[s.spawned := Serving], spawned := s.spawned + 1, waiting := s.waiting + 1)
    case RunEnds(i, err) => s.(pcs := s.pcs[i := Sending(err)])
    case Send(i) => s.(pcs := s.pcs[i := Sent], sent := s.sent + [Message(i, s.pcs[i].err)])
    case Stop(i) => Cancel(s.(pcs := s.pcs[i := Stopped]), Leaf(Canceled))
    case Finish(i) => s.(pcs := s.pcs[i := Done], waiting := s.waiting - 1)
    case Cancelled(err) => Cancel(s, err)
    case Wait => s.(main := Closing)
    case CloseChannel => s.(main := Draining, closed := true)
    case Receive => s.(received := s.received + 1, joined := Join([s.joined, s.sent[s.received].err]))
    case Return => s.(main := Returned(Join([s.joined, s.cause])))
  }

  predicate Next(routines: nat, s: State, l: Label, t: State) {
    Enabled(routines, s, l) && t == Apply(routines, s, l)
  }

  predicate HasSent(pc: Pc) { pc.Sent? || pc.Stopped? || pc.Done? }

  predicate IsActive(pc: Pc) { !pc.Unstarted? && !pc.Done? }

  function Senders(sent: seq<Message>): set<nat> { set m | m in sent :: m.from }

  // The routines past their send.
  function Past(pcs: seq<Pc>): set<nat> {
    set i: nat | i < |pcs| && HasSent(pcs[i])
  }

  // errors.Join applied to one received error after the other.
  function Accumulated(sent: seq<Message>): Option<Err> {
    if sent == [] then None else Join([Accumulated(sent[..|sent| - 1]), sent[|sent| - 1].err])
  }

  ghost predicate Tracked(routines: nat, s: State) {
    && |s.pcs| == routines && s.spawned <= routines
    && (forall i: nat :: i < routines ==> (s.pcs[i].Unstarted? <==> s.spawned <= i))
    && s.waiting == |Where(s.pcs, IsActive)|
    && (!s.main.Spawning? ==> forall i: nat :: i < routines ==> s.pcs[i].Done?)
    && (s.closed <==> s.main.Draining? || s.main.Returned?)
  }

  // The senders are the routines past their send, each once.
  ghost predicate SentOnce(s: State) {
    && (forall j, k :: 0 <= j < k < |s.sent| ==> s.sent[j].from != s.sent[k].from)
    && Senders(s.sent) == Past(s.pcs)
  }

  ghost predicate Collected(s: State) {
    && s.received <= |s.sent|
    && s.joined == Accumulated(s.sent[..s.received])
    && (s.main.Returned? ==> s.received == |s.sent|)
  }

  ghost predicate CancelsOnExit(s: State) {
    forall i: nat :: i < |s.pcs| && (s.pcs[i].Stopped? || s.pcs[i].Done?) ==> s.cause.Some?
  }

  ghost predicate Inv(routines: nat, s: State) {
    Tracked(routines, s) && SentOnce(s) && Collected(s) && CancelsOnExit(s)
  }

  predicate Moves(l: Label) { l.Spawn? || l.RunEnds? || l.Send? || l.Stop? || l.Finish? }

  function Mover(s: State, l: Label): nat
    requires Moves(l)
  {
    if l.Spawn? then s.spawned else l.i
  }

  lemma TrackedStep(routines: nat, s: State, l: Label)
    requires Tracked(routines, s) && Enabled(routines, s, l)
    ensures Tracked(routines, Apply(routines, s, l))
  {
    if Moves(l) {
      WhereUpdate(s.pcs, Mover(s, l), Apply(routines, s, l).pcs[Mover(s, l)], IsActive);
    } else if l.Wait? {
      forall i: nat | i < routines ensures s.pcs[i].Done? {
        assert i !in Where(s.pcs, IsActive);
      }
    }
  }

  lemma SentOnceStep(routines: nat, s: State, l: Label)
    requires SentOnce(s) && Enabled(routines, s, l)
    requires l.Spawn? ==> s.pcs[s.spawned].Unstarted?
    ensures SentOnce(Apply(routines, s, l))
  {
    var t := Apply(routines, s, l);
    if l.Send? {
      SendersGrow(s.sent, t.sent[|s.sent|]);
      assert Past(t.pcs) == Past(s.pcs) + {l.i};
      forall j | 0 <= j < |s.sent| ensures s.sent[j].from != l.i {
        assert s.sent[j] in s.sent && s.sent[j].from in Senders(s.sent);
      }
    } else if Moves(l) {
      assert Past(t.pcs) == Past(s.pcs);
    }
  }

  lemma SendersGrow(sent: seq<Message>, m: Message)
    ensures Senders(sent + [m]) == Senders(sent) + {m.from}
  {}

  lemma CollectedStep(routines: nat, s: State, l: Label)
    requires Collected(s) && Tracked(routines, s) && Enabled(routines, s, l)
    ensures Collected(Apply(routines, s, l))
  {
    if l.Receive? {
      assert s.sent[..s.received + 1][..s.received] == s.sent[..s.received];
    } else if l.Send? {
      assert Apply(routines, s, l).sent[..s.received] == s.sent[..s.received];
    }
  }

  lemma InvStep(routines: nat, s: State, l: Label, t: State)
    requires Inv(routines, s) && Next(routines, s, l, t)
    ensures Inv(routines, t)
  {
    TrackedStep(routines, s, l);
    assert l.Spawn? ==> s.pcs[s.spawned].Unstarted?;
    SentOnceStep(routines, s, l);
    CollectedStep(routines, s, l);
  }

  ghost predicate Run(routines: nat, states: seq<State>, labels: seq<Label>) {
    IsRun(s => Init(routines, s), (s, l, t) => Next(routines, s, l, t), states, labels)
  }

  lemma InvIsInductive(routines: nat)
    ensures Inductive(s => Init(routines, s), (s, l, t) => Next(routines, s, l, t), s => Inv(routines, s))
  {
    forall s | Init(routines, s) ensures Inv(routines, s) {
      assert Where(s.pcs, IsActive) == {} && Past(s.pcs) == {};
      assert s.sent[..0] == [];
    }
    forall s, l, t | Inv(routines, s) && Next(routines, s, l, t) ensures Inv(routines, t) {
      InvStep(routines, s, l, t);
    }
  }

  lemma ReachableInv(routines: nat, states: seq<State>, labels: seq<Label>, k: nat)
    requires Run(routines, states, labels) && k < |states|
    ensures Inv(routines, states[k])
  {
    InvIsInductive(routines);
    InvariantHolds(s => Init(routines, s), (s, l, t) => Next(routines, s, l, t), s => Inv(routines, s), states, labels);
  }

  lemma {:induction false} SendersSize(sent: seq<Message>)
    requires forall j, k :: 0 <= j < k < |sent| ==> sent[j].from != sent[k].from
    ensures |Senders(sent)| == |sent|
  {
    if sent != [] {
      var front := sent[..|sent| - 1];
      SendersSize(front);
      assert sent == front + [sent[|sent| - 1]];
      SendersGrow(front, sent[|sent| - 1]);
    }
  }

  // For any number of routines and any schedule, a routine that wants to send its error can:
  // the channel is open and has room. And the channel is closed only when all have finished.
  lemma SendNeverBlocks(routines: nat, states: seq<State>, labels: seq<Label>, k: nat, i: nat)
    requires Run(routines, states, labels) && k < |states|
    ensures At(states[k], i) && states[k].pcs[i].Sending? ==> Enabled(routines, states[k], Send(i))
    ensures states[k].closed ==> forall j: nat :: j < routines ==> At(states[k], j) && states[k].pcs[j].Done?
  {
    ReachableInv(routines, states, labels, k);
    var s := states[k];
    if At(s, i) && s.pcs[i].Sending? { RoomForSender(routines, s, i); }
  }

  lemma RoomForSender(routines: nat, s: State, i: nat)
    requires |s.pcs| == routines && SentOnce(s) && At(s, i) && s.pcs[i].Sending?
    ensures |s.sent| < routines
  {
    SendersSize(s.sent);
    SubsetSize(Past(s.pcs), Below(routines) - {i});
  }

  // Once any routine has exited, the shared context is cancelled.
  lemma FirstExitCancels(routines: nat, states: seq<State>, labels: seq<Label>, k: nat, i: nat)
    requires Run(routines, states, labels) && k < |states| && At(states[k], i) && states[k].pcs[i].Done?
    ensures states[k].cause.Some?
  {
    ReachableInv(routines, states, labels, k);
  }

  lemma {:induction false} AccumulatedMatches(sent: seq<Message>, x: Sentinel)
    ensures IsIn(Accumulated(sent), x) <==> exists j :: 0 <= j < |sent| && IsIn(sent[j].err, x)
  {
    if sent != [] {
      var n := |sent| - 1;
      AccumulatedMatches(sent[..n], x);
      JoinTwoMatches(Accumulated(sent[..n]), sent[n].err, x);
      if j :| 0 <= j < n && IsIn(sent[j].err, x) { assert sent[..n][j] == sent[j]; }
    }
  }

  // What ServePacket returns joins exactly one error of every routine with the cause of the
  // cancellation, and nothing else.
  lemma ReturnsEveryError(routines: nat, states: seq<State>, labels: seq<Label>, k: nat, x: Sentinel)
    requires Run(routines, states, labels) && k < |labels| && labels[k].Return?
    ensures states[k + 1].main.Returned?
    ensures |states[k].sent| == routines && Senders(states[k].sent) == Below(routines)
    ensures IsIn(states[k + 1].main.err, x) <==>
      IsIn(states[k].cause, x) || exists j :: 0 <= j < |states[k].sent| && IsIn(states[k].sent[j].err, x)
  {
    ReachableInv(routines, states, labels, k);
    var s := states[k];
    assert Next(routines, s, labels[k], states[k + 1]);
    AllSent(routines, s);
    assert s.sent[..s.received] == s.sent;
    AccumulatedMatches(s.sent, x);
    JoinTwoMatches(s.joined, s.cause, x);
  }

  lemma AllSent(routines: nat, s: State)
    requires |s.pcs| == routines && SentOnce(s) && forall i: nat :: i < routines ==> s.pcs[i].Done?
    ensures |s.sent| == routines && Senders(s.sent) == Below(routines)
  {
    SendersSize(s.sent);
    assert Past(s.pcs) == Below(routines);
  }

  // Nothing is stuck as long as the servers' runs end: some step is always possible.
  lemma NoDeadlock(routines: nat, s: State) returns (l: Label)
    requires Inv(routines, s) && !s.main.Returned?
    ensures Enabled(routines, s, l) && !l.Cancelled?
  {
    if s.main.Closing? {
      l := CloseChannel;
    } else if s.main.Draining? {
      l := if s.received < |s.sent| then Receive else Return;
    } else if s.spawned < routines {
      l := Spawn;
    } else if s.waiting == 0 {
      l := Wait;
    } else {
      var i :| i in Where(s.pcs, IsActive);
      if s.pcs[i].Sending? { RoomForSender(routines, s, i); }
      l := if s.pcs[i].Serving? then RunEnds(i, None)
           else if s.pcs[i].Sending? then Send(i)
           else if s.pcs[i].Sent? then Stop(i)
           else Finish(i);
    }
  }

  // How many more steps a routine, and the whole server, can take.
  function PcRank(pc: Pc): nat {
    match pc
    case Unstarted => 5
    case Serving => 4
    case Sending(_) => 3
    case Sent => 2
    case Stopped => 1
    case Done => 0
  }

  function MainRank(main: MainPc): nat {
    match main
    case Spawning => 3
    case Closing => 2
    case Draining => 1
    case Returned(_) => 0
  }

  function Rank(routines: nat, s: State): nat {
    Sum(s.pcs, PcRank) + MainRank(s.main) + if s.received <= routines then routines - s.received else 0
  }

  lemma RankFalls(routines: nat, s: State, l: Label)
    requires Inv(routines, s) && Enabled(routines, s, l)
    ensures Rank(routines, Apply(routines, s, l)) + (if l.Cancelled? then 0 else 1) <= Rank(routines, s)
  {
    if Moves(l) {
      SumUpdate(s.pcs, Mover(s, l), Apply(routines, s, l).pcs[Mover(s, l)], PcRank);
    } else if l.Receive? {
      AllSent(routines, s);
    }
  }

  predicate IsOwnStep(l: Label) { !l.Cancelled? }

  lemma InitialRank(routines: nat, s: State)
    requires Init(routines, s)
    ensures Rank(routines, s) == 6 * routines + 3
  {
    SumOfEqual(s.pcs, Unstarted, PcRank);
  }

  lemma OwnStepsAreBounded(routines: nat, states: seq<State>, labels: seq<Label>)
    requires Run(routines, states, labels)
    ensures Count(labels, IsOwnStep) <= 6 * routines + 3
  {
    InvIsInductive(routines);
    var inv, rank := (s: State) => Inv(routines, s), (s: State) => Rank(routines, s);
    forall s, l, t | inv(s) && Next(routines, s, l, t)
      ensures rank(t) + (if IsOwnStep(l) then 1 else 0) <= rank(s)
    {
      RankFalls(routines, s, l);
    }
    RankBoundsCount(
      s => Init(routines, s), (s, l, t) => Next(routines, s, l, t), inv, rank, IsOwnStep, states, labels);
    InitialRank(routines, states[0]);
  }

  lemma NothingAfterReturn(routines: nat, s: State, l: Label)
    requires Inv(routines, s) && s.main.Returned? && IsOwnStep(l)
    ensures !Enabled(routines, s, l)
  {}

  // Every run ends: apart from cancellations from outside it has at most 6 steps per routine and
  // 3 more, and no such step is possible exactly when ServePacket has returned.
  lemma EveryRunEnds(routines: nat, states: seq<State>, labels: seq<Label>)
    requires Run(routines, states, labels)
    ensures Count(labels, IsOwnStep) <= 6 * routines + 3
    ensures (forall l :: IsOwnStep(l) ==> !Enabled(routines, states[|labels|], l)) <==> states[|labels|].main.Returned?
  {
    OwnStepsAreBounded(routines, states, labels);
    ReachableInv(routines, states, labels, |labels|);
    var last := states[|labels|];
    if last.main.Returned? {
      forall l | IsOwnStep(l) ensures !Enabled(routines, last, l) { NothingAfterReturn(routines, last, l); }
    } else {
      var l := NoDeadlock(routines, last);
      assert IsOwnStep(l);
    }
  }

  // l cancels the shared context with this cause.
  predicate Causes(l: Label, cause: Err) {
    (l.Cancelled? && l.why == cause) || (l.Stop? && cause == Leaf(Canceled))
  }

  predicate CancelsContext(l: Label) { l.Cancelled? || l.Stop? }

  // In every run the cause of the cancellation is that of the first, whatever follows.
  lemma {:induction false} FirstCauseWins(routines: nat, states: seq<State>, labels: seq<Label>, k: nat)
    requires Run(routines, states, labels) && k < |states|
    ensures states[k].cause.None? <==> forall m :: 0 <= m < k ==> !CancelsContext(labels[m])
    ensures states[k].cause.Some? ==>
      exists m :: 0 <= m < k && Causes(labels[m], states[k].cause.value)
        && forall j :: 0 <= j < m ==> !CancelsContext(labels[j])
    decreases k
  {
    if k > 0 {
      FirstCauseWins(routines, states, labels, k - 1);
      assert Next(routines, states[k - 1], labels[k - 1], states[k]);
      if states[k - 1].cause.None? && CancelsContext(labels[k - 1]) {
        assert Causes(labels[k - 1], states[k].cause.value);
      }
    }
  }

  // Where the error with which the server of routine i ended is: on its way, or sent.
  predicate HasError(s: State, i: nat, e: Option<Err>) {
    (At(s, i) && s.pcs[i] == Sending(e)) || Message(i, e) in s.sent
  }

  predicate NotEnded(s: State, i: nat) { At(s, i) && (s.pcs[i].Unstarted? || s.pcs[i].Serving?) }

  ghost predicate Accounted(s: State, past: seq<Label>) {
    && (forall i: nat, e :: RunEnds(i, e) in past <==> HasError(s, i, e))
    && (forall i: nat, e :: NotEnded(s, i) ==> !HasError(s, i, e))
  }

  lemma AccountedStep(routines: nat, s: State, l: Label, past: seq<Label>)
    requires Accounted(s, past) && Enabled(routines, s, l) && (l.Spawn? ==> s.pcs[s.spawned].Unstarted?)
    ensures Accounted(Apply(routines, s, l), past + [l])
  {
    var t := Apply(routines, s, l);
    forall i: nat, e
      ensures RunEnds(i, e) in past + [l] <==> HasError(t, i, e)
      ensures NotEnded(t, i) ==> !HasError(t, i, e)
    {
      assert RunEnds(i, e) in past <==> HasError(s, i, e);
      assert NotEnded(s, i) ==> !HasError(s, i, e);
    }
  }

  lemma {:induction false} ErrorsAccounted(routines: nat, states: seq<State>, labels: seq<Label>, k: nat)
    requires Run(routines, states, labels) && k < |states|
    ensures Accounted(states[k], labels[..k])
    decreases k
  {
    if k > 0 {
      ErrorsAccounted(routines, states, labels, k - 1);
      ReachableInv(routines, states, labels, k - 1);
      assert Next(routines, states[k - 1], labels[k - 1], states[k]);
      AccountedStep(routines, states[k - 1], labels[k - 1], labels[..k - 1]);
      assert labels[..k] == labels[..k - 1] + [labels[k - 1]];
    }
  }

  // The server of some routine ended with an error that matches x.
  ghost predicate SomeEndedIn(past: seq<Label>, x: Sentinel) {
    exists i: nat, e :: RunEnds(i, e) in past && IsIn(e, x)
  }

  ghost predicate Ended(past: seq<Label>, i: nat) { exists e :: RunEnds(i, e) in past }

  lemma SentIsEnded(s: State, past: seq<Label>, x: Sentinel)
    requires Accounted(s, past) && forall i: nat :: At(s, i) ==> s.pcs[i].Done?
    ensures SomeEndedIn(past, x) <==> exists j :: 0 <= j < |s.sent| && IsIn(s.sent[j].err, x)
    ensures forall i: nat :: i in Senders(s.sent) ==> Ended(past, i)
  {
    if j :| 0 <= j < |s.sent| && IsIn(s.sent[j].err, x) {
      var m := s.sent[j];
      assert m == Message(m.from, m.err) && m in s.sent && HasError(s, m.from, m.err);
    }
    if i: nat, e :| RunEnds(i, e) in past && IsIn(e, x) {
      assert HasError(s, i, e);
      var j :| 0 <= j < |s.sent| && s.sent[j] == Message(i, e);
    }
    forall i: nat | i in Senders(s.sent) ensures Ended(past, i) {
      var m :| m in s.sent && m.from == i;
      assert m == Message(i, m.err) && HasError(s, i, m.err);
    }
  }

  // Over whole runs: what ServePacket returns matches exactly what the error with which some
  // routine's server ended does, or the cause of the first cancellation; and all have ended.
  lemma ReturnsExactly(routines: nat, states: seq<State>, labels: seq<Label>, k: nat, x: Sentinel)
    requires Run(routines, states, labels) && k < |labels| && labels[k].Return?
    ensures states[k + 1].main.Returned?
    ensures IsIn(states[k + 1].main.err, x) <==> IsIn(states[k].cause, x) || SomeEndedIn(labels[..k], x)
    ensures forall i: nat :: i < routines ==> Ended(labels[..k], i)
  {
    ReturnsEveryError(routines, states, labels, k, x);
    ErrorsAccounted(routines, states, labels, k);
    AllDoneAtReturn(routines, states, labels, k);
    SentIsEnded(states[k], labels[..k], x);
  }

  lemma AllDoneAtReturn(routines: nat, states: seq<State>, labels: seq<Label>, k: nat)
    requires Run(routines, states, labels) && k < |labels| && labels[k].Return?
    ensures forall i: nat :: At(states[k], i) ==> states[k].pcs[i].Done?
  {
    ReachableInv(routines, states, labels, k);
    assert Next(routines, states[k], labels[k], states[k + 1]);
  }
}
