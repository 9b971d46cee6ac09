// ClientPool.Close against the reaper's timer, in every interleaving of their goroutines.

module CloseRace {
  import opened Prelude
  import opened Executions

  // Goroutines are numbered as they start: timer callbacks and callers of Close.
  // A callback locks, checks closed, takes the idle connections, gives each back, re-arms the
  // timer and unlocks. It is Holding while it has connections; left counts those.
  datatype Pc =
    | CbStart | CbLocked | CbHolding(left: nat) | CbUnlock
    | ClStart | ClLocked | ClStop | ClUnlock(first: bool) | ClPoolClose
    | Done

  datatype State = State(
    pcs: seq<Pc>, mu: Option<nat>, closed: bool, armed: bool, poolCloses: nat, poolClosed: bool)

  datatype Label =
    | Fire | CallClose
    | CbLock(i: nat) | CbCheck(i: nat, idle: nat) | CbGiveBack(i: nat) | CbRearm(i: nat) | CbRelease(i: nat)
    | ClLock(i: nat) | ClCheck(i: nat) | ClStopTimer(i: nat) | ClRelease(i: nat) | ClClosePool(i: nat)

  // The timer is armed from the start, or there is none.
  predicate Init(s: State) { s.pcs == [] && s.mu == None && !s.closed && s.poolCloses == 0 && !s.poolClosed }

  predicate At(s: State, i: nat, pc: Pc) { i < |s.pcs| && s.pcs[i] == pc }

  predicate Enabled(s: State, l: Label) {
    match l
    case Fire => s.armed
    case CallClose => true
    case CbLock(i) => At(s, i, CbStart) && s.mu.None?
    case CbCheck(i, _) => At(s, i, CbLocked)
    case CbGiveBack(i) => i < |s.pcs| && s.pcs[i].CbHolding? && s.pcs[i].left > 0
    case CbRearm(i) => At(s, i, CbHolding(0))
    case CbRelease(i) => At(s, i, CbUnlock)
    case ClLock(i) => At(s, i, ClStart) && s.mu.None?
    case ClCheck(i) => At(s, i, ClLocked)
    case ClStopTimer(i) => At(s, i, ClStop)
    case ClRelease(i) => i < |s.pcs| && s.pcs[i].ClUnlock?
    case ClClosePool(i) => At(s, i, ClPoolClose)
  }

  function To(s: State, i: nat, pc: Pc): State
    requires i < |s.pcs|
  {
    s.(pcs := s.pcs[i := pc])
  }

  function Apply(s: State, l: Label): State
    requires Enabled(s, l)
  {
    match l
    case Fire => s.(pcs := s.pcs + [CbStart], armed := false)
    case CallClose => s.(pcs := s.pcs + [ClStart])
    case CbLock(i) => To(s, i, CbLocked).(mu := Some(i))
    // idle is the number of idle connections at that instant
    case CbCheck(i, idle) => To(s, i, if s.closed then CbUnlock else CbHolding(idle))
    case CbGiveBack(i) => To(s, i, CbHolding(s.pcs[i].left - 1))
    case CbRearm(i) => To(s, i, CbUnlock).(armed := true)
    case CbRelease(i) => To(s, i, Done).(mu := None)
    case ClLock(i) => To(s, i, ClLocked).(mu := Some(i))
    case ClCheck(i) => if s.closed then To(s, i, ClUnlock(false)) else To(s, i, ClStop).(closed := true)
    case ClStopTimer(i) => To(s, i, ClUnlock(true)).(armed := false)
    case ClRelease(i) => To(s, i, if s.pcs[i].first then ClPoolClose else Done).(mu := None)
    case ClClosePool(i) => To(s, i, Done).(poolCloses := s.poolCloses + 1, poolClosed := true)
  }

  predicate Next(s: State, l: Label, t: State) { Enabled(s, l) && t == Apply(s, l) }

  predicate HoldsLock(pc: Pc) {
    pc.CbLocked? || pc.CbHolding? || pc.CbUnlock? || pc.ClLocked? || pc.ClStop? || pc.ClUnlock?
  }

  // The caller of Close that found the pool open, until it has closed the resource pool.
  predicate IsCloser(pc: Pc) { pc.ClStop? || pc == ClUnlock(true) || pc.ClPoolClose? }

  function Closers(pcs: seq<Pc>): nat {
    if pcs == [] then 0 else Closers(pcs[..|pcs| - 1]) + if IsCloser(pcs[|pcs| - 1]) then 1 else 0
  }

  ghost predicate Exclusive(s: State) {
    && (s.mu.Some? ==> s.mu.value < |s.pcs|)
    && forall i: nat :: i < |s.pcs| ==> (HoldsLock(s.pcs[i]) <==> s.mu == Some(i))
  }

  // After closed is set nobody holds connections, and only Stop is still to come for the timer.
  ghost predicate Quiet(s: State) {
    s.closed ==>
      && (forall i: nat :: i < |s.pcs| ==> !s.pcs[i].CbHolding?)
      && (s.armed ==> s.mu.Some? && s.mu.value < |s.pcs| && s.pcs[s.mu.value].ClStop?)
  }

  ghost predicate CountedCloses(s: State) {
    && s.poolCloses + Closers(s.pcs) == (if s.closed then 1 else 0)
    && (s.poolClosed <==> s.poolCloses > 0)
  }

  ghost predicate Inv(s: State) { Exclusive(s) && Quiet(s) && CountedCloses(s) }

  lemma {:induction false} ClosersUpdate(pcs: seq<Pc>, i: nat, pc: Pc)
    requires i < |pcs|
    ensures Closers(pcs[i := pc]) + (if IsCloser(pcs[i]) then 1 else 0)
         == Closers(pcs) + if IsCloser(pc) then 1 else 0
  {
    var n := |pcs| - 1;
    if i < n {
      ClosersUpdate(pcs[..n], i, pc);
      assert pcs[i := pc][..n] == pcs[..n][i := pc];
    } else {
      assert pcs[i := pc][..n] == pcs[..n];
    }
  }

  lemma {:induction false} CloserCounts(pcs: seq<Pc>, i: nat)
    requires i < |pcs| && IsCloser(pcs[i])
    ensures Closers(pcs) > 0
  {
    if i < |pcs| - 1 { CloserCounts(pcs[..|pcs| - 1], i); }
  }

  lemma ExclusiveStep(s: State, l: Label)
    requires Exclusive(s) && Enabled(s, l)
    ensures Exclusive(Apply(s, l))
  {}

  lemma QuietStep(s: State, l: Label)
    requires Exclusive(s) && Quiet(s) && Enabled(s, l)
    ensures Quiet(Apply(s, l))
  {
    if !l.Fire? && !l.CallClose? {
      assert HoldsLock(s.pcs[l.i]) ==> s.mu == Some(l.i);
    }
  }

  // Only finding the pool open and closing it change the number of closers.
  lemma ClosersStep(s: State, l: Label)
    requires Enabled(s, l)
    ensures Closers(Apply(s, l).pcs) + (if l.ClClosePool? then 1 else 0)
         == Closers(s.pcs) + if l.ClCheck? && !s.closed then 1 else 0
  {
    var t := Apply(s, l);
    if l.Fire? || l.CallClose? {
      assert t.pcs[..|s.pcs|] == s.pcs;
    } else {
      ClosersUpdate(s.pcs, l.i, t.pcs[l.i]);
      assert t.pcs == s.pcs[l.i := t.pcs[l.i]];
    }
  }

  lemma CountedStep(s: State, l: Label)
    requires CountedCloses(s) && Enabled(s, l)
    ensures CountedCloses(Apply(s, l))
  {
    ClosersStep(s, l);
    if l.ClClosePool? { CloserCounts(s.pcs, l.i); }
  }

  lemma InvStep(s: State, l: Label, t: State)
    requires Inv(s) && Next(s, l, t)
    ensures Inv(t)
  {
    ExclusiveStep(s, l);
    QuietStep(s, l);
    CountedStep(s, l);
  }

  ghost predicate Run(states: seq<State>, labels: seq<Label>) {
    IsRun(s => Init(s), (s, l, t) => Next(s, l, t), states, labels)
  }

  lemma ReachableInv(states: seq<State>, labels: seq<Label>, k: nat)
    requires Run(states, labels) && k < |states|
    ensures Inv(states[k])
  {
    forall s | Init(s) ensures Inv(s) {}
    forall s, l, t | Inv(s) && Next(s, l, t) ensures Inv(t) { InvStep(s, l, t); }
    InvariantHolds(s => Init(s), (s, l, t) => Next(s, l, t), s => Inv(s), states, labels);
  }

  // Once closed is set, no step arms the timer again.
  lemma NeverRearmedAfterClose(states: seq<State>, labels: seq<Label>, k: nat)
    requires Run(states, labels) && k < |labels| && states[k].closed
    ensures states[k + 1].closed && (states[k + 1].armed ==> states[k].armed) && !labels[k].CbRearm?
  {
    ReachableInv(states, labels, k);
    assert Next(states[k], labels[k], states[k + 1]);
  }

  lemma {:induction false} TwoClosersCount(pcs: seq<Pc>, i: nat, j: nat)
    requires i < j < |pcs| && IsCloser(pcs[i]) && IsCloser(pcs[j])
    ensures Closers(pcs) >= 2
  {
    if j == |pcs| - 1 {
      CloserCounts(pcs[..j], i);
    } else {
      TwoClosersCount(pcs[..|pcs| - 1], i, j);
    }
  }

  // A caller is about to enter the resource pool's close, or has.
  ghost predicate PoolClosing(s: State) {
    s.poolClosed || exists i: nat :: i < |s.pcs| && s.pcs[i].ClPoolClose?
  }

  ghost predicate ReaperIsOut(s: State) {
    s.closed && !s.armed && forall i: nat :: i < |s.pcs| ==> !s.pcs[i].CbHolding?
  }

  lemma ClosingMeansOut(s: State)
    requires Inv(s) && PoolClosing(s)
    ensures ReaperIsOut(s)
  {
    if !s.poolClosed {
      var i: nat :| i < |s.pcs| && s.pcs[i].ClPoolClose?;
      CloserCounts(s.pcs, i);
      if s.armed { TwoClosersCount(s.pcs, Min(i, s.mu.value), Max(i, s.mu.value)); }
    } else if s.armed {
      CloserCounts(s.pcs, s.mu.value);
    }
  }

  lemma ClosingIsStable(s: State, l: Label, t: State)
    requires PoolClosing(s) && Next(s, l, t)
    ensures PoolClosing(t)
  {
    if !s.poolClosed {
      var i: nat :| i < |s.pcs| && s.pcs[i].ClPoolClose?;
      assert t.poolClosed || t.pcs[i].ClPoolClose?;
    }
  }

  lemma {:induction false} ClosingPersists(states: seq<State>, labels: seq<Label>, k: nat, j: nat)
    requires Run(states, labels) && k <= j < |states| && PoolClosing(states[k])
    ensures PoolClosing(states[j])
    decreases j
  {
    if j > k {
      ClosingPersists(states, labels, k, j - 1);
      assert Next(states[j - 1], labels[j - 1], states[j]);
      ClosingIsStable(states[j - 1], labels[j - 1], states[j]);
    }
  }

  lemma OutMeansNoReaping(s: State, l: Label)
    requires ReaperIsOut(s) && Enabled(s, l)
    ensures !l.Fire? && !l.CbGiveBack? && !l.CbRearm?
  {}

  // When a caller is about to enter the resource pool's close, the timer is off and the reaper
  // holds nothing; from then on it never takes anything and the timer never fires.
  lemma ReaperIsOutBeforePoolClose(states: seq<State>, labels: seq<Label>, k: nat, j: nat)
    requires Run(states, labels) && k <= j < |states| && PoolClosing(states[k])
    ensures PoolClosing(states[j]) && ReaperIsOut(states[j])
    ensures j < |labels| ==> !labels[j].Fire? && !labels[j].CbGiveBack? && !labels[j].CbRearm?
  {
    ReachableInv(states, labels, j);
    ClosingPersists(states, labels, k, j);
    ClosingMeansOut(states[j]);
    if j < |labels| {
      assert Next(states[j], labels[j], states[j + 1]);
      OutMeansNoReaping(states[j], labels[j]);
    }
  }

  // The resource pool's close is entered at most once, however many callers Close has, and
  // exactly once when every caller has returned and there was one.
  lemma PoolClosedOnce(states: seq<State>, labels: seq<Label>, k: nat)
    requires Run(states, labels) && k < |states|
    ensures states[k].poolCloses <= 1
    ensures states[k].closed && (forall i :: 0 <= i < |states[k].pcs| ==> states[k].pcs[i].Done?) ==>
      states[k].poolCloses == 1
  {
    ReachableInv(states, labels, k);
    if forall i :: 0 <= i < |states[k].pcs| ==> states[k].pcs[i].Done? { NoClosers(states[k].pcs); }
  }

  lemma {:induction false} NoClosers(pcs: seq<Pc>)
    requires forall i :: 0 <= i < |pcs| ==> !IsCloser(pcs[i])
    ensures Closers(pcs) == 0
  {
    if pcs != [] { NoClosers(pcs[..|pcs| - 1]); }
  }

  // No goroutine is stuck: while one has not finished, one can take a step.
  lemma NoDeadlock(s: State, i: nat) returns (l: Label)
    requires Inv(s) && i < |s.pcs| && !s.pcs[i].Done?
    ensures Enabled(s, l) && !l.Fire? && !l.CallClose?
  {
    var k := if s.mu.Some? && (s.pcs[i].CbStart? || s.pcs[i].ClStart?) then s.mu.value else i;
    l := match s.pcs[k]
      case CbStart => CbLock(k)
      case CbLocked => CbCheck(k, 0)
      case CbHolding(left) => if left > 0 then CbGiveBack(k) else CbRearm(k)
      case CbUnlock => CbRelease(k)
      case ClStart => ClLock(k)
      case ClLocked => ClCheck(k)
      case ClStop => ClStopTimer(k)
      case ClUnlock(_) => ClRelease(k)
      case _ => ClClosePool(k);
  }
}
