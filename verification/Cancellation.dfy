// Cancellable encodes and decodes on one transport: what a call registers for the end of its
// context, a deadline or a close, never takes effect after that call has returned.

module Cancellation {
  import opened Prelude
  import opened Executions
  import opened Errors
  import opened Retries

  // Calls are serialised by a lock: the encoder's own mutex, or for a decoder the mutex of the
  // client or the decode loop of the server.
  datatype Pc =
    | WantsLock | Clearing | Registering | InIo
    | Stopping(ioErr: Option<Err>) | AwaitingFunc(ioErr: Option<Err>) | Joining(ioErr: Option<Err>)
    | Returned(err: Option<Err>)

  // The function given to context.AfterFunc, in its own goroutine once started.
  datatype Func = Unregistered | Pending | Started | Acted | Finished | Stopped

  // ctx is what the call's context reports: its error once it is cancelled or timed out.
  datatype Call = Call(pc: Pc, func: Func, ctx: Option<Err>)

  // On a transport with deadlines, setBy says whose function has set the deadline since it was
  // last cleared. One without is closed instead, for good; closedBy says whose function did so first.
  datatype State = State(
    hasDeadline: bool, calls: seq<Call>, lock: Option<nat>, setBy: Option<nat>, closedBy: Option<nat>)

  datatype Label =
    | Begin | Lock(k: nat) | Clear(k: nat) | ClearFails(k: nat, err: Err) | Register(k: nat)
    | CtxDone(k: nat, err: Err) | StartFunc(k: nat) | Act(k: nat) | FinishFunc(k: nat)
    | IoEnds(k: nat, ioErr: Option<Err>) | StopFunc(k: nat) | FuncDone(k: nat) | Return(k: nat)

  predicate Init(s: State) { s == State(s.hasDeadline, [], None, None, None) }

  predicate At(s: State, k: nat) { k < |s.calls| }

  predicate Enabled(s: State, l: Label) {
    match l
    case Begin => true
    case Lock(k) => At(s, k) && s.calls[k].pc.WantsLock? && s.lock.None?
    case Clear(k) => At(s, k) && s.calls[k].pc.Clearing?
    case ClearFails(k, _) => s.hasDeadline && At(s, k) && s.calls[k].pc.Clearing?
    case Register(k) => At(s, k) && s.calls[k].pc.Registering?
    // contexts end at any time, before, during and after the call
    case CtxDone(k, err) => At(s, k) && s.calls[k].ctx.None? && IsContextError(err)
    case StartFunc(k) => At(s, k) && s.calls[k].func.Pending? && s.calls[k].ctx.Some?
    case Act(k) => At(s, k) && s.calls[k].func.Started?
    case FinishFunc(k) => At(s, k) && s.calls[k].func.Acted?
    case IoEnds(k, _) => At(s, k) && s.calls[k].pc.InIo?
    case StopFunc(k) => At(s, k) && s.calls[k].pc.Stopping?
    case FuncDone(k) => At(s, k) && s.calls[k].pc.AwaitingFunc? && s.calls[k].func.Finished?
    case Return(k) => At(s, k) && s.calls[k].pc.Joining?
  }

  function With(s: State, k: nat, c: Call): State
    requires At(s, k)
  {
    s.(calls := s.calls[k := c])
  }

  function Apply(s: State, l: Label): State
    requires Enabled(s, l)
  {
    match l
    case Begin => s.(calls := s.calls + [Call(WantsLock, Unregistered, None)])
    case Lock(k) => With(s, k, s.calls[k].(pc := Clearing)).(lock := Some(k))
    // a transport without deadlines has none to clear
    case Clear(k) => With(s, k, s.calls[k].(pc := Registering)).(setBy := None)
    case ClearFails(k, err) => With(s, k, s.calls[k].(pc := Returned(Some(err)))).(lock := None)
    case Register(k) => With(s, k, s.calls[k].(pc := InIo, func := Pending))
    case CtxDone(k, err) => With(s, k, s.calls[k].(ctx := Some(err)))
    case StartFunc(k) => With(s, k, s.calls[k].(func := Started))
    case Act(k) =>
      var t := With(s, k, s.calls[k].(func := Acted));
      if s.hasDeadline then t.(setBy := Some(k))
      else t.(closedBy := if s.closedBy.None? then Some(k) else s.closedBy)
    case FinishFunc(k) => With(s, k, s.calls[k].(func := Finished))
    case IoEnds(k, err) => With(s, k, s.calls[k].(pc := Stopping(err)))
    // after() stops a function that has not started; otherwise the call waits for it
    case StopFunc(k) =>
      var c := s.calls[k];
      With(s, k, if c.func.Pending? then c.(pc := Joining(c.pc.ioErr), func := Stopped)
                 else c.(pc := AwaitingFunc(c.pc.ioErr)))
    case FuncDone(k) => With(s, k, s.calls[k].(pc := Joining(s.calls[k].pc.ioErr)))
    case Return(k) =>
      var c := s.calls[k];
      With(s, k, c.(pc := Returned(if c.pc.ioErr.None? then None else Join([c.pc.ioErr, c.ctx])))).(lock := None)
  }

  predicate Next(s: State, l: Label, t: State) { Enabled(s, l) && t == Apply(s, l) }

  predicate Inside(pc: Pc) { !pc.WantsLock? && !pc.Returned? }

  // The function of a call can only be on its way while the call is doing I/O or waiting for it.
  predicate FuncFits(c: Call) {
    match c.pc
    case WantsLock => c.func.Unregistered?
    case Clearing => c.func.Unregistered?
    case Registering => c.func.Unregistered?
    case InIo => c.func.Pending? || c.func.Started? || c.func.Acted? || c.func.Finished?
    case Stopping(_) => c.func.Pending? || c.func.Started? || c.func.Acted? || c.func.Finished?
    case AwaitingFunc(_) => c.func.Started? || c.func.Acted? || c.func.Finished?
    case Joining(_) => c.func.Finished? || c.func.Stopped?
    case Returned(_) => c.func.Finished? || c.func.Stopped? || c.func.Unregistered?
  }

  predicate HasActed(f: Func) { f.Acted? || f.Finished? }

  predicate LockFits(s: State, k: nat) {
    At(s, k) ==> (Inside(s.calls[k].pc) <==> s.lock == Some(k))
  }

  // Only the end of a call's own context sets its function off.
  predicate ContextFits(c: Call) {
    && (c.ctx.None? ==> !c.func.Started? && !HasActed(c.func))
    && (c.ctx.Some? ==> IsContextError(c.ctx.value))
  }

  predicate CallFits(s: State, k: nat) {
    LockFits(s, k) && (At(s, k) ==> FuncFits(s.calls[k]) && ContextFits(s.calls[k]))
  }

  // Past its own clearing, the call inside is the only one that can have set the deadline.
  predicate DeadlineFits(s: State) {
    && (s.lock.Some? ==> At(s, s.lock.value))
    && (s.lock.Some? && !s.calls[s.lock.value].pc.Clearing? ==> s.setBy == None || s.setBy == s.lock)
    && (s.hasDeadline && s.lock.Some? && !s.calls[s.lock.value].pc.Clearing? ==>
          (s.setBy == s.lock <==> HasActed(s.calls[s.lock.value].func)))
    && (s.setBy.Some? ==> At(s, s.setBy.value) && s.calls[s.setBy.value].ctx.Some?)
  }

  // A transport is closed exactly when it has no deadlines and some call's function has acted.
  ghost predicate ClosedFits(s: State) {
    && (s.hasDeadline ==> s.closedBy.None?)
    && (!s.hasDeadline ==> s.setBy.None?)
    && (s.closedBy.Some? ==> At(s, s.closedBy.value) && HasActed(s.calls[s.closedBy.value].func))
    && (!s.hasDeadline && s.closedBy.None? ==> forall k: nat :: k < |s.calls| ==> !HasActed(s.calls[k].func))
  }

  ghost predicate Inv(s: State) {
    DeadlineFits(s) && ClosedFits(s) && forall k: nat :: CallFits(s, k)
  }

  // The call a label moves, after the step.
  function Moved(s: State, l: Label): Call
    requires Enabled(s, l) && !l.Begin?
  {
    Apply(s, l).calls[l.k]
  }

  lemma OthersStay(s: State, l: Label, j: nat)
    requires Enabled(s, l) && At(s, j) && (l.Begin? || j != l.k)
    ensures At(Apply(s, l), j) && Apply(s, l).calls[j] == s.calls[j]
  {}

  lemma FuncStep(s: State, l: Label)
    requires Enabled(s, l) && !l.Begin? && FuncFits(s.calls[l.k])
    ensures FuncFits(Moved(s, l))
  {}

  lemma ContextStep(s: State, l: Label)
    requires Enabled(s, l) && !l.Begin? && ContextFits(s.calls[l.k])
    ensures ContextFits(Moved(s, l))
  {}

  lemma LockStep(s: State, l: Label, j: nat)
    requires Enabled(s, l) && LockFits(s, j) && (!l.Begin? ==> LockFits(s, l.k))
    requires s.lock.Some? ==> At(s, s.lock.value)
    ensures LockFits(Apply(s, l), j)
  {}

  lemma CallStep(s: State, l: Label, j: nat)
    requires Enabled(s, l) && CallFits(s, j) && (!l.Begin? ==> CallFits(s, l.k))
    requires s.lock.Some? ==> At(s, s.lock.value)
    ensures CallFits(Apply(s, l), j)
  {
    LockStep(s, l, j);
    if At(s, j) && (l.Begin? || j != l.k) {
      OthersStay(s, l, j);
    } else if !l.Begin? && j == l.k {
      FuncStep(s, l);
      ContextStep(s, l);
    }
  }

  lemma DeadlineStep(s: State, l: Label)
    requires Enabled(s, l) && DeadlineFits(s) && (!l.Begin? ==> CallFits(s, l.k))
    ensures DeadlineFits(Apply(s, l))
  {}

  lemma ClosedStep(s: State, l: Label)
    requires Enabled(s, l) && ClosedFits(s) && (!l.Begin? ==> CallFits(s, l.k))
    ensures ClosedFits(Apply(s, l))
  {}

  lemma InvStep(s: State, l: Label, t: State)
    requires Inv(s) && Next(s, l, t)
    ensures Inv(t)
  {
    if !l.Begin? { assert CallFits(s, l.k); }
    DeadlineStep(s, l);
    ClosedStep(s, l);
    forall j: nat ensures CallFits(t, j) {
      assert CallFits(s, j);
      CallStep(s, l, j);
    }
  }

  ghost predicate Run(states: seq<State>, labels: seq<Label>) {
    IsRun(s => Init(s), (s, l, t) => Next(s, l, t), states, labels)
  }

  lemma ReachableInv(states: seq<State>, labels: seq<Label>, i: nat)
    requires Run(states, labels) && i < |states|
    ensures Inv(states[i])
  {
    forall s | Init(s) ensures Inv(s) {}
    forall s, l, t | Inv(s) && Next(s, l, t) ensures Inv(t) { InvStep(s, l, t); }
    InvariantHolds(s => Init(s), (s, l, t) => Next(s, l, t), s => Inv(s), states, labels);
  }

  // In every run: the deadline is set, or the transport closed, by a call's function only while
  // that call is still inside, holding the lock, and only once its own context is done.
  lemma ActsOnlyInsideItsCall(states: seq<State>, labels: seq<Label>, i: nat)
    requires Run(states, labels) && i < |labels| && labels[i].Act?
    ensures var k := labels[i].k; var s := states[i];
      At(s, k) && Inside(s.calls[k].pc) && s.lock == Some(k) && s.calls[k].ctx.Some?
  {
    ReachableInv(states, labels, i);
    assert Next(states[i], labels[i], states[i + 1]) && CallFits(states[i], labels[i].k);
  }

  // Hence no call ever meets a deadline that an earlier one left or a later one set: once it
  // has cleared the deadline, only its own context can set it, until it returns; and the deadline
  // is set exactly when the call's own function has acted.
  lemma NoStaleDeadline(states: seq<State>, labels: seq<Label>, i: nat, k: nat)
    requires Run(states, labels) && i < |states|
    requires At(states[i], k) && Inside(states[i].calls[k].pc) && !states[i].calls[k].pc.Clearing?
    ensures states[i].setBy == None || (states[i].setBy == Some(k) && states[i].calls[k].ctx.Some?)
    ensures states[i].hasDeadline ==> (states[i].setBy == Some(k) <==> HasActed(states[i].calls[k].func))
  {
    ReachableInv(states, labels, i);
    assert CallFits(states[i], k);
  }

  // Without deadlines: the transport is closed exactly when the function of some call has acted,
  // and then stays closed by the first that did, into every later call.
  lemma ClosedForGood(states: seq<State>, labels: seq<Label>, i: nat, j: nat)
    requires Run(states, labels) && i <= j < |states| && !states[i].hasDeadline
    ensures !states[j].hasDeadline && (states[i].closedBy.Some? ==> states[j].closedBy == states[i].closedBy)
    ensures states[i].closedBy.Some? <==> exists k: nat :: At(states[i], k) && HasActed(states[i].calls[k].func)
    decreases j
  {
    ReachableInv(states, labels, i);
    if i < j {
      ClosedForGood(states, labels, i, j - 1);
      assert Next(states[j - 1], labels[j - 1], states[j]);
    }
  }

  // A call may succeed and yet have closed the transport, when its context ends between its I/O
  // and its stopping of the function. With deadlines what is left behind is a deadline, which
  // the next call clears.
  lemma SuccessMayClose(why: Err) returns (states: seq<State>, labels: seq<Label>)
    requires IsContextError(why)
    ensures Run(states, labels)
    ensures var s := states[|labels|]; |s.calls| == 1 && s.calls[0].pc == Returned(None) && s.closedBy == Some(0)
  {
    labels := [
      Begin, Lock(0), Clear(0), Register(0), IoEnds(0, None), CtxDone(0, why), StartFunc(0), StopFunc(0),
      Act(0), FinishFunc(0), FuncDone(0), Return(0)];
    var done := Some(why);
    states := [
      State(false, [], None, None, None),
      State(false, [Call(WantsLock, Unregistered, None)], None, None, None),
      State(false, [Call(Clearing, Unregistered, None)], Some(0), None, None),
      State(false, [Call(Registering, Unregistered, None)], Some(0), None, None),
      State(false, [Call(InIo, Pending, None)], Some(0), None, None),
      State(false, [Call(Stopping(None), Pending, None)], Some(0), None, None),
      State(false, [Call(Stopping(None), Pending, done)], Some(0), None, None),
      State(false, [Call(Stopping(None), Started, done)], Some(0), None, None),
      State(false, [Call(AwaitingFunc(None), Started, done)], Some(0), None, None),
      State(false, [Call(AwaitingFunc(None), Acted, done)], Some(0), None, Some(0)),
      State(false, [Call(AwaitingFunc(None), Finished, done)], Some(0), None, Some(0)),
      State(false, [Call(Joining(None), Finished, done)], Some(0), None, Some(0)),
      State(false, [Call(Returned(None), Finished, done)], None, None, Some(0))];
    forall k | 0 <= k < |labels| ensures Next(states[k], labels[k], states[k + 1]) {
      assert k == 0 || k == 1 || k == 2 || k == 3 || k == 4 || k == 5
          || k == 6 || k == 7 || k == 8 || k == 9 || k == 10 || k == 11;
    }
  }

  // Only a transport without deadlines is ever closed, and only by the function of a call whose
  // own context has ended.
  lemma OnlyEndedContextsClose(states: seq<State>, labels: seq<Label>, i: nat, k: nat)
    requires Run(states, labels) && i < |states| && states[i].closedBy == Some(k)
    ensures !states[i].hasDeadline && At(states[i], k) && states[i].calls[k].ctx.Some?
  {
    ReachableInv(states, labels, i);
    assert CallFits(states[i], k);
  }

  // Call k has returned no error and yet closed the transport.
  ghost predicate SuccessCloses(states: seq<State>, labels: seq<Label>, i: nat, k: nat) {
    && Run(states, labels) && i < |states| && At(states[i], k)
    && states[i].calls[k].pc == Returned(None) && states[i].closedBy == Some(k)
  }

  ghost predicate SomeSuccessCloses(hasDeadline: bool) {
    exists states: seq<State>, labels: seq<Label>, i: nat, k: nat ::
      SuccessCloses(states, labels, i, k) && states[i].hasDeadline == hasDeadline
  }

  // That happens in some run exactly when the transport has no deadlines.
  lemma SuccessClosesExactly(hasDeadline: bool)
    ensures SomeSuccessCloses(hasDeadline) <==> !hasDeadline
  {
    forall states: seq<State>, labels: seq<Label>, i: nat, k: nat | SuccessCloses(states, labels, i, k)
      ensures !states[i].hasDeadline
    {
      OnlyEndedContextsClose(states, labels, i, k);
    }
    if !hasDeadline {
      var states, labels := SuccessMayClose(Leaf(Canceled));
      assert SuccessCloses(states, labels, |labels|, 0);
    }
  }

  // After a call has returned its function never runs again, whatever its context does.
  lemma ReturnedCallsAreInert(states: seq<State>, labels: seq<Label>, i: nat, k: nat)
    requires Run(states, labels) && i < |labels|
    requires At(states[i], k) && states[i].calls[k].pc.Returned?
    ensures labels[i] != StartFunc(k) && labels[i] != Act(k) && labels[i] != FinishFunc(k)
    ensures At(states[i + 1], k) && states[i + 1].calls[k].pc == states[i].calls[k].pc
  {
    ReachableInv(states, labels, i);
    assert Next(states[i], labels[i], states[i + 1]) && CallFits(states[i], k);
  }

  // A call whose I/O failed when its context was done reports an error that no retry loop retries.
  lemma CancelledCallIsNotRetried(states: seq<State>, labels: seq<Label>, i: nat, k: nat)
    requires Run(states, labels) && i < |labels| && labels[i] == Return(k)
    requires At(states[i], k) && states[i].calls[k].pc.Joining?
    requires states[i].calls[k].pc.ioErr.Some? && states[i].calls[k].ctx.Some?
    ensures var c := states[i + 1].calls[k];
      && c.pc.Returned? && c.pc.err.Some?
      && forall e :: Within(c.pc.err.value, e) ==> !Retryable(e)
  {
    ReachableInv(states, labels, i);
    assert Next(states[i], labels[i], states[i + 1]) && CallFits(states[i], k);
    var c := states[i].calls[k];
    var ioErr, ctxErr := c.pc.ioErr.value, c.ctx.value;
    JoinOfTwo(ioErr, ctxErr);
    forall e | Within(Joined([ioErr, ctxErr]), e) ensures !Retryable(e) {
      CancelledIsNotRetryable(e, ioErr, ctxErr);
    }
  }

  lemma JoinOfTwo(a: Err, b: Err)
    ensures Join([Some(a), Some(b)]) == Some(Joined([a, b]))
  {
    var errs := [Some(a), Some(b)];
    assert errs[1..][1..] == [] && NonNil(errs[1..][1..]) == [];
    assert NonNil(errs) == [a] + NonNil(errs[1..]) && NonNil(errs[1..]) == [b] + NonNil(errs[1..][1..]);
    assert [a] + ([b] + []) == [a, b];
  }

  // A call whose context has ended during its I/O is interrupted: its function has acted, or can
  // take its next step towards that.
  lemma EndedContextInterrupts(s: State, k: nat) returns (l: Label)
    requires Inv(s) && At(s, k) && s.calls[k].pc.InIo? && s.calls[k].ctx.Some? && !HasActed(s.calls[k].func)
    ensures Enabled(s, l) && (l == StartFunc(k) || l == Act(k))
    ensures l == Act(k) ==> var t := Apply(s, l); if s.hasDeadline then t.setBy == Some(k) else t.closedBy.Some?
  {
    assert CallFits(s, k);
    l := if s.calls[k].func.Pending? then StartFunc(k) else Act(k);
  }

  // No call waits for ever on its own function: the function it waits for can always proceed.
  lemma WaitingCallProceeds(s: State, k: nat) returns (l: Label)
    requires Inv(s) && At(s, k) && Inside(s.calls[k].pc) && !s.calls[k].pc.InIo?
    ensures Enabled(s, l)
    ensures l in {Clear(k), Register(k), StopFunc(k), Act(k), FinishFunc(k), FuncDone(k), Return(k)}
  {
    assert CallFits(s, k);
    l := match s.calls[k].pc
      case Clearing => Clear(k)
      case Registering => Register(k)
      case Stopping(_) => StopFunc(k)
      case AwaitingFunc(_) =>
        (match s.calls[k].func case Started => Act(k) case Acted => FinishFunc(k) case _ => FuncDone(k))
      case _ => Return(k);
  }

  // The I/O of a call has ended with ioErr, or the call has returned since.
  predicate Carries(pc: Pc, ioErr: Option<Err>) {
    pc == Stopping(ioErr) || pc == AwaitingFunc(ioErr) || pc == Joining(ioErr) || pc.Returned?
  }

  lemma {:induction false} IoErrorIsCarried(
    states: seq<State>, labels: seq<Label>, i: nat, m: nat, k: nat, ioErr: Option<Err>)
    requires Run(states, labels) && i < m < |states| && labels[i] == IoEnds(k, ioErr)
    ensures At(states[m], k) && Carries(states[m].calls[k].pc, ioErr)
    decreases m
  {
    assert Next(states[m - 1], labels[m - 1], states[m]);
    if m - 1 > i { IoErrorIsCarried(states, labels, i, m - 1, k, ioErr); }
  }

  // A call's context reports the error with which it ended, from when it ended.
  lemma {:induction false} ContextHistory(states: seq<State>, labels: seq<Label>, m: nat, k: nat, why: Err)
    requires Run(states, labels) && m < |states|
    ensures CtxDone(k, why) in labels[..m] <==> At(states[m], k) && states[m].calls[k].ctx == Some(why)
    decreases m
  {
    if m > 0 {
      ContextHistory(states, labels, m - 1, k, why);
      assert Next(states[m - 1], labels[m - 1], states[m]);
      assert labels[..m] == labels[..m - 1] + [labels[m - 1]];
    }
  }

  // Over whole runs, what a call answers: nothing if its I/O succeeded, whatever became of its
  // context; otherwise an error that matches what the I/O error matches, and what the error of its
  // context matches if that has ended by then.
  lemma AnswersExactly(
    states: seq<State>, labels: seq<Label>, i: nat, j: nat, k: nat, ioErr: Option<Err>, x: Sentinel)
    requires Run(states, labels) && i < j < |labels| && labels[i] == IoEnds(k, ioErr) && labels[j] == Return(k)
    ensures At(states[j + 1], k) && states[j + 1].calls[k].pc.Returned?
    ensures var err := states[j + 1].calls[k].pc.err;
      && (err.None? <==> ioErr.None?)
      && (ioErr.Some? ==>
            (IsIn(err, x) <==> IsIn(ioErr, x) || exists why :: CtxDone(k, why) in labels[..j] && Is(why, x)))
  {
    IoErrorIsCarried(states, labels, i, j, k, ioErr);
    assert Next(states[j], labels[j], states[j + 1]);
    var ctx := states[j].calls[k].ctx;
    if ctx.Some? { ContextHistory(states, labels, j, k, ctx.value); }
    forall why ensures CtxDone(k, why) in labels[..j] <==> ctx == Some(why) {
      ContextHistory(states, labels, j, k, why);
    }
    if ioErr.Some? {
      JoinTwoMatches(ioErr, ctx, x);
      var parts := [ioErr, ctx];
      JoinIsNil(parts);
      assert parts[0].Some?;
    }
  }

  // A call that cannot clear the deadline answers with that error and does no I/O.
  lemma ClearingErrorIsAnswered(states: seq<State>, labels: seq<Label>, j: nat, k: nat, err: Err)
    requires Run(states, labels) && j < |labels| && labels[j] == ClearFails(k, err)
    ensures At(states[j + 1], k) && states[j + 1].calls[k].pc == Returned(Some(err))
    ensures states[j + 1].lock.None? && states[j + 1].calls[k].func.Unregistered?
  {
    ReachableInv(states, labels, j);
    assert Next(states[j], labels[j], states[j + 1]) && CallFits(states[j], k);
  }
}
