// RPCServer.Run over whole executions: the decode loop, the goroutines it spawns, and shutdown.

module RunLoop {
  import opened Prelude
  import opened Executions
  import opened Errors
  import opened Ids
  import opened Rpc

  // What one call of DecodeFrom yields.
  datatype Decoded = Arrived(message: Message) | EmptyMessage | DecodeError(err: Err, text: string)

  datatype Action = AwaitHandlers | StopContext | CloseTransport | CallOnExit

  // ctxErr and closeErr are what ctx.Err() and Close() answer during shutdown.
  datatype Config = Config(
    noRoutines: bool, serialBatch: bool, waitOnClose: bool, stream: bool,
    ctxErr: Option<Err>, closeErr: Option<Err>)

  // Where each action stands in the deferred function.
  function Position(c: Config, a: Action): nat {
    match a
    case AwaitHandlers => if c.waitOnClose then 0 else 1
    case StopContext => if c.waitOnClose then 1 else 0
    case CloseTransport => 2
    case CallOnExit => 3
  }

  // Decoding errors that are answered, and those that end the loop.
  predicate IsAnswered(e: Err) { Is(e, SyntaxError) || Is(e, UnmarshalTypeError) }

  predicate EndsLoop(c: Config, e: Err) { if Is(e, SyntaxError) then c.stream else !Is(e, UnmarshalTypeError) }

  // The serial reference: what one decoded message is answered with, if anything.
  function Reference(d: Decoded): Option<Payload> {
    match d
    case Arrived(message) => Expected(message)
    case EmptyMessage => None
    case DecodeError(err, text) =>
      if Is(err, SyntaxError) then Some(One(NullIdError(PARSE_ERROR.(data := text))))
      else if Is(err, UnmarshalTypeError) then Some(One(NullIdError(INVALID_REQUEST.(data := text))))
      else None
  }

  // What the goroutines of a concurrent batch may have been collected into.
  predicate MayProduce(c: Config, d: Decoded, payload: Option<Payload>) {
    if d.Arrived? && d.message.Elements? && |d.message.objs| > 1 && !c.serialBatch
    then SameUpToOrder(payload, Reference(d))
    else payload == Reference(d)
  }

  datatype Handler = Working | Sending(payload: Payload) | Leaving | Gone

  datatype Loop = Decoding | Replying(k: nat) | InCall(k: nat) | Deferred(done: nat)

  datatype Event = Encoded(k: nat, payload: Payload) | Stopped | Closed | Exited(err: Option<Err>)

  datatype State = State(
    loop: Loop, next: nat, handlers: map<nat, Handler>, waiting: nat, loopErr: Option<Err>, log: seq<Event>)

  datatype Label =
    | Decode | ReplyToError | Resume
    | Work(k: nat, payload: Option<Payload>) | Send(k: nat) | Leave(k: nat)
    | Await | Stop | Close | OnExit

  predicate Init(s: State) { s == State(Decoding, 0, map[], 0, None, []) }

  predicate HandlerIs(s: State, k: nat, h: Handler) { k in s.handlers && s.handlers[k] == h }

  predicate NextAction(c: Config, s: State, a: Action) { s.loop == Deferred(Position(c, a)) }

  predicate IsDone(c: Config, s: State, a: Action) { s.loop.Deferred? && Position(c, a) < s.loop.done }

  predicate Enabled(c: Config, inputs: seq<Decoded>, s: State, l: Label) {
    match l
    case Decode => s.loop.Decoding? && s.next < |inputs|
    case ReplyToError => s.loop.Replying? && s.loop.k < |inputs| && inputs[s.loop.k].DecodeError?
                         && IsAnswered(inputs[s.loop.k].err)
    case Resume => s.loop.InCall? && HandlerIs(s, s.loop.k, Gone)
    case Work(k, payload) => HandlerIs(s, k, Working) && k < |inputs| && MayProduce(c, inputs[k], payload)
    case Send(k) => k in s.handlers && s.handlers[k].Sending?
    case Leave(k) => HandlerIs(s, k, Leaving) && (!c.noRoutines ==> s.waiting > 0)
    case Await => NextAction(c, s, AwaitHandlers) && s.waiting == 0
    case Stop => NextAction(c, s, StopContext)
    case Close => NextAction(c, s, CloseTransport)
    case OnExit => NextAction(c, s, CallOnExit)
  }

  function ShutDown(s: State, err: Err): State {
    s.(loop := Deferred(0), loopErr := Some(err))
  }

  function Apply(c: Config, inputs: seq<Decoded>, s: State, l: Label): State
    requires Enabled(c, inputs, s, l)
  {
    match l
    case Decode =>
      var t := s.(next := s.next + 1);
      (match inputs[s.next]
       case Arrived(_) =>
         t.(handlers := s.handlers[s.next := Working],
            loop := if c.noRoutines then InCall(s.next) else Decoding,
            waiting := if c.noRoutines then s.waiting else s.waiting + 1)
       case EmptyMessage => t
       case DecodeError(err, _) => if IsAnswered(err) then t.(loop := Replying(s.next)) else ShutDown(t, err))
    case ReplyToError =>
      var d := inputs[s.loop.k];
      var t := s.(log := s.log + [Encoded(s.loop.k, Reference(d).value)]);
      if EndsLoop(c, d.err) then ShutDown(t, d.err) else t.(loop := Decoding)
    case Resume => s.(loop := Decoding)
    case Work(k, payload) =>
      s.(handlers := s.handlers[k := if payload.Some? then Sending(payload.value) else Leaving])
    case Send(k) =>
      s.(handlers := s.handlers[k := Leaving], log := s.log + [Encoded(k, s.handlers[k].payload)])
    case Leave(k) =>
      s.(handlers := s.handlers[k := Gone], waiting := if c.noRoutines then s.waiting else s.waiting - 1)
    case Await => Advance(s)
    case Stop => Advance(s).(log := s.log + [Stopped])
    case Close => Advance(s).(log := s.log + [Closed])
    case OnExit => Advance(s).(log := s.log + [Exited(Join([s.loopErr, c.ctxErr, c.closeErr]))])
  }

  function Advance(s: State): State
    requires s.loop.Deferred?
  {
    s.(loop := Deferred(s.loop.done + 1))
  }

  predicate Next(c: Config, inputs: seq<Decoded>, s: State, l: Label, t: State) {
    Enabled(c, inputs, s, l) && t == Apply(c, inputs, s, l)
  }

  // How many EncodeTo calls message k has caused.
  function Encodes(log: seq<Event>, k: nat): nat {
    if log == [] then 0
    else Encodes(log[..|log| - 1], k)
         + if log[|log| - 1].Encoded? && log[|log| - 1].k == k then 1 else 0
  }

  lemma EncodesGrow(log: seq<Event>, e: Event, k: nat)
    ensures Encodes(log + [e], k) == Encodes(log, k) + if e.Encoded? && e.k == k then 1 else 0
  {
    assert (log + [e])[..|log|] == log;
  }

  // How many it must have caused by now.
  function Due(inputs: seq<Decoded>, s: State, k: nat): nat {
    if k >= s.next || k >= |inputs| || Reference(inputs[k]).None? then 0
    else if inputs[k].Arrived? then
      if k in s.handlers && (s.handlers[k].Leaving? || s.handlers[k].Gone?) then 1 else 0
    else if s.loop == Replying(k) then 0 else 1
  }

  function Busy(handlers: map<nat, Handler>): set<nat> {
    set k | k in handlers && !handlers[k].Gone?
  }

  // The goroutines are those of the messages that arrived, and the wait group counts the busy ones.
  ghost predicate Tracked(c: Config, inputs: seq<Decoded>, s: State) {
    && s.next <= |inputs|
    && (forall k: nat :: k in s.handlers <==> k < s.next && k < |inputs| && inputs[k].Arrived?)
    && (if c.noRoutines then s.waiting == 0 else s.waiting == |Busy(s.handlers)|)
    && (c.noRoutines ==> forall k :: k in Busy(s.handlers) ==> s.loop == InCall(k))
    && (!c.noRoutines ==> !s.loop.InCall?)
    && (s.loop.Replying? ==>
          s.loop.k == s.next - 1 && inputs[s.loop.k].DecodeError? && IsAnswered(inputs[s.loop.k].err))
    && (s.loop.InCall? ==> s.loop.k == s.next - 1 && s.loop.k in s.handlers)
  }

  // Every pending or encoded payload is one its message may produce.
  ghost predicate FaithfulPending(c: Config, inputs: seq<Decoded>, s: State) {
    forall k :: k in s.handlers && s.handlers[k].Sending? ==>
      k < |inputs| && MayProduce(c, inputs[k], Some(s.handlers[k].payload))
  }

  ghost predicate FaithfulLog(c: Config, inputs: seq<Decoded>, s: State) {
    forall i :: 0 <= i < |s.log| && s.log[i].Encoded? ==>
      s.log[i].k < |inputs| && MayProduce(c, inputs[s.log[i].k], Some(s.log[i].payload))
  }

  ghost predicate Faithful(c: Config, inputs: seq<Decoded>, s: State) {
    FaithfulPending(c, inputs, s) && FaithfulLog(c, inputs, s)
  }

  ghost predicate Counted(inputs: seq<Decoded>, s: State) {
    forall k :: Encodes(s.log, k) == Due(inputs, s, k)
  }

  // Shutdown has got as far as the log says.
  ghost predicate Staged(c: Config, s: State) {
    && (s.loop.Deferred? ==> s.loop.done <= 4 && s.loopErr.Some?)
    && (IsDone(c, s, AwaitHandlers) ==> Busy(s.handlers) == {})
    && (Stopped in s.log <==> IsDone(c, s, StopContext))
    && (Closed in s.log <==> IsDone(c, s, CloseTransport))
    && (HasExited(s.log) <==> IsDone(c, s, CallOnExit))
  }

  predicate HasExited(log: seq<Event>) { exists i :: 0 <= i < |log| && log[i].Exited? }

  // Shutdown begins when no handler is at work any more, or cannot go on while one is.
  predicate Shielded(c: Config) { c.waitOnClose || c.noRoutines }

  // Nothing is encoded once the transport is closed; OnExit is called last, after the close, once.
  ghost predicate WellOrdered(c: Config, log: seq<Event>) {
    forall i, j :: 0 <= i < j < |log| ==>
      && (log[i].Closed? ==> !log[j].Encoded? && !log[j].Closed? && !log[j].Stopped?)
      && !log[i].Exited?
      && (log[i].Stopped? ==> !log[j].Stopped? && (Shielded(c) ==> !log[j].Encoded?))
  }

  ghost predicate Inv(c: Config, inputs: seq<Decoded>, s: State) {
    && Tracked(c, inputs, s) && Faithful(c, inputs, s) && Counted(inputs, s)
    && Staged(c, s) && WellOrdered(c, s.log)
  }

  lemma BusyUpdate(handlers: map<nat, Handler>, k: nat, h: Handler)
    ensures |Busy(handlers[k := h])| + (if k in Busy(handlers) then 1 else 0)
         == |Busy(handlers)| + if h.Gone? then 0 else 1
  {
    var rest := Busy(handlers) - {k};
    assert Busy(handlers) == if k in Busy(handlers) then rest + {k} else rest;
    assert Busy(handlers[k := h]) == if h.Gone? then rest else rest + {k};
  }

  lemma TrackedStep(c: Config, inputs: seq<Decoded>, s: State, l: Label)
    requires Tracked(c, inputs, s) && Enabled(c, inputs, s, l)
    ensures Tracked(c, inputs, Apply(c, inputs, s, l))
  {
    var t := Apply(c, inputs, s, l);
    match l
    case Decode =>
      if inputs[s.next].Arrived? { BusyUpdate(s.handlers, s.next, Working); }
    case Work(k, _) =>
      BusyUpdate(s.handlers, k, t.handlers[k]);
      assert Busy(t.handlers) == Busy(s.handlers);
    case Send(k) =>
      BusyUpdate(s.handlers, k, Leaving);
      assert Busy(t.handlers) == Busy(s.handlers);
    case Leave(k) =>
      BusyUpdate(s.handlers, k, Gone);
      assert Busy(t.handlers) == Busy(s.handlers) - {k};
    case Resume =>
      assert Busy(s.handlers) == {};
    case _ =>
  }

  lemma FaithfulPendingStep(c: Config, inputs: seq<Decoded>, s: State, l: Label)
    requires FaithfulPending(c, inputs, s) && Enabled(c, inputs, s, l)
    ensures FaithfulPending(c, inputs, Apply(c, inputs, s, l))
  {}

  lemma FaithfulLogStep(c: Config, inputs: seq<Decoded>, s: State, l: Label)
    requires Faithful(c, inputs, s) && Enabled(c, inputs, s, l)
    ensures FaithfulLog(c, inputs, Apply(c, inputs, s, l))
  {
    LogGrows(c, inputs, s, l);
  }

  lemma FaithfulStep(c: Config, inputs: seq<Decoded>, s: State, l: Label)
    requires Faithful(c, inputs, s) && Tracked(c, inputs, s) && Enabled(c, inputs, s, l)
    ensures Faithful(c, inputs, Apply(c, inputs, s, l))
  {
    FaithfulPendingStep(c, inputs, s, l);
    FaithfulLogStep(c, inputs, s, l);
  }

  lemma MayProduceAgrees(c: Config, d: Decoded, payload: Option<Payload>)
    requires MayProduce(c, d, payload)
    ensures payload.Some? <==> Reference(d).Some?
  {}

  lemma DueStep(c: Config, inputs: seq<Decoded>, s: State, l: Label, k: nat)
    requires Faithful(c, inputs, s) && Tracked(c, inputs, s) && Enabled(c, inputs, s, l)
    ensures var t := Apply(c, inputs, s, l);
      Due(inputs, t, k) == Due(inputs, s, k)
        + if |t.log| > |s.log| && t.log[|s.log|].Encoded? && t.log[|s.log|].k == k then 1 else 0
  {
    match l
    case Work(j, payload) => MayProduceAgrees(c, inputs[j], payload);
    case Send(j) => MayProduceAgrees(c, inputs[j], Some(s.handlers[j].payload));
    case _ =>
  }

  lemma CountedStep(c: Config, inputs: seq<Decoded>, s: State, l: Label)
    requires Counted(inputs, s) && Faithful(c, inputs, s) && Tracked(c, inputs, s) && Enabled(c, inputs, s, l)
    ensures Counted(inputs, Apply(c, inputs, s, l))
  {
    var t := Apply(c, inputs, s, l);
    forall k ensures Encodes(t.log, k) == Due(inputs, t, k) {
      assert Encodes(s.log, k) == Due(inputs, s, k);
      DueStep(c, inputs, s, l, k);
      if |t.log| > |s.log| { EncodesGrow(s.log, t.log[|s.log|], k); }
    }
  }

  // What a step adds to the log, if anything, goes at its end.
  lemma LogGrows(c: Config, inputs: seq<Decoded>, s: State, l: Label)
    requires Enabled(c, inputs, s, l)
    ensures var t := Apply(c, inputs, s, l);
      t.log == s.log || (|t.log| == |s.log| + 1 && t.log == s.log + [t.log[|s.log|]])
  {}

  lemma StagedStep(c: Config, inputs: seq<Decoded>, s: State, l: Label)
    requires Staged(c, s) && Tracked(c, inputs, s) && Enabled(c, inputs, s, l)
    ensures Staged(c, Apply(c, inputs, s, l))
  {
    var t := Apply(c, inputs, s, l);
    match l
    case Work(k, _) =>
      assert k in Busy(s.handlers);
    case Send(k) =>
      assert k in Busy(s.handlers);
    case Leave(k) =>
      assert Busy(t.handlers) <= Busy(s.handlers);
    case Await =>
    case OnExit =>
      assert t.log[|s.log|].Exited?;
    case _ =>
  }

  lemma WellOrderedStep(c: Config, inputs: seq<Decoded>, s: State, l: Label)
    requires Inv(c, inputs, s) && Enabled(c, inputs, s, l)
    ensures WellOrdered(c, Apply(c, inputs, s, l).log)
  {
    LogGrows(c, inputs, s, l);
    var t := Apply(c, inputs, s, l);
    if l.Send? { assert l.k in Busy(s.handlers); }
    if |t.log| > |s.log| {
      forall i | 0 <= i < |s.log|
        ensures s.log[i].Closed? ==>
          !t.log[|s.log|].Encoded? && !t.log[|s.log|].Closed? && !t.log[|s.log|].Stopped?
        ensures !s.log[i].Exited?
        ensures s.log[i].Stopped? ==> !t.log[|s.log|].Stopped? && (Shielded(c) ==> !t.log[|s.log|].Encoded?)
      {
        assert s.log[i] in s.log;
        assert s.log[i].Closed? ==> s.log[i] == Closed;
        assert s.log[i].Stopped? ==> s.log[i] == Stopped;
      }
    }
  }

  ghost predicate Run(c: Config, inputs: seq<Decoded>, states: seq<State>, labels: seq<Label>) {
    IsRun(s => Init(s), (s, l, t) => Next(c, inputs, s, l, t), states, labels)
  }

  lemma InvStep(c: Config, inputs: seq<Decoded>, s: State, l: Label, t: State)
    requires Inv(c, inputs, s) && Next(c, inputs, s, l, t)
    ensures Inv(c, inputs, t)
  {
    TrackedStep(c, inputs, s, l);
    FaithfulStep(c, inputs, s, l);
    CountedStep(c, inputs, s, l);
    StagedStep(c, inputs, s, l);
    WellOrderedStep(c, inputs, s, l);
  }

  lemma InvIsInductive(c: Config, inputs: seq<Decoded>)
    ensures Inductive(s => Init(s), (s, l, t) => Next(c, inputs, s, l, t), s => Inv(c, inputs, s))
  {
    forall s | Init(s) ensures Inv(c, inputs, s) {
      assert Busy(s.handlers) == {};
    }
    forall s, l, t | Inv(c, inputs, s) && Next(c, inputs, s, l, t) ensures Inv(c, inputs, t) {
      InvStep(c, inputs, s, l, t);
    }
  }

  lemma ReachableInv(c: Config, inputs: seq<Decoded>, states: seq<State>, labels: seq<Label>, k: nat)
    requires Run(c, inputs, states, labels) && k < |states|
    ensures Inv(c, inputs, states[k])
  {
    InvIsInductive(c, inputs);
    InvariantHolds(s => Init(s), (s, l, t) => Next(c, inputs, s, l, t), s => Inv(c, inputs, s), states, labels);
  }

  predicate HasReturned(s: State) { s.loop == Deferred(4) }

  // At every moment of every run: a message has caused at most one EncodeTo, with a payload
  // it may produce; once Run has returned, exactly the messages with an expected reply have.
  lemma EachMessageAnsweredOnce(
    c: Config, inputs: seq<Decoded>, states: seq<State>, labels: seq<Label>, at: nat, k: nat)
    requires Run(c, inputs, states, labels) && at < |states| && k < |inputs|
    ensures var s := states[at];
      && Encodes(s.log, k) <= 1
      && (forall i :: 0 <= i < |s.log| && s.log[i].Encoded? && s.log[i].k == k ==>
            MayProduce(c, inputs[k], Some(s.log[i].payload)))
      && (HasReturned(s) ==> Encodes(s.log, k) == if k < s.next && Reference(inputs[k]).Some? then 1 else 0)
  {
    ReachableInv(c, inputs, states, labels, at);
    var s := states[at];
    assert Encodes(s.log, k) == Due(inputs, s, k);
    if HasReturned(s) {
      assert Busy(s.handlers) == {};
      assert k in s.handlers ==> k !in Busy(s.handlers);
    }
  }

  predicate IsSilentElement(e: Element) { e.Element? && e.leftId.IsZero() && !e.outcome.Panicked? }

  // Messages left without an ID by handlers that do not panic, alone or as a whole batch, and
  // what is no message.
  predicate IsSilent(d: Decoded) {
    match d
    case EmptyMessage => true
    case DecodeError(err, _) => !IsAnswered(err)
    case Arrived(Single(e)) => IsSilentElement(e)
    case Arrived(Elements(objs)) => objs != [] && forall k :: 0 <= k < |objs| ==> IsSilentElement(objs[k])
    case _ => false
  }

  lemma ReferenceIsSilent(d: Decoded)
    ensures Reference(d).None? <==> IsSilent(d)
  {
    if d.Arrived? && d.message.Elements? {
      var objs := d.message.objs;
      SilentBatch(objs);
      forall k | 0 <= k < |objs| ensures HandleRequest(objs[k]).None? <==> IsSilentElement(objs[k]) {
        SilentExactly(objs[k]);
      }
    } else if d.Arrived? && d.message.Single? {
      SilentExactly(d.message.element);
    }
  }

  // In every run, when Run has returned, the messages it took that caused no EncodeTo are
  // exactly the silent ones.
  lemma UnansweredExactly(
    c: Config, inputs: seq<Decoded>, states: seq<State>, labels: seq<Label>, at: nat, k: nat)
    requires Run(c, inputs, states, labels) && at < |states| && HasReturned(states[at])
    requires k < states[at].next && k < |inputs|
    ensures Encodes(states[at].log, k) == 0 <==> IsSilent(inputs[k])
  {
    EachMessageAnsweredOnce(c, inputs, states, labels, at, k);
    ReferenceIsSilent(inputs[k]);
  }

  // The replies to a batch: reply j tells what became of element at[j], and every element that is
  // not silent has one. A serial batch keeps the order.
  ghost predicate BatchTells(serial: bool, replies: seq<Reply>, objs: seq<Element>, at: seq<nat>) {
    && |at| == |replies| && (serial ==> Increasing(at))
    && NoRepeats(at)
    && (forall j :: 0 <= j < |at| ==> at[j] < |objs| && Tells(replies[j], objs[at[j]]))
    && (forall i: nat :: i < |objs| ==> (i in at <==> !IsSilentElement(objs[i])))
  }

  // payload answers what was decoded.
  ghost predicate PayloadTells(serial: bool, payload: Payload, d: Decoded) {
    match d
    case Arrived(Single(e)) => payload.One? && !IsSilentElement(e) && Tells(payload.reply, e)
    case Arrived(Unsplit(text)) => payload.One? && IsError(payload.reply, NULL_ID, -32600, text)
    case Arrived(NotContainer) => payload.One? && IsError(payload.reply, NULL_ID, -32700, "")
    case Arrived(Elements(objs)) =>
      if objs == [] then payload.One? && IsError(payload.reply, NULL_ID, -32600, "")
      else payload.Many? && payload.replies != [] && exists at :: BatchTells(serial, payload.replies, objs, at)
    case EmptyMessage => false
    case DecodeError(err, text) =>
      && payload.One? && (Is(err, SyntaxError) || Is(err, UnmarshalTypeError))
      && IsError(payload.reply, NULL_ID, if Is(err, SyntaxError) then -32700 else -32600, text)
  }

  lemma SerialBatchTells(objs: seq<Element>) returns (at: seq<nat>)
    ensures BatchTells(true, SerialReplies(objs), objs, at)
  {
    at := SerialSelection(objs);
    forall j | 0 <= j < |at| ensures Tells(SerialReplies(objs)[j], objs[at[j]]) { ReplyTells(objs[at[j]]); }
    forall i: nat | i < |objs| ensures i in at <==> !IsSilentElement(objs[i]) { SilentExactly(objs[i]); }
  }

  lemma PermutedBatchTells(objs: seq<Element>, replies: seq<Reply>) returns (at: seq<nat>)
    requires multiset(replies) == multiset(SerialReplies(objs))
    ensures BatchTells(false, replies, objs, at)
  {
    var serial := SerialBatchTells(objs);
    var from := PermutationIndex(replies, SerialReplies(objs));
    at := seq(|from|, j requires 0 <= j < |from| => serial[from[j]]);
    forall i: nat | i < |objs| ensures i in at <==> i in serial {
      if i in serial {
        var j: nat :| j < |serial| && serial[j] == i;
        AllPositions(from, |serial|, j);
        var m :| 0 <= m < |from| && from[m] == j;
        assert at[m] == i;
      }
    }
  }

  lemma ProducedTells(c: Config, d: Decoded, payload: Payload)
    requires MayProduce(c, d, Some(payload))
    ensures PayloadTells(c.serialBatch, payload, d)
  {
    if d.Arrived? && d.message.Elements? && d.message.objs != [] {
      var objs := d.message.objs;
      if c.serialBatch || |objs| == 1 {
        var at := SerialBatchTells(objs);
        assert BatchTells(c.serialBatch, payload.replies, objs, at);
      } else {
        var at := PermutedBatchTells(objs, payload.replies);
        assert |payload.replies| == |multiset(payload.replies)|;
      }
    } else if d.Arrived? && d.message.Single? {
      ReplyTells(d.message.element);
      SilentExactly(d.message.element);
    }
  }

  // In every run, whatever is encoded for a message tells the client what became of it, element
  // by element, and nothing else.
  lemma EncodedTells(c: Config, inputs: seq<Decoded>, states: seq<State>, labels: seq<Label>, at: nat, i: nat)
    requires Run(c, inputs, states, labels) && at < |states|
    requires i < |states[at].log| && states[at].log[i].Encoded?
    ensures var e := states[at].log[i]; e.k < |inputs| && PayloadTells(c.serialBatch, e.payload, inputs[e.k])
  {
    ReachableInv(c, inputs, states, labels, at);
    ProducedTells(c, inputs[states[at].log[i].k], states[at].log[i].payload);
  }

  predicate ElementOf(e: Element, m: Message) {
    (m.Single? && e == m.element) || (m.Elements? && e in m.objs)
  }

  // In every run, each reply encoded for a message that has elements is the reply to one of
  // them; unless its handler supplied the reply, it carries that element's ID exactly when the
  // handler left it alone.
  lemma RepliesBelongToElements(
    c: Config, inputs: seq<Decoded>, states: seq<State>, labels: seq<Label>, at: nat, i: nat, r: Reply)
    returns (e: Element)
    requires Run(c, inputs, states, labels) && at < |states| && i < |states[at].log|
    requires states[at].log[i].Encoded? && r in Replies(states[at].log[i].payload)
    requires var k := states[at].log[i].k; k < |inputs| ==>
      inputs[k].Arrived? && (inputs[k].message.Single? || (inputs[k].message.Elements? && inputs[k].message.objs != []))
    ensures states[at].log[i].k < |inputs| && inputs[states[at].log[i].k].Arrived?
    ensures ElementOf(e, inputs[states[at].log[i].k].message) && HandleRequest(e) == Some(r) && Tells(r, e)
    ensures e.Element? && !OwnReply(e.outcome) ==> r.Respond? && r.response.id == e.leftId
    ensures e.Element? && !OwnReply(e.outcome) ==> (r.response.id == e.request.id <==> e.leftId == e.request.id)
  {
    ReachableInv(c, inputs, states, labels, at);
    var m, payload := inputs[states[at].log[i].k].message, states[at].log[i].payload;
    if m.Single? {
      e := m.element;
    } else {
      assert r in multiset(payload.replies) && r in multiset(SerialReplies(m.objs));
      e := SerialReplyOf(m.objs, r);
    }
    ReplyTells(e);
    if e.Element? && !OwnReply(e.outcome) { ReplyEchoesId(e); }
  }

  lemma ExitedIsLast(c: Config, log: seq<Event>, i: nat)
    requires WellOrdered(c, log) && i < |log| && log[i].Exited?
    ensures i == |log| - 1
  {
    var last := log[|log| - 1];
  }

  // Shutdown in every run: no EncodeTo after Close, which comes after the stop, and OnExit is the
  // very last event, after the context is stopped, the transport closed and every spawned handler
  // gone.
  lemma ShutdownIsOrderly(
    c: Config, inputs: seq<Decoded>, states: seq<State>, labels: seq<Label>, at: nat)
    requires Run(c, inputs, states, labels) && at < |states|
    ensures var s := states[at];
      && (forall i, j :: 0 <= i < j < |s.log| && s.log[i].Closed? ==>
            !s.log[j].Encoded? && !s.log[j].Stopped?)
      && (forall i :: 0 <= i < |s.log| && s.log[i].Exited? ==>
            i == |s.log| - 1 && Stopped in s.log && Closed in s.log && Busy(s.handlers) == {})
      && (HasReturned(s) <==> HasExited(s.log))
  {
    ReachableInv(c, inputs, states, labels, at);
    var s := states[at];
    if i :| 0 <= i < |s.log| && s.log[i].Exited? {
      assert HasExited(s.log) && IsDone(c, s, CallOnExit);
      ExitedIsLast(c, s.log, i);
    }
  }

  // Where shielded, no handler is running once stop has been called, so none sees that cancellation.
  lemma ShieldedHandlersFinishFirst(
    c: Config, inputs: seq<Decoded>, states: seq<State>, labels: seq<Label>, at: nat)
    requires Run(c, inputs, states, labels) && at < |states|
    requires Shielded(c) && Stopped in states[at].log
    ensures Busy(states[at].handlers) == {}
    ensures forall i, j :: 0 <= i < j < |states[at].log| && states[at].log[i].Stopped? ==> !states[at].log[j].Encoded?
  {
    ReachableInv(c, inputs, states, labels, at);
  }

  // Where not, one may still be at work when the context is stopped.
  lemma HandlersMaySeeStop(c: Config, message: Message, eof: Err) returns (states: seq<State>, labels: seq<Label>)
    requires !Shielded(c) && !IsAnswered(eof)
    ensures Run(c, [Arrived(message), DecodeError(eof, "")], states, labels)
    ensures var s := states[|labels|]; Stopped in s.log && HandlerIs(s, 0, Working)
  {
    var inputs := [Arrived(message), DecodeError(eof, "")];
    var s0 := State(Decoding, 0, map[], 0, None, []);
    var s1 := Apply(c, inputs, s0, Decode);
    var s2 := Apply(c, inputs, s1, Decode);
    var s3 := Apply(c, inputs, s2, Stop);
    states, labels := [s0, s1, s2, s3], [Decode, Decode, Stop];
    forall k | 0 <= k < 3 ensures Next(c, inputs, states[k], labels[k], states[k + 1]) {
      assert k == 0 || k == 1 || k == 2;
    }
  }

  // In some run a handler is at work after the context was stopped.
  ghost predicate SomeHandlerSeesStop(c: Config) {
    exists inputs: seq<Decoded>, states: seq<State>, labels: seq<Label>, at: nat ::
      Run(c, inputs, states, labels) && at < |states| && Stopped in states[at].log && Busy(states[at].handlers) != {}
  }

  // That is so exactly when Run uses goroutines and does not wait for them before it stops.
  lemma HandlersSeeStopExactly(c: Config)
    ensures SomeHandlerSeesStop(c) <==> !c.waitOnClose && !c.noRoutines
  {
    if Shielded(c) {
      forall inputs: seq<Decoded>, states: seq<State>, labels: seq<Label>, at: nat
        | Run(c, inputs, states, labels) && at < |states| && Stopped in states[at].log
        ensures Busy(states[at].handlers) == {}
      {
        ShieldedHandlersFinishFirst(c, inputs, states, labels, at);
      }
    } else {
      var eof := Leaf(Eof);
      var states, labels := HandlersMaySeeStop(c, NotContainer, eof);
      assert 0 in Busy(states[|labels|].handlers);
    }
  }

  // Run waits for input that does not come, and no handler is left.
  predicate Starved(inputs: seq<Decoded>, s: State) {
    s.loop.Decoding? && s.next == |inputs| && Busy(s.handlers) == {}
  }

  // Nothing is ever stuck: unless Run has returned or waits for input, some step is possible.
  lemma NoDeadlock(c: Config, inputs: seq<Decoded>, s: State) returns (l: Label)
    requires Inv(c, inputs, s) && !HasReturned(s) && !Starved(inputs, s)
    ensures Enabled(c, inputs, s, l)
  {
    if s.loop.InCall? || Busy(s.handlers) != {} {
      var k: nat;
      if s.loop.InCall? {
        k := s.loop.k;
      } else {
        k :| k in Busy(s.handlers);
      }
      match s.handlers[k]
      case Working => l := Work(k, Reference(inputs[k]));
      case Sending(_) => l := Send(k);
      case Leaving =>
        assert k in Busy(s.handlers);
        l := Leave(k);
      case Gone => l := Resume;
    } else if s.loop.Decoding? {
      l := Decode;
    } else if s.loop.Replying? {
      l := ReplyToError;
    } else {
      l := if NextAction(c, s, AwaitHandlers) then Await
           else if NextAction(c, s, StopContext) then Stop
           else if NextAction(c, s, CloseTransport) then Close else OnExit;
    }
  }

  // How many more steps a handler, all of them, the loop and the whole run can take.
  function HandlerRank(handlers: map<nat, Handler>, k: nat): nat {
    if k !in handlers then 0
    else match handlers[k]
      case Working => 3
      case Sending(_) => 2
      case Leaving => 1
      case Gone => 0
  }

  function HandlersRank(handlers: map<nat, Handler>, n: nat): nat {
    if n == 0 then 0 else HandlersRank(handlers, n - 1) + HandlerRank(handlers, n - 1)
  }

  function LoopRank(loop: Loop): nat {
    match loop
    case Decoding => 5
    case Replying(_) => 6
    case InCall(_) => 6
    case Deferred(done) => if done <= 4 then 4 - done else 0
  }

  function Rank(inputs: seq<Decoded>, s: State): nat {
    (if s.next <= |inputs| then 5 * (|inputs| - s.next) else 0)
    + HandlersRank(s.handlers, |inputs|) + LoopRank(s.loop)
  }

  lemma {:induction false} HandlersRankUpdate(handlers: map<nat, Handler>, n: nat, k: nat, h: Handler)
    ensures HandlersRank(handlers[k := h], n)
         == HandlersRank(handlers, n)
            + if k < n then HandlerRank(handlers[k := h], k) - HandlerRank(handlers, k) else 0
  {
    if n > 0 { HandlersRankUpdate(handlers, n - 1, k, h); }
  }

  lemma RankFalls(c: Config, inputs: seq<Decoded>, s: State, l: Label)
    requires Tracked(c, inputs, s) && Staged(c, s) && Enabled(c, inputs, s, l)
    ensures Rank(inputs, Apply(c, inputs, s, l)) < Rank(inputs, s)
  {
    var t := Apply(c, inputs, s, l);
    if l.Work? || l.Send? || l.Leave? {
      HandlersRankUpdate(s.handlers, |inputs|, l.k, t.handlers[l.k]);
    } else if l.Decode? && inputs[s.next].Arrived? {
      HandlersRankUpdate(s.handlers, |inputs|, s.next, Working);
    }
  }

  lemma {:induction false} NoHandlersRank(n: nat)
    ensures HandlersRank(map[], n) == 0
  {
    if n > 0 { NoHandlersRank(n - 1); }
  }

  // What is still possible when Run has returned, or starves: nothing.
  lemma NothingLeftToDo(c: Config, inputs: seq<Decoded>, s: State, l: Label)
    requires Inv(c, inputs, s) && (HasReturned(s) || Starved(inputs, s))
    ensures !Enabled(c, inputs, s, l)
  {
    assert Busy(s.handlers) == {};
    if (l.Work? || l.Send? || l.Leave?) && l.k in s.handlers { assert l.k !in Busy(s.handlers); }
  }

  // Every run over finite input ends: it has at most 5 steps per message and 5 more, and a run
  // that cannot be continued has returned, or waits for input with every handler gone.
  lemma EveryRunEnds(c: Config, inputs: seq<Decoded>, states: seq<State>, labels: seq<Label>)
    requires Run(c, inputs, states, labels)
    ensures |labels| <= 5 * |inputs| + 5
    ensures var last := states[|labels|];
      (forall l :: !Enabled(c, inputs, last, l)) <==> HasReturned(last) || Starved(inputs, last)
  {
    InvIsInductive(c, inputs);
    forall s, l, t | Inv(c, inputs, s) && Next(c, inputs, s, l, t) ensures Rank(inputs, t) < Rank(inputs, s) {
      RankFalls(c, inputs, s, l);
    }
    RankBoundsLength(s => Init(s), (s, l, t) => Next(c, inputs, s, l, t), s => Inv(c, inputs, s),
                     s => Rank(inputs, s), states, labels);
    NoHandlersRank(|inputs|);
    ReachableInv(c, inputs, states, labels, |labels|);
    var last := states[|labels|];
    if HasReturned(last) || Starved(inputs, last) {
      forall l ensures !Enabled(c, inputs, last, l) { NothingLeftToDo(c, inputs, last, l); }
    } else {
      var l := NoDeadlock(c, inputs, last);
    }
  }

  // The messages that the decode loop has taken, and the error that ended it.
  predicate Ends(c: Config, d: Decoded) { d.DecodeError? && EndsLoop(c, d.err) }

  ghost predicate Consumed(c: Config, inputs: seq<Decoded>, s: State) {
    && s.next <= |inputs|
    && (s.loop.Replying? ==> 0 < s.next && s.loop.k == s.next - 1)
    && (forall k :: 0 <= k < s.next - 1 ==> !Ends(c, inputs[k]))
    && (s.loop.Decoding? || s.loop.InCall? ==> 0 < s.next ==> !Ends(c, inputs[s.next - 1]))
    && (s.loop.Deferred? ==> 0 < s.next && Ends(c, inputs[s.next - 1]) && s.loopErr == Some(inputs[s.next - 1].err))
    && forall i :: 0 <= i < |s.log| && s.log[i].Exited? ==>
         s.loop.Deferred? && s.log[i].err == Join([s.loopErr, c.ctxErr, c.closeErr])
  }

  function Payloads(log: seq<Event>): seq<Payload> {
    if log == [] then []
    else Payloads(log[..|log| - 1]) + if log[|log| - 1].Encoded? then [log[|log| - 1].payload] else []
  }

  // The serial reference over the first n messages, in input order.
  function Output(inputs: seq<Decoded>, n: nat): seq<Payload>
    requires n <= |inputs|
  {
    if n == 0 then []
    else Output(inputs, n - 1) + if Reference(inputs[n - 1]).Some? then [Reference(inputs[n - 1]).value] else []
  }

  // Without goroutines, the message taken last may still be unanswered.
  predicate Unanswered(s: State) {
    || s.loop.Replying?
    || (s.loop.InCall? && s.loop.k in s.handlers && (s.handlers[s.loop.k].Working? || s.handlers[s.loop.k].Sending?))
  }

  ghost predicate InOrder(c: Config, inputs: seq<Decoded>, s: State) {
    && s.next <= |inputs|
    && (Unanswered(s) ==> 0 < s.next && s.loop.k == s.next - 1)
    && Payloads(s.log) == Output(inputs, if Unanswered(s) then s.next - 1 else s.next)
  }

  lemma PayloadsGrow(log: seq<Event>, e: Event)
    ensures Payloads(log + [e]) == Payloads(log) + if e.Encoded? then [e.payload] else []
  {
    assert (log + [e])[..|log|] == log;
  }

  lemma ConsumedStep(c: Config, inputs: seq<Decoded>, s: State, l: Label)
    requires Consumed(c, inputs, s) && Tracked(c, inputs, s) && Enabled(c, inputs, s, l)
    ensures Consumed(c, inputs, Apply(c, inputs, s, l))
  {}

  lemma SerialProduces(c: Config, d: Decoded, payload: Option<Payload>)
    requires MayProduce(c, d, payload) && c.serialBatch
    ensures payload == Reference(d)
  {}

  lemma InOrderHandler(c: Config, inputs: seq<Decoded>, s: State, l: Label)
    requires c.noRoutines && c.serialBatch && (l.Work? || l.Send? || l.Leave?)
    requires InOrder(c, inputs, s) && Tracked(c, inputs, s) && Faithful(c, inputs, s) && Enabled(c, inputs, s, l)
    ensures InOrder(c, inputs, Apply(c, inputs, s, l))
  {
    assert l.k in Busy(s.handlers);
    assert s.loop == InCall(l.k);
    match l
    case Work(k, payload) => SerialProduces(c, inputs[k], payload);
    case Send(k) =>
      SerialProduces(c, inputs[k], Some(s.handlers[k].payload));
      PayloadsGrow(s.log, Encoded(k, s.handlers[k].payload));
    case Leave(k) =>
  }

  lemma InOrderDecode(c: Config, inputs: seq<Decoded>, s: State)
    requires c.noRoutines && InOrder(c, inputs, s) && Enabled(c, inputs, s, Decode)
    ensures InOrder(c, inputs, Apply(c, inputs, s, Decode))
  {
    var t, d := Apply(c, inputs, s, Decode), inputs[s.next];
    assert Unanswered(t) <==> d.Arrived? || (d.DecodeError? && IsAnswered(d.err));
    assert !Unanswered(t) ==> Reference(d).None?;
  }

  lemma InOrderReply(c: Config, inputs: seq<Decoded>, s: State)
    requires InOrder(c, inputs, s) && Enabled(c, inputs, s, ReplyToError)
    ensures InOrder(c, inputs, Apply(c, inputs, s, ReplyToError))
  {
    PayloadsGrow(s.log, Encoded(s.loop.k, Reference(inputs[s.loop.k]).value));
  }

  lemma InOrderShutdown(c: Config, inputs: seq<Decoded>, s: State, l: Label)
    requires InOrder(c, inputs, s) && Enabled(c, inputs, s, l)
    requires l.Resume? || l.Await? || l.Stop? || l.Close? || l.OnExit?
    ensures InOrder(c, inputs, Apply(c, inputs, s, l))
  {
    LogGrows(c, inputs, s, l);
    var t := Apply(c, inputs, s, l);
    if |t.log| > |s.log| { PayloadsGrow(s.log, t.log[|s.log|]); }
  }

  lemma InOrderStep(c: Config, inputs: seq<Decoded>, s: State, l: Label)
    requires c.noRoutines && c.serialBatch
    requires InOrder(c, inputs, s) && Tracked(c, inputs, s) && Faithful(c, inputs, s) && Enabled(c, inputs, s, l)
    ensures InOrder(c, inputs, Apply(c, inputs, s, l))
  {
    match l
    case Decode => InOrderDecode(c, inputs, s);
    case ReplyToError => InOrderReply(c, inputs, s);
    case Work(_, _) => InOrderHandler(c, inputs, s, l);
    case Send(_) => InOrderHandler(c, inputs, s, l);
    case Leave(_) => InOrderHandler(c, inputs, s, l);
    case _ => InOrderShutdown(c, inputs, s, l);
  }

  ghost predicate SerialInv(c: Config, inputs: seq<Decoded>, s: State) {
    Inv(c, inputs, s) && Consumed(c, inputs, s) && (c.noRoutines && c.serialBatch ==> InOrder(c, inputs, s))
  }

  lemma SerialIsInductive(c: Config, inputs: seq<Decoded>)
    ensures Inductive(s => Init(s), (s, l, t) => Next(c, inputs, s, l, t), s => SerialInv(c, inputs, s))
  {
    InvIsInductive(c, inputs);
    forall s | Init(s) ensures SerialInv(c, inputs, s) {
      assert Inv(c, inputs, s) by { assert Busy(s.handlers) == {}; }
    }
    forall s, l, t | SerialInv(c, inputs, s) && Next(c, inputs, s, l, t) ensures SerialInv(c, inputs, t) {
      InvStep(c, inputs, s, l, t);
      ConsumedStep(c, inputs, s, l);
      if c.noRoutines && c.serialBatch { InOrderStep(c, inputs, s, l); }
    }
  }

  // The loop took the messages up to the first one that ends it, and reports that one's error;
  // without goroutines it has encoded the serial reference, in input order.
  ghost predicate FinalReport(c: Config, inputs: seq<Decoded>, s: State) {
    && 0 < s.next <= |inputs| && Ends(c, inputs[s.next - 1])
    && (forall k :: 0 <= k < s.next - 1 ==> !Ends(c, inputs[k]))
    && s.log != []
    && s.log[|s.log| - 1] == Exited(Join([Some(inputs[s.next - 1].err), c.ctxErr, c.closeErr]))
    && (c.noRoutines && c.serialBatch ==> Payloads(s.log) == Output(inputs, s.next))
  }

  lemma ReportAtReturn(c: Config, inputs: seq<Decoded>, s: State)
    requires WellOrdered(c, s.log) && Staged(c, s) && Consumed(c, inputs, s)
    requires c.noRoutines && c.serialBatch ==> InOrder(c, inputs, s)
    requires HasReturned(s)
    ensures FinalReport(c, inputs, s)
  {
    assert IsDone(c, s, CallOnExit);
    var i :| 0 <= i < |s.log| && s.log[i].Exited?;
    ExitedIsLast(c, s.log, i);
  }

  lemma EveryReturnReports(c: Config, inputs: seq<Decoded>, states: seq<State>, labels: seq<Label>, at: nat)
    requires Run(c, inputs, states, labels) && at < |states| && HasReturned(states[at])
    ensures FinalReport(c, inputs, states[at])
  {
    SerialIsInductive(c, inputs);
    InvariantHolds(s => Init(s), (s, l, t) => Next(c, inputs, s, l, t), s => SerialInv(c, inputs, s), states, labels);
    assert SerialInv(c, inputs, states[at]);
    ReportAtReturn(c, inputs, states[at]);
  }

  // In every run that has returned: a message is the last one taken exactly when it is a decoding
  // error that is a syntax error on a stream, or neither a syntax error nor a type error.
  lemma LastTakenExactly(c: Config, inputs: seq<Decoded>, states: seq<State>, labels: seq<Label>, at: nat, k: nat)
    requires Run(c, inputs, states, labels) && at < |states| && HasReturned(states[at]) && k < states[at].next
    ensures k < |inputs|
    ensures k == states[at].next - 1 <==>
      && inputs[k].DecodeError?
      && if Is(inputs[k].err, SyntaxError) then c.stream else !Is(inputs[k].err, UnmarshalTypeError)
  {
    EveryReturnReports(c, inputs, states, labels, at);
  }

  // What Run then reports matches a sentinel exactly when that error, the context's or the close's does.
  lemma ReportMatches(
    c: Config, inputs: seq<Decoded>, states: seq<State>, labels: seq<Label>, at: nat, x: Sentinel)
    requires Run(c, inputs, states, labels) && at < |states| && HasReturned(states[at])
    ensures 0 < states[at].next <= |inputs| && inputs[states[at].next - 1].DecodeError?
    ensures states[at].log != [] && states[at].log[|states[at].log| - 1].Exited?
    ensures IsIn(states[at].log[|states[at].log| - 1].err, x) <==>
              Is(inputs[states[at].next - 1].err, x) || IsIn(c.ctxErr, x) || IsIn(c.closeErr, x)
  {
    EveryReturnReports(c, inputs, states, labels, at);
    JoinThreeMatches(Some(inputs[states[at].next - 1].err), c.ctxErr, c.closeErr, x);
  }

  // The same loop run synchronously, as an HTTP request is served.
  method RunSynchronously(c: Config, inputs: seq<Decoded>) returns (sent: seq<Payload>, err: Option<Err>, taken: nat)
    requires c.noRoutines && c.serialBatch
    requires exists k :: 0 <= k < |inputs| && Ends(c, inputs[k])
    ensures 0 < taken <= |inputs| && Ends(c, inputs[taken - 1])
    ensures forall k :: 0 <= k < taken - 1 ==> !Ends(c, inputs[k])
    ensures sent == Output(inputs, taken)
    ensures err == Join([Some(inputs[taken - 1].err), c.ctxErr, c.closeErr])
  {
    sent, taken := [], 0;
    while true
      invariant taken < |inputs| && exists k :: taken <= k < |inputs| && Ends(c, inputs[k])
      invariant forall k :: 0 <= k < taken ==> !Ends(c, inputs[k])
      invariant sent == Output(inputs, taken)
      decreases |inputs| - taken
    {
      var d := inputs[taken];
      taken := taken + 1;
      match d
      case DecodeError(e, text) =>
        if Is(e, SyntaxError) {
          sent := sent + [One(NullIdError(PARSE_ERROR.(data := text)))];
          if c.stream {
            err := Some(e);
            break;
          }
        } else if Is(e, UnmarshalTypeError) {
          sent := sent + [One(NullIdError(INVALID_REQUEST.(data := text)))];
        } else {
          err := Some(e);
          break;
        }
      case EmptyMessage =>
      case Arrived(message) =>
        var payload := Expected(message);
        if payload.Some? {
          sent := sent + [payload.value];
        }
    }
    err := Join([err, c.ctxErr, c.closeErr]);
  }
}

// The goroutines of one batch, seen from Run: what they encode is what Run's machine allows.
module BatchInRun {
  import opened Prelude
  import opened Rpc
  import FanOut
  import RunLoop

  lemma FinishedBatchMayBeProduced(
    c: RunLoop.Config, objs: seq<Element>, states: seq<FanOut.State>, labels: seq<FanOut.Label>)
    requires FanOut.Run(objs, states, labels) && states[|labels|].main.Finished?
    requires |objs| > 1 && !c.serialBatch
    ensures var sent := states[|labels|].sent;
      && |sent| <= 1
      && RunLoop.MayProduce(c, RunLoop.Arrived(Elements(objs)), if sent == [] then None else Some(Many(sent[0])))
  {
    FanOut.ConcurrentRefinesSerial(objs, states, labels, |labels|);
  }
}
