// Why a caller of the pool gets the reply to its own message, although nothing compares IDs:
// exclusive acquisition, encode before decode, and destruction of the connection on any error.

module CrossTalk {
  import opened Prelude
  import opened Executions

  // A connection is held by one attempt, idle in the pool, or gone. The peer answers the calls
  // written to it in order, one reply each, and does not answer notifications: calls lists the
  // attempts whose call was written, replied and read count replies written and taken off.
  datatype Holder = Idle | HeldBy(attempt: nat) | Gone

  datatype Conn = Conn(calls: seq<nat>, replied: nat, read: nat, holder: Holder)

  // One round of a pool operation. answered is the attempt whose call the reply read answers.
  datatype Pc =
    | Start
    | Acquired(conn: nat)
    | Written(conn: nat)
    | Replied(conn: nat, answered: nat)
    | Sent(conn: nat)
    | Broken(conn: nat)
    | Returned(reply: Option<nat>)
    | Failed

  datatype Attempt = Attempt(notify: bool, pc: Pc)

  datatype State = State(conns: seq<Conn>, attempts: seq<Attempt>)

  datatype Label =
    | Begin(notify: bool)
    | AcquireIdle(a: nat, conn: nat) | AcquireNew(a: nat) | AcquireFails(a: nat)
    | ContextDone(a: nat)
    | EncodeOk(a: nat) | EncodeFails(a: nat, written: bool)
    | DecodeOk(a: nat) | DecodeFails(a: nat, consumed: bool) | UnmarshalFails(a: nat)
    | Release(a: nat) | Destroy(a: nat)
    | PeerReplies(conn: nat) | Discard(conn: nat)

  predicate Init(s: State) { s.conns == [] && s.attempts == [] }

  predicate At(s: State, a: nat) { a < |s.attempts| }

  predicate Uses(s: State, a: nat) {
    At(s, a) && HasConn(s.attempts[a].pc) && s.attempts[a].pc.conn < |s.conns|
  }

  predicate HasConn(pc: Pc) { pc.Acquired? || pc.Written? || pc.Replied? || pc.Sent? || pc.Broken? }

  predicate Enabled(s: State, l: Label) {
    match l
    case Begin(_) => true
    case AcquireIdle(a, conn) => At(s, a) && s.attempts[a].pc.Start? && conn < |s.conns| && s.conns[conn].holder.Idle?
    case AcquireNew(a) => At(s, a) && s.attempts[a].pc.Start?
    case AcquireFails(a) => At(s, a) && s.attempts[a].pc.Start?
    case ContextDone(a) => Uses(s, a) && s.attempts[a].pc.Acquired?
    case EncodeOk(a) => Uses(s, a) && s.attempts[a].pc.Acquired?
    case EncodeFails(a, _) => Uses(s, a) && s.attempts[a].pc.Acquired?
    case DecodeOk(a) =>
      Uses(s, a) && s.attempts[a].pc.Written? && var c := s.conns[s.attempts[a].pc.conn];
      c.read < c.replied && c.read < |c.calls|
    case DecodeFails(a, consumed) =>
      Uses(s, a) && s.attempts[a].pc.Written? && var c := s.conns[s.attempts[a].pc.conn];
      consumed ==> c.read < c.replied
    case UnmarshalFails(a) => Uses(s, a) && s.attempts[a].pc.Replied?
    case Release(a) => Uses(s, a) && (s.attempts[a].pc.Replied? || s.attempts[a].pc.Sent?)
    case Destroy(a) => Uses(s, a) && s.attempts[a].pc.Broken?
    case PeerReplies(conn) => conn < |s.conns| && s.conns[conn].replied < |s.conns[conn].calls|
    // the reaper, Close and Reset take idle connections away
    case Discard(conn) => conn < |s.conns| && s.conns[conn].holder.Idle?
  }

  function Goto(s: State, a: nat, pc: Pc): State
    requires At(s, a)
  {
    s.(attempts := s.attempts[a := s.attempts[a].(pc := pc)])
  }

  function SetConn(s: State, i: nat, c: Conn): State
    requires i < |s.conns|
  {
    s.(conns := s.conns[i := c])
  }

  // The call of attempt a reaches the peer; a notification leaves nothing to answer.
  function WithCall(c: Conn, a: nat, notify: bool): Conn {
    if notify then c else c.(calls := c.calls + [a])
  }

  function Apply(s: State, l: Label): State
    requires Enabled(s, l)
  {
    match l
    case Begin(notify) => s.(attempts := s.attempts + [Attempt(notify, Start)])
    case AcquireIdle(a, conn) =>
      Goto(SetConn(s, conn, s.conns[conn].(holder := HeldBy(a))), a, Acquired(conn))
    case AcquireNew(a) =>
      Goto(s.(conns := s.conns + [Conn([], 0, 0, HeldBy(a))]), a, Acquired(|s.conns|))
    case AcquireFails(a) => Goto(s, a, Failed)
    case ContextDone(a) => Goto(s, a, Broken(s.attempts[a].pc.conn))
    case EncodeOk(a) =>
      var i, notify := s.attempts[a].pc.conn, s.attempts[a].notify;
      Goto(SetConn(s, i, WithCall(s.conns[i], a, notify)), a, if notify then Sent(i) else Written(i))
    case EncodeFails(a, written) =>
      var i, notify := s.attempts[a].pc.conn, s.attempts[a].notify;
      Goto(if written then SetConn(s, i, WithCall(s.conns[i], a, notify)) else s, a, Broken(i))
    case DecodeOk(a) =>
      var i := s.attempts[a].pc.conn;
      var c := s.conns[i];
      Goto(SetConn(s, i, c.(read := c.read + 1)), a, Replied(i, c.calls[c.read]))
    case DecodeFails(a, consumed) =>
      var i := s.attempts[a].pc.conn;
      var c := s.conns[i];
      Goto(if consumed then SetConn(s, i, c.(read := c.read + 1)) else s, a, Broken(i))
    case UnmarshalFails(a) => Goto(s, a, Broken(s.attempts[a].pc.conn))
    case Release(a) =>
      var pc := s.attempts[a].pc;
      Goto(SetConn(s, pc.conn, s.conns[pc.conn].(holder := Idle)), a,
           Returned(if pc.Replied? then Some(pc.answered) else None))
    case Destroy(a) =>
      var i := s.attempts[a].pc.conn;
      Goto(SetConn(s, i, s.conns[i].(holder := Gone)), a, Failed)
    case PeerReplies(i) => SetConn(s, i, s.conns[i].(replied := s.conns[i].replied + 1))
    case Discard(i) => SetConn(s, i, s.conns[i].(holder := Gone))
  }

  predicate Next(s: State, l: Label, t: State) { Enabled(s, l) && t == Apply(s, l) }

  // Nothing the peer owes or has sent is outstanding.
  predicate Settled(c: Conn) { c.read == c.replied == |c.calls| }

  // What an attempt may rely on about the connection it holds.
  predicate Consistent(c: Conn, a: nat, pc: Pc) {
    match pc
    case Acquired(_) => Settled(c)
    case Sent(_) => Settled(c)
    case Written(_) => c.read == |c.calls| - 1 && c.read <= c.replied <= |c.calls| && c.calls[c.read] == a
    case Replied(_, answered) => Settled(c) && answered == a
    case _ => true
  }

  // An attempt under way has its connection to itself and in the state it relies on.
  predicate Holds(s: State, a: nat) {
    At(s, a) && HasConn(s.attempts[a].pc) ==>
      && s.attempts[a].pc.conn < |s.conns|
      && s.conns[s.attempts[a].pc.conn].holder == HeldBy(a)
      && Consistent(s.conns[s.attempts[a].pc.conn], a, s.attempts[a].pc)
  }

  // Only calls wait for replies, and a call returns the reply to itself.
  predicate FitsKind(s: State, a: nat) {
    At(s, a) ==>
      && (s.attempts[a].notify ==> !s.attempts[a].pc.Written? && !s.attempts[a].pc.Replied?)
      && (!s.attempts[a].notify ==> !s.attempts[a].pc.Sent?)
      && (s.attempts[a].pc.Returned? ==> s.attempts[a].pc.reply == if s.attempts[a].notify then None else Some(a))
  }

  ghost predicate AttemptsInv(s: State) {
    forall a: nat :: Holds(s, a) && FitsKind(s, a)
  }

  // Attempt a is under way on connection i.
  predicate IsUsedBy(s: State, i: nat, a: nat) {
    At(s, a) && HasConn(s.attempts[a].pc) && s.attempts[a].pc.conn == i
  }

  ghost predicate ConnsInv(s: State) {
    forall i: nat :: i < |s.conns| ==>
      && s.conns[i].replied <= |s.conns[i].calls|
      && (s.conns[i].holder.Idle? ==> Settled(s.conns[i]))
      && (s.conns[i].holder.HeldBy? ==> IsUsedBy(s, i, s.conns[i].holder.attempt))
  }

  ghost predicate Inv(s: State) { AttemptsInv(s) && ConnsInv(s) }

  function Mover(l: Label): Option<nat> {
    if l.Begin? || l.PeerReplies? || l.Discard? then None else Some(l.a)
  }

  lemma MoverHolds(s: State, l: Label)
    requires Enabled(s, l) && ConnsInv(s) && Mover(l).Some? && Holds(s, Mover(l).value)
    ensures Holds(Apply(s, l), Mover(l).value)
  {}

  lemma OthersHold(s: State, l: Label, a: nat)
    requires Enabled(s, l) && ConnsInv(s) && Holds(s, a) && Mover(l) != Some(a)
    requires Mover(l).Some? ==> Holds(s, Mover(l).value)
    ensures Holds(Apply(s, l), a)
  {}

  lemma HoldsStep(s: State, l: Label, a: nat)
    requires Enabled(s, l) && ConnsInv(s) && Holds(s, a)
    requires Mover(l).Some? ==> Holds(s, Mover(l).value)
    ensures Holds(Apply(s, l), a)
  {
    if Mover(l) == Some(a) { MoverHolds(s, l); } else { OthersHold(s, l, a); }
  }

  lemma FitsKindStep(s: State, l: Label, a: nat)
    requires Enabled(s, l) && FitsKind(s, a) && Holds(s, a)
    ensures FitsKind(Apply(s, l), a)
  {}

  lemma AttemptsStep(s: State, l: Label)
    requires Inv(s) && Enabled(s, l)
    ensures AttemptsInv(Apply(s, l))
  {
    forall a: nat ensures Holds(Apply(s, l), a) && FitsKind(Apply(s, l), a) {
      assert Holds(s, a) && FitsKind(s, a);
      if Mover(l).Some? { assert Holds(s, Mover(l).value); }
      HoldsStep(s, l, a);
      FitsKindStep(s, l, a);
    }
  }

  lemma ConnsStep(s: State, l: Label)
    requires Inv(s) && Enabled(s, l)
    ensures ConnsInv(Apply(s, l))
  {
    if Mover(l).Some? { assert Holds(s, Mover(l).value); }
  }

  ghost predicate Run(states: seq<State>, labels: seq<Label>) {
    IsRun(s => Init(s), (s, l, t) => Next(s, l, t), states, labels)
  }

  lemma ReachableInv(states: seq<State>, labels: seq<Label>, k: nat)
    requires Run(states, labels) && k < |states|
    ensures Inv(states[k])
  {
    forall s | Init(s) ensures Inv(s) {}
    forall s, l, t | Inv(s) && Next(s, l, t) ensures Inv(t) {
      AttemptsStep(s, l);
      ConnsStep(s, l);
    }
    InvariantHolds(s => Init(s), (s, l, t) => Next(s, l, t), s => Inv(s), states, labels);
  }

  // Whatever the callers, the peer, timeouts and errors do, a call that returns a response
  // returns the reply to its own message, and no idle connection has a reply outstanding.
  lemma NoCrossTalk(states: seq<State>, labels: seq<Label>, k: nat)
    requires Run(states, labels) && k < |states|
    ensures forall a: nat :: At(states[k], a) && states[k].attempts[a].pc.Returned? ==>
      states[k].attempts[a].pc.reply == if states[k].attempts[a].notify then None else Some(a)
    ensures forall i: nat :: i < |states[k].conns| && states[k].conns[i].holder.Idle? ==> Settled(states[k].conns[i])
  {
    ReachableInv(states, labels, k);
    assert forall a: nat :: At(states[k], a) ==> FitsKind(states[k], a);
  }

  // No attempt is stuck: it, or the peer on its connection, can take a step, and no error is needed.
  lemma AttemptProceeds(s: State, a: nat) returns (l: Label)
    requires Inv(s) && At(s, a) && !s.attempts[a].pc.Returned? && !s.attempts[a].pc.Failed?
    ensures Enabled(s, l)
    ensures l.PeerReplies? || l in {AcquireNew(a), EncodeOk(a), DecodeOk(a), Release(a), Destroy(a)}
    ensures l.PeerReplies? ==> Uses(s, a) && l.conn == s.attempts[a].pc.conn
    ensures l.Destroy? ==> s.attempts[a].pc.Broken?
  {
    assert Holds(s, a);
    l := match s.attempts[a].pc
      case Start => AcquireNew(a)
      case Acquired(_) => EncodeOk(a)
      case Written(conn) => if s.conns[conn].read < s.conns[conn].replied then DecodeOk(a) else PeerReplies(conn)
      case Broken(_) => Destroy(a)
      case _ => Release(a);
  }

  // No connection is leaked: at every moment each is idle, gone or in use by an attempt under way.
  lemma NoConnectionLeaks(states: seq<State>, labels: seq<Label>, k: nat, i: nat)
    requires Run(states, labels) && k < |states| && i < |states[k].conns|
    ensures var holder := states[k].conns[i].holder;
      holder.Idle? || holder.Gone? || IsUsedBy(states[k], i, holder.attempt)
  {
    ReachableInv(states, labels, k);
  }

  // Something goes wrong in attempt a: its context is done, or it fails to encode, decode or unmarshal.
  predicate GoesWrong(l: Label, a: nat) {
    l == ContextDone(a) || (l.EncodeFails? && l.a == a) || (l.DecodeFails? && l.a == a) || l == UnmarshalFails(a)
  }

  // Attempt a returns nothing any more, and connection i is its own until destroyed.
  predicate Doomed(s: State, a: nat, i: nat) {
    && At(s, a) && i < |s.conns|
    && ((s.attempts[a].pc == Broken(i) && s.conns[i].holder == HeldBy(a))
        || (s.attempts[a].pc.Failed? && s.conns[i].holder.Gone?))
  }

  lemma DoomStarts(s: State, l: Label, a: nat)
    requires Enabled(s, l) && GoesWrong(l, a) && Holds(s, a)
    ensures Uses(s, a) && Doomed(Apply(s, l), a, s.attempts[a].pc.conn)
  {}

  lemma DoomStays(s: State, l: Label, a: nat, i: nat)
    requires Enabled(s, l) && Doomed(s, a, i) && (Mover(l).Some? ==> Holds(s, Mover(l).value))
    ensures Doomed(Apply(s, l), a, i)
  {}

  // An error in an attempt destroys its connection, whatever else happens, and nothing is returned.
  lemma {:induction false} ErrorMeansDestroyed(states: seq<State>, labels: seq<Label>, k: nat, j: nat, a: nat)
    requires Run(states, labels) && k < j < |states| && GoesWrong(labels[k], a)
    ensures Uses(states[k], a) && Doomed(states[j], a, states[k].attempts[a].pc.conn)
    decreases j
  {
    ReachableInv(states, labels, j - 1);
    var s, l := states[j - 1], labels[j - 1];
    assert Next(s, l, states[j]);
    if j - 1 == k {
      assert Holds(s, a);
      DoomStarts(s, l, a);
    } else {
      ErrorMeansDestroyed(states, labels, k, j - 1, a);
      if Mover(l).Some? { assert Holds(s, Mover(l).value); }
      DoomStays(s, l, a, states[k].attempts[a].pc.conn);
    }
  }

  // No connection is ever used by two attempts at once.
  lemma ExclusiveUse(states: seq<State>, labels: seq<Label>, k: nat, a: nat, b: nat)
    requires Run(states, labels) && k < |states|
    requires Uses(states[k], a) && Uses(states[k], b) && states[k].attempts[a].pc.conn == states[k].attempts[b].pc.conn
    ensures a == b
  {
    ReachableInv(states, labels, k);
    assert Holds(states[k], a) && Holds(states[k], b);
  }

  // A connection that broke in someone's hands can only be destroyed, and once gone it is gone.
  lemma BrokenIsNeverReused(states: seq<State>, labels: seq<Label>, k: nat, i: nat)
    requires Run(states, labels) && k < |labels| && i < |states[k].conns|
    ensures states[k].conns[i].holder.Gone? ==> states[k + 1].conns[i].holder.Gone?
    ensures forall a: nat :: Uses(states[k], a) && states[k].attempts[a].pc == Broken(i) ==>
      || states[k + 1].conns[i].holder.Gone?
      || (Uses(states[k + 1], a) && states[k + 1].attempts[a].pc == Broken(i)
          && states[k + 1].conns[i].holder == HeldBy(a))
  {
    ReachableInv(states, labels, k);
    var s, l := states[k], labels[k];
    assert Next(s, l, states[k + 1]);
    if Mover(l).Some? { assert Holds(s, Mover(l).value); }
    forall a: nat | Uses(s, a) && s.attempts[a].pc == Broken(i)
      ensures s.conns[i].holder == HeldBy(a)
    {
      assert Holds(s, a);
    }
  }
}
