// The idle reaper in real time, interleaved with the pool's users.

module ReaperClock {
  import opened Prelude
  import opened Executions
  import opened ClientPools

  // Ticks fire at most late after they are due, and a pass of the reaper takes at most pass.
  datatype Config = Config(idleTimeout: int, late: nat, pass: nat)

  // Between ticks the timer is armed; during a pass, held is what the reaper has taken and
  // not yet examined.
  datatype Reaper = Waiting(tick: int) | Passing(started: int, held: set<nat>, nextWait: int)

  // lastUsed covers the connections that no user holds. inUse are those that users hold.
  datatype State = State(now: int, start: int, lastUsed: map<nat, int>, inUse: set<nat>, reaper: Reaper)

  datatype Label =
    | Elapse(to: int)
    | Use(r: nat) | Create(r: nat) | Release(r: nat) | Drop(r: nat)
    | Fire | Examine(r: nat) | Rearm

  predicate Init(c: Config, s: State) {
    s == State(s.start, s.start, map[], {}, Waiting(s.start + c.idleTimeout))
  }

  // Time may pass as long as no tick is overdue by more than late and no pass takes too long.
  predicate Patient(c: Config, s: State, to: int) {
    match s.reaper
    case Waiting(tick) => to <= tick + c.late
    case Passing(started, _, _) => to <= started + c.pass
  }

  function Held(s: State): set<nat> { if s.reaper.Passing? then s.reaper.held else {} }

  predicate Enabled(c: Config, s: State, l: Label) {
    match l
    case Elapse(to) => s.now <= to && Patient(c, s, to)
    case Use(r) => r in s.lastUsed && r !in Held(s)
    case Create(r) => r !in s.lastUsed && r !in s.inUse
    case Release(r) => r in s.inUse
    case Drop(r) => r in s.inUse
    case Fire => s.reaper.Waiting? && s.reaper.tick <= s.now
    case Examine(r) => r in Held(s) && r in s.lastUsed
    case Rearm => s.reaper.Passing? && s.reaper.held == {}
  }

  function Apply(c: Config, s: State, l: Label): State
    requires Enabled(c, s, l)
  {
    match l
    case Elapse(to) => s.(now := to)
    case Use(r) => s.(lastUsed := s.lastUsed - {r}, inUse := s.inUse + {r})
    case Create(r) => s.(inUse := s.inUse + {r})
    case Release(r) => s.(lastUsed := s.lastUsed[r := s.now], inUse := s.inUse - {r})
    case Drop(r) => s.(inUse := s.inUse - {r})
    case Fire => s.(reaper := Passing(s.now, s.lastUsed.Keys, c.idleTimeout))
    case Examine(r) =>
      var idleTime := s.now - s.lastUsed[r];
      if Expired(idleTime, c.idleTimeout)
      then s.(lastUsed := s.lastUsed - {r}, reaper := s.reaper.(held := s.reaper.held - {r}))
      else s.(reaper := Passing(s.reaper.started, s.reaper.held - {r},
                                NextWait(s.reaper.nextWait, idleTime, c.idleTimeout)))
    case Rearm => s.(reaper := Waiting(s.now + s.reaper.nextWait))
  }

  predicate Next(c: Config, s: State, l: Label, t: State) { Enabled(c, s, l) && t == Apply(c, s, l) }

  // Whatever instant the reaper works towards, it does not lie beyond anyone's timeout.
  ghost predicate Inv(c: Config, s: State) {
    && c.idleTimeout > 0
    && s.start <= s.now && s.inUse !! s.lastUsed.Keys && Held(s) <= s.lastUsed.Keys
    && (forall r :: r in s.lastUsed ==> s.lastUsed[r] <= s.now)
    && match s.reaper
       case Waiting(tick) =>
         && s.now <= tick + c.late && tick <= s.now + c.idleTimeout
         && forall r :: r in s.lastUsed ==> tick <= s.lastUsed[r] + c.idleTimeout + c.pass
       case Passing(started, held, nextWait) =>
         && started <= s.now <= started + c.pass
         && 0 < nextWait <= c.idleTimeout
         && (forall r :: r in held ==> started <= s.lastUsed[r] + c.idleTimeout + c.pass + c.late)
         && forall r :: r in s.lastUsed && r !in held ==> started + nextWait <= s.lastUsed[r] + c.idleTimeout
  }

  lemma InvStep(c: Config, s: State, l: Label, t: State)
    requires Inv(c, s) && Next(c, s, l, t)
    ensures Inv(c, t)
  {}

  ghost predicate Run(c: Config, states: seq<State>, labels: seq<Label>) {
    IsRun(s => Init(c, s), (s, l, t) => Next(c, s, l, t), states, labels)
  }

  lemma ReachableInv(c: Config, states: seq<State>, labels: seq<Label>, k: nat)
    requires c.idleTimeout > 0 && Run(c, states, labels) && k < |states|
    ensures Inv(c, states[k])
  {
    forall s | Init(c, s) ensures Inv(c, s) {}
    forall s, l, t | Inv(c, s) && Next(c, s, l, t) ensures Inv(c, t) { InvStep(c, s, l, t); }
    InvariantHolds(s => Init(c, s), (s, l, t) => Next(c, s, l, t), s => Inv(c, s), states, labels);
  }

  // At every moment of every run, no connection has been unused for longer than the timeout,
  // the lateness of the ticks and the time of two passes.
  lemma IdleBound(c: Config, states: seq<State>, labels: seq<Label>, k: nat, r: nat)
    requires c.idleTimeout > 0 && Run(c, states, labels) && k < |states|
    requires r in states[k].lastUsed
    ensures states[k].now - states[k].lastUsed[r] <= c.idleTimeout + c.late + 2 * c.pass
  {
    ReachableInv(c, states, labels, k);
    assert Inv(c, states[k]);
  }

  // When a pass takes no time, the timer is never set beyond a connection's timeout.
  lemma InstantPassBound(c: Config, states: seq<State>, labels: seq<Label>, k: nat)
    requires c.idleTimeout > 0 && c.pass == 0 && Run(c, states, labels) && k < |states|
    ensures states[k].reaper.Waiting? ==>
      forall r :: r in states[k].lastUsed ==> states[k].reaper.tick <= states[k].lastUsed[r] + c.idleTimeout
    ensures forall r :: r in states[k].lastUsed ==> states[k].now - states[k].lastUsed[r] <= c.idleTimeout + c.late
  {
    ReachableInv(c, states, labels, k);
    assert Inv(c, states[k]);
  }

  // One step of the reaper leaves those in use alone and resets no idle clock, and takes away
  // only a connection it examines that has been unused for the whole timeout.
  lemma ReaperStep(c: Config, s: State, l: Label, t: State, r: nat)
    requires Next(c, s, l, t) && (l.Fire? || l.Examine? || l.Rearm?)
    ensures t.inUse == s.inUse
    ensures r in t.lastUsed ==> r in s.lastUsed && t.lastUsed[r] == s.lastUsed[r]
    ensures r in s.lastUsed && r !in t.lastUsed ==> l == Examine(r) && s.now - s.lastUsed[r] >= c.idleTimeout
  {}

  // The instant recorded for a connection is that of its last release, and nobody has used it since.
  ghost predicate UnusedSince(states: seq<State>, labels: seq<Label>, k: nat, r: nat, j: nat)
    requires |states| == |labels| + 1
  {
    && j < k <= |labels|
    && labels[j] == Release(r) && states[j].now == states[k].now - IdleTime(states[k], r)
    && forall i :: j < i <= k ==> r in states[i].lastUsed
  }

  function IdleTime(s: State, r: nat): int { if r in s.lastUsed then s.now - s.lastUsed[r] else 0 }

  lemma {:induction false} RecordedIsLastRelease(c: Config, states: seq<State>, labels: seq<Label>, k: nat, r: nat)
    returns (j: nat)
    requires Run(c, states, labels) && k < |states| && r in states[k].lastUsed
    ensures UnusedSince(states, labels, k, r, j)
    decreases k
  {
    assert Next(c, states[k - 1], labels[k - 1], states[k]);
    if labels[k - 1] == Release(r) {
      j := k - 1;
    } else {
      j := RecordedIsLastRelease(c, states, labels, k - 1, r);
    }
  }

  // Over whole runs: a connection that the reaper takes away was released a whole timeout ago
  // or more, and nobody has used it since.
  lemma ReapedOnlyAfterTimeout(c: Config, states: seq<State>, labels: seq<Label>, k: nat, r: nat) returns (j: nat)
    requires Run(c, states, labels) && k < |labels| && !labels[k].Use?
    requires r in states[k].lastUsed && r !in states[k + 1].lastUsed
    ensures labels[k] == Examine(r) && UnusedSince(states, labels, k, r, j)
    ensures states[k].now - states[j].now >= c.idleTimeout
  {
    assert Next(c, states[k], labels[k], states[k + 1]);
    if labels[k].Fire? || labels[k].Examine? || labels[k].Rearm? {
      ReaperStep(c, states[k], labels[k], states[k + 1], r);
    }
    j := RecordedIsLastRelease(c, states, labels, k, r);
  }

  // The bound is attained, whatever the lateness and the time of a pass: a connection released
  // just after a pass has looked waits for that pass to end, a whole timeout, a late tick and
  // the next pass.
  lemma BoundIsTight(c: Config) returns (states: seq<State>, labels: seq<Label>)
    requires c.idleTimeout > 0
    ensures Run(c, states, labels)
    ensures var s := states[|labels|];
      0 in s.lastUsed && s.now - s.lastUsed[0] == c.idleTimeout + c.late + 2 * c.pass
  {
    var T, first, last := c.idleTimeout, c.idleTimeout + c.pass, 2 * c.idleTimeout + c.pass + c.late;
    labels := [
      Create(0), Elapse(T), Fire, Release(0), Elapse(first), Rearm, Elapse(last), Fire, Elapse(last + c.pass)];
    var none: map<nat, int>, idle: map<nat, int> := map[], map[0 := T];
    states := [
      State(0, 0, map[], {}, Waiting(T)),
      State(0, 0, map[], {0}, Waiting(T)),
      State(T, 0, map[], {0}, Waiting(T)),
      State(T, 0, map[], {0}, Passing(T, {}, T)),
      State(T, 0, idle, {}, Passing(T, {}, T)),
      State(first, 0, idle, {}, Passing(T, {}, T)),
      State(first, 0, idle, {}, Waiting(first + T)),
      State(last, 0, idle, {}, Waiting(first + T)),
      State(last, 0, idle, {}, Passing(last, {0}, T)),
      State(last + c.pass, 0, idle, {}, Passing(last, {0}, T))];
    assert none[0 := T] == idle && none.Keys == {} && idle.Keys == {0};
    forall k | 0 <= k < |labels| ensures Next(c, states[k], labels[k], states[k + 1]) {
      assert k == 0 || k == 1 || k == 2 || k == 3 || k == 4 || k == 5 || k == 6 || k == 7 || k == 8;
    }
  }

  // In every run, no connection is ever unused for longer than bound.
  ghost predicate AlwaysWithin(c: Config, bound: int) {
    forall states: seq<State>, labels: seq<Label>, k: nat, r: nat ::
      Run(c, states, labels) && k < |states| && r in states[k].lastUsed ==> IdleTime(states[k], r) <= bound
  }

  // Exactly which bounds hold. In particular the timeout and the lateness bound the idle time
  // if and only if a pass takes no time.
  lemma BoundsExactly(c: Config, bound: int)
    requires c.idleTimeout > 0
    ensures AlwaysWithin(c, bound) <==> c.idleTimeout + c.late + 2 * c.pass <= bound
    ensures AlwaysWithin(c, c.idleTimeout + c.late) <==> c.pass == 0
  {
    forall states: seq<State>, labels: seq<Label>, k: nat, r: nat
      | Run(c, states, labels) && k < |states| && r in states[k].lastUsed
      ensures IdleTime(states[k], r) <= c.idleTimeout + c.late + 2 * c.pass
    {
      IdleBound(c, states, labels, k, r);
    }
    var states, labels := BoundIsTight(c);
    assert IdleTime(states[|labels|], 0) == c.idleTimeout + c.late + 2 * c.pass;
  }
}
