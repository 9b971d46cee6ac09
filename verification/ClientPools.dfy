// The client's connection pool: the assumed contract of the resource pool beneath it, the
// retry loop shared by the six operations, and the idle reaper.

module ResourcePool {
  import opened Prelude
  import opened Errors

  datatype Event = Took(r: nat) | Released(r: nat) | ReleasedUnused(r: nat) | Destroyed(r: nat)

  // What is assumed of the pool library: resources are idle or acquired, and only an acquired
  // one may be released or destroyed. Resources are numbered in order of creation.
  class Pool {
    var lastUsed: map<nat, int> // of every live resource
    var idle: set<nat>
    var acquired: set<nat>
    var created: nat
    var closed: bool
    ghost var closeCalls: nat
    ghost var log: seq<Event> // the calls made on resources

    ghost predicate Valid()
      reads this
    {
      && idle !! acquired
      && lastUsed.Keys == idle + acquired
      && (forall r :: r in lastUsed ==> r < created)
      && (closed ==> idle == {})
    }

    constructor ()
      ensures Valid() && idle == {} && acquired == {} && log == [] && !closed && closeCalls == 0
    {
      lastUsed, idle, acquired, created, closed := map[], {}, {}, 0, false;
      closeCalls, log := 0, [];
    }

    // failure covers the context, the dialer and the wait for a free slot.
    method Acquire(failure: Option<Err>, now: int) returns (res: Option<nat>, err: Option<Err>)
      requires Valid()
      modifies this
      ensures Valid() && closed == old(closed) && closeCalls == old(closeCalls)
      ensures err == if old(closed) then Some(Leaf(PoolClosed)) else failure
      ensures res.Some? <==> err.None?
      ensures res.None? ==> log == old(log) && acquired == old(acquired) && idle == old(idle)
      ensures res.Some? ==>
        && res.value !in old(acquired) && acquired == old(acquired) + {res.value}
        && idle == old(idle) - {res.value} && log == old(log) + [Took(res.value)]
    {
      if closed {
        return None, Some(Leaf(PoolClosed));
      }
      if failure.Some? {
        return None, failure;
      }
      var r := created;
      if idle == {} {
        lastUsed := lastUsed[r := now];
        created := created + 1;
      } else {
        r :| r in idle;
        idle := idle - {r};
      }
      acquired := acquired + {r};
      log := log + [Took(r)];
      return Some(r), None;
    }

    method AcquireAllIdle() returns (taken: seq<nat>)
      requires Valid()
      modifies this
      ensures Valid() && closed == old(closed) && closeCalls == old(closeCalls)
      ensures idle == {} && acquired == old(acquired) + old(idle) && lastUsed == old(lastUsed)
      ensures Members(taken) == old(idle)
      ensures forall i, j :: 0 <= i < j < |taken| ==> taken[i] != taken[j]
      ensures log == old(log) + Takes(taken)
    {
      taken := [];
      assert log == log + Takes(taken);
      while idle != {}
        invariant Valid() && closed == old(closed) && closeCalls == old(closeCalls)
        invariant idle <= old(idle) && Members(taken) == old(idle) - idle
        invariant acquired == old(acquired) + (old(idle) - idle) && lastUsed == old(lastUsed)
        invariant forall i, j :: 0 <= i < j < |taken| ==> taken[i] != taken[j]
        invariant log == old(log) + Takes(taken)
        decreases idle
      {
        var r :| r in idle;
        idle := idle - {r};
        acquired := acquired + {r};
        log := log + [Took(r)];
        MembersGrow(taken, r);
        taken := taken + [r];
      }
    }

    method Release(r: nat, now: int)
      requires Valid() && r in acquired
      modifies this
      ensures Valid() && closed == old(closed) && closeCalls == old(closeCalls)
      ensures acquired == old(acquired) - {r} && log == old(log) + [Released(r)]
      ensures idle == if closed then old(idle) else old(idle) + {r}
      ensures lastUsed == if closed then old(lastUsed) - {r} else old(lastUsed)[r := now]
    {
      Return(r, now);
      log := log + [Released(r)];
    }

    method ReleaseUnused(r: nat)
      requires Valid() && r in acquired
      modifies this
      ensures Valid() && closed == old(closed) && closeCalls == old(closeCalls)
      ensures acquired == old(acquired) - {r} && log == old(log) + [ReleasedUnused(r)]
      ensures idle == if closed then old(idle) else old(idle) + {r}
      ensures lastUsed == if closed then old(lastUsed) - {r} else old(lastUsed)
    {
      Return(r, lastUsed[r]);
      log := log + [ReleasedUnused(r)];
    }

    method Return(r: nat, used: int)
      requires Valid() && r in acquired
      modifies this
      ensures Valid() && closed == old(closed) && closeCalls == old(closeCalls) && log == old(log)
      ensures acquired == old(acquired) - {r}
      ensures idle == if closed then old(idle) else old(idle) + {r}
      ensures lastUsed == if closed then old(lastUsed) - {r} else old(lastUsed)[r := used]
    {
      acquired := acquired - {r};
      if closed {
        lastUsed := lastUsed - {r};
      } else {
        lastUsed := lastUsed[r := used];
        idle := idle + {r};
      }
    }

    method Destroy(r: nat)
      requires Valid() && r in acquired
      modifies this
      ensures Valid() && closed == old(closed) && closeCalls == old(closeCalls)
      ensures acquired == old(acquired) - {r} && idle == old(idle)
      ensures lastUsed == old(lastUsed) - {r} && log == old(log) + [Destroyed(r)]
    {
      acquired := acquired - {r};
      lastUsed := lastUsed - {r};
      log := log + [Destroyed(r)];
    }

    method Close()
      requires Valid()
      modifies this
      ensures Valid() && closed && idle == {} && acquired == old(acquired) && log == old(log)
      ensures closeCalls == old(closeCalls) + 1
    {
      closeCalls := closeCalls + 1;
      closed := true;
      lastUsed := lastUsed - idle;
      idle := {};
    }
  }

  ghost function Takes(rs: seq<nat>): seq<Event> { seq(|rs|, i requires 0 <= i < |rs| => Took(rs[i])) }
}

module Retries {
  import opened Prelude
  import opened Errors

  datatype Outcome<+R> = Success(resp: R) | Failure(err: Err)

  // What the environment answers in one round of the loop.
  datatype Attempt<+R> = Attempt(ctxErr: Option<Err>, acquireErr: Option<Err>, outcome: Outcome<R>, now: int)

  predicate IsContextError(e: Err) { Is(e, Canceled) || Is(e, DeadlineExceeded) }

  // releaseMaybeRetry's verdict on an error.
  predicate Retryable(e: Err) {
    if IsContextError(e) then false
    else Is(e, Eof) || Is(e, UnexpectedEof) || Is(e, NetClosed) || Is(e, OsClosed)
  }

  // Exactly what is retried: an error in whose tree no context error occurs, but an end of file or
  // a closed connection does.
  lemma RetryableExactly(e: Err)
    ensures Retryable(e) <==>
      && !Within(Leaf(Canceled), e) && !Within(Leaf(DeadlineExceeded), e)
      && (Within(Leaf(Eof), e) || Within(Leaf(UnexpectedEof), e)
          || Within(Leaf(NetClosed), e) || Within(Leaf(OsClosed), e))
  {
    IsExactly(e, Canceled);
    IsExactly(e, DeadlineExceeded);
    IsExactly(e, Eof);
    IsExactly(e, UnexpectedEof);
    IsExactly(e, NetClosed);
    IsExactly(e, OsClosed);
  }

  // The round reaches the server and fails in a way that calls for another round.
  predicate AsksForRetry<R>(a: Attempt<R>) {
    a.ctxErr.None? && a.acquireErr.None? && a.outcome.Failure? && Retryable(a.outcome.err)
  }

  // The error join that ends a decode or encode whose context is done, wherever it occurs in
  // the error reported, rules out another round, whatever else the error contains.
  lemma CancelledIsNotRetryable(e: Err, ioErr: Err, ctxErr: Err)
    requires IsContextError(ctxErr) && Within(Joined([ioErr, ctxErr]), e)
    ensures !Retryable(e)
  {
    var joined := Joined([ioErr, ctxErr]);
    var s := if Is(ctxErr, Canceled) then Canceled else DeadlineExceeded;
    assert Is(joined.errs[1], s);
    IsFromWithin(joined, e, s);
  }

  // The first round from k on that does not ask for another, or limit.
  function StopsAt<R>(limit: nat, env: nat -> Attempt<R>, k: nat): (n: nat)
    requires k <= limit
    ensures k <= n <= limit
    ensures forall i: nat :: k <= i < n ==> AsksForRetry(env(i))
    ensures n < limit ==> !AsksForRetry(env(n))
    decreases limit - k
  {
    if k < limit && AsksForRetry(env(k)) then StopsAt(limit, env, k + 1) else k
  }

  datatype Report<+R> = Report(resp: Option<R>, err: Option<Err>)

  // What a round that asks for no other reports.
  function Verdict<R>(a: Attempt<R>): Report<R> {
    if a.ctxErr.Some? then Report(None, a.ctxErr)
    else if a.acquireErr.Some? then Report(None, a.acquireErr)
    else match a.outcome
      case Success(resp) => Report(Some(resp), None)
      case Failure(err) => Report(None, Some(err))
  }

  // A closed resource pool refuses every acquisition.
  function WhenClosed<R>(env: nat -> Attempt<R>, closed: bool): nat -> Attempt<R> {
    if closed then (i: nat) => env(i).(acquireErr := Some(Leaf(PoolClosed))) else env
  }

  predicate Acquires<R>(a: Attempt<R>) { a.ctxErr.None? && a.acquireErr.None? }

  // Connections taken by the whole operation: one for each round that got that far.
  function Connections<R>(limit: nat, env: nat -> Attempt<R>): nat {
    var n := StopsAt(limit, env, 0);
    if n < limit && Acquires(env(n)) then n + 1 else n
  }

  function Expected<R>(limit: nat, env: nat -> Attempt<R>): Report<R> {
    var n := StopsAt(limit, env, 0);
    if n < limit then Verdict(env(n))
    else
      var last := if limit == 0 then None else Some(env(limit - 1).outcome.err);
      Report(None, Join([Some(Leaf(RetriesExceeded)), last]))
  }

  // The first n rounds all ask for another.
  ghost predicate AllAsked<R>(env: nat -> Attempt<R>, n: nat) {
    forall i: nat :: i < n ==> AsksForRetry(env(i))
  }

  datatype Result<+R> = Result(report: Report<R>, connections: nat)

  // The loop from round k on, when the round before failed with last.
  function RunFrom<R>(limit: nat, env: nat -> Attempt<R>, k: nat, last: Option<Err>): Result<R>
    requires k <= limit
    decreases limit - k
  {
    if k == limit then Result(Report(None, Join([Some(Leaf(RetriesExceeded)), last])), k)
    else if AsksForRetry(env(k)) then RunFrom(limit, env, k + 1, Some(env(k).outcome.err))
    else Result(Verdict(env(k)), if Acquires(env(k)) then k + 1 else k)
  }

  lemma {:induction false} LoopIsExpected<R>(limit: nat, env: nat -> Attempt<R>, k: nat, last: Option<Err>)
    requires k <= limit && AllAsked(env, k)
    requires last == if k == 0 then None else Some(env(k - 1).outcome.err)
    ensures RunFrom(limit, env, k, last) == Result(Expected(limit, env), Connections(limit, env))
    decreases limit - k
  {
    if k < limit && AsksForRetry(env(k)) {
      LoopIsExpected(limit, env, k + 1, Some(env(k).outcome.err));
    } else {
      assert StopsAt(limit, env, 0) == k;
    }
  }

  // No error of the environment already says that retries were exceeded.
  ghost predicate NoForeignExhaustion<R>(limit: nat, env: nat -> Attempt<R>) {
    forall i: nat :: i < limit ==>
      && !IsIn(env(i).ctxErr, RetriesExceeded) && !IsIn(env(i).acquireErr, RetriesExceeded)
      && (env(i).outcome.Failure? ==> !Is(env(i).outcome.err, RetriesExceeded))
  }

  // The operation reports ErrRetriesExceeded exactly when every allowed round asked for another,
  // and then the last error is joined to it.
  lemma ExhaustedExactly<R>(limit: nat, env: nat -> Attempt<R>)
    requires limit > 0 && NoForeignExhaustion(limit, env)
    ensures Connections(limit, env) <= limit
    ensures IsIn(Expected(limit, env).err, RetriesExceeded) <==> AllAsked(env, limit)
    ensures AllAsked(env, limit) ==>
      forall s :: Is(env(limit - 1).outcome.err, s) ==> IsIn(Expected(limit, env).err, s)
  {
    var n := StopsAt(limit, env, 0);
    if n == limit {
      var parts := [Some(Leaf(RetriesExceeded)), Some(env(limit - 1).outcome.err)];
      JoinMatches(parts, RetriesExceeded);
      assert IsIn(parts[0], RetriesExceeded);
      forall s | Is(env(limit - 1).outcome.err, s) ensures IsIn(Expected(limit, env).err, s) {
        JoinMatches(parts, s);
        assert IsIn(parts[1], s);
      }
    }
  }

  // The response returned is that of the last round made, and every earlier round failed.
  lemma SucceedsExactly<R>(limit: nat, env: nat -> Attempt<R>, resp: R)
    ensures Expected(limit, env) == Report(Some(resp), None) <==>
      exists n: nat :: n < limit && Acquires(env(n)) && env(n).outcome == Success(resp)
        && AllAsked(env, n)
  {
    var n := StopsAt(limit, env, 0);
    if exists m: nat :: m < limit && Acquires(env(m)) && env(m).outcome == Success(resp)
        && AllAsked(env, m) {
      var m: nat :| m < limit && Acquires(env(m)) && env(m).outcome == Success(resp)
        && AllAsked(env, m);
      assert n == m;
    }
    if n == limit && limit > 0 {
      assert AsksForRetry(env(limit - 1));
    }
  }

  // Round a got a connection, and that broke without the context being done.
  predicate Broke<R>(a: Attempt<R>) {
    && a.ctxErr.None? && a.acquireErr.None? && a.outcome.Failure?
    && var e := a.outcome.err;
       && !Within(Leaf(Canceled), e) && !Within(Leaf(DeadlineExceeded), e)
       && (Within(Leaf(Eof), e) || Within(Leaf(UnexpectedEof), e)
           || Within(Leaf(NetClosed), e) || Within(Leaf(OsClosed), e))
  }

  // What round a alone decides.
  ghost predicate Decides<R>(a: Attempt<R>, report: Report<R>) {
    && (a.ctxErr.Some? ==> report == Report(None, a.ctxErr))
    && (a.ctxErr.None? && a.acquireErr.Some? ==> report == Report(None, a.acquireErr))
    && (a.ctxErr.None? && a.acquireErr.None? && a.outcome.Success? ==> report == Report(Some(a.outcome.resp), None))
    && (a.ctxErr.None? && a.acquireErr.None? && a.outcome.Failure? ==> report == Report(None, Some(a.outcome.err)))
  }

  // What the operation does, round by round: it goes on while the connection breaks, and the
  // first other round decides; if all allowed rounds break, it reports that and the last error.
  lemma OperationExactly<R>(limit: nat, env: nat -> Attempt<R>) returns (n: nat)
    ensures n <= limit && (forall i: nat :: i < n ==> Broke(env(i)))
    ensures n < limit ==>
      && !Broke(env(n)) && Decides(env(n), Expected(limit, env))
      && Connections(limit, env) == if env(n).ctxErr.None? && env(n).acquireErr.None? then n + 1 else n
    ensures n == limit ==> Expected(limit, env).resp.None? && Connections(limit, env) == limit
    ensures n == limit > 0 ==> forall s ::
      IsIn(Expected(limit, env).err, s) <==> s == RetriesExceeded || Is(env(limit - 1).outcome.err, s)
  {
    n := StopsAt(limit, env, 0);
    forall i: nat | i <= n ensures AsksForRetry(env(i)) <==> Broke(env(i)) {
      if env(i).outcome.Failure? { RetryableExactly(env(i).outcome.err); }
    }
    if n == limit > 0 {
      forall s
        ensures IsIn(Expected(limit, env).err, s) <==> s == RetriesExceeded || Is(env(limit - 1).outcome.err, s) {
        JoinTwoMatches(Some(Leaf(RetriesExceeded)), Some(env(limit - 1).outcome.err), s);
      }
    }
  }

  // A round whose context was done when its error was joined is the last one.
  lemma CancelledRoundIsLast<R>(limit: nat, env: nat -> Attempt<R>, k: nat, ioErr: Err, ctxErr: Err)
    requires k < limit && env(k).outcome.Failure?
    requires IsContextError(ctxErr) && Within(Joined([ioErr, ctxErr]), env(k).outcome.err)
    ensures StopsAt(limit, env, 0) <= k && Connections(limit, env) <= k + 1
    ensures StopsAt(limit, env, 0) == k && Acquires(env(k)) ==>
      Expected(limit, env) == Report(None, Some(env(k).outcome.err))
  {
    CancelledIsNotRetryable(env(k).outcome.err, ioErr, ctxErr);
    assert !AsksForRetry(env(k));
  }
}

module ClientPools {
  import opened Prelude
  import opened Errors
  import opened ResourcePool
  import opened Retries

  const SECOND: int := 1_000_000_000
  const DEFAULT_IDLE_TIMEOUT: int := 300 * SECOND

  datatype Timer = NoTimer | Armed(wait: int) | Idle

  // One resource's verdict in a reaper pass, and how it shortens the wait for the next.
  predicate Expired(idleTime: int, idleTimeout: int) { idleTime >= idleTimeout }

  function NextWait(soFar: int, idleTime: int, idleTimeout: int): int {
    Min(soFar, idleTimeout - idleTime)
  }

  // What happens to a connection after its round.
  function Disposal<R>(o: Retries.Outcome<R>, r: nat): ResourcePool.Event {
    if o.Success? then Released(r) else Destroyed(r)
  }

  // The calls on the pool when round k used connection rs[k]: each is taken and at once
  // disposed of, exactly once.
  ghost function Rounds<R>(env: nat -> Attempt<R>, rs: seq<nat>): seq<ResourcePool.Event> {
    if rs == [] then []
    else
      var k := |rs| - 1;
      Rounds(env, rs[..k]) + [Took(rs[k]), Disposal(env(k).outcome, rs[k])]
  }

  lemma RoundsGrow<R>(env: nat -> Attempt<R>, rs: seq<nat>, r: nat)
    ensures Rounds(env, rs + [r]) == Rounds(env, rs) + [Took(r), Disposal(env(|rs|).outcome, r)]
  {
    assert (rs + [r])[..|rs|] == rs;
  }

  // Every connection used is taken and at once disposed of: given back if its round succeeded,
  // otherwise destroyed.
  lemma {:induction false} RoundsExactly<R>(env: nat -> Attempt<R>, rs: seq<nat>)
    ensures |Rounds(env, rs)| == 2 * |rs|
    ensures forall k: nat :: k < |rs| ==>
      && Rounds(env, rs)[2 * k] == Took(rs[k])
      && Rounds(env, rs)[2 * k + 1] == if env(k).outcome.Success? then Released(rs[k]) else Destroyed(rs[k])
  {
    if rs != [] {
      var n := |rs| - 1;
      RoundsExactly(env, rs[..n]);
      forall k: nat | k < n ensures rs[..n][k] == rs[k] {}
    }
  }

  class ClientPool {
    const pool: Pool
    const retries: nat // rounds allowed: the first and its retries
    const idleTimeout: int
    var closed: bool
    var idle: Timer

    ghost predicate Valid()
      reads this, pool
    {
      && pool.Valid()
      && retries >= 2
      && (pool.closed ==> closed)
      && (closed ==> !idle.Armed?)
      && (idle.Armed? ==> 0 < idle.wait <= idleTimeout)
    }

    constructor (pool: Pool, retriesWanted: int, timeout: int)
      requires pool.Valid() && !pool.closed
      ensures Valid() && this.pool == pool && !closed
      ensures retries == Max(retriesWanted, 1) + 1
      ensures idleTimeout == if timeout == 0 then DEFAULT_IDLE_TIMEOUT else timeout
      ensures idle == if idleTimeout > 0 then Armed(idleTimeout) else NoTimer
    {
      this.pool := pool;
      retries := Max(retriesWanted, 1) + 1;
      idleTimeout := if timeout == 0 then DEFAULT_IDLE_TIMEOUT else timeout;
      closed := false;
      idle := if (if timeout == 0 then DEFAULT_IDLE_TIMEOUT else timeout) > 0
              then Armed(if timeout == 0 then DEFAULT_IDLE_TIMEOUT else timeout) else NoTimer;
    }

    // One round of the loop.
    method Round<R>(a: Attempt<R>) returns (client: Option<nat>, report: Report<R>, needsRetry: bool)
      requires Valid() && (pool.closed ==> a.acquireErr == Some(Leaf(PoolClosed)))
      modifies pool
      ensures Valid() && pool.closed == old(pool.closed)
      ensures report == Verdict(a) && (needsRetry <==> AsksForRetry(a)) && (client.Some? <==> Acquires(a))
      ensures pool.acquired == old(pool.acquired)
      ensures pool.log == old(pool.log)
        + if client.Some? then [Took(client.value), Disposal(a.outcome, client.value)] else []
    {
      if a.ctxErr.Some? {
        return None, Report(None, a.ctxErr), false;
      }
      var res, err := pool.Acquire(a.acquireErr, a.now);
      if err.Some? {
        return None, Report(None, err), false;
      }
      client := res;
      needsRetry := ReleaseMaybeRetry(res.value, a.outcome, a.now);
      match a.outcome {
        case Success(resp) => report := Report(Some(resp), None);
        case Failure(e) => report := Report(None, Some(e));
      }
    }

    // The loop that Call, CallBatch, CallRaw, Notify, NotifyBatch and NotifyRaw each spell out.
    method WithRetries<R>(env: nat -> Attempt<R>) returns (report: Report<R>, ghost used: seq<nat>)
      requires Valid()
      modifies pool
      ensures Valid() && pool.closed == old(pool.closed)
      ensures Result(report, |used|) == RunFrom(retries, WhenClosed(env, pool.closed), 0, None)
      ensures pool.log == old(pool.log) + Rounds(WhenClosed(env, pool.closed), used)
      ensures pool.acquired == old(pool.acquired)
    {
      var err: Option<Err> := None;
      used := [];
      var rounds := WhenClosed(env, pool.closed);
      for k := 0 to retries
        invariant Valid() && pool.closed == old(pool.closed)
        invariant RunFrom(retries, rounds, k, err) == RunFrom(retries, rounds, 0, None)
        invariant pool.acquired == old(pool.acquired)
        invariant |used| == k && pool.log == old(pool.log) + Rounds(rounds, used)
      {
        ghost var before, log := used, pool.log;
        var client, verdict, needsRetry := Round(rounds(k));
        if client.Some? {
          RoundsGrow(rounds, before, client.value);
          used := before + [client.value];
        }
        assert pool.log == log + Rounds(rounds, used)[|Rounds(rounds, before)|..];
        if !needsRetry {
          return verdict, used;
        }
        err := verdict.err;
      }
      report := Report(None, Join([Some(Leaf(RetriesExceeded)), err]));
    }

    method ReleaseMaybeRetry<R>(r: nat, o: Retries.Outcome<R>, now: int) returns (needsRetry: bool)
      requires Valid() && r in pool.acquired
      modifies pool
      ensures Valid() && pool.closed == old(pool.closed) && pool.closeCalls == old(pool.closeCalls)
      ensures pool.acquired == old(pool.acquired) - {r}
      ensures pool.log == old(pool.log) + [Disposal(o, r)]
      ensures pool.idle == if o.Success? && !pool.closed then old(pool.idle) + {r} else old(pool.idle)
      ensures needsRetry <==> o.Failure? && Retryable(o.err)
    {
      if o.Failure? {
        pool.Destroy(r);
        if Is(o.err, Canceled) || Is(o.err, DeadlineExceeded) {
          return false;
        }
        return Is(o.err, Eof) || Is(o.err, UnexpectedEof) || Is(o.err, NetClosed) || Is(o.err, OsClosed);
      }
      pool.Release(r, now);
      return false;
    }

    // One resource of a reaper pass.
    method ReapOne(r: nat, now: int, soFar: int) returns (nextWait: int)
      requires Valid() && r in pool.acquired && !pool.closed
      modifies pool
      ensures Valid() && !pool.closed && pool.closeCalls == old(pool.closeCalls)
      ensures View(pool, nextWait) == AfterOne(old(View(pool, soFar)), r, now, idleTimeout)
    {
      nextWait := soFar;
      var idleTime := now - pool.lastUsed[r];
      if idleTime >= idleTimeout {
        pool.Destroy(r);
      } else {
        nextWait := Min(nextWait, idleTimeout - idleTime);
        pool.ReleaseUnused(r);
      }
    }

    // The resources of a reaper pass, one after the other.
    method ReapAll(taken: seq<nat>, clock: nat -> int) returns (nextWait: int)
      requires Valid() && !pool.closed
      requires Members(taken) <= pool.acquired
      requires forall i, j :: 0 <= i < j < |taken| ==> taken[i] != taken[j]
      modifies pool
      ensures Valid() && !pool.closed && pool.closeCalls == old(pool.closeCalls)
      ensures View(pool, nextWait) == AfterAll(old(View(pool, idleTimeout)), taken, clock, idleTimeout)
    {
      nextWait := idleTimeout;
      ghost var before := View(pool, nextWait);
      for i := 0 to |taken|
        invariant Valid() && !pool.closed && pool.closeCalls == old(pool.closeCalls)
        invariant Members(taken[i..]) <= pool.acquired
        invariant View(pool, nextWait) == AfterAll(before, taken[..i], clock, idleTimeout)
      {
        OneMore(before, taken, i, clock, idleTimeout);
        nextWait := ReapOne(taken[i], clock(i), nextWait);
      }
      assert taken[..|taken|] == taken;
    }

    // The timer's function; clock(i) is the time at which the i-th resource taken is examined.
    method ReapIdle(clock: nat -> int) returns (ghost taken: seq<nat>)
      requires Valid() && idleTimeout > 0
      requires !closed ==> !idle.Armed? // the timer has just fired
      modifies this, pool
      ensures Valid() && closed == old(closed) && pool.closeCalls == old(pool.closeCalls)
      ensures closed ==> View(pool, 0) == old(View(pool, 0)) && idle == old(idle)
      ensures !closed ==> idle.Armed? && pool.acquired == old(pool.acquired)
      ensures !closed ==> PassIsExact(old(View(pool, idleTimeout)), taken, View(pool, idle.wait), clock, idleTimeout)
    {
      taken := [];
      if closed {
        return;
      }
      ghost var before := View(pool, idleTimeout);
      var all := pool.AcquireAllIdle();
      taken := all;
      var nextWait := ReapAll(all, clock);
      AfterAllIsExact(AllTaken(before, taken), taken, clock, idleTimeout);
      idle := Armed(nextWait);
    }

    method Close()
      requires Valid()
      modifies this, pool
      ensures Valid() && closed && !idle.Armed?
      ensures pool.closeCalls == old(pool.closeCalls) + if old(closed) then 0 else 1
      ensures pool.acquired == old(pool.acquired) && pool.log == old(pool.log)
      ensures !old(closed) ==> pool.closed && pool.idle == {}
      ensures old(closed) ==> pool.idle == old(pool.idle) && idle == old(idle)
    {
      if closed {
        return;
      }
      closed := true;
      if idle != NoTimer {
        idle := Idle;
      }
      pool.Close();
    }
  }

  // poolErr is what creating the resource pool answers. With acquireOnCreate one connection is
  // dialled at once, which acquireErr may fail; it ends up idle.
  method NewClientPoolWithDialer(
    retriesWanted: int, timeout: int, poolErr: Option<Err>, acquireOnCreate: bool, acquireErr: Option<Err>, now: int)
    returns (client: Option<ClientPool>, err: Option<Err>)
    ensures err == if poolErr.Some? then poolErr else if acquireOnCreate then acquireErr else None
    ensures client.Some? <==> err.None?
    ensures client.Some? ==> var cp := client.value;
      && fresh(cp) && fresh(cp.pool) && cp.Valid() && !cp.closed && !cp.pool.closed && cp.pool.closeCalls == 0
      && cp.retries == Max(retriesWanted, 1) + 1
      && cp.idleTimeout == (if timeout == 0 then 300_000_000_000 else timeout)
      && cp.idle == (if cp.idleTimeout > 0 then Armed(cp.idleTimeout) else NoTimer)
      && cp.pool.acquired == {}
      && if acquireOnCreate then exists r :: cp.pool.idle == {r} && cp.pool.log == [Took(r), Released(r)]
         else cp.pool.idle == {} && cp.pool.log == []
  {
    if poolErr.Some? {
      return None, poolErr;
    }
    var pool := new Pool();
    var res: Option<nat> := None;
    if acquireOnCreate {
      res, err := pool.Acquire(acquireErr, now);
      if err.Some? {
        pool.Close();
        return None, err;
      }
    }
    var cp := new ClientPool(pool, retriesWanted, timeout);
    if res.Some? {
      pool.Release(res.value, now);
    }
    return Some(cp), None;
  }

  // What a reaper pass works on: the resource pool and the wait for the next pass.
  datatype PoolView = PoolView(
    idle: set<nat>, acquired: set<nat>, lastUsed: map<nat, int>, log: seq<ResourcePool.Event>, wait: int)

  ghost function View(pool: Pool, wait: int): PoolView
    reads pool
  {
    PoolView(pool.idle, pool.acquired, pool.lastUsed, pool.log, wait)
  }

  function UsedAt(used: map<nat, int>, r: nat): int { if r in used then used[r] else 0 }

  function AfterOne(v: PoolView, r: nat, now: int, idleTimeout: int): PoolView {
    var idleTime := now - UsedAt(v.lastUsed, r);
    if Expired(idleTime, idleTimeout)
    then PoolView(v.idle, v.acquired - {r}, v.lastUsed - {r}, v.log + [Destroyed(r)], v.wait)
    else PoolView(v.idle + {r}, v.acquired - {r}, v.lastUsed, v.log + [ReleasedUnused(r)],
                  NextWait(v.wait, idleTime, idleTimeout))
  }

  function AfterAll(v: PoolView, taken: seq<nat>, clock: nat -> int, idleTimeout: int): PoolView {
    if taken == [] then v
    else
      var n := |taken| - 1;
      AfterOne(AfterAll(v, taken[..n], clock, idleTimeout), taken[n], clock(n), idleTimeout)
  }

  lemma OneMore(v: PoolView, taken: seq<nat>, i: nat, clock: nat -> int, idleTimeout: int)
    requires i < |taken| && forall j, k :: 0 <= j < k < |taken| ==> taken[j] != taken[k]
    ensures AfterAll(v, taken[..i + 1], clock, idleTimeout)
         == AfterOne(AfterAll(v, taken[..i], clock, idleTimeout), taken[i], clock(i), idleTimeout)
    ensures taken[i] in Members(taken[i..]) && Members(taken[i + 1..]) == Members(taken[i..]) - {taken[i]}
  {
    assert taken[..i + 1][..i] == taken[..i];
    assert taken[i..] == [taken[i]] + taken[i + 1..];
  }

  // A pass takes every idle resource. It destroys exactly those that have been idle for the
  // whole timeout when examined and leaves the others idle, with their last use unchanged; each
  // is disposed of once. The wait it schedules lies in (0, idleTimeout] and runs out no later
  // than the timeout of any survivor; unless it is the full timeout, it is that of some survivor.
  ghost predicate PassIsExact(before: PoolView, taken: seq<nat>, after: PoolView, clock: nat -> int, idleTimeout: int) {
    && Members(taken) == before.idle
    && (forall i, j :: 0 <= i < j < |taken| ==> taken[i] != taken[j])
    && PassOver(AllTaken(before, taken), taken, after, clock, idleTimeout)
  }

  ghost function AllTaken(v: PoolView, taken: seq<nat>): PoolView {
    v.(idle := {}, acquired := v.acquired + v.idle, log := v.log + Takes(taken))
  }

  predicate ExpiresAt(v: PoolView, r: nat, now: int, idleTimeout: int) {
    now - UsedAt(v.lastUsed, r) >= idleTimeout
  }

  // Each resource is disposed of once, by its age when examined.
  ghost predicate Disposed(before: PoolView, taken: seq<nat>, after: PoolView, clock: nat -> int, idleTimeout: int) {
    && after.acquired == before.acquired - Members(taken)
    && |after.log| == |before.log| + |taken| && before.log <= after.log
    && forall i: nat :: i < |taken| ==>
         && after.log[|before.log| + i]
              == (if ExpiresAt(before, taken[i], clock(i), idleTimeout)
                  then Destroyed(taken[i]) else ReleasedUnused(taken[i]))
         && (taken[i] in after.idle <==> !ExpiresAt(before, taken[i], clock(i), idleTimeout))
         && (taken[i] in after.lastUsed <==> taken[i] in before.lastUsed && taken[i] in after.idle)
  }

  ghost predicate Undisturbed(before: PoolView, taken: seq<nat>, after: PoolView) {
    && (forall r :: r in after.idle ==> r in taken)
    && (forall r :: r in after.lastUsed ==> r in before.lastUsed && after.lastUsed[r] == before.lastUsed[r])
    && (forall r :: r in before.lastUsed && r !in taken ==> r in after.lastUsed)
  }

  ghost predicate WellScheduled(before: PoolView, taken: seq<nat>, wait: int, clock: nat -> int, idleTimeout: int) {
    && 0 < wait <= idleTimeout
    && (forall i: nat :: i < |taken| && !ExpiresAt(before, taken[i], clock(i), idleTimeout) ==>
          clock(i) + wait <= UsedAt(before.lastUsed, taken[i]) + idleTimeout)
    && (wait < idleTimeout ==>
          exists i: nat :: i < |taken| && clock(i) + wait == UsedAt(before.lastUsed, taken[i]) + idleTimeout)
  }

  ghost predicate PassOver(before: PoolView, taken: seq<nat>, after: PoolView, clock: nat -> int, idleTimeout: int) {
    && Disposed(before, taken, after, clock, idleTimeout)
    && Undisturbed(before, taken, after)
    && WellScheduled(before, taken, after.wait, clock, idleTimeout)
  }

  lemma {:induction false} AfterAllIsExact(before: PoolView, taken: seq<nat>, clock: nat -> int, idleTimeout: int)
    requires before.idle == {} && before.wait == idleTimeout > 0
    requires forall j, k :: 0 <= j < k < |taken| ==> taken[j] != taken[k]
    ensures PassOver(before, taken, AfterAll(before, taken, clock, idleTimeout), clock, idleTimeout)
  {
    if taken == [] {
      assert Members(taken) == {};
    } else {
      var n := |taken| - 1;
      var front, r := taken[..n], taken[n];
      AfterAllIsExact(before, front, clock, idleTimeout);
      assert taken == front + [r] && r !in front;
      PassOverStep(before, front, r, AfterAll(before, front, clock, idleTimeout), clock, idleTimeout);
    }
  }

  lemma PassOverStep(before: PoolView, front: seq<nat>, r: nat, middle: PoolView, clock: nat -> int, idleTimeout: int)
    requires PassOver(before, front, middle, clock, idleTimeout) && r !in front
    ensures PassOver(before, front + [r], AfterOne(middle, r, clock(|front|), idleTimeout), clock, idleTimeout)
  {
    MembersGrow(front, r);
    assert UsedAt(middle.lastUsed, r) == UsedAt(before.lastUsed, r);
    DisposedStep(before, front, r, middle, clock, idleTimeout);
    ScheduledStep(before, front, r, middle.wait, clock, idleTimeout);
  }

  lemma DisposedStep(before: PoolView, front: seq<nat>, r: nat, middle: PoolView, clock: nat -> int, idleTimeout: int)
    requires Disposed(before, front, middle, clock, idleTimeout) && Undisturbed(before, front, middle)
    requires r !in front && Members(front + [r]) == Members(front) + {r}
    requires UsedAt(middle.lastUsed, r) == UsedAt(before.lastUsed, r)
    ensures var after := AfterOne(middle, r, clock(|front|), idleTimeout);
      Disposed(before, front + [r], after, clock, idleTimeout) && Undisturbed(before, front + [r], after)
  {
    var taken, after := front + [r], AfterOne(middle, r, clock(|front|), idleTimeout);
    assert r in before.lastUsed ==> r in middle.lastUsed;
    forall i: nat | i < |front|
      ensures taken[i] == front[i] != r
      ensures after.log[|before.log| + i] == middle.log[|before.log| + i]
    {}
  }

  lemma ScheduledStep(before: PoolView, front: seq<nat>, r: nat, wait: int, clock: nat -> int, idleTimeout: int)
    requires WellScheduled(before, front, wait, clock, idleTimeout)
    ensures var idleTime := clock(|front|) - UsedAt(before.lastUsed, r);
      WellScheduled(before, front + [r],
        if Expired(idleTime, idleTimeout) then wait else NextWait(wait, idleTime, idleTimeout), clock, idleTimeout)
  {
    var taken := front + [r];
    assert forall i: nat :: i < |front| ==> taken[i] == front[i];
    assert taken[|front|] == r;
    if wait < idleTimeout {
      var i: nat :| i < |front| && clock(i) + wait == UsedAt(before.lastUsed, front[i]) + idleTimeout;
      assert taken[i] == front[i];
    }
  }
}
