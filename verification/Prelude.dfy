// Shared vocabulary: optional values, and runs of labelled transition systems.

module Prelude {
  datatype Option<+T> = None | Some(value: T)

  function Min(a: int, b: int): int { if a <= b then a else b }

  function Max(a: int, b: int): int { if a >= b then a else b }

  // The natural numbers below n, as a set.
  function Below(n: nat): (s: set<nat>)
    ensures |s| == n
    ensures forall i: nat :: i in s <==> i < n
  {
    if n == 0 then {} else Below(n - 1) + {n - 1}
  }

  lemma SubsetSize<T>(a: set<T>, b: set<T>)
    requires a <= b
    ensures |a| <= |b|
    ensures |a| == |b| ==> a == b
  {
    assert b == a + (b - a);
  }

  ghost predicate Increasing(at: seq<nat>) {
    forall i, j :: 0 <= i < j < |at| ==> at[i] < at[j]
  }

  // to holds, in order, what pick finds in from: to[j] comes from position at[j].
  ghost predicate IsSelection<T(!new), U(!new)>(from: seq<T>, pick: T -> Option<U>, to: seq<U>, at: seq<nat>) {
    && |at| == |to| && Increasing(at)
    && (forall j :: 0 <= j < |at| ==> at[j] < |from| && pick(from[at[j]]) == Some(to[j]))
    && (forall i: nat :: i < |from| && pick(from[i]).Some? ==> i in at)
  }

  lemma SelectionGrows<T(!new), U(!new)>(
    from: seq<T>, x: T, pick: T -> Option<U>, to: seq<U>, at: seq<nat>, from': seq<T>, to': seq<U>)
    returns (at': seq<nat>)
    requires IsSelection(from, pick, to, at)
    requires from' == from + [x] && to' == to + if pick(x).Some? then [pick(x).value] else []
    ensures IsSelection(from', pick, to', at')
  {
    at' := if pick(x).Some? then at + [|from|] else at;
    forall i: nat | i < |from'| && pick(from'[i]).Some? ensures i in at' {
      if i < |from| {
        assert from'[i] == from[i];
        var j :| 0 <= j < |at| && at[j] == i;
        assert at'[j] == i;
      } else {
        assert at'[|at|] == i;
      }
    }
  }

  ghost function Members(at: seq<nat>): set<nat> { set k | k in at }

  lemma MembersGrow(at: seq<nat>, k: nat)
    ensures Members(at + [k]) == Members(at) + {k}
  {}

  ghost predicate NoRepeats(at: seq<nat>) {
    forall i, j :: 0 <= i < j < |at| ==> at[i] != at[j]
  }

  lemma {:induction false} MembersSize(at: seq<nat>)
    requires NoRepeats(at)
    ensures |Members(at)| == |at|
  {
    if at != [] {
      var n := |at| - 1;
      MembersSize(at[..n]);
      assert at == at[..n] + [at[n]];
      MembersGrow(at[..n], at[n]);
      assert at[n] !in at[..n];
    }
  }

  // Distinct positions below n, as many as there are, are all of them.
  lemma AllPositions(at: seq<nat>, n: nat, i: nat)
    requires |at| == n && i < n && NoRepeats(at) && forall j :: 0 <= j < |at| ==> at[j] < n
    ensures i in at
  {
    MembersSize(at);
    SubsetSize(Members(at), Below(n));
    assert i in Below(n) && i in Members(at);
  }

  // Element j of a comes from position at[j] of b.
  ghost predicate IsPermutation<T>(a: seq<T>, b: seq<T>, at: seq<nat>) {
    && |at| == |a| == |b| && NoRepeats(at)
    && forall j :: 0 <= j < |at| ==> at[j] < |b| && a[j] == b[at[j]]
  }

  lemma {:induction false} PermutationIndex<T>(a: seq<T>, b: seq<T>) returns (at: seq<nat>)
    requires multiset(a) == multiset(b)
    ensures IsPermutation(a, b, at)
    decreases |a|
  {
    assert |a| == |multiset(a)| && |b| == |multiset(b)|;
    if a == [] {
      at := [];
    } else {
      var n := |a| - 1;
      var k := Without(a[..n], a[n], b) by { assert a == a[..n] + [a[n]]; }
      var front := PermutationIndex(a[..n], b[..k] + b[k + 1..]);
      at := seq(n, j requires 0 <= j < n => if front[j] < k then front[j] else front[j] + 1) + [k];
      forall j | 0 <= j < n ensures at[j] < |b| && a[j] == b[at[j]] && at[j] != k {
        assert a[..n][j] == a[j] && front[j] < |b| - 1;
      }
    }
  }

  // One occurrence of x can be taken out of a permutation of front and x.
  lemma Without<T>(front: seq<T>, x: T, b: seq<T>) returns (k: nat)
    requires multiset(b) == multiset(front + [x])
    ensures k < |b| && b[k] == x && multiset(b[..k] + b[k + 1..]) == multiset(front)
  {
    assert x in multiset(b);
    k :| 0 <= k < |b| && b[k] == x;
    assert b == b[..k] + [b[k]] + b[k + 1..];
    var rest := b[..k] + b[k + 1..];
    assert multiset(rest) == multiset(b[..k]) + multiset(b[k + 1..]);
    assert multiset(b) == multiset(b[..k]) + multiset([b[k]]) + multiset(b[k + 1..]);
    assert multiset(front + [x]) == multiset(front) + multiset([x]);
    assert multiset(rest) == multiset(b) - multiset([x]);
  }

  // The positions at which p holds, and how updating one element changes their number.
  function Where<T>(s: seq<T>, p: T -> bool): set<nat> {
    set i: nat | i < |s| && p(s[i])
  }

  lemma WhereUpdate<T>(s: seq<T>, i: nat, x: T, p: T -> bool)
    requires i < |s|
    ensures |Where(s[i := x], p)| + (if p(s[i]) then 1 else 0) == |Where(s, p)| + if p(x) then 1 else 0
  {
    var rest := set j: nat | j < |s| && j != i && p(s[j]);
    assert Where(s, p) == if p(s[i]) then rest + {i} else rest;
    assert Where(s[i := x], p) == if p(x) then rest + {i} else rest;
    WithOne(Where(s, p), rest, i, p(s[i]));
    WithOne(Where(s[i := x], p), rest, i, p(x));
  }

  // The total of f over a sequence, and how updating one element changes it.
  function Sum<T>(s: seq<T>, f: T -> nat): nat {
    if s == [] then 0 else Sum(s[..|s| - 1], f) + f(s[|s| - 1])
  }

  lemma {:induction false} SumUpdate<T>(s: seq<T>, i: nat, x: T, f: T -> nat)
    requires i < |s|
    ensures Sum(s[i := x], f) == Sum(s, f) - f(s[i]) + f(x)
  {
    var n := |s| - 1;
    if i < n {
      SumUpdate(s[..n], i, x, f);
      assert s[i := x][..n] == s[..n][i := x];
    } else {
      assert s[i := x][..n] == s[..n];
    }
  }

  lemma {:induction false} SumOfEqual<T>(s: seq<T>, x: T, f: T -> nat)
    requires forall i :: 0 <= i < |s| ==> s[i] == x
    ensures Sum(s, f) == f(x) * |s|
  {
    if s != [] {
      SumOfEqual(s[..|s| - 1], x, f);
      assert f(x) * |s| == f(x) * (|s| - 1) + f(x);
    }
  }

  lemma WithOne(all: set<nat>, rest: set<nat>, i: nat, present: bool)
    requires i !in rest && all == if present then rest + {i} else rest
    ensures |all| == |rest| + if present then 1 else 0
  {}
}

// Every concurrent component is a labelled transition system, and every
// statement about it is a statement about all of its finite runs.
module Executions {
  // labels[k] takes states[k] to states[k + 1].
  ghost predicate IsRun<S(!new), L(!new)>(
    init: S -> bool, next: (S, L, S) -> bool, states: seq<S>, labels: seq<L>)
  {
    && |states| == |labels| + 1
    && init(states[0])
    && forall k :: 0 <= k < |labels| ==> next(states[k], labels[k], states[k + 1])
  }

  ghost predicate Inductive<S(!new), L(!new)>(init: S -> bool, next: (S, L, S) -> bool, inv: S -> bool) {
    && (forall s :: init(s) ==> inv(s))
    && (forall s, l, t :: inv(s) && next(s, l, t) ==> inv(t))
  }

  lemma {:induction false} InvariantHolds<S(!new), L(!new)>(
    init: S -> bool, next: (S, L, S) -> bool, inv: S -> bool, states: seq<S>, labels: seq<L>)
    requires IsRun(init, next, states, labels)
    requires Inductive(init, next, inv)
    ensures forall k :: 0 <= k < |states| ==> inv(states[k])
    decreases |labels|
  {
    if |labels| > 0 {
      var m := |labels| - 1;
      var states', labels' := states[..m + 1], labels[..m];
      assert forall k :: 0 <= k < m ==> next(states'[k], labels'[k], states'[k + 1]) by {
        forall k | 0 <= k < m ensures next(states'[k], labels'[k], states'[k + 1]) {
          assert next(states[k], labels[k], states[k + 1]);
        }
      }
      InvariantHolds(init, next, inv, states', labels');
      assert inv(states'[m]) && next(states[m], labels[m], states[m + 1]);
    }
  }

  // How many of the labels are counted.
  ghost function Count<L(!new)>(labels: seq<L>, counted: L -> bool): nat {
    if labels == [] then 0
    else Count(labels[..|labels| - 1], counted) + if counted(labels[|labels| - 1]) then 1 else 0
  }

  // A rank that no step raises and every counted step lowers bounds the counted steps of every run.
  lemma {:induction false} RankBoundsCount<S(!new), L(!new)>(
    init: S -> bool, next: (S, L, S) -> bool, inv: S -> bool, rank: S -> nat, counted: L -> bool,
    states: seq<S>, labels: seq<L>)
    requires IsRun(init, next, states, labels)
    requires Inductive(init, next, inv)
    requires forall s, l, t :: inv(s) && next(s, l, t) ==> rank(t) + (if counted(l) then 1 else 0) <= rank(s)
    ensures Count(labels, counted) + rank(states[|labels|]) <= rank(states[0])
  {
    InvariantHolds(init, next, inv, states, labels);
    var k := 0;
    while k < |labels|
      invariant 0 <= k <= |labels|
      invariant Count(labels[..k], counted) + rank(states[k]) <= rank(states[0])
    {
      assert next(states[k], labels[k], states[k + 1]);
      assert labels[..k + 1][..k] == labels[..k];
      k := k + 1;
    }
    assert labels[..|labels|] == labels;
  }

  lemma {:induction false} CountAll<L(!new)>(labels: seq<L>)
    ensures Count(labels, _ => true) == |labels|
  {
    if labels != [] { CountAll(labels[..|labels| - 1]); }
  }

  // A rank that every step lowers bounds the length of every run.
  lemma RankBoundsLength<S(!new), L(!new)>(
    init: S -> bool, next: (S, L, S) -> bool, inv: S -> bool, rank: S -> nat, states: seq<S>, labels: seq<L>)
    requires IsRun(init, next, states, labels)
    requires Inductive(init, next, inv)
    requires forall s, l, t :: inv(s) && next(s, l, t) ==> rank(t) < rank(s)
    ensures |labels| + rank(states[|labels|]) <= rank(states[0])
  {
    RankBoundsCount(init, next, inv, rank, _ => true, states, labels);
    CountAll(labels);
  }
}
