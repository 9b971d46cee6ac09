// Go error values as trees: a sentinel, a wrapped error, or a join.

module Errors {
  import opened Prelude

  datatype Sentinel =
    | Canceled | DeadlineExceeded
    | Eof | UnexpectedEof | NetClosed | OsClosed
    | JsonTooLarge | RetriesExceeded | PoolClosed
    | SyntaxError | UnmarshalTypeError | MaxBytesError
    | Other(code: nat)

  // fmt.Errorf with one %w is Wrap; errors.Join and several %w are Joined.
  datatype Err = Leaf(sentinel: Sentinel) | Wrap(inner: Err) | Joined(errs: seq<Err>)

  // errors.Is, and errors.As for the error types listed as sentinels.
  predicate Is(e: Err, s: Sentinel)
    decreases e
  {
    match e
    case Leaf(x) => x == s
    case Wrap(inner) => Is(inner, s)
    case Joined(errs) => exists k | 0 <= k < |errs| :: Is(errs[k], s)
  }

  // sub is e or occurs somewhere below it.
  predicate Within(sub: Err, e: Err)
    decreases e
  {
    sub == e ||
    match e
    case Leaf(_) => false
    case Wrap(inner) => Within(sub, inner)
    case Joined(errs) => exists k | 0 <= k < |errs| :: Within(sub, errs[k])
  }

  lemma {:induction false} IsFromWithin(sub: Err, e: Err, s: Sentinel)
    requires Within(sub, e) && Is(sub, s)
    ensures Is(e, s)
    decreases e
  {
    if sub != e {
      match e
      case Wrap(inner) => IsFromWithin(sub, inner, s);
      case Joined(errs) =>
        var k :| 0 <= k < |errs| && Within(sub, errs[k]);
        IsFromWithin(sub, errs[k], s);
    }
  }

  // errors.Is finds a sentinel exactly when it occurs somewhere in the tree.
  lemma {:induction false} IsExactly(e: Err, s: Sentinel)
    ensures Is(e, s) <==> Within(Leaf(s), e)
    decreases e
  {
    match e
    case Leaf(_) =>
    case Wrap(inner) => IsExactly(inner, s);
    case Joined(errs) =>
      forall k | 0 <= k < |errs| ensures Is(errs[k], s) <==> Within(Leaf(s), errs[k]) {
        IsExactly(errs[k], s);
      }
  }

  // errors.Join: nil arguments are dropped, and joining only nils gives nil.
  function Join(errs: seq<Option<Err>>): (r: Option<Err>)
  {
    var kept := NonNil(errs);
    if kept == [] then None else Some(Joined(kept))
  }

  function NonNil(errs: seq<Option<Err>>): seq<Err> {
    if errs == [] then []
    else (if errs[0].Some? then [errs[0].value] else []) + NonNil(errs[1..])
  }

  predicate IsIn(e: Option<Err>, s: Sentinel) { e.Some? && Is(e.value, s) }

  lemma {:induction false} NonNilKeeps(errs: seq<Option<Err>>)
    ensures forall k :: 0 <= k < |errs| && errs[k].Some? ==> errs[k].value in NonNil(errs)
    ensures forall e :: e in NonNil(errs) ==> exists k :: 0 <= k < |errs| && errs[k] == Some(e)
  {
    if errs != [] {
      NonNilKeeps(errs[1..]);
      forall e | e in NonNil(errs) ensures exists k :: 0 <= k < |errs| && errs[k] == Some(e) {
        if e in NonNil(errs[1..]) {
          var k :| 0 <= k < |errs[1..]| && errs[1..][k] == Some(e);
          assert errs[k + 1] == Some(e);
        } else {
          assert errs[0] == Some(e);
        }
      }
      forall k | 0 <= k < |errs| && errs[k].Some? ensures errs[k].value in NonNil(errs) {
        if k > 0 { assert errs[1..][k - 1] == errs[k]; }
      }
    }
  }

  // A join is nil exactly when every part is, and matches exactly what some part matches.
  lemma JoinIsNil(errs: seq<Option<Err>>)
    ensures Join(errs).None? <==> forall k :: 0 <= k < |errs| ==> errs[k].None?
  {
    NonNilKeeps(errs);
    if NonNil(errs) != [] { assert NonNil(errs)[0] in NonNil(errs); }
  }

  lemma JoinMatches(errs: seq<Option<Err>>, s: Sentinel)
    ensures IsIn(Join(errs), s) <==> exists k :: 0 <= k < |errs| && IsIn(errs[k], s)
  {
    NonNilKeeps(errs);
    var kept := NonNil(errs);
    if IsIn(Join(errs), s) {
      var j :| 0 <= j < |kept| && Is(kept[j], s);
      assert kept[j] in kept;
    }
    if k :| 0 <= k < |errs| && IsIn(errs[k], s) {
      assert errs[k].value in kept;
      var j :| 0 <= j < |kept| && kept[j] == errs[k].value;
      assert Is(kept[j], s);
    }
  }

  lemma JoinThreeMatches(a: Option<Err>, b: Option<Err>, c: Option<Err>, x: Sentinel)
    ensures IsIn(Join([a, b, c]), x) <==> IsIn(a, x) || IsIn(b, x) || IsIn(c, x)
  {
    var parts := [a, b, c];
    JoinMatches(parts, x);
    assert IsIn(parts[0], x) || IsIn(parts[1], x) || IsIn(parts[2], x)
      <==> exists j :: 0 <= j < |parts| && IsIn(parts[j], x);
  }

  lemma JoinTwoMatches(a: Option<Err>, b: Option<Err>, x: Sentinel)
    ensures IsIn(Join([a, b]), x) <==> IsIn(a, x) || IsIn(b, x)
  {
    var parts := [a, b];
    JoinMatches(parts, x);
    assert IsIn(parts[0], x) || IsIn(parts[1], x) <==> exists j :: 0 <= j < |parts| && IsIn(parts[j], x);
  }
}
