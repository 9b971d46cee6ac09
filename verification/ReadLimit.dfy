// The read limit of a stream decoder, over a JSON decoder that buffers what it reads.

module ReadLimit {
  import opened Prelude
  import opened Errors
  import Numerals

  type Text = seq<char>

  // What the JSON scanner makes of the text in the buffer: no value yet, a value in the first n
  // characters, a syntax error, or what is a value unless more of it follows: a number, string or literal.
  datatype Scan = Incomplete | Complete(n: nat) | Malformed | OpenEnded

  // What is assumed of the JSON library's scanner when it has seen s and then t as well: it
  // keeps a verdict; it decides on a value having seen at most one character after it; and a
  // value that needs no such character, like an object or array, is incomplete until its last.
  ghost predicate LawfulAt(scan: Text -> Scan, s: Text, t: Text) {
    && (scan(s).Complete? ==> 0 < scan(s).n <= |s|)
    && (scan(s).Complete? || scan(s).Malformed? ==> scan(s + t) == scan(s))
    && (scan(s + t).Complete? && scan(s + t).n < |s| ==> scan(s) == scan(s + t))
    && (scan(s + t) == Complete(|s + t|) && t != [] ==> scan(s).Incomplete?)
  }

  ghost predicate IsScanner(scan: Text -> Scan) {
    forall s, t :: LawfulAt(scan, s, t)
  }

  // text begins with an object or array of length n, white space before it included.
  predicate BeginsWithContainer(scan: Text -> Scan, text: Text, n: nat) {
    0 < n <= |text| && scan(text[..n]) == Complete(n)
  }

  // Whatever part of the text has been read, an object or array at its start is seen exactly
  // when all of it has been read.
  lemma ContainerSeen(scan: Text -> Scan, text: Text, n: nat, part: Text)
    requires IsScanner(scan) && BeginsWithContainer(scan, text, n) && part <= text
    ensures if |part| < n then scan(part).Incomplete? else scan(part) == Complete(n)
  {
    if |part| < n {
      assert LawfulAt(scan, part, text[|part|..n]);
      assert part + text[|part|..n] == text[..n];
    } else {
      assert LawfulAt(scan, text[..n], part[n..]);
      assert part == text[..n] + part[n..];
    }
  }

  // text begins with a bare number, string or literal of length m, white space before it included.
  // It is a value only once something else, or the end, follows. Cut short, a number may be a
  // number still, the others are not values.
  ghost predicate BeginsWithScalar(scan: Text -> Scan, text: Text, m: nat) {
    && m <= |text| && scan(text[..m]).OpenEnded?
    && (forall k :: 0 <= k < m ==> scan(text[..k]).OpenEnded? || scan(text[..k]).Incomplete?)
    && (m < |text| ==> scan(text[..m + 1]) == Complete(m))
  }

  // Whatever part of the text has been read, such a value is complete exactly when the
  // character after it has been read too.
  lemma ScalarSeen(scan: Text -> Scan, text: Text, m: nat, part: Text)
    requires IsScanner(scan) && BeginsWithScalar(scan, text, m) && part <= text
    ensures if |part| <= m then scan(part).OpenEnded? || scan(part).Incomplete? else scan(part) == Complete(m)
  {
    assert part == text[..|part|];
    if |part| > m {
      assert LawfulAt(scan, text[..m + 1], part[m + 1..]);
      assert part == text[..m + 1] + part[m + 1..];
    }
  }

  // What a decoder that may hold most characters of the text makes of such a value of length m:
  // all of it if it fits, otherwise its first most characters if they are a value, otherwise none.
  function ScalarCut(scan: Text -> Scan, text: Text, m: nat, most: nat): Option<Text>
    requires m <= |text|
  {
    if m <= most then Some(text[..m])
    else if scan(text[..most]).OpenEnded? then Some(text[..most]) else None
  }

  // What a read leaves over after a value is no more than what that read brought.
  lemma LeftoverIsRecent(scan: Text -> Scan, buffer: Text, before: nat)
    requires IsScanner(scan) && before <= |buffer|
    requires !scan(buffer[..before]).Complete? && scan(buffer).Complete?
    ensures before <= scan(buffer).n <= |buffer| && 0 < scan(buffer).n
  {
    assert LawfulAt(scan, buffer[..before], buffer[before..]);
    assert LawfulAt(scan, buffer, []);
    assert buffer[..before] + buffer[before..] == buffer;
  }

  lemma NothingIsIncomplete(scan: Text -> Scan)
    requires IsScanner(scan)
    ensures !scan([]).Complete?
  {
    assert LawfulAt(scan, [], []);
  }

  // How one read of the underlying reader goes: it fails, or brings at most want bytes.
  datatype Reading = Reading(want: nat, failure: Option<Err>)

  // e is what the JSON decoder makes of the failure of one of these reads.
  ghost predicate FromRead(readings: nat -> Reading, e: Err) {
    exists k: nat :: readings(k).failure.Some? && Reported(readings(k).failure.value, e)
  }

  // value is one that the scanner sees, whatever it has seen of the text after it.
  ghost predicate IsValue(scan: Text -> Scan, value: Text, rest: Text) {
    || scan(value).OpenEnded?
    || exists k: nat :: k <= |rest| && scan(value + rest[..k]) == Complete(|value|)
  }

  // The part of a text that a decoder may look at for the next value.
  function InReach(text: Text, limited: bool, most: int): Text {
    if limited && 0 <= most < |text| then text[..most] else text
  }

  function EndError(seen: Text): Err { Leaf(if IsBlank(seen) then Eof else UnexpectedEof) }

  predicate AtEnd(text: Text, seen: Text, limited: bool, most: int) {
    seen == text || (limited && |seen| == most)
  }

  // What the JSON decoder makes of a text of which it has seen this much and could go no further,
  // or did not need to.
  ghost predicate Decided(
    scan: Text -> Scan, readings: nat -> Reading, text: Text, seen: Text, limited: bool, most: int,
    value: Option<Text>, err: Option<Err>)
  {
    && seen <= text && (limited ==> |seen| <= most)
    && match scan(seen)
       case Complete(n) => 0 < n <= |seen| && value == Some(seen[..n]) && err.None?
       case Malformed => value.None? && err == Some(Leaf(SyntaxError))
       case OpenEnded =>
         || (value == Some(seen) && err.None? && (AtEnd(text, seen, limited, most) || !NoReadFails(readings)))
         || (value.None? && Failed(readings, seen, limited, most, err))
       case Incomplete =>
         || (value.None? && err == Some(EndError(seen)) && AtEnd(text, seen, limited, most))
         || (value.None? && Failed(readings, seen, limited, most, err))
  }

  ghost predicate Failed(readings: nat -> Reading, seen: Text, limited: bool, most: int, err: Option<Err>) {
    err.Some? && FromRead(readings, err.value) && (limited ==> |seen| < most)
  }

  // err is an end of file met where the limit is.
  predicate LimitMet(seen: Text, limited: bool, most: int, err: Option<Err>) {
    limited && |seen| == most && err in {Some(Leaf(Eof)), Some(Leaf(UnexpectedEof))}
  }

  lemma ContainerDecided(
    scan: Text -> Scan, readings: nat -> Reading, text: Text, seen: Text, limited: bool, most: int,
    value: Option<Text>, err: Option<Err>, n: nat)
    requires IsScanner(scan) && Decided(scan, readings, text, seen, limited, most, value, err)
    requires BeginsWithContainer(scan, text, n)
    ensures if !limited || n <= most
            then value == Some(text[..n]) || Failed(readings, seen, limited, most, err)
            else LimitMet(seen, limited, most, err) || Failed(readings, seen, limited, most, err)
  {
    ContainerSeen(scan, text, n, seen);
    assert seen == text[..|seen|];
    if n <= |seen| { assert seen[..n] == text[..n]; }
  }

  lemma ScalarDecided(
    scan: Text -> Scan, readings: nat -> Reading, text: Text, seen: Text, limited: bool, most: int,
    value: Option<Text>, err: Option<Err>, m: nat)
    requires IsScanner(scan) && Decided(scan, readings, text, seen, limited, most, value, err)
    requires BeginsWithScalar(scan, text, m) && NoReadFails(readings) && (limited ==> most >= 0)
    ensures value == ScalarCut(scan, text, m, if limited then most else m)
    ensures err.None? <==> value.Some?
    ensures err.Some? ==> LimitMet(seen, limited, most, err)
  {
    ScalarSeen(scan, text, m, seen);
    assert seen == text[..|seen|];
    if m < |seen| { assert seen[..m] == text[..m]; }
  }

  lemma ReachDecided(
    scan: Text -> Scan, readings: nat -> Reading, text: Text, seen: Text, limited: bool, most: int,
    value: Option<Text>, err: Option<Err>)
    requires IsScanner(scan) && Decided(scan, readings, text, seen, limited, most, value, err)
    requires NoReadFails(readings) && (limited ==> most >= 0)
    ensures var part := InReach(text, limited, most);
      match scan(part)
      case Complete(n) => n <= |part| && value == Some(part[..n])
      case OpenEnded => value == Some(part)
      case Malformed => err == Some(Leaf(SyntaxError))
      case Incomplete => err == Some(EndError(part)) && seen == part
  {
    var part := InReach(text, limited, most);
    assert seen == text[..|seen|];
    assert seen <= part;
    if AtEnd(text, seen, limited, most) { assert seen == part; }
    VerdictStays(scan, seen, part);
    assert scan(seen).Complete? ==> seen[..scan(seen).n] == part[..scan(seen).n];
  }

  lemma AllDecided(
    scan: Text -> Scan, readings: nat -> Reading, text: Text, seen: Text, limited: bool, most: int,
    value: Option<Text>, err: Option<Err>)
    requires IsScanner(scan) && Decided(scan, readings, text, seen, limited, most, value, err)
    requires limited ==> most >= 0
    ensures forall n: nat :: BeginsWithContainer(scan, text, n) ==>
      if !limited || n <= most
      then value == Some(text[..n]) || Failed(readings, seen, limited, most, err)
      else LimitMet(seen, limited, most, err) || Failed(readings, seen, limited, most, err)
    ensures NoReadFails(readings) ==> forall m: nat :: BeginsWithScalar(scan, text, m) ==>
      && value == ScalarCut(scan, text, m, if limited then most else m)
      && (err.Some? ==> LimitMet(seen, limited, most, err))
    ensures NoReadFails(readings) ==>
      var part := InReach(text, limited, most);
      match scan(part)
      case Complete(n) => n <= |part| && value == Some(part[..n])
      case OpenEnded => value == Some(part)
      case Malformed => err == Some(Leaf(SyntaxError))
      case Incomplete => err == Some(EndError(part)) && seen == part
    ensures value.Some? && value.value <= seen ==> IsValue(scan, value.value, seen[|value.value|..])
  {
    forall n: nat | BeginsWithContainer(scan, text, n)
      ensures if !limited || n <= most
              then value == Some(text[..n]) || Failed(readings, seen, limited, most, err)
              else LimitMet(seen, limited, most, err) || Failed(readings, seen, limited, most, err)
    {
      ContainerDecided(scan, readings, text, seen, limited, most, value, err, n);
    }
    if NoReadFails(readings) {
      forall m: nat | BeginsWithScalar(scan, text, m)
        ensures value == ScalarCut(scan, text, m, if limited then most else m)
        ensures err.Some? ==> LimitMet(seen, limited, most, err)
      {
        ScalarDecided(scan, readings, text, seen, limited, most, value, err, m);
      }
      ReachDecided(scan, readings, text, seen, limited, most, value, err);
    }
    if scan(seen).Complete? { ValueSeen(scan, seen, scan(seen).n); }
  }

  lemma ValueSeen(scan: Text -> Scan, seen: Text, n: nat)
    requires n <= |seen| && scan(seen) == Complete(n)
    ensures IsValue(scan, seen[..n], seen[n..])
  {
    var rest := seen[n..];
    assert rest[..|rest|] == rest && seen[..n] + rest == seen && |seen[..n]| == n;
  }

  // The scanner's verdict on all it may look at is that on what it has looked at, once decided.
  lemma VerdictStays(scan: Text -> Scan, part: Text, all: Text)
    requires IsScanner(scan) && part <= all
    ensures scan(part).Complete? || scan(part).Malformed? ==> scan(all) == scan(part)
  {
    assert LawfulAt(scan, part, all[|part|..]);
    assert part + all[|part|..] == all;
  }

  ghost predicate NoReadFails(readings: nat -> Reading) { forall k: nat :: readings(k).failure.None? }

  predicate Reported(failure: Err, e: Err) {
    e == failure || (failure == Leaf(Eof) && e == Leaf(UnexpectedEof))
  }

  predicate IsBlank(s: Text) { forall k :: 0 <= k < |s| ==> s[k] in " \t\r\n" }

  class StreamDecoder {
    const scan: Text -> Scan
    var limit: int         // bytes allowed per Decode, if positive
    var limited: bool      // whether reads go through the limited reader
    var remaining: int     // what the limited reader still allows
    var buffer: Text       // read but not yet decoded
    var stuck: Option<Err> // the JSON decoder repeats its first error
    var input: Text        // what the peer has yet to send before it closes
    ghost var drawn: nat   // bytes read so far

    ghost predicate Valid()
      reads this
    {
      && IsScanner(scan)
      && (limited <==> limit > 0)
      && (limited ==> remaining <= limit)
      && (limited && stuck.None? ==> |buffer| <= limit)
    }

    constructor (scan: Text -> Scan, input: Text)
      requires IsScanner(scan)
      ensures Valid() && !limited && buffer == [] && stuck.None? && this.input == input && drawn == 0
      ensures this.scan == scan
    {
      this.scan, this.input := scan, input;
      limit, limited, remaining, buffer, stuck, drawn := 0, false, 0, [], None, 0;
    }

    // A new JSON decoder replaces the old one, and with it what it had buffered.
    method SetLimit(n: int)
      requires Valid()
      modifies this
      ensures Valid() && limit == n && (limited <==> n > 0) && (limited ==> remaining == n)
      ensures buffer == [] && stuck.None? && input == old(input) && drawn == old(drawn)
    {
      limit := n;
      limited := n > 0;
      remaining := if n > 0 then n else remaining;
      buffer, stuck := [], None;
    }

    function IoErr(e: Err): Err
      reads this
    {
      if limited && remaining <= 0 && (Is(e, Eof) || Is(e, UnexpectedEof)) then Leaf(JsonTooLarge) else e
    }

    // One read through the limited reader, if there is one: an error, which is io.EOF when the
    // limit or the input is exhausted, or at least one byte.
    method Read(r: Reading) returns (err: Option<Err>)
      modifies this`buffer, this`input, this`remaining, this`drawn
      ensures old(limited && remaining <= 0) ==> err == Some(Leaf(Eof))
      ensures !old(limited && remaining <= 0) ==>
        err == if r.failure.Some? then r.failure else if old(input) == [] then Some(Leaf(Eof)) else None
      ensures err.Some? ==>
        buffer == old(buffer) && input == old(input) && drawn == old(drawn) && remaining == old(remaining)
      ensures err.None? ==>
        var m := drawn - old(drawn);
        && 0 < m <= |old(input)|
        && buffer == old(buffer) + old(input)[..m] && input == old(input)[m..]
        && (limited ==> m <= old(remaining) && remaining == old(remaining) - m)
    {
      if limited && remaining <= 0 {
        return Some(Leaf(Eof));
      }
      if r.failure.Some? {
        return r.failure;
      }
      if input == [] {
        return Some(Leaf(Eof));
      }
      var most := if limited then Min(remaining, |input|) else |input|;
      var m := Max(1, Min(r.want, most));
      buffer, input := buffer + input[..m], input[m..];
      remaining := if limited then remaining - m else remaining;
      drawn := drawn + m;
      return None;
    }

    // The JSON decoder reads only while its buffer holds no complete value.
    method Fill(readings: nat -> Reading) returns (err: Option<Err>)
      requires IsScanner(scan) && (limited ==> remaining == limit > 0 && |buffer| <= limit)
      modifies this`buffer, this`input, this`remaining, this`drawn
      ensures buffer + input == old(buffer + input)
      ensures old(drawn) <= drawn && |buffer| == |old(buffer)| + (drawn - old(drawn))
      ensures limited ==> 0 <= remaining == limit - (drawn - old(drawn))
      ensures err.Some? <==> !scan(buffer).Complete? && !scan(buffer).Malformed?
      ensures err.Some? ==>
        || (err.value == Leaf(Eof) && (input == [] || (limited && remaining == 0)))
        || ((limited ==> remaining > 0) && exists k: nat :: readings(k).failure == err)
      ensures scan(buffer).Complete? ==>
        0 < scan(buffer).n <= |buffer| && (limited ==> |buffer| - scan(buffer).n <= limit)
    {
      NothingIsIncomplete(scan);
      ghost var text := buffer + input;
      ghost var before := 0; // what the buffer held before the latest read
      var k := 0;
      err := None;
      while !scan(buffer).Complete? && !scan(buffer).Malformed?
        invariant buffer + input == text && before <= |buffer|
        invariant old(drawn) <= drawn && |buffer| == |old(buffer)| + (drawn - old(drawn))
        invariant limited ==> 0 <= remaining == limit - (drawn - old(drawn))
        invariant !scan(buffer[..before]).Complete?
        invariant limited ==> |buffer| - before <= limit
        invariant err.None?
        decreases |input|
      {
        ghost var read := buffer;
        err := Read(readings(k));
        if err.Some? {
          return;
        }
        k := k + 1;
        before := |read|;
        assert buffer[..before] == read;
      }
      if scan(buffer).Complete? { LeftoverIsRecent(scan, buffer, before); }
    }

    // The JSON decoder's own Decode. seen is all that it looks at.
    method ReadValue(readings: nat -> Reading) returns (value: Option<Text>, err: Option<Err>, ghost seen: Text)
      requires Valid() && (limited ==> remaining == limit)
      modifies this`buffer, this`input, this`remaining, this`drawn, this`stuck
      ensures Valid() && (value.Some? <==> err.None?)
      ensures old(drawn) <= drawn && (limited ==> 0 <= remaining == limit - (drawn - old(drawn)))
      ensures old(stuck).Some? ==> err == old(stuck) && drawn == old(drawn)
      ensures err.Some? ==> err == stuck
      ensures value.Some? ==> value.value + (buffer + input) == old(buffer + input) && stuck.None?
      ensures value.None? ==> buffer + input == old(buffer + input)
      ensures old(stuck).None? ==>
        && |seen| == |old(buffer)| + (drawn - old(drawn))
        && Decided(scan, readings, old(buffer + input), seen, limited, |old(buffer)| + limit, value, err)
        && (value.Some? ==> value.value + buffer == seen)
    {
      seen := [];
      if stuck.Some? {
        return None, stuck, seen;
      }
      var failure := Fill(readings);
      seen := buffer;
      assert seen[..|seen|] == seen;
      assert input == [] ==> seen == seen + input;
      assert failure.Some? ==>
        || AtEnd(old(buffer + input), seen, limited, |old(buffer)| + limit)
        || (FromRead(readings, failure.value) && !NoReadFails(readings));
      if scan(buffer).Malformed? {
        stuck := Some(Leaf(SyntaxError));
        return None, stuck, seen;
      }
      if failure.Some? && failure.value != Leaf(Eof) {
        stuck := failure;
        return None, stuck, seen;
      }
      if failure.Some? && !scan(buffer).OpenEnded? {
        stuck := Some(EndError(buffer));
        return None, stuck, seen;
      }
      var n := if failure.Some? then |buffer| else scan(buffer).n;
      value := Some(buffer[..n]);
      buffer := buffer[n..];
      return value, None, seen;
    }

    // One Decode. With a limit n it draws at most n bytes, accepts nothing longer than 2n, and,
    // unless a read fails, accepts the object or array that comes next exactly when it is no
    // longer than n bytes and those already buffered; otherwise it reports that the JSON is too
    // large. A bare number that is longer is cut there if what remains of it is a number, and the
    // rest is left for the next Decode. The error is reported only when n bytes have been drawn,
    // or when it is the reader's own. Whatever is accepted is a value, and if no read fails the
    // scanner's verdict on all that is within reach decides.
    method Decode(readings: nat -> Reading) returns (value: Option<Text>, err: Option<Err>)
      requires Valid()
      modifies this
      ensures Valid() && limit == old(limit) && limited == old(limited) && (value.Some? <==> err.None?)
      ensures old(drawn) <= drawn && (limited ==> drawn <= old(drawn) + limit)
      ensures value.Some? ==> value.value + (buffer + input) == old(buffer + input) && stuck.None?
      ensures value.None? ==> buffer + input == old(buffer + input)
      ensures limited && value.Some? ==> |value.value| <= 2 * limit
      ensures err == Some(Leaf(JsonTooLarge)) && stuck != err ==> limited && drawn == old(drawn) + limit
      ensures old(stuck).Some? ==> err == old(stuck) && drawn == old(drawn)
      ensures old(stuck).None? ==> forall n: nat :: BeginsWithContainer(scan, old(buffer + input), n) ==>
        if !limited || n <= |old(buffer)| + limit
        then value == Some(old(buffer + input)[..n]) || (err.Some? && FromRead(readings, err.value))
        else err == Some(Leaf(JsonTooLarge)) || (err.Some? && FromRead(readings, err.value))
      ensures old(stuck).None? && NoReadFails(readings) ==>
        forall m: nat :: BeginsWithScalar(scan, old(buffer + input), m) ==>
          var text := old(buffer + input);
          && value == ScalarCut(scan, text, m, if limited then |old(buffer)| + limit else m)
          && (err.Some? ==> err == Some(Leaf(JsonTooLarge)))
      ensures value.Some? ==> IsValue(scan, value.value, buffer)
      ensures old(stuck).None? && NoReadFails(readings) ==>
        var text := old(buffer + input);
        var part := InReach(text, limited, |old(buffer)| + limit);
        match scan(part)
        case Complete(n) => n <= |part| && value == Some(part[..n])
        case OpenEnded => value == Some(part)
        case Malformed => err == Some(Leaf(SyntaxError))
        case Incomplete =>
          err == Some(Leaf(
            if limited && |text| >= |old(buffer)| + limit then JsonTooLarge
            else if IsBlank(part) then Eof else UnexpectedEof))
    {
      ghost var text, most := buffer + input, |buffer| + limit;
      ghost var wasSound := stuck.None?;
      if limited {
        remaining := limit;
      }
      ghost var seen;
      value, err, seen := ReadValue(readings);
      if wasSound { AllDecided(scan, readings, text, seen, limited, most, value, err); }
      if err.Some? {
        err := Some(IoErr(err.value));
      }
    }

    // Any number of Decodes in a row: k of them draw at most k * n bytes.
    method DecodeMany(k: nat, readings: (nat, nat) -> Reading) returns (values: seq<Text>)
      requires Valid() && limited
      modifies this
      ensures Valid() && limit == old(limit) && limited
      ensures drawn <= old(drawn) + k * limit
      ensures |values| <= k && forall i :: 0 <= i < |values| ==> |values[i]| <= 2 * limit
      ensures Concat(values) + (buffer + input) == old(buffer + input)
    {
      values := [];
      for i := 0 to k
        invariant Valid() && limit == old(limit) && limited
        invariant drawn <= old(drawn) + i * limit
        invariant |values| <= i && forall j :: 0 <= j < |values| ==> |values[j]| <= 2 * limit
        invariant Concat(values) + (buffer + input) == old(buffer + input)
      {
        Distribute(i, limit);
        var value, err := Decode((m: nat) => readings(i, m));
        if value.Some? {
          ConcatGrow(values, value.value, buffer + input);
          values := values + [value.value];
        }
      }
    }
  }

  lemma Distribute(i: nat, n: int)
    ensures (i + 1) * n == i * n + n
  {}

  lemma ConcatGrow(values: seq<Text>, value: Text, rest: Text)
    ensures Concat(values + [value]) + rest == Concat(values) + (value + rest)
  {
    assert (values + [value])[..|values|] == values;
  }

  ghost function Concat(values: seq<Text>): Text {
    if values == [] then [] else Concat(values[..|values| - 1]) + values[|values| - 1]
  }

  // A scanner of objects and arrays that balances brackets outside strings. It shows that the
  // assumptions on a scanner can be met.
  datatype Lexer = Lexer(depth: nat, inString: bool, escaped: bool)

  function ScanFrom(s: Text, i: nat, lexer: Lexer): Scan
    requires i <= |s|
    decreases |s| - i
  {
    if i == |s| then Incomplete
    else if lexer.inString then
      ScanFrom(s, i + 1,
        if lexer.escaped then lexer.(escaped := false)
        else if s[i] == '\\' then lexer.(escaped := true)
        else if s[i] == '"' then lexer.(inString := false) else lexer)
    else if s[i] in "[{" then ScanFrom(s, i + 1, lexer.(depth := lexer.depth + 1))
    else if lexer.depth == 0 then (if s[i] in " \t\r\n" then ScanFrom(s, i + 1, lexer) else Malformed)
    else if s[i] in "]}" then
      (if lexer.depth == 1 then Complete(i + 1) else ScanFrom(s, i + 1, lexer.(depth := lexer.depth - 1)))
    else ScanFrom(s, i + 1, lexer.(inString := s[i] == '"'))
  }

  function ScanBrackets(s: Text): Scan { ScanFrom(s, 0, Lexer(0, false, false)) }

  lemma {:induction false} ScanExtends(s: Text, t: Text, i: nat, lexer: Lexer)
    requires i <= |s|
    ensures var short, long := ScanFrom(s, i, lexer), ScanFrom(s + t, i, lexer);
      && (short.Complete? ==> i < short.n <= |s|)
      && !short.OpenEnded?
      && (if short.Incomplete? then long.Complete? ==> |s| < long.n else long == short)
    decreases |s| - i
  {
    if i < |s| {
      assert (s + t)[i] == s[i];
      if lexer.inString {
        ScanExtends(s, t, i + 1,
          if lexer.escaped then lexer.(escaped := false)
          else if s[i] == '\\' then lexer.(escaped := true)
          else if s[i] == '"' then lexer.(inString := false) else lexer);
      } else if s[i] in "[{" {
        ScanExtends(s, t, i + 1, lexer.(depth := lexer.depth + 1));
      } else if lexer.depth == 0 {
        if s[i] in " \t\r\n" { ScanExtends(s, t, i + 1, lexer); }
      } else if s[i] in "]}" {
        if lexer.depth > 1 { ScanExtends(s, t, i + 1, lexer.(depth := lexer.depth - 1)); }
      } else {
        ScanExtends(s, t, i + 1, lexer.(inString := s[i] == '"'));
      }
    } else {
      ScanStartsAt(s + t, i, lexer);
    }
  }

  lemma {:induction false} ScanStartsAt(s: Text, i: nat, lexer: Lexer)
    requires i <= |s|
    ensures ScanFrom(s, i, lexer).Complete? ==> i < ScanFrom(s, i, lexer).n <= |s|
    decreases |s| - i
  {
    if i < |s| {
      if lexer.inString {
        ScanStartsAt(s, i + 1,
          if lexer.escaped then lexer.(escaped := false)
          else if s[i] == '\\' then lexer.(escaped := true)
          else if s[i] == '"' then lexer.(inString := false) else lexer);
      } else if s[i] in "[{" {
        ScanStartsAt(s, i + 1, lexer.(depth := lexer.depth + 1));
      } else if lexer.depth == 0 {
        if s[i] in " \t\r\n" { ScanStartsAt(s, i + 1, lexer); }
      } else if s[i] in "]}" {
        if lexer.depth > 1 { ScanStartsAt(s, i + 1, lexer.(depth := lexer.depth - 1)); }
      } else {
        ScanStartsAt(s, i + 1, lexer.(inString := s[i] == '"'));
      }
    }
  }

  lemma BracketsAreLawful()
    ensures IsScanner(ScanBrackets)
  {
    forall s, t ensures LawfulAt(ScanBrackets, s, t) {
      ScanExtends(s, t, 0, Lexer(0, false, false));
      ScanStartsAt(s + t, 0, Lexer(0, false, false));
    }
  }

  // A scanner of unsigned whole numbers.
  function ScanDigits(s: Text): Scan {
    var n := Numerals.DigitRun(s);
    if n == |s| then (if n == 0 then Incomplete else OpenEnded)
    else if n == 0 then Malformed else Complete(n)
  }

  lemma {:induction false} DigitRunExtends(s: Text, t: Text)
    ensures Numerals.DigitRun(s) < |s| ==> Numerals.DigitRun(s + t) == Numerals.DigitRun(s)
    ensures Numerals.DigitRun(s) == |s| ==> Numerals.DigitRun(s + t) >= |s|
  {
    if s != [] {
      DigitRunExtends(s[1..], t);
      assert (s + t)[1..] == s[1..] + t;
    }
  }

  lemma DigitsAreLawful()
    ensures IsScanner(ScanDigits)
  {
    forall s, t ensures LawfulAt(ScanDigits, s, t) { DigitRunExtends(s, t); }
  }

  lemma {:induction false} DigitsRun(s: Text)
    requires Numerals.AllDigits(s)
    ensures Numerals.DigitRun(s) == |s|
  {
    if s != [] { DigitsRun(s[1..]); }
  }

  lemma DigitsAreAScalar(text: Text)
    requires text != [] && Numerals.AllDigits(text)
    ensures BeginsWithScalar(ScanDigits, text, |text|)
  {
    forall k | 0 <= k <= |text| ensures Numerals.DigitRun(text[..k]) == k { DigitsRun(text[..k]); }
    assert text[..|text|] == text;
  }

  // The input on which it happens: digits alone, more than the limit allows. Two Decodes accept
  // two numbers where the peer sent one.
  method CutNumber(text: Text, limit: nat, readings: nat -> Reading) returns (first: Option<Text>, second: Option<Text>)
    requires Numerals.AllDigits(text) && 0 < limit < |text| <= 2 * limit && NoReadFails(readings)
    ensures first == Some(text[..limit]) && second == Some(text[limit..])
  {
    DigitsAreLawful();
    var decoder := new StreamDecoder(ScanDigits, text);
    decoder.SetLimit(limit);
    assert decoder.buffer + decoder.input == text;
    DigitsAreAScalar(text);
    DigitsRun(text[..limit]);
    var err: Option<Err>;
    first, err := decoder.Decode(readings);
    var rest := text[limit..];
    assert text[..limit] + (decoder.buffer + decoder.input) == text;
    assert decoder.buffer + decoder.input == rest;
    DigitsAreAScalar(rest);
    second, err := decoder.Decode(readings);
    assert rest[..|rest|] == rest;
  }
}
