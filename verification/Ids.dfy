// JSON number literals and base-10 int64 text.

module Numerals {
  import opened Prelude

  const INT64_MIN: int := -0x8000_0000_0000_0000
  const INT64_MAX: int := 0x7fff_ffff_ffff_ffff

  type int64 = n: int | INT64_MIN <= n <= INT64_MAX

  predicate IsDigit(c: char) { '0' <= c <= '9' }

  predicate AllDigits(s: string) { forall k :: 0 <= k < |s| ==> IsDigit(s[k]) }

  function DigitOf(c: char): (d: nat)
    requires IsDigit(c)
    ensures d < 10
  {
    (c as int) - ('0' as int)
  }

  function CharOf(d: nat): (c: char)
    requires d < 10
    ensures IsDigit(c) && DigitOf(c) == d
  {
    (d + ('0' as int)) as char
  }

  function ValueOf(digits: string): nat
    requires AllDigits(digits)
  {
    if digits == "" then 0
    else 10 * ValueOf(digits[..|digits| - 1]) + DigitOf(digits[|digits| - 1])
  }

  // strconv.ParseInt(s, 10, 64): None stands for its syntax and range errors.
  function ParseInt64(s: string): Option<int64> {
    if s == "" then None
    else if s[0] == '-' then ParseMagnitude(s[1..], true)
    else if s[0] == '+' then ParseMagnitude(s[1..], false)
    else ParseMagnitude(s, false)
  }

  function ParseMagnitude(digits: string, negative: bool): Option<int64> {
    if digits == "" || !AllDigits(digits) then None
    else
      var n: int := if negative then 0 - ValueOf(digits) else ValueOf(digits);
      if INT64_MIN <= n <= INT64_MAX then Some(n) else None
  }

  // strconv.FormatInt(n, 10).
  function PrintNat(n: nat): (s: string)
    ensures s != "" && AllDigits(s)
  {
    if n < 10 then [CharOf(n)] else PrintNat(n / 10) + [CharOf(n % 10)]
  }

  function PrintInt64(n: int64): string {
    if n < 0 then "-" + PrintNat(0 - n) else PrintNat(n)
  }

  // Number literals of JSON: section 6 of RFC 8259.
  function DigitRun(s: string): (n: nat)
    ensures n <= |s| && AllDigits(s[..n]) && (n < |s| ==> !IsDigit(s[n]))
  {
    if s == "" || !IsDigit(s[0]) then 0
    else
      var rest := DigitRun(s[1..]);
      assert s[..rest + 1] == [s[0]] + s[1..][..rest];
      rest + 1
  }

  predicate IsJsonNumber(s: string) {
    var unsigned := if s != "" && s[0] == '-' then s[1..] else s;
    var i := DigitRun(unsigned);
    i > 0 && (unsigned[0] == '0' ==> i == 1) && IsFractionAndExponent(unsigned[i..])
  }

  predicate IsFractionAndExponent(s: string) {
    if s != "" && s[0] == '.' then
      var i := DigitRun(s[1..]);
      i > 0 && IsExponent(s[1 + i..])
    else
      IsExponent(s)
  }

  predicate IsExponent(s: string) {
    s == "" ||
    ( && s[0] in "eE"
      && var digits := if |s| > 1 && s[1] in "+-" then s[2..] else s[1..];
      digits != "" && AllDigits(digits))
  }

  // Decimal digits without a superfluous leading zero.
  predicate IsCanonical(digits: string) {
    digits != "" && AllDigits(digits) && (|digits| > 1 ==> digits[0] != '0')
  }

  lemma {:induction false} PrintNatParses(n: nat)
    ensures ValueOf(PrintNat(n)) == n
    ensures IsCanonical(PrintNat(n))
    ensures n > 0 ==> PrintNat(n)[0] != '0'
  {
    if n >= 10 {
      PrintNatParses(n / 10);
      var s := PrintNat(n);
      assert s[..|s| - 1] == PrintNat(n / 10);
      assert s[0] == PrintNat(n / 10)[0];
    }
  }

  // Printing then parsing is the identity on int64, and printing yields a literal of JSON.
  lemma ParsePrinted(n: int64)
    ensures ParseInt64(PrintInt64(n)) == Some(n)
    ensures IsJsonNumber(PrintInt64(n)) && PrintInt64(n) != "-0"
  {
    var m: nat := if n < 0 then 0 - n else n;
    PrintNatParses(m);
    var digits := PrintNat(m);
    if n < 0 {
      assert PrintInt64(n)[1..] == digits;
      assert digits[0] != '0' && "-0"[1..] == "0";
    }
    assert DigitRun(digits) == |digits| && digits[|digits|..] == "";
    assert digits[0] == '0' ==> |digits| == 1;
  }

  lemma {:induction false} ValueHasLength(digits: string)
    requires IsCanonical(digits) && |digits| > 1
    ensures ValueOf(digits) >= 10
  {
    var front := digits[..|digits| - 1];
    if |front| > 1 {
      ValueHasLength(front);
    } else {
      assert front == [digits[0]];
      assert ValueOf(front) == 10 * ValueOf(front[..0]) + DigitOf(front[0]);
    }
  }

  lemma {:induction false} ValueInjective(a: string, b: string)
    requires IsCanonical(a) && IsCanonical(b) && ValueOf(a) == ValueOf(b)
    ensures a == b
    decreases |a|
  {
    if |a| == 1 && |b| == 1 {
      assert ValueOf(a) == 10 * ValueOf(a[..0]) + DigitOf(a[0]);
      assert ValueOf(b) == 10 * ValueOf(b[..0]) + DigitOf(b[0]);
    } else if |a| == 1 {
      ValueHasLength(b);
      assert false;
    } else if |b| == 1 {
      ValueHasLength(a);
      assert false;
    } else {
      var fa, fb := a[..|a| - 1], b[..|b| - 1];
      assert ValueOf(fa) == ValueOf(fb);
      ValueInjective(fa, fb);
      assert a == fa + [a[|a| - 1]] && b == fb + [b[|b| - 1]];
    }
  }

  function Zeros(k: nat): (s: string)
    ensures |s| == k && AllDigits(s)
  {
    seq(k, _ => '0')
  }

  lemma {:induction false} LeadingZeros(k: nat, digits: string)
    requires AllDigits(digits)
    ensures ValueOf(Zeros(k) + digits) == ValueOf(digits)
  {
    var s := Zeros(k) + digits;
    if digits != "" {
      var n := |digits| - 1;
      LeadingZeros(k, digits[..n]);
      assert s[..|s| - 1] == Zeros(k) + digits[..n];
    } else if k > 0 {
      LeadingZeros(k - 1, "");
      assert s[..|s| - 1] == Zeros(k - 1) + "";
    }
  }

  // Any digits are zeros followed by the canonical digits of their value.
  lemma {:induction false} DigitsAreZerosAndCanonical(digits: string) returns (k: nat)
    requires digits != "" && AllDigits(digits)
    ensures digits == Zeros(k) + PrintNat(ValueOf(digits))
  {
    if IsCanonical(digits) {
      k := 0;
      PrintNatParses(ValueOf(digits));
      ValueInjective(digits, PrintNat(ValueOf(digits)));
    } else {
      var j := DigitsAreZerosAndCanonical(digits[1..]);
      k := j + 1;
      assert digits == "0" + digits[1..] && Zeros(k) == "0" + Zeros(j);
      assert digits == Zeros(1) + digits[1..];
      LeadingZeros(1, digits[1..]);
    }
  }

  function Magnitude(n: int64): nat { if n < 0 then 0 - n else n }

  // s is n in base 10: a sign, any zeros and its digits. Zero may have either sign.
  ghost predicate Spells(s: string, n: int64, sign: string, k: nat) {
    && s == sign + Zeros(k) + PrintNat(Magnitude(n))
    && (sign == "-" || sign == "+" || sign == "")
    && (n > 0 ==> sign != "-") && (n < 0 ==> sign == "-")
  }

  lemma ParsedParts(s: string, n: int64) returns (sign: string, digits: string)
    requires ParseInt64(s) == Some(n)
    ensures s == sign + digits && digits != "" && AllDigits(digits) && ValueOf(digits) == Magnitude(n)
    ensures sign == "-" || sign == "+" || sign == ""
    ensures (n > 0 ==> sign != "-") && (n < 0 ==> sign == "-")
  {
    sign := if s[0] == '-' then "-" else if s[0] == '+' then "+" else "";
    digits := s[|sign|..];
  }

  lemma ParsedIsSpelt(s: string, n: int64) returns (sign: string, k: nat)
    requires ParseInt64(s) == Some(n)
    ensures Spells(s, n, sign, k)
  {
    var digits;
    sign, digits := ParsedParts(s, n);
    k := DigitsAreZerosAndCanonical(digits);
    assert sign + digits == sign + Zeros(k) + PrintNat(Magnitude(n));
  }

  lemma ZerosAndDigits(n: int64, k: nat) returns (digits: string)
    ensures digits == Zeros(k) + PrintNat(Magnitude(n))
    ensures digits != "" && AllDigits(digits) && ValueOf(digits) == Magnitude(n)
  {
    digits := Zeros(k) + PrintNat(Magnitude(n));
    LeadingZeros(k, PrintNat(Magnitude(n)));
    PrintNatParses(Magnitude(n));
  }

  lemma SpeltIsParsed(s: string, n: int64, sign: string, k: nat)
    requires Spells(s, n, sign, k)
    ensures ParseInt64(s) == Some(n)
  {
    var digits := ZerosAndDigits(n, k);
    assert s == sign + digits by { assert sign + Zeros(k) + PrintNat(Magnitude(n)) == sign + digits; }
    SignedParses(s, n, sign, digits);
  }

  lemma SignedParses(s: string, n: int64, sign: string, digits: string)
    requires s == sign + digits && digits != "" && AllDigits(digits) && ValueOf(digits) == Magnitude(n)
    requires sign == "-" || sign == "+" || sign == ""
    requires (n > 0 ==> sign != "-") && (n < 0 ==> sign == "-")
    ensures ParseInt64(s) == Some(n)
  {
    assert s[|sign|..] == digits;
    if sign == "" { assert IsDigit(s[0]); }
  }

  // The texts that parse as n are exactly those that spell it.
  lemma ParsesExactly(s: string, n: int64)
    ensures ParseInt64(s) == Some(n) <==> exists sign, k :: Spells(s, n, sign, k)
  {
    if ParseInt64(s) == Some(n) {
      var sign, k := ParsedIsSpelt(s, n);
    }
    if sign, k :| Spells(s, n, sign, k) { SpeltIsParsed(s, n, sign, k); }
  }

  // A literal of JSON that parses as an int64 is an optional minus sign and canonical digits.
  lemma ParsedLiteralIsCanonical(s: string)
    requires IsJsonNumber(s) && ParseInt64(s).Some?
    ensures s[0] == '-' ==> IsCanonical(s[1..])
    ensures s[0] != '-' ==> IsCanonical(s)
  {
    var unsigned := if s[0] == '-' then s[1..] else s;
    if s[0] == '+' {
      assert false;
    } else {
      assert AllDigits(unsigned);
      assert DigitRun(unsigned) == |unsigned|;
    }
  }

  // Base-10 parsing is injective on the literals of JSON other than -0.
  lemma ParseInjective(a: string, b: string)
    requires IsJsonNumber(a) && IsJsonNumber(b) && a != "-0" && b != "-0"
    requires ParseInt64(a).Some? && ParseInt64(a) == ParseInt64(b)
    ensures a == b
  {
    ParsedLiteralIsCanonical(a);
    ParsedLiteralIsCanonical(b);
    var ua := if a[0] == '-' then a[1..] else a;
    var ub := if b[0] == '-' then b[1..] else b;
    if a[0] == '-' { assert a == "-" + ua; }
    if b[0] == '-' { assert b == "-" + ub; }
    if (a[0] == '-') == (b[0] == '-') {
      ValueInjective(ua, ub);
    } else {
      assert ValueOf(ua) == 0 && ValueOf(ub) == 0;
      assert ValueOf("0") == 10 * ValueOf("") + 0;
      ValueInjective(ua, "0");
      ValueInjective(ub, "0");
      assert false;
    }
  }
}

// JSON-RPC message identifiers.
module Ids {
  import opened Prelude
  import opened Numerals

  // What an ID holds: nil, a string, an int64, or the text of a JSON number.
  datatype Value = Nil | Text(text: string) | Integer(n: int64) | Number(literal: string)

  // Go's == on two IDs is equality of this datatype; Equal is the weaker JSON-RPC comparison.
  datatype ID = ID(value: Value, present: bool) {
    predicate IsZero() { !present }

    predicate IsNull() { present && value.Nil? }

    function AsText(): Option<string> {
      if present && value.Text? then Some(value.text) else None
    }

    function AsNumber(): Option<string> {
      if present && value.Number? then Some(value.literal) else None
    }

    function AsInt64(): Option<int64> {
      if !present then None
      else match value
        case Integer(n) => Some(n)
        case Number(literal) => ParseInt64(literal)
        case _ => None
    }

    predicate Equal(t: ID) {
      if IsZero() || t.IsZero() then false
      else if IsNull() then t.IsNull()
      else match value
        case Nil => false
        case Number(literal) =>
          if t.AsNumber().Some? then literal == t.AsNumber().value
          else t.AsInt64().Some? && ParseInt64(literal).Some? && ParseInt64(literal).value == t.AsInt64().value
        case Integer(n) => t.AsInt64().Some? && n == t.AsInt64().value
        case Text(text) => t.AsText().Some? && text == t.AsText().value
    }
  }

  const ZERO_ID := ID(Nil, false)
  const NULL_ID := ID(Nil, true)

  // Every number the ID holds is a literal of JSON other than -0, or an int64.
  predicate IsPlain(id: ID) {
    id.value.Number? ==> IsJsonNumber(id.value.literal) && id.value.literal != "-0"
  }

  lemma EqualSymmetric(a: ID, b: ID)
    ensures a.Equal(b) == b.Equal(a)
  {}

  lemma EqualReflexiveIffPresent(a: ID)
    ensures a.Equal(a) <==> a.present
  {}

  // When Equal fails to be transitive: exactly when an int64 links two different literals.
  lemma EqualTransitiveExactly(a: ID, b: ID, c: ID)
    requires a.Equal(b) && b.Equal(c)
    ensures a.Equal(c) <==> !(a.value.Number? && b.value.Integer? && c.value.Number? && a.value != c.value)
  {}

  // Two present IDs are Equal exactly when both are null, both the same string, both the same
  // number text, or one is an int64 and the other an int64 or text of the same value.
  lemma EqualExactly(a: ID, b: ID)
    requires a.present && b.present
    ensures a.Equal(b) <==>
      || (a.value.Nil? && b.value.Nil?)
      || (a.value.Text? && a.value == b.value)
      || (a.value.Number? && a.value == b.value)
      || (a.value.Integer? && a.value == b.value)
      || (a.value.Integer? && b.value.Number? && ParseInt64(b.value.literal) == Some(a.value.n))
      || (a.value.Number? && b.value.Integer? && ParseInt64(a.value.literal) == Some(b.value.n))
  {}

  lemma NegativeZeroBreaksTransitivity()
    ensures var a, b, c := ID(Number("-0"), true), ID(Integer(0), true), ID(Number("0"), true);
      a.Equal(b) && b.Equal(c) && !a.Equal(c) && IsJsonNumber("-0") && IsJsonNumber("0")
  {
    assert "-0"[1..] == "0";
    assert ValueOf("0") == 10 * ValueOf("") + 0;
    assert DigitRun("0") == 1;
  }

  // What an ID denotes: numbers denote their int64 value, or their text when there is none.
  datatype Denotation = Nothing | Null | Characters(text: string) | Whole(n: int64) | Other(literal: string)

  function Denotes(id: ID): Denotation {
    if !id.present then Nothing
    else match id.value
      case Nil => Null
      case Text(text) => Characters(text)
      case Integer(n) => Whole(n)
      case Number(literal) =>
        if ParseInt64(literal).Some? then Whole(ParseInt64(literal).value) else Other(literal)
  }

  // On plain IDs, Equal is equality of denotations, hence an equivalence on the present ones.
  lemma EqualIsSameDenotation(a: ID, b: ID)
    requires IsPlain(a) && IsPlain(b)
    ensures a.Equal(b) <==> a.present && b.present && Denotes(a) == Denotes(b)
  {
    if a.value.Number? && b.value.Number?
       && ParseInt64(a.value.literal).Some? && ParseInt64(a.value.literal) == ParseInt64(b.value.literal) {
      ParseInjective(a.value.literal, b.value.literal);
    }
  }

  lemma EqualTransitive(a: ID, b: ID, c: ID)
    requires IsPlain(a) && IsPlain(b) && IsPlain(c)
    requires a.Equal(b) && b.Equal(c)
    ensures a.Equal(c)
  {
    EqualIsSameDenotation(a, b);
    EqualIsSameDenotation(b, c);
    EqualIsSameDenotation(a, c);
  }

  // Two plain IDs that both match, or are both matched by, a third are Equal to each other.
  lemma EqualVia(a: ID, b: ID, via: ID)
    requires IsPlain(a) && IsPlain(b) && IsPlain(via)
    requires a.Equal(via) || via.Equal(a)
    requires b.Equal(via) || via.Equal(b)
    ensures a.Equal(b) && b.Equal(a)
  {
    EqualIsSameDenotation(a, via);
    EqualIsSameDenotation(via, a);
    EqualIsSameDenotation(b, via);
    EqualIsSameDenotation(via, b);
    EqualIsSameDenotation(a, b);
    EqualIsSameDenotation(b, a);
  }

  // The JSON values that matter to an ID.
  datatype Json = JNull | JString(text: string) | JNumber(literal: string) | JOther

  // MarshalJSON; encoding/json writes an empty json.Number as 0 and refuses other malformed ones.
  function Marshalled(id: ID): Option<Json> {
    if !id.present || id.value.Nil? then Some(JNull)
    else match id.value
      case Text(text) => Some(JString(text))
      case Integer(n) => Some(JNumber(PrintInt64(n)))
      case Number(literal) =>
        if literal == "" then Some(JNumber("0"))
        else if IsJsonNumber(literal) then Some(JNumber(literal)) else None
  }

  // The ID that UnmarshalJSON leaves behind; None is its error.
  function Unmarshalled(before: ID, data: Json): Option<ID> {
    match data
    case JNull => Some(before.(present := true))
    case JString(text) => Some(ID(Text(text), true))
    case JNumber(literal) => Some(ID(Number(literal), true))
    case JOther => None
  }

  class IdField {
    var value: Value
    var present: bool

    constructor ()
      ensures Current() == ZERO_ID
    {
      value, present := Nil, false;
    }

    function Current(): ID
      reads this
    {
      ID(value, present)
    }

    method UnmarshalJSON(data: Json) returns (ok: bool)
      modifies this
      ensures ok == Unmarshalled(old(Current()), data).Some?
      ensures ok ==> Current() == Unmarshalled(old(Current()), data).value
      ensures !ok ==> Current() == old(Current())
    {
      match data
      case JNull => present := true; return true;
      case JString(text) => value := Text(text); present := true; return true;
      case JNumber(literal) => value := Number(literal); present := true; return true;
      case JOther => return false;
    }
  }

  // Sending an ID and decoding it into a fresh field gives back an Equal ID, except for
  // the zero ID, which comes back as null, and the empty number, which comes back as 0.
  lemma MarshalRoundTrip(id: ID)
    requires Marshalled(id).Some?
    ensures var back := Unmarshalled(ZERO_ID, Marshalled(id).value);
      && back.Some? && back.value.present && back.value != ZERO_ID
      && (back.value.Equal(id) <==> id.present && id.value != Number(""))
      && (IsPlain(id) ==> IsPlain(back.value))
  {
    if id.value.Integer? { ParsePrinted(id.value.n); }
  }

  // Which IDs encode, and to what: the zero and the null ID to null.
  lemma MarshalExactly(id: ID)
    ensures Marshalled(id).None? <==>
      id.present && id.value.Number? && id.value.literal != "" && !IsJsonNumber(id.value.literal)
    ensures Marshalled(id) == Some(JNull) <==> id.IsZero() || id.IsNull()
    ensures id.present && id.value.Number? && Marshalled(id).Some? ==>
      Marshalled(id).value == JNumber(if id.value.literal == "" then "0" else id.value.literal)
  {}

  // Decoding null into a field yields the null ID exactly when the field held no value before.
  lemma NullKeepsStaleValue(before: ID)
    ensures Unmarshalled(before, JNull).Some?
    ensures Unmarshalled(before, JNull).value.IsNull() <==> before.value.Nil?
    ensures !before.value.Nil? ==> Unmarshalled(before, JNull).value == before.(present := true)
  {}

  // A field that any JSON values are decoded into, one after the other; an error leaves it alone.
  function FieldAfter(datas: seq<Json>): ID {
    if datas == [] then ZERO_ID
    else
      var before := FieldAfter(datas[..|datas| - 1]);
      var after := Unmarshalled(before, datas[|datas| - 1]);
      if after.None? then before else after.value
  }

  predicate All(datas: seq<Json>, p: Json -> bool) { forall k :: 0 <= k < |datas| ==> p(datas[k]) }

  lemma AllButLast(datas: seq<Json>, p: Json -> bool)
    requires datas != []
    ensures All(datas, p) <==> All(datas[..|datas| - 1], p) && p(datas[|datas| - 1])
  {}

  predicate IsUndecodable(data: Json) { data.JOther? }

  predicate IsNotNull(data: Json) { !data.JNull? }

  predicate HasNoContent(data: Json) { data.JNull? || data.JOther? }

  // A reused field is the null ID exactly when it has been given null and never, even long
  // before, a string or a number.
  lemma {:induction false} ReusedFieldIsNullExactly(datas: seq<Json>)
    ensures FieldAfter(datas).IsNull() <==> !All(datas, IsNotNull) && All(datas, HasNoContent)
    ensures FieldAfter(datas).IsZero() <==> All(datas, IsUndecodable)
    ensures FieldAfter(datas).value.Nil? <==> All(datas, HasNoContent)
  {
    if datas != [] {
      ReusedFieldIsNullExactly(datas[..|datas| - 1]);
      NullKeepsStaleValue(FieldAfter(datas[..|datas| - 1]));
      AllButLast(datas, IsUndecodable);
      AllButLast(datas, IsNotNull);
      AllButLast(datas, HasNoContent);
    }
  }
}
