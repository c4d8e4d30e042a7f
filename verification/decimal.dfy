/**
  Decimal text for integers, the three conversions the front end relies on:
  - `bigint.toString()` and `String(n)`: the shortest decimal rendering, with a
    leading '-' for negative values (IntToString, NatToString);
  - `BigInt(text)`: the whole text must be an integer literal, otherwise it
    throws (ParseBigInt, None standing for the thrown SyntaxError);
  - `parseInt(text)`: reads the longest leading integer and ignores the rest,
    giving NaN when there is none (ParseInt, None standing for NaN).
  Only decimal literals are modelled; whitespace trimming and the 0x/0o/0b
  prefixes are not.
 */
module Decimal {
  import opened Wrappers

  predicate IsDigit(c: char) {
    '0' <= c <= '9'
  }

  predicate AllDigits(s: string) {
    forall i :: 0 <= i < |s| ==> IsDigit(s[i])
  }

  function DigitValue(c: char): (d: nat)
    requires IsDigit(c)
    ensures d < 10
  {
    c as int - '0' as int
  }

  function DigitChar(d: nat): (c: char)
    requires d < 10
    ensures IsDigit(c) && DigitValue(c) == d
    ensures c == '0' <==> d == 0
  {
    ('0' as int + d) as char
  }

  /** The value of a run of decimal digits, most significant first; leading zeros are allowed. */
  function DigitsValue(s: string): nat
    requires AllDigits(s)
  {
    if s == [] then 0 else DigitsValue(s[..|s| - 1]) * 10 + DigitValue(s[|s| - 1])
  }

  /** Shortest decimal rendering of a natural number: digits only, never a leading zero except for "0" itself. */
  function NatToString(n: nat): (s: string)
    ensures |s| > 0 && AllDigits(s)
    ensures s[0] == '0' <==> n == 0
    ensures n == 0 ==> s == "0"
  {
    if n < 10 then [DigitChar(n)] else NatToString(n / 10) + [DigitChar(n % 10)]
  }

  /** `bigint.toString()`: a '-' in front of the magnitude for negative values. */
  function IntToString(n: int): (s: string)
    ensures |s| > 0
    ensures s[0] == '-' <==> n < 0
    ensures Canonical(s)
  {
    if n < 0 then "-" + NatToString(-n) else NatToString(n)
  }

  /** A run of digits with no superfluous leading zero. */
  predicate CanonicalNat(s: string) {
    |s| > 0 && AllDigits(s) && (s[0] == '0' ==> |s| == 1)
  }

  /** The texts `toString` can produce: a canonical run of digits, or '-' before one that is not "0". */
  predicate Canonical(s: string) {
    CanonicalNat(s) || (|s| > 1 && s[0] == '-' && CanonicalNat(s[1..]) && s[1] != '0')
  }

  /**
    `BigInt(text)` for decimal literals: the empty text is 0, otherwise an
    optional sign followed by at least one digit and nothing else.
   */
  function ParseBigInt(s: string): (r: Option<int>)
    ensures r.Some? <==> s == "" || AllDigits(s) || (|s| > 1 && (s[0] == '-' || s[0] == '+') && AllDigits(s[1..]))
    ensures r.Some? && r.value < 0 ==> |s| > 0 && s[0] == '-'
  {
    if s == "" then Some(0)
    else if s[0] == '-' || s[0] == '+' then
      var body := s[1..];
      if body != "" && AllDigits(body) then
        var magnitude: int := DigitsValue(body);
        Some(if s[0] == '-' then -magnitude else magnitude)
      else None
    else if AllDigits(s) then Some(DigitsValue(s))
    else None
  }

  /** The longest prefix of `s` made of digits. */
  function LeadingDigits(s: string): (p: string)
    ensures AllDigits(p) && |p| <= |s| && p == s[..|p|]
    ensures |p| < |s| ==> !IsDigit(s[|p|])
  {
    if s != [] && IsDigit(s[0]) then [s[0]] + LeadingDigits(s[1..]) else []
  }

  /** `parseInt(text)` in base ten: an optional sign, then the longest run of digits; None is NaN. */
  function ParseInt(s: string): (r: Option<int>)
    ensures r.Some? <==> |s| > 0 && (IsDigit(s[0]) || (|s| > 1 && (s[0] == '-' || s[0] == '+') && IsDigit(s[1])))
    ensures r.Some? && r.value < 0 ==> s[0] == '-'
  {
    var signed := s != "" && (s[0] == '-' || s[0] == '+');
    var digits := LeadingDigits(if signed then s[1..] else s);
    if digits == "" then None
    else
      var magnitude: int := DigitsValue(digits);
      Some(if signed && s[0] == '-' then -magnitude else magnitude)
  }

  /** Reading back the digits of NatToString gives the number. */
  lemma {:induction false} NatToStringValue(n: nat)
    ensures DigitsValue(NatToString(n)) == n
  {
    var s := NatToString(n);
    if n < 10 {
      assert s[..|s| - 1] == [];
    } else {
      assert s[..|s| - 1] == NatToString(n / 10);
      NatToStringValue(n / 10);
    }
  }

  /** `BigInt(n.toString()) == n` for every integer. */
  lemma ParseBigIntOfToString(n: int)
    ensures ParseBigInt(IntToString(n)) == Some(n)
  {
    var s := IntToString(n);
    if n < 0 {
      assert s[0] == '-' && s[1..] == NatToString(-n);
      NatToStringValue(-n);
    } else {
      assert s == NatToString(n) && IsDigit(s[0]);
      NatToStringValue(n);
    }
  }

  /** A canonical run of digits is the rendering of its own value. */
  lemma {:induction false} CanonicalNatValue(s: string)
    requires CanonicalNat(s)
    ensures NatToString(DigitsValue(s)) == s
  {
    var last := |s| - 1;
    if last == 0 {
      assert DigitsValue(s) == DigitValue(s[0]);
    } else {
      var front := s[..last];
      assert front[0] == s[0];
      CanonicalNatValue(front);
      assert DigitsValue(front) != 0;
      assert s == front + [s[last]];
    }
  }

  /** `IntToString(n)` is the only canonical text that `BigInt` reads as n. */
  lemma CanonicalUnique(s: string, n: int)
    requires Canonical(s) && ParseBigInt(s) == Some(n)
    ensures s == IntToString(n)
  {
    if CanonicalNat(s) {
      CanonicalNatValue(s);
    } else {
      CanonicalNatValue(s[1..]);
      assert s == "-" + s[1..];
    }
  }

  /** A run made only of digits is its own longest digit prefix. */
  lemma {:induction false} LeadingDigitsOfDigits(s: string)
    requires AllDigits(s)
    ensures LeadingDigits(s) == s
  {
    if s != [] {
      LeadingDigitsOfDigits(s[1..]);
    }
  }

  /** `parseInt` reads back every decimal literal that `BigInt` accepts, except the empty text, which is NaN for `parseInt`. */
  lemma ParseIntAgreesWithBigInt(s: string)
    requires ParseBigInt(s).Some?
    ensures s == "" ==> ParseInt(s) == None
    ensures s != "" ==> ParseInt(s) == ParseBigInt(s)
  {
    if s != "" {
      if s[0] == '-' || s[0] == '+' {
        LeadingDigitsOfDigits(s[1..]);
      } else {
        LeadingDigitsOfDigits(s);
      }
    }
  }

  /** `parseInt(String(n)) == n` for every integer. */
  lemma ParseIntOfToString(n: int)
    ensures ParseInt(IntToString(n)) == Some(n)
  {
    ParseBigIntOfToString(n);
    ParseIntAgreesWithBigInt(IntToString(n));
  }

  /** `parseInt` ignores whatever follows the leading integer. */
  lemma ParseIntIgnoresSuffix(s: string, rest: string)
    requires ParseBigInt(s).Some? && s != ""
    requires rest == [] || !IsDigit(rest[0])
    ensures ParseInt(s + rest) == ParseBigInt(s)
  {
    var signed := s[0] == '-' || s[0] == '+';
    var body := if signed then s[1..] else s;
    assert (s + rest)[0] == s[0];
    assert (if signed then (s + rest)[1..] else s + rest) == body + rest;
    LeadingDigitsOfRun(body, rest);
  }

  /** The longest digit prefix stops where the run of digits does. */
  lemma {:induction false} LeadingDigitsOfRun(s: string, rest: string)
    requires AllDigits(s)
    requires rest == [] || !IsDigit(rest[0])
    ensures LeadingDigits(s + rest) == s
  {
    if s != [] {
      assert (s + rest)[1..] == s[1..] + rest;
      LeadingDigitsOfRun(s[1..], rest);
    } else {
      assert s + rest == rest;
    }
  }
}
