/** Decimal digits: the `strconv.Atoi` conversion the parser applies to an
    accumulated digit run, and the `%d` formatting used by `SemanticString`. */
module Decimal {
  import opened Results

  predicate IsDigit(c: char) {
    '0' <= c <= '9'
  }

  predicate AllDigits(s: string) {
    forall i :: 0 <= i < |s| ==> IsDigit(s[i])
  }

  function DigitValue(c: char): nat
    requires IsDigit(c)
  {
    c as int - '0' as int
  }

  function DigitChar(d: nat): (c: char)
    requires d < 10
    ensures IsDigit(c) && DigitValue(c) == d
  {
    ('0' as int + d) as char
  }

  /** The number a run of decimal digits denotes (leading zeros allowed). */
  function Value(s: string): nat
    requires AllDigits(s)
  {
    if s == [] then 0 else Value(s[..|s| - 1]) * 10 + DigitValue(s[|s| - 1])
  }

  /** The value of a two-digit run. */
  lemma ValueOfTwoDigits(s: string)
    requires |s| == 2 && AllDigits(s)
    ensures Value(s) == DigitValue(s[0]) * 10 + DigitValue(s[1])
  {
    var first := s[..1];
    assert first[..0] == [] && first[0] == s[0];
    assert Value(first) == DigitValue(s[0]);
  }

  /** `strconv.Atoi` on the strings the parser can hand it: a non-empty run of
      digits converts, anything else is an error. */
  function Atoi(s: string): (r: Option<nat>)
    ensures r.Some? <==> |s| > 0 && AllDigits(s)
    ensures r.Some? ==> r.value == Value(s)
  {
    if |s| > 0 && AllDigits(s) then Some(Value(s)) else None
  }

  /** `%d` formatting of a non-negative number: the shortest decimal spelling. */
  function FormatNat(n: nat): (r: string)
    ensures |r| > 0 && AllDigits(r)
    ensures Value(r) == n
    ensures r[0] == '0' ==> n == 0 && r == "0"
  {
    if n < 10 then
      [DigitChar(n)]
    else
      var r := FormatNat(n / 10) + [DigitChar(n % 10)];
      assert r[..|r| - 1] == FormatNat(n / 10);
      r
  }

  /** The length of the longest prefix of `s` made of digits. */
  function DigitRun(s: string): (k: nat)
    ensures k <= |s|
    ensures AllDigits(s[..k])
    ensures k < |s| ==> !IsDigit(s[k])
  {
    if s == [] || !IsDigit(s[0]) then 0
    else
      var k := 1 + DigitRun(s[1..]);
      assert s[..k] == [s[0]] + s[1..][..k - 1];
      k
  }

  /** A digit run followed by nothing or by a non-digit is measured exactly. */
  lemma {:induction false} DigitRunOfDigitsThen(d: string, t: string)
    requires AllDigits(d)
    requires t == [] || !IsDigit(t[0])
    ensures DigitRun(d + t) == |d|
  {
    if d != [] {
      assert (d + t)[1..] == d[1..] + t;
      DigitRunOfDigitsThen(d[1..], t);
    } else {
      assert d + t == t;
    }
  }
}
