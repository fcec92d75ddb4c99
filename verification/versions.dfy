/** The `Version` value, its ordering (`Compare`, `Less`) and its textual forms
    (`SemanticString`, `String`). */
module Versions {
  import opened Decimal

  /** A dotted version. `text` is the input it was parsed from, or empty when
      the value was built directly. */
  datatype Version = Version(major: nat, minor: nat, patch: nat, extension: string, text: string)

  /** The part of a version that takes part in ordering, most significant first. */
  function Key(v: Version): seq<nat> {
    [v.major, v.minor, v.patch]
  }

  /** Strict lexicographic order on sequences of numbers: the reference order
      that `Compare` is measured against. */
  predicate LexLess(x: seq<nat>, y: seq<nat>) {
    |x| > 0 && |y| > 0 && (x[0] < y[0] || (x[0] == y[0] && LexLess(x[1..], y[1..])))
  }

  /** On version keys the lexicographic order compares major, then minor, then
      patch. */
  lemma {:induction false} LexLessOnKeys(a: Version, b: Version)
    ensures LexLess(Key(a), Key(b)) <==>
      a.major < b.major
      || (a.major == b.major && a.minor < b.minor)
      || (a.major == b.major && a.minor == b.minor && a.patch < b.patch)
  {
    var x2, y2 := [a.minor, a.patch], [b.minor, b.patch];
    var x3, y3 := [a.patch], [b.patch];
    assert Key(a)[1..] == x2 && Key(b)[1..] == y2;
    assert x2[1..] == x3 && y2[1..] == y3;
    assert !LexLess(x3[1..], y3[1..]);
    assert LexLess(x3, y3) <==> a.patch < b.patch;
    assert LexLess(x2, y2) <==> a.minor < b.minor || (a.minor == b.minor && LexLess(x3, y3));
  }

  /** `Compare`: -1, 0 or 1 as `a` orders before, with, or after `b`; only
      major, minor and patch are looked at. */
  function Compare(a: Version, b: Version): (r: int)
    ensures r == -1 || r == 0 || r == 1
    ensures r == 0 <==> Key(a) == Key(b)
    ensures r == -1 <==> LexLess(Key(a), Key(b))
    ensures r == 1 <==> LexLess(Key(b), Key(a))
  {
    LexLessOnKeys(a, b);
    LexLessOnKeys(b, a);
    if a.major == b.major then
      if a.minor == b.minor then
        if a.patch == b.patch then 0
        else if a.patch > b.patch then 1
        else -1
      else if a.minor > b.minor then 1
      else -1
    else if a.major > b.major then 1
    else -1
  }

  /** `Less`: `a` orders strictly before `b`. */
  function Less(a: Version, b: Version): (r: bool)
    ensures r <==> LexLess(Key(a), Key(b))
    ensures r ==> Compare(b, a) == 1
  {
    Compare(a, b) < 0
  }

  lemma CompareReflexive(a: Version)
    ensures Compare(a, a) == 0
  {
  }

  lemma CompareAntisymmetric(a: Version, b: Version)
    ensures Compare(a, b) == -Compare(b, a)
  {
  }

  /** Extension and original text never influence the order. */
  lemma CompareIgnoresExtensionAndText(a: Version, b: Version, e: string, t: string)
    ensures Compare(a.(extension := e, text := t), b) == Compare(a, b)
    ensures Compare(a, b.(extension := e, text := t)) == Compare(a, b)
  {
  }

  /** Both "at most" and "strictly before" chain. */
  lemma CompareTransitive(a: Version, b: Version, c: Version)
    ensures Compare(a, b) <= 0 && Compare(b, c) <= 0 ==> Compare(a, c) <= 0
    ensures Compare(a, b) < 0 && Compare(b, c) <= 0 ==> Compare(a, c) < 0
    ensures Compare(a, b) <= 0 && Compare(b, c) < 0 ==> Compare(a, c) < 0
  {
  }

  /** `Less` is a strict weak order: irreflexive, transitive, and its
      incomparability (`Compare` == 0) is transitive too. */
  lemma LessStrictWeakOrder(a: Version, b: Version, c: Version)
    ensures !Less(a, a)
    ensures Less(a, b) ==> !Less(b, a)
    ensures Less(a, b) && Less(b, c) ==> Less(a, c)
    ensures Compare(a, b) == 0 && Compare(b, c) == 0 ==> Compare(a, c) == 0
    ensures Less(a, b) || Less(b, a) || Compare(a, b) == 0
  {
  }

  /** "Major.Minor.Patch" in decimal, followed by the extension verbatim. */
  function SemanticString(v: Version): string {
    FormatNat(v.major) + "." + FormatNat(v.minor) + "." + FormatNat(v.patch) + v.extension
  }

  /** The original text when there is one, else the semantic form. */
  function String(v: Version): string {
    if v.text != "" then v.text else SemanticString(v)
  }

  /** The semantic form spells each number in decimal and ends with the
      extension; `String` prefers the recorded text. */
  lemma {:induction false} SemanticStringShape(v: Version)
    ensures var s := SemanticString(v);
      var m := FormatNat(v.major);
      var n := FormatNat(v.minor);
      var p := FormatNat(v.patch);
      && s[..|m|] == m && Value(m) == v.major
      && s[|m|] == '.'
      && s[|m| + 1..|m| + 1 + |n|] == n && Value(n) == v.minor
      && s[|m| + 1 + |n|] == '.'
      && s[|m| + |n| + 2..|m| + |n| + 2 + |p|] == p && Value(p) == v.patch
      && s[|m| + |n| + 2 + |p|..] == v.extension
    ensures v.text != "" ==> String(v) == v.text
    ensures v.text == "" ==> String(v) == SemanticString(v)
  {
    DottedParts(FormatNat(v.major), FormatNat(v.minor), FormatNat(v.patch), v.extension);
  }

  /** Where each part sits in `m.n.p` followed by `x`. */
  lemma DottedParts(m: string, n: string, p: string, x: string)
    ensures var s := m + "." + n + "." + p + x;
      && s[..|m|] == m
      && s[|m|] == '.'
      && s[|m| + 1..|m| + 1 + |n|] == n
      && s[|m| + 1 + |n|] == '.'
      && s[|m| + |n| + 2..|m| + |n| + 2 + |p|] == p
      && s[|m| + |n| + 2 + |p|..] == x
  {
  }
}
