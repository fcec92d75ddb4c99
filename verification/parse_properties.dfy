/** What the library promises about parsing, derived from the agreement of
    `Parse` with the reference `Expected`, and the test table of the parser. */
module ParseProperties {
  import opened Results
  import opened Decimal
  import opened Errors
  import opened Versions
  import opened Parser
  import opened ParseSpec

  /** A non-empty run of decimal digits. */
  predicate Numeral(d: string) {
    |d| > 0 && AllDigits(d)
  }

  /** No prefix, or one `v` or `V`. */
  predicate OptionalPrefix(pre: string) {
    pre == "" || pre == "v" || pre == "V"
  }

  /** A character that ends a numeric section and starts the extension. */
  predicate ExtensionStart(c: char) {
    !IsDigit(c) && c != '.'
  }

  function Retext(o: Option<Version>, t: string): Option<Version> {
    match o
    case None => None
    case Some(v) => Some(v.(text := t))
  }

  /** The reference never looks at the text it carries along. */
  lemma {:induction false} SectionsIgnoreText(b: string, sec: Section, v: Version, t: string)
    ensures Sections(b, sec, v.(text := t)) == Retext(Sections(b, sec, v), t)
    decreases |b|
  {
    if b != [] && sec < SectionExtension {
      var k := DigitRun(b);
      if 0 < k < |b| && b[k] == '.' {
        SectionsNumeric(b, sec, v, k);
        SectionsNumeric(b, sec, v.(text := t), k);
        SectionsIgnoreText(b[k + 1..], sec + 1, SetField(v, sec, Value(b[..k])), t);
      }
    }
  }

  /** A numeric section holding exactly the digits `d`, followed by `t`. */
  lemma SectionsDigits(d: string, t: string, sec: Section, v: Version)
    requires Numeral(d) && sec < SectionExtension
    requires t == [] || !IsDigit(t[0])
    ensures var v' := SetField(v, sec, Value(d));
      Sections(d + t, sec, v) ==
        if t == [] then Some(v')
        else if t[0] == '.' then Sections(t[1..], sec + 1, v')
        else Some(v'.(extension := t))
  {
    DigitRunOfDigitsThen(d, t);
    SectionsNumeric(d + t, sec, v, |d|);
    assert (d + t)[..|d|] == d;
    if t != [] {
      assert (d + t)[|d|..] == t && (d + t)[|d| + 1..] == t[1..];
    }
  }

  /** Digits then `.`: on to the next section. */
  lemma SectionsThenDot(d: string, t: string, sec: Section, v: Version)
    requires Numeral(d) && sec < SectionExtension
    ensures Sections(d + ("." + t), sec, v) == Sections(t, sec + 1, SetField(v, sec, Value(d)))
  {
    SectionsDigits(d, "." + t, sec, v);
    assert ("." + t)[1..] == t;
  }

  /** Digits at the end of the input. */
  lemma SectionsThenEnd(d: string, sec: Section, v: Version)
    requires Numeral(d) && sec < SectionExtension
    ensures Sections(d, sec, v) == Some(SetField(v, sec, Value(d)))
  {
    SectionsDigits(d, "", sec, v);
    assert d + "" == d;
  }

  /** Digits then the start of an extension. */
  lemma SectionsThenExtension(d: string, x: string, sec: Section, v: Version)
    requires Numeral(d) && sec < SectionExtension
    requires |x| > 0 && ExtensionStart(x[0])
    ensures Sections(d + x, sec, v) == Some(SetField(v, sec, Value(d)).(extension := x))
  {
    SectionsDigits(d, x, sec, v);
  }

  /** A major number, a `.`, and then whatever the minor section reads. */
  lemma MajorThen(m: string, t: string, v: Version, r: Option<Version>)
    requires Numeral(m) && Sections(t, SectionMinor, v.(major := Value(m))) == r
    ensures Sections(m + ("." + t), SectionMajor, v) == r
  {
    SectionsThenDot(m, t, SectionMajor, v);
  }

  /** A minor number, a `.`, and then whatever the patch section reads. */
  lemma MinorThen(n: string, t: string, v: Version, r: Option<Version>)
    requires Numeral(n) && Sections(t, SectionPatch, v.(minor := Value(n))) == r
    ensures Sections(n + ("." + t), SectionMinor, v) == r
  {
    SectionsThenDot(n, t, SectionMinor, v);
  }

  /** A patch number, a `.`, and then the extension. */
  lemma PatchThen(p: string, t: string, v: Version)
    requires Numeral(p) && v.extension == ""
    ensures Sections(p + ("." + t), SectionPatch, v) == Some(v.(patch := Value(p), extension := t))
  {
    SectionsThenDot(p, t, SectionPatch, v);
  }

  lemma RestMajorMinorPatch(m: string, n: string, p: string, v: Version)
    requires Numeral(m) && Numeral(n) && Numeral(p)
    ensures Sections(m + ("." + (n + ("." + p))), SectionMajor, v) ==
      Some(v.(major := Value(m), minor := Value(n), patch := Value(p)))
  {
    var w := v.(major := Value(m));
    SectionsThenEnd(p, SectionPatch, w.(minor := Value(n)));
    MinorThen(n, p, w, Some(w.(minor := Value(n), patch := Value(p))));
    MajorThen(m, n + ("." + p), v, Some(w.(minor := Value(n), patch := Value(p))));
  }

  lemma RestExtensionAfterMinor(m: string, n: string, x: string, v: Version)
    requires Numeral(m) && Numeral(n) && |x| > 0 && ExtensionStart(x[0])
    ensures Sections(m + ("." + (n + x)), SectionMajor, v) ==
      Some(v.(major := Value(m), minor := Value(n), extension := x))
  {
    var w := v.(major := Value(m));
    SectionsThenExtension(n, x, SectionMinor, w);
    MajorThen(m, n + x, v, Some(w.(minor := Value(n), extension := x)));
  }

  lemma RestExtensionAfterPatch(m: string, n: string, p: string, x: string, v: Version)
    requires Numeral(m) && Numeral(n) && Numeral(p) && |x| > 0 && ExtensionStart(x[0])
    ensures Sections(m + ("." + (n + ("." + (p + x)))), SectionMajor, v) ==
      Some(v.(major := Value(m), minor := Value(n), patch := Value(p), extension := x))
  {
    var w := v.(major := Value(m));
    var r := Some(w.(minor := Value(n), patch := Value(p), extension := x));
    SectionsThenExtension(p, x, SectionPatch, w.(minor := Value(n)));
    MinorThen(n, p + x, w, r);
    MajorThen(m, n + ("." + (p + x)), v, r);
  }

  lemma RestDotAfterPatch(m: string, n: string, p: string, x: string, v: Version)
    requires Numeral(m) && Numeral(n) && Numeral(p) && v.extension == ""
    ensures Sections(m + ("." + (n + ("." + (p + ("." + x))))), SectionMajor, v) ==
      Some(v.(major := Value(m), minor := Value(n), patch := Value(p), extension := x))
  {
    var w := v.(major := Value(m));
    var r := Some(w.(minor := Value(n), patch := Value(p), extension := x));
    PatchThen(p, x, w.(minor := Value(n)));
    MinorThen(n, p + ("." + x), w, r);
    MajorThen(m, n + ("." + (p + ("." + x))), v, r);
  }

  lemma RestEmptyPatch(m: string, n: string, x: string, v: Version)
    requires Numeral(m) && Numeral(n) && |x| > 0 && !IsDigit(x[0])
    ensures Sections(m + ("." + (n + ("." + x))), SectionMajor, v) == None
  {
    var w := v.(major := Value(m));
    MinorThen(n, x, w, None);
    MajorThen(m, n + ("." + x), v, None);
  }

  /** With an optional prefix before a body starting with a digit, `Parse`
      reads the body as sections. */
  lemma ParseBody(pre: string, rest: string)
    requires OptionalPrefix(pre) && |rest| > 0 && IsDigit(rest[0])
    ensures Parse(pre + rest) ==
      Lift(pre + rest, Sections(rest, SectionMajor, Version(0, 0, 0, "", pre + rest)))
  {
    var s := pre + rest;
    assert Parse(s) == Expected(s) by {
      ParseMatchesExpected(s);
    }
    assert Body(s) == rest by {
      if pre == "" {
        assert s == rest;
      } else {
        assert s[1..] == rest;
      }
    }
  }

  /** `ParseBody` when the sections are known. */
  lemma ParseFrom(pre: string, rest: string, r: Option<Version>)
    requires OptionalPrefix(pre) && |rest| > 0 && IsDigit(rest[0])
    requires Sections(rest, SectionMajor, Version(0, 0, 0, "", pre + rest)) == r
    ensures Parse(pre + rest) == Lift(pre + rest, r)
  {
    ParseBody(pre, rest);
  }

  /** A successfully parsed version prints as exactly its input. */
  lemma ParsedStringIsInput(s: string)
    requires Parse(s).Success?
    ensures |s| > 0
    ensures String(Parse(s).value) == s
  {
  }

  /** One leading `v` or `V` is skipped: with or without it, the same inputs
      parse, to the same numbers and extension. */
  lemma {:induction false} PrefixIsSkipped(p: char, s: string)
    requires p in "vV" && |s| > 0 && s[0] !in "vV"
    ensures Parse([p] + s).Success? <==> Parse(s).Success?
    ensures Parse(s).Success? ==> Parse([p] + s).value == Parse(s).value.(text := [p] + s)
  {
    ParseMatchesExpected([p] + s);
    ParseMatchesExpected(s);
    assert Body([p] + s) == s == Body(s);
    SectionsIgnoreText(s, SectionMajor, Version(0, 0, 0, "", s), [p] + s);
  }

  /** Only the first character may be a prefix: a second `v`/`V` fails. */
  lemma {:induction false} SecondPrefixFails(p: char, q: char, rest: string)
    requires p in "vV" && q in "vV"
    ensures Parse([p, q] + rest) == Failure(Invalid([p, q] + rest))
  {
    var s := [p, q] + rest;
    ParseMatchesExpected(s);
    assert Body(s) == [q] + rest;
    assert DigitRun(Body(s)) == 0;
  }

  /** "M.N.P" parses to exactly those numbers, with no extension. */
  lemma {:induction false} ParseMajorMinorPatch(pre: string, m: string, n: string, p: string)
    requires OptionalPrefix(pre) && Numeral(m) && Numeral(n) && Numeral(p)
    ensures var s := pre + m + "." + n + "." + p;
      Parse(s) == Success(Version(Value(m), Value(n), Value(p), "", s))
  {
    var s := pre + m + "." + n + "." + p;
    var rest := m + ("." + (n + ("." + p)));
    assert s == pre + rest;
    RestMajorMinorPatch(m, n, p, Version(0, 0, 0, "", s));
    ParseFrom(pre, rest, Some(Version(Value(m), Value(n), Value(p), "", s)));
  }

  /** An absent minor and patch default to 0: "M" is M.0.0. */
  lemma {:induction false} ParseMajorOnly(pre: string, m: string)
    requires OptionalPrefix(pre) && Numeral(m)
    ensures Parse(pre + m) == Success(Version(Value(m), 0, 0, "", pre + m))
  {
    SectionsThenEnd(m, SectionMajor, Version(0, 0, 0, "", pre + m));
    ParseFrom(pre, m, Some(Version(Value(m), 0, 0, "", pre + m)));
  }

  /** An absent patch defaults to 0: "M.N" is M.N.0. */
  lemma {:induction false} ParseMajorMinor(pre: string, m: string, n: string)
    requires OptionalPrefix(pre) && Numeral(m) && Numeral(n)
    ensures var s := pre + m + "." + n;
      Parse(s) == Success(Version(Value(m), Value(n), 0, "", s))
  {
    var s := pre + m + "." + n;
    var rest := m + ("." + n);
    assert s == pre + rest;
    var r := Version(Value(m), Value(n), 0, "", s);
    SectionsThenEnd(n, SectionMinor, Version(Value(m), 0, 0, "", s));
    MajorThen(m, n, Version(0, 0, 0, "", s), Some(r));
    ParseFrom(pre, rest, Some(r));
  }

  /** A bare prefix parses to 0.0.0. */
  lemma ParseBarePrefix(pre: string)
    requires OptionalPrefix(pre) && pre != ""
    ensures Parse(pre) == Success(Version(0, 0, 0, "", pre))
  {
    ParseMatchesExpected(pre);
  }

  /** At the end of input only a non-empty accumulator is committed: after a
      trailing `.` the next number stays 0. */
  lemma {:induction false} ParseTrailingDot(pre: string, m: string)
    requires OptionalPrefix(pre) && Numeral(m)
    ensures Parse(pre + m + ".") == Success(Version(Value(m), 0, 0, "", pre + m + "."))
  {
    var s := pre + m + ".";
    var rest := m + ("." + "");
    assert s == pre + rest;
    var r := Version(Value(m), 0, 0, "", s);
    MajorThen(m, "", Version(0, 0, 0, "", s), Some(r));
    ParseFrom(pre, rest, Some(r));
  }

  /** The same after the minor number: the patch stays 0. */
  lemma {:induction false} ParseTrailingDotAfterMinor(pre: string, m: string, n: string)
    requires OptionalPrefix(pre) && Numeral(m) && Numeral(n)
    ensures var s := pre + m + "." + n + ".";
      Parse(s) == Success(Version(Value(m), Value(n), 0, "", s))
  {
    var s := pre + m + "." + n + ".";
    var rest := m + ("." + (n + ("." + "")));
    assert s == pre + rest;
    var r := Version(Value(m), Value(n), 0, "", s);
    MinorThen(n, "", Version(Value(m), 0, 0, "", s), Some(r));
    MajorThen(m, n + ("." + ""), Version(0, 0, 0, "", s), Some(r));
    ParseFrom(pre, rest, Some(r));
  }

  /** The first character that is neither a digit nor `.` ends the major
      section and starts the extension, kept verbatim with all that follows. */
  lemma {:induction false} ParseExtensionAfterMajor(pre: string, m: string, x: string)
    requires OptionalPrefix(pre) && Numeral(m)
    requires |x| > 0 && ExtensionStart(x[0])
    ensures Parse(pre + m + x) == Success(Version(Value(m), 0, 0, x, pre + m + x))
  {
    var s := pre + m + x;
    assert s == pre + (m + x);
    SectionsThenExtension(m, x, SectionMajor, Version(0, 0, 0, "", s));
    ParseFrom(pre, m + x, Some(Version(Value(m), 0, 0, x, s)));
  }

  /** The same, ending the minor section. */
  lemma {:induction false} ParseExtensionAfterMinor(pre: string, m: string, n: string, x: string)
    requires OptionalPrefix(pre) && Numeral(m) && Numeral(n)
    requires |x| > 0 && ExtensionStart(x[0])
    ensures var s := pre + m + "." + n + x;
      Parse(s) == Success(Version(Value(m), Value(n), 0, x, s))
  {
    var s := pre + m + "." + n + x;
    var rest := m + ("." + (n + x));
    assert s == pre + rest;
    RestExtensionAfterMinor(m, n, x, Version(0, 0, 0, "", s));
    ParseFrom(pre, rest, Some(Version(Value(m), Value(n), 0, x, s)));
  }

  /** The same, ending the patch section. */
  lemma {:induction false} ParseExtensionAfterPatch(pre: string, m: string, n: string, p: string, x: string)
    requires OptionalPrefix(pre) && Numeral(m) && Numeral(n) && Numeral(p)
    requires |x| > 0 && ExtensionStart(x[0])
    ensures var s := pre + m + "." + n + "." + p + x;
      Parse(s) == Success(Version(Value(m), Value(n), Value(p), x, s))
  {
    var s := pre + m + "." + n + "." + p + x;
    var rest := m + ("." + (n + ("." + (p + x))));
    assert s == pre + rest;
    RestExtensionAfterPatch(m, n, p, x, Version(0, 0, 0, "", s));
    ParseFrom(pre, rest, Some(Version(Value(m), Value(n), Value(p), x, s)));
  }

  /** A `.` right after the patch digits moves into the extension and is
      itself dropped; everything after it is the extension. */
  lemma {:induction false} ParseDotAfterPatch(pre: string, m: string, n: string, p: string, x: string)
    requires OptionalPrefix(pre) && Numeral(m) && Numeral(n) && Numeral(p)
    ensures var s := pre + m + "." + n + "." + p + "." + x;
      Parse(s) == Success(Version(Value(m), Value(n), Value(p), x, s))
  {
    var s := pre + m + "." + n + "." + p + "." + x;
    var rest := m + ("." + (n + ("." + (p + ("." + x)))));
    assert s == pre + rest;
    RestDotAfterPatch(m, n, p, x, Version(0, 0, 0, "", s));
    ParseFrom(pre, rest, Some(Version(Value(m), Value(n), Value(p), x, s)));
  }

  /** A separator reached right after the prefix, before any major digit,
      fails. */
  lemma {:induction false} ParseEmptyMajorFails(pre: string, x: string)
    requires OptionalPrefix(pre)
    requires |x| > 0 && !IsDigit(x[0])
    requires pre != "" || x[0] !in "vV"
    ensures Parse(pre + x) == Failure(Invalid(pre + x))
  {
    ParseMatchesExpected(pre + x);
    assert Body(pre + x) == x;
  }

  /** A separator reached right after the major's `.` fails. */
  lemma {:induction false} ParseEmptyMinorFails(pre: string, m: string, x: string)
    requires OptionalPrefix(pre) && Numeral(m)
    requires |x| > 0 && !IsDigit(x[0])
    ensures Parse(pre + m + "." + x) == Failure(Invalid(pre + m + "." + x))
  {
    var s := pre + m + "." + x;
    var rest := m + ("." + x);
    assert s == pre + rest;
    MajorThen(m, x, Version(0, 0, 0, "", s), None);
    ParseFrom(pre, rest, None);
  }

  /** A separator reached right after the minor's `.` fails. */
  lemma {:induction false} ParseEmptyPatchFails(pre: string, m: string, n: string, x: string)
    requires OptionalPrefix(pre) && Numeral(m) && Numeral(n)
    requires |x| > 0 && !IsDigit(x[0])
    ensures var s := pre + m + "." + n + "." + x;
      Parse(s) == Failure(Invalid(s))
  {
    var s := pre + m + "." + n + "." + x;
    var rest := m + ("." + (n + ("." + x)));
    assert s == pre + rest;
    RestEmptyPatch(m, n, x, Version(0, 0, 0, "", s));
    ParseFrom(pre, rest, None);
  }

  /** Printing a directly built version and parsing the result gives the same
      numbers and extension back, provided the extension cannot be mistaken
      for more digits or a separator. */
  lemma {:induction false} SemanticStringRoundTrip(v: Version)
    requires v.text == ""
    requires v.extension == [] || ExtensionStart(v.extension[0])
    ensures Parse(String(v)) == Success(v.(text := String(v)))
  {
    var m, n, p := FormatNat(v.major), FormatNat(v.minor), FormatNat(v.patch);
    var s := String(v);
    assert s == "" + m + "." + n + "." + p + v.extension by {
      assert s == SemanticString(v);
    }
    RoundTripOfNumerals(m, n, p, v.extension);
    assert v.(text := s) == Version(Value(m), Value(n), Value(p), v.extension, s);
  }

  /** The same over arbitrary numerals. */
  lemma {:induction false} RoundTripOfNumerals(m: string, n: string, p: string, x: string)
    requires Numeral(m) && Numeral(n) && Numeral(p)
    requires x == [] || ExtensionStart(x[0])
    ensures var s := "" + m + "." + n + "." + p + x;
      Parse(s) == Success(Version(Value(m), Value(n), Value(p), x, s))
  {
    if x == [] {
      ParseMajorMinorPatch("", m, n, p);
      assert "" + m + "." + n + "." + p + x == "" + m + "." + n + "." + p;
    } else {
      ParseExtensionAfterPatch("", m, n, p, x);
    }
  }
}
