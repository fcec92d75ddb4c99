/** The parser's test table, and the version test tables that build their
    operands with `MustParse`, checked against the model through the general
    parsing lemmas. Each row's input is a parameter fixed by the requires. */
module ParseExamples {
  import opened Results
  import opened Decimal
  import opened Errors
  import opened Versions
  import opened Parser
  import opened ParseProperties

  lemma ParseTableNumeric(a: string, b: string, c: string, d: string, e: string, f: string)
    requires a == "0.0.0" && b == "1.0.0" && c == "0.1.0" && d == "0.0.1"
    requires e == "10.20.30" && f == "27.31.15"
    ensures Parse(a) == Success(Version(0, 0, 0, "", a))
    ensures Parse(b) == Success(Version(1, 0, 0, "", b))
    ensures Parse(c) == Success(Version(0, 1, 0, "", c))
    ensures Parse(d) == Success(Version(0, 0, 1, "", d))
    ensures Parse(e) == Success(Version(10, 20, 30, "", e))
    ensures Parse(f) == Success(Version(27, 31, 15, "", f))
  {
    ParseZeroes(a);
    ParseUnits(b, c, d);
    ParseTens(e);
    ParseMixed(f);
  }

  /** The rows with a single 1 among zeroes. */
  lemma ParseUnits(a: string, b: string, c: string)
    requires a == "1.0.0" && b == "0.1.0" && c == "0.0.1"
    ensures Parse(a) == Success(Version(1, 0, 0, "", a))
    ensures Parse(b) == Success(Version(0, 1, 0, "", b))
    ensures Parse(c) == Success(Version(0, 0, 1, "", c))
  {
    var pre, z, one := "", "0", "1";
    ParseMajorMinorPatch(pre, one, z, z);
    assert pre + one + "." + z + "." + z == a;
    ParseMajorMinorPatch(pre, z, one, z);
    assert pre + z + "." + one + "." + z == b;
    ParseMajorMinorPatch(pre, z, z, one);
    assert pre + z + "." + z + "." + one == c;
  }

  lemma ParseZeroes(a: string)
    requires a == "0.0.0"
    ensures Parse(a) == Success(Version(0, 0, 0, "", a))
  {
    var pre, z := "", "0";
    ParseMajorMinorPatch(pre, z, z, z);
    assert pre + z + "." + z + "." + z == a;
  }

  lemma ParseTens(b: string)
    requires b == "10.20.30"
    ensures Parse(b) == Success(Version(10, 20, 30, "", b))
  {
    var pre, m, n, p := "", "10", "20", "30";
    ValueOfTwoDigits(m);
    ValueOfTwoDigits(n);
    ValueOfTwoDigits(p);
    ParseMajorMinorPatch(pre, m, n, p);
    assert pre + m + "." + n + "." + p == b;
  }

  lemma ParseMixed(c: string)
    requires c == "27.31.15"
    ensures Parse(c) == Success(Version(27, 31, 15, "", c))
  {
    var pre, m, n, p := "", "27", "31", "15";
    ValueOfTwoDigits(m);
    ValueOfTwoDigits(n);
    ValueOfTwoDigits(p);
    ParseMajorMinorPatch(pre, m, n, p);
    assert pre + m + "." + n + "." + p == c;
  }

  lemma ParseTablePrefixed(a: string, b: string, c: string)
    requires a == "v1.2.3" && b == "v1" && c == "v2.31"
    ensures Parse(a) == Success(Version(1, 2, 3, "", a))
    ensures Parse(b) == Success(Version(1, 0, 0, "", b))
    ensures Parse(c) == Success(Version(2, 31, 0, "", c))
  {
    ParsePrefixedFull(a);
    ParsePrefixedMajor(b);
    ParseTwoThirtyOne(c);
  }

  lemma ParsePrefixedFull(a: string)
    requires a == "v1.2.3"
    ensures Parse(a) == Success(Version(1, 2, 3, "", a))
  {
    var pre, m, n, p := "v", "1", "2", "3";
    ParseMajorMinorPatch(pre, m, n, p);
    assert pre + m + "." + n + "." + p == a;
  }

  lemma ParsePrefixedMajor(b: string)
    requires b == "v1"
    ensures Parse(b) == Success(Version(1, 0, 0, "", b))
  {
    var pre, m := "v", "1";
    ParseMajorOnly(pre, m);
    assert pre + m == b;
  }

  lemma ParseTwoThirtyOne(c: string)
    requires c == "v2.31"
    ensures Parse(c) == Success(Version(2, 31, 0, "", c))
  {
    var pre, m, n := "v", "2", "31";
    ValueOfTwoDigits(n);
    ParseMajorMinor(pre, m, n);
    assert pre + m + "." + n == c;
  }

  lemma ParseTableExtensions(a: string, b: string, c: string, d: string)
    requires a == "v1.2.0a" && b == "v1.2a" && c == "v1-alpha2" && d == "1.2.3.4"
    ensures Parse(a) == Success(Version(1, 2, 0, "a", a))
    ensures Parse(b) == Success(Version(1, 2, 0, "a", b))
    ensures Parse(c) == Success(Version(1, 0, 0, "-alpha2", c))
    ensures Parse(d) == Success(Version(1, 2, 3, "4", d))
  {
    ParseLetterAfterPatch(a);
    ParseLetterAfterMinor(b);
    ParseAlpha(c);
    ParseFourParts(d);
  }

  lemma ParseLetterAfterPatch(a: string)
    requires a == "v1.2.0a"
    ensures Parse(a) == Success(Version(1, 2, 0, "a", a))
  {
    var pre, m, n, p, x := "v", "1", "2", "0", "a";
    ParseExtensionAfterPatch(pre, m, n, p, x);
    assert pre + m + "." + n + "." + p + x == a;
  }

  lemma ParseLetterAfterMinor(b: string)
    requires b == "v1.2a"
    ensures Parse(b) == Success(Version(1, 2, 0, "a", b))
  {
    var pre, m, n, x := "v", "1", "2", "a";
    ParseExtensionAfterMinor(pre, m, n, x);
    assert pre + m + "." + n + x == b;
  }

  lemma ParseAlpha(c: string)
    requires c == "v1-alpha2"
    ensures Parse(c) == Success(Version(1, 0, 0, "-alpha2", c))
  {
    var pre, m, x := "v", "1", "-alpha2";
    ParseExtensionAfterMajor(pre, m, x);
    assert pre + m + x == c;
  }

  lemma ParseFourParts(d: string)
    requires d == "1.2.3.4"
    ensures Parse(d) == Success(Version(1, 2, 3, "4", d))
  {
    var pre, m, n, p, x := "", "1", "2", "3", "4";
    ParseDotAfterPatch(pre, m, n, p, x);
    assert pre + m + "." + n + "." + p + "." + x == d;
  }

  /** The failing rows of the parser's table: each error carries the input
      and is `ErrInvalidVersion` under `Is`. */
  lemma ParseTableFails(a: string, b: string, c: string)
    requires a == "invalid version" && b == "v.01" && c == "v-any"
    ensures Parse(a) == Failure(Invalid(a)) && Is(Parse(a).error, AnError(ErrInvalidVersion))
    ensures Parse(b) == Failure(Invalid(b)) && Is(Parse(b).error, AnError(ErrInvalidVersion))
    ensures Parse(c) == Failure(Invalid(c)) && Is(Parse(c).error, AnError(ErrInvalidVersion))
  {
    var pre, x := "", a;
    ParseEmptyMajorFails(pre, x);
    assert pre + x == a;
    pre, x := "v", ".01";
    ParseEmptyMajorFails(pre, x);
    assert pre + x == b;
    x := "-any";
    ParseEmptyMajorFails(pre, x);
    assert pre + x == c;
  }

  /** Further failing inputs, beyond the table: the empty input, a second
      prefix character, and an empty minor section. Each error is
      `ErrInvalidVersion` under `Is`. */
  lemma ParseOtherFails(d: string, e: string)
    requires d == "vv1" && e == "1..2"
    ensures Parse("") == Failure(Invalid("")) && Is(Parse("").error, AnError(ErrInvalidVersion))
    ensures Parse(d) == Failure(Invalid(d)) && Is(Parse(d).error, AnError(ErrInvalidVersion))
    ensures Parse(e) == Failure(Invalid(e)) && Is(Parse(e).error, AnError(ErrInvalidVersion))
  {
    var one := "1";
    SecondPrefixFails('v', 'v', one);
    assert ['v', 'v'] + one == d;
    var pre, x := "", ".2";
    ParseEmptyMinorFails(pre, one, x);
    assert pre + one + "." + x == e;
  }

  /** Rows of the comparison and `Less` tables, operands built by `MustParse`. */
  lemma CompareTable(a: string, b: string, c: string, d: string, e: string)
    requires a == "1.1.1" && b == "1.2.0" && c == "1.20.0" && d == "1.2.20" && e == "1.20.1"
    ensures Parse(a).Success? && Parse(b).Success? && Parse(c).Success? && Parse(d).Success?
    ensures Parse(e).Success?
    ensures Compare(MustParse(a), MustParse(b)) == -1 && Less(MustParse(a), MustParse(b))
    ensures Compare(MustParse(c), MustParse(b)) == 1 && !Less(MustParse(c), MustParse(b))
    ensures Compare(MustParse(c), MustParse(d)) == 1 && !Less(MustParse(c), MustParse(d))
    ensures Compare(MustParse(c), MustParse(e)) == -1 && Less(MustParse(c), MustParse(e))
  {
    CompareOperands(a, b, c, d);
    ParseOneTwentyOne(e);
  }

  /** The operands of the comparison rows. */
  lemma CompareOperands(a: string, b: string, c: string, d: string)
    requires a == "1.1.1" && b == "1.2.0" && c == "1.20.0" && d == "1.2.20"
    ensures Parse(a) == Success(Version(1, 1, 1, "", a))
    ensures Parse(b) == Success(Version(1, 2, 0, "", b))
    ensures Parse(c) == Success(Version(1, 20, 0, "", c))
    ensures Parse(d) == Success(Version(1, 2, 20, "", d))
  {
    ParseOneOneOne(a);
    ParseOneTwoZero(b);
    ParseOneTwentyZero(c);
    ParseOneTwoTwenty(d);
  }

  lemma ParseOneOneOne(a: string)
    requires a == "1.1.1"
    ensures Parse(a) == Success(Version(1, 1, 1, "", a))
  {
    var pre, one := "", "1";
    ParseMajorMinorPatch(pre, one, one, one);
    assert pre + one + "." + one + "." + one == a;
  }

  lemma ParseOneTwoZero(b: string)
    requires b == "1.2.0"
    ensures Parse(b) == Success(Version(1, 2, 0, "", b))
  {
    var pre, one, two, zero := "", "1", "2", "0";
    ParseMajorMinorPatch(pre, one, two, zero);
    assert pre + one + "." + two + "." + zero == b;
  }

  lemma ParseOneTwentyZero(c: string)
    requires c == "1.20.0"
    ensures Parse(c) == Success(Version(1, 20, 0, "", c))
  {
    var pre, one, zero, twenty := "", "1", "0", "20";
    ValueOfTwoDigits(twenty);
    ParseMajorMinorPatch(pre, one, twenty, zero);
    assert pre + one + "." + twenty + "." + zero == c;
  }

  lemma ParseOneTwoTwenty(d: string)
    requires d == "1.2.20"
    ensures Parse(d) == Success(Version(1, 2, 20, "", d))
  {
    var pre, one, two, twenty := "", "1", "2", "20";
    ValueOfTwoDigits(twenty);
    ParseMajorMinorPatch(pre, one, two, twenty);
    assert pre + one + "." + two + "." + twenty == d;
  }

  lemma ParseOneTwentyOne(e: string)
    requires e == "1.20.1"
    ensures Parse(e) == Success(Version(1, 20, 1, "", e))
  {
    var pre, one, twenty := "", "1", "20";
    ValueOfTwoDigits(twenty);
    ParseMajorMinorPatch(pre, one, twenty, one);
    assert pre + one + "." + twenty + "." + one == e;
  }

  /** The `String` table, rows without text: the semantic form. */
  lemma StringTableSemantic(a: string, b: string, c: string, d: string, e: string, f: string)
    requires a == "0.0.0" && b == "1.0.0" && c == "0.1.0" && d == "0.0.1"
    requires e == "10.20.30" && f == "27.31.15"
    ensures String(Version(0, 0, 0, "", "")) == a
    ensures String(Version(1, 0, 0, "", "")) == b
    ensures String(Version(0, 1, 0, "", "")) == c
    ensures String(Version(0, 0, 1, "", "")) == d
    ensures String(Version(10, 20, 30, "", "")) == e
    ensures String(Version(27, 31, 15, "", "")) == f
  {
    StringOfOneDigitParts(0, 0, 0, a);
    StringOfOneDigitParts(1, 0, 0, b);
    StringOfOneDigitParts(0, 1, 0, c);
    StringOfOneDigitParts(0, 0, 1, d);
    StringOfTwoDigitParts(10, 20, 30, e);
    StringOfTwoDigitParts(27, 31, 15, f);
  }

  /** A version without text whose three numbers have one digit each. */
  lemma StringOfOneDigitParts(m: nat, n: nat, p: nat, s: string)
    requires m < 10 && n < 10 && p < 10
    requires s == [DigitChar(m), '.', DigitChar(n), '.', DigitChar(p)]
    ensures String(Version(m, n, p, "", "")) == s
  {
  }

  /** A version without text whose three numbers have two digits each. */
  lemma StringOfTwoDigitParts(m: nat, n: nat, p: nat, s: string)
    requires 10 <= m < 100 && 10 <= n < 100 && 10 <= p < 100
    requires s == [DigitChar(m / 10), DigitChar(m % 10), '.', DigitChar(n / 10), DigitChar(n % 10), '.',
                   DigitChar(p / 10), DigitChar(p % 10)]
    ensures String(Version(m, n, p, "", "")) == s
  {
    FormatTwoDigits(m);
    FormatTwoDigits(n);
    FormatTwoDigits(p);
  }

  /** The `String` table, rows with text: the text itself. */
  lemma StringTableText()
    ensures String(Version(1, 2, 3, "", "v1.2.3")) == "v1.2.3"
    ensures String(Version(0, 0, 0, "", "v1.2.3")) == "v1.2.3"
    ensures String(Version(1, 2, 0, "a", "v1.2.0a")) == "v1.2.0a"
    ensures String(Version(1, 0, 0, "-alpha2", "v1-alpha2")) == "v1-alpha2"
  {
  }

  /** A two-digit number is spelled by its tens digit and its units digit. */
  lemma FormatTwoDigits(n: nat)
    requires 10 <= n < 100
    ensures FormatNat(n) == [DigitChar(n / 10), DigitChar(n % 10)]
  {
  }
}
