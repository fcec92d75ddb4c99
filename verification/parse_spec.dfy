/** A reference description of what `Parse` accepts and produces, written
    over digit runs rather than characters, and the theorem that the
    character-by-character scan agrees with it. The properties the library
    promises about parsing follow from that theorem. */
module ParseSpec {
  import opened Results
  import opened Decimal
  import opened Errors
  import opened Versions
  import opened Parser

  /** The input without its optional leading `v` or `V`. */
  function Body(s: string): string {
    if |s| > 0 && s[0] in "vV" then s[1..] else s
  }

  /** Reads sections from `b`, starting in section `sec`: a numeric section
      is a non-empty digit run, ended by the end of input, by a `.` (which
      moves on to the next section; after the patch, into the extension), or
      by any other character, which starts the extension. The extension is
      the rest of the input, verbatim. `None` when a numeric section that is
      entered has no digits but is followed by more input. */
  function Sections(b: string, sec: Section, v: Version): Option<Version>
    decreases |b|
  {
    if b == [] then Some(v)
    else if sec == SectionExtension then Some(v.(extension := b))
    else
      var k := DigitRun(b);
      if k == 0 then None
      else
        var v' := SetField(v, sec, Value(b[..k]));
        var t := b[k..];
        if t == [] then Some(v')
        else if t[0] == '.' then Sections(t[1..], sec + 1, v')
        else Some(v'.(extension := t))
  }

  function Lift(s: string, o: Option<Version>): Result<Version, Error> {
    match o
    case None => Failure(Invalid(s))
    case Some(v) => Success(v)
  }

  /** The reference parse: empty input is invalid, otherwise the sections of
      the body, starting from 0.0.0 with the whole input as text. */
  function Expected(s: string): Result<Version, Error> {
    if s == [] then Failure(Invalid(s))
    else Lift(s, Sections(Body(s), SectionMajor, Version(0, 0, 0, "", s)))
  }

  /** The index-0 prefix rule cannot apply from index `i` on. */
  predicate NoSkip(s: string, i: nat) {
    i > 0 || |s| == 0 || s[0] !in "vV"
  }

  /** The scan followed by the final commit. */
  function RunFinish(s: string, i: nat, st: State): Result<Version, Error>
    requires i <= |s|
  {
    match Run(s, i, st)
    case Failure(e) => Failure(e)
    case Success(st') => Finish(s, st')
  }

  /** In the extension section every remaining character is accumulated. */
  lemma {:induction false} ExtensionTail(s: string, i: nat, st: State)
    requires i <= |s| && NoSkip(s, i)
    requires st.section == SectionExtension
    ensures Run(s, i, st) == Success(st.(chars := st.chars + s[i..]))
    decreases |s| - i
  {
    if i < |s| {
      var st' := st.(chars := st.chars + [s[i]]);
      assert Step(s, i, st) == Success(st');
      ExtensionTail(s, i + 1, st');
      assert st'.chars + s[i + 1..] == st.chars + s[i..];
    } else {
      assert st.chars + s[i..] == st.chars;
    }
  }

  /** In a numeric section a run of digits is accumulated. */
  lemma {:induction false} DigitsTail(s: string, i: nat, j: nat, st: State)
    requires i <= j <= |s|
    requires st.section < SectionExtension
    requires AllDigits(s[i..j])
    ensures Run(s, i, st) == Run(s, j, st.(chars := st.chars + s[i..j]))
    decreases j - i
  {
    if i < j {
      assert s[i..j][0] == s[i];
      var st' := st.(chars := st.chars + [s[i]]);
      assert Step(s, i, st) == Success(st');
      assert s[i + 1..j] == s[i..j][1..];
      DigitsTail(s, i + 1, j, st');
      assert st'.chars + s[i + 1..j] == st.chars + s[i..j];
    } else {
      assert st.chars + s[i..j] == st.chars;
    }
  }

  /** The character ending a non-empty digit run commits it: a `.` moves on
      to the next section, anything else starts the extension with itself. */
  lemma CommitAtSeparator(s: string, j: nat, st: State)
    requires 0 < j < |s| && !IsDigit(s[j])
    requires st.section < SectionExtension
    requires |st.chars| > 0 && AllDigits(st.chars)
    ensures var v' := SetField(st.v, st.section, Value(st.chars));
      Step(s, j, st) == Success(
        if s[j] == '.' then State(st.section + 1, [], v')
        else State(SectionExtension, [s[j]], v'))
  {
    assert [] + [s[j]] == [s[j]];
  }

  /** A numeric section reached with no digits fails at its first character. */
  lemma EmptySectionFails(s: string, i: nat, st: State)
    requires i < |s| && NoSkip(s, i) && !IsDigit(s[i])
    requires st.section < SectionExtension && st.chars == []
    ensures RunFinish(s, i, st) == Failure(Invalid(s))
  {
    assert Step(s, i, st) == Failure(Invalid(s));
  }

  /** One numeric section with digits `b[..k]`, where `b` is the input from
      index `i`, unfolded in the reference. */
  lemma SectionsNumeric(b: string, sec: Section, v: Version, k: nat)
    requires sec < SectionExtension && 0 < k == DigitRun(b)
    ensures var v' := SetField(v, sec, Value(b[..k]));
      Sections(b, sec, v) ==
        if k == |b| then Some(v')
        else if b[k] == '.' then Sections(b[k + 1..], sec + 1, v')
        else Some(v'.(extension := b[k..]))
  {
    if k < |b| {
      assert b[k..][0] == b[k] && b[k..][1..] == b[k + 1..];
    }
  }

  /** Scanning one step and then the rest is scanning from here. */
  lemma RunFinishStep(s: string, i: nat, st: State, st': State)
    requires i < |s| && Step(s, i, st) == Success(st')
    ensures RunFinish(s, i, st) == RunFinish(s, i + 1, st')
  {
  }

  /** From the start of any section, scanning and finishing agrees with
      reading the remaining input as sections. */
  lemma {:induction false} SectionsAgree(s: string, i: nat, st: State)
    requires i <= |s| && NoSkip(s, i)
    requires st.chars == []
    ensures RunFinish(s, i, st) == Lift(s, Sections(s[i..], st.section, st.v))
    decreases |s| - i, 2
  {
    var b := s[i..];
    if b == [] {
      assert i == |s|;
    } else if st.section == SectionExtension {
      ExtensionTail(s, i, st);
      assert st.chars + s[i..] == b;
    } else if DigitRun(b) == 0 {
      EmptySectionFails(s, i, st);
    } else {
      NumericSectionAgrees(s, i, st, DigitRun(b));
    }
  }

  /** The case of `SectionsAgree` where a numeric section has `k` digits. */
  lemma {:induction false} NumericSectionAgrees(s: string, i: nat, st: State, k: nat)
    requires i < |s| && NoSkip(s, i)
    requires st.chars == [] && st.section < SectionExtension
    requires 0 < k == DigitRun(s[i..])
    ensures RunFinish(s, i, st) == Lift(s, Sections(s[i..], st.section, st.v))
    decreases |s| - i, 1
  {
    if i + k == |s| {
      NumericAtEnd(s, i, st, k);
    } else if s[i + k] == '.' {
      NumericThenDotAgrees(s, i, st, k);
    } else {
      NumericThenOther(s, i, st, k);
    }
  }

  /** Digits then `.`: the scan and the reference both go on to the next
      section. */
  lemma {:induction false} NumericThenDotAgrees(s: string, i: nat, st: State, k: nat)
    requires i + k < |s| && NoSkip(s, i) && s[i + k] == '.'
    requires st.chars == [] && st.section < SectionExtension
    requires 0 < k == DigitRun(s[i..])
    ensures RunFinish(s, i, st) == Lift(s, Sections(s[i..], st.section, st.v))
    decreases |s| - i, 0
  {
    var b := s[i..];
    var next := State(st.section + 1, [], SetField(st.v, st.section, Value(b[..k])));
    SectionsAgree(s, i + k + 1, next);
    calc {
      RunFinish(s, i, st);
      == { NumericThenDot(s, i, st, k); }
      RunFinish(s, i + k + 1, next);
      Lift(s, Sections(s[i + k + 1..], next.section, next.v));
      == { SectionsNumeric(b, st.section, st.v, k);
           assert b[k] == '.' && b[k + 1..] == s[i + k + 1..]; }
      Lift(s, Sections(b, st.section, st.v));
    }
  }

  /** A numeric section's digits that run to the end of the input. */
  lemma NumericAtEnd(s: string, i: nat, st: State, k: nat)
    requires i < |s| && i + k == |s|
    requires st.chars == [] && st.section < SectionExtension
    requires 0 < k == DigitRun(s[i..])
    ensures RunFinish(s, i, st) == Lift(s, Sections(s[i..], st.section, st.v))
  {
    var b := s[i..];
    assert Sections(b, st.section, st.v) == Some(SetField(st.v, st.section, Value(b[..k]))) by {
      SectionsNumeric(b, st.section, st.v, k);
    }
    assert RunFinish(s, i, st) == Success(SetField(st.v, st.section, Value(b[..k]))) by {
      DigitsPrefix(s, i, st, k);
      DigitsAtEnd(s, st.(chars := b[..k]));
    }
  }

  /** A numeric section's digits followed by `.`. */
  lemma NumericThenDot(s: string, i: nat, st: State, k: nat)
    requires i + k < |s| && s[i + k] == '.'
    requires st.chars == [] && st.section < SectionExtension
    requires 0 < k == DigitRun(s[i..])
    ensures RunFinish(s, i, st) ==
      RunFinish(s, i + k + 1, State(st.section + 1, [], SetField(st.v, st.section, Value(s[i..][..k]))))
  {
    DigitsPrefix(s, i, st, k);
    DigitsThenDot(s, i + k, st.(chars := s[i..][..k]));
  }

  /** A numeric section's digits followed by another non-digit, which
      starts the extension in both. */
  lemma NumericThenOther(s: string, i: nat, st: State, k: nat)
    requires i + k < |s| && s[i + k] != '.'
    requires st.chars == [] && st.section < SectionExtension
    requires 0 < k == DigitRun(s[i..])
    ensures RunFinish(s, i, st) == Lift(s, Sections(s[i..], st.section, st.v))
  {
    var b := s[i..];
    var v' := SetField(st.v, st.section, Value(b[..k]));
    assert b[k] == s[i + k] && b[k..] == s[i + k..];
    assert Sections(b, st.section, st.v) == Some(v'.(extension := s[i + k..])) by {
      SectionsNumeric(b, st.section, st.v, k);
    }
    assert RunFinish(s, i, st) == Success(v'.(extension := s[i + k..])) by {
      DigitsPrefix(s, i, st, k);
      DigitsThenOther(s, i + k, st.(chars := b[..k]));
    }
  }

  /** A section's digit run is accumulated. */
  lemma DigitsPrefix(s: string, i: nat, st: State, k: nat)
    requires i < |s|
    requires st.chars == [] && st.section < SectionExtension
    requires k == DigitRun(s[i..])
    ensures RunFinish(s, i, st) == RunFinish(s, i + k, st.(chars := s[i..][..k]))
  {
    assert s[i..i + k] == s[i..][..k];
    DigitsTail(s, i, i + k, st);
    assert st.chars + s[i..i + k] == s[i..][..k];
  }

  /** Digits at the end of the input are committed by the final commit. */
  lemma DigitsAtEnd(s: string, st: State)
    requires st.section < SectionExtension && |st.chars| > 0 && AllDigits(st.chars)
    ensures RunFinish(s, |s|, st) == Success(SetField(st.v, st.section, Value(st.chars)))
  {
    assert Commit(s, st) == Success(State(st.section, [], SetField(st.v, st.section, Value(st.chars))));
  }

  /** Digits followed by `.` are committed and the next section begins. */
  lemma DigitsThenDot(s: string, j: nat, st: State)
    requires 0 < j < |s| && s[j] == '.'
    requires st.section < SectionExtension && |st.chars| > 0 && AllDigits(st.chars)
    ensures RunFinish(s, j, st) ==
      RunFinish(s, j + 1, State(st.section + 1, [], SetField(st.v, st.section, Value(st.chars))))
  {
    CommitAtSeparator(s, j, st);
    RunFinishStep(s, j, st, State(st.section + 1, [], SetField(st.v, st.section, Value(st.chars))));
  }

  /** Digits followed by another non-digit are committed, and that character
      and everything after it become the extension. */
  lemma DigitsThenOther(s: string, j: nat, st: State)
    requires 0 < j < |s| && s[j] != '.' && !IsDigit(s[j])
    requires st.section < SectionExtension && |st.chars| > 0 && AllDigits(st.chars)
    ensures RunFinish(s, j, st) ==
      Success(SetField(st.v, st.section, Value(st.chars)).(extension := s[j..]))
  {
    var v' := SetField(st.v, st.section, Value(st.chars));
    var st2 := State(SectionExtension, [s[j]], v');
    CommitAtSeparator(s, j, st);
    RunFinishStep(s, j, st, st2);
    ExtensionTail(s, j + 1, st2);
    assert [s[j]] + s[j + 1..] == s[j..];
    assert Commit(s, st2.(chars := s[j..])) == Success(State(SectionExtension, [], v'.(extension := s[j..])));
  }

  /** The scan agrees with the reference on every input. */
  lemma {:induction false} ParseMatchesExpected(s: string)
    ensures Parse(s) == Expected(s)
  {
    if s != [] {
      var init := State(SectionMajor, [], Version(0, 0, 0, "", s));
      if s[0] in "vV" {
        assert Step(s, 0, init) == Success(init);
        assert Run(s, 0, init) == Run(s, 1, init);
        SectionsAgree(s, 1, init);
      } else {
        SectionsAgree(s, 0, init);
        assert s[0..] == s;
      }
    }
  }
}
