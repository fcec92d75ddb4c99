/** `Parse`: a left-to-right scan over the input that moves through four
    sections (major, minor, patch, extension), accumulating characters and
    committing each section's accumulator into the version being built. Each
    character of the input stands for one byte of the Go string. */
module Parser {
  import opened Results
  import opened Decimal
  import opened Errors
  import opened Versions

  /** Sections are numbered as in the library; the first three are numeric. */
  type Section = s: int | 0 <= s <= 3

  const SectionMajor: Section := 0
  const SectionMinor: Section := 1
  const SectionPatch: Section := 2
  const SectionExtension: Section := 3

  /** The scanner's state: the current section, the accumulated characters
      not yet committed, and the version built so far. */
  datatype State = State(section: Section, chars: string, v: Version)

  /** Stores `n` in the field a numeric section names. */
  function SetField(v: Version, section: Section, n: nat): (r: Version)
    requires section < SectionExtension
    ensures section == SectionMajor ==> r == v.(major := n)
    ensures section == SectionMinor ==> r == v.(minor := n)
    ensures section == SectionPatch ==> r == v.(patch := n)
  {
    if section == SectionMajor then v.(major := n)
    else if section == SectionMinor then v.(minor := n)
    else v.(patch := n)
  }

  /** `commit`: an empty accumulator is an error; otherwise a numeric section
      stores its number (an unconvertible accumulator is an error too) and the
      extension section stores the accumulator verbatim, and the accumulator
      is cleared. */
  function Commit(input: string, st: State): (r: Result<State, Error>)
    ensures r.Failure? ==> r.error == Invalid(input)
    ensures r.Success? ==>
              r.value.chars == [] && r.value.section == st.section && r.value.v.text == st.v.text
    ensures |st.chars| == 0 ==> r.Failure?
    ensures |st.chars| > 0 && st.section == SectionExtension ==>
      r == Success(State(st.section, [], st.v.(extension := st.chars)))
    ensures |st.chars| > 0 && st.section < SectionExtension && AllDigits(st.chars) ==>
      r == Success(State(st.section, [], SetField(st.v, st.section, Value(st.chars))))
  {
    if |st.chars| == 0 then
      Failure(Invalid(input))
    else if st.section < SectionExtension then
      match Atoi(st.chars)
      case None => Failure(Invalid(input))
      case Some(n) => Success(State(st.section, [], SetField(st.v, st.section, n)))
    else
      Success(State(st.section, [], st.v.(extension := st.chars)))
  }

  /** One iteration of the scan, at index `i` with character `input[i]`. */
  function Step(input: string, i: nat, st: State): (r: Result<State, Error>)
    requires i < |input|
  {
    var c := input[i];
    if i == 0 && c in "vV" then
      Success(st)
    else if st.section < SectionExtension then
      if IsDigit(c) then
        Success(st.(chars := st.chars + [c]))
      else
        match Commit(input, st)
        case Failure(e) => Failure(e)
        case Success(st') =>
          if c == '.' then
            Success(st'.(section := st'.section + 1))
          else
            Success(st'.(section := SectionExtension, chars := st'.chars + [c]))
    else
      Success(st.(chars := st.chars + [c]))
  }

  /** In a numeric section the accumulator only ever holds digits. */
  predicate Good(st: State) {
    st.section < SectionExtension ==> AllDigits(st.chars)
  }

  /** The scan from index `i` to the end of the input. */
  function Run(input: string, i: nat, st: State): (r: Result<State, Error>)
    requires i <= |input|
    ensures r.Failure? ==> r.error == Invalid(input)
    ensures r.Success? ==> r.value.v.text == st.v.text
    ensures r.Success? && Good(st) ==> Good(r.value)
    decreases |input| - i
  {
    if i == |input| then
      Success(st)
    else
      match Step(input, i, st)
      case Failure(e) => Failure(e)
      case Success(st') => Run(input, i + 1, st')
  }

  /** After the scan, a non-empty accumulator is committed. */
  function Finish(input: string, st: State): (r: Result<Version, Error>)
    ensures r.Failure? ==> r.error == Invalid(input)
    ensures r.Success? ==> r.value.text == st.v.text
    ensures Good(st) ==> r.Success?
  {
    if |st.chars| > 0 then
      match Commit(input, st)
      case Failure(e) => Failure(e)
      case Success(st') => Success(st'.v)
    else
      Success(st.v)
  }

  /** `Parse`: empty input is invalid; otherwise scan and finish. Every error
      is `Invalid(input)` and every parsed version records the input as its
      text. */
  function Parse(input: string): (r: Result<Version, Error>)
    ensures |input| == 0 ==> r == Failure(Invalid(input))
    ensures r.Failure? ==> r.error == Invalid(input)
    ensures r.Success? ==> r.value.text == input
  {
    if |input| == 0 then
      Failure(Invalid(input))
    else
      var init := State(SectionMajor, [], Version(0, 0, 0, "", input));
      match Run(input, 0, init)
      case Failure(e) => Failure(e)
      case Success(st) => Finish(input, st)
  }

  /** `MustParse`: the version of an input known to parse. */
  function MustParse(input: string): (v: Version)
    requires Parse(input).Success?
    ensures v.text == input
  {
    Parse(input).value
  }
}
