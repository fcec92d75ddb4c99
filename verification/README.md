# go-version in Dafny

A model of the Go package `version`, a small value library for dotted version
numbers. The model covers:

- **Parsing.** `Parse` scans a string one byte at a time through four sections: major, minor, patch and extension.
  - An optional `v`/`V` at index 0 is skipped.
  - Digits accumulate in the current numeric section.
  - A `.` commits the section and moves to the next one; after the patch it moves into the extension and the dot is dropped.
  - Any other byte commits the section and starts the extension, which then takes the rest of the input verbatim.
  - A commit with an empty accumulator fails with `invalid(input)`.
  - At the end of input, only a non-empty accumulator is committed.
- **Ordering.** `Compare` and `Less` order versions lexicographically on (major, minor, patch). The extension and the original text are ignored.
- **Text.** `String` and `SemanticString` give the textual forms.
- **Errors.** `Error` has one kind, and `Error.Is` compares messages only.
- **Lists.** `List` is a sequence of versions:
  - `List.Match` is an order-preserving filter.
  - `Len`, `Less` and `Swap` make up the sort interface.
  - A stable insertion sort is written with those three operations and stands in for `sort.Stable`.

Modules (one file each):

- `Results` (`results.dfy`): `Option` and `Result`.
- `Decimal` (`decimal.dfy`): digit runs, their values, the conversion the parser applies to a digit run, and `%d` formatting.
- `Errors` (`errors.dfy`): `Error`, `ErrInvalidVersion`, `Invalid`, `Is`.
- `Versions` (`versions.dfy`): `Version`, `Compare`, `Less`, `SemanticString`, `String`.
- `Parser` (`parser.dfy`): the scan as a recursive fold over the input. Its state is (section, accumulator, partial version), and one step models one loop iteration of `Parse`.
- `ParseSpec` (`parse_spec.dfy`): a second, independent description of parsing.
  - It works on whole digit runs instead of bytes: `Sections` and `Expected`.
  - `ParseMatchesExpected` proves that the byte scan agrees with it on every input.
- `ParseProperties` (`parse_properties.dfy`): the parsing rules of the library as general lemmas over arbitrary numerals, prefixes and extensions. They are derived from that theorem.
- `ParseExamples` (`parse_examples.dfy`): rows of the parse, compare and string test tables, as instances of the general lemmas.
- `Constraints` (`constraints.dfy`): `Constraint` and `Version.Match`. **Test-derived:** their Go source is not part of this model, so the rules come from the assertions of `version_test.go`.
- `Lists` (`lists.dfy`): `List.Match`, `Len`, `Less` (named `LessAt`), `Swap`, and the sort.
- `ListExamples` (`list_examples.dfy`): the sort and filter test rows.

## Model

| member | source | states |
|---|---|---|
| Parser.SetField | parse.go:44-51 | A numeric section's number is stored in exactly the field that section names (major, minor or patch). |
| Parser.Commit | parse.go:33-58 | Committing an empty accumulator is `Invalid(input)`. A numeric section's digits are stored as their decimal value. The extension section's characters are stored verbatim. After a success the accumulator is empty, the section is unchanged and the text is untouched. Every failure is `Invalid(input)`. |
| Parser.Run | parse.go:60-84 | Every failure of the scan is `Invalid(input)`. The text is never changed. A numeric section's accumulator holds only digits throughout. |
| Parser.Finish | parse.go:85-91 | Once the scan has kept the accumulator well formed, the final commit cannot fail. Its only possible error is `Invalid(input)`. |
| Parser.Parse | parse.go:23-92 | Empty input fails with `Invalid("")`. Every failure carries the input. Every success records the input as the version's text. |
| Parser.MustParse | parse.go:15-21 | For an input that parses (a panic otherwise), the version whose text is the input. |
| ParseSpec.ParseMatchesExpected | parse.go:23-92 | On every input, the byte-by-byte scan equals the reference parse over digit runs. |
| ParseSpec.SectionsAgree | parse.go:60-89 | From the start of any section (empty accumulator), at any index past where the index-0 `v`/`V` rule could apply, scanning the rest and then finishing equals the reference reading of the remaining input. |
| ParseSpec.ExtensionTail | parse.go:81-83 | In the extension section the scan appends every remaining byte, unchanged, to the accumulator. |
| ParseSpec.EmptySectionFails | parse.go:34-36 | A non-digit reached while a numeric section has no digits makes the whole parse fail with `Invalid(input)`. |
| ParseSpec.DigitsThenDot | parse.go:74-75 | A `.` after digits commits them and moves to the next section with an empty accumulator. |
| ParseSpec.DigitsThenOther | parse.go:76-78 | Any other non-digit after digits commits them and starts the extension with that byte. |
| ParseSpec.DigitsAtEnd | parse.go:85-89 | Digits still pending at the end of input are committed into their field. |
| ParseProperties.ParsedStringIsInput | parse.go:24 | A parsed version prints (`String`) as exactly its input, which is non-empty. |
| ParseProperties.PrefixIsSkipped | parse.go:63-65 | With or without one leading `v`/`V`, an input parses to the same fields. Only the text differs. |
| ParseProperties.SecondPrefixFails | parse.go:63-73 | Only index 0 may hold a prefix: a second `v`/`V` fails with `Invalid(input)`. |
| ParseProperties.ParseMajorMinorPatch | parse.go:60-89 | For an optional prefix and digit runs M, N, P, `M.N.P` parses to exactly those values, with no extension. |
| ParseProperties.ParseMajorOnly | parse.go:85-89 | `M` parses to M.0.0: the absent sections default to 0. |
| ParseProperties.ParseMajorMinor | parse.go:85-89 | `M.N` parses to M.N.0. |
| ParseProperties.ParseBarePrefix | parse.go:85-89 | A bare `v`/`V` parses to 0.0.0, because an empty accumulator is not committed at the end. |
| ParseProperties.ParseTrailingDot | parse.go:85-89 | `M.` parses to M.0.0: a trailing dot leaves nothing to commit. |
| ParseProperties.ParseTrailingDotAfterMinor | parse.go:85-89 | `M.N.` parses to M.N.0. |
| ParseProperties.ParseExtensionAfterMajor | parse.go:76-83 | A byte that is neither a digit nor `.` after the major digits commits the major. That byte and everything after it become the extension, verbatim. |
| ParseProperties.ParseExtensionAfterMinor | parse.go:76-83 | The same rule, ending the minor section. |
| ParseProperties.ParseExtensionAfterPatch | parse.go:76-83 | The same rule, ending the patch section. |
| ParseProperties.ParseDotAfterPatch | parse.go:74-75 | A `.` right after the patch digits moves into the extension, and the dot is dropped. |
| ParseProperties.ParseEmptyMajorFails | parse.go:70-73 | A non-digit where the major's first digit should be fails with `Invalid(input)`. |
| ParseProperties.ParseEmptyMinorFails | parse.go:70-73 | A non-digit right after the major's `.` fails. |
| ParseProperties.ParseEmptyPatchFails | parse.go:70-73 | A non-digit right after the minor's `.` fails. |
| ParseProperties.SemanticStringRoundTrip | version.go:50-59 | Parsing `String` of a directly built version gives the same numbers and extension back, with the printed form as text. This needs the extension to be empty or to start with a byte that can start one. |
| ParseProperties.RoundTripOfNumerals | parse.go:60-89 | `M.N.P` followed by an extension parses back to those numbers and that extension, for any digit runs, leading zeros included. |
| ParseProperties.SectionsIgnoreText | parse.go:24 | The sections read from an input do not depend on the text the version carries. |
| ParseExamples.ParseTableNumeric | parse_test.go:16-21 | "0.0.0", "1.0.0", "0.1.0", "0.0.1", "10.20.30" and "27.31.15" parse to those numbers, with the input as text. |
| ParseExamples.ParseTablePrefixed | parse_test.go:22-24 | "v1.2.3" parses to 1.2.3, "v1" to 1.0.0 and "v2.31" to 2.31.0. |
| ParseExamples.ParseTableExtensions | parse_test.go:25-27 | "v1.2.0a" and "v1.2a" have extension "a", and "v1-alpha2" has "-alpha2". Beyond the table, "1.2.3.4" has patch 3 and extension "4", because a dot after the patch is dropped (parse.go:74-75). |
| ParseExamples.ParseTableFails | parse_test.go:28-39 | "invalid version", "v.01" and "v-any" fail with `Invalid(input)`, and each error `Is` `ErrInvalidVersion`. |
| ParseExamples.ParseOtherFails | parse.go:26-73 | Beyond the test table: "" (parse.go:26-28), "vv1" (a second prefix, parse.go:63-73) and "1..2" (an empty minor, parse.go:70-73) fail with `Invalid(input)`, and each error `Is` `ErrInvalidVersion`. |
| ParseExamples.CompareTable | version_test.go:54-57 | 1.1.1 < 1.2.0, 1.20.0 > 1.2.0, 1.20.0 > 1.2.20 and 1.20.0 < 1.20.1, through both `Compare` and `Less` (the same rows as version_test.go:90-93), with operands built by `MustParse`. |
| ParseExamples.StringTableSemantic | version_test.go:14-19 | A version without text prints as "Major.Minor.Patch", e.g. 0.0.0, 1.0.0, 10.20.30 and 27.31.15. |
| ParseExamples.StringTableText | version_test.go:20-23 | A version with text prints as that text, whatever its numbers and extension. |
| Decimal.Atoi | parse.go:39-42 | Conversion succeeds exactly on a non-empty run of digits and yields its decimal value. |
| Decimal.FormatNat | version.go:51 | `%d` of a number is a non-empty digit run whose value is the number, with no leading zero except in "0". |
| Decimal.DigitRun | parse.go:67-69 | The longest digit prefix: all digits, and followed by a non-digit or by the end. |
| Errors.Invalid | error.go:32-37 | The error carries the given input and `ErrInvalidVersion`'s message. |
| Errors.InvalidIsErrInvalidVersion | error.go:25-28 | Every `Invalid(s)` `Is` `ErrInvalidVersion` and `Is` any other `Invalid(t)`, whatever s and t are. |
| Errors.IsRejectsOtherErrors | error.go:29 | A target that is not an `Error` never matches. |
| Errors.IsIgnoresVersion | error.go:24-27 | Changing the stored input on either side never changes the answer. |
| Errors.IsEquivalence | error.go:26-27 | Among `Error` values, `Is` is reflexive, symmetric and transitive. |
| Versions.Compare | version.go:17-37 | Returns only -1, 0 or 1. Returns 0 exactly when major, minor and patch agree. Returns -1 or 1 exactly as the keys are lexicographically ordered, most significant field first. |
| Versions.Less | version.go:39-45 | Holds exactly when `a` orders lexicographically before `b`, that is when `Compare(a, b) < 0`. |
| Versions.LexLessOnKeys | version.go:22-34 | The lexicographic order on (major, minor, patch) decides on major first, then minor, then patch. |
| Versions.CompareReflexive | version_test.go:45-47 | Every version compares equal to itself. |
| Versions.CompareAntisymmetric | version.go:21-37 | Swapping the operands negates the result. |
| Versions.CompareIgnoresExtensionAndText | version.go:17-37 | Changing the extension or the text of either operand does not change the result. |
| Versions.CompareTransitive | version.go:21-37 | "At most" and "strictly before" chain through a middle version. |
| Versions.LessStrictWeakOrder | version.go:43-45 | `Less` is irreflexive, asymmetric and transitive, and comparing equal is transitive. Any two versions are ordered one way or compare equal. |
| Versions.SemanticStringShape | version.go:50-59 | The semantic form is the decimal major, `.`, minor, `.`, patch, then the extension, each part reading back as its value. `String` is the text when it is non-empty and the semantic form otherwise. |
| Constraints.Match | version_test.go:114-174 | Test-derived. A nil constraint matches. Otherwise the version must be strictly above `gt` (or not below `gte` when there is no `gt`) and strictly below `lt` (or not above `lte` when there is no `lt`). |
| Constraints.BoundsAtEquality | version_test.go:114-126 | Test-derived. At an equal version, `gt`/`lt` exclude it and `gte`/`lte` admit it. |
| Constraints.StrictOverridesInclusive | version_test.go:168-174 | Test-derived. When both are set, `gt` overrides `gte` and `lt` overrides `lte`. |
| Constraints.BothSidesMustHold | version_test.go:128-166 | Test-derived. With bounds on both sides, the version must satisfy each side. |
| Constraints.MatchIgnoresExtension | version_test.go:114-174 | Test-derived. Extension and text of the version never affect matching. |
| Constraints.MatchTableOneBound | version_test.go:114-126 | Test-derived. The single-bound rows for 1.0.0 against 0.1.0, 1.0.0 and 1.1.0. |
| Constraints.MatchTableGtAndUpper | version_test.go:128-146 | Test-derived. The rows combining `gt` with `lt` or `lte`. |
| Constraints.MatchTableGteAndUpper | version_test.go:148-166 | Test-derived. The rows combining `gte` with `lt` or `lte`. |
| Constraints.MatchTableSameSide | version_test.go:168-174 | Test-derived. The rows with two bounds on the same side. |
| Lists.MatchList | list.go:6-17 | The result holds exactly the matching versions of the input. Every matching occurrence is kept and nothing else. The order is the original order, the result is no longer than the input, and a nil constraint returns the input unchanged. |
| Lists.FilterKeepsOnlyMatches | list.go:10-14 | Every element the filtering loop appends matches the constraint. |
| Lists.FilterCounts | list.go:10-14 | Each version occurs in the result as often as in the input when it matches, and not at all otherwise. |
| Lists.FilterInOrder | list.go:10-14 | The result is a subsequence of the input. |
| Lists.Len | list.go:19-21 | The number of versions, repeated ones included. |
| Lists.LessAt | list.go:23-25 | `Less(i, j)` holds exactly when the version at i compares as -1 against the one at j. It never holds in both directions, nor for i = j. |
| Lists.Swap | list.go:27-32 | Positions i and j trade versions. The length, every other position and the multiset of versions are unchanged. |
| Lists.InsertionSortCorrect | list_test.go:29-33 | The reference sort returns a list that is non-decreasing by `Compare`, a permutation of its input, and stable: versions that compare equal keep their relative order. |
| Lists.SiftDown | list.go:23-32 | One insertion pass made of `Less` and `Swap` calls places the version at i into the sorted prefix, as the reference insertion step does, and leaves the suffix alone. |
| Lists.Sort | list_test.go:29-33 | Sorting through `Len`, `Less` and `Swap` gives the reference insertion sort. The result is sorted, a permutation of the input, and stable. |
| ListExamples.SortTableFirst | list_test.go:15-18 | [1.1.1, 1.0.1, 1.1.0, 1.0.0] sorts to [1.0.0, 1.0.1, 1.1.0, 1.1.1]. |
| ListExamples.SortTableSecond | list_test.go:19-22 | [4.0.0, 3.0.0, 2.0.0, 1.0.0] sorts to [1.0.0, 2.0.0, 3.0.0, 4.0.0]. |
| ListExamples.SortTableThird | list_test.go:23-26 | [2.0.4, 1.2.4, 1.2.3, 1.3.1] sorts to [1.2.3, 1.2.4, 1.3.1, 2.0.4]. |
| ListExamples.MatchListTableNone | list_test.go:59-62 | With no constraint, the four versions are all kept. |
| ListExamples.MatchListTableGt | list_test.go:63-67 | `gt` 1.0.0 keeps [1.1.0, 2.0.2, 3.4.5]. |
| ListExamples.MatchListTableLt | list_test.go:68-72 | `lt` 3.0.0 keeps [1.0.0, 1.1.0, 2.0.2]. |
| ListExamples.MatchListTableGte | list_test.go:73-77 | `gte` 2.0.2 keeps [2.0.2, 3.4.5]. |

## Left out

- `Error.Error()` (error.go:16-19) is not modelled. It formats with `fmt.Sprintf` and Go's `%q` quoting, which is library behaviour outside this package.
- Go `int` width is not modelled. Fields are unbounded naturals, so the overflow failure of `strconv.Atoi` (parse.go:39-42) is not modelled either. The accumulator only ever holds digits, so overflow is that branch's only trigger.
- Decimal.Atoi: signs and other inputs that `strconv.Atoi` would accept never reach it, because the parser hands it only digit runs. It models exactly that use.
- Versions.Compare: a nil operand is not modelled. version_test.go:58-60 expects a nil operand to compare as 0. The code at version.go:21-22 reads both operands' fields without a nil check, so it would fail instead. The model follows the code and compares present versions only; it does not adopt the "absent compares as equal" reading of the tests.
- Constraints.Match: a nil version is not modelled. The Go source of `Constraint` and `Version.Match` is not part of this model, so `Match` states only the rules the version tests assert. It invents nothing for a nil version.
- `List` holds pointers, which are not modelled. It is a sequence of values: pointer identity, aliasing and in-place mutation are not modelled. `Swap` and the sort return new sequences.
- `sort.Stable` is not modelled; it is standard-library code. `Lists.Sort` is an insertion sort built from the same `Len`/`Less`/`Swap` operations, with sortedness, permutation and stability proved for it.
- Parser.MustParse: the `panic` (parse.go:18) is not modelled. It appears as the precondition that `Parse` succeeds.
- Bytes are modelled as characters. Each character of a string stands for one byte of the Go string; Unicode is not modelled.
