/** The library's single error kind: an `Error` record carrying a message
    template and the offending input, compared by message only. */
module Errors {

  /** A version error: `message` is a format template, `version` the input. */
  datatype Error = Error(message: string, version: string)

  /** The sentinel callers match against; it carries no input. */
  const ErrInvalidVersion: Error := Error("invalid version %q", "")

  /** A Go `error` value handed to `Is` as its target: either an `Error`
      record, or a value of some other dynamic type, known only by a name. */
  datatype Target = AnError(err: Error) | OtherError(typeName: string)

  /** The error the parser returns for a malformed input. */
  function Invalid(version: string): (e: Error)
    ensures e.version == version
    ensures e.message == ErrInvalidVersion.message
  {
    Error(ErrInvalidVersion.message, version)
  }

  /** `Error.Is`: a target matches when it is an `Error` whose message equals
      this one's; the stored inputs play no part. */
  predicate Is(e: Error, target: Target) {
    match target
    case AnError(t) => t.message == e.message
    case OtherError(_) => false
  }

  /** Every error `Invalid` builds is `ErrInvalidVersion`, whatever the input. */
  lemma InvalidIsErrInvalidVersion(s: string, t: string)
    ensures Is(Invalid(s), AnError(ErrInvalidVersion))
    ensures Is(Invalid(s), AnError(Invalid(t)))
  {
  }

  /** `Is` never holds for a target that is not an `Error`. */
  lemma IsRejectsOtherErrors(e: Error, name: string)
    ensures !Is(e, OtherError(name))
  {
  }

  /** `Is` ignores the stored input on both sides. */
  lemma IsIgnoresVersion(e: Error, t: Error, v1: string, v2: string)
    ensures Is(e, AnError(t)) <==> Is(e.(version := v1), AnError(t.(version := v2)))
  {
  }

  /** Among `Error` values, `Is` is an equivalence: reflexive, symmetric and
      transitive. */
  lemma IsEquivalence(a: Error, b: Error, c: Error)
    ensures Is(a, AnError(a))
    ensures Is(a, AnError(b)) <==> Is(b, AnError(a))
    ensures Is(a, AnError(b)) && Is(b, AnError(c)) ==> Is(a, AnError(c))
  {
  }
}
