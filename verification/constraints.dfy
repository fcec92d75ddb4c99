/** Range constraints on versions. The library's `Constraint` type and
    `Version.Match` are used by the list filter, but their definitions are not
    part of this model: the rules below are the ones the version tests assert
    (a missing constraint matches everything; a strict bound excludes an equal
    version and an inclusive one admits it; a strict bound overrides the
    inclusive bound on the same side; lower and upper bounds must both hold). */
module Constraints {
  import opened Results
  import opened Versions

  /** Up to four optional bounds; `gt`/`gte` bound from below, `lt`/`lte`
      from above. */
  datatype Constraint = Constraint(gt: Option<Version>, gte: Option<Version>, lt: Option<Version>, lte: Option<Version>)

  /** The lower bound: `gt` if present, else `gte`, else none. */
  predicate AboveLower(v: Version, c: Constraint) {
    match c.gt
    case Some(b) => Compare(v, b) > 0
    case None =>
      match c.gte
      case Some(b) => Compare(v, b) >= 0
      case None => true
  }

  /** The upper bound: `lt` if present, else `lte`, else none. */
  predicate BelowUpper(v: Version, c: Constraint) {
    match c.lt
    case Some(b) => Compare(v, b) < 0
    case None =>
      match c.lte
      case Some(b) => Compare(v, b) <= 0
      case None => true
  }

  /** Whether `v` satisfies the constraint `c`, where `None` stands for a nil
      constraint. Stated in terms of `Less`: the version must lie strictly
      above `gt`, or not below `gte` when there is no `gt`, and symmetrically
      for the upper side. */
  function Match(v: Version, c: Option<Constraint>): (r: bool)
    ensures c.None? ==> r
    ensures c.Some? ==> (r <==>
      && (c.value.gt.Some? ==> Less(c.value.gt.value, v))
      && (c.value.gt.None? && c.value.gte.Some? ==> !Less(v, c.value.gte.value))
      && (c.value.lt.Some? ==> Less(v, c.value.lt.value))
      && (c.value.lt.None? && c.value.lte.Some? ==> !Less(c.value.lte.value, v)))
  {
    match c
    case None => true
    case Some(k) => AboveLower(v, k) && BelowUpper(v, k)
  }

  /** Strict bounds exclude an equal version, inclusive bounds admit it. */
  lemma BoundsAtEquality(v: Version, b: Version)
    requires Compare(v, b) == 0
    ensures !Match(v, Some(Constraint(Some(b), None, None, None)))
    ensures Match(v, Some(Constraint(None, Some(b), None, None)))
    ensures !Match(v, Some(Constraint(None, None, Some(b), None)))
    ensures Match(v, Some(Constraint(None, None, None, Some(b))))
  {
  }

  /** When both are present, `gt` overrides `gte` and `lt` overrides `lte`. */
  lemma StrictOverridesInclusive(v: Version, c: Constraint)
    ensures c.gt.Some? ==> Match(v, Some(c)) == Match(v, Some(c.(gte := None)))
    ensures c.lt.Some? ==> Match(v, Some(c)) == Match(v, Some(c.(lte := None)))
  {
  }

  /** A constraint with both sides holds exactly when its lower half and its
      upper half each hold. */
  lemma BothSidesMustHold(v: Version, c: Constraint)
    ensures Match(v, Some(c)) <==>
      Match(v, Some(c.(lt := None, lte := None))) && Match(v, Some(c.(gt := None, gte := None)))
  {
  }

  /** Only major, minor and patch of the version and of the bounds matter. */
  lemma MatchIgnoresExtension(v: Version, c: Option<Constraint>, e: string, t: string)
    ensures Match(v.(extension := e, text := t), c) == Match(v, c)
  {
  }

  /** Rows of the matching table of the version tests for the version
      1.0.0: one bound. */
  lemma MatchTableOneBound(v010: Version, v100: Version, v110: Version)
    requires v010 == Version(0, 1, 0, "", "0.1.0")
    requires v100 == Version(1, 0, 0, "", "1.0.0")
    requires v110 == Version(1, 1, 0, "", "1.1.0")
    ensures Match(v100, None)
    ensures Match(v100, Some(Constraint(Some(v010), None, None, None)))
    ensures !Match(v100, Some(Constraint(Some(v100), None, None, None)))
    ensures !Match(v100, Some(Constraint(Some(v110), None, None, None)))
    ensures Match(v100, Some(Constraint(None, Some(v010), None, None)))
    ensures Match(v100, Some(Constraint(None, Some(v100), None, None)))
    ensures !Match(v100, Some(Constraint(None, Some(v110), None, None)))
    ensures !Match(v100, Some(Constraint(None, None, Some(v010), None)))
    ensures !Match(v100, Some(Constraint(None, None, Some(v100), None)))
    ensures Match(v100, Some(Constraint(None, None, Some(v110), None)))
    ensures !Match(v100, Some(Constraint(None, None, None, Some(v010))))
    ensures Match(v100, Some(Constraint(None, None, None, Some(v100))))
    ensures Match(v100, Some(Constraint(None, None, None, Some(v110))))
  {
    assert Less(v010, v100) && Less(v100, v110) && !Less(v100, v100);
  }

  /** Rows of the matching table of the version tests for the version
      1.0.0: `gt` together with `lt` or `lte`. */
  lemma MatchTableGtAndUpper(v010: Version, v100: Version, v110: Version)
    requires v010 == Version(0, 1, 0, "", "0.1.0")
    requires v100 == Version(1, 0, 0, "", "1.0.0")
    requires v110 == Version(1, 1, 0, "", "1.1.0")
    ensures !Match(v100, Some(Constraint(Some(v010), None, Some(v010), None)))
    ensures !Match(v100, Some(Constraint(Some(v010), None, Some(v100), None)))
    ensures Match(v100, Some(Constraint(Some(v010), None, Some(v110), None)))
    ensures !Match(v100, Some(Constraint(Some(v100), None, Some(v010), None)))
    ensures !Match(v100, Some(Constraint(Some(v100), None, Some(v100), None)))
    ensures !Match(v100, Some(Constraint(Some(v100), None, Some(v110), None)))
    ensures !Match(v100, Some(Constraint(Some(v110), None, Some(v010), None)))
    ensures !Match(v100, Some(Constraint(Some(v110), None, Some(v100), None)))
    ensures !Match(v100, Some(Constraint(Some(v110), None, Some(v110), None)))
    ensures !Match(v100, Some(Constraint(Some(v010), None, None, Some(v010))))
    ensures Match(v100, Some(Constraint(Some(v010), None, None, Some(v100))))
    ensures Match(v100, Some(Constraint(Some(v010), None, None, Some(v110))))
    ensures !Match(v100, Some(Constraint(Some(v100), None, None, Some(v010))))
    ensures !Match(v100, Some(Constraint(Some(v100), None, None, Some(v100))))
    ensures !Match(v100, Some(Constraint(Some(v100), None, None, Some(v110))))
    ensures !Match(v100, Some(Constraint(Some(v110), None, None, Some(v010))))
    ensures !Match(v100, Some(Constraint(Some(v110), None, None, Some(v100))))
    ensures !Match(v100, Some(Constraint(Some(v110), None, None, Some(v110))))
  {
    assert Less(v010, v100) && Less(v100, v110) && !Less(v100, v100);
  }

  /** Rows of the matching table of the version tests for the version
      1.0.0: `gte` together with `lt` or `lte`. */
  lemma MatchTableGteAndUpper(v010: Version, v100: Version, v110: Version)
    requires v010 == Version(0, 1, 0, "", "0.1.0")
    requires v100 == Version(1, 0, 0, "", "1.0.0")
    requires v110 == Version(1, 1, 0, "", "1.1.0")
    ensures !Match(v100, Some(Constraint(None, Some(v010), Some(v010), None)))
    ensures !Match(v100, Some(Constraint(None, Some(v010), Some(v100), None)))
    ensures Match(v100, Some(Constraint(None, Some(v010), Some(v110), None)))
    ensures !Match(v100, Some(Constraint(None, Some(v100), Some(v010), None)))
    ensures !Match(v100, Some(Constraint(None, Some(v100), Some(v100), None)))
    ensures Match(v100, Some(Constraint(None, Some(v100), Some(v110), None)))
    ensures !Match(v100, Some(Constraint(None, Some(v110), Some(v010), None)))
    ensures !Match(v100, Some(Constraint(None, Some(v110), Some(v100), None)))
    ensures !Match(v100, Some(Constraint(None, Some(v110), Some(v110), None)))
    ensures !Match(v100, Some(Constraint(None, Some(v010), None, Some(v010))))
    ensures Match(v100, Some(Constraint(None, Some(v010), None, Some(v100))))
    ensures Match(v100, Some(Constraint(None, Some(v010), None, Some(v110))))
    ensures !Match(v100, Some(Constraint(None, Some(v100), None, Some(v010))))
    ensures Match(v100, Some(Constraint(None, Some(v100), None, Some(v100))))
    ensures Match(v100, Some(Constraint(None, Some(v100), None, Some(v110))))
    ensures !Match(v100, Some(Constraint(None, Some(v110), None, Some(v010))))
    ensures !Match(v100, Some(Constraint(None, Some(v110), None, Some(v100))))
    ensures !Match(v100, Some(Constraint(None, Some(v110), None, Some(v110))))
  {
    assert Less(v010, v100) && Less(v100, v110) && !Less(v100, v100);
  }

  /** Rows of the matching table of the version tests for the version
      1.0.0: both bounds on one side. */
  lemma MatchTableSameSide(v010: Version, v100: Version, v110: Version)
    requires v010 == Version(0, 1, 0, "", "0.1.0")
    requires v100 == Version(1, 0, 0, "", "1.0.0")
    requires v110 == Version(1, 1, 0, "", "1.1.0")
    ensures !Match(v100, Some(Constraint(Some(v100), Some(v100), None, None)))
    ensures Match(v100, Some(Constraint(Some(v010), Some(v110), None, None)))
    ensures !Match(v100, Some(Constraint(Some(v110), Some(v010), None, None)))
    ensures !Match(v100, Some(Constraint(None, None, Some(v100), Some(v100))))
    ensures !Match(v100, Some(Constraint(None, None, Some(v010), Some(v110))))
    ensures Match(v100, Some(Constraint(None, None, Some(v110), Some(v010))))
  {
    assert Less(v010, v100) && Less(v100, v110) && !Less(v100, v100);
  }
}
