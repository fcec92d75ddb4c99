/** The list tests: sorting and filtering fixed lists of versions. */
module ListExamples {
  import opened Results
  import opened Versions
  import opened Constraints
  import opened Lists

  /** One unfolding of the reference insertion step. */
  lemma InsertAfter(s: List, y: Version, x: Version)
    ensures Insert(s + [y], x) == if Less(x, y) then Insert(s, x) + [y] else s + [y] + [x]
  {
    assert (s + [y])[..|s|] == s;
  }

  /** One unfolding of the reference sort. */
  lemma SortAfter(s: List, x: Version)
    ensures InsertionSort(s + [x]) == Insert(InsertionSort(s), x)
  {
    assert (s + [x])[..|s|] == s;
  }

  /** The reference sort of four versions inserts them one by one. */
  lemma SortOfFour(a: Version, b: Version, c: Version, d: Version)
    ensures InsertionSort([a, b, c, d]) == Insert(Insert(Insert([a], b), c), d)
  {
    assert [a, b, c, d] == [a, b, c] + [d];
    assert [a, b, c] == [a, b] + [c];
    assert [a, b] == [a] + [b];
    assert [a] == [] + [a];
    SortAfter([], a);
    SortAfter([a], b);
    SortAfter([a, b], c);
    SortAfter([a, b, c], d);
  }

  /** Inserting into one version. */
  lemma InsertOne(a: Version, x: Version)
    ensures Insert([a], x) == if Less(x, a) then [x, a] else [a, x]
  {
    InsertAfter([], a, x);
  }

  /** Inserting into two versions. */
  lemma InsertTwo(a: Version, b: Version, x: Version)
    ensures Insert([a, b], x) == if Less(x, b) then Insert([a], x) + [b] else [a, b, x]
  {
    InsertAfter([a], b, x);
  }

  /** Inserting into three versions. */
  lemma InsertThree(a: Version, b: Version, c: Version, x: Version)
    ensures Insert([a, b, c], x) == if Less(x, c) then Insert([a, b], x) + [c] else [a, b, c, x]
  {
    assert [a, b] + [c] == [a, b, c];
    InsertAfter([a, b], c, x);
    assert [a, b, c] + [x] == [a, b, c, x];
  }

  /** The first sorting row: [1.1.1, 1.0.1, 1.1.0, 1.0.0] sorts to
      [1.0.0, 1.0.1, 1.1.0, 1.1.1]. */
  lemma SortTableFirst(v111: Version, v101: Version, v110: Version, v100: Version)
    requires v111 == Version(1, 1, 1, "", "1.1.1") && v101 == Version(1, 0, 1, "", "1.0.1")
    requires v110 == Version(1, 1, 0, "", "1.1.0") && v100 == Version(1, 0, 0, "", "1.0.0")
    ensures InsertionSort([v111, v101, v110, v100]) == [v100, v101, v110, v111]
  {
    assert Less(v101, v111) && Less(v110, v111) && !Less(v110, v101);
    assert Less(v100, v111) && Less(v100, v110) && Less(v100, v101);
    SortOfFour(v111, v101, v110, v100);
    InsertOne(v111, v101);
    InsertTwo(v101, v111, v110);
    InsertOne(v101, v110);
    InsertThree(v101, v110, v111, v100);
    InsertTwo(v101, v110, v100);
    InsertOne(v101, v100);
  }

  /** The second sorting row: [4.0.0, 3.0.0, 2.0.0, 1.0.0] sorts to
      [1.0.0, 2.0.0, 3.0.0, 4.0.0]. */
  lemma SortTableSecond(v4: Version, v3: Version, v2: Version, v1: Version)
    requires v4 == Version(4, 0, 0, "", "4.0.0") && v3 == Version(3, 0, 0, "", "3.0.0")
    requires v2 == Version(2, 0, 0, "", "2.0.0") && v1 == Version(1, 0, 0, "", "1.0.0")
    ensures InsertionSort([v4, v3, v2, v1]) == [v1, v2, v3, v4]
  {
    assert Less(v3, v4) && Less(v2, v4) && Less(v2, v3) && Less(v1, v4) && Less(v1, v3) && Less(v1, v2);
    SortOfFour(v4, v3, v2, v1);
    InsertOne(v4, v3);
    InsertTwo(v3, v4, v2);
    InsertOne(v3, v2);
    InsertThree(v2, v3, v4, v1);
    InsertTwo(v2, v3, v1);
    InsertOne(v2, v1);
  }

  /** The third sorting row: [2.0.4, 1.2.4, 1.2.3, 1.3.1] sorts to
      [1.2.3, 1.2.4, 1.3.1, 2.0.4]. */
  lemma SortTableThird(a: Version, b: Version, c: Version, d: Version)
    requires a == Version(2, 0, 4, "", "2.0.4") && b == Version(1, 2, 4, "", "1.2.4")
    requires c == Version(1, 2, 3, "", "1.2.3") && d == Version(1, 3, 1, "", "1.3.1")
    ensures InsertionSort([a, b, c, d]) == [c, b, d, a]
  {
    assert Less(b, a) && Less(c, a) && Less(c, b) && Less(d, a) && !Less(d, b);
    SortOfFour(a, b, c, d);
    InsertOne(a, b);
    InsertTwo(b, a, c);
    InsertOne(b, c);
    InsertThree(c, b, a, d);
    InsertTwo(c, b, d);
  }

  /** One unfolding of the filter. */
  lemma MatchListAfter(s: List, x: Version, c: Option<Constraint>)
    ensures Filter(s + [x], c) == Filter(s, c) + if Match(x, c) then [x] else []
  {
    assert (s + [x])[..|s|] == s;
  }

  /** The filter on a four-element list keeps each matching element. */
  lemma MatchListOfFour(a: Version, b: Version, d: Version, e: Version, c: Option<Constraint>)
    ensures Filter([a, b, d, e], c) ==
      (if Match(a, c) then [a] else []) + (if Match(b, c) then [b] else [])
      + (if Match(d, c) then [d] else []) + (if Match(e, c) then [e] else [])
  {
    assert [a, b, d, e] == [a, b, d] + [e];
    assert [a, b, d] == [a, b] + [d];
    assert [a, b] == [a] + [b];
    assert [a] == [] + [a];
    MatchListAfter([], a, c);
    MatchListAfter([a], b, c);
    MatchListAfter([a, b], d, c);
    MatchListAfter([a, b, d], e, c);
  }

  /** The filtering rows: no constraint keeps everything, and `gt`, `lt`,
      `gte` keep exactly the versions above, below, or not below the bound.
      The operands are 1.0.0, 1.1.0, 2.0.2 and 3.4.5. */
  predicate TableVersions(v100: Version, v110: Version, v202: Version, v345: Version) {
    && v100 == Version(1, 0, 0, "", "1.0.0") && v110 == Version(1, 1, 0, "", "1.1.0")
    && v202 == Version(2, 0, 2, "", "2.0.2") && v345 == Version(3, 4, 5, "", "3.4.5")
  }

  lemma MatchListTableNone(v100: Version, v110: Version, v202: Version, v345: Version)
    requires TableVersions(v100, v110, v202, v345)
    ensures MatchList([v100, v110, v202, v345], None) == [v100, v110, v202, v345]
  {
  }

  lemma MatchListTableGt(v100: Version, v110: Version, v202: Version, v345: Version)
    requires TableVersions(v100, v110, v202, v345)
    ensures MatchList([v100, v110, v202, v345], Some(Constraint(Some(v100), None, None, None))) == [v110, v202, v345]
  {
    var c := Some(Constraint(Some(v100), None, None, None));
    assert !Match(v100, c) && Match(v110, c) && Match(v202, c) && Match(v345, c);
    MatchListOfFour(v100, v110, v202, v345, c);
    assert [] + [v110] + [v202] + [v345] == [v110, v202, v345];
  }

  lemma MatchListTableLt(v100: Version, v110: Version, v202: Version, v345: Version, v300: Version)
    requires TableVersions(v100, v110, v202, v345) && v300 == Version(3, 0, 0, "", "3.0.0")
    ensures MatchList([v100, v110, v202, v345], Some(Constraint(None, None, Some(v300), None))) == [v100, v110, v202]
  {
    var c := Some(Constraint(None, None, Some(v300), None));
    assert Match(v100, c) && Match(v110, c) && Match(v202, c) && !Match(v345, c);
    MatchListOfFour(v100, v110, v202, v345, c);
    assert [v100] + [v110] + [v202] + [] == [v100, v110, v202];
  }

  lemma MatchListTableGte(v100: Version, v110: Version, v202: Version, v345: Version)
    requires TableVersions(v100, v110, v202, v345)
    ensures MatchList([v100, v110, v202, v345], Some(Constraint(None, Some(v202), None, None))) == [v202, v345]
  {
    var c := Some(Constraint(None, Some(v202), None, None));
    assert !Match(v100, c) && !Match(v110, c) && Match(v202, c) && Match(v345, c);
    MatchListOfFour(v100, v110, v202, v345, c);
    assert [] + [] + [v202] + [v345] == [v202, v345];
  }
}
