/** `List`, a sequence of versions: filtering by a constraint, and the three
    operations (`Len`, `Less`, `Swap`) through which it is sorted. The sort
    itself is an insertion sort written with those operations, checked
    against a functional insertion sort. */
module Lists {
  import opened Results
  import opened Versions
  import opened Constraints

  type List = seq<Version>

  /** `r` can be obtained from `s` by deleting elements. */
  predicate IsSubsequence(r: List, s: List)
    decreases |s|
  {
    if r == [] then true
    else if s == [] then false
    else
      || (r[|r| - 1] == s[|s| - 1] && IsSubsequence(r[..|r| - 1], s[..|s| - 1]))
      || IsSubsequence(r, s[..|s| - 1])
  }

  /** The filtering loop of `List.Match`: versions are appended in order,
      each one that matches. */
  function Filter(list: List, c: Option<Constraint>): List {
    if list == [] then []
    else if Match(list[|list| - 1], c) then Filter(list[..|list| - 1], c) + [list[|list| - 1]]
    else Filter(list[..|list| - 1], c)
  }

  /** The filtering loop keeps only matching versions, and everything when
      there is no constraint. */
  lemma {:induction false} FilterKeepsOnlyMatches(list: List, c: Option<Constraint>)
    ensures |Filter(list, c)| <= |list|
    ensures forall i :: 0 <= i < |Filter(list, c)| ==> Match(Filter(list, c)[i], c)
    ensures c.None? ==> Filter(list, c) == list
  {
    if list != [] {
      var init := list[..|list| - 1];
      assert list == init + [list[|list| - 1]];
      FilterKeepsOnlyMatches(init, c);
    }
  }

  /** The filtering loop keeps every matching occurrence. */
  lemma {:induction false} FilterCounts(list: List, c: Option<Constraint>)
    ensures forall x :: multiset(Filter(list, c))[x] == if Match(x, c) then multiset(list)[x] else 0
  {
    if list != [] {
      var init, last := list[..|list| - 1], list[|list| - 1];
      assert list == init + [last];
      assert multiset(list) == multiset(init) + multiset{last};
      FilterCounts(init, c);
    }
  }

  /** The filtering loop keeps the original order. */
  lemma {:induction false} FilterInOrder(list: List, c: Option<Constraint>)
    ensures IsSubsequence(Filter(list, c), list)
  {
    if list != [] {
      var init, last := list[..|list| - 1], list[|list| - 1];
      var rest := Filter(init, c);
      FilterInOrder(init, c);
      if Match(last, c) {
        assert (rest + [last])[..|rest|] == rest;
      } else {
        SubsequenceOfPrefix(rest, list);
      }
    }
  }

  /** A subsequence of all but the last element is a subsequence. */
  lemma SubsequenceOfPrefix(r: List, s: List)
    requires s != [] && IsSubsequence(r, s[..|s| - 1])
    ensures IsSubsequence(r, s)
  {
  }

  /** `List.Match`: a fresh list of the matching versions, in their original
      order; every matching occurrence is kept and nothing else. */
  function MatchList(list: List, c: Option<Constraint>): (r: List)
    ensures |r| <= |list|
    ensures forall i :: 0 <= i < |r| ==> Match(r[i], c)
    ensures forall x :: multiset(r)[x] == if Match(x, c) then multiset(list)[x] else 0
    ensures IsSubsequence(r, list)
    ensures c.None? ==> r == list
  {
    FilterKeepsOnlyMatches(list, c);
    FilterCounts(list, c);
    FilterInOrder(list, c);
    Filter(list, c)
  }

  /** `Len`: the number of versions, counting repeated ones. */
  function Len(list: List): (n: nat)
    ensures n == |multiset(list)|
  {
    |list|
  }

  /** `Less(i, j)`: the version at `i` orders before the one at `j`. */
  function LessAt(list: List, i: nat, j: nat): (r: bool)
    requires i < |list| && j < |list|
    ensures r <==> Compare(list[i], list[j]) == -1
    ensures r ==> !Less(list[j], list[i])
    ensures i == j ==> !r
  {
    Less(list[i], list[j])
  }

  /** `Swap(i, j)`: the versions at `i` and `j` trade places. */
  function Swap(list: List, i: nat, j: nat): (r: List)
    requires i < |list| && j < |list|
    ensures Len(r) == Len(list)
    ensures r[i] == list[j] && r[j] == list[i]
    ensures forall k :: 0 <= k < |list| && k != i && k != j ==> r[k] == list[k]
    ensures multiset(r) == multiset(list)
  {
    list[i := list[j]][j := list[i]]
  }

  /** Non-decreasing by `Compare`: no later version is `Less` than an earlier one. */
  predicate Sorted(s: List) {
    forall i, j :: 0 <= i < j < |s| ==> !Less(s[j], s[i])
  }

  /** The versions of `s` that compare equal to `k`, in order. */
  function SameKey(s: List, k: Version): List {
    if s == [] then []
    else if Compare(s[|s| - 1], k) == 0 then SameKey(s[..|s| - 1], k) + [s[|s| - 1]]
    else SameKey(s[..|s| - 1], k)
  }

  /** Versions that compare equal keep their relative order. */
  ghost predicate StableFrom(r: List, s: List) {
    forall k :: SameKey(r, k) == SameKey(s, k)
  }

  /** The reference insertion step: `x` goes after every element it is not
      `Less` than, starting from the end. */
  function Insert(s: List, x: Version): List
    decreases |s|
  {
    if s == [] then [x]
    else if Less(x, s[|s| - 1]) then Insert(s[..|s| - 1], x) + [s[|s| - 1]]
    else s + [x]
  }

  /** The reference insertion sort. */
  function InsertionSort(s: List): List
    decreases |s|
  {
    if s == [] then [] else Insert(InsertionSort(s[..|s| - 1]), s[|s| - 1])
  }

  lemma {:induction false} SameKeyAppend(a: List, b: List, k: Version)
    ensures SameKey(a + b, k) == SameKey(a, k) + SameKey(b, k)
    decreases |b|
  {
    if b == [] {
      assert a + b == a;
    } else {
      var b' := b[..|b| - 1];
      assert (a + b)[..|a + b| - 1] == a + b';
      SameKeyAppend(a, b', k);
    }
  }

  lemma {:induction false} InsertPermutes(s: List, x: Version)
    ensures multiset(Insert(s, x)) == multiset(s) + multiset{x}
    decreases |s|
  {
    if s != [] {
      var init, last := s[..|s| - 1], s[|s| - 1];
      assert s == init + [last];
      if Less(x, last) {
        InsertPermutes(init, x);
      }
    }
  }

  lemma {:induction false} InsertKeepsOrder(s: List, x: Version)
    ensures StableFrom(Insert(s, x), s + [x])
    decreases |s|
  {
    if s != [] {
      var init, last := s[..|s| - 1], s[|s| - 1];
      if Less(x, last) {
        InsertKeepsOrder(init, x);
        assert s == init + [last];
        forall k
          ensures SameKey(Insert(s, x), k) == SameKey(s + [x], k)
        {
          SameKeyAppend(Insert(init, x), [last], k);
          SameKeyAppend(init + [x], [last], k);
          SwapUnequalKeys(init, x, last, k);
        }
      }
    }
  }

  /** Two versions of different keys may trade places without changing
      which versions of any one key come in which order. */
  lemma SwapUnequalKeys(a: List, x: Version, y: Version, k: Version)
    requires Less(x, y)
    ensures SameKey(a + [x] + [y], k) == SameKey(a + [y] + [x], k)
  {
    SameKeyAppend(a, [x], k);
    SameKeyAppend(a + [x], [y], k);
    SameKeyAppend(a, [y], k);
    SameKeyAppend(a + [y], [x], k);
    assert SameKey([x], k) == [] || SameKey([y], k) == [];
  }

  /** A version not `Less` than the last of a sorted list may follow it. */
  lemma AppendSorted(s: List, x: Version)
    requires Sorted(s) && (s == [] || !Less(x, s[|s| - 1]))
    ensures Sorted(s + [x])
  {
    forall i | 0 <= i < |s|
      ensures !Less(x, s[i])
    {
      CompareTransitive(x, s[|s| - 1], s[i]);
    }
  }

  lemma {:induction false} InsertSorted(s: List, x: Version)
    requires Sorted(s)
    ensures Sorted(Insert(s, x))
    decreases |s|
  {
    if s != [] {
      var init, last := s[..|s| - 1], s[|s| - 1];
      if Less(x, last) {
        InsertSorted(init, x);
        InsertPermutes(init, x);
        var t := Insert(init, x);
        forall i | 0 <= i < |t|
          ensures !Less(last, t[i])
        {
          assert t[i] in multiset(t);
          assert t[i] == x || t[i] in multiset(init);
        }
        if t != [] {
          assert t[|t| - 1] in multiset(t);
        }
        AppendSorted(t, last);
      } else {
        AppendSorted(s, x);
      }
    }
  }

  /** The reference sort orders, permutes, and is stable. */
  lemma {:induction false} InsertionSortCorrect(s: List)
    ensures Sorted(InsertionSort(s))
    ensures multiset(InsertionSort(s)) == multiset(s)
    ensures StableFrom(InsertionSort(s), s)
    decreases |s|
  {
    if s != [] {
      var init, last := s[..|s| - 1], s[|s| - 1];
      assert s == init + [last];
      InsertionSortCorrect(init);
      InsertSorted(InsertionSort(init), last);
      InsertPermutes(InsertionSort(init), last);
      InsertKeepsOrder(InsertionSort(init), last);
      forall k
        ensures SameKey(InsertionSort(s), k) == SameKey(s, k)
      {
        SameKeyAppend(InsertionSort(init), [last], k);
        SameKeyAppend(init, [last], k);
      }
    }
  }

  /** One insertion pass: the version at `i` is swapped leftwards past the
      versions it is `Less` than, the prefix before it being sorted. */
  method SiftDown(list: List, i: nat) returns (r: List)
    requires i < |list|
    ensures |r| == |list|
    ensures r[..i + 1] == Insert(list[..i], list[i])
    ensures r[i + 1..] == list[i + 1..]
  {
    var x := list[i];
    r := list;
    var j := i;
    assert r[j + 1..i + 1] == [];
    while j > 0 && LessAt(r, j, j - 1)
      invariant 0 <= j <= i < |r| == |list|
      invariant r[j] == x
      invariant r[i + 1..] == list[i + 1..]
      invariant Insert(r[..j], x) + r[j + 1..i + 1] == Insert(list[..i], x)
    {
      var s := Swap(r, j - 1, j);
      assert r[..j] == r[..j - 1] + [r[j - 1]];
      assert s[..j - 1] == r[..j - 1];
      assert s[j..i + 1] == [r[j - 1]] + r[j + 1..i + 1];
      r, j := s, j - 1;
    }
    assert r[..i + 1] == r[..j] + [x] + r[j + 1..i + 1];
  }

  /** Sorting as `sort.Stable` would, through `Len`, `LessAt` and `Swap`:
      an insertion sort. */
  method Sort(list: List) returns (r: List)
    ensures r == InsertionSort(list)
    ensures Sorted(r)
    ensures multiset(r) == multiset(list)
    ensures StableFrom(r, list)
  {
    r := list;
    var i := 0;
    while i < Len(r)
      invariant 0 <= i <= |list| == |r|
      invariant r[..i] == InsertionSort(list[..i])
      invariant r[i..] == list[i..]
    {
      var s := SiftDown(r, i);
      SortStep(list, r, s, i);
      r, i := s, i + 1;
    }
    assert r == r[..i] && list == list[..i];
    InsertionSortCorrect(list);
  }

  /** One pass of `Sort` extends the sorted prefix by one element. */
  lemma SortStep(list: List, r: List, s: List, i: nat)
    requires i < |list| == |r| == |s|
    requires r[..i] == InsertionSort(list[..i]) && r[i..] == list[i..]
    requires s[..i + 1] == Insert(r[..i], r[i]) && s[i + 1..] == r[i + 1..]
    ensures s[..i + 1] == InsertionSort(list[..i + 1]) && s[i + 1..] == list[i + 1..]
  {
    assert list[..i + 1][..i] == list[..i];
    assert r[i] == r[i..][0] == list[i..][0] == list[i];
    assert r[i + 1..] == r[i..][1..] == list[i..][1..] == list[i + 1..];
  }
}
