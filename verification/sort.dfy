/** A stable sort of references by version, the reference definition of
    Python's `sorted(references, key=lambda x: x.version)`, and the proof that
    select_latest returns the last element of that sorted list. */
module VersionSort {
  import opened Wrappers
  import opened Versions
  import opened LibraryReference

  /** Versions never decrease along the list. */
  predicate SortedByVersion(refs: seq<Reference>)
    requires UniformKind(refs)
  {
    forall i, j :: 0 <= i < j < |refs| ==> CompareVersions(refs[i].version, refs[j].version) <= 0
  }

  /** Inserts x after every element whose version is not above x's, so that
      x lands after the elements it ties with (stability). */
  function Insert(sorted: seq<Reference>, x: Reference): (r: seq<Reference>)
    requires AllOfKind(sorted, x.version.Any?)
    ensures AllOfKind(r, x.version.Any?)
    ensures multiset(r) == multiset(sorted) + multiset{x}
    ensures |r| == |sorted| + 1
    decreases |sorted|
  {
    if |sorted| == 0 then [x]
    else
      var n := |sorted| - 1;
      if CompareVersions(sorted[n].version, x.version) <= 0 then sorted + [x]
      else
        assert sorted == sorted[..n] + [sorted[n]];
        Insert(sorted[..n], x) + [sorted[n]]
  }

  /** Insertion sort, inserting the elements from first to last. */
  function SortByVersion(refs: seq<Reference>): (r: seq<Reference>)
    requires UniformKind(refs)
    ensures multiset(r) == multiset(refs)
    ensures |r| == |refs|
    ensures |refs| > 0 ==> AllOfKind(r, refs[0].version.Any?)
    decreases |refs|
  {
    if |refs| == 0 then []
    else
      var n := |refs| - 1;
      assert refs == refs[..n] + [refs[n]];
      Insert(SortByVersion(refs[..n]), refs[n])
  }

  /** Appending an element no lower than every element keeps a list sorted. */
  lemma AppendSorted(s: seq<Reference>, y: Reference)
    requires AllOfKind(s, y.version.Any?) && SortedByVersion(s)
    requires forall i :: 0 <= i < |s| ==> CompareVersions(s[i].version, y.version) <= 0
    ensures AllOfKind(s + [y], y.version.Any?) && SortedByVersion(s + [y])
  {
    var r := s + [y];
    forall i, j | 0 <= i < j < |r|
      ensures CompareVersions(r[i].version, r[j].version) <= 0
    {
      if j < |s| {
        assert r[i] == s[i] && r[j] == s[j];
      }
    }
  }

  /** Inserting into a sorted list keeps it sorted. */
  lemma {:induction false} InsertSorted(sorted: seq<Reference>, x: Reference)
    requires AllOfKind(sorted, x.version.Any?) && SortedByVersion(sorted)
    ensures SortedByVersion(Insert(sorted, x))
    decreases |sorted|
  {
    if |sorted| > 0 {
      var n := |sorted| - 1;
      if CompareVersions(sorted[n].version, x.version) <= 0 {
        forall i | 0 <= i < |sorted|
          ensures CompareVersions(sorted[i].version, x.version) <= 0
        {
          if i < n {
            CompareVersionsTransitive(sorted[i].version, sorted[n].version, x.version);
          }
        }
        AppendSorted(sorted, x);
      } else {
        InsertBelowLast(sorted, x);
      }
    }
  }

  lemma {:induction false} InsertBelowLast(sorted: seq<Reference>, x: Reference)
    requires AllOfKind(sorted, x.version.Any?) && SortedByVersion(sorted) && |sorted| > 0
    requires CompareVersions(sorted[|sorted| - 1].version, x.version) > 0
    ensures SortedByVersion(Insert(sorted, x))
    decreases |sorted|, 0
  {
    var n := |sorted| - 1;
    var y := sorted[n];
    var init := sorted[..n];
    var front := Insert(init, x);
    assert Insert(sorted, x) == front + [y];
    InsertSorted(init, x);
    CompareVersionsAntisymmetric(y.version, x.version);
    forall i | 0 <= i < |front|
      ensures CompareVersions(front[i].version, y.version) <= 0
    {
      assert front[i] in multiset(init) + multiset{x};
      if front[i] != x {
        assert front[i] in init;
        var k :| 0 <= k < n && init[k] == front[i];
        assert sorted[k] == front[i];
      }
    }
    AppendSorted(front, y);
  }

  /** The sort's output is sorted. */
  lemma {:induction false} SortSorted(refs: seq<Reference>)
    requires UniformKind(refs)
    ensures |refs| > 0 ==> SortedByVersion(SortByVersion(refs))
    decreases |refs|
  {
    if |refs| > 1 {
      var n := |refs| - 1;
      SortSorted(refs[..n]);
      InsertSorted(SortByVersion(refs[..n]), refs[n]);
    }
  }

  /** Inserting x puts x last exactly when the current last element is not
      above it. */
  lemma InsertLast(sorted: seq<Reference>, x: Reference)
    requires AllOfKind(sorted, x.version.Any?)
    ensures var r := Insert(sorted, x);
      |r| > 0 && r[|r| - 1] ==
        if |sorted| == 0 || CompareVersions(sorted[|sorted| - 1].version, x.version) <= 0
        then x else sorted[|sorted| - 1]
  {
  }

  /** The last element of the sorted list is the last of the highest versions
      in input order. */
  lemma {:induction false} SortLastIsLatest(refs: seq<Reference>)
    requires |refs| > 0 && UniformKind(refs)
    ensures |SortByVersion(refs)| == |refs|
    ensures SortByVersion(refs)[|refs| - 1] == refs[LatestIndex(refs)]
    decreases |refs|
  {
    var n := |refs| - 1;
    if n > 0 {
      var prefix := refs[..n];
      var sp := SortByVersion(prefix);
      var m := LatestIndex(prefix);
      assert prefix[0] == refs[0] && prefix[m] == refs[m];
      assert SortByVersion(refs) == Insert(sp, refs[n]);
      assert LatestIndex(refs) == if CompareVersions(refs[m].version, refs[n].version) <= 0 then n else m;
      SortLastIsLatest(prefix);
      InsertLast(sp, refs[n]);
    }
  }

  /** select_latest returns `sorted(references, key=version)[-1]` for every
      list of one name and one kind of version. */
  lemma SelectLatestIsLastOfSorted(refs: seq<Reference>)
    requires |refs| > 0 && SameTitleAndCompany(refs) && UniformKind(refs)
    ensures |SortByVersion(refs)| == |refs|
    ensures SelectLatest(refs) == Success(Some(SortByVersion(refs)[|refs| - 1]))
  {
    SortLastIsLatest(refs);
  }
}
