/**
 Source manifests: entries in strictly increasing path order, paths being octet sequences under
 unsigned lexicographic order. File types and content digests are numbers: only equality is used.
 */
module Manifests {
  import opened Results
  import opened Bytes
  import opened Sorting

  datatype Entry = Entry(path: Octets, kind: nat, digest: nat)

  datatype ManifestError = LimitExceeded | DuplicateNormalizedPath

  predicate PathOrder(a: Entry, b: Entry)
  {
    LexLessOrEqual(a.path, b.path)
  }

  /* The laws of the path order, so that its definition is not needed elsewhere. */
  lemma PathLaws()
    ensures forall a: Octets, b: Octets :: LexLess(a, b) || a == b || LexLess(b, a)
    ensures forall a: Octets, b: Octets :: LexLess(a, b) ==> !LexLess(b, a) && a != b
    ensures forall a: Octets, b: Octets, c: Octets :: LexLess(a, b) && LexLess(b, c) ==> LexLess(a, c)
  {
    hide LexLess;
    forall a: Octets, b: Octets
      ensures LexLess(a, b) || a == b || LexLess(b, a)
      ensures LexLess(a, b) ==> !LexLess(b, a) && a != b
    {
      LexTrichotomy(a, b);
    }
    forall a: Octets, b: Octets, c: Octets | LexLess(a, b) && LexLess(b, c) ensures LexLess(a, c) {
      LexTransitive(a, b, c);
    }
  }

  lemma PathOrderTotal()
    ensures TotalOrder(PathOrder)
  {
    hide LexLess;
    PathLaws();
  }

  predicate Increasing(entries: seq<Entry>)
  {
    forall i, j :: 0 <= i < j < |entries| ==> LexLess(entries[i].path, entries[j].path)
  }

  predicate DistinctPaths(entries: seq<Entry>)
  {
    forall i, j :: 0 <= i < j < |entries| ==> entries[i].path != entries[j].path
  }

  predicate HasPath(entries: seq<Entry>, path: Octets)
  {
    exists e :: e in entries && e.path == path
  }

  /* `SourceManifest::try_from_vec`: only neighbours of the sorted entries are compared. */
  function TryFromVec(entries: seq<Entry>, limit: nat): Result<seq<Entry>, ManifestError>
  {
    var sorted := Sort(entries, PathOrder);
    if |entries| > limit then Err(LimitExceeded)
    else if exists i :: 0 <= i < |sorted| - 1 && sorted[i].path == sorted[i + 1].path then Err(DuplicateNormalizedPath)
    else Ok(sorted)
  }

  lemma {:induction false} NeighboursSuffice(s: seq<Entry>)
    requires Sorted(s, PathOrder)
    ensures Increasing(s) <==> forall i :: 0 <= i < |s| - 1 ==> s[i].path != s[i + 1].path
  {
    hide LexLess;
    PathLaws();
    if Increasing(s) {
      forall i | 0 <= i < |s| - 1 ensures s[i].path != s[i + 1].path {
        assert LexLess(s[i].path, s[i + 1].path);
      }
    }
    if forall i :: 0 <= i < |s| - 1 ==> s[i].path != s[i + 1].path {
      forall i, j | 0 <= i < j < |s| ensures LexLess(s[i].path, s[j].path) {
        assert PathOrder(s[i], s[i + 1]);
        assert s[i].path != s[i + 1].path;
        if i + 1 < j {
          assert PathOrder(s[i + 1], s[j]);
        }
      }
    }
  }

  function Paths(entries: seq<Entry>): set<Octets>
  {
    set e | e in entries :: e.path
  }

  lemma {:induction false} DistinctCounts(entries: seq<Entry>)
    ensures |Paths(entries)| <= |entries|
    ensures DistinctPaths(entries) <==> |Paths(entries)| == |entries|
  {
    hide DistinctPaths, Paths;
    if entries == [] {
      NoPaths();
    } else {
      var n := |entries| - 1;
      var init, e := entries[..n], entries[n];
      assert entries == init + [e];
      DistinctCounts(init);
      PathsAppend(init, e);
      if e.path in Paths(init) {
        assert Paths(entries) == Paths(init);
      }
    }
  }

  lemma NoPaths()
    ensures Paths([]) == {} && DistinctPaths([])
  {
  }

  lemma PathsAppend(init: seq<Entry>, e: Entry)
    ensures Paths(init + [e]) == Paths(init) + {e.path}
    ensures DistinctPaths(init + [e]) <==> DistinctPaths(init) && e.path !in Paths(init)
  {
    var all := init + [e];
    assert forall i :: 0 <= i < |init| ==> all[i] == init[i] && init[i] in init;
    if e.path in Paths(init) {
      var d :| d in init && d.path == e.path;
      var i :| 0 <= i < |init| && init[i] == d;
      assert all[i].path == all[|init|].path;
    }
  }

  lemma {:induction false} IncreasingIsDistinct(s: seq<Entry>)
    requires Sorted(s, PathOrder)
    ensures Increasing(s) <==> DistinctPaths(s)
  {
    hide LexLess;
    PathLaws();
    if DistinctPaths(s) {
      forall i, j | 0 <= i < j < |s| ensures LexLess(s[i].path, s[j].path) {
        assert PathOrder(s[i], s[j]);
      }
    }
  }

  /* Accepted exactly when within the limit with distinct paths; the result holds the same entries, increasing. */
  lemma {:induction false} ManifestExactly(entries: seq<Entry>, limit: nat)
    ensures TryFromVec(entries, limit) == Err(LimitExceeded) <==> |entries| > limit
    ensures TryFromVec(entries, limit) == Err(DuplicateNormalizedPath) <==> |entries| <= limit && !DistinctPaths(entries)
    ensures TryFromVec(entries, limit).Ok? <==> |entries| <= limit && DistinctPaths(entries)
    ensures TryFromVec(entries, limit).Ok? ==>
      var m := TryFromVec(entries, limit).value;
      Increasing(m) && multiset(m) == multiset(entries)
  {
    hide LexLess, Sort, DistinctPaths, Increasing, PathOrder;
    var s := Sort(entries, PathOrder);
    PathOrderTotal();
    SortSorted(entries, PathOrder);
    NeighboursSuffice(s);
    IncreasingIsDistinct(s);
    SameElements(s, entries);
    assert Paths(s) == Paths(entries);
    DistinctCounts(s);
    DistinctCounts(entries);
  }

  lemma {:induction false} DistinctSeparates(entries: seq<Entry>)
    requires DistinctPaths(entries)
    ensures Separates(entries, PathOrder)
  {
    hide LexLess;
    PathLaws();
    forall x, y | x in entries && y in entries && PathOrder(x, y) && PathOrder(y, x) ensures x == y {
      var i, j :| 0 <= i < |entries| && entries[i] == x && 0 <= j < |entries| && entries[j] == y;
    }
  }

  /* The manifest does not depend on the order in which its entries were collected. */
  lemma {:induction false} ManifestIgnoresOrder(a: seq<Entry>, b: seq<Entry>, limit: nat)
    requires multiset(a) == multiset(b)
    ensures TryFromVec(a, limit).Ok? <==> TryFromVec(b, limit).Ok?
    ensures TryFromVec(a, limit).Ok? ==> TryFromVec(a, limit) == TryFromVec(b, limit)
  {
    hide LexLess, DistinctPaths, PathOrder;
    SameElements(a, b);
    assert |a| == |multiset(a)| == |multiset(b)| == |b|;
    assert Paths(a) == Paths(b);
    DistinctCounts(a);
    DistinctCounts(b);
    ManifestExactly(a, limit);
    ManifestExactly(b, limit);
    if DistinctPaths(a) {
      DistinctSeparates(a);
      PathOrderTotal();
      SortIgnoresOrder(a, b, PathOrder);
    }
  }

  lemma LastIsNew(entries: seq<Entry>, e: Entry)
    requires Increasing(entries + [e])
    ensures Increasing(entries) && e.path !in Paths(entries)
  {
    hide LexLess;
    PathLaws();
    var all := entries + [e];
    assert forall i :: 0 <= i < |entries| ==> all[i] == entries[i];
    forall d | d in entries ensures d.path != e.path {
      var i :| 0 <= i < |entries| && entries[i] == d;
      assert LexLess(all[i].path, all[|entries|].path);
    }
  }
}
