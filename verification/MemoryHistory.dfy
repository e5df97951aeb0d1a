/**
 What a selected head means for the history of a record, and when selection panics.
 */
module MemoryHistory {
  import opened MemoryHeads

  /* An approved version names an approved parent. */
  ghost predicate Edge(vs: seq<Version>, child: nat, parent: nat)
  {
    parent in Revisions(Approved(vs)) && exists v :: v in vs && v.approved && v.revision == child && parent in v.parents
  }

  ghost predicate Path(vs: seq<Version>, path: seq<nat>)
  {
    && path != [] && path[0] in Revisions(Approved(vs))
    && forall i :: 0 <= i < |path| - 1 ==> Edge(vs, path[i], path[i + 1])
  }

  /* `x` is `head` or an ancestor of it through approved parents. */
  ghost predicate Descends(vs: seq<Version>, head: nat, x: nat)
  {
    exists path :: Path(vs, path) && path[0] == head && path[|path| - 1] == x
  }

  ghost predicate Acyclic(vs: seq<Version>)
  {
    forall path :: Path(vs, path) && |path| > 1 ==> path[0] != path[|path| - 1]
  }

  lemma EdgeEnds(vs: seq<Version>, child: nat, parent: nat)
    requires Edge(vs, child, parent)
    ensures child in Revisions(Approved(vs)) && parent in Revisions(Approved(vs)) && parent in Parents(Approved(vs))
  {
    var v :| v in vs && v.approved && v.revision == child && parent in v.parents;
    assert v in Approved(vs);
  }

  lemma PathWithin(vs: seq<Version>, path: seq<nat>)
    requires Path(vs, path)
    ensures forall x :: x in path ==> x in Revisions(Approved(vs))
  {
    hide Edge, Approved, Revisions;
    forall i | 0 <= i < |path| ensures path[i] in Revisions(Approved(vs)) {
      if i > 0 {
        EdgeEnds(vs, path[i - 1], path[i]);
      }
    }
  }

  lemma Subpath(vs: seq<Version>, path: seq<nat>, i: nat, j: nat)
    requires Path(vs, path) && i <= j < |path|
    ensures Path(vs, path[i..j + 1])
  {
    hide Edge, Approved, Revisions;
    PathWithin(vs, path);
    assert path[i] in path;
    var p := path[i..j + 1];
    assert forall k :: 0 <= k < |p| ==> p[k] == path[i + k];
    forall k | 0 <= k < |p| - 1 ensures Edge(vs, p[k], p[k + 1]) {
      assert Edge(vs, path[i + k], path[i + k + 1]);
      assert p[k + 1] == path[i + (k + 1)];
    }
  }

  function Elements(s: seq<nat>): set<nat>
  {
    set x | x in s
  }

  lemma {:induction false} DistinctSize(s: seq<nat>)
    requires forall i, j :: 0 <= i < j < |s| ==> s[i] != s[j]
    ensures |Elements(s)| == |s|
  {
    if s != [] {
      DistinctSize(s[1..]);
      assert s[0] !in s[1..];
      assert Elements(s) == {s[0]} + Elements(s[1..]);
    }
  }

  lemma SubsetSize(a: set<nat>, b: set<nat>)
    requires a <= b
    ensures |a| <= |b|
  {
    assert b == a + (b - a);
  }

  /* In an acyclic history a path never repeats, so it is no longer than there are approved versions. */
  lemma {:induction false} PathShort(vs: seq<Version>, path: seq<nat>)
    requires Acyclic(vs) && Path(vs, path)
    ensures |path| <= |Revisions(Approved(vs))|
  {
    hide Edge, Approved, Revisions, Path;
    forall i, j | 0 <= i < j < |path| ensures path[i] != path[j] {
      Subpath(vs, path, i, j);
      var p := path[i..j + 1];
      assert p[0] == path[i] && p[|p| - 1] == path[j];
    }
    DistinctSize(path);
    PathWithin(vs, path);
    SubsetSize(Elements(path), Revisions(Approved(vs)));
  }

  lemma PathPrepend(vs: seq<Version>, child: nat, path: seq<nat>)
    requires Path(vs, path) && Edge(vs, child, path[0])
    ensures Path(vs, [child] + path) && ([child] + path)[|path|] == path[|path| - 1]
  {
    hide Edge, Approved, Revisions;
    EdgeEnds(vs, child, path[0]);
    var p := [child] + path;
    forall i | 0 <= i < |p| - 1 ensures Edge(vs, p[i], p[i + 1]) {
      if i > 0 {
        assert p[i] == path[i - 1] && p[i + 1] == path[i - 1 + 1];
      }
    }
  }

  /* Climbing from an approved version through the versions that name it ends at a head. */
  lemma {:induction false} Climb(vs: seq<Version>, path: seq<nat>) returns (longer: seq<nat>)
    requires Acyclic(vs) && Path(vs, path)
    ensures Path(vs, longer) && longer[0] in Heads(vs) && longer[|longer| - 1] == path[|path| - 1]
    decreases |Revisions(Approved(vs))| - |path|
  {
    hide Acyclic;
    if path[0] in Heads(vs) {
      return path;
    }
    var v, p :| v in Approved(vs) && p in v.parents && p == path[0];
    assert Edge(vs, v.revision, path[0]);
    PathPrepend(vs, v.revision, path);
    PathShort(vs, [v.revision] + path);
    longer := Climb(vs, [v.revision] + path);
  }

  /* The selected head of an acyclic history is a descendant of every approved version. */
  lemma {:induction false} HeadDescendsFromAll(vs: seq<Version>, head: nat, x: nat)
    requires Acyclic(vs) && Selects(vs, head) && x in Revisions(Approved(vs))
    ensures Descends(vs, head, x)
  {
    hide Acyclic, Approved, Edge;
    SelectsExactly(vs, head);
    OneStep(vs, x);
    var path := Climb(vs, [x]);
  }

  lemma {:induction false} CommonDescendantIsHead(vs: seq<Version>, head: nat)
    requires Acyclic(vs) && head in Revisions(Approved(vs))
    requires forall x :: x in Revisions(Approved(vs)) ==> Descends(vs, head, x)
    ensures Heads(vs) == {head}
  {
    forall x | x in Revisions(Approved(vs)) && x != head ensures x in Parents(Approved(vs)) {
      hide Edge, Acyclic, Approved, Revisions, Parents;
      var path :| Path(vs, path) && path[0] == head && path[|path| - 1] == x;
      EdgeEnds(vs, path[|path| - 2], path[|path| - 2 + 1]);
    }
    if head in Parents(Approved(vs)) {
      HeadUnnamed(vs, head);
    }
  }

  lemma HeadUnnamed(vs: seq<Version>, head: nat)
    requires Acyclic(vs) && head in Revisions(Approved(vs))
    requires forall x :: x in Revisions(Approved(vs)) ==> Descends(vs, head, x)
    ensures head !in Parents(Approved(vs))
  {
    if head in Parents(Approved(vs)) {
      var v, p :| v in Approved(vs) && p in v.parents && p == head;
      assert Edge(vs, v.revision, head);
      assert v.revision in Revisions(Approved(vs));
      hide Edge, Acyclic, Approved, Revisions, Parents, Path;
      NoWayBack(vs, v.revision, head);
    }
  }

  lemma NoWayBack(vs: seq<Version>, child: nat, parent: nat)
    requires Acyclic(vs) && Edge(vs, child, parent)
    ensures !Descends(vs, parent, child)
  {
    hide Edge;
    forall path | Path(vs, path) && path[0] == parent ensures path[|path| - 1] != child {
      if path[|path| - 1] == child {
        PathAppend(vs, path, parent);
      }
    }
  }

  lemma PathAppend(vs: seq<Version>, path: seq<nat>, parent: nat)
    requires Path(vs, path) && Edge(vs, path[|path| - 1], parent)
    ensures Path(vs, path + [parent])
  {
    hide Edge, Approved, Revisions;
    var p := path + [parent];
    forall i | 0 <= i < |p| - 1 ensures Edge(vs, p[i], p[i + 1]) {
      if i < |path| - 1 {
        assert p[i] == path[i] && p[i + 1] == path[i + 1];
      }
    }
  }

  /**
   For an acyclic history, a version is selected exactly when no parent is missing and every approved
   version is an ancestor of it through approved parents.
   */
  lemma {:induction false} SelectedIsCommonDescendant(vs: seq<Version>, head: nat)
    requires Acyclic(vs)
    ensures Selects(vs, head) <==>
      && |vs| <= MAX_VERSIONS && Consistent(vs) && Missing(vs) == {}
      && head in Revisions(Approved(vs))
      && forall x :: x in Revisions(Approved(vs)) ==> Descends(vs, head, x)
  {
    hide Acyclic, Descends, Approved, Consistent, Selects, Missing;
    SelectsExactly(vs, head);
    if Selects(vs, head) {
      forall x | x in Revisions(Approved(vs)) ensures Descends(vs, head, x) {
        HeadDescendsFromAll(vs, head, x);
      }
      assert head in Heads(vs);
    }
    if head in Revisions(Approved(vs)) && forall x :: x in Revisions(Approved(vs)) ==> Descends(vs, head, x) {
      CommonDescendantIsHead(vs, head);
    }
  }

  lemma {:induction false} AllApproved(vs: seq<Version>)
    requires forall v :: v in vs ==> v.approved
    ensures Approved(vs) == vs
  {
    if vs != [] {
      var n := |vs| - 1;
      assert vs == vs[..n] + [vs[n]];
      AllApproved(vs[..n]);
    }
  }

  /* Without acyclicity the selected head can miss approved versions: 2 and 3 name each other. */
  lemma CycleHidesVersions()
    ensures exists vs, head, x :: Selects(vs, head) && x in Revisions(Approved(vs)) && !Descends(vs, head, x)
  {
    hide Approved, Selects;
    var a, b, c := Version(0, 1, [], true), Version(0, 2, [3], true), Version(0, 3, [2], true);
    var vs := [a, b, c];
    AllApproved(vs);
    assert a in vs && b in vs && c in vs;
    assert Revisions(vs) == {1, 2, 3};
    assert Parents(vs) == {2, 3} by {
      assert 3 in b.parents && 2 in c.parents;
    }
    assert Heads(vs) == {1} && Missing(vs) == {};
    SelectsExactly(vs, 1);
    assert !Descends(vs, 1, 2) by {
      forall path | Path(vs, path) && path[0] == 1 ensures |path| == 1 {
        assert |path| > 1 ==> Edge(vs, path[0], path[0 + 1]);
      }
    }
    assert Selects(vs, 1) && 2 in Revisions(Approved(vs));
  }

  /* Approved versions other than the head that only one another name: nothing leads from the head to them. */
  ghost predicate Stranded(vs: seq<Version>, head: nat, c: set<nat>)
  {
    && c != {} && c <= Revisions(Approved(vs)) && head !in c
    && forall x, y :: Edge(vs, x, y) && y in c ==> x in c
  }

  lemma {:induction false} PathStaysStranded(vs: seq<Version>, head: nat, c: set<nat>, path: seq<nat>)
    requires Stranded(vs, head, c) && Path(vs, path) && path[|path| - 1] in c
    ensures path[0] in c
  {
    hide Edge, Approved, Revisions;
    var n := |path| - 1;
    if n > 0 {
      assert Edge(vs, path[n - 1], path[n - 1 + 1]);
      Subpath(vs, path, 0, n - 1);
      PathStaysStranded(vs, head, c, path[0..n - 1 + 1]);
    }
  }

  lemma NeverReached(vs: seq<Version>, head: nat, c: set<nat>, y: nat)
    requires Stranded(vs, head, c) && y in c
    ensures !Descends(vs, head, y)
  {
    hide Edge, Approved, Revisions;
    forall path | Path(vs, path) && path[|path| - 1] == y ensures path[0] != head {
      PathStaysStranded(vs, head, c, path);
    }
  }

  lemma DescendsFurther(vs: seq<Version>, head: nat, x: nat, y: nat)
    requires Descends(vs, head, x) && Edge(vs, x, y)
    ensures Descends(vs, head, y)
  {
    hide Edge, Approved, Revisions;
    var path :| Path(vs, path) && path[0] == head && path[|path| - 1] == x;
    PathAppend(vs, path, y);
    assert (path + [y])[0] == head && (path + [y])[|path + [y]| - 1] == y;
  }

  /**
   Exactly when a head, selected or not, reaches every approved version: no approved versions are
   stranded. Acyclicity is enough, and a cycle below the head does no harm.
   */
  lemma {:induction false} ReachesAllExactly(vs: seq<Version>, head: nat)
    requires head in Revisions(Approved(vs))
    ensures (forall x :: x in Revisions(Approved(vs)) ==> Descends(vs, head, x)) <==> !exists c :: Stranded(vs, head, c)
  {
    hide Edge, Approved, Revisions, Path;
    forall c | Stranded(vs, head, c) ensures exists x :: x in Revisions(Approved(vs)) && !Descends(vs, head, x) {
      var y :| y in c;
      NeverReached(vs, head, c, y);
    }
    var c := set x | x in Revisions(Approved(vs)) && !Descends(vs, head, x);
    assert Path(vs, [head]) by { OneStep(vs, head); }
    assert Descends(vs, head, head) by { assert [head][0] == head; }
    forall x, y | Edge(vs, x, y) && y in c ensures x in c {
      EdgeEnds(vs, x, y);
      if Descends(vs, head, x) {
        DescendsFurther(vs, head, x, y);
      }
    }
    assert c != {} ==> Stranded(vs, head, c);
    assert forall x :: x in Revisions(Approved(vs)) && x !in c ==> Descends(vs, head, x);
  }

  lemma OneStep(vs: seq<Version>, x: nat)
    requires x in Revisions(Approved(vs))
    ensures Path(vs, [x])
  {
  }

  // The panic.

  lemma EmptyDifference(a: set<nat>, b: set<nat>)
    ensures a - b == {} <==> a <= b
  {
    if a - b == {} {
      forall x | x in a ensures x in b {
        assert x !in a - b;
      }
    }
  }

  /* The source panics exactly when there are approved versions and each of them is named by one. */
  lemma {:induction false} PanicsExactly(vs: seq<Version>)
    ensures Select(vs) == Panicked <==>
      && |vs| <= MAX_VERSIONS && Consistent(vs) && Approved(vs) != []
      && Revisions(Approved(vs)) <= Parents(Approved(vs))
  {
    hide Approved, Consistent, Parents, Revisions;
    EmptyDifference(Revisions(Approved(vs)), Parents(Approved(vs)));
  }

  lemma SelfParentPanics()
    ensures Select([Version(0, 1, [1], true)]) == Panicked
  {
    hide Approved, Select;
    var v := Version(0, 1, [1], true);
    AllApproved([v]);
    assert v in [v] && 1 in v.parents;
    PanicsExactly([v]);
  }

  lemma {:induction false} AcyclicNeverPanics(vs: seq<Version>)
    requires Acyclic(vs)
    ensures Select(vs).Returned?
  {
    hide Acyclic;
    PanicsExactly(vs);
    if Approved(vs) != [] {
      var x := Approved(vs)[0].revision;
      assert Approved(vs)[0] in Approved(vs);
      OneStep(vs, x);
      var path := Climb(vs, [x]);
      assert path[0] !in Parents(Approved(vs));
    }
  }

  // Append-only journals.

  /* No version names itself or a later one: digests of content are only known once it exists. */
  ghost predicate Grown(vs: seq<Version>)
  {
    forall i, j :: 0 <= i <= j < |vs| ==> vs[j].revision !in vs[i].parents
  }

  /* A new version: no earlier version, nor it itself, can have named it. */
  ghost predicate Fresh(vs: seq<Version>, v: Version)
  {
    v.revision !in Revisions(vs) && v.revision !in Parents(vs) && v.revision !in v.parents
  }

  lemma GrownAppend(vs: seq<Version>, v: Version)
    requires Grown(vs) && Fresh(vs, v)
    ensures Grown(vs + [v])
  {
    var all := vs + [v];
    forall i, j | 0 <= i <= j < |all| ensures all[j].revision !in all[i].parents {
      if j == |vs| && i < j {
        assert all[i] == vs[i] && vs[i] in vs;
      }
    }
  }

  /* Every index of the version reached is below every index that starts a step before it. */
  lemma {:induction false} PathGoesBack(vs: seq<Version>, path: seq<nat>, first: nat, k: nat, j: nat)
    requires Grown(vs) && Path(vs, path) && 0 < k < |path| && first < |vs| && j < |vs|
    requires vs[first].revision == path[0] && path[1] in vs[first].parents
    requires vs[j].revision == path[k]
    ensures j < first
    decreases k
  {
    hide Approved, Revisions;
    if k > 1 {
      assert Edge(vs, path[k - 1], path[k - 1 + 1]);
      var v :| v in vs && v.approved && v.revision == path[k - 1] && path[k] in v.parents;
      var m :| 0 <= m < |vs| && vs[m] == v;
      PathGoesBack(vs, path, first, k - 1, m);
    }
  }

  /* Append-only journals are acyclic, whatever was approved. */
  lemma {:induction false} GrownAcyclic(vs: seq<Version>)
    requires Grown(vs)
    ensures Acyclic(vs)
  {
    forall path | Path(vs, path) && |path| > 1 ensures path[0] != path[|path| - 1] {
      assert Edge(vs, path[0], path[0 + 1]);
      var v :| v in vs && v.approved && v.revision == path[0] && path[1] in v.parents;
      var first :| 0 <= first < |vs| && vs[first] == v;
      if path[0] == path[|path| - 1] {
        PathGoesBack(vs, path, first, |path| - 1, first);
      }
    }
  }

  /* Every journal that a run of appends of new versions can produce. */
  ghost predicate Journal(vs: seq<Version>)
  {
    vs == [] || (Journal(vs[..|vs| - 1]) && Fresh(vs[..|vs| - 1], vs[|vs| - 1]))
  }

  /* Over every append-only run selection never panics, and a selected head descends from all approved. */
  lemma {:induction false} JournalSafe(vs: seq<Version>)
    requires Journal(vs)
    ensures Grown(vs) && Acyclic(vs) && Select(vs).Returned?
    ensures forall head, x :: Selects(vs, head) && x in Revisions(Approved(vs)) ==> Descends(vs, head, x)
  {
    hide Acyclic, Selects, Approved, Revisions, Descends, Select;
    JournalGrown(vs);
    GrownAcyclic(vs);
    AcyclicNeverPanics(vs);
    forall head, x | Selects(vs, head) && x in Revisions(Approved(vs)) ensures Descends(vs, head, x) {
      HeadDescendsFromAll(vs, head, x);
    }
  }

  lemma {:induction false} JournalGrown(vs: seq<Version>)
    requires Journal(vs)
    ensures Grown(vs)
  {
    hide Fresh;
    if vs != [] {
      JournalGrown(vs[..|vs| - 1]);
      GrownAppend(vs[..|vs| - 1], vs[|vs| - 1]);
      assert vs == vs[..|vs| - 1] + [vs[|vs| - 1]];
    }
  }
}
