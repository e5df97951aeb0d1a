/**
 Selection of the one approved head of a memory record from its versions.

 A version names its parents by digest. The heads are the approved versions that no approved version
 names as a parent. Digests are numbers here: only equality is used.
 */
module MemoryHeads {
  import opened Results
  import opened Sorting

  const MAX_VERSIONS: nat := 4_096
  const MAX_PARENTS: nat := 8

  datatype Version = Version(recordId: nat, revision: nat, parents: seq<nat>, approved: bool)

  datatype HeadState = NoApprovedVersion | Selected | Conflicted | Indeterminate

  datatype Selection = Selection(state: HeadState, head: Option<nat>, approved: nat, heads: nat, missing: nat)

  datatype ProjectionError = TooManyVersions | InvalidVersionSet

  /* `Panicked`: the source indexes the empty list of heads. */
  datatype Outcome = Returned(result: Result<Selection, ProjectionError>) | Panicked

  function Approved(vs: seq<Version>): (r: seq<Version>)
    ensures forall v :: v in r <==> v in vs && v.approved
  {
    if vs == [] then []
    else
      var n := |vs| - 1;
      Approved(vs[..n]) + if vs[n].approved then [vs[n]] else []
  }

  function Revisions(vs: seq<Version>): set<nat>
  {
    set v | v in vs :: v.revision
  }

  function Parents(vs: seq<Version>): set<nat>
  {
    set v, p | v in vs && p in v.parents :: p
  }

  function Heads(vs: seq<Version>): set<nat>
  {
    Revisions(Approved(vs)) - Parents(Approved(vs))
  }

  function Missing(vs: seq<Version>): set<nat>
  {
    Parents(Approved(vs)) - Revisions(vs)
  }

  predicate Distinct(vs: seq<Version>)
  {
    forall i, j :: 0 <= i < j < |vs| ==> vs[i].revision != vs[j].revision
  }

  /* One record, and no revision twice. */
  predicate Consistent(vs: seq<Version>)
  {
    && Distinct(vs)
    && (forall i :: 0 <= i < |vs| ==> vs[i].recordId == vs[0].recordId)
  }

  function Select(vs: seq<Version>): Outcome
  {
    if |vs| > MAX_VERSIONS then Returned(Err(TooManyVersions))
    else if !Consistent(vs) then Returned(Err(InvalidVersionSet))
    else if Approved(vs) == [] then Returned(Ok(Selection(NoApprovedVersion, None, 0, 0, 0)))
    else Judge(|Approved(vs)|, Heads(vs), |Missing(vs)|)
  }

  function Judge(approved: nat, heads: set<nat>, missing: nat): Outcome
  {
    if heads == {} then Panicked
    else
      var only := if |heads| == 1 then Some(Least(heads)) else None;
      if missing > 0 then Returned(Ok(Selection(Indeterminate, only, approved, |heads|, missing)))
      else Returned(Ok(Selection(if |heads| == 1 then Selected else Conflicted, only, approved, |heads|, 0)))
  }

  predicate Selects(vs: seq<Version>, head: nat)
  {
    var o := Select(vs);
    o.Returned? && o.result.Ok? && o.result.value.state == Selected && o.result.value.head == Some(head)
  }

  lemma Singleton(s: set<nat>, x: nat)
    requires |s| == 1 && x in s
    ensures s == {x} && Least(s) == x
  {
    assert |s - {x}| == 0;
  }

  lemma SingletonOf(x: nat)
    ensures |{x}| == 1 && Least({x}) == x
  {
  }

  /* Exactly one head and no missing parent. */
  lemma {:induction false} SelectsExactly(vs: seq<Version>, head: nat)
    ensures Selects(vs, head) <==> |vs| <= MAX_VERSIONS && Consistent(vs) && Heads(vs) == {head} && Missing(vs) == {}
  {
    hide Approved, Consistent;
    if Heads(vs) == {head} {
      SingletonOf(head);
      assert head in Revisions(Approved(vs));
    }
    if Selects(vs, head) {
      assert |Heads(vs)| == 1;
      Singleton(Heads(vs), Least(Heads(vs)));
    }
  }

  // The outcomes, said of the versions alone.

  ghost predicate ApprovedRevision(vs: seq<Version>, x: nat)
  {
    exists v :: v in vs && v.approved && v.revision == x
  }

  /* Some approved version has `p` as a parent. */
  ghost predicate Named(vs: seq<Version>, p: nat)
  {
    exists v :: v in vs && v.approved && p in v.parents
  }

  ghost predicate Known(vs: seq<Version>, x: nat)
  {
    exists v :: v in vs && v.revision == x
  }

  /* An approved revision that no approved version names. */
  ghost predicate Unnamed(vs: seq<Version>, x: nat)
  {
    ApprovedRevision(vs, x) && !Named(vs, x)
  }

  /* A parent of an approved version that is no version. */
  ghost predicate MissingParent(vs: seq<Version>, p: nat)
  {
    Named(vs, p) && !Known(vs, p)
  }

  ghost predicate OneRecord(vs: seq<Version>)
  {
    forall i, j :: 0 <= i < |vs| && 0 <= j < |vs| ==> vs[i].recordId == vs[j].recordId
  }

  ghost predicate Usable(vs: seq<Version>)
  {
    |vs| <= 4_096 && Distinct(vs) && OneRecord(vs)
  }

  lemma SetsExactly(vs: seq<Version>, x: nat)
    ensures x in Revisions(Approved(vs)) <==> ApprovedRevision(vs, x)
    ensures x in Heads(vs) <==> Unnamed(vs, x)
    ensures x in Missing(vs) <==> MissingParent(vs, x)
  {
    hide Approved;
    assert x in Revisions(Approved(vs)) <==> ApprovedRevision(vs, x);
    assert x in Parents(Approved(vs)) <==> Named(vs, x);
    assert x in Revisions(vs) <==> Known(vs, x);
  }

  /* A version list is refused for its length, then for a second record or a repeated revision. */
  lemma RefusedExactly(vs: seq<Version>)
    ensures Select(vs) == Returned(Err(TooManyVersions)) <==> |vs| > 4_096
    ensures Select(vs) == Returned(Err(InvalidVersionSet)) <==> |vs| <= 4_096 && !(Distinct(vs) && OneRecord(vs))
  {
    hide Approved, Judge, Distinct, Heads, Missing;
    assert Consistent(vs) <==> Distinct(vs) && OneRecord(vs);
    JudgeAnswers(|Approved(vs)|, Heads(vs), |Missing(vs)|);
  }

  lemma JudgeAnswers(approved: nat, heads: set<nat>, missing: nat)
    ensures Judge(approved, heads, missing).Panicked? || Judge(approved, heads, missing).result.Ok?
  {
  }

  ghost predicate GivesState(vs: seq<Version>, state: HeadState)
  {
    Select(vs).Returned? && Select(vs).result.Ok? && Select(vs).result.value.state == state
  }

  ghost predicate SomeMissing(vs: seq<Version>)
  {
    exists p :: MissingParent(vs, p)
  }

  ghost predicate SomeUnnamed(vs: seq<Version>)
  {
    exists x :: Unnamed(vs, x)
  }

  ghost predicate TwoUnnamed(vs: seq<Version>)
  {
    exists x, y :: Unnamed(vs, x) && Unnamed(vs, y) && x != y
  }

  lemma {:induction false} UsableStates(vs: seq<Version>)
    requires Usable(vs)
    ensures GivesState(vs, NoApprovedVersion) <==> forall v :: v in vs ==> !v.approved
    ensures Select(vs) == Panicked <==> (exists v :: v in vs && v.approved) && !SomeUnnamed(vs)
    ensures GivesState(vs, Indeterminate) <==> SomeMissing(vs) && SomeUnnamed(vs)
    ensures GivesState(vs, Conflicted) <==> !SomeMissing(vs) && TwoUnnamed(vs)
    ensures GivesState(vs, Selected) <==> !SomeMissing(vs) && SomeUnnamed(vs) && !TwoUnnamed(vs)
  {
    hide Approved, Heads, Missing, Distinct, Unnamed, MissingParent, OneRecord;
    assert Consistent(vs) by { assert OneRecord(vs) ==> Consistent(vs) by { OneRecordConsistent(vs); } }
    SizesExactly(vs);
    assert Approved(vs) == [] <==> forall v :: v in vs ==> !v.approved by { NoneApproved(vs); }
    if Approved(vs) == [] {
      NothingNamed(vs);
    }
  }

  /* When each outcome is given, for every list of versions. */
  lemma {:induction false} StatesExactly(vs: seq<Version>)
    ensures GivesState(vs, NoApprovedVersion) <==> Usable(vs) && forall v :: v in vs ==> !v.approved
    ensures Select(vs) == Panicked <==> Usable(vs) && (exists v :: v in vs && v.approved) && !SomeUnnamed(vs)
    ensures GivesState(vs, Indeterminate) <==> Usable(vs) && SomeMissing(vs) && SomeUnnamed(vs)
    ensures GivesState(vs, Conflicted) <==> Usable(vs) && !SomeMissing(vs) && TwoUnnamed(vs)
    ensures GivesState(vs, Selected) <==> Usable(vs) && !SomeMissing(vs) && SomeUnnamed(vs) && !TwoUnnamed(vs)
  {
    hide Select, SomeMissing, SomeUnnamed, TwoUnnamed, Distinct, OneRecord;
    RefusedExactly(vs);
    if Usable(vs) {
      UsableStates(vs);
    }
  }

  lemma OneRecordConsistent(vs: seq<Version>)
    requires Distinct(vs) && OneRecord(vs)
    ensures Consistent(vs)
  {
  }

  lemma NoneApproved(vs: seq<Version>)
    ensures Approved(vs) == [] <==> forall v :: v in vs ==> !v.approved
  {
    if Approved(vs) != [] {
      assert Approved(vs)[0] in Approved(vs);
    }
  }

  lemma NothingNamed(vs: seq<Version>)
    requires Approved(vs) == []
    ensures !SomeMissing(vs) && !SomeUnnamed(vs)
  {
    hide Approved;
    NoneApproved(vs);
  }

  lemma SizesExactly(vs: seq<Version>)
    ensures |Missing(vs)| > 0 <==> SomeMissing(vs)
    ensures |Heads(vs)| > 0 <==> SomeUnnamed(vs)
    ensures |Heads(vs)| > 1 <==> TwoUnnamed(vs)
  {
    hide Heads, Missing, Unnamed, MissingParent;
    forall x: nat ensures (x in Heads(vs) <==> Unnamed(vs, x)) && (x in Missing(vs) <==> MissingParent(vs, x)) {
      SetsExactly(vs, x);
    }
    Inhabited(Missing(vs));
    Inhabited(Heads(vs));
  }

  lemma Inhabited(s: set<nat>)
    ensures |s| > 0 <==> exists x :: x in s
    ensures |s| > 1 <==> exists x, y :: x in s && y in s && x != y
  {
    if x, y :| x in s && y in s && x != y {
      assert y in s - {x} && |s - {x}| == |s| - 1;
    }
    if |s| > 1 {
      var x :| x in s;
      assert |s - {x}| > 0;
      var y :| y in s - {x};
      assert x in s && y in s && x != y;
    }
  }

  ghost function ApprovedSet(vs: seq<Version>): set<nat>
  {
    set v | v in vs && v.approved :: v.revision
  }

  ghost function UnnamedSet(vs: seq<Version>): set<nat>
  {
    set v | v in vs && Unnamed(vs, v.revision) :: v.revision
  }

  ghost function MissingSet(vs: seq<Version>): set<nat>
  {
    set v, p | v in vs && p in v.parents && MissingParent(vs, p) :: p
  }

  lemma SameSets(vs: seq<Version>)
    ensures Revisions(Approved(vs)) == ApprovedSet(vs) && Heads(vs) == UnnamedSet(vs) && Missing(vs) == MissingSet(vs)
  {
    hide Approved, Heads, Missing, Revisions;
    forall x: nat
      ensures x in Revisions(Approved(vs)) <==> x in ApprovedSet(vs)
      ensures x in Heads(vs) <==> x in UnnamedSet(vs)
      ensures x in Missing(vs) <==> x in MissingSet(vs)
    {
      SetsExactly(vs, x);
    }
  }

  lemma {:induction false} ApprovedDistinct(vs: seq<Version>)
    requires Distinct(vs)
    ensures Distinct(Approved(vs))
  {
    if vs != [] {
      hide Distinct;
      var n := |vs| - 1;
      assert vs == vs[..n] + [vs[n]];
      DistinctAppend(vs[..n], vs[n]);
      ApprovedDistinct(vs[..n]);
      DistinctAppend(Approved(vs[..n]), vs[n]);
    }
  }

  /**
   What a selection carries: the one unnamed approved revision if there is one, and the numbers of approved
   revisions, of unnamed ones and of missing parents.
   */
  lemma {:induction false} SelectionExactly(vs: seq<Version>, x: nat)
    requires Select(vs).Returned? && Select(vs).result.Ok?
    ensures var s := Select(vs).result.value;
      && (s.head == Some(x) <==> Unnamed(vs, x) && !TwoUnnamed(vs))
      && s.approved == |ApprovedSet(vs)| && s.heads == |UnnamedSet(vs)| && s.missing == |MissingSet(vs)|
  {
    hide Approved, Heads, Missing, Distinct, Unnamed, MissingParent, SomeMissing, SomeUnnamed, ApprovedSet, UnnamedSet, MissingSet;
    SetsExactly(vs, x);
    SizesExactly(vs);
    SameSets(vs);
    ApprovedDistinct(vs);
    RevisionsCount(Approved(vs));
    if Approved(vs) == [] {
      NothingNamed(vs);
    } else if |Heads(vs)| == 1 {
      Singleton(Heads(vs), Least(Heads(vs)));
    }
  }

  // The source's loops.

  method CheckVersions(vs: seq<Version>) returns (ok: bool, all: set<nat>)
    ensures ok <==> Consistent(vs)
    ensures ok ==> all == Revisions(vs)
  {
    all := {};
    for i := 0 to |vs|
      invariant all == Revisions(vs[..i])
      invariant Consistent(vs[..i])
    {
      if vs[i].recordId != vs[0].recordId || vs[i].revision in all {
        if vs[i].revision in all {
          var v :| v in vs[..i] && v.revision == vs[i].revision;
          var j :| 0 <= j < i && vs[..i][j] == v;
          assert vs[j].revision == vs[i].revision;
        }
        return false, all;
      }
      assert vs[..i + 1] == vs[..i] + [vs[i]];
      all := all + {vs[i].revision};
    }
    assert vs[..|vs|] == vs;
    return true, all;
  }

  method CollectParents(approved: seq<Version>, known: set<nat>, all: set<nat>) returns (referenced: set<nat>, missing: set<nat>)
    ensures referenced == Parents(approved) * known && missing == Parents(approved) - all
  {
    referenced, missing := {}, {};
    ghost var seen: set<nat> := {};
    for i := 0 to |approved|
      invariant seen == Parents(approved[..i]) && referenced == seen * known && missing == seen - all
    {
      var parents := approved[i].parents;
      for j := 0 to |parents|
        invariant seen == Parents(approved[..i]) + (set p | p in parents[..j]) && referenced == seen * known && missing == seen - all
      {
        var p := parents[j];
        assert parents[..j + 1] == parents[..j] + [p];
        if p in known {
          referenced := referenced + {p};
        }
        if p !in all {
          missing := missing + {p};
        }
        seen := seen + {p};
      }
      assert parents[..|parents|] == parents;
      ParentsAppend(approved[..i], approved[i]);
      assert approved[..i + 1] == approved[..i] + [approved[i]];
    }
    assert approved[..|approved|] == approved;
  }

  lemma ParentsAppend(vs: seq<Version>, v: Version)
    ensures Parents(vs + [v]) == Parents(vs) + set p | p in v.parents
    ensures Revisions(vs + [v]) == Revisions(vs) + {v.revision}
  {
    forall p ensures p in Parents(vs + [v]) <==> p in Parents(vs) || p in v.parents {
      if p in v.parents {
        assert v in vs + [v];
      }
      if p in Parents(vs) {
        var u :| u in vs && p in u.parents;
        assert u in vs + [v];
      }
    }
  }

  method SelectMemoryHead(vs: seq<Version>) returns (r: Outcome)
    ensures r == Select(vs)
  {
    hide Parents, Consistent;
    if |vs| > MAX_VERSIONS {
      return Returned(Err(TooManyVersions));
    }
    var ok, all := CheckVersions(vs);
    if !ok {
      return Returned(Err(InvalidVersionSet));
    }
    var approved := Approved(vs);
    if approved == [] {
      return Returned(Ok(Selection(NoApprovedVersion, None, 0, 0, 0)));
    }
    var known := Revisions(approved);
    var referenced, missing := CollectParents(approved, known, all);
    var heads := known - referenced;
    assert heads == Heads(vs);
    var ordered := Ascending(heads);
    AscendingSize(heads);
    if |missing| > 0 || heads == {} {
      if heads == {} {
        return Panicked;
      }
      return Returned(Ok(Selection(
        Indeterminate, if |heads| == 1 then Some(ordered[0]) else None, |approved|, |heads|, |missing|)));
    }
    if |heads| > 1 {
      return Returned(Ok(Selection(Conflicted, None, |approved|, |heads|, 0)));
    }
    return Returned(Ok(Selection(Selected, Some(ordered[0]), |approved|, 1, 0)));
  }

  lemma AscendingSize(s: set<nat>)
    ensures s != {} ==> Ascending(s) != [] && Ascending(s)[0] == Least(s)
  {
  }

  // Order of the versions.

  lemma {:induction false} ApprovedCount(vs: seq<Version>, v: Version)
    ensures multiset(Approved(vs))[v] == if v.approved then multiset(vs)[v] else 0
  {
    if vs != [] {
      var n := |vs| - 1;
      assert vs == vs[..n] + [vs[n]];
      ApprovedCount(vs[..n], v);
    }
  }

  lemma DistinctAppend(vs: seq<Version>, v: Version)
    ensures Distinct(vs + [v]) <==> Distinct(vs) && v.revision !in Revisions(vs)
  {
    var all := vs + [v];
    assert forall i :: 0 <= i < |vs| ==> all[i] == vs[i] && vs[i] in vs;
    if v.revision in Revisions(vs) {
      var u :| u in vs && u.revision == v.revision;
      var i :| 0 <= i < |vs| && vs[i] == u;
      assert all[i].revision == all[|vs|].revision;
    }
  }

  lemma {:induction false} RevisionsCount(vs: seq<Version>)
    ensures |Revisions(vs)| <= |vs|
    ensures |Revisions(vs)| == |vs| <==> Distinct(vs)
  {
    hide Revisions, Distinct, Parents;
    if vs == [] {
      assert Revisions(vs) == {} by { NoRevisions(vs); }
      assert Distinct(vs) by { NoRevisions(vs); }
    } else {
      var n := |vs| - 1;
      var init, v := vs[..n], vs[n];
      assert vs == init + [v];
      ParentsAppend(init, v);
      DistinctAppend(init, v);
      RevisionsCount(init);
      if v.revision in Revisions(init) {
        assert Revisions(vs) == Revisions(init);
      }
    }
  }

  lemma NoRevisions(vs: seq<Version>)
    requires vs == []
    ensures Revisions(vs) == {} && Distinct(vs)
  {
  }

  lemma {:induction false} ConsistentPermuted(p: seq<Version>, q: seq<Version>)
    requires multiset(p) == multiset(q) && Consistent(p)
    ensures Consistent(q)
  {
    SameElements(p, q);
    assert |p| == |multiset(p)| == |multiset(q)| == |q|;
    assert Revisions(p) == Revisions(q);
    RevisionsCount(p);
    RevisionsCount(q);
    forall i | 0 <= i < |q| ensures q[i].recordId == q[0].recordId {
      assert q[i] in p && q[0] in p;
    }
  }

  /* The outcome depends only on which versions there are. */
  lemma {:induction false} SelectionIgnoresOrder(p: seq<Version>, q: seq<Version>)
    requires multiset(p) == multiset(q)
    ensures Select(p) == Select(q)
  {
    hide Consistent, Approved, Judge;
    SameElements(p, q);
    assert |p| == |multiset(p)| == |multiset(q)| == |q|;
    if Consistent(p) {
      ConsistentPermuted(p, q);
    }
    if Consistent(q) {
      ConsistentPermuted(q, p);
    }
    forall v: Version ensures multiset(Approved(p))[v] == multiset(Approved(q))[v] {
      ApprovedCount(p, v);
      ApprovedCount(q, v);
    }
    assert multiset(Approved(p)) == multiset(Approved(q));
    assert |Approved(p)| == |multiset(Approved(p))| == |multiset(Approved(q))| == |Approved(q)|;
    assert Revisions(p) == Revisions(q) && Revisions(Approved(p)) == Revisions(Approved(q));
    assert Parents(Approved(p)) == Parents(Approved(q));
  }
}
