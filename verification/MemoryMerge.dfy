/**
 Appending versions to a journal: how the heads change, that a merge of all heads is selected, and how
 many merges a record with many heads needs when a version can name at most eight parents.
 */
module MemoryMerge {
  import opened Sorting
  import opened MemoryHeads
  import opened MemoryHistory

  lemma ApprovedAppend(vs: seq<Version>, v: Version)
    ensures Approved(vs + [v]) == Approved(vs) + if v.approved then [v] else []
  {
    assert (vs + [v])[..|vs|] == vs;
  }

  /* An approved version takes its parents out of the heads and joins them unless it was named before. */
  lemma {:induction false} AppendApproved(vs: seq<Version>, v: Version)
    requires v.approved && v.revision !in Revisions(vs)
    ensures Heads(vs + [v]) ==
      Heads(vs) - Elements(v.parents) + if v.revision in Parents(Approved(vs)) + Elements(v.parents) then {} else {v.revision}
    ensures Missing(vs + [v]) == Missing(vs) + (Elements(v.parents) - Revisions(vs)) - {v.revision}
  {
    hide Approved, Parents, Revisions;
    ApprovedAppend(vs, v);
    ParentsAppend(vs, v);
    ParentsAppend(Approved(vs), v);
    ApprovedKnown(vs);
  }

  lemma ApprovedKnown(vs: seq<Version>)
    ensures Revisions(Approved(vs)) <= Revisions(vs)
  {
  }

  /* An unapproved version changes no head; it can only supply a missing parent. */
  lemma {:induction false} AppendUnapproved(vs: seq<Version>, v: Version)
    requires !v.approved
    ensures Heads(vs + [v]) == Heads(vs) && Missing(vs + [v]) == Missing(vs) - {v.revision}
  {
    hide Approved, Parents, Revisions;
    ApprovedAppend(vs, v);
    assert Approved(vs) + [] == Approved(vs);
    ParentsAppend(vs, v);
  }

  lemma ConsistentAppend(vs: seq<Version>, v: Version)
    requires Consistent(vs) && vs != [] && v.recordId == vs[0].recordId && v.revision !in Revisions(vs)
    ensures Consistent(vs + [v])
  {
    hide Distinct, Revisions;
    DistinctAppend(vs, v);
  }

  /* A journal that can be merged: one record, nothing missing, at least one head. */
  ghost predicate Mergeable(vs: seq<Version>)
  {
    Consistent(vs) && vs != [] && Missing(vs) == {} && Heads(vs) != {}
  }

  /* Merging some heads replaces them by the merge and keeps the journal mergeable. */
  lemma {:induction false} MergeReplaces(vs: seq<Version>, v: Version)
    requires Mergeable(vs) && v.approved && v.recordId == vs[0].recordId && v.revision !in Revisions(vs)
    requires Elements(v.parents) <= Heads(vs)
    ensures Mergeable(vs + [v]) && Heads(vs + [v]) == Heads(vs) - Elements(v.parents) + {v.revision}
  {
    hide Approved, Parents, Revisions, Consistent;
    ConsistentAppend(vs, v);
    AppendApproved(vs, v);
    ApprovedKnown(vs);
    assert Parents(Approved(vs)) <= Revisions(vs) by {
      forall p | p in Parents(Approved(vs)) ensures p in Revisions(vs) {
        assert p !in Missing(vs);
      }
    }
  }

  /* A merge of exactly the current heads is selected, whatever the conflict was. */
  lemma {:induction false} MergeSelected(vs: seq<Version>, v: Version)
    requires Mergeable(vs) && |vs| < MAX_VERSIONS
    requires v.approved && v.recordId == vs[0].recordId && v.revision !in Revisions(vs)
    requires Elements(v.parents) == Heads(vs)
    ensures Selects(vs + [v], v.revision)
  {
    hide Heads, Missing, Consistent, Selects, Revisions;
    MergeReplaces(vs, v);
    assert Heads(vs + [v]) == {v.revision};
    SelectsExactly(vs + [v], v.revision);
  }

  // Convergence with bounded parents.

  /* A version the header constructor accepts. */
  ghost predicate ValidParents(parents: seq<nat>)
  {
    |parents| <= MAX_PARENTS && forall i, j :: 0 <= i < j < |parents| ==> parents[i] < parents[j]
  }

  /* Each merge of eight heads removes seven. */
  function MergesNeeded(heads: nat): nat
  {
    if heads <= 1 then 0 else 1 + MergesNeeded(if heads <= MAX_PARENTS then 1 else heads - (MAX_PARENTS - 1))
  }

  /* That is the number of heads beyond the first, divided by seven and rounded up. */
  lemma {:induction false} MergesNeededExactly(heads: nat)
    requires heads > 0
    ensures MergesNeeded(heads) == (heads + 5) / 7
  {
    if heads > MAX_PARENTS {
      MergesNeededExactly(heads - (MAX_PARENTS - 1));
    }
  }

  lemma {:induction false} AscendingCounts(s: set<nat>)
    ensures |Ascending(s)| == |s|
  {
    if s != {} {
      AscendingCounts(s - {Least(s)});
    }
  }

  lemma FirstHeads(heads: set<nat>) returns (parents: seq<nat>)
    ensures ValidParents(parents) && Elements(parents) <= heads
    ensures |parents| == |Elements(parents)| == if |heads| <= MAX_PARENTS then |heads| else MAX_PARENTS
    ensures |heads| <= MAX_PARENTS ==> Elements(parents) == heads
  {
    hide Ascending;
    var all := Ascending(heads);
    AscendingCounts(heads);
    parents := if |heads| <= MAX_PARENTS then all else all[..MAX_PARENTS];
    assert forall x :: x in parents ==> x in all;
    DistinctSize(parents);
  }

  lemma ReplaceCounts(heads: set<nat>, parents: set<nat>, x: nat)
    requires parents <= heads && x !in heads
    ensures |heads - parents + {x}| == |heads| - |parents| + 1
  {
    assert heads == parents + (heads - parents);
    assert |heads - parents| == |heads| - |parents|;
  }

  /* One merge of up to eight heads. */
  lemma {:induction false} MergeStep(vs: seq<Version>, unused: nat) returns (v: Version)
    requires Mergeable(vs) && |Heads(vs)| > 1 && forall x :: x in Revisions(vs) ==> x < unused
    ensures v.approved && v.revision == unused && v.recordId == vs[0].recordId && ValidParents(v.parents)
    ensures Mergeable(vs + [v]) && unused in Heads(vs + [v]) && Revisions(vs + [v]) == Revisions(vs) + {unused}
    ensures |Heads(vs + [v])| == if |Heads(vs)| <= MAX_PARENTS then 1 else |Heads(vs)| - (MAX_PARENTS - 1)
  {
    hide Mergeable, ValidParents, Approved, Revisions, Parents;
    var parents := FirstHeads(Heads(vs));
    assert vs != [] by { Nonempty(vs); }
    v := Version(vs[0].recordId, unused, parents, true);
    MergeReplaces(vs, v);
    ApprovedKnown(vs);
    ParentsAppend(vs, v);
    ReplaceCounts(Heads(vs), Elements(parents), unused);
  }

  lemma Nonempty(vs: seq<Version>)
    requires Mergeable(vs)
    ensures vs != []
  {
  }

  /* Any mergeable record reaches one selected head with as many merges as the limit on parents asks for. */
  lemma {:induction false} MergesConverge(vs: seq<Version>, unused: nat) returns (merges: seq<Version>, head: nat)
    requires Mergeable(vs) && forall x :: x in Revisions(vs) ==> x < unused
    requires |vs| + MergesNeeded(|Heads(vs)|) <= MAX_VERSIONS
    ensures |merges| == MergesNeeded(|Heads(vs)|)
    ensures forall v :: v in merges ==> v.approved && ValidParents(v.parents)
    ensures Selects(vs + merges, head)
    decreases |Heads(vs)|
  {
    hide ValidParents, Heads, Missing, Consistent, Selects, Revisions;
    if |Heads(vs)| == 1 {
      head := Least(Heads(vs));
      Singleton(Heads(vs), head);
      SelectsExactly(vs, head);
      assert vs + [] == vs;
      return [], head;
    }
    assert |Heads(vs)| > 1;
    var v := MergeStep(vs, unused);
    var rest;
    rest, head := MergesConverge(vs + [v], unused + 1);
    assert (vs + [v]) + rest == vs + ([v] + rest);
    merges := [v] + rest;
  }

  /* Appending one version, of whatever kind, removes at most eight heads and adds itself in exchange. */
  lemma {:induction false} HeadsDropSlowly(vs: seq<Version>, v: Version)
    requires Fresh(vs, v) && ValidParents(v.parents)
    ensures |Heads(vs)| <= |Heads(vs + [v])| + (MAX_PARENTS - 1)
  {
    hide Approved, Revisions, Parents, Heads;
    if v.approved {
      AppendApproved(vs, v);
      ApprovedParents(vs);
      DistinctSize(v.parents);
      assert v.revision !in Heads(vs) by { HeadKnown(vs, v.revision); }
      DropBound(Heads(vs), Elements(v.parents), v.revision);
    } else {
      AppendUnapproved(vs, v);
    }
  }

  lemma HeadKnown(vs: seq<Version>, x: nat)
    ensures x in Heads(vs) ==> x in Revisions(vs)
  {
    ApprovedKnown(vs);
  }

  lemma ApprovedParents(vs: seq<Version>)
    ensures Parents(Approved(vs)) <= Parents(vs)
  {
  }

  lemma DropBound(heads: set<nat>, parents: set<nat>, x: nat)
    requires x !in heads
    ensures |heads| + 1 <= |heads - parents + {x}| + |parents|
  {
    assert heads == (heads - parents) + (heads * parents);
    SubsetSize(heads * parents, parents);
  }

  /* So no run of appends reaches a single head with fewer versions than the merges above. */
  lemma {:induction false} FewerNeverSuffice(vs: seq<Version>, appended: seq<Version>, head: nat)
    requires forall i :: 0 <= i < |appended| ==> Fresh(vs + appended[..i], appended[i]) && ValidParents(appended[i].parents)
    requires Selects(vs + appended, head)
    ensures MergesNeeded(|Heads(vs)|) <= |appended|
  {
    hide Fresh, ValidParents, Selects, Heads, Consistent;
    DropOverRun(vs, appended);
    SelectsExactly(vs + appended, head);
    assert |Heads(vs + appended)| == 1 by { SingletonOf(head); }
    NeededBound(|Heads(vs)|, |appended|);
  }

  lemma {:induction false} DropOverRun(vs: seq<Version>, appended: seq<Version>)
    requires forall i :: 0 <= i < |appended| ==> Fresh(vs + appended[..i], appended[i]) && ValidParents(appended[i].parents)
    ensures |Heads(vs)| <= |Heads(vs + appended)| + (MAX_PARENTS - 1) * |appended|
  {
    hide Fresh, ValidParents, Heads;
    if appended == [] {
      assert vs + appended == vs;
    } else {
      var n := |appended| - 1;
      var init, v := appended[..n], appended[n];
      assert forall i :: 0 <= i < n ==> init[..i] == appended[..i];
      DropOverRun(vs, init);
      HeadsDropSlowly(vs + init, v);
      assert (vs + init) + [v] == vs + appended;
    }
  }

  lemma {:induction false} NeededBound(heads: nat, merges: nat)
    requires heads <= 1 + (MAX_PARENTS - 1) * merges
    ensures MergesNeeded(heads) <= merges
  {
    if heads > MAX_PARENTS {
      NeededBound(heads - (MAX_PARENTS - 1), merges - 1);
    }
  }
}
