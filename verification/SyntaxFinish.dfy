/**
 Completion of a traversal (sort, drop duplicates, renumber, validate, count) and the second path that
 rebuilds an analysis from its persisted parts.
 */
module SyntaxFinish {
  import opened Results
  import opened Bytes
  import opened Sorting
  import opened SyntaxSites

  datatype Analysis = Analysis(
    sites: seq<Site>, visited: nat, errors: nat, deepest: nat, text: nat, emitted: seq<nat>)

  // One site.

  /* `RawSyntaxSite::try_new`. */
  function SiteShape(s: Site, limits: Limits): Option<SyntaxError>
  {
    if !limits.valid || s.target == [] || |s.target| > limits.maxTarget then Some(TargetLimitExceeded)
    else if s.targetStart < s.start || s.targetEnd > s.end || s.end > limits.maxSource || s.targetEnd - s.targetStart != |s.target|
      then Some(InvalidSourceSpan)
    else None
  }

  /* `validate_site`: the target is the source text of its span, inside the occurrence. */
  predicate Matches(s: Site, source: Octets, limits: Limits)
  {
    && s.start <= s.end <= |source| && s.targetStart <= s.targetEnd <= |source|
    && s.target != [] && s.targetStart >= s.start && s.targetEnd <= s.end
    && source[s.targetStart..s.targetEnd] == s.target && |s.target| <= limits.maxTarget
  }

  /* What every extraction pushes: an unnumbered site with the source text of its spans. */
  ghost predicate Pushed(s: Site, source: Octets, limits: Limits)
  {
    && s.ordinal == 0 && s.start <= s.end <= |source| && s.targetStart <= s.targetEnd <= |source|
    && s.target == source[s.targetStart..s.targetEnd] && SiteShape(s, limits).None?
  }

  lemma PushedMatches(s: Site, source: Octets, limits: Limits, i: nat)
    requires Pushed(s, source, limits)
    ensures Matches(s.(ordinal := i), source, limits)
  {
  }

  /* Matching text is determined by the compared fields. */
  lemma {:induction false} PushedByKey(a: Site, b: Site, source: Octets, limits: Limits)
    requires Pushed(a, source, limits) && Pushed(b, source, limits) && SiteKey(a) == SiteKey(b)
    ensures a == b
  {
    var x, y := SiteKey(a), SiteKey(b);
    assert x[0] == y[0] && x[1] == y[1] && x[2] == y[2] && x[3] == y[3] && x[4] == y[4] && x[5] == y[5];
    assert a.kind == b.kind && a.evidence == b.evidence;
  }

  // Sort, drop duplicates, renumber.

  /* Each site is compared with the last one kept. */
  function Dedup(s: seq<Site>): (r: seq<Site>)
    ensures |r| <= |s| && (s != [] ==> r != [])
    ensures s != [] ==> SiteKey(r[|r| - 1]) == SiteKey(s[|s| - 1])
  {
    if s == [] then []
    else
      var n := |s| - 1;
      var r := Dedup(s[..n]);
      if r != [] && SiteKey(r[|r| - 1]) == SiteKey(s[n]) then r else r + [s[n]]
  }

  ghost predicate Strict(s: seq<Site>)
  {
    forall i, j :: 0 <= i < j < |s| ==> LexLess(SiteKey(s[i]), SiteKey(s[j]))
  }

  function KeysOf(s: seq<Site>): set<seq<int>>
  {
    set x | x in s :: SiteKey(x)
  }

  lemma {:induction false} DedupStrict(s: seq<Site>)
    requires Sorted(s, SiteOrder)
    ensures Strict(Dedup(s))
  {
    hide LexLess, SiteKey;
    if s != [] {
      var n := |s| - 1;
      DedupStrict(s[..n]);
      var r := Dedup(s[..n]);
      if r != [] && SiteKey(r[|r| - 1]) != SiteKey(s[n]) {
        assert SiteOrder(s[n - 1], s[n]);
        assert s[..n][n - 1] == s[n - 1];
        StrictAppend(r, s[n]);
      }
    }
  }

  lemma StrictAppend(r: seq<Site>, s: Site)
    requires Strict(r) && r != [] && LexLess(SiteKey(r[|r| - 1]), SiteKey(s))
    ensures Strict(r + [s])
  {
    hide LexLess, SiteKey;
    forall i | 0 <= i < |r| ensures LexLess(SiteKey(r[i]), SiteKey(s)) {
      if i < |r| - 1 {
        LexTransitive(SiteKey(r[i]), SiteKey(r[|r| - 1]), SiteKey(s));
      }
    }
  }

  lemma {:induction false} DedupKeeps(s: seq<Site>)
    ensures KeysOf(Dedup(s)) == KeysOf(s)
    ensures forall x :: x in Dedup(s) ==> x in s
  {
    hide SiteKey;
    if s != [] {
      var n := |s| - 1;
      var r := Dedup(s[..n]);
      DedupKeeps(s[..n]);
      assert s == s[..n] + [s[n]];
      KeysAppend(s[..n], s[n]);
      KeysAppend(r, s[n]);
      if r != [] {
        assert r[|r| - 1] in r;
      }
    }
  }

  lemma KeysAppend(s: seq<Site>, x: Site)
    ensures KeysOf(s + [x]) == KeysOf(s) + {SiteKey(x)}
  {
    hide SiteKey;
    forall y | y in s ensures y in s + [x] {
    }
  }

  function Renumber(s: seq<Site>): (r: seq<Site>)
    ensures |r| == |s| && forall i :: 0 <= i < |r| ==> r[i] == s[i].(ordinal := i)
  {
    seq(|s|, i requires 0 <= i < |s| => s[i].(ordinal := i))
  }

  function Canonical(sites: seq<Site>): seq<Site>
  {
    Renumber(Dedup(Sort(sites, SiteOrder)))
  }

  lemma {:induction false} RenumberKeeps(s: seq<Site>)
    requires Strict(s)
    ensures Strict(Renumber(s)) && KeysOf(Renumber(s)) == KeysOf(s) && TextOf(Renumber(s)) == TextOf(s)
  {
    hide LexLess;
    var r := Renumber(s);
    forall i | 0 <= i < |s| ensures SiteKey(r[i]) == SiteKey(s[i]) {
    }
    RenumberKeys(s);
    RenumberText(s);
  }

  lemma {:induction false} RenumberKeys(s: seq<Site>)
    ensures KeysOf(Renumber(s)) == KeysOf(s)
  {
    hide KeysOf;
    if s == [] {
      assert Renumber(s) == s;
    } else {
      var n := |s| - 1;
      RenumberKeys(s[..n]);
      var last := s[n].(ordinal := n);
      assert Renumber(s) == Renumber(s[..n]) + [last];
      assert s == s[..n] + [s[n]];
      KeysAppend(s[..n], s[n]);
      KeysAppend(Renumber(s[..n]), last);
    }
  }

  lemma {:induction false} RenumberText(s: seq<Site>)
    ensures TextOf(Renumber(s)) == TextOf(s)
  {
    if s != [] {
      var n := |s| - 1;
      RenumberText(s[..n]);
      assert Renumber(s)[..n] == Renumber(s[..n]);
    }
  }

  /* The emitted sites are strictly in order, numbered by position, with the sites found and no others. */
  lemma {:induction false} CanonicalExactly(sites: seq<Site>)
    ensures var r := Canonical(sites);
      && Strict(r) && KeysOf(r) == KeysOf(sites)
      && (forall i :: 0 <= i < |r| ==> r[i].ordinal == i)
      && (forall x :: x in r ==> exists y :: y in sites && x == y.(ordinal := x.ordinal))
  {
    hide LexLess, SiteKey, Sort, Dedup, SiteOrder;
    var s := Sort(sites, SiteOrder);
    SiteOrderTotal();
    SortSorted(sites, SiteOrder);
    DedupStrict(s);
    DedupKeeps(s);
    SameElements(s, sites);
    assert KeysOf(s) == KeysOf(sites);
    RenumberKeeps(Dedup(s));
    forall x | x in Canonical(sites) ensures exists y :: y in sites && x == y.(ordinal := x.ordinal) {
      var i :| 0 <= i < |Dedup(s)| && Canonical(sites)[i] == x;
      assert Dedup(s)[i] in sites;
    }
  }

  /* The order of the emitted sites, on their own fields. */
  lemma {:induction false} CanonicalOrdered(sites: seq<Site>, i: nat, j: nat)
    requires i < j < |Canonical(sites)|
    ensures var a, b := Canonical(sites)[i], Canonical(sites)[j];
      || a.start < b.start
      || (a.start == b.start && a.end < b.end)
      || (a.start == b.start && a.end == b.end && a.targetStart < b.targetStart)
      || (a.start == b.start && a.end == b.end && a.targetStart == b.targetStart && a.targetEnd < b.targetEnd)
      || (a.start == b.start && a.end == b.end && a.targetStart == b.targetStart && a.targetEnd == b.targetEnd && KindLess(a, b))
  {
    hide Canonical, SiteKey, LexLess, KindLess;
    CanonicalExactly(sites);
    KeyLess(Canonical(sites)[i], Canonical(sites)[j]);
  }

  // Counts by kind.

  function CountKind(s: seq<Site>, k: nat): nat
  {
    if s == [] then 0 else CountKind(s[..|s| - 1], k) + if KindIndex(s[|s| - 1].kind) == k then 1 else 0
  }

  function Emitted(s: seq<Site>): seq<nat>
  {
    [CountKind(s, 0), CountKind(s, 1), CountKind(s, 2), CountKind(s, 3)]
  }

  /* The four counts add up to the number of sites. */
  lemma {:induction false} EmittedSum(s: seq<Site>)
    ensures CountKind(s, 0) + CountKind(s, 1) + CountKind(s, 2) + CountKind(s, 3) == |s|
  {
    if s != [] {
      EmittedSum(s[..|s| - 1]);
    }
  }

  function OfKind(s: seq<Site>, k: Kind): set<nat>
  {
    set i | 0 <= i < |s| && s[i].kind == k
  }

  lemma OfKindLast(s: seq<Site>, k: Kind)
    requires s != []
    ensures var n := |s| - 1;
      n !in OfKind(s[..n], k) && OfKind(s, k) == OfKind(s[..n], k) + if s[n].kind == k then {n} else {}
  {
  }

  lemma {:induction false} KindCounted(s: seq<Site>, k: Kind)
    ensures CountKind(s, KindIndex(k)) == |OfKind(s, k)|
  {
    if s == [] {
      assert OfKind(s, k) == {};
    } else {
      hide OfKind;
      KindCounted(s[..|s| - 1], k);
      OfKindLast(s, k);
    }
  }

  /* The numbers of imports, references, calls and test markers, in this order. */
  lemma {:induction false} EmittedExactly(s: seq<Site>)
    ensures Emitted(s) == [|OfKind(s, Import)|, |OfKind(s, Reference)|, |OfKind(s, Call)|, |OfKind(s, TestMarker)|]
  {
    hide CountKind, OfKind;
    KindCounted(s, Import);
    KindCounted(s, Reference);
    KindCounted(s, Call);
    KindCounted(s, TestMarker);
  }

  // The two constructions.

  function Finish(sites: seq<Site>, visited: nat, errors: nat, deepest: nat, text: nat, source: Octets, limits: Limits): Result<Analysis, SyntaxError>
  {
    var r := Canonical(sites);
    if forall s :: s in r ==> Matches(s, source, limits)
    then Ok(Analysis(r, visited, errors, deepest, text, Emitted(r)))
    else Err(InvalidSourceSpan)
  }

  function SiteProblem(s: Site, index: nat, limits: Limits): Option<SyntaxError>
  {
    if s.ordinal != index then Some(InvalidSourceSpan) else SiteShape(s, limits)
  }

  function FirstProblem(sites: seq<Site>, limits: Limits): Option<SyntaxError>
  {
    if sites == [] then None
    else
      var n := |sites| - 1;
      var earlier := FirstProblem(sites[..n], limits);
      if earlier.Some? then earlier else SiteProblem(sites[n], n, limits)
  }

  /* `try_from_parts_with_control`. */
  function Rebuild(sites: seq<Site>, visited: nat, errors: nat, deepest: nat, text: nat, limits: Limits): Result<Analysis, SyntaxError>
  {
    if !limits.valid || visited > limits.maxNodes || errors > visited || deepest > limits.maxDepth
       || text > limits.maxText || |sites| > limits.maxSites
    then Err(InvalidSourceSpan)
    else match FirstProblem(sites, limits)
      case Some(e) => Err(e)
      case None =>
        if TextOf(sites) != text then Err(InvalidSourceSpan)
        else Ok(Analysis(sites, visited, errors, deepest, text, Emitted(sites)))
  }

  lemma {:induction false} NoProblem(sites: seq<Site>, limits: Limits)
    ensures FirstProblem(sites, limits).None? <==> forall i :: 0 <= i < |sites| ==> SiteProblem(sites[i], i, limits).None?
  {
    hide SiteProblem;
    if sites != [] {
      var n := |sites| - 1;
      NoProblem(sites[..n], limits);
      assert forall i :: 0 <= i < n ==> sites[..n][i] == sites[i];
    }
  }

  /* Dropping a site loses its text, which is never empty. */
  lemma {:induction false} DedupText(s: seq<Site>)
    requires forall x :: x in s ==> x.target != []
    ensures TextOf(Dedup(s)) <= TextOf(s)
    ensures TextOf(Dedup(s)) == TextOf(s) <==> |Dedup(s)| == |s|
  {
    hide SiteKey, TextOf;
    if s == [] {
    } else {
      var n := |s| - 1;
      DedupText(s[..n]);
      assert s == s[..n] + [s[n]];
      TextAppend(s[..n], s[n]);
      TextAppend(Dedup(s[..n]), s[n]);
    }
  }

  lemma {:induction false} InsertText(x: Site, s: seq<Site>)
    ensures TextOf(Insert(x, s, SiteOrder)) == |x.target| + TextOf(s)
  {
    hide TextOf, SiteOrder;
    var r := Insert(x, s, SiteOrder);
    TextFirst(r);
    if s == [] || SiteOrder(x, s[0]) {
      assert r[1..] == s;
    } else {
      InsertText(x, s[1..]);
      assert r[1..] == Insert(x, s[1..], SiteOrder);
      TextFirst(s);
    }
  }

  lemma {:induction false} SortText(s: seq<Site>)
    ensures TextOf(Sort(s, SiteOrder)) == TextOf(s)
  {
    hide TextOf, SiteOrder;
    if s != [] {
      SortText(s[1..]);
      InsertText(s[0], Sort(s[1..], SiteOrder));
      TextFirst(s);
    }
  }

  lemma {:induction false} CanonicalText(sites: seq<Site>)
    requires forall x :: x in sites ==> x.target != []
    ensures TextOf(Canonical(sites)) == TextOf(sites) <==> |Canonical(sites)| == |sites|
  {
    hide TextOf, Sort, Dedup, SiteOrder;
    var s := Sort(sites, SiteOrder);
    SameElements(s, sites);
    SortText(sites);
    DedupText(s);
    RenumberText(Dedup(s));
  }

  /* What the extractor pushed is never rejected at the end. */
  lemma {:induction false} FinishAccepts(sites: seq<Site>, visited: nat, errors: nat, deepest: nat, text: nat, source: Octets, limits: Limits)
    requires forall s :: s in sites ==> Pushed(s, source, limits)
    ensures Finish(sites, visited, errors, deepest, text, source, limits) ==
      Ok(Analysis(Canonical(sites), visited, errors, deepest, text, Emitted(Canonical(sites))))
  {
    hide Canonical, Emitted, Matches, Pushed;
    CanonicalExactly(sites);
    forall x | x in Canonical(sites) ensures Matches(x, source, limits) {
      var y :| y in sites && x == y.(ordinal := x.ordinal);
      PushedMatches(y, source, limits, x.ordinal);
    }
  }

  lemma {:induction false} CanonicalWellFormed(sites: seq<Site>, source: Octets, limits: Limits)
    requires forall s :: s in sites ==> Pushed(s, source, limits)
    ensures FirstProblem(Canonical(sites), limits).None?
  {
    hide Canonical, FirstProblem, KeysOf;
    CanonicalExactly(sites);
    NoProblem(Canonical(sites), limits);
    forall i | 0 <= i < |Canonical(sites)| ensures SiteProblem(Canonical(sites)[i], i, limits).None? {
      var x := Canonical(sites)[i];
      assert x in Canonical(sites);
      var y :| y in sites && x == y.(ordinal := x.ordinal);
    }
  }

  /**
   Rebuilding an analysis from its own parts, under the limits it was made with, gives it back exactly
   when no duplicate site was dropped; the text total is summed before duplicates go.
   */
  lemma {:induction false} RebuildsExactly(sites: seq<Site>, visited: nat, errors: nat, deepest: nat, source: Octets, limits: Limits)
    requires forall s :: s in sites ==> Pushed(s, source, limits)
    requires limits.valid && errors <= visited <= limits.maxNodes && deepest <= limits.maxDepth
    requires |sites| <= limits.maxSites && TextOf(sites) <= limits.maxText
    ensures var r := Finish(sites, visited, errors, deepest, TextOf(sites), source, limits);
      && r.Ok?
      && var a := r.value;
         var again := Rebuild(a.sites, a.visited, a.errors, a.deepest, a.text, limits);
         if |a.sites| == |sites| then again == Ok(a) else again == Err(InvalidSourceSpan)
  {
    hide FirstProblem, Emitted, TextOf, Finish, Sort;
    FinishAccepts(sites, visited, errors, deepest, TextOf(sites), source, limits);
    CanonicalWellFormed(sites, source, limits);
    CanonicalText(sites);
  }

  ghost predicate AllDistinct(s: seq<Site>)
  {
    forall i, j :: 0 <= i < j < |s| ==> s[i] != s[j]
  }

  /* Nothing is dropped exactly when the sites found are distinct. */
  lemma {:induction false} NothingDropped(sites: seq<Site>, source: Octets, limits: Limits)
    requires forall s :: s in sites ==> Pushed(s, source, limits)
    ensures |Canonical(sites)| == |sites| <==> AllDistinct(sites)
  {
    hide Canonical, KeysOf, Pushed, LexLess;
    var r := Canonical(sites);
    CanonicalExactly(sites);
    StrictCounts(r);
    forall a, b | a in sites && b in sites && SiteKey(a) == SiteKey(b) ensures a == b {
      PushedByKey(a, b, source, limits);
    }
    DistinctCounts(sites);
  }

  lemma {:induction false} StrictCounts(s: seq<Site>)
    requires Strict(s)
    ensures |KeysOf(s)| == |s|
  {
    hide LexLess, SiteKey;
    if s != [] {
      var n := |s| - 1;
      StrictCounts(s[..n]);
      assert s == s[..n] + [s[n]];
      KeysAppend(s[..n], s[n]);
      forall x | x in s[..n] ensures SiteKey(x) != SiteKey(s[n]) {
        var i :| 0 <= i < n && s[i] == x;
        LexTrichotomy(SiteKey(s[i]), SiteKey(s[n]));
      }
    }
  }

  lemma AllDistinctAppend(s: seq<Site>, x: Site)
    ensures AllDistinct(s + [x]) <==> AllDistinct(s) && x !in s
  {
    var all := s + [x];
    assert forall i :: 0 <= i < |s| ==> all[i] == s[i];
    if x in s {
      var i :| 0 <= i < |s| && s[i] == x;
      assert all[i] == all[|s|];
    }
  }

  lemma {:induction false} DistinctCounts(s: seq<Site>)
    requires forall a, b :: a in s && b in s && SiteKey(a) == SiteKey(b) ==> a == b
    ensures |KeysOf(s)| <= |s|
    ensures |KeysOf(s)| == |s| <==> AllDistinct(s)
  {
    hide SiteKey;
    if s != [] {
      hide AllDistinct;
      var n := |s| - 1;
      var init := s[..n];
      assert s == init + [s[n]];
      DistinctCounts(init);
      KeysAppend(init, s[n]);
      AllDistinctAppend(init, s[n]);
      if SiteKey(s[n]) in KeysOf(init) {
        assert KeysOf(s) == KeysOf(init);
      }
    }
  }

  // Which parts are accepted.

  /* A site numbered `i` whose target text lies inside its occurrence and fits its span. */
  ghost predicate Sound(s: Site, i: nat, limits: Limits)
  {
    && s.ordinal == i && 0 < |s.target| <= limits.maxTarget
    && s.start <= s.targetStart && s.targetEnd == s.targetStart + |s.target| && s.targetEnd <= s.end <= limits.maxSource
  }

  lemma SoundExactly(s: Site, i: nat, limits: Limits)
    requires limits.valid
    ensures SiteProblem(s, i, limits).None? <==> Sound(s, i, limits)
    ensures SiteProblem(s, i, limits) == Some(TargetLimitExceeded) <==> s.ordinal == i && !(0 < |s.target| <= limits.maxTarget)
    ensures SiteProblem(s, i, limits).Some? ==> SiteProblem(s, i, limits).value in {TargetLimitExceeded, InvalidSourceSpan}
  {
  }

  lemma {:induction false} ProblemFound(sites: seq<Site>, limits: Limits)
    requires FirstProblem(sites, limits).Some?
    ensures exists i :: 0 <= i < |sites| && SiteProblem(sites[i], i, limits) == FirstProblem(sites, limits)
  {
    hide SiteProblem;
    if FirstProblem(sites[..|sites| - 1], limits).Some? {
      ProblemFound(sites[..|sites| - 1], limits);
    }
  }

  /**
   Parts make an analysis exactly when all totals are within the limits, the sites are numbered by
   position and sound, and the text total is theirs; any other parts are refused.
   */
  lemma {:induction false} RebuildExactly(sites: seq<Site>, visited: nat, errors: nat, deepest: nat, text: nat, limits: Limits)
    ensures var r := Rebuild(sites, visited, errors, deepest, text, limits);
      && (r.Ok? <==>
            && limits.valid && errors <= visited <= limits.maxNodes && deepest <= limits.maxDepth
            && |sites| <= limits.maxSites && text <= limits.maxText && text == TextOf(sites)
            && forall i :: 0 <= i < |sites| ==> Sound(sites[i], i, limits))
      && (r.Ok? ==> r.value == Analysis(sites, visited, errors, deepest, text, Emitted(sites)))
      && (r.Err? ==>
            || r.error == InvalidSourceSpan
            || (r.error == TargetLimitExceeded && exists s :: s in sites && !(0 < |s.target| <= limits.maxTarget)))
  {
    hide FirstProblem, SiteProblem, TextOf, Emitted, Sound;
    NoProblem(sites, limits);
    if limits.valid {
      forall i | 0 <= i < |sites| ensures SiteProblem(sites[i], i, limits).None? <==> Sound(sites[i], i, limits) {
        SoundExactly(sites[i], i, limits);
      }
      if FirstProblem(sites, limits).Some? {
        ProblemFound(sites, limits);
        var i :| 0 <= i < |sites| && SiteProblem(sites[i], i, limits) == FirstProblem(sites, limits);
        SoundExactly(sites[i], i, limits);
        assert sites[i] in sites;
      }
    }
  }

  /* An analysis is completed exactly when every emitted site has the source text of its target, inside its occurrence. */
  lemma {:induction false} FinishExactly(sites: seq<Site>, visited: nat, errors: nat, deepest: nat, text: nat, source: Octets, limits: Limits)
    ensures var r, emitted := Finish(sites, visited, errors, deepest, text, source, limits), Canonical(sites);
      && (r.Ok? <==> forall s :: s in emitted ==>
            && s.start <= s.targetStart <= s.targetEnd <= s.end <= |source|
            && 0 < |s.target| <= limits.maxTarget && s.target == source[s.targetStart..s.targetEnd])
      && (r.Ok? ==> r.value == Analysis(emitted, visited, errors, deepest, text, Emitted(emitted)))
      && (r.Err? ==> r == Err(InvalidSourceSpan))
  {
    hide Canonical, Emitted;
  }
}
