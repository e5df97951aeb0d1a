/**
 Resolution of one historical subject against a set of current candidates, in order of priority:
 exact, renamed or moved, changed, plausible, missing.
 */
module Correspondence {
  import opened Results
  import opened Bytes
  import opened Sorting
  import opened CanonicalDigest
  import opened CorrespondenceNames

  const MAX_CANDIDATES: nat := 16

  /* Digests are numbers here: only equality and order are used. */
  datatype Candidate = Candidate(
    path: Octets, artifact: nat, ordinal: nat, kind: SymbolKind, name: Text, qualified: Text, container: Text,
    declaration: nat, elided: nat, gitMove: bool)

  datatype Subject = Subject(
    path: Octets, kind: SymbolKind, name: Text, qualified: Text, container: Text, declaration: nat, elided: Option<nat>)

  datatype Relationship = AsRenamed | AsMoved

  datatype Reason = CandidateOverflow | MissingSubjectFingerprint

  datatype Resolution =
    | Exact(target: Candidate)
    | Automatic(relationship: Relationship, target: Candidate)
    | Changed(target: Candidate)
    | NeedsReview(candidates: seq<Candidate>)
    | Missing
    | Indeterminate(reason: Reason)

  // The predicates.

  predicate ExactMatch(s: Subject, c: Candidate)
  {
    c.path == s.path && c.kind == s.kind && c.name == s.name && c.qualified == s.qualified && c.declaration == s.declaration
  }

  predicate RenameMatch(s: Subject, c: Candidate)
  {
    c.path == s.path && c.kind == s.kind && c.container == s.container && c.name != s.name && s.elided == Some(c.elided)
  }

  predicate MoveMatch(s: Subject, c: Candidate)
  {
    && c.path != s.path && c.gitMove && c.kind == s.kind && c.name == s.name && c.qualified == s.qualified
    && c.declaration == s.declaration
  }

  predicate ChangedMatch(s: Subject, c: Candidate)
  {
    c.path == s.path && c.kind == s.kind && c.name == s.name && c.qualified == s.qualified && c.declaration != s.declaration
  }

  predicate PlausibleMatch(s: Subject, c: Candidate)
  {
    && c.kind == s.kind
    && (c.path == s.path || c.container == s.container || c.declaration == s.declaration || s.elided == Some(c.elided) || c.gitMove)
  }

  /* The four specific matches exclude one another, and each is plausible. */
  lemma MatchesDisjoint(s: Subject, c: Candidate)
    ensures ExactMatch(s, c) ==> !RenameMatch(s, c) && !MoveMatch(s, c) && !ChangedMatch(s, c)
    ensures RenameMatch(s, c) ==> !MoveMatch(s, c) && !ChangedMatch(s, c)
    ensures MoveMatch(s, c) ==> !ChangedMatch(s, c)
    ensures ExactMatch(s, c) || RenameMatch(s, c) || MoveMatch(s, c) || ChangedMatch(s, c) ==> PlausibleMatch(s, c)
  {
  }

  /**
   What a match compares: the fields of the subject and of the candidate agree, all of them for an exact
   match, and all but the path or all but the declaration for a move or a change.
   */
  lemma MatchesExactly(s: Subject, c: Candidate)
    ensures ExactMatch(s, c) <==> ViewOfCandidate(c) == ViewOfSubject(s)
    ensures MoveMatch(s, c) <==> c.gitMove && ViewOfCandidate(c) == ViewOfSubject(s).(path := c.path) != ViewOfSubject(s)
    ensures ChangedMatch(s, c) <==> ViewOfCandidate(c) == ViewOfSubject(s).(declaration := c.declaration) != ViewOfSubject(s)
    ensures RenameMatch(s, c) <==>
      (c.path, c.kind, c.container, Some(c.elided)) == (s.path, s.kind, s.container, s.elided) && c.name != s.name
    ensures !PlausibleMatch(s, c) <==>
      c.kind == s.kind ==>
        c.path != s.path && c.container != s.container && c.declaration != s.declaration && s.elided != Some(c.elided) && !c.gitMove
  {
  }

  datatype View = View(path: Octets, kind: SymbolKind, name: Text, qualified: Text, declaration: nat)

  function ViewOfCandidate(c: Candidate): View
  {
    View(c.path, c.kind, c.name, c.qualified, c.declaration)
  }

  function ViewOfSubject(s: Subject): View
  {
    View(s.path, s.kind, s.name, s.qualified, s.declaration)
  }

  // Order and identity.

  predicate Before(a: Candidate, b: Candidate)
  {
    || LexLess(a.path, b.path)
    || (a.path == b.path && (a.artifact < b.artifact || (a.artifact == b.artifact && a.ordinal < b.ordinal)))
  }

  predicate SameIdentity(a: Candidate, b: Candidate)
  {
    a.path == b.path && a.artifact == b.artifact && a.ordinal == b.ordinal
  }

  predicate CandidateOrder(a: Candidate, b: Candidate)
  {
    Before(a, b) || SameIdentity(a, b)
  }

  lemma OrderLaws(a: Candidate, b: Candidate)
    ensures Before(a, b) || SameIdentity(a, b) || Before(b, a)
    ensures Before(a, b) ==> !Before(b, a) && !SameIdentity(a, b)
  {
    hide LexLess;
    LexTrichotomy(a.path, b.path);
  }

  lemma CandidateOrderTotal()
    ensures TotalOrder(CandidateOrder)
  {
    hide LexLess;
    forall a: Candidate, b: Candidate ensures CandidateOrder(a, b) || CandidateOrder(b, a) {
      OrderLaws(a, b);
    }
    forall a: Candidate, b: Candidate, c: Candidate | CandidateOrder(a, b) && CandidateOrder(b, c) ensures CandidateOrder(a, c) {
      if LexLess(a.path, b.path) && LexLess(b.path, c.path) {
        LexTransitive(a.path, b.path, c.path);
      }
    }
  }

  ghost predicate DistinctIdentities(cs: seq<Candidate>)
  {
    forall i, j :: 0 <= i < j < |cs| ==> !SameIdentity(cs[i], cs[j])
  }

  ghost predicate Strict(cs: seq<Candidate>)
  {
    forall i, j :: 0 <= i < j < |cs| ==> Before(cs[i], cs[j])
  }

  // Resolution as the source computes it.

  function Filter(cs: seq<Candidate>, p: Candidate -> bool): (r: seq<Candidate>)
    ensures forall c :: c in r <==> c in cs && p(c)
    ensures |r| <= |cs|
  {
    if cs == [] then []
    else
      var n := |cs| - 1;
      Filter(cs[..n], p) + if p(cs[n]) then [cs[n]] else []
  }

  datatype Linked = Linked(relationship: Relationship, target: Candidate)

  predicate LinkedOrder(a: Linked, b: Linked)
  {
    CandidateOrder(a.target, b.target)
  }

  function Link(cs: seq<Candidate>, r: Relationship): (ls: seq<Linked>)
    ensures |ls| == |cs| && forall i :: 0 <= i < |cs| ==> ls[i] == Linked(r, cs[i])
  {
    seq(|cs|, i requires 0 <= i < |cs| => Linked(r, cs[i]))
  }

  function Targets(ls: seq<Linked>): (cs: seq<Candidate>)
    ensures |cs| == |ls| && forall i :: 0 <= i < |cs| ==> cs[i] == ls[i].target
  {
    seq(|ls|, i requires 0 <= i < |ls| => ls[i].target)
  }

  function Dedup(ls: seq<Linked>): (r: seq<Linked>)
    ensures ls != [] ==> r != []
  {
    if ls == [] then []
    else
      var n := |ls| - 1;
      var r := Dedup(ls[..n]);
      if r != [] && SameIdentity(r[|r| - 1].target, ls[n].target) then r else r + [ls[n]]
  }

  // The matches of one subject, as functions of the candidate.

  function Exacts(s: Subject): Candidate -> bool
  {
    c => ExactMatch(s, c)
  }

  function Renames(s: Subject): Candidate -> bool
  {
    c => RenameMatch(s, c)
  }

  function Moves(s: Subject): Candidate -> bool
  {
    c => MoveMatch(s, c)
  }

  function Changes(s: Subject): Candidate -> bool
  {
    c => ChangedMatch(s, c)
  }

  function Plausibles(s: Subject): Candidate -> bool
  {
    c => PlausibleMatch(s, c)
  }

  /* Renames, then moves, sorted by candidate and without repeated candidates. */
  function Links(s: Subject, ordered: seq<Candidate>): seq<Linked>
  {
    Dedup(Sort(Link(Filter(ordered, Renames(s)), AsRenamed) + Link(Filter(ordered, Moves(s)), AsMoved), LinkedOrder))
  }

  /* The first class with a member decides: one member resolves, several need review. */
  function Decide(exact: seq<Candidate>, links: seq<Linked>, changed: seq<Candidate>, plausible: seq<Candidate>, known: bool): Resolution
  {
    if |exact| == 1 then Exact(exact[0])
    else if exact != [] then NeedsReview(exact)
    else if |links| == 1 then Automatic(links[0].relationship, links[0].target)
    else if links != [] then NeedsReview(Targets(links))
    else if |changed| == 1 then Changed(changed[0])
    else if changed != [] then NeedsReview(changed)
    else if plausible != [] then NeedsReview(plausible)
    else if !known then Indeterminate(MissingSubjectFingerprint)
    else Missing
  }

  function ResolveOrdered(s: Subject, ordered: seq<Candidate>): Resolution
  {
    Decide(
      Filter(ordered, Exacts(s)), Links(s, ordered), Filter(ordered, Changes(s)), Filter(ordered, Plausibles(s)), s.elided.Some?)
  }

  /* Only neighbours of the sorted candidates are compared. */
  predicate HasNeighbours(ordered: seq<Candidate>)
  {
    exists i :: 0 <= i < |ordered| - 1 && SameIdentity(ordered[i], ordered[i + 1])
  }

  function Resolve(s: Subject, candidates: seq<Candidate>, count: nat): Result<Resolution, CorrespondenceError>
  {
    if |candidates| > MAX_CANDIDATES then Err(CandidateLimitExceeded)
    else if count < |candidates| then Err(InvalidCandidateCount)
    else
      var ordered := Sort(candidates, CandidateOrder);
      if HasNeighbours(ordered) then Err(DuplicateCandidate)
      else if count > |candidates| then Ok(Indeterminate(CandidateOverflow))
      else Ok(ResolveOrdered(s, ordered))
  }

  // Sorted candidates without equal neighbours.

  lemma {:induction false} NeighboursSuffice(cs: seq<Candidate>)
    requires Sorted(cs, CandidateOrder)
    ensures Strict(cs) <==> !HasNeighbours(cs)
  {
    hide LexLess, Before, SameIdentity;
    forall a: Candidate, b: Candidate ensures Before(a, b) ==> !SameIdentity(a, b) {
      OrderLaws(a, b);
    }
    if HasNeighbours(cs) {
      var i :| 0 <= i < |cs| - 1 && SameIdentity(cs[i], cs[i + 1]);
      assert !Before(cs[i], cs[i + 1]);
    } else {
      forall i, j | 0 <= i < j < |cs| ensures Before(cs[i], cs[j]) {
        StrictStep(cs, i, j);
      }
    }
  }

  lemma StrictStep(cs: seq<Candidate>, i: nat, j: nat)
    requires Sorted(cs, CandidateOrder) && !HasNeighbours(cs) && i < j < |cs|
    ensures Before(cs[i], cs[j])
  {
    hide LexLess;
    assert CandidateOrder(cs[i], cs[i + 1]) && !SameIdentity(cs[i], cs[i + 1]);
    if i + 1 < j {
      assert CandidateOrder(cs[i + 1], cs[j]);
      BeforeThen(cs[i], cs[i + 1], cs[j]);
    }
  }

  lemma BeforeThen(a: Candidate, b: Candidate, c: Candidate)
    requires Before(a, b) && CandidateOrder(b, c)
    ensures Before(a, c)
  {
    hide LexLess;
    if LexLess(a.path, b.path) && LexLess(b.path, c.path) {
      LexTransitive(a.path, b.path, c.path);
    }
  }

  function Identity(c: Candidate): (Octets, nat, nat)
  {
    (c.path, c.artifact, c.ordinal)
  }

  function Identities(cs: seq<Candidate>): set<(Octets, nat, nat)>
  {
    set c | c in cs :: Identity(c)
  }

  lemma DistinctAppend(cs: seq<Candidate>, c: Candidate)
    ensures DistinctIdentities(cs + [c]) <==> DistinctIdentities(cs) && Identity(c) !in Identities(cs)
    ensures Identities(cs + [c]) == Identities(cs) + {Identity(c)}
  {
    var all := cs + [c];
    assert forall i :: 0 <= i < |cs| ==> all[i] == cs[i] && cs[i] in cs;
    if Identity(c) in Identities(cs) {
      var d :| d in cs && Identity(d) == Identity(c);
      var i :| 0 <= i < |cs| && cs[i] == d;
      assert SameIdentity(all[i], all[|cs|]);
    }
  }

  lemma NoCandidates()
    ensures DistinctIdentities([]) && Identities([]) == {}
  {
  }

  lemma {:induction false} DistinctCounts(cs: seq<Candidate>)
    ensures |Identities(cs)| <= |cs|
    ensures DistinctIdentities(cs) <==> |Identities(cs)| == |cs|
  {
    hide DistinctIdentities, Identities, Identity;
    if cs == [] {
      NoCandidates();
    } else {
      var n := |cs| - 1;
      assert cs == cs[..n] + [cs[n]];
      DistinctCounts(cs[..n]);
      DistinctAppend(cs[..n], cs[n]);
      if Identity(cs[n]) in Identities(cs[..n]) {
        assert Identities(cs) == Identities(cs[..n]);
      }
    }
  }

  lemma {:induction false} StrictIsDistinct(cs: seq<Candidate>)
    requires Sorted(cs, CandidateOrder)
    ensures Strict(cs) <==> DistinctIdentities(cs)
  {
    hide LexLess, Before, SameIdentity;
    forall a: Candidate, b: Candidate ensures Before(a, b) ==> !SameIdentity(a, b) {
      OrderLaws(a, b);
    }
    if DistinctIdentities(cs) {
      forall i, j | 0 <= i < j < |cs| ensures Before(cs[i], cs[j]) {
        assert CandidateOrder(cs[i], cs[j]);
      }
    }
  }

  /* The neighbour check finds a repeated identity exactly when there is one. */
  lemma {:induction false} DuplicatesFound(cs: seq<Candidate>)
    ensures HasNeighbours(Sort(cs, CandidateOrder)) <==> !DistinctIdentities(cs)
    ensures DistinctIdentities(cs) ==> Strict(Sort(cs, CandidateOrder))
  {
    hide LexLess, HasNeighbours, DistinctIdentities, Strict, CandidateOrder, Identity;
    var s := Sort(cs, CandidateOrder);
    CandidateOrderTotal();
    SortSorted(cs, CandidateOrder);
    NeighboursSuffice(s);
    StrictIsDistinct(s);
    SameElements(s, cs);
    assert Identities(s) == Identities(cs);
    DistinctCounts(s);
    DistinctCounts(cs);
  }

  lemma DistinctSeparates(cs: seq<Candidate>)
    requires DistinctIdentities(cs)
    ensures Separates(cs, CandidateOrder)
  {
    hide LexLess, Before;
    forall x, y | x in cs && y in cs && CandidateOrder(x, y) && CandidateOrder(y, x) ensures x == y {
      OrderLaws(x, y);
      OrderLaws(y, x);
      var i, j :| 0 <= i < |cs| && cs[i] == x && 0 <= j < |cs| && cs[j] == y;
    }
  }

  /* The result depends only on the set of candidates. */
  lemma {:induction false} ResolutionIgnoresOrder(s: Subject, p: seq<Candidate>, q: seq<Candidate>, count: nat)
    requires multiset(p) == multiset(q)
    ensures Resolve(s, p, count) == Resolve(s, q, count)
  {
    hide HasNeighbours, DistinctIdentities, CandidateOrder, ResolveOrdered, Identity;
    assert |p| == |multiset(p)| == |multiset(q)| == |q|;
    DuplicatesFound(p);
    DuplicatesFound(q);
    SameElements(p, q);
    assert Identities(p) == Identities(q);
    DistinctCounts(p);
    DistinctCounts(q);
    if DistinctIdentities(p) {
      DistinctSeparates(p);
      CandidateOrderTotal();
      SortIgnoresOrder(p, q, CandidateOrder);
    }
  }

  // Links: the two kinds never share a candidate, so nothing is dropped.

  predicate Linkable(s: Subject, c: Candidate)
  {
    RenameMatch(s, c) || MoveMatch(s, c)
  }

  function LinkOf(s: Subject, c: Candidate): Linked
  {
    Linked(if RenameMatch(s, c) then AsRenamed else AsMoved, c)
  }

  /* Each linkable candidate with its relationship, in candidate order. */
  function LinksInOrder(s: Subject, ordered: seq<Candidate>): (r: seq<Linked>)
    ensures |r| <= |ordered|
    ensures forall l :: l in r ==> l.target in ordered && Linkable(s, l.target) && l == LinkOf(s, l.target)
    ensures forall c :: c in ordered && Linkable(s, c) ==> LinkOf(s, c) in r
  {
    if ordered == [] then []
    else
      var n := |ordered| - 1;
      LinksInOrder(s, ordered[..n]) + if Linkable(s, ordered[n]) then [LinkOf(s, ordered[n])] else []
  }

  lemma FilterAppend(cs: seq<Candidate>, c: Candidate, p: Candidate -> bool)
    ensures Filter(cs + [c], p) == Filter(cs, p) + if p(c) then [c] else []
  {
    assert (cs + [c])[..|cs|] == cs;
  }

  lemma LinkAppend(cs: seq<Candidate>, c: Candidate, r: Relationship)
    ensures Link(cs + [c], r) == Link(cs, r) + [Linked(r, c)]
  {
  }

  lemma LinksAppend(s: Subject, cs: seq<Candidate>, c: Candidate)
    ensures LinksInOrder(s, cs + [c]) == LinksInOrder(s, cs) + if Linkable(s, c) then [LinkOf(s, c)] else []
  {
    assert (cs + [c])[..|cs|] == cs;
  }

  lemma {:induction false} LinksTogether(s: Subject, ordered: seq<Candidate>)
    ensures multiset(LinksInOrder(s, ordered)) ==
      multiset(Link(Filter(ordered, Renames(s)), AsRenamed)) + multiset(Link(Filter(ordered, Moves(s)), AsMoved))
  {
    if ordered != [] {
      hide Filter, Link, LinksInOrder, RenameMatch, MoveMatch;
      var n := |ordered| - 1;
      var init, c := ordered[..n], ordered[n];
      assert ordered == init + [c];
      LinksTogether(s, init);
      MatchesDisjoint(s, c);
      FilterAppend(init, c, Renames(s));
      FilterAppend(init, c, Moves(s));
      LinksAppend(s, init, c);
      var r, m := Filter(init, Renames(s)), Filter(init, Moves(s));
      if RenameMatch(s, c) {
        LinkAppend(r, c, AsRenamed);
        assert Filter(ordered, Moves(s)) == m;
      } else if MoveMatch(s, c) {
        LinkAppend(m, c, AsMoved);
        assert Filter(ordered, Renames(s)) == r;
      } else {
        assert Filter(ordered, Moves(s)) == m && Filter(ordered, Renames(s)) == r;
      }
    }
  }

  ghost predicate StrictLinks(ls: seq<Linked>)
  {
    forall i, j :: 0 <= i < j < |ls| ==> Before(ls[i].target, ls[j].target)
  }

  lemma {:induction false} LinksStrict(s: Subject, ordered: seq<Candidate>)
    requires Strict(ordered)
    ensures StrictLinks(LinksInOrder(s, ordered))
  {
    hide LexLess, Before, Linkable, LinkOf;
    if ordered != [] {
      var n := |ordered| - 1;
      LinksStrict(s, ordered[..n]);
      forall l | l in LinksInOrder(s, ordered[..n]) ensures Before(l.target, ordered[n]) {
        var i :| 0 <= i < n && ordered[i] == l.target;
      }
      assert LinkOf(s, ordered[n]).target == ordered[n] by { LinkTarget(s, ordered[n]); }
    }
  }

  lemma LinkTarget(s: Subject, c: Candidate)
    ensures LinkOf(s, c).target == c
  {
  }

  lemma StrictLinksFacts(ls: seq<Linked>)
    requires StrictLinks(ls)
    ensures Sorted(ls, LinkedOrder) && Separates(ls, LinkedOrder)
  {
    hide LexLess, Before;
    forall x, y | x in ls && y in ls && LinkedOrder(x, y) && LinkedOrder(y, x) ensures x == y {
      OrderLaws(x.target, y.target);
      OrderLaws(y.target, x.target);
      var i, j :| 0 <= i < |ls| && ls[i] == x && 0 <= j < |ls| && ls[j] == y;
    }
  }

  lemma LinkedOrderTotal()
    ensures TotalOrder(LinkedOrder)
  {
    hide CandidateOrder;
    CandidateOrderTotal();
  }

  lemma {:induction false} NothingDropped(ls: seq<Linked>)
    requires StrictLinks(ls)
    ensures Dedup(ls) == ls
  {
    hide LexLess, Before, SameIdentity;
    if ls != [] {
      var n := |ls| - 1;
      NothingDropped(ls[..n]);
      if n > 0 {
        assert Before(ls[n - 1].target, ls[n].target);
        OrderLaws(ls[n - 1].target, ls[n].target);
      }
      assert ls == ls[..n] + [ls[n]];
    }
  }

  /* Sorting and dropping repetitions gives each linkable candidate once, in candidate order. */
  lemma {:induction false} LinksExactly(s: Subject, ordered: seq<Candidate>)
    requires Strict(ordered)
    ensures Links(s, ordered) == LinksInOrder(s, ordered)
  {
    hide LexLess, Strict, LinkedOrder, LinksInOrder, Filter, Link, StrictLinks, Dedup;
    var found := Link(Filter(ordered, Renames(s)), AsRenamed) + Link(Filter(ordered, Moves(s)), AsMoved);
    var wanted := LinksInOrder(s, ordered);
    LinksTogether(s, ordered);
    LinksStrict(s, ordered);
    StrictLinksFacts(wanted);
    LinkedOrderTotal();
    SortSorted(found, LinkedOrder);
    SortedUnique(wanted, Sort(found, LinkedOrder), LinkedOrder);
    NothingDropped(wanted);
  }

  // What the resolutions mean, for a complete set of candidates.

  /* Every candidate was supplied, within the limit, each once. */
  ghost predicate Complete(candidates: seq<Candidate>, count: nat)
  {
    count == |candidates| <= MAX_CANDIDATES && DistinctIdentities(candidates)
  }

  lemma {:induction false} CompleteResolves(s: Subject, candidates: seq<Candidate>, count: nat)
    requires Complete(candidates, count)
    ensures var ordered := Sort(candidates, CandidateOrder);
      && Resolve(s, candidates, count) == Ok(ResolveOrdered(s, ordered))
      && Strict(ordered) && (forall c :: c in ordered <==> c in candidates)
  {
    hide ResolveOrdered, HasNeighbours, DistinctIdentities, Strict, CandidateOrder;
    DuplicatesFound(candidates);
    SameElements(Sort(candidates, CandidateOrder), candidates);
  }

  lemma {:induction false} FilterStrict(cs: seq<Candidate>, p: Candidate -> bool)
    requires Strict(cs)
    ensures Strict(Filter(cs, p))
  {
    hide LexLess, Before;
    if cs != [] {
      var n := |cs| - 1;
      FilterStrict(cs[..n], p);
      forall c | c in Filter(cs[..n], p) ensures Before(c, cs[n]) {
        var i :| 0 <= i < n && cs[i] == c;
      }
    }
  }

  /* The members of one class, in candidate order. */
  ghost predicate Lists(list: seq<Candidate>, candidates: seq<Candidate>, p: Candidate -> bool)
  {
    Strict(list) && forall c :: c in list <==> c in candidates && p(c)
  }

  ghost predicate NoneOf(candidates: seq<Candidate>, p: Candidate -> bool)
  {
    forall c :: c in candidates ==> !p(c)
  }

  /* `t` is the one member of its class. */
  ghost predicate Only(t: Candidate, candidates: seq<Candidate>, p: Candidate -> bool)
  {
    t in candidates && p(t) && forall c :: c in candidates && p(c) ==> c == t
  }

  function Linkables(s: Subject): Candidate -> bool
  {
    c => Linkable(s, c)
  }

  /* What each resolution says about the candidates, whatever their order. */
  ghost predicate Means(s: Subject, cs: seq<Candidate>, r: Resolution)
  {
    match r
    case Exact(t) => Only(t, cs, Exacts(s))
    case Automatic(relationship, t) =>
      && NoneOf(cs, Exacts(s)) && Only(t, cs, Linkables(s))
      && (relationship == AsRenamed <==> RenameMatch(s, t)) && (relationship == AsMoved <==> MoveMatch(s, t))
    case Changed(t) => NoneOf(cs, Exacts(s)) && NoneOf(cs, Linkables(s)) && Only(t, cs, Changes(s))
    case NeedsReview(list) =>
      || (|list| > 1 && Lists(list, cs, Exacts(s)))
      || (|list| > 1 && NoneOf(cs, Exacts(s)) && Lists(list, cs, Linkables(s)))
      || (|list| > 1 && NoneOf(cs, Exacts(s)) && NoneOf(cs, Linkables(s)) && Lists(list, cs, Changes(s)))
      || (list != [] && NoneOf(cs, Exacts(s)) && NoneOf(cs, Linkables(s)) && NoneOf(cs, Changes(s)) && Lists(list, cs, Plausibles(s)))
    case Missing => NoneOf(cs, Plausibles(s)) && s.elided.Some?
    case Indeterminate(reason) => reason == MissingSubjectFingerprint && NoneOf(cs, Plausibles(s)) && s.elided.None?
  }

  lemma ListEmpty(list: seq<Candidate>, cs: seq<Candidate>, p: Candidate -> bool)
    requires Lists(list, cs, p)
    ensures list == [] <==> NoneOf(cs, p)
  {
    if list != [] {
      assert list[0] in list;
    }
  }

  lemma ListOne(list: seq<Candidate>, cs: seq<Candidate>, p: Candidate -> bool)
    requires Lists(list, cs, p) && |list| == 1
    ensures Only(list[0], cs, p)
  {
    assert list == [list[0]];
  }

  lemma {:induction false} DecideMeans(
    s: Subject, cs: seq<Candidate>, exact: seq<Candidate>, links: seq<Linked>, changed: seq<Candidate>, plausible: seq<Candidate>)
    requires Lists(exact, cs, Exacts(s)) && Lists(Targets(links), cs, Linkables(s))
    requires Lists(changed, cs, Changes(s)) && Lists(plausible, cs, Plausibles(s))
    requires forall l :: l in links ==> l == LinkOf(s, l.target) && Linkable(s, l.target)
    ensures Means(s, cs, Decide(exact, links, changed, plausible, s.elided.Some?))
  {
    hide Lists, Only, NoneOf, Exacts, Linkables, Changes, Plausibles, RenameMatch, MoveMatch;
    ListEmpty(exact, cs, Exacts(s));
    ListEmpty(Targets(links), cs, Linkables(s));
    ListEmpty(changed, cs, Changes(s));
    ListEmpty(plausible, cs, Plausibles(s));
    if |exact| == 1 {
      ListOne(exact, cs, Exacts(s));
    } else if exact == [] && |links| == 1 {
      ListOne(Targets(links), cs, Linkables(s));
      assert links[0] in links;
      MatchesDisjoint(s, links[0].target);
    } else if exact == [] && links == [] && |changed| == 1 {
      ListOne(changed, cs, Changes(s));
    }
  }

  lemma {:induction false} LinksList(s: Subject, ordered: seq<Candidate>)
    requires Strict(ordered)
    ensures Lists(Targets(LinksInOrder(s, ordered)), ordered, Linkables(s))
  {
    hide LexLess, Before, Linkable;
    LinksStrict(s, ordered);
    var links := LinksInOrder(s, ordered);
    var targets := Targets(links);
    forall c | c in targets ensures c in ordered && Linkable(s, c) {
      var i :| 0 <= i < |targets| && targets[i] == c;
      assert links[i] in links;
    }
    forall c | c in ordered && Linkable(s, c) ensures c in targets {
      assert LinkOf(s, c) in links;
      var i :| 0 <= i < |links| && links[i] == LinkOf(s, c);
      LinkTarget(s, c);
      assert targets[i] == c;
    }
  }

  lemma Relisted(list: seq<Candidate>, a: seq<Candidate>, b: seq<Candidate>, p: Candidate -> bool)
    requires Lists(list, a, p) && forall c :: c in a <==> c in b
    ensures Lists(list, b, p)
  {
    hide Strict;
  }

  lemma FilterLists(ordered: seq<Candidate>, cs: seq<Candidate>, p: Candidate -> bool)
    requires Strict(ordered) && forall c :: c in ordered <==> c in cs
    ensures Lists(Filter(ordered, p), cs, p)
  {
    hide Strict;
    FilterStrict(ordered, p);
  }

  lemma StrictFacts(list: seq<Candidate>)
    requires Strict(list)
    ensures Sorted(list, CandidateOrder) && Separates(list, CandidateOrder) && DistinctIdentities(list)
    ensures forall i, j :: 0 <= i < j < |list| ==> list[i] != list[j]
  {
    hide LexLess, Before, SameIdentity;
    assert Sorted(list, CandidateOrder);
    StrictIsDistinct(list);
    DistinctSeparates(list);
    forall i, j | 0 <= i < j < |list| ensures list[i] != list[j] {
      OrderLaws(list[i], list[j]);
    }
  }

  /* A class has one list. */
  lemma {:induction false} ListUnique(a: seq<Candidate>, b: seq<Candidate>, cs: seq<Candidate>, p: Candidate -> bool)
    requires Lists(a, cs, p) && Lists(b, cs, p)
    ensures a == b
  {
    hide Strict, CandidateOrder, DistinctIdentities;
    StrictFacts(a);
    StrictFacts(b);
    forall x: Candidate ensures multiset(a)[x] == multiset(b)[x] {
      DistinctCount(a, x);
      DistinctCount(b, x);
    }
    assert multiset(a) == multiset(b);
    CandidateOrderTotal();
    SortedUnique(a, b, CandidateOrder);
  }

  lemma ListOnly(list: seq<Candidate>, cs: seq<Candidate>, p: Candidate -> bool, t: Candidate)
    requires Lists(list, cs, p) && Only(t, cs, p)
    ensures list == [t]
  {
    hide Strict;
    assert Lists([t], cs, p) by { assert Strict([t]) by { OneStrict(t); } }
    ListUnique(list, [t], cs, p);
  }

  lemma OneStrict(t: Candidate)
    ensures Strict([t])
  {
  }

  /* Nothing but the decided resolution means what it says. */
  lemma {:induction false} MeansDecides(
    s: Subject, cs: seq<Candidate>, exact: seq<Candidate>, links: seq<Linked>, changed: seq<Candidate>, plausible: seq<Candidate>, r: Resolution)
    requires Lists(exact, cs, Exacts(s)) && Lists(Targets(links), cs, Linkables(s))
    requires Lists(changed, cs, Changes(s)) && Lists(plausible, cs, Plausibles(s))
    requires forall l :: l in links ==> l == LinkOf(s, l.target) && Linkable(s, l.target)
    requires Means(s, cs, r)
    ensures r == Decide(exact, links, changed, plausible, s.elided.Some?)
  {
    hide Lists, Only, NoneOf, Exacts, Linkables, Changes, Plausibles, RenameMatch, MoveMatch;
    ListEmpty(exact, cs, Exacts(s));
    ListEmpty(Targets(links), cs, Linkables(s));
    ListEmpty(changed, cs, Changes(s));
    ListEmpty(plausible, cs, Plausibles(s));
    if NoneOf(cs, Plausibles(s)) {
      NothingPlausible(s, cs);
    }
    match r
    case Exact(t) => ListOnly(exact, cs, Exacts(s), t);
    case Automatic(relationship, t) =>
      ListOnly(Targets(links), cs, Linkables(s), t);
      assert Targets(links)[0] == links[0].target == t && links[0] in links;
      MatchesDisjoint(s, t);
    case Changed(t) => ListOnly(changed, cs, Changes(s), t);
    case NeedsReview(list) => ReviewDecides(s, cs, exact, links, changed, plausible, list);
    case Missing =>
    case Indeterminate(_) =>
  }

  lemma {:induction false} ReviewDecides(
    s: Subject, cs: seq<Candidate>, exact: seq<Candidate>, links: seq<Linked>, changed: seq<Candidate>, plausible: seq<Candidate>, list: seq<Candidate>)
    requires Lists(exact, cs, Exacts(s)) && Lists(Targets(links), cs, Linkables(s))
    requires Lists(changed, cs, Changes(s)) && Lists(plausible, cs, Plausibles(s))
    requires Means(s, cs, NeedsReview(list))
    ensures NeedsReview(list) == Decide(exact, links, changed, plausible, s.elided.Some?)
  {
    hide Lists, NoneOf, Exacts, Linkables, Changes, Plausibles;
    ListEmpty(exact, cs, Exacts(s));
    ListEmpty(Targets(links), cs, Linkables(s));
    ListEmpty(changed, cs, Changes(s));
    if |list| > 1 && Lists(list, cs, Exacts(s)) {
      ListUnique(list, exact, cs, Exacts(s));
    } else if |list| > 1 && NoneOf(cs, Exacts(s)) && Lists(list, cs, Linkables(s)) {
      ListUnique(list, Targets(links), cs, Linkables(s));
    } else if |list| > 1 && NoneOf(cs, Exacts(s)) && NoneOf(cs, Linkables(s)) && Lists(list, cs, Changes(s)) {
      ListUnique(list, changed, cs, Changes(s));
    } else {
      ListUnique(list, plausible, cs, Plausibles(s));
    }
  }

  lemma NothingPlausible(s: Subject, cs: seq<Candidate>)
    requires NoneOf(cs, Plausibles(s))
    ensures NoneOf(cs, Exacts(s)) && NoneOf(cs, Linkables(s)) && NoneOf(cs, Changes(s))
  {
    hide ExactMatch, RenameMatch, MoveMatch, ChangedMatch, PlausibleMatch;
    forall c | c in cs ensures !ExactMatch(s, c) && !Linkable(s, c) && !ChangedMatch(s, c) {
      MatchesDisjoint(s, c);
    }
  }

  /* For a complete set of candidates a resolution is the result exactly when it means what it says. */
  lemma {:induction false} ResolutionExactly(s: Subject, candidates: seq<Candidate>, count: nat, r: Resolution)
    requires Complete(candidates, count)
    ensures Resolve(s, candidates, count) == Ok(r) <==> Means(s, candidates, r)
  {
    hide Complete, Resolve, Strict, CandidateOrder, Links, Means, Lists, Filter, Decide, LinksInOrder;
    CompleteResolves(s, candidates, count);
    var ordered := Sort(candidates, CandidateOrder);
    FilterLists(ordered, candidates, Exacts(s));
    FilterLists(ordered, candidates, Changes(s));
    FilterLists(ordered, candidates, Plausibles(s));
    LinksExactly(s, ordered);
    LinksList(s, ordered);
    var links := LinksInOrder(s, ordered);
    Relisted(Targets(links), ordered, candidates, Linkables(s));
    DecideMeans(s, candidates, Filter(ordered, Exacts(s)), links, Filter(ordered, Changes(s)), Filter(ordered, Plausibles(s)));
    if Means(s, candidates, r) {
      MeansDecides(s, candidates, Filter(ordered, Exacts(s)), links, Filter(ordered, Changes(s)), Filter(ordered, Plausibles(s)), r);
    }
  }

  /* When a candidate list is refused, and when it is answered with an overflow: for every list and count. */
  lemma {:induction false} RefusedExactly(s: Subject, candidates: seq<Candidate>, count: nat)
    ensures Resolve(s, candidates, count) == Err(CandidateLimitExceeded) <==> |candidates| > 16
    ensures Resolve(s, candidates, count) == Err(InvalidCandidateCount) <==> |candidates| <= 16 && count < |candidates|
    ensures Resolve(s, candidates, count) == Err(DuplicateCandidate) <==>
      |candidates| <= 16 && count >= |candidates| && Repeated(candidates)
    ensures Resolve(s, candidates, count) == Ok(Indeterminate(CandidateOverflow)) <==>
      |candidates| <= 16 && count > |candidates| && !Repeated(candidates)
    ensures var r := Resolve(s, candidates, count);
      r.Err? ==> r.error in {CandidateLimitExceeded, InvalidCandidateCount, DuplicateCandidate}
  {
    hide ResolveOrdered, HasNeighbours, CandidateOrder;
    DuplicatesFound(candidates);
    assert Repeated(candidates) <==> !DistinctIdentities(candidates);
    assert ResolveOrdered(s, Sort(candidates, CandidateOrder)) != Indeterminate(CandidateOverflow) by {
      NeverOverflow(s, Sort(candidates, CandidateOrder));
    }
  }

  /* Two candidates with the same path, artifact and ordinal. */
  ghost predicate Repeated(cs: seq<Candidate>)
  {
    exists i, j :: 0 <= i < j < |cs| && cs[i].path == cs[j].path && cs[i].artifact == cs[j].artifact && cs[i].ordinal == cs[j].ordinal
  }

  lemma NeverOverflow(s: Subject, ordered: seq<Candidate>)
    ensures ResolveOrdered(s, ordered) != Indeterminate(CandidateOverflow)
  {
    hide Filter, Links;
  }

  /**
   Any other answer is given exactly for a complete set for which it means what it says, so an absence or a
   unique match is never claimed from a truncated one.
   */
  lemma {:induction false} AnsweredExactly(s: Subject, candidates: seq<Candidate>, count: nat, r: Resolution)
    requires r != Indeterminate(CandidateOverflow)
    ensures Resolve(s, candidates, count) == Ok(r) <==>
      count == |candidates| <= 16 && !Repeated(candidates) && Means(s, candidates, r)
  {
    hide Resolve, Means;
    RefusedExactly(s, candidates, count);
    assert Repeated(candidates) <==> !DistinctIdentities(candidates);
    if Complete(candidates, count) {
      ResolutionExactly(s, candidates, count, r);
    }
  }

  /* Missing exactly when nothing is plausible although the fingerprint is known. */
  lemma {:induction false} MissingExactly(s: Subject, candidates: seq<Candidate>, count: nat)
    requires Complete(candidates, count)
    ensures Resolve(s, candidates, count) == Ok(Missing) <==>
      s.elided.Some? && forall c :: c in candidates ==> !PlausibleMatch(s, c)
  {
    hide Complete, Resolve, PlausibleMatch;
    ResolutionExactly(s, candidates, count, Missing);
  }

  // Renames end to end.

  /* Digests of an arbitrary hash function. */
  function CandidateAt(path: Octets, artifact: nat, ordinal: nat, d: Declaration, container: Text, o: Occurrence, hash: Octets -> nat): Candidate
  {
    Candidate(path, artifact, ordinal, d.kind, d.name, d.qualified, container, hash(o.declaration), hash(o.elided), false)
  }

  function SubjectAt(path: Octets, d: Declaration, container: Text, o: Occurrence, hash: Octets -> nat): Subject
  {
    Subject(path, d.kind, d.name, d.qualified, container, hash(o.declaration), Some(hash(o.elided)))
  }

  /* Replacing only the name of a declaration always makes the new one a rename of the old. */
  lemma {:induction false} RenameAlwaysMatches(
    path: Octets, source: Octets, d: Declaration, container: Text, name: Text, artifact: nat, ordinal: nat, hash: Octets -> nat)
    requires FingerprintOf(source, d).Ok? && Container(d.name, d.qualified) == Ok(container)
    requires Plain(name, MAX_NAME) && Plain(Qualify(container, name), MAX_QUALIFIED) && name != d.name
    ensures var d' := RenamedDeclaration(d, container, name);
      var o' := FingerprintOf(Renamed(source, d, name), d');
      && o'.Ok?
      && RenameMatch(SubjectAt(path, d, container, FingerprintOf(source, d).value, hash),
                     CandidateAt(path, artifact, ordinal, d', container, o'.value, hash))
  {
    hide FingerprintOf, Container, Plain, Qualify;
    assert d.nameStart <= d.nameEnd <= d.end <= |source| by { NameInside(source, d); }
    RenameKeepsElided(source, d, container, name);
  }

  lemma NameInside(source: Octets, d: Declaration)
    requires FingerprintOf(source, d).Ok?
    ensures d.start <= d.nameStart <= d.nameEnd <= d.end <= |source|
  {
    hide Container, ElidedPreimage;
  }

  // The source's steps on local lists.

  method Matching(cs: seq<Candidate>, p: Candidate -> bool) returns (r: seq<Candidate>)
    ensures r == Filter(cs, p)
  {
    r := [];
    for i := 0 to |cs|
      invariant r == Filter(cs[..i], p)
    {
      FilterAppend(cs[..i], cs[i], p);
      assert cs[..i + 1] == cs[..i] + [cs[i]];
      if p(cs[i]) {
        r := r + [cs[i]];
      }
    }
    assert cs[..|cs|] == cs;
  }

  method AnyNeighbours(ordered: seq<Candidate>) returns (found: bool)
    ensures found == HasNeighbours(ordered)
  {
    hide SameIdentity;
    for i := 0 to |ordered|
      invariant forall k :: 0 <= k < i && k < |ordered| - 1 ==> !SameIdentity(ordered[k], ordered[k + 1])
    {
      if i + 1 < |ordered| && SameIdentity(ordered[i], ordered[i + 1]) {
        return true;
      }
    }
    return false;
  }

  method ResolveRustCorrespondence(s: Subject, candidates: seq<Candidate>, count: nat) returns (r: Result<Resolution, CorrespondenceError>)
    ensures r == Resolve(s, candidates, count)
  {
    hide Filter, Dedup, CandidateOrder, LinkedOrder, HasNeighbours, Link;
    if |candidates| > MAX_CANDIDATES {
      return Err(CandidateLimitExceeded);
    }
    if count < |candidates| {
      return Err(InvalidCandidateCount);
    }
    var ordered := Sort(candidates, CandidateOrder);
    var repeated := AnyNeighbours(ordered);
    if repeated {
      return Err(DuplicateCandidate);
    }
    if count > |candidates| {
      return Ok(Indeterminate(CandidateOverflow));
    }
    var exact := Matching(ordered, Exacts(s));
    if exact != [] {
      return Ok(if |exact| == 1 then Exact(exact[0]) else NeedsReview(exact));
    }
    var renames := Matching(ordered, Renames(s));
    var moves := Matching(ordered, Moves(s));
    var automatic := Link(renames, AsRenamed) + Link(moves, AsMoved);
    automatic := Sort(automatic, LinkedOrder);
    automatic := Dedup(automatic);
    if |automatic| == 1 {
      return Ok(Automatic(automatic[0].relationship, automatic[0].target));
    }
    if |automatic| > 1 {
      return Ok(NeedsReview(Targets(automatic)));
    }
    var changed := Matching(ordered, Changes(s));
    if changed != [] {
      return Ok(if |changed| == 1 then Changed(changed[0]) else NeedsReview(changed));
    }
    var plausible := Matching(ordered, Plausibles(s));
    if plausible != [] {
      return Ok(NeedsReview(plausible));
    }
    if s.elided.None? {
      return Ok(Indeterminate(MissingSubjectFingerprint));
    }
    return Ok(Missing);
  }
}
