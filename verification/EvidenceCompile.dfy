/**
 The whole allocation: lanes are built and sorted, the anchor is tried first, rounds follow, and
 omissions are reported by tier.
 */
module EvidenceCompile {
  import opened Results
  import opened Bytes
  import opened Sorting
  import opened EvidenceGrouping
  import opened EvidenceInput
  import opened EvidenceAllocation
  import opened EvidenceFairness

  const TIERS: nat := 8
  const MAX_BUDGET_UNITS: nat := 1_048_576

  function LanesOf(candidates: seq<Candidate>): Lanes
  {
    seq(LANES, k requires 0 <= k < LANES => Sort(OfTier(candidates, TierOf(k)), LaneOrder))
  }

  function Start(anchor: Option<Candidate>, budget: nat): Admission
  {
    if anchor.Some? then TryAdmit(NOTHING, anchor.value, budget) else Took(NOTHING)
  }

  function Allocate(anchor: Option<Candidate>, candidates: seq<Candidate>, budget: nat): Result<Allocation, ContextError>
  {
    if exists c :: c in candidates && c.tier == ANCHOR then Err(InvalidInput)
    else match Start(anchor, budget)
      case Unrepresentable => Err(CountNotRepresentable)
      case Took(a) => Run(a, LanesOf(candidates), budget)
      case Left(a) => Run(a, LanesOf(candidates), budget)
  }

  // The lanes hold exactly the candidates, sorted.

  lemma LaneOrderTotal()
    ensures TotalOrder(LaneOrder)
  {
  }

  lemma {:induction false} LanesLaned(candidates: seq<Candidate>)
    ensures Laned(LanesOf(candidates))
    ensures forall k :: 0 <= k < LANES ==> Sorted(LanesOf(candidates)[k], LaneOrder)
  {
    hide OfTier, LaneOrder, Sort;
    forall k | 0 <= k < LANES
      ensures Sorted(LanesOf(candidates)[k], LaneOrder) && forall c :: c in LanesOf(candidates)[k] ==> c.tier == TierOf(k)
    {
      var own := OfTier(candidates, TierOf(k));
      LaneOrderTotal();
      SortSorted(own, LaneOrder);
      SameElements(Sort(own, LaneOrder), own);
    }
  }

  lemma {:induction false} TierCount(s: seq<Candidate>, t: Tier, x: Candidate)
    ensures multiset(OfTier(s, t))[x] == if x.tier == t then multiset(s)[x] else 0
  {
    if s != [] {
      var n := |s| - 1;
      assert s == s[..n] + [s[n]];
      TierCount(s[..n], t, x);
    }
  }

  lemma {:induction false} ContentsCount(lanes: seq<seq<Candidate>>, k: nat, x: Candidate)
    requires k < |lanes| && forall i :: 0 <= i < |lanes| && i != k ==> multiset(lanes[i])[x] == 0
    ensures Contents(lanes)[x] == multiset(lanes[k])[x]
  {
    if k == 0 {
      NotHeld(lanes[1..], x);
    } else {
      ContentsCount(lanes[1..], k - 1, x);
    }
  }

  lemma {:induction false} NotHeld(lanes: seq<seq<Candidate>>, x: Candidate)
    requires forall i :: 0 <= i < |lanes| ==> multiset(lanes[i])[x] == 0
    ensures Contents(lanes)[x] == 0
  {
    if lanes != [] {
      NotHeld(lanes[1..], x);
    }
  }

  lemma {:induction false} LanesHoldAll(candidates: seq<Candidate>)
    requires forall c :: c in candidates ==> c.tier != ANCHOR
    ensures Contents(LanesOf(candidates)) == multiset(candidates)
  {
    hide OfTier, LaneOrder, Sort, Contents;
    var lanes := LanesOf(candidates);
    forall x: Candidate ensures Contents(lanes)[x] == multiset(candidates)[x] {
      forall k | 0 <= k < LANES ensures multiset(lanes[k])[x] == if x.tier == TierOf(k) then multiset(candidates)[x] else 0 {
        TierCount(candidates, TierOf(k), x);
      }
      if x.tier == ANCHOR {
        assert x !in multiset(candidates);
        NotHeld(lanes, x);
      } else {
        ContentsCount(lanes, x.tier - 1, x);
      }
    }
  }

  // What every successful allocation guarantees.

  function Offered(anchor: Option<Candidate>, candidates: seq<Candidate>): multiset<Candidate>
  {
    multiset(candidates) + if anchor.Some? then multiset{anchor.value} else multiset{}
  }

  lemma StartSound(anchor: Option<Candidate>, budget: nat)
    ensures var s := Start(anchor, budget);
      !s.Unrepresentable? ==> Sound(s.allocation, budget) && Settled(s.allocation) == Offered(anchor, [])
  {
    if anchor.Some? {
      CostAppend([], anchor.value);
      assert [] + [anchor.value] == [anchor.value];
    }
  }

  /**
   The anchor and every candidate are admitted or omitted exactly once; the units used are exactly the
   cost of what was admitted and within budget; nothing that was omitted would still fit.
   */
  lemma {:induction false} AllocationConserves(anchor: Option<Candidate>, candidates: seq<Candidate>, budget: nat)
    ensures match Allocate(anchor, candidates, budget)
      case Err(_) => true
      case Ok(a) => Sound(a, budget) && Settled(a) == Offered(anchor, candidates)
  {
    hide Sound, Settled, Run, Start, LanesOf, Contents;
    if Allocate(anchor, candidates, budget).Ok? {
      StartSound(anchor, budget);
      RunConserves(Start(anchor, budget).allocation, LanesOf(candidates), budget);
      LanesHoldAll(candidates);
    }
  }

  lemma StartHoldsNoTier(anchor: Option<Candidate>, budget: nat, t: Tier)
    requires t != ANCHOR && (anchor.Some? ==> anchor.value.tier == ANCHOR)
    ensures var s := Start(anchor, budget); !s.Unrepresentable? ==> OfTier(s.allocation.items, t) == []
  {
    if Start(anchor, budget).Took? && anchor.Some? {
      OfTierAppend([], anchor.value, t);
    }
  }

  /* Each tier's admitted items appear in lane order. */
  lemma {:induction false} AllocationOrdered(anchor: Option<Candidate>, candidates: seq<Candidate>, budget: nat, k: nat)
    requires k < LANES && (anchor.Some? ==> anchor.value.tier == ANCHOR)
    ensures match Allocate(anchor, candidates, budget)
      case Err(_) => true
      case Ok(a) => Sorted(OfTier(a.items, TierOf(k)), LaneOrder)
  {
    hide Run, Start, LanesOf, OfTier, LaneOrder, After;
    if Allocate(anchor, candidates, budget).Ok? {
      var a, lanes := Start(anchor, budget).allocation, LanesOf(candidates);
      LanesLaned(candidates);
      StartHoldsNoTier(anchor, budget, TierOf(k));
      assert OfTier(a.items, TierOf(k)) + lanes[k] == lanes[k];
      var r := RunIsRounds(a, lanes, budget);
      LanesStayOrdered(a, lanes, budget, r, k);
      var end := After(a, lanes, budget, r);
      SortedPrefix(OfTier(end.allocation.items, TierOf(k)), end.lanes[k]);
    }
  }

  lemma TierSplit(s: seq<Candidate>, t: Tier)
    requires s != []
    ensures OfTier(s, t) == OfTier(s[..|s| - 1], t) + if s[|s| - 1].tier == t then [s[|s| - 1]] else []
  {
  }

  lemma {:induction false} TierPosition(s: seq<Candidate>, t: Tier, i: nat) returns (p: nat)
    requires i < |s| && s[i].tier == t
    ensures p < |OfTier(s, t)| && OfTier(s, t)[p] == s[i]
    decreases |s|
  {
    hide OfTier;
    var n := |s| - 1;
    TierSplit(s, t);
    if i < n {
      p := TierPosition(s[..n], t, i);
    } else {
      p := |OfTier(s[..n], t)|;
    }
  }

  /* Items of one tier keep their order among that tier's items. */
  lemma {:induction false} TierPositions(s: seq<Candidate>, t: Tier, i: nat, j: nat) returns (p: nat, q: nat)
    requires i < j < |s| && s[i].tier == t == s[j].tier
    ensures p < q < |OfTier(s, t)| && OfTier(s, t)[p] == s[i] && OfTier(s, t)[q] == s[j]
    decreases |s|
  {
    hide OfTier;
    var n := |s| - 1;
    TierSplit(s, t);
    if j < n {
      p, q := TierPositions(s[..n], t, i, j);
    } else {
      p := TierPosition(s[..n], t, i);
      q := |OfTier(s[..n], t)|;
    }
  }

  /* Of two admitted items of one tier the first has the smaller rank, then the smaller cost, then the smaller identity. */
  lemma {:induction false} AllocationRanked(anchor: Option<Candidate>, candidates: seq<Candidate>, budget: nat, i: nat, j: nat)
    requires anchor.Some? ==> anchor.value.tier == ANCHOR
    ensures match Allocate(anchor, candidates, budget)
      case Err(_) => true
      case Ok(a) =>
        i < j < |a.items| && a.items[i].tier == a.items[j].tier != ANCHOR ==>
          var x, y := a.items[i], a.items[j];
          || x.rank < y.rank
          || (x.rank == y.rank && x.units < y.units)
          || (x.rank == y.rank && x.units == y.units && x.identity <= y.identity)
  {
    hide Allocate, OfTier;
    match Allocate(anchor, candidates, budget)
    case Err(_) =>
    case Ok(a) =>
      if i < j < |a.items| && a.items[i].tier == a.items[j].tier != ANCHOR {
        var t := a.items[i].tier;
        AllocationOrdered(anchor, candidates, budget, t - 1);
        var p, q := TierPositions(a.items, t, i, j);
      }
  }

  lemma SortedPrefix(s: seq<Candidate>, t: seq<Candidate>)
    requires Sorted(s + t, LaneOrder)
    ensures Sorted(s, LaneOrder)
  {
    hide LaneOrder;
    assert forall i :: 0 <= i < |s| ==> (s + t)[i] == s[i];
  }

  /* From the start, lanes that still hold items have been admitted from once a round. */
  lemma {:induction false} AllocationFair(anchor: Option<Candidate>, candidates: seq<Candidate>, budget: nat, r: nat, k: nat, m: nat)
    requires k < LANES && m < LANES && (anchor.Some? ==> anchor.value.tier == ANCHOR)
    requires !Start(anchor, budget).Unrepresentable?
    requires After(Start(anchor, budget).allocation, LanesOf(candidates), budget, r).Round?
    ensures var s := After(Start(anchor, budget).allocation, LanesOf(candidates), budget, r);
      s.lanes[k] != [] ==> AdmittedFrom(s.allocation, k) == r && AdmittedFrom(s.allocation, m) <= r
  {
    hide Start, LanesOf, After, OfTier;
    LanesLaned(candidates);
    StartHoldsNoTier(anchor, budget, TierOf(k));
    StartHoldsNoTier(anchor, budget, TierOf(m));
    LanesShareRounds(Start(anchor, budget).allocation, LanesOf(candidates), budget, r, k);
    LanesShareRounds(Start(anchor, budget).allocation, LanesOf(candidates), budget, r, m);
  }

  /* The anchor is decided first: it is the first item if it fits the budget, and the first omission if not. */
  lemma {:induction false} AnchorFirst(anchor: Candidate, candidates: seq<Candidate>, budget: nat)
    ensures match Allocate(Some(anchor), candidates, budget)
      case Err(_) => true
      case Ok(a) =>
        if anchor.units <= budget then a.items != [] && a.items[0] == anchor else a.omitted != [] && a.omitted[0] == anchor
  {
    hide Run, LanesOf, OfTier;
    if Allocate(Some(anchor), candidates, budget).Ok? {
      LanesLaned(candidates);
      RunGrows(Start(Some(anchor), budget).allocation, LanesOf(candidates), budget);
    }
  }

  /* An anchor among the candidates is refused as such; the only other failure is a count. */
  lemma AllocationRefuses(anchor: Option<Candidate>, candidates: seq<Candidate>, budget: nat)
    ensures Allocate(anchor, candidates, budget) == Err(InvalidInput) <==> exists c :: c in candidates && c.tier == 0
    ensures Allocate(anchor, candidates, budget).Err? ==> Allocate(anchor, candidates, budget).error in {InvalidInput, CountNotRepresentable}
  {
    hide Run, LanesOf, OfTier;
    var s := Start(anchor, budget);
    if !s.Unrepresentable? {
      RunRefuses(s.allocation, LanesOf(candidates), budget);
    }
  }

  lemma {:induction false} RunRefuses(a: Allocation, lanes: Lanes, budget: nat)
    ensures Run(a, lanes, budget).Err? ==> Run(a, lanes, budget) == Err(CountNotRepresentable)
    decreases Remaining(lanes)
  {
    hide RoundFrom, Remaining;
    match RoundFrom(a, lanes, 0, false, budget)
    case RoundOverflow =>
    case Round(a', lanes', admitted) =>
      if admitted {
        RunRefuses(a', lanes', budget);
      }
  }

  // When it succeeds, and on what it depends.

  /* No 64-bit addition can overflow for these items. */
  ghost predicate Small(lane: seq<Candidate>, budget: nat)
  {
    forall c :: c in lane ==> budget + c.units < U64
  }

  lemma {:induction false} TurnFits(a: Allocation, lane: seq<Candidate>, budget: nat)
    requires a.used <= budget && Small(lane, budget) && |a.omitted| + |lane| < U64
    ensures var t := TakeTurn(a, lane, budget);
      && !t.Overflow? && t.allocation.used <= budget
      && |t.allocation.omitted| + (if t.Admitted? then |t.rest| else 0) <= |a.omitted| + |lane|
      && (t.Admitted? ==> Small(t.rest, budget))
    decreases |lane|
  {
    if lane != [] {
      assert lane[0] in lane;
      match TryAdmit(a, lane[0], budget)
      case Took(_) =>
      case Left(a') => TurnFits(a', lane[1..], budget);
      case Unrepresentable =>
    }
  }

  lemma {:induction false} RoundFits(a: Allocation, lanes: Lanes, k: nat, admitted: bool, budget: nat)
    requires k <= LANES && a.used <= budget && |a.omitted| + Remaining(lanes) < U64
    requires forall i :: 0 <= i < LANES ==> Small(lanes[i], budget)
    ensures var r := RoundFrom(a, lanes, k, admitted, budget);
      && r.Round? && r.allocation.used <= budget && |r.allocation.omitted| + Remaining(r.lanes) < U64
      && forall i :: 0 <= i < LANES ==> Small(r.lanes[i], budget)
    decreases LANES - k
  {
    hide TakeTurn, Remaining;
    if k < LANES {
      RemainingUpdate(lanes, k, []);
      TurnFits(a, lanes[k], budget);
      match TakeTurn(a, lanes[k], budget)
      case Exhausted(a') => RoundFits(a', lanes[k := []], k + 1, admitted, budget);
      case Admitted(a', rest) =>
        RemainingUpdate(lanes, k, rest);
        RoundFits(a', lanes[k := rest], k + 1, true, budget);
    }
  }

  lemma {:induction false} RunFits(a: Allocation, lanes: Lanes, budget: nat)
    requires a.used <= budget && |a.omitted| + Remaining(lanes) < U64
    requires forall i :: 0 <= i < LANES ==> Small(lanes[i], budget)
    ensures Run(a, lanes, budget).Ok?
    decreases Remaining(lanes)
  {
    hide RoundFrom, Remaining, Small;
    RoundFits(a, lanes, 0, false, budget);
    var r := RoundFrom(a, lanes, 0, false, budget);
    if r.admitted {
      RunFits(r.allocation, r.lanes, budget);
    }
  }

  lemma {:induction false} RemainingIsContents(lanes: seq<seq<Candidate>>)
    ensures Remaining(lanes) == |Contents(lanes)|
  {
    if lanes != [] {
      RemainingIsContents(lanes[1..]);
    }
  }

  /* With costs that fit 64 bits on top of the budget, allocation of non-anchor candidates succeeds. */
  lemma {:induction false} AllocationSucceeds(anchor: Option<Candidate>, candidates: seq<Candidate>, budget: nat)
    requires forall c :: c in candidates ==> c.tier != ANCHOR
    requires Small(candidates, budget) && (anchor.Some? ==> budget + anchor.value.units < U64)
    requires |candidates| + 1 < U64
    ensures Allocate(anchor, candidates, budget).Ok?
  {
    hide Run, LanesOf, Contents, Remaining, OfTier;
    var lanes := LanesOf(candidates);
    LanesHoldAll(candidates);
    RemainingIsContents(lanes);
    assert |multiset(candidates)| == |candidates|;
    forall i | 0 <= i < LANES ensures Small(lanes[i], budget) {
      LaneFrom(candidates, i);
    }
    assert OfTier([], if anchor.Some? then anchor.value.tier else ANCHOR) == [];
    RunFits(Start(anchor, budget).allocation, lanes, budget);
  }

  /**
   The bound on a cost is the right one: a candidate can be allocated beside every representable
   anchor exactly when its cost fits 64 bits on top of the budget.
   */
  lemma {:induction false} CostBoundExactly(c: Candidate, budget: nat)
    requires c.tier != ANCHOR && budget <= MAX_BUDGET_UNITS
    ensures budget + c.units < U64 <==> forall anchor: Candidate :: budget + anchor.units < U64 ==> Allocate(Some(anchor), [c], budget).Ok?
  {
    hide Allocate;
    if budget + c.units < U64 {
      forall anchor: Candidate | budget + anchor.units < U64 ensures Allocate(Some(anchor), [c], budget).Ok? {
        AllocationSucceeds(Some(anchor), [c], budget);
      }
    } else {
      var anchor := c.(tier := ANCHOR, units := budget);
      FullBudgetOverflows(anchor, c, budget);
    }
  }

  lemma {:induction false} RoundOverflows(a: Allocation, lanes: Lanes, k: nat, budget: nat, j: nat, c: Candidate)
    requires k <= j < LANES && (forall i :: k <= i < j ==> lanes[i] == []) && lanes[j] == [c] && a.used + c.units >= U64
    ensures RoundFrom(a, lanes, k, false, budget) == RoundOverflow
    decreases j - k
  {
    if k < j {
      assert lanes[k := []] == lanes;
      RoundOverflows(a, lanes, k + 1, budget, j, c);
    }
  }

  lemma OneLane(c: Candidate)
    requires c.tier != ANCHOR
    ensures LanesOf([c])[c.tier - 1] == [c] && forall i :: 0 <= i < c.tier - 1 ==> LanesOf([c])[i] == []
  {
    forall t: Tier ensures OfTier([c], t) == if c.tier == t then [c] else [] {
      OfTierAppend([], c, t);
    }
  }

  /* An anchor that fills the budget leaves no room in 64 bits for the cost. */
  lemma FullBudgetOverflows(anchor: Candidate, c: Candidate, budget: nat)
    requires c.tier != ANCHOR && anchor.units == budget <= MAX_BUDGET_UNITS && budget + c.units >= U64
    ensures Allocate(Some(anchor), [c], budget) == Err(CountNotRepresentable)
  {
    hide LanesOf, RoundFrom, Remaining;
    OneLane(c);
    RoundOverflows(Start(Some(anchor), budget).allocation, LanesOf([c]), 0, budget, c.tier - 1, c);
  }

  lemma LaneFrom(candidates: seq<Candidate>, i: nat)
    requires i < LANES
    ensures forall c :: c in LanesOf(candidates)[i] ==> c in candidates
  {
    hide OfTier, Sort;
    SameElements(LanesOf(candidates)[i], OfTier(candidates, TierOf(i)));
  }

  ghost predicate DistinctIdentities(candidates: seq<Candidate>)
  {
    forall a, b :: a in candidates && b in candidates && a.identity == b.identity ==> a == b
  }

  /* Equal sets of candidates allocate alike, in whatever order they are given. */
  lemma {:induction false} AllocationIgnoresOrder(anchor: Option<Candidate>, p: seq<Candidate>, q: seq<Candidate>, budget: nat)
    requires multiset(p) == multiset(q) && DistinctIdentities(p)
    ensures Allocate(anchor, p, budget) == Allocate(anchor, q, budget)
  {
    hide Run, Start, OfTier, Sort;
    SameElements(p, q);
    forall k | 0 <= k < LANES ensures LanesOf(p)[k] == LanesOf(q)[k] {
      SameLane(p, q, TierOf(k));
    }
    assert LanesOf(p) == LanesOf(q);
  }

  lemma {:induction false} SameLane(p: seq<Candidate>, q: seq<Candidate>, t: Tier)
    requires multiset(p) == multiset(q) && DistinctIdentities(p)
    ensures Sort(OfTier(p, t), LaneOrder) == Sort(OfTier(q, t), LaneOrder)
  {
    hide OfTier, Sort;
    var a, b := OfTier(p, t), OfTier(q, t);
    forall x: Candidate ensures multiset(a)[x] == multiset(b)[x] {
      TierCount(p, t, x);
      TierCount(q, t, x);
    }
    assert multiset(a) == multiset(b);
    LaneOrderTotal();
    SortIgnoresOrder(a, b, LaneOrder);
  }

  // From offers to allocation.

  /* Compiles one request: grouping, then allocation of the groups. */
  function Compile(scope: nat, anchor: Option<Offer>, offers: seq<Offer>, budget: nat): Result<Allocation, ContextError>
  {
    match TryNew(scope, anchor, offers)
    case Err(e) => Err(e)
    case Ok(input) => Allocate(if anchor.Some? then Some(FromOffer(anchor.value)) else None, input.candidates, budget)
  }

  /**
   From the offers to the end: the anchor and the candidate of each identity offered are admitted or omitted
   exactly once, at exact cost, and nothing omitted would still fit; an anchor that fits is the first item.
   */
  lemma {:induction false} CompileConserves(scope: nat, anchor: Option<Offer>, offers: seq<Offer>, budget: nat)
    ensures match Compile(scope, anchor, offers, budget)
      case Err(_) => true
      case Ok(a) =>
        && TryNew(scope, anchor, offers).Ok? && Sound(a, budget)
        && Settled(a) == multiset(TryNew(scope, anchor, offers).value.candidates) +
             (match anchor case None => multiset{} case Some(o) => multiset{FromOffer(o)})
        && (anchor.Some? && anchor.value.units <= budget ==> a.items != [] && a.items[0] == FromOffer(anchor.value))
  {
    hide TryNew, Allocate, Sound, Settled;
    if Compile(scope, anchor, offers, budget).Ok? {
      var candidates := TryNew(scope, anchor, offers).value.candidates;
      match anchor
      case None => AllocationConserves(None, candidates, budget);
      case Some(o) =>
        AllocationConserves(Some(FromOffer(o)), candidates, budget);
        AnchorFirst(FromOffer(o), candidates, budget);
    }
  }

  lemma GroupPlaced(members: seq<Offer>, id: nat)
    requires members != [] && MergeAll(members).Ok?
    requires forall o :: o in members ==> o.tier != ANCHOR && o.identity == id
    ensures MergeAll(members).value.tier != ANCHOR && MergeAll(members).value.identity == id
  {
    hide MergeAll, Compatible, PaidBy;
    MergesExactly(members);
    assert members[Leader(members)] in members && members[0] in members;
  }

  lemma InOrderHolds(groups: Groups)
    requires forall id :: id in groups ==> groups[id].identity == id
    ensures forall c :: c in InOrder(groups) ==> c.identity in groups && c == groups[c.identity]
    ensures (set c | c in InOrder(groups) :: c.identity) == groups.Keys
  {
    hide Ascending;
    var keys, candidates := Ascending(groups.Keys), InOrder(groups);
    forall c | c in candidates ensures c.identity in groups && c == groups[c.identity] {
      var i :| 0 <= i < |candidates| && candidates[i] == c;
      assert candidates[i] == groups[keys[i]];
    }
    forall id | id in groups ensures groups[id] in candidates {
      assert id in keys;
      var i :| 0 <= i < |keys| && keys[i] == id;
      assert candidates[i] == groups[id];
    }
  }

  /* An accepted request has one candidate for each identity offered, none of them in the anchor's tier. */
  lemma {:induction false} RequestPlaces(scope: nat, anchor: Option<Offer>, offers: seq<Offer>)
    requires TryNew(scope, anchor, offers).Ok?
    ensures var candidates := TryNew(scope, anchor, offers).value.candidates;
      && DistinctIdentities(candidates)
      && (set c | c in candidates :: c.identity) == Identities(offers)
      && forall c :: c in candidates ==> c.tier != ANCHOR
  {
    hide GroupAll, MergeAll, WithIdentity, Groupable, InOrder;
    var taken := AnchorIdentity(anchor);
    GroupsExactly(taken, offers);
    var groups := GroupAll(taken, offers).value;
    forall id | id in groups ensures groups[id].identity == id && groups[id].tier != ANCHOR {
      GroupPlaced(WithIdentity(offers, id), id);
    }
    InOrderHolds(groups);
  }

  /* A request whose groups are decided compiles alike in every order of its offers. */
  lemma {:induction false} CompileIgnoresOrder(scope: nat, anchor: Option<Offer>, p: seq<Offer>, q: seq<Offer>, budget: nat)
    requires multiset(p) == multiset(q) && AllDecided(p)
    ensures Compile(scope, anchor, p, budget) == Compile(scope, anchor, q, budget)
  {
    hide TryNew, Allocate;
    RequestIgnoresOrder(scope, anchor, p, q);
  }

  // The report of omissions.

  datatype Omission = Omission(tier: Tier, count: nat)

  /* Tiers below `n` that omitted something, with how many. */
  function Report(omitted: seq<Candidate>, n: nat): (r: seq<Omission>)
    requires n <= TIERS
  {
    if n == 0 then []
    else
      var count := |OfTier(omitted, n - 1)|;
      Report(omitted, n - 1) + if count == 0 then [] else [Omission(n - 1, count)]
  }

  lemma ReportStep(omitted: seq<Candidate>, n: nat)
    requires 0 < n <= TIERS
    ensures var count := |OfTier(omitted, n - 1)|;
      Report(omitted, n) == Report(omitted, n - 1) + if count == 0 then [] else [Omission(n - 1, count)]
  {
    hide OfTier;
  }

  lemma {:induction false} ReportHolds(omitted: seq<Candidate>, n: nat)
    requires n <= TIERS
    ensures forall o: Omission :: o in Report(omitted, n) <==> o.tier < n && o.count == |OfTier(omitted, o.tier)| > 0
  {
    hide OfTier;
    if n > 0 {
      hide Report;
      ReportHolds(omitted, n - 1);
      ReportStep(omitted, n);
    }
  }

  ghost predicate Ascends(r: seq<Omission>)
  {
    forall i, j :: 0 <= i < j < |r| ==> r[i].tier < r[j].tier
  }

  lemma AscendsAppend(r: seq<Omission>, o: Omission)
    requires Ascends(r) && forall x :: x in r ==> x.tier < o.tier
    ensures Ascends(r + [o])
  {
  }

  lemma {:induction false} ReportAscends(omitted: seq<Candidate>, n: nat)
    requires n <= TIERS
    ensures Ascends(Report(omitted, n))
  {
    hide OfTier;
    if n > 0 {
      hide Ascends;
      ReportAscends(omitted, n - 1);
      ReportHolds(omitted, n - 1);
      ReportStep(omitted, n);
      var rest, count := Report(omitted, n - 1), |OfTier(omitted, n - 1)|;
      if count > 0 {
        AscendsAppend(rest, Omission(n - 1, count));
      } else {
        assert rest + [] == rest;
      }
    }
  }

  /* The report is in tier order and names exactly the tiers that omitted something. */
  lemma {:induction false} ReportExactly(omitted: seq<Candidate>, n: nat)
    requires n <= TIERS
    ensures forall o: Omission :: o in Report(omitted, n) <==> o.tier < n && o.count == |OfTier(omitted, o.tier)| > 0
    ensures Ascends(Report(omitted, n))
  {
    hide OfTier, Report, Ascends;
    ReportHolds(omitted, n);
    ReportAscends(omitted, n);
  }

  function Total(r: seq<Omission>): nat
  {
    if r == [] then 0 else Total(r[..|r| - 1]) + r[|r| - 1].count
  }

  lemma TotalEmpty()
    ensures Total([]) == 0
  {
  }

  lemma TotalAppend(r: seq<Omission>, o: Omission)
    ensures Total(r + [o]) == Total(r) + o.count
  {
    assert (r + [o])[..|r|] == r;
  }

  function Below(s: seq<Candidate>, n: nat): nat
  {
    if s == [] then 0 else Below(s[..|s| - 1], n) + if s[|s| - 1].tier < n then 1 else 0
  }

  lemma {:induction false} BelowStep(s: seq<Candidate>, n: nat)
    requires 0 < n <= TIERS
    ensures Below(s, n) == Below(s, n - 1) + |OfTier(s, n - 1)|
  {
    if s != [] {
      BelowStep(s[..|s| - 1], n);
    }
  }

  lemma {:induction false} BelowEnds(s: seq<Candidate>)
    ensures Below(s, 0) == 0 && Below(s, TIERS) == |s|
  {
    if s != [] {
      BelowEnds(s[..|s| - 1]);
    }
  }

  lemma {:induction false} ReportTotals(omitted: seq<Candidate>, n: nat)
    requires n <= TIERS
    ensures Total(Report(omitted, n)) == Below(omitted, n)
  {
    hide OfTier, Below, Total;
    if n == 0 {
      assert Total([]) == 0 by { TotalEmpty(); }
      BelowEnds(omitted);
    } else {
      ReportTotals(omitted, n - 1);
      BelowStep(omitted, n);
      var rest, count := Report(omitted, n - 1), |OfTier(omitted, n - 1)|;
      if count > 0 {
        TotalAppend(rest, Omission(n - 1, count));
      } else {
        assert Report(omitted, n) == rest;
      }
    }
  }

  /* The reported counts add up to what was omitted. */
  lemma {:induction false} ReportCountsAll(omitted: seq<Candidate>)
    ensures Total(Report(omitted, TIERS)) == |omitted|
  {
    hide Report, Total, Below;
    ReportTotals(omitted, TIERS);
    BelowEnds(omitted);
  }

  // The source's allocator object.

  /* Only counts of omissions are kept; which candidates they were is the ghost part. */
  class Allocator {
    const budget: nat
    const omissions: array<nat>
    var usedUnits: nat
    var items: seq<Candidate>
    ghost var omitted: seq<Candidate>

    ghost predicate Valid()
      reads this, omissions
    {
      omissions.Length == TIERS && forall t: Tier :: omissions[t] == |OfTier(omitted, t)|
    }

    ghost function State(): Allocation
      reads this
    {
      Allocation(usedUnits, items, omitted)
    }

    constructor (budget: nat)
      ensures Valid() && fresh(omissions) && this.budget == budget && State() == NOTHING
    {
      this.budget := budget;
      usedUnits := 0;
      items := [];
      omitted := [];
      omissions := new nat[TIERS](_ => 0);
    }

    method Omit(c: Candidate) returns (r: Result<(), ContextError>)
      requires Valid()
      modifies this`omitted, omissions
      ensures Valid()
      ensures if |OfTier(old(omitted), c.tier)| + 1 < U64
              then r == Ok(()) && omitted == old(omitted) + [c]
              else r == Err(CountNotRepresentable) && omitted == old(omitted)
    {
      hide OfTier;
      if omissions[c.tier] + 1 >= U64 {
        return Err(CountNotRepresentable);
      }
      forall t: Tier ensures |OfTier(omitted + [c], t)| == |OfTier(omitted, t)| + if t == c.tier then 1 else 0 {
        OfTierAppend(omitted, c, t);
      }
      omissions[c.tier] := omissions[c.tier] + 1;
      omitted := omitted + [c];
      return Ok(());
    }

    method TryAdmit(c: Candidate) returns (r: Result<bool, ContextError>)
      requires Valid()
      modifies this, omissions
      ensures Valid()
      ensures match EvidenceAllocation.TryAdmit(old(State()), c, budget)
        case Took(a) => r == Ok(true) && State() == a
        case Left(a) => r == Ok(false) && State() == a
        case Unrepresentable => r == Err(CountNotRepresentable) && State() == old(State())
    {
      hide OfTier;
      var next := usedUnits + c.units;
      if next >= U64 {
        return Err(CountNotRepresentable);
      }
      if next > budget {
        var omission := Omit(c);
        if omission.Err? {
          return Err(omission.error);
        }
        return Ok(false);
      }
      usedUnits := next;
      items := items + [c];
      return Ok(true);
    }

    /* Lane `k` is popped until something is admitted. */
    method AdmitOne(lanes: array<seq<Candidate>>, k: nat) returns (r: Result<bool, ContextError>)
      requires Valid() && k < lanes.Length
      modifies this, omissions, lanes
      ensures Valid()
      ensures forall i :: 0 <= i < lanes.Length && i != k ==> lanes[i] == old(lanes[i])
      ensures match TakeTurn(old(State()), old(lanes[k]), budget)
        case Admitted(a, rest) => r == Ok(true) && State() == a && lanes[k] == rest
        case Exhausted(a) => r == Ok(false) && State() == a && lanes[k] == []
        case Overflow => r == Err(CountNotRepresentable)
    {
      hide EvidenceAllocation.TryAdmit, OfTier;
      while lanes[k] != []
        invariant Valid()
        invariant TakeTurn(State(), lanes[k], budget) == TakeTurn(old(State()), old(lanes[k]), budget)
        invariant forall i :: 0 <= i < lanes.Length && i != k ==> lanes[i] == old(lanes[i])
        decreases |lanes[k]|
      {
        var candidate := lanes[k][0];
        lanes[k] := lanes[k][1..];
        var taken := TryAdmit(candidate);
        if taken.Err? {
          return Err(taken.error);
        }
        if taken.value {
          return Ok(true);
        }
      }
      return Ok(false);
    }

    method AdmitRound(lanes: array<seq<Candidate>>) returns (r: Result<bool, ContextError>)
      requires Valid() && lanes.Length == LANES
      modifies this, omissions, lanes
      ensures Valid()
      ensures match RoundFrom(old(State()), old(lanes[..]), 0, false, budget)
        case Round(a, after, admitted) => r == Ok(admitted) && State() == a && lanes[..] == after
        case RoundOverflow => r == Err(CountNotRepresentable)
    {
      hide TakeTurn, OfTier, Remaining;
      var admitted := false;
      for k := 0 to LANES
        invariant Valid()
        invariant RoundFrom(State(), lanes[..], k, admitted, budget) == RoundFrom(old(State()), old(lanes[..]), 0, false, budget)
      {
        ghost var before := lanes[..];
        var taken := AdmitOne(lanes, k);
        if taken.Err? {
          return Err(taken.error);
        }
        assert lanes[..] == before[k := lanes[k]];
        admitted := admitted || taken.value;
      }
      return Ok(admitted);
    }

    method Finish() returns (r: seq<Omission>)
      requires Valid()
      ensures r == Report(omitted, TIERS)
    {
      hide OfTier;
      r := [];
      for n := 0 to TIERS
        invariant r == Report(omitted, n)
      {
        if omissions[n] != 0 {
          r := r + [Omission(n, omissions[n])];
        }
      }
    }
  }

  datatype Outcome = Outcome(used: nat, items: seq<Candidate>, omissions: seq<Omission>)

  method FillLanes(candidates: seq<Candidate>) returns (r: Result<array<seq<Candidate>>, ContextError>)
    ensures r.Ok? <==> forall c :: c in candidates ==> c.tier != ANCHOR
    ensures r.Err? ==> r.error == InvalidInput
    ensures r.Ok? ==> fresh(r.value) && r.value[..] == LanesOf(candidates)
  {
    hide OfTier, Sort;
    var lanes := new seq<Candidate>[LANES](_ => []);
    for i := 0 to |candidates|
      invariant forall c :: c in candidates[..i] ==> c.tier != ANCHOR
      invariant forall k :: 0 <= k < LANES ==> lanes[k] == OfTier(candidates[..i], TierOf(k))
    {
      var c := candidates[i];
      if c.tier == ANCHOR {
        return Err(InvalidInput);
      }
      assert candidates[..i + 1] == candidates[..i] + [c];
      forall k | 0 <= k < LANES ensures OfTier(candidates[..i + 1], TierOf(k)) == OfTier(candidates[..i], TierOf(k)) + if c.tier == TierOf(k) then [c] else [] {
        OfTierAppend(candidates[..i], c, TierOf(k));
      }
      lanes[c.tier - 1] := lanes[c.tier - 1] + [c];
    }
    assert candidates[..|candidates|] == candidates;
    for k := 0 to LANES
      invariant forall i :: 0 <= i < LANES ==> lanes[i] == if i < k then LanesOf(candidates)[i] else OfTier(candidates, TierOf(i))
    {
      lanes[k] := Sort(lanes[k], LaneOrder);
    }
    assert lanes[..] == LanesOf(candidates);
    return Ok(lanes);
  }

  method CompileEvidenceContext(anchor: Option<Candidate>, candidates: seq<Candidate>, budget: nat)
    returns (r: Result<Outcome, ContextError>)
    ensures match Allocate(anchor, candidates, budget)
      case Err(e) => r == Err(e)
      case Ok(a) => r == Ok(Outcome(a.used, a.items, Report(a.omitted, TIERS)))
  {
    hide RoundFrom, LanesOf, Report, OfTier, TryAdmit, Remaining;
    var filled := FillLanes(candidates);
    if filled.Err? {
      return Err(filled.error);
    }
    var lanes := filled.value;
    var allocator := new Allocator(budget);
    if anchor.Some? {
      var first := allocator.TryAdmit(anchor.value);
      if first.Err? {
        return Err(first.error);
      }
    }
    var more := true;
    while more
      invariant fresh(lanes) && fresh(allocator) && fresh(allocator.omissions) && lanes.Length == LANES
      invariant allocator.Valid() && allocator.budget == budget
      invariant Allocate(anchor, candidates, budget) ==
        if more then Run(allocator.State(), lanes[..], budget) else Ok(allocator.State())
      decreases more, Remaining(lanes[..])
    {
      var admitted := allocator.AdmitRound(lanes);
      if admitted.Err? {
        return Err(admitted.error);
      }
      more := admitted.value;
    }
    var omissions := allocator.Finish();
    return Ok(Outcome(allocator.usedUnits, allocator.items, omissions));
  }
}
