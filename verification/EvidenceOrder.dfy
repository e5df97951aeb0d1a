/**
 When merging a group of duplicates does not depend on the order of its members.

 The tier and the attributions never depend on it. The rank and the payload may: a later member of
 the best tier with a smaller provider overwrites the rank, while one with a larger provider takes
 the minimum, and a member of a worse tier can hide a provider from the comparison.
 */
module EvidenceOrder {
  import opened Results
  import opened Sorting
  import opened EvidenceGrouping

  /* The members of one group: compatible, of one identity and one scope. */
  ghost predicate Group(members: seq<Offer>)
  {
    && members != [] && Compatible(members)
    && forall x, y :: x in members && y in members ==> x.identity == y.identity && x.scope == y.scope
  }

  ghost predicate OrderIndependent(members: seq<Offer>)
    requires members != []
  {
    forall p :: p != [] && multiset(p) == multiset(members) ==> MergeAll(p) == MergeAll(members)
  }

  /**
   The leader has the best rank of its tier; and no worse-tier member has a smaller provider, unless
   all members of the best tier carry the same payload.
   */
  ghost predicate Decided(members: seq<Offer>)
    requires members != []
  {
    var m := members[Leader(members)];
    && (forall t :: t in members && t.tier == m.tier ==> m.rank <= t.rank)
    && ((forall t :: t in members ==> m.provider <= t.provider)
        || (forall t :: t in members && t.tier == m.tier ==> t.payload == m.payload))
  }

  lemma {:induction false} GroupPermuted(members: seq<Offer>, p: seq<Offer>)
    requires Group(members) && multiset(p) == multiset(members)
    ensures Group(p) && |p| == |members|
  {
    SameElements(p, members);
    assert |p| == |multiset(p)| == |multiset(members)| == |members|;
  }

  /* The same member leads every arrangement. */
  lemma {:induction false} SameLeader(members: seq<Offer>, p: seq<Offer>)
    requires Group(members) && Group(p) && multiset(p) == multiset(members)
    ensures p[Leader(p)] == members[Leader(members)]
  {
    SameElements(p, members);
    var m, q := members[Leader(members)], p[Leader(p)];
    assert m in p && q in members;
    assert !Outranks(q, m) && !Outranks(m, q);
  }

  lemma {:induction false} AttributionsConcat(a: seq<Offer>, b: seq<Offer>)
    ensures Attributions(a + b) == Attributions(a) + Attributions(b)
  {
  }

  lemma {:induction false} AttributionsAround(a: seq<Offer>, x: Offer, b: seq<Offer>)
    ensures multiset(Attributions(a + [x] + b)) == multiset(Attributions(a + b)) + multiset{Attributed(x)}
  {
    AttributionsConcat(a + [x], b);
    AttributionsConcat(a, [x]);
    AttributionsConcat(a, b);
    assert Attributions([x]) == [Attributed(x)];
  }

  lemma FirstTakenOut(members: seq<Offer>, p: seq<Offer>) returns (before: seq<Offer>, after: seq<Offer>)
    requires members != [] && multiset(p) == multiset(members)
    ensures p == before + [members[0]] + after && multiset(before + after) == multiset(members[1..])
  {
    assert members[0] in multiset(members);
    before, after := TakeOut(p, members[0]);
    TailMultiset(members);
    var a := multiset(before + after);
    assert a == (a + multiset{members[0]}) - multiset{members[0]};
  }

  lemma AttributionsFirst(members: seq<Offer>)
    requires members != []
    ensures multiset(Attributions(members)) == multiset(Attributions(members[1..])) + multiset{Attributed(members[0])}
  {
    hide Attributions;
    AttributionsAround([], members[0], members[1..]);
    assert members == [] + [members[0]] + members[1..] && [] + members[1..] == members[1..];
  }

  lemma {:induction false} AttributionsPermuted(members: seq<Offer>, p: seq<Offer>)
    requires multiset(p) == multiset(members)
    ensures multiset(Attributions(p)) == multiset(Attributions(members))
    decreases |members|
  {
    hide Attributions;
    SameLength(p, members);
    if members != [] {
      var before, after := FirstTakenOut(members, p);
      AttributionsPermuted(members[1..], before + after);
      AttributionsAround(before, members[0], after);
      AttributionsFirst(members);
    }
  }

  /* Tier, cost, identity and attributions depend on the members only. */
  lemma {:induction false} CommonPart(members: seq<Offer>, p: seq<Offer>)
    requires Group(members) && multiset(p) == multiset(members)
    ensures Group(p) && MergeAll(p).Ok? && MergeAll(members).Ok?
    ensures var r, s := MergeAll(members).value, MergeAll(p).value;
      r.tier == s.tier && r.units == s.units && r.identity == s.identity && r.scope == s.scope && r.attributions == s.attributions
  {
    hide MergeAll, Attributions, Leader, Sorted, Compatible, RankedBy, PaidBy;
    GroupPermuted(members, p);
    MergesExactly(members);
    MergesExactly(p);
    SameLeader(members, p);
    AttributionsPermuted(members, p);
    FirstAlike(members, p);
    TierOfLeader(members);
    TierOfLeader(p);
    AttributionsUnique(MergeAll(members).value.attributions, MergeAll(p).value.attributions);
  }

  lemma {:induction false} TierOfLeader(members: seq<Offer>)
    requires members != [] && MergeAll(members).Ok? && Describes(MergeAll(members).value, members)
    ensures MergeAll(members).value.tier == members[Leader(members)].tier
  {
  }

  lemma {:induction false} FirstAlike(members: seq<Offer>, p: seq<Offer>)
    requires Group(members) && Group(p) && multiset(p) == multiset(members)
    ensures p[0].units == members[0].units && p[0].identity == members[0].identity && p[0].scope == members[0].scope
  {
    SameElements(p, members);
    assert p[0] in members && members[0] in members;
  }

  lemma {:induction false} AttributionsUnique(a: seq<Attribution>, b: seq<Attribution>)
    requires Sorted(a, AttributionOrder) && Sorted(b, AttributionOrder) && multiset(a) == multiset(b)
    ensures a == b
  {
    SortedUnique(a, b, AttributionOrder);
  }

  /* A decided group is merged into its leader's rank and payload, in any order. */
  lemma {:induction false} DecidedValue(members: seq<Offer>, p: seq<Offer>)
    requires Group(members) && Group(p) && multiset(p) == multiset(members) && Decided(members) && MergeAll(p).Ok?
    ensures var m := members[Leader(members)]; MergeAll(p).value.rank == m.rank && MergeAll(p).value.payload == m.payload
  {
    hide MergeAll, Leader, Compatible;
    SameElements(p, members);
    SameLeader(members, p);
    MergesExactly(p);
    var m, r := members[Leader(members)], MergeAll(p).value;
    var j :| 0 <= j < |p| && p[j].tier == m.tier && r.rank == p[j].rank;
    assert p[j] in members;
    var i :| 0 <= i < |p| && p[i].tier == m.tier && r.payload == p[i].payload;
    assert p[i] in members;
    if forall t :: t in members ==> m.provider <= t.provider {
      forall q | q in OfferedBy(p) ensures m.provider <= q {
        var t :| t in p && t.provider == q;
        assert t in members;
      }
    }
  }

  lemma {:induction false} DecidedSuffices(members: seq<Offer>)
    requires Group(members) && Decided(members)
    ensures OrderIndependent(members)
  {
    hide MergeAll, Decided, Group;
    forall p | p != [] && multiset(p) == multiset(members) ensures MergeAll(p) == MergeAll(members) {
      CommonPart(members, p);
      DecidedValue(members, p);
      DecidedValue(members, members);
    }
  }

  // Arrangements that tell the members of an undecided group apart.

  function WithTier(s: seq<Offer>, t: Tier): (r: seq<Offer>)
    ensures forall x :: x in r ==> x in s && x.tier == t
    ensures forall x :: x in s && x.tier == t ==> x in r
  {
    if s == [] then [] else (if s[0].tier == t then [s[0]] else []) + WithTier(s[1..], t)
  }

  function WithoutTier(s: seq<Offer>, t: Tier): (r: seq<Offer>)
    ensures forall x :: x in r ==> x in s && x.tier != t
    ensures forall x :: x in s && x.tier != t ==> x in r
  {
    if s == [] then [] else (if s[0].tier != t then [s[0]] else []) + WithoutTier(s[1..], t)
  }

  lemma {:induction false} TiersPartition(s: seq<Offer>, t: Tier)
    ensures multiset(WithTier(s, t)) + multiset(WithoutTier(s, t)) == multiset(s)
  {
    if s != [] {
      TiersPartition(s[1..], t);
      assert s == [s[0]] + s[1..];
    }
  }

  /* Prefixes of a group can be merged. */
  lemma {:induction false} PrefixMerges(s: seq<Offer>, rest: seq<Offer>)
    requires s != [] && Compatible(s + rest)
    ensures Compatible(s) && MergeAll(s).Ok? && MergeAll(s + rest).Ok?
  {
    hide MergeAll, Describes;
    var all := s + rest;
    assert forall x :: x in s ==> x in all;
    forall x | x in s ensures multiset(s)[x] == 1 {
      assert multiset(all)[x] == 1 && multiset(all) == multiset(s) + multiset(rest);
    }
    MergesExactly(s);
    MergesExactly(all);
  }

  lemma MergeLast(s: seq<Offer>, o: Offer)
    requires s != []
    ensures MergeAll(s + [o]) == match MergeAll(s) case Err(e) => Err(e) case Ok(c) => Merge(c, o)
  {
    assert (s + [o])[..|s|] == s;
  }

  /* Members of worse tiers change neither tier, rank nor payload. */
  lemma {:induction false} WorseTiersChangeNothing(s: seq<Offer>, worse: seq<Offer>)
    requires s != [] && Compatible(s + worse) && MergeAll(s).Ok?
    requires forall x :: x in worse ==> x.tier > MergeAll(s).value.tier
    ensures MergeAll(s + worse).Ok?
    ensures var r, c := MergeAll(s + worse).value, MergeAll(s).value; r.tier == c.tier && r.rank == c.rank && r.payload == c.payload
    decreases |worse|
  {
    hide MergeAll, Compatible, MinProvider, Sort;
    if worse == [] {
      assert s + worse == s;
    } else {
      var n := |worse| - 1;
      var init, o := worse[..n], worse[n];
      assert s + worse == (s + init) + [o];
      PrefixMerges(s + init, [o]);
      WorseTiersChangeNothing(s, init);
      MergeLast(s + init, o);
    }
  }

  /* While a smaller provider has been seen, members of the current tier leave the payload alone. */
  lemma {:induction false} HiddenPayload(s: seq<Offer>, more: seq<Offer>, low: Offer)
    requires low in s && Compatible(s + more) && MergeAll(s).Ok?
    requires forall x :: x in more ==> x.tier == MergeAll(s).value.tier && low.provider < x.provider
    ensures MergeAll(s + more).Ok?
    ensures var r, c := MergeAll(s + more).value, MergeAll(s).value; r.tier == c.tier && r.payload == c.payload
    decreases |more|
  {
    hide MergeAll, Compatible, MinProvider, Sort;
    if more == [] {
      assert s + more == s;
    } else {
      var n := |more| - 1;
      var init, o := more[..n], more[n];
      assert s + more == (s + init) + [o];
      PrefixMerges(s + init, [o]);
      HiddenPayload(s, init, low);
      MergeLast(s + init, o);
      SeenProvider(s + init, low);
    }
  }

  lemma {:induction false} SeenProvider(s: seq<Offer>, low: Offer)
    requires low in s && MergeAll(s).Ok?
    ensures MinProvider(MergeAll(s).value.attributions) <= low.provider
  {
    hide MergeAll, RankedBy, PaidBy, Leader;
    MergesExactly(s);
    MembersProviders(s, MergeAll(s).value.attributions);
    assert low.provider in OfferedBy(s);
  }

  /* In a group a member has one place, so a leader put first is at index zero. */
  lemma {:induction false} LeaderFirst(m: Offer, rest: seq<Offer>)
    requires Compatible([m] + rest) && forall x :: x in [m] + rest ==> !Outranks(x, m)
    ensures Leader([m] + rest) == 0
  {
    var all := [m] + rest;
    var k := Leader(all);
    assert all[0] == m && all[0] in all && all[k] in all;
    assert !Outranks(all[0], all[k]) && !Outranks(all[k], m);
    assert all[k] == m;
    assert multiset(all) == multiset{m} + multiset(rest) && multiset(all)[m] == 1;
    assert m !in multiset(rest);
    assert forall i :: 0 < i < |all| ==> all[i] == rest[i - 1] && all[i] in multiset(rest);
  }

  /* The parts of a group: its leader, the other members of the best tier, and the worse tiers. */
  ghost predicate Parts(members: seq<Offer>, m: Offer, rest: seq<Offer>, worse: seq<Offer>)
  {
    && Group(members) && m == members[Leader(members)]
    && multiset(members) == multiset{m} + multiset(rest) + multiset(worse)
    && (forall x :: x in rest ==> x.tier == m.tier && m.provider < x.provider)
    && (forall x :: x in worse ==> x.tier > m.tier)
  }

  lemma {:induction false} Split(members: seq<Offer>) returns (m: Offer, rest: seq<Offer>, worse: seq<Offer>)
    requires Group(members)
    ensures Parts(members, m, rest, worse)
  {
    m := members[Leader(members)];
    var best := WithTier(members, m.tier);
    worse := WithoutTier(members, m.tier);
    TiersPartition(members, m.tier);
    var before, after := TakeOut(best, m);
    rest := before + after;
    forall x | x in rest ensures x.tier == m.tier && m.provider < x.provider {
      assert x in multiset(rest) && x in multiset(best);
      assert !Outranks(x, m);
      assert multiset(members)[m] == 1;
    }
    forall x | x in worse ensures x.tier > m.tier {
      assert !Outranks(x, m);
    }
  }

  /* The leader after the rest of its tier overwrites the rank ... */
  lemma {:induction false} RankWhenLate(members: seq<Offer>, m: Offer, rest: seq<Offer>, worse: seq<Offer>)
    requires Parts(members, m, rest, worse) && rest != []
    ensures MergeAll(rest + [m] + worse).Ok? && MergeAll(rest + [m] + worse).value.rank == m.rank
  {
    hide MergeAll, Leader, Compatible, Sort, MinProvider;
    var late := rest + [m] + worse;
    assert multiset(late) == multiset(members);
    GroupPermuted(members, late);
    assert late == rest + ([m] + worse);
    PrefixMerges(rest, [m] + worse);
    PrefixMerges(rest + [m], worse);
    var c := MergeAll(rest).value;
    BestTierOf(rest, m);
    MergeLast(rest, m);
    WorseTiersChangeNothing(rest + [m], worse);
  }

  lemma {:induction false} BestTierOf(rest: seq<Offer>, m: Offer)
    requires rest != [] && MergeAll(rest).Ok? && forall x :: x in rest ==> x.tier == m.tier && m.provider < x.provider
    ensures MergeAll(rest).value.tier == m.tier && m.provider < MinProvider(MergeAll(rest).value.attributions)
  {
    hide MergeAll;
    MergesExactly(rest);
    MembersProviders(rest, MergeAll(rest).value.attributions);
    assert rest[Leader(rest)] in rest;
  }

  lemma {:induction false} EarlyGroup(members: seq<Offer>, m: Offer, rest: seq<Offer>, worse: seq<Offer>)
    requires Parts(members, m, rest, worse)
    ensures var early := [m] + rest + worse; multiset(early) == multiset(members) && Group(early) && Leader(early) == 0
  {
    hide Leader, Compatible;
    var early := [m] + rest + worse;
    assert multiset(early) == multiset(members);
    GroupPermuted(members, early);
    assert early == [m] + (rest + worse);
    LeaderFirst(m, rest + worse);
  }

  /* ... and before them it keeps the minimum. */
  lemma {:induction false} RankWhenEarly(members: seq<Offer>, m: Offer, rest: seq<Offer>, worse: seq<Offer>, t: Offer)
    requires Parts(members, m, rest, worse) && t in rest
    ensures MergeAll([m] + rest + worse).Ok? && MergeAll([m] + rest + worse).value.rank <= t.rank
  {
    hide MergeAll, Leader, Compatible;
    var early := [m] + rest + worse;
    EarlyGroup(members, m, rest, worse);
    MergesExactly(early);
    var j :| 0 <= j < |rest| && rest[j] == t;
    assert early[j + 1] == t;
  }

  lemma {:induction false} PayloadWhenEarly(members: seq<Offer>, m: Offer, rest: seq<Offer>, worse: seq<Offer>)
    requires Parts(members, m, rest, worse)
    ensures MergeAll([m] + rest + worse).Ok? && MergeAll([m] + rest + worse).value.payload == m.payload
  {
    hide MergeAll, Leader, Compatible;
    var first := [m] + rest;
    EarlyGroup(members, m, rest, worse);
    PrefixMerges(first, worse);
    LeaderFirst(m, rest);
    MergesExactly(first);
    WorseTiersChangeNothing(first, worse);
  }

  /* After a worse tier with a smaller provider, whichever member comes first keeps its payload. */
  lemma {:induction false} PayloadWhenHidden(members: seq<Offer>, worse: seq<Offer>, t: Offer, others: seq<Offer>, low: Offer)
    requires Group(members) && multiset(members) == multiset(worse) + multiset{t} + multiset(others)
    requires low in worse && (forall x :: x in worse ==> x.tier > t.tier)
    requires forall x :: x in others ==> x.tier == t.tier && low.provider < x.provider
    ensures MergeAll(worse + [t] + others).Ok? && MergeAll(worse + [t] + others).value.payload == t.payload
  {
    hide MergeAll, Leader, Compatible, Sort, MinProvider;
    var all := worse + [t] + others;
    assert multiset(all) == multiset(members);
    GroupPermuted(members, all);
    assert all == worse + ([t] + others);
    PrefixMerges(worse, [t] + others);
    PrefixMerges(worse + [t], others);
    WorseTier(worse, t);
    MergeLast(worse, t);
    HiddenPayload(worse + [t], others, low);
  }

  lemma {:induction false} WorseTier(worse: seq<Offer>, t: Offer)
    requires worse != [] && MergeAll(worse).Ok? && forall x :: x in worse ==> x.tier > t.tier
    ensures MergeAll(worse).value.tier > t.tier
  {
    hide MergeAll;
    MergesExactly(worse);
    assert worse[Leader(worse)] in worse;
  }

  lemma {:induction false} RankDepends(members: seq<Offer>, t: Offer)
    requires Group(members) && t in members
    requires var m := members[Leader(members)]; t.tier == m.tier && t.rank < m.rank
    ensures !OrderIndependent(members)
  {
    hide MergeAll, Leader, Compatible;
    var m, rest, worse := Split(members);
    InRest(members, m, rest, worse, t);
    RankWhenLate(members, m, rest, worse);
    RankWhenEarly(members, m, rest, worse, t);
    assert multiset(rest + [m] + worse) == multiset(members);
    assert multiset([m] + rest + worse) == multiset(members);
  }

  lemma InRest(members: seq<Offer>, m: Offer, rest: seq<Offer>, worse: seq<Offer>, t: Offer)
    requires Parts(members, m, rest, worse) && t in members && t.tier == m.tier && t != m
    ensures t in rest
  {
    assert t in multiset(members);
    assert t in multiset(rest) || t in multiset(worse);
  }

  lemma {:induction false} Others(members: seq<Offer>, m: Offer, rest: seq<Offer>, worse: seq<Offer>, t: Offer, low: Offer)
    returns (others: seq<Offer>)
    requires Parts(members, m, rest, worse) && t in rest && low in members && low.provider < m.provider
    ensures low in worse && multiset(worse) + multiset{t} + multiset(others) == multiset(members)
    ensures forall x :: x in others ==> x.tier == t.tier && low.provider < x.provider
  {
    hide Group, Leader;
    assert low in multiset(members) && low in multiset(worse);
    var before, after := TakeOut(rest, t);
    others := [m] + (before + after);
    forall x | x in others ensures x.tier == t.tier && low.provider < x.provider {
      assert x == m || x in multiset(rest);
    }
  }

  lemma {:induction false} PayloadDepends(members: seq<Offer>, t: Offer, low: Offer)
    requires Group(members) && t in members && low in members
    requires var m := members[Leader(members)]; t.tier == m.tier && t.payload != m.payload && low.provider < m.provider
    ensures !OrderIndependent(members)
  {
    hide MergeAll, Leader, Compatible;
    var m, rest, worse := Split(members);
    InRest(members, m, rest, worse, t);
    var others := Others(members, m, rest, worse, t, low);
    PayloadWhenEarly(members, m, rest, worse);
    PayloadWhenHidden(members, worse, t, others, low);
    assert multiset([m] + rest + worse) == multiset(members);
    assert multiset(worse + [t] + others) == multiset(members);
  }

  /**
   Merging a group is independent of the order of its members exactly when the group is decided: the
   leader has the best rank of its tier, and either no member has a smaller provider than the leader
   or all members of its tier carry one payload. Both can be checked on the input.
   */
  lemma {:induction false} OrderIndependentExactly(members: seq<Offer>)
    requires Group(members)
    ensures OrderIndependent(members) <==> Decided(members)
  {
    hide OrderIndependent, Leader, Compatible;
    if Decided(members) {
      DecidedSuffices(members);
    } else {
      var m := members[Leader(members)];
      if t :| t in members && t.tier == m.tier && t.rank < m.rank {
        RankDepends(members, t);
      } else {
        var low :| low in members && low.provider < m.provider;
        var t :| t in members && t.tier == m.tier && t.payload != m.payload;
        PayloadDepends(members, t, low);
      }
    }
  }

  /* Pairwise distinct tiers decide a group. */
  lemma DistinctTiersDecide(members: seq<Offer>)
    requires Group(members) && forall x, y :: x in members && y in members && x.tier == y.tier ==> x == y
    ensures Decided(members)
  {
  }

  /* Two syntax offers of one item, from providers 2 and 1: the merged rank is 2 or 1 by order. */
  lemma RankCounterexample()
    ensures var a, b := Offer(0, 2, 1, 1, 9, 2, 0), Offer(0, 2, 2, 1, 9, 1, 0);
      MergeAll([a, b]).Ok? && MergeAll([b, a]).Ok? && MergeAll([a, b]).value.rank == 2 && MergeAll([b, a]).value.rank == 1
  {
    var a, b := Offer(0, 2, 1, 1, 9, 2, 0), Offer(0, 2, 2, 1, 9, 1, 0);
    MergeLast([a], b);
    MergeLast([b], a);
    assert [a] + [b] == [a, b] && [b] + [a] == [b, a];
  }

  lemma ThreeOffers(x: Offer, y: Offer, z: Offer)
    ensures MergeAll([x, y, z]) ==
      match Merge(FromOffer(x), y)
      case Err(e) => Err(e)
      case Ok(c) => Merge(c, z)
  {
    hide Merge;
    MergeLast([x], y);
    MergeLast([x, y], z);
    assert [x] + [y] == [x, y] && [x, y] + [z] == [x, y, z];
    assert MergeAll([x]) == Ok(FromOffer(x));
  }

  /* A history offer from provider 1 hides the comparison of two syntax payloads. */
  lemma PayloadCounterexample()
    ensures var low, a, b := Offer(0, 6, 1, 1, 9, 1, 70), Offer(0, 2, 1, 1, 9, 2, 80), Offer(0, 2, 1, 1, 9, 3, 90);
      && MergeAll([low, a, b]).Ok? && MergeAll([low, a, b]).value.payload == 80
      && MergeAll([low, b, a]).Ok? && MergeAll([low, b, a]).value.payload == 90
  {
    hide MergeAll;
    var low, a, b := Offer(0, 6, 1, 1, 9, 1, 70), Offer(0, 2, 1, 1, 9, 2, 80), Offer(0, 2, 1, 1, 9, 3, 90);
    ThreeOffers(low, a, b);
    ThreeOffers(low, b, a);
  }
}
