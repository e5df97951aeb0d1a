/**
 Grouping of exact duplicates before evidence-balanced allocation.

 Offers that share an identity are merged in input order: the merged candidate takes the best tier,
 collects every provider's attribution, and takes its rank and payload by a rule that looks at tiers
 and provider identities. Grouping is meant not to depend on input order; below it is shown exactly
 when that is so.
 */
module EvidenceGrouping {
  import opened Results
  import opened Sorting

  /* Anchor is tier 0; the seven evidence tiers follow in admission order. */
  type Tier = t: int | 0 <= t < 8

  const ANCHOR: Tier := 0

  datatype Attribution = Attribution(provider: nat, tier: Tier, rank: nat)

  /**
   One item as a single provider supplies it. Digests (scope, identity, provider) and payloads are
   numbers here: only their order and equality are ever used.
   */
  datatype Offer = Offer(scope: nat, tier: Tier, rank: nat, units: nat, identity: nat, provider: nat, payload: nat)

  /* An item with every provider that supplied it. */
  datatype Candidate = Candidate(
    scope: nat, tier: Tier, rank: nat, units: nat, identity: nat, attributions: seq<Attribution>, payload: nat)

  datatype ContextError = InvalidInput | InvalidCandidate | CountNotRepresentable

  function Attributed(o: Offer): Attribution
  {
    Attribution(o.provider, o.tier, o.rank)
  }

  function FromOffer(o: Offer): Candidate
  {
    Candidate(o.scope, o.tier, o.rank, o.units, o.identity, [Attributed(o)], o.payload)
  }

  predicate AttributionOrder(a: Attribution, b: Attribution)
  {
    || a.provider < b.provider
    || (a.provider == b.provider && (a.tier < b.tier || (a.tier == b.tier && a.rank <= b.rank)))
  }

  /* `primary_provider`. */
  function MinProvider(attributions: seq<Attribution>): (p: nat)
    requires attributions != []
    ensures exists i :: 0 <= i < |attributions| && attributions[i].provider == p
    ensures forall i :: 0 <= i < |attributions| ==> p <= attributions[i].provider
  {
    if |attributions| == 1 then attributions[0].provider
    else
      var rest := MinProvider(attributions[1..]);
      if attributions[0].provider <= rest then attributions[0].provider else rest
  }

  function Providers(attributions: seq<Attribution>): set<nat>
  {
    set a | a in attributions :: a.provider
  }

  /* `merge_duplicate`. */
  function Merge(c: Candidate, o: Offer): (r: Result<Candidate, ContextError>)
    requires c.attributions != []
    ensures r.Ok? ==> |r.value.attributions| == |c.attributions| + 1
  {
    if c.units != o.units || o.provider in Providers(c.attributions) then Err(InvalidCandidate)
    else
      var attributions := Sort(c.attributions + [Attributed(o)], AttributionOrder);
      if o.tier < c.tier || (o.tier == c.tier && o.provider < MinProvider(c.attributions)) then
        Ok(c.(tier := o.tier, rank := o.rank, payload := o.payload, attributions := attributions))
      else if o.tier == c.tier then
        Ok(c.(rank := if o.rank < c.rank then o.rank else c.rank, attributions := attributions))
      else Ok(c.(attributions := attributions))
  }

  /* The members of one group, merged in order. */
  function MergeAll(members: seq<Offer>): (r: Result<Candidate, ContextError>)
    requires members != []
    ensures r.Ok? ==> |r.value.attributions| == |members|
  {
    var n := |members| - 1;
    if n == 0 then Ok(FromOffer(members[0]))
    else match MergeAll(members[..n])
      case Err(e) => Err(e)
      case Ok(c) => Merge(c, members[n])
  }

  // What a merge keeps.

  /* Members that can be merged: one cost, and no provider twice. */
  ghost predicate Compatible(members: seq<Offer>)
  {
    && (forall x, y :: x in members && y in members ==> x.units == y.units && (x.provider == y.provider ==> x == y))
    && (forall x :: x in members ==> multiset(members)[x] == 1)
  }

  function Attributions(members: seq<Offer>): seq<Attribution>
  {
    seq(|members|, i requires 0 <= i < |members| => Attributed(members[i]))
  }

  predicate Outranks(a: Offer, b: Offer)
  {
    a.tier < b.tier || (a.tier == b.tier && a.provider < b.provider)
  }

  /* Index of the member of the best tier whose provider is smallest. */
  function Leader(members: seq<Offer>): (k: nat)
    requires members != []
    ensures k < |members|
    ensures forall i :: 0 <= i < |members| ==> !Outranks(members[i], members[k])
  {
    var n := |members| - 1;
    if n == 0 then 0
    else
      var k := Leader(members[..n]);
      assert forall i :: 0 <= i < n ==> members[..n][i] == members[i];
      if Outranks(members[n], members[k]) then n else k
  }

  /* Identity and attributions: the merged candidate carries what all members have in common. */
  ghost predicate Carries(r: Candidate, members: seq<Offer>)
    requires members != []
  {
    && r.units == members[0].units && r.identity == members[0].identity && r.scope == members[0].scope
    && multiset(r.attributions) == multiset(Attributions(members))
    && Sorted(r.attributions, AttributionOrder)
  }

  /* Tier and rank; `k` is the leader. */
  ghost predicate RankedBy(r: Candidate, members: seq<Offer>, k: nat)
    requires k < |members|
  {
    var m := members[k];
    && r.tier == m.tier
    && r.rank <= m.rank
    && (forall j :: k <= j < |members| && members[j].tier == m.tier ==> r.rank <= members[j].rank)
    && (exists j :: 0 <= j < |members| && members[j].tier == m.tier && r.rank == members[j].rank)
  }

  ghost predicate PaidBy(r: Candidate, members: seq<Offer>, k: nat)
    requires k < |members|
  {
    var m := members[k];
    && (exists j :: 0 <= j < |members| && members[j].tier == m.tier && r.payload == members[j].payload)
    && ((forall p :: p in OfferedBy(members) ==> m.provider <= p) ==> r.payload == m.payload)
  }

  /* The merged candidate, described by the members of the group and their leader. */
  ghost predicate Describes(r: Candidate, members: seq<Offer>)
    requires members != []
  {
    var k := Leader(members);
    Carries(r, members) && RankedBy(r, members, k) && PaidBy(r, members, k)
  }

  function OfferedBy(members: seq<Offer>): set<nat>
  {
    set o | o in members :: o.provider
  }

  lemma MembersProviders(members: seq<Offer>, attributions: seq<Attribution>)
    requires members != [] && multiset(attributions) == multiset(Attributions(members))
    ensures attributions != [] && Providers(attributions) == OfferedBy(members)
    ensures MinProvider(attributions) in OfferedBy(members)
    ensures forall p :: p in OfferedBy(members) ==> MinProvider(attributions) <= p
  {
    var all := Attributions(members);
    SameElements(attributions, all);
    assert all[0] in attributions;
    forall o | o in members ensures Attributed(o) in attributions {
      var i :| 0 <= i < |members| && members[i] == o;
      assert all[i] in attributions;
    }
    forall a | a in attributions ensures exists o :: o in members && Attributed(o) == a {
      var i :| 0 <= i < |all| && all[i] == a;
      assert members[i] in members;
    }
    assert Providers(attributions) == OfferedBy(members);
  }

  lemma AttributionsAppend(members: seq<Offer>, o: Offer)
    ensures Attributions(members + [o]) == Attributions(members) + [Attributed(o)]
  {
  }

  lemma SortedAttributions(attributions: seq<Attribution>)
    ensures Sorted(Sort(attributions, AttributionOrder), AttributionOrder)
  {
    SortSorted(attributions, AttributionOrder);
  }

  lemma CompatibleAppend(members: seq<Offer>, o: Offer)
    requires members != []
    ensures Compatible(members + [o]) <==> Compatible(members) && members[0].units == o.units && o.provider !in OfferedBy(members)
  {
    var all := members + [o];
    assert forall x :: x in all <==> x in members || x == o;
    assert multiset(all) == multiset(members) + multiset{o};
    assert members[0] in members;
    if Compatible(all) {
      forall x | x in members ensures multiset(members)[x] == 1 && x != o {
        assert multiset(all)[x] == 1;
      }
    }
  }

  lemma MergeAccepts(c: Candidate, members: seq<Offer>, o: Offer)
    requires members != [] && Compatible(members) && c.attributions != [] && c.units == members[0].units
    requires multiset(c.attributions) == multiset(Attributions(members))
    ensures Merge(c, o).Ok? <==> Compatible(members + [o])
  {
    hide Compatible, Sort, OfferedBy, Providers, MinProvider;
    MembersProviders(members, c.attributions);
    CompatibleAppend(members, o);
  }

  lemma {:induction false} MergeCarries(c: Candidate, members: seq<Offer>, o: Offer)
    requires members != [] && c.attributions != [] && Carries(c, members) && Merge(c, o).Ok?
    ensures Carries(Merge(c, o).value, members + [o])
  {
    hide MinProvider, Sort;
    AttributionsAppend(members, o);
    SortedAttributions(c.attributions + [Attributed(o)]);
  }

  lemma {:induction false} LeaderAppend(members: seq<Offer>, o: Offer)
    requires members != []
    ensures Leader(members + [o]) == if Outranks(o, members[Leader(members)]) then |members| else Leader(members)
  {
    assert (members + [o])[..|members|] == members;
  }

  lemma {:induction false} MergeRanks(c: Candidate, members: seq<Offer>, k: nat, o: Offer)
    requires k < |members| && k == Leader(members)
    requires Carries(c, members) && c.attributions != [] && RankedBy(c, members, k) && Merge(c, o).Ok?
    ensures RankedBy(Merge(c, o).value, members + [o], if Outranks(o, members[k]) then |members| else k)
  {
    hide Leader, Sort, MinProvider, Providers, Sorted, Attributions;
    var all, r, m := members + [o], Merge(c, o).value, members[k];
    assert all[|members|] == o && forall i :: 0 <= i < |members| ==> all[i] == members[i];
    MembersProviders(members, c.attributions);
    assert m in members && m.provider in OfferedBy(members);
    var j :| 0 <= j < |members| && members[j].tier == m.tier && c.rank == members[j].rank;
    assert all[j].tier == m.tier && c.rank == all[j].rank;
    assert r.rank == c.rank || r.rank == all[|members|].rank;
  }

  lemma {:induction false} MergePays(c: Candidate, members: seq<Offer>, k: nat, o: Offer)
    requires k < |members| && k == Leader(members)
    requires Carries(c, members) && c.attributions != [] && c.tier == members[k].tier && PaidBy(c, members, k) && Merge(c, o).Ok?
    ensures PaidBy(Merge(c, o).value, members + [o], if Outranks(o, members[k]) then |members| else k)
  {
    hide Leader, Sort, MinProvider, Providers, Sorted, Attributions;
    var all, r, m := members + [o], Merge(c, o).value, members[k];
    assert all[|members|] == o && forall i :: 0 <= i < |members| ==> all[i] == members[i];
    MembersProviders(members, c.attributions);
    assert m in members && m.provider in OfferedBy(members);
    assert OfferedBy(all) == OfferedBy(members) + {o.provider};
    assert o.provider !in OfferedBy(members);
    assert MinProvider(c.attributions) in OfferedBy(all);
    var j :| 0 <= j < |members| && members[j].tier == m.tier && c.payload == members[j].payload;
    assert all[j].tier == m.tier && c.payload == all[j].payload;
  }

  /* Merging succeeds exactly on compatible members, and gives the candidate they describe. */
  lemma {:induction false} MergesExactly(members: seq<Offer>)
    requires members != []
    ensures MergeAll(members).Ok? <==> Compatible(members)
    ensures MergeAll(members).Ok? ==> Describes(MergeAll(members).value, members)
  {
    var n := |members| - 1;
    if n == 0 {
      OneDescribes(members[0]);
      assert members == [members[0]];
    } else {
      hide Merge, Compatible, Leader, Carries, RankedBy, PaidBy;
      var init, o := members[..n], members[n];
      assert members == init + [o];
      MergesExactly(init);
      MergeOne(init, o);
    }
  }

  lemma {:induction false} OneDescribes(o: Offer)
    ensures Describes(FromOffer(o), [o])
  {
    var k := Leader([o]);
    assert k == 0 && [o][k] == o;
    assert Attributions([o]) == [Attributed(o)];
  }

  lemma {:induction false} MergeOne(init: seq<Offer>, o: Offer)
    requires init != []
    requires MergeAll(init).Ok? <==> Compatible(init)
    requires MergeAll(init).Ok? ==> Describes(MergeAll(init).value, init)
    ensures var r := if MergeAll(init).Err? then MergeAll(init) else Merge(MergeAll(init).value, o);
      (r.Ok? <==> Compatible(init + [o])) && (r.Ok? ==> Describes(r.value, init + [o]))
  {
    hide Merge, Compatible, OfferedBy, Leader;
    CompatibleAppend(init, o);
    if MergeAll(init).Ok? {
      var c := MergeAll(init).value;
      MergeAccepts(c, init, o);
      if Merge(c, o).Ok? {
        MergeCarries(c, init, o);
        MergeRanks(c, init, Leader(init), o);
        MergePays(c, init, Leader(init), o);
        LeaderAppend(init, o);
      }
    }
  }

  // Rank and payload, in any order of the members.

  /* Member `i` is better than all before it: by tier, or by provider within the best tier so far. */
  ghost predicate Takes(members: seq<Offer>, i: nat)
    requires i < |members|
  {
    || (forall j :: 0 <= j < i ==> members[i].tier < members[j].tier)
    || (forall j :: 0 <= j < i ==> members[i].tier <= members[j].tier && members[i].provider < members[j].provider)
  }

  /* The last member that takes over. */
  ghost predicate LastToTake(members: seq<Offer>, k: nat)
  {
    k < |members| && Takes(members, k) && forall j :: k < j < |members| ==> !Takes(members, j)
  }

  /* The candidate has the payload of member `k` and the least rank of its tier from there on. */
  ghost predicate TakenFrom(r: Candidate, members: seq<Offer>, k: nat)
    requires k < |members|
  {
    && r.tier == members[k].tier && r.payload == members[k].payload
    && (forall j :: k <= j < |members| && members[j].tier == members[k].tier ==> r.rank <= members[j].rank)
    && (exists j :: k <= j < |members| && members[j].tier == members[k].tier && r.rank == members[j].rank)
  }

  lemma TakesPrefix(members: seq<Offer>, o: Offer, i: nat)
    requires i < |members|
    ensures Takes(members + [o], i) <==> Takes(members, i)
  {
    assert forall j :: 0 <= j <= i ==> (members + [o])[j] == members[j];
  }

  /* A member is taken over exactly when it is better than all before it. */
  lemma {:induction false} MergeTakes(c: Candidate, members: seq<Offer>, o: Offer)
    requires members != [] && c.attributions != [] && Describes(c, members) && Merge(c, o).Ok?
    ensures Takes(members + [o], |members|) <==> o.tier < c.tier || (o.tier == c.tier && o.provider < MinProvider(c.attributions))
  {
    hide Leader, Sort, MinProvider, Merge, Attributions, Sorted;
    var all := members + [o];
    assert all[|members|] == o && forall i :: 0 <= i < |members| ==> all[i] == members[i];
    MembersProviders(members, c.attributions);
    var m := members[Leader(members)];
    assert forall j :: 0 <= j < |members| ==> m.tier <= members[j].tier;
    assert forall j :: 0 <= j < |members| ==> members[j] in members && members[j].provider in OfferedBy(members);
  }

  lemma {:induction false} KeepsTaken(c: Candidate, members: seq<Offer>, k: nat, o: Offer)
    requires k < |members| && c.attributions != [] && TakenFrom(c, members, k) && Merge(c, o).Ok?
    ensures var all := members + [o];
      TakenFrom(Merge(c, o).value, all,
        if o.tier < c.tier || (o.tier == c.tier && o.provider < MinProvider(c.attributions)) then |members| else k)
  {
    hide Sort, MinProvider, Providers;
    var all, r := members + [o], Merge(c, o).value;
    assert all[|members|] == o && forall i :: 0 <= i < |members| ==> all[i] == members[i];
    var j :| k <= j < |members| && members[j].tier == members[k].tier && c.rank == members[j].rank;
    assert all[j].tier == members[k].tier && all[j].rank == c.rank;
  }

  lemma {:induction false} LastAppend(members: seq<Offer>, k: nat, o: Offer)
    requires LastToTake(members, k)
    ensures LastToTake(members + [o], if Takes(members + [o], |members|) then |members| else k)
  {
    hide Takes;
    forall i | 0 <= i < |members| ensures Takes(members + [o], i) <==> Takes(members, i) {
      TakesPrefix(members, o, i);
    }
  }

  lemma MergeAllLast(members: seq<Offer>, o: Offer)
    requires members != [] && MergeAll(members + [o]).Ok?
    ensures MergeAll(members).Ok? && MergeAll(members).value.attributions != []
    ensures Merge(MergeAll(members).value, o) == MergeAll(members + [o])
  {
    assert (members + [o])[..|members|] == members;
  }

  lemma {:induction false} MergedStep(init: seq<Offer>, o: Offer, k: nat)
    requires init != [] && MergeAll(init + [o]).Ok? && MergeAll(init).Ok?
    requires LastToTake(init, k) && TakenFrom(MergeAll(init).value, init, k)
    ensures var next := if Takes(init + [o], |init|) then |init| else k;
      LastToTake(init + [o], next) && TakenFrom(MergeAll(init + [o]).value, init + [o], next)
  {
    hide Merge, MergeAll, MinProvider, Describes, Takes, TakenFrom, Compatible;
    MergeAllLast(init, o);
    MergesExactly(init);
    MergeTakes(MergeAll(init).value, init, o);
    KeepsTaken(MergeAll(init).value, init, k, o);
    LastAppend(init, k, o);
  }

  /**
   The payload and the rank of a merged candidate, for any members in any order: they come from the last
   member that is better than all before it, the rank being the least of its tier from there on.
   */
  lemma {:induction false} MergedExactly(members: seq<Offer>) returns (k: nat)
    requires members != [] && MergeAll(members).Ok?
    ensures LastToTake(members, k) && TakenFrom(MergeAll(members).value, members, k)
  {
    hide Merge, MergeAll, Takes, TakenFrom;
    var n := |members| - 1;
    if n == 0 {
      k := FirstTakes(members);
    } else {
      var init, o := members[..n], members[n];
      assert members == init + [o];
      MergeAllLast(init, o);
      var j := MergedExactly(init);
      MergedStep(init, o, j);
      k := if Takes(members, n) then n else j;
    }
  }

  lemma FirstTakes(members: seq<Offer>) returns (k: nat)
    requires |members| == 1
    ensures LastToTake(members, k) && MergeAll(members).Ok? && TakenFrom(MergeAll(members).value, members, k)
  {
    k := 0;
  }
}
