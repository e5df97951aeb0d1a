/**
 Construction of an allocation request: scope and tier checks, then grouping of the offers by
 identity into one candidate each.
 */
module EvidenceInput {
  import opened Results
  import opened Sorting
  import opened EvidenceGrouping
  import opened EvidenceOrder

  const MAX_CANDIDATES: nat := 10_000

  datatype Input = Input(scope: nat, anchor: Option<Offer>, candidates: seq<Candidate>)

  type Groups = map<nat, Candidate>

  // Grouping.

  /* The offers of one identity, in input order. */
  function WithIdentity(offers: seq<Offer>, id: nat): (r: seq<Offer>)
    ensures forall o :: o in r <==> o in offers && o.identity == id
  {
    if offers == [] then []
    else
      var n := |offers| - 1;
      WithIdentity(offers[..n], id) + if offers[n].identity == id then [offers[n]] else []
  }

  /* Adds one offer: the anchor's identity is taken, a known identity merges, a new one starts a group. */
  function AddOffer(anchor: Option<nat>, groups: Groups, o: Offer): Result<Groups, ContextError>
    requires forall id :: id in groups ==> groups[id].attributions != []
  {
    if anchor == Some(o.identity) then Err(InvalidCandidate)
    else if o.identity !in groups then Ok(groups[o.identity := FromOffer(o)])
    else match Merge(groups[o.identity], o)
      case Err(e) => Err(e)
      case Ok(c) => Ok(groups[o.identity := c])
  }

  function GroupAll(anchor: Option<nat>, offers: seq<Offer>): (r: Result<Groups, ContextError>)
    ensures r.Ok? ==> forall id :: id in r.value ==> r.value[id].attributions != []
  {
    if offers == [] then Ok(map[])
    else
      var n := |offers| - 1;
      match GroupAll(anchor, offers[..n])
      case Err(e) => Err(e)
      case Ok(groups) => AddOffer(anchor, groups, offers[n])
  }

  /* What grouping is for: no offer repeats the anchor, and the offers of each identity can be merged. */
  ghost predicate Groupable(anchor: Option<nat>, offers: seq<Offer>)
  {
    forall o :: o in offers ==> anchor != Some(o.identity) && Compatible(WithIdentity(offers, o.identity))
  }

  function Identities(offers: seq<Offer>): set<nat>
  {
    set o | o in offers :: o.identity
  }

  /* Each group is the merge of its offers. */
  ghost predicate GroupsOf(groups: Groups, offers: seq<Offer>)
  {
    && groups.Keys == Identities(offers)
    && (forall id :: id in groups ==> WithIdentity(offers, id) != [] && MergeAll(WithIdentity(offers, id)) == Ok(groups[id]))
  }

  lemma {:induction false} WithIdentityAppend(offers: seq<Offer>, o: Offer, id: nat)
    ensures WithIdentity(offers + [o], id) == WithIdentity(offers, id) + if o.identity == id then [o] else []
  {
    assert (offers + [o])[..|offers|] == offers;
  }

  lemma {:induction false} GroupableAppend(anchor: Option<nat>, offers: seq<Offer>, o: Offer)
    ensures Groupable(anchor, offers + [o]) <==>
              Groupable(anchor, offers) && anchor != Some(o.identity) && Compatible(WithIdentity(offers, o.identity) + [o])
  {
    hide Compatible, WithIdentity;
    var all := offers + [o];
    assert forall x :: x in all <==> x in offers || x == o;
    forall id ensures WithIdentity(all, id) == WithIdentity(offers, id) + if o.identity == id then [o] else [] {
      WithIdentityAppend(offers, o, id);
    }
    WithIdentityAppend(offers, o, o.identity);
    if Groupable(anchor, all) {
      forall x | x in offers ensures anchor != Some(x.identity) && Compatible(WithIdentity(offers, x.identity)) {
        if x.identity == o.identity {
          CompatiblePrefix(WithIdentity(offers, x.identity), o);
        } else {
          assert WithIdentity(all, x.identity) == WithIdentity(offers, x.identity);
        }
      }
    }
    if Groupable(anchor, offers) && anchor != Some(o.identity) && Compatible(WithIdentity(offers, o.identity) + [o]) {
      forall x | x in all ensures anchor != Some(x.identity) && Compatible(WithIdentity(all, x.identity)) {
        if x.identity != o.identity {
          assert WithIdentity(all, x.identity) == WithIdentity(offers, x.identity);
        }
      }
    }
  }

  lemma CompatiblePrefix(s: seq<Offer>, o: Offer)
    requires Compatible(s + [o])
    ensures Compatible(s)
  {
    if s == [] {
      assert Compatible(s);
    } else {
      CompatibleAppend(s, o);
    }
  }

  /* Grouping succeeds exactly when it can, and gives each identity the merge of its offers. */
  lemma {:induction false} GroupsExactly(anchor: Option<nat>, offers: seq<Offer>)
    ensures GroupAll(anchor, offers).Ok? <==> Groupable(anchor, offers)
    ensures GroupAll(anchor, offers).Ok? ==> GroupsOf(GroupAll(anchor, offers).value, offers)
    ensures GroupAll(anchor, offers).Err? ==> GroupAll(anchor, offers) == Err(InvalidCandidate)
  {
    if offers != [] {
      hide Groupable, GroupsOf, AddOffer;
      var n := |offers| - 1;
      var init, o := offers[..n], offers[n];
      assert offers == init + [o];
      GroupsExactly(anchor, init);
      GroupableAppend(anchor, init, o);
      if Groupable(anchor, init) {
        GroupsStep(anchor, GroupAll(anchor, init).value, init, o);
      }
    }
  }

  lemma {:induction false} GroupsStep(anchor: Option<nat>, groups: Groups, offers: seq<Offer>, o: Offer)
    requires GroupsOf(groups, offers)
    requires forall id :: id in groups ==> groups[id].attributions != []
    ensures var r := AddOffer(anchor, groups, o);
      && (r.Ok? <==> anchor != Some(o.identity) && Compatible(WithIdentity(offers, o.identity) + [o]))
      && (r.Ok? ==> GroupsOf(r.value, offers + [o]))
      && (r.Err? ==> r == Err(InvalidCandidate))
  {
    hide Compatible, MergeAll, Merge, WithIdentity, Identities, GroupsOf;
    AddsToGroup(anchor, groups, offers, o);
    if AddOffer(anchor, groups, o).Ok? {
      GroupsKept(groups, offers, o, AddOffer(anchor, groups, o).value);
    }
  }

  /* The group of the new offer is merged once more; it fails only on an incompatible offer. */
  lemma {:induction false} AddsToGroup(anchor: Option<nat>, groups: Groups, offers: seq<Offer>, o: Offer)
    requires GroupsOf(groups, offers)
    requires forall id :: id in groups ==> groups[id].attributions != []
    ensures var r, same := AddOffer(anchor, groups, o), WithIdentity(offers, o.identity) + [o];
      && (r.Ok? <==> anchor != Some(o.identity) && Compatible(same))
      && (r.Ok? ==> MergeAll(same).Ok? && r.value == groups[o.identity := MergeAll(same).value])
      && (r.Err? ==> r == Err(InvalidCandidate))
  {
    hide Compatible, MergeAll, Merge, WithIdentity, Identities, Describes;
    var same := WithIdentity(offers, o.identity);
    MergesExactly(same + [o]);
    if o.identity in groups {
      MergeLast(same, o);
      MergeFails(groups[o.identity], o);
    } else {
      KnownIdentity(offers, o.identity);
      assert same + [o] == [o];
      MergeAlone(o);
    }
  }

  lemma {:induction false} GroupsKept(groups: Groups, offers: seq<Offer>, o: Offer, r: Groups)
    requires GroupsOf(groups, offers)
    requires var same := WithIdentity(offers, o.identity) + [o]; MergeAll(same).Ok? && r == groups[o.identity := MergeAll(same).value]
    ensures GroupsOf(r, offers + [o])
  {
    hide MergeAll, WithIdentity;
    var all := offers + [o];
    assert forall x :: x in all <==> x in offers || x == o;
    assert Identities(all) == Identities(offers) + {o.identity};
    forall id | id in r ensures WithIdentity(all, id) != [] && MergeAll(WithIdentity(all, id)) == Ok(r[id]) {
      WithIdentityAppend(offers, o, id);
      assert id != o.identity ==> WithIdentity(all, id) == WithIdentity(offers, id);
    }
  }

  lemma MergeFails(c: Candidate, o: Offer)
    requires c.attributions != []
    ensures Merge(c, o).Err? ==> Merge(c, o) == Err(InvalidCandidate)
  {
  }

  lemma MergeAlone(o: Offer)
    ensures MergeAll([o]) == Ok(FromOffer(o))
  {
  }

  lemma KnownIdentity(offers: seq<Offer>, id: nat)
    ensures WithIdentity(offers, id) == [] || id in Identities(offers)
  {
    var r := WithIdentity(offers, id);
    if r != [] {
      assert r[0] in r;
    }
  }

  // Order of the offers.

  lemma {:induction false} IdentityCount(offers: seq<Offer>, id: nat, x: Offer)
    ensures multiset(WithIdentity(offers, id))[x] == if x.identity == id then multiset(offers)[x] else 0
  {
    if offers != [] {
      var n := |offers| - 1;
      IdentityCount(offers[..n], id, x);
      assert offers == offers[..n] + [offers[n]];
    }
  }

  lemma {:induction false} GroupPermutes(p: seq<Offer>, q: seq<Offer>, id: nat)
    requires multiset(p) == multiset(q)
    ensures multiset(WithIdentity(p, id)) == multiset(WithIdentity(q, id))
  {
    hide WithIdentity;
    forall x: Offer ensures multiset(WithIdentity(p, id))[x] == multiset(WithIdentity(q, id))[x] {
      IdentityCount(p, id, x);
      IdentityCount(q, id, x);
    }
  }

  /* Every group of the request is decided, so that its merge has one outcome. */
  ghost predicate AllDecided(offers: seq<Offer>)
  {
    forall o :: o in offers ==> WithIdentity(offers, o.identity) != [] && Decided(WithIdentity(offers, o.identity))
  }

  lemma CompatiblePermuted(s: seq<Offer>, t: seq<Offer>)
    requires multiset(s) == multiset(t) && Compatible(s)
    ensures Compatible(t)
  {
    SameElements(s, t);
  }

  lemma {:induction false} GroupablePermuted(anchor: Option<nat>, p: seq<Offer>, q: seq<Offer>)
    requires multiset(p) == multiset(q) && Groupable(anchor, p)
    ensures Groupable(anchor, q)
  {
    hide Compatible, WithIdentity;
    SameElements(p, q);
    forall o | o in q ensures anchor != Some(o.identity) && Compatible(WithIdentity(q, o.identity)) {
      GroupPermutes(p, q, o.identity);
      CompatiblePermuted(WithIdentity(p, o.identity), WithIdentity(q, o.identity));
    }
  }

  /* Whether grouping succeeds never depends on order; what it gives does not when all groups are decided. */
  lemma {:induction false} GroupingIgnoresOrder(anchor: Option<nat>, p: seq<Offer>, q: seq<Offer>, scope: nat)
    requires multiset(p) == multiset(q) && forall o :: o in p ==> o.scope == scope
    ensures GroupAll(anchor, p).Ok? <==> GroupAll(anchor, q).Ok?
    ensures AllDecided(p) ==> GroupAll(anchor, p) == GroupAll(anchor, q)
  {
    hide Groupable, GroupAll, GroupsOf, AllDecided, WithIdentity;
    GroupsExactly(anchor, p);
    GroupsExactly(anchor, q);
    if Groupable(anchor, p) {
      GroupablePermuted(anchor, p, q);
    }
    if Groupable(anchor, q) {
      GroupablePermuted(anchor, q, p);
    }
    if AllDecided(p) && Groupable(anchor, p) {
      SameGroups(anchor, p, q, GroupAll(anchor, p).value, GroupAll(anchor, q).value, scope);
    }
  }

  lemma {:induction false} SameGroups(anchor: Option<nat>, p: seq<Offer>, q: seq<Offer>, f: Groups, g: Groups, scope: nat)
    requires multiset(p) == multiset(q) && (forall o :: o in p ==> o.scope == scope)
    requires AllDecided(p) && Groupable(anchor, p) && GroupsOf(f, p) && GroupsOf(g, q)
    ensures f == g
  {
    hide WithIdentity, MergeAll, Decided, Compatible;
    SameElements(p, q);
    assert Identities(p) == Identities(q);
    forall id | id in f ensures f[id] == g[id] {
      var o :| o in p && o.identity == id;
      var a, b := WithIdentity(p, id), WithIdentity(q, id);
      GroupPermutes(p, q, id);
      DecidedSuffices(a);
    }
  }

  // The request.

  /* The groups in identity order, as iterating the source's ordered map gives them. */
  function InOrder(groups: Groups): (r: seq<Candidate>)
    ensures |r| == |Ascending(groups.Keys)|
    ensures forall i :: 0 <= i < |r| ==> Ascending(groups.Keys)[i] in groups && r[i] == groups[Ascending(groups.Keys)[i]]
  {
    var keys := Ascending(groups.Keys);
    seq(|keys|, i requires 0 <= i < |keys| => assert keys[i] in keys; groups[keys[i]])
  }

  predicate WellPlaced(scope: nat, anchor: Option<Offer>, offers: seq<Offer>)
  {
    && (anchor.Some? ==> anchor.value.tier == ANCHOR && anchor.value.scope == scope)
    && |offers| <= MAX_CANDIDATES
    && forall o :: o in offers ==> o.tier != ANCHOR && o.scope == scope
  }

  function AnchorIdentity(anchor: Option<Offer>): Option<nat>
  {
    if anchor.Some? then Some(anchor.value.identity) else None
  }

  /* `EvidenceContextInput::try_new`. */
  function TryNew(scope: nat, anchor: Option<Offer>, offers: seq<Offer>): Result<Input, ContextError>
  {
    if !WellPlaced(scope, anchor, offers) then Err(InvalidInput)
    else match GroupAll(AnchorIdentity(anchor), offers)
      case Err(e) => Err(e)
      case Ok(groups) => Ok(Input(scope, anchor, InOrder(groups)))
  }

  /* The identities of candidates in order. */
  function IdentitiesOf(cs: seq<Candidate>): seq<nat>
  {
    seq(|cs|, i requires 0 <= i < |cs| => cs[i].identity)
  }

  /**
   When a request is refused and how, and what an accepted one holds: one candidate for each identity
   offered, in increasing order of identity, merged from the offers of that identity in their order.
   */
  lemma {:induction false} RequestExactly(scope: nat, anchor: Option<Offer>, offers: seq<Offer>)
    ensures TryNew(scope, anchor, offers) == Err(InvalidInput) <==>
      || (anchor.Some? && (anchor.value.tier != 0 || anchor.value.scope != scope))
      || |offers| > 10_000
      || exists o :: o in offers && (o.tier == 0 || o.scope != scope)
    ensures TryNew(scope, anchor, offers) == Err(InvalidCandidate) <==>
      && WellPlaced(scope, anchor, offers)
      && exists o :: o in offers && ((anchor.Some? && o.identity == anchor.value.identity) || !Compatible(WithIdentity(offers, o.identity)))
    ensures TryNew(scope, anchor, offers).Ok? ==>
      var input := TryNew(scope, anchor, offers).value;
      && input.scope == scope && input.anchor == anchor
      && IdentitiesOf(input.candidates) == Ascending(Identities(offers))
      && forall c :: c in input.candidates ==>
           WithIdentity(offers, c.identity) != [] && MergeAll(WithIdentity(offers, c.identity)) == Ok(c)
  {
    hide GroupAll, WithIdentity, MergeAll, Identities, Ascending, Compatible;
    GroupsExactly(AnchorIdentity(anchor), offers);
    if TryNew(scope, anchor, offers).Ok? {
      var groups, keys := GroupAll(AnchorIdentity(anchor), offers).value, Ascending(Identities(offers));
      forall i | 0 <= i < |keys| ensures InOrder(groups)[i].identity == keys[i] {
        assert keys[i] in groups;
        MergedIdentity(offers, keys[i]);
      }
      assert IdentitiesOf(InOrder(groups)) == keys;
    }
  }

  lemma MergedIdentity(offers: seq<Offer>, id: nat)
    requires WithIdentity(offers, id) != [] && MergeAll(WithIdentity(offers, id)).Ok?
    ensures MergeAll(WithIdentity(offers, id)).value.identity == id
  {
    hide MergeAll, WithIdentity;
    var members := WithIdentity(offers, id);
    MergesExactly(members);
    assert members[0] in members;
  }

  /* A request is accepted in every order of its offers or in none, and equal when its groups are decided. */
  lemma {:induction false} RequestIgnoresOrder(scope: nat, anchor: Option<Offer>, p: seq<Offer>, q: seq<Offer>)
    requires multiset(p) == multiset(q)
    ensures TryNew(scope, anchor, p).Ok? <==> TryNew(scope, anchor, q).Ok?
    ensures AllDecided(p) ==> TryNew(scope, anchor, p) == TryNew(scope, anchor, q)
  {
    hide GroupAll, AllDecided, InOrder;
    SameElements(p, q);
    assert |p| == |multiset(p)| == |multiset(q)| == |q|;
    if WellPlaced(scope, anchor, p) {
      GroupingIgnoresOrder(AnchorIdentity(anchor), p, q, scope);
    }
  }

  // When a request is independent of the order of its offers.

  /* The offers of other identities, in input order. */
  function WithoutIdentity(offers: seq<Offer>, id: nat): (r: seq<Offer>)
    ensures forall o :: o in r <==> o in offers && o.identity != id
  {
    if offers == [] then []
    else
      var n := |offers| - 1;
      WithoutIdentity(offers[..n], id) + if offers[n].identity != id then [offers[n]] else []
  }

  lemma {:induction false} IdentityPartition(offers: seq<Offer>, id: nat)
    ensures multiset(WithIdentity(offers, id)) + multiset(WithoutIdentity(offers, id)) == multiset(offers)
  {
    if offers != [] {
      var n := |offers| - 1;
      assert offers == offers[..n] + [offers[n]];
      IdentityPartition(offers[..n], id);
    }
  }

  lemma {:induction false} AllKept(offers: seq<Offer>, id: nat)
    requires forall o :: o in offers ==> o.identity == id
    ensures WithIdentity(offers, id) == offers
  {
    if offers != [] {
      var n := |offers| - 1;
      assert offers[n] in offers && offers == offers[..n] + [offers[n]];
      AllKept(offers[..n], id);
    }
  }

  lemma {:induction false} IdentityKept(offers: seq<Offer>, others: seq<Offer>, id: nat)
    requires (forall o :: o in offers ==> o.identity == id) && (forall o :: o in others ==> o.identity != id)
    ensures WithIdentity(offers + others, id) == offers
  {
    hide WithIdentity;
    if others == [] {
      assert offers + others == offers;
      AllKept(offers, id);
    } else {
      var n := |others| - 1;
      assert others[n] in others;
      assert offers + others == (offers + others[..n]) + [others[n]];
      IdentityKept(offers, others[..n], id);
      WithIdentityAppend(offers + others[..n], others[n], id);
    }
  }

  /* A rearrangement of one group, with the other offers after it. */
  lemma {:induction false} Rearranged(p: seq<Offer>, members: seq<Offer>, id: nat)
    requires multiset(members) == multiset(WithIdentity(p, id))
    ensures var q := members + WithoutIdentity(p, id); multiset(q) == multiset(p) && WithIdentity(q, id) == members
  {
    hide WithIdentity, WithoutIdentity;
    IdentityPartition(p, id);
    SameElements(members, WithIdentity(p, id));
    IdentityKept(members, WithoutIdentity(p, id), id);
  }

  lemma InOrderDetermines(f: Groups, g: Groups, id: nat)
    requires f.Keys == g.Keys && InOrder(f) == InOrder(g) && id in f
    ensures f[id] == g[id]
  {
    hide Ascending;
    var keys := Ascending(f.Keys);
    assert id in keys;
    var i :| 0 <= i < |keys| && keys[i] == id;
    assert InOrder(f)[i] == f[id] && InOrder(g)[i] == g[id];
  }

  lemma AcceptedGroup(scope: nat, anchor: Option<Offer>, p: seq<Offer>, o: Offer)
    requires TryNew(scope, anchor, p).Ok? && o in p
    ensures Group(WithIdentity(p, o.identity))
  {
    hide GroupAll, WithIdentity, Compatible, GroupsOf, InOrder;
    GroupsExactly(AnchorIdentity(anchor), p);
    assert o in WithIdentity(p, o.identity);
  }

  lemma OtherMerge(members: seq<Offer>) returns (other: seq<Offer>)
    requires Group(members) && !Decided(members)
    ensures other != [] && multiset(other) == multiset(members) && MergeAll(other) != MergeAll(members)
  {
    hide Group, MergeAll, Decided;
    assert members != [] by { assert Group(members) ==> members != [] by { GroupNonempty(members); } }
    OrderIndependentExactly(members);
    other :| other != [] && multiset(other) == multiset(members) && MergeAll(other) != MergeAll(members);
  }

  lemma GroupNonempty(members: seq<Offer>)
    ensures Group(members) ==> members != []
  {
  }

  /* Requests with differently merged groups differ. */
  lemma {:induction false} RequestsDiffer(scope: nat, anchor: Option<Offer>, p: seq<Offer>, q: seq<Offer>, id: nat)
    requires TryNew(scope, anchor, p).Ok? && TryNew(scope, anchor, q).Ok? && id in Identities(p) && Identities(p) == Identities(q)
    requires WithIdentity(p, id) != [] && WithIdentity(q, id) != [] && MergeAll(WithIdentity(p, id)) != MergeAll(WithIdentity(q, id))
    ensures TryNew(scope, anchor, p) != TryNew(scope, anchor, q)
  {
    hide GroupAll, WithIdentity, MergeAll, InOrder, Groupable, Identities;
    var taken := AnchorIdentity(anchor);
    GroupsExactly(taken, p);
    GroupsExactly(taken, q);
    var f, g := GroupAll(taken, p).value, GroupAll(taken, q).value;
    if InOrder(f) == InOrder(g) {
      InOrderDetermines(f, g, id);
    }
  }

  /* An undecided group of an accepted request has an order that changes the request. */
  lemma {:induction false} UndecidedDepends(scope: nat, anchor: Option<Offer>, p: seq<Offer>, o: Offer) returns (q: seq<Offer>)
    requires TryNew(scope, anchor, p).Ok? && o in p
    requires WithIdentity(p, o.identity) != [] && !Decided(WithIdentity(p, o.identity))
    ensures multiset(q) == multiset(p) && TryNew(scope, anchor, q) != TryNew(scope, anchor, p)
  {
    hide TryNew, WithIdentity, WithoutIdentity, MergeAll, Decided, Group;
    AcceptedGroup(scope, anchor, p, o);
    var other := OtherMerge(WithIdentity(p, o.identity));
    q := other + WithoutIdentity(p, o.identity);
    Rearranged(p, other, o.identity);
    RequestIgnoresOrder(scope, anchor, p, q);
    SameElements(p, q);
    assert Identities(p) == Identities(q);
    RequestsDiffer(scope, anchor, p, q, o.identity);
  }

  /* An accepted request does not depend on the order of its offers exactly when every group is decided. */
  lemma {:induction false} RequestIndependentExactly(scope: nat, anchor: Option<Offer>, p: seq<Offer>)
    requires TryNew(scope, anchor, p).Ok?
    ensures AllDecided(p) <==> forall q :: multiset(q) == multiset(p) ==> TryNew(scope, anchor, q) == TryNew(scope, anchor, p)
  {
    hide TryNew, Decided;
    if AllDecided(p) {
      forall q | multiset(q) == multiset(p) ensures TryNew(scope, anchor, q) == TryNew(scope, anchor, p) {
        RequestIgnoresOrder(scope, anchor, p, q);
      }
    } else {
      var o :| o in p && !(WithIdentity(p, o.identity) != [] && Decided(WithIdentity(p, o.identity)));
      assert o in WithIdentity(p, o.identity);
      var q := UndecidedDepends(scope, anchor, p, o);
    }
  }

  /* The loop of the source: a set of identities seen and the groups so far. */
  method BuildInput(scope: nat, anchor: Option<Offer>, offers: seq<Offer>) returns (r: Result<Input, ContextError>)
    ensures r == TryNew(scope, anchor, offers)
  {
    hide InOrder, Merge;
    if !WellPlaced(scope, anchor, offers) {
      return Err(InvalidInput);
    }
    var identities: set<nat> := if anchor.Some? then {anchor.value.identity} else {};
    var taken := AnchorIdentity(anchor);
    var grouped: Groups := map[];
    for i := 0 to |offers|
      invariant GroupAll(taken, offers[..i]) == Ok(grouped)
      invariant identities == grouped.Keys + if taken.Some? then {taken.value} else {}
      invariant taken.Some? ==> taken.value !in grouped
    {
      var o := offers[i];
      assert offers[..i + 1][..i] == offers[..i];
      if o.identity in identities && o.identity !in grouped {
        GroupingStops(taken, offers, i);
        return Err(InvalidCandidate);
      }
      identities := identities + {o.identity};
      if o.identity in grouped {
        var merged := Merge(grouped[o.identity], o);
        if merged.Err? {
          GroupingStops(taken, offers, i);
          return Err(merged.error);
        }
        grouped := grouped[o.identity := merged.value];
      } else {
        grouped := grouped[o.identity := FromOffer(o)];
      }
    }
    assert offers[..|offers|] == offers;
    return Ok(Input(scope, anchor, InOrder(grouped)));
  }

  /* The first failure is the result. */
  lemma {:induction false} GroupingStops(anchor: Option<nat>, offers: seq<Offer>, i: nat)
    requires i < |offers| && GroupAll(anchor, offers[..i + 1]).Err?
    ensures GroupAll(anchor, offers) == GroupAll(anchor, offers[..i + 1])
    decreases |offers|
  {
    if i + 1 == |offers| {
      assert offers[..i + 1] == offers;
    } else {
      var n := |offers| - 1;
      assert offers[..n][..i + 1] == offers[..i + 1];
      GroupingStops(anchor, offers[..n], i);
    }
  }
}
