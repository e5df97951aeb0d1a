/**
 What a run does lane by lane: lanes that still hold items have been admitted from equally often, and
 each tier is admitted in lane order.
 */
module EvidenceFairness {
  import opened Sorting
  import opened EvidenceGrouping
  import opened EvidenceAllocation

  function TierOf(k: nat): Tier
    requires k < LANES
  {
    k + 1
  }

  /* Lane `k` holds only items of its tier. */
  ghost predicate Laned(lanes: Lanes)
  {
    forall k, c :: 0 <= k < LANES && c in lanes[k] ==> c.tier == TierOf(k)
  }

  /* The state after `r` rounds, whether or not the source's loop would have stopped before. */
  function After(a: Allocation, lanes: Lanes, budget: nat, r: nat): Round
  {
    if r == 0 then Round(a, lanes, true)
    else match After(a, lanes, budget, r - 1)
      case RoundOverflow => RoundOverflow
      case Round(a', lanes', _) => RoundFrom(a', lanes', 0, false, budget)
  }

  lemma {:induction false} AfterShift(a: Allocation, lanes: Lanes, budget: nat, r: nat)
    requires RoundFrom(a, lanes, 0, false, budget).Round?
    ensures var first := RoundFrom(a, lanes, 0, false, budget);
      After(a, lanes, budget, r + 1) == if r == 0 then first else After(first.allocation, first.lanes, budget, r)
  {
    hide RoundFrom;
    if r > 0 {
      AfterShift(a, lanes, budget, r - 1);
    }
  }

  /* A successful run is a number of rounds of which only the last admits nothing. */
  lemma {:induction false} RunIsRounds(a: Allocation, lanes: Lanes, budget: nat) returns (r: nat)
    requires Run(a, lanes, budget).Ok?
    ensures r > 0 && After(a, lanes, budget, r).Round?
    ensures After(a, lanes, budget, r).allocation == Run(a, lanes, budget).value
    ensures !After(a, lanes, budget, r).admitted
    ensures forall q :: 0 <= q < r ==> After(a, lanes, budget, q).Round? && After(a, lanes, budget, q).admitted
    decreases Remaining(lanes)
  {
    hide RoundFrom, Remaining;
    var first := RoundFrom(a, lanes, 0, false, budget);
    AfterShift(a, lanes, budget, 0);
    if first.admitted {
      var n := RunIsRounds(first.allocation, first.lanes, budget);
      AfterShift(a, lanes, budget, n);
      forall q | 0 <= q < n + 1 ensures After(a, lanes, budget, q).Round? && After(a, lanes, budget, q).admitted {
        if q > 1 {
          AfterShift(a, lanes, budget, q - 1);
        }
      }
      return n + 1;
    }
    return 1;
  }

  lemma OfTierAppend(s: seq<Candidate>, c: Candidate, t: Tier)
    ensures OfTier(s + [c], t) == OfTier(s, t) + if c.tier == t then [c] else []
  {
    assert (s + [c])[..|s|] == s;
  }

  /* What a turn of lane `k` means for the items of tier `t`. */
  lemma {:induction false} TurnForTier(a: Allocation, lane: seq<Candidate>, budget: nat, t: Tier, own: bool) returns (j: nat)
    requires forall c :: c in lane ==> (c.tier == t <==> own)
    ensures j <= |lane|
    ensures match TakeTurn(a, lane, budget)
      case Admitted(a', rest) =>
        && j < |lane| && rest == lane[j + 1..]
        && OfTier(a'.items, t) == OfTier(a.items, t) + if own then [lane[j]] else []
      case Exhausted(a') => j == |lane| && a'.items == a.items
      case Overflow => true
  {
    hide TakeTurn, OfTier;
    j := TurnExactly(a, lane, budget);
    match TakeTurn(a, lane, budget)
    case Admitted(a', rest) => OfTierAppend(a.items, lane[j], t);
    case Exhausted(a') =>
    case Overflow =>
  }

  /* A round leaves the lanes before `k` and their tiers alone. */
  lemma {:induction false} RoundSpares(a: Allocation, lanes: Lanes, k: nat, admitted: bool, budget: nat, i: nat)
    requires k <= LANES && i < k && Laned(lanes)
    ensures match RoundFrom(a, lanes, k, admitted, budget)
      case RoundOverflow => true
      case Round(a', lanes', _) => lanes'[i] == lanes[i] && OfTier(a'.items, TierOf(i)) == OfTier(a.items, TierOf(i))
    decreases LANES - k
  {
    hide TakeTurn, OfTier;
    if k < LANES {
      var j := TurnForTier(a, lanes[k], budget, TierOf(i), false);
      match TakeTurn(a, lanes[k], budget)
      case Overflow =>
      case Exhausted(a') =>
        RoundSpares(a', lanes[k := []], k + 1, admitted, budget, i);
      case Admitted(a', rest) =>
        RoundSpares(a', lanes[k := rest], k + 1, true, budget, i);
    }
  }

  /* In a round each lane is popped up to and including its first fitting item, or emptied. */
  ghost predicate Served(before: Allocation, lane: seq<Candidate>, after: Allocation, rest: seq<Candidate>, t: Tier, j: nat)
  {
    && j <= |lane|
    && if j < |lane|
       then rest == lane[j + 1..] && OfTier(after.items, t) == OfTier(before.items, t) + [lane[j]]
       else rest == [] && OfTier(after.items, t) == OfTier(before.items, t)
  }

  lemma {:induction false} RoundServes(a: Allocation, lanes: Lanes, k: nat, admitted: bool, budget: nat, i: nat) returns (j: nat)
    requires k <= i < LANES && Laned(lanes)
    ensures match RoundFrom(a, lanes, k, admitted, budget)
      case RoundOverflow => true
      case Round(a', lanes', _) => Served(a, lanes[i], a', lanes'[i], TierOf(i), j)
    decreases LANES - k
  {
    hide TakeTurn, OfTier;
    j := TurnForTier(a, lanes[k], budget, TierOf(i), k == i);
    match TakeTurn(a, lanes[k], budget)
    case Overflow =>
    case Exhausted(a') =>
      if k == i {
        RoundSpares(a', lanes[k := []], k + 1, admitted, budget, i);
      } else {
        j := RoundServes(a', lanes[k := []], k + 1, admitted, budget, i);
      }
    case Admitted(a', rest) =>
      if k == i {
        RoundSpares(a', lanes[k := rest], k + 1, true, budget, i);
      } else {
        j := RoundServes(a', lanes[k := rest], k + 1, true, budget, i);
      }
  }

  lemma {:induction false} AfterLaned(a: Allocation, lanes: Lanes, budget: nat, r: nat)
    requires Laned(lanes)
    ensures var s := After(a, lanes, budget, r); s.Round? ==> Laned(s.lanes)
  {
    hide RoundFrom, OfTier;
    if r > 0 {
      AfterLaned(a, lanes, budget, r - 1);
      match After(a, lanes, budget, r - 1)
      case RoundOverflow =>
      case Round(a', lanes', _) =>
        if RoundFrom(a', lanes', 0, false, budget).Round? {
          forall k, c | 0 <= k < LANES && c in RoundFrom(a', lanes', 0, false, budget).lanes[k]
            ensures c.tier == TierOf(k)
          {
            var j := RoundServes(a', lanes', 0, false, budget, k);
            assert c in lanes'[k];
          }
        }
    }
  }

  /* Items of lane `k` admitted by the end of round `r`. */
  function AdmittedFrom(a: Allocation, k: nat): nat
    requires k < LANES
  {
    |OfTier(a.items, TierOf(k))|
  }

  /**
   Fairness over a whole run: a lane that still holds items after `r` rounds was admitted from exactly
   once in each of them, so all such lanes have equal counts, and no lane has more.
   */
  lemma {:induction false} LanesShareRounds(a: Allocation, lanes: Lanes, budget: nat, r: nat, k: nat)
    requires Laned(lanes) && k < LANES && After(a, lanes, budget, r).Round?
    ensures var s := After(a, lanes, budget, r);
      && AdmittedFrom(s.allocation, k) <= AdmittedFrom(a, k) + r
      && (s.lanes[k] != [] ==>
            forall q :: 0 <= q <= r ==>
              && After(a, lanes, budget, q).Round?
              && AdmittedFrom(After(a, lanes, budget, q).allocation, k) == AdmittedFrom(a, k) + q)
  {
    hide RoundFrom, OfTier;
    if r > 0 {
      LanesShareRounds(a, lanes, budget, r - 1, k);
      AfterLaned(a, lanes, budget, r - 1);
      var s := After(a, lanes, budget, r - 1);
      var j := RoundServes(s.allocation, s.lanes, 0, false, budget, k);
    }
  }

  /* Each tier's admitted items, followed by what is left in its lane, stay in lane order. */
  lemma {:induction false} LanesStayOrdered(a: Allocation, lanes: Lanes, budget: nat, r: nat, k: nat)
    requires Laned(lanes) && k < LANES
    requires Sorted(OfTier(a.items, TierOf(k)) + lanes[k], LaneOrder)
    ensures var s := After(a, lanes, budget, r);
      s.Round? ==> Sorted(OfTier(s.allocation.items, TierOf(k)) + s.lanes[k], LaneOrder)
  {
    hide RoundFrom, OfTier, LaneOrder, Sorted;
    if r > 0 && After(a, lanes, budget, r).Round? {
      LanesStayOrdered(a, lanes, budget, r - 1, k);
      AfterLaned(a, lanes, budget, r - 1);
      var s := After(a, lanes, budget, r - 1);
      var j := RoundServes(s.allocation, s.lanes, 0, false, budget, k);
      StillSorted(OfTier(s.allocation.items, TierOf(k)), s.lanes[k], j);
    }
  }

  lemma StillSorted(done: seq<Candidate>, lane: seq<Candidate>, j: nat)
    requires Sorted(done + lane, LaneOrder) && j <= |lane|
    ensures if j < |lane| then Sorted(done + [lane[j]] + lane[j + 1..], LaneOrder) else Sorted(done + [], LaneOrder)
  {
    hide LaneOrder;
    var whole := done + lane;
    assert forall i :: 0 <= i < |done| ==> whole[i] == done[i];
    assert forall i :: 0 <= i < |lane| ==> whole[|done| + i] == lane[i];
    if j < |lane| {
      var kept := done + [lane[j]] + lane[j + 1..];
      forall p, q | 0 <= p < q < |kept| ensures LaneOrder(kept[p], kept[q]) {
        var p', q' := if p < |done| then p else p + j, if q < |done| then q else q + j;
        assert kept[p] == whole[p'] && kept[q] == whole[q'];
      }
    } else {
      assert done + [] == done;
    }
  }

  // The order of the items.

  ghost predicate TiersIncrease(items: seq<Candidate>, least: int)
  {
    && (forall i :: 0 <= i < |items| ==> items[i].tier >= least)
    && (forall i, j :: 0 <= i < j < |items| ==> items[i].tier < items[j].tier)
  }

  /* One round adds items of increasing tiers and keeps what was decided before. */
  lemma {:induction false} RoundInOrder(a: Allocation, lanes: Lanes, k: nat, admitted: bool, budget: nat) returns (more: seq<Candidate>)
    requires k <= LANES && Laned(lanes)
    ensures var r := RoundFrom(a, lanes, k, admitted, budget);
      r.Round? ==> r.allocation.items == a.items + more && a.omitted <= r.allocation.omitted
    ensures TiersIncrease(more, k + 1)
    decreases LANES - k
  {
    hide TakeTurn, Remaining, TiersIncrease, Laned;
    more := [];
    assert TiersIncrease([], k + 1) by { NoTiers(k + 1); }
    if k == LANES {
      assert a.items + [] == a.items;
    } else {
      var j := TurnExactly(a, lanes[k], budget);
      match TakeTurn(a, lanes[k], budget)
      case Overflow =>
      case Exhausted(a') =>
        LaneShorter(lanes, k, [], |lanes[k]|);
        more := RoundInOrder(a', lanes[k := []], k + 1, admitted, budget);
        LowerBound(more, k + 2);
      case Admitted(a', rest) =>
        LaneShorter(lanes, k, rest, j + 1);
        var later := RoundInOrder(a', lanes[k := rest], k + 1, true, budget);
        var c := lanes[k][j];
        assert c in lanes[k];
        more := [c] + later;
        PrependTier(lanes, k, c, later);
        assert a.items + [c] + later == a.items + more;
    }
  }

  lemma NoTiers(least: int)
    ensures TiersIncrease([], least)
  {
  }

  lemma LowerBound(items: seq<Candidate>, least: int)
    requires TiersIncrease(items, least)
    ensures TiersIncrease(items, least - 1)
  {
  }

  lemma PrependTier(lanes: Lanes, k: nat, c: Candidate, later: seq<Candidate>)
    requires k < LANES && Laned(lanes) && c in lanes[k] && TiersIncrease(later, k + 2)
    ensures TiersIncrease([c] + later, k + 1)
  {
  }

  lemma LaneShorter(lanes: Lanes, k: nat, rest: seq<Candidate>, j: nat)
    requires k < LANES && Laned(lanes) && j <= |lanes[k]| && rest == lanes[k][j..]
    ensures Laned(lanes[k := rest])
  {
    assert forall c :: c in rest ==> c in lanes[k];
  }

  /* What has been decided stays decided. */
  lemma {:induction false} RunGrows(a: Allocation, lanes: Lanes, budget: nat)
    requires Laned(lanes)
    ensures var r := Run(a, lanes, budget); r.Ok? ==> a.items <= r.value.items && a.omitted <= r.value.omitted
    decreases Remaining(lanes)
  {
    hide RoundFrom, Remaining, Laned;
    var more := RoundInOrder(a, lanes, 0, false, budget);
    AfterLaned(a, lanes, budget, 1);
    match RoundFrom(a, lanes, 0, false, budget)
    case RoundOverflow =>
    case Round(a', lanes', admitted) =>
      assert Laned(lanes') by { AfterShift(a, lanes, budget, 0); }
      if admitted {
        RunGrows(a', lanes', budget);
      }
  }
}
