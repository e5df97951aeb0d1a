/**
 Evidence-balanced allocation: whole items are admitted under a budget, the anchor first, then in
 rounds that give each of seven sorted lanes at most one admission.
 */
module EvidenceAllocation {
  import opened Results
  import opened Bytes
  import opened EvidenceGrouping

  const LANES: nat := 7

  /* Order of a lane: provider rank, then cost, then identity. */
  predicate LaneOrder(a: Candidate, b: Candidate)
  {
    || a.rank < b.rank
    || (a.rank == b.rank && (a.units < b.units || (a.units == b.units && a.identity <= b.identity)))
  }

  /* What has been decided so far, in order of decision. */
  datatype Allocation = Allocation(used: nat, items: seq<Candidate>, omitted: seq<Candidate>)

  const NOTHING: Allocation := Allocation(0, [], [])

  function OfTier(s: seq<Candidate>, t: Tier): (r: seq<Candidate>)
    ensures forall c :: c in r <==> c in s && c.tier == t
    ensures |r| <= |s|
  {
    if s == [] then []
    else
      var n := |s| - 1;
      OfTier(s[..n], t) + if s[n].tier == t then [s[n]] else []
  }

  // One candidate, one turn of a lane, one round, the whole run.

  datatype Admission = Took(allocation: Allocation) | Left(allocation: Allocation) | Unrepresentable

  /* Both counters are checked 64-bit additions. */
  function TryAdmit(a: Allocation, c: Candidate, budget: nat): Admission
  {
    if a.used + c.units >= U64 then Unrepresentable
    else if a.used + c.units <= budget then Took(Allocation(a.used + c.units, a.items + [c], a.omitted))
    else if |OfTier(a.omitted, c.tier)| + 1 >= U64 then Unrepresentable
    else Left(a.(omitted := a.omitted + [c]))
  }

  datatype Turn = Admitted(allocation: Allocation, rest: seq<Candidate>) | Exhausted(allocation: Allocation) | Overflow

  /* Pops the lane until something is admitted. */
  function TakeTurn(a: Allocation, lane: seq<Candidate>, budget: nat): (t: Turn)
    ensures t.Admitted? ==> |t.rest| < |lane|
    decreases |lane|
  {
    if lane == [] then Exhausted(a)
    else match TryAdmit(a, lane[0], budget)
      case Took(a') => Admitted(a', lane[1..])
      case Left(a') => TakeTurn(a', lane[1..], budget)
      case Unrepresentable => Overflow
  }

  type Lanes = s: seq<seq<Candidate>> | |s| == LANES witness [[], [], [], [], [], [], []]

  /* Allocation, remaining lanes, and whether anything has been admitted in the round. */
  datatype Round = Round(allocation: Allocation, lanes: Lanes, admitted: bool) | RoundOverflow

  function Remaining(lanes: seq<seq<Candidate>>): nat
  {
    if lanes == [] then 0 else |lanes[0]| + Remaining(lanes[1..])
  }

  lemma {:induction false} RemainingUpdate(lanes: seq<seq<Candidate>>, k: nat, lane: seq<Candidate>)
    requires k < |lanes|
    ensures Remaining(lanes[k := lane]) == Remaining(lanes) - |lanes[k]| + |lane|
  {
    var updated := lanes[k := lane];
    if k == 0 {
      assert updated[1..] == lanes[1..];
    } else {
      assert updated[1..] == lanes[1..][k - 1 := lane];
      RemainingUpdate(lanes[1..], k - 1, lane);
    }
  }

  /* The lanes from `k` on take their turns. */
  function RoundFrom(a: Allocation, lanes: Lanes, k: nat, admitted: bool, budget: nat): (r: Round)
    requires k <= LANES
    ensures r.Round? && r.admitted && !admitted ==> Remaining(r.lanes) < Remaining(lanes)
    ensures r.Round? ==> Remaining(r.lanes) <= Remaining(lanes)
    decreases LANES - k
  {
    if k == LANES then Round(a, lanes, admitted)
    else match TakeTurn(a, lanes[k], budget)
      case Overflow => RoundOverflow
      case Exhausted(a') =>
        RemainingUpdate(lanes, k, []);
        RoundFrom(a', lanes[k := []], k + 1, admitted, budget)
      case Admitted(a', rest) =>
        RemainingUpdate(lanes, k, rest);
        RoundFrom(a', lanes[k := rest], k + 1, true, budget)
  }

  /* As long as a round admits something there is another; each takes an item out of the lanes. */
  function Run(a: Allocation, lanes: Lanes, budget: nat): Result<Allocation, ContextError>
    decreases Remaining(lanes)
  {
    match RoundFrom(a, lanes, 0, false, budget)
    case RoundOverflow => Err(CountNotRepresentable)
    case Round(a', lanes', admitted) => if admitted then Run(a', lanes', budget) else Ok(a')
  }

  /* A turn omits a stretch of the lane that does not fit and admits the first item that does. */
  lemma {:induction false} TurnExactly(a: Allocation, lane: seq<Candidate>, budget: nat) returns (j: nat)
    ensures j <= |lane| && forall c :: c in lane[..j] ==> a.used + c.units > budget
    ensures match TakeTurn(a, lane, budget)
      case Admitted(a', rest) =>
        && j < |lane| && rest == lane[j + 1..] && a.used + lane[j].units <= budget
        && a' == Allocation(a.used + lane[j].units, a.items + [lane[j]], a.omitted + lane[..j])
      case Exhausted(a') => j == |lane| && a' == a.(omitted := a.omitted + lane)
      case Overflow => true
    decreases |lane|
  {
    hide OfTier;
    if lane == [] {
      assert a.omitted + lane == a.omitted;
      return 0;
    }
    match TryAdmit(a, lane[0], budget)
    case Took(a') =>
      assert a.omitted + lane[..0] == a.omitted;
      return 0;
    case Unrepresentable => return 0;
    case Left(a') =>
      var i := TurnExactly(a', lane[1..], budget);
      LaneSplits(a.omitted, lane, i);
      return i + 1;
  }

  lemma LaneSplits(omitted: seq<Candidate>, lane: seq<Candidate>, i: nat)
    requires lane != [] && i < |lane|
    ensures lane[..i + 1] == [lane[0]] + lane[1..][..i] && lane == [lane[0]] + lane[1..]
    ensures omitted + [lane[0]] + lane[1..][..i] == omitted + lane[..i + 1]
    ensures omitted + [lane[0]] + lane[1..] == omitted + lane
    ensures lane[1..][..i] + lane[1..][i..] == lane[1..]
    ensures i + 1 < |lane| ==> lane[1..][i + 1..] == lane[i + 2..]
  {
  }

  // Conservation and maximality.

  function Cost(items: seq<Candidate>): nat
  {
    if items == [] then 0 else Cost(items[..|items| - 1]) + items[|items| - 1].units
  }

  lemma CostAppend(items: seq<Candidate>, c: Candidate)
    ensures Cost(items + [c]) == Cost(items) + c.units
  {
    assert (items + [c])[..|items|] == items;
  }

  function Contents(lanes: seq<seq<Candidate>>): multiset<Candidate>
  {
    if lanes == [] then multiset{} else multiset(lanes[0]) + Contents(lanes[1..])
  }

  lemma {:induction false} ContentsUpdate(lanes: seq<seq<Candidate>>, k: nat, lane: seq<Candidate>)
    requires k < |lanes|
    ensures Contents(lanes[k := lane]) + multiset(lanes[k]) == Contents(lanes) + multiset(lane)
  {
    var updated := lanes[k := lane];
    if k == 0 {
      assert updated[1..] == lanes[1..];
    } else {
      assert updated[1..] == lanes[1..][k - 1 := lane];
      ContentsUpdate(lanes[1..], k - 1, lane);
      AddBoth(multiset(lanes[0]), Contents(updated[1..]), multiset(lanes[k]), Contents(lanes[1..]), multiset(lane));
    }
  }

  lemma AddBoth<T>(x: multiset<T>, a: multiset<T>, b: multiset<T>, c: multiset<T>, d: multiset<T>)
    requires a + b == c + d
    ensures (x + a) + b == (x + c) + d
  {
    assert (x + a) + b == x + (a + b);
    assert (x + c) + d == x + (c + d);
  }

  /* The cost is exact and within budget, and nothing omitted would fit any more. */
  ghost predicate Sound(a: Allocation, budget: nat)
  {
    && a.used == Cost(a.items) <= budget
    && forall c :: c in a.omitted ==> a.used + c.units > budget
  }

  ghost function Settled(a: Allocation): multiset<Candidate>
  {
    multiset(a.items) + multiset(a.omitted)
  }

  lemma {:induction false} TurnSound(a: Allocation, lane: seq<Candidate>, budget: nat)
    requires Sound(a, budget)
    ensures var t := TakeTurn(a, lane, budget); !t.Overflow? ==> Sound(t.allocation, budget)
  {
    hide TakeTurn;
    var j := TurnExactly(a, lane, budget);
    if TakeTurn(a, lane, budget).Admitted? {
      CostAppend(a.items, lane[j]);
    }
  }

  lemma Regroup(lane: seq<Candidate>, j: nat, items: seq<Candidate>, omitted: seq<Candidate>)
    requires j < |lane|
    ensures (multiset(items + [lane[j]]) + multiset(omitted + lane[..j])) + multiset(lane[j + 1..])
         == (multiset(items) + multiset(omitted)) + multiset(lane)
  {
    assert lane == lane[..j] + [lane[j]] + lane[j + 1..];
  }

  lemma {:induction false} TurnConserves(a: Allocation, lane: seq<Candidate>, budget: nat)
    ensures match TakeTurn(a, lane, budget)
      case Admitted(a', rest) => Settled(a') + multiset(rest) == Settled(a) + multiset(lane)
      case Exhausted(a') => Settled(a') + multiset([]) == Settled(a) + multiset(lane)
      case Overflow => true
  {
    hide TakeTurn;
    var j := TurnExactly(a, lane, budget);
    match TakeTurn(a, lane, budget)
    case Admitted(a', rest) => Regroup(lane, j, a.items, a.omitted);
    case Exhausted(a') =>
    case Overflow =>
  }

  /* A lane's multiset moved from the lanes to the decided items. */
  lemma Moved<T>(d: multiset<T>, d': multiset<T>, lane: multiset<T>, rest: multiset<T>, c: multiset<T>, c': multiset<T>)
    requires d' + rest == d + lane && c' + lane == c + rest
    ensures d' + c' == d + c
  {
    forall x ensures (d' + c')[x] == (d + c)[x] {
      assert (d' + rest)[x] == (d + lane)[x];
      assert (c' + lane)[x] == (c + rest)[x];
    }
  }

  lemma {:induction false} RoundKeeps(a: Allocation, lanes: Lanes, k: nat, admitted: bool, budget: nat)
    requires k <= LANES && Sound(a, budget)
    ensures match RoundFrom(a, lanes, k, admitted, budget)
      case RoundOverflow => true
      case Round(a', lanes', admitted') =>
        && Sound(a', budget)
        && Settled(a') + Contents(lanes') == Settled(a) + Contents(lanes)
    decreases LANES - k
  {
    hide Sound, Settled, TakeTurn, Contents;
    if k < LANES {
      TurnSound(a, lanes[k], budget);
      TurnConserves(a, lanes[k], budget);
      match TakeTurn(a, lanes[k], budget)
      case Overflow =>
      case Exhausted(a') =>
        ContentsUpdate(lanes, k, []);
        Moved(Settled(a), Settled(a'), multiset(lanes[k]), multiset([]), Contents(lanes), Contents(lanes[k := []]));
        RoundKeeps(a', lanes[k := []], k + 1, admitted, budget);
      case Admitted(a', rest) =>
        ContentsUpdate(lanes, k, rest);
        Moved(Settled(a), Settled(a'), multiset(lanes[k]), multiset(rest), Contents(lanes), Contents(lanes[k := rest]));
        RoundKeeps(a', lanes[k := rest], k + 1, true, budget);
    }
  }

  /* A round that admits nothing has emptied every lane. */
  lemma {:induction false} RoundEmpties(a: Allocation, lanes: Lanes, k: nat, admitted: bool, budget: nat)
    requires k <= LANES && (!admitted ==> forall i :: 0 <= i < k ==> lanes[i] == [])
    ensures var r := RoundFrom(a, lanes, k, admitted, budget);
      r.Round? && !r.admitted ==> forall i :: 0 <= i < LANES ==> r.lanes[i] == []
    decreases LANES - k
  {
    hide TakeTurn;
    if k < LANES {
      match TakeTurn(a, lanes[k], budget)
      case Overflow =>
      case Exhausted(a') => RoundEmpties(a', lanes[k := []], k + 1, admitted, budget);
      case Admitted(a', rest) => RoundEmpties(a', lanes[k := rest], k + 1, true, budget);
    }
  }

  lemma {:induction false} NothingLeft(lanes: seq<seq<Candidate>>)
    requires forall k :: 0 <= k < |lanes| ==> lanes[k] == []
    ensures Contents(lanes) == multiset{}
  {
    if lanes != [] {
      NothingLeft(lanes[1..]);
    }
  }

  /**
   A run that succeeds has admitted or omitted every item exactly once, has used exactly the cost of
   the admitted items, within budget, and has omitted nothing that would still fit.
   */
  lemma {:induction false} RunConserves(a: Allocation, lanes: Lanes, budget: nat)
    requires Sound(a, budget)
    ensures var r := Run(a, lanes, budget);
      r.Ok? ==> Sound(r.value, budget) && Settled(r.value) == Settled(a) + Contents(lanes)
    decreases Remaining(lanes)
  {
    hide Sound, Settled, RoundFrom, Contents, Remaining;
    RoundKeeps(a, lanes, 0, false, budget);
    match RoundFrom(a, lanes, 0, false, budget)
    case RoundOverflow =>
    case Round(a', lanes', admitted) =>
      if admitted {
        RunConserves(a', lanes', budget);
      } else {
        RoundEmpties(a, lanes, 0, false, budget);
        NothingLeft(lanes');
      }
  }
}
