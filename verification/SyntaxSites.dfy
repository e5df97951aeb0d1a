/**
 Raw syntax sites, their order and the text they own.
 */
module SyntaxSites {
  import opened Bytes
  import opened Sorting

  datatype Kind = Import | Reference | Call | TestMarker

  datatype Site = Site(
    ordinal: nat, kind: Kind, evidence: bool, start: nat, end: nat, targetStart: nat, targetEnd: nat, target: Octets)

  datatype SyntaxError =
    | NodeLimitExceeded
    | DepthLimitExceeded
    | SiteLimitExceeded
    | OwnedTextLimitExceeded
    | TargetLimitExceeded
    | InvalidSourceSpan
    | ExtractionFailed(reason: nat)

  datatype Limits = Limits(
    valid: bool, maxSource: nat, maxNodes: nat, maxDepth: nat, maxSites: nat, maxTarget: nat, maxText: nat)

  function KindIndex(k: Kind): nat
  {
    match k
    case Import => 0
    case Reference => 1
    case Call => 2
    case TestMarker => 3
  }

  /* The compared fields, in order. */
  function SiteKey(s: Site): seq<int>
  {
    [s.start, s.end, s.targetStart, s.targetEnd, KindIndex(s.kind), if s.evidence then 1 else 0]
  }

  lemma LexHead(a: seq<int>, b: seq<int>, x: int, y: int)
    ensures LexLess([x] + a, [y] + b) <==> x < y || (x == y && LexLess(a, b))
  {
    assert ([x] + a)[1..] == a && ([y] + b)[1..] == b;
  }

  function KindKey(s: Site): seq<int>
  {
    [KindIndex(s.kind), if s.evidence then 1 else 0]
  }

  /* Sites are compared by occurrence start and end, target start and end, kind, and then evidence. */
  lemma KeyLess(a: Site, b: Site)
    ensures LexLess(SiteKey(a), SiteKey(b)) <==>
      || a.start < b.start
      || (a.start == b.start && a.end < b.end)
      || (a.start == b.start && a.end == b.end && a.targetStart < b.targetStart)
      || (a.start == b.start && a.end == b.end && a.targetStart == b.targetStart && a.targetEnd < b.targetEnd)
      || (a.start == b.start && a.end == b.end && a.targetStart == b.targetStart && a.targetEnd == b.targetEnd && KindLess(a, b))
  {
    var (p4, q4) := (KindKey(a), KindKey(b));
    var (p3, q3) := ([a.targetEnd] + p4, [b.targetEnd] + q4);
    var (p2, q2) := ([a.targetStart] + p3, [b.targetStart] + q3);
    var (p1, q1) := ([a.end] + p2, [b.end] + q2);
    assert SiteKey(a) == [a.start] + p1 && SiteKey(b) == [b.start] + q1;
    hide LexLess, SiteKey, KindKey, KindLess;
    assert LexLess(p4, q4) <==> KindLess(a, b) by { KindKeyLess(a, b); }
    LexHead(p4, q4, a.targetEnd, b.targetEnd);
    LexHead(p3, q3, a.targetStart, b.targetStart);
    LexHead(p2, q2, a.end, b.end);
    LexHead(p1, q1, a.start, b.start);
  }

  /* Imports, references, calls, test markers; within a kind, without evidence first. */
  predicate KindLess(a: Site, b: Site)
  {
    || (a.kind.Import? && !b.kind.Import?)
    || (a.kind.Reference? && (b.kind.Call? || b.kind.TestMarker?))
    || (a.kind.Call? && b.kind.TestMarker?)
    || (a.kind == b.kind && !a.evidence && b.evidence)
  }

  lemma KindKeyLess(a: Site, b: Site)
    ensures LexLess(KindKey(a), KindKey(b)) <==> KindLess(a, b)
  {
    assert KindKey(a) == [KindIndex(a.kind)] + [if a.evidence then 1 else 0];
    assert KindKey(b) == [KindIndex(b.kind)] + [if b.evidence then 1 else 0];
    LexHead([if a.evidence then 1 else 0], [if b.evidence then 1 else 0], KindIndex(a.kind), KindIndex(b.kind));
  }

  predicate SiteOrder(a: Site, b: Site)
  {
    LexLessOrEqual(SiteKey(a), SiteKey(b))
  }

  lemma SiteOrderTotal()
    ensures TotalOrder(SiteOrder)
  {
    hide LexLess, SiteKey;
    forall a: Site, b: Site ensures SiteOrder(a, b) || SiteOrder(b, a) {
      LexTrichotomy(SiteKey(a), SiteKey(b));
    }
    forall a: Site, b: Site, c: Site | SiteOrder(a, b) && SiteOrder(b, c) ensures SiteOrder(a, c) {
      if SiteKey(a) != SiteKey(b) && SiteKey(b) != SiteKey(c) {
        LexTransitive(SiteKey(a), SiteKey(b), SiteKey(c));
      }
    }
  }

  function TextOf(sites: seq<Site>): nat
  {
    if sites == [] then 0 else TextOf(sites[..|sites| - 1]) + |sites[|sites| - 1].target|
  }

  lemma TextAppend(sites: seq<Site>, s: Site)
    ensures TextOf(sites + [s]) == TextOf(sites) + |s.target|
  {
    assert (sites + [s])[..|sites|] == sites;
  }

  lemma {:induction false} TextConcat(a: seq<Site>, b: seq<Site>)
    ensures TextOf(a + b) == TextOf(a) + TextOf(b)
  {
    if b == [] {
      assert a + b == a;
    } else {
      var n := |b| - 1;
      assert (a + b)[..|a| + n] == a + b[..n];
      TextConcat(a, b[..n]);
    }
  }

  lemma NoText()
    ensures TextOf([]) == 0
  {
  }

  lemma TextFirst(sites: seq<Site>)
    requires sites != []
    ensures TextOf(sites) == |sites[0].target| + TextOf(sites[1..])
  {
    TextConcat([sites[0]], sites[1..]);
    assert [sites[0]] + sites[1..] == sites;
    TextAppend([], sites[0]);
    assert [] + [sites[0]] == [sites[0]];
  }
}
