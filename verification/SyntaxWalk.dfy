/**
 The cursor walk over a syntax tree.

 A node carries whether the parser marked it as an error and what the extractor gives for it; the
 extractor itself is arbitrary. The walk moves a cursor and keeps counters; it must visit the nodes in
 preorder and succeed exactly within the limits.
 */
module SyntaxWalk {
  import opened Results
  import opened SyntaxSites

  datatype Tree = Node(broken: bool, extracted: Result<seq<Site>, SyntaxError>, children: seq<Tree>)

  // The tree, read recursively.

  function Preorder(t: Tree): seq<Tree>
  {
    [t] + PreorderAll(t.children)
  }

  function PreorderAll(ts: seq<Tree>): seq<Tree>
  {
    if ts == [] then [] else Preorder(ts[0]) + PreorderAll(ts[1..])
  }

  function Size(t: Tree): nat
  {
    1 + SizeAll(t.children)
  }

  function SizeAll(ts: seq<Tree>): nat
  {
    if ts == [] then 0 else Size(ts[0]) + SizeAll(ts[1..])
  }

  function Max(a: nat, b: nat): nat
  {
    if a < b then b else a
  }

  /* Zero-based depth of the deepest node. */
  function Height(t: Tree): nat
  {
    if t.children == [] then 0 else 1 + HeightAll(t.children)
  }

  function HeightAll(ts: seq<Tree>): nat
  {
    if ts == [] then 0 else Max(Height(ts[0]), HeightAll(ts[1..]))
  }

  lemma {:induction false} PreorderSize(t: Tree)
    ensures |Preorder(t)| == Size(t)
  {
    PreorderAllSize(t.children);
  }

  lemma {:induction false} PreorderAllSize(ts: seq<Tree>)
    ensures |PreorderAll(ts)| == SizeAll(ts)
  {
    if ts != [] {
      PreorderSize(ts[0]);
      PreorderAllSize(ts[1..]);
    }
  }

  // What a walk does, node by node.

  datatype Totals = Totals(sites: seq<Site>, visited: nat, errors: nat, text: nat)

  const NO_TOTALS: Totals := Totals([], 0, 0, 0)

  function AddSite(s: Totals, site: Site, limits: Limits): Result<Totals, SyntaxError>
  {
    if |s.sites| >= limits.maxSites then Err(SiteLimitExceeded)
    else if s.text + |site.target| > limits.maxText then Err(OwnedTextLimitExceeded)
    else Ok(s.(sites := s.sites + [site], text := s.text + |site.target|))
  }

  function AddSites(s: Totals, sites: seq<Site>, limits: Limits): Result<Totals, SyntaxError>
    decreases |sites|
  {
    if sites == [] then Ok(s)
    else match AddSite(s, sites[0], limits)
      case Err(e) => Err(e)
      case Ok(s') => AddSites(s', sites[1..], limits)
  }

  function Visit(s: Totals, t: Tree, limits: Limits): Result<Totals, SyntaxError>
  {
    if s.visited + 1 > limits.maxNodes then Err(NodeLimitExceeded)
    else
      var counted := s.(visited := s.visited + 1);
      if t.broken then Ok(counted.(errors := s.errors + 1))
      else match t.extracted
        case Err(e) => Err(e)
        case Ok(sites) => AddSites(counted, sites, limits)
  }

  function VisitAll(s: Totals, nodes: seq<Tree>, limits: Limits): Result<Totals, SyntaxError>
    decreases |nodes|
  {
    if nodes == [] then Ok(s)
    else match Visit(s, nodes[0], limits)
      case Err(e) => Err(e)
      case Ok(s') => VisitAll(s', nodes[1..], limits)
  }

  /* Totals and the deepest level reached. */
  datatype Walked = Walked(totals: Totals, deepest: nat)

  function WalkTree(w: Walked, t: Tree, depth: nat, limits: Limits): Result<Walked, SyntaxError>
    decreases t, 1
  {
    match Visit(w.totals, t, limits)
    case Err(e) => Err(e)
    case Ok(s) =>
      if t.children == [] then Ok(w.(totals := s))
      else if depth + 1 > limits.maxDepth then Err(DepthLimitExceeded)
      else WalkForest(Walked(s, Max(w.deepest, depth + 1)), t.children, depth + 1, limits)
  }

  function WalkForest(w: Walked, ts: seq<Tree>, depth: nat, limits: Limits): Result<Walked, SyntaxError>
    decreases ts, 0
  {
    if ts == [] then Ok(w)
    else match WalkTree(w, ts[0], depth, limits)
      case Err(e) => Err(e)
      case Ok(w') => WalkForest(w', ts[1..], depth, limits)
  }

  // The walk is a pass over the preorder, within the depth limit.

  lemma {:induction false} VisitConcat(s: Totals, a: seq<Tree>, b: seq<Tree>, limits: Limits)
    ensures VisitAll(s, a + b, limits) ==
      match VisitAll(s, a, limits)
      case Err(e) => Err(e)
      case Ok(s') => VisitAll(s', b, limits)
    decreases |a|
  {
    hide Visit;
    if a == [] {
      assert a + b == b;
    } else {
      assert (a + b)[1..] == a[1..] + b;
      match Visit(s, a[0], limits)
      case Err(_) =>
      case Ok(s') => VisitConcat(s', a[1..], b, limits);
    }
  }

  /* Within the depth limit the outcome is the pass over the preorder; beyond it the walk fails. */
  ghost predicate Passes(r: Result<Walked, SyntaxError>, w: Walked, nodes: seq<Tree>, bottom: nat, limits: Limits)
  {
    var all := VisitAll(w.totals, nodes, limits);
    && (r.Ok? <==> all.Ok? && bottom <= limits.maxDepth)
    && (r.Ok? ==> r.value == Walked(all.value, Max(w.deepest, bottom)))
  }

  lemma {:induction false} TreePasses(w: Walked, t: Tree, depth: nat, limits: Limits)
    requires depth <= w.deepest && depth <= limits.maxDepth
    ensures Passes(WalkTree(w, t, depth, limits), w, Preorder(t), depth + Height(t), limits)
    decreases t, 1
  {
    hide Visit, PreorderAll, HeightAll, WalkForest;
    assert Preorder(t)[1..] == PreorderAll(t.children);
    match Visit(w.totals, t, limits)
    case Err(_) =>
    case Ok(s) =>
      if t.children == [] {
        assert PreorderAll(t.children) == [] by { NoNodes(); }
        NoVisits(s, limits);
      } else if depth + 1 <= limits.maxDepth {
        ForestPasses(Walked(s, Max(w.deepest, depth + 1)), t.children, depth + 1, limits);
      }
  }

  lemma NoNodes()
    ensures PreorderAll([]) == []
  {
  }

  lemma {:induction false} ForestPasses(w: Walked, ts: seq<Tree>, depth: nat, limits: Limits)
    requires depth <= w.deepest && depth <= limits.maxDepth
    ensures Passes(WalkForest(w, ts, depth, limits), w, PreorderAll(ts), depth + HeightAll(ts), limits)
    decreases ts, 0
  {
    hide Visit, WalkTree, Preorder, Height, VisitAll;
    if ts == [] {
      assert VisitAll(w.totals, [], limits) == Ok(w.totals) by { NoVisits(w.totals, limits); }
    } else {
      TreePasses(w, ts[0], depth, limits);
      VisitConcat(w.totals, Preorder(ts[0]), PreorderAll(ts[1..]), limits);
      match WalkTree(w, ts[0], depth, limits)
      case Err(_) =>
      case Ok(w') => ForestPasses(w', ts[1..], depth, limits);
    }
  }

  lemma NoVisits(s: Totals, limits: Limits)
    ensures VisitAll(s, [], limits) == Ok(s)
  {
  }

  // When the pass succeeds.

  /* The sites of the nodes that are not broken, in order. */
  function SitesIn(nodes: seq<Tree>): seq<Site>
  {
    if nodes == [] then []
    else (if nodes[0].broken || nodes[0].extracted.Err? then [] else nodes[0].extracted.value) + SitesIn(nodes[1..])
  }

  function BrokenIn(nodes: seq<Tree>): (n: nat)
    ensures n <= |nodes|
  {
    if nodes == [] then 0 else (if nodes[0].broken then 1 else 0) + BrokenIn(nodes[1..])
  }

  /* No extraction fails. */
  ghost predicate Extracts(nodes: seq<Tree>)
  {
    forall t :: t in nodes ==> t.broken || t.extracted.Ok?
  }

  ghost predicate Within(s: Totals, limits: Limits)
  {
    s.visited <= limits.maxNodes && |s.sites| <= limits.maxSites && s.text <= limits.maxText && s.text == TextOf(s.sites)
  }

  lemma {:induction false} AddExactly(s: Totals, sites: seq<Site>, limits: Limits)
    requires Within(s, limits)
    ensures var r := AddSites(s, sites, limits);
      && (r.Ok? <==> |s.sites| + |sites| <= limits.maxSites && s.text + TextOf(sites) <= limits.maxText)
      && (r.Ok? ==>
            && Within(r.value, limits)
            && r.value == s.(sites := s.sites + sites, text := s.text + TextOf(sites)))
    decreases |sites|
  {
    hide TextOf;
    if sites == [] {
      assert s.sites + sites == s.sites;
      assert TextOf([]) == 0 by { NoText(); }
    } else {
      TextFirst(sites);
      TextAppend(s.sites, sites[0]);
      match AddSite(s, sites[0], limits)
      case Err(_) =>
      case Ok(s') =>
        AddExactly(s', sites[1..], limits);
        assert s.sites + [sites[0]] + sites[1..] == s.sites + sites;
    }
  }

  lemma {:induction false} VisitExactly(s: Totals, nodes: seq<Tree>, limits: Limits)
    requires Within(s, limits)
    ensures var r, sites := VisitAll(s, nodes, limits), SitesIn(nodes);
      && (r.Ok? <==>
            && s.visited + |nodes| <= limits.maxNodes && Extracts(nodes)
            && |s.sites| + |sites| <= limits.maxSites && s.text + TextOf(sites) <= limits.maxText)
      && (r.Ok? ==>
            r.value == Totals(s.sites + sites, s.visited + |nodes|, s.errors + BrokenIn(nodes), s.text + TextOf(sites)))
    decreases |nodes|
  {
    hide TextOf, AddSites;
    if nodes == [] {
      assert s.sites + [] == s.sites;
      assert TextOf([]) == 0 by { NoText(); }
    } else {
      VisitOne(s, nodes, limits);
      match Visit(s, nodes[0], limits)
      case Err(_) =>
      case Ok(s') => VisitExactly(s', nodes[1..], limits);
    }
  }

  /* The first node of a list, and what it leaves for the rest. */
  lemma {:induction false} VisitOne(s: Totals, nodes: seq<Tree>, limits: Limits)
    requires Within(s, limits) && nodes != []
    ensures var t, r := nodes[0], Visit(s, nodes[0], limits);
      var sites := if t.broken || t.extracted.Err? then [] else t.extracted.value;
      && SitesIn(nodes) == sites + SitesIn(nodes[1..])
      && TextOf(SitesIn(nodes)) == TextOf(sites) + TextOf(SitesIn(nodes[1..]))
      && (r.Ok? <==>
            && s.visited + 1 <= limits.maxNodes && (t.broken || t.extracted.Ok?)
            && |s.sites| + |sites| <= limits.maxSites && s.text + TextOf(sites) <= limits.maxText)
      && (r.Ok? ==>
            && Within(r.value, limits) && s.sites + SitesIn(nodes) == r.value.sites + SitesIn(nodes[1..])
            && r.value == Totals(s.sites + sites, s.visited + 1, s.errors + (if t.broken then 1 else 0), s.text + TextOf(sites)))
  {
    hide TextOf, AddSites;
    var t := nodes[0];
    var sites := if t.broken || t.extracted.Err? then [] else t.extracted.value;
    TextConcat(sites, SitesIn(nodes[1..]));
    assert s.sites + [] == s.sites;
    assert TextOf([]) == 0 by { NoText(); }
    if s.visited + 1 <= limits.maxNodes && !t.broken && t.extracted.Ok? {
      AddExactly(s.(visited := s.visited + 1), sites, limits);
    }
    assert s.sites + (sites + SitesIn(nodes[1..])) == (s.sites + sites) + SitesIn(nodes[1..]);
  }

  /**
   The walk of a tree succeeds exactly when its size, its height, its sites and their text are within
   the limits and every extraction succeeds; it then reports exactly these.
   */
  lemma {:induction false} WalkExactly(root: Tree, limits: Limits)
    ensures var r, sites := WalkTree(Walked(NO_TOTALS, 0), root, 0, limits), SitesIn(Preorder(root));
      && (r.Ok? <==>
            && Size(root) <= limits.maxNodes && Height(root) <= limits.maxDepth && Extracts(Preorder(root))
            && |sites| <= limits.maxSites && TextOf(sites) <= limits.maxText)
      && (r.Ok? ==> r.value == Walked(Totals(sites, Size(root), BrokenIn(Preorder(root)), TextOf(sites)), Height(root)))
  {
    hide WalkTree, VisitAll, Preorder, SitesIn, TextOf, Height, Extracts, BrokenIn;
    TreePasses(Walked(NO_TOTALS, 0), root, 0, limits);
    assert TextOf([]) == 0 by { NoText(); }
    VisitExactly(NO_TOTALS, Preorder(root), limits);
    PreorderSize(root);
    assert [] + SitesIn(Preorder(root)) == SitesIn(Preorder(root));
  }

  // Why a walk fails.

  /* The error is that of an extraction, or the limit it names is exceeded by the totals and these nodes. */
  ghost predicate Blames(e: SyntaxError, s: Totals, nodes: seq<Tree>, limits: Limits)
  {
    || (exists t :: t in nodes && !t.broken && t.extracted == Err(e))
    || (e == NodeLimitExceeded && s.visited + |nodes| > limits.maxNodes)
    || (e == SiteLimitExceeded && |s.sites| + |SitesIn(nodes)| > limits.maxSites)
    || (e == OwnedTextLimitExceeded && s.text + TextOf(SitesIn(nodes)) > limits.maxText)
  }

  lemma {:induction false} AddBlames(s: Totals, sites: seq<Site>, limits: Limits)
    ensures match AddSites(s, sites, limits)
      case Ok(_) => true
      case Err(e) =>
        || (e == SiteLimitExceeded && |s.sites| + |sites| > limits.maxSites)
        || (e == OwnedTextLimitExceeded && s.text + TextOf(sites) > limits.maxText)
    decreases |sites|
  {
    hide TextOf;
    if sites != [] {
      TextFirst(sites);
      match AddSite(s, sites[0], limits)
      case Err(_) =>
      case Ok(s') => AddBlames(s', sites[1..], limits);
    }
  }

  lemma {:induction false} VisitBlames(s: Totals, nodes: seq<Tree>, limits: Limits)
    requires Within(s, limits)
    ensures var r := VisitAll(s, nodes, limits); r.Err? ==> Blames(r.error, s, nodes, limits)
    decreases |nodes|
  {
    hide TextOf, AddSites, SitesIn;
    if nodes != [] {
      VisitOne(s, nodes, limits);
      assert forall t :: t in nodes <==> t == nodes[0] || t in nodes[1..];
      match Visit(s, nodes[0], limits)
      case Err(_) =>
        if s.visited + 1 <= limits.maxNodes && !nodes[0].broken && nodes[0].extracted.Ok? {
          AddBlames(s.(visited := s.visited + 1), nodes[0].extracted.value, limits);
        }
      case Ok(s') => VisitBlames(s', nodes[1..], limits);
    }
  }

  /* A failing walk fails as the pass over the preorder does, or for its depth. */
  ghost predicate FailsAs(r: Result<Walked, SyntaxError>, w: Walked, nodes: seq<Tree>, bottom: nat, limits: Limits)
  {
    r.Ok? || VisitAll(w.totals, nodes, limits) == Err(r.error) || (r.error == DepthLimitExceeded && bottom > limits.maxDepth)
  }

  lemma {:induction false} TreeFails(w: Walked, t: Tree, depth: nat, limits: Limits)
    requires depth <= w.deepest && depth <= limits.maxDepth
    ensures FailsAs(WalkTree(w, t, depth, limits), w, Preorder(t), depth + Height(t), limits)
    decreases t, 1
  {
    hide Visit, PreorderAll, HeightAll, WalkForest;
    assert Preorder(t)[1..] == PreorderAll(t.children);
    match Visit(w.totals, t, limits)
    case Err(_) =>
    case Ok(s) =>
      if t.children != [] && depth + 1 <= limits.maxDepth {
        ForestFails(Walked(s, Max(w.deepest, depth + 1)), t.children, depth + 1, limits);
      }
  }

  lemma {:induction false} ForestFails(w: Walked, ts: seq<Tree>, depth: nat, limits: Limits)
    requires depth <= w.deepest && depth <= limits.maxDepth
    ensures FailsAs(WalkForest(w, ts, depth, limits), w, PreorderAll(ts), depth + HeightAll(ts), limits)
    decreases ts, 0
  {
    hide Visit, WalkTree, Preorder, Height, VisitAll;
    if ts != [] {
      TreeFails(w, ts[0], depth, limits);
      TreePasses(w, ts[0], depth, limits);
      VisitConcat(w.totals, Preorder(ts[0]), PreorderAll(ts[1..]), limits);
      match WalkTree(w, ts[0], depth, limits)
      case Err(_) =>
      case Ok(w') => ForestFails(w', ts[1..], depth, limits);
    }
  }

  /* A walk that fails names a limit that the tree exceeds, or the error of one of its extractions. */
  lemma {:induction false} WalkBlames(root: Tree, limits: Limits)
    ensures match WalkTree(Walked(NO_TOTALS, 0), root, 0, limits)
      case Ok(_) => true
      case Err(e) =>
        || (exists t :: t in Preorder(root) && !t.broken && t.extracted == Err(e))
        || (e == NodeLimitExceeded && Size(root) > limits.maxNodes)
        || (e == DepthLimitExceeded && Height(root) > limits.maxDepth)
        || (e == SiteLimitExceeded && |SitesIn(Preorder(root))| > limits.maxSites)
        || (e == OwnedTextLimitExceeded && TextOf(SitesIn(Preorder(root))) > limits.maxText)
  {
    hide WalkTree, VisitAll, Preorder, SitesIn, TextOf, Height;
    TreeFails(Walked(NO_TOTALS, 0), root, 0, limits);
    assert TextOf([]) == 0 by { NoText(); }
    VisitBlames(NO_TOTALS, Preorder(root), limits);
    PreorderSize(root);
  }
}
