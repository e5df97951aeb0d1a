/**
 The traversal as the source runs it: a cursor that moves to first child, next sibling and parent, a
 record of counters, and a loop with no recursion.
 */
module SyntaxTraversal {
  import opened Results
  import opened Bytes
  import opened Sorting
  import opened SyntaxSites
  import opened SyntaxWalk
  import opened SyntaxFinish

  // The cursor.

  /* An ancestor and which of its children the cursor went into. */
  datatype Frame = Frame(parent: Tree, index: nat)

  ghost predicate Chained(root: Tree, frames: seq<Frame>, focus: Tree)
  {
    if frames == [] then focus == root
    else
      var f := frames[|frames| - 1];
      f.index < |f.parent.children| && f.parent.children[f.index] == focus && Chained(root, frames[..|frames| - 1], f.parent)
  }

  /* The siblings after the cursor's ancestor-or-self at the innermost frame. */
  function After(f: Frame): seq<Tree>
  {
    if f.index < |f.parent.children| then f.parent.children[f.index + 1..] else []
  }

  function Sibling(f: Frame): Frame
  {
    Frame(f.parent, f.index + 1)
  }

  predicate HasNext(frames: seq<Frame>)
  {
    frames != [] && After(frames[|frames| - 1]) != []
  }

  /* The cursor went from the end of `was` to the next sibling. */
  ghost predicate NextOf(was: seq<Frame>, focus: Tree, now: seq<Frame>)
  {
    && HasNext(was)
    && var n := |was| - 1;
       focus == After(was[n])[0] && now == was[..n] + [Sibling(was[n])]
  }

  class Cursor {
    ghost const root: Tree
    var focus: Tree
    var frames: seq<Frame>

    ghost predicate Valid()
      reads this
    {
      Chained(root, frames, focus)
    }

    constructor (root: Tree)
      ensures Valid() && this.root == root && focus == root && frames == []
    {
      this.root, focus, frames := root, root, [];
    }

    method GotoFirstChild() returns (moved: bool)
      requires Valid()
      modifies this
      ensures Valid() && moved == (old(focus).children != [])
      ensures if moved
              then focus == old(focus).children[0] && frames == old(frames) + [Frame(old(focus), 0)]
              else focus == old(focus) && frames == old(frames)
    {
      if focus.children == [] {
        return false;
      }
      assert (frames + [Frame(focus, 0)])[..|frames|] == frames;
      frames, focus := frames + [Frame(focus, 0)], focus.children[0];
      return true;
    }

    method GotoNextSibling() returns (moved: bool)
      requires Valid()
      modifies this
      ensures Valid() && moved == HasNext(old(frames))
      ensures if moved then NextOf(old(frames), focus, frames) else focus == old(focus) && frames == old(frames)
    {
      if frames == [] {
        return false;
      }
      var n := |frames| - 1;
      var f := frames[n];
      if f.index + 1 == |f.parent.children| {
        return false;
      }
      assert (frames[..n] + [Sibling(f)])[..n] == frames[..n];
      frames, focus := frames[..n] + [Sibling(f)], f.parent.children[f.index + 1];
      return true;
    }

    method GotoParent() returns (moved: bool)
      requires Valid()
      modifies this
      ensures Valid() && moved == (old(frames) != [])
      ensures if moved
              then focus == old(frames)[|old(frames)| - 1].parent && frames == old(frames)[..|old(frames)| - 1]
              else focus == old(focus) && frames == old(frames)
    {
      if frames == [] {
        return false;
      }
      var n := |frames| - 1;
      frames, focus := frames[..n], frames[n].parent;
      return true;
    }
  }

  // What is left to do once the subtree under the cursor is finished.

  function Resume(w: Walked, frames: seq<Frame>, limits: Limits): Result<Walked, SyntaxError>
    decreases |frames|
  {
    if frames == [] then Ok(w)
    else
      var n := |frames| - 1;
      match WalkForest(w, After(frames[n]), n + 1, limits)
      case Err(e) => Err(e)
      case Ok(w') => Resume(w', frames[..n], limits)
  }

  function ResumeAfter(r: Result<Walked, SyntaxError>, frames: seq<Frame>, limits: Limits): Result<Walked, SyntaxError>
  {
    match r
    case Err(e) => Err(e)
    case Ok(w) => Resume(w, frames, limits)
  }

  function Pending(frames: seq<Frame>): seq<Tree>
  {
    if frames == [] then [] else PreorderAll(After(frames[|frames| - 1])) + Pending(frames[..|frames| - 1])
  }

  lemma Descending(w: Walked, t: Tree, frames: seq<Frame>, limits: Limits, s: Totals)
    requires t.children != [] && Visit(w.totals, t, limits) == Ok(s)
    ensures var inner, depth := frames + [Frame(t, 0)], |frames|;
      ResumeAfter(WalkTree(w, t, depth, limits), frames, limits) ==
      if depth + 1 > limits.maxDepth then Err(DepthLimitExceeded)
      else ResumeAfter(WalkTree(Walked(s, Max(w.deepest, depth + 1)), t.children[0], depth + 1, limits), inner, limits)
  {
    hide Visit, WalkTree;
    var inner := frames + [Frame(t, 0)];
    assert inner[..|frames|] == frames && After(Frame(t, 0)) == t.children[1..];
    assert WalkTree(w, t, |frames|, limits) ==
      if |frames| + 1 > limits.maxDepth then Err(DepthLimitExceeded)
      else WalkForest(Walked(s, Max(w.deepest, |frames| + 1)), t.children, |frames| + 1, limits) by { WalkInto(w, t, |frames|, limits, s); }
  }

  lemma WalkInto(w: Walked, t: Tree, depth: nat, limits: Limits, s: Totals)
    requires t.children != [] && Visit(w.totals, t, limits) == Ok(s)
    ensures WalkTree(w, t, depth, limits) ==
      if depth + 1 > limits.maxDepth then Err(DepthLimitExceeded)
      else WalkForest(Walked(s, Max(w.deepest, depth + 1)), t.children, depth + 1, limits)
  {
    hide Visit, WalkForest;
  }

  lemma ForestFirst(w: Walked, ts: seq<Tree>, depth: nat, limits: Limits)
    requires ts != []
    ensures PreorderAll(ts) == Preorder(ts[0]) + PreorderAll(ts[1..])
    ensures WalkForest(w, ts, depth, limits) ==
      match WalkTree(w, ts[0], depth, limits)
      case Err(e) => Err(e)
      case Ok(w') => WalkForest(w', ts[1..], depth, limits)
  {
    hide WalkTree, Preorder;
  }

  lemma ResumeLast(w: Walked, frames: seq<Frame>, f: Frame, limits: Limits)
    ensures Pending(frames + [f]) == PreorderAll(After(f)) + Pending(frames)
    ensures Resume(w, frames + [f], limits) ==
      match WalkForest(w, After(f), |frames| + 1, limits)
      case Err(e) => Err(e)
      case Ok(w') => Resume(w', frames, limits)
  {
    hide WalkForest, PreorderAll, After;
    assert (frames + [f])[..|frames|] == frames;
  }

  lemma AfterSibling(f: Frame)
    requires After(f) != []
    ensures After(Sibling(f)) == After(f)[1..]
  {
  }

  lemma ResumeSibling(w: Walked, frames: seq<Frame>, f: Frame, limits: Limits)
    requires After(f) != []
    ensures Resume(w, frames + [f], limits) ==
      ResumeAfter(WalkTree(w, After(f)[0], |frames| + 1, limits), frames + [Sibling(f)], limits)
  {
    hide WalkTree, WalkForest, Resume, Pending, PreorderAll, Preorder, After, Sibling;
    AfterSibling(f);
    ForestFirst(w, After(f), |frames| + 1, limits);
    ResumeLast(w, frames, f, limits);
    match WalkTree(w, After(f)[0], |frames| + 1, limits)
    case Err(_) =>
    case Ok(w') => ResumeLast(w', frames, Sibling(f), limits);
  }

  lemma PendingSibling(w: Walked, frames: seq<Frame>, f: Frame, limits: Limits)
    requires After(f) != []
    ensures Pending(frames + [f]) == Preorder(After(f)[0]) + Pending(frames + [Sibling(f)])
  {
    hide WalkTree, WalkForest, Resume, Pending, PreorderAll, Preorder, After, Sibling;
    AfterSibling(f);
    ForestFirst(w, After(f), |frames| + 1, limits);
    ResumeLast(w, frames, f, limits);
    ResumeLast(w, frames, Sibling(f), limits);
    assert Pending(frames + [f]) == (Preorder(After(f)[0]) + PreorderAll(After(f)[1..])) + Pending(frames);
  }

  lemma NextSibling(w: Walked, frames: seq<Frame>, limits: Limits)
    requires HasNext(frames)
    ensures var n := |frames| - 1;
      var f := frames[n];
      var moved := frames[..n] + [Sibling(f)];
      && Resume(w, frames, limits) == ResumeAfter(WalkTree(w, After(f)[0], n + 1, limits), moved, limits)
      && Pending(frames) == Preorder(After(f)[0]) + Pending(moved)
  {
    hide WalkTree, Preorder, Resume, Pending, ResumeAfter, Sibling, After;
    var n := |frames| - 1;
    assert frames == frames[..n] + [frames[n]];
    ResumeSibling(w, frames[..n], frames[n], limits);
    PendingSibling(w, frames[..n], frames[n], limits);
  }

  lemma Parent(w: Walked, frames: seq<Frame>, limits: Limits)
    requires frames != [] && After(frames[|frames| - 1]) == []
    ensures Resume(w, frames, limits) == Resume(w, frames[..|frames| - 1], limits)
    ensures Pending(frames) == Pending(frames[..|frames| - 1])
  {
  }

  lemma FirstChild(t: Tree, frames: seq<Frame>)
    requires t.children != []
    ensures PreorderAll(t.children) + Pending(frames) == Preorder(t.children[0]) + Pending(frames + [Frame(t, 0)])
  {
    hide Preorder;
    var inner := frames + [Frame(t, 0)];
    assert inner[..|frames|] == frames && After(Frame(t, 0)) == t.children[1..];
  }

  // The counters.

  class TraversalState {
    var sites: seq<Site>
    var visitedNodes: nat
    var syntaxErrorNodes: nat
    var depth: nat
    var maxObservedDepth: nat
    var ownedTextBytes: nat
    ghost var visits: seq<Tree>

    ghost function Reached(): Walked
      reads this
    {
      Walked(Totals(sites, visitedNodes, syntaxErrorNodes, ownedTextBytes), maxObservedDepth)
    }

    constructor ()
      ensures Reached() == Walked(NO_TOTALS, 0) && depth == 0 && visits == []
    {
      sites, visitedNodes, syntaxErrorNodes, depth, maxObservedDepth, ownedTextBytes := [], 0, 0, 0, 0, 0;
      visits := [];
    }

    method VisitNode(t: Tree, limits: Limits) returns (r: Result<(), SyntaxError>)
      modifies this
      ensures match Visit(old(Reached()).totals, t, limits)
        case Err(e) => r == Err(e)
        case Ok(s) => r == Ok(()) && Reached() == Walked(s, old(maxObservedDepth)) && depth == old(depth)
      ensures visits == old(visits) + [t]
    {
      visitedNodes := visitedNodes + 1;
      visits := visits + [t];
      if visitedNodes > limits.maxNodes {
        return Err(NodeLimitExceeded);
      }
      if t.broken {
        syntaxErrorNodes := syntaxErrorNodes + 1;
        return Ok(());
      }
      if t.extracted.Err? {
        return Err(t.extracted.error);
      }
      var found := t.extracted.value;
      ghost var whole := AddSites(Reached().totals, found, limits);
      assert found[0..] == found;
      for i := 0 to |found|
        invariant AddSites(Reached().totals, found[i..], limits) == whole
        invariant maxObservedDepth == old(maxObservedDepth) && depth == old(depth) && visits == old(visits) + [t]
      {
        assert found[i..][1..] == found[i + 1..];
        if |sites| >= limits.maxSites {
          return Err(SiteLimitExceeded);
        }
        ownedTextBytes := ownedTextBytes + |found[i].target|;
        if ownedTextBytes > limits.maxText {
          return Err(OwnedTextLimitExceeded);
        }
        sites := sites + [found[i]];
      }
      return Ok(());
    }

    method Descend(limits: Limits) returns (r: Result<(), SyntaxError>)
      modifies this`depth, this`maxObservedDepth
      ensures depth == old(depth) + 1
      ensures if depth > limits.maxDepth
              then r == Err(DepthLimitExceeded)
              else r == Ok(()) && maxObservedDepth == Max(old(maxObservedDepth), depth)
    {
      depth := depth + 1;
      if depth > limits.maxDepth {
        return Err(DepthLimitExceeded);
      }
      maxObservedDepth := Max(maxObservedDepth, depth);
      return Ok(());
    }

    method Ascend() returns (r: Result<(), SyntaxError>)
      modifies this`depth
      ensures if old(depth) == 0
              then r == Err(InvalidSourceSpan) && depth == 0
              else r == Ok(()) && depth == old(depth) - 1
    {
      if depth == 0 {
        return Err(InvalidSourceSpan);
      }
      depth := depth - 1;
      return Ok(());
    }

    /* Numbers the sites in place, validating and counting them. */
    method NumberSites(source: Octets, limits: Limits) returns (r: Result<seq<nat>, SyntaxError>)
      modifies this`sites
      ensures if forall s :: s in Renumber(old(sites)) ==> Matches(s, source, limits)
              then r == Ok(Emitted(Renumber(old(sites)))) && sites == Renumber(old(sites))
              else r == Err(InvalidSourceSpan)
    {
      hide Matches, Emitted, KindIndex;
      ghost var numbered := Renumber(sites);
      var emitted := [0, 0, 0, 0];
      NoneEmitted();
      for i := 0 to |sites|
        invariant |sites| == |numbered|
        invariant forall j :: 0 <= j < |sites| ==> sites[j] == if j < i then numbered[j] else old(sites)[j]
        invariant forall j :: 0 <= j < i ==> Matches(numbered[j], source, limits)
        invariant emitted == Emitted(numbered[..i])
      {
        var site := sites[i].(ordinal := i);
        sites := sites[i := site];
        assert site == numbered[i];
        assert numbered[..i + 1] == numbered[..i] + [site];
        if !Matches(site, source, limits) {
          assert numbered[i] in numbered;
          return Err(InvalidSourceSpan);
        }
        EmittedAppend(numbered[..i], site);
        var k := KindIndex(site.kind);
        emitted := emitted[k := emitted[k] + 1];
      }
      assert numbered[..|numbered|] == numbered;
      assert sites == numbered;
      return Ok(emitted);
    }

    /* Sorts, drops duplicates and renumbers in place, then validates and counts. */
    method FinishAnalysis(source: Octets, limits: Limits) returns (r: Result<Analysis, SyntaxError>)
      modifies this`sites
      ensures r == Finish(old(sites), visitedNodes, syntaxErrorNodes, maxObservedDepth, ownedTextBytes, source, limits)
    {
      hide Sort, Dedup, SiteOrder, Matches, Emitted, Renumber;
      sites := Sort(sites, SiteOrder);
      sites := Dedup(sites);
      var emitted := NumberSites(source, limits);
      if emitted.Err? {
        return Err(emitted.error);
      }
      return Ok(Analysis(sites, visitedNodes, syntaxErrorNodes, maxObservedDepth, ownedTextBytes, emitted.value));
    }
  }

  lemma NoneEmitted()
    ensures Emitted([]) == [0, 0, 0, 0]
  {
  }

  lemma EmittedAppend(s: seq<Site>, x: Site)
    ensures |Emitted(s)| == 4 && KindIndex(x.kind) < 4
    ensures Emitted(s + [x]) == Emitted(s)[KindIndex(x.kind) := Emitted(s)[KindIndex(x.kind)] + 1]
  {
    assert (s + [x])[..|s|] == s;
  }

  // The loop.

  /* What the whole traversal comes to, and the nodes it still has to visit. */
  datatype Goal = Goal(outcome: Result<Walked, SyntaxError>, order: seq<Tree>, limits: Limits)

  /* The cursor is at a node that has not been visited. */
  ghost predicate Arriving(goal: Goal, w: Walked, focus: Tree, frames: seq<Frame>, visits: seq<Tree>)
  {
    && ResumeAfter(WalkTree(w, focus, |frames|, goal.limits), frames, goal.limits) == goal.outcome
    && visits + (Preorder(focus) + Pending(frames)) == goal.order
  }

  /* Everything under the cursor has been visited. */
  ghost predicate Leaving(goal: Goal, w: Walked, frames: seq<Frame>, visits: seq<Tree>)
  {
    Resume(w, frames, goal.limits) == goal.outcome && visits + Pending(frames) == goal.order
  }

  lemma StartsArriving(root: Tree, limits: Limits)
    ensures Arriving(GoalOf(root, limits), Walked(NO_TOTALS, 0), root, [], [])
  {
    hide WalkTree, Preorder;
  }

  function GoalOf(root: Tree, limits: Limits): Goal
  {
    Goal(WalkTree(Walked(NO_TOTALS, 0), root, 0, limits), Preorder(root), limits)
  }

  lemma VisitFails(goal: Goal, w: Walked, focus: Tree, frames: seq<Frame>, visits: seq<Tree>)
    requires Arriving(goal, w, focus, frames, visits)
    ensures Visit(w.totals, focus, goal.limits).Err? ==> goal.outcome == Err(Visit(w.totals, focus, goal.limits).error)
    ensures |visits| < |goal.order| && visits + [focus] <= goal.order
  {
    hide Visit, WalkForest, PreorderAll, Pending;
    assert goal.order[|visits|] == focus;
  }

  lemma MovesDown(goal: Goal, w: Walked, t: Tree, frames: seq<Frame>, visits: seq<Tree>, s: Totals)
    requires Arriving(goal, w, t, frames, visits) && t.children != [] && Visit(w.totals, t, goal.limits) == Ok(s)
    ensures if |frames| + 1 > goal.limits.maxDepth then goal.outcome == Err(DepthLimitExceeded)
            else Arriving(goal, Walked(s, Max(w.deepest, |frames| + 1)), t.children[0], frames + [Frame(t, 0)], visits + [t])
  {
    hide Visit, WalkTree, WalkForest, PreorderAll, Resume, Pending;
    Descending(w, t, frames, goal.limits, s);
    FirstChild(t, frames);
    var rest := PreorderAll(t.children) + Pending(frames);
    assert visits + (Preorder(t) + Pending(frames)) == (visits + [t]) + rest;
  }

  lemma LeavesLeaf(goal: Goal, w: Walked, t: Tree, frames: seq<Frame>, visits: seq<Tree>, s: Totals)
    requires Arriving(goal, w, t, frames, visits) && t.children == [] && Visit(w.totals, t, goal.limits) == Ok(s)
    ensures Leaving(goal, w.(totals := s), frames, visits + [t])
  {
    hide Visit, Resume, Pending;
    assert Preorder(t) == [t];
    assert visits + ([t] + Pending(frames)) == (visits + [t]) + Pending(frames);
  }

  lemma MovesAcross(goal: Goal, w: Walked, frames: seq<Frame>, visits: seq<Tree>, focus: Tree, now: seq<Frame>)
    requires Leaving(goal, w, frames, visits) && NextOf(frames, focus, now)
    ensures Arriving(goal, w, focus, now, visits)
  {
    hide WalkTree, Resume, Pending, Preorder;
    NextSibling(w, frames, goal.limits);
  }

  lemma MovesUp(goal: Goal, w: Walked, frames: seq<Frame>, visits: seq<Tree>)
    requires Leaving(goal, w, frames, visits) && frames != [] && !HasNext(frames)
    ensures Leaving(goal, w, frames[..|frames| - 1], visits)
  {
    Parent(w, frames, goal.limits);
  }

  lemma Finished(goal: Goal, w: Walked, visits: seq<Tree>)
    requires Leaving(goal, w, [], visits)
    ensures goal.outcome == Ok(w) && goal.order == visits
  {
  }

  /* The inner loop: up until there is a next sibling, or out of the root. */
  method NextNode(cursor: Cursor, state: TraversalState, ghost goal: Goal) returns (more: bool)
    requires cursor.Valid() && state.depth == |cursor.frames|
    requires Leaving(goal, state.Reached(), cursor.frames, state.visits)
    modifies cursor, state`depth
    ensures cursor.Valid() && state.depth == |cursor.frames|
    ensures if more
            then Arriving(goal, state.Reached(), cursor.focus, cursor.frames, state.visits)
            else goal.outcome == Ok(state.Reached()) && goal.order == state.visits
  {
    hide Leaving, Arriving, Chained, NextOf, HasNext;
    ghost var frames := cursor.frames;
    var sibling := cursor.GotoNextSibling();
    if sibling {
      SameDepth(frames, cursor.focus, cursor.frames);
    }
    while !sibling
      invariant cursor.Valid() && state.depth == |cursor.frames|
      invariant Leaving(goal, state.Reached(), frames, state.visits)
      invariant sibling == HasNext(frames)
      invariant if sibling then NextOf(frames, cursor.focus, cursor.frames) else cursor.frames == frames
      invariant sibling ==> |cursor.frames| == |frames|
      decreases |frames|, if sibling then 0 else 1
    {
      var up := cursor.GotoParent();
      if !up {
        Finished(goal, state.Reached(), state.visits);
        return false;
      }
      var ascended := state.Ascend();
      assert ascended.Ok?;
      MovesUp(goal, state.Reached(), frames, state.visits);
      frames := cursor.frames;
      sibling := cursor.GotoNextSibling();
      if sibling {
        SameDepth(frames, cursor.focus, cursor.frames);
      }
    }
    MovesAcross(goal, state.Reached(), frames, state.visits, cursor.focus, cursor.frames);
    return true;
  }

  lemma SameDepth(was: seq<Frame>, focus: Tree, now: seq<Frame>)
    requires NextOf(was, focus, now)
    ensures |now| == |was|
  {
  }

  /**
   The walk and its completion; the nodes are visited in preorder, and going up never underflows the
   depth, since no outcome of the specification is that failure.
   */
  method TraverseSites(root: Tree, source: Octets, limits: Limits) returns (r: Result<Analysis, SyntaxError>, ghost visits: seq<Tree>)
    ensures match WalkTree(Walked(NO_TOTALS, 0), root, 0, limits)
      case Err(e) => r == Err(e)
      case Ok(w) =>
        && r == Finish(w.totals.sites, w.totals.visited, w.totals.errors, w.deepest, w.totals.text, source, limits)
        && visits == Preorder(root)
    ensures visits <= Preorder(root)
  {
    hide Visit, WalkTree, WalkForest, Preorder, Finish, Chained, Arriving, Leaving;
    var state := new TraversalState();
    var cursor := new Cursor(root);
    ghost var goal := GoalOf(root, limits);
    StartsArriving(root, limits);
    while true
      invariant fresh(state) && fresh(cursor) && cursor.Valid() && state.depth == |cursor.frames|
      invariant Arriving(goal, state.Reached(), cursor.focus, cursor.frames, state.visits)
      decreases |goal.order| - |state.visits|
    {
      ghost var was, at, path, seen := state.Reached(), cursor.focus, cursor.frames, state.visits;
      VisitFails(goal, was, at, path, seen);
      var visited := state.VisitNode(cursor.focus, limits);
      if visited.Err? {
        return Err(visited.error), state.visits;
      }
      ghost var totals := state.Reached().totals;
      var moved := cursor.GotoFirstChild();
      if moved {
        MovesDown(goal, was, at, path, seen, totals);
        var entered := state.Descend(limits);
        if entered.Err? {
          return Err(entered.error), state.visits;
        }
      } else {
        LeavesLeaf(goal, was, at, path, seen, totals);
        var more := NextNode(cursor, state, goal);
        if !more {
          var analysis := state.FinishAnalysis(source, limits);
          return analysis, state.visits;
        }
      }
    }
  }

  // The second construction, and both together.

  method TryFromParts(sites: seq<Site>, visited: nat, errors: nat, deepest: nat, text: nat, limits: Limits) returns (r: Result<Analysis, SyntaxError>)
    ensures r == Rebuild(sites, visited, errors, deepest, text, limits)
  {
    hide SiteShape, Emitted, KindIndex, TextOf;
    if !limits.valid || visited > limits.maxNodes || errors > visited || deepest > limits.maxDepth
       || text > limits.maxText || |sites| > limits.maxSites {
      return Err(InvalidSourceSpan);
    }
    var emitted := [0, 0, 0, 0];
    var observed := 0;
    NoneEmitted();
    NoText();
    for i := 0 to |sites|
      invariant FirstProblem(sites[..i], limits).None?
      invariant emitted == Emitted(sites[..i]) && observed == TextOf(sites[..i])
    {
      var site := sites[i];
      assert sites[..i + 1][..i] == sites[..i];
      assert sites[..i + 1] == sites[..i] + [site];
      if site.ordinal != i {
        ProblemStays(sites, i + 1, limits);
        return Err(InvalidSourceSpan);
      }
      var shape := SiteShape(site, limits);
      if shape.Some? {
        ProblemStays(sites, i + 1, limits);
        return Err(shape.value);
      }
      TextAppend(sites[..i], site);
      EmittedAppend(sites[..i], site);
      observed := observed + |site.target|;
      var k := KindIndex(site.kind);
      emitted := emitted[k := emitted[k] + 1];
    }
    assert sites[..|sites|] == sites;
    if observed != text {
      return Err(InvalidSourceSpan);
    }
    return Ok(Analysis(sites, visited, errors, deepest, text, emitted));
  }

  lemma {:induction false} ProblemStays(sites: seq<Site>, i: nat, limits: Limits)
    requires i <= |sites| && FirstProblem(sites[..i], limits).Some?
    ensures FirstProblem(sites, limits) == FirstProblem(sites[..i], limits)
    decreases |sites|
  {
    if i == |sites| {
      assert sites[..i] == sites;
    } else {
      var n := |sites| - 1;
      assert sites[..n][..i] == sites[..i];
      ProblemStays(sites[..n], i, limits);
    }
  }

  /* Every site that an extraction gives was pushed with the source text of its spans. */
  ghost predicate Extracted(nodes: seq<Tree>, source: Octets, limits: Limits)
  {
    forall t, s :: t in nodes && t.extracted.Ok? && s in t.extracted.value ==> Pushed(s, source, limits)
  }

  lemma {:induction false} SitesPushed(nodes: seq<Tree>, source: Octets, limits: Limits)
    requires Extracted(nodes, source, limits)
    ensures forall s :: s in SitesIn(nodes) ==> Pushed(s, source, limits)
  {
    hide Pushed;
    if nodes != [] {
      assert nodes[0] in nodes;
      SitesPushed(nodes[1..], source, limits);
    }
  }

  /**
   An analysis of any tree within its limits completes, and is accepted again from its own parts exactly
   when no site was found twice.
   */
  lemma {:induction false} AnalysisRebuildsExactly(root: Tree, source: Octets, limits: Limits)
    requires limits.valid && Extracted(Preorder(root), source, limits)
    ensures match WalkTree(Walked(NO_TOTALS, 0), root, 0, limits)
      case Err(_) => true
      case Ok(w) =>
        var r := Finish(w.totals.sites, w.totals.visited, w.totals.errors, w.deepest, w.totals.text, source, limits);
        && r.Ok?
        && var a := r.value;
           Rebuild(a.sites, a.visited, a.errors, a.deepest, a.text, limits) ==
             if AllDistinct(SitesIn(Preorder(root))) then Ok(a) else Err(InvalidSourceSpan)
  {
    hide WalkTree, Preorder, SitesIn, Pushed, Finish, Rebuild, TextOf, Extracted, Extracts, Canonical, AllDistinct, Height, BrokenIn;
    WalkExactly(root, limits);
    PreorderSize(root);
    if WalkTree(Walked(NO_TOTALS, 0), root, 0, limits).Ok? {
      var sites := SitesIn(Preorder(root));
      SitesPushed(Preorder(root), source, limits);
      RebuildsExactly(sites, Size(root), BrokenIn(Preorder(root)), Height(root), source, limits);
      NothingDropped(sites, source, limits);
      FinishAccepts(sites, Size(root), BrokenIn(Preorder(root)), Height(root), TextOf(sites), source, limits);
    }
  }

  /* A root and its only child extract one and the same site of the one-letter source. */
  const SITE: Site := Site(0, Reference, true, 0, 1, 0, 1, [65])
  const CHILD: Tree := Node(false, Ok([SITE]), [])
  const ROOT: Tree := Node(false, Ok([SITE]), [CHILD])
  const SOURCE: Octets := [65]
  const LIMITS: Limits := Limits(true, 1, 2, 1, 2, 1, 2)

  lemma TwoNodes()
    ensures Preorder(ROOT) == [ROOT, CHILD] && SitesIn(Preorder(ROOT)) == [SITE, SITE] && TextOf([SITE, SITE]) == 2
    ensures Size(ROOT) == 2 && Height(ROOT) == 1
  {
    assert Preorder(CHILD) == [CHILD];
    assert [CHILD][1..] == [];
    assert Preorder(ROOT) == [ROOT, CHILD];
    assert [ROOT, CHILD][1..] == [CHILD];
    assert SitesIn([CHILD]) == [SITE];
    PreorderSize(ROOT);
    assert HeightAll([CHILD]) == Max(Height(CHILD), HeightAll([]));
    TextAppend([], SITE);
    TextAppend([SITE], SITE);
    assert [] + [SITE] == [SITE] && [SITE] + [SITE] == [SITE, SITE];
  }

  /* Its analysis is emitted within all limits, yet not accepted again from its own parts. */
  lemma DuplicateNotRebuilt()
    ensures LIMITS.valid && Extracted(Preorder(ROOT), SOURCE, LIMITS)
    ensures WalkTree(Walked(NO_TOTALS, 0), ROOT, 0, LIMITS) == Ok(Walked(Totals([SITE, SITE], 2, 0, 2), 1))
    ensures var r := Finish([SITE, SITE], 2, 0, 1, 2, SOURCE, LIMITS);
      r.Ok? && Rebuild(r.value.sites, 2, 0, 1, 2, LIMITS) == Err(InvalidSourceSpan)
      && r.value.visited == 2 && r.value.errors == 0 && r.value.deepest == 1 && r.value.text == 2
  {
    hide WalkTree, Preorder, SitesIn, Finish, Rebuild, TextOf, Height, Size;
    TwoNodes();
    assert SOURCE[0..1] == [65];
    WalkExactly(ROOT, LIMITS);
    assert BrokenIn([ROOT, CHILD]) == 0 by { assert [ROOT, CHILD][1..] == [CHILD] && [CHILD][1..] == []; }
    assert !AllDistinct([SITE, SITE]) by { assert [SITE, SITE][0] == [SITE, SITE][1]; }
    AnalysisRebuildsExactly(ROOT, SOURCE, LIMITS);
    FinishAccepts([SITE, SITE], 2, 0, 1, 2, SOURCE, LIMITS);
  }
}
