/**
 Reconciliation of two source manifests: a two-index merge that must find exactly the difference of
 the manifests as maps, under a limit on changes, with watcher hints only counted.
 */
module Reconciliation {
  import opened Results
  import opened Bytes
  import opened Manifests

  datatype Change = Added(entry: Entry) | Removed(entry: Entry) | Changed(previous: Entry, current: Entry)

  datatype ReconciliationError = HintLimitExceeded | ChangeLimitExceeded

  datatype Reconciled = Reconciled(changes: seq<Change>, kept: nat, received: nat, unique: nat, unmatched: nat)

  function PathOf(c: Change): Octets
  {
    match c
    case Added(e) => e.path
    case Removed(e) => e.path
    case Changed(_, e) => e.path
  }

  // The merge.

  function Diff(p: seq<Entry>, c: seq<Entry>): seq<Change>
    decreases |p| + |c|
  {
    if p == [] && c == [] then []
    else if p == [] then [Added(c[0])] + Diff(p, c[1..])
    else if c == [] then [Removed(p[0])] + Diff(p[1..], c)
    else if LexLess(p[0].path, c[0].path) then [Removed(p[0])] + Diff(p[1..], c)
    else if LexLess(c[0].path, p[0].path) then [Added(c[0])] + Diff(p, c[1..])
    else if p[0].kind == c[0].kind && p[0].digest == c[0].digest then Diff(p[1..], c[1..])
    else [Changed(p[0], c[0])] + Diff(p[1..], c[1..])
  }

  function Unchanged(p: seq<Entry>, c: seq<Entry>): nat
    decreases |p| + |c|
  {
    if p == [] || c == [] then 0
    else if LexLess(p[0].path, c[0].path) then Unchanged(p[1..], c)
    else if LexLess(c[0].path, p[0].path) then Unchanged(p, c[1..])
    else Unchanged(p[1..], c[1..]) + if p[0].kind == c[0].kind && p[0].digest == c[0].digest then 1 else 0
  }

  // What the difference is, without the merge.

  /* A change of the manifests as maps from path to file type and digest. */
  ghost predicate Differs(p: seq<Entry>, c: seq<Entry>, x: Change)
  {
    match x
    case Added(e) => e in c && !HasPath(p, e.path)
    case Removed(e) => e in p && !HasPath(c, e.path)
    case Changed(a, b) => a in p && b in c && a.path == b.path && a != b
  }

  /* All entries lie after `path`. */
  ghost predicate Beyond(path: Octets, entries: seq<Entry>)
  {
    forall e :: e in entries ==> LexLess(path, e.path)
  }

  lemma TailIncreasing(s: seq<Entry>)
    requires s != [] && Increasing(s)
    ensures Increasing(s[1..]) && Beyond(s[0].path, s[1..]) && s == [s[0]] + s[1..]
  {
  }

  lemma FirstBeyond(path: Octets, s: seq<Entry>)
    requires s != [] && Increasing(s) && LexLess(path, s[0].path)
    ensures Beyond(path, s)
  {
    hide LexLess;
    PathLaws();
    forall e | e in s ensures LexLess(path, e.path) {
      var i :| 0 <= i < |s| && s[i] == e;
    }
  }

  lemma BeyondMisses(path: Octets, s: seq<Entry>)
    requires Beyond(path, s)
    ensures !HasPath(s, path)
  {
    hide LexLess;
    PathLaws();
  }

  /* An entry of `p` before everything in `c` is removed; nothing else changes. */
  lemma {:induction false} DiffersDropFirst(p: seq<Entry>, c: seq<Entry>, x: Change)
    requires p != [] && Increasing(p) && Beyond(p[0].path, c)
    ensures Differs(p, c, x) <==> x == Removed(p[0]) || Differs(p[1..], c, x)
  {
    hide LexLess, Increasing;
    TailIncreasing(p);
    BeyondMisses(p[0].path, p[1..]);
    BeyondMisses(p[0].path, c);
  }

  lemma {:induction false} DiffersSkipFirst(p: seq<Entry>, c: seq<Entry>, x: Change)
    requires c != [] && Increasing(c) && Beyond(c[0].path, p)
    ensures Differs(p, c, x) <==> x == Added(c[0]) || Differs(p, c[1..], x)
  {
    hide LexLess, Increasing;
    TailIncreasing(c);
    BeyondMisses(c[0].path, p);
    BeyondMisses(c[0].path, c[1..]);
  }

  lemma {:induction false} DiffersBothFirst(p: seq<Entry>, c: seq<Entry>, x: Change)
    requires p != [] && c != [] && Increasing(p) && Increasing(c) && p[0].path == c[0].path
    ensures Differs(p, c, x) <==> (x == Changed(p[0], c[0]) && p[0] != c[0]) || Differs(p[1..], c[1..], x)
  {
    hide LexLess, Increasing;
    TailIncreasing(p);
    TailIncreasing(c);
    BeyondMisses(p[0].path, p[1..]);
    BeyondMisses(c[0].path, c[1..]);
  }

  /* The merge finds exactly the map difference. */
  lemma {:induction false} DiffExactly(p: seq<Entry>, c: seq<Entry>, x: Change)
    requires Increasing(p) && Increasing(c)
    ensures x in Diff(p, c) <==> Differs(p, c, x)
    decreases |p| + |c|
  {
    hide LexLess, Increasing, Differs;
    PathLaws();
    if p != [] {
      TailIncreasing(p);
    }
    if c != [] {
      TailIncreasing(c);
    }
    if p == [] && c == [] {
      assert !Differs(p, c, x) by { NothingDiffers(x); }
    } else if c == [] || (p != [] && LexLess(p[0].path, c[0].path)) {
      if c != [] {
        FirstBeyond(p[0].path, c);
      }
      DiffersDropFirst(p, c, x);
      DiffExactly(p[1..], c, x);
    } else if p == [] || LexLess(c[0].path, p[0].path) {
      if p != [] {
        FirstBeyond(c[0].path, p);
      }
      DiffersSkipFirst(p, c, x);
      DiffExactly(p, c[1..], x);
    } else {
      DiffersBothFirst(p, c, x);
      DiffExactly(p[1..], c[1..], x);
    }
  }

  lemma NothingDiffers(x: Change)
    ensures !Differs([], [], x)
  {
  }

  ghost predicate InPathOrder(changes: seq<Change>)
  {
    forall i, j :: 0 <= i < j < |changes| ==> LexLess(PathOf(changes[i]), PathOf(changes[j]))
  }

  lemma DiffersWhere(p: seq<Entry>, c: seq<Entry>, x: Change, path: Octets)
    requires Differs(p, c, x) && Beyond(path, p) && Beyond(path, c)
    ensures LexLess(path, PathOf(x))
  {
  }

  /* Changes come in strictly increasing path order. */
  lemma {:induction false} DiffOrdered(p: seq<Entry>, c: seq<Entry>)
    requires Increasing(p) && Increasing(c)
    ensures InPathOrder(Diff(p, c))
    decreases |p| + |c|
  {
    hide LexLess, Increasing, Differs, InPathOrder;
    PathLaws();
    if p != [] {
      TailIncreasing(p);
    }
    if c != [] {
      TailIncreasing(c);
    }
    if p == [] && c == [] {
      assert InPathOrder([]) by { NoChanges(); }
    } else if c == [] || (p != [] && LexLess(p[0].path, c[0].path)) {
      if c != [] {
        FirstBeyond(p[0].path, c);
      }
      DiffOrdered(p[1..], c);
      OrderedPrepend(Removed(p[0]), p[1..], c);
    } else if p == [] || LexLess(c[0].path, p[0].path) {
      if p != [] {
        FirstBeyond(c[0].path, p);
      }
      DiffOrdered(p, c[1..]);
      OrderedPrepend(Added(c[0]), p, c[1..]);
    } else {
      DiffOrdered(p[1..], c[1..]);
      OrderedPrepend(Changed(p[0], c[0]), p[1..], c[1..]);
    }
  }

  lemma NoChanges()
    ensures InPathOrder([])
  {
  }

  lemma OrderedPrepend(x: Change, p: seq<Entry>, c: seq<Entry>)
    requires Increasing(p) && Increasing(c) && Beyond(PathOf(x), p) && Beyond(PathOf(x), c) && InPathOrder(Diff(p, c))
    ensures InPathOrder([x] + Diff(p, c))
  {
    hide LexLess, Increasing, Differs, Beyond, Diff;
    var rest := Diff(p, c);
    forall j | 0 <= j < |rest| ensures LexLess(PathOf(x), PathOf(rest[j])) {
      DiffExactly(p, c, rest[j]);
      DiffersWhere(p, c, rest[j], PathOf(x));
    }
  }

  // Applying and inverting.

  type Contents = map<Octets, Entry>

  /* A manifest as a map. */
  function Mapped(entries: seq<Entry>): (m: Contents)
  {
    if entries == [] then map[]
    else
      var n := |entries| - 1;
      Mapped(entries[..n])[entries[n].path := entries[n]]
  }

  lemma MappedAppend(entries: seq<Entry>, e: Entry)
    ensures Mapped(entries + [e]) == Mapped(entries)[e.path := e]
  {
    assert (entries + [e])[..|entries|] == entries;
  }

  lemma {:induction false} MappedExactly(entries: seq<Entry>)
    requires Increasing(entries)
    ensures Mapped(entries).Keys == Paths(entries)
    ensures forall e :: e in entries ==> Mapped(entries)[e.path] == e
  {
    hide LexLess, Increasing, Mapped;
    if entries == [] {
      assert Mapped([]) == map[] by { MappedNone(); }
    } else {
      var n := |entries| - 1;
      var init, e := entries[..n], entries[n];
      assert entries == init + [e];
      LastIsNew(init, e);
      MappedExactly(init);
      MappedAppend(init, e);
      PathsAppend(init, e);
    }
  }

  lemma MappedNone()
    ensures Mapped([]) == map[]
  {
  }

  function Lookup(m: Contents, path: Octets): Option<Entry>
  {
    if path in m then Some(m[path]) else None
  }

  function ApplyOne(m: Contents, x: Change): Contents
  {
    match x
    case Added(e) => m[e.path := e]
    case Removed(e) => m - {e.path}
    case Changed(_, e) => m[e.path := e]
  }

  function Apply(m: Contents, changes: seq<Change>): Contents
    decreases |changes|
  {
    if changes == [] then m else Apply(ApplyOne(m, changes[0]), changes[1..])
  }

  /* What a change leaves at its path. */
  function Target(x: Change): Option<Entry>
  {
    match x
    case Added(e) => Some(e)
    case Removed(_) => None
    case Changed(_, e) => Some(e)
  }

  lemma {:induction false} ApplyElsewhere(m: Contents, changes: seq<Change>, path: Octets)
    requires forall x :: x in changes ==> PathOf(x) != path
    ensures Lookup(Apply(m, changes), path) == Lookup(m, path)
    decreases |changes|
  {
    if changes != [] {
      assert changes[0] in changes;
      ApplyElsewhere(ApplyOne(m, changes[0]), changes[1..], path);
    }
  }

  lemma {:induction false} ApplyHere(m: Contents, changes: seq<Change>, x: Change)
    requires InPathOrder(changes) && x in changes
    ensures Lookup(Apply(m, changes), PathOf(x)) == Target(x)
    decreases |changes|
  {
    hide LexLess;
    var next := ApplyOne(m, changes[0]);
    if x == changes[0] {
      PathLaws();
      forall y | y in changes[1..] ensures PathOf(y) != PathOf(x) {
        var i :| 0 < i < |changes| && changes[i] == y;
      }
      ApplyElsewhere(next, changes[1..], PathOf(x));
    } else {
      ApplyHere(next, changes[1..], x);
    }
  }

  /* At one path the changes, applied to the previous entry, leave the current one. */
  lemma {:induction false} AppliedAt(p: seq<Entry>, c: seq<Entry>, path: Octets)
    requires Increasing(p) && Increasing(c)
    ensures Lookup(Apply(Mapped(p), Diff(p, c)), path) == Lookup(Mapped(c), path)
  {
    hide LexLess, Increasing, Diff, Apply, Mapped, InPathOrder;
    MappedExactly(p);
    MappedExactly(c);
    var before, after := Lookup(Mapped(p), path), Lookup(Mapped(c), path);
    DiffOrdered(p, c);
    if before != after {
      var x := if after.None? then Removed(before.value) else if before.None? then Added(after.value) else Changed(before.value, after.value);
      AtPath(p, before, path);
      AtPath(c, after, path);
      DiffExactly(p, c, x);
      ApplyHere(Mapped(p), Diff(p, c), x);
    } else {
      forall x | x in Diff(p, c) ensures PathOf(x) != path {
        DiffExactly(p, c, x);
      }
      ApplyElsewhere(Mapped(p), Diff(p, c), path);
    }
  }

  lemma AtPath(entries: seq<Entry>, e: Option<Entry>, path: Octets)
    requires Increasing(entries) && e == Lookup(Mapped(entries), path)
    ensures match e
      case Some(found) => found in entries && found.path == path
      case None => !HasPath(entries, path)
  {
    hide LexLess, Increasing, Mapped;
    MappedExactly(entries);
  }

  /* Applying the changes to the previous manifest gives exactly the current one. */
  lemma {:induction false} ApplyGivesCurrent(p: seq<Entry>, c: seq<Entry>)
    requires Increasing(p) && Increasing(c)
    ensures Apply(Mapped(p), Diff(p, c)) == Mapped(c)
  {
    hide Increasing, Diff, Apply, Mapped;
    forall path: Octets ensures Lookup(Apply(Mapped(p), Diff(p, c)), path) == Lookup(Mapped(c), path) {
      AppliedAt(p, c, path);
    }
    SameLookups(Apply(Mapped(p), Diff(p, c)), Mapped(c));
  }

  lemma SameLookups(a: Contents, b: Contents)
    requires forall path: Octets :: Lookup(a, path) == Lookup(b, path)
    ensures a == b
  {
    forall path: Octets ensures path in a <==> path in b {
      assert Lookup(a, path) == Lookup(b, path);
    }
    forall path: Octets | path in a ensures a[path] == b[path] {
      assert Lookup(a, path) == Lookup(b, path);
    }
  }

  function Inverse(x: Change): Change
  {
    match x
    case Added(e) => Removed(e)
    case Removed(e) => Added(e)
    case Changed(a, b) => Changed(b, a)
  }

  function InverseAll(changes: seq<Change>): (r: seq<Change>)
    ensures |r| == |changes| && forall i :: 0 <= i < |r| ==> r[i] == Inverse(changes[i])
  {
    seq(|changes|, i requires 0 <= i < |changes| => Inverse(changes[i]))
  }

  lemma InversePrepend(x: Change, rest: seq<Change>)
    ensures InverseAll([x] + rest) == [Inverse(x)] + InverseAll(rest)
  {
  }

  /* Swapping the manifests inverts the changes, one by one. */
  lemma {:induction false} DiffSwapped(p: seq<Entry>, c: seq<Entry>)
    ensures Diff(c, p) == InverseAll(Diff(p, c))
    ensures Unchanged(c, p) == Unchanged(p, c)
    decreases |p| + |c|
  {
    hide LexLess, InverseAll;
    PathLaws();
    if p == [] && c == [] {
    } else if c == [] || (p != [] && LexLess(p[0].path, c[0].path)) {
      DiffSwapped(p[1..], c);
      InversePrepend(Removed(p[0]), Diff(p[1..], c));
    } else if p == [] || LexLess(c[0].path, p[0].path) {
      DiffSwapped(p, c[1..]);
      InversePrepend(Added(c[0]), Diff(p, c[1..]));
    } else {
      DiffSwapped(p[1..], c[1..]);
      InversePrepend(Changed(p[0], c[0]), Diff(p[1..], c[1..]));
    }
  }

  /* So the inverse changes lead back. */
  lemma {:induction false} InverseGivesPrevious(p: seq<Entry>, c: seq<Entry>)
    requires Increasing(p) && Increasing(c)
    ensures Apply(Mapped(c), InverseAll(Diff(p, c))) == Mapped(p)
  {
    hide Increasing, Diff, Apply, Mapped;
    DiffSwapped(p, c);
    ApplyGivesCurrent(c, p);
  }

  // Counts.

  function CountAdded(changes: seq<Change>): nat
  {
    if changes == [] then 0 else CountAdded(changes[1..]) + if changes[0].Added? then 1 else 0
  }

  function CountRemoved(changes: seq<Change>): nat
  {
    if changes == [] then 0 else CountRemoved(changes[1..]) + if changes[0].Removed? then 1 else 0
  }

  function CountChanged(changes: seq<Change>): nat
  {
    if changes == [] then 0 else CountChanged(changes[1..]) + if changes[0].Changed? then 1 else 0
  }

  lemma CountPrepend(x: Change, rest: seq<Change>)
    ensures CountAdded([x] + rest) == CountAdded(rest) + if x.Added? then 1 else 0
    ensures CountRemoved([x] + rest) == CountRemoved(rest) + if x.Removed? then 1 else 0
    ensures CountChanged([x] + rest) == CountChanged(rest) + if x.Changed? then 1 else 0
  {
    assert ([x] + rest)[1..] == rest;
  }

  /* Every entry of either manifest is counted once. */
  lemma {:induction false} DiffCounts(p: seq<Entry>, c: seq<Entry>)
    ensures var d := Diff(p, c);
      && |p| == Unchanged(p, c) + CountRemoved(d) + CountChanged(d)
      && |c| == Unchanged(p, c) + CountAdded(d) + CountChanged(d)
    decreases |p| + |c|
  {
    hide LexLess, CountAdded, CountRemoved, CountChanged;
    if p == [] && c == [] {
      assert CountAdded([]) == CountRemoved([]) == CountChanged([]) == 0 by { CountNone(); }
    } else if c == [] || (p != [] && LexLess(p[0].path, c[0].path)) {
      DiffCounts(p[1..], c);
      CountPrepend(Removed(p[0]), Diff(p[1..], c));
    } else if p == [] || LexLess(c[0].path, p[0].path) {
      DiffCounts(p, c[1..]);
      CountPrepend(Added(c[0]), Diff(p, c[1..]));
    } else {
      DiffCounts(p[1..], c[1..]);
      CountPrepend(Changed(p[0], c[0]), Diff(p[1..], c[1..]));
    }
  }

  lemma CountNone()
    ensures CountAdded([]) == CountRemoved([]) == CountChanged([]) == 0
  {
  }

  // The source's loops.

  datatype Limits = Limits(maxChanges: nat, maxHints: nat)

  function UniqueHints(hints: seq<Octets>): set<Octets>
  {
    set h | h in hints
  }

  function Unmatched(hints: set<Octets>, p: seq<Entry>, c: seq<Entry>): set<Octets>
  {
    hints - Paths(p) - Paths(c)
  }

  /* Hints are counted and limited, and affect nothing else. */
  function Reconcile(p: seq<Entry>, c: seq<Entry>, hints: seq<Octets>, limits: Limits): Result<Reconciled, ReconciliationError>
  {
    if |hints| > limits.maxHints then Err(HintLimitExceeded)
    else if |Diff(p, c)| > limits.maxChanges then Err(ChangeLimitExceeded)
    else
      var hinted := UniqueHints(hints);
      Ok(Reconciled(Diff(p, c), Unchanged(p, c), |hints|, |hinted|, |Unmatched(hinted, p, c)|))
  }

  /* `contains_path`. */
  method ContainsPath(entries: seq<Entry>, path: Octets) returns (found: bool)
    requires Increasing(entries)
    ensures found <==> path in Paths(entries)
  {
    hide LexLess;
    PathLaws();
    var low, high := 0, |entries|;
    while low < high
      invariant 0 <= low <= high <= |entries|
      invariant forall i :: 0 <= i < low ==> LexLess(entries[i].path, path)
      invariant forall i :: high <= i < |entries| ==> LexLess(path, entries[i].path)
    {
      var middle := (low + high) / 2;
      if LexLess(entries[middle].path, path) {
        low := middle + 1;
      } else if LexLess(path, entries[middle].path) {
        high := middle;
      } else {
        assert entries[middle] in entries;
        return true;
      }
    }
    return false;
  }

  lemma NoneUnmatched(p: seq<Entry>, c: seq<Entry>)
    ensures Unmatched({}, p, c) == {}
  {
  }

  lemma UnmatchedStep(done: set<Octets>, hint: Octets, p: seq<Entry>, c: seq<Entry>)
    requires hint !in done
    ensures |Unmatched(done + {hint}, p, c)| == |Unmatched(done, p, c)| + if hint in Paths(p) || hint in Paths(c) then 0 else 1
  {
    hide Paths;
    if hint in Paths(p) || hint in Paths(c) {
      assert Unmatched(done + {hint}, p, c) == Unmatched(done, p, c);
    } else {
      assert Unmatched(done + {hint}, p, c) == Unmatched(done, p, c) + {hint};
    }
  }

  method CountUnmatchedHints(hints: set<Octets>, p: seq<Entry>, c: seq<Entry>) returns (count: nat)
    requires Increasing(p) && Increasing(c)
    ensures count == |Unmatched(hints, p, c)|
  {
    hide Increasing, Paths, Unmatched;
    count := 0;
    var rest := hints;
    ghost var done: set<Octets> := {};
    assert Unmatched({}, p, c) == {} by { NoneUnmatched(p, c); }
    while rest != {}
      invariant done + rest == hints && done !! rest
      invariant count == |Unmatched(done, p, c)|
      decreases |rest|
    {
      var hint :| hint in rest;
      var before := ContainsPath(p, hint);
      var after := ContainsPath(c, hint);
      UnmatchedStep(done, hint, p, c);
      if !before && !after {
        count := count + 1;
      }
      rest := rest - {hint};
      done := done + {hint};
    }
  }

  function Tagged(entries: seq<Entry>, added: bool): (r: seq<Change>)
    ensures |r| == |entries|
  {
    seq(|entries|, i requires 0 <= i < |entries| => if added then Added(entries[i]) else Removed(entries[i]))
  }

  lemma {:induction false} OneSided(entries: seq<Entry>)
    ensures Diff([], entries) == Tagged(entries, true) && Diff(entries, []) == Tagged(entries, false)
  {
    if entries != [] {
      OneSided(entries[1..]);
    }
  }

  lemma StepAt(p: seq<Entry>, c: seq<Entry>, i: nat, j: nat)
    requires i < |p| && j < |c|
    ensures Diff(p[i..], c[j..]) ==
      if LexLess(p[i].path, c[j].path) then [Removed(p[i])] + Diff(p[i + 1..], c[j..])
      else if LexLess(c[j].path, p[i].path) then [Added(c[j])] + Diff(p[i..], c[j + 1..])
      else (if p[i].kind == c[j].kind && p[i].digest == c[j].digest then [] else [Changed(p[i], c[j])]) + Diff(p[i + 1..], c[j + 1..])
    ensures Unchanged(p[i..], c[j..]) ==
      if LexLess(p[i].path, c[j].path) then Unchanged(p[i + 1..], c[j..])
      else if LexLess(c[j].path, p[i].path) then Unchanged(p[i..], c[j + 1..])
      else Unchanged(p[i + 1..], c[j + 1..]) + if p[i].kind == c[j].kind && p[i].digest == c[j].digest then 1 else 0
  {
    hide LexLess;
    assert p[i..][1..] == p[i + 1..] && c[j..][1..] == c[j + 1..];
  }

  /* The pending part of the merge once one manifest is used up. */
  lemma Leftover(p: seq<Entry>, c: seq<Entry>, i: nat, j: nat)
    requires i <= |p| && j <= |c| && (i == |p| || j == |c|)
    ensures Diff(p[i..], c[j..]) == Tagged(p[i..], false) + Tagged(c[j..], true) && Unchanged(p[i..], c[j..]) == 0
  {
    if i == |p| {
      assert p[i..] == [];
      OneSided(c[j..]);
    } else {
      assert c[j..] == [];
      OneSided(p[i..]);
    }
  }

  class Builder {
    var changes: seq<Change>
    var kept: nat
    const maxChanges: nat

    constructor (maxChanges: nat)
      ensures changes == [] && kept == 0 && this.maxChanges == maxChanges
    {
      changes, kept, this.maxChanges := [], 0, maxChanges;
    }

    method Push(x: Change) returns (r: Result<(), ReconciliationError>)
      modifies this`changes
      ensures if |old(changes)| >= maxChanges
              then r == Err(ChangeLimitExceeded) && changes == old(changes)
              else r == Ok(()) && changes == old(changes) + [x]
    {
      if |changes| >= maxChanges {
        return Err(ChangeLimitExceeded);
      }
      changes := changes + [x];
      return Ok(());
    }

    method ReconcileEqualPath(previous: Entry, current: Entry) returns (r: Result<(), ReconciliationError>)
      modifies this
      ensures if previous.kind == current.kind && previous.digest == current.digest
              then r == Ok(()) && changes == old(changes) && kept == old(kept) + 1
              else
                && kept == old(kept)
                && if |old(changes)| >= maxChanges
                   then r == Err(ChangeLimitExceeded) && changes == old(changes)
                   else r == Ok(()) && changes == old(changes) + [Changed(previous, current)]
    {
      if previous.kind == current.kind && previous.digest == current.digest {
        kept := kept + 1;
        return Ok(());
      }
      r := Push(Changed(previous, current));
    }

    /* `append_remaining`: one of the manifests is used up. */
    method AppendRemaining(entries: seq<Entry>, start: nat, added: bool) returns (r: Result<(), ReconciliationError>)
      requires start <= |entries| && |changes| <= maxChanges
      modifies this`changes
      ensures if |old(changes)| + |entries| - start > maxChanges
              then r == Err(ChangeLimitExceeded)
              else r == Ok(()) && changes == old(changes) + Tagged(entries[start..], added)
    {
      for i := start to |entries|
        invariant changes == old(changes) + Tagged(entries[start..i], added)
        invariant |changes| <= maxChanges
      {
        var x := if added then Added(entries[i]) else Removed(entries[i]);
        var pushed := Push(x);
        if pushed.Err? {
          return pushed;
        }
        assert entries[start..i + 1] == entries[start..i] + [entries[i]];
        assert Tagged(entries[start..i + 1], added) == Tagged(entries[start..i], added) + [x];
      }
      assert entries[start..|entries|] == entries[start..];
      return Ok(());
    }

    method ReconcileEntries(p: seq<Entry>, c: seq<Entry>) returns (r: Result<(), ReconciliationError>)
      requires changes == [] && kept == 0
      modifies this
      ensures if |Diff(p, c)| > maxChanges
              then r == Err(ChangeLimitExceeded)
              else r == Ok(()) && changes == Diff(p, c) && kept == Unchanged(p, c)
    {
      hide LexLess, Diff, Unchanged;
      var i, j := 0, 0;
      assert p[0..] == p && c[0..] == c;
      while i < |p| && j < |c|
        invariant i <= |p| && j <= |c|
        invariant changes + Diff(p[i..], c[j..]) == Diff(p, c)
        invariant kept + Unchanged(p[i..], c[j..]) == Unchanged(p, c)
        invariant |changes| <= maxChanges
        decreases |p| - i + |c| - j
      {
        StepAt(p, c, i, j);
        var step;
        if LexLess(p[i].path, c[j].path) {
          step := Push(Removed(p[i]));
          i := i + 1;
        } else if LexLess(c[j].path, p[i].path) {
          step := Push(Added(c[j]));
          j := j + 1;
        } else {
          step := ReconcileEqualPath(p[i], c[j]);
          i, j := i + 1, j + 1;
        }
        if step.Err? {
          return step;
        }
      }
      Leftover(p, c, i, j);
      r := AppendRemaining(p, i, false);
      if r.Err? {
        return;
      }
      r := AppendRemaining(c, j, true);
    }
  }

  method ReconcileSourceManifests(p: seq<Entry>, c: seq<Entry>, hints: seq<Octets>, limits: Limits)
    returns (r: Result<Reconciled, ReconciliationError>)
    requires Increasing(p) && Increasing(c)
    ensures r == Reconcile(p, c, hints, limits)
    ensures |hints| <= limits.maxHints ==>
      if |Diff(p, c)| > limits.maxChanges then r == Err(ChangeLimitExceeded)
      else r.Ok? && r.value.changes == Diff(p, c) && r.value.kept == Unchanged(p, c)
  {
    if |hints| > limits.maxHints {
      return Err(HintLimitExceeded);
    }
    var hinted: set<Octets> := {};
    for i := 0 to |hints|
      invariant hinted == UniqueHints(hints[..i])
    {
      assert hints[..i + 1] == hints[..i] + [hints[i]];
      hinted := hinted + {hints[i]};
    }
    assert hints[..|hints|] == hints;
    var missed := CountUnmatchedHints(hinted, p, c);
    var builder := new Builder(limits.maxChanges);
    var step := builder.ReconcileEntries(p, c);
    if step.Err? {
      return Err(step.error);
    }
    return Ok(Reconciled(builder.changes, builder.kept, |hints|, |hinted|, missed));
  }

  /* By the specification alone, hints within the limit affect only the hint counts; the loops meet it above. */
  lemma HintsDoNotMatter(p: seq<Entry>, c: seq<Entry>, hints: seq<Octets>, limits: Limits)
    requires |hints| <= limits.maxHints
    ensures var r, bare := Reconcile(p, c, hints, limits), Reconcile(p, c, [], limits);
      && (r.Ok? <==> bare.Ok?) && (r.Err? ==> r == bare)
      && (r.Ok? ==> r.value.changes == bare.value.changes && r.value.kept == bare.value.kept)
      && (r.Ok? <==> |Diff(p, c)| <= limits.maxChanges)
  {
  }

  // The whole result, said of the manifests alone.

  ghost function Common(p: seq<Entry>, c: seq<Entry>): set<Entry>
  {
    set e | e in p && e in c
  }

  lemma CommonDrop(p: seq<Entry>, c: seq<Entry>)
    requires p != [] && p[0] !in c
    ensures Common(p, c) == Common(p[1..], c) && Common(c, p) == Common(c, p[1..])
  {
    assert forall e :: e in p <==> e == p[0] || e in p[1..];
  }

  lemma CommonBoth(p: seq<Entry>, c: seq<Entry>)
    requires p != [] && c != [] && p[0] !in p[1..] && p[0] !in c[1..] && c[0] !in p[1..]
    ensures |Common(p, c)| == |Common(p[1..], c[1..])| + if p[0] == c[0] then 1 else 0
  {
    assert forall e :: e in p <==> e == p[0] || e in p[1..];
    assert forall e :: e in c <==> e == c[0] || e in c[1..];
    if p[0] == c[0] {
      assert Common(p, c) == Common(p[1..], c[1..]) + {p[0]};
    } else {
      assert Common(p, c) == Common(p[1..], c[1..]);
    }
  }

  lemma BeyondAbsent(e: Entry, path: Octets, s: seq<Entry>)
    requires Beyond(path, s) && e.path == path
    ensures e !in s
  {
    hide LexLess;
    PathLaws();
  }

  /* The entries counted as unchanged are those of both manifests. */
  lemma {:induction false} UnchangedExactly(p: seq<Entry>, c: seq<Entry>)
    requires Increasing(p) && Increasing(c)
    ensures Unchanged(p, c) == |Common(p, c)|
    decreases |p| + |c|
  {
    hide LexLess, Increasing, Beyond, Common;
    if p == [] || c == [] {
      NoCommon(p, c);
    } else {
      TailIncreasing(p);
      TailIncreasing(c);
      if LexLess(p[0].path, c[0].path) {
        FirstBeyond(p[0].path, c);
        BeyondAbsent(p[0], p[0].path, c);
        CommonDrop(p, c);
        UnchangedExactly(p[1..], c);
      } else if LexLess(c[0].path, p[0].path) {
        FirstBeyond(c[0].path, p);
        BeyondAbsent(c[0], c[0].path, p);
        CommonDrop(c, p);
        UnchangedExactly(p, c[1..]);
      } else {
        assert p[0].path == c[0].path by { PathLaws(); }
        BeyondAbsent(p[0], p[0].path, p[1..]);
        BeyondAbsent(p[0], c[0].path, c[1..]);
        BeyondAbsent(c[0], p[0].path, p[1..]);
        CommonBoth(p, c);
        UnchangedExactly(p[1..], c[1..]);
      }
    }
  }

  lemma NoCommon(p: seq<Entry>, c: seq<Entry>)
    requires p == [] || c == []
    ensures Common(p, c) == {}
  {
  }

  /* The paths at which the manifests say different things. */
  ghost function ChangedPaths(p: seq<Entry>, c: seq<Entry>): set<Octets>
  {
    set path | path in Paths(p) + Paths(c) && !exists e :: e in p && e in c && e.path == path
  }

  ghost function PathsOf(changes: seq<Change>): set<Octets>
  {
    set x | x in changes :: PathOf(x)
  }

  lemma {:induction false} OrderedCounts(changes: seq<Change>)
    requires InPathOrder(changes)
    ensures |PathsOf(changes)| == |changes|
  {
    hide LexLess;
    if changes != [] {
      var n := |changes| - 1;
      var init, x := changes[..n], changes[n];
      OrderedCounts(init);
      PathLaws();
      forall y | y in init ensures PathOf(y) != PathOf(x) {
        var i :| 0 <= i < n && init[i] == y;
        assert LexLess(PathOf(changes[i]), PathOf(changes[n]));
      }
      assert changes == init + [x];
      assert PathsOf(changes) == PathsOf(init) + {PathOf(x)};
    }
  }

  lemma {:induction false} DiffersAt(p: seq<Entry>, c: seq<Entry>, path: Octets)
    requires Increasing(p) && Increasing(c)
    ensures path in ChangedPaths(p, c) <==> exists x :: Differs(p, c, x) && PathOf(x) == path
  {
    hide LexLess, Increasing;
    if path in ChangedPaths(p, c) {
      if !HasPath(p, path) {
        var e :| e in c && e.path == path;
        assert Differs(p, c, Added(e));
      } else if !HasPath(c, path) {
        var e :| e in p && e.path == path;
        assert Differs(p, c, Removed(e));
      } else {
        var a :| a in p && a.path == path;
        var b :| b in c && b.path == path;
        assert Differs(p, c, Changed(a, b));
      }
    }
    if x :| Differs(p, c, x) && PathOf(x) == path {
      OneEntry(p, path);
      OneEntry(c, path);
    }
  }

  lemma OneEntry(s: seq<Entry>, path: Octets)
    requires Increasing(s)
    ensures forall a, b :: a in s && b in s && a.path == path == b.path ==> a == b
  {
    hide LexLess;
    PathLaws();
    forall a, b | a in s && b in s && a.path == path == b.path ensures a == b {
      var i, j :| 0 <= i < |s| && s[i] == a && 0 <= j < |s| && s[j] == b;
    }
  }

  lemma {:induction false} DiffSize(p: seq<Entry>, c: seq<Entry>)
    requires Increasing(p) && Increasing(c)
    ensures |Diff(p, c)| == |ChangedPaths(p, c)|
  {
    hide Diff, Increasing, InPathOrder, Differs, ChangedPaths;
    DiffOrdered(p, c);
    OrderedCounts(Diff(p, c));
    forall path ensures path in PathsOf(Diff(p, c)) <==> path in ChangedPaths(p, c) {
      DiffersAt(p, c, path);
      forall x ensures x in Diff(p, c) <==> Differs(p, c, x) {
        DiffExactly(p, c, x);
      }
    }
    assert PathsOf(Diff(p, c)) == ChangedPaths(p, c);
  }

  ghost function UnmatchedHints(hints: seq<Octets>, p: seq<Entry>, c: seq<Entry>): set<Octets>
  {
    set h | h in hints && !HasPath(p, h) && !HasPath(c, h)
  }

  /**
   What reconciliation reports: too many hints, too many changed paths, or else exactly the changes of
   the manifests as maps, in path order, the number of entries in both, and the numbers of hints, of
   different hints, and of hints that neither manifest knows.
   */
  lemma {:induction false} ReconciledExactly(p: seq<Entry>, c: seq<Entry>, hints: seq<Octets>, limits: Limits)
    requires Increasing(p) && Increasing(c)
    ensures var r := Reconcile(p, c, hints, limits);
      && (r == Err(HintLimitExceeded) <==> |hints| > limits.maxHints)
      && (r == Err(ChangeLimitExceeded) <==> |hints| <= limits.maxHints && |ChangedPaths(p, c)| > limits.maxChanges)
      && (r.Ok? ==>
            && (forall x :: x in r.value.changes <==> Differs(p, c, x)) && InPathOrder(r.value.changes)
            && r.value.kept == |Common(p, c)| && r.value.received == |hints| && r.value.unique == |set h | h in hints|
            && r.value.unmatched == |UnmatchedHints(hints, p, c)|)
  {
    hide Diff, Unchanged, Increasing, Differs, ChangedPaths, InPathOrder;
    DiffSize(p, c);
    DiffOrdered(p, c);
    UnchangedExactly(p, c);
    forall x ensures x in Diff(p, c) <==> Differs(p, c, x) {
      DiffExactly(p, c, x);
    }
    assert Unmatched(UniqueHints(hints), p, c) == UnmatchedHints(hints, p, c);
  }
}
