/**
 Package scopes: the whole repository, or up to 64 explicit roots none of which contains another.
 */
module PackageScope {
  import opened Results
  import opened Bytes
  import opened Sorting
  import opened Preimage
  import opened RepositoryPaths

  const MAX_ROOTS: nat := 64
  const DOMAIN: Octets := Ascii("RepoWitness") + [0] + Ascii("package-scope") + [0]
  const SCOPE_VERSION: nat := 1
  const PATH_VERSION: nat := 1

  datatype ScopeError = EmptyExplicitRoots | RootLimitExceeded | DuplicateRoot | OverlappingRoots

  /* `None` is the whole repository. */
  datatype Scope = Scope(roots: Option<seq<Octets>>)

  predicate RootOrder(a: Octets, b: Octets)
  {
    LexLessOrEqual(a, b)
  }

  /* `root_contains`, on octets. */
  predicate RootContains(root: Octets, path: Octets)
  {
    path == root || (root <= path && |root| < |path| && path[|root|] == SLASH)
  }

  predicate Contains(scope: Scope, path: Octets)
  {
    scope.roots.None? || exists root :: root in scope.roots.value && RootContains(root, path)
  }

  // Containment is about components.

  lemma {:induction false} JoinConcat(x: seq<Octets>, y: seq<Octets>)
    requires x != [] && y != []
    ensures Join(x + y) == Join(x) + ([SLASH] + Join(y))
  {
    if |x| == 1 {
      assert (x + y)[1..] == y;
    } else {
      JoinConcat(x[1..], y);
      assert (x + y)[1..] == x[1..] + y;
      assert x[0] + ([SLASH] + (Join(x[1..]) + ([SLASH] + Join(y)))) == (x[0] + ([SLASH] + Join(x[1..]))) + ([SLASH] + Join(y));
    }
  }

  /* A root contains exactly the paths whose components start with its own. */
  lemma {:induction false} ContainsIsPrefix(root: Octets, path: Octets)
    ensures RootContains(root, path) <==> Components(root) <= Components(path)
  {
    hide Components, Join;
    var r, p := Components(root), Components(path);
    JoinComponents(root);
    JoinComponents(path);
    if RootContains(root, path) && path != root {
      var rest := path[|root| + 1..];
      assert path == root + ([SLASH] + rest);
      ComponentsConcat(root, rest);
    }
    if r <= p && r != p {
      var rest := p[|r|..];
      assert p == r + rest;
      JoinConcat(r, rest);
    }
  }

  // Accepted roots.

  /* No root contains another; in particular no root occurs twice. */
  ghost predicate Antichain(roots: seq<Octets>)
  {
    forall i, j :: 0 <= i < |roots| && 0 <= j < |roots| && i != j ==> !RootContains(roots[i], roots[j])
  }

  /* The check of one pair, earlier root first. */
  function PairError(prior: Octets, root: Octets): Option<ScopeError>
  {
    if prior == root then Some(DuplicateRoot) else if RootContains(prior, root) then Some(OverlappingRoots) else None
  }

  function PriorError(roots: seq<Octets>, root: Octets): Option<ScopeError>
  {
    if roots == [] then None
    else
      var n := |roots| - 1;
      var earlier := PriorError(roots[..n], root);
      if earlier.Some? then earlier else PairError(roots[n], root)
  }

  /* `validate_canonical_roots`: each root against the earlier ones only. */
  function CanonicalError(roots: seq<Octets>): Option<ScopeError>
  {
    if roots == [] then None
    else
      var n := |roots| - 1;
      var earlier := CanonicalError(roots[..n]);
      if earlier.Some? then earlier else PriorError(roots[..n], roots[n])
  }

  function TryExplicitRoots(roots: seq<Octets>): Result<Scope, ScopeError>
  {
    if roots == [] then Err(EmptyExplicitRoots)
    else if |roots| > MAX_ROOTS then Err(RootLimitExceeded)
    else
      var sorted := Sort(roots, RootOrder);
      match CanonicalError(sorted)
      case Some(e) => Err(e)
      case None => Ok(Scope(Some(sorted)))
  }

  lemma {:induction false} PriorExactly(roots: seq<Octets>, root: Octets)
    ensures PriorError(roots, root).None? <==> forall i :: 0 <= i < |roots| ==> !RootContains(roots[i], root)
  {
    hide RootContains;
    if roots != [] {
      var n := |roots| - 1;
      PriorExactly(roots[..n], root);
      assert forall i :: 0 <= i < n ==> roots[..n][i] == roots[i];
      assert PairError(roots[n], root).None? <==> !RootContains(roots[n], root) by { PairExactly(roots[n], root); }
    }
  }

  lemma PairExactly(prior: Octets, root: Octets)
    ensures PairError(prior, root).None? <==> !RootContains(prior, root)
  {
  }

  lemma {:induction false} EarlierExactly(roots: seq<Octets>)
    ensures CanonicalError(roots).None? <==> forall i, j :: 0 <= i < j < |roots| ==> !RootContains(roots[i], roots[j])
  {
    hide RootContains, PriorError;
    if roots != [] {
      var n := |roots| - 1;
      EarlierExactly(roots[..n]);
      PriorExactly(roots[..n], roots[n]);
      assert forall i :: 0 <= i < n ==> roots[..n][i] == roots[i];
    }
  }

  /* A later root in octet order never contains an earlier one. */
  lemma LaterNeverContains(earlier: Octets, later: Octets)
    requires LexLessOrEqual(earlier, later) && RootContains(later, earlier)
    ensures earlier == later
  {
    hide LexLess;
    if earlier != later {
      LexPrefix(later, earlier);
      LexTrichotomy(earlier, later);
    }
  }

  /* So comparing with earlier roots is enough. */
  lemma {:induction false} EarlierSuffices(roots: seq<Octets>)
    requires Sorted(roots, RootOrder)
    ensures CanonicalError(roots).None? <==> Antichain(roots)
  {
    hide RootContains, CanonicalError, LexLess;
    EarlierExactly(roots);
    if CanonicalError(roots).None? {
      forall i, j | 0 <= i < |roots| && 0 <= j < |roots| && i != j ensures !RootContains(roots[i], roots[j]) {
        if j < i && RootContains(roots[i], roots[j]) {
          assert RootOrder(roots[j], roots[i]);
          LaterNeverContains(roots[j], roots[i]);
        }
      }
    }
  }

  lemma RootOrderTotal()
    ensures TotalOrder(RootOrder)
    ensures forall a: Octets, b: Octets :: RootOrder(a, b) && RootOrder(b, a) ==> a == b
  {
    hide LexLess;
    forall a: Octets, b: Octets ensures RootOrder(a, b) || RootOrder(b, a) {
      LexTrichotomy(a, b);
    }
    forall a: Octets, b: Octets | RootOrder(a, b) && RootOrder(b, a) ensures a == b {
      LexTrichotomy(a, b);
    }
    forall a: Octets, b: Octets, c: Octets | RootOrder(a, b) && RootOrder(b, c) ensures RootOrder(a, c) {
      if a != b && b != c {
        LexTransitive(a, b, c);
      }
    }
  }

  /* The result, error included, depends only on which roots were given. */
  lemma {:induction false} ScopeIgnoresOrder(p: seq<Octets>, q: seq<Octets>)
    requires multiset(p) == multiset(q)
    ensures TryExplicitRoots(p) == TryExplicitRoots(q)
  {
    hide CanonicalError, RootOrder;
    assert |p| == |multiset(p)| == |multiset(q)| == |q|;
    RootOrderTotal();
    SortIgnoresOrder(p, q, RootOrder);
  }

  /* At most one copy of each root, and no two different roots that contain one another. */
  ghost predicate Independent(roots: multiset<Octets>)
  {
    && (forall a :: a in roots ==> roots[a] == 1)
    && (forall a, b :: a in roots && b in roots && a != b ==> !RootContains(a, b))
  }

  lemma {:induction false} AntichainCounts(roots: seq<Octets>)
    ensures Antichain(roots) <==> Independent(multiset(roots))
  {
    hide RootContains;
    var all := multiset(roots);
    assert forall a :: a in roots <==> a in all;
    if Antichain(roots) {
      forall a | a in roots ensures all[a] == 1 {
        OneCopy(roots, a);
      }
    }
    if Independent(all) {
      forall i, j | 0 <= i < |roots| && 0 <= j < |roots| && i != j ensures !RootContains(roots[i], roots[j]) {
        assert roots[i] in all && roots[j] in all;
        if roots[i] == roots[j] {
          TwoCopies(roots, i, j);
        }
      }
    }
  }

  lemma OneCopy(roots: seq<Octets>, a: Octets)
    requires Antichain(roots) && a in roots
    ensures multiset(roots)[a] == 1
  {
    assert RootContains(a, a);
    forall i, j | 0 <= i < j < |roots| ensures roots[i] != roots[j] {
      assert !RootContains(roots[i], roots[j]);
    }
    DistinctCount(roots, a);
  }

  lemma TwoCopies(roots: seq<Octets>, i: nat, j: nat)
    requires i < |roots| && j < |roots| && i != j && roots[i] == roots[j]
    ensures multiset(roots)[roots[i]] >= 2
  {
    var lo, hi := if i < j then i else j, if i < j then j else i;
    assert roots == roots[..lo] + [roots[lo]] + roots[lo + 1..hi] + [roots[hi]] + roots[hi + 1..];
  }

  /* Accepted exactly when there are 1 to 64 roots that form an antichain; all of them are kept, sorted. */
  lemma {:induction false} ScopeExactly(roots: seq<Octets>)
    ensures TryExplicitRoots(roots).Ok? <==> 0 < |roots| <= 64 && Antichain(roots)
    ensures TryExplicitRoots(roots).Ok? ==>
      var s := TryExplicitRoots(roots).value.roots;
      s.Some? && Antichain(s.value) && Sorted(s.value, RootOrder) && multiset(s.value) == multiset(roots)
  {
    hide CanonicalError, RootContains, RootOrder, Antichain;
    var s := Sort(roots, RootOrder);
    RootOrderTotal();
    SortSorted(roots, RootOrder);
    EarlierSuffices(s);
    AntichainCounts(s);
    AntichainCounts(roots);
  }

  ghost predicate Twice(roots: seq<Octets>)
  {
    exists i, j :: 0 <= i < j < |roots| && roots[i] == roots[j]
  }

  /* One of two different roots contains the other. */
  ghost predicate Nested(roots: seq<Octets>)
  {
    exists a, b :: a in roots && b in roots && a != b && RootContains(a, b)
  }

  lemma {:induction false} PriorHonest(roots: seq<Octets>, root: Octets)
    ensures PriorError(roots, root) == Some(DuplicateRoot) ==> root in roots
    ensures PriorError(roots, root) == Some(OverlappingRoots) ==> exists prior :: prior in roots && prior != root && RootContains(prior, root)
    ensures PriorError(roots, root).Some? ==> PriorError(roots, root).value in {DuplicateRoot, OverlappingRoots}
  {
    hide RootContains;
    if roots != [] {
      PriorHonest(roots[..|roots| - 1], root);
    }
  }

  lemma {:induction false} CanonicalHonest(roots: seq<Octets>)
    ensures CanonicalError(roots) == Some(DuplicateRoot) ==> Twice(roots)
    ensures CanonicalError(roots) == Some(OverlappingRoots) ==> Nested(roots)
    ensures CanonicalError(roots).Some? ==> CanonicalError(roots).value in {DuplicateRoot, OverlappingRoots}
  {
    hide RootContains, PriorError;
    if roots != [] {
      var n := |roots| - 1;
      CanonicalHonest(roots[..n]);
      PriorHonest(roots[..n], roots[n]);
      assert forall a :: a in roots[..n] ==> a in roots;
      assert roots[n] in roots;
    }
  }

  /* Two copies of a root are two positions, in any order of the roots. */
  lemma {:induction false} TwicePermuted(p: seq<Octets>, q: seq<Octets>)
    requires multiset(p) == multiset(q) && Twice(p)
    ensures Twice(q)
  {
    var i, j :| 0 <= i < j < |p| && p[i] == p[j];
    TwoCopies(p, i, j);
    if !Twice(q) {
      DistinctCount(q, p[i]);
    }
  }

  /**
   Why roots are refused: none, more than 64, a root given twice, or a root inside another one. When only
   one of the last two is the case, that is the error.
   */
  lemma {:induction false} ScopeRefusesExactly(roots: seq<Octets>)
    ensures TryExplicitRoots(roots) == Err(EmptyExplicitRoots) <==> roots == []
    ensures TryExplicitRoots(roots) == Err(RootLimitExceeded) <==> |roots| > 64
    ensures TryExplicitRoots(roots) == Err(DuplicateRoot) ==> Twice(roots)
    ensures TryExplicitRoots(roots) == Err(OverlappingRoots) ==> Nested(roots)
    ensures 0 < |roots| <= 64 && Twice(roots) && !Nested(roots) ==> TryExplicitRoots(roots) == Err(DuplicateRoot)
    ensures 0 < |roots| <= 64 && !Twice(roots) && Nested(roots) ==> TryExplicitRoots(roots) == Err(OverlappingRoots)
  {
    hide RootContains, CanonicalError, RootOrder, Sorted;
    var s := Sort(roots, RootOrder);
    SameElements(s, roots);
    CanonicalHonest(s);
    if Twice(s) {
      TwicePermuted(s, roots);
    }
    ScopeExactly(roots);
    OffendingExactly(roots);
  }

  lemma OffendingExactly(roots: seq<Octets>)
    ensures Antichain(roots) <==> !Twice(roots) && !Nested(roots)
  {
    hide RootContains;
    assert forall a :: RootContains(a, a) by { SelfContained(); }
  }

  lemma SelfContained()
    ensures forall a: Octets :: RootContains(a, a)
  {
  }

  /* A path lies in at most one root of an antichain. */
  lemma {:induction false} OneRootContains(roots: seq<Octets>, path: Octets, i: nat, j: nat)
    requires Antichain(roots) && i < |roots| && j < |roots|
    requires RootContains(roots[i], path) && RootContains(roots[j], path)
    ensures i == j
  {
    hide RootContains, Components;
    ContainsIsPrefix(roots[i], path);
    ContainsIsPrefix(roots[j], path);
    ContainsIsPrefix(roots[i], roots[j]);
    ContainsIsPrefix(roots[j], roots[i]);
  }

  /* What a scope selects, in components. */
  lemma {:induction false} ContainsExactly(scope: Scope, path: Octets)
    ensures Contains(scope, path) <==>
      scope.roots.None? || exists root :: root in scope.roots.value && Components(root) <= Components(path)
  {
    hide RootContains, Components;
    if scope.roots.Some? {
      forall root | root in scope.roots.value ensures RootContains(root, path) <==> Components(root) <= Components(path) {
        ContainsIsPrefix(root, path);
      }
    }
  }

  // The semantic identity.

  function RootList(roots: seq<Octets>): Octets
  {
    if roots == [] then [] else Prefixed(roots[0], RootList(roots[1..]))
  }

  function ScopeFields(scope: Scope): Octets
  {
    match scope.roots
    case None => [0] + Number(0, 8, [])
    case Some(roots) => [1] + Number(|roots|, 8, RootList(roots))
  }

  function ScopePreimage(scope: Scope): Octets
  {
    DOMAIN + Number(SCOPE_VERSION, 2, Number(PATH_VERSION, 2, ScopeFields(scope)))
  }

  ghost predicate Addressable(scope: Scope)
  {
    scope.roots.Some? ==> |scope.roots.value| < U64 && forall root :: root in scope.roots.value ==> |root| < U64
  }

  lemma {:induction false} RootsFirst(x: seq<Octets>, y: seq<Octets>)
    requires |x| == |y| && RootList(x) == RootList(y) && forall r :: r in x || r in y ==> |r| < U64
    ensures x == y
  {
    hide Prefixed;
    if x != [] {
      assert x[0] in x && y[0] in y;
      PrefixedFirst(x[0], y[0], RootList(x[1..]), RootList(y[1..]));
      RootsFirst(x[1..], y[1..]);
      assert x == [x[0]] + x[1..] && y == [y[0]] + y[1..];
    }
  }

  lemma {:induction false} FieldsInjective(x: Scope, y: Scope)
    requires Addressable(x) && Addressable(y) && ScopeFields(x) == ScopeFields(y)
    ensures x == y
  {
    hide Number, RootList;
    assert ScopeFields(x)[0] == ScopeFields(y)[0];
    if x.roots.Some? {
      var a, b := x.roots.value, y.roots.value;
      FixedFirst([1], [1], Number(|a|, 8, RootList(a)), Number(|b|, 8, RootList(b)));
      Widths();
      NumberFirst(|a|, |b|, 8, RootList(a), RootList(b));
      RootsFirst(a, b);
    }
  }

  /* Scopes with equal preimages are equal. */
  lemma {:induction false} ScopeInjective(x: Scope, y: Scope)
    requires Addressable(x) && Addressable(y)
    ensures ScopePreimage(x) == ScopePreimage(y) <==> x == y
  {
    hide Number, ScopeFields;
    if ScopePreimage(x) == ScopePreimage(y) {
      Widths();
      var a, b := Number(PATH_VERSION, 2, ScopeFields(x)), Number(PATH_VERSION, 2, ScopeFields(y));
      FixedFirst(DOMAIN, DOMAIN, Number(SCOPE_VERSION, 2, a), Number(SCOPE_VERSION, 2, b));
      NumberFirst(SCOPE_VERSION, SCOPE_VERSION, 2, a, b);
      NumberFirst(PATH_VERSION, PATH_VERSION, 2, ScopeFields(x), ScopeFields(y));
      FieldsInjective(x, y);
    }
  }

  /* For accepted roots the identity is that of the set of roots, however they were listed. */
  lemma {:induction false} IdentityOfRootSet(p: seq<Octets>, q: seq<Octets>)
    requires TryExplicitRoots(p).Ok? && TryExplicitRoots(q).Ok?
    requires forall r :: r in p || r in q ==> |r| < U64
    ensures ScopePreimage(TryExplicitRoots(p).value) == ScopePreimage(TryExplicitRoots(q).value) <==> multiset(p) == multiset(q)
  {
    hide ScopePreimage, TryExplicitRoots, Antichain, Sorted;
    ScopeExactly(p);
    ScopeExactly(q);
    var x, y := TryExplicitRoots(p).value, TryExplicitRoots(q).value;
    SameElements(x.roots.value, p);
    SameElements(y.roots.value, q);
    assert |x.roots.value| == |multiset(x.roots.value)| == |p| && |y.roots.value| == |multiset(y.roots.value)| == |q|;
    ScopeInjective(x, y);
    if multiset(p) == multiset(q) {
      ScopeIgnoresOrder(p, q);
    }
  }

  // The loops of the source.

  method ValidateCanonicalRoots(roots: seq<Octets>) returns (r: Option<ScopeError>)
    ensures r == CanonicalError(roots)
  {
    hide RootContains, LexLess;
    for i := 0 to |roots|
      invariant CanonicalError(roots[..i]).None?
    {
      assert roots[..i + 1][..i] == roots[..i];
      for j := 0 to i
        invariant PriorError(roots[..i][..j], roots[i]).None?
      {
        assert roots[..i][..j + 1][..j] == roots[..i][..j];
        var prior := roots[j];
        if prior == roots[i] {
          FirstStays(roots, i, j, DuplicateRoot);
          return Some(DuplicateRoot);
        }
        if RootContains(prior, roots[i]) {
          FirstStays(roots, i, j, OverlappingRoots);
          return Some(OverlappingRoots);
        }
      }
      assert roots[..i][..i] == roots[..i];
    }
    assert roots[..|roots|] == roots;
    return None;
  }

  lemma PriorFound(roots: seq<Octets>, root: Octets, j: nat, e: ScopeError)
    requires j < |roots| && PriorError(roots[..j], root).None? && PairError(roots[j], root) == Some(e)
    ensures PriorError(roots, root) == Some(e)
  {
    hide PairError;
    assert roots[..j + 1][..j] == roots[..j];
    assert PriorError(roots[..j + 1], root) == Some(e);
    PriorStays(roots, root, j + 1);
  }

  lemma FirstStays(roots: seq<Octets>, i: nat, j: nat, e: ScopeError)
    requires j < i < |roots| && CanonicalError(roots[..i]).None?
    requires PriorError(roots[..i][..j], roots[i]).None? && PairError(roots[j], roots[i]) == Some(e)
    ensures CanonicalError(roots) == Some(e)
  {
    hide PriorError, PairError;
    PriorFound(roots[..i], roots[i], j, e);
    assert roots[..i + 1][..i] == roots[..i];
    CanonicalStays(roots, i + 1);
  }

  lemma {:induction false} PriorStays(roots: seq<Octets>, root: Octets, k: nat)
    requires k <= |roots| && PriorError(roots[..k], root).Some?
    ensures PriorError(roots, root) == PriorError(roots[..k], root)
    decreases |roots|
  {
    if k == |roots| {
      assert roots[..k] == roots;
    } else {
      var n := |roots| - 1;
      assert roots[..n][..k] == roots[..k];
      PriorStays(roots[..n], root, k);
    }
  }

  lemma {:induction false} CanonicalStays(roots: seq<Octets>, k: nat)
    requires k <= |roots| && CanonicalError(roots[..k]).Some?
    ensures CanonicalError(roots) == CanonicalError(roots[..k])
    decreases |roots|
  {
    if k == |roots| {
      assert roots[..k] == roots;
    } else {
      var n := |roots| - 1;
      assert roots[..n][..k] == roots[..k];
      CanonicalStays(roots[..n], k);
    }
  }

  method BuildExplicitRoots(roots: seq<Octets>) returns (r: Result<Scope, ScopeError>)
    ensures r == TryExplicitRoots(roots)
  {
    hide RootOrder;
    if roots == [] {
      return Err(EmptyExplicitRoots);
    }
    if |roots| > MAX_ROOTS {
      return Err(RootLimitExceeded);
    }
    var sorted := Sort(roots, RootOrder);
    var problem := ValidateCanonicalRoots(sorted);
    if problem.Some? {
      return Err(problem.value);
    }
    return Ok(Scope(Some(sorted)));
  }

  method FeedScope(scope: Scope) returns (preimage: Octets)
    ensures preimage == ScopePreimage(scope)
  {
    hide Number, Prefixed;
    var hasher := new Hasher();
    assert hasher.fed + ScopePreimage(scope) == ScopePreimage(scope);
    hasher.Update(DOMAIN);
    hasher.UpdateNumber(SCOPE_VERSION, 2);
    hasher.UpdateNumber(PATH_VERSION, 2);
    match scope.roots {
    case None =>
      hasher.Update([0]);
      hasher.UpdateNumber(0, 8);
    case Some(roots) =>
      hasher.Update([1]);
      hasher.UpdateNumber(|roots|, 8);
      assert roots[0..] == roots;
      for i := 0 to |roots|
        invariant fresh(hasher) && hasher.fed + RootList(roots[i..]) == ScopePreimage(scope)
      {
        assert roots[i..][1..] == roots[i + 1..];
        hasher.UpdatePrefixed(roots[i]);
      }
    }
    assert hasher.fed + [] == hasher.fed;
    return hasher.fed;
  }
}
