/**
 Repository paths: octets split at slashes into components, with the checks of the path grammar.
 */
module RepositoryPaths {
  import opened Results
  import opened Bytes

  const SLASH: Byte := 47

  datatype PathLimits = PathLimits(maxBytes: nat, maxComponents: nat)

  datatype PathError =
    | ByteLimitExceeded
    | Empty
    | LeadingSlash
    | TrailingSlash
    | ComponentLimitExceeded
    | EmptyComponent
    | ContainsNul
    | CurrentDirectoryComponent
    | ParentDirectoryComponent
    | DotGitComponent

  function Components(s: Octets): (cs: seq<Octets>)
    ensures cs != [] && forall c :: c in cs ==> SLASH !in c
    ensures |cs| <= |s| + 1
  {
    if s == [] then [[]]
    else
      var rest := Components(s[1..]);
      if s[0] == SLASH then [[]] + rest else [[s[0]] + rest[0]] + rest[1..]
  }

  function Join(cs: seq<Octets>): Octets
    requires cs != []
  {
    if |cs| == 1 then cs[0] else cs[0] + ([SLASH] + Join(cs[1..]))
  }

  /* Joining undoes splitting. */
  lemma {:induction false} JoinComponents(s: Octets)
    ensures Join(Components(s)) == s
  {
    if s != [] {
      var rest := Components(s[1..]);
      JoinComponents(s[1..]);
      var cs := Components(s);
      assert s == [s[0]] + s[1..];
      if s[0] == SLASH {
        assert cs[1..] == rest;
        assert [] + ([SLASH] + Join(rest)) == [SLASH] + Join(rest);
      } else if |cs| > 1 {
        assert cs[1..] == rest[1..];
        assert ([s[0]] + rest[0]) + ([SLASH] + Join(rest[1..])) == [s[0]] + (rest[0] + ([SLASH] + Join(rest[1..])));
      }
    }
  }

  lemma FirstOctet(s: Octets)
    requires s != []
    ensures Components(s) == Prepend(s[0], Components(s[1..]))
  {
  }

  /* A first octet goes in front of the first component, or starts a new one. */
  function Prepend(b: Byte, cs: seq<Octets>): seq<Octets>
    requires cs != []
  {
    if b == SLASH then [[]] + cs else [[b] + cs[0]] + cs[1..]
  }

  lemma PrependConcat(b: Byte, x: seq<Octets>, y: seq<Octets>)
    requires x != []
    ensures Prepend(b, x + y) == Prepend(b, x) + y
  {
    assert (x + y)[1..] == x[1..] + y;
  }

  lemma NoOctets()
    ensures Components([]) == [[]]
  {
  }

  lemma {:induction false} ComponentsConcat(a: Octets, b: Octets)
    ensures Components(a + ([SLASH] + b)) == Components(a) + Components(b)
  {
    hide Components;
    var whole := a + ([SLASH] + b);
    FirstOctet(whole);
    if a == [] {
      NoOctets();
      assert whole[1..] == b;
    } else {
      FirstOctet(a);
      ComponentsConcat(a[1..], b);
      assert whole[1..] == a[1..] + ([SLASH] + b);
      PrependConcat(a[0], Components(a[1..]), Components(b));
    }
  }

  lemma {:induction false} OneComponent(c: Octets)
    requires SLASH !in c
    ensures Components(c) == [c]
  {
    if c != [] {
      OneComponent(c[1..]);
      assert c == [c[0]] + c[1..];
    }
  }

  /* Splitting undoes joining. */
  lemma {:induction false} ComponentsJoin(cs: seq<Octets>)
    requires cs != [] && forall c :: c in cs ==> SLASH !in c
    ensures Components(Join(cs)) == cs
  {
    hide Components;
    OneComponent(cs[0]);
    if |cs| == 1 {
      assert cs == [cs[0]];
    } else {
      ComponentsJoin(cs[1..]);
      ComponentsConcat(cs[0], Join(cs[1..]));
      assert cs == [cs[0]] + cs[1..];
    }
  }

  function ComponentError(c: Octets): Option<PathError>
  {
    if c == [] then Some(EmptyComponent)
    else if 0 in c then Some(ContainsNul)
    else if c == [46] then Some(CurrentDirectoryComponent)
    else if c == [46, 46] then Some(ParentDirectoryComponent)
    else if c == [46, 103, 105, 116] then Some(DotGitComponent)
    else None
  }

  /* The component count is limited as components are met. */
  function FirstError(cs: seq<Octets>, limit: nat): Option<PathError>
  {
    if cs == [] then None
    else
      var n := |cs| - 1;
      var earlier := FirstError(cs[..n], limit);
      if earlier.Some? then earlier
      else if |cs| > limit then Some(ComponentLimitExceeded)
      else ComponentError(cs[n])
  }

  function Validate(s: Octets, limits: PathLimits): Option<PathError>
  {
    if |s| > limits.maxBytes then Some(ByteLimitExceeded)
    else if s == [] then Some(Empty)
    else if s[0] == SLASH then Some(LeadingSlash)
    else if s[|s| - 1] == SLASH then Some(TrailingSlash)
    else FirstError(Components(s), limits.maxComponents)
  }

  lemma {:induction false} NoErrors(cs: seq<Octets>, limit: nat)
    ensures FirstError(cs, limit).None? <==> |cs| <= limit && forall c :: c in cs ==> ComponentError(c).None?
  {
    hide ComponentError;
    if cs != [] {
      var n := |cs| - 1;
      NoErrors(cs[..n], limit);
      assert cs == cs[..n] + [cs[n]];
    }
  }

  lemma {:induction false} LastComponent(s: Octets)
    requires s != [] && s[|s| - 1] == SLASH
    ensures Components(s)[|Components(s)| - 1] == []
  {
    if |s| > 1 {
      LastComponent(s[1..]);
      var rest := Components(s[1..]);
      if |rest| == 1 {
        assert rest == [[]];
        JoinComponents(s[1..]);
      }
    }
  }

  /* A component that names a file or directory: no slash, no zero octet, and none of the three reserved names. */
  ghost predicate Good(c: Octets)
  {
    && c != [] && 0 !in c && 0x2F !in c
    && c != Ascii(".") && c != Ascii("..") && c != Ascii(".git")
  }

  /* What each component error says. */
  ghost predicate Wrong(c: Octets, e: PathError)
  {
    match e
    case EmptyComponent => c == []
    case ContainsNul => 0 in c
    case CurrentDirectoryComponent => c == Ascii(".")
    case ParentDirectoryComponent => c == Ascii("..")
    case DotGitComponent => c == Ascii(".git")
    case _ => false
  }

  lemma Reserved()
    ensures Ascii(".") == [46] && Ascii("..") == [46, 46] && Ascii(".git") == [46, 103, 105, 116]
  {
    assert "."[0] == '.' && ".."[0] == '.' && ".."[1] == '.';
    assert ".git"[0] == '.' && ".git"[1] == 'g' && ".git"[2] == 'i' && ".git"[3] == 't';
  }

  lemma ComponentExactly(c: Octets, e: PathError)
    requires SLASH !in c
    ensures ComponentError(c).None? <==> Good(c)
    ensures ComponentError(c) == Some(e) <==> Wrong(c, e)
  {
    Reserved();
  }

  /* A path is valid exactly when it is made of at most so many good components, joined by slashes, and not too long. */
  lemma {:induction false} ValidExactly(s: Octets, limits: PathLimits)
    ensures Validate(s, limits).None? <==>
      && |s| <= limits.maxBytes
      && exists cs :: 0 < |cs| <= limits.maxComponents && s == Join(cs) && forall c :: c in cs ==> Good(c)
  {
    hide ComponentError, FirstError, Components, Join;
    assert Validate(s, limits).None? <==> |s| <= limits.maxBytes && FirstError(Components(s), limits.maxComponents).None? by {
      ShapeImplied(s, limits);
    }
    NoErrors(Components(s), limits.maxComponents);
    forall c | c in Components(s) ensures ComponentError(c).None? <==> Good(c) {
      ComponentExactly(c, Empty);
    }
    JoinComponents(s);
    if cs :| 0 < |cs| <= limits.maxComponents && s == Join(cs) && forall c :: c in cs ==> Good(c) {
      assert forall c :: c in cs ==> SLASH !in c;
      ComponentsJoin(cs);
    }
  }

  /* The checks of the shape only choose the error: a bad shape has an empty component. */
  lemma ShapeImplied(s: Octets, limits: PathLimits)
    ensures Validate(s, limits).None? <==> |s| <= limits.maxBytes && FirstError(Components(s), limits.maxComponents).None?
  {
    hide FirstError;
    NoErrors(Components(s), limits.maxComponents);
    var cs := Components(s);
    if s == [] || s[0] == SLASH {
      assert cs[0] == [] && cs[0] in cs;
    } else if s[|s| - 1] == SLASH {
      LastComponent(s);
      assert cs[|cs| - 1] in cs;
    }
  }

  /* The first component that is one too many or not good decides the error. */
  ghost predicate FirstWrong(cs: seq<Octets>, limit: nat, k: nat, e: PathError)
  {
    && k < |cs| && k <= limit && (forall i :: 0 <= i < k ==> Good(cs[i]))
    && if k == limit then e == ComponentLimitExceeded else Wrong(cs[k], e)
  }

  lemma {:induction false} FirstErrorExactly(cs: seq<Octets>, limit: nat, e: PathError)
    requires forall c :: c in cs ==> SLASH !in c
    ensures FirstError(cs, limit) == Some(e) <==> exists k :: FirstWrong(cs, limit, k, e)
  {
    hide ComponentError, Wrong, Good;
    if cs != [] {
      var n := |cs| - 1;
      var init := cs[..n];
      assert cs == init + [cs[n]];
      FirstErrorExactly(init, limit, e);
      NoErrors(init, limit);
      forall c | c in cs ensures (ComponentError(c).None? <==> Good(c)) && (ComponentError(c) == Some(e) <==> Wrong(c, e)) {
        ComponentExactly(c, e);
      }
      assert forall k :: 0 <= k < n ==> (FirstWrong(cs, limit, k, e) <==> FirstWrong(init, limit, k, e));
      if FirstError(init, limit).None? {
        assert FirstError(cs, limit) == Some(e) <==> FirstWrong(cs, limit, n, e);
      } else {
        FirstErrorSome(init, limit);
      }
    }
  }

  /* Some component is the first wrong one. */
  lemma {:induction false} FirstErrorSome(cs: seq<Octets>, limit: nat)
    requires (forall c :: c in cs ==> SLASH !in c) && FirstError(cs, limit).Some?
    ensures exists k, e :: FirstWrong(cs, limit, k, e)
  {
    FirstErrorExactly(cs, limit, FirstError(cs, limit).value);
  }

  /* A component of the path is the first wrong one, and wrong in this way. */
  ghost predicate SomeWrong(cs: seq<Octets>, limit: nat, e: PathError)
  {
    exists k :: FirstWrong(cs, limit, k, e)
  }

  /* Why a path is refused, for every path and each error. */
  lemma {:induction false} RefusedExactly(s: Octets, limits: PathLimits, e: PathError)
    ensures Validate(s, limits) == Some(e) <==>
      if |s| > limits.maxBytes then e == ByteLimitExceeded
      else if s == [] then e == Empty
      else if s[0] == 0x2F then e == LeadingSlash
      else if s[|s| - 1] == 0x2F then e == TrailingSlash
      else SomeWrong(Components(s), limits.maxComponents, e)
  {
    hide FirstError, FirstWrong;
    FirstErrorExactly(Components(s), limits.maxComponents, e);
  }
}
