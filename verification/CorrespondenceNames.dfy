/**
 Names, containers and the name-elided fingerprint of a declaration.
 */
module CorrespondenceNames {
  import opened Results
  import opened Bytes
  import opened Preimage
  import opened CanonicalDigest
  import Utf8

  type Text = seq<Utf8.Scalar>

  const MAX_NAME: nat := 256
  const MAX_QUALIFIED: nat := 1_024
  const SEPARATOR: Text := [58, 58]

  datatype CorrespondenceError = InvalidOccurrence | CandidateLimitExceeded | InvalidCandidateCount | DuplicateCandidate

  predicate IsControl(c: Utf8.Scalar)
  {
    c < 0x20 || 0x7F <= c <= 0x9F
  }

  predicate Plain(text: Text, limit: nat)
  {
    text != [] && |Utf8.Encode(text)| <= limit && forall c :: c in text ==> !IsControl(c)
  }

  function StripSuffix(text: Text, suffix: Text): (r: Option<Text>)
  {
    if |suffix| <= |text| && text[|text| - |suffix|..] == suffix then Some(text[..|text| - |suffix|]) else None
  }

  /* `validate_names`: the container, empty when the qualified name is the name. */
  function Container(name: Text, qualified: Text): Result<Text, CorrespondenceError>
  {
    if !Plain(name, MAX_NAME) || !Plain(qualified, MAX_QUALIFIED) then Err(InvalidOccurrence)
    else if qualified == name then Ok([])
    else match StripSuffix(qualified, name)
      case None => Err(InvalidOccurrence)
      case Some(prefix) =>
        match StripSuffix(prefix, SEPARATOR)
        case None => Err(InvalidOccurrence)
        case Some(container) => if container == [] then Err(InvalidOccurrence) else Ok(container)
  }

  lemma StripExactly(text: Text, suffix: Text, rest: Text)
    ensures StripSuffix(text, suffix) == Some(rest) <==> text == rest + suffix
  {
    if StripSuffix(text, suffix) == Some(rest) {
      assert text == text[..|text| - |suffix|] + text[|text| - |suffix|..];
    }
  }

  /* How a container and a name are spelled together. */
  function Qualify(container: Text, name: Text): Text
  {
    if container == [] then name else (container + SEPARATOR) + name
  }

  /* Accepted exactly when both names are plain and the qualified one is the container, a separator and the name. */
  lemma {:induction false} ContainerExactly(name: Text, qualified: Text, container: Text)
    ensures Container(name, qualified) == Ok(container) <==>
      Plain(name, MAX_NAME) && Plain(qualified, MAX_QUALIFIED) && qualified == Qualify(container, name)
  {
    hide Plain, StripSuffix;
    if qualified != name {
      StripExactly(qualified, name, container + SEPARATOR);
      StripExactly(container + SEPARATOR, SEPARATOR, container);
      match StripSuffix(qualified, name)
      case None =>
      case Some(prefix) =>
        StripExactly(qualified, name, prefix);
        match StripSuffix(prefix, SEPARATOR)
        case None => StripExactly(prefix, SEPARATOR, container);
        case Some(found) => StripExactly(prefix, SEPARATOR, found);
    }
  }

  /* A qualified name is spelled with two colons after its container. */
  lemma {:induction false} QualifySpelled(container: Text, name: Text)
    ensures Utf8.Encode(Qualify(container, name)) ==
      if container == [] then Utf8.Encode(name) else Utf8.Encode(container) + Ascii("::") + Utf8.Encode(name)
  {
    hide Utf8.Encode;
    Utf8.EncodeConcat(container + SEPARATOR, name);
    Utf8.EncodeConcat(container, SEPARATOR);
    assert Utf8.Encode(SEPARATOR) == Ascii("::") by { SeparatorSpelled(); }
  }

  lemma SeparatorSpelled()
    ensures Utf8.Encode(SEPARATOR) == Ascii("::")
  {
    assert "::"[0] == ':' && "::"[1] == ':';
    assert SEPARATOR[1..] == [58] && SEPARATOR[1..][1..] == [];
  }

  /* A plain text is not empty, not too long, and has no control character, neither of ASCII nor of the block after it. */
  lemma PlainExactly(text: Text, limit: nat)
    ensures Plain(text, limit) <==>
      |text| > 0 && limit >= |Utf8.Encode(text)| && forall c :: c in text ==> 32 <= c < 127 || c >= 160
  {
    hide Utf8.Encode;
  }

  // The fingerprint.

  const ELIDED_DOMAIN: Octets :=
    Ascii("RepoWitness") + [0] + Ascii("rust-correspondence") + [0] + Ascii("name-elided") + [0] + Ascii("v1") + [0]
  const NAME_MARKER: Octets := Ascii("<repowitness-symbol-name>")

  datatype Declaration = Declaration(kind: SymbolKind, name: Text, qualified: Text, nameStart: nat, nameEnd: nat, start: nat, end: nat)

  function ElidedPreimage(kind: SymbolKind, container: Text, before: Octets, after: Octets): Octets
  {
    ELIDED_DOMAIN + Prefixed(Spelling(kind), Prefixed(Utf8.Encode(container), Prefixed(before, Prefixed(NAME_MARKER, Prefixed(after, [])))))
  }

  /* The hashed octets: the declaration itself, and the declaration with its name taken out. */
  datatype Occurrence = Occurrence(declaration: Octets, elided: Octets)

  function FingerprintOf(source: Octets, d: Declaration): Result<Occurrence, CorrespondenceError>
  {
    if !(d.start <= d.end <= |source|) then Err(InvalidOccurrence)
    else if d.nameStart < d.start || d.nameEnd > d.end || d.nameStart > d.nameEnd || source[d.nameStart..d.nameEnd] != Utf8.Encode(d.name)
      then Err(InvalidOccurrence)
    else match Container(d.name, d.qualified)
      case Err(e) => Err(e)
      case Ok(container) =>
        Ok(Occurrence(source[d.start..d.end], ElidedPreimage(d.kind, container, source[d.start..d.nameStart], source[d.nameEnd..d.end])))
  }

  lemma TextInjective(x: Text, y: Text)
    requires Utf8.Encode(x) == Utf8.Encode(y)
    ensures x == y
  {
    hide Utf8.Encode, Utf8.Decode;
    Utf8.DecodeInvertsEncode(x);
    Utf8.DecodeInvertsEncode(y);
  }

  /* Name-elided preimages are equal exactly when kind, container, and the text around the name are. */
  lemma {:induction false} ElidedExactly(k: SymbolKind, c: Text, a: Octets, z: Octets, k': SymbolKind, c': Text, a': Octets, z': Octets)
    requires |Utf8.Encode(c)| < U64 && |a| < U64 && |z| < U64 && |Utf8.Encode(c')| < U64 && |a'| < U64 && |z'| < U64
    ensures ElidedPreimage(k, c, a, z) == ElidedPreimage(k', c', a', z') <==> k == k' && c == c' && a == a' && z == z'
  {
    hide Prefixed, Spelling, Utf8.Encode;
    if ElidedPreimage(k, c, a, z) == ElidedPreimage(k', c', a', z') {
      var p4, q4 := Prefixed(z, []), Prefixed(z', []);
      var p3, q3 := Prefixed(NAME_MARKER, p4), Prefixed(NAME_MARKER, q4);
      var p2, q2 := Prefixed(a, p3), Prefixed(a', q3);
      var p1, q1 := Prefixed(Utf8.Encode(c), p2), Prefixed(Utf8.Encode(c'), q2);
      FixedFirst(ELIDED_DOMAIN, ELIDED_DOMAIN, Prefixed(Spelling(k), p1), Prefixed(Spelling(k'), q1));
      PrefixedFirst(Spelling(k), Spelling(k'), p1, q1);
      SpellingInjective(k, k');
      PrefixedFirst(Utf8.Encode(c), Utf8.Encode(c'), p2, q2);
      TextInjective(c, c');
      PrefixedFirst(a, a', p3, q3);
      MarkerShort();
      PrefixedFirst(NAME_MARKER, NAME_MARKER, p4, q4);
      PrefixedFirst(z, z', [], []);
    }
  }

  lemma MarkerShort()
    ensures |NAME_MARKER| < U64
  {
  }

  /* The declaration stands in the source as `before`, its name, and `after`. */
  ghost predicate Stands(source: Octets, d: Declaration, before: Octets, after: Octets)
  {
    && d.start <= d.nameStart <= d.nameEnd <= d.end <= |source|
    && d.nameStart == d.start + |before| && d.end == d.nameEnd + |after|
    && source[d.start..d.end] == before + Utf8.Encode(d.name) + after
  }

  lemma StandsSplit(source: Octets, d: Declaration)
    requires d.start <= d.nameStart <= d.nameEnd <= d.end <= |source|
    ensures source[d.nameStart..d.nameEnd] == Utf8.Encode(d.name) <==>
      Stands(source, d, source[d.start..d.nameStart], source[d.nameEnd..d.end])
  {
    hide Utf8.Encode;
    var whole, n, m := source[d.start..d.end], d.nameStart - d.start, d.nameEnd - d.start;
    assert whole[..n] == source[d.start..d.nameStart] && whole[n..m] == source[d.nameStart..d.nameEnd] && whole[m..] == source[d.nameEnd..d.end];
    assert whole == whole[..n] + whole[n..m] + whole[m..];
  }

  lemma StandsOnce(source: Octets, d: Declaration, before: Octets, after: Octets)
    requires Stands(source, d, before, after)
    ensures before == source[d.start..d.nameStart] && after == source[d.nameEnd..d.end]
  {
    hide Utf8.Encode;
    var whole := source[d.start..d.end];
    assert before == whole[..|before|] && after == whole[|whole| - |after|..];
  }

  /**
   An occurrence is accepted exactly when the declaration stands in the source with its name in place and
   its names are those of a container. What is hashed is the declaration, and the declaration around its name.
   */
  lemma {:induction false} FingerprintExactly(source: Octets, d: Declaration, o: Occurrence)
    ensures FingerprintOf(source, d) == Ok(o) <==>
      exists before, after, container ::
        && Stands(source, d, before, after)
        && Plain(d.name, 256) && Plain(d.qualified, 1_024) && d.qualified == Qualify(container, d.name)
        && o == Occurrence(before + Utf8.Encode(d.name) + after, ElidedPreimage(d.kind, container, before, after))
    ensures FingerprintOf(source, d).Err? ==> FingerprintOf(source, d) == Err(InvalidOccurrence)
  {
    hide Utf8.Encode, ElidedPreimage, Plain, Qualify, Container;
    assert Container(d.name, d.qualified).Err? ==> Container(d.name, d.qualified) == Err(InvalidOccurrence) by {
      ContainerError(d.name, d.qualified);
    }
    if FingerprintOf(source, d) == Ok(o) {
      var container := Container(d.name, d.qualified).value;
      ContainerExactly(d.name, d.qualified, container);
      StandsSplit(source, d);
      assert Stands(source, d, source[d.start..d.nameStart], source[d.nameEnd..d.end]);
    }
    if before, after, container :|
      && Stands(source, d, before, after)
      && Plain(d.name, 256) && Plain(d.qualified, 1_024) && d.qualified == Qualify(container, d.name)
      && o == Occurrence(before + Utf8.Encode(d.name) + after, ElidedPreimage(d.kind, container, before, after))
    {
      StandsOnce(source, d, before, after);
      StandsSplit(source, d);
      ContainerExactly(d.name, d.qualified, container);
    }
  }

  lemma ContainerError(name: Text, qualified: Text)
    ensures Container(name, qualified).Err? ==> Container(name, qualified) == Err(InvalidOccurrence)
  {
  }

  /* The source with the name of a declaration replaced. */
  function Renamed(source: Octets, d: Declaration, name: Text): Octets
    requires d.nameStart <= d.nameEnd <= |source|
  {
    source[..d.nameStart] + Utf8.Encode(name) + source[d.nameEnd..]
  }

  /* The declaration after its name was replaced, in the same container. */
  function RenamedDeclaration(d: Declaration, container: Text, name: Text): Declaration
    requires d.nameEnd <= d.end
  {
    var nameEnd := d.nameStart + |Utf8.Encode(name)|;
    Declaration(d.kind, name, Qualify(container, name), d.nameStart, nameEnd, d.start, nameEnd + (d.end - d.nameEnd))
  }

  lemma RenamedSlices(source: Octets, d: Declaration, name: Text)
    requires d.start <= d.nameStart <= d.nameEnd <= d.end <= |source|
    ensures var s, end := Renamed(source, d, name), d.nameStart + |Utf8.Encode(name)|;
      && end + (d.end - d.nameEnd) <= |s|
      && s[d.nameStart..end] == Utf8.Encode(name)
      && s[d.start..d.nameStart] == source[d.start..d.nameStart]
      && s[end..end + (d.end - d.nameEnd)] == source[d.nameEnd..d.end]
  {
    SplicedSlices(source[..d.nameStart], Utf8.Encode(name), source[d.nameEnd..], d.start, d.end - d.nameEnd);
    assert source[..d.nameStart][d.start..] == source[d.start..d.nameStart];
    assert source[d.nameEnd..][..d.end - d.nameEnd] == source[d.nameEnd..d.end];
  }

  lemma SplicedSlices(before: Octets, name: Octets, after: Octets, start: nat, length: nat)
    requires start <= |before| && length <= |after|
    ensures var s, end := before + name + after, |before| + |name|;
      && s[|before|..end] == name && s[start..|before|] == before[start..] && s[end..end + length] == after[..length]
  {
  }

  /* Replacing only the name leaves the name-elided preimage as it was. */
  lemma {:induction false} RenameKeepsElided(source: Octets, d: Declaration, container: Text, name: Text)
    requires FingerprintOf(source, d).Ok? && Container(d.name, d.qualified) == Ok(container)
    requires Plain(name, MAX_NAME) && Plain(Qualify(container, name), MAX_QUALIFIED)
    ensures var r := FingerprintOf(Renamed(source, d, name), RenamedDeclaration(d, container, name));
      r.Ok? && r.value.elided == FingerprintOf(source, d).value.elided
  {
    hide Utf8.Encode, Container, ElidedPreimage, Renamed, Plain, Qualify;
    RenamedSlices(source, d, name);
    ContainerExactly(name, Qualify(container, name), container);
  }

  method FeedNameElided(kind: SymbolKind, container: Text, before: Octets, after: Octets) returns (preimage: Octets)
    ensures preimage == ElidedPreimage(kind, container, before, after)
  {
    hide Prefixed, Spelling, Utf8.Encode;
    var hasher := new Hasher();
    assert hasher.fed + ElidedPreimage(kind, container, before, after) == ElidedPreimage(kind, container, before, after);
    hasher.Update(ELIDED_DOMAIN);
    hasher.UpdatePrefixed(Spelling(kind));
    hasher.UpdatePrefixed(Utf8.Encode(container));
    hasher.UpdatePrefixed(before);
    hasher.UpdatePrefixed(NAME_MARKER);
    hasher.UpdatePrefixed(after);
    assert hasher.fed + [] == hasher.fed;
    return hasher.fed;
  }
}
