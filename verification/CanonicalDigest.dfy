/**
 Preimages of the canonical digests of artifact keys, artifact payloads and source manifests. SHA-256
 is left out: equal preimages have equal digests, and here equal preimages come only from equal values.
 */
module CanonicalDigest {
  import opened Results
  import opened Bytes
  import opened Preimage

  type Digest32 = d: Octets | |d| == 32 witness seq(32, _ => 0)

  const ROOT: Octets := Ascii("RepoWitness") + [0]

  function Domain(name: Octets): Octets
  {
    ROOT + name + [0]
  }

  const KEY_DOMAIN: Octets := Domain(Ascii("analysis-artifact-key"))
  const PAYLOAD_DOMAIN: Octets := Domain(Ascii("analysis-artifact-payload"))
  const MANIFEST_DOMAIN: Octets := Domain(Ascii("source-manifest"))
  const KEY_VERSION: nat := 1
  const MANIFEST_VERSION: nat := 1
  const PAYLOAD_VERSION: nat := 3
  const PROFILE_ID: Octets := Ascii("rust-name-elided")
  const PROFILE_VERSION: nat := 1

  // Artifact keys.

  datatype ArtifactKey = ArtifactKey(
    source: Digest32, analyzer: Digest32, configuration: Digest32, schema: Digest32, canonicalization: nat)

  function KeyPreimage(key: ArtifactKey): Octets
  {
    KEY_DOMAIN + Number(KEY_VERSION, 2,
      key.source + (key.analyzer + (key.configuration + (key.schema + Number(key.canonicalization, 4, [])))))
  }

  lemma {:induction false} KeyInjective(x: ArtifactKey, y: ArtifactKey)
    requires x.canonicalization < U32 && y.canonicalization < U32
    ensures KeyPreimage(x) == KeyPreimage(y) <==> x == y
  {
    hide Number;
    Widths();
    if KeyPreimage(x) == KeyPreimage(y) {
      var a4, b4 := Number(x.canonicalization, 4, []), Number(y.canonicalization, 4, []);
      var a3, b3 := x.schema + a4, y.schema + b4;
      var a2, b2 := x.configuration + a3, y.configuration + b3;
      var a1, b1 := x.analyzer + a2, y.analyzer + b2;
      var a0, b0 := x.source + a1, y.source + b1;
      FixedFirst(KEY_DOMAIN, KEY_DOMAIN, Number(KEY_VERSION, 2, a0), Number(KEY_VERSION, 2, b0));
      NumberFirst(KEY_VERSION, KEY_VERSION, 2, a0, b0);
      FixedFirst(x.source, y.source, a1, b1);
      FixedFirst(x.analyzer, y.analyzer, a2, b2);
      FixedFirst(x.configuration, y.configuration, a3, b3);
      FixedFirst(x.schema, y.schema, a4, b4);
      NumberFirst(x.canonicalization, y.canonicalization, 4, [], []);
    }
  }

  method FeedArtifactKey(key: ArtifactKey) returns (preimage: Octets)
    ensures preimage == KeyPreimage(key)
  {
    hide Number;
    var hasher := new Hasher();
    assert hasher.fed + KeyPreimage(key) == KeyPreimage(key);
    hasher.Update(KEY_DOMAIN);
    hasher.UpdateNumber(KEY_VERSION, 2);
    hasher.Update(key.source);
    hasher.Update(key.analyzer);
    hasher.Update(key.configuration);
    hasher.Update(key.schema);
    hasher.UpdateNumber(key.canonicalization, 4);
    assert hasher.fed + [] == hasher.fed;
    return hasher.fed;
  }

  // Source manifests.

  datatype FileKind = Regular | SymbolicLink | Gitlink | Other

  datatype FileEntry = FileEntry(path: Octets, kind: FileKind, content: Digest32)

  function Tag(kind: FileKind): Byte
  {
    match kind
    case Regular => 1
    case SymbolicLink => 2
    case Gitlink => 3
    case Other => 4
  }

  function EntryFields(e: FileEntry, rest: Octets): Octets
  {
    Prefixed(e.path, [Tag(e.kind)] + (e.content + rest))
  }

  function EntryList(entries: seq<FileEntry>): Octets
  {
    if entries == [] then [] else EntryFields(entries[0], EntryList(entries[1..]))
  }

  function ManifestPreimage(entries: seq<FileEntry>): Octets
  {
    MANIFEST_DOMAIN + Number(MANIFEST_VERSION, 2, Number(|entries|, 8, EntryList(entries)))
  }

  lemma EntryFirst(x: FileEntry, y: FileEntry, a: Octets, b: Octets)
    requires |x.path| < U64 && |y.path| < U64 && EntryFields(x, a) == EntryFields(y, b)
    ensures x == y && a == b
  {
    hide Prefixed;
    PrefixedFirst(x.path, y.path, [Tag(x.kind)] + (x.content + a), [Tag(y.kind)] + (y.content + b));
    FixedFirst([Tag(x.kind)], [Tag(y.kind)], x.content + a, y.content + b);
    FixedFirst(x.content, y.content, a, b);
    assert [Tag(x.kind)][0] == [Tag(y.kind)][0];
  }

  ghost predicate Addressable(entries: seq<FileEntry>)
  {
    |entries| < U64 && forall e :: e in entries ==> |e.path| < U64
  }

  lemma {:induction false} EntriesFirst(x: seq<FileEntry>, y: seq<FileEntry>)
    requires |x| == |y| && EntryList(x) == EntryList(y)
    requires (forall e :: e in x ==> |e.path| < U64) && (forall e :: e in y ==> |e.path| < U64)
    ensures x == y
  {
    hide EntryFields;
    if x != [] {
      assert x[0] in x && y[0] in y;
      EntryFirst(x[0], y[0], EntryList(x[1..]), EntryList(y[1..]));
      EntriesFirst(x[1..], y[1..]);
      assert x == [x[0]] + x[1..] && y == [y[0]] + y[1..];
    }
  }

  /* Manifests with equal preimages are equal. */
  lemma {:induction false} ManifestInjective(x: seq<FileEntry>, y: seq<FileEntry>)
    requires Addressable(x) && Addressable(y)
    ensures ManifestPreimage(x) == ManifestPreimage(y) <==> x == y
  {
    hide Number, EntryList;
    Widths();
    if ManifestPreimage(x) == ManifestPreimage(y) {
      var a, b := Number(|x|, 8, EntryList(x)), Number(|y|, 8, EntryList(y));
      FixedFirst(MANIFEST_DOMAIN, MANIFEST_DOMAIN, Number(MANIFEST_VERSION, 2, a), Number(MANIFEST_VERSION, 2, b));
      NumberFirst(MANIFEST_VERSION, MANIFEST_VERSION, 2, a, b);
      NumberFirst(|x|, |y|, 8, EntryList(x), EntryList(y));
      EntriesFirst(x, y);
    }
  }

  method FeedEntry(hasher: Hasher, e: FileEntry)
    modifies hasher
    ensures forall rest: Octets {:trigger old(hasher.fed) + EntryFields(e, rest)} ::
      old(hasher.fed) + EntryFields(e, rest) == hasher.fed + rest
  {
    hide Prefixed;
    hasher.UpdatePrefixed(e.path);
    hasher.Update([Tag(e.kind)]);
    hasher.Update(e.content);
  }

  method FeedSourceManifest(entries: seq<FileEntry>) returns (preimage: Octets)
    ensures preimage == ManifestPreimage(entries)
  {
    hide Number, EntryFields;
    var hasher := new Hasher();
    assert hasher.fed + ManifestPreimage(entries) == ManifestPreimage(entries);
    hasher.Update(MANIFEST_DOMAIN);
    hasher.UpdateNumber(MANIFEST_VERSION, 2);
    hasher.UpdateNumber(|entries|, 8);
    assert entries[0..] == entries;
    for i := 0 to |entries|
      invariant fresh(hasher) && hasher.fed + EntryList(entries[i..]) == ManifestPreimage(entries)
    {
      assert entries[i..][1..] == entries[i + 1..];
      FeedEntry(hasher, entries[i]);
    }
    assert hasher.fed + [] == hasher.fed;
    return hasher.fed;
  }

  // Artifact payloads.

  datatype SymbolKind =
    | Function | Method | Struct | Enum | Union | Trait | Module | TypeAlias | Constant | Static | Macro
    | Interface | DefinedType | Variable | Class

  datatype Fingerprint = Fingerprint(declaration: Digest32, nameElided: Digest32)

  datatype Fact = Fact(
    kind: SymbolKind, name: Octets, qualified: Octets,
    nameStart: nat, nameEnd: nat, start: nat, end: nat, correspondence: Option<Fingerprint>)

  datatype SourceAnalysis = SourceAnalysis(facts: seq<Fact>, visited: nat, errors: nat, limitations: nat)

  function KindText(k: SymbolKind): string
  {
    match k
    case Function => "function"
    case Method => "method"
    case Struct => "struct"
    case Enum => "enum"
    case Union => "union"
    case Trait => "trait"
    case Module => "module"
    case TypeAlias => "type_alias"
    case Constant => "constant"
    case Static => "static"
    case Macro => "macro"
    case Interface => "interface"
    case DefinedType => "defined_type"
    case Variable => "variable"
    case Class => "class"
  }

  /* Length and first three letters tell the spellings apart. */
  function Signature(k: SymbolKind): (nat, string)
  {
    match k
    case Function => (8, "fun")
    case Method => (6, "met")
    case Struct => (6, "str")
    case Enum => (4, "enu")
    case Union => (5, "uni")
    case Trait => (5, "tra")
    case Module => (6, "mod")
    case TypeAlias => (10, "typ")
    case Constant => (8, "con")
    case Static => (6, "sta")
    case Macro => (5, "mac")
    case Interface => (9, "int")
    case DefinedType => (12, "def")
    case Variable => (8, "var")
    case Class => (5, "cla")
  }

  lemma KindSigned(k: SymbolKind)
    ensures |KindText(k)| == Signature(k).0 && |KindText(k)| >= |Signature(k).1| == 3
    ensures forall i :: 0 <= i < 3 ==> KindText(k)[i] == Signature(k).1[i]
  {
    var text, three := KindText(k), Signature(k).1;
    assert text[0] == three[0] && text[1] == three[1] && text[2] == three[2];
  }

  function Spelling(k: SymbolKind): (octets: Octets)
    ensures |octets| == |KindText(k)| < 16
  {
    var text := KindText(k);
    Ascii(text)
  }

  lemma SignatureTells(x: SymbolKind, y: SymbolKind)
    requires Signature(x).0 == Signature(y).0
    requires forall i :: 0 <= i < 3 ==> i < |Signature(x).1| && i < |Signature(y).1| && Signature(x).1[i] == Signature(y).1[i]
    ensures x == y
  {
    var a, b := Signature(x).1, Signature(y).1;
    assert a[0] == b[0] && a[1] == b[1] && a[2] == b[2];
  }

  lemma {:induction false} SpellingInjective(x: SymbolKind, y: SymbolKind)
    requires Spelling(x) == Spelling(y)
    ensures x == y
  {
    hide KindText, Signature;
    var a, b := KindText(x), KindText(y);
    KindSigned(x);
    KindSigned(y);
    forall i | 0 <= i < 3 ensures Signature(x).1[i] == Signature(y).1[i] {
      assert Spelling(x)[i] == a[i] as int && Spelling(y)[i] == b[i] as int;
    }
    SignatureTells(x, y);
  }

  /* Present or absent correspondence digests; only written when some fact has them. */
  function Digests(c: Option<Fingerprint>, rest: Octets): Octets
  {
    match c
    case Some(f) => [1] + (f.declaration + (f.nameElided + rest))
    case None => [0] + rest
  }

  function FactSpans(f: Fact, rest: Octets): Octets
  {
    Number(f.nameStart, 8, Number(f.nameEnd, 8, Number(f.start, 8, Number(f.end, 8, rest))))
  }

  function FactFields(f: Fact, ordinal: nat, marked: bool, rest: Octets): Octets
  {
    Number(ordinal, 8, Prefixed(Spelling(f.kind), Prefixed(f.name, Prefixed(f.qualified,
      FactSpans(f, if marked then Digests(f.correspondence, rest) else rest)))))
  }

  function FactList(facts: seq<Fact>, ordinal: nat, marked: bool): Octets
  {
    if facts == [] then [] else FactFields(facts[0], ordinal, marked, FactList(facts[1..], ordinal + 1, marked))
  }

  predicate Marked(facts: seq<Fact>)
  {
    exists f :: f in facts && f.correspondence.Some?
  }

  function Counts(a: SourceAnalysis, rest: Octets): Octets
  {
    Number(a.visited, 4, Number(a.errors, 4, Number(a.limitations, 4, Number(|a.facts|, 8, rest))))
  }

  function PayloadBody(a: SourceAnalysis): Octets
  {
    var marked := Marked(a.facts);
    var body := Counts(a, FactList(a.facts, 0, marked));
    if marked then Prefixed(PROFILE_ID, Number(PROFILE_VERSION, 4, body)) else body
  }

  function PayloadPreimage(a: SourceAnalysis): Octets
  {
    PAYLOAD_DOMAIN + Number(PAYLOAD_VERSION, 4, PayloadBody(a))
  }

  ghost predicate FactFits(f: Fact)
  {
    |f.name| < U64 && |f.qualified| < U64 && f.nameStart < U64 && f.nameEnd < U64 && f.start < U64 && f.end < U64
  }

  /* What `try_from_parts` accepts, in the widths of the source: at least one node was visited. */
  ghost predicate Accepted(a: SourceAnalysis)
  {
    && 0 < a.visited < U32 && a.limitations <= a.errors <= a.visited && |a.facts| < U32
    && forall f :: f in a.facts ==> FactFits(f)
  }

  lemma DigestsFirst(x: Option<Fingerprint>, y: Option<Fingerprint>, a: Octets, b: Octets)
    requires Digests(x, a) == Digests(y, b)
    ensures x == y && a == b
  {
    assert Digests(x, a)[0] == Digests(y, b)[0];
    match x
    case None =>
      FixedFirst([0], [0], a, b);
    case Some(f) =>
      var g := y.value;
      FixedFirst([1], [1], f.declaration + (f.nameElided + a), g.declaration + (g.nameElided + b));
      FixedFirst(f.declaration, g.declaration, f.nameElided + a, g.nameElided + b);
      FixedFirst(f.nameElided, g.nameElided, a, b);
  }

  lemma SpansFirst(x: Fact, y: Fact, a: Octets, b: Octets)
    requires FactFits(x) && FactFits(y) && FactSpans(x, a) == FactSpans(y, b)
    ensures x.nameStart == y.nameStart && x.nameEnd == y.nameEnd && x.start == y.start && x.end == y.end && a == b
  {
    hide Number;
    Widths();
    var a3, b3 := Number(x.end, 8, a), Number(y.end, 8, b);
    var a2, b2 := Number(x.start, 8, a3), Number(y.start, 8, b3);
    var a1, b1 := Number(x.nameEnd, 8, a2), Number(y.nameEnd, 8, b2);
    NumberFirst(x.nameStart, y.nameStart, 8, a1, b1);
    NumberFirst(x.nameEnd, y.nameEnd, 8, a2, b2);
    NumberFirst(x.start, y.start, 8, a3, b3);
    NumberFirst(x.end, y.end, 8, a, b);
  }

  lemma {:induction false} FactFirst(x: Fact, y: Fact, ordinal: nat, marked: bool, a: Octets, b: Octets)
    requires FactFits(x) && FactFits(y) && ordinal < U64 && FactFields(x, ordinal, marked, a) == FactFields(y, ordinal, marked, b)
    requires marked || (x.correspondence.None? && y.correspondence.None?)
    ensures x == y && a == b
  {
    hide Number, Prefixed, FactSpans, Spelling, Digests;
    Widths();
    var a4, b4 := if marked then Digests(x.correspondence, a) else a, if marked then Digests(y.correspondence, b) else b;
    var a3, b3 := FactSpans(x, a4), FactSpans(y, b4);
    var a2, b2 := Prefixed(x.qualified, a3), Prefixed(y.qualified, b3);
    var a1, b1 := Prefixed(x.name, a2), Prefixed(y.name, b2);
    NumberFirst(ordinal, ordinal, 8, Prefixed(Spelling(x.kind), a1), Prefixed(Spelling(y.kind), b1));
    PrefixedFirst(Spelling(x.kind), Spelling(y.kind), a1, b1);
    SpellingInjective(x.kind, y.kind);
    PrefixedFirst(x.name, y.name, a2, b2);
    PrefixedFirst(x.qualified, y.qualified, a3, b3);
    SpansFirst(x, y, a4, b4);
    if marked {
      DigestsFirst(x.correspondence, y.correspondence, a, b);
    }
  }

  lemma {:induction false} FactsFirst(x: seq<Fact>, y: seq<Fact>, ordinal: nat, marked: bool)
    requires |x| == |y| && ordinal + |x| < U64 && FactList(x, ordinal, marked) == FactList(y, ordinal, marked)
    requires forall f :: f in x || f in y ==> FactFits(f) && (marked || f.correspondence.None?)
    ensures x == y
  {
    hide FactFields, FactFits;
    if x != [] {
      assert x[0] in x && y[0] in y;
      FactFirst(x[0], y[0], ordinal, marked, FactList(x[1..], ordinal + 1, marked), FactList(y[1..], ordinal + 1, marked));
      FactsFirst(x[1..], y[1..], ordinal + 1, marked);
      assert x == [x[0]] + x[1..] && y == [y[0]] + y[1..];
    }
  }

  lemma CountsFirst(x: SourceAnalysis, y: SourceAnalysis, a: Octets, b: Octets)
    requires Accepted(x) && Accepted(y) && Counts(x, a) == Counts(y, b)
    ensures x.visited == y.visited && x.errors == y.errors && x.limitations == y.limitations && |x.facts| == |y.facts| && a == b
  {
    hide Number;
    Widths();
    var a3, b3 := Number(|x.facts|, 8, a), Number(|y.facts|, 8, b);
    var a2, b2 := Number(x.limitations, 4, a3), Number(y.limitations, 4, b3);
    var a1, b1 := Number(x.errors, 4, a2), Number(y.errors, 4, b2);
    NumberFirst(x.visited, y.visited, 4, a1, b1);
    NumberFirst(x.errors, y.errors, 4, a2, b2);
    NumberFirst(x.limitations, y.limitations, 4, a3, b3);
    NumberFirst(|x.facts|, |y.facts|, 8, a, b);
  }

  /* A 64-bit number below 2^32 starts like the 32-bit number 0. */
  lemma SmallStartsZero(value: nat, rest: Octets)
    requires value < U32
    ensures Number(value, 8, rest) == Number(0, 4, Number(value, 4, rest))
  {
    HighDigits(value);
    assert BigEndian(value, 8) == BigEndian(0, 4) + BigEndian(value, 4);
  }

  lemma HighDigits(value: nat)
    requires value < U32
    ensures ToDigits(value, 256, 8) == ToDigits(0, 256, 4) + ToDigits(value, 256, 4)
  {
    var v1 := value / 256;
    var v2 := v1 / 256;
    var v3 := v2 / 256;
    assert v3 / 256 == 0;
    assert ToDigits(value, 256, 8) == ToDigits(v1, 256, 7) + [value % 256];
    assert ToDigits(v1, 256, 7) == ToDigits(v2, 256, 6) + [v1 % 256];
    assert ToDigits(v2, 256, 6) == ToDigits(v3, 256, 5) + [v2 % 256];
    assert ToDigits(v3, 256, 5) == ToDigits(0, 256, 4) + [v3 % 256];
    assert ToDigits(value, 256, 4) == ToDigits(v1, 256, 3) + [value % 256];
    assert ToDigits(v1, 256, 3) == ToDigits(v2, 256, 2) + [v1 % 256];
    assert ToDigits(v2, 256, 2) == ToDigits(v3, 256, 1) + [v2 % 256];
    assert ToDigits(v3, 256, 1) == ToDigits(v3 / 256, 256, 0) + [v3 % 256];
  }

  /* The layouts with and without correspondence never coincide: one would have visited no node. */
  lemma {:induction false} LayoutsDiffer(x: SourceAnalysis, y: SourceAnalysis)
    requires Accepted(x) && Accepted(y) && Marked(x.facts) && !Marked(y.facts)
    ensures PayloadBody(x) != PayloadBody(y)
  {
    hide Number, FactList, Marked;
    if PayloadBody(x) == PayloadBody(y) {
      var inner := PROFILE_ID + Number(PROFILE_VERSION, 4, Counts(x, FactList(x.facts, 0, true)));
      SmallStartsZero(|PROFILE_ID|, inner);
      Widths();
      var rest := Number(y.errors, 4, Number(y.limitations, 4, Number(|y.facts|, 8, FactList(y.facts, 0, false))));
      NumberFirst(0, y.visited, 4, Number(|PROFILE_ID|, 4, inner), rest);
    }
  }

  /* Over all accepted analyses, of either layout, equal preimages come from equal analyses. */
  lemma {:induction false} PayloadInjective(x: SourceAnalysis, y: SourceAnalysis)
    requires Accepted(x) && Accepted(y)
    ensures PayloadPreimage(x) == PayloadPreimage(y) <==> x == y
  {
    hide Number, FactList, Counts, PayloadBody;
    Widths();
    if PayloadPreimage(x) == PayloadPreimage(y) {
      FixedFirst(PAYLOAD_DOMAIN, PAYLOAD_DOMAIN, Number(PAYLOAD_VERSION, 4, PayloadBody(x)), Number(PAYLOAD_VERSION, 4, PayloadBody(y)));
      NumberFirst(PAYLOAD_VERSION, PAYLOAD_VERSION, 4, PayloadBody(x), PayloadBody(y));
      BodyInjective(x, y);
    }
  }

  lemma {:induction false} BodyInjective(x: SourceAnalysis, y: SourceAnalysis)
    requires Accepted(x) && Accepted(y) && PayloadBody(x) == PayloadBody(y)
    ensures x == y
  {
    hide Number, FactList, Counts, FactFits, Prefixed;
    if Marked(x.facts) && !Marked(y.facts) {
      LayoutsDiffer(x, y);
    } else if !Marked(x.facts) && Marked(y.facts) {
      LayoutsDiffer(y, x);
    } else {
      var marked := Marked(x.facts);
      var p, q := FactList(x.facts, 0, marked), FactList(y.facts, 0, marked);
      if marked {
        Widths();
        PrefixedFirst(PROFILE_ID, PROFILE_ID, Number(PROFILE_VERSION, 4, Counts(x, p)), Number(PROFILE_VERSION, 4, Counts(y, q)));
        NumberFirst(PROFILE_VERSION, PROFILE_VERSION, 4, Counts(x, p), Counts(y, q));
      }
      CountsFirst(x, y, p, q);
      FactsFirst(x.facts, y.facts, 0, marked);
    }
  }

  method FeedFact(hasher: Hasher, f: Fact, ordinal: nat, marked: bool)
    modifies hasher
    ensures forall rest: Octets {:trigger old(hasher.fed) + FactFields(f, ordinal, marked, rest)} ::
      old(hasher.fed) + FactFields(f, ordinal, marked, rest) == hasher.fed + rest
  {
    hide Number, Prefixed, FactSpans, Spelling, Digests;
    hasher.UpdateNumber(ordinal, 8);
    hasher.UpdatePrefixed(Spelling(f.kind));
    hasher.UpdatePrefixed(f.name);
    hasher.UpdatePrefixed(f.qualified);
    FeedSpans(hasher, f);
    if marked {
      FeedDigests(hasher, f.correspondence);
    }
  }

  method FeedSpans(hasher: Hasher, f: Fact)
    modifies hasher
    ensures forall rest: Octets {:trigger old(hasher.fed) + FactSpans(f, rest)} ::
      old(hasher.fed) + FactSpans(f, rest) == hasher.fed + rest
  {
    hide Number;
    hasher.UpdateNumber(f.nameStart, 8);
    hasher.UpdateNumber(f.nameEnd, 8);
    hasher.UpdateNumber(f.start, 8);
    hasher.UpdateNumber(f.end, 8);
  }

  method FeedDigests(hasher: Hasher, c: Option<Fingerprint>)
    modifies hasher
    ensures forall rest: Octets {:trigger old(hasher.fed) + Digests(c, rest)} ::
      old(hasher.fed) + Digests(c, rest) == hasher.fed + rest
  {
    match c
    case Some(f) =>
      hasher.Update([1]);
      hasher.Update(f.declaration);
      hasher.Update(f.nameElided);
    case None =>
      hasher.Update([0]);
  }

  method FeedCounts(hasher: Hasher, a: SourceAnalysis)
    modifies hasher
    ensures forall rest: Octets {:trigger old(hasher.fed) + Counts(a, rest)} ::
      old(hasher.fed) + Counts(a, rest) == hasher.fed + rest
  {
    hide Number;
    hasher.UpdateNumber(a.visited, 4);
    hasher.UpdateNumber(a.errors, 4);
    hasher.UpdateNumber(a.limitations, 4);
    hasher.UpdateNumber(|a.facts|, 8);
  }

  method FeedArtifactPayload(a: SourceAnalysis) returns (preimage: Octets)
    ensures preimage == PayloadPreimage(a)
  {
    hide Number, Prefixed, FactFields, Counts;
    var hasher := new Hasher();
    var marked := Marked(a.facts);
    assert hasher.fed + PayloadPreimage(a) == PayloadPreimage(a);
    hasher.Update(PAYLOAD_DOMAIN);
    hasher.UpdateNumber(PAYLOAD_VERSION, 4);
    if marked {
      hasher.UpdatePrefixed(PROFILE_ID);
      hasher.UpdateNumber(PROFILE_VERSION, 4);
    }
    FeedCounts(hasher, a);
    assert a.facts[0..] == a.facts;
    for i := 0 to |a.facts|
      invariant fresh(hasher) && hasher.fed + FactList(a.facts[i..], i, marked) == PayloadPreimage(a)
    {
      assert a.facts[i..][1..] == a.facts[i + 1..];
      FeedFact(hasher, a.facts[i], i, marked);
    }
    assert hasher.fed + [] == hasher.fed;
    return hasher.fed;
  }

  // Domains.

  lemma DomainAt(name: Octets, rest: Octets, i: nat)
    requires i < |name|
    ensures |ROOT| == 12 && (Domain(name) + rest)[12 + i] == name[i]
  {
    var text := "RepoWitness";
    assert |text| == 11;
  }

  lemma DomainsApart(a: Octets, b: Octets, x: Octets, y: Octets, i: nat)
    requires i < |a| && i < |b| && a[i] != b[i]
    ensures Domain(a) + x != Domain(b) + y
  {
    hide Domain;
    DomainAt(a, x, i);
    DomainAt(b, y, i);
  }

  lemma Names()
    ensures var k, p, m := Ascii("analysis-artifact-key"), Ascii("analysis-artifact-payload"), Ascii("source-manifest");
      |k| > 18 && |p| > 18 && |m| > 0 && k[18] != p[18] && k[0] != m[0] && p[0] != m[0]
  {
    var k, p, m := "analysis-artifact-key", "analysis-artifact-payload", "source-manifest";
    assert k[18] == 'k' && p[18] == 'p' && k[0] == p[0] == 'a' && m[0] == 's';
  }

  /* No key, payload or manifest shares a preimage with another sort of value. */
  lemma DomainsSeparate(key: ArtifactKey, a: SourceAnalysis, entries: seq<FileEntry>)
    ensures KeyPreimage(key) != PayloadPreimage(a)
    ensures KeyPreimage(key) != ManifestPreimage(entries)
    ensures PayloadPreimage(a) != ManifestPreimage(entries)
  {
    hide Number, Domain, PayloadBody, EntryList, Ascii;
    Names();
    var k, p, m := Ascii("analysis-artifact-key"), Ascii("analysis-artifact-payload"), Ascii("source-manifest");
    var k1 := Number(KEY_VERSION, 2,
      key.source + (key.analyzer + (key.configuration + (key.schema + Number(key.canonicalization, 4, [])))));
    var p1 := Number(PAYLOAD_VERSION, 4, PayloadBody(a));
    var m1 := Number(MANIFEST_VERSION, 2, Number(|entries|, 8, EntryList(entries)));
    DomainsApart(k, p, k1, p1, 18);
    DomainsApart(k, m, k1, m1, 0);
    DomainsApart(p, m, p1, m1, 0);
  }
}
