/**
 The facts of one SCIP document: header, source and position checks, the occurrence pass and the
 relationship pass put together as the importer runs them.
 */
module ScipFacts {
  import opened Results
  import opened Bytes
  import opened WireErrors
  import opened Framing
  import opened ScipPositions
  import opened ScipDocument
  import opened ScipOccurrence
  import opened ScipRelationships
  import RepositoryPaths

  /* What an occurrence message says beside its range. */
  datatype Detail = Detail(symbol: Option<Octets>, roles: nat)

  /**
   What the importer is given: path limits, the source of a path, the check of a source against the
   pinned manifest, and the parsers of the parts of messages that are not modelled.
   */
  datatype Setting = Setting(
    paths: RepositoryPaths.PathLimits,
    lookup: Octets -> Option<Octets>,
    pinned: (Octets, Octets) -> Result<(), WireError>,
    detail: Octets -> Result<Detail, WireError>,
    information: SymbolParser)

  datatype Fact = Fact(span: Span, ordinal: nat, symbol: Option<Octets>, roles: nat)

  datatype Facts = Facts(occurrences: seq<Fact>, owned: nat)

  /* An occurrence with its range in octets. */
  datatype Occurrence = Occurrence(span: Span, detail: Detail)

  /* A document outside the selected source root, or a batch of facts. */
  datatype Staged = External | Batch(occurrences: seq<Fact>, relationships: seq<Relationship>)

  /* `parse_scip_occurrence`, then `validate_scip_source_range`. */
  function ParseOccurrence(setting: Setting, e: PositionEncoding, source: Octets, message: Octets): Result<Occurrence, WireError>
  {
    match ParseRange(message)
    case Err(error) => Err(error)
    case Ok(range) =>
      match setting.detail(message)
      case Err(error) => Err(error)
      case Ok(detail) =>
        match ValidateRange(range, e, source)
        case Err(error) => Err(error)
        case Ok(span) => Ok(Occurrence(span, detail))
  }

  /* The symbol is validated and its octets reserved before the fact is stored. */
  function Store(s: Facts, ordinal: nat, o: Occurrence): Result<Facts, WireError>
  {
    var reserved := if o.detail.symbol.Some? then |o.detail.symbol.value| else 0;
    if o.detail.symbol.Some? && !ValidSymbol(o.detail.symbol.value) then Err(InvalidOccurrence)
    else if o.detail.symbol.Some? && s.owned + reserved > MAX_OWNED_SYMBOL_BYTES then Err(FieldTooLarge)
    else Ok(Facts(s.occurrences + [Fact(o.span, ordinal, o.detail.symbol, o.detail.roles)], s.owned + reserved))
  }

  function Storing(setting: Setting, e: PositionEncoding, source: Octets): Handler<Facts, Occurrence>
  {
    Handler((message: Octets) => ParseOccurrence(setting, e, source, message),
            (s: Facts, ordinal: nat, o: Occurrence) => Store(s, ordinal, o))
  }

  function AdmitPath(setting: Setting, h: Header): Result<Octets, WireError>
  {
    if h.path.None? || RepositoryPaths.Validate(h.path.value, setting.paths).Some? then Err(InvalidDocumentHeader)
    else Ok(h.path.value)
  }

  function AdmitSource(setting: Setting, source: Octets): Header -> Result<(), WireError>
  {
    (h: Header) =>
      match AdmitPath(setting, h)
      case Err(e) => Err(e)
      case Ok(path) => setting.pinned(path, source)
  }

  /* `decode_scip_overlay_document_with_position_encoding`. */
  function DecodeFacts(setting: Setting, e: PositionEncoding, source: Octets, octets: Octets): Result<Staged, WireError>
  {
    match DecodeDocument(octets, AdmitSource(setting, source), Storing(setting, e, source), Facts([], 0))
    case Err(error) => Err(error)
    case Ok(decoded) =>
      match RelationshipsFrom(octets, 0, Collect(setting.information), Collected([], decoded.sink.owned))
      case Err(error) => Err(error)
      case Ok(collected) => Ok(Batch(decoded.sink.occurrences, collected.relationships))
  }

  const PARENT: Octets := [46, 46, 47]
  const GO: Octets := [103, 111]

  /* An omitted encoding is UTF-8 for Go documents of the Go producer, and an error otherwise. */
  function ChosenEncoding(go: bool, h: Header): Option<PositionEncoding>
  {
    if h.encoding.Some? then h.encoding
    else if go && h.language == Some(GO) then Some(Units8)
    else None
  }

  /* The part of `stage` between the ordinal check and the totals. */
  function DecodeStaged(setting: Setting, go: bool, octets: Octets): Result<Staged, WireError>
  {
    match ParseHeader(octets)
    case Err(e) => Err(e)
    case Ok(h) =>
      if go && h.path.Some? && PARENT <= h.path.value then Ok(External)
      else match AdmitPath(setting, h)
        case Err(e) => Err(e)
        case Ok(path) =>
          match setting.lookup(path)
          case None => Err(SourceNotInManifest)
          case Some(source) =>
            match ChosenEncoding(go, h)
            case None => Err(UnsupportedPositionEncoding)
            case Some(encoding) =>
              match DecodeFacts(setting, encoding, source, octets)
              case Err(e) => Err(ConsumerRejected(MapWireError(e)))
              case Ok(staged) => Ok(staged)
  }

  // What a batch holds.

  /* An occurrence message that is taken: its range is one of the source, and its symbol, if any, is valid. */
  ghost predicate Readable(setting: Setting, e: PositionEncoding, source: Octets, message: Octets)
  {
    && ParseRange(message).Ok? && ValidateRange(ParseRange(message).value, e, source).Ok?
    && setting.detail(message).Ok?
    && (setting.detail(message).value.symbol.Some? ==> ValidSymbol(setting.detail(message).value.symbol.value))
  }

  /* The fact says what the message says, with its range in octets of the source. */
  ghost predicate Says(setting: Setting, e: PositionEncoding, source: Octets, message: Octets, fact: Fact, ordinal: nat)
  {
    && Readable(setting, e, source, message)
    && ValidateRange(ParseRange(message).value, e, source) == Ok(fact.span)
    && setting.detail(message) == Ok(Detail(fact.symbol, fact.roles))
    && fact.ordinal == ordinal
  }

  /* The fact of each message, in order, numbered from `first`. */
  ghost predicate Describes(setting: Setting, e: PositionEncoding, source: Octets, messages: seq<Octets>, facts: seq<Fact>, first: nat)
  {
    |facts| == |messages| && forall i :: 0 <= i < |messages| ==> Says(setting, e, source, messages[i], facts[i], first + i)
  }

  /* The octets of the symbols that the messages name. */
  function SymbolOctets(setting: Setting, messages: seq<Octets>): nat
  {
    if messages == [] then 0
    else
      var d := setting.detail(messages[0]);
      (if d.Ok? && d.value.symbol.Some? then |d.value.symbol.value| else 0) + SymbolOctets(setting, messages[1..])
  }

  /* One message is stored exactly when it is readable and the octets fit. */
  lemma {:induction false} StoreExactly(setting: Setting, e: PositionEncoding, source: Octets, s: Facts, message: Octets, ordinal: nat)
    requires s.owned <= MAX_OWNED_SYMBOL_BYTES
    ensures var o := ParseOccurrence(setting, e, source, message);
      var r := if o.Err? then Err(o.error) else Store(s, ordinal, o.value);
      var octets := SymbolOctets(setting, [message]);
      && (r.Ok? <==> Readable(setting, e, source, message) && s.owned + octets <= MAX_OWNED_SYMBOL_BYTES)
      && (o.Ok? && r.Err? ==> r.error == if Readable(setting, e, source, message) then FieldTooLarge else InvalidOccurrence)
      && (r.Ok? ==>
            && r.value.owned == s.owned + octets && |r.value.occurrences| == |s.occurrences| + 1
            && s.occurrences <= r.value.occurrences
            && Says(setting, e, source, message, r.value.occurrences[|s.occurrences|], ordinal))
  {
    hide ParseRange, ValidateRange, ValidSymbol;
    var one: seq<Octets> := [message];
    assert one[1..] == [];
  }

  /* Feeding messages succeeds exactly when all are readable and their symbols fit; then each has its fact. */
  lemma {:induction false} FedFacts(setting: Setting, e: PositionEncoding, source: Octets, s: Facts, messages: seq<Octets>, ordinal: nat)
    requires s.owned <= MAX_OWNED_SYMBOL_BYTES
    ensures var r, octets := FeedOccurrences(Storing(setting, e, source), s, messages, ordinal), SymbolOctets(setting, messages);
      && (r.Ok? <==> (forall m :: m in messages ==> Readable(setting, e, source, m)) && s.owned + octets <= MAX_OWNED_SYMBOL_BYTES)
      && (r.Ok? ==>
            && r.value.owned == s.owned + octets && s.occurrences <= r.value.occurrences
            && Describes(setting, e, source, messages, r.value.occurrences[|s.occurrences|..], ordinal))
    decreases |messages|
  {
    hide ParseOccurrence, Store, Readable, Says;
    if messages != [] {
      StoreExactly(setting, e, source, s, messages[0], ordinal);
      assert SymbolOctets(setting, messages) == SymbolOctets(setting, [messages[0]]) + SymbolOctets(setting, messages[1..]) by {
        var one: seq<Octets> := [messages[0]];
        assert one[1..] == [];
      }
      assert forall m :: m in messages <==> m == messages[0] || m in messages[1..];
      match ParseOccurrence(setting, e, source, messages[0])
      case Err(_) =>
      case Ok(o) =>
        match Store(s, ordinal, o)
        case Err(_) =>
        case Ok(s') =>
          FedFacts(setting, e, source, s', messages[1..], ordinal + 1);
          match FeedOccurrences(Storing(setting, e, source), s', messages[1..], ordinal + 1)
          case Err(_) =>
          case Ok(r) => OneMoreFact(setting, e, source, s, s', messages, r.occurrences, ordinal);
    }
  }

  lemma OneMoreFact(setting: Setting, e: PositionEncoding, source: Octets, s: Facts, s': Facts, messages: seq<Octets>, all: seq<Fact>, ordinal: nat)
    requires messages != [] && |s'.occurrences| == |s.occurrences| + 1 && s.occurrences <= s'.occurrences
    requires Says(setting, e, source, messages[0], s'.occurrences[|s.occurrences|], ordinal)
    requires s'.occurrences <= all && Describes(setting, e, source, messages[1..], all[|s'.occurrences|..], ordinal + 1)
    ensures s.occurrences <= all && Describes(setting, e, source, messages, all[|s.occurrences|..], ordinal)
  {
    hide Says;
    var n := |s.occurrences|;
    var facts, later := all[n..], all[n + 1..];
    assert s'.occurrences[n] == all[n];
    forall i | 0 <= i < |messages| ensures Says(setting, e, source, messages[i], facts[i], ordinal + i) {
      if i > 0 {
        assert messages[i] == messages[1..][i - 1] && facts[i] == later[i - 1];
      }
    }
  }

  /* The occurrence and symbol messages of a document, as many as its header counted. */
  ghost predicate MessagesOf(octets: Octets, h: Header, messages: seq<Octets>, symbols: seq<Octets>)
  {
    && |messages| == h.occurrences <= MAX_DOCUMENT_OCCURRENCES && |symbols| == h.symbols
    && exists fields :: FieldsAt(octets, 0, fields) && messages == Occurrences(fields) && symbols == Symbols(fields)
  }

  /* All messages of the document are acceptable and its totals are within bounds. */
  ghost predicate Importable(setting: Setting, e: PositionEncoding, source: Octets, messages: seq<Octets>, symbols: seq<Octets>)
  {
    var pairs := AllPairs(setting.information, symbols);
    && (forall m :: m in messages ==> Readable(setting, e, source, m))
    && (forall m :: m in symbols ==> Acceptable(setting.information(m)))
    && |pairs| <= MAX_DOCUMENT_RELATIONSHIPS
    && SymbolOctets(setting, messages) + OwnedBy(pairs) <= MAX_OWNED_SYMBOL_BYTES
  }

  /**
   Once the header and the source are accepted, decoding a document succeeds exactly when all its
   messages are acceptable and its totals are within bounds. The batch then has the fact of each
   occurrence message, numbered from zero, and every pair of its symbol messages, in order.
   */
  lemma {:induction false} BatchExactly(setting: Setting, e: PositionEncoding, source: Octets, octets: Octets, h: Header)
    returns (messages: seq<Octets>, symbols: seq<Octets>)
    requires ParseHeader(octets) == Ok(h)
    ensures MessagesOf(octets, h, messages, symbols)
    ensures DecodeFacts(setting, e, source, octets).Ok? <==>
      Pinned(setting, source, h) && Importable(setting, e, source, messages, symbols)
    ensures DecodeFacts(setting, e, source, octets).Ok? ==>
      var b := DecodeFacts(setting, e, source, octets).value;
      && b.Batch? && Describes(setting, e, source, messages, b.occurrences, 0)
      && b.relationships == AllPairs(setting.information, symbols)
  {
    hide ParseHeader, DecodeFrom, RelationshipsFrom, Collect, Storing, Describes, AdmitSource, Importable, MessagesOf, Pinned;
    var owned := OwnedAfter(setting, e, source, octets);
    messages, symbols := PassesAgree(
      octets, h, Storing(setting, e, source), Facts([], 0), Collect(setting.information), Collected([], owned));
    MessagesCounted(octets, h, messages, symbols);
    OccurrencesDecide(setting, e, source, messages);
    if FeedOccurrences(Storing(setting, e, source), Facts([], 0), messages, 0).Ok? {
      assert owned == SymbolOctets(setting, messages) by {
        hide FeedOccurrences, SymbolOctets;
      }
      SymbolsDecide(setting, owned, symbols);
    }
    ImportableParts(setting, e, source, messages, symbols);
    PinnedExactly(setting, source, h);
  }

  /* The path is valid and the source is the one pinned for it. */
  ghost predicate Pinned(setting: Setting, source: Octets, h: Header)
  {
    h.path.Some? && RepositoryPaths.Validate(h.path.value, setting.paths).None? && setting.pinned(h.path.value, source).Ok?
  }

  lemma PinnedExactly(setting: Setting, source: Octets, h: Header)
    ensures AdmitSource(setting, source)(h).Ok? <==> Pinned(setting, source, h)
  {
    var admitted := AdmitPath(setting, h);
    assert admitted.Ok? ==> AdmitSource(setting, source)(h) == setting.pinned(admitted.value, source);
  }

  /* The octets that the occurrence pass hands on to the relationship pass. */
  function OwnedAfter(setting: Setting, e: PositionEncoding, source: Octets, octets: Octets): nat
  {
    match DecodeFrom(octets, 0, Storing(setting, e, source), Decoding(0, Facts([], 0)))
    case Err(_) => 0
    case Ok(decoded) => decoded.sink.owned
  }

  lemma MessagesCounted(octets: Octets, h: Header, messages: seq<Octets>, symbols: seq<Octets>)
    requires ParseHeader(octets) == Ok(h) && |messages| == h.occurrences && |symbols| == h.symbols
    requires exists fields :: FieldsAt(octets, 0, fields) && messages == Occurrences(fields) && symbols == Symbols(fields)
    ensures MessagesOf(octets, h, messages, symbols)
  {
    hide ParseHeader, FieldsAt, Occurrences, Symbols;
    var fields := HeaderSplits(octets, h);
  }

  lemma OccurrencesDecide(setting: Setting, e: PositionEncoding, source: Octets, messages: seq<Octets>)
    ensures var r := FeedOccurrences(Storing(setting, e, source), Facts([], 0), messages, 0);
      && (r.Ok? <==> (forall m :: m in messages ==> Readable(setting, e, source, m)) && SymbolOctets(setting, messages) <= MAX_OWNED_SYMBOL_BYTES)
      && (r.Ok? ==> r.value.owned == SymbolOctets(setting, messages) && Describes(setting, e, source, messages, r.value.occurrences, 0))
  {
    hide FeedOccurrences, Storing, Readable, SymbolOctets, Describes;
    FedFacts(setting, e, source, Facts([], 0), messages, 0);
    match FeedOccurrences(Storing(setting, e, source), Facts([], 0), messages, 0)
    case Err(_) =>
    case Ok(r) => assert r.occurrences[0..] == r.occurrences;
  }

  lemma SymbolsDecide(setting: Setting, owned: nat, symbols: seq<Octets>)
    requires owned <= MAX_OWNED_SYMBOL_BYTES
    ensures var r, pairs := FeedSymbols(Collect(setting.information), Collected([], owned), symbols), AllPairs(setting.information, symbols);
      && (r.Ok? <==>
            && (forall m :: m in symbols ==> Acceptable(setting.information(m)))
            && |pairs| <= MAX_DOCUMENT_RELATIONSHIPS && owned + OwnedBy(pairs) <= MAX_OWNED_SYMBOL_BYTES)
      && (r.Ok? ==> r.value.relationships == pairs)
  {
    hide FeedSymbols, Collect, AllPairs, OwnedBy, Acceptable;
    CollectExactly(setting.information, Collected([], owned), symbols);
    assert [] + AllPairs(setting.information, symbols) == AllPairs(setting.information, symbols);
  }

  lemma ImportableParts(setting: Setting, e: PositionEncoding, source: Octets, messages: seq<Octets>, symbols: seq<Octets>)
    ensures Importable(setting, e, source, messages, symbols) <==>
      && (forall m :: m in messages ==> Readable(setting, e, source, m)) && SymbolOctets(setting, messages) <= MAX_OWNED_SYMBOL_BYTES
      && (forall m :: m in symbols ==> Acceptable(setting.information(m)))
      && |AllPairs(setting.information, symbols)| <= MAX_DOCUMENT_RELATIONSHIPS
      && SymbolOctets(setting, messages) + OwnedBy(AllPairs(setting.information, symbols)) <= MAX_OWNED_SYMBOL_BYTES
  {
    hide Readable, Acceptable, AllPairs, OwnedBy, SymbolOctets;
  }

  lemma {:induction false} StagedWithin(setting: Setting, go: bool, octets: Octets)
    ensures match DecodeStaged(setting, go, octets)
      case Ok(Batch(occurrences, relationships)) =>
        |occurrences| <= MAX_DOCUMENT_OCCURRENCES && |relationships| <= MAX_DOCUMENT_RELATIONSHIPS
      case _ => true
  {
    hide ParseHeader, DecodeFacts, AdmitPath;
    if ParseHeader(octets).Ok? {
      var h := ParseHeader(octets).value;
      if AdmitPath(setting, h).Ok? && setting.lookup(AdmitPath(setting, h).value).Some? && ChosenEncoding(go, h).Some? {
        var source, encoding := setting.lookup(AdmitPath(setting, h).value).value, ChosenEncoding(go, h).value;
        var messages, symbols := BatchExactly(setting, encoding, source, octets, h);
      }
    }
  }

  /**
   What becomes of a document with an accepted header: it is external exactly when the Go producer put
   it above the root; otherwise it is decoded against the source of its valid path, in its own encoding
   or in UTF-8 where a Go document of the Go producer left that out.
   */
  lemma {:induction false} StagedExactly(setting: Setting, go: bool, octets: Octets, h: Header)
    requires ParseHeader(octets) == Ok(h) && h.path.Some?
    ensures DecodeStaged(setting, go, octets) == Ok(External) <==> go && Ascii("../") <= h.path.value
    ensures forall b: Staged :: b.Batch? ==>
      (DecodeStaged(setting, go, octets) == Ok(b) <==>
        && !(go && Ascii("../") <= h.path.value)
        && RepositoryPaths.Validate(h.path.value, setting.paths).None? && setting.lookup(h.path.value).Some?
        && (h.encoding.Some? || (go && h.language == Some(Ascii("go"))))
        && DecodeFacts(setting, if h.encoding.Some? then h.encoding.value else Units8, setting.lookup(h.path.value).value, octets) == Ok(b))
  {
    hide ParseHeader, DecodeFacts, RepositoryPaths.Validate;
    Spelled();
    if AdmitPath(setting, h).Ok? && setting.lookup(h.path.value).Some? && ChosenEncoding(go, h).Some? {
      OnlyBatches(setting, ChosenEncoding(go, h).value, setting.lookup(h.path.value).value, octets);
    }
  }

  /* Why a document inside the root is refused before it is decoded: its path, its source, its encoding. */
  lemma StagedRefused(setting: Setting, go: bool, octets: Octets, h: Header)
    requires ParseHeader(octets) == Ok(h) && h.path.Some? && !(go && Ascii("../") <= h.path.value)
    ensures var valid, found := RepositoryPaths.Validate(h.path.value, setting.paths).None?, setting.lookup(h.path.value).Some?;
      var encoded := h.encoding.Some? || (go && h.language == Some(Ascii("go")));
      && (!valid ==> DecodeStaged(setting, go, octets) == Err(InvalidDocumentHeader))
      && (valid && !found ==> DecodeStaged(setting, go, octets) == Err(SourceNotInManifest))
      && (valid && found && !encoded ==> DecodeStaged(setting, go, octets) == Err(UnsupportedPositionEncoding))
  {
    hide ParseHeader, DecodeFacts, RepositoryPaths.Validate;
    Spelled();
  }

  lemma Spelled()
    ensures PARENT == Ascii("../") && GO == Ascii("go")
  {
    assert "../"[0] == '.' && "../"[1] == '.' && "../"[2] == '/' && "go"[0] == 'g' && "go"[1] == 'o';
  }

  lemma OnlyBatches(setting: Setting, e: PositionEncoding, source: Octets, octets: Octets)
    ensures DecodeFacts(setting, e, source, octets).Ok? ==> DecodeFacts(setting, e, source, octets).value.Batch?
  {
    hide DecodeDocument, RelationshipsFrom;
  }

  // The source's composition of the passes.

  method DecodeOverlayDocument(setting: Setting, e: PositionEncoding, source: Octets, octets: Octets) returns (r: Result<Staged, OverlayError>)
    ensures match DecodeFacts(setting, e, source, octets)
      case Err(error) => r == Err(MapWireError(error))
      case Ok(staged) => r == Ok(staged)
  {
    hide DecodeDocument, RelationshipsFrom, Collect, Storing, AdmitSource;
    var decoded := DecodeScipDocument(octets, AdmitSource(setting, source), Storing(setting, e, source), Facts([], 0));
    if decoded.Err? {
      return Err(MapWireError(decoded.error));
    }
    var collected := DecodeDocumentRelationships(octets, setting.information, decoded.value.sink.owned);
    if collected.Err? {
      return Err(collected.error);
    }
    return Ok(Batch(decoded.value.sink.occurrences, collected.value.relationships));
  }
}
