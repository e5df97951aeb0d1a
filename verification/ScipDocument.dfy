/**
 The three passes over one SCIP document message.

 The header pass checks the framing and counts occurrence and symbol messages; the decode pass and
 the relationship pass then read the same octets again, each with its own field tables and limits,
 and hand occurrence and symbol messages to their callers. The later passes are shown to agree with
 the first: whatever the callers do, they see exactly the messages that were counted.
 */
module ScipDocument {
  import opened Results
  import opened Bytes
  import opened WireErrors
  import opened Framing
  import opened ScipPositions

  const MAX_DOCUMENT_BYTES: nat := 2 * 1024 * 1024
  const MAX_METADATA_BYTES: nat := 64 * 1024
  const MAX_IGNORED_FIELD_BYTES: nat := 1024 * 1024
  const MAX_DOCUMENT_OCCURRENCES: nat := 250_000
  const MAX_DOCUMENT_SYMBOLS: nat := 50_000

  predicate IsOccurrence(f: Field)
  {
    f.number == 2 && f.value.Delimited?
  }

  predicate IsSymbol(f: Field)
  {
    f.number == 3 && f.value.Delimited?
  }

  // Header pass.

  datatype Header = Header(
    path: Option<Octets>, language: Option<Octets>, encoding: Option<PositionEncoding>,
    occurrences: nat, symbols: nat)

  const EMPTY_HEADER: Header := Header(None, None, None, 0, 0)

  function HeaderAdmit(h: Header, number: nat, wire: nat, tagEnd: nat): Admission
  {
    if number in {1, 4} && wire == 2 then Admit(MAX_METADATA_BYTES)
    else if number in {2, 3} && wire == 2 then Admit(MAX_DOCUMENT_BYTES)
    else if number == 6 && wire == 0 then Admit(0)
    else if number <= 6 then Refuse(InvalidDocumentHeader)
    else Admit(MAX_IGNORED_FIELD_BYTES)
  }

  function DecodePositionEncoding(value: nat): Result<PositionEncoding, WireError>
  {
    if value == 1 then Ok(Units8)
    else if value == 2 then Ok(Units16)
    else if value == 3 then Ok(Units32)
    else Err(UnsupportedPositionEncoding)
  }

  function HeaderStep(h: Header, f: Field): Result<Header, WireError>
  {
    if f.number in {1, 4} && f.value.Delimited? then
      if Utf8.Decode(f.value.octets).None? then Err(InvalidUtf8)
      else if f.number == 1 then
        if h.path.Some? then Err(InvalidDocumentHeader) else Ok(h.(path := Some(f.value.octets)))
      else
        if h.language.Some? then Err(InvalidDocumentHeader) else Ok(h.(language := Some(f.value.octets)))
    else if IsOccurrence(f) then
      if h.occurrences + 1 > MAX_DOCUMENT_OCCURRENCES then Err(TooManyDocumentEntries)
      else Ok(h.(occurrences := h.occurrences + 1))
    else if IsSymbol(f) then
      if h.symbols + 1 > MAX_DOCUMENT_SYMBOLS then Err(TooManyDocumentEntries)
      else Ok(h.(symbols := h.symbols + 1))
    else if f.number == 6 && f.value.Number? then
      if f.value.number >= U32 then Err(InvalidDocumentHeader)
      else match DecodePositionEncoding(f.value.number)
        case Err(e) => Err(e)
        case Ok(encoding) =>
          if h.encoding.Some? then Err(InvalidDocumentHeader) else Ok(h.(encoding := Some(encoding)))
    else Ok(h)
  }

  /* `parse_scip_document_header`. */
  function ParseHeader(input: Octets): Result<Header, WireError>
  {
    match Walk(input, 0, HeaderAdmit, HeaderStep, EMPTY_HEADER)
    case Err(e) => Err(e)
    case Ok(h) => if h.path.None? then Err(InvalidDocumentHeader) else Ok(h)
  }

  // Decode pass.

  /* The state of the pass: occurrences so far, and the caller's state. */
  datatype Decoding<C> = Decoding(occurrences: nat, sink: C)

  function DecodeDecision(number: nat, wire: nat): Admission
  {
    if number in {1, 2, 3, 4, 5} && wire == 2 then Admit(MAX_DOCUMENT_BYTES)
    else if number == 6 && wire == 0 then Admit(0)
    else if number <= 6 then Refuse(InvalidDocumentHeader)
    else Admit(MAX_DOCUMENT_BYTES)
  }

  /* What happens to one occurrence: it is parsed and validated, then given to the caller with its ordinal. */
  datatype Handler<!C, !O> = Handler(parse: Octets -> Result<O, WireError>, call: (C, nat, O) -> Result<C, WireError>)

  /* The limit is tested between the two. */
  function DecodeUpdate<C, O>(handler: Handler<C, O>, s: Decoding<C>, f: Field): Result<Decoding<C>, WireError>
  {
    if IsOccurrence(f) then
      match handler.parse(f.value.octets)
      case Err(e) => Err(e)
      case Ok(occurrence) =>
        if s.occurrences + 1 > MAX_DOCUMENT_OCCURRENCES then Err(TooManyDocumentEntries)
        else match handler.call(s.sink, s.occurrences, occurrence)
          case Err(e) => Err(e)
          case Ok(sink) => Ok(Decoding(s.occurrences + 1, sink))
    else Ok(s)
  }

  function DecodeAdmit<C>(): (Decoding<C>, nat, nat, nat) -> Admission
  {
    (s: Decoding<C>, number: nat, wire: nat, tagEnd: nat) => DecodeDecision(number, wire)
  }

  function DecodeStep<C, O>(handler: Handler<C, O>): (Decoding<C>, Field) -> Result<Decoding<C>, WireError>
  {
    (s: Decoding<C>, f: Field) => DecodeUpdate(handler, s, f)
  }

  /* The loop of `decode_scip_document`. */
  function DecodeFrom<C, O>(input: Octets, cursor: nat, handler: Handler<C, O>, s: Decoding<C>): Result<Decoding<C>, WireError>
    requires cursor <= |input|
  {
    Walk(input, cursor, DecodeAdmit(), DecodeStep(handler), s)
  }

  /* `decode_scip_document`; `admitSource` is the check of the path against the pinned manifest. */
  function DecodeDocument<C, O>(input: Octets, admitSource: Header -> Result<(), WireError>, handler: Handler<C, O>, sink: C)
    : Result<Decoding<C>, WireError>
  {
    match ParseHeader(input)
    case Err(e) => Err(e)
    case Ok(h) =>
      match admitSource(h)
      case Err(e) => Err(e)
      case Ok(_) => DecodeFrom(input, 0, handler, Decoding(0, sink))
  }

  // Relationship pass.

  function RelationshipAdmit<C>(): (C, nat, nat, nat) -> Admission
  {
    (s: C, number: nat, wire: nat, tagEnd: nat) => Admit(MAX_DOCUMENT_BYTES)
  }

  function RelationshipStep<C>(handle: (C, Octets) -> Result<C, WireError>): (C, Field) -> Result<C, WireError>
  {
    (s: C, f: Field) => if IsSymbol(f) then handle(s, f.value.octets) else Ok(s)
  }

  /* The loop of `decode_document_relationships`; `handle` parses one symbol message. */
  function RelationshipsFrom<C>(input: Octets, cursor: nat, handle: (C, Octets) -> Result<C, WireError>, s: C): Result<C, WireError>
    requires cursor <= |input|
  {
    Walk(input, cursor, RelationshipAdmit(), RelationshipStep(handle), s)
  }

  // What the callers are promised.

  /* The payloads of the delimited fields with a number, in order. */
  function Payloads(fields: seq<Field>, number: nat): seq<Octets>
  {
    if fields == [] then []
    else if fields[0].number == number && fields[0].value.Delimited? then [fields[0].value.octets] + Payloads(fields[1..], number)
    else Payloads(fields[1..], number)
  }

  function Occurrences(fields: seq<Field>): seq<Octets>
  {
    Payloads(fields, 2)
  }

  function Symbols(fields: seq<Field>): seq<Octets>
  {
    Payloads(fields, 3)
  }

  /* The handler on each occurrence in order, with consecutive ordinals. */
  function FeedOccurrences<C, O>(handler: Handler<C, O>, sink: C, messages: seq<Octets>, ordinal: nat): Result<C, WireError>
    decreases |messages|
  {
    if messages == [] then Ok(sink)
    else match handler.parse(messages[0])
      case Err(e) => Err(e)
      case Ok(occurrence) =>
        match handler.call(sink, ordinal, occurrence)
        case Err(e) => Err(e)
        case Ok(sink') => FeedOccurrences(handler, sink', messages[1..], ordinal + 1)
  }

  function FeedSymbols<C>(handle: (C, Octets) -> Result<C, WireError>, sink: C, messages: seq<Octets>): Result<C, WireError>
  {
    if messages == [] then Ok(sink)
    else match handle(sink, messages[0])
      case Err(e) => Err(e)
      case Ok(sink') => FeedSymbols(handle, sink', messages[1..])
  }

  // Agreement.

  /* The header pass counts the messages. */
  lemma {:induction false} HeaderCounts(fields: seq<Field>, h: Header)
    requires Fold(fields, HeaderStep, h).Ok?
    requires h.occurrences <= MAX_DOCUMENT_OCCURRENCES
    ensures var r := Fold(fields, HeaderStep, h).value;
      && r.occurrences == h.occurrences + |Occurrences(fields)| <= MAX_DOCUMENT_OCCURRENCES
      && r.symbols == h.symbols + |Symbols(fields)|
  {
    if fields != [] {
      HeaderCounts(fields[1..], HeaderStep(h, fields[0]).value);
    }
  }

  lemma {:induction false} DecodeFoldIsFeed<C, O>(fields: seq<Field>, handler: Handler<C, O>, s: Decoding<C>)
    requires s.occurrences + |Occurrences(fields)| <= MAX_DOCUMENT_OCCURRENCES
    ensures Fold(fields, DecodeStep(handler), s) ==
              match FeedOccurrences(handler, s.sink, Occurrences(fields), s.occurrences)
              case Err(e) => Err(e)
              case Ok(sink) => Ok(Decoding(s.occurrences + |Occurrences(fields)|, sink))
  {
    if fields != [] {
      PayloadsFirst(fields, 2);
      assert IsOccurrence(fields[0]) ==> Occurrences(fields)[1..] == Occurrences(fields[1..]);
      match DecodeUpdate(handler, s, fields[0])
      case Err(_) =>
      case Ok(s') => DecodeFoldIsFeed(fields[1..], handler, s');
    }
  }

  lemma {:induction false} RelationshipFoldIsFeed<C>(fields: seq<Field>, handle: (C, Octets) -> Result<C, WireError>, s: C)
    ensures Fold(fields, RelationshipStep(handle), s) == FeedSymbols(handle, s, Symbols(fields))
  {
    if fields != [] {
      PayloadsFirst(fields, 3);
      assert IsSymbol(fields[0]) ==> Symbols(fields)[1..] == Symbols(fields[1..]);
      match RelationshipStep(handle)(s, fields[0])
      case Err(_) =>
      case Ok(s') => RelationshipFoldIsFeed(fields[1..], handle, s');
    }
  }

  /* A field the header pass admits is admitted by the later passes too. */
  lemma LaterPassesAdmit<C(!new), S(!new)>(f: Field, h: Header, at: nat)
    requires Fits(HeaderAdmit(h, f.number, WireType(f.value), at), f.value)
    ensures AlwaysAdmits(DecodeAdmit<C>(), f)
    ensures AlwaysAdmits(RelationshipAdmit<S>(), f)
  {
  }

  lemma HeaderSplits(input: Octets, h: Header) returns (fields: seq<Field>)
    requires ParseHeader(input) == Ok(h)
    ensures FieldsAt(input, 0, fields)
    ensures |Occurrences(fields)| == h.occurrences <= MAX_DOCUMENT_OCCURRENCES
    ensures |Symbols(fields)| == h.symbols
    ensures forall f :: f in fields ==> exists t, at :: Fits(HeaderAdmit(t, f.number, WireType(f.value), at), f.value)
  {
    hide HeaderAdmit, HeaderStep;
    fields := WalkSplits(input, 0, HeaderAdmit, HeaderStep, EMPTY_HEADER);
    HeaderCounts(fields, EMPTY_HEADER);
  }

  /**
   Once the header pass accepts, neither later pass can fail on document framing, on any input and
   for any handlers: the decode pass is its handler fed the occurrence messages with ordinals
   0, 1, 2, ..., as many as the header counted, and the relationship pass is its handler fed the
   symbol messages, as many as the header counted.
   */
  lemma PassesAgree<C(!new), O, S(!new)>(input: Octets, h: Header, onOccurrence: Handler<C, O>, sink: C,
                                         onSymbol: (S, Octets) -> Result<S, WireError>, collected: S)
    returns (occurrences: seq<Octets>, symbols: seq<Octets>)
    requires ParseHeader(input) == Ok(h)
    ensures |occurrences| == h.occurrences && |symbols| == h.symbols
    ensures exists fields :: FieldsAt(input, 0, fields) && occurrences == Occurrences(fields) && symbols == Symbols(fields)
    ensures DecodeFrom(input, 0, onOccurrence, Decoding(0, sink)) ==
              match FeedOccurrences(onOccurrence, sink, occurrences, 0)
              case Err(e) => Err(e)
              case Ok(sink') => Ok(Decoding(h.occurrences, sink'))
    ensures RelationshipsFrom(input, 0, onSymbol, collected) == FeedSymbols(onSymbol, collected, symbols)
  {
    hide ParseHeader, AlwaysAdmits, HeaderAdmit, Walk, Fold;
    var fields := HeaderSplits(input, h);
    occurrences, symbols := Occurrences(fields), Symbols(fields);
    forall f | f in fields ensures AlwaysAdmits(DecodeAdmit<C>(), f) && AlwaysAdmits(RelationshipAdmit<S>(), f) {
      var t, at :| Fits(HeaderAdmit(t, f.number, WireType(f.value), at), f.value);
      LaterPassesAdmit<C, S>(f, t, at);
    }
    WalkIsFold(input, 0, fields, DecodeAdmit(), DecodeStep(onOccurrence), Decoding(0, sink));
    WalkIsFold(input, 0, fields, RelationshipAdmit(), RelationshipStep(onSymbol), collected);
    DecodeFoldIsFeed(fields, onOccurrence, Decoding(0, sink));
    RelationshipFoldIsFeed(fields, onSymbol, collected);
  }

  // What a header says.

  /* The values of the varint fields with a number, in order. */
  function Numbers(fields: seq<Field>, number: nat): seq<nat>
  {
    if fields == [] then []
    else if fields[0].number == number && fields[0].value.Number? then [fields[0].value.number] + Numbers(fields[1..], number)
    else Numbers(fields[1..], number)
  }

  /* Fields 1 and 4 are text, 2 and 3 messages, 6 a number from 1 to 3; 5 is unknown and later fields are skipped. */
  predicate HeaderField(f: Field)
  {
    match f.number
    case 1 => f.value.Delimited? && |f.value.octets| <= 65_536 && Utf8.Decode(f.value.octets).Some?
    case 2 => f.value.Delimited? && |f.value.octets| <= 2_097_152
    case 3 => f.value.Delimited? && |f.value.octets| <= 2_097_152
    case 4 => f.value.Delimited? && |f.value.octets| <= 65_536 && Utf8.Decode(f.value.octets).Some?
    case 6 => f.value.Number? && 1 <= f.value.number <= 3
    case n => n > 6 && (f.value.Delimited? ==> |f.value.octets| <= 1_048_576)
  }

  /* At most one value beside the one known already. */
  predicate AtMostOne<T(==)>(known: Option<T>, values: seq<T>, r: Option<T>)
  {
    match known
    case Some(v) => values == [] && r == known
    case None => if r.Some? then values == [r.value] else values == []
  }

  predicate Encodes(e: PositionEncoding, value: nat)
  {
    match e
    case Units8 => value == 1
    case Units16 => value == 2
    case Units32 => value == 3
  }

  predicate AtMostOneEncoding(known: Option<PositionEncoding>, values: seq<nat>, r: Option<PositionEncoding>)
  {
    match known
    case Some(v) => values == [] && r == known
    case None => if r.Some? then |values| == 1 && Encodes(r.value, values[0]) else values == []
  }

  predicate HeaderFrom(h: Header, fields: seq<Field>, r: Header)
  {
    && AtMostOne(h.path, Payloads(fields, 1), r.path)
    && AtMostOne(h.language, Payloads(fields, 4), r.language)
    && AtMostOneEncoding(h.encoding, Numbers(fields, 6), r.encoding)
    && r.occurrences == h.occurrences + |Payloads(fields, 2)| && (Payloads(fields, 2) != [] ==> r.occurrences <= MAX_DOCUMENT_OCCURRENCES)
    && r.symbols == h.symbols + |Payloads(fields, 3)| && (Payloads(fields, 3) != [] ==> r.symbols <= MAX_DOCUMENT_SYMBOLS)
  }

  function HeaderGuard(h: Header, f: Field): Result<Header, WireError>
  {
    Guard(HeaderAdmit, HeaderStep, h, f)
  }

  lemma PayloadsFirst(fields: seq<Field>, number: nat)
    requires fields != []
    ensures var f, rest := fields[0], fields[1..];
      && Payloads(fields, number) ==
         (if f.number == number && f.value.Delimited? then [f.value.octets] + Payloads(rest, number) else Payloads(rest, number))
      && Numbers(fields, number) ==
         (if f.number == number && f.value.Number? then [f.value.number] + Numbers(rest, number) else Numbers(rest, number))
  {
  }

  lemma {:induction false} HeaderFold(fields: seq<Field>, h: Header, r: Header)
    ensures Fold(fields, Guarded(HeaderAdmit, HeaderStep), h) == Ok(r) <==> (forall f :: f in fields ==> HeaderField(f)) && HeaderFrom(h, fields, r)
  {
    hide Guard, HeaderField, HeaderFrom;
    if fields == [] {
      NoHeaderFields(h, r);
    } else {
      var f, rest := fields[0], fields[1..];
      assert (forall g :: g in fields ==> HeaderField(g)) <==> HeaderField(f) && forall g :: g in rest ==> HeaderField(g) by {
        assert fields == [f] + rest;
      }
      HeaderFirst(fields, h, r);
      match HeaderGuard(h, f)
      case Err(_) =>
      case Ok(h') => HeaderFold(rest, h', r);
    }
  }

  lemma NoHeaderFields(h: Header, r: Header)
    ensures HeaderFrom(h, [], r) <==> r == h
  {
  }

  lemma AtMostOneFirst<T>(known: Option<T>, x: T, rest: seq<T>, r: Option<T>)
    ensures AtMostOne(known, [x] + rest, r) <==> known.None? && AtMostOne(Some(x), rest, r)
  {
    assert rest == [] ==> [x] + rest == [x];
    assert ([x] + rest)[0] == x && ([x] + rest)[1..] == rest;
  }

  lemma EncodingFirst(known: Option<PositionEncoding>, e: PositionEncoding, value: nat, rest: seq<nat>, r: Option<PositionEncoding>)
    requires Encodes(e, value)
    ensures AtMostOneEncoding(known, [value] + rest, r) <==> known.None? && AtMostOneEncoding(Some(e), rest, r)
  {
    assert ([value] + rest)[0] == value && ([value] + rest)[1..] == rest;
  }

  lemma HeaderFirst(fields: seq<Field>, h: Header, r: Header)
    requires fields != []
    ensures match HeaderGuard(h, fields[0])
      case Err(_) => !(HeaderField(fields[0]) && HeaderFrom(h, fields, r))
      case Ok(h') => HeaderField(fields[0]) && (HeaderFrom(h, fields, r) <==> HeaderFrom(h', fields[1..], r))
  {
    hide Payloads, Numbers, Utf8.Decode, AtMostOne, AtMostOneEncoding;
    PayloadsFirst(fields, 1);
    PayloadsFirst(fields, 2);
    PayloadsFirst(fields, 3);
    PayloadsFirst(fields, 4);
    PayloadsFirst(fields, 6);
    var f, rest := fields[0], fields[1..];
    if HeaderField(f) {
      match f.number
      case 1 => AtMostOneFirst(h.path, f.value.octets, Payloads(rest, 1), r.path);
      case 4 => AtMostOneFirst(h.language, f.value.octets, Payloads(rest, 4), r.language);
      case 6 =>
        EncodingFirst(h.encoding, DecodePositionEncoding(f.value.number).value, f.value.number, Numbers(rest, 6), r.encoding);
      case _ =>
    }
  }

  /* What the header of a message with these fields is. */
  predicate HeaderOf(fields: seq<Field>, h: Header)
  {
    && |Payloads(fields, 1)| == 1 && h.path == Some(Payloads(fields, 1)[0])
    && (match h.language case None => Payloads(fields, 4) == [] case Some(text) => Payloads(fields, 4) == [text])
    && (match h.encoding case None => Numbers(fields, 6) == [] case Some(e) => |Numbers(fields, 6)| == 1 && Encodes(e, Numbers(fields, 6)[0]))
    && h.occurrences == |Payloads(fields, 2)| <= 250_000
    && h.symbols == |Payloads(fields, 3)| <= 50_000
  }

  /**
   A header is accepted exactly when every field is of its kind and length, the path stands once, language
   and encoding at most once, and the messages are within their limits; it then says what the fields say.
   */
  lemma {:induction false} HeaderExactly(input: Octets, fields: seq<Field>, h: Header)
    requires FieldsAt(input, 0, fields)
    ensures ParseHeader(input) == Ok(h) <==> (forall f :: f in fields ==> HeaderField(f)) && HeaderOf(fields, h)
  {
    hide FieldsAt, Walk, HeaderAdmit, HeaderStep, HeaderField, Payloads, Numbers, Guarded;
    assert IgnoresPlace(HeaderAdmit) by { HeaderIgnoresPlace(); }
    WalkIsGuardedFold(input, 0, fields, HeaderAdmit, HeaderStep, EMPTY_HEADER);
    HeaderFold(fields, EMPTY_HEADER, h);
    assert HeaderFrom(EMPTY_HEADER, fields, h) && h.path.Some? <==> HeaderOf(fields, h);
  }

  lemma HeaderIgnoresPlace()
    ensures IgnoresPlace(HeaderAdmit)
  {
  }

  // Why a header is refused.

  function Known<T>(value: Option<T>): nat
  {
    if value.Some? then 1 else 0
  }

  /* Fields 1 to 4 hold payloads and field 6 a number; field 5 is not allowed. */
  predicate OfItsKind(f: Field)
  {
    if f.number == 6 then f.value.Number? else 1 <= f.number <= 4 && f.value.Delimited?
  }

  function LongestPayload(number: nat): nat
  {
    if number in {1, 4} then 65_536 else if number in {2, 3} then 2_097_152 else 1_048_576
  }

  /* What each error says of the fields, after a header `h` of the fields before them. */
  ghost predicate HeaderBlames(e: WireError, h: Header, fields: seq<Field>)
  {
    match e
    case FieldTooLarge => exists f :: f in fields && f.value.Delimited? && |f.value.octets| > LongestPayload(f.number)
    case InvalidUtf8 => exists f :: f in fields && f.number in {1, 4} && f.value.Delimited? && Utf8.Decode(f.value.octets).None?
    case TooManyDocumentEntries =>
      h.occurrences + |Payloads(fields, 2)| > 250_000 || h.symbols + |Payloads(fields, 3)| > 50_000
    case UnsupportedPositionEncoding => exists f :: f in fields && f.number == 6 && f.value.Number? && !(1 <= f.value.number <= 3)
    case InvalidDocumentHeader =>
      || (exists f :: f in fields && f.number <= 6 && !OfItsKind(f))
      || (exists f :: f in fields && f.number == 6 && f.value.Number? && f.value.number >= U32)
      || Known(h.path) + |Payloads(fields, 1)| > 1
      || Known(h.language) + |Payloads(fields, 4)| > 1
      || Known(h.encoding) + |Numbers(fields, 6)| > 1
    case _ => false
  }

  lemma PayloadsOfFirst(fields: seq<Field>)
    requires fields != []
    ensures var f, rest := fields[0], fields[1..];
      && (forall n :: |Payloads(fields, n)| == |Payloads(rest, n)| + if f.number == n && f.value.Delimited? then 1 else 0)
      && |Numbers(fields, 6)| == |Numbers(rest, 6)| + if f.number == 6 && f.value.Number? then 1 else 0
  {
  }

  lemma BlamesNow(fields: seq<Field>, h: Header)
    requires fields != [] && HeaderGuard(h, fields[0]).Err?
    ensures HeaderBlames(HeaderGuard(h, fields[0]).error, h, fields)
  {
    hide Payloads, Numbers, Utf8.Decode;
    PayloadsOfFirst(fields);
    assert fields[0] in fields;
  }

  lemma BlamesLater(fields: seq<Field>, h: Header, e: WireError)
    requires fields != [] && HeaderGuard(h, fields[0]).Ok?
    requires HeaderBlames(e, HeaderGuard(h, fields[0]).value, fields[1..])
    ensures HeaderBlames(e, h, fields)
  {
    hide Payloads, Numbers, Utf8.Decode, LongestPayload, OfItsKind;
    PayloadsOfFirst(fields);
    assert forall f :: f in fields[1..] ==> f in fields;
  }

  lemma {:induction false} HeaderFoldBlames(fields: seq<Field>, h: Header)
    ensures var r := Fold(fields, Guarded(HeaderAdmit, HeaderStep), h); r.Err? ==> HeaderBlames(r.error, h, fields)
  {
    hide Guard, HeaderBlames;
    if fields != [] {
      match HeaderGuard(h, fields[0])
      case Err(_) => BlamesNow(fields, h);
      case Ok(h') =>
        HeaderFoldBlames(fields[1..], h');
        match Fold(fields[1..], Guarded(HeaderAdmit, HeaderStep), h')
        case Err(e) => BlamesLater(fields, h, e);
        case Ok(_) =>
    }
  }

  /* A refused header names what is wrong with its fields: too long, not text, too many, of another kind, or repeated; or there is no path. */
  lemma {:induction false} HeaderRefuses(input: Octets, fields: seq<Field>)
    requires FieldsAt(input, 0, fields)
    ensures var r := ParseHeader(input);
      r.Err? ==> HeaderBlames(r.error, EMPTY_HEADER, fields) || (r.error == InvalidDocumentHeader && Payloads(fields, 1) == [])
  {
    hide FieldsAt, Walk, HeaderAdmit, HeaderStep, Payloads, Numbers, Guarded, HeaderBlames;
    assert IgnoresPlace(HeaderAdmit) by { HeaderIgnoresPlace(); }
    WalkIsGuardedFold(input, 0, fields, HeaderAdmit, HeaderStep, EMPTY_HEADER);
    HeaderFoldBlames(fields, EMPTY_HEADER);
    match Walk(input, 0, HeaderAdmit, HeaderStep, EMPTY_HEADER)
    case Err(_) =>
    case Ok(h) => HeaderFold(fields, EMPTY_HEADER, h);
  }

  lemma HeaderNeedsFields(input: Octets)
    requires Fields(input, 0).None?
    ensures ParseHeader(input).Err?
  {
    hide Fields, Walk;
    WalkNeedsFields(input, HeaderAdmit, HeaderStep, EMPTY_HEADER);
  }

  // The loops of the source.

  method ParseDocumentHeader(input: Octets) returns (r: Result<Header, WireError>)
    ensures r == ParseHeader(input)
  {
    hide ReadField, HeaderAdmit;
    var cursor, h := 0, EMPTY_HEADER;
    while cursor < |input|
      invariant cursor <= |input|
      invariant Walk(input, 0, HeaderAdmit, HeaderStep, EMPTY_HEADER) == Walk(input, cursor, HeaderAdmit, HeaderStep, h)
    {
      var read, next := NextField(input, cursor, HeaderAdmit, h);
      if read.Err? {
        return Err(read.error);
      }
      var f := read.value;
      if IsOccurrence(f) {
        if h.occurrences + 1 > MAX_DOCUMENT_OCCURRENCES {
          return Err(TooManyDocumentEntries);
        }
        h := h.(occurrences := h.occurrences + 1);
      } else if IsSymbol(f) {
        if h.symbols + 1 > MAX_DOCUMENT_SYMBOLS {
          return Err(TooManyDocumentEntries);
        }
        h := h.(symbols := h.symbols + 1);
      } else {
        var stepped := HeaderStep(h, f);
        if stepped.Err? {
          return Err(stepped.error);
        }
        h := stepped.value;
      }
      cursor := next;
    }
    if h.path.None? {
      return Err(InvalidDocumentHeader);
    }
    return Ok(h);
  }

  method DecodeScipDocument<C, O>(input: Octets, admitSource: Header -> Result<(), WireError>, handler: Handler<C, O>, initial: C)
    returns (r: Result<Decoding<C>, WireError>)
    ensures r == DecodeDocument(input, admitSource, handler, initial)
  {
    hide ReadField, DecodeDecision, ParseHeader;
    var header := ParseDocumentHeader(input);
    if header.Err? {
      return Err(header.error);
    }
    var admitted := admitSource(header.value);
    if admitted.Err? {
      return Err(admitted.error);
    }
    var cursor, occurrences, sink := 0, 0, initial;
    while cursor < |input|
      invariant cursor <= |input|
      invariant DecodeFrom(input, 0, handler, Decoding(0, initial)) == DecodeFrom(input, cursor, handler, Decoding(occurrences, sink))
    {
      var read, next := NextField(input, cursor, DecodeAdmit(), Decoding(occurrences, sink));
      if read.Err? {
        return Err(read.error);
      }
      if IsOccurrence(read.value) {
        var occurrence := handler.parse(read.value.value.octets);
        if occurrence.Err? {
          return Err(occurrence.error);
        }
        if occurrences + 1 > MAX_DOCUMENT_OCCURRENCES {
          return Err(TooManyDocumentEntries);
        }
        var handled := handler.call(sink, occurrences, occurrence.value);
        if handled.Err? {
          return Err(handled.error);
        }
        occurrences, sink := occurrences + 1, handled.value;
      }
      cursor := next;
    }
    return Ok(Decoding(occurrences, sink));
  }
}
