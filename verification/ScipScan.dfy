/**
 The scan of an outer SCIP index message.

 The scan hands the metadata message and then each document message to its caller, interleaved with
 skipping unknown fields; the caller's callbacks are the functions of a `Consumer` acting on an
 arbitrary state, and a callback failure stops the scan.
 */
module ScipScan {
  import opened Results
  import opened Bytes
  import opened WireErrors
  import opened Varint
  import opened Framing

  datatype Limits = Limits(maxInput: nat, maxDocuments: nat, maxDocument: nat, maxMetadata: nat, maxIgnored: nat)

  const MAX_INPUT_BYTES: nat := 256 * 1024 * 1024
  const MAX_DOCUMENTS: nat := 100_000

  /* The compiled ceilings that keep the 32-bit counters from overflowing. */
  predicate ValidLimits(limits: Limits)
  {
    limits.maxInput <= MAX_INPUT_BYTES && limits.maxDocuments <= MAX_DOCUMENTS
  }

  datatype Consumer<!C> = Consumer(
    onMetadata: (C, Octets) -> Result<C, WireError>,
    onDocument: (C, nat, Octets) -> Result<C, WireError>)

  datatype ScanState<C> = ScanState(metadata: bool, documents: nat, ignored: nat, sink: C)

  predicate IsMetadata(f: Field)
  {
    f.number == 1 && f.value.Delimited?
  }

  predicate IsDocument(f: Field)
  {
    f.number == 2 && f.value.Delimited?
  }

  function Decide<C>(limits: Limits, s: ScanState<C>, number: nat, wire: nat, tagEnd: nat): Admission
  {
    if number == 1 && wire == 2 then
      if s.metadata then Refuse(DuplicateMetadata)
      else if tagEnd != 1 then Refuse(MetadataNotFirst)
      else Admit(limits.maxMetadata)
    else if number == 2 && wire == 2 then
      if !s.metadata then Refuse(MetadataNotFirst)
      else if s.documents == limits.maxDocuments then Refuse(TooManyDocuments)
      else Admit(limits.maxDocument)
    else if wire in {0, 1, 2, 5} then
      if !s.metadata then Refuse(MetadataNotFirst) else Admit(limits.maxIgnored)
    else Refuse(UnsupportedWireType)
  }

  function Update<C>(consumer: Consumer<C>, s: ScanState<C>, f: Field): Result<ScanState<C>, WireError>
  {
    if IsMetadata(f) then
      match consumer.onMetadata(s.sink, f.value.octets)
      case Err(e) => Err(e)
      case Ok(sink) => Ok(s.(metadata := true, sink := sink))
    else if IsDocument(f) then
      if s.documents + 1 >= U32 then Err(TooManyDocuments)
      else match consumer.onDocument(s.sink, s.documents, f.value.octets)
        case Err(e) => Err(e)
        case Ok(sink) => Ok(s.(documents := s.documents + 1, sink := sink))
    else if s.ignored + 1 >= U32 then Err(FieldTooLarge)
    else Ok(s.(ignored := s.ignored + 1))
  }

  function Admitting<C>(limits: Limits): (ScanState<C>, nat, nat, nat) -> Admission
  {
    (s: ScanState<C>, number: nat, wire: nat, tagEnd: nat) => Decide(limits, s, number, wire, tagEnd)
  }

  function Updating<C>(consumer: Consumer<C>): (ScanState<C>, Field) -> Result<ScanState<C>, WireError>
  {
    (s: ScanState<C>, f: Field) => Update(consumer, s, f)
  }

  /* The loop of the scan from `cursor`. */
  function ScanFrom<C>(input: Octets, cursor: nat, limits: Limits, consumer: Consumer<C>, s: ScanState<C>)
    : Result<ScanState<C>, WireError>
    requires cursor <= |input|
  {
    Walk(input, cursor, Admitting(limits), Updating(consumer), s)
  }

  /* `scan_scip_wire`. */
  function Scan<C>(input: Octets, limits: Limits, consumer: Consumer<C>, sink: C): Result<ScanState<C>, WireError>
  {
    if |input| > limits.maxInput then Err(InputTooLarge)
    else match ScanFrom(input, 0, limits, consumer, ScanState(false, 0, 0, sink))
      case Err(e) => Err(e)
      case Ok(s) => if s.metadata then Ok(s) else Err(MetadataNotFirst)
  }

  // What the consumer is promised.

  /* Payloads of the document fields, in order. */
  function Documents(fields: seq<Field>): seq<Octets>
  {
    if fields == [] then []
    else if IsDocument(fields[0]) then [fields[0].value.octets] + Documents(fields[1..])
    else Documents(fields[1..])
  }

  /* Calls `onDocument` on each document in turn with consecutive ordinals. */
  function FeedDocuments<C>(consumer: Consumer<C>, sink: C, documents: seq<Octets>, ordinal: nat): Result<C, WireError>
    decreases |documents|
  {
    if documents == [] then Ok(sink)
    else match consumer.onDocument(sink, ordinal, documents[0])
      case Err(e) => Err(e)
      case Ok(sink') => FeedDocuments(consumer, sink', documents[1..], ordinal + 1)
  }

  /* Calls `onMetadata` once, then feeds the documents from ordinal zero. */
  function Feed<C>(consumer: Consumer<C>, sink: C, metadata: Octets, documents: seq<Octets>): Result<C, WireError>
  {
    match consumer.onMetadata(sink, metadata)
    case Err(e) => Err(e)
    case Ok(sink') => FeedDocuments(consumer, sink', documents, 0)
  }

  /* Fields that may follow the metadata. */
  predicate Following(rest: seq<Field>, limits: Limits)
  {
    && |Documents(rest)| <= limits.maxDocuments
    && forall f :: f in rest ==>
         !IsMetadata(f) && Fits(Admit(if IsDocument(f) then limits.maxDocument else limits.maxIgnored), f.value)
  }

  function Outcome<C>(s: ScanState<C>, rest: seq<Field>, fed: Result<C, WireError>): Result<ScanState<C>, WireError>
  {
    match fed
    case Err(e) => Err(e)
    case Ok(sink) =>
      var n := |Documents(rest)|;
      DocumentsAreFields(rest);
      Ok(ScanState(true, s.documents + n, s.ignored + |rest| - n, sink))
  }

  lemma DocumentsAreFields(fields: seq<Field>)
    ensures |Documents(fields)| <= |fields|
  {
  }

  lemma DocumentsSplit(f: Field, rest: seq<Field>)
    ensures Documents([f] + rest) == (if IsDocument(f) then [f.value.octets] else []) + Documents(rest)
  {
    assert ([f] + rest)[1..] == rest;
  }

  /* After the metadata the scan is a feed of the document fields. */
  lemma {:induction false} ScanIsFeed<C>(input: Octets, cursor: nat, rest: seq<Field>, limits: Limits,
                                         consumer: Consumer<C>, s: ScanState<C>)
    requires ValidLimits(limits) && |input| <= limits.maxInput
    requires s.metadata && s.ignored + s.documents <= cursor <= |input| && FieldsAt(input, cursor, rest)
    requires Following(rest, limits) && s.documents + |Documents(rest)| <= limits.maxDocuments
    ensures ScanFrom(input, cursor, limits, consumer, s)
         == Outcome(s, rest, FeedDocuments(consumer, s.sink, Documents(rest), s.documents))
    decreases |rest|
  {
    hide FieldAt, ReadField;
    if rest != [] {
      var f := rest[0];
      assert f in rest;
      var next :| cursor < next <= |input| && FieldAt(input, cursor, next, f) && FieldsAt(input, next, rest[1..]);
      ReadFieldIsFieldAt(input, cursor, Admitting<C>(limits), s, f, next);
      DocumentsAreFields(rest[1..]);
      match Update(consumer, s, f)
      case Err(_) =>
      case Ok(s') =>
        assert Documents(rest) == (if IsDocument(f) then [f.value.octets] else []) + Documents(rest[1..]);
        ScanIsFeed(input, next, rest[1..], limits, consumer, s');
    }
  }

  /* A scan that succeeds after the metadata has met only fields that may follow it. */
  lemma {:induction false} ScanSplits<C>(input: Octets, cursor: nat, limits: Limits, consumer: Consumer<C>, s: ScanState<C>)
    returns (rest: seq<Field>)
    requires s.metadata && s.documents <= limits.maxDocuments && 0 < cursor <= |input|
    requires ScanFrom(input, cursor, limits, consumer, s).Ok?
    ensures FieldsAt(input, cursor, rest) && Following(rest, limits)
    ensures s.documents + |Documents(rest)| <= limits.maxDocuments
    decreases |input| - cursor
  {
    hide FieldAt, ReadField;
    if cursor == |input| {
      rest := [];
    } else {
      var read := ReadField(input, cursor, Admitting<C>(limits), s).value;
      ReadFieldIsFieldAt(input, cursor, Admitting<C>(limits), s, read.field, read.next);
      var s' := Update(consumer, s, read.field).value;
      var tail := ScanSplits(input, read.next, limits, consumer, s');
      rest := [read.field] + tail;
      DocumentsSplit(read.field, tail);
      assert rest[1..] == tail;
    }
  }

  /* The metadata message is in front, tagged by one octet and short enough. */
  predicate StartsWell(input: Octets, limits: Limits, fields: seq<Field>)
  {
    input != [] && input[0] == 0x0A && fields != [] && IsMetadata(fields[0]) && |fields[0].value.octets| <= limits.maxMetadata
  }

  /* The metadata field, at the start of the input, and fields that may follow it. */
  predicate StartsWithMetadata(input: Octets, limits: Limits, fields: seq<Field>)
  {
    |input| <= limits.maxInput && FieldsAt(input, 0, fields) && StartsWell(input, limits, fields) && Following(fields[1..], limits)
  }

  lemma OneOctetTag(input: Octets)
    requires input != []
    ensures Read(input, 0) == Ok(Reading(10, 1)) <==> input[0] == 0x0A
  {
    assert input[0..1] == [input[0]];
    assert Payload([input[0]]) == input[0] % 128;
    ReadAcceptsExactly(input, 0, 10, 1);
  }

  /**
   Every input that starts with its metadata and stays within limits is handed to the consumer as
   one metadata call followed by one call per document, in order, with ordinals from zero; the scan
   fails only where the consumer does.
   */
  lemma ScanFeedsInOrder<C>(input: Octets, fields: seq<Field>, limits: Limits, consumer: Consumer<C>, sink: C)
    requires ValidLimits(limits) && StartsWithMetadata(input, limits, fields)
    ensures var rest := fields[1..];
      Scan(input, limits, consumer, sink)
      == Outcome(ScanState(true, 0, 0, sink), rest, Feed(consumer, sink, fields[0].value.octets, Documents(rest)))
  {
    hide FieldAt, ReadField, Read;
    var rest, f, s0 := fields[1..], fields[0], ScanState(false, 0, 0, sink);
    var next :| 0 < next <= |input| && FieldAt(input, 0, next, f) && FieldsAt(input, next, rest);
    OneOctetTag(input);
    ReadFieldIsFieldAt(input, 0, Admitting<C>(limits), s0, f, next);
    match Update(consumer, s0, f)
    case Err(_) =>
    case Ok(s) => ScanIsFeed(input, next, rest, limits, consumer, s);
  }

  /* Conversely, a successful scan means that the input starts with its metadata and splits into such fields. */
  lemma ScanAcceptsOnly<C>(input: Octets, limits: Limits, consumer: Consumer<C>, sink: C) returns (fields: seq<Field>)
    requires ValidLimits(limits) && Scan(input, limits, consumer, sink).Ok?
    ensures StartsWithMetadata(input, limits, fields)
    ensures Scan(input, limits, consumer, sink).value.documents == |Documents(fields[1..])|
  {
    hide FieldAt, ReadField, Read;
    var s0 := ScanState(false, 0, 0, sink);
    var read := ReadField(input, 0, Admitting<C>(limits), s0).value;
    ReadFieldIsFieldAt(input, 0, Admitting<C>(limits), s0, read.field, read.next);
    FirstTag(input, Admitting<C>(limits), s0, read.field, read.next);
    OneOctetTag(input);
    var s := Update(consumer, s0, read.field).value;
    var rest := ScanSplits(input, read.next, limits, consumer, s);
    fields := [read.field] + rest;
    assert fields[1..] == rest;
    ScanFeedsInOrder(input, fields, limits, consumer, sink);
  }

  lemma FirstTag<S>(input: Octets, admit: (S, nat, nat, nat) -> Admission, s: S, f: Field, next: nat)
    requires ReadField(input, 0, admit, s) == Ok(Framed(f, next))
    ensures Read(input, 0).Ok? && Read(input, 0).value.value == Tag(f)
  {
    hide Read;
  }

  // Inputs that are refused.

  /* Without the metadata field in front, tagged by one octet, nothing is handed to the consumer. */
  lemma ScanNeedsMetadata<C>(input: Octets, fields: seq<Field>, limits: Limits, consumer: Consumer<C>, sink: C)
    requires |input| <= limits.maxInput && FieldsAt(input, 0, fields)
    requires fields == [] || !IsMetadata(fields[0]) || input[0] != 0x0A
    ensures Scan(input, limits, consumer, sink) == Err(MetadataNotFirst)
  {
    hide FieldAt, ReadField, Read;
    if fields != [] {
      var s0 := ScanState(false, 0, 0, sink);
      var next :| 0 < next <= |input| && FieldAt(input, 0, next, fields[0]) && FieldsAt(input, next, fields[1..]);
      ReadFieldThere(input, 0, Admitting<C>(limits), s0, fields[0], next);
      TagThere(input, fields[0], next);
      OneOctetTag(input);
    }
  }

  lemma TagThere(input: Octets, f: Field, next: nat)
    requires FieldAt(input, 0, next, f)
    ensures Read(input, 0).Ok? && Read(input, 0).value.value == Tag(f)
  {
    hide Read, VarintAt, ValueAt;
    var m :| 0 <= m <= next && VarintAt(input, 0, m, Tag(f)) && ValueAt(input, m, next, f.value);
    ReadIsVarintAt(input, 0, Tag(f), m);
  }

  /* Why the scan stops at a field, when `documents` documents came before it. */
  function Stop(limits: Limits, documents: nat, f: Field): Option<WireError>
  {
    if IsMetadata(f) then Some(DuplicateMetadata)
    else if IsDocument(f) && documents >= limits.maxDocuments then Some(TooManyDocuments)
    else if f.value.Delimited? && |f.value.octets| > (if IsDocument(f) then limits.maxDocument else limits.maxIgnored) then Some(FieldTooLarge)
    else None
  }

  lemma {:induction false} ScanStopsAfter<C>(input: Octets, cursor: nat, rest: seq<Field>, k: nat, limits: Limits, consumer: Consumer<C>, s: ScanState<C>)
    requires ValidLimits(limits) && |input| <= limits.maxInput
    requires s.metadata && s.ignored + s.documents <= cursor <= |input| && FieldsAt(input, cursor, rest)
    requires k < |rest| && Following(rest[..k], limits) && s.documents + |Documents(rest[..k])| <= limits.maxDocuments
    requires Stop(limits, s.documents + |Documents(rest[..k])|, rest[k]).Some?
    ensures ScanFrom(input, cursor, limits, consumer, s) ==
      match FeedDocuments(consumer, s.sink, Documents(rest[..k]), s.documents)
      case Err(e) => Err(e)
      case Ok(_) => Err(Stop(limits, s.documents + |Documents(rest[..k])|, rest[k]).value)
    decreases |rest|
  {
    hide FieldAt, ReadField;
    var f := rest[0];
    var next :| cursor < next <= |input| && FieldAt(input, cursor, next, f) && FieldsAt(input, next, rest[1..]);
    ReadFieldThere(input, cursor, Admitting<C>(limits), s, f, next);
    if k > 0 {
      assert rest[..k] == [f] + rest[1..][..k - 1] && f in rest[..k];
      DocumentsSplit(f, rest[1..][..k - 1]);
      match Update(consumer, s, f)
      case Err(_) =>
      case Ok(s') => ScanStopsAfter(input, next, rest[1..], k - 1, limits, consumer, s');
    }
  }

  /**
   An input whose first unacceptable field is field `k` is handed to the consumer up to there, and then
   refused for what is wrong with that field: a second metadata message, one document too many, or a
   payload that is too long.
   */
  lemma {:induction false} ScanStops<C>(input: Octets, fields: seq<Field>, k: nat, limits: Limits, consumer: Consumer<C>, sink: C)
    requires ValidLimits(limits) && |input| <= limits.maxInput && FieldsAt(input, 0, fields)
    requires 0 < k < |fields| && StartsWell(input, limits, fields) && Following(fields[1..k], limits)
    requires Stop(limits, |Documents(fields[1..k])|, fields[k]).Some?
    ensures Scan(input, limits, consumer, sink) ==
      match Feed(consumer, sink, fields[0].value.octets, Documents(fields[1..k]))
      case Err(e) => Err(e)
      case Ok(_) => Err(Stop(limits, |Documents(fields[1..k])|, fields[k]).value)
  {
    hide FieldAt, ReadField, Read, Following, Stop;
    var rest, f, s0 := fields[1..], fields[0], ScanState(false, 0, 0, sink);
    var next :| 0 < next <= |input| && FieldAt(input, 0, next, f) && FieldsAt(input, next, rest);
    OneOctetTag(input);
    ReadFieldThere(input, 0, Admitting<C>(limits), s0, f, next);
    assert rest[..k - 1] == fields[1..k];
    match Update(consumer, s0, f)
    case Err(_) =>
    case Ok(s) =>
      FollowingCount(fields[1..k], limits);
      ScanStopsAfter(input, next, rest, k - 1, limits, consumer, s);
  }

  lemma FollowingCount(rest: seq<Field>, limits: Limits)
    requires Following(rest, limits)
    ensures |Documents(rest)| <= limits.maxDocuments
  {
  }

  /* Scanning inverts printing. */
  lemma ScanInvertsPrint<C>(metadata: Octets, rest: seq<Field>, limits: Limits, consumer: Consumer<C>, sink: C)
    requires ValidLimits(limits) && |metadata| <= limits.maxMetadata && |metadata| < U64
    requires Following(rest, limits) && forall f :: f in rest ==> Printable(f)
    requires |Print([Field(1, Delimited(metadata))] + rest)| <= limits.maxInput
    ensures Scan(Print([Field(1, Delimited(metadata))] + rest), limits, consumer, sink)
         == Outcome(ScanState(true, 0, 0, sink), rest, Feed(consumer, sink, metadata, Documents(rest)))
  {
    hide PrintValue;
    var first := Field(1, Delimited(metadata));
    var fields := [first] + rest;
    var input := Print(fields);
    assert fields[1..] == rest;
    assert input == Encode(10) + PrintValue(first.value) + Print(rest);
    assert Encode(10) == [10];
    FieldsInvertPrint(input, 0, fields);
    ScanFeedsInOrder(input, fields, limits, consumer, sink);
  }

  /* One turn of the loop. */
  lemma ScanTurn<C>(input: Octets, cursor: nat, limits: Limits, consumer: Consumer<C>, s: ScanState<C>)
    requires cursor < |input|
    ensures ScanFrom(input, cursor, limits, consumer, s) ==
      match Read(input, cursor)
      case Err(e) => Err(e)
      case Ok(tag) =>
        var number, wire := tag.value / 8, tag.value % 8;
        if number >= U32 || number == 0 then Err(UnsupportedWireType)
        else match Decide(limits, s, number, wire, tag.next)
          case Refuse(e) => Err(e)
          case Admit(limit) =>
            match ReadValue(input, tag.next, number, wire, limit)
            case Err(e) => Err(e)
            case Ok(read) =>
              match Update(consumer, s, read.field)
              case Err(e) => Err(e)
              case Ok(s') => ScanFrom(input, read.next, limits, consumer, s')
  {
    hide Read, ReadValue, Decide, Update;
  }

  /* `scan_scip_wire`, with its cursor, counters and callbacks. */
  method ScanScipWire<C>(input: Octets, limits: Limits, consumer: Consumer<C>, initial: C)
    returns (r: Result<ScanState<C>, WireError>)
    ensures r == Scan(input, limits, consumer, initial)
  {
    hide Read, ReadLength, ScanFrom;
    if |input| > limits.maxInput {
      return Err(InputTooLarge);
    }
    var cursor, metadata, documents, ignored, sink := 0, false, 0, 0, initial;
    ghost var whole := ScanFrom(input, 0, limits, consumer, ScanState(false, 0, 0, initial));
    while cursor < |input|
      invariant cursor <= |input|
      invariant whole == ScanFrom(input, cursor, limits, consumer, ScanState(metadata, documents, ignored, sink))
    {
      ScanTurn(input, cursor, limits, consumer, ScanState(metadata, documents, ignored, sink));
      var tag, next := ReadVarint(input, cursor);
      if tag.Err? {
        return Err(tag.error);
      }
      var number, wire := tag.value / 8, tag.value % 8;
      if number >= U32 || number == 0 {
        return Err(UnsupportedWireType);
      }
      if number == 1 && wire == 2 {
        if metadata {
          return Err(DuplicateMetadata);
        }
        if next != 1 {
          return Err(MetadataNotFirst);
        }
        var octets, after := ReadLengthDelimited(input, next, limits.maxMetadata);
        if octets.Err? {
          return Err(octets.error);
        }
        var fed := consumer.onMetadata(sink, octets.value);
        if fed.Err? {
          return Err(fed.error);
        }
        cursor, metadata, sink := after, true, fed.value;
      } else if number == 2 && wire == 2 {
        if !metadata {
          return Err(MetadataNotFirst);
        }
        if documents == limits.maxDocuments {
          return Err(TooManyDocuments);
        }
        var octets, after := ReadLengthDelimited(input, next, limits.maxDocument);
        if octets.Err? {
          return Err(octets.error);
        }
        if documents + 1 >= U32 {
          return Err(TooManyDocuments);
        }
        var fed := consumer.onDocument(sink, documents, octets.value);
        if fed.Err? {
          return Err(fed.error);
        }
        cursor, documents, sink := after, documents + 1, fed.value;
      } else {
        var skipped, after := SkipIgnored(input, next, wire, limits.maxIgnored, metadata);
        if skipped.Err? {
          return Err(skipped.error);
        }
        if ignored + 1 >= U32 {
          return Err(FieldTooLarge);
        }
        cursor, ignored := after, ignored + 1;
      }
    }
    ScanEnds(input, limits, consumer, ScanState(metadata, documents, ignored, sink));
    if !metadata {
      return Err(MetadataNotFirst);
    }
    return Ok(ScanState(metadata, documents, ignored, sink));
  }

  lemma ScanEnds<C>(input: Octets, limits: Limits, consumer: Consumer<C>, s: ScanState<C>)
    ensures ScanFrom(input, |input|, limits, consumer, s) == Ok(s)
  {
  }

  /* Where a field of no interest ends. */
  function Skipped(input: Octets, cursor: nat, wire: nat, limit: nat, metadata: bool): Result<nat, WireError>
    requires cursor <= |input|
  {
    if wire !in {0, 1, 2, 5} then Err(UnsupportedWireType)
    else if !metadata then Err(MetadataNotFirst)
    else match ReadValue(input, cursor, 0, wire, limit)
      case Err(e) => Err(e)
      case Ok(read) => Ok(read.next)
  }

  /* The four arms of the scan that skip a field of no interest. */
  method SkipIgnored(input: Octets, cursor: nat, wire: nat, limit: nat, metadata: bool)
    returns (r: Result<(), WireError>, next: nat)
    requires cursor <= |input|
    ensures r.Ok? ==> Skipped(input, cursor, wire, limit, metadata) == Ok(next)
    ensures r.Err? ==> Skipped(input, cursor, wire, limit, metadata) == Err(r.error)
  {
    hide Read;
    next := cursor;
    if wire !in {0, 1, 2, 5} {
      return Err(UnsupportedWireType), next;
    }
    if !metadata {
      return Err(MetadataNotFirst), next;
    }
    if wire == 0 {
      var v;
      v, next := ReadVarint(input, cursor);
      r := if v.Ok? then Ok(()) else Err(v.error);
    } else if wire == 1 {
      r, next := SkipExact(input, cursor, 8);
    } else if wire == 2 {
      var v;
      v, next := ReadLengthDelimited(input, cursor, limit);
      r := if v.Ok? then Ok(()) else Err(v.error);
    } else {
      r, next := SkipExact(input, cursor, 4);
    }
  }
}
