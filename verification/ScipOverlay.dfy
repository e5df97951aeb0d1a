/**
 The overlay import: the consumer that stages each document of an index and keeps totals.

 How metadata and documents are decoded, and whether the caller's sink takes a batch, are the
 functions of an `Importer`; the import adds ordinal, count and overflow checks around them. The
 checks are shown never to fire.
 */
module ScipOverlay {
  import opened Results
  import opened Bytes
  import opened WireErrors
  import opened Framing
  import opened ScipScan
  import opened ScipFacts

  const DEFAULT_LIMITS: Limits := Limits(MAX_INPUT_BYTES, MAX_DOCUMENTS, 2 * 1024 * 1024, 64 * 1024, 1024 * 1024)

  datatype Metadata = Metadata(goProducer: bool, version: nat)

  /* `admit` reads the metadata, `decode` one document, and `accept` is the caller's sink. */
  datatype Importer<!D> = Importer(
    admit: Octets -> Result<Metadata, WireError>,
    decode: (bool, Octets) -> Result<Staged, WireError>,
    accept: (D, Staged) -> Result<D, OverlayError>)

  datatype Overlay<D> = Overlay(
    metadata: Option<Metadata>, staged: nat, external: nat, occurrences: nat, relationships: nat, sink: D)

  function Start<D>(sink: D): Overlay<D>
  {
    Overlay(None, 0, 0, 0, 0, sink)
  }

  /* Which of the defensive checks are made: those on counts, and those on the 64-bit totals. */
  datatype Checks = Checks(counts: bool, totals: bool)

  const ALL: Checks := Checks(true, true)

  function IsGo<D>(o: Overlay<D>): bool
  {
    o.metadata.Some? && o.metadata.value.goProducer
  }

  /* `ScipIndexStreamState::stage`: the totals are reserved before the sink takes the batch. */
  function Stage<D>(importer: Importer<D>, checks: Checks, o: Overlay<D>, ordinal: nat, octets: Octets)
    : Result<Overlay<D>, WireError>
  {
    if checks.counts && o.staged + o.external >= U32 then Err(ConsumerRejected(ResourceLimit))
    else if checks.counts && ordinal != o.staged + o.external then Err(ConsumerRejected(InvalidInput))
    else match importer.decode(IsGo(o), octets)
      case Err(e) => Err(e)
      case Ok(External) =>
        if checks.counts && o.external + 1 >= U32 then Err(ConsumerRejected(ResourceLimit))
        else Ok(o.(external := o.external + 1))
      case Ok(Batch(occurrences, relationships)) =>
        if checks.totals && (o.occurrences + |occurrences| >= U64 || o.relationships + |relationships| >= U64)
        then Err(ConsumerRejected(ResourceLimit))
        else match importer.accept(o.sink, Batch(occurrences, relationships))
          case Err(e) => Err(ConsumerRejected(e))
          case Ok(sink) =>
            if checks.counts && o.staged + 1 >= U32 then Err(ConsumerRejected(ResourceLimit))
            else Ok(o.(staged := o.staged + 1, occurrences := o.occurrences + |occurrences|,
                       relationships := o.relationships + |relationships|, sink := sink))
  }

  function StageMetadata<D>(importer: Importer<D>, o: Overlay<D>, octets: Octets): Result<Overlay<D>, WireError>
  {
    match importer.admit(octets)
    case Err(e) => Err(e)
    case Ok(metadata) => Ok(o.(metadata := Some(metadata)))
  }

  function StagingConsumer<D>(importer: Importer<D>, checks: Checks): Consumer<Overlay<D>>
  {
    Consumer((o: Overlay<D>, octets: Octets) => StageMetadata(importer, o, octets),
             (o: Overlay<D>, ordinal: nat, octets: Octets) => Stage(importer, checks, o, ordinal, octets))
  }

  /* `decode_scip_overlay_index`. */
  function Import<D>(input: Octets, importer: Importer<D>, checks: Checks, sink: D): Result<Overlay<D>, OverlayError>
  {
    match Scan(input, DEFAULT_LIMITS, StagingConsumer(importer, checks), Start(sink))
    case Err(e) => Err(MapWireError(e))
    case Ok(s) =>
      if checks.counts && s.sink.metadata.None? then Err(InvalidInput)
      else if checks.counts && s.sink.staged + s.sink.external >= U32 then Err(ResourceLimit)
      else if s.sink.metadata.Some? && s.sink.metadata.value.version != 0 then Err(InvalidInput)
      else if checks.counts && s.documents != s.sink.staged + s.sink.external then Err(InvalidInput)
      else Ok(s.sink)
  }

  /* The stream state of the source, updated in place by each document of the scan. */
  class IndexStream<D> {
    var metadata: Option<Metadata>
    var staged: nat
    var external: nat
    var occurrences: nat
    var relationships: nat
    var sink: D

    function State(): Overlay<D>
      reads this
    {
      Overlay(metadata, staged, external, occurrences, relationships, sink)
    }

    constructor (initial: D)
      ensures State() == Start(initial)
    {
      metadata, staged, external, occurrences, relationships, sink := None, 0, 0, 0, 0, initial;
    }

    /* `reserve_document`. */
    method ReserveDocument(b: Staged) returns (r: Result<(), WireError>)
      requires b.Batch?
      modifies `occurrences, `relationships
      ensures if old(occurrences) + |b.occurrences| >= U64 || old(relationships) + |b.relationships| >= U64
              then r == Err(ConsumerRejected(ResourceLimit))
              else
                && r == Ok(())
                && occurrences == old(occurrences) + |b.occurrences|
                && relationships == old(relationships) + |b.relationships|
    {
      if occurrences + |b.occurrences| >= U64 {
        return Err(ConsumerRejected(ResourceLimit));
      }
      occurrences := occurrences + |b.occurrences|;
      if relationships + |b.relationships| >= U64 {
        return Err(ConsumerRejected(ResourceLimit));
      }
      relationships := relationships + |b.relationships|;
      return Ok(());
    }

    method StageDocument(importer: Importer<D>, ordinal: nat, octets: Octets) returns (r: Result<(), WireError>)
      modifies this
      ensures r.Ok? ==> Stage(importer, ALL, old(State()), ordinal, octets) == Ok(State())
      ensures r.Err? ==> Stage(importer, ALL, old(State()), ordinal, octets) == Err(r.error)
      ensures metadata == old(metadata) && (r.Err? ==> staged == old(staged) && external == old(external))
    {
      if staged + external >= U32 {
        return Err(ConsumerRejected(ResourceLimit));
      }
      if ordinal != staged + external {
        return Err(ConsumerRejected(InvalidInput));
      }
      var decoded := importer.decode(metadata.Some? && metadata.value.goProducer, octets);
      if decoded.Err? {
        return Err(decoded.error);
      }
      if decoded.value.External? {
        if external + 1 >= U32 {
          return Err(ConsumerRejected(ResourceLimit));
        }
        external := external + 1;
        return Ok(());
      }
      var reserved := ReserveDocument(decoded.value);
      if reserved.Err? {
        return reserved;
      }
      var accepted := importer.accept(sink, decoded.value);
      if accepted.Err? {
        return Err(ConsumerRejected(accepted.error));
      }
      sink := accepted.value;
      if staged + 1 >= U32 {
        return Err(ConsumerRejected(ResourceLimit));
      }
      staged := staged + 1;
      return Ok(());
    }
  }

  // The checks on counts, for every importer.

  /* What every step of the scan keeps. */
  ghost predicate Counted<D>(s: ScanState<Overlay<D>>)
  {
    s.documents == s.sink.staged + s.sink.external <= MAX_DOCUMENTS && (s.metadata ==> s.sink.metadata.Some?)
  }

  lemma StepKeepsCounted<D>(importer: Importer<D>, totals: bool, s: ScanState<Overlay<D>>, f: Field)
    requires Counted(s) && (IsDocument(f) ==> s.documents < MAX_DOCUMENTS)
    ensures var r := Update(StagingConsumer(importer, Checks(true, totals)), s, f);
      r == Update(StagingConsumer(importer, Checks(false, totals)), s, f) && (r.Ok? ==> Counted(r.value))
  {
  }

  /* From any counted state, the scans with and without the checks on counts agree and stay counted. */
  lemma {:induction false} CountsAgree<D(!new)>(input: Octets, cursor: nat, importer: Importer<D>, totals: bool, s: ScanState<Overlay<D>>)
    requires cursor <= |input| && Counted(s)
    ensures var r := ScanFrom(input, cursor, DEFAULT_LIMITS, StagingConsumer(importer, Checks(true, totals)), s);
      && r == ScanFrom(input, cursor, DEFAULT_LIMITS, StagingConsumer(importer, Checks(false, totals)), s)
      && (r.Ok? ==> Counted(r.value))
    decreases |input| - cursor
  {
    hide ReadField, Stage, Counted;
    if cursor < |input| {
      var read := ReadField(input, cursor, Admitting<Overlay<D>>(DEFAULT_LIMITS), s);
      if read.Ok? {
        DocumentsBelowLimit(input, cursor, s, read.value.field, read.value.next);
        StepKeepsCounted(importer, totals, s, read.value.field);
        var next := Update(StagingConsumer(importer, Checks(true, totals)), s, read.value.field);
        if next.Ok? {
          CountsAgree(input, read.value.next, importer, totals, next.value);
        }
      }
    }
  }

  lemma DocumentsBelowLimit<D>(input: Octets, cursor: nat, s: ScanState<Overlay<D>>, f: Field, next: nat)
    requires cursor <= |input| && Counted(s)
    requires ReadField(input, cursor, Admitting<Overlay<D>>(DEFAULT_LIMITS), s) == Ok(Framed(f, next))
    ensures IsDocument(f) ==> s.documents < MAX_DOCUMENTS
  {
    hide FieldAt, ReadField;
    ReadFieldIsFieldAt(input, cursor, Admitting<Overlay<D>>(DEFAULT_LIMITS), s, f, next);
  }

  lemma ScanCounted<D(!new)>(input: Octets, importer: Importer<D>, totals: bool, sink: D)
    ensures var r := Scan(input, DEFAULT_LIMITS, StagingConsumer(importer, Checks(true, totals)), Start(sink));
      && r == Scan(input, DEFAULT_LIMITS, StagingConsumer(importer, Checks(false, totals)), Start(sink))
      && (r.Ok? ==> Counted(r.value) && r.value.metadata)
  {
    hide ScanFrom, Stage;
    CountsAgree(input, 0, importer, totals, ScanState(false, 0, 0, Start(sink)));
  }

  /**
   On every input, with every importer and sink, the ordinal check, the final count check, the
   missing-metadata check and the 32-bit overflow checks never change the result; and on success each
   document of the index has been counted exactly once, as staged or as external.
   */
  lemma {:induction false} ChecksNeverFire<D(!new)>(input: Octets, importer: Importer<D>, totals: bool, sink: D)
    ensures Import(input, importer, Checks(true, totals), sink) == Import(input, importer, Checks(false, totals), sink)
    ensures var r := Import(input, importer, Checks(true, totals), sink);
      r.Ok? ==> exists fields ::
        StartsWithMetadata(input, DEFAULT_LIMITS, fields) && r.value.staged + r.value.external == |Documents(fields[1..])|
  {
    hide Scan, Stage, StartsWithMetadata;
    ScanCounted(input, importer, totals, sink);
    var scan := Scan(input, DEFAULT_LIMITS, StagingConsumer(importer, Checks(true, totals)), Start(sink));
    if scan.Ok? {
      var fields := ScanAcceptsOnly(input, DEFAULT_LIMITS, StagingConsumer(importer, Checks(true, totals)), Start(sink));
    }
  }

  // The 64-bit totals, for the importer that decodes documents.

  const MAX_BATCH: nat := 250_000

  /* A decoded document carries at most the bounded number of facts of each sort. */
  ghost predicate BoundedBatches<D>(importer: Importer<D>)
  {
    forall go, octets ::
      match importer.decode(go, octets)
      case Ok(Batch(occurrences, relationships)) => |occurrences| <= MAX_BATCH && |relationships| <= MAX_BATCH
      case _ => true
  }

  ghost predicate Totalled<D>(s: ScanState<Overlay<D>>)
  {
    && s.documents <= MAX_DOCUMENTS
    && s.sink.occurrences <= s.documents * MAX_BATCH && s.sink.relationships <= s.documents * MAX_BATCH
  }

  lemma StepKeepsTotalled<D>(importer: Importer<D>, s: ScanState<Overlay<D>>, f: Field)
    requires BoundedBatches(importer) && Totalled(s) && (IsDocument(f) ==> s.documents < MAX_DOCUMENTS)
    ensures var r := Update(StagingConsumer(importer, Checks(false, true)), s, f);
      r == Update(StagingConsumer(importer, Checks(false, false)), s, f) && (r.Ok? ==> Totalled(r.value))
  {
    if IsDocument(f) {
      var r := importer.decode(IsGo(s.sink), f.value.octets);
      assert r.Ok? && r.value.Batch? ==> |r.value.occurrences| <= MAX_BATCH && |r.value.relationships| <= MAX_BATCH;
    }
  }

  lemma {:induction false} TotalsAgree<D(!new)>(input: Octets, cursor: nat, importer: Importer<D>, s: ScanState<Overlay<D>>)
    requires cursor <= |input| && BoundedBatches(importer) && Totalled(s)
    ensures ScanFrom(input, cursor, DEFAULT_LIMITS, StagingConsumer(importer, Checks(false, true)), s)
         == ScanFrom(input, cursor, DEFAULT_LIMITS, StagingConsumer(importer, Checks(false, false)), s)
    decreases |input| - cursor
  {
    hide ReadField, Stage, Totalled, BoundedBatches;
    if cursor < |input| {
      var read := ReadField(input, cursor, Admitting<Overlay<D>>(DEFAULT_LIMITS), s);
      if read.Ok? {
        DocumentsAdmitted(input, cursor, s, read.value.field, read.value.next);
        StepKeepsTotalled(importer, s, read.value.field);
        var next := Update(StagingConsumer(importer, Checks(false, true)), s, read.value.field);
        if next.Ok? {
          TotalsAgree(input, read.value.next, importer, next.value);
        }
      }
    }
  }

  lemma DocumentsAdmitted<D>(input: Octets, cursor: nat, s: ScanState<Overlay<D>>, f: Field, next: nat)
    requires cursor <= |input| && Totalled(s)
    requires ReadField(input, cursor, Admitting<Overlay<D>>(DEFAULT_LIMITS), s) == Ok(Framed(f, next))
    ensures IsDocument(f) ==> s.documents < MAX_DOCUMENTS
  {
    hide FieldAt, ReadField;
    ReadFieldIsFieldAt(input, cursor, Admitting<Overlay<D>>(DEFAULT_LIMITS), s, f, next);
  }

  /* The importer of the source: documents are decoded by the modelled passes. */
  function Importing<D>(setting: Setting, admit: Octets -> Result<Metadata, WireError>, accept: (D, Staged) -> Result<D, OverlayError>): Importer<D>
  {
    Importer(admit, (go: bool, octets: Octets) => DecodeStaged(setting, go, octets), accept)
  }

  lemma BatchesBounded<D>(setting: Setting, admit: Octets -> Result<Metadata, WireError>, accept: (D, Staged) -> Result<D, OverlayError>)
    ensures BoundedBatches(Importing(setting, admit, accept))
  {
    hide DecodeStaged;
    forall go, octets
      ensures match Importing(setting, admit, accept).decode(go, octets)
        case Ok(Batch(occurrences, relationships)) => |occurrences| <= MAX_BATCH && |relationships| <= MAX_BATCH
        case _ => true
    {
      StagedWithin(setting, go, octets);
    }
  }

  /* For the importer of the source none of the defensive checks, totals included, ever fires. */
  lemma {:induction false} ImportNeedsNoChecks<D(!new)>(
    input: Octets, setting: Setting, admit: Octets -> Result<Metadata, WireError>, accept: (D, Staged) -> Result<D, OverlayError>, sink: D)
    ensures var importer := Importing(setting, admit, accept);
      Import(input, importer, ALL, sink) == Import(input, importer, Checks(false, false), sink)
  {
    hide Stage, ScanFrom, BoundedBatches;
    var importer := Importing(setting, admit, accept);
    BatchesBounded(setting, admit, accept);
    ChecksNeverFire(input, importer, true, sink);
    TotalsAgree(input, 0, importer, ScanState(false, 0, 0, Start(sink)));
  }

  // What a successful import holds.

  /* The batches among the decoded documents, in order. */
  function BatchesOf<D>(importer: Importer<D>, go: bool, documents: seq<Octets>): seq<Staged>
  {
    if documents == [] then []
    else
      var decoded := importer.decode(go, documents[0]);
      (if decoded.Ok? && decoded.value.Batch? then [decoded.value] else []) + BatchesOf(importer, go, documents[1..])
  }

  /* The sink after it has taken every batch. */
  function AcceptAll<D>(importer: Importer<D>, sink: D, batches: seq<Staged>): Result<D, OverlayError>
  {
    if batches == [] then Ok(sink)
    else match importer.accept(sink, batches[0])
      case Err(e) => Err(e)
      case Ok(sink') => AcceptAll(importer, sink', batches[1..])
  }

  function OccurrenceTotal(batches: seq<Staged>): nat
  {
    if batches == [] then 0 else (if batches[0].Batch? then |batches[0].occurrences| else 0) + OccurrenceTotal(batches[1..])
  }

  function RelationshipTotal(batches: seq<Staged>): nat
  {
    if batches == [] then 0 else (if batches[0].Batch? then |batches[0].relationships| else 0) + RelationshipTotal(batches[1..])
  }

  /* The overlay after these documents: every one decoded, every batch taken by the sink, and the totals of the batches. */
  ghost predicate Holds<D>(importer: Importer<D>, go: bool, o: Overlay<D>, documents: seq<Octets>, r: Overlay<D>)
  {
    var batches := BatchesOf(importer, go, documents);
    && (forall d :: d in documents ==> importer.decode(go, d).Ok?)
    && AcceptAll(importer, o.sink, batches) == Ok(r.sink)
    && r.metadata == o.metadata
    && r.staged == o.staged + |batches| && r.staged + r.external == o.staged + o.external + |documents|
    && r.occurrences == o.occurrences + OccurrenceTotal(batches)
    && r.relationships == o.relationships + RelationshipTotal(batches)
  }

  lemma FirstDocument<D>(importer: Importer<D>, go: bool, o: Overlay<D>, documents: seq<Octets>, r: Overlay<D>, ordinal: nat)
    requires documents != [] && IsGo(o) == go
    ensures match Stage(importer, Checks(false, false), o, ordinal, documents[0])
      case Err(_) => !Holds(importer, go, o, documents, r)
      case Ok(o') => IsGo(o') == go && (Holds(importer, go, o, documents, r) <==> Holds(importer, go, o', documents[1..], r))
  {
    var rest := BatchesOf(importer, go, documents[1..]);
    assert forall d :: d in documents <==> d == documents[0] || d in documents[1..];
    var decoded := importer.decode(go, documents[0]);
    if decoded.Ok? {
      if decoded.value.Batch? {
        var batches := [decoded.value] + rest;
        assert BatchesOf(importer, go, documents) == batches && batches[1..] == rest;
      } else {
        assert BatchesOf(importer, go, documents) == rest;
      }
    }
  }

  lemma {:induction false} FeedHolds<D>(importer: Importer<D>, go: bool, o: Overlay<D>, documents: seq<Octets>, ordinal: nat, r: Overlay<D>)
    requires IsGo(o) == go
    ensures FeedDocuments(StagingConsumer(importer, Checks(false, false)), o, documents, ordinal) == Ok(r) <==> Holds(importer, go, o, documents, r)
    decreases |documents|
  {
    hide Stage, IsGo;
    if documents != [] {
      hide Holds;
      FirstDocument(importer, go, o, documents, r, ordinal);
      match Stage(importer, Checks(false, false), o, ordinal, documents[0])
      case Err(_) =>
      case Ok(o') => FeedHolds(importer, go, o', documents[1..], ordinal + 1, r);
    }
  }

  /**
   An import succeeds exactly when the index starts with admitted metadata of version zero, is within its
   limits, and every document decodes and every batch is taken; the sink has then been given the batches
   in order, and the counts and totals are those of the documents.
   */
  lemma {:induction false} ImportExactly<D(!new)>(input: Octets, fields: seq<Field>, importer: Importer<D>, sink: D, r: Overlay<D>)
    requires BoundedBatches(importer) && StartsWithMetadata(input, Limits(268_435_456, 100_000, 2_097_152, 65_536, 1_048_576), fields)
    ensures Import(input, importer, ALL, sink) == Ok(r) <==>
      var admitted := importer.admit(fields[0].value.octets);
      && admitted.Ok? && admitted.value.version == 0
      && Holds(importer, admitted.value.goProducer, Start(sink).(metadata := Some(admitted.value)), Documents(fields[1..]), r)
  {
    hide Stage, FieldsAt, Following, Holds, ScanFrom, BoundedBatches;
    ChecksNeverFire(input, importer, true, sink);
    TotalsAgree(input, 0, importer, ScanState(false, 0, 0, Start(sink)));
    var consumer := StagingConsumer(importer, Checks(false, false));
    ScanFeedsInOrder(input, fields, DEFAULT_LIMITS, consumer, Start(sink));
    var admitted := importer.admit(fields[0].value.octets);
    if admitted.Ok? {
      var o := Start(sink).(metadata := Some(admitted.value));
      FeedHolds(importer, admitted.value.goProducer, o, Documents(fields[1..]), 0, r);
      assert Holds(importer, admitted.value.goProducer, o, Documents(fields[1..]), r) ==> r.metadata == o.metadata by {
        HoldsMetadata(importer, admitted.value.goProducer, o, Documents(fields[1..]), r);
      }
    }
  }

  lemma HoldsMetadata<D>(importer: Importer<D>, go: bool, o: Overlay<D>, documents: seq<Octets>, r: Overlay<D>)
    ensures Holds(importer, go, o, documents, r) ==> r.metadata == o.metadata
  {
  }

  /* Any other index is refused. */
  lemma {:induction false} ImportNeedsMetadata<D(!new)>(input: Octets, importer: Importer<D>, sink: D)
    requires forall fields :: !StartsWithMetadata(input, Limits(268_435_456, 100_000, 2_097_152, 65_536, 1_048_576), fields)
    ensures Import(input, importer, ALL, sink).Err?
  {
    hide Scan, Stage, StartsWithMetadata;
    assert DEFAULT_LIMITS == Limits(268_435_456, 100_000, 2_097_152, 65_536, 1_048_576);
    ChecksNeverFire(input, importer, true, sink);
  }
}
