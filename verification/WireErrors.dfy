/**
 The failures of the SCIP wire decoder and of the overlay importer above it.

 Cancellation and deadline failures are not modelled: the results hold for runs in which the
 cooperative checks do not fire.
 */
module WireErrors {

  datatype OverlayError = InvalidInput | SourceMismatch | UnsupportedSourceEncoding | ResourceLimit

  /* `ConsumerRejected` carries the reason that the source keeps in the stream state beside it. */
  datatype WireError =
    | InputTooLarge
    | Truncated
    | VarintOverflow
    | UnsupportedWireType
    | FieldTooLarge
    | TooManyDocuments
    | DuplicateMetadata
    | MetadataNotFirst
    | InvalidMetadata
    | UnsupportedProtocolVersion
    | UnsupportedTextEncoding
    | InvalidDocumentHeader
    | InvalidUtf8
    | UnsupportedPositionEncoding
    | TooManyDocumentEntries
    | SourceNotInManifest
    | SourceDigestMismatch
    | SourceNotUtf8
    | InvalidSourceRange
    | InvalidOccurrenceRange
    | InvalidOccurrence
    | InvalidSymbolInformation
    | InvalidRelationship
    | TooManyRelationships
    | ConsumerRejected(reason: OverlayError)

  /* How the importer reports a wire failure. */
  function MapWireError(error: WireError): OverlayError
  {
    match error
    case ConsumerRejected(reason) => reason
    case InputTooLarge | FieldTooLarge | TooManyDocuments | TooManyDocumentEntries | TooManyRelationships => ResourceLimit
    case SourceNotInManifest | SourceDigestMismatch => SourceMismatch
    case UnsupportedTextEncoding => UnsupportedSourceEncoding
    case _ => InvalidInput
  }
}
