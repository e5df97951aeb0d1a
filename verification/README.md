# RepoWitness: verified models

RepoWitness turns untrusted bytes and unordered evidence into canonical, bounded and deterministic
results. This project models the parts of it where that is hardest to see and proves, for all inputs
and all runs, what they promise.

- **SCIP wire decoding** (`Varint`, `Framing`, `ScipScan`, `ScipOverlay`, `Utf8`, `ScipPositions`,
  `ScipDocument`, `ScipRelationships`, `ScipOccurrence`, `ScipFacts`): the hand-written Protobuf reader against a
  grammar stated without a reader, inversion of printing, agreement of the three passes over a
  document, and the order isomorphism between positions and octet offsets in three encodings.
- **Evidence-balanced allocation** (`EvidenceGrouping`, `EvidenceOrder`, `EvidenceInput`,
  `EvidenceAllocation`, `EvidenceFairness`, `EvidenceCompile`): grouping of duplicates, conservation,
  maximality, fairness and order-independence of the allocation.
- **Memory heads** (`MemoryHeads`, `MemoryHistory`, `MemoryMerge`): what a selected head means for a
  history, and how merges bring a record to one head.
- **Manifests and artifact reuse** (`Manifests`, `Reconciliation`, `ArtifactReuse`): the two-index
  merge is the difference of maps; incremental analysis equals clean analysis over every run.
- **Syntax walk** (`SyntaxSites`, `SyntaxWalk`, `SyntaxFinish`, `SyntaxTraversal`): the cursor loop is
  recursive preorder, and its result is accepted again from its parts exactly when nothing was dropped.
- **Canonical encodings** (`Bytes`, `Preimage`, `CanonicalDigest`, `RecordIdText`, `RepositoryPaths`,
  `PathText`, `PackageScope`): injective preimages, canonical order-preserving texts, antichains of roots.
- **Correspondence** (`CorrespondenceNames`, `Correspondence`): the prioritised resolver and the
  name-elided fingerprint.

`Results`, `WireErrors` and `Sorting` are shared. Code that mutates cursors, counters, lists or sets is
a method or a class here, proved equal to a specification function; the laws are proved of that function.
`dafny verify dfyconfig.toml` checks everything.

Where the code does less than its tests or documentation suggest:

- The test at `crates/repowitness-analysis/src/evidence_context.rs:796` says that selection within a
  duplicate group does not depend on input order. The rank and the payload can. `RankCounterexample` and
  `PayloadCounterexample` are concrete groups; `OrderIndependentExactly` says for which groups the claim holds.
- `select_memory_head` evaluates `heads[0]` before it looks at the number of heads, so an approved set in
  which every version is named by another makes it panic where its result type has an indeterminate state.
  `PanicsExactly` gives the condition; `JournalSafe` shows that no append-only journal meets it.
- An analysis with a duplicate site is emitted but not accepted again by `try_from_parts_with_control`:
  `DuplicateNotRebuilt` is a concrete tree, `AnalysisRebuildsExactly` the condition. The tree is any tree of
  the abstract extractor. The extraction rules at `crates/repowitness-analysis/src/raw_syntax.rs:983-1180` push
  each site from its own node, so it is not shown that a real grammar yields a duplicate.
- A selected head can miss approved versions when they form a cycle of their own: `CycleHidesVersions`.
  `ReachesAllExactly` gives the condition; the selected head of an acyclic history meets it.

Digests, identities, ranks and payloads of which only equality or order is used are natural numbers;
paths, texts and hashed data are octet sequences. SHA-256 is an arbitrary function.

## Model

| member | source | states |
|---|---|---|
| Varint.ReadAcceptsExactly | crates/repowitness-analysis/src/scip_wire.rs:1480-1495 | a varint is read as `value` up to `next` if and only if those octets are a terminated encoding of at most ten octets whose value is below 2^64 |
| Varint.ReadRefusesExactly | crates/repowitness-analysis/src/scip_wire.rs:1480-1495 | a varint overflows if and only if nine octets continue and a tenth exceeds one, and is truncated if and only if the input ends before; there is no other failure |
| Varint.ReadInvertsEncode | crates/repowitness-analysis/src/scip_wire.rs:1480-1495 | wherever the encoding of a 64-bit value stands in an input, with anything after it, reading gives the value and the end of the encoding |
| Varint.FitsU64 | crates/repowitness-analysis/src/scip_wire.rs:1486-1490 | the check on the tenth octet is exactly the check that the value is below 2^64 |
| Varint.EncodeFits | crates/repowitness-analysis/src/scip_wire.rs:1544-1550 | a 64-bit value is printed in at most ten octets |
| Varint.ReadVarint | crates/repowitness-analysis/src/scip_wire.rs:1480-1495 | the reading loop computes the specified value, position or error |
| Varint.PushVarint | crates/repowitness-analysis/src/scip_wire.rs:1544-1550 | the printing loop appends the encoding |
| Framing.ReadFieldIsFieldAt | crates/repowitness-analysis/src/scip_wire.rs:1386-1470 | one turn of a pass reads a field if and only if the wire grammar has that field there and the pass admits it |
| Framing.FieldsExactly | crates/repowitness-analysis/src/scip_wire.rs:1497-1525 | the reader accepts an input as a list of fields if and only if the grammar derives that list, which is unique |
| Framing.FieldsInvertPrint | crates/repowitness-analysis/src/scip_wire.rs:1534-1550 | reading the printed form of any list of printable fields gives the list back |
| Framing.WalkIsFold | crates/repowitness-analysis/src/scip_wire.rs:1386-1470 | a pass that admits every field of a well-framed input cannot fail on framing: it is a fold over the fields |
| Framing.WalkSplits | crates/repowitness-analysis/src/scip_wire.rs:1386-1470 | conversely, a pass that succeeds has split the whole input into fields |
| Framing.WalkIsGuardedFold | crates/repowitness-analysis/src/scip_wire.rs:1386-1470 | on every well-framed input a pass, its failures included, is its own decisions and updates folded over the fields |
| Framing.WalkNeedsFields | crates/repowitness-analysis/src/scip_wire.rs:1386-1470 | on an input that is not well framed every pass fails |
| Framing.ReadLengthDelimited | crates/repowitness-analysis/src/scip_wire.rs:1497-1511 | octets of the announced length, or the limit and truncation errors |
| Framing.SkipExact | crates/repowitness-analysis/src/scip_wire.rs:1513-1525 | the cursor moves by exactly the length, or the input is truncated |
| Framing.NextField | crates/repowitness-analysis/src/scip_wire.rs:1386-1470 | the imperative field reader computes the specified field, position or error |
| ScipScan.ScanScipWire | crates/repowitness-analysis/src/scip_wire.rs:1373-1478 | the scanning loop, with its counters and consumer calls, computes the specified scan for every input |
| ScipScan.SkipIgnored | crates/repowitness-analysis/src/scip_wire.rs:1429-1466 | fields of no interest are skipped to the specified position |
| ScipScan.ScanFeedsInOrder | crates/repowitness-analysis/src/scip_wire.rs:1373-1478 | on fields that start with metadata the scan calls the metadata consumer once, then the document consumer on each document in order with ordinals 0..n-1 |
| ScipScan.ScanAcceptsOnly | crates/repowitness-analysis/src/scip_wire.rs:1373-1478 | any success means that the input starts with octet 0x0A and splits into metadata followed by within-limit fields, with as many documents as counted |
| ScipScan.ScanInvertsPrint | crates/repowitness-analysis/src/scip_wire.rs:1373-1550 | scanning the printed form of metadata and any within-limit following fields feeds exactly these |
| ScipScan.ScanIsFeed | crates/repowitness-analysis/src/scip_wire.rs:1386-1470 | from any state with metadata seen, the loop is the feeding of the remaining documents with consecutive ordinals |
| ScipScan.ScanSplits | crates/repowitness-analysis/src/scip_wire.rs:1386-1470 | a successful scan from any state comes from a list of fields that stay within the document limit |
| ScipScan.OneOctetTag | crates/repowitness-analysis/src/scip_wire.rs:1401-1410 | a metadata tag that ends at offset 1 is exactly the octet 0x0A |
| ScipScan.ScanNeedsMetadata | crates/repowitness-analysis/src/scip_wire.rs:1401-1466 | a well-framed input without its metadata in front, tagged by one octet, is refused as such and nothing is handed on |
| ScipScan.ScanStops | crates/repowitness-analysis/src/scip_wire.rs:1401-1466 | an input whose first unacceptable field is the k-th is handed on up to there and then refused for what is wrong with that field: second metadata, one document too many, or too long a payload |
| ScipOverlay.IndexStream.constructor | crates/repowitness-analysis/src/scip_overlay.rs:169-178 | a stream starts with zero counters |
| ScipOverlay.IndexStream.ReserveDocument | crates/repowitness-analysis/src/scip_overlay.rs:231-246 | the 64-bit totals grow by the sizes of the batch, or the resource limit is reported |
| ScipOverlay.IndexStream.StageDocument | crates/repowitness-analysis/src/scip_overlay.rs:179-229 | one document is decoded, its totals reserved, then given to the sink and counted, or fails with the specified error |
| ScipOverlay.StepKeepsCounted | crates/repowitness-analysis/src/scip_overlay.rs:179-229 | for every importer, each accepted field keeps staged plus ignored documents equal to documents scanned, with and without the checks on counts |
| ScipOverlay.CountsAgree | crates/repowitness-analysis/src/scip_overlay.rs:179-229 | for every importer and from any counted state, the scans with and without the checks on counts agree on the rest of the input |
| ScipOverlay.ChecksNeverFire | crates/repowitness-analysis/src/scip_overlay.rs:184-316 | for every importer and input, the ordinal, missing-metadata, 32-bit overflow and final-count checks never change the result, and on success every document is counted once as staged or ignored |
| ScipOverlay.BatchesBounded | crates/repowitness-analysis/src/scip_overlay.rs:359-527 | the importer that decodes documents by the modelled passes only gives batches within the bounds on occurrences and relationships |
| ScipOverlay.TotalsAgree | crates/repowitness-analysis/src/scip_overlay.rs:231-246 | with bounded batches, the scans with and without the checks on 64-bit totals agree |
| ScipOverlay.ImportNeedsNoChecks | crates/repowitness-analysis/src/scip_overlay.rs:179-316 | for that importer, the import with all checks equals the import with none, on every input |
| ScipOverlay.ImportExactly | crates/repowitness-analysis/src/scip_overlay.rs:179-316 | an import succeeds if and only if the metadata is admitted with version zero and every document decodes and every batch is taken; the sink then got the batches in order, and counts and totals are those of the documents |
| ScipOverlay.ImportNeedsMetadata | crates/repowitness-analysis/src/scip_overlay.rs:260-316 | any index that does not start with its metadata or exceeds a limit is refused |
| ScipFacts.DecodeOverlayDocument | crates/repowitness-analysis/src/scip_overlay.rs:359-425 | header, source check, occurrence pass and relationship pass put together compute the batch, or the error as the importer reports it, of which the next rows say what it is |
| ScipFacts.BatchExactly | crates/repowitness-analysis/src/scip_overlay.rs:359-425 | with an accepted header, decoding succeeds if and only if the path is valid and the source pinned, every occurrence and symbol message is acceptable and the totals are within bounds; the batch then has the fact of each counted occurrence message, numbered from 0 with its octet span, and every pair of the counted symbol messages in order |
| ScipFacts.FedFacts | crates/repowitness-analysis/src/scip_overlay.rs:374-415 | feeding any messages succeeds if and only if all are readable and their symbols fit; each then has its fact, in order |
| ScipFacts.StagedExactly | crates/repowitness-analysis/src/scip_overlay.rs:191-222 | a document is external if and only if the Go producer put it above the root; otherwise it is the batch of its valid path and source in its own encoding, or in UTF-8 where a Go document left that out |
| ScipFacts.StagedRefused | crates/repowitness-analysis/src/scip_overlay.rs:191-222 | why a document inside the root is refused before it is decoded: an invalid path, a source that is not known, an encoding that is left out |
| ScipFacts.StagedWithin | crates/repowitness-analysis/src/scip_overlay.rs:191-222 | every staged batch is within the bounds on occurrences and relationships |
| Utf8.EncodeInvertsDecode | crates/repowitness-analysis/src/scip_wire.rs:1258-1272 | octets accepted as UTF-8 (section 3 of RFC 3629) are the encoding of what they decode to |
| Utf8.DecodeInvertsEncode | crates/repowitness-analysis/src/scip_wire.rs:1258-1272 | every scalar sequence is decoded from its encoding |
| Utf8.BoundaryIsOffset | crates/repowitness-analysis/src/scip_wire.rs:1326-1333 | every offset that is a character boundary by its octet is the offset of some scalar |
| Utf8.OffsetIsBoundary | crates/repowitness-analysis/src/scip_wire.rs:1326-1333 | the offset of every scalar is a character boundary |
| Utf8.EncodeSlice | crates/repowitness-analysis/src/scip_wire.rs:1326-1333 | the octets between two scalar offsets are the encoding of the scalars between them |
| ScipPositions.UnitOffsetToByteOffset | crates/repowitness-analysis/src/scip_wire.rs:1340-1362 | the walk over a line finds the octet offset of exactly the unit counts that fall between scalars |
| ScipPositions.LineCharacterToByteOffset | crates/repowitness-analysis/src/scip_wire.rs:1319-1338 | the octet test for UTF-8 and the walk for UTF-16 and UTF-32 both compute the specified offset |
| ScipPositions.SourceLine | crates/repowitness-analysis/src/scip_wire.rs:1285-1317 | the line loop gives the octet offset and the content of the requested line, or rejects it |
| ScipPositions.StripTerminator | crates/repowitness-analysis/src/scip_wire.rs:1305-1316 | the content of a line leaves out its line feed and one carriage return before it |
| ScipPositions.LinesExist | crates/repowitness-analysis/src/scip_wire.rs:1285-1317 | a line number is accepted if and only if it is at most the number of line feeds |
| ScipPositions.LineStartsExactly | crates/repowitness-analysis/src/scip_wire.rs:1285-1317 | line n starts at 0 or after a line feed, exactly where n line feeds have gone before |
| ScipPositions.ContentExactly | crates/repowitness-analysis/src/scip_wire.rs:1305-1316 | the content of a line runs to its line feed, or to the end of the text, without one carriage return before |
| ScipPositions.LinesIncrease | crates/repowitness-analysis/src/scip_wire.rs:1285-1317 | later lines start strictly later, beyond the content of earlier ones |
| ScipPositions.LocateBoundary | crates/repowitness-analysis/src/scip_wire.rs:1273-1362 | every position that points at a scalar boundary of a line content is accepted with that octet offset |
| ScipPositions.LocateOnlyBoundaries | crates/repowitness-analysis/src/scip_wire.rs:1273-1362 | every accepted position points at a scalar boundary inside the content of its line |
| ScipPositions.OrderIsomorphism | crates/repowitness-analysis/src/scip_wire.rs:1273-1362 | for accepted positions, lexicographic order of (line, character) is the order of octet offsets, and equal offsets mean equal positions |
| ScipPositions.EncodingsAgree | crates/repowitness-analysis/src/scip_wire.rs:1319-1362 | the positions of one boundary in any two of the three encodings are accepted with the same octet offset |
| ScipPositions.UnitsExactly | crates/repowitness-analysis/src/scip_wire.rs:1340-1362 | what the three encodings count before a scalar: the octets of its UTF-8 prefix, the units of its UTF-16 prefix, the scalars |
| ScipPositions.RangeAcceptedExactly | crates/repowitness-analysis/src/scip_wire.rs:1258-1272 | a range is accepted if and only if both ends are and they are not reversed; its span then has boundaries at both ends |
| ScipPositions.SpanExactly | crates/repowitness-analysis/src/scip_wire.rs:1258-1272 | a range whose ends point at two scalars of the source is accepted if and only if they are not reversed; its span is from the octet offset of the one to that of the other, and its octets are the encoding of the text between |
| ScipPositions.RangeRefused | crates/repowitness-analysis/src/scip_wire.rs:1258-1272 | a source that is not UTF-8 is refused as such, and any other refused range as an invalid range |
| ScipDocument.ParseDocumentHeader | crates/repowitness-analysis/src/scip_wire.rs:535-617 | the header loop computes the specified header or error |
| ScipDocument.HeaderCounts | crates/repowitness-analysis/src/scip_wire.rs:535-617 | the header counts are the numbers of occurrence and symbol fields |
| ScipDocument.HeaderExactly | crates/repowitness-analysis/src/scip_wire.rs:535-617 | a header is accepted if and only if every field is of its kind and length, the path stands once, language and encoding at most once and messages are within limits; path, language, encoding and counts are then those of the fields |
| ScipDocument.HeaderRefuses | crates/repowitness-analysis/src/scip_wire.rs:535-617 | a refused header names what is wrong with its fields: too long, not text, too many, of another kind or repeated, or that there is no path |
| ScipDocument.HeaderNeedsFields | crates/repowitness-analysis/src/scip_wire.rs:535-617 | an input that is not well framed has no header |
| ScipDocument.DecodeScipDocument | crates/repowitness-analysis/src/scip_wire.rs:1184-1254 | the decoding loop parses each occurrence, tests the limit and then calls its handler, as specified |
| ScipDocument.PassesAgree | crates/repowitness-analysis/src/scip_wire.rs:535-1254 | once the header pass accepts, neither later pass can fail on framing: decoding is the feeding of exactly the counted occurrences numbered from 0, and the relationship pass the feeding of exactly the counted symbols |
| ScipRelationships.DecodeDocumentRelationships | crates/repowitness-analysis/src/scip_overlay.rs:427-527 | the relationship loop, with its checks of counts, symbols, octets and kinds in their order, computes the specified collection or error |
| ScipRelationships.AddAllExactly | crates/repowitness-analysis/src/scip_overlay.rs:470-527 | the pairs of one symbol are added if and only if every target and kind is valid and the number and the owned octets stay within their bounds |
| ScipRelationships.CollectExactly | crates/repowitness-analysis/src/scip_overlay.rs:427-527 | the pass succeeds if and only if every symbol message is acceptable and the totals fit, and it then holds all pairs in order with their exact owned octets |
| ScipRelationships.PairsExactly | crates/repowitness-analysis/src/scip_overlay.rs:470-527 | a pair is collected if and only if some message has its source as symbol and relates it to its target in its ways |
| ScipRelationships.CollectRefuses | crates/repowitness-analysis/src/scip_overlay.rs:427-527 | a failing pass names the error of parsing a message, a message that is not acceptable, or a total out of bounds |
| ScipOccurrence.LegacyRange.constructor | crates/repowitness-analysis/src/scip_wire.rs:1018-1022 | no values at first |
| ScipOccurrence.LegacyRange.Push | crates/repowitness-analysis/src/scip_wire.rs:1024-1038 | a value is appended, the fifth is rejected |
| ScipOccurrence.LegacyRange.ToRange | crates/repowitness-analysis/src/scip_wire.rs:1040-1053 | three or four values form a range, none is no range, other counts are rejected |
| ScipOccurrence.PushPackedValues | crates/repowitness-analysis/src/scip_wire.rs:1011-1053 | a packed chunk appends its varints in order |
| ScipOccurrence.ParseOccurrenceRange | crates/repowitness-analysis/src/scip_wire.rs:761-828 | the range loop computes the specified range or error |
| ScipOccurrence.PiecesDecodeAlike | crates/repowitness-analysis/src/scip_wire.rs:761-828 | for every way to split values into packed chunks and single varints, canonical or overlong, the range parsed is the range of the values |
| ScipOccurrence.PrintedPiecesDecodeAlike | crates/repowitness-analysis/src/scip_wire.rs:761-828 | any two splits of the same values, printed, parse to the same result |
| ScipOccurrence.FinishExactly | crates/repowitness-analysis/src/scip_wire.rs:1040-1053 | three values are a line, a character and an end character on that line, four have the end line before the end character |
| ScipOccurrence.TypedExactly | crates/repowitness-analysis/src/scip_wire.rs:1055-1127 | a typed range is accepted if and only if each of its three or four components stands once, below 2^31; it is then the range of these values in the order of their field numbers |
| ScipOccurrence.RangeExactly | crates/repowitness-analysis/src/scip_wire.rs:761-828 | an occurrence message has a range if and only if it is spelled as legacy values, as one typed message, or both, and every spelling says that range |
| ScipOccurrence.RangeNeedsFields | crates/repowitness-analysis/src/scip_wire.rs:761-828 | a message that is not well framed has no range |
| ScipOccurrence.VarintsExactly | crates/repowitness-analysis/src/scip_wire.rs:780-791 | the values of a packed chunk are those that its octets spell, varint after varint, canonical or overlong |
| EvidenceGrouping.MergesExactly | crates/repowitness-analysis/src/evidence_context.rs:303-345 | merging a group succeeds if and only if costs agree and providers are distinct; the result is then described by the group and its leader |
| EvidenceGrouping.CompatibleAppend | crates/repowitness-analysis/src/evidence_context.rs:303-316 | a further member can be merged if and only if the extended group is compatible |
| EvidenceGrouping.MergedExactly | crates/repowitness-analysis/src/evidence_context.rs:303-345 | payload and rank of a merged group, in any order: those of the last member that is better than all before it, by tier or by provider within the best tier, the rank being the least of that tier from there on |
| EvidenceOrder.CommonPart | crates/repowitness-analysis/src/evidence_context.rs:303-345 | tier, cost, identity and sorted attributions of a merged group do not depend on input order |
| EvidenceOrder.OrderIndependentExactly | crates/repowitness-analysis/src/evidence_context.rs:303-345 | the whole merged candidate is independent of input order if and only if the leader of the group has the least rank of its tier and either the least provider of the group or a payload shared by its tier |
| EvidenceOrder.DistinctTiersDecide | crates/repowitness-analysis/src/evidence_context.rs:796 | pairwise distinct tiers are enough for independence |
| EvidenceOrder.RankCounterexample | crates/repowitness-analysis/src/evidence_context.rs:317-330 | two offers of one tier whose merged rank depends on input order |
| EvidenceOrder.PayloadCounterexample | crates/repowitness-analysis/src/evidence_context.rs:317-330 | three offers whose merged payload depends on input order |
| EvidenceInput.BuildInput | crates/repowitness-analysis/src/evidence_context.rs:232-274 | the grouping loop computes the specified request or error |
| EvidenceInput.GroupsExactly | crates/repowitness-analysis/src/evidence_context.rs:252-266 | grouping succeeds if and only if no offer repeats the identity of the anchor and each identity group is compatible; each group is then the merge of its offers |
| EvidenceInput.GroupingIgnoresOrder | crates/repowitness-analysis/src/evidence_context.rs:252-266 | success of grouping never depends on input order, and neither does its result when every group is decided |
| EvidenceInput.RequestIgnoresOrder | crates/repowitness-analysis/src/evidence_context.rs:232-274 | the same for whole requests |
| EvidenceInput.RequestExactly | crates/repowitness-analysis/src/evidence_context.rs:232-274 | which requests are refused and how, and that an accepted one has one candidate for each identity offered, in increasing order, merged from the offers of that identity |
| EvidenceInput.RequestIndependentExactly | crates/repowitness-analysis/src/evidence_context.rs:232-274 | an accepted request is the same in every order of its offers if and only if every group is decided |
| EvidenceAllocation.TurnExactly | crates/repowitness-analysis/src/evidence_context.rs:503-520 | a turn of a lane omits the items in front that do not fit and admits the first that does |
| EvidenceAllocation.RunConserves | crates/repowitness-analysis/src/evidence_context.rs:424-557 | from any sound state, a successful run admits or omits every item of the lanes exactly once, uses exactly the admitted cost, within budget, and omits nothing that would still fit |
| EvidenceAllocation.RoundEmpties | crates/repowitness-analysis/src/evidence_context.rs:503-520 | a round that admits nothing leaves every lane empty |
| EvidenceFairness.LanesShareRounds | crates/repowitness-analysis/src/evidence_context.rs:503-520 | a lane that still holds items after r rounds was admitted from exactly once in each of them; no lane has more |
| EvidenceFairness.LanesStayOrdered | crates/repowitness-analysis/src/evidence_context.rs:438-520 | admitted items of a tier followed by the rest of its lane stay in (rank, cost, identity) order |
| EvidenceFairness.RunIsRounds | crates/repowitness-analysis/src/evidence_context.rs:449-451 | a successful run is a number of rounds of which exactly the last admits nothing |
| EvidenceFairness.RoundInOrder | crates/repowitness-analysis/src/evidence_context.rs:503-520 | one round adds items of strictly increasing tiers after those admitted before |
| EvidenceCompile.LanesHoldAll | crates/repowitness-analysis/src/evidence_context.rs:433-447 | the seven lanes together hold exactly the candidates |
| EvidenceCompile.AllocationConserves | crates/repowitness-analysis/src/evidence_context.rs:424-557 | the anchor and every candidate are admitted once or omitted once, the units used are their exact cost within budget, and nothing omitted would fit |
| EvidenceCompile.AllocationOrdered | crates/repowitness-analysis/src/evidence_context.rs:438-451 | in the result the items of each tier are in (rank, cost, identity) order |
| EvidenceCompile.AllocationRanked | crates/repowitness-analysis/src/evidence_context.rs:438-451 | of two admitted items of one tier the first has the smaller rank, then the smaller cost, then the smaller identity |
| EvidenceCompile.AnchorFirst | crates/repowitness-analysis/src/evidence_context.rs:446-451 | an anchor that fits the budget is the first item, one that does not is the first omission |
| EvidenceCompile.AllocationRefuses | crates/repowitness-analysis/src/evidence_context.rs:433-437 | a candidate in the anchor tier is refused as invalid input; the only other failure is a count |
| EvidenceCompile.AllocationFair | crates/repowitness-analysis/src/evidence_context.rs:503-520 | from the start of an allocation, every lane that still holds items after r rounds has r admissions and every other lane at most r |
| EvidenceCompile.AllocationSucceeds | crates/repowitness-analysis/src/evidence_context.rs:489-528 | when each cost fits 64 bits on top of the budget, no counter overflows and allocation succeeds |
| EvidenceCompile.CostBoundExactly | crates/repowitness-analysis/src/evidence_context.rs:489-501 | a candidate is allocated beside every representable anchor if and only if its cost fits 64 bits on top of the budget |
| EvidenceCompile.AllocationIgnoresOrder | crates/repowitness-analysis/src/evidence_context.rs:433-451 | candidates with distinct identities allocate alike in every order |
| EvidenceCompile.RequestPlaces | crates/repowitness-analysis/src/evidence_context.rs:232-274 | an accepted request has one candidate for each offered identity and none in the anchor tier |
| EvidenceCompile.CompileIgnoresOrder | crates/repowitness-analysis/src/evidence_context.rs:232-453 | a request whose groups are decided compiles alike in every order of its offers |
| EvidenceCompile.CompileConserves | crates/repowitness-analysis/src/evidence_context.rs:232-453 | from offers to result, the anchor and the candidate of each offered identity are admitted or omitted exactly once, within budget and at exact cost |
| EvidenceCompile.ReportExactly | crates/repowitness-analysis/src/evidence_context.rs:530-550 | the report lists, in tier order, exactly the tiers that omitted something with their counts |
| EvidenceCompile.ReportCountsAll | crates/repowitness-analysis/src/evidence_context.rs:530-550 | the reported counts add up to the omitted candidates |
| EvidenceCompile.Allocator.constructor | crates/repowitness-analysis/src/evidence_context.rs:465-481 | an allocation starts empty |
| EvidenceCompile.Allocator.TryAdmit | crates/repowitness-analysis/src/evidence_context.rs:483-501 | one candidate is admitted, omitted or found unrepresentable, with the whole new state |
| EvidenceCompile.Allocator.AdmitOne | crates/repowitness-analysis/src/evidence_context.rs:509-518 | one lane is popped until something is admitted |
| EvidenceCompile.Allocator.AdmitRound | crates/repowitness-analysis/src/evidence_context.rs:503-520 | a round over the seven lanes gives the specified state, lanes and flag |
| EvidenceCompile.Allocator.Omit | crates/repowitness-analysis/src/evidence_context.rs:522-528 | the count of the tier goes up by one, checked |
| EvidenceCompile.Allocator.Finish | crates/repowitness-analysis/src/evidence_context.rs:530-557 | the report of the omitted candidates |
| EvidenceCompile.FillLanes | crates/repowitness-analysis/src/evidence_context.rs:432-447 | candidates are distributed to lanes and each lane is sorted; an anchor-tier candidate is invalid input |
| EvidenceCompile.CompileEvidenceContext | crates/repowitness-analysis/src/evidence_context.rs:424-453 | the whole imperative allocation computes the specified result or error, and terminates |
| MemoryHeads.SelectMemoryHead | crates/repowitness-application/src/memory_projection.rs:317-387 | the loops over mutable sets compute the selection, error or panic, of which the next rows say when each is given |
| MemoryHeads.CheckVersions | crates/repowitness-application/src/memory_projection.rs:326-335 | the first loop accepts if and only if all versions belong to one record and no revision repeats |
| MemoryHeads.CollectParents | crates/repowitness-application/src/memory_projection.rs:348-359 | the second loop collects exactly the approved parents that are approved and those that are missing |
| MemoryHeads.SelectsExactly | crates/repowitness-application/src/memory_projection.rs:360-387 | a version is selected if and only if the set is within limits and consistent, it is the only head and no parent is missing |
| MemoryHeads.RefusedExactly | crates/repowitness-application/src/memory_projection.rs:320-335 | a list is refused as too long if and only if it has more than 4096 versions, and as invalid if and only if it is not and has two records or a revision twice |
| MemoryHeads.StatesExactly | crates/repowitness-application/src/memory_projection.rs:317-387 | for every list of versions, when each outcome is given: no version approved; an approved revision that no approved version names, with or without a parent that is no version; several of them; none |
| MemoryHeads.SelectionExactly | crates/repowitness-application/src/memory_projection.rs:360-387 | the head of a selection is the one approved revision that no approved version names, and its counts are the numbers of approved revisions, of unnamed ones and of missing parents |
| MemoryHeads.SelectionIgnoresOrder | crates/repowitness-application/src/memory_projection.rs:317-387 | the outcome does not depend on the order of versions |
| MemoryHistory.HeadDescendsFromAll | crates/repowitness-application/src/memory_projection.rs:317-387 | in an acyclic history every approved version is an ancestor of the selected head through approved parents |
| MemoryHistory.SelectedIsCommonDescendant | crates/repowitness-application/src/memory_projection.rs:317-387 | in an acyclic history a version is selected if and only if nothing is missing and it descends from every approved version |
| MemoryHistory.CycleHidesVersions | crates/repowitness-application/src/memory_projection.rs:360-387 | with a cycle, a selected head can miss approved versions |
| MemoryHistory.ReachesAllExactly | crates/repowitness-application/src/memory_projection.rs:360-387 | a head reaches every approved version if and only if no non-empty set of other approved versions is named only from within itself |
| MemoryHistory.PanicsExactly | crates/repowitness-application/src/memory_projection.rs:367-375 | selection panics, by indexing an empty list of heads, if and only if there are approved versions and each is named by an approved one |
| MemoryHistory.SelfParentPanics | crates/repowitness-application/src/memory_projection.rs:367-375 | a version that names itself makes selection panic |
| MemoryHistory.AcyclicNeverPanics | crates/repowitness-application/src/memory_projection.rs:317-387 | an acyclic history never makes selection panic |
| MemoryHistory.GrownAcyclic | crates/repowitness-application/src/memory_projection.rs:317-387 | a journal in which no version names itself or a later one is acyclic |
| MemoryHistory.JournalSafe | crates/repowitness-application/src/memory_projection.rs:317-387 | over every append-only run of new versions selection never panics and a selected head descends from all approved versions |
| MemoryMerge.AppendApproved | crates/repowitness-application/src/memory_projection.rs:348-363 | appending a new approved version removes its parents from the heads and adds it unless it was named before |
| MemoryMerge.AppendUnapproved | crates/repowitness-application/src/memory_projection.rs:337-363 | appending an unapproved version changes no head |
| MemoryMerge.MergeReplaces | crates/repowitness-application/src/memory_projection.rs:348-363 | merging some of the heads replaces exactly these by the merge |
| MemoryMerge.MergeSelected | crates/repowitness-application/src/memory_projection.rs:317-387 | from any journal with nothing missing and at least one head, a version whose parents are the current heads is selected |
| MemoryMerge.MergesConverge | crates/repowitness-domain/src/memory/record.rs:10-35 | with at most eight parents in a version, any mergeable record reaches one selected head in the stated number of merges |
| MemoryMerge.MergesNeededExactly | crates/repowitness-domain/src/memory/record.rs:10-35 | that number is the number of heads plus five, divided by seven |
| MemoryMerge.FewerNeverSuffice | crates/repowitness-domain/src/memory/record.rs:10-35 | no run of appends reaches a single head with fewer versions |
| Manifests.ManifestExactly | crates/repowitness-domain/src/snapshot.rs:351-380 | a manifest is accepted if and only if it is within the limit and its paths are distinct; comparing sorted neighbours suffices |
| Manifests.ManifestIgnoresOrder | crates/repowitness-domain/src/snapshot.rs:351-380 | the manifest does not depend on the order in which entries were collected |
| Reconciliation.DiffExactly | crates/repowitness-analysis/src/reconciliation.rs:362-407 | the merge reports a change if and only if the manifests differ by it as maps from path to type and digest |
| Reconciliation.DiffOrdered | crates/repowitness-analysis/src/reconciliation.rs:362-407 | changes come in strictly increasing path order |
| Reconciliation.ApplyGivesCurrent | crates/repowitness-analysis/src/reconciliation.rs:362-407 | applying the changes to the previous manifest gives exactly the current one |
| Reconciliation.DiffSwapped | crates/repowitness-analysis/src/reconciliation.rs:362-407 | swapping the manifests inverts each change and keeps the unchanged count |
| Reconciliation.InverseGivesPrevious | crates/repowitness-analysis/src/reconciliation.rs:362-407 | the inverted changes lead back from the current to the previous manifest |
| Reconciliation.DiffCounts | crates/repowitness-analysis/src/reconciliation.rs:362-429 | each manifest has as many entries as unchanged, changed and removed (or added) together |
| Reconciliation.ReconciledExactly | crates/repowitness-analysis/src/reconciliation.rs:284-315 | too many hints, too many changed paths, or else exactly the changes of the manifests as maps in path order, the number of entries in both, and the numbers of hints, of different hints and of hints that neither manifest knows |
| Reconciliation.UnchangedExactly | crates/repowitness-analysis/src/reconciliation.rs:409-429 | the unchanged entries are those of both manifests |
| Reconciliation.HintsDoNotMatter | crates/repowitness-analysis/src/reconciliation.rs:284-315 | read off the specification: hints within their limit affect only hint counts; the method meets that specification |
| Reconciliation.ContainsPath | crates/repowitness-analysis/src/reconciliation.rs:355-360 | the binary search finds exactly the paths of the manifest |
| Reconciliation.CountUnmatchedHints | crates/repowitness-analysis/src/reconciliation.rs:333-353 | the count of hints in neither manifest |
| Reconciliation.Builder.constructor | crates/repowitness-analysis/src/reconciliation.rs:252-258 | an empty builder |
| Reconciliation.Builder.Push | crates/repowitness-analysis/src/reconciliation.rs:260-267 | a change is appended unless the limit is reached |
| Reconciliation.Builder.ReconcileEqualPath | crates/repowitness-analysis/src/reconciliation.rs:409-429 | equal entries are counted, others are pushed as changed |
| Reconciliation.Builder.AppendRemaining | crates/repowitness-analysis/src/reconciliation.rs:431-450 | the rest of one manifest is pushed as additions or removals within the limit |
| Reconciliation.Builder.ReconcileEntries | crates/repowitness-analysis/src/reconciliation.rs:362-407 | the two-index loop builds exactly the difference, or fails if and only if it exceeds the limit |
| Reconciliation.ReconcileSourceManifests | crates/repowitness-analysis/src/reconciliation.rs:284-315 | the whole operation computes the specified result or error; with hints within limit it fails if and only if the difference exceeds the change limit, and otherwise gives exactly the difference |
| ArtifactReuse.PlanArtifactReuse | crates/repowitness-analysis/src/artifact_reuse.rs:196-246 | each entry is planned under its path with a key of its digest and its four semantics, for reuse if and only if that key is in the inventory; the reused are counted, and with the analysed make up the manifest |
| ArtifactReuse.ArtifactStore.MaterializePlan | crates/repowitness-analysis/src/artifact_reuse.rs:329-351 | the consuming loop gives the specified output and store |
| ArtifactReuse.RoundIsClean | crates/repowitness-analysis/src/artifact_reuse.rs:196-351 | with analysis any function of digest and semantics, materialising a plan against any inventory of a verified store gives for each entry the analysis of its own digest and semantics, and leaves a verified store with every key of the manifest |
| ArtifactReuse.HonouredExactly | crates/repowitness-analysis/src/artifact_reuse.rs:329-351 | with any store and inventory, materialising works if and only if the store has every key of the manifest that the inventory claims |
| ArtifactReuse.RunsAreClean | crates/repowitness-analysis/src/artifact_reuse.rs:196-351 | over every sequence of manifests and semantics from an empty store, all outputs are those of analysing every entry afresh from its digest and semantics, and the store holds exactly the keys seen |
| ArtifactReuse.ReusedExactly | crates/repowitness-analysis/src/artifact_reuse.rs:196-246 | in every run an entry is reused if and only if an earlier generation had an entry with the same digest under the same analyzer, configuration, schema and canonicalization |
| ArtifactReuse.OutputsExactly | crates/repowitness-analysis/src/artifact_reuse.rs:196-351 | in every run the output of a generation holds for each of its paths the analysis of that entry, and nothing else |
| ArtifactReuse.ReusedCounted | crates/repowitness-analysis/src/artifact_reuse.rs:196-246 | the reported number is the number of entries to reuse |
| SyntaxWalk.WalkExactly | crates/repowitness-analysis/src/raw_syntax.rs:787-887 | the walk of a tree succeeds if and only if its size, height, sites and text are within limits and extraction succeeds; it then reports exactly the sites in preorder, the size, the error nodes and the height |
| SyntaxWalk.WalkBlames | crates/repowitness-analysis/src/raw_syntax.rs:787-887 | a walk that fails names a limit that the tree exceeds, or the error of one of its extractions |
| SyntaxWalk.TreePasses | crates/repowitness-analysis/src/raw_syntax.rs:787-887 | the walk of any subtree is a pass over its preorder within the depth limit |
| SyntaxTraversal.Cursor.constructor | crates/repowitness-analysis/src/raw_syntax.rs:795 | the cursor starts at the root |
| SyntaxTraversal.Cursor.GotoFirstChild | crates/repowitness-analysis/src/raw_syntax.rs:798 | the cursor moves to the first child if there is one |
| SyntaxTraversal.Cursor.GotoNextSibling | crates/repowitness-analysis/src/raw_syntax.rs:802 | the cursor moves to the next sibling if there is one |
| SyntaxTraversal.Cursor.GotoParent | crates/repowitness-analysis/src/raw_syntax.rs:803 | the cursor moves to the parent unless at the root |
| SyntaxTraversal.TraversalState.constructor | crates/repowitness-analysis/src/raw_syntax.rs:811-819 | all counters are zero |
| SyntaxTraversal.TraversalState.VisitNode | crates/repowitness-analysis/src/raw_syntax.rs:822-864 | a visit counts the node and adds its sites, or fails as specified |
| SyntaxTraversal.TraversalState.Descend | crates/repowitness-analysis/src/raw_syntax.rs:866-879 | the depth goes up by one, checked, and the maximum follows |
| SyntaxTraversal.TraversalState.Ascend | crates/repowitness-analysis/src/raw_syntax.rs:881-887 | the depth goes down by one, checked |
| SyntaxTraversal.TraversalState.NumberSites | crates/repowitness-analysis/src/raw_syntax.rs:899-916 | sites are numbered in place, validated and counted by kind |
| SyntaxTraversal.TraversalState.FinishAnalysis | crates/repowitness-analysis/src/raw_syntax.rs:889-930 | completion computes the specified analysis or error |
| SyntaxTraversal.NextNode | crates/repowitness-analysis/src/raw_syntax.rs:802-807 | the inner loop goes up to the next unvisited node or out of the root, never underflowing the depth |
| SyntaxTraversal.TraverseSites | crates/repowitness-analysis/src/raw_syntax.rs:787-809 | the loop without recursion computes the recursive walk and its completion, visiting the nodes in preorder; on failure it has visited a prefix of the preorder |
| SyntaxFinish.CanonicalExactly | crates/repowitness-analysis/src/raw_syntax.rs:889-905 | emitted sites are strictly ordered, numbered by position, and are exactly the sites found |
| SyntaxFinish.CanonicalOrdered | crates/repowitness-analysis/src/raw_syntax.rs:933-948 | of two emitted sites the first is smaller by occurrence start, then occurrence end, target start, target end, kind and evidence |
| SyntaxFinish.EmittedSum | crates/repowitness-analysis/src/raw_syntax.rs:899-916 | the four counts by kind add up to the number of sites |
| SyntaxFinish.EmittedExactly | crates/repowitness-analysis/src/raw_syntax.rs:899-916 | the counts are the numbers of imports, references, calls and test markers |
| SyntaxFinish.FinishExactly | crates/repowitness-analysis/src/raw_syntax.rs:889-930 | an analysis is completed if and only if every emitted site has the source text of its target, inside its occurrence |
| SyntaxFinish.RebuildExactly | crates/repowitness-analysis/src/raw_syntax.rs:367-441 | parts make an analysis if and only if all totals are within limits, the sites are sound and numbered by position, and the text total is theirs |
| SyntaxFinish.FinishAccepts | crates/repowitness-analysis/src/raw_syntax.rs:889-930 | sites pushed by extraction are never rejected at the end |
| SyntaxFinish.NothingDropped | crates/repowitness-analysis/src/raw_syntax.rs:896-898 | no site is dropped if and only if the sites found are distinct |
| SyntaxFinish.RebuildsExactly | crates/repowitness-analysis/src/raw_syntax.rs:367-930 | an analysis is accepted again from its own parts if and only if no duplicate was dropped |
| SyntaxTraversal.TryFromParts | crates/repowitness-analysis/src/raw_syntax.rs:367-441 | the reconstruction loop computes the specified analysis or error |
| SyntaxTraversal.AnalysisRebuildsExactly | crates/repowitness-analysis/src/raw_syntax.rs:367-930 | for every tree within limits the analysis completes, and is accepted again from its parts if and only if no site was found twice |
| SyntaxTraversal.DuplicateNotRebuilt | crates/repowitness-analysis/src/raw_syntax.rs:367-930 | a concrete tree, source and limits whose analysis is emitted but rejected when rebuilt from its parts |
| Preimage.Hasher.constructor | crates/repowitness-application/src/canonical_digest.rs:42 | nothing fed |
| Preimage.Hasher.Update | crates/repowitness-application/src/canonical_digest.rs:43-51 | octets are appended to what was fed |
| Preimage.Hasher.UpdatePrefixed | crates/repowitness-application/src/canonical_digest.rs:123-130 | a 64-bit length and the octets are appended |
| CanonicalDigest.KeyInjective | crates/repowitness-application/src/canonical_digest.rs:41-52 | artifact-key preimages are equal if and only if the keys are |
| CanonicalDigest.FeedArtifactKey | crates/repowitness-application/src/canonical_digest.rs:41-52 | the fields fed one after the other are the specified preimage |
| CanonicalDigest.ManifestInjective | crates/repowitness-application/src/canonical_digest.rs:105-117 | manifest preimages are equal if and only if the manifests are |
| CanonicalDigest.FeedSourceManifest | crates/repowitness-application/src/canonical_digest.rs:105-117 | the loop over entries feeds the specified preimage |
| CanonicalDigest.FeedEntry | crates/repowitness-application/src/canonical_digest.rs:110-115 | one entry is fed as specified |
| CanonicalDigest.PayloadInjective | crates/repowitness-application/src/canonical_digest.rs:55-102 | over all accepted analyses, with or without correspondence, payload preimages are equal if and only if the analyses are |
| CanonicalDigest.LayoutsDiffer | crates/repowitness-analysis/src/rust_source.rs:405-421 | the two payload layouts never coincide, because no accepted analysis visited zero nodes |
| CanonicalDigest.SpellingInjective | crates/repowitness-analysis/src/rust_source.rs:228-244 | the spellings of symbol kinds are distinct |
| CanonicalDigest.DomainsSeparate | crates/repowitness-application/src/canonical_digest.rs:12-14 | no key, payload and manifest share a preimage |
| CanonicalDigest.FeedFact | crates/repowitness-application/src/canonical_digest.rs:77-100 | one fact is fed as specified |
| CanonicalDigest.FeedArtifactPayload | crates/repowitness-application/src/canonical_digest.rs:55-102 | the loop over facts feeds the specified preimage |
| RecordIdText.AlphabetLetters | crates/repowitness-application/src/memory_record_id_text.rs:7 | the letters used by the model are those of the alphabet in its order |
| RecordIdText.FindDigit | crates/repowitness-application/src/memory_record_id_text.rs:132-138 | the search for a letter finds exactly its digit |
| RecordIdText.FirstDigitSuffices | crates/repowitness-application/src/memory_record_id_text.rs:46-57 | a payload is accepted if and only if all its octets are letters and its first digit is at most seven; the checked multiplication and addition never fail |
| RecordIdText.DecodeAcceptsExactly | crates/repowitness-application/src/memory_record_id_text.rs:35-59 | exactly the texts of the right length, prefix, letters and first digit are accepted |
| RecordIdText.DecodeRefusesExactly | crates/repowitness-application/src/memory_record_id_text.rs:35-59 | why any other text is refused: its length, then its prefix, then a first digit above seven, or else a letter outside the alphabet |
| RecordIdText.DecodeInvertsEncode | crates/repowitness-application/src/memory_record_id_text.rs:19-59 | decoding the text of an identity gives the identity |
| RecordIdText.EncodeInvertsDecode | crates/repowitness-application/src/memory_record_id_text.rs:19-59 | any accepted text is the encoding of what it decodes to |
| RecordIdText.TextOrder | crates/repowitness-application/src/memory_record_id_text.rs:13 | text order is identity order |
| RecordIdText.EncodeId | crates/repowitness-application/src/memory_record_id_text.rs:19-33 | the backward loop over the payload computes the encoding |
| RecordIdText.DecodeId | crates/repowitness-application/src/memory_record_id_text.rs:35-59 | the accumulating loop computes the specified identity or error |
| RepositoryPaths.ValidExactly | crates/repowitness-domain/src/path.rs:326-399 | a path is valid if and only if it is short enough and some components, not too many, each non-empty, without zero octet or slash and none of the three reserved names, give it when joined by slashes |
| RepositoryPaths.RefusedExactly | crates/repowitness-domain/src/path.rs:326-399 | why any other path is refused, error by error: its length, its emptiness, a slash at either end, or else its first component that is one too many or wrong in the way the error says |
| RepositoryPaths.JoinComponents | crates/repowitness-domain/src/path.rs:368-384 | joining the components of a path with slashes gives the path |
| RepositoryPaths.ComponentsJoin | crates/repowitness-domain/src/path.rs:368-384 | splitting joined components without slashes gives them back |
| PathText.DecodeInvertsEncode | crates/repowitness-application/src/repository_path_text.rs:78-146 | decoding the text of a valid path gives the path |
| PathText.EncodeInvertsDecode | crates/repowitness-application/src/repository_path_text.rs:78-146 | any accepted text is the encoding of the valid path it decodes to |
| PathText.EncodeExactly | crates/repowitness-application/src/repository_path_text.rs:78-97 | the text is the tag and two digits for each octet, unless its length is no 64-bit number or above the limit |
| PathText.DecodeRefusesExactly | crates/repowitness-application/src/repository_path_text.rs:109-142 | why any other text is refused, for each of the errors |
| PathText.NibbleIsDigit | crates/repowitness-application/src/repository_path_text.rs:9 | the digits are those of the alphabet in its order |
| PathText.TextOrder | crates/repowitness-application/src/repository_path_text.rs:60-64 | text order is path order |
| PathText.EncodePath | crates/repowitness-application/src/repository_path_text.rs:78-97 | the loop computes the encoding or the limit error |
| PathText.DecodePath | crates/repowitness-application/src/repository_path_text.rs:109-142 | the loop over digit pairs computes the specified path or error |
| PackageScope.EarlierSuffices | crates/repowitness-application/src/package_scope.rs:280-292 | for sorted roots, comparing each with the earlier ones only finds every containment |
| PackageScope.ScopeExactly | crates/repowitness-application/src/package_scope.rs:133-152 | roots are accepted if and only if there are 1 to 64 and none contains another; all are kept, sorted |
| PackageScope.ScopeRefusesExactly | crates/repowitness-application/src/package_scope.rs:133-152 | no roots and more than 64 are refused as such; a duplicate is reported only where a root stands twice and an overlap only where one root contains another, and each where only it is the case |
| PackageScope.ScopeIgnoresOrder | crates/repowitness-application/src/package_scope.rs:133-152 | the result, error included, does not depend on the order of roots |
| PackageScope.OneRootContains | crates/repowitness-application/src/package_scope.rs:173-178 | a path lies in at most one root of an accepted scope |
| PackageScope.ContainsIsPrefix | crates/repowitness-application/src/package_scope.rs:294-300 | a root contains a path if and only if its components are a prefix of the components of the path |
| PackageScope.ContainsExactly | crates/repowitness-application/src/package_scope.rs:173-178 | a scope selects exactly the paths below one of its roots, component by component |
| PackageScope.ScopeInjective | crates/repowitness-application/src/package_scope.rs:184-203 | scope preimages are equal if and only if the scopes are |
| PackageScope.IdentityOfRootSet | crates/repowitness-application/src/package_scope.rs:133-203 | for accepted roots, preimages are equal if and only if the root sets are |
| PackageScope.ValidateCanonicalRoots | crates/repowitness-application/src/package_scope.rs:280-292 | the nested loops return the specified first error |
| PackageScope.BuildExplicitRoots | crates/repowitness-application/src/package_scope.rs:133-152 | the construction computes the specified scope or error |
| PackageScope.FeedScope | crates/repowitness-application/src/package_scope.rs:184-203 | the fields fed one after the other are the specified preimage |
| CorrespondenceNames.ContainerExactly | crates/repowitness-analysis/src/rust_correspondence.rs:535-556 | names are accepted with a container if and only if both are plain and the qualified name is container, separator and name (or the name alone) |
| CorrespondenceNames.QualifySpelled | crates/repowitness-analysis/src/rust_correspondence.rs:549-556 | a qualified name is spelled as its container, two colons and the name |
| CorrespondenceNames.PlainExactly | crates/repowitness-analysis/src/rust_correspondence.rs:535-548 | a plain text is not empty, not too long and free of control characters |
| CorrespondenceNames.FingerprintExactly | crates/repowitness-analysis/src/rust_correspondence.rs:318-364 | an occurrence is accepted if and only if the declaration stands in the source with its name in place; what is hashed is the declaration, and its container and the text before and after the name |
| CorrespondenceNames.ElidedExactly | crates/repowitness-analysis/src/rust_correspondence.rs:343-358 | name-elided preimages are equal if and only if kind, container and the text before and after the name are |
| CorrespondenceNames.RenameKeepsElided | crates/repowitness-analysis/src/rust_correspondence.rs:318-364 | replacing only the name of a declaration keeps its name-elided preimage |
| CorrespondenceNames.FeedNameElided | crates/repowitness-analysis/src/rust_correspondence.rs:343-358 | the fields fed one after the other are the specified preimage |
| Correspondence.MatchesDisjoint | crates/repowitness-analysis/src/rust_correspondence.rs:474-533 | exact, rename, move and changed matches exclude one another, and each is plausible |
| Correspondence.MatchesExactly | crates/repowitness-analysis/src/rust_correspondence.rs:474-533 | an exact match agrees in path, kind, names and declaration, a move in all but the path, a change in all but the declaration, a rename in path, kind, container and fingerprint |
| Correspondence.ResolutionIgnoresOrder | crates/repowitness-analysis/src/rust_correspondence.rs:367-450 | the result, error included, does not depend on the order of candidates |
| Correspondence.DuplicatesFound | crates/repowitness-analysis/src/rust_correspondence.rs:381-388 | comparing sorted neighbours finds a repeated candidate if and only if there is one |
| Correspondence.LinksExactly | crates/repowitness-analysis/src/rust_correspondence.rs:402-417 | renames and moves, sorted and without repetitions, are each linkable candidate once with its relationship |
| Correspondence.ResolutionExactly | crates/repowitness-analysis/src/rust_correspondence.rs:367-450 | for a complete candidate set a resolution is the result if and only if what it says of the classes of matches and their members is so |
| Correspondence.MissingExactly | crates/repowitness-analysis/src/rust_correspondence.rs:367-450 | for a complete candidate set the result is Missing if and only if nothing is plausible and the fingerprint is known |
| Correspondence.RefusedExactly | crates/repowitness-analysis/src/rust_correspondence.rs:367-393 | for every candidate list and count: more than 16 exceed the limit, else a smaller count is invalid, else a repeated candidate is refused, else a larger count is an overflow; there is no other error |
| Correspondence.AnsweredExactly | crates/repowitness-analysis/src/rust_correspondence.rs:367-450 | any other answer is given if and only if the count is the number of candidates, at most 16 and none repeated, and the answer means what it says: so nothing is claimed missing, unique or changed from a truncated set |
| Correspondence.RenameAlwaysMatches | crates/repowitness-analysis/src/rust_correspondence.rs:318-496 | under any hash, replacing only the name of a declaration makes the new one a rename match of the old |
| Correspondence.ResolveRustCorrespondence | crates/repowitness-analysis/src/rust_correspondence.rs:367-450 | the steps on local lists compute the resolution or error, of which the rows before say when each is given |

## Left out

- Cancellation and deadlines: every result is for runs in which neither fires.
- SHA-256 itself: claims are about the octets fed to it.
- Tree-sitter parsing and the extraction rules of each language: a node carries whatever the extractor gives for it.
- Parsing of SCIP metadata, of one symbol message and of the symbol and roles of an occurrence, and the check of a source against the manifest: parameters of the passes.
- SourceAnalysis fact validation beyond widths and node counts: not needed for injectivity.
- Varint.ReadVarint: the source combines groups with a shift and a bitwise or, the model with a multiplication and an addition, which agree because the groups do not overlap.
- Conversions between machine widths that cannot fail on 64-bit platforms, such as lengths to 64-bit counts.
- EvidenceCompile.AllocationSucceeds: one direction for a given request; whether a cost between 2^64 minus the budget and 2^64 overflows there depends on what was admitted before it. CostBoundExactly shows that no weaker bound on a single cost would do.
- Provider coverage, profile and scope of an allocation result: carried along unchanged.
- `evaluate_memory_projection`, `evaluate_valid_evidence` and the lifecycle tables: case analysis that would only add easy members.
- Construction of package scopes from raw octets: validation of each root followed by the modelled constructor.
- Language support flags of site coverage, limit constructors, redaction and stable spellings other than those hashed.
- SyntaxFinish.CanonicalExactly: sorting is stable here and unstable in the source; extracted sites that compare equal are equal, so the choice is not visible.
