# Kronika: a verified model of its stores, readers and delivery

Kronika keeps telemetry in an append-only journal and in immutable segments, and answers queries
through derived indexes, cursors and pruned searches. This project models the algorithms behind
that in Dafny and proves what callers rely on. `dafny verify dfyconfig.toml` checks it all.

What is modelled, file by file:

- `Machine.dfy` holds the machine integers and their limits, `Ordering.dfy` sorting by a composite
  key, `Bytes.dfy` little-endian fields.
- `ExactProduct.dfy` compares products of unbounded lists of 128-bit factors through 32-bit limbs.
  `Value` says what limbs denote; both multipliers are proved to keep it.
- `Calendar.dfy` maps segment ids to UTC day directories. The day arithmetic is proved against an
  independent calendar: the successor of a day under the month lengths and the leap rule.
- `Journal.dfy` models a segment as its parts, and pinning, section counts and row traversal over them.
  `RowPages.dfy` models ascending and descending pages; `Remaining` is what a cursor still has to deliver,
  and each page is proved to be its first rows plus a cursor for the rest. `FilteredRows.dfy` says what that
  is over the request and the segment alone. `Polling.dfy` and
  `CursorText.dfy` cover the active tail, page by page, and the text of a cursor.
- `Crc.dfy`, `Catalogs.dfy`, `IndexCodec.dfy`, `IndexFile.dfy` and `IndexRoundTrip.dfy` model the binary
  containers: CRC32C (the polynomial of section 12.1 of RFC 3720), the end catalog of a segment, and
  the derived index with its table, its record blocks and its targeted reads. Floats are their 64 bits.
- `Dictionary.dfy` models the interning dictionaries; the id hash and SHA-256 are uninterpreted.
- `Discovery.dfy` and `FinishedCatalog.dfy` model the two components that select segments for a time range
  and, per requested layout, the closest earlier segment with rows of it.
- `Neighbor.dfy` and `RowDetail.dfy` model two searches that stop early: the nearest recorded sample and
  the latest earlier reading of one identity. `Events.dfy` models bounded retention of occurrences.
- `ResponseBody.dfy`, `BodyProducer.dfy` and `ResponseReplay.dfy` model how a response body is staged,
  coded, chunked and at most once replayed. The compressor is an abstract transducer. A receiver
  either stays to the end (`patient`, `alive`) or may leave before any send.
- `Scheduler.dfy` models which source groups a collection tick reads.

Every lemma carries `{:induction false}`: each proof is spelled out in its body.

Places where the model had to take a side:

- An absent transaction value whose stored bits are those of negative zero is accepted by the
  decoder, although no encoder writes it. `IndexIsCanonical` says that this is the only way an
  accepted file can differ from the encoding of what it decodes to.
- The reader and the finished-segment catalog disagree on ranges that contain no instant and on
  segments with inverted bounds; `OverlapTestsCompared` and `SelectionsAgree` say exactly when they agree.
- The dictionary's own documentation promises that call order does not change the result. Its byte
  cap spares strict-hot values but still counts them, so the order can decide whether all calls
  succeed: `CapMakesOrderMatter` gives such calls and `SuccessIsOrderFree` says for exactly which ones.

## Model

| member | source | states |
|---|---|---|
| ExactProduct.CompareProducts | crates/kronika-query/src/exact_product.rs:3-16 | for all factor lists, the result is the ordering of the two mathematical products, whichever multiplier computed them |
| ExactProduct.FixedProductLimbs | crates/kronika-query/src/exact_product.rs:27-73 | the fixed form answers exactly for up to four factors, in canonical limbs that denote the product |
| ExactProduct.HeapProductLimbs | crates/kronika-query/src/exact_product.rs:79-115 | the heap form returns, most significant first, canonical limbs that denote the product |
| ExactProduct.MultiplyAccumulateFits | crates/kronika-query/src/exact_product.rs:47-53 | slot + left * right + carry never exceeds 64 bits, and its carry is a limb again |
| ExactProduct.RowStep | crates/kronika-query/src/exact_product.rs:91-97 | one inner step keeps the row equation between limbs, carry and the partial product |
| ExactProduct.HeapCarry | crates/kronika-query/src/exact_product.rs:98-107 | the trailing carry is absorbed without ever growing the vector, and the value grows by exactly that carry |
| ExactProduct.FixedCarry | crates/kronika-query/src/exact_product.rs:54-61 | the trailing carry of the fixed form stays inside the array and is added exactly once |
| ExactProduct.TrimLimbs | crates/kronika-query/src/exact_product.rs:109-111 | trimming yields the canonical form of the same value |
| ExactProduct.CompareCanonical | crates/kronika-query/src/exact_product.rs:5-14 | length-then-lexicographic comparison of canonical big-endian limbs is numeric comparison |
| ExactProduct.ProductBound | crates/kronika-query/src/exact_product.rs:82-88 | a product of n factors fits 4 n limbs |
| Calendar.CivilSuccessor | crates/kronika-layout/src/time.rs:174-197 | for every day number the date is valid and the next day number is the next calendar day |
| Calendar.EpochDay | crates/kronika-layout/src/time.rs:174-197 | day 0 is 1970-01-01 |
| Calendar.CivilMonotone | crates/kronika-layout/src/time.rs:174-197 | later day numbers are strictly later dates, so the map is injective |
| Calendar.CivilBijection | crates/kronika-layout/src/time.rs:160-197 | every valid date is reached by exactly one day number |
| Calendar.AcceptedIds | crates/kronika-layout/src/time.rs:19-46 | an id is accepted exactly when it lies in 0000-01-01 to 9999-12-31 |
| Calendar.OneBucket | crates/kronika-layout/src/time.rs:37-147 | an id has one bucket, a day the directory parser accepts and the only one `InDay` accepts; two ids share it, or are ordered like it, as their days are |
| Calendar.EveryDayIsABucket | crates/kronika-layout/src/time.rs:72-80 | every directory day the parser accepts is the bucket of some id |
| Journal.AtPosition | crates/kronika-store/src/local/snapshot.rs:102-131 | a position pins exactly the committed prefix that ends there and any other position is refused |
| Journal.HeaderIsEmptyCapture | crates/kronika-store/src/local/snapshot.rs:102-131 | the position just after the 36-byte header is the capture without parts |
| Journal.PrefixSurvivesAppends | crates/kronika-reader/src/lib.rs:146-166 | a prefix is found again at its own boundary whatever was appended after it |
| Journal.SectionsOf | crates/kronika-reader/src/lib.rs:331-345 | the section catalog lists exactly the recorded types with their total rows |
| Journal.VisitRows | crates/kronika-reader/src/segment/rows.rs:52-197 | skipping whole parts and decoding inside one yields one window of the concatenated rows, with global ordinals |
| RowPages.ApplyTail | crates/kronika-query/src/projection.rs:132-150 | each plan starts after the rows of the prior capture, or the request is refused |
| RowPages.AscPage | crates/kronika-query/src/rows.rs:162-221 | an ascending page is the first page-size rows still to deliver with the cursor of the next one |
| RowPages.EmitAscChunk | crates/kronika-query/src/rows.rs:223-259 | one chunk moves the page along the remaining rows, cutting it at the first row too many |
| RowPages.DescPage | crates/kronika-query/src/rows.rs:261-347 | the same for a descending page over the reversed rows |
| RowPages.ResumeAt | crates/kronika-query/src/rows.rs:54-83 | resuming at the cursor of an undelivered row is accepted and leaves exactly the rows from there on |
| RowPages.FirstCursorCoversEverything | crates/kronika-query/src/rows.rs:54-73 | the first cursor has every filtered row of every layout left, in the requested direction |
| RowPages.PrepareIsValid | crates/kronika-query/src/rows.rs:31-93 | an accepted request has a cursor inside its plan and plans that fit the pinned rows |
| RowPages.CursorPinsCapture | crates/kronika-query/src/rows.rs:361-376 | a page's cursor brings back the same capture however the journal grew since |
| RowPages.WalkProgress | crates/kronika-query/src/rows.rs:103-160 | along any walk, what was delivered and what the last cursor leaves make up the whole result |
| RowPages.WalkContinues | crates/kronika-query/src/rows.rs:54-83 | a page's cursor is accepted on every later capture that extends the first, so the walk goes on |
| RowPages.WalkFinishes | crates/kronika-query/src/rows.rs:103-160 | a client whose first request is answered always reaches a page without a cursor, within one request for each filtered row and one more |
| RowPages.WalkDeliversEverything | crates/kronika-query/src/rows.rs:103-347 | following `next` delivers a prefix of the filtered rows, all of them exactly when no cursor is left, through full pages and a bounded number of requests |
| FilteredRows.PlansFollowRequest | crates/kronika-query/src/projection.rs:97-129 | each plan is of a requested layout, starts after the rows of the prior capture and keeps exactly the rows that pass the request's filters; every recorded layout has one |
| FilteredRows.AnsweredExactly | crates/kronika-query/src/rows.rs:31-93 | a request is answered if and only if its cursor is its own, pins a capture and stands inside the requested rows, its tail extends a prior capture and a requested layout is recorded; every other request gets the refusal of the first of these |
| FilteredRows.EverythingIsKept | crates/kronika-query/src/rows.rs:162-347 | all that a request has to deliver are the matching rows of its plans, each once, in the order asked for |
| FilteredRows.WalkDeliversFilteredRows | crates/kronika-query/src/rows.rs:103-347 | a walk to its end delivers exactly the rows of the requested layouts that pass the filters, each once, by type and position in the direction asked for |
| FilteredRows.TailAlwaysFits | crates/kronika-query/src/projection.rs:132-150 | growing captures never start a plan past its rows |
| Polling.PollAnswersNewRows | crates/kronika-query/src/selection.rs:20-35 | one poll answers exactly the rows appended since the prior position that pass the filters, and nothing exactly when no requested layout is recorded |
| Polling.PagesAnswerPoll | crates/kronika-query/src/rows.rs:103-160 | the pages of one poll, followed to the end, hold exactly the new rows of each layout |
| Polling.PollingDeliversOnce | crates/kronika-query/src/projection.rs:132-150 | over any growing sequence of captures, the pages of all polls, each followed to its end in either direction while more is appended, hold each row of a layout that passes the filters once, in physical order, and no other |
| CursorText.CursorRoundTrip | crates/kronika-query/src/rows.rs:402-423 | every cursor parses back from its text |
| CursorText.NumbersAreCanonical | crates/kronika-query/src/rows.rs:417-423 | numbers are decimal digits without leading zeros, with a minus sign exactly when negative |
| CursorText.CursorExample | crates/kronika-query/src/rows.rs:402-423 | the text of a concrete cursor, field by field |
| Crc.Crc32c.Update | crates/kronika-format/src/crc.rs:29-31 | updates may be split anywhere: the digest is the fold over all bytes |
| Crc.Crc32cWithZeroedField | crates/kronika-format/src/crc.rs:61-67 | the three updates checksum the bytes with the field blanked |
| Crc.StepInjective | crates/kronika-format/src/crc.rs:19-37 | a byte step is injective in its state and in its byte |
| Crc.BitsOfByte | crates/kronika-format/src/crc.rs:19-37 | the eight bits mixed into the state are the byte's own |
| Crc.FourBytesInjective | crates/kronika-format/src/crc.rs:19-37 | from one state, the state four bytes lead to determines those bytes |
| Crc.BurstChangesChecksum | crates/kronika-format/src/crc.rs:51-53 | any change confined to four adjacent bytes changes the checksum, for sequences of any length |
| Crc.ByteChangesChecksum | crates/kronika-format/src/crc.rs:51-53 | changing one byte of any sequence changes its checksum |
| Crc.SelfCoveringField | crates/kronika-format/src/crc.rs:61-67 | a checksum stored in the bytes it covers detects every change among four adjacent bytes that spares it or lies within it, so every single-byte change |
| Crc.CheckValue | crates/kronika-format/src/crc.rs:51-53 | the published check value of the polynomial |
| Catalogs.WriteEncoded | crates/kronika-format/src/catalog.rs:184-222 | the streaming writer emits the checksummed block and its tail, or refuses a catalog too long to describe |
| Catalogs.CatalogLayout | crates/kronika-format/src/catalog.rs:184-222 | where every field of every entry and of the metadata lies in the block, and what its checksum covers |
| Catalogs.DecodesExactly | crates/kronika-format/src/catalog.rs:234-299 | a block is accepted exactly when its length, entry count and checksum agree, and any other gets the refusal of the first that does not |
| Bytes.FieldValues | crates/kronika-index/src/decode.rs:3-25 | fields are little-endian and signed ones two's complement |
| Catalogs.CatalogRoundTrip | crates/kronika-format/src/catalog.rs:184-299 | decoding an encoded catalog gives it back |
| Catalogs.CatalogCanonical | crates/kronika-format/src/catalog.rs:234-299 | an accepted block is the encoding of what it decodes to |
| Catalogs.CatalogBurstRejected | crates/kronika-format/src/catalog.rs:254-299 | no change among four adjacent bytes of an accepted block is accepted, unless it straddles the edge of the stored checksum |
| Catalogs.CatalogByteChangeRejected | crates/kronika-format/src/catalog.rs:254-299 | no single-byte change of an accepted block is accepted |
| Catalogs.TailRoundTrip | crates/kronika-format/src/catalog.rs:124-149 | tail index and length determine each other |
| Catalogs.ReadBackAfterAnyBody | crates/kronika-format/src/catalog.rs:112-149 | after any body, the tail and the block before it recover the catalog written |
| IndexCodec.WriteRecords | crates/kronika-index/src/series.rs:234-249 | the record loop writes every record in canonical order, or refuses the block |
| IndexCodec.ReadRecords | crates/kronika-index/src/series.rs:251-269 | the reading loop yields the records of the body, or the error of the first that is bad |
| IndexCodec.CountedRoundTrip | crates/kronika-index/src/series.rs:348-371 | a counted block decodes to what was encoded, for any lawful record codec |
| IndexCodec.CountedCanonical | crates/kronika-index/src/series.rs:348-371 | an accepted counted block re-encodes to its bytes if and only if each of its records writes back |
| IndexCodec.BlockLayout | crates/kronika-index/src/series.rs:348-371 | a block is its record count and its records, one after the other |
| IndexCodec.CountedRefusals | crates/kronika-index/src/series.rs:348-371 | a body without its count is truncated, and any other refusal is of its layout |
| IndexCodec.HealthLaws | crates/kronika-index/src/series.rs:234-269 | health records read back, decode only to valid points and write back |
| IndexCodec.HealthBlocks | crates/kronika-index/src/series.rs:234-249 | a health series is stored if and only if its values are percentages and its times do not decrease |
| IndexCodec.HealthRecord | crates/kronika-index/src/series.rs:234-249 | where each field of a health record lies |
| IndexCodec.TransactionLaws | crates/kronika-index/src/series.rs:271-317 | transaction records read back and decode only to valid points |
| IndexCodec.TransactionBlocks | crates/kronika-index/src/series.rs:271-290 | a transaction series is stored if and only if its rates are finite and not negative and its points are ordered by database and then by time |
| IndexCodec.TransactionRecord | crates/kronika-index/src/series.rs:271-290 | where each field of a transaction record lies |
| IndexCodec.TransactionWritesBack | crates/kronika-index/src/series.rs:292-317 | an accepted transaction record writes back exactly unless its value is absent and stored as negative zero |
| IndexCodec.TransactionsCanonical | crates/kronika-index/src/series.rs:271-317 | an accepted transactions block re-encodes to its bytes if and only if no record of it is an absent value stored as negative zero |
| IndexCodec.CountLaws | crates/kronika-index/src/series.rs:319-346 | count records read back and write back |
| IndexCodec.CountBlocks | crates/kronika-index/src/series.rs:319-331 | a count series is stored if and only if its times do not decrease |
| IndexCodec.CountRecord | crates/kronika-index/src/series.rs:319-331 | where each field of a count record lies |
| IndexCodec.FindingLaws | crates/kronika-index/src/findings.rs:79-185 | finding records of every layout read back, decode only to valid findings and write back |
| IndexCodec.FindingBlocks | crates/kronika-index/src/findings.rs:79-105 | findings are stored if and only if they are at most 4096 with consistent counters, carry categories exactly in error logs and are strictly ordered by time, row, field and kind |
| IndexCodec.FindingRecord | crates/kronika-index/src/findings.rs:79-105 | where each field of a finding lies, and the numbers of the kinds |
| IndexCodec.FindingBlockLayout | crates/kronika-index/src/findings.rs:79-105 | the nine bytes of header and the records after it |
| IndexCodec.FindingRefusals | crates/kronika-index/src/findings.rs:107-181 | findings without their two counters are truncated, and any other refusal is of their layout |
| IndexCodec.FindingsRoundTrip | crates/kronika-index/src/findings.rs:79-148 | a finding block decodes to what was encoded |
| IndexCodec.FindingsCanonical | crates/kronika-index/src/findings.rs:107-181 | an accepted finding block re-encodes to its bytes |
| IndexFile.EncodeBlock | crates/kronika-index/src/series.rs:169-183 | each kind of block is written by its record loop, as the block's canonical bytes or its error |
| IndexFile.DecodeBody | crates/kronika-index/src/series.rs:185-224 | each admitted kind of body is read by its record loop, as the block it denotes or its error |
| IndexFile.Encode | crates/kronika-index/src/file.rs:95-145 | patching the growing buffer yields the canonical file of the blocks, or the first error in block order |
| IndexFile.Metadata | crates/kronika-index/src/file.rs:215-283 | header and table are read and validated against the file length |
| IndexFile.ValidateChecksum | crates/kronika-index/src/file.rs:285-318 | the chunked digest covers every byte but the checksum's own four |
| IndexFile.ReadAll | crates/kronika-index/src/file.rs:186-194 | a full read is the validated decoding of every entry |
| IndexFile.ReadTarget | crates/kronika-index/src/file.rs:166-184 | a targeted read decodes only the wanted entries of a file validated as a whole |
| IndexFile.BlockRoundTrip | crates/kronika-index/src/series.rs:169-224 | an encoded block of an admitted key decodes to itself |
| IndexFile.BlockCanonical | crates/kronika-index/src/series.rs:185-224 | a decoded block has the key it was asked for, and re-encodes to its bytes exactly unless it holds an absent transaction value as negative zero |
| IndexFile.KeysNameBlocks | crates/kronika-index/src/series.rs:185-224 | a key decodes to its own kind of block only, and an encoded block is read back under a key exactly when its kind and layout belong there |
| IndexRoundTrip.IndexRoundTrips | crates/kronika-index/src/file.rs:95-194 | an encoded index decodes to itself exactly when the decoder admits every block's layout |
| IndexRoundTrip.EncodesExactly | crates/kronika-index/src/file.rs:95-145 | an index is encoded if and only if it has at most 39 blocks whose bodies encode, whose (kind, type) keys increase and whose file is at most 8 MiB |
| IndexRoundTrip.FirstRefusalDecides | crates/kronika-index/src/file.rs:95-145 | the first block out of order, not encodable or too large decides the error |
| IndexRoundTrip.AcceptsExactly | crates/kronika-index/src/file.rs:215-318 | header, table and checksum are accepted if and only if the magic, counts, increasing keys, adjoining bodies, length and checksum agree, and the table read is the one in the bytes |
| IndexRoundTrip.RefusalsInOrder | crates/kronika-index/src/file.rs:215-318 | which of these checks names the refusal |
| IndexRoundTrip.TargetedReadAgrees | crates/kronika-index/src/store.rs:188-208 | reading the wanted blocks of the file equals selecting them from the fresh index, under the checksum stored at its offset |
| IndexRoundTrip.TargetedReadSelects | crates/kronika-index/src/file.rs:166-194 | on any accepted file, whoever wrote it, a targeted read is the selection of the wanted blocks from the full read, under the stored checksum |
| IndexRoundTrip.IndexIsCanonical | crates/kronika-index/src/file.rs:186-283 | an accepted file is the encoding of what it decodes to if and only if no transaction record of it stores an absent value as the bits of negative zero |
| IndexRoundTrip.NegativeZeroIsAccepted | crates/kronika-index/src/series.rs:300-301 | such a file exists: a concrete one is accepted and its blocks encode to other bytes |
| IndexRoundTrip.IndexBurstRejected | crates/kronika-index/src/file.rs:215-318 | no change among four adjacent bytes of a valid file survives a full or a targeted read, unless it straddles the edge of the stored checksum |
| IndexRoundTrip.IndexByteChangeRejected | crates/kronika-index/src/file.rs:215-318 | no single-byte change of a valid file survives a full or a targeted read |
| Dictionary.SegmentDicts.TryInsert | crates/kronika-format/src/dictionary.rs:279-334 | one call moves the state by the insertion rule, and every check precedes the mutation |
| Dictionary.SegmentDicts.InternHotBestEffort | crates/kronika-format/src/dictionary.rs:151-162 | the flag tells whether the value is a hot string afterwards |
| Dictionary.InsertKeepsInv | crates/kronika-format/src/dictionary.rs:279-334 | every call keeps the accounting invariant, and a failed call changes nothing |
| Dictionary.AnswerFollowsCalls | crates/kronika-format/src/dictionary.rs:279-334 | what a call answers, by the calls before it: a collision, then contradictory placement, then a full dictionary, else the id |
| Dictionary.EntryHoldsValue | crates/kronika-format/src/dictionary.rs:279-334 | of a value is kept a bounded prefix, its full length and, if it was cut, its SHA-256 |
| Dictionary.PlacementFollowsCalls | crates/kronika-format/src/dictionary.rs:7-19 | a value is in blobs if and only if it is long or some call forces it there, and hot if and only if it is not and some call asked for it, strictly or not |
| Dictionary.EveryRunKeepsInv | crates/kronika-format/src/dictionary.rs:50-66 | in every reachable state stored bytes are the sum of lengths, the capped part respects the cap, strings and blobs partition the entries and hot strings are strings |
| Dictionary.IssuedIdsResolve | crates/kronika-format/src/dictionary.rs:165-175 | an issued id keeps resolving to its value, and a strict-hot value stays a hot string |
| Dictionary.OrderDoesNotMatter | crates/kronika-format/src/dictionary.rs:7-19 | two successful runs of the same calls in any order end in the same state |
| Dictionary.RunSucceeds | crates/kronika-format/src/dictionary.rs:279-353 | a run succeeds exactly when its set of calls is compatible and each call is strict-hot, known already, or leaves the total so far within the cap |
| Dictionary.EveryOrder | crates/kronika-format/src/dictionary.rs:279-353 | every order of the calls succeeds if and only if they are compatible and either their total fits the cap or all of them are strict-hot |
| Dictionary.SomeOrder | crates/kronika-format/src/dictionary.rs:279-353 | some order succeeds if and only if the calls are compatible and the bytes under ids with no strict-hot call fit the cap |
| Dictionary.SuccessIsOrderFree | crates/kronika-format/src/dictionary.rs:7-19 | whether the calls succeed is the same in every order, except exactly when they are compatible, not all strict-hot, their capped bytes fit the cap and their total does not |
| Dictionary.CapMakesOrderMatter | crates/kronika-format/src/dictionary.rs:308-320 | with a cap that binds the order can decide success |
| Discovery.OverlapsIsASharedInstant | crates/kronika-reader/src/discovery.rs:275-302 | a segment overlaps a range exactly when one of its instants lies in it |
| Discovery.EndsBefore | crates/kronika-reader/src/discovery.rs:275-310 | a segment ends before a range exactly when the range's start admits none of its instants |
| Discovery.NonemptyTypeBloom | crates/kronika-store/src/catalog_summary.rs:309-319 | the summary filter collects the bits of every type that carries rows |
| Discovery.BloomIsUnion | crates/kronika-store/src/catalog_summary.rs:309-319 | a bit of the filter is set exactly by a type that carries rows |
| Discovery.FilterNeverHides | crates/kronika-store/src/catalog_summary.rs:188-198 | the filter has no false negatives |
| Discovery.ActiveBounds | crates/kronika-reader/src/lib.rs:348-363 | the bounds are the tightest ones that enclose every part, both ends attained, or the epoch when those are inverted, which they never are if one part lies the right way round; no parts have no bounds |
| Discovery.ActiveSegmentSpans | crates/kronika-reader/src/discovery.rs:189-263 | the active segment has the id, the rows and, if one part lies the right way round, the tightest bounds of its parts |
| Discovery.ActiveListing | crates/kronika-reader/src/discovery.rs:189-263 | the active segment is listed exactly when an instant between its parts' bounds lies in the range, and never beside a finished file with its id |
| Discovery.ListSegments | crates/kronika-reader/src/discovery.rs:181-272 | the listing, by ascending unique id, is exactly the canonical segments that overlap, with the one closest before the range if asked for; with validation, the overlapping files that pass it and the active segment unless one of them has its id |
| Discovery.LatestBefore | crates/kronika-reader/src/discovery.rs:198-213 | the segment found is the one with the greatest (end, id) before the range, and none exactly when no segment ends before it |
| Discovery.ClosestIsLatest | crates/kronika-reader/src/discovery.rs:198-213 | the closest segment before the range has the greatest end and, among those, the greatest id |
| Discovery.SegmentsWithPredecessorsFor | crates/kronika-reader/src/discovery.rs:85-179 | the listing is exactly the overlapping segments and, per requested layout, the greatest (end, id) before the range with rows of it; filter collisions change nothing |
| Discovery.PredecessorIsLatest | crates/kronika-reader/src/discovery.rs:123-176 | a layout's predecessor has rows of it and the greatest end, then id, among the segments before the range that do |
| Discovery.AddPredecessors | crates/kronika-reader/src/discovery.rs:123-176 | trying candidates newest first until every layout is answered adds exactly those predecessors |
| FinishedCatalog.Segments | crates/kronika-query/src/finished_dataset.rs:91-158 | the immutable catalog selects the segments its own overlap test accepts and the wanted predecessors, keyed by id |
| FinishedCatalog.ClosestPredecessor | crates/kronika-query/src/finished_dataset.rs:227-240 | the closest predecessor is the one segment with the greatest (end, id) before the range |
| FinishedCatalog.OverlapTestsCompared | crates/kronika-query/src/finished_dataset.rs:242-260 | the reader's overlap test is this one restricted to ordered bounds and to ranges with an instant |
| FinishedCatalog.EmptyRangeDisagrees | crates/kronika-query/src/finished_dataset.rs:242-260 | a concrete range without instants that selects a segment here and none in the reader |
| FinishedCatalog.SelectionsAgree | crates/kronika-query/src/finished_dataset.rs:91-158 | on a finished-only store, with no predecessor, the closest one or one per layout, the two selections are equal if and only if every accepted segment has ordered bounds and the range has an instant |
| Neighbor.SearchWindowIsExact | crates/kronika-query/src/snapshot_neighbor.rs:156-169 | the window holds exactly the instants at least a second away in the asked direction, and is absent exactly when there are none |
| Neighbor.NothingPreferredBeyond | crates/kronika-query/src/snapshot_neighbor.rs:112-119 | once the next segment lies beyond the chosen sample, no later one can improve it |
| Neighbor.ScanCandidates | crates/kronika-query/src/snapshot_neighbor.rs:106-153 | the pruned scan finds the best sample of all candidates |
| Neighbor.Select | crates/kronika-query/src/snapshot_neighbor.rs:58-154 | the answer is the nearest reachable sample of all stored segments, ties going to the greatest segment id, or none exactly when there is none |
| Neighbor.AnswerIsNearest | crates/kronika-query/src/snapshot_neighbor.rs:58-169 | said over the rows: the nearest instant in the window at least a second away, from the greatest segment id that has it, and none exactly when no row qualifies |
| RowDetail.LocateRow | crates/kronika-query/src/row_detail.rs:353-416 | a located row is the only match, or for event streams the hinted or first one; every refusal names its cause |
| RowDetail.PreviousAmong | crates/kronika-query/src/row_detail.rs:269-295 | the scan that stops early keeps the first of the latest readings of all candidates |
| RowDetail.PreviousReadings | crates/kronika-query/src/row_detail.rs:228-296 | the reading is a latest one strictly before the locator over all rows of the identity up to the anchor id, and absent exactly when there is none |
| RowDetail.ReadingMeans | crates/kronika-query/src/row_detail.rs:304-351 | a row offers a reading exactly when it is of the identity and strictly before the locator, and the reading is its instant and itself |
| RowDetail.NewestOrder | crates/kronika-query/src/row_detail.rs:257-271 | segments are searched by latest end and then by greatest id |
| Events.OccurrenceAccumulator.Observe | crates/kronika-query/src/events.rs:394-410 | after any observations the retained rows are the first limit + 1 of all in order, and never more are held |
| Events.OccurrenceAccumulator.Finish | crates/kronika-query/src/events.rs:412-424 | the result is the first `limit` of everything observed, truncated exactly when more was observed |
| Events.RetainKeepsTheFirst | crates/kronika-query/src/events.rs:394-410 | rejecting, evicting and inserting keeps the first `capacity` of the sorted whole |
| Events.FirstAreTheEarliest | crates/kronika-query/src/events.rs:379-425 | the kept occurrences are observations, strictly ordered, each before every one left out |
| Events.OrderIsByTime | crates/kronika-query/src/events.rs:379-425 | occurrences are ordered by time upwards, then by source, then by arrival, so what is kept is never later than what is left out |
| Events.EncounterCounts | crates/kronika-query/src/events.rs:394-397 | the encounter number counts the earlier observations of the same source |
| Events.EncountersFollowArrival | crates/kronika-query/src/events.rs:394-397 | within one source the encounter number is arrival order |
| ResponseBody.CompleteDeliveryDecodes | bins/kronika-web/src/body.rs:86-109 | for any split into pieces, a client that decodes a complete delivery gets the emitted bytes |
| ResponseBody.ChosenIsAccepted | bins/kronika-web/src/encoding.rs:68-82 | the chosen coding is one the client accepts: compressed above 8 KiB and plain up to 8 KiB whenever it takes that |
| ResponseBody.SendIdentity | bins/kronika-web/src/body.rs:258-264 | bytes go out in order in bounded chunks, a prefix of them when the receiver leaves |
| ResponseBody.ChunkWriter.Write | bins/kronika-web/src/body.rs:304-320 | coder output is delivered or pending in order, in full chunks, and never blocks before the head is read |
| ResponseBody.WritesOverflow | bins/kronika-web/src/body.rs:89-101 | the overflowing piece completes the staged prefix and its rest is the first streamed write |
| BodyProducing.BodyProducer.Emit | bins/kronika-web/src/body.rs:86-109 | in every state emission keeps the invariant: staged bytes untouched, or head sent once and the delivery a prefix of the coding |
| BodyProducing.BodyProducer.StartStream | bins/kronika-web/src/body.rs:156-178 | the head is committed once, after the prefix is queued without blocking |
| BodyProducing.BodyProducer.TakeStagedHead | bins/kronika-web/src/body.rs:111-119 | the head is recoverable exactly while everything is staged, and then no byte was sent |
| BodyProducing.BodyProducer.Complete | bins/kronika-web/src/body.rs:121-137 | a completed response announces the coding of its length and delivers exactly the coded bytes to a receiver that stays |
| BodyProducing.BodyProducer.Fail | bins/kronika-web/src/body.rs:140-154 | a failure is reported in the head when nothing was sent, and otherwise aborts the body after its data |
| ResponseReplay.PrepareResponse | bins/kronika-web/src/streaming.rs:42-91 | `prepare` runs twice exactly when the source changed while everything was staged, and head and body come from the last attempt alone |
| ResponseReplay.RunAttempt | bins/kronika-web/src/streaming.rs:67-89 | an attempt is replayed or decides the response, never both |
| Scheduling.Scheduler.constructor | bins/kronika-collector/src/scheduler.rs:34-72 | the enabled groups in schedule order, unread, statements at no less than five minutes, pressure information wherever the system is collected |
| Scheduling.EnabledGroups | bins/kronika-collector/src/scheduler.rs:34-55 | the server's logs and statistics always exist, the groups of the system where it is collected, the control groups only where they are too |
| Scheduling.Scheduler.ProbePsi | bins/kronika-collector/src/scheduler.rs:74-98 | pressure information is given up in a container without cgroups or when the kernel refuses it, and never resumed |
| Scheduling.Scheduler.PlanTick | bins/kronika-collector/src/scheduler.rs:136-152 | a tick selects and marks exactly the due groups |
| Scheduling.TickReadsWhatIsDue | bins/kronika-collector/src/scheduler.rs:136-152 | a tick reads a group that was never read, whose interval has passed or, when forced, any but the statements, and marks exactly these |
| Scheduling.Scheduler.FinishPostgresPass | bins/kronika-collector/src/scheduler.rs:113-132 | the end of a pass restarts the statement interval and sets the activity cadence |
| Scheduling.PassEnds | bins/kronika-collector/src/scheduler.rs:113-132 | the end of a pass moves only the statement read it ran and the cadence of activity |
| Scheduling.Scheduler.RecollectionDue | bins/kronika-collector/src/scheduler.rs:186-203 | recollection repeats the due groups and the mounts and leaves the statement interval alone |
| Scheduling.RecollectionRepeats | bins/kronika-collector/src/scheduler.rs:186-203 | recollection repeats the groups of the window and always the mounts, and all of them but the statements count as read |
| Scheduling.OpeningUnreadsMounts | bins/kronika-collector/src/scheduler.rs:173-181 | opening a segment makes only the mounts unread |
| Scheduling.EveryRunSpacesStatements | bins/kronika-collector/src/scheduler.rs:34-152 | in every run two statement reads are the larger of five minutes and the configured interval apart, also from the end of an earlier pass, forced ticks included |
| Scheduling.FirstTickReadsAll | bins/kronika-collector/src/scheduler.rs:136-152 | the first tick reads exactly the enabled groups |
| Scheduling.NextElapsedDueIn | bins/kronika-collector/src/scheduler.rs:156-169 | the wait is exact: one paced group is due then and none before; none exactly when no group is paced |
| Scheduling.WaitIsExact | bins/kronika-collector/src/scheduler.rs:156-169 | said over the reads: some group with a positive interval has it elapsed after the wait and none before |
| Scheduling.WakeIsExact | bins/kronika-collector/src/scheduler.rs:136-169 | a tick after that wait selects a paced group and an earlier one selects none |
| Scheduling.ActivityCadence | bins/kronika-collector/src/scheduler.rs:113-132 | activity runs at the blocked cadence exactly while the last conclusive read saw blocked sessions |
| Scheduling.OpenedSegmentRefreshesMounts | bins/kronika-collector/src/scheduler.rs:173-181 | the next window after opening a segment includes mounts and topology |

## Left out

- Input and output: file access, locks, the index publication and its retry in `resource_selected`, signals, clocks and sockets. Reads that fail for such reasons have no branch here.
- Cancellation and sinks that disconnect inside the query loops; a page or search here runs to its end.
- Row decoding, column projection, dictionary resolution and JSON: rows are given values, filters and identities are functions of a row, and dictionary failures do not occur.
- The request hash that binds a cursor is a given number; its computation (FNV over the request) is not modelled.
- Dictionary.EveryRunKeepsInv: the cap is stated for caps below the largest pointer-sized integer, because at that value the saturating sum of the check never exceeds it; the plain addition after it is unbounded here.
- Dictionary.OrderDoesNotMatter: assumes that SHA-256 tells apart the values used; the id hash may collide, which the calls then report.
- Discovery.SegmentsWithPredecessorsFor: assumes distinct ids among finished files, which their directory layout provides; section row counts do not saturate here.
- Discovery.ListSegments: whether a finished file passes validation is an argument; the warnings it leaves are not modelled.
- Neighbor.Select: assumes that rows lie within the bounds of their segment, without which stopping early would be wrong; `RowDetail.PreviousReadings` assumes the same.
- Events.OccurrenceAccumulator.Finish: the exact result is stated for fewer than 2^64 observations, where the per-source counters do not saturate.
- ResponseBody.CompleteDeliveryDecodes: that the compressor is lossless is a hypothesis on the transducer, as is, for the staging proofs, that coding a staged prefix fits the channel; errors the compressor raises by itself are not modelled.
- Journal.SectionsOf: byte totals per section, which no modelled query reads, and the saturation of the row totals at 2^64 are not modelled.
- BodyProducing.BodyProducer.Complete: an error the compressor raises by itself, and the abort it causes, are not modelled.
- Crc.SelfCoveringField: nothing is claimed of a change that touches both a stored checksum and bytes it covers.
- Journal.VisitRows: a visitor that stops early and the returned count are not modelled. Row counts of a part are those of its decoded rows; a body that disagrees with its catalog entry is an error of the decoder, which is not part of this model.
- Scheduling.Scheduler.ProbePsi: whether the kernel refuses the probe is an argument; the log event is not modelled.
- The rates, health penalties and rendering built on these readings, which are floating-point or presentation code.
- HTTP, authentication, command lines, the export path, the demo, report and dump programs, and the derive macros.
- Segment closing and rotation decisions, which live in modules that are not part of this model.
