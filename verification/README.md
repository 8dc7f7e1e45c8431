# TideSQL verification

TideSQL is a MySQL storage engine that maps tables onto TidesDB, a sorted store of byte strings. This
project models the engine's hardest logic in Dafny and proves that its byte layouts and multi-step
writes agree with the simple sets and maps they stand for. `dafny verify dfyconfig.toml` checks all of it.

The library is modelled as a sorted map with an iterator (`Store.dfy`). Byte strings and their order are
in `Bytes.dfy`, powers and shifts in `Powers.dfy`. What the engine changes in place is a class or an
array; what it computes is a function; each loop of the source is a method proved against a
specification function. Randomness, failing calls, refused commits, kills and power loss are parameters
or nondeterministic choices. What a specification function says is fixed in turn by a theorem in other
terms: points, rows, names, words or a grammar.

* **Spatial index** (`Hilbert`, `SpatialRanges`, `Doubles`, `SpatialIndex`, `SpatialScan`, `Wkb`). The
  32-level Hilbert loop, with its stray bits and modular reflection, is a continuous bijection of the
  grid. A query box becomes exactly the distance ranges of its coarse cells. A within, contain or equal
  read returns exactly the entries that satisfy it. Doubles are 64-bit patterns with an exact integer
  value and rounding is round-to-nearest.
* **Key custody** (`KeyCustody`). Mint, table-key rotation and master-key rotation are sequences of
  single durable writes, any of which may fail, fail after reaching the store, or be the last before a
  crash, at calls given in advance, so each operation succeeds exactly when it says. A published key
  never changes its bytes, and none is left under a generation older than the last rotation.
* **Comparable keys** (`KeyCodec`). memcmp order is tuple order, and decoding undoes encoding.
* **Rows** (`RowIndexes`, `BulkDelete`, `IndexBuild`, `FullTextPostings`, `FullText`, `FullTextSearch`).
  Derived indexes agree with the rows over whole runs, bulk deletes and online builds included.
* **Deferred DDL** (`CfNames`, `DdlLogRecord`, `DdlLog`, `DdlServer`, `DdlFollows`, `DdlEngine`,
  `DdlCases`). A state machine of statements, failing creates, commits, rollbacks, hooks, recovery and
  crashes after any write, over families that are known by name only. Over every run the dictionary is the
  one the committed statements leave, and a dropped table is gone or on record.
* **Catalogs and options** (`FkRecord`, `FkCatalog`, `TableOptions`, `OptionMeaning`, `OptionGrammar`,
  `OptionParser`). The option reader accepts exactly a JSON grammar and leaves what each option's last
  value means.

`Optional.dfy`, `RowFormat.dfy` and `Sets.dfy` hold the option type, the data-key prefix and a counting
lemma that several modules share.

## Where the code does less than it says

Each of these is a clause or a lemma of the project, beside the condition under which the code is right.

* A centroid of -0 folds below +0, so an entry on that axis can be missed (`MinusZeroIsMissed`,
  `WithinIsScanned`, `QueryBoxIsValid`).
* An intersect query that does not scan everything misses exactly the entries whose centroid lies outside
  the coarse columns of its box (`ScannedByColumns`; `IntersectionIsMissed` is one).
* An online index build whose seek after a batch fails ends its scan and reports success over the rows it
  has seen (`AddIndexes` says when).
* An update that moves the primary key without writing a full-text column leaves the old postings
  (`UnwrittenMove`).
* Two terms that agree in their first 512 bytes share one posting (`EntryKeysClash`), and an update can
  delete it with the one and not write it again for the other (`DiffIsReinsertIff`, `ClashLosesPosting`).
* A required truncated term is counted once per posting, so its matches can make up for a required term
  the document lacks (`KeptWronglyIff`, `TruncatedRequiredOvercounts`). No document is lost that way
  (`SatisfiesSurvives`).
* A drop removes families by name: those that begin with the table's name and `__idx_`. So dropping table
  `a` takes the storage of a table `a__idx_b` (`DropAlone` is exact, `NeighbourIsLost` a run,
  `CrossesByName` the condition on the names), and recovery does the same (`RecoveryIsSafeIff`). Tables
  `b__c` of database `a` and `c` of database `a__b` even have one family (`NamesCollide`). Names without
  two underscores in a row or at the end are never in each other's way (`PlainNamesAreSafe`).
* A create that fails after making families, at a later family or at its foreign keys, leaves them without
  a record, with no crash (`CreateTable`, `FailedCreate`).
* A table re-created under a path whose drop is still on record is removed by recovery
  (`CreateOverPendingDrop`, `TableIsLost`, `RecoveryIsSafeIff`).
* A removal that the library refuses is said to be kept on record and retried. That holds for the main
  family of a committed drop. A rolled-back create has no record in storage and a refused index family
  does not stop the record from going, so their families are left (`GoneOrOnRecord`).
* An enumerated option outside its name list is said to round-trip by position; the reader refuses it
  (`ParseOfSerialized`).
* Unnamed foreign keys of a table with a long name get one truncated name (`AnonymousNamesClash`), and
  the later one replaces the earlier (`LaterNameWins`).

## Model

| member | source | states |
|---|---|---|
| Hilbert.PointAtDistance | tidesdb/src/core/spatial.cc:57-83 | every point of the 2^k by 2^k grid is found again at its curve distance, so distance is injective |
| Hilbert.DistanceOfPointAt | tidesdb/src/core/spatial.cc:57-83 | every number below 4^k is the distance of a grid point, so distance is onto |
| Hilbert.DistanceIsInjective | tidesdb/src/core/spatial.cc:57-83 | two grid points at one distance are one point |
| Hilbert.CurveIsContinuous | tidesdb/src/core/spatial.cc:57-83 | consecutive distances belong to grid points exactly one horizontal or vertical step apart |
| Hilbert.CurveEnds | tidesdb/src/core/spatial.cc:57-83 | the curve starts at the origin and ends at the far end of the x axis, at every order |
| Hilbert.ReflectLowBits | tidesdb/src/core/spatial.cc:57-70 | the reflection modulo 2^32 reflects the bits that still count, whatever the stray high bits are |
| Hilbert.LoopEnters | tidesdb/src/core/spatial.cc:57-83 | one turn of the loop, with stray bits and wrapping, enters the quadrant the reduced point lies in |
| Hilbert.LoopStep | tidesdb/src/core/spatial.cc:72-83 | one turn adds one quadrant share without overflowing 64 bits and leaves the distance one level down |
| Hilbert.HilbertXy2d64 | tidesdb/src/core/spatial.cc:72-83 | the 32-turn loop returns the distance of the recursive order-32 curve, below 2^64, for every 32-bit pair |
| Hilbert.CoarseCell | tidesdb/src/core/spatial.cc:305-312 | the distances of one coarse cell are one aligned run that starts at the cell distance times the run length |
| SpatialRanges.CellBaseIsInjective | tidesdb/src/core/spatial.cc:301-314 | different coarse cells have different runs |
| SpatialRanges.SnapToCell | tidesdb/src/core/spatial.cc:305-312 | clearing the low bits of any distance in a cell gives the base of that cell, whichever corner was transformed |
| SpatialRanges.RunHoldsCell | tidesdb/src/core/spatial.cc:305-312 | a distance lies in the run of a cell if and only if its point lies in the cell |
| SpatialRanges.EnumerateCells | tidesdb/src/core/spatial.cc:296-314 | the enumerated runs are distinct and hold exactly the distances of points whose coarse cell meets the box |
| SpatialRanges.Sort | tidesdb/src/core/spatial.cc:316-316 | sorted and a permutation of the cells |
| SpatialRanges.MergeCells | tidesdb/src/core/spatial.cc:316-338 | the merged ranges are sorted, disjoint and non-touching and hold the same distances; no 64-bit addition wraps while a cell is left |
| SpatialRanges.DecomposeRanges | tidesdb/src/core/spatial.cc:270-338 | ranges are sorted, disjoint and non-touching and hold every point of the box; at or below the threshold their union is exactly the distances of points whose coarse cell meets the box, above it the full range |
| SpatialRanges.BoxIsNear | tidesdb/src/core/spatial.cc:270-338 | every point of the box has a distance below 2^64 whose coarse cell meets the box |
| SpatialRanges.NearBoxByPoints | tidesdb/src/core/spatial.cc:270-338 | a distance is near a box if and only if some point of the box lies in the same square of 2^24 by 2^24 as the point at that distance |
| Doubles.FoldOrder | tidesdb/src/core/spatial.cc:41-50 | for finite doubles the fold keeps the numeric order, and fails to in exactly one case: +0 against -0 |
| Doubles.ThresholdIsMidpoint | tidesdb/src/handler/ha_tidesdb_dml.cc:234-236 | sums round to infinity from the midpoint between the largest finite double and the next power of two on |
| Doubles.CentroidBetween | tidesdb/src/handler/ha_tidesdb_dml.cc:234-236 | the rounded half of the rounded sum of two finite ordered doubles lies between them unless the sum overflows |
| SpatialIndex.ParseQueryMbr | tidesdb/src/core/spatial.cc:221-230 | the parsed query rectangle is ordered, has the two given coordinates on each axis, and leaves an ordered pair as it is |
| SpatialIndex.PredicateByPoints | tidesdb/src/core/spatial.cc:232-268 | for ordered rectangles: within and contain hold if and only if every point of the entry is in the query, equal if and only if each covers the other, intersect if and only if they share a point, disjoint if and only if they share none |
| SpatialIndex.QueryBoxIsValid | tidesdb/src/handler/ha_tidesdb_index.cc:152-185 | folding an ordered query gives an ordered box if and only if no axis runs from +0 to -0 |
| SpatialIndex.AxisColumn | tidesdb/src/handler/ha_tidesdb_dml.cc:229-241 | the centroid of an interval inside a query interval folds into the coarse columns of the query if and only if the zeros do not clash; an overflowing sum does no harm |
| SpatialIndex.EncodeHilbertBe | tidesdb/src/core/spatial.cc:85-89 | writes the distance as eight big-endian bytes and nothing else |
| SpatialIndex.DecodeHilbertBe | tidesdb/src/core/spatial.cc:91-96 | reads back the distance the first eight bytes stand for |
| SpatialIndex.KeyedDistance | tidesdb/src/core/spatial.cc:203-211 | the distance read from the key of a stored entry is the distance of its centroid |
| SpatialIndex.ScannedByColumns | tidesdb/src/handler/ha_tidesdb_index.cc:152-196 | for a query of any kind an entry lies in a scanned range if and only if the scan is full or the coarse columns of its centroid are among those of the query |
| SpatialIndex.WithinIsScanned | tidesdb/src/handler/ha_tidesdb_index.cc:152-196 | for within, contain and equal, a satisfying entry lies in a scanned range if and only if the scan is full or neither axis has a zero clash |
| SpatialIndex.WithinIsComplete | tidesdb/src/handler/ha_tidesdb_index.cc:152-196 | with no negative zero every satisfying entry of a within, contain or equal query lies in a scanned range |
| SpatialIndex.MinusZeroIsMissed | tidesdb/src/core/spatial.cc:41-50 | the entry of a -0 point, keyed as the writer keys it, is within a query and lies in no scanned range |
| SpatialIndex.IntersectionIsMissed | tidesdb/src/handler/ha_tidesdb_index.cc:178-185 | an entry keyed by its own centroid that intersects a query box and lies in no scanned range |
| SpatialScan.SeekOrder | tidesdb/src/handler/ha_tidesdb_index.cc:187-193 | a whole key sorts below the seek key of a range if and only if its distance is below the start of the range |
| SpatialScan.KeyOrderIsDistanceOrder | tidesdb/src/core/spatial.cc:203-211 | keys in byte order have distances in order |
| SpatialScan.NothingSkipped | tidesdb/src/handler/ha_tidesdb_scan.cc:389-397 | between the end of one range and the seek to the next no entry of any range is passed over |
| SpatialScan.SpatialCursor.SeekRange | tidesdb/src/handler/ha_tidesdb_scan.cc:390-396 | the seek splits the entries at the start of the range |
| SpatialScan.SpatialCursor.WalkRange | tidesdb/src/handler/ha_tidesdb_scan.cc:321-387 | the walk stops on the first entry the scan has to return, or past the range with none missed |
| SpatialScan.SpatialCursor.ScanNext | tidesdb/src/handler/ha_tidesdb_scan.cc:309-401 | returns the next entry the scan has to return, or reports the end only when there is none |
| SpatialScan.SpatialCursor.IndexRead | tidesdb/src/handler/ha_tidesdb_index.cc:152-196 | sets up exactly the scanned distances and returns the first entry the scan has to return |
| SpatialScan.SpatialCursor.IndexNext | tidesdb/src/handler/ha_tidesdb_index.cc:320-334 | goes on to the next entry the scan has to return, with none between |
| SpatialScan.SpatialCursor.ReadAll | tidesdb/src/handler/ha_tidesdb_index.cc:152-196 | the whole read returns, once each and in order, exactly the entries at scanned distances whose row is there and whose points stand to those of the query as the predicate says |
| SpatialScan.SpatialQuery | tidesdb/src/handler/ha_tidesdb_index.cc:152-196 | for within, contain and equal over well-keyed entries, the read returns exactly the entries whose row is there, whose points are all in the query (and the other way round for equal) and which have no zero clash with it; without negative zero, all whose points are |
| Wkb.GeometryOfEncoded | tidesdb/src/core/spatial.cc:101-187 | on the encoding of any geometry tree the parser succeeds if and only if the caps allow it, consumes exactly that geometry and grows the rectangle by exactly its points |
| Wkb.TightestRect | tidesdb/src/core/spatial.cc:188-201 | the grown rectangle holds every finite point and each side is reached by one; with no finite point it stays empty |
| Wkb.MbrOfEncoded | tidesdb/src/core/spatial.cc:188-201 | the rectangle of an encoded geometry is the tightest one around its finite points, and fails when there are none |
| Wkb.WkbReader.NextPoint | tidesdb/src/core/spatial.cc:101-117 | reads one point within the buffer or fails, as the specification does |
| Wkb.WkbReader.NextPointSequence | tidesdb/src/core/spatial.cc:118-134 | reads a counted point sequence within the buffer or fails, as the specification does |
| Wkb.WkbReader.ParseGeometry | tidesdb/src/core/spatial.cc:135-187 | on arbitrary bytes terminates, never reads past the end, and agrees with the specification |
| Wkb.ComputeMbr | tidesdb/src/core/spatial.cc:188-201 | on arbitrary bytes returns the specified rectangle or fails |
| KeyCustody.Be32RoundTrip | tidesdb/src/core/crypto_keyenc.cc:28-42 | the big-endian word codec gives every 32-bit value back |
| KeyCustody.StoreKeysAreDistinct | tidesdb/src/core/crypto_keyenc.cc:54-86 | the three kinds of store key never collide and each key tells its fields |
| KeyCustody.ParsesFrames | tidesdb/src/core/crypto_keyenc.cc:88-112 | a stored value parses as a generation and wrapped bytes if and only if it is their frame and the bytes are not empty |
| KeyCustody.PublishKeepsCustody | tidesdb/src/engine/ha_tidesdb_crypto_keyring.cc:424-433 | moving the version pointer to a stored key publishes it and disturbs no other key |
| KeyCustody.StrandedKeyKeepsCustody | tidesdb/src/engine/ha_tidesdb_crypto_keyring.cc:419-427 | a wrapped key above the version pointer changes nothing that is published |
| KeyCustody.RewrapKeepsCustody | tidesdb/src/engine/ha_tidesdb_crypto_keyring.cc:692-700 | re-wrapping a published key under another generation keeps its bytes |
| KeyCustody.NewGenerationKeepsCustody | tidesdb/src/engine/ha_tidesdb_crypto_keyring.cc:663-666 | a new master generation disturbs nothing published |
| KeyCustody.Custodian.StorePut | tidesdb/src/engine/ha_tidesdb_crypto_keyring.cc:216-234 | one durable write; it fails exactly at the calls given as faults, with or without the value having reached the store as the fault says |
| KeyCustody.Custodian.MasterKeyGet | tidesdb/src/engine/ha_tidesdb_crypto_keyring.cc:288-301 | never mints when asked not to, and never loses or changes a generation |
| KeyCustody.Custodian.MasterGenerationResolve | tidesdb/src/engine/ha_tidesdb_crypto_keyring.cc:309-330 | gives the cached generation or else the stored one, seeding the first, without touching any table key |
| KeyCustody.Custodian.TableKeyWrap | tidesdb/src/engine/ha_tidesdb_crypto_keyring.cc:378-399 | the wrapped value is framed with the generation whose key wraps it |
| KeyCustody.Custodian.StoreAndPublish | tidesdb/src/engine/ha_tidesdb_crypto_keyring.cc:637-647 | succeeds if and only if no call fails and then publishes exactly the next version with the given bytes, framed with the given generation; any failure publishes it wholly or not at all |
| KeyCustody.Custodian.TableKeyMint | tidesdb/src/engine/ha_tidesdb_crypto_keyring.cc:407-436 | success publishes version 1 with the random bytes, framed with the generation cached or else stored before the call; every published key keeps its bytes |
| KeyCustody.Custodian.LatestKeyVersion | tidesdb/src/engine/ha_tidesdb_crypto_keyring.cc:526-540 | the version handed out is published and recoverable |
| KeyCustody.Custodian.GetKey | tidesdb/src/engine/ha_tidesdb_crypto_keyring.cc:542-565 | a published version is returned with the bytes it was published with whenever the buffer holds them |
| KeyCustody.Custodian.RotateTableKey | tidesdb/src/engine/ha_tidesdb_crypto_keyring.cc:595-651 | succeeds if and only if the id is 1 to 255, the version is not 4096, there is a generation and no call fails; then the next version is published, framed with the generation cached or else stored before the call; no published key changes |
| KeyCustody.Custodian.RewrapId | tidesdb/src/engine/ha_tidesdb_crypto_keyring.cc:674-702 | after a successful sweep of one id every published version is framed with the new generation, so the 4096 bound skips none |
| KeyCustody.Custodian.RotateMasterKey | tidesdb/src/engine/ha_tidesdb_crypto_keyring.cc:653-719 | succeeds if and only if there is a generation and no call fails; then, resumed or not, the generation is the successor of the cached or stored one, every published key of ids 1 to 255 is framed with it, and the store names it; the sweep touches no other id |
| KeyCustody.KeyIdsAreSwept | tidesdb/src/core/table_options.cc:65-65 | the key id any parsed option text leaves a table with is one the master-key sweep visits |
| KeyCustody.Custodian.Run | tidesdb/src/engine/ha_tidesdb_crypto_keyring.cc:309-719 | over any run of mints, rotations, failed writes and crashes each published version unwraps to the bytes it was first published with; while generations fit 32 bits no published key of ids 1 to 255 is framed with one older than the last successful master rotation left, and a run with a master rotation and no failing call leaves them all at one generation |
| KeyCodec.EncodeOrder | tidesdb/src/handler/ha_tidesdb_keycodec.cc:45-146 | memcmp order of comparable keys is exactly the tuple order, NULL first ascending and last descending, and keys are equal only for equal rows |
| KeyCodec.PartOrder | tidesdb/src/handler/ha_tidesdb_keycodec.cc:82-94 | one encoded part sorts as its column does in its direction |
| KeyCodec.PrefixKeys | tidesdb/src/handler/ha_tidesdb_keycodec.cc:45-146 | an n-part key is a byte prefix of exactly the full keys that agree on those n parts |
| KeyCodec.Encode | tidesdb/src/handler/ha_tidesdb_keycodec.cc:201-213 | every key has the length comparable_key_length computes |
| KeyCodec.InvertedReverses | tidesdb/src/handler/ha_tidesdb_keycodec.h:39-42 | complementing bytes reverses the order of strings of one length |
| KeyCodec.InvertKeyPart | tidesdb/src/handler/ha_tidesdb_keycodec.h:39-42 | complements the span in place and leaves what is before it alone |
| KeyCodec.WritePart | tidesdb/src/handler/ha_tidesdb_keycodec.cc:51-143 | one turn of the loop appends the encoding of the part to the buffer |
| KeyCodec.MakeComparableKey | tidesdb/src/handler/ha_tidesdb_keycodec.cc:45-146 | the buffer ends up holding the encoding of the first parts asked for, and its length is returned |
| KeyCodec.IntegerImageOrder | tidesdb/src/core/sort_key.cc:22-30 | sort images of integer columns are in byte order exactly when the signed or unsigned numbers are in order |
| KeyCodec.DecodePartOfImage | tidesdb/src/core/sort_key.cc:22-77 | decoding the sort image of a field gives its native bytes, for every decodable kind |
| KeyCodec.DecodeKeyOfEncoded | tidesdb/src/handler/ha_tidesdb_keycodec.cc:286-332 | decoding a comparable key followed by anything returns every value and NULL and leaves the cursor exactly behind the last part |
| KeyCodec.DecodePartInto | tidesdb/src/core/sort_key.cc:39-77 | writes the decoded native bytes into the record, or fails, as specified |
| KeyCodec.DecodeNextPart | tidesdb/src/handler/ha_tidesdb_keycodec.cc:489-534 | one part is decoded, or the key is refused, without reading past its end |
| KeyCodec.DecodeKeyParts | tidesdb/src/handler/ha_tidesdb_keycodec.cc:286-332 | the cursor loop decodes arbitrary bytes as specified and never reads past the end |
| RowIndexes.EntryParts | tidesdb/src/handler/ha_tidesdb_keycodec.cc:219-225 | index entries are equal only for the same row key and columns, and a column key is a prefix of exactly the entries with those columns |
| RowIndexes.OneEntryPerRow | tidesdb/src/handler/ha_tidesdb_dml.cc:245-253 | an index holds exactly as many entries as there are rows |
| RowIndexes.PrimaryKeyIsUnique | tidesdb/src/handler/ha_tidesdb_dml.cc:67-93 | two stored rows with the same primary-key columns are one row |
| RowIndexes.AdmitsIff | tidesdb/src/handler/ha_tidesdb_dml.cc:95-170 | the probe of one unique index admits a row if and only if the rows with it in place are still unique there, rows with a NULL in the key never being in each other's way |
| RowIndexes.AllAdmitIff | tidesdb/src/handler/ha_tidesdb_dml.cc:95-170 | all probes pass if and only if the table with the row in place obeys every unique key |
| RowIndexes.InsertKeeps | tidesdb/src/handler/ha_tidesdb_dml.cc:245-253 | adding one entry per index keeps every index exact and every unique key unique |
| RowIndexes.DeleteKeeps | tidesdb/src/handler/ha_tidesdb_dml.cc:570-577 | removing one entry per index keeps every index exact |
| RowIndexes.UpdateKeeps | tidesdb/src/handler/ha_tidesdb_dml_update.cc:325-375 | replacing the old entry by the new one, primary-key moves included, keeps every index exact and every unique key unique |
| RowIndexes.NewPkIsNew | tidesdb/src/handler/ha_tidesdb_dml.cc:258-266 | a hidden row id is never in use |
| RowIndexes.RowTable.ProbeDuplicate | tidesdb/src/handler/ha_tidesdb_dml.cc:127-168 | seeking to the column key finds an entry with that prefix if and only if some row has that value |
| RowIndexes.RowTable.WriteCheckSecondaryUnique | tidesdb/src/handler/ha_tidesdb_dml.cc:95-170 | for any free row key, passes if and only if the table with the row added obeys every unique key |
| RowIndexes.RowTable.WriteMaintainIndexes | tidesdb/src/handler/ha_tidesdb_dml.cc:172-256 | every index gains exactly the entry of the row |
| RowIndexes.RowTable.DeleteMaintainIndexes | tidesdb/src/handler/ha_tidesdb_dml.cc:510-580 | every index loses exactly the entry of the row |
| RowIndexes.RowTable.WriteRow | tidesdb/src/handler/ha_tidesdb_dml.cc:280-388 | succeeds if and only if the key is free, or replaced with no secondary index, and the table with the row obeys every unique key; then it is that table and stays consistent |
| RowIndexes.RowTable.DeleteRow | tidesdb/src/handler/ha_tidesdb_dml.cc:391-508 | the row is gone and the table stays consistent |
| RowIndexes.RowTable.UpdateCheckUnique | tidesdb/src/handler/ha_tidesdb_dml_update.cc:47-139 | passes if and only if the new key is free and no other row has the new all-non-NULL unique values |
| RowIndexes.RowTable.UpdateRegularIndex | tidesdb/src/handler/ha_tidesdb_dml_update.cc:325-375 | whether skipped or written, the old entry is replaced by the new one |
| RowIndexes.RowTable.UpdateMaintainIndexes | tidesdb/src/handler/ha_tidesdb_dml_update.cc:512-543 | every index has the old entry replaced by the new one |
| RowIndexes.RowTable.UpdateRow | tidesdb/src/handler/ha_tidesdb_dml_update.cc:379-488 | succeeds if and only if a changed key is free and the table with the row moved obeys every unique key; then it is that table and stays consistent |
| RowIndexes.RowTable.Run | tidesdb/src/handler/ha_tidesdb_dml.cc:280-577 | over any run of writes, updates and deletes the rows are those of the plain constrained table and every index holds exactly one entry per row |
| BulkDelete.SuccessorBlock | tidesdb/src/handler/ha_tidesdb_dml.cc:757-775 | the keys from a key up to its successor are exactly the keys that begin with it |
| BulkDelete.NoSuccessor | tidesdb/src/handler/ha_tidesdb_dml.cc:757-775 | there is no successor exactly for keys of nothing but 0xFF |
| BulkDelete.SpanHoldsDataKeys | tidesdb/src/handler/ha_tidesdb_dml.cc:840-866 | a span from a data key to the successor of a data key holds only data keys |
| BulkDelete.EqualCountsEqualSets | tidesdb/src/handler/ha_tidesdb_dml.cc:833-838 | equal counts force the live rows of the span to be the buffered ones, even if the iterator yields more than the span |
| BulkDelete.CountMatchesIff | tidesdb/src/handler/ha_tidesdb_dml.cc:833-866 | the count equals the number of buffered rows if and only if the iterator yields no other live row |
| BulkDelete.RangeIsTheBuffer | tidesdb/src/handler/ha_tidesdb_dml.cc:840-873 | when the count matches, the range tombstone removes exactly the rows deleted |
| BulkDelete.DataKeySuccessor | tidesdb/src/handler/ha_tidesdb_dml.cc:761-775 | computes the successor in the buffer, or reports that there is none |
| BulkDelete.Deleter.StartBulkDelete | tidesdb/src/handler/ha_tidesdb_dml.cc:817-831 | starts with nothing deleted and nothing buffered |
| BulkDelete.Deleter.DeleteRow | tidesdb/src/handler/ha_tidesdb_dml.cc:432-482 | the row is deleted or buffered, and a full buffer is flushed |
| BulkDelete.Deleter.FlushBuffered | tidesdb/src/handler/ha_tidesdb_dml.cc:805-815 | exactly the buffered rows are removed |
| BulkDelete.Deleter.CountLiveDataKeys | tidesdb/src/handler/ha_tidesdb_dml.cc:777-803 | counts the data keys of what the iterator yields, which includes the whole span |
| BulkDelete.Deleter.EndBulkDelete | tidesdb/src/handler/ha_tidesdb_dml.cc:833-908 | a range tombstone is written if and only if at least 64 rows are buffered, neither the count nor the range delete fails, and no other live row is yielded; whichever way it ends, the live rows are the initial ones minus those deleted |
| BulkDelete.Deleter.BulkDelete | tidesdb/src/handler/ha_tidesdb_dml.cc:432-908 | a whole statement over distinct live rows removes exactly those rows |
| IndexBuild.PassedStep | tidesdb/src/handler/ha_tidesdb_ddl.cc:494-516 | stepping off a data key passes exactly its row, stepping off another key passes none |
| IndexBuild.SeenIsTaken | tidesdb/src/handler/ha_tidesdb_ddl.cc:320-330 | a column key is in the seen-set if and only if an earlier row has that value |
| IndexBuild.BuildIndexKey | tidesdb/src/handler/ha_tidesdb_ddl.cc:241-275 | builds the key make_comparable_key builds, and notices exactly the rows with a NULL part |
| IndexBuild.Builder.AddRowEntries | tidesdb/src/handler/ha_tidesdb_ddl.cc:277-350 | every new index gains the entry of the row, or a duplicate is reported for a unique index the rows really break, or a write among those of the row failed |
| IndexBuild.Builder.BatchCommitReseek | tidesdb/src/handler/ha_tidesdb_ddl.cc:352-402 | commits the batch and stands on the key after the last row; fails only with the commit or the new iterator, and ends the scan when the seek fails |
| IndexBuild.Builder.HandleRow | tidesdb/src/handler/ha_tidesdb_ddl.cc:494-556 | one turn of the scan: the row is indexed and the scan goes on behind it, or it stops for the stated reason |
| IndexBuild.Builder.ScanAndBuild | tidesdb/src/handler/ha_tidesdb_ddl.cc:476-574 | on success every row handled was visited exactly once and each new index is that of those rows, which are all rows if and only if no failing seek left rows ahead; it is interrupted only by a kill at a batch and fails only with a library call |
| IndexBuild.AddIndexes | tidesdb/src/handler/ha_tidesdb_ddl.cc:241-574 | undisturbed, a duplicate is reported if and only if two rows agree on an all-non-NULL unique key, and otherwise the build succeeds and leaves exactly a table of the extended schema, as row-by-row writes would; kills, failing calls and failing seeks are the only other outcomes |
| FullTextPostings.EntryKeysClash | tidesdb/src/core/fts_text.cc:82-94 | entries share a key if and only if the rows are the same and the terms agree in their first 512 bytes |
| FullTextPostings.EntryValueRoundTrip | tidesdb/src/core/fts_text.cc:54-66 | the entry value gives back every 16-bit frequency and 32-bit length |
| FullTextPostings.DiffIsReinsertIff | tidesdb/src/handler/ha_tidesdb_dml_update.cc:219-263 | the term-level diff gives the family that deleting all entries and writing all new ones gives if and only if no dropped term has the stored bytes of a kept term that is not rewritten |
| FullTextPostings.DiffIsReinsert | tidesdb/src/handler/ha_tidesdb_dml_update.cc:219-263 | with no two terms of a document alike in 512 bytes, the term-level diff gives the family that deleting all entries and writing all new ones gives |
| FullTextPostings.ClashLosesPosting | tidesdb/src/handler/ha_tidesdb_dml_update.cc:219-263 | two terms of one document that agree in 512 bytes lose their shared entry when one of them is dropped |
| FullTextPostings.CountTerms | tidesdb/src/handler/ha_tidesdb_dml.cc:200-202 | counts every term of the document, modulo 65536 |
| FullTextPostings.PutEntries | tidesdb/src/handler/ha_tidesdb_dml.cc:204-215 | writes exactly the entries of the terms, whatever the order of the hash map |
| FullTextPostings.DeleteEntries | tidesdb/src/handler/ha_tidesdb_dml.cc:538-545 | deletes exactly the entries of the terms, whatever the order of the hash map |
| FullTextPostings.UpdateDiff | tidesdb/src/handler/ha_tidesdb_dml_update.cc:219-263 | the two loops perform the specified diff |
| FullText.ExactMove | tidesdb/src/handler/ha_tidesdb_dml_update.cc:183-205 | deleting the old entries and writing the new ones keeps the postings exact, under the same or another key |
| FullText.UnwrittenMove | tidesdb/src/handler/ha_tidesdb_dml_update.cc:153-164 | after a primary-key move that writes no column of the index the postings are exact if and only if the document has no terms |
| FullText.MetaRoundTrip | tidesdb/src/core/fts_text.cc:68-80 | the stored totals give back every pair of 64-bit values |
| FullText.FullTextTable.Accumulate | tidesdb/src/handler/ha_tidesdb_fts.cc:130-146 | adds to the pending change of one index and to no other |
| FullText.FullTextTable.UpdateMeta | tidesdb/src/handler/ha_tidesdb_fts.cc:93-125 | clamps if and only if a total would turn negative, and otherwise stores the sum |
| FullText.FullTextTable.FlushPending | tidesdb/src/handler/ha_tidesdb_fts.cc:155-173 | stores the true totals of every index; the clamp at zero never fires |
| FullText.FullTextTable.InsertDoc | tidesdb/src/handler/ha_tidesdb_dml.cc:193-217 | writes the postings of the document and counts it |
| FullText.FullTextTable.DeleteDoc | tidesdb/src/handler/ha_tidesdb_dml.cc:528-547 | deletes the postings of the document and uncounts it |
| FullText.FullTextTable.UpdateDoc | tidesdb/src/handler/ha_tidesdb_dml_update.cc:145-217 | whether diffed or moved, the postings are those of delete-all-and-reinsert, and the word total follows |
| FullText.FullTextTable.WriteRow | tidesdb/src/handler/ha_tidesdb_dml.cc:172-256 | postings stay exact and the totals stay right over all full-text indexes |
| FullText.FullTextTable.DeleteRow | tidesdb/src/handler/ha_tidesdb_dml.cc:510-580 | postings stay exact and the totals stay right over all full-text indexes |
| FullText.FullTextTable.UpdateRow | tidesdb/src/handler/ha_tidesdb_dml_update.cc:512-543 | postings stay exact and the totals stay right when each moved document is written or empty |
| FullText.FullTextTable.Commit | tidesdb/src/handler/ha_tidesdb_dml.cc:605-687 | at every commit, mid-statement ones included, the stored totals are the row count and the summed lengths; a refused commit falls back to the last one |
| FullText.FullTextTable.Rollback | tidesdb/src/handler/ha_tidesdb_txn.cc:535-556 | back to the last commit with nothing pending |
| FullText.FullTextTable.Run | tidesdb/src/handler/ha_tidesdb_dml.cc:172-687 | over any run of row operations, commits and rollbacks postings are exactly (term, key) to (frequency, length) for the rows |
| FullTextSearch.RetrievedMatches | tidesdb/src/handler/ha_tidesdb_fts_search.cc:203-285 | a key is retrieved if and only if its stored term is the query term or, truncated, begins with it within the length cap |
| FullTextSearch.WalkBucket | tidesdb/src/handler/ha_tidesdb_fts_search.cc:231-266 | seek and walk lists each key of one length bucket with the prefix exactly once |
| FullTextSearch.GatherPostings | tidesdb/src/handler/ha_tidesdb_fts_search.cc:203-285 | lists exactly the retrieved keys, each once, with their frequency and length |
| FullTextSearch.GatheredAreMatches | tidesdb/src/handler/ha_tidesdb_fts_search.cc:203-285 | what is gathered are the postings of the matching terms of the documents and no others |
| FullTextSearch.AddPostings | tidesdb/src/handler/ha_tidesdb_fts_search.cc:333-356 | folds one posting list into the scored, hit and excluded maps |
| FullTextSearch.ScoreTerms | tidesdb/src/handler/ha_tidesdb_fts_search.cc:290-382 | for any query exactly the documents with a non-excluded hit, no excluded hit and enough required hits are left |
| FullTextSearch.SatisfiesSurvives | tidesdb/src/handler/ha_tidesdb_fts_search.cc:290-382 | for every query, a document with every required term, no excluded term and some non-excluded term survives |
| FullTextSearch.SurvivesIffSatisfies | tidesdb/src/handler/ha_tidesdb_fts_search.cc:290-382 | with at most one required term, or none truncated, a document survives if and only if it has every required term, no excluded term and some non-excluded term |
| FullTextSearch.OrderDoesNotMatter | tidesdb/src/handler/ha_tidesdb_fts_search.cc:361-368 | for every query and every index, permuting the terms does not change what survives |
| FullTextSearch.RepetitionDoesNotMatter | tidesdb/src/handler/ha_tidesdb_fts_search.cc:361-368 | with exact required terms, repeating a term does not change what survives |
| FullTextSearch.HitsAreMatched | tidesdb/src/handler/ha_tidesdb_fts_search.cc:333-356 | a query term hits a document once for each distinct stored term of it that matches |
| FullTextSearch.KeptWronglyIff | tidesdb/src/handler/ha_tidesdb_fts_search.cc:333-382 | a document survives without satisfying the query if and only if it lacks a required term, has no excluded one, and its terms match the required terms at least as often as there are required terms |
| FullTextSearch.TruncatedRequiredOvercounts | tidesdb/src/handler/ha_tidesdb_fts_search.cc:333-382 | any document in which one required term matches as many stored terms as there are required terms survives without another required term, when nothing excludes it |
| FullTextSearch.TwoWordsForOne | tidesdb/src/handler/ha_tidesdb_fts_search.cc:333-382 | a concrete document that survives a query with a required truncated term although it misses another required term |
| DdlLogRecord.DecodeOfEncoded | tidesdb/src/core/ddl_log_rec.cc:88-126 | decoding an encoded record gives it back exactly when it names a path |
| DdlLogRecord.KeysNameRecords | tidesdb/src/core/ddl_log_rec.cc:73-86 | a key tells the run that wrote it and distinct numbers give distinct keys |
| DdlLogRecord.ReadStr | tidesdb/src/core/ddl_log_rec.cc:58-71 | reads one bounded string within the buffer or fails |
| DdlLogRecord.ReadRecord | tidesdb/src/core/ddl_log_rec.cc:103-126 | decodes arbitrary bytes as specified and never reads past the end |
| CfNames.ToCfName | tidesdb/src/core/cf_name.cc:20-55 | the loop gives the family name of the path: database, two underscores, table, with temporary markers replaced |
| CfNames.CfNameOfTable | tidesdb/src/core/cf_name.cc:20-55 | a relative path of a database and a table splits into them and is named after both |
| CfNames.CfNameBelow | tidesdb/src/core/cf_name.cc:20-42 | below any directories a path splits into the last directory and the file |
| CfNames.CfNameOfFile | tidesdb/src/core/cf_name.cc:44-49 | a file in no directory is its own name, markers kept |
| CfNames.CrossesByName | tidesdb/src/handler/ha_tidesdb_lifecycle.cc:139-166 | a removal takes a family of a table if and only if one of that table's names is the removed name or begins with it and the index infix |
| CfNames.KeepsStorageIff | tidesdb/src/handler/ha_tidesdb_lifecycle.cc:139-166 | a table keeps its storage through a removal if and only if the removal does not cross it |
| CfNames.IndexLikeTableIsTaken | tidesdb/src/handler/ha_tidesdb_lifecycle.cc:139-166 | a table named after another and the index infix loses every family when the other is removed |
| CfNames.NamesCollide | tidesdb/src/core/cf_name.cc:44-55 | two tables of different databases can have one family name |
| CfNames.PlainNamesAreSafe | tidesdb/src/core/cf_name.cc:44-55 | between names without two underscores in a row or one at the end, a removal takes families of a table if and only if the names are the same |
| DdlEngine.Engine.DropTable | tidesdb/src/handler/ha_tidesdb_ddl_deferred.cc:381-402 | a drop is recorded and nothing on disk changes |
| DdlEngine.Engine.CreateTable | tidesdb/src/handler/ha_tidesdb_open.cc:600-654 | the families appear one by one, the main one first; with power and no error all exist and the create is recorded; when it stops with an error the families made stay and the path counts as lost if and only if there was one |
| DdlEngine.Engine.Commit | tidesdb/src/handler/ha_tidesdb_ddl_deferred.cc:117-134 | records and dictionary change together: the dictionary is the old one with the session's creates added and its drops removed, no record is lost and a drop record is new only for its own statement |
| DdlEngine.Engine.Rollback | tidesdb/src/handler/ha_tidesdb_ddl_deferred.cc:117-143 | a rolled-back statement changes nothing on disk |
| DdlEngine.Engine.Crash | tidesdb/src/handler/ha_tidesdb_ddl_deferred.cc:416-425 | a crash keeps the disk; only uncommitted creates lose their record |
| DdlEngine.Engine.DropFamiliesNow | tidesdb/src/handler/ha_tidesdb_lifecycle.cc:128-172 | removes exactly the families named like the path or beginning with its name and the index infix, but for refused ones; a refused main family stops it with nothing removed |
| DdlEngine.Engine.ResolveEarlier | tidesdb/src/handler/ha_tidesdb_ddl_deferred.cc:231-264 | a drop record of an earlier run is erased only after its families are gone but for refused ones, and stays with everything in place when the main family is refused |
| DdlEngine.Engine.ResolveOwn | tidesdb/src/handler/ha_tidesdb_ddl_deferred.cc:231-264 | a rolled-back drop and a committed create keep their families; a committed drop and a rolled-back create lose them before the record goes; under refusal, or for a create that could not write its record, the outcome is the stated one |
| DdlServer.GoneOrOnRecord | tidesdb/src/handler/ha_tidesdb_ddl_deferred.cc:231-264 | with power, what was to go is gone or still on record, except if and only if the library refused one of its families and that was not the main family of a committed drop |
| DdlServer.TablesHaveRecords | tidesdb/src/handler/ha_tidesdb_ddl_deferred.cc:80-89 | below any directory the record of a table is made of its path, its database and its name |
| DdlEngine.Engine.Recover | tidesdb/src/handler/ha_tidesdb_ddl_deferred.cc:274-348 | carries out and erases exactly the readable records of earlier runs, and leaves those of this run alone |
| DdlEngine.Engine.PostDdl | tidesdb/src/handler/ha_tidesdb_ddl_deferred.cc:359-379 | after the hook no record of the statement is open, what was to go is gone and its record erased unless the library refused; only names of those paths, and of recovered drops in the first hook of a run, lose families |
| DdlEngine.Engine.Run | tidesdb/src/handler/ha_tidesdb_ddl_deferred.cc:175-402 | over any run with crashes after any write, the dictionary is the one the committed statements leave; its tables keep their families unless a removal under a name that takes one may have hit them; a path last dropped has no family left but what another name accounts for, or its drop on record, where it is only from its commit to its hook or a recovery; paths are lost only where the server's view says so |
| DdlEngine.Engine.RunOne | tidesdb/src/handler/ha_tidesdb_ddl_deferred.cc:175-402 | one event changes dictionary, open statements, drops on record, lost paths and hit tables as the server's view does |
| DdlFollows.DroppedIsGone | tidesdb/src/handler/ha_tidesdb_ddl_deferred.cc:231-264 | a path whose last committed statement is a drop has no family left but what another path's name accounts for, or its drop on record, unless it counts as lost |
| DdlServer.HarmlessRunLosesNothing | tidesdb/src/handler/ha_tidesdb_ddl_deferred.cc:175-402 | without crash, refusal or a create that fails or cannot write its record, no run loses a path |
| DdlServer.ApartRunHitsNothing | tidesdb/src/handler/ha_tidesdb_lifecycle.cc:128-172 | when no table's removal takes a family of another and no server run stops, no run hits a table |
| DdlServer.RecoveryIsSafeIff | tidesdb/src/handler/ha_tidesdb_ddl_deferred.cc:274-348 | recovery keeps the storage of every table if and only if no readable drop record of an earlier run is of a path whose name takes a family of a table the server has |
| DdlCases.CreateOverPendingDrop | tidesdb/src/handler/ha_tidesdb_ddl_deferred.cc:359-379 | from any state with a drop of an earlier run on record, creating that path as the first statement of the run leaves the table in the dictionary with no family |
| DdlCases.TableIsLost | tidesdb/src/handler/ha_tidesdb_ddl_deferred.cc:274-402 | such a state is reached: create, drop, stop before the hook, create again |
| DdlCases.DropAlone | tidesdb/src/handler/ha_tidesdb_lifecycle.cc:128-172 | a drop with its commit and hook leaves exactly the families its name does not take, and another table keeps its storage if and only if the dropped one does not cross it |
| DdlCases.NeighbourIsLost | tidesdb/src/handler/ha_tidesdb_lifecycle.cc:139-166 | such a loss is reached: two tables, one named like an index of the other, and a drop of the other |
| DdlCases.NeighbourExample | tidesdb/src/handler/ha_tidesdb_lifecycle.cc:139-166 | tables `a` and `a__idx_b` of one database are such |
| DdlCases.FailedCreate | tidesdb/src/handler/ha_tidesdb_open.cc:600-654 | after a create that stops with an error, its rollback and its hook, families of the path are left if and only if it had made one or there were some before |
| TableOptions.ReadNumber | tidesdb/src/core/table_options.cc:170-186 | accepts exactly the digit strings with value below 2^64, at that value |
| TableOptions.ReadEnum | tidesdb/src/core/table_options.cc:188-206 | the first name equal up to case, or else a position inside the list |
| TableOptions.OptionNamesDiffer | tidesdb/src/core/table_options.cc:49-68 | no two option names are equal up to case |
| TableOptions.ParseIsLeftToRight | tidesdb/src/core/table_options.cc:215-343 | a text parses if and only if it is empty, an object whose members all name an option and fit it, or an empty object with anything after it; the result is the starting struct with each named option at its last value |
| TableOptions.ParseKeepsBounds | tidesdb/src/core/table_options.cc:170-343 | whatever text is parsed over options within their bounds leaves options within their bounds |
| TableOptions.ParseOfSerialized | tidesdb/src/core/table_options.cc:376-417 | reading what was written gives the options back over any starting struct if and only if numbers are within bounds and enumerated values have names |
| OptionMeaning.LowerByAlphabet | tidesdb/src/core/table_options.cc:72-79 | a capital letter is read as its small form and every other character as itself |
| OptionMeaning.BooleanWords | tidesdb/src/core/table_options.cc:155-168 | a value is yes if and only if it is true, yes, on or 1, and no if and only if it is false, no, off or 0, up to case |
| OptionMeaning.EnumChooses | tidesdb/src/core/table_options.cc:188-206 | an enumerated value is the first name equal to it up to case, or, equal to none, the position it writes inside the list |
| OptionMeaning.TableByName | tidesdb/ha_tidesdb.cc:197-339 | by option name: which options are yes-or-no, which name list the two enumerated ones use, and the range of every number |
| OptionMeaning.ReadingDenotes | tidesdb/src/core/table_options.cc:49-68 | a text is read as a value of an option if and only if that is what it means for the option of that name |
| OptionMeaning.ParseDenotes | tidesdb/src/core/table_options.cc:215-343 | a text parses if and only if every member names an option up to case and means a value of it, and each option then holds what the last text given for it means or else what it held |
| OptionMeaning.YesOrNoOutcome | tidesdb/src/core/table_options.cc:155-168 | a yes-or-no option last named with true, yes, on or 1 is 1, with false, no, off or 0 is 0, and any other word for it is refused |
| OptionMeaning.ParseAlike | tidesdb/src/core/table_options.cc:133-153 | when a text is accepted, so is one whose names and values agree with it up to case, with the same result |
| OptionGrammar.EscapeByCode | tidesdb/src/core/table_options.cc:88-131 | each escape letter stands for the character code JSON gives it, and no other letter is an escape |
| OptionGrammar.DocumentIsRead | tidesdb/src/core/table_options.cc:80-153 | every text of the grammar, with any blanks and any choice of escapes and quoting, is read as the members it spells |
| OptionGrammar.ReadIsDocument | tidesdb/src/core/table_options.cc:80-343 | every text that is read is one of the grammar and its members are what it spells |
| OptionParser.ReadStringFrom | tidesdb/src/core/table_options.cc:88-131 | reads a JSON string with its escapes as specified, within the text |
| OptionParser.ReadValueFrom | tidesdb/src/core/table_options.cc:136-153 | reads a quoted or bare value as specified, and refuses nested ones |
| OptionParser.ParseAttributes | tidesdb/src/core/table_options.cc:215-343 | accepts a text if and only if it is an object all of whose members name an option and mean a value of it; the struct then holds what the last text for each option means and is otherwise as before; a refusal has the specified error |
| OptionParser.SerializeAttributes | tidesdb/src/core/table_options.cc:395-417 | appends exactly the specified text |
| FkRecord.DeserializeOfSerialized | tidesdb/src/handler/ha_tidesdb_fk.cc:127-186 | decoding a serialised constraint gives every field back when all lengths are below 65536 |
| FkRecord.ReadRecord | tidesdb/src/handler/ha_tidesdb_fk.cc:155-186 | decodes arbitrary bytes as specified and never reads past the end |
| FkRecord.ChildKeysDiffer | tidesdb/src/handler/ha_tidesdb_fk.cc:201-209 | child keys are equal only for the same child table and name, when family names hold no NUL |
| FkRecord.ParentKeysDiffer | tidesdb/src/handler/ha_tidesdb_fk.cc:212-223 | parent keys are equal only for the same parent, child and name, when family names hold no NUL |
| FkCatalog.RecordTells | tidesdb/src/handler/ha_tidesdb_fk.cc:269-363 | the record under either key decodes to its constraint and the first byte of the key tells the side |
| FkCatalog.RenamedFields | tidesdb/src/handler/ha_tidesdb_fk.cc:269-363 | a side changes, in all three of its names, if and only if it names the table, every other field stays, and the old name is gone |
| FkCatalog.RenamedInStep | tidesdb/src/handler/ha_tidesdb_fk.cc:269-363 | for any way of naming families after database and table, a rename keeps the family of each side that of its database and table |
| FkCatalog.Catalog.Persist | tidesdb/src/handler/ha_tidesdb_fk.cc:464-489 | the new constraints are added, or none of them |
| FkCatalog.Catalog.RenameTable | tidesdb/src/handler/ha_tidesdb_fk.cc:269-363 | exactly the constraints naming the table are renamed on every side they name it, each is again under its two keys, none names the old family, and family names stay in step with databases and tables |
| FkCatalog.Catalog.Purge | tidesdb/src/handler/ha_tidesdb_fk.cc:496-537 | exactly the constraints naming the table on either side are gone |
| FkCatalog.Catalog.Load | tidesdb/src/handler/ha_tidesdb_fk.cc:541-651 | returns exactly the constraints of each side once, self-references on both |
| FkCatalog.RunChanges | tidesdb/src/handler/ha_tidesdb_fk.cc:269-537 | every catalog reached by creation, rename and drop holds each constraint under exactly its two keys with identical records and nothing else, and each side still names the family of its own database and table |
| FkCatalog.AnonymousNamesClash | tidesdb/src/handler/ha_tidesdb_fk.cc:398-400 | two unnamed constraints of a table get the same name if and only if their numbers agree in what the 64-byte buffer has room for |
| FkCatalog.LaterNameWins | tidesdb/src/handler/ha_tidesdb_fk.cc:464-489 | of two constraints with one name only the later is left under the child key, and an earlier parent still lists the earlier one |
| Store.SeekFindsPrefix | tidesdb/src/handler/ha_tidesdb_dml.cc:145-154 | if any key begins with a prefix, the key a seek to the prefix lands on does |

## Left out

- Spatial INTERSECT completeness: false, because entries are keyed by centroid; `ScannedByColumns` says exactly which entries a query scans.
- Spatial index maintenance on update, and the deletion of spatial entries: same shape as the regular index; only the key of a stored entry is modelled.
- The VARBINARY branch of the key codec, whose overflow bytes and length suffix share positions.
- DATETIME and TIMESTAMP sort images, which come from server encodings that are not visible.
- Collation sort images: a part's image is any byte string of its width whose byte order is the column order.
- Row-level foreign-key enforcement and cascades, TTL, and the row value encoding.
- The auto-increment counter and `tidesdb_skip_unique_check`, which bypass the unique checks.
- Mid-statement commits of regular indexes, savepoints, statement rollback and XA.
- Index build under concurrent writes, a key the iterator cannot read, which the scan passes over, and the population of full-text and spatial indexes.
- The tokenizer: a document is its sequence of tokens, a function of the indexed text.
- BM25 scores: which documents have a score is modelled, the number is not.
- Phrase queries and their post-filter.
- Real AES, the keyring service and random bytes: the cipher is any pair that unwraps what it wrapped.
- Transient read errors of the store: a read misses only what is absent.
- Tables without a database, which are dropped at once, the renaming of a table's families, and a DROP whose record cannot be written, which fails and changes nothing.
- NULL name lists, column attributes and error message texts of the option parser; the error kinds are modelled.
- Resolution of column names to field numbers in `fk_load` and `fk_persist_defs`.
- Plugin start-up, system variables, status output, cost model and directory removal.
- FullTextSearch.SurvivesIffSatisfies: with several required terms none may be truncated, because hits are counted per posting; `KeptWronglyIff` is exact for every query.
- FullTextSearch.GatherPostings: the entries have the form the writer gives them; a key shorter than its length field says is not modelled.
- FullTextSearch.ScoreTerms: the same condition on the entries.
- SpatialScan.SpatialCursor.IndexRead: a query axis from +0 to -0 is not given, because it breaks the assertion of `decompose_ranges`; `QueryBoxIsValid` says when.
- SpatialScan.SpatialCursor.ReadAll: the same condition on the query.
- SpatialScan.SpatialQuery: the same condition on the query.
- SpatialIndex.ParseQueryMbr: the four coordinates are finite; infinities and NaN are not modelled.
- FullTextPostings.PutEntries: the terms written differ in their first 512 bytes; otherwise the entry left depends on the order of the hash map.
- FullText.FullTextTable.UpdateRow: an unwritten full-text column with terms must keep its primary key, the condition `UnwrittenMove` proves necessary.
- FullText.FullTextTable.WriteRow: the terms of one document must differ in their first 512 bytes and the totals must stay below 2^63.
- FullText.FullTextTable.Run: both conditions hold of every operation of the run.
- BulkDelete.Deleter.FlushBuffered: a failing delete, which ends the statement with an error, is not modelled.
- KeyCustody.Custodian.RotateMasterKey: re-framing is claimed for ids 1 to 255, the ids the sweep visits and, by `KeyIdsAreSwept`, all a table can have.
- DdlEngine.Engine.Run: a statement holds its path alone until its hook has run, which is what metadata locks provide, and a new run has a run id that no earlier run had; that tables share a family is not followed into their rows.
- FkCatalog.Catalog.RenameTable: the new name is not yet the child of a constraint, and family names hold no NUL.
- FkCatalog.Catalog.Persist: names are new to the child table; `AnonymousNamesClash` says when synthesised ones are not.
