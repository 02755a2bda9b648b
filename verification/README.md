# Verification model of the dag-ml-data core

dag-ml-data plans how feature data is adapted between representations, stores numeric
features in columnar buffers, ships them as files and tensors, and hands views of them to
coordinators. This project models the parts of it where several pieces of logic must agree,
and proves what they are meant to guarantee together.

- **Adapter path search** (`AdapterWalks`, `AdapterRoutes`, `AdapterSearch`, `AdapterRegistry`,
  `AdapterOverflow`). `find_path` is a best-first search with a hop budget, dominance per
  (node, hops), a ban on using an adapter twice, adapters that score zero, checked 64-bit
  sums, an early break and a list of tied goal paths. A *walk* is any chain of eligible
  adapters, loops and passes through the goal included; the search is proved to collect
  exactly the (score, hops)-least walks, and what overflowing sums change about that is
  stated exactly. The queue may hand out any state with a least (score, hops), and edges may
  be listed in any order, so the verdict does not depend on a tie-break.
- **The `.n4d` file** (`BufferFormat`, `FileLayout`, `BufferCodec`, `CodecRoundTrip`) on top of
  the buffers and stores (`FeatureBuffer`, `RowMajorLimit`, `FeatureStore`). The parser is characterised
  on arbitrary bytes: it accepts exactly the bytes some list of matrices is written to, and
  returns that list. The round trip, injectivity and the fixed point of re-saving follow.
- **Content fingerprint** (`ContentHash`, `Fingerprint`): the scratch-buffered hasher is a
  class whose stream is the one-shot preimage; the framing is injective on valid buffers.
- **Projection and handle arena** (`Projection`, `ProjectionLimit`, `Arena`, `ArenaRuns`): boxed and typed
  projections, the class of handle bindings, and what every run of binds and releases
  guarantees to a later projection.
- **Tensors and Arrow arrays** (`StridedGather`, `StridedLimit`, `ArrowArrays`): the strided copy with its
  checked span and unchecked inner arithmetic, and the bit-packed array builders with their
  decoders. The array layout is that of the Apache Arrow Columnar Format, sections "Validity
  bitmaps" and "Variable-size Binary Layout".
- **Collation** (`Collation`), **Arrow batch merge** (`BatchMerge`), **release order**
  (`PublishOrder`) and **sample alignment** (`Alignment`).

`Ordering`, `Sequences`, `Words` and `Wrappers` hold what these share: sorted order without
duplicates, distinct sequences, little-endian words and prefix-free encodings.

## Reading the model

Code that works step by step is imperative here too: the registry, the hasher and the arena
are classes, the search, the parser, the writers and the builders are methods with loops,
each proved against a specification in terms of which the lemmas are stated. A result that
is not delivered is one `ValidationError`, without its message; `find_path` keeps its codes
and choices. An f64 is its 64-bit pattern. SHA-256, UTF-8 validity, the test for blank
strings and the size of `usize` are parameters (`Host`, `Machine`). Arithmetic the source
does not check is either shown to fit where it stands, or wraps as in a release build. A call
that may stop the program has an `Outcome`, which is `Trapped` or carries the result.

What a specification function means is also said without it: lemmas whose names end in `InFields`, the
modules `AdapterRoutes` and `FileLayout`, and lemmas such as `ContentHash.HexDigits` state each
result in the fields of the records, in positions and in numbers.

## Findings

- **An overflowing branch can hide a finite path**, against the promise a regression test
  carries in its name (`crates/dag-ml-data/tests/audit_regressions.rs:596-634`). Dominance
  compares scores only, and a preferred adapter scores one less than it costs, so a state may
  dominate a rival by its score and then be dropped because its raw cost overflows.
  `AdapterOverflow.OverflowHidesFinitePath` gives a registry on which no run of the search can
  return the finite path. This takes a best walk whose score fits and whose raw cost does not:
  a best walk that fits in both is always delivered, or offered
  (`AdapterRegistry.Registry.FindPath`), and the answer is exact if and only if
  `AdapterRegistry.Exact` holds. A caller can make sure of that beforehand: no usable adapter
  scores below its cost, which `AdapterWalks.ScoreBelowCost` reduces to flags, or the usable
  costs together fit 64 bits (`AdapterRegistry.RawCostSafeIsExact`). Where no best walk fits,
  some other path may still be delivered; it then fits and is shut out by no cheaper arrival
  (`AdapterRegistry.Sound`), but whether one is delivered can depend on the order of states
  with equal score and hops, so with that order left open no condition on the query alone
  decides it.
- **A bound and checked view can miss a row.** A handle can be bound to a buffer that lacks the
  row of a record without a source, and the source check lets a view with that record through;
  the projection then fails although every record was bound
  (`ArenaRuns.SourcelessRecordSlipsThrough`). `ArenaRuns.BoundViewFindsRows` says exactly when
  it succeeds.
- **The row-major constructor can stop instead of rejecting.** Its length check multiplies both
  counts unchecked, and the repository ships a 32-bit target that reaches it
  (`crates/dag-ml-data-wasm/src/lib.rs:99`, `crates/dag-ml-data-provider/src/json.rs:90`). When
  the product wraps to the number of values, the check passes and the constructor sets out to
  store more cells than a 32-bit machine has memory for: it stops on reserving their columns,
  and would find no values for them (`RowMajorLimit.WideTraps`).
  `FeatureBuffer.FromF64Matrix` says that it happens exactly then.
- **A small strided view can stop the program.** Overlapping strides address few bytes and yet
  many elements. Only the span is checked against `isize::MAX`, while the room for the
  canonical bytes is reserved in one piece, which panics above that. A view of 233 bytes with
  rank 16 does it (`StridedLimit.OverlappingTraps`). It happens exactly if all checks pass and
  the element count times the element size exceeds `isize::MAX`
  (`StridedGather.CanonicalBytes`), a product the caller can form; never with canonical strides
  (`StridedGather.LayoutBranchesAgree`).
- **A small typed projection can stop the program** on a 32-bit target. It reserves room for all
  records before it applies the source filter. With 16,384 features and records, of which the
  filter keeps one, the reservation is larger than one allocation may be
  (`ProjectionLimit.WideProjectionTraps`); `Projection.ProjectRelationsF64` says when it
  happens, and `Projection.SmallProjectionReturns` what a caller can check.

## Model

| member | source | states |
|---|---|---|
| AdapterWalks.ScoreBelowCost | crates/dag-ml-data-core/src/adapter.rs:442-457 | an adapter scores below its cost iff it is preferred, unflagged and not free; it scores zero iff besides its cost is at most one |
| AdapterWalks.CutLoop | crates/dag-ml-data-core/src/adapter.rs:322-325 | cutting the loop between two uses of an adapter leaves a goal walk that is strictly better, zero scores included |
| AdapterWalks.MinimalDistinct | crates/dag-ml-data-core/src/adapter.rs:322-325 | the ban on adapter reuse excludes no best walk |
| AdapterWalks.MinimalReachesGoalLast | crates/dag-ml-data-core/src/adapter.rs:308-312 | not expanding goal states excludes no best walk |
| AdapterWalks.MinimalPrefixUndominated | crates/dag-ml-data-core/src/adapter.rs:294-297 | exchange argument for dominance: no walk of as many hops reaches a node of a best walk at a lower score |
| AdapterWalks.MinimalExists | crates/dag-ml-data-core/src/adapter.rs:285-356 | if the goal can be reached at all, a (score, hops)-least walk exists |
| AdapterSearch.BuildEdges | crates/dag-ml-data-core/src/adapter.rs:268-283 | every eligible adapter is listed under its source node, and nothing else is |
| AdapterSearch.WantedStepSurvives | crates/dag-ml-data-core/src/adapter.rs:322-345 | neither the reuse ban nor dominance refuses the step a best walk takes next, and its score and cost stay within the walk's own totals |
| AdapterSearch.Relax | crates/dag-ml-data-core/src/adapter.rs:322-355 | one edge: what is queued is a sound extension, what is dropped is reused, dominated or too costly, and no owed best walk is lost |
| AdapterSearch.Expand | crates/dag-ml-data-core/src/adapter.rs:319-355 | all edges of a popped state: every owed walk is queued again, and the queue's weight drops |
| AdapterSearch.Pop | crates/dag-ml-data-core/src/adapter.rs:302-302 | hands out any state with a least (score, hops) and nothing else changes |
| AdapterSearch.FirstGoalIsMinimal | crates/dag-ml-data-core/src/adapter.rs:308-312 | the first goal state popped is a best walk |
| AdapterSearch.BreakLosesNothing | crates/dag-ml-data-core/src/adapter.rs:303-307 | the early break abandons no best walk that was not collected |
| AdapterSearch.PoppedRivals | crates/dag-ml-data-core/src/adapter.rs:294-345 | once a state is popped, every cheaper rival for its children's nodes has its dominance entry, overflow or not |
| AdapterSearch.Search | crates/dag-ml-data-core/src/adapter.rs:285-356 | the loop ends on every registry; without overflow it collects exactly the best walks; overflow or not, it collects every best walk whose own sums fit, and nothing else if there is one |
| AdapterRegistry.RawCostSafeKeepsRawInRange | crates/dag-ml-data-core/src/adapter.rs:328-337 | under a condition on the usable adapters the raw cost of every duplicate-free walk fits if its score does |
| AdapterRegistry.TotalsFitKeepsTotalsInRange | crates/dag-ml-data-core/src/adapter.rs:328-337 | if all usable scores and costs together fit 64 bits, nothing overflows |
| AdapterRegistry.RawCostSafeIsExact | crates/dag-ml-data-core/src/adapter.rs:328-337 | that condition, which a caller can check before the call, rules out that overflow spoils the answer |
| AdapterRegistry.RawCostSafeInFields | crates/dag-ml-data-core/src/adapter.rs:442-457 | the part of it to look for by hand: no preferred adapter that is not forbidden costs something and has no flag |
| AdapterRegistry.AnswerExact | crates/dag-ml-data-core/src/adapter.rs:334-345 | a sound answer has its full meaning iff every best walk of representable score fits in raw cost too, or, for a single path, one that fits precedes all that do not |
| AdapterRegistry.Registry.RegisterAdapter | crates/dag-ml-data-core/src/adapter.rs:228-238 | succeeds iff the adapter is valid and its id new, and then only adds it |
| AdapterRegistry.Registry.FromSpec | crates/dag-ml-data-core/src/adapter.rs:220-226 | succeeds iff all adapters are valid and their ids distinct, and registers exactly them |
| AdapterRegistry.Registry.FindPath | crates/dag-ml-data-core/src/adapter.rs:244-412 | every answer is sound: what is delivered is a chain from start to goal of registered adapters that are not forbidden, have no flag the policy disallows and keep the hop budget; it is the full answer in terms of the best walks iff the raw costs of these allow it, hence under the checkable condition and whenever nothing overflowed; if a best walk fits, the verdict is the one among those that fit; "no path" means that there is no goal walk at all |
| AdapterRegistry.Resolve | crates/dag-ml-data-core/src/adapter.rs:244-412 | the body of the search call: the same answer, for a query against the registered adapters |
| AdapterRegistry.NoPathInFields | crates/dag-ml-data-core/src/adapter.rs:268-283 | after "no path" every chain of registered adapters that the policy lets through from start to goal exceeds the hop budget |
| AdapterRegistry.OfferedInFields | crates/dag-ml-data-core/src/adapter.rs:269-281 | every adapter on an offered path is registered, not forbidden, and lossy, stateful or supervised only if the policy allows it |
| AdapterRegistry.DeliveredTotals | crates/dag-ml-data-core/src/adapter.rs:387-457 | the delivered totals are the sums of the costs, and of the costs with the penalties, the floor of one and the discount of one |
| AdapterRegistry.NoRouteBeats | crates/dag-ml-data-core/src/adapter.rs:285-356 | no chain that the policy lets through within the budget has a smaller score than a delivered path, nor fewer hops at its score |
| AdapterRegistry.TiesByName | crates/dag-ml-data-core/src/adapter.rs:373-385 | of chains with the same score and hops the delivered one has the least id where they first differ, and it is the only one if the policy wants a choice |
| AdapterRoutes.RouteIsWalk | crates/dag-ml-data-core/src/adapter.rs:268-283 | every chain of registered adapters that passes the four tests of the policy is a walk |
| AdapterRoutes.WalkIsRoute | crates/dag-ml-data-core/src/adapter.rs:268-283 | and every walk is such a chain |
| AdapterRoutes.RunningTotals | crates/dag-ml-data-core/src/adapter.rs:442-457 | cost and score of a walk are running sums over its adapters, penalty by penalty |
| AdapterRegistry.ValidAdapterInFields | crates/dag-ml-data-core/src/adapter.rs:95-112 | which adapters may be registered, by the characters of id and version and by the flags |
| Ordering.StringLessMeans | crates/dag-ml-data-core/src/adapter.rs:373-375 | ids are compared by their first different character, a proper prefix first |
| Ordering.PathLessMeans | crates/dag-ml-data-core/src/adapter.rs:373-375 | id sequences are compared by their first different id, a proper prefix first |
| AdapterRegistry.Conclude | crates/dag-ml-data-core/src/adapter.rs:358-411 | the verdict on the collected paths: least id sequence, all of them as choices, or nothing found, labelled by the overflow flag |
| AdapterRegistry.Materialize | crates/dag-ml-data-core/src/adapter.rs:387-411 | the closing overflow exit is unreachable and the totals are the sums over the delivered path |
| AdapterRegistry.AnswerUnique | crates/dag-ml-data-core/src/adapter.rs:373-411 | an answer with its full meaning is determined by adapters, policy and end points, so no tie-break shows, up to the label of an empty result |
| AdapterRegistry.PickUnique | crates/dag-ml-data-core/src/adapter.rs:373-411 | among the same walks there is one verdict; so with a best walk that fits the answer is unique even where sums overflow |
| AdapterRegistry.VerdictExact | crates/dag-ml-data-core/src/adapter.rs:373-385 | "ambiguous" iff two different best walks exist and the policy wants a choice; a path is delivered iff a best walk exists otherwise |
| AdapterRegistry.RegistrationOrderIrrelevant | crates/dag-ml-data-core/src/adapter.rs:220-238 | the same adapters in any order make the same registry |
| AdapterRegistry.JoinInjective | crates/dag-ml-data-core/src/adapter.rs:376-379 | different id sequences are joined to different choice lines |
| AdapterRegistry.ChoicesDiffer | crates/dag-ml-data-core/src/adapter.rs:376-384 | no two offered choices read the same |
| AdapterOverflow.OverflowHidesFinitePath | crates/dag-ml-data-core/src/adapter.rs:334-345 | a registry that is not exact, on which a finite goal path exists and no sound answer delivers any path |
| FeatureBuffer.FromF64ColumnMatrix | crates/dag-ml-data-core/src/buffer.rs:200-232 | accepts exactly well-shaped matrices with finite present cells and stores every logical cell |
| FeatureBuffer.ColumnsInFields | crates/dag-ml-data-core/src/buffer.rs:200-232 | each cell is the value of its column where the mask shows it, and missing elsewhere |
| FeatureBuffer.ColumnsAccepted | crates/dag-ml-data-core/src/buffer.rs:573-636 | which columnar matrices are accepted, in counts, names and bit patterns |
| FeatureBuffer.FromF64Matrix | crates/dag-ml-data-core/src/buffer.rs:164-198 | the same for the row-major layout, cell (row, feature) at row * features + feature; it stops the program exactly where the unchecked product of the counts wraps to the number of values |
| FeatureBuffer.RowsInFields | crates/dag-ml-data-core/src/buffer.rs:164-198 | cell (row, feature) is the value at row * features + feature where the mask at that index shows it, and missing elsewhere |
| FeatureBuffer.RowsLaidEndToEnd | crates/dag-ml-data-core/src/buffer.rs:164-198 | rows and masks laid end to end come back as rows: cell (feature, row) is the value of that feature in that row, or missing where its mask says so |
| FeatureBuffer.RowsAccepted | crates/dag-ml-data-core/src/buffer.rs:529-568 | which row-major matrices are accepted, in counts, names and bit patterns |
| FeatureBuffer.WrapsInFields | crates/dag-ml-data-core/src/buffer.rs:529-568 | when it stops the program: the product of the counts exceeds a word, leaves the number of values modulo the word, and all else is in order |
| FeatureBuffer.AcceptedProductFits | crates/dag-ml-data-core/src/buffer.rs:529-568 | a row-major matrix is accepted only if the product of its counts fits a machine word |
| RowMajorLimit.WideTraps | crates/dag-ml-data-core/src/buffer.rs:535-544 | with 32-bit words 65,536 features and observations without values pass the length check although they should be rejected |
| FeatureBuffer.FromFeatureTable | crates/dag-ml-data-core/src/buffer.rs:123-162 | the same for rows of numbers and nulls |
| FeatureBuffer.TableInFields | crates/dag-ml-data-core/src/buffer.rs:123-162 | which tables are accepted, and which cell each entry of a row becomes |
| FeatureBuffer.LayoutIndependent | crates/dag-ml-data-core/src/buffer.rs:164-232 | equal logical cells give equal buffers, or the same rejection, in either layout |
| FeatureBuffer.TableAgrees | crates/dag-ml-data-core/src/buffer.rs:123-162 | a table of finite numbers and nulls gives the buffer of the columnar matrix with its cells |
| FeatureBuffer.Validate | crates/dag-ml-data-core/src/buffer.rs:83-121 | accepts iff names, storage and row index agree |
| FeatureBuffer.BufferValidInFields | crates/dag-ml-data-core/src/buffer.rs:83-121 | the checks, field by field: row r of the index is observation r, and all columns are as long as the observations |
| FeatureBuffer.ConstructedValid | crates/dag-ml-data-core/src/buffer.rs:200-232 | a constructed buffer is valid and finite |
| FeatureBuffer.ToColumnsAndBack | crates/dag-ml-data-core/src/buffer.rs:330-362 | flattening a valid buffer and constructing it again is the identity, masked cells and row index included |
| FeatureBuffer.MatrixInFields | crates/dag-ml-data-core/src/buffer.rs:330-362 | a missing cell is written as zero, and there are masks exactly if a cell is missing |
| FeatureStore.FromF64ColumnMatrices | crates/dag-ml-data-core/src/buffer.rs:680-694 | builds the store of the matrices, or rejects a bad matrix or a repeated feature set |
| FeatureStore.StoreRestored | crates/dag-ml-data-core/src/buffer.rs:680-694 | a valid finite store is rebuilt from its own matrices in key order |
| FeatureStore.StoreOfInFields | crates/dag-ml-data-core/src/buffer.rs:680-694 | a store is built exactly from accepted matrices of different feature sets and holds the buffer of each, and no other |
| FeatureStore.StoredInOrder | crates/dag-ml-data-core/src/buffer.rs:708-713 | the matrices of a store come in strictly ascending order of feature-set id |
| FeatureStore.TextLessMeans | crates/dag-ml-data-core/src/buffer.rs:708-713 | strings are compared by their first different byte, a proper prefix first |
| BufferCodec.WriteBuffer | crates/dag-ml-data-core/src/buffer_file_store.rs:117-148 | appends exactly the format of the matrix |
| BufferCodec.ReadString | crates/dag-ml-data-core/src/buffer_file_store.rs:252-261 | succeeds exactly on an encoded UTF-8 string within the payload, and advances past it |
| BufferCodec.ReservedVec | crates/dag-ml-data-core/src/buffer_file_store.rs:316-322 | the one way the parser reserves a vector; its precondition, met at every call on bytes accepted or refused, bounds the count by a quarter of the payload |
| BufferCodec.ReadBody | crates/dag-ml-data-core/src/buffer_file_store.rs:150-243 | names, cells and masks: returns the one matrix encoded there, if there is one |
| BufferCodec.BodyNeeds | crates/dag-ml-data-core/src/buffer_file_store.rs:303-314 | the count guards of 4 bytes per name or row and 8 or 9 per cell never refuse an encoded matrix |
| BufferCodec.FramedNeeds | crates/dag-ml-data-core/src/buffer_file_store.rs:76-77 | the guard of 17 bytes per buffer never refuses a written file |
| BufferCodec.ReadBuffer | crates/dag-ml-data-core/src/buffer_file_store.rs:150-243 | on arbitrary bytes: succeeds exactly on an encoded matrix; the cursor grows and stays within the payload |
| BufferCodec.ReadFile | crates/dag-ml-data-core/src/buffer_file_store.rs:47-90 | total on arbitrary bytes: returns the matrices whose file this is, and an error if there are none |
| BufferCodec.Deserialize | crates/dag-ml-data-core/src/buffer_file_store.rs:47-92 | the store of the matrices whose file the bytes are, and an error on all other bytes |
| BufferCodec.Serialize | crates/dag-ml-data-core/src/buffer_file_store.rs:28-42 | the file of the store's matrices in key order, sealed by its digest |
| FileLayout.Frame | crates/dag-ml-data-core/src/buffer_file_store.rs:28-42 | a file starts with the bytes 4E 34 44 46 1 0 0 0, then the number of matrices, least significant byte first, and ends with the digest of all before |
| FileLayout.MatrixStands | crates/dag-ml-data-core/src/buffer_file_store.rs:34-38 | the matrices stand one after the other from byte 12 to the digest |
| FileLayout.MatrixParts | crates/dag-ml-data-core/src/buffer_file_store.rs:117-148 | a matrix is its header, names, observation ids, values and masks, in this order |
| FileLayout.HeaderBytes | crates/dag-ml-data-core/src/buffer_file_store.rs:117-126 | the header byte by byte: both strings behind their lengths, rows, features and the mask flag |
| FileLayout.StringBytes | crates/dag-ml-data-core/src/buffer_file_store.rs:127-132 | strings stand in their order, each behind its length in four bytes, least significant first |
| FileLayout.ValueBytes | crates/dag-ml-data-core/src/buffer_file_store.rs:133-138 | the value of feature f in row r stands at byte 8 * (f * rows + r) of its part, least significant byte first |
| FileLayout.MaskBytes | crates/dag-ml-data-core/src/buffer_file_store.rs:139-147 | the flag of that cell stands at byte f * rows + r, 1 where the cell is present |
| Words.DigitAt | crates/dag-ml-data-core/src/buffer_file_store.rs:31-33 | byte i of a word is its digit of weight 256^i |
| BufferFormat.IdInFields | crates/dag-ml-data-core/src/ids.rs:7-29 | which strings are identifiers: 1 to 128 letters, digits, underscores, hyphens and dots |
| BufferFormat.FitsInFields | crates/dag-ml-data-core/src/buffer_file_store.rs:117-148 | which matrices can be written: rectangular, with strings and counts below 2^32 |
| CodecRoundTrip.RoundTrip | crates/dag-ml-data-core/src/buffer_file_store.rs:28-92 | the file of every valid store that fits is accepted and builds that store, cell for cell |
| CodecRoundTrip.SaveAndLoad | crates/dag-ml-data-core/src/buffer_file_store.rs:28-92 | running the writer and then the parser returns the store |
| CodecRoundTrip.SerializeInjective | crates/dag-ml-data-core/src/buffer_file_store.rs:28-42 | different stores have different files |
| CodecRoundTrip.ReserializeFixedPoint | crates/dag-ml-data-core/src/buffer_file_store.rs:28-92 | the store of any accepted file can be saved, and that file loads to the same store |
| CodecRoundTrip.MatrixUnique | crates/dag-ml-data-core/src/buffer_file_store.rs:117-148 | encoded matrices are prefix free: equal bytes, whatever follows, come from equal matrices |
| CodecRoundTrip.FileDeterminesMatrices | crates/dag-ml-data-core/src/buffer_file_store.rs:47-92 | a file belongs to one list of matrices |
| ContentHash.StreamingHasher.PushBytes | crates/dag-ml-data-core/src/content_hash.rs:54-64 | the stream grows by exactly the bytes, and the scratch buffer stays within its capacity |
| ContentHash.StreamingHasher.Flush | crates/dag-ml-data-core/src/content_hash.rs:66-71 | empties the scratch buffer without changing the stream |
| ContentHash.StreamingHasher.FinalizeHex | crates/dag-ml-data-core/src/content_hash.rs:143-152 | the digest depends on the stream alone and is written as 64 hexadecimal digits |
| ContentHash.HexDigits | crates/dag-ml-data-core/src/content_hash.rs:143-152 | characters 2i and 2i + 1 are the hexadecimal digits of byte i, high digit first, in lower case |
| ContentHash.HashFields | crates/dag-ml-data-core/src/content_hash.rs:41-152 | after any sequence of absorbs the digest is that of domain and frames hashed at once |
| ContentHash.HexInjective | crates/dag-ml-data-core/src/content_hash.rs:143-152 | different digests have different hexadecimal forms |
| ContentHash.StrsUnique | crates/dag-ml-data-core/src/content_hash.rs:91-124 | framed string collections are prefix free, so boundaries and counts cannot be confused |
| ContentHash.CellCode | crates/dag-ml-data-core/src/content_hash.rs:126-136 | a masked cell never shares a frame with a present one, nor two present cells with different bits |
| Fingerprint.Compute | crates/dag-ml-data-core/src/buffer.rs:291-308 | hashes exactly the preimage of a valid buffer and rejects others |
| Fingerprint.PreimageTag | crates/dag-ml-data-core/src/buffer.rs:293-293 | the preimage starts with the domain tag, character by character |
| Fingerprint.PreimageParts | crates/dag-ml-data-core/src/buffer.rs:293-306 | then both ids, the counted names and observation ids, both counts and the cells, each at its place |
| Fingerprint.FramedStrings | crates/dag-ml-data-core/src/content_hash.rs:87-124 | framed strings stand in their order, each behind its length in eight bytes, least significant first |
| Fingerprint.PreimageCell | crates/dag-ml-data-core/src/content_hash.rs:126-136 | cell (row, feature) stands at 9 * (row * features + feature): a presence byte and eight value bytes, least significant first, zeros if it is missing |
| Fingerprint.PreimageInjective | crates/dag-ml-data-core/src/buffer.rs:291-308 | valid buffers with equal preimages are equal, bit for bit |
| Fingerprint.FingerprintIdentifies | crates/dag-ml-data-core/src/buffer.rs:291-308 | equal fingerprints mean equal buffers wherever the digest keeps their preimages apart |
| Projection.SelectedIndices | crates/dag-ml-data-core/src/buffer.rs:364-401 | succeeds iff the buffer is valid and the columns are known and distinct, and gives their indices in the order asked for |
| Projection.ProjectRelations | crates/dag-ml-data-core/src/buffer.rs:403-453 | succeeds iff relations, columns and every visible row are there, and returns their cells in record order, each below the name of its feature and beside the id of its observation |
| Projection.ProjectRelationsF64 | crates/dag-ml-data-core/src/buffer.rs:460-511 | the same for the typed block, which further needs every selected cell to be present; it stops the program exactly if the wrapped product of records and columns is too large to reserve |
| Projection.BoxedInFields | crates/dag-ml-data-core/src/buffer.rs:403-453 | the value below a feature name and beside an observation id is that feature of that observation, and null if it is missing or not finite |
| Projection.TypedValues | crates/dag-ml-data-core/src/buffer.rs:460-511 | value k * features + j of a typed block is the cell of feature name j and observation id k, for all cells |
| Projection.BlockRows | crates/dag-ml-data-core/src/buffer.rs:415-452 | the rows of a boxed block are the visible records in their order, each once, under the names asked for |
| Projection.TypedBlockRows | crates/dag-ml-data-core/src/buffer.rs:472-510 | so are those of a typed block |
| Projection.ProjectableInFields | crates/dag-ml-data-core/src/buffer.rs:364-428 | which projections succeed, in the records, the names asked for and the observations of the buffer |
| Projection.TypedProjectableInFields | crates/dag-ml-data-core/src/buffer.rs:486-494 | the typed one also needs a number in every cell of a visible record and selected feature |
| Projection.TrapsInFields | crates/dag-ml-data-core/src/buffer.rs:470-470 | it stops exactly if eight times the product of records and columns, modulo the machine word, exceeds half the address space |
| Projection.SmallProjectionReturns | crates/dag-ml-data-core/src/buffer.rs:470-470 | it never stops while the values of all records would fit one allocation |
| ProjectionLimit.WideProjectionTraps | crates/dag-ml-data-core/src/buffer.rs:466-476 | with 32-bit words a valid projection onto a single row stops the program |
| Projection.TypedRefinesBoxed | crates/dag-ml-data-core/src/buffer.rs:403-511 | typed succeeds iff boxed does without a null, and is the boxed block with its rows end to end |
| Arena.BindingsForRelations | crates/dag-ml-data-core/src/buffer.rs:722-767 | one binding for exactly the buffers of the representation that cover a source, listing the covered sources, in ascending order of feature-set id |
| Arena.BindingsInFields | crates/dag-ml-data-core/src/buffer.rs:735-766 | the list holds the bindings of the store's buffers in this representation and no other, in strictly ascending order |
| Arena.BindingInFields | crates/dag-ml-data-core/src/buffer.rs:513-526 | a binding names its buffer, its counts of rows and features, its fingerprint and exactly the sources whose records all have rows, in ascending order |
| Arena.BoundInFields | crates/dag-ml-data-core/src/buffer.rs:750-764 | records that name sources bind a buffer iff it has rows for all records of one of these sources |
| Arena.UnsourcedBoundInFields | crates/dag-ml-data-core/src/buffer.rs:740-749 | records without sources bind a buffer iff it has a row for each of them |
| Arena.BindingListUnique | crates/dag-ml-data-core/src/buffer.rs:735-766 | in that order there is only one list of the same bindings |
| Arena.FeatureArena.BindDataHandle | crates/dag-ml-data-core/src/buffer.rs:808-826 | rebinds exactly that handle, or changes nothing when the relations are invalid |
| Arena.FeatureArena.ReleaseDataHandle | crates/dag-ml-data-core/src/buffer.rs:828-830 | forgets exactly that handle and says whether it was bound |
| Arena.FeatureArena.ValidateBoundSources | crates/dag-ml-data-core/src/buffer.rs:870-911 | passes iff the handle binds the buffer to every source the view needs |
| Arena.HandleBoundInFields | crates/dag-ml-data-core/src/buffer.rs:870-911 | the source check in the fields of view and binding: every required source is listed, and the source asked for occurs in the view |
| Arena.FeatureArena.ProjectBoundRelations | crates/dag-ml-data-core/src/buffer.rs:844-855 | succeeds iff the source check passes and the projection of the stored buffer does |
| Arena.FeatureArena.ProjectBoundRelationsF64 | crates/dag-ml-data-core/src/buffer.rs:857-868 | the same for the typed projection, which stops the program exactly if the source check passes and the projection does |
| ArenaRuns.RunIsLatest | crates/dag-ml-data-core/src/buffer.rs:808-830 | after any run a handle holds what its latest effective bind gave it |
| ArenaRuns.ReleasedUntilRebound | crates/dag-ml-data-core/src/buffer.rs:828-868 | a released handle fails every source check until it is bound again |
| ArenaRuns.BoundViewFindsRows | crates/dag-ml-data-core/src/buffer.rs:722-911 | in every reachable state a checked view of bound records finds all its rows iff its visible sourceless records have theirs, which holds with a source filter, without sourceless records or without sources |
| ArenaRuns.BoundProjectionSucceeds | crates/dag-ml-data-core/src/buffer.rs:403-911 | under that condition a bound projection fails only on its columns |
| ArenaRuns.SourcelessRecordSlipsThrough | crates/dag-ml-data-core/src/buffer.rs:739-764 | without that condition a fully bound and checked view can miss a row |
| StridedGather.CheckedProduct | crates/dag-ml-data-capi/src/lib.rs:3689-3699 | the element count, or an error exactly when it overflows |
| StridedGather.CheckedMaxOffset | crates/dag-ml-data-capi/src/lib.rs:3648-3659 | the offset of the last element, or an error exactly when it overflows |
| StridedGather.Unravel | crates/dag-ml-data-capi/src/lib.rs:3677-3683 | the byte offset of a flat position; its unchecked products and sums are allowed only where they fit, which the checked span shows |
| StridedGather.OffsetOfCoords | crates/dag-ml-data-capi/src/lib.rs:3674-3683 | unravelling the row-major position of coordinates gives the offset their strides give |
| StridedGather.OffsetBounded | crates/dag-ml-data-capi/src/lib.rs:3648-3663 | no flat position exceeds the checked span |
| StridedGather.GatherStridedTensor | crates/dag-ml-data-capi/src/lib.rs:3630-3687 | accepts exactly positive strides whose span fits, never reads past it, and returns all elements in row-major order, unless their bytes exceed `isize::MAX`, when it stops the program |
| StridedGather.GatheredByCoords | crates/dag-ml-data-capi/src/lib.rs:3674-3685 | the element at any coordinates lands at its row-major place |
| StridedGather.StepInMemory | crates/dag-ml-data-capi/src/lib.rs:3677-3683 | one step along an axis moves by its stride in the memory |
| StridedGather.StepInOutput | crates/dag-ml-data-capi/src/lib.rs:3674-3683 | one step along the last axis moves by one element in the output, along any other by as many as the next axis takes as a whole |
| StridedGather.FirstElement | crates/dag-ml-data-capi/src/lib.rs:3674-3683 | the first element stands at the start of both |
| StridedGather.SpanIsLastElement | crates/dag-ml-data-capi/src/lib.rs:3648-3659 | the checked span is where the last element starts, which is the last in the output too |
| StridedGather.GatherContiguous | crates/dag-ml-data-capi/src/lib.rs:3561-3573 | with canonical strides gathering is a plain copy |
| StridedGather.CanonicalBytes | crates/dag-ml-data-capi/src/lib.rs:3553-3583 | both layout branches: when a view is accepted, which bytes it gives, and exactly when it stops the program |
| StridedGather.AdmissibleInFields | crates/dag-ml-data-capi/src/lib.rs:3505-3556 | rank 1 to 16, no empty axis, as many ids as the first axis is long, and a size that fits a word |
| StridedGather.GatherableInFields | crates/dag-ml-data-capi/src/lib.rs:3639-3673 | the strides that are followed, and among them those that stop the program, in sizes |
| StridedGather.LayoutBranchesAgree | crates/dag-ml-data-capi/src/lib.rs:3561-3583 | null strides and the same strides spelled out are accepted alike, give the same bytes and never stop the program |
| StridedLimit.OverlappingTraps | crates/dag-ml-data-capi/src/lib.rs:3669-3673 | a view of 233 bytes that passes every check on a 64-bit machine and stops the program |
| ArrowArrays.MaskIsShift | crates/dag-ml-data-capi/src/lib.rs:4732-4740 | the bit of position k in a byte is 1 shifted left by k |
| ArrowArrays.SetBitmap | crates/dag-ml-data-capi/src/lib.rs:4732-4740 | sets at most the one bit, least significant first, and keeps all others |
| ArrowArrays.BuildStringArray | crates/dag-ml-data-capi/src/lib.rs:4541-4594 | fails iff the payload exceeds 32-bit offsets; otherwise it decodes to the input, with an exact null count and a bitmap iff there are nulls |
| ArrowArrays.BuildF64Array | crates/dag-ml-data-capi/src/lib.rs:4596-4638 | decodes to the input, with an exact null count, a bitmap iff there are nulls, and zeros in the null slots |
| ArrowArrays.BuildBoolArray | crates/dag-ml-data-capi/src/lib.rs:4640-4664 | decodes to the input |
| ArrowArrays.NullsCounted | crates/dag-ml-data-capi/src/lib.rs:4541-4638 | the null count is the number of missing values |
| ArrowArrays.ValidityInFields | crates/dag-ml-data-capi/src/lib.rs:4732-4740 | the validity buffer is absent iff nothing is missing; else bit i % 8 of byte i / 8 says whether value i is there, and spare bits are zero |
| ArrowArrays.OffsetsInFields | crates/dag-ml-data-capi/src/lib.rs:4541-4594 | offsets start at zero and grow by the length of each value |
| ArrowArrays.Utf8InFields | crates/dag-ml-data-capi/src/lib.rs:9337-9359 | a string array shows the bytes between two offsets, or a null where its bit is clear |
| ArrowArrays.F64InFields | crates/dag-ml-data-capi/src/lib.rs:9361-9369 | a number array shows its values, or a null where the bit is clear |
| ArrowArrays.BoolInFields | crates/dag-ml-data-capi/src/lib.rs:4640-4664 | bit i % 8 of byte i / 8 is value i |
| ArrowArrays.Utf8RoundTrip | crates/dag-ml-data-capi/src/lib.rs:9337-9359 | offsets, bytes and bitmap of a list decode to that list |
| ArrowArrays.F64RoundTrip | crates/dag-ml-data-capi/src/lib.rs:9361-9369 | values and bitmap of a list decode to that list |
| ArrowArrays.Utf8Injective | crates/dag-ml-data-capi/src/lib.rs:9337-9359 | one array decodes to one list |
| Collation.ProjectRow | crates/dag-ml-data-core/src/collation.rs:371-416 | fails iff the row does not fit the target or is too large to pad; otherwise the kept cells in their window and the window itself |
| Collation.TargetLength | crates/dag-ml-data-core/src/collation.rs:347-369 | the target length, or an error exactly if it is zero or a row cannot be fitted |
| Collation.CollateNumericBlock | crates/dag-ml-data-core/src/collation.rs:129-182 | accepted iff the checks pass and the tensor's bytes can be addressed; no later error branch can be taken, and the tensor is the collated one |
| Collation.AcceptedInFields | crates/dag-ml-data-core/src/collation.rs:129-182 | which inputs and policies are accepted, in rows, names, bit patterns and bytes |
| Collation.TensorInFields | crates/dag-ml-data-core/src/collation.rs:129-182 | the width is the maximal length of the policy or the longest row, and what else the tensor says besides its cells |
| Collation.WindowInFields | crates/dag-ml-data-core/src/collation.rs:371-424 | where the window of a row starts and which source columns it shows, as differences of lengths |
| Collation.UnaddressableRefused | crates/dag-ml-data/tests/audit_regressions.rs:747-762 | a tensor whose cells can be counted but whose bytes cannot be addressed is refused |
| Collation.TensorCell | crates/dag-ml-data-core/src/collation.rs:129-182 | every cell of the row-major tensor is the kept source cell of its window or the pad value |
| Collation.TensorPresence | crates/dag-ml-data-core/src/collation.rs:129-182 | the emitted mask is true exactly inside the windows |
| Collation.TensorValidity | crates/dag-ml-data-core/src/collation.rs:129-182 | an emitted validity mask is true exactly at the cells that show a number of their row |
| Collation.WindowIsContiguous | crates/dag-ml-data-core/src/collation.rs:376-424 | the present columns form one window showing consecutive source columns in order |
| Collation.WindowPlacement | crates/dag-ml-data-core/src/collation.rs:400-424 | right padding keeps the first columns at the left edge, left padding the last at the right edge, centring splits evenly with the odd cell on the right |
| Collation.KeptColumnsShown | crates/dag-ml-data-core/src/collation.rs:371-416 | every kept source column is shown, and a row that is not truncated keeps all |
| Collation.ValidityMaskAbsent | crates/dag-ml-data-core/src/collation.rs:129-182 | the validity mask is absent iff every cell is present and not null |
| Collation.NamesMatchColumns | crates/dag-ml-data-core/src/collation.rs:426-444 | feature name j is the name of the source column shown in column j, in every row |
| BatchMerge.MergeOne | crates/dag-ml-data-arrow/src/lib.rs:67-99 | one batch: skipped if empty, inserted, rejected for another schema, or appended |
| BatchMerge.ExtendedIsMatrixOfAppend | crates/dag-ml-data-arrow/src/lib.rs:82-99 | the lazily created masks come out as if the rows had been one batch |
| BatchMerge.MergeSplit | crates/dag-ml-data-arrow/src/lib.rs:66-100 | merging two batches in turn is merging their rows at once, rejections included |
| BatchMerge.ReadBatches | crates/dag-ml-data-arrow/src/lib.rs:62-102 | the store of the collected tables, or the rejection of the first bad batch or table |
| BatchMerge.CollectInFields | crates/dag-ml-data-arrow/src/lib.rs:65-81 | a stream is accepted iff every item was read and has columns and any two batches with rows of one feature set agree in representation and names |
| BatchMerge.CollectedFrom | crates/dag-ml-data-arrow/src/lib.rs:67-75 | every table comes from a batch with rows |
| BatchMerge.CollectedTables | crates/dag-ml-data-arrow/src/lib.rs:72-81 | every batch with rows has its table, of its representation and names |
| BatchMerge.CollectedRows | crates/dag-ml-data-arrow/src/lib.rs:82-99 | each row of a batch stands in its table behind the rows of the earlier batches, cell by cell, and the table has no other rows |
| BatchMerge.TableMatrixInFields | crates/dag-ml-data-arrow/src/lib.rs:82-99 | a missing cell of a table is written as zero, with masks exactly if a cell is missing |
| BatchMerge.StoreInFields | crates/dag-ml-data-arrow/src/lib.rs:101-101 | the store has exactly one buffer for each table, that of its matrix, and exists iff all these are accepted |
| BatchMerge.SplitInvariant | crates/dag-ml-data-arrow/src/lib.rs:62-102 | however a table is cut into consecutive batches, amid whatever else, the outcome is that of one batch |
| BatchMerge.CollectByTable | crates/dag-ml-data-arrow/src/lib.rs:65-100 | a stream is accepted iff everything was read and the batches of every feature set are accepted by themselves, and each table is the one those give |
| BatchMerge.InterleavingIrrelevant | crates/dag-ml-data-arrow/src/lib.rs:62-102 | how the batches of different feature sets are interleaved does not matter |
| BatchMerge.InterleavedSplitInvariant | crates/dag-ml-data-arrow/src/lib.rs:62-102 | a table may be cut into any pieces and these interleaved in any way with other feature sets' batches |
| PublishOrder.TopoSort | scripts/release/publish_crates.py:86-110 | ends on every input; succeeds iff dependencies are closed and acyclic, and returns the plan |
| PublishOrder.RoundIsLongestChain | scripts/release/publish_crates.py:91-108 | a crate is published in the round numbered by its longest dependency chain |
| PublishOrder.LongChainCycles | scripts/release/publish_crates.py:99-103 | a chain longer than the workspace contains a cycle |
| PublishOrder.StuckMeansCycle | scripts/release/publish_crates.py:99-103 | a round that publishes nothing means a cycle or an unknown dependency |
| PublishOrder.AllDoneMeansAcyclic | scripts/release/publish_crates.py:91-110 | if everything was published there is no cycle |
| PublishOrder.DependenciesFirst | scripts/release/publish_crates.py:91-108 | in a plan every dependency comes earlier |
| PublishOrder.PlanIsPermutation | scripts/release/publish_crates.py:104-110 | a plan holds every crate exactly once |
| PublishOrder.PlanInFields | scripts/release/publish_crates.py:91-108 | of two crates of a plan the earlier has the shorter longest chain, or the lesser name where these are equal |
| PublishOrder.LongestInFields | scripts/release/publish_crates.py:91-108 | the longest chain counts the dependency links from a crate down |
| PublishOrder.ChainInFields | scripts/release/publish_crates.py:95-96 | each crate of a chain depends on the next |
| PublishOrder.LastOfItsName | scripts/release/publish_crates.py:87-87 | of crates with one name the last is the one that counts |
| PublishOrder.PlanUnique | scripts/release/publish_crates.py:92-108 | order by (longest chain, name) leaves only one plan |
| PublishOrder.InputOrderIrrelevant | scripts/release/publish_crates.py:87-87 | the input order of uniquely named crates does not matter |
| Alignment.Validate | crates/dag-ml-data-core/src/alignment.rs:45-99 | accepts iff samples and sources are distinct, masks match and every sample meets the mode |
| Alignment.BuildSampleAlignmentPlan | crates/dag-ml-data-core/src/alignment.rs:102-190 | fails iff the inputs are malformed or nothing is aligned; otherwise the samples of all sources, the first or any, and for every source the bits that say which of them it has |
| Alignment.InputsInFields | crates/dag-ml-data-core/src/alignment.rs:106-136 | which inputs are well formed: some source, distinct source ids, and in each some samples, none twice |
| Alignment.PlanInFields | crates/dag-ml-data-core/src/alignment.rs:45-99 | what the closing validation checks, mask bit by mask bit |
| Alignment.BuiltPlanValid | crates/dag-ml-data-core/src/alignment.rs:183-189 | the closing validation cannot fail |
| Alignment.AlignedMembers | crates/dag-ml-data-core/src/alignment.rs:138-162 | inner, left and outer align exactly the intersection, the first source and the union, each sample once |
| Alignment.SharedKeepsOrder | crates/dag-ml-data-core/src/alignment.rs:139-148 | inner samples keep the order of the first source |
| Alignment.UnionKeepsOrder | crates/dag-ml-data-core/src/alignment.rs:150-161 | outer samples come in the order of their first appearance |

## Left out

- AdapterRegistry.AnswerUnique: a search that finds nothing may be labelled "no path" or "cost overflow", and the model leaves the label open between the two, because which branches are cut off before they overflow depends on the order of states with equal score and hops, which the model leaves open; "no path" always means that there is none, and it is the label whenever all totals fit.
- AdapterSearch.Search: hops are unbounded numbers; no duplicate-free path is longer than the registry, so `usize` cannot wrap.
- FeatureBuffer.FromF64Matrix: a debug build, which stops at the overflowing product itself, is not modelled; nor is where exactly it stops.
- BufferCodec.ReadFile: a 32-bit machine can refuse a file of hundreds of megabytes because the vectors of its names would not fit the address space, which the model accepts.
- FeatureBuffer.FromFeatureTable: its second check for duplicate observations is dead code behind the table's own validation and is omitted; the row index is built at once.
- Fingerprint.FingerprintIdentifies: that SHA-256 keeps two preimages apart is a hypothesis.
- Arena.BindingsForRelations: the checks of a relation set other than distinct observations and non-emptiness are one flag.
- BatchMerge.ReadBatches: a batch is its decoded columns; decoding Arrow IPC and the metadata checks of one batch are an accept or reject per batch.
- Buffers and cursors passed as `&mut` are values in and out of methods, so sharing one vector between callers is not modelled.
- Error messages, and which of several errors is reported first.
- Running out of memory, and capacities that exceed the address space only if the data itself fills a large part of it.
- File I/O and paths, JSON conversion of feature blocks, the C ABI entry points, pointers, string ownership and release callbacks.
- Manifests and their accessors, the store constructors for tables and row-major matrices, which fold the modelled constructors in the same way.
- Fold sets, the fusion of feature blocks, the planner, the coordinator arena and the N-dimensional tensor store.
