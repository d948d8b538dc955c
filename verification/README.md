# Iceberg merge-on-read: a verified model

A Dafny model of the read path of an Iceberg table engine: how one data file is read while its positional and
equality deletes are applied, how the delete files are loaded by tasks that share one filter, which delete files
apply to a data file, how byte ranges are coalesced and served through a byte cache, and how metadata locations are
printed and parsed. `dafny verify dfyconfig.toml` checks everything.

Source paths below are relative to the root of the repository; most of them lie in its patched `iceberg` crate.

## Reading guide

| module | what it models |
|---|---|
| `DeleteVectors` | the treemap of positions (32-bit buckets in key order), its in-place union, and the two-level cursor with `next` and `advance_to` |
| `RowSelections` | the merge of row-group sizes, selected groups and the delete cursor into select/skip runs |
| `ByteSplits`, `ScanTask` | byte-range splits, group lists, page selections, and the rows one task reads |
| `FieldIds`, `RowFilter` | leaf columns, field-id maps, and bound predicates compiled to kernels over projected columns |
| `Predicates`, `Binding`, `EqualityDeletes` | predicates with three-valued meaning, NOT elimination, binding to a schema, and equality delete files compiled to a balanced conjunction |
| `DeleteColumns`, `EqualityScope` | the visitor that collects the columns of an equality delete batch, and what the compiled predicate deletes against what the delete file says |
| `DeleteFilters`, `LoadProtocol` | the shared delete state, one method per lock section, and all interleavings of the tasks that use it |
| `DeleteFileIndex` | the partitioned delete index as a faster form of a flat scan, and the populate/lookup protocol |
| `RangeMerge`, `ByteCache`, `CachedReads` | range coalescing, the memory cache under a byte budget, and the readers above it |
| `MetadataLocations` | the metadata-location printer and parser |
| `MergeOnRead` | the results put together for one data file |

Code that changes state step by step is written as classes and loops (`DeleteVector`, `DeleteVectorIterator`,
`DeleteFilter`, `MemoryByteCache`, `CachingFileRead`, the two-index merge, the chunk loop, the level merge, the parsers);
code made of expressions is written as functions. Each method is tied to a function of the old state, and the laws
are lemmas about that function. A store's failure and a cancelled query are parameters; hash-map iteration order, eviction
order and the interleaving of tasks are left open, so every result holds for all of them.

Three meanings carry most of the results. A row selection means one bit per row (`Expand`). A predicate means a
three-valued function of a row (`Meaning`), where the reader's reading of null is `Kleene` and `NullIsAValue` is the
two-valued reading of the table specification. A list of ranges means the half-bytes it covers when each range is extended by
the coalescing gap (`Covered`), which makes "canonical" a property that determines the list.

`Reads intact` is the one condition that the scan results carry: passing over row groups loses no delete of a group that is
read. It is exact (`RowSelections.BuildExact`), it speaks of sizes, selection and deletes alone, and every file of fewer than 2^32 rows
meets it (`SmallFileScansIntact`).

## Where the code falls short of its promise

Each of these is stated as an exact condition, with a concrete input where it fails.

- `advance_to` is documented as a seek, but it compares low halves without checking that it landed on the right bucket, and it
  leaves the last bucket untouched when none reaches the target. It is a seek if and only if `DeleteVectors.SeekGuard`
  holds (`AdvanceExact`). On files of 2^32 rows or more, a skipped row group can therefore leave a stale delete below the
  current row, on which the chunk loop never ends (`StuckTurn`, `UnsafeSkipGoesStale`), or lose the delete of a later row
  (`UnsafeSkipLosesDelete`). The selection is right if and only if `Intact` holds (`BuildExact`).
- Equality deletes compile to NOT over an equality, which is unknown on a null cell, and an unknown row is dropped. A row that
  matches no delete row is lost if and only if it differs from some delete row only in columns where it is null
  (`KeptExactly`, `NullRowIsLost`). A data file older than an equality column loses a row to a delete row with a value in that
  column if and only if no other column of the delete row visibly differs (`DeleteOnMissingColumn`).
- Of an equality delete batch only primitive fields that carry an equality id themselves are collected, under their bare names
  (`CollectedIsPicked`). The compiled predicate deletes what the delete file says if and only if there is an equality column and
  all equality columns are top-level and primitive (`ScopeExact`). A struct column beside a primitive one makes the delete apply
  to too many rows (`StructOverApplies`), and a nested field is looked up as a top-level column of the same name
  (`NestedFieldByBareName`). A list or a map anywhere in the batch is an error (`ColumnsCollected`).
- A comparison on a column the file lacks passes every row for three operators and none for the others, though it is unknown
  (`MissingComparison`). NaN tests on present columns compile to constants: IS NOT NAN passes no row at all (`NanTestIsConstant`).
- Binding decides a comparison with a literal beyond the column's range on null cells too, where it is unknown
  (`BindLeafExact`, `NullPassesBoundComparison`).
- A whole-object read is served from the longest cached chunk that starts at 0, whole or not. It returns the object if and only
  if no chunk of the path started at 0 or one reached the end (`CachingStorage.Read`, `PrefixServedAsWhole`). Its second cache lookup
  can never hit.
- A row group that straddles a split edge is read by more than one split (`OneSplitReads`, `StraddlingGroupReadTwice`), and an
  empty split inside a group still reads it (`EmptySplitStillSelects`).
- The integer IN fast path turns null into false. That is harmless without NOT (`TruthKept`); under NOT exactly the null rows
  pass that should not (`NegatedIntegerIn`).
- For a file without field ids the row filter goes by position even when a name mapping has assigned other ids
  (`NameMappedColumn`, `NameMappingMisreads`).
- A waiter clones its notifier under the lock and waits on it later, and a signal is not kept for those who are not waiting yet.
  Whoever waits for a delete file can still be woken if and only if it did not miss the signal and the signal can still come
  (`LoadProtocol.WakesIffNotLost`); the same holds of a lookup in the delete file index (`AnsweredIffNotLost`). Concrete runs miss
  it (`LateReaderReachable`, `LateWaiterReachable`, `LateLookupReachable`).
- The two lock sections that start an equality delete load create two notifiers, and only the second is ever signalled. At pick-up
  a reader is lost at once if and only if the winner has not yet replaced the notifier or has failed (`LostAtPickUp`), and both
  happen (`LostReaderReachable`, `StrandedReaderReachable`).
- A negative metadata version prints to something that does not parse (`RoundTrip`), and the version after the largest 32-bit number
  wraps around to one (`NextVersionRoundTrip`).

## Model

| member | source | states |
|---|---|---|
| DeleteVectors.DeleteVector.Insert | patches/iceberg-0.9.1/src/delete_vector.rs:44-46 | The set gains exactly `pos`; the result says whether it was absent |
| DeleteVectors.DeleteVector.BitOrAssign | patches/iceberg-0.9.1/src/delete_vector.rs:139-143 | The receiver becomes the union of both sets and the argument is unchanged |
| DeleteVectors.DeleteVector.Iter | patches/iceberg-0.9.1/src/delete_vector.rs:39-42 | A fresh cursor owes exactly the positions of the vector and stands on no bucket yet |
| DeleteVectors.AdvanceExact | patches/iceberg-0.9.1/src/delete_vector.rs:116-135 | For every cursor state and target, `advance_to` leaves exactly the remaining positions from `pos` on if and only if `SeekGuard` holds of the state before the call |
| DeleteVectors.BucketPresentSuffices | patches/iceberg-0.9.1/src/delete_vector.rs:116-135 | A cursor that still has the bucket of the high half of `pos`, even an emptied one, meets `SeekGuard` |
| DeleteVectors.PositionsAscend | patches/iceberg-0.9.1/src/delete_vector.rs:95-111 | Reading the buckets in key order visits the positions in strictly ascending order |
| DeleteVectors.Member | patches/iceberg-0.9.1/src/delete_vector.rs:95-111 | A position is yielded if and only if its high half names a bucket that holds its low half |
| DeleteVectors.InsertPositionSet | patches/iceberg-0.9.1/src/delete_vector.rs:44-46 | Inserting into the bucketed form adds exactly one position to the set |
| DeleteVectors.SamePositions | patches/iceberg-0.9.1/src/delete_vector.rs:27-29 | The bucketed form is determined by the positions it holds, so equal sets are equal treemaps |
| ByteSplits.FilterRowGroupsByByteRange | patches/iceberg-0.9.1/src/arrow/reader.rs:1088-1112 | The ascending list of exactly the groups that pass the overlap test of the byte range |
| ByteSplits.OverlapMeansSharedByte | patches/iceberg-0.9.1/src/arrow/reader.rs:1088-1112 | For a non-empty group and split the overlap test holds if and only if some byte lies in both |
| ByteSplits.SomeSplitReads | patches/iceberg-0.9.1/src/arrow/reader.rs:1088-1112 | Some split of a tiling reads the group, unless, and only unless, the group is empty and starts on a split edge |
| ByteSplits.EmptySplitStillSelects | patches/iceberg-0.9.1/src/arrow/reader.rs:1088-1112 | An empty split strictly inside a group is given that group although they share no byte |
| ScanTask.SelectedRowGroupIndices | patches/iceberg-0.9.1/src/arrow/reader.rs:993-1014 | The ascending list of exactly the groups whose statistics may match |
| ScanTask.Intersect | patches/iceberg-0.9.1/src/arrow/reader.rs:535-545 | The ascending list of exactly the groups in both lists |
| ScanTask.RowsOfMember | patches/iceberg-0.9.1/src/arrow/reader.rs:656-700 | The rows of the selected groups ascend and are exactly the rows that lie in one of them |
| ScanTask.PickMember | patches/iceberg-0.9.1/src/arrow/reader.rs:588-591 | Reading through a row selection yields, in order, exactly the rows whose bit is set |
| RangeMerge.MergeRanges | patches/iceberg-0.9.1/src/arrow/reader.rs:2024-2056 | The two-index loop returns the canonical form of the ranges: separated by more than `coalesce`, covering the same extended bytes |
| RangeMerge.SortByStart | patches/iceberg-0.9.1/src/arrow/reader.rs:2029-2030 | Some ordering of the same ranges by start |
| RangeMerge.Contained | patches/iceberg-0.9.1/src/arrow/reader.rs:2024-2056 | Every input range lies inside one merged range |
| RangeMerge.Tight | patches/iceberg-0.9.1/src/arrow/reader.rs:2024-2056 | A merged range starts where one input range starts and ends where another ends |
| RangeMerge.CanonicalUnique | patches/iceberg-0.9.1/src/arrow/reader.rs:2024-2056 | Two separated lists that cover the same extended bytes are equal |
| RangeMerge.OrderIndependent | patches/iceberg-0.9.1/src/arrow/reader.rs:2024-2056 | Input lists with the same members, in any order and with repetitions, merge to the same list |
| RangeMerge.Idempotent | patches/iceberg-0.9.1/src/arrow/reader.rs:2024-2056 | Merging a merged list changes nothing |
| RangeMerge.MergedAreComponents | patches/iceberg-0.9.1/src/arrow/reader.rs:2024-2056 | Two input ranges end up in one merged range if and only if a chain of ranges with gaps of at most `coalesce` links them |
| ByteCache.FindRangeExact | crates/idb-catalog/src/byte_cache/mod.rs:145-154 | A ranged lookup hits if and only if some chunk can serve the range, and then returns the object's own bytes |
| ByteCache.FindFullObjectExact | crates/idb-catalog/src/byte_cache/mod.rs:262-268 | A whole-object lookup hits if and only if some chunk starts at 0; it returns a prefix of the object no shorter than any such chunk, and the whole object if and only if some chunk from 0 reaches the end |
| ByteCache.PrefixServedAsWhole | crates/idb-catalog/src/byte_cache/mod.rs:262-268 | Any eight-byte object of which only the first four bytes are cached is returned cut short |
| ByteCache.InsertEffect | crates/idb-catalog/src/byte_cache/mod.rs:270-289 | Insertion keeps ranges distinct, keeps every chunk of another range, adds exactly the new chunk, and adds at most its length |
| ByteCache.TotalSplit | crates/idb-catalog/src/byte_cache/mod.rs:291-293 | The sum over all paths does not depend on the order in which they are visited |
| ByteCache.SumBytes | crates/idb-catalog/src/byte_cache/mod.rs:437 | Summing over the paths in any order gives the total of the cached chunk lengths |
| ByteCache.DropPaths | crates/idb-catalog/src/byte_cache/mod.rs:393-400 | The eviction loop terminates, never saturates its subtraction, drops whole paths only, stops when the bytes fit or nothing is left, and the last path dropped was still in the way |
| ByteCache.InsertChunkKeeps | crates/idb-catalog/src/byte_cache/mod.rs:433-437 | Adding a chunk after eviction keeps ranges distinct and chunks sound, and the total within the budget unless the cache holds only that chunk |
| ByteCache.MemoryByteCache.constructor | crates/idb-catalog/src/byte_cache/mod.rs:379-385 | An empty cache with no bytes used |
| ByteCache.MemoryByteCache.EvictIfNeeded | crates/idb-catalog/src/byte_cache/mod.rs:387-402 | Nothing happens when the cached bytes and the incoming ones fit the budget together; otherwise the outcome of the eviction loop: they fit, or nothing is cached |
| ByteCache.MemoryByteCache.Put | crates/idb-catalog/src/byte_cache/mod.rs:428-439 | Empty data changes nothing; otherwise the chunk is added, nothing else is, and nothing but the chunk of the same range goes when there is room. The byte count is the number of cached bytes, over all chunks of all paths, and it is within the budget unless the new chunk is all there is |
| ByteCache.CachedBytesCount | crates/idb-catalog/src/byte_cache/mod.rs:291-293 | The total over the paths is the number of cached bytes, counted one by one |
| ByteCache.PathBytesCount | crates/idb-catalog/src/byte_cache/mod.rs:291-293 | The bytes of a path are those of all its chunks |
| ByteCache.BytesUsedConcat | crates/idb-catalog/src/byte_cache/mod.rs:291-293 | The bytes of two lists of chunks together are the sum of both |
| ByteCache.MemoryByteCache.GetRange | crates/idb-catalog/src/byte_cache/mod.rs:406-417 | A hit is exactly the object's bytes, and there is one if and only if a cached chunk can serve the range |
| ByteCache.MemoryByteCache.GetFullObject | crates/idb-catalog/src/byte_cache/mod.rs:419-426 | A hit is the longest cached prefix, whole if and only if a chunk from 0 reaches the end |
| CachedReads.CachingFileRead.Read | crates/idb-catalog/src/caching_storage.rs:219-242 | Fails exactly when cancelled, or when the store fails and the cache cannot serve; otherwise the object's bytes. A hit leaves the cache alone, a non-empty miss is cached under its range |
| CachedReads.CachingStorage.Read | crates/idb-catalog/src/caching_storage.rs:141-171 | Fails exactly when cancelled, or when the store fails and no chunk starts at 0; success is a prefix of the object, and the object itself if and only if no chunk started at 0 or one of them reached the end; a miss caches the whole object |
| CachedReads.RequestLiesInFetch | patches/iceberg-0.9.1/src/arrow/reader.rs:1982 | The partition point is never 0 and the fetch range before it holds the whole request |
| CachedReads.PartitionPoint | patches/iceberg-0.9.1/src/arrow/reader.rs:1982 | How many leading ranges start at or before the offset |
| CachedReads.FetchInBounds | patches/iceberg-0.9.1/src/arrow/reader.rs:1962-1974 | Merging in-bounds requests never asks for bytes beyond the object |
| Predicates.RewriteNotKeepsMeaning | patches/iceberg-0.9.1/src/expr/visitors/rewrite_not.rs:39-62 | Eliminating NOT, constants simplified on the way, keeps the three-valued meaning on every row under either reading of nulls, and leaves no NOT |
| Predicates.NegateMeaning | patches/iceberg-0.9.1/src/expr/predicate.rs:624-652 | Negation by inverse operators and De Morgan means three-valued negation |
| Predicates.NegateNotFree | patches/iceberg-0.9.1/src/expr/predicate.rs:624-652 | Negating a predicate without NOT introduces none |
| Predicates.RewriteNotSimplifies | patches/iceberg-0.9.1/src/expr/visitors/rewrite_not.rs:39-62 | Eliminating NOT leaves no constant below a conjunction or a disjunction |
| Predicates.LessOrder | patches/iceberg-0.9.1/src/arrow/reader.rs:1683-1842 | The comparison of values is a strict order, total on the values of one kind of column: by size on numbers, with NaN above them all, and by the first difference on texts |
| Predicates.TextLessMeans | patches/iceberg-0.9.1/src/arrow/reader.rs:1683-1842 | A text is less exactly if it is a proper prefix or has the smaller character at the first difference |
| Predicates.MeaningOfConjuncts | patches/iceberg-0.9.1/src/expr/predicate.rs:563-571 | A conjunction means its list of conjuncts, however nested and whichever constants were simplified |
| Predicates.AllMeans | patches/iceberg-0.9.1/src/expr/predicate.rs:563-571 | A conjunction is true if and only if every conjunct is, and false if and only if one is |
| EqualityDeletes.ParseEqualityDeletes | patches/iceberg-0.9.1/src/arrow/caching_delete_file_loader.rs:357-428 | The first batch that cannot be read, is refused, holds a bad cell or has no columns decides: an error, or AlwaysTrue for no columns; without one, a conjunct for each delete row of every batch, as many as its first equality column has cells, in stream order in a tree of logarithmic height |
| EqualityDeletes.ReadBatch | patches/iceberg-0.9.1/src/arrow/caching_delete_file_loader.rs:391-406 | Succeeds if and only if every row that the first column reaches converts; appends exactly those rows, one for each cell of the first column, in order |
| EqualityDeletes.RowAtCells | patches/iceberg-0.9.1/src/arrow/caching_delete_file_loader.rs:394-404 | There is no row exactly where a column holds a bad cell; otherwise, where all columns reach it, it has the name and the value of each column in order |
| EqualityDeletes.ShortColumn | patches/iceberg-0.9.1/src/arrow/caching_delete_file_loader.rs:396 | A column that has run out has no part in the row |
| EqualityDeletes.RowsFrom | patches/iceberg-0.9.1/src/arrow/caching_delete_file_loader.rs:391-406 | The rows from any row on are there if and only if each of them is, and are then exactly those up to the end of the first column |
| EqualityDeletes.StreamExact | patches/iceberg-0.9.1/src/arrow/caching_delete_file_loader.rs:365-407 | There are rows exactly if every batch is good; they are those of all batches that have equality columns, laid end to end in stream order; otherwise the first batch that is not good decides |
| EqualityDeletes.HeightMeans | patches/iceberg-0.9.1/src/arrow/caching_delete_file_loader.rs:409-422 | The height that the bound speaks of is the length of the longest way down through conjunctions |
| EqualityDeletes.ReadRow | patches/iceberg-0.9.1/src/arrow/caching_delete_file_loader.rs:394-404 | The cell predicates of one row folded from the left; a bad cell is the only failure |
| EqualityDeletes.RowPredicateIsOneConjunct | patches/iceberg-0.9.1/src/arrow/caching_delete_file_loader.rs:405 | A delete row with at least one cell compiles to a single conjunct that is no constant |
| EqualityDeletes.NextLevel | patches/iceberg-0.9.1/src/arrow/caching_delete_file_loader.rs:411-422 | One level of pairwise merging halves the count rounding up, raises the height by at most one and keeps the conjuncts in order |
| EqualityDeletes.Balance | patches/iceberg-0.9.1/src/arrow/caching_delete_file_loader.rs:411-427 | Terminates with one tree that keeps the conjuncts in order and nests conjunctions at most ceil(log2 n) deep; AlwaysTrue exactly for no rows |
| EqualityDeletes.CeilLog2Means | patches/iceberg-0.9.1/src/arrow/caching_delete_file_loader.rs:409-411 | The height bound is the least k with n <= 2^k |
| EqualityDeletes.BalanceMeansLeftFold | patches/iceberg-0.9.1/src/arrow/caching_delete_file_loader.rs:409-427 | The balanced tree means the same as the left fold of `and` on every row, under either reading of nulls |
| EqualityDeletes.CompiledTwoValued | patches/iceberg-0.9.1/src/arrow/caching_delete_file_loader.rs:357-428 | Reading null as a value, the compiled predicate is true if and only if the row matches no delete row, null matching null, and false otherwise |
| EqualityDeletes.CompiledKleene | patches/iceberg-0.9.1/src/arrow/caching_delete_file_loader.rs:357-428 | In the reader's three-valued logic it is false if and only if the row matches a delete row, and true if and only if it visibly differs from every one |
| EqualityDeletes.KeptExactly | patches/iceberg-0.9.1/src/arrow/caching_delete_file_loader.rs:357-428 | The reader keeps a row if and only if it matches no delete row and none is undecided on it; none is undecided on a row without nulls in the equality columns |
| EqualityDeletes.NullRowIsLost | patches/iceberg-0.9.1/src/arrow/caching_delete_file_loader.rs:394-405 | A concrete row that matches no delete row and is nevertheless not kept |
| FieldIds.LeavesCounted | patches/iceberg-0.9.1/src/arrow/reader.rs:1146-1152 | `leaf_count` is the number of leaves below a field, each descending from that root; only a primitive root is its own leaf |
| FieldIds.BuildFallbackFieldIdMap | patches/iceberg-0.9.1/src/arrow/reader.rs:1164-1177 | Id p + 1 maps to column i if and only if root field p is primitive and is the i-th leaf of the flattened schema |
| FieldIds.FallbackConsistent | patches/iceberg-0.9.1/src/arrow/reader.rs:1154-1177 | The fallback map is injective, in bounds, and sends an id to the column whose root is the id minus one, never to a nested column |
| FieldIds.FallbackRoots | patches/iceberg-0.9.1/src/arrow/reader.rs:940-962 | The projected roots are exactly the ids minus one that lie in the schema; when there are none, everything is projected |
| FieldIds.BuildFieldIdMap | patches/iceberg-0.9.1/src/arrow/reader.rs:1117-1141 | No map if and only if a leaf lacks an id; otherwise each id goes to the last leaf that carries it, injectively |
| FieldIds.RootColumnExists | patches/iceberg-0.9.1/src/arrow/reader.rs:1168-1174 | Every primitive root field has its column |
| RowFilter.ColumnIndices | patches/iceberg-0.9.1/src/arrow/reader.rs:970-976 | Whatever order the id set is walked in, the sorted indices are exactly the columns of required ids, strictly ascending when the map is injective |
| RowFilter.CompileSucceeds | patches/iceberg-0.9.1/src/arrow/reader.rs:1457-1487 | With the indices collected from the predicate the "cannot be found" error is unreachable, and compilation succeeds if and only if every referenced column the file has is a root column |
| RowFilter.ReferenceReadsItsColumn | patches/iceberg-0.9.1/src/arrow/reader.rs:1457-1518 | A reference reads its own field's column in the projected batch; a field without a column reads as null |
| RowFilter.NegatedIntegerIn | patches/iceberg-0.9.1/src/arrow/reader.rs:1618-1623 | NOT over an integer IN agrees with its meaning if and only if the cell is not null; a null cell passes the filter |
| RowFilter.OrEqualMeans | patches/iceberg-0.9.1/src/arrow/reader.rs:1865-1881 | The eq/or accumulation is membership in the literals, and null on a null cell |
| RowFilter.AndNotEqualMeans | patches/iceberg-0.9.1/src/arrow/reader.rs:1888-1915 | The neq/and accumulation is absence from the literals, and null on a null cell |
| RowFilter.IntegersMember | patches/iceberg-0.9.1/src/arrow/reader.rs:1526-1541 | The integer set holds exactly the literals |
| DeleteFilters.DeleteFilter.constructor | patches/iceberg-0.9.1/src/arrow/delete_filter.rs:49-59 | No vectors, no entries, no notifiers |
| DeleteFilters.DeleteFilter.TryStartEq | patches/iceberg-0.9.1/src/arrow/delete_filter.rs:93-108 | An existing entry is left alone and yields None; an absent one becomes Loading under a new notifier |
| DeleteFilters.DeleteFilter.TryStartPos | patches/iceberg-0.9.1/src/arrow/delete_filter.rs:114-130 | Loaded, Loading and absent entries give the three actions; only an absent one changes, to Loading under a new notifier |
| DeleteFilters.DeleteFilter.FinishPosDelLoad | patches/iceberg-0.9.1/src/arrow/delete_filter.rs:133-149 | The entry becomes Loaded and the notifier it was loading under, if any, is signalled |
| DeleteFilters.DeleteFilter.Upsert | patches/iceberg-0.9.1/src/arrow/delete_filter.rs:215-230 | The vector of the data file becomes the union with the new one, stored as it is or or-ed in place; every other vector is unchanged |
| DeleteFilters.DeleteFilter.InsertEquality | patches/iceberg-0.9.1/src/arrow/delete_filter.rs:232-244 | A new notifier replaces whatever entry is there |
| DeleteFilters.DeleteFilter.CompleteEquality | patches/iceberg-0.9.1/src/arrow/delete_filter.rs:248-257 | The entry becomes Loaded with the predicate and the second notifier is signalled |
| DeleteFilters.DeleteFilter.GetDeleteVector | patches/iceberg-0.9.1/src/arrow/delete_filter.rs:83-91 | The vector stored for the path, if any, with its current positions |
| DeleteFilters.ParsePositionalDeletes | patches/iceberg-0.9.1/src/arrow/caching_delete_file_loader.rs:316-355 | Succeeds if and only if every batch can be read and holds no null; then the treemap of a data file holds position p if and only if some row of some batch gives that file p, or p - 2^64 from 2^63 on |
| DeleteFilters.BuildEqualityDeletePredicate | patches/iceberg-0.9.1/src/arrow/delete_filter.rs:175-208 | An error if and only if some equality delete file is unknown; otherwise the conjunction of all, or None when it is AlwaysTrue |
| DeleteFilters.TaskPredicateMeans | patches/iceberg-0.9.1/src/arrow/delete_filter.rs:184-208 | Over all equality delete files of a task the predicate is false if and only if some file deletes the row, and true if and only if the row visibly differs from every delete row |
| LoadProtocol.GrantedOnce | patches/iceberg-0.9.1/src/arrow/delete_filter.rs:114-130 | In every interleaving the load of a positional, and of an equality, delete file is granted to at most one process |
| LoadProtocol.LoadedMeansMerged | patches/iceberg-0.9.1/src/arrow/caching_delete_file_loader.rs:193-204 | Loaded is never left, and from then on all positions of the file are in the delete vectors |
| LoadProtocol.VectorIsUnion | patches/iceberg-0.9.1/src/arrow/delete_filter.rs:215-230 | At every moment each delete vector is exactly the union of the per-file results merged so far, whatever the order |
| LoadProtocol.FinishedTaskSeesDeletes | patches/iceberg-0.9.1/src/arrow/caching_delete_file_loader.rs:226-234 | A process whose positional delete file is loaded, by itself or by the process it waited for, sees all its positions then and later |
| LoadProtocol.ReadersAgree | patches/iceberg-0.9.1/src/arrow/delete_filter.rs:152-172 | The unreachable branch is never taken, and every reader gets the predicate of its file |
| LoadProtocol.PredicateStays | patches/iceberg-0.9.1/src/arrow/delete_filter.rs:152-172 | A stored predicate is never replaced |
| LoadProtocol.StepInv | patches/iceberg-0.9.1/src/arrow/delete_filter.rs:93-258 | Every atomic step of every process keeps the whole invariant and undoes nothing |
| LoadProtocol.RunInv | patches/iceberg-0.9.1/src/arrow/delete_filter.rs:93-258 | The invariant holds at every moment of every interleaving |
| LoadProtocol.RunGrows | patches/iceberg-0.9.1/src/arrow/delete_filter.rs:93-258 | Between any two moments entries, Loaded states, stored predicates and positions only grow |
| LoadProtocol.StepOwners | patches/iceberg-0.9.1/src/arrow/delete_filter.rs:93-130 | Owners stay unique per file, and every entry has one |
| LoadProtocol.StepVectors | patches/iceberg-0.9.1/src/arrow/caching_delete_file_loader.rs:197-203 | One step adds to a vector exactly what the moving process has newly merged |
| LoadProtocol.StepSignals | patches/iceberg-0.9.1/src/arrow/delete_filter.rs:133-149 | Only notifiers of loaded files are ever signalled |
| DeleteFileIndex.New | patches/iceberg-0.9.1/src/delete_file_index.rs:120-161 | Fails exactly on a partitioned file that is neither kind of delete; otherwise each bucket holds exactly the input's files that belong there, in input order |
| DeleteFileIndex.InOneBucket | patches/iceberg-0.9.1/src/delete_file_index.rs:120-161 | A file is in a bucket if and only if it is an input and the bucket is its own |
| DeleteFileIndex.DeletesForDataFile | patches/iceberg-0.9.1/src/delete_file_index.rs:164-212 | Global, equality, then positional, each in input order. A file is returned as often as it was put in, or not at all: for data of sequence n an equality delete needs a sequence above n, a positional one at least n; a missing sequence never does, and without n every one does; partition and spec id must agree but for unpartitioned equality deletes |
| DeleteFileIndex.PushApplicable | patches/iceberg-0.9.1/src/delete_file_index.rs:171-179 | One filtering loop appends exactly the files of the bucket whose sequence is above n, or at least n for positional deletes, and whose spec id agrees where it is checked, in order |
| DeleteFileIndex.KeepConcat | patches/iceberg-0.9.1/src/delete_file_index.rs:171-209 | Filtering two lists one after the other is filtering them together, so the order of the input is kept |
| DeleteFileIndex.KeepCount | patches/iceberg-0.9.1/src/delete_file_index.rs:171-209 | Filtering keeps a file as often as it occurs, or not at all |
| DeleteFileIndex.LookupIsFlatScan | patches/iceberg-0.9.1/src/delete_file_index.rs:164-212 | The three filtered buckets hold exactly the files the flat rule applies, without loss or duplication |
| DeleteFileIndex.KeepKeep | patches/iceberg-0.9.1/src/delete_file_index.rs:181-209 | Filtering a bucket by its loop's test is filtering all files by bucket and rule |
| DeleteFileIndex.StepInv | patches/iceberg-0.9.1/src/delete_file_index.rs:65-109 | Every step of populating and looking up keeps the invariant |
| DeleteFileIndex.LookupsAgree | patches/iceberg-0.9.1/src/delete_file_index.rs:65-109 | In every interleaving a lookup that wakes finds the index populated, and all lookups answer from one index, that of the collected files |
| DeleteFileIndex.AnsweredIffNotLost | patches/iceberg-0.9.1/src/delete_file_index.rs:65-109 | At any moment of any run a lookup without an answer gets one in some continuation if and only if it did not miss the signal, and the files all have a bucket unless the index is there already |
| DeleteFileIndex.LateLookupReachable | patches/iceberg-0.9.1/src/delete_file_index.rs:85-100 | A four-step run in which the index is stored and signalled between the two steps of a lookup |
| MetadataLocations.RoundTrip | patches/iceberg-0.9.1/src/catalog/metadata_location.rs:80-108 | For every table location string, printing then parsing gives the same location if the version is not negative, and does not parse otherwise |
| MetadataLocations.PrintedForm | patches/iceberg-0.9.1/src/catalog/metadata_location.rs:80-87 | A location prints as the table, the metadata directory, the version in five or more decimal digits, the hyphenated id in lower case, and the ending |
| MetadataLocations.ParseExact | patches/iceberg-0.9.1/src/catalog/metadata_location.rs:63-108 | A text parses to a location if and only if it is that table, the directory, a 32-bit number with or without a plus sign, a hyphen, the id in any of the four accepted forms and either case, and the ending |
| MetadataLocations.NegativeUnparsed | patches/iceberg-0.9.1/src/catalog/metadata_location.rs:63-87 | A file name with a negative version does not parse: the padding stands in front of the sign, which is taken for the hyphen before the id |
| MetadataLocations.NextVersionRoundTrip | patches/iceberg-0.9.1/src/catalog/metadata_location.rs:45-51 | One version step, print and parse gives version + 1 with the same table if and only if the version was below the largest 32-bit number |
| MetadataLocations.ParsedIsStable | patches/iceberg-0.9.1/src/catalog/metadata_location.rs:90-108 | Whatever parses prints to a location that parses to the same value |
| MetadataLocations.ParsedVersion | patches/iceberg-0.9.1/src/catalog/metadata_location.rs:63-77 | A parsed version is a 32-bit number of at least 0 |
| MetadataLocations.FileNameRoundTrip | patches/iceberg-0.9.1/src/catalog/metadata_location.rs:63-87 | The file name holds no slash and parses back to its version and id |
| MetadataLocations.DigitsRoundTrip | patches/iceberg-0.9.1/src/catalog/metadata_location.rs:76 | Decimal printing and parsing are inverse |
| MetadataLocations.UuidRoundTrip | patches/iceberg-0.9.1/src/catalog/metadata_location.rs:76 | Hyphenated UUID printing and parsing are inverse |
| MergeOnRead.ScanLoadedFile | patches/iceberg-0.9.1/src/arrow/reader.rs:466-596 | At any moment of any run of the loading protocol when a scan's delete files are done: fails exactly where no filter can be built, and otherwise delivers no row that a positional delete file merged by then names or that fails to differ visibly from an equality delete row of the source files, and, of the rows on which the scan's own filter keeps truth, all others that satisfy it; the scan's own positional delete files are all merged |
| MergeOnRead.ScanFile | patches/iceberg-0.9.1/src/arrow/reader.rs:466-600 | Reading every split with the delete vector the shared filter holds and filtering with the compiled predicate, wherever the splits read intact: fails exactly where no filter can be built; whatever the scan's filter, delivers no row that a delete is about; and delivers a row of a non-empty group on which that filter keeps truth if and only if it is wanted and undeleted |
| MergeOnRead.MergedScan | patches/iceberg-0.9.1/src/arrow/reader.rs:466-596 | However the file is tiled into splits, whatever sound pruning is on and whatever the scan's filter: a row of a non-empty group on which the combined predicate is true is read by some split if and only if it satisfies the filter, visibly differs from every equality delete row, and is named by no positional delete, for splits that read intact |
| MergeOnRead.SmallFileScansIntact | patches/iceberg-0.9.1/src/arrow/reader.rs:647-759 | Every split of a file of fewer than 2^32 rows reads intact, whatever is deleted |
| MergeOnRead.PlannedMeans | patches/iceberg-0.9.1/src/arrow/reader.rs:472-483 | The combined predicate is true on a row the schema allows if and only if the row satisfies the scan's filter and visibly differs from every row of every equality delete file, whichever part is absent |
| MergeOnRead.FilterPasses | patches/iceberg-0.9.1/src/arrow/reader.rs:511-523 | For every scan filter, the compiled combination passes a row exactly where the compiled filter alone does and the row visibly differs from every equality delete row; nothing is asked of the deletes, whose columns the file may lack |
| MergeOnRead.DeleteOnMissingColumn | patches/iceberg-0.9.1/src/arrow/reader.rs:1783-1801 | A delete row with a value in a column the data file lacks matches no row of the file, and yet has a row dropped if and only if no other column of it visibly differs from the row |
| MergeOnRead.PlanFilter | patches/iceberg-0.9.1/src/arrow/delete_filter.rs:175-213 | An unknown equality delete file is an error; otherwise the predicates are folded, bound and combined with the scan's filter |
| MergeOnRead.TaskLeaves | patches/iceberg-0.9.1/src/arrow/caching_delete_file_loader.rs:394-427 | However many equality delete files there are, their conjunction consists of inequalities with literals of the column's type and tests for a value, under AND and OR |
| MergeOnRead.LeavesKeepTruth | patches/iceberg-0.9.1/src/arrow/reader.rs:1641-1655 | Such a predicate contains no NOT, and compiles to a filter that is true exactly where it is, on present and on missing columns |
| MergeOnRead.ReadSplit | patches/iceberg-0.9.1/src/arrow/reader.rs:493-600 | A split delivers exactly the rows the reader reads and the compiled filter passes |
| MergeOnRead.GroupsAreContents | patches/iceberg-0.9.1/src/arrow/caching_delete_file_loader.rs:316-355 | What the positional parser returns is, vector by vector, the contents that the loading protocol passes on |
| MergeOnRead.VectorNames | patches/iceberg-0.9.1/src/arrow/caching_delete_file_loader.rs:193-204 | At every moment of every run the delete vector of a file holds exactly the rows named for it by the positional delete files merged so far |
| MergeOnRead.DoneNames | patches/iceberg-0.9.1/src/arrow/caching_delete_file_loader.rs:193-204 | Once a positional delete file is done, all rows it names for a data file are in that file's delete vector |
| Binding.BindLeafExact | patches/iceberg-0.9.1/src/expr/predicate.rs:385-506 | Binding a leaf keeps its three-valued meaning on a row the schema allows, except exactly where a literal beyond the column's range decides a null cell |
| Binding.BindMeaning | patches/iceberg-0.9.1/src/expr/predicate.rs:340-511 | Binding with all its simplifications keeps the meaning of the whole predicate where no leaf is decided on a null cell |
| Binding.BindSucceeds | patches/iceberg-0.9.1/src/expr/predicate.rs:340-511 | Binding fails, as invalid data, if and only if a column is unknown, a NaN test is on a column that is not floating, or a literal is of another kind than the column: a number for integers or floating, NaN for floating, a text for text |
| Binding.ConvertExact | patches/iceberg-0.9.1/src/expr/predicate.rs:424-437 | A literal is kept exactly if the column can hold it, decided exactly if it is a number beyond the range, and refused otherwise |
| Binding.NullPassesBoundComparison | patches/iceberg-0.9.1/src/expr/predicate.rs:424-437 | A concrete comparison with a literal beyond the range that is unknown on null and binds to AlwaysTrue |
| DeleteVectors.FetchHead | patches/iceberg-0.9.1/src/delete_vector.rs:95-111 | One step of `next` yields the head of what remains, and None exactly when nothing does, through the recombination of high and low halves and over emptied buckets |
| DeleteVectors.SeekAdvanced | patches/iceberg-0.9.1/src/delete_vector.rs:116-135 | What `advance_to` leaves on a started cursor, and that a bucket already far enough is not left |
| DeleteVectors.DeleteVectorIterator.Next | patches/iceberg-0.9.1/src/delete_vector.rs:95-111 | Takes the step of `Fetch`: the least remaining position, and the rest remains |
| DeleteVectors.DeleteVectorIterator.AdvanceTo | patches/iceberg-0.9.1/src/delete_vector.rs:116-135 | The loop reaches the state of `Seek`; a cursor that has not started stays where it is |
| RowSelections.BuildDeletesRowSelection | patches/iceberg-0.9.1/src/arrow/reader.rs:647-759 | Whenever the source returns at all, the selectors are those of `Build`, expand to the rows of the selected groups with the bit set unless the row is still owed, and are correct if and only if `Intact` holds of the sizes, the selection and the delete set |
| RowSelections.BuildExact | patches/iceberg-0.9.1/src/arrow/reader.rs:647-759 | For every file, selection and delete vector: the source returns and keeps exactly the undeleted rows of the selected groups if and only if passing over groups loses no delete of a selected group and leaves none behind it |
| RowSelections.BuildHolds | patches/iceberg-0.9.1/src/arrow/reader.rs:647-759 | The source gets past a group if and only if nothing still owed lies before it, and the look-ahead and the cursor always hold exactly what is owed |
| RowSelections.BuildBits | patches/iceberg-0.9.1/src/arrow/reader.rs:647-759 | Whenever it returns, a row of a selected group is skipped if and only if it is still owed when its group is reached |
| RowSelections.RunExpanded | patches/iceberg-0.9.1/src/arrow/reader.rs:647-759 | A selecting run stands for as many kept rows as it counts, a skipping one for as many skipped rows |
| RowSelections.BaseConcat | patches/iceberg-0.9.1/src/arrow/reader.rs:656-700 | The row count of a file is the sum over its groups |
| RowSelections.RowsNumbered | patches/iceberg-0.9.1/src/arrow/reader.rs:656-700 | The rows of a file are numbered 0, 1, 2 and so on across its groups |
| RowSelections.SafeIsIntact | patches/iceberg-0.9.1/src/arrow/reader.rs:647-759 | If every skip before a selected group is safe, everything is intact |
| RowSelections.SmallFileIsSafe | patches/iceberg-0.9.1/src/arrow/reader.rs:647-759 | In a file of fewer than 2^32 rows every skip is safe, for every group selection and delete set |
| RowSelections.OneGapExact | patches/iceberg-0.9.1/src/arrow/reader.rs:647-759 | When one group is passed over and all others are read, the result is correct if and only if that skip is safe |
| RowSelections.SkipExact | patches/iceberg-0.9.1/src/arrow/reader.rs:674-691 | Passing over one group leaves exactly the deletes from its end on if and only if the skip is safe |
| RowSelections.PassExact | patches/iceberg-0.9.1/src/arrow/reader.rs:674-691 | Advancing and refreshing the look-ahead does to every cursor what `Passed` does to the set of deletes owed |
| RowSelections.GroupExact | patches/iceberg-0.9.1/src/arrow/reader.rs:694-753 | A selected group is finished if and only if nothing owed lies before it; its runs are then its rows kept unless owed, and what is owed afterwards lies beyond it |
| RowSelections.ChunksExact | patches/iceberg-0.9.1/src/arrow/reader.rs:715-753 | The chunk loop ends on a look-ahead that is not below the current row, having pushed the bits of the rest of the group |
| RowSelections.StuckTurn | patches/iceberg-0.9.1/src/arrow/reader.rs:716-747 | A turn of the chunk loop reaches no further row exactly on a look-ahead below the current row, and then changes nothing |
| RowSelections.AdvancedMember | patches/iceberg-0.9.1/src/delete_vector.rs:116-135 | Which positions survive `advance_to`, on every cursor state, whether or not the call is a seek |
| RowSelections.GroupRuns | patches/iceberg-0.9.1/src/arrow/reader.rs:715-753 | The loops push the runs of `Chunks` and leave its look-ahead and cursor, whenever that function says they end |
| RowSelections.SkipDeleted | patches/iceberg-0.9.1/src/arrow/reader.rs:725-743 | The inner loop counts the consecutive deletes from the current row on |
| RowSelections.PassGroup | patches/iceberg-0.9.1/src/arrow/reader.rs:674-691 | Advance, and refresh a look-ahead that lies before the next group |
| RowSelections.UnsafeSkipGoesStale | patches/iceberg-0.9.1/src/arrow/reader.rs:674-691 | A concrete delete vector and file over 2^32 rows on which the source never returns |
| RowSelections.UnsafeSkipLosesDelete | patches/iceberg-0.9.1/src/arrow/reader.rs:674-691 | A concrete delete vector and file over 2^32 rows on which it returns a selection that keeps a deleted row |
| ByteSplits.OneSplitReads | patches/iceberg-0.9.1/src/arrow/reader.rs:1088-1112 | At most one split reads the group if and only if no split edge falls strictly inside it |
| ByteSplits.StraddlingGroupReadTwice | patches/iceberg-0.9.1/src/arrow/reader.rs:1088-1112 | A concrete group that two splits of a tiling read |
| ByteSplits.OwnSplit | patches/iceberg-0.9.1/src/arrow/reader.rs:1088-1112 | With edges laid out group by group from byte 4 on, split k is given group k, unless that is empty, and no other |
| ScanTask.RowsRead | patches/iceberg-0.9.1/src/arrow/reader.rs:493-596 | Whenever the positional deletes can be walked to the end, the rows read are, ascending and once each, exactly the rows of wanted groups that the page selection keeps and to which no delete has been applied |
| ScanTask.AppliedMeans | patches/iceberg-0.9.1/src/arrow/reader.rs:565-586 | Where the read is intact, a delete has been applied to a row of a wanted group if and only if it is there |
| ScanTask.SmallFileReadsIntact | patches/iceberg-0.9.1/src/arrow/reader.rs:647-759 | Every scan task on a file of fewer than 2^32 rows reads intact |
| ScanTask.SelectGroups | patches/iceberg-0.9.1/src/arrow/reader.rs:500-546 | The group list is `GroupList`: byte range, statistics, or the intersection of both |
| ScanTask.GroupListMeans | patches/iceberg-0.9.1/src/arrow/reader.rs:500-546 | That list is ascending and selects a group if and only if it passes the overlap test, or start and length are both 0, and its statistics may match where that filter is on; no list means every group |
| ScanTask.RowSelectionForFilterPredicate | patches/iceberg-0.9.1/src/arrow/reader.rs:1016-1081 | Without page indexes the recoverable error; otherwise, with one cursor that never passes the end of the ascending group list, the page bits of exactly the selected groups |
| ScanTask.RowsLineUp | patches/iceberg-0.9.1/src/arrow/reader.rs:1016-1081 | Bits per group, flattened over the selected groups, stand one to one with the rows of those groups, so that both selections have equal length |
| ScanTask.SplitsDeliver | patches/iceberg-0.9.1/src/arrow/reader.rs:500-596 | Where the splits read intact they together deliver a row of a non-empty group if and only if it matches and is not deleted; at most one does if and only if no split edge falls strictly inside the group |
| FieldIds.NameMappedColumn | patches/iceberg-0.9.1/src/arrow/reader.rs:773-777 | For a file without ids, an id given by the name mapping finds its own field's column if and only if it equals the field's position plus one |
| FieldIds.NameMappingMisreads | patches/iceberg-0.9.1/src/arrow/reader.rs:773-777 | Two columns and a name mapping for which a filter on one column reads the other |
| DeleteColumns.EqDelColumnProcessor.constructor | patches/iceberg-0.9.1/src/arrow/caching_delete_file_loader.rs:437-442 | Nothing collected yet, for the given equality ids |
| DeleteColumns.EqDelColumnProcessor.VisitStruct | patches/iceberg-0.9.1/src/spec/schema/visitor.rs:249-266 | Fails if and only if the fields hold a list or a map, inside structs or not; otherwise exactly the primitive fields with an equality id are pushed, depth first |
| DeleteColumns.EqDelColumnProcessor.VisitField | patches/iceberg-0.9.1/src/arrow/caching_delete_file_loader.rs:493-502 | Pushes the field under its bare name if it is primitive and has an equality id, and otherwise nothing |
| DeleteColumns.EqDelColumnProcessor.Finish | patches/iceberg-0.9.1/src/arrow/caching_delete_file_loader.rs:445-483 | One column of cells for each collected array, in order; the first array that does not convert is the error |
| DeleteColumns.CollectColumns | patches/iceberg-0.9.1/src/arrow/caching_delete_file_loader.rs:378-384 | Visiting a batch and finishing gives the outcome of `EqualityColumns`, on which the next two lemmas and `ScopeExact` rest |
| DeleteColumns.CollectedIsPicked | patches/iceberg-0.9.1/src/spec/schema/visitor.rs:205-266 | What the recursion over the types collects is what a scan of all primitive leaves picks: those that carry an equality id themselves, at any depth, in order |
| DeleteColumns.ColumnsCollected | patches/iceberg-0.9.1/src/arrow/caching_delete_file_loader.rs:486-584 | A batch is refused as unsupported if and only if it has a list or a map anywhere, is refused at all if and only if that or a collected array does not convert, and yields no column if and only if no primitive field at any depth has an equality id |
| DeleteColumns.ListOrMapFound | patches/iceberg-0.9.1/src/spec/schema/visitor.rs:205-266 | The visitor meets a list or a map exactly if some path from struct to struct leads to one |
| DeleteColumns.LeavesFound | patches/iceberg-0.9.1/src/spec/schema/visitor.rs:205-266 | The leaves are exactly the primitive fields at the ends of such paths, top-level for paths of one step, and marked where a field on the path has an equality id |
| EqualityScope.ScopeExact | patches/iceberg-0.9.1/src/arrow/caching_delete_file_loader.rs:378-407 | For every batch of nested fields, every set of equality ids and every delete row: the compiled predicate deletes exactly the data rows that agree with the delete row in all that its equality columns hold if and only if there is such a column and all of it lies in top-level primitive columns |
| EqualityScope.DeletesMeans | patches/iceberg-0.9.1/src/arrow/caching_delete_file_loader.rs:378-407 | A data row is deleted if and only if something was collected, every collected name binds, and the column it leads to agrees with the collected cell |
| EqualityScope.OutOfScope | patches/iceberg-0.9.1/src/arrow/caching_delete_file_loader.rs:493-502 | Outside that condition, a data row that the delete row and its predicate disagree on |
| EqualityScope.StructOverApplies | patches/iceberg-0.9.1/src/arrow/caching_delete_file_loader.rs:493-502 | Equality columns a and s, a struct: only a is collected, and a row that agrees in a but not in s is deleted |
| EqualityScope.NestedFieldByBareName | patches/iceberg-0.9.1/src/arrow/caching_delete_file_loader.rs:493-502 | Equality column s.sa: it is collected as sa, and in a table that has a column sa a row is deleted by that column |
| RowFilter.LeafExact | patches/iceberg-0.9.1/src/arrow/reader.rs:1625-1916 | A compiled leaf computes its Kleene meaning exactly on the rows of `LeafAgrees`, and is true exactly where it should be on the rows of `LeafKeepsTruth` |
| RowFilter.NumbersCompared | patches/iceberg-0.9.1/src/arrow/reader.rs:1683-1842 | Each of the eight compiled comparisons of a number cell with a number literal is the arithmetical one |
| RowFilter.TextsCompared | patches/iceberg-0.9.1/src/arrow/reader.rs:1683-1842 | Each compiled comparison of a text cell with a text literal goes by the first difference; STARTS WITH holds exactly if the cell is the literal followed by some text |
| RowFilter.NanCompared | patches/iceberg-0.9.1/src/arrow/reader.rs:1683-1842 | A NaN cell compares as above every number and equal to NaN |
| RowFilter.AllIntegersMeans | patches/iceberg-0.9.1/src/arrow/reader.rs:1844-1861 | The fast path of IN is taken exactly if every literal is an integer |
| RowFilter.CompileCorrect | patches/iceberg-0.9.1/src/arrow/reader.rs:1583-1916 | Where every leaf agrees, the compiled filter computes the Kleene meaning of any and/or/not tree |
| RowFilter.TruthKept | patches/iceberg-0.9.1/src/arrow/reader.rs:1526-1616 | With integer IN as a hash-set test, a NOT-free filter is true exactly where the predicate is, and false wherever the predicate is false, on every row on which its leaves keep truth |
| RowFilter.MissingComparison | patches/iceberg-0.9.1/src/arrow/reader.rs:1683-1842 | A comparison on a column the file lacks is unknown on every row, and passes all rows if and only if it is less-than, less-than-or-equal or not-starts-with |
| RowFilter.NanTestIsConstant | patches/iceberg-0.9.1/src/arrow/reader.rs:1657-1681 | On a column the file has, IS NAN passes every row and IS NOT NAN none, which is what they mean if and only if the cell is NaN |
| RowFilter.GetRowFilter | patches/iceberg-0.9.1/src/arrow/reader.rs:964-991 | Collecting ids, sorting their columns and compiling: the columns come out strictly ascending, "cannot be found" is never reported, and compilation succeeds if and only if every referenced column the file has is a root column |
| CachedReads.ArrowFileReader.GetByteRanges | patches/iceberg-0.9.1/src/arrow/reader.rs:1955-1992 | With any cache contents, any interleaving of the reads in flight and any caching by others meanwhile, success returns for each request the object's bytes as far as the object goes, in request order, and without a fault of some read it succeeds |
| CachedReads.ArrowFileReader.FetchBuffered | patches/iceberg-0.9.1/src/arrow/reader.rs:1966-1974 | However the reads in flight step and whatever others cache meanwhile: each piece of data is the object's, in the order of the ranges; a failure comes from the fault of some read, and a cancelled read is always one |
| CachedReads.ArrowFileReader.Turn | patches/iceberg-0.9.1/src/arrow/reader.rs:1966-1972 | A read makes a step exactly when it is among the first few not handed on yet, as many as the concurrency but at least one; none beyond them is ever under way |
| CachedReads.CachingFileRead.LookUp | crates/idb-catalog/src/caching_storage.rs:219-232 | Cancelled, or a hit with the object's bytes if and only if some cached chunk can serve the range, or a miss |
| CachedReads.CachingFileRead.Fetch | crates/idb-catalog/src/caching_storage.rs:233-242 | What the store returns, cached under its range, whatever the cache holds by then |
| CachedReads.SliceRequests | patches/iceberg-0.9.1/src/arrow/reader.rs:1978-1989 | Slicing the fetched data gives each request its own bytes |
| LoadProtocol.WakesIffNotLost | patches/iceberg-0.9.1/src/arrow/delete_filter.rs:152-172 | At any moment of any run, whoever holds or awaits a notifier, for a positional or an equality file, is woken in some continuation if and only if it did not miss the signal and the signal can still come: the positional load has not failed, or somebody is to signal the equality notifier |
| LoadProtocol.LostAtPickUp | patches/iceberg-0.9.1/src/arrow/delete_filter.rs:156-166 | A reader that has just picked up its notifier is lost at once if and only if the winner of the load has yet to replace that notifier, or has failed |
| LoadProtocol.ReaderIsLost | patches/iceberg-0.9.1/src/arrow/delete_filter.rs:232-257 | A reader that picked up the first notifier before the winner replaced it holds or awaits it in every continuation of the run, and nobody signals it |
| LoadProtocol.LostReaderReachable | patches/iceberg-0.9.1/src/arrow/caching_delete_file_loader.rs:244-249 | A two-step run that reaches that situation |
| LoadProtocol.StrandedReaderReachable | patches/iceberg-0.9.1/src/arrow/caching_delete_file_loader.rs:249-260 | A five-step run to a reader that waits in time and is stranded by a load that failed |
| LoadProtocol.LateReaderReachable | patches/iceberg-0.9.1/src/arrow/delete_filter.rs:156-166 | A six-step run in which the predicate is stored and signalled between the two steps of a reader, which is late for good |
| LoadProtocol.LateWaiterReachable | patches/iceberg-0.9.1/src/arrow/caching_delete_file_loader.rs:226-234 | For every positional delete file, a run in which a task told to wait comes to wait after the signal |
| LoadProtocol.LostStays | patches/iceberg-0.9.1/src/arrow/delete_filter.rs:152-172 | Whoever is lost stays where it is and stays lost, whatever step is taken |

## Left out

- RowSelections.BuildDeletesRowSelection: asks for a run that ends, since a method must; exactly when it ends is `BuildHolds`.
- MergeOnRead.MergedScan: takes the verdicts of the statistics and page evaluators as sound (`SoundPruning`), because those evaluators are not part of this model, and speaks of rows that the schema allows.
- MergeOnRead.ScanFile: where the leaves of the scan's own filter do not keep truth on a row, it says only that no deleted row is delivered; when they do is `RowFilter.LeafExact`.
- Binding.BindSucceeds: an IN literal beyond the column's range is reported at binding; the source binds it and fails when the filter is built. Text literals for numbers and times are not converted, and a schema is any lookup by name, with or without case.
- MergeOnRead.ScanLoadedFile: equality delete rows are those collected (`EqualityScope.ScopeExact` says when they are what the file says), taken as already evolved to the column types of the table (`TypedFiles`).
- CachedReads.ArrowFileReader.GetByteRanges: a request that starts beyond the end of the object panics in the source and is not modelled.
- LoadProtocol.ReadersAgree: safety only. No fairness is modelled: `WakesIffNotLost` says when a waiter can still be woken, not that it will be.
- DeleteColumns.CollectColumns: an array belongs to its field; where a struct has two fields of one name, the source takes the first array for both.
- Roaring bitmaps, Parquet and Arrow: a treemap is an ascending list of buckets with sorted low halves, a row selection is its bits without merging of neighbouring runs, and the kernels act on one row at a time.
- Machine integers: positions wrap to 64 bits and versions to 32 bits as in the source; sums of row counts and byte offsets are unbounded, under the condition that a file has fewer than 2^64 rows.
- Values are whole numbers, NaN and plain sequences of characters; literal casts at the kernels and integer IN on columns other than 32- and 64-bit integers are not modelled.
- Schema evolution of equality delete files.
- The shared handle on a delete vector that outlives its lock: a task is taken to read the vector as it is when its delete files are done.
- Concurrent `put`s on the memory cache, the on-disk cache, and the hashing of its file names.
- `insert_positions` and `len` of delete vectors, and the random id of a new metadata location (a parameter here).
- The statistics evaluators, the record-batch transformer, batch sizes, int96 coercion, projection by embedded ids, name mapping of nested fields.
- REST catalog, object-store signing and URLs, the browser bridge, the command line, benchmarks and reports.
