# StratoDB, modelled

StratoDB keeps a document tree (objects, lists, scalar leaves) in one ordered key-value
table, with packed subtrees, secondary indexes and shared caches on top. This project
models that engine in Dafny and proves what its parts promise one another.

Everything hangs on one value, the *keyed tree* (`Trees.Tree`): what a table holds, each
node with its key, packed entities included. `Backends.Rep` and `Backends.Holds` say when
a store's entries (the engine table, the inline table behind a blob, or an archive) are
exactly such a tree, with one parent for each node and no orphan; `Trees.Denote` says
which document the tree is. The engine's writes are methods on class
`TreeStores.TreeStore` and its neighbours, each proved to leave the store holding the
tree a function of the old tree names; lemmas then relate those functions to the plain
documents of `Values`.

- **Tree store**: `Trees`, `TreeLaws`, `Backends`, `Walks`, `Edits`, `Repacking`,
  `TreeStores`, `Removal`, `Containers`, `Elsewhere`, `Storing`, `Unpacking`, `Lists`,
  and whole runs in `EditRuns`. Blobs are in `Blobs`, stored scalars in `ScalarCodec`.
- **Ordered keys**: `Bytes`, `OrderedRuns`, `Rationals`, `ScalarOrder`, `Decimals`,
  `Ordered`, `KeyBuffers`, `Columns`, `TableKeys`, `Utf8`.
- **Indexes**: `Patterns`, `PatternText`, `Maintenance`, `Scans`, `Brackets`, `Positions`,
  `IndexSets`, `TableRuns`, `IndexedTables`, `Queries`, `DocumentIndexes`.
- **Caches and generations**: `Caches`.
- **Registry**: `Registries`, and a table together with it in `Schemas`.
- **Paths and keys**: `Paths`, `PathText`, `KeyGenerator`.

Modelling choices that matter to a reader:

- Keys are an unbounded supply of names not used before (`Skeys`); `KeyGenerator` proves
  separately that the generator's own keys are distinct. Where bytes matter a key must fit
  sixteen of them, so scans ask that the supply has not passed 2^128.
- Index entries are a map beside the node entries. In the engine both share one table,
  kept apart by the key's leading byte.
- A mutation's success is described completely; after an error nothing is promised about
  the open transaction, except where a contract says so.
- Patterns and paths are read from their text in `PatternText` and `PathText`; the index
  modules work on what was read.

## Findings

What the proofs show the code does not do, each with the exact condition under which it does.

- Storing a whole value at a list position removes what is there first, so every later
  element moves up before the value is placed: the next element is lost. It is the
  document's own update exactly at a named place or at a list's last position or the one
  after it (`Storing.StoreAfterRemove`; `Storing.MiddleStoreLosesOne` is an input). The
  documentation of `store` and `store_value` says the subtree at the path is replaced.
- An index whose pattern names a list position other than the first goes stale when an
  earlier element is removed. Every removal keeps an index exact if and only if its
  pattern names no such position (`Positions.SteadyExactly`; `Positions.StaleRemoval`
  builds a table, an index and a removal for each other pattern).
- Packing asks only whether a pattern reaches below a place, not whether a column does: a
  column whose leaf was packed strictly below its entity is indexed as null. The index
  reads the document if and only if no packed entity hides an entity or a column
  (`DocumentIndexes.ReadsExactly`; `DocumentIndexes.NestedColumnHidden` is an input). For
  the same reason an index made after the packing misses every entity inside
  (`DocumentIndexes.LateIndexMisses`), though the documentation of `create_index` says that
  every entity already there is indexed.
- Removing the root reports that something was removed even from an empty table
  (`Removal.RemoveDenotes`).
- An index over the root holds an entry while the table is empty, and that is the only
  way an index names a node that is not there (`Maintenance.EmptyRootEntry`).
- The field-wise order of table keys differs from the byte order on entries of one
  non-unique index whose column runs are nested, exactly when the shorter run's entity
  loses to the longer run's next bytes (`TableKeys.FieldOrder`, `TableKeys.CrossedPair`).

## Model

| member | source | states |
|---|---|---|
| TreeLaws.LocateReadsDocument | crates/stratodb/src/tree.rs:137-182 | packing is invisible to a read: locating any path and going on inside a blob gives the document's subtree there |
| Walks.LocateKey | crates/stratodb/src/tree.rs:137-182 | the hop-by-hop walk over stored entries lands where the tree's own location does, stopping at a packed entity with the rest of the path |
| Walks.WalkFollowsTree | crates/stratodb/src/tree.rs:309-330 | resolving a relative path over the entries follows the tree they represent, and fails where the tree has nothing |
| Walks.ObjectChildren | crates/stratodb/src/tree.rs:51-73 | the early-stopping scan lists every link of one parent, each once, names ascending, on all three backends |
| Walks.ReadValue | crates/stratodb/src/txn/value.rs:32-51 | loading at a path returns the denoted document's subtree, and nothing where it has none |
| Walks.ValueAt | crates/stratodb/src/txn/value.rs:105-139 | the recursive load of a node's subtree, through packed entities, is the document the subtree denotes |
| TreeLaws.PutDenotes | crates/stratodb/src/tree.rs:365-391 | the two path-update algorithms agree: the keyed write succeeds exactly when the document's does, and denotes its result |
| Values.SetExactly | crates/stratodb/src/value.rs:265-330 | a write applies exactly when each step of its path goes into a container of its kind, at most one past a list's end, or where nothing is yet by a name or as a first element |
| TreeLaws.BlobEditDenotes | crates/stratodb/src/txn/write.rs:531-578 | inside a blob the same-length overwrite and the general write denote the same document |
| TreeLaws.EnsureDenotes | crates/stratodb/src/tree.rs:424-457 | ensuring a container accepts only one of the wanted kind, leaves it alone, and otherwise adds an empty one where the document could |
| TreeStores.TreeStore.PutScalarPath | crates/stratodb/src/txn/write.rs:512-521 | storing a scalar through the entries succeeds exactly when the tree write does and leaves the store holding exactly that tree |
| TreeStores.TreeStore.PutScalarRel | crates/stratodb/src/tree.rs:365-391 | the same for the path-relative write below an anchor, on either writable backend |
| TreeStores.TreeStore.EnsureContainerRel | crates/stratodb/src/tree.rs:424-457 | missing ancestors are made top down, the result is exactly the tree's own, and the key returned is the container's |
| TreeStores.TreeStore.RemoveRel | crates/stratodb/src/tree.rs:400-414 | the subtree goes with its link, nothing else does, and the report says whether anything was there (always, at the root) |
| TreeStores.TreeStore.PutScalarIntoPacked | crates/stratodb/src/txn/write.rs:531-578 | a scalar put inside a blob, spliced or rewritten, leaves the same tree under the entity's own key |
| Repacking.SpliceHolds | crates/stratodb/src/txn/write.rs:531-578 | bytes spliced over an equally long leaf leave a well-formed blob that holds the inner tree with that leaf alone changed |
| Blobs.SpliceOneLeaf | crates/stratodb/src/engine/archived.rs:122-132 | a splice into one leaf's span changes that node's view and no other node's |
| Edits.CascadeDelete | crates/stratodb/src/tree.rs:672-692 | the worklist terminates and removes exactly the subtree's nodes and links |
| Edits.AttachChild | crates/stratodb/src/tree.rs:484-529 | linking a child fails exactly past a list's end, and changes the parent's own entries alone |
| Edits.DetachChild | crates/stratodb/src/tree.rs:534-561 | unlinking closes a list up or drops one link, and changes the parent's own entries alone |
| Removal.RemovePathAt | crates/stratodb/src/txn/write.rs:602-620 | removal at any path leaves exactly the tree removal's result, editing the blob when the path ends inside one |
| Removal.RemoveDenotes | crates/stratodb/src/txn/write.rs:602-620 | a removal reports what the document shows at the path and leaves the document without that subtree |
| Removal.ReadAfterRemove | crates/stratodb/src/tree.rs:534-561 | below the parent the removed name is gone and later list elements have each moved up by one |
| Containers.ClearChildren | crates/stratodb/src/tree.rs:632-667 | a container is emptied under its own key and link; leaves and packed entities refuse, unchanged |
| Containers.ListMove | crates/stratodb/src/tree.rs:565-595 | one element moves to its clamped place, the others keep order and keys; an error changes nothing |
| Containers.ListSwap | crates/stratodb/src/tree.rs:599-628 | two elements change places with their keys; an error changes nothing |
| Elsewhere.PutUntouched | crates/stratodb/src/tree.rs:365-391 | a scalar write leaves every node off its path, and the key of every node above it, as they were |
| Storing.WriteValue | crates/stratodb/src/txn/value.rs:143-163 | writing a value into a cleared place succeeds exactly when the document's update does, on new keys, touching nothing off the path |
| Storing.StoreValue | crates/stratodb/src/txn/value.rs:59-99 | packed or decomposed, storing gives the document with the place cleared and the value set, and fails exactly when that does; one packed entity stands there exactly when packing is allowed, and otherwise nothing is packed at or below the place |
| Storing.StoreAt | crates/stratodb/src/txn/write.rs:104-161 | over an entity that may stay packed the blob alone is replaced: the entity's key survives and the store is the document's update |
| Storing.StoreThenLoad | crates/stratodb/src/txn/value.rs:26-99 | a stored value loads back whole, and paths not comparable with it read as before where the store is the document's update |
| Storing.StoreAfterRemove | crates/stratodb/src/txn/value.rs:59-99 | removing and then storing is storing exactly at a named place or a list's end |
| Storing.MiddleStoreLosesOne | crates/stratodb/src/txn/value.rs:59-99 | storing over the first of three elements loses the second |
| Unpacking.UnpackInvisible | crates/stratodb/src/tree.rs:762-782 | unpacking changes neither the document, nor any key in use, nor anything off the entity, and keeps the entity's key |
| Unpacking.UnpackEntity | crates/stratodb/src/tree.rs:762-782 | spilling the blob's nodes into the table leaves it holding exactly the unpacked tree |
| Lists.SeqMut.InsertAt | crates/stratodb/src/data/seq.rs:211-216 | appending and moving inserts before the index or at the end; the others keep key and order, and all off the list is as before |
| Lists.SeqMut.Retain | crates/stratodb/src/data/seq.rs:338-354 | removing failing positions back to front keeps exactly the passing elements, in order, keys included |
| Lists.SeqMut.SwapRemove | crates/stratodb/src/data/seq.rs:289-303 | returns the element and puts the last one in its place; past the end it returns nothing and changes nothing |
| Lists.SeqMut.Drain | crates/stratodb/src/data/seq.rs:357-366 | returns the range's values and cuts it out; it fails, unchanged, exactly when the range runs past the end |
| Lists.SeqMut.RemoveRange | crates/stratodb/src/data/seq.rs:224-232 | removing one position over and over cuts out the range as far as it exists |
| Lists.AllFailing | crates/stratodb/src/data/seq.rs:338-354 | removing all failing positions from the back leaves the passing elements in order |
| EditRuns.RunDenotes | crates/stratodb/src/tree.rs:360-667 | a whole run of tree operations is refused exactly when the same run on a plain value is, and denotes its result |
| EditRuns.RunEdits | crates/stratodb/src/tree.rs:360-667 | a run on a store, on either writable backend, ends in the tree and the document the run says |
| EditRuns.RunBoth | crates/stratodb/src/engine/backend.rs:122-168 | one run on a flat table and on an inline one that hold the same tree: both go through or neither, and afterwards every read agrees |
| Backends.HoldsSameReads | crates/stratodb/src/engine/backend.rs:66-113 | two backends holding one packed-free tree answer every node and link read alike |
| Backends.ArchiveAgrees | crates/stratodb/src/engine/archived.rs:162-187 | an archive's fetch of a node or of a link agrees with the inline table its blob decodes to |
| Walks.ScanFrom | crates/stratodb/src/engine/archived.rs:189-215 | a scan from a parent's lower bound yields stored links in ascending order, all of that parent's among them, on every backend |
| Blobs.LookupAgrees | crates/stratodb/src/engine/archived.rs:108-116 | binary search over the sorted nodes finds exactly the decoded table's node under each key |
| Blobs.IntoBlob | crates/stratodb/src/engine/backend.rs:234-271 | packing a table sorts its nodes into a well-formed blob that decodes to the table again, an empty table to an empty object |
| ScalarCodec.DecodeEncode | crates/stratodb/src/data/scalar.rs:177-363 | reading back any stored scalar gives it |
| OrderedRuns.OrderedBytesOrder | crates/stratodb/src/index/ordered.rs:190-200 | escaped byte strings order as the strings do and neither is a prefix of another |
| OrderedRuns.SignedIntOrder | crates/stratodb/src/index/ordered.rs:224-245 | sign class and length-prefixed magnitude order all integers by value |
| Rationals.RationalOrder | crates/stratodb/src/index/ordered.rs:336-367 | by cross-multiplication: a smaller rational encodes below a larger one, and equal values, reduced or not, encode alike |
| Rationals.TermsCanonical | crates/stratodb/src/index/ordered.rs:301-327 | the first term is the floor, every later one at least one and the last of several at least two |
| KeyBuffers.ContinuedFraction | crates/stratodb/src/index/ordered.rs:301-327 | Euclid's loop with truncating division, corrected to the floor, ends with exactly the canonical terms |
| Decimals.DecimalOrder | crates/stratodb/src/index/ordered.rs:253-294 | the bodies of finite decimals order by value, whatever trailing zeros they carry |
| Ordered.FloatOrder | crates/stratodb/src/index/ordered.rs:170-178 | float keys compare as the total order of section 5.10 of IEEE 754-2019 does |
| ScalarOrder.KnownFloats | crates/stratodb/src/index/ordered.rs:170-178 | the shapes are binary32 and binary64: their smallest subnormal, one, two and infinity stand where IEEE 754-2019 puts them |
| Ordered.KeyOrder | crates/stratodb/src/index/ordered.rs:73-147 | scalar keys compare exactly as scalars do, either direction, equal only for equal values, and no key is a proper prefix of another |
| Ordered.BigFloatOrder | crates/stratodb/src/index/ordered.rs:52-66 | big floats order by signed value: negative infinity below every finite one, negatives below zero below positives, positive infinity above, NaN on top |
| Ordered.NullFirst | crates/stratodb/src/index/ordered.rs:27-31 | null, which a missing column reads as, comes before every other scalar, and last where the column descends |
| KeyBuffers.KeyBuffer.PutScalar | crates/stratodb/src/index/ordered.rs:73-147 | the in-place encoder appends exactly the scalar's key, complemented when descending |
| KeyBuffers.KeyBuffer.PutRational | crates/stratodb/src/index/ordered.rs:336-367 | the parity-inverted encoder appends exactly the rational's body |
| Columns.EncodeColumns | crates/stratodb/src/index/definitions/index.rs:100-107 | the buffer loop yields the columns' keys one after the other |
| Columns.ColumnOrder | crates/stratodb/src/index/definitions/index.rs:100-107 | composite keys compare byte by byte as tuples do column by column, each in its direction |
| Columns.PrefixMatches | crates/stratodb/src/index/definitions/index.rs:100-107 | a shorter tuple's key is a prefix of a longer one's exactly when the leading columns agree, and otherwise differs before it ends |
| TableKeys.DecodeEncode | crates/stratodb/src/engine/table_key.rs:78-178 | an encoded key reads back as itself |
| TableKeys.EncodeDecode | crates/stratodb/src/engine/table_key.rs:116-178 | only encodings decode, each to the key it encodes |
| TableKeys.BlockOrder | crates/stratodb/src/engine/table_key.rs:53-72 | nodes come first, then links, then entries of indexes that are not unique, then those of unique ones |
| TableKeys.FieldOrder | crates/stratodb/src/engine/table_key.rs:229-267 | the field-wise order is the byte order exactly on pairs that do not cross |
| TableKeys.CrossedPair | crates/stratodb/src/engine/table_key.rs:229-267 | a pair of valid keys the two orders compare differently |
| Patterns.CoversMeansBelow | crates/stratodb/src/index/pattern.rs:82-92 | the depth test holds exactly when some place strictly below the base matches the pattern |
| Patterns.Walk | crates/stratodb/src/index/pattern.rs:106-152 | the pruned walk appends the keys of exactly the live matching places on the scope's line, once each |
| Patterns.AffectedEntities | crates/stratodb/src/index/pattern.rs:97-104 | the affected entities are exactly the matching places above, at or below the scope, once each |
| PatternText.PathIsPattern | crates/stratodb/src/index/pattern.rs:40-68 | a path's text, read as a pattern, matches the paths that agree with it everywhere but at names `*` standing alone, where any one segment will do |
| PatternText.ChildrenPattern | crates/stratodb/src/index/pattern.rs:40-68 | a path's text followed by `/*` selects exactly the children of that path |
| PatternText.TopPatterns | crates/stratodb/src/index/pattern.rs:40-68 | `*` alone selects everything one step below the root, and no text the root itself |
| Caches.Lru.Get | crates/stratodb/src/cache.rs:69-84 | a hit makes its key the most recently used and keeps the others' order, a miss changes nothing |
| Maintenance.ColumnReadsDocument | crates/stratodb/src/tree.rs:788-804 | a column reads the document's leaf unless it lies inside a packed entity strictly below the indexed one |
| Maintenance.Delete | crates/stratodb/src/index/maintenance.rs:32-40 | exactly the affected entities' present entries go, and no other index's |
| Maintenance.Insert | crates/stratodb/src/index/maintenance.rs:81-114 | the affected entities' entries are put in, and it fails exactly when a unique entry would name two entities |
| Maintenance.BracketKeeps | crates/stratodb/src/txn/write.rs:449-466 | deleting before and inserting after a mutation keeps an index exact if entities off the line are left alone |
| Maintenance.UniqueMeansUnique | crates/stratodb/src/index/maintenance.rs:100-114 | in an exact unique index no two entities have the same columns |
| Maintenance.EmptyRootEntry | crates/stratodb/src/index/pattern.rs:106-118 | an exact index holds an entry for a missing node only over the root of an empty table |
| Scans.DeleteAll | crates/stratodb/src/index/maintenance.rs:51-76 | one forward scan removes every entry of the dropped index and no other key |
| Scans.ScanPrefix | crates/stratodb/src/txn/read.rs:450-486 | seeking to the lower bound and stopping at the first mismatch finds every matching entry, in key order, and no other |
| Brackets.RemoveBrackets | crates/stratodb/src/txn/write.rs:602-620 | a removal, shifting list elements, leaves every entity off its line selected and unchanged under a pattern without later positions |
| Positions.SteadyExactly | crates/stratodb/src/index/pattern.rs:97-152 | every removal keeps an index exact if and only if its pattern names no list position past the first |
| Positions.StaleRemoval | crates/stratodb/src/index/pattern.rs:97-152 | for every other pattern: a sound table, an exact index and a removal after which the bracket leaves it wrong |
| IndexSets.ClashMeansTwins | crates/stratodb/src/index/maintenance.rs:81-114 | the bracket meets a clash exactly when the mutated table has two entities under one entry |
| TableRuns.StepKeeps | crates/stratodb/src/txn/write.rs:449-466 | every mutation, index creation and index drop keeps all indexes exact and ids distinct |
| TableRuns.RunKeeps | crates/stratodb/src/txn/write.rs:449-466 | in every state of every single-writer run the indexes are exact, and a dropped id never comes back |
| TableRuns.RunDenotes | crates/stratodb/src/txn/write.rs:449-466 | the document at the end of a run is the run's own result on a plain value |
| IndexedTables.IndexedTable.PutScalar | crates/stratodb/src/txn/write.rs:512-521 | succeeds exactly when the tree takes the scalar and no unique index gets twins; indexes stay exact |
| IndexedTables.IndexedTable.Remove | crates/stratodb/src/txn/write.rs:602-620 | succeeds exactly when no unique index gets twins, reports what was there, and keeps indexes exact |
| IndexedTables.IndexedTable.Clear | crates/stratodb/src/txn/write.rs:598-600 | succeeds exactly on a plain container with no twins after it, and keeps indexes exact |
| IndexedTables.IndexedTable.EnsureContainer | crates/stratodb/src/txn/write.rs:580-582 | a bracketed container is made only where the tree allows it, and indexes stay exact |
| IndexedTables.IndexedTable.Store | crates/stratodb/src/txn/value.rs:59-99 | succeeds exactly when the document takes the value and no unique index gets twins; the result is the document's update, packed exactly where no pattern reaches below the place |
| IndexedTables.IndexedTable.StoreEntity | crates/stratodb/src/txn/write.rs:104-161 | the same for a typed store, which keeps a packed entity's key when it overwrites it, and packs exactly where no pattern reaches below |
| IndexedTables.IndexedTable.StoreRoot | crates/stratodb/src/txn/value.rs:62-68 | storing at the root is a run of single steps ending in the value, node by node; it fails only where some step would give a unique index twins |
| IndexedTables.IndexedTable.CreateIndex | crates/stratodb/src/table.rs:82-106 | back-fills an exact index, or leaves all unchanged: it succeeds exactly for a same definition, or a new name without twins and with an id left |
| IndexedTables.IndexedTable.DropIndex | crates/stratodb/src/table.rs:209-229 | the named index goes with every entry it holds and no other |
| Queries.ScanIsResult | crates/stratodb/src/txn/read.rs:450-486 | the entities behind the scanned entries are the brute-force answer, in column order, then entity-key order |
| Queries.ExecuteQuery | crates/stratodb/src/txn/read.rs:256-319 | a query returns exactly the entities a search of the whole tree would, at or under the root, in index order or reversed |
| DocumentIndexes.ReadsExactly | crates/stratodb/src/txn/write.rs:166-170 | an index selects the document's entities and reads its columns if and only if no packed entity hides one |
| DocumentIndexes.NothingBelow | crates/stratodb/src/txn/write.rs:166-170 | nothing is hidden while pattern and columns of the definition go below no packed entity |
| DocumentIndexes.ResultReadsDocument | crates/stratodb/src/txn/read.rs:256-319 | then a query's result is every place the document shows that answers, in the order of the document's columns |
| DocumentIndexes.NestedColumnHidden | crates/stratodb/src/tree.rs:788-804 | a table packing allows, where the document shows a column and the index reads null |
| DocumentIndexes.LateIndexMisses | crates/stratodb/src/table.rs:74-106 | an index made after the packing, over what a packed entity holds, selects none of it though the document shows a place of its pattern |
| Caches.Lru.Put | crates/stratodb/src/cache.rs:87-98 | a put replaces or adds one entry as the most recently used; a full map drops the one entry whose last use is the earliest |
| Caches.OrderIsRecency | crates/stratodb/src/cache.rs:69-98 | after any run of lookups and puts the keys stand in the order of their last use, the earliest first, and are no more than the capacity |
| Caches.StepKeeps | crates/stratodb/src/txn/write.rs:402-419 | every step of readers, writers, schema changes and evictions keeps snapshots and generations matched and cached entries true |
| Caches.HitIsOwnWalk | crates/stratodb/src/table.rs:45-64 | in every interleaving a hit, path or blob, is what the reader's own snapshot gives |
| Caches.LockIsNeeded | crates/stratodb/src/db/inner.rs:47-50 | with nobody waiting for the version lock, a run serves one snapshot's resolution to a reader of another |
| Caches.LookupPath | crates/stratodb/src/txn/read.rs:324-339 | a cached lookup returns the snapshot's own walk and changes the cache by steps of the protocol alone |
| Caches.LookupChild | crates/stratodb/src/txn/read.rs:383-403 | the cached one-hop lookup returns the walk of the child's whole path |
| Caches.PackedBlob | crates/stratodb/src/txn/read.rs:202-222 | the cached blob is the snapshot's own |
| Caches.PutIsStep | crates/stratodb/src/cache.rs:87-98 | a put into the path cache is at most one eviction and one step of the protocol |
| Registries.RegistryRoundTrip | crates/stratodb/src/index/registry/repository.rs:22-71 | a stored registry is read back as it was |
| Registries.Repository.Has | crates/stratodb/src/index/registry/repository.rs:109-136 | reading names alone finds exactly the registered ones, as lookup does |
| Registries.Repository.Create | crates/stratodb/src/index/registry/repository.rs:163-194 | a new name is registered exactly while an id and a record's place are left in 32 bits, under an id never given before; the same definition changes nothing, and another of its name is a mismatch |
| Registries.Repository.Delete | crates/stratodb/src/index/registry/repository.rs:143-159 | exactly the named record goes, and the allocator stays where it is |
| Registries.Reader.ReadDefName | crates/stratodb/src/index/definitions/index.rs:58-72 | stepping over a definition for its name reads the name the whole definition has and ends where it ends |
| Schemas.CreateIndexOn | crates/stratodb/src/table.rs:82-106 | it succeeds exactly for a recorded definition, which changes nothing, or for a new name whose pattern reads, whose entities no unique index confuses and with room in 32 bits; another definition of the name is a mismatch; record and back-fill together or neither |
| Schemas.EnsureIndexOn | crates/stratodb/src/table.rs:140-164 | a recorded name is left as it is whatever its definition; any other succeeds exactly where creating it would |
| Schemas.DropIndexOn | crates/stratodb/src/table.rs:209-229 | record and entries go together, and no other table's records change |
| KeyGenerator.MixInjective | crates/stratodb/src/key.rs:40-49 | the finaliser is one to one on 64-bit words |
| KeyGenerator.KeysDistinct | crates/stratodb/src/key.rs:57-64 | from any seed the first 2^63 keys are pairwise distinct |
| KeyGenerator.HalvesDiffer | crates/stratodb/src/key.rs:57-64 | a key's halves differ, so none is the root key |
| KeyGenerator.KnownKey | crates/stratodb/src/key.rs:40-64 | the first key from the seed 1234567 is the two outputs splitmix64 is known for |
| KeyGenerator.KeyRng.GenerateMany | crates/stratodb/src/key.rs:40-64 | any run of up to 2^63 generated keys repeats none and never yields the root key |
| PathText.ParsePrint | crates/stratodb/src/path/spath.rs:172-216 | a path's text reads back exactly when its names are non-empty, free of slashes and brackets, not dots, and its positions fit 64 bits |
| PathText.PrintStable | crates/stratodb/src/path/spath.rs:172-216 | printing an accepted text's path and reading it again changes nothing |
| PathText.PositionText | crates/stratodb/src/path/spath.rs:193-216 | a further position is printed in brackets as its digits, none leading zero but 0 itself |
| PathText.NameText | crates/stratodb/src/path/spath.rs:193-216 | a further name is printed behind a slash, the first one without |
| PathText.DotsNormalise | crates/stratodb/src/path/functions.rs:18-50 | a dot-dot segment drops the last segment and cannot rise above the root, and a dot changes nothing |
| PathText.TokenAccepted | crates/stratodb/src/path/functions.rs:18-50 | every name free of slashes and brackets and not dots, or none, with bracketed 64-bit numerals after it is accepted as that name and those positions |
| PathText.OnlySpelled | crates/stratodb/src/path/functions.rs:18-50 | no other token but the dots is accepted |
| PathText.PushIsToken | crates/stratodb/src/path/spath.rs:58-66 | pushing a name is reading it as one more token |
| Utf8.NameOrder | crates/stratodb/src/engine/table_key.rs:229-267 | names compare as their UTF-8 bytes do |
| Utf8.KnownTexts | crates/stratodb/src/engine/table_key.rs:78-92 | two of the examples in section 7 of RFC 3629 |

## Left out

- The storage engine is an ordered map with snapshots, the archive library a faithful container of sorted nodes with disjoint leaf spans, big integers mathematical integers; their internals, file opening and the format version are not part of this model.
- The derive crate, typed accessors and views, and JSON, YAML and Base64 export: thin delegation and printers.
- The index-set cache and its schema counter: each write is taken to see the committed registry.
- Batch stores, sequential or parallel: a loop of single stores.
- Mutex poisoning, error texts, the width of machine sizes, and the wrap of the 64-bit generation counter.
- Error paths inside one open transaction, where containers made on the way may stay: nothing is promised of them.
- Stores and container creation whose base lies strictly inside a packed entity: the code would link children beside a blob that cannot show them, and contracts ask that no packed entity be in the way.
- Storing.StoreValue: asks, where the value is decomposed, for a named place or a list's end. At a middle position the code writes into whatever has moved up into the place, which may be a container of either kind; what that leaves is not modelled.
- Storing.StoreAt: the same, but for a packed entity overwritten in place, which is covered anywhere.
- IndexedTables.IndexedTable.Store: covers named places and list ends, where the store is the document's update; `Storing.StoreAfterRemove` says what it is elsewhere.
- IndexedTables.IndexedTable.Remove: asks, below the root, that no pattern name a later list position; `Positions.SteadyExactly` says why.
- `fetch_mut`, list moves and list swaps within index runs: they skip maintenance. Their tree laws are in `Unpacking`, `Containers` and `Lists`.
- Entry names `.` and `..`, which a pushed name normalises away: value stores ask for other names.
- String leaves are byte runs: that a decoded string is valid UTF-8 is not checked here. Names and registry texts are real UTF-8.
- Rationals are compared as given; reduction to lowest terms by the number library is not part of this model.
- Index entries are kept in a map of their own, so that the node block and the index block of one table never meet is taken from the key's leading byte rather than modelled as one map.
