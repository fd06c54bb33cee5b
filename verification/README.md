# VecLite in Dafny

A model of VecLite, an embedded vector database (crates/veclite), and proofs about it. What is modelled, module by
module:

- `Slots`, `Collections`: the slot store of a collection, with tombstones, the read-only base tier, batches,
  compaction and sealing marks. The class `CollectionData` is proved against the functions of `Slots`.
- `Filters`, `FilterLaws`, `PayloadIndex`, `Numbers`: payload filters, their indexes, and the integer-to-`f64` cast that
  filters compare by.
- `Search`, `Ranking`, `Sorting`, `Queries`: the scans, the over-fetching graph search, the filter planner and the whole
  query. The graph is a parameter: any answer of live or dead nodes is allowed, and an exact one is a hypothesis where
  named.
- `Scroll`, `ScrollRuns`: one page, and whole scrolls with any writes between their pages.
- `Fusion`, `Sparse`, `Postings`: hybrid ranking, sparse lanes and their sealed form.
- `Refit`, `FittedRefit`: refitting of text collections with any embedder whose fit depends on the corpus, and with the
  embedders modelled here, whose fits are shown to.
- `Chunker`, `Vocabulary`, `Embedders`, `Bm25`, `TfIdf`, `GramSchmidt`: text chunks and trainable embedders. A text is
  its list of tokens.
- `Registry`, `Effects`, `Recovery`, `Crashes`, `Aliases`: names, ids, aliases and the journal; every operation as a
  step that journals first, what it does, and replay.
- `Checkpoint`, `Progress`, `AliasRuns`, `Idempotence`: runs of the whole database with checkpoints, vacuums and crashes
  anywhere.

Vectors and scores are over the reals. The clock, the graph's randomness, `sqrt` (by its law) and `ln` are parameters.
"Exact" runs keep to sparse lanes that have entries and to creations that do not declare a key with two kinds; the
other runs are compared up to those two things, which sealing and replay blur.

Where the code falls short of what its documentation says, the model follows the code, and a lemma gives the input and
the exact condition:

- Indexes promise a superset of every filter's matches: `PayloadIndex.SupersetIffConforming`.
- Recovery promises the registry of the live database: aliases of a collection renamed or dropped since they were set
  are resolved wrongly (`Aliases.AliasesRecoverIff`, `AliasRuns.ReopeningAliasesIff`).
- A refused creation must leave no trace: it leaves a file that cannot be opened (`Crashes.ReopensIff`,
  `Checkpoint.OpensIff`).
- Acknowledged writes survive a crash: not those made after an unfinished entry was found at the end of the journal
  (`Checkpoint.FileShowsIff`, `Checkpoint.LostWriteExample`).
- Replay over a file that holds the journal already is idempotent: `Idempotence.IdempotentIff`.
- Carried-forward segments are current: not on the base tier after a write (`Checkpoint.ReuseAfterSealIff`).
- A scroll covers every live vector exactly once: an upsert of its cursor makes it skip what was still to come
  (`ScrollRuns.StartMovesIff`, `ScrollRuns.CompleteIff`), a deletion of its cursor followed by a compaction makes it
  begin anew (`ScrollRuns.LostCursorRepeatsIff`); other writes leave the promise intact (`ScrollRuns.ExactlyOnce`).
- The chunker guarantees progress: it stops at some windows (`Chunker.CoversIff`).
- A sealed lane comes back: not one without entries (`Postings.RoundTripIff`).

## Model

| member | source | states |
|---|---|---|
| `Recovery.FreshReadsLast` | crates/veclite/src/filter/index.rs:128-136 | the declarations of a creation: the last kind given for a key stays |
| `PayloadIndex.PayloadIndexes.Declare` | crates/veclite/src/filter/index.rs:139-145 | adds an empty index for a new key and says so; a known key is left as it is |
| `PayloadIndex.PayloadIndexes.Insert` | crates/veclite/src/filter/index.rs:199-211 | the slot joins the posting of the value it carries, in every declared index and nowhere else |
| `PayloadIndex.PayloadIndexes.Remove` | crates/veclite/src/filter/index.rs:214-226 | the slot leaves the posting of the value it carries in every declared index; the posting stays, possibly empty |
| `PayloadIndex.PayloadIndexes.Candidates` | crates/veclite/src/filter/index.rs:232-307 | the intersection of what the answerable `must` conditions select; none when no condition is answerable |
| `PayloadIndex.InsertKeepsCoherence` | crates/veclite/src/filter/index.rs:54-72 | after an insert each posting set is still exactly the slots whose payload carries the value |
| `PayloadIndex.RemoveKeepsCoherence` | crates/veclite/src/filter/index.rs:74-99 | the same after clearing a slot |
| `PayloadIndex.DeclareBackfillCoherent` | crates/veclite/src/collection.rs:1572-1585 | a late declaration filled from the stored payloads is as coherent as an early one |
| `PayloadIndex.ConformingIsCovered` | crates/veclite/src/filter/index.rs:228-271 | when the stored values conform to the declared kinds, integers being ones whose `f64` no other `i64` has, the candidates contain every slot the whole filter matches |
| `PayloadIndex.CandidatesExact` | crates/veclite/src/filter/index.rs:228-271 | there are candidates exactly when some `must` condition has an index that can answer it; they match all of those, and where stored values conform they are all that do |
| `FilterLaws.BooleanLaws` | crates/veclite/src/filter/mod.rs:273-279 | `must` is conjunction, `must_not` negation, a `should` that is not empty disjunction |
| `FilterLaws.EachClause` | crates/veclite/src/filter/mod.rs:273-279 | what each clause is, condition by condition; an empty one holds |
| `FilterLaws.BoundsAreSides` | crates/veclite/src/filter/mod.rs:128-133 | each bound is one side of the number line, `gt` and `lte` split it, so do `gte` and `lt`, and only numbers are in a range |
| `FilterLaws.BoundsExample` | crates/veclite/src/filter/mod.rs:128-133 | concrete: a stored integer is above what is one less, below what is one more, and at least and at most itself |
| `FilterLaws.ValidateIff` | crates/veclite/src/filter/mod.rs:281-298 | a filter is valid exactly when it reads no key with a dot, at any depth |
| `PayloadIndex.SupersetIffConforming` | crates/veclite/src/filter/index.rs:228-307 | the documented superset claim holds for all filters if and only if every stored value under an indexed key conforms to its kind; an integer under an integer index conforms when its `f64` is its own |
| `PayloadIndex.IntegerIndexMissesFloat` | crates/veclite/src/filter/index.rs:54-72 | concrete failure: an integer index does not hold `2024.0`, which the filter `2024` matches |
| `PayloadIndex.IntegerIndexMissesTwin` | crates/veclite/src/filter/mod.rs:53-61 | concrete failure: the filter `9007199254740992` matches a stored `9007199254740993`, which the integer index holds under its own value only |
| `Numbers.AloneIff` | crates/veclite/src/filter/mod.rs:57-60 | an `i64` shares its `f64` with no other `i64` if and only if it is below 2^53 in size, or below 2^54 and 2 more than a multiple of 4 (round to nearest, ties to even) |
| `Slots.UpsertRefines` | crates/veclite/src/collection.rs:2094-2125 | an upsert keeps the representation invariant, drops the old version of the point from the live list and appends the new one |
| `Slots.DeleteRefines` | crates/veclite/src/collection.rs:2074-2090 | a delete keeps the invariant and removes exactly that id from the live list |
| `Slots.UpsertAllRefines` | crates/veclite/src/collection.rs:874-879 | a batch of upserts acts on the live list as the same writes one after the other |
| `Slots.DeleteAllRefines` | crates/veclite/src/collection.rs:905-927 | a batch of deletes likewise |
| `Slots.PutIsMapUpdate` | crates/veclite/src/collection.rs:2094-2125 | seen as a map from id to point, the last writer of an id wins and every other id keeps its point |
| `Slots.UpsertedFacts` | crates/veclite/src/collection.rs:2094-2125 | the new slot is the next one and reads the inserted vector; older slots keep their vectors; exactly the old slot of the id dies |
| `Slots.GetReadsList` | crates/veclite/src/collection.rs:883-895 | the id table and the live list name the same ids, and looking an id up reads its point |
| `Slots.SlotsPartition` | crates/veclite/src/collection.rs:932-938 | live slots and tombstones partition all slots, and `len` counts the live points |
| `Slots.ReindexRefines` | crates/veclite/src/collection.rs:954-991 | rebuilding the graph over live slots keeps the invariant, the live list and the tombstones |
| `Slots.CompactRefines` | crates/veclite/src/collection.rs:1795-1856 | compaction keeps the live points in order, leaves no tombstone and keeps the declared indexes |
| `Slots.DeclareRefines` | crates/veclite/src/collection.rs:1572-1585 | declaring an index changes the declarations and nothing else |
| `Collections.PrepareIdempotent` | crates/veclite/src/collection.rs:582-656 | over the reals, validation and cosine normalization leave an accepted point alone the second time, also under the laxer replay rules |
| `Collections.PrepareAllIdempotent` | crates/veclite/src/collection.rs:673-689 | over the reals, the points replay prepares are those the live path prepared |
| `Collections.CollectionData.VectorAt` | crates/veclite/src/collection.rs:228-247 | reads the vector of a slot from the tier that holds it |
| `Collections.CollectionData.Get` | crates/veclite/src/collection.rs:883-895 | answers the point stored under an id, or none |
| `Collections.CollectionData.Len` | crates/veclite/src/collection.rs:932-938 | the number of live points |
| `Collections.CollectionData.LivePoints` | crates/veclite/src/collection.rs:1460-1475 | the live points in slot order |
| `Collections.CollectionData.Tombstone` | crates/veclite/src/collection.rs:2074-2090 | the store after a delete, and whether the id was there |
| `Collections.CollectionData.ApplyUpsert` | crates/veclite/src/collection.rs:2094-2125 | the store after an upsert: invariant kept, live list updated |
| `Collections.CollectionData.UpsertBatch` | crates/veclite/src/collection.rs:582-689 | accepted exactly when every point keeps the rules (an id of 1 to 512 bytes, the dimension, no reserved payload key and no lane of one's own on an auto-embed collection except internally, a sorted lane, no zero vector under cosine); else nothing changes and the answer is about the first point that breaks one. Then every id of the batch has its last version, as given or under cosine of unit length in the same direction, and every other id what it had |
| `Collections.PrepareMeans` | crates/veclite/src/collection.rs:582-656 | one point: accepted exactly when it keeps the rules, and stored as given or normalized |
| `Slots.PutAllIsMap` | crates/veclite/src/collection.rs:874-879 | a batch as a map update: the last version of each of its ids, every other id as before |
| `Collections.CollectionData.DeleteBatch` | crates/veclite/src/collection.rs:905-927 | the ids are gone, and the count is how many points went |
| `Collections.CollectionData.Reindex` | crates/veclite/src/collection.rs:954-991 | the graph is rebuilt over exactly the live slots, except for dot products and an unindexed base; the points stay |
| `Collections.CollectionData.Compact` | crates/veclite/src/collection.rs:1795-1856 | no tombstones, no base tier, nothing to carry forward, the same live points in order, a graph except for dot products |
| `Collections.CollectionData.ApplyDeclareIndex` | crates/veclite/src/collection.rs:1572-1585 | an index added late is filled from the live payloads and the store marked dirty; a known key is a no-op |
| `Collections.CollectionData.CreatePayloadIndex` | crates/veclite/src/collection.rs:1527-1558 | rejects bad keys and conflicting kinds, accepts a repeated declaration, otherwise declares |
| `Collections.CollectionData.InstallBase` | crates/veclite/src/collection.rs:1599-1688 | a loaded base tier is a valid store: dead slots are tombstones, postings and graph cover the live ones; there is a graph exactly when the file says so and the metric has one |
| `Collections.CollectionData.MarkSealed` | crates/veclite/src/collection.rs:1718-1726 | records the committed references, clears the dirty mark, changes no point |
| `Ranking.BestScores` | crates/veclite/src/collection.rs:1417-1423 | ranking and cutting any best-of selection gives the scores of ranking everything |
| `Ranking.RankedIsTop` | crates/veclite/src/collection.rs:1417-1423 | and gives a true top-`limit` |
| `Ranking.TopScoresUnique` | crates/veclite/src/collection.rs:1417-1423 | every true top-`limit` shows the same scores |
| `Search.BruteForce` | crates/veclite/src/collection.rs:1880-1897 | the exact scores of all live slots, in slot order |
| `Search.FilteredScan` | crates/veclite/src/collection.rs:1949-1968 | the exact scores of all live slots the filter matches, in slot order |
| `Search.ScoreCandidates` | crates/veclite/src/collection.rs:1974-1996 | the same scan restricted to the candidate slots |
| `Search.AmongCovers` | crates/veclite/src/collection.rs:1974-1996 | the restricted scan equals the full one if and only if no matching slot is missing from the candidates |
| `Search.KeptBest` | crates/veclite/src/collection.rs:2040-2060 | with an exact graph the survivors of an over-fetch are a best-of selection of the full scan, when there are `limit` of them or all there are |
| `Search.KeptFills` | crates/veclite/src/collection.rs:2040-2060 | with any graph as many survivors are as many distinct live matches, so they fill the limit when there are enough |
| `Search.OverfetchSuffices` | crates/veclite/src/collection.rs:1389-1401 | counting: among `limit` neighbours and one more for every tombstone, `limit` are live or all live points are there |
| `Search.OverfetchIsBest` | crates/veclite/src/collection.rs:1389-1401 | so with an exact graph the first `limit` live ones of them are a best-of selection of all live slots |
| `Search.OverFetch` | crates/veclite/src/collection.rs:1389-1401 | the over-fetch: distinct live slots at most `limit`; with an exact graph exactly the smaller of `limit` and the live count, the best ones, so the scan that follows an under-return is never taken |
| `Search.PostFilter` | crates/veclite/src/collection.rs:2030-2065 | the growing over-fetch ends; success means `limit` matches, the best ones if the graph is exact, and giving up on an exact graph means there are fewer than `limit` |
| `Search.FilteredPlanner` | crates/veclite/src/collection.rs:2013-2070 | whichever of pre-filter, post-filter and scan is taken: enough distinct live matches when the indexes cover the filter, the best ones from an exact graph |
| `Search.PlainSearch` | crates/veclite/src/collection.rs:1372-1412 | unfiltered search fills the limit from any graph and is a true best-of from an exact one |
| `Queries.ExecuteQuery` | crates/veclite/src/collection.rs:1289-1440 | a whole query: exactly which are refused and how; else hits of distinct live matches with payload and vector as asked for, at most `limit`, similarities never increasing and distances never decreasing. When stored values conform there are the smaller of `limit` and the number of matches of them; from an exact graph or none their scores are those of the stored vectors, and no omitted match has a higher similarity or a smaller distance |
| `Search.DistanceReadsBack` | crates/veclite/src/collection.rs:1864-1875 | a distance from the graph turned back into a score is the score |
| `Sparse.ValidSparseIff` | crates/veclite/src/point.rs:70-86 | validation accepts exactly parallel arrays with sorted unique indices |
| `Sparse.Validate` | crates/veclite/src/point.rs:70-86 | the loop decides that |
| `Sparse.MergeDot` | crates/veclite/src/point.rs:93-108 | the two-pointer merge is the sum over shared indices |
| `Sparse.SparseFromDense` | crates/veclite/src/collection.rs:410-427 | the lane of the non-zero components, absent exactly for a zero vector, always valid |
| `Sparse.LaneDotIsDense` | crates/veclite/src/collection.rs:410-427 | the dot product of two lanes is the dense dot product of the vectors |
| `Effects.UpsertDoes` | crates/veclite/src/collection.rs:673-689 | succeeds exactly when every point keeps the rules, else changes and journals nothing; then each id of the batch is live with what is stored for its last version, every other id and collection is as before, and the journal grew by one entry with that id and batch |
| `Effects.DeleteDoes` | crates/veclite/src/collection.rs:905-927 | succeeds exactly when the collection is there; then none of the ids is live, all else is as before, one entry |
| `Effects.IndexDoes` | crates/veclite/src/collection.rs:1527-1558 | succeeds exactly for keys that are not empty, reserved or paths and keep their kind; then the key has the kind, all else is as before, and it is journaled if it is new |
| `Effects.CreateDoes` | crates/veclite/src/database.rs:670-737 | succeeds exactly when name, dimension, provider and graph parameters are allowed and the name is free; then the collection is there, empty, with the declared indexes, under a fresh id, and nothing else changed; where only the graph parameters are wrong it is journaled all the same |
| `Effects.DropDoes` | crates/veclite/src/database.rs:887-918 | succeeds exactly when the name is there; then the collection is gone, no lookup leads to it, and the others are as before |
| `Effects.RenameDoes` | crates/veclite/src/database.rs:920-952 | succeeds exactly when the new name is allowed and free and the old one there; then every lookup that led to the old name finds the same collection under the new one |
| `Effects.AliasDoes` | crates/veclite/src/database.rs:814-848 | succeeds exactly when the alias is allowed and free and the target there; then a lookup of it finds the target and every other lookup is as before |
| `Effects.UnaliasDoes` | crates/veclite/src/database.rs:850-875 | succeeds exactly when the alias is set; then a lookup of it finds a collection of that name or nothing, and every other lookup is as before |
| `Effects.NowhereDoes` | crates/veclite/src/collection.rs:673-689 | writing to a collection that is not there is refused and changes nothing |
| `Effects.UpsertSurvives` | crates/veclite/src/database.rs:294-371 | anywhere in an exact run: after an upsert that succeeded on a file that can be read to its end, a crash leaves the file with the last version of each id of the batch |
| `Recovery.ReplayStep` | crates/veclite/src/database.rs:184-285 | replaying an entry changes the visible collections exactly as the entry means |
| `Recovery.ReplayRefines` | crates/veclite/src/database.rs:589-592 | replaying an admissible journal never fails and gives it its meaning |
| `Recovery.StepRefines` | crates/veclite/src/database.rs:670-952 | every operation changes the visible collections as the entries it journaled mean: exactly, or up to index kinds for a creation that declares a key first with one kind and last with another |
| `Recovery.CreationMeans` | crates/veclite/src/database.rs:704-725 | the entries of a creation mean one new collection with its indexes declared in turn |
| `Recovery.CreationKindsAgreeIff` | crates/veclite/src/database.rs:714-725 | a creation and its replay declare the same indexes if and only if no key is declared first with one kind and last with another |
| `Recovery.ReplayKeepsKeyed` | crates/veclite/src/database.rs:184-285 | any entry, admissible or not, leaves names and ids consistent |
| `Recovery.StepKeepsWf` | crates/veclite/src/database.rs:670-952 | whatever the operation: names match keys, ids are distinct and below the next one (aliases: `Aliases.StepKeepsAliases`) |
| `Crashes.RunRefines` | crates/veclite/src/database.rs:670-952 | memory and journal agree over every run of operations, exactly or up to index kinds as above |
| `Crashes.WholeJournal` | crates/veclite/src/database.rs:589-593 | reopening after a complete journal shows the collections of the live database: id, own aliases, points in order, indexes (what an alias resolves to: `Aliases.ReplayedMapIff`) |
| `Crashes.CrashRecovery` | crates/veclite/src/database.rs:184-285 | cut anywhere, also inside a creation, the journal replays and shows the collections after the last journaled operation, or after the first entries of one creation |
| `Crashes.ReopensIff` | crates/veclite/src/database.rs:704-734 | after any run the journal replays if and only if no creation of the run passed the early checks with graph parameters out of bounds |
| `Crashes.RefusedCreationExample` | crates/veclite/src/database.rs:704-734 | concrete failure: a creation refused with an error leaves a journal that cannot be replayed |
| `Aliases.LookupIff` | crates/veclite/src/database.rs:798-812 | in a consistent registry a lookup finds exactly the collection of that name, else the one that lists it as an alias |
| `Aliases.StepKeepsAliases` | crates/veclite/src/database.rs:670-952 | whatever the operation and whether it succeeds: an alias resolves to a name exactly when that collection is there and its own list has the alias |
| `Aliases.RunKeepsAliases` | crates/veclite/src/database.rs:670-952 | so after any run |
| `Aliases.ReplayKeepsGrants` | crates/veclite/src/database.rs:214-268 | whatever the journal, replay resolves an alias to the name its collection had when the alias was set, also when the collection was renamed or dropped since |
| `Aliases.AliasesRecoverIff` | crates/veclite/src/database.rs:184-285 | wherever the journal of a run is cut, replay resolves aliases to the collections that list them if and only if no collection is renamed to another name or dropped after an alias in force was set for it |
| `Aliases.ReplayedMapIff` | crates/veclite/src/database.rs:589-592 | after a whole journal the replayed alias map is the live one under exactly that condition |
| `Aliases.RenameLosesAlias` | crates/veclite/src/database.rs:226-238 | concrete failure, from any state: after a rename and a reopen the collection's alias names nothing; deleting it answers success, journals nothing and leaves it listed; a new collection under the old name gets it |
| `Aliases.DropKeepsAlias` | crates/veclite/src/database.rs:214-225 | concrete failure, from any state: after a drop and a reopen the alias is still taken, and setting it again is refused |
| `Idempotence.ReplayedSteps` | crates/veclite/src/database.rs:184-285 | what replaying any readable entry does to the collections by id, also one that gives a collection a name another one holds |
| `Crashes.JournalFresh` | crates/veclite/src/database.rs:701-737 | in the journal of any run a collection is created before anything else is said about its id |
| `Idempotence.LiveSettled` | crates/veclite/src/database.rs:184-285 | what the journal wrote to a collection is settled in it: writing it again over the live state changes nothing |
| `Idempotence.SecondReplayAgrees` | crates/veclite/src/persist/mod.rs:363-369 | replaying a whole journal over the table it led to never fails; every collection it still has is as the run left it, alias lists as sets, and the lists are exactly the old ones with the journal's words on aliases said once more |
| `Idempotence.IdempotentIff` | crates/veclite/src/persist/mod.rs:363-386 | replay over a file that already holds the journal is idempotent with alias lists as sets if and only if, replaying names alone, no collection loses its place; with alias lists as lists if and only if besides, every alias the journal sets on a collection it also deletes there, unless replay creates the collection anew |
| `Idempotence.IdempotentWithoutReuse` | crates/veclite/src/persist/mod.rs:363-386 | it is idempotent, alias lists as sets, whenever the journal gives no name to two collections |
| `Idempotence.CommitWindow` | crates/veclite/src/persist/mod.rs:321-386 | in every reachable state of an exact run, a checkpoint or vacuum that crashes after the new file is in place and before the journal is dropped reopens, invents nothing, and loses nothing, as sets and as lists, exactly under those conditions |
| `Idempotence.LostCollection` | crates/veclite/src/database.rs:222-235 | concrete failure: two renames of one collection and one of another to the name in between lose a collection in that window |
| `Checkpoint.LoadedShows` | crates/veclite/src/database.rs:90-175 | loading a file gives the collections its table of contents describes, names, ids, alias lists, points and indexes |
| `Checkpoint.WithPointsFollows` | crates/veclite/src/collection.rs:2094-2125 | an upsert marks the store dirty or changed nothing, and keeps its points as validation leaves them, sparse lanes without entries included |
| `Checkpoint.CheckpointKeepsInv` | crates/veclite/src/database.rs:341-371 | a checkpoint keeps the invariant and changes nothing visible in memory; the file then shows the same, up to sparse lanes without entries |
| `Checkpoint.VacuumKeepsInv` | crates/veclite/src/database.rs:411-426 | so does a vacuum, which invalidates all old references |
| `Progress.CheckpointPossible` | crates/veclite/src/database.rs:341-371 | a checkpoint can be made in every state |
| `Progress.VacuumPossible` | crates/veclite/src/database.rs:411-426 | so can a vacuum |
| `Progress.CheckpointSettles` | crates/veclite/src/database.rs:341-371 | right after a checkpoint another one has nothing to do |
| `Progress.VacuumLeavesNoTombstones` | crates/veclite/src/database.rs:411-426 | after a vacuum no collection has a tombstone or a base tier |
| `Progress.AnyCrashReopens` | crates/veclite/src/database.rs:558-607 | wherever a run is, a crash may leave any part of the journal that holds no refused creation, with or without an unfinished entry, and the file opens |
| `Checkpoint.ReopenKeepsInv` | crates/veclite/src/database.rs:558-607 | so does a crash that loses any part of the journal, with or without an unfinished entry left behind, and the reopening after it |
| `Checkpoint.OperateKeepsInv` | crates/veclite/src/database.rs:670-952 | so does every operation, also a refused creation, clashing index kinds and blank lanes |
| `Checkpoint.CarryForwardSound` | crates/veclite/src/collection.rs:1695-1712 | in every reachable state references offered for reuse decode to the current declared indexes and live points; the points are the same exactly when no live lane is blank |
| `Checkpoint.ToSeal` | crates/veclite/src/database.rs:310-333 | what a checkpoint takes from a store, references or live points and declarations, is its content of this moment; references are taken exactly when allowed, nothing changed, and there are some |
| `Checkpoint.NothingIsLost` | crates/veclite/src/database.rs:294-371 | in every reachable state with no refused creation in the journal and no unfinished entry before it, the file opens and shows every collection as memory did: exactly in exact runs, else up to blank lanes and index kinds |
| `Checkpoint.OpensIff` | crates/veclite/src/database.rs:558-606 | in every reachable state the file opens if and only if its journal holds no creation with graph parameters out of bounds |
| `Checkpoint.TornTailLosesWrites` | crates/veclite/src/storage/wal.rs:154-194 | what is written after reopening behind an unfinished entry, up to the next commit, is not read again: the file keeps showing what it showed at that reopening |
| `Checkpoint.TornBySome` | crates/veclite/src/storage/wal.rs:154-238 | an unfinished entry at the end of the journal was left there by a reopening, with neither commit nor reopening since |
| `Checkpoint.FileShowsIff` | crates/veclite/src/storage/wal.rs:154-238 | in every reachable state with a readable journal the file shows what memory shows if and only if the journal does not end in an unfinished entry, or nothing visible changed since the reopening that left it there |
| `Checkpoint.LostWriteExample` | crates/veclite/src/storage/wal.rs:154-238 | concrete failure: a creation after such a reopening succeeds and is in memory, and the file does not have it |
| `AliasRuns.AliasesResolve` | crates/veclite/src/database.rs:558-952 | over runs with checkpoints, vacuums and crashes: as long as no reopening went wrong, aliases resolve to the collections that list them |
| `AliasRuns.ReopeningAliasesIff` | crates/veclite/src/database.rs:130-135 | and a reopening goes right if and only if the journal it reads renames and drops no collection after an alias in force was set for it |
| `Checkpoint.ReuseAfterSealIff` | crates/veclite/src/collection.rs:1695-1726 | the references a checkpoint committed are the ones reused next if and only if there is no base tier or no write since the load |
| `Checkpoint.SecondCheckpointCommitsLoad` | crates/veclite/src/collection.rs:1695-1726 | on the mapped tier the second checkpoint after a write commits the state as loaded |
| `Checkpoint.StaleBaseExample` | crates/veclite/src/collection.rs:1695-1726 | concrete instance: one upsert and one checkpoint, and the references offered next lack the upsert |
| `Postings.SparseToPostings` | crates/veclite/src/persist/seal.rs:33-45 | the inverted index of the lanes: per term the slots and weights in slot order |
| `Postings.PostingsToSparse` | crates/veclite/src/persist/seal.rs:51-76 | the fold that rebuilds lanes from postings |
| `Postings.PostingsRoundTrip` | crates/veclite/src/persist/seal.rs:29-76 | inverting twice gives every slot its lane back, an empty lane as no lane |
| `Postings.RoundTripIff` | crates/veclite/src/persist/seal.rs:29-76 | the round trip is the identity if and only if no lane is present but empty |
| `Refit.DoRefit` | crates/veclite/src/collection.rs:816-870 | the live points after a refit |
| `Refit.RefitShape` | crates/veclite/src/collection.rs:816-870 | text documents move behind the others in their order; the others stay |
| `Refit.RefitKeeps` | crates/veclite/src/collection.rs:816-870 | every id and payload is kept, points without text are unchanged, each document gets its embedding under the whole corpus |
| `Refit.CorpusIsTexts` | crates/veclite/src/collection.rs:820-841 | the corpus is the texts of the documents in their order |
| `Refit.RenewedMeans` | crates/veclite/src/collection.rs:394-404 | a document embedded again has the embedding of its text as ingest stores it, or the first unit vector where that is zero, with the lane of its components |
| `Refit.RefitIdempotent` | crates/veclite/src/collection.rs:816-870 | a second refit changes neither points nor order |
| `FittedRefit.RefitByBm25` | crates/veclite/src/collection.rs:816-870 | refit with the default embedder: the points it leads to, and that a further refit changes nothing, whatever the embedder has folded in by then |
| `FittedRefit.Bm25Fit` | crates/veclite/src/embedding/bm25.rs:187-197 | after a fit embeddings are a function of the corpus alone: nothing of an earlier state is left |
| `FittedRefit.TfIdfFit` | crates/veclite/src/embedding/tfidf.rs:82-172 | likewise |
| `FittedRefit.CountFit` | crates/veclite/src/embedding/bow.rs:39-95 | likewise |
| `Scroll.PageIsRange` | crates/veclite/src/collection.rs:1069-1091 | a page is the live matches from its start up to where the next one resumes, `limit` of them if there is a next one, which there is only if a match is left |
| `Scroll.Scroll` | crates/veclite/src/collection.rs:1041-1096 | which arguments are refused; else the page after the cursor, its points, and the id of the last one when more matches follow |
| `ScrollRuns.BaseNewestIff` | crates/veclite/src/collection.rs:1599-1631 | in a loaded base no later slot carries the id of a live one if and only if no empty id stands before a dead slot, so never where ids are not empty, as the code argues for the empty ids it gives dead slots |
| `ScrollRuns.StoresAreNewest` | crates/veclite/src/collection.rs:2074-2125 | so in a collection that began empty or from a base without empty ids, after any upserts, deletes, compactions, rebuilds and declarations |
| `ScrollRuns.CompactionFacts` | crates/veclite/src/collection.rs:1795-1856 | a compaction keeps every live version in order and forgets every other slot |
| `ScrollRuns.NextStart` | crates/veclite/src/collection.rs:1060-1068 | after any writes: the next page starts right behind the cursor's version, behind everything older than its upsert, or at the beginning, as the writes left the cursor alone, upserted it, or deleted and compacted it away |
| `ScrollRuns.StartMovesIff` | crates/veclite/src/collection.rs:1060-1068 | for any writes short of a compaction: the next page starts at the same slot if and only if none of them upserts the cursor's id; otherwise it holds only slots that were not there before, so every match still to come is missed |
| `ScrollRuns.ReturnedIff` | crates/veclite/src/collection.rs:1036-1096 | over a whole scroll with any writes between its pages that loses no cursor: no version is returned twice, and of what matches in the end exactly the versions skipped behind an upserted cursor are missing |
| `ScrollRuns.ExactlyOnce` | crates/veclite/src/collection.rs:1036-1040 | where no cursor is upserted, or deleted and compacted away: every point live and matching in the end was returned, and no version twice |
| `ScrollRuns.CompleteIff` | crates/veclite/src/collection.rs:1036-1040 | a scroll that loses no cursor returns everything if and only if nothing live and matching in the end lay between where a page stopped and the upsert of its cursor |
| `ScrollRuns.UpsertedCursorSkips` | crates/veclite/src/collection.rs:1060-1068 | when a cursor is upserted, whatever else is written, nothing that lay behind its page is returned by any page |
| `ScrollRuns.LostCursorRepeatsIff` | crates/veclite/src/collection.rs:1060-1068 | when a cursor is deleted and compacted away the page begins anew, and repeats something if and only if an earlier match is still there |
| `ScrollRuns.UnchangedScroll` | crates/veclite/src/collection.rs:1036-1096 | without writes the pages joined are the matching live points in slot order |
| `ScrollRuns.SkippedExample` | crates/veclite/src/collection.rs:1060-1068 | concrete failure: two points, pages of one, the first upserted in between, and the second is never returned |
| `ScrollRuns.RepeatedExample` | crates/veclite/src/collection.rs:1060-1068 | concrete failure: three points, pages of two, the second deleted and the collection compacted in between, and the first is returned twice |
| `Fusion.Fuse` | crates/veclite/src/collection.rs:1231-1256 | fusion: scored ids of both lanes, each once, strictly ordered by score, dense rank and id, the best `limit` |
| `Fusion.ScoreIsShares` | crates/veclite/src/collection.rs:1240-1249 | a score is `alpha` over the constant plus the place in the dense lane, and the rest of one over the constant plus the place in the sparse lane; a lane without the id adds nothing |
| `Fusion.FusedInOrder` | crates/veclite/src/collection.rs:1250-1256 | higher scores first, at the same score earlier dense places, at the same place the smaller id |
| `Fusion.DenseLeads` | crates/veclite/src/collection.rs:1240-1255 | an id ahead in the dense lane and not behind in the sparse lane scores ahead |
| `Fusion.SparseLeadsIff` | crates/veclite/src/collection.rs:1240-1255 | among ids that only the sparse lane has its order decides if and only if it has weight |
| `Fusion.LeaderFirst` | crates/veclite/src/collection.rs:1250-1256 | in a fused list an id that leads another so is in front of it |
| `Chunker.ChunksAreSound` | crates/veclite/src/chunk.rs:58-92 | every chunk is the slice its range names, within the window width, on code point boundaries, trimmed and not empty |
| `Chunker.CoversIff` | crates/veclite/src/chunk.rs:58-108 | every character that is not whitespace lies in a chunk if and only if no window the chunker meets is one it cannot leave (by the guard of `StuckIff`) with such a character still to come |
| `Chunker.StuckIff` | crates/veclite/src/chunk.rs:65-80 | a window cannot be left exactly when its first code point does not fit it, or is its only break and more than one byte wide |
| `Chunker.NarrowIsCovered` | crates/veclite/src/chunk.rs:58-108 | text whose code points fit the window and whose whitespace is ASCII is covered |
| `Chunker.NothingChunked` | crates/veclite/src/chunk.rs:69-104 | concrete failures: a code point wider than the window, or a window that opens with three-byte whitespace, and nothing is chunked |
| `Chunker.Chunked` | crates/veclite/src/chunk.rs:58-108 | the clamped options and the loop of windows compute those chunks: those of windows of which each ends at its last break or boundary, and the next starts at the first boundary that repeats at most `overlap` bytes of it, or at its end if it is not longer than that |
| `Chunker.WindowsVisit` | crates/veclite/src/chunk.rs:58-104 | the windows visited are such, up to the end of the text or one that cannot be left |
| `Embedders.Tally` | crates/veclite/src/embedding/bm25.rs:70-85 | term counts and document frequencies of a corpus are exact |
| `Embedders.ChooseTerms` | crates/veclite/src/embedding/bm25.rs:94-98 | the heaviest terms in order, ties by term, as many as fit |
| `Embedders.HeaviestUnique` | crates/veclite/src/embedding/bm25.rs:94-98 | there is only one such list, whatever order a hash map yields its terms in |
| `Embedders.FitKeepsFrequent` | crates/veclite/src/embedding/bow.rs:39-54 | a fit keeps the terms that occur most, in that order, ties by their bytes |
| `Words.StrLeqIff` | crates/veclite/src/embedding/bm25.rs:94-98 | that order of terms: a prefix first, else by the first character that differs |
| `Embedders.TermCounter.AddDocument` | crates/veclite/src/embedding/bow.rs:76-90 | the unseen terms join the vocabulary in order while there is room, and it stays one of the documents seen |
| `Embedders.TermCounter.Embed` | crates/veclite/src/embedding/bow.rs:56-70 | the normalized term counts at the places of the terms |
| `Embedders.EmbeddingMeans` | crates/veclite/src/embedding/bow.rs:56-70 | an embedding has unit length or is zero, and its coordinates are in the ratio of the occurrences of their terms |
| `Embedders.CountersAgree` | crates/veclite/src/embedding/bow.rs:76-95 | where every term fits, adding documents and fitting on all of them give all pairs of texts the same similarity, and every text the same coordinate at each term's place |
| `Embedders.FirstComeIsNotBest` | crates/veclite/src/embedding/bow.rs:76-95 | concrete difference where they do not fit: the first term seen keeps the place a fit gives to the more frequent one |
| `Vocabulary.IndexesStay` | crates/veclite/src/embedding/bm25.rs:105-110 | a term in the vocabulary keeps its index when documents are added |
| `Bm25.Bm25.Fit` | crates/veclite/src/embedding/bm25.rs:187-197 | after a fit vocabulary, frequencies, lengths and average are those of the corpus |
| `Bm25.Bm25.AddDocument` | crates/veclite/src/embedding/bm25.rs:110-133 | adding a document keeps every vocabulary term's document frequency, the count and the average exact over all documents seen |
| `Bm25.Bm25.Embed` | crates/veclite/src/embedding/bm25.rs:151-181 | the normalized scores under those exact statistics |
| `Bm25.EmbeddingMeans` | crates/veclite/src/embedding/bm25.rs:151-181 | an embedding has unit length or is zero; a coordinate is positive exactly when the document has the term; of two terms as frequent in the document the one in fewer documents has the larger coordinate |
| `Bm25.RarerWeighsMore` | crates/veclite/src/embedding/bm25.rs:135-148 | the same of the raw weights |
| `Bm25.MoreWeighsMore` | crates/veclite/src/embedding/bm25.rs:135-148 | more occurrences weigh more in a document of the same length |
| `Bm25.LongerWeighsLess` | crates/veclite/src/embedding/bm25.rs:135-148 | as many occurrences weigh less in a longer document |
| `Bm25.RareExample` | crates/veclite/src/embedding/bm25.rs:135-148 | concrete weights: `ln 2` for a term in one of two documents, `ln 1.2` for one in both, times 20/23 |
| `Bm25.IncrementalIsBatch` | crates/veclite/src/embedding/bm25.rs:105-110 | where every term fits, incremental updates and a batch fit agree in statistics, similarities and coordinates |
| `TfIdf.TfIdf.AddDocument` | crates/veclite/src/embedding/tfidf.rs:46-71 | adding a document keeps all document frequencies exact and brings every weight up to date |
| `TfIdf.TfIdf.Embed` | crates/veclite/src/embedding/tfidf.rs:142-159 | the normalized term shares times those weights |
| `TfIdf.EmbeddingMeans` | crates/veclite/src/embedding/tfidf.rs:142-159 | an embedding has unit length or is zero; a coordinate is positive exactly when the document has the term and not every document does; of two terms as frequent in the document the rarer one has the larger coordinate |
| `TfIdf.ShareWeighs` | crates/veclite/src/embedding/tfidf.rs:127-159 | a larger share of the document weighs more |
| `TfIdf.FitPrefers` | crates/veclite/src/embedding/tfidf.rs:82-125 | a fit prefers the more frequent of terms as rare, and the rarer of terms as frequent |
| `TfIdf.RareExample` | crates/veclite/src/embedding/tfidf.rs:142-159 | concrete weights: half of `ln 2` for a term in one of two documents, nothing for one in both |
| `TfIdf.IncrementalIsBatch` | crates/veclite/src/embedding/tfidf.rs:42-71 | where every term fits, incremental updates and a batch fit agree |
| `GramSchmidt.Orthogonalize` | crates/veclite/src/embedding/svd.rs:70-79 | a vector loses its components along all previous rows, and differs from what it was by a combination of them |
| `GramSchmidt.FitProjection` | crates/veclite/src/embedding/svd.rs:61-87 | the rows are pairwise orthogonal, each of unit length or zero, and every starting row is a combination of those up to its own |
| `GramSchmidt.Embed` | crates/veclite/src/embedding/svd.rs:101-108 | an embedding is the coordinates along the rows |
| `GramSchmidt.EmbeddingNotLonger` | crates/veclite/src/embedding/svd.rs:95-108 | embedding and what it leaves out add up in squared length, so it is never longer than what it embeds |

## Left out

- Collections.PrepareIdempotent: is over the reals; in `f32` a second normalization can change the last bits, and the
  checks for finite components and for payload and batch sizes are not modelled.
- Collections.PrepareAllIdempotent: the same for a batch.
- Collections.CollectionData.Len: does not answer 0 for a handle of a dropped collection; handles are not modelled.
- Collections.CollectionData.UpsertBatch: leaves out the journal append between validation and application (it is in
  `Registry.Step`) and the finiteness and size checks.
- Collections.CollectionData.Reindex: leaves out quantization codes.
- Collections.CollectionData.Compact: leaves out quantization codes.
- Fusion.Fuse: excludes a negative integer as the fusion constant, for which the code divides by zero and ranks by the
  infinity it gets.
- Checkpoint.LoadedShows: is about collections loaded into memory; the mapped base tier is `InstallBase`, and runs of
  the whole database have no collection on it.
- Checkpoint.CarryForwardSound: holds of runs without the mapped tier, where `Checkpoint.SecondCheckpointCommitsLoad`
  shows it to fail.
- Idempotence.CommitWindow: is about exact runs, with no refused creation and no unfinished entry in the journal, and
  about the collections and their own alias lists; what an alias resolves to after any replay is
  `Aliases.ReplayKeepsGrants`.
- AliasRuns.AliasesResolve: says nothing after a reopening that got an alias wrong.
- Refit.DoRefit: leaves out embedders that fail and the vocabulary record in the journal.
- Refit.RefitIdempotent: takes an embedder whose fit depends on the corpus alone; that of the modelled ones does
  (`FittedRefit`), a custom or SVD embedder may not.
- Queries.ExecuteQuery: leaves out the refit of stale text before the search, the guard against handles of dropped
  collections and the check for finite components.
- Recovery.ReplayStep: is about the collections and their own lists; the map that resolves aliases is in `Aliases`.
- Recovery.ReplayRefines: the same.
- Recovery.StepRefines: the same.
- Crashes.RunRefines: the same.
- Crashes.WholeJournal: the same.
- Crashes.CrashRecovery: the same.
- Checkpoint.NothingIsLost: the same; over runs it is in `AliasRuns`.
- Idempotence.ReplayedSteps: the same.
- Idempotence.IdempotentWithoutReuse: compares alias lists as sets; as lists see `Idempotence.IdempotentIff`.
- ScrollRuns.CompleteIff: is about scrolls whose pages all read one open collection; a reopening between two pages is
  not modelled.
- Embedders.TermCounter.Embed: is over the reals and tokens; tokenization, n-gram extraction and the saved state of an
  embedder, also one saved by an older version, are not modelled.
- GramSchmidt.FitProjection: starts from any rows; the hash-seeded pseudo-random ones are not computed, and rounding is
  not modelled.
- Interleavings of threads and the locks that order them: every operation is one step.
- Byte formats: the journal's record encoding and checksums, segment and table-of-contents layout, compression. A torn
  or lost part of the journal is a shorter list of entries.
- The graph index itself, its parameters beyond their bounds, and quantization.
- The sparse lane's own ranking before fusion (`sparse_ranked`) and the text entry points of hybrid queries.
- Automatic checkpoints by journal size and automatic vacuums, which are checkpoints and vacuums between operations.
- Snapshots, file images (`serialize`, `deserialize`), interoperability, read-only opening, recall measurement, and the
  language bindings.
