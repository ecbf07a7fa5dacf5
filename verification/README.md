# A verified model of the document store

This project models, in Dafny 4.11, the core of a small document server: named collections of JSON
documents on SQLite, optionally with vectors and a full-text index, with declared references between
collections; around it a token-bucket rate limiter, a builder of SQL queries, a two-stage vector
search, bearer tokens, rotating backups and request metrics.

`dafny verify dfyconfig.toml` checks everything.

## How the model is layered

The store is modelled three times, each layer proved to refine the one above it.

1. `Catalogs` gives each operation its one-shot meaning on a *catalogue*: collections by name with
   their documents, id counter and index, and the declared references. `Integrity` and `Runs` state
   what every run keeps, `Ids` what becomes of ids and `Cycles` of the reference graph. `Meanings`
   writes out, document by document, what each operation leaves; `Cascade`, `BulkInserts`, `Renames`
   and `Export` compare operations.
2. `Runs` also describes every *outcome* of a call, including those of a call that stops between two
   of its commits. `Run` is a sequence of requests from the empty store, each with any outcome.
3. `Physical` is the database itself: a registry, the declarations, and tables in one flat namespace
   that ignores case. `Abs` reads a catalogue out of it. `Store.VecStore` is the server's store as a
   class: its methods work on the physical tables statement by statement, with loops and commits
   where the code has them, and any statement, commit or embedding call may fail. Each method is
   proved to have one of the outcomes of layer 2, and `ServeAll` proves that serving any list of
   requests is a `Run`. So the lemmas about runs speak about the class.

With `reliable` set, no statement fails; every request then gives exactly the verdict and the state
of its specification, except that a delete does so from a state with integrity.

The limiter, the backup directory and the metrics are classes too, each tied to a function on values
about which the laws are proved. The query builder's methods assemble text and arguments separately;
`Bind` puts arguments into placeholders by position, and `QueryMeaning` reads the bound SQL back into
conditions, order and bounds, and gives a search the results its clauses allow.

## Where the code and its documentation differ

The model follows the code.

- A refused delete need not be without effect: `set_null` declarations visited before the one that
  refuses have been carried out and committed. `Cascade.RefusalIsSilentIff` says exactly when a
  refusal is silent; `Cascade.RefusalWithEffectReached` reaches a state where it is not.
- Dropping a collection leaves its declarations, and those that point at it, in
  `collection_references`. For the documents: a drop keeps every reference field valid if and only if
  no document of another collection refers into the dropped one (`Integrity.DropKeepsRefsIff`). Over
  a whole run every reference field is valid in every state if and only if every step with an effect
  was harmless (`Runs.RunKeepsRefsIff`), and all steps are but such a drop and a rename to a name
  under which declarations were left that the documents do not satisfy
  (`Renames.RenameBreaksReferenceReached` reaches one). For the reference graph: a drop can be
  followed by a rename that makes a cycle if and only if some declaration mentions the dropped
  collection (`Cycles.DropThenRenameMakesCycleIff`); `Runs.ReferenceGraphAcyclic` is about runs whose
  drops are of unmentioned collections.
- A rename is an isomorphism if no declaration mentions the new name. Renaming back restores the store
  if and only if that is so (`Renames.RenameBackIff`). After an unrestricted drop it need not be: every
  insert commutes with the rename if and only if nothing left behind gets in its way
  (`Renames.InsertsCommuteIff`), and `Renames.RefusedAfterRenameReached` reaches a rename after which
  an insert that was accepted is refused.
- A bulk insert validates all items before it inserts any. It agrees with single inserts on all
  batches if and only if the collection does not refer to itself (`BulkInserts.BulkAgreesIff`): so in
  every run whose drops are of unmentioned collections (`BulkInserts.BulkAgreesInRuns`), and not in a state that a drop and
  a rename reach (`BulkInserts.SelfReferencingBatch`).
- A comment says that a sort order changes only the presentation of what a search selected. It also
  decides which rows are returned. `Search.SortReturnsAnotherDocument` shows it on two documents. For
  an unfiltered search and any field, sorting by it in either direction leaves the set of results
  alone if and only if the table has no more rows than the limit (`Search.SortKeepsResultsIff`). The
  candidates of a reranked search do not depend on the order (`Search.RerankCandidatesIgnoreSort`).
  Full-text search makes the same promise, and the first page of its matches keeps it if and only if
  there are no more matches than the limit (`FullText.SortKeepsFirstPageIff`).
- A bare field name as a filter key means equality only if the name has no double underscore in it
  (`QueryBuilder.BareKeyMeansEquality`).
- That pruning idle buckets cannot be noticed depends on the figures. For all figures the constructor
  takes it holds if and only if the burst is at least one, the rate is not negative, and a drained
  bucket refills within the maximal age (`RateLimits.PruningUnobservableIff`). The deployed figures
  meet this.

## Model

| member | source | states |
|---|---|---|
| `Store.VecStore.constructor` | vecdb.go:44-90 | A new store is empty and meets its invariant. |
| `Store.VecStore.GetCollection` | collections.go:401-419 | Finds a registered collection; not-found exactly for an unregistered name, unless a statement fails. |
| `Store.VecStore.GetDocumentByID` | collections.go:379-397 | The stored row of the id, or not-found when there is none. |
| `Store.VecStore.GetReferences` | collections.go:206-225 | Exactly the declarations of the collection. |
| `Store.VecStore.ValidateReferences` | collections.go:261-300 | Accepts data if and only if every declared field is null or the integer id of an existing document of its target. |
| `Store.VecStore.InsertDocument` | collections.go:543-598 | Every result and state an insert can have: full effect, refusal without effect, or a failure before, or between, its two commits. |
| `Store.VecStore.PlaceItems` | collections.go:640-690 | The statements of a batch inside one transaction produce exactly the fold of single placements, with the same ids in request order. |
| `Store.VecStore.InsertDocumentBulk` | collections.go:613-700 | All of the batch or nothing: ids, rows, index and counter are those of the specification, or the state is unchanged. |
| `Store.VecStore.UpdateDocument` | collections.go:707-771 | Replaces document and index row together or changes nothing; false for an absent id; refuses invalid references; the replacement is written out in Meanings.UpdateMeaning. |
| `Store.VecStore.ReplaceBoth` | collections.go:742-768 | Deleting and inserting both rows in one transaction is replacing them in place. |
| `Store.VecStore.GetReferencesTargeting` | collections.go:236-255 | Each declaration that points at the collection, once, in any order. |
| `Store.VecStore.NullReference` | collections.go:347-363 | One committed step of the cascade nulls exactly one more cell; the inner update fails validation only in a state without integrity. |
| `Store.VecStore.NullAll` | collections.go:347-363 | The inner loop nulls the field in every matching row; on failure, in some of them and nothing else. |
| `Store.VecStore.CarryOut` | collections.go:313-366 | One declaration: refuse if it restricts and matches, otherwise null all matches; a missing collection is skipped. |
| `Store.VecStore.CheckReferentialDelete` | collections.go:307-368 | Ends in exactly all set_null cells nulled and no restrict match, or stops with some of those cells nulled and a true reason. |
| `Store.VecStore.DeleteDocument` | collections.go:778-812 | Every result and state a delete can have, with the nulled cells named; what each leaves, the id counter included, is written out in Meanings.DeleteLeaves. |
| `Store.VecStore.DeclareAll` | collections.go:189-200 | Inserts every declaration, or fails because one of them is taken. |
| `Store.VecStore.MakeTables` | collections.go:157-185 | Creates the main and the full-text table if and only if every name they need, shadow tables included, is free in the flat namespace. |
| `Store.VecStore.CreateCollection` | collections.go:111-203 | Verdict decided by the checks in their order; registers, creates tables and declares references, or changes nothing. |
| `Store.VecStore.RenameCollection` | collections.go:481-520 | Renames the registration and both sides of the declarations, or changes nothing, with the exact verdict. |
| `Store.VecStore.DropCollection` | collections.go:448-472 | Removes both tables and the registration, leaving the declarations. |
| `Store.VecStore.ListDocuments` | collections.go:816-861 | The requested page of the documents that satisfy every filter, in id order or in the order of a field, ties in any order. |
| `Export.UnsortedListingIff` | collections.go:816-838 | A listing without sort is exactly the rows that satisfy every filter, in ascending id order. |
| `Export.SortedListingIff` | collections.go:816-838 | A sorted listing is exactly those rows, each once, arranged by the field. |
| `Export.PageMeaning` | collections.go:816-838 | A page holds the documents at its positions, as many as there are. |
| `Export.Arrange` | collections.go:822-838 | ORDER BY a field: the same rows, in that order. |
| `Store.VecStore.ExportDocuments` | http_collections.go:518-544 | The paging loop ends and returns every document once in id order, also when the count is a multiple of the page size. |
| `Store.VecStore.CheckBatch` | http_collections.go:174-192 | The first batch check that fails, or none. |
| `Export.BatchErrorMeaning` | http_collections.go:174-192 | A batch passes exactly with 1 to 100 items that have the texts they need. |
| `Store.VecStore.HandleInsert` | http_collections.go:124-152 | One step of a run; the verdict and the state of the request, or a failure before, or between, the two commits. |
| `Store.VecStore.HandleBulkInsert` | http_collections.go:158-204 | Exactly the verdict and the state of the request, batch checks included, or a failure without effect. |
| `Store.VecStore.HandleUpdate` | http_collections.go:279-317 | Exactly the verdict and the state of the request, not-found included, or a failure without effect. |
| `Store.VecStore.HandleDelete` | http_collections.go:320-349 | One step of a run, with the verdict of its outcome; without failures and with integrity, exactly the one-shot delete. |
| `Store.VecStore.ServeAll` | collections.go:111-812 | Any list of requests, with any failures, takes the class through a run of the logical store. |
| `Store.InsertRowMeaning` | collections.go:553-575 | The INSERT statement takes the next id or the given one, fails exactly for a taken id, and keeps the collection sound. |
| `Meanings.IsNameIff` | collections.go:41-41 | The pattern of collection and field names. |
| `Meanings.DataValidIff` | collections.go:261-300 | Which data satisfies the declarations of a collection. |
| `Meanings.InsertMeaning` | collections.go:543-598 | One document more, under the id asked for or one more than the counter, with the data as given, indexed in a vector collection; nothing else differs. |
| `Meanings.InsertRefusedIff` | collections.go:543-546 | Refused exactly for invalid references or a taken id, and then nothing changes. |
| `Meanings.BulkRefusedIff` | collections.go:613-700 | When a batch is refused, and that it then changes nothing. |
| `Meanings.InterruptedInsertMeaning` | collections.go:559-584 | Between the two commits everything but the index entry is there. |
| `Meanings.UpdateMeaning` | collections.go:707-771 | The whole document is replaced, no field of the old data survives, and nothing else changes but its index entry. |
| `Meanings.UpdateRefusedIff` | collections.go:707-745 | When an update is refused, or finds no document, and that it then changes nothing. |
| `Meanings.DeleteRefusedIff` | collections.go:313-345 | Refused exactly when some document points at the id through a restrict reference. |
| `Meanings.DeleteLeaves` | collections.go:778-812 | Any delete, also a refused or interrupted one, leaves the id counter, every other document and its data, with pointing set_null fields nulled. |
| `Meanings.DeleteLeavesIndex` | collections.go:784-811 | Index entries of touched documents are renewed, that of the deleted one is gone, and no other changes. |
| `Meanings.MatchesIdIff` | collections.go:325-340 | Which JSON values count as an id in the search for referring documents. |
| `Meanings.CreateAllowedIff` | collections.go:111-149 | The conditions on names, dimensions and references, written out. |
| `Meanings.CreatedMeaning` | collections.go:151-200 | An empty collection of the kind asked for, and for every reference asked for a declaration: set_null only if named so, otherwise restrict; no other declaration changes. |
| `Meanings.RenamedMeaning` | collections.go:501-517 | One collection moves, its declarations and those that point at it go along, and nothing else changes. |
| `Meanings.RenamedCount` | collections.go:509-517 | No declaration is lost or merged by a rename. |
| `Meanings.DroppedMeaning` | collections.go:448-472 | One collection goes, and every declaration stays. |
| `Ids.StepMovesCounter` | collections.go:543-812 | No step takes a counter back, and it moves only to an id just stored. |
| `Ids.CounterIsLargestEver` | collections.go:151-175 | In every state of every run the counter of a collection is the largest id it ever held, through renames and deletes. |
| `Ids.InsertGetsFreshId` | collections.go:553-597 | An insert without id gets one more than the largest id the collection ever held, deleted documents included. |
| `Store.CreateVerdictIff` | collections.go:111-187 | When a collection is created, down to the names of its tables. |
| `Store.CreateVerdictReasons` | collections.go:111-149 | What each refusal means. |
| `Store.RenameVerdictIff` | collections.go:481-517 | When a collection is renamed, and the first reason why not. |
| `Store.RequestsTurnedAwayIff` | http_collections.go:124-317 | When a request is turned away for a missing collection, a missing text or the size of its batch. |
| `Integrity.PlaceAllExtends` | collections.go:640-690 | A placed batch keeps every old document, adds only documents of the batch, and keeps a complete index complete. |
| `Integrity.WriteKeepsRefs` | collections.go:543-546 | A write of validated data that removes no id keeps every reference field of the store valid. |
| `Integrity.NulledKeepsRefs` | collections.go:347-363 | Nulling any set of fields keeps every reference field valid. |
| `Integrity.NulledKeepsSound` | collections.go:347-363 | Nulling any set of fields keeps ids, counters and the index consistent. |
| `Integrity.CascadeLeavesNoReference` | collections.go:307-368 | After an unblocked cascade no declared field of any document holds the id. |
| `Integrity.CascadeKeepsRefs` | collections.go:778-812 | Cascade and removal together keep every reference field valid. |
| `Integrity.CreatedKeepsRefs` | collections.go:133-149 | A new collection keeps every reference field valid, declarations left behind included. |
| `Integrity.CreatedRefsDeclared` | collections.go:133-149 | A new collection points only at older, existing collections. |
| `Integrity.RenameKeepsRefsIff` | collections.go:509-517 | A rename keeps every reference field valid if and only if the documents of the collection satisfy the declarations left under its new name. |
| `Integrity.DropKeepsRefsIff` | collections.go:460-471 | A drop keeps every reference field valid if and only if no document of another collection refers into the dropped one. |
| `Integrity.RenamedRefsDeclared` | collections.go:509-517 | A rename keeps declarations between registered collections, pointing at older ones. |
| `Integrity.RenamedDataValid` | collections.go:509-517 | If nothing left behind gets in the way, the renamed store accepts exactly the data it accepted before. |
| `Integrity.FullTextIsFaithfulIff` | fulltext.go:81-103 | A full-text query never finds a document whose own text does not match, and always finds all that match exactly when every document is indexed. |
| `Runs.InsertKeeps` | collections.go:559-584 | Every outcome of an insert keeps consistency and valid references; the index stays complete except between the two commits. |
| `Runs.BulkKeeps` | collections.go:613-700 | A landed batch keeps consistency, valid references and a complete index. |
| `Runs.UpdateKeeps` | collections.go:735-771 | An update keeps consistency, valid references and a complete index. |
| `Runs.DeleteKeeps` | collections.go:778-812 | Every outcome of a delete, also one stopped half-way, keeps consistency, valid references and a complete index. |
| `Runs.StepUnindexed` | collections.go:559-584 | In any state, a document is unindexed after a request exactly when it was so before and the request has not removed or indexed it, or its insert has just stopped between its commits. |
| `Runs.StepKeepsRefsIff` | collections.go:261-368 | Every request, whatever fails in it, keeps every reference field valid if and only if it is harmless or without effect. |
| `Runs.StepKeepsIndexed` | collections.go:559-584 | A fully indexed collection stays so, whatever the state of the others, except by an insert into it stopped between its commits. |
| `Runs.UpdateRestoresIndex` | collections.go:735-771 | In any state a successful update indexes its document with the new text and changes nothing about the indexing of others. |
| `Runs.UnindexedIff` | collections.go:559-584 | In every state of every run, the documents missing from an index are exactly those whose insert stopped between its commits and that no request has removed or indexed since. |
| `Runs.RunKeepsBornApart` | collections.go:481-520 | Creation times tell collections apart in every reachable state. |
| `Runs.DropKeepsHeldIff` | collections.go:460-471 | From valid references and owned declarations, a drop keeps both if and only if the collection declares nothing and no document refers into it. |
| `Runs.StepKeepsHeld` | collections.go:111-520 | Every other step keeps both. |
| `Runs.RunKeepsConsistent` | collections.go:543-812 | In every reachable state ids stay below the counter and each index is a sub-map of its documents, whatever is dropped. |
| `Runs.RunKeepsIntegrity` | collections.go:261-368 | In every state of a run with only such drops, each non-null reference field holds the id of a document of its target. |
| `Runs.RunKeepsRefsIff` | collections.go:261-368 | Over any run, every reference field is valid in every state if and only if every step with an effect was harmless. |
| `Runs.RunKeepsClosed` | collections.go:133-149 | With drops of unmentioned collections only, every declaration also joins registered collections and points at the older one. |
| `Runs.PathGoesBackInTime` | collections.go:133-149 | Along declared references collections get strictly older. |
| `Runs.ReferenceGraphAcyclic` | collections.go:133-149 | No cycle of references, and no self-reference, is reached by any run whose drops are of unmentioned collections. |
| `Runs.DropThenRenameMakesSelfReference` | collections.go:460-517 | From a state with a reference whose target declares none, dropping its owner and renaming the target produce a self-reference. |
| `Cycles.DropThenRenameMakesCycleIff` | collections.go:460-517 | A drop can be followed by a rename that makes a cycle of references if and only if some declaration mentions the dropped collection. |
| `Cycles.WalkToSink` | collections.go:133-149 | Following references from any collection ends at one that declares none. |
| `Cycles.NamesAreValid` | collections.go:41-41 | Registered names match the pattern in every state of every run. |
| `Cascade.NulledTwice` | collections.go:347-363 | Fields may be nulled in any grouping and order, several in one row included. |
| `Cascade.NullStep` | collections.go:347-363 | The update inside the cascade passes validation in a state with integrity and nulls exactly one more field. |
| `Cascade.MatchedRows` | collections.go:325-340 | A declaration matches the same rows whichever others were carried out before it. |
| `Cascade.CascadedNext` | collections.go:313-366 | Invariant of the outer loop over dependents. |
| `Cascade.CascadeStopped` | collections.go:313-366 | A cascade that stops has nulled set_null fields only; if it was refused, exactly those of the declarations visited before. |
| `Cascade.DeleteRefinesSpec` | collections.go:778-812 | In any visiting order a delete without failures is refused iff a restrict reference points at the id, and otherwise ends in exactly the one-shot result. |
| `Cascade.DeletedMeaning` | collections.go:778-812 | Field by field: the document is gone, matching set_null fields are null, and nothing else has changed. |
| `Cascade.UnfinishedDeleteIsBounded` | collections.go:313-367 | After a refused or interrupted delete no id is lost, only matching set_null fields differ and are null, integrity still holds, and no document leaves an index. |
| `Cascade.RefusalIsSilentIff` | collections.go:313-367 | A refusal surely changes nothing if and only if no set_null field holds the id. |
| `Cascade.RefusalWithEffectReached` | collections.go:313-367 | Creates and inserts reach a state in which a refused delete changes a document. |
| `BulkInserts.LandedBatchIsOneByOne` | collections.go:613-700 | A landed batch has the ids and the state of single inserts in request order, self-references or not. |
| `BulkInserts.OneByOneLands` | collections.go:613-700 | Without a self-reference, a batch lands if its items do one by one. |
| `BulkInserts.BulkRefinesOneByOne` | collections.go:613-700 | Both succeed or neither; same ids, same state; on failure nothing changes. |
| `BulkInserts.BulkAgreesIff` | collections.go:613-700 | Bulk and single inserts agree on all batches if and only if the collection does not refer to itself. |
| `BulkInserts.BulkAgreesInRuns` | collections.go:613-700 | They agree in every state of a run whose drops are of unmentioned collections. |
| `BulkInserts.SelfReferenceReached` | collections.go:460-517 | Two creates, a drop and a rename reach a collection that refers to itself. |
| `BulkInserts.SelfReferencingBatch` | collections.go:613-636 | In a reachable state, a batch that single inserts take and a bulk insert refuses. |
| `Renames.InsertCommutes` | collections.go:481-520 | If nothing left behind gets in the way, an insert on the renamed store: same verdict, renamed result. |
| `Renames.BulkCommutes` | collections.go:481-520 | Likewise for a bulk insert. |
| `Renames.UpdateCommutes` | collections.go:481-520 | Likewise for an update. |
| `Renames.InsertsCommuteIff` | collections.go:481-520 | Every insert commutes with the rename if and only if nothing left behind gets in the way. |
| `Renames.RenamedDataValidIff` | collections.go:481-520 | Every collection accepts the same data before and after under the same condition. |
| `Renames.RenamedCellsOf` | collections.go:509-517 | If no declaration mentions the new name, the restrict and set_null matches of a delete are the renamed ones. |
| `Renames.DeleteCommutes` | collections.go:481-520 | If no declaration mentions the new name, a delete on the renamed store: same verdict, same effects, renamed result. |
| `Renames.RenameBackIff` | collections.go:481-520 | Renaming back restores the store if and only if no declaration mentioned the new name. |
| `Renames.RefusedAfterRename` | collections.go:481-520 | With a declaration left under the new name, some insert that was accepted is refused after the rename. |
| `Renames.RefusedAfterRenameReached` | collections.go:460-520 | Three creates and a drop reach such a state. |
| `Renames.RenameBreaksReferenceReached` | collections.go:460-520 | And, with one insert, a state where the rename breaks a reference field. |
| `Physical.TableWrite` | collections.go:565-575 | A statement on one main table changes that collection only. |
| `Physical.FtsWrite` | fulltext.go:50-62 | A statement on one full-text table changes that collection only. |
| `Physical.CreateAbs` | collections.go:151-200 | Registering and creating tables with free names is the creation of an empty collection, and ownership is kept. |
| `Physical.RenameAbs` | collections.go:474-520 | Tables stay where they are under a rename; the collection only changes its name. |
| `Physical.DropAbs` | collections.go:454-471 | A drop removes both tables and the registration and nothing else. |
| `Physical.TablesAlwaysOwned` | collections.go:151-185 | Over every run of creates, renames, drops and writes each physical table has exactly one owner and each collection its tables. |
| `Physical.NamesAlwaysApart` | collections.go:151-185 | Over every such run no two collections take the same name in the namespace, shadow tables included. |
| `Physical.OwnNamesDiffer` | vendor/github.com/asg017/sqlite-vec-go-bindings/cgo/sqlite-vec.c:3378-3424 | The tables and shadow tables of one collection have different names. |
| `Export.ListingIsComplete` | collections.go:816-861 | The listing contains every document. |
| `Export.NextPage` | http_collections.go:530-541 | A page continues the listing and is short exactly when it ends it. |
| `Export.PlaceDocs` | collections.go:640-690 | Posting documents with new ids stores exactly them, under their ids. |
| `Export.ExportReloadRoundTrip` | http_collections.go:518-544 | Any split of an export into batches of at most 100 rebuilds the same documents under the same ids, all indexed, in an empty collection of the same kind; only the documents of the exported collection need be valid. |
| `Sorting.SortedUnique` | collections.go:816-838 | A set of rows has one ordered listing. |
| `RateLimits.RateLimiter.constructor` | ratelimit.go:32-38 | No buckets, and the given figures. |
| `RateLimits.RateLimiter.Allow` | ratelimit.go:40-62 | Decision and new buckets are those of the lazily refilled bucket. |
| `RateLimits.RateLimiter.ServeAll` | ratelimit.go:40-62 | A history of calls gets the decisions about which the law is proved. |
| `RateLimits.RateLimiter.PruneStale` | ratelimit.go:67-76 | Removes exactly the buckets last used before the cutoff. |
| `RateLimits.AfterPruneIff` | ratelimit.go:67-76 | Which buckets a prune leaves, as they were. |
| `RateLimits.LeastAllowance` | ratelimit.go:40-62 | The bucket holds the least of the allowances counted from each earlier call of the client. |
| `RateLimits.TokenBucketLaw` | ratelimit.go:40-62 | A later call is granted iff, from every earlier call, grants including this one stay within burst + rate * elapsed and burst >= 1; a first call always. |
| `RateLimits.WindowBound` | ratelimit.go:40-62 | No window of length T has more than burst + rate * T grants of one client. |
| `RateLimits.PruningUnobservable` | ratelimit.go:67-91 | If maxAge * rate >= burst, pruning at any times changes no decision for any client. |
| `RateLimits.PruningShows` | ratelimit.go:67-91 | A drained bucket pruned before it would be full again is noticed. |
| `RateLimits.PruningShowsWithoutBurst` | ratelimit.go:67-91 | With a burst below one every prune of a used bucket is noticed. |
| `RateLimits.PruningUnobservableIff` | ratelimit.go:67-91 | For all figures: pruning is unobservable if and only if burst >= 1, rate >= 0 and maxAge * rate >= burst. |
| `RateLimits.DeployedPruningUnobservable` | main.go:18-26 | The deployed figures meet the condition. |
| `QueryBuilder.KeyRoundTrip` | filters.go:46-68 | field__op is read back as that field and operator, even if the field ends in underscores. |
| `QueryBuilder.BareKeyMeansEquality` | filters.go:46-68 | A bare field name means equality iff it has no double underscore. |
| `QueryBuilder.ParseKeyIff` | filters.go:46-68 | For every parameter name, which field and operator it means, or that it is an error. |
| `QueryBuilder.OperatorsAre` | filters.go:15-36 | The SQL word of each filter operator, and the reserved parameters. |
| `QueryBuilder.IntegersAreBoundAsIntegers` | filters.go:75-89 | A printed 64-bit integer is bound as that integer. |
| `QueryBuilder.FilterValueMeaning` | filters.go:75-89 | When a value is bound as a boolean, an integer, a float or a text. |
| `QueryBuilder.ParseFilters` | filters.go:46-68 | An error iff some parameter is malformed; otherwise exactly one condition per value, parameter by parameter in some order. |
| `QueryBuilder.ConjunctionIgnoresOrder` | filters.go:93-104 | The order of the conditions does not matter. |
| `QueryBuilder.BindCounts` | filters.go:93-104 | Text and arguments fit together iff their numbers agree. |
| `QueryBuilder.BindJoins` | filters.go:93-104 | Texts bound to their own arguments may be joined. |
| `QueryBuilder.SortKeyMeaning` | filters.go:116-131 | The sort parameter is a valid field name, after a minus sign for descending order, and nothing else. |
| `QueryBuilder.FilterWhereSQL` | filters.go:93-104 | Positional binding of the generated clause yields the conjunction with each value in its place. |
| `QueryBuilder.OrderBySQL` | filters.go:136-142 | Positional binding yields the requested or the default order. |
| `QueryBuilder.ListQuery` | collections.go:816-838 | As many placeholders as arguments, bound to the listing asked for. |
| `QueryBuilder.FullTextQuery` | fulltext.go:81-103 | As many placeholders as arguments, bound to the full-text search asked for. |
| `QueryBuilder.CoarseQuery` | collections.go:941-970 | The coarse stage of a reranked search, bound. |
| `QueryBuilder.SearchQuery` | collections.go:897-973 | All branches of the search: as many placeholders as arguments, bound to the search asked for. |
| `QueryBuilder.AggregateQuery` | aggregate.go:35-82 | Rejected iff operator or field names are not allowed; otherwise bound to the aggregation asked for, grouped or not. |
| `QueryBuilder.AggregatesAre` | aggregate.go:11-17 | The SQL function of each aggregate operator. |
| `QueryBuilder.AggregateAllowedIff` | aggregate.go:35-48 | Which aggregations are allowed. |
| `QueryMeaning.ConjunctionIsRead` | filters.go:93-104 | Bound conditions read back as the conditions, in order. |
| `QueryMeaning.ClauseSelectsConjunction` | filters.go:46-104 | A generated clause selects exactly the documents that satisfy every filter, in whatever order the filters were found. |
| `QueryMeaning.ListIsRead` | collections.go:816-838 | The bound listing reads back as its conditions, order, limit and offset. |
| `QueryMeaning.HeadsAre` | collections.go:824-832 | What each query selects, and from where. |
| `QueryMeaning.FullTextIsRead` | fulltext.go:81-103 | The bound full-text query reads back as its text, conditions, order, limit and offset. |
| `FullText.FullTextSqlAnswers` | fulltext.go:81-103 | Executing the bound full-text query gives a page of the ranked matches that satisfy the filters. |
| `FullText.FirstPage` | fulltext.go:81-103 | The first page holds the best matches. |
| `FullText.SortKeepsFirstPageIff` | fulltext.go:64-73 | For any field, sorting leaves the set of documents on the first page alone if and only if there are no more matches than the limit. |
| `QueryMeaning.AggregateIsRead` | aggregate.go:50-82 | The bound aggregation reads back as its function, field, group and conditions. |
| `QueryMeaning.SearchIsRead` | collections.go:897-973 | Every form of the bound search reads back as its plan: vector, k, conditions, order and each limit. |
| `QueryMeaning.SearchSqlAnswers` | collections.go:897-973 | Executing the clauses of the generated SQL gives the results of the two-stage search and no others. |
| `Search.TopByExists` | collections.go:922-973 | ORDER BY ... LIMIT always has an answer. |
| `Search.TopByUnique` | collections.go:922-973 | Its answers rank equally, position by position, however ties are broken. |
| `Search.OutcomeRanksCandidates` | collections.go:922-973 | What each of the four queries can return is exactly a ranking of the accepted ones among some nearest rows by Hamming distance. |
| `Search.FieldOrderIsPreorder` | filters.go:136-142 | The order of json_extract values, either way, is total and transitive. |
| `Search.FieldValuesOrder` | filters.go:136-142 | The order of field values: null, numbers by value, texts. |
| `Search.FieldDirections` | filters.go:136-142 | Descending is ascending the other way round. |
| `Search.ResultsAreSound` | collections.go:867-881 | Every result satisfies the filters and is among the nearest rows; at most limit of them. |
| `Search.RerankIsExact` | vecdb.go:333-364 | A reranked search returns the true nearest distances among all accepted rows whenever the true answer survives every coarse stage. |
| `Search.SmallTableIsExact` | collections.go:934-973 | With at most 8 * limit rows the result is filter, then rank, over the whole table. |
| `Search.RerankCandidatesIgnoreSort` | collections.go:938-941 | What a sorted reranked search returns is a ranking of the candidates that the same search has without a sort order. |
| `Search.SortKeepsResultsIff` | collections.go:867-870 | For an unfiltered search and any field, sorting by it leaves the set of results alone if and only if the table has no more rows than the limit. |
| `Search.SortReturnsAnotherDocument` | collections.go:867-870 | Two documents and a limit of one: sorted, the search returns the other document. |
| `Base64.RoundTrip` | auth.go:59-70 | Unpadded URL-safe base64 (section 5 of RFC 4648): decoding undoes encoding. |
| `Base64.NoSeparator` | auth.go:59-63 | The alphabet has neither dot nor colon. |
| `Base64.DecodesIff` | auth.go:70-77 | For every string, whether it decodes, and to how many bytes. |
| `Base64.LeftoverBitsAreIgnored` | auth.go:70-77 | Bits that make no whole byte do not matter. |
| `Base64.AlphabetIs` | auth.go:59-63 | The letters of the alphabet (section 5 of RFC 4648). |
| `Decimal.FormatRoundTrip` | auth.go:59-95 | A printed 64-bit integer parses back. |
| `Decimal.ParseIntIff` | auth.go:87-90 | For every string: exactly the spellings of the integers in range are read, as a sign, leading zeros and the printed number. |
| `Tokens.TokenRoundTrip` | auth.go:59-95 | A token gives back username and role up to and including its expiry and is refused as expired at every later time. |
| `Tokens.AcceptedIff` | auth.go:65-95 | For every string: accepted exactly when it carries the claims under a valid signature and has not expired. |
| `Tokens.ExpiredIff` | auth.go:65-95 | For every string: refused as expired exactly when signed validly with an expiry in the past. |
| `Tokens.ForgedIsRefused` | auth.go:78-80 | A token with any other signature is refused for it. |
| `Tokens.TokenDeterminesClaims` | auth.go:59-95 | Different claims never share a token. |
| `Backups.NameOrderIsTimeOrder` | maintenance.go:52-58 | String order of generated names is time order. |
| `Backups.PatternIsExact` | maintenance.go:94-98 | The downloadable names are exactly those of the generated shape, with any digits in the places of the time. |
| `Backups.PruneKeepsNewest` | maintenance.go:67-92 | The listing after a prune is the first keep entries of the listing before; other files are untouched. |
| `Backups.RotationKeepsLatest` | maintenance.go:49-65 | After n rotations with a clock that goes forward, exactly the last min(keep, n) snapshots are there. |
| `Backups.LatestMeaning` | maintenance.go:49-65 | Which snapshots those are. |
| `Backups.BackupDir.PruneBackups` | maintenance.go:70-92 | Removes the oldest beyond keep; on a failure, only some of those. |
| `Backups.BackupDir.ListBackupFiles` | maintenance.go:109-132 | The backups of the directory, newest first. |
| `Backups.BackupDir.BackupRotate` | maintenance.go:52-65 | A snapshot named after the time, then the prune; a taken name or a failed snapshot changes nothing, and a failed prune removes only some of the oldest. |
| `Backups.NewestSurvives` | maintenance.go:49-65 | With keep >= 1 a snapshot named later than all others survives the prune, however far that gets. |
| `Metrics.MetricsCollector.Record` | metrics.go:43-50 | One request adds one under its own keys in each map. |
| `Metrics.KeysSplit` | metrics.go:35-41 | Splitting a composite key at its separators gives back method, pattern and status. |
| `Metrics.KeysAreUnambiguous` | metrics.go:35-41 | Keys agree iff their parts do. |
| `Metrics.CountsAreConserved` | metrics.go:43-81 | Per route, the counts over all statuses add up to durationCount, and both to the number of requests. |
| `Metrics.DurationsAddUp` | metrics.go:43-50 | For every route durationSum is the sum of the seconds of its requests. |

## Left out

- HTTP routing, JSON responses, status codes, CORS, gzip, health checks, signals and start-up: input and output.
- User accounts, password hashing, login and role checks: one-branch claims; only the username pattern and the role names appear, as what a token may claim.
- JSON text: data is a map from top-level fields to values; duplicate keys and spellings of numbers on which two parsers disagree are not modelled.
- The 64-bit range of ids, and overflow of the id counter and of limit * 8: integers are unbounded. Floating-point rounding: tokens, times and distances are reals.
- SQLite, vec0 and FTS5 themselves: transactions with rollback, ORDER BY, LIMIT, MATCH and json_extract comparison are modelled by what they promise, and shadow tables by their names; reserved table names and vec0's own cap on k are not modelled.
- Ids when none is given: both kinds of collection use a counter (AUTOINCREMENT), plain tables by their declaration and vec0 in its own rowids table; that table's other bookkeeping is not modelled. Reading the assigned id back is a step that may fail only where a second commit follows it.
- Embedding, float serialisation, HMAC and strconv.ParseFloat: a step that may fail, opaque row fields, and function parameters.
- Interleaving of requests: each store call is one sequential call with its own commits.
- The fixed vec_items table (insertTextBulk, updateText, deleteItem): the same statements as those of a vector collection; queryText is the unfiltered, unsorted case of the search.
- Reading result rows back (scan loops of list, search, full-text search and aggregation), and the arithmetic of SUM, AVG, MIN and MAX.
- Error message texts: errors are kinds.
- Metrics.MetricsCollector.Record: the rendered text of the metrics and its number formatting are not modelled; the splitting of keys is.
- Backups.BackupDir.BackupRotate: keep is a natural number; directory creation, file sizes, modification times, conversion from clock to calendar, and the checkpoint and backup loops are left out.
- Store.VecStore.ServeAll: reads (get, list, search, aggregate) change nothing and are not commands of a run.
- Runs.ReferenceGraphAcyclic: only for runs that drop unmentioned collections; `Cycles.DropThenRenameMakesCycleIff` says what any other drop makes possible.
