# hydrant, modelled in Dafny

hydrant is a read-optimised record service. Senders push JSON documents into collections; a schema
decides which fields are released, and everything else is dropped before it is stored. Consumers page
through a collection, replicate it from its change feed, revalidate what they hold with `ETag`s, and
compare checksums to detect drift.

This project models that behaviour and proves it. `dafny verify dfyconfig.toml` checks everything.

## How the model is built

| module | what it models |
|---|---|
| `Schema`, `Ident` | field specifications, collection definitions, id paths, identifiers |
| `Projection`, `ProjectionLaws`, `Accounting`, `DropPaths`, `Metrics` | the projection engine, what it promises, how its reports read, the metric label |
| `Filters` | query filters and how they commute with projection |
| `Hashing`, `Drift` | content hashes, the collection checksum, manifests against digest walks |
| `Records`, `Statements`, `Store` | the table and its sequence, each SQL statement as its effect, batches, histories, and the store itself as a class |
| `Feed`, `Runs`, `Digests` | one budgeted page, walks on a still store, walks while writes happen |
| `Cache`, `Revalidation`, `Replication` | validators, 304 answers, and the whole replication protocol as a state machine |
| `Ingest` | the write path and what it keeps true of every reachable state |
| `Documents`, `Text`, `Ordering`, `Wrappers` | JSON values, text, orders, results |

Code that works in place is modelled in place: the projection engine appends to one shared report
object, the checksum sorts an array, and `PostgresStore` is a class whose methods update its table and
its sequence. Each such method is proved against a function of its inputs, and the theorems are about
those functions. A read of the store sees a collection as a map from record id to row (`Records.View`).

## Assumptions, each stated once

- **Commit order** (`Runs.Commits`): what a committed write changes takes a position beyond every
  position already visible in its collection. Sequence values are taken when a statement runs, not when
  it commits, so this is an assumption about how the service is deployed; it calls itself a
  single-writer service (crates/server/src/config.rs:69). `Statements.HistoryIsRun` proves that
  transactions that do not overlap meet it, and `Replication.LateCommitIsLost` shows that replication
  fails without it.
- **Hashes** (`Hashing.Distinguishes`): of two named documents, canonicalisation gives different bytes
  and the digest does not collide on those. It is asked of the two parameters, `canonicalize` and
  `digest`, and always of a given pair of documents: a digest of fixed length cannot be injective on all
  of them. `Hashing.HashSeparates` derives what it means for content hashes. The sixteen-digit filter
  fingerprint has its own assumption, on the same parameters (`Cache.PrefixesApart`), and
  `Cache.FingerprintsSeparate` derives what it means for fingerprints. `PinsEmptyDocument` says
  that the pinned tombstone hash is the hash of the empty document.
- **Collation** (`Digests.Collation`): the database orders ids by some total order in which the empty
  text comes first.
- **Byte budget** (`Revalidation.Deployment`): a validator does not carry the byte budget of a page, which
  is configuration (crates/server/src/config.rs:40). `Revalidation.NotModifiedIsExact` and
  `Replication.ReplicaConverges` are about one deployment; `Revalidation.EqualTagsEqualBodies` says exactly
  which bodies survive a change of the budget.
- One schema set is served for the whole of a history. Restarting the service with a narrower schema
  does not project what is already stored.

## Where the code and its documentation differ

- A comment on the upsert says an identical payload consumes no feed position
  (crates/store/src/postgres.rs:409). No record's position moves, but the column default
  (crates/store/migrations/0001_record.sql:18) is evaluated for the proposed row, so the sequence itself
  does advance: `Statements.NoOpSequence`. Idempotence is stated over rows and `max_seq`.
- Field names refuse dots, meant to leave each path of a drop report only one way to be read
  (crates/core/src/schema.rs:73-76). A payload key may still carry a dot or a bracket:
  `DropPaths.UnambiguousIffFlat` proves that a schema's reports are unambiguous for every payload
  exactly when it declares scalars only, and `DropPaths.ReportedPathsDistinct` that separator-free
  payload keys are enough for any schema.
- A single record is validated by its content hash (crates/api/src/public.rs:131), but its body also
  carries `seq` and `ingested_at`. A payload that changes and changes back answers 304 to a body that
  is out of date in those two: `Revalidation.RecordChangedBack`, from any state of the store;
  `Revalidation.RecordNotModified` gives the exact condition.
- A validator is described as the state of the collection plus the slice served
  (crates/api/src/public.rs:230-241). The byte budget also decides the page: after a restart with another
  one, an old validator can be fresh for a page that has changed (`Revalidation.BudgetChangeIsStale`).

## Model

| member | source | states |
|---|---|---|
| `Ident.NewFieldName` | crates/core/src/schema.rs:102-119 | a field name is accepted exactly when it is non-empty, within 128 bytes, and free of control characters and dots |
| `Ident.NewRecordId` | crates/core/src/ident.rs:90-111 | an id is accepted exactly when it is non-empty, within 512 bytes, printable, survives a URL path segment and carries no surrounding space |
| `Schema.Validate` | crates/core/src/schema.rs:287-303 | finds a problem exactly when some object at some depth has an empty allow list, and its path leads to the first such object in iteration order |
| `Schema.OneMoreFilter` | crates/core/src/schema.rs:664-717 | a list of offered filters stays offerable with one more exactly when it is new and passes `RequireIndexed`; otherwise that check's refusal blames this very entry |
| `Schema.OneMoreSortKey` | crates/core/src/schema.rs:676-717 | the same for sort keys, where only named fields have to pass |
| `Schema.CheckFilters` | crates/core/src/schema.rs:664-673 | filters pass exactly when they are distinct indexed fields; a refusal blames the first that breaks this, and says how |
| `Schema.CheckSort` | crates/core/src/schema.rs:676-688 | sort keys pass exactly when they are distinct and name indexed fields; a refusal blames the first that breaks this, and says how |
| `Schema.NewSchema` | crates/core/src/schema.rs:649-698 | a definition is accepted exactly when it is usable, and refused for its first problem: fields before filters before sort keys, and within each the first entry at fault |
| `Schema.NewSchemaSet` | crates/core/src/schema.rs:772-783 | the set is built exactly when no collection is defined twice, and then holds each definition under its name and no others; a refusal names the first collection repeated |
| `Schema.Resolve` | crates/core/src/schema.rs:442-448 | the loop along an id path finds exactly the value at that location |
| `Schema.ExtractId` | crates/core/src/schema.rs:462-480 | an id is extracted exactly when the path leads to a string or integer whose text is a valid id, and it is that text |
| `Schema.ParsesExactly` | crates/core/src/schema.rs:493-505 | a text is read as a path exactly when it is that path written out, with the root prefix or, where that has one reading, without it |
| `Schema.IdTextIdentifies` | crates/core/src/schema.rs:466-474 | a string stands for itself and an integer for its decimal form without leading zeros; nothing else stands for an identifier |
| `Schema.IdPathRoundTrip` | crates/core/src/schema.rs:483-505 | parsing the display of any id path returns it, `$` as first segment included |
| `Schema.IdPathDisplay` | crates/core/src/schema.rs:493-505 | displaying a parsed path gives the text parsed, or that text with `$.` prepended |
| `Projection.ReleasedIsDeclared` | crates/core/src/schema.rs:196-217 | a document is released whole exactly when every place in it, at any depth, leads to a node of the specification of that shape; what is released of any document is such a one |
| `Projection.ScalarsAreDeclared` | crates/core/src/schema.rs:163-176 | every scalar released stands where the specification declares a scalar, and is of the declared type |
| `Projection.KindsTellShapes` | crates/core/src/schema.rs:816-825 | the two kinds in a mismatch tell apart exactly the values of the declared shape from the others |
| `Projection.ProjectObject` | crates/core/src/projection.rs:107-134 | keeps the released members and appends exactly this object's drops, in key order, to the shared report |
| `Projection.ProjectValue` | crates/core/src/projection.rs:137-176 | keeps the released part of one value, which holds nothing undeclared at any depth, and appends exactly its drops to the shared report; keeps nothing exactly when the value has another shape |
| `Projection.ProjectArray` | crates/core/src/projection.rs:162-174 | one unusable element costs that element only, and is reported under its index in the input |
| `Projection.ProjectPayload` | crates/core/src/projection.rs:91-104 | refuses exactly the payloads that are not objects; otherwise returns the released part, with nothing undeclared at any depth, and its full report |
| `ProjectionLaws.CompositionIsNarrowing` | crates/core/src/projection.rs:106-176 | projecting through `s2` before `s1` makes no difference to any document exactly when `s1` is node by node at least as restrictive |
| `ProjectionLaws.ProjectionIsIdempotent` | crates/core/tests/properties.rs:208-218 | a second pass changes nothing and drops nothing |
| `ProjectionLaws.CompleteIffUnchanged` | crates/core/src/projection.rs:63-68 | the report is empty exactly when the payload was released unchanged |
| `ProjectionLaws.CompleteIffDeclared` | crates/core/src/projection.rs:63-68 | the report is empty exactly when the specification declares every place of the payload |
| `Accounting.ReportIsExact` | crates/core/src/projection.rs:106-185 | the report holds exactly the places the specification does not accept, with the right reason, each a real place, none inside another, none twice |
| `Accounting.JustifiedPrefixUnique` | crates/core/src/projection.rs:106-176 | no dropped value lies inside another dropped value |
| `Accounting.ScalarFate` | crates/core/src/projection.rs:106-176 | every scalar of the input is either unchanged at its image in the output and covered by no report, or covered by exactly one |
| `Accounting.ImageInjective` | crates/core/src/projection.rs:106-176 | projection never merges two values |
| `Accounting.ScalarsAddUp` | crates/core/tests/properties.rs:234-252 | scalars kept and scalars under reported places add up to all the scalars there were |
| `Documents.ScalarsAreCounted` | crates/core/tests/properties.rs:234-252 | the count that has to add up is the number of places that hold a scalar |
| `DropPaths.RenderInjective` | crates/core/src/projection.rs:113-117 | over separator-free keys, two places with one rendered path are one place, decimal indices included |
| `DropPaths.ReportedPathsDistinct` | crates/core/src/schema.rs:73-76 | with separator-free payload keys the reported paths of one projection are pairwise distinct |
| `DropPaths.DottedKeyIsAmbiguous` | crates/core/src/projection.rs:118-124 | under any declared object, a dotted payload key is reported under the path of a nested one |
| `DropPaths.BracketedKeyIsAmbiguous` | crates/core/src/projection.rs:168-171 | under any declared array, a bracketed payload key is reported under the path of an element |
| `DropPaths.UnambiguousIffFlat` | crates/core/src/schema.rs:73-76 | reports have one reading each for every payload exactly when the schema declares scalars only |
| `Metrics.LabelPath` | crates/api/src/metrics.rs:99-117 | the loop computes the label of any string |
| `Metrics.CollapseIdempotent` | crates/api/src/metrics.rs:99-117 | labelling a label changes nothing, for every string |
| `Metrics.LabelErasesIndices` | crates/api/src/metrics.rs:98-117 | for bracket-free names, the label of a rendered path is that path with every index erased |
| `Metrics.OneArrayOneSeries` | crates/api/src/metrics.rs:98-117 | drops that differ only in array indices share one label |
| `Filters.ParseFilter` | crates/core/src/filter.rs:68-101 | accepts exactly the queries whose pairs name distinct offered fields with values of their type; the filter holds exactly those; a refusal names a real fault |
| `Filters.IntegerRoundTrip` | crates/core/src/filter.rs:160-166 | every 64-bit integer written in decimal is read back as itself |
| `Filters.IntegerTextIsExact` | crates/core/src/filter.rs:160-166 | exactly an optional sign and digits of a value within 64 bits are read as an integer |
| `Filters.CoerceReadsBack` | crates/core/src/filter.rs:135-180 | every value a field's filter can ask for is read back as itself from its text |
| `Filters.CoerceIsExact` | crates/core/src/filter.rs:135-180 | a value that was read has the field's shape and is the one its text says |
| `Filters.FilteredPageIsExact` | crates/store/src/postgres.rs:163-190 | a page of a filtered listing holds exactly the live records within its reach whose payload has, at each field of the query, the value sent for it |
| `Filters.FilterIgnoresOrder` | crates/core/src/filter.rs:68-101 | reordering the pairs changes neither acceptance nor the filter |
| `Filters.FilterSurvivesProjection` | crates/core/src/filter.rs:135-180 | an accepted filter, seen as a payload, is released whole with nothing dropped |
| `Filters.FilterCommutesWithProjection` | crates/core/src/filter.rs:8-9 | a filter finds a record by its projected payload exactly when it would by the raw one, which is when the payload has the value sent at every field sent |
| `Hashing.HashSeparates` | crates/core/src/hash.rs:139-145 | two documents have one content hash exactly when they are one document with a canonical form, if canonicalisation and digest tell the two apart |
| `Hashing.ChecksumIsWireForm` | crates/core/src/hash.rs:147-180 | the checksum is the hash of the one document that pairs each id with its hash, id first, in code-point order of the ids |
| `Ordering.LexIsDictionaryOrder` | crates/core/src/hash.rs:171 | ids are ordered as a dictionary orders them, by the first code point in which they differ |
| `Hashing.CollectionChecksum` | crates/core/src/hash.rs:166-180 | sorting in place and hashing gives the one checksum of the map its rows list, in whatever order they arrive |
| `Hashing.SortById` | crates/core/src/hash.rs:171 | the array ends sorted by id and is a permutation of what it was |
| `Hashing.ChecksumIgnoresOrder` | crates/core/src/hash.rs:166-180 | any permutation of rows with distinct ids has the same sorted form and checksum, although the sort is unstable |
| `Hashing.ChecksumExact` | crates/core/src/hash.rs:147-165 | two collections have equal checksums exactly when they hold the same ids with the same hashes, if their listings do not collide |
| `Records.ClampLimit` | crates/store/src/record.rs:109-119 | of all allowed page sizes, none is nearer to the one asked for |
| `Records.ClampBytes` | crates/store/src/record.rs:149-159 | of all allowed byte budgets, none is nearer to the one asked for |
| `Feed.MaxSeq` | crates/store/src/postgres.rs:318-334 | the greatest position in the collection, tombstones included, and none exactly when it is empty |
| `Feed.BuildPage` | crates/store/src/postgres.rs:529-556 | the loop with its saturating sum takes the longest prefix within the byte budget, never an empty one of a non-empty selection, and offers no cursor exactly when it took everything and is not full |
| `Feed.SelectRows` | crates/store/src/postgres.rs:163-190 | finds the selection: rows wanted, beyond the cursor, in feed order and within the limit, where a wanted row left out lies beyond a full page |
| `Feed.SelectionUnique` | crates/store/src/postgres.rs:202-227 | feed order leaves the database no choice: those properties determine the rows |
| `Feed.PageIsSound` | crates/store/src/postgres.rs:523-556 | a page holds only wanted rows beyond the cursor in feed order, within both limits unless it is one record, and its cursor is its last row |
| `Feed.PageIsComplete` | crates/store/src/postgres.rs:523-556 | no wanted row up to a page's cursor is skipped; without a cursor none is left |
| `Feed.PageEndsExactly` | crates/store/src/postgres.rs:550-555 | a page offers no cursor exactly when it is shorter than the limit and has every record that was left |
| `Feed.PageIsGreedy` | crates/store/src/postgres.rs:540-547 | a page shorter than the limit is cut only where the very next wanted record would have overspent the bytes |
| `Feed.ListingIsExact` | crates/store/src/postgres.rs:163-190 | a page of a listing holds exactly the live records within its reach whose payload has the filter's values |
| `Feed.FeedIsExact` | crates/store/src/postgres.rs:202-227 | a page of the feed holds exactly the records within its reach, tombstones included |
| `Feed.PagesAgree` | crates/store/src/postgres.rs:540-547 | under two byte budgets a read returns one page exactly when the page of the larger stays within the smaller |
| `Feed.WalkIsExact` | crates/store/src/record.rs:91-119 | on a still store, for every choice of limits and budgets, following cursors ends and delivers exactly the wanted rows, once each, in feed order |
| `Runs.PositionTellsChange` | crates/store/src/postgres.rs:318-334 | a collection's position never goes back, and stands still exactly when the collection does |
| `Runs.PositionPinsState` | crates/api/src/public.rs:204-207 | between two states with one position, every state is that state |
| `Runs.FinishedWalkIsComplete` | crates/store/src/postgres.rs:156-193 | when a walk ends while writes happen between its pages, every record wanted at the last read was delivered in its current version |
| `Digests.DigestsAscend` | crates/store/src/postgres.rs:277-315 | the ids of a whole digest walk strictly ascend, whatever is written between its pages |
| `Digests.DigestWalkIsExact` | crates/store/src/postgres.rs:269-316 | a finished walk delivers every record live throughout it exactly once, with its hash at that read |
| `Digests.DigestPageIsExact` | crates/store/src/postgres.rs:277-315 | a page holds the digests of exactly the live records within its reach, and offers a cursor exactly when it is full |
| `Digests.StillWalkEnds` | crates/store/src/postgres.rs:310-315 | on a still store, for every choice of limits, following digest cursors ends, with fewer ids left after each page |
| `Drift.WalkListsLive` | crates/store/src/postgres.rs:269-316 | any finished digest walk over a store that did not change lists exactly the live records |
| `Drift.DigestsMatchManifest` | crates/store/src/postgres.rs:237-266 | the checksum computed from the digests of such a walk is the manifest's |
| `Drift.StillWalkMatchesManifest` | crates/store/src/postgres.rs:237-316 | on a still store the digests read by following cursors to the end list exactly the live records, and their sorted checksum is the manifest's |
| `Drift.ServedManifestMatchesDigests` | crates/api/src/public.rs:204-218 | the body served by the manifest counts the digests of the collection as its scan saw it, carries their checksum, and the greatest position as its last read saw it |
| `Cache.FingerprintsSeparate` | crates/api/src/public.rs:242-258 | two filters have one fingerprint exactly when they are one filter, if the digests of their canonical forms differ in the first sixteen digits |
| `Cache.ValidatorsAreExact` | crates/api/src/public.rs:242-278 | two validators are equal exactly when kind, position, cursor, limit and filter agree, with an absent cursor and cursor zero as one |
| `Cache.FreshIsMembership` | crates/api/src/cache.rs:14-30 | on any comma-separated list of validators, each weak or not and padded or not, freshness is membership (sections 8.8.3.2 and 13.1.2 of RFC 9110) |
| `Cache.StarIsFresh` | crates/api/src/cache.rs:14-30 | a star anywhere in the list, padded or not, covers every validator |
| `Cache.FreshIgnoresWeakness` | crates/api/src/cache.rs:14-34 | whether the current validator is weak makes no difference to what covers it |
| `Cache.SingleIsFresh` | crates/api/src/cache.rs:14-30 | presenting one validator succeeds exactly when it is the current one |
| `Revalidation.HeldBodyShows` | crates/api/src/public.rs:86-218 | whatever is written between a handler's reads, a listing or feed body has the exact page of the state its second read saw and the greatest position of the first, and a manifest body the count and checksum of the second and the greatest position of the third |
| `Revalidation.BodyNowShows` | crates/api/src/public.rs:86-218 | the body a 304 vouches for says all that of the current state |
| `Revalidation.EqualTagsEqualBodies` | crates/api/src/public.rs:86-99 | although position and rows are read in separate steps with writes allowed between, a response held under the current validator saw no write since; its body is the current one exactly when the byte budgets it was and would be assembled under agree on the slice, as one budget always does with itself |
| `Revalidation.NotModifiedIsExact` | crates/api/src/public.rs:172-185 | under one deployment a conditional request is answered 304 exactly when a presented response was begun at the current state of the same slice, and the body of every such response is the current one |
| `Revalidation.BudgetChangeIsStale` | crates/api/src/public.rs:230-241 | two records, and a restart with half the byte budget: the old validator is still fresh for a page that has become shorter |
| `Revalidation.RecordNotModified` | crates/api/src/public.rs:111-142 | under an equal single-record validator the payload is current, and the whole body is exactly when the record was not written since |
| `Revalidation.RecordAnswerIsExact` | crates/api/src/public.rs:124-142 | for any presented list, a record is not found exactly when it is absent or a tombstone, answered 304 exactly when the list has its validator, and served otherwise, every part of the body from its row and under the hash in it |
| `Revalidation.RecordRevalidation` | crates/api/src/public.rs:105-109 | presenting the validator of a record served before is answered 304 exactly while the record is live with that payload |
| `Revalidation.RecordChangedBack` | crates/api/src/public.rs:131-134 | from any state of the store, writing a payload, another, and the first again: the validator served first is answered 304 although the body has become another |
| `Replication.TakeKeepsInStep` | crates/store/src/postgres.rs:195-230 | applying one page keeps a consumer right about everything its cursor has passed; a page without a cursor makes its replica the collection |
| `Replication.GivenIsCurrent` | crates/api/src/public.rs:172-185 | a page given by a 304 is the page that would have been read at that moment |
| `Replication.StepIsSound` | crates/api/src/public.rs:151-186 | every write, request and answer keeps consumer, kept responses and pending validator sound |
| `Replication.ReplicaConverges` | crates/api/src/public.rs:142-186 | in every run the consumer agrees with the store on all its cursor has passed, and after every page without a cursor its replica is the collection, tombstones included |
| `Replication.LateCommitIsLost` | crates/store/migrations/0001_record.sql:5-12 | in any run, a row that becomes visible behind the consumer's cursor is delivered by no later page, fetched or kept, for as long as it stays as it is |
| `Statements.StepKeeps` | crates/store/src/postgres.rs:412-485 | each statement keeps positions unique and hashes right, moves only the record it writes and only forward, and answers `unchanged` exactly when it changed nothing |
| `Statements.NoOpSequence` | crates/store/migrations/0001_record.sql:18 | a no-op moves no record, and leaves the sequence alone exactly when it is a delete |
| `Statements.SequenceSpent` | crates/store/src/postgres.rs:421-485 | a write takes the last value the sequence handed out; a rewrite has spent one value more than an insert; only an exhausted sequence refuses a statement with a canonical payload |
| `Statements.StepWrites` | crates/store/src/postgres.rs:412-485 | the row a statement writes has its payload and hash, the time of the write, and is a tombstone exactly for a delete |
| `Statements.BatchKeeps` | crates/store/src/postgres.rs:105-150 | a batch keeps all of that, with one outcome per operation |
| `Statements.BatchSplits` | crates/store/src/postgres.rs:122-147 | a batch in two parts is the two parts in order, outcomes included |
| `Statements.StepIsSeen` | crates/store/src/postgres.rs:412-485 | a statement makes of its record what its operation asks and touches no other; it is a no-op exactly when the live hash is already the one asked for |
| `Statements.BatchIsSeen` | crates/store/src/postgres.rs:105-150 | a batch makes of each record what that record's own operations make of it, in order |
| `Statements.AnswersAreVisible` | crates/store/src/postgres.rs:126-147 | with one operation per record, each outcome's position is the record's position afterwards, and `unchanged` means its row is untouched |
| `Statements.UnchangedMeansEqual` | crates/store/src/postgres.rs:406-411 | an upsert is a no-op exactly when the live stored payload is the payload sent |
| `Statements.FoldReplay` | crates/store/src/postgres.rs:406-411 | repeating a sequence of operations leaves a record as a reader sees it, even if hashes collide |
| `Statements.ReplayIsInvisible` | crates/store/src/postgres.rs:105-150 | retrying an applied batch, ids repeated or not, changes no payload and no deletion |
| `Statements.DistinctReplay` | crates/store/src/postgres.rs:105-150 | retrying a batch of distinct ids answers `unchanged` throughout and leaves the table identical |
| `Statements.HistoryKeeps` | crates/store/migrations/0001_record.sql:5-12 | in every history of committed and rolled-back transactions each state is consistent and advances every earlier one |
| `Statements.PositionsNeverReassigned` | crates/store/migrations/0001_record.sql:42-43 | a position, once given, belongs to one record in one version for the whole history |
| `Statements.AdvancesCommits` | crates/store/src/postgres.rs:421-485 | whatever the writes of an advancing database change in a collection takes positions beyond its `max_seq` |
| `Statements.HistoryIsRun` | crates/server/src/config.rs:69 | with one writer at a time every collection's history meets the commit-order assumption of the readers |
| `Statements.MaxSeqTellsChange` | crates/store/src/postgres.rs:318-334 | across any stretch of a history `max_seq` never falls, and rises exactly when a record of the collection changed |
| `Store.PostgresStore.WriteUpsert` | crates/store/src/postgres.rs:412-448 | the insert-or-update, with its two sequence values, against the statement's specification |
| `Store.PostgresStore.WriteDelete` | crates/store/src/postgres.rs:455-485 | the tombstoning update against the statement's specification |
| `Store.PostgresStore.Upsert` | crates/store/src/postgres.rs:100-103 | a single upsert is a transaction of one operation; refused by the database, or failing, it leaves the table as it was |
| `Store.PostgresStore.Delete` | crates/store/src/postgres.rs:152-154 | a single delete is a transaction of one operation; refused by the database, or failing, it leaves the table as it was |
| `Store.PostgresStore.HashAll` | crates/store/src/postgres.rs:111-120 | every payload is hashed before anything is written; one without a canonical form fails the batch |
| `Store.PostgresStore.RunOps` | crates/store/src/postgres.rs:122-147 | the statement loop computes the fold of single operations, and stops at the first failure |
| `Store.PostgresStore.Apply` | crates/store/src/postgres.rs:105-150 | succeeds exactly when every payload is canonical and no statement fails; then the batch is the fold in order; otherwise the table is as it was |
| `Store.PostgresStore.List` | crates/store/src/postgres.rs:156-193 | reads one budgeted page of exactly the live rows within reach whose payload has the filter's values, the last page exactly when it is short and leaves nothing; a cursor beyond 63 bits is an error |
| `Store.PostgresStore.ChangesSince` | crates/store/src/postgres.rs:195-230 | reads one budgeted page of exactly the rows within reach, tombstones included, the last page exactly when it is short and leaves nothing |
| `Store.PostgresStore.ReadLive` | crates/store/src/postgres.rs:237-260 | count and checksum are those of the live rows, in whatever order the scan returns them; the position is a second read |
| `Store.PostgresStore.DigestsAfter` | crates/store/src/postgres.rs:269-316 | reads one page of exactly the live digests within reach, in id order, with a cursor exactly when it is full |
| `Store.PostgresStore.Get` | crates/store/src/postgres.rs:378-403 | a record is found exactly when the change feed, read from its start, has one with that id, and then it is that one |
| `Ingest.Prepare` | crates/api/src/ingest.rs:408-494 | admits exactly the well-formed envelopes; the stated id wins; the payload is what the schema releases and the report is complete; each refusal names the first fault |
| `Ingest.PreparedIsReleased` | crates/api/src/ingest.rs:432-478 | what an admitted envelope writes is a fixed point of projection within the size limit |
| `Ingest.SizeDecidesAdmission` | crates/api/src/ingest.rs:447-470 | an upsert that is otherwise in order is admitted exactly when the canonical form of what would be stored, not of what was sent, is within the limit |
| `Ingest.IngestBatch` | crates/api/src/ingest.rs:260-313 | performs a transaction that serves the request, committed exactly on success; each answer is about its own envelope; the first envelope at fault refuses the batch with nothing written; nothing unreleased gets in |
| `Ingest.DeleteRecord` | crates/api/src/ingest.rs:321-351 | performs a transaction that serves the request, committed exactly on success; afterwards the record is not live; if it was, the outcome is `tombstoned` with the position of the new tombstone, else `unchanged` with the table as it was; a refusal changes nothing |
| `Ingest.ServedIsAdmitted` | crates/api/src/ingest.rs:289-303 | whatever its envelopes carry, the transaction a request produces holds released data for a declared collection only |
| `Ingest.OneMoreRequest` | crates/api/src/ingest.rs:260-351 | what either handler performs extends the history of the service by one request |
| `Ingest.NoStateHoldsUnreleased` | crates/api/src/ingest.rs:3-7 | after any sequence of requests, answered or rolled back, every live payload holds at every depth only what its collection declares there, is a fixed point of projection within the limit with its own hash, and every tombstone is empty |
| `Ingest.ScalarsHeldAreDeclared` | crates/api/src/ingest.rs:3-7 | so every scalar the store ever holds, at any depth, stands where its collection declares one, and is of the declared type |
| `Ingest.NoPageShowsUnreleased` | crates/api/src/ingest.rs:3-7 | nor does any page of a listing or the feed, read after any sequence of requests, show anything else |
| `Ingest.NoRecordShowsUnreleased` | crates/store/src/postgres.rs:378-403 | nor does the row of any key, or the answer to a request for one record |
| `Ingest.UndeclaredStaysEmpty` | crates/api/src/ingest.rs:52-53 | a collection no schema declares never holds a record |
| `Ingest.EchoIsUnchanged` | crates/api/src/ingest.rs:432-478 | sending a live record's stored payload back is admitted with nothing dropped and changes nothing |

## Left out

- HTTP plumbing, status codes, header parsing, query-string decoding, compression, CORS, timeouts, rate limiting.
- Authentication: tokens and their keyed hashes; a request arrives with its source.
- Configuration, schema-file loading (the `allow: [a, b]` shorthand included), the CLI, telemetry, and the metrics other than the label path.
- The grammars of source and collection names; only record ids and field names are modelled. An undeclared and a malformed collection name are both refused as unknown.
- SQL execution: each statement is its effect on the table. What jsonb does to a payload (number normalisation, the refusal of NUL characters) is not modelled, and filter containment compares values by equality.
- Canonicalisation (RFC 8785) and SHA-256 are parameters; so is the text size of a payload that the byte budget counts.
- Timestamps are opaque, and reading a double from text is a parameter.
- Decoding errors of stored rows (a negative position, a hash of the wrong width, an unusable id): the table's types rule them out.
- Only the first `If-None-Match` header of a request is consulted, so the model has one header value.
- Compaction of tombstones, which the migration mentions and no code performs.
- `Ingest.IngestBatch`: the decoding of the request body and its size limit come before it and are not modelled.
