# Model of the massa indexer's ingest writer and store

`massa-indexer` follows a Massa node. One writer takes block, execution-output
and transfer events in whatever order they come, with repeats and competing
finality verdicts, and keeps primary tables and 19 derived index column families
in RocksDB. REST handlers page through the indexes with cursors, an operator can
rebuild and verify them, and background passes repair ranges of slots across
restarts.

## How the model is laid out

| file | models |
|---|---|
| `Bytes.dfy` | byte strings, their order, RocksDB iteration order |
| `Keys.dfy` | identifiers, slots, the key builders and parsers of `keys.rs` |
| `Model.dfy` | rows, statuses and node messages |
| `Store.dfy` | tables with their index rows, the effect of each row writer, agreement (`Exact`, `Valid`) |
| `Families.dfy` | what each index family of a sound store holds, key by key |
| `Db.dfy` | class `Db`: writers, clears, page readers, `raw_clear`, index rebuild |
| `IngestSpec.dfy`, `Ingest.dfy` | the handlers as functions on stores, and class `Ingest` proved to compute them |
| `Selections.dfy`, `BlockRecords.dfy`, `Inclusions.dfy`, `ExecEffects.dfy`, `AsyncEvents.dfy` | what block, output and transfers events leave of each row, said of the message |
| `IndexRuns.dfy`, `SlotRuns.dfy`, `EventRuns.dfy`, `Lifecycles.dfy`, `AsyncRows.dfy`, `DeferredRuns.dfy`, `Transfers.dfy` | what every event and every run keeps |
| `BlockOutcomes.dfy`, `Reorder.dfy`, `Orders.dfy`, `Idempotence.dfy`, `Caveats.dfy` | when a block is taken, reorder-safety, idempotence, and where each ends |
| `Scan.dfy`, `Paging.dfy`, `SelfTransfers.dfy`, `TransferListings.dfy`, `Listings.dfy` | pages, page chains, and what clients read |
| `Rebuild.dfy`, `Cli.dfy` | what a rebuild guarantees, what `verify` counts and misses |
| `Repair.dfy` | the checkpointed range passes under crashes |
| `Lanes.dfy` | the two-lane writer |

A store is a value of type `Tables`. Each table carries its rows, a map from key
bytes to rows, and its index rows, a set of (column family, key). `Valid` says
that every row sits under its own key and every index is exactly what the rows
call for. `IngestSpec.Step` is one event; `IngestSpec.Run` is a trace. The classes
do the same step by step, and their methods are proved equal to the functions.

## Modelling choices

- Every writer batch is one atomic update; the codec is taken as the identity on
  rows. (The real codec reads an empty trail hash back as absent.)
- Identifier strings are `Raw`: blank, malformed, or parsed to fixed-width bytes.
- Wall-clock fields are left out, except the first-sighting time of async
  messages and deferred calls, which the upserts preserve by rule.
- Fields that are copied without being looked at are gathered in `payload`; the
  nine set-or-keep async fields are a map.
- A slot's thread is `thread as u8`: truncated modulo 256. Indices are u32.
- `ensure_parent_stub` inserts a fresh Unknown row when there is none.
- The reorder theorem assumes that a block id determines its slot, that each slot
  has at most one FINAL verdict, and that each acceptable block feeds its own
  operations (each one it ingests carries its content or was listed earlier in it)
  or cannot be fed by the events in any order. `Orders.OrderImmaterialExactly`
  shows the last two to be exactly what is needed, where a block id stands for one
  block; `Orders.OrderImmaterialIff` does without that over self-fed blocks.
- A sound store's endorsement rows have ids that parse: `write_endorsement` refuses
  the others, and a rebuild that meets one fails.
- In the repair passes the surroundings answer at every tick: the store as a
  reader finds it (or a failed read), whether process and channel are up, and
  whether checkpoint reads and writes succeed. `to_period` is below u64::MAX, as
  the code computes `to_period + 1`.

## Where code and documentation part

The model follows the code in each case.

- `Page::next_cursor` (`massa-indexer/src/db.rs:170-197`) is described as present
  when more rows follow; it is also present when only unreadable index rows follow.
- `iter_transfers_by_addr` updates `last_key` on skipped rows, but the limit test
  comes first, so a self-transfer whose sender row ends a page shows up again on
  the next page.
- `iter_slots_desc` without a cursor starts at thread 31 of the largest period.
- `rebuild_secondary_indexes` does not rebuild the slot → candidate-block
  pointers, and `verify` checks neither them nor the two by-last-slot families.
- "Re-applying the same event produces exactly the same state" holds
  (`Idempotence.StepTwice`, for any index contents), but order-independence does not extend to operation
  statuses, `last_final_slot` or trail hashes: `Caveats.dfy` says over whole runs
  what each of them is, and `Caveats.StatusOrderIff` when two orders differ.
- `included_slot` of a denunciation is filled with the denunciation's own slot, not
  with the including block's: the loop shadows the name
  (`massa-indexer/src/ingest.rs:351-365`).
- Completing a peer-finalised slot is said to write exactly what the FINAL branch
  would have (`massa-indexer/src/ingest.rs:735-737`). It does so for events,
  operations, messages, blocks and the slot row; the last-final mark and the stub
  of the slot before are not written (`ExecEffects.CompletingIsSettling`).
- A checkpoint of the repair passes says that patches were queued, not that the
  writer has applied them; a slot whose read fails is passed over.
- `target_function`, `parameter` and `max_gas` of a deferred call are never set by
  the handlers and so have no place in its row here.

## Model

| member | source | states |
|---|---|---|
| `ByteStrings.BigEndianOrder` | massa-indexer/src/keys.rs:49-55 | byte order of equal-width big-endian strings is numeric order |
| `ByteStrings.ComplementReverses` | massa-indexer/src/keys.rs:69-76 | complementing two equal-length keys reverses their byte order |
| `Keys.BuildRSlotKey` | massa-indexer/src/keys.rs:69-76 | the in-place complement loop yields the complemented slot key |
| `Keys.SlotKeyRoundTrip` | massa-indexer/src/keys.rs:50-91 | decoding a slot key or a complemented slot key gives the slot back, for every u64 period and u8 thread |
| `Keys.SlotKeyParseBuild` | massa-indexer/src/keys.rs:59-91 | every 9-byte string decodes, and re-encoding gives the string back |
| `Keys.SlotKeyOrder` | massa-indexer/src/keys.rs:50-76 | slot keys sort as (period, thread); complemented keys sort in the exact reverse |
| `Keys.ParseBuild` | massa-indexer/src/keys.rs:136-459 | each composite-key parser inverts its builder, for all nine key shapes |
| `Keys.RSlottedInjective` | massa-indexer/src/keys.rs:136-144 | equal composite keys have the same owner, slot and tail |
| `Keys.RSlottedOrder` | massa-indexer/src/keys.rs:136-144 | under one owner keys sort by slot descending, then by tail ascending |
| `Keys.OwnerPrefix` | massa-indexer/src/keys.rs:164-175 | an owner prefix selects that owner's keys and no one else's |
| `Keys.IndexOrder` | massa-indexer/src/keys.rs:213-256 | index bytes sort like the u32 indices they encode, whatever follows |
| `Keys.InclusiveStart` | massa-indexer/src/rest.rs:624-647 | `slot_key ‖ 0x00` as exclusive reverse bound admits exactly the slots up to and including the given one, and is no slot's key |
| `Keys.SlotIndexedRoundTrip` | massa-indexer/src/keys.rs:102-123 | a transfer or event primary key decodes to its slot and index |
| `Store.ExactIsImage` | massa-indexer/src/db.rs:501-523 | row-by-row agreement of an index with its table is the same as: the index is the image of the table |
| `Store.PutBlockSound` | massa-indexer/src/db.rs:501-523 | writing a block keeps its indexes exact, provided a rewritten block keeps slot and creator |
| `Store.PutEndorsementSound` | massa-indexer/src/db.rs:559-577 | first-sighting-wins endorsement write keeps its index exact |
| `Store.PutOpSound` | massa-indexer/src/db.rs:608-638 | writing an operation keeps its indexes exact, provided it keeps the index rows of its first inclusion |
| `Store.PutScEventSound` | massa-indexer/src/db.rs:672-706 | writing an event at a free key keeps the emitter, caller and operation indexes exact |
| `Store.PutDenunciationSound` | massa-indexer/src/db.rs:889-927 | insert-or-patch of a denunciation keeps both its indexes exact |
| `Store.PutTransferSound` | massa-indexer/src/db.rs:1032-1092 | writing a transfer at a free key keeps the address, operation and block indexes exact |
| `Store.PutAsyncSound` | massa-indexer/src/db.rs:1364-1427 | rewriting an async row keeps its three indexes exact even when sender, destination or last slot move |
| `Store.RemoveAsyncSound` | massa-indexer/src/db.rs:1442-1467 | deleting an async row removes exactly its index rows |
| `Store.PutDeferredSound` | massa-indexer/src/db.rs:1655-1725 | rewriting a deferred call keeps its three indexes exact even when sender, target or last slot move |
| `Store.ClearPrefixSound` | massa-indexer/src/db.rs:832-882 | clearing a slot's rows together with their index rows keeps the indexes exact |
| `Families.BlockFamilies` | massa-indexer/src/db.rs:501-523 | a sound store files a block under its creator at its slot, and as a candidate of its slot, and nowhere else |
| `Families.OpFamilies` | massa-indexer/src/db.rs:608-638 | an included operation is filed under its creator and its target at the slot of its first inclusion, and nowhere else |
| `Families.EndorsementFamilies` | massa-indexer/src/db.rs:559-577 | an endorsement is filed under its creator at its slot, and nowhere else |
| `Families.TransferFamilies` | massa-indexer/src/db.rs:1032-1092 | a transfer is filed under its sender and receiver with their tags, its operation and its block, and nowhere else |
| `Families.DenunciationFamilies` | massa-indexer/src/db.rs:889-927 | a denunciation is filed by its slot, under the denounced address if known, and nowhere else |
| `Families.EventFamilies` | massa-indexer/src/db.rs:672-706 | an event is filed under each emitter, each caller and its operation, and nowhere else |
| `Families.AsyncFamilies` | massa-indexer/src/db.rs:1364-1427 | a message is filed under its current sender, destination and last slot, and nowhere else |
| `Families.DeferredFamilies` | massa-indexer/src/db.rs:1655-1725 | a call is filed under its current sender, target and last slot, and nowhere else |
| `Database.Db.WriteBlock` | massa-indexer/src/db.rs:501-523 | the batch puts the row, its creator index row and its candidate pointer, and changes nothing else |
| `Database.Db.WriteEndorsement` | massa-indexer/src/db.rs:559-577 | an unparsable id is an error, a known id is a no-op, a new one gets row and index row |
| `Database.Db.WriteOp` | massa-indexer/src/db.rs:608-638 | row plus creator and target index rows under the first inclusion's slot |
| `Database.Db.WriteScEvent` | massa-indexer/src/db.rs:672-706 | row plus one index row per distinct emitter and caller and one by operation |
| `Database.Db.ClearScEventsForSlot` | massa-indexer/src/db.rs:832-882 | removes exactly the slot's event rows and the index rows they call for |
| `Database.Db.RowsUnder` | massa-indexer/src/db.rs:832-882 | a forward iterator opened at a prefix and stopped at the first key outside it meets exactly the keys under the prefix, in order |
| `Database.Db.WriteDenunciation` | massa-indexer/src/db.rs:889-927 | first record stands; a missing including block is patched in without touching the indexes |
| `Database.Db.WriteTransfer` | massa-indexer/src/db.rs:1032-1092 | row plus an index row for each party, operation and block that parses |
| `Database.Db.ClearTransfersForSlot` | massa-indexer/src/db.rs:1137-1205 | removes exactly the slot's transfer rows and the index rows they call for |
| `Database.Db.WriteAsyncMsg` | massa-indexer/src/db.rs:1364-1427 | keeps the first-sighting time, retires index rows of moved fields, puts the current ones |
| `Database.Db.DeleteAsyncMsg` | massa-indexer/src/db.rs:1442-1467 | removes the row and its index rows; an unknown id is a no-op |
| `Database.Db.WriteDeferredCall` | massa-indexer/src/db.rs:1655-1725 | keeps the first-sighting time, retires index rows of moved fields, puts the current ones |
| `Database.Db.IterSlotsDesc` | massa-indexer/src/db.rs:455-490 | one page of the reverse slot scan: newest first, from an exclusive raw key, with the cursor of the last kept row |
| `Database.Db.IterBlocksByCreator` | massa-indexer/src/db.rs:2130-2165 | one page of a creator's block ids in key order, with its cursor |
| `Database.Db.IterScEventsWithPrefix` | massa-indexer/src/db.rs:745-788 | one page of events behind an emitter, caller or operation prefix |
| `Database.Db.IterTransfersViaIdx` | massa-indexer/src/db.rs:1298-1341 | one page of transfers behind an operation or block prefix |
| `Database.Db.IterTransfersByAddr` | massa-indexer/src/db.rs:1225-1276 | one page of an address's transfers, a self-transfer kept once per page |
| `Database.Db.IterAsyncMsgsByLastSlot` | massa-indexer/src/db.rs:1607-1642 | on any store the readable rows behind the slot's index keys, from the first on, at most `limit`; on a sound store exactly the messages last seen there |
| `Database.Db.EnsureParentStub` | massa-indexer/src/peer/patch.rs:1052-1080 | inserts a fresh Unknown row for the previous slot of the thread if there is none |
| `Scan.PageLoop` | massa-indexer/src/db.rs:2130-2165 | the shared scan loop keeps the readable rows under the prefix, past the cursor, up to the limit, and records why it stopped |
| `Scan.ScanPage` | massa-indexer/src/db.rs:2130-2165 | what one page request answers, for both scan directions and any set of keys |
| `Scan.WalkedIsBeyond` | massa-indexer/src/db.rs:455-490 | for a cursor under the prefix the walk is exactly the keys beyond the cursor |
| `Scan.PageUnique` | massa-indexer/src/db.rs:2130-2165 | the page contract leaves one possible page |
| `Paging.NeverRepeated` | massa-indexer/src/db.rs:2130-2165 | no key appears on two pages of a chain, whatever is inserted or deleted between the pages |
| `Paging.ReturnedOnce` | massa-indexer/src/db.rs:2130-2165 | a row present and readable at every page request is returned exactly once although others come and go |
| `Paging.PagesAreTheScan` | massa-indexer/src/db.rs:2130-2165 | on an unchanged store the pages end to end are the whole prefix scan, in order, no gap, no repeat |
| `Paging.PageCount` | massa-indexer/src/db.rs:2130-2165 | the number of pages is bounded by rows over limit: all pages but the last are full |
| `Paging.FollowCursors` | massa-indexer/src/db.rs:2130-2165 | following `next_cursor` terminates and collects exactly the full scan |
| `Listings.OwnerListing` | massa-indexer/src/db.rs:2130-2165 | any index that files rows under an owner lists exactly the owner's rows, newest slot first, then by tail |
| `Listings.BlocksByCreatorListed` | massa-indexer/src/db.rs:525-539 | in a sound store a creator's listing is exactly the stored blocks of that creator, slot descending then id |
| `Listings.OpsByCreatorListed` | massa-indexer/src/db.rs:640-653 | a creator's listing is exactly the included operations of that creator, first inclusion's slot descending then id |
| `Listings.TransfersByOpListed` | massa-indexer/src/db.rs:1209-1221 | an operation's listing is exactly the transfers it owns, slot descending then index |
| `Listings.EventsByEmitterListed` | massa-indexer/src/db.rs:720-728 | an emitter's listing is exactly the events it emitted, each once, slot descending then index |
| `Listings.TrailingIdIsBlock` | massa-indexer/src/db.rs:2199-2216 | the id cut from a creator index key is the id of the stored block behind it |
| `Listings.FollowOwner` | massa-indexer/src/db.rs:525-539 | reading an owner's pages to the end hands out exactly the owner's readable index rows |
| `Listings.InclusiveWalk` | massa-indexer/src/rest.rs:624-647 | the synthesized cursor makes the reverse walk cover exactly the rows not after the requested slot |
| `Listings.SlotsRange` | massa-indexer/src/rest.rs:611-651 | a cursor wins; otherwise the page starts at the requested slot, inclusive, thread defaulting to 31; rows come newest first |
| `SelfTransfers.ListingLoop` | massa-indexer/src/db.rs:1225-1276 | the loop with its per-page seen set keeps the first index row of each transfer |
| `SelfTransfers.ScanTransfersByAddr` | massa-indexer/src/db.rs:1225-1276 | what one page of an address's transfers holds |
| `SelfTransfers.PageHasNoDuplicates` | massa-indexer/src/db.rs:1225-1276 | no transfer appears twice within a page |
| `SelfTransfers.ReceiverRowRepeatedIff` | massa-indexer/src/db.rs:1225-1276 | across a page chain over a well-formed index (every sound store has one, `TransferListings.ValidIsWellIndexed`) a self-transfer's receiver row is handed out as well exactly when its sender row is a page's cursor |
| `SelfTransfers.TransferAppearances` | massa-indexer/src/db.rs:1225-1276 | over such an index each row of a transfer is handed out at most once, the sender row always, the receiver row of a self-transfer exactly when the sender row is a cursor |
| `TransferListings.ValidIsWellIndexed` | massa-indexer/src/db.rs:1032-1092 | in a sound store every index row under an address is tagged and leads to a stored transfer |
| `TransferListings.RowsUnderParties` | massa-indexer/src/db.rs:1032-1092 | in a sound store a transfer has its sender row exactly under its sender and its receiver row exactly under its receiver |
| `TransferListings.FollowTransfers` | massa-indexer/src/db.rs:1225-1276 | following the cursors of an address's listing terminates with a chain of pages and the rows behind them, on any store |
| `TransferListings.TransferAppears` | massa-indexer/src/db.rs:1225-1276 | on a sound store each stored transfer of the address is handed out at least once and at most twice, twice exactly when it is a self-transfer whose sender row ended a page, and no other transfer is handed out |
| `TransferListings.AllTransfersOf` | massa-indexer/src/db.rs:1225-1276 | the same as multiplicities in the list a client collects |
| `IngestWorker.Ingest.HandleBlock` | massa-indexer/src/ingest.rs:298-532 | the block handler's reads and writes have exactly the specified effect, error returns included |
| `IngestWorker.Ingest.IngestOps` | massa-indexer/src/ingest.rs:375-449 | operations are inserted or extended in order; an unreadable new one aborts with what was written so far |
| `IngestWorker.Ingest.HandleExec` | massa-indexer/src/ingest.rs:537-732 | the execution handler has exactly the specified effect: first final wins, candidate overwrite, completion of a peer-finalised slot |
| `IngestWorker.Ingest.CompleteFinalExecFromNode` | massa-indexer/src/ingest.rs:738-795 | completing the exec part of an already FINAL slot |
| `IngestWorker.Ingest.RewriteScEvents` | massa-indexer/src/ingest.rs:625-649 | the slot's events are cleared and rewritten with consecutive indices |
| `IngestWorker.Ingest.ApplyExecutedOpsChanges` | massa-indexer/src/ingest.rs:1094-1132 | final status first-wins, candidate status latest-wins, unknown operations skipped; the parsed ids are returned in order |
| `IngestWorker.Ingest.ApplyAsyncPoolChanges` | massa-indexer/src/ingest.rs:984-1089 | SET, UPDATE and DELETE entries applied in order |
| `IngestWorker.Ingest.ApplyFinalityToBlocks` | massa-indexer/src/ingest.rs:1137-1167 | every stored candidate gets its verdict, and the winner too when it was not a candidate |
| `IngestWorker.Ingest.HandleTransfers` | massa-indexer/src/ingest.rs:800-949 | the transfers handler has exactly the specified effect |
| `IngestWorker.Ingest.DecodeTransfers` | massa-indexer/src/ingest.rs:815-870 | zero-value inputs dropped, the rest numbered densely |
| `IngestWorker.Ingest.AttributeInPlace` | massa-indexer/src/ingest.rs:885-910 | the in-place pass computes the attribution function |
| `IngestWorker.Ingest.ReconcileAsyncFromTransfers` | massa-indexer/src/ingest.rs:1192-1246 | async reconciliation of a transfer list, row by row |
| `IngestWorker.Ingest.ReconcileDeferredFromTransfers` | massa-indexer/src/ingest.rs:1269-1354 | deferred-call reconciliation of a transfer list, row by row |
| `IngestWorker.Ingest.Handle` | massa-indexer/src/ingest.rs:181-293 | one event takes the store to the specified next store and keeps a sound store sound |
| `BlockRecords.BlockEffect` | massa-indexer/src/ingest.rs:298-532 | what a block event leaves, said of the message: endorsements, denunciations, operations, the block row with its operation list, endorsements and status, the slot row and the parent stub; and what stays when it is refused |
| `BlockRecords.ReadsIff` | massa-indexer/src/ingest.rs:298-322 | the header is accepted exactly when content, slot, id and creator are there and parse, and what it is read as |
| `BlockRecords.AcceptableIff` | massa-indexer/src/ingest.rs:330-347 | a readable block is acceptable if and only if each endorsement with content, slot and creator has an id that parses |
| `BlockRecords.EndorsementsWritten` | massa-indexer/src/ingest.rs:330-347 | a stored endorsement stays; a new one is the first that came under its id, field by field, and none is stored past one without an id |
| `BlockRecords.DenunciationsWritten` | massa-indexer/src/ingest.rs:356-374 | a denunciation stays as first recorded, field by field; a missing block is filled in by the first that comes |
| `BlockRecords.IngestedIff` | massa-indexer/src/ingest.rs:375-412 | an operation is ingested if and only if the block names it at a place up to which it is fed |
| `BlockRecords.OpsWritten` | massa-indexer/src/ingest.rs:393-449 | each ingested operation notes the block as an inclusion once, after the earlier ones; a new row takes creator, kind, target and payload from the first entry that names it; other rows stay |
| `Inclusions.RunInclusions` | massa-indexer/src/ingest.rs:432-445 | after any run the inclusions of an operation are the sites of the acceptable blocks whose ingested part names it, in order of first arrival, each once; it is stored exactly when there is one |
| `IndexRuns.StepValid` | massa-indexer/src/ingest.rs:181-293 | every event keeps all rows keyed and all 19 derived column families exact |
| `IndexRuns.RunValid` | massa-indexer/src/ingest.rs:154-158 | index exactness over every run, from any sound store |
| `IndexRuns.RunIndexesAreImages` | massa-indexer/src/db.rs:145-164 | after any run from the empty store each table's index is exactly the image of its rows |
| `IndexRuns.IncludeKeepsEntries` | massa-indexer/src/ingest.rs:435-445 | a further inclusion never moves an operation's index rows, as `inclusions[0]` stays |
| `SlotRuns.StepAdvances` | massa-indexer/src/ingest.rs:567-668 | per event: slot status only climbs, completeness bits never clear, a FINAL verdict and a set trail hash stay |
| `SlotRuns.RunAdvances` | massa-indexer/src/ingest.rs:579-620 | first-final-wins over whole runs |
| `SlotRuns.RunOpAdvances` | massa-indexer/src/ingest.rs:1116-1122 | over whole runs an operation's final status is written at most once and its first inclusion never moves |
| `SlotRuns.FinalityEffect` | massa-indexer/src/ingest.rs:1137-1167 | finality sets every candidate's status to its verdict and leaves other blocks alone |
| `SlotRuns.RunAgreement` | massa-indexer/src/ingest.rs:453-516 | in every reachable store each block is in its slot's candidate list with the status the slot gives it, whichever of block and output came first |
| `SlotRuns.ResolveIsIdle` | massa-indexer/src/rest.rs:346-368 | the lazy status check never changes a block of a reachable store |
| `Reorder.RunIsExpected` | massa-indexer/src/ingest.rs:20-22 | with at most one verdict per slot, and each acceptable block self-fed or impossible to feed from the events, the slot and block projection after a run is a declarative function of the set of its events |
| `Reorder.OrderIsImmaterial` | massa-indexer/src/ingest.rs:20-22 | then any run over the same events, in any order and with any repeats, ends with the same projection |
| `Reorder.RunKnows` | massa-indexer/src/ingest.rs:375-449 | after any run the operations known are exactly those supplied by its acceptable blocks in order, each up to its first operation that is not fed |
| `Reorder.ExpectedIfNotLate` | massa-indexer/src/ingest.rs:393-412 | when no block can be fed late, each block of a trace is taken or refused as it would be by an empty store |
| `Orders.OrderImmaterialIff` | massa-indexer/src/ingest.rs:20-22 | over self-fed blocks, whatever their ids, all traces over one set of events agree if and only if each slot has at most one FINAL verdict |
| `Orders.OrderImmaterialExactly` | massa-indexer/src/ingest.rs:20-22 | over any events in which a block id stands for one block, all traces over the same set agree if and only if each slot has at most one FINAL verdict and no acceptable block that does not feed itself can be fed by the others |
| `Orders.LateFeedingShows` | massa-indexer/src/ingest.rs:393-412 | a block that does not feed itself but can be fed by the events is stored in one order and lost in another |
| `Orders.VerdictsClash` | massa-indexer/src/ingest.rs:567-620 | with two verdicts for a slot among the events of any trace, whichever is put first decides, so some orders disagree |
| `Orders.FinalsCommuteIffSameVerdict` | massa-indexer/src/ingest.rs:567-620 | the two-event case: two FINAL outputs of one slot commute exactly when they give the same verdict |
| `BlockOutcomes.OpsOutcome` | massa-indexer/src/ingest.rs:375-449 | the operations of a block are ingested to the end exactly when each carries its content, is stored, or was listed earlier in the block; the store then knows exactly those more, and otherwise exactly the ones before the first that is not fed |
| `BlockOutcomes.BlockOutcome` | massa-indexer/src/ingest.rs:298-532 | a block is taken exactly when header and endorsements are readable and its operations are so fed |
| `BlockOutcomes.TakenFromEveryStoreIff` | massa-indexer/src/ingest.rs:393-412 | an acceptable block is taken from every store if and only if it feeds its own operations |
| `Orders.FeedingOrder` | massa-indexer/src/ingest.rs:393-412 | block b is stored after a self-fed a exactly when a feeds it, and before a exactly when it feeds itself, for blocks of any size |
| `Orders.MissingContentMakesOrderMatter` | massa-indexer/src/ingest.rs:393-412 | of a self-fed block and another, the order shows on the other exactly when the first feeds it and it does not feed itself |
| `Orders.CommutesIffSelfFed` | massa-indexer/src/ingest.rs:20-22 | an acceptable block commutes with every self-fed block if and only if it feeds itself: why the order theorem asks for self-fed blocks |
| `EventRuns.ReplaceEffect` | massa-indexer/src/ingest.rs:625-649 | clear-and-rewrite leaves a slot with exactly the given events, whatever was there: emitter the last readable frame of the call stack, caller the first, operation and data from the event |
| `EventRuns.RunSettled` | massa-indexer/src/ingest.rs:625-649 | in every reachable store a slot's events are densely numbered, counted by the slot row, tagged with its status, and record field by field those of the output that settled it |
| `EventRuns.FinalEventsHeld` | massa-indexer/src/ingest.rs:756-774 | after any run a slot is FINAL, and its final output in, exactly when the trace has a FINAL output for it; it then holds rows that record exactly the first one's events |
| `EventRuns.RecordsIff` | massa-indexer/src/ingest.rs:1511-1531 | a row records an event (emitters `[a]` iff `a` is the last frame that parses, callers the first, both empty iff none parses, operation iff it parses) exactly when it is the row the handler builds |
| `EventRuns.RunEventIndexRows` | massa-indexer/src/db.rs:672-706 | in every reachable store event `i` of a slot is filed under `a` as emitter, as caller, under an operation, exactly when the settling output's `i`-th event has it so |
| `ExecEffects.OtherOutputsIdle` | massa-indexer/src/ingest.rs:560-590 | an output that neither settles nor proposes its slot changes nothing: not FINAL or candidate, unreadable, or for a FINAL slot whose verdict it contradicts or whose output is in |
| `ExecEffects.TakenOutput` | massa-indexer/src/ingest.rs:579-668 | the pool, the executed operations and the events of an output are applied if and only if it settles or proposes its slot, the pool for FINAL ones only; other tables stay |
| `ExecEffects.CompletingIsSettling` | massa-indexer/src/ingest.rs:735-795 | completing a slot that was FINAL before its output came leaves the events, operations, messages, blocks and slot row that the same output leaves when the slot is open |
| `ExecEffects.TakenSlotRow` | massa-indexer/src/ingest.rs:600-660 | the slot row after a taken output: status, miss and winner, trail hash, event count, the executed operations named by the message the first time there are any; what blocks and transfers left stays |
| `ExecEffects.TakenStatuses` | massa-indexer/src/ingest.rs:1094-1132 | per stored operation: the first status of a FINAL output is recorded once as final and candidate, the last of a candidate output replaces the candidate one; nothing else of the row changes |
| `ExecEffects.MarksMove` | massa-indexer/src/ingest.rs:646-660 | the last-final and last-candidate marks move to a slot exactly when a FINAL or candidate output finds it open |
| `Idempotence.BlockTwice` | massa-indexer/src/ingest.rs:298-532 | a block event twice is a block event once, on any store with rows under their own keys, whatever the indexes hold |
| `Idempotence.ExecTwice` | massa-indexer/src/ingest.rs:537-732 | an execution event twice, at two times, is the same as once, whatever the indexes hold |
| `Idempotence.TransfersTwice` | massa-indexer/src/ingest.rs:800-949 | a transfers event twice, at two times, is the same as once, reconcile loops included, whatever the indexes hold |
| `Idempotence.StepTwice` | massa-indexer/src/ingest.rs:34-35 | any event, any store with rows under their own keys whatever its indexes hold, any two times: twice equals once, down to every row and index row |
| `Transfers.AttributionRule` | massa-indexer/src/ingest.rs:885-910 | the stateful pass equals the declarative rule: nearest earlier owned row with no separating row between; origins are listed outright and a given operation id is never altered |
| `Transfers.AttributionStable` | massa-indexer/src/ingest.rs:885-910 | a second attribution pass changes nothing |
| `Transfers.DecodeIsFilter` | massa-indexer/src/ingest.rs:815-870 | the rows are exactly the inputs with a positive amount, in order, at indices 0..n-1; each takes slot, block and timestamp from the message and every other field from its input |
| `Transfers.RowsAre` | massa-indexer/src/ingest.rs:811-910 | the rows of a message, said of its inputs alone: field by field the positive ones in order; a given operation stays, an unowned child input gets that of the nearest earlier owned input with no reward, message, call or denunciation between |
| `Transfers.RowsConserve` | massa-indexer/src/ingest.rs:815-910 | coins, rolls and deferred credits are conserved by filtering and attribution |
| `Transfers.TransferReplacement` | massa-indexer/src/ingest.rs:811-914 | after the handler the slot holds exactly rows that record the positive inputs field by field, no index row of an old one is left, other slots are untouched, no value is lost |
| `Transfers.TransferIndexRows` | massa-indexer/src/ingest.rs:854-914 | on a sound store the `i`-th positive input is filed under its own sender with the sender tag, its own receiver with the receiver tag, the block and the attributed operation, and under nothing else |
| `Lifecycles.OnlySetDeclassifies` | massa-indexer/src/ingest.rs:984-1089 | a classified message loses its classification under a pool change if and only if the change is a SET |
| `Lifecycles.RunStaysClassified` | massa-indexer/src/ingest.rs:984-1089 | Executed or Cancelled is permanent over any run with no SET for the message |
| `Lifecycles.DeletesCommuteWithTransfers` | massa-indexer/src/ingest.rs:1192-1246 | a slot's DELETEs and its transfer reconciliation commute up to first-sighting times |
| `Lifecycles.RowsDetermine` | massa-indexer/src/db.rs:1364-1427 | two sound tables with the same rows have the same index rows |
| `AsyncRows.PoolLastWins` | massa-indexer/src/ingest.rs:984-1089 | after a slot's pool changes each field of a message is what the last SET or UPDATE to give it gave, a clearing update included, else what it was; a row exists exactly when there was one or some change touched it |
| `AsyncRows.PoolStates` | massa-indexer/src/ingest.rs:984-1089 | after a slot's pool changes the state is what the last SET (pending) or DELETE (consumed) gives, except that an executed or cancelled message moves by SET only; last slot and first sighting |
| `AsyncRows.TransfersFillGaps` | massa-indexer/src/ingest.rs:1192-1246 | transfers fill a missing sender, destination or amount with the first that can; the first coins or cancellation decides Executed or Cancelled; other fields stay |
| `AsyncEvents.OutputChangesMessage` | massa-indexer/src/ingest.rs:984-1089 | an execution output on any sound store: if it settles its slot each field of a message follows its pool, last change wins; if not the message stays |
| `AsyncEvents.TransfersSettleMessage` | massa-indexer/src/ingest.rs:1192-1246 | a transfers message on any sound store: an undecided message becomes Executed if and only if the first positive transfer to settle it carries its coins, Cancelled if and only if that one returns them |
| `Lifecycles.ChangesAt` | massa-indexer/src/ingest.rs:984-1089 | the table after the pool changes, row by row: the per-message fold |
| `Lifecycles.ReconcilesAt` | massa-indexer/src/ingest.rs:1192-1246 | the table after reconciliation, row by row: the per-message fold |
| `DeferredRuns.RunTells` | massa-indexer/src/ingest.rs:1269-1354 | over any run a deferred row exists exactly when a relevant transfer was seen and is the declarative summary of all of them: state by origin, registered and target slot, parties, largest amount |
| `DeferredRuns.FirstSighting` | massa-indexer/src/ingest.rs:1269-1354 | a call dates from the arrival of the transfers message that first told of it, for good |
| `DeferredRuns.RunCallAdvances` | massa-indexer/src/ingest.rs:1269-1354 | the first terminal state, registered slot, target slot and sender stay; coins never shrink |
| `Database.Db.FirstBatch` | massa-indexer/src/db.rs:1948-1959 | a batch is the first 4096 keys of the iterator, or all there are |
| `Database.Db.RawClear` | massa-indexer/src/db.rs:1944-1966 | batches of 4096 delete exactly the family's rows; the count is their number |
| `Database.Db.WipeSecondaryIndexes` | massa-indexer/src/db.rs:1979-1983 | the 18 secondary families end empty, each count is the family's size, candidate pointers stay |
| `Database.Db.ReplayAsyncMsgs` | massa-indexer/src/db.rs:2078-2087 | rewriting every async row changes no row and adds exactly the image |
| `Database.Db.ReplayEndorsements` | massa-indexer/src/db.rs:1998-2017 | for any endorsement rows: index rows are put directly, not through the skipping writer; an unparsable id, wherever its row sits, is an error |
| `Database.Db.RebuildSecondaryIndexes` | massa-indexer/src/db.rs:1976-2101 | from any index contents and any endorsement rows: succeeds exactly when every endorsement id parses; succeeds with every secondary index exact exactly when each of them also sits under its own id, and with a sound store exactly when besides no stray candidate pointer went in; leaves a sound store as it is; touches no row, reports the counts; a failed one leaves the later indexes empty |
| `Rebuild.RebuildIsExact` | massa-indexer/src/db.rs:1976-2101 | the store that a successful rebuild leaves, from any index contents: every secondary index but the endorsements' is the exact image of its table, and theirs is if and only if no readable endorsement row is misplaced |
| `Rebuild.RebuildRepairsIff` | massa-indexer/src/db.rs:145-164 | that store is sound if and only if no stray candidate pointer went in, as that family is not rebuilt, and each endorsement row sits under its own readable id |
| `Rebuild.RebuildIsIdempotent` | massa-indexer/src/db.rs:1976-2101 | a second successful rebuild changes nothing |
| `Rebuild.RebuildKeepsValid` | massa-indexer/src/db.rs:1976-2101 | of a sound store, whose endorsement ids all parse so that a rebuild succeeds, the rebuilt store is the store itself |
| `Rebuild.WipedClean` | massa-indexer/src/db.rs:1979-1983 | wiping the listed families leaves the candidate pointers and no other index row |
| `Cli.CheckRow` | massa-indexer/src/cli.rs:121-251 | the per-row check: malformed key, missing primary, or fine; by-last-slot families always pass |
| `Cli.VerifyCf` | massa-indexer/src/cli.rs:115-255 | the walk of one family adds exactly its issues to the report |
| `Cli.VerifyFamilies` | massa-indexer/src/cli.rs:84-258 | the walk over any list of distinct families finds exactly their issues |
| `Cli.Verify` | massa-indexer/src/cli.rs:84-258 | `total_issues` is exactly the number of malformed or dangling checked index rows plus one if meta is missing; the list is a repeat-free part of them, capped |
| `Cli.CleanIff` | massa-indexer/src/cli.rs:84-258 | a clean report means: meta present and every checked index row leads to a stored row, and conversely |
| `Cli.RebuiltIsCleanIff` | massa-indexer/src/cli.rs:84-258 | after a successful rebuild, from any index contents, at most the missing meta row is reported if and only if every readable endorsement id is a stored key |
| `Cli.ValidIsClean` | massa-indexer/src/cli.rs:84-258 | a sound store has nothing to report but a missing meta row |
| `Cli.UncheckedOrphansAreMissed` | massa-indexer/src/cli.rs:247-247 | orphans of the by-last-slot families and stray candidate pointers never change the report |
| `Cli.MissingRowsAreMissed` | massa-indexer/src/cli.rs:84-258 | index rows that went missing never cause an issue: `verify` is one-sided |
| `Repair.ReconstructSlot` | massa-indexer/src/repair.rs:92-131 | a patch exactly for a FINAL, non-miss slot without node transfers whose executed transactions move coins; one row each, in order, densely numbered, with sender, recipient, amount, operation and block from the transaction and the slot |
| `Repair.PatchUnique` | massa-indexer/src/repair.rs:92-131 | the contract of the patch leaves one possible answer |
| `Repair.MoversMove` | massa-indexer/src/repair.rs:115-126 | the operations that get a row are exactly the successful coin-moving transactions executed in the slot |
| `Repair.SlotHasSuccessfulScOp` | massa-indexer/src/repair.rs:247-258 | true exactly when some executed operation is a successful contract call or execution |
| `Repair.SlotLacksParts` | massa-indexer/src/repair.rs:262-285 | true exactly when the slot is FINAL and incomplete for the requested streams (and ran a contract, if asked) |
| `Repair.NextCheckpoint` | massa-indexer/src/repair.rs:195-199 | any 64 consecutive periods contain a checkpoint period |
| `Repair.ReconstructPass.Run` | massa-indexer/src/repair.rs:136-218 | one process life, cut anywhere: the checkpoint stays sound and never moves back, a completed range is left alone, an unbroken run completes, at most 64 periods are walked again |
| `Repair.ReconstructPass.Walk` | massa-indexer/src/repair.rs:165-209 | from a covered start the walk covers the periods it gets through and keeps the last checkpoint within 64 of them |
| `Repair.ReconstructPass.ScanPeriod` | massa-indexer/src/repair.rs:172-194 | every thread of the period is looked at and the patches called for are sent in order |
| `Repair.ReconstructPass.Lives` | massa-indexer/src/repair.rs:136-218 | any number of lives and crashes keeps: checkpoint c means every slot of [from, c) was looked at and its patch queued |
| `Repair.TilesOnce` | massa-indexer/src/repair.rs:343-386 | a tiling puts each period of its range in exactly one window |
| `Repair.PullPass.LookWindow` | massa-indexer/src/repair.rs:351-364 | every slot of the window is looked at and the needy list is exactly those lacking a part |
| `Repair.PullPass.PullWindow` | massa-indexer/src/repair.rs:335-383 | a finished window extends what was asked for down to its bottom; an abandoned one leaves checkpoint and log |
| `Repair.PullPass.Descend` | massa-indexer/src/repair.rs:331-388 | the windows of a descent tile the range it got through, each of full width; a finished one ends at `from_period`; with checkpoint writes succeeding the checkpoint sits below the last finished window |
| `Repair.PullPass.Run` | massa-indexer/src/repair.rs:290-396 | one process life: its full-width windows tile the range it got through, it terminates, the checkpoint stays sound and only moves down, a completed range is left alone, a broken run asks again for the window it was at and for no finished one |
| `Repair.PullPass.RunAgain` | massa-indexer/src/repair.rs:378-384 | after a finished pull a rerun does nothing if and only if `from_period` ≥ 1; from 0 it asks for period 0 again |
| `Lanes.RunsAreFaithful` | massa-indexer/src/ingest.rs:154-178 | every interleaving of producers and writer: nothing lost or repeated, each lane in order, a bulk event only when every live event sent so far is handled, and the store is the run of the trace |
| `Lanes.RunsStayValid` | massa-indexer/src/ingest.rs:154-178 | the two-lane writer keeps a sound store sound; both lanes carry the modelled event kinds here, whereas the source's bulk lane carries patches and forced verdicts |
| `Lanes.ClosingStep` | massa-indexer/src/ingest.rs:164-178 | once producers are gone a step never waits and uses exactly one of the steps due; it returns false exactly when none is |
| `Lanes.Writer.StepOnce` | massa-indexer/src/ingest.rs:164-178 | one biased scheduling decision: live first, then bulk, retire a closed drained lane, stop when none is left |
| `Lanes.Writer.RunToEnd` | massa-indexer/src/ingest.rs:154-158 | after the producers close, the loop handles all live then all bulk events and ends after exactly one step per event and open lane |
| `Caveats.OverwriteExactIff` | massa-indexer/src/db.rs:1032-1092 | a row put over another without retiring index rows leaves the index exact if and only if the new row keeps every old index row |
| `Caveats.TransferOverwriteIff` | massa-indexer/src/db.rs:1032-1092 | the same for transfers: why the slot is cleared first |
| `Caveats.EventOverwriteIff` | massa-indexer/src/db.rs:672-706 | the same for SC events |
| `Caveats.FinalStatusIff` | massa-indexer/src/ingest.rs:1094-1132 | over a whole run an operation has a final status if and only if a settling FINAL output named it when its row was already stored, and it is the status the first such output gave |
| `Caveats.StatusOrderIff` | massa-indexer/src/ingest.rs:1111-1122 | a FINAL output naming an operation and the block listing it: no final status in that order, the named one in the other; the orders agree exactly when the output gives none |
| `Caveats.StepFinalStatus` | massa-indexer/src/ingest.rs:1111-1122 | what one event records: a status on record stays, else the first one a settling FINAL output gives a stored operation |
| `Caveats.LastFinalSlotIs` | massa-indexer/src/ingest.rs:646-656 | after any run `last_final_slot` is the slot of the latest event that is the first FINAL output of its slot |
| `Caveats.LastFinalSlotIff` | massa-indexer/src/ingest.rs:646-656 | over any run the mark never moves back if and only if the slots are first settled in slot order |
| `Caveats.FinalTrailHashIff` | massa-indexer/src/ingest.rs:621-623 | a FINAL output leaves its own trail hash if and only if it has one or the slot had none |
| `Caveats.TrailHashIs` | massa-indexer/src/ingest.rs:579-623 | over any run a slot's trail hash is that of the latest output carrying one, up to the slot's first FINAL output |

## Left out

- `Reorder.OrderIsImmaterial`: covers slot status, miss, final block, candidates, completeness and block statuses; operation statuses, `last_final_slot`, trail hashes and event payloads do depend on order.
- `Repair.ReconstructPass.Lives`: speaks of patches queued on the channel; what a crash drops from the queue after the checkpoint moved is not modelled.
- `Repair.PullPass.Run`: waiting for a first peer is part of being down, and which needy slots the peers supply is not modelled.
- `Lanes.RunsStayValid`: the bulk lane's own event kinds, patches and forced verdicts, are not modelled; the scheduling is.
- Peer and legacy patches (`peer::*`, `legacy::*`), the chain-linkage arbiter and forced verdicts do not occur in traces; stores they could leave are covered wherever a statement is about any sound store.
- `legacy_op_to_transfer` enters only as the row it builds; amounts and recipients come from an opaque payload.
- `run_legacy_sub_transfers`: the same checkpoint walk as the reconstruct pass around an external lookup.
- `recent_operations`, `blocks_recent` and `iter_all_*` listings: they truncate after choosing the cursor or scan a primary table; only the shared scan loop is modelled.
- The listings by target, by endorsement creator, by denunciation and by async or deferred address repeat the shape of the four that are proved.
- Protobuf, base58, base64 and SHA-256: identifiers are taken as already parsed or not.
- RocksDB I/O errors, tuning and the schema version check.
- SSE broadcast, metrics, logging, HTTP plumbing, charts, CSV export and the explorer.
- Wall-clock timestamps other than the two first-sighting times.
