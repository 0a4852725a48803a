/**
 What a rebuild of the secondary indexes leaves behind, starting from any index
 contents whatever.
 */
module Rebuild {
  import opened ByteStrings
  import opened Ids
  import opened Keys
  import opened Model
  import opened Store

  /** The families a rebuild wipes; the slot → candidate-block pointers are not among them. */
  const SECONDARY_INDEX_CFS: seq<IndexCf> :=
    [BlockByCreator, OpByCreator, OpByTarget, EndorsementByCreator,
     TransferByAddr, TransferByOp, TransferByBlock,
     DenunciationByAddr, DenunciationRecent,
     EventByEmitter, EventByCaller, EventByOp,
     AsyncBySender, AsyncByDest, AsyncByLastSlot,
     DeferredBySender, DeferredByTarget, DeferredByLastSlot]

  /** The table an index family is derived from. */
  function TableOf(cf: IndexCf): Table {
    match cf
    case BlockByCreator | SlotCandidateBlock => BlockT
    case OpByCreator | OpByTarget => OpT
    case EndorsementByCreator => EndorsementT
    case TransferByAddr | TransferByOp | TransferByBlock => TransferT
    case DenunciationByAddr | DenunciationRecent => DenunciationT
    case EventByEmitter | EventByCaller | EventByOp => EventT
    case AsyncBySender | AsyncByDest | AsyncByLastSlot => AsyncT
    case DeferredBySender | DeferredByTarget | DeferredByLastSlot => DeferredT
  }

  function WithIdx(t: Tables, table: Table, idx: set<Entry>): Tables {
    match table
    case BlockT => t.(blocks := t.blocks.(idx := idx))
    case OpT => t.(ops := t.ops.(idx := idx))
    case EndorsementT => t.(endorsements := t.endorsements.(idx := idx))
    case TransferT => t.(transfers := t.transfers.(idx := idx))
    case DenunciationT => t.(denunciations := t.denunciations.(idx := idx))
    case EventT => t.(scEvents := t.scEvents.(idx := idx))
    case AsyncT => t.(asyncMsgs := t.asyncMsgs.(idx := idx))
    case DeferredT => t.(deferredCalls := t.deferredCalls.(idx := idx))
  }

  lemma WithIdxLaws(t: Tables, table: Table, i: set<Entry>, j: set<Entry>)
    ensures IdxOf(WithIdx(t, table, i), table) == i
    ensures WithIdx(WithIdx(t, table, i), table, j) == WithIdx(t, table, j)
    ensures WithIdx(t, table, IdxOf(t, table)) == t
  {}

  /** Index rows of one table are all that `WithIdx` changes. */
  lemma WithIdxElsewhere(t: Tables, table: Table, idx: set<Entry>)
    ensures var u := WithIdx(t, table, idx);
      && u.meta == t.meta
      && (forall other :: other != table ==> IdxOf(u, other) == IdxOf(t, other))
      && forall r :: RowExists(u, r) <==> RowExists(t, r)
  {}

  function IdxOf(t: Tables, table: Table): set<Entry> {
    match table
    case BlockT => t.blocks.idx
    case OpT => t.ops.idx
    case EndorsementT => t.endorsements.idx
    case TransferT => t.transfers.idx
    case DenunciationT => t.denunciations.idx
    case EventT => t.scEvents.idx
    case AsyncT => t.asyncMsgs.idx
    case DeferredT => t.deferredCalls.idx
  }

  /** The rows of one index family. */
  function CfRows(t: Tables, cf: IndexCf): set<Bytes> {
    KeysOf(IdxOf(t, TableOf(cf)), cf)
  }

  function Drop(idx: set<Entry>, cfs: set<IndexCf>): set<Entry> {
    set e | e in idx && e.cf !in cfs
  }

  function DropIn<R>(x: Indexed<R>, cfs: set<IndexCf>): Indexed<R> {
    x.(idx := Drop(x.idx, cfs))
  }

  /** Whole families removed, no row touched. */
  function Wiped(t: Tables, cfs: set<IndexCf>): Tables {
    t.(blocks := DropIn(t.blocks, cfs), ops := DropIn(t.ops, cfs), endorsements := DropIn(t.endorsements, cfs),
       transfers := DropIn(t.transfers, cfs), denunciations := DropIn(t.denunciations, cfs),
       scEvents := DropIn(t.scEvents, cfs), asyncMsgs := DropIn(t.asyncMsgs, cfs),
       deferredCalls := DropIn(t.deferredCalls, cfs))
  }

  /** Each index row is filed with the table its family belongs to; nothing more is asked of it. */
  ghost predicate Filed(t: Tables) {
    forall table, e :: e in IdxOf(t, table) ==> TableOf(e.cf) == table
  }

  /** Each row but the endorsements sits under the key its contents give. */
  ghost predicate RowsKeyed(t: Tables) {
    && Keyed(t.blocks.rows, BlockKeyOf)
    && Keyed(t.ops.rows, OpKeyOf)
    && Keyed(t.transfers.rows, TransferKeyOf)
    && Keyed(t.denunciations.rows, DenunciationKeyOf)
    && Keyed(t.scEvents.rows, EventKeyOf)
    && Keyed(t.asyncMsgs.rows, AsyncKeyOf)
    && Keyed(t.deferredCalls.rows, DeferredKeyOf)
  }

  /** Each endorsement row with a readable id sits under that id; an unreadable one may sit anywhere. */
  ghost predicate EndorsementsPlaced(rows: map<Bytes, StoredEndorsement>) {
    forall k :: k in rows && rows[k].id.Parsed? ==> rows[k].id.id == k
  }

  function CandidatePointers(t: Tables): set<Entry> {
    set e | e in t.blocks.idx && e.cf == SlotCandidateBlock
  }

  /** Same rows, every secondary index the image of its table; old candidate pointers survive. */
  ghost function Rebuilt(t: Tables): Tables {
    t.(blocks := Indexed(t.blocks.rows, CandidatePointers(t) + Image(t.blocks.rows, BlockEntries)),
       ops := Indexed(t.ops.rows, Image(t.ops.rows, OpEntries)),
       endorsements := Indexed(t.endorsements.rows, Image(t.endorsements.rows, EndorsementEntries)),
       transfers := Indexed(t.transfers.rows, Image(t.transfers.rows, TransferEntries)),
       denunciations := Indexed(t.denunciations.rows, Image(t.denunciations.rows, DenunciationEntries)),
       scEvents := Indexed(t.scEvents.rows, Image(t.scEvents.rows, EventEntries)),
       asyncMsgs := Indexed(t.asyncMsgs.rows, Image(t.asyncMsgs.rows, AsyncEntries)),
       deferredCalls := Indexed(t.deferredCalls.rows, Image(t.deferredCalls.rows, DeferredEntries)))
  }

  datatype RebuildReport = RebuildReport(cleared: seq<nat>, replayed: seq<nat>)

  /** Rows of each table, in the order they are replayed. */
  function RowCounts(t: Tables): seq<nat> {
    [|t.blocks.rows|, |t.endorsements.rows|, |t.ops.rows|, |t.transfers.rows|, |t.scEvents.rows|,
     |t.denunciations.rows|, |t.asyncMsgs.rows|, |t.deferredCalls.rows|]
  }

  /** The two stores differ in their index rows at most. */
  predicate SameRows(t: Tables, u: Tables) {
    && t.meta == u.meta && t.slots == u.slots
    && t.lastFinalSlot == u.lastFinalSlot && t.lastCandidateSlot == u.lastCandidateSlot
    && t.blocks.rows == u.blocks.rows && t.ops.rows == u.ops.rows && t.endorsements.rows == u.endorsements.rows
    && t.transfers.rows == u.transfers.rows && t.denunciations.rows == u.denunciations.rows
    && t.scEvents.rows == u.scEvents.rows && t.asyncMsgs.rows == u.asyncMsgs.rows
    && t.deferredCalls.rows == u.deferredCalls.rows
  }

  // ---- the wipe -----------------------------------------------------------

  lemma DropElsewhere(t: Tables, cf: IndexCf, table: Table)
    requires Filed(t) && table != TableOf(cf)
    ensures Drop(IdxOf(t, table), {cf}) == IdxOf(t, table)
  {
    hide TableOf;
    forall e | e in IdxOf(t, table) ensures e.cf != cf { assert TableOf(e.cf) == table; }
  }

  /** Deleting one family from the table it is filed under deletes it everywhere. */
  lemma WipeOne(t: Tables, cf: IndexCf)
    requires Filed(t)
    ensures WithIdx(t, TableOf(cf), Drop(IdxOf(t, TableOf(cf)), {cf})) == Wiped(t, {cf})
  {
    hide Drop, Filed, TableOf;
    forall table: Table | table != TableOf(cf) ensures Drop(IdxOf(t, table), {cf}) == IdxOf(t, table) {
      DropElsewhere(t, cf, table);
    }
    assert t.blocks.idx == IdxOf(t, BlockT) && t.ops.idx == IdxOf(t, OpT)
        && t.endorsements.idx == IdxOf(t, EndorsementT);
    assert t.transfers.idx == IdxOf(t, TransferT) && t.denunciations.idx == IdxOf(t, DenunciationT);
    assert t.scEvents.idx == IdxOf(t, EventT) && t.asyncMsgs.idx == IdxOf(t, AsyncT)
        && t.deferredCalls.idx == IdxOf(t, DeferredT);
  }

  lemma WipedFiled(t: Tables, cfs: set<IndexCf>)
    requires Filed(t)
    ensures Filed(Wiped(t, cfs))
    ensures forall cf :: cf !in cfs ==> CfRows(Wiped(t, cfs), cf) == CfRows(t, cf)
  {
    forall table, e | e in IdxOf(Wiped(t, cfs), table) ensures TableOf(e.cf) == table { assert e in IdxOf(t, table); }
    forall cf | cf !in cfs ensures CfRows(Wiped(t, cfs), cf) == CfRows(t, cf) {
      assert IdxOf(Wiped(t, cfs), TableOf(cf)) == Drop(IdxOf(t, TableOf(cf)), cfs);
      assert KeysOf(Drop(IdxOf(t, TableOf(cf)), cfs), cf) == KeysOf(IdxOf(t, TableOf(cf)), cf);
    }
  }

  lemma DropMore(idx: set<Entry>, cfs: set<IndexCf>, cf: IndexCf)
    ensures Drop(Drop(idx, cfs), {cf}) == Drop(idx, cfs + {cf})
  {}

  lemma WipeMore(t: Tables, cfs: set<IndexCf>, cf: IndexCf)
    ensures Wiped(Wiped(t, cfs), {cf}) == Wiped(t, cfs + {cf})
  {
    hide Drop;
    forall idx ensures Drop(Drop(idx, cfs), {cf}) == Drop(idx, cfs + {cf}) { DropMore(idx, cfs, cf); }
  }

  /** Wiping every secondary family leaves the candidate pointers and nothing else. */
  lemma WipedClean(t: Tables)
    requires Filed(t)
    ensures Wiped(t, set cf | cf in SECONDARY_INDEX_CFS)
         == t.(blocks := Indexed(t.blocks.rows, CandidatePointers(t)), ops := Indexed(t.ops.rows, {}),
               endorsements := Indexed(t.endorsements.rows, {}), transfers := Indexed(t.transfers.rows, {}),
               denunciations := Indexed(t.denunciations.rows, {}), scEvents := Indexed(t.scEvents.rows, {}),
               asyncMsgs := Indexed(t.asyncMsgs.rows, {}), deferredCalls := Indexed(t.deferredCalls.rows, {}))
  {
    var cfs := set cf | cf in SECONDARY_INDEX_CFS;
    forall e: Entry ensures e.cf in cfs <==> e.cf != SlotCandidateBlock { AllButPointers(e.cf); }
    forall table: Table | table != BlockT ensures Drop(IdxOf(t, table), cfs) == {} {
      forall e | e in IdxOf(t, table) ensures e.cf in cfs { assert TableOf(e.cf) == table; }
    }
    assert Drop(IdxOf(t, OpT), cfs) == Drop(IdxOf(t, EndorsementT), cfs) == Drop(IdxOf(t, TransferT), cfs) == {};
    assert Drop(IdxOf(t, DenunciationT), cfs) == Drop(IdxOf(t, EventT), cfs) == {};
    assert Drop(IdxOf(t, AsyncT), cfs) == Drop(IdxOf(t, DeferredT), cfs) == {};
    assert Drop(t.blocks.idx, cfs) == CandidatePointers(t);
  }

  lemma WipeNothing(t: Tables)
    ensures Wiped(t, {}) == t
  {
    forall idx ensures Drop(idx, {}) == idx { assert forall e :: e in Drop(idx, {}) <==> e in idx; }
  }

  /** No family is listed twice. */
  lemma CfsDistinct(i: nat)
    requires i < |SECONDARY_INDEX_CFS|
    ensures SECONDARY_INDEX_CFS[i] !in SECONDARY_INDEX_CFS[..i]
  {
    forall j | 0 <= j < i ensures SECONDARY_INDEX_CFS[j] != SECONDARY_INDEX_CFS[i] {
      CfAt(i);
      CfAt(j);
    }
  }

  function Ordinal(cf: IndexCf): nat {
    match cf
    case BlockByCreator => 0 case OpByCreator => 1 case OpByTarget => 2 case EndorsementByCreator => 3
    case TransferByAddr => 4 case TransferByOp => 5 case TransferByBlock => 6
    case DenunciationByAddr => 7 case DenunciationRecent => 8
    case EventByEmitter => 9 case EventByCaller => 10 case EventByOp => 11
    case AsyncBySender => 12 case AsyncByDest => 13 case AsyncByLastSlot => 14
    case DeferredBySender => 15 case DeferredByTarget => 16 case DeferredByLastSlot => 17
    case SlotCandidateBlock => 18
  }

  lemma CfAt(i: nat)
    requires i < |SECONDARY_INDEX_CFS|
    ensures Ordinal(SECONDARY_INDEX_CFS[i]) == i
  {}

  lemma AllButPointers(cf: IndexCf)
    ensures cf in SECONDARY_INDEX_CFS <==> cf != SlotCandidateBlock
  {
    if cf != SlotCandidateBlock { assert SECONDARY_INDEX_CFS[Ordinal(cf)] == cf; }
  }

  // ---- the replay ---------------------------------------------------------

  /** The index rows of the rows replayed so far, on top of `base`. */
  ghost predicate Replayed<R>(idx: set<Entry>, base: set<Entry>, rows: map<Bytes, R>, done: seq<Bytes>,
                              entries: R -> set<Entry>) {
    forall e :: e in idx <==> e in base || exists k :: k in done && k in rows && e in entries(rows[k])
  }

  lemma ReplayStart<R>(x: Indexed<R>, entries: R -> set<Entry>)
    ensures Replayed(x.idx, x.idx, x.rows, [], entries)
  {}

  /** Writing a stored row again adds its index rows and nothing else. */
  lemma ReplayNext<R>(x: Indexed<R>, base: set<Entry>, done: seq<Bytes>, k: Bytes, entries: R -> set<Entry>)
    requires Replayed(x.idx, base, x.rows, done, entries) && k in x.rows
    ensures var y := Put(x, k, x.rows[k], {}, entries(x.rows[k]));
            y == Indexed(x.rows, x.idx + entries(x.rows[k])) && Replayed(y.idx, base, x.rows, done + [k], entries)
  {
    assert x.rows[k := x.rows[k]] == x.rows;
  }

  lemma BlockAgain(x: Indexed<StoredBlock>, k: Bytes)
    requires k in x.rows && x.rows[k].id == k
    ensures PutBlock(x, x.rows[k]) == Put(x, k, x.rows[k], {}, BlockEntries(x.rows[k]))
  {}

  lemma OpAgain(x: Indexed<StoredOperation>, k: Bytes)
    requires k in x.rows && x.rows[k].id == k
    ensures PutOp(x, x.rows[k]) == Put(x, k, x.rows[k], {}, OpEntries(x.rows[k]))
  {}

  lemma TransferAgain(x: Indexed<StoredTransfer>, k: Bytes)
    requires Keyed(x.rows, TransferKeyOf) && k in x.rows
    ensures PutTransfer(x, x.rows[k]) == Put(x, k, x.rows[k], {}, TransferEntries(x.rows[k]))
  {
    hide TransferEntries;
  }

  lemma EventAgain(x: Indexed<StoredScEvent>, k: Bytes)
    requires Keyed(x.rows, EventKeyOf) && k in x.rows
    ensures PutScEvent(x, x.rows[k]) == Put(x, k, x.rows[k], {}, EventEntries(x.rows[k]))
  {
    hide EventEntries;
  }

  lemma AsyncAgain(x: Indexed<StoredAsyncMsg>, k: Bytes)
    requires k in x.rows && x.rows[k].id == k
    ensures PutAsync(x, x.rows[k]) == Put(x, k, x.rows[k], {}, AsyncEntries(x.rows[k]))
  {
    hide AsyncEntries;
  }

  lemma DeferredAgain(x: Indexed<StoredDeferredCall>, k: Bytes)
    requires k in x.rows && x.rows[k].id == k
    ensures PutDeferred(x, x.rows[k]) == Put(x, k, x.rows[k], {}, DeferredEntries(x.rows[k]))
  {
    hide DeferredEntries;
  }

  /** Whatever was replayed, the index rows so far lie between `base` and the whole image. */
  lemma ReplayedSome<R>(x: Indexed<R>, base: set<Entry>, done: seq<Bytes>, entries: R -> set<Entry>)
    requires Replayed(x.idx, base, x.rows, done, entries)
    ensures base <= x.idx <= base + Image(x.rows, entries)
  {}

  lemma ReplayedAll<R>(x: Indexed<R>, base: set<Entry>, done: seq<Bytes>, entries: R -> set<Entry>)
    requires Replayed(x.idx, base, x.rows, done, entries)
    requires forall k :: k in x.rows ==> k in done
    ensures x == Indexed(x.rows, base + Image(x.rows, entries))
  {}

  // ---- what a rebuild guarantees ------------------------------------------

  lemma ImageExact<R>(rows: map<Bytes, R>, table: Table, entries: R -> set<Entry>)
    requires forall k :: k in rows ==> LeadsTo(entries(rows[k]), table, k)
    ensures Exact(Indexed(rows, Image(rows, entries)), table, entries)
  {
    ExactIsImage(Indexed(rows, Image(rows, entries)), table, entries);
  }

  /** Every index row that some stored row calls for leads back to that row. */
  lemma RowsLead(t: Tables)
    requires RowsKeyed(t)
    ensures forall k :: k in t.blocks.rows ==> LeadsTo(BlockEntries(t.blocks.rows[k]), BlockT, k)
    ensures forall k :: k in t.ops.rows ==> LeadsTo(OpEntries(t.ops.rows[k]), OpT, k)
    ensures EndorsementsPlaced(t.endorsements.rows) <==>
              forall k :: k in t.endorsements.rows ==>
                  LeadsTo(EndorsementEntries(t.endorsements.rows[k]), EndorsementT, k)
    ensures forall k :: k in t.transfers.rows ==> LeadsTo(TransferEntries(t.transfers.rows[k]), TransferT, k)
    ensures forall k :: k in t.denunciations.rows ==>
              LeadsTo(DenunciationEntries(t.denunciations.rows[k]), DenunciationT, k)
    ensures forall k :: k in t.scEvents.rows ==> LeadsTo(EventEntries(t.scEvents.rows[k]), EventT, k)
    ensures forall k :: k in t.asyncMsgs.rows ==> LeadsTo(AsyncEntries(t.asyncMsgs.rows[k]), AsyncT, k)
    ensures forall k :: k in t.deferredCalls.rows ==> LeadsTo(DeferredEntries(t.deferredCalls.rows[k]), DeferredT, k)
  {
    hide LeadsTo, BlockEntries, OpEntries, TransferEntries, DenunciationEntries, EventEntries, AsyncEntries;
    hide DeferredEntries;
    hide TransferKeyOf, EventKeyOf;
    forall k | k in t.blocks.rows ensures LeadsTo(BlockEntries(t.blocks.rows[k]), BlockT, k) {
      BlockLeads(t.blocks.rows[k]);
    }
    forall k | k in t.ops.rows ensures LeadsTo(OpEntries(t.ops.rows[k]), OpT, k) { OpLeads(t.ops.rows[k]); }
    forall k | k in t.endorsements.rows
      ensures LeadsTo(EndorsementEntries(t.endorsements.rows[k]), EndorsementT, k)
         <==> (t.endorsements.rows[k].id.Parsed? ==> t.endorsements.rows[k].id.id == k)
    {
      EndorsementRowLeads(t.endorsements.rows[k], k);
    }
    forall k | k in t.transfers.rows ensures LeadsTo(TransferEntries(t.transfers.rows[k]), TransferT, k) {
      TransferLeads(t.transfers.rows[k]);
    }
    forall k | k in t.denunciations.rows
      ensures LeadsTo(DenunciationEntries(t.denunciations.rows[k]), DenunciationT, k)
    {
      DenunciationLeads(t.denunciations.rows[k]);
    }
    forall k | k in t.scEvents.rows ensures LeadsTo(EventEntries(t.scEvents.rows[k]), EventT, k) {
      EventLeads(t.scEvents.rows[k]);
    }
    forall k | k in t.asyncMsgs.rows ensures LeadsTo(AsyncEntries(t.asyncMsgs.rows[k]), AsyncT, k) {
      AsyncLeads(t.asyncMsgs.rows[k]);
    }
    forall k | k in t.deferredCalls.rows ensures LeadsTo(DeferredEntries(t.deferredCalls.rows[k]), DeferredT, k) {
      DeferredLeads(t.deferredCalls.rows[k]);
    }
  }

  lemma EndorsementRowLeads(e: StoredEndorsement, k: Bytes)
    ensures LeadsTo(EndorsementEntries(e), EndorsementT, k) <==> (e.id.Parsed? ==> e.id.id == k)
  {
    hide AddrSlotIdKey, KeyIn;
    if e.id.Parsed? {
      EndorsementLeads(e);
      assert Entry(EndorsementByCreator, AddrSlotIdKey(e.creator, e.slot, e.id.id)) in EndorsementEntries(e);
    }
  }

  /** Every secondary index of the store is exact; the candidate pointers may hold more than they should. */
  ghost predicate SecondariesExact(t: Tables) {
    OthersExact(t) && Exact(t.endorsements, EndorsementT, EndorsementEntries)
  }

  /** Every secondary index but the endorsements' is exact. */
  ghost predicate OthersExact(t: Tables) {
    && Exact(Indexed(t.blocks.rows, t.blocks.idx - CandidatePointers(t) + Pointers(t.blocks.rows)), BlockT,
        BlockEntries)
    && Exact(t.ops, OpT, OpEntries)
    && Exact(t.transfers, TransferT, TransferEntries)
    && Exact(t.denunciations, DenunciationT, DenunciationEntries)
    && Exact(t.scEvents, EventT, EventEntries)
    && Exact(t.asyncMsgs, AsyncT, AsyncEntries)
    && Exact(t.deferredCalls, DeferredT, DeferredEntries)
  }

  /** The candidate pointers the stored blocks call for. */
  function Pointers(rows: map<Bytes, StoredBlock>): set<Entry> {
    set k | k in rows :: Entry(SlotCandidateBlock, CandidateKey(rows[k].slot, rows[k].id))
  }

  /** The pointers of blocks that are not stored, or not at that slot. */
  predicate NoStrayPointer(t: Tables) {
    CandidatePointers(t) <= Pointers(t.blocks.rows)
  }

  lemma BlockImage(t: Tables)
    ensures var y := CandidatePointers(t) + Image(t.blocks.rows, BlockEntries);
            y - (set e | e in y && e.cf == SlotCandidateBlock) + Pointers(t.blocks.rows)
                == Image(t.blocks.rows, BlockEntries)
    ensures NoStrayPointer(t) ==>
              CandidatePointers(t) + Image(t.blocks.rows, BlockEntries) == Image(t.blocks.rows, BlockEntries)
    ensures !NoStrayPointer(t) ==>
              CandidatePointers(t) + Image(t.blocks.rows, BlockEntries) != Image(t.blocks.rows, BlockEntries)
  {
    hide CandidateKey, AddrSlotIdKey;
    var rows := t.blocks.rows;
    forall e ensures e in Pointers(rows) <==> e in Image(rows, BlockEntries) && e.cf == SlotCandidateBlock {
      if e in Pointers(rows) {
        var k :| k in rows && e == Entry(SlotCandidateBlock, CandidateKey(rows[k].slot, rows[k].id));
        assert e in BlockEntries(rows[k]);
      }
    }
  }

  /**
   From any index contents: no row is touched, and every secondary index ends exact
   if and only if no readable endorsement row is misplaced.
   */
  lemma RebuildIsExact(t: Tables)
    requires RowsKeyed(t)
    ensures SecondariesExact(Rebuilt(t)) <==> EndorsementsPlaced(t.endorsements.rows)
    ensures OthersExact(Rebuilt(t))
    ensures forall table, k :: RowExists(Rebuilt(t), RowRef(table, k)) <==> RowExists(t, RowRef(table, k))
  {
    hide LeadsTo, BlockEntries, OpEntries, TransferEntries, DenunciationEntries, EventEntries, AsyncEntries;
    hide DeferredEntries;
    hide EndorsementEntries, Exact, Image, Pointers, Keyed, EndorsementsPlaced;
    RowsLead(t);
    BlockImage(t);
    ImageExact(t.blocks.rows, BlockT, BlockEntries);
    ImageExact(t.ops.rows, OpT, OpEntries);
    if EndorsementsPlaced(t.endorsements.rows) { ImageExact(t.endorsements.rows, EndorsementT, EndorsementEntries); }
    if Exact(Rebuilt(t).endorsements, EndorsementT, EndorsementEntries) {
      ExactLeads(Rebuilt(t).endorsements, EndorsementT, EndorsementEntries);
    }
    ImageExact(t.transfers.rows, TransferT, TransferEntries);
    ImageExact(t.denunciations.rows, DenunciationT, DenunciationEntries);
    ImageExact(t.scEvents.rows, EventT, EventEntries);
    ImageExact(t.asyncMsgs.rows, AsyncT, AsyncEntries);
    ImageExact(t.deferredCalls.rows, DeferredT, DeferredEntries);
  }

  lemma ExactLeads<R>(x: Indexed<R>, table: Table, entries: R -> set<Entry>)
    requires Exact(x, table, entries)
    ensures forall k :: k in x.rows ==> LeadsTo(entries(x.rows[k]), table, k)
  {}

  lemma KeyedMeansPlaced(rows: map<Bytes, StoredEndorsement>)
    requires EndorsementsParse(rows)
    ensures Keyed(rows, EndorsementKeyOf) <==> EndorsementsPlaced(rows)
  {}

  /**
   The image is a sound store exactly when no stray candidate pointer and no unreadable or misplaced
   endorsement row went in.
   */
  lemma RebuildRepairsIff(t: Tables)
    requires RowsKeyed(t) && SlotsKeyed(t.slots)
    ensures Valid(Rebuilt(t)) <==>
              NoStrayPointer(t) && EndorsementsParse(t.endorsements.rows) && EndorsementsPlaced(t.endorsements.rows)
  {
    if EndorsementsParse(t.endorsements.rows) { KeyedMeansPlaced(t.endorsements.rows); }
    hide LeadsTo, BlockEntries, OpEntries, TransferEntries, DenunciationEntries, EventEntries, AsyncEntries;
    hide DeferredEntries;
    hide EndorsementEntries, Exact, Image, Pointers, Keyed, NoStrayPointer;
    RowsLead(t);
    BlockImage(t);
    RebuildIsExact(t);
    ExactIsImage(Rebuilt(t).blocks, BlockT, BlockEntries);
  }

  /** A second rebuild changes nothing. */
  lemma RebuildIsIdempotent(t: Tables)
    ensures Rebuilt(Rebuilt(t)) == Rebuilt(t)
  {
    hide CandidateKey, AddrSlotIdKey;
    var u := Rebuilt(t);
    assert CandidatePointers(u) + Image(u.blocks.rows, BlockEntries) == u.blocks.idx;
  }

  /** A rebuild of a store in order is a no-op. */
  lemma RebuildKeepsValid(t: Tables)
    requires Valid(t)
    ensures Rebuilt(t) == t
  {
    hide LeadsTo, BlockEntries, OpEntries, TransferEntries, DenunciationEntries, EventEntries, AsyncEntries;
    hide DeferredEntries;
    hide EndorsementEntries, Exact, Image, Keyed, SlotsKeyed;
    ExactHasImage(t.blocks, BlockT, BlockEntries);
    ExactHasImage(t.ops, OpT, OpEntries);
    ExactHasImage(t.endorsements, EndorsementT, EndorsementEntries);
    ExactHasImage(t.transfers, TransferT, TransferEntries);
    ExactHasImage(t.denunciations, DenunciationT, DenunciationEntries);
    ExactHasImage(t.scEvents, EventT, EventEntries);
    ExactHasImage(t.asyncMsgs, AsyncT, AsyncEntries);
    ExactHasImage(t.deferredCalls, DeferredT, DeferredEntries);
    assert CandidatePointers(t) + t.blocks.idx == t.blocks.idx;
  }

  lemma ExactHasImage<R>(x: Indexed<R>, table: Table, entries: R -> set<Entry>)
    requires Exact(x, table, entries)
    ensures Image(x.rows, entries) == x.idx
  {
    ExactIsImage(x, table, entries);
  }
}
