/**
 What a client gets from an owner's listing, followed to its end, and from the
 slot listing started at a given slot.
 */
module Listings {
  import opened ByteStrings
  import opened Ids
  import opened Keys
  import opened Model
  import opened Store
  import opened Scan
  import opened Paging
  import opened Database

  // ---- listings by owner --------------------------------------------------

  /** Of the index rows `es`, family `cf` holds under `owner` just `key`, or nothing. */
  ghost predicate FiledUnder(es: set<Entry>, cf: IndexCf, owner: Bytes, owned: bool, key: Bytes) {
    forall e: Entry :: e.cf == cf && owner <= e.key ==> (e in es <==> owned && e.key == key)
  }

  /** Index family `cf` files the rows that `owned` picks under `owner`, by slot and `tail`, and no others. */
  ghost predicate Files<R>(x: Indexed<R>, entries: R -> set<Entry>, cf: IndexCf, owner: Bytes,
                           owned: R -> bool, slotOf: R -> Slot, tail: R -> Bytes) {
    forall k :: k in x.rows ==>
      var r := x.rows[k];
      FiledUnder(entries(r), cf, owner, owned(r), RSlotted(owner, slotOf(r), tail(r)))
  }

  /** Exactly the rows that `owned` picks, newest slot first, then by `tail` ascending. */
  ghost predicate IsListing<R>(items: seq<R>, x: Indexed<R>, owned: R -> bool, slotOf: R -> Slot, tail: R -> Bytes) {
    && (forall k :: k in x.rows && owned(x.rows[k]) ==> x.rows[k] in items)
    && (forall r :: r in items ==> owned(r) && exists k :: k in x.rows && x.rows[k] == r)
    && (forall i, j :: 0 <= i < j < |items| ==>
          Earlier(slotOf(items[j]), slotOf(items[i]))
          || (slotOf(items[i]) == slotOf(items[j]) && Less(tail(items[i]), tail(items[j]))))
  }

  /** The keys under `owner` that lead to a row, in scan order: what following the cursors hands out. */
  ghost predicate ScannedFor<R>(handed: seq<Bytes>, x: Indexed<R>, table: Table, cf: IndexCf, owner: Bytes) {
    && Ordered(Forward, handed)
    && forall k :: k in handed <==> k in KeysOf(x.idx, cf) && owner <= k && Dereference(x, table, cf)(k).Some?
  }

  lemma ScannedByPaging<R>(x: Indexed<R>, table: Table, cf: IndexCf, owner: Bytes, handed: seq<Bytes>)
    requires handed == InOrder(Forward, set k | k in KeysOf(x.idx, cf) && InRange(Forward, owner, owner, None, k)
                                                && Dereference(x, table, cf)(k).Some?)
    ensures ScannedFor(handed, x, table, cf, owner)
  {
    hide KeysOf;
    forall k | owner <= k ensures !Before(Forward, k, owner) { PrefixFirst(owner, k); }
  }

  /** A client that reads an owner's listing to its end. */
  method FollowOwner<R>(x: Indexed<R>, table: Table, cf: IndexCf, owner: Bytes, limit: nat)
    returns (items: seq<R>, ghost handed: seq<Bytes>)
    requires limit > 0
    ensures ScannedFor(handed, x, table, cf, owner) && ReadBack(items, handed, Dereference(x, table, cf))
  {
    hide KeysOf, Dereference, InRange;
    items, handed := FollowCursors(Forward, KeysOf(x.idx, cf), owner, owner, limit, Dereference(x, table, cf));
    ScannedByPaging(x, table, cf, owner, handed);
  }

  lemma HitIsFiled<R>(x: Indexed<R>, table: Table, entries: R -> set<Entry>, cf: IndexCf, owner: Bytes,
                      owned: R -> bool, slotOf: R -> Slot, tail: R -> Bytes, k: Bytes)
    requires Exact(x, table, entries) && Files(x, entries, cf, owner, owned, slotOf, tail)
    requires k in KeysOf(x.idx, cf) && owner <= k && Dereference(x, table, cf)(k).Some?
    ensures var r := Dereference(x, table, cf)(k).value;
            && owned(r) && k == RSlotted(owner, slotOf(r), tail(r))
            && exists pk :: pk in x.rows && x.rows[pk] == r
  {
    hide KeyIn;
    assert Owned(x, table, entries, Entry(cf, k));
  }

  lemma RowIsFiled<R>(x: Indexed<R>, table: Table, entries: R -> set<Entry>, cf: IndexCf, owner: Bytes,
                      owned: R -> bool, slotOf: R -> Slot, tail: R -> Bytes, pk: Bytes)
    requires Exact(x, table, entries) && Files(x, entries, cf, owner, owned, slotOf, tail)
    requires pk in x.rows && owned(x.rows[pk])
    ensures var k := RSlotted(owner, slotOf(x.rows[pk]), tail(x.rows[pk]));
            k in KeysOf(x.idx, cf) && owner <= k && Dereference(x, table, cf)(k) == Some(x.rows[pk])
  {
    hide KeyIn;
    var r := x.rows[pk];
    var k := RSlotted(owner, slotOf(r), tail(r));
    assert k[..|owner|] == owner;
    var e := Entry(cf, k);
    assert e in entries(r);
    assert LeadsTo(entries(r), table, pk);
    assert Owned(x, table, entries, e);
  }

  /** Any index that files rows under an owner lists, page after page, exactly the owner's rows in order. */
  lemma OwnerListing<R>(x: Indexed<R>, table: Table, entries: R -> set<Entry>, cf: IndexCf, owner: Bytes,
                        owned: R -> bool, slotOf: R -> Slot, tail: R -> Bytes, handed: seq<Bytes>, items: seq<R>)
    requires Exact(x, table, entries) && Files(x, entries, cf, owner, owned, slotOf, tail)
    requires ScannedFor(handed, x, table, cf, owner)
    requires ReadBack(items, handed, Dereference(x, table, cf))
    ensures IsListing(items, x, owned, slotOf, tail)
  {
    hide Exact, Files, KeysOf, Dereference, RSlotted, Less, Earlier;
    forall i | 0 <= i < |items|
      ensures owned(items[i]) && handed[i] == RSlotted(owner, slotOf(items[i]), tail(items[i]))
      ensures exists pk :: pk in x.rows && x.rows[pk] == items[i]
    {
      assert handed[i] in handed;
      HitIsFiled(x, table, entries, cf, owner, owned, slotOf, tail, handed[i]);
    }
    forall pk | pk in x.rows && owned(x.rows[pk]) ensures x.rows[pk] in items {
      RowIsFiled(x, table, entries, cf, owner, owned, slotOf, tail, pk);
      var i :| 0 <= i < |handed| && handed[i] == RSlotted(owner, slotOf(x.rows[pk]), tail(x.rows[pk]));
      assert items[i] == x.rows[pk];
    }
    forall i, j | 0 <= i < j < |items|
      ensures Earlier(slotOf(items[j]), slotOf(items[i]))
              || (slotOf(items[i]) == slotOf(items[j]) && Less(tail(items[i]), tail(items[j])))
    {
      assert Before(Forward, handed[i], handed[j]);
      RSlottedOrder(owner, slotOf(items[i]), tail(items[i]), slotOf(items[j]), tail(items[j]));
    }
  }

  // ---- the families -------------------------------------------------------

  function BlockSlot(b: StoredBlock): Slot { b.slot }
  function BlockTail(b: StoredBlock): Bytes { b.id }
  function OpSlot(o: StoredOperation): Slot { if o.inclusions == [] then Slot(0, 0) else o.inclusions[0].slot }
  function OpTail(o: StoredOperation): Bytes { o.id }
  function TransferSlot(r: StoredTransfer): Slot { r.slot }
  function TransferTail(r: StoredTransfer): Bytes { IndexBytes(r.index) }
  function EventSlot(ev: StoredScEvent): Slot { ev.slot }
  function EventTail(ev: StoredScEvent): Bytes { IndexBytes(ev.index) }

  lemma OwnKey(owner: Bytes, h: Bytes, s: Slot, t: Bytes)
    requires |owner| == |h|
    ensures owner <= RSlotted(h, s, t) <==> owner == h
  {
    OwnerPrefix(owner, h, s, t);
  }

  /** Blocks by creator: slot descending, then block id. */
  lemma BlocksByCreatorListed(t: Tables, a: Address, handed: seq<Bytes>, items: seq<StoredBlock>)
    requires Valid(t)
    requires ScannedFor(handed, t.blocks, BlockT, BlockByCreator, a)
    requires ReadBack(items, handed, Dereference(t.blocks, BlockT, BlockByCreator))
    ensures IsListing(items, t.blocks, (b: StoredBlock) => b.creator == a, BlockSlot, BlockTail)
  {
    hide Valid, Sound, Exact, IsListing, ScannedFor, ReadBack, Dereference, RSlotted, CandidateKey;
    var owned := (b: StoredBlock) => b.creator == a;
    forall k | k in t.blocks.rows ensures
      var r := t.blocks.rows[k];
      FiledUnder(BlockEntries(r), BlockByCreator, a, owned(r), RSlotted(a, BlockSlot(r), BlockTail(r)))
    {
      var b := t.blocks.rows[k];
      OwnKey(a, b.creator, b.slot, b.id);
    }
    ListedExact(t);
    OwnerListing(t.blocks, BlockT, BlockEntries, BlockByCreator, a, owned, BlockSlot, BlockTail, handed, items);
  }

  /** The four tables listed below agree with their indexes. */
  lemma ListedExact(t: Tables)
    requires Valid(t)
    ensures Exact(t.blocks, BlockT, BlockEntries) && Exact(t.ops, OpT, OpEntries)
    ensures Exact(t.transfers, TransferT, TransferEntries) && Exact(t.scEvents, EventT, EventEntries)
  {
    hide Exact;
  }

  /** The reader takes the id from the key; it is the id of the block behind the key. */
  lemma TrailingIdIsBlock(t: Tables, k: Bytes)
    requires Valid(t) && k in KeysOf(t.blocks.idx, BlockByCreator)
    ensures Dereference(t.blocks, BlockT, BlockByCreator)(k).Some?
    ensures TrailingId(k) == Some(Dereference(t.blocks, BlockT, BlockByCreator)(k).value.id)
  {
    hide ParseAddrSlotId, BlockEntries;
    assert Owned(t.blocks, BlockT, BlockEntries, Entry(BlockByCreator, k));
  }

  /** Operations by creator: slot of the first inclusion descending, then operation id. */
  lemma OpsByCreatorListed(t: Tables, a: Address, handed: seq<Bytes>, items: seq<StoredOperation>)
    requires Valid(t)
    requires ScannedFor(handed, t.ops, OpT, OpByCreator, a)
    requires ReadBack(items, handed, Dereference(t.ops, OpT, OpByCreator))
    ensures IsListing(items, t.ops, (o: StoredOperation) => o.inclusions != [] && o.creator == a, OpSlot, OpTail)
  {
    hide Valid, Sound, Exact, IsListing, ScannedFor, ReadBack, Dereference, RSlotted;
    var owned := (o: StoredOperation) => o.inclusions != [] && o.creator == a;
    forall k | k in t.ops.rows ensures
      var r := t.ops.rows[k];
      FiledUnder(OpEntries(r), OpByCreator, a, owned(r), RSlotted(a, OpSlot(r), OpTail(r)))
    {
      var o := t.ops.rows[k];
      OwnKey(a, o.creator, OpSlot(o), o.id);
    }
    ListedExact(t);
    OwnerListing(t.ops, OpT, OpEntries, OpByCreator, a, owned, OpSlot, OpTail, handed, items);
  }

  /** Transfers by operation: slot descending, then index in the slot. */
  lemma TransfersByOpListed(t: Tables, id: Id, handed: seq<Bytes>, items: seq<StoredTransfer>)
    requires Valid(t)
    requires ScannedFor(handed, t.transfers, TransferT, TransferByOp, id)
    requires ReadBack(items, handed, Dereference(t.transfers, TransferT, TransferByOp))
    ensures IsListing(items, t.transfers, (r: StoredTransfer) => OkOf(r.operationId) == Some(id), TransferSlot,
        TransferTail)
  {
    hide Valid, Sound, Exact, IsListing, ScannedFor, ReadBack, Dereference, RSlotted, PartyEntries;
    var owned := (r: StoredTransfer) => OkOf(r.operationId) == Some(id);
    forall k | k in t.transfers.rows ensures
      var r := t.transfers.rows[k];
      FiledUnder(TransferEntries(r), TransferByOp, id, owned(r), RSlotted(id, TransferSlot(r), TransferTail(r)))
    {
      var r := t.transfers.rows[k];
      PartiesAreByAddr(r);
      if OkOf(r.operationId).Some? { OwnKey(id, OkOf(r.operationId).value, r.slot, IndexBytes(r.index)); }
    }
    ListedExact(t);
    OwnerListing(t.transfers, TransferT, TransferEntries, TransferByOp, id, owned, TransferSlot, TransferTail, handed,
        items);
  }

  lemma PartiesAreByAddr(r: StoredTransfer)
    ensures forall e :: e in PartyEntries(r, r.from, TAG_FROM) + PartyEntries(r, r.to, TAG_TO) ==>
              e.cf == TransferByAddr
  {}

  /**
   SC events by emitter: slot descending, then index in the slot, each event once however often the emitter
   recurs in it.
   */
  lemma EventsByEmitterListed(t: Tables, a: Address, handed: seq<Bytes>, items: seq<StoredScEvent>)
    requires Valid(t)
    requires ScannedFor(handed, t.scEvents, EventT, EventByEmitter, a)
    requires ReadBack(items, handed, Dereference(t.scEvents, EventT, EventByEmitter))
    ensures IsListing(items, t.scEvents, (ev: StoredScEvent) => a in ev.emitters, EventSlot, EventTail)
  {
    hide Valid, Sound, Exact, IsListing, ScannedFor, ReadBack, Dereference, RSlotted, EventEntries;
    var owned := (ev: StoredScEvent) => a in ev.emitters;
    forall k | k in t.scEvents.rows ensures
      var r := t.scEvents.rows[k];
      FiledUnder(EventEntries(r), EventByEmitter, a, owned(r), RSlotted(a, EventSlot(r), EventTail(r)))
    {
      EmitterEntries(t.scEvents.rows[k], a);
    }
    ListedExact(t);
    OwnerListing(t.scEvents, EventT, EventEntries, EventByEmitter, a, owned, EventSlot, EventTail, handed, items);
  }

  lemma EmitterEntries(ev: StoredScEvent, a: Address)
    ensures FiledUnder(EventEntries(ev), EventByEmitter, a, a in ev.emitters,
        RSlotted(a, ev.slot, IndexBytes(ev.index)))
  {
    hide RSlotted;
    forall b: Address ensures a <= RSlotted(b, ev.slot, IndexBytes(ev.index)) <==> a == b {
      OwnKey(a, b, ev.slot, IndexBytes(ev.index));
    }
    assert forall b: Address :: EventByAddrKey(b, ev.slot, ev.index) == RSlotted(b, ev.slot, IndexBytes(ev.index));
    if a in ev.emitters {
      var e := Entry(EventByEmitter, EventByAddrKey(a, ev.slot, ev.index));
      assert e in EventAddrEntries(EventByEmitter, ev.emitters, ev.slot, ev.index);
    }
  }

  // ---- slots from a given one ---------------------------------------------

  /** The slot rows not after `bound`. */
  function NotAfter(slots: map<Bytes, SlotState>, bound: Slot): set<Bytes> {
    set k | k in slots && !Earlier(bound, slots[k].slot)
  }

  /** `slot_key ‖ 0x00` as an exclusive bound takes in the slot itself and everything before it. */
  lemma InclusiveWalk(slots: map<Bytes, SlotState>, bound: Slot)
    requires SlotsKeyed(slots)
    ensures Walked(Reverse, slots.Keys, [], MAX_SLOT_KEY, Some(SlotKey(bound) + [0])) == NotAfter(slots, bound)
  {
    var after := Some(SlotKey(bound) + [0]);
    WalkedIsBeyond(Reverse, slots.Keys, [], MAX_SLOT_KEY, after);
    forall k | k in slots ensures Before(Reverse, after.value, k) <==> !Earlier(bound, slots[k].slot) {
      InclusiveStart(bound, slots[k].slot);
    }
  }

  /** `GET /slots`: a cursor wins; otherwise a period starts the listing at that slot, inclusive. */
  method SlotsRange(db: Db, fromPeriod: Option<U64>, fromThread: Option<Byte>, cursor: Option<Bytes>, limit: nat)
    returns (items: seq<SlotState>, next: Option<Bytes>, ghost kept: seq<Bytes>)
    requires SlotsKeyed(db.inner.slots) && limit > 0
    ensures cursor.None? && fromPeriod.Some? ==>
              var bound := Slot(fromPeriod.value, if fromThread.Some? then fromThread.value else 31);
              IsPage(Reverse, NotAfter(db.inner.slots, bound), Rehydrates(SlotByKey(db.inner.slots)), limit,
                  Page(kept, next))
    ensures cursor.Some? || fromPeriod.None? ==>
              IsPage(Reverse, Walked(Reverse, db.inner.slots.Keys, [], MAX_SLOT_KEY, cursor),
                     Rehydrates(SlotByKey(db.inner.slots)), limit, Page(kept, next))
    ensures ReadBack(items, kept, SlotByKey(db.inner.slots))
    ensures forall i, j :: 0 <= i < j < |items| ==> Earlier(items[j].slot, items[i].slot)
  {
    hide Walked, NotAfter, SlotKey;
    var after := cursor;
    if cursor.None? && fromPeriod.Some? {
      var thread := if fromThread.Some? then fromThread.value else 31;
      var key := SlotKey(Slot(fromPeriod.value, thread));
      key := key + [0];
      after := Some(key);
      InclusiveWalk(db.inner.slots, Slot(fromPeriod.value, thread));
    }
    items, next, kept := db.IterSlotsDesc(after, limit);
    forall i, j | 0 <= i < j < |items| ensures Earlier(items[j].slot, items[i].slot) {
      assert Before(Reverse, kept[i], kept[j]);
      SlotKeyOrder(items[j].slot, items[i].slot);
    }
  }
}
