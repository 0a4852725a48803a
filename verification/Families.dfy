/**
 What each of the 19 index families of a sound store holds, key by key, said of the
 stored rows alone.
 */
module Families {
  import opened ByteStrings
  import opened Ids
  import opened Keys
  import opened Model
  import opened Store

  /** An index row is there exactly when the row it names is, and calls for it. */
  lemma EntryIff<R>(x: Indexed<R>, table: Table, entries: R -> set<Entry>, e: Entry, k: Bytes)
    requires Exact(x, table, entries) && KeyIn(table, e) == Some(k)
    ensures e in x.idx <==> k in x.rows && e in entries(x.rows[k])
  {
    assert e in x.idx <==> Owned(x, table, entries, e);
  }

  /** Keys of one shape under owners of one width are equal only part by part. */
  lemma SameParts(h: Bytes, s: Slot, t: Bytes, h': Bytes, s': Slot, t': Bytes)
    requires |h| == |h'|
    ensures RSlotted(h, s, t) == RSlotted(h', s', t') <==> h == h' && s == s' && t == t'
  {
    if RSlotted(h, s, t) == RSlotted(h', s', t') { RSlottedInjective(h, s, t, h', s', t'); }
  }

  lemma SameAddrId(a: Address, id: Bytes, a': Address, id': Bytes)
    ensures AddrIdKey(a, id) == AddrIdKey(a', id') <==> a == a' && id == id'
  {
    assert AddrIdKey(a, id)[..ADDR_KEY_LEN] == a && AddrIdKey(a', id')[..ADDR_KEY_LEN] == a';
    assert AddrIdKey(a, id)[ADDR_KEY_LEN + 1..] == id && AddrIdKey(a', id')[ADDR_KEY_LEN + 1..] == id';
  }

  /** A block is filed under its creator at its slot, and points there as a candidate. */
  lemma BlockFamilies(x: Indexed<StoredBlock>, a: Address, s: Slot, id: Id)
    requires SoundBlocks(x)
    ensures Entry(BlockByCreator, AddrSlotIdKey(a, s, id)) in x.idx
       <==> id in x.rows && x.rows[id].creator == a && x.rows[id].slot == s
    ensures Entry(SlotCandidateBlock, CandidateKey(s, id)) in x.idx <==> id in x.rows && x.rows[id].slot == s
  {
    hide Exact, KeyIn, RSlotted;
    BlockLeads(StoredBlock(id, s, a, [], [], [], "", SeenCandidate));
    EntryIff(x, BlockT, BlockEntries, Entry(BlockByCreator, AddrSlotIdKey(a, s, id)), id);
    EntryIff(x, BlockT, BlockEntries, Entry(SlotCandidateBlock, CandidateKey(s, id)), id);
    if id in x.rows {
      SameParts(a, s, id, x.rows[id].creator, x.rows[id].slot, id);
      assert CandidateKey(s, id)[..SLOT_KEY_LEN] == SlotKey(s);
      assert CandidateKey(x.rows[id].slot, id)[..SLOT_KEY_LEN] == SlotKey(x.rows[id].slot);
      SlotKeyInjective(s, x.rows[id].slot);
    }
  }

  /** An included operation is filed under its creator and its target, at the slot of its first inclusion. */
  lemma OpFamilies(x: Indexed<StoredOperation>, a: Address, s: Slot, id: Id)
    requires SoundOps(x)
    ensures Entry(OpByCreator, AddrSlotIdKey(a, s, id)) in x.idx
       <==> id in x.rows && x.rows[id].inclusions != [] && x.rows[id].inclusions[0].slot == s && x.rows[id].creator == a
    ensures Entry(OpByTarget, AddrSlotIdKey(a, s, id)) in x.idx
       <==> id in x.rows && x.rows[id].inclusions != [] && x.rows[id].inclusions[0].slot == s
            && x.rows[id].target == Some(a)
  {
    hide Exact, KeyIn, RSlotted;
    OpLeads(StoredOperation(id, a, Some(a), RollBuy, 0, [OperationInclusion(s, id)], None, None, ""));
    EntryIff(x, OpT, OpEntries, Entry(OpByCreator, AddrSlotIdKey(a, s, id)), id);
    EntryIff(x, OpT, OpEntries, Entry(OpByTarget, AddrSlotIdKey(a, s, id)), id);
    if id in x.rows && x.rows[id].inclusions != [] {
      var o := x.rows[id];
      SameParts(a, s, id, o.creator, o.inclusions[0].slot, id);
      if o.target.Some? { SameParts(a, s, id, o.target.value, o.inclusions[0].slot, id); }
    }
  }

  lemma EndorsementFamilies(x: Indexed<StoredEndorsement>, a: Address, s: Slot, id: Id)
    requires SoundEndorsements(x)
    ensures Entry(EndorsementByCreator, AddrSlotIdKey(a, s, id)) in x.idx
       <==> id in x.rows && x.rows[id].creator == a && x.rows[id].slot == s
  {
    hide Exact, KeyIn, RSlotted;
    EndorsementLeads(StoredEndorsement(Parsed(id), s, a, id, s, ""));
    EntryIff(x, EndorsementT, EndorsementEntries, Entry(EndorsementByCreator, AddrSlotIdKey(a, s, id)), id);
    if id in x.rows {
      assert EndorsementKeyOf(x.rows[id]) == id;
      SameParts(a, s, id, x.rows[id].creator, x.rows[id].slot, id);
    }
  }

  /** The transfer at an index of a slot satisfies `p`. */
  predicate TransferAt(x: Indexed<StoredTransfer>, s: Slot, i: U32, p: StoredTransfer -> bool) {
    SlotIndexedKey(s, i) in x.rows && p(x.rows[SlotIndexedKey(s, i)])
  }

  lemma RowSlotIndex(rowSlot: Slot, rowIndex: U32, s: Slot, i: U32)
    requires SlotIndexedKey(rowSlot, rowIndex) == SlotIndexedKey(s, i)
    ensures rowSlot == s && rowIndex == i
  {
    SlotIndexedRoundTrip(rowSlot, rowIndex);
    SlotIndexedRoundTrip(s, i);
  }

  lemma SameTagged(a: Address, s: Slot, i: U32, tag: Byte, a': Address, tag': Byte)
    ensures TransferByAddrKey(a, s, i, tag) == TransferByAddrKey(a', s, i, tag') <==> a == a' && tag == tag'
  {
    SameParts(a, s, IndexBytes(i) + [tag], a', s, IndexBytes(i) + [tag']);
    assert (IndexBytes(i) + [tag])[INDEX_LEN] == tag && (IndexBytes(i) + [tag'])[INDEX_LEN] == tag';
  }

  /** A transfer is filed under its sender with one tag, under its receiver with the other, by operation and block. */
  lemma TransferFamilies(x: Indexed<StoredTransfer>, a: Address, id: Id, s: Slot, i: U32)
    requires SoundTransfers(x)
    ensures Entry(TransferByAddr, TransferByAddrKey(a, s, i, TAG_FROM)) in x.idx
       <==> TransferAt(x, s, i, (r: StoredTransfer) => r.from == Some(Parsed(a)))
    ensures Entry(TransferByAddr, TransferByAddrKey(a, s, i, TAG_TO)) in x.idx
       <==> TransferAt(x, s, i, (r: StoredTransfer) => r.to == Some(Parsed(a)))
    ensures Entry(TransferByOp, IdSlotIndexKey(id, s, i)) in x.idx
       <==> TransferAt(x, s, i, (r: StoredTransfer) => r.operationId == Some(Parsed(id)))
    ensures Entry(TransferByBlock, IdSlotIndexKey(id, s, i)) in x.idx
       <==> TransferAt(x, s, i, (r: StoredTransfer) => r.blockId == Some(Parsed(id)))
  {
    hide Exact, KeyIn, RSlotted, TransferByAddrKey, IdSlotIndexKey, SlotIndexedKey, IndexBytes;
    var k := SlotIndexedKey(s, i);
    var example := StoredTransfer(s, i, "", Some(Parsed(id)), 0, Some(Parsed(a)), Some(Parsed(a)), Coins(0),
                                  Unspecified, Some(Parsed(id)), None, None, None);
    TransferLeads(example);
    forall e | e in TransferEntries(example)
      ensures e in x.idx <==> k in x.rows && e in TransferEntries(x.rows[k])
    {
      EntryIff(x, TransferT, TransferEntries, e, k);
    }
    if k in x.rows {
      var r := x.rows[k];
      assert TransferKeyOf(r) == k;
      RowSlotIndex(r.slot, r.index, s, i);
      TransferEntriesAre(r, a, id);
    }
  }

  lemma TransferEntriesAre(r: StoredTransfer, a: Address, id: Id)
    ensures Entry(TransferByAddr, TransferByAddrKey(a, r.slot, r.index, TAG_FROM)) in TransferEntries(r)
       <==> r.from == Some(Parsed(a))
    ensures Entry(TransferByAddr, TransferByAddrKey(a, r.slot, r.index, TAG_TO)) in TransferEntries(r)
       <==> r.to == Some(Parsed(a))
    ensures Entry(TransferByOp, IdSlotIndexKey(id, r.slot, r.index)) in TransferEntries(r)
       <==> r.operationId == Some(Parsed(id))
    ensures Entry(TransferByBlock, IdSlotIndexKey(id, r.slot, r.index)) in TransferEntries(r)
       <==> r.blockId == Some(Parsed(id))
  {
    hide TransferByAddrKey;
    forall b, tag, tag' { SameTagged(a, r.slot, r.index, tag, b, tag'); }
    forall b: Id { SameParts(id, r.slot, IndexBytes(r.index), b, r.slot, IndexBytes(r.index)); }
  }

  /** A denunciation is filed by its own slot, and under the denounced address if that is known. */
  lemma DenunciationFamilies(x: Indexed<DenunciationEntry>, a: Address, s: Slot, h: Hash)
    requires SoundDenunciations(x)
    ensures Entry(DenunciationByAddr, DenunciationByAddrKey(a, s, h)) in x.idx
       <==> h in x.rows && x.rows[h].denouncedAddr == Some(a) && x.rows[h].slot == s
    ensures Entry(DenunciationRecent, DenunciationRecentKey(s, h)) in x.idx <==> h in x.rows && x.rows[h].slot == s
  {
    hide Exact, KeyIn, RSlotted;
    var d := StoredDenunciation(h, s, Some(a), "");
    DenunciationLeads(DenunciationEntry(h, s, Some(a), d, None, None));
    EntryIff(x, DenunciationT, DenunciationEntries, Entry(DenunciationByAddr, DenunciationByAddrKey(a, s, h)), h);
    EntryIff(x, DenunciationT, DenunciationEntries, Entry(DenunciationRecent, DenunciationRecentKey(s, h)), h);
    if h in x.rows {
      var r := x.rows[h];
      SameParts([], s, h, [], r.slot, h);
      if r.denouncedAddr.Some? { SameParts(a, s, h, r.denouncedAddr.value, r.slot, h); }
    }
  }

  predicate EventAt(x: Indexed<StoredScEvent>, s: Slot, i: U32, p: StoredScEvent -> bool) {
    SlotIndexedKey(s, i) in x.rows && p(x.rows[SlotIndexedKey(s, i)])
  }

  /** An event is filed under each emitter, under each caller, and by operation. */
  lemma EventFamilies(x: Indexed<StoredScEvent>, a: Address, id: Id, s: Slot, i: U32)
    requires SoundEvents(x)
    ensures Entry(EventByEmitter, EventByAddrKey(a, s, i)) in x.idx
       <==> EventAt(x, s, i, (ev: StoredScEvent) => a in ev.emitters)
    ensures Entry(EventByCaller, EventByAddrKey(a, s, i)) in x.idx
       <==> EventAt(x, s, i, (ev: StoredScEvent) => a in ev.callers)
    ensures Entry(EventByOp, IdSlotIndexKey(id, s, i)) in x.idx
       <==> EventAt(x, s, i, (ev: StoredScEvent) => ev.opId == Some(id))
  {
    hide Exact, KeyIn, RSlotted, EventByAddrKey, IdSlotIndexKey, SlotIndexedKey, IndexBytes;
    var k := SlotIndexedKey(s, i);
    var example := StoredScEvent(s, i, "", [a], [a], SlotStatus.Final, Some(id));
    EventLeads(example);
    assert a in example.emitters && a in example.callers;
    forall e | e in EventEntries(example)
      ensures e in x.idx <==> k in x.rows && e in EventEntries(x.rows[k])
    {
      EntryIff(x, EventT, EventEntries, e, k);
    }
    if k in x.rows {
      var r := x.rows[k];
      assert EventKeyOf(r) == k;
      RowSlotIndex(r.slot, r.index, s, i);
      EventEntriesAre(r, a, id);
    }
  }

  lemma EventEntriesAre(r: StoredScEvent, a: Address, id: Id)
    ensures Entry(EventByEmitter, EventByAddrKey(a, r.slot, r.index)) in EventEntries(r) <==> a in r.emitters
    ensures Entry(EventByCaller, EventByAddrKey(a, r.slot, r.index)) in EventEntries(r) <==> a in r.callers
    ensures Entry(EventByOp, IdSlotIndexKey(id, r.slot, r.index)) in EventEntries(r) <==> r.opId == Some(id)
  {
    forall b: Address { SameParts(a, r.slot, IndexBytes(r.index), b, r.slot, IndexBytes(r.index)); }
    forall b: Id { SameParts(id, r.slot, IndexBytes(r.index), b, r.slot, IndexBytes(r.index)); }
  }

  /** An async message is filed under its sender, its destination, and the slot it was last seen in. */
  lemma AsyncFamilies(x: Indexed<StoredAsyncMsg>, a: Address, s: Slot, id: Bytes)
    requires SoundAsync(x)
    ensures Entry(AsyncBySender, AddrIdKey(a, id)) in x.idx <==> id in x.rows && x.rows[id].sender == Some(a)
    ensures Entry(AsyncByDest, AddrIdKey(a, id)) in x.idx <==> id in x.rows && x.rows[id].destination == Some(a)
    ensures Entry(AsyncByLastSlot, ByLastSlotKey(s, id)) in x.idx <==> id in x.rows && x.rows[id].lastSlot == Some(s)
  {
    hide Exact, KeyIn, AddrIdKey, RSlotted;
    AsyncLeads(StoredAsyncMsg(id, Some(a), Some(a), 0, map[], AsyncMsgState.Pending, Some(s), 0));
    EntryIff(x, AsyncT, AsyncEntries, Entry(AsyncBySender, AddrIdKey(a, id)), id);
    EntryIff(x, AsyncT, AsyncEntries, Entry(AsyncByDest, AddrIdKey(a, id)), id);
    EntryIff(x, AsyncT, AsyncEntries, Entry(AsyncByLastSlot, ByLastSlotKey(s, id)), id);
    if id in x.rows {
      forall b: Address { SameAddrId(a, id, b, id); }
      forall s' { SameParts([], s, id, [], s', id); }
    }
  }

  /** A deferred call is filed under its sender, its target, and the slot it was last seen in. */
  lemma DeferredFamilies(x: Indexed<StoredDeferredCall>, a: Address, s: Slot, id: Bytes)
    requires SoundDeferred(x)
    ensures Entry(DeferredBySender, AddrIdKey(a, id)) in x.idx <==> id in x.rows && x.rows[id].sender == Some(a)
    ensures Entry(DeferredByTarget, AddrIdKey(a, id)) in x.idx <==> id in x.rows && x.rows[id].targetAddress == Some(a)
    ensures Entry(DeferredByLastSlot, ByLastSlotKey(s, id)) in x.idx
       <==> id in x.rows && x.rows[id].lastSlot == Some(s)
  {
    hide Exact, KeyIn, AddrIdKey, RSlotted;
    DeferredLeads(StoredDeferredCall(id, Some(a), Some(a), 0, None, None, DeferredCallState.Registered, Some(s), 0));
    EntryIff(x, DeferredT, DeferredEntries, Entry(DeferredBySender, AddrIdKey(a, id)), id);
    EntryIff(x, DeferredT, DeferredEntries, Entry(DeferredByTarget, AddrIdKey(a, id)), id);
    EntryIff(x, DeferredT, DeferredEntries, Entry(DeferredByLastSlot, ByLastSlotKey(s, id)), id);
    if id in x.rows {
      forall b: Address { SameAddrId(a, id, b, id); }
      forall s' { SameParts([], s, id, [], s', id); }
    }
  }
}
