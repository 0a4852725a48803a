/**
 The RocksDB handle: row writers that keep the index column families in step,
 and the readers that page through them.
 */
module Database {
  import opened ByteStrings
  import opened Ids
  import opened Keys
  import opened Model
  import opened Store
  import opened Scan
  import opened Rebuild
  import IngestSpec
  import SelfTransfers

  /** The id at the end of an `addr ‖ rslot ‖ id` key. */
  function TrailingId(k: Bytes): Option<Bytes> {
    var p := ParseAddrSlotId(k);
    if p.Some? then Some(p.value.1) else None
  }

  /** The primary row of table `x` that an index key of `cf` names. */
  function Dereference<R>(x: Indexed<R>, table: Table, cf: IndexCf): Bytes -> Option<R> {
    (k: Bytes) =>
      var pk := KeyIn(table, Entry(cf, k));
      if pk.Some? then RowAt(x, pk.value) else None
  }

  /** A slot row by its raw key. */
  function SlotByKey(slots: map<Bytes, SlotState>): Bytes -> Option<SlotState> {
    (k: Bytes) => if k in slots then Some(slots[k]) else None
  }

  /** An index key at slot `s` that leads to an async row. */
  predicate Readable(t: Tables, s: Slot, k: Bytes) {
    k in KeysOf(t.asyncMsgs.idx, AsyncByLastSlot) && RSlotKey(s) <= k && LastSlotRow(t)(k).Some?
  }

  /** The async row behind a `rslot ‖ id` key. */
  function LastSlotRow(t: Tables): Bytes -> Option<StoredAsyncMsg> {
    (k: Bytes) => if |k| >= SLOT_KEY_LEN then RowAt(t.asyncMsgs, k[SLOT_KEY_LEN..]) else None
  }

  class Db {
    var inner: Tables

    constructor Open()
      ensures inner == EMPTY_TABLES
    {
      inner := EMPTY_TABLES;
    }

    // ---- writers ----------------------------------------------------------

    method WriteSlot(s: SlotState)
      modifies this
      ensures inner == old(inner).(slots := PutSlot(old(inner.slots), s))
    {
      inner := inner.(slots := inner.slots[SlotKey(s.slot) := s]);
    }

    method UpdateLastFinalSlot(s: Slot)
      modifies this
      ensures inner == old(inner).(lastFinalSlot := Some(s))
    {
      inner := inner.(lastFinalSlot := Some(s));
    }

    method UpdateLastCandidateSlot(s: Slot)
      modifies this
      ensures inner == old(inner).(lastCandidateSlot := Some(s))
    {
      inner := inner.(lastCandidateSlot := Some(s));
    }

    method EnsureParentStub(s: Slot)
      modifies this
      ensures inner == old(inner).(slots := IngestSpec.ParentStub(old(inner.slots), s))
    {
      if s.period == 0 {
        return;
      }
      var prev := Slot(s.period - 1, s.thread);
      if SlotAt(inner.slots, prev).Some? {
        return;
      }
      WriteSlot(FreshSlot(prev));
    }

    method WriteBlock(b: StoredBlock)
      modifies this
      ensures inner == old(inner).(blocks := PutBlock(old(inner.blocks), b))
    {
      var batch := {};
      batch := batch + {Entry(BlockByCreator, AddrSlotIdKey(b.creator, b.slot, b.id))};
      batch := batch + {Entry(SlotCandidateBlock, CandidateKey(b.slot, b.id))};
      assert batch == BlockEntries(b);
      inner := inner.(blocks := Put(inner.blocks, b.id, b, {}, batch));
    }

    /** An unparsable id is an error; a known id keeps its first row. */
    method WriteEndorsement(e: StoredEndorsement) returns (ok: bool)
      modifies this
      ensures ok == PutEndorsement(old(inner.endorsements), e).Some?
      ensures inner == if ok then old(inner).(endorsements := PutEndorsement(old(inner.endorsements), e).value)
          else old(inner)
    {
      if !e.id.Parsed? {
        return false;
      }
      if e.id.id in inner.endorsements.rows {
        return true;
      }
      var batch := {Entry(EndorsementByCreator, AddrSlotIdKey(e.creator, e.slot, e.id.id))};
      inner := inner.(endorsements := Put(inner.endorsements, e.id.id, e, {}, batch));
      return true;
    }

    method WriteOp(o: StoredOperation)
      modifies this
      ensures inner == old(inner).(ops := PutOp(old(inner.ops), o))
    {
      var batch := {};
      if o.inclusions != [] {
        var s := o.inclusions[0].slot;
        batch := batch + {Entry(OpByCreator, AddrSlotIdKey(o.creator, s, o.id))};
        if o.target.Some? {
          batch := batch + {Entry(OpByTarget, AddrSlotIdKey(o.target.value, s, o.id))};
        }
      }
      assert batch == OpEntries(o);
      inner := inner.(ops := Put(inner.ops, o.id, o, {}, batch));
    }

    method WriteScEvent(ev: StoredScEvent)
      modifies this
      ensures inner == old(inner).(scEvents := PutScEvent(old(inner.scEvents), ev))
    {
      var batch := EventAddrBatch(EventByEmitter, ev.emitters, ev.slot, ev.index);
      var callers := EventAddrBatch(EventByCaller, ev.callers, ev.slot, ev.index);
      batch := batch + callers;
      if ev.opId.Some? {
        batch := batch + {Entry(EventByOp, IdSlotIndexKey(ev.opId.value, ev.slot, ev.index))};
      }
      assert batch == EventEntries(ev);
      inner := inner.(scEvents := Put(inner.scEvents, SlotIndexedKey(ev.slot, ev.index), ev, {}, batch));
    }

    /** One index put per address of the list. */
    static method EventAddrBatch(cf: IndexCf, addrs: seq<Address>, s: Slot, i: U32) returns (batch: set<Entry>)
      ensures batch == EventAddrEntries(cf, addrs, s, i)
    {
      batch := {};
      for n := 0 to |addrs|
        invariant batch == EventAddrEntries(cf, addrs[..n], s, i)
      {
        assert addrs[..n + 1] == addrs[..n] + [addrs[n]];
        batch := batch + {Entry(cf, EventByAddrKey(addrs[n], s, i))};
      }
      assert addrs[..|addrs|] == addrs;
    }

    /** Walk the rows under a prefix: the iterator opens at the prefix and stops at the first key outside it. */
    static method RowsUnder(keys: set<Bytes>, prefix: Bytes) returns (hits: seq<Bytes>)
      ensures forall k :: k in hits <==> k in keys && prefix <= k
      ensures Ordered(Forward, hits)
    {
      var iter := SeekFrom(Forward, keys, prefix);
      var i := 0;
      while i < |iter| && prefix <= iter[i]
        invariant 0 <= i <= |iter|
        invariant Under(iter[..i], prefix)
      {
        UnderNext(iter, i, prefix);
        i := i + 1;
      }
      hits := iter[..i];
      forall k | k in keys && prefix <= k ensures k in hits {
        PrefixFirst(prefix, k);
        assert k in iter;
        var j :| 0 <= j < |iter| && iter[j] == k;
        if j >= i {
          assert iter[i] in iter;
          LessIrreflexive(k);
          if i < j { assert Before(Forward, iter[i], iter[j]); }
          if Less(k, iter[i]) { LessTransitive(k, iter[i], k); }
          PrefixBetween(prefix, iter[i], k);
        }
      }
    }

    method ClearScEventsForSlot(s: Slot)
      modifies this
      ensures inner == old(inner).(scEvents := ClearScEvents(old(inner.scEvents), s))
    {
      var x := inner.scEvents;
      var hits := RowsUnder(x.rows.Keys, SlotKey(s));
      var gone := {};
      for i := 0 to |hits|
        invariant forall e :: e in gone <==> exists j :: 0 <= j < i && e in EventEntries(x.rows[hits[j]])
      {
        gone := gone + EventEntries(x.rows[hits[i]]);
      }
      inner := inner.(scEvents := Indexed(x.rows - (set k | k in hits), x.idx - gone));
      ClearedTable(x, hits, SlotKey(s), EventEntries, gone);
    }

    method ClearTransfersForSlot(s: Slot)
      modifies this
      ensures inner == old(inner).(transfers := ClearTransfers(old(inner.transfers), s))
    {
      var x := inner.transfers;
      var hits := RowsUnder(x.rows.Keys, SlotKey(s));
      var gone := {};
      for i := 0 to |hits|
        invariant forall e :: e in gone <==> exists j :: 0 <= j < i && e in TransferEntries(x.rows[hits[j]])
      {
        gone := gone + TransferEntries(x.rows[hits[i]]);
      }
      inner := inner.(transfers := Indexed(x.rows - (set k | k in hits), x.idx - gone));
      ClearedTable(x, hits, SlotKey(s), TransferEntries, gone);
    }

    static lemma ClearedTable<R>(x: Indexed<R>, hits: seq<Bytes>, prefix: Bytes, entries: R -> set<Entry>,
                                 gone: set<Entry>)
      requires forall k :: k in hits <==> k in x.rows && prefix <= k
      requires forall e :: e in gone <==> exists j :: 0 <= j < |hits| && e in entries(x.rows[hits[j]])
      ensures Indexed(x.rows - (set k | k in hits), x.idx - gone) == ClearPrefix(x, prefix, entries)
    {
      var cleared := ClearPrefix(x, prefix, entries);
      assert cleared.rows == x.rows - (set k | k in hits);
      var gone' := set k, e | k in x.rows && prefix <= k && e in entries(x.rows[k]) :: e;
      forall e ensures e in gone <==> e in gone' {
        if e in gone' {
          var k :| k in x.rows && prefix <= k && e in entries(x.rows[k]);
          assert k in hits;
          var j :| 0 <= j < |hits| && hits[j] == k;
        }
        if e in gone {
          var j :| 0 <= j < |hits| && e in entries(x.rows[hits[j]]);
          assert hits[j] in hits;
        }
      }
      assert gone == gone';
    }

    method WriteDenunciation(d: DenunciationEntry)
      modifies this
      ensures inner == old(inner).(denunciations := PutDenunciation(old(inner.denunciations), d))
    {
      var x := inner.denunciations;
      if d.hash in x.rows {
        var prev := x.rows[d.hash];
        if prev.includedBlockId.None? && d.includedBlockId.Some? {
          prev := prev.(includedBlockId := d.includedBlockId, includedSlot := d.includedSlot);
          inner := inner.(denunciations := Put(x, d.hash, prev, {}, {}));
        }
        return;
      }
      var batch := {};
      if d.denouncedAddr.Some? {
        batch := batch + {Entry(DenunciationByAddr, DenunciationByAddrKey(d.denouncedAddr.value, d.slot, d.hash))};
      }
      batch := batch + {Entry(DenunciationRecent, DenunciationRecentKey(d.slot, d.hash))};
      assert batch == DenunciationEntries(d);
      inner := inner.(denunciations := Put(x, d.hash, d, {}, batch));
    }

    method WriteTransfer(r: StoredTransfer)
      modifies this
      ensures inner == old(inner).(transfers := PutTransfer(old(inner.transfers), r))
    {
      var batch := {};
      if r.from.Some? && r.from.value.Parsed? {
        batch := batch + {Entry(TransferByAddr, TransferByAddrKey(r.from.value.id, r.slot, r.index, TAG_FROM))};
      }
      if r.to.Some? && r.to.value.Parsed? {
        batch := batch + {Entry(TransferByAddr, TransferByAddrKey(r.to.value.id, r.slot, r.index, TAG_TO))};
      }
      if r.operationId.Some? && r.operationId.value.Parsed? {
        batch := batch + {Entry(TransferByOp, IdSlotIndexKey(r.operationId.value.id, r.slot, r.index))};
      }
      if r.blockId.Some? && r.blockId.value.Parsed? {
        batch := batch + {Entry(TransferByBlock, IdSlotIndexKey(r.blockId.value.id, r.slot, r.index))};
      }
      assert batch == TransferEntries(r) by { hide TransferByAddrKey, IdSlotIndexKey; }
      inner := inner.(transfers := Put(inner.transfers, SlotIndexedKey(r.slot, r.index), r, {}, batch));
    }

    method WriteAsyncMsg(m: StoredAsyncMsg)
      modifies this
      ensures inner == old(inner).(asyncMsgs := PutAsync(old(inner.asyncMsgs), m))
    {
      hide AddrIdKey, ByLastSlotKey;
      var x := inner.asyncMsgs;
      var row := m;
      var gone := {};
      if m.id in x.rows {
        var p := x.rows[m.id];
        if p.firstSeen != 0 {
          row := row.(firstSeen := p.firstSeen);
        }
        if p.sender != row.sender && p.sender.Some? {
          gone := gone + {Entry(AsyncBySender, AddrIdKey(p.sender.value, p.id))};
        }
        if p.destination != row.destination && p.destination.Some? {
          gone := gone + {Entry(AsyncByDest, AddrIdKey(p.destination.value, p.id))};
        }
        if p.lastSlot != row.lastSlot && p.lastSlot.Some? {
          gone := gone + {Entry(AsyncByLastSlot, ByLastSlotKey(p.lastSlot.value, p.id))};
        }
      }
      assert row == AsyncRow(RowAt(x, m.id), m);
      assert gone == StaleAsync(RowAt(x, m.id), row);
      var batch := {};
      if row.sender.Some? {
        batch := batch + {Entry(AsyncBySender, AddrIdKey(row.sender.value, row.id))};
      }
      if row.destination.Some? {
        batch := batch + {Entry(AsyncByDest, AddrIdKey(row.destination.value, row.id))};
      }
      if row.lastSlot.Some? {
        batch := batch + {Entry(AsyncByLastSlot, ByLastSlotKey(row.lastSlot.value, row.id))};
      }
      assert batch == AsyncEntries(row);
      inner := inner.(asyncMsgs := Put(x, row.id, row, gone, batch));
    }

    method DeleteAsyncMsg(id: Bytes)
      modifies this
      ensures inner == old(inner).(asyncMsgs := RemoveAsync(old(inner.asyncMsgs), id))
    {
      var x := inner.asyncMsgs;
      if id in x.rows {
        var p := x.rows[id];
        var gone := AddrIdEntry(AsyncBySender, p.sender, id);
        gone := gone + AddrIdEntry(AsyncByDest, p.destination, id);
        gone := gone + LastSlotEntry(AsyncByLastSlot, p.lastSlot, id);
        inner := inner.(asyncMsgs := Indexed(x.rows - {id}, x.idx - gone));
      }
    }

    method WriteDeferredCall(c: StoredDeferredCall)
      modifies this
      ensures inner == old(inner).(deferredCalls := PutDeferred(old(inner.deferredCalls), c))
    {
      hide AddrIdKey, ByLastSlotKey;
      var x := inner.deferredCalls;
      var row := c;
      var gone := {};
      if c.id in x.rows {
        var p := x.rows[c.id];
        if p.firstSeen != 0 {
          row := row.(firstSeen := p.firstSeen);
        }
        if p.sender != row.sender && p.sender.Some? {
          gone := gone + {Entry(DeferredBySender, AddrIdKey(p.sender.value, p.id))};
        }
        if p.targetAddress != row.targetAddress && p.targetAddress.Some? {
          gone := gone + {Entry(DeferredByTarget, AddrIdKey(p.targetAddress.value, p.id))};
        }
        if p.lastSlot != row.lastSlot && p.lastSlot.Some? {
          gone := gone + {Entry(DeferredByLastSlot, ByLastSlotKey(p.lastSlot.value, p.id))};
        }
      }
      assert row == DeferredRow(RowAt(x, c.id), c);
      assert gone == StaleDeferred(RowAt(x, c.id), row);
      var batch := {};
      if row.sender.Some? {
        batch := batch + {Entry(DeferredBySender, AddrIdKey(row.sender.value, row.id))};
      }
      if row.targetAddress.Some? {
        batch := batch + {Entry(DeferredByTarget, AddrIdKey(row.targetAddress.value, row.id))};
      }
      if row.lastSlot.Some? {
        batch := batch + {Entry(DeferredByLastSlot, ByLastSlotKey(row.lastSlot.value, row.id))};
      }
      assert batch == DeferredEntries(row);
      inner := inner.(deferredCalls := Put(x, row.id, row, gone, batch));
    }

    // ---- rebuild ----------------------------------------------------------

    /** The first keys of a scan, 4096 at most. */
    static method FirstBatch(iter: seq<Bytes>) returns (batch: set<Bytes>, n: nat)
      requires Ordered(Forward, iter)
      ensures n == if |iter| < 4096 then |iter| else 4096
      ensures n == |batch| && batch == set k | k in iter[..n]
    {
      n, batch := 0, {};
      while n < |iter| && n < 4096
        invariant 0 <= n <= |iter| && n <= 4096
        invariant batch == (set k | k in iter[..n]) && |batch| == n
      {
        OrderedFresh(Forward, iter, n);
        assert iter[..n + 1] == iter[..n] + [iter[n]];
        batch := batch + {iter[n]};
        n := n + 1;
      }
    }

    /** Delete every row of one index family, 4096 at a time; the number of rows deleted. */
    method RawClear(cf: IndexCf) returns (total: nat)
      modifies this
      ensures inner == WithIdx(old(inner), TableOf(cf), Drop(IdxOf(old(inner), TableOf(cf)), {cf}))
      ensures total == |CfRows(old(inner), cf)|
    {
      hide WithIdx, IdxOf, KeysOf, Drop, LeavesOthers, Ordered, InOrder;
      total := 0;
      ghost var t, table := inner, TableOf(cf);
      ghost var left := IdxOf(t, table);
      WithIdxLaws(t, table, left, left);
      assert LeavesOthers(left, left, cf) by { NothingTaken(left, cf); }
      while true
        invariant inner == WithIdx(t, table, left) && IdxOf(inner, table) == left
        invariant LeavesOthers(left, IdxOf(t, table), cf)
        invariant total + |KeysOf(left, cf)| == |CfRows(t, cf)|
        decreases |KeysOf(left, cf)|
      {
        var idx := IdxOf(inner, TableOf(cf));
        var iter := InOrder(Forward, KeysOf(idx, cf));
        var batch, n := FirstBatch(iter);
        if n == 0 {
          break;
        }
        var rest := set e | e in idx && !(e.cf == cf && e.key in batch);
        BatchKeys(idx, rest, cf, batch, iter);
        TakenFrom(left, rest, IdxOf(t, table), cf, batch);
        WithIdxLaws(t, table, left, rest);
        WithIdxLaws(t, table, rest, rest);
        inner := WithIdx(inner, TableOf(cf), rest);
        left := rest;
        total := total + n;
      }
      AllTaken(left, IdxOf(t, table), cf);
    }

    /** Only rows of family `cf` are gone from `all`. */
    static ghost predicate LeavesOthers(left: set<Entry>, all: set<Entry>, cf: IndexCf) {
      left <= all && forall e :: e in all && e.cf != cf ==> e in left
    }

    static lemma NothingTaken(all: set<Entry>, cf: IndexCf)
      ensures LeavesOthers(all, all, cf)
    {}

    static lemma TakenFrom(left: set<Entry>, rest: set<Entry>, all: set<Entry>, cf: IndexCf, batch: set<Bytes>)
      requires LeavesOthers(left, all, cf) && rest == set e | e in left && !(e.cf == cf && e.key in batch)
      ensures LeavesOthers(rest, all, cf)
    {}

    static lemma AllTaken(left: set<Entry>, all: set<Entry>, cf: IndexCf)
      requires LeavesOthers(left, all, cf) && KeysOf(left, cf) == {}
      ensures left == Drop(all, {cf})
    {
      NoKeys(left, cf);
    }

    static lemma NoKeys(idx: set<Entry>, cf: IndexCf)
      requires KeysOf(idx, cf) == {}
      ensures forall e :: e in idx ==> e.cf != cf
    {
      forall e | e in idx ensures e.cf != cf { assert e.cf == cf ==> e.key in KeysOf(idx, cf); }
    }

    static lemma BatchKeys(idx: set<Entry>, left: set<Entry>, cf: IndexCf, batch: set<Bytes>, iter: seq<Bytes>)
      requires forall k :: k in iter <==> k in KeysOf(idx, cf)
      requires forall k :: k in batch ==> k in iter
      requires left == set e | e in idx && !(e.cf == cf && e.key in batch)
      ensures |KeysOf(left, cf)| == |KeysOf(idx, cf)| - |batch|
    {
      assert batch <= KeysOf(idx, cf);
      assert KeysOf(left, cf) == KeysOf(idx, cf) - batch by {
      forall k ensures k in KeysOf(left, cf) <==> k in KeysOf(idx, cf) && k !in batch {
        assert k in KeysOf(left, cf) <==> Entry(cf, k) in left;
        assert k in KeysOf(idx, cf) <==> Entry(cf, k) in idx;
      }
      }
    }

    /** Drop every row of the 18 secondary families. */
    method WipeSecondaryIndexes() returns (cleared: seq<nat>)
      requires Filed(inner)
      modifies this
      ensures inner == Wiped(old(inner), set cf | cf in SECONDARY_INDEX_CFS)
      ensures |cleared| == |SECONDARY_INDEX_CFS|
      ensures forall i :: 0 <= i < |cleared| ==> cleared[i] == |CfRows(old(inner), SECONDARY_INDEX_CFS[i])|
    {
      hide CfRows, Drop, Filed, Wiped, TableOf, IdxOf, WithIdx;
      ghost var t := inner;
      cleared := [];
      ghost var gone := {};
      WipeNothing(t);
      for i := 0 to |SECONDARY_INDEX_CFS|
        invariant gone == set cf | cf in SECONDARY_INDEX_CFS[..i]
        invariant inner == Wiped(t, gone)
        invariant |cleared| == i
        invariant forall j :: 0 <= j < i ==> cleared[j] == |CfRows(t, SECONDARY_INDEX_CFS[j])|
      {
        var cf := SECONDARY_INDEX_CFS[i];
        WipedFiled(t, gone);
        WipeOne(inner, cf);
        WipeMore(t, gone, cf);
        CfsDistinct(i);
        var removed := RawClear(cf);
        cleared := cleared + [removed];
        gone := gone + {cf};
      }
      assert SECONDARY_INDEX_CFS[..|SECONDARY_INDEX_CFS|] == SECONDARY_INDEX_CFS;
    }

    /** Wipe the secondary families, then write every primary row again. */
    method RebuildSecondaryIndexes() returns (ok: bool, report: RebuildReport)
      requires Filed(inner) && RowsKeyed(inner)
      modifies this
      ensures ok <==> EndorsementsParse(old(inner).endorsements.rows)
      ensures ok ==> inner == Rebuilt(old(inner))
      // it succeeds with every secondary index exact exactly when each endorsement row sits under its own readable id
      ensures ok && SecondariesExact(inner) <==>
                EndorsementsParse(old(inner).endorsements.rows) && EndorsementsPlaced(old(inner).endorsements.rows)
      // and with a sound store exactly when, besides, no stray candidate pointer went in
      ensures SlotsKeyed(old(inner).slots) ==>
                (ok && Valid(inner) <==>
                  EndorsementsParse(old(inner).endorsements.rows)
                  && EndorsementsPlaced(old(inner).endorsements.rows) && NoStrayPointer(old(inner)))
      // a sound store is left as it is
      ensures old(Valid(inner)) ==> ok && inner == old(inner)
      ensures SameRows(inner, old(inner))
      // a failed rebuild stops with the later indexes still empty
      ensures !ok ==> inner.blocks == Rebuilt(old(inner)).blocks
      ensures !ok ==> inner.endorsements.idx <= Rebuilt(old(inner)).endorsements.idx
      ensures !ok ==> inner.ops.idx == inner.transfers.idx == inner.denunciations.idx == inner.scEvents.idx
                      == inner.asyncMsgs.idx == inner.deferredCalls.idx == {}
      ensures |report.cleared| == |SECONDARY_INDEX_CFS|
      ensures forall i :: 0 <= i < |report.cleared| ==>
                report.cleared[i] == |CfRows(old(inner), SECONDARY_INDEX_CFS[i])|
      ensures ok ==> report.replayed == RowCounts(old(inner))
    {
      hide CfRows, Filed, Wiped, Image, Keyed, CandidatePointers, EndorsementsParse;
      hide BlockEntries, OpEntries, EndorsementEntries, TransferEntries, EventEntries, DenunciationEntries;
      hide AsyncEntries, DeferredEntries;
      hide SecondariesExact, EndorsementsPlaced, NoStrayPointer, Valid, SlotsKeyed, RowsKeyed;
      ghost var t := inner;
      RebuildFacts(t);
      WipedClean(t);
      var cleared := WipeSecondaryIndexes();
      var blocks := ReplayBlocks();
      var endos;
      ok, endos := ReplayEndorsements();
      report := RebuildReport(cleared, [blocks]);
      if !ok {
        Onto(t.endorsements.rows, EndorsementEntries);
        return;
      }
      var ops := ReplayOps();
      var transfers := ReplayTransfers();
      var events := ReplayScEvents();
      var denos := ReplayDenunciations();
      var amsgs := ReplayAsyncMsgs();
      var dcalls := ReplayDeferredCalls();
      report := RebuildReport(cleared, [blocks, endos, ops, transfers, events, denos, amsgs, dcalls]);
      Onto(t.ops.rows, OpEntries);
      Onto(t.endorsements.rows, EndorsementEntries);
      Onto(t.transfers.rows, TransferEntries);
      Onto(t.denunciations.rows, DenunciationEntries);
      Onto(t.scEvents.rows, EventEntries);
      Onto(t.asyncMsgs.rows, AsyncEntries);
      Onto(t.deferredCalls.rows, DeferredEntries);
    }

    static lemma RebuildFacts(t: Tables)
      requires RowsKeyed(t)
      ensures SecondariesExact(Rebuilt(t)) <==> EndorsementsPlaced(t.endorsements.rows)
      ensures SlotsKeyed(t.slots) ==>
                (Valid(Rebuilt(t)) <==> NoStrayPointer(t) && EndorsementsParse(t.endorsements.rows)
                                        && EndorsementsPlaced(t.endorsements.rows))
      ensures Valid(t) ==> Rebuilt(t) == t && EndorsementsParse(t.endorsements.rows)
      ensures RowsKeyed(t) && Keyed(t.blocks.rows, BlockKeyOf) && Keyed(t.ops.rows, OpKeyOf)
      ensures Keyed(t.transfers.rows, TransferKeyOf) && Keyed(t.scEvents.rows, EventKeyOf)
      ensures Keyed(t.denunciations.rows, DenunciationKeyOf) && Keyed(t.asyncMsgs.rows, AsyncKeyOf)
      ensures Keyed(t.deferredCalls.rows, DeferredKeyOf)
    {
      hide Rebuilt, SecondariesExact, Keyed, Exact, NoStrayPointer, EndorsementsPlaced;
      RebuildIsExact(t);
      if SlotsKeyed(t.slots) { RebuildRepairsIff(t); }
      if Valid(t) { RebuildKeepsValid(t); }
    }

    static lemma Onto<R>(rows: map<Bytes, R>, entries: R -> set<Entry>)
      ensures {} + Image(rows, entries) == Image(rows, entries)
    {}

    method ReplayBlocks() returns (n: nat)
      requires Keyed(inner.blocks.rows, BlockKeyOf)
      modifies this
      ensures inner == old(inner).(blocks := Indexed(old(inner).blocks.rows,
          old(inner).blocks.idx + Image(old(inner).blocks.rows, BlockEntries)))
      ensures n == |old(inner).blocks.rows|
    {
      hide BlockEntries, Image, Replayed, Ordered, InOrder, Put, PutBlock;
      n := 0;
      ghost var x := inner.blocks;
      var keys := InOrder(Forward, inner.blocks.rows.Keys);
      ReplayStart(x, BlockEntries);
      while n < |keys|
        invariant 0 <= n <= |keys|
        invariant inner == old(inner).(blocks := inner.blocks) && inner.blocks.rows == x.rows
        invariant Replayed(inner.blocks.idx, x.idx, x.rows, keys[..n], BlockEntries)
      {
        assert keys[n] in keys;
        assert keys[..n + 1] == keys[..n] + [keys[n]];
        ReplayNext(inner.blocks, x.idx, keys[..n], keys[n], BlockEntries);
        BlockAgain(inner.blocks, keys[n]);
        WriteBlock(inner.blocks.rows[keys[n]]);
        n := n + 1;
      }
      assert keys[..n] == keys;
      ReplayedAll(inner.blocks, x.idx, keys, BlockEntries);
    }

    method ReplayOps() returns (n: nat)
      requires Keyed(inner.ops.rows, OpKeyOf)
      modifies this
      ensures inner == old(inner).(ops := Indexed(old(inner).ops.rows,
          old(inner).ops.idx + Image(old(inner).ops.rows, OpEntries)))
      ensures n == |old(inner).ops.rows|
    {
      hide OpEntries, Image, Replayed, Ordered, InOrder, Put, PutOp;
      n := 0;
      ghost var x := inner.ops;
      var keys := InOrder(Forward, inner.ops.rows.Keys);
      ReplayStart(x, OpEntries);
      while n < |keys|
        invariant 0 <= n <= |keys|
        invariant inner == old(inner).(ops := inner.ops) && inner.ops.rows == x.rows
        invariant Replayed(inner.ops.idx, x.idx, x.rows, keys[..n], OpEntries)
      {
        assert keys[n] in keys;
        assert keys[..n + 1] == keys[..n] + [keys[n]];
        ReplayNext(inner.ops, x.idx, keys[..n], keys[n], OpEntries);
        OpAgain(inner.ops, keys[n]);
        WriteOp(inner.ops.rows[keys[n]]);
        n := n + 1;
      }
      assert keys[..n] == keys;
      ReplayedAll(inner.ops, x.idx, keys, OpEntries);
    }

    method ReplayTransfers() returns (n: nat)
      requires Keyed(inner.transfers.rows, TransferKeyOf)
      modifies this
      ensures inner == old(inner).(transfers := Indexed(old(inner).transfers.rows,
          old(inner).transfers.idx + Image(old(inner).transfers.rows, TransferEntries)))
      ensures n == |old(inner).transfers.rows|
    {
      hide TransferEntries, Image, Replayed, Ordered, InOrder, Put, PutTransfer, TransferKeyOf;
      n := 0;
      ghost var x := inner.transfers;
      var keys := InOrder(Forward, inner.transfers.rows.Keys);
      ReplayStart(x, TransferEntries);
      while n < |keys|
        invariant 0 <= n <= |keys|
        invariant inner == old(inner).(transfers := inner.transfers) && inner.transfers.rows == x.rows
        invariant Replayed(inner.transfers.idx, x.idx, x.rows, keys[..n], TransferEntries)
      {
        assert keys[n] in keys;
        assert keys[..n + 1] == keys[..n] + [keys[n]];
        ReplayNext(inner.transfers, x.idx, keys[..n], keys[n], TransferEntries);
        TransferAgain(inner.transfers, keys[n]);
        WriteTransfer(inner.transfers.rows[keys[n]]);
        n := n + 1;
      }
      assert keys[..n] == keys;
      ReplayedAll(inner.transfers, x.idx, keys, TransferEntries);
    }

    method ReplayScEvents() returns (n: nat)
      requires Keyed(inner.scEvents.rows, EventKeyOf)
      modifies this
      ensures inner == old(inner).(scEvents := Indexed(old(inner).scEvents.rows,
          old(inner).scEvents.idx + Image(old(inner).scEvents.rows, EventEntries)))
      ensures n == |old(inner).scEvents.rows|
    {
      hide EventEntries, Image, Replayed, Ordered, InOrder, Put, PutScEvent, EventKeyOf;
      n := 0;
      ghost var x := inner.scEvents;
      var keys := InOrder(Forward, inner.scEvents.rows.Keys);
      ReplayStart(x, EventEntries);
      while n < |keys|
        invariant 0 <= n <= |keys|
        invariant inner == old(inner).(scEvents := inner.scEvents) && inner.scEvents.rows == x.rows
        invariant Replayed(inner.scEvents.idx, x.idx, x.rows, keys[..n], EventEntries)
      {
        assert keys[n] in keys;
        assert keys[..n + 1] == keys[..n] + [keys[n]];
        ReplayNext(inner.scEvents, x.idx, keys[..n], keys[n], EventEntries);
        EventAgain(inner.scEvents, keys[n]);
        WriteScEvent(inner.scEvents.rows[keys[n]]);
        n := n + 1;
      }
      assert keys[..n] == keys;
      ReplayedAll(inner.scEvents, x.idx, keys, EventEntries);
    }

    method ReplayDenunciations() returns (n: nat)
      requires Keyed(inner.denunciations.rows, DenunciationKeyOf)
      modifies this
      ensures inner == old(inner).(denunciations := Indexed(old(inner).denunciations.rows,
          old(inner).denunciations.idx + Image(old(inner).denunciations.rows, DenunciationEntries)))
      ensures n == |old(inner).denunciations.rows|
    {
      hide DenunciationEntries, Image, Replayed, Ordered, InOrder, Put, DenunciationByAddrKey, DenunciationRecentKey;
      n := 0;
      ghost var x := inner.denunciations;
      var keys := InOrder(Forward, inner.denunciations.rows.Keys);
      ReplayStart(x, DenunciationEntries);
      while n < |keys|
        invariant 0 <= n <= |keys|
        invariant inner == old(inner).(denunciations := inner.denunciations) && inner.denunciations.rows == x.rows
        invariant Replayed(inner.denunciations.idx, x.idx, x.rows, keys[..n], DenunciationEntries)
      {
        assert keys[n] in keys;
        assert keys[..n + 1] == keys[..n] + [keys[n]];
        ReplayNext(inner.denunciations, x.idx, keys[..n], keys[n], DenunciationEntries);
        var d := inner.denunciations.rows[keys[n]];
        var batch := {};
        if d.denouncedAddr.Some? {
          batch := batch + {Entry(DenunciationByAddr, DenunciationByAddrKey(d.denouncedAddr.value, d.slot, keys[n]))};
        }
        batch := batch + {Entry(DenunciationRecent, DenunciationRecentKey(d.slot, keys[n]))};
        DenunciationBatch(d, keys[n], batch);
        inner := inner.(denunciations := Indexed(inner.denunciations.rows, inner.denunciations.idx + batch));
        n := n + 1;
      }
      assert keys[..n] == keys;
      ReplayedAll(inner.denunciations, x.idx, keys, DenunciationEntries);
    }

    method ReplayAsyncMsgs() returns (n: nat)
      requires Keyed(inner.asyncMsgs.rows, AsyncKeyOf)
      modifies this
      ensures inner == old(inner).(asyncMsgs := Indexed(old(inner).asyncMsgs.rows,
          old(inner).asyncMsgs.idx + Image(old(inner).asyncMsgs.rows, AsyncEntries)))
      ensures n == |old(inner).asyncMsgs.rows|
    {
      hide AsyncEntries, Image, Replayed, Ordered, InOrder, Put, PutAsync;
      n := 0;
      ghost var x := inner.asyncMsgs;
      var keys := InOrder(Forward, inner.asyncMsgs.rows.Keys);
      ReplayStart(x, AsyncEntries);
      while n < |keys|
        invariant 0 <= n <= |keys|
        invariant inner == old(inner).(asyncMsgs := inner.asyncMsgs) && inner.asyncMsgs.rows == x.rows
        invariant Replayed(inner.asyncMsgs.idx, x.idx, x.rows, keys[..n], AsyncEntries)
      {
        assert keys[n] in keys;
        assert keys[..n + 1] == keys[..n] + [keys[n]];
        ReplayNext(inner.asyncMsgs, x.idx, keys[..n], keys[n], AsyncEntries);
        AsyncAgain(inner.asyncMsgs, keys[n]);
        WriteAsyncMsg(inner.asyncMsgs.rows[keys[n]]);
        n := n + 1;
      }
      assert keys[..n] == keys;
      ReplayedAll(inner.asyncMsgs, x.idx, keys, AsyncEntries);
    }

    method ReplayDeferredCalls() returns (n: nat)
      requires Keyed(inner.deferredCalls.rows, DeferredKeyOf)
      modifies this
      ensures inner == old(inner).(deferredCalls := Indexed(old(inner).deferredCalls.rows,
          old(inner).deferredCalls.idx + Image(old(inner).deferredCalls.rows, DeferredEntries)))
      ensures n == |old(inner).deferredCalls.rows|
    {
      hide DeferredEntries, Image, Replayed, Ordered, InOrder, Put, PutDeferred;
      n := 0;
      ghost var x := inner.deferredCalls;
      var keys := InOrder(Forward, inner.deferredCalls.rows.Keys);
      ReplayStart(x, DeferredEntries);
      while n < |keys|
        invariant 0 <= n <= |keys|
        invariant inner == old(inner).(deferredCalls := inner.deferredCalls) && inner.deferredCalls.rows == x.rows
        invariant Replayed(inner.deferredCalls.idx, x.idx, x.rows, keys[..n], DeferredEntries)
      {
        assert keys[n] in keys;
        assert keys[..n + 1] == keys[..n] + [keys[n]];
        ReplayNext(inner.deferredCalls, x.idx, keys[..n], keys[n], DeferredEntries);
        DeferredAgain(inner.deferredCalls, keys[n]);
        WriteDeferredCall(inner.deferredCalls.rows[keys[n]]);
        n := n + 1;
      }
      assert keys[..n] == keys;
      ReplayedAll(inner.deferredCalls, x.idx, keys, DeferredEntries);
    }

    static lemma DenunciationBatch(d: DenunciationEntry, k: Bytes, batch: set<Entry>)
      requires d.hash == k
      requires batch == (if d.denouncedAddr.Some?
          then {Entry(DenunciationByAddr, DenunciationByAddrKey(d.denouncedAddr.value, d.slot, k))} else {})
                        + {Entry(DenunciationRecent, DenunciationRecentKey(d.slot, k))}
      ensures batch == DenunciationEntries(d)
    {}

    /** A stored row is not written again, as the writer would skip it; its index row is put directly. */
    method ReplayEndorsements() returns (ok: bool, n: nat)
      modifies this
      ensures ok <==> EndorsementsParse(old(inner).endorsements.rows)
      ensures inner == old(inner).(endorsements := Indexed(old(inner).endorsements.rows, inner.endorsements.idx))
      ensures ok ==>
        inner.endorsements.idx == old(inner).endorsements.idx + Image(old(inner).endorsements.rows, EndorsementEntries)
      ensures old(inner).endorsements.idx <= inner.endorsements.idx
      ensures inner.endorsements.idx <= old(inner).endorsements.idx
          + Image(old(inner).endorsements.rows, EndorsementEntries)
      ensures ok ==> n == |old(inner).endorsements.rows|
    {
      hide Image, Replayed, Ordered, InOrder, AddrSlotIdKey;
      n := 0;
      ghost var x := inner.endorsements;
      ReplayStart(x, EndorsementEntries);
      var keys := InOrder(Forward, inner.endorsements.rows.Keys);
      while n < |keys|
        invariant 0 <= n <= |keys|
        invariant inner == old(inner).(endorsements := inner.endorsements) && inner.endorsements.rows == x.rows
        invariant Replayed(inner.endorsements.idx, x.idx, x.rows, keys[..n], EndorsementEntries)
        invariant forall k :: k in keys[..n] ==> x.rows[k].id.Parsed?
      {
        assert keys[n] in keys;
        assert keys[..n + 1] == keys[..n] + [keys[n]];
        ReplayNext(inner.endorsements, x.idx, keys[..n], keys[n], EndorsementEntries);
        var e := inner.endorsements.rows[keys[n]];
        if !e.id.Parsed? {
          ReplayedSome(inner.endorsements, x.idx, keys[..n], EndorsementEntries);
          return false, n;
        }
        var idx := Entry(EndorsementByCreator, AddrSlotIdKey(e.creator, e.slot, e.id.id));
        inner := inner.(endorsements := Indexed(inner.endorsements.rows, inner.endorsements.idx + {idx}));
        n := n + 1;
      }
      assert keys[..n] == keys;
      ReplayedAll(inner.endorsements, x.idx, keys, EndorsementEntries);
      ok := true;
    }

    // ---- readers ----------------------------------------------------------

    /** Slots newest first, from a raw key (exclusive) or from the largest slot key. */
    method IterSlotsDesc(after: Option<Bytes>, limit: nat)
      returns (items: seq<SlotState>, next: Option<Bytes>, ghost kept: seq<Bytes>)
      ensures limit == 0 ==> items == [] && next == None
      ensures limit > 0 ==>
        IsPage(Reverse, Walked(Reverse, inner.slots.Keys, [], MAX_SLOT_KEY, after),
               Rehydrates(SlotByKey(inner.slots)), limit, Page(kept, next))
      ensures ReadBack(items, kept, SlotByKey(inner.slots))
    {
      items, next, kept := ScanPage(Reverse, inner.slots.Keys, [], MAX_SLOT_KEY, after, limit, SlotByKey(inner.slots));
    }

    /** Ids of the blocks of a creator, newest first. */
    method IterBlocksByCreator(creator: Address, after: Option<Bytes>, limit: nat)
      returns (items: seq<Bytes>, next: Option<Bytes>, ghost kept: seq<Bytes>)
      ensures limit == 0 ==> items == [] && next == None
      ensures limit > 0 ==>
        IsPage(Forward, Walked(Forward, KeysOf(inner.blocks.idx, BlockByCreator), creator, creator, after),
               Rehydrates(TrailingId), limit, Page(kept, next))
      ensures ReadBack(items, kept, TrailingId)
    {
      items, next, kept :=
        ScanPage(Forward, KeysOf(inner.blocks.idx, BlockByCreator), creator, creator, after, limit, TrailingId);
    }

    /** Transfers behind an `id ‖ rslot ‖ index` index: by operation or by block. */
    method IterTransfersViaIdx(cf: IndexCf, id: Id, after: Option<Bytes>, limit: nat)
      returns (items: seq<StoredTransfer>, next: Option<Bytes>, ghost kept: seq<Bytes>)
      requires cf == TransferByOp || cf == TransferByBlock
      ensures limit == 0 ==> items == [] && next == None
      ensures limit > 0 ==>
        IsPage(Forward, Walked(Forward, KeysOf(inner.transfers.idx, cf), id, id, after),
               Rehydrates(Dereference(inner.transfers, TransferT, cf)), limit, Page(kept, next))
      ensures ReadBack(items, kept, Dereference(inner.transfers, TransferT, cf))
    {
      items, next, kept :=
        ScanPage(Forward, KeysOf(inner.transfers.idx, cf), id, id, after, limit,
                 Dereference(inner.transfers, TransferT, cf));
    }

    /** SC events by emitter, caller or operation. */
    method IterScEventsWithPrefix(cf: IndexCf, prefix: Bytes, after: Option<Bytes>, limit: nat)
      returns (items: seq<StoredScEvent>, next: Option<Bytes>, ghost kept: seq<Bytes>)
      requires cf == EventByEmitter || cf == EventByCaller || cf == EventByOp
      ensures limit == 0 ==> items == [] && next == None
      ensures limit > 0 ==>
        IsPage(Forward, Walked(Forward, KeysOf(inner.scEvents.idx, cf), prefix, prefix, after),
               Rehydrates(Dereference(inner.scEvents, EventT, cf)), limit, Page(kept, next))
      ensures ReadBack(items, kept, Dereference(inner.scEvents, EventT, cf))
    {
      items, next, kept :=
        ScanPage(Forward, KeysOf(inner.scEvents.idx, cf), prefix, prefix, after, limit,
                 Dereference(inner.scEvents, EventT, cf));
    }

    /** Transfers of an address as sender or receiver, a self-transfer once per page. */
    method IterTransfersByAddr(addr: Address, after: Option<Bytes>, limit: nat)
      returns (items: seq<StoredTransfer>, next: Option<Bytes>, ghost kept: seq<Bytes>)
      ensures limit == 0 ==> items == [] && next == None
      ensures limit > 0 ==>
        var w := Walked(Forward, KeysOf(inner.transfers.idx, TransferByAddr), addr, addr, after);
        IsPage(Forward, w, SelfTransfers.FreshHits(w, Dereference(inner.transfers, TransferT, TransferByAddr)),
               limit, Page(kept, next))
      ensures ReadBack(items, kept, Dereference(inner.transfers, TransferT, TransferByAddr))
    {
      items, next, kept := SelfTransfers.ScanTransfersByAddr(
        KeysOf(inner.transfers.idx, TransferByAddr), addr, after, limit,
        Dereference(inner.transfers, TransferT, TransferByAddr));
    }

    /**
     The async messages indexed at a slot, at most `limit` of them, by id: the readable
     rows behind the slot's index keys, from the first on. In a sound store these are the
     messages last seen there.
     */
    method IterAsyncMsgsByLastSlot(s: Slot, limit: nat) returns (out: seq<StoredAsyncMsg>, ghost kept: seq<Bytes>)
      ensures |out| <= limit && Ordered(Forward, kept) && ReadBack(out, kept, LastSlotRow(inner))
      ensures forall k :: k in kept ==> k in KeysOf(inner.asyncMsgs.idx, AsyncByLastSlot) && RSlotKey(s) <= k
      ensures forall k :: Readable(inner, s, k) && k !in kept
                ==> |kept| == limit && forall k' :: k' in kept ==> Before(Forward, k', k)
      ensures Valid(inner) ==> forall m :: m in out ==>
                m.id in inner.asyncMsgs.rows && inner.asyncMsgs.rows[m.id] == m && m.lastSlot == Some(s)
      ensures Valid(inner) && |out| < limit ==>
                forall id :: id in inner.asyncMsgs.rows && inner.asyncMsgs.rows[id].lastSlot == Some(s) ==>
                    inner.asyncMsgs.rows[id] in out
    {
      hide Valid, KeysOf, RSlotKey, ByLastSlotKey;
      out, kept := [], [];
      var keys := KeysOf(inner.asyncMsgs.idx, AsyncByLastSlot);
      var hits := RowsUnder(keys, RSlotKey(s));
      var i := 0;
      while i < |hits| && |out| < limit
        invariant 0 <= i <= |hits| && |out| <= limit
        invariant ReadBack(out, kept, LastSlotRow(inner)) && Ordered(Forward, kept)
        invariant forall k :: k in kept <==> k in hits[..i] && LastSlotRow(inner)(k).Some?
      {
        assert hits[..i + 1] == hits[..i] + [hits[i]];
        forall k | k in hits[..i] ensures Before(Forward, k, hits[i]) {}
        assert hits[i] in hits;
        var id := hits[i][SLOT_KEY_LEN..];
        if id in inner.asyncMsgs.rows {
          out, kept := out + [inner.asyncMsgs.rows[id]], kept + [hits[i]];
        }
        i := i + 1;
      }
      assert forall j :: 0 <= j < i ==> hits[j] in hits[..i];
      forall k | k in hits && LastSlotRow(inner)(k).Some? && k !in kept
        ensures |kept| == limit && forall k' :: k' in kept ==> Before(Forward, k', k)
      {
        var j :| 0 <= j < |hits| && hits[j] == k;
      }
      if Valid(inner) {
        forall m | m in out ensures m.id in inner.asyncMsgs.rows && inner.asyncMsgs.rows[m.id] == m
            && m.lastSlot == Some(s)
        {
          var j :| 0 <= j < |out| && out[j] == m;
          assert kept[j] in kept;
          LastSlotHit(inner, s, kept[j]);
        }
        if |out| < limit {
          forall id | id in inner.asyncMsgs.rows && inner.asyncMsgs.rows[id].lastSlot == Some(s)
            ensures inner.asyncMsgs.rows[id] in out
          {
            LastSlotListed(inner, s, id);
            var k := ByLastSlotKey(s, id);
            assert k in kept;
            var j :| 0 <= j < |kept| && kept[j] == k;
            assert out[j] == inner.asyncMsgs.rows[id];
          }
        }
      }
    }

    static lemma LastSlotHit(t: Tables, s: Slot, k: Bytes)
      requires Valid(t) && k in KeysOf(t.asyncMsgs.idx, AsyncByLastSlot) && RSlotKey(s) <= k
      ensures |k| >= SLOT_KEY_LEN && k[SLOT_KEY_LEN..] in t.asyncMsgs.rows
      ensures var m := t.asyncMsgs.rows[k[SLOT_KEY_LEN..]]; m.lastSlot == Some(s) && m.id == k[SLOT_KEY_LEN..]
    {
      hide SlotKey, AddrIdKey;
      var e := Entry(AsyncByLastSlot, k);
      assert Owned(t.asyncMsgs, AsyncT, AsyncEntries, e);
      var id := KeyIn(AsyncT, e).value;
      var m := t.asyncMsgs.rows[id];
      assert e in LastSlotEntry(AsyncByLastSlot, m.lastSlot, m.id);
      assert k == RSlotKey(m.lastSlot.value) + m.id;
      assert k[..SLOT_KEY_LEN] == RSlotKey(m.lastSlot.value) && k[SLOT_KEY_LEN..] == m.id;
      SlotKeyInjective(s, m.lastSlot.value);
    }

    static lemma LastSlotListed(t: Tables, s: Slot, id: Bytes)
      requires Valid(t) && id in t.asyncMsgs.rows && t.asyncMsgs.rows[id].lastSlot == Some(s)
      ensures ByLastSlotKey(s, id) in KeysOf(t.asyncMsgs.idx, AsyncByLastSlot) && RSlotKey(s) <= ByLastSlotKey(s, id)
      ensures |ByLastSlotKey(s, id)| >= SLOT_KEY_LEN && ByLastSlotKey(s, id)[SLOT_KEY_LEN..] == id
    {
      hide SlotKey, AddrIdKey;
      var e := Entry(AsyncByLastSlot, ByLastSlotKey(s, id));
      assert e in AsyncEntries(t.asyncMsgs.rows[id]);
      assert Owned(t.asyncMsgs, AsyncT, AsyncEntries, e);
    }
  }

  /** Where a descending slot scan starts when it has no cursor. */
  const MAX_SLOT_KEY := SlotKey(Slot(0xFFFF_FFFF_FFFF_FFFF, 31))
}
