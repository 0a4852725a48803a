/**
 The column families as values, the effect of every row writer, and the
 agreement between the derived index rows and the rows they point at.
 */
module Store {
  import opened ByteStrings
  import opened Ids
  import opened Keys
  import opened Model

  // ---- column families ----------------------------------------------------

  /** The 18 secondary indexes, and the slot → candidate-block pointers. */
  datatype IndexCf =
    | BlockByCreator | OpByCreator | OpByTarget | EndorsementByCreator
    | TransferByAddr | TransferByOp | TransferByBlock
    | DenunciationByAddr | DenunciationRecent
    | EventByEmitter | EventByCaller | EventByOp
    | AsyncBySender | AsyncByDest | AsyncByLastSlot
    | DeferredBySender | DeferredByTarget | DeferredByLastSlot
    | SlotCandidateBlock

  /** One index row; its value is empty, so the key carries everything. */
  datatype Entry = Entry(cf: IndexCf, key: Bytes)

  datatype Table = BlockT | OpT | EndorsementT | TransferT | DenunciationT | EventT | AsyncT | DeferredT
  datatype RowRef = RowRef(table: Table, key: Bytes)

  /** A primary column family with the index rows derived from it. */
  datatype Indexed<R> = Indexed(rows: map<Bytes, R>, idx: set<Entry>)

  datatype Tables = Tables(
    meta: bool,
    lastFinalSlot: Option<Slot>,
    lastCandidateSlot: Option<Slot>,
    slots: map<Bytes, SlotState>,
    blocks: Indexed<StoredBlock>,
    ops: Indexed<StoredOperation>,
    endorsements: Indexed<StoredEndorsement>,
    transfers: Indexed<StoredTransfer>,
    denunciations: Indexed<DenunciationEntry>,
    scEvents: Indexed<StoredScEvent>,
    asyncMsgs: Indexed<StoredAsyncMsg>,
    deferredCalls: Indexed<StoredDeferredCall>)

  function NoRows<R>(): Indexed<R> { Indexed(map[], {}) }

  const EMPTY_TABLES := Tables(false, None, None, map[], NoRows(), NoRows(), NoRows(), NoRows(), NoRows(),
                               NoRows(), NoRows(), NoRows())

  // ---- the index rows of one primary row ----------------------------------

  function BlockEntries(b: StoredBlock): set<Entry> {
    {Entry(BlockByCreator, AddrSlotIdKey(b.creator, b.slot, b.id)),
     Entry(SlotCandidateBlock, CandidateKey(b.slot, b.id))}
  }

  function OpEntries(o: StoredOperation): set<Entry> {
    if o.inclusions == [] then {}
    else
      var s := o.inclusions[0].slot;
      {Entry(OpByCreator, AddrSlotIdKey(o.creator, s, o.id))}
      + (if o.target.Some? then {Entry(OpByTarget, AddrSlotIdKey(o.target.value, s, o.id))} else {})
  }

  function EndorsementEntries(e: StoredEndorsement): set<Entry> {
    if e.id.Parsed? then {Entry(EndorsementByCreator, AddrSlotIdKey(e.creator, e.slot, e.id.id))} else {}
  }

  function PartyEntries(t: StoredTransfer, party: Option<Raw<Address>>, tag: Byte): set<Entry> {
    match OkOf(party)
    case Some(a) => {Entry(TransferByAddr, TransferByAddrKey(a, t.slot, t.index, tag))}
    case None => {}
  }

  function TransferEntries(t: StoredTransfer): set<Entry> {
    PartyEntries(t, t.from, TAG_FROM)
    + PartyEntries(t, t.to, TAG_TO)
    + (match OkOf(t.operationId)
       case Some(o) => {Entry(TransferByOp, IdSlotIndexKey(o, t.slot, t.index))}
       case None => {})
    + (match OkOf(t.blockId)
       case Some(b) => {Entry(TransferByBlock, IdSlotIndexKey(b, t.slot, t.index))}
       case None => {})
  }

  function DenunciationEntries(d: DenunciationEntry): set<Entry> {
    {Entry(DenunciationRecent, DenunciationRecentKey(d.slot, d.hash))}
    + (if d.denouncedAddr.Some?
       then {Entry(DenunciationByAddr, DenunciationByAddrKey(d.denouncedAddr.value, d.slot, d.hash))}
       else {})
  }

  function EventAddrEntries(cf: IndexCf, addrs: seq<Address>, s: Slot, i: U32): set<Entry> {
    set a | a in addrs :: Entry(cf, EventByAddrKey(a, s, i))
  }

  function EventEntries(ev: StoredScEvent): set<Entry> {
    EventAddrEntries(EventByEmitter, ev.emitters, ev.slot, ev.index)
    + EventAddrEntries(EventByCaller, ev.callers, ev.slot, ev.index)
    + (if ev.opId.Some? then {Entry(EventByOp, IdSlotIndexKey(ev.opId.value, ev.slot, ev.index))} else {})
  }

  function AddrIdEntry(cf: IndexCf, a: Option<Address>, id: Bytes): set<Entry> {
    if a.Some? then {Entry(cf, AddrIdKey(a.value, id))} else {}
  }

  function LastSlotEntry(cf: IndexCf, s: Option<Slot>, id: Bytes): set<Entry> {
    if s.Some? then {Entry(cf, ByLastSlotKey(s.value, id))} else {}
  }

  function AsyncEntries(m: StoredAsyncMsg): set<Entry> {
    AddrIdEntry(AsyncBySender, m.sender, m.id)
    + AddrIdEntry(AsyncByDest, m.destination, m.id)
    + LastSlotEntry(AsyncByLastSlot, m.lastSlot, m.id)
  }

  function DeferredEntries(c: StoredDeferredCall): set<Entry> {
    AddrIdEntry(DeferredBySender, c.sender, c.id)
    + AddrIdEntry(DeferredByTarget, c.targetAddress, c.id)
    + LastSlotEntry(DeferredByLastSlot, c.lastSlot, c.id)
  }

  // ---- from an index row back to its primary ------------------------------

  function IdRow(table: Table, parsed: Option<(Slot, Bytes)>): Option<RowRef> {
    if parsed.Some? then Some(RowRef(table, parsed.value.1)) else None
  }

  function SlotIndexedRow(table: Table, parsed: Option<(Slot, U32)>): Option<RowRef> {
    if parsed.Some? then Some(RowRef(table, SlotIndexedKey(parsed.value.0, parsed.value.1))) else None
  }

  function MessageRow(table: Table, parsed: Option<Bytes>): Option<RowRef> {
    if parsed.Some? then Some(RowRef(table, parsed.value)) else None
  }

  /** The primary row an index key names, or `None` for a malformed key. */
  function Target(e: Entry): Option<RowRef> {
    match e.cf
    case BlockByCreator => IdRow(BlockT, ParseAddrSlotId(e.key))
    case OpByCreator => IdRow(OpT, ParseAddrSlotId(e.key))
    case OpByTarget => IdRow(OpT, ParseAddrSlotId(e.key))
    case EndorsementByCreator => IdRow(EndorsementT, ParseAddrSlotId(e.key))
    case TransferByAddr =>
      var p := ParseTransferByAddr(e.key);
      if p.Some? then Some(RowRef(TransferT, SlotIndexedKey(p.value.0, p.value.1))) else None
    case TransferByOp => SlotIndexedRow(TransferT, ParseIdSlotIndex(e.key))
    case TransferByBlock => SlotIndexedRow(TransferT, ParseIdSlotIndex(e.key))
    case DenunciationByAddr => IdRow(DenunciationT, ParseDenunciationByAddr(e.key))
    case DenunciationRecent => IdRow(DenunciationT, ParseDenunciationRecent(e.key))
    case EventByEmitter => SlotIndexedRow(EventT, ParseEvent(e.key))
    case EventByCaller => SlotIndexedRow(EventT, ParseEvent(e.key))
    case EventByOp => SlotIndexedRow(EventT, ParseEvent(e.key))
    case AsyncBySender => MessageRow(AsyncT, SplitAddrId(e.key))
    case AsyncByDest => MessageRow(AsyncT, SplitAddrId(e.key))
    case AsyncByLastSlot => IdRow(AsyncT, ParseByLastSlot(e.key))
    case DeferredBySender => MessageRow(DeferredT, SplitAddrId(e.key))
    case DeferredByTarget => MessageRow(DeferredT, SplitAddrId(e.key))
    case DeferredByLastSlot => IdRow(DeferredT, ParseByLastSlot(e.key))
    case SlotCandidateBlock =>
      if |e.key| == SLOT_KEY_LEN + ID_KEY_LEN then Some(RowRef(BlockT, e.key[SLOT_KEY_LEN..])) else None
  }

  predicate RowExists(t: Tables, r: RowRef) {
    match r.table
    case BlockT => r.key in t.blocks.rows
    case OpT => r.key in t.ops.rows
    case EndorsementT => r.key in t.endorsements.rows
    case TransferT => r.key in t.transfers.rows
    case DenunciationT => r.key in t.denunciations.rows
    case EventT => r.key in t.scEvents.rows
    case AsyncT => r.key in t.asyncMsgs.rows
    case DeferredT => r.key in t.deferredCalls.rows
  }

  /** The key an index row names within one table. */
  function KeyIn(table: Table, e: Entry): Option<Bytes> {
    var r := Target(e);
    if r.Some? && r.value.table == table then Some(r.value.key) else None
  }

  /** The keys of one index column family. */
  function KeysOf(idx: set<Entry>, cf: IndexCf): set<Bytes> {
    set e | e in idx && e.cf == cf :: e.key
  }

  // ---- agreement ----------------------------------------------------------

  /** `e` names a row of `x`, and that row lists `e` among its index rows. */
  predicate Owned<R>(x: Indexed<R>, table: Table, entries: R -> set<Entry>, e: Entry) {
    var k := KeyIn(table, e);
    k.Some? && k.value in x.rows && e in entries(x.rows[k.value])
  }

  /**
   The index rows kept with `x` are exactly those its rows call for, and every
   index row of a row leads back to that row.
   */
  ghost predicate Exact<R>(x: Indexed<R>, table: Table, entries: R -> set<Entry>) {
    && (forall e :: e in x.idx <==> Owned(x, table, entries, e))
    && (forall k :: k in x.rows ==> LeadsTo(entries(x.rows[k]), table, k))
  }

  ghost predicate LeadsTo(es: set<Entry>, table: Table, k: Bytes) {
    forall e :: e in es ==> KeyIn(table, e) == Some(k)
  }

  function BlockKeyOf(b: StoredBlock): Bytes { b.id }
  function OpKeyOf(o: StoredOperation): Bytes { o.id }
  function EndorsementKeyOf(e: StoredEndorsement): Bytes { if e.id.Parsed? then e.id.id else [] }
  function TransferKeyOf(x: StoredTransfer): Bytes { SlotIndexedKey(x.slot, x.index) }
  function DenunciationKeyOf(d: DenunciationEntry): Bytes { d.hash }
  function EventKeyOf(ev: StoredScEvent): Bytes { SlotIndexedKey(ev.slot, ev.index) }
  function AsyncKeyOf(m: StoredAsyncMsg): Bytes { m.id }
  function DeferredKeyOf(c: StoredDeferredCall): Bytes { c.id }

  /** Every row sits under the key its own contents give. */
  ghost predicate Keyed<R>(rows: map<Bytes, R>, keyOf: R -> Bytes) {
    forall k :: k in rows ==> keyOf(rows[k]) == k
  }

  /** Every stored endorsement id parses: the writer refuses the others. */
  predicate EndorsementsParse(rows: map<Bytes, StoredEndorsement>) {
    forall k :: k in rows ==> rows[k].id.Parsed?
  }

  ghost predicate Sound<R>(x: Indexed<R>, table: Table, entries: R -> set<Entry>, keyOf: R -> Bytes) {
    Keyed(x.rows, keyOf) && Exact(x, table, entries)
  }

  ghost predicate SoundBlocks(x: Indexed<StoredBlock>) { Sound(x, BlockT, BlockEntries, BlockKeyOf) }
  ghost predicate SoundOps(x: Indexed<StoredOperation>) { Sound(x, OpT, OpEntries, OpKeyOf) }
  ghost predicate SoundEndorsements(x: Indexed<StoredEndorsement>) {
    Sound(x, EndorsementT, EndorsementEntries, EndorsementKeyOf) && EndorsementsParse(x.rows)
  }
  ghost predicate SoundTransfers(x: Indexed<StoredTransfer>) { Sound(x, TransferT, TransferEntries, TransferKeyOf) }
  ghost predicate SoundDenunciations(x: Indexed<DenunciationEntry>) {
    Sound(x, DenunciationT, DenunciationEntries, DenunciationKeyOf)
  }
  ghost predicate SoundEvents(x: Indexed<StoredScEvent>) { Sound(x, EventT, EventEntries, EventKeyOf) }
  ghost predicate SoundAsync(x: Indexed<StoredAsyncMsg>) { Sound(x, AsyncT, AsyncEntries, AsyncKeyOf) }
  ghost predicate SoundDeferred(x: Indexed<StoredDeferredCall>) { Sound(x, DeferredT, DeferredEntries, DeferredKeyOf) }

  ghost predicate SlotsKeyed(slots: map<Bytes, SlotState>) {
    forall k :: k in slots ==> SlotKey(slots[k].slot) == k
  }

  /** Rows under their own keys, and all 19 derived column families exact. */
  ghost predicate Valid(t: Tables) {
    && SlotsKeyed(t.slots)
    && SoundBlocks(t.blocks)
    && SoundOps(t.ops)
    && SoundEndorsements(t.endorsements)
    && SoundTransfers(t.transfers)
    && SoundDenunciations(t.denunciations)
    && SoundEvents(t.scEvents)
    && SoundAsync(t.asyncMsgs)
    && SoundDeferred(t.deferredCalls)
  }

  /** The index rows called for by every row of a table. */
  function Image<R>(rows: map<Bytes, R>, entries: R -> set<Entry>): set<Entry> {
    set k, e | k in rows && e in entries(rows[k]) :: e
  }

  /** Agreement row by row is the same as: the index is the image of the primary. */
  lemma ExactIsImage<R>(x: Indexed<R>, table: Table, entries: R -> set<Entry>)
    requires forall k :: k in x.rows ==> LeadsTo(entries(x.rows[k]), table, k)
    ensures Exact(x, table, entries) <==> x.idx == Image(x.rows, entries)
  {
    forall e ensures e in Image(x.rows, entries) <==> Owned(x, table, entries, e) {
      if e in Image(x.rows, entries) {
        var k :| k in x.rows && e in entries(x.rows[k]);
        assert LeadsTo(entries(x.rows[k]), table, k);
      }
    }
  }

  /** Replace one row and swap its index rows. */
  lemma PutExact<R>(x: Indexed<R>, table: Table, entries: R -> set<Entry>, k: Bytes, row: R,
                    gone: set<Entry>, put: set<Entry>)
    requires Exact(x, table, entries)
    requires LeadsTo(entries(row), table, k)
    requires k in x.rows ==> gone <= entries(x.rows[k]) && entries(x.rows[k]) - gone <= entries(row)
    requires k !in x.rows ==> gone == {}
    requires put <= entries(row)
    requires k !in x.rows ==> put == entries(row)
    requires k in x.rows ==> entries(row) - put <= entries(x.rows[k]) - gone
    ensures Exact(Indexed(x.rows[k := row], (x.idx - gone) + put), table, entries)
  {
    var y := Indexed(x.rows[k := row], (x.idx - gone) + put);
    forall e ensures e in y.idx <==> Owned(y, table, entries, e) {
      assert e in x.idx <==> Owned(x, table, entries, e);
      if k in x.rows {
        assert LeadsTo(entries(x.rows[k]), table, k);
      }
      if KeyIn(table, e) == Some(k) {
        assert Owned(y, table, entries, e) <==> e in entries(row);
        if k in x.rows {
          assert e in entries(row) - put ==> e in entries(x.rows[k]) - gone;
          assert e in entries(x.rows[k]) - gone ==> e in entries(row);
          assert e in x.idx <==> e in entries(x.rows[k]);
          assert e in y.idx <==> e in entries(row);
        } else {
          assert e in y.idx <==> e in entries(row);
        }
      } else {
        assert e !in gone && e !in put;
        assert e in y.idx <==> e in x.idx;
        assert Owned(y, table, entries, e) <==> Owned(x, table, entries, e);
      }
    }
  }

  /** Drop rows together with all their index rows. */
  lemma DropExact<R>(x: Indexed<R>, y: Indexed<R>, table: Table, entries: R -> set<Entry>)
    requires Exact(x, table, entries)
    requires forall k :: k in y.rows ==> k in x.rows && y.rows[k] == x.rows[k]
    requires forall e :: e in y.idx <==>
              e in x.idx && forall k :: k in x.rows && k !in y.rows ==> e !in entries(x.rows[k])
    ensures Exact(y, table, entries)
  {
    forall e ensures e in y.idx <==> Owned(y, table, entries, e) {
      assert e in x.idx <==> Owned(x, table, entries, e);
      if Owned(y, table, entries, e) {
        forall k | k in x.rows && k !in y.rows ensures e !in entries(x.rows[k]) {
          assert LeadsTo(entries(x.rows[k]), table, k);
        }
      }
    }
  }

  // ---- every index row of a row leads back to that row --------------------

  lemma BlockLeads(b: StoredBlock)
    ensures LeadsTo(BlockEntries(b), BlockT, b.id)
  {
    RSlottedRoundTrip(b.creator, b.slot, b.id);
    assert CandidateKey(b.slot, b.id)[SLOT_KEY_LEN..] == b.id;
  }

  lemma OpLeads(o: StoredOperation)
    ensures LeadsTo(OpEntries(o), OpT, o.id)
  {
    if o.inclusions != [] {
      RSlottedRoundTrip(o.creator, o.inclusions[0].slot, o.id);
      if o.target.Some? { RSlottedRoundTrip(o.target.value, o.inclusions[0].slot, o.id); }
    }
  }

  lemma EndorsementLeads(x: StoredEndorsement)
    requires x.id.Parsed?
    ensures LeadsTo(EndorsementEntries(x), EndorsementT, x.id.id)
  {
    RSlottedRoundTrip(x.creator, x.slot, x.id.id);
  }

  lemma IdSlotIndexRoundTrip(id: Id, s: Slot, i: U32)
    ensures ParseIdSlotIndex(IdSlotIndexKey(id, s, i)) == Some((s, i))
    ensures ParseEvent(IdSlotIndexKey(id, s, i)) == Some((s, i))
  {
    RSlottedRoundTrip(id, s, IndexBytes(i));
    IndexRoundTrip(i);
  }

  lemma PartyLeads(t: StoredTransfer, party: Option<Raw<Address>>, tag: Byte)
    ensures LeadsTo(PartyEntries(t, party, tag), TransferT, TransferKeyOf(t))
  {
    if OkOf(party).Some? {
      RSlottedRoundTrip(OkOf(party).value, t.slot, IndexBytes(t.index) + [tag]);
      assert (IndexBytes(t.index) + [tag])[..INDEX_LEN] == IndexBytes(t.index);
      IndexRoundTrip(t.index);
    }
  }

  lemma TransferLeads(t: StoredTransfer)
    ensures LeadsTo(TransferEntries(t), TransferT, TransferKeyOf(t))
  {
    hide PartyEntries, ParseIdSlotIndex, SlotIndexedKey, IdSlotIndexKey;
    PartyLeads(t, t.from, TAG_FROM);
    PartyLeads(t, t.to, TAG_TO);
    if OkOf(t.operationId).Some? { IdSlotIndexRoundTrip(OkOf(t.operationId).value, t.slot, t.index); }
    if OkOf(t.blockId).Some? { IdSlotIndexRoundTrip(OkOf(t.blockId).value, t.slot, t.index); }
  }

  lemma DenunciationRecentLeads(d: DenunciationEntry)
    ensures KeyIn(DenunciationT, Entry(DenunciationRecent, DenunciationRecentKey(d.slot, d.hash))) == Some(d.hash)
  {
    RSlottedRoundTrip([], d.slot, d.hash);
  }

  lemma DenunciationAddrLeads(a: Address, d: DenunciationEntry)
    ensures KeyIn(DenunciationT, Entry(DenunciationByAddr, DenunciationByAddrKey(a, d.slot, d.hash))) == Some(d.hash)
  {
    RSlottedRoundTrip(a, d.slot, d.hash);
  }

  lemma DenunciationLeads(d: DenunciationEntry)
    ensures LeadsTo(DenunciationEntries(d), DenunciationT, d.hash)
  {
    DenunciationRecentLeads(d);
    if d.denouncedAddr.Some? { DenunciationAddrLeads(d.denouncedAddr.value, d); }
  }

  lemma EventAddrLeads(cf: IndexCf, addrs: seq<Address>, s: Slot, i: U32)
    ensures forall e :: e in EventAddrEntries(cf, addrs, s, i) ==> e.cf == cf && ParseEvent(e.key) == Some((s, i))
  {
    forall a: Address ensures ParseEvent(EventByAddrKey(a, s, i)) == Some((s, i)) {
      RSlottedRoundTrip(a, s, IndexBytes(i));
      IndexRoundTrip(i);
    }
  }

  lemma EventLeads(ev: StoredScEvent)
    ensures LeadsTo(EventEntries(ev), EventT, EventKeyOf(ev))
  {
    hide EventAddrEntries, ParseEvent, SlotIndexedKey, IdSlotIndexKey, ParseIdSlotIndex;
    EventAddrLeads(EventByEmitter, ev.emitters, ev.slot, ev.index);
    EventAddrLeads(EventByCaller, ev.callers, ev.slot, ev.index);
    if ev.opId.Some? { IdSlotIndexRoundTrip(ev.opId.value, ev.slot, ev.index); }
  }

  lemma AddrIdLeads(cf: IndexCf, a: Option<Address>, id: Bytes)
    ensures forall e :: e in AddrIdEntry(cf, a, id) ==> e.cf == cf && SplitAddrId(e.key) == Some(id)
  {
    if a.Some? {
      assert AddrIdKey(a.value, id)[ADDR_KEY_LEN + 1..] == id;
    }
  }

  lemma LastSlotLeads(cf: IndexCf, s: Option<Slot>, id: Bytes)
    ensures forall e :: e in LastSlotEntry(cf, s, id)
                        ==> e.cf == cf && ParseByLastSlot(e.key).Some? && ParseByLastSlot(e.key).value.1 == id
  {
    hide ParseRSlotted, RSlotKey;
    if s.Some? {
      RSlottedRoundTrip([], s.value, id);
      assert |ByLastSlotKey(s.value, id)| == SLOT_KEY_LEN + |id|;
    }
  }

  lemma AsyncLeads(m: StoredAsyncMsg)
    ensures LeadsTo(AsyncEntries(m), AsyncT, m.id)
  {
    hide AddrIdEntry, LastSlotEntry, SplitAddrId, ParseByLastSlot;
    AddrIdLeads(AsyncBySender, m.sender, m.id);
    AddrIdLeads(AsyncByDest, m.destination, m.id);
    LastSlotLeads(AsyncByLastSlot, m.lastSlot, m.id);
  }

  lemma DeferredLeads(c: StoredDeferredCall)
    ensures LeadsTo(DeferredEntries(c), DeferredT, c.id)
  {
    hide AddrIdEntry, LastSlotEntry, SplitAddrId, ParseByLastSlot;
    AddrIdLeads(DeferredBySender, c.sender, c.id);
    AddrIdLeads(DeferredByTarget, c.targetAddress, c.id);
    LastSlotLeads(DeferredByLastSlot, c.lastSlot, c.id);
  }

  // ---- row writers --------------------------------------------------------

  function SlotAt(slots: map<Bytes, SlotState>, s: Slot): Option<SlotState> {
    if SlotKey(s) in slots then Some(slots[SlotKey(s)]) else None
  }

  function RowAt<R>(x: Indexed<R>, k: Bytes): Option<R> {
    if k in x.rows then Some(x.rows[k]) else None
  }

  function PutSlot(slots: map<Bytes, SlotState>, s: SlotState): map<Bytes, SlotState> {
    slots[SlotKey(s.slot) := s]
  }

  /** Put a row, retire index rows, add index rows: one atomic batch. */
  function Put<R>(x: Indexed<R>, k: Bytes, row: R, gone: set<Entry>, put: set<Entry>): Indexed<R> {
    Indexed(x.rows[k := row], (x.idx - gone) + put)
  }

  function PutBlock(x: Indexed<StoredBlock>, b: StoredBlock): Indexed<StoredBlock> {
    Put(x, b.id, b, {}, BlockEntries(b))
  }

  function PutOp(x: Indexed<StoredOperation>, o: StoredOperation): Indexed<StoredOperation> {
    Put(x, o.id, o, {}, OpEntries(o))
  }

  /** First sighting wins; the identifier must parse. */
  function PutEndorsement(x: Indexed<StoredEndorsement>, e: StoredEndorsement): Option<Indexed<StoredEndorsement>> {
    if !e.id.Parsed? then None
    else if e.id.id in x.rows then Some(x)
    else Some(Put(x, e.id.id, e, {}, EndorsementEntries(e)))
  }

  function PutTransfer(x: Indexed<StoredTransfer>, r: StoredTransfer): Indexed<StoredTransfer> {
    Put(x, TransferKeyOf(r), r, {}, TransferEntries(r))
  }

  function PutScEvent(x: Indexed<StoredScEvent>, ev: StoredScEvent): Indexed<StoredScEvent> {
    Put(x, EventKeyOf(ev), ev, {}, EventEntries(ev))
  }

  /** The first record stands; a missing including block is patched in. */
  function PutDenunciation(x: Indexed<DenunciationEntry>, d: DenunciationEntry): Indexed<DenunciationEntry> {
    if d.hash in x.rows then
      var prev := x.rows[d.hash];
      if prev.includedBlockId.None? && d.includedBlockId.Some? then
        Put(x, d.hash, prev.(includedBlockId := d.includedBlockId, includedSlot := d.includedSlot), {}, {})
      else x
    else Put(x, d.hash, d, {}, DenunciationEntries(d))
  }

  function KeepFirstSeen(prev: int, now: int): int {
    if prev != 0 then prev else now
  }

  /** The row as written: the first sighting's timestamp survives. */
  function AsyncRow(p: Option<StoredAsyncMsg>, m: StoredAsyncMsg): StoredAsyncMsg {
    if p.Some? then m.(firstSeen := KeepFirstSeen(p.value.firstSeen, m.firstSeen)) else m
  }

  /** Index rows retired because the field they derive from moved. */
  function StaleAsync(p: Option<StoredAsyncMsg>, m: StoredAsyncMsg): set<Entry> {
    if p.None? then {}
    else
      var p := p.value;
      (if p.sender != m.sender then AddrIdEntry(AsyncBySender, p.sender, p.id) else {})
      + (if p.destination != m.destination then AddrIdEntry(AsyncByDest, p.destination, p.id) else {})
      + (if p.lastSlot != m.lastSlot then LastSlotEntry(AsyncByLastSlot, p.lastSlot, p.id) else {})
  }

  function PutAsync(x: Indexed<StoredAsyncMsg>, m: StoredAsyncMsg): Indexed<StoredAsyncMsg> {
    var p := RowAt(x, m.id);
    var row := AsyncRow(p, m);
    Put(x, m.id, row, StaleAsync(p, row), AsyncEntries(row))
  }

  function RemoveAsync(x: Indexed<StoredAsyncMsg>, id: Bytes): Indexed<StoredAsyncMsg> {
    if id !in x.rows then x
    else Indexed(x.rows - {id}, x.idx - AsyncEntries(x.rows[id].(id := id)))
  }

  function DeferredRow(p: Option<StoredDeferredCall>, c: StoredDeferredCall): StoredDeferredCall {
    if p.Some? then c.(firstSeen := KeepFirstSeen(p.value.firstSeen, c.firstSeen)) else c
  }

  function StaleDeferred(p: Option<StoredDeferredCall>, c: StoredDeferredCall): set<Entry> {
    if p.None? then {}
    else
      var p := p.value;
      (if p.sender != c.sender then AddrIdEntry(DeferredBySender, p.sender, p.id) else {})
      + (if p.targetAddress != c.targetAddress then AddrIdEntry(DeferredByTarget, p.targetAddress, p.id) else {})
      + (if p.lastSlot != c.lastSlot then LastSlotEntry(DeferredByLastSlot, p.lastSlot, p.id) else {})
  }

  function PutDeferred(x: Indexed<StoredDeferredCall>, c: StoredDeferredCall): Indexed<StoredDeferredCall> {
    var p := RowAt(x, c.id);
    var row := DeferredRow(p, c);
    Put(x, c.id, row, StaleDeferred(p, row), DeferredEntries(row))
  }

  /** Drop the rows under a prefix together with their index rows. */
  function ClearPrefix<R>(x: Indexed<R>, p: Bytes, entries: R -> set<Entry>): Indexed<R> {
    Indexed(map k | k in x.rows && !(p <= k) :: x.rows[k],
            x.idx - (set k, e | k in x.rows && p <= k && e in entries(x.rows[k]) :: e))
  }

  function ClearTransfers(x: Indexed<StoredTransfer>, s: Slot): Indexed<StoredTransfer> {
    ClearPrefix(x, SlotKey(s), TransferEntries)
  }

  function ClearScEvents(x: Indexed<StoredScEvent>, s: Slot): Indexed<StoredScEvent> {
    ClearPrefix(x, SlotKey(s), EventEntries)
  }

  // ---- every writer keeps the agreement -----------------------------------

  /** A rewritten block must keep its slot and creator. */
  lemma PutBlockSound(x: Indexed<StoredBlock>, b: StoredBlock)
    requires SoundBlocks(x)
    requires b.id in x.rows ==> BlockEntries(x.rows[b.id]) == BlockEntries(b)
    ensures SoundBlocks(PutBlock(x, b))
  {
    hide Exact, LeadsTo, BlockEntries;
    BlockLeads(b);
    PutExact(x, BlockT, BlockEntries, b.id, b, {}, BlockEntries(b));
  }

  /** A rewritten operation must keep its first inclusion, creator and target. */
  lemma PutOpSound(x: Indexed<StoredOperation>, o: StoredOperation)
    requires SoundOps(x)
    requires o.id in x.rows ==> OpEntries(x.rows[o.id]) <= OpEntries(o)
    ensures SoundOps(PutOp(x, o))
  {
    hide Exact, LeadsTo, OpEntries;
    OpLeads(o);
    PutExact(x, OpT, OpEntries, o.id, o, {}, OpEntries(o));
  }

  lemma PutEndorsementSound(x: Indexed<StoredEndorsement>, e: StoredEndorsement)
    requires SoundEndorsements(x)
    ensures var r := PutEndorsement(x, e); r.Some? ==> SoundEndorsements(r.value)
  {
    hide Exact, LeadsTo, EndorsementEntries;
    if e.id.Parsed? && e.id.id !in x.rows {
      EndorsementLeads(e);
      PutExact(x, EndorsementT, EndorsementEntries, e.id.id, e, {}, EndorsementEntries(e));
    }
  }

  /** Overwriting a transfer row would strand its index rows; the slot is cleared first. */
  lemma PutTransferSound(x: Indexed<StoredTransfer>, r: StoredTransfer)
    requires SoundTransfers(x)
    requires TransferKeyOf(r) in x.rows ==> x.rows[TransferKeyOf(r)] == r
    ensures SoundTransfers(PutTransfer(x, r))
  {
    hide Exact, LeadsTo, TransferEntries, TransferKeyOf;
    TransferLeads(r);
    PutExact(x, TransferT, TransferEntries, TransferKeyOf(r), r, {}, TransferEntries(r));
  }

  lemma PutScEventSound(x: Indexed<StoredScEvent>, ev: StoredScEvent)
    requires SoundEvents(x)
    requires EventKeyOf(ev) in x.rows ==> x.rows[EventKeyOf(ev)] == ev
    ensures SoundEvents(PutScEvent(x, ev))
  {
    hide Exact, LeadsTo, EventEntries, EventKeyOf;
    EventLeads(ev);
    PutExact(x, EventT, EventEntries, EventKeyOf(ev), ev, {}, EventEntries(ev));
  }

  lemma PutDenunciationSound(x: Indexed<DenunciationEntry>, d: DenunciationEntry)
    requires SoundDenunciations(x)
    ensures SoundDenunciations(PutDenunciation(x, d))
  {
    hide Exact, LeadsTo;
    DenunciationLeads(d);
    if d.hash in x.rows {
      var prev := x.rows[d.hash];
      var row := prev.(includedBlockId := d.includedBlockId, includedSlot := d.includedSlot);
      DenunciationLeads(row);
      assert DenunciationEntries(row) == DenunciationEntries(prev);
      PutExact(x, DenunciationT, DenunciationEntries, d.hash, row, {}, {});
    } else {
      PutExact(x, DenunciationT, DenunciationEntries, d.hash, d, {}, DenunciationEntries(d));
    }
  }

  lemma AsyncSwap(p: Option<StoredAsyncMsg>, m: StoredAsyncMsg)
    requires p.Some? ==> p.value.id == m.id
    ensures p.None? ==> StaleAsync(p, m) == {}
    ensures p.Some? ==> StaleAsync(p, m) <= AsyncEntries(p.value)
    ensures p.Some? ==> AsyncEntries(p.value) - StaleAsync(p, m) <= AsyncEntries(m)
  {
    hide AddrIdEntry, LastSlotEntry;
  }

  /** Stale sender, destination and last-slot rows go when the field moves. */
  lemma PutAsyncSound(x: Indexed<StoredAsyncMsg>, m: StoredAsyncMsg)
    requires SoundAsync(x)
    ensures SoundAsync(PutAsync(x, m))
  {
    hide Exact, LeadsTo, AsyncEntries, StaleAsync;
    var p := RowAt(x, m.id);
    var row := AsyncRow(p, m);
    AsyncLeads(row);
    AsyncSwap(p, row);
    PutExact(x, AsyncT, AsyncEntries, m.id, row, StaleAsync(p, row), AsyncEntries(row));
  }

  lemma RemoveAsyncSound(x: Indexed<StoredAsyncMsg>, id: Bytes)
    requires SoundAsync(x)
    ensures SoundAsync(RemoveAsync(x, id))
  {
    hide Exact, LeadsTo, AsyncEntries;
    if id in x.rows {
      assert x.rows[id].(id := id) == x.rows[id];
      DropExact(x, RemoveAsync(x, id), AsyncT, AsyncEntries);
    }
  }

  lemma DeferredSwap(p: Option<StoredDeferredCall>, c: StoredDeferredCall)
    requires p.Some? ==> p.value.id == c.id
    ensures p.None? ==> StaleDeferred(p, c) == {}
    ensures p.Some? ==> StaleDeferred(p, c) <= DeferredEntries(p.value)
    ensures p.Some? ==> DeferredEntries(p.value) - StaleDeferred(p, c) <= DeferredEntries(c)
  {
    hide AddrIdEntry, LastSlotEntry;
  }

  lemma PutDeferredSound(x: Indexed<StoredDeferredCall>, c: StoredDeferredCall)
    requires SoundDeferred(x)
    ensures SoundDeferred(PutDeferred(x, c))
  {
    hide Exact, LeadsTo, DeferredEntries, StaleDeferred;
    var p := RowAt(x, c.id);
    var row := DeferredRow(p, c);
    DeferredLeads(row);
    DeferredSwap(p, row);
    PutExact(x, DeferredT, DeferredEntries, c.id, row, StaleDeferred(p, row), DeferredEntries(row));
  }

  lemma ClearPrefixSound<R>(x: Indexed<R>, p: Bytes, table: Table, entries: R -> set<Entry>, keyOf: R -> Bytes)
    requires Sound(x, table, entries, keyOf)
    ensures Sound(ClearPrefix(x, p, entries), table, entries, keyOf)
  {
    DropExact(x, ClearPrefix(x, p, entries), table, entries);
  }
}
