/**
 What a block event leaves in the store, field by field and said of the message: its
 operations and where they were included, endorsements, denunciations, and the block row.
 */
module BlockRecords {
  import opened ByteStrings
  import opened Ids
  import opened Keys
  import opened Model
  import opened Store
  import opened IngestSpec
  import opened BlockOutcomes
  import opened SlotRuns
  import opened Selections

  // ---- the header ---------------------------------------------------------

  predicate IsSlot(s: Slot, pb: SlotPb) {
    s.period == pb.period && s.thread == pb.thread % 256
  }

  /** The header of `fb` is complete and reads as `h`. */
  predicate Reads(fb: FilledBlock, h: Header) {
    && fb.header.Some? && fb.header.value.content == Some(h.content)
    && fb.header.value.secureHash == Parsed(h.id) && fb.header.value.creator == Parsed(h.creator)
    && fb.header.value.payload == h.payload
    && h.content.slot.Some? && IsSlot(h.slot, h.content.slot.value)
  }

  lemma ReadsIff(fb: FilledBlock, h: Header)
    ensures Reads(fb, h) <==> CheckHeader(fb) == Some(h)
  {}

  // ---- operations ---------------------------------------------------------

  /** The operation comes under `id`: its own id field, or if that is blank the hash it was signed with. */
  predicate Names(f: FilledOperation, id: Bytes) {
    f.operation.Some? && |id| == ID_KEY_LEN
    && (f.operationId == Parsed(id) || (f.operationId.Blank? && f.operation.value.secureHash == Parsed(id)))
  }

  lemma OpIdIs(f: FilledOperation, id: Bytes)
    ensures Names(f, id) <==> OpIdOf(f).Some? && OpIdOf(f).value == id
  {}

  /** The `i`-th operation of the block is `k`, and the block is fed up to it. */
  predicate IngestedAt(known: set<Bytes>, fs: seq<FilledOperation>, k: Bytes, i: int) {
    0 <= i < |fs| && Names(fs[i], k) && Fed(known, fs[..i + 1])
  }

  /** A block's operation is ingested if and only if the block names it and is fed up to there. */
  lemma {:induction false} IngestedIff(known: set<Bytes>, fs: seq<FilledOperation>, k: Bytes)
    ensures k in Ingested(known, fs) <==> exists i :: IngestedAt(known, fs, k, i)
    decreases |fs|
  {
    hide Fed, Names, OpIdOf, Carries;
    if fs != [] {
      var id := OpIdOf(fs[0]);
      var next := if id.Some? then known + {id.value} else known;
      var fed := id.Some? ==> Carries(fs[0]) || id.value in known;
      IngestedIff(next, fs[1..], k);
      forall i | 0 <= i < |fs| ensures Fed(known, fs[..i + 1]) <==> fed && Fed(next, fs[1..][..i]) {
        FedFirst(known, fs[..i + 1]);
        assert fs[..i + 1][1..] == fs[1..][..i];
      }
      NothingToFeed(next);
      assert fs[1..][..0] == [];
      OpIdIs(fs[0], k);
      if fed && Names(fs[0], k) { assert IngestedAt(known, fs, k, 0); }
      if i :| IngestedAt(next, fs[1..], k, i) {
        if fed { assert IngestedAt(known, fs, k, i + 1); }
      }
      if i :| IngestedAt(known, fs, k, i) {
        if i > 0 { assert IngestedAt(next, fs[1..], k, i - 1); }
      }
    }
  }

  /** `o` is a new row for operation `k`, made from `f`. */
  ghost predicate OpRecords(o: StoredOperation, f: FilledOperation, k: Bytes) {
    && o.id == k && f.operation.Some? && f.operation.value.content.Some?
    && var signed, op := f.operation.value, f.operation.value.content.value;
    && signed.creator == Parsed(o.creator) && o.payload == signed.payload
    && o.candidateExecStatus.None? && o.finalExecStatus.None?
    && (o.kind == Transaction <==> op.Some? && op.value.TransactionOp?)
    && (o.kind == RollBuy <==> op.Some? && op.value.RollBuyOp?)
    && (o.kind == RollSell <==> op.Some? && op.value.RollSellOp?)
    && (o.kind == ExecuteSc <==> op.Some? && op.value.ExecuteScOp?)
    && (o.kind == CallSc <==> op.Some? && op.value.CallScOp?)
    && forall a :: o.target == Some(a) <==>
         op.Some? && ((op.value.TransactionOp? && op.value.recipient == Parsed(a))
                      || (op.value.CallScOp? && op.value.target == Parsed(a)))
  }

  /** The first of `fs` that names `k`. */
  predicate FirstNaming(fs: seq<FilledOperation>, k: Bytes, i: int) {
    0 <= i < |fs| && Names(fs[i], k) && forall j :: 0 <= j < i ==> !Names(fs[j], k)
  }

  function InclusionsAt(x: Indexed<StoredOperation>, k: Bytes): seq<OperationInclusion> {
    if k in x.rows then x.rows[k].inclusions else []
  }

  /** A list with `site` at its end unless it is in it. */
  function Noted(sites: seq<OperationInclusion>, site: OperationInclusion): seq<OperationInclusion> {
    if site in sites then sites else sites + [site]
  }

  /** What a block's operations leave of row `k`. */
  ghost predicate OpAfter(x: Indexed<StoredOperation>, y: Indexed<StoredOperation>, fs: seq<FilledOperation>,
                          slot: Slot, block: Id, k: Bytes) {
    if k !in Ingested(x.rows.Keys, fs) then RowAt(y, k) == RowAt(x, k)
    else
      && k in y.rows
      && y.rows[k].inclusions == Noted(InclusionsAt(x, k), OperationInclusion(slot, block))
      && y.rows[k].thread == slot.thread
      && (k in x.rows ==> y.rows[k] == x.rows[k].(thread := slot.thread, inclusions := y.rows[k].inclusions))
      && (k !in x.rows ==> exists i :: FirstNaming(fs, k, i) && OpRecords(y.rows[k], fs[i], k))
  }

  /**
   Each operation ingested from a block notes the block as an inclusion, once, after the
   earlier ones; a new row takes its fields from the first entry that names it; other
   rows stay.
   */
  lemma {:induction false} OpsWritten(x: Indexed<StoredOperation>, fs: seq<FilledOperation>, slot: Slot, block: Id,
                                      k: Bytes)
    requires Keyed(x.rows, OpKeyOf)
    ensures OpAfter(x, PutOps(x, fs, slot, block).0, fs, slot, block, k)
    decreases |fs|
  {
    hide OpEntries, Carries;
    if fs != [] {
      OpIdIs(fs[0], k);
      match OpIdOf(fs[0])
      case None =>
        OpsWritten(x, fs[1..], slot, block, k);
        NamedLater(fs, k);
      case Some(id) =>
        match FindOrNewOp(x, fs[0].operation.value, id, slot)
        case None => assert !Carries(fs[0]) && id !in x.rows by { NewOpIff(fs[0], id, slot); }
        case Some(o) =>
          assert Carries(fs[0]) || id in x.rows by { NewOpIff(fs[0], id, slot); }
          var x1 := PutOp(x, Include(o, slot, block));
          OpsWritten(x1, fs[1..], slot, block, k);
          OpAfterFirst(x, fs, slot, block, k, id, o, PutOps(x1, fs[1..], slot, block).0);
    }
  }

  /** One operation and then the rest. */
  lemma OpAfterFirst(x: Indexed<StoredOperation>, fs: seq<FilledOperation>, slot: Slot, block: Id, k: Bytes,
                     id: Id, o: StoredOperation, y: Indexed<StoredOperation>)
    requires Keyed(x.rows, OpKeyOf) && fs != [] && Names(fs[0], id)
    requires Carries(fs[0]) || id in x.rows
    requires FindOrNewOp(x, fs[0].operation.value, id, slot) == Some(o)
    requires OpAfter(PutOp(x, Include(o, slot, block)), y, fs[1..], slot, block, k)
    ensures OpAfter(x, y, fs, slot, block, k)
  {
    var x1 := PutOp(x, Include(o, slot, block));
    assert o.id == id;
    assert x1.rows.Keys == x.rows.Keys + {id};
    OpIdIs(fs[0], id);
    OpIdIs(fs[0], k);
    hide OpEntries, Ingested, Carries, Names, OpIdOf, OpRecords, NewOp;
    assert Ingested(x.rows.Keys, fs) == {id} + Ingested(x1.rows.Keys, fs[1..]) by { IngestedHead(x.rows.Keys, fs, id); }
    if k == id {
      assert RowAt(x1, k) == Some(Include(o, slot, block));
      if k !in x.rows {
        NewOpRecords(fs[0], id, slot, y.rows[k]);
        assert FirstNaming(fs, k, 0);
      }
    } else {
      assert !Names(fs[0], k);
      NamedLater(fs, k);
    }
  }

  lemma IngestedHead(known: set<Bytes>, fs: seq<FilledOperation>, id: Id)
    requires fs != [] && OpIdOf(fs[0]) == Some(id) && (Carries(fs[0]) || id in known)
    ensures Ingested(known, fs) == {id} + Ingested(known + {id}, fs[1..])
  {}

  lemma NewOpRecords(f: FilledOperation, id: Id, slot: Slot, row: StoredOperation)
    requires f.operation.Some? && NewOp(f.operation.value, id, slot).Some?
    requires var o := NewOp(f.operation.value, id, slot).value;
      row == o.(thread := row.thread, inclusions := row.inclusions)
    ensures OpRecords(row, f, id) && NewOp(f.operation.value, id, slot).value.inclusions == []
  {}

  lemma NewOpIff(f: FilledOperation, id: Id, slot: Slot)
    requires f.operation.Some?
    ensures NewOp(f.operation.value, id, slot).Some? <==> Carries(f)
  {}

  lemma NamedLater(fs: seq<FilledOperation>, k: Bytes)
    requires fs != [] && !Names(fs[0], k)
    ensures forall i :: FirstNaming(fs[1..], k, i) ==> FirstNaming(fs, k, i + 1) && fs[i + 1] == fs[1..][i]
  {
    hide Names;
    forall i | FirstNaming(fs[1..], k, i) ensures FirstNaming(fs, k, i + 1) && fs[i + 1] == fs[1..][i] {
      forall j | 0 <= j < i + 1 ensures !Names(fs[j], k) { if j > 0 { assert fs[j] == fs[1..][j - 1]; } }
    }
  }

  /** The operation is one the block names at all. */
  predicate Named(f: FilledOperation) {
    f.operation.Some? && (f.operationId.Parsed? || (f.operationId.Blank? && f.operation.value.secureHash.Parsed?))
  }

  /** `ids` are the ids under which `fs` come, in order and with repeats. */
  predicate IdsOf(ids: seq<Id>, fs: seq<FilledOperation>) {
    var named := Filter(fs, Named);
    |ids| == |named| && forall i :: 0 <= i < |ids| ==> Names(named[i], ids[i])
  }

  lemma {:induction false} OpIdsAre(x: Indexed<StoredOperation>, fs: seq<FilledOperation>, slot: Slot, block: Id)
    ensures var (_, ids, ok) := PutOps(x, fs, slot, block); ok ==> IdsOf(ids, fs)
    decreases |fs|
  {
    hide OpEntries, Include, NewOp;
    if fs != [] {
      match OpIdOf(fs[0])
      case None => OpIdsAre(x, fs[1..], slot, block);
      case Some(id) =>
        OpIdIs(fs[0], id);
        match FindOrNewOp(x, fs[0].operation.value, id, slot)
        case None =>
        case Some(o) => OpIdsAre(PutOp(x, Include(o, slot, block)), fs[1..], slot, block);
    }
  }

  // ---- endorsements -------------------------------------------------------

  predicate Readable(e: SignedEndorsement) {
    e.content.Some? && e.content.value.slot.Some? && e.creator.Parsed?
  }

  /** Row `r` records endorsement `e` of block `block` at `slot`. */
  predicate EndorsementRecords(r: StoredEndorsement, e: SignedEndorsement, block: Id, slot: Slot) {
    && Readable(e)
    && r.id == e.secureHash && IsSlot(r.slot, e.content.value.slot.value) && e.creator == Parsed(r.creator)
    && r.includedBlockId == block && r.includedSlot == slot && r.payload == e.content.value.payload
  }

  /** The rows record the readable endorsements of the block, in order. */
  predicate AllRecorded(rows: seq<StoredEndorsement>, es: seq<SignedEndorsement>, block: Id, slot: Slot) {
    var readable := Filter(es, Readable);
    |rows| == |readable| && forall i :: 0 <= i < |rows| ==> EndorsementRecords(rows[i], readable[i], block, slot)
  }

  lemma EndorsementDecoded(e: SignedEndorsement, block: Id, slot: Slot)
    ensures var row := DecodeEndorsement(e, block, slot);
      (row.Some? <==> Readable(e)) && (row.Some? ==> EndorsementRecords(row.value, e, block, slot))
  {}

  lemma {:induction false} EndorsementsDecoded(es: seq<SignedEndorsement>, block: Id, slot: Slot)
    ensures AllRecorded(DecodeEndorsements(es, block, slot), es, block, slot)
    decreases |es|
  {
    hide EndorsementRecords, DecodeEndorsement, Readable;
    if es != [] {
      EndorsementsDecoded(es[1..], block, slot);
      EndorsementDecoded(es[0], block, slot);
    }
  }

  /** Endorsement `i` is the first of the block with id `k`, and every readable one up to it has a parsable id. */
  predicate FirstEndorsing(es: seq<SignedEndorsement>, k: Id, i: int) {
    && 0 <= i < |es| && es[i].secureHash == Parsed(k)
    && forall j :: 0 <= j < i ==> es[j].secureHash.Parsed? && es[j].secureHash.id != k
  }

  /** A stored endorsement stays; a new one is the first that came under its id. */
  ghost predicate EndorsementAfter(x: Indexed<StoredEndorsement>, y: Indexed<StoredEndorsement>,
                                   es: seq<SignedEndorsement>, block: Id, slot: Slot, k: Id) {
    var readable := Filter(es, Readable);
    if k in x.rows then RowAt(y, k) == RowAt(x, k)
    else
      && (k in y.rows <==> exists i :: FirstEndorsing(readable, k, i))
      && forall i :: FirstEndorsing(readable, k, i) ==> EndorsementRecords(y.rows[k], readable[i], block, slot)
  }

  predicate FirstRow(rows: seq<StoredEndorsement>, k: Id, i: int) {
    && 0 <= i < |rows| && rows[i].id == Parsed(k)
    && forall j :: 0 <= j < i ==> rows[j].id.Parsed? && rows[j].id.id != k
  }

  lemma {:induction false} EndorsementsPut(x: Indexed<StoredEndorsement>, rows: seq<StoredEndorsement>, k: Id)
    ensures var y := PutEndorsements(x, rows).0;
      && (k in x.rows ==> RowAt(y, k) == RowAt(x, k))
      && (k !in x.rows ==>
            && (k in y.rows <==> exists i :: FirstRow(rows, k, i))
            && forall i :: FirstRow(rows, k, i) ==> y.rows[k] == rows[i])
    decreases |rows|
  {
    hide EndorsementEntries;
    if rows != [] && rows[0].id.Parsed? {
      var x1 := PutEndorsement(x, rows[0]).value;
      EndorsementsPut(x1, rows[1..], k);
      if rows[0].id.id == k {
        assert FirstRow(rows, k, 0);
      } else {
        forall i | FirstRow(rows[1..], k, i) ensures FirstRow(rows, k, i + 1) {
          forall j | 0 <= j < i + 1 ensures rows[j].id.Parsed? && rows[j].id.id != k {
            if j > 0 { assert rows[j] == rows[1..][j - 1]; }
          }
        }
        forall i | FirstRow(rows, k, i) ensures FirstRow(rows[1..], k, i - 1) {
          forall j | 0 <= j < i - 1 ensures rows[1..][j].id.Parsed? && rows[1..][j].id.id != k {
            assert rows[j + 1] == rows[1..][j];
          }
        }
      }
    }
  }

  lemma EndorsementsWritten(x: Indexed<StoredEndorsement>, es: seq<SignedEndorsement>, block: Id, slot: Slot, k: Id)
    ensures EndorsementAfter(x, PutEndorsements(x, DecodeEndorsements(es, block, slot)).0, es, block, slot, k)
  {
    var rows := DecodeEndorsements(es, block, slot);
    EndorsementsDecoded(es, block, slot);
    EndorsementsPut(x, rows, k);
    hide PutEndorsements, DecodeEndorsements;
    forall i ensures FirstRow(rows, k, i) <==> FirstEndorsing(Filter(es, Readable), k, i) {}
  }

  // ---- denunciations ------------------------------------------------------

  predicate FirstDenouncing(ds: seq<StoredDenunciation>, k: Hash, i: int) {
    0 <= i < |ds| && ds[i].hash == k && forall j :: 0 <= j < i ==> ds[j].hash != k
  }

  /** Row `r` records denunciation `d`, met in block `block`. */
  predicate DenunciationRecords(r: DenunciationEntry, d: StoredDenunciation, block: Id) {
    && r.hash == d.hash && r.slot == d.slot && r.denouncedAddr == d.target && r.denunciation == d
    && r.includedBlockId == Some(block) && r.includedSlot == Some(d.slot)
  }

  /** A denunciation stays as first recorded; if its block was missing, this one is noted. */
  ghost predicate DenunciationAfter(x: Indexed<DenunciationEntry>, y: Indexed<DenunciationEntry>,
                                    ds: seq<StoredDenunciation>, block: Id, k: Hash) {
    if !exists i :: FirstDenouncing(ds, k, i) then RowAt(y, k) == RowAt(x, k)
    else
      && k in y.rows
      && forall i :: FirstDenouncing(ds, k, i) ==>
           if k !in x.rows then DenunciationRecords(y.rows[k], ds[i], block)
           else if x.rows[k].includedBlockId.Some? then y.rows[k] == x.rows[k]
           else y.rows[k] == x.rows[k].(includedBlockId := Some(block), includedSlot := Some(ds[i].slot))
  }

  lemma {:induction false} DenunciationsWritten(x: Indexed<DenunciationEntry>, ds: seq<StoredDenunciation>,
                                                block: Id, k: Hash)
    ensures DenunciationAfter(x, PutDenunciations(x, ds, block), ds, block, k)
    decreases |ds|
  {
    hide DenunciationRecords, PutDenunciation, DenunciationRow, FirstDenouncing;
    if ds == [] {
      assert forall i :: !FirstDenouncing(ds, k, i) by { NoneDenounced(ds, k); }
    } else {
      OneDenunciation(x, ds[0], block, k);
      DenunciationsWritten(PutDenunciation(x, DenunciationRow(ds[0], block)), ds[1..], block, k);
      DenouncedFirst(ds, k);
      assert ds[0].hash == k ==> FirstDenouncing(ds, k, 0);
    }
  }

  /** One denunciation and what it leaves of row `k`. */
  lemma OneDenunciation(x: Indexed<DenunciationEntry>, d: StoredDenunciation, block: Id, k: Hash)
    ensures var y := PutDenunciation(x, DenunciationRow(d, block));
      if d.hash != k then RowAt(y, k) == RowAt(x, k)
      else
        && k in y.rows && y.rows[k].includedBlockId.Some?
        && if k !in x.rows then DenunciationRecords(y.rows[k], d, block)
           else if x.rows[k].includedBlockId.Some? then y.rows[k] == x.rows[k]
           else y.rows[k] == x.rows[k].(includedBlockId := Some(block), includedSlot := Some(d.slot))
  {
    hide DenunciationEntries;
  }

  lemma NoneDenounced(ds: seq<StoredDenunciation>, k: Hash)
    requires ds == []
    ensures forall i :: !FirstDenouncing(ds, k, i)
  {}

  lemma DenouncedFirst(ds: seq<StoredDenunciation>, k: Hash)
    requires ds != []
    ensures ds[0].hash == k ==> forall i :: FirstDenouncing(ds, k, i) <==> i == 0
    ensures ds[0].hash != k ==> forall i :: FirstDenouncing(ds, k, i) ==>
              FirstDenouncing(ds[1..], k, i - 1) && 0 < i < |ds| && ds[i] == ds[1..][i - 1]
    ensures ds[0].hash != k ==> forall i :: FirstDenouncing(ds[1..], k, i) ==> FirstDenouncing(ds, k, i + 1)
  {
    if ds[0].hash != k {
      forall i | FirstDenouncing(ds[1..], k, i) ensures FirstDenouncing(ds, k, i + 1) {
        forall j | 0 <= j < i + 1 ensures ds[j].hash != k { if j > 0 { assert ds[j] == ds[1..][j - 1]; } }
      }
      forall i | FirstDenouncing(ds, k, i) ensures FirstDenouncing(ds[1..], k, i - 1) {
        forall j | 0 <= j < i - 1 ensures ds[1..][j].hash != k { assert ds[j + 1] == ds[1..][j]; }
      }
    }
  }

  // ---- the whole event ----------------------------------------------------

  /** Every readable endorsement has an id that parses. */
  predicate EndorsementsNamed(es: seq<SignedEndorsement>) {
    forall e :: e in es && Readable(e) ==> e.secureHash.Parsed?
  }

  lemma AcceptableIff(fb: FilledBlock, h: Header)
    requires Reads(fb, h)
    ensures Acceptable(fb) <==> EndorsementsNamed(h.content.endorsements)
  {
    ReadsIff(fb, h);
    var es := h.content.endorsements;
    var rows := DecodeEndorsements(es, h.id, h.slot);
    EndorsementsDecoded(es, h.id, h.slot);
    hide DecodeEndorsements;
    var readable := Filter(es, Readable);
    forall e { InFilter(es, Readable, e); }
    if EndorsementsNamed(es) {
      forall r | r in rows ensures r.id.Parsed? {
        var i :| 0 <= i < |rows| && rows[i] == r;
        assert EndorsementRecords(rows[i], readable[i], h.id, h.slot) && readable[i] in readable;
      }
    } else {
      var e :| e in es && Readable(e) && !e.secureHash.Parsed?;
      var i :| 0 <= i < |readable| && readable[i] == e;
      assert EndorsementRecords(rows[i], readable[i], h.id, h.slot) && rows[i] in rows;
    }
  }

  /**
   The row of a taken block. A first sighting takes everything from the message; later
   ones refresh endorsements and denunciations, fill in operations, and decide an
   undecided block.
   */
  predicate BlockRecorded(b: StoredBlock, prior: Option<StoredBlock>, row: Option<SlotState>, fb: FilledBlock,
                          h: Header) {
    && b.id == h.id
    && AllRecorded(b.endorsements, h.content.endorsements, h.id, h.slot)
    && b.denunciations == h.content.denunciations
    && match prior
       case None =>
         && b.slot == h.slot && b.creator == h.creator && b.payload == h.payload
         && IdsOf(b.operationIds, fb.operations)
         && StatusFrom(row, h.id, b.status)
       case Some(p) =>
         && b.slot == p.slot && b.creator == p.creator && b.payload == p.payload
         && (if p.operationIds == [] then IdsOf(b.operationIds, fb.operations) else b.operationIds == p.operationIds)
         && (if p.status == BlockStatus.SeenCandidate then StatusFrom(row, h.id, b.status) else b.status == p.status)
  }

  /** The slot of a taken block has it as a candidate and its body in; nothing decided is touched. */
  predicate SlotHasBlock(before: Option<SlotState>, after: Option<SlotState>, slot: Slot, id: Id) {
    after.Some?
    && var prior := if before.Some? then before.value else FreshSlot(slot);
    && after.value.candidateBlockIds
       == (if id in prior.candidateBlockIds then prior.candidateBlockIds else prior.candidateBlockIds + [id])
    && after.value.completeness == prior.completeness.(blockBodyStored := true)
    && after.value.status == (if prior.status == SlotStatus.Unknown then SlotStatus.Candidate else prior.status)
    && after.value == prior.(candidateBlockIds := after.value.candidateBlockIds, status := after.value.status,
                           completeness := after.value.completeness)
  }

  /**
   A block event whose header reads: the endorsements up to the first without an id are
   stored; if there is no such one, so are the denunciations and the operations that are
   fed; and if those are all fed the block is stored and its slot has it. Nothing else
   of blocks and slots changes but the stub of the slot before.
   */
  lemma BlockEffect(t: Tables, fb: FilledBlock, h: Header)
    requires SlotsKeyed(t.slots) && Keyed(t.blocks.rows, BlockKeyOf) && Keyed(t.ops.rows, OpKeyOf) && Reads(fb, h)
    ensures var u := HandleBlock(t, fb).tables;
      var named := EndorsementsNamed(h.content.endorsements);
      var taken := named && Fed(t.ops.rows.Keys, fb.operations);
      && (forall k :: EndorsementAfter(t.endorsements, u.endorsements, h.content.endorsements, h.id, h.slot, k))
      && (named ==> forall k ::
            DenunciationAfter(t.denunciations, u.denunciations, h.content.denunciations, h.id, k))
      && (named ==> forall k :: OpAfter(t.ops, u.ops, fb.operations, h.slot, h.id, k))
      && (!named ==> u.denunciations == t.denunciations && u.ops == t.ops)
      && (HandleBlock(t, fb).ok <==> taken)
      && (!taken ==> u.blocks == t.blocks && u.slots == t.slots)
      && (taken ==>
            && h.id in u.blocks.rows
            && BlockRecorded(u.blocks.rows[h.id], RowAt(t.blocks, h.id), SlotAt(t.slots, h.slot), fb, h)
            && (forall k :: k != h.id ==> RowAt(u.blocks, k) == RowAt(t.blocks, k))
            && SlotHasBlock(SlotAt(t.slots, h.slot), SlotAt(u.slots, h.slot), h.slot, h.id)
            && forall s :: s != h.slot ==>
                 SlotAt(u.slots, s) ==
                   if h.slot.period > 0 && s == Slot(h.slot.period - 1, h.slot.thread) && SlotAt(t.slots, s).None?
                   then Some(FreshSlot(s)) else SlotAt(t.slots, s))
  {
    hide SlotKey, PutSlot, SlotAt, ParentStub, PutEndorsements, PutDenunciations, PutOps, DecodeEndorsements, Fed;
    hide BlockEntries, Reads, Acceptable, EndorsementsNamed, EndorsementAfter, DenunciationAfter, OpAfter, IdsOf;
    hide AllRecorded, CheckHeader;
    ReadsIff(fb, h);
    AcceptableIff(fb, h);
    BlockOutcome(t, fb);
    var es, ds, fs := h.content.endorsements, h.content.denunciations, fb.operations;
    forall k { EndorsementsWritten(t.endorsements, es, h.id, h.slot, k); }
    forall k { DenunciationsWritten(t.denunciations, ds, h.id, k); }
    forall k { OpsWritten(t.ops, fs, h.slot, h.id, k); }
    EndorsementsDecoded(es, h.id, h.slot);
    OpIdsAre(t.ops, fs, h.slot, h.id);
    assert PutEndorsements(t.endorsements, DecodeEndorsements(es, h.id, h.slot)).1 <==> EndorsementsNamed(es) by {
      EndorsementsOutcome(t.endorsements, DecodeEndorsements(es, h.id, h.slot));
      assert Acceptable(fb) <==> forall e :: e in DecodeEndorsements(es, h.id, h.slot) ==> e.id.Parsed? by {
        AcceptableMeans(fb, h);
      }
    }
    SlotOrFreshSlot(t, h.slot);
    forall s { BlockSlotAt(t, fb, s); }
  }

  lemma AcceptableMeans(fb: FilledBlock, h: Header)
    requires CheckHeader(fb) == Some(h)
    ensures Acceptable(fb)
       <==> forall e :: e in DecodeEndorsements(h.content.endorsements, h.id, h.slot) ==> e.id.Parsed?
  {}
}
