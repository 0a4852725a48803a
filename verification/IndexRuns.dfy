/**
 In every reachable store each derived column family is the exact image of its
 primary.
 */
module IndexRuns {
  import opened ByteStrings
  import opened Ids
  import opened Keys
  import opened Model
  import opened Store
  import opened IngestSpec

  lemma {:induction false} PutEndorsementsSound(x: Indexed<StoredEndorsement>, es: seq<StoredEndorsement>)
    requires SoundEndorsements(x)
    ensures SoundEndorsements(PutEndorsements(x, es).0)
    decreases |es|
  {
    hide SoundEndorsements;
    if es != [] {
      PutEndorsementSound(x, es[0]);
      match PutEndorsement(x, es[0])
      case None =>
      case Some(x1) => PutEndorsementsSound(x1, es[1..]);
    }
  }

  lemma {:induction false} PutDenunciationsSound(x: Indexed<DenunciationEntry>, ds: seq<StoredDenunciation>, block: Id)
    requires SoundDenunciations(x)
    ensures SoundDenunciations(PutDenunciations(x, ds, block))
    decreases |ds|
  {
    hide SoundDenunciations;
    if ds != [] {
      PutDenunciationSound(x, DenunciationRow(ds[0], block));
      PutDenunciationsSound(PutDenunciation(x, DenunciationRow(ds[0], block)), ds[1..], block);
    }
  }

  /** `inclusions[0]` never changes once set, so the op's index rows only grow from none. */
  lemma IncludeKeepsEntries(o: StoredOperation, slot: Slot, block: Id)
    ensures Include(o, slot, block).id == o.id
    ensures OpEntries(o) <= OpEntries(Include(o, slot, block))
    ensures o.inclusions != [] ==> OpEntries(Include(o, slot, block)) == OpEntries(o)
  {
    hide AddrSlotIdKey;
  }

  lemma {:induction false} PutOpsSound(x: Indexed<StoredOperation>, fs: seq<FilledOperation>, slot: Slot, block: Id)
    requires SoundOps(x)
    ensures SoundOps(PutOps(x, fs, slot, block).0)
    decreases |fs|
  {
    hide Exact, OpEntries;
    if fs != [] {
      match OpIdOf(fs[0])
      case None => PutOpsSound(x, fs[1..], slot, block);
      case Some(id) =>
        match FindOrNewOp(x, fs[0].operation.value, id, slot)
        case None =>
        case Some(o) =>
          assert o.id == id;
          IncludeKeepsEntries(o, slot, block);
          PutOpSound(x, Include(o, slot, block));
          PutOpsSound(PutOp(x, Include(o, slot, block)), fs[1..], slot, block);
    }
  }

  lemma {:induction false} PutScEventsSound(x: Indexed<StoredScEvent>, evs: seq<ScEventPb>, slot: Slot,
                                            status: SlotStatus, i: nat)
    requires SoundEvents(x)
    requires i + |evs| < 0x1_0000_0000
    requires forall j: U32 :: i <= j ==> SlotIndexedKey(slot, j) !in x.rows
    ensures SoundEvents(PutScEvents(x, evs, slot, status, i))
    decreases |evs|
  {
    hide SoundEvents, SlotIndexedKey;
    if evs != [] {
      var ev := EventRow(evs[0], slot, i, status);
      PutScEventSound(x, ev);
      forall j: U32 | i + 1 <= j ensures SlotIndexedKey(slot, j) != SlotIndexedKey(slot, i) {
        SlotIndexedRoundTrip(slot, j);
        SlotIndexedRoundTrip(slot, i);
      }
      PutScEventsSound(PutScEvent(x, ev), evs[1..], slot, status, i + 1);
    }
  }

  lemma ReplaceScEventsSound(x: Indexed<StoredScEvent>, evs: Repeated<ScEventPb>, slot: Slot, status: SlotStatus)
    requires SoundEvents(x)
    ensures SoundEvents(ReplaceScEvents(x, evs, slot, status))
  {
    hide Sound, SlotIndexedKey;
    ClearPrefixSound(x, SlotKey(slot), EventT, EventEntries, EventKeyOf);
    PutScEventsSound(ClearScEvents(x, slot), evs, slot, status, 0);
  }

  lemma {:induction false} PutExecStatusesSound(x: Indexed<StoredOperation>, es: seq<ExecutedOpChange>, isFinal: bool)
    requires SoundOps(x)
    ensures SoundOps(PutExecStatuses(x, es, isFinal))
    decreases |es|
  {
    hide Exact, AddrSlotIdKey;
    if es != [] {
      if es[0].operationId.Parsed? && es[0].status.Some? && es[0].operationId.id in x.rows {
        PutOpSound(x, WithExecStatus(x.rows[es[0].operationId.id], es[0].status.value, isFinal));
      }
      PutExecStatusesSound(PutExecStatus(x, es[0], isFinal), es[1..], isFinal);
    }
  }

  lemma {:induction false} PutAsyncChangesSound(x: Indexed<StoredAsyncMsg>, es: seq<AsyncPoolEntry>, slot: Slot,
                                                now: int)
    requires SoundAsync(x)
    ensures SoundAsync(PutAsyncChanges(x, es, slot, now))
    decreases |es|
  {
    hide SoundAsync;
    if es != [] {
      var row := AsyncChanged(RowAt(x, es[0].id), es[0], slot, now);
      if row.Some? { PutAsyncSound(x, row.value); }
      PutAsyncChangesSound(PutAsyncChange(x, es[0], slot, now), es[1..], slot, now);
    }
  }

  lemma PutBlockStatusSound(x: Indexed<StoredBlock>, id: Id, status: BlockStatus)
    requires SoundBlocks(x)
    ensures SoundBlocks(PutBlockStatus(x, id, status))
  {
    hide Exact, AddrSlotIdKey, CandidateKey;
    if id in x.rows { PutBlockSound(x, x.rows[id].(status := status)); }
  }

  lemma {:induction false} PutVerdictsSound(x: Indexed<StoredBlock>, winner: Option<Id>, candidates: seq<Id>)
    requires SoundBlocks(x)
    ensures SoundBlocks(PutVerdicts(x, winner, candidates))
    decreases |candidates|
  {
    hide SoundBlocks, PutBlockStatus;
    if candidates != [] {
      PutBlockStatusSound(x, candidates[0], Verdict(winner, candidates[0]));
      PutVerdictsSound(PutBlockStatus(x, candidates[0], Verdict(winner, candidates[0])), winner, candidates[1..]);
    }
  }

  lemma ApplyFinalitySound(x: Indexed<StoredBlock>, winner: Option<Id>, candidates: seq<Id>)
    requires SoundBlocks(x)
    ensures SoundBlocks(ApplyFinality(x, winner, candidates))
  {
    hide SoundBlocks, PutVerdicts, PutBlockStatus;
    PutVerdictsSound(x, winner, candidates);
    if winner.Some? { PutBlockStatusSound(PutVerdicts(x, winner, candidates), winner.value, BlockStatus.Final); }
  }

  /** Rows of one slot, numbered from `i` without gaps. */
  ghost predicate Dense(rows: seq<StoredTransfer>, slot: Slot, i: nat) {
    i + |rows| < 0x1_0000_0000
    && forall k :: 0 <= k < |rows| ==> rows[k].slot == slot && rows[k].index == i + k
  }

  lemma {:induction false} DecodeRowsDense(resp: TransfersInfo, slot: Slot, xs: seq<TransferInfo>, i: nat)
    requires i + |xs| < 0x1_0000_0000
    ensures Dense(DecodeRows(resp, slot, xs, i), slot, i)
    decreases |xs|
  {
    if xs != [] {
      DecodeRowsDense(resp, slot, xs[1..], if IsZeroValue(xs[0].value) then i else i + 1);
    }
  }

  /** Attribution touches nothing but the operation id. */
  lemma {:induction false} AttributeKeeps(rows: seq<StoredTransfer>, current: Option<Raw<Id>>)
    ensures forall k :: 0 <= k < |rows| ==>
      Attribute(rows, current)[k] == rows[k].(operationId := Attribute(rows, current)[k].operationId)
    decreases |rows|
  {
    if rows != [] { AttributeKeeps(rows[1..], ActiveAfter(rows[0], current)); }
  }

  lemma TransferRowsDense(resp: TransfersInfo, slot: Slot)
    ensures Dense(TransferRows(resp, slot), slot, 0)
  {
    DecodeRowsDense(resp, slot, resp.transfers, 0);
    AttributeKeeps(DecodeRows(resp, slot, resp.transfers, 0), None);
  }

  lemma {:induction false} PutTransfersSound(x: Indexed<StoredTransfer>, rows: seq<StoredTransfer>, slot: Slot, i: nat)
    requires SoundTransfers(x) && Dense(rows, slot, i)
    requires forall j: U32 :: i <= j ==> SlotIndexedKey(slot, j) !in x.rows
    ensures SoundTransfers(PutTransfers(x, rows))
    decreases |rows|
  {
    hide SoundTransfers, SlotIndexedKey;
    if rows != [] {
      assert rows[0].slot == slot && rows[0].index == i;
      PutTransferSound(x, rows[0]);
      forall j: U32 | i + 1 <= j ensures SlotIndexedKey(slot, j) != SlotIndexedKey(slot, i) {
        SlotIndexedRoundTrip(slot, j);
        SlotIndexedRoundTrip(slot, i);
      }
      PutTransfersSound(PutTransfer(x, rows[0]), rows[1..], slot, i + 1);
    }
  }

  lemma {:induction false} ReconcileAsyncSound(x: Indexed<StoredAsyncMsg>, rows: seq<StoredTransfer>, slot: Slot,
                                               now: int)
    requires SoundAsync(x)
    ensures SoundAsync(ReconcileAsync(x, rows, slot, now))
    decreases |rows|
  {
    hide SoundAsync;
    if rows != [] {
      if rows[0].asyncMsgId.Some? {
        var row := AsyncReconciled(RowAt(x, rows[0].asyncMsgId.value), rows[0], slot, now);
        if row.Some? { PutAsyncSound(x, row.value); }
      }
      ReconcileAsyncSound(ReconcileAsyncRow(x, rows[0], slot, now), rows[1..], slot, now);
    }
  }

  lemma {:induction false} ReconcileDeferredSound(x: Indexed<StoredDeferredCall>, rows: seq<StoredTransfer>,
                                                  slot: Slot, now: int)
    requires SoundDeferred(x)
    ensures SoundDeferred(ReconcileDeferred(x, rows, slot, now))
    decreases |rows|
  {
    hide SoundDeferred;
    if rows != [] {
      if rows[0].deferredCallId.Some? {
        var row := DeferredReconciled(RowAt(x, rows[0].deferredCallId.value), rows[0], slot, now);
        if row.Some? { PutDeferredSound(x, row.value); }
      }
      ReconcileDeferredSound(ReconcileDeferredRow(x, rows[0], slot, now), rows[1..], slot, now);
    }
  }

  /** A re-ingested block keeps its slot and creator, hence its index rows. */
  lemma BlockRowSound(x: Indexed<StoredBlock>, h: Header, initial: BlockStatus,
                      endorsements: seq<StoredEndorsement>, opIds: seq<Id>)
    requires SoundBlocks(x)
    ensures var row := BlockRow(RowAt(x, h.id), h, initial, endorsements, opIds);
      row.id == h.id && SoundBlocks(PutBlock(x, row))
  {
    hide Exact, AddrSlotIdKey, CandidateKey;
    PutBlockSound(x, BlockRow(RowAt(x, h.id), h, initial, endorsements, opIds));
  }

  lemma HandleBlockValid(t: Tables, fb: FilledBlock)
    requires Valid(t)
    ensures Valid(HandleBlock(t, fb).tables)
  {
    hide Sound, BlockRow, PutBlock, SlotKey, PutEndorsements, PutDenunciations, PutOps;
    match CheckHeader(fb)
    case None =>
    case Some(h) =>
      var endorsements := DecodeEndorsements(h.content.endorsements, h.id, h.slot);
      PutEndorsementsSound(t.endorsements, endorsements);
      PutDenunciationsSound(t.denunciations, h.content.denunciations, h.id);
      PutOpsSound(t.ops, fb.operations, h.slot, h.id);
      var s := SlotOrFresh(t, h.slot);
      BlockRowSound(t.blocks, h, StatusFor(s, h.id), endorsements, PutOps(t.ops, fb.operations, h.slot, h.id).1);
  }

  lemma ApplyOutputValid(t: Tables, slot: Slot, s: SlotState, e: ExecutionOutput, isFinal: bool, now: int)
    requires Valid(t) && s.slot == slot
    ensures Valid(ApplyOutput(t, slot, s, e, isFinal, now))
  {
    hide Sound, SlotKey, ReplaceScEvents, PutExecStatuses, PutAsyncChanges, ApplyFinality, ExecutedIds, ExecutedOps;
    hide AsyncPool, TrailHash;
    var s1 := WithOutput(s, e, isFinal);
    ReplaceScEventsSound(t.scEvents, e.events, slot, s1.status);
    PutExecStatusesSound(t.ops, ExecutedOps(e), isFinal);
    PutAsyncChangesSound(t.asyncMsgs, AsyncPool(e), slot, now);
    ApplyFinalitySound(t.blocks, s1.finalBlockId, s1.candidateBlockIds);
  }

  lemma CompleteFinalExecValid(t: Tables, s: SlotState, e: ExecutionOutput, now: int)
    requires Valid(t)
    ensures Valid(CompleteFinalExec(t, s, e, now))
  {
    hide Sound, SlotKey, ReplaceScEvents, PutExecStatuses, PutAsyncChanges, ApplyFinality, ExecutedIds, ExecutedOps;
    hide AsyncPool, TrailHash;
    ReplaceScEventsSound(t.scEvents, e.events, s.slot, SlotStatus.Final);
    PutExecStatusesSound(t.ops, ExecutedOps(e), true);
    PutAsyncChangesSound(t.asyncMsgs, AsyncPool(e), s.slot, now);
    ApplyFinalitySound(t.blocks, s.finalBlockId, s.candidateBlockIds);
  }

  lemma HandleExecValid(t: Tables, out: SlotExecutionOutput, now: int)
    requires Valid(t)
    ensures Valid(HandleExec(t, out, now).tables)
  {
    hide ApplyOutput, CompleteFinalExec, SameVerdict, Sound, SlotKey;
    if out.output.Some? && out.output.value.slot.Some? {
      var e := out.output.value;
      var slot := SlotFromPb(e.slot.value);
      var s := SlotOrFresh(t, slot);
      assert s.slot == slot by { FreshRowSlot(t, slot); }
      hide Valid;
      ApplyOutputValid(t, slot, s, e, out.status.FinalOutput?, now);
      CompleteFinalExecValid(t, s, e, now);
    }
  }

  lemma FreshRowSlot(t: Tables, s: Slot)
    requires SlotsKeyed(t.slots)
    ensures SlotOrFresh(t, s).slot == s
  {
    if SlotAt(t.slots, s).Some? { SlotKeyInjective(t.slots[SlotKey(s)].slot, s); }
  }

  lemma HandleTransfersValid(t: Tables, resp: TransfersInfo, now: int)
    requires Valid(t)
    ensures Valid(HandleTransfers(t, resp, now).tables)
  {
    hide Sound, SlotIndexedKey, SlotKey, TransferRows, PutTransfers, ReconcileAsync, ReconcileDeferred;
    if resp.slot.Some? {
      var slot := SlotFromPb(resp.slot.value);
      var rows := TransferRows(resp, slot);
      TransferRowsDense(resp, slot);
      ClearPrefixSound(t.transfers, SlotKey(slot), TransferT, TransferEntries, TransferKeyOf);
      PutTransfersSound(ClearTransfers(t.transfers, slot), rows, slot, 0);
      ReconcileAsyncSound(t.asyncMsgs, rows, slot, now);
      ReconcileDeferredSound(t.deferredCalls, rows, slot, now);
    }
  }

  /** Every event keeps the 19 derived column families exact. */
  lemma StepValid(t: Tables, a: Arrival)
    requires Valid(t)
    ensures Valid(Step(t, a))
  {
    hide Valid;
    match a.ev
    case Block(fb) => HandleBlockValid(t, fb);
    case Exec(out) => HandleExecValid(t, out, a.now);
    case Transfers(resp) => HandleTransfersValid(t, resp, a.now);
    case Tick =>
  }

  lemma EmptyValid()
    ensures Valid(EMPTY_TABLES)
  {}

  /** Index exactness in every reachable store, from any exact start. */
  lemma {:induction false} RunValid(t: Tables, trace: seq<Arrival>)
    requires Valid(t)
    ensures Valid(Run(t, trace))
    decreases |trace|
  {
    hide Valid;
    if trace != [] {
      RunValid(t, trace[..|trace| - 1]);
      StepValid(Run(t, trace[..|trace| - 1]), trace[|trace| - 1]);
    }
  }

  /** Spelled out per table: the index is the image of the stored rows. */
  lemma RunIndexesAreImages(trace: seq<Arrival>)
    ensures var t := Run(EMPTY_TABLES, trace);
      && t.blocks.idx == Image(t.blocks.rows, BlockEntries)
      && t.ops.idx == Image(t.ops.rows, OpEntries)
      && t.endorsements.idx == Image(t.endorsements.rows, EndorsementEntries)
      && t.transfers.idx == Image(t.transfers.rows, TransferEntries)
      && t.denunciations.idx == Image(t.denunciations.rows, DenunciationEntries)
      && t.scEvents.idx == Image(t.scEvents.rows, EventEntries)
      && t.asyncMsgs.idx == Image(t.asyncMsgs.rows, AsyncEntries)
      && t.deferredCalls.idx == Image(t.deferredCalls.rows, DeferredEntries)
  {
    hide Image, BlockEntries, OpEntries, EndorsementEntries, TransferEntries, DenunciationEntries, EventEntries;
    hide AsyncEntries, DeferredEntries, Run, Owned;
    EmptyValid();
    RunValid(EMPTY_TABLES, trace);
    var t := Run(EMPTY_TABLES, trace);
    ExactIsImage(t.blocks, BlockT, BlockEntries);
    ExactIsImage(t.ops, OpT, OpEntries);
    ExactIsImage(t.endorsements, EndorsementT, EndorsementEntries);
    ExactIsImage(t.transfers, TransferT, TransferEntries);
    ExactIsImage(t.denunciations, DenunciationT, DenunciationEntries);
    ExactIsImage(t.scEvents, EventT, EventEntries);
    ExactIsImage(t.asyncMsgs, AsyncT, AsyncEntries);
    ExactIsImage(t.deferredCalls, DeferredT, DeferredEntries);
  }
}
