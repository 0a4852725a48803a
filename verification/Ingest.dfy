/**
 The ingest worker: the handlers that read, modify and write back rows, each
 proved to have exactly the effect that `IngestSpec` gives it.
 */
module IngestWorker {
  import opened ByteStrings
  import opened Ids
  import opened Keys
  import opened Model
  import opened Store
  import opened Database
  import opened IngestSpec
  import IndexRuns

  class Ingest {
    const db: Db

    constructor (db: Db)
      ensures this.db == db
    {
      this.db := db;
    }

    // ---- Block ------------------------------------------------------------

    method HandleBlock(fb: FilledBlock) returns (ok: bool)
      modifies db
      ensures Outcome(db.inner, ok) == IngestSpec.HandleBlock(old(db.inner), fb)
    {
      hide CheckHeader, PutEndorsement, PutDenunciation, BlockEntries, ParentStub, StatusFor, BlockRow, WithBlock;
      hide PutSlot, PutOps;
      var header := CheckHeader(fb);
      if header.None? {
        return false;
      }
      var h := header.value;
      var endorsements := DecodeEndorsements(h.content.endorsements, h.id, h.slot);
      ok := WriteAllEndorsements(endorsements);
      if !ok {
        return;
      }
      WriteAllDenunciations(h.content.denunciations, h.id);
      var ids;
      ids, ok := IngestOps(fb.operations, h.slot, h.id);
      if !ok {
        return;
      }
      var s := SlotOrFresh(db.inner, h.slot);
      var initial := StatusFor(s, h.id);
      var row := BlockRow(RowAt(db.inner.blocks, h.id), h, initial, endorsements, ids);
      db.WriteBlock(row);
      db.WriteSlot(WithBlock(s, h.id));
      db.EnsureParentStub(h.slot);
    }

    method WriteAllEndorsements(es: seq<StoredEndorsement>) returns (ok: bool)
      modifies db
      ensures var r := PutEndorsements(old(db.inner.endorsements), es);
        ok == r.1 && db.inner == old(db.inner).(endorsements := r.0)
    {
      for i := 0 to |es|
        invariant db.inner == old(db.inner).(endorsements := db.inner.endorsements)
        invariant PutEndorsements(db.inner.endorsements, es[i..]) == PutEndorsements(old(db.inner.endorsements), es)
      {
        ok := db.WriteEndorsement(es[i]);
        if !ok {
          return;
        }
      }
      ok := true;
    }

    method WriteAllDenunciations(ds: seq<StoredDenunciation>, block: Id)
      modifies db
      ensures db.inner == old(db.inner).(denunciations := PutDenunciations(old(db.inner.denunciations), ds, block))
    {
      for i := 0 to |ds|
        invariant db.inner == old(db.inner).(denunciations := db.inner.denunciations)
        invariant PutDenunciations(db.inner.denunciations, ds[i..], block)
               == PutDenunciations(old(db.inner.denunciations), ds, block)
      {
        db.WriteDenunciation(DenunciationRow(ds[i], block));
      }
    }

    /** Insert or update the operations of a block; an unreadable new one aborts the block. */
    method IngestOps(fs: seq<FilledOperation>, slot: Slot, block: Id) returns (ids: seq<Id>, ok: bool)
      modifies db
      ensures (db.inner.ops, ids, ok) == PutOps(old(db.inner.ops), fs, slot, block)
      ensures db.inner == old(db.inner).(ops := db.inner.ops)
    {
      hide OpEntries, NewOp, Include;
      ids := [];
      ghost var all := PutOps(db.inner.ops, fs, slot, block);
      assert fs[0..] == fs && [] + all.1 == all.1;
      for i := 0 to |fs|
        invariant db.inner == old(db.inner).(ops := db.inner.ops)
        invariant OpsLeft(db.inner.ops, fs[i..], slot, block, ids, all)
      {
        assert fs[i..][0] == fs[i] && fs[i..][1..] == fs[i + 1..];
        var opId := OpIdOf(fs[i]);
        if opId.None? {
          continue;
        }
        ghost var before := ids;
        ids := ids + [opId.value];
        var stored := if opId.value in db.inner.ops.rows then Some(db.inner.ops.rows[opId.value])
                      else NewOp(fs[i].operation.value, opId.value, slot);
        if stored.None? {
          ok := false;
          return;
        }
        ghost var rest := PutOps(PutOp(db.inner.ops, Include(stored.value, slot, block)), fs[i + 1..], slot, block).1;
        assert before + ([opId.value] + rest) == ids + rest;
        db.WriteOp(Include(stored.value, slot, block));
      }
      assert fs[|fs|..] == [] && ids + [] == ids;
      ok := true;
    }

    /** What is left to do, on top of the ids met so far, amounts to `all`. */
    static ghost predicate OpsLeft(x: Indexed<StoredOperation>, fs: seq<FilledOperation>, slot: Slot, block: Id,
                                   ids: seq<Id>, all: (Indexed<StoredOperation>, seq<Id>, bool)) {
      var r := PutOps(x, fs, slot, block);
      all == (r.0, ids + r.1, r.2)
    }

    // ---- Exec -------------------------------------------------------------

    method HandleExec(out: SlotExecutionOutput, now: int) returns (ok: bool)
      modifies db
      ensures Outcome(db.inner, ok) == IngestSpec.HandleExec(old(db.inner), out, now)
    {
      hide ReplaceScEvents, ApplyFinality, PutExecStatuses, PutAsyncChanges, ParentStub, SlotAt, SameVerdict, TrailHash;
      if out.output.None? || out.output.value.slot.None? {
        return false;
      }
      if out.status.OtherOutput? {
        return true;
      }
      var e := out.output.value;
      var slot := SlotFromPb(e.slot.value);
      var isFinal := out.status.FinalOutput?;
      var state := SlotOrFresh(db.inner, slot);
      ok := true;
      if state.status == SlotStatus.Final {
        if isFinal && SameVerdict(state, e) && !state.completeness.execOutputFinal {
          CompleteFinalExecFromNode(state, e, now);
        }
        return;
      }
      state := state.(status := if isFinal then SlotStatus.Final else SlotStatus.Candidate);
      if TrailHash(e).Some? {
        state := state.(trailHash := TrailHash(e));
      }
      RewriteScEvents(e.events, slot, state.status);
      state := state.(scEventCount := |e.events|);
      if isFinal {
        state := state.(completeness := state.completeness.(execOutputFinal := true), isMiss := e.blockId.None?);
        if OkOf(e.blockId).Some? {
          state := state.(finalBlockId := OkOf(e.blockId));
        }
        db.UpdateLastFinalSlot(slot);
        ApplyFinalityToBlocks(state.finalBlockId, state.candidateBlockIds);
      } else {
        state := state.(completeness := state.completeness.(execOutputCandidate := true));
        db.UpdateLastCandidateSlot(slot);
      }
      var ids := ApplyExecutedOpsChanges(ExecutedOps(e), isFinal);
      if ids != [] && state.executedOpIds == [] {
        state := state.(executedOpIds := ids);
      }
      if isFinal {
        ApplyAsyncPoolChanges(AsyncPool(e), slot, now);
      }
      db.WriteSlot(state);
      if isFinal {
        db.EnsureParentStub(slot);
      }
    }

    /** Settle the exec part of a slot whose verdict was known before the node's output came. */
    method CompleteFinalExecFromNode(s: SlotState, e: ExecutionOutput, now: int)
      modifies db
      ensures db.inner == CompleteFinalExec(old(db.inner), s, e, now)
    {
      hide ReplaceScEvents, ApplyFinality, PutExecStatuses, PutAsyncChanges;
      var state := s;
      if state.trailHash.None? {
        state := state.(trailHash := TrailHash(e));
      }
      RewriteScEvents(e.events, s.slot, SlotStatus.Final);
      state := state.(scEventCount := |e.events|, completeness := state.completeness.(execOutputFinal := true));
      var ids := ApplyExecutedOpsChanges(ExecutedOps(e), true);
      if ids != [] && state.executedOpIds == [] {
        state := state.(executedOpIds := ids);
      }
      ApplyAsyncPoolChanges(AsyncPool(e), s.slot, now);
      ApplyFinalityToBlocks(state.finalBlockId, state.candidateBlockIds);
      db.WriteSlot(state);
    }

    method RewriteScEvents(evs: Repeated<ScEventPb>, slot: Slot, status: SlotStatus)
      modifies db
      ensures db.inner == old(db.inner).(scEvents := ReplaceScEvents(old(db.inner.scEvents), evs, slot, status))
    {
      db.ClearScEventsForSlot(slot);
      ghost var cleared := db.inner.scEvents;
      var scCount := 0;
      for i := 0 to |evs|
        invariant scCount == i
        invariant db.inner == old(db.inner).(scEvents := db.inner.scEvents)
        invariant PutScEvents(db.inner.scEvents, evs[i..], slot, status, scCount)
            == PutScEvents(cleared, evs, slot, status, 0)
      {
        db.WriteScEvent(EventRow(evs[i], slot, scCount, status));
        scCount := scCount + 1;
      }
    }

    method ApplyExecutedOpsChanges(es: seq<ExecutedOpChange>, isFinal: bool) returns (ids: seq<Id>)
      modifies db
      ensures ids == ExecutedIds(es)
      ensures db.inner == old(db.inner).(ops := PutExecStatuses(old(db.inner.ops), es, isFinal))
    {
      hide OpEntries;
      ids := [];
      for i := 0 to |es|
        invariant ids + ExecutedIds(es[i..]) == ExecutedIds(es)
        invariant db.inner == old(db.inner).(ops := db.inner.ops)
        invariant PutExecStatuses(db.inner.ops, es[i..], isFinal) == PutExecStatuses(old(db.inner.ops), es, isFinal)
      {
        if !es[i].operationId.Parsed? {
          continue;
        }
        var id := es[i].operationId.id;
        ids := ids + [id];
        if es[i].status.None? || id !in db.inner.ops.rows {
          continue;
        }
        var op := db.inner.ops.rows[id];
        var status := es[i].status.value;
        if isFinal {
          if op.finalExecStatus.None? {
            db.WriteOp(op.(finalExecStatus := Some(status), candidateExecStatus := Some(status)));
          }
        } else if op.candidateExecStatus != Some(status) {
          db.WriteOp(op.(candidateExecStatus := Some(status)));
        }
      }
    }

    method ApplyAsyncPoolChanges(es: seq<AsyncPoolEntry>, slot: Slot, now: int)
      modifies db
      ensures db.inner == old(db.inner).(asyncMsgs := PutAsyncChanges(old(db.inner.asyncMsgs), es, slot, now))
    {
      hide PutAsync;
      for i := 0 to |es|
        invariant db.inner == old(db.inner).(asyncMsgs := db.inner.asyncMsgs)
        invariant PutAsyncChanges(db.inner.asyncMsgs, es[i..], slot, now)
               == PutAsyncChanges(old(db.inner.asyncMsgs), es, slot, now)
      {
        var id := es[i].id;
        if id == [] {
          continue;
        }
        var existing := if id in db.inner.asyncMsgs.rows then db.inner.asyncMsgs.rows[id]
                        else AsyncStub(id, AsyncMsgState.Pending, slot, now);
        match es[i].change
        case SetMsg(Some(created)) =>
          db.WriteAsyncMsg(AsyncFromMessage(id, created, slot, now));
        case UpdateMsg(Some(u)) =>
          existing := ApplyUpdate(existing, u);
          existing := existing.(lastSlot := Some(slot));
          db.WriteAsyncMsg(existing);
        case DeleteMsg =>
          if !Classified(existing.state) {
            existing := existing.(state := AsyncMsgState.Consumed);
          }
          existing := existing.(lastSlot := Some(slot));
          db.WriteAsyncMsg(existing);
        case _ =>
      }
    }

    method ApplyFinalityToBlocks(winner: Option<Id>, candidates: seq<Id>)
      modifies db
      ensures db.inner == old(db.inner).(blocks := ApplyFinality(old(db.inner.blocks), winner, candidates))
    {
      hide BlockEntries;
      for i := 0 to |candidates|
        invariant db.inner == old(db.inner).(blocks := db.inner.blocks)
        invariant PutVerdicts(db.inner.blocks, winner, candidates[i..])
            == PutVerdicts(old(db.inner.blocks), winner, candidates)
      {
        SetBlockStatus(candidates[i], Verdict(winner, candidates[i]));
      }
      if winner.Some? && winner.value !in candidates {
        SetBlockStatus(winner.value, BlockStatus.Final);
      }
    }

    method SetBlockStatus(id: Id, status: BlockStatus)
      modifies db
      ensures db.inner == old(db.inner).(blocks := PutBlockStatus(old(db.inner.blocks), id, status))
    {
      if id in db.inner.blocks.rows && db.inner.blocks.rows[id].status != status {
        db.WriteBlock(db.inner.blocks.rows[id].(status := status));
      }
    }

    // ---- Transfers --------------------------------------------------------

    method HandleTransfers(resp: TransfersInfo, now: int) returns (ok: bool)
      modifies db
      ensures Outcome(db.inner, ok) == IngestSpec.HandleTransfers(old(db.inner), resp, now)
    {
      hide DecodeRows, Attribute, PutTransfers, ReconcileAsync, ReconcileDeferred, ClearTransfers;
      if resp.slot.None? {
        return false;
      }
      var slot := SlotFromPb(resp.slot.value);
      db.ClearTransfersForSlot(slot);
      var decoded := DecodeTransfers(resp, slot);
      var rows := new StoredTransfer[|decoded|](i requires 0 <= i < |decoded| => decoded[i]);
      assert rows[..] == decoded;
      AttributeInPlace(rows);
      var final := rows[..];
      WriteAllTransfers(final);
      ReconcileAsyncFromTransfers(slot, final, now);
      ReconcileDeferredFromTransfers(slot, final, now);
      var state := SlotOrFresh(db.inner, slot);
      db.WriteSlot(WithTransfers(state));
      ok := true;
    }

    /** First pass: drop zero values, number the rest densely. */
    method DecodeTransfers(resp: TransfersInfo, slot: Slot) returns (rows: seq<StoredTransfer>)
      ensures rows == DecodeRows(resp, slot, resp.transfers, 0)
    {
      rows := [];
      var nextIdx := 0;
      for i := 0 to |resp.transfers|
        invariant nextIdx <= i
        invariant rows + DecodeRows(resp, slot, resp.transfers[i..], nextIdx)
            == DecodeRows(resp, slot, resp.transfers, 0)
      {
        var x := resp.transfers[i];
        if IsZeroValue(x.value) {
          continue;
        }
        rows := rows + [TransferRow(resp, slot, x, nextIdx)];
        nextIdx := nextIdx + 1;
      }
    }

    /** Second pass, in place: stick the active operation on the child rows that follow it. */
    method AttributeInPlace(rows: array<StoredTransfer>)
      modifies rows
      ensures rows[..] == Attribute(old(rows[..]), None)
    {
      hide Attribute;
      ghost var was := rows[..];
      var current: Option<Raw<Id>> := None;
      for i := 0 to rows.Length
        invariant rows[i..] == was[i..]
        invariant rows[..i] + Attribute(was[i..], current) == Attribute(was, None)
      {
        var r := rows[i];
        ghost var done, before := rows[..i], current;
        assert r == was[i..][0];
        AttributeNext(was, i, current);
        if r.operationId.Some? {
          current := r.operationId;
        } else if r.asyncMsgId.Some? || r.deferredCallId.Some? || r.denunciationIndex.Some? {
          current := None;
        } else if IsRewardOrigin(r.origin) {
          current := None;
        } else if IsOpChildOrigin(r.origin) {
          if current.Some? {
            rows[i] := r.(operationId := current);
          }
        }
        assert rows[i] == Attributed(r, before) && current == ActiveAfter(r, before);
        assert rows[..i + 1] == done + [rows[i]];
      }
      assert rows[..rows.Length] == rows[..];
      AttributeNothing(current);
    }

    lemma AttributeNext(was: seq<StoredTransfer>, i: nat, current: Option<Raw<Id>>)
      requires i < |was|
      ensures Attribute(was[i..], current) == [Attributed(was[i], current)]
          + Attribute(was[i + 1..], ActiveAfter(was[i], current))
    {
      assert was[i..][0] == was[i] && was[i..][1..] == was[i + 1..];
    }

    lemma AttributeNothing(current: Option<Raw<Id>>)
      ensures Attribute([], current) == []
    {}

    method WriteAllTransfers(rows: seq<StoredTransfer>)
      modifies db
      ensures db.inner == old(db.inner).(transfers := PutTransfers(old(db.inner.transfers), rows))
    {
      for i := 0 to |rows|
        invariant db.inner == old(db.inner).(transfers := db.inner.transfers)
        invariant PutTransfers(db.inner.transfers, rows[i..]) == PutTransfers(old(db.inner.transfers), rows)
      {
        db.WriteTransfer(rows[i]);
      }
    }

    method ReconcileAsyncFromTransfers(slot: Slot, rows: seq<StoredTransfer>, now: int)
      modifies db
      ensures db.inner == old(db.inner).(asyncMsgs := ReconcileAsync(old(db.inner.asyncMsgs), rows, slot, now))
    {
      hide PutAsync;
      for i := 0 to |rows|
        invariant db.inner == old(db.inner).(asyncMsgs := db.inner.asyncMsgs)
        invariant ReconcileAsync(db.inner.asyncMsgs, rows[i..], slot, now)
            == ReconcileAsync(old(db.inner.asyncMsgs), rows, slot, now)
      {
        var r := rows[i];
        if r.asyncMsgId.None? {
          continue;
        }
        var id := r.asyncMsgId.value;
        var newState := AsyncOutcome(r.origin);
        if newState.None? {
          continue;
        }
        var existing := if id in db.inner.asyncMsgs.rows then db.inner.asyncMsgs.rows[id]
                        else AsyncStub(id, newState.value, slot, now);
        if !Classified(existing.state) {
          existing := existing.(state := newState.value);
        }
        if existing.sender.None? {
          existing := existing.(sender := OkOf(r.from));
        }
        if existing.destination.None? {
          existing := existing.(destination := OkOf(r.to));
        }
        if r.value.Coins? && existing.coins == 0 {
          existing := existing.(coins := r.value.nmas);
        }
        existing := existing.(lastSlot := Some(slot));
        db.WriteAsyncMsg(existing);
      }
    }

    method ReconcileDeferredFromTransfers(slot: Slot, rows: seq<StoredTransfer>, now: int)
      modifies db
      ensures db.inner ==
              old(db.inner).(deferredCalls := ReconcileDeferred(old(db.inner.deferredCalls), rows, slot, now))
    {
      hide PutDeferred;
      for i := 0 to |rows|
        invariant db.inner == old(db.inner).(deferredCalls := db.inner.deferredCalls)
        invariant ReconcileDeferred(db.inner.deferredCalls, rows[i..], slot, now)
            == ReconcileDeferred(old(db.inner.deferredCalls), rows, slot, now)
      {
        var r := rows[i];
        if r.deferredCallId.None? {
          continue;
        }
        var id := r.deferredCallId.value;
        var existing := if id in db.inner.deferredCalls.rows then db.inner.deferredCalls.rows[id]
            else DeferredStub(id, slot, now);
        var newState := DeferredOutcome(r.origin, existing.state);
        if newState.None? {
          continue;
        }
        if r.origin.DeferredCallRegister? {
          if existing.registeredSlot.None? { existing := existing.(registeredSlot := Some(slot)); }
          if existing.sender.None? { existing := existing.(sender := OkOf(r.from)); }
        } else if r.origin.DeferredCallCoins? {
          if existing.targetSlot.None? { existing := existing.(targetSlot := Some(slot)); }
          if existing.targetAddress.None? { existing := existing.(targetAddress := OkOf(r.to)); }
        }
        if r.value.Coins? && r.value.nmas > existing.coins {
          existing := existing.(coins := r.value.nmas);
        }
        if !Terminal(existing.state) {
          existing := existing.(state := newState.value);
        }
        existing := existing.(lastSlot := Some(slot));
        db.WriteDeferredCall(existing);
      }
    }

    // ---- one event --------------------------------------------------------

    /** Apply one event. Every sound store stays sound. */
    method Handle(a: Arrival)
      modifies db
      ensures db.inner == Step(old(db.inner), a)
      ensures Valid(old(db.inner)) ==> Valid(db.inner)
    {
      hide Valid, IngestSpec.HandleBlock, IngestSpec.HandleExec, IngestSpec.HandleTransfers;
      if Valid(db.inner) { IndexRuns.StepValid(db.inner, a); }
      match a.ev {
        case Block(fb) => var _ := HandleBlock(fb);
        case Exec(out) => var _ := HandleExec(out, a.now);
        case Transfers(resp) => var _ := HandleTransfers(resp, a.now);
        case Tick =>
      }
    }
  }
}
