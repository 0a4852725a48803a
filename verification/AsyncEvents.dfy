/**
 What an event does to one async message, on any sound store and said of the event.
 */
module AsyncEvents {
  import opened ByteStrings
  import opened Ids
  import opened Keys
  import opened Model
  import opened Store
  import opened IngestSpec
  import opened IndexRuns
  import opened Lifecycles
  import opened AsyncRows
  import opened ExecEffects
  import Transfers

  // ---- execution outputs --------------------------------------------------

  lemma PoolApplied(t: Tables, out: SlotExecutionOutput, now: int, slot: Slot)
    requires SlotsKeyed(t.slots)
    requires IsFor(out, slot)
    ensures HandleExec(t, out, now).tables.asyncMsgs == PutAsyncChanges(t.asyncMsgs, PoolOf(t, out), slot, now)
  {
    hide HandleExec, SlotAt, Contradicts;
    if ExecEffects.Settles(t, out, slot) || Proposes(t, out, slot) {
      TakenOutput(t, out, now, slot);
    } else {
      OtherOutputsIdle(t, out, now);
    }
  }

  /**
   After an execution output each field of a message is what the last change of a
   settling output's pool to give it gave, else what it was; its state is decided by
   the last SET or DELETE, but an executed or cancelled one moves by SET only.
   */
  lemma OutputChangesMessage(t: Tables, out: SlotExecutionOutput, now: int, slot: Slot, k: Bytes)
    requires Valid(t) && IsFor(out, slot) && k != []
    ensures var es := PoolOf(t, out);
      var p, q := RowAt(t.asyncMsgs, k), RowAt(HandleExec(t, out, now).tables.asyncMsgs, k);
      var touched := exists e :: e in es && Touches(k, e);
      var frozen := Settled(p).Some? && !exists e :: e in es && SetsMsg(k, e);
      && (q.Some? <==> p.Some? || touched)
      && SenderOf(q) == Or(LastGiven(es, GivenSender(k)), SenderOf(p))
      && DestinationOf(q) == Or(LastGiven(es, GivenDestination(k)), DestinationOf(p))
      && CoinsOf(q) == Or(LastGiven(es, GivenCoins(k)), CoinsOf(p))
      && (forall f :: FieldOf(q, f) == Or(LastGiven(es, GivenField(k, f)), FieldOf(p, f)))
      && StateOf(q) == (if frozen then StateOf(p) else Or(LastGiven(es, GivenState(k)), StateOf(p)))
      && (if touched then q.Some? && q.value.lastSlot == Some(slot) else q == p)
      && (p.None? && q.Some? ==> q.value.firstSeen == now)
      && (p.Some? && p.value.firstSeen != 0 ==> q.value.firstSeen == p.value.firstSeen)
  {
    hide HandleExec, PoolOf, ChangeRows, PutAsyncChanges, Touches, SetsMsg, Settled, StateOf, SenderOf, DestinationOf;
    hide CoinsOf, FieldOf, LastGiven, Exact;
    var es := PoolOf(t, out);
    PoolApplied(t, out, now, slot);
    ChangesAt(t.asyncMsgs, es, slot, now, k);
    PoolLastWins(RowAt(t.asyncMsgs, k), k, es, slot, now);
    PoolStates(RowAt(t.asyncMsgs, k), k, es, slot, now);
  }

  // ---- transfers ----------------------------------------------------------

  /** Transfer `x` settles message `k`: its coins arrive or go back. */
  predicate SettlesMsg(x: TransferInfo, k: Bytes) {
    x.asyncMsgId == Some(k) && (x.origin.AsyncMsgCoins? || x.origin.AsyncMsgCancel?)
  }

  /** Transfer `i` is the first of the list to settle message `k`. */
  predicate FirstToSettle(xs: seq<TransferInfo>, k: Bytes, i: int) {
    0 <= i < |xs| && SettlesMsg(xs[i], k) && forall j :: 0 <= j < i ==> !SettlesMsg(xs[j], k)
  }

  /**
   After a transfers message an undecided message is Executed if and only if the first
   non-zero transfer to settle it carries its coins, Cancelled if and only if that one
   returns them; a decided one keeps its state. It has a row if it had one or a transfer
   settles it; gaps are filled by the first transfer that can.
   */
  lemma TransfersSettleMessage(t: Tables, resp: TransfersInfo, now: int, k: Bytes)
    requires Valid(t) && resp.slot.Some?
    ensures var xs := Transfers.NonZero(resp.transfers);
      var p, q := RowAt(t.asyncMsgs, k), RowAt(HandleTransfers(t, resp, now).tables.asyncMsgs, k);
      && (q.Some? <==> p.Some? || exists i :: FirstToSettle(xs, k, i))
      && ((forall i :: !FirstToSettle(xs, k, i)) ==> q == p)
      && ((exists i :: FirstToSettle(xs, k, i)) ==> q.value.lastSlot == Some(SlotFromPb(resp.slot.value)))
      && (q.Some? ==> q.value.firstSeen == if p.Some? then p.value.firstSeen else now)
      && (Settled(p).Some? ==> StateOf(q) == StateOf(p))
      && (Settled(p).None? ==>
            && (StateOf(q) == AsyncMsgState.Executed <==>
                  exists i :: FirstToSettle(xs, k, i) && xs[i].origin.AsyncMsgCoins?)
            && (StateOf(q) == AsyncMsgState.Cancelled <==>
                  exists i :: FirstToSettle(xs, k, i) && xs[i].origin.AsyncMsgCancel?))
      && SenderOf(q) == OrElse(SenderOf(p), FirstGiven(k, TransferRows(resp, SlotFromPb(resp.slot.value)), ParsedFrom))
      && DestinationOf(q)
         == OrElse(DestinationOf(p), FirstGiven(k, TransferRows(resp, SlotFromPb(resp.slot.value)), ParsedTo))
      && CoinsOf(q) == (if CoinsOf(p) != 0 then CoinsOf(p)
                        else Or(FirstGiven(k, TransferRows(resp, SlotFromPb(resp.slot.value)), Moved), 0))
  {
    var slot := SlotFromPb(resp.slot.value);
    var rows := TransferRows(resp, slot);
    var xs := Transfers.NonZero(resp.transfers);
    var p := RowAt(t.asyncMsgs, k);
    assert RowAt(HandleTransfers(t, resp, now).tables.asyncMsgs, k) == ReconcileRows(p, k, rows, slot, now) by {
      hide TransferRows, Exact;
      ReconcilesAt(t.asyncMsgs, rows, slot, now, k);
    }
    hide HandleTransfers, ReconcileRows, TransferRows, Valid;
    TransfersFillGaps(p, k, rows, slot, now);
    FirstOutcome(k, rows);
    Transfers.RowsAre(resp, slot);
    NothingSettles(p, k, rows, slot, now);
    TransfersMark(p, k, rows, slot, now);
    forall i ensures FirstSettles(rows, k, i) <==> FirstToSettle(xs, k, i) { SameFirst(resp, slot, rows, k, i); }
  }

  lemma SameFirst(resp: TransfersInfo, slot: Slot, rows: seq<StoredTransfer>, k: Bytes, i: int)
    requires var xs := Transfers.NonZero(resp.transfers);
      |rows| == |xs| && forall j :: 0 <= j < |rows| ==> Transfers.Records(rows[j], resp, slot, xs[j], j)
    ensures FirstSettles(rows, k, i) <==> FirstToSettle(Transfers.NonZero(resp.transfers), k, i)
  {
    var xs := Transfers.NonZero(resp.transfers);
    assert forall j :: 0 <= j < |rows| ==> (AsyncRows.Settles(k, rows[j]) <==> SettlesMsg(xs[j], k));
  }
}
