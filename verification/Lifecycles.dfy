/**
 Async messages: which rows stay classified over whole runs, and what commutes.
 */
module Lifecycles {
  import opened ByteStrings
  import opened Ids
  import opened Keys
  import opened Model
  import opened Store
  import opened IngestSpec
  import opened IndexRuns
  import ExecEffects

  // ---- one row at a time --------------------------------------------------

  /** Tables that agree with their indexes are told apart by their rows alone. */
  lemma RowsDetermine<R>(x: Indexed<R>, y: Indexed<R>, table: Table, entries: R -> set<Entry>)
    requires Exact(x, table, entries) && Exact(y, table, entries)
    requires x.rows == y.rows
    ensures x == y
  {
    forall e ensures e in x.idx <==> e in y.idx {
      assert Owned(x, table, entries, e) == Owned(y, table, entries, e);
    }
  }

  /** The row of id `k` after a pool change. */
  function ChangeRow(p: Option<StoredAsyncMsg>, k: Bytes, e: AsyncPoolEntry, slot: Slot,
                     now: int): Option<StoredAsyncMsg> {
    var row := AsyncChanged(p, e, slot, now);
    if e.id != k || row.None? then p else Some(AsyncRow(p, row.value))
  }

  function ChangeRows(p: Option<StoredAsyncMsg>, k: Bytes, es: seq<AsyncPoolEntry>, slot: Slot,
                      now: int): Option<StoredAsyncMsg>
    decreases |es|
  {
    if es == [] then p else ChangeRows(ChangeRow(p, k, es[0], slot, now), k, es[1..], slot, now)
  }

  /** The row of id `k` after a transfer was reconciled. */
  function ReconcileRow(p: Option<StoredAsyncMsg>, k: Bytes, r: StoredTransfer, slot: Slot,
                        now: int): Option<StoredAsyncMsg> {
    var row := AsyncReconciled(p, r, slot, now);
    if r.asyncMsgId != Some(k) || row.None? then p else Some(AsyncRow(p, row.value))
  }

  function ReconcileRows(p: Option<StoredAsyncMsg>, k: Bytes, rs: seq<StoredTransfer>, slot: Slot,
                         now: int): Option<StoredAsyncMsg>
    decreases |rs|
  {
    if rs == [] then p else ReconcileRows(ReconcileRow(p, k, rs[0], slot, now), k, rs[1..], slot, now)
  }

  lemma PutAsyncAt(x: Indexed<StoredAsyncMsg>, m: StoredAsyncMsg, k: Bytes)
    ensures RowAt(PutAsync(x, m), k) == if k == m.id then Some(AsyncRow(RowAt(x, k), m)) else RowAt(x, k)
  {
    hide AsyncEntries, StaleAsync;
  }

  lemma {:induction false} ChangesAt(x: Indexed<StoredAsyncMsg>, es: seq<AsyncPoolEntry>, slot: Slot, now: int,
                                     k: Bytes)
    requires SoundAsync(x)
    ensures RowAt(PutAsyncChanges(x, es, slot, now), k) == ChangeRows(RowAt(x, k), k, es, slot, now)
    decreases |es|
  {
    hide Exact, PutAsync;
    if es != [] {
      var row := AsyncChanged(RowAt(x, es[0].id), es[0], slot, now);
      if row.Some? { PutAsyncAt(x, row.value, k); PutAsyncSound(x, row.value); }
      ChangesAt(PutAsyncChange(x, es[0], slot, now), es[1..], slot, now, k);
    }
  }

  lemma {:induction false} ReconcilesAt(x: Indexed<StoredAsyncMsg>, rs: seq<StoredTransfer>, slot: Slot, now: int,
                                        k: Bytes)
    requires SoundAsync(x)
    ensures RowAt(ReconcileAsync(x, rs, slot, now), k) == ReconcileRows(RowAt(x, k), k, rs, slot, now)
    decreases |rs|
  {
    hide Exact, PutAsync;
    if rs != [] {
      if rs[0].asyncMsgId.Some? {
        var row := AsyncReconciled(RowAt(x, rs[0].asyncMsgId.value), rs[0], slot, now);
        if row.Some? { PutAsyncAt(x, row.value, k); PutAsyncSound(x, row.value); }
      }
      ReconcilesAt(ReconcileAsyncRow(x, rs[0], slot, now), rs[1..], slot, now, k);
    }
  }

  // ---- classification is sticky except under SET --------------------------

  predicate IsSet(e: AsyncPoolEntry) {
    e.id != [] && e.change.SetMsg? && e.change.created.Some?
  }

  /** On a classified message only a SET loses the classification, and it always does. */
  lemma OnlySetDeclassifies(m: StoredAsyncMsg, e: AsyncPoolEntry, slot: Slot, now: int)
    requires Classified(m.state)
    ensures var row := ChangeRow(Some(m), e.id, e, slot, now).value;
      && (row.state != m.state <==> IsSet(e))
      && (IsSet(e) ==> row.state == AsyncMsgState.Pending)
  {}

  lemma {:induction false} ChangesStayClassified(p: Option<StoredAsyncMsg>, k: Bytes, es: seq<AsyncPoolEntry>,
                                                 slot: Slot, now: int)
    requires forall e :: e in es && e.id == k ==> !IsSet(e)
    ensures p.Some? ==> ChangeRows(p, k, es, slot, now).Some?
    ensures p.Some? && Classified(p.value.state) ==> ChangeRows(p, k, es, slot, now).value.state == p.value.state
    decreases |es|
  {
    if es != [] {
      assert es[0] in es;
      ChangesStayClassified(ChangeRow(p, k, es[0], slot, now), k, es[1..], slot, now);
    }
  }

  lemma {:induction false} ReconcilesStayClassified(p: Option<StoredAsyncMsg>, k: Bytes, rs: seq<StoredTransfer>,
                                                    slot: Slot, now: int)
    ensures p.Some? ==> ReconcileRows(p, k, rs, slot, now).Some?
    ensures p.Some? && Classified(p.value.state) ==> ReconcileRows(p, k, rs, slot, now).value.state == p.value.state
    decreases |rs|
  {
    if rs != [] { ReconcilesStayClassified(ReconcileRow(p, k, rs[0], slot, now), k, rs[1..], slot, now); }
  }

  /** The event carries a SET for message `k`. */
  predicate Sets(ev: Event, k: Bytes) {
    ev.Exec? && ev.out.output.Some? && exists e :: e in AsyncPool(ev.out.output.value) && e.id == k && IsSet(e)
  }

  /** What an event does to the async table. */
  lemma StepAsync(t: Tables, a: Arrival) returns (es: seq<AsyncPoolEntry>, rs: seq<StoredTransfer>, slot: Slot)
    ensures Step(t, a).asyncMsgs == ReconcileAsync(PutAsyncChanges(t.asyncMsgs, es, slot, a.now), rs, slot, a.now)
    ensures es == if a.ev.Exec? then ExecEffects.PoolOf(t, a.ev.out) else []
    ensures rs == if a.ev.Transfers? && a.ev.resp.slot.Some?
                  then TransferRows(a.ev.resp, SlotFromPb(a.ev.resp.slot.value)) else []
  {
    hide SlotKey, PutSlot, ParentStub, ReplaceScEvents, PutExecStatuses, ApplyFinality, TransferRows, PutTransfers;
    hide ReconcileDeferred, PutEndorsements, PutDenunciations, PutOps, BlockRow, PutBlock, PutAsyncChange;
    hide ReconcileAsyncRow, SameVerdict, ExecEffects.Contradicts;
    es, rs, slot := [], [], Slot(0, 0);
    match a.ev
    case Block(_) =>
    case Exec(out) =>
      ExecEffects.PoolIs(t, out);
      if out.output.Some? && out.output.value.slot.Some? && out.status.FinalOutput? {
        var e := out.output.value;
        var s := SlotOrFresh(t, SlotFromPb(e.slot.value));
        ExecEffects.ContradictsIff(s, e);
        if s.status != SlotStatus.Final {
          es, slot := AsyncPool(e), SlotFromPb(e.slot.value);
        } else if SameVerdict(s, e) && !s.completeness.execOutputFinal {
          es, slot := AsyncPool(e), s.slot;
        }
      }
    case Transfers(resp) =>
      if resp.slot.Some? {
        slot := SlotFromPb(resp.slot.value);
        rs := TransferRows(resp, slot);
      }
    case Tick =>
  }

  lemma StepStaysClassified(t: Tables, a: Arrival, k: Bytes)
    requires Valid(t) && !Sets(a.ev, k)
    requires k in t.asyncMsgs.rows && Classified(t.asyncMsgs.rows[k].state)
    ensures k in Step(t, a).asyncMsgs.rows && Step(t, a).asyncMsgs.rows[k].state == t.asyncMsgs.rows[k].state
  {
    hide Exact, Step, IsSet, ChangeRows, ReconcileRows, PutAsyncChanges, ReconcileAsync;
    var es, rs, slot := StepAsync(t, a);
    PutAsyncChangesSound(t.asyncMsgs, es, slot, a.now);
    var mid := PutAsyncChanges(t.asyncMsgs, es, slot, a.now);
    ChangesAt(t.asyncMsgs, es, slot, a.now, k);
    ReconcilesAt(mid, rs, slot, a.now, k);
    ChangesStayClassified(RowAt(t.asyncMsgs, k), k, es, slot, a.now);
    ReconcilesStayClassified(RowAt(mid, k), k, rs, slot, a.now);
  }

  /** An Executed or Cancelled message stays so over any run without a SET for it. */
  lemma {:induction false} RunStaysClassified(t: Tables, trace: seq<Arrival>, k: Bytes)
    requires Valid(t) && forall a :: a in trace ==> !Sets(a.ev, k)
    requires k in t.asyncMsgs.rows && Classified(t.asyncMsgs.rows[k].state)
    ensures k in Run(t, trace).asyncMsgs.rows && Run(t, trace).asyncMsgs.rows[k].state == t.asyncMsgs.rows[k].state
    decreases |trace|
  {
    hide Step, Valid, Sets;
    if trace != [] {
      RunStaysClassified(t, trace[..|trace| - 1], k);
      RunValid(t, trace[..|trace| - 1]);
      StepStaysClassified(Run(t, trace[..|trace| - 1]), trace[|trace| - 1], k);
    }
  }

  // ---- DELETE and reconciliation commute ----------------------------------

  /** The table with every first-sighting timestamp erased. */
  function Timeless(x: Indexed<StoredAsyncMsg>): Indexed<StoredAsyncMsg> {
    Indexed(map k | k in x.rows :: x.rows[k].(firstSeen := 0), x.idx)
  }

  function TimelessRow(p: Option<StoredAsyncMsg>): Option<StoredAsyncMsg> {
    if p.Some? then Some(p.value.(firstSeen := 0)) else None
  }

  /** A DELETE and a reconciled transfer of one slot commute on a row, up to its timestamp. */
  lemma RowCommutes(p: Option<StoredAsyncMsg>, k: Bytes, e: AsyncPoolEntry, r: StoredTransfer, slot: Slot, now: int,
                    now': int)
    requires e.change.DeleteMsg?
    ensures TimelessRow(ReconcileRow(ChangeRow(p, k, e, slot, now), k, r, slot, now'))
         == TimelessRow(ChangeRow(ReconcileRow(p, k, r, slot, now'), k, e, slot, now))
  {}

  /** Neither step looks at the timestamp when it decides anything else. */
  lemma ChangeIgnoresTime(p: Option<StoredAsyncMsg>, p': Option<StoredAsyncMsg>, k: Bytes, e: AsyncPoolEntry,
                          slot: Slot, now: int, now': int)
    requires TimelessRow(p) == TimelessRow(p')
    ensures TimelessRow(ChangeRow(p, k, e, slot, now)) == TimelessRow(ChangeRow(p', k, e, slot, now'))
  {}

  lemma {:induction false} ChangesIgnoreTime(p: Option<StoredAsyncMsg>, p': Option<StoredAsyncMsg>, k: Bytes,
                                             es: seq<AsyncPoolEntry>, slot: Slot, now: int, now': int)
    requires TimelessRow(p) == TimelessRow(p')
    ensures TimelessRow(ChangeRows(p, k, es, slot, now)) == TimelessRow(ChangeRows(p', k, es, slot, now'))
    decreases |es|
  {
    hide ChangeRow, TimelessRow;
    if es != [] {
      ChangeIgnoresTime(p, p', k, es[0], slot, now, now');
      ChangesIgnoreTime(ChangeRow(p, k, es[0], slot, now), ChangeRow(p', k, es[0], slot, now'),
                        k, es[1..], slot, now, now');
    }
  }

  lemma ReconcileIgnoresTime(p: Option<StoredAsyncMsg>, p': Option<StoredAsyncMsg>, k: Bytes, r: StoredTransfer,
                             slot: Slot, now: int, now': int)
    requires TimelessRow(p) == TimelessRow(p')
    ensures TimelessRow(ReconcileRow(p, k, r, slot, now)) == TimelessRow(ReconcileRow(p', k, r, slot, now'))
  {}

  lemma {:induction false} ReconcilesIgnoreTime(p: Option<StoredAsyncMsg>, p': Option<StoredAsyncMsg>, k: Bytes,
                                                rs: seq<StoredTransfer>, slot: Slot, now: int, now': int)
    requires TimelessRow(p) == TimelessRow(p')
    ensures TimelessRow(ReconcileRows(p, k, rs, slot, now)) == TimelessRow(ReconcileRows(p', k, rs, slot, now'))
    decreases |rs|
  {
    hide ReconcileRow, TimelessRow;
    if rs != [] {
      ReconcileIgnoresTime(p, p', k, rs[0], slot, now, now');
      ReconcilesIgnoreTime(ReconcileRow(p, k, rs[0], slot, now), ReconcileRow(p', k, rs[0], slot, now'),
                           k, rs[1..], slot, now, now');
    }
  }

  /** One DELETE moves past a whole transfer list. */
  lemma {:induction false} DeletePastTransfers(p: Option<StoredAsyncMsg>, k: Bytes, e: AsyncPoolEntry,
                                               rs: seq<StoredTransfer>, slot: Slot, now: int, now': int)
    requires e.change.DeleteMsg?
    ensures TimelessRow(ReconcileRows(ChangeRow(p, k, e, slot, now), k, rs, slot, now'))
         == TimelessRow(ChangeRow(ReconcileRows(p, k, rs, slot, now'), k, e, slot, now))
    decreases |rs|
  {
    hide ChangeRow, ReconcileRow, TimelessRow;
    if rs != [] {
      RowCommutes(p, k, e, rs[0], slot, now, now');
      ReconcilesIgnoreTime(ReconcileRow(ChangeRow(p, k, e, slot, now), k, rs[0], slot, now'),
                           ChangeRow(ReconcileRow(p, k, rs[0], slot, now'), k, e, slot, now), k,
                           rs[1..], slot, now', now');
      DeletePastTransfers(ReconcileRow(p, k, rs[0], slot, now'), k, e, rs[1..], slot, now, now');
    }
  }

  lemma {:induction false} DeletesPastTransfers(p: Option<StoredAsyncMsg>, k: Bytes, es: seq<AsyncPoolEntry>,
                                                rs: seq<StoredTransfer>, slot: Slot, now: int, now': int)
    requires forall e :: e in es ==> e.change.DeleteMsg?
    ensures TimelessRow(ReconcileRows(ChangeRows(p, k, es, slot, now), k, rs, slot, now'))
         == TimelessRow(ChangeRows(ReconcileRows(p, k, rs, slot, now'), k, es, slot, now))
    decreases |es|
  {
    hide ChangeRow, ReconcileRow, TimelessRow, ReconcileRows;
    if es != [] {
      assert es[0] in es;
      DeletesPastTransfers(ChangeRow(p, k, es[0], slot, now), k, es[1..], rs, slot, now, now');
      DeletePastTransfers(p, k, es[0], rs, slot, now, now');
      ChangesIgnoreTime(ReconcileRows(ChangeRow(p, k, es[0], slot, now), k, rs, slot, now'),
                        ChangeRow(ReconcileRows(p, k, rs, slot, now'), k, es[0], slot, now),
                        k, es[1..], slot, now, now);
    }
  }

  /**
   A slot's DELETEs and the reconciliation of its transfers can be taken in either
   order, at any two times: the async tables agree but for first-sighting times.
   */
  lemma DeletesCommuteWithTransfers(x: Indexed<StoredAsyncMsg>, es: seq<AsyncPoolEntry>, rs: seq<StoredTransfer>,
                                    slot: Slot, now: int, now': int)
    requires SoundAsync(x) && forall e :: e in es ==> e.change.DeleteMsg?
    ensures Timeless(ReconcileAsync(PutAsyncChanges(x, es, slot, now), rs, slot, now'))
         == Timeless(PutAsyncChanges(ReconcileAsync(x, rs, slot, now'), es, slot, now))
  {
    hide Exact, ChangeRows, ReconcileRows, PutAsyncChanges, ReconcileAsync;
    var y := ReconcileAsync(PutAsyncChanges(x, es, slot, now), rs, slot, now');
    var z := PutAsyncChanges(ReconcileAsync(x, rs, slot, now'), es, slot, now);
    PutAsyncChangesSound(x, es, slot, now);
    ReconcileAsyncSound(PutAsyncChanges(x, es, slot, now), rs, slot, now');
    ReconcileAsyncSound(x, rs, slot, now');
    PutAsyncChangesSound(ReconcileAsync(x, rs, slot, now'), es, slot, now);
    forall k ensures TimelessRow(RowAt(y, k)) == TimelessRow(RowAt(z, k)) {
      ChangesAt(x, es, slot, now, k);
      ReconcilesAt(PutAsyncChanges(x, es, slot, now), rs, slot, now', k);
      ReconcilesAt(x, rs, slot, now', k);
      ChangesAt(ReconcileAsync(x, rs, slot, now'), es, slot, now, k);
      DeletesPastTransfers(RowAt(x, k), k, es, rs, slot, now, now');
    }
    SameButTime(y, z);
  }

  lemma SameButTime(y: Indexed<StoredAsyncMsg>, z: Indexed<StoredAsyncMsg>)
    requires SoundAsync(y) && SoundAsync(z)
    requires forall k :: TimelessRow(RowAt(y, k)) == TimelessRow(RowAt(z, k))
    ensures Timeless(y) == Timeless(z)
  {
    hide AsyncEntries;
    forall k ensures k in y.rows <==> k in z.rows { assert TimelessRow(RowAt(y, k)) == TimelessRow(RowAt(z, k)); }
    assert Timeless(y).rows == Timeless(z).rows by {
      forall k | k in y.rows ensures y.rows[k].(firstSeen := 0) == z.rows[k].(firstSeen := 0) {
        assert TimelessRow(RowAt(y, k)) == TimelessRow(RowAt(z, k));
      }
    }
    forall e ensures e in y.idx <==> e in z.idx {
      assert e in y.idx <==> Owned(y, AsyncT, AsyncEntries, e);
      assert e in z.idx <==> Owned(z, AsyncT, AsyncEntries, e);
      var k := KeyIn(AsyncT, e);
      if k.Some? && k.value in y.rows {
        assert TimelessRow(RowAt(y, k.value)) == TimelessRow(RowAt(z, k.value));
        EntriesIgnoreTime(y.rows[k.value], z.rows[k.value]);
      }
    }
  }

  lemma EntriesIgnoreTime(m: StoredAsyncMsg, m': StoredAsyncMsg)
    requires m.(firstSeen := 0) == m'.(firstSeen := 0)
    ensures AsyncEntries(m) == AsyncEntries(m')
  {}
}
