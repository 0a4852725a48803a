/**
 Taking the same event twice, at any two times, is the same as taking it once,
 whatever the indexes hold.
 */
module Idempotence {
  import opened ByteStrings
  import opened Ids
  import opened Keys
  import opened Model
  import opened Store
  import opened IngestSpec
  import opened IndexRuns
  import opened SlotRuns
  import opened Lifecycles
  import EventRuns
  import Transfers
  import DeferredRuns

  /** The index rows of the row at `k`, if there is one, are all there. */
  predicate Listed<R>(x: Indexed<R>, entries: R -> set<Entry>, k: Bytes) {
    k in x.rows ==> entries(x.rows[k]) <= x.idx
  }

  /** Writing a row that is there already, index rows and all, changes nothing. */
  lemma PutSame<R>(x: Indexed<R>, entries: R -> set<Entry>, k: Bytes)
    requires k in x.rows && Listed(x, entries, k)
    ensures Put(x, k, x.rows[k], {}, entries(x.rows[k])) == x
  {
    assert x.rows[k := x.rows[k]] == x.rows;
  }

  /** Rows under their own keys; nothing is asked of the indexes. */
  ghost predicate RowsInPlace(t: Tables) {
    && SlotsKeyed(t.slots)
    && Keyed(t.blocks.rows, BlockKeyOf)
    && Keyed(t.ops.rows, OpKeyOf)
    && Keyed(t.asyncMsgs.rows, AsyncKeyOf)
    && Keyed(t.deferredCalls.rows, DeferredKeyOf)
  }

  // ---- Block --------------------------------------------------------------

  lemma {:induction false} EndorsementsKeep(x: Indexed<StoredEndorsement>, es: seq<StoredEndorsement>, k: Bytes)
    requires k in x.rows
    ensures k in PutEndorsements(x, es).0.rows
    decreases |es|
  {
    if es != [] && es[0].id.Parsed? { EndorsementsKeep(PutEndorsement(x, es[0]).value, es[1..], k); }
  }

  lemma {:induction false} EndorsementsTwice(x: Indexed<StoredEndorsement>, es: seq<StoredEndorsement>)
    ensures var y := PutEndorsements(x, es).0; PutEndorsements(y, es) == (y, PutEndorsements(x, es).1)
    decreases |es|
  {
    hide EndorsementEntries;
    if es != [] && es[0].id.Parsed? {
      var x1 := PutEndorsement(x, es[0]).value;
      EndorsementsKeep(x1, es[1..], es[0].id.id);
      EndorsementsTwice(x1, es[1..]);
    }
  }

  predicate Recorded(x: Indexed<DenunciationEntry>, k: Bytes) {
    k in x.rows && x.rows[k].includedBlockId.Some?
  }

  lemma {:induction false} DenunciationsKeep(x: Indexed<DenunciationEntry>, ds: seq<StoredDenunciation>, block: Id,
                                             k: Bytes)
    requires Recorded(x, k)
    ensures Recorded(PutDenunciations(x, ds, block), k)
    decreases |ds|
  {
    hide DenunciationEntries;
    if ds != [] { DenunciationsKeep(PutDenunciation(x, DenunciationRow(ds[0], block)), ds[1..], block, k); }
  }

  lemma {:induction false} DenunciationsTwice(x: Indexed<DenunciationEntry>, ds: seq<StoredDenunciation>, block: Id)
    ensures var y := PutDenunciations(x, ds, block); PutDenunciations(y, ds, block) == y
    decreases |ds|
  {
    hide DenunciationEntries;
    if ds != [] {
      var x1 := PutDenunciation(x, DenunciationRow(ds[0], block));
      DenunciationsKeep(x1, ds[1..], block, ds[0].hash);
      DenunciationsTwice(x1, ds[1..], block);
    }
  }

  /** The operation already carries this inclusion site, and its index rows are there. */
  predicate Included(x: Indexed<StoredOperation>, k: Bytes, slot: Slot, block: Id) {
    k in x.rows && Include(x.rows[k], slot, block) == x.rows[k] && Listed(x, OpEntries, k)
  }

  lemma {:induction false} OpsKeep(x: Indexed<StoredOperation>, fs: seq<FilledOperation>, slot: Slot, block: Id,
                                   k: Bytes)
    requires Keyed(x.rows, OpKeyOf) && Included(x, k, slot, block)
    ensures Included(PutOps(x, fs, slot, block).0, k, slot, block) && Keyed(PutOps(x, fs, slot, block).0.rows, OpKeyOf)
    decreases |fs|
  {
    hide OpEntries;
    if fs != [] {
      match OpIdOf(fs[0])
      case None => OpsKeep(x, fs[1..], slot, block, k);
      case Some(id) =>
        match FindOrNewOp(x, fs[0].operation.value, id, slot)
        case None =>
        case Some(o) => OpsKeep(PutOp(x, Include(o, slot, block)), fs[1..], slot, block, k);
    }
  }

  lemma {:induction false} OpsTwice(x: Indexed<StoredOperation>, fs: seq<FilledOperation>, slot: Slot, block: Id)
    requires Keyed(x.rows, OpKeyOf)
    ensures var (y, ids, ok) := PutOps(x, fs, slot, block); PutOps(y, fs, slot, block) == (y, ids, ok)
    decreases |fs|
  {
    hide OpEntries, NewOp;
    if fs != [] {
      match OpIdOf(fs[0])
      case None => OpsTwice(x, fs[1..], slot, block);
      case Some(id) =>
        match FindOrNewOp(x, fs[0].operation.value, id, slot)
        case None =>
        case Some(o) =>
          FoundIsKeyed(x, fs[0].operation.value, id, slot);
          var x1 := PutOp(x, Include(o, slot, block));
          var y := PutOps(x1, fs[1..], slot, block).0;
          OpsKeep(x1, fs[1..], slot, block, id);
          OpsTwice(x1, fs[1..], slot, block);
          PutSame(y, OpEntries, id);
    }
  }

  lemma FoundIsKeyed(x: Indexed<StoredOperation>, signed: SignedOperation, id: Id, slot: Slot)
    requires Keyed(x.rows, OpKeyOf) && FindOrNewOp(x, signed, id, slot).Some?
    ensures FindOrNewOp(x, signed, id, slot).value.id == id
  {}

  lemma StubTwice(slots: map<Bytes, SlotState>, row: SlotState, slot: Slot)
    requires row.slot == slot
    ensures var once := ParentStub(PutSlot(slots, row), slot); ParentStub(PutSlot(once, row), slot) == once
  {
    hide SlotKey;
    if slot.period > 0 {
      SlotKeyInjective(slot, Slot(slot.period - 1, slot.thread));
      var once := ParentStub(PutSlot(slots, row), slot);
      assert PutSlot(once, row) == once;
    }
  }

  /** The block row is stable: it was built from its own slot's verdict. */
  lemma BlockRowTwice(x: Indexed<StoredBlock>, h: Header, initial: BlockStatus, es: seq<StoredEndorsement>,
                      ids: seq<Id>)
    requires Keyed(x.rows, BlockKeyOf)
    ensures var y := PutBlock(x, BlockRow(RowAt(x, h.id), h, initial, es, ids));
      PutBlock(y, BlockRow(RowAt(y, h.id), h, initial, es, ids)) == y
  {
    hide BlockEntries;
    var row := BlockRow(RowAt(x, h.id), h, initial, es, ids);
    var y := PutBlock(x, row);
    assert BlockRow(RowAt(y, h.id), h, initial, es, ids) == row;
    PutSame(y, BlockEntries, h.id);
  }

  lemma BlockTwice(t: Tables, fb: FilledBlock)
    requires RowsInPlace(t)
    ensures var t1 := IngestSpec.HandleBlock(t, fb).tables; IngestSpec.HandleBlock(t1, fb).tables == t1
  {
    hide Keyed, PutEndorsements, PutDenunciations, PutOps, BlockRow, PutBlock, ParentStub, SlotKey, PutSlot, SlotAt;
    if CheckHeader(fb).Some? {
      var h := CheckHeader(fb).value;
      var es := DecodeEndorsements(h.content.endorsements, h.id, h.slot);
      EndorsementsTwice(t.endorsements, es);
      DenunciationsTwice(t.denunciations, h.content.denunciations, h.id);
      OpsTwice(t.ops, fb.operations, h.slot, h.id);
      var s := SlotOrFresh(t, h.slot);
      SlotOrFreshSlot(t, h.slot);
      BlockRowTwice(t.blocks, h, StatusFor(s, h.id), es, PutOps(t.ops, fb.operations, h.slot, h.id).1);
      StubTwice(t.slots, WithBlock(s, h.id), h.slot);
      PutSlotAt(t.slots, WithBlock(s, h.id), h.slot);
      ParentStubAt(PutSlot(t.slots, WithBlock(s, h.id)), h.slot, h.slot);
    }
  }

  // ---- Exec ---------------------------------------------------------------

  /** The index rows of `evs` as rows of the slot from index `i` on. */
  function EventImage(evs: seq<ScEventPb>, slot: Slot, status: SlotStatus, i: nat): set<Entry>
    requires i + |evs| < 0x1_0000_0000
  {
    if evs == [] then {}
    else EventEntries(EventRow(evs[0], slot, i, status)) + EventImage(evs[1..], slot, status, i + 1)
  }

  /** `e` is an index row of the `n`-th event. */
  predicate EntryOf(e: Entry, evs: seq<ScEventPb>, slot: Slot, status: SlotStatus, i: nat, n: nat)
    requires n < |evs| && i + |evs| < 0x1_0000_0000
  {
    e in EventEntries(EventRow(evs[n], slot, i + n, status))
  }

  lemma {:induction false} EventImageAt(e: Entry, evs: seq<ScEventPb>, slot: Slot, status: SlotStatus, i: nat)
    requires i + |evs| < 0x1_0000_0000
    ensures e in EventImage(evs, slot, status, i) <==> exists n: nat :: n < |evs| && EntryOf(e, evs, slot, status, i, n)
    decreases |evs|
  {
    hide EventEntries, EventRow;
    if evs != [] {
      var rest, next := evs[1..], i + 1;
      EventImageAt(e, rest, slot, status, next);
      assert EntryOf(e, evs, slot, status, i, 0) <==> e in EventEntries(EventRow(evs[0], slot, i, status));
      if n: nat :| n < |evs| && EntryOf(e, evs, slot, status, i, n) {
        if n > 0 { assert EntryOf(e, rest, slot, status, next, n - 1); }
      }
      if n: nat :| n < |rest| && EntryOf(e, rest, slot, status, next, n) {
        assert EntryOf(e, evs, slot, status, i, n + 1);
      }
    }
  }

  /** Rewriting SC events adds exactly the index rows of the new rows. */
  lemma {:induction false} PutScEventsIdx(x: Indexed<StoredScEvent>, evs: seq<ScEventPb>, slot: Slot,
                                          status: SlotStatus, i: nat)
    requires i + |evs| < 0x1_0000_0000
    ensures PutScEvents(x, evs, slot, status, i).idx == x.idx + EventImage(evs, slot, status, i)
    decreases |evs|
  {
    hide EventEntries, EventRow;
    if evs != [] { PutScEventsIdx(PutScEvent(x, EventRow(evs[0], slot, i, status)), evs[1..], slot, status, i + 1); }
  }

  /** The index rows that a clear of the prefix takes away. */
  function Under<R>(x: Indexed<R>, p: Bytes, entries: R -> set<Entry>): set<Entry> {
    set k, e | k in x.rows && p <= k && e in entries(x.rows[k]) :: e
  }

  /** The index after a slot's events are replaced: the old rows' entries out, the new rows' entries in. */
  lemma EventsReplacedIdx(x: Indexed<StoredScEvent>, evs: Repeated<ScEventPb>, slot: Slot, status: SlotStatus)
    ensures var y := ReplaceScEvents(x, evs, slot, status);
      y.idx == x.idx - Under(x, SlotKey(slot), EventEntries) + Under(y, SlotKey(slot), EventEntries)
  {
    hide SlotKey, SlotIndexedKey, EventEntries, EventRow, PutScEvents, EventImage;
    var y := ReplaceScEvents(x, evs, slot, status);
    EventRuns.ReplaceEffect(x, evs, slot, status);
    PutScEventsIdx(ClearScEvents(x, slot), evs, slot, status, 0);
    forall e ensures e in Under(y, SlotKey(slot), EventEntries) <==> e in EventImage(evs, slot, status, 0) {
      EventImageAt(e, evs, slot, status, 0);
      HeldEntries(y, evs, slot, status, e);
    }
  }

  lemma HeldEntries(y: Indexed<StoredScEvent>, evs: Repeated<ScEventPb>, slot: Slot, status: SlotStatus, e: Entry)
    requires EventRuns.Holds(y, slot, evs, status)
    ensures e in Under(y, SlotKey(slot), EventEntries) <==>
              exists n: nat :: n < |evs| && EntryOf(e, evs, slot, status, 0, n)
  {
    hide SlotKey, SlotIndexedKey, EventEntries, EventRow, EventRuns.Records;
    if e in Under(y, SlotKey(slot), EventEntries) {
      var k :| k in y.rows && SlotKey(slot) <= k && e in EventEntries(y.rows[k]);
      var j: U32 :| j < |evs| && k == SlotIndexedKey(slot, j);
      assert EventRuns.HoldsAt(y, slot, evs, status, j);
      EventRuns.RecordsIff(y.rows[k], evs[j], slot, j, status);
      assert EntryOf(e, evs, slot, status, 0, j);
    }
    if n: nat :| n < |evs| && EntryOf(e, evs, slot, status, 0, n) {
      assert EventRuns.HoldsAt(y, slot, evs, status, n);
      var k := SlotIndexedKey(slot, n);
      EventRuns.RecordsIff(y.rows[k], evs[n], slot, n, status);
      assert SlotKey(slot) <= k;
    }
  }

  /** A second replacement by rows that are there already leaves the index alone. */
  lemma ReplacedAgain<R>(x: Indexed<R>, y: Indexed<R>, z: Indexed<R>, p: Bytes, entries: R -> set<Entry>)
    requires y.idx == x.idx - Under(x, p, entries) + Under(y, p, entries)
    requires z.idx == y.idx - Under(y, p, entries) + Under(z, p, entries)
    requires y.rows == z.rows
    ensures y == z
  {}

  lemma EventsTwice(x: Indexed<StoredScEvent>, evs: Repeated<ScEventPb>, slot: Slot, status: SlotStatus)
    ensures var y := ReplaceScEvents(x, evs, slot, status); ReplaceScEvents(y, evs, slot, status) == y
  {
    hide SlotKey, SlotIndexedKey, ReplaceScEvents, EventRow, Under;
    var y := ReplaceScEvents(x, evs, slot, status);
    var z := ReplaceScEvents(y, evs, slot, status);
    EventRuns.ReplaceEffect(x, evs, slot, status);
    EventRuns.ReplaceEffect(y, evs, slot, status);
    forall k ensures RowAt(y, k) == RowAt(z, k) {
      if SlotKey(slot) <= k {
        SameHolding(y, z, slot, evs, status, k);
      }
    }
    SameRows(y, z);
    EventsReplacedIdx(x, evs, slot, status);
    EventsReplacedIdx(y, evs, slot, status);
    ReplacedAgain(x, y, z, SlotKey(slot), EventEntries);
  }

  lemma SameHolding(y: Indexed<StoredScEvent>, z: Indexed<StoredScEvent>, slot: Slot, evs: seq<ScEventPb>,
                    status: SlotStatus, k: Bytes)
    requires EventRuns.Holds(y, slot, evs, status) && EventRuns.Holds(z, slot, evs, status)
    requires SlotKey(slot) <= k
    ensures RowAt(y, k) == RowAt(z, k)
  {
    hide SlotKey, SlotIndexedKey, EventRow, EventRuns.Records;
    if k in y.rows || k in z.rows {
      var i: U32 :| i < |evs| && k == SlotIndexedKey(slot, i);
      assert EventRuns.HoldsAt(y, slot, evs, status, i) && EventRuns.HoldsAt(z, slot, evs, status, i);
      EventRuns.RecordsIff(y.rows[k], evs[i], slot, i, status);
      EventRuns.RecordsIff(z.rows[k], evs[i], slot, i, status);
    }
  }

  lemma SameRows<R>(y: Indexed<R>, z: Indexed<R>)
    requires forall k :: RowAt(y, k) == RowAt(z, k)
    ensures y.rows == z.rows
  {
    forall k ensures k in y.rows <==> k in z.rows { assert RowAt(y, k) == RowAt(z, k); }
    forall k | k in y.rows ensures y.rows[k] == z.rows[k] { assert RowAt(y, k) == RowAt(z, k); }
  }

  /** The row of operation `k` after the candidate statuses of `es`. */
  function CandidateRow(p: Option<StoredOperation>, k: Bytes, es: seq<ExecutedOpChange>): Option<StoredOperation>
    decreases |es|
  {
    if es == [] then p
    else
      var hit := es[0].operationId == Parsed(k) && es[0].status.Some? && p.Some?;
      CandidateRow(if hit then Some(p.value.(candidateExecStatus := es[0].status)) else p, k, es[1..])
  }

  lemma {:induction false} CandidatesAt(x: Indexed<StoredOperation>, es: seq<ExecutedOpChange>, k: Bytes)
    requires Keyed(x.rows, OpKeyOf)
    ensures RowAt(PutExecStatuses(x, es, false), k) == CandidateRow(RowAt(x, k), k, es)
    decreases |es|
  {
    hide OpEntries;
    if es != [] { CandidatesAt(PutExecStatus(x, es[0], false), es[1..], k); }
  }

  /** The last status for the operation wins, whatever was there before. */
  lemma {:induction false} LastCandidateWins(p: Option<StoredOperation>, q: Option<StoredOperation>, k: Bytes,
                                             es: seq<ExecutedOpChange>)
    requires p.Some? <==> q.Some?
    requires p.Some? ==> q.value == p.value.(candidateExecStatus := q.value.candidateExecStatus)
    ensures CandidateRow(p, k, es) == p || CandidateRow(p, k, es) == CandidateRow(q, k, es)
    decreases |es|
  {
    if es != [] {
      var hit := es[0].operationId == Parsed(k) && es[0].status.Some? && p.Some?;
      if hit {
      } else {
        LastCandidateWins(p, q, k, es[1..]);
      }
    }
  }

  lemma {:induction false} CandidateRowShape(p: Option<StoredOperation>, k: Bytes, es: seq<ExecutedOpChange>)
    ensures var q := CandidateRow(p, k, es);
      (p.Some? <==> q.Some?) && (p.Some? ==> q.value == p.value.(candidateExecStatus := q.value.candidateExecStatus))
    decreases |es|
  {
    if es != [] {
      var hit := es[0].operationId == Parsed(k) && es[0].status.Some? && p.Some?;
      CandidateRowShape(if hit then Some(p.value.(candidateExecStatus := es[0].status)) else p, k, es[1..]);
    }
  }

  lemma CandidateRowTwice(p: Option<StoredOperation>, k: Bytes, es: seq<ExecutedOpChange>)
    ensures CandidateRow(CandidateRow(p, k, es), k, es) == CandidateRow(p, k, es)
  {
    var q := CandidateRow(p, k, es);
    CandidateRowShape(p, k, es);
    LastCandidateWins(q, p, k, es);
  }

  /** Some status of `es` differs from the one the operation has by then: the row is written. */
  predicate Moves(p: Option<StoredOperation>, k: Bytes, es: seq<ExecutedOpChange>)
    decreases |es|
  {
    if es == [] then false
    else
      var hit := es[0].operationId == Parsed(k) && es[0].status.Some? && p.Some?;
      (hit && es[0].status != p.value.candidateExecStatus)
      || Moves(if hit then Some(p.value.(candidateExecStatus := es[0].status)) else p, k, es[1..])
  }

  /** A row that is not written is not changed, and would not be written again. */
  lemma {:induction false} UnmovedStays(p: Option<StoredOperation>, k: Bytes, es: seq<ExecutedOpChange>)
    requires !Moves(p, k, es)
    ensures CandidateRow(p, k, es) == p
    decreases |es|
  {
    if es != [] {
      var hit := es[0].operationId == Parsed(k) && es[0].status.Some? && p.Some?;
      if hit { assert p.value.(candidateExecStatus := es[0].status) == p.value; }
      UnmovedStays(p, k, es[1..]);
    }
  }

  /** Candidate statuses add the index rows of the operations they write, and no others. */
  lemma {:induction false} CandidatesIdx(x: Indexed<StoredOperation>, es: seq<ExecutedOpChange>)
    requires Keyed(x.rows, OpKeyOf)
    ensures forall e :: e in PutExecStatuses(x, es, false).idx <==>
      e in x.idx || exists k :: k in x.rows && Moves(RowAt(x, k), k, es) && e in OpEntries(x.rows[k])
    decreases |es|
  {
    if es != [] {
      var x1 := PutExecStatus(x, es[0], false);
      CandidatesIdx(x1, es[1..]);
      OneCandidate(x, es[0]);
      hide OpEntries, PutExecStatus;
      assert forall k :: k in x.rows ==>
        (Moves(RowAt(x, k), k, es) <==> WrittenBy(x, es[0], k) || Moves(RowAt(x1, k), k, es[1..]));
    }
  }

  predicate WrittenBy(x: Indexed<StoredOperation>, c: ExecutedOpChange, k: Bytes) {
    k in x.rows && c.operationId == Parsed(k) && c.status.Some? && c.status != x.rows[k].candidateExecStatus
  }

  lemma OneCandidate(x: Indexed<StoredOperation>, c: ExecutedOpChange)
    requires Keyed(x.rows, OpKeyOf)
    ensures var y := PutExecStatus(x, c, false);
      && y.rows.Keys == x.rows.Keys && Keyed(y.rows, OpKeyOf)
      && (forall k :: k in x.rows ==> OpEntries(y.rows[k]) == OpEntries(x.rows[k]))
      && (forall k :: k in x.rows ==> RowAt(y, k) == CandidateRow(RowAt(x, k), k, [c]))
      && forall e :: e in y.idx <==> e in x.idx || exists k :: WrittenBy(x, c, k) && e in OpEntries(x.rows[k])
  {
    hide AddrSlotIdKey;
    assert [c][1..] == [];
    forall p, k ensures CandidateRow(p, k, [c]) ==
      if c.operationId == Parsed(k) && c.status.Some? && p.Some?
      then Some(p.value.(candidateExecStatus := c.status))
      else p
    {}
  }

  lemma CandidatesTwice(x: Indexed<StoredOperation>, es: seq<ExecutedOpChange>)
    requires Keyed(x.rows, OpKeyOf)
    ensures var y := PutExecStatuses(x, es, false); PutExecStatuses(y, es, false) == y
  {
    hide PutExecStatuses, CandidateRow, OpEntries, Moves;
    var y := PutExecStatuses(x, es, false);
    var z := PutExecStatuses(y, es, false);
    CandidatesKeepEntries(x, es);
    forall k ensures RowAt(y, k) == RowAt(z, k) {
      CandidatesAt(x, es, k);
      CandidatesAt(y, es, k);
      CandidateRowTwice(RowAt(x, k), k, es);
    }
    SameRows(y, z);
    CandidatesIdx(x, es);
    CandidatesIdx(y, es);
    forall e | e in z.idx ensures e in y.idx {
      if e !in y.idx {
        var k :| k in y.rows && Moves(RowAt(y, k), k, es) && e in OpEntries(y.rows[k]);
        CandidatesAt(x, es, k);
        if !Moves(RowAt(x, k), k, es) { UnmovedStays(RowAt(x, k), k, es); }
      }
    }
    assert y.idx == z.idx;
  }

  lemma {:induction false} CandidatesKeepEntries(x: Indexed<StoredOperation>, es: seq<ExecutedOpChange>)
    requires Keyed(x.rows, OpKeyOf)
    ensures var y := PutExecStatuses(x, es, false);
      && y.rows.Keys == x.rows.Keys && Keyed(y.rows, OpKeyOf)
      && forall k :: k in x.rows ==> OpEntries(y.rows[k]) == OpEntries(x.rows[k])
    decreases |es|
  {
    hide OpEntries, PutExecStatus;
    if es != [] {
      OneCandidate(x, es[0]);
      CandidatesKeepEntries(PutExecStatus(x, es[0], false), es[1..]);
    }
  }

  lemma ExecTwice(t: Tables, out: SlotExecutionOutput, now: int, now': int)
    requires RowsInPlace(t)
    ensures var t1 := IngestSpec.HandleExec(t, out, now).tables; IngestSpec.HandleExec(t1, out, now').tables == t1
  {
    hide Keyed, ReplaceScEvents, PutExecStatuses, PutAsyncChanges, ApplyFinality, SlotKey, SlotAt, PutSlot, ParentStub;
    if out.output.Some? && out.output.value.slot.Some? && !out.status.OtherOutput? {
      var e := out.output.value;
      var slot := SlotFromPb(e.slot.value);
      SlotOrFreshSlot(t, slot);
      var s := SlotOrFresh(t, slot);
      var row := WithExecuted(WithOutput(s, e, out.status.FinalOutput?), ExecutedIds(ExecutedOps(e)));
      PutSlotAt(t.slots, row, slot);
      ParentStubAt(PutSlot(t.slots, row), slot, slot);
      PutSlotAt(t.slots, Settled(s, e), slot);
      if s.status != SlotStatus.Final && out.status.CandidateOutput? {
        EventsTwice(t.scEvents, e.events, slot, SlotStatus.Candidate);
        CandidatesTwice(t.ops, ExecutedOps(e));
        assert PutSlot(PutSlot(t.slots, row), row) == PutSlot(t.slots, row) by { PutSlotTwice(t.slots, row); }
      }
    }
  }

  lemma PutSlotTwice(slots: map<Bytes, SlotState>, row: SlotState)
    ensures PutSlot(PutSlot(slots, row), row) == PutSlot(slots, row)
  {}

  // ---- Transfers ----------------------------------------------------------

  /** A transfer that already left its mark on the async row. */
  predicate AsyncAbsorbed(p: Option<StoredAsyncMsg>, k: Bytes, r: StoredTransfer, slot: Slot) {
    r.asyncMsgId == Some(k) && AsyncOutcome(r.origin).Some? ==>
      && p.Some? && Classified(p.value.state) && p.value.lastSlot == Some(slot)
      && (p.value.sender.None? ==> OkOf(r.from).None?)
      && (p.value.destination.None? ==> OkOf(r.to).None?)
      && (p.value.coins == 0 && r.value.Coins? ==> r.value.nmas == 0)
  }

  lemma AbsorbedIsIdle(p: Option<StoredAsyncMsg>, k: Bytes, r: StoredTransfer, slot: Slot, now: int)
    requires AsyncAbsorbed(p, k, r, slot)
    ensures ReconcileRow(p, k, r, slot, now) == p
  {}

  lemma StepAbsorbs(p: Option<StoredAsyncMsg>, k: Bytes, r: StoredTransfer, q: StoredTransfer, slot: Slot, now: int)
    ensures AsyncAbsorbed(ReconcileRow(p, k, r, slot, now), k, r, slot)
    ensures AsyncAbsorbed(p, k, q, slot) ==> AsyncAbsorbed(ReconcileRow(p, k, r, slot, now), k, q, slot)
  {}

  lemma {:induction false} StaysAbsorbed(p: Option<StoredAsyncMsg>, k: Bytes, rs: seq<StoredTransfer>,
                                         q: StoredTransfer, slot: Slot, now: int)
    requires AsyncAbsorbed(p, k, q, slot)
    ensures AsyncAbsorbed(ReconcileRows(p, k, rs, slot, now), k, q, slot)
    decreases |rs|
  {
    hide AsyncAbsorbed, ReconcileRow;
    if rs != [] {
      StepAbsorbs(p, k, rs[0], q, slot, now);
      StaysAbsorbed(ReconcileRow(p, k, rs[0], slot, now), k, rs[1..], q, slot, now);
    }
  }

  lemma {:induction false} AllAbsorbed(p: Option<StoredAsyncMsg>, k: Bytes, rs: seq<StoredTransfer>, slot: Slot,
                                       now: int)
    ensures forall r :: r in rs ==> AsyncAbsorbed(ReconcileRows(p, k, rs, slot, now), k, r, slot)
    decreases |rs|
  {
    hide AsyncAbsorbed, ReconcileRow;
    if rs != [] {
      var p1 := ReconcileRow(p, k, rs[0], slot, now);
      StepAbsorbs(p, k, rs[0], rs[0], slot, now);
      StaysAbsorbed(p1, k, rs[1..], rs[0], slot, now);
      AllAbsorbed(p1, k, rs[1..], slot, now);
    }
  }

  lemma {:induction false} IdleOnAbsorbed(p: Option<StoredAsyncMsg>, k: Bytes, rs: seq<StoredTransfer>, slot: Slot,
                                          now: int)
    requires forall r :: r in rs ==> AsyncAbsorbed(p, k, r, slot)
    ensures ReconcileRows(p, k, rs, slot, now) == p
    decreases |rs|
  {
    hide AsyncAbsorbed, ReconcileRow;
    if rs != [] {
      assert rs[0] in rs;
      AbsorbedIsIdle(p, k, rs[0], slot, now);
      IdleOnAbsorbed(p, k, rs[1..], slot, now);
    }
  }

  /** Index rows of different messages are different. */
  lemma AsyncApart(m: StoredAsyncMsg, m': StoredAsyncMsg)
    requires m.id != m'.id
    ensures AsyncEntries(m) !! AsyncEntries(m')
  {
    hide AsyncEntries, KeyIn;
    AsyncLeads(m);
    AsyncLeads(m');
  }

  /** A reconciled transfer leaves its message with all its index rows, and every other message with those it had. */
  lemma AsyncListed(x: Indexed<StoredAsyncMsg>, r: StoredTransfer, slot: Slot, now: int, k: Bytes)
    requires Keyed(x.rows, AsyncKeyOf)
    ensures var y := ReconcileAsyncRow(x, r, slot, now);
      && Keyed(y.rows, AsyncKeyOf)
      && RowAt(y, k) == ReconcileRow(RowAt(x, k), k, r, slot, now) && (k in x.rows ==> k in y.rows)
      && (r.asyncMsgId == Some(k) && AsyncOutcome(r.origin).Some? ==> Listed(y, AsyncEntries, k))
      && (k in x.rows && Listed(x, AsyncEntries, k) ==> Listed(y, AsyncEntries, k))
  {
    hide AsyncEntries;
    if r.asyncMsgId.Some? && AsyncReconciled(RowAt(x, r.asyncMsgId.value), r, slot, now).Some? {
      var id := r.asyncMsgId.value;
      var p := RowAt(x, id);
      var m := AsyncReconciled(p, r, slot, now).value;
      AsyncSwap(p, AsyncRow(p, m));
      if id != k && k in x.rows {
        if p.Some? { AsyncApart(p.value, x.rows[k]); }
        hide StaleAsync;
      }
    }
  }

  lemma {:induction false} AsyncPassListed(x: Indexed<StoredAsyncMsg>, rs: seq<StoredTransfer>, slot: Slot, now: int,
                                           k: Bytes)
    requires Keyed(x.rows, AsyncKeyOf)
    ensures var y := ReconcileAsync(x, rs, slot, now);
      && Keyed(y.rows, AsyncKeyOf)
      && RowAt(y, k) == ReconcileRows(RowAt(x, k), k, rs, slot, now)
      && (k in x.rows && Listed(x, AsyncEntries, k) ==> Listed(y, AsyncEntries, k))
      && ((exists r :: r in rs && r.asyncMsgId == Some(k) && AsyncOutcome(r.origin).Some?) ==>
          Listed(y, AsyncEntries, k))
    decreases |rs|
  {
    hide AsyncEntries, ReconcileAsyncRow, ReconcileRow, Listed;
    if rs != [] {
      AsyncListed(x, rs[0], slot, now, k);
      AsyncPassListed(ReconcileAsyncRow(x, rs[0], slot, now), rs[1..], slot, now, k);
      assert rs == [rs[0]] + rs[1..];
      if rs[0].asyncMsgId == Some(k) && AsyncOutcome(rs[0].origin).Some? {
        RelevantWrites(RowAt(x, k), k, rs[0], slot, now);
      }
    }
  }

  lemma RelevantWrites(p: Option<StoredAsyncMsg>, k: Bytes, r: StoredTransfer, slot: Slot, now: int)
    requires r.asyncMsgId == Some(k) && AsyncOutcome(r.origin).Some?
    ensures ReconcileRow(p, k, r, slot, now).Some?
  {}

  /** A pass whose transfers all left their marks, index rows included, changes nothing. */
  lemma {:induction false} AsyncPassIdle(x: Indexed<StoredAsyncMsg>, rs: seq<StoredTransfer>, slot: Slot, now: int)
    requires Keyed(x.rows, AsyncKeyOf)
    requires forall r, k :: r in rs && r.asyncMsgId == Some(k) ==> AsyncAbsorbed(RowAt(x, k), k, r, slot)
    requires forall r, k :: r in rs && r.asyncMsgId == Some(k) && AsyncOutcome(r.origin).Some? ==>
              Listed(x, AsyncEntries, k)
    ensures ReconcileAsync(x, rs, slot, now) == x
    decreases |rs|
  {
    hide AsyncEntries, AsyncAbsorbed;
    if rs != [] {
      assert rs[0] in rs;
      AsyncRowIdle(x, rs[0], slot, now);
      AsyncPassIdle(x, rs[1..], slot, now);
    }
  }

  lemma AsyncRowIdle(x: Indexed<StoredAsyncMsg>, r: StoredTransfer, slot: Slot, now: int)
    requires Keyed(x.rows, AsyncKeyOf)
    requires forall k :: r.asyncMsgId == Some(k) ==> AsyncAbsorbed(RowAt(x, k), k, r, slot)
    requires forall k :: r.asyncMsgId == Some(k) && AsyncOutcome(r.origin).Some? ==> Listed(x, AsyncEntries, k)
    ensures ReconcileAsyncRow(x, r, slot, now) == x
  {
    hide AsyncEntries;
    if r.asyncMsgId.Some? && AsyncOutcome(r.origin).Some? {
      var k := r.asyncMsgId.value;
      AbsorbedIsIdle(RowAt(x, k), k, r, slot, now);
      PutSame(x, AsyncEntries, k);
      var m := AsyncReconciled(RowAt(x, k), r, slot, now).value;
      assert AsyncRow(RowAt(x, k), m) == x.rows[k] && m.id == k;
      assert StaleAsync(RowAt(x, k), x.rows[k]) == {};
    }
  }

  lemma ReconcileAsyncTwice(x: Indexed<StoredAsyncMsg>, rs: seq<StoredTransfer>, slot: Slot, now: int, now': int)
    requires Keyed(x.rows, AsyncKeyOf)
    ensures var y := ReconcileAsync(x, rs, slot, now); ReconcileAsync(y, rs, slot, now') == y
  {
    hide ReconcileAsync, ReconcileRows, AsyncAbsorbed, AsyncEntries, Listed;
    var y := ReconcileAsync(x, rs, slot, now);
    AsyncPassListed(x, rs, slot, now, []);
    forall r, k | r in rs && r.asyncMsgId == Some(k)
      ensures AsyncAbsorbed(RowAt(y, k), k, r, slot)
      ensures AsyncOutcome(r.origin).Some? ==> Listed(y, AsyncEntries, k)
    {
      AsyncPassListed(x, rs, slot, now, k);
      AllAbsorbed(RowAt(x, k), k, rs, slot, now);
    }
    AsyncPassIdle(y, rs, slot, now');
  }

  /** A transfer that already left its mark on the deferred call's row. */
  predicate CallAbsorbed(p: Option<StoredDeferredCall>, k: Bytes, r: StoredTransfer, slot: Slot) {
    DeferredRuns.Relevant(r, k) ==>
      && p.Some? && p.value.lastSlot == Some(slot)
      && (DeferredRuns.IsTerminal(r) ==> Terminal(p.value.state))
      && (DeferredRuns.Registers(r) ==> p.value.registeredSlot.Some? && (p.value.sender.None? ==> OkOf(r.from).None?))
      && (DeferredRuns.Pays(r) ==> p.value.targetSlot.Some? && (p.value.targetAddress.None? ==> OkOf(r.to).None?))
      && DeferredRuns.CoinsOf(r) <= p.value.coins
  }

  lemma CallAbsorbedIsIdle(p: Option<StoredDeferredCall>, k: Bytes, r: StoredTransfer, slot: Slot, now: int)
    requires CallAbsorbed(p, k, r, slot)
    ensures DeferredRuns.DeferredStep(p, k, r, slot, now) == p
  {}

  lemma CallStepAbsorbs(p: Option<StoredDeferredCall>, k: Bytes, r: StoredTransfer, q: StoredTransfer, slot: Slot,
                        now: int)
    ensures CallAbsorbed(DeferredRuns.DeferredStep(p, k, r, slot, now), k, r, slot)
    ensures CallAbsorbed(p, k, q, slot) ==> CallAbsorbed(DeferredRuns.DeferredStep(p, k, r, slot, now), k, q, slot)
  {}

  lemma {:induction false} CallStaysAbsorbed(p: Option<StoredDeferredCall>, k: Bytes, rs: seq<StoredTransfer>,
                                             q: StoredTransfer, slot: Slot, now: int)
    requires CallAbsorbed(p, k, q, slot)
    ensures CallAbsorbed(DeferredRuns.DeferredSteps(p, k, rs, slot, now), k, q, slot)
    decreases |rs|
  {
    hide CallAbsorbed, DeferredRuns.DeferredStep;
    if rs != [] {
      CallStepAbsorbs(p, k, rs[0], q, slot, now);
      CallStaysAbsorbed(DeferredRuns.DeferredStep(p, k, rs[0], slot, now), k, rs[1..], q, slot, now);
    }
  }

  lemma {:induction false} AllCallsAbsorbed(p: Option<StoredDeferredCall>, k: Bytes, rs: seq<StoredTransfer>,
                                            slot: Slot, now: int)
    ensures forall r :: r in rs ==> CallAbsorbed(DeferredRuns.DeferredSteps(p, k, rs, slot, now), k, r, slot)
    decreases |rs|
  {
    hide CallAbsorbed, DeferredRuns.DeferredStep;
    if rs != [] {
      var p1 := DeferredRuns.DeferredStep(p, k, rs[0], slot, now);
      CallStepAbsorbs(p, k, rs[0], rs[0], slot, now);
      CallStaysAbsorbed(p1, k, rs[1..], rs[0], slot, now);
      AllCallsAbsorbed(p1, k, rs[1..], slot, now);
    }
  }

  lemma {:induction false} CallsIdleOnAbsorbed(p: Option<StoredDeferredCall>, k: Bytes, rs: seq<StoredTransfer>,
                                               slot: Slot, now: int)
    requires forall r :: r in rs ==> CallAbsorbed(p, k, r, slot)
    ensures DeferredRuns.DeferredSteps(p, k, rs, slot, now) == p
    decreases |rs|
  {
    hide CallAbsorbed, DeferredRuns.DeferredStep;
    if rs != [] {
      assert rs[0] in rs;
      CallAbsorbedIsIdle(p, k, rs[0], slot, now);
      CallsIdleOnAbsorbed(p, k, rs[1..], slot, now);
    }
  }

  lemma DeferredApart(c: StoredDeferredCall, c': StoredDeferredCall)
    requires c.id != c'.id
    ensures DeferredEntries(c) !! DeferredEntries(c')
  {
    hide DeferredEntries, KeyIn;
    DeferredLeads(c);
    DeferredLeads(c');
  }

  lemma DeferredListed(x: Indexed<StoredDeferredCall>, r: StoredTransfer, slot: Slot, now: int, k: Bytes)
    requires Keyed(x.rows, DeferredKeyOf)
    ensures var y := ReconcileDeferredRow(x, r, slot, now);
      && Keyed(y.rows, DeferredKeyOf)
      && RowAt(y, k) == DeferredRuns.DeferredStep(RowAt(x, k), k, r, slot, now) && (k in x.rows ==> k in y.rows)
      && (DeferredRuns.Relevant(r, k) ==> k in y.rows && Listed(y, DeferredEntries, k))
      && (k in x.rows && Listed(x, DeferredEntries, k) ==> Listed(y, DeferredEntries, k))
  {
    hide DeferredEntries;
    if r.deferredCallId.Some? && DeferredReconciled(RowAt(x, r.deferredCallId.value), r, slot, now).Some? {
      var id := r.deferredCallId.value;
      var p := RowAt(x, id);
      var c := DeferredReconciled(p, r, slot, now).value;
      DeferredSwap(p, DeferredRow(p, c));
      if id != k && k in x.rows {
        if p.Some? { DeferredApart(p.value, x.rows[k]); }
        hide StaleDeferred;
      }
    }
  }

  lemma {:induction false} DeferredPassListed(x: Indexed<StoredDeferredCall>, rs: seq<StoredTransfer>, slot: Slot,
                                              now: int, k: Bytes)
    requires Keyed(x.rows, DeferredKeyOf)
    ensures var y := ReconcileDeferred(x, rs, slot, now);
      && Keyed(y.rows, DeferredKeyOf)
      && RowAt(y, k) == DeferredRuns.DeferredSteps(RowAt(x, k), k, rs, slot, now)
      && (k in x.rows && Listed(x, DeferredEntries, k) ==> Listed(y, DeferredEntries, k))
      && ((exists r :: r in rs && DeferredRuns.Relevant(r, k)) ==> Listed(y, DeferredEntries, k))
    decreases |rs|
  {
    hide DeferredEntries, ReconcileDeferredRow, DeferredRuns.DeferredStep, DeferredRuns.Relevant, Listed;
    if rs != [] {
      DeferredListed(x, rs[0], slot, now, k);
      DeferredPassListed(ReconcileDeferredRow(x, rs[0], slot, now), rs[1..], slot, now, k);
      assert rs == [rs[0]] + rs[1..];
    }
  }

  lemma {:induction false} DeferredPassIdle(x: Indexed<StoredDeferredCall>, rs: seq<StoredTransfer>, slot: Slot,
                                            now: int)
    requires Keyed(x.rows, DeferredKeyOf)
    requires forall r, k :: r in rs && r.deferredCallId == Some(k) ==> CallAbsorbed(RowAt(x, k), k, r, slot)
    requires forall r, k :: r in rs && r.deferredCallId == Some(k) && DeferredRuns.Relevant(r, k) ==>
              Listed(x, DeferredEntries, k)
    ensures ReconcileDeferred(x, rs, slot, now) == x
    decreases |rs|
  {
    hide DeferredEntries, CallAbsorbed, DeferredRuns.Relevant;
    if rs != [] {
      assert rs[0] in rs;
      DeferredRowIdle(x, rs[0], slot, now);
      DeferredPassIdle(x, rs[1..], slot, now);
    }
  }

  lemma DeferredRowIdle(x: Indexed<StoredDeferredCall>, r: StoredTransfer, slot: Slot, now: int)
    requires Keyed(x.rows, DeferredKeyOf)
    requires forall k :: r.deferredCallId == Some(k) ==> CallAbsorbed(RowAt(x, k), k, r, slot)
    requires forall k :: r.deferredCallId == Some(k) && DeferredRuns.Relevant(r, k) ==> Listed(x, DeferredEntries, k)
    ensures ReconcileDeferredRow(x, r, slot, now) == x
  {
    hide DeferredEntries;
    if r.deferredCallId.Some? && DeferredRuns.Relevant(r, r.deferredCallId.value) {
      var k := r.deferredCallId.value;
      CallAbsorbedIsIdle(RowAt(x, k), k, r, slot, now);
      PutSame(x, DeferredEntries, k);
      var c := DeferredReconciled(RowAt(x, k), r, slot, now).value;
      assert DeferredRow(RowAt(x, k), c) == x.rows[k] && c.id == k;
      assert StaleDeferred(RowAt(x, k), x.rows[k]) == {};
    }
  }

  lemma ReconcileDeferredTwice(x: Indexed<StoredDeferredCall>, rs: seq<StoredTransfer>, slot: Slot, now: int, now': int)
    requires Keyed(x.rows, DeferredKeyOf)
    ensures var y := ReconcileDeferred(x, rs, slot, now); ReconcileDeferred(y, rs, slot, now') == y
  {
    hide ReconcileDeferred, DeferredRuns.DeferredSteps, CallAbsorbed, DeferredEntries, Listed, DeferredRuns.Relevant;
    var y := ReconcileDeferred(x, rs, slot, now);
    DeferredPassListed(x, rs, slot, now, []);
    forall r, k | r in rs && r.deferredCallId == Some(k)
      ensures CallAbsorbed(RowAt(y, k), k, r, slot)
      ensures DeferredRuns.Relevant(r, k) ==> Listed(y, DeferredEntries, k)
    {
      DeferredPassListed(x, rs, slot, now, k);
      AllCallsAbsorbed(RowAt(x, k), k, rs, slot, now);
    }
    DeferredPassIdle(y, rs, slot, now');
  }

  lemma {:induction false} PutTransfersIdx(x: Indexed<StoredTransfer>, rows: seq<StoredTransfer>)
    ensures forall e :: e in PutTransfers(x, rows).idx <==>
              e in x.idx || exists r :: r in rows && e in TransferEntries(r)
    decreases |rows|
  {
    hide TransferEntries;
    if rows != [] {
      PutTransfersIdx(PutTransfer(x, rows[0]), rows[1..]);
      assert rows == [rows[0]] + rows[1..];
    }
  }

  lemma TransfersReplacedIdx(x: Indexed<StoredTransfer>, rows: seq<StoredTransfer>, slot: Slot)
    requires Dense(rows, slot, 0)
    ensures var y := PutTransfers(ClearTransfers(x, slot), rows);
      y.idx == x.idx - Under(x, SlotKey(slot), TransferEntries) + Under(y, SlotKey(slot), TransferEntries)
  {
    hide SlotKey, SlotIndexedKey, TransferEntries, PutTransfers, Dense;
    var y := PutTransfers(ClearTransfers(x, slot), rows);
    Transfers.ReplaceEffect(x, rows, slot);
    PutTransfersIdx(ClearTransfers(x, slot), rows);
    forall e ensures e in Under(y, SlotKey(slot), TransferEntries) <==>
        exists r :: r in rows && e in TransferEntries(r)
    {
      HeldTransferEntries(y, rows, slot, e);
    }
  }

  lemma HeldTransferEntries(y: Indexed<StoredTransfer>, rows: seq<StoredTransfer>, slot: Slot, e: Entry)
    requires Transfers.Holds(y, slot, rows)
    ensures e in Under(y, SlotKey(slot), TransferEntries) <==> exists r :: r in rows && e in TransferEntries(r)
  {
    hide SlotKey, SlotIndexedKey, TransferEntries;
    if e in Under(y, SlotKey(slot), TransferEntries) {
      var k :| k in y.rows && SlotKey(slot) <= k && e in TransferEntries(y.rows[k]);
      var j: U32 :| j < |rows| && k == SlotIndexedKey(slot, j);
      assert Transfers.HoldsAt(y, slot, rows, j);
      assert rows[j] in rows;
    }
    if r :| r in rows && e in TransferEntries(r) {
      var j :| 0 <= j < |rows| && rows[j] == r;
      assert Transfers.HoldsAt(y, slot, rows, j);
      var k := SlotIndexedKey(slot, j);
      assert SlotKey(slot) <= k;
    }
  }

  lemma RowsTwice(x: Indexed<StoredTransfer>, rows: seq<StoredTransfer>, slot: Slot)
    requires Dense(rows, slot, 0)
    ensures var y := PutTransfers(ClearTransfers(x, slot), rows); PutTransfers(ClearTransfers(y, slot), rows) == y
  {
    hide SlotKey, SlotIndexedKey, PutTransfers, ClearTransfers, Under, Dense;
    var y := PutTransfers(ClearTransfers(x, slot), rows);
    var z := PutTransfers(ClearTransfers(y, slot), rows);
    Transfers.ReplaceEffect(x, rows, slot);
    Transfers.ReplaceEffect(y, rows, slot);
    forall k ensures RowAt(y, k) == RowAt(z, k) {
      if SlotKey(slot) <= k && (k in y.rows || k in z.rows) {
        var i: U32 :| i < |rows| && k == SlotIndexedKey(slot, i);
        assert Transfers.HoldsAt(y, slot, rows, i) && Transfers.HoldsAt(z, slot, rows, i);
      }
    }
    SameRows(y, z);
    TransfersReplacedIdx(x, rows, slot);
    TransfersReplacedIdx(y, rows, slot);
    ReplacedAgain(x, y, z, SlotKey(slot), TransferEntries);
  }

  lemma TransfersTwice(t: Tables, resp: TransfersInfo, now: int, now': int)
    requires RowsInPlace(t)
    ensures var t1 := IngestSpec.HandleTransfers(t, resp, now).tables;
      IngestSpec.HandleTransfers(t1, resp, now').tables == t1
  {
    hide Keyed, TransferRows, PutTransfers, ClearTransfers, ReconcileAsync, ReconcileDeferred, SlotKey, SlotAt, PutSlot;
    if resp.slot.Some? {
      var slot := SlotFromPb(resp.slot.value);
      var rows := TransferRows(resp, slot);
      TransferRowsDense(resp, slot);
      RowsTwice(t.transfers, rows, slot);
      ReconcileAsyncTwice(t.asyncMsgs, rows, slot, now, now');
      ReconcileDeferredTwice(t.deferredCalls, rows, slot, now, now');
      SlotOrFreshSlot(t, slot);
      var row := WithTransfers(SlotOrFresh(t, slot));
      PutSlotAt(t.slots, row, slot);
      PutSlotTwice(t.slots, row);
    }
  }

  // ---- every event --------------------------------------------------------

  /** Re-applying the same event, whenever and whatever the indexes hold, produces exactly the same store. */
  lemma StepTwice(t: Tables, ev: Event, now: int, now': int)
    requires RowsInPlace(t)
    ensures Step(Step(t, Arrival(ev, now)), Arrival(ev, now')) == Step(t, Arrival(ev, now))
  {
    hide RowsInPlace, IngestSpec.HandleBlock, IngestSpec.HandleExec, IngestSpec.HandleTransfers;
    match ev
    case Block(fb) => BlockTwice(t, fb);
    case Exec(out) => ExecTwice(t, out, now, now');
    case Transfers(resp) => TransfersTwice(t, resp, now, now');
    case Tick =>
  }
}
