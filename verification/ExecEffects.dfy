/**
 What an execution output does to the store: which outputs settle or propose a slot,
 and what is written of slots, operations and pools when they do.
 */
module ExecEffects {
  import opened ByteStrings
  import opened Ids
  import opened Keys
  import opened Model
  import opened Store
  import opened IngestSpec
  import opened SlotRuns
  import opened Selections

  // ---- which outputs take effect ------------------------------------------

  /** The changes an output carries; none is the same as empty ones. */
  function Changes(e: ExecutionOutput): StateChanges {
    if e.stateChanges.Some? then e.stateChanges.value else StateChanges(None, [], [])
  }

  /** A readable output for `slot`. */
  predicate IsFor(out: SlotExecutionOutput, slot: Slot) {
    && out.output.Some? && out.output.value.slot.Some?
    && slot.period == out.output.value.slot.value.period
    && slot.thread == out.output.value.slot.value.thread % 256
  }

  predicate IsOpen(row: Option<SlotState>) {
    row.None? || row.value.status != SlotStatus.Final
  }

  /** The output and the FINAL row of its slot differ in hash, in miss or in winner. */
  predicate Contradicts(row: SlotState, e: ExecutionOutput) {
    || (row.trailHash.Some? && Changes(e).trailHash.Some? && Changes(e).trailHash.value != row.trailHash.value)
    || (row.isMiss <==> e.blockId.Some?)
    || (!row.isMiss && OkOf(e.blockId) != row.finalBlockId)
  }

  /** A FINAL output settles a slot that is open, or whose verdict it confirms and whose output was not in. */
  predicate Settles(t: Tables, out: SlotExecutionOutput, slot: Slot) {
    && out.status.FinalOutput? && IsFor(out, slot)
    && var row := SlotAt(t.slots, slot);
       IsOpen(row) || (!row.value.completeness.execOutputFinal && !Contradicts(row.value, out.output.value))
  }

  /** A candidate output proposes the outcome of an open slot. */
  predicate Proposes(t: Tables, out: SlotExecutionOutput, slot: Slot) {
    out.status.CandidateOutput? && IsFor(out, slot) && IsOpen(SlotAt(t.slots, slot))
  }

  /** The pool changes that an output brings: those it carries if it settles its slot, else none. */
  ghost function PoolOf(t: Tables, out: SlotExecutionOutput): seq<AsyncPoolEntry> {
    if exists slot :: Settles(t, out, slot) then Changes(out.output.value).asyncPool else []
  }

  lemma PoolIs(t: Tables, out: SlotExecutionOutput)
    ensures PoolOf(t, out) ==
      if out.output.Some? && out.output.value.slot.Some? && Settles(t, out, SlotFromPb(out.output.value.slot.value))
      then Changes(out.output.value).asyncPool else []
  {
    hide SlotAt, Contradicts;
  }

  lemma OwnSlotIs(out: SlotExecutionOutput, slot: Slot)
    ensures IsFor(out, slot) && !out.status.OtherOutput? <==> OwnSlot(Exec(out)) == Some(slot)
  {}

  lemma ContradictsIff(row: SlotState, e: ExecutionOutput)
    ensures Contradicts(row, e) <==> !SameVerdict(row, e)
  {}

  /** An output that neither settles nor proposes its slot changes nothing at all. */
  lemma OtherOutputsIdle(t: Tables, out: SlotExecutionOutput, now: int)
    requires forall slot :: !Settles(t, out, slot) && !Proposes(t, out, slot)
    ensures HandleExec(t, out, now).tables == t
  {
    hide SlotKey, ApplyOutput, CompleteFinalExec, SameVerdict, Contradicts, SlotAt;
    if out.output.Some? && out.output.value.slot.Some? && !out.status.OtherOutput? {
      var slot := SlotFromPb(out.output.value.slot.value);
      assert IsFor(out, slot);
      if SlotAt(t.slots, slot).Some? { ContradictsIff(SlotAt(t.slots, slot).value, out.output.value); }
      assert !Settles(t, out, slot) && !Proposes(t, out, slot);
    }
  }

  // ---- what a taken output writes -----------------------------------------

  /** The tables after an output: the pools are only for FINAL ones. */
  lemma TakenOutput(t: Tables, out: SlotExecutionOutput, now: int, slot: Slot)
    requires SlotsKeyed(t.slots) && (Settles(t, out, slot) || Proposes(t, out, slot))
    ensures var u := HandleExec(t, out, now).tables;
      var e := out.output.value;
      && u.asyncMsgs == (if out.status.FinalOutput? then PutAsyncChanges(t.asyncMsgs, Changes(e).asyncPool, slot, now)
                         else t.asyncMsgs)
      && u.ops == PutExecStatuses(t.ops, Changes(e).executedOps, out.status.FinalOutput?)
      && u.scEvents == ReplaceScEvents(t.scEvents, e.events, slot,
                                       if out.status.FinalOutput? then SlotStatus.Final else SlotStatus.Candidate)
      && u.transfers == t.transfers && u.deferredCalls == t.deferredCalls && u.endorsements == t.endorsements
      && u.denunciations == t.denunciations && u.meta == t.meta
  {
    hide SlotKey, SlotAt, PutSlot, ParentStub, ReplaceScEvents, PutExecStatuses, PutAsyncChanges, ApplyFinality;
    hide SameVerdict, Contradicts, ExecutedIds;
    SlotOrFreshSlot(t, slot);
    OwnSlotIs(out, slot);
    if SlotAt(t.slots, slot).Some? { ContradictsIff(SlotAt(t.slots, slot).value, out.output.value); }
  }

  /** The marks of the latest final and the latest candidate slot follow the outputs that found their slot open. */
  lemma MarksMove(t: Tables, a: Arrival)
    ensures var u := Step(t, a);
      && (forall slot :: a.ev.Exec? && Proposes(t, a.ev.out, slot) ==> u.lastCandidateSlot == Some(slot))
      && (u.lastCandidateSlot != t.lastCandidateSlot ==>
            a.ev.Exec? && exists slot :: Proposes(t, a.ev.out, slot))
      && (forall slot :: a.ev.Exec? && Settles(t, a.ev.out, slot) && IsOpen(SlotAt(t.slots, slot)) ==>
            u.lastFinalSlot == Some(slot))
      && (u.lastFinalSlot != t.lastFinalSlot ==>
            a.ev.Exec? && exists slot :: Settles(t, a.ev.out, slot) && IsOpen(SlotAt(t.slots, slot)))
  {
    hide SlotKey, SlotAt, PutSlot, ParentStub, ReplaceScEvents, PutExecStatuses, PutAsyncChanges, ApplyFinality;
    hide SameVerdict, Contradicts, ExecutedIds, WithOutput, WithExecuted, TransferRows, PutTransfers, ReconcileAsync;
    hide ReconcileDeferred, PutEndorsements, PutDenunciations, PutOps, BlockRow, PutBlock;
    if a.ev.Exec? && a.ev.out.output.Some? && a.ev.out.output.value.slot.Some? {
      var slot := SlotFromPb(a.ev.out.output.value.slot.value);
      assert IsFor(a.ev.out, slot);
      if a.ev.out.status.CandidateOutput? && IsOpen(SlotAt(t.slots, slot)) { assert Proposes(t, a.ev.out, slot); }
      if a.ev.out.status.FinalOutput? && IsOpen(SlotAt(t.slots, slot)) { assert Settles(t, a.ev.out, slot); }
    }
  }

  // ---- completing a slot whose verdict was known --------------------------

  /** The same store with the slot still open. */
  function Reopened(t: Tables, slot: Slot, status: SlotStatus): Tables
    requires SlotAt(t.slots, slot).Some?
  {
    t.(slots := PutSlot(t.slots, SlotAt(t.slots, slot).value.(status := status)))
  }

  /**
   Completing a slot that was FINAL before its output came ends where the same output
   would have taken it had the slot been open: the same events, operations, messages and
   blocks and the same row for the slot. The mark of the last final slot stays, and so
   do the other slots.
   */
  lemma CompletingIsSettling(t: Tables, out: SlotExecutionOutput, now: int, slot: Slot, open: SlotStatus)
    requires SlotsKeyed(t.slots) && Settles(t, out, slot) && !IsOpen(SlotAt(t.slots, slot))
    requires open != SlotStatus.Final
    ensures var u := HandleExec(t, out, now).tables;
      var v := HandleExec(Reopened(t, slot, open), out, now).tables;
      && u.scEvents == v.scEvents && u.ops == v.ops && u.asyncMsgs == v.asyncMsgs && u.blocks == v.blocks
      && SlotAt(u.slots, slot).Some? && SlotAt(u.slots, slot) == SlotAt(v.slots, slot)
      && (forall s :: s != slot ==> SlotAt(u.slots, s) == SlotAt(t.slots, s))
      && u.lastFinalSlot == t.lastFinalSlot && v.lastFinalSlot == Some(slot)
  {
    hide SlotKey, SlotAt, PutSlot, ParentStub, ReplaceScEvents, PutExecStatuses, PutAsyncChanges, ApplyFinality;
    hide ExecutedIds, SlotsKeyed;
    var w := Reopened(t, slot, open);
    var row := SlotAt(t.slots, slot).value;
    assert row.slot == slot by { SlotOrFreshSlot(t, slot); }
    assert SlotsKeyed(w.slots) by { PutSlotKeyed(t.slots, row.(status := open), slot); }
    PutSlotAt(t.slots, row.(status := open), slot);
    assert SlotAt(w.slots, slot) == Some(row.(status := open));
    OwnSlotIs(out, slot);
    ContradictsIff(row, out.output.value);
    CompletedRow(row, out.output.value, open);
    ExecSlotAt(t, out, now, slot);
    ExecSlotAt(w, out, now, slot);
    forall s | s != slot ensures SlotAt(HandleExec(t, out, now).tables.slots, s) == SlotAt(t.slots, s) {
      ExecSlotAt(t, out, now, s);
    }
  }

  lemma CompletedRow(row: SlotState, e: ExecutionOutput, open: SlotStatus)
    requires row.status == SlotStatus.Final && SameVerdict(row, e)
    ensures var s := WithExecuted(WithOutput(row.(status := open), e, true), ExecutedIds(ExecutedOps(e)));
      && s == SlotRuns.Settled(row, e)
      && s.finalBlockId == row.finalBlockId && s.candidateBlockIds == row.candidateBlockIds
  {
    hide ExecutedIds, ExecutedOps;
  }

  // ---- the slot row -------------------------------------------------------

  /** `ids` are the readable operation ids of `es`, in order. */
  ghost predicate NamedBy(ids: seq<Id>, es: seq<ExecutedOpChange>) {
    var readable := Filter(es, (c: ExecutedOpChange) => c.operationId.Parsed?);
    |ids| == |readable| && forall i :: 0 <= i < |ids| ==> readable[i].operationId == Parsed(ids[i])
  }

  lemma {:induction false} ExecutedIdsAre(es: seq<ExecutedOpChange>)
    ensures NamedBy(ExecutedIds(es), es)
  {
    if es != [] { ExecutedIdsAre(es[1..]); }
  }

  /** The hash on record once an output came: its own, unless it has none or a FINAL row already had one. */
  predicate HashKept(before: Option<SlotState>, e: ExecutionOutput, after: Option<string>) {
    var prior := if before.Some? then before.value.trailHash else None;
    if Changes(e).trailHash.Some? && (IsOpen(before) || prior.None?) then after == Changes(e).trailHash
    else after == prior
  }

  /**
   The row of a slot once an output was taken: a FINAL one fixes miss and winner, a
   candidate one leaves them; the events are counted, the executed operations are
   noted the first time there are any, what blocks and transfers left stays.
   */
  ghost predicate RowTaken(before: Option<SlotState>, row: SlotState, out: SlotExecutionOutput, slot: Slot)
    requires out.output.Some?
  {
    var e := out.output.value;
    var prior := if before.Some? then before.value else FreshSlot(slot);
    && row.slot == slot
    && row.scEventCount == |e.events|
    && HashKept(before, e, row.trailHash)
    && (if prior.executedOpIds != [] then row.executedOpIds == prior.executedOpIds
        else NamedBy(row.executedOpIds, Changes(e).executedOps))
    && row.candidateBlockIds == prior.candidateBlockIds
    && row.completeness.blockBodyStored == prior.completeness.blockBodyStored
    && row.completeness.transfersStored == prior.completeness.transfersStored
    && (out.status.FinalOutput? ==>
          && row.status == SlotStatus.Final
          && (row.isMiss <==> e.blockId.None?)
          && (forall id :: e.blockId == Some(Parsed(id)) ==> row.finalBlockId == Some(id))
          && row.completeness.execOutputFinal
          && row.completeness.execOutputCandidate == prior.completeness.execOutputCandidate)
    && (out.status.CandidateOutput? ==>
          && row.status == SlotStatus.Candidate
          && row.isMiss == prior.isMiss && row.finalBlockId == prior.finalBlockId
          && row.completeness.execOutputFinal == prior.completeness.execOutputFinal
          && row.completeness.execOutputCandidate)
  }

  lemma OpenRowTaken(before: Option<SlotState>, out: SlotExecutionOutput, slot: Slot)
    requires out.output.Some? && !out.status.OtherOutput? && IsOpen(before)
    requires before.Some? ==> before.value.slot == slot
    ensures var e := out.output.value;
      var prior := if before.Some? then before.value else FreshSlot(slot);
      RowTaken(before, WithExecuted(WithOutput(prior, e, out.status.FinalOutput?), ExecutedIds(ExecutedOps(e))),
               out, slot)
  {
    ExecutedIdsAre(Changes(out.output.value).executedOps);
    hide ExecutedIds, NamedBy;
  }

  lemma CompletedRowTaken(row: SlotState, out: SlotExecutionOutput, slot: Slot)
    requires out.output.Some? && out.status.FinalOutput? && row.slot == slot
    requires row.status == SlotStatus.Final && !Contradicts(row, out.output.value)
    ensures RowTaken(Some(row), SlotRuns.Settled(row, out.output.value), out, slot)
  {
    ExecutedIdsAre(Changes(out.output.value).executedOps);
    hide ExecutedIds, NamedBy;
  }

  lemma TakenSlotRow(t: Tables, out: SlotExecutionOutput, now: int, slot: Slot)
    requires SlotsKeyed(t.slots) && (Settles(t, out, slot) || Proposes(t, out, slot))
    ensures var after := SlotAt(HandleExec(t, out, now).tables.slots, slot);
      after.Some? && RowTaken(SlotAt(t.slots, slot), after.value, out, slot)
  {
    hide SlotKey, SlotAt, HandleExec, RowTaken, Contradicts, SameVerdict, WithOutput, WithExecuted;
    hide SlotRuns.Settled;
    var before := SlotAt(t.slots, slot);
    SlotOrFreshSlot(t, slot);
    OwnSlotIs(out, slot);
    ExecSlotAt(t, out, now, slot);
    if IsOpen(before) {
      OpenRowTaken(before, out, slot);
    } else {
      ContradictsIff(before.value, out.output.value);
      CompletedRowTaken(before.value, out, slot);
    }
  }

  // ---- operation statuses -------------------------------------------------

  predicate Gives(c: ExecutedOpChange, k: Id) {
    c.operationId == Parsed(k) && c.status.Some?
  }

  /** What the first, or the last, change to give operation `k` a status gives. */
  function FirstStatus(es: seq<ExecutedOpChange>, k: Id): Option<ExecStatus> {
    if es == [] then None else if Gives(es[0], k) then es[0].status else FirstStatus(es[1..], k)
  }

  function LastStatus(es: seq<ExecutedOpChange>, k: Id): Option<ExecStatus> {
    if es == [] then None
    else
      var later := LastStatus(es[1..], k);
      if later.Some? then later else if Gives(es[0], k) then es[0].status else None
  }

  /** A final status is given once; a candidate status is the latest given. */
  function StatusesAfter(o: StoredOperation, es: seq<ExecutedOpChange>, isFinal: bool)
    : (Option<ExecStatus>, Option<ExecStatus>)
  {
    var first, last := FirstStatus(es, o.id), LastStatus(es, o.id);
    if isFinal then
      if o.finalExecStatus.None? && first.Some? then (first, first) else (o.candidateExecStatus, o.finalExecStatus)
    else (if last.Some? then last else o.candidateExecStatus, o.finalExecStatus)
  }

  lemma {:induction false} StatusesWritten(x: Indexed<StoredOperation>, es: seq<ExecutedOpChange>, isFinal: bool,
                                           k: Id)
    requires Keyed(x.rows, OpKeyOf)
    ensures var y := PutExecStatuses(x, es, isFinal);
      && (k in y.rows <==> k in x.rows)
      && (k in x.rows ==>
            var (candidate, final) := StatusesAfter(x.rows[k], es, isFinal);
            y.rows[k] == x.rows[k].(candidateExecStatus := candidate, finalExecStatus := final))
    decreases |es|
  {
    hide OpEntries;
    if es != [] { StatusesWritten(PutExecStatus(x, es[0], isFinal), es[1..], isFinal, k); }
  }

  /** A taken output gives statuses to the operations that are stored, and changes nothing else of them. */
  lemma TakenStatuses(t: Tables, out: SlotExecutionOutput, now: int, slot: Slot, k: Id)
    requires SlotsKeyed(t.slots) && Keyed(t.ops.rows, OpKeyOf)
    requires Settles(t, out, slot) || Proposes(t, out, slot)
    ensures var y := HandleExec(t, out, now).tables.ops;
      && (k in y.rows <==> k in t.ops.rows)
      && (k in t.ops.rows ==>
            var (candidate, final) :=
              StatusesAfter(t.ops.rows[k], Changes(out.output.value).executedOps, out.status.FinalOutput?);
            y.rows[k] == t.ops.rows[k].(candidateExecStatus := candidate, finalExecStatus := final))
  {
    assert out.output.Some?;
    hide HandleExec, PutExecStatuses, StatusesAfter, Settles, Proposes;
    TakenOutput(t, out, now, slot);
    StatusesWritten(t.ops, Changes(out.output.value).executedOps, out.status.FinalOutput?, k);
  }
}
