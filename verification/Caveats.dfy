/**
 Where the indexer's order- and overwrite-independence ends, each time with the
 exact condition.
 */
module Caveats {
  import opened ByteStrings
  import opened Ids
  import opened Keys
  import opened Model
  import opened Store
  import opened IngestSpec
  import opened IndexRuns
  import opened SlotRuns
  import opened BlockOutcomes
  import opened ExecEffects
  import EventRuns
  import Orders

  // ---- overwriting rows ---------------------------------------------------

  /** Put a row over another without retiring anything: exact if and only if the new row keeps every old index row. */
  lemma OverwriteExactIff<R>(x: Indexed<R>, table: Table, entries: R -> set<Entry>, k: Bytes, row: R)
    requires Exact(x, table, entries) && k in x.rows
    requires LeadsTo(entries(row), table, k)
    ensures Exact(Put(x, k, row, {}, entries(row)), table, entries) <==> entries(x.rows[k]) <= entries(row)
  {
    var y := Put(x, k, row, {}, entries(row));
    if entries(x.rows[k]) <= entries(row) {
      PutExact(x, table, entries, k, row, {}, entries(row));
    } else {
      var e :| e in entries(x.rows[k]) && e !in entries(row);
      assert LeadsTo(entries(x.rows[k]), table, k);
      assert Owned(x, table, entries, e);
      assert e in y.idx && !Owned(y, table, entries, e);
    }
  }

  /** A transfer written over another one at its key strands the index rows that the two do not share. */
  lemma TransferOverwriteIff(x: Indexed<StoredTransfer>, r: StoredTransfer)
    requires SoundTransfers(x) && TransferKeyOf(r) in x.rows
    ensures Exact(PutTransfer(x, r), TransferT, TransferEntries) <==>
              TransferEntries(x.rows[TransferKeyOf(r)]) <= TransferEntries(r)
  {
    hide Exact, LeadsTo, TransferEntries, TransferKeyOf;
    TransferLeads(r);
    OverwriteExactIff(x, TransferT, TransferEntries, TransferKeyOf(r), r);
  }

  lemma EventOverwriteIff(x: Indexed<StoredScEvent>, ev: StoredScEvent)
    requires SoundEvents(x) && EventKeyOf(ev) in x.rows
    ensures Exact(PutScEvent(x, ev), EventT, EventEntries) <==> EventEntries(x.rows[EventKeyOf(ev)]) <= EventEntries(ev)
  {
    hide Exact, LeadsTo, EventEntries, EventKeyOf;
    EventLeads(ev);
    OverwriteExactIff(x, EventT, EventEntries, EventKeyOf(ev), ev);
  }

  // ---- final statuses of operations ---------------------------------------

  /** The final status on record for operation `k`. */
  function FinalStatus(x: Indexed<StoredOperation>, k: Id): Option<ExecStatus> {
    if k in x.rows then x.rows[k].finalExecStatus else None
  }

  lemma StatusesEffect(x: Indexed<StoredOperation>, es: seq<ExecutedOpChange>, isFinal: bool, k: Id)
    requires Keyed(x.rows, OpKeyOf)
    ensures var y := PutExecStatuses(x, es, isFinal);
            FinalStatus(y, k) == if k !in x.rows then None
                                    else if FinalStatus(x, k).Some? || !isFinal then FinalStatus(x, k)
                                    else FirstStatus(es, k)
  {
    StatusesWritten(x, es, isFinal, k);
  }

  lemma {:induction false} BlockOpsEffect(x: Indexed<StoredOperation>, fs: seq<FilledOperation>, slot: Slot,
                                          block: Id, k: Id)
    requires Keyed(x.rows, OpKeyOf)
    ensures var y := PutOps(x, fs, slot, block).0;
            x.rows.Keys <= y.rows.Keys && Keyed(y.rows, OpKeyOf) && FinalStatus(y, k) == FinalStatus(x, k)
    decreases |fs|
  {
    hide OpEntries;
    if fs != [] {
      match OpIdOf(fs[0])
      case None => BlockOpsEffect(x, fs[1..], slot, block, k);
      case Some(id) =>
        match FindOrNewOp(x, fs[0].operation.value, id, slot)
        case None =>
        case Some(o) => BlockOpsEffect(PutOp(x, Include(o, slot, block)), fs[1..], slot, block, k);
    }
  }

  /** The output that an event brings to completion: a FINAL one that settles its slot's exec part. */
  function Settling(t: Tables, ev: Event): Option<ExecutionOutput> {
    if ev.Exec? && ev.out.output.Some? && ev.out.output.value.slot.Some?
       && Settles(t, ev.out, SlotFromPb(ev.out.output.value.slot.value))
    then ev.out.output else None
  }

  /**
   The final status that the event records for operation `k`: it settles its slot, names `k`, and `k` is stored
   already.
   */
  function Recorded(t: Tables, ev: Event, k: Id): Option<ExecStatus> {
    if k in t.ops.rows && Settling(t, ev).Some?
    then FirstStatus(Changes(Settling(t, ev).value).executedOps, k) else None
  }

  lemma StepFinalStatus(t: Tables, a: Arrival, k: Id)
    requires Keyed(t.ops.rows, OpKeyOf)
    ensures FinalStatus(Step(t, a).ops, k) ==
      if FinalStatus(t.ops, k).Some? then FinalStatus(t.ops, k) else Recorded(t, a.ev, k)
  {
    hide PutOps, PutExecStatuses, FinalStatus, ReplaceScEvents, PutAsyncChanges, ApplyFinality, TransferRows;
    hide PutTransfers, ReconcileAsync, ReconcileDeferred, PutEndorsements, PutDenunciations, BlockRow, ParentStub;
    hide WithOutput, SameVerdict, Contradicts, FirstStatus, SlotAt, SlotKey;
    if k !in t.ops.rows { NoRowNoStatus(t.ops, k); }
    match a.ev
    case Block(fb) =>
      if CheckHeader(fb).Some? {
        BlockOpsEffect(t.ops, fb.operations, CheckHeader(fb).value.slot, CheckHeader(fb).value.id, k);
      }
    case Exec(out) =>
      if out.output.Some? {
        StatusesEffect(t.ops, ExecutedOps(out.output.value), out.status.FinalOutput?, k);
        forall row { ContradictsIff(row, out.output.value); }
      }
    case Transfers(resp) =>
    case Tick =>
  }

  lemma NoRowNoStatus(x: Indexed<StoredOperation>, k: Id)
    requires k !in x.rows
    ensures FinalStatus(x, k).None?
  {}

  /** What the `i`-th event records, in the store it finds. */
  function RecordedAt(trace: seq<Arrival>, i: nat, k: Id): Option<ExecStatus>
    requires i < |trace|
  {
    Recorded(Run(EMPTY_TABLES, trace[..i]), trace[i].ev, k)
  }

  predicate FirstRecord(trace: seq<Arrival>, i: nat, k: Id) {
    i < |trace| && RecordedAt(trace, i, k).Some? && forall j :: 0 <= j < i ==> RecordedAt(trace, j, k).None?
  }

  /**
   Over a whole run an operation ends with a final status if and only if some
   FINAL output that settled its slot named it when its row was already there, and
   it is the status that the first such output gave. A FINAL output that comes
   before the block is not made up for later.
   */
  lemma {:induction false} FinalStatusIff(trace: seq<Arrival>, k: Id)
    ensures var status := FinalStatus(Run(EMPTY_TABLES, trace).ops, k);
      && (status.Some? <==> exists i: nat :: FirstRecord(trace, i, k))
      && forall i: nat :: FirstRecord(trace, i, k) ==> status == RecordedAt(trace, i, k)
    decreases |trace|
  {
    hide Step, Recorded, Exact;
    if trace != [] {
      var front, last := trace[..|trace| - 1], trace[|trace| - 1];
      FinalStatusIff(front, k);
      EmptyValid();
      RunValid(EMPTY_TABLES, front);
      StepFinalStatus(Run(EMPTY_TABLES, front), last, k);
      forall i | 0 <= i < |front| ensures RecordedAt(front, i, k) == RecordedAt(trace, i, k) {
        assert front[..i] == trace[..i];
      }
      assert RecordedAt(trace, |front|, k) == Recorded(Run(EMPTY_TABLES, front), last.ev, k);
      forall i: nat | i < |front| ensures FirstRecord(front, i, k) <==> FirstRecord(trace, i, k) {}
      if i: nat :| FirstRecord(front, i, k) {
        assert FirstRecord(trace, i, k);
      } else {
        NoneFirst(front, k);
        if RecordedAt(trace, |front|, k).Some? { assert FirstRecord(trace, |front|, k); }
      }
    }
  }

  /** Without a first recording event there is none at all. */
  lemma {:induction false} NoneFirst(trace: seq<Arrival>, k: Id)
    requires !exists i: nat :: FirstRecord(trace, i, k)
    ensures forall i :: 0 <= i < |trace| ==> RecordedAt(trace, i, k).None?
  {
    hide Recorded, Run;
    var n := 0;
    while n < |trace|
      invariant 0 <= n <= |trace|
      invariant forall i :: 0 <= i < n ==> RecordedAt(trace, i, k).None?
    {
      assert !FirstRecord(trace, n, k);
      n := n + 1;
    }
  }

  /** A FINAL output that names an operation, and the block that lists it, leave a final status in one order only. */
  lemma StatusOrderIff(a: Arrival, b: Arrival, k: Id, s: Slot)
    requires EventRuns.IsFinalAt(a.ev, s) && b.ev.Block? && Acceptable(b.ev.fb) && SelfFed(b.ev.fb)
        && Lists(b.ev.fb.operations, k)
    ensures FinalStatus(Run(EMPTY_TABLES, [a, b]).ops, k) == None
    ensures FinalStatus(Run(EMPTY_TABLES, [b, a]).ops, k) == FirstStatus(Changes(a.ev.out.output.value).executedOps, k)
    ensures FinalStatus(Run(EMPTY_TABLES, [a, b]).ops, k) == FinalStatus(Run(EMPTY_TABLES, [b, a]).ops, k)
       <==> FirstStatus(Changes(a.ev.out.output.value).executedOps, k).None?
  {
    hide HandleBlock, HandleExec, Exact, Fed, Lists, Acceptable, SlotAt, SlotKey, Run, FirstStatus;
    Orders.RunTwo(EMPTY_TABLES, a, b);
    Orders.RunTwo(EMPTY_TABLES, b, a);
    EmptyValid();
    StepValid(EMPTY_TABLES, a);
    StepValid(EMPTY_TABLES, b);
    StepFinalStatus(EMPTY_TABLES, a, k);
    StepFinalStatus(Step(EMPTY_TABLES, a), b, k);
    StepFinalStatus(EMPTY_TABLES, b, k);
    StepFinalStatus(Step(EMPTY_TABLES, b), a, k);
    assert EMPTY_TABLES.ops.rows.Keys == {};
    BlockOutcome(EMPTY_TABLES, b.ev.fb);
    Orders.NoSlot(s);
    StepSlotAt(EMPTY_TABLES, b, s);
  }

  // ---- the last final slot ------------------------------------------------

  /** Only a FINAL output that finds its slot unsettled moves the mark, and it moves it to that slot. */
  lemma StepLastFinal(t: Tables, a: Arrival)
    ensures Step(t, a).lastFinalSlot ==
      if OwnSlot(a.ev).Some? && EventRuns.IsFinalAt(a.ev, OwnSlot(a.ev).value)
          && SlotOrFresh(t, OwnSlot(a.ev).value).status != SlotStatus.Final
      then OwnSlot(a.ev) else t.lastFinalSlot
  {
    hide PutExecStatuses, ReplaceScEvents, PutAsyncChanges, ApplyFinality, SameVerdict, WithOutput, SlotKey;
    hide WithExecuted, TransferRows, PutTransfers, ReconcileAsync, ReconcileDeferred, PutEndorsements;
    hide PutDenunciations, PutOps, BlockRow, ParentStub, PutSlot, SlotAt;
  }

  /** The `i`-th event is the first FINAL output of slot `s`, and no later event is the first of its slot. */
  ghost predicate LatestFirstFinal(trace: seq<Arrival>, i: nat, s: Slot) {
    EventRuns.FirstFinal(trace, i, s) && forall j: nat, s' :: EventRuns.FirstFinal(trace, j, s') ==> j <= i
  }

  lemma FirstFinalInFront(trace: seq<Arrival>, n: nat, i: nat, s: Slot)
    requires n <= |trace|
    ensures EventRuns.FirstFinal(trace[..n], i, s) <==> EventRuns.FirstFinal(trace, i, s) && i < n
  {
    hide EventRuns.IsFinalAt;
  }

  /** The last event is the first FINAL output of its slot exactly when it finds the slot unsettled. */
  lemma FirstMeansUnsettled(front: seq<Arrival>, last: Arrival, s: Slot)
    ensures EventRuns.FirstFinal(front + [last], |front|, s)
       <==> EventRuns.IsFinalAt(last.ev, s) && SlotOrFresh(Run(EMPTY_TABLES, front), s).status != SlotStatus.Final
  {
    hide Run, EventRuns.IsFinalAt, EventRuns.Holds, SlotKey;
    EventRuns.FinalEventsHeld(front, s);
    var trace := front + [last];
    if i: nat :| EventRuns.FirstFinal(front, i, s) { assert trace[i] == front[i]; }
    if j :| 0 <= j < |front| && EventRuns.IsFinalAt(front[j].ev, s) {
      assert front[j] in front;
      EventRuns.SomeFirstFinal(front, s);
    }
    assert forall j :: 0 <= j < |front| ==> trace[j] == front[j];
  }

  /** After any run the mark is the slot of the latest event that is the first FINAL output of its slot. */
  lemma {:induction false} LastFinalSlotIs(trace: seq<Arrival>)
    ensures var mark := Run(EMPTY_TABLES, trace).lastFinalSlot;
      && (mark.Some? ==> exists i: nat :: LatestFirstFinal(trace, i, mark.value))
      && (mark.None? ==> forall i: nat, s :: !EventRuns.FirstFinal(trace, i, s))
      && (forall i: nat, s :: LatestFirstFinal(trace, i, s) ==> mark == Some(s))
    decreases |trace|
  {
    hide Step, SlotOrFresh, EventRuns.IsFinalAt;
    if trace != [] {
      var front, last := trace[..|trace| - 1], trace[|trace| - 1];
      assert trace == front + [last];
      LastFinalSlotIs(front);
      StepLastFinal(Run(EMPTY_TABLES, front), last);
      forall i: nat, s ensures EventRuns.FirstFinal(front, i, s) <==> EventRuns.FirstFinal(trace, i, s) && i < |front| {
        FirstFinalInFront(trace, |front|, i, s);
      }
      forall s ensures EventRuns.FirstFinal(trace, |front|, s)
         <==> EventRuns.IsFinalAt(last.ev, s) && SlotOrFresh(Run(EMPTY_TABLES, front), s).status != SlotStatus.Final
      {
        FirstMeansUnsettled(front, last, s);
      }
      forall s | EventRuns.IsFinalAt(last.ev, s) ensures OwnSlot(last.ev) == Some(s) { FinalHasSlot(last.ev, s); }
      assert forall i: nat, s :: EventRuns.FirstFinal(trace, i, s) ==> i <= |front|;
      hide OwnSlot, EventRuns.FirstFinal;
      var mark := Run(EMPTY_TABLES, front).lastFinalSlot;
      if mark.Some? {
        var i :| LatestFirstFinal(front, i, mark.value);
        assert EventRuns.FirstFinal(trace, i, mark.value);
        if OwnSlot(last.ev).None? || !EventRuns.FirstFinal(trace, |front|, OwnSlot(last.ev).value) {
          assert LatestFirstFinal(trace, i, mark.value);
        }
      }
      if OwnSlot(last.ev).Some? && EventRuns.FirstFinal(trace, |front|, OwnSlot(last.ev).value) {
        assert LatestFirstFinal(trace, |front|, OwnSlot(last.ev).value);
      }
      forall i: nat, s | LatestFirstFinal(trace, i, s) ensures Run(EMPTY_TABLES, trace).lastFinalSlot == Some(s) {
        if i < |front| { assert LatestFirstFinal(front, i, s); }
      }
    }
  }

  lemma FinalHasSlot(ev: Event, s: Slot)
    requires EventRuns.IsFinalAt(ev, s)
    ensures OwnSlot(ev) == Some(s)
  {}

  /** The mark after the first `n` events. */
  function MarkAfter(trace: seq<Arrival>, n: nat): Option<Slot>
    requires n <= |trace|
  {
    Run(EMPTY_TABLES, trace[..n]).lastFinalSlot
  }

  predicate NotBack(before: Option<Slot>, after: Option<Slot>) {
    before.Some? ==> after.Some? && !Earlier(after.value, before.value)
  }

  /** The mark never moves to an earlier slot, nor away. */
  ghost predicate NeverBack(trace: seq<Arrival>) {
    forall m, n :: 0 <= m <= n <= |trace| ==> NotBack(MarkAfter(trace, m), MarkAfter(trace, n))
  }

  /** The first FINAL outputs of the slots come in slot order. */
  ghost predicate InSlotOrder(trace: seq<Arrival>) {
    forall i: nat, j: nat, s, s' :: EventRuns.FirstFinal(trace, i, s) && EventRuns.FirstFinal(trace, j, s') && i < j ==>
        Earlier(s, s')
  }

  /** The mark never moves back if and only if the slots are first settled in slot order. */
  lemma LastFinalSlotIff(trace: seq<Arrival>)
    ensures NeverBack(trace) <==> InSlotOrder(trace)
  {
    hide Run, EventRuns.FirstFinal, MarkAfter;
    if NeverBack(trace) {
      forall i: nat, j: nat, s, s' | EventRuns.FirstFinal(trace, i, s) && EventRuns.FirstFinal(trace, j, s') && i < j
        ensures Earlier(s, s')
      {
        DistinctSlots(trace, i, j, s, s');
        MarkAt(trace, i, s);
        MarkAt(trace, j, s');
        assert NotBack(MarkAfter(trace, i + 1), MarkAfter(trace, j + 1));
      }
    }
    if InSlotOrder(trace) {
      forall m: nat, n: nat | m <= n <= |trace| ensures NotBack(MarkAfter(trace, m), MarkAfter(trace, n)) {
        MarkMoves(trace, m, n);
      }
    }
  }

  lemma DistinctSlots(trace: seq<Arrival>, i: nat, j: nat, s: Slot, s': Slot)
    requires EventRuns.FirstFinal(trace, i, s) && EventRuns.FirstFinal(trace, j, s') && i < j
    ensures s != s'
  {
    hide EventRuns.IsFinalAt;
  }

  /** Right after the first FINAL output of a slot the mark is at that slot. */
  lemma MarkAt(trace: seq<Arrival>, i: nat, s: Slot)
    requires EventRuns.FirstFinal(trace, i, s)
    ensures i < |trace| && MarkAfter(trace, i + 1) == Some(s)
  {
    hide Run;
    forall j: nat, s' ensures EventRuns.FirstFinal(trace[..i + 1], j, s') <==>
        EventRuns.FirstFinal(trace, j, s') && j < i + 1
    {
      FirstFinalInFront(trace, i + 1, j, s');
    }
    LastFinalSlotIs(trace[..i + 1]);
    assert LatestFirstFinal(trace[..i + 1], i, s);
  }

  lemma MarkMoves(trace: seq<Arrival>, m: nat, n: nat)
    requires InSlotOrder(trace) && m <= n <= |trace|
    ensures NotBack(MarkAfter(trace, m), MarkAfter(trace, n))
  {
    hide Run, EventRuns.FirstFinal;
    LastFinalSlotIs(trace[..m]);
    LastFinalSlotIs(trace[..n]);
    forall i: nat, s ensures EventRuns.FirstFinal(trace[..m], i, s) <==> EventRuns.FirstFinal(trace, i, s) && i < m {
      FirstFinalInFront(trace, m, i, s);
    }
    forall i: nat, s ensures EventRuns.FirstFinal(trace[..n], i, s) <==> EventRuns.FirstFinal(trace, i, s) && i < n {
      FirstFinalInFront(trace, n, i, s);
    }
    if MarkAfter(trace, m).Some? {
      var s := MarkAfter(trace, m).value;
      var i :| LatestFirstFinal(trace[..m], i, s);
      assert EventRuns.FirstFinal(trace[..n], i, s);
      var s' := MarkAfter(trace, n).value;
      var j :| LatestFirstFinal(trace[..n], j, s');
      assert EventRuns.FirstFinal(trace, i, s) && EventRuns.FirstFinal(trace, j, s');
      if i == j { SameEventSameSlot(trace, i, s, s'); }
    }
  }

  lemma SameEventSameSlot(trace: seq<Arrival>, i: nat, s: Slot, s': Slot)
    requires EventRuns.FirstFinal(trace, i, s) && EventRuns.FirstFinal(trace, i, s')
    ensures s == s'
  {
    FinalHasSlot(trace[i].ev, s);
    FinalHasSlot(trace[i].ev, s');
  }

  // ---- the trail hash -----------------------------------------------------

  /**
   A FINAL output settles an unsettled slot with its own trail hash if and only if it has one or the slot had
   none.
   */
  lemma FinalTrailHashIff(t: Tables, a: Arrival, s: Slot)
    requires EventRuns.IsFinalAt(a.ev, s) && SlotOrFresh(t, s).status != SlotStatus.Final && SlotOrFresh(t, s).slot == s
    ensures SlotAt(Step(t, a).slots, s).Some?
    ensures SlotAt(Step(t, a).slots, s).value.trailHash == Changes(a.ev.out.output.value).trailHash
       <==> Changes(a.ev.out.output.value).trailHash.Some? || SlotOrFresh(t, s).trailHash.None?
  {
    hide PutExecStatuses, ReplaceScEvents, PutAsyncChanges, ApplyFinality, SameVerdict, SlotKey, ExecutedIds;
    hide ExecutedOps, AsyncPool;
    SlotKeyInjective(s, Slot(if s.period > 0 then s.period - 1 else 0, s.thread));
  }

  /** The trail hash on record for a slot. */
  function HashAt(t: Tables, s: Slot): Option<string> {
    if SlotAt(t.slots, s).Some? then SlotAt(t.slots, s).value.trailHash else None
  }

  /** The hash of the latest output that carries one, among the outputs of the slot up to its first FINAL one. */
  function LatestHash(trace: seq<Arrival>, s: Slot): Option<string> {
    if trace == [] then None
    else
      var front, last := trace[..|trace| - 1], trace[|trace| - 1];
      if EventRuns.IsOutputAt(last.ev, s) && Changes(last.ev.out.output.value).trailHash.Some?
          && (forall a :: a in front ==> !EventRuns.IsFinalAt(a.ev, s))
      then Changes(last.ev.out.output.value).trailHash
      else LatestHash(front, s)
  }

  lemma StepTrailHash(t: Tables, a: Arrival, s: Slot)
    requires SlotsKeyed(t.slots)
    requires SlotOrFresh(t, s).status == SlotStatus.Final ==> SlotOrFresh(t, s).completeness.execOutputFinal
    ensures HashAt(Step(t, a), s) ==
      if EventRuns.IsOutputAt(a.ev, s) && SlotOrFresh(t, s).status != SlotStatus.Final
          && Changes(a.ev.out.output.value).trailHash.Some?
      then Changes(a.ev.out.output.value).trailHash else HashAt(t, s)
  {
    hide SlotKey, SlotAt, HandleBlock, SameVerdict, ExecutedIds, ExecutedOps, Step;
    StepSlotAt(t, a, s);
  }

  /**
   Over any run a slot's trail hash is the one of the latest carrier up to its first FINAL output: a FINAL
   output without one keeps the candidate's.
   */
  lemma {:induction false} TrailHashIs(trace: seq<Arrival>, s: Slot)
    ensures HashAt(Run(EMPTY_TABLES, trace), s) == LatestHash(trace, s)
    decreases |trace|
  {
    hide Step, Changes, EventRuns.IsOutputAt, EventRuns.Holds, SlotKey, HashAt;
    if trace == [] {
      NoHash(s);
    } else {
      var front, last := trace[..|trace| - 1], trace[|trace| - 1];
      var t := Run(EMPTY_TABLES, front);
      TrailHashIs(front, s);
      RunSlotsKeyed(EMPTY_TABLES, front);
      EventRuns.FinalEventsHeld(front, s);
      if a :| a in front && EventRuns.IsFinalAt(a.ev, s) { EventRuns.SomeFirstFinal(front, s); }
      StepTrailHash(t, last, s);
    }
  }

  lemma NoHash(s: Slot)
    ensures SlotsKeyed(EMPTY_TABLES.slots) && HashAt(EMPTY_TABLES, s) == None
  {}
}
