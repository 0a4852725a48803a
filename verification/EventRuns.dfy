/**
 The SC events of a slot over whole runs.
 */
module EventRuns {
  import opened ByteStrings
  import opened Ids
  import opened Keys
  import opened Model
  import opened Store
  import opened IngestSpec
  import opened SlotRuns
  import IndexRuns
  import Families

  // ---- what a row takes from an event -------------------------------------

  /** Entry `j` is the last of the call stack that parses, as `a`. */
  predicate LastParsed(stack: seq<Raw<Address>>, j: int, a: Address) {
    0 <= j < |stack| && stack[j] == Parsed(a) && forall m :: j < m < |stack| ==> !stack[m].Parsed?
  }

  /** Entry `j` is the first of the call stack that parses, as `a`. */
  predicate FirstParsed(stack: seq<Raw<Address>>, j: int, a: Address) {
    0 <= j < |stack| && stack[j] == Parsed(a) && forall m :: 0 <= m < j ==> !stack[m].Parsed?
  }

  predicate NoneParsed(stack: seq<Raw<Address>>) {
    forall m :: 0 <= m < |stack| ==> !stack[m].Parsed?
  }

  function StackOf(ev: ScEventPb): seq<Raw<Address>> {
    if ev.context.Some? then ev.context.value.callStack else []
  }

  ghost predicate Innermost(stack: seq<Raw<Address>>, a: Address) { exists j :: LastParsed(stack, j, a) }
  ghost predicate Outermost(stack: seq<Raw<Address>>, a: Address) { exists j :: FirstParsed(stack, j, a) }

  /** Address `a` emitted the event: the innermost readable frame. */
  ghost predicate EmittedBy(ev: ScEventPb, a: Address) { Innermost(StackOf(ev), a) }

  /** Address `a` started the call: the outermost readable frame. */
  ghost predicate CalledBy(ev: ScEventPb, a: Address) { Outermost(StackOf(ev), a) }

  predicate CausedBy(ev: ScEventPb, op: Id) {
    ev.context.Some? && ev.context.value.originOperationId == Some(Parsed(op))
  }

  /** Row `r` records event `ev` of `slot` at index `i`. */
  ghost predicate Records(r: StoredScEvent, ev: ScEventPb, slot: Slot, i: int, status: SlotStatus) {
    && r.slot == slot && r.index == i && r.data == ev.data && r.status == status
    && (forall a :: EmittedBy(ev, a) <==> r.emitters == [a])
    && (forall a :: CalledBy(ev, a) <==> r.callers == [a])
    && (NoneParsed(StackOf(ev)) <==> r.emitters == [])
    && (NoneParsed(StackOf(ev)) <==> r.callers == [])
    && (forall op :: CausedBy(ev, op) <==> r.opId == Some(op))
  }

  lemma {:induction false} ParsedEnds(stack: seq<Raw<Address>>)
    ensures var parsed := ParsedOnly(stack);
      && (parsed == [] <==> NoneParsed(stack))
      && (parsed != [] ==> Outermost(stack, parsed[0]) && Innermost(stack, parsed[|parsed| - 1]))
  {
    if stack != [] {
      ParsedEnds(stack[1..]);
      var rest := ParsedOnly(stack[1..]);
      if rest != [] {
        var j :| FirstParsed(stack[1..], j, rest[0]);
        var l :| LastParsed(stack[1..], l, rest[|rest| - 1]);
        if !stack[0].Parsed? { assert FirstParsed(stack, j + 1, rest[0]); }
        assert LastParsed(stack, l + 1, rest[|rest| - 1]);
      }
      if stack[0].Parsed? {
        assert FirstParsed(stack, 0, stack[0].id);
        if rest == [] { assert LastParsed(stack, 0, stack[0].id); }
      } else {
        assert NoneParsed(stack[1..]) ==> NoneParsed(stack);
      }
    }
  }

  /** The row built from an event records it. */
  lemma RowRecords(ev: ScEventPb, slot: Slot, i: U32, status: SlotStatus)
    ensures Records(EventRow(ev, slot, i, status), ev, slot, i, status)
  {
    ParsedEnds(StackOf(ev));
    hide ParsedOnly;
    assert ParsedOnly(StackOf(ev)) == [] ==> NoneParsed(StackOf(ev));
  }

  /** A row is determined by the event it records. */
  lemma RecordsUnique(r: StoredScEvent, q: StoredScEvent, ev: ScEventPb, slot: Slot, i: int, status: SlotStatus)
    requires Records(r, ev, slot, i, status) && Records(q, ev, slot, i, status)
    requires !NoneParsed(StackOf(ev)) ==> (exists a :: EmittedBy(ev, a)) && exists a :: CalledBy(ev, a)
    ensures r == q
  {
    hide NoneParsed, EmittedBy, CalledBy, CausedBy;
    if !NoneParsed(StackOf(ev)) {
      var a :| EmittedBy(ev, a);
      var b :| CalledBy(ev, b);
      assert r.emitters == [a] == q.emitters && r.callers == [b] == q.callers;
    }
    if r.opId.Some? { assert CausedBy(ev, r.opId.value); }
    if q.opId.Some? { assert CausedBy(ev, q.opId.value); }
  }

  /** Just the row built from an event records it. */
  lemma RecordsIff(r: StoredScEvent, ev: ScEventPb, slot: Slot, i: U32, status: SlotStatus)
    ensures Records(r, ev, slot, i, status) <==> r == EventRow(ev, slot, i, status)
  {
    hide Records, EventRow, NoneParsed, EmittedBy, CalledBy;
    RowRecords(ev, slot, i, status);
    if Records(r, ev, slot, i, status) {
      SomeoneEmits(ev);
      RecordsUnique(r, EventRow(ev, slot, i, status), ev, slot, i, status);
    }
  }

  lemma SomeoneEmits(ev: ScEventPb)
    ensures !NoneParsed(StackOf(ev)) ==> (exists a :: EmittedBy(ev, a)) && exists a :: CalledBy(ev, a)
  {
    ParsedEnds(StackOf(ev));
    var parsed := ParsedOnly(StackOf(ev));
    if parsed != [] { assert EmittedBy(ev, parsed[|parsed| - 1]) && CalledBy(ev, parsed[0]); }
  }

  // ---- the events of a slot -----------------------------------------------

  /** The events of `slot` are `evs`: dense indices, one row each, nothing else. */
  ghost predicate Holds(x: Indexed<StoredScEvent>, slot: Slot, evs: seq<ScEventPb>, status: SlotStatus) {
    && |evs| < 0x1_0000_0000
    && (forall i :: 0 <= i < |evs| ==> HoldsAt(x, slot, evs, status, i))
    && (forall k :: k in x.rows && SlotKey(slot) <= k ==> exists i: U32 :: i < |evs| && k == SlotIndexedKey(slot, i))
  }

  ghost predicate HoldsAt(x: Indexed<StoredScEvent>, slot: Slot, evs: seq<ScEventPb>, status: SlotStatus, i: int)
    requires 0 <= i < |evs| < 0x1_0000_0000
  {
    SlotIndexedKey(slot, i) in x.rows && Records(x.rows[SlotIndexedKey(slot, i)], evs[i], slot, i, status)
  }

  lemma KeysDiffer(s: Slot, i: U32, j: U32)
    ensures SlotIndexedKey(s, i) == SlotIndexedKey(s, j) ==> i == j
  {
    SlotIndexedRoundTrip(s, i);
    SlotIndexedRoundTrip(s, j);
  }

  /** `after` is `before` with `evs` written from index `i` on, and nothing else changed. */
  ghost predicate Written(after: map<Bytes, StoredScEvent>, before: map<Bytes, StoredScEvent>, evs: seq<ScEventPb>,
                          slot: Slot, status: SlotStatus, i: nat)
  {
    && (forall j: U32 :: i <= j < i + |evs| ==>
          && SlotIndexedKey(slot, j) in after
          && after[SlotIndexedKey(slot, j)] == EventRow(evs[j - i], slot, j, status))
    && (forall k :: k in after ==> k in before || exists j: U32 :: i <= j < i + |evs| && k == SlotIndexedKey(slot, j))
    && (forall k :: k in before && (forall j: U32 :: i <= j < i + |evs| ==> k != SlotIndexedKey(slot, j))
          ==> k in after && after[k] == before[k])
  }

  lemma WrittenNext(after: map<Bytes, StoredScEvent>, before: map<Bytes, StoredScEvent>, evs: seq<ScEventPb>,
                    slot: Slot, status: SlotStatus, i: U32)
    requires evs != []
    requires Written(after, before[SlotIndexedKey(slot, i) := EventRow(evs[0], slot, i, status)], evs[1..], slot,
        status, i + 1)
    ensures Written(after, before, evs, slot, status, i)
  {
    hide SlotIndexedKey, EventRow;
    forall j: U32 | i + 1 <= j ensures SlotIndexedKey(slot, i) != SlotIndexedKey(slot, j) { KeysDiffer(slot, i, j); }
  }

  /** Writing `evs` from index `i` on touches exactly those keys. */
  lemma {:induction false} PutScEventsEffect(x: Indexed<StoredScEvent>, evs: seq<ScEventPb>, slot: Slot,
                                             status: SlotStatus, i: nat)
    requires i + |evs| < 0x1_0000_0000
    ensures Written(PutScEvents(x, evs, slot, status, i).rows, x.rows, evs, slot, status, i)
    decreases |evs|
  {
    hide SlotIndexedKey, EventEntries, EventRow, Written;
    if evs == [] {
      NothingWritten(x.rows, slot, status, i);
    } else {
      var x1 := PutScEvent(x, EventRow(evs[0], slot, i, status));
      EventRowKey(evs[0], slot, i, status);
      PutScEventsEffect(x1, evs[1..], slot, status, i + 1);
      WrittenNext(PutScEvents(x1, evs[1..], slot, status, i + 1).rows, x.rows, evs, slot, status, i);
    }
  }

  lemma NothingWritten(rows: map<Bytes, StoredScEvent>, slot: Slot, status: SlotStatus, i: nat)
    ensures Written(rows, rows, [], slot, status, i)
  {}

  lemma EventRowKey(ev: ScEventPb, slot: Slot, i: U32, status: SlotStatus)
    ensures EventKeyOf(EventRow(ev, slot, i, status)) == SlotIndexedKey(slot, i)
  {}

  /** Clear-and-rewrite leaves the slot with exactly `evs`, whatever was there. */
  lemma ReplaceEffect(x: Indexed<StoredScEvent>, evs: Repeated<ScEventPb>, slot: Slot, status: SlotStatus)
    ensures Holds(ReplaceScEvents(x, evs, slot, status), slot, evs, status)
    ensures forall k :: !(SlotKey(slot) <= k) ==> RowAt(ReplaceScEvents(x, evs, slot, status), k) == RowAt(x, k)
  {
    hide SlotKey, EventEntries, EventRow, SlotIndexedKey, PutScEvents, Records;
    var y := ReplaceScEvents(x, evs, slot, status);
    PutScEventsEffect(ClearScEvents(x, slot), evs, slot, status, 0);
    forall i | 0 <= i < |evs| ensures HoldsAt(y, slot, evs, status, i) {
      RecordsIff(y.rows[SlotIndexedKey(slot, i)], evs[i], slot, i, status);
    }
  }

  lemma OtherSlotPrefix(s: Slot, s': Slot, k: Bytes)
    requires s != s' && SlotKey(s) <= k
    ensures !(SlotKey(s') <= k)
  {
    SlotKeyInjective(s, s');
    assert SlotKey(s') <= k ==> SlotKey(s') == SlotKey(s);
  }

  /** Replacing one slot's events leaves the other slots' events alone. */
  lemma ReplaceElsewhere(x: Indexed<StoredScEvent>, y: Indexed<StoredScEvent>, slot: Slot, s: Slot,
                         evs: seq<ScEventPb>, status: SlotStatus)
    requires s != slot && Holds(x, s, evs, status)
    requires forall k :: !(SlotKey(slot) <= k) ==> RowAt(y, k) == RowAt(x, k)
    ensures Holds(y, s, evs, status)
  {
    hide SlotKey, SlotIndexedKey, Records;
    forall i | 0 <= i < |evs| ensures HoldsAt(y, s, evs, status, i) {
      assert HoldsAt(x, s, evs, status, i);
      OtherSlotPrefix(s, slot, SlotIndexedKey(s, i));
      assert RowAt(y, SlotIndexedKey(s, i)) == RowAt(x, SlotIndexedKey(s, i));
    }
    forall k | k in y.rows && SlotKey(s) <= k ensures exists i: U32 :: i < |evs| && k == SlotIndexedKey(s, i) {
      OtherSlotPrefix(s, slot, k);
      assert RowAt(y, k) == RowAt(x, k);
    }
  }

  // ---- which output settles a slot ----------------------------------------

  predicate IsOutputAt(ev: Event, s: Slot) {
    ev.Exec? && OwnSlot(ev) == Some(s)
  }

  /** The first FINAL output of `s` in the trace, or else its latest candidate output. */
  function Settling(trace: seq<Arrival>, s: Slot): (r: Option<SlotExecutionOutput>)
    ensures r.Some? ==> IsOutputAt(Exec(r.value), s)
    ensures r.None? <==> forall a :: a in trace ==> !IsOutputAt(a.ev, s)
    ensures r.Some? ==> exists a :: a in trace && a.ev == Exec(r.value)
    ensures (exists a :: a in trace && IsOutputAt(a.ev, s) && a.ev.out.status.FinalOutput?)
       <==> (r.Some? && r.value.status.FinalOutput?)
  {
    if trace == [] then None
    else
      var last := trace[|trace| - 1];
      assert trace == trace[..|trace| - 1] + [last];
      var prev := Settling(trace[..|trace| - 1], s);
      assert last in trace;
      if IsOutputAt(last.ev, s) && !(prev.Some? && prev.value.status.FinalOutput?) then Some(last.ev.out) else prev
  }

  /** The slot's events and counters are those of output `o`. */
  ghost predicate SettledBy(t: Tables, s: Slot, o: Option<SlotExecutionOutput>) {
    var row := SlotAt(t.slots, s);
    match o
    case None =>
      && Holds(t.scEvents, s, [], SlotStatus.Unknown)
      && (row.Some? ==>
            row.value.scEventCount == 0 && !row.value.completeness.execOutputFinal
                && row.value.status != SlotStatus.Final)
    case Some(out) =>
      && IsOutputAt(Exec(out), s)
      && row.Some?
      && row.value.scEventCount == |out.output.value.events|
      && row.value.completeness.execOutputFinal == out.status.FinalOutput?
      && row.value.status == (if out.status.FinalOutput? then SlotStatus.Final else SlotStatus.Candidate)
      && Holds(t.scEvents, s, out.output.value.events, row.value.status)
  }

  /** What an event does to the SC events. */
  lemma StepEvents(t: Tables, a: Arrival)
    requires SlotsKeyed(t.slots)
    requires forall s :: SlotAt(t.slots, s).Some? && SlotAt(t.slots, s).value.status == SlotStatus.Final
               ==> SlotAt(t.slots, s).value.completeness.execOutputFinal
    ensures Step(t, a).scEvents ==
      if a.ev.Exec? && OwnSlot(a.ev).Some? && SlotOrFresh(t, OwnSlot(a.ev).value).status != SlotStatus.Final
      then ReplaceScEvents(t.scEvents, a.ev.out.output.value.events, OwnSlot(a.ev).value,
                           if a.ev.out.status.FinalOutput? then SlotStatus.Final else SlotStatus.Candidate)
      else t.scEvents
  {
    hide SlotAt, SlotKey, PutSlot, ParentStub, ReplaceScEvents, PutExecStatuses, PutAsyncChanges, ApplyFinality;
    hide TransferRows, PutTransfers, ReconcileAsync, ReconcileDeferred, PutEndorsements, PutDenunciations, PutOps;
    hide BlockRow, PutBlock;
    if OwnSlot(a.ev).Some? { SlotOrFreshSlot(t, OwnSlot(a.ev).value); }
  }

  lemma StepSettled(t: Tables, a: Arrival, s: Slot, o: Option<SlotExecutionOutput>)
    requires SlotsKeyed(t.slots)
    requires forall s :: SlotAt(t.slots, s).Some? && SlotAt(t.slots, s).value.status == SlotStatus.Final
               ==> SlotAt(t.slots, s).value.completeness.execOutputFinal
    requires SettledBy(t, s, o)
    ensures SettledBy(Step(t, a), s,
      if IsOutputAt(a.ev, s) && !(o.Some? && o.value.status.FinalOutput?) then Some(a.ev.out) else o)
  {
    hide SlotAt, SlotKey, Step, ReplaceScEvents, Holds, HandleBlock;
    StepEvents(t, a);
    StepSlotAt(t, a, s);
    if a.ev.Exec? && OwnSlot(a.ev).Some? {
      var own := OwnSlot(a.ev).value;
      var evs := a.ev.out.output.value.events;
      var status := if a.ev.out.status.FinalOutput? then SlotStatus.Final else SlotStatus.Candidate;
      ReplaceEffect(t.scEvents, evs, own, status);
      if s != own && SlotOrFresh(t, own).status != SlotStatus.Final {
        var held := if o.Some? then o.value.output.value.events else [];
        var heldStatus := if o.Some? then SlotAt(t.slots, s).value.status else SlotStatus.Unknown;
        ReplaceElsewhere(t.scEvents, Step(t, a).scEvents, own, s, held, heldStatus);
      }
    }
  }

  lemma EmptySettled(s: Slot)
    ensures SettledBy(EMPTY_TABLES, s, None)
  {}

  /**
   In every reachable store a slot holds exactly the events of the first FINAL
   output it was given, or of its latest candidate output before any FINAL one:
   densely numbered, counted by the slot row and tagged with the slot's status.
   */
  lemma {:induction false} RunSettled(trace: seq<Arrival>)
    ensures forall s :: SettledBy(Run(EMPTY_TABLES, trace), s, Settling(trace, s))
    decreases |trace|
  {
    hide Step, SettledBy;
    if trace == [] {
      forall s { EmptySettled(s); }
    } else {
      var prefix, last := trace[..|trace| - 1], trace[|trace| - 1];
      var t := Run(EMPTY_TABLES, prefix);
      RunSettled(prefix);
      RunSlotsKeyed(EMPTY_TABLES, prefix);
      forall s ensures SlotAt(t.slots, s).Some? && SlotAt(t.slots, s).value.status == SlotStatus.Final
               ==> SlotAt(t.slots, s).value.completeness.execOutputFinal
      {
        FinalMeansSettled(t, s, Settling(prefix, s));
      }
      forall s ensures SettledBy(Run(EMPTY_TABLES, trace), s, Settling(trace, s)) {
        StepSettled(t, last, s, Settling(prefix, s));
      }
    }
  }

  lemma FinalMeansSettled(t: Tables, s: Slot, o: Option<SlotExecutionOutput>)
    requires SettledBy(t, s, o)
    ensures SlotAt(t.slots, s).Some? && SlotAt(t.slots, s).value.status == SlotStatus.Final
      ==> SlotAt(t.slots, s).value.completeness.execOutputFinal
  {}

  // ---- the first FINAL output ---------------------------------------------

  predicate IsFinalAt(ev: Event, s: Slot) {
    IsOutputAt(ev, s) && ev.out.status.FinalOutput?
  }

  /** The `i`-th event is the first FINAL output of slot `s`. */
  predicate FirstFinal(trace: seq<Arrival>, i: nat, s: Slot) {
    i < |trace| && IsFinalAt(trace[i].ev, s) && forall j :: 0 <= j < i ==> !IsFinalAt(trace[j].ev, s)
  }

  lemma {:induction false} SettlingIsFirstFinal(trace: seq<Arrival>, i: nat, s: Slot)
    requires FirstFinal(trace, i, s)
    ensures Settling(trace, s) == Some(trace[i].ev.out)
    decreases |trace|
  {
    hide OwnSlot;
    var front := trace[..|trace| - 1];
    if i < |front| {
      SettlingIsFirstFinal(front, i, s);
    } else {
      forall a | a in front ensures !IsFinalAt(a.ev, s) {
        var j :| 0 <= j < |front| && front[j] == a;
        assert trace[j] == a;
      }
    }
  }

  lemma {:induction false} SomeFirstFinal(trace: seq<Arrival>, s: Slot)
    requires exists a :: a in trace && IsFinalAt(a.ev, s)
    ensures exists i: nat :: FirstFinal(trace, i, s)
    decreases |trace|
  {
    hide OwnSlot, IsOutputAt;
    var front, last := trace[..|trace| - 1], trace[|trace| - 1];
    assert trace == front + [last];
    if a :| a in front && IsFinalAt(a.ev, s) {
      SomeFirstFinal(front, s);
      var i :| FirstFinal(front, i, s);
      assert FirstFinal(trace, i, s);
    } else {
      forall j | 0 <= j < |front| ensures !IsFinalAt(trace[j].ev, s) { assert trace[j] in front; }
      assert FirstFinal(trace, |front|, s);
    }
  }

  /**
   In every reachable store the final output of a slot is in exactly when the trace
   has a FINAL output for it, and then the slot holds exactly the first one's events.
   */
  lemma FinalEventsHeld(trace: seq<Arrival>, s: Slot)
    ensures var t := Run(EMPTY_TABLES, trace);
      var row := SlotAt(t.slots, s);
      && (row.Some? && row.value.completeness.execOutputFinal <==> exists i: nat :: FirstFinal(trace, i, s))
      && (row.Some? && row.value.status == SlotStatus.Final <==> exists i: nat :: FirstFinal(trace, i, s))
      && forall i: nat :: FirstFinal(trace, i, s) ==>
          Holds(t.scEvents, s, trace[i].ev.out.output.value.events, SlotStatus.Final)
  {
    hide Run, Holds, OwnSlot, SlotAt;
    RunSettled(trace);
    assert SettledBy(Run(EMPTY_TABLES, trace), s, Settling(trace, s));
    forall i: nat | FirstFinal(trace, i, s) ensures Settling(trace, s) == Some(trace[i].ev.out) {
      SettlingIsFirstFinal(trace, i, s);
    }
    if Settling(trace, s).Some? && Settling(trace, s).value.status.FinalOutput? {
      var a :| a in trace && IsOutputAt(a.ev, s) && a.ev.out.status.FinalOutput?;
      SomeFirstFinal(trace, s);
    }
  }

  // ---- the index rows of a slot's events ----------------------------------

  /** With the indexes exact, event `i` of a slot is filed just under its emitter, its caller and its operation. */
  lemma HeldIndexRows(x: Indexed<StoredScEvent>, slot: Slot, evs: seq<ScEventPb>, status: SlotStatus,
                      a: Address, op: Id, i: U32)
    requires SoundEvents(x) && Holds(x, slot, evs, status)
    ensures Entry(EventByEmitter, EventByAddrKey(a, slot, i)) in x.idx <==> i < |evs| && EmittedBy(evs[i], a)
    ensures Entry(EventByCaller, EventByAddrKey(a, slot, i)) in x.idx <==> i < |evs| && CalledBy(evs[i], a)
    ensures Entry(EventByOp, IdSlotIndexKey(op, slot, i)) in x.idx <==> i < |evs| && CausedBy(evs[i], op)
  {
    hide SlotKey, SlotIndexedKey, EventByAddrKey, IdSlotIndexKey, Exact, EventEntries, EmittedBy, CalledBy, CausedBy;
    Families.EventFamilies(x, a, op, slot, i);
    if i < |evs| {
      assert HoldsAt(x, slot, evs, status, i);
      var r := x.rows[SlotIndexedKey(slot, i)];
      assert Records(r, evs[i], slot, i, status);
      AtMostOne(r, evs[i], slot, i, status);
    } else if SlotIndexedKey(slot, i) in x.rows {
      assert SlotKey(slot) <= SlotIndexedKey(slot, i);
      var j: U32 :| j < |evs| && SlotIndexedKey(slot, i) == SlotIndexedKey(slot, j);
      KeysDiffer(slot, i, j);
    }
  }

  /** An event has at most one emitter and at most one caller. */
  lemma AtMostOne(r: StoredScEvent, ev: ScEventPb, slot: Slot, i: U32, status: SlotStatus)
    requires Records(r, ev, slot, i, status)
    ensures |r.emitters| <= 1 && |r.callers| <= 1
  {
    hide Records;
    RecordsIff(r, ev, slot, i, status);
  }

  /** In every reachable store the events of a slot are filed under what the settling output says of them. */
  lemma RunEventIndexRows(trace: seq<Arrival>, s: Slot, a: Address, op: Id, i: U32)
    ensures var idx := Run(EMPTY_TABLES, trace).scEvents.idx;
      var o := Settling(trace, s);
      var evs := if o.Some? then o.value.output.value.events else [];
      && (Entry(EventByEmitter, EventByAddrKey(a, s, i)) in idx <==> i < |evs| && EmittedBy(evs[i], a))
      && (Entry(EventByCaller, EventByAddrKey(a, s, i)) in idx <==> i < |evs| && CalledBy(evs[i], a))
      && (Entry(EventByOp, IdSlotIndexKey(op, s, i)) in idx <==> i < |evs| && CausedBy(evs[i], op))
  {
    hide Run, Holds, EmittedBy, CalledBy, CausedBy, SlotKey, EventByAddrKey, IdSlotIndexKey, Exact;
    var o := Settling(trace, s);
    RunSettled(trace);
    assert SettledBy(Run(EMPTY_TABLES, trace), s, o);
    IndexRuns.EmptyValid();
    IndexRuns.RunValid(EMPTY_TABLES, trace);
    var x := Run(EMPTY_TABLES, trace).scEvents;
    if o.Some? {
      var status := SlotAt(Run(EMPTY_TABLES, trace).slots, s).value.status;
      HeldIndexRows(x, s, o.value.output.value.events, status, a, op, i);
    } else {
      HeldIndexRows(x, s, [], SlotStatus.Unknown, a, op, i);
    }
  }
}
