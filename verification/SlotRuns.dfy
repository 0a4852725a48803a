/**
 Slots, operations and blocks over whole runs: finality is sticky, and blocks
 agree with their slots.
 */
module SlotRuns {
  import opened ByteStrings
  import opened Ids
  import opened Keys
  import opened Model
  import opened Store
  import opened IngestSpec
  import opened IndexRuns

  // ---- runs ---------------------------------------------------------------

  lemma {:induction false} RunSplit(t: Tables, a: seq<Arrival>, b: seq<Arrival>)
    ensures Run(t, a + b) == Run(Run(t, a), b)
    decreases |b|
  {
    if b == [] {
      assert a + b == a;
    } else {
      RunSplit(t, a, b[..|b| - 1]);
      assert (a + b)[..|a + b| - 1] == a + b[..|b| - 1];
    }
  }

  // ---- which rows a step may touch ----------------------------------------

  /** The slot row a store keeps for `s` after a row for `s'` was put. */
  lemma PutSlotAt(slots: map<Bytes, SlotState>, row: SlotState, s: Slot)
    ensures SlotAt(PutSlot(slots, row), s) == if s == row.slot then Some(row) else SlotAt(slots, s)
  {
    SlotKeyInjective(s, row.slot);
  }

  lemma ParentStubAt(slots: map<Bytes, SlotState>, slot: Slot, s: Slot)
    ensures SlotAt(ParentStub(slots, slot), s) ==
      if slot.period > 0 && s == Slot(slot.period - 1, slot.thread) && SlotAt(slots, s).None?
      then Some(FreshSlot(s)) else SlotAt(slots, s)
  {
    hide SlotKey;
    if slot.period > 0 { PutSlotAt(slots, FreshSlot(Slot(slot.period - 1, slot.thread)), s); }
  }

  lemma BlockSlotAt(t: Tables, fb: FilledBlock, s: Slot)
    requires SlotsKeyed(t.slots) && CheckHeader(fb).Some?
    ensures SlotAt(HandleBlock(t, fb).tables.slots, s) == NextSlot(t, Block(fb), s)
  {
    hide SlotKey, PutSlot, SlotAt, ParentStub, PutEndorsements, PutDenunciations, PutOps, PutBlock, BlockRow, StatusFor;
    var h := CheckHeader(fb).value;
    SlotOrFreshSlot(t, h.slot);
    var row := WithBlock(SlotOrFresh(t, h.slot), h.id);
    PutSlotAt(t.slots, row, s);
    ParentStubAt(PutSlot(t.slots, row), h.slot, s);
  }

  lemma ExecSlotAt(t: Tables, out: SlotExecutionOutput, now: int, s: Slot)
    requires SlotsKeyed(t.slots) && OwnSlot(Exec(out)).Some?
    ensures SlotAt(HandleExec(t, out, now).tables.slots, s) == NextSlot(t, Exec(out), s)
  {
    hide SlotKey, PutSlot, SlotAt, ParentStub, ReplaceScEvents, PutExecStatuses, PutAsyncChanges, ApplyFinality;
    hide SameVerdict;
    hide ExecutedIds, TrailHash, ExecutedOps;
    var slot, e := OwnSlot(Exec(out)).value, out.output.value;
    SlotOrFreshSlot(t, slot);
    var before := SlotOrFresh(t, slot);
    var row := WithExecuted(WithOutput(before, e, out.status.FinalOutput?), ExecutedIds(ExecutedOps(e)));
    PutSlotAt(t.slots, row, s);
    ParentStubAt(PutSlot(t.slots, row), slot, s);
    PutSlotAt(t.slots, Settled(before, e), s);
  }

  /** The slot row of `s` after one event, in terms of the row before. */
  lemma StepSlotAt(t: Tables, a: Arrival, s: Slot)
    requires SlotsKeyed(t.slots)
    ensures SlotAt(Step(t, a).slots, s) == NextSlot(t, a.ev, s)
  {
    hide SlotKey, PutSlot, SlotAt, HandleBlock, HandleExec, TransferRows, PutTransfers, ReconcileAsync;
    hide ReconcileDeferred;
    match a.ev
    case Block(fb) =>
      if CheckHeader(fb).Some? { BlockSlotAt(t, fb, s); } else { NoHeaderNoChange(t, fb); }
    case Exec(out) =>
      if OwnSlot(a.ev).Some? { ExecSlotAt(t, out, a.now, s); } else { NoSlotNoChange(t, out, a.now); }
    case Transfers(resp) =>
      if resp.slot.Some? {
        SlotOrFreshSlot(t, OwnSlot(a.ev).value);
        PutSlotAt(t.slots, WithTransfers(SlotOrFresh(t, OwnSlot(a.ev).value)), s);
      }
    case Tick =>
  }

  lemma NoHeaderNoChange(t: Tables, fb: FilledBlock)
    requires CheckHeader(fb).None?
    ensures HandleBlock(t, fb).tables == t
  {}

  lemma NoSlotNoChange(t: Tables, out: SlotExecutionOutput, now: int)
    requires OwnSlot(Exec(out)).None?
    ensures HandleExec(t, out, now).tables == t
  {}

  lemma SlotOrFreshSlot(t: Tables, s: Slot)
    requires SlotsKeyed(t.slots)
    ensures SlotOrFresh(t, s).slot == s
  {
    if SlotKey(s) in t.slots {
      SlotKeyInjective(s, t.slots[SlotKey(s)].slot);
    }
  }

  /** The slot an event is about; `None` when its header does not say. */
  function OwnSlot(ev: Event): Option<Slot> {
    match ev
    case Block(fb) => if CheckHeader(fb).Some? then Some(CheckHeader(fb).value.slot) else None
    case Exec(out) =>
      if out.output.Some? && out.output.value.slot.Some? && !out.status.OtherOutput?
      then Some(SlotFromPb(out.output.value.slot.value)) else None
    case Transfers(resp) => if resp.slot.Some? then Some(SlotFromPb(resp.slot.value)) else None
    case Tick => None
  }

  /** The row of a slot whose verdict came first and whose output comes now. */
  function Settled(s: SlotState, e: ExecutionOutput): SlotState {
    WithExecuted(s.(trailHash := if s.trailHash.None? then TrailHash(e) else s.trailHash,
                    scEventCount := |e.events|,
                    completeness := s.completeness.(execOutputFinal := true)),
                 ExecutedIds(ExecutedOps(e)))
  }

  /** The row of the event's own slot after the event. */
  function OwnRow(t: Tables, ev: Event, slot: Slot): Option<SlotState>
    requires OwnSlot(ev) == Some(slot)
  {
    var s := SlotOrFresh(t, slot);
    match ev
    case Block(fb) =>
      if HandleBlock(t, fb).ok then Some(WithBlock(s, CheckHeader(fb).value.id)) else SlotAt(t.slots, slot)
    case Exec(out) =>
      var e := out.output.value;
      if s.status != SlotStatus.Final
      then Some(WithExecuted(WithOutput(s, e, out.status.FinalOutput?), ExecutedIds(ExecutedOps(e))))
      else if out.status.FinalOutput? && SameVerdict(s, e) && !s.completeness.execOutputFinal then Some(Settled(s, e))
      else SlotAt(t.slots, slot)
    case Transfers(_) => Some(WithTransfers(s))
  }

  /** The event inserts a stub for the slot before its own. */
  predicate Stubs(t: Tables, ev: Event) {
    match ev
    case Block(fb) => CheckHeader(fb).Some? && HandleBlock(t, fb).ok
    case Exec(out) =>
      OwnSlot(ev).Some? && out.status.FinalOutput?
      && SlotOrFresh(t, OwnSlot(ev).value).status != SlotStatus.Final
    case _ => false
  }

  function NextSlot(t: Tables, ev: Event, s: Slot): Option<SlotState> {
    var own := OwnSlot(ev);
    if own.None? then SlotAt(t.slots, s)
    else if s == own.value then OwnRow(t, ev, s)
    else if Stubs(t, ev) && own.value.period > 0 && s == Slot(own.value.period - 1, own.value.thread)
            && SlotAt(t.slots, s).None?
    then Some(FreshSlot(s))
    else SlotAt(t.slots, s)
  }

  // ---- finality is sticky -------------------------------------------------

  /** What may become of a slot row: it stays, climbs, and freezes once FINAL. */
  predicate Advances(a: Option<SlotState>, b: Option<SlotState>) {
    a.Some? ==>
      && b.Some?
      && Rank(a.value.status) <= Rank(b.value.status)
      && (a.value.completeness.blockBodyStored ==> b.value.completeness.blockBodyStored)
      && (a.value.completeness.execOutputFinal ==> b.value.completeness.execOutputFinal)
      && (a.value.completeness.execOutputCandidate ==> b.value.completeness.execOutputCandidate)
      && (a.value.completeness.transfersStored ==> b.value.completeness.transfersStored)
      && a.value.candidateBlockIds <= b.value.candidateBlockIds
      && (a.value.status == SlotStatus.Final ==>
            && b.value.isMiss == a.value.isMiss
            && b.value.finalBlockId == a.value.finalBlockId
            && (a.value.trailHash.Some? ==> b.value.trailHash == a.value.trailHash))
  }

  lemma StepAdvances(t: Tables, a: Arrival, s: Slot)
    requires SlotsKeyed(t.slots)
    ensures Advances(SlotAt(t.slots, s), SlotAt(Step(t, a).slots, s))
  {
    hide SlotAt, Step, HandleBlock;
    StepSlotAt(t, a, s);
  }

  lemma PutSlotKeyed(slots: map<Bytes, SlotState>, row: SlotState, s: Slot)
    requires SlotsKeyed(slots)
    ensures SlotsKeyed(PutSlot(slots, row)) && SlotsKeyed(ParentStub(PutSlot(slots, row), s))
  {
    hide SlotKey;
  }

  lemma StepSlotsKeyed(t: Tables, a: Arrival)
    requires SlotsKeyed(t.slots)
    ensures SlotsKeyed(Step(t, a).slots)
  {
    hide SlotKey, SlotsKeyed, PutSlot, ParentStub, ReplaceScEvents, PutExecStatuses, PutAsyncChanges, ApplyFinality;
    hide TransferRows, PutTransfers, ReconcileAsync, ReconcileDeferred, PutEndorsements, PutDenunciations, PutOps;
    hide BlockRow, StatusFor, WithOutput, WithBlock, WithTransfers, SameVerdict, CheckHeader, DecodeEndorsements;
    hide ExecutedIds, ExecutedOps, TrailHash, SlotAt;
    match a.ev
    case Block(fb) =>
      if CheckHeader(fb).Some? {
        var h := CheckHeader(fb).value;
        PutSlotKeyed(t.slots, WithBlock(SlotOrFresh(t, h.slot), h.id), h.slot);
      }
    case Exec(out) =>
      if out.output.Some? && out.output.value.slot.Some? {
        var e := out.output.value;
        var slot := SlotFromPb(e.slot.value);
        var s := SlotOrFresh(t, slot);
        PutSlotKeyed(t.slots, WithExecuted(WithOutput(s, e, out.status.FinalOutput?), ExecutedIds(ExecutedOps(e))),
            slot);
        PutSlotKeyed(t.slots, Settled(s, e), slot);
      }
    case Transfers(resp) =>
      if resp.slot.Some? {
        PutSlotKeyed(t.slots, WithTransfers(SlotOrFresh(t, SlotFromPb(resp.slot.value))), SlotFromPb(resp.slot.value));
      }
    case Tick =>
  }

  lemma {:induction false} RunSlotsKeyed(t: Tables, trace: seq<Arrival>)
    requires SlotsKeyed(t.slots)
    ensures SlotsKeyed(Run(t, trace).slots)
    decreases |trace|
  {
    hide Step;
    if trace != [] {
      RunSlotsKeyed(t, trace[..|trace| - 1]);
      StepSlotsKeyed(Run(t, trace[..|trace| - 1]), trace[|trace| - 1]);
    }
  }

  /**
   First final wins over whole runs: after any further trace a slot row is still
   there, its status has not gone down, no completeness bit was cleared, and once
   FINAL its verdict and any set trail hash are unchanged.
   */
  lemma {:induction false} RunAdvances(t: Tables, trace: seq<Arrival>, s: Slot)
    requires SlotsKeyed(t.slots)
    ensures Advances(SlotAt(t.slots, s), SlotAt(Run(t, trace).slots, s))
    decreases |trace|
  {
    hide Step;
    if trace != [] {
      var mid := Run(t, trace[..|trace| - 1]);
      RunAdvances(t, trace[..|trace| - 1], s);
      RunSlotsKeyed(t, trace[..|trace| - 1]);
      StepAdvances(mid, trace[|trace| - 1], s);
    }
  }

  // -- operations

  predicate OpAdvances(a: Option<StoredOperation>, b: Option<StoredOperation>) {
    a.Some? ==>
      && b.Some?
      && b.value.id == a.value.id && b.value.creator == a.value.creator && b.value.target == a.value.target
      && b.value.kind == a.value.kind
      && a.value.inclusions <= b.value.inclusions
      && (a.value.finalExecStatus.Some? ==> b.value.finalExecStatus == a.value.finalExecStatus)
  }

  lemma {:induction false} PutOpsAdvances(x: Indexed<StoredOperation>, fs: seq<FilledOperation>, slot: Slot,
                                          block: Id, k: Id)
    requires Keyed(x.rows, OpKeyOf)
    ensures OpAdvances(RowAt(x, k), RowAt(PutOps(x, fs, slot, block).0, k))
    decreases |fs|
  {
    hide OpEntries;
    if fs != [] {
      match OpIdOf(fs[0])
      case None => PutOpsAdvances(x, fs[1..], slot, block, k);
      case Some(id) =>
        match FindOrNewOp(x, fs[0].operation.value, id, slot)
        case None =>
        case Some(o) =>
          PutOpsAdvances(PutOp(x, Include(o, slot, block)), fs[1..], slot, block, k);
    }
  }

  lemma {:induction false} PutExecStatusesAdvances(x: Indexed<StoredOperation>, es: seq<ExecutedOpChange>,
                                                   isFinal: bool, k: Id)
    requires Keyed(x.rows, OpKeyOf)
    ensures OpAdvances(RowAt(x, k), RowAt(PutExecStatuses(x, es, isFinal), k))
    decreases |es|
  {
    hide OpEntries;
    if es != [] {
      PutExecStatusesAdvances(PutExecStatus(x, es[0], isFinal), es[1..], isFinal, k);
    }
  }

  /** An operation's final status is written at most once and its first inclusion never moves. */
  lemma StepOpAdvances(t: Tables, a: Arrival, k: Id)
    requires Keyed(t.ops.rows, OpKeyOf)
    ensures OpAdvances(RowAt(t.ops, k), RowAt(Step(t, a).ops, k))
  {
    hide PutOps, PutExecStatuses, ReplaceScEvents, PutAsyncChanges, ApplyFinality, TransferRows, PutTransfers;
    hide ReconcileAsync, ReconcileDeferred, PutEndorsements, PutDenunciations, BlockRow, OpAdvances, ParentStub;
    hide WithOutput;
    assert OpAdvances(RowAt(t.ops, k), RowAt(t.ops, k)) by { OpAdvancesRefl(RowAt(t.ops, k)); }
    match a.ev
    case Block(fb) =>
      if CheckHeader(fb).Some? {
        PutOpsAdvances(t.ops, fb.operations, CheckHeader(fb).value.slot, CheckHeader(fb).value.id, k);
      }
    case Exec(out) =>
      if out.output.Some? { PutExecStatusesAdvances(t.ops, ExecutedOps(out.output.value), out.status.FinalOutput?, k); }
    case Transfers(resp) =>
    case Tick =>
  }

  lemma OpAdvancesRefl(o: Option<StoredOperation>)
    ensures OpAdvances(o, o)
  {}

  lemma {:induction false} RunOpAdvances(t: Tables, trace: seq<Arrival>, k: Id)
    requires Valid(t)
    ensures OpAdvances(RowAt(t.ops, k), RowAt(Run(t, trace).ops, k))
    decreases |trace|
  {
    hide Step, Exact;
    if trace != [] {
      var mid := Run(t, trace[..|trace| - 1]);
      RunOpAdvances(t, trace[..|trace| - 1], k);
      RunValid(t, trace[..|trace| - 1]);
      StepOpAdvances(mid, trace[|trace| - 1], k);
    }
  }

  // ---- blocks agree with their slots --------------------------------------

  /** A block id determines its slot; a FINAL verdict names a block of its own slot. */
  predicate Consistent(ev: Event, slotOf: Id -> Slot) {
    match ev
    case Block(fb) => CheckHeader(fb).Some? ==> slotOf(CheckHeader(fb).value.id) == CheckHeader(fb).value.slot
    case Exec(out) =>
      OwnSlot(ev).Some? && out.status.FinalOutput? && OkOf(out.output.value.blockId).Some?
      ==> slotOf(OkOf(out.output.value.blockId).value) == OwnSlot(ev).value
    case _ => true
  }

  /** Rows of a slot only speak of blocks of that slot. */
  predicate SlotIsHome(s: Slot, row: SlotState, slotOf: Id -> Slot) {
    && (forall id :: id in row.candidateBlockIds ==> slotOf(id) == s)
    && (row.finalBlockId.Some? ==> slotOf(row.finalBlockId.value) == s)
  }

  /** The status that a slot gives its block `id`. */
  predicate StatusFrom(row: Option<SlotState>, id: Id, status: BlockStatus) {
    && (status == BlockStatus.SeenCandidate <==> row.None? || row.value.status != SlotStatus.Final)
    && (status == BlockStatus.Final <==>
          row.Some? && row.value.status == SlotStatus.Final && row.value.finalBlockId == Some(id))
  }

  /** A stored block is a candidate of its slot and has the status its slot gives it. */
  predicate BlockAgrees(t: Tables, b: StoredBlock) {
    var s := SlotAt(t.slots, b.slot);
    s.Some? && b.id in s.value.candidateBlockIds && StatusFrom(s, b.id, b.status)
  }

  ghost predicate Agreement(t: Tables, slotOf: Id -> Slot) {
    && SlotsKeyed(t.slots)
    && (forall s :: SlotAt(t.slots, s).Some? ==> SlotIsHome(s, SlotAt(t.slots, s).value, slotOf))
    && (forall id :: id in t.blocks.rows ==> BlockOk(t, t.blocks.rows[id], id, slotOf))
  }

  predicate BlockOk(t: Tables, b: StoredBlock, id: Bytes, slotOf: Id -> Slot) {
    b.id == id && b.slot == slotOf(b.id) && BlockAgrees(t, b)
  }

  lemma {:induction false} VerdictsEffect(x: Indexed<StoredBlock>, winner: Option<Id>, candidates: seq<Id>)
    requires Keyed(x.rows, BlockKeyOf)
    ensures var y := PutVerdicts(x, winner, candidates);
      && Keyed(y.rows, BlockKeyOf)
      && y.rows.Keys == x.rows.Keys
      && forall id :: id in x.rows ==>
           y.rows[id] == if id in candidates then x.rows[id].(status := Verdict(winner, id)) else x.rows[id]
    decreases |candidates|
  {
    hide BlockEntries;
    if candidates != [] {
      VerdictsEffect(PutBlockStatus(x, candidates[0], Verdict(winner, candidates[0])), winner, candidates[1..]);
    }
  }

  /** Finality reaches every known candidate, and the winner even when it is not a listed one. */
  lemma FinalityEffect(x: Indexed<StoredBlock>, winner: Option<Id>, candidates: seq<Id>)
    requires Keyed(x.rows, BlockKeyOf)
    ensures var y := ApplyFinality(x, winner, candidates);
      && y.rows.Keys == x.rows.Keys
      && forall id :: id in x.rows ==>
           y.rows[id] == if winner == Some(id) then x.rows[id].(status := BlockStatus.Final)
                         else if id in candidates then x.rows[id].(status := BlockStatus.Discarded)
                         else x.rows[id]
  {
    hide BlockEntries;
    VerdictsEffect(x, winner, candidates);
  }

  /** The row a block event writes: the first sighting's slot, and the status its slot gives. */
  lemma BlockEventRow(t: Tables, fb: FilledBlock) returns (row: StoredBlock)
    requires Keyed(t.blocks.rows, BlockKeyOf)
    requires HandleBlock(t, fb).ok
    ensures HandleBlock(t, fb).tables.blocks == PutBlock(t.blocks, row)
    ensures var h := CheckHeader(fb).value;
      var initial := StatusFor(SlotOrFresh(t, h.slot), h.id);
      && row.id == h.id
      && (h.id !in t.blocks.rows ==> row.slot == h.slot && row.status == initial)
      && (h.id in t.blocks.rows ==>
            && row.slot == t.blocks.rows[h.id].slot
            && row.status == if t.blocks.rows[h.id].status == BlockStatus.SeenCandidate then initial
                             else t.blocks.rows[h.id].status)
  {
    hide SlotKey, PutSlot, ParentStub, PutEndorsements, PutDenunciations, PutOps, PutBlock, SlotAt, StatusFor;
    var h := CheckHeader(fb).value;
    row := BlockRow(RowAt(t.blocks, h.id), h, StatusFor(SlotOrFresh(t, h.slot), h.id),
                    DecodeEndorsements(h.content.endorsements, h.id, h.slot),
                    PutOps(t.ops, fb.operations, h.slot, h.id).1);
  }

  lemma BlockEventRejected(t: Tables, fb: FilledBlock)
    requires !HandleBlock(t, fb).ok
    ensures HandleBlock(t, fb).tables.blocks == t.blocks && HandleBlock(t, fb).tables.slots == t.slots
  {
    hide SlotKey, PutSlot, ParentStub, PutEndorsements, PutDenunciations, PutOps, PutBlock, SlotAt, StatusFor;
  }

  /** A block event stores its own block with the status the slot gives it; the others keep theirs. */
  lemma BlockEventAgrees(t: Tables, a: Arrival, slotOf: Id -> Slot, id: Bytes)
    requires Agreement(t, slotOf) && Consistent(a.ev, slotOf) && a.ev.Block?
    requires id in Step(t, a).blocks.rows
    ensures BlockOk(Step(t, a), Step(t, a).blocks.rows[id], id, slotOf)
  {
    hide SlotKey, SlotAt, HandleBlock, BlockEntries, StatusFrom, StatusFor, CheckHeader;
    forall s: SlotState, b: Id { StatusForIs(s, b); }
    forall s: SlotState, b: Id, b': Id, status { StatusKept(s, b, b', status); }
    StepSlotAt(t, a, Step(t, a).blocks.rows[id].slot);
    forall k | k in t.blocks.rows ensures t.blocks.rows[k].id == k { assert BlockOk(t, t.blocks.rows[k], k, slotOf); }
    if id in t.blocks.rows { assert BlockOk(t, t.blocks.rows[id], id, slotOf); }
    if HandleBlock(t, a.ev.fb).ok {
      assert CheckHeader(a.ev.fb).Some? by { BlockEventHeader(t, a.ev.fb); }
      var row := BlockEventRow(t, a.ev.fb);
    } else {
      BlockEventRejected(t, a.ev.fb);
    }
  }

  lemma StatusForIs(s: SlotState, id: Id)
    ensures StatusFrom(Some(s), id, StatusFor(s, id))
    ensures StatusFor(s, id) == BlockStatus.SeenCandidate <==> s.status != SlotStatus.Final
  {}

  /** Another candidate leaves the statuses of a slot's blocks alone. */
  lemma StatusKept(s: SlotState, id: Id, other: Id, status: BlockStatus)
    ensures StatusFrom(Some(WithBlock(s, other)), id, status) <==> StatusFrom(Some(s), id, status)
    ensures status == BlockStatus.SeenCandidate && StatusFrom(Some(s), id, status) ==> s.status != SlotStatus.Final
  {}

  lemma BlockEventHeader(t: Tables, fb: FilledBlock)
    requires HandleBlock(t, fb).ok
    ensures CheckHeader(fb).Some?
  {}

  /** The verdict a FINAL output leaves in its slot row. */
  lemma FinalityAgrees(t: Tables, slot: Slot, row: SlotState, slotOf: Id -> Slot, id: Bytes)
    requires Agreement(t, slotOf) && SlotIsHome(slot, row, slotOf)
    requires row.status == SlotStatus.Final
    requires forall c :: c in SlotOrFresh(t, slot).candidateBlockIds ==> c in row.candidateBlockIds
    requires id in t.blocks.rows
    ensures ApplyFinality(t.blocks, row.finalBlockId, row.candidateBlockIds).rows.Keys == t.blocks.rows.Keys
    ensures var b := ApplyFinality(t.blocks, row.finalBlockId, row.candidateBlockIds).rows[id];
      && b == t.blocks.rows[id].(status := b.status)
      && (b.slot == slot ==> b.id in row.candidateBlockIds && StatusFrom(Some(row), b.id, b.status))
      && (b.slot != slot ==> b == t.blocks.rows[id])
  {
    hide SlotKey, ApplyFinality;
    forall k | k in t.blocks.rows ensures t.blocks.rows[k].id == k { assert BlockOk(t, t.blocks.rows[k], k, slotOf); }
    FinalityEffect(t.blocks, row.finalBlockId, row.candidateBlockIds);
  }

  lemma ExecEventBlocks(t: Tables, out: SlotExecutionOutput, now: int)
    requires SlotsKeyed(t.slots)
    ensures var own := OwnSlot(Exec(out));
      HandleExec(t, out, now).tables.blocks ==
      if own.None? || !out.status.FinalOutput? then t.blocks
      else
        var s := SlotOrFresh(t, own.value);
        var e := out.output.value;
        var s1 := WithOutput(s, e, true);
        if s.status != SlotStatus.Final then ApplyFinality(t.blocks, s1.finalBlockId, s1.candidateBlockIds)
        else if SameVerdict(s, e) && !s.completeness.execOutputFinal
        then ApplyFinality(t.blocks, s.finalBlockId, s.candidateBlockIds)
        else t.blocks
  {
    hide SlotKey, SlotAt, PutSlot, ParentStub, ReplaceScEvents, PutExecStatuses, PutAsyncChanges, ApplyFinality;
  }

  /** What an execution output leaves of a slot, as far as block statuses depend on it. */
  lemma ExecSlotView(t: Tables, a: Arrival, s: Slot)
    requires SlotsKeyed(t.slots) && a.ev.Exec?
    ensures var after := SlotAt(Step(t, a).slots, s);
      if OwnSlot(a.ev) == Some(s) && a.ev.out.status.FinalOutput? then
        var b := SlotOrFresh(t, s);
        var row := if b.status != SlotStatus.Final then WithOutput(b, a.ev.out.output.value, true) else b;
        && after.Some? && after.value.status == SlotStatus.Final
        && after.value.finalBlockId == row.finalBlockId && after.value.candidateBlockIds == row.candidateBlockIds
      else
        SlotAt(t.slots, s).Some? ==>
          && after.Some? && after.value.finalBlockId == SlotAt(t.slots, s).value.finalBlockId
          && after.value.candidateBlockIds == SlotAt(t.slots, s).value.candidateBlockIds
          && (after.value.status == SlotStatus.Final <==> SlotAt(t.slots, s).value.status == SlotStatus.Final)
  {
    hide SlotKey, SlotAt, HandleExec, ExecutedIds, ExecutedOps, TrailHash, SameVerdict;
    StepSlotAt(t, a, s);
  }

  /** The slot row as a FINAL output leaves it, as far as block statuses depend on it. */
  function FinalRow(t: Tables, slot: Slot, e: ExecutionOutput): SlotState {
    var s := SlotOrFresh(t, slot);
    if s.status != SlotStatus.Final then WithOutput(s, e, true) else s
  }

  lemma FinalRowIsHome(t: Tables, slot: Slot, ev: Event, slotOf: Id -> Slot)
    requires Agreement(t, slotOf) && Consistent(ev, slotOf) && ev.Exec?
    requires OwnSlot(ev) == Some(slot) && ev.out.status.FinalOutput?
    ensures var row := FinalRow(t, slot, ev.out.output.value);
      && SlotIsHome(slot, row, slotOf) && row.status == SlotStatus.Final
      && forall c :: c in SlotOrFresh(t, slot).candidateBlockIds ==> c in row.candidateBlockIds
  {
    hide SlotKey, SlotAt, BlockOk, TrailHash;
    SlotOrFreshSlot(t, slot);
    assert SlotIsHome(slot, SlotOrFresh(t, slot), slotOf);
  }

  /** A FINAL output for its own slot: the blocks it moves and those it leaves. */
  lemma FinalEventAgrees(t: Tables, a: Arrival, slot: Slot, slotOf: Id -> Slot, id: Bytes)
    requires Agreement(t, slotOf) && Consistent(a.ev, slotOf) && a.ev.Exec?
    requires OwnSlot(a.ev) == Some(slot) && a.ev.out.status.FinalOutput?
    requires id in Step(t, a).blocks.rows
    ensures BlockOk(Step(t, a), Step(t, a).blocks.rows[id], id, slotOf)
  {
    hide SlotKey, SlotAt, HandleExec, ApplyFinality, SameVerdict, ExecutedIds, ExecutedOps, TrailHash, WithOutput;
    hide SlotIsHome, Consistent;
    var row := FinalRow(t, slot, a.ev.out.output.value);
    FinalRowIsHome(t, slot, a.ev, slotOf);
    BlocksKeyed(t, slotOf);
    FinalityEffect(t.blocks, row.finalBlockId, row.candidateBlockIds);
    ExecEventBlocks(t, a.ev.out, a.now);
    assert id in t.blocks.rows;
    FinalityAgrees(t, slot, row, slotOf, id);
    assert BlockOk(t, t.blocks.rows[id], id, slotOf);
    ExecSlotView(t, a, t.blocks.rows[id].slot);
  }

  lemma BlocksKeyed(t: Tables, slotOf: Id -> Slot)
    requires Agreement(t, slotOf)
    ensures Keyed(t.blocks.rows, BlockKeyOf)
  {
    forall k | k in t.blocks.rows ensures t.blocks.rows[k].id == k { assert BlockOk(t, t.blocks.rows[k], k, slotOf); }
  }

  lemma ExecEventAgrees(t: Tables, a: Arrival, slotOf: Id -> Slot, id: Bytes)
    requires Agreement(t, slotOf) && Consistent(a.ev, slotOf) && a.ev.Exec?
    requires id in Step(t, a).blocks.rows
    ensures BlockOk(Step(t, a), Step(t, a).blocks.rows[id], id, slotOf)
  {
    hide SlotKey, SlotAt, HandleExec, ApplyFinality, WithOutput, SameVerdict;
    if OwnSlot(a.ev).Some? && a.ev.out.status.FinalOutput? {
      FinalEventAgrees(t, a, OwnSlot(a.ev).value, slotOf, id);
    } else {
      ExecEventBlocks(t, a.ev.out, a.now);
      assert BlockOk(t, t.blocks.rows[id], id, slotOf);
      ExecSlotView(t, a, t.blocks.rows[id].slot);
    }
  }

  lemma TransfersEventAgrees(t: Tables, a: Arrival, slotOf: Id -> Slot, id: Bytes)
    requires Agreement(t, slotOf) && (a.ev.Transfers? || a.ev.Tick?)
    requires id in Step(t, a).blocks.rows
    ensures BlockOk(Step(t, a), Step(t, a).blocks.rows[id], id, slotOf)
  {
    hide SlotKey, SlotAt, PutSlot, TransferRows, PutTransfers, ReconcileAsync, ReconcileDeferred;
    StepSlotAt(t, a, Step(t, a).blocks.rows[id].slot);
    assert BlockOk(t, t.blocks.rows[id], id, slotOf);
  }

  lemma StepSlotIsHome(t: Tables, a: Arrival, slotOf: Id -> Slot, s: Slot)
    requires Agreement(t, slotOf) && Consistent(a.ev, slotOf)
    requires SlotAt(Step(t, a).slots, s).Some?
    ensures SlotIsHome(s, SlotAt(Step(t, a).slots, s).value, slotOf)
  {
    hide SlotKey, SlotAt, Step, HandleBlock;
    StepSlotAt(t, a, s);
    if SlotAt(t.slots, s).Some? { assert SlotIsHome(s, SlotAt(t.slots, s).value, slotOf); }
    if OwnSlot(a.ev) == Some(s) { assert SlotIsHome(s, SlotOrFresh(t, s), slotOf); }
  }

  lemma StepAgreement(t: Tables, a: Arrival, slotOf: Id -> Slot)
    requires Agreement(t, slotOf) && Consistent(a.ev, slotOf)
    ensures Agreement(Step(t, a), slotOf)
  {
    hide Step, SlotIsHome, BlockOk, SlotsKeyed;
    StepSlotsKeyed(t, a);
    forall s | SlotAt(Step(t, a).slots, s).Some? ensures SlotIsHome(s, SlotAt(Step(t, a).slots, s).value, slotOf) {
      StepSlotIsHome(t, a, slotOf, s);
    }
    forall id | id in Step(t, a).blocks.rows ensures BlockOk(Step(t, a), Step(t, a).blocks.rows[id], id, slotOf) {
      match a.ev
      case Block(_) => BlockEventAgrees(t, a, slotOf, id);
      case Exec(_) => ExecEventAgrees(t, a, slotOf, id);
      case _ => TransfersEventAgrees(t, a, slotOf, id);
    }
  }

  ghost predicate AllConsistent(trace: seq<Arrival>, slotOf: Id -> Slot) {
    forall a :: a in trace ==> Consistent(a.ev, slotOf)
  }

  /**
   Whichever of block and exec came first: every stored block is a candidate of
   its slot and is SeenCandidate, Final or Discarded exactly as the slot says.
   */
  lemma {:induction false} RunAgreement(t: Tables, trace: seq<Arrival>, slotOf: Id -> Slot)
    requires Agreement(t, slotOf) && AllConsistent(trace, slotOf)
    ensures Agreement(Run(t, trace), slotOf)
    decreases |trace|
  {
    hide Step, Agreement, Consistent;
    if trace != [] {
      RunAgreement(t, trace[..|trace| - 1], slotOf);
      StepAgreement(Run(t, trace[..|trace| - 1]), trace[|trace| - 1], slotOf);
    }
  }

  /** The lazy status check of the block page: the row to show, and the store after it. */
  function ResolveBlockStatus(t: Tables, b: StoredBlock): (StoredBlock, Tables) {
    var s := SlotAt(t.slots, b.slot);
    if b.status != BlockStatus.SeenCandidate || s.None? || s.value.status != SlotStatus.Final then (b, t)
    else
      var b' := b.(status := StatusFor(s.value, b.id));
      (b', t.(blocks := PutBlock(t.blocks, b')))
  }

  /** The lazy status check never has anything to repair. */
  lemma ResolveIsIdle(trace: seq<Arrival>, slotOf: Id -> Slot, id: Id)
    requires AllConsistent(trace, slotOf)
    requires id in Run(EMPTY_TABLES, trace).blocks.rows
    ensures var t := Run(EMPTY_TABLES, trace); ResolveBlockStatus(t, t.blocks.rows[id]) == (t.blocks.rows[id], t)
  {
    RunAgreement(EMPTY_TABLES, trace, slotOf);
    var t := Run(EMPTY_TABLES, trace);
    assert BlockOk(t, t.blocks.rows[id], id, slotOf);
  }
}
