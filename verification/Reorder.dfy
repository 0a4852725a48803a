/**
 Reorder-safety: with at most one FINAL verdict per slot, what the store says of
 slots and blocks is a function of the set of events.
 */
module Reorder {
  import opened ByteStrings
  import opened Ids
  import opened Keys
  import opened Model
  import opened Store
  import opened IngestSpec
  import opened IndexRuns
  import opened SlotRuns
  import opened BlockOutcomes

  // ---- the projection -----------------------------------------------------

  datatype SlotView =
    | Absent
    | Present(status: SlotStatus, isMiss: bool, winner: Option<Id>, candidates: set<Id>,
              bodyStored: bool, execFinal: bool, transfersStored: bool)

  function ViewOf(s: Option<SlotState>): SlotView {
    match s
    case None => Absent
    case Some(r) =>
      Present(r.status, r.isMiss, r.finalBlockId, (set id | id in r.candidateBlockIds),
              r.completeness.blockBodyStored, r.completeness.execOutputFinal, r.completeness.transfersStored)
  }

  function BlockView(t: Tables, id: Id): Option<BlockStatus> {
    if id in t.blocks.rows then Some(t.blocks.rows[id].status) else None
  }

  /** The two stores say the same of every slot and every block. */
  ghost predicate Agree(t: Tables, t': Tables) {
    && (forall s :: ViewOf(SlotAt(t.slots, s)) == ViewOf(SlotAt(t'.slots, s)))
    && (forall id :: BlockView(t, id) == BlockView(t', id))
  }

  // ---- what a set of events calls for -------------------------------------

  datatype Kind = AddsBlock | Finalizes | Proposes | AddsTransfers | AddsStub

  predicate IsStoredBlock(ev: Event) { ev.Block? && Acceptable(ev.fb) && SelfFed(ev.fb) }
  predicate IsFinalOutput(ev: Event) { ev.Exec? && ev.out.status.FinalOutput? }
  predicate IsCandidateOutput(ev: Event) { ev.Exec? && ev.out.status.CandidateOutput? }

  /** The previous slot of the thread. */
  predicate IsParent(s: Slot, own: Slot) {
    own.period > 0 && s == Slot(own.period - 1, own.thread)
  }

  /** Event `ev` does a thing of kind `k` to slot `s`. */
  predicate Does(ev: Event, k: Kind, s: Slot) {
    match k
    case AddsBlock => IsStoredBlock(ev) && OwnSlot(ev) == Some(s)
    case Finalizes => IsFinalOutput(ev) && OwnSlot(ev) == Some(s)
    case Proposes => IsCandidateOutput(ev) && OwnSlot(ev) == Some(s)
    case AddsTransfers => ev.Transfers? && OwnSlot(ev) == Some(s)
    case AddsStub => (IsStoredBlock(ev) || IsFinalOutput(ev)) && OwnSlot(ev).Some? && IsParent(s, OwnSlot(ev).value)
  }

  ghost predicate Done(events: set<Event>, k: Kind, s: Slot) {
    exists ev :: ev in events && Does(ev, k, s)
  }

  function BlockIdOf(ev: Event): Id
    requires ev.Block? && CheckHeader(ev.fb).Some?
  {
    CheckHeader(ev.fb).value.id
  }

  predicate StoresId(ev: Event, s: Slot, id: Id) {
    Does(ev, AddsBlock, s) && BlockIdOf(ev) == id
  }

  ghost predicate Stored(events: set<Event>, s: Slot, id: Id) {
    exists ev :: ev in events && StoresId(ev, s, id)
  }

  function IsMissVerdict(ev: Event): bool
    requires ev.Exec? && OwnSlot(ev).Some?
  {
    ev.out.output.value.blockId.None?
  }

  function WinnerVerdict(ev: Event): Option<Id>
    requires ev.Exec? && OwnSlot(ev).Some?
  {
    OkOf(ev.out.output.value.blockId)
  }

  ghost predicate OneVerdict(events: set<Event>) {
    forall e, f, s :: e in events && f in events && Does(e, Finalizes, s) && Does(f, Finalizes, s)
      ==> IsMissVerdict(e) == IsMissVerdict(f) && WinnerVerdict(e) == WinnerVerdict(f)
  }

  ghost predicate Touched(events: set<Event>, s: Slot) {
    exists k :: Done(events, k, s)
  }

  /** The slot row that a set of events calls for. */
  ghost function ExpectedSlot(events: set<Event>, s: Slot): SlotView {
    if !Touched(events, s) then Absent
    else
      var finals := set ev | ev in events && Does(ev, Finalizes, s);
      var candidates := set ev | ev in events && Does(ev, AddsBlock, s) :: BlockIdOf(ev);
      var hasBody := Done(events, AddsBlock, s);
      var transfers := Done(events, AddsTransfers, s);
      if finals != {} then
        var f :| f in finals;
        Present(SlotStatus.Final, IsMissVerdict(f), WinnerVerdict(f), candidates, hasBody, true, transfers)
      else
        var status := if hasBody || Done(events, Proposes, s) then SlotStatus.Candidate else SlotStatus.Unknown;
        Present(status, false, None, candidates, hasBody, false, transfers)
  }

  /** The status that a set of events calls for on a block. */
  ghost function ExpectedBlock(events: set<Event>, slotOf: Id -> Slot, id: Id): Option<BlockStatus> {
    if !Stored(events, slotOf(id), id) then None
    else
      var s := ExpectedSlot(events, slotOf(id));
      if s.Absent? || s.status != SlotStatus.Final then Some(BlockStatus.SeenCandidate)
      else Some(if s.winner == Some(id) then BlockStatus.Final else BlockStatus.Discarded)
  }

  // ---- a view that meets the expectation ----------------------------------

  /** `ExpectedSlot`, condition by condition. */
  ghost predicate Meets(v: SlotView, events: set<Event>, s: Slot) {
    && (v.Absent? <==> !Touched(events, s))
    && (v.Present? ==>
          && (v.bodyStored <==> Done(events, AddsBlock, s))
          && (v.execFinal <==> Done(events, Finalizes, s))
          && (v.transfersStored <==> Done(events, AddsTransfers, s))
          && v.status == (if v.execFinal then SlotStatus.Final
                          else if v.bodyStored || Done(events, Proposes, s) then SlotStatus.Candidate
                          else SlotStatus.Unknown)
          && (forall ev :: ev in events && Does(ev, Finalizes, s)
                ==> v.isMiss == IsMissVerdict(ev) && v.winner == WinnerVerdict(ev))
          && (!v.execFinal ==> !v.isMiss && v.winner == None)
          && (forall id: Id :: id in v.candidates <==> Stored(events, s, id)))
  }

  lemma MeetsIsExpected(v: SlotView, events: set<Event>, s: Slot)
    requires Meets(v, events, s)
    ensures v == ExpectedSlot(events, s)
  {
    hide OwnSlot, BlockIdOf, CheckHeader;
    if v.Present? {
      var finals := set ev | ev in events && Does(ev, Finalizes, s);
      var candidates := set ev | ev in events && Does(ev, AddsBlock, s) :: BlockIdOf(ev);
      forall id: Id ensures id in v.candidates <==> id in candidates {
        if Stored(events, s, id) { var ev :| ev in events && StoresId(ev, s, id); }
        if id in candidates {
          var ev :| ev in events && Does(ev, AddsBlock, s) && BlockIdOf(ev) == id;
          assert StoresId(ev, s, id);
        }
      }
      assert v.candidates == candidates;
      if Done(events, Finalizes, s) {
        var ev :| ev in events && Does(ev, Finalizes, s);
        assert ev in finals;
      } else {
        assert finals == {};
      }
    }
  }

  // ---- one more event -----------------------------------------------------

  lemma DoneAdds(events: set<Event>, ev: Event, k: Kind, s: Slot)
    ensures Done(events + {ev}, k, s) <==> Done(events, k, s) || Does(ev, k, s)
  {
    hide Does;
    if Done(events + {ev}, k, s) { var e :| e in events + {ev} && Does(e, k, s); }
    if Done(events, k, s) { var e :| e in events && Does(e, k, s); assert e in events + {ev}; }
    if Does(ev, k, s) { assert ev in events + {ev}; }
  }

  lemma StoredAdds(events: set<Event>, ev: Event, s: Slot, id: Id)
    ensures Stored(events + {ev}, s, id) <==> Stored(events, s, id) || StoresId(ev, s, id)
  {
    hide StoresId;
    if Stored(events + {ev}, s, id) { var e :| e in events + {ev} && StoresId(e, s, id); }
    if Stored(events, s, id) { var e :| e in events && StoresId(e, s, id); assert e in events + {ev}; }
    if StoresId(ev, s, id) { assert ev in events + {ev}; }
  }

  lemma TouchedAdds(events: set<Event>, ev: Event, s: Slot)
    ensures Touched(events + {ev}, s) <==> Touched(events, s) || exists k :: Does(ev, k, s)
  {
    hide Does, Done;
    forall k { DoneAdds(events, ev, k, s); }
    if Touched(events + {ev}, s) { var k :| Done(events + {ev}, k, s); }
    if Touched(events, s) { var k :| Done(events, k, s); assert Done(events + {ev}, k, s); }
    if exists k :: Does(ev, k, s) { var k :| Does(ev, k, s); assert Done(events + {ev}, k, s); }
  }

  // ---- the handlers meet the expectation ----------------------------------

  /** The store takes the event's block exactly when the block is acceptable and feeds itself. */
  predicate AsExpected(t: Tables, ev: Event) {
    ev.Block? ==> (HandleBlock(t, ev.fb).ok <==> IsStoredBlock(ev))
  }

  /** An event leaves the expectation of every slot it does nothing to. */
  lemma MeetsElsewhere(v: SlotView, events: set<Event>, ev: Event, s: Slot)
    requires Meets(v, events, s)
    requires forall k :: !Does(ev, k, s)
    ensures Meets(v, events + {ev}, s)
  {
    hide Does, BlockIdOf, IsMissVerdict, WinnerVerdict;
    forall k { DoneAdds(events, ev, k, s); }
    TouchedAdds(events, ev, s);
    forall id { StoredAdds(events, ev, s, id); }
  }

  /** What the two sides of one more event amount to at the event's own slot. */
  lemma OwnSlotAdds(events: set<Event>, ev: Event, s: Slot)
    requires OwnSlot(ev) == Some(s)
    ensures Touched(events + {ev}, s) <==> Touched(events, s) || IsStoredBlock(ev) || IsFinalOutput(ev)
                                           || IsCandidateOutput(ev) || ev.Transfers?
    ensures Done(events + {ev}, AddsBlock, s) <==> Done(events, AddsBlock, s) || IsStoredBlock(ev)
    ensures Done(events + {ev}, Finalizes, s) <==> Done(events, Finalizes, s) || IsFinalOutput(ev)
    ensures Done(events + {ev}, Proposes, s) <==> Done(events, Proposes, s) || IsCandidateOutput(ev)
    ensures Done(events + {ev}, AddsTransfers, s) <==> Done(events, AddsTransfers, s) || ev.Transfers?
    ensures forall id: Id :: Stored(events + {ev}, s, id) <==>
              Stored(events, s, id) || (IsStoredBlock(ev) && BlockIdOf(ev) == id)
  {
    hide Done, Touched, Stored, OwnSlot, CheckHeader;
    forall k { DoneAdds(events, ev, k, s); }
    TouchedAdds(events, ev, s);
    forall id: Id ensures Stored(events + {ev}, s, id) <==>
        Stored(events, s, id) || (IsStoredBlock(ev) && BlockIdOf(ev) == id)
    {
      StoredAdds(events, ev, s, id);
    }
    assert Does(ev, AddsBlock, s) <==> IsStoredBlock(ev);
    assert Does(ev, Finalizes, s) <==> IsFinalOutput(ev);
    assert Does(ev, Proposes, s) <==> IsCandidateOutput(ev);
    assert Does(ev, AddsTransfers, s) <==> ev.Transfers?;
  }

  lemma BlockMeets(v: Option<SlotState>, events: set<Event>, ev: Event, s: Slot)
    requires Meets(ViewOf(v), events, s)
    requires IsStoredBlock(ev) && OwnSlot(ev) == Some(s)
    ensures Meets(ViewOf(Some(WithBlock(if v.Some? then v.value else FreshSlot(s), BlockIdOf(ev)))), events + {ev}, s)
  {
    hide Touched, Stored, OwnSlot, CheckHeader, Acceptable;
    OwnSlotAdds(events, ev, s);
    if v.None? { UntouchedMeans(events, s); }
  }

  lemma UntouchedMeans(events: set<Event>, s: Slot)
    requires !Touched(events, s)
    ensures forall k :: !Done(events, k, s)
    ensures forall id :: !Stored(events, s, id)
  {
    forall id ensures !Stored(events, s, id) {
      if Stored(events, s, id) { assert Done(events, AddsBlock, s); }
    }
  }

  lemma ExecMeets(v: Option<SlotState>, events: set<Event>, ev: Event, s: Slot, ids: seq<Id>)
    requires Meets(ViewOf(v), events, s) && OneVerdict(events + {ev})
    requires ev.Exec? && OwnSlot(ev) == Some(s)
    requires v.Some? ==> v.value.status != SlotStatus.Final
    ensures var before := if v.Some? then v.value else FreshSlot(s);
      var row := WithOutput(before, ev.out.output.value, ev.out.status.FinalOutput?);
      Meets(ViewOf(Some(WithExecuted(row, ids))), events + {ev}, s)
  {
    hide Touched, Stored;
    OwnSlotAdds(events, ev, s);
    if v.None? { UntouchedMeans(events, s); }
  }

  /** A slot that is FINAL already holds the one verdict there is. */
  lemma ExecAfterFinalMeets(v: Option<SlotState>, events: set<Event>, ev: Event, s: Slot)
    requires Meets(ViewOf(v), events, s) && OneVerdict(events + {ev})
    requires ev.Exec? && OwnSlot(ev) == Some(s)
    requires v.Some? && v.value.status == SlotStatus.Final
    ensures Meets(ViewOf(v), events + {ev}, s)
  {
    hide Touched, Stored;
    OwnSlotAdds(events, ev, s);
  }

  lemma TransfersMeets(v: Option<SlotState>, events: set<Event>, ev: Event, s: Slot)
    requires Meets(ViewOf(v), events, s)
    requires ev.Transfers? && OwnSlot(ev) == Some(s)
    ensures Meets(ViewOf(Some(WithTransfers(if v.Some? then v.value else FreshSlot(s)))), events + {ev}, s)
  {
    hide Touched, Stored, OwnSlot;
    OwnSlotAdds(events, ev, s);
    if v.None? { UntouchedMeans(events, s); }
  }

  lemma OwnSlotMeets(t: Tables, ev: Event, events: set<Event>, s: Slot)
    requires AsExpected(t, ev) && OneVerdict(events + {ev})
    requires Meets(ViewOf(SlotAt(t.slots, s)), events, s)
    requires OwnSlot(ev) == Some(s)
    ensures Meets(ViewOf(OwnRow(t, ev, s)), events + {ev}, s)
  {
    hide SlotAt, HandleBlock, Touched, Done, Stored, OneVerdict, SameVerdict, WithBlock, WithOutput, WithTransfers;
    hide WithExecuted;
    var v := SlotAt(t.slots, s);
    match ev
    case Block(fb) =>
      if IsStoredBlock(ev) { BlockMeets(v, events, ev, s); } else { MeetsElsewhere(ViewOf(v), events, ev, s); }
    case Exec(out) =>
      if SlotOrFresh(t, s).status != SlotStatus.Final {
        ExecMeets(v, events, ev, s, ExecutedIds(ExecutedOps(out.output.value)));
      } else {
        ExecAfterFinalMeets(v, events, ev, s);
      }
    case Transfers(_) => TransfersMeets(v, events, ev, s);
  }

  lemma FinalTouchesParent(events: set<Event>, own: Slot, s: Slot)
    requires Done(events, Finalizes, own) && IsParent(s, own)
    ensures Touched(events, s)
  {
    var ev :| ev in events && Does(ev, Finalizes, own);
    assert Does(ev, AddsStub, s);
    assert Done(events, AddsStub, s);
  }

  /** A fresh row meets the expectation of a slot that is only stubbed. */
  lemma StubMeets(v: SlotView, events: set<Event>, ev: Event, s: Slot)
    requires Meets(v, events, s) && Does(ev, AddsStub, s)
    ensures v.Absent? ==> Meets(ViewOf(Some(FreshSlot(s))), events + {ev}, s)
    ensures v.Present? ==> Meets(v, events + {ev}, s)
  {
    hide Acceptable, CheckHeader;
    assert forall k :: k != AddsStub ==> !Does(ev, k, s);
    forall k { DoneAdds(events, ev, k, s); }
    TouchedAdds(events, ev, s);
    forall id: Id ensures Stored(events + {ev}, s, id) <==> Stored(events, s, id) { StoredAdds(events, ev, s, id); }
    if v.Absent? { UntouchedMeans(events, s); }
  }

  /** The slot before the event's own gets a row if it had none. */
  lemma ParentMeets(t: Tables, ev: Event, events: set<Event>, s: Slot)
    requires AsExpected(t, ev) && OwnSlot(ev).Some? && IsParent(s, OwnSlot(ev).value)
    requires Meets(ViewOf(SlotAt(t.slots, s)), events, s)
    requires Meets(ViewOf(SlotAt(t.slots, OwnSlot(ev).value)), events, OwnSlot(ev).value)
    ensures Meets(ViewOf(NextSlot(t, ev, s)), events + {ev}, s)
  {
    hide SlotAt, HandleBlock, CheckHeader, Acceptable, OwnRow, Meets;
    var own := OwnSlot(ev).value;
    var v := SlotAt(t.slots, s);
    if Does(ev, AddsStub, s) {
      StubMeets(ViewOf(v), events, ev, s);
      if v.None? && ev.Exec? && SlotOrFresh(t, own).status == SlotStatus.Final {
        FinalView(SlotAt(t.slots, own), v, events, own, s);
        FinalTouchesParent(events, own, s);
      }
    } else {
      assert IsParent(s, own) && s != own;
      assert forall k :: !Does(ev, k, s);
      MeetsElsewhere(ViewOf(v), events, ev, s);
    }
  }

  lemma FinalView(o: Option<SlotState>, v: Option<SlotState>, events: set<Event>, own: Slot, s: Slot)
    requires Meets(ViewOf(o), events, own) && Meets(ViewOf(v), events, s)
    requires o.Some? && o.value.status == SlotStatus.Final && v.None?
    ensures Done(events, Finalizes, own) && !Touched(events, s)
  {}

  ghost predicate AllMeet(t: Tables, events: set<Event>) {
    forall s :: Meets(ViewOf(SlotAt(t.slots, s)), events, s)
  }

  lemma StepMeets(t: Tables, a: Arrival, events: set<Event>)
    requires SlotsKeyed(t.slots) && AllMeet(t, events)
    requires AsExpected(t, a.ev) && OneVerdict(events + {a.ev})
    ensures AllMeet(Step(t, a), events + {a.ev})
  {
    hide Step, SlotAt, OwnSlot, OwnRow, Meets, Stubs, AsExpected, OneVerdict, SlotsKeyed;
    forall s ensures Meets(ViewOf(SlotAt(Step(t, a).slots, s)), events + {a.ev}, s) {
      StepSlotAt(t, a, s);
      if OwnSlot(a.ev) == Some(s) {
        OwnSlotMeets(t, a.ev, events, s);
      } else if OwnSlot(a.ev).Some? && IsParent(s, OwnSlot(a.ev).value) {
        ParentMeets(t, a.ev, events, s);
      } else {
        MeetsElsewhere(ViewOf(SlotAt(t.slots, s)), events, a.ev, s);
      }
    }
  }

  // ---- whole runs ---------------------------------------------------------

  function EventsOf(trace: seq<Arrival>): set<Event> {
    set a | a in trace :: a.ev
  }

  /** Some of the acceptable blocks among the events, in some order, bring the operations that `fb` lacks. */
  ghost predicate Feedable(events: set<Event>, fb: FilledBlock) {
    exists blocks: seq<FilledBlock> :: AllAmong(blocks, events) && Fed(Supply(blocks), fb.operations)
  }

  ghost predicate AllAmong(blocks: seq<FilledBlock>, events: set<Event>) {
    forall b :: b in blocks ==> Acceptable(b) && Block(b) in events
  }

  /** Each acceptable block feeds itself, or the events cannot feed it in any order. */
  ghost predicate NoLateFeeding(events: set<Event>) {
    forall ev :: ev in events && ev.Block? && Acceptable(ev.fb) ==> SelfFed(ev.fb) || !Feedable(events, ev.fb)
  }

  /** The hypotheses under which arrival order is immaterial. */
  ghost predicate Regular(trace: seq<Arrival>, slotOf: Id -> Slot) {
    && AllConsistent(trace, slotOf)
    && NoLateFeeding(EventsOf(trace))
    && OneVerdict(EventsOf(trace))
  }

  /** The acceptable blocks of a trace, in order of arrival. */
  function BlocksOf(trace: seq<Arrival>): seq<FilledBlock> {
    if trace == [] then []
    else
      var last := trace[|trace| - 1].ev;
      BlocksOf(trace[..|trace| - 1]) + (if last.Block? && Acceptable(last.fb) then [last.fb] else [])
  }

  lemma {:induction false} BlocksAreAmong(trace: seq<Arrival>)
    ensures AllAmong(BlocksOf(trace), EventsOf(trace))
    decreases |trace|
  {
    hide Acceptable;
    if trace != [] {
      EventsSplit(trace);
      BlocksAreAmong(trace[..|trace| - 1]);
    }
  }

  lemma {:induction false} StatusesKeepKeys(x: Indexed<StoredOperation>, es: seq<ExecutedOpChange>, isFinal: bool)
    requires Keyed(x.rows, OpKeyOf)
    ensures PutExecStatuses(x, es, isFinal).rows.Keys == x.rows.Keys
    decreases |es|
  {
    hide OpEntries;
    if es != [] { StatusesKeepKeys(PutExecStatus(x, es[0], isFinal), es[1..], isFinal); }
  }

  /** What an event adds to the operations known. */
  lemma StepKnows(t: Tables, a: Arrival)
    requires Keyed(t.ops.rows, OpKeyOf)
    ensures Step(t, a).ops.rows.Keys == t.ops.rows.Keys
      + if a.ev.Block? && Acceptable(a.ev.fb) then Ingested(t.ops.rows.Keys, a.ev.fb.operations) else {}
  {
    hide HandleBlock, PutExecStatuses, ReplaceScEvents, PutAsyncChanges, ApplyFinality, TransferRows, PutTransfers;
    hide ReconcileAsync, ReconcileDeferred, ParentStub, WithOutput, SameVerdict, Acceptable, Ingested;
    match a.ev
    case Block(fb) => BlockOutcome(t, fb);
    case Exec(out) =>
      if out.output.Some? {
        StatusesKeepKeys(t.ops, ExecutedOps(out.output.value), out.status.FinalOutput?);
        StatusesKeepKeys(t.ops, ExecutedOps(out.output.value), true);
      }
    case Transfers(resp) =>
    case Tick =>
  }

  /** After a run the operations known are what its acceptable blocks supply. */
  lemma {:induction false} RunKnows(trace: seq<Arrival>)
    ensures Run(EMPTY_TABLES, trace).ops.rows.Keys == Supply(BlocksOf(trace))
    decreases |trace|
  {
    hide Step, Acceptable, Exact, Ingested;
    if trace != [] {
      var front, last := trace[..|trace| - 1], trace[|trace| - 1];
      RunKnows(front);
      EmptyValid();
      RunValid(EMPTY_TABLES, front);
      StepKnows(Run(EMPTY_TABLES, front), last);
      var blocks := BlocksOf(trace);
      if last.ev.Block? && Acceptable(last.ev.fb) {
        assert blocks[..|blocks| - 1] == BlocksOf(front);
      } else {
        assert blocks == BlocksOf(front);
      }
    }
  }

  /** Every event of the trace meets the store it expects. */
  ghost predicate AllExpected(trace: seq<Arrival>) {
    forall i :: 0 <= i < |trace| ==> AsExpected(Run(EMPTY_TABLES, trace[..i]), trace[i].ev)
  }

  /** What a prefix of the trace feeds, its events can feed. */
  lemma FedMeansFeedable(trace: seq<Arrival>, i: nat, fb: FilledBlock)
    requires i <= |trace| && Fed(Run(EMPTY_TABLES, trace[..i]).ops.rows.Keys, fb.operations)
    ensures Feedable(EventsOf(trace), fb)
  {
    hide Acceptable, Fed, Run, Supply;
    RunKnows(trace[..i]);
    BlocksAreAmong(trace[..i]);
    forall a | a in trace[..i] ensures a.ev in EventsOf(trace) { assert a in trace; }
    assert AllAmong(BlocksOf(trace[..i]), EventsOf(trace));
  }

  /** Without late feeding a block is taken by the store it meets exactly when it is acceptable and feeds itself. */
  lemma ExpectedIfNotLate(trace: seq<Arrival>)
    requires NoLateFeeding(EventsOf(trace))
    ensures AllExpected(trace)
  {
    hide HandleBlock, Acceptable, Fed, Run, Exact;
    forall i | 0 <= i < |trace| ensures AsExpected(Run(EMPTY_TABLES, trace[..i]), trace[i].ev) {
      var t := Run(EMPTY_TABLES, trace[..i]);
      EmptyValid();
      RunValid(EMPTY_TABLES, trace[..i]);
      if trace[i].ev.Block? {
        var fb := trace[i].ev.fb;
        BlockOutcome(t, fb);
        assert trace[i].ev in EventsOf(trace) by { assert trace[i] in trace; }
        if Acceptable(fb) {
          if SelfFed(fb) { FedByMore({}, t.ops.rows.Keys, fb.operations); }
          if Fed(t.ops.rows.Keys, fb.operations) { FedMeansFeedable(trace, i, fb); }
        }
      }
    }
  }

  lemma ExpectedFront(trace: seq<Arrival>)
    requires trace != [] && AllExpected(trace)
    ensures AllExpected(trace[..|trace| - 1])
    ensures AsExpected(Run(EMPTY_TABLES, trace[..|trace| - 1]), trace[|trace| - 1].ev)
  {
    hide AsExpected;
    var front := trace[..|trace| - 1];
    forall i | 0 <= i < |front| ensures AsExpected(Run(EMPTY_TABLES, front[..i]), front[i].ev) {
      assert front[..i] == trace[..i];
    }
  }

  lemma EventsSplit(trace: seq<Arrival>)
    requires trace != []
    ensures EventsOf(trace) == EventsOf(trace[..|trace| - 1]) + {trace[|trace| - 1].ev}
  {
    assert trace == trace[..|trace| - 1] + [trace[|trace| - 1]];
  }

  lemma {:induction false} RunMeets(trace: seq<Arrival>)
    requires AllExpected(trace) && OneVerdict(EventsOf(trace))
    ensures AllMeet(Run(EMPTY_TABLES, trace), EventsOf(trace))
    decreases |trace|
  {
    hide Step, AsExpected, AllExpected, AllMeet, Exact;
    if trace == [] {
      EmptyMeets();
    } else {
      EventsSplit(trace);
      ExpectedFront(trace);
      RunMeets(trace[..|trace| - 1]);
      EmptyValid();
      RunValid(EMPTY_TABLES, trace[..|trace| - 1]);
      StepMeets(Run(EMPTY_TABLES, trace[..|trace| - 1]), trace[|trace| - 1], EventsOf(trace[..|trace| - 1]));
    }
  }

  lemma EmptyMeets()
    ensures AllMeet(EMPTY_TABLES, EventsOf([]))
  {}

  /** The event's own block is taken. */
  predicate Takes(t: Tables, ev: Event, id: Id) {
    ev.Block? && HandleBlock(t, ev.fb).ok && CheckHeader(ev.fb).Some? && CheckHeader(ev.fb).value.id == id
  }

  /** Only a block that is taken becomes stored, and nothing stored is lost. */
  lemma StepStores(t: Tables, a: Arrival, id: Id)
    requires Valid(t)
    ensures id in Step(t, a).blocks.rows <==> id in t.blocks.rows || Takes(t, a.ev, id)
  {
    hide Exact, HandleBlock, HandleExec, HandleTransfers, CheckHeader, BlockEntries, ApplyFinality;
    match a.ev
    case Block(fb) =>
      if HandleBlock(t, fb).ok {
        BlockEventHeader(t, fb);
        var row := BlockEventRow(t, fb);
      } else {
        BlockEventRejected(t, fb);
      }
    case Exec(out) =>
      ExecEventBlocks(t, out, a.now);
      forall winner, candidates { FinalityEffect(t.blocks, winner, candidates); }
    case Transfers(resp) => TransfersKeepBlocks(t, resp, a.now);
    case Tick =>
  }

  lemma TransfersKeepBlocks(t: Tables, resp: TransfersInfo, now: int)
    ensures HandleTransfers(t, resp, now).tables.blocks == t.blocks
  {}

  /** The stored blocks are those of the acceptable block events. */
  lemma {:induction false} RunStores(trace: seq<Arrival>, slotOf: Id -> Slot, id: Id)
    requires AllConsistent(trace, slotOf) && AllExpected(trace)
    ensures id in Run(EMPTY_TABLES, trace).blocks.rows <==> Stored(EventsOf(trace), slotOf(id), id)
    decreases |trace|
  {
    hide Step, AllExpected, Stored, Valid, CheckHeader, DecodeEndorsements, Fed, HandleBlock;
    if trace == [] {
      assert EventsOf(trace) == {};
      NothingStored(slotOf(id), id);
    } else {
      var last := trace[|trace| - 1];
      EventsSplit(trace);
      ExpectedFront(trace);
      RunStores(trace[..|trace| - 1], slotOf, id);
      EmptyValid();
      RunValid(EMPTY_TABLES, trace[..|trace| - 1]);
      StepStores(Run(EMPTY_TABLES, trace[..|trace| - 1]), last, id);
      StoredAdds(EventsOf(trace[..|trace| - 1]), last.ev, slotOf(id), id);
      assert Consistent(last.ev, slotOf);
    }
  }

  lemma NothingStored(s: Slot, id: Id)
    ensures !Stored({}, s, id)
  {}

  /**
   Reorder-safety: after a trace with at most one verdict per slot, every slot row
   and every block status is the one its set of events calls for.
   */
  lemma RunIsExpected(trace: seq<Arrival>, slotOf: Id -> Slot)
    requires Regular(trace, slotOf)
    ensures var t := Run(EMPTY_TABLES, trace);
      && (forall s :: ViewOf(SlotAt(t.slots, s)) == ExpectedSlot(EventsOf(trace), s))
      && (forall id :: BlockView(t, id) == ExpectedBlock(EventsOf(trace), slotOf, id))
  {
    hide Run, AllExpected, NoLateFeeding, OneVerdict, ExpectedSlot, Stored, Meets, BlockOk, SlotIsHome, SlotsKeyed;
    hide Consistent;
    var t := Run(EMPTY_TABLES, trace);
    var events := EventsOf(trace);
    ExpectedIfNotLate(trace);
    RunMeets(trace);
    EmptyAgreement(slotOf);
    RunAgreement(EMPTY_TABLES, trace, slotOf);
    forall s ensures ViewOf(SlotAt(t.slots, s)) == ExpectedSlot(events, s) {
      MeetsIsExpected(ViewOf(SlotAt(t.slots, s)), events, s);
    }
    forall id: Id ensures BlockView(t, id) == ExpectedBlock(events, slotOf, id) {
      RunStores(trace, slotOf, id);
      if id in t.blocks.rows {
        assert BlockOk(t, t.blocks.rows[id], id, slotOf);
        StatusFromView(t, t.blocks.rows[id], id, slotOf);
      }
    }
  }

  lemma EmptyAgreement(slotOf: Id -> Slot)
    ensures Agreement(EMPTY_TABLES, slotOf)
  {}

  lemma StatusFromView(t: Tables, b: StoredBlock, id: Id, slotOf: Id -> Slot)
    requires BlockOk(t, b, id, slotOf)
    ensures var v := ViewOf(SlotAt(t.slots, slotOf(id)));
      && v.Present?
      && b.status == if v.status != SlotStatus.Final then BlockStatus.SeenCandidate else Verdict(v.winner, id)
  {}

  /** The hypotheses speak of the set of events alone. */
  lemma SameEventsRegular(trace: seq<Arrival>, trace': seq<Arrival>, slotOf: Id -> Slot)
    requires Regular(trace, slotOf) && EventsOf(trace) == EventsOf(trace')
    ensures Regular(trace', slotOf)
  {
    hide OneVerdict, Consistent, NoLateFeeding;
    forall a | a in trace' ensures Consistent(a.ev, slotOf) {
      assert a.ev in EventsOf(trace);
    }
  }

  /** Two runs over the same events, in any order and with any repeats, end alike. */
  lemma OrderIsImmaterial(trace: seq<Arrival>, trace': seq<Arrival>, slotOf: Id -> Slot)
    requires Regular(trace, slotOf) && EventsOf(trace) == EventsOf(trace')
    ensures Agree(Run(EMPTY_TABLES, trace), Run(EMPTY_TABLES, trace'))
  {
    hide Run, Regular, ExpectedSlot, ExpectedBlock, ViewOf, BlockView;
    SameEventsRegular(trace, trace', slotOf);
    RunIsExpected(trace, slotOf);
    RunIsExpected(trace', slotOf);
  }
}
