/**
 What one ingest event does to the store, as a function of the store.
 */
module IngestSpec {
  import opened ByteStrings
  import opened Ids
  import opened Keys
  import opened Model
  import opened Store

  /** A handler's effect; `ok` is false when it returned an error half-way. */
  datatype Outcome = Outcome(tables: Tables, ok: bool)

  function SlotOrFresh(t: Tables, s: Slot): SlotState {
    var found := SlotAt(t.slots, s);
    if found.Some? then found.value else FreshSlot(s)
  }

  /** Insert an Unknown row for the previous slot of the thread if there is none. */
  function ParentStub(slots: map<Bytes, SlotState>, s: Slot): map<Bytes, SlotState> {
    if s.period == 0 || SlotAt(slots, Slot(s.period - 1, s.thread)).Some? then slots
    else PutSlot(slots, FreshSlot(Slot(s.period - 1, s.thread)))
  }

  // ---- Block --------------------------------------------------------------

  datatype Header = Header(id: Id, slot: Slot, creator: Address, content: HeaderContent, payload: Payload)

  function CheckHeader(fb: FilledBlock): Option<Header> {
    if fb.header.None? || fb.header.value.content.None? then None
    else
      var h := fb.header.value;
      var c := h.content.value;
      if !h.secureHash.Parsed? || c.slot.None? || !h.creator.Parsed? then None
      else Some(Header(h.secureHash.id, SlotFromPb(c.slot.value), h.creator.id, c, h.payload))
  }

  function DecodeEndorsement(e: SignedEndorsement, block: Id, slot: Slot): Option<StoredEndorsement> {
    if e.content.None? || e.content.value.slot.None? || !e.creator.Parsed? then None
    else
      Some(StoredEndorsement(e.secureHash, SlotFromPb(e.content.value.slot.value), e.creator.id,
                             block, slot, e.content.value.payload))
  }

  function DecodeEndorsements(es: seq<SignedEndorsement>, block: Id, slot: Slot): seq<StoredEndorsement> {
    if es == [] then []
    else
      var rest := DecodeEndorsements(es[1..], block, slot);
      match DecodeEndorsement(es[0], block, slot)
      case None => rest
      case Some(e) => [e] + rest
  }

  /** Write in turn; the first unparsable id stops the walk. */
  function PutEndorsements(x: Indexed<StoredEndorsement>, es: seq<StoredEndorsement>)
    : (Indexed<StoredEndorsement>, bool)
    decreases |es|
  {
    if es == [] then (x, true)
    else
      match PutEndorsement(x, es[0])
      case None => (x, false)
      case Some(x1) => PutEndorsements(x1, es[1..])
  }

  /** The included slot is the denunciation's own: the block's slot is shadowed where the row is made. */
  function DenunciationRow(d: StoredDenunciation, block: Id): DenunciationEntry {
    DenunciationEntry(d.hash, d.slot, d.target, d, Some(block), Some(d.slot))
  }

  function PutDenunciations(x: Indexed<DenunciationEntry>, ds: seq<StoredDenunciation>, block: Id)
    : Indexed<DenunciationEntry>
    decreases |ds|
  {
    if ds == [] then x
    else PutDenunciations(PutDenunciation(x, DenunciationRow(ds[0], block)), ds[1..], block)
  }

  /** The id under which an operation is ingested; `None` means it is skipped. */
  function OpIdOf(f: FilledOperation): Option<Id> {
    if f.operation.None? then None
    else if f.operationId != Blank then f.operationId.Ok()
    else f.operation.value.secureHash.Ok()
  }

  function ClassifyOp(op: Option<OperationType>): (OperationKind, Option<Address>) {
    match op
    case None => (UnknownKind, None)
    case Some(TransactionOp(recipient)) => (Transaction, recipient.Ok())
    case Some(RollBuyOp) => (RollBuy, None)
    case Some(RollSellOp) => (RollSell, None)
    case Some(ExecuteScOp) => (ExecuteSc, None)
    case Some(CallScOp(target)) => (CallSc, target.Ok())
  }

  function NewOp(signed: SignedOperation, id: Id, slot: Slot): Option<StoredOperation> {
    if signed.content.None? || !signed.creator.Parsed? then None
    else
      var (kind, target) := ClassifyOp(signed.content.value);
      Some(StoredOperation(id, signed.creator.id, target, kind, slot.thread, [], None, None, signed.payload))
  }

  /** The stored operation, or a new row for it. */
  function FindOrNewOp(x: Indexed<StoredOperation>, signed: SignedOperation, id: Id, slot: Slot)
    : Option<StoredOperation>
  {
    if id in x.rows then Some(x.rows[id]) else NewOp(signed, id, slot)
  }

  /** Note an inclusion site; the earliest one stays first. */
  function Include(o: StoredOperation, slot: Slot, block: Id): StoredOperation {
    var site := OperationInclusion(slot, block);
    o.(thread := slot.thread,
       inclusions := if site in o.inclusions then o.inclusions else o.inclusions + [site])
  }

  /** Ingest a block's operations in turn; the last part is false when one was rejected. */
  function PutOps(x: Indexed<StoredOperation>, fs: seq<FilledOperation>, slot: Slot, block: Id)
    : (Indexed<StoredOperation>, seq<Id>, bool)
    decreases |fs|
  {
    if fs == [] then (x, [], true)
    else
      match OpIdOf(fs[0])
      case None => PutOps(x, fs[1..], slot, block)
      case Some(id) =>
        match FindOrNewOp(x, fs[0].operation.value, id, slot)
        case None => (x, [id], false)
        case Some(o) =>
          var (x1, ids, ok) := PutOps(PutOp(x, Include(o, slot, block)), fs[1..], slot, block);
          (x1, [id] + ids, ok)
  }

  /** The status a block gets from its slot. */
  function StatusFor(s: SlotState, block: Id): BlockStatus {
    if s.status != SlotStatus.Final then BlockStatus.SeenCandidate
    else if s.finalBlockId == Some(block) then BlockStatus.Final
    else BlockStatus.Discarded
  }

  function BlockRow(prior: Option<StoredBlock>, h: Header, initial: BlockStatus,
                    endorsements: seq<StoredEndorsement>, opIds: seq<Id>): StoredBlock
  {
    match prior
    case Some(b) =>
      b.(operationIds := if b.operationIds == [] then opIds else b.operationIds,
         endorsements := endorsements,
         denunciations := h.content.denunciations,
         status := if b.status == BlockStatus.SeenCandidate then initial else b.status)
    case None =>
      StoredBlock(h.id, h.slot, h.creator, opIds, endorsements, h.content.denunciations, h.payload, initial)
  }

  function WithBlock(s: SlotState, block: Id): SlotState {
    s.(candidateBlockIds := if block in s.candidateBlockIds then s.candidateBlockIds else s.candidateBlockIds + [block],
       completeness := s.completeness.(blockBodyStored := true),
       status := if s.status == SlotStatus.Unknown then SlotStatus.Candidate else s.status)
  }

  function HandleBlock(t: Tables, fb: FilledBlock): Outcome {
    match CheckHeader(fb)
    case None => Outcome(t, false)
    case Some(h) =>
      var endorsements := DecodeEndorsements(h.content.endorsements, h.id, h.slot);
      var (es, ok1) := PutEndorsements(t.endorsements, endorsements);
      if !ok1 then Outcome(t.(endorsements := es), false)
      else
        var ds := PutDenunciations(t.denunciations, h.content.denunciations, h.id);
        var (ops, ids, ok2) := PutOps(t.ops, fb.operations, h.slot, h.id);
        var t1 := t.(endorsements := es, denunciations := ds, ops := ops);
        if !ok2 then Outcome(t1, false)
        else
          var s := SlotOrFresh(t1, h.slot);
          var row := BlockRow(RowAt(t1.blocks, h.id), h, StatusFor(s, h.id), endorsements, ids);
          Outcome(t1.(blocks := PutBlock(t1.blocks, row),
                      slots := ParentStub(PutSlot(t1.slots, WithBlock(s, h.id)), h.slot)),
                  true)
  }

  // ---- Exec ---------------------------------------------------------------

  /** Emitter is the last parsable address of the call stack, caller the first. */
  function EventRow(ev: ScEventPb, slot: Slot, i: U32, status: SlotStatus): StoredScEvent {
    match ev.context
    case None => StoredScEvent(slot, i, ev.data, [], [], status, None)
    case Some(c) =>
      var stack := ParsedOnly(c.callStack);
      var emitters := if stack == [] then [] else [stack[|stack| - 1]];
      var callers := if stack == [] then [] else [stack[0]];
      StoredScEvent(slot, i, ev.data, emitters, callers, status, OkOf(c.originOperationId))
  }

  function PutScEvents(x: Indexed<StoredScEvent>, evs: seq<ScEventPb>, slot: Slot, status: SlotStatus, i: nat)
    : Indexed<StoredScEvent>
    requires i + |evs| < 0x1_0000_0000
    decreases |evs|
  {
    if evs == [] then x
    else PutScEvents(PutScEvent(x, EventRow(evs[0], slot, i, status)), evs[1..], slot, status, i + 1)
  }

  function ReplaceScEvents(x: Indexed<StoredScEvent>, evs: Repeated<ScEventPb>, slot: Slot, status: SlotStatus)
    : Indexed<StoredScEvent>
  {
    PutScEvents(ClearScEvents(x, slot), evs, slot, status, 0)
  }

  /** First final wins; a candidate status mirrors the latest candidate value. */
  function WithExecStatus(o: StoredOperation, status: ExecStatus, isFinal: bool): StoredOperation {
    if isFinal then
      if o.finalExecStatus.None? then o.(finalExecStatus := Some(status), candidateExecStatus := Some(status)) else o
    else o.(candidateExecStatus := Some(status))
  }

  function PutExecStatus(x: Indexed<StoredOperation>, e: ExecutedOpChange, isFinal: bool): Indexed<StoredOperation> {
    if !e.operationId.Parsed? || e.status.None? || e.operationId.id !in x.rows then x
    else
      var o := x.rows[e.operationId.id];
      var o' := WithExecStatus(o, e.status.value, isFinal);
      if o' == o then x else PutOp(x, o')
  }

  function PutExecStatuses(x: Indexed<StoredOperation>, es: seq<ExecutedOpChange>, isFinal: bool)
    : Indexed<StoredOperation>
    decreases |es|
  {
    if es == [] then x else PutExecStatuses(PutExecStatus(x, es[0], isFinal), es[1..], isFinal)
  }

  function ExecutedIds(es: seq<ExecutedOpChange>): seq<Id> {
    if es == [] then []
    else (if es[0].operationId.Parsed? then [es[0].operationId.id] else []) + ExecutedIds(es[1..])
  }

  function WithExecuted(s: SlotState, ids: seq<Id>): SlotState {
    if ids != [] && s.executedOpIds == [] then s.(executedOpIds := ids) else s
  }

  // -- async pool

  function AsyncStub(id: Bytes, state: AsyncMsgState, slot: Slot, now: int): StoredAsyncMsg {
    StoredAsyncMsg(id, None, None, 0, map[], state, Some(slot), now)
  }

  function AsyncFromMessage(id: Bytes, m: AsyncMessage, slot: Slot, now: int): StoredAsyncMsg {
    StoredAsyncMsg(id, m.sender.Ok(), m.destination.Ok(), m.coins, m.fields, AsyncMsgState.Pending, Some(slot), now)
  }

  /** Set or clear the fields that an update carries, keep the others. */
  function SetOrKeep(fields: map<AsyncField, Payload>, u: map<AsyncField, Option<Payload>>): map<AsyncField, Payload> {
    map f | f in fields.Keys + u.Keys && (f in u ==> u[f].Some?) :: if f in u then u[f].value else fields[f]
  }

  /** Apply every Set of an update, keep the rest. */
  function ApplyUpdate(m: StoredAsyncMsg, u: AsyncUpdate): StoredAsyncMsg {
    m.(sender := if u.sender.Some? then u.sender.value.Ok() else m.sender,
       destination := if u.destination.Some? then u.destination.value.Ok() else m.destination,
       coins := if u.coins.Some? then u.coins.value else m.coins,
       fields := SetOrKeep(m.fields, u.fields))
  }

  predicate Classified(s: AsyncMsgState) {
    s == AsyncMsgState.Executed || s == AsyncMsgState.Cancelled
  }

  function Consume(m: StoredAsyncMsg): StoredAsyncMsg {
    if Classified(m.state) then m else m.(state := AsyncMsgState.Consumed)
  }

  /** The row that a pool change asks to write, given the current one. */
  function AsyncChanged(p: Option<StoredAsyncMsg>, e: AsyncPoolEntry, slot: Slot, now: int): Option<StoredAsyncMsg> {
    if e.id == [] then None
    else
      var m := if p.Some? then p.value else AsyncStub(e.id, AsyncMsgState.Pending, slot, now);
      match e.change
      case SetMsg(Some(created)) => Some(AsyncFromMessage(e.id, created, slot, now))
      case UpdateMsg(Some(u)) => Some(ApplyUpdate(m, u).(lastSlot := Some(slot)))
      case DeleteMsg => Some(Consume(m).(lastSlot := Some(slot)))
      case _ => None
  }

  function PutAsyncChange(x: Indexed<StoredAsyncMsg>, e: AsyncPoolEntry, slot: Slot,
                          now: int): Indexed<StoredAsyncMsg> {
    var row := AsyncChanged(RowAt(x, e.id), e, slot, now);
    if row.None? then x else PutAsync(x, row.value)
  }

  function PutAsyncChanges(x: Indexed<StoredAsyncMsg>, es: seq<AsyncPoolEntry>, slot: Slot, now: int)
    : Indexed<StoredAsyncMsg>
    decreases |es|
  {
    if es == [] then x else PutAsyncChanges(PutAsyncChange(x, es[0], slot, now), es[1..], slot, now)
  }

  // -- finality

  function PutBlockStatus(x: Indexed<StoredBlock>, id: Id, status: BlockStatus): Indexed<StoredBlock> {
    if id in x.rows && x.rows[id].status != status then PutBlock(x, x.rows[id].(status := status)) else x
  }

  function Verdict(winner: Option<Id>, id: Id): BlockStatus {
    if winner == Some(id) then BlockStatus.Final else BlockStatus.Discarded
  }

  function PutVerdicts(x: Indexed<StoredBlock>, winner: Option<Id>, candidates: seq<Id>): Indexed<StoredBlock>
    decreases |candidates|
  {
    if candidates == [] then x
    else PutVerdicts(PutBlockStatus(x, candidates[0], Verdict(winner, candidates[0])), winner, candidates[1..])
  }

  /** Move every known block of a finalized slot to its verdict. */
  function ApplyFinality(x: Indexed<StoredBlock>, winner: Option<Id>, candidates: seq<Id>): Indexed<StoredBlock> {
    var x1 := PutVerdicts(x, winner, candidates);
    if winner.Some? && winner.value !in candidates
    then PutBlockStatus(x1, winner.value, BlockStatus.Final)
    else x1
  }

  function TrailHash(e: ExecutionOutput): Option<string> {
    if e.stateChanges.Some? then e.stateChanges.value.trailHash else None
  }

  function ExecutedOps(e: ExecutionOutput): seq<ExecutedOpChange> {
    if e.stateChanges.Some? then e.stateChanges.value.executedOps else []
  }

  function AsyncPool(e: ExecutionOutput): seq<AsyncPoolEntry> {
    if e.stateChanges.Some? then e.stateChanges.value.asyncPool else []
  }

  /** An unsettled slot meets an output: the non-derived part of its row. */
  function WithOutput(s: SlotState, e: ExecutionOutput, isFinal: bool): SlotState {
    var s1 := s.(status := if isFinal then SlotStatus.Final else SlotStatus.Candidate,
                 trailHash := if TrailHash(e).Some? then TrailHash(e) else s.trailHash,
                 scEventCount := |e.events|);
    if isFinal then
      s1.(completeness := s1.completeness.(execOutputFinal := true),
          isMiss := e.blockId.None?,
          finalBlockId := if OkOf(e.blockId).Some? then OkOf(e.blockId) else s1.finalBlockId)
    else s1.(completeness := s1.completeness.(execOutputCandidate := true))
  }

  /** The node's verdict and trail hash agree with the local FINAL row. */
  predicate SameVerdict(s: SlotState, e: ExecutionOutput) {
    && (s.trailHash.Some? && TrailHash(e).Some? ==> s.trailHash == TrailHash(e))
    && s.isMiss == e.blockId.None?
    && (s.isMiss || OkOf(e.blockId) == s.finalBlockId)
  }

  /** Settle the exec part of a slot that was finalized from elsewhere. */
  function CompleteFinalExec(t: Tables, s: SlotState, e: ExecutionOutput, now: int): Tables {
    var s1 := s.(trailHash := if s.trailHash.None? then TrailHash(e) else s.trailHash,
                 scEventCount := |e.events|,
                 completeness := s.completeness.(execOutputFinal := true));
    t.(scEvents := ReplaceScEvents(t.scEvents, e.events, s.slot, SlotStatus.Final),
       ops := PutExecStatuses(t.ops, ExecutedOps(e), true),
       asyncMsgs := PutAsyncChanges(t.asyncMsgs, AsyncPool(e), s.slot, now),
       blocks := ApplyFinality(t.blocks, s1.finalBlockId, s1.candidateBlockIds),
       slots := PutSlot(t.slots, WithExecuted(s1, ExecutedIds(ExecutedOps(e)))))
  }

  function ApplyOutput(t: Tables, slot: Slot, s: SlotState, e: ExecutionOutput, isFinal: bool, now: int): Tables {
    var s1 := WithOutput(s, e, isFinal);
    var slots1 := PutSlot(t.slots, WithExecuted(s1, ExecutedIds(ExecutedOps(e))));
    var t1 := t.(scEvents := ReplaceScEvents(t.scEvents, e.events, slot, s1.status),
                 ops := PutExecStatuses(t.ops, ExecutedOps(e), isFinal));
    if isFinal then
      t1.(lastFinalSlot := Some(slot),
          blocks := ApplyFinality(t.blocks, s1.finalBlockId, s1.candidateBlockIds),
          asyncMsgs := PutAsyncChanges(t.asyncMsgs, AsyncPool(e), slot, now),
          slots := ParentStub(slots1, slot))
    else t1.(lastCandidateSlot := Some(slot), slots := slots1)
  }

  function HandleExec(t: Tables, out: SlotExecutionOutput, now: int): Outcome {
    if out.output.None? || out.output.value.slot.None? then Outcome(t, false)
    else if out.status.OtherOutput? then Outcome(t, true)
    else
      var e := out.output.value;
      var slot := SlotFromPb(e.slot.value);
      var s := SlotOrFresh(t, slot);
      var isFinal := out.status.FinalOutput?;
      if s.status != SlotStatus.Final then Outcome(ApplyOutput(t, slot, s, e, isFinal, now), true)
      else if isFinal && SameVerdict(s, e) && !s.completeness.execOutputFinal
      then Outcome(CompleteFinalExec(t, s, e, now), true)
      else Outcome(t, true)
  }

  // ---- Transfers ----------------------------------------------------------

  predicate IsZeroValue(v: TransferValue) {
    match v
    case Coins(n) => n == 0
    case DeferredCredits(n) => n == 0
    case Rolls(n) => n == 0
    case UnknownValue => true
  }

  predicate IsRewardOrigin(o: CoinOrigin) {
    o.BlockReward? || o.EndorsementReward? || o.EndorsedReward? || o.Slash? || o.DeferredCredit?
  }

  predicate IsOpChildOrigin(o: CoinOrigin) {
    || o.AbiCallCoins? || o.AbiTransferCoins? || o.AbiTransferForCoins? || o.AbiSendMsgCoins?
    || o.AbiSendMsgFees? || o.CreateScStorage? || o.DatastoreStorage? || o.SetBytecodeStorage?
  }

  function TransferRow(resp: TransfersInfo, slot: Slot, x: TransferInfo, i: U32): StoredTransfer {
    StoredTransfer(slot, i, x.id, resp.blockId, resp.timestamp, x.from, x.to, x.value, x.origin,
                   x.operationId, x.asyncMsgId, x.deferredCallId, x.denunciationIndex)
  }

  /** Drop zero-value transfers and number the rest densely from `i`. */
  function DecodeRows(resp: TransfersInfo, slot: Slot, xs: seq<TransferInfo>, i: nat): (rows: seq<StoredTransfer>)
    requires i + |xs| < 0x1_0000_0000
    ensures |rows| <= |xs|
  {
    if xs == [] then []
    else if IsZeroValue(xs[0].value) then DecodeRows(resp, slot, xs[1..], i)
    else [TransferRow(resp, slot, xs[0], i)] + DecodeRows(resp, slot, xs[1..], i + 1)
  }

  predicate IsBoundary(r: StoredTransfer) {
    r.operationId.None?
    && (r.asyncMsgId.Some? || r.deferredCallId.Some? || r.denunciationIndex.Some? || IsRewardOrigin(r.origin))
  }

  /** The operation that is active after passing row `r`. */
  function ActiveAfter(r: StoredTransfer, current: Option<Raw<Id>>): Option<Raw<Id>> {
    if r.operationId.Some? then r.operationId
    else if IsBoundary(r) then None
    else current
  }

  function Attributed(r: StoredTransfer, current: Option<Raw<Id>>): StoredTransfer {
    if r.operationId.None? && !IsBoundary(r) && IsOpChildOrigin(r.origin) && current.Some?
    then r.(operationId := current)
    else r
  }

  /** The linear pass that sticks the active operation on child rows. */
  function Attribute(rows: seq<StoredTransfer>, current: Option<Raw<Id>>): (out: seq<StoredTransfer>)
    ensures |out| == |rows|
  {
    if rows == [] then []
    else [Attributed(rows[0], current)] + Attribute(rows[1..], ActiveAfter(rows[0], current))
  }

  function PutTransfers(x: Indexed<StoredTransfer>, rows: seq<StoredTransfer>): Indexed<StoredTransfer>
    decreases |rows|
  {
    if rows == [] then x else PutTransfers(PutTransfer(x, rows[0]), rows[1..])
  }

  function AsyncOutcome(o: CoinOrigin): Option<AsyncMsgState> {
    match o
    case AsyncMsgCoins => Some(AsyncMsgState.Executed)
    case AsyncMsgCancel => Some(AsyncMsgState.Cancelled)
    case _ => None
  }

  /** The row that a transfer asks to write for its async message. */
  function AsyncReconciled(p: Option<StoredAsyncMsg>, r: StoredTransfer, slot: Slot, now: int): Option<StoredAsyncMsg> {
    if r.asyncMsgId.None? || AsyncOutcome(r.origin).None? then None
    else
      var state := AsyncOutcome(r.origin).value;
      var m := if p.Some? then p.value else AsyncStub(r.asyncMsgId.value, state, slot, now);
      Some(m.(state := if Classified(m.state) then m.state else state,
              sender := if m.sender.None? then OkOf(r.from) else m.sender,
              destination := if m.destination.None? then OkOf(r.to) else m.destination,
              coins := if r.value.Coins? && m.coins == 0 then r.value.nmas else m.coins,
              lastSlot := Some(slot)))
  }

  function ReconcileAsyncRow(x: Indexed<StoredAsyncMsg>, r: StoredTransfer, slot: Slot,
                             now: int): Indexed<StoredAsyncMsg> {
    if r.asyncMsgId.None? then x
    else
      var row := AsyncReconciled(RowAt(x, r.asyncMsgId.value), r, slot, now);
      if row.None? then x else PutAsync(x, row.value)
  }

  function ReconcileAsync(x: Indexed<StoredAsyncMsg>, rows: seq<StoredTransfer>, slot: Slot, now: int)
    : Indexed<StoredAsyncMsg>
    decreases |rows|
  {
    if rows == [] then x else ReconcileAsync(ReconcileAsyncRow(x, rows[0], slot, now), rows[1..], slot, now)
  }

  predicate Terminal(s: DeferredCallState) {
    s != DeferredCallState.Registered
  }

  function DeferredStub(id: Bytes, slot: Slot, now: int): StoredDeferredCall {
    StoredDeferredCall(id, None, None, 0, None, None, DeferredCallState.Registered, Some(slot), now)
  }

  function DeferredOutcome(o: CoinOrigin, current: DeferredCallState): Option<DeferredCallState> {
    match o
    case DeferredCallRegister => Some(DeferredCallState.Registered)
    case DeferredCallCoins => Some(DeferredCallState.Executed)
    case DeferredCallFail => Some(DeferredCallState.Failed)
    case DeferredCallCancel => Some(DeferredCallState.Cancelled)
    case DeferredCallStorageRefund => Some(current)
    case _ => None
  }

  /** The row that a transfer asks to write for its deferred call. */
  function DeferredReconciled(p: Option<StoredDeferredCall>, r: StoredTransfer, slot: Slot, now: int)
    : Option<StoredDeferredCall>
  {
    if r.deferredCallId.None? then None
    else
      var c := if p.Some? then p.value else DeferredStub(r.deferredCallId.value, slot, now);
      var state := DeferredOutcome(r.origin, c.state);
      if state.None? then None
      else
        var registers := r.origin.DeferredCallRegister?;
        var pays := r.origin.DeferredCallCoins?;
        Some(c.(registeredSlot := if registers && c.registeredSlot.None? then Some(slot) else c.registeredSlot,
                sender := if registers && c.sender.None? then OkOf(r.from) else c.sender,
                targetSlot := if pays && c.targetSlot.None? then Some(slot) else c.targetSlot,
                targetAddress := if pays && c.targetAddress.None? then OkOf(r.to) else c.targetAddress,
                coins := if r.value.Coins? && r.value.nmas > c.coins then r.value.nmas else c.coins,
                state := if Terminal(c.state) then c.state else state.value,
                lastSlot := Some(slot)))
  }

  function ReconcileDeferredRow(x: Indexed<StoredDeferredCall>, r: StoredTransfer, slot: Slot, now: int)
    : Indexed<StoredDeferredCall>
  {
    if r.deferredCallId.None? then x
    else
      var row := DeferredReconciled(RowAt(x, r.deferredCallId.value), r, slot, now);
      if row.None? then x else PutDeferred(x, row.value)
  }

  function ReconcileDeferred(x: Indexed<StoredDeferredCall>, rows: seq<StoredTransfer>, slot: Slot, now: int)
    : Indexed<StoredDeferredCall>
    decreases |rows|
  {
    if rows == [] then x else ReconcileDeferred(ReconcileDeferredRow(x, rows[0], slot, now), rows[1..], slot, now)
  }

  function WithTransfers(s: SlotState): SlotState {
    s.(completeness := s.completeness.(transfersStored := true))
  }

  /** The rows a transfers message leaves in its slot. */
  function TransferRows(resp: TransfersInfo, slot: Slot): seq<StoredTransfer> {
    Attribute(DecodeRows(resp, slot, resp.transfers, 0), None)
  }

  function HandleTransfers(t: Tables, resp: TransfersInfo, now: int): Outcome {
    if resp.slot.None? then Outcome(t, false)
    else
      var slot := SlotFromPb(resp.slot.value);
      var rows := TransferRows(resp, slot);
      Outcome(t.(transfers := PutTransfers(ClearTransfers(t.transfers, slot), rows),
                 asyncMsgs := ReconcileAsync(t.asyncMsgs, rows, slot, now),
                 deferredCalls := ReconcileDeferred(t.deferredCalls, rows, slot, now),
                 slots := PutSlot(t.slots, WithTransfers(SlotOrFresh(t, slot)))),
              true)
  }

  // ---- one event ----------------------------------------------------------

  function Handle(t: Tables, ev: Event, now: int): Outcome {
    match ev
    case Block(fb) => HandleBlock(t, fb)
    case Exec(out) => HandleExec(t, out, now)
    case Transfers(resp) => HandleTransfers(t, resp, now)
    case Tick => Outcome(t, true)
  }

  /** An event and the wall-clock at which the writer takes it up. */
  datatype Arrival = Arrival(ev: Event, now: int)

  function Step(t: Tables, a: Arrival): Tables {
    Handle(t, a.ev, a.now).tables
  }

  /** The writer's state after a trace, oldest arrival first. */
  function Run(t: Tables, trace: seq<Arrival>): Tables {
    if trace == [] then t else Step(Run(t, trace[..|trace| - 1]), trace[|trace| - 1])
  }
}
