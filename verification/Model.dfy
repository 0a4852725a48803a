/**
 Stored rows and node messages. Fields that the indexer copies without looking
 at them are gathered in `payload` (or, for async messages, in `fields`).
 */
module Model {
  import opened ByteStrings
  import opened Ids

  type Payload = string

  /** An identifier string as its parser sees it. */
  datatype Raw<+T> = Blank | Malformed(text: string) | Parsed(id: T) {
    /** `parse(..).ok()` */
    function Ok(): Option<T> {
      if Parsed? then Some(id) else None
    }
  }

  function OkOf<T>(r: Option<Raw<T>>): Option<T> {
    if r.Some? then r.value.Ok() else None
  }

  /** `filter_map(|s| parse(s).ok())` */
  function ParsedOnly<T>(xs: seq<Raw<T>>): seq<T> {
    if xs == [] then []
    else if xs[0].Parsed? then [xs[0].id] + ParsedOnly(xs[1..])
    else ParsedOnly(xs[1..])
  }

  // ---- statuses -----------------------------------------------------------

  datatype ExecStatus = Ok | Failed
  datatype SlotStatus = Unknown | Candidate | Final
  datatype BlockStatus = SeenCandidate | Final | Discarded
  datatype AsyncMsgState = Pending | Executed | Cancelled | Consumed
  datatype DeferredCallState = Registered | Executed | Failed | Cancelled

  function Rank(s: SlotStatus): nat {
    match s case Unknown => 0 case Candidate => 1 case Final => 2
  }

  // ---- slot rows ----------------------------------------------------------

  datatype StreamsExpected = StreamsExpected(filledBlocks: bool, slotExecutionOutputs: bool, transfers: bool)

  datatype SlotCompleteness = SlotCompleteness(
    blockBodyStored: bool, execOutputFinal: bool, execOutputCandidate: bool, transfersStored: bool)
  {
    predicate IsComplete(isMiss: bool, streams: StreamsExpected) {
      && (!streams.filledBlocks || isMiss || blockBodyStored)
      && (!streams.slotExecutionOutputs || execOutputFinal)
      && (!streams.transfers || transfersStored)
    }
  }

  datatype SlotState = SlotState(
    slot: Slot,
    status: SlotStatus,
    isMiss: bool,
    finalBlockId: Option<Id>,
    candidateBlockIds: seq<Id>,
    trailHash: Option<string>,
    executedOpIds: seq<Id>,
    scEventCount: nat,
    completeness: SlotCompleteness)

  function FreshSlot(s: Slot): SlotState {
    SlotState(s, SlotStatus.Unknown, false, None, [], None, [], 0, SlotCompleteness(false, false, false, false))
  }

  // ---- entity rows --------------------------------------------------------

  datatype StoredEndorsement = StoredEndorsement(
    id: Raw<Id>, slot: Slot, creator: Address, includedBlockId: Id, includedSlot: Slot, payload: Payload)

  datatype StoredDenunciation = StoredDenunciation(
    hash: Hash, slot: Slot, target: Option<Address>, payload: Payload)

  datatype DenunciationEntry = DenunciationEntry(
    hash: Hash, slot: Slot, denouncedAddr: Option<Address>, denunciation: StoredDenunciation,
    includedBlockId: Option<Id>, includedSlot: Option<Slot>)

  datatype StoredBlock = StoredBlock(
    id: Id, slot: Slot, creator: Address, operationIds: seq<Id>,
    endorsements: seq<StoredEndorsement>, denunciations: seq<StoredDenunciation>,
    payload: Payload, status: BlockStatus)

  datatype OperationKind = Transaction | RollBuy | RollSell | ExecuteSc | CallSc | UnknownKind
  datatype OperationInclusion = OperationInclusion(slot: Slot, blockId: Id)

  datatype StoredOperation = StoredOperation(
    id: Id, creator: Address, target: Option<Address>, kind: OperationKind, thread: Byte,
    inclusions: seq<OperationInclusion>,
    candidateExecStatus: Option<ExecStatus>, finalExecStatus: Option<ExecStatus>, payload: Payload)

  datatype StoredScEvent = StoredScEvent(
    slot: Slot, index: U32, data: Payload, emitters: seq<Address>, callers: seq<Address>,
    status: SlotStatus, opId: Option<Id>)

  // ---- transfers ----------------------------------------------------------

  datatype TransferValue =
    | Coins(nmas: U64)
    | Rolls(count: U64)
    | DeferredCredits(credits: U64)
    | UnknownValue

  datatype CoinOrigin =
    | Unspecified | BlockReward | DeferredCallFail | DeferredCallCancel | DeferredCallCoins
    | DeferredCallRegister | DeferredCallStorageRefund | EndorsementReward | EndorsedReward
    | Slash | OpRollBuy | OpRollSell | OpCallscCoins | ReadOnlyFnCallFees | ReadOnlyFnCallCoins
    | ReadOnlyBytecodeExecFees | SetBytecodeStorage | AbiCallCoins | AbiTransferCoins
    | AbiTransferForCoins | AbiSendMsgCoins | AbiSendMsgFees | OpRollSellDeferredMas
    | OpExecutescFees | OpTransactionCoins | OpTransactionFees | AsyncMsgCoins | AsyncMsgCancel
    | CreateScStorage | DatastoreStorage | DeferredCredit | OtherOrigin(code: U32)

  datatype StoredTransfer = StoredTransfer(
    slot: Slot, index: U32, id: Payload, blockId: Option<Raw<Id>>, blockTimestampMs: int,
    from: Option<Raw<Address>>, to: Option<Raw<Address>>, value: TransferValue, origin: CoinOrigin,
    operationId: Option<Raw<Id>>, asyncMsgId: Option<Bytes>, deferredCallId: Option<Bytes>,
    denunciationIndex: Option<string>)

  // ---- async pool and deferred calls --------------------------------------

  /** The set-or-keep fields that only travel through the indexer. */
  datatype AsyncField =
    | Handler | MaxGas | Fee | EmissionSlot | ValidityStart | ValidityEnd | Data | Trigger | CanBeExecuted

  datatype StoredAsyncMsg = StoredAsyncMsg(
    id: Bytes, sender: Option<Address>, destination: Option<Address>, coins: U64,
    fields: map<AsyncField, Payload>, state: AsyncMsgState, lastSlot: Option<Slot>, firstSeen: int)

  datatype StoredDeferredCall = StoredDeferredCall(
    id: Bytes, sender: Option<Address>, targetAddress: Option<Address>, coins: U64,
    targetSlot: Option<Slot>, registeredSlot: Option<Slot>, state: DeferredCallState,
    lastSlot: Option<Slot>, firstSeen: int)

  // ---- node messages ------------------------------------------------------

  datatype SlotPb = SlotPb(period: U64, thread: U32)

  /** `Slot::new(period, thread as u8)`: the thread is truncated. */
  function SlotFromPb(s: SlotPb): Slot { Slot(s.period, s.thread % 256) }

  datatype EndorsementContent = EndorsementContent(slot: Option<SlotPb>, payload: Payload)
  datatype SignedEndorsement = SignedEndorsement(
    content: Option<EndorsementContent>, secureHash: Raw<Id>, creator: Raw<Address>)

  datatype HeaderContent = HeaderContent(
    slot: Option<SlotPb>, endorsements: seq<SignedEndorsement>, denunciations: seq<StoredDenunciation>)
  datatype SignedHeader = SignedHeader(
    content: Option<HeaderContent>, secureHash: Raw<Id>, creator: Raw<Address>, payload: Payload)

  datatype OperationType =
    | TransactionOp(recipient: Raw<Address>)
    | RollBuyOp
    | RollSellOp
    | ExecuteScOp
    | CallScOp(target: Raw<Address>)

  datatype SignedOperation = SignedOperation(
    content: Option<Option<OperationType>>, secureHash: Raw<Id>, creator: Raw<Address>, payload: Payload)
  datatype FilledOperation = FilledOperation(operation: Option<SignedOperation>, operationId: Raw<Id>)
  datatype FilledBlock = FilledBlock(header: Option<SignedHeader>, operations: seq<FilledOperation>)

  datatype EventContext = EventContext(callStack: seq<Raw<Address>>, originOperationId: Option<Raw<Id>>)
  datatype ScEventPb = ScEventPb(context: Option<EventContext>, data: Payload)
  datatype ExecutedOpChange = ExecutedOpChange(operationId: Raw<Id>, status: Option<ExecStatus>)

  datatype AsyncMessage = AsyncMessage(
    sender: Raw<Address>, destination: Raw<Address>, coins: U64, fields: map<AsyncField, Payload>)
  /** The fields with a Set; a Set of an empty handler or empty data clears the field (`None`). */
  datatype AsyncUpdate = AsyncUpdate(
    sender: Option<Raw<Address>>, destination: Option<Raw<Address>>, coins: Option<U64>,
    fields: map<AsyncField, Option<Payload>>)
  datatype AsyncChange =
    | SetMsg(created: Option<AsyncMessage>)
    | UpdateMsg(updated: Option<AsyncUpdate>)
    | DeleteMsg
    | NoChange
  datatype AsyncPoolEntry = AsyncPoolEntry(id: Bytes, change: AsyncChange)

  datatype StateChanges = StateChanges(
    trailHash: Option<string>, executedOps: seq<ExecutedOpChange>, asyncPool: seq<AsyncPoolEntry>)

  /** A repeated message field has fewer than 2^32 elements. */
  type Repeated<T> = xs: seq<T> | |xs| < 0x1_0000_0000 witness []

  datatype ExecutionOutput = ExecutionOutput(
    slot: Option<SlotPb>, blockId: Option<Raw<Id>>, events: Repeated<ScEventPb>,
    stateChanges: Option<StateChanges>)
  datatype OutputStatus = FinalOutput | CandidateOutput | OtherOutput
  datatype SlotExecutionOutput = SlotExecutionOutput(status: OutputStatus, output: Option<ExecutionOutput>)

  datatype TransferInfo = TransferInfo(
    id: Payload, from: Option<Raw<Address>>, to: Option<Raw<Address>>, value: TransferValue,
    origin: CoinOrigin, operationId: Option<Raw<Id>>, asyncMsgId: Option<Bytes>,
    deferredCallId: Option<Bytes>, denunciationIndex: Option<string>)
  datatype TransfersInfo = TransfersInfo(
    slot: Option<SlotPb>, blockId: Option<Raw<Id>>, timestamp: int, transfers: Repeated<TransferInfo>)

  datatype Event =
    | Block(fb: FilledBlock)
    | Exec(out: SlotExecutionOutput)
    | Transfers(resp: TransfersInfo)
    | Tick
}
