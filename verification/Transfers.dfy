/**
 The transfer list of a slot: attribution to operations, replacement, conservation.
 */
module Transfers {
  import opened ByteStrings
  import opened Ids
  import opened Keys
  import opened Model
  import opened Store
  import opened IngestSpec
  import opened IndexRuns
  import SlotRuns
  import Families
  import EventRuns

  // ---- attribution --------------------------------------------------------

  const REWARD_ORIGINS: set<CoinOrigin> := {BlockReward, EndorsementReward, EndorsedReward, Slash, DeferredCredit}
  const CHILD_ORIGINS: set<CoinOrigin> := {AbiCallCoins, AbiTransferCoins, AbiTransferForCoins, AbiSendMsgCoins,
    AbiSendMsgFees, CreateScStorage, DatastoreStorage, SetBytecodeStorage}

  /** An unowned transfer of a message, call, denunciation or reward: what follows is on its own. */
  predicate Separates(r: StoredTransfer) {
    && r.operationId.None?
    && (r.asyncMsgId.Some? || r.deferredCallId.Some? || r.denunciationIndex.Some? || r.origin in REWARD_ORIGINS)
  }

  /** Row `j` owns what follows it up to `k`: nothing in between is owned or separates. */
  predicate Governs(rows: seq<StoredTransfer>, j: nat, k: nat)
    requires j < k <= |rows|
  {
    rows[j].operationId.Some?
    && forall m :: j < m < k ==> rows[m].operationId.None? && !Separates(rows[m])
  }

  /** The row can inherit an operation: unowned, not separating, of a child origin. */
  predicate Inherits(r: StoredTransfer) {
    r.operationId.None? && !Separates(r) && r.origin in CHILD_ORIGINS
  }

  /** The operation that is active when the pass reaches row `k`. */
  function Active(rows: seq<StoredTransfer>, current: Option<Raw<Id>>, k: nat): Option<Raw<Id>>
    requires k <= |rows|
  {
    if k == 0 then current else ActiveAfter(rows[k - 1], Active(rows, current, k - 1))
  }

  lemma {:induction false} ActiveShift(rows: seq<StoredTransfer>, current: Option<Raw<Id>>, k: nat)
    requires 0 < k <= |rows|
    ensures Active(rows[1..], ActiveAfter(rows[0], current), k - 1) == Active(rows, current, k)
  {
    if k > 1 { ActiveShift(rows, current, k - 1); }
  }

  lemma {:induction false} AttributeAt(rows: seq<StoredTransfer>, current: Option<Raw<Id>>, k: nat)
    requires k < |rows|
    ensures Attribute(rows, current)[k] == Attributed(rows[k], Active(rows, current, k))
    decreases |rows|
  {
    if k > 0 {
      AttributeAt(rows[1..], ActiveAfter(rows[0], current), k - 1);
      ActiveShift(rows, current, k);
    }
  }

  lemma SeparatesIff(r: StoredTransfer)
    ensures Separates(r) <==> IsBoundary(r)
    ensures r.origin in CHILD_ORIGINS <==> IsOpChildOrigin(r.origin)
  {}

  /** What a row gets when operation `current` is active. */
  lemma AttributedIs(r: StoredTransfer, current: Option<Raw<Id>>)
    ensures var out := Attributed(r, current);
      && out == r.(operationId := out.operationId)
      && (r.operationId.Some? ==> out.operationId == r.operationId)
      && (r.operationId.None? ==> out.operationId == if Inherits(r) then current else None)
  {
    SeparatesIff(r);
    hide Separates, IsBoundary, IsOpChildOrigin;
  }

  /** The active operation is that of the row that governs. */
  lemma {:induction false} ActiveGoverns(rows: seq<StoredTransfer>, k: nat, op: Raw<Id>)
    requires k <= |rows|
    ensures Active(rows, None, k) == Some(op)
       <==> exists j :: 0 <= j < k && Governs(rows, j, k) && rows[j].operationId == Some(op)
  {
    if k > 0 {
      var r := rows[k - 1];
      ActiveGoverns(rows, k - 1, op);
      SeparatesIff(r);
      hide Separates, IsBoundary;
      assert forall j :: 0 <= j < k - 1 ==>
        (Governs(rows, j, k) <==> Governs(rows, j, k - 1) && r.operationId.None? && !Separates(r));
      assert Governs(rows, k - 1, k) <==> r.operationId.Some?;
    }
  }

  /**
   The stateful pass is the declarative rule: a row keeps a node-given operation;
   an unowned child row gets the operation of the nearest earlier owned row that
   no reward, async, deferred or denunciation row separates from it; every other
   row stays unowned. Nothing but the operation id changes.
   */
  lemma AttributionRule(rows: seq<StoredTransfer>, k: nat)
    requires k < |rows|
    ensures var out := Attribute(rows, None)[k];
      && out == rows[k].(operationId := out.operationId)
      && (rows[k].operationId.Some? ==> out.operationId == rows[k].operationId)
      && (rows[k].operationId.None? ==>
            forall op: Raw<Id> :: out.operationId == Some(op)
              <==> (Inherits(rows[k])
                    && exists j :: 0 <= j < k && Governs(rows, j, k) && rows[j].operationId == Some(op)))
  {
    hide Inherits, Attributed, Attribute, Active, Governs;
    AttributeAt(rows, None, k);
    AttributedIs(rows[k], Active(rows, None, k));
    forall op: Raw<Id> { ActiveGoverns(rows, k, op); }
  }

  /** Running the pass again changes nothing. */
  lemma {:induction false} AttributionStable(rows: seq<StoredTransfer>, current: Option<Raw<Id>>)
    ensures Attribute(Attribute(rows, current), current) == Attribute(rows, current)
    decreases |rows|
  {
    if rows != [] {
      AttributionStable(rows[1..], ActiveAfter(rows[0], current));
      var out := Attribute(rows, current);
      assert out[1..] == Attribute(rows[1..], ActiveAfter(rows[0], current));
      assert ActiveAfter(out[0], current) == ActiveAfter(rows[0], current);
    }
  }

  // ---- filtering and conservation -----------------------------------------

  predicate Positive(v: TransferValue) {
    || (v.Coins? && v.nmas > 0)
    || (v.Rolls? && v.count > 0)
    || (v.DeferredCredits? && v.credits > 0)
  }

  function NonZero(xs: seq<TransferInfo>): seq<TransferInfo> {
    if xs == [] then []
    else (if Positive(xs[0].value) then [xs[0]] else []) + NonZero(xs[1..])
  }

  /** Row `r` records input `x` of a message about `slot` at index `i`, whatever operation it is attributed to. */
  predicate Records(r: StoredTransfer, resp: TransfersInfo, slot: Slot, x: TransferInfo, i: int) {
    && r.slot == slot && r.index == i && r.blockId == resp.blockId && r.blockTimestampMs == resp.timestamp
    && r.id == x.id && r.from == x.from && r.to == x.to && r.value == x.value && r.origin == x.origin
    && r.asyncMsgId == x.asyncMsgId && r.deferredCallId == x.deferredCallId
    && r.denunciationIndex == x.denunciationIndex
  }

  /** The rows are the non-zero inputs in order, field by field, numbered densely. */
  lemma {:induction false} DecodeIsFilter(resp: TransfersInfo, slot: Slot, xs: seq<TransferInfo>, i: nat)
    requires i + |xs| < 0x1_0000_0000
    ensures var rows := DecodeRows(resp, slot, xs, i);
      && |rows| == |NonZero(xs)|
      && forall k :: 0 <= k < |rows| ==>
           Records(rows[k], resp, slot, NonZero(xs)[k], i + k) && rows[k].operationId == NonZero(xs)[k].operationId
    decreases |xs|
  {
    hide Records, TransferRow, IsZeroValue, Positive;
    if xs != [] {
      PositiveIff(xs[0].value);
      RowRecords(resp, slot, xs[0], i);
      var next := if IsZeroValue(xs[0].value) then i else i + 1;
      DecodeIsFilter(resp, slot, xs[1..], next);
      var rest := DecodeRows(resp, slot, xs[1..], next);
      assert forall k :: 0 <= k < |rest| ==> Records(rest[k], resp, slot, NonZero(xs[1..])[k], next + k);
    }
  }

  lemma PositiveIff(v: TransferValue)
    ensures Positive(v) <==> !IsZeroValue(v)
  {}

  lemma RowRecords(resp: TransfersInfo, slot: Slot, x: TransferInfo, i: U32)
    ensures var r := TransferRow(resp, slot, x, i); Records(r, resp, slot, x, i) && r.operationId == x.operationId
  {}

  datatype Totals = Totals(coins: nat, rolls: nat, credits: nat)

  function Plus(a: Totals, b: Totals): Totals { Totals(a.coins + b.coins, a.rolls + b.rolls, a.credits + b.credits) }

  function ValueOf(v: TransferValue): Totals {
    match v
    case Coins(n) => Totals(n, 0, 0)
    case Rolls(n) => Totals(0, n, 0)
    case DeferredCredits(n) => Totals(0, 0, n)
    case UnknownValue => Totals(0, 0, 0)
  }

  function Announced(xs: seq<TransferInfo>): Totals {
    if xs == [] then Totals(0, 0, 0) else Plus(ValueOf(xs[0].value), Announced(xs[1..]))
  }

  function Recorded(rows: seq<StoredTransfer>): Totals {
    if rows == [] then Totals(0, 0, 0) else Plus(ValueOf(rows[0].value), Recorded(rows[1..]))
  }

  lemma {:induction false} DecodeConserves(resp: TransfersInfo, slot: Slot, xs: seq<TransferInfo>, i: nat)
    requires i + |xs| < 0x1_0000_0000
    ensures Recorded(DecodeRows(resp, slot, xs, i)) == Announced(xs)
    decreases |xs|
  {
    if xs != [] { DecodeConserves(resp, slot, xs[1..], if IsZeroValue(xs[0].value) then i else i + 1); }
  }

  lemma {:induction false} AttributeConserves(rows: seq<StoredTransfer>, current: Option<Raw<Id>>)
    ensures Recorded(Attribute(rows, current)) == Recorded(rows)
    decreases |rows|
  {
    if rows != [] { AttributeConserves(rows[1..], ActiveAfter(rows[0], current)); }
  }

  /** Filtering and attribution lose no coin, roll or deferred credit. */
  lemma RowsConserve(resp: TransfersInfo, slot: Slot)
    ensures Recorded(TransferRows(resp, slot)) == Announced(resp.transfers)
  {
    DecodeConserves(resp, slot, resp.transfers, 0);
    AttributeConserves(DecodeRows(resp, slot, resp.transfers, 0), None);
  }

  // ---- replacement --------------------------------------------------------

  /** The transfers of `slot` are exactly `rows`, at indices 0, 1, 2, … */
  ghost predicate Holds(x: Indexed<StoredTransfer>, slot: Slot, rows: seq<StoredTransfer>) {
    && |rows| < 0x1_0000_0000
    && (forall i :: 0 <= i < |rows| ==> HoldsAt(x, slot, rows, i))
    && (forall k :: k in x.rows && SlotKey(slot) <= k ==> exists i: U32 :: i < |rows| && k == SlotIndexedKey(slot, i))
  }

  predicate HoldsAt(x: Indexed<StoredTransfer>, slot: Slot, rows: seq<StoredTransfer>, i: int)
    requires 0 <= i < |rows| < 0x1_0000_0000
  {
    SlotIndexedKey(slot, i) in x.rows && x.rows[SlotIndexedKey(slot, i)] == rows[i]
  }

  lemma PutTransferRow(x: Indexed<StoredTransfer>, r: StoredTransfer)
    ensures PutTransfer(x, r).rows == x.rows[SlotIndexedKey(r.slot, r.index) := r]
  {}

  lemma DenseTail(rows: seq<StoredTransfer>, slot: Slot, i: nat)
    requires Dense(rows, slot, i) && rows != []
    ensures Dense(rows[1..], slot, i + 1)
    ensures i + |rows| < 0x1_0000_0000 && rows[0].slot == slot && rows[0].index == i
  {}

  lemma {:induction false} PutTransfersEffect(x: Indexed<StoredTransfer>, rows: seq<StoredTransfer>, slot: Slot, i: nat)
    requires Dense(rows, slot, i)
    ensures var y := PutTransfers(x, rows);
      && (forall j: U32 :: i <= j < i + |rows| ==>
            SlotIndexedKey(slot, j) in y.rows && y.rows[SlotIndexedKey(slot, j)] == rows[j - i])
      && (forall k :: k in y.rows ==>
          k in x.rows || exists j: U32 :: i <= j < i + |rows| && k == SlotIndexedKey(slot, j))
      && (forall k :: k in x.rows && (forall j: U32 :: i <= j < i + |rows| ==> k != SlotIndexedKey(slot, j))
            ==> k in y.rows && y.rows[k] == x.rows[k])
    decreases |rows|
  {
    hide SlotIndexedKey, TransferEntries, Dense, PutTransfer;
    if rows != [] {
      DenseTail(rows, slot, i);
      PutTransferRow(x, rows[0]);
      PutTransfersEffect(PutTransfer(x, rows[0]), rows[1..], slot, i + 1);
      forall j: U32 | i + 1 <= j ensures SlotIndexedKey(slot, i) != SlotIndexedKey(slot, j) {
        EventRuns.KeysDiffer(slot, i, j);
      }
    }
  }

  /** Clear-and-rewrite: the slot has exactly the new rows, the other slots keep theirs. */
  lemma ReplaceEffect(x: Indexed<StoredTransfer>, rows: seq<StoredTransfer>, slot: Slot)
    requires Dense(rows, slot, 0)
    ensures var y := PutTransfers(ClearTransfers(x, slot), rows);
      && Holds(y, slot, rows)
      && forall k :: !(SlotKey(slot) <= k) ==> RowAt(y, k) == RowAt(x, k)
  {
    hide SlotKey, SlotIndexedKey, TransferEntries, PutTransfers;
    var y := PutTransfers(ClearTransfers(x, slot), rows);
    PutTransfersEffect(ClearTransfers(x, slot), rows, slot, 0);
    forall i | 0 <= i < |rows| ensures HoldsAt(y, slot, rows, i) {}
  }

  predicate CutsOff(x: TransferInfo) {
    && x.operationId.None?
    && (x.asyncMsgId.Some? || x.deferredCallId.Some? || x.denunciationIndex.Some? || x.origin in REWARD_ORIGINS)
  }

  predicate MayInherit(x: TransferInfo) {
    x.operationId.None? && !CutsOff(x) && x.origin in CHILD_ORIGINS
  }

  /** Input `j` owns what follows it up to `k`. */
  predicate Owns(xs: seq<TransferInfo>, j: nat, k: nat)
    requires j < k <= |xs|
  {
    xs[j].operationId.Some? && forall m :: j < m < k ==> xs[m].operationId.None? && !CutsOff(xs[m])
  }

  /**
   The rows of a message are its non-zero inputs in order. Each keeps the operation it
   was given; an unowned child input gets that of the nearest earlier owned input that
   no separating one cuts off.
   */
  lemma RowsAre(resp: TransfersInfo, slot: Slot)
    ensures var rows := TransferRows(resp, slot);
      var xs := NonZero(resp.transfers);
      && |rows| == |xs|
      && (forall i :: 0 <= i < |rows| ==> Records(rows[i], resp, slot, xs[i], i))
      && (forall i :: 0 <= i < |rows| && xs[i].operationId.Some? ==> rows[i].operationId == xs[i].operationId)
      && forall i, op: Raw<Id> :: 0 <= i < |rows| && xs[i].operationId.None? ==>
           (rows[i].operationId == Some(op)
            <==> MayInherit(xs[i]) && exists j :: 0 <= j < i && Owns(xs, j, i) && xs[j].operationId == Some(op))
  {
    var xs := NonZero(resp.transfers);
    DecodeIsFilter(resp, slot, resp.transfers, 0);
    var decoded := DecodeRows(resp, slot, resp.transfers, 0);
    assert forall k :: 0 <= k < |decoded| ==> Records(decoded[k], resp, slot, xs[k], 0 + k);
    forall k | 0 <= k < |decoded|
      ensures Separates(decoded[k]) <==> CutsOff(xs[k])
      ensures Inherits(decoded[k]) <==> MayInherit(xs[k])
      ensures decoded[k].operationId == xs[k].operationId
    {
      assert Records(decoded[k], resp, slot, xs[k], 0 + k);
    }
    forall i, j | 0 <= j < i < |decoded| ensures Governs(decoded, j, i) <==> Owns(xs, j, i) {
      hide Separates, CutsOff;
      assert forall m :: j < m < i ==> (Separates(decoded[m]) <==> CutsOff(xs[m]));
    }
    hide Records, Inherits, MayInherit, Governs, Owns, NonZero, DecodeRows, Attribute;
    forall i | 0 <= i < |decoded| { AttributionRule(decoded, i); }
    forall i | 0 <= i < |decoded| ensures Records(TransferRows(resp, slot)[i], resp, slot, xs[i], i) {
      RecordsStays(decoded[i], TransferRows(resp, slot)[i], resp, slot, xs[i], i);
    }
  }

  lemma RecordsStays(r: StoredTransfer, s: StoredTransfer, resp: TransfersInfo, slot: Slot, x: TransferInfo, i: int)
    requires Records(r, resp, slot, x, i) && s == r.(operationId := s.operationId)
    ensures Records(s, resp, slot, x, i)
  {}

  /** An index row that leads into a slot is an index row of one of the slot's rows. */
  lemma EntryOfHeld(y: Indexed<StoredTransfer>, slot: Slot, rows: seq<StoredTransfer>, e: Entry)
    requires Exact(y, TransferT, TransferEntries) && Holds(y, slot, rows)
    requires e in y.idx && KeyIn(TransferT, e).Some? && SlotKey(slot) <= KeyIn(TransferT, e).value
    ensures exists i :: 0 <= i < |rows| && e in TransferEntries(rows[i])
  {
    hide SlotKey, SlotIndexedKey, TransferEntries, KeyIn;
    assert Owned(y, TransferT, TransferEntries, e);
    var i: U32 :| i < |rows| && KeyIn(TransferT, e).value == SlotIndexedKey(slot, i);
    assert HoldsAt(y, slot, rows, i);
  }

  lemma TransfersStayExact(t: Tables, resp: TransfersInfo, now: int)
    requires Valid(t)
    ensures Exact(HandleTransfers(t, resp, now).tables.transfers, TransferT, TransferEntries)
  {
    hide HandleTransfers, Exact;
    HandleTransfersValid(t, resp, now);
  }

  /**
   What one transfers message does to the transfer table: the slot's rows become
   the non-zero inputs in order at dense indices, with nothing lost in value; the
   index rows that lead into the slot are exactly those of the new rows; every
   other slot's transfers are untouched.
   */
  lemma TransferReplacement(t: Tables, resp: TransfersInfo, now: int)
    requires Valid(t) && resp.slot.Some?
    ensures var slot := SlotFromPb(resp.slot.value);
      var y := HandleTransfers(t, resp, now).tables.transfers;
      var rows := TransferRows(resp, slot);
      && Holds(y, slot, rows)
      && |rows| == |NonZero(resp.transfers)|
      && (forall i :: 0 <= i < |rows| ==>
            Records(rows[i], resp, slot, NonZero(resp.transfers)[i], i))
      && Recorded(rows) == Announced(resp.transfers)
      && (forall k :: !(SlotKey(slot) <= k) ==> RowAt(y, k) == RowAt(t.transfers, k))
      && (forall e :: e in y.idx && KeyIn(TransferT, e).Some? && SlotKey(slot) <= KeyIn(TransferT, e).value
            ==> exists i :: 0 <= i < |rows| && e in TransferEntries(rows[i]))
  {
    hide SlotKey, SlotIndexedKey, TransferEntries, PutTransfers, ReconcileAsync, ReconcileDeferred, KeyIn, Records;
    hide MayInherit, Owns, ClearTransfers, SlotOrFresh, Owned, Holds, Recorded, Announced, NonZero, Dense;
    hide TransferRows, Exact, Valid;
    var slot := SlotFromPb(resp.slot.value);
    var rows := TransferRows(resp, slot);
    var y := HandleTransfers(t, resp, now).tables.transfers;
    TransferRowsDense(resp, slot);
    ReplaceEffect(t.transfers, rows, slot);
    RowsConserve(resp, slot);
    RowsAre(resp, slot);
    TransfersStayExact(t, resp, now);
    forall e | e in y.idx && KeyIn(TransferT, e).Some? && SlotKey(slot) <= KeyIn(TransferT, e).value
      ensures exists i :: 0 <= i < |rows| && e in TransferEntries(rows[i])
    {
      EntryOfHeld(y, slot, rows, e);
    }
  }

  /**
   Which index rows a slot's transfers have after a message, said of its inputs: the
   `i`-th non-zero one is filed under its sender, its receiver, the message's block and
   the operation that its row is attributed to.
   */
  lemma TransferIndexRows(t: Tables, resp: TransfersInfo, now: int, a: Address, id: Id, i: U32)
    requires Valid(t) && resp.slot.Some?
    ensures var slot := SlotFromPb(resp.slot.value);
      var xs := NonZero(resp.transfers);
      var rows := TransferRows(resp, slot);
      var idx := HandleTransfers(t, resp, now).tables.transfers.idx;
      && |rows| == |xs|
      && (Entry(TransferByAddr, TransferByAddrKey(a, slot, i, TAG_FROM)) in idx
          <==> i < |xs| && xs[i].from == Some(Parsed(a)))
      && (Entry(TransferByAddr, TransferByAddrKey(a, slot, i, TAG_TO)) in idx
          <==> i < |xs| && xs[i].to == Some(Parsed(a)))
      && (Entry(TransferByBlock, IdSlotIndexKey(id, slot, i)) in idx <==> i < |xs| && resp.blockId == Some(Parsed(id)))
      && (Entry(TransferByOp, IdSlotIndexKey(id, slot, i)) in idx
          <==> i < |xs| && rows[i].operationId == Some(Parsed(id)))
  {
    hide HandleTransfers, Valid, TransferRows, NonZero, SlotKey, SlotIndexedKey, TransferByAddrKey, IdSlotIndexKey;
    hide MayInherit, Owns, Exact, TransferEntries;
    var slot := SlotFromPb(resp.slot.value);
    var rows := TransferRows(resp, slot);
    var y := HandleTransfers(t, resp, now).tables.transfers;
    HandleTransfersValid(t, resp, now);
    assert SoundTransfers(y) by { ValidTransfers(HandleTransfers(t, resp, now).tables); }
    Families.TransferFamilies(y, a, id, slot, i);
    TransferReplacement(t, resp, now);
    RowsAre(resp, slot);
    if i < |rows| {
      assert HoldsAt(y, slot, rows, i);
      assert Records(rows[i], resp, slot, NonZero(resp.transfers)[i], i);
    } else if SlotIndexedKey(slot, i) in y.rows {
      assert SlotKey(slot) <= SlotIndexedKey(slot, i);
      var j: U32 :| j < |rows| && SlotIndexedKey(slot, i) == SlotIndexedKey(slot, j);
      EventRuns.KeysDiffer(slot, i, j);
    }
  }

  lemma ValidTransfers(t: Tables)
    requires Valid(t)
    ensures SoundTransfers(t.transfers)
  {}
}
