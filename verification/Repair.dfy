/**
 The checkpointed range passes, each run of which may die at any point, and the
 two store readers that decide what a pass does with a slot.
 */
module Repair {
  import opened ByteStrings
  import opened Ids
  import opened Keys
  import opened Model
  import opened Store

  const CHECKPOINT_EVERY := 64

  /**
   What the surroundings answer at each tick of a clock that survives restarts:
   the store as a reader finds it (`None`: the read failed), whether the process
   and the ingest channel are up, whether a checkpoint read or write succeeds.
   */
  datatype Surroundings = Surroundings(
    view: nat -> Option<Tables>, alive: nat -> bool, getOk: nat -> bool, putOk: nat -> bool)

  /** The checkpoint as stored under the pass's own key. */
  datatype Checkpoint = Absent | Garbled | At(period: nat)

  function Max(a: int, b: int): int { if a < b then b else a }
  function Min(a: int, b: int): int { if a < b then a else b }

  // ---- what a FINAL slot without transfers is rebuilt from -----------------

  /** The transaction fields and derived texts that the model keeps opaque. */
  datatype Details = Details(
    amount: StoredOperation -> Option<U64>, recipient: StoredOperation -> Option<Raw<Address>>,
    rowId: (Id, U32) -> Payload, timestamp: Slot -> int)

  datatype Patch = Patch(slot: Slot, finalBlockId: Id, transfers: seq<StoredTransfer>)

  predicate Rebuildable(s: SlotState) {
    s.status == SlotStatus.Final && !s.isMiss && !s.completeness.transfersStored && s.executedOpIds != []
        && s.finalBlockId.Some?
  }

  /** A successfully executed transaction that moves coins to a known recipient. */
  predicate Moves(d: Details, ops: map<Bytes, StoredOperation>, id: Id) {
    && id in ops
    && ops[id].kind == Transaction && ops[id].finalExecStatus == Some(ExecStatus.Ok)
    && d.amount(ops[id]).Some? && d.amount(ops[id]).value != 0 && d.recipient(ops[id]).Some?
  }

  /** `index_in_slot` is a u32. */
  function RowIndex(n: nat): U32 { n % 0x1_0000_0000 }

  function MoveRow(d: Details, o: StoredOperation, slot: Slot, block: Id, n: nat): StoredTransfer
    requires d.amount(o).Some? && d.recipient(o).Some?
  {
    StoredTransfer(slot, RowIndex(n), d.rowId(o.id, RowIndex(n)), Some(Parsed(block)), d.timestamp(slot),
                   Some(Parsed(o.creator)), d.recipient(o), Coins(d.amount(o).value), OpTransactionCoins,
                   Some(Parsed(o.id)), None, None, None)
  }

  /** The operations among `ids` that move coins, in order. */
  function Movers(d: Details, ops: map<Bytes, StoredOperation>, ids: seq<Id>): seq<Id> {
    if ids == [] then []
    else
      var front := Movers(d, ops, ids[..|ids| - 1]);
      var last := ids[|ids| - 1];
      if Moves(d, ops, last) then front + [last] else front
  }

  lemma {:induction false} MoversMove(d: Details, ops: map<Bytes, StoredOperation>, ids: seq<Id>)
    ensures forall id :: id in Movers(d, ops, ids) <==> id in ids && Moves(d, ops, id)
  {
    if ids != [] {
      MoversMove(d, ops, ids[..|ids| - 1]);
      assert ids == ids[..|ids| - 1] + [ids[|ids| - 1]];
    }
  }

  /** Row `r` is the coin movement of transaction `o`, the `n`-th of the slot. */
  predicate Restores(r: StoredTransfer, d: Details, o: StoredOperation, slot: Slot, block: Id, n: int) {
    && r.slot == slot && r.index == n % 0x1_0000_0000 && r.id == d.rowId(o.id, r.index)
    && r.blockId == Some(Parsed(block)) && r.blockTimestampMs == d.timestamp(slot)
    && r.from == Some(Parsed(o.creator)) && r.to.Some? && r.to == d.recipient(o)
    && r.value.Coins? && Some(r.value.nmas) == d.amount(o) && r.origin == OpTransactionCoins
    && r.operationId == Some(Parsed(o.id))
    && r.asyncMsgId.None? && r.deferredCallId.None? && r.denunciationIndex.None?
  }

  /** One row per mover, numbered from 0 in execution order, and nothing else. */
  ghost predicate RowsOf(d: Details, ops: map<Bytes, StoredOperation>, slot: Slot, block: Id, movers: seq<Id>,
                         rows: seq<StoredTransfer>) {
    && |rows| == |movers|
    && forall n :: 0 <= n < |rows| ==> Moves(d, ops, movers[n]) && Restores(rows[n], d, ops[movers[n]], slot, block, n)
  }

  /** The patch a slot calls for, if it calls for one. */
  ghost predicate IsPatch(d: Details, t: Tables, slot: Slot, p: Option<Patch>) {
    var s := SlotAt(t.slots, slot);
    var movers := if s.Some? && Rebuildable(s.value) then Movers(d, t.ops.rows, s.value.executedOpIds) else [];
    && (p.None? <==> movers == [])
    && (p.Some? ==> p.value.slot == slot && Some(p.value.finalBlockId) == s.value.finalBlockId
                    && RowsOf(d, t.ops.rows, slot, p.value.finalBlockId, movers, p.value.transfers))
  }

  /** A slot calls for one patch only. */
  lemma PatchUnique(d: Details, t: Tables, slot: Slot, p: Option<Patch>, q: Option<Patch>)
    requires IsPatch(d, t, slot, p) && IsPatch(d, t, slot, q)
    ensures p == q
  {
    if p.Some? {
      assert p.value.transfers == q.value.transfers;
    }
  }

  method ReconstructSlot(d: Details, t: Tables, slot: Slot) returns (resp: Option<Patch>)
    ensures IsPatch(d, t, slot, resp)
  {
    var state := SlotAt(t.slots, slot);
    if state.None? {
      return None;
    }
    var s := state.value;
    if s.status != SlotStatus.Final || s.isMiss || s.completeness.transfersStored || s.executedOpIds == [] {
      return None;
    }
    if s.finalBlockId.None? {
      return None;
    }
    var block := s.finalBlockId.value;
    var rows := [];
    var ids := s.executedOpIds;
    for i := 0 to |ids|
      invariant RowsOf(d, t.ops.rows, slot, block, Movers(d, t.ops.rows, ids[..i]), rows)
    {
      assert ids[..i + 1][..i] == ids[..i];
      if ids[i] in t.ops.rows {
        var o := t.ops.rows[ids[i]];
        if o.kind == Transaction && o.finalExecStatus == Some(ExecStatus.Ok) {
          var amount, to := d.amount(o), d.recipient(o);
          if amount.Some? && amount.value != 0 && to.Some? {
            rows := rows + [MoveRow(d, o, slot, block, |rows|)];
          }
        }
      }
    }
    assert ids[..|ids|] == ids;
    return if rows == [] then None else Some(Patch(slot, block, rows));
  }

  // ---- which FINAL slots are pulled from peers -----------------------------

  datatype FinalSlotParts = FinalSlotParts(block: bool, execOutput: bool, transfers: bool)

  predicate ScOp(ops: map<Bytes, StoredOperation>, id: Id) {
    id in ops && (ops[id].kind == CallSc || ops[id].kind == ExecuteSc) && ops[id].finalExecStatus == Some(ExecStatus.Ok)
  }

  /** A FINAL slot whose requested streams are not all in, restricted on demand to slots that ran a contract. */
  predicate Lacks(t: Tables, slot: Slot, parts: FinalSlotParts, requireScOps: bool) {
    var s := SlotAt(t.slots, slot);
    && s.Some? && s.value.status == SlotStatus.Final
    && !s.value.completeness.IsComplete(s.value.isMiss, StreamsExpected(parts.block, parts.execOutput, parts.transfers))
    && (requireScOps ==> exists id :: id in s.value.executedOpIds && ScOp(t.ops.rows, id))
  }

  method SlotHasSuccessfulScOp(t: Tables, s: SlotState) returns (found: bool)
    ensures found <==> exists id :: id in s.executedOpIds && ScOp(t.ops.rows, id)
  {
    for i := 0 to |s.executedOpIds|
      invariant forall id :: id in s.executedOpIds[..i] ==> !ScOp(t.ops.rows, id)
    {
      var id := s.executedOpIds[i];
      if id in t.ops.rows {
        var o := t.ops.rows[id];
        if (o.kind == CallSc || o.kind == ExecuteSc) && o.finalExecStatus == Some(ExecStatus.Ok) {
          assert id in s.executedOpIds;
          return true;
        }
      }
    }
    return false;
  }

  method SlotLacksParts(t: Tables, slot: Slot, parts: FinalSlotParts, requireScOps: bool) returns (r: bool)
    ensures r == Lacks(t, slot, parts, requireScOps)
  {
    var row := SlotAt(t.slots, slot);
    if row.None? {
      return false;
    }
    var s := row.value;
    if s.status != SlotStatus.Final {
      return false;
    }
    var c := s.completeness;
    var lacking := (parts.block && !s.isMiss && !c.blockBodyStored)
      || (parts.execOutput && !c.execOutputFinal)
      || (parts.transfers && !c.transfersStored);
    if !lacking {
      return false;
    }
    if requireScOps {
      var sc := SlotHasSuccessfulScOp(t, s);
      if !sc {
        return false;
      }
    }
    return true;
  }

  // ---- the ascending pass --------------------------------------------------

  /** One look at a slot, at a tick. */
  datatype Scan = Scan(slot: Slot, at: nat)

  /** Any 64 consecutive periods hold one at which a checkpoint is written. */
  lemma NextCheckpoint(p: nat)
    ensures exists q :: p <= q < p + CHECKPOINT_EVERY && q % CHECKPOINT_EVERY == 0
  {
    var q := p + 63 - (p + 63) % 64;
    assert p <= q < p + CHECKPOINT_EVERY && q % CHECKPOINT_EVERY == 0;
  }

  ghost predicate Looked(scans: seq<Scan>, p: int, thread: int) {
    exists i :: 0 <= i < |scans| && scans[i].slot.period == p && scans[i].slot.thread == thread
  }

  /** Every slot of the periods from `from` up to, not including, `end` was looked at. */
  ghost predicate Covered(scans: seq<Scan>, from: int, end: int, threads: nat) {
    forall p, thread :: from <= p < end && 0 <= thread < threads ==> Looked(scans, p, thread)
  }

  lemma NothingToCover(scans: seq<Scan>, from: int, end: int, threads: nat)
    requires end <= from
    ensures Covered(scans, from, end, threads)
  {}

  lemma CoverKeeps(scans: seq<Scan>, more: seq<Scan>, from: int, end: int, threads: nat)
    requires scans <= more && Covered(scans, from, end, threads)
    ensures Covered(more, from, end, threads)
  {
    forall p, thread | from <= p < end && 0 <= thread < threads ensures Looked(more, p, thread) {
      assert Looked(scans, p, thread);
      var i :| 0 <= i < |scans| && scans[i].slot.period == p && scans[i].slot.thread == thread;
      assert more[i] == scans[i];
    }
  }

  /** One more thread of period `p`; with the last thread, the period is done. */
  lemma CoverThread(scans: seq<Scan>, s: Scan, from: int, p: int, threads: nat)
    requires Covered(scans, from, p, threads) && Covered(scans, p, p + 1, s.slot.thread) && s.slot.period == p
    ensures Covered(scans + [s], from, p, threads) && Covered(scans + [s], p, p + 1, s.slot.thread + 1)
  {
    CoverKeeps(scans, scans + [s], from, p, threads);
    CoverKeeps(scans, scans + [s], p, p + 1, s.slot.thread);
    assert (scans + [s])[|scans|] == s;
    assert Looked(scans + [s], p, s.slot.thread);
  }

  ghost predicate CoveredAt(scans: seq<Scan>, p: int, threads: nat) {
    Covered(scans, p, p + 1, threads)
  }

  lemma CoverPeriod(scans: seq<Scan>, from: int, p: int, threads: nat)
    requires Covered(scans, from, p, threads) && Covered(scans, p, p + 1, threads)
    ensures Covered(scans, from, p + 1, threads)
  {}

  /** No checkpoint is due at a period from `from` up to, not including, `to`. */
  ghost predicate NoneDue(from: int, to: int) {
    forall q :: from <= q < to ==> q % CHECKPOINT_EVERY != 0
  }

  /** A stretch of periods without a checkpoint is short; it grows by a period that is not due. */
  lemma NoneDueIsShort(from: nat, to: int)
    requires NoneDue(from, to)
    ensures to < from + CHECKPOINT_EVERY
    ensures to % CHECKPOINT_EVERY != 0 ==> NoneDue(from, to + 1)
  {
    NextCheckpoint(from);
  }

  lemma NoneDueYet(from: int, to: int)
    requires to <= from
    ensures NoneDue(from, to)
  {}

  class ReconstructPass {
    const fromPeriod: U64
    const toPeriod: U64
    const threadCount: Byte
    const details: Details
    const env: Surroundings

    var now: nat
    var checkpoint: Checkpoint
    /** Every patch handed to the ingest channel, over all runs. */
    var sent: seq<Patch>
    ghost var scans: seq<Scan>

    constructor (fromPeriod: U64, toPeriod: U64, threadCount: Byte, details: Details, env: Surroundings)
      requires toPeriod < 0xFFFF_FFFF_FFFF_FFFF
      ensures Sound() && checkpoint == Absent && scans == [] && sent == []
    {
      this.fromPeriod, this.toPeriod, this.threadCount := fromPeriod, toPeriod, threadCount;
      this.details, this.env := details, env;
      now, checkpoint, sent, scans := 0, Absent, [], [];
    }

    ghost predicate CoveredTo(end: int)
      reads this
    {
      Covered(scans, fromPeriod, end, threadCount)
    }

    /** The patches sent are exactly those that the looks called for, in order. */
    ghost predicate SentIsCalledFor(scans: seq<Scan>, sent: seq<Patch>) {
      if scans == [] then sent == []
      else
        var last := scans[|scans| - 1];
        var t := env.view(last.at);
        if t.Some? && !IsPatch(details, t.value, last.slot, None)
        then sent != [] && IsPatch(details, t.value, last.slot, Some(sent[|sent| - 1]))
             && SentIsCalledFor(scans[..|scans| - 1], sent[..|sent| - 1])
        else SentIsCalledFor(scans[..|scans| - 1], sent)
    }

    /** What every state between two steps of a run satisfies, whatever crashes came before. */
    ghost predicate Sound()
      reads this
    {
      && toPeriod < 0xFFFF_FFFF_FFFF_FFFF
      && SentIsCalledFor(scans, sent)
      && (checkpoint.At? ==> checkpoint.period <= toPeriod + 1 && CoveredTo(checkpoint.period))
    }

    /** Where the next run starts if it can read the checkpoint. */
    ghost function Resume(): nat
      reads this
    {
      if checkpoint.At? then Max(checkpoint.period, fromPeriod) else fromPeriod
    }

    ghost predicate Complete()
      reads this
    {
      Resume() > toPeriod
    }

    /** The walk from `start` upwards; false when the process or the channel goes. */
    method Walk(start: nat) returns (done: bool, ghost reached: nat)
      requires Sound() && fromPeriod <= start <= toPeriod + 1 && start <= Resume() && CoveredTo(start)
      modifies this
      ensures Sound() && old(scans) <= scans && old(sent) <= sent
      ensures (forall n :: env.alive(n)) ==> done
      ensures CoveredTo(if done then toPeriod + 1 else reached)
      ensures !done && (forall n :: env.putOk(n)) ==> reached < Resume() + CHECKPOINT_EVERY
      ensures checkpoint == old(checkpoint) || (checkpoint.At? && checkpoint.period > start)
    {
      hide Covered, SentIsCalledFor, NoneDue;
      reached := start;
      var period := start;
      NoneDueYet(Resume(), period);
      while period <= toPeriod
        invariant start <= period <= toPeriod + 1
        invariant Sound() && CoveredTo(period)
        invariant old(scans) <= scans && old(sent) <= sent
        invariant (forall n :: env.putOk(n)) ==> NoneDue(Resume(), period)
        invariant checkpoint == old(checkpoint) || (checkpoint.At? && checkpoint.period > start)
      {
        reached := period;
        if forall n :: env.putOk(n) { NoneDueIsShort(Resume(), period); }
        if !env.alive(now) {
          return false, reached;
        }
        now := now + 1;
        var ok := ScanPeriod(period);
        if !ok {
          return false, reached;
        }
        if period % CHECKPOINT_EVERY == 0 {
          if env.putOk(now) {
            checkpoint := At(period + 1);
          }
          NoneDueYet(period + 1, period + 1);
          now := now + 1;
        }
        period := period + 1;
      }
      done := true;
    }

    /** One process life: from the checkpoint to the end of the range, or until the process or the channel goes. */
    method Run() returns (done: bool, ghost reached: nat)
      requires Sound()
      modifies this
      ensures Sound()
      ensures old(scans) <= scans && old(sent) <= sent
      // a completed range is left alone
      ensures old(Complete()) && env.getOk(old(now)) ==>
                done && scans == old(scans) && sent == old(sent) && checkpoint == old(checkpoint)
      // an unbroken run finishes, and its last checkpoint closes the range
      ensures (forall n :: env.alive(n)) ==> done
      ensures done ==> CoveredTo(toPeriod + 1)
      ensures done && (forall n :: env.putOk(n)) ==> Complete()
      // a broken run leaves at most 64 periods to walk again
      ensures !done ==> CoveredTo(reached)
      ensures !done && (forall n :: env.putOk(n)) ==> reached < Resume() + CHECKPOINT_EVERY
      // and the checkpoint moves up only
      ensures env.getOk(old(now)) && old(checkpoint).At? ==>
                checkpoint.At? && checkpoint.period >= old(checkpoint).period
    {
      hide Covered, SentIsCalledFor;
      var start := fromPeriod;
      if env.getOk(now) && checkpoint.At? {
        start := Max(checkpoint.period, fromPeriod);
      }
      now := now + 1;
      reached := start;
      if start == fromPeriod { NothingToCover(scans, fromPeriod, start, threadCount); }
      if fromPeriod > toPeriod { NothingToCover(scans, fromPeriod, toPeriod + 1, threadCount); }
      if start > toPeriod {
        return true, reached;
      }
      done, reached := Walk(start);
      if !done {
        return;
      }
      if env.putOk(now) {
        checkpoint := At(toPeriod + 1);
      }
      now := now + 1;
    }

    /** Look at every thread of one period and send the patches; false when the process or the channel goes. */
    method ScanPeriod(period: U64) returns (ok: bool)
      requires Sound() && fromPeriod <= period <= toPeriod && CoveredTo(period)
      modifies this`now, this`sent, this`scans
      ensures Sound() && CoveredTo(if ok then period + 1 else period)
      ensures old(scans) <= scans && old(sent) <= sent
      ensures (forall n :: env.alive(n)) ==> ok
    {
      hide Covered, SentIsCalledFor, IsPatch;
      var thread := 0;
      NoThreads(scans, period);
      while thread < threadCount
        invariant 0 <= thread <= threadCount
        invariant Sound() && CoveredTo(period) && Covered(scans, period, period + 1, thread)
        invariant old(scans) <= scans && old(sent) <= sent
      {
        var slot := Slot(period, thread);
        var at := now;
        var seen := env.view(at);
        now := now + 1;
        var resp := None;
        if seen.Some? {
          resp := ReconstructSlot(details, seen.value, slot);
        }
        if resp.Some? && !env.alive(now) {
          return false;
        }
        CoverThread(scans, Scan(slot, at), fromPeriod, period, threadCount);
        Append(slot, at, resp);
        thread := thread + 1;
      }
      CoverPeriod(scans, fromPeriod, period, threadCount);
      return true;
    }

    /** The log of a look and, with it, the send it led to. */
    method Append(slot: Slot, at: nat, resp: Option<Patch>)
      requires Sound()
      requires env.view(at).Some? ==> IsPatch(details, env.view(at).value, slot, resp)
      requires env.view(at).None? ==> resp.None?
      modifies this`now, this`sent, this`scans
      ensures Sound() && scans == old(scans) + [Scan(slot, at)]
      ensures sent == if resp.Some? then old(sent) + [resp.value] else old(sent)
    {
      hide IsPatch, Covered, SentIsCalledFor;
      SentNext(scans, sent, Scan(slot, at), resp);
      if resp.Some? {
        sent := sent + [resp.value];
        now := now + 1;
      }
      scans := scans + [Scan(slot, at)];
      if checkpoint.At? { CoverKeeps(old(scans), scans, fromPeriod, checkpoint.period, threadCount); }
    }

    lemma SentNext(scans: seq<Scan>, sent: seq<Patch>, s: Scan, resp: Option<Patch>)
      requires SentIsCalledFor(scans, sent)
      requires env.view(s.at).Some? ==> IsPatch(details, env.view(s.at).value, s.slot, resp)
      requires env.view(s.at).None? ==> resp.None?
      ensures SentIsCalledFor(scans + [s], if resp.Some? then sent + [resp.value] else sent)
    {
      hide IsPatch;
      assert (scans + [s])[..|scans|] == scans;
      if resp.Some? {
        assert (sent + [resp.value])[..|sent|] == sent;
        PatchIsUnique(env.view(s.at).value, s.slot, resp);
      }
    }

    lemma NoThreads(scans: seq<Scan>, p: int)
      ensures Covered(scans, p, p + 1, 0)
    {}

    lemma PatchIsUnique(t: Tables, slot: Slot, p: Option<Patch>)
      requires IsPatch(details, t, slot, p) && p.Some?
      ensures !IsPatch(details, t, slot, None)
    {}

    /** Any number of process lives, one after the other, each cut short wherever its surroundings say. */
    method Lives(n: nat)
      requires Sound()
      modifies this
      ensures Sound()
      ensures old(scans) <= scans && old(sent) <= sent
    {
      for i := 0 to n
        invariant Sound() && old(scans) <= scans && old(sent) <= sent
      {
        var done, reached := Run();
      }
    }
  }

  // ---- the descending pass -------------------------------------------------

  /** Periods `lo..=hi` asked of the peers in one request, and the slots listed as needy. */
  datatype Window = Window(lo: nat, hi: nat, looks: seq<Scan>, needy: seq<Slot>)

  /** `ws` goes down from `top` to `bottom` without a gap or an overlap. */
  predicate Tiles(ws: seq<Window>, top: int, bottom: int) {
    if ws == [] then top + 1 == bottom
    else
      var last := ws[|ws| - 1];
      last.lo == bottom && last.lo <= last.hi && Tiles(ws[..|ws| - 1], top, last.hi + 1)
  }

  ghost predicate Holds(ws: seq<Window>, i: int, p: int) {
    0 <= i < |ws| && ws[i].lo <= p <= ws[i].hi
  }

  ghost predicate Asked(ws: seq<Window>, p: int) {
    exists i :: Holds(ws, i, p)
  }

  /** A tiling puts every period of its range in one window, and in one only. */
  lemma {:induction false} TilesOnce(ws: seq<Window>, top: int, bottom: int)
    requires Tiles(ws, top, bottom)
    ensures bottom <= top + 1
    ensures forall p :: bottom <= p <= top <==> Asked(ws, p)
    ensures forall p, i, j :: Holds(ws, i, p) && Holds(ws, j, p) ==> i == j
  {
    if ws != [] {
      var front, last := ws[..|ws| - 1], ws[|ws| - 1];
      TilesOnce(front, top, last.hi + 1);
      assert ws == front + [last];
      forall p ensures bottom <= p <= top <==> Asked(ws, p) { AskedMore(front, last, p); }
      forall p, i, j | Holds(ws, i, p) && Holds(ws, j, p) ensures i == j {
        assert i < |front| ==> Holds(front, i, p) && Asked(front, p);
        assert j < |front| ==> Holds(front, j, p) && Asked(front, p);
      }
    }
  }

  /** A window more asks for its own periods more. */
  lemma AskedMore(ws: seq<Window>, w: Window, p: int)
    ensures Asked(ws + [w], p) <==> Asked(ws, p) || w.lo <= p <= w.hi
  {
    if w.lo <= p <= w.hi { assert Holds(ws + [w], |ws|, p); }
    if Asked(ws, p) {
      var i :| Holds(ws, i, p);
      assert Holds(ws + [w], i, p);
    }
    if Asked(ws + [w], p) {
      var i :| Holds(ws + [w], i, p);
      assert i < |ws| ==> Holds(ws, i, p);
    }
  }

  class PullPass {
    const fromPeriod: U64
    const toPeriod: U64
    const parts: FinalSlotParts
    const threadCount: Byte
    const requireScOps: bool
    const rangePeriods: U64
    const env: Surroundings

    var now: nat
    var checkpoint: Checkpoint
    /** Every window finished, over all runs. */
    ghost var windows: seq<Window>

    constructor (fromPeriod: U64, toPeriod: U64, parts: FinalSlotParts, threadCount: Byte, requireScOps: bool,
                 rangePeriods: U64, env: Surroundings)
      ensures Sound() && checkpoint == Absent && windows == []
    {
      this.fromPeriod, this.toPeriod, this.parts, this.threadCount := fromPeriod, toPeriod, parts, threadCount;
      this.requireScOps, this.rangePeriods, this.env := requireScOps, rangePeriods, env;
      now, checkpoint, windows := 0, Absent, [];
    }

    /** A look that found a slot to ask the peers for. */
    predicate Needy(s: Scan) {
      env.view(s.at).Some? && Lacks(env.view(s.at).value, s.slot, parts, requireScOps)
    }

    function NeedySlots(looks: seq<Scan>): seq<Slot> {
      if looks == [] then []
      else
        var last := looks[|looks| - 1];
        NeedySlots(looks[..|looks| - 1]) + (if Needy(last) then [last.slot] else [])
    }

    /** Every slot of the window was looked at, and the needy list is what the looks gave. */
    ghost predicate WindowDone(w: Window) {
      && w.needy == NeedySlots(w.looks)
      && forall p :: w.lo <= p <= w.hi ==> CoveredAt(w.looks, p, threadCount)
    }

    /** Each period of the range above `c` lies in some finished window. */
    ghost predicate AskedAbove(c: int)
      reads this
    {
      forall p :: c < p <= toPeriod && fromPeriod <= p ==> Asked(windows, p)
    }

    /** What every state between two steps of a run satisfies, whatever crashes came before. */
    ghost predicate Sound()
      reads this
    {
      && (forall i :: 0 <= i < |windows| ==> WindowDone(windows[i]))
      && (checkpoint.At? ==> AskedAbove(checkpoint.period))
    }

    /** Where the next run starts if it can read the checkpoint. */
    function Resume(): nat
      reads this
    {
      if checkpoint.At? then Min(checkpoint.period, toPeriod) else toPeriod
    }

    predicate Complete()
      reads this
    {
      Resume() < fromPeriod
    }

    /** The bottom of the window whose top is `hi`. */
    function Bottom(hi: nat): nat {
      Max(Max(hi - Max(rangePeriods - 1, 0), 0), fromPeriod)
    }

    /** The windows of a run each have the full width, cut only at the end of the range. */
    ghost predicate FullWidth(ws: seq<Window>) {
      forall i :: 0 <= i < |ws| ==> ws[i].lo == Bottom(ws[i].hi)
    }

    /** Look at the slots of a window, newest period first. */
    method LookWindow(lo: nat, hi: nat) returns (needy: seq<Slot>, ghost looks: seq<Scan>)
      requires lo <= hi <= toPeriod
      modifies this`now
      ensures WindowDone(Window(lo, hi, looks, needy))
    {
      hide Covered, NeedySlots;
      needy, looks := [], [];
      NoLooks();
      for p := hi + 1 downto lo
        invariant needy == NeedySlots(looks)
        invariant forall q :: p <= q <= hi ==> CoveredAt(looks, q, threadCount)
      {
        ghost var before := looks;
        needy, looks := LookPeriod(p, needy, looks);
        forall q | p < q <= hi ensures CoveredAt(looks, q, threadCount) {
          assert CoveredAt(before, q, threadCount);
          CoverKeeps(before, looks, q, q + 1, threadCount);
        }
      }
    }

    lemma NoLooks()
      ensures NeedySlots([]) == []
    {}

    method LookPeriod(p: U64, needyBefore: seq<Slot>, ghost looksBefore: seq<Scan>)
      returns (needy: seq<Slot>, ghost looks: seq<Scan>)
      requires needyBefore == NeedySlots(looksBefore)
      modifies this`now
      ensures needy == NeedySlots(looks) && looksBefore <= looks
      ensures Covered(looks, p, p + 1, threadCount)
    {
      hide Covered, Lacks;
      needy, looks := needyBefore, looksBefore;
      NoThreadsYet(looks, p);
      var thread := 0;
      while thread < threadCount
        invariant 0 <= thread <= threadCount
        invariant needy == NeedySlots(looks) && looksBefore <= looks
        invariant Covered(looks, p, p + 1, thread)
      {
        var slot := Slot(p, thread);
        var seen := env.view(now);
        ghost var look := Scan(slot, now);
        now := now + 1;
        assert (looks + [look])[..|looks|] == looks;
        if seen.Some? {
          var lacks := SlotLacksParts(seen.value, slot, parts, requireScOps);
          if lacks {
            needy := needy + [slot];
          }
        }
        NothingToCover(looks, p, p, threadCount);
        CoverThread(looks, look, p, p, threadCount);
        looks := looks + [look];
        thread := thread + 1;
      }
    }

    lemma NoThreadsYet(looks: seq<Scan>, p: int)
      ensures Covered(looks, p, p + 1, 0)
    {}

    lemma BottomFits(hi: nat)
      requires fromPeriod <= hi
      ensures fromPeriod <= Bottom(hi) <= hi
      ensures if rangePeriods == 0 then Bottom(hi) == hi else hi - Bottom(hi) < rangePeriods
    {}

    /** The run so far tiles down to `w`; with `w` it tiles further. */
    lemma WindowTiles(ws: seq<Window>, w: Window, top: int)
      requires Tiles(ws, top, w.hi + 1) && w.lo <= w.hi && FullWidth(ws) && w.lo == Bottom(w.hi)
      ensures Tiles(ws + [w], top, w.lo) && FullWidth(ws + [w])
    {
      hide Bottom;
      assert (ws + [w])[..|ws|] == ws;
    }

    lemma NothingTiles(top: int)
      ensures Tiles([], top, top + 1) && FullWidth([])
    {}

    /** Log a finished window; the periods asked for reach down to its bottom. */
    ghost method Finish(w: Window)
      requires Sound() && WindowDone(w) && fromPeriod <= w.lo <= w.hi <= toPeriod && AskedAbove(w.hi)
      modifies this`windows
      ensures windows == old(windows) + [w] && Sound() && AskedAbove(w.lo - 1)
    {
      hide WindowDone, Asked;
      windows := windows + [w];
      forall p ensures Asked(windows, p) <==> Asked(old(windows), p) || w.lo <= p <= w.hi {
        AskedMore(old(windows), w, p);
      }
    }

    /** The window under `hi`: look, ask the peers for what is lacking, move the checkpoint below. */
    method PullWindow(hi: nat) returns (ok: bool, lo: nat)
      requires Sound() && fromPeriod <= hi <= toPeriod && AskedAbove(hi)
      modifies this
      ensures Sound() && fromPeriod <= lo <= hi && lo == Bottom(hi)
      ensures (forall n :: env.alive(n)) ==> ok
      ensures !ok ==> windows == old(windows) && checkpoint == old(checkpoint) && AskedAbove(hi)
      ensures ok ==> AskedAbove(lo - 1) && |windows| == |old(windows)| + 1 && windows[..|old(windows)|] == old(windows)
      ensures ok ==> windows[|old(windows)|].lo == lo && windows[|old(windows)|].hi == hi
      ensures ok && (forall n :: env.putOk(n)) ==> checkpoint == At(if lo == 0 then 0 else lo - 1)
      ensures checkpoint == old(checkpoint) || checkpoint == At(if lo == 0 then 0 else lo - 1)
    {
      hide Asked, WindowDone, Bottom;
      BottomFits(hi);
      lo := Bottom(hi);
      if !env.alive(now) {
        return false, lo;
      }
      now := now + 1;
      ghost var looks;
      var needy;
      needy, looks := LookWindow(lo, hi);
      if needy != [] {
        // The peers supply what they can; only a closed channel abandons the window.
        if !env.alive(now) {
          return false, lo;
        }
        now := now + 1;
      }
      Finish(Window(lo, hi, looks, needy));
      if env.putOk(now) {
        checkpoint := At(if lo == 0 then 0 else lo - 1);
      }
      now := now + 1;
      ok := true;
    }

    /** Windows downwards from `startHi`; false when the process or the channel goes. */
    method Descend(startHi: nat) returns (done: bool, ghost reached: nat)
      requires Sound() && fromPeriod <= startHi <= toPeriod && AskedAbove(startHi)
      modifies this
      ensures Sound() && old(windows) <= windows
      ensures Tiles(windows[|old(windows)|..], startHi, reached) && FullWidth(windows[|old(windows)|..])
      ensures reached <= startHi + 1 && (done ==> reached == fromPeriod)
      ensures (forall n :: env.alive(n)) ==> done
      ensures done && (forall n :: env.putOk(n)) ==> checkpoint == At(if fromPeriod == 0 then 0 else fromPeriod - 1)
      ensures checkpoint == old(checkpoint) || (checkpoint.At? && checkpoint.period <= startHi)
      ensures !done && (forall n :: env.putOk(n)) ==>
                if reached == startHi + 1 then checkpoint == old(checkpoint)
                else reached >= 1 && checkpoint == At(reached - 1)
    {
      hide Asked, AskedAbove, WindowDone, Tiles, FullWidth, Bottom;
      reached := startHi + 1;
      assert windows[|windows|..] == [];
      NothingTiles(startHi);
      var hi := startHi;
      while true
        invariant fromPeriod <= hi <= startHi && reached == hi + 1
        invariant Sound() && AskedAbove(hi) && old(windows) <= windows
        invariant Tiles(windows[|old(windows)|..], startHi, hi + 1) && FullWidth(windows[|old(windows)|..])
        invariant checkpoint == old(checkpoint) || (checkpoint.At? && checkpoint.period <= startHi)
        invariant (forall n :: env.putOk(n)) ==>
                    if hi == startHi then checkpoint == old(checkpoint) else checkpoint == At(hi)
        decreases hi
      {
        ghost var before := windows[|old(windows)|..];
        var ok, lo := PullWindow(hi);
        if !ok {
          return false, reached;
        }
        ghost var w := windows[|windows| - 1];
        assert windows[|old(windows)|..] == before + [w];
        WindowTiles(before, w, startHi);
        reached := lo;
        if lo <= fromPeriod || lo == 0 {
          break;
        }
        hi := lo - 1;
      }
      done := true;
    }

    /** One process life: windows downwards from the checkpoint. */
    method Run() returns (done: bool, ghost start: nat, ghost reached: nat)
      requires Sound()
      modifies this
      ensures Sound() && old(windows) <= windows
      ensures env.getOk(old(now)) ==> start == old(Resume())
      // a completed range is left alone
      ensures old(Complete()) && env.getOk(old(now)) ==>
                done && windows == old(windows) && checkpoint == old(checkpoint)
      // the windows of this run tile the periods it got through
      ensures start >= fromPeriod ==>
                Tiles(windows[|old(windows)|..], start, reached) && FullWidth(windows[|old(windows)|..])
      ensures done && start >= fromPeriod ==> reached == fromPeriod
      // an unbroken run finishes
      ensures (forall n :: env.alive(n)) ==> done
      // and closes the range, unless the range begins at period 0
      ensures done && (forall n :: env.putOk(n)) && fromPeriod <= toPeriod ==>
                if fromPeriod >= 1 then Complete() else checkpoint == At(0)
      // the checkpoint moves down only
      ensures env.getOk(old(now)) && old(checkpoint).At? ==>
                checkpoint.At? && checkpoint.period <= old(checkpoint).period
      // a broken run asks again for the window it was at, and for no finished one
      ensures !done && env.getOk(old(now)) && (forall n :: env.putOk(n)) ==> reached >= 1 && Resume() == reached - 1
    {
      hide Asked, WindowDone, Tiles, FullWidth;
      var startHi := toPeriod;
      if env.getOk(now) && checkpoint.At? {
        startHi := Min(checkpoint.period, toPeriod);
      }
      now := now + 1;
      start, reached := startHi, startHi + 1;
      if startHi < fromPeriod {
        return true, start, reached;
      }
      done, reached := Descend(startHi);
    }

    lemma OneWindowAtZero(ws: seq<Window>)
      requires Tiles(ws, 0, 0)
      ensures |ws| == 1 && ws[0].lo == 0 && ws[0].hi == 0
    {
      TilesOnce(ws[..|ws| - 1], 0, ws[|ws| - 1].hi + 1);
      if |ws| > 1 {
        var front := ws[..|ws| - 1];
        TilesOnce(front[..|front| - 1], 0, front[|front| - 1].hi + 1);
      }
    }

    /** Run again after a finished run: nothing to do exactly when the range does not begin at period 0. */
    method RunAgain() returns (ghost again: seq<Window>)
      requires Sound() && fromPeriod <= toPeriod
      requires forall n :: env.alive(n) && env.getOk(n) && env.putOk(n)
      modifies this
      ensures Sound()
      ensures again == [] <==> fromPeriod >= 1
      ensures fromPeriod == 0 ==> |again| == 1 && again[0].lo == 0 && again[0].hi == 0
    {
      hide WindowDone, Tiles, Bottom, AskedAbove;
      var done, start, reached := Run();
      ghost var before := windows;
      done, start, reached := Run();
      again := windows[|before|..];
      if fromPeriod == 0 { OneWindowAtZero(again); }
    }
  }
}
