/**
 Deferred calls: the stored row as a summary of every relevant transfer seen.
 */
module DeferredRuns {
  import opened ByteStrings
  import opened Ids
  import opened Keys
  import opened Model
  import opened Store
  import opened IngestSpec
  import opened IndexRuns

  /** A transfer that says something about deferred call `k`. */
  predicate Relevant(r: StoredTransfer, k: Bytes) {
    && r.deferredCallId == Some(k)
    && (r.origin.DeferredCallRegister? || r.origin.DeferredCallCoins? || r.origin.DeferredCallFail?
        || r.origin.DeferredCallCancel? || r.origin.DeferredCallStorageRefund?)
  }

  function Select(rs: seq<StoredTransfer>, k: Bytes): seq<StoredTransfer> {
    if rs == [] then []
    else (if Relevant(rs[0], k) then [rs[0]] else []) + Select(rs[1..], k)
  }

  /** Every relevant transfer of a trace, oldest first. */
  function History(trace: seq<Arrival>, k: Bytes): seq<StoredTransfer> {
    if trace == [] then []
    else
      var last := trace[|trace| - 1].ev;
      History(trace[..|trace| - 1], k)
      + (if last.Transfers? && last.resp.slot.Some?
         then Select(TransferRows(last.resp, SlotFromPb(last.resp.slot.value)), k) else [])
  }

  // ---- the summary, field by field ----------------------------------------

  function CoinsOf(r: StoredTransfer): nat {
    if r.value.Coins? then r.value.nmas else 0
  }

  predicate IsTerminal(r: StoredTransfer) {
    r.origin.DeferredCallCoins? || r.origin.DeferredCallFail? || r.origin.DeferredCallCancel?
  }

  /** Row `i` is the first of the history that satisfies `p`. */
  predicate First(h: seq<StoredTransfer>, p: StoredTransfer -> bool, i: int) {
    0 <= i < |h| && p(h[i]) && forall j :: 0 <= j < i ==> !p(h[j])
  }

  predicate Never(h: seq<StoredTransfer>, p: StoredTransfer -> bool) {
    forall j :: 0 <= j < |h| ==> !p(h[j])
  }

  /** A field set by the first row that satisfies `p`, and by no later one. */
  ghost predicate FirstWins<T>(field: Option<T>, h: seq<StoredTransfer>, p: StoredTransfer -> bool,
                               value: StoredTransfer -> Option<T>) {
    && (forall i :: First(h, p, i) ==> field == value(h[i]) && field.Some?)
    && (Never(h, p) ==> field == None)
  }

  predicate Registers(r: StoredTransfer) { r.origin.DeferredCallRegister? }
  predicate Pays(r: StoredTransfer) { r.origin.DeferredCallCoins? }
  predicate NamesSender(r: StoredTransfer) { Registers(r) && OkOf(r.from).Some? }
  predicate NamesTarget(r: StoredTransfer) { Pays(r) && OkOf(r.to).Some? }
  function SlotOf(r: StoredTransfer): Option<Slot> { Some(r.slot) }
  function FromOf(r: StoredTransfer): Option<Address> { OkOf(r.from) }
  function ToOf(r: StoredTransfer): Option<Address> { OkOf(r.to) }
  function OutcomeOf(r: StoredTransfer): Option<DeferredCallState> {
    if r.origin.DeferredCallCoins? then Some(DeferredCallState.Executed)
    else if r.origin.DeferredCallFail? then Some(DeferredCallState.Failed)
    else if r.origin.DeferredCallCancel? then Some(DeferredCallState.Cancelled)
    else None
  }

  /** The terminal state, once there is one. */
  function Ended(s: DeferredCallState): Option<DeferredCallState> {
    if s.Registered? then None else Some(s)
  }

  ghost predicate LargestCoins(coins: nat, h: seq<StoredTransfer>) {
    && (forall i :: 0 <= i < |h| ==> CoinsOf(h[i]) <= coins)
    && (coins == 0 || exists i :: 0 <= i < |h| && CoinsOf(h[i]) == coins)
  }

  /** The row of call `k`, as its history has it. */
  ghost predicate Summarizes(c: StoredDeferredCall, h: seq<StoredTransfer>, k: Bytes) {
    && h != []
    && c.id == k
    && FirstWins(Ended(c.state), h, IsTerminal, OutcomeOf)
    && FirstWins(c.registeredSlot, h, Registers, SlotOf)
    && FirstWins(c.targetSlot, h, Pays, SlotOf)
    && FirstWins(c.sender, h, NamesSender, FromOf)
    && FirstWins(c.targetAddress, h, NamesTarget, ToOf)
    && LargestCoins(c.coins, h)
    && c.lastSlot == Some(h[|h| - 1].slot)
  }

  ghost predicate Tells(p: Option<StoredDeferredCall>, h: seq<StoredTransfer>, k: Bytes) {
    if p.None? then h == [] else Summarizes(p.value, h, k)
  }

  // ---- one more transfer --------------------------------------------------

  lemma {:induction false} FirstOrNever(h: seq<StoredTransfer>, p: StoredTransfer -> bool)
    ensures Never(h, p) || exists i :: First(h, p, i)
    decreases |h|
  {
    if h != [] && !Never(h, p) {
      var h' := h[..|h| - 1];
      FirstOrNever(h', p);
      if i :| First(h', p, i) { assert First(h, p, i); } else { assert First(h, p, |h| - 1); }
    }
  }

  /** A first-wins field after one more row. */
  lemma FirstWinsGrows<T>(field: Option<T>, field': Option<T>, h: seq<StoredTransfer>, r: StoredTransfer,
                          p: StoredTransfer -> bool, value: StoredTransfer -> Option<T>)
    requires FirstWins(field, h, p, value)
    requires p(r) ==> value(r).Some?
    requires field' == if field.None? && p(r) then value(r) else field
    ensures FirstWins(field', h + [r], p, value)
  {
    FirstOrNever(h, p);
    var g := h + [r];
    assert forall j :: 0 <= j < |h| ==> g[j] == h[j];
    assert g[|h|] == r;
    forall i | First(g, p, i) ensures field' == value(g[i]) && field'.Some? {
      if i < |h| { assert First(h, p, i); } else { assert Never(h, p); }
    }
    if Never(g, p) { assert Never(h, p); assert !p(g[|h|]); }
  }

  lemma LargestGrows(coins: nat, h: seq<StoredTransfer>, r: StoredTransfer)
    requires LargestCoins(coins, h)
    ensures LargestCoins(if CoinsOf(r) > coins then CoinsOf(r) else coins, h + [r])
  {
    var g := h + [r];
    assert g[|h|] == r;
    if coins != 0 {
      var i :| 0 <= i < |h| && CoinsOf(h[i]) == coins;
      assert g[i] == h[i];
    }
  }

  lemma EmptyWins<T>(p: StoredTransfer -> bool, value: StoredTransfer -> Option<T>)
    ensures FirstWins(None, [], p, value)
  {}

  /** The row of call `k` after one reconciled transfer. */
  function DeferredStep(p: Option<StoredDeferredCall>, k: Bytes, r: StoredTransfer, slot: Slot,
                        now: int): Option<StoredDeferredCall> {
    var row := DeferredReconciled(p, r, slot, now);
    if r.deferredCallId != Some(k) || row.None? then p else Some(DeferredRow(p, row.value))
  }

  function DeferredSteps(p: Option<StoredDeferredCall>, k: Bytes, rs: seq<StoredTransfer>, slot: Slot,
                         now: int): Option<StoredDeferredCall>
    decreases |rs|
  {
    if rs == [] then p else DeferredSteps(DeferredStep(p, k, rs[0], slot, now), k, rs[1..], slot, now)
  }

  lemma StepTells(p: Option<StoredDeferredCall>, h: seq<StoredTransfer>, k: Bytes, r: StoredTransfer, now: int)
    requires Tells(p, h, k) && Relevant(r, k)
    ensures Tells(DeferredStep(p, k, r, r.slot, now), h + [r], k)
  {
    hide FirstWins, LargestCoins;
    var c := if p.Some? then p.value else DeferredStub(k, r.slot, now);
    var c' := DeferredStep(p, k, r, r.slot, now).value;
    if p.None? {
      EmptyWins(IsTerminal, OutcomeOf);
      EmptyWins(Registers, SlotOf);
      EmptyWins(Pays, SlotOf);
      EmptyWins(NamesSender, FromOf);
      EmptyWins(NamesTarget, ToOf);
      assert LargestCoins(0, []) by { NoCoins(); }
    }
    FirstWinsGrows(Ended(c.state), Ended(c'.state), h, r, IsTerminal, OutcomeOf);
    FirstWinsGrows(c.registeredSlot, c'.registeredSlot, h, r, Registers, SlotOf);
    FirstWinsGrows(c.targetSlot, c'.targetSlot, h, r, Pays, SlotOf);
    FirstWinsGrows(c.sender, c'.sender, h, r, NamesSender, FromOf);
    FirstWinsGrows(c.targetAddress, c'.targetAddress, h, r, NamesTarget, ToOf);
    LargestGrows(c.coins, h, r);
  }

  lemma NoCoins()
    ensures LargestCoins(0, [])
  {}

  lemma {:induction false} StepsTell(p: Option<StoredDeferredCall>, h: seq<StoredTransfer>, k: Bytes,
                                     rs: seq<StoredTransfer>, slot: Slot, now: int)
    requires Tells(p, h, k) && forall r :: r in rs ==> r.slot == slot
    ensures Tells(DeferredSteps(p, k, rs, slot, now), h + Select(rs, k), k)
    decreases |rs|
  {
    hide Tells, DeferredStep;
    if rs == [] {
      assert h + Select(rs, k) == h;
    } else {
      var q := DeferredStep(p, k, rs[0], slot, now);
      if Relevant(rs[0], k) {
        StepTells(p, h, k, rs[0], now);
        StepsTell(q, h + [rs[0]], k, rs[1..], slot, now);
        assert h + Select(rs, k) == (h + [rs[0]]) + Select(rs[1..], k);
      } else {
        IrrelevantStep(p, k, rs[0], slot, now);
        StepsTell(q, h, k, rs[1..], slot, now);
        assert Select(rs, k) == Select(rs[1..], k);
      }
    }
  }

  lemma IrrelevantStep(p: Option<StoredDeferredCall>, k: Bytes, r: StoredTransfer, slot: Slot, now: int)
    requires !Relevant(r, k)
    ensures DeferredStep(p, k, r, slot, now) == p
  {}

  lemma {:induction false} ReconcilesAt(x: Indexed<StoredDeferredCall>, rs: seq<StoredTransfer>, slot: Slot, now: int,
                                        k: Bytes)
    requires SoundDeferred(x)
    ensures RowAt(ReconcileDeferred(x, rs, slot, now), k) == DeferredSteps(RowAt(x, k), k, rs, slot, now)
    decreases |rs|
  {
    hide Exact, DeferredEntries, StaleDeferred;
    if rs != [] {
      if rs[0].deferredCallId.Some? {
        var row := DeferredReconciled(RowAt(x, rs[0].deferredCallId.value), rs[0], slot, now);
        if row.Some? { PutDeferredSound(x, row.value); }
      }
      ReconcilesAt(ReconcileDeferredRow(x, rs[0], slot, now), rs[1..], slot, now, k);
    }
  }

  // ---- whole runs ---------------------------------------------------------

  lemma OtherEventsKeepDeferred(t: Tables, a: Arrival)
    requires !(a.ev.Transfers? && a.ev.resp.slot.Some?)
    ensures Step(t, a).deferredCalls == t.deferredCalls
  {
    hide SlotKey, PutSlot, ParentStub, ReplaceScEvents, PutExecStatuses, PutAsyncChanges, ApplyFinality;
    hide TransferRows, PutTransfers, ReconcileDeferred, PutEndorsements, PutDenunciations, PutOps, BlockRow;
    hide PutBlock;
  }

  lemma TransfersStepDeferred(t: Tables, resp: TransfersInfo, now: int)
    requires resp.slot.Some?
    ensures var slot := SlotFromPb(resp.slot.value);
      HandleTransfers(t, resp, now).tables.deferredCalls
      == ReconcileDeferred(t.deferredCalls, TransferRows(resp, slot), slot, now)
  {}

  /**
   In every reachable store the row of a deferred call is there exactly when a
   relevant transfer was seen, and is the summary of all of them in arrival order.
   */
  lemma {:induction false} RunTells(trace: seq<Arrival>, k: Bytes)
    ensures Tells(RowAt(Run(EMPTY_TABLES, trace).deferredCalls, k), History(trace, k), k)
    decreases |trace|
  {
    hide Step, Tells, Valid;
    if trace == [] {
      NothingTold(k);
    } else {
      var prefix, last := trace[..|trace| - 1], trace[|trace| - 1];
      var t := Run(EMPTY_TABLES, prefix);
      RunTells(prefix, k);
      if last.ev.Transfers? && last.ev.resp.slot.Some? {
        EmptyValid();
        RunValid(EMPTY_TABLES, prefix);
        BatchTells(t, last, History(prefix, k), k);
      } else {
        OtherEventsKeepDeferred(t, last);
        assert History(trace, k) == History(prefix, k) + [] == History(prefix, k);
      }
    }
  }

  lemma NothingTold(k: Bytes)
    ensures Tells(RowAt(EMPTY_TABLES.deferredCalls, k), [], k)
  {}

  lemma BatchTells(t: Tables, a: Arrival, h: seq<StoredTransfer>, k: Bytes)
    requires Valid(t) && a.ev.Transfers? && a.ev.resp.slot.Some?
    requires Tells(RowAt(t.deferredCalls, k), h, k)
    ensures Tells(RowAt(Step(t, a).deferredCalls, k),
                  h + Select(TransferRows(a.ev.resp, SlotFromPb(a.ev.resp.slot.value)), k), k)
  {
    hide Exact, Tells, HandleTransfers, TransferRows, ReconcileDeferred, DeferredSteps, Select;
    var slot := SlotFromPb(a.ev.resp.slot.value);
    var rs := TransferRows(a.ev.resp, slot);
    TransferRowsDense(a.ev.resp, slot);
    TransfersStepDeferred(t, a.ev.resp, a.now);
    ReconcilesAt(t.deferredCalls, rs, slot, a.now, k);
    StepsTell(RowAt(t.deferredCalls, k), h, k, rs, slot, a.now);
  }

  // ---- consequences for continued runs ------------------------------------

  predicate CallAdvances(a: Option<StoredDeferredCall>, b: Option<StoredDeferredCall>) {
    a.Some? ==>
      && b.Some?
      && (Terminal(a.value.state) ==> b.value.state == a.value.state)
      && (a.value.registeredSlot.Some? ==> b.value.registeredSlot == a.value.registeredSlot)
      && (a.value.targetSlot.Some? ==> b.value.targetSlot == a.value.targetSlot)
      && (a.value.sender.Some? ==> b.value.sender == a.value.sender)
      && (a.value.targetAddress.Some? ==> b.value.targetAddress == a.value.targetAddress)
      && a.value.coins <= b.value.coins
      && (a.value.firstSeen != 0 ==> b.value.firstSeen == a.value.firstSeen)
  }

  lemma {:induction false} StepsAdvance(p: Option<StoredDeferredCall>, k: Bytes, rs: seq<StoredTransfer>, slot: Slot,
                                        now: int)
    ensures CallAdvances(p, DeferredSteps(p, k, rs, slot, now))
    decreases |rs|
  {
    if rs != [] { StepsAdvance(DeferredStep(p, k, rs[0], slot, now), k, rs[1..], slot, now); }
  }

  lemma {:induction false} StepsSight(p: Option<StoredDeferredCall>, k: Bytes, rs: seq<StoredTransfer>, slot: Slot,
                                      now: int)
    ensures var q := DeferredSteps(p, k, rs, slot, now);
      q.Some? ==> q.value.firstSeen == if p.Some? then p.value.firstSeen else now
    decreases |rs|
  {
    if rs != [] { StepsSight(DeferredStep(p, k, rs[0], slot, now), k, rs[1..], slot, now); }
  }

  /** A call's row dates from the arrival of the transfers message that first told of it. */
  lemma FirstSighting(t: Tables, a: Arrival, k: Bytes)
    requires Valid(t) && RowAt(Step(t, a).deferredCalls, k).Some?
    ensures RowAt(t.deferredCalls, k).Some? ==>
              RowAt(Step(t, a).deferredCalls, k).value.firstSeen == RowAt(t.deferredCalls, k).value.firstSeen
    ensures RowAt(t.deferredCalls, k).None? ==>
              a.ev.Transfers? && RowAt(Step(t, a).deferredCalls, k).value.firstSeen == a.now
  {
    hide Exact, HandleTransfers, HandleExec, HandleBlock, TransferRows, ReconcileDeferred, DeferredSteps;
    if a.ev.Transfers? && a.ev.resp.slot.Some? {
      var slot := SlotFromPb(a.ev.resp.slot.value);
      TransfersStepDeferred(t, a.ev.resp, a.now);
      ReconcilesAt(t.deferredCalls, TransferRows(a.ev.resp, slot), slot, a.now, k);
      StepsSight(RowAt(t.deferredCalls, k), k, TransferRows(a.ev.resp, slot), slot, a.now);
    } else {
      OtherEventsKeepDeferred(t, a);
    }
  }

  lemma StepCallAdvances(t: Tables, a: Arrival, k: Bytes)
    requires Valid(t)
    ensures CallAdvances(RowAt(t.deferredCalls, k), RowAt(Step(t, a).deferredCalls, k))
  {
    hide Exact, HandleTransfers, HandleExec, HandleBlock, TransferRows, ReconcileDeferred, DeferredSteps;
    if a.ev.Transfers? && a.ev.resp.slot.Some? {
      var slot := SlotFromPb(a.ev.resp.slot.value);
      TransfersStepDeferred(t, a.ev.resp, a.now);
      ReconcilesAt(t.deferredCalls, TransferRows(a.ev.resp, slot), slot, a.now, k);
      StepsAdvance(RowAt(t.deferredCalls, k), k, TransferRows(a.ev.resp, slot), slot, a.now);
    } else {
      OtherEventsKeepDeferred(t, a);
    }
  }

  /**
   From any sound store and over any further run: a terminal state is kept
   forever, the write-once fields keep their first value, coins never shrink.
   */
  lemma {:induction false} RunCallAdvances(t: Tables, trace: seq<Arrival>, k: Bytes)
    requires Valid(t)
    ensures CallAdvances(RowAt(t.deferredCalls, k), RowAt(Run(t, trace).deferredCalls, k))
    decreases |trace|
  {
    hide Step, Valid;
    if trace != [] {
      RunCallAdvances(t, trace[..|trace| - 1], k);
      RunValid(t, trace[..|trace| - 1]);
      StepCallAdvances(Run(t, trace[..|trace| - 1]), trace[|trace| - 1], k);
    }
  }
}
