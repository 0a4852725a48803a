/**
 What the hypotheses of reorder-safety are for: each one is met exactly when the
 order of arrival does not show.
 */
module Orders {
  import opened ByteStrings
  import opened Ids
  import opened Keys
  import opened Model
  import opened Store
  import opened IngestSpec
  import opened IndexRuns
  import opened SlotRuns
  import opened BlockOutcomes
  import opened Reorder

  // ---- one verdict per slot -----------------------------------------------

  predicate SameVerdicts(e: Event, f: Event, s: Slot)
    requires Does(e, Finalizes, s) && Does(f, Finalizes, s)
  {
    IsMissVerdict(e) == IsMissVerdict(f) && WinnerVerdict(e) == WinnerVerdict(f)
  }

  lemma RunOne(t: Tables, a: Arrival)
    ensures Run(t, [a]) == Step(t, a)
  {
    hide Step;
    assert [a][..0] == [];
  }

  lemma RunTwo(t: Tables, a: Arrival, b: Arrival)
    ensures Run(t, [a, b]) == Step(Step(t, a), b)
  {
    RunSplit(t, [a], [b]);
    RunOne(t, a);
    RunOne(Step(t, a), b);
    assert [a] + [b] == [a, b];
  }

  /** A slot that is settled by the first event of a trace keeps that event's verdict. */
  lemma FirstVerdictStays(a: Arrival, rest: seq<Arrival>, s: Slot)
    requires Does(a.ev, Finalizes, s)
    ensures var v := ViewOf(SlotAt(Run(EMPTY_TABLES, [a] + rest).slots, s));
      v.Present? && v.status == SlotStatus.Final && v.isMiss == IsMissVerdict(a.ev) && v.winner == WinnerVerdict(a.ev)
  {
    hide Step, SlotAt, Valid, Run;
    RunSplit(EMPTY_TABLES, [a], rest);
    RunOne(EMPTY_TABLES, a);
    NoSlot(s);
    EmptyValid();
    StepValid(EMPTY_TABLES, a);
    StepSlotAt(EMPTY_TABLES, a, s);
    assert SlotsKeyed(Step(EMPTY_TABLES, a).slots) by { StepSlotsKeyed(EMPTY_TABLES, a); }
    RunAdvances(Step(EMPTY_TABLES, a), rest, s);
  }

  lemma NoSlot(s: Slot)
    ensures SlotsKeyed(EMPTY_TABLES.slots) && SlotAt(EMPTY_TABLES.slots, s) == None
  {}

  /** Two FINAL outputs of one slot commute exactly when they give the same verdict. */
  lemma FinalsCommuteIffSameVerdict(e: Event, f: Event, s: Slot, now: int)
    requires Does(e, Finalizes, s) && Does(f, Finalizes, s)
    ensures var ef := Run(EMPTY_TABLES, [Arrival(e, now), Arrival(f, now)]);
      var fe := Run(EMPTY_TABLES, [Arrival(f, now), Arrival(e, now)]);
      ViewOf(SlotAt(ef.slots, s)) == ViewOf(SlotAt(fe.slots, s)) <==> SameVerdicts(e, f, s)
  {
    FirstFinalRow(e, f, s, now);
    FirstFinalRow(f, e, s, now);
  }

  lemma FirstFinalRow(e: Event, f: Event, s: Slot, now: int)
    requires Does(e, Finalizes, s) && Does(f, Finalizes, s)
    ensures ViewOf(SlotAt(Run(EMPTY_TABLES, [Arrival(e, now), Arrival(f, now)]).slots, s))
         == Present(SlotStatus.Final, IsMissVerdict(e), WinnerVerdict(e), {}, false, true, false)
  {
    hide SlotAt, Step, Run;
    var a, b := Arrival(e, now), Arrival(f, now);
    RunTwo(EMPTY_TABLES, a, b);
    NoSlot(s);
    StepSlotAt(EMPTY_TABLES, a, s);
    StepSlotsKeyed(EMPTY_TABLES, a);
    StepSlotAt(Step(EMPTY_TABLES, a), b, s);
  }

  /** Each block feeds its own operations. */
  predicate EventSelfFed(ev: Event) {
    ev.Block? ==> SelfFed(ev.fb)
  }

  /** Every trace over the events of `trace`, in any order and with any repeats, ends alike. */
  ghost predicate OrderImmaterial(trace: seq<Arrival>) {
    forall trace' :: EventsOf(trace') == EventsOf(trace) ==> Agree(Run(EMPTY_TABLES, trace), Run(EMPTY_TABLES, trace'))
  }

  /** Over self-fed blocks, arrival order is immaterial if and only if each slot has at most one FINAL verdict. */
  lemma OrderImmaterialIff(trace: seq<Arrival>, slotOf: Id -> Slot)
    requires AllConsistent(trace, slotOf) && forall a :: a in trace ==> EventSelfFed(a.ev)
    ensures OrderImmaterial(trace) <==> OneVerdict(EventsOf(trace))
  {
    hide Run, Agree, Consistent, Fed;
    if OneVerdict(EventsOf(trace)) {
      assert NoLateFeeding(EventsOf(trace)) by {
        forall ev | ev in EventsOf(trace) ensures EventSelfFed(ev) {}
      }
      forall trace' | EventsOf(trace') == EventsOf(trace)
        ensures Agree(Run(EMPTY_TABLES, trace), Run(EMPTY_TABLES, trace'))
      {
        OrderIsImmaterial(trace, trace', slotOf);
      }
    } else {
      var e, f, s :| e in EventsOf(trace) && f in EventsOf(trace) && Does(e, Finalizes, s) && Does(f, Finalizes, s)
                     && !SameVerdicts(e, f, s);
      VerdictsClash(trace, e, f, s);
    }
  }

  /** With two verdicts for a slot, whichever is put first decides. */
  lemma VerdictsClash(trace: seq<Arrival>, e: Event, f: Event, s: Slot)
    requires e in EventsOf(trace) && f in EventsOf(trace) && Does(e, Finalizes, s) && Does(f, Finalizes, s)
    requires !SameVerdicts(e, f, s)
    ensures !OrderImmaterial(trace)
  {
    hide Run, Does;
    var te, tf := [Arrival(e, 0)] + trace, [Arrival(f, 0)] + trace;
    OneMore(trace, e);
    OneMore(trace, f);
    FirstVerdictStays(Arrival(e, 0), trace, s);
    FirstVerdictStays(Arrival(f, 0), trace, s);
    if OrderImmaterial(trace) {
      AgreeAt(Run(EMPTY_TABLES, trace), Run(EMPTY_TABLES, te), s);
      AgreeAt(Run(EMPTY_TABLES, trace), Run(EMPTY_TABLES, tf), s);
    }
  }

  lemma AgreeAt(t: Tables, u: Tables, s: Slot)
    requires Agree(t, u)
    ensures ViewOf(SlotAt(t.slots, s)) == ViewOf(SlotAt(u.slots, s))
  {}

  lemma OneMore(trace: seq<Arrival>, ev: Event)
    requires ev in EventsOf(trace)
    ensures EventsOf([Arrival(ev, 0)] + trace) == EventsOf(trace)
  {
    var more := [Arrival(ev, 0)] + trace;
    forall e ensures e in EventsOf(more) <==> e in EventsOf(trace) {
      if e in EventsOf(trace) {
        var a :| a in trace && a.ev == e;
        assert a in more;
      }
    }
  }

  // ---- blocks that feed themselves ----------------------------------------

  /** The operations a block ingests. */
  function OpIds(fs: seq<FilledOperation>): set<Bytes> {
    set f | f in fs && OpIdOf(f).Some? :: OpIdOf(f).value
  }

  function BlockId(fb: FilledBlock): Id
    requires Acceptable(fb)
  {
    CheckHeader(fb).value.id
  }

  function InOrderOf(a: FilledBlock, b: FilledBlock, now: int): Tables {
    Run(EMPTY_TABLES, [Arrival(Block(a), now), Arrival(Block(b), now)])
  }

  /** Block `b` is stored after `a` exactly when `a` feeds it, and before `a` exactly when it feeds itself. */
  lemma FeedingOrder(a: FilledBlock, b: FilledBlock, now: int)
    requires Acceptable(a) && SelfFed(a) && Acceptable(b) && BlockId(a) != BlockId(b)
    ensures BlockView(InOrderOf(a, b, now), BlockId(b)).Some? <==> Fed(OpIds(a.operations), b.operations)
    ensures BlockView(InOrderOf(b, a, now), BlockId(b)).Some? <==> SelfFed(b)
  {
    hide HandleBlock, Run, Fed, Exact, DecodeEndorsements;
    var x, y := Arrival(Block(a), now), Arrival(Block(b), now);
    RunTwo(EMPTY_TABLES, x, y);
    RunTwo(EMPTY_TABLES, y, x);
    EmptyValid();
    StepValid(EMPTY_TABLES, x);
    StepValid(EMPTY_TABLES, y);
    assert EMPTY_TABLES.ops.rows.Keys == {};
    BlockOutcome(EMPTY_TABLES, a);
    BlockOutcome(EMPTY_TABLES, b);
    BlockOutcome(Step(EMPTY_TABLES, x), b);
    assert Step(EMPTY_TABLES, x).ops.rows.Keys == OpIds(a.operations) by {
      forall k ensures k in OpIds(a.operations) <==> Lists(a.operations, k) { ListsIsIn(a.operations, k); }
    }
    StepStores(EMPTY_TABLES, y, BlockId(b));
    StepStores(EMPTY_TABLES, x, BlockId(b));
    StepStores(Step(EMPTY_TABLES, x), y, BlockId(b));
    StepStores(Step(EMPTY_TABLES, y), x, BlockId(b));
  }

  lemma ListsIsIn(fs: seq<FilledOperation>, k: Bytes)
    ensures k in OpIds(fs) <==> Lists(fs, k)
  {
    hide OpIdOf;
    if Lists(fs, k) {
      var j :| 0 <= j < |fs| && OpIdOf(fs[j]).Some? && OpIdOf(fs[j]).value == k;
      assert fs[j] in fs;
    }
  }

  /** Of a self-fed block and another one, the order shows on the other exactly when only the first feeds it. */
  lemma MissingContentMakesOrderMatter(a: FilledBlock, b: FilledBlock, now: int)
    requires Acceptable(a) && SelfFed(a) && Acceptable(b) && BlockId(a) != BlockId(b)
    ensures BlockView(InOrderOf(a, b, now), BlockId(b)).Some? != BlockView(InOrderOf(b, a, now), BlockId(b)).Some?
       <==> Fed(OpIds(a.operations), b.operations) && !SelfFed(b)
  {
    hide Fed, InOrderOf, Acceptable;
    FeedingOrder(a, b, now);
    if SelfFed(b) { FedByMore({}, OpIds(a.operations), b.operations); }
  }

  /** The block commutes with every other block that feeds itself. */
  ghost predicate CommutesWithSelfFed(b: FilledBlock, now: int)
    requires Acceptable(b)
  {
    forall a: FilledBlock :: Acceptable(a) && SelfFed(a) && BlockId(a) != BlockId(b)
      ==> Agree(InOrderOf(a, b, now), InOrderOf(b, a, now))
  }

  /** The operation with content and a creator filled in. */
  function Filled(f: FilledOperation): FilledOperation {
    if f.operation.None? then f
    else f.(operation := Some(f.operation.value.(content := Some(None), creator := Parsed(seq(ADDR_KEY_LEN, _ => 0)))))
  }

  /** A block like `b` under another id whose operations all carry their content. */
  function Feeder(b: FilledBlock, other: Id): FilledBlock
    requires b.header.Some?
  {
    FilledBlock(Some(b.header.value.(secureHash := Parsed(other))),
        seq(|b.operations|, i requires 0 <= i < |b.operations| => Filled(b.operations[i])))
  }

  lemma FeederFeeds(b: FilledBlock, other: Id)
    requires Acceptable(b)
    ensures var a := Feeder(b, other);
      Acceptable(a) && BlockId(a) == other && SelfFed(a) && Fed(OpIds(a.operations), b.operations)
  {
    var a := Feeder(b, other);
    hide DecodeEndorsements;
    SameEndorsements(b, other);
    forall i | 0 <= i < |b.operations|
      ensures OpIdOf(a.operations[i]) == OpIdOf(b.operations[i]) && a.operations[i] in a.operations {}
  }

  lemma SameEndorsements(b: FilledBlock, other: Id)
    requires Acceptable(b)
    ensures Acceptable(Feeder(b, other))
  {
    var h, h' := CheckHeader(b).value, CheckHeader(Feeder(b, other)).value;
    EndorsementIds(h.content.endorsements, h.id, h'.id, h.slot);
  }

  lemma {:induction false} EndorsementIds(es: seq<SignedEndorsement>, x: Id, y: Id, s: Slot)
    requires forall e :: e in DecodeEndorsements(es, x, s) ==> e.id.Parsed?
    ensures forall e :: e in DecodeEndorsements(es, y, s) ==> e.id.Parsed?
    decreases |es|
  {
    if es != [] {
      assert forall e :: e in DecodeEndorsements(es[1..], x, s) ==> e in DecodeEndorsements(es, x, s);
      EndorsementIds(es[1..], x, y, s);
      if DecodeEndorsement(es[0], x, s).Some? {
        assert DecodeEndorsement(es[0], x, s).value in DecodeEndorsements(es, x, s);
      }
    }
  }

  /** An acceptable block commutes with every self-fed block if and only if it feeds itself. */
  lemma CommutesIffSelfFed(b: FilledBlock, now: int)
    requires Acceptable(b)
    ensures CommutesWithSelfFed(b, now) <==> SelfFed(b)
  {
    hide Acceptable, Fed, InOrderOf, Feeder, Agree;
    if SelfFed(b) {
      forall a: FilledBlock | Acceptable(a) && SelfFed(a) && BlockId(a) != BlockId(b)
        ensures Agree(InOrderOf(a, b, now), InOrderOf(b, a, now))
      {
        SelfFedCommute(a, b, now);
      }
    } else {
      var other: Id := if BlockId(b)[0] == 0 then seq(ID_KEY_LEN, _ => 1) else seq(ID_KEY_LEN, _ => 0);
      assert b.header.Some? by { AcceptableHeader(b); }
      FeederFeeds(b, other);
      var a := Feeder(b, other);
      MissingContentMakesOrderMatter(a, b, now);
      if Agree(InOrderOf(a, b, now), InOrderOf(b, a, now)) {
        AgreeOn(InOrderOf(a, b, now), InOrderOf(b, a, now), BlockId(b));
      }
    }
  }

  lemma AcceptableHeader(b: FilledBlock)
    requires Acceptable(b)
    ensures b.header.Some?
  {}

  lemma AgreeOn(t: Tables, u: Tables, id: Id)
    requires Agree(t, u)
    ensures BlockView(t, id) == BlockView(u, id)
  {}

  lemma SelfFedCommute(a: FilledBlock, b: FilledBlock, now: int)
    requires Acceptable(a) && SelfFed(a) && Acceptable(b) && SelfFed(b) && BlockId(a) != BlockId(b)
    ensures Agree(InOrderOf(a, b, now), InOrderOf(b, a, now))
  {
    hide Run, Agree, Fed, DecodeEndorsements;
    var x, y := Arrival(Block(a), now), Arrival(Block(b), now);
    var slotOf := (id: Id) => if id == BlockId(a) then CheckHeader(a).value.slot else CheckHeader(b).value.slot;
    assert EventsOf([x, y]) == {x.ev, y.ev} == EventsOf([y, x]) by {
      assert x in [x, y] && y in [x, y] && x in [y, x] && y in [y, x];
    }
    OrderIsImmaterial([x, y], [y, x], slotOf);
  }

  // ---- any trace ----------------------------------------------------------

  predicate SameId(e: Event, f: Event) {
    e.Block? && f.Block? && Acceptable(e.fb) && Acceptable(f.fb) && BlockId(e.fb) == BlockId(f.fb)
  }

  /** A block id stands for one block, as it does when it is a hash of the block. */
  ghost predicate IdsAreBlocks(events: set<Event>) {
    forall e, f :: e in events && f in events && SameId(e, f) ==> e == f
  }

  /**
   For any trace of events in which a block id stands for one block: arrival order is
   immaterial if and only if each slot has at most one FINAL verdict, and each
   acceptable block feeds itself or cannot be fed by the events in any order.
   */
  lemma OrderImmaterialExactly(trace: seq<Arrival>, slotOf: Id -> Slot)
    requires AllConsistent(trace, slotOf) && IdsAreBlocks(EventsOf(trace))
    ensures OrderImmaterial(trace) <==> OneVerdict(EventsOf(trace)) && NoLateFeeding(EventsOf(trace))
  {
    hide Run, Agree, Consistent, Fed, Feedable, Acceptable, IdsAreBlocks;
    if !OneVerdict(EventsOf(trace)) {
      var e, f, s :| e in EventsOf(trace) && f in EventsOf(trace) && Does(e, Finalizes, s) && Does(f, Finalizes, s)
                     && !SameVerdicts(e, f, s);
      VerdictsClash(trace, e, f, s);
    } else if !NoLateFeeding(EventsOf(trace)) {
      var ev :| ev in EventsOf(trace) && ev.Block? && Acceptable(ev.fb) && !SelfFed(ev.fb)
          && Feedable(EventsOf(trace), ev.fb);
      LateFeedingShows(trace, ev.fb);
    } else {
      forall trace' | EventsOf(trace') == EventsOf(trace)
        ensures Agree(Run(EMPTY_TABLES, trace), Run(EMPTY_TABLES, trace'))
      {
        OrderIsImmaterial(trace, trace', slotOf);
      }
    }
  }

  /** The blocks as a trace. */
  function AsTrace(blocks: seq<FilledBlock>): (q: seq<Arrival>)
    ensures |q| == |blocks|
  {
    seq(|blocks|, i requires 0 <= i < |blocks| => Arrival(Block(blocks[i]), 0))
  }

  lemma {:induction false} AsTraceBlocks(blocks: seq<FilledBlock>)
    requires forall b :: b in blocks ==> Acceptable(b)
    ensures BlocksOf(AsTrace(blocks)) == blocks
    decreases |blocks|
  {
    hide Acceptable;
    if blocks != [] {
      var front := blocks[..|blocks| - 1];
      AsTraceBlocks(front);
      assert AsTrace(blocks)[..|blocks| - 1] == AsTrace(front);
      assert blocks == front + [blocks[|blocks| - 1]];
    }
  }

  /** The trace without one event. */
  function Without(trace: seq<Arrival>, ev: Event): seq<Arrival> {
    if trace == [] then []
    else (if trace[0].ev == ev then [] else [trace[0]]) + Without(trace[1..], ev)
  }

  lemma {:induction false} WithoutHas(trace: seq<Arrival>, ev: Event)
    ensures forall a :: a in Without(trace, ev) <==> a in trace && a.ev != ev
    decreases |trace|
  {
    if trace != [] {
      WithoutHas(trace[1..], ev);
      assert trace == [trace[0]] + trace[1..];
    }
  }

  lemma {:induction false} StoredStays(t: Tables, rest: seq<Arrival>, id: Id)
    requires Valid(t) && id in t.blocks.rows
    ensures id in Run(t, rest).blocks.rows
    decreases |rest|
  {
    hide Step, Valid, Takes;
    if rest != [] {
      var front := rest[..|rest| - 1];
      StoredStays(t, front, id);
      RunValid(t, front);
      StepStores(Run(t, front), rest[|rest| - 1], id);
    }
  }

  /** No event of `rest` is an acceptable block with this id. */
  ghost predicate Lacks(rest: seq<Arrival>, id: Id) {
    forall a :: a in rest && a.ev.Block? && Acceptable(a.ev.fb) ==> BlockId(a.ev.fb) != id
  }

  lemma {:induction false} NeverStored(t: Tables, rest: seq<Arrival>, id: Id)
    requires Valid(t) && id !in t.blocks.rows && Lacks(rest, id)
    ensures id !in Run(t, rest).blocks.rows
    decreases |rest|
  {
    hide Step, Acceptable, HandleBlock, Exact;
    if rest != [] {
      var front, last := rest[..|rest| - 1], rest[|rest| - 1];
      assert rest == front + [last];
      NeverStored(t, front, id);
      RunValid(t, front);
      StepStores(Run(t, front), last, id);
      if last.ev.Block? { BlockOutcome(Run(t, front), last.ev.fb); }
    }
  }

  /** A block that is not self-fed but can be fed is stored in one order and lost in another. */
  lemma LateFeedingShows(trace: seq<Arrival>, b: FilledBlock)
    requires IdsAreBlocks(EventsOf(trace)) && Block(b) in EventsOf(trace)
    requires Acceptable(b) && !SelfFed(b) && Feedable(EventsOf(trace), b)
    ensures !OrderImmaterial(trace)
  {
    hide Run, Agree, Fed, Acceptable, Step, IdsAreBlocks;
    var id := BlockId(b);
    var blocks :| AllAmong(blocks, EventsOf(trace)) && Fed(Supply(blocks), b.operations);
    var fed := AsTrace(blocks) + ([Arrival(Block(b), 0)] + trace);
    var lost := [Arrival(Block(b), 0)] + Without(trace, Block(b));
    StoredWhenFed(blocks, b, trace);
    LostWhenFirst(trace, b);
    FedEvents(trace, blocks, b);
    LostEvents(trace, b);
    if OrderImmaterial(trace) {
      AgreeOn(Run(EMPTY_TABLES, trace), Run(EMPTY_TABLES, fed), id);
      AgreeOn(Run(EMPTY_TABLES, trace), Run(EMPTY_TABLES, lost), id);
    }
  }

  lemma FedEvents(trace: seq<Arrival>, blocks: seq<FilledBlock>, b: FilledBlock)
    requires AllAmong(blocks, EventsOf(trace)) && Block(b) in EventsOf(trace)
    ensures EventsOf(AsTrace(blocks) + ([Arrival(Block(b), 0)] + trace)) == EventsOf(trace)
  {
    hide Acceptable;
    var fed := AsTrace(blocks) + ([Arrival(Block(b), 0)] + trace);
    forall a | a in fed ensures a.ev in EventsOf(trace) {
      if a in AsTrace(blocks) {
        var i :| 0 <= i < |blocks| && AsTrace(blocks)[i] == a;
        assert blocks[i] in blocks;
      }
    }
    forall e | e in EventsOf(trace) ensures e in EventsOf(fed) {
      var a :| a in trace && a.ev == e;
      assert a in fed;
    }
  }

  lemma LostEvents(trace: seq<Arrival>, b: FilledBlock)
    requires Block(b) in EventsOf(trace)
    ensures EventsOf([Arrival(Block(b), 0)] + Without(trace, Block(b))) == EventsOf(trace)
  {
    var lost := [Arrival(Block(b), 0)] + Without(trace, Block(b));
    WithoutHas(trace, Block(b));
    assert lost[0].ev in EventsOf(lost);
    forall e | e in EventsOf(trace) ensures e in EventsOf(lost) {
      if e != Block(b) {
        var a :| a in trace && a.ev == e;
        assert a in lost;
      }
    }
  }

  lemma StoredWhenFed(blocks: seq<FilledBlock>, b: FilledBlock, rest: seq<Arrival>)
    requires (forall x :: x in blocks ==> Acceptable(x)) && Acceptable(b) && Fed(Supply(blocks), b.operations)
    ensures BlockView(Run(EMPTY_TABLES, AsTrace(blocks) + ([Arrival(Block(b), 0)] + rest)), BlockId(b)).Some?
  {
    hide Run, Fed, Step, HandleBlock, Exact, DecodeEndorsements, Supply;
    var front, a := AsTrace(blocks), Arrival(Block(b), 0);
    var t := Run(EMPTY_TABLES, front);
    RunSplit(EMPTY_TABLES, front, [a] + rest);
    RunSplit(t, [a], rest);
    RunOne(t, a);
    EmptyValid();
    RunValid(EMPTY_TABLES, front);
    RunKnows(front);
    AsTraceBlocks(blocks);
    BlockOutcome(t, b);
    StepStores(t, a, BlockId(b));
    StepValid(t, a);
    StoredStays(Step(t, a), rest, BlockId(b));
  }

  lemma LostWhenFirst(trace: seq<Arrival>, b: FilledBlock)
    requires IdsAreBlocks(EventsOf(trace)) && Block(b) in EventsOf(trace) && Acceptable(b) && !SelfFed(b)
    ensures BlockView(Run(EMPTY_TABLES, [Arrival(Block(b), 0)] + Without(trace, Block(b))), BlockId(b)).None?
  {
    hide Run, Fed, Step, HandleBlock, Exact, DecodeEndorsements;
    var a, rest := Arrival(Block(b), 0), Without(trace, Block(b));
    RunSplit(EMPTY_TABLES, [a], rest);
    RunOne(EMPTY_TABLES, a);
    EmptyValid();
    StepValid(EMPTY_TABLES, a);
    assert EMPTY_TABLES.ops.rows.Keys == {};
    BlockOutcome(EMPTY_TABLES, b);
    StepStores(EMPTY_TABLES, a, BlockId(b));
    WithoutHas(trace, Block(b));
    forall x | x in rest && x.ev.Block? && Acceptable(x.ev.fb) ensures BlockId(x.ev.fb) != BlockId(b) {
      assert x.ev in EventsOf(trace) && !SameId(x.ev, Block(b));
    }
    NeverStored(Step(EMPTY_TABLES, a), rest, BlockId(b));
  }
}
