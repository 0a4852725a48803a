/**
 Where an operation was included, over whole runs.
 */
module Inclusions {
  import opened ByteStrings
  import opened Ids
  import opened Keys
  import opened Model
  import opened Store
  import opened IngestSpec
  import opened IndexRuns
  import opened BlockOutcomes
  import opened BlockRecords
  import opened Reorder
  import opened Selections
  import ExecEffects

  /** The block, coming after `front`, is acceptable and operation `k` is in its ingested part. */
  ghost predicate TakesIn(front: seq<Arrival>, fb: FilledBlock, k: Bytes) {
    Acceptable(fb) && exists i :: IngestedAt(Supply(BlocksOf(front)), fb.operations, k, i)
  }

  function SiteOf(fb: FilledBlock): OperationInclusion
    requires Acceptable(fb)
  {
    OperationInclusion(CheckHeader(fb).value.slot, CheckHeader(fb).value.id)
  }

  /** The sites of the blocks of a trace that take in operation `k`, in order of arrival and with repeats. */
  ghost function SitesOf(trace: seq<Arrival>, k: Bytes): seq<OperationInclusion> {
    if trace == [] then []
    else
      var front, last := trace[..|trace| - 1], trace[|trace| - 1].ev;
      SitesOf(front, k) + (if last.Block? && TakesIn(front, last.fb, k) then [SiteOf(last.fb)] else [])
  }

  /** Only blocks include operations. */
  lemma OtherEventsInclude(t: Tables, a: Arrival, k: Bytes)
    requires Valid(t) && !a.ev.Block?
    ensures InclusionsAt(Step(t, a).ops, k) == InclusionsAt(t.ops, k)
    ensures k in Step(t, a).ops.rows <==> k in t.ops.rows
  {
    hide ExecEffects.Settles, ExecEffects.Proposes, Exact, ExecEffects.StatusesAfter;
    if a.ev.Exec? {
      hide HandleExec;
      if slot :| ExecEffects.Settles(t, a.ev.out, slot) || ExecEffects.Proposes(t, a.ev.out, slot) {
        OutputInclude(t, a, slot, k);
      } else {
        ExecEffects.OtherOutputsIdle(t, a.ev.out, a.now);
      }
    } else {
      hide TransferRows, PutTransfers, ReconcileAsync, ReconcileDeferred, ClearTransfers, PutSlot, SlotOrFresh;
    }
  }

  lemma OutputInclude(t: Tables, a: Arrival, slot: Slot, k: Bytes)
    requires Valid(t) && a.ev.Exec?
    requires ExecEffects.Settles(t, a.ev.out, slot) || ExecEffects.Proposes(t, a.ev.out, slot)
    ensures InclusionsAt(Step(t, a).ops, k) == InclusionsAt(t.ops, k)
    ensures k in Step(t, a).ops.rows <==> k in t.ops.rows
  {
    assert a.ev.out.output.Some?;
    hide HandleExec, ExecEffects.Settles, ExecEffects.Proposes, Exact, ExecEffects.StatusesAfter, PutExecStatuses;
    ExecEffects.TakenOutput(t, a.ev.out, a.now, slot);
    var es := ExecEffects.Changes(a.ev.out.output.value).executedOps;
    StatusesKeepKeys(t.ops, es, a.ev.out.status.FinalOutput?);
    if k in t.ops.rows {
      assert OpKeyOf(t.ops.rows[k]) == k;
      ExecEffects.TakenStatuses(t, a.ev.out, a.now, slot, k);
    }
  }

  lemma BlockIncludes(t: Tables, a: Arrival, front: seq<Arrival>, k: Bytes)
    requires Valid(t) && a.ev.Block? && t.ops.rows.Keys == Supply(BlocksOf(front))
    ensures var x, y := t.ops, Step(t, a).ops;
      if TakesIn(front, a.ev.fb, k)
      then k in y.rows && InclusionsAt(y, k) == Noted(InclusionsAt(x, k), SiteOf(a.ev.fb))
      else InclusionsAt(y, k) == InclusionsAt(x, k) && (k in y.rows <==> k in x.rows)
  {
    hide HandleBlock, CheckHeader, Reads, IngestedAt, Exact, Supply, Acceptable;
    var fb := a.ev.fb;
    IngestedIff(t.ops.rows.Keys, fb.operations, k);
    if CheckHeader(fb).Some? {
      var h := CheckHeader(fb).value;
      ReadsIff(fb, h);
      AcceptableIff(fb, h);
      hide EndorsementsNamed, Fed, Ingested, EndorsementAfter, DenunciationAfter, BlockRecorded, SlotHasBlock;
      BlockEffect(t, fb, h);
      if Acceptable(fb) { assert OpAfter(t.ops, Step(t, a).ops, fb.operations, h.slot, h.id, k); }
    } else {
      SlotRuns.NoHeaderNoChange(t, fb);
      assert !Acceptable(fb) by { AcceptableReads(fb); }
    }
  }

  lemma AcceptableReads(fb: FilledBlock)
    ensures Acceptable(fb) ==> CheckHeader(fb).Some?
  {}

  /**
   After any run the inclusions of an operation are the sites of the blocks that took it
   in, each once, in the order of first arrival; the operation is stored if there is one.
   */
  lemma {:induction false} RunInclusions(trace: seq<Arrival>, k: Bytes)
    ensures var x := Run(EMPTY_TABLES, trace).ops;
      InclusionsAt(x, k) == Distinct(SitesOf(trace, k)) && (k in x.rows <==> SitesOf(trace, k) != [])
    decreases |trace|
  {
    hide Step, Valid, TakesIn, SiteOf, Distinct, Noted, InclusionsAt, Supply, BlocksOf;
    if trace == [] {
      NothingIncluded(k);
    } else {
      var front, last := trace[..|trace| - 1], trace[|trace| - 1];
      RunInclusions(front, k);
      EmptyValid();
      RunValid(EMPTY_TABLES, front);
      RunKnows(front);
      if last.ev.Block? {
        BlockIncludes(Run(EMPTY_TABLES, front), last, front, k);
        TakenIsAcceptable(front, last.ev.fb, k);
        if TakesIn(front, last.ev.fb, k) { DistinctNext(SitesOf(front, k), SiteOf(last.ev.fb)); }
      } else {
        OtherEventsInclude(Run(EMPTY_TABLES, front), last, k);
      }
      assert !(last.ev.Block? && TakesIn(front, last.ev.fb, k)) ==> SitesOf(trace, k) == SitesOf(front, k);
    }
  }

  lemma TakenIsAcceptable(front: seq<Arrival>, fb: FilledBlock, k: Bytes)
    ensures TakesIn(front, fb, k) ==> Acceptable(fb)
  {
    hide Acceptable;
  }

  lemma NothingIncluded(k: Bytes)
    ensures InclusionsAt(EMPTY_TABLES.ops, k) == Distinct<OperationInclusion>([]) && k !in EMPTY_TABLES.ops.rows
  {}

  lemma DistinctNext(sites: seq<OperationInclusion>, site: OperationInclusion)
    ensures Distinct(sites + [site]) == Noted(Distinct(sites), site)
  {
    assert (sites + [site])[..|sites|] == sites;
  }
}
