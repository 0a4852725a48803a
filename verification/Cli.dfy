/**
 The `verify` walk over the secondary indexes: what it counts, what it misses,
 and what it says after a rebuild.
 */
module Cli {
  import opened ByteStrings
  import opened Ids
  import opened Keys
  import opened Model
  import opened Store
  import opened Rebuild
  import opened Database

  datatype Issue =
    | MetaMissing
    | KeyMalformed(cf: IndexCf, key: Bytes)
    | PrimaryMissing(cf: IndexCf, key: Bytes)

  datatype VerifyReport = VerifyReport(totalIssues: nat, issues: seq<Issue>, scanned: nat, perCfRows: map<IndexCf, nat>)

  /** The by-last-slot families fall through to the branch that accepts anything. */
  predicate Checked(cf: IndexCf) {
    cf in SECONDARY_INDEX_CFS && cf != AsyncByLastSlot && cf != DeferredByLastSlot
  }

  /** What is wrong with one index row of a checked family. */
  function IssueAt(t: Tables, cf: IndexCf, k: Bytes): Option<Issue> {
    var r := Target(Entry(cf, k));
    if !Checked(cf) then None
    else if r.None? then Some(KeyMalformed(cf, k))
    else if RowExists(t, r.value) then None
    else Some(PrimaryMissing(cf, k))
  }

  ghost function IssuesAmong(t: Tables, cf: IndexCf, ks: set<Bytes>): set<Issue> {
    set k | k in ks && IssueAt(t, cf, k).Some? :: IssueAt(t, cf, k).value
  }

  /** Every issue there is to find in the families listed. */
  ghost function IssuesIn(t: Tables, cfs: seq<IndexCf>): set<Issue> {
    (if t.meta then {} else {MetaMissing})
    + set cf, i | cf in cfs && i in IssuesAmong(t, cf, CfRows(t, cf)) :: i
  }

  ghost function Issues(t: Tables): set<Issue> { IssuesIn(t, SECONDARY_INDEX_CFS) }

  function Scanned(t: Tables, cfs: seq<IndexCf>): nat {
    if cfs == [] then 0 else Scanned(t, cfs[..|cfs| - 1]) + |CfRows(t, cfs[|cfs| - 1])|
  }

  function Capped(n: nat, maxIssues: nat): nat {
    if maxIssues != 0 && maxIssues < n then maxIssues else n
  }

  /** `issues` lists part of `found`, without repeats, up to the cap; `total` counts all of it. */
  ghost predicate Reports(total: nat, issues: seq<Issue>, found: set<Issue>, maxIssues: nat) {
    && total == |found|
    && |issues| == Capped(total, maxIssues)
    && (forall i :: i in issues ==> i in found)
    && (forall i, j :: 0 <= i < j < |issues| ==> issues[i] != issues[j])
  }

  function Push(issues: seq<Issue>, i: Issue, maxIssues: nat): seq<Issue> {
    if maxIssues == 0 || |issues| < maxIssues then issues + [i] else issues
  }

  lemma PushReports(total: nat, issues: seq<Issue>, found: set<Issue>, i: Issue, maxIssues: nat)
    requires Reports(total, issues, found, maxIssues) && i !in found
    ensures Reports(total + 1, Push(issues, i, maxIssues), found + {i}, maxIssues)
  {}

  lemma AmongNext(t: Tables, cf: IndexCf, seen: set<Bytes>, k: Bytes)
    requires k !in seen
    ensures var i := IssueAt(t, cf, k);
            && IssuesAmong(t, cf, seen + {k}) == IssuesAmong(t, cf, seen) + (if i.Some? then {i.value} else {})
            && (i.Some? ==> i.value !in IssuesAmong(t, cf, seen))
            && (i.Some? ==> !i.value.MetaMissing? && i.value.cf == cf)
  {
    hide Checked, RowExists, Target;
  }

  lemma IssuesNext(t: Tables, cfs: seq<IndexCf>, cf: IndexCf)
    ensures IssuesIn(t, cfs + [cf]) == IssuesIn(t, cfs) + IssuesAmong(t, cf, CfRows(t, cf))
    ensures cf !in cfs ==> forall i :: i in IssuesIn(t, cfs) ==> i.MetaMissing? || i.cf != cf
  {
    hide IssueAt, CfRows;
    forall c, i | i in IssuesAmong(t, c, CfRows(t, c)) ensures !i.MetaMissing? && i.cf == c { IssueNamesCf(t, c, i); }
  }

  lemma IssueNamesCf(t: Tables, cf: IndexCf, i: Issue)
    requires i in IssuesAmong(t, cf, CfRows(t, cf))
    ensures !i.MetaMissing? && i.cf == cf
  {
    hide Checked, RowExists, Target;
  }

  lemma CheckedIff(cf: IndexCf)
    ensures Checked(cf) <==> cf != AsyncByLastSlot && cf != DeferredByLastSlot && cf != SlotCandidateBlock
  {
    AllButPointers(cf);
  }

  /** One index row: parse the key, look the primary up. */
  method CheckRow(db: Db, cf: IndexCf, k: Bytes) returns (issue: Option<Issue>)
    ensures issue == IssueAt(db.inner, cf, k)
  {
    hide Checked, ParseAddrSlotId, ParseTransferByAddr, ParseIdSlotIndex, ParseDenunciationByAddr;
    hide ParseDenunciationRecent;
    hide ParseEvent, SplitAddrId, ParseByLastSlot, SlotIndexedKey;
    CheckedIff(cf);
    var t := db.inner;
    var ok := true;
    match cf {
      case BlockByCreator =>
        var p := ParseAddrSlotId(k);
        if p.None? { return Some(KeyMalformed(cf, k)); }
        ok := p.value.1 in t.blocks.rows;
      case OpByCreator | OpByTarget =>
        var p := ParseAddrSlotId(k);
        if p.None? { return Some(KeyMalformed(cf, k)); }
        ok := p.value.1 in t.ops.rows;
      case EndorsementByCreator =>
        var p := ParseAddrSlotId(k);
        if p.None? { return Some(KeyMalformed(cf, k)); }
        ok := p.value.1 in t.endorsements.rows;
      case TransferByAddr =>
        var p := ParseTransferByAddr(k);
        if p.None? { return Some(KeyMalformed(cf, k)); }
        ok := SlotIndexedKey(p.value.0, p.value.1) in t.transfers.rows;
      case TransferByOp | TransferByBlock =>
        var p := ParseIdSlotIndex(k);
        if p.None? { return Some(KeyMalformed(cf, k)); }
        ok := SlotIndexedKey(p.value.0, p.value.1) in t.transfers.rows;
      case DenunciationByAddr =>
        var p := ParseDenunciationByAddr(k);
        if p.None? { return Some(KeyMalformed(cf, k)); }
        ok := p.value.1 in t.denunciations.rows;
      case DenunciationRecent =>
        var p := ParseDenunciationRecent(k);
        if p.None? { return Some(KeyMalformed(cf, k)); }
        ok := p.value.1 in t.denunciations.rows;
      case EventByEmitter | EventByCaller | EventByOp =>
        var p := ParseEvent(k);
        if p.None? { return Some(KeyMalformed(cf, k)); }
        ok := SlotIndexedKey(p.value.0, p.value.1) in t.scEvents.rows;
      case AsyncBySender | AsyncByDest =>
        var p := SplitAddrId(k);
        if p.None? { return Some(KeyMalformed(cf, k)); }
        ok := p.value in t.asyncMsgs.rows;
      case DeferredBySender | DeferredByTarget =>
        var p := SplitAddrId(k);
        if p.None? { return Some(KeyMalformed(cf, k)); }
        ok := p.value in t.deferredCalls.rows;
      case _ =>
        ok := true;
    }
    return if ok then None else Some(PrimaryMissing(cf, k));
  }

  /** Walk one family in key order. */
  method VerifyCf(db: Db, cf: IndexCf, before: VerifyReport, maxIssues: nat, ghost found: set<Issue>)
    returns (report: VerifyReport)
    requires Reports(before.totalIssues, before.issues, found, maxIssues)
    requires forall i :: i in found ==> i.MetaMissing? || i.cf != cf
    ensures Reports(report.totalIssues, report.issues, found + IssuesAmong(db.inner, cf, CfRows(db.inner, cf)),
        maxIssues)
    ensures report.scanned == before.scanned + |CfRows(db.inner, cf)|
    ensures report.perCfRows == before.perCfRows[cf := |CfRows(db.inner, cf)|]
  {
    hide Reports, Push, CfRows, IssueAt, IssuesAmong, Ordered, InOrder, Checked;
    report := before;
    var iter := InOrder(Forward, CfRows(db.inner, cf));
    var rows := 0;
    ghost var seen: set<Bytes> := {};
    ghost var all := found;
    assert all == found + IssuesAmong(db.inner, cf, seen) by { AmongNone(db.inner, cf); }
    while rows < |iter|
      invariant 0 <= rows <= |iter|
      invariant seen == set k | k in iter[..rows]
      invariant all == found + IssuesAmong(db.inner, cf, seen)
      invariant Reports(report.totalIssues, report.issues, all, maxIssues)
      invariant report.scanned == before.scanned + rows && report.perCfRows == before.perCfRows
    {
      var k := iter[rows];
      OrderedFresh(Forward, iter, rows);
      assert iter[..rows + 1] == iter[..rows] + [k];
      AmongNext(db.inner, cf, seen, k);
      var issue := CheckRow(db, cf, k);
      report := report.(scanned := report.scanned + 1);
      if issue.Some? {
        PushReports(report.totalIssues, report.issues, all, issue.value, maxIssues);
        report := report.(totalIssues := report.totalIssues + 1, issues := Push(report.issues, issue.value, maxIssues));
        all := all + {issue.value};
      }
      seen := seen + {k};
      rows := rows + 1;
    }
    assert iter[..rows] == iter && seen == CfRows(db.inner, cf);
    report := report.(perCfRows := report.perCfRows[cf := rows]);
  }

  lemma AmongNone(t: Tables, cf: IndexCf)
    ensures IssuesAmong(t, cf, {}) == {}
  {}

  /** The walk over some of the families, none of them twice. */
  method VerifyFamilies(db: Db, cfs: seq<IndexCf>, maxIssues: nat) returns (report: VerifyReport)
    requires forall i :: 0 <= i < |cfs| ==> cfs[i] !in cfs[..i]
    ensures Reports(report.totalIssues, report.issues, IssuesIn(db.inner, cfs), maxIssues)
    ensures report.scanned == Scanned(db.inner, cfs)
    ensures forall cf :: cf in cfs ==> cf in report.perCfRows && report.perCfRows[cf] == |CfRows(db.inner, cf)|
  {
    hide CfRows, IssuesIn, IssuesAmong;
    report := VerifyReport(0, [], 0, map[]);
    var t := db.inner;
    NoFamilies(t);
    if !t.meta {
      report := report.(totalIssues := 1, issues := Push([], MetaMissing, maxIssues));
    }
    for i := 0 to |cfs|
      invariant Reports(report.totalIssues, report.issues, IssuesIn(t, cfs[..i]), maxIssues)
      invariant report.scanned == Scanned(t, cfs[..i])
      invariant forall cf :: cf in cfs[..i] ==> cf in report.perCfRows && report.perCfRows[cf] == |CfRows(t, cf)|
    {
      hide Reports;
      IssuesNext(t, cfs[..i], cfs[i]);
      assert cfs[..i + 1] == cfs[..i] + [cfs[i]];
      assert cfs[..i + 1][..i] == cfs[..i];
      report := VerifyCf(db, cfs[i], report, maxIssues, IssuesIn(t, cfs[..i]));
    }
    assert cfs[..|cfs|] == cfs;
  }

  /** The whole walk: the count is exactly the number of issues there are. */
  method Verify(db: Db, maxIssues: nat) returns (report: VerifyReport)
    ensures report.totalIssues == |Issues(db.inner)|
    ensures |report.issues| == Capped(report.totalIssues, maxIssues)
    ensures forall i :: i in report.issues ==> i in Issues(db.inner)
    ensures forall i, j :: 0 <= i < j < |report.issues| ==> report.issues[i] != report.issues[j]
    ensures report.scanned == Scanned(db.inner, SECONDARY_INDEX_CFS)
    ensures forall cf :: cf in SECONDARY_INDEX_CFS ==>
              cf in report.perCfRows && report.perCfRows[cf] == |CfRows(db.inner, cf)|
  {
    hide CfRows, IssuesIn, Scanned;
    forall i | 0 <= i < |SECONDARY_INDEX_CFS| ensures SECONDARY_INDEX_CFS[i] !in SECONDARY_INDEX_CFS[..i] {
      CfsDistinct(i);
    }
    report := VerifyFamilies(db, SECONDARY_INDEX_CFS, maxIssues);
  }

  lemma NoFamilies(t: Tables)
    ensures IssuesIn(t, []) == if t.meta then {} else {MetaMissing}
  {}

  // ---- what a clean report means ------------------------------------------

  /** A clean report: the meta row is there and every checked index row leads to a stored row. */
  lemma CleanIff(t: Tables)
    ensures Issues(t) == {} <==>
      t.meta && forall cf, k :: Checked(cf) && k in CfRows(t, cf) ==>
        Target(Entry(cf, k)).Some? && RowExists(t, Target(Entry(cf, k)).value)
  {
    hide CfRows, Target, RowExists;
    if Issues(t) == {} {
      assert t.meta by { assert !t.meta ==> MetaMissing in Issues(t); }
      forall cf, k | Checked(cf) && k in CfRows(t, cf) ensures IssueAt(t, cf, k).None? {
        if IssueAt(t, cf, k).Some? { FoundIsIssue(t, cf, k); }
      }
    }
  }

  lemma FoundIsIssue(t: Tables, cf: IndexCf, k: Bytes)
    requires Checked(cf) && k in CfRows(t, cf) && IssueAt(t, cf, k).Some?
    ensures IssueAt(t, cf, k).value in Issues(t)
  {
    hide CfRows, IssueAt;
    assert IssueAt(t, cf, k).value in IssuesAmong(t, cf, CfRows(t, cf));
  }

  /** An index row taken from a table's image leads to a row of that table. */
  lemma OwnedLeads<R>(x: Indexed<R>, table: Table, entries: R -> set<Entry>, e: Entry)
    requires Exact(x, table, entries) && e in x.idx
    ensures Target(e).Some? && Target(e).value.table == table && Target(e).value.key in x.rows
  {
    assert Owned(x, table, entries, e);
  }

  /** Every readable endorsement id is the key of some stored endorsement. */
  ghost predicate EndorsementsResolve(rows: map<Bytes, StoredEndorsement>) {
    forall k :: k in rows && rows[k].id.Parsed? ==> rows[k].id.id in rows
  }

  /**
   After a successful rebuild, from any index contents, only a missing meta row is left
   to report if and only if every readable endorsement id is a stored key.
   */
  lemma RebuiltIsCleanIff(t: Tables)
    requires RowsKeyed(t)
    ensures Issues(Rebuilt(t)) == (if t.meta then {} else {MetaMissing}) <==> EndorsementsResolve(t.endorsements.rows)
  {
    hide RowsKeyed, Rebuilt, OthersExact, SecondariesExact, CfRows, Target, RowExists, Checked;
    var u := Rebuilt(t);
    assert u.meta == t.meta by { RebuiltMeta(t); }
    RebuildIsExact(t);
    forall cf, k | cf in SECONDARY_INDEX_CFS && TableOf(cf) != EndorsementT && k in CfRows(u, cf)
      ensures Target(Entry(cf, k)).Some? && RowExists(u, Target(Entry(cf, k)).value)
    {
      RebuiltRowLeads(u, cf, k);
    }
    if EndorsementsResolve(t.endorsements.rows) {
      forall cf, k | cf in SECONDARY_INDEX_CFS && TableOf(cf) == EndorsementT && k in CfRows(u, cf)
        ensures Target(Entry(cf, k)).Some? && RowExists(u, Target(Entry(cf, k)).value)
      {
        EndorsementRowTarget(t, cf, k);
      }
    } else {
      var k :| k in t.endorsements.rows && t.endorsements.rows[k].id.Parsed?
          && t.endorsements.rows[k].id.id !in t.endorsements.rows;
      var e := t.endorsements.rows[k];
      var key := AddrSlotIdKey(e.creator, e.slot, e.id.id);
      EndorsementDangles(t, k);
      CheckedIff(EndorsementByCreator);
      FoundIsIssue(u, EndorsementByCreator, key);
    }
  }

  /** When the ids resolve, a rebuilt endorsement index row leads to a stored row. */
  lemma EndorsementRowTarget(t: Tables, cf: IndexCf, k: Bytes)
    requires EndorsementsResolve(t.endorsements.rows)
    requires TableOf(cf) == EndorsementT && k in CfRows(Rebuilt(t), cf)
    ensures Target(Entry(cf, k)).Some? && RowExists(Rebuilt(t), Target(Entry(cf, k)).value)
  {
    hide AddrSlotIdKey, ParseAddrSlotId;
    var e := Entry(cf, k);
    assert e in Image(t.endorsements.rows, EndorsementEntries);
    var r :| r in t.endorsements.rows && e in EndorsementEntries(t.endorsements.rows[r]);
    EndorsementLeads(t.endorsements.rows[r]);
  }

  lemma EndorsementDangles(t: Tables, k: Bytes)
    requires k in t.endorsements.rows && t.endorsements.rows[k].id.Parsed?
        && t.endorsements.rows[k].id.id !in t.endorsements.rows
    ensures var e := t.endorsements.rows[k];
      var key := AddrSlotIdKey(e.creator, e.slot, e.id.id);
      key in CfRows(Rebuilt(t), EndorsementByCreator) && IssueAt(Rebuilt(t), EndorsementByCreator, key).Some?
      && IssueAt(Rebuilt(t), EndorsementByCreator, key).value != MetaMissing
  {
    hide AddrSlotIdKey, ParseAddrSlotId, Checked;
    CheckedIff(EndorsementByCreator);
    var e := t.endorsements.rows[k];
    var entry := Entry(EndorsementByCreator, AddrSlotIdKey(e.creator, e.slot, e.id.id));
    assert entry in EndorsementEntries(e);
    assert entry in Image(t.endorsements.rows, EndorsementEntries);
    EndorsementLeads(e);
  }

  lemma RebuiltMeta(t: Tables)
    ensures Rebuilt(t).meta == t.meta
  {}

  lemma RebuiltRowLeads(u: Tables, cf: IndexCf, k: Bytes)
    requires OthersExact(u) && cf in SECONDARY_INDEX_CFS && TableOf(cf) != EndorsementT && k in CfRows(u, cf)
    ensures Target(Entry(cf, k)).Some? && RowExists(u, Target(Entry(cf, k)).value)
  {
    hide Exact, Target, BlockEntries, OpEntries, EndorsementEntries, TransferEntries, DenunciationEntries;
    hide EventEntries, AsyncEntries, DeferredEntries;
    hide Pointers;
    var e := Entry(cf, k);
    AllButPointers(cf);
    assert e in IdxOf(u, TableOf(cf));
    match TableOf(cf)
    case BlockT =>
      assert e !in CandidatePointers(u);
      OwnedLeads(Indexed(u.blocks.rows, u.blocks.idx - CandidatePointers(u) + Pointers(u.blocks.rows)), BlockT,
          BlockEntries, e);
    case OpT => OwnedLeads(u.ops, OpT, OpEntries, e);
    case TransferT => OwnedLeads(u.transfers, TransferT, TransferEntries, e);
    case DenunciationT => OwnedLeads(u.denunciations, DenunciationT, DenunciationEntries, e);
    case EventT => OwnedLeads(u.scEvents, EventT, EventEntries, e);
    case AsyncT => OwnedLeads(u.asyncMsgs, AsyncT, AsyncEntries, e);
    case DeferredT => OwnedLeads(u.deferredCalls, DeferredT, DeferredEntries, e);
  }

  /** A store in order has nothing to report but a missing meta row. */
  lemma ValidIsClean(t: Tables)
    requires Valid(t)
    ensures Issues(t) == if t.meta then {} else {MetaMissing}
  {
    hide Issues, Exact, Rebuilt;
    RebuildKeepsValid(t);
    RebuiltIsCleanIff(t);
  }

  /** Orphans of the by-last-slot families and stray candidate pointers are never reported. */
  lemma UncheckedOrphansAreMissed(t: Tables, e: Entry)
    requires e.cf == AsyncByLastSlot || e.cf == DeferredByLastSlot || e.cf == SlotCandidateBlock
    ensures Issues(WithIdx(t, TableOf(e.cf), IdxOf(t, TableOf(e.cf)) + {e})) == Issues(t)
  {
    hide WithIdx, IdxOf, Target, RowExists, Checked;
    var table := TableOf(e.cf);
    var u := WithIdx(t, table, IdxOf(t, table) + {e});
    WithIdxLaws(t, table, IdxOf(t, table) + {e}, {});
    WithIdxElsewhere(t, table, IdxOf(t, table) + {e});
    forall cf, k ensures IssueAt(u, cf, k) == IssueAt(t, cf, k) {}
    forall cf ensures Checked(cf) ==> CfRows(u, cf) == CfRows(t, cf) {
      CheckedIff(cf);
      if Checked(cf) && TableOf(cf) == table { OtherCf(IdxOf(t, table), e, cf); }
    }
    hide CfRows, IssueAt, IssuesAmong;
    forall cf ensures IssuesAmong(u, cf, CfRows(u, cf)) == IssuesAmong(t, cf, CfRows(t, cf)) { SameAmong(t, u, cf); }
  }

  lemma OtherCf(idx: set<Entry>, e: Entry, cf: IndexCf)
    requires e.cf != cf
    ensures KeysOf(idx + {e}, cf) == KeysOf(idx, cf)
  {
    assert forall x: Entry :: x in idx + {e} && x.cf == cf <==> x in idx && x.cf == cf;
  }

  lemma SameAmong(t: Tables, u: Tables, cf: IndexCf)
    requires forall k :: IssueAt(u, cf, k) == IssueAt(t, cf, k)
    requires Checked(cf) ==> CfRows(u, cf) == CfRows(t, cf)
    ensures IssuesAmong(u, cf, CfRows(u, cf)) == IssuesAmong(t, cf, CfRows(t, cf))
  {
    hide CfRows, Target, RowExists;
  }

  /** Index rows that have gone missing are never reported: fewer index rows, no new issue. */
  lemma MissingRowsAreMissed(t: Tables, u: Tables)
    requires SameRows(t, u)
    requires forall table :: IdxOf(u, table) <= IdxOf(t, table)
    ensures Issues(u) <= Issues(t)
  {
    hide SameRows, IssuesAmong, CfRows;
    SameMeta(t, u);
    forall cf ensures IssuesAmong(u, cf, CfRows(u, cf)) <= IssuesAmong(t, cf, CfRows(t, cf)) { AmongGrows(t, u, cf); }
  }

  lemma AmongGrows(t: Tables, u: Tables, cf: IndexCf)
    requires SameRows(t, u) && IdxOf(u, TableOf(cf)) <= IdxOf(t, TableOf(cf))
    ensures IssuesAmong(u, cf, CfRows(u, cf)) <= IssuesAmong(t, cf, CfRows(t, cf))
  {
    hide IssueAt, CfRows, SameRows, IdxOf;
    forall k | k in CfRows(u, cf) ensures k in CfRows(t, cf) && IssueAt(u, cf, k) == IssueAt(t, cf, k) {
      SameVerdict(t, u, cf, k);
    }
  }

  lemma SameMeta(t: Tables, u: Tables)
    requires SameRows(t, u)
    ensures t.meta == u.meta
  {}

  lemma SameVerdict(t: Tables, u: Tables, cf: IndexCf, k: Bytes)
    requires SameRows(t, u) && k in CfRows(u, cf)
    requires IdxOf(u, TableOf(cf)) <= IdxOf(t, TableOf(cf))
    ensures k in CfRows(t, cf) && IssueAt(u, cf, k) == IssueAt(t, cf, k)
  {
    hide Target, Checked, IdxOf;
    assert Entry(cf, k) in IdxOf(t, TableOf(cf));
  }
}
