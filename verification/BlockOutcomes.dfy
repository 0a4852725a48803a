/**
 When a block event is taken: its header and endorsements must be readable, and
 the content of each operation it ingests must be at hand.
 */
module BlockOutcomes {
  import opened ByteStrings
  import opened Ids
  import opened Keys
  import opened Model
  import opened Store
  import opened IngestSpec

  /** The header is readable and every endorsement it carries has a parsable id. */
  predicate Acceptable(fb: FilledBlock) {
    CheckHeader(fb).Some?
    && var h := CheckHeader(fb).value;
       forall e :: e in DecodeEndorsements(h.content.endorsements, h.id, h.slot) ==> e.id.Parsed?
  }

  /** The operation comes with its content and a parsable creator. */
  predicate Carries(f: FilledOperation) {
    f.operation.Some? && f.operation.value.content.Some? && f.operation.value.creator.Parsed?
  }

  /** Some operation of `fs` is ingested under `id`. */
  predicate Lists(fs: seq<FilledOperation>, id: Bytes) {
    exists j :: 0 <= j < |fs| && OpIdOf(fs[j]).Some? && OpIdOf(fs[j]).value == id
  }

  /** Each operation ingested carries its content, or is known, or was listed earlier in the same block. */
  predicate Fed(known: set<Bytes>, fs: seq<FilledOperation>) {
    forall i :: 0 <= i < |fs| && OpIdOf(fs[i]).Some? ==>
      Carries(fs[i]) || OpIdOf(fs[i]).value in known || Lists(fs[..i], OpIdOf(fs[i]).value)
  }

  /** The block feeds itself: it needs no operation from the store. */
  predicate SelfFed(fb: FilledBlock) {
    Fed({}, fb.operations)
  }

  /** The operations that get stored from `fs`: those up to the first one that is not fed. */
  function Ingested(known: set<Bytes>, fs: seq<FilledOperation>): set<Bytes>
    decreases |fs|
  {
    if fs == [] then {}
    else
      match OpIdOf(fs[0])
      case None => Ingested(known, fs[1..])
      case Some(id) => if Carries(fs[0]) || id in known then {id} + Ingested(known + {id}, fs[1..]) else {}
  }

  /** The operations known after acceptable blocks have come in this order, whether they were taken or not. */
  function Supply(blocks: seq<FilledBlock>): set<Bytes> {
    if blocks == [] then {}
    else
      var before := Supply(blocks[..|blocks| - 1]);
      before + Ingested(before, blocks[|blocks| - 1].operations)
  }

  lemma ListsFirst(fs: seq<FilledOperation>, id: Bytes)
    requires fs != []
    ensures Lists(fs, id) <==> (OpIdOf(fs[0]).Some? && OpIdOf(fs[0]).value == id) || Lists(fs[1..], id)
  {
    hide OpIdOf;
    if Lists(fs, id) {
      var j :| 0 <= j < |fs| && OpIdOf(fs[j]).Some? && OpIdOf(fs[j]).value == id;
      if j > 0 { assert fs[1..][j - 1] == fs[j]; }
    }
    if Lists(fs[1..], id) {
      var j :| 0 <= j < |fs[1..]| && OpIdOf(fs[1..][j]).Some? && OpIdOf(fs[1..][j]).value == id;
      assert fs[j + 1] == fs[1..][j];
    }
  }

  /** The first operation must be fed by what is known; it feeds the rest. */
  lemma FedFirst(known: set<Bytes>, fs: seq<FilledOperation>)
    requires fs != []
    ensures var id := OpIdOf(fs[0]);
      Fed(known, fs) <==> (id.Some? ==> Carries(fs[0]) || id.value in known)
                          && Fed(if id.Some? then known + {id.value} else known, fs[1..])
  {
    hide OpIdOf, Carries, Lists;
    var id := OpIdOf(fs[0]);
    var known' := if id.Some? then known + {id.value} else known;
    forall i | 1 <= i < |fs| && OpIdOf(fs[i]).Some?
      ensures fs[1..][i - 1] == fs[i]
      ensures OpIdOf(fs[i]).value in known || Lists(fs[..i], OpIdOf(fs[i]).value)
         <==> OpIdOf(fs[i]).value in known' || Lists(fs[1..][..i - 1], OpIdOf(fs[i]).value)
    {
      assert fs[..i][1..] == fs[1..][..i - 1] && fs[..i][0] == fs[0];
      ListsFirst(fs[..i], OpIdOf(fs[i]).value);
    }
    if Fed(known, fs) {
      if id.Some? { NothingListed(fs[..0], id.value); }
      forall i | 0 <= i < |fs[1..]| && OpIdOf(fs[1..][i]).Some?
        ensures Carries(fs[1..][i]) || OpIdOf(fs[1..][i]).value in known'
            || Lists(fs[1..][..i], OpIdOf(fs[1..][i]).value)
      {
        assert fs[1..][i] == fs[i + 1];
      }
    }
    if (id.Some? ==> Carries(fs[0]) || id.value in known) && Fed(known', fs[1..]) {
      forall i | 0 <= i < |fs| && OpIdOf(fs[i]).Some?
        ensures Carries(fs[i]) || OpIdOf(fs[i]).value in known || Lists(fs[..i], OpIdOf(fs[i]).value)
      {
        if i > 0 { assert fs[i] == fs[1..][i - 1]; }
      }
    }
  }

  lemma NothingListed(fs: seq<FilledOperation>, id: Bytes)
    requires fs == []
    ensures !Lists(fs, id)
  {}

  lemma FedByMore(known: set<Bytes>, more: set<Bytes>, fs: seq<FilledOperation>)
    requires Fed(known, fs) && known <= more
    ensures Fed(more, fs)
  {
    hide OpIdOf, Carries, Lists;
  }

  /** Operations are ingested to the end exactly when they are fed; then all they list is known. */
  lemma {:induction false} OpsOutcome(x: Indexed<StoredOperation>, fs: seq<FilledOperation>, slot: Slot, block: Id)
    requires Keyed(x.rows, OpKeyOf)
    ensures var (y, _, ok) := PutOps(x, fs, slot, block);
      && (ok <==> Fed(x.rows.Keys, fs))
      && Keyed(y.rows, OpKeyOf)
      && y.rows.Keys == x.rows.Keys + Ingested(x.rows.Keys, fs)
      && (ok ==> forall k :: k in y.rows <==> k in x.rows || Lists(fs, k))
    decreases |fs|
  {
    hide OpEntries, Fed, Lists;
    if fs == [] {
      NothingToFeed(x.rows.Keys);
      forall k ensures !Lists(fs, k) { NothingListed(fs, k); }
    } else {
      FedFirst(x.rows.Keys, fs);
      forall k ensures Lists(fs, k) <==> (OpIdOf(fs[0]).Some? && OpIdOf(fs[0]).value == k) || Lists(fs[1..], k) {
        ListsFirst(fs, k);
      }
      match OpIdOf(fs[0])
      case None => OpsOutcome(x, fs[1..], slot, block);
      case Some(id) =>
        match FindOrNewOp(x, fs[0].operation.value, id, slot)
        case None =>
        case Some(o) =>
          var x1 := PutOp(x, Include(o, slot, block));
          assert x1.rows.Keys == x.rows.Keys + {id};
          OpsOutcome(x1, fs[1..], slot, block);
    }
  }

  lemma NothingToFeed(known: set<Bytes>)
    ensures Fed(known, [])
  {}

  lemma {:induction false} EndorsementsOutcome(x: Indexed<StoredEndorsement>, es: seq<StoredEndorsement>)
    ensures PutEndorsements(x, es).1 <==> forall e :: e in es ==> e.id.Parsed?
    decreases |es|
  {
    if es != [] {
      assert es == [es[0]] + es[1..];
      if es[0].id.Parsed? { EndorsementsOutcome(PutEndorsement(x, es[0]).value, es[1..]); }
    }
  }

  /** A block is taken exactly when it is acceptable and the store or the block itself feeds its operations. */
  lemma BlockOutcome(t: Tables, fb: FilledBlock)
    requires Keyed(t.ops.rows, OpKeyOf)
    ensures HandleBlock(t, fb).ok <==> Acceptable(fb) && Fed(t.ops.rows.Keys, fb.operations)
    ensures HandleBlock(t, fb).ok ==>
              forall k :: k in HandleBlock(t, fb).tables.ops.rows <==> k in t.ops.rows || Lists(fb.operations, k)
    ensures HandleBlock(t, fb).tables.ops.rows.Keys
         == t.ops.rows.Keys + if Acceptable(fb) then Ingested(t.ops.rows.Keys, fb.operations) else {}
  {
    hide Ingested, PutOps, PutEndorsements, DecodeEndorsements, PutDenunciations, BlockRow, PutBlock, PutSlot;
    hide ParentStub, SlotKey, Fed, Lists;
    if CheckHeader(fb).Some? {
      var h := CheckHeader(fb).value;
      EndorsementsOutcome(t.endorsements, DecodeEndorsements(h.content.endorsements, h.id, h.slot));
      OpsOutcome(t.ops, fb.operations, h.slot, h.id);
    }
  }

  lemma SelfFedOutcome(t: Tables, fb: FilledBlock)
    requires Keyed(t.ops.rows, OpKeyOf) && SelfFed(fb)
    ensures HandleBlock(t, fb).ok <==> Acceptable(fb)
  {
    hide Fed;
    FedByMore({}, t.ops.rows.Keys, fb.operations);
    BlockOutcome(t, fb);
  }

  /** An acceptable block is taken from every store if and only if it feeds itself. */
  lemma TakenFromEveryStoreIff(fb: FilledBlock)
    requires Acceptable(fb)
    ensures (forall t: Tables :: Keyed(t.ops.rows, OpKeyOf) ==> HandleBlock(t, fb).ok) <==> SelfFed(fb)
  {
    hide HandleBlock, Acceptable, Fed;
    BlockOutcome(EMPTY_TABLES, fb);
    assert EMPTY_TABLES.ops.rows.Keys == {};
    if SelfFed(fb) {
      forall t: Tables | Keyed(t.ops.rows, OpKeyOf) ensures HandleBlock(t, fb).ok { SelfFedOutcome(t, fb); }
    }
  }
}
