/**
 An address's transfers, followed page by page on a sound store: how often each
 stored transfer is handed out.
 */
module TransferListings {
  import opened ByteStrings
  import opened Ids
  import opened Keys
  import opened Model
  import opened Store
  import opened Scan
  import opened Paging
  import opened SelfTransfers
  import opened Database

  function AddrKeys(t: Tables): set<Bytes> {
    KeysOf(t.transfers.idx, TransferByAddr)
  }

  function Behind(t: Tables): Bytes -> Option<StoredTransfer> {
    Dereference(t.transfers, TransferT, TransferByAddr)
  }

  /** The address pays, or receives, in the transfer. */
  predicate Pays(r: StoredTransfer, a: Address) { OkOf(r.from) == Some(a) }
  predicate Gets(r: StoredTransfer, a: Address) { OkOf(r.to) == Some(a) }

  function SenderKey(r: StoredTransfer, a: Address): Bytes { TransferByAddrKey(a, r.slot, r.index, TAG_FROM) }
  function ReceiverKey(r: StoredTransfer, a: Address): Bytes { TransferByAddrKey(a, r.slot, r.index, TAG_TO) }

  lemma TransfersExact(t: Tables)
    requires Valid(t)
    ensures Exact(t.transfers, TransferT, TransferEntries) && Keyed(t.transfers.rows, TransferKeyOf)
  {
    hide Exact;
  }

  /** An index row under an address is the sender or the receiver row of a stored transfer of that address. */
  lemma AddrRow(t: Tables, a: Address, k: Bytes)
    requires Valid(t) && k in AddrKeys(t) && a <= k
    ensures Behind(t)(k).Some?
    ensures var r := Behind(t)(k).value;
      && TransferKeyOf(r) in t.transfers.rows && t.transfers.rows[TransferKeyOf(r)] == r
      && ((k == SenderKey(r, a) && Pays(r, a)) || (k == ReceiverKey(r, a) && Gets(r, a)))
  {
    hide Exact, KeyIn, TransferKeyOf, RSlotted;
    TransfersExact(t);
    var e := Entry(TransferByAddr, k);
    EntryOwned(t, e);
    var r := Behind(t)(k).value;
    assert e in PartyEntries(r, r.from, TAG_FROM) + PartyEntries(r, r.to, TAG_TO);
    if e in PartyEntries(r, r.from, TAG_FROM) {
      OwnerPrefix(a, OkOf(r.from).value, r.slot, IndexBytes(r.index) + [TAG_FROM]);
    }
    if e in PartyEntries(r, r.to, TAG_TO) { OwnerPrefix(a, OkOf(r.to).value, r.slot, IndexBytes(r.index) + [TAG_TO]); }
  }

  lemma EntryOwned(t: Tables, e: Entry)
    requires Exact(t.transfers, TransferT, TransferEntries) && Keyed(t.transfers.rows, TransferKeyOf)
    requires e in t.transfers.idx && e.cf == TransferByAddr
    ensures Behind(t)(e.key).Some?
    ensures var r := Behind(t)(e.key).value;
      e in TransferEntries(r) && TransferKeyOf(r) in t.transfers.rows && t.transfers.rows[TransferKeyOf(r)] == r
  {
    hide KeyIn, TransferEntries, TransferKeyOf;
    assert Owned(t.transfers, TransferT, TransferEntries, e);
  }

  /** In a sound store every index row under an address is tagged and leads to a stored transfer. */
  lemma ValidIsWellIndexed(t: Tables, a: Address)
    requires Valid(t)
    ensures WellIndexed(AddrKeys(t), a, Behind(t))
  {
    hide Valid, AddrKeys, Behind, RSlotKey, IndexBytes;
    forall k | k in AddrKeys(t) && a <= k ensures Tagged(k) && Behind(t)(k).Some? {
      AddrRow(t, a, k);
    }
  }

  /** A stored transfer has its sender row exactly under its sender, its receiver row exactly under its receiver. */
  lemma RowsUnderParties(t: Tables, a: Address, pk: Bytes)
    requires Valid(t) && pk in t.transfers.rows
    ensures var r := t.transfers.rows[pk];
      && (SenderKey(r, a) in AddrKeys(t) <==> Pays(r, a))
      && (ReceiverKey(r, a) in AddrKeys(t) <==> Gets(r, a))
      && (Pays(r, a) ==> Behind(t)(SenderKey(r, a)) == Some(r))
      && (Gets(r, a) ==> Behind(t)(ReceiverKey(r, a)) == Some(r))
  {
    hide Exact, KeyIn, TransferKeyOf, RSlotted;
    TransfersExact(t);
    var r := t.transfers.rows[pk];
    assert TransferKeyOf(r) == pk;
    TransferLeadsBack(t, pk);
    if SenderKey(r, a) in AddrKeys(t) { PartyRow(t, a, r, TAG_FROM); }
    if ReceiverKey(r, a) in AddrKeys(t) { PartyRow(t, a, r, TAG_TO); }
    if Pays(r, a) { assert Entry(TransferByAddr, SenderKey(r, a)) in TransferEntries(r); }
    if Gets(r, a) { assert Entry(TransferByAddr, ReceiverKey(r, a)) in TransferEntries(r); }
  }

  /** Each index row of a stored transfer is in the index and leads back to it. */
  lemma TransferLeadsBack(t: Tables, pk: Bytes)
    requires Exact(t.transfers, TransferT, TransferEntries) && pk in t.transfers.rows
    ensures forall e :: e in TransferEntries(t.transfers.rows[pk]) ==>
              e in t.transfers.idx && KeyIn(TransferT, e) == Some(pk)
  {
    hide KeyIn, TransferEntries;
    assert LeadsTo(TransferEntries(t.transfers.rows[pk]), TransferT, pk);
    forall e | e in TransferEntries(t.transfers.rows[pk]) ensures e in t.transfers.idx {
      assert Owned(t.transfers, TransferT, TransferEntries, e);
    }
  }

  lemma PartyRow(t: Tables, a: Address, r: StoredTransfer, tag: Byte)
    requires Valid(t) && TransferByAddrKey(a, r.slot, r.index, tag) in AddrKeys(t) && (tag == TAG_FROM || tag == TAG_TO)
    requires TransferKeyOf(r) in t.transfers.rows && t.transfers.rows[TransferKeyOf(r)] == r
    ensures if tag == TAG_FROM then Pays(r, a) else Gets(r, a)
  {
    hide Valid, AddrKeys, Behind, RSlotKey, IndexBytes;
    var k := TransferByAddrKey(a, r.slot, r.index, tag);
    assert a <= k by { assert k[..ADDR_KEY_LEN] == a; }
    AddrRow(t, a, k);
    var q := Behind(t)(k).value;
    ByAddrInjective(a, q, q, TAG_FROM, TAG_TO);
    ByAddrInjective(a, r, q, tag, if k == SenderKey(q, a) then TAG_FROM else TAG_TO);
  }

  lemma ByAddrInjective(a: Address, r: StoredTransfer, q: StoredTransfer, tag: Byte, tag': Byte)
    ensures TransferByAddrKey(a, r.slot, r.index, tag) == TransferByAddrKey(a, q.slot, q.index, tag')
        ==> r.slot == q.slot && r.index == q.index && tag == tag'
  {
    hide RSlotted, ParseTransferByAddr, TransferByAddrKey;
    var none: Id := seq(ID_KEY_LEN, _ => 0);
    ParseBuild(a, none, seq(DENUNCIATION_HASH_LEN, _ => 0), [], r.slot, r.index, tag);
    ParseBuild(a, none, seq(DENUNCIATION_HASH_LEN, _ => 0), [], q.slot, q.index, tag');
  }

  // ---- following the pages ------------------------------------------------

  /** The keys of the pages, end to end. */
  function KeysHanded(pages: seq<Page>): seq<Bytes> {
    if pages == [] then [] else pages[0].keys + KeysHanded(pages[1..])
  }

  /** Following the cursors of an address's listing from `after` to the end. */
  method FollowTransfers(db: Db, a: Address, after: Option<Bytes>, limit: nat)
    returns (items: seq<StoredTransfer>, ghost pages: seq<Page>)
    requires limit > 0 && (after.Some? ==> a <= after.value)
    ensures Listing(AddrKeys(db.inner), a, limit, Behind(db.inner), after, pages)
    ensures ReadBack(items, KeysHanded(pages), Behind(db.inner))
    decreases |Beyond(Forward, AddrKeys(db.inner), a, a, after)|
  {
    hide AddrKeys, Behind, FreshHits, Walked, Beyond;
    ghost var keys, behind := AddrKeys(db.inner), Behind(db.inner);
    var rows, next;
    ghost var kept;
    rows, next, kept := db.IterTransfersByAddr(a, after, limit);
    assert IsPage(Forward, Walked(Forward, keys, a, a, after), FreshHits(Walked(Forward, keys, a, a, after), behind),
        limit, Page(kept, next))
      && ReadBack(rows, kept, behind) by { Unfolded(db.inner); }
    WalkedIsBeyond(Forward, keys, a, a, after);
    if next.None? {
      items, pages := rows, [Page(kept, next)];
      assert pages[1..] == [] && kept + [] == kept;
    } else {
      CursorShrinks(keys, a, after, limit, behind, Page(kept, next));
      ghost var rest;
      var more;
      more, rest := FollowTransfers(db, a, next, limit);
      items, pages := rows + more, [Page(kept, next)] + rest;
      assert pages[1..] == rest;
      JoinedRows(rows, kept, more, KeysHanded(rest), behind);
    }
  }

  lemma Unfolded(t: Tables)
    ensures AddrKeys(t) == KeysOf(t.transfers.idx, TransferByAddr)
    ensures Behind(t) == Dereference(t.transfers, TransferT, TransferByAddr)
  {}

  lemma CursorShrinks(keys: set<Bytes>, a: Address, after: Option<Bytes>, limit: nat,
                      behind: Bytes -> Option<StoredTransfer>, page: Page)
    requires after.Some? ==> a <= after.value
    requires var w := Beyond(Forward, keys, a, a, after); IsPage(Forward, w, FreshHits(w, behind), limit, page)
    requires page.next.Some?
    ensures a <= page.next.value
    ensures |Beyond(Forward, keys, a, a, page.next)| < |Beyond(Forward, keys, a, a, after)|
  {
    var c := page.next.value;
    assert c in page.keys;
    BeyondShrinks(Forward, keys, a, a, after, c);
  }

  // ---- how often a transfer appears ---------------------------------------

  /** How many of the keys lead to `r`. */
  function Times(q: seq<Bytes>, behind: Bytes -> Option<StoredTransfer>, r: StoredTransfer): nat {
    if q == [] then 0 else (if behind(q[0]) == Some(r) then 1 else 0) + Times(q[1..], behind, r)
  }

  lemma {:induction false} TimesIsCount(items: seq<StoredTransfer>, q: seq<Bytes>,
                                        behind: Bytes -> Option<StoredTransfer>, r: StoredTransfer)
    requires ReadBack(items, q, behind)
    ensures multiset(items)[r] == Times(q, behind, r)
    decreases |q|
  {
    if q != [] {
      assert items == [items[0]] + items[1..];
      TimesIsCount(items[1..], q[1..], behind, r);
    }
  }

  lemma {:induction false} TimesIsSize(q: seq<Bytes>, behind: Bytes -> Option<StoredTransfer>, r: StoredTransfer)
    requires Ordered(Forward, q)
    ensures Times(q, behind, r) == |set k | k in q && behind(k) == Some(r)|
    decreases |q|
  {
    hide Ordered;
    if q == [] {
      assert (set k | k in q && behind(k) == Some(r)) == {};
    } else {
      OrderedTail(q);
      TimesIsSize(q[1..], behind, r);
      HitsGrow(q, behind, r);
    }
  }

  lemma OrderedTail(q: seq<Bytes>)
    requires Ordered(Forward, q) && q != []
    ensures q[0] !in q[1..] && Ordered(Forward, q[1..])
  {
    BeforeIrreflexive(Forward, q[0]);
  }

  lemma HitsGrow(q: seq<Bytes>, behind: Bytes -> Option<StoredTransfer>, r: StoredTransfer)
    requires q != [] && q[0] !in q[1..]
    ensures |set k | k in q && behind(k) == Some(r)|
         == |set k | k in q[1..] && behind(k) == Some(r)| + (if behind(q[0]) == Some(r) then 1 else 0)
  {
    var rest := set k | k in q[1..] && behind(k) == Some(r);
    assert forall k :: k in q <==> k == q[0] || k in q[1..];
    assert (set k | k in q && behind(k) == Some(r)) == if behind(q[0]) == Some(r) then rest + {q[0]} else rest;
  }

  lemma {:induction false} KeysHandedAre(keys: set<Bytes>, a: Address, behind: Bytes -> Option<StoredTransfer>,
                                         after: Option<Bytes>, pages: seq<Page>)
    ensures KeysHanded(pages) == Handed(Visits(keys, a, behind, after, pages))
    ensures forall k :: k in KeysHanded(pages) <==> Returned(pages, k)
    decreases |pages|
  {
    hide Beyond, FreshHits;
    if pages != [] {
      KeysHandedAre(keys, a, behind, pages[0].next, pages[1..]);
      var vs := Visits(keys, a, behind, after, pages);
      assert vs[1..] == Visits(keys, a, behind, pages[0].next, pages[1..]);
      forall k ensures k in KeysHanded(pages) <==> Returned(pages, k) { SplitReturned(pages, k); }
    }
  }

  /**
   Read to its end on a sound store, the listing of an address hands out each stored
   transfer of the address at least once and at most twice, twice exactly when it is a
   self-transfer whose sender row ended a page; it hands out no other transfer.
   */
  lemma TransferAppears(t: Tables, a: Address, limit: nat, pages: seq<Page>, pk: Bytes)
    requires Valid(t) && pk in t.transfers.rows
    requires Listing(AddrKeys(t), a, limit, Behind(t), None, pages)
    ensures var r := t.transfers.rows[pk];
      Times(KeysHanded(pages), Behind(t), r) ==
        (if Pays(r, a) || Gets(r, a) then 1 else 0)
        + (if Pays(r, a) && Gets(r, a) && IsCursor(pages, SenderKey(r, a)) then 1 else 0)
  {
    hide Valid, AddrKeys, Behind, Listing, Returned, IsCursor, WellIndexed, KeysHanded, Times, SenderKey, ReceiverKey;
    hide Pays, Gets;
    var r := t.transfers.rows[pk];
    var sent, received := SenderKey(r, a), ReceiverKey(r, a);
    var q := KeysHanded(pages);
    HandedInOrder(t, a, limit, pages);
    TimesIsSize(q, Behind(t), r);
    HitsAre(t, a, limit, pages, pk);
    assert sent in q <==> Pays(r, a);
    assert received in q <==> Gets(r, a) && (Pays(r, a) ==> IsCursor(pages, sent));
    assert sent != received by { BothKeys(r, a); }
    assert (set k | k in q && Behind(t)(k) == Some(r)) == (if sent in q then {sent} else {})
        + (if received in q then {received} else {});
  }

  lemma BothKeys(r: StoredTransfer, a: Address)
    ensures SenderKey(r, a) != ReceiverKey(r, a)
  {
    hide TransferByAddrKey;
    ByAddrInjective(a, r, r, TAG_FROM, TAG_TO);
  }

  lemma HandedInOrder(t: Tables, a: Address, limit: nat, pages: seq<Page>)
    requires Listing(AddrKeys(t), a, limit, Behind(t), None, pages)
    ensures Ordered(Forward, KeysHanded(pages))
    ensures forall k :: k in KeysHanded(pages) <==> Returned(pages, k)
  {
    hide AddrKeys, Behind, Listing, KeysHanded, Returned, Ordered;
    ListingIsChain(AddrKeys(t), a, limit, Behind(t), None, pages);
    KeysHandedAre(AddrKeys(t), a, Behind(t), None, pages);
    HandedOrdered(Forward, a, a, limit, None, Visits(AddrKeys(t), a, Behind(t), None, pages));
  }

  /**
   The keys handed out for a transfer: its sender row, and its receiver row unless only the sender row's page
   held it.
   */
  lemma HitsAre(t: Tables, a: Address, limit: nat, pages: seq<Page>, pk: Bytes)
    requires Valid(t) && pk in t.transfers.rows
    requires Listing(AddrKeys(t), a, limit, Behind(t), None, pages)
    ensures var r, q := t.transfers.rows[pk], KeysHanded(pages);
      && (SenderKey(r, a) in q <==> Pays(r, a))
      && (ReceiverKey(r, a) in q <==> Gets(r, a) && (Pays(r, a) ==> IsCursor(pages, SenderKey(r, a))))
      && forall k :: k in q && Behind(t)(k) == Some(r) <==> k in q && (k == SenderKey(r, a) || k == ReceiverKey(r, a))
  {
    hide Valid, AddrKeys, Behind, Listing, Returned, IsCursor, WellIndexed, KeysHanded, Pays, Gets, TransferByAddrKey;
    var r, q := t.transfers.rows[pk], KeysHanded(pages);
    HandedInOrder(t, a, limit, pages);
    ValidIsWellIndexed(t, a);
    TransferAppearances(AddrKeys(t), a, limit, Behind(t), pages, r.slot, r.index);
    RowsUnderParties(t, a, pk);
    forall k | k in q
      ensures k in AddrKeys(t)
      ensures Behind(t)(k) == Some(r) ==> k == SenderKey(r, a) || k == ReceiverKey(r, a)
    {
      HandedIsKey(t, a, limit, pages, k);
      AddrRow(t, a, k);
    }
  }

  lemma HandedIsKey(t: Tables, a: Address, limit: nat, pages: seq<Page>, k: Bytes)
    requires Listing(AddrKeys(t), a, limit, Behind(t), None, pages) && Returned(pages, k)
    ensures k in AddrKeys(t) && a <= k
  {
    hide AddrKeys, Behind, Beyond, FreshHits;
    ListingIsChain(AddrKeys(t), a, limit, Behind(t), None, pages);
    var i :| 0 <= i < |pages| && k in pages[i].keys;
    var vs := Visits(AddrKeys(t), a, Behind(t), None, pages);
    PagesMoveOn(Forward, a, a, limit, None, vs, i, k);
    VisitsKeys(AddrKeys(t), a, Behind(t), None, pages, i);
  }

  lemma {:induction false} VisitsKeys(keys: set<Bytes>, a: Address, behind: Bytes -> Option<StoredTransfer>,
                                      after: Option<Bytes>, pages: seq<Page>, i: nat)
    requires i < |pages| && |Visits(keys, a, behind, after, pages)| == |pages|
    ensures Visits(keys, a, behind, after, pages)[i].keys == keys
    decreases |pages|
  {
    hide Beyond, FreshHits;
    if i > 0 {
      var vs := Visits(keys, a, behind, after, pages);
      assert vs[1..] == Visits(keys, a, behind, pages[0].next, pages[1..]);
      VisitsKeys(keys, a, behind, pages[0].next, pages[1..], i - 1);
    }
  }

  /** What a client collects that follows the cursors of an address on a sound store. */
  method AllTransfersOf(db: Db, a: Address, limit: nat) returns (items: seq<StoredTransfer>, ghost pages: seq<Page>)
    requires Valid(db.inner) && limit > 0
    ensures Listing(AddrKeys(db.inner), a, limit, Behind(db.inner), None, pages)
    ensures forall pk :: pk in db.inner.transfers.rows ==>
      var r := db.inner.transfers.rows[pk];
      multiset(items)[r] ==
        (if Pays(r, a) || Gets(r, a) then 1 else 0)
        + (if Pays(r, a) && Gets(r, a) && IsCursor(pages, SenderKey(r, a)) then 1 else 0)
  {
    hide Valid, AddrKeys, Behind, Listing, IsCursor, KeysHanded, Times, ReadBack;
    items, pages := FollowTransfers(db, a, None, limit);
    forall pk | pk in db.inner.transfers.rows
      ensures var r := db.inner.transfers.rows[pk];
        multiset(items)[r] ==
          (if Pays(r, a) || Gets(r, a) then 1 else 0)
          + (if Pays(r, a) && Gets(r, a) && IsCursor(pages, SenderKey(r, a)) then 1 else 0)
    {
      TimesIsCount(items, KeysHanded(pages), Behind(db.inner), db.inner.transfers.rows[pk]);
      TransferAppears(db.inner, a, limit, pages, pk);
    }
  }
}
