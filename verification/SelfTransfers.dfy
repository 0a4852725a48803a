/**
 Transfers of one address: a self-transfer has two index rows, and the listing
 drops the second one within a page.
 */
module SelfTransfers {
  import opened ByteStrings
  import opened Ids
  import opened Keys
  import opened Scan
  import opened Paging

  type Primary = (Slot, U32)

  /** The transfer an index key stands for. */
  function PrimaryOf(k: Bytes): Option<Primary> {
    var p := ParseTransferByAddr(k);
    if p.Some? then Some((p.value.0, p.value.1)) else None
  }

  /** `k` is the first of the walked keys `w` that stands for its transfer. */
  predicate Fresh(w: set<Bytes>, k: Bytes) {
    PrimaryOf(k).Some? && forall k' :: k' in w && Less(k', k) ==> PrimaryOf(k') != PrimaryOf(k)
  }

  /** What a page over `w` keeps: readable rows whose transfer was not met before. */
  function FreshHits<T>(w: set<Bytes>, deref: Bytes -> Option<T>): Bytes -> bool {
    k => deref(k).Some? && Fresh(w, k)
  }

  // ---- the page loop ------------------------------------------------------

  /** The transfers met before iterator position `n`. */
  function Met(iter: seq<Bytes>, after: Option<Bytes>, n: nat): (r: set<Primary>)
    requires n <= |iter|
  {
    set i | 0 <= i < n && after != Some(iter[i]) && PrimaryOf(iter[i]).Some? :: PrimaryOf(iter[i]).value
  }

  /** Freshness as the loop sees it: nothing before position `i` stands for the same transfer. */
  predicate FreshAt(iter: seq<Bytes>, after: Option<Bytes>, i: nat)
    requires i < |iter|
  {
    PrimaryOf(iter[i]).Some? && PrimaryOf(iter[i]).value !in Met(iter, after, i)
  }

  /** The iterator's keys but for the cursor itself. */
  function Passed(iter: seq<Bytes>, after: Option<Bytes>): set<Bytes> {
    set k | k in iter && after != Some(k)
  }

  lemma FreshAtIsFresh(iter: seq<Bytes>, after: Option<Bytes>, i: nat)
    requires Ordered(Forward, iter) && i < |iter|
    ensures FreshAt(iter, after, i) <==> Fresh(Passed(iter, after), iter[i])
  {
    hide PrimaryOf;
    var w := Passed(iter, after);
    forall k | k in w && Less(k, iter[i]) ensures exists j :: 0 <= j < i && iter[j] == k {
      var j :| 0 <= j < |iter| && iter[j] == k;
      if j >= i {
        BeforeIrreflexive(Forward, k);
        if j > i { BeforeTransitive(Forward, k, iter[i], k); }
      }
    }
    forall j | 0 <= j < i && after != Some(iter[j]) ensures iter[j] in w && Less(iter[j], iter[i]) {
      assert Before(Forward, iter[j], iter[i]);
    }
  }

  /** The listing loop: as every page loop, with a set of transfers met on this page. */
  method ListingLoop<T>(iter: seq<Bytes>, prefix: Bytes, after: Option<Bytes>, limit: nat, deref: Bytes -> Option<T>)
    returns (items: seq<T>, next: Option<Bytes>, ghost kept: seq<Bytes>, ghost stop: nat)
    requires limit > 0 && Ordered(Forward, iter)
    requires forall i :: 0 < i < |iter| ==> after != Some(iter[i])
    ensures stop <= |iter| && Under(iter[..stop], prefix)
    ensures ReadBack(items, kept, deref)
    ensures Stopped(iter, prefix, after, FreshHits(Passed(iter, after), deref), limit, stop, Page(kept, next))
  {
    hide Kept, ReadBack, Under, PrimaryOf, Fresh, Ordered, Less;
    ghost var hit := FreshHits(Passed(iter, after), deref);
    items, next, kept := [], None, [];
    EmptyReadBack(deref);
    UnderNothing(prefix);
    var lastKey: Option<Bytes> := None;
    var seen: set<Primary> := {};
    var i := 0;
    while i < |iter|
      invariant 0 <= i <= |iter| && Under(iter[..i], prefix)
      invariant |kept| == |items| <= limit && ReadBack(items, kept, deref)
      invariant kept == Kept(iter[..i], after, hit)
      invariant seen == Met(iter, after, i)
      invariant next == None
      invariant |kept| < limit || lastKey == Some(kept[limit - 1])
      invariant |kept| == limit ==> i > 0 && iter[i - 1] == kept[limit - 1]
    {
      var k := iter[i];
      if !(prefix <= k) {
        break;
      }
      if after != Some(k) && |items| >= limit {
        next := lastKey;
        break;
      }
      UnderNext(iter, i, prefix);
      KeptNext(iter, i, after, hit);
      FreshAtIsFresh(iter, after, i);
      MetNext(iter, after, i);
      if after != Some(k) && PrimaryOf(k).Some? {
        if PrimaryOf(k).value in seen {
          lastKey := Some(k);
        } else {
          seen := seen + {PrimaryOf(k).value};
          var row := deref(k);
          if row.Some? {
            ReadBackNext(items, kept, deref, k);
            items := items + [row.value];
            kept := kept + [k];
            lastKey := Some(k);
          }
        }
      }
      i := i + 1;
    }
    stop := i;
  }

  lemma MetNext(iter: seq<Bytes>, after: Option<Bytes>, i: nat)
    requires i < |iter|
    ensures Met(iter, after, i + 1)
         == Met(iter, after, i)
            + (if after != Some(iter[i]) && PrimaryOf(iter[i]).Some? then {PrimaryOf(iter[i]).value} else {})
  {
    hide PrimaryOf;
  }

  /** One page of the transfers of an address. */
  method ScanTransfersByAddr<T>(keys: set<Bytes>, addr: Address, after: Option<Bytes>, limit: nat,
                                deref: Bytes -> Option<T>)
    returns (items: seq<T>, next: Option<Bytes>, ghost kept: seq<Bytes>)
    ensures limit == 0 ==> items == [] && next == None
    ensures limit > 0 ==>
      var w := Walked(Forward, keys, addr, addr, after);
      IsPage(Forward, w, FreshHits(w, deref), limit, Page(kept, next))
    ensures ReadBack(items, kept, deref)
  {
    items, next, kept := [], None, [];
    if limit == 0 {
      return;
    }
    var start := if after.Some? then after.value else addr;
    var iter := SeekFrom(Forward, keys, start);
    forall i | 0 < i < |iter| ensures after != Some(iter[i]) { CursorComesFirst(Forward, keys, start, iter, i); }
    ghost var stop;
    items, next, kept, stop := ListingLoop(iter, addr, after, limit, deref);
    ghost var u := Passed(iter, after);
    PageFromScan(Forward, keys, addr, addr, after, FreshHits(u, deref), limit, iter, stop, Page(kept, next));
    ghost var w := Walked(Forward, keys, addr, addr, after);
    forall k | k in w ensures FreshHits(u, deref)(k) == FreshHits(w, deref)(k) { SameFresh(keys, addr, after, k); }
    HitsMatter(Forward, w, FreshHits(u, deref), FreshHits(w, deref), limit, Page(kept, next));
  }

  lemma HitsMatter(d: Direction, w: set<Bytes>, hit: Bytes -> bool, hit': Bytes -> bool, limit: nat, page: Page)
    requires IsPage(d, w, hit, limit, page) && forall k :: k in w ==> hit(k) == hit'(k)
    ensures IsPage(d, w, hit', limit, page)
  {}

  /** Below a walked key the iterator and the walk have the same keys. */
  lemma SameFresh(keys: set<Bytes>, addr: Address, after: Option<Bytes>, k: Bytes)
    requires k in Walked(Forward, keys, addr, addr, after)
    ensures Fresh(Passed(SeekFrom(Forward, keys, if after.Some? then after.value else addr), after), k)
       <==> Fresh(Walked(Forward, keys, addr, addr, after), k)
  {
    hide PrimaryOf;
    var start := if after.Some? then after.value else addr;
    var u := Passed(SeekFrom(Forward, keys, start), after);
    var w := Walked(Forward, keys, addr, addr, after);
    forall k' | Less(k', k) ensures k' in u <==> k' in w {
      if k' in u {
        forall x | x in keys && !Less(x, start) && !Less(k', x) ensures addr <= x {
          if Less(k, x) { LessTransitive(k', k, x); }
        }
      }
    }
  }

  // ---- chains of pages ----------------------------------------------------

  /** Pages of an unchanged listing, each with its own set of transfers met. */
  ghost predicate Listing<T>(keys: set<Bytes>, addr: Address, limit: nat, deref: Bytes -> Option<T>,
                             after: Option<Bytes>, pages: seq<Page>)
    decreases |pages|
  {
    && pages != []
    && var w := Beyond(Forward, keys, addr, addr, after);
    && IsPage(Forward, w, FreshHits(w, deref), limit, pages[0])
    && if |pages| == 1 then pages[0].next == None
       else pages[0].next.Some? && Listing(keys, addr, limit, deref, pages[0].next, pages[1..])
  }

  /** Within a page no transfer appears twice. */
  lemma PageHasNoDuplicates<T>(w: set<Bytes>, deref: Bytes -> Option<T>, limit: nat, page: Page, i: nat, j: nat)
    requires IsPage(Forward, w, FreshHits(w, deref), limit, page)
    requires i < j < |page.keys|
    ensures PrimaryOf(page.keys[i]) != PrimaryOf(page.keys[j])
  {
    hide PrimaryOf;
    assert page.keys[i] in page.keys && page.keys[j] in page.keys;
    assert Before(Forward, page.keys[i], page.keys[j]);
  }

  /** A listing seen as a chain of cursor pages. */
  ghost function Visits<T>(keys: set<Bytes>, addr: Address, deref: Bytes -> Option<T>, after: Option<Bytes>,
                           pages: seq<Page>): seq<Visit>
    decreases |pages|
  {
    if pages == [] then []
    else
      [Visit(keys, FreshHits(Beyond(Forward, keys, addr, addr, after), deref), pages[0])]
      + Visits(keys, addr, deref, pages[0].next, pages[1..])
  }

  lemma {:induction false} ListingIsChain<T>(keys: set<Bytes>, addr: Address, limit: nat, deref: Bytes -> Option<T>,
                                             after: Option<Bytes>, pages: seq<Page>)
    requires Listing(keys, addr, limit, deref, after, pages)
    ensures var vs := Visits(keys, addr, deref, after, pages);
      && Chain(Forward, addr, addr, limit, after, vs)
      && |vs| == |pages| && forall i :: 0 <= i < |pages| ==> vs[i].page == pages[i]
    decreases |pages|
  {
    hide Beyond, IsPage, FreshHits;
    if |pages| > 1 { ListingIsChain(keys, addr, limit, deref, pages[0].next, pages[1..]); }
    var vs := Visits(keys, addr, deref, after, pages);
    assert vs[1..] == Visits(keys, addr, deref, pages[0].next, pages[1..]);
  }

  predicate Returned(pages: seq<Page>, k: Bytes) {
    exists i :: 0 <= i < |pages| && k in pages[i].keys
  }

  predicate IsCursor(pages: seq<Page>, k: Bytes) {
    exists i :: 0 <= i < |pages| && pages[i].next == Some(k)
  }

  const KEY_LEN := ADDR_KEY_LEN + SLOT_KEY_LEN + INDEX_LEN + 1

  /** The key has the shape of an index row, with one of the two role tags. */
  predicate Tagged(k: Bytes) {
    |k| == KEY_LEN && (k[KEY_LEN - 1] == TAG_FROM || k[KEY_LEN - 1] == TAG_TO)
  }

  /** Under the address every row is tagged and readable: the index is exact. */
  predicate WellIndexed<T>(keys: set<Bytes>, addr: Address, deref: Bytes -> Option<T>) {
    forall k :: k in keys && addr <= k ==> Tagged(k) && deref(k).Some?
  }

  /** The sender row of the same transfer. */
  function SenderRow(k: Bytes): Bytes
    requires |k| == KEY_LEN
  {
    k[..KEY_LEN - 1] + [TAG_FROM]
  }

  lemma KeyParts(k: Bytes)
    requires |k| == KEY_LEN
    ensures PrimaryOf(k).Some?
    ensures k == k[..ADDR_KEY_LEN] + RSlotKey(PrimaryOf(k).value.0) + IndexBytes(PrimaryOf(k).value.1)
        + [k[KEY_LEN - 1]]
  {
    SlotKeyParseBuild(k[ADDR_KEY_LEN..ADDR_KEY_LEN + SLOT_KEY_LEN]);
    var tail := k[ADDR_KEY_LEN + SLOT_KEY_LEN..];
    EncodeDecode(tail[..INDEX_LEN]);
    assert k == k[..ADDR_KEY_LEN] + k[ADDR_KEY_LEN..ADDR_KEY_LEN + SLOT_KEY_LEN] + tail[..INDEX_LEN]
        + [tail[INDEX_LEN]];
  }

  /** Two index rows of one transfer under one address differ in the tag alone. */
  lemma SamePrimary(addr: Address, k: Bytes, k': Bytes)
    requires |k| == |k'| == KEY_LEN && addr <= k && addr <= k'
    ensures PrimaryOf(k) == PrimaryOf(k') <==> k[..KEY_LEN - 1] == k'[..KEY_LEN - 1]
  {
    KeyParts(k);
    KeyParts(k');
    assert k[..ADDR_KEY_LEN] == addr && k'[..ADDR_KEY_LEN] == addr;
    if k[..KEY_LEN - 1] == k'[..KEY_LEN - 1] {
      assert k[..KEY_LEN - 1][ADDR_KEY_LEN..ADDR_KEY_LEN + SLOT_KEY_LEN]
          == k[ADDR_KEY_LEN..ADDR_KEY_LEN + SLOT_KEY_LEN];
      assert k'[..KEY_LEN - 1][ADDR_KEY_LEN..ADDR_KEY_LEN + SLOT_KEY_LEN]
          == k'[ADDR_KEY_LEN..ADDR_KEY_LEN + SLOT_KEY_LEN];
      assert k[..KEY_LEN - 1][ADDR_KEY_LEN + SLOT_KEY_LEN..] == k[ADDR_KEY_LEN + SLOT_KEY_LEN..][..INDEX_LEN];
      assert k'[..KEY_LEN - 1][ADDR_KEY_LEN + SLOT_KEY_LEN..] == k'[ADDR_KEY_LEN + SLOT_KEY_LEN..][..INDEX_LEN];
    }
  }

  lemma TagOrder(k: Bytes, k': Bytes)
    requires |k| == |k'| == KEY_LEN && k[..KEY_LEN - 1] == k'[..KEY_LEN - 1]
    ensures Less(k, k') <==> k[KEY_LEN - 1] < k'[KEY_LEN - 1]
  {
    var h := k[..KEY_LEN - 1];
    assert k == h + [k[KEY_LEN - 1]] && k' == h + [k'[KEY_LEN - 1]];
    LessConcat(h, h, [k[KEY_LEN - 1]], [k'[KEY_LEN - 1]]);
    LessIrreflexive(h);
  }

  /** A tagged row is not the first of its transfer exactly when it is the receiver row and the sender row is walked. */
  lemma FreshIff(keys: set<Bytes>, addr: Address, after: Option<Bytes>, k: Bytes)
    requires forall x :: x in keys && addr <= x ==> Tagged(x)
    requires k in Beyond(Forward, keys, addr, addr, after)
    ensures |k| == KEY_LEN
    ensures Fresh(Beyond(Forward, keys, addr, addr, after), k)
       <==> k[KEY_LEN - 1] == TAG_FROM || SenderRow(k) !in Beyond(Forward, keys, addr, addr, after)
  {
    hide PrimaryOf, Less;
    var w := Beyond(Forward, keys, addr, addr, after);
    KeyParts(k);
    forall k' | k' in w ensures Less(k', k) && PrimaryOf(k') == PrimaryOf(k) <==>
        k[KEY_LEN - 1] == TAG_TO && k' == SenderRow(k)
    {
      SamePrimary(addr, k, k');
      if k[..KEY_LEN - 1] == k'[..KEY_LEN - 1] { TagOrder(k', k); }
      assert k' == k'[..KEY_LEN - 1] + [k'[KEY_LEN - 1]];
    }
  }

  /** No index row lies strictly between the two rows of a self-transfer. */
  lemma NothingBetween(k: Bytes, c: Bytes)
    requires Tagged(k) && Tagged(c) && k[KEY_LEN - 1] == TAG_TO && Less(SenderRow(k), c)
    ensures c == k || Less(k, c)
  {
    var h, h' := k[..KEY_LEN - 1], c[..KEY_LEN - 1];
    assert k == h + [TAG_TO] && c == h' + [c[KEY_LEN - 1]];
    LessConcat(h, h', [TAG_FROM], [c[KEY_LEN - 1]]);
    LessConcat(h, h', [TAG_TO], [c[KEY_LEN - 1]]);
  }

  lemma {:induction false} ReturnedIff<T>(keys: set<Bytes>, addr: Address, limit: nat, deref: Bytes -> Option<T>,
                                          after: Option<Bytes>, pages: seq<Page>, k: Bytes)
    requires Listing(keys, addr, limit, deref, after, pages) && WellIndexed(keys, addr, deref)
    requires k in Beyond(Forward, keys, addr, addr, after)
    ensures Returned(pages, k) <==> Fresh(Beyond(Forward, keys, addr, addr, after), k) || IsCursor(pages, SenderRow(k))
    decreases |pages|
  {
    hide PrimaryOf, Less, Fresh;
    var w := Beyond(Forward, keys, addr, addr, after);
    var page := pages[0];
    FreshIff(keys, addr, after, k);
    if page.next.None? {
      assert pages == [page];
    } else {
      var c := page.next.value;
      var rest := pages[1..];
      assert c in page.keys && c in w;
      SplitReturned(pages, k);
      SplitCursor(pages, SenderRow(k));
      LessTotal(c, k);
      if Less(c, k) {
        FreshIff(keys, addr, Some(c), k);
        ReturnedIff(keys, addr, limit, deref, Some(c), rest, k);
        BeyondNarrows(keys, addr, after, c);
        if k in page.keys { LastIsLast(Forward, page.keys, k); }
        LessTotal(c, SenderRow(k));
        if SenderRow(k) in w && Less(SenderRow(k), c) && k[KEY_LEN - 1] == TAG_TO {
          NothingBetween(k, c);
          LessIrreflexive(c);
          if Less(k, c) { LessTransitive(c, k, c); }
        }
      } else {
        NotReturnedLater(keys, addr, limit, deref, c, rest, k);
        if k[KEY_LEN - 1] == TAG_TO {
          TagOrder(SenderRow(k), k);
          LessTotal(c, SenderRow(k));
          if Less(c, SenderRow(k)) { LessTransitive(c, SenderRow(k), k); }
          NotReturnedLater(keys, addr, limit, deref, c, rest, SenderRow(k));
        }
      }
    }
  }

  /** Keys at or before the cursor are neither handed out again nor a later cursor. */
  lemma NotReturnedLater<T>(keys: set<Bytes>, addr: Address, limit: nat, deref: Bytes -> Option<T>, c: Bytes,
                            rest: seq<Page>, k: Bytes)
    requires Listing(keys, addr, limit, deref, Some(c), rest)
    requires !Less(c, k)
    ensures !Returned(rest, k) && !IsCursor(rest, k)
  {
    ListingIsChain(keys, addr, limit, deref, Some(c), rest);
    var vs := Visits(keys, addr, deref, Some(c), rest);
    forall i | 0 <= i < |rest| ensures k !in rest[i].keys {
      if k in rest[i].keys { PagesMoveOn(Forward, addr, addr, limit, Some(c), vs, i, k); }
    }
    forall i | 0 <= i < |rest| ensures rest[i].next != Some(k) {
      ListingPage(keys, addr, limit, deref, Some(c), rest, i);
    }
  }

  /** A page's cursor is among its keys. */
  lemma {:induction false} ListingPage<T>(keys: set<Bytes>, addr: Address, limit: nat, deref: Bytes -> Option<T>,
                                          after: Option<Bytes>, pages: seq<Page>, i: nat)
    requires Listing(keys, addr, limit, deref, after, pages) && i < |pages|
    ensures pages[i].next.Some? ==> pages[i].next.value in pages[i].keys
    decreases |pages|
  {
    if i > 0 { ListingPage(keys, addr, limit, deref, pages[0].next, pages[1..], i - 1); }
  }

  lemma SplitReturned(pages: seq<Page>, k: Bytes)
    requires pages != []
    ensures Returned(pages, k) <==> k in pages[0].keys || Returned(pages[1..], k)
  {
    if Returned(pages, k) {
      var i :| 0 <= i < |pages| && k in pages[i].keys;
      if i > 0 { assert pages[1..][i - 1] == pages[i]; }
    }
    if Returned(pages[1..], k) {
      var i :| 0 <= i < |pages[1..]| && k in pages[1..][i].keys;
      assert pages[i + 1] == pages[1..][i];
    }
  }

  lemma SplitCursor(pages: seq<Page>, k: Bytes)
    requires pages != []
    ensures IsCursor(pages, k) <==> pages[0].next == Some(k) || IsCursor(pages[1..], k)
  {
    if IsCursor(pages, k) {
      var i :| 0 <= i < |pages| && pages[i].next == Some(k);
      if i > 0 { assert pages[1..][i - 1] == pages[i]; }
    }
    if IsCursor(pages[1..], k) {
      var i :| 0 <= i < |pages[1..]| && pages[1..][i].next == Some(k);
      assert pages[i + 1] == pages[1..][i];
    }
  }

  lemma BeyondNarrows(keys: set<Bytes>, addr: Address, after: Option<Bytes>, c: Bytes)
    requires c in Beyond(Forward, keys, addr, addr, after)
    ensures Beyond(Forward, keys, addr, addr, Some(c)) <= Beyond(Forward, keys, addr, addr, after)
  {
    forall k | k in Beyond(Forward, keys, addr, addr, Some(c)) ensures k in Beyond(Forward, keys, addr, addr, after) {
      if after.Some? { LessTransitive(after.value, c, k); } else { PrefixFirst(addr, k); }
    }
  }

  /**
   Over all pages of an unchanged listing: a sender row, or a receiver row without
   a sender twin, is handed out; the receiver row of a self-transfer is handed out
   as well exactly when its sender row became the cursor of a page.
   */
  lemma ReceiverRowRepeatedIff<T>(keys: set<Bytes>, addr: Address, limit: nat, deref: Bytes -> Option<T>,
                                  pages: seq<Page>, k: Bytes)
    requires Listing(keys, addr, limit, deref, None, pages) && WellIndexed(keys, addr, deref)
    requires k in keys && addr <= k
    ensures Returned(pages, k) <==>
      k[KEY_LEN - 1] == TAG_FROM || SenderRow(k) !in keys || IsCursor(pages, SenderRow(k))
  {
    hide Fresh, Listing, Returned, IsCursor;
    PrefixFirst(addr, k);
    FreshIff(keys, addr, None, k);
    ReturnedIff(keys, addr, limit, deref, None, pages, k);
    assert addr <= SenderRow(k) by { assert SenderRow(k)[..ADDR_KEY_LEN] == k[..ADDR_KEY_LEN]; }
    PrefixFirst(addr, SenderRow(k));
  }

  /** Every indexed transfer appears at least once and at most twice; twice iff its sender row is a cursor. */
  lemma TransferAppearances<T>(keys: set<Bytes>, addr: Address, limit: nat, deref: Bytes -> Option<T>, pages: seq<Page>,
                               s: Slot, i: U32)
    requires Listing(keys, addr, limit, deref, None, pages) && WellIndexed(keys, addr, deref)
    ensures var sent, received := TransferByAddrKey(addr, s, i, TAG_FROM), TransferByAddrKey(addr, s, i, TAG_TO);
      && (sent in keys ==> Returned(pages, sent))
      && (received in keys && sent !in keys ==> Returned(pages, received))
      && (received in keys && sent in keys ==> (Returned(pages, received) <==> IsCursor(pages, sent)))
      && (forall k, m, n :: 0 <= m < |pages| && 0 <= n < |pages| && k in pages[m].keys && k in pages[n].keys ==> m == n)
  {
    hide Listing, WellIndexed, IsCursor, PrimaryOf, RSlotKey, IndexBytes;
    var sent, received := TransferByAddrKey(addr, s, i, TAG_FROM), TransferByAddrKey(addr, s, i, TAG_TO);
    assert SenderRow(received) == sent;
    if sent in keys { ReceiverRowRepeatedIff(keys, addr, limit, deref, pages, sent); }
    if received in keys { ReceiverRowRepeatedIff(keys, addr, limit, deref, pages, received); }
    ListingIsChain(keys, addr, limit, deref, None, pages);
    forall k, m, n | 0 <= m < |pages| && 0 <= n < |pages| && k in pages[m].keys && k in pages[n].keys ensures m == n {
      NeverRepeated(Forward, addr, addr, limit, None, Visits(keys, addr, deref, None, pages), m, n, k);
    }
  }
}
