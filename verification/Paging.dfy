/**
 Following `next_cursor` from page to page, over a store that may change between
 the pages.
 */
module Paging {
  import opened ByteStrings
  import opened Ids
  import opened Keys
  import opened Scan

  /** The store as one page request finds it, and the page it answers. */
  datatype Visit = Visit(keys: set<Bytes>, hit: Bytes -> bool, page: Page)

  /** Each visit resumes at the cursor of the one before; the last one has no cursor. */
  ghost predicate Chain(d: Direction, prefix: Bytes, from: Bytes, limit: nat, after: Option<Bytes>, visits: seq<Visit>)
    decreases |visits|
  {
    && visits != []
    && IsPage(d, Beyond(d, visits[0].keys, prefix, from, after), visits[0].hit, limit, visits[0].page)
    && if |visits| == 1 then visits[0].page.next == None
       else visits[0].page.next.Some? && Chain(d, prefix, from, limit, visits[0].page.next, visits[1..])
  }

  predicate InRange(d: Direction, prefix: Bytes, from: Bytes, after: Option<Bytes>, k: Bytes) {
    prefix <= k && if after.Some? then Before(d, after.value, k) else !Before(d, k, from)
  }

  /** Pages only move forward. */
  lemma {:induction false} PagesMoveOn(d: Direction, prefix: Bytes, from: Bytes, limit: nat, after: Option<Bytes>,
                                       visits: seq<Visit>, i: nat, k: Bytes)
    requires Chain(d, prefix, from, limit, after, visits)
    requires i < |visits| && k in visits[i].page.keys
    ensures InRange(d, prefix, from, after, k) && k in visits[i].keys && visits[i].hit(k)
    decreases |visits|
  {
    if i > 0 {
      var c := visits[0].page.next.value;
      PagesMoveOn(d, prefix, from, limit, Some(c), visits[1..], i - 1, k);
      CursorInRange(d, prefix, from, limit, after, visits[0]);
      if after.Some? { BeforeTransitive(d, after.value, c, k); }
      else if Before(d, k, from) { BeforeTransitive(d, c, k, from); }
    }
  }

  lemma CursorInRange(d: Direction, prefix: Bytes, from: Bytes, limit: nat, after: Option<Bytes>, v: Visit)
    requires IsPage(d, Beyond(d, v.keys, prefix, from, after), v.hit, limit, v.page) && v.page.next.Some?
    ensures InRange(d, prefix, from, after, v.page.next.value)
  {
    assert v.page.next.value in v.page.keys;
  }

  /** No key is handed out twice, whatever happens to the store between pages. */
  lemma {:induction false} NeverRepeated(d: Direction, prefix: Bytes, from: Bytes, limit: nat, after: Option<Bytes>,
                                         visits: seq<Visit>, i: nat, j: nat, k: Bytes)
    requires Chain(d, prefix, from, limit, after, visits)
    requires i < |visits| && j < |visits| && k in visits[i].page.keys && k in visits[j].page.keys
    ensures i == j
    decreases |visits|
  {
    if i > 0 && j > 0 {
      NeverRepeated(d, prefix, from, limit, visits[0].page.next, visits[1..], i - 1, j - 1, k);
    } else if i != j {
      var later := if i > 0 then i else j;
      PagesMoveOn(d, prefix, from, limit, visits[0].page.next, visits[1..], later - 1, k);
      LastIsLast(d, visits[0].page.keys, k);
    }
  }

  /**
   A row that is there, and readable, at every visit is returned exactly once,
   even if other rows come and go between the pages.
   */
  lemma {:induction false} ReturnedOnce(d: Direction, prefix: Bytes, from: Bytes, limit: nat, after: Option<Bytes>,
                                        visits: seq<Visit>, k: Bytes)
    requires Chain(d, prefix, from, limit, after, visits)
    requires InRange(d, prefix, from, after, k)
    requires forall v :: v in visits ==> k in v.keys && v.hit(k)
    ensures exists i :: 0 <= i < |visits| && k in visits[i].page.keys
                        && forall j :: 0 <= j < |visits| && k in visits[j].page.keys ==> j == i
    decreases |visits|
  {
    var i := SomePageReturns(d, prefix, from, limit, after, visits, k);
    forall j | 0 <= j < |visits| && k in visits[j].page.keys ensures j == i {
      NeverRepeated(d, prefix, from, limit, after, visits, i, j, k);
    }
  }

  lemma {:induction false} SomePageReturns(d: Direction, prefix: Bytes, from: Bytes, limit: nat, after: Option<Bytes>,
                                           visits: seq<Visit>, k: Bytes) returns (i: nat)
    requires Chain(d, prefix, from, limit, after, visits)
    requires InRange(d, prefix, from, after, k)
    requires forall v :: v in visits ==> k in v.keys && v.hit(k)
    ensures i < |visits| && k in visits[i].page.keys
    decreases |visits|
  {
    assert visits[0] in visits;
    assert k in Beyond(d, visits[0].keys, prefix, from, after);
    if k in visits[0].page.keys {
      i := 0;
    } else {
      i := SomePageReturns(d, prefix, from, limit, visits[0].page.next, visits[1..], k);
      i := i + 1;
    }
  }

  // ---- an unchanged store -------------------------------------------------

  function Handed(visits: seq<Visit>): seq<Bytes> {
    if visits == [] then [] else visits[0].page.keys + Handed(visits[1..])
  }

  lemma {:induction false} HandedFrom(visits: seq<Visit>, k: Bytes)
    ensures k in Handed(visits) <==> exists i :: 0 <= i < |visits| && k in visits[i].page.keys
    decreases |visits|
  {
    if visits != [] {
      HandedFrom(visits[1..], k);
      if k in Handed(visits[1..]) {
        var i :| 0 <= i < |visits[1..]| && k in visits[1..][i].page.keys;
        assert visits[1..][i] == visits[i + 1];
      }
      if i :| 0 < i < |visits| && k in visits[i].page.keys {
        assert visits[1..][i - 1] == visits[i];
      }
    }
  }

  lemma {:induction false} HandedOrdered(d: Direction, prefix: Bytes, from: Bytes, limit: nat, after: Option<Bytes>,
                                         visits: seq<Visit>)
    requires Chain(d, prefix, from, limit, after, visits)
    ensures Ordered(d, Handed(visits))
    decreases |visits|
  {
    var p := visits[0].page;
    if |visits| == 1 {
      assert Handed(visits[1..]) == [];
    } else {
      var rest := Handed(visits[1..]);
      HandedOrdered(d, prefix, from, limit, p.next, visits[1..]);
      forall i, j | 0 <= i < |p.keys| && 0 <= j < |rest| ensures Before(d, p.keys[i], rest[j]) {
        assert rest[j] in rest;
        HandedFrom(visits[1..], rest[j]);
        var m :| 0 <= m < |visits[1..]| && rest[j] in visits[1..][m].page.keys;
        PagesMoveOn(d, prefix, from, limit, p.next, visits[1..], m, rest[j]);
        if i < limit - 1 { BeforeTransitive(d, p.keys[i], p.next.value, rest[j]); }
      }
    }
  }

  /**
   On an unchanged store the pages, put end to end, are the whole prefix scan: in
   order, nothing missing, nothing twice.
   */
  lemma PagesAreTheScan(d: Direction, keys: set<Bytes>, hit: Bytes -> bool, prefix: Bytes, from: Bytes, limit: nat,
                        after: Option<Bytes>, visits: seq<Visit>)
    requires Chain(d, prefix, from, limit, after, visits)
    requires forall v :: v in visits ==> v.keys == keys && v.hit == hit
    ensures Handed(visits) == InOrder(d, set k | k in keys && InRange(d, prefix, from, after, k) && hit(k))
  {
    HandedOrdered(d, prefix, from, limit, after, visits);
    forall k ensures k in Handed(visits) <==> k in keys && InRange(d, prefix, from, after, k) && hit(k) {
      HandedFrom(visits, k);
      if k in Handed(visits) {
        var i :| 0 <= i < |visits| && k in visits[i].page.keys;
        PagesMoveOn(d, prefix, from, limit, after, visits, i, k);
        assert visits[i] in visits;
      }
      if k in keys && InRange(d, prefix, from, after, k) && hit(k) {
        var i := SomePageReturns(d, prefix, from, limit, after, visits, k);
      }
    }
    OrderedUnique(d, Handed(visits), InOrder(d, set k | k in keys && InRange(d, prefix, from, after, k) && hit(k)));
  }

  /** All pages but the last are full, which bounds their number. */
  lemma {:induction false} PageCount(d: Direction, prefix: Bytes, from: Bytes, limit: nat, after: Option<Bytes>,
                                     visits: seq<Visit>)
    requires Chain(d, prefix, from, limit, after, visits)
    ensures (|visits| - 1) * limit <= |Handed(visits)| <= |visits| * limit
    decreases |visits|
  {
    if |visits| == 1 {
      assert Handed(visits[1..]) == [];
    } else {
      PageCount(d, prefix, from, limit, visits[0].page.next, visits[1..]);
      assert (|visits| - 1) * limit == (|visits| - 2) * limit + limit;
    }
  }

  /** A client that follows cursors until there is none, on a store nobody writes to. */
  method FollowCursors<T>(d: Direction, keys: set<Bytes>, prefix: Bytes, from: Bytes, limit: nat,
                          deref: Bytes -> Option<T>)
    returns (items: seq<T>, ghost handed: seq<Bytes>)
    requires limit > 0 && ScanShape(d, prefix, from)
    ensures handed == InOrder(d, set k | k in keys && InRange(d, prefix, from, None, k) && deref(k).Some?)
    ensures ReadBack(items, InOrder(d, set k | k in keys && InRange(d, prefix, from, None, k) && deref(k).Some?), deref)
  {
    items, handed := [], [];
    var after: Option<Bytes> := None;
    ghost var all := set k | k in keys && InRange(d, prefix, from, None, k) && deref(k).Some?;
    while true
      invariant after.Some? ==> InRange(d, prefix, from, None, after.value)
      invariant ReadBack(items, handed, deref) && Ordered(d, handed)
      invariant forall k :: k in handed <==> k in all && after.Some? && !Before(d, after.value, k)
      decreases |Beyond(d, keys, prefix, from, after)|
    {
      ghost var page;
      var rows, next;
      WalkedIsBeyond(d, keys, prefix, from, after);
      rows, next, page := ScanPage(d, keys, prefix, from, after, limit, deref);
      Joined(d, keys, prefix, from, limit, deref, all, after, handed, Page(page, next));
      JoinedRows(items, handed, rows, page, deref);
      items, handed := items + rows, handed + page;
      if next.None? {
        break;
      }
      CursorInRange(d, prefix, from, limit, after, Visit(keys, Rehydrates(deref), Page(page, next)));
      BeyondShrinks(d, keys, prefix, from, after, next.value);
      after := next;
    }
    OrderedUnique(d, handed, InOrder(d, all));
  }

  lemma JoinedRows<T>(items: seq<T>, handed: seq<Bytes>, rows: seq<T>, page: seq<Bytes>, deref: Bytes -> Option<T>)
    requires ReadBack(items, handed, deref) && ReadBack(rows, page, deref)
    ensures ReadBack(items + rows, handed + page, deref)
  {}

  lemma BeyondShrinks(d: Direction, keys: set<Bytes>, prefix: Bytes, from: Bytes, after: Option<Bytes>, c: Bytes)
    requires InRange(d, prefix, from, after, c) && c in keys
    ensures |Beyond(d, keys, prefix, from, Some(c))| < |Beyond(d, keys, prefix, from, after)|
  {
    var a, b := Beyond(d, keys, prefix, from, Some(c)), Beyond(d, keys, prefix, from, after);
    forall k | k in a ensures k in b - {c} {
      BeforeIrreflexive(d, c);
      if after.Some? { BeforeTransitive(d, after.value, c, k); }
      else if Before(d, k, from) { BeforeTransitive(d, c, k, from); }
    }
    SubsetSize(a, b - {c});
  }

  /** One more page extends what was handed out, in order, up to its cursor. */
  lemma Joined<T>(d: Direction, keys: set<Bytes>, prefix: Bytes, from: Bytes, limit: nat, deref: Bytes -> Option<T>,
                  all: set<Bytes>, after: Option<Bytes>, handed: seq<Bytes>, page: Page)
    requires all == set k | k in keys && InRange(d, prefix, from, None, k) && deref(k).Some?
    requires after.Some? ==> InRange(d, prefix, from, None, after.value)
    requires Ordered(d, handed)
    requires forall k :: k in handed <==> k in all && after.Some? && !Before(d, after.value, k)
    requires IsPage(d, Beyond(d, keys, prefix, from, after), Rehydrates(deref), limit, page)
    ensures Ordered(d, handed + page.keys)
    ensures page.next.Some? ==> InRange(d, prefix, from, None, page.next.value) && page.next.value in keys
    ensures forall k :: k in handed + page.keys <==> k in all && (page.next.Some? ==> !Before(d, page.next.value, k))
  {
    forall k | k in Beyond(d, keys, prefix, from, after) ensures InRange(d, prefix, from, None, k) {
      if after.Some? && Before(d, k, from) { BeforeTransitive(d, after.value, k, from); }
    }
    forall i, j | 0 <= i < |handed| && 0 <= j < |page.keys| ensures Before(d, handed[i], page.keys[j]) {
      assert handed[i] in handed && page.keys[j] in page.keys;
      BeforeTotal(d, handed[i], after.value);
      if Before(d, handed[i], after.value) { BeforeTransitive(d, handed[i], after.value, page.keys[j]); }
    }
    if page.next.Some? { assert page.next.value in page.keys; }
    forall k ensures k in handed + page.keys <==> k in all && (page.next.Some? ==> !Before(d, page.next.value, k)) {
      if page.next.Some? {
        var c := page.next.value;
        if k in page.keys { LastIsLast(d, page.keys, k); }
        if k in handed && Before(d, c, k) {
          BeforeTransitive(d, after.value, c, k);
        }
      }
    }
  }
}
