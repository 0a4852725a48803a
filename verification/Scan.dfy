/**
 Resumable cursor scans: what one page holds.
 */
module Scan {
  import opened ByteStrings
  import opened Ids
  import opened Keys

  /** The keys behind a page's items, and its continuation token. */
  datatype Page = Page(keys: seq<Bytes>, next: Option<Bytes>)

  /**
   The keys a scan of `keys` walks: from `after`, or from `from` on the first
   page, stopping at the first key outside the prefix.
   */
  function Walked(d: Direction, keys: set<Bytes>, prefix: Bytes, from: Bytes, after: Option<Bytes>): set<Bytes> {
    var start := if after.Some? then after.value else from;
    set k | k in keys && !Before(d, k, start) && after != Some(k)
            && forall k' :: k' in keys && !Before(d, k', start) && !Before(d, k, k') ==> prefix <= k'
  }

  /** The keys beyond a cursor: what the walk amounts to for the cursors that pages hand out. */
  function Beyond(d: Direction, keys: set<Bytes>, prefix: Bytes, from: Bytes, after: Option<Bytes>): set<Bytes> {
    set k | k in keys && prefix <= k
            && if after.Some? then Before(d, after.value, k) else !Before(d, k, from)
  }

  /** A scan either has a prefix and starts at it going forward, or has no prefix. */
  predicate ScanShape(d: Direction, prefix: Bytes, from: Bytes) {
    prefix == [] || (d == Forward && from == prefix)
  }

  lemma WalkedIsBeyond(d: Direction, keys: set<Bytes>, prefix: Bytes, from: Bytes, after: Option<Bytes>)
    requires ScanShape(d, prefix, from)
    requires after.Some? ==> prefix <= after.value
    ensures Walked(d, keys, prefix, from, after) == Beyond(d, keys, prefix, from, after)
  {
    var start := if after.Some? then after.value else from;
    forall k | k in keys
      ensures k in Walked(d, keys, prefix, from, after) <==> k in Beyond(d, keys, prefix, from, after)
    {
      if after.Some? {
        BeforeTotal(d, after.value, k);
        BeforeIrreflexive(d, k);
        if Before(d, k, after.value) && Before(d, after.value, k) { BeforeTransitive(d, k, after.value, k); }
      }
      BeforeIrreflexive(d, k);
      if prefix <= k && d == Forward {
        forall k' | k' in keys && !Before(d, k', start) && !Before(d, k, k') ensures prefix <= k' {
          if after.Some? { StartAfterPrefix(prefix, start, k'); }
          if prefix != [] { PrefixBetween(prefix, k', k); }
        }
      }
    }
  }

  lemma StartAfterPrefix(p: Bytes, start: Bytes, k: Bytes)
    requires p <= start && !Less(k, start)
    ensures !Less(k, p)
  {
    PrefixFirst(p, start);
    LessTotal(p, start);
    LessTotal(start, k);
    if Less(k, p) {
      if p == start || start == k {
      } else {
        LessTransitive(p, start, k);
        LessTransitive(p, k, p);
        LessIrreflexive(p);
      }
    }
  }

  // ---- one page -----------------------------------------------------------

  /**
   A page over the walked keys `w`, of which `hit` says which rehydrate into a
   row: the first hits in scan order, at most `limit`. The cursor is the last
   kept key, and is present exactly when the page is full and a further key,
   hit or not, was walked.
   */
  ghost predicate IsPage(d: Direction, w: set<Bytes>, hit: Bytes -> bool, limit: nat, page: Page) {
    && Ordered(d, page.keys)
    && |page.keys| <= limit
    && (forall k :: k in page.keys ==> k in w && hit(k))
    && (match page.next
        case None =>
          && (forall k :: k in w && hit(k) ==> k in page.keys)
          && (|page.keys| == limit > 0 ==> forall k :: k in w ==> !Before(d, page.keys[limit - 1], k))
        case Some(c) =>
          && |page.keys| == limit > 0
          && c == page.keys[limit - 1]
          && (forall k :: k in w && hit(k) && !Before(d, c, k) ==> k in page.keys)
          && (exists k :: k in w && Before(d, c, k)))
  }

  /** The contract leaves no freedom: a page is determined by what is walked. */
  lemma PageUnique(d: Direction, w: set<Bytes>, hit: Bytes -> bool, limit: nat, p: Page, q: Page)
    requires limit > 0 && IsPage(d, w, hit, limit, p) && IsPage(d, w, hit, limit, q)
    ensures p == q
  {
    if p.next.Some? { CursorForced(d, w, hit, limit, p, q); }
    if q.next.Some? { CursorForced(d, w, hit, limit, q, p); }
    if p.next.Some? { BeforeTotal(d, p.next.value, q.next.value); }
    forall k ensures k in p.keys <==> k in q.keys {
      if p.next.Some? {
        if k in p.keys { LastIsLast(d, p.keys, k); }
        if k in q.keys { LastIsLast(d, q.keys, k); }
      }
    }
    OrderedUnique(d, p.keys, q.keys);
  }

  lemma LastIsLast(d: Direction, q: seq<Bytes>, k: Bytes)
    requires Ordered(d, q) && k in q
    ensures !Before(d, q[|q| - 1], k)
  {
    var i :| 0 <= i < |q| && q[i] == k;
    BeforeIrreflexive(d, k);
    if i < |q| - 1 && Before(d, q[|q| - 1], k) { BeforeTransitive(d, k, q[|q| - 1], k); }
  }

  /** No page ends before another one that has a cursor: it would hold fewer than `limit` keys. */
  lemma CursorForced(d: Direction, w: set<Bytes>, hit: Bytes -> bool, limit: nat, p: Page, q: Page)
    requires limit > 0 && IsPage(d, w, hit, limit, p) && IsPage(d, w, hit, limit, q)
    requires p.next.Some?
    ensures q.next.Some? && !Before(d, p.next.value, q.next.value)
  {
    var c := p.next.value;
    if q.next.None? || Before(d, c, q.next.value) {
      forall k | k in p.keys ensures k in q.keys {
        if q.next.Some? {
          LastIsLast(d, p.keys, k);
          if Before(d, q.next.value, k) { BeforeTransitive(d, c, q.next.value, k); }
        }
      }
      if p.keys == q.keys {
        if q.next.Some? { BeforeIrreflexive(d, c); }
        assert false;
      } else {
        var extra :| extra in q.keys && extra !in p.keys by {
          if forall k :: k in q.keys ==> k in p.keys { OrderedUnique(d, p.keys, q.keys); }
        }
        DistinctCount(d, p.keys, q.keys, extra);
        assert false;
      }
    }
  }

  /** A sequence without repeats inside another, missing one of its elements, is shorter. */
  lemma DistinctCount(d: Direction, p: seq<Bytes>, q: seq<Bytes>, extra: Bytes)
    requires Ordered(d, p) && Ordered(d, q)
    requires forall k :: k in p ==> k in q && k != extra
    requires extra in q
    ensures |p| < |q|
  {
    var ps, qs := set k | k in p, set k | k in q;
    OrderedSize(d, p);
    OrderedSize(d, q);
    assert ps <= qs - {extra};
    SubsetSize(ps, qs - {extra});
  }

  lemma {:induction false} OrderedSize(d: Direction, q: seq<Bytes>)
    requires Ordered(d, q)
    ensures |set k | k in q| == |q|
  {
    var s := set k | k in q;
    OrderedUnique(d, q, InOrder(d, s));
  }

  lemma {:induction false} SubsetSize(a: set<Bytes>, b: set<Bytes>)
    requires a <= b
    ensures |a| <= |b|
  {
    assert b == a + (b - a);
  }

  /** The index keys whose primary row can be read back. */
  function Rehydrates<T>(deref: Bytes -> Option<T>): Bytes -> bool {
    k => deref(k).Some?
  }

  /** `items` are the rows read back through `kept`. */
  ghost predicate ReadBack<T>(items: seq<T>, kept: seq<Bytes>, deref: Bytes -> Option<T>) {
    |items| == |kept| && forall i :: 0 <= i < |items| ==> deref(kept[i]) == Some(items[i])
  }

  lemma ReadBackNext<T>(items: seq<T>, kept: seq<Bytes>, deref: Bytes -> Option<T>, k: Bytes)
    requires ReadBack(items, kept, deref) && deref(k).Some?
    ensures ReadBack(items + [deref(k).value], kept + [k], deref)
  {}

  ghost predicate Under(q: seq<Bytes>, prefix: Bytes) {
    forall k :: k in q ==> prefix <= k
  }

  lemma UnderNext(q: seq<Bytes>, i: nat, prefix: Bytes)
    requires i < |q| && Under(q[..i], prefix) && prefix <= q[i]
    ensures Under(q[..i + 1], prefix)
  {
    assert q[..i + 1] == q[..i] + [q[i]];
  }

  /** The keys of `q` that a page keeps. */
  function Kept(q: seq<Bytes>, after: Option<Bytes>, hit: Bytes -> bool): (r: seq<Bytes>)
    ensures |r| <= |q|
    ensures forall k :: k in r <==> k in q && after != Some(k) && hit(k)
  {
    if q == [] then []
    else
      var k := q[|q| - 1];
      Kept(q[..|q| - 1], after, hit) + (if after != Some(k) && hit(k) then [k] else [])
  }

  lemma KeptNext(q: seq<Bytes>, i: nat, after: Option<Bytes>, hit: Bytes -> bool)
    requires i < |q|
    ensures Kept(q[..i + 1], after, hit) == Kept(q[..i], after, hit)
        + (if after != Some(q[i]) && hit(q[i]) then [q[i]] else [])
  {
    assert q[..i + 1][..i] == q[..i];
  }

  lemma {:induction false} KeptOrdered(d: Direction, q: seq<Bytes>, after: Option<Bytes>, hit: Bytes -> bool)
    requires Ordered(d, q)
    ensures Ordered(d, Kept(q, after, hit))
  {
    if q != [] {
      var r := Kept(q[..|q| - 1], after, hit);
      KeptOrdered(d, q[..|q| - 1], after, hit);
      forall i | 0 <= i < |r| ensures Before(d, r[i], q[|q| - 1]) { assert r[i] in r; }
    }
  }

  /**
   The page loop shared by every cursor scan: stop at the end of the prefix, skip
   the cursor itself, hand out a cursor when the page is full, keep the rows that
   rehydrate. `stop` is the iterator position at which the loop ended.
   */
  method PageLoop<T>(iter: seq<Bytes>, prefix: Bytes, after: Option<Bytes>, limit: nat, deref: Bytes -> Option<T>)
    returns (items: seq<T>, next: Option<Bytes>, ghost kept: seq<Bytes>, ghost stop: nat)
    requires limit > 0
    requires forall i :: 0 < i < |iter| ==> after != Some(iter[i])
    ensures stop <= |iter| && Under(iter[..stop], prefix)
    ensures ReadBack(items, kept, deref)
    ensures Stopped(iter, prefix, after, Rehydrates(deref), limit, stop, Page(kept, next))
  {
    hide Kept, ReadBack, Under;
    items, next, kept := [], None, [];
    EmptyReadBack(deref);
    UnderNothing(prefix);
    var lastKey: Option<Bytes> := None;
    var i := 0;
    while i < |iter|
      invariant 0 <= i <= |iter| && Under(iter[..i], prefix)
      invariant |kept| == |items| <= limit && ReadBack(items, kept, deref)
      invariant kept == Kept(iter[..i], after, Rehydrates(deref))
      invariant lastKey == if kept == [] then None else Some(kept[|kept| - 1])
      invariant next == None
      invariant |kept| == limit ==> i > 0 && iter[i - 1] == kept[limit - 1]
    {
      var k := iter[i];
      if !(prefix <= k) {
        break;
      }
      if after != Some(k) && |items| >= limit {
        next := lastKey;
        break;
      }
      UnderNext(iter, i, prefix);
      KeptNext(iter, i, after, Rehydrates(deref));
      if after != Some(k) {
        var row := deref(k);
        if row.Some? {
          ReadBackNext(items, kept, deref, k);
          items := items + [row.value];
          kept := kept + [k];
          lastKey := Some(k);
        }
      }
      i := i + 1;
    }
    stop := i;
  }

  lemma EmptyReadBack<T>(deref: Bytes -> Option<T>)
    ensures ReadBack([], [], deref)
  {}

  lemma UnderNothing(prefix: Bytes)
    ensures Under([], prefix)
  {}

  /** How the page loop can end at iterator position `n`. */
  ghost predicate Stopped(iter: seq<Bytes>, prefix: Bytes, after: Option<Bytes>, hit: Bytes -> bool, limit: nat,
                          n: nat, page: Page) {
    && n <= |iter|
    && page.keys == Kept(iter[..n], after, hit)
    && |page.keys| <= limit
    && (|page.keys| == limit > 0 ==> n > 0 && iter[n - 1] == page.keys[limit - 1])
    && (page.next == None ==> n == |iter| || !(prefix <= iter[n]))
    && (page.next.Some? ==>
          && n < |iter| && prefix <= iter[n] && after != Some(iter[n])
          && |page.keys| == limit > 0 && page.next.value == page.keys[limit - 1])
  }

  /** One page of a scan over the keys of a column family. */
  method ScanPage<T>(d: Direction, keys: set<Bytes>, prefix: Bytes, from: Bytes, after: Option<Bytes>,
                     limit: nat, deref: Bytes -> Option<T>)
    returns (items: seq<T>, next: Option<Bytes>, ghost kept: seq<Bytes>)
    ensures limit == 0 ==> items == [] && next == None
    ensures limit > 0 ==> IsPage(d, Walked(d, keys, prefix, from, after), Rehydrates(deref), limit, Page(kept, next))
    ensures ReadBack(items, kept, deref)
  {
    items, next, kept := [], None, [];
    if limit == 0 {
      return;
    }
    var start := if after.Some? then after.value else from;
    var iter := SeekFrom(d, keys, start);
    forall i | 0 < i < |iter| ensures after != Some(iter[i]) { CursorComesFirst(d, keys, start, iter, i); }
    ghost var stop;
    items, next, kept, stop := PageLoop(iter, prefix, after, limit, deref);
    PageFromScan(d, keys, prefix, from, after, Rehydrates(deref), limit, iter, stop, Page(kept, next));
  }

  /** Only the first key of an iterator can be the key it was opened at. */
  lemma CursorComesFirst(d: Direction, keys: set<Bytes>, start: Bytes, iter: seq<Bytes>, i: nat)
    requires iter == SeekFrom(d, keys, start) && 0 < i < |iter|
    ensures iter[i] != start
  {
    assert iter[0] in iter;
    assert Before(d, iter[0], iter[i]);
  }

  lemma WalkedInIter(d: Direction, keys: set<Bytes>, prefix: Bytes, from: Bytes, after: Option<Bytes>)
    ensures forall k :: k in Walked(d, keys, prefix, from, after) ==>
              k in SeekFrom(d, keys, if after.Some? then after.value else from) && after != Some(k)
  {}

  /** The loop's stopping conditions amount to the page contract. */
  lemma PageFromScan(d: Direction, keys: set<Bytes>, prefix: Bytes, from: Bytes, after: Option<Bytes>,
                     hit: Bytes -> bool, limit: nat, iter: seq<Bytes>, n: nat, page: Page)
    requires limit > 0 && iter == SeekFrom(d, keys, if after.Some? then after.value else from)
    requires n <= |iter| && Under(iter[..n], prefix) && Stopped(iter, prefix, after, hit, limit, n, page)
    ensures IsPage(d, Walked(d, keys, prefix, from, after), hit, limit, page)
  {
    hide Walked, Kept, SeekFrom, Before, Under;
    var w := Walked(d, keys, prefix, from, after);
    KeptOrdered(d, iter[..n], after, hit);
    forall k | k in page.keys ensures k in w {
      var j :| 0 <= j < n && iter[j] == k;
      WalkedAt(d, keys, prefix, from, after, iter, n, j);
    }
    WalkedInIter(d, keys, prefix, from, after);
    forall k | k in w ensures k in iter[..n] || (page.next.Some? && Before(d, iter[n - 1], k)) {
      var j :| 0 <= j < |iter| && iter[j] == k;
      if j >= n {
        if page.next.None? {
          StopsWalk(d, keys, prefix, from, after, iter, n, j);
        } else {
          assert Before(d, iter[n - 1], iter[j]);
        }
      }
    }
    if |page.keys| == limit {
      forall k | k in iter[..n] ensures !Before(d, iter[n - 1], k) { LastIsLast(d, iter[..n], k); }
    }
    if page.next.Some? {
      WalkedAt(d, keys, prefix, from, after, iter, n, n);
      assert Before(d, iter[n - 1], iter[n]);
    }
  }

  /** Every key up to the stop is walked. */
  lemma WalkedAt(d: Direction, keys: set<Bytes>, prefix: Bytes, from: Bytes, after: Option<Bytes>, iter: seq<Bytes>,
                 n: nat, j: nat)
    requires iter == SeekFrom(d, keys, if after.Some? then after.value else from)
    requires j <= n <= |iter| && j < |iter| && Under(iter[..n], prefix) && (j == n ==> prefix <= iter[n])
    requires after != Some(iter[j])
    ensures iter[j] in Walked(d, keys, prefix, from, after)
  {
    var start := if after.Some? then after.value else from;
    assert forall m :: 0 <= m < n ==> iter[m] in iter[..n];
    assert iter[j] in iter;
    forall k' | k' in keys && !Before(d, k', start) && !Before(d, iter[j], k') ensures prefix <= k' {
      assert k' in iter;
      var m :| 0 <= m < |iter| && iter[m] == k';
      assert m <= j;
    }
  }

  /** Nothing is walked at or past a key outside the prefix. */
  lemma StopsWalk(d: Direction, keys: set<Bytes>, prefix: Bytes, from: Bytes, after: Option<Bytes>, iter: seq<Bytes>,
                  n: nat, j: nat)
    requires iter == SeekFrom(d, keys, if after.Some? then after.value else from)
    requires n <= j < |iter| && !(prefix <= iter[n])
    ensures iter[j] !in Walked(d, keys, prefix, from, after)
  {
    assert iter[n] in iter;
    BeforeIrreflexive(d, iter[n]);
    if n < j && Before(d, iter[j], iter[n]) { BeforeTransitive(d, iter[n], iter[j], iter[n]); }
  }
}
