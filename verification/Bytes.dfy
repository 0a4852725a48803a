/**
 Byte strings as the key-value store compares them: unsigned big-endian
 integers, the bitwise complement, lexicographic order, and the ordered
 iterator that RocksDB offers over a set of keys.
 */
module ByteStrings {

  type Byte = x: int | 0 <= x < 256
  type Bytes = seq<Byte>

  // ---- big-endian integers ------------------------------------------------

  function Pow256(w: nat): (r: nat)
    ensures r > 0
  {
    if w == 0 then 1 else 256 * Pow256(w - 1)
  }

  /** `n.to_be_bytes()` for an unsigned integer of `w` bytes. */
  function BigEndian(n: nat, w: nat): (r: Bytes)
    ensures |r| == w
  {
    if w == 0 then [] else BigEndian(n / 256, w - 1) + [n % 256]
  }

  /** `from_be_bytes`. */
  function FromBigEndian(s: Bytes): nat {
    if s == [] then 0 else FromBigEndian(s[..|s| - 1]) * 256 + s[|s| - 1]
  }

  lemma {:induction false} DecodeEncode(n: nat, w: nat)
    requires n < Pow256(w)
    ensures FromBigEndian(BigEndian(n, w)) == n
  {
    if w > 0 {
      DecodeEncode(n / 256, w - 1);
      assert BigEndian(n, w)[..w - 1] == BigEndian(n / 256, w - 1);
    }
  }

  lemma {:induction false} EncodeDecode(s: Bytes)
    ensures FromBigEndian(s) < Pow256(|s|)
    ensures BigEndian(FromBigEndian(s), |s|) == s
  {
    if s != [] {
      EncodeDecode(s[..|s| - 1]);
      assert s == s[..|s| - 1] + [s[|s| - 1]];
    }
  }

  /** `*b = !*b` for every byte. */
  function Complement(s: Bytes): (r: Bytes)
    ensures |r| == |s|
    ensures forall i :: 0 <= i < |s| ==> r[i] == 255 - s[i]
  {
    seq(|s|, i requires 0 <= i < |s| => 255 - s[i])
  }

  lemma ComplementTwice(s: Bytes)
    ensures Complement(Complement(s)) == s
  {}

  // ---- lexicographic order ------------------------------------------------

  predicate Less(a: Bytes, b: Bytes) {
    b != [] && (a == [] || a[0] < b[0] || (a[0] == b[0] && Less(a[1..], b[1..])))
  }

  lemma {:induction false} LessIrreflexive(a: Bytes)
    ensures !Less(a, a)
  {
    if a != [] {
      LessIrreflexive(a[1..]);
    }
  }

  lemma {:induction false} LessTransitive(a: Bytes, b: Bytes, c: Bytes)
    requires Less(a, b) && Less(b, c)
    ensures Less(a, c)
  {
    if a != [] && a[0] == b[0] == c[0] {
      LessTransitive(a[1..], b[1..], c[1..]);
    }
  }

  lemma {:induction false} LessTotal(a: Bytes, b: Bytes)
    ensures a == b || Less(a, b) || Less(b, a)
  {
    if a != [] && b != [] && a[0] == b[0] {
      LessTotal(a[1..], b[1..]);
      assert a == [a[0]] + a[1..] && b == [b[0]] + b[1..];
    }
  }

  /** Fixed-width heads are compared before tails. */
  lemma {:induction false} LessConcat(a: Bytes, a': Bytes, b: Bytes, b': Bytes)
    requires |a| == |a'|
    ensures Less(a + b, a' + b') <==> Less(a, a') || (a == a' && Less(b, b'))
  {
    if a == [] {
      assert a + b == b && a' + b' == b';
    } else {
      LessConcat(a[1..], a'[1..], b, b');
      assert (a + b)[1..] == a[1..] + b && (a' + b')[1..] == a'[1..] + b';
      assert a == [a[0]] + a[1..] && a' == [a'[0]] + a'[1..];
    }
  }

  lemma {:induction false} BigEndianOrder(m: nat, n: nat, w: nat)
    requires m < Pow256(w) && n < Pow256(w)
    ensures Less(BigEndian(m, w), BigEndian(n, w)) <==> m < n
  {
    if w > 0 {
      BigEndianOrder(m / 256, n / 256, w - 1);
      LessConcat(BigEndian(m / 256, w - 1), BigEndian(n / 256, w - 1), [m % 256], [n % 256]);
      if BigEndian(m / 256, w - 1) == BigEndian(n / 256, w - 1) {
        DecodeEncode(m / 256, w - 1);
        DecodeEncode(n / 256, w - 1);
      } else if m / 256 == n / 256 {
        assert false;
      }
    }
  }

  lemma {:induction false} ComplementReverses(a: Bytes, b: Bytes)
    requires |a| == |b|
    ensures Less(Complement(a), Complement(b)) <==> Less(b, a)
  {
    if a != [] {
      ComplementReverses(a[1..], b[1..]);
      assert Complement(a)[1..] == Complement(a[1..]);
      assert Complement(b)[1..] == Complement(b[1..]);
    }
  }

  /** A prefix sorts at or before everything it starts. */
  lemma {:induction false} PrefixFirst(p: Bytes, k: Bytes)
    requires p <= k
    ensures !Less(k, p)
  {
    if p != [] {
      PrefixFirst(p[1..], k[1..]);
    }
  }

  /** The keys under one prefix are contiguous. */
  lemma {:induction false} PrefixBetween(p: Bytes, k: Bytes, k': Bytes)
    requires !Less(k, p) && !Less(k', k)
    requires p <= k'
    ensures p <= k
  {
    if p != [] {
      LessTotal(p, k);
      LessTotal(k, k');
      if k == k' || k == p {
      } else {
        assert k != [] && p[0] == k'[0] == k[0];
        LessIrreflexive(p);
        assert !Less(k[1..], p[1..]) && !Less(k'[1..], k[1..]);
        PrefixBetween(p[1..], k[1..], k'[1..]);
      }
    }
  }

  // ---- ordered iteration --------------------------------------------------

  /** The direction of a scan. */
  datatype Direction = Forward | Reverse

  /** `a` is met before `b` by a scan in direction `d`. */
  predicate Before(d: Direction, a: Bytes, b: Bytes) {
    if d.Forward? then Less(a, b) else Less(b, a)
  }

  lemma BeforeIrreflexive(d: Direction, a: Bytes)
    ensures !Before(d, a, a)
  {
    LessIrreflexive(a);
  }

  lemma BeforeTransitive(d: Direction, a: Bytes, b: Bytes, c: Bytes)
    requires Before(d, a, b) && Before(d, b, c)
    ensures Before(d, a, c)
  {
    if d.Forward? { LessTransitive(a, b, c); } else { LessTransitive(c, b, a); }
  }

  lemma BeforeTotal(d: Direction, a: Bytes, b: Bytes)
    ensures a == b || Before(d, a, b) || Before(d, b, a)
  {
    LessTotal(a, b);
  }

  predicate Ordered(d: Direction, q: seq<Bytes>) {
    forall i, j :: 0 <= i < j < |q| ==> Before(d, q[i], q[j])
  }

  predicate IsFirst(d: Direction, m: Bytes, s: set<Bytes>) {
    m in s && forall k :: k in s ==> !Before(d, k, m)
  }

  lemma {:induction false} FirstExists(d: Direction, s: set<Bytes>)
    requires s != {}
    ensures exists m :: IsFirst(d, m, s)
    ensures forall m, m' :: IsFirst(d, m, s) && IsFirst(d, m', s) ==> m == m'
    decreases |s|
  {
    forall m, m' | IsFirst(d, m, s) && IsFirst(d, m', s) ensures m == m' {
      BeforeTotal(d, m, m');
    }
    var x :| x in s;
    if s == {x} {
      BeforeIrreflexive(d, x);
      assert IsFirst(d, x, s);
    } else {
      FirstExists(d, s - {x});
      var m :| IsFirst(d, m, s - {x});
      BeforeTotal(d, m, x);
      BeforeIrreflexive(d, x);
      if Before(d, x, m) {
        forall k | k in s ensures !Before(d, k, x) {
          if Before(d, k, x) {
            BeforeTransitive(d, k, x, m);
          }
        }
        assert IsFirst(d, x, s);
      } else {
        assert IsFirst(d, m, s);
      }
    }
  }

  lemma OrderedFresh(d: Direction, q: seq<Bytes>, i: nat)
    requires Ordered(d, q) && i < |q|
    ensures q[i] !in q[..i]
  {
    BeforeIrreflexive(d, q[i]);
  }

  /** All of `s` in scan order: what a RocksDB iterator yields. */
  function InOrder(d: Direction, s: set<Bytes>): (q: seq<Bytes>)
    ensures Ordered(d, q)
    ensures forall k :: k in q <==> k in s
    ensures |q| == |s|
    decreases |s|
  {
    if s == {} then []
    else
      FirstExists(d, s);
      var m :| IsFirst(d, m, s);
      var rest := InOrder(d, s - {m});
      assert Ordered(d, [m] + rest) by {
        forall j | 0 <= j < |rest| ensures Before(d, m, rest[j]) {
          assert rest[j] in s - {m};
          BeforeTotal(d, m, rest[j]);
        }
      }
      [m] + rest
  }

  /** `IteratorMode::From(start, d)`: everything at or after `start`. */
  function SeekFrom(d: Direction, keys: set<Bytes>, start: Bytes): (q: seq<Bytes>)
    ensures Ordered(d, q)
    ensures forall k :: k in q <==> k in keys && !Before(d, k, start)
  {
    InOrder(d, set k | k in keys && !Before(d, k, start))
  }

  /** A scan order has no repeats, and fixes the sequence. */
  lemma {:induction false} OrderedUnique(d: Direction, q: seq<Bytes>, q': seq<Bytes>)
    requires Ordered(d, q) && Ordered(d, q')
    requires forall k :: k in q <==> k in q'
    ensures q == q'
  {
    assert q == [] <==> q' == [] by {
      assert q != [] ==> q[0] in q';
      assert q' != [] ==> q'[0] in q;
    }
    if q != [] {
      assert q[0] in q' && q'[0] in q;
      var i :| 0 <= i < |q'| && q'[i] == q[0];
      var j :| 0 <= j < |q| && q[j] == q'[0];
      if i != 0 || j != 0 {
        BeforeIrreflexive(d, q[0]);
        assert i > 0 && j > 0;
        BeforeTransitive(d, q[0], q'[0], q[0]);
        assert false;
      }
      forall k ensures k in q[1..] <==> k in q'[1..] {
        BeforeIrreflexive(d, q[0]);
        if k in q[1..] { assert k in q; assert k != q[0]; }
        if k in q'[1..] { assert k in q'; assert k != q[0]; }
      }
      OrderedUnique(d, q[1..], q'[1..]);
      assert q == [q[0]] + q[1..] && q' == [q'[0]] + q'[1..];
    }
  }
}
