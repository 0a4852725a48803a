/**
 Fixed-width identifiers and slots.
 */
module Ids {
  import opened ByteStrings

  datatype Option<+T> = None | Some(value: T)

  type U64 = x: int | 0 <= x < 0x1_0000_0000_0000_0000
  type U32 = x: int | 0 <= x < 0x1_0000_0000

  const ID_KEY_LEN := 33
  const ADDR_KEY_LEN := 34
  const DENUNCIATION_HASH_LEN := 32

  /** `version(1) ‖ hash(32)`: block, operation and endorsement ids. */
  type Id = b: Bytes | |b| == ID_KEY_LEN witness seq(ID_KEY_LEN, _ => 0)
  /** `category(1) ‖ version(1) ‖ hash(32)`. */
  type Address = b: Bytes | |b| == ADDR_KEY_LEN witness seq(ADDR_KEY_LEN, _ => 0)
  /** A SHA-256 digest. */
  type Hash = b: Bytes | |b| == DENUNCIATION_HASH_LEN witness seq(DENUNCIATION_HASH_LEN, _ => 0)

  datatype Slot = Slot(period: U64, thread: Byte)

  /** The derived order of `Slot`: by period, then by thread. */
  predicate Earlier(a: Slot, b: Slot) {
    a.period < b.period || (a.period == b.period && a.thread < b.thread)
  }
}

/**
 Assembly and parsing of RocksDB keys.
 */
module Keys {
  import opened ByteStrings
  import opened Ids

  const SLOT_KEY_LEN := 9
  const INDEX_LEN := 4

  const TAG_FROM: Byte := 1
  const TAG_TO: Byte := 2

  // ---- slot keys ----------------------------------------------------------

  /** `period_be(8) ‖ thread(1)`. */
  function SlotKey(s: Slot): (k: Bytes)
    ensures |k| == SLOT_KEY_LEN
  {
    BigEndian(s.period, 8) + [s.thread]
  }

  function DecodeSlotKey(k: Bytes): Option<Slot> {
    if |k| != SLOT_KEY_LEN then None
    else
      EncodeDecode(k[..8]);
      assert Pow256(8) == 0x1_0000_0000_0000_0000;
      Some(Slot(FromBigEndian(k[..8]), k[8]))
  }

  /** The complemented slot key: forward iteration is newest first. */
  function RSlotKey(s: Slot): (k: Bytes)
    ensures |k| == SLOT_KEY_LEN
  {
    Complement(SlotKey(s))
  }

  function DecodeRSlotKey(k: Bytes): Option<Slot> {
    if |k| != SLOT_KEY_LEN then None else DecodeSlotKey(Complement(k))
  }

  /** `rslot_key` complements its buffer byte by byte. */
  method BuildRSlotKey(s: Slot) returns (out: array<Byte>)
    ensures fresh(out) && out[..] == RSlotKey(s)
  {
    var k := SlotKey(s);
    out := new Byte[SLOT_KEY_LEN](i requires 0 <= i < SLOT_KEY_LEN => k[i]);
    for i := 0 to SLOT_KEY_LEN
      invariant forall j :: 0 <= j < i ==> out[j] == 255 - k[j]
      invariant forall j :: i <= j < SLOT_KEY_LEN ==> out[j] == k[j]
    {
      out[i] := 255 - out[i];
    }
  }

  lemma SlotKeyRoundTrip(s: Slot)
    ensures DecodeSlotKey(SlotKey(s)) == Some(s)
    ensures DecodeRSlotKey(RSlotKey(s)) == Some(s)
  {
    assert Pow256(8) == 0x1_0000_0000_0000_0000;
    DecodeEncode(s.period, 8);
    assert SlotKey(s)[..8] == BigEndian(s.period, 8);
    ComplementTwice(SlotKey(s));
  }

  lemma SlotKeyParseBuild(k: Bytes)
    requires |k| == SLOT_KEY_LEN
    ensures DecodeSlotKey(k).Some? && SlotKey(DecodeSlotKey(k).value) == k
    ensures DecodeRSlotKey(k).Some? && RSlotKey(DecodeRSlotKey(k).value) == k
  {
    EncodeDecode(k[..8]);
    assert k == k[..8] + [k[8]];
    var c := Complement(k);
    EncodeDecode(c[..8]);
    assert c == c[..8] + [c[8]];
    ComplementTwice(k);
  }

  lemma SlotKeyInjective(a: Slot, b: Slot)
    ensures SlotKey(a) == SlotKey(b) ==> a == b
    ensures RSlotKey(a) == RSlotKey(b) ==> a == b
  {
    SlotKeyRoundTrip(a);
    SlotKeyRoundTrip(b);
  }

  /** Byte order of slot keys is slot order; of complemented keys, its exact reverse. */
  lemma SlotKeyOrder(a: Slot, b: Slot)
    ensures Less(SlotKey(a), SlotKey(b)) <==> Earlier(a, b)
    ensures Less(RSlotKey(a), RSlotKey(b)) <==> Earlier(b, a)
  {
    SlotKeyForwardOrder(a, b);
    SlotKeyForwardOrder(b, a);
    ComplementReverses(SlotKey(a), SlotKey(b));
  }

  lemma SlotKeyForwardOrder(a: Slot, b: Slot)
    ensures Less(SlotKey(a), SlotKey(b)) <==> Earlier(a, b)
  {
    assert Pow256(8) == 0x1_0000_0000_0000_0000;
    BigEndianOrder(a.period, b.period, 8);
    LessConcat(BigEndian(a.period, 8), BigEndian(b.period, 8), [a.thread], [b.thread]);
    DecodeEncode(a.period, 8);
    DecodeEncode(b.period, 8);
  }

  // ---- composite keys -----------------------------------------------------

  function IndexBytes(i: U32): (k: Bytes)
    ensures |k| == INDEX_LEN
  {
    BigEndian(i, INDEX_LEN)
  }

  function DecodeIndex(k: Bytes): U32
    requires |k| == INDEX_LEN
  {
    EncodeDecode(k);
    assert Pow256(4) == 0x1_0000_0000;
    FromBigEndian(k)
  }

  lemma IndexRoundTrip(i: U32)
    ensures DecodeIndex(IndexBytes(i)) == i
  {
    assert Pow256(4) == 0x1_0000_0000;
    DecodeEncode(i, 4);
  }

  /** `slot_key(9) ‖ index(4)`: primary key of SC events and transfers. */
  function SlotIndexedKey(s: Slot, i: U32): (k: Bytes)
    ensures |k| == 13 && SlotKey(s) <= k
  {
    SlotKey(s) + IndexBytes(i)
  }

  function DecodeSlotIndexedKey(k: Bytes): Option<(Slot, U32)> {
    if |k| != SLOT_KEY_LEN + INDEX_LEN then None
    else
      var s := DecodeSlotKey(k[..SLOT_KEY_LEN]);
      if s.None? then None else Some((s.value, DecodeIndex(k[SLOT_KEY_LEN..])))
  }

  /** `head ‖ rslot(9) ‖ tail`: the shape of every newest-first index key. */
  function RSlotted(head: Bytes, s: Slot, tail: Bytes): Bytes {
    head + RSlotKey(s) + tail
  }

  /** Split a key of the shape `head ‖ rslot(9) ‖ tail` at fixed widths. */
  function ParseRSlotted(k: Bytes, headLen: nat, tailLen: nat): (r: Option<(Slot, Bytes)>)
    ensures r.Some? ==> |r.value.1| == tailLen
  {
    if |k| != headLen + SLOT_KEY_LEN + tailLen then None
    else
      var s := DecodeRSlotKey(k[headLen..headLen + SLOT_KEY_LEN]);
      if s.None? then None else Some((s.value, k[headLen + SLOT_KEY_LEN..]))
  }

  function AddrSlotIdKey(a: Address, s: Slot, id: Id): Bytes { RSlotted(a, s, id) }
  function ParseAddrSlotId(k: Bytes): Option<(Slot, Bytes)> { ParseRSlotted(k, ADDR_KEY_LEN, ID_KEY_LEN) }

  /** `addr ‖ rslot ‖ index ‖ tag`. */
  function TransferByAddrKey(a: Address, s: Slot, i: U32, tag: Byte): Bytes {
    RSlotted(a, s, IndexBytes(i) + [tag])
  }

  function ParseTransferByAddr(k: Bytes): Option<(Slot, U32, Byte)> {
    match ParseRSlotted(k, ADDR_KEY_LEN, INDEX_LEN + 1)
    case None => None
    case Some((s, tail)) => Some((s, DecodeIndex(tail[..INDEX_LEN]), tail[INDEX_LEN]))
  }

  /** `id ‖ rslot ‖ index`: transfers by op or block, events by op. */
  function IdSlotIndexKey(id: Id, s: Slot, i: U32): Bytes { RSlotted(id, s, IndexBytes(i)) }

  function ParseIdSlotIndex(k: Bytes): Option<(Slot, U32)> {
    match ParseRSlotted(k, ID_KEY_LEN, INDEX_LEN)
    case None => None
    case Some((s, tail)) => Some((s, DecodeIndex(tail)))
  }

  /** `addr ‖ rslot ‖ index`: events by emitter or caller. */
  function EventByAddrKey(a: Address, s: Slot, i: U32): Bytes { RSlotted(a, s, IndexBytes(i)) }

  /** Both event layouts end in `rslot ‖ index`; the head may have any width. */
  function ParseEvent(k: Bytes): Option<(Slot, U32)> {
    if |k| < SLOT_KEY_LEN + INDEX_LEN then None
    else
      var h := |k| - SLOT_KEY_LEN - INDEX_LEN;
      match ParseRSlotted(k, h, INDEX_LEN)
      case None => None
      case Some((s, tail)) => Some((s, DecodeIndex(tail)))
  }

  function DenunciationByAddrKey(a: Address, s: Slot, h: Hash): Bytes { RSlotted(a, s, h) }
  function ParseDenunciationByAddr(k: Bytes): Option<(Slot, Bytes)> {
    ParseRSlotted(k, ADDR_KEY_LEN, DENUNCIATION_HASH_LEN)
  }

  function DenunciationRecentKey(s: Slot, h: Hash): Bytes { RSlotted([], s, h) }
  function ParseDenunciationRecent(k: Bytes): Option<(Slot, Bytes)> {
    ParseRSlotted(k, 0, DENUNCIATION_HASH_LEN)
  }

  /** `addr ‖ 0x00 ‖ id` with a variable-length id. */
  function AddrIdKey(a: Address, id: Bytes): Bytes { a + [0] + id }

  /** `split_addr_id_key`, keeping the id. */
  function SplitAddrId(k: Bytes): Option<Bytes> {
    if |k| < ADDR_KEY_LEN + 1 || k[ADDR_KEY_LEN] != 0 then None
    else Some(k[ADDR_KEY_LEN + 1..])
  }

  /** `rslot ‖ id` with a variable-length id. */
  function ByLastSlotKey(s: Slot, id: Bytes): Bytes { RSlotted([], s, id) }
  function ParseByLastSlot(k: Bytes): Option<(Slot, Bytes)> {
    if |k| < SLOT_KEY_LEN then None else ParseRSlotted(k, 0, |k| - SLOT_KEY_LEN)
  }

  /** `slot_key ‖ block_id`, ascending. */
  function CandidateKey(s: Slot, id: Id): Bytes { SlotKey(s) + id }

  // ---- parse after build --------------------------------------------------

  lemma RSlottedRoundTrip(head: Bytes, s: Slot, tail: Bytes)
    ensures ParseRSlotted(RSlotted(head, s, tail), |head|, |tail|) == Some((s, tail))
  {
    var k := RSlotted(head, s, tail);
    assert k[|head|..|head| + SLOT_KEY_LEN] == RSlotKey(s);
    assert k[|head| + SLOT_KEY_LEN..] == tail;
    SlotKeyRoundTrip(s);
  }

  lemma SlotIndexedRoundTrip(s: Slot, i: U32)
    ensures DecodeSlotIndexedKey(SlotIndexedKey(s, i)) == Some((s, i))
  {
    var k := SlotIndexedKey(s, i);
    assert k[..SLOT_KEY_LEN] == SlotKey(s) && k[SLOT_KEY_LEN..] == IndexBytes(i);
    SlotKeyRoundTrip(s);
    IndexRoundTrip(i);
  }

  /** Every parser inverts its builder. */
  lemma ParseBuild(a: Address, id: Id, h: Hash, msg: Bytes, s: Slot, i: U32, tag: Byte)
    ensures ParseAddrSlotId(AddrSlotIdKey(a, s, id)) == Some((s, id))
    ensures ParseTransferByAddr(TransferByAddrKey(a, s, i, tag)) == Some((s, i, tag))
    ensures ParseIdSlotIndex(IdSlotIndexKey(id, s, i)) == Some((s, i))
    ensures ParseEvent(EventByAddrKey(a, s, i)) == Some((s, i))
    ensures ParseEvent(IdSlotIndexKey(id, s, i)) == Some((s, i))
    ensures ParseDenunciationByAddr(DenunciationByAddrKey(a, s, h)) == Some((s, h))
    ensures ParseDenunciationRecent(DenunciationRecentKey(s, h)) == Some((s, h))
    ensures SplitAddrId(AddrIdKey(a, msg)) == Some(msg)
    ensures ParseByLastSlot(ByLastSlotKey(s, msg)) == Some((s, msg))
  {
    IndexRoundTrip(i);
    RSlottedRoundTrip(a, s, id);
    RSlottedRoundTrip(a, s, IndexBytes(i) + [tag]);
    assert (IndexBytes(i) + [tag])[..INDEX_LEN] == IndexBytes(i);
    RSlottedRoundTrip(id, s, IndexBytes(i));
    RSlottedRoundTrip(a, s, IndexBytes(i));
    RSlottedRoundTrip(a, s, h);
    RSlottedRoundTrip([], s, h);
    RSlottedRoundTrip([], s, msg);
    assert AddrIdKey(a, msg)[ADDR_KEY_LEN + 1..] == msg;
  }

  /** Equal keys of one shape have equal parts. */
  lemma RSlottedInjective(h: Bytes, s: Slot, t: Bytes, h': Bytes, s': Slot, t': Bytes)
    requires |h| == |h'|
    requires RSlotted(h, s, t) == RSlotted(h', s', t')
    ensures h == h' && s == s' && t == t'
  {
    var k := RSlotted(h, s, t);
    assert k[..|h|] == h && k[..|h|] == h';
    assert k[|h|..|h| + SLOT_KEY_LEN] == RSlotKey(s) && k[|h|..|h| + SLOT_KEY_LEN] == RSlotKey(s');
    assert k[|h| + SLOT_KEY_LEN..] == t && k[|h| + SLOT_KEY_LEN..] == t';
    SlotKeyInjective(s, s');
  }

  /** Under one owner, keys sort by slot descending and then by tail ascending. */
  lemma RSlottedOrder(h: Bytes, s: Slot, t: Bytes, s': Slot, t': Bytes)
    ensures Less(RSlotted(h, s, t), RSlotted(h, s', t'))
       <==> Earlier(s', s) || (s == s' && Less(t, t'))
  {
    assert RSlotted(h, s, t) == h + (RSlotKey(s) + t);
    assert RSlotted(h, s', t') == h + (RSlotKey(s') + t');
    LessConcat(h, h, RSlotKey(s) + t, RSlotKey(s') + t');
    LessIrreflexive(h);
    LessConcat(RSlotKey(s), RSlotKey(s'), t, t');
    SlotKeyOrder(s, s');
    SlotKeyInjective(s, s');
  }

  /** An owner's keys are exactly the keys of that shape under the owner's prefix. */
  lemma OwnerPrefix(h: Bytes, h': Bytes, s: Slot, t: Bytes)
    requires |h| == |h'|
    ensures h <= RSlotted(h', s, t) <==> h == h'
  {
    assert RSlotted(h', s, t)[..|h|] == h';
  }

  /** Index bytes sort like the indices they encode, whatever follows them. */
  lemma IndexOrder(i: U32, i': U32, t: Bytes, t': Bytes)
    ensures Less(IndexBytes(i) + t, IndexBytes(i') + t') <==> i < i' || (i == i' && Less(t, t'))
  {
    assert Pow256(4) == 0x1_0000_0000;
    BigEndianOrder(i, i', 4);
    LessConcat(IndexBytes(i), IndexBytes(i'), t, t');
    IndexRoundTrip(i);
    IndexRoundTrip(i');
  }

  /**
   `slot_key ‖ 0x00` is an exclusive reverse-scan bound that admits exactly the
   slot keys up to and including `s`.
   */
  lemma InclusiveStart(s: Slot, s': Slot)
    ensures Before(Reverse, SlotKey(s) + [0], SlotKey(s')) <==> s' == s || Earlier(s', s)
    ensures SlotKey(s) + [0] != SlotKey(s')
  {
    assert SlotKey(s') == SlotKey(s') + [];
    LessConcat(SlotKey(s'), SlotKey(s), [], [0]);
    SlotKeyOrder(s', s);
    SlotKeyInjective(s', s);
  }
}
