/**
 What the fields of an async message come to after a slot's pool changes and after
 its transfers: the last change to give a field wins, transfers only fill gaps.
 */
module AsyncRows {
  import opened ByteStrings
  import opened Ids
  import opened Model
  import opened IngestSpec
  import opened Lifecycles

  // ---- pool changes: last wins --------------------------------------------

  /** What the last of `es` to give anything gives. */
  function LastGiven<T>(es: seq<AsyncPoolEntry>, gives: AsyncPoolEntry -> Option<T>): Option<T> {
    if es == [] then None
    else
      var later := LastGiven(es[1..], gives);
      if later.Some? then later else gives(es[0])
  }

  /** A SET gives a field outright, an UPDATE if it carries it, a DELETE never. */
  function Given<T>(k: Bytes, e: AsyncPoolEntry, bySet: AsyncMessage -> T,
                    byUpdate: AsyncUpdate -> Option<T>): Option<T> {
    if e.id != k then None
    else
      match e.change
      case SetMsg(Some(m)) => Some(bySet(m))
      case UpdateMsg(Some(u)) => byUpdate(u)
      case _ => None
  }

  function GivenSender(k: Bytes): AsyncPoolEntry -> Option<Option<Address>> {
    e => Given(k, e, (m: AsyncMessage) => m.sender.Ok(),
               (u: AsyncUpdate) => if u.sender.Some? then Some(u.sender.value.Ok()) else None)
  }

  function GivenDestination(k: Bytes): AsyncPoolEntry -> Option<Option<Address>> {
    e => Given(k, e, (m: AsyncMessage) => m.destination.Ok(),
               (u: AsyncUpdate) => if u.destination.Some? then Some(u.destination.value.Ok()) else None)
  }

  function GivenCoins(k: Bytes): AsyncPoolEntry -> Option<U64> {
    e => Given(k, e, (m: AsyncMessage) => m.coins, (u: AsyncUpdate) => u.coins)
  }

  function FieldAt(fields: map<AsyncField, Payload>, f: AsyncField): Option<Payload> {
    if f in fields then Some(fields[f]) else None
  }

  function GivenField(k: Bytes, f: AsyncField): AsyncPoolEntry -> Option<Option<Payload>> {
    e => Given(k, e, (m: AsyncMessage) => FieldAt(m.fields, f),
               (u: AsyncUpdate) => if f in u.fields then Some(u.fields[f]) else None)
  }

  /** The pool change touches message `k`. */
  predicate Touches(k: Bytes, e: AsyncPoolEntry) {
    && e.id == k
    && match e.change
       case SetMsg(created) => created.Some?
       case UpdateMsg(updated) => updated.Some?
       case DeleteMsg => true
       case NoChange => false
  }

  function Or<T>(given: Option<T>, before: T): T {
    if given.Some? then given.value else before
  }

  /** The fields of a message that has no row yet. */
  function SenderOf(p: Option<StoredAsyncMsg>): Option<Address> { if p.Some? then p.value.sender else None }
  function DestinationOf(p: Option<StoredAsyncMsg>): Option<Address> { if p.Some? then p.value.destination else None }
  function CoinsOf(p: Option<StoredAsyncMsg>): U64 { if p.Some? then p.value.coins else 0 }
  function FieldOf(p: Option<StoredAsyncMsg>, f: AsyncField): Option<Payload> {
    if p.Some? then FieldAt(p.value.fields, f) else None
  }

  /** After a slot's pool changes each field is what the last change to give it gave, or what it was before. */
  lemma {:induction false} PoolLastWins(p: Option<StoredAsyncMsg>, k: Bytes, es: seq<AsyncPoolEntry>, slot: Slot,
                                        now: int)
    requires k != []
    ensures var q := ChangeRows(p, k, es, slot, now);
      && (q.Some? <==> p.Some? || exists e :: e in es && Touches(k, e))
      && SenderOf(q) == Or(LastGiven(es, GivenSender(k)), SenderOf(p))
      && DestinationOf(q) == Or(LastGiven(es, GivenDestination(k)), DestinationOf(p))
      && CoinsOf(q) == Or(LastGiven(es, GivenCoins(k)), CoinsOf(p))
      && forall f :: FieldOf(q, f) == Or(LastGiven(es, GivenField(k, f)), FieldOf(p, f))
    decreases |es|
  {
    if es != [] {
      var p1 := ChangeRow(p, k, es[0], slot, now);
      OneChange(p, k, es[0], slot, now);
      PoolLastWins(p1, k, es[1..], slot, now);
      hide ChangeRow, Touches, GivenSender, GivenDestination, GivenCoins, GivenField, SenderOf, DestinationOf;
      hide CoinsOf, FieldOf;
      assert (exists e :: e in es && Touches(k, e))
        <==> Touches(k, es[0]) || exists e :: e in es[1..] && Touches(k, e)
      by {
        assert es == [es[0]] + es[1..];
      }
    }
  }

  lemma OneChange(p: Option<StoredAsyncMsg>, k: Bytes, e: AsyncPoolEntry, slot: Slot, now: int)
    requires k != []
    ensures var q := ChangeRow(p, k, e, slot, now);
      && (q.Some? <==> p.Some? || Touches(k, e))
      && SenderOf(q) == Or(GivenSender(k)(e), SenderOf(p))
      && DestinationOf(q) == Or(GivenDestination(k)(e), DestinationOf(p))
      && CoinsOf(q) == Or(GivenCoins(k)(e), CoinsOf(p))
      && forall f :: FieldOf(q, f) == Or(GivenField(k, f)(e), FieldOf(p, f))
  {}

  /** A SET makes a message pending, a DELETE consumes it. */
  function GivenState(k: Bytes): AsyncPoolEntry -> Option<AsyncMsgState> {
    (e: AsyncPoolEntry) =>
      if SetsMsg(k, e) then Some(AsyncMsgState.Pending)
      else if e.id == k && e.change.DeleteMsg? then Some(AsyncMsgState.Consumed)
      else None
  }

  predicate SetsMsg(k: Bytes, e: AsyncPoolEntry) {
    e.id == k && e.change.SetMsg? && e.change.created.Some?
  }

  function StateOf(p: Option<StoredAsyncMsg>): AsyncMsgState { if p.Some? then p.value.state else Pending }

  /**
   The last SET or DELETE decides the state, unless the message was executed or
   cancelled and no SET comes; what touches it moves its last slot; the first sighting stays.
   */
  lemma {:induction false} PoolStates(p: Option<StoredAsyncMsg>, k: Bytes, es: seq<AsyncPoolEntry>, slot: Slot,
                                      now: int)
    requires k != []
    ensures var q := ChangeRows(p, k, es, slot, now);
      var frozen := Settled(p).Some? && !exists e :: e in es && SetsMsg(k, e);
      && StateOf(q) == (if frozen then StateOf(p) else Or(LastGiven(es, GivenState(k)), StateOf(p)))
      && ((exists e :: e in es && Touches(k, e)) ==> q.Some? && q.value.lastSlot == Some(slot))
      && (!(exists e :: e in es && Touches(k, e)) ==> q == p)
      && (p.None? && q.Some? ==> q.value.firstSeen == now)
      && (p.Some? ==> q.Some? && (q.value.firstSeen == p.value.firstSeen
                                  || (p.value.firstSeen == 0 && q.value.firstSeen == now)))
    decreases |es|
  {
    if es != [] {
      var p1 := ChangeRow(p, k, es[0], slot, now);
      OneState(p, k, es[0], slot, now);
      PoolStates(p1, k, es[1..], slot, now);
      hide ChangeRow, Touches, SetsMsg, Settled, StateOf;
      SomeAmong(es, e => Touches(k, e));
      SomeAmong(es, e => SetsMsg(k, e));
      if exists e :: e in es[1..] && SetsMsg(k, e) { SomethingGiven(es[1..], GivenState(k)); }
    }
  }

  lemma {:induction false} SomethingGiven<T>(es: seq<AsyncPoolEntry>, gives: AsyncPoolEntry -> Option<T>)
    ensures LastGiven(es, gives).Some? <==> exists e :: e in es && gives(e).Some?
    decreases |es|
  {
    if es != [] {
      SomethingGiven(es[1..], gives);
      SomeAmong(es, e => gives(e).Some?);
    }
  }

  lemma SomeAmong(es: seq<AsyncPoolEntry>, p: AsyncPoolEntry -> bool)
    requires es != []
    ensures (exists e :: e in es && p(e)) <==> p(es[0]) || exists e :: e in es[1..] && p(e)
  {
    assert es == [es[0]] + es[1..];
  }

  lemma OneState(p: Option<StoredAsyncMsg>, k: Bytes, e: AsyncPoolEntry, slot: Slot, now: int)
    requires k != []
    ensures var q := ChangeRow(p, k, e, slot, now);
      && StateOf(q) == (if Settled(p).Some? && !SetsMsg(k, e) then StateOf(p) else Or(GivenState(k)(e), StateOf(p)))
      && (SetsMsg(k, e) ==> GivenState(k)(e).Some?)
      && (Settled(p).None? || SetsMsg(k, e) ==> Settled(q).None?)
      && (Settled(p).Some? && !SetsMsg(k, e) ==> Settled(q) == Settled(p))
      && (if Touches(k, e) then q.Some? && q.value.lastSlot == Some(slot) else q == p)
      && (p.None? && q.Some? ==> q.value.firstSeen == now)
      && (p.Some? ==> q.Some? && (q.value.firstSeen == p.value.firstSeen
                                  || (p.value.firstSeen == 0 && q.value.firstSeen == now)))
  {}

  // ---- transfers: first fills ---------------------------------------------

  /** The transfer settles message `k` one way or the other. */
  predicate Settles(k: Bytes, r: StoredTransfer) {
    r.asyncMsgId == Some(k) && (r.origin.AsyncMsgCoins? || r.origin.AsyncMsgCancel?)
  }

  /** What the first transfer about `k` to give anything gives. */
  function FirstGiven<T>(k: Bytes, rs: seq<StoredTransfer>, gives: StoredTransfer -> Option<T>): Option<T> {
    if rs == [] then None
    else if Settles(k, rs[0]) && gives(rs[0]).Some? then gives(rs[0])
    else FirstGiven(k, rs[1..], gives)
  }

  function ParsedFrom(r: StoredTransfer): Option<Address> { OkOf(r.from) }
  function ParsedTo(r: StoredTransfer): Option<Address> { OkOf(r.to) }
  /** Coins that arrive mean the message ran, coins that go back that it was cancelled. */
  function Outcome(r: StoredTransfer): Option<AsyncMsgState> {
    if r.origin.AsyncMsgCoins? then Some(AsyncMsgState.Executed)
    else if r.origin.AsyncMsgCancel? then Some(AsyncMsgState.Cancelled)
    else None
  }
  function Moved(r: StoredTransfer): Option<U64> {
    if r.value.Coins? && r.value.nmas != 0 then Some(r.value.nmas) else None
  }

  /** The settled state on record, if the message is settled. */
  function Settled(p: Option<StoredAsyncMsg>): Option<AsyncMsgState> {
    if p.Some? && Classified(p.value.state) then Some(p.value.state) else None
  }

  function OrElse<T>(have: Option<T>, given: Option<T>): Option<T> {
    if have.Some? then have else given
  }

  /** After a slot's transfers each gap is filled by the first transfer that could, and the first outcome stands. */
  lemma {:induction false} TransfersFillGaps(p: Option<StoredAsyncMsg>, k: Bytes, rs: seq<StoredTransfer>, slot: Slot,
                                             now: int)
    ensures var q := ReconcileRows(p, k, rs, slot, now);
      && (q.Some? <==> p.Some? || exists r :: r in rs && Settles(k, r))
      && SenderOf(q) == OrElse(SenderOf(p), FirstGiven(k, rs, ParsedFrom))
      && DestinationOf(q) == OrElse(DestinationOf(p), FirstGiven(k, rs, ParsedTo))
      && CoinsOf(q) == (if CoinsOf(p) != 0 then CoinsOf(p) else Or(FirstGiven(k, rs, Moved), 0))
      && Settled(q) == OrElse(Settled(p), FirstGiven(k, rs, Outcome))
      && forall f :: FieldOf(q, f) == FieldOf(p, f)
    decreases |rs|
  {
    if rs != [] {
      var p1 := ReconcileRow(p, k, rs[0], slot, now);
      OneTransfer(p, k, rs[0], slot, now);
      hide ReconcileRow, Settles, SenderOf, DestinationOf, CoinsOf, FieldOf, Settled, ParsedFrom, ParsedTo, Outcome;
      hide Moved;
      TransfersFillGaps(p1, k, rs[1..], slot, now);
      assert (exists r :: r in rs && Settles(k, r))
        <==> Settles(k, rs[0]) || exists r :: r in rs[1..] && Settles(k, r)
      by {
        assert rs == [rs[0]] + rs[1..];
      }
    }
  }

  lemma OneTransfer(p: Option<StoredAsyncMsg>, k: Bytes, r: StoredTransfer, slot: Slot, now: int)
    ensures var q := ReconcileRow(p, k, r, slot, now);
      && (q.Some? <==> p.Some? || Settles(k, r))
      && SenderOf(q) == OrElse(SenderOf(p), if Settles(k, r) then ParsedFrom(r) else None)
      && DestinationOf(q) == OrElse(DestinationOf(p), if Settles(k, r) then ParsedTo(r) else None)
      && CoinsOf(q) == (if CoinsOf(p) != 0 then CoinsOf(p) else Or(if Settles(k, r) then Moved(r) else None, 0))
      && Settled(q) == OrElse(Settled(p), if Settles(k, r) then Outcome(r) else None)
      && forall f :: FieldOf(q, f) == FieldOf(p, f)
  {}

  // ---- what a transfers message does to a message -------------------------

  /** Row `i` is the first to settle message `k`. */
  predicate FirstSettles(rs: seq<StoredTransfer>, k: Bytes, i: int) {
    0 <= i < |rs| && Settles(k, rs[i]) && forall j :: 0 <= j < i ==> !Settles(k, rs[j])
  }

  lemma {:induction false} FirstOutcome(k: Bytes, rs: seq<StoredTransfer>)
    ensures FirstGiven(k, rs, Outcome).None? <==> forall i :: 0 <= i < |rs| ==> !Settles(k, rs[i])
    ensures forall i :: FirstSettles(rs, k, i) ==> FirstGiven(k, rs, Outcome) == Outcome(rs[i])
    ensures FirstGiven(k, rs, Outcome).Some? ==> exists i :: FirstSettles(rs, k, i)
    decreases |rs|
  {
    if rs != [] {
      var rest := rs[1..];
      FirstOutcome(k, rest);
      if Settles(k, rs[0]) {
        assert FirstSettles(rs, k, 0);
      } else {
        forall i ensures FirstSettles(rs, k, i) <==> FirstSettles(rest, k, i - 1) {
          hide Settles;
          assert forall j :: 0 <= j < |rest| ==> rs[j + 1] == rest[j];
          if FirstSettles(rs, k, i) {
            forall j | 0 <= j < i - 1 ensures !Settles(k, rest[j]) { assert rs[j + 1] == rest[j]; }
          }
          if FirstSettles(rest, k, i - 1) {
            forall j | 0 <= j < i ensures !Settles(k, rs[j]) { if j > 0 { assert rs[j] == rest[j - 1]; } }
          }
        }
        if FirstGiven(k, rest, Outcome).Some? {
          var i :| FirstSettles(rest, k, i);
          assert FirstSettles(rs, k, (i + 1));
        }
      }
    }
  }

  lemma {:induction false} NothingSettles(p: Option<StoredAsyncMsg>, k: Bytes, rs: seq<StoredTransfer>, slot: Slot,
                                          now: int)
    ensures (forall i :: 0 <= i < |rs| ==> !Settles(k, rs[i])) ==> ReconcileRows(p, k, rs, slot, now) == p
    decreases |rs|
  {
    if rs != [] && !Settles(k, rs[0]) {
      NothingSettles(p, k, rs[1..], slot, now);
      assert ReconcileRow(p, k, rs[0], slot, now) == p;
    }
  }

  /** A transfer that settles a message moves its last slot; the first sighting stays. */
  lemma {:induction false} TransfersMark(p: Option<StoredAsyncMsg>, k: Bytes, rs: seq<StoredTransfer>, slot: Slot,
                                         now: int)
    ensures var q := ReconcileRows(p, k, rs, slot, now);
      && ((exists i :: 0 <= i < |rs| && Settles(k, rs[i])) ==> q.Some? && q.value.lastSlot == Some(slot))
      && (q.Some? ==> q.value.firstSeen == if p.Some? then p.value.firstSeen else now)
    decreases |rs|
  {
    if rs != [] {
      var p1 := ReconcileRow(p, k, rs[0], slot, now);
      assert Settles(k, rs[0]) ==> p1.Some? && p1.value.lastSlot == Some(slot);
      TransfersMark(p1, k, rs[1..], slot, now);
      NothingSettles(p1, k, rs[1..], slot, now);
      assert forall i :: 0 < i < |rs| ==> rs[i] == rs[1..][i - 1];
    }
  }
}
