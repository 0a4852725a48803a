/**
 The writer's two input lanes: live events before bulk ones, each lane in its
 own order, until every producer has gone.
 */
module Lanes {
  import opened Model
  import opened Store
  import opened IngestSpec
  import opened IngestWorker
  import opened IndexRuns
  import SlotRuns

  /** A channel as its receiver sees it; retired once closed and drained. */
  datatype Lane = Retired | Open(queue: seq<Arrival>, closed: bool)

  datatype Source = Live | Bulk

  /** Some event, or the end of the channel, can be received without waiting. */
  predicate Ready(l: Lane) {
    l.Open? && (l.queue != [] || l.closed)
  }

  function Queued(l: Lane): seq<Arrival> {
    if l.Open? then l.queue else []
  }

  /** No producer of the lane is left. */
  predicate NoProducer(l: Lane) { l.Open? ==> l.closed }

  datatype LanePair = LanePair(live: Lane, bulk: Lane) {
    function Of(s: Source): Lane {
      if s.Live? then live else bulk
    }
    function With(s: Source, l: Lane): LanePair {
      if s.Live? then this.(live := l) else this.(bulk := l)
    }
  }

  /** What one scheduling step comes to. */
  datatype Decision = Apply(from: Source, a: Arrival) | Retire(from: Source) | Wait | Stop

  function Receive(s: Source, l: Lane): Decision
    requires Ready(l)
  {
    if l.queue != [] then Apply(s, l.queue[0]) else Retire(s)
  }

  function Decide(l: LanePair): Decision {
    if Ready(l.live) then Receive(Live, l.live)
    else if Ready(l.bulk) then Receive(Bulk, l.bulk)
    else if l.live.Retired? && l.bulk.Retired? then Stop
    else Wait
  }

  function After(l: LanePair): LanePair {
    match Decide(l)
    case Apply(s, _) => l.With(s, l.Of(s).(queue := l.Of(s).queue[1..]))
    case Retire(s) => l.With(s, Retired)
    case _ => l
  }

  // ---- runs ---------------------------------------------------------------

  /** An event the writer applied, with the number of live events sent by then. */
  datatype Applied = Applied(from: Source, a: Arrival, liveSent: nat)

  /** Producers and writer take turns in any order. */
  datatype Move = Send(to: Source, a: Arrival) | Close(lane: Source) | WriterStep

  datatype World = World(lanes: LanePair, sentLive: seq<Arrival>, sentBulk: seq<Arrival>, trace: seq<Applied>,
      tables: Tables)

  /** Before any event; the bulk lane may not be wired. */
  function Start(bulkWired: bool, t: Tables): World {
    World(LanePair(Open([], false), if bulkWired then Open([], false) else Retired), [], [], [], t)
  }

  /** A send to a closed lane fails and leaves nothing behind. */
  function Do(w: World, m: Move): World {
    match m
    case Send(s, a) =>
      var l := w.lanes.Of(s);
      if l.Retired? || l.closed then w
      else
        var lanes := w.lanes.With(s, l.(queue := l.queue + [a]));
        if s.Live? then w.(lanes := lanes, sentLive := w.sentLive + [a])
        else w.(lanes := lanes, sentBulk := w.sentBulk + [a])
    case Close(s) =>
      var l := w.lanes.Of(s);
      if l.Retired? then w else w.(lanes := w.lanes.With(s, l.(closed := true)))
    case WriterStep =>
      var d := Decide(w.lanes);
      var next := w.(lanes := After(w.lanes));
      if d.Apply? then next.(trace := w.trace + [Applied(d.from, d.a, |w.sentLive|)], tables := Step(w.tables, d.a))
      else next
  }

  function DoAll(w: World, ms: seq<Move>): World {
    if ms == [] then w else Do(DoAll(w, ms[..|ms| - 1]), ms[|ms| - 1])
  }

  /** The events of one lane, in the order they were applied. */
  function From(s: Source, trace: seq<Applied>): seq<Arrival> {
    if trace == [] then []
    else
      var front := From(s, trace[..|trace| - 1]);
      var last := trace[|trace| - 1];
      if last.from == s then front + [last.a] else front
  }

  function Arrivals(trace: seq<Applied>): (q: seq<Arrival>)
    ensures |q| == |trace|
  {
    seq(|trace|, i requires 0 <= i < |trace| => trace[i].a)
  }

  /** When a bulk event was applied, every live event sent by then had been. */
  ghost predicate LiveFirst(trace: seq<Applied>) {
    forall i :: 0 <= i < |trace| && trace[i].from.Bulk? ==> |From(Live, trace[..i])| == trace[i].liveSent
  }

  /** Nothing lost, nothing twice, each lane in order, live first, and the store is what the trace makes it. */
  ghost predicate Faithful(t: Tables, w: World) {
    && From(Live, w.trace) + Queued(w.lanes.live) == w.sentLive
    && From(Bulk, w.trace) + Queued(w.lanes.bulk) == w.sentBulk
    && |From(Live, w.trace)| + |From(Bulk, w.trace)| == |w.trace|
    && LiveFirst(w.trace)
    && w.tables == Run(t, Arrivals(w.trace))
  }

  lemma FromNext(s: Source, trace: seq<Applied>, x: Applied)
    ensures From(s, trace + [x]) == From(s, trace) + (if x.from == s then [x.a] else [])
  {
    assert (trace + [x])[..|trace|] == trace;
  }

  lemma ArrivalsNext(trace: seq<Applied>, x: Applied)
    ensures Arrivals(trace + [x]) == Arrivals(trace) + [x.a]
  {}

  lemma LiveFirstNext(trace: seq<Applied>, x: Applied)
    requires LiveFirst(trace)
    requires x.from.Bulk? ==> |From(Live, trace)| == x.liveSent
    ensures LiveFirst(trace + [x])
  {
    var all := trace + [x];
    forall i | 0 <= i < |all| && all[i].from.Bulk? ensures |From(Live, all[..i])| == all[i].liveSent {
      if i < |trace| { assert all[..i] == trace[..i] && all[i] == trace[i]; } else { assert all[..i] == trace; }
    }
  }

  lemma RunNext(t: Tables, q: seq<Arrival>, a: Arrival)
    ensures Run(t, q + [a]) == Step(Run(t, q), a)
  {
    assert (q + [a])[..|q|] == q;
  }

  lemma HeadMoves(front: seq<Arrival>, x: Arrival, back: seq<Arrival>)
    ensures (front + [x]) + back == front + ([x] + back)
  {}

  lemma ApplyFaithful(t: Tables, w: World)
    requires Faithful(t, w) && Decide(w.lanes).Apply?
    ensures Faithful(t, Do(w, WriterStep))
  {
    var d := Decide(w.lanes);
    var x := Applied(d.from, d.a, |w.sentLive|);
    var w' := Do(w, WriterStep);
    assert w' == World(After(w.lanes), w.sentLive, w.sentBulk, w.trace + [x], Step(w.tables, d.a));
    AppliedIsHead(w.lanes);
    hide *;
    FromNext(Live, w.trace, x);
    FromNext(Bulk, w.trace, x);
    HeadMoves(From(Live, w.trace), d.a, Queued(After(w.lanes).live));
    HeadMoves(From(Bulk, w.trace), d.a, Queued(After(w.lanes).bulk));
    FaithfulIs(t, w);
    ArrivalsNext(w.trace, x);
    RunNext(t, Arrivals(w.trace), d.a);
    assert x.from.Bulk? ==> w.sentLive == From(Live, w.trace);
    LiveFirstNext(w.trace, x);
    FaithfulIs(t, w');
  }

  lemma FaithfulIs(t: Tables, w: World)
    ensures Faithful(t, w) <==>
      && From(Live, w.trace) + Queued(w.lanes.live) == w.sentLive
      && From(Bulk, w.trace) + Queued(w.lanes.bulk) == w.sentBulk
      && |From(Live, w.trace)| + |From(Bulk, w.trace)| == |w.trace|
      && LiveFirst(w.trace)
      && w.tables == Run(t, Arrivals(w.trace))
  {}

  /** The event applied is the head of its lane; a bulk one only when the live lane holds none. */
  lemma AppliedIsHead(l: LanePair)
    requires Decide(l).Apply?
    ensures var d := Decide(l);
      && (d.from.Live? ==> Queued(l.live) == [d.a] + Queued(After(l).live) && Queued(After(l).bulk) == Queued(l.bulk))
      && (d.from.Bulk? ==> Queued(l.live) == Queued(After(l).live) == [])
      && (d.from.Bulk? ==> Queued(l.bulk) == [d.a] + Queued(After(l).bulk))
  {
    var q := l.Of(Decide(l).from).queue;
    assert q == [Decide(l).a] + q[1..];
  }

  lemma DoFaithful(t: Tables, w: World, m: Move)
    requires Faithful(t, w)
    ensures Faithful(t, Do(w, m))
  {
    hide Step, Run, LiveFirst, Arrivals, From;
    if m.WriterStep? && Decide(w.lanes).Apply? {
      ApplyFaithful(t, w);
    }
  }

  /** Every run of producers and writer, from any store. */
  lemma {:induction false} RunsAreFaithful(bulkWired: bool, t: Tables, ms: seq<Move>)
    ensures Faithful(t, DoAll(Start(bulkWired, t), ms))
  {
    if ms != [] {
      RunsAreFaithful(bulkWired, t, ms[..|ms| - 1]);
      DoFaithful(t, DoAll(Start(bulkWired, t), ms[..|ms| - 1]), ms[|ms| - 1]);
    }
  }

  /** The lanes are only ever a source of events: a run keeps every index exact. */
  lemma RunsStayValid(bulkWired: bool, t: Tables, ms: seq<Move>)
    requires Valid(t)
    ensures Valid(DoAll(Start(bulkWired, t), ms).tables)
  {
    RunsAreFaithful(bulkWired, t, ms);
    RunValid(t, Arrivals(DoAll(Start(bulkWired, t), ms).trace));
  }

  // ---- shutdown -----------------------------------------------------------

  function LaneSteps(l: Lane): nat {
    if l.Open? then |l.queue| + 1 else 0
  }

  /** With no producer left, the writer neither waits nor stops early: every step uses one of the steps due. */
  lemma ClosingStep(l: LanePair)
    requires NoProducer(l.live) && NoProducer(l.bulk)
    ensures Decide(l) != Wait
    ensures Decide(l) == Stop <==> LaneSteps(l.live) + LaneSteps(l.bulk) == 0
    ensures Decide(l) == Stop ==> After(l) == l && l.live.Retired? && l.bulk.Retired?
    ensures NoProducer(After(l).live) && NoProducer(After(l).bulk)
    ensures Decide(l) != Stop ==>
              LaneSteps(After(l).live) + LaneSteps(After(l).bulk) + 1 == LaneSteps(l.live) + LaneSteps(l.bulk)
  {}

  /** What is left, in the order it will be applied. */
  function Remaining(l: LanePair): seq<Arrival> { Queued(l.live) + Queued(l.bulk) }

  lemma ClosingOrder(l: LanePair)
    requires NoProducer(l.live)
    ensures match Decide(l)
            case Apply(_, a) => Remaining(l) == [a] + Remaining(After(l))
            case _ => Remaining(l) == Remaining(After(l))
  {}

  /** The worker with its lanes. */
  class Writer {
    const ingest: Ingest
    var liveRx: Lane
    var bulkRx: Lane

    constructor (ingest: Ingest)
      ensures this.ingest == ingest && liveRx == Open([], false) && bulkRx == Retired
    {
      this.ingest := ingest;
      liveRx, bulkRx := Open([], false), Retired;
    }

    function Lanes(): LanePair
      reads this
    {
      LanePair(liveRx, bulkRx)
    }

    /** One scheduling decision; called when one can be taken without waiting. */
    method StepOnce() returns (more: bool)
      requires Decide(Lanes()) != Wait
      modifies this, ingest.db
      ensures Lanes() == After(old(Lanes()))
      ensures more <==> old(Decide(Lanes())) != Stop
      ensures var d := old(Decide(Lanes()));
              ingest.db.inner == if d.Apply? then Step(old(ingest.db.inner), d.a) else old(ingest.db.inner)
      ensures old(Valid(ingest.db.inner)) ==> Valid(ingest.db.inner)
    {
      hide Step, Valid;
      if Ready(liveRx) {
        if liveRx.queue != [] {
          var ev := liveRx.queue[0];
          liveRx := liveRx.(queue := liveRx.queue[1..]);
          ingest.Handle(ev);
        } else {
          liveRx := Retired;
        }
      } else if Ready(bulkRx) {
        if bulkRx.queue != [] {
          var ev := bulkRx.queue[0];
          bulkRx := bulkRx.(queue := bulkRx.queue[1..]);
          ingest.Handle(ev);
        } else {
          bulkRx := Retired;
        }
      } else {
        return false;
      }
      return true;
    }

    /**
     The worker's loop once its producers are gone: all live events, then all bulk ones, one step each, plus
     one per open lane.
     */
    method RunToEnd() returns (steps: nat)
      requires NoProducer(liveRx) && NoProducer(bulkRx)
      modifies this, ingest.db
      ensures liveRx == bulkRx == Retired
      ensures steps == old(LaneSteps(liveRx) + LaneSteps(bulkRx))
      ensures ingest.db.inner == Run(old(ingest.db.inner), old(Queued(liveRx) + Queued(bulkRx)))
      ensures old(Valid(ingest.db.inner)) ==> Valid(ingest.db.inner)
    {
      hide Step, Valid, Run, Decide, After, Ready;
      steps := 0;
      ghost var done: seq<Arrival> := [];
      ghost var all := Remaining(Lanes());
      ClosingStep(Lanes());
      NothingRun(old(ingest.db.inner));
      var more := true;
      while more
        invariant NoProducer(liveRx) && NoProducer(bulkRx)
        invariant steps + LaneSteps(liveRx) + LaneSteps(bulkRx) == old(LaneSteps(liveRx) + LaneSteps(bulkRx))
        invariant !more ==> liveRx == bulkRx == Retired
        invariant done + Remaining(Lanes()) == all
        invariant ingest.db.inner == Run(old(ingest.db.inner), done)
        invariant old(Valid(ingest.db.inner)) ==> Valid(ingest.db.inner)
        decreases more, LaneSteps(liveRx) + LaneSteps(bulkRx)
      {
        var d := Decide(Lanes());
        ClosingStep(Lanes());
        ClosingOrder(Lanes());
        more := StepOnce();
        if d.Apply? {
          RunNext(old(ingest.db.inner), done, d.a);
          done := done + [d.a];
        }
        if more {
          steps := steps + 1;
        }
      }
      NoneRemain(Lanes());
      assert done == all;
    }

    lemma NothingRun(t: Tables)
      ensures Run(t, []) == t
    {}

    lemma NoneRemain(l: LanePair)
      requires l.live.Retired? && l.bulk.Retired?
      ensures Remaining(l) == []
    {}
  }
}
