/** The concurrency slots of pkg/server/server.go: any number of requests, each a goroutine in
    ServeHTTP, over one channel of fixed capacity. A step is one goroutine's move. */
module Slots {
  import opened Prelude
  import Ingress

  /** Where a request is. `Ready` tries the channel without waiting, `Waiting` is blocked on it, `Holding`
      reads, parses, answers and enqueues under the slot, `Leaving` runs the deferred release. */
  datatype Phase = Arrived | Ready | Waiting | Holding | Leaving | Serving | Done

  /** A request with how often it has taken and given back a slot and been counted as throttled. */
  datatype Request = Request(stream: Ingress.Stream, phase: Phase, acquired: nat, released: nat, throttled: nat)

  /** The channel's occupancy, RequestsThrottledTotal, and the requests so far. */
  datatype State = State(slots: nat, throttled: nat, reqs: seq<Request>)

  /** The channel's capacity, and OneFS's heartbeat action told from a decoded document. */
  datatype Server = Server(max: nat, heartbeat: bytes -> bool)

  /** NewHandler with the configured limit; zero and below mean eight. */
  function NewServer(configured: int, heartbeat: bytes -> bool): (v: Server)
    ensures v.max >= 1 && (configured >= 1 ==> v.max == configured) && v.heartbeat == heartbeat
  {
    Server(if configured <= 0 then 8 else configured, heartbeat)
  }

  datatype Step = Arrive(stream: Ingress.Stream) | Move(i: nat)

  predicate NeedsSlot(v: Server, r: Request) { Ingress.NeedsSlot(r.stream, v.heartbeat) }

  /** Whether a request can move: only a full channel keeps one waiting, only an empty one would keep a
      release waiting. */
  predicate CanMove(v: Server, slots: nat, r: Request) {
    match r.phase
    case Waiting => slots < v.max
    case Leaving => slots > 0
    case Done => false
    case _ => true
  }

  predicate Enabled(v: Server, s: State, step: Step) {
    step.Move? ==> step.i < |s.reqs| && CanMove(v, s.slots, s.reqs[step.i])
  }

  /** The request after its move. */
  function Moved(v: Server, slots: nat, r: Request): Request
    requires CanMove(v, slots, r)
  {
    match r.phase
    case Arrived => r.(phase := if NeedsSlot(v, r) then Ready else Serving)
    case Ready =>
      if slots < v.max then r.(phase := Holding, acquired := r.acquired + 1)
      else r.(phase := Waiting, throttled := r.throttled + 1)
    case Waiting => r.(phase := Holding, acquired := r.acquired + 1)
    case Holding => r.(phase := Leaving)
    case Leaving => r.(phase := Done, released := r.released + 1)
    case Serving => r.(phase := Done)
  }

  function Apply(v: Server, s: State, step: Step): State
    requires Enabled(v, s, step)
  {
    match step
    case Arrive(stream) => s.(reqs := s.reqs + [Request(stream, Arrived, 0, 0, 0)])
    case Move(i) =>
      var r := s.reqs[i];
      var m := Moved(v, s.slots, r);
      State(
        if m.acquired > r.acquired then s.slots + 1 else if m.released > r.released then s.slots - 1 else s.slots,
        if m.throttled > r.throttled then s.throttled + 1 else s.throttled,
        s.reqs[i := m])
  }

  predicate CanRun(v: Server, s: State, steps: seq<Step>)
    decreases |steps|
  {
    steps == [] || (Enabled(v, s, steps[0]) && CanRun(v, Apply(v, s, steps[0]), steps[1..]))
  }

  function Run(v: Server, s: State, steps: seq<Step>): State
    requires CanRun(v, s, steps)
    decreases |steps|
  {
    if steps == [] then s else Run(v, Apply(v, s, steps[0]), steps[1..])
  }

  const IDLE := State(0, 0, [])

  ghost predicate Reachable(v: Server, s: State) {
    exists steps :: CanRun(v, IDLE, steps) && Run(v, IDLE, steps) == s
  }

  // ----- the invariant

  predicate Holds(r: Request) { r.phase.Holding? || r.phase.Leaving? }

  function Holder(r: Request): nat { if Holds(r) then 1 else 0 }
  function Throttles(r: Request): nat { r.throttled }

  /** What a request has done with slots so far is settled by where it is. */
  predicate RequestOk(v: Server, r: Request) {
    && r.throttled <= 1
    && match r.phase
       case Arrived => r.acquired == 0 && r.released == 0 && r.throttled == 0
       case Ready => NeedsSlot(v, r) && r.acquired == 0 && r.released == 0 && r.throttled == 0
       case Waiting => NeedsSlot(v, r) && r.acquired == 0 && r.released == 0 && r.throttled == 1
       case Holding => NeedsSlot(v, r) && r.acquired == 1 && r.released == 0
       case Leaving => NeedsSlot(v, r) && r.acquired == 1 && r.released == 0
       case Serving => !NeedsSlot(v, r) && r.acquired == 0 && r.released == 0 && r.throttled == 0
       case Done =>
         if NeedsSlot(v, r) then r.acquired == 1 && r.released == 1
         else r.acquired == 0 && r.released == 0 && r.throttled == 0
  }

  predicate AllOk(v: Server, reqs: seq<Request>) {
    forall i :: 0 <= i < |reqs| ==> RequestOk(v, reqs[i])
  }

  predicate Inv(v: Server, s: State) {
    && AllOk(v, s.reqs)
    && s.slots == Weigh(s.reqs, Holder) <= v.max
    && s.throttled == Weigh(s.reqs, Throttles)
    && (s.throttled > 0 ==> |s.reqs| > v.max)
  }

  lemma ArriveKeeps(v: Server, s: State, stream: Ingress.Stream)
    requires Inv(v, s)
    ensures Inv(v, Apply(v, s, Arrive(stream)))
  {
    var r := Request(stream, Arrived, 0, 0, 0);
    WeighSnoc(s.reqs, r, Holder);
    WeighSnoc(s.reqs, r, Throttles);
  }

  lemma MovedOk(v: Server, slots: nat, r: Request)
    requires RequestOk(v, r) && CanMove(v, slots, r)
    ensures RequestOk(v, Moved(v, slots, r))
  {}

  lemma MoveKeeps(v: Server, s: State, i: nat)
    requires Inv(v, s) && Enabled(v, s, Move(i))
    ensures Inv(v, Apply(v, s, Move(i)))
  {
    var m := Moved(v, s.slots, s.reqs[i]);
    MovedOk(v, s.slots, s.reqs[i]);
    WeighUpdate(s.reqs, i, m, Holder);
    WeighUpdate(s.reqs, i, m, Throttles);
    if !Holds(s.reqs[i]) {
      OneWithout(s.reqs, i);
    }
  }

  /** A request without a slot leaves at most the others to hold one. */
  lemma OneWithout(reqs: seq<Request>, i: nat)
    requires i < |reqs| && !Holds(reqs[i])
    ensures Weigh(reqs, Holder) < |reqs|
  {
    var r := reqs[i].(phase := Holding);
    WeighUpdate(reqs, i, r, Holder);
    WeighBound(reqs[i := r], Holder, 1);
  }

  lemma {:induction false} RunKeeps(v: Server, s: State, steps: seq<Step>)
    requires Inv(v, s) && CanRun(v, s, steps)
    ensures Inv(v, Run(v, s, steps))
    decreases |steps|
  {
    if steps != [] {
      match steps[0] {
        case Arrive(stream) => ArriveKeeps(v, s, stream);
        case Move(i) => MoveKeeps(v, s, i);
      }
      RunKeeps(v, Apply(v, s, steps[0]), steps[1..]);
    }
  }

  lemma ReachableInv(v: Server, s: State)
    requires Reachable(v, s)
    ensures Inv(v, s)
  {
    var steps :| CanRun(v, IDLE, steps) && Run(v, IDLE, steps) == s;
    RunKeeps(v, IDLE, steps);
  }

  lemma {:induction false} SomeHolder(reqs: seq<Request>, i: nat)
    requires i < |reqs| && Holds(reqs[i])
    ensures Weigh(reqs, Holder) >= 1
  {
    if i > 0 {
      SomeHolder(reqs[1..], i - 1);
    }
  }

  lemma {:induction false} FindHolder(reqs: seq<Request>) returns (i: nat)
    requires Weigh(reqs, Holder) >= 1
    ensures i < |reqs| && Holds(reqs[i])
  {
    if Holds(reqs[0]) {
      i := 0;
    } else {
      i := FindHolder(reqs[1..]);
      i := i + 1;
    }
  }

  // ----- the theorems

  /** Over all interleavings: the slots taken are exactly those of the requests holding one, never more
      than the limit; no release ever waits; and the throttle count is one per request that found the
      channel full. */
  lemma SlotsBounded(v: Server, s: State)
    requires Reachable(v, s)
    ensures s.slots == Weigh(s.reqs, Holder) <= v.max
    ensures forall i :: 0 <= i < |s.reqs| && s.reqs[i].phase.Leaving? ==> Enabled(v, s, Move(i))
    ensures s.throttled == Weigh(s.reqs, Throttles)
    ensures forall i :: 0 <= i < |s.reqs| ==> s.reqs[i].throttled <= 1
  {
    ReachableInv(v, s);
    forall i | 0 <= i < |s.reqs| && s.reqs[i].phase.Leaving? ensures Enabled(v, s, Move(i)) {
      SomeHolder(s.reqs, i);
    }
  }

  /** A request is made to wait, and counted for it, exactly when the channel is full as it tries; one that
      finds a free slot takes it uncounted. */
  lemma ThrottledIffFull(v: Server, s: State, i: nat)
    requires Reachable(v, s) && i < |s.reqs| && s.reqs[i].phase.Ready?
    ensures var t := Apply(v, s, Move(i));
      if Weigh(s.reqs, Holder) < v.max
      then t.reqs[i].phase.Holding? && t.reqs[i].throttled == 0 && t.throttled == s.throttled
      else t.reqs[i].phase.Waiting? && t.reqs[i].throttled == 1 && t.throttled == s.throttled + 1
  {
    ReachableInv(v, s);
    assert RequestOk(v, s.reqs[i]);
  }

  /** So with no more requests than slots nobody is ever throttled. */
  lemma RoomForAll(v: Server, s: State, i: nat)
    requires Reachable(v, s) && |s.reqs| <= v.max && i < |s.reqs|
    ensures s.throttled == 0 && s.reqs[i].throttled == 0 && !s.reqs[i].phase.Waiting?
  {
    ReachableInv(v, s);
    assert RequestOk(v, s.reqs[i]);
    WeighsMember(s.reqs, i);
  }

  lemma {:induction false} WeighsMember(reqs: seq<Request>, i: nat)
    requires i < |reqs|
    ensures reqs[i].throttled <= Weigh(reqs, Throttles)
  {
    if i > 0 {
      WeighsMember(reqs[1..], i - 1);
    }
  }

  lemma DoneOk(v: Server, s: State, i: nat)
    requires Reachable(v, s) && i < |s.reqs| && s.reqs[i].phase.Done?
    ensures s.reqs[i].acquired == s.reqs[i].released == if NeedsSlot(v, s.reqs[i]) then 1 else 0
  {
    ReachableInv(v, s);
    assert RequestOk(v, s.reqs[i]);
  }

  /** A request that has returned never took a slot if it was a liveness payload whole in the probe or
      broke off within it; any other took one exactly once, and gave it back exactly once. */
  lemma ReleasedOnce(v: Server, s: State, i: nat)
    requires Reachable(v, s) && i < |s.reqs| && s.reqs[i].phase.Done?
    ensures var b := s.reqs[i].stream;
      s.reqs[i].acquired == s.reqs[i].released
        == if Ingress.ProbedLive(b, v.heartbeat) || b.FailsWithin(Ingress.PROBE_BYTES + 1) then 0 else 1
  {
    Ingress.NoSlotIff(s.reqs[i].stream, v.heartbeat);
    DoneOk(v, s, i);
  }

  lemma OutsideSlots(v: Server, s: State, i: nat)
    requires Reachable(v, s) && i < |s.reqs| && !NeedsSlot(v, s.reqs[i])
    ensures s.reqs[i].phase in {Arrived, Serving, Done}
    ensures s.reqs[i].acquired == 0 && s.reqs[i].throttled == 0
    ensures !s.reqs[i].phase.Done? ==> Enabled(v, s, Move(i))
  {
    ReachableInv(v, s);
    assert RequestOk(v, s.reqs[i]);
  }

  /** A liveness payload that fits the probe and can be read never waits, is never throttled and never
      holds a slot: until it is answered it can always move, whatever the others do. */
  lemma LivenessNeverWaits(v: Server, s: State, i: nat)
    requires Reachable(v, s) && i < |s.reqs|
    requires Ingress.ProbedLive(s.reqs[i].stream, v.heartbeat)
    ensures s.reqs[i].phase in {Arrived, Serving, Done}
    ensures s.reqs[i].acquired == 0 && s.reqs[i].throttled == 0
    ensures !s.reqs[i].phase.Done? ==> Enabled(v, s, Move(i))
  {
    Ingress.NoSlotIff(s.reqs[i].stream, v.heartbeat);
    OutsideSlots(v, s, i);
  }

  /** As long as a request is unanswered, some request can move. */
  lemma SomeoneMoves(v: Server, s: State, i: nat) returns (j: nat)
    requires v.max >= 1 && Inv(v, s)
    requires i < |s.reqs| && !s.reqs[i].phase.Done?
    ensures Enabled(v, s, Move(j))
  {
    if s.slots == 0 {
      if s.reqs[i].phase.Leaving? {
        SomeHolder(s.reqs, i);
      }
      return i;
    } else {
      j := FindHolder(s.reqs);
    }
  }

  /** The moves a request has left, at most. */
  function Left(r: Request): nat {
    match r.phase
    case Arrived => 5
    case Ready => 4
    case Waiting => 3
    case Holding => 2
    case Leaving => 1
    case Serving => 1
    case Done => 0
  }

  predicate AllDone(s: State) { forall i :: 0 <= i < |s.reqs| ==> s.reqs[i].phase.Done? }

  lemma MoveSpends(v: Server, s: State, i: nat)
    requires Enabled(v, s, Move(i))
    ensures Weigh(Apply(v, s, Move(i)).reqs, Left) < Weigh(s.reqs, Left)
  {
    WeighUpdate(s.reqs, i, Moved(v, s.slots, s.reqs[i]), Left);
  }

  predicate OnlyMoves(steps: seq<Step>) { forall k :: 0 <= k < |steps| ==> steps[k].Move? }

  /** Without new arrivals any run is over after at most five moves a request. */
  lemma {:induction false} RunsEnd(v: Server, s: State, steps: seq<Step>)
    requires CanRun(v, s, steps) && OnlyMoves(steps)
    ensures |steps| + Weigh(Run(v, s, steps).reqs, Left) <= Weigh(s.reqs, Left) <= 5 * |s.reqs|
    decreases |steps|
  {
    WeighBound(s.reqs, Left, 5);
    if steps != [] {
      MoveSpends(v, s, steps[0].i);
      RunsEnd(v, Apply(v, s, steps[0]), steps[1..]);
    }
  }

  lemma RunOn(v: Server, s: State, i: nat, rest: seq<Step>)
    requires Enabled(v, s, Move(i)) && CanRun(v, Apply(v, s, Move(i)), rest)
    ensures CanRun(v, s, [Move(i)] + rest)
    ensures Run(v, s, [Move(i)] + rest) == Run(v, Apply(v, s, Move(i)), rest)
  {
    assert ([Move(i)] + rest)[1..] == rest;
  }

  /** And from every reachable state it can be carried on until every request is answered and all slots
      are free: no request is ever stuck. */
  lemma {:induction false} CanFinish(v: Server, s: State) returns (steps: seq<Step>)
    requires v.max >= 1 && Inv(v, s)
    ensures CanRun(v, s, steps) && OnlyMoves(steps)
    ensures AllDone(Run(v, s, steps)) && Run(v, s, steps).slots == 0
    decreases Weigh(s.reqs, Left)
  {
    if AllDone(s) {
      WeighZero(s.reqs, Holder);
      return [];
    }
    var i: nat :| i < |s.reqs| && !s.reqs[i].phase.Done?;
    var j := SomeoneMoves(v, s, i);
    MoveKeeps(v, s, j);
    MoveSpends(v, s, j);
    var rest := CanFinish(v, Apply(v, s, Move(j)));
    RunOn(v, s, j, rest);
    steps := [Move(j)] + rest;
  }

  lemma AllAnswered(configured: int, heartbeat: bytes -> bool, s: State)
    requires Reachable(NewServer(configured, heartbeat), s)
    ensures var v := NewServer(configured, heartbeat);
      exists steps :: CanRun(v, s, steps) && OnlyMoves(steps) && AllDone(Run(v, s, steps)) && Run(v, s, steps).slots == 0
  {
    var v := NewServer(configured, heartbeat);
    ReachableInv(v, s);
    var steps := CanFinish(v, s);
  }
}
