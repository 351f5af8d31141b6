/** What the batching queue promises, over every interleaving of any number of Enqueue calls, Stop
    calls and workers. */
module QueueTheorems {
  import opened Prelude
  import opened QueueModel
  import opened QueueSafety
  import opened QueueOutcomes

  // ----- conservation

  /** Every call is accepted, refused or not yet answered; every accepted event is in exactly one of the
      channel, a worker's hands, the written and the failed; the counters count those collections. */
  lemma Conservation(s: State)
    requires Reachable(s)
    ensures |s.calls| == |s.h.accepted| + |s.h.refused| + Weigh(s.calls, PendingCall)
    ensures |s.h.accepted| == |s.sh.ch| + Weigh(s.workers, HeldSize) + s.sh.written + s.sh.writerErrors
    ensures s.sh.dropped == |s.h.refused| + s.h.undrained
    ensures forall e: Event ::
      multiset(s.sh.ch)[e] + HeldBy(s.workers)[e] + multiset(s.h.writtenEvents)[e] + multiset(s.h.failedEvents)[e]
      == (if e < |s.calls| && s.calls[e].Accepted() then 1 else 0)
    ensures forall e: Event :: multiset(s.h.refused)[e] == (if e < |s.calls| && s.calls[e].Refused() then 1 else 0)
  {
    ReachableInv(s);
    OutstandingIs(s);
    forall e: Event
      ensures multiset(s.sh.ch)[e] + HeldBy(s.workers)[e] + multiset(s.h.writtenEvents)[e] + multiset(s.h.failedEvents)[e]
        == (if e < |s.calls| && s.calls[e].Accepted() then 1 else 0)
      ensures multiset(s.h.refused)[e] == (if e < |s.calls| && s.calls[e].Refused() then 1 else 0)
    {
      PlacesOf(s, e);
      ListedOnce(s.h.accepted, s.calls, true, e);
      ListedOnce(s.h.refused, s.calls, false, e);
    }
  }

  lemma PlacesOf(s: State, e: Event)
    requires Accounting(s)
    ensures multiset(s.h.accepted)[e]
      == multiset(s.sh.ch)[e] + HeldBy(s.workers)[e] + multiset(s.h.writtenEvents)[e] + multiset(s.h.failedEvents)[e]
  {
    assert multiset(s.h.accepted) == multiset(s.h.taken) + multiset(s.sh.ch);
  }

  lemma ListedOnce(list: seq<Event>, calls: seq<Call>, ok: bool, e: Event)
    requires Lists(list, calls, ok)
    ensures multiset(list)[e] == if e < |calls| && (if ok then calls[e].Accepted() else calls[e].Refused()) then 1 else 0
  {
    DistinctCount(list, e);
  }

  lemma {:induction false} DistinctCount(es: seq<Event>, e: Event)
    requires Distinct(es)
    ensures multiset(es)[e] == if e in es then 1 else 0
  {
    if es != [] {
      var n := |es| - 1;
      assert es == es[..n] + [es[n]];
      DistinctCount(es[..n], e);
    }
  }

  // ----- nobody touches a closed channel

  /** No interleaving panics: a send finds the channel open, and so does the one close. */
  lemma NeverPanics(s: State)
    requires Reachable(s)
    ensures !s.panicked
    ensures forall i: nat :: Enabled(s, CallSelect(i)) ==> !s.sh.chClosed
    ensures forall j: nat :: Enabled(s, StopClose(j)) ==> !s.sh.chClosed
  {
    ReachableInv(s);
    forall i: nat | Enabled(s, CallSelect(i)) ensures !s.sh.chClosed {
      assert CallOk(s.sh.closed, s.calls[i]);
    }
    forall j: nat | Enabled(s, StopClose(j)) ensures !s.sh.chClosed {
      assert StopperOk(s.sh.closed, s.sh.chClosed, s.stops[j]);
    }
  }

  /** Once any Stop call has released the lock, a call that begins is marked late; and a late call is
      never accepted: when it is answered it is in the refused list, once. */
  lemma AfterStopRefused(s: State)
    requires Reachable(s)
    ensures forall j :: 0 <= j < |s.stops| && (s.stops[j].Past() || s.stops[j].Ignored?) ==> s.sh.closed
    ensures s.sh.closed ==> Apply(s, CallEnter).calls[|s.calls|].late
    ensures forall i :: 0 <= i < |s.calls| && s.calls[i].late ==>
      i !in s.h.accepted && multiset(s.h.refused)[i] == (if s.calls[i].Pending() then 0 else 1)
  {
    ReachableInv(s);
    forall j | 0 <= j < |s.stops| && (s.stops[j].Past() || s.stops[j].Ignored?) ensures s.sh.closed {
      assert StopperOk(s.sh.closed, s.sh.chClosed, s.stops[j]);
    }
    forall i | 0 <= i < |s.calls| && s.calls[i].late
      ensures i !in s.h.accepted && multiset(s.h.refused)[i] == (if s.calls[i].Pending() then 0 else 1)
    {
      assert CallOk(s.sh.closed, s.calls[i]);
      DistinctCount(s.h.refused, i);
    }
  }

  // ----- hand-off to the writer

  /** `xs` is `ys` with some elements left out. */
  ghost predicate Subsequence(xs: seq<Event>, ys: seq<Event>)
    decreases |ys|
  {
    xs == [] ||
    (ys != [] &&
     var n := |ys| - 1;
     (Subsequence(xs, ys[..n]) || (xs[|xs| - 1] == ys[n] && Subsequence(xs[..|xs| - 1], ys[..n]))))
  }

  /** Leaving out more leaves a subsequence. */
  lemma {:induction false} SubsequencePart(a: seq<Event>, b: seq<Event>, c: seq<Event>, ys: seq<Event>)
    requires Subsequence(a + b + c, ys)
    ensures Subsequence(b, ys)
    decreases |ys|
  {
    var xs := a + b + c;
    if b != [] {
      var n := |ys| - 1;
      if Subsequence(xs, ys[..n]) {
        SubsequencePart(a, b, c, ys[..n]);
      } else if c != [] {
        assert xs[..|xs| - 1] == a + b + c[..|c| - 1];
        SubsequencePart(a, b, c[..|c| - 1], ys[..n]);
      } else {
        assert xs[..|xs| - 1] == a + b[..|b| - 1] + [];
        SubsequencePart(a, b[..|b| - 1], [], ys[..n]);
      }
    }
  }

  lemma {:induction false} SubsequenceGrow(xs: seq<Event>, ys: seq<Event>, zs: seq<Event>)
    requires Subsequence(xs, ys)
    ensures Subsequence(xs, ys + zs)
    decreases |zs|
  {
    if zs == [] {
      assert ys + zs == ys;
    } else {
      var n := |zs| - 1;
      assert (ys + zs)[..|ys + zs| - 1] == ys + zs[..n];
      SubsequenceGrow(xs, ys, zs[..n]);
    }
  }

  lemma {:induction false} ReceivedSubsequence(taken: seq<Event>, takenBy: seq<nat>, w: nat)
    requires |taken| == |takenBy|
    ensures Subsequence(ReceivedBy(taken, takenBy, w), taken)
    decreases |taken|
  {
    if taken != [] {
      var n := |taken| - 1;
      ReceivedSubsequence(taken[..n], takenBy[..n], w);
      var r := ReceivedBy(taken[..n], takenBy[..n], w);
      if takenBy[n] == w {
        var xs := ReceivedBy(taken, takenBy, w);
        assert xs == r + [taken[n]];
        assert xs[..|xs| - 1] == r && xs[|xs| - 1] == taken[n];
      } else {
        assert ReceivedBy(taken, takenBy, w) == r;
      }
    }
  }

  /** The k-th batch is a stretch of what its worker handed on. */
  lemma {:induction false} BatchStretch(handed: seq<Handed>, k: nat) returns (before: seq<Event>, after: seq<Event>)
    requires k < |handed|
    ensures HandedBy(handed, handed[k].worker) == before + handed[k].batch + after
    decreases |handed|
  {
    var n := |handed| - 1;
    var w := handed[k].worker;
    if k == n {
      before, after := HandedBy(handed[..n], w), [];
    } else {
      before, after := BatchStretch(handed[..n], k);
      after := after + (if handed[n].worker == w then handed[n].batch else []);
    }
  }

  /** Every WriteBatch call gets between 1 and maxBatch events, in the order they were accepted. */
  lemma BatchesInOrder(s: State, k: nat)
    requires Reachable(s) && k < |s.h.handed|
    ensures 1 <= |s.h.handed[k].batch| <= s.cfg.maxBatch
    ensures Subsequence(s.h.handed[k].batch, s.h.accepted)
  {
    ReachableInv(s);
    var x := s.h.handed[k];
    var before, after := BatchStretch(s.h.handed, k);
    var rest := s.workers[x.worker].Unbegun();
    ReceivedSubsequence(s.h.taken, s.h.takenBy, x.worker);
    assert before + x.batch + after + rest == before + x.batch + (after + rest);
    SubsequencePart(before, x.batch, after + rest, s.h.taken);
    SubsequenceGrow(x.batch, s.h.taken, s.sh.ch);
  }

  /** Once every worker of a started queue is gone, nothing accepted is waiting anywhere. */
  lemma NothingLeft(s: State)
    requires Inv(s) && s.started && s.AllExited()
    ensures s.sh.ch == [] && s.h.taken == s.h.accepted
    ensures HeldBy(s.workers) == multiset{} && Weigh(s.workers, HeldSize) == 0
  {
    assert WorkerOk(s.cfg.maxBatch, s.sh.chClosed && s.sh.ch == [], s.workers[0]);
    HeldByNone(s.workers);
    WeighZero(s.workers, HeldSize);
  }

  /** The writer is closed only by a step that finds it never closed, every worker gone and none of the
      accepted events waiting on a started queue; afterwards no worker takes another step. */
  lemma WriterClosedOnce(s: State, j: nat)
    requires Reachable(s) && Enabled(s, CloseWriter(j))
    ensures s.writerCloses == 0 && s.AllExited()
    ensures forall st: Step :: st.ByWorker() ==> !Enabled(s, st) && !Enabled(Apply(s, CloseWriter(j)), st)
    ensures s.started ==> s.sh.ch == [] && |s.h.accepted| == s.sh.written + s.sh.writerErrors
    ensures s.started ==> multiset(s.h.accepted) == multiset(s.h.writtenEvents) + multiset(s.h.failedEvents)
  {
    ReachableInv(s);
    ClosingWriterFindsAllGone(s, j);
    if s.started {
      NothingLeft(s);
      OutstandingIs(s);
    }
  }

  lemma NoWorkerMoves(s: State, st: Step)
    requires s.AllExited() && st.ByWorker()
    ensures !Enabled(s, st)
  {}

  lemma ClosingWriterFindsAllGone(s: State, j: nat)
    requires Inv(s) && Enabled(s, CloseWriter(j))
    ensures s.writerCloses == 0 && s.AllExited()
    ensures forall st: Step :: st.ByWorker() ==> !Enabled(s, st) && !Enabled(Apply(s, CloseWriter(j)), st)
  {
    assert s.stops[j].Owner() && s.doneSignalled;
    var t := Apply(s, CloseWriter(j));
    assert t.workers == s.workers;
    forall st: Step | st.ByWorker() ensures !Enabled(s, st) && !Enabled(t, st) {
      NoWorkerMoves(s, st);
      NoWorkerMoves(t, st);
    }
  }

  lemma ClosedAtMostOnce(s: State)
    requires Reachable(s)
    ensures s.writerCloses <= 1
    ensures s.writerCloses == 1 ==> s.AllExited() && s.sh.chClosed
    ensures s.writerCloses == 1 ==> forall w :: 0 <= w < |s.workers| ==> !s.workers[w].Writing?
  {
    ReachableInv(s);
  }

  /** The counters at a clean end: on a started queue whose writer is about to be closed, every answered
      call is in exactly one of the three totals, save what a timed-out drain reported besides. */
  lemma CountersAtClose(s: State, j: nat)
    requires Reachable(s) && s.started && Enabled(s, CloseWriter(j))
    ensures s.sh.written + s.sh.writerErrors + s.sh.dropped == |s.calls| - Weigh(s.calls, PendingCall) + s.h.undrained
  {
    Conservation(s);
    WriterClosedOnce(s, j);
    WeighZero(s.workers, HeldSize);
  }

  /** When a worker is gone the channel is empty for good, so the batches each worker handed over are
      exactly the events it received; together they are the accepted events. */
  lemma EverythingHandedOver(s: State)
    requires Reachable(s) && s.started && s.AllExited()
    ensures s.h.taken == s.h.accepted
    ensures |s.h.takenBy| == |s.h.accepted|
    ensures forall k :: 0 <= k < |s.h.takenBy| ==> s.h.takenBy[k] < s.cfg.workers
    ensures forall w :: 0 <= w < s.cfg.workers ==>
      HandedBy(s.h.handed, w) == ReceivedBy(s.h.accepted, s.h.takenBy, w)
  {
    ReachableInv(s);
    NothingLeft(s);
  }

  lemma {:induction false} AllReceivedByOne(taken: seq<Event>, takenBy: seq<nat>)
    requires |taken| == |takenBy| && forall k :: 0 <= k < |takenBy| ==> takenBy[k] == 0
    ensures ReceivedBy(taken, takenBy, 0) == taken
    decreases |taken|
  {
    if taken != [] {
      AllReceivedByOne(taken[..|taken| - 1], takenBy[..|taken| - 1]);
    }
  }

  lemma {:induction false} AllHandedByOne(handed: seq<Handed>)
    requires forall k :: 0 <= k < |handed| ==> handed[k].worker == 0
    ensures HandedBy(handed, 0) == Sent(handed)
    decreases |handed|
  {
    var all := seq(|handed|, k requires 0 <= k < |handed| => handed[k].batch);
    if handed != [] {
      var n := |handed| - 1;
      AllHandedByOne(handed[..n]);
      var front := seq(n, k requires 0 <= k < n => handed[..n][k].batch);
      assert all == front + [handed[n].batch];
      FlattenSnoc(front, handed[n].batch);
    }
  }

  /** The batches handed to the writer so far, laid end to end. */
  function Sent(handed: seq<Handed>): seq<Event> {
    Flatten(seq(|handed|, k requires 0 <= k < |handed| => handed[k].batch))
  }

  /** With one worker they are the start of the accepted sequence at every moment, and all of it once the
      worker is gone. */
  lemma OneWorkerKeepsOrder(s: State)
    requires Reachable(s) && s.cfg.workers == 1
    ensures Sent(s.h.handed) <= s.h.accepted
    ensures s.started && s.AllExited() ==> Sent(s.h.handed) == s.h.accepted
  {
    ReachableInv(s);
    OneWorkerSends(s);
    if s.started && s.AllExited() {
      NothingLeft(s);
    }
  }

  lemma OneWorkerSends(s: State)
    requires WorkersOk(s) && Ordered(s) && s.cfg.workers == 1
    ensures s.started ==> s.h.taken == Sent(s.h.handed) + s.workers[0].Unbegun()
    ensures !s.started ==> Sent(s.h.handed) == []
  {
    AllHandedByOne(s.h.handed);
    if s.started {
      AllReceivedByOne(s.h.taken, s.h.takenBy);
    }
  }

  // ----- termination of the drain

  /** Worker steps still possible once the channel is closed. */
  function Remaining(s: State): nat { 5 * |s.sh.ch| + Weigh(s.workers, RankOf) }

  lemma WorkerStepCounts(s: State, st: Step)
    requires st.ByWorker() && WorkerEnabled(s, st)
    ensures Remaining(ApplyWorker(s, st)) < Remaining(s)
  {
    var t := ApplyWorker(s, st);
    var x := t.workers[st.w];
    assert t.workers == s.workers[st.w := x];
    WeighUpdate(s.workers, st.w, x, RankOf);
  }

  lemma OtherStepsDoNot(s: State, st: Step)
    requires Inv(s) && s.sh.chClosed && !st.ByWorker() && Enabled(s, st)
    ensures Remaining(Apply(s, st)) == Remaining(s)
  {
    if st.ByCall() {
      assert CallOk(s.sh.closed, s.calls[st.i]);
    }
  }

  lemma ChannelStaysClosed(s: State, st: Step)
    requires s.sh.chClosed && Enabled(s, st)
    ensures Apply(s, st).sh.chClosed
  {
    if st.ByCall() {
      assert ApplyCall(s, st).sh.chClosed;
    } else if st.ByStop() {
      assert ApplyStop(s, st).sh.chClosed;
    } else if st.ByWorker() {
      assert ApplyWorker(s, st).sh.chClosed;
    }
  }

  /** Worker steps in a schedule. */
  function WorkerSteps(steps: seq<Step>): nat {
    if steps == [] then 0 else (if steps[0].ByWorker() then 1 else 0) + WorkerSteps(steps[1..])
  }

  lemma {:induction false} DrainBounded(s: State, steps: seq<Step>)
    requires Inv(s) && s.sh.chClosed && CanRun(s, steps)
    ensures WorkerSteps(steps) + Remaining(Run(s, steps)) <= Remaining(s)
    ensures Run(s, steps).sh.chClosed
    decreases |steps|
  {
    if steps != [] {
      DrainStep(s, steps[0]);
      DrainBounded(Apply(s, steps[0]), steps[1..]);
    }
  }

  lemma DrainStep(s: State, st: Step)
    requires Inv(s) && s.sh.chClosed && Enabled(s, st)
    ensures Inv(Apply(s, st)) && Apply(s, st).sh.chClosed
    ensures (if st.ByWorker() then 1 else 0) + Remaining(Apply(s, st)) <= Remaining(s)
  {
    InvKept(s, st);
    ChannelStaysClosed(s, st);
    StepCounted(s, st);
  }

  lemma StepCounted(s: State, st: Step)
    requires Inv(s) && s.sh.chClosed && Enabled(s, st)
    ensures (if st.ByWorker() then 1 else 0) + Remaining(Apply(s, st)) <= Remaining(s)
  {
    if st.ByWorker() {
      WorkerStepCounts(s, st);
    } else {
      OtherStepsDoNot(s, st);
    }
  }

  /** What a worker that has not exited can do once the channel is closed and its WriteBatch returns. */
  function NextStep(s: State, w: nat): Step
    requires w < |s.workers| && !s.workers[w].Exited?
  {
    match s.workers[w]
    case Idle => if s.sh.ch == [] then ReceiveClosed(w) else Receive(w)
    case Accumulating(batch) =>
      if |batch| >= s.cfg.maxBatch then BatchFull(w)
      else if s.sh.ch == [] then ReceiveClosed(w)
      else Receive(w)
    case Taken(_, _) => BeginWrite(w)
    case Writing(_, _) => WriteReturns(w, true)
    case Charged(_, _) => Release(w)
    case Leaving => Exit(w)
  }

  /** After Stop closes the channel, no schedule has more than `Remaining` worker steps, and as long as
      a worker has not exited one of its steps is possible: so if every WriteBatch call returns, all
      workers exit. On a started queue the channel is then empty. */
  lemma DrainTerminates(s: State, steps: seq<Step>)
    requires Reachable(s) && s.sh.chClosed && CanRun(s, steps)
    ensures WorkerSteps(steps) <= 5 * |s.sh.ch| + 6 * |s.workers|
    ensures var t := Run(s, steps);
      && (forall w :: 0 <= w < |t.workers| && !t.workers[w].Exited? ==> Enabled(t, NextStep(t, w)))
      && (t.AllExited() && t.started ==> t.sh.ch == [])
  {
    ReachableInv(s);
    DrainBounded(s, steps);
    InvAfter(s, steps);
    RemainingAtMost(s);
    DrainGoesOn(Run(s, steps));
  }

  lemma RemainingAtMost(s: State)
    ensures Remaining(s) <= 5 * |s.sh.ch| + 6 * |s.workers|
  {
    forall w | 0 <= w < |s.workers| ensures RankOf(s.workers[w]) <= 6 {}
    WeighBound(s.workers, RankOf, 6);
  }

  lemma DrainGoesOn(t: State)
    requires Inv(t) && t.sh.chClosed
    ensures forall w :: 0 <= w < |t.workers| && !t.workers[w].Exited? ==> Enabled(t, NextStep(t, w))
    ensures t.AllExited() && t.started ==> t.sh.ch == []
  {
    forall w | 0 <= w < |t.workers| && !t.workers[w].Exited? ensures Enabled(t, NextStep(t, w)) {
      CanMove(t, w);
    }
    if t.AllExited() && t.started {
      NothingLeft(t);
    }
  }

  predicate OnlyWorkers(steps: seq<Step>) { forall k :: 0 <= k < |steps| ==> steps[k].ByWorker() }

  lemma RunOn(s: State, st: Step, rest: seq<Step>)
    requires Enabled(s, st) && CanRun(Apply(s, st), rest)
    ensures CanRun(s, [st] + rest) && Run(s, [st] + rest) == Run(Apply(s, st), rest)
  {
    assert ([st] + rest)[1..] == rest;
  }

  lemma SomeWorkerMoves(s: State) returns (st: Step)
    requires s.sh.chClosed && !s.AllExited()
    ensures st.ByWorker() && Enabled(s, st) && (st.WriteReturns? ==> st.ok)
  {
    var w: nat :| w < |s.workers| && !s.workers[w].Exited?;
    st := NextStep(s, w);
    CanMove(s, w);
  }

  lemma WorkersStartNothing(s: State, st: Step)
    requires st.ByWorker() && WorkerEnabled(s, st)
    ensures ApplyWorker(s, st).started == s.started
  {}

  lemma DrainProgress(s: State, st: Step)
    requires Inv(s) && s.sh.chClosed && st.ByWorker() && Enabled(s, st)
    ensures Inv(Apply(s, st)) && Apply(s, st).sh.chClosed
    ensures Apply(s, st).started == s.started && Remaining(Apply(s, st)) < Remaining(s)
  {
    DrainStep(s, st);
    WorkersStartNothing(s, st);
  }

  lemma {:induction false} DrainSchedule(s: State) returns (steps: seq<Step>)
    requires Inv(s) && s.sh.chClosed
    ensures CanRun(s, steps) && OnlyWorkers(steps) && AllAccepted(steps)
    ensures Run(s, steps).AllExited() && Inv(Run(s, steps)) && Run(s, steps).started == s.started
    decreases Remaining(s)
  {
    if s.AllExited() {
      return [];
    }
    var st := SomeWorkerMoves(s);
    DrainProgress(s, st);
    var rest := DrainSchedule(Apply(s, st));
    RunOn(s, st, rest);
    steps := [st] + rest;
    MoveFirst(st, rest);
  }

  lemma MoveFirst(st: Step, rest: seq<Step>)
    requires st.ByWorker() && (st.WriteReturns? ==> st.ok) && OnlyWorkers(rest) && AllAccepted(rest)
    ensures OnlyWorkers([st] + rest) && AllAccepted([st] + rest)
  {}

  /** So from every reachable state with the channel closed there is a schedule of worker steps alone, in
      which the writer accepts every batch, after which all workers have exited: nothing more has failed,
      and on a started queue the channel is empty and everything else accepted has been written. */
  lemma DrainEnds(s: State)
    requires Reachable(s) && s.sh.chClosed
    ensures exists steps :: CanRun(s, steps) && OnlyWorkers(steps) && AllAccepted(steps) && Drained(s, Run(s, steps))
  {
    ReachableInv(s);
    var steps := DrainSchedule(s);
    var t := Run(s, steps);
    AcceptedRun(s, steps);
    if t.started {
      NothingLeft(t);
      OutstandingIs(t);
      DrainAcceptsNothing(s, steps);
    }
    assert Drained(s, t);
  }

  predicate Drained(s: State, t: State) {
    && t.AllExited()
    && t.sh.writerErrors == s.sh.writerErrors && t.sh.batchErrors == s.sh.batchErrors
    && (s.started ==> t.sh.ch == [] && t.sh.written == |s.h.accepted| - s.sh.writerErrors)
  }

  lemma WorkersAcceptNothing(s: State, st: Step)
    requires st.ByWorker() && WorkerEnabled(s, st)
    ensures ApplyWorker(s, st).h.accepted == s.h.accepted
  {}

  lemma {:induction false} DrainAcceptsNothing(s: State, steps: seq<Step>)
    requires CanRun(s, steps) && OnlyWorkers(steps)
    ensures Run(s, steps).h.accepted == s.h.accepted
    decreases |steps|
  {
    if steps != [] {
      WorkersAcceptNothing(s, steps[0]);
      DrainAcceptsNothing(Apply(s, steps[0]), steps[1..]);
    }
  }

  lemma CanMove(s: State, w: nat)
    requires s.sh.chClosed && w < |s.workers| && !s.workers[w].Exited?
    ensures Enabled(s, NextStep(s, w))
  {}

  // ----- the drain-timeout report

  lemma {:induction false} HeldParts(ws: seq<Worker>)
    ensures Weigh(ws, HeldSize) + Weigh(ws, ChargedSize) == Weigh(ws, UnbegunSize) + Weigh(ws, InFlightSize)
  {
    if ws != [] {
      HeldParts(ws[1..]);
    }
  }

  /** In every state len(ch) + inFlight misses the events pulled but not begun and adds the ones charged
      but not released: it is exact when every worker is inside WriteBatch or holds nothing, and never
      off by more than workers x maxBatch. */
  lemma ReportExactness(s: State)
    requires Reachable(s)
    ensures s.sh.inFlight == Weigh(s.workers, InFlightSize) >= 0
    ensures |s.sh.ch| + s.sh.inFlight == s.Outstanding() <==> Weigh(s.workers, UnbegunSize) == Weigh(s.workers, ChargedSize)
    ensures (forall w :: 0 <= w < |s.workers| ==> s.workers[w].Writing? || s.workers[w].Idle? || s.workers[w].Leaving? || s.workers[w].Exited?)
      ==> |s.sh.ch| + s.sh.inFlight == s.Outstanding()
    ensures -(|s.workers| * s.cfg.maxBatch) <= |s.sh.ch| + s.sh.inFlight - s.Outstanding() <= |s.workers| * s.cfg.maxBatch
  {
    ReachableInv(s);
    OutstandingIs(s);
    HeldParts(s.workers);
    forall w | 0 <= w < |s.workers|
      ensures UnbegunSize(s.workers[w]) <= s.cfg.maxBatch && ChargedSize(s.workers[w]) <= s.cfg.maxBatch
    {
      assert WorkerOk(s.cfg.maxBatch, s.sh.chClosed && s.sh.ch == [], s.workers[w]);
    }
    WeighBound(s.workers, UnbegunSize, s.cfg.maxBatch);
    WeighBound(s.workers, ChargedSize, s.cfg.maxBatch);
    if forall w :: 0 <= w < |s.workers| ==> s.workers[w].Writing? || s.workers[w].Idle? || s.workers[w].Leaving? || s.workers[w].Exited? {
      WeighZero(s.workers, UnbegunSize);
      WeighZero(s.workers, ChargedSize);
    }
  }

  /** Stop reads the depth and inFlight one after the other, with workers moving in between. What it
      reports still covers all but workers x maxBatch of what is outstanding when it reports, and exceeds
      what was outstanding when it began to look by no more than that. */
  lemma ReportBrackets(s: State, j: nat)
    requires Reachable(s) && Enabled(s, CountUndrained(j))
    ensures var reported := Apply(s, CountUndrained(j)).sh.dropped - s.sh.dropped;
      && reported == s.stops[j].depth + s.sh.inFlight
      && s.Outstanding() - |s.workers| * s.cfg.maxBatch <= reported <= s.stops[j].owed + |s.workers| * s.cfg.maxBatch
  {
    ReachableInv(s);
    ReportExactness(s);
    assert |s.sh.ch| <= s.stops[j].depth <= s.stops[j].owed;
    forall w | 0 <= w < |s.workers| ensures InFlightSize(s.workers[w]) <= s.cfg.maxBatch {
      assert WorkerOk(s.cfg.maxBatch, s.sh.chClosed && s.sh.ch == [], s.workers[w]);
    }
    WeighBound(s.workers, InFlightSize, s.cfg.maxBatch);
  }
}
