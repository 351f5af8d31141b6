/** What the workers do with events while the queue is open as well as after: no accepted event is ever
    stuck, and a batch is as large as the timer gives it time for. */
module QueueFlush {
  import opened Prelude
  import opened QueueModel
  import opened QueueSafety
  import opened QueueOutcomes
  import opened QueueTheorems

  // ----- no event is stuck

  predicate Busy(at: Worker) { at.Accumulating? || at.Taken? || at.Writing? || at.Charged? }

  /** Nothing waits in the channel and no worker holds anything. */
  predicate Quiet(s: State) { s.sh.ch == [] && forall w :: 0 <= w < |s.workers| ==> !Busy(s.workers[w]) }

  /** How a worker gets rid of what it holds, its timer firing and its WriteBatch returning. */
  function FlushStep(maxBatch: nat, w: nat, at: Worker): Step
    requires Busy(at)
  {
    match at
    case Accumulating(batch) => if |batch| >= maxBatch then BatchFull(w) else TimerFires(w)
    case Taken(_, _) => BeginWrite(w)
    case Writing(_, _) => WriteReturns(w, true)
    case Charged(_, _) => Release(w)
  }

  lemma FlushCan(s: State, w: nat)
    requires w < |s.workers| && Busy(s.workers[w])
    ensures var st := FlushStep(s.cfg.maxBatch, w, s.workers[w]);
      st.ByWorker() && WorkerEnabled(s, st) && (st.WriteReturns? ==> st.ok)
  {}

  lemma IdleCan(s: State, w: nat)
    requires w < |s.workers| && s.workers[w].Idle? && s.sh.ch != []
    ensures Receive(w).ByWorker() && WorkerEnabled(s, Receive(w))
  {}

  /** With events waiting and nobody busy, a worker of a started queue is idle. */
  lemma SomeIdle(s: State)
    requires WorkersOk(s) && s.started && s.sh.ch != [] && forall w :: 0 <= w < |s.workers| ==> !Busy(s.workers[w])
    ensures |s.workers| > 0 && s.workers[0].Idle?
  {
    assert WorkerOk(s.cfg.maxBatch, s.sh.chClosed && s.sh.ch == [], s.workers[0]);
  }

  lemma SomeWorker(s: State) returns (st: Step)
    requires Inv(s) && s.started && !Quiet(s)
    ensures st.ByWorker() && WorkerEnabled(s, st) && (st.WriteReturns? ==> st.ok)
  {
    if w: nat :| w < |s.workers| && Busy(s.workers[w]) {
      FlushCan(s, w);
      st := FlushStep(s.cfg.maxBatch, w, s.workers[w]);
    } else {
      SomeIdle(s);
      IdleCan(s, 0);
      st := Receive(0);
    }
  }

  lemma FlushProgress(s: State, st: Step)
    requires Inv(s) && s.started && st.ByWorker() && WorkerEnabled(s, st)
    ensures Enabled(s, st) && Inv(Apply(s, st)) && Apply(s, st).started && Remaining(Apply(s, st)) < Remaining(s)
  {
    InvKept(s, st);
    WorkerStepCounts(s, st);
    WorkersStartNothing(s, st);
  }

  lemma {:induction false} FlushSchedule(s: State) returns (steps: seq<Step>)
    requires Inv(s) && s.started
    ensures CanRun(s, steps) && OnlyWorkers(steps) && AllAccepted(steps)
    ensures Quiet(Run(s, steps)) && Inv(Run(s, steps))
    decreases Remaining(s)
  {
    if Quiet(s) {
      return [];
    }
    var st := SomeWorker(s);
    FlushProgress(s, st);
    var rest := FlushSchedule(Apply(s, st));
    RunOn(s, st, rest);
    steps := [st] + rest;
    MoveFirst(st, rest);
  }

  /** Nothing is outstanding in a quiet state. */
  lemma QuietSettled(t: State)
    requires Inv(t) && Quiet(t)
    ensures t.sh.written + t.sh.writerErrors == |t.h.accepted|
    ensures multiset(t.h.accepted) == multiset(t.h.writtenEvents) + multiset(t.h.failedEvents)
  {
    HeldByNone(t.workers);
    WeighZero(t.workers, HeldSize);
    OutstandingIs(t);
    assert t.h.accepted == t.h.taken;
  }

  /** The workers alone can deliver everything that was accepted, from every reachable state of a started
      queue, open or closed: when the writer takes every batch, each accepted event that had not failed
      before is written, and nothing is left. */
  predicate Delivered(s: State, t: State) {
    && t.sh.ch == [] && t.h.accepted == s.h.accepted
    && t.sh.writerErrors == s.sh.writerErrors
    && t.sh.written == |s.h.accepted| - s.sh.writerErrors
    && multiset(s.h.accepted) == multiset(t.h.writtenEvents) + multiset(t.h.failedEvents)
  }

  lemma AlwaysDelivers(s: State)
    requires Reachable(s) && s.started
    ensures exists steps :: CanRun(s, steps) && OnlyWorkers(steps) && AllAccepted(steps) && Delivered(s, Run(s, steps))
  {
    ReachableInv(s);
    var steps := FlushSchedule(s);
    AcceptedRun(s, steps);
    DrainAcceptsNothing(s, steps);
    QuietSettled(Run(s, steps));
    assert Delivered(s, Run(s, steps));
  }

  // ----- the size of a batch

  /** The worker `w` has received the first `k` waiting events onto `batch`, and nothing else that a batch
      depends on has moved. */
  predicate Gathered(s: State, t: State, w: nat, batch: seq<Event>, k: nat) {
    && k <= |s.sh.ch| && w < |t.workers|
    && t.workers[w] == Accumulating(batch + s.sh.ch[..k])
    && t.sh.ch == s.sh.ch[k..] && t.h.handed == s.h.handed && t.cfg == s.cfg
  }

  lemma GatherOne(s: State, w: nat, batch: seq<Event>)
    requires WorkerEnabled(s, Receive(w)) && (s.workers[w] == Accumulating(batch) || (s.workers[w].Idle? && batch == []))
    ensures Gathered(s, Apply(s, Receive(w)), w, batch, 1)
  {
    assert s.sh.ch[..1] == [s.sh.ch[0]] && [] + [s.sh.ch[0]] == [s.sh.ch[0]];
  }

  lemma GatherNone(s: State, w: nat, batch: seq<Event>)
    requires w < |s.workers| && s.workers[w] == Accumulating(batch)
    ensures Gathered(s, s, w, batch, 0)
  {
    assert batch + s.sh.ch[..0] == batch && s.sh.ch[0..] == s.sh.ch;
  }

  lemma GatherJoin(s: State, m: State, t: State, w: nat, batch: seq<Event>, k: nat)
    requires Gathered(s, m, w, batch, 1) && k > 0 && Gathered(m, t, w, batch + s.sh.ch[..1], k - 1)
    ensures Gathered(s, t, w, batch, k)
  {
    assert s.sh.ch[1..][..k - 1] == s.sh.ch[1..k] && s.sh.ch[..1] + s.sh.ch[1..k] == s.sh.ch[..k];
    assert (batch + s.sh.ch[..1]) + s.sh.ch[1..k] == batch + s.sh.ch[..k];
  }

  lemma GatherFirst(s: State, w: nat, batch: seq<Event>) returns (m: State)
    requires w < |s.workers| && s.workers[w] == Accumulating(batch) && s.sh.ch != [] && |batch| < s.cfg.maxBatch
    ensures Enabled(s, Receive(w)) && m == Apply(s, Receive(w)) && Gathered(s, m, w, batch, 1)
    ensures m.workers[w] == Accumulating(batch + s.sh.ch[..1]) && |m.sh.ch| == |s.sh.ch| - 1 && m.cfg == s.cfg
  {
    GatherOne(s, w, batch);
    m := Apply(s, Receive(w));
  }

  lemma {:induction false} GatherMore(s: State, w: nat, batch: seq<Event>, k: nat) returns (steps: seq<Step>)
    requires w < |s.workers| && s.workers[w] == Accumulating(batch)
    requires k <= |s.sh.ch| && |batch| + k <= s.cfg.maxBatch
    ensures CanRun(s, steps) && OnlyWorkers(steps) && Gathered(s, Run(s, steps), w, batch, k)
    decreases k
  {
    if k == 0 {
      GatherNone(s, w, batch);
      return [];
    }
    var m := GatherFirst(s, w, batch);
    var rest := GatherMore(m, w, batch + s.sh.ch[..1], k - 1);
    RunOn(s, Receive(w), rest);
    GatherJoin(s, m, Run(m, rest), w, batch, k);
    steps := [Receive(w)] + rest;
  }

  lemma HandOver(t: State, w: nat, batch: seq<Event>) returns (steps: seq<Step>)
    requires w < |t.workers| && t.workers[w] == Accumulating(batch)
    ensures CanRun(t, steps) && OnlyWorkers(steps) && |steps| == 2
    ensures Run(t, steps).h.handed == t.h.handed + [Handed(w, batch)]
  {
    var st := if |batch| >= t.cfg.maxBatch then BatchFull(w) else TimerFires(w);
    var u := Apply(t, st);
    assert u.workers[w] == Taken(batch, true) && u.h.handed == t.h.handed;
    OneStep(u, BeginWrite(w));
    RunOn(t, st, [BeginWrite(w)]);
    steps := [st] + [BeginWrite(w)];
  }

  lemma OneStep(s: State, st: Step)
    requires Enabled(s, st)
    ensures CanRun(s, [st]) && Run(s, [st]) == Apply(s, st)
  {
    assert [st][1..] == [];
  }

  lemma {:induction false} RunBoth(s: State, a: seq<Step>, b: seq<Step>)
    requires CanRun(s, a) && CanRun(Run(s, a), b)
    ensures CanRun(s, a + b) && Run(s, a + b) == Run(Run(s, a), b)
    decreases |a|
  {
    if a == [] {
      assert a + b == b;
    } else {
      RunBoth(Apply(s, a[0]), a[1..], b);
      assert (a + b)[1..] == a[1..] + b;
    }
  }

  /** An idle worker can hand over the first `k` of the waiting events as one batch for every `k` up to the
      batch limit: the timer decides how many, and a full batch needs no timer. */
  lemma BatchOf(s: State, w: nat, k: nat)
    requires w < |s.workers| && s.workers[w].Idle? && 1 <= k <= |s.sh.ch| && k <= s.cfg.maxBatch
    ensures exists steps ::
      CanRun(s, steps) && OnlyWorkers(steps) && Run(s, steps).h.handed == s.h.handed + [Handed(w, s.sh.ch[..k])]
  {
    var steps := BatchSchedule(s, w, k);
  }

  lemma BatchSchedule(s: State, w: nat, k: nat) returns (steps: seq<Step>)
    requires w < |s.workers| && s.workers[w].Idle? && 1 <= k <= |s.sh.ch| && k <= s.cfg.maxBatch
    ensures CanRun(s, steps) && OnlyWorkers(steps)
    ensures Run(s, steps).h.handed == s.h.handed + [Handed(w, s.sh.ch[..k])]
  {
    GatherOne(s, w, []);
    var m := Apply(s, Receive(w));
    assert m.workers[w] == Accumulating(s.sh.ch[..1]);
    var rest := GatherMore(m, w, s.sh.ch[..1], k - 1);
    assert [] + s.sh.ch[..1] == s.sh.ch[..1] && [] + s.sh.ch[..k] == s.sh.ch[..k];
    GatherJoin(s, m, Run(m, rest), w, [], k);
    RunOn(s, Receive(w), rest);
    var front := [Receive(w)] + rest;
    var last := HandOver(Run(s, front), w, s.sh.ch[..k]);
    RunBoth(s, front, last);
    steps := front + last;
  }
}
