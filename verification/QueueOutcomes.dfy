/** What the writer's answers do to the queue's counters, over every schedule; and what a refusal and a
    closed writer tell. */
module QueueOutcomes {
  import opened Prelude
  import opened QueueModel
  import opened QueueSafety

  // ----- the writer's answers

  /** The batch for which a WriteBatch call returns `ok` in this step, if one does. */
  function Answered(s: State, st: Step, ok: bool): seq<Event>
    requires Enabled(s, st)
  {
    if st.WriteReturns? && st.ok == ok then s.workers[st.w].batch else []
  }

  /** The events of all batches for which WriteBatch returned `ok`, in the order of the returns. */
  ghost function AnsweredIn(s: State, steps: seq<Step>, ok: bool): seq<Event>
    requires CanRun(s, steps)
    decreases |steps|
  {
    if steps == [] then [] else Answered(s, steps[0], ok) + AnsweredIn(Apply(s, steps[0]), steps[1..], ok)
  }

  /** WriteBatch calls that fail, and WriteBatch calls that begin. */
  function Failures(steps: seq<Step>): nat {
    if steps == [] then 0 else (if steps[0].WriteReturns? && !steps[0].ok then 1 else 0) + Failures(steps[1..])
  }

  function Begins(steps: seq<Step>): nat {
    if steps == [] then 0 else (if steps[0].BeginWrite? then 1 else 0) + Begins(steps[1..])
  }

  predicate Counted(sh: Shared, sh': Shared, written: nat, failed: nat, failures: nat, begins: nat) {
    && sh'.written == sh.written + written
    && sh'.writerErrors == sh.writerErrors + failed
    && sh'.batchErrors == sh.batchErrors + failures
    && sh'.batches == sh.batches + begins
  }

  lemma AnswerByWorker(s: State, st: Step)
    requires st.ByWorker() && WorkerEnabled(s, st)
    ensures var t := ApplyWorker(s, st);
      && t.h.writtenEvents == s.h.writtenEvents + Answered(s, st, true)
      && t.h.failedEvents == s.h.failedEvents + Answered(s, st, false)
      && Counted(s.sh, t.sh, |Answered(s, st, true)|, |Answered(s, st, false)|, Failures([st]), Begins([st]))
  {
    assert [st][1..] == [];
  }

  lemma AnswerStep(s: State, st: Step)
    requires Enabled(s, st)
    ensures var t := Apply(s, st);
      && t.h.writtenEvents == s.h.writtenEvents + Answered(s, st, true)
      && t.h.failedEvents == s.h.failedEvents + Answered(s, st, false)
      && Counted(s.sh, t.sh, |Answered(s, st, true)|, |Answered(s, st, false)|, Failures([st]), Begins([st]))
  {
    assert [st][1..] == [];
    if st.ByWorker() {
      AnswerByWorker(s, st);
    } else if st.ByCall() {
      AnswerByCall(s, st);
    } else if st.ByStop() {
      AnswerByStop(s, st);
    }
  }

  lemma AnswerByCall(s: State, st: Step)
    requires st.ByCall() && CallEnabled(s, st)
    ensures var t := ApplyCall(s, st);
      && t.h.writtenEvents == s.h.writtenEvents && t.h.failedEvents == s.h.failedEvents
      && Counted(s.sh, t.sh, 0, 0, 0, 0)
  {}

  lemma AnswerByStop(s: State, st: Step)
    requires st.ByStop() && StopEnabled(s, st)
    ensures var t := ApplyStop(s, st);
      && t.h.writtenEvents == s.h.writtenEvents && t.h.failedEvents == s.h.failedEvents
      && Counted(s.sh, t.sh, 0, 0, 0, 0)
  {}

  /** From `s` to `t` the writer accepted the events `yes` and refused the events `no`. */
  ghost predicate Answers(s: State, t: State, yes: seq<Event>, no: seq<Event>, failures: nat, begins: nat) {
    && t.h.writtenEvents == s.h.writtenEvents + yes
    && t.h.failedEvents == s.h.failedEvents + no
    && Counted(s.sh, t.sh, |yes|, |no|, failures, begins)
  }

  lemma AnswersJoin(s: State, m: State, t: State, y1: seq<Event>, n1: seq<Event>, f1: nat, b1: nat,
                    y2: seq<Event>, n2: seq<Event>, f2: nat, b2: nat)
    requires Answers(s, m, y1, n1, f1, b1) && Answers(m, t, y2, n2, f2, b2)
    ensures Answers(s, t, y1 + y2, n1 + n2, f1 + f2, b1 + b2)
  {}

  lemma NoAnswers(s: State)
    ensures Answers(s, s, [], [], 0, 0)
  {}

  lemma {:induction false} AnswersRun(s: State, steps: seq<Step>)
    requires CanRun(s, steps)
    ensures Answers(s, Run(s, steps), AnsweredIn(s, steps, true), AnsweredIn(s, steps, false), Failures(steps), Begins(steps))
    decreases |steps|
  {
    if steps == [] {
      NoAnswers(s);
    } else {
      var m, rest := Apply(s, steps[0]), steps[1..];
      AnswerStep(s, steps[0]);
      AnswersRun(m, rest);
      AnswersAdd(s, steps);
      AnswersJoin(s, m, Run(m, rest), Answered(s, steps[0], true), Answered(s, steps[0], false), Failures([steps[0]]), Begins([steps[0]]),
                  AnsweredIn(m, rest, true), AnsweredIn(m, rest, false), Failures(rest), Begins(rest));
    }
  }

  lemma AnswersAdd(s: State, steps: seq<Step>)
    requires steps != [] && CanRun(s, steps)
    ensures AnsweredIn(s, steps, true) == Answered(s, steps[0], true) + AnsweredIn(Apply(s, steps[0]), steps[1..], true)
    ensures AnsweredIn(s, steps, false) == Answered(s, steps[0], false) + AnsweredIn(Apply(s, steps[0]), steps[1..], false)
    ensures Failures(steps) == Failures([steps[0]]) + Failures(steps[1..])
    ensures Begins(steps) == Begins([steps[0]]) + Begins(steps[1..])
    ensures Run(s, steps) == Run(Apply(s, steps[0]), steps[1..])
  {
    assert [steps[0]][1..] == [];
  }

  /** For every schedule: the written events are those of the batches WriteBatch accepted, in the order it
      returned, the failed ones those of the batches it refused; the event counters are their numbers, the
      batch counters the WriteBatch calls that began and the ones that failed. */
  lemma OutcomesCounted(cfg: Tunables, steps: seq<Step>)
    requires CanRun(Initial(cfg), steps)
    ensures var t := Run(Initial(cfg), steps);
      && t.h.writtenEvents == AnsweredIn(Initial(cfg), steps, true)
      && t.h.failedEvents == AnsweredIn(Initial(cfg), steps, false)
      && t.sh.written == |AnsweredIn(Initial(cfg), steps, true)|
      && t.sh.writerErrors == |AnsweredIn(Initial(cfg), steps, false)|
      && t.sh.batchErrors == Failures(steps) && t.sh.batches == Begins(steps)
  {
    AnswersRun(Initial(cfg), steps);
  }

  predicate AllAccepted(steps: seq<Step>) { forall k :: 0 <= k < |steps| && steps[k].WriteReturns? ==> steps[k].ok }

  /** A schedule in which the writer accepts everything fails nothing. */
  lemma {:induction false} NothingFails(s: State, steps: seq<Step>)
    requires CanRun(s, steps) && AllAccepted(steps)
    ensures AnsweredIn(s, steps, false) == [] && Failures(steps) == 0
    decreases |steps|
  {
    if steps != [] {
      NothingFails(Apply(s, steps[0]), steps[1..]);
    }
  }

  lemma AcceptedRun(s: State, steps: seq<Step>)
    requires CanRun(s, steps) && AllAccepted(steps)
    ensures Run(s, steps).sh.writerErrors == s.sh.writerErrors && Run(s, steps).sh.batchErrors == s.sh.batchErrors
  {
    AnswersRun(s, steps);
    NothingFails(s, steps);
  }

  // ----- what a refusal and a closed writer tell

  ghost predicate ClosedBySome(stops: seq<Stopper>) { exists j :: 0 <= j < |stops| && stops[j] == Finished(true) }

  /** A refusal on an open queue has been for want of room. */
  ghost predicate Noted(s: State) {
    && (ClosedBySome(s.stops) <==> s.writerCloses > 0)
    && (forall i :: 0 <= i < |s.calls| && s.calls[i].at.SawClosed? ==> s.sh.closed)
    && (s.h.refused != [] && !s.sh.closed ==> |s.h.accepted| >= s.cfg.capacity)
  }

  lemma NotedKeptByCall(s: State, st: Step)
    requires Inv(s) && Noted(s) && st.ByCall() && CallEnabled(s, st)
    ensures Noted(ApplyCall(s, st))
  {
    assert |s.h.accepted| == |s.h.taken| + |s.sh.ch|;
    var t := ApplyCall(s, st);
    forall i | 0 <= i < |t.calls| && t.calls[i].at.SawClosed? ensures t.sh.closed {
      assert i != st.i ==> t.calls[i] == s.calls[i];
    }
  }

  lemma ClosedBySet(stops: seq<Stopper>, j: nat, at: Stopper)
    requires j < |stops| && stops[j] != Finished(true)
    ensures ClosedBySome(stops[j := at]) <==> ClosedBySome(stops) || at == Finished(true)
  {
    var ts := stops[j := at];
    if ClosedBySome(stops) {
      var i :| 0 <= i < |stops| && stops[i] == Finished(true);
      assert ts[i] == Finished(true);
    }
    if at == Finished(true) {
      assert ts[j] == Finished(true);
    }
    if ClosedBySome(ts) && at != Finished(true) {
      var i :| 0 <= i < |ts| && ts[i] == Finished(true);
      assert stops[i] == Finished(true);
    }
  }

  lemma NotedKeptByStop(s: State, st: Step)
    requires Inv(s) && Noted(s) && st.ByStop() && StopEnabled(s, st)
    ensures Noted(ApplyStop(s, st))
  {
    var t := ApplyStop(s, st);
    if !st.DoneSignal? && s.stops[st.j] != Finished(true) {
      assert StopperOk(s.sh.closed, s.sh.chClosed, s.stops[st.j]);
      assert t.stops == s.stops[st.j := t.stops[st.j]];
      ClosedBySet(s.stops, st.j, t.stops[st.j]);
    }
    assert t.h.refused == s.h.refused && t.h.accepted == s.h.accepted && t.calls == s.calls;
  }

  lemma NotedKept(s: State, st: Step)
    requires Inv(s) && Noted(s) && Enabled(s, st)
    ensures Noted(Apply(s, st))
  {
    if st.ByCall() {
      NotedKeptByCall(s, st);
    } else if st.ByStop() {
      NotedKeptByStop(s, st);
    } else if st.ByWorker() {
      NotedKeptByWorker(s, st);
    } else if st.StopEnter? {
      var t := Apply(s, st);
      assert t.stops[..|s.stops|] == s.stops;
      if ClosedBySome(t.stops) {
        var j :| 0 <= j < |t.stops| && t.stops[j] == Finished(true);
        assert s.stops[j] == Finished(true);
      }
      if ClosedBySome(s.stops) {
        var j :| 0 <= j < |s.stops| && s.stops[j] == Finished(true);
        assert t.stops[j] == Finished(true);
      }
    }
  }

  lemma NotedKeptByWorker(s: State, st: Step)
    requires Noted(s) && st.ByWorker() && WorkerEnabled(s, st)
    ensures Noted(ApplyWorker(s, st))
  {
    var t := ApplyWorker(s, st);
    assert t.h.refused == s.h.refused && t.h.accepted == s.h.accepted && t.calls == s.calls && t.stops == s.stops;
    assert t.sh.closed == s.sh.closed && t.writerCloses == s.writerCloses && t.cfg == s.cfg;
  }

  lemma {:induction false} NotedAfter(s: State, steps: seq<Step>)
    requires Inv(s) && Noted(s) && CanRun(s, steps)
    ensures Noted(Run(s, steps))
    decreases |steps|
  {
    if steps != [] {
      InvKept(s, steps[0]);
      NotedKept(s, steps[0]);
      NotedAfter(Apply(s, steps[0]), steps[1..]);
    }
  }

  lemma ReachableNoted(s: State)
    requires Reachable(s)
    ensures Inv(s) && Noted(s)
  {
    var cfg: Tunables, steps :| CanRun(Initial(cfg), steps) && Run(Initial(cfg), steps) == s;
    ReachableInv(s);
    InvInitial(cfg);
    NotedAfter(Initial(cfg), steps);
  }

  /** The writer has been closed, once, exactly when some Stop call reports that it closed it. */
  lemma CloseReported(s: State)
    requires Reachable(s)
    ensures s.writerCloses == (if ClosedBySome(s.stops) then 1 else 0)
  {
    ReachableNoted(s);
  }

  /** Nothing is refused while the queue is open and no more calls have been made than it has room for. */
  lemma RoomMeansAccepted(s: State)
    requires Reachable(s) && !s.sh.closed && |s.calls| <= s.cfg.capacity
    ensures s.h.refused == []
  {
    ReachableNoted(s);
  }
}
