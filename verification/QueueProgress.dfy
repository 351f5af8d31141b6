/** No Enqueue and no Stop call is ever stuck, whatever the workers do. */
module QueueProgress {
  import opened Prelude
  import opened QueueModel
  import opened QueueSafety

  /** Steps a call has left, at most. */
  function CallRank(c: Call): nat {
    match c.at
    case Entered => 4
    case Reading => 3
    case SawClosed => 2
    case SawOpen => 2
    case Answered(_) => 1
    case Returned(_) => 0
  }

  function StopRank(p: Stopper): nat {
    match p
    case Waiting => 10
    case Checking => 9
    case MustClose => 8
    case Flagged => 7
    case ChanClosed => 6
    case Draining => 5
    case Grace => 4
    case Counting => 3
    case DepthRead(_, _) => 2
    case Deciding => 1
    case Repeat => 1
    case Finished(_) => 0
    case Ignored => 0
  }

  function ToGo(s: State): nat { Weigh(s.calls, CallRank) + Weigh(s.stops, StopRank) }

  predicate AllReturned(s: State) {
    && (forall i :: 0 <= i < |s.calls| ==> s.calls[i].at.Returned?)
    && (forall j :: 0 <= j < |s.stops| ==> s.stops[j].Finished? || s.stops[j].Ignored?)
  }

  function CallNext(i: nat, at: CallPhase): Step
    requires !at.Returned?
  {
    match at
    case Entered => CallLock(i)
    case Reading => CallCheck(i)
    case SawClosed => CallRefuse(i)
    case SawOpen => CallSelect(i)
    case Answered(_) => CallUnlock(i)
  }

  function StopNext(j: nat, at: Stopper, signalled: bool): Step
    requires !at.Finished? && !at.Ignored?
  {
    match at
    case Waiting => StopLock(j)
    case Checking => StopCheck(j)
    case MustClose => StopFlag(j)
    case Flagged => StopClose(j)
    case Repeat => StopUnlock(j)
    case ChanClosed => StopUnlock(j)
    case Draining => DrainTimeout(j)
    case Grace => GraceOver(j)
    case Counting => ReadDepth(j)
    case DepthRead(_, _) => CountUndrained(j)
    case Deciding => if signalled then CloseWriter(j) else SkipClose(j)
  }

  lemma CallStep(s: State, st: Step)
    requires st.ByCall() && CallEnabled(s, st) && (st.CallSelect? ==> !s.sh.chClosed)
    ensures var t := ApplyCall(s, st);
      t.stops == s.stops && exists c :: CallRank(c) < CallRank(s.calls[st.i]) && t.calls == s.calls[st.i := c]
  {
    var t := ApplyCall(s, st);
    var c := t.calls[st.i];
    assert t.calls == s.calls[st.i := c];
    assert CallRank(c) < CallRank(s.calls[st.i]);
    assert t.stops == s.stops;
  }

  lemma StopStep(s: State, st: Step)
    requires st.ByStop() && !st.DoneSignal? && StopEnabled(s, st) && (st.StopClose? ==> !s.sh.chClosed)
    ensures var t := ApplyStop(s, st);
      t.calls == s.calls && exists p :: StopRank(p) < StopRank(s.stops[st.j]) && t.stops == s.stops[st.j := p]
  {
    var t := ApplyStop(s, st);
    var p := t.stops[st.j];
    assert t.stops == s.stops[st.j := p];
    assert StopRank(p) < StopRank(s.stops[st.j]);
    assert t.calls == s.calls;
  }

  lemma CallNears(s: State, st: Step)
    requires Inv(s) && st.ByCall() && CallEnabled(s, st)
    ensures ToGo(ApplyCall(s, st)) < ToGo(s)
  {
    assert CallOk(s.sh.closed, s.calls[st.i]);
    CallStep(s, st);
    var c :| CallRank(c) < CallRank(s.calls[st.i]) && ApplyCall(s, st).calls == s.calls[st.i := c];
    WeighUpdate(s.calls, st.i, c, CallRank);
  }

  lemma StopNears(s: State, st: Step)
    requires Inv(s) && st.ByStop() && !st.DoneSignal? && StopEnabled(s, st)
    ensures ToGo(ApplyStop(s, st)) < ToGo(s)
  {
    assert StopperOk(s.sh.closed, s.sh.chClosed, s.stops[st.j]);
    StopStep(s, st);
    var p :| StopRank(p) < StopRank(s.stops[st.j]) && ApplyStop(s, st).stops == s.stops[st.j := p];
    WeighUpdate(s.stops, st.j, p, StopRank);
  }

  lemma CallCan(s: State, i: nat)
    requires i < |s.calls| && !s.calls[i].at.Returned? && (s.calls[i].at.Entered? ==> s.holder.None?)
    ensures var st := CallNext(i, s.calls[i].at); st.ByCall() && st.i == i && CallEnabled(s, st)
  {}

  lemma StopCan(s: State, j: nat)
    requires j < |s.stops| && !s.stops[j].Finished? && !s.stops[j].Ignored?
    requires s.stops[j].Waiting? ==> s.holder.None? && s.readers == {}
    ensures var st := StopNext(j, s.stops[j], s.doneSignalled); st.ByStop() && !st.DoneSignal? && StopEnabled(s, st)
  {}

  lemma NoReaders(s: State)
    requires Locking(s) && forall i :: 0 <= i < |s.calls| ==> s.calls[i].at.Returned?
    ensures s.readers == {}
  {
    assert forall i :: 0 <= i < |s.calls| ==> !s.calls[i].Holds();
  }

  /** As long as some call has not returned, one of them can move and is then nearer its end. */
  lemma SomeoneMoves(s: State) returns (st: Step)
    requires Inv(s) && !AllReturned(s)
    ensures (st.ByCall() || st.ByStop()) && Enabled(s, st) && ToGo(Apply(s, st)) < ToGo(s)
  {
    if s.holder.Some? {
      assert s.stops[s.holder.value].Holds();
      st := StopGoes(s, s.holder.value);
    } else if i: nat :| i < |s.calls| && !s.calls[i].at.Returned? {
      st := CallGoes(s, i);
    } else {
      var j: nat :| j < |s.stops| && !s.stops[j].Finished? && !s.stops[j].Ignored?;
      NoReaders(s);
      st := StopGoes(s, j);
    }
  }

  lemma CallGoes(s: State, i: nat) returns (st: Step)
    requires Inv(s) && i < |s.calls| && !s.calls[i].at.Returned? && (s.calls[i].at.Entered? ==> s.holder.None?)
    ensures st.ByCall() && Enabled(s, st) && ToGo(Apply(s, st)) < ToGo(s)
  {
    CallCan(s, i);
    st := CallNext(i, s.calls[i].at);
    CallNears(s, st);
  }

  lemma StopGoes(s: State, j: nat) returns (st: Step)
    requires Inv(s) && j < |s.stops| && !s.stops[j].Finished? && !s.stops[j].Ignored?
    requires s.stops[j].Waiting? ==> s.holder.None? && s.readers == {}
    ensures st.ByStop() && Enabled(s, st) && ToGo(Apply(s, st)) < ToGo(s)
  {
    StopCan(s, j);
    st := StopNext(j, s.stops[j], s.doneSignalled);
    StopNears(s, st);
  }

  predicate OnlyCallers(steps: seq<Step>) { forall k :: 0 <= k < |steps| ==> steps[k].ByCall() || steps[k].ByStop() }

  lemma {:induction false} Finish(s: State) returns (steps: seq<Step>)
    requires Inv(s)
    ensures CanRun(s, steps) && OnlyCallers(steps) && AllReturned(Run(s, steps))
    decreases ToGo(s)
  {
    if AllReturned(s) {
      return [];
    }
    var st := SomeoneMoves(s);
    InvKept(s, st);
    var rest := Finish(Apply(s, st));
    assert ([st] + rest)[1..] == rest;
    steps := [st] + rest;
  }

  /** From every reachable state the Enqueue and Stop calls can all return by steps of their own, without
      a worker moving: Enqueue never blocks on the channel, and Stop gives up waiting for stuck workers. */
  lemma CallsReturn(s: State)
    requires Reachable(s)
    ensures exists steps :: CanRun(s, steps) && OnlyCallers(steps) && AllReturned(Run(s, steps))
  {
    ReachableInv(s);
    var steps := Finish(s);
  }
}
