/** The batching queue of pkg/queue/queue.go as a step system: any number of Enqueue calls, any number
    of Stop calls and the worker goroutines, interleaved at every lock operation, channel operation and
    counter update. An event is named by the number of the Enqueue call that carried it. */
module QueueModel {
  import opened Prelude

  type Event = nat

  // ----- what the goroutines share

  /** The tunables that reach the workers. */
  datatype Config = Config(capacity: int, workers: int, maxBatch: int) {
    function WithDefaults(): (c: Config)
      ensures c.Usable()
      ensures capacity > 0 ==> c.capacity == capacity
      ensures workers > 0 ==> c.workers == workers
      ensures maxBatch > 0 ==> c.maxBatch == maxBatch
    {
      Config(if capacity <= 0 then 100000 else capacity,
             if workers <= 0 then 4 else workers,
             if maxBatch <= 0 then 500 else maxBatch)
    }

    predicate Usable() { capacity > 0 && workers > 0 && maxBatch > 0 }
  }

  /** The fields of `Queue` and the counters it moves. `ch` is the buffered channel. */
  datatype Shared = Shared(
    closed: bool, chClosed: bool, ch: seq<Event>, inFlight: int,
    dropped: int, written: int, writerErrors: int, batches: int, batchErrors: int)
  {
    function Send(e: Event): Shared { this.(ch := ch + [e]) }
    function Drop(n: int): Shared { this.(dropped := dropped + n) }
    function Receive(): Shared requires ch != [] { this.(ch := ch[1..]) }
    function Begin(n: int): Shared { this.(batches := batches + 1, inFlight := inFlight + n) }
    function Charge(n: int, ok: bool): Shared {
      if ok then this.(written := written + n)
      else this.(writerErrors := writerErrors + n, batchErrors := batchErrors + 1)
    }
    function Release(n: int): Shared { this.(inFlight := inFlight - n) }
  }

  /** A configuration the defaults have been applied to. */
  type Tunables = c: Config | c.Usable() witness Config(1, 1, 1)

  const FRESH := Shared(false, false, [], 0, 0, 0, 0, 0, 0)

  // ----- the goroutines

  /** Where an Enqueue call stands. It holds the read lock from `Reading` to `Answered`. */
  datatype CallPhase = Entered | Reading | SawClosed | SawOpen | Answered(ok: bool) | Returned(ok: bool)

  /** `late` records that the queue was already closed when the call began. */
  datatype Call = Call(late: bool, at: CallPhase) {
    predicate Holds() { at.Reading? || at.SawClosed? || at.SawOpen? || at.Answered? }
    predicate Accepted() { (at.Answered? || at.Returned?) && at.ok }
    predicate Refused() { (at.Answered? || at.Returned?) && !at.ok }
    predicate Pending() { !at.Answered? && !at.Returned? }
  }

  /** Where a Stop call stands. It holds the write lock from `Checking` to `ChanClosed`; the one that
      found the queue open goes on to drain it. `owed` is what was outstanding when the depth was read. */
  datatype Stopper =
    | Waiting | Checking | Repeat | MustClose | Flagged | ChanClosed
    | Draining | Grace | Counting | DepthRead(depth: int, owed: int) | Deciding
    | Finished(closedWriter: bool) | Ignored
  {
    predicate Holds() { Checking? || Repeat? || MustClose? || Flagged? || ChanClosed? }
    /** This call is the one that closed the queue. */
    predicate Owner() { Flagged? || ChanClosed? || Past() }
    /** It has released the lock after closing the channel. */
    predicate Past() { Draining? || Grace? || Counting? || DepthRead? || Deciding? || Finished? }
  }

  /** Where a worker stands. `Taken`: nextBatch has returned. `Writing`: counted in inFlight and inside
      WriteBatch. `Charged`: outcome counted, inFlight not yet reduced. */
  datatype Worker =
    | Idle
    | Accumulating(batch: seq<Event>)
    | Taken(batch: seq<Event>, more: bool)
    | Writing(batch: seq<Event>, more: bool)
    | Charged(batch: seq<Event>, more: bool)
    | Leaving
    | Exited
  {
    /** Events out of the channel whose outcome is not yet counted. */
    function Holding(): seq<Event> {
      if Accumulating? || Taken? || Writing? then batch else []
    }
    /** Events out of the channel that no WriteBatch call has been given yet. */
    function Unbegun(): seq<Event> {
      if Accumulating? || Taken? then batch else []
    }
    function InFlight(): nat { if Writing? || Charged? then |batch| else 0 }
    /** It has learnt that the channel is closed and empty. */
    predicate SawEnd() {
      ((Taken? || Writing? || Charged?) && !more) || Leaving? || Exited?
    }
    /** Steps left before it next asks the channel, weighted so that a receive pays for itself. */
    function Rank(): nat {
      match this
      case Exited => 0
      case Leaving => 1
      case Idle => 2
      case Charged(_, _) => 3
      case Writing(_, _) => 4
      case Taken(_, _) => 5
      case Accumulating(_) => 6
    }
  }

  function HeldSize(w: Worker): nat { |w.Holding()| }
  function UnbegunSize(w: Worker): nat { |w.Unbegun()| }
  function InFlightSize(w: Worker): nat { w.InFlight() }
  function ChargedSize(w: Worker): nat { if w.Charged? then |w.batch| else 0 }
  function RankOf(w: Worker): nat { w.Rank() }
  function PendingCall(c: Call): nat { if c.Pending() then 1 else 0 }

  // ----- the whole state

  /** One WriteBatch call. */
  datatype Handed = Handed(worker: nat, batch: seq<Event>)

  /** What has happened so far; the program keeps none of it. `taken` lists the events received from the
      channel in order, `takenBy` the worker that received each. */
  datatype History = History(
    accepted: seq<Event>, refused: seq<Event>, taken: seq<Event>, takenBy: seq<nat>,
    handed: seq<Handed>, writtenEvents: seq<Event>, failedEvents: seq<Event>, undrained: int)

  datatype State = State(
    cfg: Tunables, sh: Shared, readers: set<nat>, holder: Option<nat>,
    calls: seq<Call>, stops: seq<Stopper>, workers: seq<Worker>,
    started: bool, doneSignalled: bool, writerCloses: nat, panicked: bool, h: History)
  {
    function SetCall(i: nat, p: CallPhase): State requires i < |calls| {
      this.(calls := calls[i := calls[i].(at := p)])
    }
    function SetStop(j: nat, p: Stopper): State requires j < |stops| { this.(stops := stops[j := p]) }
    function SetWorker(w: nat, p: Worker): State requires w < |workers| { this.(workers := workers[w := p]) }

    predicate AllExited() { forall w :: 0 <= w < |workers| ==> workers[w].Exited? }

    /** Accepted events with no outcome yet. */
    function Outstanding(): int { |h.accepted| - |h.writtenEvents| - |h.failedEvents| }
  }

  function Initial(cfg: Tunables): State {
    State(cfg, FRESH, {}, None, [], [], [], false, false, 0, false,
          History([], [], [], [], [], [], [], 0))
  }

  datatype Step =
    | Start
    | CallEnter | CallLock(i: nat) | CallCheck(i: nat) | CallRefuse(i: nat) | CallSelect(i: nat) | CallUnlock(i: nat)
    | StopEnter | StopLock(j: nat) | StopCheck(j: nat) | StopFlag(j: nat) | StopClose(j: nat) | StopUnlock(j: nat)
    | DoneSignal(j: nat)
    | DrainDone(j: nat) | DrainTimeout(j: nat) | GraceDone(j: nat) | GraceOver(j: nat)
    | ReadDepth(j: nat) | CountUndrained(j: nat) | CloseWriter(j: nat) | SkipClose(j: nat)
    | Receive(w: nat) | ReceiveClosed(w: nat) | TimerFires(w: nat) | BatchFull(w: nat)
    | BeginWrite(w: nat) | WriteReturns(w: nat, ok: bool) | Release(w: nat) | Exit(w: nat)
  {
    predicate ByWorker() {
      Receive? || ReceiveClosed? || TimerFires? || BatchFull? || BeginWrite? || WriteReturns? || Release? || Exit?
    }
    predicate ByCall() { CallLock? || CallCheck? || CallRefuse? || CallSelect? || CallUnlock? }
    predicate ByStop() {
      StopLock? || StopCheck? || StopFlag? || StopClose? || StopUnlock? || DoneSignal? || DrainDone? || DrainTimeout?
      || GraceDone? || GraceOver? || ReadDepth? || CountUndrained? || CloseWriter? || SkipClose?
    }
  }

  // ----- when a step can happen

  predicate CallEnabled(s: State, st: Step)
    requires st.ByCall()
  {
    st.i < |s.calls| &&
    var at := s.calls[st.i].at;
    match st
    case CallLock(_) => at.Entered? && s.holder.None?
    case CallCheck(_) => at.Reading?
    case CallRefuse(_) => at.SawClosed?
    case CallSelect(_) => at.SawOpen?
    case CallUnlock(_) => at.Answered?
  }

  predicate StopEnabled(s: State, st: Step)
    requires st.ByStop()
  {
    st.j < |s.stops| &&
    var at := s.stops[st.j];
    match st
    case StopLock(_) => at.Waiting? && s.holder.None? && s.readers == {}
    case StopCheck(_) => at.Checking?
    case StopFlag(_) => at.MustClose?
    case StopClose(_) => at.Flagged?
    case StopUnlock(_) => at.Repeat? || at.ChanClosed?
    case DoneSignal(_) => at.Past() && s.AllExited()
    case DrainDone(_) => at.Draining? && s.doneSignalled
    case DrainTimeout(_) => at.Draining?
    case GraceDone(_) => at.Grace? && s.doneSignalled
    case GraceOver(_) => at.Grace?
    case ReadDepth(_) => at.Counting?
    case CountUndrained(_) => at.DepthRead?
    case CloseWriter(_) => at.Deciding? && s.doneSignalled
    case SkipClose(_) => at.Deciding? && !s.doneSignalled
  }

  predicate WorkerEnabled(s: State, st: Step)
    requires st.ByWorker()
  {
    st.w < |s.workers| &&
    var at := s.workers[st.w];
    match st
    case Receive(_) => s.sh.ch != [] && (at.Idle? || (at.Accumulating? && |at.batch| < s.cfg.maxBatch))
    case ReceiveClosed(_) =>
      s.sh.ch == [] && s.sh.chClosed && (at.Idle? || (at.Accumulating? && |at.batch| < s.cfg.maxBatch))
    case TimerFires(_) => at.Accumulating? && |at.batch| < s.cfg.maxBatch
    case BatchFull(_) => at.Accumulating? && |at.batch| >= s.cfg.maxBatch
    case BeginWrite(_) => at.Taken?
    case WriteReturns(_, _) => at.Writing?
    case Release(_) => at.Charged?
    case Exit(_) => at.Leaving?
  }

  /** Start runs once and before any Stop call. */
  predicate Enabled(s: State, st: Step) {
    if st.ByCall() then CallEnabled(s, st)
    else if st.ByStop() then StopEnabled(s, st)
    else if st.ByWorker() then WorkerEnabled(s, st)
    else if st.Start? then !s.started && s.stops == []
    else true
  }

  // ----- what a step does

  function ApplyCall(s: State, st: Step): State
    requires st.ByCall() && CallEnabled(s, st)
  {
    match st
    case CallLock(i) => s.SetCall(i, Reading).(readers := s.readers + {i})
    case CallCheck(i) => s.SetCall(i, if s.sh.closed then SawClosed else SawOpen)
    case CallRefuse(i) =>
      s.SetCall(i, Answered(false)).(sh := s.sh.Drop(1), h := s.h.(refused := s.h.refused + [i]))
    case CallSelect(i) =>
      // a send on a closed channel panics; a full channel takes the default branch
      if s.sh.chClosed then s.(panicked := true)
      else if |s.sh.ch| < s.cfg.capacity then
        s.SetCall(i, Answered(true)).(sh := s.sh.Send(i), h := s.h.(accepted := s.h.accepted + [i]))
      else
        s.SetCall(i, Answered(false)).(sh := s.sh.Drop(1), h := s.h.(refused := s.h.refused + [i]))
    case CallUnlock(i) => s.SetCall(i, Returned(s.calls[i].at.ok)).(readers := s.readers - {i})
  }

  function ApplyStop(s: State, st: Step): State
    requires st.ByStop() && StopEnabled(s, st)
  {
    match st
    case StopLock(j) => s.SetStop(j, Checking).(holder := Some(j))
    case StopCheck(j) => s.SetStop(j, if s.sh.closed then Repeat else MustClose)
    case StopFlag(j) => s.SetStop(j, Flagged).(sh := s.sh.(closed := true))
    case StopClose(j) =>
      if s.sh.chClosed then s.(panicked := true)
      else s.SetStop(j, ChanClosed).(sh := s.sh.(chClosed := true))
    case StopUnlock(j) => s.SetStop(j, if s.stops[j].Repeat? then Ignored else Draining).(holder := None)
    case DoneSignal(j) => s.(doneSignalled := true)
    case DrainDone(j) => s.SetStop(j, Deciding)
    case DrainTimeout(j) => s.SetStop(j, Grace)
    case GraceDone(j) => s.SetStop(j, Counting)
    case GraceOver(j) => s.SetStop(j, Counting)
    case ReadDepth(j) => s.SetStop(j, DepthRead(|s.sh.ch|, s.Outstanding()))
    case CountUndrained(j) =>
      var undrained := s.stops[j].depth + s.sh.inFlight;
      s.SetStop(j, Deciding).(sh := s.sh.Drop(undrained), h := s.h.(undrained := s.h.undrained + undrained))
    case CloseWriter(j) => s.SetStop(j, Finished(true)).(writerCloses := s.writerCloses + 1)
    case SkipClose(j) => s.SetStop(j, Finished(false))
  }

  function ApplyWorker(s: State, st: Step): State
    requires st.ByWorker() && WorkerEnabled(s, st)
  {
    match st
    case Receive(w) =>
      var e := s.sh.ch[0];
      s.SetWorker(w, if s.workers[w].Idle? then Accumulating([e]) else Accumulating(s.workers[w].batch + [e]))
       .(sh := s.sh.Receive(), h := s.h.(taken := s.h.taken + [e], takenBy := s.h.takenBy + [w]))
    case ReceiveClosed(w) =>
      s.SetWorker(w, if s.workers[w].Idle? then Leaving else Taken(s.workers[w].batch, false))
    case TimerFires(w) => s.SetWorker(w, Taken(s.workers[w].batch, true))
    case BatchFull(w) => s.SetWorker(w, Taken(s.workers[w].batch, true))
    case BeginWrite(w) =>
      var at := s.workers[w];
      s.SetWorker(w, Writing(at.batch, at.more))
       .(sh := s.sh.Begin(|at.batch|), h := s.h.(handed := s.h.handed + [Handed(w, at.batch)]))
    case WriteReturns(w, ok) =>
      var at := s.workers[w];
      s.SetWorker(w, Charged(at.batch, at.more))
       .(sh := s.sh.Charge(|at.batch|, ok),
         h := if ok then s.h.(writtenEvents := s.h.writtenEvents + at.batch)
              else s.h.(failedEvents := s.h.failedEvents + at.batch))
    case Release(w) =>
      var at := s.workers[w];
      s.SetWorker(w, if at.more then Idle else Leaving).(sh := s.sh.Release(|at.batch|))
    case Exit(w) => s.SetWorker(w, Exited)
  }

  function Apply(s: State, st: Step): State
    requires Enabled(s, st)
  {
    if st.ByCall() then ApplyCall(s, st)
    else if st.ByStop() then ApplyStop(s, st)
    else if st.ByWorker() then ApplyWorker(s, st)
    else if st.Start? then s.(started := true, workers := seq(s.cfg.workers, _ => Idle))
    else if st.CallEnter? then s.(calls := s.calls + [Call(s.sh.closed, Entered)])
    else s.(stops := s.stops + [Waiting])
  }

  /** The schedule can be followed from `s`. */
  ghost predicate CanRun(s: State, steps: seq<Step>)
    decreases |steps|
  {
    steps == [] || (Enabled(s, steps[0]) && CanRun(Apply(s, steps[0]), steps[1..]))
  }

  /** The state at the end of a schedule. */
  ghost function Run(s: State, steps: seq<Step>): State
    requires CanRun(s, steps)
    decreases |steps|
  {
    if steps == [] then s else Run(Apply(s, steps[0]), steps[1..])
  }
}
