/** What every interleaving of the batching queue keeps. */
module QueueSafety {
  import opened Prelude
  import opened QueueModel

  // ----- the inductive invariant

  /** The calls that hold the read lock are the ones whose phase says so. */
  ghost predicate Readers(readers: set<nat>, calls: seq<Call>) {
    && (forall i :: i in readers ==> i < |calls|)
    && (forall i :: 0 <= i < |calls| ==> (i in readers <==> calls[i].Holds()))
  }

  /** So is the Stop call that holds the write lock. */
  ghost predicate Writer(holder: Option<nat>, stops: seq<Stopper>) {
    && (holder.Some? ==> holder.value < |stops|)
    && (forall j :: 0 <= j < |stops| ==> (stops[j].Holds() <==> holder == Some(j)))
  }

  /** The read-write lock excludes as it should. */
  ghost predicate Locking(s: State) {
    Readers(s.readers, s.calls) && Writer(s.holder, s.stops) && (s.holder.Some? ==> s.readers == {})
  }

  predicate StopperOk(closed: bool, chClosed: bool, at: Stopper) {
    && (at.MustClose? ==> !closed)
    && (at.Repeat? || at.Ignored? ==> closed)
    && (at.Flagged? ==> closed && !chClosed)
    && (at.Owner() && !at.Flagged? ==> chClosed)
  }

  /** What the `closed` flag says about the channel and about each Stop call's view of it. */
  ghost predicate Closers(closed: bool, chClosed: bool, holder: Option<nat>, stops: seq<Stopper>) {
    && (chClosed ==> closed)
    && (closed && !chClosed ==> holder.Some? && holder.value < |stops| && stops[holder.value].Flagged?)
    && (stops == [] ==> !closed)
    && (forall j :: 0 <= j < |stops| ==> StopperOk(closed, chClosed, stops[j]))
    && (forall i, j :: 0 <= i < |stops| && 0 <= j < |stops| && stops[i].Owner() && stops[j].Owner() ==> i == j)
  }

  predicate CallOk(closed: bool, c: Call) {
    && (c.at.SawOpen? ==> !closed)
    && (c.late ==> closed && !c.at.SawOpen? && !c.Accepted())
  }

  ghost predicate Closing(s: State) {
    && !s.panicked
    && Closers(s.sh.closed, s.sh.chClosed, s.holder, s.stops)
    && (forall i :: 0 <= i < |s.calls| ==> CallOk(s.sh.closed, s.calls[i]))
  }

  predicate WorkerOk(maxBatch: nat, ended: bool, at: Worker) {
    && ((at.Accumulating? || at.Taken? || at.Writing? || at.Charged?) ==> 1 <= |at.batch| <= maxBatch)
    && (at.SawEnd() ==> ended)
  }

  /** Workers leave only when the closed channel is empty; the writer is closed only after that. */
  ghost predicate WorkersOk(s: State) {
    && |s.workers| == (if s.started then s.cfg.workers else 0)
    && |s.sh.ch| <= s.cfg.capacity
    && (forall w :: 0 <= w < |s.workers| ==>
          WorkerOk(s.cfg.maxBatch, s.sh.chClosed && s.sh.ch == [], s.workers[w]))
    && (s.doneSignalled ==> s.AllExited() && s.stops != [])
  }

  /** The writer is closed at most once, by the call that closed the queue, after every worker is done. */
  ghost predicate WriterClosing(s: State) {
    && s.writerCloses <= 1
    && (s.writerCloses > 0 ==> s.doneSignalled && s.sh.chClosed)
    && (forall j :: 0 <= j < |s.stops| && s.stops[j].Owner() && !s.stops[j].Finished? ==> s.writerCloses == 0)
  }

  /** The events held by all workers, as one collection. */
  ghost function HeldBy(ws: seq<Worker>): multiset<Event> {
    if ws == [] then multiset{} else multiset(ws[0].Holding()) + HeldBy(ws[1..])
  }

  predicate Distinct(es: seq<Event>) { forall i, j :: 0 <= i < j < |es| ==> es[i] != es[j] }

  /** Nothing is lost, nothing is counted twice. */
  ghost predicate Accounting(s: State) {
    && s.h.accepted == s.h.taken + s.sh.ch
    && multiset(s.h.taken) == HeldBy(s.workers) + multiset(s.h.writtenEvents) + multiset(s.h.failedEvents)
    && s.sh.inFlight == Weigh(s.workers, InFlightSize)
    && s.sh.written == |s.h.writtenEvents|
    && s.sh.writerErrors == |s.h.failedEvents|
    && s.sh.dropped == |s.h.refused| + s.h.undrained
  }

  /** `list` names exactly the calls answered with `ok`, each once. */
  ghost predicate Lists(list: seq<Event>, calls: seq<Call>, ok: bool) {
    && Distinct(list)
    && (forall e :: e in list <==> 0 <= e < |calls| && (if ok then calls[e].Accepted() else calls[e].Refused()))
  }

  /** Every call that has been answered is in exactly one of the two lists, once. */
  ghost predicate Answers(s: State) {
    && Lists(s.h.accepted, s.calls, true)
    && Lists(s.h.refused, s.calls, false)
    && |s.calls| == |s.h.accepted| + |s.h.refused| + Weigh(s.calls, PendingCall)
  }

  /** The events worker `w` received, in the order it received them. */
  ghost function ReceivedBy(taken: seq<Event>, takenBy: seq<nat>, w: nat): seq<Event>
    requires |taken| == |takenBy|
  {
    if taken == [] then []
    else
      var n := |taken| - 1;
      ReceivedBy(taken[..n], takenBy[..n], w) + (if takenBy[n] == w then [taken[n]] else [])
  }

  /** The events worker `w` has handed to WriteBatch, batch after batch. */
  ghost function HandedBy(handed: seq<Handed>, w: nat): seq<Event> {
    if handed == [] then []
    else
      var n := |handed| - 1;
      HandedBy(handed[..n], w) + (if handed[n].worker == w then handed[n].batch else [])
  }

  /** Each worker hands on exactly what it received, in order, in batches of legal size. */
  ghost predicate Ordered(s: State) {
    && |s.h.taken| == |s.h.takenBy|
    && (s.workers == [] ==> s.h.taken == [] && s.h.handed == [])
    && (forall k :: 0 <= k < |s.h.takenBy| ==> s.h.takenBy[k] < |s.workers|)
    && (forall k :: 0 <= k < |s.h.handed| ==>
          s.h.handed[k].worker < |s.workers| && 1 <= |s.h.handed[k].batch| <= s.cfg.maxBatch)
    && (forall w :: 0 <= w < |s.workers| ==>
          ReceivedBy(s.h.taken, s.h.takenBy, w) == HandedBy(s.h.handed, w) + s.workers[w].Unbegun())
  }

  /** The depth read by a timed-out Stop brackets what is in the channel now and was outstanding then. */
  ghost predicate Measured(s: State) {
    forall j :: 0 <= j < |s.stops| && s.stops[j].DepthRead? ==> |s.sh.ch| <= s.stops[j].depth <= s.stops[j].owed
  }

  ghost predicate Inv(s: State) {
    Locking(s) && Closing(s) && WorkersOk(s) && WriterClosing(s) && Accounting(s) && Answers(s) && Ordered(s) && Measured(s)
  }

  // ----- arithmetic of collections

  lemma SwapUnder(h: multiset<Event>, a: multiset<Event>, b: multiset<Event>, c: multiset<Event>, d: multiset<Event>)
    requires a + b == c + d
    ensures (h + a) + b == (h + c) + d
  {
    assert (h + a) + b == h + (a + b);
    assert (h + c) + d == h + (c + d);
  }

  lemma {:induction false} HeldByUpdate(ws: seq<Worker>, i: nat, x: Worker)
    requires i < |ws|
    ensures HeldBy(ws[i := x]) + multiset(ws[i].Holding()) == HeldBy(ws) + multiset(x.Holding())
    decreases ws
  {
    if i == 0 {
      assert ws[i := x][1..] == ws[1..];
    } else {
      assert ws[i := x][1..] == ws[1..][i - 1 := x];
      HeldByUpdate(ws[1..], i - 1, x);
      var rest := ws[1..];
      SwapUnder(multiset(ws[0].Holding()), HeldBy(rest[i - 1 := x]), multiset(ws[i].Holding()), HeldBy(rest), multiset(x.Holding()));
    }
  }

  lemma {:induction false} HeldBySize(ws: seq<Worker>)
    ensures |HeldBy(ws)| == Weigh(ws, HeldSize)
  {
    if ws != [] {
      HeldBySize(ws[1..]);
    }
  }

  lemma {:induction false} HeldByNone(ws: seq<Worker>)
    requires forall w :: 0 <= w < |ws| ==> ws[w].Holding() == []
    ensures HeldBy(ws) == multiset{}
  {
    if ws != [] {
      HeldByNone(ws[1..]);
    }
  }

  lemma ReceivedBySnoc(taken: seq<Event>, takenBy: seq<nat>, e: Event, v: nat, w: nat)
    requires |taken| == |takenBy|
    ensures ReceivedBy(taken + [e], takenBy + [v], w) == ReceivedBy(taken, takenBy, w) + (if v == w then [e] else [])
  {
    assert (taken + [e])[..|taken|] == taken && (takenBy + [v])[..|taken|] == takenBy;
  }

  lemma HandedBySnoc(handed: seq<Handed>, x: Handed, w: nat)
    ensures HandedBy(handed + [x], w) == HandedBy(handed, w) + (if x.worker == w then x.batch else [])
  {
    assert (handed + [x])[..|handed|] == handed;
  }

  // ----- the locks and the closed flag

  lemma ReadersUpdate(readers: set<nat>, calls: seq<Call>, i: nat, c: Call)
    requires Readers(readers, calls) && i < |calls|
    ensures Readers(if c.Holds() then readers + {i} else readers - {i}, calls[i := c])
  {}

  lemma LockingKept(s: State, st: Step)
    requires Locking(s) && Enabled(s, st)
    ensures Locking(Apply(s, st))
  {
    if st.ByCall() {
      LockingKeptByCall(s, st);
    } else if st.ByStop() {
      LockingKeptByStop(s, st);
    }
  }

  lemma LockingKeptByCall(s: State, st: Step)
    requires Locking(s) && st.ByCall() && CallEnabled(s, st)
    ensures Locking(ApplyCall(s, st))
  {
    var t := ApplyCall(s, st);
    var c := t.calls[st.i];
    ReadersUpdate(s.readers, s.calls, st.i, c);
    assert s.calls[st.i := c] == t.calls;
    assert t.readers == if c.Holds() then s.readers + {st.i} else s.readers - {st.i};
  }

  lemma LockingKeptByStop(s: State, st: Step)
    requires Locking(s) && st.ByStop() && StopEnabled(s, st)
    ensures Locking(ApplyStop(s, st))
  {
    var t := ApplyStop(s, st);
    assert s.stops[st.j].Holds() <==> s.holder == Some(st.j);
    assert t.stops == s.stops[st.j := t.stops[st.j]];
    assert t.stops[st.j].Holds() <==> t.holder == Some(st.j);
  }

  /** A Stop call moving between phases other than `Flagged`, with both flags as they were. */
  lemma ClosersMove(closed: bool, chClosed: bool, holder: Option<nat>, stops: seq<Stopper>, j: nat, at: Stopper, next: Option<nat>)
    requires Closers(closed, chClosed, holder, stops) && j < |stops|
    requires StopperOk(closed, chClosed, at) && !stops[j].Flagged? && !at.Flagged?
    requires at.Owner() ==> stops[j].Owner()
    requires closed && !chClosed ==> next == holder
    ensures Closers(closed, chClosed, next, stops[j := at])
  {
    var ts := stops[j := at];
    assert forall i :: 0 <= i < |ts| && ts[i].Owner() ==> stops[i].Owner();
  }

  /** Nobody is an owner while the queue is open. */
  lemma NoOwnerWhileOpen(closed: bool, chClosed: bool, holder: Option<nat>, stops: seq<Stopper>)
    requires Closers(closed, chClosed, holder, stops) && !closed
    ensures forall j :: 0 <= j < |stops| ==> !stops[j].Owner()
  {
    forall j | 0 <= j < |stops| ensures !stops[j].Owner() {
      assert StopperOk(closed, chClosed, stops[j]);
    }
  }

  lemma ClosersKeptByStop(s: State, st: Step)
    requires Locking(s) && Closing(s) && st.ByStop() && StopEnabled(s, st)
    ensures var t := ApplyStop(s, st); !t.panicked && Closers(t.sh.closed, t.sh.chClosed, t.holder, t.stops)
  {
    var t := ApplyStop(s, st);
    var at := s.stops[st.j];
    assert StopperOk(s.sh.closed, s.sh.chClosed, at);
    assert at.Holds() <==> s.holder == Some(st.j);
    if st.StopFlag? {
      NoOwnerWhileOpen(s.sh.closed, s.sh.chClosed, s.holder, s.stops);
      forall j | 0 <= j < |t.stops| ensures StopperOk(true, false, t.stops[j]) {
        assert s.stops[j].Holds() <==> s.holder == Some(j);
      }
    } else if st.StopClose? {
      forall j | 0 <= j < |t.stops| ensures StopperOk(true, true, t.stops[j]) {
        assert StopperOk(s.sh.closed, s.sh.chClosed, s.stops[j]);
        assert s.stops[j].Holds() <==> s.holder == Some(j);
      }
      assert forall i :: 0 <= i < |t.stops| && t.stops[i].Owner() ==> s.stops[i].Owner();
    } else {
      ClosersMove(s.sh.closed, s.sh.chClosed, s.holder, s.stops, st.j, t.stops[st.j], t.holder);
      assert t.stops == s.stops[st.j := t.stops[st.j]];
    }
  }

  lemma ClosingKept(s: State, st: Step)
    requires Locking(s) && Closing(s) && Enabled(s, st)
    ensures Closing(Apply(s, st))
  {
    var t := Apply(s, st);
    if st.ByCall() {
      assert CallOk(s.sh.closed, s.calls[st.i]);
    } else if st.ByStop() {
      ClosersKeptByStop(s, st);
      // the flag is raised only while nobody holds the read lock
      assert s.stops[st.j].Holds() <==> s.holder == Some(st.j);
      forall i | 0 <= i < |s.calls| ensures CallOk(t.sh.closed, s.calls[i]) {
        assert CallOk(s.sh.closed, s.calls[i]);
        assert i in s.readers <==> s.calls[i].Holds();
      }
    }
  }

  // ----- draining and closing the writer

  lemma WorkersKept(s: State, st: Step)
    requires Locking(s) && Closing(s) && WorkersOk(s) && Enabled(s, st)
    ensures WorkersOk(Apply(s, st))
  {
    if st.ByCall() {
      assert CallOk(s.sh.closed, s.calls[st.i]);
      var t := ApplyCall(s, st);
      forall w | 0 <= w < |t.workers|
        ensures WorkerOk(t.cfg.maxBatch, t.sh.chClosed && t.sh.ch == [], t.workers[w])
      {
        assert WorkerOk(s.cfg.maxBatch, s.sh.chClosed && s.sh.ch == [], s.workers[w]);
      }
    } else if st.ByStop() {
      var t := ApplyStop(s, st);
      forall w | 0 <= w < |t.workers|
        ensures WorkerOk(t.cfg.maxBatch, t.sh.chClosed && t.sh.ch == [], t.workers[w])
      {
        assert WorkerOk(s.cfg.maxBatch, s.sh.chClosed && s.sh.ch == [], s.workers[w]);
      }
    } else if st.ByWorker() {
      WorkersKeptByWorker(s, st);
    }
  }

  lemma WorkersKeptByWorker(s: State, st: Step)
    requires WorkersOk(s) && st.ByWorker() && WorkerEnabled(s, st)
    ensures WorkersOk(ApplyWorker(s, st))
  {
    var t := ApplyWorker(s, st);
    assert WorkerOk(s.cfg.maxBatch, s.sh.chClosed && s.sh.ch == [], s.workers[st.w]);
    forall w | 0 <= w < |t.workers|
      ensures WorkerOk(t.cfg.maxBatch, t.sh.chClosed && t.sh.ch == [], t.workers[w])
    {
      assert WorkerOk(s.cfg.maxBatch, s.sh.chClosed && s.sh.ch == [], s.workers[w]);
    }
  }

  lemma WriterClosingKept(s: State, st: Step)
    requires Locking(s) && Closing(s) && WriterClosing(s) && Enabled(s, st)
    ensures WriterClosing(Apply(s, st))
  {
    if st.ByCall() {
      assert ApplyCall(s, st).sh.chClosed == s.sh.chClosed;
    } else if st.ByStop() {
      WriterClosingKeptByStop(s, st);
    } else if st.ByWorker() {
      assert ApplyWorker(s, st).sh.chClosed == s.sh.chClosed;
    }
  }

  lemma WriterClosingKeptByStop(s: State, st: Step)
    requires Locking(s) && Closing(s) && WriterClosing(s) && st.ByStop() && StopEnabled(s, st)
    ensures WriterClosing(ApplyStop(s, st))
  {
    assert StopperOk(s.sh.closed, s.sh.chClosed, s.stops[st.j]);
    var t := ApplyStop(s, st);
    forall j | 0 <= j < |t.stops| && t.stops[j].Owner() && !t.stops[j].Finished?
      ensures t.writerCloses == 0
    {
      assert j != st.j ==> s.stops[j] == t.stops[j];
    }
  }

  // ----- conservation

  /** The counters, and the channel as what is accepted and not yet taken. */
  predicate Totals(sh: Shared, h: History) {
    && h.accepted == h.taken + sh.ch
    && sh.written == |h.writtenEvents|
    && sh.writerErrors == |h.failedEvents|
    && sh.dropped == |h.refused| + h.undrained
  }

  lemma SendBack(taken: seq<Event>, ch: seq<Event>, e: Event)
    ensures taken + (ch + [e]) == (taken + ch) + [e]
  {}

  lemma TotalsKeptByCall(s: State, st: Step)
    requires Totals(s.sh, s.h) && st.ByCall() && CallEnabled(s, st)
    ensures Totals(ApplyCall(s, st).sh, ApplyCall(s, st).h)
  {
    SendBack(s.h.taken, s.sh.ch, st.i);
  }

  lemma AccountingKept(s: State, st: Step)
    requires Accounting(s) && WorkersOk(s) && Enabled(s, st)
    ensures Accounting(Apply(s, st))
  {
    if st.ByCall() {
      AccountingKeptByCall(s, st);
    } else if st.ByWorker() {
      AccountingKeptByWorker(s, st);
    } else if st.Start? {
      AccountingKeptByStart(s, st);
    }
  }

  lemma AccountingKeptByCall(s: State, st: Step)
    requires Accounting(s) && st.ByCall() && CallEnabled(s, st)
    ensures Accounting(ApplyCall(s, st))
  {
    TotalsKeptByCall(s, st);
    var t := ApplyCall(s, st);
    assert t.workers == s.workers && t.sh.inFlight == s.sh.inFlight && t.h.taken == s.h.taken;
  }

  lemma AccountingKeptByStart(s: State, st: Step)
    requires Accounting(s) && WorkersOk(s) && st.Start? && Enabled(s, st)
    ensures Accounting(Apply(s, st))
  {
    var t := Apply(s, st);
    HeldByNone(s.workers);
    HeldByNone(t.workers);
    WeighZero(s.workers, InFlightSize);
    WeighZero(t.workers, InFlightSize);
  }

  /** inFlight moves with the batches it counts. */
  lemma InFlightKept(s: State, st: Step)
    requires Accounting(s) && st.ByWorker() && WorkerEnabled(s, st)
    ensures var t := ApplyWorker(s, st); t.sh.inFlight == Weigh(t.workers, InFlightSize)
  {
    var t := ApplyWorker(s, st);
    var x := t.workers[st.w];
    assert t.workers == s.workers[st.w := x];
    WeighUpdate(s.workers, st.w, x, InFlightSize);
  }

  lemma LedgerAlgebra(taken: multiset<Event>, e: multiset<Event>, held: multiset<Event>, held': multiset<Event>,
                      was: multiset<Event>, now: multiset<Event>, w: multiset<Event>, f: multiset<Event>)
    requires taken == held + w + f
    requires held' + was == held + now
    requires now == was + e
    ensures taken + e == held' + w + f
  {
    assert held' == held + e by {
      forall x ensures held'[x] == (held + e)[x] {
        assert (held' + was)[x] == (held + now)[x];
      }
    }
  }

  lemma LedgerMove(held: multiset<Event>, held': multiset<Event>, batch: multiset<Event>, w: multiset<Event>, f: multiset<Event>)
    requires held' + batch == held
    ensures held + w + f == held' + (w + batch) + f
    ensures held + w + f == held' + w + (f + batch)
  {}

  lemma Cancel(a: multiset<Event>, b: multiset<Event>, c: multiset<Event>)
    requires a + c == b + c
    ensures a == b
  {
    forall x ensures a[x] == b[x] {
      assert (a + c)[x] == (b + c)[x];
    }
  }

  ghost predicate Ledger(s: State) {
    multiset(s.h.taken) == HeldBy(s.workers) + multiset(s.h.writtenEvents) + multiset(s.h.failedEvents)
  }

  lemma LedgerKeptByReceive(s: State, w: nat)
    requires Ledger(s) && WorkerEnabled(s, Receive(w))
    ensures Ledger(ApplyWorker(s, Receive(w)))
  {
    var t := ApplyWorker(s, Receive(w));
    var at, x := s.workers[w], t.workers[w];
    HeldByUpdate(s.workers, w, x);
    var e := multiset{s.sh.ch[0]};
    assert x.Holding() == at.Holding() + [s.sh.ch[0]];
    assert multiset(t.h.taken) == multiset(s.h.taken) + e;
    LedgerAlgebra(multiset(s.h.taken), e, HeldBy(s.workers), HeldBy(t.workers), multiset(at.Holding()),
                  multiset(x.Holding()), multiset(s.h.writtenEvents), multiset(s.h.failedEvents));
  }

  lemma LedgerKeptByReturn(s: State, w: nat, ok: bool)
    requires Ledger(s) && WorkerEnabled(s, WriteReturns(w, ok))
    ensures Ledger(ApplyWorker(s, WriteReturns(w, ok)))
  {
    var t := ApplyWorker(s, WriteReturns(w, ok));
    var at, x := s.workers[w], t.workers[w];
    HeldByUpdate(s.workers, w, x);
    assert x.Holding() == [] && at.Holding() == at.batch;
    LedgerMove(HeldBy(s.workers), HeldBy(t.workers), multiset(at.batch), multiset(s.h.writtenEvents), multiset(s.h.failedEvents));
  }

  lemma LedgerKept(s: State, st: Step)
    requires Ledger(s) && st.ByWorker() && WorkerEnabled(s, st)
    ensures Ledger(ApplyWorker(s, st))
  {
    if st.WriteReturns? {
      LedgerKeptByReturn(s, st.w, st.ok);
    } else if st.Receive? {
      LedgerKeptByReceive(s, st.w);
    } else {
      var t := ApplyWorker(s, st);
      var at, x := s.workers[st.w], t.workers[st.w];
      HeldByUpdate(s.workers, st.w, x);
      assert x.Holding() == at.Holding();
      Cancel(HeldBy(t.workers), HeldBy(s.workers), multiset(at.Holding()));
    }
  }

  lemma TakeFront(taken: seq<Event>, ch: seq<Event>)
    requires ch != []
    ensures taken + ch == (taken + [ch[0]]) + ch[1..]
  {}

  lemma TotalsKept(s: State, st: Step)
    requires Totals(s.sh, s.h) && st.ByWorker() && WorkerEnabled(s, st)
    ensures Totals(ApplyWorker(s, st).sh, ApplyWorker(s, st).h)
  {
    if st.Receive? {
      TakeFront(s.h.taken, s.sh.ch);
    }
  }

  lemma AccountingKeptByWorker(s: State, st: Step)
    requires Accounting(s) && st.ByWorker() && WorkerEnabled(s, st)
    ensures Accounting(ApplyWorker(s, st))
  {
    InFlightKept(s, st);
    LedgerKept(s, st);
    TotalsKept(s, st);
  }

  /** Answering call `i` adds it to one list and leaves the other alone. */
  lemma ListsUpdate(list: seq<Event>, calls: seq<Call>, ok: bool, i: nat, c: Call)
    requires Lists(list, calls, ok) && i < |calls| && calls[i].Pending()
    ensures Lists(if !c.Pending() && c.at.ok == ok then list + [i] else list, calls[i := c], ok)
  {
    assert i !in list;
  }

  lemma ListsStay(list: seq<Event>, calls: seq<Call>, ok: bool, i: nat, c: Call)
    requires Lists(list, calls, ok) && i < |calls| && !calls[i].Pending() && !c.Pending() && c.at.ok == calls[i].at.ok
    ensures Lists(list, calls[i := c], ok)
  {}

  lemma AnswersKeptByUnlock(s: State, i: nat)
    requires Answers(s) && CallEnabled(s, CallUnlock(i))
    ensures Answers(ApplyCall(s, CallUnlock(i)))
  {
    var c := Call(s.calls[i].late, Returned(s.calls[i].at.ok));
    WeighUpdate(s.calls, i, c, PendingCall);
    ListsStay(s.h.accepted, s.calls, true, i, c);
    ListsStay(s.h.refused, s.calls, false, i, c);
  }

  lemma AnswersKeptByCall(s: State, st: Step)
    requires Answers(s) && st.ByCall() && CallEnabled(s, st)
    ensures Answers(ApplyCall(s, st))
  {
    if st.CallUnlock? {
      AnswersKeptByUnlock(s, st.i);
    } else {
      var t := ApplyCall(s, st);
      var c := t.calls[st.i];
      assert t.calls == s.calls[st.i := c];
      assert t.h.accepted == if !c.Pending() && c.at.ok then s.h.accepted + [st.i] else s.h.accepted;
      assert t.h.refused == if !c.Pending() && !c.at.ok then s.h.refused + [st.i] else s.h.refused;
      AnswersGrow(s, st.i, c, t);
    }
  }

  lemma AnswersGrow(s: State, i: nat, c: Call, t: State)
    requires Answers(s) && i < |s.calls| && s.calls[i].Pending() && t.calls == s.calls[i := c]
    requires t.h.accepted == if !c.Pending() && c.at.ok then s.h.accepted + [i] else s.h.accepted
    requires t.h.refused == if !c.Pending() && !c.at.ok then s.h.refused + [i] else s.h.refused
    ensures Answers(t)
  {
    WeighUpdate(s.calls, i, c, PendingCall);
    ListsUpdate(s.h.accepted, s.calls, true, i, c);
    ListsUpdate(s.h.refused, s.calls, false, i, c);
  }

  lemma AnswersKept(s: State, st: Step)
    requires Answers(s) && Enabled(s, st)
    ensures Answers(Apply(s, st))
  {
    if st.ByCall() {
      AnswersKeptByCall(s, st);
    } else if st.CallEnter? {
      var t := Apply(s, st);
      WeighSnoc(s.calls, t.calls[|s.calls|], PendingCall);
    }
  }

  // ----- order

  lemma OrderedKept(s: State, st: Step)
    requires Ordered(s) && WorkersOk(s) && Enabled(s, st)
    ensures Ordered(Apply(s, st))
  {
    if st.ByWorker() {
      OrderedKeptByWorker(s, st);
    } else if st.Start? {
      OrderedKeptByStart(s, st);
    } else {
      OtherStepsKeepHistory(s, st);
      OrderedFrame(s, Apply(s, st));
    }
  }

  lemma OrderedKeptByStart(s: State, st: Step)
    requires Ordered(s) && WorkersOk(s) && st.Start? && Enabled(s, st)
    ensures Ordered(Apply(s, st))
  {
    var t := Apply(s, st);
    assert forall w :: 0 <= w < |t.workers| ==> t.workers[w].Unbegun() == [];
  }

  lemma OtherStepsKeepHistory(s: State, st: Step)
    requires Enabled(s, st) && !st.ByWorker() && !st.Start?
    ensures var t := Apply(s, st);
      && t.h.taken == s.h.taken && t.h.takenBy == s.h.takenBy && t.h.handed == s.h.handed
      && t.workers == s.workers && t.cfg == s.cfg
  {
    if st.ByCall() {
      assert ApplyCall(s, st).h.taken == s.h.taken;
    } else if st.ByStop() {
      assert ApplyStop(s, st).h.taken == s.h.taken;
    }
  }

  lemma OrderedFrame(s: State, t: State)
    requires Ordered(s) && t.h.taken == s.h.taken && t.h.takenBy == s.h.takenBy && t.h.handed == s.h.handed
    requires t.workers == s.workers && t.cfg == s.cfg
    ensures Ordered(t)
  {}

  lemma OrderedKeptByWorker(s: State, st: Step)
    requires Ordered(s) && WorkersOk(s) && st.ByWorker() && WorkerEnabled(s, st)
    ensures Ordered(ApplyWorker(s, st))
  {
    SizesKeptByWorker(s, st);
    OrdersKeptByWorker(s, st);
    OrderedOf(ApplyWorker(s, st));
  }

  ghost predicate OrderForAll(h: History, ws: seq<Worker>) {
    |h.taken| == |h.takenBy| && forall w :: 0 <= w < |ws| ==> OrderFor(h, ws, w)
  }

  ghost predicate Sizes(h: History, ws: seq<Worker>, maxBatch: nat) {
    && (ws == [] ==> h.taken == [] && h.handed == [])
    && (forall k :: 0 <= k < |h.takenBy| ==> h.takenBy[k] < |ws|)
    && (forall k :: 0 <= k < |h.handed| ==> h.handed[k].worker < |ws| && 1 <= |h.handed[k].batch| <= maxBatch)
  }

  lemma OrderedOf(t: State)
    requires Sizes(t.h, t.workers, t.cfg.maxBatch) && OrderForAll(t.h, t.workers)
    ensures Ordered(t)
  {
    forall w | 0 <= w < |t.workers|
      ensures ReceivedBy(t.h.taken, t.h.takenBy, w) == HandedBy(t.h.handed, w) + t.workers[w].Unbegun()
    {
      assert OrderFor(t.h, t.workers, w);
    }
  }

  lemma OrdersKeptByWorker(s: State, st: Step)
    requires Ordered(s) && st.ByWorker() && WorkerEnabled(s, st)
    ensures OrderForAll(ApplyWorker(s, st).h, ApplyWorker(s, st).workers)
  {
    var h, ws := ApplyWorker(s, st).h, ApplyWorker(s, st).workers;
    LengthsKeptByWorker(s, st);
    forall w | 0 <= w < |ws| ensures OrderFor(h, ws, w) {
      assert OrderFor(s.h, s.workers, w);
      OrderKeptFor(s, st, w);
    }
  }

  lemma LengthsKeptByWorker(s: State, st: Step)
    requires |s.h.taken| == |s.h.takenBy| && st.ByWorker() && WorkerEnabled(s, st)
    ensures var t := ApplyWorker(s, st); |t.h.taken| == |t.h.takenBy| && |t.workers| == |s.workers|
  {}

  lemma SizesKeptByWorker(s: State, st: Step)
    requires Ordered(s) && WorkersOk(s) && st.ByWorker() && WorkerEnabled(s, st)
    ensures var t := ApplyWorker(s, st); Sizes(t.h, t.workers, t.cfg.maxBatch)
  {
    assert WorkerOk(s.cfg.maxBatch, s.sh.chClosed && s.sh.ch == [], s.workers[st.w]);
  }

  ghost predicate OrderFor(h: History, ws: seq<Worker>, w: nat) {
    && w < |ws| && |h.taken| == |h.takenBy|
    && ReceivedBy(h.taken, h.takenBy, w) == HandedBy(h.handed, w) + ws[w].Unbegun()
  }

  lemma OrderKeptByReceive(s: State, v: nat, w: nat)
    requires WorkerEnabled(s, Receive(v)) && OrderFor(s.h, s.workers, w)
    ensures var t := ApplyWorker(s, Receive(v)); OrderFor(t.h, t.workers, w)
  {
    var t := ApplyWorker(s, Receive(v));
    ReceivedBySnoc(s.h.taken, s.h.takenBy, s.sh.ch[0], v, w);
    assert t.workers[w].Unbegun() == s.workers[w].Unbegun() + if v == w then [s.sh.ch[0]] else [];
  }

  lemma OrderKeptByBegin(s: State, v: nat, w: nat)
    requires WorkerEnabled(s, BeginWrite(v)) && OrderFor(s.h, s.workers, w)
    ensures var t := ApplyWorker(s, BeginWrite(v)); OrderFor(t.h, t.workers, w)
  {
    HandedBySnoc(s.h.handed, Handed(v, s.workers[v].batch), w);
  }

  lemma OrderKeptFor(s: State, st: Step, w: nat)
    requires st.ByWorker() && WorkerEnabled(s, st) && OrderFor(s.h, s.workers, w)
    ensures var t := ApplyWorker(s, st); OrderFor(t.h, t.workers, w)
  {
    if st.Receive? {
      OrderKeptByReceive(s, st.w, w);
    } else if st.BeginWrite? {
      OrderKeptByBegin(s, st.w, w);
    } else {
      var t := ApplyWorker(s, st);
      assert t.h.taken == s.h.taken && t.h.takenBy == s.h.takenBy && t.h.handed == s.h.handed;
      assert t.workers[w].Unbegun() == s.workers[w].Unbegun();
    }
  }

  // ----- the drain report

  /** Accepted events without an outcome are in the channel or in a worker's hands. */
  lemma OutstandingIs(s: State)
    requires Accounting(s)
    ensures s.Outstanding() == |s.sh.ch| + Weigh(s.workers, HeldSize)
  {
    assert |multiset(s.h.taken)| == |HeldBy(s.workers)| + |multiset(s.h.writtenEvents)| + |multiset(s.h.failedEvents)|;
    HeldBySize(s.workers);
  }

  lemma MeasuredKept(s: State, st: Step)
    requires Locking(s) && Closing(s) && Accounting(s) && Measured(s) && Enabled(s, st)
    ensures Measured(Apply(s, st))
  {
    var t := Apply(s, st);
    OutstandingIs(s);
    forall j | 0 <= j < |t.stops| && t.stops[j].DepthRead?
      ensures |t.sh.ch| <= t.stops[j].depth <= t.stops[j].owed
    {
      if st.ByCall() {
        assert CallOk(s.sh.closed, s.calls[st.i]);
        assert StopperOk(s.sh.closed, s.sh.chClosed, s.stops[j]);
      }
    }
  }

  // ----- every reachable state

  lemma InvInitial(cfg: Tunables)
    ensures Inv(Initial(cfg))
  {
    LocksInitial(cfg);
    RecordsInitial(cfg);
  }

  lemma LocksInitial(cfg: Tunables)
    ensures var s := Initial(cfg); Locking(s) && Closing(s) && WorkersOk(s) && WriterClosing(s) && Measured(s)
  {}

  lemma RecordsInitial(cfg: Tunables)
    ensures var s := Initial(cfg); Accounting(s) && Answers(s) && Ordered(s)
  {
    var s := Initial(cfg);
    assert HeldBy(s.workers) == multiset{} && Weigh(s.workers, InFlightSize) == 0;
  }

  lemma InvKept(s: State, st: Step)
    requires Inv(s) && Enabled(s, st)
    ensures Inv(Apply(s, st))
  {
    LockingKept(s, st);
    ClosingKept(s, st);
    WorkersKept(s, st);
    WriterClosingKept(s, st);
    AccountingKept(s, st);
    AnswersKept(s, st);
    OrderedKept(s, st);
    MeasuredKept(s, st);
  }

  lemma {:induction false} InvAfter(s: State, steps: seq<Step>)
    requires Inv(s) && CanRun(s, steps)
    ensures Inv(Run(s, steps))
    decreases |steps|
  {
    if steps != [] {
      InvKept(s, steps[0]);
      InvAfter(Apply(s, steps[0]), steps[1..]);
    }
  }

  /** `s` is reached from a fresh queue by some schedule. */
  ghost predicate Reachable(s: State) {
    exists cfg: Tunables, steps :: CanRun(Initial(cfg), steps) && Run(Initial(cfg), steps) == s
  }

  lemma ReachableInv(s: State)
    requires Reachable(s)
    ensures Inv(s)
  {
    var cfg: Tunables, steps :| CanRun(Initial(cfg), steps) && Run(Initial(cfg), steps) == s;
    InvInitial(cfg);
    InvAfter(Initial(cfg), steps);
  }
}
