/** The publisher table of pkg/metrics/metrics.go: a peer is created by its first request, below a cap;
    registrations and heartbeats only count for peers that exist. */
module Peers {
  import opened Prelude
  import opened Labels

  const MAX_PEERS := 64

  datatype PeerStat = PeerStat(lastRequestUnix: int, registrations: nat, heartbeats: nat)

  datatype Op = Request(host: string, unix: int) | Registration(host: string) | Heartbeat(host: string)

  datatype Table = Table(peers: map<string, PeerStat>, dropped: nat)

  const EMPTY := Table(map[], 0)

  /** One call on its own. */
  function Effect(t: Table, op: Op): Table {
    match op
    case Request(h, unix) =>
      if h in t.peers then t.(peers := t.peers[h := t.peers[h].(lastRequestUnix := unix)])
      else if |t.peers| >= MAX_PEERS then t.(dropped := t.dropped + 1)
      else t.(peers := t.peers[h := PeerStat(unix, 0, 0)])
    case Registration(h) =>
      if h in t.peers then t.(peers := t.peers[h := t.peers[h].(registrations := t.peers[h].registrations + 1)]) else t
    case Heartbeat(h) =>
      if h in t.peers then t.(peers := t.peers[h := t.peers[h].(heartbeats := t.peers[h].heartbeats + 1)]) else t
  }

  function EffectAll(ops: seq<Op>): Table {
    if ops == [] then EMPTY else Effect(EffectAll(ops[..|ops| - 1]), ops[|ops| - 1])
  }

  /** The hosts of the requests, in order. */
  function Hosts(ops: seq<Op>): seq<string> {
    if ops == [] then []
    else Hosts(ops[..|ops| - 1]) + (if ops[|ops| - 1].Request? then [ops[|ops| - 1].host] else [])
  }

  /** Requests from hosts outside `kept`. */
  function Outside(hosts: seq<string>, kept: set<string>): nat {
    if hosts == [] then 0
    else Outside(hosts[..|hosts| - 1], kept) + if hosts[|hosts| - 1] in kept then 0 else 1
  }

  lemma {:induction false} NoneOutside(hosts: seq<string>, kept: set<string>)
    requires forall h :: h in hosts ==> h in kept
    ensures Outside(hosts, kept) == 0
    decreases |hosts|
  {
    if hosts != [] {
      NoneOutside(hosts[..|hosts| - 1], kept);
    }
  }

  lemma OutsideSnoc(hosts: seq<string>, h: string, kept: set<string>)
    ensures Outside(hosts + [h], kept) == Outside(hosts, kept) + if h in kept then 0 else 1
  {
    assert (hosts + [h])[..|hosts|] == hosts;
  }

  /** The table has exactly the first 64 distinct hosts that sent a request, never more; the drop counter
      has every request from any other host and none from these. */
  lemma {:induction false} PeersAre(ops: seq<Op>)
    ensures var t, fs := EffectAll(ops), CappedTo(Firsts(Hosts(ops)), MAX_PEERS);
      && |t.peers| == |fs| <= MAX_PEERS
      && (forall h :: h in t.peers <==> h in fs)
      && t.dropped == Outside(Hosts(ops), t.peers.Keys)
    decreases |ops|
  {
    if ops != [] {
      var front, op := ops[..|ops| - 1], ops[|ops| - 1];
      PeersAre(front);
      FirstsHas(Hosts(front));
      if op.Request? {
        RequestStep(front, op.host, op.unix);
      } else {
        assert Hosts(ops) == Hosts(front);
        assert EffectAll(ops).peers.Keys == EffectAll(front).peers.Keys;
        assert |EffectAll(ops).peers.Keys| == |EffectAll(front).peers.Keys|;
      }
    }
  }

  lemma RequestStep(front: seq<Op>, h: string, unix: int)
    requires var t, fs := EffectAll(front), CappedTo(Firsts(Hosts(front)), MAX_PEERS);
      && |t.peers| == |fs| && (forall k :: k in t.peers <==> k in fs) && t.dropped == Outside(Hosts(front), t.peers.Keys)
    requires forall k :: k in Firsts(Hosts(front)) <==> k in Hosts(front)
    ensures var t, fs := Effect(EffectAll(front), Request(h, unix)), CappedTo(Firsts(Hosts(front) + [h]), MAX_PEERS);
      && |t.peers| == |fs| <= MAX_PEERS
      && (forall k :: k in t.peers <==> k in fs)
      && t.dropped == Outside(Hosts(front) + [h], t.peers.Keys)
  {
    var t, hosts := EffectAll(front), Hosts(front);
    var f := Firsts(hosts);
    var t' := Effect(t, Request(h, unix));
    assert (hosts + [h])[..|hosts|] == hosts;
    assert Firsts(hosts + [h]) == if h in f then f else f + [h];
    OutsideSnoc(hosts, h, t'.peers.Keys);
    if h in t.peers {
      assert t'.peers.Keys == t.peers.Keys;
      assert |t'.peers| == |t'.peers.Keys| == |t.peers.Keys|;
      assert forall k :: k in CappedTo(f, MAX_PEERS) ==> k in f;
    } else if |t.peers| >= MAX_PEERS {
      assert CappedTo(f + [h], MAX_PEERS) == CappedTo(f, MAX_PEERS);
    } else {
      assert CappedTo(f, MAX_PEERS) == f;
      NoneOutside(hosts, t.peers.Keys);
      NoneOutside(hosts, t'.peers.Keys);
      assert t'.peers.Keys == t.peers.Keys + {h};
    }
  }

  lemma Snoc(ops: seq<Op>, op: Op)
    ensures EffectAll(ops + [op]) == Effect(EffectAll(ops), op)
    ensures Hosts(ops + [op]) == Hosts(ops) + (if op.Request? then [op.host] else [])
  {
    assert (ops + [op])[..|ops|] == ops;
  }

  /** A host without a peer is one that never sent a request, or one that found the table full. */
  lemma AbsentPeer(ops: seq<Op>, h: string)
    requires h !in EffectAll(ops).peers && h in Hosts(ops)
    ensures |EffectAll(ops).peers| >= MAX_PEERS
  {
    PeersAre(ops);
    FirstsHas(Hosts(ops));
  }

  lemma NoPeerBefore(ops: seq<Op>, h: string)
    requires h !in Hosts(ops)
    ensures h !in EffectAll(ops).peers
  {
    PeersAre(ops);
    FirstsHas(Hosts(ops));
    assert forall k :: k in CappedTo(Firsts(Hosts(ops)), MAX_PEERS) ==> k in Firsts(Hosts(ops));
  }

  lemma {:induction false} HostsHas(before: seq<Op>, op: Op, after: seq<Op>)
    requires op.Request?
    ensures op.host in Hosts(before + [op] + after)
    decreases |after|
  {
    if after == [] {
      assert before + [op] + after == before + [op];
      Snoc(before, op);
    } else {
      var n := |after| - 1;
      assert before + [op] + after == (before + [op] + after[..n]) + [after[n]];
      HostsHas(before, op, after[..n]);
      Snoc(before + [op] + after[..n], after[n]);
    }
  }

  /** One more call moves a peer's counters by what it is about, and makes no peer of a host turned away. */
  lemma CountStep(t: Table, op: Op, h: string)
    requires h in Effect(t, op).peers && (h !in t.peers ==> |t.peers| >= MAX_PEERS)
    ensures h in t.peers
    ensures var p, q := t.peers[h], Effect(t, op).peers[h];
      && q.registrations == p.registrations + (if op == Registration(h) then 1 else 0)
      && q.heartbeats == p.heartbeats + (if op == Heartbeat(h) then 1 else 0)
      && ((op.Request? && op.host == h) || q.lastRequestUnix == p.lastRequestUnix)
  {}

  /** A peer's counters are the registrations and heartbeats of its host after the request that created
      it, all of them and no earlier ones. */
  lemma {:induction false} PeerCounts(before: seq<Op>, h: string, unix: int, after: seq<Op>)
    requires h !in Hosts(before)
    requires h in EffectAll(before + [Request(h, unix)] + after).peers
    ensures var p := EffectAll(before + [Request(h, unix)] + after).peers[h];
      p.registrations == multiset(after)[Registration(h)] && p.heartbeats == multiset(after)[Heartbeat(h)]
    decreases |after|
  {
    var start := before + [Request(h, unix)];
    if after == [] {
      assert start + after == start;
      Snoc(before, Request(h, unix));
      NoPeerBefore(before, h);
    } else {
      var a, op := after[..|after| - 1], after[|after| - 1];
      assert start + after == (start + a) + [op] && after == a + [op];
      StillThere(before, Request(h, unix), a, op);
      PeerCounts(before, h, unix, a);
      CountAfter(start + a, a, op, h);
    }
  }

  /** A peer the host has now, it had before the last call. */
  lemma StillThere(before: seq<Op>, first: Op, a: seq<Op>, op: Op)
    requires first.Request? && first.host in EffectAll(before + [first] + a + [op]).peers
    ensures first.host in EffectAll(before + [first] + a).peers
  {
    var front := before + [first] + a;
    Snoc(front, op);
    HostsHas(before, first, a);
    if first.host !in EffectAll(front).peers {
      AbsentPeer(front, first.host);
    }
    CountStep(EffectAll(front), op, first.host);
  }

  lemma CountAfter(front: seq<Op>, a: seq<Op>, op: Op, h: string)
    requires h in EffectAll(front).peers
    requires var p := EffectAll(front).peers[h];
      p.registrations == multiset(a)[Registration(h)] && p.heartbeats == multiset(a)[Heartbeat(h)]
    ensures h in EffectAll(front + [op]).peers
    ensures var p := EffectAll(front + [op]).peers[h];
      p.registrations == multiset(a + [op])[Registration(h)] && p.heartbeats == multiset(a + [op])[Heartbeat(h)]
  {
    Snoc(front, op);
    CountStep(EffectAll(front), op, h);
  }

  /** And its time is that of the last request. */
  lemma {:induction false} LastRequest(before: seq<Op>, h: string, unix: int, after: seq<Op>)
    requires h !in Hosts(after)
    requires h in EffectAll(before + [Request(h, unix)] + after).peers
    ensures EffectAll(before + [Request(h, unix)] + after).peers[h].lastRequestUnix == unix
    decreases |after|
  {
    var start := before + [Request(h, unix)];
    if after == [] {
      assert start + after == start;
      Snoc(before, Request(h, unix));
    } else {
      var n := |after| - 1;
      var front := start + after[..n];
      assert start + after == front + [after[n]];
      assert after == after[..n] + [after[n]];
      Snoc(front, after[n]);
      Snoc(after[..n], after[n]);
      LastRequest(before, h, unix, after[..n]);
    }
  }

  // ----- concurrent calls

  /** `Found`: the look under the read lock found the peer. `Missing`: a request is after the write lock,
      where it will look again. */
  datatype Phase = Begun | Found | Missing | Done

  datatype Call = Call(op: Op, at: Phase)

  /** `order` lists the calls in the order their effects happened. */
  datatype State = State(table: Table, calls: seq<Call>, order: seq<nat>)

  const START := State(EMPTY, [], [])

  datatype Step = Enter(op: Op) | Look(i: nat) | Touch(i: nat) | Write(i: nat)

  predicate Enabled(s: State, st: Step) {
    match st
    case Enter(_) => true
    case Look(i) => i < |s.calls| && s.calls[i].at.Begun?
    case Touch(i) => i < |s.calls| && s.calls[i].at.Found?
    case Write(i) => i < |s.calls| && s.calls[i].at.Missing? && s.calls[i].op.Request?
  }

  /** The store or increment through the peer's pointer. */
  function TouchPeer(t: Table, op: Op): Table {
    if op.host !in t.peers then t
    else
      var p := t.peers[op.host];
      var q := match op
        case Request(_, unix) => p.(lastRequestUnix := unix)
        case Registration(_) => p.(registrations := p.registrations + 1)
        case Heartbeat(_) => p.(heartbeats := p.heartbeats + 1);
      t.(peers := t.peers[op.host := q])
  }

  function Apply(s: State, st: Step): State
    requires Enabled(s, st)
  {
    match st
    case Enter(op) => s.(calls := s.calls + [Call(op, Begun)])
    case Look(i) =>
      var c := s.calls[i];
      if c.op.host in s.table.peers then s.(calls := s.calls[i := c.(at := Found)])
      else if c.op.Request? then s.(calls := s.calls[i := c.(at := Missing)])
      else s.(calls := s.calls[i := c.(at := Done)], order := s.order + [i])
    case Touch(i) =>
      s.(calls := s.calls[i := s.calls[i].(at := Done)], table := TouchPeer(s.table, s.calls[i].op), order := s.order + [i])
    case Write(i) =>
      // the write-locked section checks for the peer again, as a call on its own would
      s.(calls := s.calls[i := s.calls[i].(at := Done)], table := Effect(s.table, s.calls[i].op), order := s.order + [i])
  }

  function Ops(order: seq<nat>, calls: seq<Call>): seq<Op>
    requires forall k :: 0 <= k < |order| ==> order[k] < |calls|
  {
    seq(|order|, k requires 0 <= k < |order| => calls[order[k]].op)
  }

  ghost predicate Turns(order: seq<nat>, calls: seq<Call>) {
    && (forall k :: 0 <= k < |order| ==> order[k] < |calls|)
    && (forall i, j :: 0 <= i < j < |order| ==> order[i] != order[j])
    && (forall i :: i in order <==> 0 <= i < |calls| && calls[i].at.Done?)
  }

  /** A peer that was found is still there, and a call parked at the write lock is a request. */
  ghost predicate CallsOk(t: Table, calls: seq<Call>) {
    && (forall i :: 0 <= i < |calls| && calls[i].at.Found? ==> calls[i].op.host in t.peers)
    && (forall i :: 0 <= i < |calls| && calls[i].at.Missing? ==> calls[i].op.Request?)
  }

  ghost predicate Inv(s: State) {
    Turns(s.order, s.calls) && CallsOk(s.table, s.calls) && s.table == EffectAll(Ops(s.order, s.calls))
  }

  lemma OpsStay(order: seq<nat>, calls: seq<Call>, i: nat, at: Phase)
    requires i < |calls| && forall k :: 0 <= k < |order| ==> order[k] < |calls|
    ensures Ops(order, calls[i := calls[i].(at := at)]) == Ops(order, calls)
  {}

  lemma OpsGrow(order: seq<nat>, calls: seq<Call>, i: nat)
    requires i < |calls| && forall k :: 0 <= k < |order| ==> order[k] < |calls|
    ensures EffectAll(Ops(order + [i], calls)) == Effect(EffectAll(Ops(order, calls)), calls[i].op)
  {
    var ops := Ops(order, calls) + [calls[i].op];
    assert Ops(order + [i], calls) == ops;
    assert ops[..|ops| - 1] == Ops(order, calls);
  }

  /** The step in which a call has its effect. */
  lemma FinishKept(s: State, i: nat, table: Table)
    requires Inv(s) && i < |s.calls| && !s.calls[i].at.Done? && table == Effect(s.table, s.calls[i].op)
    ensures Inv(State(table, s.calls[i := s.calls[i].(at := Done)], s.order + [i]))
  {
    var calls := s.calls[i := s.calls[i].(at := Done)];
    assert i !in s.order;
    OpsStay(s.order, s.calls, i, Done);
    OpsGrow(s.order, calls, i);
    PeersStay(s.table, s.calls[i].op);
    CallsStayOk(s.table, table, s.calls, i);
  }

  lemma PeersStay(t: Table, op: Op)
    ensures t.peers.Keys <= Effect(t, op).peers.Keys
  {}

  lemma CallsStayOk(t: Table, u: Table, calls: seq<Call>, i: nat)
    requires CallsOk(t, calls) && i < |calls| && t.peers.Keys <= u.peers.Keys
    ensures CallsOk(u, calls[i := calls[i].(at := Done)])
  {}

  lemma LookKept(s: State, i: nat)
    requires Inv(s) && Enabled(s, Look(i))
    ensures Inv(Apply(s, Look(i)))
  {
    var op := s.calls[i].op;
    if op.host in s.table.peers || op.Request? {
      OpsStay(s.order, s.calls, i, if op.host in s.table.peers then Found else Missing);
      assert i !in s.order;
    } else {
      FinishKept(s, i, s.table);
    }
  }

  lemma InvKept(s: State, st: Step)
    requires Inv(s) && Enabled(s, st)
    ensures Inv(Apply(s, st))
  {
    match st
    case Enter(op) => assert Ops(s.order, Apply(s, st).calls) == Ops(s.order, s.calls);
    case Look(i) => LookKept(s, i);
    case Touch(i) => FinishKept(s, i, TouchPeer(s.table, s.calls[i].op));
    case Write(i) => FinishKept(s, i, Effect(s.table, s.calls[i].op));
  }

  ghost predicate CanRun(s: State, steps: seq<Step>)
    decreases |steps|
  {
    steps == [] || (Enabled(s, steps[0]) && CanRun(Apply(s, steps[0]), steps[1..]))
  }

  ghost function Run(s: State, steps: seq<Step>): State
    requires CanRun(s, steps)
    decreases |steps|
  {
    if steps == [] then s else Run(Apply(s, steps[0]), steps[1..])
  }

  lemma {:induction false} InvAfter(s: State, steps: seq<Step>)
    requires Inv(s) && CanRun(s, steps)
    ensures Inv(Run(s, steps))
    decreases |steps|
  {
    if steps != [] {
      InvKept(s, steps[0]);
      InvAfter(Apply(s, steps[0]), steps[1..]);
    }
  }

  /** At every moment of every interleaving the table is what the finished calls, one at a time in the
      order of their effects, make of it: so it never has more than 64 peers, no peer is created twice
      and no call is lost. */
  lemma ConcurrentIsSequential(steps: seq<Step>)
    requires CanRun(START, steps)
    ensures var s := Run(START, steps);
      && Turns(s.order, s.calls)
      && s.table == EffectAll(Ops(s.order, s.calls))
      && |s.table.peers| <= MAX_PEERS
  {
    InvAfter(START, steps);
    var s := Run(START, steps);
    PeersAre(Ops(s.order, s.calls));
  }

  // ----- every call returns

  /** The steps a call has left, at most. */
  function Left(c: Call): nat {
    match c.at
    case Begun => 2
    case Found => 1
    case Missing => 1
    case Done => 0
  }

  predicate AllDone(s: State) { forall i :: 0 <= i < |s.calls| ==> s.calls[i].at.Done? }

  /** No call begins. */
  predicate OwnSteps(steps: seq<Step>) { forall k :: 0 <= k < |steps| ==> !steps[k].Enter? }

  lemma StepSpends(s: State, st: Step)
    requires Enabled(s, st) && !st.Enter?
    ensures Weigh(Apply(s, st).calls, Left) < Weigh(s.calls, Left)
    ensures |Apply(s, st).calls| == |s.calls|
  {
    WeighUpdate(s.calls, st.i, Apply(s, st).calls[st.i], Left);
  }

  /** A call that has not returned can go on. */
  lemma SomeStep(s: State, i: nat) returns (st: Step)
    requires Inv(s) && i < |s.calls| && !s.calls[i].at.Done?
    ensures Enabled(s, st) && !st.Enter?
  {
    match s.calls[i].at
    case Begun => st := Look(i);
    case Found => st := Touch(i);
    case Missing => st := Write(i);
  }


  lemma RunOn(s: State, st: Step, rest: seq<Step>)
    requires Enabled(s, st) && CanRun(Apply(s, st), rest)
    ensures CanRun(s, [st] + rest) && Run(s, [st] + rest) == Run(Apply(s, st), rest)
  {
    assert ([st] + rest)[1..] == rest;
  }

  lemma OwnCons(st: Step, rest: seq<Step>)
    requires !st.Enter? && OwnSteps(rest)
    ensures OwnSteps([st] + rest)
  {}

  lemma {:induction false} CanFinish(s: State) returns (steps: seq<Step>)
    requires Inv(s)
    ensures CanRun(s, steps) && OwnSteps(steps) && AllDone(Run(s, steps))
    decreases Weigh(s.calls, Left)
  {
    if AllDone(s) {
      return [];
    }
    var i: nat :| i < |s.calls| && !s.calls[i].at.Done?;
    var st := SomeStep(s, i);
    InvKept(s, st);
    StepSpends(s, st);
    var rest := CanFinish(Apply(s, st));
    RunOn(s, st, rest);
    OwnCons(st, rest);
    steps := [st] + rest;
  }

  /** From every reachable state the calls' own steps finish them all: no call is ever stuck. */
  lemma CallsReturn(before: seq<Step>)
    requires CanRun(START, before)
    ensures var s := Run(START, before);
      exists steps :: CanRun(s, steps) && OwnSteps(steps) && AllDone(Run(s, steps))
  {
    InvAfter(START, before);
    var steps := CanFinish(Run(START, before));
  }

  /** And without new calls no run is longer than 2 steps a call. */
  lemma {:induction false} RunsEnd(s: State, steps: seq<Step>)
    requires CanRun(s, steps) && OwnSteps(steps)
    ensures |steps| + Weigh(Run(s, steps).calls, Left) <= Weigh(s.calls, Left) <= 2 * |s.calls|
    decreases |steps|
  {
    WeighBound(s.calls, Left, 2);
    if steps != [] {
      StepSpends(s, steps[0]);
      RunsEnd(Apply(s, steps[0]), steps[1..]);
    }
  }
}
