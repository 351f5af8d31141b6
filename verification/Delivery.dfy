/** Delivery over one connection with a single reconnect: sendWithRetry of pkg/evtx/writer.go and the
    batches of the syslog and GELF writers. The network answers by an oracle: any pattern of send and
    dial failures. Callers hold the writer's mutex, so calls run one after another. */
module Delivery {
  import opened Prelude
  import opened Framing

  /** Whether the i-th write and the i-th dial succeed. */
  datatype Env = Env(sendOk: nat -> bool, dialOk: nat -> bool)

  /** One write: what was given to which connection, and the answer. */
  datatype Attempt = Attempt(data: bytes, conn: nat, ok: bool)

  /** What the network has seen. Connections are numbered as they open. */
  datatype World = World(log: seq<Attempt>, dials: nat, count: nat, closed: set<nat>)

  /** The writer's connection and the world around it. */
  datatype Net = Net(conn: nat, world: World)

  datatype SendError = SendAndReconnect | SendAfterReconnect

  datatype Sent = Sent(net: Net, error: Option<SendError>)

  function Send(env: Env, n: Net, data: bytes): (Net, bool) {
    var ok := env.sendOk(|n.world.log|);
    (n.(world := n.world.(log := n.world.log + [Attempt(data, n.conn, ok)])), ok)
  }

  /** A failed dial keeps the old connection; a successful one closes it only afterwards. */
  function Connect(env: Env, n: Net): (Net, bool) {
    var w := n.world.(dials := n.world.dials + 1);
    if env.dialOk(n.world.dials) then
      (Net(w.count, w.(count := w.count + 1, closed := w.closed + {n.conn})), true)
    else (n.(world := w), false)
  }

  function SendWithRetry(env: Env, n: Net, data: bytes): Sent {
    var (once, ok) := Send(env, n, data);
    if ok then Sent(once, None)
    else
      var (again, up) := Connect(env, once);
      if !up then Sent(again, Some(SendAndReconnect))
      else
        var (twice, ok2) := Send(env, again, data);
        Sent(twice, if ok2 then None else Some(SendAfterReconnect))
  }

  // ----- connections

  /** Every connection opened so far, other than the current one, has been closed. */
  predicate NoLeak(n: Net) {
    n.conn < n.world.count && forall c: nat :: c < n.world.count && c != n.conn ==> c in n.world.closed
  }

  // ----- one unit of data

  /** The writes that carry one unit: one, or two when the first fails and the redial works, the second
      on a newer connection. */
  predicate Tried(g: seq<Attempt>, data: bytes) {
    && 1 <= |g| <= 2
    && (forall i :: 0 <= i < |g| ==> g[i].data == data)
    && (|g| == 2 ==> !g[0].ok && g[0].conn < g[1].conn)
  }

  /** The answer to the last write for a unit. */
  predicate Arrived(g: seq<Attempt>)
    requires g != []
  {
    g[|g| - 1].ok
  }

  function ErrorOf(g: seq<Attempt>): Option<SendError>
    requires g != []
  {
    if Arrived(g) then None else Some(if |g| == 1 then SendAndReconnect else SendAfterReconnect)
  }

  /** The writes of one send: a first on the current connection; if that fails and the one dial after it
      succeeds, a second on the new connection. */
  function Tries(env: Env, n: Net, data: bytes): seq<Attempt> {
    var first := Attempt(data, n.conn, env.sendOk(|n.world.log|));
    if !first.ok && env.dialOk(n.world.dials) then
      [first, Attempt(data, n.world.count, env.sendOk(|n.world.log| + 1))]
    else [first]
  }

  /** Exactly what one send does: those writes and at most the one dial, whose connection stays in place
      of the old one. The error is that of the last step, and no replaced connection is left open. */
  lemma UnitIsTried(env: Env, n: Net, data: bytes)
    requires NoLeak(n)
    ensures Tried(Tries(env, n, data), data)
    ensures SendWithRetry(env, n, data).error == ErrorOf(Tries(env, n, data))
    ensures SendWithRetry(env, n, data).net.world.log == n.world.log + Tries(env, n, data)
    ensures SendWithRetry(env, n, data).net.world.log[|n.world.log|..] == Tries(env, n, data)
    ensures SendWithRetry(env, n, data).net.world.dials == n.world.dials + (if Tries(env, n, data)[0].ok then 0 else 1)
    ensures SendWithRetry(env, n, data).net.world.count == n.world.count + |Tries(env, n, data)| - 1
    ensures SendWithRetry(env, n, data).net.conn == Tries(env, n, data)[|Tries(env, n, data)| - 1].conn
    ensures SendWithRetry(env, n, data).net.world.closed
      == n.world.closed + if |Tries(env, n, data)| == 2 then {n.conn} else {}
    ensures NoLeak(SendWithRetry(env, n, data).net)
  {
    var (once, ok) := Send(env, n, data);
    var (again, up) := Connect(env, once);
    if !ok && up {
      var (twice, ok2) := Send(env, again, data);
      assert twice.world.log == n.world.log + [Attempt(data, n.conn, false), Attempt(data, n.world.count, ok2)];
    }
  }

  /** A send that started from `n` wrote one group for its unit and told its error. */
  predicate UnitDone(n: Net, s: Sent, data: bytes) {
    && NoLeak(s.net)
    && n.world.log <= s.net.world.log
    && Tried(s.net.world.log[|n.world.log|..], data)
    && s.error == ErrorOf(s.net.world.log[|n.world.log|..])
  }

  lemma UnitGroup(env: Env, n: Net, data: bytes)
    requires NoLeak(n)
    ensures UnitDone(n, SendWithRetry(env, n, data), data)
  {
    UnitIsTried(env, n, data);
  }

  // ----- a batch

  datatype Failure = BuildFailed(i: nat, of: nat) | BatchFailed(error: SendError) | EventFailed(i: nat, of: nat, error: SendError)

  datatype Delivered = Delivered(net: Net, errors: seq<Failure>)

  /** The payloads that can be built, in order. */
  function Built<E>(build: E -> Option<bytes>, events: seq<E>): seq<bytes> {
    if events == [] then []
    else
      var n := |events| - 1;
      Built(build, events[..n]) + (match build(events[n]) case Some(p) => [p] case None => [])
  }

  /** The errors of those that cannot, numbered from one. */
  function BuildErrors<E>(build: E -> Option<bytes>, events: seq<E>, of: nat): seq<Failure> {
    if events == [] then []
    else
      var n := |events| - 1;
      BuildErrors(build, events[..n], of) + if build(events[n]).Some? then [] else [BuildFailed(n + 1, of)]
  }

  /** Octet counting is the syslog writer's, NUL termination the GELF writer's. */
  datatype Encoding = Counted | NulEnded

  function Frame(enc: Encoding, ps: seq<bytes>): bytes {
    if enc.Counted? then Frames(ps) else NulFrames(ps)
  }

  /** One send per payload, none skipped for an earlier failure. */
  function Datagrams(env: Env, n: Net, ps: seq<bytes>, of: nat): Delivered
    decreases |ps|
  {
    if ps == [] then Delivered(n, [])
    else
      var i := |ps| - 1;
      var before := Datagrams(env, n, ps[..i], of);
      var s := SendWithRetry(env, before.net, ps[i]);
      Delivered(s.net, before.errors + if s.error.Some? then [EventFailed(i + 1, of, s.error.value)] else [])
  }

  function WriteBatch<E>(env: Env, enc: Encoding, tcp: bool, build: E -> Option<bytes>, n: Net, events: seq<E>): Delivered {
    var ps := Built(build, events);
    var errs := BuildErrors(build, events, |events|);
    if ps == [] then Delivered(n, errs)
    else if tcp then
      var s := SendWithRetry(env, n, Frame(enc, ps));
      Delivered(s.net, errs + if s.error.Some? then [BatchFailed(s.error.value)] else [])
    else
      var d := Datagrams(env, n, ps, |ps|);
      Delivered(d.net, errs + d.errors)
  }

  // ----- what a batch attempts and reports

  /** What a batch has to send: the whole frame on TCP, each payload by itself otherwise. */
  function Units(enc: Encoding, tcp: bool, ps: seq<bytes>): seq<bytes> {
    if tcp && ps != [] then [Frame(enc, ps)] else ps
  }

  /** The log falls into one group of writes for each unit, in order. */
  predicate Groups(gs: seq<seq<Attempt>>, units: seq<bytes>, log: seq<Attempt>) {
    && |gs| == |units|
    && Flatten(gs) == log
    && forall i :: 0 <= i < |gs| ==> Tried(gs[i], units[i])
  }

  predicate NonEmpty(gs: seq<seq<Attempt>>) {
    forall i :: 0 <= i < |gs| ==> gs[i] != []
  }

  /** The errors of the units whose last write failed, numbered from one. */
  function Reported(gs: seq<seq<Attempt>>, of: nat): seq<Failure>
    requires NonEmpty(gs)
  {
    if gs == [] then []
    else
      var i := |gs| - 1;
      Reported(gs[..i], of) + if Arrived(gs[i]) then [] else [EventFailed(i + 1, of, ErrorOf(gs[i]).value)]
  }

  predicate AllArrived(gs: seq<seq<Attempt>>)
    requires NonEmpty(gs)
  {
    forall i :: 0 <= i < |gs| ==> Arrived(gs[i])
  }

  lemma {:induction false} ReportedNone(gs: seq<seq<Attempt>>, of: nat)
    requires NonEmpty(gs)
    ensures Reported(gs, of) == [] <==> AllArrived(gs)
  {
    if gs != [] {
      var i := |gs| - 1;
      ReportedNone(gs[..i], of);
      assert AllArrived(gs) <==> AllArrived(gs[..i]) && Arrived(gs[i]);
    }
  }

  lemma {:induction false} BuildErrorsNone<E>(build: E -> Option<bytes>, events: seq<E>, of: nat)
    ensures BuildErrors(build, events, of) == [] <==> forall i :: 0 <= i < |events| ==> build(events[i]).Some?
  {
    if events != [] {
      var n := |events| - 1;
      BuildErrorsNone(build, events[..n], of);
      assert forall i :: 0 <= i < n ==> events[..n][i] == events[i];
      assert (forall i :: 0 <= i < |events| ==> build(events[i]).Some?)
        <==> (forall i :: 0 <= i < n ==> build(events[i]).Some?) && build(events[n]).Some?;
    }
  }

  /** Each event is either built or reported, never both. */
  lemma {:induction false} BuildErrorsAre<E>(build: E -> Option<bytes>, events: seq<E>, of: nat)
    ensures |Built(build, events)| + |BuildErrors(build, events, of)| == |events|
    ensures forall f :: f in BuildErrors(build, events, of) <==>
      f.BuildFailed? && f.of == of && 1 <= f.i <= |events| && build(events[f.i - 1]).None?
  {
    if events != [] {
      var n := |events| - 1;
      BuildErrorsAre(build, events[..n], of);
      forall f
        ensures f in BuildErrors(build, events, of) <==>
          f.BuildFailed? && f.of == of && 1 <= f.i <= |events| && build(events[f.i - 1]).None?
      {
        assert f in BuildErrors(build, events, of) <==>
          f in BuildErrors(build, events[..n], of) || (build(events[n]).None? && f == BuildFailed(n + 1, of));
      }
    }
  }

  /** An event's payload does not depend on whether others could be built. */
  lemma {:induction false} BuiltAppend<E>(build: E -> Option<bytes>, xs: seq<E>, ys: seq<E>)
    ensures Built(build, xs + ys) == Built(build, xs) + Built(build, ys)
  {
    if ys == [] {
      assert xs + ys == xs;
    } else {
      var n := |ys| - 1;
      assert (xs + ys)[..|xs| + n] == xs + ys[..n];
      BuiltAppend(build, xs, ys[..n]);
    }
  }

  /** Writes for one more unit, after those of the others. */
  lemma GroupsSnoc(gs: seq<seq<Attempt>>, units: seq<bytes>, u: bytes, log0: seq<Attempt>, log1: seq<Attempt>, log2: seq<Attempt>)
    requires log0 <= log1 <= log2
    requires Groups(gs, units, log1[|log0|..]) && Tried(log2[|log1|..], u)
    ensures Groups(gs + [log2[|log1|..]], units + [u], log2[|log0|..])
  {
    FlattenSnoc(gs, log2[|log1|..]);
    assert log2[|log0|..] == log1[|log0|..] + log2[|log1|..];
  }

  lemma ReportedSnoc(gs: seq<seq<Attempt>>, g: seq<Attempt>, of: nat)
    requires NonEmpty(gs) && g != []
    ensures NonEmpty(gs + [g])
    ensures Reported(gs + [g], of)
      == Reported(gs, of) + if ErrorOf(g).Some? then [EventFailed(|gs| + 1, of, ErrorOf(g).value)] else []
  {
    assert (gs + [g])[..|gs|] == gs;
  }

  /** The groups into which a run of datagrams falls. */
  ghost predicate Explained(n: Net, d: Delivered, ps: seq<bytes>, of: nat) {
    && NoLeak(d.net)
    && n.world.log <= d.net.world.log
    && exists gs :: Groups(gs, ps, d.net.world.log[|n.world.log|..]) && d.errors == Reported(gs, of)
  }

  lemma ExplainedSnoc(n: Net, before: Delivered, ps: seq<bytes>, p: bytes, of: nat, s: Sent)
    requires Explained(n, before, ps, of) && UnitDone(before.net, s, p)
    ensures var e := if s.error.Some? then [EventFailed(|ps| + 1, of, s.error.value)] else [];
      Explained(n, Delivered(s.net, before.errors + e), ps + [p], of)
  {
    var log0, log1, log2 := n.world.log, before.net.world.log, s.net.world.log;
    var gs :| Groups(gs, ps, log1[|log0|..]) && before.errors == Reported(gs, of);
    GroupsSnoc(gs, ps, p, log0, log1, log2);
    ReportedSnoc(gs, log2[|log1|..], of);
    assert Groups(gs + [log2[|log1|..]], ps + [p], log2[|log0|..]);
  }

  /** The datagrams of a batch: every payload is tried, in order, whatever became of those before it. */
  lemma {:induction false} DatagramsTried(env: Env, n: Net, ps: seq<bytes>, of: nat)
    requires NoLeak(n)
    ensures Explained(n, Datagrams(env, n, ps, of), ps, of)
    decreases |ps|
  {
    if ps == [] {
      assert Groups([], ps, n.world.log[|n.world.log|..]);
    } else {
      var i := |ps| - 1;
      DatagramsTried(env, n, ps[..i], of);
      var before := Datagrams(env, n, ps[..i], of);
      UnitGroup(env, before.net, ps[i]);
      ExplainedSnoc(n, before, ps[..i], ps[i], of, SendWithRetry(env, before.net, ps[i]));
      assert ps[..i] + [ps[i]] == ps;
    }
  }

  /** The errors a batch reports for its units. */
  function UnitErrors(tcp: bool, gs: seq<seq<Attempt>>): seq<Failure>
    requires NonEmpty(gs)
  {
    if tcp && gs != [] then (if Arrived(gs[0]) then [] else [BatchFailed(ErrorOf(gs[0]).value)])
    else Reported(gs, |gs|)
  }

  lemma NilIff<E>(build: E -> Option<bytes>, events: seq<E>, tcp: bool, gs: seq<seq<Attempt>>)
    requires NonEmpty(gs) && (tcp ==> |gs| <= 1)
    ensures BuildErrors(build, events, |events|) + UnitErrors(tcp, gs) == []
      <==> (forall i :: 0 <= i < |events| ==> build(events[i]).Some?) && AllArrived(gs)
  {
    BuildErrorsNone(build, events, |events|);
    ReportedNone(gs, |gs|);
  }

  /** The groups into which a batch falls: one for each unit, and the errors they account for. */
  ghost predicate Accounted(n: Net, d: Delivered, units: seq<bytes>, tcp: bool, buildErrors: seq<Failure>) {
    && NoLeak(d.net)
    && n.world.log <= d.net.world.log
    && exists gs :: Groups(gs, units, d.net.world.log[|n.world.log|..]) && d.errors == buildErrors + UnitErrors(tcp, gs)
  }

  lemma NothingAccounted(n: Net, tcp: bool, buildErrors: seq<Failure>)
    requires NoLeak(n)
    ensures Accounted(n, Delivered(n, buildErrors), [], tcp, buildErrors)
  {
    assert Groups([], [], n.world.log[|n.world.log|..]);
    assert buildErrors + UnitErrors(tcp, []) == buildErrors;
  }

  lemma FrameAccounted(env: Env, n: Net, frame: bytes, buildErrors: seq<Failure>)
    requires NoLeak(n)
    ensures var s := SendWithRetry(env, n, frame);
      var e := if s.error.Some? then [BatchFailed(s.error.value)] else [];
      Accounted(n, Delivered(s.net, buildErrors + e), [frame], true, buildErrors)
  {
    UnitGroup(env, n, frame);
    var log0, log2 := n.world.log, SendWithRetry(env, n, frame).net.world.log;
    GroupsSnoc([], [], frame, log0, log0, log2);
    assert [] + [log2[|log0|..]] == [log2[|log0|..]];
    assert Groups([log2[|log0|..]], [frame], log2[|log0|..]);
  }

  lemma DatagramsAccounted(env: Env, n: Net, ps: seq<bytes>, buildErrors: seq<Failure>)
    requires NoLeak(n)
    ensures var d := Datagrams(env, n, ps, |ps|);
      Accounted(n, Delivered(d.net, buildErrors + d.errors), ps, false, buildErrors)
  {
    DatagramsTried(env, n, ps, |ps|);
  }

  lemma BatchGroups<E>(env: Env, enc: Encoding, tcp: bool, build: E -> Option<bytes>, n: Net, events: seq<E>)
    requires NoLeak(n)
    ensures Accounted(n, WriteBatch(env, enc, tcp, build, n, events), Units(enc, tcp, Built(build, events)), tcp,
                      BuildErrors(build, events, |events|))
  {
    var ps := Built(build, events);
    var errs := BuildErrors(build, events, |events|);
    if ps == [] {
      NothingAccounted(n, tcp, errs);
    } else if tcp {
      FrameAccounted(env, n, Frame(enc, ps), errs);
    } else {
      DatagramsAccounted(env, n, ps, errs);
    }
  }

  /** For every pattern of build, send and redial failures: each unit is tried once or twice and in
      order; the errors are exactly those of the events that could not be built followed by those of the
      units whose last write failed; the answer is nil exactly when every event was built and every
      unit's last write succeeded; and no connection but the current one stays open. */
  lemma BatchTried<E>(env: Env, enc: Encoding, tcp: bool, build: E -> Option<bytes>, n: Net, events: seq<E>)
    requires NoLeak(n)
    ensures var d := WriteBatch(env, enc, tcp, build, n, events);
      && NoLeak(d.net)
      && n.world.log <= d.net.world.log
      && exists gs ::
        && Groups(gs, Units(enc, tcp, Built(build, events)), d.net.world.log[|n.world.log|..])
        && d.errors == BuildErrors(build, events, |events|) + UnitErrors(tcp, gs)
        && (d.errors == [] <==> (forall i :: 0 <= i < |events| ==> build(events[i]).Some?) && AllArrived(gs))
  {
    BatchGroups(env, enc, tcp, build, n, events);
    var d := WriteBatch(env, enc, tcp, build, n, events);
    var gs :| Groups(gs, Units(enc, tcp, Built(build, events)), d.net.world.log[|n.world.log|..])
              && d.errors == BuildErrors(build, events, |events|) + UnitErrors(tcp, gs);
    NilIff(build, events, tcp, gs);
  }

  lemma {:induction false} AllBuilt<E>(build: E -> Option<bytes>, events: seq<E>)
    requires forall i :: 0 <= i < |events| ==> build(events[i]).Some?
    ensures |Built(build, events)| == |events|
    ensures forall i :: 0 <= i < |events| ==> Built(build, events)[i] == build(events[i]).value
  {
    if events != [] {
      var n := |events| - 1;
      AllBuilt(build, events[..n]);
    }
  }

  // ----- what the collector makes of it

  lemma {:induction false} FramesAppend(xs: seq<bytes>, ys: seq<bytes>)
    ensures Frames(xs + ys) == Frames(xs) + Frames(ys)
  {
    if xs == [] {
      assert xs + ys == ys;
    } else {
      assert (xs + ys)[1..] == xs[1..] + ys;
      FramesAppend(xs[1..], ys);
    }
  }

  lemma {:induction false} NulFramesAppend(xs: seq<bytes>, ys: seq<bytes>)
    ensures NulFrames(xs + ys) == NulFrames(xs) + NulFrames(ys)
  {
    if xs == [] {
      assert xs + ys == ys;
    } else {
      assert (xs + ys)[1..] == xs[1..] + ys;
      NulFramesAppend(xs[1..], ys);
    }
  }

  /** Batching does not show on the stream: a batch's frame is its events' own frames end to end, and
      two batches in a row are one longer batch. */
  lemma FrameAppend(enc: Encoding, xs: seq<bytes>, ys: seq<bytes>)
    ensures Frame(enc, xs + ys) == Frame(enc, xs) + Frame(enc, ys)
  {
    FramesAppend(xs, ys);
    NulFramesAppend(xs, ys);
  }

  /** The frame of one payload. */
  function Single(enc: Encoding, p: bytes): bytes {
    if enc.Counted? then FrameTCP([], p) else p + [NUL]
  }

  lemma SingleIs(enc: Encoding, p: bytes)
    ensures Frame(enc, [p]) == Single(enc, p)
  {
    assert [p][1..] == [];
    assert Frames([p]) == FrameTCP([], p) + [];
    assert NulFrames([p]) == p + [NUL] + [];
  }

  /** What a receiver reads from a connection. */
  function Receive(enc: Encoding, stream: bytes): Parsed {
    if enc.Counted? then ReadFrames(stream) else ReadNul(stream)
  }

  /** On TCP a nil answer means the collector was handed, in one write that succeeded, a stream from
      which it reads the payload of every event, in order, and nothing else. With NUL termination this
      needs payloads without NULs. */
  lemma NilMeansDelivered<E>(env: Env, enc: Encoding, build: E -> Option<bytes>, n: Net, events: seq<E>)
    requires NoLeak(n) && events != []
    requires enc.NulEnded? ==> forall p :: p in Built(build, events) ==> NUL !in p
    requires WriteBatch(env, enc, true, build, n, events).errors == []
    ensures var log := WriteBatch(env, enc, true, build, n, events).net.world.log;
      && |n.world.log| < |log| && log[|log| - 1].ok
      && Receive(enc, log[|log| - 1].data) == Parsed(Built(build, events), [])
      && |Built(build, events)| == |events|
      && forall i :: 0 <= i < |events| ==> build(events[i]) == Some(Built(build, events)[i])
  {
    BuildErrorsNone(build, events, |events|);
    AllBuilt(build, events);
    var ps := Built(build, events);
    UnitGroup(env, n, Frame(enc, ps));
    if enc.Counted? {
      ReadBack(ps);
    } else {
      ReadNulIff(ps);
    }
  }
}
