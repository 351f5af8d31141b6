/** The writers' own methods: one class for the syslog and GELF socket writers, which differ in how they
    build and frame a payload, and one for a backend that takes a record at a time. Each method runs
    with the writer's mutex held. */
module Writers {
  import opened Prelude
  import opened Framing
  import opened Delivery

  class SocketWriter<E> {
    const env: Env
    const enc: Encoding
    const tcp: bool
    const build: E -> Option<bytes>
    /** The connection in use, and what the network has seen. */
    var conn: nat
    var world: World

    function State(): Net
      reads this
    {
      Net(conn, world)
    }

    /** The initial dial, which succeeded. */
    constructor (env: Env, enc: Encoding, tcp: bool, build: E -> Option<bytes>)
      ensures this.env == env && this.enc == enc && this.tcp == tcp && this.build == build
      ensures NoLeak(State()) && world.log == []
    {
      this.env, this.enc, this.tcp, this.build := env, enc, tcp, build;
      conn, world := 0, World([], 1, 1, {});
    }

    /** One write on the current connection, and nothing else. */
    method SendRaw(data: bytes) returns (ok: bool)
      modifies this`world
      ensures ok == env.sendOk(|old(world.log)|)
      ensures world == old(world).(log := old(world.log) + [Attempt(data, conn, ok)])
    {
      ok := env.sendOk(|world.log|);
      world := world.(log := world.log + [Attempt(data, conn, ok)]);
    }

    /** Dials; only a new connection displaces the old one, which is closed first. */
    method Connect() returns (ok: bool)
      modifies this
      ensures (State(), ok) == Delivery.Connect(env, old(State()))
      ensures !ok ==> conn == old(conn)
    {
      ok := env.dialOk(world.dials);
      world := world.(dials := world.dials + 1);
      if !ok {
        return false;
      }
      var next := world.count;
      world := world.(count := next + 1, closed := world.closed + {conn});
      conn := next;
    }

    /** Sends, and on failure reconnects and sends once more. */
    method RetrySend(data: bytes) returns (error: Option<SendError>)
      modifies this
      ensures Sent(State(), error) == SendWithRetry(env, old(State()), data)
    {
      var ok := SendRaw(data);
      if ok {
        return None;
      }
      var up := Connect();
      if !up {
        return Some(SendAndReconnect);
      }
      ok := SendRaw(data);
      return if ok then None else Some(SendAfterReconnect);
    }

    /** One event: the bytes sent are those a batch of one sends. */
    method WriteEvent(e: E) returns (built: bool, error: Option<SendError>)
      modifies this
      ensures built <==> build(e).Some?
      ensures !built ==> error == None && State() == old(State())
      ensures built ==> Sent(State(), error) == SendWithRetry(env, old(State()), Units(enc, tcp, [build(e).value])[0])
    {
      match build(e)
      case None =>
        return false, None;
      case Some(payload) =>
        SingleIs(enc, payload);
        var data := payload;
        if tcp {
          data := if enc.Counted? then FrameTCP([], payload) else payload + [NUL];
        }
        error := RetrySend(data);
        return true, error;
    }

    method BuildAll(events: seq<E>) returns (payloads: seq<bytes>, errors: seq<Failure>)
      ensures payloads == Built(build, events) && errors == BuildErrors(build, events, |events|)
    {
      payloads, errors := [], [];
      for i := 0 to |events|
        invariant payloads == Built(build, events[..i])
        invariant errors == BuildErrors(build, events[..i], |events|)
      {
        assert events[..i + 1][..i] == events[..i];
        match build(events[i])
        case None => errors := errors + [BuildFailed(i + 1, |events|)];
        case Some(p) => payloads := payloads + [p];
      }
      assert events[..|events|] == events;
    }

    method FrameAll(payloads: seq<bytes>) returns (frame: bytes)
      ensures frame == Frame(enc, payloads)
    {
      frame := [];
      for i := 0 to |payloads|
        invariant frame == Frame(enc, payloads[..i])
      {
        var p := payloads[i];
        assert payloads[..i + 1] == payloads[..i] + [p];
        FramesSnoc(payloads[..i], p);
        NulFramesSnoc(payloads[..i], p);
        frame := if enc.Counted? then FrameTCP(frame, p) else frame + p + [NUL];
      }
      assert payloads[..|payloads|] == payloads;
    }

    method SendEach(payloads: seq<bytes>, buildErrors: seq<Failure>) returns (errors: seq<Failure>)
      modifies this
      ensures var d := Datagrams(env, old(State()), payloads, |payloads|);
        State() == d.net && errors == buildErrors + d.errors
    {
      errors := buildErrors;
      for i := 0 to |payloads|
        invariant var d := Datagrams(env, old(State()), payloads[..i], |payloads|);
          State() == d.net && errors == buildErrors + d.errors
      {
        assert payloads[..i + 1][..i] == payloads[..i];
        var error := RetrySend(payloads[i]);
        if error.Some? {
          errors := errors + [EventFailed(i + 1, |payloads|, error.value)];
        }
      }
      assert payloads[..|payloads|] == payloads;
    }

    /** Every event in turn; an empty list of errors is the nil answer. */
    method WriteBatch(events: seq<E>) returns (errors: seq<Failure>)
      modifies this
      ensures Delivered(State(), errors) == Delivery.WriteBatch(env, enc, tcp, build, old(State()), events)
    {
      if |events| == 0 {
        return [];
      }
      var payloads, buildErrors := BuildAll(events);
      if |payloads| == 0 {
        return buildErrors;
      }
      if tcp {
        var frame := FrameAll(payloads);
        var error := RetrySend(frame);
        return if error.Some? then buildErrors + [BatchFailed(error.value)] else buildErrors;
      }
      errors := SendEach(payloads, buildErrors);
    }

    /** Closes the connection in use; afterwards none is left open. */
    method Close()
      requires NoLeak(State())
      modifies this`world
      ensures NoLeak(State()) && world == old(world).(closed := old(world).closed + {conn})
      ensures forall c: nat :: c < world.count ==> c in world.closed
    {
      world := world.(closed := world.closed + {conn});
    }
  }

  /** A backend that takes one record at a time and accepts the i-th it is given as `accepts` says. */
  class SerialWriter<E> {
    const accepts: nat -> bool
    var calls: seq<E>

    constructor (accepts: nat -> bool)
      ensures this.accepts == accepts && calls == []
    {
      this.accepts := accepts;
      calls := [];
    }

    method WriteEvent(e: E) returns (ok: bool)
      modifies this
      ensures calls == old(calls) + [e] && ok == accepts(|old(calls)|)
    {
      ok := accepts(|calls|);
      calls := calls + [e];
    }

    /** writeBatchSerially: every event is attempted exactly once and in order; the errors name, in
        increasing order, exactly the events that were refused. */
    method WriteBatch(events: seq<E>) returns (errors: seq<nat>)
      modifies this
      ensures calls == old(calls) + events
      ensures forall i, j :: 0 <= i < j < |errors| ==> errors[i] < errors[j]
      ensures forall i: nat :: i in errors <==> 1 <= i <= |events| && !accepts(|old(calls)| + i - 1)
      ensures errors == [] <==> forall k: nat :: |old(calls)| <= k < |calls| ==> accepts(k)
    {
      errors := [];
      ghost var start := |calls|;
      for i := 0 to |events|
        invariant calls == old(calls) + events[..i]
        invariant forall j, k :: 0 <= j < k < |errors| ==> errors[j] < errors[k]
        invariant forall j :: 0 <= j < |errors| ==> errors[j] <= i
        invariant forall j: nat :: j in errors <==> 1 <= j <= i && !accepts(start + j - 1)
      {
        var ok := WriteEvent(events[i]);
        if !ok {
          errors := errors + [i + 1];
        }
      }
      forall k: nat | start <= k < |calls| && !accepts(k) ensures errors != [] {
        assert k - start + 1 in errors;
      }
      assert errors != [] ==> errors[0] in errors;
    }
  }
}
