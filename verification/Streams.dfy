/** What a collector reads over a whole run of TCP batches: the stream of a connection none of whose
    writes failed. A WriteEvent call is a batch of one. */
module Streams {
  import opened Prelude
  import opened Framing
  import opened Delivery

  /** A run of WriteBatch calls, one after another. */
  function RunCalls<E>(env: Env, enc: Encoding, build: E -> Option<bytes>, n: Net, calls: seq<seq<E>>): Net
    decreases |calls|
  {
    if calls == [] then n
    else
      var i := |calls| - 1;
      WriteBatch(env, enc, true, build, RunCalls(env, enc, build, n, calls[..i]), calls[i]).net
  }

  /** Everything written to a connection, end to end. */
  function StreamOn(log: seq<Attempt>, c: nat): bytes {
    if log == [] then []
    else
      var i := |log| - 1;
      StreamOn(log[..i], c) + if log[i].conn == c then log[i].data else []
  }

  predicate Used(log: seq<Attempt>, c: nat) { exists i :: 0 <= i < |log| && log[i].conn == c }

  /** No write to the connection failed. */
  predicate Clean(log: seq<Attempt>, c: nat) { forall i :: 0 <= i < |log| && log[i].conn == c ==> log[i].ok }

  lemma StreamSnoc(log: seq<Attempt>, a: Attempt, c: nat)
    ensures StreamOn(log + [a], c) == StreamOn(log, c) + if a.conn == c then a.data else []
    ensures Clean(log + [a], c) <==> Clean(log, c) && (a.conn == c ==> a.ok)
    ensures Used(log + [a], c) <==> Used(log, c) || a.conn == c
  {
    var more := log + [a];
    assert more[..|log|] == log && more[|log|] == a;
    assert forall i :: 0 <= i < |log| ==> more[i] == log[i];
  }

  lemma {:induction false} Unused(log: seq<Attempt>, c: nat)
    requires !Used(log, c)
    ensures StreamOn(log, c) == []
  {
    if log != [] {
      var i := |log| - 1;
      assert log[i].conn != c;
      assert !Used(log[..i], c) by {
        assert forall k :: 0 <= k < i ==> log[..i][k] == log[k];
      }
      Unused(log[..i], c);
    }
  }

  /** A connection that was replaced had a failed write; the current one is the newest. */
  ghost predicate Ranked(n: Net) {
    && n.conn < n.world.count
    && (forall i :: 0 <= i < |n.world.log| ==> n.world.log[i].conn <= n.conn)
    && (forall c: nat :: Used(n.world.log, c) && c != n.conn ==> !Clean(n.world.log, c))
  }

  /** The frame of the calls from the `lo`-th on. */
  function FrameFrom<E>(enc: Encoding, build: E -> Option<bytes>, calls: seq<seq<E>>, lo: nat): bytes
    requires lo <= |calls|
  {
    Frame(enc, Built(build, Flatten(calls[lo..])))
  }

  lemma FrameFromSnoc<E>(enc: Encoding, build: E -> Option<bytes>, calls: seq<seq<E>>, events: seq<E>, lo: nat)
    requires lo <= |calls|
    ensures FrameFrom(enc, build, calls + [events], lo) == FrameFrom(enc, build, calls, lo) + Frame(enc, Built(build, events))
  {
    assert (calls + [events])[lo..] == calls[lo..] + [events];
    FlattenSnoc(calls[lo..], events);
    BuiltAppend(build, Flatten(calls[lo..]), events);
    FrameAppend(enc, Built(build, Flatten(calls[lo..])), Built(build, events));
  }

  lemma FrameFromEnd<E>(enc: Encoding, build: E -> Option<bytes>, calls: seq<seq<E>>)
    ensures FrameFrom(enc, build, calls, |calls|) == []
  {
    assert calls[|calls|..] == [];
  }

  /** The stream of the current connection, if clean, is the frame of the latest calls. */
  ghost predicate Current<E>(enc: Encoding, build: E -> Option<bytes>, n: Net, calls: seq<seq<E>>) {
    Clean(n.world.log, n.conn) ==>
      exists lo :: 0 <= lo <= |calls| && StreamOn(n.world.log, n.conn) == FrameFrom(enc, build, calls, lo)
  }

  /** Writing a frame keeps what is known of the connections. */
  lemma SendRanked(env: Env, n: Net, data: bytes)
    requires Ranked(n) && NoLeak(n)
    ensures Ranked(SendWithRetry(env, n, data).net)
  {
    var start, t := |n.world.log|, SendWithRetry(env, n, data).net;
    var first := Attempt(data, n.conn, env.sendOk(start));
    UnitIsTried(env, n, data);
    forall c: nat ensures Used(t.world.log, c) && c != t.conn ==> !Clean(t.world.log, c) {
      StreamSnoc(n.world.log, first, c);
      if t.world.log != n.world.log + [first] {
        var second := Attempt(data, n.world.count, env.sendOk(start + 1));
        assert t.world.log == (n.world.log + [first]) + [second];
        StreamSnoc(n.world.log + [first], second, c);
      }
    }
  }

  /** And the clean stream of the current connection goes on by the frame, or begins with it. */
  lemma SendStream(env: Env, n: Net, data: bytes)
    requires Ranked(n) && NoLeak(n)
    ensures var t := SendWithRetry(env, n, data).net;
      Clean(t.world.log, t.conn) ==>
        || (StreamOn(t.world.log, t.conn) == StreamOn(n.world.log, n.conn) + data && Clean(n.world.log, n.conn))
        || StreamOn(t.world.log, t.conn) == data
  {
    var start, t := |n.world.log|, SendWithRetry(env, n, data).net;
    var first := Attempt(data, n.conn, env.sendOk(start));
    UnitIsTried(env, n, data);
    StreamSnoc(n.world.log, first, t.conn);
    if t.world.log != n.world.log + [first] {
      var second := Attempt(data, n.world.count, env.sendOk(start + 1));
      assert t.world.log == (n.world.log + [first]) + [second];
      StreamSnoc(n.world.log + [first], second, t.conn);
      assert !Used(n.world.log, t.conn);
      Unused(n.world.log, t.conn);
    }
  }

  lemma CallKept<E>(env: Env, enc: Encoding, build: E -> Option<bytes>, n: Net, calls: seq<seq<E>>, events: seq<E>)
    requires NoLeak(n) && Ranked(n) && Current(enc, build, n, calls)
    ensures var t := WriteBatch(env, enc, true, build, n, events).net;
      NoLeak(t) && Ranked(t) && Current(enc, build, t, calls + [events])
  {
    var ps := Built(build, events);
    var t := WriteBatch(env, enc, true, build, n, events).net;
    if ps != [] {
      UnitIsTried(env, n, Frame(enc, ps));
      SendRanked(env, n, Frame(enc, ps));
      SendStream(env, n, Frame(enc, ps));
    }
    if Clean(t.world.log, t.conn) {
      CurrentGrows(enc, build, n, calls, events, t);
    }
  }

  lemma CurrentGrows<E>(enc: Encoding, build: E -> Option<bytes>, n: Net, calls: seq<seq<E>>, events: seq<E>, t: Net)
    requires Current(enc, build, n, calls) && Clean(t.world.log, t.conn)
    requires var data := Frame(enc, Built(build, events));
      || (StreamOn(t.world.log, t.conn) == StreamOn(n.world.log, n.conn) + data && Clean(n.world.log, n.conn))
      || StreamOn(t.world.log, t.conn) == data
    ensures Current(enc, build, t, calls + [events])
  {
    var data := Frame(enc, Built(build, events));
    if StreamOn(t.world.log, t.conn) == data {
      FrameFromSnoc(enc, build, calls, events, |calls|);
      FrameFromEnd(enc, build, calls);
      assert StreamOn(t.world.log, t.conn) == FrameFrom(enc, build, calls + [events], |calls|);
    } else {
      var lo :| 0 <= lo <= |calls| && StreamOn(n.world.log, n.conn) == FrameFrom(enc, build, calls, lo);
      FrameFromSnoc(enc, build, calls, events, lo);
      assert StreamOn(t.world.log, t.conn) == FrameFrom(enc, build, calls + [events], lo);
    }
  }

  lemma {:induction false} RunKept<E>(env: Env, enc: Encoding, build: E -> Option<bytes>, n: Net, calls: seq<seq<E>>)
    requires NoLeak(n) && n.world.log == []
    ensures var t := RunCalls(env, enc, build, n, calls); NoLeak(t) && Ranked(t) && Current(enc, build, t, calls)
    decreases |calls|
  {
    if calls == [] {
      FrameFromEnd(enc, build, calls);
      assert StreamOn(n.world.log, n.conn) == FrameFrom(enc, build, calls, 0);
    } else {
      var i := |calls| - 1;
      RunKept(env, enc, build, n, calls[..i]);
      CallKept(env, enc, build, RunCalls(env, enc, build, n, calls[..i]), calls[..i], calls[i]);
      assert calls[..i] + [calls[i]] == calls;
    }
  }

  lemma {:induction false} BuiltFrom<E>(build: E -> Option<bytes>, events: seq<E>, p: bytes)
    requires p in Built(build, events)
    ensures exists e :: e in events && build(e) == Some(p)
  {
    var n := |events| - 1;
    if p in Built(build, events[..n]) {
      BuiltFrom(build, events[..n], p);
      var e :| e in events[..n] && build(e) == Some(p);
      assert e in events;
    } else {
      assert events[n] in events;
    }
  }

  /** Over any run of calls and any answers of the network: of the connections that were written to and
      never failed a write there is only the current one, and from its stream the receiver reads the
      payloads of all the events of some call and every call after it, in order, and nothing else. With
      NUL termination this needs payloads without NULs. */
  lemma StreamReadBack<E>(env: Env, enc: Encoding, build: E -> Option<bytes>, n: Net, calls: seq<seq<E>>, c: nat)
    requires NoLeak(n) && n.world.log == []
    requires enc.NulEnded? ==> forall e :: build(e).Some? ==> NUL !in build(e).value
    requires var log := RunCalls(env, enc, build, n, calls).world.log; Used(log, c) && Clean(log, c)
    ensures var t := RunCalls(env, enc, build, n, calls);
      && c == t.conn
      && exists lo :: 0 <= lo <= |calls| && StreamOn(t.world.log, c) == FrameFrom(enc, build, calls, lo)
                      && Receive(enc, StreamOn(t.world.log, c)) == Parsed(Built(build, Flatten(calls[lo..])), [])
  {
    RunKept(env, enc, build, n, calls);
    var t := RunCalls(env, enc, build, n, calls);
    var lo :| 0 <= lo <= |calls| && StreamOn(t.world.log, t.conn) == FrameFrom(enc, build, calls, lo);
    FrameReads(enc, build, Flatten(calls[lo..]));
  }

  lemma FrameReads<E>(enc: Encoding, build: E -> Option<bytes>, events: seq<E>)
    requires enc.NulEnded? ==> forall e :: build(e).Some? ==> NUL !in build(e).value
    ensures Receive(enc, Frame(enc, Built(build, events))) == Parsed(Built(build, events), [])
  {
    var ps := Built(build, events);
    if enc.Counted? {
      ReadBack(ps);
    } else {
      forall p | p in ps ensures NUL !in p {
        BuiltFrom(build, events, p);
      }
      ReadNulIff(ps);
    }
  }
}
