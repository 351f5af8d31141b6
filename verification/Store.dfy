/** The metrics store of pkg/metrics/metrics.go as one goroutine sees it: the fast and slow paths are
    the code's, and each method is the simple operation on the tables. */
module Store {
  import Labels
  import Metrics
  import Peers

  datatype TypeStat = TypeStat(eventType: string, protocol: string, count: nat)

  /** bumpLabel: increments or creates, unless the table is full; reports a discarded increment. */
  method BumpLabel<K(==)>(m: map<K, nat>, k: K) returns (out: map<K, nat>, dropped: bool)
    ensures Labels.Bumped(out, dropped) == Labels.Bump(m, k)
    ensures |m| <= Labels.MAX_EVENT_LABELS ==> |out| <= Labels.MAX_EVENT_LABELS
  {
    out := m;
    if k !in m {
      if |m| >= Labels.MAX_EVENT_LABELS {
        return m, true;
      }
      out := m[k := 0];
    } else {
      assert m[k := m[k] + 1].Keys == m.Keys;
      assert |m[k := m[k] + 1]| == |m[k := m[k] + 1].Keys|;
    }
    out := out[k := out[k] + 1];
    return out, false;
  }

  /** The store. `events` and `ops` are the calls it has had; both tables are what those calls, one at a
      time, make of them. */
  class MetricsStore {
    ghost var events: seq<Metrics.Event>
    ghost var ops: seq<Peers.Op>
    var eventsByType: map<Metrics.TypeKey, nat>
    var eventsByServer: map<string, nat>
    var eventLabelsDropped: nat
    var peers: map<string, Peers.PeerStat>
    var peersDropped: nat

    function Breakdown(): Metrics.Table
      reads this
    {
      Metrics.Table(eventsByType, eventsByServer, eventLabelsDropped)
    }

    function PeerTable(): Peers.Table
      reads this
    {
      Peers.Table(peers, peersDropped)
    }

    ghost predicate Valid()
      reads this
    {
      Breakdown() == Metrics.RecordAll(events) && PeerTable() == Peers.EffectAll(ops)
    }

    constructor ()
      ensures Valid() && events == [] && ops == []
    {
      events, ops := [], [];
      eventsByType, eventsByServer, eventLabelsDropped := map[], map[], 0;
      peers, peersDropped := map[], 0;
    }

    /** One more event in the history; so by RecordedCounts both tables hold the first 128 labels, each
        with every occurrence, and the drop counter the rest. */
    method RecordEvent(eventType: string, protocol: string, server: string)
      requires Valid()
      modifies this`eventsByType, this`eventsByServer, this`eventLabelsDropped, this`events
      ensures Valid() && events == old(events) + [Metrics.Event(Metrics.TypeKey(eventType, protocol), server)]
    {
      var e := Metrics.Event(Metrics.TypeKey(eventType, protocol), server);
      Metrics.RecordSnoc(events, e);
      CountEvent(eventType, protocol, server);
      events := events + [e];
    }

    /** recordBreakdown: the fast path and the slow path both come to counting the event under the caps. */
    method CountEvent(eventType: string, protocol: string, server: string)
      modifies this`eventsByType, this`eventsByServer, this`eventLabelsDropped
      ensures Breakdown() == Metrics.Record(old(Breakdown()), Metrics.Event(Metrics.TypeKey(eventType, protocol), server))
    {
      var k := Metrics.TypeKey(eventType, protocol);
      var hasType, typeFull := k in eventsByType, |eventsByType| >= Labels.MAX_EVENT_LABELS;
      var hasServer, serverFull := server in eventsByServer, |eventsByServer| >= Labels.MAX_EVENT_LABELS;
      var wantServer := server != "";
      var dropped := 0;
      if (hasType || typeFull) && (!wantServer || hasServer || serverFull) {
        if hasType {
          eventsByType := eventsByType[k := eventsByType[k] + 1];
        } else {
          dropped := dropped + 1;
        }
        if wantServer {
          if hasServer {
            eventsByServer := eventsByServer[server := eventsByServer[server] + 1];
          } else {
            dropped := dropped + 1;
          }
        }
        if dropped > 0 {
          eventLabelsDropped := eventLabelsDropped + dropped;
        }
        return;
      }
      var types, d := BumpLabel(eventsByType, k);
      eventsByType := types;
      if d {
        dropped := dropped + 1;
      }
      if wantServer {
        var servers, e := BumpLabel(eventsByServer, server);
        eventsByServer := servers;
        if e {
          dropped := dropped + 1;
        }
      }
      if dropped > 0 {
        eventLabelsDropped := eventLabelsDropped + dropped;
      }
    }

    /** Every label of the table is listed once, with the number of times it has occurred. */
    method EventTypeSnapshot() returns (out: seq<TypeStat>)
      requires Valid()
      ensures |out| == |Labels.Capped(Labels.Firsts(Metrics.Keys(events)))| <= Labels.MAX_EVENT_LABELS
      ensures forall k :: k in Labels.Capped(Labels.Firsts(Metrics.Keys(events))) ==>
        TypeStat(k.eventType, k.protocol, multiset(Metrics.Keys(events))[k]) in out
      ensures forall i, j :: 0 <= i < j < |out| ==> out[i] != out[j]
    {
      out := ListTypes();
      Metrics.RecordedCounts(events);
      Metrics.TypeLabels(events);
    }

    /** The loop over the table. */
    method ListTypes() returns (out: seq<TypeStat>)
      ensures |out| == |eventsByType|
      ensures forall k :: k in eventsByType ==> TypeStat(k.eventType, k.protocol, eventsByType[k]) in out
      ensures forall i :: 0 <= i < |out| ==>
        var k := Metrics.TypeKey(out[i].eventType, out[i].protocol);
        k in eventsByType && out[i].count == eventsByType[k]
      ensures forall i, j :: 0 <= i < j < |out| ==> out[i] != out[j]
    {
      out := [];
      var left := eventsByType.Keys;
      while left != {}
        invariant left <= eventsByType.Keys && |out| + |left| == |eventsByType.Keys|
        invariant forall k :: k in eventsByType && k !in left ==> TypeStat(k.eventType, k.protocol, eventsByType[k]) in out
        invariant forall i :: 0 <= i < |out| ==>
          var k := Metrics.TypeKey(out[i].eventType, out[i].protocol);
          k in eventsByType && k !in left && out[i].count == eventsByType[k]
        invariant forall i, j :: 0 <= i < j < |out| ==> out[i] != out[j]
        decreases |left|
      {
        var k :| k in left;
        left := left - {k};
        out := out + [TypeStat(k.eventType, k.protocol, eventsByType[k])];
      }
    }

    /** One more request in the history; so by PeersAre, PeerCounts and LastRequest the table holds the
        first 64 requesting hosts with what each has sent. */
    method RecordPeerRequestAt(host: string, unix: int)
      requires Valid()
      modifies this`peers, this`peersDropped, this`ops
      ensures Valid() && ops == old(ops) + [Peers.Request(host, unix)]
      ensures |peers| <= Peers.MAX_PEERS
    {
      Peers.Snoc(ops, Peers.Request(host, unix));
      ops := ops + [Peers.Request(host, unix)];
      Peers.PeersAre(ops);
      if host in peers {
        peers := peers[host := peers[host].(lastRequestUnix := unix)];
        return;
      }
      if |peers| >= Peers.MAX_PEERS {
        peersDropped := peersDropped + 1;
        return;
      }
      peers := peers[host := Peers.PeerStat(unix, 0, 0)];
    }

    method RecordPeerRegistration(host: string)
      requires Valid()
      modifies this`peers, this`ops
      ensures Valid() && ops == old(ops) + [Peers.Registration(host)]
      ensures peers.Keys == old(peers.Keys)
    {
      Peers.Snoc(ops, Peers.Registration(host));
      ops := ops + [Peers.Registration(host)];
      if host in peers {
        peers := peers[host := peers[host].(registrations := peers[host].registrations + 1)];
      }
    }

    method RecordPeerHeartbeat(host: string)
      requires Valid()
      modifies this`peers, this`ops
      ensures Valid() && ops == old(ops) + [Peers.Heartbeat(host)]
      ensures peers.Keys == old(peers.Keys)
    {
      Peers.Snoc(ops, Peers.Heartbeat(host));
      ops := ops + [Peers.Heartbeat(host)];
      if host in peers {
        peers := peers[host := peers[host].(heartbeats := peers[host].heartbeats + 1)];
      }
    }
  }
}
