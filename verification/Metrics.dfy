/** RecordEvent of pkg/metrics/metrics.go under concurrency: a read-locked look, then atomic increments
    outside the lock; or, for a new label, create-or-count under the write lock. */
module Metrics {
  import opened Prelude
  import opened MapSum
  import opened Labels

  datatype TypeKey = TypeKey(eventType: string, protocol: string)

  /** What one RecordEvent call is about. An empty server is no label. */
  datatype Event = Event(key: TypeKey, server: string)

  datatype Table = Table(types: map<TypeKey, nat>, servers: map<string, nat>, dropped: nat)

  const EMPTY := Table(map[], map[], 0)

  // ----- the simple reading: count under a cap, one call at a time

  /** bumpLabel for the server, unless there is none. */
  function BumpServer(servers: map<string, nat>, server: string): Bumped<string> {
    if server == "" then Bumped(servers, false) else Bump(servers, server)
  }

  function Record(t: Table, e: Event): Table {
    var b := Bump(t.types, e.key);
    var c := BumpServer(t.servers, e.server);
    Table(b.m, c.m, t.dropped + (if b.dropped then 1 else 0) + (if c.dropped then 1 else 0))
  }

  function RecordAll(es: seq<Event>): Table {
    if es == [] then EMPTY else Record(RecordAll(es[..|es| - 1]), es[|es| - 1])
  }

  function Keys(es: seq<Event>): seq<TypeKey> {
    if es == [] then [] else Keys(es[..|es| - 1]) + [es[|es| - 1].key]
  }

  function Servers(es: seq<Event>): seq<string> {
    if es == [] then []
    else Servers(es[..|es| - 1]) + (if es[|es| - 1].server == "" then [] else [es[|es| - 1].server])
  }

  lemma RecordSnoc(es: seq<Event>, e: Event)
    ensures RecordAll(es + [e]) == Record(RecordAll(es), e)
  {
    assert (es + [e])[..|es|] == es;
  }

  /** The two tables are independent tallies sharing a drop counter. */
  lemma {:induction false} RecordAllIs(es: seq<Event>)
    ensures var t, a, b := RecordAll(es), TallyOf(Keys(es)), TallyOf(Servers(es));
      t.types == a.m && t.servers == b.m && t.dropped == a.dropped + b.dropped
    ensures |Keys(es)| == |es|
    decreases |es|
  {
    if es != [] {
      var front, e := es[..|es| - 1], es[|es| - 1];
      RecordAllIs(front);
      TallySnoc(Keys(front), e.key);
      if e.server == "" {
        assert Servers(es) == Servers(front);
      } else {
        TallySnoc(Servers(front), e.server);
      }
    }
  }

  /** Recording any sequence of events: each table holds the first 128 labels seen, never more, with every
      occurrence of each; and all counts plus the drops come to the calls plus the calls naming a server. */
  lemma RecordedCounts(es: seq<Event>)
    ensures var t := RecordAll(es);
      && |t.types| <= MAX_EVENT_LABELS && |t.servers| <= MAX_EVENT_LABELS
      && (forall k :: k in t.types <==> k in Capped(Firsts(Keys(es))))
      && (forall s :: s in t.servers <==> s in Capped(Firsts(Servers(es))))
      && (forall k :: k in t.types ==> t.types[k] == multiset(Keys(es))[k])
      && (forall s :: s in t.servers ==> t.servers[s] == multiset(Servers(es))[s])
      && Sum(t.types, Count) + Sum(t.servers, Count) + t.dropped == |es| + |Servers(es)|
  {
    RecordAllIs(es);
    TallyIs(Keys(es));
    TallyIs(Servers(es));
  }

  /** There are as many type counters as labels kept. */
  lemma TypeLabels(es: seq<Event>)
    ensures |RecordAll(es).types| == |Capped(Firsts(Keys(es)))|
  {
    RecordAllIs(es);
    TallyIs(Keys(es));
  }

  // ----- the concurrent reading

  /** Where a call stands. `Fast`: it has looked under the read lock and still owes an increment of the
      type counter, of the server counter, and `drops` to the drop counter. `Slow`: it is after the
      write lock. `Locked`, `Typed`, `Served` and `Settled`: it holds that lock and has done nothing yet,
      the type table, both tables, and the drop counter as well. */
  datatype Phase =
    | Begun | Fast(owesType: bool, owesServer: bool, drops: nat)
    | Slow | Locked | Typed(drops: nat) | Served(drops: nat) | Settled | Done
  {
    /** The write lock is held. */
    predicate Writing() { Locked? || Typed? || Served? || Settled? }
  }

  datatype Call = Call(e: Event, at: Phase) {
    /** It has had its turn under a lock. */
    predicate Turned() { at.Fast? || at.Writing() || at.Done? }
  }

  /** `order` lists the calls in the order in which they got the lock that decided their effect; `writer`
      is the call that holds the write lock. */
  datatype State = State(table: Table, calls: seq<Call>, order: seq<nat>, writer: Option<nat>)

  const START := State(EMPTY, [], [], None)

  datatype Step =
    | Enter(e: Event)
    | Look(i: nat)      // the read-locked look at both maps
    | AddType(i: nat) | AddServer(i: nat) | AddDrops(i: nat)  // atomics outside the lock
    | Lock(i: nat)      // takes the write lock, which keeps out looks and other writers but no atomics
    | WriteType(i: nat) | WriteServer(i: nat) | WriteDrops(i: nat) | Unlock(i: nat)

  /** The look finds every counter it needs, or the table that lacks one full. */
  predicate FastPath(t: Table, e: Event) {
    && (e.key in t.types || |t.types| >= MAX_EVENT_LABELS)
    && (e.server == "" || e.server in t.servers || |t.servers| >= MAX_EVENT_LABELS)
  }

  function AfterLook(t: Table, e: Event): Phase {
    if FastPath(t, e) then
      Fast(e.key in t.types, e.server != "" && e.server in t.servers,
           (if e.key in t.types then 0 else 1) + (if e.server == "" || e.server in t.servers then 0 else 1))
    else Slow
  }

  predicate Enabled(s: State, st: Step) {
    match st
    case Enter(_) => true
    case Look(i) => i < |s.calls| && s.calls[i].at.Begun? && s.writer == None
    case AddType(i) => i < |s.calls| && s.calls[i].at.Fast? && s.calls[i].at.owesType
    case AddServer(i) =>
      i < |s.calls| && s.calls[i].at.Fast? && !s.calls[i].at.owesType && s.calls[i].at.owesServer
    case AddDrops(i) =>
      i < |s.calls| && s.calls[i].at.Fast? && !s.calls[i].at.owesType && !s.calls[i].at.owesServer
    case Lock(i) => i < |s.calls| && s.calls[i].at.Slow? && s.writer == None
    case WriteType(i) => i < |s.calls| && s.calls[i].at.Locked?
    case WriteServer(i) => i < |s.calls| && s.calls[i].at.Typed?
    case WriteDrops(i) => i < |s.calls| && s.calls[i].at.Served?
    case Unlock(i) => i < |s.calls| && s.calls[i].at.Settled?
  }

  /** An increment through a counter's pointer; the tables never lose a counter. */
  function AddAt<K>(m: map<K, nat>, k: K): map<K, nat> { if k in m then m[k := m[k] + 1] else m }

  function Apply(s: State, st: Step): State
    requires Enabled(s, st)
  {
    match st
    case Enter(e) => s.(calls := s.calls + [Call(e, Begun)])
    case Look(i) =>
      var at := AfterLook(s.table, s.calls[i].e);
      s.(calls := s.calls[i := s.calls[i].(at := at)], order := if at.Fast? then s.order + [i] else s.order)
    case AddType(i) =>
      s.(calls := s.calls[i := s.calls[i].(at := s.calls[i].at.(owesType := false))],
         table := s.table.(types := AddAt(s.table.types, s.calls[i].e.key)))
    case AddServer(i) =>
      s.(calls := s.calls[i := s.calls[i].(at := s.calls[i].at.(owesServer := false))],
         table := s.table.(servers := AddAt(s.table.servers, s.calls[i].e.server)))
    case AddDrops(i) =>
      s.(calls := s.calls[i := s.calls[i].(at := Done)],
         table := s.table.(dropped := s.table.dropped + s.calls[i].at.drops))
    case Lock(i) => s.(calls := s.calls[i := s.calls[i].(at := Locked)], order := s.order + [i], writer := Some(i))
    case WriteType(i) =>
      var b := Bump(s.table.types, s.calls[i].e.key);
      s.(calls := s.calls[i := s.calls[i].(at := Typed(if b.dropped then 1 else 0))], table := s.table.(types := b.m))
    case WriteServer(i) =>
      var b := BumpServer(s.table.servers, s.calls[i].e.server);
      s.(calls := s.calls[i := s.calls[i].(at := Served(s.calls[i].at.drops + if b.dropped then 1 else 0))],
         table := s.table.(servers := b.m))
    case WriteDrops(i) =>
      s.(calls := s.calls[i := s.calls[i].(at := Settled)],
         table := s.table.(dropped := s.table.dropped + s.calls[i].at.drops))
    case Unlock(i) => s.(calls := s.calls[i := s.calls[i].(at := Done)], writer := None)
  }

  /** The table once a call at that point has done what is left of its write-locked section. */
  function AfterWrite(t: Table, at: Phase, e: Event): Table {
    match at
    case Locked => Record(t, e)
    case Typed(d) =>
      var b := BumpServer(t.servers, e.server);
      Table(t.types, b.m, t.dropped + d + if b.dropped then 1 else 0)
    case Served(d) => t.(dropped := t.dropped + d)
    case _ => t
  }

  /** The table once the writer, if there is one, has finished. */
  function Ahead(t: Table, calls: seq<Call>, writer: Option<nat>): Table {
    if writer.Some? && writer.value < |calls| then AfterWrite(t, calls[writer.value].at, calls[writer.value].e) else t
  }

  /** The events of the calls that have had their turn, in lock order. */
  function Events(order: seq<nat>, calls: seq<Call>): seq<Event>
    requires forall k :: 0 <= k < |order| ==> order[k] < |calls|
  {
    seq(|order|, k requires 0 <= k < |order| => calls[order[k]].e)
  }

  // ----- what is still owed

  function OwesType(k: TypeKey): Call -> nat { (c: Call) => if c.at.Fast? && c.at.owesType && c.e.key == k then 1 else 0 }
  function OwesServer(s: string): Call -> nat { (c: Call) => if c.at.Fast? && c.at.owesServer && c.e.server == s then 1 else 0 }
  function OwesDrops(c: Call): nat { if c.at.Fast? then c.at.drops else 0 }

  /** A label table falls short of its simple reading by exactly the increments still owed. */
  ghost predicate Short<K(!new)>(m: map<K, nat>, simple: map<K, nat>, calls: seq<Call>, owes: K -> (Call -> nat)) {
    m.Keys == simple.Keys && forall k :: k in m ==> simple[k] == m[k] + Weigh(calls, owes(k))
  }

  ghost predicate Behind(t: Table, simple: Table, calls: seq<Call>) {
    && Short(t.types, simple.types, calls, OwesType)
    && Short(t.servers, simple.servers, calls, OwesServer)
    && simple.dropped == t.dropped + Weigh(calls, OwesDrops)
  }

  ghost predicate Turns(order: seq<nat>, calls: seq<Call>) {
    && (forall k :: 0 <= k < |order| ==> order[k] < |calls|)
    && (forall i, j :: 0 <= i < j < |order| ==> order[i] != order[j])
    && (forall i :: i in order <==> 0 <= i < |calls| && calls[i].Turned())
  }

  /** A call owes an increment only to a counter that exists. */
  ghost predicate Owed(t: Table, c: Call) {
    c.at.Fast? ==> (c.at.owesType ==> c.e.key in t.types) && (c.at.owesServer ==> c.e.server in t.servers)
  }

  /** The write lock is held by the call whose phase says so. */
  ghost predicate Exclusive(calls: seq<Call>, writer: Option<nat>) {
    && (writer.Some? ==> writer.value < |calls|)
    && (forall i :: 0 <= i < |calls| ==> (calls[i].at.Writing() <==> writer == Some(i)))
  }

  ghost predicate Inv(s: State) {
    && Turns(s.order, s.calls)
    && Exclusive(s.calls, s.writer)
    && Behind(Ahead(s.table, s.calls, s.writer), RecordAll(Events(s.order, s.calls)), s.calls)
    && (forall i :: 0 <= i < |s.calls| ==> Owed(s.table, s.calls[i]))
  }

  lemma EventsUpdate(order: seq<nat>, calls: seq<Call>, i: nat, at: Phase)
    requires i < |calls| && forall k :: 0 <= k < |order| ==> order[k] < |calls|
    ensures Events(order, calls[i := calls[i].(at := at)]) == Events(order, calls)
  {}

  lemma EventsSnoc(order: seq<nat>, calls: seq<Call>, i: nat)
    requires i < |calls| && forall k :: 0 <= k < |order| ==> order[k] < |calls|
    ensures Events(order + [i], calls) == Events(order, calls) + [calls[i].e]
    ensures RecordAll(Events(order + [i], calls)) == Record(RecordAll(Events(order, calls)), calls[i].e)
  {
    var es := Events(order, calls) + [calls[i].e];
    assert Events(order + [i], calls) == es;
    assert es[..|es| - 1] == Events(order, calls);
  }

  lemma SameSize<K(!new)>(m: map<K, nat>, simple: map<K, nat>)
    requires m.Keys == simple.Keys
    ensures |m| == |simple|
  {
    assert |m.Keys| == |simple.Keys|;
  }

  /** A call that owes this table what it owed before. */
  lemma ShortStays<K(!new)>(m: map<K, nat>, simple: map<K, nat>, calls: seq<Call>, owes: K -> (Call -> nat), i: nat, c: Call)
    requires Short(m, simple, calls, owes) && i < |calls| && forall k :: owes(k)(c) == owes(k)(calls[i])
    ensures Short(m, simple, calls[i := c], owes)
  {
    forall k | k in m ensures simple[k] == m[k] + Weigh(calls[i := c], owes(k)) {
      WeighUpdate(calls, i, c, owes(k));
    }
  }

  /** A look that finds the counter, or the table full: the simple reading counts, the call owes. */
  lemma ShortOwes<K(!new)>(m: map<K, nat>, simple: map<K, nat>, calls: seq<Call>, owes: K -> (Call -> nat), i: nat, c: Call, k: K)
    requires Short(m, simple, calls, owes) && i < |calls| && (k in m || |m| >= MAX_EVENT_LABELS)
    requires forall j :: owes(j)(calls[i]) == 0 && owes(j)(c) == (if j == k && k in m then 1 else 0)
    ensures Short(m, Bump(simple, k).m, calls[i := c], owes)
    ensures Bump(simple, k).dropped <==> k !in m
  {
    SameSize(m, simple);
    forall j | j in m ensures Bump(simple, k).m[j] == m[j] + Weigh(calls[i := c], owes(j)) {
      WeighUpdate(calls, i, c, owes(j));
    }
  }

  /** Paying an increment that was owed. */
  lemma ShortPaid<K(!new)>(m: map<K, nat>, simple: map<K, nat>, calls: seq<Call>, owes: K -> (Call -> nat), i: nat, c: Call, k: K)
    requires Short(m, simple, calls, owes) && i < |calls| && k in m
    requires forall j :: owes(j)(c) == 0 && owes(j)(calls[i]) == (if j == k then 1 else 0)
    ensures Short(m[k := m[k] + 1], simple, calls[i := c], owes)
  {
    forall j | j in m ensures simple[j] == m[k := m[k] + 1][j] + Weigh(calls[i := c], owes(j)) {
      WeighUpdate(calls, i, c, owes(j));
    }
  }

  /** Under the write lock both readings do the same. */
  lemma ShortBoth<K(!new)>(m: map<K, nat>, simple: map<K, nat>, calls: seq<Call>, owes: K -> (Call -> nat), i: nat, c: Call, k: K)
    requires Short(m, simple, calls, owes) && i < |calls| && forall j :: owes(j)(c) == owes(j)(calls[i])
    requires k !in m ==> Weigh(calls, owes(k)) == 0
    ensures Short(Bump(m, k).m, Bump(simple, k).m, calls[i := c], owes)
    ensures Bump(m, k).dropped == Bump(simple, k).dropped
  {
    SameSize(m, simple);
    forall j | j in Bump(m, k).m ensures Bump(simple, k).m[j] == Bump(m, k).m[j] + Weigh(calls[i := c], owes(j)) {
      WeighUpdate(calls, i, c, owes(j));
    }
  }

  lemma TurnsGrow(order: seq<nat>, calls: seq<Call>, i: nat, c: Call)
    requires Turns(order, calls) && i < |calls| && !calls[i].Turned() && c.Turned()
    ensures Turns(order + [i], calls[i := c])
  {
    assert i !in order;
  }

  lemma TurnsStay(order: seq<nat>, calls: seq<Call>, i: nat, c: Call)
    requires Turns(order, calls) && i < |calls| && calls[i].Turned() == c.Turned()
    ensures Turns(order, calls[i := c])
  {}

  /** The simple reading moves by one event; the call owes its effect. */
  lemma FastEffect(t: Table, simple: Table, calls: seq<Call>, i: nat, c: Call)
    requires Behind(t, simple, calls) && i < |calls| && calls[i].at.Begun? && c.e == calls[i].e
    requires FastPath(t, c.e) && c.at == AfterLook(t, c.e)
    ensures Behind(t, Record(simple, c.e), calls[i := c])
  {
    ShortOwes(t.types, simple.types, calls, OwesType, i, c, c.e.key);
    if c.e.server == "" {
      ShortStays(t.servers, simple.servers, calls, OwesServer, i, c);
    } else {
      ShortOwes(t.servers, simple.servers, calls, OwesServer, i, c, c.e.server);
    }
    WeighUpdate(calls, i, c, OwesDrops);
  }

  /** A call has its turn: the order grows by it and its event is counted last. */
  lemma TurnTaken(order: seq<nat>, calls: seq<Call>, i: nat, at: Phase)
    requires Turns(order, calls) && i < |calls| && !calls[i].Turned() && Call(calls[i].e, at).Turned()
    ensures var calls' := calls[i := calls[i].(at := at)];
      && Turns(order + [i], calls')
      && RecordAll(Events(order + [i], calls')) == Record(RecordAll(Events(order, calls)), calls[i].e)
  {
    var c := calls[i].(at := at);
    EventsUpdate(order, calls, i, at);
    TurnsGrow(order, calls, i, c);
    EventsSnoc(order, calls[i := c], i);
  }

  lemma LookFastKept(s: State, i: nat)
    requires Inv(s) && Enabled(s, Look(i)) && FastPath(s.table, s.calls[i].e)
    ensures Inv(Apply(s, Look(i)))
  {
    var c := s.calls[i].(at := AfterLook(s.table, s.calls[i].e));
    FastTurn(s.table, s.calls, s.order, i, c);
    ExclusiveStays(s.calls, s.writer, i, c);
    OwedStays(s.table, s.table, s.calls, i, c);
  }

  lemma FastTurn(t: Table, calls: seq<Call>, order: seq<nat>, i: nat, c: Call)
    requires Turns(order, calls) && Behind(t, RecordAll(Events(order, calls)), calls)
    requires i < |calls| && calls[i].at.Begun? && FastPath(t, calls[i].e) && c == calls[i].(at := AfterLook(t, calls[i].e))
    ensures Turns(order + [i], calls[i := c])
    ensures Behind(t, RecordAll(Events(order + [i], calls[i := c])), calls[i := c])
  {
    TurnTaken(order, calls, i, c.at);
    FastEffect(t, RecordAll(Events(order, calls)), calls, i, c);
  }

  lemma ExclusiveStays(calls: seq<Call>, writer: Option<nat>, i: nat, c: Call)
    requires Exclusive(calls, writer) && i < |calls| && calls[i].at.Writing() == c.at.Writing()
    ensures Exclusive(calls[i := c], writer)
  {}

  lemma LookSlowKept(s: State, i: nat)
    requires Inv(s) && Enabled(s, Look(i)) && !FastPath(s.table, s.calls[i].e)
    ensures Inv(Apply(s, Look(i)))
  {
    var c := s.calls[i].(at := Slow);
    EventsUpdate(s.order, s.calls, i, Slow);
    TurnsStay(s.order, s.calls, i, c);
    OwesNothingNew(s.table, RecordAll(Events(s.order, s.calls)), s.calls, i, c);
  }

  lemma OwesNothingNew(t: Table, simple: Table, calls: seq<Call>, i: nat, c: Call)
    requires Behind(t, simple, calls) && i < |calls| && !calls[i].at.Fast? && !c.at.Fast?
    ensures Behind(t, simple, calls[i := c])
  {
    ShortStays(t.types, simple.types, calls, OwesType, i, c);
    ShortStays(t.servers, simple.servers, calls, OwesServer, i, c);
    WeighUpdate(calls, i, c, OwesDrops);
  }

  /** A label nobody has a counter for is owed nothing. */
  lemma NothingOwed(t: Table, calls: seq<Call>, k: TypeKey, server: string)
    requires forall i :: 0 <= i < |calls| ==> Owed(t, calls[i])
    ensures k !in t.types ==> Weigh(calls, OwesType(k)) == 0
    ensures server !in t.servers ==> Weigh(calls, OwesServer(server)) == 0
  {
    if k !in t.types {
      forall i | 0 <= i < |calls| ensures OwesType(k)(calls[i]) == 0 { assert Owed(t, calls[i]); }
      WeighZero(calls, OwesType(k));
    }
    if server !in t.servers {
      forall i | 0 <= i < |calls| ensures OwesServer(server)(calls[i]) == 0 { assert Owed(t, calls[i]); }
      WeighZero(calls, OwesServer(server));
    }
  }

  lemma SlowEffect(t: Table, simple: Table, calls: seq<Call>, i: nat, c: Call)
    requires Behind(t, simple, calls) && i < |calls| && calls[i].at.Slow? && c == calls[i].(at := Locked)
    requires forall j :: 0 <= j < |calls| ==> Owed(t, calls[j])
    ensures Behind(Record(t, c.e), Record(simple, c.e), calls[i := c])
  {
    NothingOwed(t, calls, c.e.key, c.e.server);
    ShortBoth(t.types, simple.types, calls, OwesType, i, c, c.e.key);
    if c.e.server == "" {
      ShortStays(t.servers, simple.servers, calls, OwesServer, i, c);
    } else {
      ShortBoth(t.servers, simple.servers, calls, OwesServer, i, c, c.e.server);
    }
    WeighUpdate(calls, i, c, OwesDrops);
  }

  lemma LockKept(s: State, i: nat)
    requires Inv(s) && Enabled(s, Lock(i))
    ensures Inv(Apply(s, Lock(i)))
  {
    var c := s.calls[i].(at := Locked);
    SlowTurn(s.table, s.calls, s.order, i, c);
    ExclusiveTaken(s.calls, i, c);
    OwedStays(s.table, s.table, s.calls, i, c);
  }

  lemma SlowTurn(t: Table, calls: seq<Call>, order: seq<nat>, i: nat, c: Call)
    requires Turns(order, calls) && Behind(t, RecordAll(Events(order, calls)), calls)
    requires forall j :: 0 <= j < |calls| ==> Owed(t, calls[j])
    requires i < |calls| && calls[i].at.Slow? && c == calls[i].(at := Locked)
    ensures Turns(order + [i], calls[i := c])
    ensures Behind(Record(t, c.e), RecordAll(Events(order + [i], calls[i := c])), calls[i := c])
  {
    TurnTaken(order, calls, i, Locked);
    SlowEffect(t, RecordAll(Events(order, calls)), calls, i, c);
  }

  lemma ExclusiveTaken(calls: seq<Call>, i: nat, c: Call)
    requires Exclusive(calls, None) && i < |calls| && c.at.Writing()
    ensures Exclusive(calls[i := c], Some(i))
  {}

  /** The writer's own steps: what is done and what is left come to the same. */
  lemma WriterAhead(s: State, st: Step)
    requires Exclusive(s.calls, s.writer) && Enabled(s, st)
    requires st.WriteType? || st.WriteServer? || st.WriteDrops? || st.Unlock?
    ensures var t := Apply(s, st); Ahead(t.table, t.calls, t.writer) == Ahead(s.table, s.calls, s.writer)
  {
    assert s.calls[st.i].at.Writing();
  }

  /** No counter is lost. */
  lemma WriterKeepsCounters(s: State, st: Step)
    requires Enabled(s, st) && (st.WriteType? || st.WriteServer? || st.WriteDrops? || st.Unlock?)
    ensures var t := Apply(s, st); s.table.types.Keys <= t.table.types.Keys && s.table.servers.Keys <= t.table.servers.Keys
  {}

  lemma WriterKept(s: State, st: Step)
    requires Inv(s) && Enabled(s, st) && (st.WriteType? || st.WriteServer? || st.WriteDrops? || st.Unlock?)
    ensures Inv(Apply(s, st))
  {
    var t := Apply(s, st);
    var c := t.calls[st.i];
    assert s.calls[st.i].at.Writing();
    assert t.calls == s.calls[st.i := c] && c == s.calls[st.i].(at := c.at);
    WriterAhead(s, st);
    EventsUpdate(s.order, s.calls, st.i, c.at);
    TurnsStay(s.order, s.calls, st.i, c);
    OwesNothingNew(Ahead(s.table, s.calls, s.writer), RecordAll(Events(s.order, s.calls)), s.calls, st.i, c);
    WriterKeepsCounters(s, st);
    OwedStays(s.table, t.table, s.calls, st.i, c);
  }

  lemma OwedStays(t: Table, u: Table, calls: seq<Call>, i: nat, c: Call)
    requires i < |calls| && forall j :: 0 <= j < |calls| ==> Owed(t, calls[j])
    requires t.types.Keys <= u.types.Keys && t.servers.Keys <= u.servers.Keys && Owed(u, c)
    ensures var calls' := calls[i := c]; forall j :: 0 <= j < |calls'| ==> Owed(u, calls'[j])
  {
    var calls' := calls[i := c];
    forall j | 0 <= j < |calls'| ensures Owed(u, calls'[j]) {
      assert Owed(t, calls[j]);
    }
  }

  // ----- atomics outside the lock, while a writer may hold it

  lemma BumpCommutes<K(!new)>(m: map<K, nat>, j: K, k: K)
    requires j in m
    ensures Bump(AddAt(m, j), k).m == AddAt(Bump(m, k).m, j) && Bump(AddAt(m, j), k).dropped == Bump(m, k).dropped
  {
    assert AddAt(m, j).Keys == m.Keys;
    SameSize(AddAt(m, j), m);
  }

  lemma TypeCommutes(t: Table, at: Phase, e: Event, k: TypeKey)
    requires k in t.types
    ensures var a := AfterWrite(t, at, e);
      k in a.types && AfterWrite(t.(types := AddAt(t.types, k)), at, e) == a.(types := AddAt(a.types, k))
  {
    BumpCommutes(t.types, k, e.key);
  }

  lemma ServerCommutes(t: Table, at: Phase, e: Event, v: string)
    requires v in t.servers
    ensures var a := AfterWrite(t, at, e);
      v in a.servers && AfterWrite(t.(servers := AddAt(t.servers, v)), at, e) == a.(servers := AddAt(a.servers, v))
  {
    BumpCommutes(t.servers, v, e.server);
  }

  lemma DropsCommute(t: Table, at: Phase, e: Event, d: nat)
    ensures var a := AfterWrite(t, at, e);
      AfterWrite(t.(dropped := t.dropped + d), at, e) == a.(dropped := a.dropped + d)
  {}

  lemma AddTypeEffect(t: Table, simple: Table, calls: seq<Call>, i: nat)
    requires Behind(t, simple, calls) && i < |calls| && calls[i].at.Fast? && calls[i].at.owesType && calls[i].e.key in t.types
    ensures Behind(t.(types := AddAt(t.types, calls[i].e.key)), simple, calls[i := calls[i].(at := calls[i].at.(owesType := false))])
  {
    var c := calls[i].(at := calls[i].at.(owesType := false));
    ShortPaid(t.types, simple.types, calls, OwesType, i, c, c.e.key);
    ShortStays(t.servers, simple.servers, calls, OwesServer, i, c);
    WeighUpdate(calls, i, c, OwesDrops);
  }

  lemma AddServerEffect(t: Table, simple: Table, calls: seq<Call>, i: nat)
    requires Behind(t, simple, calls) && i < |calls| && calls[i].at.Fast? && calls[i].at.owesServer && calls[i].e.server in t.servers
    ensures Behind(t.(servers := AddAt(t.servers, calls[i].e.server)), simple, calls[i := calls[i].(at := calls[i].at.(owesServer := false))])
  {
    var c := calls[i].(at := calls[i].at.(owesServer := false));
    ShortPaid(t.servers, simple.servers, calls, OwesServer, i, c, c.e.server);
    ShortStays(t.types, simple.types, calls, OwesType, i, c);
    WeighUpdate(calls, i, c, OwesDrops);
  }

  lemma AddDropsEffect(t: Table, simple: Table, calls: seq<Call>, i: nat)
    requires Behind(t, simple, calls) && i < |calls|
    requires calls[i].at.Fast? && !calls[i].at.owesType && !calls[i].at.owesServer
    ensures Behind(t.(dropped := t.dropped + calls[i].at.drops), simple, calls[i := calls[i].(at := Done)])
  {
    var c := calls[i].(at := Done);
    ShortStays(t.types, simple.types, calls, OwesType, i, c);
    ShortStays(t.servers, simple.servers, calls, OwesServer, i, c);
    WeighUpdate(calls, i, c, OwesDrops);
  }

  /** The writer's call and what it has left are not touched by another call's atomics. */
  lemma AheadStays(t: Table, calls: seq<Call>, writer: Option<nat>, i: nat, c: Call)
    requires Exclusive(calls, writer) && i < |calls| && !calls[i].at.Writing()
    ensures Ahead(t, calls[i := c], writer) == Ahead(t, calls, writer)
  {}

  lemma AheadOfType(t: Table, calls: seq<Call>, writer: Option<nat>, k: TypeKey)
    requires k in t.types
    ensures var a := Ahead(t, calls, writer);
      k in a.types && Ahead(t.(types := AddAt(t.types, k)), calls, writer) == a.(types := AddAt(a.types, k))
  {
    if writer.Some? && writer.value < |calls| {
      TypeCommutes(t, calls[writer.value].at, calls[writer.value].e, k);
    }
  }

  lemma AheadOfServer(t: Table, calls: seq<Call>, writer: Option<nat>, v: string)
    requires v in t.servers
    ensures var a := Ahead(t, calls, writer);
      v in a.servers && Ahead(t.(servers := AddAt(t.servers, v)), calls, writer) == a.(servers := AddAt(a.servers, v))
  {
    if writer.Some? && writer.value < |calls| {
      ServerCommutes(t, calls[writer.value].at, calls[writer.value].e, v);
    }
  }

  lemma AheadOfDrops(t: Table, calls: seq<Call>, writer: Option<nat>, d: nat)
    ensures var a := Ahead(t, calls, writer);
      Ahead(t.(dropped := t.dropped + d), calls, writer) == a.(dropped := a.dropped + d)
  {
    if writer.Some? && writer.value < |calls| {
      DropsCommute(t, calls[writer.value].at, calls[writer.value].e, d);
    }
  }

  /** What an atomic step does to the table, and to the table the writer is heading for. */
  lemma AddAhead(s: State, st: Step)
    requires Exclusive(s.calls, s.writer) && Enabled(s, st) && (st.AddType? || st.AddServer? || st.AddDrops?)
    requires Owed(s.table, s.calls[st.i])
    ensures var t, a, c := Apply(s, st), Ahead(s.table, s.calls, s.writer), s.calls[st.i];
      var b := Ahead(t.table, t.calls, t.writer);
      match st
      case AddType(_) => c.e.key in a.types && b == a.(types := AddAt(a.types, c.e.key))
      case AddServer(_) => c.e.server in a.servers && b == a.(servers := AddAt(a.servers, c.e.server))
      case AddDrops(_) => b == a.(dropped := a.dropped + c.at.drops)
  {
    var t, c := Apply(s, st), s.calls[st.i];
    AheadStays(t.table, s.calls, s.writer, st.i, t.calls[st.i]);
    match st
    case AddType(i) => AheadOfType(s.table, s.calls, s.writer, c.e.key);
    case AddServer(i) => AheadOfServer(s.table, s.calls, s.writer, c.e.server);
    case AddDrops(i) => AheadOfDrops(s.table, s.calls, s.writer, c.at.drops);
  }

  lemma AddKept(s: State, st: Step)
    requires Inv(s) && Enabled(s, st) && (st.AddType? || st.AddServer? || st.AddDrops?)
    ensures Inv(Apply(s, st))
  {
    var t := Apply(s, st);
    AddAhead(s, st);
    AddEffect(Ahead(s.table, s.calls, s.writer), RecordAll(Events(s.order, s.calls)), s.calls, st,
              Ahead(t.table, t.calls, t.writer), t.calls);
    ExclusiveStays(s.calls, s.writer, st.i, t.calls[st.i]);
    AddFrame(s, st);
  }

  lemma AddEffect(a: Table, simple: Table, calls: seq<Call>, st: Step, b: Table, calls': seq<Call>)
    requires Behind(a, simple, calls) && (st.AddType? || st.AddServer? || st.AddDrops?)
    requires Enabled(State(a, calls, [], None), st) && calls' == Apply(State(a, calls, [], None), st).calls
    requires match st
      case AddType(i) => calls[i].e.key in a.types && b == a.(types := AddAt(a.types, calls[i].e.key))
      case AddServer(i) => calls[i].e.server in a.servers && b == a.(servers := AddAt(a.servers, calls[i].e.server))
      case AddDrops(i) => b == a.(dropped := a.dropped + calls[i].at.drops)
    ensures Behind(b, simple, calls')
  {
    match st
    case AddType(i) => AddTypeEffect(a, simple, calls, i);
    case AddServer(i) => AddServerEffect(a, simple, calls, i);
    case AddDrops(i) => AddDropsEffect(a, simple, calls, i);
  }

  /** What the atomics leave alone. */
  lemma AddFrame(s: State, st: Step)
    requires Inv(s) && Enabled(s, st) && (st.AddType? || st.AddServer? || st.AddDrops?)
    ensures var t := Apply(s, st);
      && Turns(t.order, t.calls)
      && Events(t.order, t.calls) == Events(s.order, s.calls)
      && forall i :: 0 <= i < |t.calls| ==> Owed(t.table, t.calls[i])
  {
    var t := Apply(s, st);
    var c := t.calls[st.i];
    TurnsStay(s.order, s.calls, st.i, c);
    EventsUpdate(s.order, s.calls, st.i, c.at);
    assert t.calls == s.calls[st.i := c];
    assert t.table.types.Keys == s.table.types.Keys && t.table.servers.Keys == s.table.servers.Keys;
    forall i | 0 <= i < |t.calls| ensures Owed(t.table, t.calls[i]) {
      assert Owed(s.table, s.calls[i]);
    }
  }

  lemma EnterKept(s: State, e: Event)
    requires Inv(s)
    ensures Inv(Apply(s, Enter(e)))
  {
    var c := Call(e, Begun);
    var t := Apply(s, Enter(e));
    assert Events(t.order, t.calls) == Events(s.order, s.calls);
    forall k ensures Weigh(t.calls, OwesType(k)) == Weigh(s.calls, OwesType(k)) { WeighSnoc(s.calls, c, OwesType(k)); }
    forall v ensures Weigh(t.calls, OwesServer(v)) == Weigh(s.calls, OwesServer(v)) { WeighSnoc(s.calls, c, OwesServer(v)); }
    WeighSnoc(s.calls, c, OwesDrops);
  }

  lemma InvKept(s: State, st: Step)
    requires Inv(s) && Enabled(s, st)
    ensures Inv(Apply(s, st))
  {
    match st
    case Enter(e) => EnterKept(s, e);
    case Look(i) => if FastPath(s.table, s.calls[i].e) { LookFastKept(s, i); } else { LookSlowKept(s, i); }
    case Lock(i) => LockKept(s, i);
    case AddType(_) => AddKept(s, st);
    case AddServer(_) => AddKept(s, st);
    case AddDrops(_) => AddKept(s, st);
    case _ => WriterKept(s, st);
  }

  ghost predicate CanRun(s: State, steps: seq<Step>)
    decreases |steps|
  {
    steps == [] || (Enabled(s, steps[0]) && CanRun(Apply(s, steps[0]), steps[1..]))
  }

  ghost function Run(s: State, steps: seq<Step>): State
    requires CanRun(s, steps)
    decreases |steps|
  {
    if steps == [] then s else Run(Apply(s, steps[0]), steps[1..])
  }

  lemma {:induction false} InvAfter(s: State, steps: seq<Step>)
    requires Inv(s) && CanRun(s, steps)
    ensures Inv(Run(s, steps))
    decreases |steps|
  {
    if steps != [] {
      InvKept(s, steps[0]);
      InvAfter(Apply(s, steps[0]), steps[1..]);
    }
  }

  lemma InvStart()
    ensures Inv(START)
  {}

  /** However the calls interleave, when all are done the tables and the drop counter are what recording
      the same events one at a time, in lock order, gives; every call is in that order exactly once. */
  lemma ConcurrentIsSequential(steps: seq<Step>)
    requires CanRun(START, steps)
    requires forall i :: 0 <= i < |Run(START, steps).calls| ==> Run(START, steps).calls[i].at.Done?
    ensures var s := Run(START, steps);
      && Turns(s.order, s.calls)
      && (forall i :: 0 <= i < |s.calls| ==> i in s.order)
      && s.table == RecordAll(Events(s.order, s.calls))
  {
    InvStart();
    InvAfter(START, steps);
    var s := Run(START, steps);
    NothingOwedAtEnd(s);
  }

  /** A table owed nothing is the simple one. */
  lemma ShortOfNothing<K(!new)>(m: map<K, nat>, simple: map<K, nat>, calls: seq<Call>, owes: K -> (Call -> nat))
    requires Short(m, simple, calls, owes)
    requires forall i, k :: 0 <= i < |calls| ==> owes(k)(calls[i]) == 0
    ensures m == simple
  {
    forall k | k in m ensures simple[k] == m[k] {
      WeighZero(calls, owes(k));
    }
  }

  lemma NothingOwedAtEnd(s: State)
    requires Inv(s) && forall i :: 0 <= i < |s.calls| ==> s.calls[i].at.Done?
    ensures s.table == RecordAll(Events(s.order, s.calls))
  {
    var simple := RecordAll(Events(s.order, s.calls));
    assert Ahead(s.table, s.calls, s.writer) == s.table;
    ShortOfNothing(s.table.types, simple.types, s.calls, OwesType);
    ShortOfNothing(s.table.servers, simple.servers, s.calls, OwesServer);
    WeighZero(s.calls, OwesDrops);
  }

  lemma AheadHasMore(t: Table, calls: seq<Call>, writer: Option<nat>)
    ensures t.types.Keys <= Ahead(t, calls, writer).types.Keys && t.servers.Keys <= Ahead(t, calls, writer).servers.Keys
  {}

  lemma FewerKeys<K>(m: map<K, nat>, n: map<K, nat>, cap: nat)
    requires m.Keys <= n.Keys && |n| <= cap
    ensures |m| <= cap
  {
    Subset(m.Keys, n.Keys);
    assert |m| == |m.Keys| && |n| == |n.Keys|;
  }

  lemma Subset<K>(a: set<K>, b: set<K>)
    requires a <= b
    ensures |a| <= |b|
  {
    assert b == a + (b - a);
  }

  /** At every moment, the writer's own included, both tables are within the cap. */
  lemma AlwaysCapped(steps: seq<Step>)
    requires CanRun(START, steps)
    ensures var s := Run(START, steps);
      |s.table.types| <= MAX_EVENT_LABELS && |s.table.servers| <= MAX_EVENT_LABELS
  {
    InvStart();
    InvAfter(START, steps);
    CappedIfInv(Run(START, steps));
  }

  lemma CappedIfInv(s: State)
    requires Inv(s)
    ensures |s.table.types| <= MAX_EVENT_LABELS && |s.table.servers| <= MAX_EVENT_LABELS
  {
    var ahead, simple := Ahead(s.table, s.calls, s.writer), RecordAll(Events(s.order, s.calls));
    RecordedCounts(Events(s.order, s.calls));
    SameSize(ahead.types, simple.types);
    SameSize(ahead.servers, simple.servers);
    AheadHasMore(s.table, s.calls, s.writer);
    FewerKeys(s.table.types, ahead.types, MAX_EVENT_LABELS);
    FewerKeys(s.table.servers, ahead.servers, MAX_EVENT_LABELS);
  }

  /** The write lock is taken exactly when the call would create a label. */
  lemma WriteLockIffNewLabel(t: Table, e: Event)
    ensures FastPath(t, e) <==> Record(t, e).types.Keys == t.types.Keys && Record(t, e).servers.Keys == t.servers.Keys
  {
    if e.key !in t.types && |t.types| < MAX_EVENT_LABELS {
      assert e.key in Record(t, e).types.Keys;
    }
    if e.server != "" && e.server !in t.servers && |t.servers| < MAX_EVENT_LABELS {
      assert e.server in Record(t, e).servers.Keys;
    }
  }

  // ----- every call returns

  /** The steps a call has left, at most. */
  function Left(c: Call): nat {
    match c.at
    case Begun => 6
    case Fast(owesType, owesServer, _) => 1 + (if owesType then 1 else 0) + (if owesServer then 1 else 0)
    case Slow => 5
    case Locked => 4
    case Typed(_) => 3
    case Served(_) => 2
    case Settled => 1
    case Done => 0
  }

  predicate AllDone(s: State) { forall i :: 0 <= i < |s.calls| ==> s.calls[i].at.Done? }

  /** No call begins. */
  predicate OwnSteps(steps: seq<Step>) { forall k :: 0 <= k < |steps| ==> !steps[k].Enter? }

  lemma StepSpends(s: State, st: Step)
    requires Enabled(s, st) && !st.Enter?
    ensures Weigh(Apply(s, st).calls, Left) < Weigh(s.calls, Left)
    ensures |Apply(s, st).calls| == |s.calls|
  {
    WeighUpdate(s.calls, st.i, Apply(s, st).calls[st.i], Left);
  }

  /** The call that holds the write lock can go on. */
  lemma WriterStep(s: State, i: nat) returns (st: Step)
    requires i < |s.calls| && s.calls[i].at.Writing()
    ensures Enabled(s, st) && !st.Enter?
  {
    match s.calls[i].at
    case Locked => st := WriteType(i);
    case Typed(_) => st := WriteServer(i);
    case Served(_) => st := WriteDrops(i);
    case Settled => st := Unlock(i);
  }

  /** As long as a call has not returned some call can go on: itself, or the one with the write lock. */
  lemma SomeStep(s: State, i: nat) returns (st: Step)
    requires Inv(s) && i < |s.calls| && !s.calls[i].at.Done?
    ensures Enabled(s, st) && !st.Enter?
  {
    if s.writer.Some? {
      st := WriterStep(s, s.writer.value);
    } else {
      match s.calls[i].at
      case Begun => st := Look(i);
      case Fast(owesType, owesServer, _) =>
        st := if owesType then AddType(i) else if owesServer then AddServer(i) else AddDrops(i);
      case Slow => st := Lock(i);
    }
  }


  lemma RunOn(s: State, st: Step, rest: seq<Step>)
    requires Enabled(s, st) && CanRun(Apply(s, st), rest)
    ensures CanRun(s, [st] + rest) && Run(s, [st] + rest) == Run(Apply(s, st), rest)
  {
    assert ([st] + rest)[1..] == rest;
  }

  lemma OwnCons(st: Step, rest: seq<Step>)
    requires !st.Enter? && OwnSteps(rest)
    ensures OwnSteps([st] + rest)
  {}

  lemma {:induction false} CanFinish(s: State) returns (steps: seq<Step>)
    requires Inv(s)
    ensures CanRun(s, steps) && OwnSteps(steps) && AllDone(Run(s, steps))
    decreases Weigh(s.calls, Left)
  {
    if AllDone(s) {
      return [];
    }
    var i: nat :| i < |s.calls| && !s.calls[i].at.Done?;
    var st := SomeStep(s, i);
    InvKept(s, st);
    StepSpends(s, st);
    var rest := CanFinish(Apply(s, st));
    RunOn(s, st, rest);
    OwnCons(st, rest);
    steps := [st] + rest;
  }

  /** From every reachable state the calls' own steps finish them all: nobody is left waiting for a lock. */
  lemma CallsReturn(before: seq<Step>)
    requires CanRun(START, before)
    ensures var s := Run(START, before);
      exists steps :: CanRun(s, steps) && OwnSteps(steps) && AllDone(Run(s, steps))
  {
    InvStart();
    InvAfter(START, before);
    var steps := CanFinish(Run(START, before));
  }

  /** And without new calls no run is longer than 6 steps a call. */
  lemma {:induction false} RunsEnd(s: State, steps: seq<Step>)
    requires CanRun(s, steps) && OwnSteps(steps)
    ensures |steps| + Weigh(Run(s, steps).calls, Left) <= Weigh(s.calls, Left) <= 6 * |s.calls|
    decreases |steps|
  {
    WeighBound(s.calls, Left, 6);
    if steps != [] {
      StepSpends(s, steps[0]);
      RunsEnd(Apply(s, steps[0]), steps[1..]);
    }
  }
}
