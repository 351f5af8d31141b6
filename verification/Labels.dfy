/** The capped label tables of pkg/metrics/metrics.go: a counter per label, created on first sight while
    the table is below its cap, and a count of the increments discarded at the cap. */
module Labels {
  import opened Prelude
  import opened MapSum

  const MAX_EVENT_LABELS := 128

  datatype Bumped<K> = Bumped(m: map<K, nat>, dropped: bool)

  /** bumpLabel. */
  function Bump<K>(m: map<K, nat>, k: K): Bumped<K> {
    if k in m then Bumped(m[k := m[k] + 1], false)
    else if |m| >= MAX_EVENT_LABELS then Bumped(m, true)
    else Bumped(m[k := 1], false)
  }

  datatype Tally<K> = Tally(m: map<K, nat>, dropped: nat)

  /** The table after bumping the labels one at a time. */
  function TallyOf<K>(ks: seq<K>): Tally<K> {
    if ks == [] then Tally(map[], 0)
    else
      var t := TallyOf(ks[..|ks| - 1]);
      var b := Bump(t.m, ks[|ks| - 1]);
      Tally(b.m, t.dropped + if b.dropped then 1 else 0)
  }

  lemma TallySnoc<K>(ks: seq<K>, k: K)
    ensures var t := TallyOf(ks); var b := Bump(t.m, k);
      TallyOf(ks + [k]) == Tally(b.m, t.dropped + if b.dropped then 1 else 0)
  {
    assert (ks + [k])[..|ks|] == ks;
  }

  /** The labels in order of first appearance. */
  function Firsts<K(==)>(ks: seq<K>): seq<K> {
    if ks == [] then []
    else
      var f := Firsts(ks[..|ks| - 1]);
      if ks[|ks| - 1] in f then f else f + [ks[|ks| - 1]]
  }

  function CappedTo<K>(ks: seq<K>, cap: nat): seq<K> {
    if |ks| <= cap then ks else ks[..cap]
  }

  function Capped<K>(ks: seq<K>): seq<K> { CappedTo(ks, MAX_EVENT_LABELS) }

  function Count(n: nat): nat { n }

  lemma {:induction false} FirstsHas<K>(ks: seq<K>)
    ensures forall k :: k in Firsts(ks) <==> k in ks
    decreases |ks|
  {
    if ks != [] {
      var front := ks[..|ks| - 1];
      FirstsHas(front);
      assert ks == front + [ks[|ks| - 1]];
    }
  }

  /** What a table over `ks` with the labels `fs` must be. */
  ghost predicate Tallied<K(!new)>(t: Tally<K>, fs: seq<K>, ks: seq<K>) {
    && |t.m| == |fs|
    && (forall k :: k in t.m <==> k in fs)
    && (forall k :: k in t.m ==> t.m[k] == multiset(ks)[k])
    && Sum(t.m, Count) + t.dropped == |ks|
  }

  lemma KnownLabel<K(!new)>(t: Tally<K>, fs: seq<K>, ks: seq<K>, k: K)
    requires Tallied(t, fs, ks) && k in t.m
    ensures Tallied(Tally(t.m[k := t.m[k] + 1], t.dropped), fs, ks + [k])
  {
    SumUpdate(t.m, Count, k, t.m[k] + 1);
  }

  lemma DroppedLabel<K(!new)>(t: Tally<K>, fs: seq<K>, ks: seq<K>, k: K)
    requires Tallied(t, fs, ks) && k !in t.m
    ensures Tallied(Tally(t.m, t.dropped + 1), fs, ks + [k])
  {}

  lemma NewLabel<K(!new)>(t: Tally<K>, fs: seq<K>, ks: seq<K>, k: K)
    requires Tallied(t, fs, ks) && k !in t.m && k !in ks
    ensures Tallied(Tally(t.m[k := 1], t.dropped), fs + [k], ks + [k])
  {
    SumInsert(t.m, Count, k, 1);
  }

  lemma FirstsSnoc<K>(ks: seq<K>, k: K)
    ensures Firsts(ks + [k]) == if k in ks then Firsts(ks) else Firsts(ks) + [k]
  {
    assert (ks + [k])[..|ks|] == ks;
    FirstsHas(ks);
  }

  lemma CappedSnoc<K>(fs: seq<K>, k: K)
    ensures Capped(fs + [k]) == if |Capped(fs)| >= MAX_EVENT_LABELS then Capped(fs) else Capped(fs) + [k]
    ensures |Capped(fs)| < MAX_EVENT_LABELS ==> Capped(fs) == fs
    ensures forall j :: j in Capped(fs) ==> j in fs
  {}

  lemma TallyStep<K(!new)>(ks: seq<K>, k: K)
    requires Tallied(TallyOf(ks), Capped(Firsts(ks)), ks)
    ensures Tallied(TallyOf(ks + [k]), Capped(Firsts(ks + [k])), ks + [k])
  {
    var t, fs := TallyOf(ks), Capped(Firsts(ks));
    TallySnoc(ks, k);
    FirstsSnoc(ks, k);
    FirstsHas(ks);
    CappedSnoc(Firsts(ks), k);
    if k in t.m {
      KnownLabel(t, fs, ks, k);
    } else if |t.m| >= MAX_EVENT_LABELS {
      DroppedLabel(t, fs, ks, k);
    } else {
      NewLabel(t, fs, ks, k);
    }
  }

  lemma {:induction false} TallyHolds<K(!new)>(ks: seq<K>)
    ensures Tallied(TallyOf(ks), Capped(Firsts(ks)), ks)
    decreases |ks|
  {
    if ks != [] {
      TallyHolds(ks[..|ks| - 1]);
      TallyStep(ks[..|ks| - 1], ks[|ks| - 1]);
      assert ks == ks[..|ks| - 1] + [ks[|ks| - 1]];
    }
  }

  /** The table keeps exactly the first 128 distinct labels ever seen, with every occurrence of each, and
      the drop counter has all the others: together they are as many as the increments. */
  lemma TallyIs<K(!new)>(ks: seq<K>)
    ensures var t := TallyOf(ks);
      && |t.m| == |Capped(Firsts(ks))| <= MAX_EVENT_LABELS
      && (forall k :: k in t.m <==> k in Capped(Firsts(ks)))
      && (forall k :: k in t.m ==> t.m[k] == multiset(ks)[k])
      && Sum(t.m, Count) + t.dropped == |ks|
  {
    TallyHolds(ks);
  }
}
