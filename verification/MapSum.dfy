/** Sums over the values of a finite map, in no particular order. */
module MapSum {

  ghost function Pick<K, V>(m: map<K, V>): (k: K)
    requires m != map[]
    ensures k in m
  {
    var k :| k in m;
    k
  }

  ghost function Sum<K, V>(m: map<K, V>, f: V -> nat): nat
    decreases |m|
  {
    if m == map[] then 0
    else
      var k := Pick(m);
      f(m[k]) + Sum(m - {k}, f)
  }

  /** Any key may be taken out first. */
  lemma {:induction false} SumRemove<K, V>(m: map<K, V>, f: V -> nat, k: K)
    requires k in m
    ensures Sum(m, f) == f(m[k]) + Sum(m - {k}, f)
    decreases |m|
  {
    var c := Pick(m);
    if c != k {
      SumRemove(m - {c}, f, k);
      SumRemove(m - {k}, f, c);
      assert m - {c} - {k} == m - {k} - {c};
    }
  }

  lemma SumUpdate<K, V>(m: map<K, V>, f: V -> nat, k: K, v: V)
    requires k in m
    ensures Sum(m[k := v], f) == Sum(m, f) - f(m[k]) + f(v)
  {
    SumRemove(m, f, k);
    SumRemove(m[k := v], f, k);
    assert m[k := v] - {k} == m - {k};
  }

  lemma SumInsert<K, V>(m: map<K, V>, f: V -> nat, k: K, v: V)
    requires k !in m
    ensures Sum(m[k := v], f) == Sum(m, f) + f(v)
  {
    SumRemove(m[k := v], f, k);
    assert m[k := v] - {k} == m;
  }

  lemma Distribute(a: nat, b: nat)
    ensures (a + 1) * b == a * b + b
  {}

  lemma {:induction false} SumBound<K, V>(m: map<K, V>, f: V -> nat, bound: nat)
    requires forall k :: k in m ==> f(m[k]) <= bound
    ensures Sum(m, f) <= |m| * bound
    decreases |m|
  {
    if m != map[] {
      var k := Pick(m);
      var rest := m - {k};
      SumBound(rest, f, bound);
      assert m.Keys == rest.Keys + {k};
      assert |m| == |rest| + 1;
      Distribute(|rest|, bound);
    }
  }

  lemma {:induction false} SumConstant<K, V>(m: map<K, V>, f: V -> nat, c: nat)
    requires forall k :: k in m ==> f(m[k]) == c
    ensures Sum(m, f) == |m| * c
    decreases |m|
  {
    if m != map[] {
      var k := Pick(m);
      var rest := m - {k};
      SumConstant(rest, f, c);
      assert m.Keys == rest.Keys + {k};
      assert |m| == |rest| + 1;
      Distribute(|rest|, c);
    }
  }
}
