/** What a turn of the budget pass does to the encoded total it compares: exactly how the total moves, for
    which maps it must fall, and from how many entries on it need not. */
module EvtxTotals {
  import opened Prelude
  import opened Utf8
  import opened Utf16
  import opened MapSum
  import opened EvtxBudget

  // ----- units on both sides of a cut

  lemma RunesStep(b: bytes)
    requires b != []
    ensures Runes(b) == [DecodeRune(b).r] + Runes(b[DecodeRune(b).size..])
  {}

  lemma RunesAppendStep(a: bytes, b: bytes, d: Decoded)
    requires a != [] && (b == [] || RuneStart(b[0])) && d == DecodeRune(a)
    requires Runes(a[d.size..] + b) == Runes(a[d.size..]) + Runes(b)
    ensures Runes(a + b) == Runes(a) + Runes(b)
  {
    FrontAlone(a, b);
    DropFront(a, b, d.size);
    RunesStep(a);
    RunesStep(a + b);
    Regroup(d.r, Runes(a[d.size..]), Runes(b));
  }

  lemma DropFront(a: bytes, b: bytes, n: nat)
    requires n <= |a|
    ensures (a + b)[n..] == a[n..] + b
  {}

  lemma Regroup(r: rune, xs: seq<rune>, ys: seq<rune>)
    ensures [r] + (xs + ys) == ([r] + xs) + ys
  {}

  lemma {:induction false} RunesAppend(a: bytes, b: bytes)
    requires b == [] || RuneStart(b[0])
    ensures Runes(a + b) == Runes(a) + Runes(b)
    decreases |a|
  {
    if a == [] {
      assert a + b == b;
    } else {
      RunesAppend(a[DecodeRune(a).size..], b);
      RunesAppendStep(a, b, DecodeRune(a));
    }
  }

  lemma UnitsJoin(a: bytes, b: bytes)
    requires b == [] || RuneStart(b[0])
    ensures |Units(Runes(a + b))| == |Units(Runes(a))| + |Units(Runes(b))|
  {
    RunesAppend(a, b);
    UnitsAppend(Runes(a), Runes(b));
  }

  lemma UnitsSplit(b: bytes, n: nat)
    requires n <= |b| && (n == 0 || n == |b| || RuneStart(b[n]))
    ensures |Units(Runes(b))| == |Units(Runes(b[..n]))| + |Units(Runes(b[n..]))|
  {
    if n == 0 {
      assert b[..0] == [] && b[0..] == b;
    } else {
      assert b == b[..n] + b[n..];
      UnitsJoin(b[..n], b[n..]);
    }
  }

  /** A unit takes at most three bytes. */
  lemma {:induction false} ThreeBytesAUnit(b: bytes)
    ensures |b| <= 3 * |Units(Runes(b))|
    decreases |b|
  {
    if b != [] {
      var d := DecodeRune(b);
      ThreeBytesAUnit(b[d.size..]);
      if d.ok {
        EncodeDecode(b);
      }
      assert d.size <= 3 * |UnitsOf(d.r)|;
      assert Runes(b)[1..] == Runes(b[d.size..]);
    }
  }

  // ----- one turn

  /** The part of a value that halving drops. */
  function Dropped(v: bytes): bytes
    requires v != []
  {
    v[BackOff(v, |v| / 2)..]
  }

  lemma MarkedUnits(kept: bytes)
    ensures |Units(Runes(kept + Marker()))| == |Units(Runes(kept))| + 12
  {
    MarkerUnits();
    UnitsJoin(kept, Marker());
  }

  /** Halving costs the marker's twelve units and saves those it drops. */
  lemma HalvedCost(v: bytes)
    requires v != []
    ensures EncodedLen(Halved(v)) == EncodedLen(v) + 24 - 2 * |Units(Runes(Dropped(v)))|
  {
    var keep := BackOff(v, |v| / 2);
    UnitsSplit(v, keep);
    MarkedUnits(v[..keep]);
  }

  /** Few units are dropped only from a short value. */
  lemma FewDropped(v: bytes, c: nat)
    requires v != [] && |Units(Runes(Dropped(v)))| <= c
    ensures |v| <= 6 * c && EncodedLen(v) <= 4 + 8 * c
  {
    var keep := BackOff(v, |v| / 2);
    UnitsSplit(v, keep);
    ThreeBytesAUnit(Dropped(v));
    UnitsAtMostBytes(v[..keep]);
  }

  /** The most a map of `n` entries can cost if halving its longest value drops at most `c` units. */
  function CheapMost(n: nat, c: nat): nat
    requires n > 0
  {
    (n - 1) * (4 + 12 * c) + 4 + 8 * c
  }

  lemma {:induction false} CheapMostGrows(n: nat, p: nat, c: nat)
    requires 0 < n <= p
    ensures CheapMost(n, c) <= CheapMost(p, c)
    decreases p - n
  {
    if n < p {
      CheapMostGrows(n + 1, p, c);
      Distribute(n - 1, 4 + 12 * c);
    }
  }

  lemma CheapMap<K(!new)>(m: Fields<K>, k: K, c: nat)
    requires Longest(m, k) && m[k] != [] && |Units(Runes(Dropped(m[k])))| <= c
    ensures |m| > 0 && Sum(m, EncodedLen) <= CheapMost(|m|, c)
  {
    FewDropped(m[k], c);
    OthersAtMost(m, k, 4 + 12 * c);
  }

  lemma OthersAtMost<K(!new)>(m: Fields<K>, k: K, bound: nat)
    requires Longest(m, k) && 4 + 2 * |m[k]| <= bound
    ensures |m| > 0 && Sum(m, EncodedLen) <= (|m| - 1) * bound + EncodedLen(m[k])
  {
    var rest := m - {k};
    forall j | j in rest ensures EncodedLen(rest[j]) <= bound {
      UnitsAtMostBytes(m[j]);
    }
    SumBound(rest, EncodedLen, bound);
    SumRemove(m, EncodedLen, k);
    assert m.Keys == rest.Keys + {k};
    assert |m| == |m.Keys| == |rest.Keys| + 1;
  }

  /** A turn on a map too small for a cheap cut lowers the total by what more than `c` units save. */
  lemma TurnSaves<K(!new)>(m: Fields<K>, next: Fields<K>, c: nat)
    requires Turn(m, next) && (|m| > 0 ==> CheapMost(|m|, c) <= MAX_ENCODED_FIELDS_BYTES)
    ensures Sum(next, EncodedLen) <= Sum(m, EncodedLen) + 22 - 2 * c
  {
    var k :| Longest(m, k) && Pays(m[k]) && next == m[k := Halved(m[k])];
    SumUpdate(m, EncodedLen, k, Halved(m[k]));
    HalvedCost(m[k]);
    if |Units(Runes(Dropped(m[k])))| <= c {
      CheapMap(m, k, c);
    }
  }

  /** With at most 448 entries no turn raises the encoded total. */
  lemma TurnNeverRaises<K(!new)>(m: Fields<K>, next: Fields<K>)
    requires Turn(m, next) && |m| <= 448
    ensures Sum(next, EncodedLen) <= Sum(m, EncodedLen)
  {
    if |m| > 0 {
      CheapMostGrows(|m|, 448, 11);
    }
    TurnSaves(m, next, 11);
  }

  /** With at most 411 entries, so for the 19 fields of a record, every turn lowers it. */
  lemma TurnLowers<K(!new)>(m: Fields<K>, next: Fields<K>)
    requires Turn(m, next) && |m| <= 411
    ensures Sum(next, EncodedLen) < Sum(m, EncodedLen)
  {
    if |m| > 0 {
      CheapMostGrows(|m|, 411, 12);
    }
    TurnSaves(m, next, 12);
  }

  // ----- from how many entries on

  function Letters(n: nat): bytes { seq(n, _ => 97) }

  lemma LettersUnits(n: nat)
    ensures |Units(Runes(Letters(n)))| == n
  {
    AsciiValid(Letters(n));
  }

  /** Three letters and one ellipsis, `j` times each, all letters first. */
  function Lopsided(j: nat): bytes { Letters(3 * j) + Encode(seq(j, _ => 0x2026)) }

  lemma LopsidedHalves(j: nat)
    requires j >= 5
    ensures var v := Lopsided(j);
      |v| == 6 * j && BackOff(v, |v| / 2) == 3 * j && Pays(v)
      && EncodedLen(v) == 4 + 8 * j && |Units(Runes(Dropped(v)))| == j
  {
    var rs: seq<rune> := seq(j, _ => 0x2026);
    var v := Lopsided(j);
    RepeatEncoded(j);
    RunesOfEncode(rs);
    LettersUnits(3 * j);
    assert v[3 * j] == Encode(rs)[3 * 0];
    assert v[3 * j..] == Encode(rs);
    UnitsJoin(Letters(3 * j), Encode(rs));
  }

  /** A map of `n` entries, all with one value save the first. */
  function OneOther(n: nat, v: bytes, w: bytes): (m: Fields<nat>)
    requires n > 0
    ensures forall i :: i in m <==> 0 <= i < n
    ensures forall i :: i in m ==> m[i] == if i == 0 then w else v
  {
    Uniform(n, v)[0 := w]
  }

  lemma OneOtherSum(n: nat, v: bytes, w: bytes, a: nat, b: nat)
    requires n > 0 && EncodedLen(v) == a && EncodedLen(w) == b
    ensures |OneOther(n, v, w)| == n
    ensures Sum(OneOther(n, v, w), EncodedLen) == (n - 1) * a + b
  {
    var u := Uniform(n, v);
    SumConstant(u, EncodedLen, a);
    SumUpdate(u, EncodedLen, 0, w);
    Distribute(n - 1, a);
    assert OneOther(n, v, w).Keys == u.Keys;
    assert |OneOther(n, v, w)| == |OneOther(n, v, w).Keys| == |u.Keys|;
  }

  lemma HalvesFirst(n: nat, v: bytes, w: bytes) returns (m: Fields<nat>, next: Fields<nat>)
    requires n > 0 && |v| == |w| && Pays(w)
    requires Sum(OneOther(n, v, w), EncodedLen) > MAX_ENCODED_FIELDS_BYTES
    ensures m == OneOther(n, v, w) && Turn(m, next)
    ensures Sum(next, EncodedLen) == Sum(m, EncodedLen) + 24 - 2 * |Units(Runes(Dropped(w)))|
  {
    m := OneOther(n, v, w);
    next := m[0 := Halved(w)];
    HalvedCost(w);
    SumUpdate(m, EncodedLen, 0, Halved(w));
    assert Longest(m, 0);
  }

  lemma TurnFrom(n: nat, v: bytes, w: bytes, j: nat) returns (m: Fields<nat>, next: Fields<nat>)
    requires n > 0 && |v| == |w| && Pays(w) && |Units(Runes(Dropped(w)))| == j
    requires EncodedLen(v) == 4 + 12 * j && EncodedLen(w) == 4 + 8 * j
    requires CheapMost(n, j) > MAX_ENCODED_FIELDS_BYTES
    ensures |m| == n && Turn(m, next) && Sum(next, EncodedLen) == Sum(m, EncodedLen) + 24 - 2 * j
  {
    OneOtherSum(n, v, w, 4 + 12 * j, 4 + 8 * j);
    m, next := HalvesFirst(n, v, w);
  }

  /** A turn on a map whose one lopsided value is as long as all the others, which are letters. */
  lemma LopsidedTurn(n: nat, j: nat) returns (m: Fields<nat>, next: Fields<nat>)
    requires n > 0 && j >= 5 && CheapMost(n, j) > MAX_ENCODED_FIELDS_BYTES
    ensures |m| == n && Turn(m, next) && Sum(next, EncodedLen) == Sum(m, EncodedLen) + 24 - 2 * j
  {
    LettersUnits(6 * j);
    LopsidedHalves(j);
    m, next := TurnFrom(n, Letters(6 * j), Lopsided(j), j);
  }

  /** Some turn on a map of that many entries raises the total. */
  ghost predicate CanRise(n: nat) {
    exists m: Fields<nat>, next: Fields<nat> :: |m| == n && Turn(m, next) && Sum(next, EncodedLen) > Sum(m, EncodedLen)
  }

  /** Some turn on a map of that many entries does not lower it. */
  ghost predicate CanStay(n: nat) {
    exists m: Fields<nat>, next: Fields<nat> :: |m| == n && Turn(m, next) && Sum(next, EncodedLen) >= Sum(m, EncodedLen)
  }

  /** Both bounds are exact: the total can rise in a turn from 449 entries on, and stay from 412 on. */
  lemma TotalRisesIff(n: nat)
    ensures CanRise(n) <==> n > 448
    ensures CanStay(n) <==> n > 411
  {
    if n > 448 {
      CheapMostGrows(449, n, 11);
      var m, next := LopsidedTurn(n, 11);
    } else if CanRise(n) {
      var m: Fields<nat>, next: Fields<nat> :| |m| == n && Turn(m, next) && Sum(next, EncodedLen) > Sum(m, EncodedLen);
      TurnNeverRaises(m, next);
    }
    if n > 411 {
      CheapMostGrows(412, n, 12);
      var m, next := LopsidedTurn(n, 12);
    } else if CanStay(n) {
      var m: Fields<nat>, next: Fields<nat> :| |m| == n && Turn(m, next) && Sum(next, EncodedLen) >= Sum(m, EncodedLen);
      TurnLowers(m, next);
    }
  }

  /** So in a run on at most 411 entries the total falls from turn to turn. */
  lemma {:induction false} RunLowers<K(!new)>(run: seq<Fields<K>>, i: nat)
    requires Turns(run) && |run[0]| <= 411 && i < |run| - 1
    ensures |run[i]| == |run[0]| && Sum(run[i + 1], EncodedLen) < Sum(run[i], EncodedLen)
  {
    if i > 0 {
      RunLowers(run, i - 1);
      TurnShortens(run[i - 1], run[i]);
      assert |run[i]| == |run[i].Keys| == |run[i - 1].Keys|;
    }
    TurnLowers(run[i], run[i + 1]);
  }

  // ----- when the longest value resists

  /** A two-byte character and thirteen letters. */
  function Ending(): bytes { [0xC2, 0xA9] + Letters(13) }

  /** Twelve letters before it. */
  function Splitting(): bytes { Letters(12) + Ending() }

  lemma EndingUnits()
    ensures Ending()[0] == 0xC2 && Ending()[1] == 0xA9 && |Ending()| == 15 && |Units(Runes(Ending()))| == 14
  {
    LettersUnits(13);
    TwoByteUnit();
    UnitsJoin([0xC2, 0xA9], Letters(13));
  }

  lemma AfterLetters(n: nat, b: bytes)
    requires b != [] && RuneStart(b[0])
    ensures (Letters(n) + b)[n..] == b
    ensures |Units(Runes(Letters(n) + b))| == n + |Units(Runes(b))|
  {
    LettersUnits(n);
    UnitsJoin(Letters(n), b);
  }

  /** A cut that would fall on the second byte of a character backs off to its first. */
  lemma CutBeforeCharacter(b: bytes, n: nat)
    requires |b| > 1 && RuneStart(b[0]) && Continuation(b[1])
    ensures BackOff(Letters(n) + b, n + 1) == n
  {
    var w := Letters(n) + b;
    assert w[n] == b[0] && w[n + 1] == b[1];
    assert BackOff(w, n) == n;
  }

  lemma SplittingHalves()
    ensures var w := Splitting();
      |w| == 27 && Pays(w) && EncodedLen(w) == 56 && |Units(Runes(Dropped(w)))| == 14
  {
    EndingUnits();
    HalvesBefore(Ending(), 12);
  }

  lemma HalvesBefore(b: bytes, n: nat)
    requires |b| == n + 3 && n >= 12 && RuneStart(b[0]) && Continuation(b[1])
    ensures var w := Letters(n) + b;
      |w| == 2 * n + 3 && Pays(w) && Dropped(w) == b && EncodedLen(w) == 4 + 2 * (n + |Units(Runes(b))|)
  {
    AfterLetters(n, b);
    CutBeforeCharacter(b, n);
    assert |Letters(n) + b| / 2 == n + 1;
  }

  lemma TwoByteUnit()
    ensures |Units(Runes([0xC2, 0xA9]))| == 1
  {
    var c: bytes := [0xC2, 0xA9];
    assert DecodeRune(c) == Decoded(0xA9, 2, true) && c[2..] == [];
    assert Runes(c) == [0xA9];
    var rs: seq<rune> := [0xA9];
    assert rs[1..] == [];
  }

  /** The pass stops over budget only where the longest value it found resists halving; here are one
      value that does, and a shorter one whose halving would save bytes and lower the encoded total. */
  lemma StoppedTooEarly(n: nat) returns (m: Fields<nat>)
    requires n > 1015
    ensures |m| == n && Stops(m) && Sum(m, EncodedLen) > MAX_ENCODED_FIELDS_BYTES
    ensures Longest(m, 1) && !Pays(m[1])
    ensures 0 in m && |m[0]| < |m[1]| && Pays(m[0]) && EncodedLen(Halved(m[0])) < EncodedLen(m[0])
  {
    SplittingHalves();
    HalvedCost(Splitting());
    LettersResist();
    m := StoppedWith(n, Letters(28), Splitting());
  }

  lemma StoppedWith(n: nat, v: bytes, w: bytes) returns (m: Fields<nat>)
    requires n > 1015 && |w| < |v| && !Pays(v) && EncodedLen(v) == 60 && EncodedLen(w) == 56
    ensures |m| == n && Stops(m) && Sum(m, EncodedLen) > MAX_ENCODED_FIELDS_BYTES
    ensures Longest(m, 1) && m[1] == v && 0 in m && m[0] == w
  {
    OneOtherSum(n, v, w, 60, 56);
    m := OneOther(n, v, w);
    assert Longest(m, 1) && !Pays(m[1]);
  }

  lemma LettersResist()
    ensures |Letters(28)| == 28 && EncodedLen(Letters(28)) == 60 && !Pays(Letters(28))
  {
    LettersUnits(28);
    assert RuneStart(Letters(28)[14]) && BackOff(Letters(28), 14) == 14;
  }

  /** Wherever the pass stops over budget on a map of that many entries, nothing in it can be shortened. */
  ghost predicate NothingLeft(n: nat) {
    forall m: Fields<nat> :: |m| == n && Stops(m) && Sum(m, EncodedLen) > MAX_ENCODED_FIELDS_BYTES
      ==> forall k :: k in m ==> !Pays(m[k])
  }

  /** That holds exactly for at most 1015 entries, where the pass never stops over budget at all. */
  lemma NothingLeftIff(n: nat)
    ensures NothingLeft(n) <==> n <= 1015
  {
    if n > 1015 {
      var m := StoppedTooEarly(n);
      assert Pays(m[0]);
    } else {
      forall m: Fields<nat> | |m| == n && Stops(m) ensures Sum(m, EncodedLen) <= MAX_ENCODED_FIELDS_BYTES {
        EndsInBudget(m);
      }
    }
  }
}
