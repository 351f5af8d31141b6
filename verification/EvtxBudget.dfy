/** pkg/evtx/writer_evtx_notwindows.go: capping each field value, then halving the longest until the
    whole set fits in one record. */
module EvtxBudget {
  import opened Prelude
  import opened Utf8
  import opened Utf16
  import opened MapSum

  const MAX_RECORD_BYTES := 64996
  const BINXML_OVERHEAD_BYTES := 4096
  const MAX_ENCODED_FIELDS_BYTES := MAX_RECORD_BYTES - BINXML_OVERHEAD_BYTES
  const MAX_FIELD_BYTES := 8192

  /** The ellipsis and "[truncated]". */
  function Marker(): bytes { Ellipsis() + Ascii("[truncated]") }
  function Ellipsis(): bytes { [0xE2, 0x80, 0xA6] }

  const MARKER_BYTES := 14

  // ----- measures of a value

  /** Bytes go-evtx writes for a value: length prefix, UTF-16 units, terminator. */
  function EncodedLen(s: bytes): nat { 4 + 2 * |Units(Runes(s))| }

  function ByteLen(s: bytes): nat { |s| }

  /** A value takes at most one unit a byte. */
  lemma {:induction false} UnitsAtMostBytes(s: bytes)
    ensures |Units(Runes(s))| <= |s|
  {
    if s != [] {
      var d := DecodeRune(s);
      UnitsAtMostBytes(s[d.size..]);
      assert Runes(s)[1..] == Runes(s[d.size..]);
    }
  }

  // ----- cutting a value

  /** The nearest place at or before `keep` where a rune starts. */
  function BackOff(s: bytes, keep: nat): (n: nat)
    requires keep < |s|
    ensures n <= keep && (n == 0 || RuneStart(s[n]))
    ensures forall i :: n < i <= keep ==> Continuation(s[i])
  {
    if keep > 0 && !RuneStart(s[keep]) then BackOff(s, keep - 1) else keep
  }

  method BackOffLoop(s: bytes, start: nat) returns (keep: nat)
    requires start < |s|
    ensures keep == BackOff(s, start)
  {
    keep := start;
    while keep > 0 && !RuneStart(s[keep])
      invariant keep <= start && BackOff(s, keep) == BackOff(s, start)
    {
      keep := keep - 1;
    }
  }

  /** The cap on one value. */
  function Clip(s: bytes): bytes {
    if |s| <= MAX_FIELD_BYTES then s
    else s[..BackOff(s, MAX_FIELD_BYTES - MARKER_BYTES)] + Marker()
  }

  method TruncateField(s: bytes) returns (v: bytes, truncated: bool)
    ensures v == Clip(s) && |v| <= MAX_FIELD_BYTES
    ensures truncated <==> |s| > MAX_FIELD_BYTES
    ensures truncated <==> v != s
  {
    if |s| <= MAX_FIELD_BYTES {
      return s, false;
    }
    var keep := BackOffLoop(s, MAX_FIELD_BYTES - |Marker()|);
    return s[..keep] + Marker(), true;
  }

  /** Half of a value, with the marker in place of the rest. */
  function Halved(v: bytes): bytes
    requires v != []
  {
    v[..BackOff(v, |v| / 2)] + Marker()
  }

  /** Halving makes it shorter. */
  predicate Pays(v: bytes) {
    |v| > MARKER_BYTES && BackOff(v, |v| / 2) + MARKER_BYTES < |v|
  }

  /** Only short values resist halving. */
  lemma ResistsOnlyShort(v: bytes)
    requires !Pays(v)
    ensures |v| <= 2 * MARKER_BYTES && EncodedLen(v) <= 60
  {
    UnitsAtMostBytes(v);
  }

  /** In valid text a rune starts at most three bytes back. */
  lemma {:induction false} StartNear(b: bytes, n: nat) returns (i: nat)
    requires Valid(b) && n < |b|
    ensures i <= n <= i + 3 && RuneStart(b[i])
    decreases |b|
  {
    var k := DecodeRune(b).size;
    if n < k {
      i := 0;
    } else {
      i := StartNear(b[k..], n - k);
      i := i + k;
    }
  }

  /** So a cut of valid text loses no more than it must: a capped value has at least 8189 bytes of the
      8192 it may have, and a halved one keeps its first half less at most three bytes. */
  lemma CutsKeepMost(s: bytes)
    requires Valid(s) && s != []
    ensures |s| > MAX_FIELD_BYTES ==> MAX_FIELD_BYTES - 3 <= |Clip(s)| <= MAX_FIELD_BYTES
    ensures |s| / 2 + MARKER_BYTES - 3 <= |Halved(s)| <= |s| / 2 + MARKER_BYTES
  {
    var i := StartNear(s, |s| / 2);
    if |s| > MAX_FIELD_BYTES {
      var j := StartNear(s, MAX_FIELD_BYTES - MARKER_BYTES);
    }
  }

  // ----- what a value may become

  /** `v` is the first `n` bytes of `orig`, ending between runes, and one marker; it is shorter. */
  predicate CutAt(orig: bytes, v: bytes, n: nat) {
    n + MARKER_BYTES < |orig| && (n == 0 || RuneStart(orig[n])) && v == orig[..n] + Marker()
  }

  ghost predicate Shape(orig: bytes, v: bytes) { v == orig || exists n: nat :: CutAt(orig, v, n) }

  lemma ClipShape(s: bytes)
    ensures Shape(s, Clip(s))
  {
    if |s| > MAX_FIELD_BYTES {
      assert CutAt(s, Clip(s), BackOff(s, MAX_FIELD_BYTES - MARKER_BYTES));
    }
  }

  /** A second cut falls before the first one's marker, so no part of that marker is left. */
  lemma HalvedShape(orig: bytes, v: bytes)
    requires Shape(orig, v) && Pays(v)
    ensures Shape(orig, Halved(v)) && Halved(v) != orig
  {
    var keep := BackOff(v, |v| / 2);
    if v != orig {
      var n: nat :| CutAt(orig, v, n);
      assert keep < n;
      assert v[..keep] == orig[..keep];
      assert v[keep] == orig[keep];
    }
    assert CutAt(orig, Halved(v), keep);
  }

  lemma MarkerValid()
    ensures Valid(Marker())
  {
    EllipsisValid();
    AsciiValid(Ascii("[truncated]"));
    ValidAppend(Ellipsis(), Ascii("[truncated]"));
  }

  lemma EllipsisValid()
    ensures Valid(Ellipsis())
  {
    assert Ellipsis()[3..] == [];
  }

  /** No rune of a valid value is split. */
  lemma ShapeKeepsValid(orig: bytes, v: bytes)
    requires Shape(orig, v) && Valid(orig)
    ensures Valid(v)
  {
    if v != orig {
      var n: nat :| CutAt(orig, v, n);
      MarkerValid();
      if n > 0 {
        CutAtRuneStart(orig, n);
      }
      ValidAppend(orig[..n], Marker());
    }
  }

  // ----- the budget pass, for any order of iteration

  type Fields<!K> = map<K, bytes>

  ghost predicate Longest<K(!new)>(m: Fields<K>, k: K) {
    k in m && forall j :: j in m ==> |m[j]| <= |m[k]|
  }

  /** One turn of the loop: some longest value is halved. */
  ghost predicate Turn<K(!new)>(m: Fields<K>, next: Fields<K>) {
    Sum(m, EncodedLen) > MAX_ENCODED_FIELDS_BYTES &&
    exists k :: Longest(m, k) && Pays(m[k]) && next == m[k := Halved(m[k])]
  }

  /** The loop may end here: the set fits, or the longest value it found resists. */
  ghost predicate Stops<K(!new)>(m: Fields<K>) {
    Sum(m, EncodedLen) <= MAX_ENCODED_FIELDS_BYTES || exists k :: Longest(m, k) && !Pays(m[k])
  }

  /** The maps the loop goes through, whichever longest value it picks each time. */
  ghost predicate Turns<K(!new)>(run: seq<Fields<K>>) {
    run != [] && forall i :: 0 <= i < |run| - 1 ==> Turn(run[i], run[i + 1])
  }

  // ----- properties of every run

  /** Every turn takes bytes away. */
  lemma TurnShortens<K(!new)>(m: Fields<K>, next: Fields<K>)
    requires Turn(m, next)
    ensures Sum(next, ByteLen) < Sum(m, ByteLen) && next.Keys == m.Keys
  {
    var k :| Longest(m, k) && Pays(m[k]) && next == m[k := Halved(m[k])];
    SumUpdate(m, ByteLen, k, Halved(m[k]));
  }

  /** So no run is longer than the bytes it starts with. */
  lemma {:induction false} RunsEnd<K(!new)>(run: seq<Fields<K>>)
    requires Turns(run)
    ensures |run| <= 1 + Sum(run[0], ByteLen)
    decreases |run|
  {
    if |run| > 1 {
      TurnShortens(run[0], run[1]);
      RunsEnd(run[1..]);
    }
  }

  lemma {:induction false} RepeatEncoded(n: nat)
    ensures var rs: seq<rune> := seq(n, _ => 0x2026);
      |Encode(rs)| == 3 * n && |Units(rs)| == n && (forall i :: 0 <= i < n ==> Encode(rs)[3 * i] == 0xE2)
  {
    var rs: seq<rune> := seq(n, _ => 0x2026);
    if n > 0 {
      var tail: seq<rune> := seq(n - 1, _ => 0x2026);
      assert rs[1..] == tail;
      RepeatEncoded(n - 1);
      forall i | 0 <= i < n ensures Encode(rs)[3 * i] == 0xE2 {
        if i > 0 {
          assert Encode(rs)[3 * i] == Encode(tail)[3 * (i - 1)];
        }
      }
    }
  }

  lemma MarkerUnits()
    ensures Encode(Runes(Marker())) == Marker() && |Units(Runes(Marker()))| == 12
  {
    MarkerValid();
    EncodeOfRunes(Marker());
    var tail := Ascii("[truncated]");
    AsciiValid(tail);
    assert Marker()[3..] == tail;
    assert Runes(Marker())[1..] == Runes(tail);
    assert Runes(Marker())[0] == 0x2026;
  }

  /** With at most 1015 entries the pass always ends inside the budget. */
  lemma EndsInBudget<K(!new)>(m: Fields<K>)
    requires Stops(m) && |m| <= 1015
    ensures Sum(m, EncodedLen) <= MAX_ENCODED_FIELDS_BYTES
  {
    if Sum(m, EncodedLen) > MAX_ENCODED_FIELDS_BYTES {
      var k :| Longest(m, k) && !Pays(m[k]);
      ResistsOnlyShort(m[k]);
      forall j | j in m ensures EncodedLen(m[j]) <= 60 {
        UnitsAtMostBytes(m[j]);
      }
      SumBound(m, EncodedLen, 60);
    }
  }

  /** `n` entries with the same value. */
  function Uniform(n: nat, v: bytes): (m: Fields<nat>)
    ensures |m| == n && forall i :: i in m <==> 0 <= i < n
    ensures forall i :: i in m ==> m[i] == v
  {
    if n == 0 then map[]
    else
      var rest := Uniform(n - 1, v);
      assert rest[n - 1 := v].Keys == rest.Keys + {n - 1};
      rest[n - 1 := v]
  }

  /** The bound is exact: for every larger count some map stops the pass at once, over budget. */
  lemma MoreEntriesMayNot(n: nat)
    requires n > 1015
    ensures exists m: Fields<nat> :: |m| == n && Stops(m) && Sum(m, EncodedLen) > MAX_ENCODED_FIELDS_BYTES
  {
    var v: bytes := seq(28, _ => 97);
    var m := Uniform(n, v);
    AsciiValid(v);
    SumConstant(m, EncodedLen, 60);
    assert RuneStart(v[14]) && BackOff(v, 14) == 14;
    assert Longest(m, 0) && !Pays(m[0]);
  }

  /** A value so small that `count` of its size fit together. */
  predicate Spared(count: nat, v: bytes) { count * (4 + 2 * |v|) <= MAX_ENCODED_FIELDS_BYTES }

  lemma LongestIsNotSpared<K(!new)>(m: Fields<K>, k: K)
    requires Longest(m, k) && Sum(m, EncodedLen) > MAX_ENCODED_FIELDS_BYTES
    ensures !Spared(|m|, m[k])
  {
    var bound := 4 + 2 * |m[k]|;
    forall i | i in m ensures EncodedLen(m[i]) <= bound {
      UnitsAtMostBytes(m[i]);
    }
    SumBound(m, EncodedLen, bound);
    assert |m| * bound > MAX_ENCODED_FIELDS_BYTES;
  }

  /** Such a value is never the one that is halved. */
  lemma SmallNotCut<K(!new)>(m: Fields<K>, next: Fields<K>, k: K)
    requires Turn(m, next) && k in m && Spared(|m|, m[k])
    ensures next[k] == m[k]
  {
    var j :| Longest(m, j) && Pays(m[j]) && next == m[j := Halved(m[j])];
    LongestIsNotSpared(m, j);
  }

  /** What a run leaves of each value. */
  ghost predicate Keeps<K(!new)>(first: Fields<K>, last: Fields<K>) {
    && last.Keys == first.Keys
    && (forall k :: k in first ==> Shape(first[k], last[k]))
    && (forall k :: k in first && Spared(|first|, first[k]) ==> last[k] == first[k])
  }

  lemma TurnKeeps<K(!new)>(first: Fields<K>, m: Fields<K>, next: Fields<K>)
    requires Keeps(first, m) && Turn(m, next)
    ensures Keeps(first, next)
    ensures next != first
  {
    var k :| Longest(m, k) && Pays(m[k]) && next == m[k := Halved(m[k])];
    assert |m| == |first| by {
      assert |m.Keys| == |first.Keys|;
    }
    HalvedShape(first[k], m[k]);
    LongestIsNotSpared(m, k);
    assert next[k] != first[k];
  }

  /** Every run leaves every value whole or cut once, spares the small ones, and changes the map if it
      takes a turn at all. */
  lemma {:induction false} RunKeeps<K(!new)>(run: seq<Fields<K>>)
    requires Turns(run)
    ensures Keeps(run[0], run[|run| - 1])
    ensures |run| > 1 ==> run[|run| - 1] != run[0]
    decreases |run|
  {
    if |run| > 1 {
      var front := run[..|run| - 1];
      RunKeeps(front);
      TurnKeeps(run[0], run[|run| - 2], run[|run| - 1]);
    }
  }
}
