/** Go's view of text: a string is bytes, its runes are what decoding them as UTF-8 (section 3 of
    RFC 3629) yields, with U+FFFD in place of each byte that starts no well-formed sequence. */
module Utf8 {
  import opened Prelude

  const RUNE_ERROR := 0xFFFD

  /** A Unicode scalar value. */
  type rune = r: int | 0 <= r <= 0x10FFFF && !(0xD800 <= r <= 0xDFFF)

  predicate Continuation(c: byte) { 0x80 <= c <= 0xBF }

  /** A byte that can begin a rune, as utf8.RuneStart. */
  predicate RuneStart(c: byte) { !Continuation(c) }

  /** The six-bit groups of a number. */
  lemma SixBits(r: int)
    requires 0 <= r <= 0x10FFFF
    ensures r == r / 64 * 64 + r % 64
    ensures r == r / 4096 * 4096 + r / 64 % 64 * 64 + r % 64
    ensures r == r / 262144 * 262144 + r / 4096 % 64 * 4096 + r / 64 % 64 * 64 + r % 64
    ensures 0 <= r / 262144 <= 4 && (r <= 0xFFFF ==> r / 4096 <= 15) && (r <= 0x7FF ==> r / 64 <= 31)
  {
    assert r / 64 / 64 == r / 4096 && r / 4096 / 64 == r / 262144;
  }

  /** The number a byte carries beside its marker bits. */
  function Bits(c: byte, marker: int): int { (c as int) - marker }

  /** utf8.AppendRune onto an empty slice. */
  function EncodeRune(r: rune): (b: bytes)
    ensures 1 <= |b| <= 4
  {
    SixBits(r);
    if r <= 0x7F then [r as byte]
    else if r <= 0x7FF then [0xC0 + r / 64, 0x80 + r % 64]
    else if r <= 0xFFFF then [0xE0 + r / 4096, 0x80 + r / 64 % 64, 0x80 + r % 64]
    else [0xF0 + r / 262144, 0x80 + r / 4096 % 64, 0x80 + r / 64 % 64, 0x80 + r % 64]
  }

  /** One rune and the bytes it took. */
  datatype Decoded = Decoded(r: rune, size: nat, ok: bool)

  /** The second byte the first one allows. */
  predicate SecondOk(first: byte, second: byte) {
    if first == 0xE0 then 0xA0 <= second <= 0xBF
    else if first == 0xED then 0x80 <= second <= 0x9F
    else if first == 0xF0 then 0x90 <= second <= 0xBF
    else if first == 0xF4 then 0x80 <= second <= 0x8F
    else Continuation(second)
  }

  /** Length of the sequence the first byte announces, 0 for a byte that announces none. */
  function Announced(first: byte): nat {
    if first < 0x80 then 1
    else if 0xC2 <= first <= 0xDF then 2
    else if 0xE0 <= first <= 0xEF then 3
    else if 0xF0 <= first <= 0xF4 then 4
    else 0
  }

  /** A well-formed sequence stands at the front of `b`. */
  predicate WellFormedAt(b: bytes)
    requires b != []
  {
    var n := Announced(b[0]);
    1 <= n <= |b|
    && (n >= 2 ==> SecondOk(b[0], b[1]))
    && (n >= 3 ==> Continuation(b[2]))
    && (n >= 4 ==> Continuation(b[3]))
  }

  /** utf8.DecodeRune. */
  function DecodeRune(b: bytes): (d: Decoded)
    requires b != []
    ensures 1 <= d.size <= 4 && d.size <= |b|
    ensures d.ok <==> WellFormedAt(b)
    ensures !d.ok ==> d.r == RUNE_ERROR && d.size == 1
    ensures d.ok ==> d.size == Announced(b[0])
  {
    if !WellFormedAt(b) then Decoded(RUNE_ERROR, 1, false)
    else if b[0] < 0x80 then Decoded(b[0], 1, true)
    else if b[0] <= 0xDF then Decoded(Bits(b[0], 0xC0) * 64 + Bits(b[1], 0x80), 2, true)
    else if b[0] <= 0xEF then Decoded(Bits(b[0], 0xE0) * 4096 + Bits(b[1], 0x80) * 64 + Bits(b[2], 0x80), 3, true)
    else Decoded(Bits(b[0], 0xF0) * 262144 + Bits(b[1], 0x80) * 4096 + Bits(b[2], 0x80) * 64 + Bits(b[3], 0x80), 4, true)
  }

  /** Decoding undoes encoding, whatever follows. */
  lemma DecodeEncode(r: rune, tail: bytes)
    ensures DecodeRune(EncodeRune(r) + tail) == Decoded(r, |EncodeRune(r)|, true)
  {
    var b := EncodeRune(r) + tail;
    SixBits(r);
    if r <= 0x7F {
    } else if r <= 0x7FF {
      assert b[0] == 0xC0 + r / 64 && b[1] == 0x80 + r % 64;
    } else if r <= 0xFFFF {
      assert b[0] == 0xE0 + r / 4096 && b[1] == 0x80 + r / 64 % 64 && b[2] == 0x80 + r % 64;
    } else {
      assert b[0] == 0xF0 + r / 262144 && b[1] == 0x80 + r / 4096 % 64 && b[2] == 0x80 + r / 64 % 64 && b[3] == 0x80 + r % 64;
    }
  }

  /** Putting six-bit groups together and taking them apart again. */
  lemma Join(a: nat, b: nat, c: nat, d: nat)
    requires b < 64 && c < 64 && d < 64
    ensures var v := a * 262144 + b * 4096 + c * 64 + d;
      v % 64 == d && v / 64 % 64 == c && v / 4096 % 64 == b && v / 262144 == a
      && v / 64 == a * 4096 + b * 64 + c && v / 4096 == a * 64 + b
  {
    var v := a * 262144 + b * 4096 + c * 64 + d;
    assert v == (a * 4096 + b * 64 + c) * 64 + d;
    assert v / 64 == a * 4096 + b * 64 + c;
    assert v / 64 / 64 == a * 64 + b && v / 64 / 64 == v / 4096;
    assert v / 4096 / 64 == a && v / 4096 / 64 == v / 262144;
  }

  /** Encoding undoes decoding of a well-formed sequence. */
  lemma EncodeDecode(b: bytes)
    requires b != [] && WellFormedAt(b)
    ensures EncodeRune(DecodeRune(b).r) == b[..DecodeRune(b).size]
  {
    if b[0] < 0x80 {
    } else if b[0] <= 0xDF {
      Join(0, 0, Bits(b[0], 0xC0), Bits(b[1], 0x80));
    } else if b[0] <= 0xEF {
      Join(0, Bits(b[0], 0xE0), Bits(b[1], 0x80), Bits(b[2], 0x80));
    } else {
      Join(Bits(b[0], 0xF0), Bits(b[1], 0x80), Bits(b[2], 0x80), Bits(b[3], 0x80));
    }
  }

  /** `[]rune(string(b))`. */
  function Runes(b: bytes): (rs: seq<rune>)
    ensures |rs| <= |b|
  {
    if b == [] then [] else [DecodeRune(b).r] + Runes(b[DecodeRune(b).size..])
  }

  /** The bytes of a sequence of runes. */
  function Encode(rs: seq<rune>): bytes {
    if rs == [] then [] else EncodeRune(rs[0]) + Encode(rs[1..])
  }

  /** utf8.Valid. */
  predicate Valid(b: bytes) {
    b == [] || (WellFormedAt(b) && Valid(b[DecodeRune(b).size..]))
  }

  /** Text that was encoded reads back as it was, and is valid. */
  lemma {:induction false} RunesOfEncode(rs: seq<rune>)
    ensures Runes(Encode(rs)) == rs && Valid(Encode(rs))
  {
    if rs != [] {
      var head, tail := EncodeRune(rs[0]), Encode(rs[1..]);
      DecodeEncode(rs[0], tail);
      assert (head + tail)[|head|..] == tail;
      RunesOfEncode(rs[1..]);
    }
  }

  /** Bytes are valid UTF-8 exactly when encoding their runes gives them back. */
  lemma {:induction false} ValidIffEncoded(b: bytes)
    ensures Valid(b) <==> Encode(Runes(b)) == b
  {
    if Valid(b) {
      EncodeOfRunes(b);
    }
    if Encode(Runes(b)) == b {
      RunesOfEncode(Runes(b));
    }
  }

  lemma EncodeCons(r: rune, rs: seq<rune>)
    ensures Encode([r] + rs) == EncodeRune(r) + Encode(rs)
  {
    assert ([r] + rs)[1..] == rs;
  }

  lemma Rejoined(b: bytes, n: nat)
    requires n <= |b|
    ensures b[..n] + b[n..] == b
  {}

  lemma FrontOfRunes(b: bytes)
    requires b != [] && WellFormedAt(b)
    ensures var n := DecodeRune(b).size; Encode(Runes(b)) == b[..n] + Encode(Runes(b[n..]))
  {
    EncodeDecode(b);
    EncodeCons(DecodeRune(b).r, Runes(b[DecodeRune(b).size..]));
  }

  lemma {:induction false} EncodeOfRunes(b: bytes)
    requires Valid(b)
    ensures Encode(Runes(b)) == b
  {
    if b != [] {
      var n := DecodeRune(b).size;
      EncodeOfRunes(b[n..]);
      FrontOfRunes(b);
      Rejoined(b, n);
    }
  }

  lemma {:induction false} EncodeAppend(rs: seq<rune>, ts: seq<rune>)
    ensures Encode(rs + ts) == Encode(rs) + Encode(ts)
  {
    if rs == [] {
      assert rs + ts == ts;
    } else {
      assert (rs + ts)[1..] == rs[1..] + ts;
      EncodeAppend(rs[1..], ts);
    }
  }

  /** Decoding looks no further than the sequence it accepts. */
  lemma DecodeLocal(b: bytes, n: nat)
    requires b != [] && DecodeRune(b).ok && DecodeRune(b).size <= n <= |b|
    ensures b[..n] != [] && DecodeRune(b[..n]) == DecodeRune(b)
  {
    assert forall i :: 0 <= i < n ==> b[..n][i] == b[i];
  }

  /** Decoding does not look across a place where a rune starts. */
  lemma FrontAlone(a: bytes, b: bytes)
    requires a != [] && (b == [] || RuneStart(b[0]))
    ensures DecodeRune(a + b) == DecodeRune(a)
  {
    var k := DecodeRune(a + b).size;
    assert (a + b)[..|a|] == a;
    assert b != [] ==> (a + b)[|a|] == b[0];
    assert k <= |a|;
    if DecodeRune(a + b).ok {
      DecodeLocal(a + b, |a|);
    } else {
      assert !WellFormedAt(a);
    }
  }

  /** Cutting valid text where a rune starts leaves valid text. */
  lemma {:induction false} CutAtRuneStart(b: bytes, n: nat)
    requires Valid(b) && n < |b| && RuneStart(b[n])
    ensures Valid(b[..n])
    decreases |b|
  {
    if n > 0 {
      var k := DecodeRune(b).size;
      assert n >= k;  // the bytes inside a rune are continuation bytes
      DecodeLocal(b, n);
      assert b[k..][n - k] == b[n] || n == k;
      if n == k {
        assert b[..n][k..] == [];
      } else {
        CutAtRuneStart(b[k..], n - k);
        assert b[..n][k..] == b[k..][..n - k];
      }
    }
  }

  /** And so does dropping what comes before it. */
  lemma {:induction false} DropAtRuneStart(b: bytes, n: nat)
    requires Valid(b) && n <= |b| && (n < |b| ==> RuneStart(b[n]))
    ensures Valid(b[n..])
    decreases |b|
  {
    if 0 < n < |b| {
      var k := DecodeRune(b).size;
      assert n >= k;  // the bytes inside a rune are continuation bytes
      assert b[k..][n - k..] == b[n..];
      DropAtRuneStart(b[k..], n - k);
    } else {
      assert b[0..] == b && b[|b|..] == [];
    }
  }

  /** The first rune of valid text by itself. */
  lemma FirstRuneValid(b: bytes)
    requires b != [] && WellFormedAt(b)
    ensures Valid(b[..DecodeRune(b).size])
    ensures DecodeRune(b).size == 1 ==> b[0] < 0x80
    ensures DecodeRune(b).size > 1 ==> forall i :: 0 <= i < DecodeRune(b).size ==> b[i] >= 0x80
  {
    var n := DecodeRune(b).size;
    DecodeLocal(b, n);
    assert b[..n][n..] == [];
  }

  /** Valid text followed by valid text is valid. */
  lemma {:induction false} ValidAppend(a: bytes, b: bytes)
    requires Valid(a) && Valid(b)
    ensures Valid(a + b)
  {
    EncodeOfRunes(a);
    EncodeOfRunes(b);
    EncodeAppend(Runes(a), Runes(b));
    RunesOfEncode(Runes(a) + Runes(b));
  }

  /** What follows valid text in valid text is valid. */
  lemma {:induction false} ValidRest(a: bytes, b: bytes)
    requires Valid(a) && Valid(a + b)
    ensures Valid(b)
    decreases |a|
  {
    if a == [] {
      assert a + b == b;
    } else {
      var k := DecodeRune(a).size;
      assert DecodeRune(a + b).size == k;
      assert (a + b)[k..] == a[k..] + b;
      ValidRest(a[k..], b);
    }
  }
}
