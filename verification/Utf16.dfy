/** pkg/parser/utf16.go: recognising a UTF-16 payload and transcoding it to and from UTF-8
    (section 2 of RFC 2781, section 3 of RFC 3629). */
module Utf16 {
  import opened Prelude
  import opened Utf8

  /** A 16-bit code unit. */
  type unit = u: int | 0 <= u < 0x10000

  predicate HighSurrogate(u: unit) { 0xD800 <= u <= 0xDBFF }
  predicate LowSurrogate(u: unit) { 0xDC00 <= u <= 0xDFFF }
  predicate Surrogate(u: unit) { 0xD800 <= u <= 0xDFFF }

  // ----- runes and code units

  function UnitsOf(r: rune): (us: seq<unit>)
    ensures 1 <= |us| <= 2
  {
    if r < 0x10000 then [r as unit]
    else [0xD800 + (r - 0x10000) / 1024, 0xDC00 + (r - 0x10000) % 1024]
  }

  /** utf16.Encode. */
  function Units(rs: seq<rune>): seq<unit> {
    if rs == [] then [] else UnitsOf(rs[0]) + Units(rs[1..])
  }

  /** A high surrogate directly followed by a low one. */
  predicate PairAt(us: seq<unit>) { |us| >= 2 && HighSurrogate(us[0]) && LowSurrogate(us[1]) }

  function FirstRune(us: seq<unit>): rune
    requires us != []
  {
    if PairAt(us) then 0x10000 + (us[0] - 0xD800) * 1024 + (us[1] - 0xDC00)
    else if Surrogate(us[0]) then RUNE_ERROR
    else us[0]
  }

  /** utf16.Decode: a surrogate without its partner becomes U+FFFD. */
  function RunesOf(us: seq<unit>): (rs: seq<rune>)
    ensures |rs| <= |us|
  {
    if us == [] then [] else [FirstRune(us)] + RunesOf(us[if PairAt(us) then 2 else 1..])
  }

  /** No surrogate stands alone. */
  predicate WellFormed(us: seq<unit>) {
    us == [] || (PairAt(us) && WellFormed(us[2..])) || (!Surrogate(us[0]) && WellFormed(us[1..]))
  }

  // ----- code units and bytes

  function UnitAt(lo: byte, hi: byte): unit { (lo as int) + 256 * (hi as int) }

  /** The code units of an even number of bytes. */
  function ReadUnits(b: bytes, littleEndian: bool): (us: seq<unit>)
    requires |b| % 2 == 0
    ensures |us| == |b| / 2
  {
    if b == [] then []
    else [if littleEndian then UnitAt(b[0], b[1]) else UnitAt(b[1], b[0])] + ReadUnits(b[2..], littleEndian)
  }

  function WriteUnits(us: seq<unit>, littleEndian: bool): (b: bytes)
    ensures |b| == 2 * |us|
  {
    if us == [] then []
    else (if littleEndian then [us[0] % 256, us[0] / 256] else [us[0] / 256, us[0] % 256]) + WriteUnits(us[1..], littleEndian)
  }

  // ----- the program's functions

  /** decodeUTF16Pairs: an odd trailing byte is an error. */
  function DecodePairs(b: bytes, littleEndian: bool): Option<bytes> {
    if |b| % 2 != 0 then None else Some(Encode(RunesOf(ReadUnits(b, littleEndian))))
  }

  predicate BomLE(b: bytes) { |b| >= 2 && b[0] == 0xFF && b[1] == 0xFE }
  predicate BomBE(b: bytes) { |b| >= 2 && b[0] == 0xFE && b[1] == 0xFF }
  predicate BareLE(b: bytes) { |b| >= 2 && b[0] != 0 && b[1] == 0 }
  predicate BareBE(b: bytes) { |b| >= 2 && b[0] == 0 && b[1] != 0 }

  function DecodeBody(body: bytes): Option<bytes> {
    if BomLE(body) then DecodePairs(body[2..], true)
    else if BomBE(body) then DecodePairs(body[2..], false)
    else if BareLE(body) then DecodePairs(body, true)
    else if BareBE(body) then DecodePairs(body, false)
    else Some(body)
  }

  predicate IsUTF16(body: bytes) { BomLE(body) || BomBE(body) || BareLE(body) || BareBE(body) }

  function EncodeUTF16LE(b: bytes): bytes { WriteUnits(Units(Runes(b)), true) }

  // ----- the same, as the loops that fill the buffers

  lemma ReadUnitsSnoc(b: bytes, lo: byte, hi: byte, littleEndian: bool)
    requires |b| % 2 == 0
    ensures ReadUnits(b + [lo, hi], littleEndian)
         == ReadUnits(b, littleEndian) + [if littleEndian then UnitAt(lo, hi) else UnitAt(hi, lo)]
  {
    if b == [] {
      assert [] + [lo, hi] == [lo, hi] && [lo, hi][2..] == [];
    } else {
      assert (b + [lo, hi])[2..] == b[2..] + [lo, hi];
      ReadUnitsSnoc(b[2..], lo, hi, littleEndian);
    }
  }

  /** decodeUTF16Pairs as written: one loop collects the units, another appends the runes. */
  method DecodeUTF16Pairs(b: bytes, littleEndian: bool) returns (r: Option<bytes>)
    ensures r == DecodePairs(b, littleEndian)
  {
    if |b| % 2 != 0 {
      return None;
    }
    var units: seq<unit> := [];
    var i := 0;
    while i + 1 < |b|
      invariant 0 <= i <= |b| && i % 2 == 0
      invariant units == ReadUnits(b[..i], littleEndian)
    {
      assert b[..i + 2] == b[..i] + [b[i], b[i + 1]];
      ReadUnitsSnoc(b[..i], b[i], b[i + 1], littleEndian);
      units := units + [if littleEndian then UnitAt(b[i], b[i + 1]) else UnitAt(b[i + 1], b[i])];
      i := i + 2;
    }
    assert b[..i] == b;
    var runes := RunesOf(units);
    var out: bytes := [];
    for k := 0 to |runes|
      invariant out == Encode(runes[..k])
    {
      assert runes[..k + 1] == runes[..k] + [runes[k]];
      EncodeAppend(runes[..k], [runes[k]]);
      assert Encode([runes[k]]) == EncodeRune(runes[k]);
      out := out + EncodeRune(runes[k]);
    }
    assert runes[..|runes|] == runes;
    return Some(out);
  }

  lemma {:induction false} WriteUnitsAppend(us: seq<unit>, vs: seq<unit>, littleEndian: bool)
    ensures WriteUnits(us + vs, littleEndian) == WriteUnits(us, littleEndian) + WriteUnits(vs, littleEndian)
  {
    if us == [] {
      assert us + vs == vs;
    } else {
      assert (us + vs)[1..] == us[1..] + vs;
      WriteUnitsAppend(us[1..], vs, littleEndian);
    }
  }

  /** EncodeUTF16LE as written: low byte, then high byte, of each unit. */
  method EncodeToUTF16LE(b: bytes) returns (out: bytes)
    ensures out == EncodeUTF16LE(b)
  {
    var units := Units(Runes(b));
    out := [];
    for k := 0 to |units|
      invariant out == WriteUnits(units[..k], true)
    {
      assert units[..k + 1] == units[..k] + [units[k]];
      WriteUnitsAppend(units[..k], [units[k]], true);
      assert WriteUnits([units[k]], true) == [units[k] % 256, units[k] / 256];
      out := out + [units[k] % 256, units[k] / 256];
    }
    assert units[..|units|] == units;
  }

  // ----- runes and units are inverse to each other

  lemma {:induction false} RunesOfUnits(rs: seq<rune>)
    ensures RunesOf(Units(rs)) == rs && WellFormed(Units(rs))
  {
    if rs != [] {
      RunesOfUnits(rs[1..]);
      var us := Units(rs);
      var n := |UnitsOf(rs[0])|;
      assert us[n..] == Units(rs[1..]);
    }
  }

  lemma {:induction false} UnitsOfRunes(us: seq<unit>)
    requires WellFormed(us)
    ensures Units(RunesOf(us)) == us
  {
    if us != [] {
      var n := if PairAt(us) then 2 else 1;
      UnitsOfRunes(us[n..]);
      assert us == us[..n] + us[n..];
      assert RunesOf(us)[1..] == RunesOf(us[n..]);
      assert UnitsOf(FirstRune(us)) == us[..n];
    }
  }

  /** Decoding then encoding keeps the number of units, replacements included. */
  lemma {:induction false} UnitCountKept(us: seq<unit>)
    ensures |Units(RunesOf(us))| == |us|
  {
    if us != [] {
      UnitCountKept(us[if PairAt(us) then 2 else 1..]);
    }
  }

  lemma {:induction false} ReadWrite(us: seq<unit>, littleEndian: bool)
    ensures ReadUnits(WriteUnits(us, littleEndian), littleEndian) == us
  {
    if us != [] {
      assert WriteUnits(us, littleEndian)[2..] == WriteUnits(us[1..], littleEndian);
      ReadWrite(us[1..], littleEndian);
      assert us == [us[0]] + us[1..];
    }
  }

  lemma {:induction false} WriteRead(b: bytes, littleEndian: bool)
    requires |b| % 2 == 0
    ensures WriteUnits(ReadUnits(b, littleEndian), littleEndian) == b
  {
    if b != [] {
      WriteRead(b[2..], littleEndian);
      assert b == [b[0], b[1]] + b[2..];
      assert ReadUnits(b, littleEndian)[1..] == ReadUnits(b[2..], littleEndian);
    }
  }

  // ----- when decoding fails, and what it yields

  /** DecodeBody fails exactly on a UTF-16 body of odd length; IsUTF16 is the detection it uses. */
  lemma DecodeFailsIff(body: bytes)
    ensures DecodeBody(body).None? <==> IsUTF16(body) && |body| % 2 == 1
    ensures !IsUTF16(body) ==> DecodeBody(body) == Some(body)
  {
    if BomLE(body) || BomBE(body) {
      assert |body[2..]| % 2 == |body| % 2;
    }
  }

  lemma {:induction false} ThreeBytesPerUnit(us: seq<unit>)
    ensures |Encode(RunesOf(us))| <= 3 * |us|
  {
    if us != [] {
      ThreeBytesPerUnit(us[if PairAt(us) then 2 else 1..]);
    }
  }

  /** What a UTF-16 body transcodes to is valid UTF-8 of at most three bytes a unit, whatever surrogates
      the body holds. */
  lemma TranscodedIsValid(body: bytes)
    requires IsUTF16(body) && DecodeBody(body).Some?
    ensures Valid(DecodeBody(body).value)
    ensures |DecodeBody(body).value| <= 3 * (|body| / 2)
  {
    var us := if BomLE(body) then ReadUnits(body[2..], true)
              else if BomBE(body) then ReadUnits(body[2..], false)
              else ReadUnits(body, BareLE(body));
    RunesOfEncode(RunesOf(us));
    ThreeBytesPerUnit(us);
  }

  /** A body with a byte order mark decodes the same in either byte order. */
  lemma ByteOrderIrrelevant(us: seq<unit>)
    ensures DecodeBody([0xFF, 0xFE] + WriteUnits(us, true)) == Some(Encode(RunesOf(us)))
    ensures DecodeBody([0xFE, 0xFF] + WriteUnits(us, false)) == Some(Encode(RunesOf(us)))
  {
    var le, be := WriteUnits(us, true), WriteUnits(us, false);
    assert ([0xFF, 0xFE] + le)[2..] == le && ([0xFE, 0xFF] + be)[2..] == be;
    ReadWrite(us, true);
    ReadWrite(us, false);
  }

  /** Without a mark too, when the first unit is U+0001 to U+00FF: its zero byte tells the order. */
  lemma BareOrderIrrelevant(us: seq<unit>, littleEndian: bool)
    requires us != [] && 1 <= us[0] <= 0xFF
    ensures DecodeBody(WriteUnits(us, littleEndian)) == Some(Encode(RunesOf(us)))
  {
    var w := WriteUnits(us, littleEndian);
    assert if littleEndian then BareLE(w) else BareBE(w);
    ReadWrite(us, littleEndian);
  }

  /** The character outside the basic plane of section 5 of RFC 2781, in both encodings, and the first
      and last characters of each length of UTF-8. */
  lemma KnownCharacters()
    ensures UnitsOf(0x12345) == [0xD808, 0xDF45] && EncodeRune(0x12345) == [0xF0, 0x92, 0x8D, 0x85]
    ensures EncodeRune(0x7F) == [0x7F] && EncodeRune(0x80) == [0xC2, 0x80] && EncodeRune(0x7FF) == [0xDF, 0xBF]
    ensures EncodeRune(0x800) == [0xE0, 0xA0, 0x80] && EncodeRune(0xFFFF) == [0xEF, 0xBF, 0xBF]
    ensures EncodeRune(0x10000) == [0xF0, 0x90, 0x80, 0x80] && EncodeRune(0x10FFFF) == [0xF4, 0x8F, 0xBF, 0xBF]
    ensures UnitsOf(0xFFFF) == [0xFFFF] && UnitsOf(0x10000) == [0xD800, 0xDC00] && UnitsOf(0x10FFFF) == [0xDBFF, 0xDFFF]
  {}

  // ----- decoding what was encoded

  /** The first unit of a text decides its first two bytes on the wire. */
  lemma FirstBytes(rs: seq<rune>)
    requires rs != []
    ensures var w := WriteUnits(Units(rs), true); var u := UnitsOf(rs[0])[0];
      |w| >= 2 && w[0] == u % 256 && w[1] == u / 256
  {}

  lemma EncodeOfText(rs: seq<rune>)
    ensures EncodeUTF16LE(Encode(rs)) == WriteUnits(Units(rs), true)
  {
    RunesOfEncode(rs);
  }

  /** Bytes below 0x80 in UTF-8 text are ASCII runes. */
  lemma {:induction false} NoAsciiByte(rs: seq<rune>, k: nat)
    requires forall i :: 0 <= i < |rs| ==> rs[i] >= 0x80
    requires k < |Encode(rs)|
    ensures Encode(rs)[k] >= 0x80
  {
    var n := |EncodeRune(rs[0])|;
    if k >= n {
      NoAsciiByte(rs[1..], k - n);
    }
  }

  /** Without ASCII, UTF-8 is at least as long as UTF-16, and longer when some rune takes three bytes. */
  lemma {:induction false} NotShorter(rs: seq<rune>)
    requires forall i :: 0 <= i < |rs| ==> rs[i] >= 0x80
    ensures |Encode(rs)| >= 2 * |Units(rs)|
    ensures rs != [] && 0x800 <= rs[0] < 0x10000 ==> |Encode(rs)| > 2 * |Units(rs)|
  {
    if rs != [] {
      NotShorter(rs[1..]);
    }
  }

  lemma {:induction false} UnitsAppend(rs: seq<rune>, ts: seq<rune>)
    ensures Units(rs + ts) == Units(rs) + Units(ts)
  {
    if rs == [] {
      assert rs + ts == ts;
    } else {
      assert (rs + ts)[1..] == rs[1..] + ts;
      UnitsAppend(rs[1..], ts);
    }
  }

  /** How long the run of elements satisfying `p` at the front is. */
  function RunLength(rs: seq<rune>, p: rune -> bool): (n: nat)
    ensures n <= |rs| && (forall i :: 0 <= i < n ==> p(rs[i])) && (n < |rs| ==> !p(rs[n]))
  {
    if rs == [] || !p(rs[0]) then 0 else 1 + RunLength(rs[1..], p)
  }

  /** The UTF-8 and UTF-16LE forms of a text, cut at the same rune. */
  lemma BothForms(rs: seq<rune>, n: nat)
    requires n <= |rs|
    ensures Encode(rs) == Encode(rs[..n]) + Encode(rs[n..])
    ensures WriteUnits(Units(rs), true) == WriteUnits(Units(rs[..n]), true) + WriteUnits(Units(rs[n..]), true)
  {
    assert rs == rs[..n] + rs[n..];
    FormsAppend(rs[..n], rs[n..]);
  }

  lemma FormsAppend(rs: seq<rune>, ts: seq<rune>)
    ensures Encode(rs + ts) == Encode(rs) + Encode(ts)
    ensures WriteUnits(Units(rs + ts), true) == WriteUnits(Units(rs), true) + WriteUnits(Units(ts), true)
  {
    EncodeAppend(rs, ts);
    UnitsAppend(rs, ts);
    WriteUnitsAppend(Units(rs), Units(ts), true);
  }

  function Zeros(k: nat): bytes { seq(k, _ => 0) }

  /** Text never catches up with its own units once it trails them by zero bytes. */
  lemma {:induction false} NeverCatchesUp(us: seq<unit>, k: nat)
    requires k > 0
    ensures Encode(RunesOf(us)) != Zeros(k) + WriteUnits(us, true)
  {
    var e, w := Encode(RunesOf(us)), Zeros(k) + WriteUnits(us, true);
    if us != [] && us[0] == 0 {
      NeverCatchesUp(us[1..], k + 1);
      assert e == [0] + Encode(RunesOf(us[1..]));
      assert WriteUnits(us, true) == [0, 0] + WriteUnits(us[1..], true);
      assert w == [0] + (Zeros(k + 1) + WriteUnits(us[1..], true));
      assert e[1..] == Encode(RunesOf(us[1..])) && w[1..] == Zeros(k + 1) + WriteUnits(us[1..], true);
    } else if us != [] {
      assert FirstRune(us) != 0 && e[0] == EncodeRune(FirstRune(us))[0] != 0;
      assert w[0] == 0;
    } else {
      assert |e| == 0 < |w|;
    }
  }

  lemma AsciiHead(us: seq<unit>)
    requires us != [] && us[0] < 0x80
    ensures Encode(RunesOf(us)) != [] && Encode(RunesOf(us))[1..] == Encode(RunesOf(us[1..]))
  {
    var rs := RunesOf(us);
    assert rs[0] == us[0] && rs[1..] == RunesOf(us[1..]);
    assert |EncodeRune(rs[0])| == 1;
  }

  lemma AsciiTail(us: seq<unit>)
    requires us != [] && us[0] < 0x80
    ensures WriteUnits(us, true) != [] && WriteUnits(us, true)[1..] == Zeros(1) + WriteUnits(us[1..], true)
  {
    var w, rest := WriteUnits(us, true), WriteUnits(us[1..], true);
    assert w == [us[0] % 256, us[0] / 256] + rest;
    assert w[1..] == [0] + rest;
    assert Zeros(1) == [0];
  }

  lemma AsciiFirstDiffers(us: seq<unit>)
    requires us != [] && us[0] < 0x80
    ensures Encode(RunesOf(us)) != WriteUnits(us, true)
  {
    var e, w := Encode(RunesOf(us)), WriteUnits(us, true);
    AsciiHead(us);
    AsciiTail(us);
    NeverCatchesUp(us[1..], 1);
    assert e[1..] != w[1..];
  }

  lemma LatinFirstDiffers(us: seq<unit>)
    requires us != [] && 0x80 <= us[0] <= 0xFF
    ensures Encode(RunesOf(us)) != WriteUnits(us, true)
  {
    assert RunesOf(us)[0] == us[0];
    assert Encode(RunesOf(us))[1] == EncodeRune(us[0])[1] == 0x80 + us[0] % 64;
    assert WriteUnits(us, true)[1] == us[0] / 256;
  }

  /** The text of units whose first is below U+0100 is not the bytes of those units. */
  lemma LowFirstDiffers(us: seq<unit>)
    requires us != [] && us[0] <= 0xFF
    ensures Encode(RunesOf(us)) != WriteUnits(us, true)
  {
    if us[0] < 0x80 {
      AsciiFirstDiffers(us);
    } else {
      LatinFirstDiffers(us);
    }
  }

  /** A text that begins above U+00FF is not its own UTF-16LE form. */
  lemma HighFirstDiffers(rs: seq<rune>)
    requires rs != [] && rs[0] >= 0x100
    ensures Encode(rs) != WriteUnits(Units(rs), true)
  {
    if rs[0] < 0x800 || rs[0] >= 0x10000 {
      FirstBytes(rs);
      assert Encode(rs)[1] == EncodeRune(rs[0])[1];
    } else {
      MiddleFirstDiffers(rs);
    }
  }

  lemma MiddleFirstDiffers(rs: seq<rune>)
    requires rs != [] && 0x800 <= rs[0] < 0x10000
    ensures Encode(rs) != WriteUnits(Units(rs), true)
  {
    var n := RunLength(rs, (r: rune) => r >= 0x80);
    if n < |rs| {
      AsciiAfter(rs, n);
    } else {
      NotShorter(rs);
    }
  }

  lemma AsciiAfter(rs: seq<rune>, n: nat)
    requires 1 <= n < |rs| && rs[n] < 0x80 && 0x800 <= rs[0] < 0x10000
    requires forall i :: 0 <= i < n ==> rs[i] >= 0x80
    ensures Encode(rs) != WriteUnits(Units(rs), true)
  {
    BothForms(rs, n);
    NotShorter(rs[..n]);
    FirstBytes(rs[n..]);
    var k := 2 * |Units(rs[..n])|;
    NoAsciiByte(rs[..n], k);
    DifferAt(Encode(rs[..n]), Encode(rs[n..]), WriteUnits(Units(rs[..n]), true), WriteUnits(Units(rs[n..]), true));
  }

  lemma DifferAt(a: bytes, b: bytes, c: bytes, d: bytes)
    requires |c| < |a| && d != [] && a[|c|] != d[0]
    ensures a + b != c + d
  {
    assert (a + b)[|c|] == a[|c|] && (c + d)[|c|] == d[0];
  }

  /** Equal UTF-8 means equal runes. */
  lemma EncodeInjective(rs: seq<rune>, ts: seq<rune>)
    requires Encode(rs) == Encode(ts)
    ensures rs == ts
  {
    RunesOfEncode(rs);
    RunesOfEncode(ts);
  }

  /** What DecodeBody makes of the wire form of some units, by their first. */
  lemma DecodeOfUnits(us: seq<unit>)
    requires us != []
    ensures var w, first := WriteUnits(us, true), us[0];
      && |w| >= 2 && w[0] == first % 256 && w[1] == first / 256 && w[2..] == WriteUnits(us[1..], true)
      && (1 <= first <= 0xFF ==> DecodeBody(w) == Some(Encode(RunesOf(us))))
      && (first == 0xFEFF ==> DecodeBody(w) == DecodePairs(w[2..], true))
      && (first == 0xFFFE ==> DecodeBody(w) == DecodePairs(w[2..], false))
      && (first > 0xFF && first % 256 == 0 ==> DecodeBody(w) == DecodePairs(w, false))
      && (first == 0 || (first > 0xFF && first % 256 != 0 && first != 0xFEFF && first != 0xFFFE) ==> DecodeBody(w) == Some(w))
  {
    ReadWrite(us, true);
  }

  lemma RoundTripSome(rs: seq<rune>)
    requires rs != [] && 1 <= rs[0] <= 0xFF
    ensures DecodeBody(EncodeUTF16LE(Encode(rs))) == Some(Encode(rs))
  {
    EncodeOfText(rs);
    DecodeOfUnits(Units(rs));
    RunesOfUnits(rs);
  }

  /** Decoding some other number of units than the text has cannot give the text. */
  lemma OtherCountDiffers(us: seq<unit>, rs: seq<rune>)
    requires |us| != |Units(rs)|
    ensures Encode(RunesOf(us)) != Encode(rs)
  {
    UnitCountKept(us);
    if Encode(RunesOf(us)) == Encode(rs) {
      EncodeInjective(RunesOf(us), rs);
    }
  }

  /** Nor can decoding units that begin with another character. */
  lemma OtherFirstDiffers(us: seq<unit>, rs: seq<rune>)
    requires us != [] && rs != [] && FirstRune(us) != rs[0]
    ensures Encode(RunesOf(us)) != Encode(rs)
  {
    if Encode(RunesOf(us)) == Encode(rs) {
      EncodeInjective(RunesOf(us), rs);
    }
  }

  /** A first unit taken for a byte order mark is missing from the decoding. */
  lemma MarkLost(w: bytes, rs: seq<rune>, littleEndian: bool)
    requires |w| == 2 * |Units(rs)| >= 2
    ensures DecodePairs(w[2..], littleEndian) != Some(Encode(rs))
  {
    OtherCountDiffers(ReadUnits(w[2..], littleEndian), rs);
  }

  lemma WireFormLost(rs: seq<rune>, us: seq<unit>)
    requires rs != [] && !(1 <= rs[0] <= 0xFF) && us == Units(rs)
    ensures DecodeBody(WriteUnits(us, true)) != Some(Encode(rs))
  {
    var w, first := WriteUnits(us, true), us[0];
    DecodeOfUnits(us);
    assert first == UnitsOf(rs[0])[0];
    if first == 0xFEFF || first == 0xFFFE {
      MarkLost(w, rs, first == 0xFEFF);
    } else if first > 0xFF && first % 256 == 0 {
      SwappedDiffers(us, rs);
    } else if first == 0 {
      RunesOfUnits(rs);
      LowFirstDiffers(us);
    } else {
      HighFirstDiffers(rs);
    }
  }

  lemma RoundTripNone(rs: seq<rune>)
    requires rs != [] && !(1 <= rs[0] <= 0xFF)
    ensures DecodeBody(EncodeUTF16LE(Encode(rs))) != Some(Encode(rs))
  {
    EncodeOfText(rs);
    WireFormLost(rs, Units(rs));
  }

  lemma SwappedDiffers(us: seq<unit>, rs: seq<rune>)
    requires us != [] && us[0] > 0xFF && us[0] % 256 == 0 && rs != [] && rs[0] > 0xFF
    ensures DecodePairs(WriteUnits(us, true), false) != Some(Encode(rs))
  {
    var vs := ReadUnits(WriteUnits(us, true), false);
    assert vs[0] == us[0] / 256;
    OtherFirstDiffers(vs, rs);
  }

  /** Text sent through EncodeUTF16LE comes back from DecodeBody exactly when it is empty or its first
      character is U+0001 to U+00FF, which every document starting with '<' satisfies. */
  lemma RoundTripIff(rs: seq<rune>)
    ensures DecodeBody(EncodeUTF16LE(Encode(rs))) == Some(Encode(rs)) <==> rs == [] || 1 <= rs[0] <= 0xFF
  {
    if rs == [] {
      assert EncodeUTF16LE(Encode(rs)) == [];
    } else if 1 <= rs[0] <= 0xFF {
      RoundTripSome(rs);
    } else {
      RoundTripNone(rs);
    }
  }

  /** The other way round: a body taken for little-endian without a mark is given back by encoding its
      decoding exactly when no surrogate in it stands alone. */
  lemma ReencodeIff(body: bytes)
    requires BareLE(body) && |body| % 2 == 0
    ensures DecodeBody(body).Some?
    ensures EncodeUTF16LE(DecodeBody(body).value) == body <==> WellFormed(ReadUnits(body, true))
  {
    var us := ReadUnits(body, true);
    var rs := RunesOf(us);
    EncodeOfText(rs);
    WriteRead(body, true);
    if WellFormed(us) {
      UnitsOfRunes(us);
    }
    if EncodeUTF16LE(DecodeBody(body).value) == body {
      ReadWrite(Units(rs), true);
      RunesOfUnits(rs);
    }
  }

  /** ASCII is valid UTF-8 with one unit a byte. */
  lemma {:induction false} AsciiValid(b: bytes)
    requires forall i :: 0 <= i < |b| ==> b[i] < 0x80
    ensures Valid(b) && |Units(Runes(b))| == |b|
  {
    if b != [] {
      AsciiValid(b[1..]);
      assert Runes(b)[1..] == Runes(b[1..]);
    }
  }

  // ----- decoding twice

  /** Valid UTF-8 begins with no byte order mark. */
  lemma NoBomInText(b: bytes)
    requires Valid(b)
    ensures !BomLE(b) && !BomBE(b)
  {}

  /** Text that looks like bare UTF-16 does not survive a second decoding. */
  lemma SecondDecodingChanges(out: bytes)
    requires BareLE(out) || BareBE(out)
    ensures DecodeBody(out) != Some(out)
  {
    if |out| % 2 == 0 {
      if BareLE(out) {
        var us := ReadUnits(out, true);
        assert us[0] == UnitAt(out[0], out[1]);
        WriteRead(out, true);
        LowFirstDiffers(us);
        assert DecodeBody(out) == Some(Encode(RunesOf(us)));
      } else {
        var us := ReadUnits(out, false);
        assert us[0] == out[1] && FirstRune(us) == out[1];
        assert Encode(RunesOf(us))[0] == EncodeRune(FirstRune(us))[0] != 0;
      }
    }
  }

  /** Decoding what was decoded changes nothing exactly when the first two bytes are not one NUL and one
      other: so a document, which starts with '<' and a non-zero byte, may be decoded any number of times. */
  lemma DecodeTwiceIff(body: bytes)
    requires DecodeBody(body).Some?
    ensures var out := DecodeBody(body).value;
      DecodeBody(out) == Some(out) <==> !(BareLE(out) || BareBE(out))
  {
    var out := DecodeBody(body).value;
    if IsUTF16(body) {
      TranscodedIsValid(body);
      NoBomInText(out);
    }
    if BareLE(out) || BareBE(out) {
      SecondDecodingChanges(out);
    }
  }

  /** A body that is transcoded twice with a different result: '<', NUL in UTF-16LE. */
  lemma DecodeTwiceCounterexample()
    ensures DecodeBody([0x3C, 0, 0, 0]) == Some([0x3C, 0])
    ensures DecodeBody([0x3C, 0]) == Some([0x3C])
  {
    var b: bytes := [0x3C, 0, 0, 0];
    assert b[2..] == [0, 0] && b[2..][2..] == [];
    assert ReadUnits(b, true) == [0x3C, 0];
    var us: seq<unit> := [0x3C, 0];
    assert us[1..] == [0] && us[1..][1..] == [];
    assert RunesOf(us) == [0x3C, 0];
    var rs: seq<rune> := [0x3C, 0];
    assert rs[1..] == [0] && rs[1..][1..] == [];
    var c: bytes := [0x3C, 0];
    assert c[2..] == [];
    assert ReadUnits(c, true) == [0x3C];
    var vs: seq<unit> := [0x3C];
    assert vs[1..] == [];
    assert RunesOf(vs) == [0x3C];
  }
}
