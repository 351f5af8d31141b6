/** Trimming and searching byte slices, as Go's package bytes does. */
module ByteSlices {
  import opened Prelude
  import opened Utf8

  /** '<' and '>'. */
  const LT: byte := 60
  const GT: byte := 62

  /** unicode.IsSpace. */
  predicate IsSpace(r: rune) {
    r == 9 || r == 10 || r == 11 || r == 12 || r == 13 || r == 32 || r == 0x85 || r == 0xA0 || r == 0x1680
    || 0x2000 <= r <= 0x200A || r == 0x2028 || r == 0x2029 || r == 0x202F || r == 0x205F || r == 0x3000
  }

  function TrimLeft(b: bytes): (t: bytes)
    ensures |t| <= |b| && t == b[|b| - |t|..]
    ensures t != [] ==> !IsSpace(DecodeRune(t).r)
  {
    if b != [] && IsSpace(DecodeRune(b).r) then TrimLeft(b[DecodeRune(b).size..]) else b
  }

  /** How many bytes before the end of `b` utf8.DecodeLastRune starts reading: back over at most three
      continuation bytes, to a byte that can begin a rune or as far as that goes. */
  function BackUp(b: bytes, n: nat): (m: nat)
    requires 1 <= n <= |b| && n <= 4
    ensures n <= m <= |b| && m <= 4
    decreases 4 - n
  {
    if RuneStart(b[|b| - n]) || n == 4 || n == |b| then n else BackUp(b, n + 1)
  }

  /** utf8.DecodeLastRune. */
  function DecodeLastRune(b: bytes): (d: Decoded)
    requires b != []
    ensures 1 <= d.size <= |b|
  {
    var n := BackUp(b, 1);
    var d := DecodeRune(b[|b| - n..]);
    if d.size == n then d else Decoded(RUNE_ERROR, 1, false)
  }

  function TrimRight(b: bytes): (t: bytes)
    ensures |t| <= |b| && t == b[..|t|]
    ensures t != [] ==> !IsSpace(DecodeLastRune(t).r)
  {
    if b != [] && IsSpace(DecodeLastRune(b).r) then TrimRight(b[..|b| - DecodeLastRune(b).size]) else b
  }

  /** bytes.TrimSpace. */
  function TrimSpace(b: bytes): bytes { TrimRight(TrimLeft(b)) }

  predicate OccursAt(b: bytes, p: bytes, k: nat) { k + |p| <= |b| && b[k..k + |p|] == p }

  /** bytes.Index: where `p` first occurs. */
  function Index(b: bytes, p: bytes): (i: Option<nat>)
    ensures i.Some? ==> OccursAt(b, p, i.value) && forall k :: 0 <= k < i.value ==> !OccursAt(b, p, k)
    ensures i.None? ==> forall k: nat :: !OccursAt(b, p, k)
  {
    IndexFrom(b, p, 0)
  }

  function IndexFrom(b: bytes, p: bytes, at: nat): (i: Option<nat>)
    requires at <= |b|
    ensures i.Some? ==> at <= i.value && OccursAt(b, p, i.value) && forall k :: at <= k < i.value ==> !OccursAt(b, p, k)
    ensures i.None? ==> forall k: nat :: at <= k ==> !OccursAt(b, p, k)
    decreases |b| - at
  {
    if OccursAt(b, p, at) then Some(at)
    else if at == |b| then None
    else IndexFrom(b, p, at + 1)
  }

  // ----- splitting at a byte

  /** How many bytes come before the first `c`. */
  function RunTo(b: bytes, c: byte): (n: nat)
    ensures n <= |b| && (forall i :: 0 <= i < n ==> b[i] != c) && (n < |b| ==> b[n] == c)
  {
    if b == [] || b[0] == c then 0 else 1 + RunTo(b[1..], c)
  }

  /** The first `c` comes where it was put. */
  lemma RunToIs(a: bytes, c: byte, rest: bytes)
    requires c !in a && (rest == [] || rest[0] == c)
    ensures RunTo(a + rest, c) == |a|
  {
    var n := RunTo(a + rest, c);
    assert forall i :: 0 <= i < |a| ==> (a + rest)[i] == a[i];
    if rest != [] {
      assert (a + rest)[|a|] == c;
    }
  }
}
