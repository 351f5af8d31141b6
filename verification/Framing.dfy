/** Message framing on a byte stream: octet counting (section 3.4.1 of RFC 6587) in
    pkg/evtx/writer_syslog.go and NUL termination in pkg/evtx/writer_gelf.go, with a reader for each. */
module Framing {
  import opened Prelude
  import opened ByteSlices

  const SPACE: byte := 32
  const NUL: byte := 0

  // ----- decimal lengths

  /** strconv.AppendInt in base ten. */
  function Decimal(n: nat): (ds: bytes)
    ensures ds != [] && forall i :: 0 <= i < |ds| ==> IsDigit(ds[i])
    ensures ds[0] == 48 <==> n == 0
  {
    if n < 10 then [48 + n] else Decimal(n / 10) + [48 + n % 10]
  }

  predicate IsDigit(c: byte) { 48 <= c <= 57 }

  function ParseDecimal(ds: bytes): nat
    requires forall i :: 0 <= i < |ds| ==> IsDigit(ds[i])
  {
    if ds == [] then 0
    else
      var n := |ds| - 1;
      assert IsDigit(ds[n]);
      10 * ParseDecimal(ds[..n]) + (ds[n] - 48)
  }

  lemma {:induction false} ParseOfDecimal(n: nat)
    ensures ParseDecimal(Decimal(n)) == n
  {
    var ds := Decimal(n);
    if n >= 10 {
      assert ds[..|ds| - 1] == Decimal(n / 10);
      ParseOfDecimal(n / 10);
    } else {
      assert ds[..0] == [];
    }
  }

  /** Base ten, most significant digit first. */
  lemma DecimalExamples()
    ensures Decimal(0) == Ascii("0") && Decimal(9) == Ascii("9") && Decimal(10) == Ascii("10") && Decimal(1205) == Ascii("1205")
  {
    assert Decimal(12) == [49, 50] && Decimal(120) == [49, 50, 48] && Decimal(1205) == [49, 50, 48, 53];
  }

  // ----- octet counting

  /** frameTCP: appends the length, a space and the payload. */
  function FrameTCP(dst: bytes, payload: bytes): bytes { dst + Decimal(|payload|) + [SPACE] + payload }

  /** The stream that carries some payloads one after another. */
  function Frames(ps: seq<bytes>): bytes {
    if ps == [] then [] else FrameTCP([], ps[0]) + Frames(ps[1..])
  }

  lemma {:induction false} FramesSnoc(ps: seq<bytes>, p: bytes)
    ensures Frames(ps + [p]) == FrameTCP(Frames(ps), p)
  {
    if ps == [] {
      assert ps + [p] == [p] && [p][1..] == [];
    } else {
      assert (ps + [p])[1..] == ps[1..] + [p];
      FramesSnoc(ps[1..], p);
    }
  }

  /** How many digits `b` begins with. */
  function DigitRun(b: bytes): (n: nat)
    ensures n <= |b| && (forall i :: 0 <= i < n ==> IsDigit(b[i])) && (n < |b| ==> !IsDigit(b[n]))
  {
    if b == [] || !IsDigit(b[0]) then 0 else 1 + DigitRun(b[1..])
  }

  lemma DigitRunIs(ds: bytes, rest: bytes)
    requires (forall i :: 0 <= i < |ds| ==> IsDigit(ds[i])) && (rest == [] || !IsDigit(rest[0]))
    ensures DigitRun(ds + rest) == |ds|
  {
    var n := DigitRun(ds + rest);
    assert forall i :: 0 <= i < |ds| ==> (ds + rest)[i] == ds[i];
    if rest != [] {
      assert (ds + rest)[|ds|] == rest[0];
    }
  }

  /** The payloads read and the bytes left over. */
  datatype Parsed = Parsed(payloads: seq<bytes>, rest: bytes)

  /** A receiver: as long as a whole frame is there, take it. */
  function ReadFrames(b: bytes): (r: Parsed)
    decreases |b|
  {
    var n := DigitRun(b);
    if n == 0 || n == |b| || b[n] != SPACE then Parsed([], b)
    else
      var size := ParseDecimal(b[..n]);
      if n + 1 + size > |b| then Parsed([], b)
      else
        var more := ReadFrames(b[n + 1 + size..]);
        Parsed([b[n + 1..n + 1 + size]] + more.payloads, more.rest)
  }

  /** The header of a frame at the front of the stream. */
  lemma HeaderAt(p: bytes, b: bytes)
    requires Decimal(|p|) + [SPACE] <= b
    ensures var n := |Decimal(|p|)|;
      DigitRun(b) == n && n < |b| && b[n] == SPACE && ParseDecimal(b[..n]) == |p|
  {
    var ds := Decimal(|p|);
    var rest := b[|ds|..];
    assert b == ds + rest;
    assert rest[0] == (ds + [SPACE])[|ds|];
    DigitRunIs(ds, rest);
    assert b[..|ds|] == ds;
    ParseOfDecimal(|p|);
  }

  lemma ReadOne(p: bytes, rest: bytes)
    ensures ReadFrames(FrameTCP([], p) + rest) == Parsed([p] + ReadFrames(rest).payloads, ReadFrames(rest).rest)
  {
    var b := FrameTCP([], p) + rest;
    var n := |Decimal(|p|)|;
    assert b == (Decimal(|p|) + [SPACE]) + (p + rest);
    HeaderAt(p, b);
    assert b[n + 1..] == p + rest;
    assert b[n + 1..n + 1 + |p|] == p && b[n + 1 + |p|..] == rest;
  }

  /** A receiver gets exactly the payloads, whatever bytes they hold: digits, spaces, line ends. */
  lemma {:induction false} ReadBack(ps: seq<bytes>)
    ensures ReadFrames(Frames(ps)) == Parsed(ps, [])
  {
    if ps != [] {
      ReadOne(ps[0], Frames(ps[1..]));
      ReadBack(ps[1..]);
      assert ps == [ps[0]] + ps[1..];
    }
  }

  lemma NoHeader(ds: bytes, b: bytes)
    requires b <= ds && forall i :: 0 <= i < |ds| ==> IsDigit(ds[i])
    ensures ReadFrames(b) == Parsed([], b)
  {
    DigitRunIs(b, []);
    assert b + [] == b;
  }

  lemma NoBody(p: bytes, b: bytes)
    requires Decimal(|p|) + [SPACE] <= b && |b| < |Decimal(|p|)| + 1 + |p|
    ensures ReadFrames(b) == Parsed([], b)
  {
    HeaderAt(p, b);
  }

  lemma PrefixOfBoth(x: bytes, y: bytes, b: bytes)
    requires b <= x + y
    ensures if |b| <= |x| then b <= x else x <= b
  {
    if |b| <= |x| {
      assert b == (x + y)[..|b|] == x[..|b|];
    } else {
      assert b[..|x|] == (x + y)[..|b|][..|x|] == x;
    }
  }

  lemma FrameParts(p: bytes)
    ensures FrameTCP([], p) == Decimal(|p|) + ([SPACE] + p)
    ensures FrameTCP([], p) == (Decimal(|p|) + [SPACE]) + p
  {
    Regroup(Decimal(|p|), [SPACE], p);
  }

  lemma Regroup(a: bytes, b: bytes, c: bytes)
    ensures [] + a + b + c == a + (b + c) && [] + a + b + c == (a + b) + c
  {}

  /** Nothing is taken from part of a frame. */
  lemma PartOfFrame(p: bytes, b: bytes)
    requires b <= FrameTCP([], p) && |b| < |FrameTCP([], p)|
    ensures ReadFrames(b) == Parsed([], b)
  {
    var ds := Decimal(|p|);
    FrameParts(p);
    if |b| <= |ds| {
      PrefixOfBoth(ds, [SPACE] + p, b);
      NoHeader(ds, b);
    } else {
      PrefixOfBoth(ds + [SPACE], p, b);
      NoBody(p, b);
    }
  }

  /** How many whole frames the first `k` bytes of the stream hold. */
  function Whole(ps: seq<bytes>, k: nat): (j: nat)
    ensures j <= |ps|
  {
    if ps == [] || k < |FrameTCP([], ps[0])| then 0 else 1 + Whole(ps[1..], k - |FrameTCP([], ps[0])|)
  }

  lemma CutInside(f: bytes, rest: bytes, k: nat)
    requires k <= |f| + |rest|
    ensures (f + rest)[..k] == if k < |f| then f[..k] else f + rest[..k - |f|]
  {}

  lemma TakeCons<T>(xs: seq<T>, j: nat)
    requires j < |xs|
    ensures xs[..1 + j] == [xs[0]] + xs[1..][..j]
  {}

  lemma ReadNext(ps: seq<bytes>, rest: bytes, j: nat)
    requires ps != [] && j < |ps| && ReadFrames(rest).payloads == ps[1..][..j]
    ensures ReadFrames(FrameTCP([], ps[0]) + rest).payloads == ps[..1 + j]
  {
    ReadOne(ps[0], rest);
    TakeCons(ps, j);
  }

  /** A stream cut anywhere gives exactly the payloads whose frames are whole. */
  lemma {:induction false} ReadPrefix(ps: seq<bytes>, k: nat)
    requires k <= |Frames(ps)|
    ensures ReadFrames(Frames(ps)[..k]).payloads == ps[..Whole(ps, k)]
  {
    if ps != [] {
      var f := FrameTCP([], ps[0]);
      var rest := Frames(ps[1..]);
      CutInside(f, rest, k);
      if k < |f| {
        PartOfFrame(ps[0], f[..k]);
      } else {
        ReadPrefix(ps[1..], k - |f|);
        ReadNext(ps, rest[..k - |f|], Whole(ps[1..], k - |f|));
      }
    }
  }

  /** The frames follow the grammar of section 3.4.1, whose length begins with a digit other than zero,
      exactly when no payload is empty. */
  predicate InGrammar(ps: seq<bytes>) {
    forall i :: 0 <= i < |ps| ==> FrameTCP([], ps[i])[0] != 48
  }

  lemma GrammarIff(ps: seq<bytes>)
    ensures InGrammar(ps) <==> forall i :: 0 <= i < |ps| ==> ps[i] != []
  {
    forall i | 0 <= i < |ps| ensures FrameTCP([], ps[i])[0] == 48 <==> ps[i] == [] {
      assert FrameTCP([], ps[i])[0] == Decimal(|ps[i]|)[0];
    }
  }

  // ----- NUL termination

  function NulFrames(ps: seq<bytes>): bytes {
    if ps == [] then [] else ps[0] + [NUL] + NulFrames(ps[1..])
  }

  lemma {:induction false} NulFramesSnoc(ps: seq<bytes>, p: bytes)
    ensures NulFrames(ps + [p]) == NulFrames(ps) + p + [NUL]
  {
    if ps == [] {
      assert ps + [p] == [p] && [p][1..] == [];
    } else {
      assert (ps + [p])[1..] == ps[1..] + [p];
      NulFramesSnoc(ps[1..], p);
    }
  }

  /** A receiver: everything up to each NUL. */
  function ReadNul(b: bytes): Parsed
    decreases |b|
  {
    var n := RunTo(b, NUL);
    if n == |b| then Parsed([], b)
    else
      var more := ReadNul(b[n + 1..]);
      Parsed([b[..n]] + more.payloads, more.rest)
  }

  function Nuls(b: bytes): nat { if b == [] then 0 else (if b[0] == NUL then 1 else 0) + Nuls(b[1..]) }

  lemma {:induction false} NulsSplit(a: bytes, b: bytes)
    ensures Nuls(a + b) == Nuls(a) + Nuls(b)
  {
    if a == [] {
      assert a + b == b;
    } else {
      assert (a + b)[1..] == a[1..] + b;
      NulsSplit(a[1..], b);
    }
  }

  lemma {:induction false} NulsIff(b: bytes)
    ensures Nuls(b) == 0 <==> NUL !in b
  {
    if b != [] {
      NulsIff(b[1..]);
      assert b == [b[0]] + b[1..];
    }
  }

  /** As many payloads are read as there are NULs. */
  lemma {:induction false} ReadNulCount(b: bytes)
    ensures |ReadNul(b).payloads| == Nuls(b)
    decreases |b|
  {
    var n := RunTo(b, NUL);
    NulsIff(b[..n]);
    if n == |b| {
      assert b[..n] == b;
    } else {
      assert b == b[..n] + ([NUL] + b[n + 1..]);
      NulsSplit(b[..n], [NUL] + b[n + 1..]);
      assert ([NUL] + b[n + 1..])[1..] == b[n + 1..];
      ReadNulCount(b[n + 1..]);
    }
  }

  lemma {:induction false} NulFramesCount(ps: seq<bytes>)
    ensures Nuls(NulFrames(ps)) == |ps| + Nuls(Flatten(ps))
  {
    if ps != [] {
      NulFramesCount(ps[1..]);
      NulsSplit(ps[0] + [NUL], NulFrames(ps[1..]));
      NulsSplit(ps[0], [NUL]);
      assert [NUL][1..] == [];
      NulsSplit(ps[0], Flatten(ps[1..]));
    }
  }

  lemma {:induction false} ReadNulOf(ps: seq<bytes>)
    requires forall p :: p in ps ==> NUL !in p
    ensures ReadNul(NulFrames(ps)) == Parsed(ps, [])
  {
    if ps != [] {
      var b := NulFrames(ps);
      var tail := [NUL] + NulFrames(ps[1..]);
      assert b == ps[0] + tail;
      RunToIs(ps[0], NUL, tail);
      assert b[..|ps[0]|] == ps[0] && b[|ps[0]| + 1..] == NulFrames(ps[1..]);
      ReadNulOf(ps[1..]);
      assert ps == [ps[0]] + ps[1..];
    }
  }

  lemma {:induction false} SomeNul(ps: seq<bytes>, p: bytes)
    requires p in ps && NUL in p
    ensures NUL in Flatten(ps)
  {
    if ps[0] != p {
      assert p in ps[1..];
      SomeNul(ps[1..], p);
    }
  }

  /** A receiver gets exactly the payloads if and only if none has a NUL in it. */
  lemma ReadNulIff(ps: seq<bytes>)
    ensures ReadNul(NulFrames(ps)) == Parsed(ps, []) <==> forall p :: p in ps ==> NUL !in p
  {
    if forall p :: p in ps ==> NUL !in p {
      ReadNulOf(ps);
    } else {
      var p :| p in ps && NUL in p;
      SomeNul(ps, p);
      NulsIff(Flatten(ps));
      ReadNulCount(NulFrames(ps));
      NulFramesCount(ps);
    }
  }
}
