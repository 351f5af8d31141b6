/** pkg/parser/classify.go: naming the dialect of a payload by its root element, and its agreement with
    the predicates of pkg/parser/parser.go that decode the body each time. */
module Classify {
  import opened Prelude
  import opened Utf8
  import opened Utf16
  import opened ByteSlices

  // ----- the program's functions

  datatype Dialect = Unknown | RegisterRequest | HeartBeatRequest | CheckFileRequest | CheckEventRequest {
    /** The root element that names the dialect. */
    function Root(): bytes
      requires !Unknown?
    {
      match this
      case RegisterRequest => Ascii("RegisterRequest")
      case HeartBeatRequest => Ascii("HeartBeatRequest")
      case CheckFileRequest => Ascii("CheckFileRequest")
      case CheckEventRequest => Ascii("CheckEventRequest")
    }
  }

  predicate EndsName(c: byte) { c == GT || c == 47 || c == 32 || c == 9 || c == 13 || c == 10 }

  /** The payload from its root element on: surrounding space and an XML declaration skipped. */
  function AtRoot(decoded: bytes): bytes {
    var trimmed := TrimSpace(decoded);
    if Ascii("<?xml") <= trimmed then
      match Index(trimmed, Ascii("?>"))
      case Some(i) => TrimSpace(trimmed[i + |Ascii("?>")|..])
      case None => trimmed
    else trimmed
  }

  predicate RootIs(decoded: bytes, name: bytes) { StartsWithRoot(AtRoot(decoded), name) }

  predicate StartsWithRoot(trimmed: bytes, name: bytes) {
    if !([LT] + name <= trimmed) then false
    else
      var rest := trimmed[1 + |name|..];
      if rest == [] then false
      else if rest[0] == GT then true
      else if EndsName(rest[0]) then GT in rest
      else false
  }

  function ClassifyDecoded(decoded: bytes): Dialect {
    if RootIs(decoded, Dialect.RegisterRequest.Root()) then RegisterRequest
    else if RootIs(decoded, Dialect.HeartBeatRequest.Root()) then HeartBeatRequest
    else if RootIs(decoded, Dialect.CheckFileRequest.Root()) then CheckFileRequest
    else if RootIs(decoded, Dialect.CheckEventRequest.Root()) then CheckEventRequest
    else Unknown
  }

  /** A dialect and the decoded bytes, or nothing when the body cannot be decoded. */
  datatype Classified = Classified(dialect: Dialect, decoded: bytes)

  function Classify(body: bytes): Option<Classified> {
    match DecodeBody(body)
    case None => None
    case Some(decoded) => Some(Classified(ClassifyDecoded(decoded), decoded))
  }

  /** rootElementIs, behind IsRegisterRequest, IsHeartBeatRequest, IsCheckFileRequest and IsCheckEventRequest. */
  predicate RootElementIs(body: bytes, name: bytes) {
    match DecodeBody(body)
    case None => false
    case Some(decoded) => RootIs(decoded, name)
  }

  // ----- one root element, one name

  /** The bytes up to the first that ends a name. */
  function NameRun(b: bytes): (n: nat)
    ensures n <= |b| && (forall i :: 0 <= i < n ==> !EndsName(b[i])) && (n < |b| ==> EndsName(b[n]))
  {
    if b == [] || EndsName(b[0]) then 0 else 1 + NameRun(b[1..])
  }

  /** The name of the root element, when its start tag is there in full. */
  function RootName(decoded: bytes): Option<bytes> { NameAt(AtRoot(decoded)) }

  function NameAt(at: bytes): Option<bytes> {
    if at == [] || at[0] != LT then None
    else
      var n := 1 + NameRun(at[1..]);
      if GT in at[n..] then Some(at[1..n]) else None
  }

  predicate IsName(name: bytes) { forall i :: 0 <= i < |name| ==> !EndsName(name[i]) }

  lemma NameEnds(at: bytes, n: nat)
    requires at != [] && 1 <= n <= |at|
    requires forall i :: 1 <= i < n ==> !EndsName(at[i])
    requires n < |at| ==> EndsName(at[n])
    ensures NameRun(at[1..]) == n - 1
  {
    var m := 1 + NameRun(at[1..]);
    assert forall i :: 1 <= i < m ==> !EndsName(at[i]) by {
      assert forall i :: 1 <= i < m ==> at[i] == at[1..][i - 1];
    }
    assert m < |at| ==> EndsName(at[m]);
  }

  lemma StartsOnlyIf(at: bytes, name: bytes)
    requires IsName(name) && StartsWithRoot(at, name)
    ensures NameAt(at) == Some(name)
  {
    var n := 1 + |name|;
    assert at[0] == ([LT] + name)[0] && forall i :: 1 <= i < n ==> at[i] == name[i - 1];
    assert at[n..][0] == at[n];
    NameEnds(at, n);
    assert at[1..n] == name;
  }

  lemma StartsIf(at: bytes, name: bytes)
    requires NameAt(at) == Some(name)
    ensures StartsWithRoot(at, name)
  {
    var n := 1 + NameRun(at[1..]);
    assert at[..n] == [LT] + name;
    assert at[n..][0] == at[1..][n - 1];
  }

  /** RootIs asks whether the root element's whole name is the given one and its start tag is closed. */
  lemma RootIsIff(decoded: bytes, name: bytes)
    requires IsName(name)
    ensures RootIs(decoded, name) <==> RootName(decoded) == Some(name)
  {
    var at := AtRoot(decoded);
    if StartsWithRoot(at, name) {
      StartsOnlyIf(at, name);
    }
    if NameAt(at) == Some(name) {
      StartsIf(at, name);
    }
  }

  lemma RootNames()
    ensures forall d: Dialect :: !d.Unknown? ==> IsName(d.Root())
    ensures forall d: Dialect, e: Dialect :: !d.Unknown? && !e.Unknown? && d.Root() == e.Root() ==> d == e
  {
    RootNamesAreNames();
    RootNamesDiffer();
  }

  lemma RootNamesAreNames()
    ensures forall d: Dialect :: !d.Unknown? ==> IsName(d.Root())
  {
    forall d: Dialect | !d.Unknown? ensures IsName(d.Root()) {
      RootIsName(d);
    }
  }

  lemma RootIsName(d: Dialect)
    requires !d.Unknown?
    ensures IsName(d.Root())
  {
    match d
    case RegisterRequest => LettersAreName("RegisterRequest");
    case HeartBeatRequest => LettersAreName("HeartBeatRequest");
    case CheckFileRequest => LettersAreName("CheckFileRequest");
    case CheckEventRequest => LettersAreName("CheckEventRequest");
  }

  lemma LettersAreName(s: string)
    requires forall i :: 0 <= i < |s| ==> 'A' <= s[i] <= 'z'
    ensures IsName(Ascii(s))
  {}

  lemma RootNamesDiffer()
    ensures forall d: Dialect, e: Dialect :: !d.Unknown? && !e.Unknown? && d.Root() == e.Root() ==> d == e
  {
    var h, f := Dialect.HeartBeatRequest.Root(), Dialect.CheckFileRequest.Root();
    assert h[0] == 72 && f[0] == 67;
  }

  /** ClassifyDecoded names a dialect exactly when the root element's name is that dialect's. */
  lemma ClassifyIffRoot(decoded: bytes, d: Dialect)
    requires !d.Unknown?
    ensures ClassifyDecoded(decoded) == d <==> RootName(decoded) == Some(d.Root())
    ensures RootIs(decoded, d.Root()) <==> RootName(decoded) == Some(d.Root())
  {
    RootNames();
    RootIsIff(decoded, Dialect.RegisterRequest.Root());
    RootIsIff(decoded, Dialect.HeartBeatRequest.Root());
    RootIsIff(decoded, Dialect.CheckFileRequest.Root());
    RootIsIff(decoded, Dialect.CheckEventRequest.Root());
  }

  // ----- Classify and the predicates

  /** Decoding once and dispatching agrees with the four predicates that decode each time, on every raw
      body; a body that cannot be decoded satisfies none, and no body satisfies two. */
  lemma ClassifyAgrees(body: bytes, d: Dialect, e: Dialect)
    requires !d.Unknown? && !e.Unknown?
    ensures (Classify(body).Some? && Classify(body).value.dialect == d) <==> RootElementIs(body, d.Root())
    ensures Classify(body).None? <==> IsUTF16(body) && |body| % 2 == 1
    ensures RootElementIs(body, d.Root()) && RootElementIs(body, e.Root()) ==> d == e
  {
    DecodeFailsIff(body);
    RootNames();
    match DecodeBody(body)
    case None =>
    case Some(decoded) =>
      ClassifyIffRoot(decoded, d);
      ClassifyIffRoot(decoded, e);
  }

  /** The first of the listed dialects whose root it is. */
  function FirstMatch(order: seq<Dialect>, decoded: bytes): Dialect {
    if order == [] then Unknown
    else if !order[0].Unknown? && RootIs(decoded, order[0].Root()) then order[0]
    else FirstMatch(order[1..], decoded)
  }

  lemma {:induction false} FirstMatchIs(order: seq<Dialect>, decoded: bytes)
    ensures FirstMatch(order, decoded) ==
      if ClassifyDecoded(decoded) in order then ClassifyDecoded(decoded) else Unknown
  {
    if order != [] {
      FirstMatchIs(order[1..], decoded);
      if !order[0].Unknown? {
        ClassifyIffRoot(decoded, order[0]);
      }
    }
  }

  /** Trying the four dialects in any other order gives the same answer. */
  lemma OrderIrrelevant(order: seq<Dialect>, decoded: bytes)
    requires forall d: Dialect :: !d.Unknown? ==> d in order
    ensures FirstMatch(order, decoded) == ClassifyDecoded(decoded)
  {
    FirstMatchIs(order, decoded);
  }

  /** Text whose first two characters are not NUL is taken for UTF-8. */
  lemma PlainText(rs: seq<rune>)
    requires |rs| >= 2 && rs[0] != 0 && rs[1] != 0
    ensures DecodeBody(Encode(rs)) == Some(Encode(rs))
  {
    var b := Encode(rs);
    RunesOfEncode(rs);
    NoBomInText(b);
    assert b == EncodeRune(rs[0]) + (EncodeRune(rs[1]) + Encode(rs[1..][1..]));
    assert EncodeRune(rs[1])[0] != 0;
  }

  /** A document is recognised alike in UTF-8 and in each UTF-16 form a publisher may send it in: either
      byte order, bare or behind a mark. */
  lemma EncodingIrrelevant(rs: seq<rune>)
    requires |rs| >= 2 && 1 <= rs[0] <= 0xFF && rs[1] != 0
    ensures Classify(Encode(rs)).Some? && Classify(Encode(rs)).value.decoded == Encode(rs)
    ensures Classify(EncodeUTF16LE(Encode(rs))) == Classify(Encode(rs))
    ensures Classify(WriteUnits(Units(rs), false)) == Classify(Encode(rs))
    ensures Classify([0xFF, 0xFE] + WriteUnits(Units(rs), true)) == Classify(Encode(rs))
    ensures Classify([0xFE, 0xFF] + WriteUnits(Units(rs), false)) == Classify(Encode(rs))
  {
    PlainText(rs);
    RoundTripSome(rs);
    BareOrderIrrelevant(Units(rs), false);
    ByteOrderIrrelevant(Units(rs));
    RunesOfUnits(rs);
  }

  /** A payload cut before the root's start tag is closed is no dialect. */
  lemma TruncatedIsUnknown(decoded: bytes)
    requires GT !in AtRoot(decoded)
    ensures ClassifyDecoded(decoded) == Unknown
  {
    if ClassifyDecoded(decoded) != Unknown {
      ClassifyIffRoot(decoded, ClassifyDecoded(decoded));
      var at := AtRoot(decoded);
      assert GT in at[1 + NameRun(at[1..])..];
      assert forall c :: c in at[1 + NameRun(at[1..])..] ==> c in at;
    }
  }
}
