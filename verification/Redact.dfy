/** pkg/server/redact.go: rendering a payload for a log with its values removed. */
module Redact {
  import opened Prelude
  import opened Utf8
  import opened ByteSlices

  const MAX_REDACTED_PAYLOAD := 512

  predicate IsQuote(c: byte) { c == 34 || c == 39 }

  function Dots(): bytes { Ascii("...") }
  function QuotedDots(): bytes { [34] + Dots() + [34] }
  function TruncatedMark(): bytes { Ascii("...(truncated)") }

  // ----- documents as tokens

  /** A piece of a payload: tag brackets, a byte of a tag, a quoted value, a run of text between tags. */
  datatype Token = Open | Close | Name(c: byte) | Value(quote: byte, content: bytes, closed: bool) | Text(content: bytes) {
    function Bytes(): bytes {
      match this
      case Open => [LT]
      case Close => [GT]
      case Name(c) => [c]
      case Value(q, v, closed) => [q] + v + (if closed then [q] else [])
      case Text(t) => t
    }

    /** The token with its content forgotten, save whether a text is blank. */
    function Shape(): Token {
      match this
      case Value(_, _, _) => Value(34, [], true)
      case Text(t) => if TrimSpace(t) == [] then Text([]) else Text(Dots())
      case _ => this
    }
  }

  /** The payload a list of tokens spells. */
  function Spell(ts: seq<Token>): bytes {
    if ts == [] then [] else ts[0].Bytes() + Spell(ts[1..])
  }

  /** A token list that can be read back from its spelling, starting inside a tag or outside. */
  predicate Readable(ts: seq<Token>, inTag: bool) {
    ts == [] ||
    var rest := ts[1..];
    match ts[0]
    case Open => !inTag && Readable(rest, true)
    case Close => inTag && Readable(rest, false)
    case Name(c) => inTag && c != GT && !IsQuote(c) && Readable(rest, true)
    case Value(q, v, closed) => inTag && IsQuote(q) && q !in v && (closed || rest == []) && Readable(rest, true)
    case Text(t) => !inTag && t != [] && LT !in t && (rest == [] || rest[0].Open?) && Readable(rest, false)
  }

  /** The first token of a non-empty payload. */
  function First(b: bytes, inTag: bool): (t: Token)
    requires b != []
    ensures 1 <= |t.Bytes()| <= |b|
  {
    if !inTag && b[0] == LT then Open
    else if !inTag then Text(b[..RunTo(b, LT)])
    else if b[0] == GT then Close
    else if IsQuote(b[0]) then
      var n := RunTo(b[1..], b[0]);
      Value(b[0], b[1..1 + n], 1 + n < |b|)
    else Name(b[0])
  }

  /** Whether what follows a token is inside a tag. */
  function After(t: Token, inTag: bool): bool {
    if t.Open? then true else if t.Close? then false else inTag
  }

  function Lex(b: bytes, inTag: bool): seq<Token>
    decreases |b|
  {
    if b == [] then []
    else
      var t := First(b, inTag);
      [t] + Lex(b[|t.Bytes()|..], After(t, inTag))
  }

  /** The first token is the front of the payload. */
  lemma FirstIsFront(b: bytes, inTag: bool)
    requires b != []
    ensures First(b, inTag).Bytes() == b[..|First(b, inTag).Bytes()|]
  {
    if inTag && IsQuote(b[0]) {
      var n := RunTo(b[1..], b[0]);
      assert b[..1 + n] == [b[0]] + b[1..1 + n];
    }
  }

  lemma SpellCons(t: Token, rest: seq<Token>)
    ensures Spell([t] + rest) == t.Bytes() + Spell(rest)
  {
    assert ([t] + rest)[1..] == rest;
  }

  /** A first token is followed by what may follow it. */
  lemma ReadableFirst(b: bytes, inTag: bool, rest: seq<Token>)
    requires b != []
    requires Readable(rest, After(First(b, inTag), inTag))
    requires First(b, inTag).Value? && !First(b, inTag).closed ==> rest == []
    requires First(b, inTag).Text? ==> rest == [] || rest[0].Open?
    ensures Readable([First(b, inTag)] + rest, inTag)
  {
    assert ([First(b, inTag)] + rest)[1..] == rest;
  }

  /** An unclosed value reaches the end, and a text run the end or a tag. */
  lemma NextFits(b: bytes, inTag: bool)
    requires b != []
    ensures var t := First(b, inTag);
      var rest := Lex(b[|t.Bytes()|..], After(t, inTag));
      && (t.Value? && !t.closed ==> rest == [])
      && (t.Text? ==> rest == [] || rest[0].Open?)
  {}

  /** Every payload is spelled by a readable token list. */
  lemma {:induction false} SpellLex(b: bytes, inTag: bool)
    ensures Spell(Lex(b, inTag)) == b && Readable(Lex(b, inTag), inTag)
    decreases |b|
  {
    if b != [] {
      var t := First(b, inTag);
      var rest := b[|t.Bytes()|..];
      SpellLex(rest, After(t, inTag));
      FirstIsFront(b, inTag);
      SpellFront(t, b, Lex(rest, After(t, inTag)));
      NextFits(b, inTag);
      ReadableFirst(b, inTag, Lex(rest, After(t, inTag)));
    }
  }

  lemma SpellFront(t: Token, b: bytes, rest: seq<Token>)
    requires |t.Bytes()| <= |b| && t.Bytes() == b[..|t.Bytes()|] && Spell(rest) == b[|t.Bytes()|..]
    ensures Spell([t] + rest) == b
  {
    SpellCons(t, rest);
    assert b == b[..|t.Bytes()|] + b[|t.Bytes()|..];
  }

  lemma FirstOfValue(q: byte, v: bytes, closed: bool, rest: bytes)
    requires IsQuote(q) && q !in v && (closed || rest == [])
    ensures First(Value(q, v, closed).Bytes() + rest, true) == Value(q, v, closed)
  {
    var tail := if closed then [q] + rest else [];
    var b := Value(q, v, closed).Bytes() + rest;
    assert b == [q] + (v + tail);
    assert b[1..] == v + tail;
    RunToIs(v, q, tail);
  }

  lemma FirstOfText(t: bytes, rest: bytes)
    requires t != [] && LT !in t && (rest == [] || rest[0] == LT)
    ensures First(Text(t).Bytes() + rest, false) == Text(t)
  {
    RunToIs(t, LT, rest);
  }

  /** What follows a text run begins a tag. */
  lemma AfterText(ts: seq<Token>)
    requires ts == [] || ts[0].Open?
    ensures Spell(ts) == [] || Spell(ts)[0] == LT
  {}

  lemma FirstOfSpell(ts: seq<Token>, inTag: bool)
    requires ts != [] && Readable(ts, inTag)
    ensures Spell(ts) != [] && First(Spell(ts), inTag) == ts[0]
  {
    match ts[0]
    case Value(q, v, closed) =>
      FirstOfValue(q, v, closed, Spell(ts[1..]));
    case Text(t) =>
      AfterText(ts[1..]);
      FirstOfText(t, Spell(ts[1..]));
    case _ =>
  }

  lemma ReadableRest(ts: seq<Token>, inTag: bool)
    requires ts != [] && Readable(ts, inTag)
    ensures Readable(ts[1..], After(ts[0], inTag))
  {}

  /** And only by that one. */
  lemma {:induction false} LexSpell(ts: seq<Token>, inTag: bool)
    requires Readable(ts, inTag)
    ensures Lex(Spell(ts), inTag) == ts
    decreases |ts|
  {
    if ts != [] {
      FirstOfSpell(ts, inTag);
      ReadableRest(ts, inTag);
      LexSpell(ts[1..], After(ts[0], inTag));
      var n := |ts[0].Bytes()|;
      assert Spell(ts)[n..] == Spell(ts[1..]);
    }
  }

  // ----- rendering tokens

  function Emit(t: Token): (b: bytes)
    ensures |b| <= 5
  {
    match t
    case Open => [LT]
    case Close => [GT]
    case Name(c) => [c]
    case Value(_, _, _) => QuotedDots()
    case Text(content) => if TrimSpace(content) != [] then Dots() else []
  }

  datatype Rendered = Rendered(out: bytes, truncated: bool)

  /** What the scan writes after `out`, checking the bound before each token. */
  function Render(ts: seq<Token>, out: bytes): Rendered {
    if ts == [] then Rendered(out, false)
    else if |out| >= MAX_REDACTED_PAYLOAD then Rendered(out, true)
    else Render(ts[1..], out + Emit(ts[0]))
  }

  /** strings.ToValidUTF8 with an empty replacement. */
  function DropInvalid(b: bytes): (v: bytes)
    ensures |v| <= |b|
  {
    if b == [] then []
    else
      var n := DecodeRune(b).size;
      (if DecodeRune(b).ok then b[..n] else []) + DropInvalid(b[n..])
  }

  function Finish(r: Rendered): bytes {
    if !r.truncated && |r.out| <= MAX_REDACTED_PAYLOAD then r.out
    else (if |r.out| > MAX_REDACTED_PAYLOAD then DropInvalid(r.out[..MAX_REDACTED_PAYLOAD]) else r.out) + TruncatedMark()
  }

  function RedactTokens(ts: seq<Token>): bytes { Finish(Render(ts, [])) }

  /** Writing one token and going on. */
  lemma RenderStep(b: bytes, i: nat, inTag: bool, out: bytes)
    requires i < |b| && |out| < MAX_REDACTED_PAYLOAD
    ensures var t := First(b[i..], inTag); var next := i + |t.Bytes()|;
      && next <= |b|
      && Render(Lex(b[i..], inTag), out) == Render(Lex(b[next..], After(t, inTag)), out + Emit(t))
  {
    var t := First(b[i..], inTag);
    var next := i + |t.Bytes()|;
    assert b[i..][|t.Bytes()|..] == b[next..];
    assert Lex(b[i..], inTag)[1..] == Lex(b[next..], After(t, inTag));
  }

  /** The scan's inner loops: over everything up to the next `c`. */
  method SkipTo(b: bytes, start: nat, c: byte) returns (i: nat)
    requires start <= |b|
    ensures i == start + RunTo(b[start..], c)
  {
    i := start;
    while i < |b| && b[i] != c
      invariant start <= i <= |b| && c !in b[start..i]
    {
      assert b[start..i + 1] == b[start..i] + [b[i]];
      i := i + 1;
    }
    assert b[start..] == b[start..i] + b[i..];
    RunToIs(b[start..i], c, b[i..]);
  }

  /** What the scan makes of the payload from `i` on. */
  ghost function Rest(b: bytes, i: nat, inTag: bool, out: bytes): Rendered
    requires i <= |b|
  {
    Render(Lex(b[i..], inTag), out)
  }

  /** Where the scan stops: at the end, or at the bound with something left. */
  lemma RenderEnd(b: bytes, i: nat, inTag: bool, out: bytes)
    requires i <= |b| && (i == |b| || |out| >= MAX_REDACTED_PAYLOAD)
    ensures Rest(b, i, inTag, out) == Rendered(out, i < |b|)
  {
    if i < |b| {
      assert Lex(b[i..], inTag) != [];
    }
  }

  /** redactPayload, as the scanning loop it is. */
  method RedactPayload(b: bytes) returns (s: bytes)
    ensures s == Redacted(b)
  {
    ghost var goal := Rest(b, 0, false, []);
    var out: bytes := [];
    var inTag, truncated, i := false, false, 0;
    assert b[0..] == b;
    while i < |b| && !truncated
      invariant 0 <= i <= |b|
      invariant Rest(b, i, inTag, out) == goal
      invariant truncated ==> |out| >= MAX_REDACTED_PAYLOAD && i < |b|
      decreases |b| - i, !truncated
    {
      if |out| >= MAX_REDACTED_PAYLOAD {
        truncated := true;
      } else {
        i, inTag, out := Turn(b, i, inTag, out);
      }
    }
    RenderEnd(b, i, inTag, out);
    s := Cut(out, truncated);
  }

  /** Cuts what is over the bound, drops ill-formed bytes from what is left of it, and marks the result. */
  method Cut(out: bytes, truncated: bool) returns (s: bytes)
    ensures s == Finish(Rendered(out, truncated))
  {
    if !truncated && |out| <= MAX_REDACTED_PAYLOAD {
      return out;
    }
    s := out;
    if |s| > MAX_REDACTED_PAYLOAD {
      s := DropInvalid(s[..MAX_REDACTED_PAYLOAD]);
    }
    return s + TruncatedMark();
  }

  /** One turn below the bound moves forward and leaves the outcome the same. */
  method Turn(b: bytes, i: nat, inTag: bool, out: bytes) returns (i': nat, inTag': bool, out': bytes)
    requires i < |b| && |out| < MAX_REDACTED_PAYLOAD
    ensures i < i' <= |b|
    ensures Rest(b, i', inTag', out') == Rest(b, i, inTag, out)
  {
    RenderStep(b, i, inTag, out);
    i', inTag', out' := ScanToken(b, i, inTag, out);
  }

  /** One turn of the scan: the token at `i` is passed over and its rendering written. */
  method ScanToken(b: bytes, i: nat, inTag: bool, out: bytes) returns (i': nat, inTag': bool, out': bytes)
    requires i < |b|
    ensures var t := First(b[i..], inTag);
      i' == i + |t.Bytes()| && inTag' == After(t, inTag) && out' == out + Emit(t)
  {
    var c := b[i];
    assert b[i..][0] == c;
    if !inTag && c == LT {
      return i + 1, true, out + [c];
    } else if !inTag {
      i', out' := ScanText(b, i, out);
      inTag' := inTag;
    } else if c == GT {
      return i + 1, false, out + [c];
    } else if IsQuote(c) {
      i', out' := ScanValue(b, i, out);
      inTag' := inTag;
    } else {
      return i + 1, inTag, out + [c];
    }
  }

  method ScanText(b: bytes, i: nat, out: bytes) returns (i': nat, out': bytes)
    requires i < |b| && b[i] != LT
    ensures var t := First(b[i..], false);
      t.Text? && i' == i + |t.Bytes()| && out' == out + Emit(t)
  {
    i' := SkipTo(b, i, LT);
    assert b[i..][..i' - i] == b[i..i'];
    out' := out + (if |TrimSpace(b[i..i'])| > 0 then Dots() else []);
  }

  method ScanValue(b: bytes, i: nat, out: bytes) returns (i': nat, out': bytes)
    requires i < |b| && IsQuote(b[i])
    ensures var t := First(b[i..], true);
      t.Value? && i' == i + |t.Bytes()| && out' == out + Emit(t)
  {
    i' := SkipTo(b, i + 1, b[i]);
    assert b[i..][1..] == b[i + 1..];
    if i' < |b| {
      i' := i' + 1;
    }
    out' := out + QuotedDots();
  }

  /** The rendering of a payload. */
  function Redacted(b: bytes): bytes { RedactTokens(Lex(b, false)) }

  // ----- what the result depends on

  predicate SameShape(ts: seq<Token>, us: seq<Token>) {
    |ts| == |us| && forall i :: 0 <= i < |ts| ==> ts[i].Shape() == us[i].Shape()
  }

  lemma ShapeTellsEmit(t: Token, u: Token)
    requires t.Shape() == u.Shape()
    ensures Emit(t) == Emit(u)
  {}

  lemma SameShapeParts(ts: seq<Token>, us: seq<Token>)
    requires SameShape(ts, us) && ts != []
    ensures us != [] && Emit(ts[0]) == Emit(us[0]) && SameShape(ts[1..], us[1..])
  {
    assert ts[0].Shape() == us[0].Shape();
    ShapeTellsEmit(ts[0], us[0]);
    forall i | 0 <= i < |ts[1..]| ensures ts[1..][i].Shape() == us[1..][i].Shape() {
      assert ts[i + 1].Shape() == us[i + 1].Shape();
    }
  }

  lemma {:induction false} RenderByShape(ts: seq<Token>, us: seq<Token>, out: bytes)
    requires SameShape(ts, us)
    ensures Render(ts, out) == Render(us, out)
    decreases |ts|
  {
    if ts != [] && |out| < MAX_REDACTED_PAYLOAD {
      SameShapeParts(ts, us);
      RenderByShape(ts[1..], us[1..], out + Emit(ts[0]));
    }
  }

  /** Two payloads with the same tag bytes, differing only inside quoted values and inside text runs that
      stay blank or stay not blank, are rendered alike. */
  lemma ResultIsShape(ts: seq<Token>, us: seq<Token>)
    requires Readable(ts, false) && Readable(us, false) && SameShape(ts, us)
    ensures Redacted(Spell(ts)) == Redacted(Spell(us))
  {
    LexSpell(ts, false);
    LexSpell(us, false);
    RenderByShape(ts, us, []);
  }

  /** The rendering of all tokens, without a bound. */
  function Emitted(ts: seq<Token>): bytes {
    if ts == [] then [] else Emit(ts[0]) + Emitted(ts[1..])
  }

  lemma {:induction false} RenderIsEmitted(ts: seq<Token>, out: bytes)
    requires |out| + |Emitted(ts)| < MAX_REDACTED_PAYLOAD
    ensures Render(ts, out) == Rendered(out + Emitted(ts), false)
    decreases |ts|
  {
    if ts != [] {
      var e, more := Emit(ts[0]), Emitted(ts[1..]);
      assert out + e + more == out + (e + more);
      RenderIsEmitted(ts[1..], out + e);
    } else {
      assert out + [] == out;
    }
  }

  predicate OnlyMarkup(ts: seq<Token>) {
    forall i :: 0 <= i < |ts| ==> ts[i].Open? || ts[i].Close? || ts[i].Name?
  }

  lemma {:induction false} EmittedMarkup(ts: seq<Token>)
    requires OnlyMarkup(ts)
    ensures Emitted(ts) == Spell(ts)
  {
    if ts != [] {
      EmittedMarkup(ts[1..]);
    }
  }

  /** Names are kept: a short payload of tags without values or text is rendered as it is. */
  lemma MarkupKept(ts: seq<Token>)
    requires Readable(ts, false) && OnlyMarkup(ts) && |Spell(ts)| < MAX_REDACTED_PAYLOAD
    ensures Redacted(Spell(ts)) == Spell(ts)
  {
    LexSpell(ts, false);
    EmittedMarkup(ts);
    RenderIsEmitted(ts, []);
    assert [] + Emitted(ts) == Emitted(ts);
  }

  /** A token as its rendering reads: dots for a value and for a text that is not blank. */
  function Blanked(t: Token): seq<Token> {
    match t
    case Value(_, _, _) => [Value(34, Dots(), true)]
    case Text(content) => if TrimSpace(content) == [] then [] else [Text(Dots())]
    case _ => [t]
  }

  function BlankedAll(ts: seq<Token>): seq<Token> {
    if ts == [] then [] else Blanked(ts[0]) + BlankedAll(ts[1..])
  }

  lemma DotsUntrimmed(d: bytes)
    requires d == [46, 46, 46]
    ensures TrimLeft(d) == d && TrimRight(d) == d
  {
    assert DecodeRune(d).r == 46;
    assert BackUp(d, 1) == 1 && d[2..] == [46];
    assert DecodeLastRune(d).r == 46;
  }

  lemma DotsNotBlank()
    ensures TrimSpace(Dots()) == Dots() && Dots() == [46, 46, 46]
  {
    assert Dots() == [46, 46, 46];
    DotsUntrimmed(Dots());
  }

  /** What stands for a token spells what the token is rendered as, and is rendered as it is spelled. */
  lemma BlankedEmits(t: Token)
    ensures |Blanked(t)| <= 1
    ensures Blanked(t) == [] ==> Emit(t) == []
    ensures Blanked(t) != [] ==> Blanked(t)[0].Bytes() == Emit(t) == Emit(Blanked(t)[0])
  {
    DotsNotBlank();
  }

  lemma PutBefore(front: seq<Token>, e: bytes, rest: seq<Token>)
    requires |front| <= 1 && (front == [] ==> e == [])
    requires front != [] ==> front[0].Bytes() == e == Emit(front[0])
    ensures Spell(front + rest) == e + Spell(rest) && Emitted(front + rest) == e + Emitted(rest)
  {
    if front == [] {
      assert [] + rest == rest;
    } else {
      assert front + rest == [front[0]] + rest;
      SpellCons(front[0], rest);
      EmittedCons(front[0], rest);
    }
  }

  lemma EmittedCons(t: Token, rest: seq<Token>)
    ensures Emitted([t] + rest) == Emit(t) + Emitted(rest)
  {
    assert ([t] + rest)[1..] == rest;
  }

  lemma {:induction false} BlankedAllEmits(ts: seq<Token>)
    ensures Spell(BlankedAll(ts)) == Emitted(ts) && Emitted(BlankedAll(ts)) == Emitted(ts)
  {
    if ts != [] {
      BlankedAllEmits(ts[1..]);
      BlankedEmits(ts[0]);
      PutBefore(Blanked(ts[0]), Emit(ts[0]), BlankedAll(ts[1..]));
    }
  }

  lemma ReadableCons(t: Token, rest: seq<Token>, inTag: bool)
    requires t.Open? || t.Close? || t.Name? || (t.Value? && t.closed) || (t.Text? && (rest == [] || rest[0].Open?))
    requires Readable([t], inTag) && Readable(rest, After(t, inTag))
    ensures Readable([t] + rest, inTag)
  {
    assert [t][1..] == [] && ([t] + rest)[1..] == rest;
  }

  lemma BlankedReadable(ts: seq<Token>, inTag: bool, rest: seq<Token>)
    requires ts != [] && Readable(ts, inTag) && Readable(rest, After(ts[0], inTag))
    requires ts[0].Text? ==> rest == [] || rest[0].Open?
    ensures Readable(Blanked(ts[0]) + rest, inTag)
  {
    DotsNotBlank();
    if Blanked(ts[0]) == [] {
      assert [] + rest == rest;
    } else {
      var t := Blanked(ts[0])[0];
      assert Blanked(ts[0]) == [t] && [t][1..] == [];
      ReadableCons(t, rest, inTag);
    }
  }

  lemma {:induction false} BlankedAllReadable(ts: seq<Token>, inTag: bool)
    requires Readable(ts, inTag)
    ensures Readable(BlankedAll(ts), inTag)
    ensures ts != [] && ts[0].Open? ==> BlankedAll(ts) != [] && BlankedAll(ts)[0].Open?
    decreases |ts|
  {
    if ts != [] {
      ReadableRest(ts, inTag);
      BlankedAllReadable(ts[1..], After(ts[0], inTag));
      BlankedReadable(ts, inTag, BlankedAll(ts[1..]));
    }
  }

  /** Redacting is done in one go: as long as the rendering is short of the bound, it is itself a payload
      that renders as it is, with no value left to remove. */
  lemma RedactTwice(b: bytes)
    requires |Emitted(Lex(b, false))| < MAX_REDACTED_PAYLOAD
    ensures Redacted(b) == Emitted(Lex(b, false))
    ensures Redacted(Redacted(b)) == Redacted(b)
  {
    RedactedIsEmitted(b);
    LexEmitted(b);
    BlankedAllEmits(Lex(b, false));
    RedactedIsEmitted(Redacted(b));
  }

  lemma LexEmitted(b: bytes)
    ensures Lex(Emitted(Lex(b, false)), false) == BlankedAll(Lex(b, false))
  {
    SpellLex(b, false);
    BlankedAllReadable(Lex(b, false), false);
    BlankedAllEmits(Lex(b, false));
    LexSpell(BlankedAll(Lex(b, false)), false);
  }

  lemma RedactedIsEmitted(b: bytes)
    requires |Emitted(Lex(b, false))| < MAX_REDACTED_PAYLOAD
    ensures Redacted(b) == Emitted(Lex(b, false))
  {
    RenderIsEmitted(Lex(b, false), []);
    assert [] + Emitted(Lex(b, false)) == Emitted(Lex(b, false));
  }

  /** Below the bound two payloads are rendered alike exactly when they have the same tags and, between
      and inside them, values and texts that are not blank in the same places. */
  lemma RenderedAlikeIff(b: bytes, c: bytes)
    requires |Emitted(Lex(b, false))| < MAX_REDACTED_PAYLOAD && |Emitted(Lex(c, false))| < MAX_REDACTED_PAYLOAD
    ensures Redacted(b) == Redacted(c) <==> BlankedAll(Lex(b, false)) == BlankedAll(Lex(c, false))
  {
    RedactedIsEmitted(b);
    RedactedIsEmitted(c);
    LexEmitted(b);
    LexEmitted(c);
    BlankedAllEmits(Lex(b, false));
    BlankedAllEmits(Lex(c, false));
  }

  lemma {:induction false} RenderBound(ts: seq<Token>, out: bytes)
    requires |out| <= MAX_REDACTED_PAYLOAD + 4
    ensures |Render(ts, out).out| <= MAX_REDACTED_PAYLOAD + 4
    ensures Render(ts, out).truncated ==> |Render(ts, out).out| >= MAX_REDACTED_PAYLOAD
    decreases |ts|
  {
    if ts != [] && |out| < MAX_REDACTED_PAYLOAD {
      RenderBound(ts[1..], out + Emit(ts[0]));
    }
  }

  /** The result is at most 512 bytes and the mark; without the mark it is at most 512. */
  lemma ResultBound(b: bytes)
    ensures |Redacted(b)| <= MAX_REDACTED_PAYLOAD + |TruncatedMark()| == 512 + 14
  {
    RenderBound(Lex(b, false), []);
  }
}
