/** pkg/server/redact.go at its bound: which bytes stand before the mark, when the mark is there, and when
    the result is text. */
module RedactBound {
  import opened Prelude
  import opened Utf8
  import opened ByteSlices
  import opened Redact
  import Utf16
  import T = Trimming

  /** Some number of whole tokens is rendered as exactly `n` bytes. */
  predicate EndsAt(ts: seq<Token>, n: nat) {
    n == 0 || (ts != [] && |Emit(ts[0])| <= n && EndsAt(ts[1..], n - |Emit(ts[0])|))
  }

  /** Nothing of the last token is shown: it is a blank run of text. */
  predicate BlankEnd(ts: seq<Token>) { ts != [] && Emit(ts[|ts| - 1]) == [] }

  // ----- where the scan stops

  lemma Grown(out: bytes, e: bytes, more: bytes)
    ensures (out + e) + more == out + (e + more)
  {}

  /** Where a scan past the bound stops: just at it, with something left, if a token ends there. */
  predicate Stopped(r: Rendered, e: bytes, ends: bool) {
    && r.out <= e
    && if ends then |r.out| == MAX_REDACTED_PAYLOAD && r.truncated else |r.out| > MAX_REDACTED_PAYLOAD
  }

  lemma RenderOne(ts: seq<Token>, out: bytes, next: bytes)
    requires ts != [] && |out| < MAX_REDACTED_PAYLOAD && next == out + Emit(ts[0])
    ensures Render(ts, out) == Render(ts[1..], next) && out + Emitted(ts) == next + Emitted(ts[1..])
  {
    Grown(out, Emit(ts[0]), Emitted(ts[1..]));
  }

  lemma EndsOne(ts: seq<Token>, n: nat)
    requires ts != [] && n > 0 && |Emit(ts[0])| <= n
    ensures EndsAt(ts, n) <==> EndsAt(ts[1..], n - |Emit(ts[0])|)
  {}

  /** One token, still within the bound. */
  lemma StopsLater(ts: seq<Token>, out: bytes, next: bytes)
    requires ts != [] && |out| < MAX_REDACTED_PAYLOAD && next == out + Emit(ts[0]) && |next| <= MAX_REDACTED_PAYLOAD
    requires Stopped(Render(ts[1..], next), next + Emitted(ts[1..]), EndsAt(ts[1..], MAX_REDACTED_PAYLOAD - |next|))
    ensures Stopped(Render(ts, out), out + Emitted(ts), EndsAt(ts, MAX_REDACTED_PAYLOAD - |out|))
  {
    RenderOne(ts, out, next);
    EndsOne(ts, MAX_REDACTED_PAYLOAD - |out|);
  }

  /** One token, over the bound. */
  lemma StopsNow(ts: seq<Token>, out: bytes)
    requires ts != [] && |out| < MAX_REDACTED_PAYLOAD < |out + Emit(ts[0])|
    ensures Stopped(Render(ts, out), out + Emitted(ts), EndsAt(ts, MAX_REDACTED_PAYLOAD - |out|))
  {
    Grown(out, Emit(ts[0]), Emitted(ts[1..]));
    assert Render(ts[1..], out + Emit(ts[0])).out == out + Emit(ts[0]);
  }

  lemma {:induction false} RenderBeyond(ts: seq<Token>, out: bytes)
    requires |out| <= MAX_REDACTED_PAYLOAD < |out| + |Emitted(ts)|
    ensures Stopped(Render(ts, out), out + Emitted(ts), EndsAt(ts, MAX_REDACTED_PAYLOAD - |out|))
    decreases |ts|
  {
    if |out| < MAX_REDACTED_PAYLOAD {
      if |out + Emit(ts[0])| <= MAX_REDACTED_PAYLOAD {
        RenderBeyond(ts[1..], out + Emit(ts[0]));
        StopsLater(ts, out, out + Emit(ts[0]));
      } else {
        StopsNow(ts, out);
      }
    }
  }

  lemma StopsThere(ts: seq<Token>, out: bytes)
    requires Emitted(ts) == [] && (ts == [] || |out| == MAX_REDACTED_PAYLOAD)
    ensures Render(ts, out) == Rendered(out + Emitted(ts), BlankEnd(ts))
  {
    assert out + [] == out;
    if ts != [] {
      NothingShown(ts);
    }
  }

  /** A rendering of exactly 512 bytes is kept, and counts as cut when a blank text is left. */
  lemma {:induction false} RenderExactly(ts: seq<Token>, out: bytes)
    requires |out| + |Emitted(ts)| == MAX_REDACTED_PAYLOAD
    ensures Render(ts, out) == Rendered(out + Emitted(ts), BlankEnd(ts))
    decreases |ts|
  {
    if ts == [] || |out| == MAX_REDACTED_PAYLOAD {
      StopsThere(ts, out);
    } else {
      var next := out + Emit(ts[0]);
      RenderOne(ts, out, next);
      RenderExactly(ts[1..], next);
      BlankRest(ts);
    }
  }

  lemma BlankRest(ts: seq<Token>)
    requires ts != [] && (Emit(ts[0]) != [] || ts[1..] != [])
    ensures BlankEnd(ts) <==> BlankEnd(ts[1..])
  {}

  lemma {:induction false} NothingShown(ts: seq<Token>)
    requires ts != [] && Emitted(ts) == []
    ensures BlankEnd(ts)
  {
    if |ts| > 1 {
      NothingShown(ts[1..]);
    }
  }

  lemma Cutting(r: Rendered, e: bytes, ends: bool)
    requires Stopped(r, e, ends) && |e| > MAX_REDACTED_PAYLOAD
    ensures Finish(r) ==
      (if ends then e[..MAX_REDACTED_PAYLOAD] else DropInvalid(e[..MAX_REDACTED_PAYLOAD])) + TruncatedMark()
  {
    assert r.out[..MAX_REDACTED_PAYLOAD] == e[..MAX_REDACTED_PAYLOAD];
    assert ends ==> r.out == e[..MAX_REDACTED_PAYLOAD];
  }

  /** Beyond the bound: the first 512 bytes of the rendering and the mark. Only when no token ends there are
      the bytes passed through the dropping of ill-formed ones. */
  lemma RedactedBeyond(b: bytes)
    requires |Emitted(Lex(b, false))| > MAX_REDACTED_PAYLOAD
    ensures var e := Emitted(Lex(b, false));
      Redacted(b) ==
        (if EndsAt(Lex(b, false), MAX_REDACTED_PAYLOAD) then e[..MAX_REDACTED_PAYLOAD] else DropInvalid(e[..MAX_REDACTED_PAYLOAD]))
        + TruncatedMark()
  {
    var ts, e := Lex(b, false), Emitted(Lex(b, false));
    RenderBeyond(ts, []);
    assert [] + e == e;
    Cutting(Render(ts, []), e, EndsAt(ts, MAX_REDACTED_PAYLOAD));
  }

  /** At the bound: the whole rendering, and a blank text at the end is taken for a cut. */
  lemma RedactedExactly(b: bytes)
    requires |Emitted(Lex(b, false))| == MAX_REDACTED_PAYLOAD
    ensures Redacted(b) == Emitted(Lex(b, false)) + (if BlankEnd(Lex(b, false)) then TruncatedMark() else [])
  {
    var e := Emitted(Lex(b, false));
    RenderExactly(Lex(b, false), []);
    assert [] + e == e && e + [] == e;
  }

  // ----- dropping what is ill-formed

  lemma DropStep(b: bytes)
    requires b != []
    ensures var n := DecodeRune(b).size;
      DropInvalid(b) == (if DecodeRune(b).ok then b[..n] else []) + DropInvalid(b[n..])
  {}

  /** What is left is text, and text is left as it is. */
  lemma {:induction false} DropInvalidIs(b: bytes)
    ensures Valid(DropInvalid(b))
    ensures DropInvalid(b) == b <==> Valid(b)
    decreases |b|
  {
    if b != [] {
      var n := DecodeRune(b).size;
      DropInvalidIs(b[n..]);
      DropStep(b);
      if DecodeRune(b).ok {
        FirstRuneValid(b);
        ValidAppend(b[..n], DropInvalid(b[n..]));
        Rejoined(b, n);
        SameFront(b[..n], DropInvalid(b[n..]), b[n..]);
      } else {
        assert [] + DropInvalid(b[n..]) == DropInvalid(b[n..]);
      }
    }
  }

  lemma SameFront(a: bytes, x: bytes, y: bytes)
    ensures a + x == a + y <==> x == y
  {
    assert (a + x)[|a|..] == x && (a + y)[|a|..] == y;
  }

  // ----- text stays text

  lemma AfterOne(b: bytes)
    requires b != [] && b[0] < 0x80 && Valid(b)
    ensures Valid(b[1..])
  {}

  lemma DotsAre()
    ensures Dots() == [46, 46, 46] && QuotedDots() == [34, 46, 46, 46, 34]
  {}

  lemma DotsValid()
    ensures Valid(Dots()) && Valid(QuotedDots())
  {
    DotsAre();
    Utf16.AsciiValid(Dots());
    Utf16.AsciiValid(QuotedDots());
  }

  lemma EmitValid(t: Token)
    requires t.Name? ==> t.c < 0x80
    ensures Valid(Emit(t))
  {
    match t
    case Name(c) => Utf16.AsciiValid([c]);
    case Open => Utf16.AsciiValid([LT]);
    case Close => Utf16.AsciiValid([GT]);
    case _ => DotsValid();
  }

  lemma LexStep(b: bytes, inTag: bool)
    requires b != []
    ensures var t := First(b, inTag);
      Emitted(Lex(b, inTag)) == Emit(t) + Emitted(Lex(b[|t.Bytes()|..], After(t, inTag)))
  {
    var t := First(b, inTag);
    EmittedCons(t, Lex(b[|t.Bytes()|..], After(t, inTag)));
  }

  lemma AfterValue(b: bytes, m: nat)
    requires Valid(b) && m < |b| && b[m] < 0x80
    ensures Valid(b[m + 1..])
  {
    DropAtRuneStart(b, m);
    AfterOne(b[m..]);
    assert b[m..][1..] == b[m + 1..];
  }

  /** After a token that does not end inside a rune the payload goes on as text. */
  lemma AfterToken(b: bytes, inTag: bool)
    requires b != [] && Valid(b)
    requires First(b, inTag).Name? ==> b[0] < 0x80
    ensures Valid(b[|First(b, inTag).Bytes()|..])
  {
    match First(b, inTag)
    case Text(content) => DropAtRuneStart(b, RunTo(b, LT));
    case Value(q, v, closed) => AfterQuotes(b);
    case _ => AfterOne(b);
  }

  lemma AfterQuotes(b: bytes)
    requires b != [] && Valid(b) && IsQuote(b[0])
    ensures Valid(b[|First(b, true).Bytes()|..])
  {
    var n := RunTo(b[1..], b[0]);
    QuotesLength(b, n);
    if 1 + n < |b| {
      assert b[1 + n] == b[1..][n];
      AfterValue(b, 1 + n);
    } else {
      assert b[|b|..] == [];
    }
  }

  lemma QuotesLength(b: bytes, n: nat)
    requires b != [] && IsQuote(b[0]) && n == RunTo(b[1..], b[0])
    ensures |First(b, true).Bytes()| == if 1 + n < |b| then n + 2 else |b|
  {}

  predicate Named(a: bytes) { forall i :: 0 <= i < |a| ==> a[i] != GT && !IsQuote(a[i]) }

  lemma OneName(c: byte, b: bytes)
    requires c != GT && !IsQuote(c)
    ensures Emitted(Lex([c] + b, true)) == [c] + Emitted(Lex(b, true))
  {
    assert ([c] + b)[1..] == b;
    LexStep([c] + b, true);
  }

  /** Inside a tag bytes are kept, one by one, up to a quote or the end of the tag. */
  lemma {:induction false} NamesThen(a: bytes, rest: bytes)
    requires Named(a)
    ensures Emitted(Lex(a + rest, true)) == a + Emitted(Lex(rest, true))
  {
    if a == [] {
      assert [] + rest == rest && [] + Emitted(Lex(rest, true)) == Emitted(Lex(rest, true));
    } else {
      NamesThen(a[1..], rest);
      OneName(a[0], a[1..] + rest);
      OneMore(a, rest);
      OneMore(a, Emitted(Lex(rest, true)));
    }
  }

  lemma OneMore(a: bytes, rest: bytes)
    requires a != []
    ensures [a[0]] + (a[1..] + rest) == a + rest
  {}

  /** The rendering of text is text. */
  lemma {:induction false} EmittedValid(b: bytes, inTag: bool)
    requires Valid(b)
    ensures Valid(Emitted(Lex(b, inTag)))
    decreases |b|
  {
    if b != [] {
      var t := First(b, inTag);
      if t.Name? && b[0] >= 0x80 {
        var k := DecodeRune(b).size;
        FirstRuneValid(b);
        Rejoined(b, k);
        NamesThen(b[..k], b[k..]);
        EmittedValid(b[k..], true);
        ValidAppend(b[..k], Emitted(Lex(b[k..], true)));
      } else {
        AfterToken(b, inTag);
        EmittedValid(b[|t.Bytes()|..], After(t, inTag));
        EmitValid(t);
        LexStep(b, inTag);
        ValidAppend(Emit(t), Emitted(Lex(b[|t.Bytes()|..], After(t, inTag))));
      }
    }
  }

  lemma DotsOrOne(t: Token)
    ensures |Emit(t)| <= 1 || Emit(t) == Dots() || Emit(t) == QuotedDots()
  {}

  lemma DotsStart(e: bytes, n: nat)
    requires e == Dots() || e == QuotedDots()
    requires n < |e|
    ensures RuneStart(e[n])
  {
    DotsAre();
  }

  /** A place where no token ends is inside dots, so a rune starts there. */
  lemma {:induction false} InsideDots(ts: seq<Token>, n: nat)
    requires n < |Emitted(ts)| && !EndsAt(ts, n)
    ensures RuneStart(Emitted(ts)[n])
    decreases |ts|
  {
    if n >= |Emit(ts[0])| {
      EndsOne(ts, n);
      EmittedByte(ts, n);
      InsideDots(ts[1..], n - |Emit(ts[0])|);
    } else {
      DotsOrOne(ts[0]);
      DotsStart(Emit(ts[0]), n);
      EmittedByte(ts, n);
    }
  }

  lemma EmittedByte(ts: seq<Token>, n: nat)
    requires ts != [] && n < |Emitted(ts)|
    ensures var k := |Emit(ts[0])|;
      if n < k then Emitted(ts)[n] == Emit(ts[0])[n]
      else n - k < |Emitted(ts[1..])| && Emitted(ts)[n] == Emitted(ts[1..])[n - k]
  {}

  // ----- the theorems

  /** The mark is there exactly when the rendering is longer than 512 bytes, or is just as long and the
      payload ends in a blank text that shows nothing. */
  predicate Marked(b: bytes) {
    var ts := Lex(b, false);
    |Emitted(ts)| > MAX_REDACTED_PAYLOAD || (|Emitted(ts)| == MAX_REDACTED_PAYLOAD && BlankEnd(ts))
  }

  function Front(e: bytes): bytes { if |e| > MAX_REDACTED_PAYLOAD then e[..MAX_REDACTED_PAYLOAD] else e }

  /** A payload of text is shown as the first 512 bytes of its rendering, all of them, and the mark if it
      is marked: the dropping of ill-formed bytes never drops any. */
  lemma TextAtBound(b: bytes)
    requires Valid(b)
    ensures Redacted(b) == Front(Emitted(Lex(b, false))) + (if Marked(b) then TruncatedMark() else [])
  {
    var ts, e := Lex(b, false), Emitted(Lex(b, false));
    if |e| < MAX_REDACTED_PAYLOAD {
      RedactedIsEmitted(b);
      assert e + [] == e;
    } else if |e| == MAX_REDACTED_PAYLOAD {
      RedactedExactly(b);
    } else {
      RedactedBeyond(b);
      if !EndsAt(ts, MAX_REDACTED_PAYLOAD) {
        EmittedValid(b, false);
        NothingDropped(ts, MAX_REDACTED_PAYLOAD);
      }
    }
  }

  lemma NothingDropped(ts: seq<Token>, n: nat)
    requires Valid(Emitted(ts)) && n < |Emitted(ts)| && !EndsAt(ts, n)
    ensures DropInvalid(Emitted(ts)[..n]) == Emitted(ts)[..n]
  {
    InsideDots(ts, n);
    CutAtRuneStart(Emitted(ts), n);
    DropInvalidIs(Emitted(ts)[..n]);
  }

  lemma MarkKeepsIff(x: bytes)
    ensures Valid(x + TruncatedMark()) <==> Valid(x)
  {
    var mark := TruncatedMark();
    Utf16.AsciiValid(mark);
    assert (x + mark)[|x|] == mark[0] && (x + mark)[..|x|] == x;
    if Valid(x + mark) {
      CutAtRuneStart(x + mark, |x|);
    }
    if Valid(x) {
      ValidAppend(x, mark);
    }
  }

  lemma CutValidIff(e: bytes, n: nat)
    requires Valid(e) && n < |e|
    ensures Valid(e[..n]) <==> RuneStart(e[n])
  {
    if RuneStart(e[n]) {
      CutAtRuneStart(e, n);
    }
    if Valid(e[..n]) {
      Rejoined(e, n);
      ValidRest(e[..n], e[n..]);
      assert WellFormedAt(e[n..]) && e[n..][0] == e[n];
    }
  }

  /** So no partial rune is backed off: the result of a payload of text is text exactly when the bound does
      not fall inside a rune of the rendering, that is of a tag. */
  lemma TextIff(b: bytes)
    requires Valid(b)
    ensures var e := Emitted(Lex(b, false));
      Valid(Redacted(b)) <==> |e| <= MAX_REDACTED_PAYLOAD || RuneStart(e[MAX_REDACTED_PAYLOAD])
  {
    var e := Emitted(Lex(b, false));
    TextAtBound(b);
    EmittedValid(b, false);
    MarkKeepsIff(Front(e));
    assert Front(e) + [] == Front(e);
    if |e| > MAX_REDACTED_PAYLOAD {
      CutValidIff(e, MAX_REDACTED_PAYLOAD);
    }
  }

  // ----- one text and one value

  lemma InTag(b: bytes)
    ensures Emitted(Lex([LT] + b, false)) == [LT] + Emitted(Lex(b, true))
  {
    assert ([LT] + b)[1..] == b;
    LexStep([LT] + b, false);
  }

  lemma TextEmits(b: bytes)
    requires b != [] && LT !in b
    ensures Emitted(Lex(b, false)) == Emit(Text(b))
  {
    assert RunTo(b, LT) == |b| && b[..|b|] == b && b[|b|..] == [];
    LexStep(b, false);
    assert Emit(Text(b)) + [] == Emit(Text(b));
  }

  lemma TextShown(b: bytes)
    requires b != [] && LT !in b
    ensures Redacted(b) == if TrimSpace(b) == [] then [] else Dots()
  {
    TextEmits(b);
    RedactedIsEmitted(b);
  }

  /** A payload without tags shows nothing when it is spaces, and three dots otherwise. */
  lemma TextAlone(b: bytes)
    requires b != [] && LT !in b
    ensures Redacted(b) == if exists rs :: T.AllSpaces(rs) && b == Encode(rs) then [] else [46, 46, 46]
  {
    TextShown(b);
    T.BlankIff(b);
    DotsAre();
  }

  lemma ValueThen(q: byte, v: bytes, rest: bytes)
    requires IsQuote(q) && q !in v
    ensures Emitted(Lex([q] + v + [q] + rest, true)) == QuotedDots() + Emitted(Lex(rest, true))
  {
    var b := [q] + v + [q] + rest;
    FirstOfValue(q, v, true, rest);
    assert Value(q, v, true).Bytes() + rest == b && b[|v| + 2..] == rest;
    LexStep(b, true);
  }

  lemma ClosedAtLast()
    ensures Emitted(Lex([GT], true)) == [GT]
  {
    LexStep([GT], true);
  }

  lemma ValueEmits(name: bytes, q: byte, v: bytes)
    requires Named(name) && IsQuote(q) && q !in v
    ensures Emitted(Lex([LT] + (name + ([q] + v + [q] + [GT])), false)) == [LT] + (name + (QuotedDots() + [GT]))
  {
    InTag(name + ([q] + v + [q] + [GT]));
    NamesThen(name, [q] + v + [q] + [GT]);
    ValueThen(q, v, [GT]);
    ClosedAtLast();
  }

  /** A tag with one value shows everything but the value, which is three dots in double quotes whatever
      the value was and whatever its quotes; `name` is all that stands before them. */
  lemma ValueAlone(name: bytes, q: byte, v: bytes)
    requires |name| <= 500 && forall i :: 0 <= i < |name| ==> name[i] != 34 && name[i] != 39 && name[i] != GT
    requires (q == 34 || q == 39) && q !in v
    ensures Redacted([LT] + (name + ([q] + v + [q] + [GT]))) == [LT] + (name + [34, 46, 46, 46, 34, GT])
  {
    ValueEmits(name, q, v);
    RedactedIsEmitted([LT] + (name + ([q] + v + [q] + [GT])));
    QuotedBytes();
  }

  lemma QuotedBytes()
    ensures QuotedDots() + [GT] == [34, 46, 46, 46, 34, GT]
  {}

  // ----- a tag whose name the bound splits

  /** A tag of 510 letters and then a letter of two bytes. */
  function Letters(n: nat): bytes { seq(n, _ => 97) }
  function SplitTag(): bytes { [LT] + Letters(510) + [0xC3, 0xA9, GT] }

  lemma SplitEnd()
    ensures Valid([0xC3, 0xA9, GT]) && Emitted(Lex([0xC3, 0xA9, GT], true)) == [0xC3, 0xA9, GT]
  {
    var b: bytes := [0xC3, 0xA9, GT];
    assert b[2..] == [GT] && b == [0xC3, 0xA9] + [GT];
    NamesThen([0xC3, 0xA9], [GT]);
    LexStep([GT], true);
  }

  lemma LettersAre(n: nat)
    ensures Named(Letters(n)) && Valid([LT] + Letters(n))
  {
    Utf16.AsciiValid([LT] + Letters(n));
  }

  lemma SplitApart(letters: bytes, end: bytes)
    requires Named(letters) && Valid([LT] + letters) && Valid(end) && Emitted(Lex(end, true)) == end
    ensures Valid([LT] + letters + end) && Emitted(Lex([LT] + letters + end, false)) == [LT] + letters + end
  {
    ValidAppend([LT] + letters, end);
    NamesThen(letters, end);
    InTag(letters + end);
    Grown([LT], letters, end);
  }

  lemma SplitTagEmits()
    ensures Valid(SplitTag()) && Emitted(Lex(SplitTag(), false)) == SplitTag()
  {
    SplitEnd();
    LettersAre(510);
    SplitApart(Letters(510), [0xC3, 0xA9, GT]);
  }

  /** Its rendering is cut within that letter, and is no text. */
  lemma SplitExample()
    ensures Valid(SplitTag()) && !Valid(Redacted(SplitTag()))
    ensures Redacted(SplitTag()) == [LT] + Letters(510) + [0xC3] + TruncatedMark()
  {
    SplitTagEmits();
    SplitTagCut(SplitTag());
    TextAtBound(SplitTag());
    TextIff(SplitTag());
  }

  lemma SplitTagCut(e: bytes)
    requires e == SplitTag()
    ensures |e| == 514 && e[512] == 0xA9 && e[..512] == [LT] + Letters(510) + [0xC3]
  {}
}
