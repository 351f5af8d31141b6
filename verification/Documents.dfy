/** Recognition over the bytes of a document: where its root element may stand, what may come before it
    and how its start tag may go on. */
module Documents {
  import opened Prelude
  import opened Utf8
  import opened ByteSlices
  import opened Trimming
  import opened Classify

  const QUESTION: byte := 63

  function DeclarationStart(): bytes { Ascii("<?xml") }
  function DeclarationEnd(): bytes { [QUESTION, GT] }

  /** An XML declaration with `d` between its ends. */
  function Declaration(d: bytes): bytes { DeclarationStart() + d + DeclarationEnd() }

  predicate EndsOnce(d: bytes) { forall k :: 0 <= k < |d| - 1 ==> !(d[k] == QUESTION && d[k + 1] == GT) }

  lemma DeclarationBytes()
    ensures DeclarationStart() == [LT, QUESTION, 120, 109, 108]
    ensures Ascii("?>") == DeclarationEnd()
  {}

  lemma DeclarationAt(d: bytes, i: nat)
    requires i < |Declaration(d)|
    ensures Declaration(d)[i] ==
      if i < 5 then DeclarationStart()[i] else if i < 5 + |d| then d[i - 5] else DeclarationEnd()[i - 5 - |d|]
  {}

  /** The declaration's end is where it is first met. */
  lemma FirstEnd(d: bytes, rest: bytes)
    requires EndsOnce(d)
    ensures Index(Declaration(d) + rest, DeclarationEnd()) == Some(5 + |d|)
  {
    var b, p := Declaration(d) + rest, DeclarationEnd();
    DeclarationBytes();
    forall i | 0 <= i < |Declaration(d)| ensures b[i] == Declaration(d)[i] {}
    assert OccursAt(b, p, 5 + |d|) by {
      DeclarationAt(d, 5 + |d|);
      DeclarationAt(d, 6 + |d|);
      assert b[5 + |d|..7 + |d|] == p;
    }
    forall k | 0 <= k < 5 + |d| ensures !OccursAt(b, p, k) {
      NoEndAt(d, rest, k);
    }
  }

  lemma NoEndAt(d: bytes, rest: bytes, k: nat)
    requires EndsOnce(d) && k < 5 + |d|
    ensures !OccursAt(Declaration(d) + rest, DeclarationEnd(), k)
  {
    var b, p := Declaration(d) + rest, DeclarationEnd();
    DeclarationBytes();
    DeclarationAt(d, k);
    DeclarationAt(d, k + 1);
    assert b[k] == Declaration(d)[k] && b[k + 1] == Declaration(d)[k + 1];
    Unlike(b, p, k);
  }

  lemma Unlike(b: bytes, p: bytes, k: nat)
    requires |p| == 2 && k + 2 <= |b| && (b[k] != p[0] || b[k + 1] != p[1])
    ensures !OccursAt(b, p, k)
  {
    assert b[k..k + 2][0] == b[k] && b[k..k + 2][1] == b[k + 1];
  }

  /** A text that begins with '<' or another byte that is no space, and ends with '>', keeps both ends. */
  lemma TrimTail(x: bytes, y: bytes)
    requires x != [] && x[|x| - 1] == GT && x[0] == LT
    ensures TrimSpace(x + y) == x + TrimRight(y)
  {
    BeginsLt(x + y);
    RightAfter(x, y);
  }

  lemma BeginsLt(b: bytes)
    requires b != [] && b[0] == LT
    ensures TrimLeft(b) == b && BeginsBare(b)
  {
    assert DecodeRune(b) == Decoded(LT as rune, 1, true);
  }

  lemma DeclarationEnds(d: bytes)
    ensures |Declaration(d)| == 7 + |d| && Declaration(d)[0] == LT && Declaration(d)[6 + |d|] == GT
  {
    DeclarationBytes();
  }

  lemma AtRootTrimmed(b: bytes, d: bytes, y: bytes)
    requires EndsOnce(d) && TrimSpace(b) == Declaration(d) + y
    ensures AtRoot(b) == TrimSpace(y)
  {
    DeclarationBytes();
    FirstEnd(d, y);
    StartsDeclared(d, y);
    DeclarationEnds(d);
    assert (Declaration(d) + y)[7 + |d|..] == y;
  }

  lemma AtRootDeclared(d: bytes, doc: bytes)
    requires EndsOnce(d)
    ensures AtRoot(Declaration(d) + doc) == TrimSpace(doc)
  {
    DeclarationEnds(d);
    TrimTail(Declaration(d), doc);
    AtRootTrimmed(Declaration(d) + doc, d, TrimRight(doc));
    TrimRightFirst(doc);
  }

  lemma StartsDeclared(d: bytes, y: bytes)
    ensures Ascii("<?xml") <= Declaration(d) + y
  {
    assert Declaration(d) + y == DeclarationStart() + (d + DeclarationEnd() + y);
  }

  /** An XML declaration before a document does not change what it is taken for, whatever the declaration
      says and whatever the document, well formed or not, as long as it has no second declaration. */
  lemma DeclarationSkipped(d: bytes, doc: bytes)
    requires EndsOnce(d) && !(Ascii("<?xml") <= TrimSpace(doc))
    ensures ClassifyDecoded(Declaration(d) + doc) == ClassifyDecoded(doc)
    ensures RootName(Declaration(d) + doc) == RootName(doc)
  {
    AtRootDeclared(d, doc);
    SameRoot(Declaration(d) + doc, doc);
  }

  lemma SameRoot(a: bytes, b: bytes)
    requires AtRoot(a) == AtRoot(b)
    ensures ClassifyDecoded(a) == ClassifyDecoded(b) && RootName(a) == RootName(b)
  {
    if !ClassifyDecoded(a).Unknown? {
      SameDialect(a, b, ClassifyDecoded(a));
    }
    if !ClassifyDecoded(b).Unknown? {
      SameDialect(b, a, ClassifyDecoded(b));
    }
  }

  lemma SameDialect(a: bytes, b: bytes, d: Dialect)
    requires RootName(a) == RootName(b) && ClassifyDecoded(a) == d && !d.Unknown?
    ensures ClassifyDecoded(b) == d
  {
    ClassifyIffRoot(a, d);
    ClassifyIffRoot(b, d);
  }

  /** The bytes that end an element's name: '>', '/', space, tab, carriage return, line feed. */
  predicate Ending(c: byte) { c == 62 || c == 47 || c == 32 || c == 9 || c == 13 || c == 10 }

  /** A start tag from its '<' on: the name, a byte that ends it, and a '>' there or later. */
  predicate StartTag(name: bytes, c: byte, rest: bytes) {
    && (forall i :: 0 <= i < |name| ==> !Ending(name[i]))
    && (name != [] ==> name[0] != QUESTION)
    && Ending(c) && GT in [c] + rest
  }

  lemma FirstClose(b: bytes) returns (g: nat)
    requires GT in b
    ensures g < |b| && b[g] == GT
  {
    g :| g < |b| && b[g] == GT;
  }

  lemma NameOf(name: bytes, c: byte, rest: bytes)
    requires StartTag(name, c, rest)
    ensures NameAt([LT] + name + [c] + rest) == Some(name)
  {
    var at := [LT] + name + [c] + rest;
    var n := 1 + |name|;
    assert at[n] == c;
    forall i | 1 <= i < n ensures !EndsName(at[i]) {
      assert at[i] == name[i - 1];
    }
    NameEnds(at, n);
    assert at[1..n] == name && at[n..] == [c] + rest;
  }

  lemma TagStart(name: bytes, c: byte, rest: bytes)
    requires StartTag(name, c, rest)
    ensures !(Ascii("<?xml") <= [LT] + name + [c] + rest)
  {
    var b := [LT] + name + [c] + rest;
    DeclarationBytes();
    assert b[1] == if name == [] then c else name[0];
  }

  lemma TrimmedTag(name: bytes, c: byte, rest: bytes) returns (left: bytes)
    requires StartTag(name, c, rest)
    ensures TrimSpace([LT] + name + [c] + rest) == [LT] + name + [c] + left && StartTag(name, c, left)
  {
    var g := FirstClose([c] + rest);
    left := TrimmedRest([LT] + name + [c], c, rest, g);
  }

  lemma TrimmedRest(tag: bytes, c: byte, rest: bytes, g: nat) returns (left: bytes)
    requires tag != [] && tag[0] == LT && tag[|tag| - 1] == c && g <= |rest| && ([c] + rest)[g] == GT
    ensures TrimSpace(tag + rest) == tag + left && GT in [c] + left
  {
    if g == 0 {
      left := CloseAtOnce(tag, rest);
    } else {
      left := CloseLater(tag, c, rest, g);
    }
  }

  lemma CloseAtOnce(tag: bytes, rest: bytes) returns (left: bytes)
    requires tag != [] && tag[0] == LT && tag[|tag| - 1] == GT
    ensures TrimSpace(tag + rest) == tag + left && GT in [GT] + left
  {
    TrimTail(tag, rest);
    left := TrimRight(rest);
    assert ([GT] + left)[0] == GT;
  }

  lemma CloseLater(tag: bytes, c: byte, rest: bytes, g: nat) returns (left: bytes)
    requires tag != [] && tag[0] == LT && 0 < g <= |rest| && rest[g - 1] == GT
    ensures TrimSpace(tag + rest) == tag + left && GT in [c] + left
  {
    var a, b := rest[..g], rest[g..];
    assert rest == a + b;
    TrimAfter(tag, a, b);
    KeepsClose(c, a, TrimRight(b));
    left := a + TrimRight(b);
  }

  lemma TrimAfter(tag: bytes, a: bytes, b: bytes)
    requires tag != [] && tag[0] == LT && a != [] && a[|a| - 1] == GT
    ensures TrimSpace(tag + (a + b)) == tag + (a + TrimRight(b))
  {
    Regrouped(tag, a, b);
    Regrouped(tag, a, TrimRight(b));
    TrimTail(tag + a, b);
  }

  lemma KeepsClose(c: byte, a: bytes, b: bytes)
    requires a != [] && a[|a| - 1] == GT
    ensures GT in [c] + (a + b)
  {
    assert ([c] + (a + b))[|a|] == GT;
  }

  lemma Regrouped(a: bytes, b: bytes, c: bytes)
    ensures (a + b) + c == a + (b + c)
  {}

  /** A document that begins, after any spaces, with a start tag has that tag's name for its root. */
  lemma RootOfTag(pre: seq<rune>, name: bytes, c: byte, rest: bytes)
    requires AllSpaces(pre) && StartTag(name, c, rest)
    ensures RootName(Encode(pre) + ([LT] + name + [c] + rest)) == Some(name)
    ensures !(Ascii("<?xml") <= TrimSpace(Encode(pre) + ([LT] + name + [c] + rest)))
  {
    var tag := [LT] + name + [c] + rest;
    assert DecodeRune(tag) == Decoded(LT as rune, 1, true);
    LeftOf(pre, tag);
    LeftOf([], tag);
    assert Encode([]) + tag == tag;
    var left := TrimmedTag(name, c, rest);
    TagStart(name, c, left);
    NameOf(name, c, left);
  }

  /** So a document of a known dialect is recognised behind any spaces, with or without a declaration. */
  lemma Recognised(d: Dialect, declaration: bytes, pre: seq<rune>, c: byte, rest: bytes)
    requires !d.Unknown? && EndsOnce(declaration) && AllSpaces(pre) && StartTag(d.Root(), c, rest)
    ensures var doc := Encode(pre) + ([LT] + d.Root() + [c] + rest);
      ClassifyDecoded(doc) == d && ClassifyDecoded(Declaration(declaration) + doc) == d
  {
    var doc := Encode(pre) + ([LT] + d.Root() + [c] + rest);
    RootOfTag(pre, d.Root(), c, rest);
    ClassifyIffRoot(doc, d);
    DeclarationSkipped(declaration, doc);
  }
}
