/** What bytes.TrimSpace leaves: the one part of its input that neither begins nor ends with a space and
    has only spaces before and after it. */
module Trimming {
  import opened Prelude
  import opened Utf8
  import opened ByteSlices

  predicate AllSpaces(rs: seq<rune>) { forall i :: 0 <= i < |rs| ==> IsSpace(rs[i]) }

  predicate BeginsBare(t: bytes) { t == [] || !IsSpace(DecodeRune(t).r) }
  predicate EndsBare(t: bytes) { t == [] || !IsSpace(DecodeLastRune(t).r) }
  predicate Bare(t: bytes) { BeginsBare(t) && EndsBare(t) }

  lemma EncodeCons(r: rune, rs: seq<rune>)
    ensures Encode([r] + rs) == EncodeRune(r) + Encode(rs)
  {
    Utf8.EncodeCons(r, rs);
  }

  lemma EncodeSnoc(rs: seq<rune>, r: rune)
    ensures Encode(rs + [r]) == Encode(rs) + EncodeRune(r)
  {
    EncodeAppend(rs, [r]);
    assert [r][1..] == [];
  }

  // ----- from the left

  lemma SpaceFirst(b: bytes)
    requires b != [] && IsSpace(DecodeRune(b).r)
    ensures b == EncodeRune(DecodeRune(b).r) + b[DecodeRune(b).size..]
  {
    EncodeDecode(b);
    Rejoined(b, DecodeRune(b).size);
  }

  lemma {:induction false} LeftShape(b: bytes) returns (pre: seq<rune>)
    ensures AllSpaces(pre) && b == Encode(pre) + TrimLeft(b)
    decreases |b|
  {
    if b != [] && IsSpace(DecodeRune(b).r) {
      var d := DecodeRune(b);
      var more := LeftShape(b[d.size..]);
      SpaceFirst(b);
      pre := [d.r] + more;
      PutSpace(d.r, more, TrimLeft(b));
    } else {
      pre := [];
      assert [] + b == b;
    }
  }

  lemma PutSpace(r: rune, more: seq<rune>, rest: bytes)
    requires IsSpace(r) && AllSpaces(more)
    ensures AllSpaces([r] + more) && EncodeRune(r) + (Encode(more) + rest) == Encode([r] + more) + rest
  {
    EncodeCons(r, more);
    Associate(EncodeRune(r), Encode(more), rest);
  }

  lemma AddSpace(front: bytes, more: seq<rune>, r: rune)
    requires IsSpace(r) && AllSpaces(more)
    ensures AllSpaces(more + [r]) && (front + Encode(more)) + EncodeRune(r) == front + Encode(more + [r])
  {
    EncodeSnoc(more, r);
    Associate(front, Encode(more), EncodeRune(r));
  }

  lemma Associate(a: bytes, b: bytes, c: bytes)
    ensures a + (b + c) == (a + b) + c
  {}

  lemma {:induction false} LeftOf(pre: seq<rune>, t: bytes)
    requires AllSpaces(pre) && BeginsBare(t)
    ensures TrimLeft(Encode(pre) + t) == t
  {
    if pre == [] {
      assert Encode(pre) + t == t;
    } else {
      LeftOf(pre[1..], t);
      DropSpace(pre[0], Encode(pre[1..]) + t);
      Associate(EncodeRune(pre[0]), Encode(pre[1..]), t);
    }
  }

  lemma DropSpace(r: rune, b: bytes)
    requires IsSpace(r)
    ensures TrimLeft(EncodeRune(r) + b) == TrimLeft(b)
  {
    DecodeEncode(r, b);
    assert (EncodeRune(r) + b)[|EncodeRune(r)|..] == b;
  }

  // ----- from the right

  function FromEnd(b: bytes, j: nat): byte
    requires 1 <= j <= |b|
  {
    b[|b| - j]
  }

  lemma {:induction false} BackUpIs(b: bytes, n: nat, k: nat)
    requires 1 <= n <= k <= 4 && k <= |b|
    requires forall j :: n <= j < k ==> !RuneStart(FromEnd(b, j))
    requires RuneStart(FromEnd(b, k)) || k == 4 || k == |b|
    ensures BackUp(b, n) == k
    decreases k - n
  {
    assert FromEnd(b, n) == b[|b| - n];
    if n < k {
      BackUpIs(b, n + 1, k);
    }
  }

  lemma {:induction false} BackUpFinds(b: bytes, n: nat)
    requires 1 <= n <= |b| && n <= 4
    ensures var m := BackUp(b, n);
      && n <= m && (forall j :: n <= j < m ==> !RuneStart(FromEnd(b, j)))
      && (RuneStart(FromEnd(b, m)) || m == 4 || m == |b|)
    decreases 4 - n
  {
    assert FromEnd(b, n) == b[|b| - n];
    if !(RuneStart(FromEnd(b, n)) || n == 4 || n == |b|) {
      BackUpFinds(b, n + 1);
      var m := BackUp(b, n);
      assert m == BackUp(b, n + 1);
      forall j | n <= j < m ensures !RuneStart(FromEnd(b, j)) {
        assert j == n || n + 1 <= j;
      }
    }
  }

  lemma EncodedBytes(r: rune)
    ensures RuneStart(EncodeRune(r)[0]) && forall i :: 1 <= i < |EncodeRune(r)| ==> Continuation(EncodeRune(r)[i])
  {}

  lemma LastEncoded(x: bytes, r: rune)
    ensures DecodeLastRune(x + EncodeRune(r)) == Decoded(r, |EncodeRune(r)|, true)
  {
    var e := EncodeRune(r);
    var b := x + e;
    EncodedBytes(r);
    forall j | 1 <= j < |e| ensures !RuneStart(FromEnd(b, j)) {
      assert FromEnd(b, j) == FromEnd(e, j);
      assert Continuation(e[|e| - j]);
    }
    assert FromEnd(b, |e|) == e[0];
    BackUpIs(b, 1, |e|);
    assert b[|b| - |e|..] == e;
    DecodeEncode(r, []);
    assert e + [] == e;
  }

  lemma SpaceLast(b: bytes)
    requires b != [] && IsSpace(DecodeLastRune(b).r)
    ensures var d := DecodeLastRune(b); b == b[..|b| - d.size] + EncodeRune(d.r)
  {
    var n := BackUp(b, 1);
    EncodeDecode(b[|b| - n..]);
    Rejoined(b, |b| - n);
  }

  lemma {:induction false} RightShape(b: bytes) returns (post: seq<rune>)
    ensures AllSpaces(post) && b == TrimRight(b) + Encode(post)
    decreases |b|
  {
    if b != [] && IsSpace(DecodeLastRune(b).r) {
      var d := DecodeLastRune(b);
      var more := RightShape(b[..|b| - d.size]);
      SpaceLast(b);
      post := more + [d.r];
      AddSpace(TrimRight(b), more, d.r);
    } else {
      post := [];
      assert b + [] == b;
    }
  }

  lemma {:induction false} RightOf(t: bytes, post: seq<rune>)
    requires AllSpaces(post) && EndsBare(t)
    ensures TrimRight(t + Encode(post)) == t
    decreases |post|
  {
    if post == [] {
      NothingToCut(t);
    } else {
      var front, r := post[..|post| - 1], post[|post| - 1];
      assert front + [r] == post;
      RightOf(t, front);
      OneMoreSpace(t, front, r);
    }
  }

  lemma NothingToCut(t: bytes)
    requires EndsBare(t)
    ensures TrimRight(t + Encode([])) == t
  {
    assert t + [] == t;
  }

  lemma OneMoreSpace(t: bytes, post: seq<rune>, r: rune)
    requires AllSpaces(post) && IsSpace(r) && TrimRight(t + Encode(post)) == t
    ensures TrimRight(t + Encode(post + [r])) == t
  {
    AddSpace(t, post, r);
    DropLast(t + Encode(post), r);
  }

  lemma DropLast(b: bytes, r: rune)
    requires IsSpace(r)
    ensures TrimRight(b + EncodeRune(r)) == TrimRight(b)
  {
    LastEncoded(b, r);
    assert (b + EncodeRune(r))[..|b|] == b;
  }

  // ----- from both sides

  lemma SpacesBegin(post: seq<rune>)
    ensures Encode(post) == [] || RuneStart(Encode(post)[0])
  {
    if post != [] {
      EncodedBytes(post[0]);
    }
  }

  /** Spaces after a text do not change how it begins. */
  lemma BeginsAlike(t: bytes, post: seq<rune>)
    requires t != []
    ensures DecodeRune(t + Encode(post)) == DecodeRune(t)
  {
    SpacesBegin(post);
    FrontAlone(t, Encode(post));
  }

  lemma TrimSpaces(pre: seq<rune>, post: seq<rune>)
    requires AllSpaces(pre) && AllSpaces(post)
    ensures TrimSpace(Encode(pre) + [] + Encode(post)) == []
  {
    JoinSpaces(pre, post);
    LeftOf(pre + post, []);
    assert Encode(pre + post) + [] == Encode(pre + post);
  }

  /** A bare text between spaces is what is left. */
  lemma TrimIs(pre: seq<rune>, t: bytes, post: seq<rune>)
    requires AllSpaces(pre) && AllSpaces(post) && Bare(t)
    ensures TrimSpace(Encode(pre) + t + Encode(post)) == t
  {
    if t == [] {
      TrimSpaces(pre, post);
    } else {
      BeginsAlike(t, post);
      Associate(Encode(pre), t, Encode(post));
      LeftOf(pre, t + Encode(post));
      RightOf(t, post);
    }
  }

  /** Cutting spaces off the end leaves the beginning bare. */
  lemma RightKeepsLeft(b: bytes)
    requires BeginsBare(b)
    ensures BeginsBare(TrimRight(b))
  {
    var post := RightShape(b);
    if TrimRight(b) != [] {
      BeginsAlike(TrimRight(b), post);
    }
  }

  /** What is left is bare, and only spaces were cut. */
  lemma TrimShape(b: bytes) returns (pre: seq<rune>, post: seq<rune>)
    ensures AllSpaces(pre) && AllSpaces(post) && Bare(TrimSpace(b)) && b == Encode(pre) + TrimSpace(b) + Encode(post)
  {
    pre := LeftShape(b);
    post := RightShape(TrimLeft(b));
    RightKeepsLeft(TrimLeft(b));
    Associate(Encode(pre), TrimSpace(b), Encode(post));
  }

  ghost predicate Within(b: bytes, t: bytes) {
    exists pre, post :: AllSpaces(pre) && AllSpaces(post) && b == Encode(pre) + t + Encode(post)
  }

  /** So TrimSpace gives the text that is bare and has only spaces around it, and there is only one. */
  lemma TrimSpaceIff(b: bytes, t: bytes)
    ensures TrimSpace(b) == t <==> Bare(t) && Within(b, t)
  {
    var pre, post := TrimShape(b);
    assert Within(b, TrimSpace(b));
    if Bare(t) && Within(b, t) {
      var p, q :| AllSpaces(p) && AllSpaces(q) && b == Encode(p) + t + Encode(q);
      TrimIs(p, t, q);
    }
  }

  lemma BlankOfSpaces(rs: seq<rune>)
    requires AllSpaces(rs)
    ensures TrimSpace(Encode(rs)) == []
  {
    TrimSpaces(rs, []);
    assert Encode(rs) + [] + Encode([]) == Encode(rs);
  }

  lemma SpacesOfBlank(b: bytes) returns (rs: seq<rune>)
    requires TrimSpace(b) == []
    ensures AllSpaces(rs) && b == Encode(rs)
  {
    var pre, post := TrimShape(b);
    rs := pre + post;
    JoinSpaces(pre, post);
  }

  lemma JoinSpaces(pre: seq<rune>, post: seq<rune>)
    requires AllSpaces(pre) && AllSpaces(post)
    ensures AllSpaces(pre + post) && Encode(pre) + [] + Encode(post) == Encode(pre + post)
  {
    EncodeAppend(pre, post);
    assert Encode(pre) + [] == Encode(pre);
  }

  /** A blank text is spaces and nothing else. */
  lemma BlankIff(b: bytes)
    ensures TrimSpace(b) == [] <==> exists rs :: AllSpaces(rs) && b == Encode(rs)
  {
    if TrimSpace(b) == [] {
      var rs := SpacesOfBlank(b);
    }
    if rs :| AllSpaces(rs) && b == Encode(rs) {
      BlankOfSpaces(rs);
    }
  }

  // ----- trimming after a closing bracket

  /** The last rune after a '>' is told without looking at what comes before. */
  lemma LastAfter(x: bytes, y: bytes)
    requires x != [] && x[|x| - 1] == GT && y != []
    ensures DecodeLastRune(x + y) == DecodeLastRune(y)
  {
    var b, n := x + y, BackUp(y, 1);
    BackUpFinds(y, 1);
    forall j | 1 <= j <= |y| ensures FromEnd(b, j) == FromEnd(y, j) {}
    if RuneStart(FromEnd(y, n)) || n == 4 {
      BackUpIs(b, 1, n);
      assert b[|b| - n..] == y[|y| - n..];
    } else {
      assert FromEnd(b, n + 1) == GT;
      BackUpIs(b, 1, n + 1);
      assert b[|b| - (n + 1)..] == [GT] + y;
      LooseAfter(y);
    }
  }

  lemma LooseAfter(y: bytes)
    requires y != [] && !RuneStart(y[0])
    ensures DecodeRune([GT] + y) == Decoded(GT as rune, 1, true) && DecodeRune(y) == Decoded(RUNE_ERROR, 1, false)
  {
    LooseTail(y);
  }

  /** Continuation bytes by themselves are no rune. */
  lemma LooseTail(y: bytes)
    requires y != [] && !RuneStart(y[0])
    ensures DecodeRune(y) == Decoded(RUNE_ERROR, 1, false)
  {}

  lemma {:induction false} RightAfter(x: bytes, y: bytes)
    requires x != [] && x[|x| - 1] == GT
    ensures TrimRight(x + y) == x + TrimRight(y)
    decreases |y|
  {
    if y == [] {
      assert x + y == x == x[..|x| - 1] + EncodeRune(GT as rune);
      LastEncoded(x[..|x| - 1], GT as rune);
    } else {
      LastAfter(x, y);
      var d := DecodeLastRune(y);
      if IsSpace(d.r) {
        assert (x + y)[..|x + y| - d.size] == x + y[..|y| - d.size];
        RightAfter(x, y[..|y| - d.size]);
      }
    }
  }

  /** The end may be trimmed first. */
  lemma TrimRightFirst(b: bytes)
    ensures TrimSpace(TrimRight(b)) == TrimSpace(b)
  {
    var y := TrimRight(b);
    var post := RightShape(b);
    var pre := LeftShape(y);
    var t := TrimLeft(y);
    EndStaysBare(Encode(pre), t);
    TrimIs(pre, t, post);
    TrimIs(pre, t, []);
    assert Encode(pre) + t + Encode([]) == y;
  }

  lemma EndStaysBare(x: bytes, t: bytes)
    requires EndsBare(x + t)
    ensures EndsBare(t)
  {
    if t != [] && IsSpace(DecodeLastRune(t).r) {
      var d := DecodeLastRune(t);
      SpaceLast(t);
      Associate(x, t[..|t| - d.size], EncodeRune(d.r));
      LastEncoded(x + t[..|t| - d.size], d.r);
    }
  }
}
