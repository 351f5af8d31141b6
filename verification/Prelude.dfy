/** Shared vocabulary: bytes, optional values, and sums over sequences. */
module Prelude {
  datatype Option<+T> = None | Some(value: T)

  /** One octet. A Go string or byte slice is a `bytes`. */
  type byte = b: int | 0 <= b < 256
  type bytes = seq<byte>

  /** The octets of an ASCII literal; a character outside ASCII would read as '?'. */
  function Ascii(s: string): (b: bytes)
    ensures |b| == |s|
  {
    seq(|s|, i requires 0 <= i < |s| => if s[i] < 128 as char then s[i] as int else 63)
  }

  // ----- concatenation of a sequence of sequences

  function Flatten<T>(xs: seq<seq<T>>): (r: seq<T>) {
    if xs == [] then [] else xs[0] + Flatten(xs[1..])
  }

  lemma {:induction false} FlattenAppend<T>(xs: seq<seq<T>>, ys: seq<seq<T>>)
    ensures Flatten(xs + ys) == Flatten(xs) + Flatten(ys)
  {
    if xs == [] {
      assert xs + ys == ys;
    } else {
      assert (xs + ys)[1..] == xs[1..] + ys;
      FlattenAppend(xs[1..], ys);
    }
  }

  lemma FlattenSnoc<T>(xs: seq<seq<T>>, y: seq<T>)
    ensures Flatten(xs + [y]) == Flatten(xs) + y
  {
    FlattenAppend(xs, [y]);
    assert Flatten([y]) == y + Flatten<T>([]);
  }

  // ----- weighted sums over a sequence

  function Weigh<T>(s: seq<T>, f: T -> nat): nat {
    if s == [] then 0 else f(s[0]) + Weigh(s[1..], f)
  }

  lemma {:induction false} WeighSplit<T>(s: seq<T>, t: seq<T>, f: T -> nat)
    ensures Weigh(s + t, f) == Weigh(s, f) + Weigh(t, f)
  {
    if s == [] {
      assert s + t == t;
    } else {
      assert (s + t)[1..] == s[1..] + t;
      WeighSplit(s[1..], t, f);
    }
  }

  lemma WeighSnoc<T>(s: seq<T>, x: T, f: T -> nat)
    ensures Weigh(s + [x], f) == Weigh(s, f) + f(x)
  {
    WeighSplit(s, [x], f);
    assert Weigh([x], f) == f(x) + Weigh([x][1..], f);
  }

  /** Replacing one element changes the sum by the difference of the two weights. */
  lemma {:induction false} WeighUpdate<T>(s: seq<T>, i: nat, x: T, f: T -> nat)
    requires i < |s|
    ensures Weigh(s[i := x], f) == Weigh(s, f) - f(s[i]) + f(x)
    decreases s
  {
    if i == 0 {
      assert s[i := x][1..] == s[1..];
    } else {
      assert s[i := x][1..] == s[1..][i - 1 := x];
      WeighUpdate(s[1..], i - 1, x, f);
    }
  }

  /** A sum whose terms are all at most `bound` is at most the length times `bound`. */
  lemma {:induction false} WeighBound<T>(s: seq<T>, f: T -> nat, bound: nat)
    requires forall i :: 0 <= i < |s| ==> f(s[i]) <= bound
    ensures Weigh(s, f) <= |s| * bound
  {
    if s != [] {
      WeighBound(s[1..], f, bound);
      assert |s| * bound == bound + |s[1..]| * bound;
    }
  }

  lemma {:induction false} WeighZero<T>(s: seq<T>, f: T -> nat)
    requires forall i :: 0 <= i < |s| ==> f(s[i]) == 0
    ensures Weigh(s, f) == 0
  {
    if s != [] {
      WeighZero(s[1..], f);
    }
  }
}
