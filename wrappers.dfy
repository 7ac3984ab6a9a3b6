/** Option and Result, used wherever the program returns None or raises. */
module Wrappers {

  datatype Option<+T> = None | Some(value: T) {
    /** The value, or `default` when there is none (Python's `x or default`, `d.get(k, default)`). */
    function GetOr(default: T): T {
      match this
      case Some(v) => v
      case None => default
    }
  }

  datatype Result<+T, +E> = Success(value: T) | Failure(error: E)

  /** `xs` is a prefix of `ys`. */
  predicate IsPrefix<T(==)>(xs: seq<T>, ys: seq<T>) {
    |xs| <= |ys| && xs == ys[..|xs|]
  }

  /** A prefix of a prefix is a prefix. */
  lemma PrefixTrans<T>(xs: seq<T>, ys: seq<T>, zs: seq<T>)
    requires IsPrefix(xs, ys) && IsPrefix(ys, zs)
    ensures IsPrefix(xs, zs)
  {
    assert zs[..|xs|] == zs[..|ys|][..|xs|];
  }

  /** A sequence is a prefix of itself and of itself extended by one element. */
  lemma PrefixSnoc<T>(xs: seq<T>, x: T)
    ensures IsPrefix(xs, xs) && IsPrefix(xs, xs + [x])
  {
    assert (xs + [x])[..|xs|] == xs;
  }

  /** Appending to a concatenation, stated for any element type. */
  lemma SnocAssoc<T>(a: seq<T>, b: seq<T>, x: T)
    ensures a + (b + [x]) == (a + b) + [x]
  {
  }

  /** A slice grown by the next element. */
  lemma SliceSnoc<T>(xs: seq<T>, lo: nat, hi: nat)
    requires lo <= hi < |xs|
    ensures xs[lo..hi] + [xs[hi]] == xs[lo..hi + 1]
  {
  }

  /** Dropping the element just appended gives back the sequence. */
  lemma SnocPrefix<T>(a: seq<T>, x: T)
    ensures (a + [x])[..|a|] == a
  {
  }

  lemma AppendAssoc<T>(a: seq<T>, b: seq<T>, c: seq<T>)
    ensures (a + b) + c == a + (b + c)
  {
  }

  lemma AppendEmpty<T>(a: seq<T>)
    ensures a + [] == a
  {
  }

  /** A non-empty `b` is its front and its last element, and so is `a + b` after `a`. */
  lemma AppendSnoc<T>(a: seq<T>, b: seq<T>)
    requires b != []
    ensures b == b[..|b| - 1] + [b[|b| - 1]]
    ensures a + b == (a + b[..|b| - 1]) + [b[|b| - 1]]
  {
  }

  lemma WholePrefix<T>(xs: seq<T>)
    ensures xs[..|xs|] == xs
  {
  }
}
