// Elements of a fixed C++ type seen as their raw byte representation.
// An element of width w is a sequence of exactly w bytes, so copying raw
// memory between element types becomes concatenation and re-splitting.

module Bytes {

  newtype byte = x: int | 0 <= x < 256

  /** Every element is exactly w bytes wide (the elements share one sizeof). */
  ghost predicate Uniform(xs: seq<seq<byte>>, w: nat)
  {
    forall i :: 0 <= i < |xs| ==> |xs[i]| == w
  }

  /** The raw bytes of consecutive elements in memory. */
  function Flatten(xs: seq<seq<byte>>): seq<byte>
  {
    if xs == [] then [] else xs[0] + Flatten(xs[1..])
  }

  /** Reinterprets a run of bytes as consecutive whole elements of width w;
      a trailing partial element is not an element. */
  function Split(b: seq<byte>, w: nat): seq<seq<byte>>
    requires w >= 1
    decreases |b|
  {
    if |b| < w then [] else [b[..w]] + Split(b[w..], w)
  }

  lemma {:induction false} FlattenLength(xs: seq<seq<byte>>, w: nat)
    requires Uniform(xs, w)
    ensures |Flatten(xs)| == |xs| * w
  {
    if xs != [] {
      FlattenLength(xs[1..], w);
      assert |xs| * w == w + (|xs| - 1) * w;
    }
  }

  lemma {:induction false} FlattenConcat(a: seq<seq<byte>>, b: seq<seq<byte>>)
    ensures Flatten(a + b) == Flatten(a) + Flatten(b)
  {
    if a != [] {
      assert (a + b)[1..] == a[1..] + b;
      FlattenConcat(a[1..], b);
    } else {
      assert a + b == b;
    }
  }

  /** k*w bytes split into exactly k elements of width w, and putting them
      back together gives the same bytes. */
  lemma {:induction false} SplitFlatten(b: seq<byte>, w: nat, k: nat)
    requires w >= 1 && |b| == k * w
    ensures Uniform(Split(b, w), w)
    ensures |Split(b, w)| == k
    ensures Flatten(Split(b, w)) == b
  {
    if k != 0 {
      assert k * w == w + (k - 1) * w;
      SplitFlatten(b[w..], w, k - 1);
      assert Split(b, w)[1..] == Split(b[w..], w);
    }
  }

  /** Elements that are all w wide survive a trip through their bytes. */
  lemma {:induction false} FlattenSplit(xs: seq<seq<byte>>, w: nat)
    requires w >= 1 && Uniform(xs, w)
    ensures Split(Flatten(xs), w) == xs
  {
    FlattenLength(xs, w);
    if xs != [] {
      FlattenSplit(xs[1..], w);
      var f := Flatten(xs);
      assert f[..w] == xs[0];
      assert f[w..] == Flatten(xs[1..]);
      assert xs == [xs[0]] + xs[1..];
    }
  }

  /** Splitting a run that starts with k whole elements splits those
      elements off first. */
  lemma {:induction false} SplitConcat(a: seq<byte>, b: seq<byte>, w: nat, k: nat)
    requires w >= 1 && |a| == k * w
    ensures Split(a + b, w) == Split(a, w) + Split(b, w)
  {
    if k == 0 {
      assert a + b == b;
    } else {
      assert k * w == w + (k - 1) * w;
      assert (a + b)[..w] == a[..w];
      assert (a + b)[w..] == a[w..] + b;
      SplitConcat(a[w..], b, w, k - 1);
    }
  }
}
