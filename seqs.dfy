/** Generic sequence helpers: applying a function to every element, and
    concatenating a sequence of blocks. */
module Seqs {

  /** `f` applied to every element, in order. */
  function MapSeq<T, U>(f: T -> U, xs: seq<T>): (ys: seq<U>)
    ensures |ys| == |xs|
  {
    seq(|xs|, k requires 0 <= k < |xs| => f(xs[k]))
  }

  /** One more element adds its image at the end. */
  lemma MapSeqStep<T, U>(front: seq<U>, f: T -> U, xs: seq<T>, i: nat)
    requires i < |xs|
    ensures front + MapSeq(f, xs[..i + 1]) == front + MapSeq(f, xs[..i]) + [f(xs[i])]
  {
    var ys, longer := MapSeq(f, xs[..i]), MapSeq(f, xs[..i + 1]);
    forall k | 0 <= k < i ensures longer[k] == ys[k] {
      assert xs[..i + 1][k] == xs[..i][k];
    }
    assert longer == ys + [f(xs[i])];
    AppendAssoc(front, ys, [f(xs[i])]);
  }

  lemma AppendAssoc<T>(a: seq<T>, b: seq<T>, c: seq<T>)
    ensures a + (b + c) == a + b + c
  {
  }

  /** The blocks one after another. */
  function Flatten<T>(blocks: seq<seq<T>>): seq<T> {
    if blocks == [] then [] else Flatten(blocks[..|blocks| - 1]) + blocks[|blocks| - 1]
  }

  /** One more block adds its elements at the end. */
  lemma FlattenStep<T>(front: seq<T>, blocks: seq<seq<T>>, i: nat)
    requires i < |blocks|
    ensures front + Flatten(blocks[..i + 1]) == front + Flatten(blocks[..i]) + blocks[i]
  {
    assert blocks[..i + 1][..i] == blocks[..i];
  }

  /** A single block flattens to itself. */
  lemma FlattenSingle<T>(b: seq<T>)
    ensures Flatten([b]) == b
  {
    assert [b][..0] == [];
  }

  /** Flattening is compatible with concatenation: the blocks of the first
      part come before those of the second. */
  lemma {:induction false} FlattenAppend<T>(b1: seq<seq<T>>, b2: seq<seq<T>>)
    ensures Flatten(b1 + b2) == Flatten(b1) + Flatten(b2)
    decreases |b2|
  {
    if b2 == [] {
      assert b1 + b2 == b1;
    } else {
      var n := |b2| - 1;
      assert (b1 + b2)[..|b1 + b2| - 1] == b1 + b2[..n];
      FlattenAppend(b1, b2[..n]);
    }
  }

}
