/** Sequence helpers independent of the generator's data. */
module Seqs {

  /** The concatenation of `f(x)` for every `x` of `xs`, in order. */
  function ConcatMap<A, B>(xs: seq<A>, f: A -> seq<B>): (r: seq<B>)
    ensures |xs| == 0 ==> r == []
  {
    if |xs| == 0 then [] else f(xs[0]) + ConcatMap(xs[1..], f)
  }

  /** A single element contributes exactly its own image. */
  lemma ConcatMapSingle<A, B>(x: A, f: A -> seq<B>)
    ensures ConcatMap([x], f) == f(x)
  {
    assert [x][1..] == [];
  }

  /** Concatenation distributes over appending the inputs. */
  lemma {:induction false} ConcatMapAppend<A, B>(a: seq<A>, b: seq<A>, f: A -> seq<B>)
    ensures ConcatMap(a + b, f) == ConcatMap(a, f) + ConcatMap(b, f)
    decreases |a|
  {
    if |a| == 0 {
      assert a + b == b;
    } else {
      assert (a + b)[0] == a[0];
      assert (a + b)[1..] == a[1..] + b;
      ConcatMapAppend(a[1..], b, f);
    }
  }

  /** Every element of the result is an element of the image of some input. */
  lemma {:induction false} ConcatMapOrigin<A, B>(xs: seq<A>, f: A -> seq<B>, k: nat)
    requires k < |ConcatMap(xs, f)|
    ensures exists j, i :: 0 <= j < |xs| && 0 <= i < |f(xs[j])| && ConcatMap(xs, f)[k] == f(xs[j])[i]
    decreases |xs|
  {
    var first := f(xs[0]);
    if k < |first| {
      assert ConcatMap(xs, f)[k] == f(xs[0])[k];
    } else {
      ConcatMapOrigin(xs[1..], f, k - |first|);
      var j, i :| 0 <= j < |xs[1..]| && 0 <= i < |f(xs[1..][j])|
        && ConcatMap(xs[1..], f)[k - |first|] == f(xs[1..][j])[i];
      assert xs[1..][j] == xs[j + 1];
    }
  }
}
