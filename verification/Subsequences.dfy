/** Subsequences: what stands in a sequence at ascending positions. */
module Subsequences {
  /** ys is what stands in xs at the ascending positions ks. */
  ghost predicate At<T>(xs: seq<T>, ys: seq<T>, ks: seq<nat>) {
    && |ks| == |ys|
    && (forall i :: 0 <= i < |ks| ==> ks[i] < |xs| && xs[ks[i]] == ys[i])
    && forall i, j :: 0 <= i < j < |ks| ==> ks[i] < ks[j]
  }

  ghost predicate Subsequence<T>(ys: seq<T>, xs: seq<T>) {
    exists ks :: At(xs, ys, ks)
  }

  lemma SubsequenceSelf<T>(xs: seq<T>)
    ensures Subsequence(xs, xs)
  {
    assert At(xs, xs, seq(|xs|, i requires 0 <= i < |xs| => i));
  }
}
