/** Order-preserving selection from a sequence: the model of `Array.prototype.filter`
    used by the food search and by deleting log entries. */
module Seqs {
  import opened Wrappers

  /** `ys` can be obtained from `xs` by deleting elements, keeping the order. */
  ghost predicate IsSubseq<T>(ys: seq<T>, xs: seq<T>)
    decreases |xs|
  {
    if ys == [] then true
    else if xs == [] then false
    else if ys[0] == xs[0] && IsSubseq(ys[1..], xs[1..]) then true
    else IsSubseq(ys, xs[1..])
  }

  /** `xs.filter(p)`: the elements that satisfy `p`, in their original order. */
  function Filter<T>(xs: seq<T>, p: T -> bool): (ys: seq<T>)
    ensures |ys| <= |xs|
    ensures forall k :: 0 <= k < |ys| ==> p(ys[k])
  {
    if xs == [] then []
    else if p(xs[0]) then [xs[0]] + Filter(xs[1..], p)
    else Filter(xs[1..], p)
  }

  /** An element is selected exactly when it occurs in `xs` and passes `p`. */
  lemma {:induction false} FilterMembers<T>(xs: seq<T>, p: T -> bool, y: T)
    ensures y in Filter(xs, p) <==> y in xs && p(y)
  {
    if xs != [] {
      FilterMembers(xs[1..], p, y);
      assert xs == [xs[0]] + xs[1..];
    }
  }

  /** Each passing element is selected as often as it occurs in `xs`, and every
      other element not at all. */
  lemma {:induction false} FilterCount<T>(xs: seq<T>, p: T -> bool, y: T)
    ensures multiset(Filter(xs, p))[y] == if p(y) then multiset(xs)[y] else 0
  {
    if xs != [] {
      FilterCount(xs[1..], p, y);
      assert xs == [xs[0]] + xs[1..];
    }
  }

  /** The selection keeps the order of `xs`. */
  lemma {:induction false} FilterSubseq<T>(xs: seq<T>, p: T -> bool)
    ensures IsSubseq(Filter(xs, p), xs)
  {
    if xs != [] {
      FilterSubseq(xs[1..], p);
      var ys := Filter(xs, p);
      if p(xs[0]) {
        assert ys[0] == xs[0] && ys[1..] == Filter(xs[1..], p);
      } else {
        SubseqCons(ys, xs);
      }
    }
  }

  /** Dropping the head of `xs` keeps a subsequence of the tail a subsequence. */
  lemma SubseqCons<T>(ys: seq<T>, xs: seq<T>)
    requires xs != [] && IsSubseq(ys, xs[1..])
    ensures IsSubseq(ys, xs)
  {
  }

  /** Filtering keeps everything when every element passes. */
  lemma {:induction false} FilterAll<T>(xs: seq<T>, p: T -> bool)
    requires forall k :: 0 <= k < |xs| ==> p(xs[k])
    ensures Filter(xs, p) == xs
  {
    if xs != [] {
      FilterAll(xs[1..], p);
    }
  }

  /** Filtering distributes over concatenation. */
  lemma {:induction false} FilterConcat<T>(xs: seq<T>, zs: seq<T>, p: T -> bool)
    ensures Filter(xs + zs, p) == Filter(xs, p) + Filter(zs, p)
  {
    if xs == [] {
      assert xs + zs == zs;
    } else {
      assert (xs + zs)[1..] == xs[1..] + zs;
      FilterConcat(xs[1..], zs, p);
    }
  }

  /** Two predicates that agree on every element select the same elements. */
  lemma {:induction false} FilterSame<T>(xs: seq<T>, p: T -> bool, q: T -> bool)
    requires forall k :: 0 <= k < |xs| ==> p(xs[k]) == q(xs[k])
    ensures Filter(xs, p) == Filter(xs, q)
  {
    if xs != [] {
      FilterSame(xs[1..], p, q);
    }
  }

  /** Every element present, collected in order, or nothing when one is missing: the
      all-or-nothing effect of a `map` whose callback may throw. */
  function AllSome<T>(xs: seq<Option<T>>): (r: Option<seq<T>>)
    ensures r.Some? ==> |r.value| == |xs|
  {
    if xs == [] then Some([])
    else
      var tail := AllSome(xs[1..]);
      if xs[0].Some? && tail.Some? then Some([xs[0].value] + tail.value) else None
  }

  /** The collection is there exactly when every element is, and then holds each
      element's value at its index. */
  lemma {:induction false} AllSomeSpec<T>(xs: seq<Option<T>>)
    ensures AllSome(xs).Some? <==> forall i :: 0 <= i < |xs| ==> xs[i].Some?
    ensures AllSome(xs).Some? ==> forall i :: 0 <= i < |xs| ==> AllSome(xs).value[i] == xs[i].value
  {
    if xs != [] {
      AllSomeSpec(xs[1..]);
      assert forall i :: 1 <= i < |xs| ==> xs[i] == xs[1..][i - 1];
    }
  }
}
