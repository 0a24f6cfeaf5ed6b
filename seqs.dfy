/** Array-method shapes over sequences: `filter` followed by `map`, in one pass. */
module Seqs {
  import opened Wrappers

  predicate StrictlyIncreasing(idx: seq<nat>) {
    forall j, k :: 0 <= j < k < |idx| ==> idx[j] < idx[k]
  }

  /** The values `f` yields, in order, for the elements it does not drop. */
  function FilterMap<T, U>(xs: seq<T>, f: T -> Option<U>): (r: seq<U>)
    ensures |r| <= |xs|
  {
    if xs == [] then []
    else
      var last := f(xs[|xs| - 1]);
      FilterMap(xs[..|xs| - 1], f) + (if last.Some? then [last.value] else [])
  }

  /** The indices of the elements `f` keeps, in order. */
  function KeptIndices<T, U>(xs: seq<T>, f: T -> Option<U>): (r: seq<nat>)
    ensures |r| == |FilterMap(xs, f)|
    ensures forall k :: 0 <= k < |r| ==> r[k] < |xs|
  {
    if xs == [] then []
    else
      var n := |xs| - 1;
      KeptIndices(xs[..n], f) + (if f(xs[n]).Some? then [n] else [])
  }

  lemma {:induction false} KeptIndicesIncreasing<T, U>(xs: seq<T>, f: T -> Option<U>)
    ensures StrictlyIncreasing(KeptIndices(xs, f))
  {
    if xs != [] {
      KeptIndicesIncreasing(xs[..|xs| - 1], f);
    }
  }

  lemma {:induction false} KeptIndicesExactly<T, U>(xs: seq<T>, f: T -> Option<U>)
    ensures forall i :: 0 <= i < |xs| ==> (i in KeptIndices(xs, f) <==> f(xs[i]).Some?)
  {
    if xs != [] {
      var n := |xs| - 1;
      var init := xs[..n];
      KeptIndicesExactly(init, f);
      var p := KeptIndices(init, f);
      var last: seq<nat> := if f(xs[n]).Some? then [n] else [];
      assert KeptIndices(xs, f) == p + last;
      forall i | 0 <= i < |xs| ensures i in p + last <==> f(xs[i]).Some? {
        if i < n {
          assert init[i] == xs[i];
          assert i !in last;
        } else {
          assert n !in p;
        }
      }
    }
  }

  lemma {:induction false} KeptIndicesValues<T, U>(xs: seq<T>, f: T -> Option<U>)
    ensures forall k :: 0 <= k < |KeptIndices(xs, f)| ==>
      Some(FilterMap(xs, f)[k]) == f(xs[KeptIndices(xs, f)[k]])
  {
    if xs != [] {
      var n := |xs| - 1;
      var init := xs[..n];
      KeptIndicesValues(init, f);
      var p := KeptIndices(init, f);
      forall k | 0 <= k < |p| ensures Some(FilterMap(xs, f)[k]) == f(xs[p[k]]) {
        assert FilterMap(xs, f)[k] == FilterMap(init, f)[k];
        assert init[p[k]] == xs[p[k]];
      }
    }
  }

  /**
   * The result of `FilterMap` is `f` applied to exactly the kept elements, in
   * their order, duplicates kept: `kept` lists their indices, increasing.
   */
  lemma FilterMapOrdered<T, U>(xs: seq<T>, f: T -> Option<U>)
    returns (kept: seq<nat>)
    ensures StrictlyIncreasing(kept)
    ensures forall i :: 0 <= i < |xs| ==> (i in kept <==> f(xs[i]).Some?)
    ensures |kept| == |FilterMap(xs, f)|
    ensures forall k :: 0 <= k < |kept| ==>
      kept[k] < |xs| && Some(FilterMap(xs, f)[k]) == f(xs[kept[k]])
  {
    kept := KeptIndices(xs, f);
    KeptIndicesIncreasing(xs, f);
    KeptIndicesExactly(xs, f);
    KeptIndicesValues(xs, f);
  }

  /** Appending one element extends the result by at most that element's value. */
  lemma FilterMapSnoc<T, U>(xs: seq<T>, x: T, f: T -> Option<U>)
    ensures FilterMap(xs + [x], f)
      == FilterMap(xs, f) + (if f(x).Some? then [f(x).value] else [])
  {
    assert (xs + [x])[..|xs|] == xs;
  }

  /** Elements dropped by one function and kept by another, when the two are complementary, add up. */
  lemma {:induction false} FilterMapComplementSizes<T, U, V>(xs: seq<T>, f: T -> Option<U>, g: T -> Option<V>)
    requires forall x :: f(x).Some? <==> g(x).None?
    ensures |FilterMap(xs, f)| + |FilterMap(xs, g)| == |xs|
  {
    if xs != [] {
      FilterMapComplementSizes(xs[..|xs| - 1], f, g);
    }
  }

  /** The values `f` keeps from a three-element sequence, given what `f` yields for each. */
  lemma FilterMapThree<T, U>(a: T, b: T, c: T, f: T -> Option<U>, fa: Option<U>, fb: Option<U>, fc: Option<U>)
    requires f(a) == fa && f(b) == fb && f(c) == fc
    ensures FilterMap([a, b, c], f)
      == (if fa.Some? then [fa.value] else [])
       + (if fb.Some? then [fb.value] else [])
       + (if fc.Some? then [fc.value] else [])
  {
    FilterMapSnoc([], a, f);
    FilterMapSnoc([a], b, f);
    FilterMapSnoc([a, b], c, f);
    assert [] + [a] == [a] && [a] + [b] == [a, b] && [a, b] + [c] == [a, b, c];
  }
}
