/** Generic facts about sequences: the positions a filter keeps, and
    duplicate-freedom. */
module Seqs {

  /** No element occurs twice. */
  ghost predicate NoDuplicates<T>(s: seq<T>) {
    forall i, j :: 0 <= i < j < |s| ==> s[i] != s[j]
  }

  /** The positions of `keep` that hold, in increasing order. A filter that
      keeps exactly the elements at these positions, in this order, keeps
      exactly the elements its test accepts and preserves their order. */
  function Positions(keep: seq<bool>): (idx: seq<int>)
    ensures |idx| <= |keep|
    ensures forall j :: 0 <= j < |idx| ==> 0 <= idx[j] < |keep| && keep[idx[j]]
    ensures forall j, k :: 0 <= j < k < |idx| ==> idx[j] < idx[k]
    ensures forall i :: 0 <= i < |keep| && keep[i] ==> i in idx
    decreases |keep|
  {
    if |keep| == 0 then []
    else
      var n := |keep| - 1;
      var front := Positions(keep[..n]);
      if keep[n] then front + [n] else front
  }

  /** One more element adds its position exactly when it is kept. */
  lemma PositionsStep(keep: seq<bool>)
    requires |keep| > 0
    ensures Positions(keep) == Positions(keep[..|keep| - 1]) + if keep[|keep| - 1] then [|keep| - 1] else []
  {
  }

  /** `picked` lists, in order, exactly the elements of `xs` at the
      positions where `keep` holds: the j-th picked element is the one at
      the j-th such position. */
  ghost predicate PicksExactly<T>(picked: seq<T>, xs: seq<T>, keep: seq<bool>)
    requires |keep| == |xs|
  {
    var idx := Positions(keep);
    |picked| == |idx| && forall j :: 0 <= j < |idx| ==> picked[j] == xs[idx[j]]
  }

  /** Extending the input by one element extends the picked list by that
      element when it is kept, and by nothing otherwise. */
  lemma PicksExactlyStep<T>(picked: seq<T>, last: seq<T>, xs: seq<T>, keep: seq<bool>)
    requires |keep| == |xs| > 0
    requires PicksExactly(picked, xs[..|xs| - 1], keep[..|xs| - 1])
    requires last == if keep[|xs| - 1] then [xs[|xs| - 1]] else []
    ensures PicksExactly(picked + last, xs, keep)
  {
    var n := |xs| - 1;
    var idx, idx' := Positions(keep), Positions(keep[..n]);
    forall j | 0 <= j < |idx'| ensures (picked + last)[j] == xs[idx[j]] {
      assert idx[j] == idx'[j];
      assert xs[..n][idx'[j]] == xs[idx'[j]];
    }
  }

  /** `out` has one element per position where `keep` holds, in order, and
      the j-th element of `out` is related by `rel` to the element of `xs`
      at the j-th such position. */
  ghost predicate MapsPicked<T, U>(out: seq<U>, xs: seq<T>, keep: seq<bool>, rel: (T, U) -> bool)
    requires |keep| == |xs|
  {
    var idx := Positions(keep);
    |out| == |idx| && forall j :: 0 <= j < |idx| ==> rel(xs[idx[j]], out[j])
  }

  /** Extending the input by one element extends `out` by one related
      element when it is kept, and by nothing otherwise. */
  lemma MapsPickedStep<T, U>(out: seq<U>, last: seq<U>, xs: seq<T>, keep: seq<bool>, rel: (T, U) -> bool)
    requires |keep| == |xs| > 0
    requires MapsPicked(out, xs[..|xs| - 1], keep[..|xs| - 1], rel)
    requires keep[|xs| - 1] ==> |last| == 1 && rel(xs[|xs| - 1], last[0])
    requires !keep[|xs| - 1] ==> last == []
    ensures MapsPicked(out + last, xs, keep, rel)
  {
    var n := |xs| - 1;
    var idx, idx' := Positions(keep), Positions(keep[..n]);
    forall j | 0 <= j < |idx| ensures rel(xs[idx[j]], (out + last)[j]) {
      if j < |idx'| {
        assert idx[j] == idx'[j];
        assert xs[..n][idx'[j]] == xs[idx'[j]];
      }
    }
  }

  /** `a` and `b` have the same length and are related by `rel` position by
      position. */
  ghost predicate Pairwise<T, U>(a: seq<T>, b: seq<U>, rel: (T, U) -> bool) {
    |a| == |b| && forall j :: 0 <= j < |a| ==> rel(a[j], b[j])
  }

  lemma PairwiseAppend<T, U>(a: seq<T>, b: seq<U>, c: seq<T>, d: seq<U>, rel: (T, U) -> bool)
    requires Pairwise(a, b, rel) && Pairwise(c, d, rel)
    ensures Pairwise(a + c, b + d, rel)
  {
    forall j | 0 <= j < |a + c| ensures rel((a + c)[j], (b + d)[j]) {
      if j < |a| {
        assert (a + c)[j] == a[j] && (b + d)[j] == b[j];
      } else {
        assert (a + c)[j] == c[j - |a|] && (b + d)[j] == d[j - |a|];
      }
    }
  }

  lemma {:induction false} NoDuplicatesMultiplicity<T>(s: seq<T>)
    requires NoDuplicates(s)
    ensures forall x :: multiset(s)[x] <= 1
    decreases |s|
  {
    if |s| > 0 {
      var t := s[1..];
      assert NoDuplicates(t) by {
        forall i, j | 0 <= i < j < |t| ensures t[i] != t[j] {
          assert t[i] == s[i + 1] && t[j] == s[j + 1];
        }
      }
      NoDuplicatesMultiplicity(t);
      assert s == [s[0]] + t;
      assert s[0] !in t by {
        forall k | 0 <= k < |t| ensures t[k] != s[0] {
          assert t[k] == s[k + 1];
        }
      }
    }
  }

  lemma TwoOccurrences<T>(s: seq<T>, i: int, j: int)
    requires 0 <= i < j < |s| && s[i] == s[j]
    ensures multiset(s)[s[i]] >= 2
  {
    assert s == s[..j] + s[j..];
    assert s[i] in s[..j];
    assert s[j] in s[j..];
  }

  /** Duplicate-freedom depends only on the multiset of elements, so a
      permutation of a duplicate-free sequence is duplicate-free. */
  lemma PermutationKeepsNoDuplicates<T>(a: seq<T>, b: seq<T>)
    requires multiset(a) == multiset(b)
    requires NoDuplicates(a)
    ensures NoDuplicates(b)
  {
    NoDuplicatesMultiplicity(a);
    forall i, j | 0 <= i < j < |b| ensures b[i] != b[j] {
      if b[i] == b[j] {
        TwoOccurrences(b, i, j);
        assert false;
      }
    }
  }
}
