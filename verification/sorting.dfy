/** `Array.prototype.sort()` without a comparator, on strings: the result is
    a permutation of the input in ascending `Text.Below` order. The engine's
    algorithm is not specified by the language; insertion sort stands in for
    it, and `StrictlySortedUnique` shows that on a duplicate-free input every
    correct sort returns the same list. */
module Sorting {
  import Text
  import Seqs

  /** Ascending, ties allowed: no element lies below an earlier one. */
  ghost predicate Sorted(s: seq<string>) {
    forall i, j :: 0 <= i < j < |s| ==> !Text.Below(s[j], s[i])
  }

  /** Strictly ascending. */
  ghost predicate StrictlySorted(s: seq<string>) {
    forall i, j :: 0 <= i < j < |s| ==> Text.Below(s[i], s[j])
  }

  /** If `b` is a permutation of `a`, a bound that holds of every element of
      `a` holds of every element of `b`. */
  lemma NoneBelowCarriesOver(y: string, a: seq<string>, b: seq<string>)
    requires multiset(a) == multiset(b)
    requires forall e :: e in a ==> !Text.Below(e, y)
    ensures forall e :: e in b ==> !Text.Below(e, y)
  {
    forall e | e in b ensures !Text.Below(e, y) {
      assert e in multiset(b);
    }
  }

  /** Putting `x` in front of a sorted list whose head is not below `x`
      keeps it sorted. */
  lemma PrependSorted(x: string, s: seq<string>)
    requires Sorted(s)
    requires |s| > 0 ==> !Text.Below(s[0], x)
    ensures Sorted([x] + s)
  {
    forall k | 0 <= k < |s| ensures !Text.Below(s[k], x) {
      if k > 0 && Text.Below(s[k], x) {
        // x <= s[0] <= s[k], so s[k] < x is impossible
        Text.BelowTotal(x, s[0]);
        if x == s[0] {
        } else if Text.Below(x, s[0]) {
          Text.BelowTransitive(s[k], x, s[0]);
        }
      }
    }
  }

  function Insert(x: string, s: seq<string>): (r: seq<string>)
    requires Sorted(s)
    ensures Sorted(r)
    ensures multiset(r) == multiset(s) + multiset{x}
    decreases |s|
  {
    if |s| == 0 then [x]
    else if Text.Below(s[0], x) then
      var rest := Insert(x, s[1..]);
      assert s == [s[0]] + s[1..];
      Text.BelowAsymmetric(s[0], x);
      assert forall e :: e in s[1..] + [x] ==> !Text.Below(e, s[0]);
      NoneBelowCarriesOver(s[0], s[1..] + [x], rest);
      PrependSorted(s[0], rest);
      [s[0]] + rest
    else
      PrependSorted(x, s);
      [x] + s
  }

  /** The sorted permutation of `xs`. */
  function Sort(xs: seq<string>): (r: seq<string>)
    ensures Sorted(r)
    ensures multiset(r) == multiset(xs)
    decreases |xs|
  {
    if |xs| == 0 then []
    else
      assert xs == [xs[0]] + xs[1..];
      Insert(xs[0], Sort(xs[1..]))
  }

  /** A sorted list without duplicates is strictly ascending. */
  lemma StrictWhenNoDuplicates(s: seq<string>)
    requires Sorted(s)
    requires Seqs.NoDuplicates(s)
    ensures StrictlySorted(s)
  {
    forall i, j | 0 <= i < j < |s| ensures Text.Below(s[i], s[j]) {
      Text.BelowTotal(s[i], s[j]);
    }
  }

  /** Two strictly ascending lists with the same elements are equal: the
      sorted list of a set of names does not depend on how it was built. */
  lemma {:induction false} StrictlySortedUnique(a: seq<string>, b: seq<string>)
    requires StrictlySorted(a) && StrictlySorted(b)
    requires forall x :: x in a <==> x in b
    ensures a == b
    decreases |a|
  {
    if |b| > 0 {
      assert b[0] in b;
    }
    if |a| > 0 {
      assert a[0] in b;
      assert b != [];
      if a[0] != b[0] {
        // each head lies above the other, which asymmetry rules out
        assert b[0] in b && b[0] in a;
        var k :| 0 <= k < |b| && b[k] == a[0];
        var m :| 0 <= m < |a| && a[m] == b[0];
        assert Text.Below(b[0], b[k]) && Text.Below(a[0], a[m]);
        Text.BelowAsymmetric(a[0], b[0]);
        assert false;
      }
      var a', b' := a[1..], b[1..];
      forall x ensures x in a' <==> x in b' {
        if x in a' {
          var m :| 0 <= m < |a'| && a'[m] == x;
          assert Text.Below(a[0], a[m + 1]);
          Text.BelowIrreflexive(x);
          assert x in b;
        }
        if x in b' {
          var m :| 0 <= m < |b'| && b'[m] == x;
          assert Text.Below(b[0], b[m + 1]);
          Text.BelowIrreflexive(x);
          assert x in a;
        }
      }
      StrictlySortedUnique(a', b');
      assert a == [a[0]] + a' && b == [b[0]] + b';
    }
  }
}
