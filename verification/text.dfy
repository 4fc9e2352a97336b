/** The three string operations the page script relies on: the `<` order
    that `Array.prototype.sort` uses by default, `toLowerCase`, and
    `includes`. Strings are sequences of characters. */
module Text {

  /** JavaScript's `a < b` on strings: the first differing character
      decides, and a proper prefix comes first. */
  predicate Below(a: string, b: string)
    decreases |a|
  {
    |b| > 0 && (|a| == 0 || a[0] < b[0] || (a[0] == b[0] && Below(a[1..], b[1..])))
  }

  lemma {:induction false} BelowIrreflexive(a: string)
    ensures !Below(a, a)
    decreases |a|
  {
    if |a| > 0 {
      BelowIrreflexive(a[1..]);
    }
  }

  lemma {:induction false} BelowTransitive(a: string, b: string, c: string)
    requires Below(a, b) && Below(b, c)
    ensures Below(a, c)
    decreases |a|
  {
    if |a| > 0 && a[0] == b[0] && b[0] == c[0] {
      BelowTransitive(a[1..], b[1..], c[1..]);
    }
  }

  lemma BelowAsymmetric(a: string, b: string)
    requires Below(a, b)
    ensures !Below(b, a)
  {
    if Below(b, a) {
      BelowTransitive(a, b, a);
      BelowIrreflexive(a);
    }
  }

  /** Any two distinct strings are ordered one way or the other, so `Below`
      is a strict total order and a sorted list of distinct strings is
      determined by its elements. */
  lemma {:induction false} BelowTotal(a: string, b: string)
    ensures a == b || Below(a, b) || Below(b, a)
    decreases |a|
  {
    if |a| > 0 && |b| > 0 && a[0] == b[0] {
      BelowTotal(a[1..], b[1..]);
      if a[1..] == b[1..] {
        assert a == [a[0]] + a[1..] && b == [b[0]] + b[1..];
      }
    }
  }

  /** Upper-case letters that `toLowerCase` maps one step down: ASCII A-Z
      and the Latin-1 capitals U+00C0 to U+00DE except the sign U+00D7,
      which covers the accented capitals of Portuguese names. */
  predicate IsUpper(c: char) {
    var n := c as int;
    (65 <= n <= 90) || (0xC0 <= n <= 0xDE && n != 0xD7)
  }

  function LowerChar(c: char): (d: char)
    ensures !IsUpper(d)
    ensures IsUpper(c) ==> d as int == c as int + 32
    ensures !IsUpper(c) ==> d == c
  {
    if IsUpper(c) then (c as int + 32) as char else c
  }

  /** `toLowerCase`, restricted to the letters `IsUpper` covers. */
  function Lower(s: string): string {
    seq(|s|, i requires 0 <= i < |s| => LowerChar(s[i]))
  }

  /** Lower-casing keeps the length, moves every upper-case letter 32 code
      points up to its lower-case form, leaves no upper-case letter, and
      changes no other character. */
  lemma LowerSpec(s: string)
    ensures |Lower(s)| == |s|
    ensures forall i :: 0 <= i < |s| ==> !IsUpper(Lower(s)[i])
    ensures forall i :: 0 <= i < |s| && IsUpper(s[i]) ==> Lower(s)[i] as int == s[i] as int + 32
    ensures forall i :: 0 <= i < |s| && !IsUpper(s[i]) ==> Lower(s)[i] == s[i]
  {
  }

  /** Lower-casing twice is lower-casing once. */
  lemma LowerIdempotent(s: string)
    ensures Lower(Lower(s)) == Lower(s)
  {
    LowerSpec(s);
    LowerSpec(Lower(s));
  }

  /** `needle` occurs in `hay` starting at position `k`. */
  predicate OccursAt(hay: string, needle: string, k: int) {
    0 <= k && k + |needle| <= |hay| && hay[k..k + |needle|] == needle
  }

  /** `hay.includes(needle)`, searching from the left. */
  function Includes(hay: string, needle: string): bool
    decreases |hay|
  {
    if |needle| > |hay| then false
    else if hay[..|needle|] == needle then true
    else Includes(hay[1..], needle)
  }

  /** `includes` is true exactly when the needle occurs at some position. */
  lemma {:induction false} IncludesFindsOccurrence(hay: string, needle: string)
    ensures Includes(hay, needle) <==> exists k :: OccursAt(hay, needle, k)
    decreases |hay|
  {
    if |needle| > |hay| {
    } else if hay[..|needle|] == needle {
      assert OccursAt(hay, needle, 0);
    } else {
      var rest := hay[1..];
      IncludesFindsOccurrence(rest, needle);
      forall k | OccursAt(rest, needle, k) ensures OccursAt(hay, needle, k + 1) {
        assert rest[k..k + |needle|] == hay[k + 1..k + 1 + |needle|];
      }
      forall k | OccursAt(hay, needle, k) ensures OccursAt(rest, needle, k - 1) {
        assert k != 0;
        assert rest[k - 1..k - 1 + |needle|] == hay[k..k + |needle|];
      }
    }
  }

  /** Every string includes the empty string, so an empty search box lets
      every name through. */
  lemma IncludesEmpty(hay: string)
    ensures Includes(hay, "")
  {
    IncludesFindsOccurrence(hay, "");
    assert OccursAt(hay, "", 0);
  }
}
