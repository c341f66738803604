/** Sequence facts shared by the phone list and the book's key order. */
module Seqs {

  /** `a` is `b` with some elements left out, the rest in their order. */
  predicate IsSubsequence<T(==)>(a: seq<T>, b: seq<T>)
    decreases |b|
  {
    if b == [] then a == []
    else
      (a != [] && a[|a| - 1] == b[|b| - 1] && IsSubsequence(a[..|a| - 1], b[..|b| - 1]))
      || IsSubsequence(a, b[..|b| - 1])
  }

  /** No element occurs twice. */
  predicate Distinct<T(==)>(s: seq<T>) {
    forall i, j :: 0 <= i < j < |s| ==> s[i] != s[j]
  }

  /** `s` with every element equal to `x` dropped: the list rebuilt by keeping
      the elements that differ from `x`, one at a time, in order. */
  function Without<T(==)>(s: seq<T>, x: T): seq<T>
    decreases |s|
  {
    if s == [] then []
    else
      var last := s[|s| - 1];
      Without(s[..|s| - 1], x) + (if last == x then [] else [last])
  }

  /** Without removes every `x`, keeps every other element as often as it
      occurred, and keeps them in their original order. */
  lemma {:induction false} WithoutRemovesExactly<T>(s: seq<T>, x: T)
    ensures x !in Without(s, x)
    ensures multiset(Without(s, x)) == multiset(s)[x := 0]
    ensures IsSubsequence(Without(s, x), s)
    decreases |s|
  {
    if s != [] {
      var init, last := s[..|s| - 1], s[|s| - 1];
      assert s == init + [last];
      WithoutRemovesExactly(init, x);
      var w := Without(init, x);
      if last == x {
        assert Without(s, x) == w;
      } else {
        assert Without(s, x) == w + [last];
        assert (w + [last])[..|w|] == w;
      }
    }
  }

  /** Nothing to remove: the sequence is unchanged. */
  lemma {:induction false} WithoutAbsent<T>(s: seq<T>, x: T)
    requires x !in s
    ensures Without(s, x) == s
    decreases |s|
  {
    if s != [] {
      var init := s[..|s| - 1];
      assert s == init + [s[|s| - 1]];
      WithoutAbsent(init, x);
    }
  }

  /** Removing the same element twice is removing it once. */
  lemma WithoutIdempotent<T>(s: seq<T>, x: T)
    ensures Without(Without(s, x), x) == Without(s, x)
  {
    WithoutRemovesExactly(s, x);
    WithoutAbsent(Without(s, x), x);
  }

  /** An element survives removal exactly when it is present and is not `x`. */
  lemma WithoutMembership<T>(s: seq<T>, x: T, y: T)
    ensures y in Without(s, x) <==> y in s && y != x
  {
    WithoutRemovesExactly(s, x);
    assert y in Without(s, x) <==> y in multiset(Without(s, x));
    assert y in s <==> y in multiset(s);
  }

  /** Removal keeps a duplicate-free sequence duplicate-free. */
  lemma {:induction false} WithoutDistinct<T>(s: seq<T>, x: T)
    requires Distinct(s)
    ensures Distinct(Without(s, x))
    decreases |s|
  {
    if s != [] {
      var init, last := s[..|s| - 1], s[|s| - 1];
      assert Distinct(init);
      WithoutDistinct(init, x);
      if last != x {
        WithoutMembership(init, x, last);
        assert last !in init;
        var w := Without(init, x);
        assert Without(s, x) == w + [last];
      }
    }
  }
}
