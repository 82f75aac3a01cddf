/** Sequence facts used to state order and membership of the groups. */
module Seqs {

  predicate Distinct<T(==)>(s: seq<T>) {
    forall i, j :: 0 <= i < j < |s| ==> s[i] != s[j]
  }

  function Elems<T>(s: seq<T>): set<T> {
    set x | x in s
  }

  /** `a` is `b` with some elements left out, the others kept in order. */
  predicate IsSubsequence<T(==)>(a: seq<T>, b: seq<T>)
    decreases |b|
  {
    if a == [] then true
    else if b == [] then false
    else (a[|a| - 1] == b[|b| - 1] && IsSubsequence(a[..|a| - 1], b[..|b| - 1]))
         || IsSubsequence(a, b[..|b| - 1])
  }

  lemma SubsequenceExtend<T>(a: seq<T>, b: seq<T>, x: T)
    requires IsSubsequence(a, b)
    ensures IsSubsequence(a, b + [x])
  {
    assert (b + [x])[..|b|] == b;
  }

  lemma SubsequenceAppend<T>(a: seq<T>, b: seq<T>, x: T)
    requires IsSubsequence(a, b)
    ensures IsSubsequence(a + [x], b + [x])
  {
    assert (a + [x])[..|a|] == a;
    assert (b + [x])[..|b|] == b;
  }

  /** A subsequence of a sequence without repeats has no repeats, and only
      elements of that sequence. */
  lemma {:induction false} SubsequenceKeepsDistinct<T>(a: seq<T>, b: seq<T>)
    requires IsSubsequence(a, b) && Distinct(b)
    ensures Distinct(a) && forall x :: x in a ==> x in b
    decreases |b|
  {
    if a != [] {
      var a', b' := a[..|a| - 1], b[..|b| - 1];
      assert b == b' + [b[|b| - 1]];
      if a[|a| - 1] == b[|b| - 1] && IsSubsequence(a', b') {
        SubsequenceKeepsDistinct(a', b');
        assert b[|b| - 1] !in b' by {
          forall i | 0 <= i < |b'| ensures b'[i] != b[|b| - 1] {
            assert b'[i] == b[i];
          }
        }
        forall i, j | 0 <= i < j < |a| ensures a[i] != a[j] {
          assert a[i] == a'[i] && a'[i] in b';
          if j < |a| - 1 {
            assert a[j] == a'[j];
          }
        }
      } else {
        SubsequenceKeepsDistinct(a, b');
      }
    }
  }

  /** `s` with every code of `gone` removed, order kept. */
  function Without(s: seq<string>, gone: set<string>): (r: seq<string>)
    ensures forall x :: x in r <==> x in s && x !in gone
  {
    if s == [] then []
    else
      var last := s[|s| - 1];
      assert forall x :: x in s <==> x in s[..|s| - 1] || x == last;
      if last in gone then Without(s[..|s| - 1], gone)
      else Without(s[..|s| - 1], gone) + [last]
  }

  lemma {:induction false} WithoutNothing(s: seq<string>)
    ensures Without(s, {}) == s
  {
    if s != [] {
      WithoutNothing(s[..|s| - 1]);
    }
  }

  lemma {:induction false} WithoutIsSubsequence(s: seq<string>, gone: set<string>)
    ensures IsSubsequence(Without(s, gone), s)
  {
    if s != [] {
      var init := s[..|s| - 1];
      assert init + [s[|s| - 1]] == s;
      WithoutIsSubsequence(init, gone);
      if s[|s| - 1] in gone {
        SubsequenceExtend(Without(init, gone), init, s[|s| - 1]);
      } else {
        SubsequenceAppend(Without(init, gone), init, s[|s| - 1]);
      }
    }
  }

  lemma {:induction false} WithoutKeepsDistinct(s: seq<string>, gone: set<string>)
    requires Distinct(s)
    ensures Distinct(Without(s, gone))
  {
    if s != [] {
      WithoutKeepsDistinct(s[..|s| - 1], gone);
    }
  }

  /** Removing `a` and then `b` is removing both at once. */
  lemma {:induction false} WithoutWithout(s: seq<string>, a: set<string>, b: set<string>)
    ensures Without(Without(s, a), b) == Without(s, a + b)
  {
    if s != [] {
      var init := s[..|s| - 1];
      WithoutWithout(init, a, b);
      if s[|s| - 1] !in a {
        assert (Without(init, a) + [s[|s| - 1]])[..|Without(init, a)|] == Without(init, a);
      }
    }
  }
}
