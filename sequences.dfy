/** Order facts shared by the pipeline stages: subsequences and first occurrences. */
module Sequences {

  /** `a` is obtained from `b` by deleting elements, keeping the order of the rest. */
  predicate IsSubsequence<T(==)>(a: seq<T>, b: seq<T>)
    decreases |b|
  {
    if b == [] then a == []
    else
      (a != [] && a[|a| - 1] == b[|b| - 1] && IsSubsequence(a[..|a| - 1], b[..|b| - 1]))
      || IsSubsequence(a, b[..|b| - 1])
  }

  lemma {:induction false} SubsequenceLength<T>(a: seq<T>, b: seq<T>)
    requires IsSubsequence(a, b)
    ensures |a| <= |b|
    decreases |b|
  {
    if b != [] {
      if a != [] && a[|a| - 1] == b[|b| - 1] && IsSubsequence(a[..|a| - 1], b[..|b| - 1]) {
        SubsequenceLength(a[..|a| - 1], b[..|b| - 1]);
      } else {
        SubsequenceLength(a, b[..|b| - 1]);
      }
    }
  }

  /** Everything in a subsequence is in the sequence it came from. */
  lemma {:induction false} SubsequenceElements<T>(a: seq<T>, b: seq<T>)
    requires IsSubsequence(a, b)
    ensures forall x :: x in a ==> x in b
    decreases |b|
  {
    if b != [] {
      var b' := b[..|b| - 1];
      if a != [] && a[|a| - 1] == b[|b| - 1] && IsSubsequence(a[..|a| - 1], b') {
        SubsequenceElements(a[..|a| - 1], b');
        assert a == a[..|a| - 1] + [a[|a| - 1]];
        assert b == b' + [b[|b| - 1]];
      } else {
        SubsequenceElements(a, b');
        assert b == b' + [b[|b| - 1]];
      }
    }
  }

  predicate Distinct<T(==)>(s: seq<T>) {
    forall i, j :: 0 <= i < j < |s| ==> s[i] != s[j]
  }

  /** The index of the first occurrence of `x` in `s`. */
  function FirstIndex<T(==)>(s: seq<T>, x: T): (i: nat)
    requires x in s
    ensures i < |s| && s[i] == x && x !in s[..i]
    decreases |s|
  {
    if s[0] == x then 0
    else
      var j := FirstIndex(s[1..], x);
      assert s[..j + 1] == [s[0]] + s[1..][..j];
      j + 1
  }

  /** Appending never moves a first occurrence. */
  lemma FirstIndexAppend<T>(s: seq<T>, t: seq<T>, x: T)
    requires x in s
    ensures FirstIndex(s + t, x) == FirstIndex(s, x)
  {
    var i, j := FirstIndex(s, x), FirstIndex(s + t, x);
    assert (s + t)[i] == x;
  }

  /**
   * The distinct elements of `s`, each at the position of its first
   * occurrence: the key order of a Python dict filled from `s`.
   */
  function FirstOccurrences<T(==)>(s: seq<T>): (d: seq<T>)
    ensures forall k :: 0 <= k < |d| ==> d[k] in s
    ensures forall k :: 0 <= k < |s| ==> s[k] in d
    ensures Distinct(d)
    decreases |s|
  {
    if s == [] then []
    else
      var init := s[..|s| - 1];
      var x := s[|s| - 1];
      assert s == init + [x];
      if x in init then FirstOccurrences(init) else FirstOccurrences(init) + [x]
  }

  /** Elements of `FirstOccurrences(s)` are ordered by where they first occur in `s`. */
  lemma {:induction false} FirstOccurrencesOrder<T>(s: seq<T>)
    ensures forall i, j :: 0 <= i < j < |FirstOccurrences(s)| ==>
      FirstIndex(s, FirstOccurrences(s)[i]) < FirstIndex(s, FirstOccurrences(s)[j])
    decreases |s|
  {
    if s != [] {
      var init := s[..|s| - 1];
      var x := s[|s| - 1];
      assert s == init + [x];
      FirstOccurrencesOrder(init);
      var d, d' := FirstOccurrences(s), FirstOccurrences(init);
      forall y | y in init
        ensures FirstIndex(s, y) == FirstIndex(init, y)
      {
        FirstIndexAppend(init, [x], y);
      }
      forall i, j | 0 <= i < j < |d|
        ensures FirstIndex(s, d[i]) < FirstIndex(s, d[j])
      {
        assert d[i] in init;
        if j < |d'| {
          assert d[i] == d'[i] && d[j] == d'[j];
        } else {
          assert x !in init && d[j] == x;
          assert FirstIndex(s, x) == |init|;
        }
      }
    }
  }
}
