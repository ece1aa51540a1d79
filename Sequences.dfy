/** Order-preserving selection from a sequence: the relation that both the
    missing-column list and the filtered table have with their input. */
module Sequences {

  /** `a` can be obtained from `b` by deleting elements, keeping the order of
      the rest. */
  ghost predicate IsSubsequence<T>(a: seq<T>, b: seq<T>)
    decreases |b|
  {
    if |a| == 0 then true
    else if |b| == 0 then false
    else (a[0] == b[0] && IsSubsequence(a[1..], b[1..])) || IsSubsequence(a, b[1..])
  }

  /** A subsequence is no longer than the sequence it is drawn from, and every
      element it holds occurs there. */
  lemma {:induction false} SubsequenceBounds<T>(a: seq<T>, b: seq<T>)
    requires IsSubsequence(a, b)
    ensures |a| <= |b|
    ensures forall x :: x in a ==> x in b
    decreases |b|
  {
    if |a| == 0 {
    } else if a[0] == b[0] && IsSubsequence(a[1..], b[1..]) {
      SubsequenceBounds(a[1..], b[1..]);
      assert forall x :: x in a ==> x == a[0] || x in a[1..];
    } else {
      SubsequenceBounds(a, b[1..]);
    }
  }

  /** A subsequence takes each element at most as often as its source has it. */
  lemma {:induction false} SubsequenceMultiset<T>(a: seq<T>, b: seq<T>)
    requires IsSubsequence(a, b)
    ensures multiset(a) <= multiset(b)
    decreases |b|
  {
    if |a| > 0 {
      assert b == [b[0]] + b[1..];
      if a[0] == b[0] && IsSubsequence(a[1..], b[1..]) {
        SubsequenceMultiset(a[1..], b[1..]);
        assert a == [a[0]] + a[1..];
      } else {
        SubsequenceMultiset(a, b[1..]);
      }
    }
  }

  /** The index of the first occurrence of `x` in `s`. */
  function IndexOf<T(==)>(s: seq<T>, x: T): (i: nat)
    requires x in s
    ensures i < |s| && s[i] == x
    ensures forall k :: 0 <= k < i ==> s[k] != x
    decreases |s|
  {
    if s[0] == x then 0 else 1 + IndexOf(s[1..], x)
  }

  /** No element occurs twice. */
  predicate NoDuplicates<T(==)>(s: seq<T>)
  {
    forall i, j :: 0 <= i < j < |s| ==> s[i] != s[j]
  }
}
