/**
 Order-preserving selection from a list, shared by the clause filter of the
 segmenter and the severity filter of the report.
 */
module Sequences {

  /** `a` is `b` with some elements left out and the rest in order. */
  predicate IsSubsequence<T(==)>(a: seq<T>, b: seq<T>)
    decreases |b|
  {
    if |a| == 0 then true
    else if |b| == 0 then false
    else (a[0] == b[0] && IsSubsequence(a[1..], b[1..])) || IsSubsequence(a, b[1..])
  }

  /** A subsequence holds only elements of the whole. */
  lemma {:induction false} SubsequenceElements<T>(a: seq<T>, b: seq<T>)
    requires IsSubsequence(a, b)
    ensures forall x :: x in a ==> x in b
    decreases |b|
  {
    if |a| > 0 {
      if a[0] == b[0] && IsSubsequence(a[1..], b[1..]) {
        SubsequenceElements(a[1..], b[1..]);
        assert a == [a[0]] + a[1..];
      } else {
        SubsequenceElements(a, b[1..]);
      }
    }
  }
}
