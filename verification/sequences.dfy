/** Facts about sequences of any element type that several modules share. */
module Sequences {

  /** `a` is `b` with some elements left out, the rest in their order. */
  predicate IsSubsequence<T(==)>(a: seq<T>, b: seq<T>)
    decreases |b|
  {
    if |a| == 0 then true
    else if |b| == 0 then false
    else if a[0] == b[0] then IsSubsequence(a[1..], b[1..])
    else IsSubsequence(a, b[1..])
  }

  /** A non-empty sequence is its front followed by its last element. */
  lemma InitLast<T>(s: seq<T>)
    requires |s| > 0
    ensures s[..|s| - 1] + [s[|s| - 1]] == s
  {
  }

  /** Regrouping a concatenation that ends with a last element. */
  lemma PrefixInitLast<T>(c: seq<T>, s: seq<T>)
    requires |s| > 0
    ensures c + s[..|s| - 1] + [s[|s| - 1]] == c + s
  {
    InitLast(s);
  }

  /** Dropping the last element after a first one. */
  lemma ConsInit<T>(x: T, p: seq<T>)
    requires |p| > 0
    ensures ([x] + p)[..|p|] == [x] + p[..|p| - 1]
  {
  }

  /** The inductive step of an append law `f(a + b) == f(a) + f(b)` for a
      function that maps a first element to `head` and the rest recursively. */
  lemma AppendStep<T>(head: seq<T>, whole: seq<T>, rest: seq<T>, fa: seq<T>, fa1: seq<T>, fb: seq<T>)
    requires whole == head + rest && rest == fa1 + fb && fa == head + fa1
    ensures whole == fa + fb
  {
  }

  /** Two lists matched entry by entry to the images under `f` of two others
      concatenate to a list matched the same way. */
  lemma PointwiseAppend<A, B>(f: A -> B, a: seq<B>, ra: seq<A>, b: seq<B>, rb: seq<A>)
    requires |a| == |ra| && |b| == |rb|
    requires forall i :: 0 <= i < |a| ==> a[i] == f(ra[i])
    requires forall i :: 0 <= i < |b| ==> b[i] == f(rb[i])
    ensures |a + b| == |ra + rb|
    ensures forall i :: 0 <= i < |a + b| ==> (a + b)[i] == f((ra + rb)[i])
  {
    forall i | 0 <= i < |a + b| ensures (a + b)[i] == f((ra + rb)[i]) {
      if i >= |a| {
        assert (a + b)[i] == b[i - |a|] && (ra + rb)[i] == rb[i - |a|];
      }
    }
  }
}
