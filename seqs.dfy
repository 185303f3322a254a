/** Facts about sequences shared by the order-preserving filters of the model. */
module Seqs {

  /** `a` is obtained from `b` by deleting elements, keeping the order of the rest. */
  predicate Subsequence<T(==)>(a: seq<T>, b: seq<T>)
    decreases |b|
  {
    if a == [] then true
    else if b == [] then false
    else (a[0] == b[0] && Subsequence(a[1..], b[1..])) || Subsequence(a, b[1..])
  }

  lemma {:induction false} SubsequenceLength<T>(a: seq<T>, b: seq<T>)
    requires Subsequence(a, b)
    ensures |a| <= |b|
  {
    if a != [] {
      if a[0] == b[0] && Subsequence(a[1..], b[1..]) {
        SubsequenceLength(a[1..], b[1..]);
      } else {
        SubsequenceLength(a, b[1..]);
      }
    }
  }

  /** Number of `true` entries, e.g. the filled stars of a rating row. */
  function CountTrue(bs: seq<bool>): (n: nat)
    ensures n <= |bs|
    ensures n == |bs| <==> forall i :: 0 <= i < |bs| ==> bs[i]
  {
    if bs == [] then 0 else (if bs[0] then 1 else 0) + CountTrue(bs[1..])
  }

  /** When exactly the first `k` entries are `true`, `k` entries are `true`. */
  lemma {:induction false} CountLeading(bs: seq<bool>, k: int)
    requires 0 <= k <= |bs|
    requires forall i :: 0 <= i < |bs| ==> (bs[i] <==> i < k)
    ensures CountTrue(bs) == k
  {
    if bs != [] {
      if k > 0 {
        CountLeading(bs[1..], k - 1);
      } else {
        CountLeading(bs[1..], 0);
      }
    }
  }
}
