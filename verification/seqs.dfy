/** Sequence helpers shared by the roster and grade-list operations. */
module Seqs {
  import opened Wrappers

  /** The index of the first element at or after `from` that satisfies `p`, as
      Swift's `firstIndex(where:)` (and `first(where:)`, `filter(_:).first`) finds it. */
  function FirstIndexWhere<T>(s: seq<T>, p: T -> bool, from: nat): (r: Option<nat>)
    requires from <= |s|
    ensures r.None? <==> forall j :: from <= j < |s| ==> !p(s[j])
    ensures r.Some? ==> from <= r.value < |s| && p(s[r.value])
    ensures r.Some? ==> forall j :: from <= j < r.value ==> !p(s[j])
    decreases |s| - from
  {
    if from == |s| then None
    else if p(s[from]) then Some(from)
    else FirstIndexWhere(s, p, from + 1)
  }

  /** `s` without the element at index `k`, as Swift's `remove(at:)` leaves it. */
  function RemoveAt<T>(s: seq<T>, k: nat): (r: seq<T>)
    requires k < |s|
    ensures |r| == |s| - 1
    ensures forall j :: 0 <= j < k ==> r[j] == s[j]
    ensures forall j :: k <= j < |r| ==> r[j] == s[j + 1]
    ensures multiset(r) + multiset{s[k]} == multiset(s)
  {
    assert s == s[..k] + [s[k]] + s[k + 1..];
    s[..k] + s[k + 1..]
  }
}
