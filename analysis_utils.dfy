/**
 * The search helper of the analysis package: a binary search over a list
 * sorted in decreasing order, optionally through a key function.
 */
module AnalysisUtils {
  import opened Wrappers

  /** The value compared with the target: `key(v)` when a key function is
      given, `v` itself otherwise. */
  function KeyOf(key: Option<int -> int>, v: int): int {
    if key.Some? then key.value(v) else v
  }

  /** The keys of `a` never increase from left to right. */
  predicate DecreasingBy(a: seq<int>, key: Option<int -> int>) {
    forall i, j :: 0 <= i < j < |a| ==> KeyOf(key, a[i]) >= KeyOf(key, a[j])
  }

  /** How many elements of `a` have a key of at least `x`. */
  function CountAtLeast(a: seq<int>, x: int, key: Option<int -> int>): nat {
    if a == [] then 0
    else (if KeyOf(key, a[0]) >= x then 1 else 0) + CountAtLeast(a[1..], x, key)
  }

  /** Returns the index of the first element whose key is less than `x`, or
      `|a|` when there is none. The list is only read. */
  method BinarySearch(a: seq<int>, x: int, key: Option<int -> int>) returns (r: nat)
    ensures r <= |a|
    ensures DecreasingBy(a, key) ==> forall i :: 0 <= i < r ==> KeyOf(key, a[i]) >= x
    ensures DecreasingBy(a, key) ==> forall i :: r <= i < |a| ==> KeyOf(key, a[i]) < x
    ensures DecreasingBy(a, key) ==> r == CountAtLeast(a, x, key)
    ensures DecreasingBy(a, key) ==> (r == 0 <==> a == [] || KeyOf(key, a[0]) < x)
  {
    var left := 0;
    var right := |a|;
    while left < right
      invariant 0 <= left <= right <= |a|
      invariant DecreasingBy(a, key) ==> forall i :: 0 <= i < left ==> KeyOf(key, a[i]) >= x
      invariant DecreasingBy(a, key) ==> forall i :: right <= i < |a| ==> KeyOf(key, a[i]) < x
      decreases right - left
    {
      var mid := (right + left) / 2;
      if KeyOf(key, a[mid]) >= x {
        left := mid + 1;
      } else {
        right := mid;
      }
    }
    r := right;
    if DecreasingBy(a, key) {
      PartitionPointIsCount(a, x, key, r);
    }
  }

  /** An index that splits `a` into keys of at least `x` followed by keys
      below `x` is the number of keys of at least `x`; so there is only one. */
  lemma {:induction false} PartitionPointIsCount(a: seq<int>, x: int, key: Option<int -> int>, r: nat)
    requires r <= |a|
    requires forall i :: 0 <= i < r ==> KeyOf(key, a[i]) >= x
    requires forall i :: r <= i < |a| ==> KeyOf(key, a[i]) < x
    ensures CountAtLeast(a, x, key) == r
  {
    if a != [] {
      var r' := if r == 0 then 0 else r - 1;
      assert forall i :: 0 <= i < r' ==> a[1..][i] == a[i + 1];
      PartitionPointIsCount(a[1..], x, key, r');
    }
  }
}
