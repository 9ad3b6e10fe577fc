/**
 * `Array.prototype.sort(compare)` / `list.sort(key=...)`: an in-place sort of
 * an array under a comparator that is a total preorder on the values it is
 * applied to. `ok` names those values (a comparator may be undefined on
 * others: the yogi comparators read an application that must exist).
 */
module Sorting {

  /** `leq` is defined on, total on and transitive on the values `ok` admits. */
  ghost predicate TotalPreorder<T(!new)>(ok: T -> bool, leq: (T, T) --> bool)
  {
    && (forall x, y :: ok(x) && ok(y) ==> leq.requires(x, y))
    && (forall x, y :: ok(x) && ok(y) ==> leq(x, y) || leq(y, x))
    && (forall x, y, z :: ok(x) && ok(y) && ok(z) && leq(x, y) && leq(y, z) ==> leq(x, z))
  }

  ghost predicate AllOk<T>(s: seq<T>, ok: T -> bool)
  {
    forall i :: 0 <= i < |s| ==> ok(s[i])
  }

  ghost predicate SortedBy<T(!new)>(s: seq<T>, ok: T -> bool, leq: (T, T) --> bool)
    requires TotalPreorder(ok, leq)
  {
    AllOk(s, ok) && forall i, j :: 0 <= i < j < |s| ==> leq(s[i], s[j])
  }

  /** Exchanges two elements; nothing else changes. */
  method Swap<T>(a: array<T>, i: nat, j: nat)
    requires i < a.Length && j < a.Length
    modifies a
    ensures a[i] == old(a[j]) && a[j] == old(a[i])
    ensures forall k :: 0 <= k < a.Length && k != i && k != j ==> a[k] == old(a[k])
    ensures multiset(a[..]) == multiset(old(a[..]))
  {
    a[i], a[j] := a[j], a[i];
  }

  /**
   * One step of insertion sort: with `a[..i]` sorted, `a[i]` moves left past
   * every element it strictly precedes, so that `a[..i + 1]` is sorted.
   */
  method Insert<T(!new)>(a: array<T>, i: nat, ghost ok: T -> bool, leq: (T, T) --> bool)
    requires TotalPreorder(ok, leq)
    requires i < a.Length
    requires forall k :: 0 <= k < a.Length ==> ok(a[k])
    requires forall k, l :: 0 <= k < l < i ==> leq(a[k], a[l])
    modifies a
    ensures forall k :: 0 <= k < a.Length ==> ok(a[k])
    ensures forall k, l :: 0 <= k < l <= i ==> leq(a[k], a[l])
    ensures multiset(a[..]) == multiset(old(a[..]))
    ensures forall k :: i < k < a.Length ==> a[k] == old(a[k])
    ensures i == 0 || leq(old(a[i - 1]), old(a[i])) ==> a[..] == old(a[..])
  {
    var j := i;
    while j > 0 && !leq(a[j - 1], a[j])
      invariant 0 <= j <= i
      invariant forall k :: 0 <= k < a.Length ==> ok(a[k])
      invariant forall k, l :: 0 <= k < l <= i && k != j && l != j ==> leq(a[k], a[l])
      invariant forall l :: j < l <= i ==> leq(a[j], a[l])
      invariant forall k :: i < k < a.Length ==> a[k] == old(a[k])
      invariant multiset(a[..]) == multiset(old(a[..]))
      invariant j == i ==> a[..] == old(a[..])
      invariant j < i ==> 0 < i && !leq(old(a[i - 1]), old(a[i]))
    {
      Swap(a, j - 1, j);
      j := j - 1;
    }
  }

  /**
   * Insertion sort. The result is a permutation of the input, sorted under
   * `leq`; an input that is already sorted is left exactly as it was (the
   * sort only moves an element past one it strictly follows).
   */
  method SortInPlace<T(!new)>(a: array<T>, ghost ok: T -> bool, leq: (T, T) --> bool)
    requires TotalPreorder(ok, leq)
    requires AllOk(a[..], ok)
    modifies a
    ensures SortedBy(a[..], ok, leq)
    ensures multiset(a[..]) == multiset(old(a[..]))
    ensures SortedBy(old(a[..]), ok, leq) ==> a[..] == old(a[..])
  {
    ghost var sortedInput := SortedBy(a[..], ok, leq);
    var i := 0;
    while i < a.Length
      invariant 0 <= i <= a.Length
      invariant forall k :: 0 <= k < a.Length ==> ok(a[k])
      invariant forall k, l :: 0 <= k < l < i ==> leq(a[k], a[l])
      invariant multiset(a[..]) == multiset(old(a[..]))
      invariant sortedInput ==> a[..] == old(a[..])
    {
      assert sortedInput && 0 < i ==> leq(old(a[..])[i - 1], old(a[..])[i]);
      Insert(a, i, ok, leq);
      i := i + 1;
    }
  }
}
