/**
 * `Array.prototype.filter` / list comprehensions with a condition, and what
 * they keep; the sum of the values of a map (a histogram's total).
 */
module Collections {

  /** `r` can be obtained from `s` by deleting elements: order is kept. */
  ghost predicate IsSubsequence<T>(r: seq<T>, s: seq<T>)
    decreases |s|
  {
    if r == [] then true
    else if s == [] then false
    else (r[0] == s[0] && IsSubsequence(r[1..], s[1..])) || IsSubsequence(r, s[1..])
  }

  /** `s.filter(p)`. */
  function Filter<T>(s: seq<T>, p: T -> bool): (r: seq<T>)
    ensures |r| <= |s|
  {
    if s == [] then []
    else if p(s[0]) then [s[0]] + Filter(s[1..], p)
    else Filter(s[1..], p)
  }

  /**
   * The filter keeps, in their order, exactly the elements that meet `p`:
   * all it returns meets `p`, and every element that meets `p` is returned.
   */
  lemma {:induction false} FilterKeeps<T>(s: seq<T>, p: T -> bool)
    ensures forall i :: 0 <= i < |Filter(s, p)| ==> Filter(s, p)[i] in s && p(Filter(s, p)[i])
    ensures forall i :: 0 <= i < |s| && p(s[i]) ==> s[i] in Filter(s, p)
    ensures IsSubsequence(Filter(s, p), s)
    decreases |s|
  {
    if s != [] {
      FilterKeeps(s[1..], p);
      var r := Filter(s, p);
      if p(s[0]) {
        assert r[1..] == Filter(s[1..], p);
      }
      forall i | 0 <= i < |s| && p(s[i])
        ensures s[i] in r
      {
        if i > 0 {
          assert s[i] == s[1..][i - 1];
        }
      }
    }
  }

  /** Filtering by `p` and then by `q` is filtering by both at once. */
  lemma {:induction false} FilterFilter<T>(s: seq<T>, p: T -> bool, q: T -> bool, pq: T -> bool)
    requires forall x :: pq(x) == (p(x) && q(x))
    ensures Filter(Filter(s, p), q) == Filter(s, pq)
    decreases |s|
  {
    if s != [] {
      FilterFilter(s[1..], p, q, pq);
    }
  }

  /** A condition every element meets removes nothing. */
  lemma {:induction false} FilterKeepsAll<T>(s: seq<T>, p: T -> bool)
    requires forall i :: 0 <= i < |s| ==> p(s[i])
    ensures Filter(s, p) == s
    decreases |s|
  {
    if s != [] {
      FilterKeepsAll(s[1..], p);
    }
  }

  /** `p` and its negation split `s` into two parts holding, together, exactly its elements. */
  lemma {:induction false} FilterPartition<T>(s: seq<T>, p: T -> bool, notP: T -> bool)
    requires forall x :: notP(x) == !p(x)
    ensures multiset(Filter(s, p)) + multiset(Filter(s, notP)) == multiset(s)
    decreases |s|
  {
    if s != [] {
      FilterPartition(s[1..], p, notP);
      assert s == [s[0]] + s[1..];
    }
  }

  lemma {:induction false} FilterConcat<T>(a: seq<T>, b: seq<T>, p: T -> bool)
    ensures Filter(a + b, p) == Filter(a, p) + Filter(b, p)
    decreases |a|
  {
    if a == [] {
      assert a + b == b;
    } else {
      assert (a + b)[0] == a[0];
      assert (a + b)[1..] == a[1..] + b;
      FilterConcat(a[1..], b, p);
    }
  }

  /** Two permutations of each other have as many elements satisfying `p`. */
  lemma {:induction false} CountIfPermutation<T>(a: seq<T>, b: seq<T>, p: T -> bool)
    requires multiset(a) == multiset(b)
    ensures CountIf(a, p) == CountIf(b, p)
    decreases |a|
  {
    if a == [] {
      assert |b| == |multiset(b)| == 0;
    } else {
      assert a[0] in multiset(b);
      var k :| 0 <= k < |b| && b[k] == a[0];
      RemoveMatching(a, b, k);
      CountIfPermutation(a[1..], b[..k] + b[k + 1..], p);
      CountIfRemove(b, k, p);
    }
  }

  lemma RemoveMatching<T>(a: seq<T>, b: seq<T>, k: nat)
    requires a != [] && multiset(a) == multiset(b) && k < |b| && b[k] == a[0]
    ensures multiset(a[1..]) == multiset(b[..k] + b[k + 1..])
  {
    var x := a[0];
    assert a == [x] + a[1..];
    assert b == b[..k] + [x] + b[k + 1..];
    assert multiset(a[1..]) == multiset(a) - multiset{x};
    assert multiset(b[..k] + b[k + 1..]) == multiset(b) - multiset{x};
  }

  lemma CountIfRemove<T>(s: seq<T>, k: nat, p: T -> bool)
    requires k < |s|
    ensures CountIf(s, p) == CountIf(s[..k] + s[k + 1..], p) + (if p(s[k]) then 1 else 0)
  {
    var a, x, b := s[..k], s[k], s[k + 1..];
    SpliceParts(s, k);
    CountIfConcat(a, [x] + b, p);
    CountIfConcat(a, b, p);
    CountIfConcat([x], b, p);
  }

  /** Filtering keeps every copy of a kept element and no copy of a dropped one. */
  lemma {:induction false} FilterCount<T>(s: seq<T>, p: T -> bool, x: T)
    ensures multiset(Filter(s, p))[x] == if p(x) then multiset(s)[x] else 0
    decreases |s|
  {
    if s != [] {
      FilterCount(s[1..], p, x);
      assert s == [s[0]] + s[1..];
    }
  }

  /** How many elements meet `p`: `s.filter(p).length`. */
  function CountIf<T>(s: seq<T>, p: T -> bool): (n: nat)
    ensures n == |Filter(s, p)|
    ensures n <= |s|
  {
    if s == [] then 0 else (if p(s[0]) then 1 else 0) + CountIf(s[1..], p)
  }

  /** Counting over a list with one more element at the end. */
  lemma {:induction false} CountIfSnoc<T>(s: seq<T>, x: T, p: T -> bool)
    ensures CountIf(s + [x], p) == CountIf(s, p) + (if p(x) then 1 else 0)
    decreases |s|
  {
    if s != [] {
      assert (s + [x])[1..] == s[1..] + [x];
      CountIfSnoc(s[1..], x, p);
    }
  }

  lemma {:induction false} CountIfConcat<T>(a: seq<T>, b: seq<T>, p: T -> bool)
    ensures CountIf(a + b, p) == CountIf(a, p) + CountIf(b, p)
    decreases |a|
  {
    if a == [] {
      assert a + b == b;
    } else {
      assert (a + b)[0] == a[0];
      assert (a + b)[1..] == a[1..] + b;
      CountIfConcat(a[1..], b, p);
    }
  }

  /** Removing an element that `p` rejects leaves the filtered list as it was. */
  lemma FilterSplice<T>(s: seq<T>, k: nat, p: T -> bool)
    requires k < |s| && !p(s[k])
    ensures Filter(s[..k] + s[k + 1..], p) == Filter(s, p)
  {
    var a, x, b := s[..k], s[k], s[k + 1..];
    SpliceParts(s, k);
    FilterSkip(x, b, p);
    FilterConcat(a, [x] + b, p);
    FilterConcat(a, b, p);
  }

  lemma SpliceParts<T>(s: seq<T>, k: nat)
    requires k < |s|
    ensures s == s[..k] + ([s[k]] + s[k + 1..])
  {
  }

  lemma FilterSkip<T>(x: T, b: seq<T>, p: T -> bool)
    requires !p(x)
    ensures Filter([x] + b, p) == Filter(b, p)
  {
    assert ([x] + b)[1..] == b;
  }

  /** Removing an element that `p` accepts lowers the count by one. */
  lemma CountIfSplice<T>(s: seq<T>, k: nat, p: T -> bool)
    requires k < |s| && p(s[k])
    ensures CountIf(s[..k] + s[k + 1..], p) + 1 == CountIf(s, p)
  {
    assert CountIf(s[k..], p) == CountIf(s[k + 1..], p) + 1 by {
      assert s[k..][0] == s[k] && s[k..][1..] == s[k + 1..];
    }
    assert CountIf(s, p) == CountIf(s[..k], p) + CountIf(s[k..], p) by {
      assert s[..k] + s[k..] == s;
      CountIfConcat(s[..k], s[k..], p);
    }
    CountIfConcat(s[..k], s[k + 1..], p);
  }

  /** The count is zero exactly when no element meets `p`. */
  lemma {:induction false} CountIfZero<T>(s: seq<T>, p: T -> bool)
    ensures CountIf(s, p) == 0 <==> forall k :: 0 <= k < |s| ==> !p(s[k])
    decreases |s|
  {
    if s != [] {
      CountIfZero(s[1..], p);
      if CountIf(s, p) == 0 {
        forall k | 0 < k < |s|
          ensures !p(s[k])
        {
          assert s[k] == s[1..][k - 1];
        }
      } else if !p(s[0]) {
        var k :| 0 <= k < |s[1..]| && p(s[1..][k]);
        assert p(s[k + 1]);
      }
    }
  }

  /** An element kept by `p` and one kept by `!p`: the two counts add up to the length. */
  lemma {:induction false} CountIfSplit<T>(s: seq<T>, p: T -> bool, notP: T -> bool)
    requires forall x :: notP(x) == !p(x)
    ensures CountIf(s, p) + CountIf(s, notP) == |s|
    decreases |s|
  {
    if s != [] {
      CountIfSplit(s[1..], p, notP);
    }
  }

  /** The lists `f` gives for the elements of `s`, laid end to end. */
  function FlatMap<T, U>(s: seq<T>, f: T -> seq<U>): seq<U> {
    if s == [] then [] else f(s[0]) + FlatMap(s[1..], f)
  }

  /** When every list `f` gives holds only elements meeting `p`, so does their concatenation. */
  lemma {:induction false} FlatMapAll<T, U>(s: seq<T>, f: T -> seq<U>, p: U -> bool)
    requires forall k :: 0 <= k < |s| ==> forall j :: 0 <= j < |f(s[k])| ==> p(f(s[k])[j])
    ensures forall i :: 0 <= i < |FlatMap(s, f)| ==> p(FlatMap(s, f)[i])
    decreases |s|
  {
    if s != [] {
      FlatMapAll(s[1..], f, p);
      var head, rest := f(s[0]), FlatMap(s[1..], f);
      assert FlatMap(s, f) == head + rest;
      forall i | 0 <= i < |head + rest|
        ensures p((head + rest)[i])
      {
        if i >= |head| {
          assert (head + rest)[i] == rest[i - |head|];
        }
      }
    }
  }

  /** One more element appends its list at the end. */
  lemma {:induction false} FlatMapSnoc<T, U>(s: seq<T>, x: T, f: T -> seq<U>)
    ensures FlatMap(s + [x], f) == FlatMap(s, f) + f(x)
    decreases |s|
  {
    if s == [] {
      assert [x][1..] == [];
    } else {
      assert (s + [x])[1..] == s[1..] + [x];
      FlatMapSnoc(s[1..], x, f);
    }
  }

  /** The value at `k`, 0 when `k` is absent (`m[k] || 0`). */
  function GetOrZero<K>(m: map<K, nat>, k: K): nat {
    if k in m then m[k] else 0
  }

  /** No element occurs twice. */
  predicate NoDuplicates<K(==)>(keys: seq<K>) {
    forall i, j :: 0 <= i < j < |keys| ==> keys[i] != keys[j]
  }

  /** The sum of the values of `m` at `keys` (0 for a key `m` lacks). */
  function SumOver<K>(m: map<K, nat>, keys: seq<K>): nat
    decreases |keys|
  {
    if keys == [] then 0 else GetOrZero(m, keys[0]) + SumOver(m, keys[1..])
  }

  /**
   * Adding one to the bucket of `k` adds one to a sum over distinct keys
   * that lists `k`, and nothing to one that does not.
   */
  lemma {:induction false} SumOverBump<K>(m: map<K, nat>, keys: seq<K>, k: K)
    requires NoDuplicates(keys)
    ensures SumOver(m[k := GetOrZero(m, k) + 1], keys) == SumOver(m, keys) + if k in keys then 1 else 0
    decreases |keys|
  {
    if keys != [] {
      SumOverBump(m, keys[1..], k);
      assert k in keys[1..] ==> keys[0] != k;
      assert k in keys <==> keys[0] == k || k in keys[1..];
    }
  }

  lemma {:induction false} SumOverSnoc<K>(m: map<K, nat>, keys: seq<K>, k: K)
    ensures SumOver(m, keys + [k]) == SumOver(m, keys) + GetOrZero(m, k)
    decreases |keys|
  {
    if keys == [] {
      assert keys + [k] == [k];
    } else {
      assert (keys + [k])[1..] == keys[1..] + [k];
      SumOverSnoc(m, keys[1..], k);
    }
  }
}
