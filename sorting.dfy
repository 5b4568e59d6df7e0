/** The sequence machinery behind the validity test of a reordering response:
    Python's sorted() on integers, list(range(n)), and the comprehension
    [items[i] for i in indices]. */
module Sorting {

  predicate IsSorted(s: seq<int>) {
    forall i, j :: 0 <= i < j < |s| ==> s[i] <= s[j]
  }

  predicate Distinct(s: seq<int>) {
    forall i, j :: 0 <= i < j < |s| ==> s[i] != s[j]
  }

  /** The reference meaning of "a permutation of 0..n-1": n indices, each in range,
      no index twice. */
  predicate IsPermutation(p: seq<int>, n: nat) {
    |p| == n && (forall k :: 0 <= k < |p| ==> 0 <= p[k] < n) && Distinct(p)
  }

  /** list(range(n)) */
  function Range(n: nat): (r: seq<int>)
    ensures |r| == n && forall i :: 0 <= i < n ==> r[i] == i
  {
    if n == 0 then [] else Range(n - 1) + [n - 1]
  }

  /** Insert x in front of the first element that is not below it. */
  function Insert(x: int, s: seq<int>): (r: seq<int>)
    ensures multiset(r) == multiset(s) + multiset{x}
  {
    if s == [] then [x]
    else if x <= s[0] then [x] + s
    else
      assert s == [s[0]] + s[1..];
      [s[0]] + Insert(x, s[1..])
  }

  /** Every element of Insert(x, s) is x or an element of s. */
  lemma InsertElement(x: int, s: seq<int>, k: nat)
    requires k < |Insert(x, s)|
    ensures Insert(x, s)[k] == x || Insert(x, s)[k] in s
  {
    var r := Insert(x, s);
    assert r[k] in multiset(r);
  }

  /** A sorted sequence stays sorted behind an element no larger than any of it. */
  lemma ConsSorted(h: int, t: seq<int>)
    requires IsSorted(t)
    requires forall k :: 0 <= k < |t| ==> h <= t[k]
    ensures IsSorted([h] + t)
  {
    var r := [h] + t;
    forall i, j | 0 <= i < j < |r| ensures r[i] <= r[j] {
      assert r[j] == t[j - 1];
      if i > 0 { assert r[i] == t[i - 1]; }
    }
  }

  /** Inserting into a sorted sequence keeps it sorted. */
  lemma {:induction false} InsertSorted(x: int, s: seq<int>)
    requires IsSorted(s)
    ensures IsSorted(Insert(x, s))
  {
    if s != [] && x > s[0] {
      var tail := Insert(x, s[1..]);
      InsertSorted(x, s[1..]);
      forall k | 0 <= k < |tail| ensures s[0] <= tail[k] {
        InsertElement(x, s[1..], k);
      }
      ConsSorted(s[0], tail);
    }
  }

  /** sorted() on a list of integers. */
  function Sort(s: seq<int>): (r: seq<int>)
    ensures multiset(r) == multiset(s)
    ensures IsSorted(r)
  {
    if s == [] then []
    else
      assert s == [s[0]] + s[1..];
      var t := Sort(s[1..]);
      InsertSorted(s[0], t);
      Insert(s[0], t)
  }

  /** [items[i] for i in p]: one element per index, each of them one of the items. */
  function Pick<T>(items: seq<T>, p: seq<int>): (r: seq<T>)
    requires forall k :: 0 <= k < |p| ==> 0 <= p[k] < |items|
    ensures |r| == |p|
    ensures forall k :: 0 <= k < |r| ==> r[k] in items
  {
    seq(|p|, k requires 0 <= k < |p| => items[p[k]])
  }

  // ---------------------------------------------------------------------------
  // sorted(p) == list(range(n)) holds exactly for the permutations of 0..n-1

  /** An index that occurs twice is counted twice. */
  lemma RepeatCount(s: seq<int>, i: nat, j: nat)
    requires i < j < |s| && s[i] == s[j]
    ensures multiset(s)[s[i]] >= 2
  {
    assert s == s[..j] + [s[j]] + s[j + 1..];
    assert s[..j][i] == s[i];
  }

  /** A sequence without repeats counts each element at most once. */
  lemma {:induction false} DistinctCount(s: seq<int>, v: int)
    requires Distinct(s)
    ensures multiset(s)[v] <= 1
  {
    if s != [] {
      assert s == [s[0]] + s[1..];
      assert Distinct(s[1..]) by {
        forall i, j | 0 <= i < j < |s[1..]| ensures s[1..][i] != s[1..][j] {
          assert s[1..][i] == s[i + 1] && s[1..][j] == s[j + 1];
        }
      }
      DistinctCount(s[1..], v);
      if s[0] == v {
        assert v !in s[1..] by {
          forall k | 0 <= k < |s[1..]| ensures s[1..][k] != v {
            assert s[1..][k] == s[k + 1];
          }
        }
      }
    }
  }

  lemma RangeCount(n: nat, v: int)
    ensures multiset(Range(n))[v] == if 0 <= v < n then 1 else 0
  {
    var r := Range(n);
    if v in multiset(r) {
      var i :| 0 <= i < |r| && r[i] == v;
    }
    assert Distinct(r);
    DistinctCount(r, v);
    if 0 <= v < n {
      assert r[v] == v;
    }
  }

  /** In a strictly increasing sequence, values grow at least as fast as positions. */
  lemma {:induction false} StrictGap(t: seq<int>, i: nat, j: nat)
    requires forall a, b :: 0 <= a < b < |t| ==> t[a] < t[b]
    requires i <= j < |t|
    ensures t[j] - t[i] >= j - i
    decreases j - i
  {
    if i < j {
      StrictGap(t, i + 1, j);
    }
  }

  /** A strictly increasing sequence of n values in 0..n-1 is 0, 1, ..., n-1. */
  lemma StrictIsRange(t: seq<int>, n: nat)
    requires |t| == n
    requires forall a, b :: 0 <= a < b < |t| ==> t[a] < t[b]
    requires forall k :: 0 <= k < |t| ==> 0 <= t[k] < n
    ensures t == Range(n)
  {
    forall k | 0 <= k < n ensures t[k] == k {
      StrictGap(t, 0, k);
      StrictGap(t, k, n - 1);
    }
  }

  /** Sorting does not change which values occur. */
  lemma InSorted(p: seq<int>, k: nat)
    requires k < |Sort(p)|
    ensures Sort(p)[k] in p
  {
    assert Sort(p)[k] in multiset(Sort(p));
  }

  /** What sorted(p) == list(range(n)) tells about p. */
  lemma SortCheckSound(p: seq<int>, n: nat)
    requires Sort(p) == Range(n)
    ensures IsPermutation(p, n)
  {
    var t := Sort(p);
    assert |p| == |multiset(p)| == |multiset(t)| == n;
    forall k | 0 <= k < |p| ensures 0 <= p[k] < n {
      RangeCount(n, p[k]);
      assert p[k] in multiset(p);
    }
    forall i, j | 0 <= i < j < |p| ensures p[i] != p[j] {
      if p[i] == p[j] {
        RepeatCount(p, i, j);
        RangeCount(n, p[i]);
      }
    }
  }

  /** Every permutation of 0..n-1 passes sorted(p) == list(range(n)). */
  lemma SortCheckComplete(p: seq<int>, n: nat)
    requires IsPermutation(p, n)
    ensures Sort(p) == Range(n)
  {
    var t := Sort(p);
    assert |t| == |multiset(t)| == |multiset(p)| == n;
    forall k | 0 <= k < |t| ensures 0 <= t[k] < n {
      InSorted(p, k);
    }
    forall a, b | 0 <= a < b < |t| ensures t[a] < t[b] {
      if t[a] == t[b] {
        RepeatCount(t, a, b);
        DistinctCount(p, t[a]);
      }
    }
    StrictIsRange(t, n);
  }

  /** The validity test of the reorderer, sorted(p) == list(range(n)), accepts
      exactly the permutations of 0..n-1. */
  lemma SortCheck(p: seq<int>, n: nat)
    ensures Sort(p) == Range(n) <==> IsPermutation(p, n)
  {
    if Sort(p) == Range(n) {
      SortCheckSound(p, n);
    }
    if IsPermutation(p, n) {
      SortCheckComplete(p, n);
    }
  }

  // ---------------------------------------------------------------------------
  // Picking by a permutation rearranges the items

  lemma PickConcat<T>(items: seq<T>, a: seq<int>, b: seq<int>)
    requires forall k :: 0 <= k < |a| ==> 0 <= a[k] < |items|
    requires forall k :: 0 <= k < |b| ==> 0 <= b[k] < |items|
    ensures Pick(items, a + b) == Pick(items, a) + Pick(items, b)
  {
    var ab := a + b;
    assert forall k :: 0 <= k < |ab| ==> ab[k] == if k < |a| then a[k] else b[k - |a|];
  }

  /** Removing the element at position j removes one copy of it. */
  lemma MultisetRemove(q: seq<int>, j: nat)
    requires j < |q|
    ensures multiset(q[..j] + q[j + 1..]) == multiset(q) - multiset{q[j]}
  {
    assert q == q[..j] + [q[j]] + q[j + 1..];
  }

  /** Picking splits around any one position. */
  lemma PickSlices<T>(items: seq<T>, q: seq<int>, j: nat)
    requires forall k :: 0 <= k < |q| ==> 0 <= q[k] < |items|
    requires j < |q|
    ensures Pick(items, q) == Pick(items, q[..j]) + [items[q[j]]] + Pick(items, q[j + 1..])
  {
    var r := Pick(items, q);
    var a, b := Pick(items, q[..j]), Pick(items, q[j + 1..]);
    assert r == r[..j] + [r[j]] + r[j + 1..];
    assert r[..j] == a;
    assert r[j + 1..] == b;
  }

  /** The same removal on the picked items. */
  lemma PickRemove<T>(items: seq<T>, q: seq<int>, j: nat)
    requires forall k :: 0 <= k < |q| ==> 0 <= q[k] < |items|
    requires j < |q|
    ensures multiset(Pick(items, q)) == multiset(Pick(items, q[..j] + q[j + 1..])) + multiset{items[q[j]]}
  {
    PickSlices(items, q, j);
    PickConcat(items, q[..j], q[j + 1..]);
  }

  /** Taking the first index of p out of q, where it sits at position j. */
  lemma RemoveMatch(p: seq<int>, q: seq<int>, j: nat)
    requires p != [] && j < |q| && q[j] == p[0]
    requires multiset(p) == multiset(q)
    ensures multiset(p[1..]) == multiset(q[..j] + q[j + 1..])
  {
    assert p[..0] + p[1..] == p[1..];
    MultisetRemove(q, j);
    MultisetRemove(p, 0);
  }

  /** The picked items agree once they agree after the matched index is taken out. */
  lemma PickMatch<T>(items: seq<T>, p: seq<int>, q: seq<int>, j: nat)
    requires forall k :: 0 <= k < |p| ==> 0 <= p[k] < |items|
    requires forall k :: 0 <= k < |q| ==> 0 <= q[k] < |items|
    requires p != [] && j < |q| && q[j] == p[0]
    requires multiset(Pick(items, p[1..])) == multiset(Pick(items, q[..j] + q[j + 1..]))
    ensures multiset(Pick(items, p)) == multiset(Pick(items, q))
  {
    assert p[..0] + p[1..] == p[1..];
    PickRemove(items, q, j);
    PickRemove(items, p, 0);
  }

  /** Index sequences with the same elements pick the same items, in some order. */
  lemma {:induction false} PickSameElements<T>(items: seq<T>, p: seq<int>, q: seq<int>)
    requires forall k :: 0 <= k < |p| ==> 0 <= p[k] < |items|
    requires forall k :: 0 <= k < |q| ==> 0 <= q[k] < |items|
    requires multiset(p) == multiset(q)
    ensures multiset(Pick(items, p)) == multiset(Pick(items, q))
    decreases |p|
  {
    if p == [] {
      assert |q| == |multiset(q)| == 0;
    } else {
      assert p[0] in multiset(q);
      var j :| 0 <= j < |q| && q[j] == p[0];
      RemoveMatch(p, q, j);
      PickSameElements(items, p[1..], q[..j] + q[j + 1..]);
      PickMatch(items, p, q, j);
    }
  }

  /** [items[i] for i in p] for a permutation p of the positions is a rearrangement of items. */
  lemma PickPermutes<T>(items: seq<T>, p: seq<int>)
    requires IsPermutation(p, |items|)
    ensures multiset(Pick(items, p)) == multiset(items)
  {
    var n := |items|;
    PermutationElements(p, n);
    PickSameElements(items, p, Range(n));
    PickRange(items);
  }

  /** A permutation of 0..n-1 has the elements of Range(n). */
  lemma PermutationElements(p: seq<int>, n: nat)
    requires IsPermutation(p, n)
    ensures forall k :: 0 <= k < |p| ==> 0 <= p[k] < n
    ensures multiset(p) == multiset(Range(n))
  {
    SortCheckComplete(p, n);
  }

  /** Picking every position in order gives the items back. */
  lemma PickRange<T>(items: seq<T>)
    ensures Pick(items, Range(|items|)) == items
  {
  }
}
