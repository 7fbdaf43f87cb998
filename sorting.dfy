/** IntArrays.parallelQuickSortIndirect(perm, key[, from, to]) from fastutil,
    an external library: it reorders perm (or the range [from, to) of it) so
    that key[perm[i]] ascends.  The model sorts by insertion with swaps,
    which promises the same result up to the order of equal keys. */
module Sorting {

  /** The entries of s index key, and their keys ascend. */
  ghost predicate SortedByKey(s: seq<int>, key: seq<int>)
  {
    (forall i :: 0 <= i < |s| ==> 0 <= s[i] < |key|) &&
    forall i, j :: 0 <= i < j < |s| ==> InOrder(s, key, i, j)
  }

  /** Position i of s has a key no greater than position j. */
  ghost predicate InOrder(s: seq<int>, key: seq<int>, i: int, j: int)
  {
    0 <= i < |s| && 0 <= j < |s| && 0 <= s[i] < |key| && 0 <= s[j] < |key| &&
    key[s[i]] <= key[s[j]]
  }

  /** Exchanging two entries inside [lo, hi) keeps the multiset of that range. */
  lemma SwapKeeps(s: seq<int>, lo: int, hi: int, i: int, j: int)
    requires 0 <= lo <= i < hi <= |s| && lo <= j < hi
    ensures multiset(s[i := s[j]][j := s[i]][lo..hi]) == multiset(s[lo..hi])
  {
    var t := s[lo..hi];
    assert s[i := s[j]][j := s[i]][lo..hi] == t[i - lo := t[j - lo]][j - lo := t[i - lo]];
  }

  /** parallelQuickSortIndirect(a, key, lo, hi): afterwards the range holds
      the same entries, ordered by key, and nothing outside it changed. */
  method SortIndirect(a: array<int>, lo: int, hi: int, key: seq<int>)
    requires 0 <= lo <= hi <= a.Length
    requires forall i :: lo <= i < hi ==> 0 <= a[i] < |key|
    modifies a
    ensures a[..lo] == old(a[..lo]) && a[hi..] == old(a[hi..])
    ensures multiset(a[lo..hi]) == multiset(old(a[lo..hi]))
    ensures SortedByKey(a[lo..hi], key)
  {
    if lo == hi {
      return;
    }
    for i := lo + 1 to hi
      invariant a[..lo] == old(a[..lo]) && a[hi..] == old(a[hi..])
      invariant multiset(a[lo..hi]) == multiset(old(a[lo..hi]))
      invariant forall k :: lo <= k < hi ==> 0 <= a[k] < |key|
      invariant SortedByKey(a[lo..i], key)
    {
      InsertOne(a, lo, hi, i, key);
    }
  }

  /** One pass of insertion sort: the entry at position i sinks into the
      sorted prefix [lo, i). */
  method InsertOne(a: array<int>, lo: int, hi: int, i: int, key: seq<int>)
    requires 0 <= lo < i < hi <= a.Length
    requires forall k :: lo <= k < hi ==> 0 <= a[k] < |key|
    requires SortedByKey(a[lo..i], key)
    modifies a
    ensures a[..lo] == old(a[..lo]) && a[hi..] == old(a[hi..])
    ensures multiset(a[lo..hi]) == multiset(old(a[lo..hi]))
    ensures forall k :: lo <= k < hi ==> 0 <= a[k] < |key|
    ensures SortedByKey(a[lo..i + 1], key)
  {
    var j := i;
    SinkStart(a[..], lo, hi, i, key);
    while j > lo && key[a[j - 1]] > key[a[j]]
      invariant lo <= j <= i
      invariant a[..lo] == old(a[..lo]) && a[hi..] == old(a[hi..])
      invariant multiset(a[lo..hi]) == multiset(old(a[lo..hi]))
      invariant Sinking(a[..], lo, hi, i, j, key)
      decreases j
    {
      SwapKeeps(a[..], lo, hi, j - 1, j);
      SinkStep(a[..], lo, hi, i, j, key);
      a[j - 1], a[j] := a[j], a[j - 1];
      j := j - 1;
    }
    SinkDone(a[..], lo, hi, i, j, key);
  }

  /** The state of an insertion pass whose entry sits at j: the range indexes
      key, the other positions of [lo, i] are in order, and the entry's key
      is below every key to its right. */
  ghost predicate Sinking(s: seq<int>, lo: int, hi: int, i: int, j: int, key: seq<int>)
  {
    0 <= lo <= j <= i < hi <= |s| &&
    (forall k :: lo <= k < hi ==> 0 <= s[k] < |key|) &&
    (forall k, l :: lo <= k < l <= i && k != j && l != j ==> InOrder(s, key, k, l)) &&
    (forall l :: j < l <= i ==> key[s[j]] < key[s[l]])
  }

  lemma SinkStart(s: seq<int>, lo: int, hi: int, i: int, key: seq<int>)
    requires 0 <= lo < i < hi <= |s|
    requires forall k :: lo <= k < hi ==> 0 <= s[k] < |key|
    requires SortedByKey(s[lo..i], key)
    ensures Sinking(s, lo, hi, i, i, key)
  {
    forall k, l | lo <= k < l <= i && k != i && l != i
      ensures InOrder(s, key, k, l)
    {
      assert InOrder(s[lo..i], key, k - lo, l - lo);
    }
  }

  lemma SinkStep(s: seq<int>, lo: int, hi: int, i: int, j: int, key: seq<int>)
    requires Sinking(s, lo, hi, i, j, key) && lo < j && key[s[j - 1]] > key[s[j]]
    ensures Sinking(s[j - 1 := s[j]][j := s[j - 1]], lo, hi, i, j - 1, key)
  {
    var t := s[j - 1 := s[j]][j := s[j - 1]];
    forall k, l | lo <= k < l <= i && k != j - 1 && l != j - 1
      ensures InOrder(t, key, k, l)
    {
      if l == j {
        assert InOrder(s, key, k, j - 1);
      } else if k == j {
        assert InOrder(s, key, j - 1, l);
      } else {
        assert InOrder(s, key, k, l);
      }
    }
  }

  lemma SinkDone(s: seq<int>, lo: int, hi: int, i: int, j: int, key: seq<int>)
    requires Sinking(s, lo, hi, i, j, key)
    requires j == lo || key[s[j - 1]] <= key[s[j]]
    ensures SortedByKey(s[lo..i + 1], key)
  {
    var u := s[lo..i + 1];
    forall k, l | 0 <= k < l < |u|
      ensures InOrder(u, key, k, l)
    {
      if l + lo == j && k + lo < j - 1 {
        assert InOrder(s, key, k + lo, j - 1);
      } else if k + lo != j && l + lo != j {
        assert InOrder(s, key, k + lo, l + lo);
      }
    }
  }
}
