/**
 * Stable sorting by a descending integer key, the ordering both leaderboards
 * and the check-in list use. JavaScript's `Array.prototype.sort` is stable,
 * so sorting with the comparator `(a, b) => key(b) - key(a)` gives exactly
 * the stable descending order defined here by insertion.
 */
module Sorting {

  /** No element has a smaller key than one after it. */
  predicate SortedDesc<T>(s: seq<T>, key: T -> int)
  {
    forall i, j :: 0 <= i < j < |s| ==> key(s[i]) >= key(s[j])
  }

  /** Where a stable insertion puts x into s: after every trailing element whose key is at least x's. */
  function InsertPos<T>(s: seq<T>, x: T, key: T -> int): (p: nat)
    ensures p <= |s|
    ensures forall k :: p <= k < |s| ==> key(s[k]) < key(x)
    ensures p > 0 ==> key(s[p - 1]) >= key(x)
  {
    if s == [] || key(s[|s| - 1]) >= key(x) then |s| else InsertPos(s[..|s| - 1], x, key)
  }

  /** Stable insertion of x into s. */
  function Insert<T>(s: seq<T>, x: T, key: T -> int): (r: seq<T>)
    ensures |r| == |s| + 1
  {
    var p := InsertPos(s, x, key);
    s[..p] + [x] + s[p..]
  }

  /** Where each element of an insertion comes from. */
  lemma InsertIndex<T>(s: seq<T>, x: T, key: T -> int, k: nat)
    requires k <= |s|
    ensures var p := InsertPos(s, x, key);
      Insert(s, x, key)[k] == if k < p then s[k] else if k == p then x else s[k - 1]
  {
  }

  /** Inserting into a sorted sequence keeps it sorted. */
  lemma InsertSorted<T>(s: seq<T>, x: T, key: T -> int)
    requires SortedDesc(s, key)
    ensures SortedDesc(Insert(s, x, key), key)
  {
    var p := InsertPos(s, x, key);
    var r := Insert(s, x, key);
    forall i, j | 0 <= i < j < |r| ensures key(r[i]) >= key(r[j]) {
      InsertIndex(s, x, key, i);
      InsertIndex(s, x, key, j);
      if j == p {
        assert key(s[i]) >= key(s[p - 1]);
      }
    }
  }

  /** Inserting adds exactly x. */
  lemma InsertMultiset<T>(s: seq<T>, x: T, key: T -> int)
    ensures multiset(Insert(s, x, key)) == multiset(s) + multiset{x}
  {
    var p := InsertPos(s, x, key);
    assert s == s[..p] + s[p..];
  }

  /**
   * Stable sort by descending key: insertion sort, element by element from
   * the front. The result is sorted and a permutation of the input.
   */
  function SortDesc<T>(s: seq<T>, key: T -> int): (r: seq<T>)
    ensures |r| == |s|
    ensures SortedDesc(r, key)
    ensures multiset(r) == multiset(s)
  {
    if s == [] then []
    else
      var init, last := s[..|s| - 1], s[|s| - 1];
      var sorted := SortDesc(init, key);
      InsertLast(s, sorted, key);
      Insert(sorted, last, key)
  }

  /** Inserting the last element into the sorted rest sorts the whole sequence. */
  lemma InsertLast<T>(s: seq<T>, sorted: seq<T>, key: T -> int)
    requires s != [] && SortedDesc(sorted, key) && multiset(sorted) == multiset(s[..|s| - 1])
    ensures SortedDesc(Insert(sorted, s[|s| - 1], key), key)
    ensures multiset(Insert(sorted, s[|s| - 1], key)) == multiset(s)
  {
    InsertSorted(sorted, s[|s| - 1], key);
    InsertMultiset(sorted, s[|s| - 1], key);
    assert s == s[..|s| - 1] + [s[|s| - 1]];
  }

  /** A sequence that is already sorted comes back unchanged: the sort is stable and idempotent. */
  lemma {:induction false} SortDescSortedId<T>(s: seq<T>, key: T -> int)
    requires SortedDesc(s, key)
    ensures SortDesc(s, key) == s
  {
    if s != [] {
      var init := s[..|s| - 1];
      assert SortedDesc(init, key);
      SortDescSortedId(init, key);
      assert InsertPos(init, s[|s| - 1], key) == |init|;
      assert init[..|init|] == init;
    }
  }

  /** The first n elements, or all when there are fewer (`slice(0, n)`). */
  function Take<T>(s: seq<T>, n: nat): (r: seq<T>)
    ensures |r| == if |s| <= n then |s| else n
    ensures r == s[..|r|]
  {
    if |s| <= n then s else s[..n]
  }

  /** The first n elements of a sorted sequence rank at least as high as every element left out. */
  lemma TakeKeepsTop<T>(s: seq<T>, n: nat, key: T -> int)
    requires SortedDesc(s, key)
    ensures forall x, y :: x in multiset(s) - multiset(Take(s, n)) && y in Take(s, n) ==> key(y) >= key(x)
  {
    var r := Take(s, n);
    var dropped := s[|r|..];
    assert s == r + dropped;
    assert multiset(s) - multiset(r) == multiset(dropped);
    forall x, y | x in multiset(dropped) && y in r ensures key(y) >= key(x) {
      var k :| 0 <= k < |dropped| && dropped[k] == x;
      var j :| 0 <= j < |r| && r[j] == y;
      assert s[j] == y && s[|r| + k] == x;
    }
  }

  /** A prefix of a sorted sequence is sorted. */
  lemma TakeSorted<T>(s: seq<T>, n: nat, key: T -> int)
    requires SortedDesc(s, key)
    ensures SortedDesc(Take(s, n), key)
  {
  }
}
