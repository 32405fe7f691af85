/**
 * Ascending sort of integers, standing for Python's `list.sort()` and
 * `sorted(...)` on timestamps and day gaps. Sorting is characterised by
 * "ascending and a permutation", and that characterisation determines the
 * result uniquely, so any correct sort (Python's Timsort included) agrees
 * with `SortAsc`.
 */
module IntSort {

  predicate Ascending(s: seq<int>) {
    forall i, j | 0 <= i < j < |s| :: s[i] <= s[j]
  }

  /** How many leading elements of `s` are smaller than `x`. */
  function InsertPos(x: int, s: seq<int>): (m: nat)
    ensures m <= |s|
  {
    if s == [] || x <= s[0] then 0 else 1 + InsertPos(x, s[1..])
  }

  /** `InsertPos` skips a run of smaller elements and stops at one that is not smaller. */
  lemma {:induction false} InsertPosSplits(x: int, s: seq<int>)
    ensures forall t | 0 <= t < InsertPos(x, s) :: s[t] < x
    ensures InsertPos(x, s) < |s| ==> x <= s[InsertPos(x, s)]
  {
    if s != [] && x > s[0] {
      InsertPosSplits(x, s[1..]);
      forall t | 0 <= t < InsertPos(x, s) ensures s[t] < x {
        if t > 0 {
          assert s[t] == s[1..][t - 1];
        }
      }
    }
  }

  /** Inserts `x` into `s` in front of the first element that is not smaller. */
  function Insert(x: int, s: seq<int>): seq<int> {
    s[..InsertPos(x, s)] + [x] + s[InsertPos(x, s)..]
  }

  /** Where each element of `Insert(x, s)` comes from. */
  lemma InsertAt(x: int, s: seq<int>, t: int)
    requires 0 <= t <= |s|
    ensures Insert(x, s)[t] ==
      if t < InsertPos(x, s) then s[t] else if t == InsertPos(x, s) then x else s[t - 1]
  {
  }

  lemma InsertAscending(x: int, s: seq<int>)
    requires Ascending(s)
    ensures Ascending(Insert(x, s))
  {
    var m := InsertPos(x, s);
    InsertPosSplits(x, s);
    forall i, j | 0 <= i < j <= |s| ensures Insert(x, s)[i] <= Insert(x, s)[j] {
      InsertAt(x, s, i);
      InsertAt(x, s, j);
    }
  }

  lemma InsertMultiset(x: int, s: seq<int>)
    ensures multiset(Insert(x, s)) == multiset(s) + multiset{x}
  {
    var m := InsertPos(x, s);
    assert s == s[..m] + s[m..];
  }

  /** Insertion sort: an ascending permutation of `s`. */
  function SortAsc(s: seq<int>): (r: seq<int>)
    ensures Ascending(r)
    ensures multiset(r) == multiset(s)
    ensures |r| == |s|
  {
    if s == [] then []
    else
      var rest := SortAsc(s[1..]);
      InsertAscending(s[0], rest);
      InsertMultiset(s[0], rest);
      assert s == [s[0]] + s[1..];
      Insert(s[0], rest)
  }

  lemma MultisetTail(s: seq<int>)
    requires s != []
    ensures multiset(s[1..]) == multiset(s) - multiset{s[0]}
  {
    assert s == [s[0]] + s[1..];
  }

  lemma AscendingHeadIsMin(s: seq<int>, x: int)
    requires Ascending(s)
    requires x in multiset(s)
    ensures s != [] && s[0] <= x
  {
    var i :| 0 <= i < |s| && s[i] == x;
  }

  /** Ascending permutations of each other start alike, and so do their tails' elements. */
  lemma AscendingPermutationHead(a: seq<int>, b: seq<int>)
    requires Ascending(a) && Ascending(b)
    requires multiset(a) == multiset(b)
    requires a != []
    ensures b != [] && a[0] == b[0]
    ensures multiset(a[1..]) == multiset(b[1..])
  {
    assert a[0] in multiset(a);
    AscendingHeadIsMin(b, a[0]);
    assert b[0] in multiset(b);
    AscendingHeadIsMin(a, b[0]);
    MultisetTail(a);
    MultisetTail(b);
  }

  /** Two ascending sequences with the same elements are equal: sorting has one answer. */
  lemma {:induction false} AscendingPermutationUnique(a: seq<int>, b: seq<int>)
    requires Ascending(a) && Ascending(b)
    requires multiset(a) == multiset(b)
    ensures a == b
  {
    if a == [] {
      assert |multiset(b)| == 0;
    } else {
      AscendingPermutationHead(a, b);
      AscendingTail(a);
      AscendingTail(b);
      AscendingPermutationUnique(a[1..], b[1..]);
      assert a == [a[0]] + a[1..] && b == [b[0]] + b[1..];
    }
  }

  lemma AscendingTail(s: seq<int>)
    requires Ascending(s) && s != []
    ensures Ascending(s[1..])
  {
  }

  /**
   * The last element of an ascending permutation of `s` is an element of
   * `s`, and no element of `s` exceeds it.
   */
  lemma AscendingPermutationLast(s: seq<int>, r: seq<int>)
    requires s != []
    requires Ascending(r) && multiset(r) == multiset(s)
    ensures |r| == |s|
    ensures r[|r| - 1] in s
    ensures forall x | x in s :: x <= r[|r| - 1]
  {
    assert |r| == |multiset(r)| == |multiset(s)| == |s|;
    assert r[|r| - 1] in multiset(r);
    forall x | x in s ensures x <= r[|r| - 1] {
      assert x in multiset(r);
      var j :| 0 <= j < |r| && r[j] == x;
    }
  }

  /** Sorting an ascending sequence leaves it unchanged. */
  lemma SortAscOfAscending(s: seq<int>)
    requires Ascending(s)
    ensures SortAsc(s) == s
  {
    AscendingPermutationUnique(SortAsc(s), s);
  }
}
