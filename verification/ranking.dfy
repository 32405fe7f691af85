/**
 * Ranking of `(author, key)` pairs as Python's
 * `sorted(d.items(), key=lambda kv: kv[1], reverse=True)[:n]` does it:
 * descending by key, and stable, so pairs with equal keys keep the order
 * in which they arrive (for a dict, the order of first insertion).
 */
module Ranking {

  datatype Entry = Entry(author: string, key: int)

  predicate Descending(s: seq<Entry>) {
    forall i, j | 0 <= i < j < |s| :: s[i].key >= s[j].key
  }

  /** How many leading entries of `s` have a key strictly larger than `x`'s. */
  function InsertPos(x: Entry, s: seq<Entry>): (m: nat)
    ensures m <= |s|
  {
    if s == [] || s[0].key <= x.key then 0 else 1 + InsertPos(x, s[1..])
  }

  /**
   * `InsertPos` skips exactly a run of entries with a larger key: the
   * entry it stops at, if any, has a key that is not larger.
   */
  lemma {:induction false} InsertPosSplits(x: Entry, s: seq<Entry>)
    ensures forall t | 0 <= t < InsertPos(x, s) :: s[t].key > x.key
    ensures InsertPos(x, s) < |s| ==> s[InsertPos(x, s)].key <= x.key
  {
    if s != [] && s[0].key > x.key {
      InsertPosSplits(x, s[1..]);
      forall t | 0 <= t < InsertPos(x, s) ensures s[t].key > x.key {
        if t > 0 {
          assert s[t] == s[1..][t - 1];
        }
      }
    }
  }

  /**
   * Inserts `x` in front of every entry whose key is not larger than its own:
   * `x` stands before the entries of equal key, which is how an element that
   * came earlier in the input must be placed by a stable sort.
   */
  function InsertStable(x: Entry, s: seq<Entry>): seq<Entry> {
    s[..InsertPos(x, s)] + [x] + s[InsertPos(x, s)..]
  }

  /** Where each entry of `InsertStable(x, s)` comes from. */
  lemma InsertStableAt(x: Entry, s: seq<Entry>, t: int)
    requires 0 <= t <= |s|
    ensures InsertStable(x, s)[t] ==
      if t < InsertPos(x, s) then s[t] else if t == InsertPos(x, s) then x else s[t - 1]
  {
  }

  lemma InsertStableDescending(x: Entry, s: seq<Entry>)
    requires Descending(s)
    ensures Descending(InsertStable(x, s))
  {
    InsertPosSplits(x, s);
    forall i, j | 0 <= i < j <= |s| ensures InsertStable(x, s)[i].key >= InsertStable(x, s)[j].key {
      InsertStableAt(x, s, i);
      InsertStableAt(x, s, j);
    }
  }

  lemma InsertStableMultiset(x: Entry, s: seq<Entry>)
    ensures multiset(InsertStable(x, s)) == multiset(s) + multiset{x}
  {
    var m := InsertPos(x, s);
    assert s == s[..m] + s[m..];
  }

  /** Stable insertion sort, descending by key. */
  function StableSortDesc(s: seq<Entry>): (r: seq<Entry>)
    ensures Descending(r)
    ensures multiset(r) == multiset(s)
    ensures |r| == |s|
  {
    if s == [] then []
    else
      var rest := StableSortDesc(s[1..]);
      InsertStableDescending(s[0], rest);
      InsertStableMultiset(s[0], rest);
      assert s == [s[0]] + s[1..];
      InsertStable(s[0], rest)
  }

  /**
   * Stability, by positions: two ranked entries with the same key stand in
   * the order in which they came in the input.
   */
  lemma {:induction false} StableSortDescKeepsOrder(s: seq<Entry>, i: int, j: int)
    requires 0 <= i < j < |s|
    requires StableSortDesc(s)[i].key == StableSortDesc(s)[j].key
    ensures exists p, q | 0 <= p < q < |s| :: s[p] == StableSortDesc(s)[i] && s[q] == StableSortDesc(s)[j]
  {
    var rest := StableSortDesc(s[1..]);
    var m := InsertPos(s[0], rest);
    assert StableSortDesc(s) == InsertStable(s[0], rest);
    InsertStableAt(s[0], rest, i);
    InsertStableAt(s[0], rest, j);
    if i == m {
      assert rest[j - 1] in multiset(s[1..]);
      var q :| 0 <= q < |s[1..]| && s[1..][q] == rest[j - 1];
      assert s[q + 1] == s[1..][q];
    } else if j == m {
      InsertPosSplits(s[0], rest);
      assert false;
    } else {
      var ri := if i < m then i else i - 1;
      var rj := if j < m then j else j - 1;
      StableSortDescKeepsOrder(s[1..], ri, rj);
      var p, q :| 0 <= p < q < |s[1..]| && s[1..][p] == rest[ri] && s[1..][q] == rest[rj];
      assert s[p + 1] == s[1..][p] && s[q + 1] == s[1..][q];
    }
  }

  /** The first ranked entry has the largest key of the input. */
  lemma StableSortDescFirstIsMax(s: seq<Entry>, x: Entry)
    requires x in s
    ensures x.key <= StableSortDesc(s)[0].key
  {
    var r := StableSortDesc(s);
    assert x in multiset(r);
    var p :| 0 <= p < |r| && r[p] == x;
  }

  /**
   * An input entry that `Take(StableSortDesc(s), n)` leaves out means the
   * ranking is full, and the entry's key is at most the last kept key.
   */
  lemma TakeLeavesOutLower(s: seq<Entry>, n: nat, x: Entry)
    requires x in s
    requires x !in Take(StableSortDesc(s), n)
    ensures |Take(StableSortDesc(s), n)| == n
    ensures n > 0 ==> x.key <= Take(StableSortDesc(s), n)[n - 1].key
  {
    var r := StableSortDesc(s);
    var top := Take(r, n);
    assert x in multiset(r);
    var p :| 0 <= p < |r| && r[p] == x;
    forall t | 0 <= t < |top| ensures r[t] != x {
      assert r[t] == top[t];
    }
    assert |top| <= p;
  }

  function Min(a: int, b: int): int {
    if a <= b then a else b
  }

  /** Python's `s[:n]`. */
  function Take(s: seq<Entry>, n: nat): (r: seq<Entry>)
    ensures |r| == Min(n, |s|)
    ensures r == s[..|r|]
  {
    s[..Min(n, |s|)]
  }
}
