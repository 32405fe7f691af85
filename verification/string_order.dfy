/**
 * Python's ordering of `str` values (code point by code point, a proper
 * prefix first) and `sorted(...)` applied to a set of strings, which the
 * dependency merge (`sorted(by_name.items())`, whose keys are distinct) and
 * the CSV header (`sorted(headers)`) both rely on.
 */
module StringOrder {

  /** `a < b` on Python strings. */
  predicate StrLess(a: string, b: string)
    decreases |a|
  {
    if a == [] then b != []
    else if b == [] then false
    else if a[0] != b[0] then a[0] < b[0]
    else StrLess(a[1..], b[1..])
  }

  lemma {:induction false} StrLessIrreflexive(a: string)
    ensures !StrLess(a, a)
    decreases |a|
  {
    if a != [] {
      StrLessIrreflexive(a[1..]);
    }
  }

  lemma {:induction false} StrLessTransitive(a: string, b: string, c: string)
    requires StrLess(a, b) && StrLess(b, c)
    ensures StrLess(a, c)
    decreases |a|
  {
    if a != [] && a[0] == b[0] && b[0] == c[0] {
      StrLessTransitive(a[1..], b[1..], c[1..]);
    }
  }

  /** Any two different strings are ordered one way or the other. */
  lemma {:induction false} StrLessTotal(a: string, b: string)
    ensures a == b || StrLess(a, b) || StrLess(b, a)
    decreases |a|
  {
    if a != [] && b != [] && a[0] == b[0] {
      StrLessTotal(a[1..], b[1..]);
      if a[1..] == b[1..] {
        assert a == [a[0]] + a[1..] && b == [b[0]] + b[1..];
      }
    }
  }

  /** Strictly ascending: sorted and free of duplicates. */
  predicate StrictlyAscending(s: seq<string>) {
    forall i, j | 0 <= i < j < |s| :: StrLess(s[i], s[j])
  }

  predicate IsLeast(x: string, s: set<string>) {
    x in s && forall y | y in s && y != x :: StrLess(x, y)
  }

  /** Every non-empty finite set of strings has a least element. */
  lemma {:induction false} LeastExists(s: set<string>)
    requires s != {}
    ensures exists x :: IsLeast(x, s)
    decreases |s|
  {
    var y :| y in s;
    var rest := s - {y};
    if rest == {} {
      assert s == {y};
      assert IsLeast(y, s);
    } else {
      LeastExists(rest);
      var m :| IsLeast(m, rest);
      StrLessTotal(m, y);
      if StrLess(m, y) {
        assert IsLeast(m, s);
      } else {
        forall z | z in s && z != y ensures StrLess(y, z) {
          if z != m {
            StrLessTransitive(y, m, z);
          }
        }
        assert IsLeast(y, s);
      }
    }
  }

  /**
   * A set of strings has only one strictly ascending listing: whatever
   * produces one produces `sorted(...)` of the set.
   */
  lemma {:induction false} StrictlyAscendingUnique(a: seq<string>, b: seq<string>)
    requires StrictlyAscending(a) && StrictlyAscending(b)
    requires forall x :: x in a <==> x in b
    ensures a == b
    decreases |a|
  {
    if a != [] && b != [] {
      FirstIsLeast(a);
      FirstIsLeast(b);
      if a[0] != b[0] {
        assert a[0] in b && b[0] in a;
        StrLessIrreflexive(a[0]);
        StrLessTransitive(a[0], b[0], a[0]);
      }
      forall x ensures x in a[1..] <==> x in b[1..] {
        if x in a[1..] {
          var i :| 1 <= i < |a| && a[i] == x;
          assert StrLess(a[0], x);
          StrLessIrreflexive(x);
          assert x != b[0] && x in b;
          var j :| 0 <= j < |b| && b[j] == x;
          assert b[1..][j - 1] == x;
        }
        if x in b[1..] {
          var i :| 1 <= i < |b| && b[i] == x;
          assert StrLess(b[0], x);
          StrLessIrreflexive(x);
          assert x != a[0] && x in a;
          var j :| 0 <= j < |a| && a[j] == x;
          assert a[1..][j - 1] == x;
        }
      }
      StrictlyAscendingUnique(a[1..], b[1..]);
      assert a == [a[0]] + a[1..] && b == [b[0]] + b[1..];
    } else {
      EmptyIffNoMembers(a);
      EmptyIffNoMembers(b);
    }
  }

  lemma EmptyIffNoMembers(s: seq<string>)
    ensures s == [] <==> forall x :: x !in s
  {
    if s != [] {
      assert s[0] in s;
    }
  }

  /** The head of a strictly ascending sequence is below or equal to every element. */
  lemma FirstIsLeast(s: seq<string>)
    requires StrictlyAscending(s) && s != []
    ensures forall x | x in s :: x == s[0] || StrLess(s[0], x)
  {
  }

  /** `sorted(s)` for a set of strings: its elements, each once, in ascending order. */
  method SortedFromSet(s: set<string>) returns (r: seq<string>)
    ensures StrictlyAscending(r)
    ensures forall x :: x in r <==> x in s
    ensures |r| == |s|
  {
    r := [];
    var rest := s;
    while rest != {}
      invariant StrictlyAscending(r)
      invariant forall x :: x in s <==> x in r || x in rest
      invariant forall x | x in r :: x !in rest
      invariant forall i, y | 0 <= i < |r| && y in rest :: StrLess(r[i], y)
      invariant |r| + |rest| == |s|
      decreases |rest|
    {
      LeastExists(rest);
      var x :| IsLeast(x, rest);
      forall i, y | 0 <= i < |r| && y in rest - {x} ensures StrLess(r[i], y) {
      }
      r := r + [x];
      rest := rest - {x};
    }
  }
}
