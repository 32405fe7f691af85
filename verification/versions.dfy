/**
 * Version strings as the dependency report compares them: the pre-release
 * test, the loose numeric key (the fallback branch of `_semver_key`: the
 * decimal digit runs of the string, truncated or padded to three), Python's
 * tuple comparison on those keys, and the choice of the newest stable
 * release from a PyPI release list.
 */
module Versions {
  import opened Wrappers
  import opened Text

  /** `_is_prerelease`: the lowercased version mentions `a`, `b`, `rc` or `dev`. */
  predicate IsPrerelease(version: string) {
    var s := Lower(version);
    Contains(s, "a") || Contains(s, "b") || Contains(s, "rc") || Contains(s, "dev")
  }

  /** A substring's first character occurs in the string. */
  lemma ContainsFirst(s: string, sub: string)
    requires sub != [] && Contains(s, sub)
    ensures exists i | 0 <= i < |s| :: s[i] == sub[0]
  {
    var i :| 0 <= i <= |s| - |sub| && OccursAt(s, sub, i);
    assert s[i] == s[i..i + |sub|][0];
  }

  /**
   * A version without ASCII letters (`1.26.4`, `2024-01`) is never a
   * pre-release: every tag the test looks for starts with a letter.
   */
  lemma WithoutLettersIsStable(version: string)
    requires forall i | 0 <= i < |version| :: !IsAsciiLetter(version[i])
    ensures !IsPrerelease(version)
  {
    var s := Lower(version);
    forall i | 0 <= i < |s| ensures !IsAsciiLetter(s[i]) {
      assert s[i] == LowerChar(version[i]);
    }
    forall sub | sub in ["a", "b", "rc", "dev"] ensures !Contains(s, sub) {
      if Contains(s, sub) {
        ContainsFirst(s, sub);
      }
    }
  }

  /** Any version whose text holds `rc`, in either case, is a pre-release (`2.0.0RC1`). */
  lemma ReleaseCandidateIsPrerelease(version: string, i: nat)
    requires i + 2 <= |version| && LowerChar(version[i]) == 'r' && LowerChar(version[i + 1]) == 'c'
    ensures IsPrerelease(version)
  {
    var s := Lower(version);
    assert s[i..i + 2] == "rc";
    assert OccursAt(s, "rc", i);
  }

  // ---------------------------------------------------------------------
  // The loose numeric key
  // ---------------------------------------------------------------------

  predicate AllDigits(d: string) {
    forall i | 0 <= i < |d| :: IsDigit(d[i])
  }

  /** No digit runs exactly when there are no digits. */
  lemma {:induction false} DigitRunsEmpty(s: string)
    ensures DigitRuns(s) == [] <==> forall i | 0 <= i < |s| :: !IsDigit(s[i])
    decreases |s|
  {
    if s != [] && !IsDigit(s[0]) {
      DigitRunsEmpty(s[1..]);
      assert forall i | 1 <= i < |s| :: s[i] == s[1..][i - 1];
    }
  }

  /** `int(d)` for a string of decimal digits. */
  function DecimalValue(d: string): nat
    requires AllDigits(d)
  {
    if d == [] then 0 else DecimalValue(d[..|d| - 1]) * 10 + (d[|d| - 1] as int - '0' as int)
  }

  /**
   * `[int(p) for p in re.split(r"[^0-9]+", v) if p.isdigit()]`: the values of
   * the maximal runs of decimal digits, in order. The pieces the split
   * leaves are runs of digits or empty, and only the empty ones fail
   * `isdigit`.
   */
  function DigitRuns(s: string): seq<nat>
    decreases |s|
  {
    if s == [] then []
    else if !IsDigit(s[0]) then DigitRuns(s[1..])
    else
      var j := RunEnd(s, 0, IsDigit);
      assert AllDigits(s[..j]) by {
        forall i | 0 <= i < j ensures IsDigit(s[..j][i]) {
          assert s[..j][i] == s[i];
        }
      }
      [DecimalValue(s[..j])] + DigitRuns(s[j..])
  }

  /** The loose key: the first three digit runs, padded with zeros. */
  function LooseKey(version: string): (key: seq<nat>)
    ensures |key| == 3
  {
    var runs := DigitRuns(version);
    seq(3, i requires 0 <= i < 3 => if i < |runs| then runs[i] else 0)
  }

  /**
   * The fallback branch of `_semver_key`: pad the digit runs with zeros
   * until there are three, then keep the first three.
   */
  method SemverFallbackKey(version: string) returns (key: seq<nat>)
    ensures |key| == 3
    ensures forall i | 0 <= i < 3 :: key[i] == if i < |DigitRuns(version)| then DigitRuns(version)[i] else 0
    ensures key == LooseKey(version)
  {
    var runs := DigitRuns(version);
    var nums := runs;
    while |nums| < 3
      invariant |nums| <= 3 || nums == runs
      invariant |nums| >= |runs|
      invariant forall i | 0 <= i < |nums| :: nums[i] == if i < |runs| then runs[i] else 0
      decreases 3 - |nums|
    {
      nums := nums + [0];
    }
    key := nums[..3];
  }

  function DigitChar(d: nat): char
    requires d < 10
  {
    ('0' as int + d) as char
  }

  /** `str(n)` for a natural number. */
  function DecimalString(n: nat): (d: string)
    ensures d != [] && AllDigits(d)
    decreases n
  {
    if n < 10 then [DigitChar(n)] else DecimalString(n / 10) + [DigitChar(n % 10)]
  }

  /** Reading back a rendered number gives the number. */
  lemma {:induction false} DecimalRoundTrip(n: nat)
    ensures DecimalValue(DecimalString(n)) == n
    decreases n
  {
    if n >= 10 {
      DecimalRoundTrip(n / 10);
      var d := DecimalString(n);
      assert d[..|d| - 1] == DecimalString(n / 10);
    }
  }

  /** A rendered number followed by a non-digit contributes exactly that number as the next run. */
  lemma DigitRunsLead(n: nat, rest: string)
    requires rest == [] || !IsDigit(rest[0])
    ensures DigitRuns(DecimalString(n) + rest) == [n] + DigitRuns(rest)
  {
    var d := DecimalString(n);
    var s := d + rest;
    forall k | 0 <= k < |d| ensures IsDigit(s[k]) {
      assert s[k] == d[k];
    }
    if |d| < |s| {
      assert s[|d|] == rest[0];
    }
    RunEndAt(s, 0, |d|, IsDigit);
    assert s[..|d|] == d && s[|d|..] == rest;
    DecimalRoundTrip(n);
  }

  /** `major.minor.patch` as a release string. */
  function Dotted(major: nat, minor: nat, patch: nat): string {
    DecimalString(major) + "." + DecimalString(minor) + "." + DecimalString(patch)
  }

  /** Round trip: the loose key of `major.minor.patch` is `(major, minor, patch)`. */
  lemma DottedRoundTrip(major: nat, minor: nat, patch: nat)
    ensures LooseKey(Dotted(major, minor, patch)) == [major, minor, patch]
  {
    var z := DecimalString(patch);
    var yz := DecimalString(minor) + "." + z;
    assert Dotted(major, minor, patch) == DecimalString(major) + ("." + yz);
    assert ("." + yz)[1..] == yz;
    assert yz == DecimalString(minor) + ("." + z);
    assert ("." + z)[1..] == z;
    assert z == DecimalString(patch) + [];
    DigitRunsLead(patch, []);
    DigitRunsLead(minor, "." + z);
    DigitRunsLead(major, "." + yz);
  }

  // ---------------------------------------------------------------------
  // Comparing keys
  // ---------------------------------------------------------------------

  /** Python's `a < b` on tuples of integers: lexicographic, a proper prefix first. */
  predicate TupleLess(a: seq<nat>, b: seq<nat>)
    decreases |a|
  {
    if a == [] then b != []
    else if b == [] then false
    else if a[0] != b[0] then a[0] < b[0]
    else TupleLess(a[1..], b[1..])
  }

  lemma {:induction false} TupleLessIrreflexive(a: seq<nat>)
    ensures !TupleLess(a, a)
    decreases |a|
  {
    if a != [] {
      TupleLessIrreflexive(a[1..]);
    }
  }

  lemma {:induction false} TupleLessAsymmetric(a: seq<nat>, b: seq<nat>)
    requires TupleLess(a, b)
    ensures !TupleLess(b, a)
    decreases |a|
  {
    if a != [] && b != [] && a[0] == b[0] {
      TupleLessAsymmetric(a[1..], b[1..]);
    }
  }

  lemma {:induction false} TupleLessTransitive(a: seq<nat>, b: seq<nat>, c: seq<nat>)
    requires TupleLess(a, b) && TupleLess(b, c)
    ensures TupleLess(a, c)
    decreases |a|
  {
    if a != [] && a[0] == b[0] && b[0] == c[0] {
      TupleLessTransitive(a[1..], b[1..], c[1..]);
    }
  }

  /** Two different keys are ordered one way or the other. */
  lemma {:induction false} TupleLessTotal(a: seq<nat>, b: seq<nat>)
    ensures a == b || TupleLess(a, b) || TupleLess(b, a)
    decreases |a|
  {
    if a != [] && b != [] && a[0] == b[0] {
      TupleLessTotal(a[1..], b[1..]);
      if a[1..] == b[1..] {
        assert a == [a[0]] + a[1..] && b == [b[0]] + b[1..];
      }
    }
  }

  /**
   * `is_outdated`: both versions are known and non-empty, and the latest
   * release's key is larger than the current one's.
   */
  predicate IsOutdated(current: Option<string>, latest: Option<string>) {
    current.Some? && current.value != [] && latest.Some? && latest.value != []
    && TupleLess(LooseKey(current.value), LooseKey(latest.value))
  }

  /** A package is never behind itself, and two versions are never behind each other. */
  lemma OutdatedIsStrict(a: Option<string>, b: Option<string>)
    ensures !IsOutdated(a, a)
    ensures IsOutdated(a, b) ==> !IsOutdated(b, a)
  {
    if a.Some? {
      TupleLessIrreflexive(LooseKey(a.value));
    }
    if IsOutdated(a, b) {
      TupleLessAsymmetric(LooseKey(a.value), LooseKey(b.value));
    }
  }

  /** Releases compare by number, not by text: `1.9.0` is behind `1.10.0`. */
  lemma OutdatedByNumber(major: nat, minor: nat, patch: nat, minor': nat, patch': nat)
    requires minor < minor'
    ensures IsOutdated(Some(Dotted(major, minor, patch)), Some(Dotted(major, minor', patch')))
  {
    DottedRoundTrip(major, minor, patch);
    DottedRoundTrip(major, minor', patch');
    assert [major, minor, patch][1..] == [minor, patch];
    assert [major, minor', patch'][1..] == [minor', patch'];
  }

  // ---------------------------------------------------------------------
  // The newest stable release
  // ---------------------------------------------------------------------

  /** The releases `_is_prerelease` keeps, in their original order. */
  function StableReleases(releases: seq<string>): (r: seq<string>)
    ensures forall v | v in r :: v in releases && !IsPrerelease(v)
    ensures forall v | v in releases && !IsPrerelease(v) :: v in r
  {
    if releases == [] then []
    else
      var init := StableReleases(releases[..|releases| - 1]);
      var v := releases[|releases| - 1];
      assert releases == releases[..|releases| - 1] + [v];
      if IsPrerelease(v) then init else init + [v]
  }

  /**
   * `sorted(candidates, key=_semver_key, reverse=True)[0]`: the sort is
   * stable, so among releases with the largest key the first one listed wins.
   */
  function Newest(candidates: seq<string>): (newest: string)
    requires candidates != []
    ensures newest in candidates
    decreases |candidates|
  {
    if |candidates| == 1 then candidates[0]
    else
      var best := Newest(candidates[..|candidates| - 1]);
      var last := candidates[|candidates| - 1];
      if TupleLess(LooseKey(best), LooseKey(last)) then last else best
  }

  /** `i` is a position of `candidates` holding a key no earlier candidate reaches. */
  predicate FirstWithKey(candidates: seq<string>, i: int) {
    0 <= i < |candidates|
    && forall j | 0 <= j < i :: TupleLess(LooseKey(candidates[j]), LooseKey(candidates[i]))
  }

  /** No candidate has a larger key than `v`. */
  predicate NoneLarger(candidates: seq<string>, v: string) {
    forall w | w in candidates :: !TupleLess(LooseKey(v), LooseKey(w))
  }

  /**
   * `Newest` picks a listed release whose key no other release exceeds, and
   * every release listed before it has a strictly smaller key.
   */
  lemma {:induction false} NewestIsFirstMaximum(candidates: seq<string>)
    requires candidates != []
    ensures exists i :: FirstWithKey(candidates, i) && candidates[i] == Newest(candidates)
    ensures NoneLarger(candidates, Newest(candidates))
    decreases |candidates|
  {
    var n := |candidates|;
    if n == 1 {
      TupleLessIrreflexive(LooseKey(candidates[0]));
      assert FirstWithKey(candidates, 0);
    } else {
      var init := candidates[..n - 1];
      NewestIsFirstMaximum(init);
      var i :| FirstWithKey(init, i) && init[i] == Newest(init);
      if TupleLess(LooseKey(Newest(init)), LooseKey(candidates[n - 1])) {
        NewerLast(candidates, Newest(init));
      } else {
        OlderLast(candidates, i);
      }
    }
  }

  /** The step where the last candidate beats the best of the others. */
  lemma NewerLast(candidates: seq<string>, best: string)
    requires |candidates| >= 2
    requires NoneLarger(candidates[..|candidates| - 1], best)
    requires TupleLess(LooseKey(best), LooseKey(candidates[|candidates| - 1]))
    ensures FirstWithKey(candidates, |candidates| - 1)
    ensures NoneLarger(candidates, candidates[|candidates| - 1])
  {
    var n := |candidates|;
    var init, last := candidates[..n - 1], candidates[n - 1];
    forall j | 0 <= j < n - 1 ensures TupleLess(LooseKey(candidates[j]), LooseKey(last)) {
      assert candidates[j] == init[j] && init[j] in init;
      TupleLessTotal(LooseKey(init[j]), LooseKey(best));
      if TupleLess(LooseKey(init[j]), LooseKey(best)) {
        TupleLessTransitive(LooseKey(init[j]), LooseKey(best), LooseKey(last));
      }
    }
    forall v | v in candidates ensures !TupleLess(LooseKey(last), LooseKey(v)) {
      var k :| 0 <= k < n && candidates[k] == v;
      if k < n - 1 {
        TupleLessAsymmetric(LooseKey(v), LooseKey(last));
      } else {
        TupleLessIrreflexive(LooseKey(last));
      }
    }
  }

  /** The step where the best of the others stays ahead of the last candidate. */
  lemma OlderLast(candidates: seq<string>, i: int)
    requires |candidates| >= 2
    requires FirstWithKey(candidates[..|candidates| - 1], i)
    requires NoneLarger(candidates[..|candidates| - 1], candidates[i])
    requires !TupleLess(LooseKey(candidates[i]), LooseKey(candidates[|candidates| - 1]))
    ensures FirstWithKey(candidates, i)
    ensures NoneLarger(candidates, candidates[i])
  {
    var n := |candidates|;
    var init := candidates[..n - 1];
    forall j | 0 <= j < i ensures TupleLess(LooseKey(candidates[j]), LooseKey(candidates[i])) {
      assert candidates[j] == init[j] && candidates[i] == init[i];
    }
    forall v | v in candidates ensures !TupleLess(LooseKey(candidates[i]), LooseKey(v)) {
      var k :| 0 <= k < n && candidates[k] == v;
      if k < n - 1 {
        assert v == init[k] && v in init;
      }
    }
  }

  /**
   * The newest-version lookup once PyPI has answered: `info.version` when it
   * is non-empty, else the newest stable release, else `None`.
   */
  function LatestVersion(infoVersion: Option<string>, releases: seq<string>): (r: Option<string>)
    ensures infoVersion.Some? && infoVersion.value != [] ==> r == infoVersion
    ensures r.Some? && r != infoVersion ==> r.value in releases && !IsPrerelease(r.value)
    ensures r.None? <==> (infoVersion.None? || infoVersion.value == []) && StableReleases(releases) == []
  {
    if infoVersion.Some? && infoVersion.value != [] then infoVersion
    else
      var stable := StableReleases(releases);
      if stable == [] then None
      else
        NewestIsFirstMaximum(stable);
        Some(Newest(stable))
  }

  /** Without a non-empty `info.version`, no stable release has a larger key than the one chosen. */
  lemma LatestVersionIsNewest(infoVersion: Option<string>, releases: seq<string>, v: string)
    requires infoVersion.None? || infoVersion.value == []
    requires LatestVersion(infoVersion, releases).Some?
    requires v in releases && !IsPrerelease(v)
    ensures !TupleLess(LooseKey(LatestVersion(infoVersion, releases).value), LooseKey(v))
  {
    NewestIsFirstMaximum(StableReleases(releases));
  }
}
