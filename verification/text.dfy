/**
 * The handful of Python `str` operations the core relies on:
 * `str.isspace` / the regex class `\s`, `str.strip()`, `str.lower()` and `in`.
 */
module Text {

  /** Python's whitespace: the characters `str.isspace()` and the regex class `\s` accept. */
  predicate IsSpace(c: char) {
    var n := c as int;
    (9 <= n <= 13) || (28 <= n <= 32) || n == 0x85 || n == 0xA0 || n == 0x1680
    || (0x2000 <= n <= 0x200A) || n == 0x2028 || n == 0x2029 || n == 0x202F
    || n == 0x205F || n == 0x3000
  }

  predicate IsDigit(c: char) {
    '0' <= c <= '9'
  }

  predicate IsAsciiLetter(c: char) {
    ('a' <= c <= 'z') || ('A' <= c <= 'Z')
  }

  /** Every character of `s` is whitespace (vacuously true of the empty string). */
  predicate AllSpace(s: string) {
    forall i | 0 <= i < |s| :: IsSpace(s[i])
  }

  /** `s.lstrip()`. */
  function TrimStart(s: string): string {
    if s != [] && IsSpace(s[0]) then TrimStart(s[1..]) else s
  }

  /** `s.rstrip()`. */
  function TrimEnd(s: string): string {
    if s != [] && IsSpace(s[|s| - 1]) then TrimEnd(s[..|s| - 1]) else s
  }

  /** `s.strip()`: what is left is one contiguous stretch of `s`. */
  function Strip(s: string): string {
    TrimEnd(TrimStart(s))
  }

  /** `lstrip` drops the leading whitespace and nothing else. */
  lemma {:induction false} TrimStartDropsLeadingSpace(s: string)
    ensures |TrimStart(s)| <= |s| && TrimStart(s) == s[|s| - |TrimStart(s)|..]
    ensures AllSpace(s[..|s| - |TrimStart(s)|])
    ensures TrimStart(s) == [] || !IsSpace(TrimStart(s)[0])
  {
    if s != [] && IsSpace(s[0]) {
      var n := |s| - |TrimStart(s)|;
      TrimStartDropsLeadingSpace(s[1..]);
      assert s[..n] == [s[0]] + s[1..][..n - 1];
      forall i | 0 <= i < n ensures IsSpace(s[..n][i]) {
        if i > 0 {
          assert s[..n][i] == s[1..][..n - 1][i - 1];
        }
      }
    }
  }

  /** `rstrip` drops the trailing whitespace and nothing else. */
  lemma {:induction false} TrimEndDropsTrailingSpace(s: string)
    ensures |TrimEnd(s)| <= |s| && TrimEnd(s) == s[..|TrimEnd(s)|]
    ensures AllSpace(s[|TrimEnd(s)|..])
    ensures TrimEnd(s) == [] || !IsSpace(TrimEnd(s)[|TrimEnd(s)| - 1])
  {
    if s != [] && IsSpace(s[|s| - 1]) {
      var p := s[..|s| - 1];
      var n := |TrimEnd(s)|;
      TrimEndDropsTrailingSpace(p);
      assert s[n..] == p[n..] + [s[|s| - 1]];
      forall i | 0 <= i < |s| - n ensures IsSpace(s[n..][i]) {
        if i < |p| - n {
          assert s[n..][i] == p[n..][i];
        }
      }
    }
  }

  /** `strip` gives the empty string exactly for all-whitespace input, else a string framed by non-whitespace. */
  lemma StripEmptyIffAllSpace(s: string)
    ensures Strip(s) == [] <==> AllSpace(s)
    ensures Strip(s) != [] ==> !IsSpace(Strip(s)[0]) && !IsSpace(Strip(s)[|Strip(s)| - 1])
  {
    var t := TrimStart(s);
    TrimStartDropsLeadingSpace(s);
    TrimEndDropsTrailingSpace(t);
    if Strip(s) == [] {
      assert s == s[..|s| - |t|] + t;
    } else {
      assert t[0] == Strip(s)[0];
    }
  }

  /** `strip` only removes from the ends: what is left is a contiguous stretch of the input. */
  lemma StripIsSubstring(s: string)
    ensures Contains(s, Strip(s))
  {
    var t := TrimStart(s);
    TrimStartDropsLeadingSpace(s);
    TrimEndDropsTrailingSpace(t);
    assert OccursAt(s, Strip(s), |s| - |t|);
  }

  function LowerChar(c: char): char {
    if 'A' <= c <= 'Z' then (c as int + 32) as char else c
  }

  /** `s.lower()` restricted to ASCII letters. */
  function Lower(s: string): (r: string)
    ensures |r| == |s|
  {
    seq(|s|, i requires 0 <= i < |s| => LowerChar(s[i]))
  }

  /** Lowercasing keeps the length and leaves no capital letter behind. */
  lemma LowerHasNoCapitals(s: string)
    ensures |Lower(s)| == |s|
    ensures forall i | 0 <= i < |Lower(s)| :: !('A' <= Lower(s)[i] <= 'Z')
  {
    forall i | 0 <= i < |s| ensures !('A' <= Lower(s)[i] <= 'Z') {
      assert Lower(s)[i] == LowerChar(s[i]);
    }
  }

  /** Lowercasing leaves a string without capitals unchanged. */
  lemma LowerWithoutCapitals(s: string)
    requires forall i | 0 <= i < |s| :: !('A' <= s[i] <= 'Z')
    ensures Lower(s) == s
  {
    assert forall i | 0 <= i < |s| :: Lower(s)[i] == s[i];
  }

  /**
   * Where a greedy run of characters satisfying `p`, started at `i`, ends:
   * what a regex repetition `[...]*` consumes from position `i`.
   */
  function RunEnd(s: string, i: nat, p: char -> bool): (j: nat)
    requires i <= |s|
    ensures i <= j <= |s|
    ensures forall k | i <= k < j :: p(s[k])
    ensures j < |s| ==> !p(s[j])
    decreases |s| - i
  {
    if i < |s| && p(s[i]) then RunEnd(s, i + 1, p) else i
  }

  /** A run is determined by where it starts: it ends at the first character outside `p`. */
  lemma {:induction false} RunEndAt(s: string, i: nat, j: nat, p: char -> bool)
    requires i <= j <= |s|
    requires forall k | i <= k < j :: p(s[k])
    requires j < |s| ==> !p(s[j])
    ensures RunEnd(s, i, p) == j
    decreases j - i
  {
    if i < j {
      RunEndAt(s, i + 1, j, p);
    }
  }

  /** A run read inside a suffix ends where the same run read in the whole string ends. */
  lemma {:induction false} RunEndShift(s: string, e: nat, i: nat, p: char -> bool)
    requires e + i <= |s|
    ensures RunEnd(s, e + i, p) == e + RunEnd(s[e..], i, p)
    decreases |s| - e - i
  {
    if e + i < |s| {
      assert s[e..][i] == s[e + i];
      if p(s[e + i]) {
        RunEndShift(s, e, i + 1, p);
      }
    }
  }

  /** A leading `\s*` consumes exactly what `lstrip` removes. */
  lemma LeadingSpaceRun(s: string)
    ensures TrimStart(s) == s[RunEnd(s, 0, IsSpace)..]
  {
    TrimStartDropsLeadingSpace(s);
    var n := |s| - |TrimStart(s)|;
    forall k | 0 <= k < n ensures IsSpace(s[k]) {
      assert s[k] == s[..n][k];
    }
    if n < |s| {
      assert s[n] == TrimStart(s)[0];
    }
    RunEndAt(s, 0, n, IsSpace);
  }

  /** `lstrip` of a suffix drops the whitespace run that starts where the suffix does. */
  lemma TrimStartOfSuffix(s: string, i: nat)
    requires i <= |s|
    ensures TrimStart(s[i..]) == s[RunEnd(s, i, IsSpace)..]
  {
    LeadingSpaceRun(s[i..]);
    RunEndShift(s, i, 0, IsSpace);
    var n := RunEnd(s[i..], 0, IsSpace);
    assert s[i..][n..] == s[i + n..];
  }

  /** `sub in s`: `sub` occurs as a contiguous substring of `s`. */
  predicate Contains(s: string, sub: string) {
    exists i | 0 <= i <= |s| - |sub| :: OccursAt(s, sub, i)
  }

  predicate OccursAt(s: string, sub: string, i: int) {
    0 <= i <= |s| - |sub| && s[i..i + |sub|] == sub
  }
}
