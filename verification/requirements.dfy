/**
 * Reading dependency declarations: the requirement-line pattern
 * `^\s*([A-Za-z0-9_.\-]+)\s*(?:==\s*([A-Za-z0-9!+_.\-]+))?.*$` as a hand-written
 * scanner, the `requirements.txt` line loop, and the `pyproject.toml` loop
 * over PEP 621 dependency strings and Poetry dependency tables.
 *
 * The pattern never needs to backtrack: each repetition is greedy, the
 * character classes do not overlap where backtracking could help, and the
 * trailing `.*$` only fails on a line break before the last character, which
 * stopping earlier cannot avoid. So one greedy pass decides the match and
 * its groups.
 */
module Requirements {
  import opened Wrappers
  import opened Text

  /** One `{"name": ..., "version": ...}` record: a name and the pinned version, if any. */
  datatype Requirement = Requirement(name: string, version: Option<string>)

  /** `[A-Za-z0-9_.\-]`. */
  predicate IsNameChar(c: char) {
    IsAsciiLetter(c) || IsDigit(c) || c == '_' || c == '.' || c == '-'
  }

  /** `[A-Za-z0-9!+_.\-]`. */
  predicate IsVersionChar(c: char) {
    IsNameChar(c) || c == '!' || c == '+'
  }

  predicate ValidName(name: string) {
    name != [] && forall i | 0 <= i < |name| :: IsNameChar(name[i])
  }

  predicate ValidVersion(v: string) {
    v != [] && forall i | 0 <= i < |v| :: IsVersionChar(v[i])
  }

  /**
   * The optional group `(?:==\s*(version))` tried at position `a`: the
   * version it captures and the position after it, when it matches.
   */
  function Pin(s: string, a: nat): (r: Option<(string, nat)>)
    requires a <= |s|
    ensures r.Some? ==> a < r.value.1 <= |s| && ValidVersion(r.value.0)
  {
    if a + 2 <= |s| && s[a] == '=' && s[a + 1] == '=' then
      var b := RunEnd(s, a + 2, IsSpace);
      var v := RunEnd(s, b, IsVersionChar);
      if b < v then
        assert ValidVersion(s[b..v]) by {
          forall i | 0 <= i < v - b ensures IsVersionChar(s[b..v][i]) {
            assert s[b..v][i] == s[b + i];
          }
        }
        Some((s[b..v], v))
      else None
    else None
  }

  /**
   * The trailing `.*$` from position `x`: `.` stops at a line feed and `$`
   * accepts the end of the string or a final line feed, so the rest may
   * hold a line feed only as its last character.
   */
  predicate RestOfLine(s: string, x: nat)
    requires x <= |s|
  {
    forall k | x <= k < |s| - 1 :: s[k] != '\n'
  }

  /**
   * `REQ_LINE.match(s)`: the name and pinned version, or `None` when the
   * pattern fails. A match has a well-formed name and, if pinned, a
   * well-formed version.
   */
  function MatchRequirement(s: string): (r: Option<Requirement>)
    ensures r.Some? ==> ValidName(r.value.name)
    ensures r.Some? && r.value.version.Some? ==> ValidVersion(r.value.version.value)
  {
    var p := RunEnd(s, 0, IsSpace);
    var e := RunEnd(s, p, IsNameChar);
    if e == p then None
    else
      assert ValidName(s[p..e]) by {
        forall i | 0 <= i < e - p ensures IsNameChar(s[p..e][i]) {
          assert s[p..e][i] == s[p + i];
        }
      }
      MatchAfterName(s, p, e)
  }

  /** The rest of the pattern, once the name `s[p..e]` has been read. */
  function MatchAfterName(s: string, p: nat, e: nat): (r: Option<Requirement>)
    requires p < e <= |s| && ValidName(s[p..e])
    ensures r.Some? ==> r.value.name == s[p..e]
    ensures r.Some? && r.value.version.Some? ==> ValidVersion(r.value.version.value)
  {
    var a := RunEnd(s, e, IsSpace);
    var pin := Pin(s, a);
    var x := if pin.Some? then pin.value.1 else a;
    if RestOfLine(s, x) then
      Some(Requirement(s[p..e], if pin.Some? then Some(pin.value.0) else None))
    else None
  }

  /**
   * The name of a match is the longest run of name characters at the start
   * of the line once leading whitespace is dropped.
   */
  lemma MatchedNameIsLeadingRun(s: string)
    requires MatchRequirement(s).Some?
    ensures var name := MatchRequirement(s).value.name;
      var t := TrimStart(s);
      |name| <= |t| && t[..|name|] == name && (|name| < |t| ==> !IsNameChar(t[|name|]))
  {
    LeadingSpaceRun(s);
    var p := RunEnd(s, 0, IsSpace);
    var e := RunEnd(s, p, IsNameChar);
    assert s[p..e] == MatchRequirement(s).value.name;
    if e < |s| {
      assert TrimStart(s)[e - p] == s[e];
    }
  }

  /**
   * On a single line, the pattern matches exactly when the first character
   * after the leading whitespace is a name character.
   */
  lemma SingleLineMatch(s: string)
    requires forall k | 0 <= k < |s| :: s[k] != '\n'
    ensures MatchRequirement(s).Some? <==> TrimStart(s) != [] && IsNameChar(TrimStart(s)[0])
  {
    LeadingSpaceRun(s);
    var p := RunEnd(s, 0, IsSpace);
    if p < |s| {
      assert TrimStart(s)[0] == s[p];
    }
  }

  /** The line a pinned requirement is written as: `name==version`. */
  function PinnedLine(name: string, version: string): string {
    name + "==" + version
  }

  lemma NameCharIsNotSpace(c: char)
    requires IsVersionChar(c)
    ensures !IsSpace(c) && c != '=' && c != '\n'
  {
  }

  /** A line that starts with a well-formed name, with nothing to extend it, is read from position 0 to the name's end. */
  lemma NameAtStart(s: string, name: string)
    requires ValidName(name) && |name| <= |s| && s[..|name|] == name
    requires |name| < |s| ==> !IsNameChar(s[|name|])
    ensures RunEnd(s, 0, IsSpace) == 0
    ensures RunEnd(s, 0, IsNameChar) == |name|
  {
    assert s[0] == name[0];
    NameCharIsNotSpace(s[0]);
    RunEndAt(s, 0, 0, IsSpace);
    forall k | 0 <= k < |name| ensures IsNameChar(s[k]) {
      assert s[k] == s[..|name|][k];
    }
    RunEndAt(s, 0, |name|, IsNameChar);
  }

  /**
   * `==`, the spaces `s[e + 2..b]` and `version`, standing at `e` and followed
   * by a non-version character or the end, is read as a pin of `version`.
   */
  lemma PinAt(s: string, e: nat, b: nat, version: string)
    requires ValidVersion(version) && e + 2 <= b && b + |version| <= |s|
    requires s[e] == '=' && s[e + 1] == '='
    requires forall k | e + 2 <= k < b :: IsSpace(s[k])
    requires s[b..b + |version|] == version
    requires b + |version| < |s| ==> !IsVersionChar(s[b + |version|])
    ensures Pin(s, e) == Some((version, b + |version|))
  {
    var v := b + |version|;
    assert s[b] == version[0];
    NameCharIsNotSpace(s[b]);
    RunEndAt(s, e + 2, b, IsSpace);
    forall k | b <= k < v ensures IsVersionChar(s[k]) {
      assert s[k] == s[b..v][k - b];
    }
    RunEndAt(s, b, v, IsVersionChar);
  }

  /** A suffix without line feeds leaves the trailing `.*$` nothing to object to. */
  lemma RestWithoutLineFeed(s: string, x: nat)
    requires x <= |s|
    requires forall k | 0 <= k < |s| - x :: s[x..][k] != '\n'
    ensures RestOfLine(s, x)
  {
    forall k | x <= k < |s| - 1 ensures s[k] != '\n' {
      assert s[k] == s[x..][k - x];
    }
  }

  /**
   * Round trip: a name, optional spaces, `==`, optional spaces and a
   * version, followed by anything on the same line that does not extend
   * the version (say `  # trailing`), reads back as that name and version.
   */
  lemma SpacedPinRoundTrip(name: string, sp1: string, sp2: string, version: string, tail: string)
    requires ValidName(name) && ValidVersion(version)
    requires AllSpace(sp1) && AllSpace(sp2)
    requires tail == [] || !IsVersionChar(tail[0])
    requires forall k | 0 <= k < |tail| :: tail[k] != '\n'
    ensures MatchRequirement(name + sp1 + "==" + sp2 + version + tail) == Some(Requirement(name, Some(version)))
  {
    var s := name + sp1 + "==" + sp2 + version + tail;
    var e := |name|;
    var a := e + |sp1|;
    var b := a + 2 + |sp2|;
    var v := b + |version|;
    SpacedPinLayout(name, sp1, sp2, version, tail);
    if e < a {
      NameCharIsNotSpace(name[0]);
    }
    NameAtStart(s, name);
    RunEndAt(s, e, a, IsSpace);
    PinAt(s, a, b, version);
    RestWithoutLineFeed(s, v);
    assert MatchAfterName(s, 0, e) == Some(Requirement(name, Some(version)));
  }

  /** Where the parts of the spaced pinned line stand. */
  lemma SpacedPinLayout(name: string, sp1: string, sp2: string, version: string, tail: string)
    requires AllSpace(sp1) && AllSpace(sp2)
    requires forall k | 0 <= k < |tail| :: tail[k] != '\n'
    ensures var s := name + sp1 + "==" + sp2 + version + tail;
      var e := |name|;
      var a := e + |sp1|;
      var b := a + 2 + |sp2|;
      var v := b + |version|;
      v + |tail| == |s| && s[..e] == name && s[a] == '=' && s[a + 1] == '='
      && (forall k | e <= k < a :: IsSpace(s[k]))
      && (forall k | a + 2 <= k < b :: IsSpace(s[k]))
      && s[b..v] == version && (v < |s| ==> s[v] == tail[0])
      && (forall k | 0 <= k < |s| - v :: s[v..][k] != '\n')
  {
    var s := name + sp1 + "==" + sp2 + version + tail;
    var e := |name|;
    var a := e + |sp1|;
    var b := a + 2 + |sp2|;
    var v := b + |version|;
    assert s[..e] == name && s[e..a] == sp1 && s[a] == '=' && s[a + 1] == '=';
    assert s[a + 2..b] == sp2 && s[b..v] == version && s[v..] == tail;
    forall k | e <= k < a ensures IsSpace(s[k]) {
      assert s[k] == s[e..a][k - e];
    }
    forall k | a + 2 <= k < b ensures IsSpace(s[k]) {
      assert s[k] == s[a + 2..b][k - a - 2];
    }
  }

  /** The canonical pinned form `name==version`, as the spaced round trip's special case. */
  lemma PinnedRoundTrip(name: string, version: string, tail: string)
    requires ValidName(name) && ValidVersion(version)
    requires tail == [] || !IsVersionChar(tail[0])
    requires forall k | 0 <= k < |tail| :: tail[k] != '\n'
    ensures MatchRequirement(PinnedLine(name, version) + tail) == Some(Requirement(name, Some(version)))
  {
    SpacedPinRoundTrip(name, [], [], version, tail);
    assert name + [] + "==" + [] + version + tail == PinnedLine(name, version) + tail;
  }

  /** Where `==`, spaces and a version character do not follow `a`, no pin is read there. */
  lemma NoPinAt(s: string, a: nat)
    requires a <= |s|
    requires a + 2 <= |s| && s[a] == '=' && s[a + 1] == '=' ==>
      var b := RunEnd(s, a + 2, IsSpace);
      b == |s| || !IsVersionChar(s[b])
    ensures Pin(s, a).None?
  {
  }

  /**
   * Round trip: a bare name followed by anything that does not continue,
   * after optional spaces, with `==`, optional spaces and a version
   * character (so `=1`, `==`, `>=0.20.0`, `[extra]` or ` line here`) reads
   * back as that name, unpinned.
   */
  lemma NoPinRoundTrip(name: string, tail: string)
    requires ValidName(name)
    requires tail == [] || !IsNameChar(tail[0])
    requires !PinAhead(TrimStart(tail))
    requires forall k | 0 <= k < |tail| :: tail[k] != '\n'
    ensures MatchRequirement(name + tail) == Some(Requirement(name, None))
  {
    var s := name + tail;
    var e := |name|;
    assert s[..e] == name && s[e..] == tail;
    if e < |s| {
      assert s[e] == tail[0];
    }
    NameAtStart(s, name);
    NoPinInSuffix(s, e);
    var a := RunEnd(s, e, IsSpace);
    forall k | 0 <= k < |s| - a ensures s[a..][k] != '\n' {
      assert s[a..][k] == tail[a - e + k];
    }
    RestWithoutLineFeed(s, a);
    assert MatchAfterName(s, 0, e) == Some(Requirement(name, None));
  }

  /** `u` opens with a complete pin: `==`, optional whitespace and a version character. */
  predicate PinAhead(u: string) {
    |u| >= 2 && u[0] == '=' && u[1] == '='
    && var w := TrimStart(u[2..]); w != [] && IsVersionChar(w[0])
  }

  /** Where `s[a..]` does not open with a complete pin, the optional group does not match at `a`. */
  lemma NoPinFrom(s: string, a: nat)
    requires a <= |s| && !PinAhead(s[a..])
    ensures Pin(s, a).None?
  {
    if a + 2 <= |s| && s[a] == '=' && s[a + 1] == '=' {
      assert s[a..][2..] == s[a + 2..];
      TrimStartOfSuffix(s, a + 2);
      var b := RunEnd(s, a + 2, IsSpace);
      if b < |s| {
        assert s[b] == s[b..][0];
      }
    }
    NoPinAt(s, a);
  }

  /** A suffix `s[e..]` that does not open, after whitespace, with a complete pin leaves the optional group unmatched. */
  lemma NoPinInSuffix(s: string, e: nat)
    requires e <= |s| && !PinAhead(TrimStart(s[e..]))
    ensures Pin(s, RunEnd(s, e, IsSpace)).None?
  {
    TrimStartOfSuffix(s, e);
    NoPinFrom(s, RunEnd(s, e, IsSpace));
  }

  /**
   * The common unpinned case: a bare name followed by anything but a further
   * name character or (after optional spaces) `=`.
   */
  lemma UnpinnedRoundTrip(name: string, tail: string)
    requires ValidName(name)
    requires tail == [] || !IsNameChar(tail[0])
    requires TrimStart(tail) == [] || TrimStart(tail)[0] != '='
    requires forall k | 0 <= k < |tail| :: tail[k] != '\n'
    ensures MatchRequirement(name + tail) == Some(Requirement(name, None))
  {
    NoPinRoundTrip(name, tail);
  }

  /** A pin read at `a` is `==`, then spaces, then the run of version characters that follows them. */
  lemma PinShape(s: string, a: nat)
    requires a <= |s| && Pin(s, a).Some?
    ensures a + 2 <= |s| && s[a] == '=' && s[a + 1] == '='
    ensures var b := RunEnd(s, a + 2, IsSpace);
      Pin(s, a).value.0 == s[b..RunEnd(s, b, IsVersionChar)]
  {
  }

  /** A match is the name run after the leading spaces, and the pin read after the spaces that follow it. */
  lemma MatchParts(s: string)
    requires MatchRequirement(s).Some?
    ensures var p := RunEnd(s, 0, IsSpace);
      var e := RunEnd(s, p, IsNameChar);
      var pin := Pin(s, RunEnd(s, e, IsSpace));
      MatchRequirement(s).value == Requirement(s[p..e], if pin.Some? then Some(pin.value.0) else None)
  {
  }

  /** A pinned match, by positions: the name is `s[p..e]`, `==` stands at `a` after spaces, and the version is `s[b..x]`. */
  lemma PinnedMatchAt(s: string) returns (p: nat, e: nat, a: nat, b: nat, x: nat)
    requires MatchRequirement(s).Some? && MatchRequirement(s).value.version.Some?
    ensures p == RunEnd(s, 0, IsSpace) && e == RunEnd(s, p, IsNameChar)
    ensures MatchRequirement(s).value.name == s[p..e]
    ensures a == RunEnd(s, e, IsSpace) && a + 2 <= |s| && s[a] == '=' && s[a + 1] == '='
    ensures b == RunEnd(s, a + 2, IsSpace) && b <= x <= |s|
    ensures MatchRequirement(s).value.version.value == s[b..x]
    ensures x < |s| ==> !IsVersionChar(s[x])
  {
    MatchParts(s);
    p := RunEnd(s, 0, IsSpace);
    e := RunEnd(s, p, IsNameChar);
    a := RunEnd(s, e, IsSpace);
    PinShape(s, a);
    b := RunEnd(s, a + 2, IsSpace);
    x := RunEnd(s, b, IsVersionChar);
  }

  /**
   * `t` starts with `name`; after it and optional spaces comes `==`, and
   * after optional spaces `v` is the whole run of version characters.
   */
  predicate PinShaped(t: string, name: string, v: string) {
    |name| <= |t| && t[..|name|] == name
    && var u := TrimStart(t[|name|..]);
    |u| >= 2 && u[0] == '=' && u[1] == '='
    && var w := TrimStart(u[2..]);
    |v| <= |w| && w[..|v|] == v && (|v| < |w| ==> !IsVersionChar(w[|v|]))
  }

  /** The shape, from the two stripped views it names. */
  lemma PinShapedFrom(t: string, name: string, u: string, w: string, v: string)
    requires |name| <= |t| && t[..|name|] == name
    requires TrimStart(t[|name|..]) == u && |u| >= 2 && u[0] == '=' && u[1] == '='
    requires TrimStart(u[2..]) == w && |v| <= |w| && w[..|v|] == v
    requires |v| < |w| ==> !IsVersionChar(w[|v|])
    ensures PinShaped(t, name, v)
  {
  }

  /** The stripped views of the line, after the name and after `==`, are suffixes of the line. */
  lemma StrippedViews(s: string, p: nat, e: nat, a: nat, b: nat)
    requires p == RunEnd(s, 0, IsSpace) && p <= e <= |s|
    requires a == RunEnd(s, e, IsSpace) && a + 2 <= |s| && b == RunEnd(s, a + 2, IsSpace)
    ensures TrimStart(s) == s[p..]
    ensures TrimStart(s[e..]) == s[a..]
    ensures TrimStart(s[a + 2..]) == s[b..]
  {
    LeadingSpaceRun(s);
    TrimStartOfSuffix(s, e);
    TrimStartOfSuffix(s, a + 2);
  }

  /** The suffix from `i`, cut at `j`: its head is `s[i..j]` and its tail the suffix from `j`. */
  lemma SuffixViews(s: string, i: nat, j: nat)
    requires i <= j <= |s|
    ensures |s[i..]| == |s| - i
    ensures s[i..][..j - i] == s[i..j] && s[i..][j - i..] == s[j..]
    ensures j < |s| ==> s[i..][j - i] == s[j]
  {
  }

  /** The shape, from the stripped suffixes of the line at the name, after it and after `==`. */
  lemma ShapeFromSuffixes(s: string, p: nat, e: nat, a: nat, b: nat, x: nat)
    requires p <= e <= a && a + 2 <= b <= x <= |s|
    requires TrimStart(s) == s[p..] && TrimStart(s[e..]) == s[a..] && TrimStart(s[a + 2..]) == s[b..]
    requires s[a] == '=' && s[a + 1] == '='
    requires x < |s| ==> !IsVersionChar(s[x])
    ensures PinShaped(TrimStart(s), s[p..e], s[b..x])
  {
    var t, name, u, w, v := s[p..], s[p..e], s[a..], s[b..], s[b..x];
    SuffixViews(s, p, e);
    SuffixViews(s, a, a + 2);
    SuffixViews(s, b, x);
    PinShapedFrom(t, name, u, w, v);
  }

  /** The positions the scanner reads a pin at give the shape, seen from the stripped line. */
  lemma PinShapedAt(s: string, p: nat, e: nat, a: nat, b: nat, x: nat)
    requires p == RunEnd(s, 0, IsSpace) && p <= e <= |s|
    requires a == RunEnd(s, e, IsSpace) && a + 2 <= |s| && s[a] == '=' && s[a + 1] == '='
    requires b == RunEnd(s, a + 2, IsSpace) && b <= x <= |s|
    requires x < |s| ==> !IsVersionChar(s[x])
    ensures PinShaped(TrimStart(s), s[p..e], s[b..x])
  {
    StrippedViews(s, p, e, a, b);
    ShapeFromSuffixes(s, p, e, a, b, x);
  }

  /**
   * A pin is read only where, after the name and optional spaces, the line
   * continues with `==`, optional spaces and the version, which is then the
   * whole run of version characters found there.
   */
  lemma PinnedMatchShape(s: string)
    requires MatchRequirement(s).Some? && MatchRequirement(s).value.version.Some?
    ensures PinShaped(TrimStart(s), MatchRequirement(s).value.name, MatchRequirement(s).value.version.value)
  {
    var p, e, a, b, x := PinnedMatchAt(s);
    PinShapedAt(s, p, e, a, b, x);
  }

  // ---------------------------------------------------------------------
  // requirements.txt
  // ---------------------------------------------------------------------

  /** One line of `requirements.txt`: stripped, skipped when blank or a comment, else matched. */
  function RequirementLine(line: string): (r: Option<Requirement>)
    ensures r.Some? ==> Strip(line) != [] && Strip(line)[0] != '#'
  {
    var t := Strip(line);
    if t == [] || t[0] == '#' then None else MatchRequirement(t)
  }

  /** The records the line loop appends, in line order. */
  function RequirementsOf(lines: seq<string>): seq<Requirement> {
    if lines == [] then []
    else
      var init := RequirementsOf(lines[..|lines| - 1]);
      match RequirementLine(lines[|lines| - 1])
      case Some(r) => init + [r]
      case None => init
  }

  /**
   * `_parse_requirements`: `file` holds the file's lines, or is `None` when
   * the file does not exist.
   */
  method ParseRequirements(file: Option<seq<string>>) returns (packages: seq<Requirement>)
    ensures file.None? ==> packages == []
    ensures file.Some? ==> packages == RequirementsOf(file.value)
  {
    packages := [];
    if file.None? {
      return;
    }
    var lines := file.value;
    var i := 0;
    while i < |lines|
      invariant 0 <= i <= |lines|
      invariant packages == RequirementsOf(lines[..i])
    {
      var line := Strip(lines[i]);
      assert lines[..i + 1][..i] == lines[..i];
      if line == [] || line[0] == '#' {
        i := i + 1;
        continue;
      }
      var m := MatchRequirement(line);
      if m.None? {
        i := i + 1;
        continue;
      }
      packages := packages + [m.value];
      i := i + 1;
    }
    assert lines[..i] == lines;
  }

  /** Lines contribute independently: the records of a file are those of its parts, in order. */
  lemma {:induction false} RequirementsOfAppend(a: seq<string>, b: seq<string>)
    ensures RequirementsOf(a + b) == RequirementsOf(a) + RequirementsOf(b)
    decreases |b|
  {
    if b != [] {
      var b', last := b[..|b| - 1], b[|b| - 1];
      assert (a + b)[..|a + b| - 1] == a + b';
      assert (a + b)[|a + b| - 1] == last;
      RequirementsOfAppend(a, b');
      match RequirementLine(last)
      case Some(r) =>
        assert RequirementsOf(a) + RequirementsOf(b') + [r] == RequirementsOf(a) + (RequirementsOf(b') + [r]);
      case None =>
    } else {
      assert a + b == a;
    }
  }

  /** Blank lines and comment lines contribute nothing, wherever they stand. */
  lemma SkippedLine(a: seq<string>, line: string, b: seq<string>)
    requires Strip(line) == [] || Strip(line)[0] == '#'
    ensures RequirementsOf(a + [line] + b) == RequirementsOf(a) + RequirementsOf(b)
  {
    RequirementsOfAppend(a + [line], b);
    RequirementsOfAppend(a, [line]);
    assert [line][..0] == [];
  }

  /** Every record comes from a line of the file, and there are at most as many records as lines. */
  lemma {:induction false} RequirementsFromLines(lines: seq<string>)
    ensures |RequirementsOf(lines)| <= |lines|
    ensures forall r | r in RequirementsOf(lines) :: exists i | 0 <= i < |lines| :: RequirementLine(lines[i]) == Some(r)
    decreases |lines|
  {
    if lines != [] {
      var init := lines[..|lines| - 1];
      RequirementsFromLines(init);
      forall r | r in RequirementsOf(lines)
        ensures exists i | 0 <= i < |lines| :: RequirementLine(lines[i]) == Some(r)
      {
        if r in RequirementsOf(init) {
          var i :| 0 <= i < |init| && RequirementLine(init[i]) == Some(r);
          assert lines[i] == init[i];
        } else {
          assert RequirementLine(lines[|lines| - 1]) == Some(r);
        }
      }
    }
  }

  // ---------------------------------------------------------------------
  // pyproject.toml
  // ---------------------------------------------------------------------

  /** The value of one `[tool.poetry.dependencies]` entry, as far as the conversion looks at it. */
  datatype PoetrySpec =
    | PoetryString(spec: string)
    /** A table; `version` is its `version` entry, if it has one. */
    | PoetryTable(version: Option<string>)
    /** Any other value (a list of alternatives, a number, a boolean). */
    | PoetryOther

  /**
   * The parsed document, as far as the loop reads it: `project.dependencies`
   * when it is a list (`None` when absent or of another type), and the
   * Poetry dependency entries in document order.
   */
  datatype Pyproject = Pyproject(projectDependencies: Option<seq<string>>, poetryDependencies: seq<(string, PoetrySpec)>)

  /** The requirement string one Poetry entry adds, if any. */
  function PoetryRequirement(key: string, spec: PoetrySpec): Option<string> {
    if Lower(key) == "python" then None
    else
      match spec
      case PoetryString(v) => Some(if v != [] && IsDigit(v[0]) then key + "==" + v else key + v)
      case PoetryTable(Some(v)) => Some(key + v)
      case _ => None
  }

  /** Every requirement string a Poetry entry adds starts with the entry's key. */
  lemma PoetryRequirementStartsWithKey(key: string, spec: PoetrySpec)
    ensures var r := PoetryRequirement(key, spec);
      r.Some? ==> |key| <= |r.value| && r.value[..|key|] == key
  {
  }

  /** The requirement strings the Poetry loop appends, in entry order. */
  function PoetryRequirements(deps: seq<(string, PoetrySpec)>): seq<string> {
    if deps == [] then []
    else
      var init := PoetryRequirements(deps[..|deps| - 1]);
      var (key, spec) := deps[|deps| - 1];
      match PoetryRequirement(key, spec)
      case Some(r) => init + [r]
      case None => init
  }

  /** The records of the strings the pattern accepts, in order. */
  function MatchAll(reqs: seq<string>): seq<Requirement> {
    if reqs == [] then []
    else
      var init := MatchAll(reqs[..|reqs| - 1]);
      match MatchRequirement(reqs[|reqs| - 1])
      case Some(r) => init + [r]
      case None => init
  }

  function DependencyStrings(doc: Pyproject): seq<string> {
    doc.projectDependencies.GetOr([]) + PoetryRequirements(doc.poetryDependencies)
  }

  /** `_parse_pyproject`: `file` is the parsed document, or `None` when the file does not exist. */
  method ParsePyproject(file: Option<Pyproject>) returns (packages: seq<Requirement>)
    ensures file.None? ==> packages == []
    ensures file.Some? ==> packages == MatchAll(DependencyStrings(file.value))
  {
    packages := [];
    if file.None? {
      return;
    }
    var doc := file.value;
    var reqs: seq<string> := [];
    if doc.projectDependencies.Some? {
      reqs := reqs + doc.projectDependencies.value;
    }
    var poetry := doc.poetryDependencies;
    var i := 0;
    while i < |poetry|
      invariant 0 <= i <= |poetry|
      invariant reqs == doc.projectDependencies.GetOr([]) + PoetryRequirements(poetry[..i])
    {
      var (key, spec) := poetry[i];
      assert poetry[..i + 1][..i] == poetry[..i];
      var req := PoetryRequirement(key, spec);
      if req.Some? {
        reqs := reqs + [req.value];
      }
      i := i + 1;
    }
    assert poetry[..i] == poetry;
    var j := 0;
    while j < |reqs|
      invariant 0 <= j <= |reqs|
      invariant packages == MatchAll(reqs[..j])
    {
      assert reqs[..j + 1][..j] == reqs[..j];
      var m := MatchRequirement(reqs[j]);
      if m.Some? {
        packages := packages + [m.value];
      }
      j := j + 1;
    }
    assert reqs[..j] == reqs;
  }

  /**
   * Poetry round trip: a plain version string (it starts with a digit) pins
   * the package to it, under the entry's own key.
   */
  lemma PoetryPinnedRoundTrip(key: string, version: string)
    requires ValidName(key) && Lower(key) != "python"
    requires ValidVersion(version) && IsDigit(version[0])
    ensures PoetryRequirement(key, PoetryString(version)) == Some(PinnedLine(key, version))
    ensures MatchRequirement(PinnedLine(key, version)) == Some(Requirement(key, Some(version)))
  {
    PinnedRoundTrip(key, version, []);
    assert PinnedLine(key, version) + [] == PinnedLine(key, version);
  }

  /**
   * A constraint string that is not a plain version (`>=3.9`, `^1.2`, `~2.0`)
   * is appended to the key as it stands, and the package comes out unpinned.
   */
  lemma PoetryConstraintUnpinned(key: string, constraint: string)
    requires ValidName(key) && Lower(key) != "python"
    requires constraint != [] && !IsNameChar(constraint[0]) && !IsSpace(constraint[0]) && constraint[0] != '='
    requires forall k | 0 <= k < |constraint| :: constraint[k] != '\n'
    ensures PoetryRequirement(key, PoetryString(constraint)) == Some(key + constraint)
    ensures MatchRequirement(key + constraint) == Some(Requirement(key, None))
  {
    UnpinnedRoundTrip(key, constraint);
  }

  /** The interpreter entry is never a dependency, however it is spelled or specified. */
  lemma PoetryPythonDropped(key: string, spec: PoetrySpec)
    requires Lower(key) == "python"
    ensures PoetryRequirements([(key, spec)]) == []
  {
    assert [(key, spec)][..0] == [];
  }

  /** A `requirements.txt` line that pins a package reads back as that package and version. */
  lemma PinnedLineRead(name: string, version: string)
    requires ValidName(name) && ValidVersion(version)
    ensures RequirementLine(PinnedLine(name, version)) == Some(Requirement(name, Some(version)))
  {
    var line := PinnedLine(name, version);
    NameCharIsNotSpace(name[0]);
    NameCharIsNotSpace(version[|version| - 1]);
    assert line[0] == name[0] && line[|line| - 1] == version[|version| - 1];
    StripFramed(line);
    PinnedRoundTrip(name, version, []);
    assert line + [] == line;
  }

  // ---------------------------------------------------------------------
  // Worked files
  // ---------------------------------------------------------------------

  lemma StripFramed(s: string)
    requires s != [] && !IsSpace(s[0]) && !IsSpace(s[|s| - 1])
    ensures Strip(s) == s
  {
    assert TrimStart(s) == s;
  }

  /** A blank line and a comment line yield nothing. */
  lemma ExampleSkippedLines()
    ensures RequirementLine("") == None
    ensures RequirementLine("# comment") == None
  {
    StripFramed("# comment");
  }

  /** A pinned line yields its name and version. */
  lemma ExamplePinnedLine()
    ensures MatchRequirement(PinnedLine("requests", "2.31.0")) == Some(Requirement("requests", Some("2.31.0")))
    ensures RequirementLine(PinnedLine("requests", "2.31.0")) == Some(Requirement("requests", Some("2.31.0")))
  {
    StripFramed(PinnedLine("requests", "2.31.0"));
    PinnedRoundTrip("requests", "2.31.0", []);
    assert PinnedLine("requests", "2.31.0") + [] == PinnedLine("requests", "2.31.0");
  }

  /** A trailing comment after the version is ignored: `numpy==1.26.4  # trailing`. */
  lemma ExampleTrailingComment()
    ensures RequirementLine(PinnedLine("numpy", "1.26.4") + "  # trailing") == Some(Requirement("numpy", Some("1.26.4")))
  {
    StripFramed(PinnedLine("numpy", "1.26.4") + "  # trailing");
    PinnedRoundTrip("numpy", "1.26.4", "  # trailing");
  }

  /** A bare name yields it unpinned. */
  lemma ExampleBareName()
    ensures RequirementLine("pandas") == Some(Requirement("pandas", None))
  {
    StripFramed("pandas");
    UnpinnedRoundTrip("pandas", []);
    assert "pandas" + [] == "pandas";
  }

  /** A line of prose, `invalid line here`, is read as a package named after its first word. */
  lemma ExampleProseLine()
    ensures RequirementLine("invalid" + " line here") == Some(Requirement("invalid", None))
  {
    StripFramed("invalid" + " line here");
    assert TrimStart(" line here") == "line here";
    UnpinnedRoundTrip("invalid", " line here");
  }

  /** A lower bound is not a pin: the package comes out unpinned. */
  lemma ExampleLowerBound()
    ensures MatchRequirement("uvicorn" + ">=0.20.0") == Some(Requirement("uvicorn", None))
    ensures RequirementLine("uvicorn" + ">=0.20.0") == Some(Requirement("uvicorn", None))
  {
    StripFramed("uvicorn" + ">=0.20.0");
    UnpinnedRoundTrip("uvicorn", ">=0.20.0");
  }

  /** `foo == 1.0`: spaces on either side of `==` still pin the version. */
  lemma ExampleSpacedPin()
    ensures MatchRequirement("foo" + " " + "==" + " " + "1.0") == Some(Requirement("foo", Some("1.0")))
  {
    SpacedPinRoundTrip("foo", " ", " ", "1.0", []);
    assert "foo" + " " + "==" + " " + "1.0" + [] == "foo" + " " + "==" + " " + "1.0";
  }

  /** `foo=1` and `foo==` hold no complete pin: the name is read unpinned. */
  lemma ExampleBrokenPins()
    ensures MatchRequirement("foo" + "=1") == Some(Requirement("foo", None))
    ensures MatchRequirement("foo" + "==") == Some(Requirement("foo", None))
  {
    var one := "=1";
    assert TrimStart(one) == one;
    NoPinRoundTrip("foo", one);
    var eq := "==";
    assert TrimStart(eq) == eq && eq[2..] == [];
    NoPinRoundTrip("foo", eq);
  }

  /** Poetry entries `python = ">=3.9"` and `requests = "2.31.0"`: only the second is kept, pinned. */
  lemma ExamplePoetry()
    ensures PoetryRequirements([("python", PoetryString(">=3.9")), ("requests", PoetryString("2.31.0"))])
      == [PinnedLine("requests", "2.31.0")]
  {
    var poetry := [("python", PoetryString(">=3.9")), ("requests", PoetryString("2.31.0"))];
    assert poetry[..1] == [poetry[0]];
    PoetryPythonDropped("python", PoetryString(">=3.9"));
    PoetryPinnedRoundTrip("requests", "2.31.0");
  }

  lemma ExampleFlask()
    ensures MatchRequirement(PinnedLine("flask", "3.0.0")) == Some(Requirement("flask", Some("3.0.0")))
  {
    PinnedRoundTrip("flask", "3.0.0", []);
    assert PinnedLine("flask", "3.0.0") + [] == PinnedLine("flask", "3.0.0");
  }

  /** Three strings that all match yield their three records, in order. */
  lemma MatchAllOfThree(x: string, y: string, z: string, rx: Requirement, ry: Requirement, rz: Requirement)
    requires MatchRequirement(x) == Some(rx) && MatchRequirement(y) == Some(ry) && MatchRequirement(z) == Some(rz)
    ensures MatchAll([x, y, z]) == [rx, ry, rz]
  {
    assert [x][..0] == [];
    assert MatchAll([x]) == [rx];
    assert [x, y][..1] == [x];
    assert MatchAll([x, y]) == [rx, ry];
    assert [x, y, z][..2] == [x, y];
  }

  lemma ExampleMatchAll()
    ensures MatchAll([PinnedLine("flask", "3.0.0"), "uvicorn" + ">=0.20.0", PinnedLine("requests", "2.31.0")])
      == [Requirement("flask", Some("3.0.0")), Requirement("uvicorn", None), Requirement("requests", Some("2.31.0"))]
  {
    ExampleFlask();
    ExampleLowerBound();
    ExamplePinnedLine();
    MatchAllOfThree(PinnedLine("flask", "3.0.0"), "uvicorn" + ">=0.20.0", PinnedLine("requests", "2.31.0"),
      Requirement("flask", Some("3.0.0")), Requirement("uvicorn", None), Requirement("requests", Some("2.31.0")));
  }

  /**
   * A `pyproject.toml` with `flask==3.0.0` and `uvicorn>=0.20.0` under
   * `[project]` and `python = ">=3.9"`, `requests = "2.31.0"` under Poetry:
   * the interpreter entry is dropped and the rest keep document order.
   */
  lemma ExamplePyproject()
    ensures MatchAll(DependencyStrings(Pyproject(
              Some([PinnedLine("flask", "3.0.0"), "uvicorn" + ">=0.20.0"]),
              [("python", PoetryString(">=3.9")), ("requests", PoetryString("2.31.0"))])))
      == [Requirement("flask", Some("3.0.0")), Requirement("uvicorn", None), Requirement("requests", Some("2.31.0"))]
  {
    ExamplePoetry();
    ExampleMatchAll();
    assert [PinnedLine("flask", "3.0.0"), "uvicorn" + ">=0.20.0"] + [PinnedLine("requests", "2.31.0")]
      == [PinnedLine("flask", "3.0.0"), "uvicorn" + ">=0.20.0", PinnedLine("requests", "2.31.0")];
  }
}
