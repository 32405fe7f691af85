/**
 * Commit-activity aggregation (`analyze_activity`): one pass over the commit
 * stream that collects timestamps, per-author commit counts and latest commit
 * times, and a merge counter; then the totals, the days since the latest
 * commit, the median day gap between consecutive commits, and two top-5
 * rankings of authors.
 *
 * The commit stream and the reference instant `now` are inputs. Times are
 * integer UTC seconds; "whole days" is Python's `timedelta.days`, the floor of
 * a difference in seconds divided by 86400.
 */
module Activity {
  import opened Text
  import opened IntSort
  import opened Ranking
  import opened Wrappers

  const SecondsPerDay: int := 86400
  /** Reported as `days_since_last_commit` when there is no commit at all. */
  const NoActivityDays: int := 999999
  /** Length bound of both author rankings. */
  const RankingSize: nat := 5

  /** One commit as the traversal yields it; an absent email, name or message is `""`. */
  datatype Commit = Commit(time: int, email: string, name: string, msg: string, merge: bool, parents: nat)

  datatype AuthorCommits = AuthorCommits(author: string, commits: int)
  datatype RecentAuthor = RecentAuthor(author: string, daysSinceLastCommit: int, commits: int)

  datatype ActivityReport = ActivityReport(
    commitsTotal: int,
    authorsTotal: int,
    daysSinceLastCommit: int,
    medianDaysBetweenCommits: int,
    mergeCommits: int,
    topAuthors: seq<AuthorCommits>,
    recentAuthors: seq<RecentAuthor>)

  /** `timedelta(seconds=seconds).days`: the floor of `seconds / 86400`, also for negative spans. */
  function WholeDays(seconds: int): int {
    seconds / 86400
  }

  /** Whole days round down: the span lies in `[d, d + 1)` days, negative spans included. */
  lemma WholeDaysFloor(seconds: int)
    ensures WholeDays(seconds) * 86400 <= seconds < WholeDays(seconds) * 86400 + 86400
  {
  }

  /** A longer span never counts fewer whole days. */
  lemma WholeDaysMonotone(x: int, y: int)
    requires x <= y
    ensures WholeDays(x) <= WholeDays(y)
  {
    WholeDaysFloor(x);
    WholeDaysFloor(y);
  }

  /**
   * `(email or name or "").strip() or "unknown"`: the first non-empty of email
   * and name is stripped; only an empty result becomes "unknown". An email made
   * of whitespace alone is non-empty, so it hides the name.
   */
  function Identity(c: Commit): (id: string)
    ensures id != []
  {
    var raw := if c.email != [] then c.email else c.name;
    var stripped := Strip(raw);
    if stripped != [] then stripped else "unknown"
  }

  /**
   * The four outcomes of identity resolution. A non-empty email is used even
   * when it is only whitespace, which then yields "unknown" whatever the name.
   */
  lemma IdentityResolution(c: Commit)
    ensures c.email != [] && !AllSpace(c.email) ==> Identity(c) == Strip(c.email)
    ensures c.email != [] && AllSpace(c.email) ==> Identity(c) == "unknown"
    ensures c.email == [] && !AllSpace(c.name) ==> Identity(c) == Strip(c.name)
    ensures c.email == [] && AllSpace(c.name) ==> Identity(c) == "unknown"
  {
    StripEmptyIffAllSpace(c.email);
    StripEmptyIffAllSpace(c.name);
  }

  /** The two merge triggers: the merge flag or several parents, else "merge" in the lowered message. */
  predicate IsMerge(c: Commit) {
    c.merge || c.parents > 1 || Contains(Lower(c.msg), "merge")
  }

  /** A message that mentions "merge" in any mix of cases (`Merge branch`) marks a merge, whatever the flags say. */
  lemma MergeWordIsMerge(c: Commit, i: nat)
    requires i + 5 <= |c.msg|
    requires forall k | 0 <= k < 5 :: LowerChar(c.msg[i + k]) == "merge"[k]
    ensures IsMerge(c)
  {
    var s := Lower(c.msg);
    forall k | 0 <= k < 5 ensures s[i..i + 5][k] == "merge"[k] {
      assert s[i..i + 5][k] == s[i + k];
    }
    assert OccursAt(s, "merge", i);
  }

  predicate Distinct(s: seq<string>) {
    forall i, j | 0 <= i < j < |s| :: s[i] != s[j]
  }

  // ---------------------------------------------------------------------
  // Specification of the accumulated state. The stream is seen as events
  // (identity, time), one per commit. Each function peels off the LAST
  // event, as the loop adds one commit at a time.
  // ---------------------------------------------------------------------

  datatype Event = Event(author: string, time: int)

  ghost function Events(cs: seq<Commit>): (ev: seq<Event>)
    ensures |ev| == |cs|
    ensures forall i | 0 <= i < |cs| :: ev[i] == Event(Identity(cs[i]), cs[i].time)
  {
    seq(|cs|, i requires 0 <= i < |cs| => Event(Identity(cs[i]), cs[i].time))
  }

  /** The distinct author identities of the stream. */
  ghost function IdentitySet(ev: seq<Event>): set<string> {
    set e | e in ev :: e.author
  }

  /** How many events of `ev` belong to `a`. */
  ghost function CountOf(ev: seq<Event>, a: string): (n: nat)
    ensures n <= |ev|
    decreases |ev|
  {
    if ev == [] then 0
    else CountOf(ev[..|ev| - 1], a) + (if ev[|ev| - 1].author == a then 1 else 0)
  }

  /** The identities in order of first appearance: the key order of the source's dicts. */
  ghost function Identities(ev: seq<Event>): (ids: seq<string>)
    ensures Distinct(ids)
    ensures forall a :: a in ids <==> CountOf(ev, a) > 0
    decreases |ev|
  {
    if ev == [] then []
    else
      var prev := Identities(ev[..|ev| - 1]);
      var id := ev[|ev| - 1].author;
      if id in prev then prev else prev + [id]
  }

  /** The latest time among the events of `a` (the `author_last_commit` entry). */
  ghost function LastOf(ev: seq<Event>, a: string): int
    requires CountOf(ev, a) > 0
    decreases |ev|
  {
    var init, e := ev[..|ev| - 1], ev[|ev| - 1];
    if e.author != a then LastOf(init, a)
    else if CountOf(init, a) == 0 then e.time
    else if e.time > LastOf(init, a) then e.time
    else LastOf(init, a)
  }

  ghost function Times(ev: seq<Event>): (ts: seq<int>)
    ensures |ts| == |ev|
    ensures forall i | 0 <= i < |ev| :: ts[i] == ev[i].time
  {
    seq(|ev|, i requires 0 <= i < |ev| => ev[i].time)
  }

  /** The latest time of a non-empty stream. */
  ghost function MaxTime(ev: seq<Event>): int
    requires ev != []
    decreases |ev|
  {
    var init, e := ev[..|ev| - 1], ev[|ev| - 1];
    if init == [] then e.time
    else if e.time > MaxTime(init) then e.time
    else MaxTime(init)
  }

  /** The number of merge commits; a commit adds at most one. */
  ghost function MergeCount(cs: seq<Commit>): (n: nat)
    ensures n <= |cs|
    decreases |cs|
  {
    if cs == [] then 0
    else MergeCount(cs[..|cs| - 1]) + (if IsMerge(cs[|cs| - 1]) then 1 else 0)
  }

  /** The whole-day gaps between neighbours of a timestamp sequence. */
  ghost function Gaps(ts: seq<int>): (g: seq<int>)
    ensures |g| == if ts == [] then 0 else |ts| - 1
  {
    if ts == [] then []
    else seq(|ts| - 1, k requires 0 <= k < |ts| - 1 => WholeDays(ts[k + 1] - ts[k]))
  }

  /** Between sorted timestamps no gap is negative, so neither is their median. */
  lemma SortedGapsNonNegative(ts: seq<int>)
    requires Ascending(ts)
    ensures forall k | 0 <= k < |Gaps(ts)| :: Gaps(ts)[k] >= 0
    ensures MedianGap(Gaps(ts)) >= 0
  {
    var g := Gaps(ts);
    forall k | 0 <= k < |g| ensures g[k] >= 0 {
      assert ts[k] <= ts[k + 1];
      WholeDaysMonotone(0, ts[k + 1] - ts[k]);
    }
  }

  /**
   * `0 if not gaps else sorted(gaps)[len(gaps) // 2]`: an element of the gaps
   * (for an even count the upper of the two middle ones), 0 when there is none.
   */
  function MedianGap(gaps: seq<int>): (m: int)
    ensures gaps == [] ==> m == 0
    ensures gaps != [] ==> m in gaps
    ensures (forall k | 0 <= k < |gaps| :: gaps[k] >= 0) ==> m >= 0
  {
    if gaps == [] then 0
    else
      var sorted := SortAsc(gaps);
      assert sorted[|gaps| / 2] in multiset(gaps);
      sorted[|gaps| / 2]
  }

  ghost function IntervalMedian(ev: seq<Event>): int {
    MedianGap(Gaps(SortAsc(Times(ev))))
  }

  /** `author_counts.items()`, in insertion order. */
  ghost function CountEntries(ev: seq<Event>): seq<Entry> {
    var ids := Identities(ev);
    seq(|ids|, k requires 0 <= k < |ids| => Entry(ids[k], CountOf(ev, ids[k])))
  }

  /** `author_last_commit.items()`, in insertion order (the same order as the counts). */
  ghost function LastEntries(ev: seq<Event>): seq<Entry> {
    var ids := Identities(ev);
    seq(|ids|, k requires 0 <= k < |ids| => Entry(ids[k], LastOf(ev, ids[k])))
  }

  function ToAuthorCommits(top: seq<Entry>): (r: seq<AuthorCommits>)
    ensures |r| == |top|
    ensures forall k | 0 <= k < |top| :: r[k] == AuthorCommits(top[k].author, top[k].key)
  {
    seq(|top|, k requires 0 <= k < |top| => AuthorCommits(top[k].author, top[k].key))
  }

  /** `d.items()` for a dict whose keys, in insertion order, are `keys`. */
  function MapEntries(keys: seq<string>, m: map<string, int>): (r: seq<Entry>)
    requires forall k | 0 <= k < |keys| :: keys[k] in m
    ensures |r| == |keys|
  {
    seq(|keys|, k requires 0 <= k < |keys| => Entry(keys[k], m[keys[k]]))
  }

  /** The `recent_authors` rows: days since each listed last commit, and the author's count (0 if absent). */
  function RecentRows(recent: seq<Entry>, counts: map<string, int>, now: int): (r: seq<RecentAuthor>)
    ensures |r| == |recent|
  {
    seq(|recent|, k requires 0 <= k < |recent| =>
      RecentAuthor(recent[k].author, WholeDays(now - recent[k].key), GetOr(counts, recent[k].author, 0)))
  }

  ghost function TopAuthors(ev: seq<Event>): seq<AuthorCommits> {
    ToAuthorCommits(Take(StableSortDesc(CountEntries(ev)), RankingSize))
  }

  ghost function RecentAuthors(ev: seq<Event>, now: int): seq<RecentAuthor> {
    var recent := Take(StableSortDesc(LastEntries(ev)), RankingSize);
    seq(|recent|, k requires 0 <= k < |recent| =>
      RecentAuthor(recent[k].author, WholeDays(now - recent[k].key), CountOf(ev, recent[k].author)))
  }

  // ---------------------------------------------------------------------
  // Facts about the specification functions.
  // ---------------------------------------------------------------------

  lemma IdentitySetSnoc(ev: seq<Event>, e: Event)
    ensures IdentitySet(ev + [e]) == IdentitySet(ev) + {e.author}
  {
    var s := ev + [e];
    forall a | a in IdentitySet(s) ensures a in IdentitySet(ev) + {e.author} {
      var d :| d in s && d.author == a;
      if d != e {
        assert d in ev;
      }
    }
    forall a | a in IdentitySet(ev) ensures a in IdentitySet(s) {
      var d :| d in ev && d.author == a;
      assert d in s;
    }
    assert e in s;
  }

  lemma CountOfSnoc(ev: seq<Event>, e: Event, a: string)
    ensures CountOf(ev + [e], a) == CountOf(ev, a) + (if e.author == a then 1 else 0)
  {
    assert (ev + [e])[..|ev|] == ev;
  }

  lemma LastOfSnoc(ev: seq<Event>, e: Event, a: string)
    requires CountOf(ev + [e], a) > 0
    ensures LastOf(ev + [e], a) ==
      if e.author != a then LastOf(ev, a)
      else if CountOf(ev, a) == 0 || e.time > LastOf(ev, a) then e.time
      else LastOf(ev, a)
  {
    assert (ev + [e])[..|ev|] == ev;
  }

  lemma PrefixSnoc<T>(s: seq<T>, i: nat)
    requires i < |s|
    ensures s[..i + 1] == s[..i] + [s[i]]
  {
  }

  lemma PrefixAll<T>(s: seq<T>)
    ensures s[..|s|] == s
  {
  }

  lemma MergeCountSnoc(cs: seq<Commit>, c: Commit)
    ensures MergeCount(cs + [c]) == MergeCount(cs) + (if IsMerge(c) then 1 else 0)
  {
    assert (cs + [c])[..|cs|] == cs;
  }

  lemma TimesSnoc(ev: seq<Event>, e: Event)
    ensures Times(ev + [e]) == Times(ev) + [e.time]
  {
  }

  lemma IdentitiesSnoc(ev: seq<Event>, e: Event)
    ensures Identities(ev + [e]) ==
      if e.author in Identities(ev) then Identities(ev) else Identities(ev) + [e.author]
  {
    assert (ev + [e])[..|ev|] == ev;
  }

  /** An author has a commit exactly when the identity occurs in the stream. */
  lemma {:induction false} CountOfPositive(ev: seq<Event>, a: string)
    ensures CountOf(ev, a) > 0 <==> a in IdentitySet(ev)
    decreases |ev|
  {
    if ev != [] {
      var init := ev[..|ev| - 1];
      CountOfPositive(init, a);
      assert ev == init + [ev[|ev| - 1]];
      IdentitySetSnoc(init, ev[|ev| - 1]);
    }
  }

  /** `authors_total`: the identity list holds each distinct identity once. */
  lemma IdentitiesAreIdentitySet(ev: seq<Event>)
    ensures (set a | a in Identities(ev)) == IdentitySet(ev)
    ensures |Identities(ev)| == |IdentitySet(ev)|
  {
    forall a ensures a in Identities(ev) <==> a in IdentitySet(ev) {
      CountOfPositive(ev, a);
    }
    DistinctCard(Identities(ev));
  }

  lemma {:induction false} DistinctCard(s: seq<string>)
    requires Distinct(s)
    ensures |set x | x in s| == |s|
  {
    if s != [] {
      var init := s[..|s| - 1];
      DistinctCard(init);
      assert (set x | x in s) == (set x | x in init) + {s[|s| - 1]};
    }
  }

  /** `LastOf` bounds every time of the author's events. */
  lemma {:induction false} LastOfIsUpperBound(ev: seq<Event>, a: string)
    requires CountOf(ev, a) > 0
    ensures forall i | 0 <= i < |ev| && ev[i].author == a :: ev[i].time <= LastOf(ev, a)
    decreases |ev|
  {
    var init := ev[..|ev| - 1];
    if CountOf(init, a) > 0 {
      LastOfIsUpperBound(init, a);
    } else {
      CountOfPositive(init, a);
    }
    forall j | 0 <= j < |ev| && ev[j].author == a ensures ev[j].time <= LastOf(ev, a) {
      if j < |init| {
        assert ev[j] == init[j];
        assert ev[j] in init;
      }
    }
  }

  /** `LastOf` is the time of one of the author's events. */
  lemma {:induction false} LastOfIsAttained(ev: seq<Event>, a: string)
    requires CountOf(ev, a) > 0
    ensures exists i | 0 <= i < |ev| :: ev[i].author == a && ev[i].time == LastOf(ev, a)
    decreases |ev|
  {
    var init, e := ev[..|ev| - 1], ev[|ev| - 1];
    if e.author == a && (CountOf(init, a) == 0 || e.time > LastOf(init, a)) {
      assert ev[|ev| - 1].time == LastOf(ev, a);
    } else {
      LastOfIsAttained(init, a);
      var i :| 0 <= i < |init| && init[i].author == a && init[i].time == LastOf(init, a);
      assert ev[i] == init[i];
    }
  }

  /** `MaxTime` bounds every time of the stream. */
  lemma {:induction false} MaxTimeIsUpperBound(ev: seq<Event>)
    requires ev != []
    ensures forall i | 0 <= i < |ev| :: ev[i].time <= MaxTime(ev)
    decreases |ev|
  {
    var init := ev[..|ev| - 1];
    if init != [] {
      MaxTimeIsUpperBound(init);
      forall j | 0 <= j < |init| ensures ev[j].time <= MaxTime(ev) {
        assert ev[j] == init[j];
      }
    }
  }

  /** `MaxTime` is the time of one of the events. */
  lemma {:induction false} MaxTimeIsAttained(ev: seq<Event>)
    requires ev != []
    ensures exists i | 0 <= i < |ev| :: ev[i].time == MaxTime(ev)
    decreases |ev|
  {
    var init := ev[..|ev| - 1];
    if init == [] || ev[|ev| - 1].time > MaxTime(init) {
      assert ev[|ev| - 1].time == MaxTime(ev);
    } else {
      MaxTimeIsAttained(init);
      var i :| 0 <= i < |init| && init[i].time == MaxTime(init);
      assert ev[i] == init[i];
    }
  }

  /** The last element of the sorted timestamps is the latest commit time. */
  lemma SortedTimesEndAtMax(ev: seq<Event>)
    requires ev != []
    ensures SortAsc(Times(ev))[|ev| - 1] == MaxTime(ev)
  {
    var ts := Times(ev);
    AscendingPermutationLast(ts, SortAsc(ts));
    MaxTimeIsUpperBound(ev);
    MaxTimeIsAttained(ev);
    var i :| 0 <= i < |ts| && ts[i] == SortAsc(ts)[|ev| - 1];
    var m :| 0 <= m < |ev| && ev[m].time == MaxTime(ev);
    assert ts[m] in ts;
  }

  /** Sum of the counts of the identities in `ids`. */
  ghost function SumCounts(ev: seq<Event>, ids: seq<string>): int
    decreases |ids|
  {
    if ids == [] then 0 else SumCounts(ev, ids[..|ids| - 1]) + CountOf(ev, ids[|ids| - 1])
  }

  /** The per-author counts add up to `commits_total`. */
  lemma {:induction false} CountsSumToTotal(ev: seq<Event>)
    ensures SumCounts(ev, Identities(ev)) == |ev|
    decreases |ev|
  {
    if ev != [] {
      var init, e := ev[..|ev| - 1], ev[|ev| - 1];
      assert ev == init + [e];
      CountsSumToTotal(init);
      var prev := Identities(init);
      SumCountsStep(init, e, prev);
      if e.author !in prev {
        SumCountsSnoc(ev, prev, e.author);
        assert CountOf(init, e.author) == 0;
      }
    }
  }

  lemma SumCountsSnoc(ev: seq<Event>, ids: seq<string>, a: string)
    ensures SumCounts(ev, ids + [a]) == SumCounts(ev, ids) + CountOf(ev, a)
  {
    assert (ids + [a])[..|ids|] == ids;
  }

  /** Appending event `e` adds one to the sum exactly when its identity is listed. */
  lemma {:induction false} SumCountsStep(ev: seq<Event>, e: Event, ids: seq<string>)
    requires Distinct(ids)
    ensures SumCounts(ev + [e], ids) == SumCounts(ev, ids) + (if e.author in ids then 1 else 0)
    decreases |ids|
  {
    assert (ev + [e])[..|ev|] == ev;
    if ids != [] {
      var init := ids[..|ids| - 1];
      SumCountsStep(ev, e, init);
      assert ids == init + [ids[|ids| - 1]];
    }
  }

  // ---------------------------------------------------------------------
  // The aggregation.
  // ---------------------------------------------------------------------

  /** What the loop of `Tally` has built once it has seen the events `ev`. */
  ghost predicate Tallied(ev: seq<Event>, dates: seq<int>, counts: map<string, int>,
                          last: map<string, int>, order: seq<string>)
  {
    && dates == Times(ev)
    && order == Identities(ev)
    && (forall a :: a in counts <==> CountOf(ev, a) > 0)
    && last.Keys == counts.Keys
    && (forall a :: CountOf(ev, a) == GetOr(counts, a, 0))
    && (forall a | a in last :: last[a] == LastOf(ev, a))
  }

  /** One iteration of the loop keeps `Tallied`: the source's updates, event by event. */
  lemma TallyStep(ev: seq<Event>, e: Event,
                  dates: seq<int>, counts: map<string, int>, last: map<string, int>, order: seq<string>,
                  dates': seq<int>, counts': map<string, int>, last': map<string, int>, order': seq<string>)
    requires Tallied(ev, dates, counts, last, order)
    requires dates' == dates + [e.time]
    requires counts' == counts[e.author := GetOr(counts, e.author, 0) + 1]
    requires last' == if e.author !in last || e.time > last[e.author] then last[e.author := e.time] else last
    requires order' == if e.author !in counts then order + [e.author] else order
    ensures Tallied(ev + [e], dates', counts', last', order')
  {
    TimesSnoc(ev, e);
    IdentitiesSnoc(ev, e);
    CountsStep(ev, e, counts);
    LastStep(ev, e, counts, last);
  }

  lemma CountsStep(ev: seq<Event>, e: Event, counts: map<string, int>)
    requires forall a :: a in counts <==> CountOf(ev, a) > 0
    requires forall a :: CountOf(ev, a) == GetOr(counts, a, 0)
    ensures forall a :: a in counts[e.author := GetOr(counts, e.author, 0) + 1] <==> CountOf(ev + [e], a) > 0
    ensures forall a :: CountOf(ev + [e], a) == GetOr(counts[e.author := GetOr(counts, e.author, 0) + 1], a, 0)
  {
    forall a ensures CountOf(ev + [e], a) == CountOf(ev, a) + (if e.author == a then 1 else 0) {
      CountOfSnoc(ev, e, a);
    }
  }

  lemma LastStep(ev: seq<Event>, e: Event, counts: map<string, int>, last: map<string, int>)
    requires forall a :: a in counts <==> CountOf(ev, a) > 0
    requires last.Keys == counts.Keys
    requires forall a | a in last :: last[a] == LastOf(ev, a)
    ensures var last' := if e.author !in last || e.time > last[e.author] then last[e.author := e.time] else last;
      && last'.Keys == counts[e.author := GetOr(counts, e.author, 0) + 1].Keys
      && (forall a | a in last' :: CountOf(ev + [e], a) > 0 && last'[a] == LastOf(ev + [e], a))
  {
    forall a | a in last || a == e.author
      ensures CountOf(ev + [e], a) > 0
      ensures LastOf(ev + [e], a) ==
        if e.author != a then LastOf(ev, a)
        else if CountOf(ev, a) == 0 || e.time > LastOf(ev, a) then e.time
        else LastOf(ev, a)
    {
      CountOfSnoc(ev, e, a);
      LastOfSnoc(ev, e, a);
    }
  }

  /**
   * The single pass of `analyze_activity` (its `for` loop): the timestamps in
   * stream order, the per-author count and latest time, the dicts' key order,
   * and the merge counter.
   */
  lemma MergeStep(cs: seq<Commit>, c: Commit, n: int, n': int)
    requires n == MergeCount(cs)
    requires n' == if IsMerge(c) then n + 1 else n
    ensures n' == MergeCount(cs + [c])
  {
    MergeCountSnoc(cs, c);
  }

  method Tally(commits: seq<Commit>)
    returns (commitDates: seq<int>, authorCounts: map<string, int>,
             authorLastCommit: map<string, int>, authorOrder: seq<string>, mergeCommits: int)
    ensures Tallied(Events(commits), commitDates, authorCounts, authorLastCommit, authorOrder)
    ensures mergeCommits == MergeCount(commits)
  {
    ghost var ev := Events(commits);
    commitDates, authorCounts, authorLastCommit, authorOrder, mergeCommits := [], map[], map[], [], 0;

    for i := 0 to |commits|
      invariant Tallied(ev[..i], commitDates, authorCounts, authorLastCommit, authorOrder)
      invariant mergeCommits == MergeCount(commits[..i])
    {
      var commit := commits[i];
      ghost var dates0, counts0, last0, order0 := commitDates, authorCounts, authorLastCommit, authorOrder;
      ghost var merges0 := mergeCommits;
      commitDates := commitDates + [commit.time];
      var ident := Identity(commit);
      if ident !in authorCounts {
        authorOrder := authorOrder + [ident];
      }
      authorCounts := authorCounts[ident := GetOr(authorCounts, ident, 0) + 1];
      if ident !in authorLastCommit || commit.time > authorLastCommit[ident] {
        authorLastCommit := authorLastCommit[ident := commit.time];
      }
      if commit.merge || commit.parents > 1 {
        mergeCommits := mergeCommits + 1;
      } else if Contains(Lower(commit.msg), "merge") {
        mergeCommits := mergeCommits + 1;
      }
      PrefixSnoc(ev, i);
      PrefixSnoc(commits, i);
      MergeStep(commits[..i], commit, merges0, mergeCommits);
      TallyStep(ev[..i], ev[i], dates0, counts0, last0, order0,
                commitDates, authorCounts, authorLastCommit, authorOrder);
    }
    PrefixAll(ev);
    PrefixAll(commits);
  }

  /** `days_since_last`, read off the sorted timestamps: the last one is the latest. */
  function DaysSinceLast(sortedDates: seq<int>, now: int): int {
    if sortedDates == [] then NoActivityDays else WholeDays(now - sortedDates[|sortedDates| - 1])
  }

  /** Whole days from the latest commit to `now`; the sentinel 999999 without commits. */
  ghost function DaysSinceLatest(ev: seq<Event>, now: int): int {
    if ev == [] then NoActivityDays else WholeDays(now - MaxTime(ev))
  }

  lemma LatestCommitDays(ev: seq<Event>, now: int)
    ensures DaysSinceLast(SortAsc(Times(ev)), now) == DaysSinceLatest(ev, now)
  {
    if ev != [] {
      SortedTimesEndAtMax(ev);
    }
  }

  /** The `intervals` loop: the whole days between neighbouring timestamps. */
  method DayGaps(dates: seq<int>) returns (intervals: seq<int>)
    ensures intervals == Gaps(dates)
  {
    intervals := [];
    var i := 1;
    while i < |dates|
      invariant 1 <= i && (i <= |dates| || (dates == [] && i == 1))
      invariant |intervals| == i - 1
      invariant forall k | 0 <= k < i - 1 :: intervals[k] == WholeDays(dates[k + 1] - dates[k])
    {
      intervals := intervals + [WholeDays(dates[i] - dates[i - 1])];
      i := i + 1;
    }
    GapsPointwise(dates, intervals);
  }

  lemma GapsPointwise(dates: seq<int>, g: seq<int>)
    requires |g| == |Gaps(dates)|
    requires forall k | 0 <= k < |g| && k + 1 < |dates| :: g[k] == WholeDays(dates[k + 1] - dates[k])
    ensures g == Gaps(dates)
  {
  }

  /** The loop's dicts list every identity, and their items are the specified entries. */
  lemma TalliedItems(ev: seq<Event>, dates: seq<int>, counts: map<string, int>,
                     last: map<string, int>, order: seq<string>)
    requires Tallied(ev, dates, counts, last, order)
    ensures forall k | 0 <= k < |order| :: order[k] in counts && order[k] in last
    ensures MapEntries(order, counts) == CountEntries(ev)
    ensures MapEntries(order, last) == LastEntries(ev)
  {
    forall k | 0 <= k < |order| ensures order[k] in counts && order[k] in last {
      assert order[k] in Identities(ev);
    }
    assert forall k | 0 <= k < |order| :: counts[order[k]] == CountOf(ev, order[k]);
  }

  /** `len(author_counts)` is the number of distinct identities. */
  lemma TalliedAuthors(ev: seq<Event>, dates: seq<int>, counts: map<string, int>,
                       last: map<string, int>, order: seq<string>)
    requires Tallied(ev, dates, counts, last, order)
    ensures |counts| == |IdentitySet(ev)|
  {
    forall a ensures a in counts <==> a in IdentitySet(ev) {
      CountOfPositive(ev, a);
    }
    assert counts.Keys == IdentitySet(ev);
  }

  /** The `recent_authors` rows built from the loop's dicts are the specified ones. */
  lemma TalliedRecent(ev: seq<Event>, dates: seq<int>, counts: map<string, int>,
                      last: map<string, int>, order: seq<string>, now: int)
    requires Tallied(ev, dates, counts, last, order)
    ensures RecentRows(Take(StableSortDesc(LastEntries(ev)), RankingSize), counts, now) == RecentAuthors(ev, now)
  {
  }

  /**
   * `analyze_activity` on the commits of the time window, at instant `now`:
   * every field of the report is the specified function of the commit stream.
   * Without commits, the sentinels are reported: 999999 days since the last
   * commit, a median of 0 and empty rankings.
   */
  method AnalyzeActivity(commits: seq<Commit>, now: int) returns (report: ActivityReport)
    ensures report.commitsTotal == |commits|
    ensures report.authorsTotal == |IdentitySet(Events(commits))|
    ensures report.daysSinceLastCommit == DaysSinceLatest(Events(commits), now)
    ensures report.medianDaysBetweenCommits == IntervalMedian(Events(commits))
    ensures report.mergeCommits == MergeCount(commits)
    ensures report.topAuthors == TopAuthors(Events(commits))
    ensures report.recentAuthors == RecentAuthors(Events(commits), now)
    ensures commits == [] ==> report == ActivityReport(0, 0, NoActivityDays, 0, 0, [], [])
  {
    var commitDates, authorCounts, authorLastCommit, authorOrder, mergeCommits := Tally(commits);
    ghost var ev := Events(commits);
    TalliedItems(ev, commitDates, authorCounts, authorLastCommit, authorOrder);
    TalliedAuthors(ev, commitDates, authorCounts, authorLastCommit, authorOrder);
    TalliedRecent(ev, commitDates, authorCounts, authorLastCommit, authorOrder, now);
    assert commitDates == Times(ev);
    commitDates := SortAsc(commitDates);
    assert |commitDates| == |commits|;
    var commitsTotal := |commitDates|;
    var authorsTotal := |authorCounts|;
    var daysSinceLast := DaysSinceLast(commitDates, now);
    LatestCommitDays(ev, now);
    var intervals := DayGaps(commitDates);
    var median := MedianGap(intervals);
    var top := ToAuthorCommits(Take(StableSortDesc(MapEntries(authorOrder, authorCounts)), RankingSize));
    var recentSorted := Take(StableSortDesc(MapEntries(authorOrder, authorLastCommit)), RankingSize);
    var recent := RecentRows(recentSorted, authorCounts, now);
    report := ActivityReport(commitsTotal, authorsTotal, daysSinceLast, median, mergeCommits, top, recent);
  }
}
