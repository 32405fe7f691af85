/**
 * What the activity report promises about its rankings and totals, proved
 * about the specification functions that `AnalyzeActivity` is tied to.
 */
module ActivityFacts {
  import opened Text
  import opened IntSort
  import opened Activity
  import opened Ranking
  import opened Wrappers

  // ---------------------------------------------------------------------
  // The dict items that feed the rankings.
  // ---------------------------------------------------------------------

  /** `author_counts.items()` and `author_last_commit.items()` hold one entry per identity. */
  lemma EntriesLength(ev: seq<Event>)
    ensures |CountEntries(ev)| == |IdentitySet(ev)|
    ensures |LastEntries(ev)| == |IdentitySet(ev)|
  {
    IdentitiesAreIdentitySet(ev);
  }

  /** An item of `author_counts` is an identity of the window with its commit count. */
  lemma CountEntryMember(ev: seq<Event>, x: Entry)
    requires x in CountEntries(ev)
    ensures x.author in IdentitySet(ev) && x.key == CountOf(ev, x.author)
  {
    var ce := CountEntries(ev);
    var k :| 0 <= k < |ce| && ce[k] == x;
    CountOfPositive(ev, x.author);
  }

  /** Every identity of the window has its item in `author_counts`. */
  lemma CountEntryOf(ev: seq<Event>, a: string)
    requires a in IdentitySet(ev)
    ensures Entry(a, CountOf(ev, a)) in CountEntries(ev)
  {
    var ids := Identities(ev);
    CountOfPositive(ev, a);
    var k :| 0 <= k < |ids| && ids[k] == a;
    assert CountEntries(ev)[k] == Entry(a, CountOf(ev, a));
  }

  /** An item of `author_last_commit` is an identity of the window with its latest commit time. */
  lemma LastEntryMember(ev: seq<Event>, x: Entry)
    requires x in LastEntries(ev)
    ensures x.author in IdentitySet(ev) && CountOf(ev, x.author) > 0 && x.key == LastOf(ev, x.author)
  {
    var le := LastEntries(ev);
    var k :| 0 <= k < |le| && le[k] == x;
    CountOfPositive(ev, x.author);
  }

  /** Every identity of the window has its item in `author_last_commit`. */
  lemma LastEntryOf(ev: seq<Event>, a: string)
    requires a in IdentitySet(ev)
    ensures CountOf(ev, a) > 0 && Entry(a, LastOf(ev, a)) in LastEntries(ev)
  {
    var ids := Identities(ev);
    CountOfPositive(ev, a);
    var k :| 0 <= k < |ids| && ids[k] == a;
    assert LastEntries(ev)[k] == Entry(a, LastOf(ev, a));
  }

  /** Every entry of a ranking is an entry of what was ranked. */
  lemma RankedEntryIsInput(s: seq<Entry>, i: int)
    requires 0 <= i < |Take(StableSortDesc(s), RankingSize)|
    ensures Take(StableSortDesc(s), RankingSize)[i] in s
  {
    var r := StableSortDesc(s);
    assert r[i] in multiset(r);
  }

  // ---------------------------------------------------------------------
  // top_authors
  // ---------------------------------------------------------------------

  /**
   * `top_authors` lists min(5, number of authors) rows, each an author of the
   * window with that author's true commit count.
   */
  lemma TopAuthorsAreCounts(ev: seq<Event>)
    ensures |TopAuthors(ev)| == Min(RankingSize, |IdentitySet(ev)|)
    ensures forall i | 0 <= i < |TopAuthors(ev)| ::
      TopAuthors(ev)[i].author in IdentitySet(ev) && TopAuthors(ev)[i].commits == CountOf(ev, TopAuthors(ev)[i].author)
  {
    var ce := CountEntries(ev);
    var t := Take(StableSortDesc(ce), RankingSize);
    EntriesLength(ev);
    forall i | 0 <= i < |t|
      ensures TopAuthors(ev)[i].author in IdentitySet(ev) && TopAuthors(ev)[i].commits == CountOf(ev, TopAuthors(ev)[i].author)
    {
      RankedEntryIsInput(ce, i);
      CountEntryMember(ev, t[i]);
    }
  }

  /** `top_authors` is ordered by commit count, largest first. */
  lemma TopAuthorsDescending(ev: seq<Event>)
    ensures forall i, j | 0 <= i < j < |TopAuthors(ev)| :: TopAuthors(ev)[i].commits >= TopAuthors(ev)[j].commits
  {
    var t := Take(StableSortDesc(CountEntries(ev)), RankingSize);
    assert forall i, j | 0 <= i < j < |t| :: t[i].key >= t[j].key;
  }

  /**
   * An author left out of `top_authors` means five rows were listed, and that
   * author has no more commits than the fifth.
   */
  lemma TopAuthorsOmitted(ev: seq<Event>, a: string)
    requires a in IdentitySet(ev)
    requires forall i | 0 <= i < |TopAuthors(ev)| :: TopAuthors(ev)[i].author != a
    ensures |TopAuthors(ev)| == RankingSize
    ensures CountOf(ev, a) <= TopAuthors(ev)[RankingSize - 1].commits
  {
    var ce := CountEntries(ev);
    var t := Take(StableSortDesc(ce), RankingSize);
    var x := Entry(a, CountOf(ev, a));
    CountEntryOf(ev, a);
    forall i | 0 <= i < |t| ensures t[i] != x {
      assert TopAuthors(ev)[i].author == t[i].author;
    }
    TakeLeavesOutLower(ce, RankingSize, x);
  }

  /**
   * Ties in `top_authors` keep dict order: of two listed authors with the same
   * count, the one whose first commit came earlier in the stream is listed first.
   */
  lemma TopAuthorsTies(ev: seq<Event>, i: int, j: int)
    requires 0 <= i < j < |TopAuthors(ev)|
    requires TopAuthors(ev)[i].commits == TopAuthors(ev)[j].commits
    ensures exists p, q | 0 <= p < q < |Identities(ev)| ::
      Identities(ev)[p] == TopAuthors(ev)[i].author && Identities(ev)[q] == TopAuthors(ev)[j].author
  {
    var ids := Identities(ev);
    var ce := CountEntries(ev);
    var r := StableSortDesc(ce);
    assert TopAuthors(ev)[i].author == r[i].author && TopAuthors(ev)[j].author == r[j].author;
    StableSortDescKeepsOrder(ce, i, j);
    var p, q :| 0 <= p < q < |ce| && ce[p] == r[i] && ce[q] == r[j];
    assert ce[p].author == ids[p] && ce[q].author == ids[q];
  }

  // ---------------------------------------------------------------------
  // recent_authors
  // ---------------------------------------------------------------------

  /** Row `i` of `recent_authors` is built from entry `i` of the ranked latest commits. */
  lemma RecentRowAt(ev: seq<Event>, now: int, i: int)
    requires 0 <= i < |Take(StableSortDesc(LastEntries(ev)), RankingSize)|
    ensures |RecentAuthors(ev, now)| == |Take(StableSortDesc(LastEntries(ev)), RankingSize)|
    ensures var x := Take(StableSortDesc(LastEntries(ev)), RankingSize)[i];
      RecentAuthors(ev, now)[i] == RecentAuthor(x.author, WholeDays(now - x.key), CountOf(ev, x.author))
  {
  }

  /**
   * `recent_authors` lists min(5, number of authors) rows; each gives an author
   * of the window, the whole days since that author's latest commit, and the
   * author's commit count.
   */
  lemma RecentAuthorsAreLatest(ev: seq<Event>, now: int)
    ensures |RecentAuthors(ev, now)| == Min(RankingSize, |IdentitySet(ev)|)
    ensures forall i | 0 <= i < |RecentAuthors(ev, now)| ::
      var row := RecentAuthors(ev, now)[i];
      && row.author in IdentitySet(ev)
      && CountOf(ev, row.author) > 0
      && row.daysSinceLastCommit == WholeDays(now - LastOf(ev, row.author))
      && row.commits == CountOf(ev, row.author)
  {
    var le := LastEntries(ev);
    var t := Take(StableSortDesc(le), RankingSize);
    EntriesLength(ev);
    var rec := RecentAuthors(ev, now);
    forall i | 0 <= i < |rec|
      ensures rec[i].author in IdentitySet(ev) && CountOf(ev, rec[i].author) > 0
      ensures rec[i].daysSinceLastCommit == WholeDays(now - LastOf(ev, rec[i].author))
      ensures rec[i].commits == CountOf(ev, rec[i].author)
    {
      RecentRowAt(ev, now, i);
      RankedEntryIsInput(le, i);
      LastEntryMember(ev, t[i]);
    }
  }

  /** `recent_authors` is ordered by latest commit, most recent first, so its day counts never decrease. */
  lemma RecentAuthorsAscendingDays(ev: seq<Event>, now: int)
    ensures forall i, j | 0 <= i < j < |RecentAuthors(ev, now)| ::
      RecentAuthors(ev, now)[i].daysSinceLastCommit <= RecentAuthors(ev, now)[j].daysSinceLastCommit
  {
    var t := Take(StableSortDesc(LastEntries(ev)), RankingSize);
    var rec := RecentAuthors(ev, now);
    forall i, j | 0 <= i < j < |rec| ensures rec[i].daysSinceLastCommit <= rec[j].daysSinceLastCommit {
      assert t[i].key >= t[j].key;
      WholeDaysMonotone(now - t[i].key, now - t[j].key);
    }
  }

  /**
   * An author left out of `recent_authors` means five rows were listed, and
   * that author's latest commit is no later than the fifth row's.
   */
  lemma RecentAuthorsOmitted(ev: seq<Event>, now: int, a: string)
    requires a in IdentitySet(ev)
    requires forall i | 0 <= i < |RecentAuthors(ev, now)| :: RecentAuthors(ev, now)[i].author != a
    ensures CountOf(ev, a) > 0
    ensures |RecentAuthors(ev, now)| == RankingSize
    ensures WholeDays(now - LastOf(ev, a)) >= RecentAuthors(ev, now)[RankingSize - 1].daysSinceLastCommit
  {
    var le := LastEntries(ev);
    var t := Take(StableSortDesc(le), RankingSize);
    LastEntryOf(ev, a);
    var x := Entry(a, LastOf(ev, a));
    OmittedFromRecent(ev, now, a);
    TakeLeavesOutLower(le, RankingSize, x);
    RecentRowAt(ev, now, RankingSize - 1);
    WholeDaysMonotone(now - t[RankingSize - 1].key, now - x.key);
  }

  lemma OmittedFromRecent(ev: seq<Event>, now: int, a: string)
    requires forall i | 0 <= i < |RecentAuthors(ev, now)| :: RecentAuthors(ev, now)[i].author != a
    ensures CountOf(ev, a) > 0 ==> Entry(a, LastOf(ev, a)) !in Take(StableSortDesc(LastEntries(ev)), RankingSize)
  {
    var t := Take(StableSortDesc(LastEntries(ev)), RankingSize);
    forall i | 0 <= i < |t| ensures t[i].author != a {
      RecentRowAt(ev, now, i);
    }
  }

  /** Some author's latest commit is the latest commit of the window. */
  lemma LatestAuthorExists(ev: seq<Event>) returns (a: string)
    requires ev != []
    ensures a in IdentitySet(ev) && CountOf(ev, a) > 0 && LastOf(ev, a) == MaxTime(ev)
  {
    MaxTimeIsAttained(ev);
    var m :| 0 <= m < |ev| && ev[m].time == MaxTime(ev);
    a := ev[m].author;
    assert ev[m] in ev;
    CountOfPositive(ev, a);
    LastOfIsUpperBound(ev, a);
    LastOfAtMostMax(ev, a);
  }

  lemma LastOfAtMostMax(ev: seq<Event>, a: string)
    requires CountOf(ev, a) > 0
    ensures ev != [] && LastOf(ev, a) <= MaxTime(ev)
  {
    LastOfIsAttained(ev, a);
    MaxTimeIsUpperBound(ev);
  }

  /**
   * The first row of `recent_authors` reports the same days as
   * `days_since_last_commit`: its author made the latest commit.
   */
  lemma RecentAuthorsStartAtLatest(ev: seq<Event>, now: int)
    requires ev != []
    ensures |RecentAuthors(ev, now)| > 0
    ensures RecentAuthors(ev, now)[0].daysSinceLastCommit == DaysSinceLatest(ev, now)
  {
    var le := LastEntries(ev);
    var r := StableSortDesc(le);
    var a := LatestAuthorExists(ev);
    LastEntryOf(ev, a);
    StableSortDescFirstIsMax(le, Entry(a, LastOf(ev, a)));
    RankedEntryIsInput(le, 0);
    LastEntryMember(ev, r[0]);
    LastOfAtMostMax(ev, r[0].author);
    assert r[0].key == MaxTime(ev);
    RecentRowAt(ev, now, 0);
  }

  /**
   * Ties in `recent_authors` keep dict order: of two listed authors with the
   * same latest commit time, the one that appeared first in the stream is listed first.
   */
  lemma RecentAuthorsTies(ev: seq<Event>, now: int, i: int, j: int)
    requires 0 <= i < j < |RecentAuthors(ev, now)|
    requires CountOf(ev, RecentAuthors(ev, now)[i].author) > 0
    requires CountOf(ev, RecentAuthors(ev, now)[j].author) > 0
    requires LastOf(ev, RecentAuthors(ev, now)[i].author) == LastOf(ev, RecentAuthors(ev, now)[j].author)
    ensures exists p, q | 0 <= p < q < |Identities(ev)| ::
      Identities(ev)[p] == RecentAuthors(ev, now)[i].author && Identities(ev)[q] == RecentAuthors(ev, now)[j].author
  {
    var ids := Identities(ev);
    var le := LastEntries(ev);
    var r := StableSortDesc(le);
    var t := Take(r, RankingSize);
    RankedEntryIsInput(le, i);
    RankedEntryIsInput(le, j);
    LastEntryMember(ev, t[i]);
    LastEntryMember(ev, t[j]);
    assert r[i].key == r[j].key;
    StableSortDescKeepsOrder(le, i, j);
    var p, q :| 0 <= p < q < |le| && le[p] == r[i] && le[q] == r[j];
    assert le[p].author == ids[p] && le[q].author == ids[q];
  }

  // ---------------------------------------------------------------------
  // Totals
  // ---------------------------------------------------------------------

  lemma {:induction false} IdentitiesAtMostEvents(ev: seq<Event>)
    ensures |Identities(ev)| <= |ev|
    decreases |ev|
  {
    if ev != [] {
      IdentitiesAtMostEvents(ev[..|ev| - 1]);
    }
  }

  /** `authors_total` is between 1 and `commits_total` when there are commits, and 0 otherwise. */
  lemma AuthorsBetweenOneAndCommits(ev: seq<Event>)
    ensures |IdentitySet(ev)| <= |ev|
    ensures ev != [] <==> |IdentitySet(ev)| > 0
  {
    IdentitiesAreIdentitySet(ev);
    IdentitiesAtMostEvents(ev);
    if ev != [] {
      assert ev[0] in ev;
      assert ev[0].author in IdentitySet(ev);
    }
  }

  /**
   * On gaps that are already sorted the median is read off directly: the
   * middle one, or the upper of the two middle ones for an even count.
   */
  lemma MedianOfSortedGaps(gaps: seq<int>)
    requires gaps != [] && Ascending(gaps)
    ensures MedianGap(gaps) == gaps[|gaps| / 2]
  {
    SortAscOfAscending(gaps);
  }

  /** A stream that arrives in time order needs no sorting before the gaps are taken. */
  lemma IntervalMedianOfAscending(ev: seq<Event>)
    requires Ascending(Times(ev))
    ensures IntervalMedian(ev) == MedianGap(Gaps(Times(ev)))
  {
    SortAscOfAscending(Times(ev));
  }

  // ---------------------------------------------------------------------
  // A worked window
  // ---------------------------------------------------------------------

  /**
   * One author commits one, three and six days after `base`; the middle commit
   * has two parents and says "Merge branch".
   */
  function ThreeCommits(base: int): seq<Commit> {
    [ Commit(base + 86400, "a@a", "A", "", false, 0),
      Commit(base + 3 * 86400, "a@a", "A", "Merge branch", true, 2),
      Commit(base + 6 * 86400, "a@a", "A", "", false, 0) ]
  }

  /** In that window one commit is a merge. */
  lemma ThreeCommitsMerges(base: int)
    ensures MergeCount(ThreeCommits(base)) == 1
  {
    var cs := ThreeCommits(base);
    assert !Contains(Lower(""), "merge");
    assert cs[..2][..1] == cs[..1];
    assert MergeCount(cs[..1]) == 0;
    assert MergeCount(cs[..2]) == 1;
  }

  /** The gaps are 2 and 3 days; with an even count the upper middle, 3, is the median. */
  lemma ThreeCommitsMedian(base: int)
    ensures IntervalMedian(Events(ThreeCommits(base))) == 3
  {
    ThreeCommitsTimes(base);
    MedianOfDays(Events(ThreeCommits(base)), base);
  }

  /** Commits one, three and six days after `base`, whoever made them, have median gap 3. */
  lemma MedianOfDays(ev: seq<Event>, base: int)
    requires Times(ev) == [base + 86400, base + 3 * 86400, base + 6 * 86400]
    ensures IntervalMedian(ev) == 3
  {
    var ts := Times(ev);
    assert Ascending(ts);
    IntervalMedianOfAscending(ev);
    ThreeCommitsGaps(base);
    MedianOfTwoGaps(Gaps(ts));
  }

  lemma MedianOfTwoGaps(g: seq<int>)
    requires |g| == 2 && g[0] <= g[1]
    ensures MedianGap(g) == g[1]
  {
    MedianOfSortedGaps(g);
  }

  lemma ThreeCommitsTimes(base: int)
    ensures Times(Events(ThreeCommits(base))) == [base + 86400, base + 3 * 86400, base + 6 * 86400]
  {
    var ev := Events(ThreeCommits(base));
    assert ev[0].time == base + 86400 && ev[1].time == base + 3 * 86400 && ev[2].time == base + 6 * 86400;
  }

  lemma ThreeCommitsGaps(base: int)
    ensures var g := Gaps([base + 86400, base + 3 * 86400, base + 6 * 86400]);
      |g| == 2 && g[0] == 2 && g[1] == 3
  {
    var ts := [base + 86400, base + 3 * 86400, base + 6 * 86400];
    var g := Gaps(ts);
    assert ts[1] - ts[0] == 172800 && ts[2] - ts[1] == 259200;
    assert WholeDays(172800) == 2 && WholeDays(259200) == 3;
    assert g[0] == WholeDays(172800) && g[1] == WholeDays(259200);
  }

  /** Four days after the last of the three commits: 4 days since it, and a single author. */
  lemma ThreeCommitsAuthors(base: int)
    ensures DaysSinceLatest(Events(ThreeCommits(base)), base + 10 * 86400) == 4
    ensures IdentitySet(Events(ThreeCommits(base))) == {"a@a"}
  {
    var ev := Events(ThreeCommits(base));
    assert Identity(ThreeCommits(base)[0]) == "a@a";
    assert ev == [Event("a@a", base + 86400), Event("a@a", base + 3 * 86400), Event("a@a", base + 6 * 86400)];
    assert ev[..2][..1] == ev[..1];
    assert MaxTime(ev[..1]) == base + 86400;
    assert MaxTime(ev[..2]) == base + 3 * 86400;
  }
}
