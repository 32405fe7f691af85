/**
 * The maintenance score of the `analyze` command: 50 points to start, up to
 * 30 for commit volume, up to 20 for a recent last commit, minus up to 30
 * for outdated dependencies, clamped to 0..100.
 */
module Maintenance {
  import opened Wrappers
  import Activity
  import Dependencies

  function Min(a: int, b: int): int {
    if a <= b then a else b
  }

  function Max(a: int, b: int): int {
    if a >= b then a else b
  }

  /** One point per ten commits (Python `//`, which Dafny's `/` matches for a positive divisor), at most 30. */
  function CommitBonus(commits: int): (bonus: int)
    ensures bonus <= 30
    ensures commits >= 0 ==> 0 <= bonus
    ensures bonus == 30 <==> commits >= 300
  {
    Min(30, commits / 10)
  }

  /** Twenty points for a commit today, one fewer per day since, none after twenty days. */
  function RecencyBonus(days: int): (bonus: int)
    ensures 0 <= bonus
    ensures days >= 0 ==> bonus <= 20
    ensures bonus == 0 <==> days >= 20
  {
    Max(0, 20 - Min(20, days))
  }

  /** Five points per outdated package, at most 30. */
  function OutdatedPenalty(outdated: nat): (penalty: int)
    ensures 0 <= penalty <= 30
    ensures penalty == 0 <==> outdated == 0
    ensures penalty == 30 <==> outdated >= 6
  {
    Min(30, outdated * 5)
  }

  /** The score from the three figures. */
  function Score(commits: int, days: int, outdated: nat): (score: int)
    ensures 0 <= score <= 100
  {
    Max(0, Min(100, 50 + CommitBonus(commits) + RecencyBonus(days) - OutdatedPenalty(outdated)))
  }

  /** `sum(1 for p in packages if p.get("is_outdated"))`. */
  function CountTrue(flags: seq<bool>): (n: nat)
    ensures n <= |flags|
  {
    if flags == [] then 0 else CountTrue(flags[..|flags| - 1]) + (if flags[|flags| - 1] then 1 else 0)
  }

  /**
   * The score as `analyze` computes it from the two reports: a missing
   * commit total counts as 0, a missing day count as 9999, and `outdatedFlags`
   * holds each package's `is_outdated` (false when absent).
   */
  function ScoreOf(commitsTotal: Option<int>, daysSinceLastCommit: Option<int>, outdatedFlags: seq<bool>): (score: int)
    ensures 0 <= score <= 100
  {
    Score(commitsTotal.GetOr(0), daysSinceLastCommit.GetOr(9999), CountTrue(outdatedFlags))
  }

  /** Each package's `is_outdated`, in report order. */
  function OutdatedFlags<V>(packages: seq<Dependencies.Package<V>>): (flags: seq<bool>)
    ensures |flags| == |packages|
  {
    seq(|packages|, i requires 0 <= i < |packages| => packages[i].isOutdated)
  }

  /** Counting the flags counts the outdated packages of the dependency report. */
  lemma {:induction false} OutdatedFlagsCount<V>(packages: seq<Dependencies.Package<V>>)
    ensures CountTrue(OutdatedFlags(packages)) == Dependencies.CountOutdated(packages)
    decreases |packages|
  {
    if packages != [] {
      var init := packages[..|packages| - 1];
      OutdatedFlagsCount(init);
      assert OutdatedFlags(packages)[..|packages| - 1] == OutdatedFlags(init);
    }
  }

  /** `analyze`: the score of an activity report and a dependency report. */
  function AnalyzeScore<V>(activity: Activity.ActivityReport, deps: Dependencies.DependencyReport<V>): (score: int)
    ensures 0 <= score <= 100
  {
    ScoreOf(Some(activity.commitsTotal), Some(activity.daysSinceLastCommit), OutdatedFlags(deps.packages))
  }

  /** With both reports at hand the defaults never apply, and the penalty follows the report's own outdated total. */
  lemma AnalyzeScoreOfSummary<V>(activity: Activity.ActivityReport, deps: Dependencies.DependencyReport<V>)
    requires deps.summary.outdatedTotal == Dependencies.CountOutdated(deps.packages)
    ensures AnalyzeScore(activity, deps) == Score(activity.commitsTotal, activity.daysSinceLastCommit, deps.summary.outdatedTotal)
  {
    OutdatedFlagsCount(deps.packages);
  }

  /** For non-negative inputs the clamp never bites: the score is the plain sum of its parts. */
  lemma ClampInactive(commits: int, days: int, outdated: nat)
    requires commits >= 0 && days >= 0
    ensures Score(commits, days, outdated) == 50 + CommitBonus(commits) + RecencyBonus(days) - OutdatedPenalty(outdated)
    ensures 20 <= Score(commits, days, outdated)
  {
  }

  /** More commits, a more recent commit or fewer outdated packages never lower the score. */
  lemma ScoreMonotone(commits: int, days: int, outdated: nat, commits': int, days': int, outdated': nat)
    requires commits <= commits' && days' <= days && outdated' <= outdated
    ensures Score(commits, days, outdated) <= Score(commits', days', outdated')
  {
  }

  /** For non-negative inputs the score is 100 exactly for 300 commits or more, a commit today and nothing outdated. */
  lemma PerfectScore(commits: int, days: int, outdated: nat)
    requires commits >= 0 && days >= 0
    ensures Score(commits, days, outdated) == 100 <==> commits >= 300 && days == 0 && outdated == 0
  {
    ClampInactive(commits, days, outdated);
  }

  /** The "no commits" day count of the activity report, 999999, and the default 9999 both earn nothing for recency. */
  lemma SentinelsEarnNoRecency()
    ensures RecencyBonus(999999) == 0 && RecencyBonus(9999) == 0
  {
  }

  /** Without any figures the score is the starting 50. */
  lemma EmptyReportsScore()
    ensures ScoreOf(None, None, []) == 50
  {
  }

  /** 100 commits, the last two days ago, one of two packages outdated: 50 + 10 + 18 - 5. */
  lemma ExampleScore()
    ensures ScoreOf(Some(100), Some(2), [true, false]) == 73
  {
    assert [true, false][..1] == [true];
    assert [true][..0] == [];
    assert CountTrue([true, false]) == 1;
  }
}
