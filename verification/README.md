# repo-miner, modelled in Dafny

repo-miner is a small command-line tool that reports on the health of a Python
project. It has three parts:

- **Commit activity.** It reports the commit count, the number of authors, the
  days since the last commit, the median gap between commits, the number of
  merges, and two top-five rankings of authors.
- **Dependencies.** It reads the dependencies in `requirements.txt` and
  `pyproject.toml`, merges them by name, and, when online, finds each package's
  newest version on PyPI and its known vulnerabilities in OSV.
- **Maintenance score and CSV export.** It combines the two reports into a
  score from 0 to 100, and it can write a list of dictionaries as a CSV file.

This project models that core and proves properties of the model.

| file | module | models |
|---|---|---|
| `wrappers.dfy` | `Wrappers` | `Option` (Python's `None`), and `d.get(k, default)` |
| `text.dfy` | `Text` | `str.isspace` / `\s`, `strip`, `lower` on ASCII, `in`, greedy regex runs |
| `int_sort.dfy` | `IntSort` | `list.sort()` / `sorted()` on numbers |
| `ranking.dfy` | `Ranking` | `sorted(..., key=..., reverse=True)[:5]`, which is stable |
| `activity.dfy` | `Activity` | `analyze_activity`: the commit loop, the sort, the gap loop, the report |
| `activity_facts.dfy` | `ActivityFacts` | what the activity report promises about rankings, medians and counts |
| `string_order.dfy` | `StringOrder` | Python's string order, and `sorted()` of a set of strings |
| `requirements.dfy` | `Requirements` | the `REQ_LINE` regex, `_parse_requirements`, `_parse_pyproject` with Poetry conversion |
| `versions.dfy` | `Versions` | `_is_prerelease`, the loose `_semver_key`, `is_outdated`, `_latest_pypi_version`'s choice |
| `dependencies.dfy` | `Dependencies` | `analyze_dependencies`: merge by name, packages in name order, summary |
| `maintenance.dfy` | `Maintenance` | the maintenance score of the `analyze` command |
| `csv_export.dfy` | `CsvExport` | `export_csv` |

The code is modelled in its own form:

- **Loops become methods.** The commit loop, the gap loop, the merge and
  package loops, the requirement and pyproject loops, the `_semver_key`
  padding loop, and the header and row loops of `export_csv` are all `method`s
  with `while` loops.
- **Methods are proved against specification functions.** Each method's
  `ensures` ties its result to a function. The lemmas then prove what the
  program promises about those functions.
- **Pure code becomes functions.** The regex, the score and the version
  comparison are functions.

**Stand-ins for what the model cannot see.**

- The clock is a parameter `now`, in seconds.
- The commit stream that PyDriller yields is a sequence of `Commit` values.
- A file's contents are an `Option`, where `None` means the file is missing.
  - `requirements.txt` is its list of lines, as `splitlines` gives them.
  - `pyproject.toml` is the already parsed `Pyproject` value: the PEP 621
    dependency list and the Poetry dependency table.
- The PyPI and OSV requests are function parameters:
  - `pypi(name)` is `_latest_pypi_version` with its exceptions caught, so it
    gives `None` on failure.
  - `osv(name, version)` is `_osv_query` past its guard, and gives `[]` on
    failure.

**Two behaviours of the code worth knowing; the model follows the code.**

- **Author identity.** `src/repo_miner/activity.py:37` tries the email before
  the name, and strips only the value it picked. An email that is non-empty
  but made only of whitespace is therefore picked, strips to nothing, and
  becomes `"unknown"`, even when the name is usable. See
  `Activity.IdentityResolution`.
- **Median gap.** The docstring of `analyze_activity`
  (`src/repo_miner/activity.py:13-23`) asks for the median gap ("mediana").
  For an even number of gaps the usual median is the mean of the two middle
  values. The code takes `sorted(gaps)[len(gaps) // 2]` instead, which is the
  upper of the two middle values. See `Activity.MedianGap` and
  `ActivityFacts.ThreeCommitsMedian`, where the gaps 2 and 3 give 3, not 2.5.

## Model

| member | source | states |
|---|---|---|
| Activity.WholeDaysFloor | src/repo_miner/activity.py:53 | `timedelta.days` rounds down, for negative spans too: the span lies in `[d, d+1)` days |
| Activity.WholeDaysMonotone | src/repo_miner/activity.py:59 | a longer span never counts fewer whole days |
| Activity.Identity | src/repo_miner/activity.py:37 | the identity is never empty |
| Activity.IdentityResolution | src/repo_miner/activity.py:37 | four cases: a non-empty email is stripped and used, or gives "unknown" if it is blank; otherwise the stripped name is used, or "unknown" |
| Activity.Events | src/repo_miner/activity.py:32-37 | one event per commit, in stream order, holding its identity and time |
| Activity.CountOf | src/repo_miner/activity.py:38 | an author's count never exceeds the number of commits |
| Activity.Identities | src/repo_miner/activity.py:28-38 | the authors' key order: no duplicates, and an author appears exactly when it has a commit |
| Activity.Times | src/repo_miner/activity.py:36 | `commit_dates` holds each commit's time, in stream order |
| Activity.MergeCount | src/repo_miner/activity.py:43-46 | a commit adds at most one merge |
| Activity.IsMerge | src/repo_miner/activity.py:43-46 | a commit is a merge when its merge flag is set, when it has more than one parent, or else when its lowercased message contains `merge`; `Activity.MergeWordIsMerge` is the property |
| Activity.MergeWordIsMerge | src/repo_miner/activity.py:45-46 | a message that contains "merge" in any mix of cases (`Merge branch`) makes the commit a merge, whatever its flags |
| Activity.Gaps | src/repo_miner/activity.py:57-59 | one gap fewer than timestamps, none for no timestamps |
| Activity.SortedGapsNonNegative | src/repo_miner/activity.py:48-60 | between sorted timestamps no gap is negative, and neither is the median |
| Activity.MedianGap | src/repo_miner/activity.py:60 | 0 without gaps; otherwise one of the gaps, non-negative when all gaps are |
| Activity.CountOfPositive | src/repo_miner/activity.py:38 | an author has a positive count exactly when it occurs in the window |
| Activity.IdentitiesAreIdentitySet | src/repo_miner/activity.py:50 | `authors_total` is the number of distinct identities |
| Activity.LastOfIsUpperBound | src/repo_miner/activity.py:40-42 | an author's recorded last commit is no earlier than any of that author's commits |
| Activity.LastOfIsAttained | src/repo_miner/activity.py:40-42 | an author's recorded last commit is the time of one of that author's commits |
| Activity.MaxTimeIsUpperBound | src/repo_miner/activity.py:48-53 | the latest time bounds every commit time |
| Activity.MaxTimeIsAttained | src/repo_miner/activity.py:48-53 | the latest time is some commit's time |
| Activity.SortedTimesEndAtMax | src/repo_miner/activity.py:48-53 | after sorting, the last timestamp is the latest commit |
| Activity.CountsSumToTotal | src/repo_miner/activity.py:38-49 | the per-author counts add up to `commits_total` |
| Activity.LastOf | src/repo_miner/activity.py:40-42 | the `author_last_commit` entry of an author with commits: the time of one of its commits, kept when no later one comes; its properties are `Activity.LastOfIsUpperBound` and `Activity.LastOfIsAttained` |
| Activity.MaxTime | src/repo_miner/activity.py:48-53 | the latest commit time of a non-empty stream, which `commit_dates[-1]` reads after the sort; its properties are `Activity.MaxTimeIsUpperBound`, `Activity.MaxTimeIsAttained` and `Activity.SortedTimesEndAtMax` |
| Activity.Tally | src/repo_miner/activity.py:32-46 | the commit loop builds the dates in order, each author's count and latest time, the key order, and the merge count |
| Activity.LatestCommitDays | src/repo_miner/activity.py:48-55 | days since the last sorted date equals days since the latest commit, or 999999 without commits |
| Activity.DayGaps | src/repo_miner/activity.py:57-59 | the gap loop computes the whole-day gaps between neighbours |
| Activity.TalliedItems | src/repo_miner/activity.py:62-67 | the loop's dicts list every identity, with the specified counts and latest times |
| Activity.TalliedAuthors | src/repo_miner/activity.py:50 | `len(author_counts)` is the number of distinct identities |
| Activity.TalliedRecent | src/repo_miner/activity.py:67-75 | the `recent_authors` rows built from the loop's dicts are the specified ones |
| Activity.AnalyzeActivity | src/repo_miner/activity.py:24-85 | each report field is the specified function of the commit stream, with sentinels 999999 and 0 when there are no commits |
| ActivityFacts.EntriesLength | src/repo_miner/activity.py:62-67 | both dicts hold one item per identity |
| ActivityFacts.CountEntryMember | src/repo_miner/activity.py:38 | an item of `author_counts` is an author of the window with its true count |
| ActivityFacts.CountEntryOf | src/repo_miner/activity.py:38 | every author of the window has its count item |
| ActivityFacts.LastEntryMember | src/repo_miner/activity.py:40-42 | an item of `author_last_commit` is an author with its latest commit time |
| ActivityFacts.LastEntryOf | src/repo_miner/activity.py:40-42 | every author of the window has its latest-time item |
| ActivityFacts.RankedEntryIsInput | src/repo_miner/activity.py:64 | every ranked entry comes from the ranked input |
| ActivityFacts.TopAuthorsAreCounts | src/repo_miner/activity.py:62-65 | `top_authors` has min(5, authors) rows, each an author with its true count |
| ActivityFacts.TopAuthorsDescending | src/repo_miner/activity.py:64 | `top_authors` is ordered by count, largest first |
| ActivityFacts.TopAuthorsOmitted | src/repo_miner/activity.py:64 | an author left out means five rows, and that author has no more commits than the fifth |
| ActivityFacts.TopAuthorsTies | src/repo_miner/activity.py:64 | equal counts keep first-appearance order, because the sort is stable |
| ActivityFacts.RecentAuthorsAreLatest | src/repo_miner/activity.py:67-75 | `recent_authors` has min(5, authors) rows, each with the days since that author's latest commit and the author's count |
| ActivityFacts.RecentAuthorsAscendingDays | src/repo_miner/activity.py:67 | the most recent author comes first, so the day counts never decrease |
| ActivityFacts.RecentAuthorsOmitted | src/repo_miner/activity.py:67 | an author left out means five rows, and that author's latest commit is no later than the fifth row's |
| ActivityFacts.OmittedFromRecent | src/repo_miner/activity.py:67 | an author absent from the rows has its entry outside the top five |
| ActivityFacts.LatestAuthorExists | src/repo_miner/activity.py:40-53 | some author's latest commit is the window's latest commit |
| ActivityFacts.RecentAuthorsStartAtLatest | src/repo_miner/activity.py:53-71 | the first recent author reports the same days as `days_since_last_commit` |
| ActivityFacts.RecentAuthorsTies | src/repo_miner/activity.py:67 | equal latest times keep first-appearance order |
| ActivityFacts.IdentitiesAtMostEvents | src/repo_miner/activity.py:49-50 | there are no more authors than commits |
| ActivityFacts.AuthorsBetweenOneAndCommits | src/repo_miner/activity.py:49-50 | `authors_total` is at most `commits_total`, and positive exactly when there are commits |
| ActivityFacts.MedianOfSortedGaps | src/repo_miner/activity.py:60 | on sorted gaps the median is the element at index n // 2 |
| ActivityFacts.IntervalMedianOfAscending | src/repo_miner/activity.py:57-60 | commits that arrive in time order need no sorting before the gaps are taken |
| ActivityFacts.ThreeCommitsMerges | tests/test_activity.py:38-52 | the three-commit window of the test has one merge |
| ActivityFacts.ThreeCommitsGaps | tests/test_activity.py:38-53 | the test's commits, one, three and six days in, leave gaps of 2 and 3 days |
| ActivityFacts.ThreeCommitsMedian | tests/test_activity.py:38-53 | its gaps are 2 and 3 days, and the median is 3 |
| ActivityFacts.ThreeCommitsAuthors | tests/test_activity.py:38-51 | four days after the last commit: 4 days since it, and one author |
| IntSort.SortAsc | src/repo_miner/activity.py:48 | the sort gives an ascending permutation |
| IntSort.AscendingPermutationUnique | src/repo_miner/activity.py:60 | there is only one ascending permutation, so `sorted` has a single answer |
| IntSort.AscendingPermutationLast | src/repo_miner/activity.py:53 | the last sorted element is an input element and bounds all inputs |
| IntSort.SortAscOfAscending | src/repo_miner/activity.py:48 | sorting an ascending list leaves it unchanged |
| Ranking.StableSortDesc | src/repo_miner/activity.py:64 | `sorted(reverse=True)` by key gives a descending permutation |
| Ranking.StableSortDescKeepsOrder | src/repo_miner/activity.py:64 | entries with equal keys keep their input order |
| Ranking.StableSortDescFirstIsMax | src/repo_miner/activity.py:64 | the first ranked entry has the largest key |
| Ranking.TakeLeavesOutLower | src/repo_miner/activity.py:64 | an entry left out of `[:n]` means n were kept, and the entry's key is at most the last kept key |
| Ranking.Take | src/repo_miner/activity.py:64 | `s[:n]` is the prefix of length min(n, len) |
| Text.TrimStartDropsLeadingSpace | src/repo_miner/deps.py:39 | `lstrip` removes exactly the leading whitespace |
| Text.TrimEndDropsTrailingSpace | src/repo_miner/deps.py:39 | `rstrip` removes exactly the trailing whitespace |
| Text.Strip | src/repo_miner/deps.py:39 | `strip` removes the leading and then the trailing whitespace; its properties are `Text.StripIsSubstring` and `Text.StripEmptyIffAllSpace` |
| Text.StripIsSubstring | src/repo_miner/deps.py:39 | a stripped string is a contiguous stretch of the input |
| Text.StripEmptyIffAllSpace | src/repo_miner/deps.py:39-40 | a stripped line is empty exactly when it is all whitespace; otherwise it starts and ends with non-whitespace |
| Text.Lower | src/repo_miner/deps.py:152 | `lower()` maps each capital ASCII letter to its small letter and keeps every other character, so the length is kept; its properties are `Text.LowerHasNoCapitals` and `Text.LowerWithoutCapitals` |
| Text.LowerHasNoCapitals | src/repo_miner/deps.py:152 | lowercasing keeps the length and leaves no capital letter behind |
| Text.LowerWithoutCapitals | src/repo_miner/deps.py:152 | lowercasing leaves a name without capitals unchanged |
| Text.RunEnd | src/repo_miner/deps.py:19 | a greedy character-class run stops at the first character outside the class |
| Text.LeadingSpaceRun | src/repo_miner/deps.py:19 | a leading `\s*` consumes exactly what `lstrip` removes |
| StringOrder.StrLessIrreflexive | src/repo_miner/deps.py:155 | no string sorts before itself |
| StringOrder.StrLessTransitive | src/repo_miner/deps.py:155 | the string order is transitive |
| StringOrder.StrLessTotal | src/repo_miner/deps.py:155 | any two different strings are ordered |
| StringOrder.LeastExists | src/repo_miner/exporters.py:23 | every non-empty set of strings has a least element |
| StringOrder.StrictlyAscendingUnique | src/repo_miner/exporters.py:23 | a set of strings has only one strictly ascending listing |
| StringOrder.SortedFromSet | src/repo_miner/deps.py:155 | `sorted` of a set: strictly ascending, with exactly the set's elements, each once |
| Requirements.Pin | src/repo_miner/deps.py:19 | a matched `==` pin yields a non-empty version of version characters |
| Requirements.MatchRequirement | src/repo_miner/deps.py:19 | a match yields a well-formed name, and a well-formed version when a pin is present |
| Requirements.MatchedNameIsLeadingRun | src/repo_miner/deps.py:19 | the name is the whole run of name characters after the leading whitespace |
| Requirements.SingleLineMatch | src/repo_miner/deps.py:19 | on a single line the regex matches exactly when the first non-space character is a name character |
| Requirements.SpacedPinRoundTrip | src/repo_miner/deps.py:19 | `name`, any whitespace, `==`, any whitespace, `version`, then any single-line tail that cannot extend the version, reads back as (name, version) |
| Requirements.PinnedRoundTrip | src/repo_miner/deps.py:19 | the unspaced case: `name==version` followed by any single-line tail that cannot extend the version reads back as (name, version) |
| Requirements.PinnedMatchShape | src/repo_miner/deps.py:19 | the converse: a match that carries a version comes from a stripped line that starts with the name, then whitespace, `==`, whitespace and the version, with no version character after it |
| Requirements.NoPinRoundTrip | src/repo_miner/deps.py:19 | a name followed by any single-line tail that does not continue the name and is not, after whitespace, `==` then whitespace then a version character, reads back as (name, no version); this covers `=1` and a bare `==` |
| Requirements.UnpinnedRoundTrip | src/repo_miner/deps.py:19 | the common case: a name followed by a single-line tail that starts with no name character, and whose first character after whitespace is not `=`, reads back as (name, no version) |
| Requirements.RequirementLine | src/repo_miner/deps.py:39-46 | a record comes only from a line that is neither blank nor a comment once stripped |
| Requirements.ParseRequirements | src/repo_miner/deps.py:34-47 | a missing file gives no records; otherwise the line loop yields the specified records |
| Requirements.RequirementsOfAppend | src/repo_miner/deps.py:38-46 | the records of two blocks of lines are the records of each, concatenated |
| Requirements.SkippedLine | src/repo_miner/deps.py:40-41 | a blank or comment line contributes nothing wherever it stands |
| Requirements.RequirementsFromLines | src/repo_miner/deps.py:38-47 | at most one record per line, and each record is read from some line |
| Requirements.ParsePyproject | src/repo_miner/deps.py:50-75 | a missing file gives no records; otherwise the PEP 621 strings and then the converted Poetry entries, each run through the regex |
| Requirements.PoetryRequirement | src/repo_miner/deps.py:61-67 | one Poetry entry: nothing for `python` in any case; `key==v` for a string starting with a digit, else `key` glued to the string; `key` glued to a table's `version`; nothing otherwise; its property is `Requirements.PoetryRequirementStartsWithKey` |
| Requirements.PoetryRequirementStartsWithKey | src/repo_miner/deps.py:64-67 | every requirement string a Poetry entry adds starts with the entry's key |
| Requirements.PoetryPinnedRoundTrip | src/repo_miner/deps.py:64-65 | a Poetry version starting with a digit becomes `key==version` and reads back pinned |
| Requirements.PoetryConstraintUnpinned | src/repo_miner/deps.py:64-65 | a Poetry constraint such as `>=1.0` is glued to the key and reads back unpinned |
| Requirements.PoetryPythonDropped | src/repo_miner/deps.py:62-63 | the `python` entry, in any case, is skipped |
| Requirements.PinnedLineRead | src/repo_miner/deps.py:39-46 | a `requirements.txt` line `name==version` yields (name, version) |
| Requirements.ExampleSkippedLines | tests/test_deps_parsing.py:7-22 | the blank line and the comment of the test file yield nothing |
| Requirements.ExamplePinnedLine | tests/test_deps_parsing.py:11-20 | `requests==2.31.0` yields requests at 2.31.0 |
| Requirements.ExampleTrailingComment | tests/test_deps_parsing.py:12-21 | `numpy==1.26.4  # trailing` yields numpy at 1.26.4 |
| Requirements.ExampleBareName | tests/test_deps_parsing.py:14-22 | `pandas` yields pandas without a version |
| Requirements.ExampleProseLine | tests/test_deps_parsing.py:13 | `invalid line here` is accepted as a package named `invalid` |
| Requirements.ExampleLowerBound | tests/test_deps_parsing.py:33 | `uvicorn>=0.20.0` yields uvicorn without a version |
| Requirements.ExampleSpacedPin | src/repo_miner/deps.py:19 | `foo == 1.0` yields foo at 1.0 |
| Requirements.ExampleBrokenPins | src/repo_miner/deps.py:19 | `foo=1` and `foo==` yield foo without a version |
| Requirements.ExamplePoetry | tests/test_deps_parsing.py:40-42 | the Poetry table of the test yields `requests==2.31.0`, with python dropped |
| Requirements.ExampleMatchAll | tests/test_deps_parsing.py:25-48 | the three dependency strings of the test match, in order, to flask 3.0.0, uvicorn and requests 2.31.0 |
| Requirements.ExamplePyproject | tests/test_deps_parsing.py:25-48 | the test's pyproject yields flask, uvicorn and requests |
| Versions.IsPrerelease | src/repo_miner/deps.py:97-99 | the lowercased version contains `a`, `b`, `rc` or `dev`; its properties are `Versions.WithoutLettersIsStable` and `Versions.ReleaseCandidateIsPrerelease` |
| Versions.WithoutLettersIsStable | src/repo_miner/deps.py:97-99 | a version without ASCII letters, such as `1.26.4`, is not a prerelease |
| Versions.ReleaseCandidateIsPrerelease | src/repo_miner/deps.py:97-99 | a version containing `rc`, in any case, is a prerelease |
| Versions.LooseKey | src/repo_miner/deps.py:107-111 | the key always has three numbers |
| Versions.DigitRuns | src/repo_miner/deps.py:107-108 | the integers of the maximal runs of decimal digits, in order, which is what the split and the `isdigit` filter keep; its properties are `Versions.DigitRunsEmpty` and `Versions.DottedRoundTrip` |
| Versions.DigitRunsEmpty | src/repo_miner/deps.py:107-108 | no number is kept exactly when the version has no digit |
| Versions.SemverFallbackKey | src/repo_miner/deps.py:107-111 | the padding loop yields the first three digit runs, padded with zeros |
| Versions.DecimalRoundTrip | src/repo_miner/deps.py:108 | `int()` of the decimal rendering of n is n |
| Versions.DottedRoundTrip | src/repo_miner/deps.py:107-111 | the key of `major.minor.patch` is `(major, minor, patch)` |
| Versions.TupleLessIrreflexive | src/repo_miner/deps.py:174 | no key is greater than itself |
| Versions.TupleLessAsymmetric | src/repo_miner/deps.py:174 | two keys are never each greater than the other |
| Versions.TupleLessTransitive | src/repo_miner/deps.py:174 | the tuple comparison is transitive |
| Versions.TupleLessTotal | src/repo_miner/deps.py:174 | any two different keys are ordered |
| Versions.OutdatedIsStrict | src/repo_miner/deps.py:171-176 | a version is never outdated against itself, and two versions are never outdated against each other |
| Versions.IsOutdated | src/repo_miner/deps.py:171-176 | outdated exactly when both versions are known and non-empty and the latest key is larger; its properties are `Versions.OutdatedIsStrict` and `Versions.OutdatedByNumber` |
| Versions.OutdatedByNumber | src/repo_miner/deps.py:174 | a newer minor version makes the current one outdated |
| Versions.StableReleases | src/repo_miner/deps.py:90 | the non-prerelease versions, exactly |
| Versions.Newest | src/repo_miner/deps.py:89-94 | the chosen release is one of the candidates |
| Versions.NewestIsFirstMaximum | src/repo_miner/deps.py:89-94 | the chosen release has the largest key, and is the first in input order with that key |
| Versions.LatestVersion | src/repo_miner/deps.py:85-94 | a non-empty `info.version` wins; otherwise a stable release or nothing, and nothing exactly when both are absent |
| Versions.LatestVersionIsNewest | src/repo_miner/deps.py:86-94 | when `info.version` is missing or empty, no stable release has a larger key than the chosen one |
| Dependencies.ByNameLastWins | src/repo_miner/deps.py:150-152 | a lowercased name is present exactly when some record has it, and it holds the last such record |
| Dependencies.ByNameKeys | src/repo_miner/deps.py:152 | every record is filed under its own lowercased name |
| Dependencies.ByName | src/repo_miner/deps.py:150-152 | the merge never holds more entries than there are records |
| Dependencies.PyprojectWins | src/repo_miner/deps.py:149-152 | a name declared in `pyproject.toml` is taken from there, whatever `requirements.txt` says |
| Dependencies.PackageFor | src/repo_miner/deps.py:156-177 | keeps name and version; offline, no latest version, not outdated and no vulnerabilities; outdated only when both versions are known; no version means no vulnerabilities |
| Dependencies.Vulnerabilities | src/repo_miner/deps.py:115-116 | no version, or an empty one, means no query and no vulnerabilities; otherwise the OSV answer; `Dependencies.PackageFor` states the property |
| Dependencies.CountOutdated | src/repo_miner/deps.py:181 | the outdated count never exceeds the package count |
| Dependencies.CountVulnerable | src/repo_miner/deps.py:182 | the vulnerable count never exceeds the package count |
| Dependencies.CountsOfUnresolved | src/repo_miner/deps.py:158-160 | unresolved packages count as neither outdated nor vulnerable |
| Dependencies.BuildPackages | src/repo_miner/deps.py:155-177 | the package loop builds one package per key, in key order, from the record under that key |
| Dependencies.AnalyzeDependencies | src/repo_miner/deps.py:139-188 | one package per lowercased name, in ascending name order, each built from the last record with that name; the summary counts those packages |
| Dependencies.SortedPackages | src/repo_miner/deps.py:155 | packages built in key order carry their keys in that order, one per key |
| Dependencies.NoDuplicateNames | src/repo_miner/deps.py:150-155 | no name is reported twice, even spelled with different capitals |
| Dependencies.OfflineSummary | src/repo_miner/deps.py:158-160 | offline, no package has a latest version, and the outdated and vulnerable totals are 0 |
| Dependencies.SingleLineRecords | src/repo_miner/deps.py:146-152 | a `requirements.txt` of one line that matches merges to exactly that record, under its lowercased name |
| Dependencies.SinglePinnedPackage | src/repo_miner/deps.py:146-152 | a one-line `name==version` file merges to exactly that pinned record |
| Dependencies.OnePinnedPackage | tests/test_deps_network.py:31-35 | `a_pkg==1.0.0` alone merges to the single record `a_pkg` at 1.0.0, so the report holds one package |
| Maintenance.CommitBonus | src/repo_miner/cli.py:77 | at most 30, non-negative for a non-negative count, and 30 exactly from 300 commits |
| Maintenance.RecencyBonus | src/repo_miner/cli.py:78 | never negative, at most 20 for a non-negative day count, and 0 exactly from 20 days |
| Maintenance.OutdatedPenalty | src/repo_miner/cli.py:79 | between 0 and 30; 0 exactly without outdated packages, and 30 exactly from six |
| Maintenance.Score | src/repo_miner/cli.py:76-80 | the score lies in 0..100 |
| Maintenance.CountTrue | src/repo_miner/cli.py:74 | the outdated count never exceeds the package count |
| Maintenance.ScoreOf | src/repo_miner/cli.py:72-80 | the score with the 0 and 9999 defaults lies in 0..100 |
| Maintenance.OutdatedFlagsCount | src/repo_miner/cli.py:74 | the flags count exactly the dependency report's outdated packages |
| Maintenance.AnalyzeScore | src/repo_miner/cli.py:68-80 | the `analyze` score of the two reports lies in 0..100 |
| Maintenance.AnalyzeScoreOfSummary | src/repo_miner/cli.py:72-80 | with both reports present the defaults never apply, and the penalty follows `outdated_total` |
| Maintenance.ClampInactive | src/repo_miner/cli.py:76-80 | for non-negative inputs the clamp never takes effect, and the score is at least 20 |
| Maintenance.ScoreMonotone | src/repo_miner/cli.py:76-80 | more commits, a more recent commit or fewer outdated packages never lower the score |
| Maintenance.PerfectScore | src/repo_miner/cli.py:76-80 | 100 exactly for at least 300 commits, a commit today and nothing outdated |
| Maintenance.SentinelsEarnNoRecency | src/repo_miner/cli.py:73-78 | the 999999 and 9999 day counts earn no recency points |
| Maintenance.EmptyReportsScore | src/repo_miner/cli.py:72-80 | without any figures the score is 50 |
| Maintenance.ExampleScore | tests/test_cli.py:48-61 | 100 commits, 2 days, one of two packages outdated: 73 |
| CsvExport.KeysOfMembers | src/repo_miner/exporters.py:20-22 | a column exists exactly when some row has that key |
| CsvExport.KeysOf | src/repo_miner/exporters.py:20-22 | the union of the rows' keys; `CsvExport.KeysOfMembers` states the property |
| CsvExport.Record | src/repo_miner/exporters.py:25-28 | a record has one cell per column |
| CsvExport.ExportCsv | src/repo_miner/exporters.py:13-28 | no rows give an empty file; otherwise a strictly ascending header of exactly the rows' keys, then one record per row, so 1 + rows lines |
| CsvExport.NoValueLost | src/repo_miner/exporters.py:25-28 | every value of a row appears in its record, under its key's column |
| CsvExport.MissingKeyBlank | src/repo_miner/exporters.py:25-28 | a column the row has no key for is left blank |
| CsvExport.ExampleTwoRows | tests/test_exporters.py:16-21 | rows `{name, val}` and `{name, extra}` give the header `extra, name, val` and three lines |

## Left out

- Reading files and directories, creating the output directory, `splitlines` and UTF-8 decoding are not modelled. A file is its lines, or its parsed value, or `None` when missing.
- TOML parsing is not modelled. `pyproject.toml` is its PEP 621 dependency strings and its Poetry table. A missing `project.dependencies`, or one that is not a list, is `projectDependencies == None` and contributes nothing. Non-string entries inside that list are not represented.
- PyDriller and the repository traversal are not modelled. The window filter (`since`, `to`) is assumed applied: the model takes the commits it yields. Timezones are not modelled either; times are UTC seconds.
- The HTTP requests, status codes, JSON decoding and timeouts of `_latest_pypi_version` and `_osv_query` are not modelled. They are the parameters `pypi` and `osv`. `Versions.LatestVersion` models the version choice made from the JSON.
- The fields of an OSV vulnerability record (`id`, `summary`, `severity`, `aliases`, `references`) are not modelled. A vulnerability is an opaque value `V`.
- `semver.Version.parse` is not modelled. Every version is compared by the loose key of `_semver_key`'s fallback. This agrees with semver on plain `major.minor.patch` versions, but not on prerelease or build suffixes. The fallback `latest != cur` is not modelled either.
- `Requirements.ParsePyproject` treats Poetry's `^\d` test as an ASCII digit test. Python's `\d` also accepts other Unicode decimal digits.
- `Text.Lower` lowercases ASCII letters only; Python's `lower` also maps other letters. The model uses it on the package names merged by name, on Poetry keys compared with `"python"`, on commit messages searched for `"merge"`, and on versions searched for `a`, `b`, `rc` and `dev`. The names are made of ASCII name characters, so their lowercasing is exact. For the three tests, a non-ASCII character that Python lowercases to a non-ASCII character cannot create or destroy an ASCII match, and the only characters Python lowercases into ASCII are U+0130 (to `i` plus a combining dot) and U+212A, the Kelvin sign (to `k`). Neither `i` nor `k` occurs in `merge`, `python`, `a`, `b`, `rc` or `dev`, so every use in the model gives the same answer as Python's `lower`.
- CSV quoting, escaping and line endings are not modelled, nor `str()` of non-string values. A CSV file is its header and its records.
- `export_json` and the commands' console output are not modelled.
- The command-line parsing of `cli.py` is not modelled.

## Findings

There is no confirmed defect. Two accepted behaviours are worth knowing:

- `REQ_LINE` accepts any line that starts with a name character. The prose line `invalid line here` of the parsing test is therefore read as a package named `invalid` (`Requirements.ExampleProseLine`).
- `uvicorn>=0.20.0` is read without a version (`Requirements.ExampleLowerBound`). Only `==` pins carry a version into the report.
