/**
 * The dependency report: records from `requirements.txt` and
 * `pyproject.toml` merged by lowercased name (the later record wins, so
 * `pyproject.toml` beats `requirements.txt`), one package per name in name
 * order, each either left unresolved (offline) or completed from PyPI and
 * OSV, and a summary of counts.
 *
 * PyPI and OSV are not modelled: `pypi(name)` stands for the newest-version
 * lookup, `None` when it fails, and `osv(name, version)` for the
 * vulnerability query, `[]` when it fails.
 */
module Dependencies {
  import opened Wrappers
  import opened Text
  import opened StringOrder
  import opened Requirements
  import opened Versions

  /** `PackageInfo`. `V` is whatever the vulnerability service reports for one vulnerability. */
  datatype Package<V> = Package(
    name: string,
    currentVersion: Option<string>,
    latestVersion: Option<string>,
    isOutdated: bool,
    vulnerabilities: seq<V>)

  datatype Summary = Summary(packagesTotal: nat, outdatedTotal: nat, vulnerableTotal: nat)

  datatype DependencyReport<V> = DependencyReport(summary: Summary, packages: seq<Package<V>>)

  /** The key a record is merged under: its lowercased name. */
  function Key(r: Requirement): string {
    Lower(r.name)
  }

  /** The `by_name` dictionary after `for p in reqs + pyproj: by_name[key] = p`. */
  function ByName(records: seq<Requirement>): (byName: map<string, Requirement>)
    ensures |byName| <= |records|
  {
    if records == [] then map[]
    else
      var last := records[|records| - 1];
      ByName(records[..|records| - 1])[Key(last) := last]
  }

  /**
   * Last record wins: a key is present exactly when some record has it, and
   * it holds the last record with that key.
   */
  lemma {:induction false} ByNameLastWins(records: seq<Requirement>, k: string)
    ensures k in ByName(records) <==> exists i | 0 <= i < |records| :: Key(records[i]) == k
    ensures k in ByName(records) ==> exists i | 0 <= i < |records| ::
      ByName(records)[k] == records[i] && Key(records[i]) == k
      && forall j | i < j < |records| :: Key(records[j]) != k
    decreases |records|
  {
    if records != [] {
      var n := |records| - 1;
      var init := records[..n];
      ByNameLastWins(init, k);
      if Key(records[n]) == k {
        assert ByName(records)[k] == records[n];
      } else if k in ByName(init) {
        var i :| 0 <= i < n && ByName(init)[k] == init[i] && Key(init[i]) == k
          && forall j | i < j < n :: Key(init[j]) != k;
        assert records[i] == init[i];
        forall j | i < j < |records| ensures Key(records[j]) != k {
          if j < n {
            assert records[j] == init[j];
          }
        }
      } else {
        forall i | 0 <= i < |records| ensures Key(records[i]) != k {
          if i < n {
            assert records[i] == init[i];
          }
        }
      }
    }
  }

  /** Every record is filed under its own key. */
  lemma {:induction false} ByNameKeys(records: seq<Requirement>, k: string)
    requires k in ByName(records)
    ensures Key(ByName(records)[k]) == k
    decreases |records|
  {
    var n := |records| - 1;
    if Key(records[n]) != k {
      ByNameKeys(records[..n], k);
    }
  }

  /**
   * `pyproject.toml` takes precedence: a name it declares is taken from its
   * last declaration there, whatever `requirements.txt` says.
   */
  lemma PyprojectWins(reqs: seq<Requirement>, pyproj: seq<Requirement>, i: int)
    requires 0 <= i < |pyproj|
    ensures Key(pyproj[i]) in ByName(reqs + pyproj)
    ensures ByName(reqs + pyproj)[Key(pyproj[i])] in pyproj
  {
    var all := reqs + pyproj;
    var k := Key(pyproj[i]);
    assert all[|reqs| + i] == pyproj[i];
    ByNameLastWins(all, k);
    var j :| 0 <= j < |all| && ByName(all)[k] == all[j] && Key(all[j]) == k
      && forall j' | j < j' < |all| :: Key(all[j']) != k;
    assert j >= |reqs| + i;
    assert all[j] == pyproj[j - |reqs|];
  }

  /** `_osv_query` before it reaches the network: no version, no query. */
  function Vulnerabilities<V>(name: string, current: Option<string>, osv: (string, string) -> seq<V>): seq<V> {
    if current.None? || current.value == [] then [] else osv(name, current.value)
  }

  /** The package one merged record becomes. */
  function PackageFor<V>(meta: Requirement, offline: bool, pypi: string -> Option<string>, osv: (string, string) -> seq<V>): (p: Package<V>)
    ensures p.name == meta.name && p.currentVersion == meta.version
    ensures offline ==> p.latestVersion.None? && !p.isOutdated && p.vulnerabilities == []
    ensures p.isOutdated ==> p.currentVersion.Some? && p.latestVersion.Some?
    ensures meta.version.None? ==> p.vulnerabilities == [] && !p.isOutdated
  {
    if offline then Package(meta.name, meta.version, None, false, [])
    else
      var latest := pypi(meta.name);
      Package(meta.name, meta.version, latest, IsOutdated(meta.version, latest), Vulnerabilities(meta.name, meta.version, osv))
  }

  /** `sum(1 for p in packages if p.is_outdated)`. */
  function CountOutdated<V>(packages: seq<Package<V>>): (n: nat)
    ensures n <= |packages|
  {
    if packages == [] then 0
    else CountOutdated(packages[..|packages| - 1]) + (if packages[|packages| - 1].isOutdated then 1 else 0)
  }

  /** `sum(1 for p in packages if p.vulnerabilities)`. */
  function CountVulnerable<V>(packages: seq<Package<V>>): (n: nat)
    ensures n <= |packages|
  {
    if packages == [] then 0
    else CountVulnerable(packages[..|packages| - 1]) + (if packages[|packages| - 1].vulnerabilities != [] then 1 else 0)
  }

  /** Counting what no package has gives zero. */
  lemma {:induction false} CountsOfUnresolved<V>(packages: seq<Package<V>>)
    requires forall i | 0 <= i < |packages| :: !packages[i].isOutdated && packages[i].vulnerabilities == []
    ensures CountOutdated(packages) == 0 && CountVulnerable(packages) == 0
    decreases |packages|
  {
    if packages != [] {
      CountsOfUnresolved(packages[..|packages| - 1]);
    }
  }

  /**
   * The packages of a report against the merged records: one per name, in
   * ascending name order, each built from the record filed under its name.
   */
  ghost predicate OnePackagePerName<V>(ps: seq<Package<V>>, byName: map<string, Requirement>,
                                 offline: bool, pypi: string -> Option<string>, osv: (string, string) -> seq<V>) {
    |ps| == |byName|
    && (forall i, j | 0 <= i < j < |ps| :: StrLess(Lower(ps[i].name), Lower(ps[j].name)))
    && (forall i | 0 <= i < |ps| ::
          Lower(ps[i].name) in byName && ps[i] == PackageFor(byName[Lower(ps[i].name)], offline, pypi, osv))
    && (forall k | k in byName :: exists i | 0 <= i < |ps| :: Lower(ps[i].name) == k)
  }

  /**
   * The package loop over `sorted(by_name.items())`: the record filed under
   * each key, in key order, becomes a package, unresolved when offline.
   */
  method BuildPackages<V>(keys: seq<string>, byName: map<string, Requirement>,
                          offline: bool, pypi: string -> Option<string>, osv: (string, string) -> seq<V>)
    returns (packages: seq<Package<V>>)
    requires forall j | 0 <= j < |keys| :: keys[j] in byName
    ensures |packages| == |keys|
    ensures forall j | 0 <= j < |keys| :: packages[j] == PackageFor(byName[keys[j]], offline, pypi, osv)
  {
    packages := [];
    var k := 0;
    while k < |keys|
      invariant 0 <= k <= |keys|
      invariant |packages| == k
      invariant forall j | 0 <= j < k :: packages[j] == PackageFor(byName[keys[j]], offline, pypi, osv)
    {
      var meta := byName[keys[k]];
      var name := meta.name;
      var cur := meta.version;
      if offline {
        packages := packages + [Package(name, cur, None, false, [])];
        k := k + 1;
        continue;
      }
      var latest := pypi(name);
      var vulns := Vulnerabilities(name, cur, osv);
      var isOutdated := false;
      if cur.Some? && cur.value != [] && latest.Some? && latest.value != [] {
        var latestKey := SemverFallbackKey(latest.value);
        var currentKey := SemverFallbackKey(cur.value);
        isOutdated := TupleLess(currentKey, latestKey);
      }
      packages := packages + [Package(name, cur, latest, isOutdated, vulns)];
      k := k + 1;
    }
  }

  /** Every record both files yield, `requirements.txt` first. */
  function Records(requirementsFile: Option<seq<string>>, pyprojectFile: Option<Pyproject>): seq<Requirement> {
    (if requirementsFile.Some? then RequirementsOf(requirementsFile.value) else [])
    + (if pyprojectFile.Some? then MatchAll(DependencyStrings(pyprojectFile.value)) else [])
  }

  /** `analyze_dependencies` on the two files' contents (`None` for a missing file). */
  method AnalyzeDependencies<V>(
    requirementsFile: Option<seq<string>>,
    pyprojectFile: Option<Pyproject>,
    offline: bool,
    pypi: string -> Option<string>,
    osv: (string, string) -> seq<V>)
    returns (report: DependencyReport<V>)
    ensures OnePackagePerName(report.packages, ByName(Records(requirementsFile, pyprojectFile)), offline, pypi, osv)
    ensures report.summary == Summary(|report.packages|, CountOutdated(report.packages), CountVulnerable(report.packages))
  {
    var reqs := ParseRequirements(requirementsFile);
    var pyproj := ParsePyproject(pyprojectFile);
    var all := reqs + pyproj;
    assert all == Records(requirementsFile, pyprojectFile);
    var byName: map<string, Requirement> := map[];
    var i := 0;
    while i < |all|
      invariant 0 <= i <= |all|
      invariant byName == ByName(all[..i])
    {
      assert all[..i + 1][..i] == all[..i];
      byName := byName[Lower(all[i].name) := all[i]];
      i := i + 1;
    }
    assert all[..i] == all;
    var keys := SortedFromSet(byName.Keys);
    var packages := BuildPackages(keys, byName, offline, pypi, osv);
    SortedPackages(all, keys, packages, offline, pypi, osv);
    report := DependencyReport(Summary(|packages|, CountOutdated(packages), CountVulnerable(packages)), packages);
  }

  /** The packages built in key order carry their keys in that order, one per key. */
  lemma SortedPackages<V>(all: seq<Requirement>, keys: seq<string>, ps: seq<Package<V>>,
                          offline: bool, pypi: string -> Option<string>, osv: (string, string) -> seq<V>)
    requires StrictlyAscending(keys) && |keys| == |ByName(all)|
    requires forall x :: x in keys <==> x in ByName(all).Keys
    requires |ps| == |keys|
    requires forall j | 0 <= j < |keys| :: ps[j] == PackageFor(ByName(all)[keys[j]], offline, pypi, osv)
    ensures OnePackagePerName(ps, ByName(all), offline, pypi, osv)
  {
    var byName := ByName(all);
    forall i | 0 <= i < |ps| ensures Lower(ps[i].name) == keys[i] {
      assert keys[i] in byName;
      ByNameKeys(all, keys[i]);
    }
    forall k | k in byName ensures exists i | 0 <= i < |ps| :: Lower(ps[i].name) == k {
      assert k in keys;
      var i :| 0 <= i < |keys| && keys[i] == k;
      assert Lower(ps[i].name) == k;
    }
  }

  /** No name is reported twice, even spelled with different capitals. */
  lemma NoDuplicateNames<V>(ps: seq<Package<V>>, byName: map<string, Requirement>,
                            offline: bool, pypi: string -> Option<string>, osv: (string, string) -> seq<V>)
    requires OnePackagePerName(ps, byName, offline, pypi, osv)
    ensures forall i, j | 0 <= i < |ps| && 0 <= j < |ps| && i != j :: Lower(ps[i].name) != Lower(ps[j].name)
  {
    forall i, j | 0 <= i < |ps| && 0 <= j < |ps| && i != j ensures Lower(ps[i].name) != Lower(ps[j].name) {
      if i < j {
        StrLessIrreflexive(Lower(ps[i].name));
      } else {
        StrLessIrreflexive(Lower(ps[j].name));
      }
    }
  }

  /** Offline, no package has a newest version, none is outdated, none is vulnerable. */
  lemma OfflineSummary<V>(report: DependencyReport<V>, byName: map<string, Requirement>, pypi: string -> Option<string>, osv: (string, string) -> seq<V>)
    requires forall i | 0 <= i < |report.packages| ::
      Lower(report.packages[i].name) in byName
      && report.packages[i] == PackageFor(byName[Lower(report.packages[i].name)], true, pypi, osv)
    requires report.summary == Summary(|report.packages|, CountOutdated(report.packages), CountVulnerable(report.packages))
    ensures forall i | 0 <= i < |report.packages| :: report.packages[i].latestVersion.None?
    ensures report.summary.outdatedTotal == 0 && report.summary.vulnerableTotal == 0
  {
    CountsOfUnresolved(report.packages);
  }

  /** A `requirements.txt` of one line that names a package, and no `pyproject.toml`: one entry. */
  lemma SingleLineRecords(line: string, r: Requirement)
    requires RequirementLine(line) == Some(r)
    ensures ByName(Records(Some([line]), None)) == map[Key(r) := r]
  {
    assert [line][..0] == [];
    assert RequirementsOf([line]) == [r];
    assert Records(Some([line]), None) == [r] + [];
    assert [r][..0] == [];
  }

  /** A `requirements.txt` of a single pinned line, and no `pyproject.toml`, yields that one package under its lowercased name. */
  lemma SinglePinnedPackage(name: string, version: string)
    requires ValidName(name) && ValidVersion(version)
    ensures ByName(Records(Some([PinnedLine(name, version)]), None)) == map[Lower(name) := Requirement(name, Some(version))]
  {
    PinnedLineRead(name, version);
    SingleLineRecords(PinnedLine(name, version), Requirement(name, Some(version)));
  }

  /** `a_pkg==1.0.0` alone: one package, `a_pkg`, at version `1.0.0`. */
  lemma OnePinnedPackage()
    ensures ByName(Records(Some([PinnedLine("a_pkg", "1.0.0")]), None)) == map["a_pkg" := Requirement("a_pkg", Some("1.0.0"))]
  {
    assert Lower("a_pkg") == "a_pkg" by {
      LowerWithoutCapitals("a_pkg");
    }
    assert ByName(Records(Some([PinnedLine("a_pkg", "1.0.0")]), None)) == map[Lower("a_pkg") := Requirement("a_pkg", Some("1.0.0"))] by {
      assert ValidName("a_pkg");
      assert ValidVersion("1.0.0");
      SinglePinnedPackage("a_pkg", "1.0.0");
    }
  }

}
