/** The system-app list of backend/proxy_server/system_app_handler.go: three passes that update the
    package list in place, and the table they amount to. */
module Catalogue {
  import opened Options
  import opened Sequences
  import opened Charts

  datatype PackageInfo = PackageInfo(
    chartName: string,
    description: string,
    packageVersion: PackageVersion,
    versions: seq<PackageVersion>,
    status: string,
    fullySupported: bool)

  datatype Release = Release(chartName: string, description: string, version: string, appVersion: string, status: string)

  const NoVersion := PackageVersion("", "")

  // ---------- The three passes as folds over what they read ----------

  // The position of the first package of that chart, or the length of the list.
  function Find(packages: seq<PackageInfo>, chart: string): (i: nat)
    ensures i <= |packages|
    ensures i < |packages| ==> packages[i].chartName == chart
    ensures forall j | 0 <= j < i :: packages[j].chartName != chart
  {
    if packages == [] || packages[0].chartName == chart then 0 else 1 + Find(packages[1..], chart)
  }

  function FakeInfo(name: string): PackageInfo { PackageInfo(name, "", NoVersion, [], "fakeinfo", true) }

  function FakeStep(packages: seq<PackageInfo>, name: string): seq<PackageInfo> {
    var i := Find(packages, name);
    if i < |packages| then packages[i := packages[i].(fullySupported := true)] else packages + [FakeInfo(name)]
  }

  // A search result offered to the row of its chart.
  function Offer(one: PackageInfo, e: Found): PackageInfo {
    var described := if one.status == "fakeinfo"
      then one.(description := e.description, packageVersion := VersionOf(e), status := "undeployed") else one;
    described.(versions := one.versions + [VersionOf(e)])
  }

  function RepoStep(supported: seq<string>, packages: seq<PackageInfo>, e: Found): seq<PackageInfo> {
    var i := Find(packages, e.chartName);
    if e.chartName !in supported then packages
    else if i < |packages| then packages[i := Offer(packages[i], e)]
    else packages + [PackageInfo(e.chartName, e.description, VersionOf(e), [VersionOf(e)], "undeployed", true)]
  }

  // A row overwritten by an installed release of its chart.
  function Installed(one: PackageInfo, r: Release): PackageInfo {
    one.(description := r.description, packageVersion := PackageVersion(r.version, r.appVersion), status := r.status)
  }

  function InstalledStep(packages: seq<PackageInfo>, r: Release): seq<PackageInfo> {
    var i := Find(packages, r.chartName);
    if i < |packages| then packages[i := Installed(packages[i], r)]
    else packages + [Installed(PackageInfo(r.chartName, "", NoVersion, [], "", false), r)]
  }

  function FakePass(packages: seq<PackageInfo>, supported: seq<string>): seq<PackageInfo> {
    if supported == [] then packages
    else FakeStep(FakePass(packages, supported[..|supported| - 1]), supported[|supported| - 1])
  }

  function RepoPass(supported: seq<string>, packages: seq<PackageInfo>, found: seq<Found>): seq<PackageInfo>
    decreases |found|
  {
    if found == [] then packages
    else RepoStep(supported, RepoPass(supported, packages, found[..|found| - 1]), found[|found| - 1])
  }

  function InstalledPass(packages: seq<PackageInfo>, releases: seq<Release>): seq<PackageInfo>
    decreases |releases|
  {
    if releases == [] then packages
    else InstalledStep(InstalledPass(packages, releases[..|releases| - 1]), releases[|releases| - 1])
  }

  // ---------- The passes as the program runs them ----------

  class Packages {
    var packages: seq<PackageInfo>

    constructor ()
      ensures packages == []
    {
      packages := [];
    }

    method FetchFakePackageInfo(supported: seq<string>)
      modifies this
      ensures packages == FakePass(old(packages), supported)
    {
      for k := 0 to |supported|
        invariant packages == FakePass(old(packages), supported[..k])
      {
        assert supported[..k + 1][..k] == supported[..k];
        var name, find := supported[k], false;
        ghost var p := packages;
        for i := 0 to |packages|
          invariant !find && packages == p
          invariant forall j | 0 <= j < i :: packages[j].chartName != name
        {
          if packages[i].chartName == name {
            packages := packages[i := packages[i].(fullySupported := true)];
            find := true;
            break;
          }
        }
        if !find { packages := packages + [FakeInfo(name)]; }
      }
      assert supported[..|supported|] == supported;
    }

    // `search` is the outcome of the repository search; None is a failed search.
    method FetchRepoPackagesInfo(supported: seq<string>, search: Option<seq<Found>>)
      modifies this
      ensures packages ==
              RepoPass(supported, FakePass(old(packages), supported), if search.Some? then search.value else [])
    {
      FetchFakePackageInfo(supported);
      if search.None? { return; }
      var found := search.value;
      ghost var start := packages;
      for k := 0 to |found|
        invariant packages == RepoPass(supported, start, found[..k])
      {
        assert found[..k + 1][..k] == found[..k];
        var e, find := found[k], found[k].chartName in supported;
        if !find { continue; }
        find := false;
        ghost var p := packages;
        for i := 0 to |packages|
          invariant !find && packages == p
          invariant forall j | 0 <= j < i :: packages[j].chartName != e.chartName
        {
          var one := packages[i];
          if one.chartName == e.chartName {
            if one.status == "fakeinfo" {
              one := one.(description := e.description, packageVersion := VersionOf(e), status := "undeployed");
            }
            one := one.(versions := one.versions + [VersionOf(e)]);
            packages := packages[i := one];
            find := true;
            break;
          }
        }
        if !find {
          packages := packages + [
            PackageInfo(e.chartName, e.description, VersionOf(e), [VersionOf(e)], "undeployed", true)];
        }
      }
      assert found[..|found|] == found;
    }

    // `list` is the outcome of listing the releases; None is a failed listing.
    method FetchInstalledPackagesInfo(list: Option<seq<Release>>) returns (ok: bool)
      modifies this
      ensures ok <==> list.Some?
      ensures packages == if ok then InstalledPass(old(packages), list.value) else old(packages)
    {
      if list.None? { return false; }
      var releases := list.value;
      for k := 0 to |releases|
        invariant packages == InstalledPass(old(packages), releases[..k])
      {
        assert releases[..k + 1][..k] == releases[..k];
        var r, find := releases[k], false;
        ghost var p := packages;
        for i := 0 to |packages|
          invariant !find && packages == p
          invariant forall j | 0 <= j < i :: packages[j].chartName != r.chartName
        {
          if packages[i].chartName == r.chartName {
            packages := packages[i := packages[i].(description := r.description,
              packageVersion := PackageVersion(r.version, r.appVersion), status := r.status)];
            find := true;
            break;
          }
        }
        if !find {
          packages := packages + [
            PackageInfo(r.chartName, r.description, PackageVersion(r.version, r.appVersion), [], r.status, false)];
        }
      }
      assert releases[..|releases|] == releases;
      return true;
    }

    // The list handler: the three passes on an empty list.
    method GetSystemAppList(supported: seq<string>, search: Option<seq<Found>>, list: Option<seq<Release>>)
      returns (ok: bool)
      requires packages == [] && Distinct(supported)
      modifies this
      ensures ok <==> list.Some?
      ensures ok ==> packages == Table(supported, if search.Some? then search.value else [], list.value)
    {
      FetchRepoPackagesInfo(supported, search);
      ok := FetchInstalledPackagesInfo(list);
      if ok { PassesGiveTable(supported, if search.Some? then search.value else [], list.value); }
    }
  }

  // ---------- The table ----------

  function LastRelease(releases: seq<Release>, chart: string): (last: Option<Release>)
    ensures last.None? <==> forall r <- releases :: r.chartName != chart
    ensures last.Some? ==> last.value.chartName == chart
  {
    if releases == [] then None
    else
      assert releases == releases[..|releases| - 1] + [releases[|releases| - 1]];
      if releases[|releases| - 1].chartName == chart then Some(releases[|releases| - 1])
      else LastRelease(releases[..|releases| - 1], chart)
  }

  // What a row shows: the last installed release of the chart if any, else its first search result as
  // "undeployed", else "fakeinfo".
  function Shown(chart: string, found: seq<Found>, releases: seq<Release>): (string, PackageVersion, string) {
    var r, e := LastRelease(releases, chart), FirstOf(found, chart);
    if r.Some? then (r.value.description, PackageVersion(r.value.version, r.value.appVersion), r.value.status)
    else if e.Some? then (e.value.description, VersionOf(e.value), "undeployed")
    else ("", NoVersion, "fakeinfo")
  }

  function Row(chart: string, supported: bool, found: seq<Found>, releases: seq<Release>): PackageInfo {
    var (description, version, status) := Shown(chart, found, releases);
    PackageInfo(chart, description, version, VersionsOf(found, chart), status, supported)
  }

  function SupportedRows(supported: seq<string>, found: seq<Found>, releases: seq<Release>): (rows: seq<PackageInfo>)
    ensures |rows| == |supported|
    ensures forall i | 0 <= i < |supported| :: rows[i] == Row(supported[i], true, found, releases)
  {
    seq(|supported|, i requires 0 <= i < |supported| => Row(supported[i], true, found, releases))
  }

  // The installed charts that are not supported, in order of first appearance.
  function Others(supported: seq<string>, releases: seq<Release>): seq<string> {
    if releases == [] then []
    else
      var front, chart := Others(supported, releases[..|releases| - 1]), releases[|releases| - 1].chartName;
      if chart in supported || chart in front then front else front + [chart]
  }

  function OtherRows(charts: seq<string>, releases: seq<Release>): (rows: seq<PackageInfo>)
    ensures |rows| == |charts|
    ensures forall i | 0 <= i < |charts| :: rows[i] == Row(charts[i], false, [], releases)
  {
    seq(|charts|, i requires 0 <= i < |charts| => Row(charts[i], false, [], releases))
  }

  // Supported charts first, in table order, then the other installed charts.
  function Table(supported: seq<string>, found: seq<Found>, releases: seq<Release>): seq<PackageInfo> {
    SupportedRows(supported, found, releases) + OtherRows(Others(supported, releases), releases)
  }

  function Unsupported(supported: seq<string>, releases: seq<Release>): seq<string> {
    if releases == [] then []
    else
      var front, chart := Unsupported(supported, releases[..|releases| - 1]), releases[|releases| - 1].chartName;
      if chart in supported then front else front + [chart]
  }

  lemma {:induction false} OthersInOrderOfAppearance(supported: seq<string>, releases: seq<Release>)
    ensures Others(supported, releases) == FirstSeen(Unsupported(supported, releases))
    ensures Distinct(Others(supported, releases))
    ensures forall c :: c in Others(supported, releases) <==> c !in supported && exists r <- releases :: r.chartName == c
    decreases |releases|
  {
    if releases != [] {
      var n := |releases| - 1;
      OthersInOrderOfAppearance(supported, releases[..n]);
      assert releases == releases[..n] + [releases[n]];
      var u := Unsupported(supported, releases[..n]);
      assert (u + [releases[n].chartName])[..|u|] == u;
    }
  }

  // ---------- The passes give the table ----------

  lemma {:induction false} FakePassGivesRows(supported: seq<string>)
    requires Distinct(supported)
    ensures FakePass([], supported) == SupportedRows(supported, [], [])
    decreases |supported|
  {
    if supported != [] {
      var n := |supported| - 1;
      FakePassGivesRows(supported[..n]);
      assert SupportedRows(supported, [], []) == SupportedRows(supported[..n], [], []) + [FakeInfo(supported[n])];
    }
  }

  lemma RepoStepGivesRows(supported: seq<string>, found: seq<Found>, e: Found)
    requires Distinct(supported)
    ensures RepoStep(supported, SupportedRows(supported, found, []), e) == SupportedRows(supported, found + [e], [])
  {
    assert (found + [e])[..|found|] == found;
    var before, after := SupportedRows(supported, found, []), SupportedRows(supported, found + [e], []);
    forall c | c != e.chartName ensures Row(c, true, found + [e], []) == Row(c, true, found, []) {}
    assert Row(e.chartName, true, found + [e], []) == Offer(Row(e.chartName, true, found, []), e);
    var i := Find(before, e.chartName);
    assert e.chartName in supported <==> i < |supported|;
    assert RepoStep(supported, before, e) == after;
  }

  lemma {:induction false} RepoPassGivesRows(supported: seq<string>, found: seq<Found>)
    requires Distinct(supported)
    ensures RepoPass(supported, SupportedRows(supported, [], []), found) == SupportedRows(supported, found, [])
    decreases |found|
  {
    if found != [] {
      var n := |found| - 1;
      RepoPassGivesRows(supported, found[..n]);
      RepoStepGivesRows(supported, found[..n], found[n]);
      assert found == found[..n] + [found[n]];
    }
  }

  lemma TableAt(supported: seq<string>, found: seq<Found>, releases: seq<Release>, i: nat)
    requires i < |Table(supported, found, releases)|
    ensures
      Table(supported, found, releases)[i] ==
      if i < |supported| then Row(supported[i], true, found, releases)
      else Row(Others(supported, releases)[i - |supported|], false, [], releases)
  {
  }

  // A release of a chart that already has a row `k` rewrites that row.
  lemma ReleaseOfKnownChart(supported: seq<string>, found: seq<Found>, releases: seq<Release>, r: Release, k: nat)
    requires Distinct(supported)
    requires k < |Table(supported, found, releases)| && Table(supported, found, releases)[k].chartName == r.chartName
    requires Others(supported, releases + [r]) == Others(supported, releases)
    ensures InstalledStep(Table(supported, found, releases), r) == Table(supported, found, releases + [r])
  {
    var before, after := Table(supported, found, releases), Table(supported, found, releases + [r]);
    TableRows(supported, found, releases);
    RowAfterRelease(found, releases, r);
    RowAfterRelease([], releases, r);
    assert Find(before, r.chartName) == k;
    forall i | 0 <= i < |before| ensures after[i] == if i == k then Installed(before[k], r) else before[i] {
      TableAt(supported, found, releases, i);
      TableAt(supported, found, releases + [r], i);
      if i != k { assert before[i].chartName != r.chartName; }
    }
  }

  lemma ReleaseOfNewChart(supported: seq<string>, found: seq<Found>, releases: seq<Release>, r: Release)
    requires forall p <- Table(supported, found, releases) :: p.chartName != r.chartName
    requires LastRelease(releases, r.chartName) == None
    requires Others(supported, releases + [r]) == Others(supported, releases) + [r.chartName]
    ensures InstalledStep(Table(supported, found, releases), r) == Table(supported, found, releases + [r])
  {
    var before, after := Table(supported, found, releases), Table(supported, found, releases + [r]);
    RowAfterRelease(found, releases, r);
    RowAfterRelease([], releases, r);
    forall i | 0 <= i < |before| ensures before[i].chartName != r.chartName { assert before[i] in before; }
    forall i | 0 <= i < |before| ensures after[i] == before[i] {}
    assert after == before + [Row(r.chartName, false, [], releases + [r])];
  }

  lemma NoRowOfNewChart(supported: seq<string>, found: seq<Found>, releases: seq<Release>, chart: string)
    requires chart !in supported && chart !in Others(supported, releases)
    ensures forall p <- Table(supported, found, releases) :: p.chartName != chart
  {
    var t := Table(supported, found, releases);
    forall i | 0 <= i < |t| ensures t[i].chartName != chart { TableAt(supported, found, releases, i); }
  }

  lemma InstalledStepGivesTable(supported: seq<string>, found: seq<Found>, releases: seq<Release>, r: Release)
    requires Distinct(supported)
    ensures InstalledStep(Table(supported, found, releases), r) == Table(supported, found, releases + [r])
  {
    assert (releases + [r])[..|releases|] == releases;
    OthersInOrderOfAppearance(supported, releases);
    var others := Others(supported, releases);
    if r.chartName in supported {
      var k :| 0 <= k < |supported| && supported[k] == r.chartName;
      ReleaseOfKnownChart(supported, found, releases, r, k);
    } else if r.chartName in others {
      var k :| 0 <= k < |others| && others[k] == r.chartName;
      ReleaseOfKnownChart(supported, found, releases, r, |supported| + k);
    } else {
      NoRowOfNewChart(supported, found, releases, r.chartName);
      ReleaseOfNewChart(supported, found, releases, r);
    }
  }

  lemma RowAfterRelease(found: seq<Found>, releases: seq<Release>, r: Release)
    ensures forall c, s | c != r.chartName :: Row(c, s, found, releases + [r]) == Row(c, s, found, releases)
    ensures forall s :: Row(r.chartName, s, found, releases + [r]) == Installed(Row(r.chartName, s, found, releases), r)
  {
    assert (releases + [r])[..|releases|] == releases;
  }

  lemma {:induction false} PassesGiveTable(supported: seq<string>, found: seq<Found>, releases: seq<Release>)
    requires Distinct(supported)
    ensures InstalledPass(RepoPass(supported, FakePass([], supported), found), releases) ==
            Table(supported, found, releases)
    decreases |releases|
  {
    if releases == [] {
      FakePassGivesRows(supported);
      RepoPassGivesRows(supported, found);
    } else {
      var n := |releases| - 1;
      PassesGiveTable(supported, found, releases[..n]);
      InstalledStepGivesTable(supported, found, releases[..n], releases[n]);
      assert releases == releases[..n] + [releases[n]];
    }
  }

  // Chart names are distinct, and a row is marked fully supported exactly when its chart is supported.
  lemma TableRows(supported: seq<string>, found: seq<Found>, releases: seq<Release>)
    requires Distinct(supported)
    ensures
      var t := Table(supported, found, releases);
      && (forall i, j | 0 <= i < j < |t| :: t[i].chartName != t[j].chartName)
      && (forall i | 0 <= i < |t| :: t[i].fullySupported <==> t[i].chartName in supported)
      && (forall i | 0 <= i < |supported| :: t[i].chartName == supported[i])
      && (forall i | |supported| <= i < |t| :: exists r <- releases :: r.chartName == t[i].chartName)
  {
    OthersInOrderOfAppearance(supported, releases);
    var t, others := Table(supported, found, releases), Others(supported, releases);
    forall i | |supported| <= i < |t| ensures t[i].chartName in others {
      assert t[i].chartName == others[i - |supported|];
    }
  }

  // ---------- The append branch of the second pass is never taken ----------

  lemma {:induction false} FakePassCovers(packages: seq<PackageInfo>, supported: seq<string>, name: string)
    requires name in supported || Find(packages, name) < |packages|
    ensures Find(FakePass(packages, supported), name) < |FakePass(packages, supported)|
    decreases |supported|
  {
    if supported != [] {
      var n := |supported| - 1;
      assert supported == supported[..n] + [supported[n]];
      var p := FakePass(packages, supported[..n]);
      if name in supported[..n] || Find(packages, name) < |packages| {
        FakePassCovers(packages, supported[..n], name);
        var t := FakePass(packages, supported);
        assert t[Find(p, name)].chartName == name;
      } else {
        var t := FakePass(packages, supported);
        assert t[Find(p, name)].chartName == name;
      }
    }
  }

  // Whatever list the second pass starts from, every result it keeps finds the row of its chart.
  lemma {:induction false} RepoPassNeverAppends(packages: seq<PackageInfo>, supported: seq<string>, found: seq<Found>, name: string)
    requires name in supported
    ensures
      var p := RepoPass(supported, FakePass(packages, supported), found);
      && Find(p, name) < |p|
      && |p| == |FakePass(packages, supported)|
    decreases |found|
  {
    if found == [] {
      FakePassCovers(packages, supported, name);
    } else {
      var n := |found| - 1;
      var p := RepoPass(supported, FakePass(packages, supported), found[..n]);
      RepoPassNeverAppends(packages, supported, found[..n], name);
      if found[n].chartName in supported {
        RepoPassNeverAppends(packages, supported, found[..n], found[n].chartName);
      }
      var t := RepoStep(supported, p, found[n]);
      assert t[Find(p, name)].chartName == name;
    }
  }
}
