/** The grouping loop of `helmSearchRepoHandler`, backend/proxy_server/market_handler.go, and its
    agreement with the linear-scan grouping of the system-app catalogue. */
module Market {
  import opened Options
  import opened Sequences
  import opened Charts
  import Text
  import Catalogue

  datatype Element = Element(
    name: string,
    repoName: string,
    repoDisplayName: string,
    description: string,
    version: string,
    appVersion: string,
    availableVersions: seq<PackageVersion>)

  // The row opened by the first result of a chart.
  function Opened(e: Found): Element {
    var repo := Text.Split(e.name, '/')[0];
    Element(e.chartName, repo, repo, e.description, e.version, e.appVersion, [])
  }

  // The stable group-by: one row per distinct chart, in order of first occurrence.
  function Grouped(found: seq<Found>): (rows: seq<Element>)
    ensures |rows| == |FirstSeen(ChartNames(found))|
  {
    GroupedMembers(found);
    var charts := FirstSeen(ChartNames(found));
    seq(|charts|, i requires 0 <= i < |charts| =>
      Opened(FirstOf(found, charts[i]).value).(availableVersions := VersionsOf(found, charts[i])))
  }

  lemma GroupedMembers(found: seq<Found>)
    ensures Distinct(FirstSeen(ChartNames(found)))
    ensures forall c <- FirstSeen(ChartNames(found)) :: FirstOf(found, c).Some?
    ensures forall c :: c in FirstSeen(ChartNames(found)) <==> exists e <- found :: e.chartName == c
  {
    var names := ChartNames(found);
    FirstSeenMembers(names);
    forall e <- found ensures e.chartName in names {
      var i :| 0 <= i < |found| && found[i] == e;
      assert names[i] == e.chartName;
    }
    forall c <- names ensures exists e <- found :: e.chartName == c {
      var i :| 0 <= i < |names| && names[i] == c;
      assert found[i] in found && found[i].chartName == c;
    }
  }

  // While `found` has been read: the rows opened so far, still without versions.
  ghost function OpenedRows(found: seq<Found>): (rows: seq<Element>)
    ensures |rows| == |FirstSeen(ChartNames(found))|
  {
    GroupedMembers(found);
    var charts := FirstSeen(ChartNames(found));
    seq(|charts|, i requires 0 <= i < |charts| => Opened(FirstOf(found, charts[i]).value))
  }

  lemma NextName(found: seq<Found>, e: Found)
    ensures
      var charts := FirstSeen(ChartNames(found));
      FirstSeen(ChartNames(found + [e])) == if e.chartName in charts then charts else charts + [e.chartName]
  {
    assert ChartNames(found + [e])[..|found|] == ChartNames(found);
  }

  lemma NextRows(found: seq<Found>, e: Found)
    ensures
      OpenedRows(found + [e]) ==
      if e.chartName in FirstSeen(ChartNames(found)) then OpenedRows(found) else OpenedRows(found) + [Opened(e)]
  {
    NextName(found, e);
    GroupedMembers(found);
    var charts, before, after := FirstSeen(ChartNames(found)), OpenedRows(found), OpenedRows(found + [e]);
    forall i | 0 <= i < |before| ensures after[i] == before[i] {
      assert charts[i] in charts;
      NextFirst(found, e, charts[i]);
    }
    if e.chartName !in charts {
      NextFirst(found, e, e.chartName);
      assert after == before + [Opened(e)];
    }
  }

  lemma NextFirst(found: seq<Found>, e: Found, chart: string)
    ensures FirstOf(found, chart).Some? ==> FirstOf(found + [e], chart) == FirstOf(found, chart)
    ensures FirstOf(found, chart).None? && e.chartName == chart ==> FirstOf(found + [e], chart) == Some(e)
  {
    assert (found + [e])[..|found|] == found;
  }

  // What the first loop has built after reading `found`.
  ghost predicate Gathered(found: seq<Found>, elements: seq<Element>, available: map<string, seq<PackageVersion>>) {
    && elements == OpenedRows(found)
    && (forall c :: c in available <==> c in FirstSeen(ChartNames(found)))
    && (forall c <- available :: available[c] == VersionsOf(found, c))
  }

  lemma NextVersions(found: seq<Found>, e: Found)
    ensures forall c :: VersionsOf(found + [e], c) ==
                        if c == e.chartName then VersionsOf(found, c) + [VersionOf(e)] else VersionsOf(found, c)
  {
    assert (found + [e])[..|found|] == found;
  }

  lemma GatherKnown(found: seq<Found>, elements: seq<Element>, available: map<string, seq<PackageVersion>>, e: Found)
    requires Gathered(found, elements, available) && e.chartName in available
    ensures Gathered(found + [e], elements, available[e.chartName := available[e.chartName] + [VersionOf(e)]])
  {
    NextName(found, e);
    NextRows(found, e);
    NextVersions(found, e);
  }

  lemma GatherNew(found: seq<Found>, elements: seq<Element>, available: map<string, seq<PackageVersion>>, e: Found)
    requires Gathered(found, elements, available) && e.chartName !in available
    ensures Gathered(found + [e], elements + [Opened(e)], available[e.chartName := [VersionOf(e)]])
  {
    NextName(found, e);
    NextRows(found, e);
    NextVersions(found, e);
    GroupedMembers(found);
    NoVersionsWithoutResults(found, e.chartName);
  }

  method GroupResults(found: seq<Found>) returns (elements: seq<Element>, total: nat)
    ensures elements == Grouped(found)
    ensures total == |FirstSeen(ChartNames(found))|
  {
    elements := [];
    var available: map<string, seq<PackageVersion>> := map[];
    for k := 0 to |found|
      invariant Gathered(found[..k], elements, available)
    {
      var one := found[k];
      assert found[..k + 1] == found[..k] + [one];
      if one.chartName in available {
        GatherKnown(found[..k], elements, available, one);
        available := available[one.chartName := available[one.chartName] + [VersionOf(one)]];
      } else {
        GatherNew(found[..k], elements, available, one);
        elements := elements + [Opened(one)];
        available := available[one.chartName := [VersionOf(one)]];
      }
    }
    assert found[..|found|] == found;
    ghost var rows := elements;
    for i := 0 to |elements|
      invariant |elements| == |rows|
      invariant forall j | 0 <= j < i :: elements[j] == Grouped(found)[j]
      invariant forall j | i <= j < |elements| :: elements[j] == rows[j]
    {
      RowHasVersions(found, i);
      elements := elements[i := elements[i].(
        availableVersions := if elements[i].name in available then available[elements[i].name] else [])];
    }
    total := |elements|;
  }

  lemma RowHasVersions(found: seq<Found>, i: nat)
    requires i < |OpenedRows(found)|
    ensures OpenedRows(found)[i].name in FirstSeen(ChartNames(found))
    ensures Grouped(found)[i] ==
            OpenedRows(found)[i].(availableVersions := VersionsOf(found, OpenedRows(found)[i].name))
  {
    GroupedMembers(found);
    FirstOfIsItsChart(found, FirstSeen(ChartNames(found))[i]);
  }

  // ---------- What the grouping means ----------

  function Lengths(found: seq<Found>, charts: seq<string>): seq<nat> {
    seq(|charts|, i requires 0 <= i < |charts| => |VersionsOf(found, charts[i])|)
  }

  // Every result lands in exactly one group.
  lemma {:induction false} GroupLengthsSum(found: seq<Found>)
    ensures Sum(Lengths(found, FirstSeen(ChartNames(found)))) == |found|
    decreases |found|
  {
    if found == [] { return; }
    var n := |found| - 1;
    var front, e := found[..n], found[n];
    GroupLengthsSum(front);
    OneMoreResult(front, e);
    assert found == front + [e];
  }

  lemma OneMoreResult(found: seq<Found>, e: Found)
    ensures Sum(Lengths(found + [e], FirstSeen(ChartNames(found + [e])))) ==
            Sum(Lengths(found, FirstSeen(ChartNames(found)))) + 1
  {
    NextName(found, e);
    GroupedMembers(found);
    NoVersionsWithoutResults(found, e.chartName);
    LengthsNext(found, e, FirstSeen(ChartNames(found)));
  }

  lemma LengthsNext(found: seq<Found>, e: Found, charts: seq<string>)
    requires Distinct(charts)
    ensures e.chartName in charts ==> Sum(Lengths(found + [e], charts)) == Sum(Lengths(found, charts)) + 1
    ensures e.chartName !in charts && VersionsOf(found, e.chartName) == [] ==>
              Sum(Lengths(found + [e], charts + [e.chartName])) == Sum(Lengths(found, charts)) + 1
  {
    NextVersions(found, e);
    var before := Lengths(found, charts);
    if e.chartName in charts {
      var i :| 0 <= i < |charts| && charts[i] == e.chartName;
      SumUpdate(before, i, before[i] + 1);
      assert Lengths(found + [e], charts) == before[i := before[i] + 1];
    } else if VersionsOf(found, e.chartName) == [] {
      assert Lengths(found + [e], charts + [e.chartName]) == before + [1];
      SumAppend(before, 1);
    }
  }

  lemma {:induction false} SumAppend(s: seq<nat>, x: nat)
    ensures Sum(s + [x]) == Sum(s) + x
  {
    if s != [] {
      SumAppend(s[1..], x);
      assert (s + [x])[1..] == s[1..] + [x];
    }
  }

  lemma {:induction false} NoVersionsWithoutResults(found: seq<Found>, chart: string)
    ensures VersionsOf(found, chart) == [] <==> forall e <- found :: e.chartName != chart
    ensures FirstOf(found, chart).Some? ==>
              VersionsOf(found, chart) != [] && VersionsOf(found, chart)[0] == VersionOf(FirstOf(found, chart).value)
  {
    if found != [] {
      NoVersionsWithoutResults(found[..|found| - 1], chart);
      assert found == found[..|found| - 1] + [found[|found| - 1]];
    }
  }

  // Rows have distinct names, in order of first occurrence; each shows the version of the first entry
  // of its own non-empty group; and there is a row for exactly the charts that were found.
  lemma GroupedRows(found: seq<Found>)
    ensures
      var rows := Grouped(found);
      && (forall i, j | 0 <= i < j < |rows| ::
            && rows[i].name in ChartNames(found) && rows[j].name in ChartNames(found)
            && IndexOf(ChartNames(found), rows[i].name) < IndexOf(ChartNames(found), rows[j].name))
      && (forall i | 0 <= i < |rows| ::
            rows[i].availableVersions != [] &&
            rows[i].availableVersions[0] == PackageVersion(rows[i].version, rows[i].appVersion))
      && (forall c :: c in ChartNames(found) <==> exists i | 0 <= i < |rows| :: rows[i].name == c)
  {
    var names := ChartNames(found);
    var charts, rows := FirstSeen(names), Grouped(found);
    FirstSeenMembers(names);
    GroupedMembers(found);
    forall i | 0 <= i < |rows| ensures rows[i].name == charts[i] && rows[i].availableVersions == VersionsOf(found, charts[i]) {
      FirstOfIsItsChart(found, charts[i]);
    }
    forall i | 0 <= i < |rows|
      ensures rows[i].availableVersions != []
      ensures rows[i].availableVersions[0] == PackageVersion(rows[i].version, rows[i].appVersion)
    {
      assert charts[i] in charts;
      NoVersionsWithoutResults(found, charts[i]);
    }
    forall i, j | 0 <= i < j < |rows|
      ensures rows[i].name in names && rows[j].name in names && IndexOf(names, rows[i].name) < IndexOf(names, rows[j].name)
    {
      FirstSeenOrder(names, i, j);
    }
    forall c | c in names ensures exists i | 0 <= i < |rows| :: rows[i].name == c {
      assert c in charts;
      var i :| 0 <= i < |charts| && charts[i] == c;
      assert rows[i].name == c;
    }
    forall i | 0 <= i < |rows| ensures rows[i].name in names { assert charts[i] in charts; }
  }

  lemma {:induction false} FirstOfIsItsChart(found: seq<Found>, chart: string)
    ensures FirstOf(found, chart).Some? ==> FirstOf(found, chart).value.chartName == chart
  {
    if found != [] { FirstOfIsItsChart(found[..|found| - 1], chart); }
  }

  // A row shows the first result of its chart: its description and version, and as repository the part
  // of its name before the first slash.
  lemma RowShowsFirstResult(found: seq<Found>, i: nat) returns (j: nat)
    requires i < |Grouped(found)|
    ensures j < |found| && found[j].chartName == Grouped(found)[i].name
    ensures forall k | 0 <= k < j :: found[k].chartName != Grouped(found)[i].name
    ensures
      var row := Grouped(found)[i];
      && row.description == found[j].description
      && row.version == found[j].version && row.appVersion == found[j].appVersion
      && row.repoDisplayName == row.repoName
      && '/' !in row.repoName
      && (found[j].name == row.repoName || exists rest :: found[j].name == row.repoName + "/" + rest)
  {
    var chart := FirstSeen(ChartNames(found))[i];
    GroupedMembers(found);
    assert chart in FirstSeen(ChartNames(found));
    j := FirstOfPosition(found, chart);
    FirstPiece(found[j].name, '/');
  }

  lemma {:induction false} FirstOfPosition(found: seq<Found>, chart: string) returns (j: nat)
    requires FirstOf(found, chart).Some?
    ensures j < |found| && FirstOf(found, chart) == Some(found[j]) && found[j].chartName == chart
    ensures forall k | 0 <= k < j :: found[k].chartName != chart
  {
    var n := |found| - 1;
    if FirstOf(found[..n], chart).Some? {
      j := FirstOfPosition(found[..n], chart);
      forall k | 0 <= k < j ensures found[k].chartName != chart { assert found[..n][k] == found[k]; }
    } else {
      j := n;
      forall k | 0 <= k < n ensures found[k].chartName != chart { assert found[k] in found[..n]; }
    }
  }

  lemma {:induction false} FirstPiece(s: string, d: char)
    ensures
      var p := Text.Split(s, d)[0];
      d !in p && (s == p || exists rest :: s == p + [d] + rest)
  {
    if s != [] {
      if s[0] == d {
        assert s == [] + [d] + s[1..];
      } else {
        FirstPiece(s[1..], d);
        var p := Text.Split(s[1..], d)[0];
        assert s == [s[0]] + s[1..];
        if s[1..] != p {
          var rest :| s[1..] == p + [d] + rest;
          assert s == ([s[0]] + p) + [d] + rest;
        }
      }
    }
  }

  // The two groupings agree: on the same results, a supported chart has the same versions in the
  // catalogue table and in the market rows (where it has a row exactly when it was found).
  lemma SameVersionsAsCatalogue(supported: seq<string>, found: seq<Found>, releases: seq<Catalogue.Release>, i: nat)
    requires Distinct(supported) && i < |supported|
    ensures
      var row := Catalogue.InstalledPass(
        Catalogue.RepoPass(supported, Catalogue.FakePass([], supported), found), releases);
      var rows := Grouped(found);
      && i < |row| && row[i].chartName == supported[i]
      && (forall k | 0 <= k < |rows| && rows[k].name == supported[i] :: rows[k].availableVersions == row[i].versions)
      && ((exists k | 0 <= k < |rows| :: rows[k].name == supported[i]) <==> row[i].versions != [])
  {
    Catalogue.PassesGiveTable(supported, found, releases);
    RowsOfChart(found, supported[i]);
  }

  lemma RowsOfChart(found: seq<Found>, chart: string)
    ensures
      var rows := Grouped(found);
      && (forall k | 0 <= k < |rows| && rows[k].name == chart :: rows[k].availableVersions == VersionsOf(found, chart))
      && ((exists k | 0 <= k < |rows| :: rows[k].name == chart) <==> VersionsOf(found, chart) != [])
  {
    var rows, charts := Grouped(found), FirstSeen(ChartNames(found));
    GroupedMembers(found);
    forall k | 0 <= k < |rows|
      ensures rows[k].name == charts[k] && rows[k].availableVersions == VersionsOf(found, charts[k])
    {
      assert charts[k] in charts;
      FirstOfIsItsChart(found, charts[k]);
    }
    NoVersionsWithoutResults(found, chart);
    if VersionsOf(found, chart) != [] {
      assert chart in charts;
      var k :| 0 <= k < |charts| && charts[k] == chart;
      assert rows[k].name == chart;
    }
    if k :| 0 <= k < |rows| && rows[k].name == chart { assert charts[k] in charts; }
  }
}
