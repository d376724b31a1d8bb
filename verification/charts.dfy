/** Chart search results and releases, and the group-by notions that the catalogue and the market share. */
module Charts {
  import opened Options
  import opened Sequences

  datatype PackageVersion = PackageVersion(version: string, appVersion: string)

  // One search result: `name` is "repo/chart".
  datatype Found = Found(name: string, chartName: string, version: string, appVersion: string, description: string)

  function VersionOf(e: Found): PackageVersion { PackageVersion(e.version, e.appVersion) }

  // The versions of one chart, in result order.
  function VersionsOf(found: seq<Found>, chart: string): seq<PackageVersion> {
    if found == [] then []
    else
      var front, e := VersionsOf(found[..|found| - 1], chart), found[|found| - 1];
      if e.chartName == chart then front + [VersionOf(e)] else front
  }

  // The first result of one chart.
  function FirstOf(found: seq<Found>, chart: string): (first: Option<Found>)
    ensures first.None? <==> forall e <- found :: e.chartName != chart
  {
    if found == [] then None
    else
      var front, e := FirstOf(found[..|found| - 1], chart), found[|found| - 1];
      assert found == found[..|found| - 1] + [e];
      if front.None? && e.chartName == chart then Some(e) else front
  }

  function ChartNames(found: seq<Found>): seq<string> {
    seq(|found|, i requires 0 <= i < |found| => found[i].chartName)
  }

  // The distinct elements, each at its first occurrence.
  function FirstSeen(s: seq<string>): seq<string> {
    if s == [] then []
    else
      var front, x := FirstSeen(s[..|s| - 1]), s[|s| - 1];
      if x in front then front else front + [x]
  }

  function IndexOf(s: seq<string>, x: string): (i: nat)
    requires x in s
    ensures i < |s| && s[i] == x && forall j | 0 <= j < i :: s[j] != x
  {
    if s[0] == x then 0 else 1 + IndexOf(s[1..], x)
  }

  lemma {:induction false} FirstSeenMembers(s: seq<string>)
    ensures Distinct(FirstSeen(s))
    ensures forall x :: x in FirstSeen(s) <==> x in s
  {
    if s != [] {
      FirstSeenMembers(s[..|s| - 1]);
      assert s == s[..|s| - 1] + [s[|s| - 1]];
    }
  }

  lemma IndexOfPrefix(front: seq<string>, last: string, x: string)
    requires x in front
    ensures IndexOf(front + [last], x) == IndexOf(front, x)
  {
    var s, i, j := front + [last], IndexOf(front + [last], x), IndexOf(front, x);
    assert forall k | 0 <= k < |front| :: s[k] == front[k];
  }

  lemma IndexOfNew(front: seq<string>, x: string)
    requires x !in front
    ensures IndexOf(front + [x], x) == |front|
  {
    var i := IndexOf(front + [x], x);
    assert forall k | 0 <= k < |front| :: (front + [x])[k] == front[k];
  }

  // ... in the order of those first occurrences.
  lemma {:induction false} FirstSeenOrder(s: seq<string>, i: nat, j: nat)
    requires i < j < |FirstSeen(s)|
    ensures FirstSeen(s)[i] in s && FirstSeen(s)[j] in s
    ensures IndexOf(s, FirstSeen(s)[i]) < IndexOf(s, FirstSeen(s)[j])
    decreases |s|
  {
    FirstSeenMembers(s);
    var n := |s| - 1;
    var front, last, fs := s[..n], s[n], FirstSeen(s);
    FirstSeenMembers(front);
    assert s == front + [last];
    var x, y := fs[i], fs[j];
    assert x == FirstSeen(front)[i] && x in front;
    IndexOfPrefix(front, last, x);
    if j < |FirstSeen(front)| {
      FirstSeenOrder(front, i, j);
      assert y in front;
      IndexOfPrefix(front, last, y);
    } else {
      IndexOfNew(front, y);
    }
  }
}
