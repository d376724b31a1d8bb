/** Guided installation of the system apps: `installSystemAppFromGuideHandler` and
    `waitYurtManagerInstallSuccess` of backend/proxy_server/system_app_handler.go, with the release
    listing of backend/helm_client/list.go and the app table of system_app_config.go. */
module Guide {
  import opened Options

  datatype App = App(name: string, required: bool)

  const YURT_MANAGER := "yurt-manager"
  const OPENYURT_NAMESPACE := "kube-system"

  const FULLY_SUPPORTED := [
    App(YURT_MANAGER, true), App("yurthub", true), App("yurt-coordinator", false), App("raven-agent", false)]

  datatype Status = Deployed | Failed | Pending | Superseded | Uninstalling | Uninstalled | Unknown

  datatype Release = Release(chart: string, status: Status)

  // Releases by namespace and name.
  type Releases = map<(string, string), Release>

  // The statuses the handler asks to list.
  predicate Active(r: Release) { r.status.Deployed? || r.status.Pending? || r.status.Failed? }

  // Some deployed, pending or failed release has this chart.
  ghost predicate HasActive(rel: Releases, chart: string) {
    exists k <- rel ::
      rel[k].chart == chart && (rel[k].status.Deployed? || rel[k].status.Pending? || rel[k].status.Failed?)
  }

  predicate OccursAt(s: string, part: string, i: nat) {
    i + |part| <= |s| && s[i..i + |part|] == part
  }

  predicate Contains(s: string, part: string) {
    exists i | 0 <= i <= |s| :: OccursAt(s, part, i)
  }

  // The chart filter: the selected names joined into alternatives, matched anywhere in the chart name;
  // an empty filter lists everything. Selected names are taken literally.
  predicate FilterMatches(selected: seq<string>, chart: string) {
    selected == [] || exists n <- selected :: Contains(chart, n)
  }

  // A filter of literal names matches exactly the charts that contain one of them.
  lemma FilterMatchesIff(selected: seq<string>, chart: string)
    ensures FilterMatches(selected, chart) <==>
            selected == [] || exists n, a, b :: n in selected && chart == a + n + b
  {
    if n :| n in selected && Contains(chart, n) {
      var i :| 0 <= i <= |chart| && OccursAt(chart, n, i);
      assert chart == chart[..i] + n + chart[i + |n|..];
    }
    if n, a, b :| n in selected && chart == a + n + b {
      assert OccursAt(chart, n, |a|);
      assert Contains(chart, n);
    }
  }

  ghost predicate IsListed(rel: Releases, selected: seq<string>, chart: string) {
    HasActive(rel, chart) && FilterMatches(selected, chart)
  }

  // How the cluster answers one installation: it succeeds, fails without a trace, or fails leaving a
  // failed or pending release.
  datatype Answer = Succeeds | Refused | LeavesFailed | LeavesPending

  datatype DeploymentStatus = DeploymentStatus(name: string, available: int, wanted: int)

  // What the environment does during one call; a poll of the deployments may fail.
  datatype Env = Env(repoOk: bool, listOk: bool, answer: nat -> Answer, poll: nat -> Option<seq<DeploymentStatus>>)

  datatype Event = Install(app: string) | Poll(ready: bool)

  // An installation is refused when its release name is in use.
  function InstallRelease(rel: Releases, app: string, answer: Answer): (Releases, bool) {
    var key := (OPENYURT_NAMESPACE, app);
    if key in rel then (rel, false)
    else match answer
      case Succeeds => (rel[key := Release(app, Deployed)], true)
      case Refused => (rel, false)
      case LeavesFailed => (rel[key := Release(app, Failed)], false)
      case LeavesPending => (rel[key := Release(app, Pending)], false)
  }

  // The first deployment of that name has all its replicas available.
  function IsReady(items: seq<DeploymentStatus>): bool {
    if items == [] then false
    else if items[0].name == YURT_MANAGER then items[0].available >= items[0].wanted
    else IsReady(items[1..])
  }

  function PollReady(poll: nat -> Option<seq<DeploymentStatus>>, k: nat): bool {
    poll(k).Some? && IsReady(poll(k).value)
  }

  // Poll `k` succeeded, and its first deployment named yurt-manager has all its replicas available.
  ghost predicate ReadyAt(poll: nat -> Option<seq<DeploymentStatus>>, k: nat) {
    && poll(k).Some?
    && exists j: nat | j < |poll(k).value| ::
         && poll(k).value[j].name == "yurt-manager"
         && poll(k).value[j].available >= poll(k).value[j].wanted
         && forall i | 0 <= i < j :: poll(k).value[i].name != "yurt-manager"
  }

  lemma {:induction false} IsReadyIff(items: seq<DeploymentStatus>)
    ensures IsReady(items) <==>
            exists j: nat | j < |items| ::
              && items[j].name == "yurt-manager" && items[j].available >= items[j].wanted
              && forall i | 0 <= i < j :: items[i].name != "yurt-manager"
  {
    if items != [] && items[0].name != "yurt-manager" {
      IsReadyIff(items[1..]);
      if j: nat :| j < |items| && items[j].name == "yurt-manager" && items[j].available >= items[j].wanted
                   && forall i | 0 <= i < j :: items[i].name != "yurt-manager" {
        assert items[1..][j - 1] == items[j];
        assert forall i | 0 <= i < j - 1 :: items[1..][i] == items[i + 1];
      }
      if IsReady(items[1..]) {
        var j: nat :| j < |items[1..]| && items[1..][j].name == "yurt-manager"
                      && items[1..][j].available >= items[1..][j].wanted
                      && forall i | 0 <= i < j :: items[1..][i].name != "yurt-manager";
        assert items[j + 1] == items[1..][j];
        assert forall i | 1 <= i < j + 1 :: items[i] == items[1..][i - 1];
      }
    }
  }

  lemma PollReadyIff(poll: nat -> Option<seq<DeploymentStatus>>, k: nat)
    ensures PollReady(poll, k) <==> ReadyAt(poll, k)
  {
    if poll(k).Some? { IsReadyIff(poll(k).value); }
  }

  const MAX_POLLS := 600

  // The polls from number `count` on: until one finds the manager ready, at most 600 in all.
  function Waiting(poll: nat -> Option<seq<DeploymentStatus>>, count: nat): seq<Event>
    decreases MAX_POLLS - count
  {
    if count >= MAX_POLLS then []
    else if PollReady(poll, count) then [Poll(true)]
    else [Poll(false)] + Waiting(poll, count + 1)
  }

  // ---------- One call ----------

  datatype Result = Result(ok: bool, rel: Releases, log: seq<Event>)

  predicate Wanted(app: App, selected: seq<string>) { app.required || app.name in selected }

  // The installation loop from table position `i` on, where `installed` are the listed charts.
  function Loop(table: seq<App>, selected: seq<string>, installed: seq<string>, rel: Releases, env: Env, i: nat): Result
    requires i <= |table|
    decreases |table| - i
  {
    if i == |table| then Result(true, rel, [])
    else if !Wanted(table[i], selected) || table[i].name in installed then
      Loop(table, selected, installed, rel, env, i + 1)
    else
      var (rel', ok) := InstallRelease(rel, table[i].name, env.answer(i));
      var event := [Install(table[i].name)];
      if !ok then Result(false, rel', event)
      else
        var polls := if table[i].name == YURT_MANAGER then Waiting(env.poll, 0) else [];
        var rest := Loop(table, selected, installed, rel', env, i + 1);
        rest.(log := event + polls + rest.log)
  }

  // The charts listed for the call, in some order.
  ghost predicate Listing(rel: Releases, selected: seq<string>, installed: seq<string>) {
    forall c :: c in installed <==> IsListed(rel, selected, c)
  }

  function Call(table: seq<App>, selected: seq<string>, installed: seq<string>, rel: Releases, env: Env): Result {
    if !env.repoOk || !env.listOk then Result(false, rel, [])
    else Loop(table, selected, installed, rel, env, 0)
  }

  class Server {
    var releases: Releases
    ghost var log: seq<Event>

    constructor (releases: Releases)
      ensures this.releases == releases && log == []
    {
      this.releases := releases;
      log := [];
    }

    method ListCharts(selected: seq<string>) returns (charts: seq<string>)
      ensures Listing(releases, selected, charts)
    {
      charts := [];
      var todo := releases.Keys;
      while todo != {}
        invariant todo <= releases.Keys
        invariant forall c :: c in charts <==>
                    exists k <- releases.Keys - todo ::
                      Active(releases[k]) && releases[k].chart == c && FilterMatches(selected, c)
        decreases todo
      {
        var k :| k in todo;
        ghost var before := releases.Keys - todo;
        assert releases.Keys - (todo - {k}) == before + {k};
        todo := todo - {k};
        if Active(releases[k]) && FilterMatches(selected, releases[k].chart) {
          charts := charts + [releases[k].chart];
        }
      }
    }

    method Install(app: string, answer: Answer) returns (ok: bool)
      modifies this
      ensures (releases, ok) == InstallRelease(old(releases), app, answer)
      ensures log == old(log) + [Event.Install(app)]
    {
      log := log + [Event.Install(app)];
      var key := (OPENYURT_NAMESPACE, app);
      if key in releases || answer.Refused? { return false; }
      releases := releases[key := Release(app, if answer.Succeeds? then Deployed else if answer.LeavesFailed? then Failed else Pending)];
      return answer.Succeeds?;
    }

    method WaitYurtManager(poll: nat -> Option<seq<DeploymentStatus>>)
      modifies this`log
      ensures log == old(log) + Waiting(poll, 0)
      ensures IsWait(Waiting(poll, 0), poll, 0, 600)
    {
      WaitingIsWait(poll, 0);
      var count := 0;
      while count < MAX_POLLS
        invariant count <= MAX_POLLS
        invariant old(log) + Waiting(poll, 0) == log + Waiting(poll, count)
      {
        var rsp := poll(count);
        count := count + 1;
        if rsp.Some? {
          var ready := false;
          for j := 0 to |rsp.value|
            invariant !ready && IsReady(rsp.value) == IsReady(rsp.value[j..])
          {
            if rsp.value[j].name != YURT_MANAGER { continue; }
            ready := rsp.value[j].available >= rsp.value[j].wanted;
            break;
          }
          if ready {
            log := log + [Poll(true)];
            return;
          }
        }
        log := log + [Poll(false)];
      }
    }

    method InstallFromGuide(table: seq<App>, selected: seq<string>, env: Env) returns (ok: bool, ghost installed: seq<string>)
      modifies this
      ensures Listing(old(releases), selected, installed)
      ensures
        var r := Call(table, selected, installed, old(releases), env);
        ok == r.ok && releases == r.rel && log == old(log) + r.log
    {
      var charts := ListCharts(selected);
      installed := charts;
      if !env.repoOk || !env.listOk { return false, installed; }
      ghost var whole := Loop(table, selected, charts, releases, env, 0);
      for i := 0 to |table|
        invariant installed == charts
        invariant
          var rest := Loop(table, selected, charts, releases, env, i);
          whole.ok == rest.ok && whole.rel == rest.rel && old(log) + whole.log == log + rest.log
      {
        var app := table[i];
        if !Wanted(app, selected) || app.name in charts { continue; }
        ghost var before, polls := log, if app.name == YURT_MANAGER then Waiting(env.poll, 0) else [];
        ghost var rest := Loop(table, selected, charts, releases, env, i);
        ok := Install(app.name, env.answer(i));
        if !ok { return false, installed; }
        if app.name == YURT_MANAGER { WaitYurtManager(env.poll); }
        ghost var next := Loop(table, selected, charts, releases, env, i + 1);
        assert rest.log == [Event.Install(app.name)] + polls + next.log;
        Regroup(before, [Event.Install(app.name)], polls, next.log);
      }
      return true, installed;
    }
  }

  lemma Regroup(a: seq<Event>, b: seq<Event>, c: seq<Event>, d: seq<Event>)
    ensures a + b + c + d == a + (b + c + d)
  {
  }

  // ---------- What a call installs, and in which order ----------

  function InstalledNames(log: seq<Event>): seq<string> {
    if log == [] then []
    else (if log[0].Install? then [log[0].app] else []) + InstalledNames(log[1..])
  }

  // The apps still to be installed from position `i` on, in table order.
  function Planned(table: seq<App>, selected: seq<string>, installed: seq<string>, i: nat): seq<string>
    requires i <= |table|
    decreases |table| - i
  {
    if i == |table| then []
    else
      (if !Wanted(table[i], selected) || table[i].name in installed then [] else [table[i].name])
      + Planned(table, selected, installed, i + 1)
  }

  lemma {:induction false} NamesAppend(a: seq<Event>, b: seq<Event>)
    ensures InstalledNames(a + b) == InstalledNames(a) + InstalledNames(b)
  {
    if a == [] {
      assert a + b == b;
    } else {
      NamesAppend(a[1..], b);
      var s := a + b;
      assert s[0] == a[0] && s[1..] == a[1..] + b;
      var head, x, y := if a[0].Install? then [a[0].app] else [], InstalledNames(a[1..]), InstalledNames(b);
      assert InstalledNames(s) == head + (x + y);
      assert InstalledNames(a) == head + x;
    }
  }

  // `w` logs the polls from number `first` on: each says whether it found the manager ready, and they end
  // with the first one that did, or at the limit.
  ghost predicate IsWait(w: seq<Event>, poll: nat -> Option<seq<DeploymentStatus>>, first: nat, limit: nat) {
    && 0 < |w| <= limit
    && (forall j | 0 <= j < |w| :: w[j].Poll?)
    && (forall k: nat | first <= k < first + |w| :: w[k - first] == Poll(ReadyAt(poll, k)))
    && (forall k: nat | first <= k < first + |w| - 1 :: !ReadyAt(poll, k))
    && (ReadyAt(poll, first + |w| - 1) || |w| == limit)
  }

  lemma {:induction false} WaitingIsWait(poll: nat -> Option<seq<DeploymentStatus>>, count: nat)
    requires count < 600
    ensures IsWait(Waiting(poll, count), poll, count, 600 - count)
    decreases 600 - count
  {
    PollReadyIff(poll, count);
    if !PollReady(poll, count) && count + 1 < 600 {
      WaitingIsWait(poll, count + 1);
      WaitOneEarlier(Waiting(poll, count + 1), poll, count, 600 - count);
    }
  }

  lemma WaitOneEarlier(w: seq<Event>, poll: nat -> Option<seq<DeploymentStatus>>, count: nat, limit: nat)
    requires limit > 0 && IsWait(w, poll, count + 1, limit - 1) && !ReadyAt(poll, count)
    ensures IsWait([Poll(false)] + w, poll, count, limit)
  {
    var v := [Poll(false)] + w;
    forall k: nat | count <= k < count + |v| ensures v[k - count] == Poll(ReadyAt(poll, k)) {
      if k > count { assert v[k - count] == w[k - (count + 1)]; }
    }
  }

  lemma WaitingIsPolls(poll: nat -> Option<seq<DeploymentStatus>>)
    ensures forall j | 0 <= j < |Waiting(poll, 0)| :: Waiting(poll, 0)[j].Poll?
  {
    WaitingIsWait(poll, 0);
  }

  lemma {:induction false} PollsInstallNothing(w: seq<Event>)
    requires forall j | 0 <= j < |w| :: w[j].Poll?
    ensures InstalledNames(w) == []
  {
    if w != [] { PollsInstallNothing(w[1..]); }
  }

  // A call installs exactly the planned apps in table order, or, when it stops at a failure, a prefix of
  // them. So apps that are neither required nor selected, or are listed already, are never installed.
  lemma {:induction false} LoopFollowsPlan(table: seq<App>, selected: seq<string>, installed: seq<string>,
                                           rel: Releases, env: Env, i: nat)
    requires i <= |table|
    ensures
      var r := Loop(table, selected, installed, rel, env, i);
      && InstalledNames(r.log) <= Planned(table, selected, installed, i)
      && (r.ok ==> InstalledNames(r.log) == Planned(table, selected, installed, i))
    decreases |table| - i
  {
    if i == |table| { return; }
    var name := table[i].name;
    if !Wanted(table[i], selected) || name in installed {
      LoopFollowsPlan(table, selected, installed, rel, env, i + 1);
      return;
    }
    var (rel', ok) := InstallRelease(rel, name, env.answer(i));
    NamesOfOne(name);
    if ok {
      var polls := if name == YURT_MANAGER then Waiting(env.poll, 0) else [];
      LoopFollowsPlan(table, selected, installed, rel', env, i + 1);
      WaitingIsPolls(env.poll);
      NamesOfStep(name, polls, Loop(table, selected, installed, rel', env, i + 1).log);
    }
  }

  lemma NamesOfOne(name: string)
    ensures InstalledNames([Install(name)]) == [name]
  {
    assert [Install(name)][1..] == [];
  }

  lemma NamesOfStep(name: string, polls: seq<Event>, rest: seq<Event>)
    requires forall j | 0 <= j < |polls| :: polls[j].Poll?
    ensures InstalledNames([Install(name)] + polls + rest) == [name] + InstalledNames(rest)
  {
    PollsInstallNothing(polls);
    NamesAppend([Install(name)] + polls, rest);
    NamesAppend([Install(name)], polls);
    NamesOfOne(name);
  }

  lemma {:induction false} PlannedMembers(table: seq<App>, selected: seq<string>, installed: seq<string>, i: nat)
    requires i <= |table|
    ensures forall n :: n in Planned(table, selected, installed, i) <==>
              exists j | i <= j < |table| :: table[j].name == n && Wanted(table[j], selected) && n !in installed
    decreases |table| - i
  {
    if i < |table| { PlannedMembers(table, selected, installed, i + 1); }
  }

  // ---------- Releases only accumulate ----------

  lemma InstallKeepsActive(rel: Releases, app: string, answer: Answer, chart: string)
    requires HasActive(rel, chart)
    ensures HasActive(InstallRelease(rel, app, answer).0, chart)
  {
    var k :| k in rel && rel[k].chart == chart
             && (rel[k].status.Deployed? || rel[k].status.Pending? || rel[k].status.Failed?);
    var t := InstallRelease(rel, app, answer).0;
    assert k in t && t[k] == rel[k] && t[k].chart == chart;
  }

  lemma {:induction false} LoopKeepsActive(table: seq<App>, selected: seq<string>, installed: seq<string>,
                                           rel: Releases, env: Env, i: nat, chart: string)
    requires i <= |table| && HasActive(rel, chart)
    ensures HasActive(Loop(table, selected, installed, rel, env, i).rel, chart)
    decreases |table| - i
  {
    if i == |table| { return; }
    if !Wanted(table[i], selected) || table[i].name in installed {
      LoopKeepsActive(table, selected, installed, rel, env, i + 1, chart);
    } else {
      InstallKeepsActive(rel, table[i].name, env.answer(i), chart);
      LoopKeepsActive(table, selected, installed, InstallRelease(rel, table[i].name, env.answer(i)).0, env, i + 1, chart);
    }
  }

  // A call that replies success leaves a deployed, pending or failed release for every wanted app.
  lemma {:induction false} SuccessLeavesReleases(table: seq<App>, selected: seq<string>, installed: seq<string>,
                                                 start: Releases, rel: Releases, env: Env, i: nat, j: nat)
    requires i <= j < |table| && Wanted(table[j], selected)
    requires Listing(start, selected, installed)
    requires forall c | HasActive(start, c) :: HasActive(rel, c)
    requires Loop(table, selected, installed, rel, env, i).ok
    ensures HasActive(Loop(table, selected, installed, rel, env, i).rel, table[j].name)
    decreases |table| - i
  {
    var name := table[i].name;
    if !Wanted(table[i], selected) || name in installed {
      if i == j {
        assert IsListed(start, selected, name);
        LoopKeepsActive(table, selected, installed, rel, env, i, name);
      } else {
        SuccessLeavesReleases(table, selected, installed, start, rel, env, i + 1, j);
      }
    } else {
      var (rel', ok) := InstallRelease(rel, name, env.answer(i));
      forall c | HasActive(start, c) ensures HasActive(rel', c) { InstallKeepsActive(rel, name, env.answer(i), c); }
      if i == j {
        assert (OPENYURT_NAMESPACE, name) in rel' && HasActive(rel', name);
        LoopKeepsActive(table, selected, installed, rel', env, i + 1, name);
      } else {
        SuccessLeavesReleases(table, selected, installed, start, rel', env, i + 1, j);
      }
    }
  }

  // ---------- The wait for yurt-manager ----------

  // Between position `p` and `q` of the log the polls of one wait have come to their end: with the first
  // poll that found the manager ready, or after 600.
  ghost predicate WaitEnded(log: seq<Event>, poll: nat -> Option<seq<DeploymentStatus>>, p: nat, q: nat) {
    exists w :: WaitAt(log, poll, p, q, w)
  }

  ghost predicate WaitAt(log: seq<Event>, poll: nat -> Option<seq<DeploymentStatus>>, p: nat, q: nat, w: seq<Event>) {
    IsWait(w, poll, 0, 600) && p + 1 + |w| <= q <= |log| && log[p + 1..p + 1 + |w|] == w
  }

  ghost predicate WaitsBeforeLaterInstalls(log: seq<Event>, poll: nat -> Option<seq<DeploymentStatus>>) {
    forall p, q | 0 <= p < q < |log| && log[p] == Install("yurt-manager") && log[q].Install? :: WaitEnded(log, poll, p, q)
  }

  lemma {:induction false} InstallsComeAfterWait(table: seq<App>, selected: seq<string>, installed: seq<string>,
                                                 rel: Releases, env: Env, i: nat)
    requires i <= |table|
    ensures WaitsBeforeLaterInstalls(Loop(table, selected, installed, rel, env, i).log, env.poll)
    decreases |table| - i
  {
    if i == |table| { return; }
    var name, whole := table[i].name, Loop(table, selected, installed, rel, env, i).log;
    if !Wanted(table[i], selected) || name in installed {
      InstallsComeAfterWait(table, selected, installed, rel, env, i + 1);
      return;
    }
    var (rel', ok) := InstallRelease(rel, name, env.answer(i));
    if ok {
      var polls := if name == YURT_MANAGER then Waiting(env.poll, 0) else [];
      var rest := Loop(table, selected, installed, rel', env, i + 1).log;
      InstallsComeAfterWait(table, selected, installed, rel', env, i + 1);
      WaitingIsWait(env.poll, 0);
      PrependKeepsWaits(name, polls, rest, env.poll);
    }
  }

  lemma PrependKeepsWaits(name: string, polls: seq<Event>, rest: seq<Event>, poll: nat -> Option<seq<DeploymentStatus>>)
    requires WaitsBeforeLaterInstalls(rest, poll)
    requires if name == "yurt-manager" then IsWait(polls, poll, 0, 600) else polls == []
    ensures WaitsBeforeLaterInstalls([Install(name)] + polls + rest, poll)
  {
    var log := [Install(name)] + polls + rest;
    forall p, q | 0 <= p < q < |log| && log[p] == Install("yurt-manager") && log[q].Install?
      ensures WaitEnded(log, poll, p, q)
    {
      InstallsOfStep(name, polls, rest, p, q);
      if p == 0 {
        FirstWait(name, polls, rest, poll, q);
      } else {
        WaitMoves([Install(name)] + polls, rest, poll, p, q);
      }
    }
  }

  // Two installs in the log of a step and the rest: the first is the step's or both are in the rest.
  lemma InstallsOfStep(name: string, polls: seq<Event>, rest: seq<Event>, p: nat, q: nat)
    requires forall j | 0 <= j < |polls| :: polls[j].Poll?
    requires p < q < 1 + |polls| + |rest|
    requires ([Install(name)] + polls + rest)[p].Install? && ([Install(name)] + polls + rest)[q].Install?
    ensures
      var log, n := [Install(name)] + polls + rest, 1 + |polls|;
      && q >= n && log[q] == rest[q - n]
      && if p == 0 then log[p] == Install(name) else p >= n && log[p] == rest[p - n]
  {
    var log, n := [Install(name)] + polls + rest, 1 + |polls|;
    assert forall d | 1 <= d < n :: log[d] == polls[d - 1];
  }

  lemma FirstWait(name: string, polls: seq<Event>, rest: seq<Event>, poll: nat -> Option<seq<DeploymentStatus>>, q: nat)
    requires IsWait(polls, poll, 0, 600) && 1 + |polls| <= q <= 1 + |polls| + |rest|
    ensures WaitEnded([Install(name)] + polls + rest, poll, 0, q)
  {
    assert WaitAt([Install(name)] + polls + rest, poll, 0, q, polls);
  }

  lemma WaitMoves(head: seq<Event>, rest: seq<Event>, poll: nat -> Option<seq<DeploymentStatus>>, p: nat, q: nat)
    requires |head| <= p && |head| <= q && WaitEnded(rest, poll, p - |head|, q - |head|)
    ensures WaitEnded(head + rest, poll, p, q)
  {
    var n := |head|;
    var w :| WaitAt(rest, poll, p - n, q - n, w);
    SliceOfAppend(head, rest, p - n + 1, p - n + 1 + |w|);
    assert WaitAt(head + rest, poll, p, q, w);
  }

  lemma SliceOfAppend(a: seq<Event>, b: seq<Event>, x: nat, y: nat)
    requires x <= y <= |b|
    ensures (a + b)[|a| + x..|a| + y] == b[x..y]
  {
  }

  // ---------- Retries ----------

  // One attempt: the selection, the order-free listing it saw, and the environment.
  datatype Attempt = Attempt(selected: seq<string>, installed: seq<string>, env: Env)

  function After(table: seq<App>, rel: Releases, attempts: seq<Attempt>): Releases {
    if attempts == [] then rel
    else
      var before, a := After(table, rel, attempts[..|attempts| - 1]), attempts[|attempts| - 1];
      Call(table, a.selected, a.installed, before, a.env).rel
  }

  // Every listing is the true one at its moment.
  ghost predicate Faithful(table: seq<App>, rel: Releases, attempts: seq<Attempt>) {
    forall n | 0 <= n < |attempts| ::
      Listing(After(table, rel, attempts[..n]), attempts[n].selected, attempts[n].installed)
  }

  // The selection's filter lets every required app through.
  ghost predicate Covers(table: seq<App>, selected: seq<string>) {
    forall app <- table :: app.required ==> FilterMatches(selected, app.name)
  }

  lemma SelectedMatches(selected: seq<string>, name: string)
    requires name in selected
    ensures FilterMatches(selected, name)
  {
    assert OccursAt(name, name, 0);
    assert Contains(name, name);
  }

  // A selection of table names that contains all required apps covers them.
  lemma FullSelectionCovers(table: seq<App>, selected: seq<string>)
    requires forall app <- table | app.required :: app.name in selected
    ensures Covers(table, selected)
  {
    forall app <- table | app.required ensures FilterMatches(selected, app.name) { SelectedMatches(selected, app.name); }
  }

  // In one call, nothing with an active release is installed.
  lemma NoReinstallInCall(table: seq<App>, selected: seq<string>, installed: seq<string>, rel: Releases, env: Env, name: string)
    requires Covers(table, selected) && Listing(rel, selected, installed)
    requires name in InstalledNames(Call(table, selected, installed, rel, env).log)
    ensures !HasActive(rel, name)
  {
    LoopFollowsPlan(table, selected, installed, rel, env, 0);
    PlannedMembers(table, selected, installed, 0);
    assert name in Planned(table, selected, installed, 0);
    var j :| 0 <= j < |table| && table[j].name == name && Wanted(table[j], selected) && name !in installed;
    assert table[j] in table;
    if name in selected { SelectedMatches(selected, name); }
  }

  lemma {:induction false} AttemptsKeepActive(table: seq<App>, rel: Releases, attempts: seq<Attempt>, n: nat, chart: string)
    requires n <= |attempts| && HasActive(After(table, rel, attempts[..n]), chart)
    ensures HasActive(After(table, rel, attempts), chart)
    decreases |attempts|
  {
    if n == |attempts| {
      assert attempts[..n] == attempts;
    } else {
      var m := |attempts| - 1;
      assert attempts[..m][..n] == attempts[..n];
      AttemptsKeepActive(table, rel, attempts[..m], n, chart);
      var a := attempts[m];
      LoopKeepsActive(table, a.selected, a.installed, After(table, rel, attempts[..m]), a.env, 0, chart);
    }
  }

  // What attempt `m` installs.
  function InstalledBy(table: seq<App>, rel: Releases, attempts: seq<Attempt>, m: nat): seq<string>
    requires m < |attempts|
  {
    var a := attempts[m];
    InstalledNames(Call(table, a.selected, a.installed, After(table, rel, attempts[..m]), a.env).log)
  }

  // Over any number of retries and any failures: an app that has a deployed, pending or failed release
  // before attempt `n` is not installed by that attempt or any later one.
  lemma NeverInstalledAgain(table: seq<App>, rel: Releases, attempts: seq<Attempt>, n: nat, m: nat, name: string)
    requires n <= m < |attempts|
    requires Faithful(table, rel, attempts) && forall k | 0 <= k < |attempts| :: Covers(table, attempts[k].selected)
    requires HasActive(After(table, rel, attempts[..n]), name)
    ensures name !in InstalledBy(table, rel, attempts, m)
  {
    assert attempts[..m][..n] == attempts[..n];
    AttemptsKeepActive(table, rel, attempts[..m], n, name);
    var a := attempts[m];
    if name in InstalledBy(table, rel, attempts, m) {
      NoReinstallInCall(table, a.selected, a.installed, After(table, rel, attempts[..m]), a.env, name);
    }
  }

  // A successful reply, at the end of any such sequence, leaves a release for every wanted app.
  lemma SuccessCoversWanted(table: seq<App>, selected: seq<string>, installed: seq<string>, rel: Releases, env: Env, app: App)
    requires Listing(rel, selected, installed) && app in table && (app.required || app.name in selected)
    requires Call(table, selected, installed, rel, env).ok
    ensures HasActive(Call(table, selected, installed, rel, env).rel, app.name)
  {
    var j :| 0 <= j < |table| && table[j] == app;
    SuccessLeavesReleases(table, selected, installed, rel, rel, env, 0, j);
  }

  // ---------- What a call changes, and when it succeeds ----------

  // A call only adds releases, in the program's namespace, under the names it installed and of that chart.
  // They are deployed, except for the one whose installation failed, which is failed or pending.
  ghost predicate Adds(before: Releases, after: Releases, names: seq<string>, ok: bool) {
    && (forall k <- before :: k in after && after[k] == before[k])
    && (forall k <- after | k !in before ::
          && k.0 == "kube-system" && k.1 in names && after[k].chart == k.1
          && (after[k].status == Deployed
              || (!ok && k.1 == names[|names| - 1] && (after[k].status == Failed || after[k].status == Pending))))
    && (ok ==> forall n <- names :: ("kube-system", n) in after && ("kube-system", n) !in before)
  }

  lemma {:induction false} LoopAdds(table: seq<App>, selected: seq<string>, installed: seq<string>,
                                    rel: Releases, env: Env, i: nat)
    requires i <= |table|
    ensures
      var r := Loop(table, selected, installed, rel, env, i);
      Adds(rel, r.rel, InstalledNames(r.log), r.ok)
    decreases |table| - i
  {
    if i == |table| { return; }
    var name := table[i].name;
    if !Wanted(table[i], selected) || name in installed {
      LoopAdds(table, selected, installed, rel, env, i + 1);
      return;
    }
    var (rel', ok) := InstallRelease(rel, name, env.answer(i));
    NamesOfOne(name);
    if ok {
      var polls := if name == YURT_MANAGER then Waiting(env.poll, 0) else [];
      var rest := Loop(table, selected, installed, rel', env, i + 1);
      LoopAdds(table, selected, installed, rel', env, i + 1);
      WaitingIsPolls(env.poll);
      NamesOfStep(name, polls, rest.log);
      OneMoreAdded(rel, rel', rest.rel, name, InstalledNames(rest.log), rest.ok);
    }
  }

  lemma OneMoreAdded(rel: Releases, rel': Releases, after: Releases, name: string, rest: seq<string>, ok: bool)
    requires ("kube-system", name) !in rel && rel' == rel[("kube-system", name) := Release(name, Deployed)]
    requires Adds(rel', after, rest, ok)
    ensures Adds(rel, after, [name] + rest, ok)
  {
    var names := [name] + rest;
    assert names[0] == name && forall n <- rest :: n in names;
    assert rest != [] ==> names[|names| - 1] == rest[|rest| - 1];
    forall k <- after | k !in rel
      ensures k.1 in names
      ensures after[k].status == Deployed
              || (!ok && k.1 == names[|names| - 1] && (after[k].status == Failed || after[k].status == Pending))
    {
      if k in rel' {
        assert k == ("kube-system", name);
      } else {
        assert k.1 in rest;
      }
    }
  }

  // Where a loop that fails has stopped: at a wanted, unlisted app `j`, its last installation. If the
  // app's release name was in use nothing happened to it, and otherwise the cluster's answer says what was
  // left.
  lemma {:induction false} FailureMeaning(table: seq<App>, selected: seq<string>, installed: seq<string>,
                                          rel: Releases, env: Env, i: nat) returns (j: nat)
    requires i <= |table| && forall a, b | 0 <= a < b < |table| :: table[a].name != table[b].name
    requires !Loop(table, selected, installed, rel, env, i).ok
    ensures i <= j < |table| && (table[j].required || table[j].name in selected) && table[j].name !in installed
    ensures
      var r := Loop(table, selected, installed, rel, env, i);
      var key, names := ("kube-system", table[j].name), InstalledNames(r.log);
      && names != [] && names[|names| - 1] == table[j].name
      && if key in rel then key in r.rel && r.rel[key] == rel[key]
         else match env.answer(j)
           case Succeeds => false
           case Refused => key !in r.rel
           case LeavesFailed => key in r.rel && r.rel[key] == Release(table[j].name, Failed)
           case LeavesPending => key in r.rel && r.rel[key] == Release(table[j].name, Pending)
    decreases |table| - i
  {
    var name := table[i].name;
    if !Wanted(table[i], selected) || name in installed {
      j := FailureMeaning(table, selected, installed, rel, env, i + 1);
      return;
    }
    var (rel', ok) := InstallRelease(rel, name, env.answer(i));
    NamesOfOne(name);
    if !ok { return i; }
    var polls := if name == YURT_MANAGER then Waiting(env.poll, 0) else [];
    j := FailureMeaning(table, selected, installed, rel', env, i + 1);
    WaitingIsPolls(env.poll);
    NamesOfStep(name, polls, Loop(table, selected, installed, rel', env, i + 1).log);
    assert table[i].name != table[j].name;
  }

  // Nothing is installed that is neither required nor selected, or that was listed.
  lemma InstallsOnlyWanted(table: seq<App>, selected: seq<string>, installed: seq<string>, rel: Releases, env: Env, name: string)
    requires name in InstalledNames(Call(table, selected, installed, rel, env).log)
    ensures name !in installed && exists app <- table :: app.name == name && (app.required || name in selected)
  {
    LoopFollowsPlan(table, selected, installed, rel, env, 0);
    PlannedMembers(table, selected, installed, 0);
    assert name in Planned(table, selected, installed, 0);
    var j :| 0 <= j < |table| && table[j].name == name && Wanted(table[j], selected) && name !in installed;
    assert table[j] in table;
  }

  // The installations a call still has to make from position `i` on would all go through.
  ghost predicate AllGoThrough(table: seq<App>, selected: seq<string>, installed: seq<string>, rel: Releases, env: Env, i: nat) {
    forall j | i <= j < |table| && Wanted(table[j], selected) && table[j].name !in installed ::
      env.answer(j) == Succeeds && ("kube-system", table[j].name) !in rel
  }

  lemma {:induction false} LoopSucceedsIff(table: seq<App>, selected: seq<string>, installed: seq<string>,
                                           rel: Releases, env: Env, i: nat)
    requires i <= |table| && forall a, b | 0 <= a < b < |table| :: table[a].name != table[b].name
    ensures Loop(table, selected, installed, rel, env, i).ok <==> AllGoThrough(table, selected, installed, rel, env, i)
    decreases |table| - i
  {
    if i < |table| {
      if !Wanted(table[i], selected) || table[i].name in installed {
        LoopSucceedsIff(table, selected, installed, rel, env, i + 1);
      } else {
        LoopSucceedsIff(table, selected, installed, InstallRelease(rel, table[i].name, env.answer(i)).0, env, i + 1);
      }
    }
  }

  // The call replies success exactly when the repository and the listing are there and every wanted,
  // unlisted app can be installed: the cluster lets it through and its release name is free. Then exactly
  // those apps have new deployed releases.
  lemma CallMeaning(table: seq<App>, selected: seq<string>, installed: seq<string>, rel: Releases, env: Env)
    requires forall a, b | 0 <= a < b < |table| :: table[a].name != table[b].name
    ensures
      var r := Call(table, selected, installed, rel, env);
      && (r.ok <==> env.repoOk && env.listOk && AllGoThrough(table, selected, installed, rel, env, 0))
      && Adds(rel, r.rel, InstalledNames(r.log), r.ok)
      && (!env.repoOk || !env.listOk ==> r.rel == rel && r.log == [])
  {
    LoopSucceedsIff(table, selected, installed, rel, env, 0);
    LoopAdds(table, selected, installed, rel, env, 0);
  }

  // ---------- The selection matters ----------

  ghost predicate NoReinstall(table: seq<App>, selected: seq<string>, installed: seq<string>, rel: Releases, env: Env) {
    forall n <- InstalledNames(Call(table, selected, installed, rel, env).log) :: !HasActive(rel, n)
  }

  // A required app that the filter does not match is installed although it has a deployed release.
  lemma UnsafeSelection(table: seq<App>, selected: seq<string>, app: App) returns (rel: Releases, env: Env)
    requires forall a, b | 0 <= a < b < |table| :: table[a].name != table[b].name
    requires app in table && app.required && !FilterMatches(selected, app.name)
    ensures Listing(rel, selected, [])
    ensures HasActive(rel, app.name) && app.name in InstalledNames(Call(table, selected, [], rel, env).log)
  {
    var key := ("other", "old");
    rel := map[key := Release(app.name, Deployed)];
    env := Env(true, true, _ => Succeeds, _ => None);
    assert key in rel && Active(rel[key]);
    forall c ensures !IsListed(rel, selected, c) {
      if HasActive(rel, c) { assert c == app.name; }
    }
    forall j | 0 <= j < |table| ensures (OPENYURT_NAMESPACE, table[j].name) !in rel {
      assert OPENYURT_NAMESPACE[0] != "other"[0];
    }
    LoopSucceedsIff(table, selected, [], rel, env, 0);
    LoopFollowsPlan(table, selected, [], rel, env, 0);
    PlannedMembers(table, selected, [], 0);
    var j :| 0 <= j < |table| && table[j] == app;
  }

  // Exactly the selections whose filter lets every required app through are safe: with any other one a
  // required app that is already installed is installed again.
  lemma SafeSelectionIff(table: seq<App>, selected: seq<string>)
    requires forall a, b | 0 <= a < b < |table| :: table[a].name != table[b].name
    ensures
      (forall rel, installed, env | Listing(rel, selected, installed) :: NoReinstall(table, selected, installed, rel, env))
      <==> Covers(table, selected)
  {
    if Covers(table, selected) {
      forall rel, installed, env | Listing(rel, selected, installed)
        ensures NoReinstall(table, selected, installed, rel, env)
      {
        forall n <- InstalledNames(Call(table, selected, installed, rel, env).log) ensures !HasActive(rel, n) {
          NoReinstallInCall(table, selected, installed, rel, env, n);
        }
      }
    } else {
      var app :| app in table && app.required && !FilterMatches(selected, app.name);
      var rel, env := UnsafeSelection(table, selected, app);
      assert !NoReinstall(table, selected, [], rel, env);
    }
  }

  // The program's own table has distinct names, and selecting only "raven-agent" is not safe for it.
  lemma OwnTable()
    ensures forall a, b | 0 <= a < b < |FULLY_SUPPORTED| :: FULLY_SUPPORTED[a].name != FULLY_SUPPORTED[b].name
    ensures Covers(FULLY_SUPPORTED, [YURT_MANAGER, "yurthub"])
    ensures !Covers(FULLY_SUPPORTED, ["raven-agent"])
  {
    FullSelectionCovers(FULLY_SUPPORTED, [YURT_MANAGER, "yurthub"]);
    assert FULLY_SUPPORTED[1].name == "yurthub" && FULLY_SUPPORTED[1] in FULLY_SUPPORTED;
    assert !Contains("yurthub", "raven-agent");
  }
}
