/** `repoUpdate` of backend/helm_client/repo_update.go: selection of the repositories, and the goroutine
    fan-out that downloads their indexes and appends failures to a shared list without a lock. */
module RepoUpdate {
  import opened Options
  import opened RepoFile
  import opened Sequences

  // ---------- Selecting the repositories ----------

  predicate IsRequested(name: string, names: seq<string>) { name in names }

  // The entries to update, in file order; all of them when no name is given.
  function Selected(f: seq<Entry>, names: seq<string>): (sel: seq<Entry>)
    ensures forall e :: e in sel <==> e in f && (names == [] || e.name in names)
  {
    if f == [] then []
    else
      var front, last := Selected(f[..|f| - 1], names), f[|f| - 1];
      assert f == f[..|f| - 1] + [last];
      if names == [] || IsRequested(last.name, names) then front + [last] else front
  }

  function Requested(names: seq<string>): Entry -> bool {
    (e: Entry) => names == [] || e.name in names
  }

  // File order, every requested position once.
  lemma {:induction false} SelectedKeepsOrder(f: seq<Entry>, names: seq<string>) returns (positions: seq<nat>)
    ensures Picks(f, Requested(names), positions, Selected(f, names))
  {
    if f == [] { return []; }
    var n := |f| - 1;
    var front := SelectedKeepsOrder(f[..n], names);
    if Requested(names)(f[n]) {
      PicksKept(f, Requested(names), front, Selected(f[..n], names));
      return front + [n];
    } else {
      PicksSkipped(f, Requested(names), front, Selected(f[..n], names));
      return front;
    }
  }

  // The loops before the fan-out: None is an early error, before anything is downloaded.
  method SelectRepos(f: seq<Entry>, names: seq<string>) returns (repos: Option<seq<Entry>>)
    ensures repos.None? <==> f == [] || exists n <- names :: !Has(f, n)
    ensures repos.Some? ==> repos.value == Selected(f, names)
  {
    if f == [] { return None; }
    for k := 0 to |names|
      invariant forall n <- names[..k] :: Has(f, n)
    {
      var found := false;
      for j := 0 to |f|
        invariant !found
        invariant forall e <- f[..j] :: e.name != names[k]
      {
        if names[k] == f[j].name { found := true; break; }
      }
      if !found {
        assert !Has(f, names[k]) && names[k] in names;
        return None;
      }
    }
    var sel: seq<Entry> := [];
    for j := 0 to |f|
      invariant sel == Selected(f[..j], names)
    {
      assert f[..j + 1][..j] == f[..j];
      if names == [] || IsRequested(f[j].name, names) { sel := sel + [f[j]]; }
    }
    assert f[..|f|] == f;
    return Some(sel);
  }

  // ---------- The fan-out ----------

  // An append by a failing worker is a read of the list followed by a write-back of the longer list;
  // `version` is how many write-backs the worker had seen when it read.
  datatype Worker =
    | NotStarted
    | Downloading
    | Appending
    | WritingBack(local: seq<string>, version: nat)
    | Finishing(failed: bool)
    | Finished(failed: bool)
  {
    predicate Downloaded() { !NotStarted? && !Downloading? }
    predicate HasFailed() { Appending? || WritingBack? || ((Finishing? || Finished?) && failed) }
    predicate HasWritten() { (Finishing? || Finished?) && failed }
    predicate Counted() { !NotStarted? && !Finished? }
  }

  // `downloads` and `written` log the workers that have downloaded, and that have written back, in order.
  // `torn` records that some write-back overwrote one its worker had not seen.
  datatype State = State(
    cache: map<string, string>,
    started: nat,
    waitCount: int,
    workers: seq<Worker>,
    failList: seq<string>,
    downloads: seq<nat>,
    written: seq<nat>,
    torn: bool,
    returned: Option<bool>)

  datatype Actor = Caller | Goroutine(i: nat, ok: bool)

  function Init(repos: seq<Entry>, cache: map<string, string>): State {
    State(cache, 0, 0, seq(|repos|, _ => NotStarted), [], [], [], false, None)
  }

  // The next step of one actor; the caller does not move while it waits for the wait group.
  function Step(repos: seq<Entry>, s: State, a: Actor): (t: State)
    requires |s.workers| == |repos|
    ensures |t.workers| == |repos|
  {
    match a
    case Caller =>
      if s.started < |repos| then
        s.(started := s.started + 1, waitCount := s.waitCount + 1, workers := s.workers[s.started := Downloading])
      else if s.waitCount == 0 && s.returned.None? then s.(returned := Some(s.failList == []))
      else s
    case Goroutine(i, ok) =>
      if i >= |repos| then s
      else match s.workers[i]
        case Downloading =>
          s.(cache := if ok then s.cache[repos[i].name := repos[i].url] else s.cache,
             downloads := s.downloads + [i],
             workers := s.workers[i := if ok then Finishing(false) else Appending])
        case Appending =>
          s.(workers := s.workers[i := WritingBack(s.failList, |s.written|)])
        case WritingBack(local, version) =>
          s.(failList := local + [repos[i].url], written := s.written + [i],
             torn := s.torn || version != |s.written|,
             workers := s.workers[i := Finishing(true)])
        case Finishing(failed) =>
          s.(waitCount := s.waitCount - 1, workers := s.workers[i := Finished(failed)])
        case _ => s
  }

  function Run(repos: seq<Entry>, cache: map<string, string>, sched: seq<Actor>): (t: State)
    ensures |t.workers| == |repos|
    decreases |sched|
  {
    if sched == [] then Init(repos, cache)
    else Step(repos, Run(repos, cache, sched[..|sched| - 1]), sched[|sched| - 1])
  }

  function Url(repos: seq<Entry>): nat -> string {
    (i: nat) => if i < |repos| then repos[i].url else ""
  }

  ghost function CountedSet(workers: seq<Worker>): set<nat> {
    set i | 0 <= i < |workers| && workers[i].Counted()
  }

  // The workers' own view: which have started, downloaded, failed, and what a half-done append holds.
  ghost predicate WorkersInv(repos: seq<Entry>, s: State) {
    && |s.workers| == |repos| && s.started <= |repos|
    && (forall i | 0 <= i < |repos| :: s.workers[i].NotStarted? <==> i >= s.started)
    && Distinct(s.downloads) && Distinct(s.written)
    && (forall i <- s.downloads :: i < |repos|) && (forall i <- s.written :: i < |repos|)
    && (forall i | 0 <= i < |repos| :: i in s.downloads <==> s.workers[i].Downloaded())
    && (forall i | 0 <= i < |repos| :: i in s.written <==> s.workers[i].HasWritten())
  }

  // The shared list: exactly the written URLs while no append was torn, and shorter afterwards.
  ghost predicate ListInv(repos: seq<Entry>, s: State) {
    && |s.workers| == |repos|
    && (s.failList == [] <==> s.written == [])
    && (!s.torn ==> s.failList == Map(Url(repos), s.written))
    && (s.torn ==> |s.failList| < |s.written|)
    && (forall i | 0 <= i < |repos| && s.workers[i].WritingBack? ::
          var w := s.workers[i];
          && w.version <= |s.written| && |w.local| <= w.version
          && (w.version == |s.written| ==> w.local == s.failList))
  }

  // The wait group counts the workers that have been started and are not done.
  ghost predicate WaitInv(s: State) {
    && s.waitCount == |CountedSet(s.workers)|
    && (s.returned.Some? ==>
          && s.started == |s.workers| && CountedSet(s.workers) == {}
          && s.returned == Some(s.failList == []))
  }

  // The steps of one worker.
  predicate Follows(w: Worker, w': Worker) {
    match w
    case NotStarted => w' == Downloading
    case Downloading => w' == Finishing(false) || w' == Appending
    case Appending => w'.WritingBack?
    case WritingBack(_, _) => w' == Finishing(true)
    case Finishing(failed) => w' == Finished(failed)
    case Finished(_) => false
  }

  // Worker `i` alone has moved from `s` to `t`, and the counters and logs say so.
  ghost predicate Moved(s: State, t: State, i: nat) {
    && i < |s.workers|
    && |t.workers| == |s.workers|
    && t.workers == s.workers[i := t.workers[i]]
    && Follows(s.workers[i], t.workers[i])
    && (s.workers[i].NotStarted? ==> i == s.started)
    && t.started == s.started + (if s.workers[i].NotStarted? then 1 else 0)
    && t.waitCount == s.waitCount + (if s.workers[i].NotStarted? then 1 else if s.workers[i].Finishing? then -1 else 0)
    && t.downloads == (if s.workers[i].Downloading? then s.downloads + [i] else s.downloads)
    && t.written == (if s.workers[i].WritingBack? then s.written + [i] else s.written)
    && t.returned == s.returned
  }

  // A step moves one worker, or lets the caller return, or nothing.
  lemma StepCases(repos: seq<Entry>, s: State, a: Actor)
    requires WorkersInv(repos, s)
    ensures
      var t := Step(repos, s, a);
      || t == s
      || Moved(s, t, if a.Caller? then s.started else a.i)
      || (s.started == |repos| && s.waitCount == 0 && s.returned.None?
          && t == s.(returned := Some(s.failList == [])))
  {
  }

  lemma MovedKeepsWorkersInv(repos: seq<Entry>, s: State, t: State, i: nat)
    requires WorkersInv(repos, s) && Moved(s, t, i)
    ensures WorkersInv(repos, t)
  {
  }

  lemma MovedKeepsWaitInv(repos: seq<Entry>, s: State, t: State, i: nat)
    requires WorkersInv(repos, s) && WaitInv(s) && Moved(s, t, i)
    ensures WaitInv(t)
  {
    CountedUpdate(s.workers, i, t.workers[i]);
    assert s.workers[i].Counted() ==> i in CountedSet(s.workers);
  }

  lemma MovedDecreases(s: State, t: State, i: nat)
    requires Moved(s, t, i)
    ensures Measure(t) < Measure(s)
  {
    SumUpdate(Map(Rank, s.workers), i, Rank(t.workers[i]));
    assert Map(Rank, t.workers) == Map(Rank, s.workers)[i := Rank(t.workers[i])];
  }

  lemma StepKeepsWorkersInv(repos: seq<Entry>, s: State, a: Actor)
    requires WorkersInv(repos, s) && WaitInv(s)
    ensures WorkersInv(repos, Step(repos, s, a)) && WaitInv(Step(repos, s, a))
  {
    var t, i := Step(repos, s, a), if a.Caller? then s.started else a.i;
    StepCases(repos, s, a);
    if Moved(s, t, i) {
      MovedKeepsWorkersInv(repos, s, t, i);
      MovedKeepsWaitInv(repos, s, t, i);
    }
  }

  lemma CountedUpdate(workers: seq<Worker>, i: nat, w: Worker)
    requires i < |workers|
    ensures CountedSet(workers[i := w]) == CountedSet(workers) - {i} + (if w.Counted() then {i} else {})
    ensures |CountedSet(workers[i := w])| ==
            |CountedSet(workers)| - (if workers[i].Counted() then 1 else 0) + (if w.Counted() then 1 else 0)
  {
    assert i in CountedSet(workers) <==> workers[i].Counted();
  }

  lemma WriteBackKeepsListInv(repos: seq<Entry>, s: State, i: nat, ok: bool)
    requires ListInv(repos, s) && i < |repos| && s.workers[i].WritingBack?
    ensures ListInv(repos, Step(repos, s, Goroutine(i, ok)))
  {
    var t := Step(repos, s, Goroutine(i, ok));
    MapAppend(Url(repos), s.written, [i]);
    assert Map(Url(repos), [i]) == [repos[i].url];
    forall j | 0 <= j < |repos| && t.workers[j].WritingBack? ensures t.workers[j] == s.workers[j] {}
  }

  lemma StepKeepsListInv(repos: seq<Entry>, s: State, a: Actor)
    requires ListInv(repos, s)
    ensures ListInv(repos, Step(repos, s, a))
  {
    if a.Goroutine? && a.i < |repos| && s.workers[a.i].WritingBack? {
      WriteBackKeepsListInv(repos, s, a.i, a.ok);
    } else {
      var t := Step(repos, s, a);
      assert t.failList == s.failList && t.written == s.written && t.torn == s.torn;
      forall j | 0 <= j < |repos| && t.workers[j].WritingBack?
        ensures t.workers[j] == s.workers[j] || t.workers[j] == WritingBack(s.failList, |s.written|) {}
    }
  }

  lemma {:induction false} RunKeepsInv(repos: seq<Entry>, cache: map<string, string>, sched: seq<Actor>)
    ensures
      var s := Run(repos, cache, sched);
      WorkersInv(repos, s) && ListInv(repos, s) && WaitInv(s)
    decreases |sched|
  {
    if sched == [] {
      assert CountedSet(Init(repos, cache).workers) == {};
    } else {
      var before := sched[..|sched| - 1];
      RunKeepsInv(repos, cache, before);
      var s, a := Run(repos, cache, before), sched[|sched| - 1];
      StepKeepsWorkersInv(repos, s, a);
      StepKeepsListInv(repos, s, a);
    }
  }

  // ---------- The theorems ----------

  // The wait ends only when every worker is done, and by then each has downloaded exactly once.
  lemma ReturnsAfterAllDownloads(repos: seq<Entry>, cache: map<string, string>, sched: seq<Actor>)
    requires Run(repos, cache, sched).returned.Some?
    ensures
      var s := Run(repos, cache, sched);
      && (forall w <- s.workers :: w.Finished?)
      && |s.downloads| == |repos|
      && forall i: nat | i < |repos| :: multiset(s.downloads)[i] == 1
  {
    RunKeepsInv(repos, cache, sched);
    var s := Run(repos, cache, sched);
    forall i | 0 <= i < |repos| ensures s.workers[i].Finished? { assert i !in CountedSet(s.workers); }
    InUpTo(|repos|);
    SameElements((i: nat) => i, s.downloads, UpTo(|repos|));
    forall i: nat | i < |repos| ensures multiset(s.downloads)[i] == 1 {
      OnceInDistinct(s.downloads, i);
    }
  }

  lemma {:induction false} OnceInDistinct(s: seq<nat>, x: nat)
    requires Distinct(s)
    ensures multiset(s)[x] == if x in s then 1 else 0
  {
    if s != [] {
      OnceInDistinct(s[1..], x);
      assert s == [s[0]] + s[1..];
    }
  }

  // ---------- What the environment answered, read off the schedule alone ----------

  function CallerSteps(sched: seq<Actor>): nat {
    if sched == [] then 0
    else CallerSteps(sched[..|sched| - 1]) + if sched[|sched| - 1].Caller? then 1 else 0
  }

  // The answer to the download of worker `i`: that of its first step after the caller has started it.
  function Answer(sched: seq<Actor>, i: nat): Option<bool> {
    if sched == [] then None
    else
      var front, last := sched[..|sched| - 1], sched[|sched| - 1];
      if Answer(front, i).Some? then Answer(front, i)
      else if last.Goroutine? && last.i == i && CallerSteps(front) > i then Some(last.ok)
      else None
  }

  // A worker has downloaded once it has been answered, and has failed exactly when the answer was false.
  lemma {:induction false} WorkersFollowAnswers(repos: seq<Entry>, cache: map<string, string>, sched: seq<Actor>, i: nat)
    requires i < |repos|
    ensures
      var w := Run(repos, cache, sched).workers[i];
      && (w.NotStarted? <==> CallerSteps(sched) <= i)
      && (w.Downloaded() <==> Answer(sched, i).Some?)
      && (w.HasFailed() <==> Answer(sched, i) == Some(false))
    ensures
      var s := Run(repos, cache, sched);
      s.started == if CallerSteps(sched) < |repos| then CallerSteps(sched) else |repos|
    decreases |sched|
  {
    if sched != [] {
      var front := sched[..|sched| - 1];
      WorkersFollowAnswers(repos, cache, front, i);
      RunKeepsInv(repos, cache, front);
      StepAnswers(repos, Run(repos, cache, front), sched[|sched| - 1], i);
    }
  }

  // Only the step of a downloading worker downloads, and only a refusal makes it fail.
  lemma StepAnswers(repos: seq<Entry>, s: State, a: Actor, i: nat)
    requires WorkersInv(repos, s) && i < |repos|
    ensures
      var w, t := s.workers[i], Step(repos, s, a);
      && (t.workers[i].NotStarted? <==> w.NotStarted? && !(a.Caller? && s.started == i))
      && (t.workers[i].Downloaded() <==> w.Downloaded() || (w.Downloading? && a.Goroutine? && a.i == i))
      && (t.workers[i].HasFailed() <==> w.HasFailed() || (w.Downloading? && a == Goroutine(i, false)))
      && t.started == s.started + (if a.Caller? && s.started < |repos| then 1 else 0)
  {
  }

  // The cache after any schedule: a name holds the URL of an answered download of that name, and every
  // name without one what it held before.
  ghost predicate Fetched(repos: seq<Entry>, sched: seq<Actor>, name: string) {
    exists i: nat | i < |repos| :: repos[i].name == name && Answer(sched, i) == Some(true)
  }

  lemma {:induction false} CacheFollowsAnswers(repos: seq<Entry>, cache: map<string, string>, sched: seq<Actor>)
    requires WellFormed(repos)
    ensures
      var c := Run(repos, cache, sched).cache;
      && (forall i: nat | i < |repos| && Answer(sched, i) == Some(true) ::
            repos[i].name in c && c[repos[i].name] == repos[i].url)
      && (forall name | !Fetched(repos, sched, name) ::
            (name in c <==> name in cache) && (name in c ==> c[name] == cache[name]))
    decreases |sched|
  {
    if sched == [] { return; }
    var front, a := sched[..|sched| - 1], sched[|sched| - 1];
    CacheFollowsAnswers(repos, cache, front);
    var s, t := Run(repos, cache, front), Run(repos, cache, sched);
    forall i: nat | i < |repos| ensures Answer(front, i) == Some(true) ==> Answer(sched, i) == Some(true) {}
    if a.Goroutine? && a.i < |repos| {
      WorkersFollowAnswers(repos, cache, front, a.i);
      WorkersFollowAnswers(repos, cache, sched, a.i);
      if s.workers[a.i].Downloading? && a.ok {
        assert Fetched(repos, sched, repos[a.i].name);
      }
    }
    forall name | !Fetched(repos, sched, name) ensures !Fetched(repos, front, name) {}
  }

  // By the return every download has been answered, and the refused workers are those that wrote.
  lemma AnsweredAtReturn(repos: seq<Entry>, cache: map<string, string>, sched: seq<Actor>, i: nat)
    requires Run(repos, cache, sched).returned.Some?
    ensures i < |repos| ==> Answer(sched, i).Some?
    ensures i in Run(repos, cache, sched).written <==> i < |repos| && Answer(sched, i) == Some(false)
  {
    RunKeepsInv(repos, cache, sched);
    if i < |repos| {
      ReturnsAfterAllDownloads(repos, cache, sched);
      WorkersFollowAnswers(repos, cache, sched, i);
      assert Run(repos, cache, sched).workers[i] in Run(repos, cache, sched).workers;
    }
  }

  // Even with torn appends: the call returns an error exactly when some download was refused.
  lemma ErrorIffSomeFailed(repos: seq<Entry>, cache: map<string, string>, sched: seq<Actor>)
    requires Run(repos, cache, sched).returned.Some?
    ensures Run(repos, cache, sched).returned == Some(false) <==>
            exists i: nat | i < |repos| :: Answer(sched, i) == Some(false)
    ensures forall i: nat | i < |repos| :: Answer(sched, i).Some?
  {
    RunKeepsInv(repos, cache, sched);
    var s := Run(repos, cache, sched);
    forall i: nat ensures i < |repos| ==> Answer(sched, i).Some? { AnsweredAtReturn(repos, cache, sched, i); }
    if s.written != [] { AnsweredAtReturn(repos, cache, sched, s.written[0]); }
    if i: nat :| i < |repos| && Answer(sched, i) == Some(false) { AnsweredAtReturn(repos, cache, sched, i); }
  }

  // The reported list names exactly the repositories whose download was refused, each once.
  ghost predicate ReportsExactly(repos: seq<Entry>, sched: seq<Actor>, failList: seq<string>, order: seq<nat>) {
    && Distinct(order)
    && (forall i: nat :: i in order <==> i < |repos| && Answer(sched, i) == Some(false))
    && failList == Map(Url(repos), order)
  }

  // The failure list is a permutation of exactly the URLs whose download was refused, if and only if no
  // append was torn, that is, if no worker's write-back came after another one it had not seen when it
  // read the list.
  lemma ListExactIffNoTornAppend(repos: seq<Entry>, cache: map<string, string>, sched: seq<Actor>)
    requires Run(repos, cache, sched).returned.Some?
    ensures
      var s := Run(repos, cache, sched);
      (exists order :: ReportsExactly(repos, sched, s.failList, order)) <==> !s.torn
  {
    RunKeepsInv(repos, cache, sched);
    var s := Run(repos, cache, sched);
    forall i: nat ensures i in s.written <==> i < |repos| && Answer(sched, i) == Some(false) {
      AnsweredAtReturn(repos, cache, sched, i);
    }
    if !s.torn { assert ReportsExactly(repos, sched, s.failList, s.written); }
    if order :| ReportsExactly(repos, sched, s.failList, order) {
      SameElements((i: nat) => i, order, s.written);
    }
  }

  // Appends that do not overlap: never two workers between their read and their write-back.
  ghost predicate OneAppender(s: State) {
    forall i, j | 0 <= i < j < |s.workers| :: !(s.workers[i].WritingBack? && s.workers[j].WritingBack?)
  }

  ghost predicate AtomicAppends(repos: seq<Entry>, cache: map<string, string>, sched: seq<Actor>) {
    forall n | 0 <= n <= |sched| :: OneAppender(Run(repos, cache, sched[..n]))
  }

  // With atomic appends nothing is torn, so the list is exact.
  lemma {:induction false} AtomicAppendsAreNotTorn(repos: seq<Entry>, cache: map<string, string>, sched: seq<Actor>)
    requires AtomicAppends(repos, cache, sched)
    ensures
      var s := Run(repos, cache, sched);
      && !s.torn
      && (forall i | 0 <= i < |repos| && s.workers[i].WritingBack? :: s.workers[i].version == |s.written|)
      && (s.returned.Some? ==> exists order :: ReportsExactly(repos, sched, s.failList, order))
    decreases |sched|
  {
    if sched != [] {
      var front := sched[..|sched| - 1];
      forall n | 0 <= n <= |front| ensures OneAppender(Run(repos, cache, front[..n])) { assert front[..n] == sched[..n]; }
      AtomicAppendsAreNotTorn(repos, cache, front);
      assert OneAppender(Run(repos, cache, sched[..|front|]));
    }
    if Run(repos, cache, sched).returned.Some? { ListExactIffNoTornAppend(repos, cache, sched); }
  }

  // A torn append does happen: two failing downloads, of which only one is reported.
  lemma AppendCanBeLost(a: Entry, b: Entry)
    ensures
      var s := Run([a, b], map[], LosingSchedule());
      && s.returned == Some(false) && s.failList == [b.url]
      && Answer(LosingSchedule(), 0) == Some(false) && Answer(LosingSchedule(), 1) == Some(false)
  {
    var repos, l := [a, b], LosingSchedule();
    BothHaveRead(a, b);
    RunTwo(repos, map[], l, 6);
    RunTwo(repos, map[], l, 8);
    assert l[..11] == l && l[..11][..10] == l[..10];
    var s := Run(repos, map[], l);
    assert s.workers == [Finished(true), Finished(true)];
    WorkersFollowAnswers(repos, map[], l, 0);
    WorkersFollowAnswers(repos, map[], l, 1);
  }

  // After six steps both workers have read the empty list and are about to write back.
  lemma BothHaveRead(a: Entry, b: Entry)
    ensures
      Run([a, b], map[], LosingSchedule()[..6]) ==
      State(map[], 2, 2, [WritingBack([], 0), WritingBack([], 0)], [], [0, 1], [], false, None)
  {
    var repos, l := [a, b], LosingSchedule();
    assert l[..0] == [];
    RunTwo(repos, map[], l, 0);
    RunTwo(repos, map[], l, 2);
    RunTwo(repos, map[], l, 4);
  }

  function LosingSchedule(): seq<Actor> {
    [Caller, Caller, Goroutine(0, false), Goroutine(1, false), Goroutine(0, true), Goroutine(1, true),
     Goroutine(0, true), Goroutine(1, true), Goroutine(0, true), Goroutine(1, true), Caller]
  }

  lemma RunTwo(repos: seq<Entry>, cache: map<string, string>, l: seq<Actor>, n: nat)
    requires n + 2 <= |l|
    ensures Run(repos, cache, l[..n + 2]) == Step(repos, Step(repos, Run(repos, cache, l[..n]), l[n]), l[n + 1])
  {
    assert l[..n + 2][..n + 1] == l[..n + 1] && l[..n + 1][..n] == l[..n];
  }

  // Every step, torn or not, keeps every configured repository covered by its own index: a download
  // replaces an index by one from the same URL, and a failed download leaves the old index.
  lemma {:induction false} RunKeepsCover(d: Disk, names: seq<string>, sched: seq<Actor>)
    requires Sound(d)
    ensures Covered(Disk(d.file, Run(Selected(d.file, names), d.cache, sched).cache))
    ensures d.cache.Keys <= Run(Selected(d.file, names), d.cache, sched).cache.Keys
    decreases |sched|
  {
    var repos := Selected(d.file, names);
    if sched != [] {
      var before, a := sched[..|sched| - 1], sched[|sched| - 1];
      RunKeepsCover(d, names, before);
      var s := Run(repos, d.cache, before);
      if a.Goroutine? && a.i < |repos| && s.workers[a.i].Downloading? && a.ok {
        assert repos[a.i] in repos;
        GetUnique(d.file, repos[a.i]);
      }
    }
  }

  // ---------- Progress ----------

  lemma SomeActorMoves(repos: seq<Entry>, cache: map<string, string>, sched: seq<Actor>) returns (a: Actor)
    requires Run(repos, cache, sched).returned.None?
    ensures Step(repos, Run(repos, cache, sched), a) != Run(repos, cache, sched)
  {
    RunKeepsInv(repos, cache, sched);
    var s := Run(repos, cache, sched);
    if s.started < |repos| || s.waitCount == 0 { return Caller; }
    var i :| i in CountedSet(s.workers);
    a := Goroutine(i, true);
    assert Step(repos, s, a).workers[i] != s.workers[i];
  }

  function Rank(w: Worker): nat {
    match w
    case NotStarted => 5
    case Downloading => 4
    case Appending => 3
    case WritingBack(_, _) => 2
    case Finishing(_) => 1
    case Finished(_) => 0
  }

  function Measure(s: State): nat {
    Sum(Map(Rank, s.workers)) + if s.returned.Some? then 0 else 1
  }

  lemma EveryMoveDecreases(repos: seq<Entry>, s: State, a: Actor)
    requires WorkersInv(repos, s)
    ensures Step(repos, s, a) == s || Measure(Step(repos, s, a)) < Measure(s)
  {
    var t, i := Step(repos, s, a), if a.Caller? then s.started else a.i;
    StepCases(repos, s, a);
    if Moved(s, t, i) { MovedDecreases(s, t, i); }
  }
}
