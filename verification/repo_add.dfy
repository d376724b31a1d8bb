/** Concurrent `repoAdd` calls (backend/helm_client/repo_add.go) as a step machine.

    One call is: create the directory, take the file lock, read the file, check and download,
    write the file, unlock. Any number of calls interleave step by step; at every step a flag
    says whether the environment let the system call succeed.
 */
module RepoAdd {
  import opened Options
  import opened RepoFile

  datatype Request = Request(name: string, url: string, noRepoExistsError: bool, updateWhenExists: bool)

  datatype AddError = Io | BadName | NameTaken | AlreadyConfigured | Unreachable

  // Added: a new entry was written. Existing: the same entry was there and the caller asked for no error.
  datatype Outcome = Added | Existing | Failed(error: AddError)

  datatype Pc =
    | Start
    | Waiting
    | Locked
    | Loaded(f: seq<Entry>)
    | Downloaded(f: seq<Entry>)
    | Unlocking(outcome: Outcome)
    | Done(outcome: Outcome)

  datatype Call = Call(req: Request, pc: Pc) {
    function Target(): Entry { Entry(req.name, req.url) }

    // Between taking and releasing the lock.
    predicate Critical() { pc.Locked? || pc.Loaded? || pc.Downloaded? || pc.Unlocking? }

    predicate Succeeded() {
      (pc.Unlocking? || pc.Done?) && (pc.outcome == Added || pc.outcome == Existing)
    }

    predicate HasAdded() { (pc.Unlocking? || pc.Done?) && pc.outcome == Added }
  }

  datatype State = State(lock: Option<nat>, disk: Disk, calls: seq<Call>)

  // Call `i` takes its next step; `ok` is the environment's answer. A call that waits for a lock
  // held by another, or has returned, does not move.
  function Step(s: State, i: nat, ok: bool): (t: State)
    requires i < |s.calls|
    ensures |t.calls| == |s.calls|
  {
    var c := s.calls[i];
    match c.pc
    case Start => s.(calls := s.calls[i := c.(pc := if ok then Waiting else Done(Failed(Io)))])
    case Waiting =>
      if !ok then s.(calls := s.calls[i := c.(pc := Done(Failed(Io)))])  // lock error or timeout
      else if s.lock.Some? then s
      else s.(lock := Some(i), calls := s.calls[i := c.(pc := Locked)])
    case Locked => s.(calls := s.calls[i := c.(pc := if ok then Loaded(s.disk.file) else Unlocking(Failed(Io)))])
    case Loaded(f) => CheckAndDownload(s, i, f, ok)
    case Downloaded(f) =>
      if !ok then s.(calls := s.calls[i := c.(pc := Unlocking(Failed(Io)))])
      else s.(disk := s.disk.(file := Update(f, c.Target())), calls := s.calls[i := c.(pc := Unlocking(Added))])
    case Unlocking(o) => s.(lock := None, calls := s.calls[i := c.(pc := Done(o))])
    case Done(_) => s
  }

  function CheckAndDownload(s: State, i: nat, f: seq<Entry>, ok: bool): (t: State)
    requires i < |s.calls|
    ensures |t.calls| == |s.calls|
  {
    var c := s.calls[i];
    var fetched := s.disk.(cache := s.disk.cache[c.req.name := c.req.url]);
    if !SlashFree(c.req.name) then
      s.(calls := s.calls[i := c.(pc := Unlocking(Failed(BadName)))])
    else if Has(f, c.req.name) then
      if Get(f, c.req.name) != c.Target() then
        s.(calls := s.calls[i := c.(pc := Unlocking(Failed(NameTaken)))])
      else
        // the result of the forced index update is ignored
        s.(disk := if c.req.updateWhenExists && ok then fetched else s.disk,
           calls := s.calls[i := c.(pc := Unlocking(
             if c.req.noRepoExistsError then Existing else Failed(AlreadyConfigured)))])
    else if !ok then
      s.(calls := s.calls[i := c.(pc := Unlocking(Failed(Unreachable)))])
    else
      s.(disk := fetched, calls := s.calls[i := c.(pc := Downloaded(f))])
  }

  // A schedule: which call moves, and the environment's answer. Entries naming no call are skipped.
  type Schedule = seq<(nat, bool)>

  function Run(s: State, sched: Schedule): (t: State)
    ensures |t.calls| == |s.calls|
    decreases |sched|
  {
    if sched == [] then s
    else
      var before := Run(s, sched[..|sched| - 1]);
      var (i, ok) := sched[|sched| - 1];
      if i < |before.calls| then Step(before, i, ok) else before
  }

  ghost predicate Initial(s: State) {
    && WellFormed(s.disk.file)
    && s.lock == None
    && forall c <- s.calls :: c.pc == Start
  }

  // ---------- The invariant ----------

  ghost predicate CallInv(s: State, i: nat)
    requires i < |s.calls|
  {
    var c := s.calls[i];
    && (c.Critical() <==> s.lock == Some(i))
    && (c.pc.Loaded? || c.pc.Downloaded? ==> c.pc.f == s.disk.file)
    && (c.pc.Downloaded? ==>
          && !Has(s.disk.file, c.req.name) && SlashFree(c.req.name)
          && c.req.name in s.disk.cache && s.disk.cache[c.req.name] == c.req.url)
    && (c.Succeeded() ==> c.Target() in s.disk.file)
  }

  ghost predicate Inv(s: State) {
    && WellFormed(s.disk.file)
    && (forall i | 0 <= i < |s.calls| :: CallInv(s, i))
    && (forall i, j | 0 <= i < j < |s.calls| && s.calls[i].HasAdded() && s.calls[j].HasAdded() ::
          s.calls[i].req.name != s.calls[j].req.name)
  }

  // The step in which call `i` writes the file.
  predicate Commits(s: State, i: nat, ok: bool)
    requires i < |s.calls|
  {
    s.calls[i].pc.Downloaded? && ok
  }

  // A step moves one call only; that call keeps its request, and becomes an adder by committing only.
  lemma StepMovesOne(s: State, i: nat, ok: bool)
    requires i < |s.calls|
    ensures
      var t := Step(s, i, ok);
      && t.calls == s.calls[i := t.calls[i]]
      && t.calls[i].req == s.calls[i].req
      && (s.calls[i].pc.Done? ==> t == s)
      && (t.calls[i].HasAdded() <==> s.calls[i].HasAdded() || Commits(s, i, ok))
      && (Commits(s, i, ok) ==> !s.calls[i].HasAdded())
      && (!Commits(s, i, ok) ==> t.disk.file == s.disk.file)
      && (!s.calls[i].Critical() ==> t.disk == s.disk)
  {
  }

  // A commit appends the entry, whose name is new.
  lemma CommitAppends(s: State, i: nat)
    requires i < |s.calls| && CallInv(s, i) && s.calls[i].pc.Downloaded?
    ensures Step(s, i, true).disk.file == s.disk.file + [s.calls[i].Target()]
    ensures WellFormed(s.disk.file) ==> WellFormed(Step(s, i, true).disk.file)
  {
    var e := s.calls[i].Target();
    UpdateAppends(s.disk.file, e);
    assert forall x <- s.disk.file :: x.name != e.name;
  }

  lemma StepKeepsOthers(s: State, i: nat, ok: bool, j: nat)
    requires i < |s.calls| && j < |s.calls| && i != j && CallInv(s, i) && CallInv(s, j)
    ensures CallInv(Step(s, i, ok), j)
  {
    StepMovesOne(s, i, ok);
    if Commits(s, i, ok) { CommitAppends(s, i); }
  }

  lemma StepKeepsOwn(s: State, i: nat, ok: bool)
    requires i < |s.calls| && CallInv(s, i) && WellFormed(s.disk.file)
    ensures CallInv(Step(s, i, ok), i)
  {
    if Commits(s, i, ok) { CommitAppends(s, i); }
  }

  lemma StepKeepsCover(s: State, i: nat, ok: bool)
    requires i < |s.calls| && CallInv(s, i) && WellFormed(s.disk.file) && Covered(s.disk)
    ensures Covered(Step(s, i, ok).disk)
  {
    var c := s.calls[i];
    StepMovesOne(s, i, ok);
    if Commits(s, i, ok) { CommitAppends(s, i); }
    if c.pc.Loaded? && Has(s.disk.file, c.req.name) {
      GetUnique(s.disk.file, Get(s.disk.file, c.req.name));
    }
  }

  // One step keeps the invariant and only ever appends to the file.
  lemma StepKeepsInv(s: State, i: nat, ok: bool)
    requires Inv(s) && i < |s.calls|
    ensures
      var t := Step(s, i, ok);
      && Inv(t)
      && s.disk.file <= t.disk.file
      && (Covered(s.disk) ==> Covered(t.disk))
  {
    var t, c := Step(s, i, ok), s.calls[i];
    assert CallInv(s, i);
    StepMovesOne(s, i, ok);
    if Covered(s.disk) { StepKeepsCover(s, i, ok); }
    forall j | 0 <= j < |t.calls| ensures CallInv(t, j) {
      assert CallInv(s, j);
      if j == i { StepKeepsOwn(s, i, ok); } else { StepKeepsOthers(s, i, ok, j); }
    }
    if Commits(s, i, ok) {
      CommitAppends(s, i);
      forall j | 0 <= j < |s.calls| && s.calls[j].HasAdded() ensures s.calls[j].req.name != c.req.name {
        assert CallInv(s, j);
      }
    }
  }

  lemma {:induction false} RunKeepsInv(s: State, sched: Schedule)
    requires Inv(s)
    ensures Inv(Run(s, sched))
    ensures forall j | 0 <= j < |s.calls| :: Run(s, sched).calls[j].req == s.calls[j].req
    ensures forall j | 0 <= j < |s.calls| && s.calls[j].pc.Done? :: Run(s, sched).calls[j] == s.calls[j]
    ensures s.disk.file <= Run(s, sched).disk.file
    ensures Covered(s.disk) ==> Covered(Run(s, sched).disk)
    decreases |sched|
  {
    if sched != [] {
      var before := sched[..|sched| - 1];
      RunKeepsInv(s, before);
      var (i, ok) := sched[|sched| - 1];
      if i < |s.calls| {
        StepKeepsInv(Run(s, before), i, ok);
        StepMovesOne(Run(s, before), i, ok);
      }
    }
  }

  lemma InitialIsInv(s: State)
    requires Initial(s)
    ensures Inv(s)
  {
    forall i | 0 <= i < |s.calls| ensures CallInv(s, i) && s.calls[i].pc == Start {
      assert s.calls[i] in s.calls;
    }
  }

  lemma {:induction false} RunConcat(s: State, first: Schedule, second: Schedule)
    ensures Run(s, first + second) == Run(Run(s, first), second)
    decreases |second|
  {
    if second == [] {
      assert first + second == first;
    } else {
      var n := |second| - 1;
      RunConcat(s, first, second[..n]);
      assert (first + second)[..|first + second| - 1] == first + second[..n];
    }
  }

  // ---------- The theorems ----------

  lemma MutualExclusion(s: State, sched: Schedule, i: nat, j: nat)
    requires Initial(s) && i < |s.calls| && j < |s.calls|
    requires Run(s, sched).calls[i].Critical() && Run(s, sched).calls[j].Critical()
    ensures i == j
  {
    InitialIsInv(s);
    RunKeepsInv(s, sched);
    assert CallInv(Run(s, sched), i) && CallInv(Run(s, sched), j);
  }

  // In every interleaving the file keeps distinct slash-free names and only grows, and if every
  // configured repository had its index cached at the start it has it at every step.
  lemma FileStaysSound(s: State, sched: Schedule)
    requires Initial(s)
    ensures WellFormed(Run(s, sched).disk.file)
    ensures s.disk.file <= Run(s, sched).disk.file
    ensures Covered(s.disk) ==> Covered(Run(s, sched).disk)
  {
    InitialIsInv(s);
    RunKeepsInv(s, sched);
  }

  // No lost update: once a call has returned success, its entry is in the file, as the only one of its
  // name, after every continuation of the run.
  lemma NoLostUpdate(s: State, sched: Schedule, later: Schedule, i: nat)
    requires Initial(s) && i < |s.calls|
    requires Run(s, sched).calls[i].pc == Done(Added) || Run(s, sched).calls[i].pc == Done(Existing)
    ensures
      var f := Run(s, sched + later).disk.file;
      var e := s.calls[i].Target();
      e in f && Has(f, e.name) && Get(f, e.name) == e && forall x <- f :: x.name == e.name ==> x == e
  {
    InitialIsInv(s);
    RunKeepsInv(s, sched);
    RunKeepsInv(Run(s, sched), later);
    RunConcat(s, sched, later);
    assert CallInv(Run(s, sched + later), i);
    GetUnique(Run(s, sched + later).disk.file, s.calls[i].Target());
  }

  // Calls that succeed under one name agree on the URL, and only one of them wrote the entry.
  lemma OneWinner(s: State, sched: Schedule, i: nat, j: nat)
    requires Initial(s) && i < |s.calls| && j < |s.calls|
    requires Run(s, sched).calls[i].Succeeded() && Run(s, sched).calls[j].Succeeded()
    requires s.calls[i].req.name == s.calls[j].req.name
    ensures s.calls[i].req.url == s.calls[j].req.url
    ensures Run(s, sched).calls[i].HasAdded() && Run(s, sched).calls[j].HasAdded() ==> i == j
  {
    InitialIsInv(s);
    RunKeepsInv(s, sched);
    var t := Run(s, sched);
    assert CallInv(t, i) && CallInv(t, j);
    GetUnique(t.disk.file, t.calls[i].Target());
  }

  // The environment's answers at the steps in which call `i` moved.
  function AnswersTo(s: State, sched: Schedule, i: nat): seq<bool>
    requires i < |s.calls|
    decreases |sched|
  {
    if sched == [] then []
    else
      var front := sched[..|sched| - 1];
      var (j, ok) := sched[|sched| - 1];
      var u := Run(s, front);
      AnswersTo(s, front, i) + if j == i && Step(u, i, ok).calls[i] != u.calls[i] then [ok] else []
  }

  ghost predicate TrueUpTo(answers: seq<bool>, n: nat) {
    n <= |answers| && forall k | 0 <= k < n :: answers[k]
  }

  // How far a call can have come on the answers it got: directory, lock, read, download, write, unlock.
  ghost predicate Explains(answers: seq<bool>, pc: Pc) {
    match pc
    case Start => answers == []
    case Waiting => |answers| == 1 && TrueUpTo(answers, 1)
    case Locked => |answers| == 2 && TrueUpTo(answers, 2)
    case Loaded(_) => |answers| == 3 && TrueUpTo(answers, 3)
    case Downloaded(_) => |answers| == 4 && TrueUpTo(answers, 4)
    case Unlocking(Added) => TrueUpTo(answers, 5)
    case Done(Added) => TrueUpTo(answers, 5)
    case Unlocking(Existing) => TrueUpTo(answers, 3)
    case Done(Existing) => TrueUpTo(answers, 3)
    case Unlocking(Failed(Unreachable)) => TrueUpTo(answers, 3) && |answers| > 3 && !answers[3]
    case Done(Failed(Unreachable)) => TrueUpTo(answers, 3) && |answers| > 3 && !answers[3]
    case _ => true
  }

  lemma {:induction false} AnswersExplain(s: State, sched: Schedule, i: nat)
    requires Initial(s) && i < |s.calls|
    ensures Explains(AnswersTo(s, sched, i), Run(s, sched).calls[i].pc)
    decreases |sched|
  {
    if sched == [] {
      assert s.calls[i] in s.calls;
    } else {
      var front := sched[..|sched| - 1];
      var (j, ok) := sched[|sched| - 1];
      AnswersExplain(s, front, i);
      if j < |s.calls| {
        StepMovesOne(Run(s, front), j, ok);
        if j == i { StepExplains(Run(s, front), i, ok, AnswersTo(s, front, i)); }
      }
    }
  }

  lemma StepExplains(u: State, i: nat, ok: bool, answers: seq<bool>)
    requires i < |u.calls| && Explains(answers, u.calls[i].pc)
    ensures
      var t := Step(u, i, ok);
      Explains(answers + if t.calls[i] != u.calls[i] then [ok] else [], t.calls[i].pc)
  {
    assert answers + [] == answers;
  }

  // In every interleaving a call adds its entry only if its directory, lock, read, download and write
  // were all let through, and accepts an existing one only after a successful read.
  lemma SuccessNeedsEveryAnswer(s: State, sched: Schedule, i: nat)
    requires Initial(s) && i < |s.calls|
    ensures Run(s, sched).calls[i].HasAdded() ==> TrueUpTo(AnswersTo(s, sched, i), 5)
    ensures Run(s, sched).calls[i].Succeeded() ==> TrueUpTo(AnswersTo(s, sched, i), 3)
  {
    AnswersExplain(s, sched, i);
  }

  // A call whose download is refused has changed nothing by it, replies that the repository cannot be
  // reached, and changes nothing ever after, whatever the other calls do.
  lemma {:induction false} FailedDownloadNeverAdds(s: State, first: Schedule, later: Schedule, i: nat)
    requires i < |s.calls|
    requires
      var c := Run(s, first).calls[i];
      c.pc.Loaded? && SlashFree(c.req.name) && !Has(c.pc.f, c.req.name)
    ensures Run(s, first + [(i, false)]).disk == Run(s, first).disk
    ensures
      var t := Run(s, first + [(i, false)] + later);
      && (t.calls[i].pc == Unlocking(Failed(Unreachable)) || t.calls[i].pc == Done(Failed(Unreachable)))
      && forall ok :: Step(t, i, ok).disk == t.disk
    decreases |later|
  {
    var refused := first + [(i, false)];
    assert refused[..|refused| - 1] == first;
    if later == [] {
      assert refused + later == refused;
    } else {
      var n := |later| - 1;
      FailedDownloadNeverAdds(s, first, later[..n], i);
      var whole := refused + later;
      assert whole[..|whole| - 1] == refused + later[..n];
      var (j, ok) := later[n];
      if j < |s.calls| { StepMovesOne(Run(s, refused + later[..n]), j, ok); }
    }
  }

  function Rank(pc: Pc): nat {
    match pc
    case Start => 6
    case Waiting => 5
    case Locked => 4
    case Loaded(_) => 3
    case Downloaded(_) => 2
    case Unlocking(_) => 1
    case Done(_) => 0
  }

  // No deadlock: until all calls have returned, one of them can move, and every move brings the moved
  // call closer to its return and no other call further away.
  lemma SomeCallMoves(s: State, sched: Schedule) returns (i: nat)
    requires Initial(s) && exists c <- Run(s, sched).calls :: !c.pc.Done?
    ensures i < |s.calls|
    ensures
      var u := Run(s, sched);
      var t := Step(u, i, true);
      Rank(t.calls[i].pc) < Rank(u.calls[i].pc) && forall j | 0 <= j < |s.calls| && j != i :: t.calls[j] == u.calls[j]
  {
    InitialIsInv(s);
    RunKeepsInv(s, sched);
    var u := Run(s, sched);
    if u.lock.Some? && u.lock.value < |s.calls| {
      i := u.lock.value;
    } else {
      var c :| c in u.calls && !c.pc.Done?;
      i :| 0 <= i < |u.calls| && u.calls[i] == c;
      LockHolderExists(s, sched);
    }
    assert CallInv(u, i);
  }

  // The lock is only ever held by one of the calls.
  lemma {:induction false} LockHolderExists(s: State, sched: Schedule)
    requires Initial(s)
    ensures Run(s, sched).lock.Some? ==> Run(s, sched).lock.value < |s.calls|
    decreases |sched|
  {
    if sched != [] { LockHolderExists(s, sched[..|sched| - 1]); }
  }

  // How many calls have written their entry.
  function AddedCount(calls: seq<Call>): nat {
    if calls == [] then 0 else (if calls[0].HasAdded() then 1 else 0) + AddedCount(calls[1..])
  }

  lemma {:induction false} AddedCountUpdate(calls: seq<Call>, i: nat, c: Call)
    requires i < |calls|
    ensures AddedCount(calls[i := c]) ==
            AddedCount(calls) - (if calls[i].HasAdded() then 1 else 0) + (if c.HasAdded() then 1 else 0)
  {
    if i == 0 {
      assert calls[i := c][1..] == calls[1..];
    } else {
      AddedCountUpdate(calls[1..], i - 1, c);
      assert calls[i := c][1..] == calls[1..][i - 1 := c];
    }
  }

  // The entry `e` was written by some call.
  ghost predicate AddedBySome(calls: seq<Call>, e: Entry) {
    exists c <- calls :: c.HasAdded() && c.Target() == e
  }

  lemma StepKeepsAddedBy(s: State, i: nat, ok: bool, e: Entry)
    requires i < |s.calls| && AddedBySome(s.calls, e)
    ensures AddedBySome(Step(s, i, ok).calls, e)
  {
    StepMovesOne(s, i, ok);
    var k :| 0 <= k < |s.calls| && s.calls[k].HasAdded() && s.calls[k].Target() == e;
    assert Step(s, i, ok).calls[k] in Step(s, i, ok).calls;
  }

  // Conservation: the file is the initial one followed by exactly one entry per call that added.
  lemma {:induction false} FileIsInitialPlusAdded(s: State, sched: Schedule)
    requires Initial(s)
    ensures
      var t := Run(s, sched);
      && s.disk.file <= t.disk.file
      && |t.disk.file| == |s.disk.file| + AddedCount(t.calls)
      && forall n | |s.disk.file| <= n < |t.disk.file| :: AddedBySome(t.calls, t.disk.file[n])
    decreases |sched|
  {
    InitialIsInv(s);
    RunKeepsInv(s, sched);
    if sched == [] {
      NoneAddedYet(s.calls);
      return;
    }
    var before := sched[..|sched| - 1];
    var (i, ok) := sched[|sched| - 1];
    var u, t := Run(s, before), Run(s, sched);
    FileIsInitialPlusAdded(s, before);
    RunKeepsInv(s, before);
    if i < |s.calls| {
      assert CallInv(u, i);
      StepMovesOne(u, i, ok);
      AddedCountUpdate(u.calls, i, t.calls[i]);
      if Commits(u, i, ok) {
        CommitAppends(u, i);
        assert t.calls[i] in t.calls && t.calls[i].Target() == u.calls[i].Target();
      }
      forall n | |s.disk.file| <= n < |u.disk.file| ensures AddedBySome(t.calls, u.disk.file[n]) {
        StepKeepsAddedBy(u, i, ok, u.disk.file[n]);
      }
    }
  }

  lemma {:induction false} NoneAddedYet(calls: seq<Call>)
    requires forall c <- calls :: c.pc == Start
    ensures AddedCount(calls) == 0
  {
    if calls != [] {
      assert calls[0] in calls;
      assert forall c <- calls[1..] :: c in calls;
      NoneAddedYet(calls[1..]);
    }
  }
}
