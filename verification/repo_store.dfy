/** The repository store used by one caller at a time: `repoAdd`, `repoRemove` and `buildIndex` as methods
    on the file and the cache, and what holds at every intermediate step of any sequence of calls,
    including calls that stop or fail between two steps. */
module RepoStore {
  import opened Options
  import opened RepoFile
  import opened RepoAdd
  import U = RepoUpdate
  import opened Sequences

  // ---------- repoRemove (backend/helm_client/repo_remove.go) ----------

  datatype RemoveOutcome = Removed | NothingConfigured | NotFound | IoError | Stopped

  // `written` names have been taken out of the file, and the indexes of `cleaned` of them deleted.
  datatype RemoveResult = RemoveResult(disk: Disk, outcome: RemoveOutcome, written: nat, cleaned: nat)

  // For every name: drop it from the file, then delete its index. `oks` answers the write and the
  // deletion of each name in turn; where it ends, the call is stopped.
  function RemoveRun(d: Disk, names: seq<string>, oks: seq<bool>): RemoveResult
    decreases |names|
  {
    if names == [] then RemoveResult(d, Removed, 0, 0)
    else if !Has(d.file, names[0]) then RemoveResult(d, NotFound, 0, 0)
    else if oks == [] || !oks[0] then RemoveResult(d, if oks == [] then Stopped else IoError, 0, 0)
    else
      var d1 := d.(file := Remove(d.file, names[0]));
      if |oks| == 1 || !oks[1] then RemoveResult(d1, if |oks| == 1 then Stopped else IoError, 1, 0)
      else
        var r := RemoveRun(d1.(cache := d1.cache - {names[0]}), names[1..], oks[2..]);
        r.(written := r.written + 1, cleaned := r.cleaned + 1)
  }

  function RemoveCall(d: Disk, names: seq<string>, oks: seq<bool>): RemoveResult {
    if d.file == [] then RemoveResult(d, NothingConfigured, 0, 0) else RemoveRun(d, names, oks)
  }

  // The file without the given names, in the old order.
  function Minus(f: seq<Entry>, names: seq<string>): seq<Entry> {
    if f == [] then []
    else (if f[0].name in names then [] else [f[0]]) + Minus(f[1..], names)
  }

  lemma {:induction false} MinusNothing(f: seq<Entry>)
    ensures Minus(f, []) == f
  {
    if f != [] { MinusNothing(f[1..]); }
  }

  lemma {:induction false} MinusAfterRemove(f: seq<Entry>, name: string, names: seq<string>)
    ensures Minus(Remove(f, name), names) == Minus(f, [name] + names)
  {
    if f != [] {
      MinusAfterRemove(f[1..], name, names);
      assert ([f[0]] + Remove(f[1..], name))[1..] == Remove(f[1..], name);
      assert [] + Remove(f[1..], name) == Remove(f[1..], name);
    }
  }

  ghost function Names(s: seq<string>): set<string> { set n | n in s }

  lemma PrefixCons(names: seq<string>, k: nat)
    requires k < |names|
    ensures names[..k + 1] == [names[0]] + names[1..][..k]
    ensures Names(names[..k + 1]) == {names[0]} + Names(names[1..][..k])
  {
  }

  // File and cache are what is left after the first `r.written` and `r.cleaned` names.
  ghost predicate Reflects(d: Disk, names: seq<string>, r: RemoveResult) {
    && r.cleaned <= r.written <= |names| && r.written <= r.cleaned + 1
    && r.disk.file == Minus(d.file, names[..r.written])
    && r.disk.cache == d.cache - Names(names[..r.cleaned])
  }

  // Whatever the environment does, file and cache reflect a prefix of the requested names, the cache
  // at most one name behind the file; success means all of them, and a missing name all before it.
  lemma {:induction false} RemoveReflectsPrefix(d: Disk, names: seq<string>, oks: seq<bool>)
    ensures
      var r := RemoveRun(d, names, oks);
      && Reflects(d, names, r)
      && (r.outcome == Removed ==> r.written == r.cleaned == |names|)
      && (r.outcome == NotFound ==> r.written == r.cleaned < |names| && !Has(r.disk.file, names[r.written]))
    decreases |names|
  {
    MinusNothing(d.file);
    assert d.cache - Names([]) == d.cache;
    if names == [] || !Has(d.file, names[0]) || oks == [] || !oks[0] { return; }
    var d1 := d.(file := Remove(d.file, names[0]));
    if |oks| == 1 || !oks[1] {
      MinusAfterRemove(d.file, names[0], []);
      MinusNothing(d1.file);
      PrefixCons(names, 0);
      assert names[1..][..0] == [];
      return;
    }
    var d2 := d1.(cache := d1.cache - {names[0]});
    RemoveReflectsPrefix(d2, names[1..], oks[2..]);
    ReflectsOneMore(d, names, RemoveRun(d2, names[1..], oks[2..]));
  }

  lemma ReflectsOneMore(d: Disk, names: seq<string>, rest: RemoveResult)
    requires names != []
    requires Reflects(Disk(Remove(d.file, names[0]), d.cache - {names[0]}), names[1..], rest)
    ensures Reflects(d, names, rest.(written := rest.written + 1, cleaned := rest.cleaned + 1))
  {
    MinusAfterRemove(d.file, names[0], names[1..][..rest.written]);
    PrefixCons(names, rest.written);
    PrefixCons(names, rest.cleaned);
    assert d.cache - {names[0]} - Names(names[1..][..rest.cleaned]) == d.cache - Names(names[..rest.cleaned + 1]);
  }

  // The answers a removal has used: all were true but the one, if any, that made it fail.
  lemma {:induction false} RemoveUsesAnswers(d: Disk, names: seq<string>, oks: seq<bool>)
    ensures
      var r := RemoveRun(d, names, oks);
      var used := r.written + r.cleaned;
      && used <= |oks| && (forall i | 0 <= i < used :: oks[i])
      && r.outcome != NothingConfigured
      && (r.outcome == IoError ==> used < |oks| && !oks[used])
      && (r.outcome == Stopped ==> used == |oks|)
    decreases |names|
  {
    if names != [] && |oks| > 1 && oks[0] && oks[1] {
      RemoveUsesAnswers(Disk(Remove(d.file, names[0]), d.cache - {names[0]}), names[1..], oks[2..]);
      assert forall i | 2 <= i < |oks| :: oks[i] == oks[2..][i - 2];
    }
  }

  ghost predicate AllTrue(oks: seq<bool>, n: nat) {
    n <= |oks| && forall i | 0 <= i < n :: oks[i]
  }

  lemma {:induction false} RemoveSucceedsIff(d: Disk, names: seq<string>, oks: seq<bool>)
    ensures
      RemoveRun(d, names, oks).outcome == Removed <==>
      Distinct(names) && (forall n <- names :: Has(d.file, n)) && AllTrue(oks, 2 * |names|)
    decreases |names|
  {
    if names == [] { return; }
    var n, rest := names[0], names[1..];
    assert names == [n] + rest;
    if Has(d.file, n) && |oks| > 1 && oks[0] && oks[1] {
      var d1 := Disk(Remove(d.file, n), d.cache - {n});
      RemoveSucceedsIff(d1, rest, oks[2..]);
      HasAfterRemove(d.file, n);
      assert AllTrue(oks, 2 * |names|) <==> AllTrue(oks[2..], 2 * |rest|) by {
        assert forall i | 2 <= i < |oks| :: oks[i] == oks[2..][i - 2];
      }
      assert Distinct(names) <==> Distinct(rest) && n !in rest by { DistinctCons(n, rest); }
    }
  }

  lemma HasAfterRemove(f: seq<Entry>, name: string)
    ensures forall m :: Has(Remove(f, name), m) <==> Has(f, m) && m != name
  {
    RemoveMembers(f, name);
    forall m | Has(f, m) && m != name ensures Has(Remove(f, name), m) {
      var e :| e in f && e.name == m;
      assert e in Remove(f, name);
    }
  }

  lemma DistinctCons(x: string, rest: seq<string>)
    ensures Distinct([x] + rest) <==> Distinct(rest) && x !in rest
  {
    var s := [x] + rest;
    if Distinct(s) {
      forall i, j | 0 <= i < j < |rest| ensures rest[i] != rest[j] { assert s[i + 1] != s[j + 1]; }
      forall k | 0 <= k < |rest| ensures rest[k] != x { assert s[0] != s[k + 1]; }
    }
    if Distinct(rest) && x !in rest {
      forall i, j | 0 <= i < j < |s| ensures s[i] != s[j] {
        assert s[j] == rest[j - 1] && s[j] in rest;
        if i > 0 { assert s[i] == rest[i - 1]; }
      }
    }
  }

  // The whole call, on every disk and for every pattern of answers. It succeeds exactly when the file is
  // not empty, the names are distinct and all present, and every write and deletion is let through; then
  // file and cache are the old ones without those names. An empty file is reported and left alone.
  lemma RemoveCallMeaning(d: Disk, names: seq<string>, oks: seq<bool>)
    ensures
      var r := RemoveCall(d, names, oks);
      && (r.outcome == Removed <==>
            && d.file != [] && Distinct(names) && (forall n <- names :: Has(d.file, n)) && AllTrue(oks, 2 * |names|))
      && (r.outcome == Removed ==> r.disk == Disk(Minus(d.file, names), d.cache - Names(names)))
      && (r.outcome == NothingConfigured <==> d.file == [])
      && (d.file == [] ==> r.disk == d)
  {
    if d.file != [] {
      RemoveSucceedsIff(d, names, oks);
      RemoveUsesAnswers(d, names, oks);
      RemoveReflectsPrefix(d, names, oks);
      assert names[..|names|] == names;
    }
  }

  // A call that does not succeed: a missing name stops it with all names before that one gone, a refused
  // write or deletion or being stopped after the answers so far; file and cache reflect a prefix of the
  // names, the cache at most one behind.
  lemma RemoveCallFailures(d: Disk, names: seq<string>, oks: seq<bool>)
    ensures
      var r := RemoveCall(d, names, oks);
      && Reflects(d, names, r)
      && (r.outcome == NotFound ==> r.written == r.cleaned < |names| && !Has(r.disk.file, names[r.written]))
      && (r.outcome == IoError ==> r.written + r.cleaned < |oks| && !oks[r.written + r.cleaned])
      && (r.outcome == Stopped ==> r.written + r.cleaned == |oks|)
  {
    if d.file == [] {
      assert names[..0] == [] && d.cache - Names([]) == d.cache;
    } else {
      RemoveUsesAnswers(d, names, oks);
      RemoveReflectsPrefix(d, names, oks);
    }
  }

  function Unnamed(names: seq<string>): Entry -> bool {
    (e: Entry) => e.name !in names
  }

  lemma {:induction false} MinusSnoc(f: seq<Entry>, e: Entry, names: seq<string>)
    ensures Minus(f + [e], names) == Minus(f, names) + (if e.name in names then [] else [e])
  {
    if f != [] {
      MinusSnoc(f[1..], e, names);
      assert (f + [e])[1..] == f[1..] + [e];
    }
  }

  // What is left keeps the file's order, every unnamed position once.
  lemma {:induction false} MinusKeepsOrder(f: seq<Entry>, names: seq<string>) returns (positions: seq<nat>)
    ensures Picks(f, Unnamed(names), positions, Minus(f, names))
  {
    if f == [] { return []; }
    var n := |f| - 1;
    var front := MinusKeepsOrder(f[..n], names);
    var rest := Minus(f[..n], names);
    assert f == f[..n] + [f[n]];
    MinusSnoc(f[..n], f[n], names);
    if Unnamed(names)(f[n]) {
      PicksKept(f, Unnamed(names), front, rest);
      return front + [n];
    } else {
      PicksSkipped(f, Unnamed(names), front, rest);
      assert rest + [] == rest;
      return front;
    }
  }

  // ---------- Any sequence of calls, stopped anywhere ----------

  // A call with the environment's answers to its steps. Where the answers end, the call is stopped.
  datatype Op =
    | AddOp(req: Request, oks: seq<bool>)
    | RemoveOp(names: seq<string>, oks: seq<bool>)
    | UpdateOp(names: seq<string>, sched: seq<U.Actor>)

  // The environment's first `n` answers.
  function Answers(env: nat -> bool, n: nat): (oks: seq<bool>)
    ensures |oks| == n && forall i | 0 <= i < n :: oks[i] == env(i)
  {
    seq(n, i requires 0 <= i < n => env(i))
  }

  // The same call, stopped after `n` steps.
  function Cut(op: Op, n: nat): Op {
    match op
    case AddOp(req, oks) => if n <= |oks| then AddOp(req, oks[..n]) else op
    case RemoveOp(names, oks) => if n <= |oks| then RemoveOp(names, oks[..n]) else op
    case UpdateOp(names, sched) => if n <= |sched| then UpdateOp(names, sched[..n]) else op
  }

  function Alone(oks: seq<bool>): Schedule {
    seq(|oks|, i requires 0 <= i < |oks| => (0, oks[i]))
  }

  function SoloStart(d: Disk, req: Request): State { State(None, d, [Call(req, Start)]) }

  predicate UpdateStarts(f: seq<Entry>, names: seq<string>) {
    f != [] && forall n <- names :: Has(f, n)
  }

  function After(d: Disk, op: Op): Disk {
    match op
    case AddOp(req, oks) => Run(SoloStart(d, req), Alone(oks)).disk
    case RemoveOp(names, oks) => RemoveCall(d, names, oks).disk
    case UpdateOp(names, sched) =>
      if UpdateStarts(d.file, names)
      then Disk(d.file, U.Run(U.Selected(d.file, names), d.cache, sched).cache) else d
  }

  function AfterAll(d: Disk, ops: seq<Op>): Disk {
    if ops == [] then d else After(AfterAll(d, ops[..|ops| - 1]), ops[|ops| - 1])
  }

  lemma {:induction false} RemoveKeepsSound(d: Disk, names: seq<string>, oks: seq<bool>)
    requires Sound(d)
    ensures Sound(RemoveRun(d, names, oks).disk)
    decreases |names|
  {
    if names != [] {
      RemoveMembers(d.file, names[0]);
      RemoveKeepsWellFormed(d.file, names[0]);
      if |oks| > 1 {
        RemoveKeepsSound(Disk(Remove(d.file, names[0]), d.cache - {names[0]}), names[1..], oks[2..]);
      }
    }
  }

  lemma OpKeepsSound(d: Disk, op: Op)
    requires Sound(d)
    ensures Sound(After(d, op))
  {
    match op
    case AddOp(req, oks) => FileStaysSound(SoloStart(d, req), Alone(oks));
    case RemoveOp(names, oks) => RemoveKeepsSound(d, names, oks);
    case UpdateOp(names, sched) => if UpdateStarts(d.file, names) { U.RunKeepsCover(d, names, sched); }
  }

  // After any sequence of calls, and after any number of steps of the next one, the file has distinct
  // slash-free names and every configured repository has the index downloaded from its own URL.
  lemma {:induction false} EveryStepIsSound(d: Disk, ops: seq<Op>, next: Op, n: nat)
    requires Sound(d)
    ensures Sound(AfterAll(d, ops)) && Sound(After(AfterAll(d, ops), Cut(next, n)))
    decreases |ops|
  {
    if ops != [] {
      EveryStepIsSound(d, ops[..|ops| - 1], next, n);
      OpKeepsSound(AfterAll(d, ops[..|ops| - 1]), ops[|ops| - 1]);
    }
    OpKeepsSound(AfterAll(d, ops), Cut(next, n));
  }

  // ---------- A call of repoAdd on its own ----------

  // Where a call on its own ends; `env(k)` answers its step `k`: directory, lock, read, download, write,
  // unlock.
  function SoloEnd(d: Disk, req: Request, env: nat -> bool): (t: State)
    ensures |t.calls| == 1
  {
    Run(SoloStart(d, req), Alone(Answers(env, 6)))
  }

  // A new slash-free name, for every pattern of answers: it is added exactly when directory, lock, read,
  // download and write all go through. Otherwise the reply is an error, which for a refused download is
  // that the repository is unreachable, and the file is unchanged; and so is the cache unless the
  // download had gone through.
  lemma AddNewName(d: Disk, req: Request, env: nat -> bool)
    requires SlashFree(req.name) && !Has(d.file, req.name)
    ensures
      var t := SoloEnd(d, req, env);
      var fetched := env(0) && env(1) && env(2) && env(3);
      && t.lock == None && t.calls[0].pc.Done?
      && (t.calls[0].pc.outcome == Added <==> fetched && env(4))
      && (t.calls[0].pc.outcome != Added ==>
            t.calls[0].pc.outcome == Failed(if env(0) && env(1) && env(2) && !env(3) then Unreachable else Io))
      && t.disk.file == (if fetched && env(4) then d.file + [Entry(req.name, req.url)] else d.file)
      && t.disk.cache == (if fetched then d.cache[req.name := req.url] else d.cache)
  {
    SoloSix(d, req, env);
    UpdateAppends(d.file, Entry(req.name, req.url));
  }

  // A taken name never changes the file: once it has been read, the same entry is reported as existing or
  // as an error, as the caller asked, and another URL is refused. The cache changes at most by a fresh
  // index of the very same entry.
  lemma AddTakenName(d: Disk, req: Request, env: nat -> bool)
    requires SlashFree(req.name) && Has(d.file, req.name)
    ensures
      var t := SoloEnd(d, req, env);
      var read := env(0) && env(1) && env(2);
      var same := Get(d.file, req.name).url == req.url;
      && t.lock == None
      && t.calls[0].pc ==
         Done(if !read then Failed(Io) else if !same then Failed(NameTaken)
              else if req.noRepoExistsError then Existing else Failed(AlreadyConfigured))
      && t.disk.file == d.file
      && t.disk.cache == (if read && same && req.updateWhenExists && env(3) then d.cache[req.name := req.url] else d.cache)
  {
    SoloSix(d, req, env);
  }

  // A name with a slash changes nothing.
  lemma AddBadName(d: Disk, req: Request, env: nat -> bool)
    requires !SlashFree(req.name)
    ensures
      var t := SoloEnd(d, req, env);
      && t.lock == None && t.disk == d
      && t.calls[0].pc == Done(Failed(if env(0) && env(1) && env(2) then BadName else Io))
  {
    SoloSix(d, req, env);
  }

  // Adding a new name and removing it again gives back the file; the index is gone.
  lemma AddThenRemove(d: Disk, req: Request, env: nat -> bool)
    requires SlashFree(req.name) && !Has(d.file, req.name)
    requires SoloEnd(d, req, env).calls[0].pc == Done(Added)
    ensures
      RemoveCall(SoloEnd(d, req, env).disk, [req.name], [true, true]) ==
      RemoveResult(Disk(d.file, d.cache - {req.name}), Removed, 1, 1)
  {
    AddNewName(d, req, env);
    RemoveLast(d.file, Entry(req.name, req.url));
    RemoveOne(SoloEnd(d, req, env).disk, req.name);
    assert d.cache[req.name := req.url] - {req.name} == d.cache - {req.name};
  }

  lemma RemoveOne(d: Disk, name: string)
    requires Has(d.file, name)
    ensures RemoveCall(d, [name], [true, true]) ==
            RemoveResult(Disk(Remove(d.file, name), d.cache - {name}), Removed, 1, 1)
  {
    assert [name][1..] == [] && [true, true][2..] == [];
    var rest := Disk(Remove(d.file, name), d.cache - {name});
    assert RemoveRun(rest, [], []) == RemoveResult(rest, Removed, 0, 0);
  }

  lemma {:induction false} RemoveLast(f: seq<Entry>, e: Entry)
    requires !Has(f, e.name)
    ensures Has(f + [e], e.name) && Remove(f + [e], e.name) == f
  {
    assert e in f + [e];
    if f != [] {
      assert f[0] in f;
      assert forall x <- f[1..] :: x in f;
      RemoveLast(f[1..], e);
      assert (f + [e])[1..] == f[1..] + [e];
    }
  }

  // ---------- buildIndex (backend/helm_client/search_repo.go) ----------

  // The indexes that can be loaded, with the URL each came from; the others are silently skipped.
  function Indexed(sel: seq<Entry>, cache: map<string, string>): seq<Entry> {
    if sel == [] then []
    else
      var front, name := Indexed(sel[..|sel| - 1], cache), sel[|sel| - 1].name;
      if name in cache then front + [Entry(name, cache[name])] else front
  }

  lemma {:induction false} IndexSkipsNothingIff(sel: seq<Entry>, cache: map<string, string>)
    ensures |Indexed(sel, cache)| <= |sel|
    ensures Indexed(sel, cache) == sel <==> Covered(Disk(sel, cache))
  {
    if sel != [] {
      var n := |sel| - 1;
      IndexSkipsNothingIff(sel[..n], cache);
      assert sel == sel[..n] + [sel[n]];
      if Indexed(sel, cache) == sel {
        assert Indexed(sel[..n], cache) == sel[..n];
      }
    }
  }

  function Cached(cache: map<string, string>): Entry -> bool {
    (e: Entry) => e.name in cache
  }

  // `index` holds, for every entry of `kept`, its name and the URL its index came from.
  ghost predicate FromCache(kept: seq<Entry>, index: seq<Entry>, cache: map<string, string>) {
    && |index| == |kept|
    && forall i | 0 <= i < |kept| :: kept[i].name in cache && index[i] == Entry(kept[i].name, cache[kept[i].name])
  }

  lemma FromCacheOneMore(kept: seq<Entry>, index: seq<Entry>, cache: map<string, string>, e: Entry)
    requires FromCache(kept, index, cache) && e.name in cache
    ensures FromCache(kept + [e], index + [Entry(e.name, cache[e.name])], cache)
  {
  }

  // Exactly the selected repositories without an index are skipped; the others keep their order.
  lemma {:induction false} IndexSkipsOnlyMissing(sel: seq<Entry>, cache: map<string, string>)
    returns (positions: seq<nat>, kept: seq<Entry>)
    ensures Picks(sel, Cached(cache), positions, kept) && FromCache(kept, Indexed(sel, cache), cache)
  {
    if sel == [] { return [], []; }
    var n := |sel| - 1;
    var p, k := IndexSkipsOnlyMissing(sel[..n], cache);
    if Cached(cache)(sel[n]) {
      PicksKept(sel, Cached(cache), p, k);
      FromCacheOneMore(k, Indexed(sel[..n], cache), cache, sel[n]);
      return p + [n], k + [sel[n]];
    } else {
      PicksSkipped(sel, Cached(cache), p, k);
      return p, k;
    }
  }

  // ---------- The store as an object ----------

  class Store {
    var file: seq<Entry>
    var cache: map<string, string>

    constructor (file: seq<Entry>, cache: map<string, string>)
      ensures this.file == file && this.cache == cache
    {
      this.file, this.cache := file, cache;
    }

    function Contents(): Disk
      reads this
    {
      Disk(file, cache)
    }

    // A call on its own walks the step machine of RepoAdd to its end: same file, cache and outcome.
    // `env(k)` is the environment's answer to step `k`.
    method Add(req: Request, env: nat -> bool) returns (outcome: Outcome)
      modifies this
      ensures SoloEnd(old(Contents()), req, env) == State(None, Contents(), [Call(req, Done(outcome))])
      ensures file == if outcome == Added then old(file) + [Entry(req.name, req.url)] else old(file)
      ensures outcome == Added <==>
              && SlashFree(req.name) && !Has(old(file), req.name)
              && env(0) && env(1) && env(2) && env(3) && env(4)
    {
      SoloSix(Contents(), req, env);
      if !Has(file, req.name) { UpdateAppends(file, Entry(req.name, req.url)); }
      if !env(0) || !env(1) { return Failed(Io); }
      if !env(2) { return Failed(Io); }
      var f := file;
      if !SlashFree(req.name) { return Failed(BadName); }
      var c := Entry(req.name, req.url);
      if Has(f, req.name) {
        if c != Get(f, req.name) { return Failed(NameTaken); }
        if req.updateWhenExists && env(3) { cache := cache[req.name := req.url]; }
        return if req.noRepoExistsError then Existing else Failed(AlreadyConfigured);
      }
      if !env(3) { return Failed(Unreachable); }
      cache := cache[req.name := req.url];
      f := Update(f, c);
      if !env(4) { return Failed(Io); }
      file := f;
      return Added;
    }

    method Remove(names: seq<string>, env: nat -> bool) returns (outcome: RemoveOutcome)
      modifies this
      ensures
        var r := RemoveCall(old(Contents()), names, Answers(env, 2 * |names|));
        Contents() == r.disk && outcome == r.outcome
      ensures outcome == Removed <==>
              && old(file) != [] && Distinct(names) && (forall n <- names :: Has(old(file), n))
              && forall k | 0 <= k < 2 * |names| :: env(k)
      ensures outcome == Removed ==> file == Minus(old(file), names) && cache == old(cache) - Names(names)
    {
      RemoveCallMeaning(Contents(), names, Answers(env, 2 * |names|));
      var r := file;
      if r == [] { return NothingConfigured; }
      ghost var oks := Answers(env, 2 * |names|);
      ghost var whole := RemoveRun(Contents(), names, oks);
      for i := 0 to |names|
        invariant r == file
        invariant whole.disk == RemoveRun(Contents(), names[i..], oks[2 * i..]).disk
        invariant whole.outcome == RemoveRun(Contents(), names[i..], oks[2 * i..]).outcome
      {
        assert names[i..][1..] == names[i + 1..] && oks[2 * i..][2..] == oks[2 * (i + 1)..];
        assert names[i..][0] == names[i];
        assert oks[2 * i..][0] == env(2 * i) && oks[2 * i..][1] == env(2 * i + 1);
        if !Has(r, names[i]) { return NotFound; }
        r := RepoFile.Remove(r, names[i]);
        if !env(2 * i) { return IoError; }
        file := r;
        if !env(2 * i + 1) { return IoError; }
        cache := cache - {names[i]};
      }
      return Removed;
    }

    // Nothing configured, or the loadable indexes of the selected repositories in file order; and if
    // the disk is sound, that is every selected repository with the index from its own URL.
    method BuildIndex(names: seq<string>) returns (index: Option<seq<Entry>>)
      ensures index.None? <==> file == []
      ensures index.Some? ==> index.value == Indexed(U.Selected(file, names), cache)
      ensures index.Some? && Sound(Contents()) ==> index.value == U.Selected(file, names)
    {
      if file == [] { return None; }
      var found: seq<Entry> := [];
      for i := 0 to |file|
        invariant found == Indexed(U.Selected(file[..i], names), cache)
      {
        assert file[..i + 1][..i] == file[..i];
        var n := file[i].name;
        if names == [] || U.IsRequested(n, names) {
          assert U.Selected(file[..i + 1], names) == U.Selected(file[..i], names) + [file[i]];
          if n !in cache { continue; }
          found := found + [Entry(n, cache[n])];
        }
      }
      assert file[..|file|] == file;
      IndexSkipsNothingIff(U.Selected(file, names), cache);
      return Some(found);
    }
  }

  // A call on its own after `k` steps.
  function Solo(d: Disk, req: Request, env: nat -> bool, k: nat): (s: State)
    ensures |s.calls| == 1
  {
    if k == 0 then SoloStart(d, req) else Step(Solo(d, req, env, k - 1), 0, env(k - 1))
  }

  lemma {:induction false} SoloIsRun(d: Disk, req: Request, env: nat -> bool, k: nat)
    ensures Run(SoloStart(d, req), Alone(Answers(env, k))) == Solo(d, req, env, k)
  {
    if k > 0 {
      SoloIsRun(d, req, env, k - 1);
      var a := Alone(Answers(env, k));
      assert a[..|a| - 1] == Alone(Answers(env, k - 1));
    }
  }

  lemma SoloSix(d: Disk, req: Request, env: nat -> bool)
    ensures
      Run(SoloStart(d, req), Alone(Answers(env, 6))) ==
      Step(Step(Step(Step(Step(Step(SoloStart(d, req), 0, env(0)), 0, env(1)), 0, env(2)), 0, env(3)), 0, env(4)), 0, env(5))
  {
    SoloIsRun(d, req, env, 6);
    SoloTwo(d, req, env, 0);
    SoloTwo(d, req, env, 2);
    SoloTwo(d, req, env, 4);
  }

  lemma SoloTwo(d: Disk, req: Request, env: nat -> bool, k: nat)
    ensures Solo(d, req, env, k + 2) == Step(Step(Solo(d, req, env, k), 0, env(k)), 0, env(k + 1))
    ensures Solo(d, req, env, 0) == SoloStart(d, req)
  {
  }
}
