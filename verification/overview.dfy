/** `GetClusterOverview` of backend/k8s_client/public.go, for any number of clients: one goroutine per
    client sends one status into an unbuffered channel, and the caller receives that many statuses. */
module Overview {
  import opened Sequences

  datatype Status = Status(kind: string, total: nat, healthy: nat, ok: bool, info: string)

  // What the environment answers one client.
  datatype Client = InitFails(info: string) | QueryFails(info: string) | Answers(status: Status)

  function Failure(info: string): Status { Status("", 0, 0, false, info) }

  // The status a client contributes.
  function Contribution(c: Client): Status {
    match c
    case InitFails(info) => Failure(info)
    case QueryFails(info) => Failure(info)
    case Answers(status) => status
  }

  datatype Goroutine = NotStarted | Initialising | Querying | Sending(status: Status) | Finished

  // `received` records which client each received status came from.
  datatype State = State(spawned: nat, workers: seq<Goroutine>, res: seq<Status>, received: seq<nat>, returned: bool)

  datatype Actor = Caller | Worker(i: nat)

  function Init(clients: seq<Client>): State {
    State(0, seq(|clients|, _ => NotStarted), [], [], false)
  }

  // The next step of one actor. An actor that is blocked or finished does not move; a send happens only
  // together with a receive, when the caller has reached its receive loop.
  function Step(clients: seq<Client>, s: State, a: Actor): (t: State)
    requires |s.workers| == |clients|
    ensures |t.workers| == |clients|
  {
    match a
    case Caller =>
      if s.spawned < |clients| then
        s.(spawned := s.spawned + 1, workers := s.workers[s.spawned := Initialising])
      else if |s.res| < |clients| then s
      else s.(returned := true)
    case Worker(i) =>
      if i >= |clients| then s
      else match s.workers[i]
        case Initialising =>
          s.(workers := s.workers[i := if clients[i].InitFails? then Sending(Failure(clients[i].info)) else Querying])
        case Querying =>
          s.(workers := s.workers[i := Sending(if clients[i].QueryFails? then Failure(clients[i].info)
                                              else Contribution(clients[i]))])
        case Sending(status) =>
          if s.spawned < |clients| || |s.res| >= |clients| then s
          else s.(workers := s.workers[i := Finished], res := s.res + [status], received := s.received + [i])
        case _ => s
  }

  function Run(clients: seq<Client>, sched: seq<Actor>): (t: State)
    ensures |t.workers| == |clients|
    decreases |sched|
  {
    if sched == [] then Init(clients)
    else Step(clients, Run(clients, sched[..|sched| - 1]), sched[|sched| - 1])
  }

  function ContributionOf(clients: seq<Client>): nat -> Status {
    (i: nat) => if i < |clients| then Contribution(clients[i]) else Failure("")
  }

  ghost predicate Inv(clients: seq<Client>, s: State) {
    && |s.workers| == |clients| && s.spawned <= |clients|
    && (forall i | 0 <= i < |clients| :: s.workers[i].NotStarted? <==> i >= s.spawned)
    && (forall i | 0 <= i < |clients| && s.workers[i].Sending? :: s.workers[i].status == Contribution(clients[i]))
    && (forall i | 0 <= i < |clients| && s.workers[i].Querying? :: !clients[i].InitFails?)
    && Distinct(s.received)
    && (forall i <- s.received :: i < |clients|)
    && (forall i | 0 <= i < |clients| :: i in s.received <==> s.workers[i].Finished?)
    && s.res == Map(ContributionOf(clients), s.received)
    && (s.returned ==> |s.res| == |clients| && s.spawned == |clients|)
  }

  lemma StepKeepsInv(clients: seq<Client>, s: State, a: Actor)
    requires Inv(clients, s)
    ensures Inv(clients, Step(clients, s, a))
  {
    var t := Step(clients, s, a);
    TooMany(s.received, |clients|);
    if |t.res| > |s.res| {
      MapAppend(ContributionOf(clients), s.received, [a.i]);
      assert Map(ContributionOf(clients), [a.i]) == [Contribution(clients[a.i])];
    }
  }

  lemma {:induction false} RunKeepsInv(clients: seq<Client>, sched: seq<Actor>)
    ensures Inv(clients, Run(clients, sched))
    decreases |sched|
  {
    if sched != [] {
      RunKeepsInv(clients, sched[..|sched| - 1]);
      StepKeepsInv(clients, Run(clients, sched[..|sched| - 1]), sched[|sched| - 1]);
    }
  }

  // When the call returns, every goroutine has ended (none is left blocked on the channel), and the
  // result is, up to order, exactly one status per client.
  lemma ReturnsOneStatusPerClient(clients: seq<Client>, sched: seq<Actor>)
    requires Run(clients, sched).returned
    ensures
      var s := Run(clients, sched);
      && (forall w <- s.workers :: w == Finished)
      && |s.res| == |clients|
      && multiset(s.res) == multiset(Map(Contribution, clients))
  {
    RunKeepsInv(clients, sched);
    var s, f := Run(clients, sched), ContributionOf(clients);
    Pigeonhole(s.received, |clients|);
    InUpTo(|clients|);
    SameElements(f, s.received, UpTo(|clients|));
    assert Map(f, UpTo(|clients|)) == Map(Contribution, clients);
  }

  // `status` is what the client has to say: the failure's message under a false flag, or its answer.
  ghost predicate Reports(c: Client, status: Status) {
    match c
    case InitFails(info) => !status.ok && status.info == info && status.kind == "" && status.total == status.healthy == 0
    case QueryFails(info) => !status.ok && status.info == info && status.kind == "" && status.total == status.healthy == 0
    case Answers(answer) => status == answer
  }

  // On return the k-th status reports client `order[k]`, and every client is reported once.
  lemma EveryClientIsReported(clients: seq<Client>, sched: seq<Actor>) returns (order: seq<nat>)
    requires Run(clients, sched).returned
    ensures |order| == |clients| == |Run(clients, sched).res| && Distinct(order)
    ensures forall i: nat :: i in order <==> i < |clients|
    ensures forall k | 0 <= k < |order| ::
              order[k] < |clients| && Reports(clients[order[k]], Run(clients, sched).res[k])
  {
    RunKeepsInv(clients, sched);
    order := Run(clients, sched).received;
    Pigeonhole(order, |clients|);
    forall k | 0 <= k < |order| ensures order[k] < |clients| { assert order[k] in order; }
  }

  // Deadlock freedom: until the call returns, some actor can move.
  lemma SomeActorMoves(clients: seq<Client>, sched: seq<Actor>) returns (a: Actor)
    requires !Run(clients, sched).returned
    ensures Step(clients, Run(clients, sched), a) != Run(clients, sched)
  {
    RunKeepsInv(clients, sched);
    var s := Run(clients, sched);
    if s.spawned < |clients| || |s.res| >= |clients| { return Caller; }
    if forall i | 0 <= i < |clients| :: s.workers[i].Finished? {
      InUpTo(|clients|);
      SameElements(ContributionOf(clients), s.received, UpTo(|clients|));
      assert false;
    }
    var i :| 0 <= i < |clients| && !s.workers[i].Finished?;
    a := Worker(i);
  }

  function Rank(w: Goroutine): nat {
    match w
    case NotStarted => 4
    case Initialising => 3
    case Querying => 2
    case Sending(_) => 1
    case Finished => 0
  }

  // The number of moves still possible.
  function Measure(s: State): nat {
    Sum(Map(Rank, s.workers)) + if s.returned then 0 else 1
  }

  lemma RankUpdate(workers: seq<Goroutine>, i: nat, w: Goroutine)
    requires i < |workers|
    ensures Sum(Map(Rank, workers[i := w])) == Sum(Map(Rank, workers)) - Rank(workers[i]) + Rank(w)
  {
    SumUpdate(Map(Rank, workers), i, Rank(w));
    assert Map(Rank, workers[i := w]) == Map(Rank, workers)[i := Rank(w)];
  }

  // A step that changes a goroutine moves one of them forward.
  lemma OneMovesForward(clients: seq<Client>, s: State, a: Actor) returns (i: nat)
    requires Inv(clients, s) && Step(clients, s, a).workers != s.workers
    ensures
      var t := Step(clients, s, a);
      && i < |clients| && t.workers == s.workers[i := t.workers[i]]
      && Rank(t.workers[i]) < Rank(s.workers[i]) && t.returned == s.returned
  {
    i := if a.Caller? then s.spawned else a.i;
  }

  lemma EveryMoveDecreases(clients: seq<Client>, s: State, a: Actor)
    requires Inv(clients, s)
    ensures Step(clients, s, a) == s || Measure(Step(clients, s, a)) < Measure(s)
  {
    var t := Step(clients, s, a);
    if t.workers != s.workers {
      var i := OneMovesForward(clients, s, a);
      RankUpdate(s.workers, i, t.workers[i]);
    } else {
      OnlyReturns(clients, s, a);
    }
  }

  lemma OnlyReturns(clients: seq<Client>, s: State, a: Actor)
    requires Inv(clients, s) && Step(clients, s, a).workers == s.workers
    ensures Step(clients, s, a) == s || (!s.returned && Step(clients, s, a) == s.(returned := true))
  {
    var i := if a.Caller? then s.spawned else a.i;
    if i < |clients| { assert Step(clients, s, a).workers[i] == s.workers[i]; }
  }

  // Steps of a schedule that move something.
  function Moves(clients: seq<Client>, sched: seq<Actor>): nat {
    if sched == [] then 0
    else
      var before := sched[..|sched| - 1];
      Moves(clients, before) + if Run(clients, sched) == Run(clients, before) then 0 else 1
  }

  // Termination: no schedule moves more than four times per client, plus the return.
  lemma {:induction false} MovesAreBounded(clients: seq<Client>, sched: seq<Actor>)
    ensures Moves(clients, sched) + Measure(Run(clients, sched)) <= 4 * |clients| + 1
    decreases |sched|
  {
    if sched == [] {
      SumOfFours(|clients|, Map(Rank, Init(clients).workers));
    } else {
      var before := sched[..|sched| - 1];
      MovesAreBounded(clients, before);
      RunKeepsInv(clients, before);
      EveryMoveDecreases(clients, Run(clients, before), sched[|sched| - 1]);
    }
  }

  lemma {:induction false} SumOfFours(n: nat, s: seq<nat>)
    requires |s| == n && forall i | 0 <= i < n :: s[i] == 4
    ensures Sum(s) == 4 * n
  {
    if n > 0 { SumOfFours(n - 1, s[1..]); }
  }
}
