/**
  * The jobs of one node: a bounded channel, the callers that send to it, the workers that drain it, and its
  * closing; and the rebalance channel, which all nodes share.  Every interleaving of callers, workers, terminate,
  * Shutdown and the goroutine that rebalances is a list of actions, each of them one atomic step.
  */
module WorkerPool {

  /** Telling: the job failed, its caller has the answer, and the worker is about to signal for a rebalance. */
  datatype Worker = Idle | Busy(job: nat) | Telling | Gone

  /** The capacity of the rebalance channel. */
  const ROOM: nat := 1

  /**
    * `pending`: jobs of callers that found the node connected and have not sent yet, or wait for room;
    * `accepted`: jobs put into the channel, in order; `taken`: jobs received from it, in order; `answered`:
    * jobs whose response was delivered; `panicked`: jobs whose sending met a closed channel.  `signals` are in
    * the rebalance channel, `shut` tells that it is closed, and `crashed` that a goroutine of the client met it
    * closed, which ends the program.  `rebalances` is the setting RebalanceOnDisconnection.
    */
  datatype Pool = Pool(
    capacity: nat, rebalances: bool, connected: bool, closed: bool, pending: set<nat>,
    accepted: seq<nat>, taken: seq<nat>, queue: seq<nat>, workers: seq<Worker>, answered: seq<nat>,
    panicked: set<nat>, signals: nat, shut: bool, crashed: bool)

  /**
    * Tell: a worker of the node signals.  Elsewhere: so does a listener, or a worker of another node.  Rebalance:
    * the goroutine that rebalances takes a signal.  Shutdown: it closes the rebalance channel.
    */
  datatype Action =
    | Choose(job: nat) | Submit(job: nat) | Take(worker: nat) | Answer(worker: nat, disconnected: bool)
    | Tell(worker: nat) | Leave(worker: nat) | Terminate | Elsewhere | Rebalance | Shutdown

  /**
    * What the channel operations wait for.  A caller looks at `connected` first and sends later, and nothing
    * keeps the channel open in between; a send does not wait on a closed channel.  Closing twice is a panic.
    */
  predicate Enabled(p: Pool, a: Action) {
    !p.crashed &&
    match a
    case Choose(job) => p.connected && job !in p.pending && job !in p.accepted && job !in p.panicked
    case Submit(job) => job in p.pending && (p.closed || |p.queue| < p.capacity)
    case Take(w) => w < |p.workers| && p.workers[w].Idle? && p.queue != []
    case Answer(w, _) => w < |p.workers| && p.workers[w].Busy?
    case Tell(w) => w < |p.workers| && p.workers[w].Telling? && (p.shut || p.signals < ROOM)
    case Leave(w) => w < |p.workers| && p.workers[w].Idle? && p.closed && p.queue == []
    case Terminate => !p.closed
    case Elsewhere => p.rebalances && (p.shut || p.signals < ROOM)
    case Rebalance => 0 < p.signals
    case Shutdown => !p.shut
  }

  /** A send on the rebalance channel. */
  function Signalled(p: Pool): Pool {
    if p.shut then p.(crashed := true) else p.(signals := p.signals + 1)
  }

  function Step(p: Pool, a: Action): Pool
    requires Enabled(p, a)
  {
    match a
    case Choose(job) => p.(pending := p.pending + {job})
    case Submit(job) =>
      var sent := p.(pending := p.pending - {job});
      if p.closed then sent.(panicked := p.panicked + {job})
      else sent.(accepted := p.accepted + [job], queue := p.queue + [job])
    case Take(w) =>
      p.(taken := p.taken + [p.queue[0]], queue := p.queue[1..], workers := p.workers[w := Busy(p.queue[0])])
    case Answer(w, disconnected) =>
      var done := p.(answered := p.answered + [p.workers[w].job]);
      done.(workers := p.workers[w := if disconnected && p.rebalances then Telling else Idle])
    case Tell(w) => Signalled(p.(workers := p.workers[w := Gone], connected := false))
    case Leave(w) => p.(workers := p.workers[w := Gone], connected := false)
    case Terminate => p.(closed := true, connected := false)
    case Elsewhere => Signalled(p)
    case Rebalance => p.(signals := p.signals - 1)
    case Shutdown => p.(shut := true)
  }

  function Start(n: nat, capacity: nat, rebalances: bool): Pool {
    Pool(capacity, rebalances, true, false, {}, [], [], [], seq(n, _ => Idle), [], {}, 0, false, false)
  }

  predicate Possible(p: Pool, actions: seq<Action>)
    decreases |actions|
  {
    actions != [] ==> Enabled(p, actions[0]) && Possible(Step(p, actions[0]), actions[1..])
  }

  /** The state behind a list of actions, if each of them was enabled when its turn came. */
  function Run(p: Pool, actions: seq<Action>): (q: Pool)
    requires Possible(p, actions)
    decreases |actions|
  {
    if actions == [] then p else Run(Step(p, actions[0]), actions[1..])
  }

  lemma RunFirst(p: Pool, a: Action, rest: seq<Action>)
    requires Enabled(p, a)
    ensures Possible(p, [a] + rest) == Possible(Step(p, a), rest)
    ensures Possible(p, [a] + rest) ==> Run(p, [a] + rest) == Run(Step(p, a), rest)
  {
    assert ([a] + rest)[1..] == rest;
  }

  /** Three steps, and the rest. */
  lemma RunThree(p: Pool, a: Action, b: Action, c: Action, rest: seq<Action>)
    requires Enabled(p, a) && Enabled(Step(p, a), b) && Enabled(Step(Step(p, a), b), c)
    ensures var q := Step(Step(Step(p, a), b), c);
            Possible(q, rest) ==> Possible(p, [a, b, c] + rest) && Run(p, [a, b, c] + rest) == Run(q, rest)
  {
    RunFirst(Step(Step(p, a), b), c, rest);
    RunFirst(Step(p, a), b, [c] + rest);
    RunFirst(p, a, [b] + ([c] + rest));
    assert [a, b, c] + rest == [a] + ([b] + ([c] + rest));
  }

  // ----- conservation

  function Holds(v: Worker, job: nat): nat {
    if v == Busy(job) then 1 else 0
  }

  /** How many workers have that job in hand. */
  function InProgress(workers: seq<Worker>, job: nat): nat {
    if workers == [] then 0 else Holds(workers[0], job) + InProgress(workers[1..], job)
  }

  predicate NoRepeats(s: seq<nat>) {
    forall i, j :: 0 <= i < j < |s| ==> s[i] != s[j]
  }

  /**
    * Accepted jobs are queued in the order of acceptance, in progress, or answered: each in one place.  No job
    * is pending, accepted or panicked at once.
    */
  ghost predicate Conserved(p: Pool) {
    && p.accepted == p.taken + p.queue && NoRepeats(p.accepted)
    && (forall job :: multiset(p.taken)[job] == InProgress(p.workers, job) + multiset(p.answered)[job])
    && (p.connected ==> !p.closed)
    && p.pending !! p.panicked && (forall job :: job in p.accepted ==> job !in p.pending && job !in p.panicked)
  }

  lemma {:induction false} InProgressUpdate(workers: seq<Worker>, w: nat, v: Worker, job: nat)
    requires w < |workers|
    ensures InProgress(workers[w := v], job) + Holds(workers[w], job) == InProgress(workers, job) + Holds(v, job)
  {
    var next := workers[w := v];
    if w == 0 {
      assert next[1..] == workers[1..];
    } else {
      assert next[1..] == workers[1..][w - 1 := v];
      InProgressUpdate(workers[1..], w - 1, v, job);
    }
  }

  lemma InProgressUpdates(workers: seq<Worker>, w: nat, v: Worker)
    requires w < |workers|
    ensures var next := workers[w := v];
            forall job :: InProgress(next, job) + Holds(workers[w], job) == InProgress(workers, job) + Holds(v, job)
  {
    forall job: nat
      ensures InProgress(workers[w := v], job) + Holds(workers[w], job) == InProgress(workers, job) + Holds(v, job)
    {
      InProgressUpdate(workers, w, v, job);
    }
  }

  lemma {:induction false} NobodyBusy(workers: seq<Worker>, job: nat)
    requires forall w :: 0 <= w < |workers| ==> !workers[w].Busy?
    ensures InProgress(workers, job) == 0
  {
    if workers != [] {
      NobodyBusy(workers[1..], job);
    }
  }

  lemma StartConserves(n: nat, capacity: nat, rebalances: bool)
    ensures Conserved(Start(n, capacity, rebalances))
  {
    var p := Start(n, capacity, rebalances);
    forall job: nat ensures InProgress(p.workers, job) == 0 {
      NobodyBusy(p.workers, job);
    }
  }

  lemma SubmitConserves(p: Pool, job: nat)
    requires Conserved(p) && Enabled(p, Submit(job))
    ensures Conserved(Step(p, Submit(job)))
  {
    assert p.taken + (p.queue + [job]) == p.accepted + [job];
  }

  lemma TakeConserves(p: Pool, w: nat)
    requires Conserved(p) && Enabled(p, Take(w))
    ensures Conserved(Step(p, Take(w)))
  {
    var q := Step(p, Take(w));
    InProgressUpdates(p.workers, w, Busy(p.queue[0]));
    assert q.accepted == (p.taken + [p.queue[0]]) + p.queue[1..];
    assert multiset(q.taken) == multiset(p.taken) + multiset{p.queue[0]};
  }

  lemma AnswerConserves(p: Pool, w: nat, disconnected: bool)
    requires Conserved(p) && Enabled(p, Answer(w, disconnected))
    ensures Conserved(Step(p, Answer(w, disconnected)))
  {
    var q := Step(p, Answer(w, disconnected));
    InProgressUpdates(p.workers, w, q.workers[w]);
    assert multiset(q.answered) == multiset(p.answered) + multiset{p.workers[w].job};
  }

  lemma StepConserves(p: Pool, a: Action)
    requires Conserved(p) && Enabled(p, a)
    ensures Conserved(Step(p, a))
  {
    match a
    case Choose(_) =>
    case Submit(job) => SubmitConserves(p, job);
    case Take(w) => TakeConserves(p, w);
    case Answer(w, disconnected) => AnswerConserves(p, w, disconnected);
    case Tell(w) => InProgressUpdates(p.workers, w, Gone);
    case Leave(w) => InProgressUpdates(p.workers, w, Gone);
    case _ =>
  }

  lemma {:induction false} RunConserves(p: Pool, actions: seq<Action>)
    requires Conserved(p) && Possible(p, actions)
    ensures Conserved(Run(p, actions))
    decreases |actions|
  {
    if actions != [] {
      StepConserves(p, actions[0]);
      RunConserves(Step(p, actions[0]), actions[1..]);
    }
  }

  /** In a list without repeats, nothing counts twice. */
  lemma {:induction false} NoRepeatsCountsOnce(s: seq<nat>, x: nat)
    requires NoRepeats(s)
    ensures multiset(s)[x] <= 1
  {
    if s != [] {
      var last := |s| - 1;
      NoRepeatsCountsOnce(s[..last], x);
      assert s == s[..last] + [s[last]];
      if s[last] == x {
        assert x !in s[..last];
      }
    }
  }

  /**
    * Job conservation.  In every state that can be reached, the accepted jobs are those queued, in progress
    * and answered, put together, and none of them counts twice: none is answered twice either.  A job that
    * panicked is neither accepted nor sent again.
    */
  lemma JobsAreConserved(n: nat, capacity: nat, rebalances: bool, actions: seq<Action>)
    requires Possible(Start(n, capacity, rebalances), actions)
    ensures var p := Run(Start(n, capacity, rebalances), actions);
            forall job :: multiset(p.accepted)[job]
                       == multiset(p.queue)[job] + InProgress(p.workers, job) + multiset(p.answered)[job] <= 1
    ensures var p := Run(Start(n, capacity, rebalances), actions);
            forall job :: job in p.panicked ==> job !in p.accepted && job !in p.pending
  {
    StartConserves(n, capacity, rebalances);
    RunConserves(Start(n, capacity, rebalances), actions);
    var p := Run(Start(n, capacity, rebalances), actions);
    assert multiset(p.accepted) == multiset(p.taken) + multiset(p.queue);
    forall job: nat ensures multiset(p.accepted)[job] <= 1 {
      NoRepeatsCountsOnce(p.accepted, job);
    }
  }

  // ----- what is down stays down

  /** The channels hold no more than they can, and a node counts as connected only while all its workers are there. */
  ghost predicate Bounded(p: Pool) {
    && |p.queue| <= p.capacity && p.signals <= ROOM
    && (p.connected ==> !p.closed && forall w :: 0 <= w < |p.workers| ==> !p.workers[w].Gone?)
  }

  /** No worker comes back, no channel is opened again, and what is not connected stays so. */
  ghost predicate Onward(p: Pool, q: Pool) {
    && |q.workers| == |p.workers| && (forall w :: 0 <= w < |p.workers| && p.workers[w].Gone? ==> q.workers[w].Gone?)
    && (p.closed ==> q.closed) && (p.shut ==> q.shut) && (q.connected ==> p.connected)
  }

  /** What a step does to the workers: one of them at most, and none that is gone. */
  lemma StepMovesOne(p: Pool, a: Action)
    requires Enabled(p, a)
    ensures var q := Step(p, a);
            && |q.workers| == |p.workers|
            && (forall w :: 0 <= w < |p.workers| && p.workers[w].Gone? ==> q.workers[w].Gone?)
            && (forall w :: 0 <= w < |p.workers| && q.workers[w].Gone? && !p.workers[w].Gone? ==> !q.connected)
  {
  }

  lemma StepIsBounded(p: Pool, a: Action)
    requires Enabled(p, a) && Bounded(p)
    ensures Bounded(Step(p, a)) && Onward(p, Step(p, a))
  {
    StepMovesOne(p, a);
  }

  lemma OnwardThrough(p: Pool, q: Pool, r: Pool)
    requires Onward(p, q) && Onward(q, r)
    ensures Onward(p, r)
  {
  }

  lemma {:induction false} RunIsBounded(p: Pool, actions: seq<Action>)
    requires Possible(p, actions) && Bounded(p)
    ensures Bounded(Run(p, actions)) && Onward(p, Run(p, actions))
    decreases |actions|
  {
    if actions != [] {
      var next := Step(p, actions[0]);
      StepIsBounded(p, actions[0]);
      RunIsBounded(next, actions[1..]);
      OnwardThrough(p, next, Run(p, actions));
    }
  }

  /** Over every run, once one of its workers has left, a node is not connected, and never again. */
  lemma LeavingDisconnects(
    n: nat, capacity: nat, rebalances: bool, actions: seq<Action>, more: seq<Action>, w: nat)
    requires Possible(Start(n, capacity, rebalances), actions) && w < n
    requires Possible(Run(Start(n, capacity, rebalances), actions), more)
    ensures var p := Run(Start(n, capacity, rebalances), actions);
            var q := Run(p, more);
            && |p.workers| == |q.workers| == n
            && (p.workers[w].Gone? ==> !p.connected && !q.connected && q.workers[w].Gone?)
  {
    RunIsBounded(Start(n, capacity, rebalances), actions);
    RunIsBounded(Run(Start(n, capacity, rebalances), actions), more);
  }

  // ----- draining

  /** Without rebalancing no worker signals, and a worker only leaves a channel that is closed and empty. */
  ghost predicate LeavesNothing(p: Pool) {
    forall w :: 0 <= w < |p.workers| ==>
      !p.workers[w].Telling? && (p.workers[w].Gone? ==> p.closed && p.queue == [])
  }

  lemma {:induction false} RunLeavesNothing(p: Pool, actions: seq<Action>)
    requires LeavesNothing(p) && !p.rebalances && Possible(p, actions)
    ensures var q := Run(p, actions);
            LeavesNothing(q) && |q.workers| == |p.workers| && !q.rebalances && q.crashed == p.crashed
    decreases |actions|
  {
    if actions != [] {
      RunLeavesNothing(Step(p, actions[0]), actions[1..]);
    }
  }

  ghost predicate AllGone(p: Pool) {
    forall w :: 0 <= w < |p.workers| ==> p.workers[w].Gone?
  }

  /** Nothing accepted is left unanswered. */
  ghost predicate AllAnswered(p: Pool) {
    p.queue == [] && multiset(p.answered) == multiset(p.accepted)
  }

  lemma DrainedIsAnswered(n: nat, capacity: nat, actions: seq<Action>)
    requires 0 < n && Possible(Start(n, capacity, false), actions)
    requires AllGone(Run(Start(n, capacity, false), actions))
    ensures AllAnswered(Run(Start(n, capacity, false), actions))
  {
    var s := Start(n, capacity, false);
    var p := Run(s, actions);
    RunLeavesNothing(s, actions);
    assert p.workers[0].Gone?;
    JobsAreConserved(n, capacity, false, actions);
    forall job: nat ensures multiset(p.answered)[job] == multiset(p.accepted)[job] {
      NobodyBusy(p.workers, job);
    }
  }

  function Weight(v: Worker): nat {
    match v case Idle => 1 case Telling => 2 case Busy(_) => 3 case Gone => 0
  }

  function Load(workers: seq<Worker>): nat {
    if workers == [] then 0
    else Weight(workers[0]) + Load(workers[1..])
  }

  /**
    * What is left to do: jobs to be sent, queued jobs to be taken and answered, busy workers to answer, signal
    * and leave.
    */
  function Remaining(p: Pool): nat {
    |p.pending| + 3 * |p.queue| + Load(p.workers)
  }

  /** The state after terminate: no caller finds the node connected any more. */
  predicate Terminated(p: Pool) {
    p.closed && !p.connected
  }

  /** The steps of the node's own callers and workers; the others concern the rebalance channel only. */
  predicate IsOwn(a: Action) {
    !a.Elsewhere? && !a.Rebalance? && !a.Shutdown?
  }

  function OwnSteps(actions: seq<Action>): nat {
    if actions == [] then 0 else (if IsOwn(actions[0]) then 1 else 0) + OwnSteps(actions[1..])
  }

  lemma {:induction false} LoadUpdate(workers: seq<Worker>, w: nat, v: Worker)
    requires w < |workers|
    ensures Load(workers[w := v]) + Weight(workers[w]) == Load(workers) + Weight(v)
  {
    var next := workers[w := v];
    if w == 0 {
      assert next[1..] == workers[1..];
    } else {
      assert next[1..] == workers[1..][w - 1 := v];
      LoadUpdate(workers[1..], w - 1, v);
    }
  }

  /** After terminate every step of its own does some of what is left, whatever the order. */
  lemma StepDrains(p: Pool, a: Action)
    requires Terminated(p) && Enabled(p, a)
    ensures Terminated(Step(p, a)) && Remaining(Step(p, a)) <= Remaining(p)
    ensures IsOwn(a) ==> Remaining(Step(p, a)) < Remaining(p)
  {
    var q := Step(p, a);
    if a.Take? || a.Answer? || a.Tell? || a.Leave? {
      LoadUpdate(p.workers, a.worker, q.workers[a.worker]);
    }
  }

  /** So after terminate a node never takes more steps than were left to do, */
  lemma {:induction false} DrainIsBounded(p: Pool, actions: seq<Action>)
    requires Terminated(p) && Possible(p, actions)
    ensures OwnSteps(actions) + Remaining(Run(p, actions)) <= Remaining(p)
    decreases |actions|
  {
    if actions != [] {
      StepDrains(p, actions[0]);
      DrainIsBounded(Step(p, actions[0]), actions[1..]);
    }
  }

  /**
    * and it can go on for as long as a worker is still there, or a caller that has not sent: a worker may have to
    * wait for the goroutine that rebalances, and for nothing else.
    */
  lemma DrainNeverSticks(p: Pool)
    requires p.closed && !p.crashed && !(AllGone(p) && p.pending == {})
    ensures (exists a :: IsOwn(a) && Enabled(p, a)) || (!p.shut && Enabled(p, Rebalance))
  {
    if job :| job in p.pending {
      assert Enabled(p, Submit(job));
    } else {
      var w :| 0 <= w < |p.workers| && !p.workers[w].Gone?;
      match p.workers[w]
      case Busy(_) => assert Enabled(p, Answer(w, false));
      case Telling =>
        assert p.shut || p.signals < ROOM ==> Enabled(p, Tell(w));
      case Idle =>
        assert p.queue != [] ==> Enabled(p, Take(w));
        assert p.queue == [] ==> Enabled(p, Leave(w));
    }
  }

  // ----- sending on a closed channel

  /** A send of that job stands behind a terminate, or anywhere when the channel is closed already. */
  predicate SendsTooLate(closed: bool, actions: seq<Action>, job: nat)
    decreases |actions|
  {
    actions != [] &&
    ((closed && actions[0] == Submit(job)) || SendsTooLate(closed || actions[0] == Terminate, actions[1..], job))
  }

  lemma {:induction false} PanicsWhenTooLate(p: Pool, actions: seq<Action>, job: nat)
    requires Possible(p, actions)
    ensures job in Run(p, actions).panicked <==> job in p.panicked || SendsTooLate(p.closed, actions, job)
    decreases |actions|
  {
    if actions != [] {
      PanicsWhenTooLate(Step(p, actions[0]), actions[1..], job);
    }
  }

  /** The job is chosen, then the channel is closed, then the job is sent. */
  predicate Overtaken(actions: seq<Action>, job: nat, h: nat, i: nat, j: nat) {
    h < i < j < |actions| && actions[h] == Choose(job) && actions[i] == Terminate && actions[j] == Submit(job)
  }

  lemma {:induction false} TooLateBehind(closed: bool, actions: seq<Action>, job: nat, i: nat, j: nat)
    requires j < |actions| && actions[j] == Submit(job) && (closed || (i < j && actions[i] == Terminate))
    ensures SendsTooLate(closed, actions, job)
    decreases |actions|
  {
    if 0 < j && actions[0] != Submit(job) {
      var now := closed || actions[0] == Terminate;
      if !now {
        assert actions[1..][i - 1] == Terminate;
      }
      TooLateBehind(now, actions[1..], job, if now then 0 else i - 1, j - 1);
    } else if 0 < j && !closed {
      assert actions[1..][j - 1] == Submit(job);
      TooLateBehind(false, actions[1..], job, i - 1, j - 1);
    }
  }

  /** Where a send comes too late, the terminate that overtook it can be named, unless there was one before. */
  lemma {:induction false} OvertakingPair(closed: bool, actions: seq<Action>, job: nat) returns (i: nat, j: nat)
    requires SendsTooLate(closed, actions, job)
    ensures j < |actions| && actions[j] == Submit(job)
    ensures !closed ==> i < j && actions[i] == Terminate
    decreases |actions|
  {
    if closed && actions[0] == Submit(job) {
      i, j := 0, 0;
    } else {
      var now := closed || actions[0] == Terminate;
      i, j := OvertakingPair(now, actions[1..], job);
      i, j := if now then 0 else i + 1, j + 1;
    }
  }

  lemma {:induction false} NobodyChosenLater(p: Pool, actions: seq<Action>, job: nat, j: nat)
    requires Possible(p, actions) && !p.connected && job !in p.pending && j < |actions|
    ensures actions[j] != Submit(job)
    decreases |actions|
  {
    if 0 < j {
      NobodyChosenLater(Step(p, actions[0]), actions[1..], job, j - 1);
    }
  }

  /** Nobody is chosen once the node is not connected, and nobody sends who was not chosen. */
  lemma {:induction false} ChosenBeforeSend(p: Pool, actions: seq<Action>, job: nat, i: nat, j: nat) returns (h: nat)
    requires Possible(p, actions) && i < j < |actions| && actions[i] == Terminate && actions[j] == Submit(job)
    requires job !in p.pending
    ensures h < i && actions[h] == Choose(job)
    decreases |actions|
  {
    var q := Step(p, actions[0]);
    if actions[0] == Choose(job) {
      h := 0;
    } else if i == 0 {
      NobodyChosenLater(q, actions[1..], job, j - 1);
    } else {
      h := ChosenBeforeSend(q, actions[1..], job, i - 1, j - 1);
      h := h + 1;
    }
  }

  /**
    * A send meets a closed channel exactly when its caller found the node connected before a terminate, and
    * sends after it.
    */
  lemma PanicsExactlyWhen(n: nat, capacity: nat, rebalances: bool, actions: seq<Action>, job: nat)
    requires Possible(Start(n, capacity, rebalances), actions)
    ensures job in Run(Start(n, capacity, rebalances), actions).panicked
       <==> exists h, i, j :: Overtaken(actions, job, h, i, j)
  {
    var s := Start(n, capacity, rebalances);
    PanicsWhenTooLate(s, actions, job);
    if SendsTooLate(false, actions, job) {
      var i, j := OvertakingPair(false, actions, job);
      var h := ChosenBeforeSend(s, actions, job, i, j);
      assert Overtaken(actions, job, h, i, j);
    }
    if h, i, j :| Overtaken(actions, job, h, i, j) {
      TooLateBehind(false, actions, job, i, j);
    }
  }

  /** It can happen in every pool, whatever its settings. */
  lemma SendingCanPanic(n: nat, capacity: nat, rebalances: bool, job: nat)
    ensures var actions := [Choose(job), Terminate, Submit(job)];
            var s := Start(n, capacity, rebalances);
            Possible(s, actions) && job in Run(s, actions).panicked
  {
    var s := Start(n, capacity, rebalances);
    var p := Step(s, Choose(job));
    var q := Step(p, Terminate);
    RunFirst(q, Submit(job), []);
    RunFirst(p, Terminate, [Submit(job)]);
    RunFirst(s, Choose(job), [Terminate, Submit(job)]);
  }

  // ----- signalling on the closed rebalance channel

  predicate Signals(a: Action) {
    a.Tell? || a.Elsewhere?
  }

  /** A signal stands behind the Shutdown that closes the channel, or anywhere when it is closed already. */
  predicate SignalsTooLate(shut: bool, actions: seq<Action>, i: nat, j: nat) {
    j < |actions| && Signals(actions[j]) && (shut || (i < j && actions[i] == Shutdown))
  }

  lemma {:induction false} CrashesFrom(p: Pool, actions: seq<Action>)
    requires Possible(p, actions) && !p.crashed
    ensures Run(p, actions).crashed <==> exists i: nat, j: nat :: SignalsTooLate(p.shut, actions, i, j)
    decreases |actions|
  {
    if actions != [] {
      var next, rest := Step(p, actions[0]), actions[1..];
      if next.crashed {
        assert rest == [];
        assert SignalsTooLate(p.shut, actions, 0, 0);
      } else {
        CrashesFrom(next, rest);
        if i: nat, j: nat :| SignalsTooLate(next.shut, rest, i, j) {
          assert SignalsTooLate(p.shut, actions, if p.shut || actions[0] != Shutdown then i + 1 else 0, j + 1);
        }
        if i: nat, j: nat :| SignalsTooLate(p.shut, actions, i, j) {
          assert 0 < j;
          assert SignalsTooLate(next.shut, rest, if 0 < i then i - 1 else 0, j - 1);
        }
      }
    }
  }

  /**
    * The program ends by a send on the closed rebalance channel exactly when a worker, of whatever node, or a
    * listener signals after Shutdown has closed it.
    */
  lemma CrashesExactlyWhen(n: nat, capacity: nat, rebalances: bool, actions: seq<Action>)
    requires Possible(Start(n, capacity, rebalances), actions)
    ensures Run(Start(n, capacity, rebalances), actions).crashed
       <==> exists i: nat, j: nat :: SignalsTooLate(false, actions, i, j)
  {
    CrashesFrom(Start(n, capacity, rebalances), actions);
  }

  /** A job is taken before Shutdown, fails after it, and its worker signals. */
  const FAILS_AFTER_SHUTDOWN: seq<Action> := [Choose(0), Submit(0), Take(0), Shutdown, Answer(0, true), Tell(0)]

  ghost predicate Crashes(n: nat, capacity: nat, rebalances: bool, actions: seq<Action>) {
    var s := Start(n, capacity, rebalances);
    Possible(s, actions) && Run(s, actions).crashed
  }

  lemma FailingAfterShutdownCrashes(n: nat, capacity: nat)
    requires 0 < n && 0 < capacity
    ensures Crashes(n, capacity, true, FAILS_AFTER_SHUTDOWN)
  {
    var s := Start(n, capacity, true);
    var s1 := Step(s, Choose(0));
    var s2 := Step(s1, Submit(0));
    var s3 := Step(s2, Take(0));
    var s4 := Step(s3, Shutdown);
    var s5 := Step(s4, Answer(0, true));
    RunThree(s3, Shutdown, Answer(0, true), Tell(0), []);
    RunThree(s, Choose(0), Submit(0), Take(0), [Shutdown, Answer(0, true), Tell(0)]);
    assert [Shutdown, Answer(0, true), Tell(0)] + [] == [Shutdown, Answer(0, true), Tell(0)];
    assert FAILS_AFTER_SHUTDOWN == [Choose(0), Submit(0), Take(0)] + [Shutdown, Answer(0, true), Tell(0)];
  }

  /** So does a listener that takes a signal left in the channel of disconnections when terminate closed it. */
  const DRAINS_AFTER_SHUTDOWN: seq<Action> := [Terminate, Shutdown, Elsewhere]

  lemma DrainingAfterShutdownCrashes(n: nat, capacity: nat)
    ensures Crashes(n, capacity, true, DRAINS_AFTER_SHUTDOWN)
  {
    RunThree(Start(n, capacity, true), Terminate, Shutdown, Elsewhere, []);
    assert DRAINS_AFTER_SHUTDOWN == [Terminate, Shutdown, Elsewhere] + [];
  }

  /** That can happen exactly when disconnections trigger a rebalance. */
  lemma CanCrashExactlyWhen(n: nat, capacity: nat, rebalances: bool)
    requires 0 < n
    ensures (exists actions :: Crashes(n, capacity, rebalances, actions)) <==> rebalances
  {
    if rebalances {
      DrainingAfterShutdownCrashes(n, capacity);
    } else {
      forall actions ensures !Crashes(n, capacity, false, actions) {
        if Possible(Start(n, capacity, false), actions) {
          RunLeavesNothing(Start(n, capacity, false), actions);
        }
      }
    }
  }

  // ----- the setting decides

  /** The actions in which the callers of the jobs from `k` to `n` all find the node connected, and then `rest`. */
  function ChooseFrom(k: nat, n: nat, rest: seq<Action>): seq<Action>
    requires k <= n + 1
    decreases n + 1 - k
  {
    if k == n + 1 then rest else [Choose(k)] + ChooseFrom(k + 1, n, rest)
  }

  /** The actions in which the workers from `w` on take one job each, fail on it, signal and leave. */
  function FailFrom(w: nat, n: nat): seq<Action>
    requires w <= n
    decreases n - w
  {
    if w == n then [Submit(n)]
    else [Submit(w), Take(w), Answer(w, true), Tell(w), Rebalance] + FailFrom(w + 1, n)
  }

  /** The workers below `w` have left over one job each, and the callers of the jobs from `w` to `n` are waiting. */
  ghost predicate Failing(p: Pool, w: nat) {
    && p.rebalances && !p.closed && 0 < p.capacity && p.queue == [] && w <= |p.workers|
    && !p.crashed && !p.shut && p.signals == 0
    && (forall j :: w <= j <= |p.workers| ==> j in p.pending)
    && (forall i :: 0 <= i < |p.workers| ==> p.workers[i] == if i < w then Gone else Idle)
  }

  /** Worker `w` takes a job and fails on it. */
  lemma FailsOnce(p: Pool, w: nat, rest: seq<Action>) returns (q: Pool)
    requires Failing(p, w) && w < |p.workers|
    ensures q == p.(workers := p.workers[w := Telling], pending := p.pending - {w}, accepted := p.accepted + [w],
                    taken := p.taken + [w], answered := p.answered + [w])
    ensures var all := [Submit(w), Take(w), Answer(w, true)] + rest;
            Possible(q, rest) ==> Possible(p, all) && Run(p, all) == Run(q, rest)
  {
    q := Step(Step(Step(p, Submit(w)), Take(w)), Answer(w, true));
    RunThree(p, Submit(w), Take(w), Answer(w, true), rest);
    assert q.workers == p.workers[w := Telling];
    assert q.queue == [];
  }

  /** Then it signals and leaves, and the signal is taken. */
  lemma OneFailure(p: Pool, w: nat, rest: seq<Action>) returns (q: Pool)
    requires Failing(p, w) && w < |p.workers|
    ensures Failing(q, w + 1) && |q.workers| == |p.workers|
    ensures var all := [Submit(w), Take(w), Answer(w, true), Tell(w), Rebalance] + rest;
            Possible(q, rest) ==> Possible(p, all) && Run(p, all) == Run(q, rest)
  {
    var last := [Tell(w)] + ([Rebalance] + rest);
    var p3 := FailsOnce(p, w, last);
    var p4 := Step(p3, Tell(w));
    q := Step(p4, Rebalance);
    RunFirst(p4, Rebalance, rest);
    RunFirst(p3, Tell(w), [Rebalance] + rest);
    assert [Submit(w), Take(w), Answer(w, true), Tell(w), Rebalance] + rest ==
        [Submit(w), Take(w), Answer(w, true)] + last;
    assert q.workers == p.workers[w := Gone];
  }

  lemma {:induction false} FailFromStrands(p: Pool, w: nat)
    requires Failing(p, w)
    ensures Possible(p, FailFrom(w, |p.workers|))
    ensures var q := Run(p, FailFrom(w, |p.workers|)); AllGone(q) && q.queue != []
    decreases |p.workers| - w
  {
    var n := |p.workers|;
    if w == n {
      assert FailFrom(w, n)[1..] == [];
      assert Run(p, FailFrom(w, n)) == Step(p, Submit(n));
    } else {
      var q := OneFailure(p, w, FailFrom(w + 1, n));
      FailFromStrands(q, w + 1);
    }
  }

  lemma {:induction false} ChooseFromStrands(p: Pool, k: nat)
    requires p.connected && p.rebalances && !p.closed && 0 < p.capacity && p.queue == [] && k <= |p.workers| + 1
    requires p.accepted == [] && p.panicked == {} && !p.crashed && !p.shut && p.signals == 0
    requires forall j :: j in p.pending <==> 0 <= j < k
    requires forall i :: 0 <= i < |p.workers| ==> p.workers[i] == Idle
    ensures var n := |p.workers|;
            var actions := ChooseFrom(k, n, FailFrom(0, n));
            Possible(p, actions) && AllGone(Run(p, actions)) && Run(p, actions).queue != []
    decreases |p.workers| + 1 - k
  {
    var n := |p.workers|;
    if k == n + 1 {
      FailFromStrands(p, 0);
    } else {
      ChooseFromStrands(Step(p, Choose(k)), k + 1);
      RunFirst(p, Choose(k), ChooseFrom(k + 1, n, FailFrom(0, n)));
    }
  }

  /** The workers have all left, and a job was accepted that nobody will answer. */
  ghost predicate Strands(n: nat, capacity: nat, rebalances: bool, actions: seq<Action>) {
    var s := Start(n, capacity, rebalances);
    Possible(s, actions) && AllGone(Run(s, actions)) && !AllAnswered(Run(s, actions))
  }

  /** A job can be left without an answer exactly when disconnected workers leave to trigger a rebalance. */
  lemma StrandsExactlyWhen(n: nat, capacity: nat, rebalances: bool)
    requires 0 < n && 0 < capacity
    ensures (exists actions :: Strands(n, capacity, rebalances, actions)) <==> rebalances
  {
    if rebalances {
      ChooseFromStrands(Start(n, capacity, true), 0);
      assert Strands(n, capacity, true, ChooseFrom(0, n, FailFrom(0, n)));
    } else {
      forall actions ensures !Strands(n, capacity, false, actions) {
        var s := Start(n, capacity, false);
        if Possible(s, actions) && AllGone(Run(s, actions)) {
          DrainedIsAnswered(n, capacity, actions);
        }
      }
    }
  }

  // ----- the object

  class NodeWorkers {
    const capacity: nat
    const rebalances: bool
    var connected: bool
    var closed: bool
    var queue: seq<nat>
    var workers: seq<Worker>
    ghost var pending: set<nat>
    ghost var accepted: seq<nat>
    ghost var taken: seq<nat>
    ghost var answered: seq<nat>
    ghost var panicked: set<nat>
    var signals: nat   // the rebalance channel, which the node shares with the others
    var shut: bool
    ghost var crashed: bool

    ghost function State(): Pool
      reads this
    {
      Pool(capacity, rebalances, connected, closed, pending, accepted, taken, queue, workers, answered, panicked,
           signals, shut, crashed)
    }

    constructor (n: nat, capacity: nat, rebalances: bool)
      ensures State() == Start(n, capacity, rebalances) && Conserved(State())
    {
      this.capacity, this.rebalances := capacity, rebalances;
      connected, closed := true, false;
      queue, accepted, taken, answered := [], [], [], [];
      pending, panicked := {}, {};
      signals, shut, crashed := 0, false, false;
      workers := seq(n, _ => Idle);
      StartConserves(n, capacity, rebalances);
    }

    /** What GetConnectedNodeWorkers sees of a node before the job of its caller is sent. */
    method IsConnected(ghost job: nat) returns (ok: bool)
      requires Conserved(State()) && !crashed && job !in pending && job !in accepted && job !in panicked
      modifies this`pending
      ensures Conserved(State()) && ok == connected
      ensures State() == if ok then Step(old(State()), Choose(job)) else old(State())
    {
      ok := connected;
      if ok {
        StepConserves(State(), Choose(job));
        pending := pending + {job};
      }
    }

    /** `nw.jobs <- job` of addJobAndWait: the job enters the channel, unless it was closed meanwhile. */
    method AddJob(job: nat) returns (panics: bool)
      requires Conserved(State()) && !crashed && job in pending
      requires closed || |queue| < capacity  // otherwise the caller waits
      modifies this
      ensures Conserved(State()) && State() == Step(old(State()), Submit(job)) && panics == old(closed)
    {
      StepConserves(State(), Submit(job));
      pending := pending - {job};
      if closed {
        panicked := panicked + {job};
        return true;
      }
      queue := queue + [job];
      accepted := accepted + [job];
      return false;
    }

    /** The receive of `for job := range nw.jobs` in a worker: a job, or the end of a drained channel. */
    method Receive(w: nat) returns (ok: bool)
      requires Conserved(State()) && !crashed && w < |workers| && workers[w].Idle?
      requires queue != [] || closed  // otherwise the worker waits
      modifies this
      ensures Conserved(State()) && ok == (old(queue) != [])
      ensures State() == Step(old(State()), if ok then Take(w) else Leave(w))
    {
      if queue != [] {
        StepConserves(State(), Take(w));
        workers := workers[w := Busy(queue[0])];
        taken := taken + [queue[0]];
        queue := queue[1..];
        return true;
      }
      StepConserves(State(), Leave(w));
      workers := workers[w := Gone];
      connected := false;
      return false;
    }

    /** `job.response <- response`, and what a disconnection makes of the worker. */
    method Respond(w: nat, disconnected: bool) returns (job: nat)
      requires Conserved(State()) && !crashed && w < |workers| && workers[w].Busy?
      modifies this
      ensures Conserved(State()) && job == old(workers[w].job)
      ensures State() == Step(old(State()), Answer(w, disconnected))
    {
      StepConserves(State(), Answer(w, disconnected));
      job := workers[w].job;
      answered := answered + [job];
      workers := workers[w := if disconnected && rebalances then Telling else Idle];
    }

    /** `nw.rebalanceChannel <- struct{}{}`, and the end of the worker. */
    method Signal(w: nat) returns (panics: bool)
      requires Conserved(State()) && !crashed && w < |workers| && workers[w].Telling?
      requires shut || signals < ROOM  // otherwise the worker waits
      modifies this
      ensures Conserved(State()) && State() == Step(old(State()), Tell(w)) && panics == old(shut)
    {
      StepConserves(State(), Tell(w));
      workers := workers[w := Gone];
      connected := false;
      if shut {
        crashed := true;
        return true;
      }
      signals := signals + 1;
      return false;
    }

    /** terminate: the job channel can be closed once only. */
    method Close()
      requires Conserved(State()) && !crashed && !closed
      modifies this
      ensures Conserved(State()) && State() == Step(old(State()), Terminate)
    {
      StepConserves(State(), Terminate);
      connected := false;
      closed := true;
    }
  }
}
