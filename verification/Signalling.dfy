/**
  * The disconnection channel of one node.  Each connection has two goroutines that may report it, its worker
  * and its checker; a report wins the compare-and-swap of the failure flag, and only then sends.
  */
module Signalling {

  datatype Reporter = Worker | Checker

  /**
    * `failed`: the onFailure flags; `workerWon`, `checkerWon`: reporters between the swap and the send;
    * `buffered`, `received`: signals in the channel and out of it; `dropped`: sends that met a closed channel.
    */
  datatype State = State(
    capacity: nat, failed: seq<bool>, workerWon: seq<bool>, checkerWon: seq<bool>,
    buffered: nat, received: nat, dropped: nat, closed: bool)

  datatype Action = Swap(who: Reporter, t: nat) | Send(who: Reporter, t: nat) | Receive | Close

  predicate HasWon(s: State, who: Reporter, t: nat)
    requires |s.workerWon| == |s.checkerWon| && t < |s.workerWon|
  {
    if who == Worker then s.workerWon[t] else s.checkerWon[t]
  }

  predicate Shaped(s: State) {
    |s.failed| == |s.workerWon| == |s.checkerWon|
  }

  /** A send waits while the channel is full; on a closed channel it panics at once, and recovers. */
  predicate Enabled(s: State, a: Action)
    requires Shaped(s)
  {
    match a
    case Swap(who, t) => t < |s.failed| && !HasWon(s, who, t)
    case Send(who, t) => t < |s.failed| && HasWon(s, who, t) && (s.closed || s.buffered < s.capacity)
    case Receive => 0 < s.buffered
    case Close => !s.closed
  }

  function SetWon(s: State, who: Reporter, t: nat, b: bool): (r: State)
    requires Shaped(s) && t < |s.failed|
    ensures Shaped(r)
  {
    if who == Worker then s.(workerWon := s.workerWon[t := b]) else s.(checkerWon := s.checkerWon[t := b])
  }

  function Step(s: State, a: Action): (r: State)
    requires Shaped(s) && Enabled(s, a)
    ensures Shaped(r) && |r.failed| == |s.failed| && r.capacity == s.capacity
  {
    match a
    case Swap(who, t) => if s.failed[t] then s else SetWon(s.(failed := s.failed[t := true]), who, t, true)
    case Send(who, t) =>
      var sent := SetWon(s, who, t, false);
      if s.closed then sent.(dropped := s.dropped + 1) else sent.(buffered := s.buffered + 1)
    case Receive => s.(buffered := s.buffered - 1, received := s.received + 1)
    case Close => s.(closed := true)
  }

  function Start(n: nat, capacity: nat): State {
    var none := seq(n, _ => false);
    State(capacity, none, none, none, 0, 0, 0, false)
  }

  predicate Possible(s: State, actions: seq<Action>)
    requires Shaped(s)
    decreases |actions|
  {
    actions != [] ==> Enabled(s, actions[0]) && Possible(Step(s, actions[0]), actions[1..])
  }

  function Run(s: State, actions: seq<Action>): (r: State)
    requires Shaped(s) && Possible(s, actions)
    ensures Shaped(r) && |r.failed| == |s.failed| && r.capacity == s.capacity
    decreases |actions|
  {
    if actions == [] then s else Run(Step(s, actions[0]), actions[1..])
  }

  function Count(bs: seq<bool>): (c: nat)
    ensures c <= |bs|
  {
    if bs == [] then 0 else (if bs[0] then 1 else 0) + Count(bs[1..])
  }

  lemma {:induction false} CountUpdate(bs: seq<bool>, t: nat, b: bool)
    requires t < |bs|
    ensures Count(bs[t := b]) + (if bs[t] then 1 else 0) == Count(bs) + (if b then 1 else 0)
  {
    if t == 0 {
      assert bs[t := b][1..] == bs[1..];
    } else {
      assert bs[t := b][1..] == bs[1..][t - 1 := b];
      CountUpdate(bs[1..], t - 1, b);
    }
  }

  lemma {:induction false} CountNone(n: nat)
    ensures Count(seq(n, _ => false)) == 0
  {
    if n != 0 {
      assert seq(n, _ => false)[1..] == seq(n - 1, _ => false);
      CountNone(n - 1);
    }
  }

  /** Every flag that is up stands for one signal: about to be sent, in the channel, received or dropped. */
  ghost predicate Inv(s: State) {
    && Shaped(s)
    && (forall t :: 0 <= t < |s.failed| ==> (s.workerWon[t] || s.checkerWon[t] ==> s.failed[t]))
    && (forall t :: 0 <= t < |s.failed| ==> !(s.workerWon[t] && s.checkerWon[t]))
    && Count(s.failed) == Count(s.workerWon) + Count(s.checkerWon) + s.buffered + s.received + s.dropped
  }

  lemma SwapKeeps(s: State, who: Reporter, t: nat)
    requires Inv(s) && Enabled(s, Swap(who, t))
    ensures Inv(Step(s, Swap(who, t)))
  {
    CountUpdate(s.failed, t, true);
    CountUpdate(if who == Worker then s.workerWon else s.checkerWon, t, true);
  }

  lemma SendKeeps(s: State, who: Reporter, t: nat)
    requires Inv(s) && Enabled(s, Send(who, t))
    ensures Inv(Step(s, Send(who, t)))
  {
    CountUpdate(if who == Worker then s.workerWon else s.checkerWon, t, false);
  }

  lemma StepKeeps(s: State, a: Action)
    requires Inv(s) && Enabled(s, a)
    ensures Inv(Step(s, a))
  {
    match a
    case Swap(who, t) => SwapKeeps(s, who, t);
    case Send(who, t) => SendKeeps(s, who, t);
    case Receive =>
    case Close =>
  }

  lemma {:induction false} RunKeeps(s: State, actions: seq<Action>)
    requires Inv(s) && Possible(s, actions)
    ensures Inv(Run(s, actions))
    decreases |actions|
  {
    if actions != [] {
      StepKeeps(s, actions[0]);
      RunKeeps(Step(s, actions[0]), actions[1..]);
    }
  }

  /** Some reporter has to wait before it can send. */
  ghost predicate Blocked(s: State) {
    Shaped(s) && !s.closed && s.buffered >= s.capacity && exists who, t :: 0 <= t < |s.failed| && HasWon(s, who, t)
  }

  lemma WonLeavesRoom(s: State)
    requires Inv(s) && Blocked(s)
    ensures s.capacity < |s.failed|
  {
    var who, t :| 0 <= t < |s.failed| && HasWon(s, who, t);
    CountUpdate(if who == Worker then s.workerWon else s.checkerWon, t, false);
  }

  /** Each of `k` connections, from number `t` on, reports through its worker; the next one is about to. */
  function ReportFrom(t: nat, k: nat): seq<Action>
    decreases k
  {
    if k == 0 then [Swap(Worker, t)] else [Swap(Worker, t), Send(Worker, t)] + ReportFrom(t + 1, k - 1)
  }

  lemma {:induction false} ReportFromBlocks(s: State, t: nat, k: nat)
    requires Shaped(s) && !s.closed && t + k < |s.failed| && s.buffered + k == s.capacity
    requires forall i :: t <= i < |s.failed| ==> !s.failed[i] && !s.workerWon[i]
    ensures Possible(s, ReportFrom(t, k))
    ensures Blocked(Run(s, ReportFrom(t, k)))
    decreases k
  {
    var s1 := Step(s, Swap(Worker, t));
    var all := ReportFrom(t, k);
    if k == 0 {
      assert all[1..] == [];
      assert Run(s, all) == s1;
      assert HasWon(s1, Worker, t);
    } else {
      var s2 := Step(s1, Send(Worker, t));
      ReportFromBlocks(s2, t + 1, k - 1);
      assert all[1..] == [Send(Worker, t)] + ReportFrom(t + 1, k - 1);
      assert all[1..][1..] == ReportFrom(t + 1, k - 1);
    }
  }

  ghost predicate CanBlock(n: nat, capacity: nat, actions: seq<Action>) {
    Possible(Start(n, capacity), actions) && Blocked(Run(Start(n, capacity), actions))
  }

  /**
    * Reporting never blocks, in any interleaving of workers, checkers, the listener and terminate, exactly
    * when the channel holds as many signals as the node has connections, which is how it is made.
    */
  lemma NeverBlocksExactlyWhen(n: nat, capacity: nat)
    ensures (forall actions :: !CanBlock(n, capacity, actions)) <==> n <= capacity
  {
    if n <= capacity {
      forall actions ensures !CanBlock(n, capacity, actions) {
        if CanBlock(n, capacity, actions) {
          CountNone(n);
          RunKeeps(Start(n, capacity), actions);
          WonLeavesRoom(Run(Start(n, capacity), actions));
        }
      }
    } else {
      ReportFromBlocks(Start(n, capacity), 0, capacity);
      assert CanBlock(n, capacity, ReportFrom(0, capacity));
    }
  }

  /** Over every run, a connection is reported once at most, whoever notices its failure. */
  lemma SignalsOncePerConnection(n: nat, capacity: nat, actions: seq<Action>)
    requires Possible(Start(n, capacity), actions)
    ensures var s := Run(Start(n, capacity), actions);
            s.buffered + s.received + s.dropped <= Count(s.failed) <= n
  {
    CountNone(n);
    RunKeeps(Start(n, capacity), actions);
  }

  /** The sends that come behind the closing of the channel. */
  function LateSends(closed: bool, actions: seq<Action>): nat
    decreases |actions|
  {
    if actions == [] then 0
    else (if closed && actions[0].Send? then 1 else 0) + LateSends(closed || actions[0] == Close, actions[1..])
  }

  lemma {:induction false} DroppedAreLate(s: State, actions: seq<Action>)
    requires Shaped(s) && Possible(s, actions)
    ensures Run(s, actions).dropped == s.dropped + LateSends(s.closed, actions)
    ensures Run(s, actions).closed <==> s.closed || Close in actions
    decreases |actions|
  {
    if actions != [] {
      DroppedAreLate(Step(s, actions[0]), actions[1..]);
      assert Close in actions <==> actions[0] == Close || Close in actions[1..];
    }
  }

  /**
    * Over every run the signals that are lost are those sent behind the closing of the channel; such a send panics
    * and recovers, and never waits.
    */
  lemma LostExactlyWhenClosed(n: nat, capacity: nat, actions: seq<Action>)
    requires Possible(Start(n, capacity), actions)
    ensures var s := Run(Start(n, capacity), actions);
            && s.dropped == LateSends(false, actions)
            && (Close in actions ==> forall who, t: nat :: t < n && HasWon(s, who, t) ==> Enabled(s, Send(who, t)))
  {
    DroppedAreLate(Start(n, capacity), actions);
  }
}
