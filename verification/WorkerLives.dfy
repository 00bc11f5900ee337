/**
  * The end of every worker: over a rebalance, a run and Shutdown the channels of each worker that was ever made are
  * closed exactly once, unless its node was dropped from a listing.
  */
module WorkerLives {
  import opened Bytes
  import opened Sorting
  import opened Rebalancing

  // ----- one sweep

  /** The map leads from a node that is still to be visited to that worker. */
  ghost predicate Awaited(sw: Sweep, id: nat, todo: seq<Node>) {
    exists n :: n in todo && NodeString(n) in sw.existing && sw.existing[NodeString(n)] == id
  }

  /** The workers that can go on after the visit of some nodes: those kept, and those that were not looked at. */
  ghost predicate Survives(sw: Sweep, id: nat, todo: seq<Node>) {
    id < |sw.workers| && sw.workers[id].Open() && !Awaited(sw, id, todo)
  }

  /** Workers that are gathered stand in the array already, were awaited, or are new. */
  ghost predicate Gathers(sw: Sweep, end: Sweep, todo: seq<Node>) {
    sw.ids <= end.ids && forall id :: id in end.ids ==> id in sw.ids || Awaited(sw, id, todo) || |sw.workers| <= id
  }

  ghost predicate ClosesRest(sw: Sweep, end: Sweep, todo: seq<Node>) {
    forall id: nat :: id < |end.workers| ==> (end.workers[id].Open() <==> id in end.ids || Survives(sw, id, todo))
  }

  /** That is the worker found under the node's text. */
  predicate IsFound(sw: Sweep, node: Node, id: nat) {
    NodeString(node) in sw.existing && sw.existing[NodeString(node)] == id
  }

  lemma AwaitedFirst(sw: Sweep, node: Node, todo: seq<Node>, id: nat)
    ensures Awaited(sw, id, [node] + todo) <==> IsFound(sw, node, id) || Awaited(sw, id, todo)
  {
    assert node in [node] + todo;
    assert forall n :: n in [node] + todo <==> n == node || n in todo;
  }

  /** A new worker is known under its own node only, which is not visited again. */
  lemma CreatedAwaits(sw: Sweep, node: Node, creates: bool, todo: seq<Node>, id: nat)
    requires sw.Bounded() && node !in todo
    ensures Awaited(Created(sw, node, creates), id, todo) <==> Awaited(sw, id, todo)
  {
    var next := Created(sw, node, creates);
    forall n | n in todo
      ensures NodeString(n) in next.existing <==> NodeString(n) in sw.existing
      ensures NodeString(n) in sw.existing ==> next.existing[NodeString(n)] == sw.existing[NodeString(n)]
    {
      NodeStringsDiffer(n, node);
    }
  }

  /** One visit: the worker of the node is kept or closed, a new one is gathered or closed, all others stay. */
  ghost predicate VisitTouches(sw: Sweep, next: Sweep, node: Node) {
    && |sw.workers| <= |next.workers| && sw.ids <= next.ids
    && (forall id :: id in next.ids ==> id in sw.ids || |sw.workers| <= id || IsFound(sw, node, id))
    && (forall id: nat :: id < |sw.workers| ==>
          (next.workers[id].Open() <==> (sw.workers[id].Open() && (IsFound(sw, node, id) ==> id in next.ids))))
    && (forall id: nat :: |sw.workers| <= id < |next.workers| ==> (next.workers[id].Open() <==> id in next.ids))
  }

  lemma CreatedTouches(sw: Sweep, node: Node, creates: bool)
    requires sw.Bounded() && forall id :: id in sw.ids ==> id < |sw.workers|
    ensures var next := Created(sw, node, creates);
            && |next.workers| == |sw.workers| + 1 && next.workers[..|sw.workers|] == sw.workers
            && (forall id :: id in next.ids <==> id in sw.ids || (creates && id == |sw.workers|))
            && sw.ids <= next.ids && (next.workers[|sw.workers|].Open() <==> creates)
  {
  }

  /** The worker that is found under the node's text is not gathered yet. */
  lemma FoundIsNotGathered(sw: Sweep, node: Node, todo: seq<Node>)
    requires SweepInv(sw, [node] + todo) && NodeString(node) in sw.existing
    ensures sw.existing[NodeString(node)] !in sw.ids
  {
    var id := sw.existing[NodeString(node)];
    FoundIsOfNode(sw, node);
    forall i | 0 <= i < |sw.ids| ensures sw.ids[i] != id {
      assert sw.nodes[i] !in [node] + todo;
      assert node in [node] + todo;
    }
  }

  lemma VisitedTouches(sw: Sweep, node: Node, v: Visit, todo: seq<Node>)
    requires sw.Bounded() && SweepInv(sw, [node] + todo)
    ensures VisitTouches(sw, Visited(sw, node, v), node)
  {
    var now := sw.(workers := Dropped(sw.workers, v.drops));
    var key := NodeString(node);
    if key in now.existing {
      var id := now.existing[key];
      FoundIsNotGathered(sw, node, todo);
      if !now.workers[id].connected {
        CreatedTouches(now.(workers := now.workers[id := now.workers[id].Terminated()]), node, v.Creates());
      }
    } else {
      CreatedTouches(now, node, v.Creates());
    }
  }

  /** The node of a visit is published exactly when its worker was found connected, or every dial succeeds. */
  lemma PublishedExactlyWhen(sw: Sweep, node: Node, v: Visit)
    requires sw.Bounded()
    ensures var next := Visited(sw, node, v);
            var key := NodeString(node);
            var kept := key in sw.existing && sw.existing[key] !in v.drops && sw.workers[sw.existing[key]].connected;
            && (kept ==> next.nodes == sw.nodes + [node] && next.ids == sw.ids + [sw.existing[key]])
            && (!kept && (forall k :: 0 <= k < |v.dials| ==> v.dials[k]) ==>
                  next.nodes == sw.nodes + [node] && next.ids == sw.ids + [|sw.workers|]
                  && next.workers[|sw.workers|] == Worker(node, true, 0, 0))
            && (!kept && (exists k :: 0 <= k < |v.dials| && !v.dials[k]) ==>
                  next.nodes == sw.nodes && next.ids == sw.ids)
  {
  }

  lemma VisitedAwaits(sw: Sweep, node: Node, v: Visit, todo: seq<Node>, id: nat)
    requires sw.Bounded() && node !in todo
    ensures Awaited(Visited(sw, node, v), id, todo) <==> Awaited(sw, id, todo)
  {
    var now := sw.(workers := Dropped(sw.workers, v.drops));
    var key := NodeString(node);
    if key in now.existing {
      var found := now.existing[key];
      if !now.workers[found].connected {
        var ended := now.(workers := now.workers[found := now.workers[found].Terminated()]);
        CreatedAwaits(ended, node, v.Creates(), todo, id);
      }
    } else {
      CreatedAwaits(now, node, v.Creates(), todo, id);
    }
  }

  /** One visit, and the sweep over the rest. */
  lemma SweepCombines(sw: Sweep, next: Sweep, end: Sweep, node: Node, todo: seq<Node>)
    requires VisitTouches(sw, next, node) && |next.workers| <= |end.workers|
    requires Gathers(next, end, todo) && ClosesRest(next, end, todo)
    requires forall id: nat :: Awaited(next, id, todo) <==> Awaited(sw, id, todo)
    requires forall id: nat :: Awaited(sw, id, [node] + todo) <==> IsFound(sw, node, id) || Awaited(sw, id, todo)
    ensures Gathers(sw, end, [node] + todo) && ClosesRest(sw, end, [node] + todo)
  {
    forall id: nat | id < |end.workers|
      ensures end.workers[id].Open() <==> id in end.ids || Survives(sw, id, [node] + todo)
    {
      assert end.workers[id].Open() <==> id in end.ids || Survives(next, id, todo);
      assert id in next.ids ==> id in end.ids;
    }
  }

  /** Over a sweep: open are in the end the workers gathered, and those that were not looked at. */
  lemma {:induction false} SweepCloses(sw: Sweep, listing: seq<Node>, visits: seq<Visit>)
    requires sw.Bounded() && |visits| == |listing| && SweepInv(sw, listing) && Distinct(listing)
    ensures var end := Swept(sw, listing, visits);
            |sw.workers| <= |end.workers| && Gathers(sw, end, listing) && ClosesRest(sw, end, listing)
    decreases |listing|
  {
    if listing == [] {
      assert forall id: nat :: id < |sw.workers| && sw.workers[id].Open() ==> Survives(sw, id, []);
    } else {
      var node, todo := listing[0], listing[1..];
      assert listing == [node] + todo;
      var next := Visited(sw, node, visits[0]);
      var end := Swept(next, todo, visits[1..]);
      assert VisitTouches(sw, next, node) by {
        VisitedTouches(sw, node, visits[0], todo);
      }
      assert |next.workers| <= |end.workers| && Gathers(next, end, todo) && ClosesRest(next, end, todo) by {
        VisitKeeps(sw, node, visits[0], todo);
        SweepCloses(next, todo, visits[1..]);
      }
      forall id: nat
        ensures Awaited(next, id, todo) <==> Awaited(sw, id, todo)
        ensures Awaited(sw, id, [node] + todo) <==> IsFound(sw, node, id) || Awaited(sw, id, todo)
      {
        VisitedAwaits(sw, node, visits[0], todo, id);
        AwaitedFirst(sw, node, todo, id);
      }
      SweepCombines(sw, next, end, node, todo);
    }
  }

  // ----- one rebalance

  /** That worker stands in the array, and the listing names its node. */
  ghost predicate Listed(s: State, id: nat, listing: seq<Node>) {
    exists i :: 0 <= i < |s.ids| && i < |s.nodes| && s.ids[i] == id && s.nodes[i] in listing
  }

  lemma ListedIsAwaited(s: State, listing: seq<Node>, id: nat)
    requires Inv(s)
    ensures Awaited(Start(s), id, listing) <==> Listed(s, id, listing)
  {
    if n :| n in listing && NodeString(n) in All(s) && All(s)[NodeString(n)] == id {
      var i := ExistingSource(Texts(s.nodes), s.ids, |s.nodes|, NodeString(n));
      NodeStringInjective(s.nodes[i], n);
      assert s.ids[i] == id && s.nodes[i] in listing;
    }
    if i :| 0 <= i < |s.ids| && i < |s.nodes| && s.ids[i] == id && s.nodes[i] in listing {
      AllHolds(s, i);
    }
  }

  /**
    * Which workers a rebalance leaves open: those it publishes, and those of the others that were open before and
    * were not looked at, because the listing does not name a node for which they stood in the array.
    */
  lemma RebalanceClosesRest(sort: nat -> Program, s: State, listing: seq<Node>, visits: seq<Visit>)
    requires Programs(sort) && Inv(s) && Distinct(listing) && |visits| == |listing|
    ensures var after := Rebalanced(sort, s, listing, visits);
            && |s.workers| <= |after.workers|
            && (forall id: nat :: id < |after.workers| ==>
                  (after.workers[id].Open() <==>
                    id in after.ids || (id < |s.workers| && s.workers[id].Open() && !Listed(s, id, listing))))
            && (forall id :: id in after.ids ==> Listed(s, id, listing) || |s.workers| <= id)
  {
    StartKeeps(s, listing);
    SweepCloses(Start(s), listing, visits);
    SweepKeeps(Start(s), listing, visits);
    var end := Swept(Start(s), listing, visits);
    var moved := SortsMoveAlike(sort, end);
    RearrangedHasSame(Rebalanced(sort, s, listing, visits).ids, end.ids, moved);
    forall id: nat ensures Awaited(Start(s), id, listing) <==> Listed(s, id, listing) {
      ListedIsAwaited(s, listing, id);
    }
  }

  /** A worker that is closed is closed once. */
  lemma ClosedIsEnded(after: State, id: nat)
    requires Inv(after) && id < |after.workers| && !after.workers[id].Open()
    ensures after.workers[id].jobsClosed == 1 && after.workers[id].channelClosed == 1 && !after.workers[id].connected
  {
    assert after.workers[id].Sound();
  }

  /**
    * A worker whose node is listed, and which is not published again, has both its channels closed, once: no job,
    * worker or listener of it is left waiting.
    */
  lemma ReplacedAreEnded(
    sort: nat -> Program, s: State, listing: seq<Node>, visits: seq<Visit>, id: nat, after: State)
    requires Programs(sort) && Inv(s) && Distinct(listing) && |visits| == |listing|
    requires after == Rebalanced(sort, s, listing, visits)
    requires Listed(s, id, listing) && id !in after.ids
    ensures id < |after.workers| && !after.workers[id].connected
    ensures after.workers[id].jobsClosed == 1 && after.workers[id].channelClosed == 1
  {
    RebalanceClosesRest(sort, s, listing, visits);
    RebalanceKeeps(sort, s, listing, visits);
    ClosedIsEnded(after, id);
  }

  // ----- every run

  /** The workers that a rebalance leaves behind: those of nodes that the listing does not name any more. */
  function LeftBehind(s: State, listing: seq<Node>): (left: set<nat>)
    requires |s.ids| == |s.nodes|
  {
    set i | 0 <= i < |s.ids| && s.nodes[i] !in listing :: s.ids[i]
  }

  /** The same over a run. */
  ghost function Forgotten(sort: nat -> Program, s: State, events: seq<Event>): (left: set<nat>)
    requires Programs(sort) && Inv(s) && WellFormed(events)
    decreases |events|
  {
    if events == [] then {}
    else
      AfterKeeps(sort, s, events[0]);
      (if events[0].Rebalance? then LeftBehind(s, events[0].listing) else {})
      + Forgotten(sort, After(sort, s, events[0]), events[1..])
  }

  /** Open are the workers of the array, and those in `left`. */
  ghost predicate Accounted(s: State, left: set<nat>) {
    && (forall id: nat :: id < |s.workers| ==> (s.workers[id].Open() <==> id in s.ids || id in left))
    && (forall id :: id in left ==> id < |s.workers| && id !in s.ids)
  }

  lemma RebalanceAccounts(
    sort: nat -> Program, s: State, listing: seq<Node>, visits: seq<Visit>, left: set<nat>)
    requires Programs(sort) && Inv(s) && Distinct(listing) && |visits| == |listing| && Accounted(s, left)
    ensures Accounted(Rebalanced(sort, s, listing, visits), left + LeftBehind(s, listing))
  {
    RebalanceClosesRest(sort, s, listing, visits);
    forall i, j | 0 <= i < j < |s.ids| ensures s.ids[i] != s.ids[j] {
      WorkersDiffer(s, i, j);
    }
    forall id: nat
      ensures id in LeftBehind(s, listing) <==> id in s.ids && !Listed(s, id, listing)
    {
    }
  }

  lemma AfterAccounts(sort: nat -> Program, s: State, e: Event, left: set<nat>)
    requires Programs(sort) && Inv(s) && Accounted(s, left)
    requires e.Rebalance? ==> Distinct(e.listing) && |e.visits| == |e.listing|
    ensures Accounted(After(sort, s, e), left + if e.Rebalance? then LeftBehind(s, e.listing) else {})
  {
    if e.Rebalance? {
      RebalanceAccounts(sort, s, e.listing, e.visits, left);
    }
  }

  lemma {:induction false} RunAccounts(sort: nat -> Program, s: State, events: seq<Event>, left: set<nat>)
    requires Programs(sort) && Inv(s) && WellFormed(events) && Accounted(s, left)
    ensures Accounted(Run(sort, s, events), left + Forgotten(sort, s, events))
    decreases |events|
  {
    if events == [] {
      assert left + {} == left;
    } else {
      var now := if events[0].Rebalance? then LeftBehind(s, events[0].listing) else {};
      AfterKeeps(sort, s, events[0]);
      AfterAccounts(sort, s, events[0], left);
      RunAccounts(sort, After(sort, s, events[0]), events[1..], left + now);
      var rest := Forgotten(sort, After(sort, s, events[0]), events[1..]);
      assert left + now + rest == left + (now + rest);
    }
  }

  /**
    * The end of every worker.  Over any run of rebalances and failures from the start of a client, followed by one
    * Shutdown, each worker that was ever made has both its channels closed exactly once, except those that
    * stood in the array for a node when a listing came that did not name it: theirs are never closed.
    */
  lemma WorkersEndOnce(sort: nat -> Program, events: seq<Event>)
    requires Programs(sort) && WellFormed(events)
    ensures var s := Run(sort, FRESH_CLIENT, events);
            && (forall i :: 0 <= i < |s.ids| ==> s.ids[i] < |s.workers|)
            && var end := EndedAll(s.workers, s.ids);
               forall id: nat :: id < |end| ==>
                 var closed := if id in Forgotten(sort, FRESH_CLIENT, events) then 0 else 1;
                 end[id].jobsClosed == closed && end[id].channelClosed == closed
  {
    RunKeeps(sort, FRESH_CLIENT, events);
    RunAccounts(sort, FRESH_CLIENT, events, {});
    var s := Run(sort, FRESH_CLIENT, events);
    assert {} + Forgotten(sort, FRESH_CLIENT, events) == Forgotten(sort, FRESH_CLIENT, events);
    forall i, j | 0 <= i < j < |s.ids| ensures s.ids[i] != s.ids[j] {
      WorkersDiffer(s, i, j);
    }
    EndedAllOnce(s.workers, s.ids);
  }
}
