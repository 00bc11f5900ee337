/** What a rebalance does not depend on: being repeated, and the order of the listing. */
module RebalancingStability {
  import opened Bytes
  import opened Sorting
  import opened Rebalancing

  function NodeSet(nodes: seq<Node>): set<Node> {
    set n | n in nodes
  }

  /** The nodes of a listing that are in a set, in the order of the listing. */
  function Filter(listing: seq<Node>, keep: set<Node>): (r: seq<Node>)
    ensures forall n :: n in r <==> n in listing && n in keep
  {
    if listing == [] then []
    else if listing[0] in keep then [listing[0]] + Filter(listing[1..], keep)
    else Filter(listing[1..], keep)
  }

  lemma VisitedNodes(sw: Sweep, node: Node, v: Visit)
    requires sw.Bounded()
    ensures Visited(sw, node, v).nodes == sw.nodes || Visited(sw, node, v).nodes == sw.nodes + [node]
  {
  }

  /** One turn of that loop, on the lists alone. */
  lemma AppendStep(before: seq<Node>, next: seq<Node>, node: Node, rest: seq<Node>, keep: set<Node>)
    requires next == if node in keep then before + [node] else before
    ensures next + Filter(rest, keep) == before + Filter([node] + rest, keep)
  {
    assert ([node] + rest)[1..] == rest;
  }

  /** A node is in the result exactly when its own turn appended it. */
  lemma OwnTurnDecides(before: seq<Node>, next: seq<Node>, node: Node, rest: seq<Node>, keep: set<Node>)
    requires next == before || next == before + [node]
    requires node !in before && node !in rest
    ensures node in next + Filter(rest, keep) <==> next != before
  {
    if next != before {
      assert next[|before|] == node;
    }
  }

  /** The loop appends those nodes that it publishes, in the order of the listing. */
  lemma {:induction false} SweptAppends(sw: Sweep, listing: seq<Node>, visits: seq<Visit>)
    requires sw.Bounded() && |visits| == |listing| && Distinct(listing)
    requires forall n :: n in sw.nodes ==> n !in listing
    ensures var r := Swept(sw, listing, visits);
            r.nodes == sw.nodes + Filter(listing, NodeSet(r.nodes))
    decreases |listing|
  {
    if listing != [] {
      var node, rest := listing[0], listing[1..];
      var next := Visited(sw, node, visits[0]);
      VisitedNodes(sw, node, visits[0]);
      SweptAppends(next, rest, visits[1..]);
      assert listing == [node] + rest;
      var keep := NodeSet(Swept(sw, listing, visits).nodes);
      OwnTurnDecides(sw.nodes, next.nodes, node, rest, keep);
      AppendStep(sw.nodes, next.nodes, node, rest, keep);
    }
  }

  // ----- rebalancing again

  function NodeIfKnown(n: Node, m: map<Bytes, nat>): seq<Node> {
    if NodeString(n) in m then [n] else []
  }

  function IdIfKnown(n: Node, m: map<Bytes, nat>): seq<nat> {
    if NodeString(n) in m then [m[NodeString(n)]] else []
  }

  /** The nodes of a listing that a map knows by their text, and the workers it has for them. */
  function Retained(listing: seq<Node>, m: map<Bytes, nat>): seq<Node> {
    if listing == [] then [] else NodeIfKnown(listing[0], m) + Retained(listing[1..], m)
  }

  function RetainedIds(listing: seq<Node>, m: map<Bytes, nat>): seq<nat> {
    if listing == [] then [] else IdIfKnown(listing[0], m) + RetainedIds(listing[1..], m)
  }

  /** The workers are those that the map has for the nodes. */
  ghost predicate Paired(nodes: seq<Node>, ids: seq<nat>, m: map<Bytes, nat>) {
    |ids| == |nodes| && forall i :: 0 <= i < |nodes| ==> NodeString(nodes[i]) in m && ids[i] == m[NodeString(nodes[i])]
  }

  lemma PairedAppend(nodes: seq<Node>, ids: seq<nat>, nodes': seq<Node>, ids': seq<nat>, m: map<Bytes, nat>)
    requires Paired(nodes, ids, m) && Paired(nodes', ids', m)
    ensures Paired(nodes + nodes', ids + ids', m)
  {
    forall i | 0 <= i < |nodes + nodes'|
      ensures NodeString((nodes + nodes')[i]) in m && (ids + ids')[i] == m[NodeString((nodes + nodes')[i])]
    {
      if i < |nodes| {
        assert (nodes + nodes')[i] == nodes[i];
      } else {
        assert (nodes + nodes')[i] == nodes'[i - |nodes|];
      }
    }
  }

  lemma PairedIfKnown(n: Node, m: map<Bytes, nat>)
    ensures Paired(NodeIfKnown(n, m), IdIfKnown(n, m), m)
  {
  }

  lemma {:induction false} RetainedPairs(listing: seq<Node>, m: map<Bytes, nat>)
    ensures Paired(Retained(listing, m), RetainedIds(listing, m), m)
  {
    if listing != [] {
      var first, rest := listing[0], listing[1..];
      RetainedPairs(rest, m);
      PairedIfKnown(first, m);
      PairedAppend(NodeIfKnown(first, m), IdIfKnown(first, m), Retained(rest, m), RetainedIds(rest, m), m);
    }
  }

  /** No worker fails meanwhile, and what could not be reached before cannot be reached now. */
  ghost predicate Quiet(listing: seq<Node>, visits: seq<Visit>, known: seq<Node>) {
    |visits| == |listing| && forall i :: 0 <= i < |visits| ==>
      visits[i].drops == {} && (visits[i].Creates() ==> listing[i] in known)
  }

  ghost predicate AllConnected(s: State) {
    forall i :: 0 <= i < |s.ids| ==> s.ids[i] < |s.workers| && s.workers[s.ids[i]].connected
  }

  /** The map knows exactly the connected nodes, each by its worker. */
  lemma AllKnowsNodes(s: State, n: Node)
    requires Inv(s)
    ensures NodeString(n) in All(s) <==> n in s.nodes
    ensures n in s.nodes ==> All(s)[NodeString(n)] in s.ids
  {
    if n in s.nodes {
      var i :| 0 <= i < |s.nodes| && s.nodes[i] == n;
      AllHolds(s, i);
    }
    if NodeString(n) in All(s) {
      AllIsKeyed(s);
      var id := All(s)[NodeString(n)];
      assert id in s.ids;
      NodeStringInjective(s.workers[id].node, n);
    }
  }

  /** The state of the loop over a quiet listing: nothing was added but workers that could not connect. */
  ghost predicate StillAs(s: State, sw: Sweep)
    requires Inv(s)
  {
    sw.existing == All(s) && s.workers <= sw.workers
  }

  lemma {:induction false} RetainedAreConnected(s: State, listing: seq<Node>)
    requires Inv(s)
    ensures Retained(listing, All(s)) == Filter(listing, NodeSet(s.nodes))
  {
    if listing != [] {
      AllKnowsNodes(s, listing[0]);
      RetainedAreConnected(s, listing[1..]);
    }
  }

  lemma QuietVisit(s: State, sw: Sweep, node: Node, v: Visit)
    requires Inv(s) && AllConnected(s) && sw.Bounded() && StillAs(s, sw)
    requires v.drops == {} && (v.Creates() ==> node in s.nodes)
    ensures var r := Visited(sw, node, v);
            && StillAs(s, r)
            && r.nodes == sw.nodes + NodeIfKnown(node, All(s))
            && r.ids == sw.ids + IdIfKnown(node, All(s))
  {
    AllKnowsNodes(s, node);
    assert Dropped(sw.workers, {}) == sw.workers;
    if node in s.nodes {
      var id := All(s)[NodeString(node)];
      var i :| 0 <= i < |s.ids| && s.ids[i] == id;
      assert sw.workers[id] == s.workers[id];
    }
  }

  lemma PlusAssociates<T>(a: seq<T>, b: seq<T>, c: seq<T>)
    ensures a + b + c == a + (b + c)
  {
  }

  lemma {:induction false} QuietSweep(s: State, sw: Sweep, listing: seq<Node>, visits: seq<Visit>)
    requires Inv(s) && AllConnected(s) && sw.Bounded() && StillAs(s, sw) && Quiet(listing, visits, s.nodes)
    ensures var r := Swept(sw, listing, visits);
            && StillAs(s, r)
            && r.nodes == sw.nodes + Retained(listing, All(s))
            && r.ids == sw.ids + RetainedIds(listing, All(s))
    decreases |listing|
  {
    if listing != [] {
      var rest := listing[1..];
      QuietVisit(s, sw, listing[0], visits[0]);
      QuietSweep(s, Visited(sw, listing[0], visits[0]), rest, visits[1..]);
      PlusAssociates(sw.nodes, NodeIfKnown(listing[0], All(s)), Retained(rest, All(s)));
      PlusAssociates(sw.ids, IdIfKnown(listing[0], All(s)), RetainedIds(rest, All(s)));
    }
  }

  /** A published worker is the one that the map of the next rebalance holds for its node. */
  lemma PublishedIsFound(sort: nat -> Program, sw: Sweep, i: nat)
    requires Programs(sort) && SweepInv(sw, []) && i < |sw.nodes|
    requires Inv(Published(sort, sw))
    ensures var s := Published(sort, sw);
            NodeString(sw.nodes[i]) in All(s) && All(s)[NodeString(sw.nodes[i])] == sw.ids[i]
  {
    var s := Published(sort, sw);
    var moved := SortsMoveAlike(sort, sw);
    assert i in moved;
    var k :| 0 <= k < |moved| && moved[k] == i;
    assert s.nodes[k] == sw.nodes[i] && s.ids[k] == sw.ids[i];
    AllHolds(s, k);
  }

  /** The workers' table may have grown: what is sorted and how does not change. */
  lemma SameSort(p: Program, ids: seq<nat>, ws: seq<Worker>, ws': seq<Worker>)
    requires Within(p, |ids|) && ws <= ws' && forall i :: 0 <= i < |ids| ==> ids[i] < |ws|
    ensures Execute(p, ids, HostOf(ws)) == Execute(p, ids, HostOf(ws'))
  {
    var hosts := Hosts(ids, HostOf(ws));
    SortFollowsHosts(p, ids, HostOf(ws), hosts);
    SortFollowsHosts(p, ids, HostOf(ws'), hosts);
  }

  /** What the second rebalance retains is what the first has gathered. */
  lemma RetainedIsSame(sort: nat -> Program, sw: Sweep, listing: seq<Node>)
    requires Programs(sort) && SweepInv(sw, []) && sw.nodes == Filter(listing, NodeSet(sw.nodes))
    requires Inv(Published(sort, sw))
    ensures var m := All(Published(sort, sw));
            Retained(listing, m) == sw.nodes && RetainedIds(listing, m) == sw.ids
  {
    var r := Published(sort, sw);
    SortsStayAligned(sort, sw);
    assert NodeSet(r.nodes) == NodeSet(sw.nodes);
    RetainedAreConnected(r, listing);
    RetainedPairs(listing, All(r));
    forall i | 0 <= i < |sw.nodes| ensures RetainedIds(listing, All(r))[i] == sw.ids[i] {
      PublishedIsFound(sort, sw, i);
    }
  }

  /** The loop of the second rebalance finds the nodes and the workers of the first, in the same order. */
  lemma SecondSweepFindsSame(sort: nat -> Program, sw: Sweep, listing: seq<Node>, again: seq<Visit>)
    requires Programs(sort) && SweepInv(sw, []) && sw.nodes == Filter(listing, NodeSet(sw.nodes))
    requires Inv(Published(sort, sw)) && AllConnected(Published(sort, sw))
    requires Quiet(listing, again, Published(sort, sw).nodes)
    ensures var sw2 := Swept(Start(Published(sort, sw)), listing, again);
            sw2.nodes == sw.nodes && sw2.ids == sw.ids && sw.workers <= sw2.workers
  {
    var r := Published(sort, sw);
    QuietSweep(r, Start(r), listing, again);
    RetainedIsSame(sort, sw, listing);
    assert [] + sw.nodes == sw.nodes;
    assert [] + sw.ids == sw.ids;
  }

  /** What the loop leaves before the arrays are sorted. */
  lemma SweptFacts(s: State, listing: seq<Node>, visits: seq<Visit>)
    requires Inv(s) && Distinct(listing) && |visits| == |listing|
    ensures var sw := Swept(Start(s), listing, visits);
            SweepInv(sw, []) && sw.nodes == Filter(listing, NodeSet(sw.nodes))
  {
    StartKeeps(s, listing);
    SweepKeeps(Start(s), listing, visits);
    SweptAppends(Start(s), listing, visits);
    var sw := Swept(Start(s), listing, visits);
    assert [] + Filter(listing, NodeSet(sw.nodes)) == Filter(listing, NodeSet(sw.nodes));
  }

  /**
    * Rebalancing is idempotent.  Repeated with the same listing, while all workers are connected, it keeps
    * every worker at its index, repeated hosts included.
    */
  lemma RebalancingAgainChangesNothing(
    sort: nat -> Program, s: State, listing: seq<Node>, visits: seq<Visit>, again: seq<Visit>)
    requires Programs(sort) && Inv(s) && Distinct(listing) && |visits| == |listing|
    requires AllConnected(Rebalanced(sort, s, listing, visits))
    requires Quiet(listing, again, Rebalanced(sort, s, listing, visits).nodes)
    ensures Inv(Rebalanced(sort, s, listing, visits))
    ensures var r := Rebalanced(sort, s, listing, visits);
            var r2 := Rebalanced(sort, r, listing, again);
            r2.ids == r.ids && r2.nodes == r.nodes
  {
    var sw := Swept(Start(s), listing, visits);
    var r := Rebalanced(sort, s, listing, visits);
    RebalanceKeeps(sort, s, listing, visits);
    SweptFacts(s, listing, visits);
    SecondSweepFindsSame(sort, sw, listing, again);
    SameSort(sort(|sw.ids|), sw.ids, sw.workers, Swept(Start(r), listing, again).workers);
  }

  // ----- the order of the listing

  ghost predicate DistinctHosts(nodes: seq<Node>) {
    forall i, j :: 0 <= i < j < |nodes| ==> nodes[i].host != nodes[j].host
  }

  ghost predicate InHostOrder(nodes: seq<Node>) {
    forall i, j :: 0 <= i < j < |nodes| ==> AtMost(nodes[i].host, nodes[j].host)
  }

  /** Two lists in host order, with the same nodes and no host twice, are the same list. */
  lemma {:induction false} HostOrderIsUnique(a: seq<Node>, b: seq<Node>)
    requires InHostOrder(a) && InHostOrder(b) && DistinctHosts(a) && DistinctHosts(b)
    requires forall n :: n in a <==> n in b
    ensures a == b
    decreases |a|
  {
    assert a != [] ==> a[0] in a;
    assert b != [] ==> b[0] in b;
    if a != [] && b != [] {
      var i :| 0 <= i < |b| && b[i] == a[0];
      var j :| 0 <= j < |a| && a[j] == b[0];
      BeforeIsTotal(a[0].host, b[0].host);
      assert a[0] == b[0];
      forall n ensures n in a[1..] <==> n in b[1..] {
        assert n in a <==> n == a[0] || n in a[1..];
        assert n in b <==> n == b[0] || n in b[1..];
      }
      HostOrderIsUnique(a[1..], b[1..]);
      assert a == [a[0]] + a[1..] && b == [b[0]] + b[1..];
    }
  }

  /** Nothing fails meanwhile, and whether a node can be connected to does not depend on when it is tried. */
  ghost predicate Steady(listing: seq<Node>, visits: seq<Visit>, reachable: set<Node>) {
    |visits| == |listing| && forall i :: 0 <= i < |visits| ==>
      visits[i].drops == {} && (visits[i].Creates() <==> listing[i] in reachable)
  }

  /** Nodes with a connected worker, and those that can be connected to, are published. */
  predicate Publishable(s: State, n: Node, reachable: set<Node>)
    requires Aligned(s.workers, s.ids, s.nodes)
  {
    var key := NodeString(n);
    n in reachable || (key in All(s) && All(s)[key] < |s.workers| && s.workers[All(s)[key]].connected)
  }

  /** For the nodes still to be visited, map and workers are as they were in the beginning. */
  ghost predicate AheadAs(s: State, sw: Sweep, todo: seq<Node>)
    requires Aligned(s.workers, s.ids, s.nodes)
  {
    forall n :: n in todo ==>
      var key := NodeString(n);
      && (key in sw.existing <==> key in All(s))
      && (key in All(s) ==>
          && sw.existing[key] == All(s)[key] && All(s)[key] < |s.workers| && All(s)[key] < |sw.workers|
          && sw.workers[All(s)[key]] == s.workers[All(s)[key]])
  }

  lemma OtherKeysDiffer(node: Node, todo: seq<Node>)
    requires node !in todo
    ensures forall n :: n in todo ==> NodeString(n) != NodeString(node)
  {
    forall n | n in todo ensures NodeString(n) != NodeString(node) {
      NodeStringsDiffer(n, node);
    }
  }

  lemma AheadShrinks(s: State, sw: Sweep, node: Node, todo: seq<Node>)
    requires Inv(s) && AheadAs(s, sw, [node] + todo)
    ensures AheadAs(s, sw, todo) && AheadAs(s, sw, [node])
  {
    assert node in [node] + todo;
    assert forall n :: n in todo ==> n in [node] + todo;
  }

  lemma AheadAfterEnd(s: State, sw: Sweep, node: Node, todo: seq<Node>)
    requires Inv(s) && Keyed(sw.workers, sw.existing) && AheadAs(s, sw, todo)
    requires node !in todo && NodeString(node) in sw.existing
    ensures var id := sw.existing[NodeString(node)];
            var ended := sw.(workers := sw.workers[id := sw.workers[id].Terminated()]);
            AheadAs(s, ended, todo) && Keyed(ended.workers, ended.existing)
  {
    var id := sw.existing[NodeString(node)];
    OtherKeysDiffer(node, todo);
    forall n | n in todo && NodeString(n) in sw.existing ensures sw.existing[NodeString(n)] != id {
      assert NodeString(sw.workers[sw.existing[NodeString(n)]].node) == NodeString(n);
    }
  }

  lemma AheadAfterCreation(s: State, sw: Sweep, node: Node, creates: bool, todo: seq<Node>)
    requires Inv(s) && sw.Bounded() && Keyed(sw.workers, sw.existing) && AheadAs(s, sw, todo) && node !in todo
    ensures var r := Created(sw, node, creates);
            && AheadAs(s, r, todo) && Keyed(r.workers, r.existing)
            && r.nodes == sw.nodes + (if creates then [node] else [])
  {
    OtherKeysDiffer(node, todo);
    assert sw.nodes + [] == sw.nodes;
  }

  lemma SteadyVisit(s: State, sw: Sweep, node: Node, v: Visit, todo: seq<Node>, reachable: set<Node>)
    requires Inv(s) && sw.Bounded() && Keyed(sw.workers, sw.existing) && AheadAs(s, sw, [node] + todo)
    requires v.drops == {} && (v.Creates() <==> node in reachable) && node !in todo
    ensures var r := Visited(sw, node, v);
            && r.nodes == sw.nodes + (if Publishable(s, node, reachable) then [node] else [])
            && AheadAs(s, r, todo) && Keyed(r.workers, r.existing)
  {
    assert Dropped(sw.workers, {}) == sw.workers;
    AheadShrinks(s, sw, node, todo);
    var key := NodeString(node);
    assert node in [node];
    if key in sw.existing {
      var id := sw.existing[key];
      if !sw.workers[id].connected {
        AheadAfterEnd(s, sw, node, todo);
        AheadAfterCreation(s, sw.(workers := sw.workers[id := sw.workers[id].Terminated()]), node, v.Creates(), todo);
      }
    } else {
      AheadAfterCreation(s, sw, node, v.Creates(), todo);
    }
  }

  lemma {:induction false} SteadySweep(
    s: State, sw: Sweep, listing: seq<Node>, visits: seq<Visit>, reachable: set<Node>)
    requires Inv(s) && sw.Bounded() && Keyed(sw.workers, sw.existing) && AheadAs(s, sw, listing)
    requires Steady(listing, visits, reachable) && Distinct(listing)
    ensures forall n :: n in Swept(sw, listing, visits).nodes
                   <==> n in sw.nodes || (n in listing && Publishable(s, n, reachable))
    decreases |listing|
  {
    if listing != [] {
      var node, rest := listing[0], listing[1..];
      assert listing == [node] + rest;
      assert node !in rest;
      SteadyVisit(s, sw, node, visits[0], rest, reachable);
      SteadySweep(s, Visited(sw, node, visits[0]), rest, visits[1..], reachable);
    }
  }

  /** The nodes that a steady rebalance publishes. */
  lemma SteadyRebalance(sort: nat -> Program, s: State, listing: seq<Node>, visits: seq<Visit>, reachable: set<Node>)
    requires Programs(sort) && Inv(s) && Distinct(listing) && Steady(listing, visits, reachable)
    ensures var after := Rebalanced(sort, s, listing, visits);
            forall n :: n in after.nodes <==> n in listing && Publishable(s, n, reachable)
  {
    StartKeeps(s, listing);
    SteadySweep(s, Start(s), listing, visits, reachable);
    SweepKeeps(Start(s), listing, visits);
    SortsStayAligned(sort, Swept(Start(s), listing, visits));
  }

  /** After a steady rebalance no node is available exactly when none can be published. */
  lemma NotAvailableExactlyWhen(
    sort: nat -> Program, s: State, listing: seq<Node>, visits: seq<Visit>, reachable: set<Node>)
    requires Programs(sort) && Inv(s) && Distinct(listing) && Steady(listing, visits, reachable)
    ensures Rebalanced(sort, s, listing, visits).notAvailable <==>
            forall n :: n in listing ==> !Publishable(s, n, reachable)
  {
    var after := Rebalanced(sort, s, listing, visits);
    SteadyRebalance(sort, s, listing, visits, reachable);
    assert after.notAvailable <==> after.nodes == [];
    if after.nodes != [] {
      assert after.nodes[0] in listing && Publishable(s, after.nodes[0], reachable);
    }
  }

  lemma PublishedInOrder(sort: nat -> Program, sw: Sweep)
    requires Programs(sort) && Sorts(sort(|sw.nodes|), |sw.nodes|)
    ensures InHostOrder(Published(sort, sw).nodes)
  {
    var nodes := Published(sort, sw).nodes;
    forall i, j | 0 <= i < j < |nodes| ensures AtMost(nodes[i].host, nodes[j].host) {
      SortedByHost(sort(|sw.nodes|), sw.nodes, NodeHost, i, j);
    }
  }

  lemma HostsTellNodesApart(nodes: seq<Node>, listing: seq<Node>)
    requires Distinct(nodes) && DistinctHosts(listing) && forall n :: n in nodes ==> n in listing
    ensures DistinctHosts(nodes)
  {
    forall i, j | 0 <= i < j < |nodes| ensures nodes[i].host != nodes[j].host {
      assert nodes[i] in listing && nodes[j] in listing;
      var x :| 0 <= x < |listing| && listing[x] == nodes[i];
      var y :| 0 <= y < |listing| && listing[y] == nodes[j];
      assert nodes[i] != nodes[j];
    }
  }

  ghost predicate AlwaysSorts(sort: nat -> Program) {
    forall n: nat :: Sorts(sort(n), n)
  }

  /**
    * The order of the listing does not matter.  Two listings of the same nodes, with no host twice, lead to
    * the same nodes in the same order, so that every index stands for the same node.
    */
  lemma ListingOrderDoesNotMatter(
    sort: nat -> Program, s: State, listing: seq<Node>, visits: seq<Visit>, other: seq<Node>, otherVisits: seq<Visit>,
    reachable: set<Node>)
    requires Programs(sort) && AlwaysSorts(sort) && Inv(s)
    requires Distinct(listing) && Distinct(other) && DistinctHosts(listing) && forall n :: n in listing <==> n in other
    requires Steady(listing, visits, reachable) && Steady(other, otherVisits, reachable)
    ensures Rebalanced(sort, s, listing, visits).nodes == Rebalanced(sort, s, other, otherVisits).nodes
  {
    var a := Rebalanced(sort, s, listing, visits).nodes;
    var b := Rebalanced(sort, s, other, otherVisits).nodes;
    RebalanceKeeps(sort, s, listing, visits);
    RebalanceKeeps(sort, s, other, otherVisits);
    SteadyRebalance(sort, s, listing, visits, reachable);
    SteadyRebalance(sort, s, other, otherVisits, reachable);
    PublishedInOrder(sort, Swept(Start(s), listing, visits));
    PublishedInOrder(sort, Swept(Start(s), other, otherVisits));
    HostsTellNodesApart(a, listing);
    HostsTellNodesApart(b, listing);
    HostOrderIsUnique(a, b);
  }
}
