/**
  * rebalance and Shutdown: which workers are kept, ended and made, and the two arrays that describe them.
  *
  * A worker is known by its number in the table of all workers ever made, which stands for its pointer.
  * Rebalances come one after the other, and each listing names a node once.
  */
module Rebalancing {
  import opened Bytes
  import opened Decimal
  import opened Sorting

  const COLON: byte := 58

  datatype Node = Node(host: Bytes, port: int)

  function NodeHost(n: Node): Bytes {
    n.host
  }

  /** "host:port". */
  function NodeString(n: Node): Bytes {
    n.host + [COLON] + Itoa(n.port)
  }

  /** The last colon ends the host, whatever bytes the host has. */
  lemma HostIsNotLonger(m: Node, n: Node)
    requires NodeString(m) == NodeString(n)
    ensures |n.host| <= |m.host|
  {
    var s := NodeString(m);
    ItoaHasNone(m.port, COLON);
    assert NodeString(n)[|n.host|] == COLON;
    assert forall i :: |m.host| < i < |s| ==> s[i] == Itoa(m.port)[i - |m.host| - 1];
  }

  /** Two nodes with the same text are the same node. */
  lemma NodeStringInjective(m: Node, n: Node)
    requires NodeString(m) == NodeString(n)
    ensures m == n
  {
    HostIsNotLonger(m, n);
    HostIsNotLonger(n, m);
    var s := NodeString(m);
    assert m.host == s[..|m.host|] == n.host;
    assert Itoa(m.port) == s[|m.host| + 1..] == Itoa(n.port);
    ItoaInjective(m.port, n.port);
  }

  lemma NodeStringsDiffer(m: Node, n: Node)
    requires m != n
    ensures NodeString(m) != NodeString(n)
  {
    if NodeString(m) == NodeString(n) {
      NodeStringInjective(m, n);
    }
  }

  // ----- workers

  /** How often each of its two channels was closed; closing one twice is a panic. */
  datatype Worker = Worker(node: Node, connected: bool, jobsClosed: nat, channelClosed: nat) {
    predicate Open() {
      jobsClosed == 0 && channelClosed == 0
    }

    predicate Sound() {
      jobsClosed == channelClosed <= 1 && (connected ==> Open())
    }

    function Terminated(): Worker {
      Worker(node, false, jobsClosed + 1, channelClosed + 1)
    }
  }

  /** Workers and the listener lower `connected` whenever they notice a failure. */
  function Dropped(ws: seq<Worker>, drops: set<nat>): (r: seq<Worker>)
    ensures |r| == |ws|
    ensures forall id :: 0 <= id < |ws| ==> r[id] == if id in drops then ws[id].(connected := false) else ws[id]
  {
    seq(|ws|, id requires 0 <= id < |ws| => if id in drops then ws[id].(connected := false) else ws[id])
  }

  function HostOf(ws: seq<Worker>): nat -> Bytes {
    (id: nat) => if id < |ws| then ws[id].node.host else []
  }

  /** What the world does while one node is looked at: workers that fail, and how each new connection fares. */
  datatype Visit = Visit(drops: set<nat>, dials: seq<bool>) {
    /** A new worker needs all its connections. */
    predicate Creates() {
      forall i :: 0 <= i < |dials| ==> dials[i]
    }
  }

  /** The variables of the loop over the discovered nodes. */
  datatype Sweep = Sweep(workers: seq<Worker>, existing: map<Bytes, nat>, ids: seq<nat>, nodes: seq<Node>) {
    predicate Bounded() {
      forall key :: key in existing ==> existing[key] < |workers|
    }
  }

  /** createNodeWorker: a worker that cannot connect is ended at once and published nowhere. */
  function Created(sw: Sweep, node: Node, creates: bool): (r: Sweep)
    requires sw.Bounded()
    ensures r.Bounded()
  {
    var id := |sw.workers|;
    var key := NodeString(node);
    if creates then
      Sweep(sw.workers + [Worker(node, true, 0, 0)], sw.existing[key := id], sw.ids + [id], sw.nodes + [node])
    else sw.(workers := sw.workers + [Worker(node, false, 0, 0).Terminated()])
  }

  function Visited(sw: Sweep, node: Node, v: Visit): (r: Sweep)
    requires sw.Bounded()
    ensures r.Bounded()
  {
    var now := sw.(workers := Dropped(sw.workers, v.drops));
    var key := NodeString(node);
    if key in now.existing then
      var id := now.existing[key];
      if now.workers[id].connected then now.(ids := now.ids + [id], nodes := now.nodes + [node])
      else Created(now.(workers := now.workers[id := now.workers[id].Terminated()]), node, v.Creates())
    else Created(now, node, v.Creates())
  }

  function Swept(sw: Sweep, listing: seq<Node>, visits: seq<Visit>): (r: Sweep)
    requires sw.Bounded() && |visits| == |listing|
    ensures r.Bounded()
    decreases |listing|
  {
    if listing == [] then sw else Swept(Visited(sw, listing[0], visits[0]), listing[1..], visits[1..])
  }

  function Texts(nodes: seq<Node>): (keys: seq<Bytes>)
    ensures |keys| == |nodes| && forall i :: 0 <= i < |nodes| ==> keys[i] == NodeString(nodes[i])
  {
    seq(|nodes|, i requires 0 <= i < |nodes| => NodeString(nodes[i]))
  }

  /** existingNodeWorkerMap after the first `k` connected nodes, whose texts are `keys`. */
  function Existing(keys: seq<Bytes>, ids: seq<nat>, k: nat): (m: map<Bytes, nat>)
    requires |keys| == |ids| && k <= |keys|
    ensures forall key :: key in m ==> m[key] in ids
  {
    if k == 0 then map[] else Existing(keys, ids, k - 1)[keys[k - 1] := ids[k - 1]]
  }

  /** The fields that the routing of commands depends on. */
  datatype State = State(workers: seq<Worker>, ids: seq<nat>, nodes: seq<Node>, notAvailable: bool)

  ghost predicate Aligned(ws: seq<Worker>, ids: seq<nat>, nodes: seq<Node>) {
    |ids| == |nodes| && forall i :: 0 <= i < |ids| ==> ids[i] < |ws| && ws[ids[i]].node == nodes[i]
  }

  ghost predicate Distinct(nodes: seq<Node>) {
    forall i, j :: 0 <= i < j < |nodes| ==> nodes[i] != nodes[j]
  }

  ghost predicate AllSound(ws: seq<Worker>) {
    forall id :: 0 <= id < |ws| ==> ws[id].Sound()
  }

  ghost predicate AllOpen(ws: seq<Worker>, ids: seq<nat>) {
    forall i :: 0 <= i < |ids| ==> ids[i] < |ws| && ws[ids[i]].Open()
  }

  /** The arrays say the same at every index, and every worker in them can still be used and ended. */
  ghost predicate Inv(s: State) {
    && Aligned(s.workers, s.ids, s.nodes) && Distinct(s.nodes)
    && AllOpen(s.workers, s.ids) && AllSound(s.workers)
  }

  ghost predicate Programs(sort: nat -> Program) {
    forall n: nat :: Within(sort(n), n)
  }

  function All(s: State): map<Bytes, nat>
    requires Aligned(s.workers, s.ids, s.nodes)
  {
    Existing(Texts(s.nodes), s.ids, |s.nodes|)
  }

  function Start(s: State): (sw: Sweep)
    requires Aligned(s.workers, s.ids, s.nodes)
    ensures sw.Bounded()
  {
    Sweep(s.workers, All(s), [], [])
  }

  /** The two arrays are sorted one by one, each by the hosts of its own elements. */
  function Published(sort: nat -> Program, sw: Sweep): State
    requires Programs(sort)
  {
    State(sw.workers,
          Execute(sort(|sw.ids|), sw.ids, HostOf(sw.workers)),
          Execute(sort(|sw.nodes|), sw.nodes, NodeHost),
          |sw.nodes| == 0)
  }

  function Rebalanced(sort: nat -> Program, s: State, listing: seq<Node>, visits: seq<Visit>): State
    requires Programs(sort) && Aligned(s.workers, s.ids, s.nodes) && |visits| == |listing|
  {
    Published(sort, Swept(Start(s), listing, visits))
  }

  // ----- panics

  /** Both channels of a worker are closed together. */
  ghost predicate Twinned(ws: seq<Worker>) {
    forall id :: 0 <= id < |ws| ==> ws[id].jobsClosed == ws[id].channelClosed
  }

  /** A visit that would end a worker which is ended already: closing a channel twice is a panic. */
  predicate VisitPanics(sw: Sweep, node: Node, v: Visit)
    requires sw.Bounded()
  {
    var key := NodeString(node);
    key in sw.existing &&
    var worker := Dropped(sw.workers, v.drops)[sw.existing[key]];
    !worker.connected && !worker.Open()
  }

  predicate SweepPanics(sw: Sweep, listing: seq<Node>, visits: seq<Visit>)
    requires sw.Bounded() && |visits| == |listing|
    decreases |listing|
  {
    listing != [] &&
    (VisitPanics(sw, listing[0], visits[0])
        || SweepPanics(Visited(sw, listing[0], visits[0]), listing[1..], visits[1..]))
  }

  /** One turn of the loop. */
  lemma SweepTurn(sw: Sweep, listing: seq<Node>, visits: seq<Visit>, k: nat)
    requires sw.Bounded() && k < |listing| == |visits|
    ensures var next := Visited(sw, listing[k], visits[k]);
            && Swept(sw, listing[k..], visits[k..]) == Swept(next, listing[k + 1..], visits[k + 1..])
            && (SweepPanics(sw, listing[k..], visits[k..]) <==>
                VisitPanics(sw, listing[k], visits[k]) || SweepPanics(next, listing[k + 1..], visits[k + 1..]))
  {
    assert listing[k..][1..] == listing[k + 1..] && visits[k..][1..] == visits[k + 1..];
  }

  // ----- one worker is touched at a time, and only ever towards its end

  ghost predicate Later(ws: seq<Worker>, ws': seq<Worker>) {
    |ws| <= |ws'| && forall id :: 0 <= id < |ws| ==>
      && ws'[id].node == ws[id].node && (ws'[id].connected ==> ws[id].connected)
      && ws[id].jobsClosed <= ws'[id].jobsClosed && ws[id].channelClosed <= ws'[id].channelClosed
  }

  lemma CreatedIsLater(sw: Sweep, node: Node, creates: bool)
    requires sw.Bounded()
    ensures Later(sw.workers, Created(sw, node, creates).workers)
  {
  }

  lemma VisitedIsLater(sw: Sweep, node: Node, v: Visit)
    requires sw.Bounded()
    ensures Later(sw.workers, Visited(sw, node, v).workers)
  {
    var now := sw.(workers := Dropped(sw.workers, v.drops));
    var key := NodeString(node);
    if key !in now.existing {
      CreatedIsLater(now, node, v.Creates());
    } else if !now.workers[now.existing[key]].connected {
      var id := now.existing[key];
      CreatedIsLater(now.(workers := now.workers[id := now.workers[id].Terminated()]), node, v.Creates());
    }
  }

  lemma {:induction false} SweptIsLater(sw: Sweep, listing: seq<Node>, visits: seq<Visit>)
    requires sw.Bounded() && |visits| == |listing|
    ensures Later(sw.workers, Swept(sw, listing, visits).workers)
    decreases |listing|
  {
    if listing != [] {
      VisitedIsLater(sw, listing[0], visits[0]);
      SweptIsLater(Visited(sw, listing[0], visits[0]), listing[1..], visits[1..]);
    }
  }

  // ----- what the loop keeps

  /** The map leads from the text of a node to a worker of that very node. */
  ghost predicate Keyed(ws: seq<Worker>, existing: map<Bytes, nat>) {
    forall key :: key in existing ==> existing[key] < |ws| && NodeString(ws[existing[key]].node) == key
  }

  /** Nodes still to be visited have not been ended: the one place where terminate is called relies on it. */
  ghost predicate OpenAhead(sw: Sweep, todo: seq<Node>) {
    forall n :: n in todo && NodeString(n) in sw.existing ==>
      sw.existing[NodeString(n)] < |sw.workers| && sw.workers[sw.existing[NodeString(n)]].Open()
  }

  ghost predicate SweepInv(sw: Sweep, todo: seq<Node>) {
    && Aligned(sw.workers, sw.ids, sw.nodes) && Distinct(sw.nodes)
    && (forall i :: 0 <= i < |sw.nodes| ==> sw.nodes[i] !in todo)
    && AllOpen(sw.workers, sw.ids) && AllSound(sw.workers)
    && Keyed(sw.workers, sw.existing) && OpenAhead(sw, todo)
  }

  lemma DropKeeps(sw: Sweep, drops: set<nat>, todo: seq<Node>)
    requires SweepInv(sw, todo)
    ensures SweepInv(sw.(workers := Dropped(sw.workers, drops)), todo)
  {
  }

  /** The worker found under a node's text is a worker of that node. */
  lemma FoundIsOfNode(sw: Sweep, node: Node)
    requires Keyed(sw.workers, sw.existing) && NodeString(node) in sw.existing
    ensures sw.workers[sw.existing[NodeString(node)]].node == node
  {
    NodeStringInjective(sw.workers[sw.existing[NodeString(node)]].node, node);
  }

  /** Ending the worker of the node under visit touches no worker kept and none still to be visited. */
  lemma EndKeeps(sw: Sweep, node: Node, todo: seq<Node>)
    requires SweepInv(sw, [node] + todo) && node !in todo
    requires NodeString(node) in sw.existing
    ensures var id := sw.existing[NodeString(node)];
            SweepInv(sw.(workers := sw.workers[id := sw.workers[id].Terminated()]), todo)
  {
    var id := sw.existing[NodeString(node)];
    var ended := sw.(workers := sw.workers[id := sw.workers[id].Terminated()]);
    FoundIsOfNode(sw, node);
    assert node in [node] + todo;
    forall i | 0 <= i < |sw.ids| ensures sw.ids[i] != id {
      assert sw.nodes[i] !in [node] + todo;
    }
    forall n | n in todo && NodeString(n) in sw.existing ensures sw.existing[NodeString(n)] != id {
      assert n in [node] + todo;
      FoundIsOfNode(sw, n);
    }
    assert forall n :: n in todo ==> n in [node] + todo;
  }

  lemma KeepKeeps(sw: Sweep, node: Node, todo: seq<Node>)
    requires SweepInv(sw, [node] + todo) && node !in todo
    requires NodeString(node) in sw.existing
    ensures var id := sw.existing[NodeString(node)];
            SweepInv(sw.(ids := sw.ids + [id], nodes := sw.nodes + [node]), todo)
  {
    FoundIsOfNode(sw, node);
    assert node in [node] + todo;
    assert forall n :: n in todo ==> n in [node] + todo;
  }

  lemma CreateKeeps(sw: Sweep, node: Node, creates: bool, todo: seq<Node>)
    requires sw.Bounded() && SweepInv(sw, todo) && node !in todo && node !in sw.nodes
    ensures SweepInv(Created(sw, node, creates), todo)
  {
    forall n | n in todo && NodeString(n) == NodeString(node) ensures false {
      NodeStringInjective(n, node);
    }
  }

  lemma VisitKeeps(sw: Sweep, node: Node, v: Visit, todo: seq<Node>)
    requires sw.Bounded() && SweepInv(sw, [node] + todo) && node !in todo
    ensures SweepInv(Visited(sw, node, v), todo)
  {
    DropKeeps(sw, v.drops, [node] + todo);
    var now := sw.(workers := Dropped(sw.workers, v.drops));
    var key := NodeString(node);
    assert node in [node] + todo;
    assert forall n :: n in todo ==> n in [node] + todo;
    if key in now.existing {
      var id := now.existing[key];
      if now.workers[id].connected {
        KeepKeeps(now, node, todo);
      } else {
        EndKeeps(now, node, todo);
        CreateKeeps(now.(workers := now.workers[id := now.workers[id].Terminated()]), node, v.Creates(), todo);
      }
    } else {
      CreateKeeps(now, node, v.Creates(), todo);
    }
  }

  lemma {:induction false} SweepKeeps(sw: Sweep, listing: seq<Node>, visits: seq<Visit>)
    requires sw.Bounded() && |visits| == |listing| && SweepInv(sw, listing) && Distinct(listing)
    ensures SweepInv(Swept(sw, listing, visits), [])
    decreases |listing|
  {
    if listing != [] {
      assert listing == [listing[0]] + listing[1..];
      VisitKeeps(sw, listing[0], visits[0], listing[1..]);
      SweepKeeps(Visited(sw, listing[0], visits[0]), listing[1..], visits[1..]);
    }
  }

  lemma VisitIsSafe(sw: Sweep, node: Node, v: Visit, todo: seq<Node>)
    requires sw.Bounded() && SweepInv(sw, [node] + todo)
    ensures !VisitPanics(sw, node, v)
  {
    assert node in [node] + todo;
  }

  /** A listing without repeated nodes makes no worker be ended twice. */
  lemma {:induction false} SweepIsSafe(sw: Sweep, listing: seq<Node>, visits: seq<Visit>)
    requires sw.Bounded() && |visits| == |listing| && SweepInv(sw, listing) && Distinct(listing)
    ensures !SweepPanics(sw, listing, visits)
    decreases |listing|
  {
    if listing != [] {
      assert listing == [listing[0]] + listing[1..];
      VisitIsSafe(sw, listing[0], visits[0], listing[1..]);
      VisitKeeps(sw, listing[0], visits[0], listing[1..]);
      SweepIsSafe(Visited(sw, listing[0], visits[0]), listing[1..], visits[1..]);
    }
  }

  /** What every visit keeps, of any listing. */
  ghost predicate Matched(sw: Sweep) {
    sw.Bounded() && Aligned(sw.workers, sw.ids, sw.nodes) && Twinned(sw.workers) && Keyed(sw.workers, sw.existing)
  }

  lemma CreatedStaysMatched(sw: Sweep, node: Node, creates: bool)
    requires Matched(sw)
    ensures Matched(Created(sw, node, creates))
  {
  }

  lemma DroppedStaysMatched(sw: Sweep, drops: set<nat>)
    requires Matched(sw)
    ensures Matched(sw.(workers := Dropped(sw.workers, drops)))
  {
  }

  lemma EndedStaysMatched(sw: Sweep, id: nat)
    requires Matched(sw) && id < |sw.workers|
    ensures Matched(sw.(workers := sw.workers[id := sw.workers[id].Terminated()]))
  {
  }

  lemma KeptStaysMatched(sw: Sweep, node: Node)
    requires Matched(sw) && NodeString(node) in sw.existing
    ensures Matched(sw.(ids := sw.ids + [sw.existing[NodeString(node)]], nodes := sw.nodes + [node]))
  {
    FoundIsOfNode(sw, node);
  }

  lemma VisitedStaysMatched(sw: Sweep, node: Node, v: Visit)
    requires Matched(sw)
    ensures Matched(Visited(sw, node, v))
  {
    var now := sw.(workers := Dropped(sw.workers, v.drops));
    var key := NodeString(node);
    DroppedStaysMatched(sw, v.drops);
    if key in now.existing {
      var id := now.existing[key];
      if now.workers[id].connected {
        KeptStaysMatched(now, node);
      } else {
        EndedStaysMatched(now, id);
        CreatedStaysMatched(now.(workers := now.workers[id := now.workers[id].Terminated()]), node, v.Creates());
      }
    } else {
      CreatedStaysMatched(now, node, v.Creates());
    }
  }

  lemma {:induction false} SweptStaysMatched(sw: Sweep, listing: seq<Node>, visits: seq<Visit>)
    requires Matched(sw) && |visits| == |listing|
    ensures Matched(Swept(sw, listing, visits))
    decreases |listing|
  {
    if listing != [] {
      VisitedStaysMatched(sw, listing[0], visits[0]);
      SweptStaysMatched(Visited(sw, listing[0], visits[0]), listing[1..], visits[1..]);
    }
  }

  /** Every entry of the map comes from one of the arrays' indices, */
  lemma {:induction false} ExistingSource(keys: seq<Bytes>, ids: seq<nat>, k: nat, key: Bytes) returns (i: nat)
    requires |keys| == |ids| && k <= |keys| && key in Existing(keys, ids, k)
    ensures i < k && keys[i] == key && ids[i] == Existing(keys, ids, k)[key]
  {
    if key == keys[k - 1] {
      i := k - 1;
    } else {
      i := ExistingSource(keys, ids, k - 1, key);
    }
  }

  /** and where the texts differ every index has its entry. */
  lemma {:induction false} ExistingHolds(keys: seq<Bytes>, ids: seq<nat>, k: nat, i: nat)
    requires |keys| == |ids| && i < k <= |keys|
    requires forall x, y :: 0 <= x < y < |keys| ==> keys[x] != keys[y]
    ensures keys[i] in Existing(keys, ids, k) && Existing(keys, ids, k)[keys[i]] == ids[i]
  {
    if i < k - 1 {
      ExistingHolds(keys, ids, k - 1, i);
    }
  }

  lemma AllIsKeyed(s: State)
    requires Aligned(s.workers, s.ids, s.nodes)
    ensures Keyed(s.workers, All(s))
  {
    forall key | key in All(s) ensures All(s)[key] < |s.workers| && NodeString(s.workers[All(s)[key]].node) == key {
      var i := ExistingSource(Texts(s.nodes), s.ids, |s.nodes|, key);
    }
  }

  lemma AllHolds(s: State, i: nat)
    requires Aligned(s.workers, s.ids, s.nodes) && Distinct(s.nodes) && i < |s.nodes|
    ensures NodeString(s.nodes[i]) in All(s) && All(s)[NodeString(s.nodes[i])] == s.ids[i]
  {
    var keys := Texts(s.nodes);
    forall x, y | 0 <= x < y < |keys| ensures keys[x] != keys[y] {
      NodeStringsDiffer(s.nodes[x], s.nodes[y]);
    }
    ExistingHolds(keys, s.ids, |keys|, i);
  }

  lemma StartKeeps(s: State, todo: seq<Node>)
    requires Inv(s)
    ensures SweepInv(Start(s), todo)
  {
    AllIsKeyed(s);
    forall key | key in All(s) ensures s.workers[All(s)[key]].Open() {
      assert All(s)[key] in s.ids;
    }
  }

  // ----- the two sorts

  ghost predicate IsPermutation(moved: seq<nat>, n: nat) {
    && |moved| == n && (forall k :: 0 <= k < n ==> moved[k] < n)
    && (forall i, j :: 0 <= i < j < n ==> moved[i] != moved[j])
    && (forall x: nat :: x < n ==> x in moved)
  }

  ghost predicate IsRearranged<T>(b: seq<T>, a: seq<T>, moved: seq<nat>) {
    |b| == |a| == |moved| && forall k :: 0 <= k < |b| ==> moved[k] < |a| && b[k] == a[moved[k]]
  }

  /** Two arrays that agree on the hosts are rearranged alike, by any sort. */
  lemma SortsMoveAlike(sort: nat -> Program, sw: Sweep) returns (moved: seq<nat>)
    requires Programs(sort) && Aligned(sw.workers, sw.ids, sw.nodes)
    ensures IsPermutation(moved, |sw.nodes|)
    ensures var s := Published(sort, sw);
            && IsRearranged(s.nodes, sw.nodes, moved)
            && IsRearranged(s.ids, sw.ids, moved)
  {
    var p := sort(|sw.nodes|);
    var hosts := Hosts(sw.nodes, NodeHost);
    moved := Permutation(p, hosts);
    SortFollowsHosts(p, sw.nodes, NodeHost, hosts);
    SortFollowsHosts(p, sw.ids, HostOf(sw.workers), hosts);
    PermutationIsInjective(p, hosts);
  }

  lemma RearrangedHasSame<T>(b: seq<T>, a: seq<T>, moved: seq<nat>)
    requires IsPermutation(moved, |a|) && IsRearranged(b, a, moved)
    ensures forall x :: x in b <==> x in a
  {
    forall x | x in a ensures x in b {
      var i :| 0 <= i < |a| && a[i] == x;
      assert i in moved;
      var k :| 0 <= k < |moved| && moved[k] == i;
      assert b[k] == x;
    }
  }

  lemma RearrangedIsDistinct(b: seq<Node>, a: seq<Node>, moved: seq<nat>)
    requires IsPermutation(moved, |a|) && IsRearranged(b, a, moved) && Distinct(a)
    ensures Distinct(b)
  {
    forall i, j | 0 <= i < j < |b| ensures b[i] != b[j] {
      assert moved[i] != moved[j];
    }
  }

  lemma PublishedIsAligned(sort: nat -> Program, sw: Sweep)
    requires Programs(sort) && Aligned(sw.workers, sw.ids, sw.nodes)
    ensures var s := Published(sort, sw); Aligned(s.workers, s.ids, s.nodes)
  {
    var moved := SortsMoveAlike(sort, sw);
  }

  /** The arrays stay aligned under any listing, repeated nodes or not. */
  lemma RebalancedIsAligned(sort: nat -> Program, s: State, listing: seq<Node>, visits: seq<Visit>)
    requires Programs(sort) && Aligned(s.workers, s.ids, s.nodes) && Twinned(s.workers) && |visits| == |listing|
    ensures var after := Rebalanced(sort, s, listing, visits);
            Aligned(after.workers, after.ids, after.nodes) && Twinned(after.workers)
  {
    AllIsKeyed(s);
    SweptStaysMatched(Start(s), listing, visits);
    PublishedIsAligned(sort, Swept(Start(s), listing, visits));
  }

  /** So they stay aligned, and nothing is lost. */
  lemma SortsStayAligned(sort: nat -> Program, sw: Sweep)
    requires Programs(sort) && Aligned(sw.workers, sw.ids, sw.nodes) && Distinct(sw.nodes)
             && AllOpen(sw.workers, sw.ids)
    ensures var s := Published(sort, sw);
            && Aligned(s.workers, s.ids, s.nodes) && Distinct(s.nodes) && AllOpen(s.workers, s.ids)
            && (forall n :: n in s.nodes <==> n in sw.nodes)
  {
    var s := Published(sort, sw);
    var moved := SortsMoveAlike(sort, sw);
    RearrangedHasSame(s.nodes, sw.nodes, moved);
    RearrangedIsDistinct(s.nodes, sw.nodes, moved);
  }

  // ----- every run

  lemma RebalanceKeeps(sort: nat -> Program, s: State, listing: seq<Node>, visits: seq<Visit>)
    requires Programs(sort) && Inv(s) && Distinct(listing) && |visits| == |listing|
    ensures Inv(Rebalanced(sort, s, listing, visits))
    ensures Later(s.workers, Rebalanced(sort, s, listing, visits).workers)
  {
    StartKeeps(s, listing);
    SweepKeeps(Start(s), listing, visits);
    SweptIsLater(Start(s), listing, visits);
    SortsStayAligned(sort, Swept(Start(s), listing, visits));
  }

  lemma DistinctListingIsSafe(sort: nat -> Program, s: State, listing: seq<Node>, visits: seq<Visit>)
    requires Programs(sort) && Aligned(s.workers, s.ids, s.nodes) && |visits| == |listing|
    ensures Inv(s) && Distinct(listing) ==>
              !SweepPanics(Start(s), listing, visits) && Inv(Rebalanced(sort, s, listing, visits))
  {
    if Inv(s) && Distinct(listing) {
      RebalanceKeeps(sort, s, listing, visits);
      StartKeeps(s, listing);
      SweepIsSafe(Start(s), listing, visits);
    }
  }

  datatype Event = Drop(drops: set<nat>) | Rebalance(listing: seq<Node>, visits: seq<Visit>)

  ghost predicate WellFormed(events: seq<Event>) {
    forall k :: 0 <= k < |events| ==> events[k].Rebalance? ==>
      Distinct(events[k].listing) && |events[k].visits| == |events[k].listing|
  }

  ghost function After(sort: nat -> Program, s: State, e: Event): State
    requires Programs(sort) && Inv(s)
    requires e.Rebalance? ==> Distinct(e.listing) && |e.visits| == |e.listing|
  {
    match e
    case Drop(drops) => s.(workers := Dropped(s.workers, drops))
    case Rebalance(listing, visits) => Rebalanced(sort, s, listing, visits)
  }

  lemma AfterKeeps(sort: nat -> Program, s: State, e: Event)
    requires Programs(sort) && Inv(s)
    requires e.Rebalance? ==> Distinct(e.listing) && |e.visits| == |e.listing|
    ensures Inv(After(sort, s, e)) && Later(s.workers, After(sort, s, e).workers)
  {
    if e.Rebalance? {
      RebalanceKeeps(sort, s, e.listing, e.visits);
    }
  }

  ghost function Run(sort: nat -> Program, s: State, events: seq<Event>): State
    requires Programs(sort) && Inv(s) && WellFormed(events)
    decreases |events|
  {
    if events == [] then s
    else
      AfterKeeps(sort, s, events[0]);
      Run(sort, After(sort, s, events[0]), events[1..])
  }

  const FRESH_CLIENT := State([], [], [], false)

  /**
    * The independent sorts stay aligned.  After any run of rebalances and failures, both arrays have the
    * same length, worker i is a worker of node i, and it can still be used and ended; along the way no
    * worker comes back: `connected` is only lowered and channels are only closed, once each.
    */
  lemma {:induction false} RunKeeps(sort: nat -> Program, s: State, events: seq<Event>)
    requires Programs(sort) && Inv(s) && WellFormed(events)
    ensures Inv(Run(sort, s, events)) && Later(s.workers, Run(sort, s, events).workers)
    decreases |events|
  {
    if events != [] {
      AfterKeeps(sort, s, events[0]);
      RunKeeps(sort, After(sort, s, events[0]), events[1..]);
    }
  }

  // ----- Shutdown

  function EndedAll(ws: seq<Worker>, ids: seq<nat>): (r: seq<Worker>)
    requires forall i :: 0 <= i < |ids| ==> ids[i] < |ws|
    ensures |r| == |ws|
    decreases |ids|
  {
    if ids == [] then ws else EndedAll(ws[ids[0] := ws[ids[0]].Terminated()], ids[1..])
  }

  /** Ending these workers one by one meets one that is ended already. */
  predicate EndingPanics(ws: seq<Worker>, ids: seq<nat>)
    requires forall i :: 0 <= i < |ids| ==> ids[i] < |ws|
    decreases |ids|
  {
    ids != [] &&
    (!ws[ids[0]].Open() || EndingPanics(ws[ids[0] := ws[ids[0]].Terminated()], ids[1..]))
  }

  /** That is so exactly when one of them is ended from the start, or stands in the array twice. */
  lemma {:induction false} EndingPanicsExactlyWhen(ws: seq<Worker>, ids: seq<nat>)
    requires forall i :: 0 <= i < |ids| ==> ids[i] < |ws|
    ensures EndingPanics(ws, ids) <==>
            (exists i :: 0 <= i < |ids| && !ws[ids[i]].Open())
                || (exists i, j :: 0 <= i < j < |ids| && ids[i] == ids[j])
    decreases |ids|
  {
    if ids != [] && ws[ids[0]].Open() {
      var next, rest := ws[ids[0] := ws[ids[0]].Terminated()], ids[1..];
      EndingPanicsExactlyWhen(next, rest);
      if i :| 0 <= i < |rest| && !next[rest[i]].Open() {
        assert rest[i] == ids[i + 1];
      }
      if i, j :| 0 <= i < j < |rest| && rest[i] == rest[j] {
        assert ids[i + 1] == ids[j + 1];
      }
      if i :| 0 <= i < |ids| && !ws[ids[i]].Open() {
        assert rest[i - 1] == ids[i] && !next[rest[i - 1]].Open();
      }
      if i, j :| 0 <= i < j < |ids| && ids[i] == ids[j] {
        assert rest[j - 1] == ids[j];
        if i == 0 {
          assert !next[rest[j - 1]].Open();
        } else {
          assert rest[i - 1] == rest[j - 1];
        }
      }
    }
  }

  lemma {:induction false} EndedAllOnce(ws: seq<Worker>, ids: seq<nat>)
    requires AllSound(ws) && AllOpen(ws, ids)
    requires forall i, j :: 0 <= i < j < |ids| ==> ids[i] != ids[j]
    ensures AllSound(EndedAll(ws, ids)) && Later(ws, EndedAll(ws, ids))
    ensures forall id :: 0 <= id < |ws| ==> EndedAll(ws, ids)[id] == if id in ids then ws[id].Terminated() else ws[id]
    decreases |ids|
  {
    if ids != [] {
      var next := ws[ids[0] := ws[ids[0]].Terminated()];
      assert forall i :: 1 <= i < |ids| ==> ids[i] != ids[0];
      EndedAllOnce(next, ids[1..]);
      forall id | 0 <= id < |ws|
        ensures EndedAll(ws, ids)[id] == if id in ids then ws[id].Terminated() else ws[id]
      {
        assert id in ids <==> id == ids[0] || id in ids[1..];
      }
    }
  }

  lemma WorkersDiffer(s: State, i: nat, j: nat)
    requires Inv(s) && i < j < |s.ids|
    ensures s.ids[i] != s.ids[j]
  {
    assert s.nodes[i] != s.nodes[j];
  }

  /**
    * One-way life of a worker.  Over any run of rebalances and failures from the start of a client, followed
    * by one Shutdown, the channels of every worker are closed once at most, those of the workers in the
    * array exactly once, and whoever was ended is not connected.
    */
  lemma ChannelsCloseOnce(sort: nat -> Program, events: seq<Event>)
    requires Programs(sort) && WellFormed(events)
    ensures var s := Run(sort, FRESH_CLIENT, events);
            && (forall i :: 0 <= i < |s.ids| ==> s.ids[i] < |s.workers|)
            && var end := EndedAll(s.workers, s.ids);
               && AllSound(end)
               && forall i :: 0 <= i < |s.ids| ==> end[s.ids[i]].jobsClosed == 1 && end[s.ids[i]].channelClosed == 1
  {
    RunKeeps(sort, FRESH_CLIENT, events);
    var s := Run(sort, FRESH_CLIENT, events);
    forall i, j | 0 <= i < j < |s.ids| ensures s.ids[i] != s.ids[j] {
      WorkersDiffer(s, i, j);
    }
    EndedAllOnce(s.workers, s.ids);
  }

  lemma InvEndsSafely(s: State)
    requires Inv(s)
    ensures !EndingPanics(s.workers, s.ids) && AllSound(EndedAll(s.workers, s.ids))
  {
    forall i, j | 0 <= i < j < |s.ids| ensures s.ids[i] != s.ids[j] {
      WorkersDiffer(s, i, j);
    }
    EndingPanicsExactlyWhen(s.workers, s.ids);
    EndedAllOnce(s.workers, s.ids);
  }

  // ----- the object

  class Client {
    var workers: seq<Worker>
    var nodeWorkerArray: seq<nat>
    var connectedNodes: seq<Node>
    var notAvailable: bool
    var shuttingDown: bool
    var channelClosed: bool   // the rebalance channel
    const sort: nat -> Program

    function Snapshot(): State
      reads this
    {
      State(workers, nodeWorkerArray, connectedNodes, notAvailable)
    }

    /** What holds whatever the listings are; `Inv` holds besides as long as none repeats a node. */
    ghost predicate Valid()
      reads this
    {
      && Programs(sort) && Aligned(workers, nodeWorkerArray, connectedNodes) && Twinned(workers)
      && (channelClosed ==> shuttingDown)
    }

    constructor (sort: nat -> Program)
      requires Programs(sort)
      ensures Valid() && Snapshot() == FRESH_CLIENT && !shuttingDown && this.sort == sort
    {
      this.sort := sort;
      workers, nodeWorkerArray, connectedNodes, notAvailable := [], [], [], false;
      shuttingDown, channelClosed := false, false;
    }

    /** A worker that lost its connection. */
    method Fail(drops: set<nat>)
      requires Valid()
      modifies this`workers
      ensures Valid() && Snapshot() == old(Snapshot()).(workers := Dropped(old(workers), drops))
      ensures Inv(old(Snapshot())) ==> Inv(Snapshot())
    {
      workers := Dropped(workers, drops);
    }

    /** terminate: closing channels that are closed already is a panic. */
    method Terminate(id: nat) returns (panics: bool)
      requires id < |workers|
      modifies this`workers
      ensures panics <==> !old(workers)[id].Open()
      ensures !panics ==> workers == old(workers)[id := old(workers)[id].Terminated()]
    {
      workers := workers[id := workers[id].(connected := false)];
      if workers[id].channelClosed > 0 {
        return true;
      }
      workers := workers[id := workers[id].(channelClosed := 1)];
      if workers[id].jobsClosed > 0 {
        return true;
      }
      workers := workers[id := workers[id].(jobsClosed := 1)];
      return false;
    }

    /** createNodeWorker: the number of the new worker, unless one of its connections cannot be made. */
    method CreateNodeWorker(node: Node, visit: Visit) returns (made: Option<nat>)
      modifies this`workers
      ensures made == if visit.Creates() then Some(|old(workers)|) else None
      ensures workers == old(workers)
                       + [if visit.Creates() then Worker(node, true, 0, 0) else Worker(node, false, 0, 0).Terminated()]
    {
      var id := |workers|;
      workers := workers + [Worker(node, false, 0, 0)];
      var i := 0;
      while i < |visit.dials|
        invariant 0 <= i <= |visit.dials|
        invariant workers == old(workers) + [Worker(node, false, 0, 0)]
        invariant forall j :: 0 <= j < i ==> visit.dials[j]
      {
        if !visit.dials[i] {
          var panics := Terminate(id);
          return None;
        }
        i := i + 1;
      }
      workers := workers[id := Worker(node, true, 0, 0)];
      return Some(id);
    }

    /** The loop that fills existingNodeWorkerMap. */
    static method IndexWorkers(keys: seq<Bytes>, ids: seq<nat>) returns (existing: map<Bytes, nat>)
      requires |keys| == |ids|
      ensures existing == Existing(keys, ids, |keys|)
    {
      existing := map[];
      var i := 0;
      while i < |keys|
        invariant 0 <= i <= |keys|
        invariant existing == Existing(keys, ids, i)
      {
        existing := existing[keys[i] := ids[i]];
        i := i + 1;
      }
    }

    /** One turn of the loop over the discovered nodes. */
    method VisitNode(node: Node, visit: Visit, conns: seq<nat>, nodes: seq<Node>, known: map<Bytes, nat>)
      returns (conns': seq<nat>, nodes': seq<Node>, known': map<Bytes, nat>, panics: bool)
      requires Sweep(workers, known, conns, nodes).Bounded()
      modifies this`workers
      ensures panics <==> VisitPanics(Sweep(old(workers), known, conns, nodes), node, visit)
      ensures !panics ==>
                Sweep(workers, known', conns', nodes') == Visited(Sweep(old(workers), known, conns, nodes), node, visit)
    {
      conns', nodes', known', panics := conns, nodes, known, false;
      workers := Dropped(workers, visit.drops);
      var nodeKey := NodeString(node);
      if nodeKey in known {
        var nw := known[nodeKey];
        if workers[nw].connected {
          conns' := conns + [nw];
          nodes' := nodes + [node];
          return;
        }
        panics := Terminate(nw);
        if panics {
          return;
        }
      }
      var made := CreateNodeWorker(node, visit);
      if made == None {
        return;
      }
      conns' := conns + [made.value];
      nodes' := nodes + [node];
      known' := known[nodeKey := made.value];
    }

    /** The loop over the discovered nodes. */
    method Discover(listing: seq<Node>, visits: seq<Visit>, existing: map<Bytes, nat>)
      returns (conns: seq<nat>, nodes: seq<Node>, panics: bool)
      requires |visits| == |listing| && Sweep(workers, existing, [], []).Bounded()
      modifies this`workers
      ensures panics <==> SweepPanics(Sweep(old(workers), existing, [], []), listing, visits)
      ensures !panics ==>
                var end := Swept(Sweep(old(workers), existing, [], []), listing, visits);
                workers == end.workers && conns == end.ids && nodes == end.nodes
    {
      conns, nodes, panics := [], [], false;
      var known := existing;
      ghost var end := Swept(Sweep(workers, existing, [], []), listing, visits);
      ghost var bad := SweepPanics(Sweep(workers, existing, [], []), listing, visits);
      var k := 0;
      assert listing[0..] == listing && visits[0..] == visits;
      while k < |listing|
        invariant 0 <= k <= |listing|
        invariant Sweep(workers, known, conns, nodes).Bounded()
        invariant end == Swept(Sweep(workers, known, conns, nodes), listing[k..], visits[k..])
        invariant bad == SweepPanics(Sweep(workers, known, conns, nodes), listing[k..], visits[k..])
      {
        SweepTurn(Sweep(workers, known, conns, nodes), listing, visits, k);
        conns, nodes, known, panics := VisitNode(listing[k], visits[k], conns, nodes, known);
        if panics {
          return;
        }
        k := k + 1;
      }
    }

    /** The two sorts and the exchange of the arrays. */
    method Publish(conns: seq<nat>, nodes: seq<Node>)
      requires Programs(sort)
      modifies this`nodeWorkerArray, this`connectedNodes, this`notAvailable
      ensures nodeWorkerArray == Execute(sort(|conns|), conns, HostOf(workers))
      ensures connectedNodes == Execute(sort(|nodes|), nodes, NodeHost)
      ensures notAvailable <==> nodes == []
    {
      var nodeTelnetConns := new nat[|conns|](i requires 0 <= i < |conns| => conns[i]);
      var connected := new Node[|nodes|](i requires 0 <= i < |nodes| => nodes[i]);
      assert nodeTelnetConns[..] == conns && connected[..] == nodes;
      SortInPlace(sort(nodeTelnetConns.Length), nodeTelnetConns, HostOf(workers));
      SortInPlace(sort(connected.Length), connected, NodeHost);
      nodeWorkerArray := nodeTelnetConns[..];
      connectedNodes := connected[..];
      notAvailable := |connectedNodes| == 0;
    }

    /** The map of the existing workers, and the loop. */
    method Gather(listing: seq<Node>, visits: seq<Visit>) returns (conns: seq<nat>, nodes: seq<Node>, panics: bool)
      requires |visits| == |listing| && Aligned(workers, nodeWorkerArray, connectedNodes)
      modifies this`workers
      ensures panics <==> SweepPanics(Start(old(Snapshot())), listing, visits)
      ensures !panics ==>
                var end := Swept(Start(old(Snapshot())), listing, visits);
                workers == end.workers && conns == end.ids && nodes == end.nodes
    {
      var existing := IndexWorkers(Texts(connectedNodes), nodeWorkerArray);
      conns, nodes, panics := Discover(listing, visits, existing);
    }

    /** rebalance, on any listing; where the listing repeats no node, nothing panics and the invariant is kept. */
    method Rebalance(listing: seq<Node>, visits: seq<Visit>) returns (panics: bool)
      requires Valid() && |visits| == |listing|
      modifies this`workers, this`nodeWorkerArray, this`connectedNodes, this`notAvailable
      ensures panics <==> SweepPanics(Start(old(Snapshot())), listing, visits)
      ensures !panics ==> Valid() && Snapshot() == Rebalanced(sort, old(Snapshot()), listing, visits)
      ensures Inv(old(Snapshot())) && Distinct(listing) ==> !panics && Inv(Snapshot())
    {
      ghost var before := Snapshot();
      ghost var after := Rebalanced(sort, before, listing, visits);
      var conns, nodes;
      conns, nodes, panics := Gather(listing, visits);
      if !panics {
        Publish(conns, nodes);
        assert Snapshot() == after;
        assert Valid() by {
          RebalancedIsAligned(sort, before, listing, visits);
        }
      }
      assert Inv(before) && Distinct(listing) ==> !panics && Inv(Snapshot()) by {
        DistinctListingIsSafe(sort, before, listing, visits);
      }
    }

    /**
      * Shutdown ends the workers of the array, one by one, and closes the rebalance channel; a second Shutdown
      * does nothing.  It panics at a worker that is ended already, before or by itself.
      */
    method Shutdown() returns (panics: bool)
      requires Valid()
      modifies this`workers, this`shuttingDown, this`channelClosed
      ensures shuttingDown && forall i :: 0 <= i < |nodeWorkerArray| ==> nodeWorkerArray[i] < |old(workers)|
      ensures old(shuttingDown) ==> !panics && workers == old(workers) && channelClosed == old(channelClosed)
      ensures !old(shuttingDown) ==> (panics <==> EndingPanics(old(workers), nodeWorkerArray))
      ensures !old(shuttingDown) && !panics ==> channelClosed && workers == EndedAll(old(workers), nodeWorkerArray)
      ensures Inv(old(Snapshot())) ==> !panics && AllSound(workers)
    {
      ghost var before := Snapshot();
      if Inv(before) {
        InvEndsSafely(before);
      }
      if shuttingDown {
        return false;
      }
      shuttingDown := true;
      ghost var end := EndedAll(workers, nodeWorkerArray);
      ghost var bad := EndingPanics(workers, nodeWorkerArray);
      var k := 0;
      assert nodeWorkerArray[0..] == nodeWorkerArray;
      while k < |nodeWorkerArray|
        invariant 0 <= k <= |nodeWorkerArray| && |workers| == |old(workers)|
        invariant end == EndedAll(workers, nodeWorkerArray[k..])
        invariant bad == EndingPanics(workers, nodeWorkerArray[k..]) && shuttingDown
      {
        panics := Terminate(nodeWorkerArray[k]);
        if panics {
          return;
        }
        assert nodeWorkerArray[k..][1..] == nodeWorkerArray[k + 1..];
        k := k + 1;
      }
      assert nodeWorkerArray[k..] == [];
      channelClosed := true;
      return false;
    }
  }
}
