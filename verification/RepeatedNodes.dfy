/** A listing that names a node twice: its worker is published twice, and Shutdown closes its channels twice. */
module RepeatedNodes {
  import opened Bytes
  import opened Sorting
  import opened Rebalancing

  /** The visits in which nothing fails and every connection can be made. */
  function CalmVisits(n: nat): (visits: seq<Visit>)
    ensures |visits| == n && forall k :: 0 <= k < n ==> visits[k] == Visit({}, [])
  {
    seq(n, _ => Visit({}, []))
  }

  predicate AllFoundConnected(sw: Sweep) {
    forall key :: key in sw.existing ==> sw.existing[key] < |sw.workers| && sw.workers[sw.existing[key]].connected
  }

  lemma DropsNothing(ws: seq<Worker>)
    ensures Dropped(ws, {}) == ws
  {
  }

  /** A calm visit publishes the worker that is found under the node's text from then on. */
  lemma CalmVisit(sw: Sweep, node: Node)
    requires sw.Bounded() && AllFoundConnected(sw)
    ensures var next := Visited(sw, node, Visit({}, []));
            && AllFoundConnected(next) && NodeString(node) in next.existing
            && next.ids == sw.ids + [next.existing[NodeString(node)]]
            && (forall key :: key in sw.existing ==> key in next.existing && next.existing[key] == sw.existing[key])
  {
    DropsNothing(sw.workers);
  }

  /** At that index of the array stands the worker that is found under that text. */
  predicate Shows(sw: Sweep, at: nat, key: Bytes) {
    at < |sw.ids| && key in sw.existing && sw.ids[at] == sw.existing[key]
  }

  /** One calm visit: the map and the array only grow, and the array by the worker of the node visited. */
  predicate Turned(sw: Sweep, next: Sweep, key: Bytes) {
    && sw.ids <= next.ids && |next.ids| == |sw.ids| + 1 && Shows(next, |sw.ids|, key)
    && forall k :: k in sw.existing ==> k in next.existing && next.existing[k] == sw.existing[k]
  }

  lemma CalmTurn(sw: Sweep, listing: seq<Node>, key: Bytes) returns (next: Sweep)
    requires sw.Bounded() && AllFoundConnected(sw) && listing != [] && key == NodeString(listing[0])
    ensures next.Bounded() && AllFoundConnected(next) && Turned(sw, next, key)
    ensures Swept(sw, listing, CalmVisits(|listing|)) == Swept(next, listing[1..], CalmVisits(|listing[1..]|))
  {
    next := Visited(sw, listing[0], Visit({}, []));
    CalmVisit(sw, listing[0]);
    assert CalmVisits(|listing|)[1..] == CalmVisits(|listing[1..]|);
  }

  ghost predicate IsTrace(trace: seq<Sweep>, keys: seq<Bytes>) {
    |trace| == |keys| + 1 && forall k :: 0 <= k < |keys| ==> Turned(trace[k], trace[k + 1], keys[k])
  }

  lemma TraceFrom(sw: Sweep, rest: seq<Sweep>, keys: seq<Bytes>)
    requires keys != [] && IsTrace(rest, keys[1..]) && Turned(sw, rest[0], keys[0])
    ensures IsTrace([sw] + rest, keys)
  {
    var trace := [sw] + rest;
    forall k | 0 <= k < |keys| ensures Turned(trace[k], trace[k + 1], keys[k]) {
      if 0 < k {
        assert Turned(rest[k - 1], rest[k], keys[1..][k - 1]);
      }
    }
  }

  lemma TextsOfRest(listing: seq<Node>)
    requires listing != []
    ensures Texts(listing)[1..] == Texts(listing[1..])
  {
    var rest := listing[1..];
    assert forall i :: 0 <= i < |rest| ==> rest[i] == listing[i + 1];
  }

  /** The states of the loop over a listing, when every visit is calm. */
  lemma {:induction false} CalmTrace(sw: Sweep, listing: seq<Node>, keys: seq<Bytes>, end: Sweep)
    returns (trace: seq<Sweep>)
    requires sw.Bounded() && AllFoundConnected(sw) && keys == Texts(listing)
    requires end == Swept(sw, listing, CalmVisits(|listing|))
    ensures IsTrace(trace, keys) && trace[0] == sw && trace[|keys|] == end && AllFoundConnected(end)
    decreases |listing|
  {
    if listing == [] {
      trace := [sw];
    } else {
      TextsOfRest(listing);
      var next := CalmTurn(sw, listing, keys[0]);
      var rest := CalmTrace(next, listing[1..], keys[1..], end);
      TraceFrom(sw, rest, keys);
      trace := [sw] + rest;
    }
  }

  lemma {:induction false} TraceGrows(trace: seq<Sweep>, keys: seq<Bytes>, m: nat)
    requires IsTrace(trace, keys) && trace[0].ids == [] && m <= |keys|
    ensures |trace[m].ids| == m
  {
    if 0 < m {
      TraceGrows(trace, keys, m - 1);
      assert Turned(trace[m - 1], trace[m], keys[m - 1]);
    }
  }

  /** What a visit has put into the array stays there, under the same text. */
  lemma {:induction false} TraceShows(trace: seq<Sweep>, keys: seq<Bytes>, k: nat, m: nat)
    requires IsTrace(trace, keys) && trace[0].ids == [] && k < m <= |keys|
    ensures |trace[m].ids| == m && Shows(trace[m], k, keys[k])
    decreases m
  {
    assert Turned(trace[m - 1], trace[m], keys[m - 1]);
    if k < m - 1 {
      TraceShows(trace, keys, k, m - 1);
      assert trace[m].ids[k] == trace[m - 1].ids[k];
    } else {
      TraceGrows(trace, keys, k);
    }
  }

  /** After a calm sweep of a new client, equal nodes of the listing stand in the array with the same worker. */
  lemma {:induction false} CalmSweepRepeats(listing: seq<Node>, i: nat, j: nat)
    requires i < j < |listing| && listing[i] == listing[j]
    ensures var end := Swept(Start(FRESH_CLIENT), listing, CalmVisits(|listing|));
            && |end.ids| == |listing| && end.ids[i] == end.ids[j]
            && forall k :: 0 <= k < |end.ids| ==> end.ids[k] < |end.workers|
  {
    var keys := Texts(listing);
    var end := Swept(Start(FRESH_CLIENT), listing, CalmVisits(|listing|));
    var trace := CalmTrace(Start(FRESH_CLIENT), listing, keys, end);
    forall k | 0 <= k < |keys| ensures Shows(end, k, keys[k]) {
      TraceShows(trace, keys, k, |keys|);
    }
    TraceGrows(trace, keys, |keys|);
    assert Shows(end, i, keys[i]) && Shows(end, j, keys[j]);
    forall k | 0 <= k < |keys| ensures end.ids[k] < |end.workers| {
      assert Shows(end, k, keys[k]);
    }
  }

  /** How often each worker is ended: as often as its number stands in the array. */
  lemma {:induction false} EndedAllCounts(ws: seq<Worker>, ids: seq<nat>, id: nat)
    requires (forall i :: 0 <= i < |ids| ==> ids[i] < |ws|) && id < |ws|
    ensures EndedAll(ws, ids)[id].jobsClosed == ws[id].jobsClosed + multiset(ids)[id]
    decreases |ids|
  {
    if ids != [] {
      assert ids == [ids[0]] + ids[1..];
      EndedAllCounts(ws[ids[0] := ws[ids[0]].Terminated()], ids[1..], id);
    }
  }

  lemma StandsTwice(ids: seq<nat>, i: nat, j: nat)
    requires i < j < |ids| && ids[i] == ids[j]
    ensures 2 <= multiset(ids)[ids[i]]
  {
    assert ids == ids[..i] + [ids[i]] + ids[i + 1..];
    assert ids[i + 1..][j - i - 1] == ids[j];
    assert multiset(ids) == multiset(ids[..i]) + multiset{ids[i]} + multiset(ids[i + 1..]);
  }

  lemma RearrangedRepeats<T>(b: seq<T>, a: seq<T>, moved: seq<nat>, i: nat, j: nat) returns (x: nat, y: nat)
    requires IsPermutation(moved, |a|) && IsRearranged(b, a, moved)
    requires i < j < |a| && a[i] == a[j]
    ensures x < y < |b| && b[x] == b[y] == a[i]
  {
    assert i in moved && j in moved;
    x :| 0 <= x < |moved| && moved[x] == i;
    y :| 0 <= y < |moved| && moved[y] == j;
    if y < x {
      x, y := y, x;
    }
  }

  /** The ids are sorted by some permutation, whatever they are. */
  lemma IdsAreRearranged(p: Program, ids: seq<nat>, host: nat -> Bytes) returns (moved: seq<nat>)
    requires Within(p, |ids|)
    ensures IsPermutation(moved, |ids|) && IsRearranged(Execute(p, ids, host), ids, moved)
  {
    var hosts := Hosts(ids, host);
    moved := Permutation(p, hosts);
    SortFollowsHosts(p, ids, host, hosts);
    PermutationIsInjective(p, hosts);
  }

  lemma RepeatedIdClosesTwice(ws: seq<Worker>, ids: seq<nat>, x: nat, y: nat)
    requires (forall i :: 0 <= i < |ids| ==> ids[i] < |ws|) && x < y < |ids| && ids[x] == ids[y]
    ensures exists id :: 0 <= id < |ws| && 1 < EndedAll(ws, ids)[id].jobsClosed
  {
    StandsTwice(ids, x, y);
    EndedAllCounts(ws, ids, ids[x]);
    assert 1 < EndedAll(ws, ids)[ids[x]].jobsClosed;
  }

  /** The channels of some worker are closed twice when all workers of the array are ended. */
  ghost predicate EndsTwice(s: State) {
    && (forall i :: 0 <= i < |s.ids| ==> s.ids[i] < |s.workers|)
    && exists id :: 0 <= id < |s.workers| && 1 < EndedAll(s.workers, s.ids)[id].jobsClosed
  }

  lemma PublishedEndsTwice(sort: nat -> Program, sw: Sweep, i: nat, j: nat)
    requires Programs(sort) && forall k :: 0 <= k < |sw.ids| ==> sw.ids[k] < |sw.workers|
    requires i < j < |sw.ids| && sw.ids[i] == sw.ids[j]
    ensures EndsTwice(Published(sort, sw))
  {
    var s := Published(sort, sw);
    var moved := IdsAreRearranged(sort(|sw.ids|), sw.ids, HostOf(sw.workers));
    var x, y := RearrangedRepeats(s.ids, sw.ids, moved, i, j);
    assert forall k :: 0 <= k < |s.ids| ==> s.ids[k] == sw.ids[moved[k]];
    RepeatedIdClosesTwice(s.workers, s.ids, x, y);
  }

  lemma RepeatedNodeEndsTwice(sort: nat -> Program, listing: seq<Node>, i: nat, j: nat)
    requires Programs(sort) && i < j < |listing| && listing[i] == listing[j]
    ensures EndsTwice(Rebalanced(sort, FRESH_CLIENT, listing, CalmVisits(|listing|)))
  {
    CalmSweepRepeats(listing, i, j);
    PublishedEndsTwice(sort, Swept(Start(FRESH_CLIENT), listing, CalmVisits(|listing|)), i, j);
  }

  /**
    * Listings must not repeat a node: a client that meets the listing in its first rebalance and is then shut
    * down can close a channel twice, which is a panic, exactly when the listing names a node twice.
    */
  lemma EndsTwiceExactlyWhen(sort: nat -> Program, listing: seq<Node>)
    requires Programs(sort)
    ensures (exists visits :: |visits| == |listing| && EndsTwice(Rebalanced(sort, FRESH_CLIENT, listing, visits)))
       <==> !Distinct(listing)
  {
    if Distinct(listing) {
      forall visits | |visits| == |listing| ensures !EndsTwice(Rebalanced(sort, FRESH_CLIENT, listing, visits)) {
        var events := [Rebalance(listing, visits)];
        ChannelsCloseOnce(sort, events);
        assert events[1..] == [];
      }
    } else {
      var i, j :| 0 <= i < j < |listing| && listing[i] == listing[j];
      RepeatedNodeEndsTwice(sort, listing, i, j);
    }
  }

  // ----- panics in a rebalance

  /** The state in which node number `i` of the listing is visited. */
  function StateAt(sw: Sweep, listing: seq<Node>, visits: seq<Visit>, i: nat): (r: Sweep)
    requires sw.Bounded() && i < |listing| == |visits|
    ensures r.Bounded()
    decreases i
  {
    if i == 0 then sw else StateAt(Visited(sw, listing[0], visits[0]), listing[1..], visits[1..], i - 1)
  }

  /** The visit ends the worker of that text and does not replace it. */
  predicate EndsForGood(sw: Sweep, key: Bytes, v: Visit)
    requires sw.Bounded()
  {
    key in sw.existing && !Dropped(sw.workers, v.drops)[sw.existing[key]].connected && !v.Creates()
  }

  predicate EndsForGoodAt(sw: Sweep, listing: seq<Node>, keys: seq<Bytes>, visits: seq<Visit>, i: nat)
    requires sw.Bounded() && i < |listing| == |visits| == |keys|
  {
    EndsForGood(StateAt(sw, listing, visits, i), keys[i], visits[i])
  }

  /** The workers that are ended are those of the texts in `ended`. */
  ghost predicate EndedAre(sw: Sweep, ended: set<Bytes>) {
    && sw.Bounded() && Keyed(sw.workers, sw.existing) && AllSound(sw.workers)
    && (forall key :: key in ended ==> key in sw.existing)
    && forall key :: key in sw.existing ==> (key in ended <==> !sw.workers[sw.existing[key]].Open())
  }

  lemma PanicsAtEnded(sw: Sweep, ended: set<Bytes>, node: Node, v: Visit)
    requires EndedAre(sw, ended)
    ensures VisitPanics(sw, node, v) <==> NodeString(node) in ended
  {
  }

  lemma EndedAfterDrop(sw: Sweep, ended: set<Bytes>, drops: set<nat>)
    requires EndedAre(sw, ended)
    ensures EndedAre(sw.(workers := Dropped(sw.workers, drops)), ended)
  {
  }

  lemma EndedAfterEnd(sw: Sweep, ended: set<Bytes>, key: Bytes)
    requires EndedAre(sw, ended) && key in sw.existing && key !in ended
    ensures var id := sw.existing[key];
            EndedAre(sw.(workers := sw.workers[id := sw.workers[id].Terminated()]), ended + {key})
  {
    var id := sw.existing[key];
    forall other | other in sw.existing && other != key ensures sw.existing[other] != id {
      assert NodeString(sw.workers[sw.existing[other]].node) == other;
    }
  }

  lemma EndedAfterCreation(sw: Sweep, ended: set<Bytes>, node: Node, creates: bool)
    requires EndedAre(sw, ended)
    ensures EndedAre(Created(sw, node, creates), if creates then ended - {NodeString(node)} else ended)
  {
  }

  lemma EndedAfterNew(sw: Sweep, ended: set<Bytes>, node: Node, v: Visit)
    requires EndedAre(sw, ended) && NodeString(node) !in sw.existing
    ensures EndedAre(Created(sw, node, v.Creates()), ended)
  {
    EndedAfterCreation(sw, ended, node, v.Creates());
    assert ended - {NodeString(node)} == ended;
  }

  lemma EndedAfterReplacement(sw: Sweep, ended: set<Bytes>, node: Node, creates: bool)
    requires EndedAre(sw, ended) && NodeString(node) in sw.existing && NodeString(node) !in ended
    ensures var key := NodeString(node);
            var id := sw.existing[key];
            EndedAre(Created(sw.(workers := sw.workers[id := sw.workers[id].Terminated()]), node, creates),
                     if creates then ended else ended + {key})
  {
    var key := NodeString(node);
    var id := sw.existing[key];
    EndedAfterEnd(sw, ended, key);
    EndedAfterCreation(sw.(workers := sw.workers[id := sw.workers[id].Terminated()]), ended + {key}, node, creates);
    assert ended + {key} - {key} == ended;
  }

  lemma EndedAfterKeep(sw: Sweep, ended: set<Bytes>, ids: seq<nat>, nodes: seq<Node>)
    requires EndedAre(sw, ended)
    ensures EndedAre(sw.(ids := ids, nodes := nodes), ended)
  {
  }

  lemma EndedAfterVisit(sw: Sweep, ended: set<Bytes>, node: Node, key: Bytes, v: Visit)
    requires EndedAre(sw, ended) && key == NodeString(node) && key !in ended
    ensures EndedAre(Visited(sw, node, v), if EndsForGood(sw, key, v) then ended + {key} else ended)
  {
    var now := sw.(workers := Dropped(sw.workers, v.drops));
    EndedAfterDrop(sw, ended, v.drops);
    if key !in now.existing {
      EndedAfterNew(now, ended, node, v);
    } else if !now.workers[now.existing[key]].connected {
      EndedAfterReplacement(now, ended, node, v.Creates());
    } else {
      EndedAfterKeep(now, ended, now.ids + [now.existing[key]], now.nodes + [node]);
    }
  }

  /** Visit `i` ends the worker of a text for good, and visit `j` finds the same text. */
  predicate EndedThenRepeated(
    sw: Sweep, listing: seq<Node>, keys: seq<Bytes>, visits: seq<Visit>, i: nat, j: nat)
    requires sw.Bounded() && |listing| == |visits| == |keys|
  {
    i < j < |keys| && keys[i] == keys[j] && EndsForGoodAt(sw, listing, keys, visits, i)
  }

  ghost predicate MeetsEnded(keys: seq<Bytes>, ended: set<Bytes>) {
    exists j :: 0 <= j < |keys| && keys[j] in ended
  }

  ghost predicate EndsAndRepeats(sw: Sweep, listing: seq<Node>, keys: seq<Bytes>, visits: seq<Visit>)
    requires sw.Bounded() && |listing| == |visits| == |keys|
  {
    exists i: nat, j: nat :: EndedThenRepeated(sw, listing, keys, visits, i, j)
  }

  /** The first visit adds its own text to those that are ended, or does not. */
  lemma RepeatsFromNext(sw: Sweep, listing: seq<Node>, keys: seq<Bytes>, visits: seq<Visit>, ended: set<Bytes>)
    requires sw.Bounded() && |listing| == |visits| == |keys| && keys != [] && keys[0] !in ended
    ensures var next := Visited(sw, listing[0], visits[0]);
            var ended' := if EndsForGood(sw, keys[0], visits[0]) then ended + {keys[0]} else ended;
            MeetsEnded(keys, ended) || EndsAndRepeats(sw, listing, keys, visits) <==>
            MeetsEnded(keys[1..], ended') || EndsAndRepeats(next, listing[1..], keys[1..], visits[1..])
  {
    var next := Visited(sw, listing[0], visits[0]);
    var ended' := if EndsForGood(sw, keys[0], visits[0]) then ended + {keys[0]} else ended;
    if j :| 0 <= j < |keys| && keys[j] in ended {
      assert keys[1..][j - 1] in ended';
    }
    if i: nat, j: nat :| EndedThenRepeated(sw, listing, keys, visits, i, j) {
      if i == 0 {
        assert keys[1..][j - 1] in ended';
      } else {
        assert EndedThenRepeated(next, listing[1..], keys[1..], visits[1..], i - 1, j - 1);
      }
    }
    if j :| 0 <= j < |keys[1..]| && keys[1..][j] in ended' {
      if keys[1..][j] in ended {
        assert keys[j + 1] in ended;
      } else {
        assert EndedThenRepeated(sw, listing, keys, visits, 0, j + 1);
      }
    }
    if i: nat, j: nat :| EndedThenRepeated(next, listing[1..], keys[1..], visits[1..], i, j) {
      assert EndedThenRepeated(sw, listing, keys, visits, i + 1, j + 1);
    }
  }

  lemma {:induction false} PanicsFrom(
    sw: Sweep, listing: seq<Node>, keys: seq<Bytes>, visits: seq<Visit>, ended: set<Bytes>)
    requires EndedAre(sw, ended) && keys == Texts(listing) && |visits| == |listing|
    ensures SweepPanics(sw, listing, visits)
       <==> MeetsEnded(keys, ended) || EndsAndRepeats(sw, listing, keys, visits)
    decreases |listing|
  {
    if listing != [] {
      PanicsAtEnded(sw, ended, listing[0], visits[0]);
      if keys[0] !in ended {
        var ended' := if EndsForGood(sw, keys[0], visits[0]) then ended + {keys[0]} else ended;
        TextsOfRest(listing);
        EndedAfterVisit(sw, ended, listing[0], keys[0], visits[0]);
        PanicsFrom(Visited(sw, listing[0], visits[0]), listing[1..], keys[1..], visits[1..], ended');
        RepeatsFromNext(sw, listing, keys, visits, ended);
      }
    }
  }

  /**
    * A rebalance closes channels twice, which is a panic, exactly when it ends the worker of a node without
    * replacing it and the listing names that node again.
    */
  lemma RebalancePanicsExactlyWhen(s: State, listing: seq<Node>, visits: seq<Visit>)
    requires Inv(s) && |visits| == |listing|
    ensures SweepPanics(Start(s), listing, visits) <==>
            exists i: nat, j: nat :: EndedThenRepeated(Start(s), listing, Texts(listing), visits, i, j)
  {
    StartKeeps(s, []);
    forall key | key in All(s) ensures s.workers[All(s)[key]].Open() {
      assert All(s)[key] in s.ids;
    }
    PanicsFrom(Start(s), listing, Texts(listing), visits, {});
  }
}
