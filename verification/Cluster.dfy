/** Routing and sharding: the nodes together, behind the operations on a key and those on the whole cluster. */
module Cluster {
  import opened Bytes
  import opened Decimal
  import opened Protocol
  import opened Replies
  import opened Telnet
  import opened StaleReplies
  import opened Framing
  import opened Compression
  import opened Operations

  // ----- routing

  /** The byte that chooses the node; without router hash, key and path it is one of a number drawn by lot. */
  function RouteByte(routerHash: Bytes, path: Bytes, key: Bytes, drawn: nat): byte {
    if routerHash != [] then routerHash[|routerHash| - 1]
    else if key != [] then key[|key| - 1]
    else if path != [] then path[|path| - 1]
    else Digits(drawn)[|Digits(drawn)| - 1]
  }

  function Route(routerHash: Bytes, path: Bytes, key: Bytes, drawn: nat, n: nat): (index: nat)
    requires 0 < n
    ensures index < n
  {
    RouteByte(routerHash, path, key, drawn) as nat % n
  }

  function Home(composite: Bytes, n: nat): (index: nat)
    requires 0 < n && composite != []
    ensures index < n
  {
    composite[|composite| - 1] as nat % n
  }

  /** Without a router hash, the node depends on the composite key only, however it is split. */
  lemma SplitDoesNotMatter(path: Bytes, key: Bytes, drawn: nat, n: nat)
    requires 0 < n && Composite(path, key) != []
    ensures Route([], path, key, drawn, n) == Home(Composite(path, key), n)
  {
  }

  // ----- the cluster

  predicate AllClean(n: NodeState) {
    forall w :: 0 <= w < |n.links| ==> StaleReplies.Clean(n.links[w])
  }

  predicate AllHealthy(n: NodeState) {
    forall w :: 0 <= w < |n.links| ==> n.links[w] == HEALTHY
  }

  /** The nodes in the order of nodeWorkerArray, and whether their workers count as connected. */
  datatype State = State(nodes: seq<NodeState>, connected: seq<bool>, notAvailable: bool) {
    predicate Valid() {
      |nodes| == |connected| && forall i :: 0 <= i < |nodes| ==> nodes[i].Valid()
    }

    predicate AllConnected() {
      Valid() && !notAvailable && 0 < |nodes| && forall i :: 0 <= i < |connected| ==> connected[i]
    }

    /** All nodes are connected, and all their workers have healthy links. */
    predicate Healthy() {
      AllConnected() && forall i :: 0 <= i < |nodes| ==> AllHealthy(nodes[i])
    }

    predicate Clean() {
      Valid() && forall i :: 0 <= i < |nodes| ==> AllClean(nodes[i])
    }
  }

  datatype Choice = Chosen(index: nat) | Denied(err: Failure)

  /** GetConnectedNodeWorkers; `drawn` is what rand.Intn gives. */
  function Connected(s: State, routerHash: Bytes, path: Bytes, key: Bytes, drawn: nat): (r: Choice)
    requires s.Valid()
    ensures r.Chosen? ==> r.index < |s.nodes|
  {
    if s.notAvailable || |s.nodes| == 0 then Denied(NoAvailableNodes)
    else
      var index := Route(routerHash, path, key, drawn, |s.nodes|);
      if s.connected[index] then Chosen(index) else Denied(NetworkError(ConnectionIsClosed))
  }

  /** The command itself, on the node that was chosen. */
  function OnNode(cfg: Config, node: nat, n: NodeState, op: Request, net: Net): (r: (NodeState, Answer))
    requires n.Valid()
    ensures r.0.Valid()
  {
    match op
    case PutReq(verb, _, _, value, ttl) => BaseStore(cfg, node, n, verb, op.CompositeKey(), value, ttl, net)
    case GetReq(_, _) => BaseGet(cfg, node, n, op.CompositeKey(), net)
    case DeleteReq(_, _) => BaseDelete(cfg, node, n, op.CompositeKey(), net)
  }

  /** Set, Add, Get and Delete; nothing is drawn, because a valid key is not empty. */
  function Perform(cfg: Config, s: State, routerHash: Bytes, op: Request, net: Net): (r: (State, Answer))
    requires s.Valid()
    ensures r.0.Valid() && |r.0.nodes| == |s.nodes|
    ensures r.0.connected == s.connected && r.0.notAvailable == s.notAvailable
  {
    if !ValidKey(op.CompositeKey()) then (s, Answer(None, Some(InvalidKey)))
    else if op.PutReq? && op.value == [] then (s, Answer(Some(Outcome(TypeNotStored, [], None)), None))
    else match Connected(s, routerHash, op.path, op.key, 0)
      case Denied(err) => (s, Answer(None, Some(err)))
      case Chosen(i) =>
        var (after, answer) := OnNode(cfg, i, s.nodes[i], op, net);
        (s.(nodes := s.nodes[i := after]), answer)
  }

  // ----- one map

  datatype Effect = Effect(values: map<Bytes, Bytes>, resultType: ResultType, data: Bytes) | Rejected

  /** What one map keyed by path ++ key does. */
  function OnMap(values: map<Bytes, Bytes>, op: Request): Effect {
    var key := op.CompositeKey();
    if !ValidKey(key) then Rejected
    else match op
      case PutReq(verb, _, _, value, _) =>
        if value == [] || (verb == Add && key in values) then Effect(values, TypeNotStored, [])
        else Effect(values[key := value], TypeStored, [])
      case GetReq(_, _) =>
        if key in values then Effect(values, TypeFound, values[key]) else Effect(values, TypeNotFound, [])
      case DeleteReq(_, _) => Effect(values - {key}, if key in values then TypeDeleted else TypeNotFound, [])
  }

  /** A stored item stands for a value. */
  ghost predicate Stands(codec: Codec, item: Item, value: Bytes) {
    item.data != [] && |item.data| <= MAX_INT && codec.decompress(item.data) == Some(value)
  }

  /** The map has a key exactly when the key's own node has it; other nodes do not matter. */
  ghost predicate Represents(cfg: Config, nodes: seq<NodeState>, values: map<Bytes, Bytes>)
    requires 0 < |nodes|
  {
    forall key :: ValidKey(key) ==>
      var home := nodes[Home(key, |nodes|)].contents;
      (key in values <==> key in home) && (key in values ==> Stands(cfg.codec, home[key], values[key]))
  }

  ghost predicate Same(answer: Answer, e: Effect) {
    match e
    case Rejected => answer == Answer(None, Some(InvalidKey))
    case Effect(_, t, data) =>
      answer.err.None? && answer.result.Some? && answer.result.value.resultType == t && answer.result.value.data == data
  }

  /** The reply that the node is going to give. */
  function ReplyTo(contents: Contents, op: Request): Bytes {
    var key := op.CompositeKey();
    match op
    case PutReq(verb, _, _, _, _) => if verb == Add && key in contents then NOT_STORED_DB else STORED_DB
    case GetReq(_, _) => GetReply(contents, key)
    case DeleteReq(_, _) => if key in contents then DELETED_DB else NOT_FOUND_DB
  }

  function ResponsesTo(op: Request): ResponseSet {
    match op case PutReq(_, _, _, _, _) => STORED_SET case GetReq(_, _) => GET_SET case DeleteReq(_, _) => DELETED_SET
  }

  /** The value can be sent: compressing it does not fail, and its length is a Go length. */
  ghost predicate Sendable(cfg: Config, op: Request) {
    op.PutReq? && op.value != [] ==>
      RestoredBy(cfg.codec, op.value) && |cfg.codec.compress(op.value).value| <= MAX_INT
  }

  lemma NodeUpdateRepresents(
    cfg: Config, nodes: seq<NodeState>, values: map<Bytes, Bytes>, key: Bytes, after: NodeState,
    values': map<Bytes, Bytes>)
    requires 0 < |nodes| && Represents(cfg, nodes, values) && ValidKey(key)
    requires forall k :: k != key ==> (k in after.contents <==> k in nodes[Home(key, |nodes|)].contents)
    requires forall k :: k != key && k in after.contents ==>
              after.contents[k] == nodes[Home(key, |nodes|)].contents[k]
    requires forall k :: k != key ==> (k in values' <==> k in values)
    requires forall k :: k != key && k in values ==> values'[k] == values[k]
    requires key in values' <==> key in after.contents
    requires key in values' ==> Stands(cfg.codec, after.contents[key], values'[key])
    ensures Represents(cfg, nodes[Home(key, |nodes|) := after], values')
  {
  }

  lemma RepresentsKey(cfg: Config, nodes: seq<NodeState>, values: map<Bytes, Bytes>, key: Bytes)
    requires 0 < |nodes| && Represents(cfg, nodes, values) && ValidKey(key)
    ensures var home := nodes[Home(key, |nodes|)].contents;
            (key in values <==> key in home) && (key in values ==> Stands(cfg.codec, home[key], values[key]))
  {
  }

  lemma PutRefines(cfg: Config, i: nat, nodes: seq<NodeState>, values: map<Bytes, Bytes>, op: Request, net: Net)
    requires 0 < |nodes| && Represents(cfg, nodes, values) && op.PutReq? && op.value != []
    requires ValidKey(op.CompositeKey()) && i == Home(op.CompositeKey(), |nodes|) && Sendable(cfg, op)
    requires nodes[i].Valid() && Ready(nodes[i], net)
             && Smooth(cfg, ResponsesTo(op), ReplyTo(nodes[i].contents, op), net)
    ensures var (after, answer) := OnNode(cfg, i, nodes[i], op, net);
            && Same(answer, OnMap(values, op)) && after.links == nodes[i].links
            && Represents(cfg, nodes[i := after], OnMap(values, op).values)
  {
    var key := op.CompositeKey();
    StoreEndToEnd(cfg, i, nodes[i], op.verb, key, op.value, op.ttl, net);
    var after := OnNode(cfg, i, nodes[i], op, net).0;
    NodeUpdateRepresents(cfg, nodes, values, key, after, OnMap(values, op).values);
  }

  lemma GetOnNode(cfg: Config, i: nat, n: NodeState, op: Request, net: Net)
    requires op.GetReq? && ValidKey(op.CompositeKey()) && n.Valid() && Ready(n, net)
    requires op.CompositeKey() in n.contents ==> |n.contents[op.CompositeKey()].data| <= MAX_INT
    requires Smooth(cfg, ResponsesTo(op), ReplyTo(n.contents, op), net)
    ensures OnNode(cfg, i, n, op, net) == (n, ValueAnswer(cfg, i, ReadItem(n.contents, op.CompositeKey())))
  {
    GetEndToEnd(cfg, i, n, op.CompositeKey(), net);
  }

  /** What is read at the key's own node is what the map has, and nothing changes. */
  lemma ReadItemRefines(cfg: Config, i: nat, nodes: seq<NodeState>, values: map<Bytes, Bytes>, op: Request)
    requires 0 < |nodes| && Represents(cfg, nodes, values) && op.GetReq?
    requires ValidKey(op.CompositeKey()) && i == Home(op.CompositeKey(), |nodes|)
    ensures Same(ValueAnswer(cfg, i, ReadItem(nodes[i].contents, op.CompositeKey())), OnMap(values, op))
    ensures Represents(cfg, nodes[i := nodes[i]], OnMap(values, op).values)
  {
    RepresentsKey(cfg, nodes, values, op.CompositeKey());
    assert nodes[i := nodes[i]] == nodes;
  }

  lemma GetRefines(cfg: Config, i: nat, nodes: seq<NodeState>, values: map<Bytes, Bytes>, op: Request, net: Net)
    requires 0 < |nodes| && Represents(cfg, nodes, values) && op.GetReq?
    requires ValidKey(op.CompositeKey()) && i == Home(op.CompositeKey(), |nodes|)
    requires nodes[i].Valid() && Ready(nodes[i], net)
             && Smooth(cfg, ResponsesTo(op), ReplyTo(nodes[i].contents, op), net)
    ensures var (after, answer) := OnNode(cfg, i, nodes[i], op, net);
            && Same(answer, OnMap(values, op)) && after.links == nodes[i].links
            && Represents(cfg, nodes[i := after], OnMap(values, op).values)
  {
    RepresentsKey(cfg, nodes, values, op.CompositeKey());
    GetOnNode(cfg, i, nodes[i], op, net);
    ReadItemRefines(cfg, i, nodes, values, op);
  }

  lemma DeleteRefines(cfg: Config, i: nat, nodes: seq<NodeState>, values: map<Bytes, Bytes>, op: Request, net: Net)
    requires 0 < |nodes| && Represents(cfg, nodes, values) && op.DeleteReq?
    requires ValidKey(op.CompositeKey()) && i == Home(op.CompositeKey(), |nodes|)
    requires nodes[i].Valid() && Ready(nodes[i], net)
             && Smooth(cfg, ResponsesTo(op), ReplyTo(nodes[i].contents, op), net)
    ensures var (after, answer) := OnNode(cfg, i, nodes[i], op, net);
            && Same(answer, OnMap(values, op)) && after.links == nodes[i].links
            && Represents(cfg, nodes[i := after], OnMap(values, op).values)
  {
    var key := op.CompositeKey();
    DeleteEndToEnd(cfg, i, nodes[i], key, net);
    NodeUpdateRepresents(cfg, nodes, values, key, nodes[i].(contents := nodes[i].contents - {key}), values - {key});
  }

  /** The reply of this operation comes in chunks that frame it; nothing is asked where no command is sent. */
  ghost predicate Delivered(cfg: Config, s: State, op: Request, net: Net)
    requires s.AllConnected()
  {
    ValidKey(op.CompositeKey()) && !(op.PutReq? && op.value == []) ==>
      Smooth(cfg, ResponsesTo(op), ReplyTo(s.nodes[Home(op.CompositeKey(), |s.nodes|)].contents, op), net)
  }

  lemma PerformRefines(cfg: Config, s: State, values: map<Bytes, Bytes>, op: Request, net: Net)
    requires s.Healthy() && Represents(cfg, s.nodes, values) && Sendable(cfg, op) && Delivered(cfg, s, op, net)
    ensures var (after, answer) := Perform(cfg, s, [], op, net);
            var e := OnMap(values, op);
            && after.Healthy() && Same(answer, e)
            && Represents(cfg, after.nodes, if e.Rejected? then values else e.values)
  {
    if ValidKey(op.CompositeKey()) && !(op.PutReq? && op.value == []) {
      SplitDoesNotMatter(op.path, op.key, 0, |s.nodes|);
      var i := Home(op.CompositeKey(), |s.nodes|);
      match op
      case PutReq(_, _, _, _, _) => PutRefines(cfg, i, s.nodes, values, op, net);
      case GetReq(_, _) => GetRefines(cfg, i, s.nodes, values, op, net);
      case DeleteReq(_, _) => DeleteRefines(cfg, i, s.nodes, values, op, net);
    }
  }

  // ----- every sequence of operations

  function RunCluster(cfg: Config, s: State, ops: seq<Request>, nets: seq<Net>): (r: (State, seq<Answer>))
    requires s.Valid() && |nets| == |ops|
    ensures |r.1| == |ops|
    decreases |ops|
  {
    if ops == [] then (s, [])
    else
      var (next, answer) := Perform(cfg, s, [], ops[0], nets[0]);
      var (last, answers) := RunCluster(cfg, next, ops[1..], nets[1..]);
      (last, [answer] + answers)
  }

  function RunMap(values: map<Bytes, Bytes>, ops: seq<Request>): (r: (map<Bytes, Bytes>, seq<Effect>))
    ensures |r.1| == |ops|
    decreases |ops|
  {
    if ops == [] then (values, [])
    else
      var e := OnMap(values, ops[0]);
      var (last, effects) := RunMap(if e.Rejected? then values else e.values, ops[1..]);
      (last, [e] + effects)
  }

  /** Every value can be sent and every reply is framed when its turn comes. */
  ghost predicate Undisturbed(cfg: Config, s: State, ops: seq<Request>, nets: seq<Net>)
    requires s.AllConnected() && |nets| == |ops|
    decreases |ops|
  {
    ops != [] ==>
      && Sendable(cfg, ops[0]) && Delivered(cfg, s, ops[0], nets[0])
      && Undisturbed(cfg, Perform(cfg, s, [], ops[0], nets[0]).0, ops[1..], nets[1..])
  }

  /**
    * A sharded run refines a single map.  Whatever operations are called, in whatever order and with
    * whatever split of the composite keys, their results are those of one map keyed by path ++ key, and the
    * cluster stands for that map in the end.
    */
  lemma {:induction false} ShardedRunRefinesMap(
    cfg: Config, s: State, values: map<Bytes, Bytes>, ops: seq<Request>, nets: seq<Net>)
    requires s.Healthy() && |nets| == |ops| && Represents(cfg, s.nodes, values) && Undisturbed(cfg, s, ops, nets)
    ensures var (last, answers) := RunCluster(cfg, s, ops, nets);
            var (end, effects) := RunMap(values, ops);
            && last.Healthy() && Represents(cfg, last.nodes, end)
            && forall k :: 0 <= k < |ops| ==> Same(answers[k], effects[k])
    decreases |ops|
  {
    if ops != [] {
      var e := OnMap(values, ops[0]);
      var rest := if e.Rejected? then values else e.values;
      var (next, answer) := Perform(cfg, s, [], ops[0], nets[0]);
      assert next.Healthy() && Same(answer, e) && Represents(cfg, next.nodes, rest) by {
        PerformRefines(cfg, s, values, ops[0], nets[0]);
      }
      ShardedRunRefinesMap(cfg, next, rest, ops[1..], nets[1..]);
      assert RunCluster(cfg, s, ops, nets).0 == RunCluster(cfg, next, ops[1..], nets[1..]).0;
      assert RunMap(values, ops).0 == RunMap(rest, ops[1..]).0;
    }
  }

  // ----- any network

  /** The command is sent at all: nothing is, where a value cannot be compressed. */
  predicate IsSent(cfg: Config, op: Request) {
    op.PutReq? ==> cfg.codec.compress(op.value).Some?
  }

  /** The bytes that are sent for a request. */
  function Payload(cfg: Config, op: Request): Bytes
    requires IsSent(cfg, op)
  {
    match op
    case PutReq(verb, _, _, value, ttl) => StoreCmd(verb, op.CompositeKey(), cfg.codec.compress(value).value, ttl)
    case GetReq(_, _) => KeyOnlyCmd(GET, op.CompositeKey())
    case DeleteReq(_, _) => KeyOnlyCmd(DELETE, op.CompositeKey())
  }

  /**
    * One operation on one node, on any network: the server has obeyed the command once or not at all, and it has
    * obeyed when a command was sent, the link was clean, and there is no error.
    */
  lemma OnNodeIsObeyed(cfg: Config, node: nat, n: NodeState, op: Request, net: Net)
    requires n.Valid()
    ensures var (after, answer) := OnNode(cfg, node, n, op, net);
            && (after.contents != n.contents ==> IsSent(cfg, op))
            && (IsSent(cfg, op) ==>
                  var served := Serve(n.contents, Payload(cfg, op)).contents;
                  && (after.contents == n.contents || after.contents == served)
                  && (answer.err.None? && AllClean(n) ==> after.contents == served))
  {
    if IsSent(cfg, op) {
      AnsweredIsObeyed(cfg, n, Payload(cfg, op), ResponsesTo(op), net);
    }
  }

  /** Servers that hold nothing stand for the empty map. */
  lemma EmptyRepresentsEmpty(cfg: Config, n: nat, links: seq<Link>)
    requires 0 < n
    ensures Represents(cfg, seq(n, _ => NodeState(map[], links)), map[])
  {
  }

  /** An operation does not see how its composite key is split. */
  lemma SplitIsInvisible(cfg: Config, s: State, path: Bytes, key: Bytes, path2: Bytes, key2: Bytes, net: Net)
    requires s.Valid() && Composite(path, key) == Composite(path2, key2)
    ensures Perform(cfg, s, [], GetReq(path, key), net) == Perform(cfg, s, [], GetReq(path2, key2), net)
    ensures Perform(cfg, s, [], DeleteReq(path, key), net) == Perform(cfg, s, [], DeleteReq(path2, key2), net)
  {
    if ValidKey(Composite(path, key)) && 0 < |s.nodes| {
      SplitDoesNotMatter(path, key, 0, |s.nodes|);
      SplitDoesNotMatter(path2, key2, 0, |s.nodes|);
    }
  }

  // ----- operations on all nodes

  /** The turn of index `i` in clusterStore, ClusterGet and ClusterDelete, once the key has been accepted. */
  function AtIndex(cfg: Config, s: State, op: Request, nets: seq<Net>, i: nat): (r: (NodeState, Answer))
    requires s.Valid() && i < |s.nodes| == |nets|
    ensures r.0.Valid()
  {
    if s.connected[i] then OnNode(cfg, i, s.nodes[i], op, nets[i])
    else (s.nodes[i], Answer(None, Some(NetworkError(ConnectionIsClosed))))
  }

  function AnswersOf(cfg: Config, s: State, op: Request, nets: seq<Net>): (answers: seq<Answer>)
    requires s.Valid() && |nets| == |s.nodes|
    ensures |answers| == |s.nodes|
  {
    seq(|s.nodes|, i requires 0 <= i < |s.nodes| => AtIndex(cfg, s, op, nets, i).1)
  }

  function ClusterPerform(cfg: Config, s: State, op: Request, nets: seq<Net>): (r: (State, seq<Answer>))
    requires s.Valid() && |s.nodes| == |nets|
    ensures r.0.Valid() && |r.0.nodes| == |r.1| == |s.nodes|
    ensures r.0.connected == s.connected && r.0.notAvailable == s.notAvailable
    ensures ValidKey(op.CompositeKey()) ==>
              forall i :: 0 <= i < |s.nodes| ==> (r.0.nodes[i], r.1[i]) == AtIndex(cfg, s, op, nets, i)
  {
    var n := |s.nodes|;
    if !ValidKey(op.CompositeKey()) then (s, seq(n, _ => Answer(None, Some(InvalidKey))))
    else
      (s.(nodes := seq(n, i requires 0 <= i < n => AtIndex(cfg, s, op, nets, i).0)),
       AnswersOf(cfg, s, op, nets))
  }

  function Nets(turns: seq<Turn>): (nets: seq<Net>)
    ensures |nets| == |turns| && forall i :: 0 <= i < |turns| ==> nets[i] == turns[i].net
  {
    seq(|turns|, i requires 0 <= i < |turns| => turns[i].net)
  }

  // ----- rebalances between two indices

  /** The turn of one index: what a rebalance has published since the turn before, and the network. */
  datatype Turn = Turn(published: Option<State>, net: Net)

  predicate ValidTurns(turns: seq<Turn>) {
    forall i :: 0 <= i < |turns| && turns[i].published.Some? ==> turns[i].published.value.Valid()
  }

  function InForce(s: State, turn: Turn): State {
    match turn.published case None => s case Some(p) => p
  }

  function TurnAt(cfg: Config, s: State, op: Request, net: Net, i: nat): (r: (State, Answer))
    requires s.Valid() && i < |s.nodes|
    ensures r.0.Valid() && |r.0.nodes| == |s.nodes|
    ensures r.0.connected == s.connected && r.0.notAvailable == s.notAvailable
  {
    if s.connected[i] then
      var (after, answer) := OnNode(cfg, i, s.nodes[i], op, net);
      (s.(nodes := s.nodes[i := after]), answer)
    else (s, Answer(None, Some(NetworkError(ConnectionIsClosed))))
  }

  /** What the loops over all nodes have come to: `outOfRange` is an index beyond the array, which is a panic. */
  datatype Looped = Looped(state: State, answers: seq<Answer>, outOfRange: bool)

  /** The loop from index `i` on; `n` is the length that the array had before the loop. */
  function OverNodes(cfg: Config, s: State, op: Request, turns: seq<Turn>, i: nat, n: nat): (r: Looped)
    requires s.Valid() && ValidTurns(turns) && i <= n == |turns|
    ensures r.state.Valid() && |r.answers| <= n - i && (!r.outOfRange ==> |r.answers| == n - i)
    decreases n - i
  {
    if i == n then Looped(s, [], false)
    else
      var now := InForce(s, turns[i]);
      if i >= |now.nodes| then Looped(now, [], true)
      else
        var (after, answer) := TurnAt(cfg, now, op, turns[i].net, i);
        var rest := OverNodes(cfg, after, op, turns, i + 1, n);
        rest.(answers := [answer] + rest.answers)
  }

  function After(done: seq<Answer>, rest: Looped): Looped {
    rest.(answers := done + rest.answers)
  }

  lemma AfterNone(rest: Looped)
    ensures After([], rest) == rest
  {
    assert [] + rest.answers == rest.answers;
  }

  /** One turn of the loop that has given the answers `done`. */
  lemma OverNodesTurn(
    cfg: Config, s: State, op: Request, turns: seq<Turn>, i: nat, n: nat, done: seq<Answer>, next: State, a: Answer)
    requires s.Valid() && ValidTurns(turns) && i < n == |turns| && i < |InForce(s, turns[i]).nodes|
    requires (next, a) == TurnAt(cfg, InForce(s, turns[i]), op, turns[i].net, i)
    ensures After(done, OverNodes(cfg, s, op, turns, i, n)) ==
            After(done + [a], OverNodes(cfg, next, op, turns, i + 1, n))
  {
    var rest := OverNodes(cfg, next, op, turns, i + 1, n);
    assert done + ([a] + rest.answers) == done + [a] + rest.answers;
  }

  lemma OverNodesStops(cfg: Config, s: State, op: Request, turns: seq<Turn>, i: nat, n: nat, done: seq<Answer>)
    requires s.Valid() && ValidTurns(turns) && i <= n == |turns|
    requires i < n ==> |InForce(s, turns[i]).nodes| <= i
    ensures After(done, OverNodes(cfg, s, op, turns, i, n)) ==
            (if i == n then Looped(s, done, false) else Looped(InForce(s, turns[i]), done, true))
  {
    assert done + [] == done;
  }

  /** How long the array is at the turn of index `k`, when it had that length at the turn of index `i`. */
  function LengthAt(length: nat, turns: seq<Turn>, i: nat, k: nat): nat
    requires i <= k < |turns|
    decreases k - i
  {
    var now := match turns[i].published case None => length case Some(p) => |p.nodes|;
    if i == k then now else LengthAt(now, turns, i + 1, k)
  }

  /** At the turn of index `k` the array has no such index. */
  predicate TooShort(length: nat, turns: seq<Turn>, i: nat, k: nat) {
    i <= k < |turns| && LengthAt(length, turns, i, k) <= k
  }

  lemma {:induction false} OverNodesIsOutOfRangeExactlyWhen(
    cfg: Config, s: State, op: Request, turns: seq<Turn>, i: nat, n: nat)
    requires s.Valid() && ValidTurns(turns) && i <= n == |turns|
    ensures OverNodes(cfg, s, op, turns, i, n).outOfRange
       <==> exists k: nat :: TooShort(|s.nodes|, turns, i, k)
    decreases n - i
  {
    if i < n {
      var now := InForce(s, turns[i]);
      if i < |now.nodes| {
        var after := TurnAt(cfg, now, op, turns[i].net, i).0;
        OverNodesIsOutOfRangeExactlyWhen(cfg, after, op, turns, i + 1, n);
        var next := i + 1;
        if k: nat :| TooShort(|after.nodes|, turns, next, k) {
          assert TooShort(|s.nodes|, turns, i, k);
        }
        if k: nat :| TooShort(|s.nodes|, turns, i, k) {
          assert TooShort(|after.nodes|, turns, next, k);
        }
      } else {
        assert TooShort(|s.nodes|, turns, i, i);
      }
    }
  }

  /**
    * The loops of clusterStore, ClusterGet and ClusterDelete read the length of the array once.  They index
    * beyond it exactly when rebalances make it, by the turn of some index, no longer than that index.
    */
  lemma LoopIsOutOfRangeExactlyWhen(cfg: Config, s: State, op: Request, turns: seq<Turn>)
    requires s.Valid() && ValidTurns(turns) && |turns| == |s.nodes|
    ensures OverNodes(cfg, s, op, turns, 0, |s.nodes|).outOfRange
       <==> exists k: nat :: TooShort(|s.nodes|, turns, 0, k)
  {
    OverNodesIsOutOfRangeExactlyWhen(cfg, s, op, turns, 0, |s.nodes|);
  }

  /** In `s` the turns of the indices below `i` have been taken, from `s0` on. */
  ghost predicate Taken(cfg: Config, s0: State, s: State, op: Request, nets: seq<Net>, i: nat)
    requires s0.Valid() && |nets| == |s0.nodes|
  {
    && s.Valid() && |s.nodes| == |s0.nodes| && s.connected == s0.connected && s.notAvailable == s0.notAvailable
    && (forall k :: 0 <= k < i && k < |s.nodes| ==> s.nodes[k] == AtIndex(cfg, s0, op, nets, k).0)
    && (forall k :: i <= k < |s.nodes| ==> s.nodes[k] == s0.nodes[k])
  }

  lemma TurnIsAtIndex(cfg: Config, s0: State, s: State, op: Request, nets: seq<Net>, i: nat)
    requires s0.Valid() && s.Valid() && i < |nets| == |s0.nodes| == |s.nodes|
    requires s.nodes[i] == s0.nodes[i] && s.connected[i] == s0.connected[i]
    ensures var (after, answer) := AtIndex(cfg, s0, op, nets, i);
            TurnAt(cfg, s, op, nets[i], i) == (s.(nodes := s.nodes[i := after]), answer)
  {
    assert s.nodes[i := s.nodes[i]] == s.nodes;
  }

  lemma TurnIsTaken(cfg: Config, s0: State, s: State, op: Request, nets: seq<Net>, i: nat)
    requires s0.Valid() && i < |nets| == |s0.nodes| && Taken(cfg, s0, s, op, nets, i)
    ensures var (next, answer) := TurnAt(cfg, s, op, nets[i], i);
            Taken(cfg, s0, next, op, nets, i + 1) && answer == AtIndex(cfg, s0, op, nets, i).1
  {
    TurnIsAtIndex(cfg, s0, s, op, nets, i);
  }

  lemma QuietTurn(cfg: Config, s: State, op: Request, turns: seq<Turn>, i: nat)
    requires s.Valid() && ValidTurns(turns) && i < |turns| == |s.nodes| && turns[i].published == None
    ensures var (next, answer) := TurnAt(cfg, s, op, turns[i].net, i);
            var rest := OverNodes(cfg, next, op, turns, i + 1, |turns|);
            OverNodes(cfg, s, op, turns, i, |turns|) == rest.(answers := [answer] + rest.answers)
  {
  }

  lemma AnswersGrow(all: seq<Answer>, i: nat, a: Answer, rest: seq<Answer>)
    requires i < |all| && a == all[i] && rest == all[i + 1..]
    ensures [a] + rest == all[i..]
  {
  }

  lemma {:induction false} QuietOverNodes(cfg: Config, s0: State, s: State, op: Request, turns: seq<Turn>, i: nat)
    requires s0.Valid() && i <= |turns| == |s0.nodes| && Taken(cfg, s0, s, op, Nets(turns), i)
    requires ValidTurns(turns) && forall k :: i <= k < |turns| ==> turns[k].published == None
    ensures var r := OverNodes(cfg, s, op, turns, i, |turns|);
            && !r.outOfRange && Taken(cfg, s0, r.state, op, Nets(turns), |turns|)
            && r.answers == AnswersOf(cfg, s0, op, Nets(turns))[i..]
    decreases |turns| - i
  {
    if i < |turns| {
      var (next, a) := TurnAt(cfg, s, op, turns[i].net, i);
      TurnIsTaken(cfg, s0, s, op, Nets(turns), i);
      QuietTurn(cfg, s, op, turns, i);
      QuietOverNodes(cfg, s0, next, op, turns, i + 1);
      AnswersGrow(
        AnswersOf(cfg, s0, op, Nets(turns)), i, a, OverNodes(cfg, next, op, turns, i + 1, |turns|).answers);
    }
  }

  lemma QuietLoop(cfg: Config, s: State, op: Request, turns: seq<Turn>)
    requires s.Valid() && |turns| == |s.nodes| && forall k :: 0 <= k < |turns| ==> turns[k].published == None
    requires ValidKey(op.CompositeKey())
    ensures ValidTurns(turns)
    ensures var (after, answers) := ClusterPerform(cfg, s, op, Nets(turns));
            OverNodes(cfg, s, op, turns, 0, |s.nodes|) == Looped(after, answers, false)
  {
    QuietOverNodes(cfg, s, s, op, turns, 0);
    var r := OverNodes(cfg, s, op, turns, 0, |s.nodes|);
    var (after, answers) := ClusterPerform(cfg, s, op, Nets(turns));
    forall k | 0 <= k < |s.nodes| ensures r.state.nodes[k] == after.nodes[k] && r.answers[k] == answers[k] {
      assert (after.nodes[k], answers[k]) == AtIndex(cfg, s, op, Nets(turns), k);
    }
    assert r.state.nodes == after.nodes && r.answers == answers;
  }

  /** The worker that takes the job of a request on a node loses its connection over it. */
  predicate LosesOver(cfg: Config, n: NodeState, op: Request, net: Net)
    requires n.Valid()
  {
    IsSent(cfg, op) &&
    LosesConnection(cfg.limit, n.links[WorkerOf(n, net)],
      JobOn(n, Payload(cfg, op), ResponsesTo(op), net), net.script)
  }

  lemma OnNodeIsClosedExactlyWhen(cfg: Config, node: nat, n: NodeState, op: Request, net: Net)
    requires n.Valid()
    ensures var (after, answer) := OnNode(cfg, node, n, op, net);
            && (answer.err == Some(NetworkError(ConnectionIsClosed)) <==> LosesOver(cfg, n, op, net))
            && (LosesOver(cfg, n, op, net) ==> after.links[WorkerOf(n, net)] == Link(None, false))
  {
    if IsSent(cfg, op) {
      var ex := JobOn(n, Payload(cfg, op), ResponsesTo(op), net);
      ClosedErrorExactlyWhen(cfg.limit, n.links[WorkerOf(n, net)], ex, net.script);
    }
  }

  /**
    * An index reports the closed connection exactly when it is disconnected or its worker loses the connection
    * over this very command.  In the first case nothing happens to the node; in the second the worker is left
    * without a connection.  The error is the same, and of a delete the whole answer.
    */
  lemma IndexIsClosedExactlyWhen(cfg: Config, s: State, op: Request, nets: seq<Net>, i: nat)
    requires s.Valid() && i < |s.nodes| == |nets| && ValidKey(op.CompositeKey())
    ensures var (after, answers) := ClusterPerform(cfg, s, op, nets);
            && (answers[i].err == Some(NetworkError(ConnectionIsClosed))
                <==> !s.connected[i] || LosesOver(cfg, s.nodes[i], op, nets[i]))
            && (!s.connected[i] ==> after.nodes[i] == s.nodes[i])
            && (op.DeleteReq? && answers[i].err == Some(NetworkError(ConnectionIsClosed)) ==> answers[i].result == None)
            && (s.connected[i] && LosesOver(cfg, s.nodes[i], op, nets[i]) ==>
                  after.nodes[i].links[WorkerOf(s.nodes[i], nets[i])] == Link(None, false))
  {
    var (after, answers) := ClusterPerform(cfg, s, op, nets);
    assert (after.nodes[i], answers[i]) == AtIndex(cfg, s, op, nets, i);
    OnNodeIsClosedExactlyWhen(cfg, i, s.nodes[i], op, nets[i]);
  }

  /** What ClusterSet leaves on an index that reports no error, whatever the network does. */
  lemma SetIsObeyed(cfg: Config, node: nat, n: NodeState, key: Bytes, value: Bytes, ttl: nat, net: Net)
    requires n.Valid() && AllClean(n) && ValidKey(key) && cfg.codec.compress(value).Some?
    ensures var (after, answer) := BaseStore(cfg, node, n, Set, key, value, ttl, net);
            answer.err.None? ==> after.contents == n.contents[key := Item(0, ttl, cfg.codec.compress(value).value)]
  {
    StoreIsObeyed(n.contents, Set, key, cfg.codec.compress(value).value, ttl);
    AnsweredIsObeyed(cfg, n, StoreCmd(Set, key, cfg.codec.compress(value).value, ttl), STORED_SET, net);
  }

  lemma ClusterSetReachesAll(cfg: Config, s: State, op: Request, nets: seq<Net>)
    requires s.Clean() && |nets| == |s.nodes| && op.PutReq? && op.verb == Set
    requires ValidKey(op.CompositeKey()) && RestoredBy(cfg.codec, op.value)
    requires forall i :: 0 <= i < |s.nodes| ==> ClusterPerform(cfg, s, op, nets).1[i].err.None?
    ensures var after := ClusterPerform(cfg, s, op, nets).0;
            && after.connected == s.connected && after.notAvailable == s.notAvailable
            && forall i :: 0 <= i < |s.nodes| ==>
                 && s.connected[i]
                 && after.nodes[i].contents ==
                    s.nodes[i].contents[op.CompositeKey() := Item(0, op.ttl, cfg.codec.compress(op.value).value)]
  {
    forall i | 0 <= i < |s.nodes|
      ensures s.connected[i]
      ensures ClusterPerform(cfg, s, op, nets).0.nodes[i].contents
           == s.nodes[i].contents[op.CompositeKey() := Item(0, op.ttl, cfg.codec.compress(op.value).value)]
    {
      SetIsObeyed(cfg, i, s.nodes[i], op.CompositeKey(), op.value, op.ttl, nets[i]);
      var (after, answers) := ClusterPerform(cfg, s, op, nets);
      assert (after.nodes[i], answers[i]) == AtIndex(cfg, s, op, nets, i);
    }
  }

  /**
    * ClusterSet makes every route readable.  When it reports no error at any index, whatever the network did,
    * a Get of the same composite key that a healthy worker answers finds the value, under any split and any
    * router hash, exactly when what was sent for it is not empty: an empty value is stored everywhere and
    * found nowhere.
    */
  lemma ClusterSetIsReadExactlyWhen(
    cfg: Config, s: State, op: Request, nets: seq<Net>, routerHash: Bytes, path: Bytes, key: Bytes, net: Net)
    requires s.Clean() && 0 < |s.nodes| == |nets| && !s.notAvailable && op.PutReq? && op.verb == Set
    requires ValidKey(op.CompositeKey()) && Composite(path, key) == op.CompositeKey()
    requires RestoredBy(cfg.codec, op.value) && |cfg.codec.compress(op.value).value| <= MAX_INT
    requires forall i :: 0 <= i < |s.nodes| ==> ClusterPerform(cfg, s, op, nets).1[i].err.None?
    requires Ready(ClusterPerform(cfg, s, op, nets).0.nodes[Route(routerHash, path, key, 0, |s.nodes|)], net)
    requires Smooth(cfg, GET_SET, ValueReply(op.CompositeKey(), Digits(0), cfg.codec.compress(op.value).value), net)
    ensures var after := ClusterPerform(cfg, s, op, nets).0;
            var node := Route(routerHash, path, key, 0, |s.nodes|);
            Perform(cfg, after, routerHash, GetReq(path, key), net) ==
            (after, Answer(Some(if cfg.codec.compress(op.value).value != [] then
                Outcome(TypeFound, op.value, Some(node))
                                else Outcome(TypeNotFound, [], Some(node))), None))
  {
    var after := ClusterPerform(cfg, s, op, nets).0;
    var node := Route(routerHash, path, key, 0, |s.nodes|);
    ClusterSetReachesAll(cfg, s, op, nets);
    GetEndToEnd(cfg, node, after.nodes[node], op.CompositeKey(), net);
    assert after.nodes[node := after.nodes[node]] == after.nodes;
  }

  /** The empty value is stored at an index, where nothing fails and nothing is compressed. */
  lemma EmptyValueIsStored(cfg: Config, s: State, op: Request, nets: seq<Net>, i: nat)
    requires cfg.codec == PLAIN && s.Healthy() && i < |s.nodes| == |nets|
    requires op.PutReq? && op.verb == Set && op.value == [] && ValidKey(op.CompositeKey())
    requires Smooth(cfg, STORED_SET, STORED_DB, nets[i])
    ensures AtIndex(cfg, s, op, nets, i) ==
            (s.nodes[i].(contents := s.nodes[i].contents[op.CompositeKey() := Item(0, op.ttl, [])]),
             Answer(Some(Outcome(TypeStored, [], Some(i))), None))
  {
    StoreEndToEnd(cfg, i, s.nodes[i], Set, op.CompositeKey(), [], op.ttl, nets[i]);
  }

  /**
    * Without compression, and where nothing fails, ClusterSet reports at every index that it has stored the
    * empty value that Set refuses, and the next Get misses it.
    */
  lemma EmptyValueIsStoredAndMissed(cfg: Config, s: State, op: Request, nets: seq<Net>, getNet: Net)
    requires cfg.codec == PLAIN && s.Healthy() && |s.nodes| == |nets|
    requires op.PutReq? && op.verb == Set && op.value == [] && ValidKey(op.CompositeKey())
    requires forall i :: 0 <= i < |nets| ==> Smooth(cfg, STORED_SET, STORED_DB, nets[i])
    requires Smooth(cfg, GET_SET, ValueReply(op.CompositeKey(), Digits(0), []), getNet)
    ensures var (after, answers) := ClusterPerform(cfg, s, op, nets);
            var node := Route([], op.path, op.key, 0, |s.nodes|);
            && (forall i :: 0 <= i < |s.nodes| ==> answers[i] == Answer(Some(Outcome(TypeStored, [], Some(i))), None))
            && (forall net :: Perform(cfg, s, [], op, net) == (s, Answer(Some(Outcome(TypeNotStored, [], None)), None)))
            && Perform(cfg, after, [], GetReq(op.path, op.key), getNet).1
               == Answer(Some(Outcome(TypeNotFound, [], Some(node))), None)
  {
    var (after, answers) := ClusterPerform(cfg, s, op, nets);
    forall i | 0 <= i < |s.nodes|
      ensures answers[i] == Answer(Some(Outcome(TypeStored, [], Some(i))), None)
      ensures after.nodes[i].links == s.nodes[i].links
    {
      EmptyValueIsStored(cfg, s, op, nets, i);
      assert (after.nodes[i], answers[i]) == AtIndex(cfg, s, op, nets, i);
    }
    ClusterSetIsReadExactlyWhen(cfg, s, op, nets, [], op.path, op.key, getNet);
  }

  // ----- replies of real commands, and stale bytes

  /**
    * The reply to a command has its markers at the end only, unless it carries data in which, with the line
    * break behind it, END CR LF stands.
    */
  lemma ReplyIsSuffixOnlyExactlyWhen(contents: Contents, op: Request)
    requires ValidKey(op.CompositeKey())
    ensures SuffixOnly(ReplyTo(contents, op), ResponsesTo(op).markers)
       <==> !(op.GetReq? && op.CompositeKey() in contents && Occurs(contents[op.CompositeKey()].data + CRLF, END_DB))
  {
    var key := op.CompositeKey();
    if op.GetReq? && key in contents {
      GetReplyIsSuffixOnlyExactlyWhen(key, Digits(contents[key].flags), contents[key].data);
    } else {
      LineIsSuffixOnly(ReplyTo(contents, op), ResponsesTo(op).markers);
    }
  }

  /** The server that is sent the bytes of the command gives that reply. */
  lemma ReplyIsServed(contents: Contents, op: Request)
    requires ValidKey(op.CompositeKey())
    ensures Serve(contents, op.Rendered()).reply == ReplyTo(contents, op)
  {
    match op
    case PutReq(verb, _, _, value, ttl) => StoreIsObeyed(contents, verb, op.CompositeKey(), value, ttl);
    case GetReq(_, _) => GetIsObeyed(contents, op.CompositeKey());
    case DeleteReq(_, _) => DeleteIsObeyed(contents, op.CompositeKey());
  }

  /** The job that a command becomes, on a server that holds `contents` when its bytes arrive. */
  function JobOf(id: nat, contents: Contents, op: Request): Exchange {
    Exchange(id, ResponsesTo(op), Serve(contents, op.Rendered()).reply)
  }

  /** The jobs of a worker: command k arrives when the server holds `held[k]`. */
  function JobsOf(ops: seq<Request>, held: seq<Contents>): (exs: seq<Exchange>)
    requires |held| == |ops|
    ensures |exs| == |ops| && forall k :: 0 <= k < |ops| ==> exs[k] == JobOf(k, held[k], ops[k])
    ensures ValidJobs(exs)
  {
    seq(|ops|, k requires 0 <= k < |ops| => JobOf(k, held[k], ops[k]))
  }

  /** The data that a get would bring, if any. */
  function Carried(contents: Contents, op: Request): Option<Bytes> {
    if op.GetReq? && op.CompositeKey() in contents then Some(contents[op.CompositeKey()].data) else None
  }

  /** All keys are valid, and no data fetched has END CR LF in it or END at its end. */
  ghost predicate Delimitable(ops: seq<Request>, held: seq<Contents>)
    requires |held| == |ops|
  {
    forall k :: 0 <= k < |ops| ==>
      && ValidKey(ops[k].CompositeKey())
      && match Carried(held[k], ops[k])
         case None => true
         case Some(data) => |data| <= MAX_INT && !Occurs(data + CRLF, END_DB)
  }

  /**
    * A worker that serves real commands, on servers that hold anything at all, never hands out a stale byte
    * as long as the data it fetches can be delimited.
    */
  lemma CommandsAreNeverStale(limit: nat, ops: seq<Request>, held: seq<Contents>, scs: seq<Script>, rebalances: bool)
    requires |held| == |ops| == |scs| && Delimitable(ops, held)
    ensures var rs := RunJobs(limit, HEALTHY, JobsOf(ops, held), scs, rebalances).0;
            |rs| <= |ops| && forall k :: 0 <= k < |rs| && rs[k].err.None? ==> Own(rs[k], JobOf(k, held[k], ops[k]))
  {
    var exs := JobsOf(ops, held);
    forall k | 0 <= k < |exs| ensures SuffixOnly(exs[k].reply, exs[k].responses.markers) {
      ReplyIsServed(held[k], ops[k]);
      ReplyIsSuffixOnlyExactlyWhen(held[k], ops[k]);
    }
    NoStaleReplies(limit, HEALTHY, exs, scs, rebalances);
  }

  // ----- every run on any network

  lemma PayloadIsServed(cfg: Config, contents: Contents, op: Request)
    requires ValidKey(op.CompositeKey()) && IsSent(cfg, op)
    ensures Serve(contents, Payload(cfg, op)).reply == ReplyTo(contents, op)
  {
    match op
    case PutReq(verb, _, _, value, ttl) =>
      StoreIsObeyed(contents, verb, op.CompositeKey(), cfg.codec.compress(value).value, ttl);
    case GetReq(_, _) => GetIsObeyed(contents, op.CompositeKey());
    case DeleteReq(_, _) => DeleteIsObeyed(contents, op.CompositeKey());
  }

  /** The data that the node holds for a get has no END CR LF in it and no END at its end. */
  ghost predicate Separable(contents: Contents, op: Request) {
    op.GetReq? && op.CompositeKey() in contents ==> !Occurs(contents[op.CompositeKey()].data + CRLF, END_DB)
  }

  lemma OnNodeKeepsClean(cfg: Config, node: nat, n: NodeState, op: Request, net: Net)
    requires n.Valid() && AllClean(n) && ValidKey(op.CompositeKey()) && Separable(n.contents, op)
    ensures AllClean(OnNode(cfg, node, n, op, net).0)
  {
    if IsSent(cfg, op) {
      var ex := JobOn(n, Payload(cfg, op), ResponsesTo(op), net);
      PayloadIsServed(cfg, n.contents, op);
      ReplyIsSuffixOnlyExactlyWhen(n.contents, op);
      assert SuffixOnly([], ResponsesTo(op).markers);
      JobStaysClean(cfg.limit, n.links[WorkerOf(n, net)], ex, net.script);
    }
  }

  lemma PerformKeepsClean(cfg: Config, s: State, routerHash: Bytes, op: Request, net: Net)
    requires s.Clean() && forall i :: 0 <= i < |s.nodes| ==> Separable(s.nodes[i].contents, op)
    ensures Perform(cfg, s, routerHash, op, net).0.Clean()
  {
    var choice := Connected(s, routerHash, op.path, op.key, 0);
    if choice.Chosen? && ValidKey(op.CompositeKey()) {
      OnNodeKeepsClean(cfg, choice.index, s.nodes[choice.index], op, net);
    }
  }

  /** No get of the run meets data that cannot be told from its ending. */
  ghost predicate AllSeparable(cfg: Config, s: State, ops: seq<Request>, nets: seq<Net>)
    requires s.Valid() && |nets| == |ops|
    decreases |ops|
  {
    ops != [] ==>
      && (forall i :: 0 <= i < |s.nodes| ==> Separable(s.nodes[i].contents, ops[0]))
      && AllSeparable(cfg, Perform(cfg, s, [], ops[0], nets[0]).0, ops[1..], nets[1..])
  }

  /**
    * Over every run, on any network, every link stays clean, so that answers go on to mean what they say, as
    * long as the gets meet data that can be told from its ending.
    */
  lemma {:induction false} RunKeepsClean(cfg: Config, s: State, ops: seq<Request>, nets: seq<Net>)
    requires s.Clean() && |nets| == |ops| && AllSeparable(cfg, s, ops, nets)
    ensures RunCluster(cfg, s, ops, nets).0.Clean()
    decreases |ops|
  {
    if ops != [] {
      PerformKeepsClean(cfg, s, [], ops[0], nets[0]);
      RunKeepsClean(cfg, Perform(cfg, s, [], ops[0], nets[0]).0, ops[1..], nets[1..]);
    }
  }

  // ----- the object

  class Zencached {
    const cfg: Config
    var nodes: seq<NodeState>    // in the order of nodeWorkerArray
    var connected: seq<bool>
    var notAvailable: bool

    function Snapshot(): State
      reads this
    {
      State(nodes, connected, notAvailable)
    }

    predicate Valid()
      reads this
    {
      Snapshot().Valid()
    }

    constructor (cfg: Config, nodes: seq<NodeState>, connected: seq<bool>)
      requires |nodes| == |connected| && forall i :: 0 <= i < |nodes| ==> nodes[i].Valid()
      ensures Valid() && Snapshot() == State(nodes, connected, |nodes| == 0) && this.cfg == cfg
    {
      this.cfg, this.nodes, this.connected, this.notAvailable := cfg, nodes, connected, |nodes| == 0;
    }

    method AddJobAndWait(node: nat, renderedCmd: Bytes, rs: ResponseSet, net: Net) returns (r: Response)
      requires Valid() && node < |nodes| && rs.Valid()
      modifies this`nodes
      ensures Valid()
      ensures (nodes, r) == (old(nodes)[node := RunOnNode(cfg, old(nodes[node]), renderedCmd, rs, net).0],
                             RunOnNode(cfg, old(nodes[node]), renderedCmd, rs, net).1)
    {
      var (after, response) := RunOnNode(cfg, nodes[node], renderedCmd, rs, net);
      nodes := nodes[node := after];
      return response;
    }

    method BaseStoreOn(node: nat, verb: Verb, path: Bytes, key: Bytes, value: Bytes, ttl: nat, net: Net)
      returns (a: Answer)
      requires Valid() && node < |nodes|
      modifies this`nodes
      ensures var r := BaseStore(cfg, node, old(nodes[node]), verb, Composite(path, key), value, ttl, net);
              nodes == old(nodes)[node := r.0] && a == r.1
    {
      var tvalue := cfg.codec.compress(value);
      if tvalue == None {
        assert nodes[node := nodes[node]] == nodes;
        return Answer(Some(Outcome(TypeCompressionError, value, Some(node))), Some(CompressionFailed));
      }
      var renderedCmd := RenderStoreCmd(verb, path, key, tvalue.value, ttl);
      var result := AddJobAndWait(node, renderedCmd, STORED_SET, net);
      if result.err.Some? {
        return Answer(Some(Outcome(TypeError, [], Some(node))), Some(NetworkError(result.err.value)));
      }
      return Answer(Some(Outcome(result.resultType, [], Some(node))), None);
    }

    method BaseGetOn(node: nat, path: Bytes, key: Bytes, net: Net) returns (a: Answer)
      requires Valid() && node < |nodes|
      modifies this`nodes
      ensures var r := BaseGet(cfg, node, old(nodes[node]), Composite(path, key), net);
              nodes == old(nodes)[node := r.0] && a == r.1
    {
      var renderedCmd := RenderKeyOnlyCmd(GET, path, key);
      var result := AddJobAndWait(node, renderedCmd, GET_SET, net);
      if result.err.Some? {
        return Answer(Some(Outcome(TypeError, [], Some(node))), Some(NetworkError(result.err.value)));
      }
      if result.resultType != TypeFound {
        return Answer(Some(Outcome(result.resultType, [], Some(node))), None);
      }
      var extracted := ExtractGetCmdValue(Raw(result.data), net.spare);
      if extracted.Wrong? || extracted.OutOfBounds? {
        return Answer(Some(Outcome(TypeError, [], Some(node))), Some(BadReply(extracted)));
      }
      if extracted.Missing? || extracted.data == [] {
        return Answer(Some(Outcome(TypeNotFound, [], Some(node))), None);
      }
      var responseData := cfg.codec.decompress(extracted.data);
      if responseData == None {
        return Answer(Some(Outcome(TypeDecompressionError, extracted.data, Some(node))), Some(DecompressionFailed));
      }
      return Answer(Some(Outcome(TypeFound, responseData.value, Some(node))), None);
    }

    method BaseDeleteOn(node: nat, path: Bytes, key: Bytes, net: Net) returns (a: Answer)
      requires Valid() && node < |nodes|
      modifies this`nodes
      ensures var r := BaseDelete(cfg, node, old(nodes[node]), Composite(path, key), net);
              nodes == old(nodes)[node := r.0] && a == r.1
    {
      var renderedCmd := RenderKeyOnlyCmd(DELETE, path, key);
      var result := AddJobAndWait(node, renderedCmd, DELETED_SET, net);
      if result.err.Some? {
        return Answer(None, Some(NetworkError(result.err.value)));
      }
      return Answer(Some(Outcome(result.resultType, [], Some(node))), None);
    }

    method GetConnectedNodeWorkers(routerHash: Bytes, path: Bytes, key: Bytes, drawn: nat) returns (r: Choice)
      requires Valid()
      ensures r == Connected(Snapshot(), routerHash, path, key, drawn)
    {
      if notAvailable || |nodes| == 0 {
        return Denied(NoAvailableNodes);
      }
      var hash := routerHash;
      if |hash| == 0 {
        if |key| > 0 {
          hash := [key[|key| - 1]];
        } else if |path| > 0 {
          hash := [path[|path| - 1]];
        } else {
          hash := Digits(drawn);
        }
      }
      var index := hash[|hash| - 1] as nat % |nodes|;
      if !connected[index] {
        return Denied(NetworkError(ConnectionIsClosed));
      }
      return Chosen(index);
    }

    /** Set and Add. */
    method Store(verb: Verb, routerHash: Bytes, path: Bytes, key: Bytes, value: Bytes, ttl: nat, net: Net)
      returns (a: Answer)
      requires Valid()
      modifies this`nodes
      ensures (Snapshot(), a) == Perform(cfg, old(Snapshot()), routerHash, PutReq(verb, path, key, value, ttl), net)
    {
      var invalid := ValidateKey(path, key);
      if invalid.Some? {
        return Answer(None, Some(InvalidKey));
      }
      if |value| == 0 {
        return Answer(Some(Outcome(TypeNotStored, [], None)), None);
      }
      var choice := GetConnectedNodeWorkers(routerHash, path, key, 0);
      if choice.Denied? {
        return Answer(None, Some(choice.err));
      }
      a := BaseStoreOn(choice.index, verb, path, key, value, ttl, net);
    }

    method Get(routerHash: Bytes, path: Bytes, key: Bytes, net: Net) returns (a: Answer)
      requires Valid()
      modifies this`nodes
      ensures (Snapshot(), a) == Perform(cfg, old(Snapshot()), routerHash, GetReq(path, key), net)
    {
      var invalid := ValidateKey(path, key);
      if invalid.Some? {
        return Answer(None, Some(InvalidKey));
      }
      var choice := GetConnectedNodeWorkers(routerHash, path, key, 0);
      if choice.Denied? {
        return Answer(None, Some(choice.err));
      }
      a := BaseGetOn(choice.index, path, key, net);
    }

    method Delete(routerHash: Bytes, path: Bytes, key: Bytes, net: Net) returns (a: Answer)
      requires Valid()
      modifies this`nodes
      ensures (Snapshot(), a) == Perform(cfg, old(Snapshot()), routerHash, DeleteReq(path, key), net)
    {
      var invalid := ValidateKey(path, key);
      if invalid.Some? {
        return Answer(None, Some(InvalidKey));
      }
      var choice := GetConnectedNodeWorkers(routerHash, path, key, 0);
      if choice.Denied? {
        return Answer(None, Some(choice.err));
      }
      a := BaseDeleteOn(choice.index, path, key, net);
    }

    /** The turn of one index, for any of the three loops. */
    method RunAt(i: nat, op: Request, net: Net) returns (a: Answer)
      requires Valid() && i < |nodes|
      modifies this`nodes
      ensures (Snapshot(), a) == TurnAt(cfg, old(Snapshot()), op, net, i)
    {
      if !connected[i] {
        return Answer(None, Some(NetworkError(ConnectionIsClosed)));
      }
      match op {
        case PutReq(verb, path, key, value, ttl) => a := BaseStoreOn(i, verb, path, key, value, ttl, net);
        case GetReq(path, key) => a := BaseGetOn(i, path, key, net);
        case DeleteReq(path, key) => a := BaseDeleteOn(i, path, key, net);
      }
    }

    /** A rebalance exchanges the arrays. */
    method Republish(published: Option<State>)
      requires Valid() && (published.Some? ==> published.value.Valid())
      modifies this
      ensures Snapshot() == match published case None => old(Snapshot()) case Some(p) => p
    {
      if published.Some? {
        nodes, connected, notAvailable := published.value.nodes, published.value.connected,
            published.value.notAvailable;
      }
    }

    method FillOne(i: nat, op: Request, turn: Turn, results: array<Option<Outcome>>, errors: array<Option<Failure>>)
      returns (outOfRange: bool)
      requires Valid() && (turn.published.Some? ==> turn.published.value.Valid())
      requires i < results.Length == errors.Length
      modifies this, results, errors
      ensures outOfRange <==> |InForce(old(Snapshot()), turn).nodes| <= i
      ensures outOfRange ==> Snapshot() == InForce(old(Snapshot()), turn)
      ensures !outOfRange ==>
                (Snapshot(), Answer(results[i], errors[i])) ==
                    TurnAt(cfg, InForce(old(Snapshot()), turn), op, turn.net, i)
      ensures forall j :: 0 <= j < results.Length && j != i ==>
              results[j] == old(results[j]) && errors[j] == old(errors[j])
    {
      Republish(turn.published);
      if i >= |nodes| {
        return true;
      }
      var a := RunAt(i, op, turn.net);
      results[i], errors[i] := a.result, a.err;
      return false;
    }

    /** The loop that fills the results and the errors, on the array that is published at the turn of each index. */
    method FillResults(op: Request, turns: seq<Turn>, results: array<Option<Outcome>>, errors: array<Option<Failure>>)
      returns (outOfRange: bool)
      requires Valid() && |turns| == |nodes| == results.Length == errors.Length && ValidTurns(turns)
      modifies this, results, errors
      ensures var r := OverNodes(cfg, old(Snapshot()), op, turns, 0, |old(nodes)|);
              && Snapshot() == r.state && outOfRange == r.outOfRange
              && forall i :: 0 <= i < |r.answers| ==> Answer(results[i], errors[i]) == r.answers[i]
    {
      var numNodes := |nodes|;
      ghost var all := OverNodes(cfg, Snapshot(), op, turns, 0, numNodes);
      ghost var done: seq<Answer> := [];
      var i := 0;
      AfterNone(all);
      while i < numNodes
        invariant 0 <= i <= numNodes && Valid() && |done| == i
        invariant forall j :: 0 <= j < i ==> Answer(results[j], errors[j]) == done[j]
        invariant all == After(done, OverNodes(cfg, Snapshot(), op, turns, i, numNodes))
      {
        ghost var before := Snapshot();
        outOfRange := FillOne(i, op, turns[i], results, errors);
        if outOfRange {
          OverNodesStops(cfg, before, op, turns, i, numNodes, done);
          return;
        }
        ghost var a := Answer(results[i], errors[i]);
        OverNodesTurn(cfg, before, op, turns, i, numNodes, done, Snapshot(), a);
        done := done + [a];
        i := i + 1;
      }
      OverNodesStops(cfg, Snapshot(), op, turns, i, numNodes, done);
      return false;
    }

    /**
      * clusterStore, ClusterGet and ClusterDelete.  A caller gets the results and the errors, unless the loop
      * indexes beyond the array.
      */
    method ClusterRun(op: Request, turns: seq<Turn>)
      returns (results: array<Option<Outcome>>, errors: array<Option<Failure>>, outOfRange: bool)
      requires Valid() && |turns| == |nodes| && ValidTurns(turns)
      modifies this
      ensures fresh(results) && fresh(errors) && results.Length == errors.Length == |old(nodes)|
      ensures !ValidKey(op.CompositeKey()) ==>
                && Snapshot() == old(Snapshot()) && !outOfRange
                && forall i :: 0 <= i < results.Length ==> results[i] == None && errors[i] == Some(InvalidKey)
      ensures ValidKey(op.CompositeKey()) ==>
                var r := OverNodes(cfg, old(Snapshot()), op, turns, 0, |old(nodes)|);
                && Snapshot() == r.state && outOfRange == r.outOfRange
                && forall i :: 0 <= i < |r.answers| ==> Answer(results[i], errors[i]) == r.answers[i]
    {
      var numNodes := |nodes|;
      results := new Option<Outcome>[numNodes](_ => None);
      errors := new Option<Failure>[numNodes](_ => None);
      var invalid := ValidateKey(op.path, op.key);
      if invalid.Some? {
        var i := 0;
        while i < numNodes
          invariant 0 <= i <= numNodes && Snapshot() == old(Snapshot())
          invariant forall j :: 0 <= j < i ==> results[j] == None && errors[j] == Some(InvalidKey)
        {
          results[i], errors[i] := None, Some(InvalidKey);
          i := i + 1;
        }
        return results, errors, false;
      }
      outOfRange := FillResults(op, turns, results, errors);
    }
  }
}
