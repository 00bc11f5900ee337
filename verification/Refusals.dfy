/**
  * What a caller is told when an operation does not go through: before a command is sent, and when the job that
  * sent it fails.
  */
module Refusals {
  import opened Bytes
  import opened Decimal
  import opened Protocol
  import opened Replies
  import opened Telnet
  import opened StaleReplies
  import opened Failures
  import opened Operations
  import opened Cluster

  // ----- before a command is sent

  /** The node that an operation is for. */
  function Target(routerHash: Bytes, composite: Bytes, n: nat): (index: nat)
    requires 0 < n && composite != []
    ensures index < n
  {
    if routerHash == [] then Home(composite, n) else routerHash[|routerHash| - 1] as nat % n
  }

  /** Whatever the keys are, operations with the same router hash go to one node, and its last byte decides. */
  lemma RouterHashDecides(h: Bytes, h': Bytes, path: Bytes, key: Bytes, path': Bytes, key': Bytes, n: nat)
    requires 0 < n && h != [] && h' != [] && h[|h| - 1] == h'[|h'| - 1]
    ensures Route(h, path, key, 0, n) == Route(h', path', key', 0, n) == h[|h| - 1] as nat % n
  {
  }

  /** With nothing to route by, the node is chosen by the last digit of a number drawn by lot. */
  lemma LotDecides(drawn: nat, n: nat)
    requires 0 < n
    ensures Route([], [], [], drawn, n) == (48 + drawn % 10) % n
  {
    assert Digits(drawn)[|Digits(drawn)| - 1] == 48 + (drawn % 10) as byte;
  }

  lemma RouteIsTarget(routerHash: Bytes, path: Bytes, key: Bytes, n: nat)
    requires 0 < n && Composite(path, key) != []
    ensures Route(routerHash, path, key, 0, n) == Target(routerHash, Composite(path, key), n)
  {
    if routerHash == [] {
      SplitDoesNotMatter(path, key, 0, n);
    }
  }

  /** Set and Add look at the value before they look for a node. */
  predicate IsEmptyPut(op: Request) {
    op.PutReq? && op.value == []
  }

  predicate NoneAvailable(s: State) {
    s.notAvailable || s.nodes == []
  }

  /** The node of the operation is disconnected. */
  predicate TargetIsDown(s: State, routerHash: Bytes, op: Request)
    requires s.Valid() && !NoneAvailable(s) && ValidKey(op.CompositeKey())
  {
    !s.connected[Target(routerHash, op.CompositeKey(), |s.nodes|)]
  }

  /**
    * In every state: nothing is sent for a key that is not valid, for an empty value, without nodes, and to a node
    * that is disconnected; and the answer tells which of these it was.
    */
  lemma NothingIsSent(cfg: Config, s: State, routerHash: Bytes, op: Request, net: Net)
    requires s.Valid()
    ensures var r := Perform(cfg, s, routerHash, op, net);
            if !ValidKey(op.CompositeKey()) then r == (s, Answer(None, Some(InvalidKey)))
            else if IsEmptyPut(op) then r == (s, Answer(Some(Outcome(TypeNotStored, [], None)), None))
            else if NoneAvailable(s) then r == (s, Answer(None, Some(NoAvailableNodes)))
            else TargetIsDown(s, routerHash, op) ==> r == (s, Answer(None, Some(NetworkError(ConnectionIsClosed))))
  {
    if ValidKey(op.CompositeKey()) && !NoneAvailable(s) {
      RouteIsTarget(routerHash, op.path, op.key, |s.nodes|);
    }
  }

  /** Otherwise the operation is performed on its node, and no other node notices. */
  lemma TargetIsAsked(cfg: Config, s: State, routerHash: Bytes, op: Request, net: Net)
    requires s.Valid() && ValidKey(op.CompositeKey()) && !IsEmptyPut(op) && !NoneAvailable(s)
    requires !TargetIsDown(s, routerHash, op)
    ensures var (after, answer) := Perform(cfg, s, routerHash, op, net);
            var i := Target(routerHash, op.CompositeKey(), |s.nodes|);
            && (after.nodes[i], answer) == OnNode(cfg, i, s.nodes[i], op, net)
            && forall j :: 0 <= j < |s.nodes| && j != i ==> after.nodes[j] == s.nodes[j]
  {
    RouteIsTarget(routerHash, op.path, op.key, |s.nodes|);
  }

  /** Of the operations on all nodes only the key is looked at: where it is not valid, every index says so. */
  lemma InvalidKeyEverywhere(cfg: Config, s: State, op: Request, nets: seq<Net>, i: nat)
    requires s.Valid() && i < |s.nodes| == |nets| && !ValidKey(op.CompositeKey())
    ensures var (after, answers) := ClusterPerform(cfg, s, op, nets);
            after == s && |answers| == |s.nodes| && answers[i] == Answer(None, Some(InvalidKey))
  {
  }

  /** Of the arrays that rebalances publish meanwhile, each index is asked of the last. */
  lemma {:induction false} LoopAsksPublished(
    cfg: Config, s: State, op: Request, turns: seq<Turn>, i: nat, n: nat, k: nat)
    requires s.Valid() && ValidTurns(turns) && i <= k < n == |turns| && turns[k].published.Some?
    requires k - i < |OverNodes(cfg, s, op, turns, i, n).answers|
    ensures var p := turns[k].published.value;
            && k < |p.nodes|
            && OverNodes(cfg, s, op, turns, i, n).answers[k - i] ==
               (if p.connected[k] then OnNode(cfg, k, p.nodes[k], op, turns[k].net).1
                else Answer(None, Some(NetworkError(ConnectionIsClosed))))
    decreases n - i
  {
    if i < k {
      LoopAsksPublished(cfg, TurnAt(cfg, InForce(s, turns[i]), op, turns[i].net, i).0, op, turns, i + 1, n, k);
    }
  }

  // ----- when the job fails

  /** The response of the job that an operation sends. */
  function ResponseTo(cfg: Config, n: NodeState, op: Request, net: Net): Response
    requires n.Valid() && IsSent(cfg, op)
  {
    RunOnNode(cfg, n, Payload(cfg, op), ResponsesTo(op), net).1
  }

  /** A value that cannot be compressed is not sent. */
  lemma UnsentIsReported(cfg: Config, node: nat, n: NodeState, op: Request, net: Net)
    requires n.Valid() && !IsSent(cfg, op)
    ensures OnNode(cfg, node, n, op, net)
         == (n, Answer(Some(Outcome(TypeCompressionError, op.value, Some(node))), Some(CompressionFailed)))
  {
  }

  /**
    * The error of a job is the error of the operation, and no operation has a network error of its own; a delete
    * that fails has no result, the others have one that says so.
    */
  lemma JobErrorIsAnswered(cfg: Config, node: nat, n: NodeState, op: Request, net: Net)
    requires n.Valid() && IsSent(cfg, op)
    ensures var answer := OnNode(cfg, node, n, op, net).1;
            var r := ResponseTo(cfg, n, op, net);
            && (forall e :: answer.err == Some(NetworkError(e)) <==> r.err == Some(e))
            && (answer.err == None ==> r.err == None)
            && (r.err.Some? ==>
                  answer.result == if op.DeleteReq? then None else Some(Outcome(TypeError, [], Some(node))))
  {
  }

  /** The job that an operation sends, and the link of the worker that takes it. */
  function JobFor(cfg: Config, n: NodeState, op: Request, net: Net): Exchange
    requires n.Valid() && IsSent(cfg, op)
  {
    JobOn(n, Payload(cfg, op), ResponsesTo(op), net)
  }

  function LinkFor(n: NodeState, net: Net): Link
    requires n.Valid()
  {
    n.links[WorkerOf(n, net)]
  }

  /**
    * Each failure of the network reaches the caller under its own error, whatever the operation, the node and the
    * link are: a command that cannot be written, one that is written or waited for too long, a connection that is
    * lost over it, one that breaks, and one that ends without a byte.
    */
  lemma FailuresReachTheCaller(cfg: Config, node: nat, n: NodeState, op: Request, net: Net)
    requires n.Valid() && IsSent(cfg, op)
    ensures var err := OnNode(cfg, node, n, op, net).1.err;
            var (link, sc) := (LinkFor(n, net), net.script);
            var sends := Usable(link) && !sc.tripsBeforeSend;
            if Reads(link, sc) then
              var end := Reading(cfg.limit, link, JobFor(cfg, n, op, net), sc);
              && (err == Some(NetworkError(DeadlineExceeded)) <==> end.stop == TimedOut && sc.redialOnRead == Dialed)
              && (err == Some(NetworkError(ConnectionIsClosed)) <==> end.stop == TimedOut && sc.redialOnRead != Dialed)
              && (err == Some(NetworkError(Network)) <==> end.stop == Failed || end.stop == Refused)
              && (err == Some(NetworkError(NoResponse)) <==> end.stop == Ended && end.bytes == [])
              && (err == None ==> end.stop.Marked? || (end.stop == Ended && end.bytes != []))
            else
              err == Some(NetworkError(
                if sends && sc.write == Written then ConnectionRead
                else if sends && sc.write == WriteTimeout && sc.redialOnWrite == Dialed then DeadlineExceeded
                else ConnectionWrite))
  {
    JobErrorIsAnswered(cfg, node, n, op, net);
    var (link, sc) := (LinkFor(n, net), net.script);
    if Reads(link, sc) {
      ReadJobFails(cfg.limit, link, JobFor(cfg, n, op, net), sc);
    } else {
      UnreadJobFails(cfg.limit, link, JobFor(cfg, n, op, net), sc);
    }
  }
}
