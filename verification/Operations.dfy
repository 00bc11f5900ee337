/**
  * One operation on one node, from the bytes sent over the server that obeys them to the bytes it answers in
  * chunks and their reading.  Servers are maps that lose nothing by themselves.
  */
module Operations {
  import opened Bytes
  import opened Decimal
  import opened MarkerSearch
  import opened Protocol
  import opened Replies
  import opened Telnet
  import opened StaleReplies
  import opened Framing
  import opened Compression

  // ----- a server

  datatype Item = Item(flags: nat, exptime: int, data: Bytes)

  type Contents = map<Bytes, Item>

  datatype Served = Served(contents: Contents, reply: Bytes)

  function Values(contents: Contents, keys: seq<Bytes>): Bytes {
    if keys == [] then []
    else
      (if keys[0] in contents then
         ValueHeader(keys[0], Digits(contents[keys[0]].flags), |contents[keys[0]].data|)
         + (contents[keys[0]].data + CRLF)
       else [])
      + Values(contents, keys[1..])
  }

  /** What a server does with a command (sections "Storage commands", "Retrieval command", "Deletion"). */
  function Obey(contents: Contents, c: Command): Served {
    match c
    case Store(verb, key, flags, exptime, data, noreply) =>
      if verb == Add && key in contents then Served(contents, if noreply then [] else NOT_STORED_DB)
      else Served(contents[key := Item(flags, exptime, data)], if noreply then [] else STORED_DB)
    case Retrieve(keys) => Served(contents, Values(contents, keys) + END_DB)
    case Remove(key, noreply) =>
      if key in contents then Served(contents - {key}, if noreply then [] else DELETED_DB)
      else Served(contents, if noreply then [] else NOT_FOUND_DB)
  }

  /** A server reads the bytes; what is not one whole command is an error. */
  function Serve(contents: Contents, payload: Bytes): Served {
    match ParseOne(payload)
    case None => Served(contents, ERROR_DB)
    case Some((c, rest)) => if rest == [] then Obey(contents, c) else Served(contents, ERROR_DB)
  }

  // ----- one operation on one node

  /** NetworkError: an error of a job, or the same error from a node that is not connected. */
  datatype Failure =
    | InvalidKey | NoAvailableNodes | NetworkError(err: Err)
    | CompressionFailed | DecompressionFailed | BadReply(reading: Extracted)

  /** An OperationResult, or none, and an error, or none; `node` is None for the zero Node. */
  datatype Outcome = Outcome(resultType: ResultType, data: Bytes, node: Option<nat>)
  datatype Answer = Answer(result: Option<Outcome>, err: Option<Failure>)

  /** The read buffer size, and the codec: the identity when compression is off. */
  datatype Config = Config(limit: nat, codec: Codec)

  const PLAIN := Codec((data: Bytes) => Some(data), (text: Bytes) => Some(text))

  /** A node: what its server holds, and the links of its workers. */
  datatype NodeState = NodeState(contents: Contents, links: seq<Link>) {
    predicate Valid() {
      links != []
    }
  }

  /**
    * What an operation meets: the number of its job, the worker that takes it, the script of the network,
    * whether the server receives the command (one whose write succeeded can be lost with its peer, and one whose
    * write failed can have got through), and the bytes behind the reply in its buffer.
    */
  datatype Net = Net(job: nat, worker: nat, script: Script, arrives: bool, spare: Bytes)

  function WorkerOf(n: NodeState, net: Net): (w: nat)
    requires n.Valid()
    ensures w < |n.links|
  {
    net.worker % |n.links|
  }

  /** The server receives the command; it cannot where nothing is written to a connection that is up. */
  predicate Receives(link: Link, net: Net) {
    && net.arrives && !link.onFailure && !net.script.tripsBeforeSend && !net.script.write.WriteDeadlineRefused?
    && link.connection.Some? && link.connection.value.alive
  }

  /** The job that becomes of a command: no reply is on its way to one that was not received. */
  function JobOn(n: NodeState, payload: Bytes, rs: ResponseSet, net: Net): Exchange
    requires n.Valid()
  {
    Exchange(net.job, rs, if Receives(n.links[WorkerOf(n, net)], net) then Serve(n.contents, payload).reply else [])
  }

  /** A job on a node, from the node it finds to the node it leaves. */
  function RunOnNode(cfg: Config, n: NodeState, payload: Bytes, rs: ResponseSet, net: Net): (r: (NodeState, Response))
    requires n.Valid() && rs.Valid()
    ensures r.0.Valid()
  {
    var w := WorkerOf(n, net);
    var (link, response) := RunJob(cfg.limit, n.links[w], JobOn(n, payload, rs, net), net.script);
    var contents := if Receives(n.links[w], net) then Serve(n.contents, payload).contents else n.contents;
    (NodeState(contents, n.links[w := link]), response)
  }

  function StoreAnswer(node: nat, r: Response): Answer {
    if r.err.Some? then Answer(Some(Outcome(TypeError, [], Some(node))), Some(NetworkError(r.err.value)))
    else Answer(Some(Outcome(r.resultType, [], Some(node))), None)
  }

  function BaseStore(cfg: Config, node: nat, n: NodeState, verb: Verb, key: Bytes, value: Bytes, ttl: nat, net: Net)
    : (r: (NodeState, Answer))
    requires n.Valid()
    ensures r.0.Valid()
  {
    match cfg.codec.compress(value)
    case None => (n, Answer(Some(Outcome(TypeCompressionError, value, Some(node))), Some(CompressionFailed)))
    case Some(tvalue) =>
      var (after, r) := RunOnNode(cfg, n, StoreCmd(verb, key, tvalue, ttl), STORED_SET, net);
      (after, StoreAnswer(node, r))
  }

  function ValueAnswer(cfg: Config, node: nat, reading: Extracted): Answer {
    match reading
    case Missing => Answer(Some(Outcome(TypeNotFound, [], Some(node))), None)
    case Found(text) =>
      if text == [] then Answer(Some(Outcome(TypeNotFound, [], Some(node))), None)
      else (match cfg.codec.decompress(text)
            case None => Answer(Some(Outcome(TypeDecompressionError, text, Some(node))), Some(DecompressionFailed))
            case Some(data) => Answer(Some(Outcome(TypeFound, data, Some(node))), None))
    case _ => Answer(Some(Outcome(TypeError, [], Some(node))), Some(BadReply(reading)))
  }

  function GetAnswer(cfg: Config, node: nat, r: Response, spare: Bytes): Answer {
    if r.err.Some? then Answer(Some(Outcome(TypeError, [], Some(node))), Some(NetworkError(r.err.value)))
    else if r.resultType != TypeFound then Answer(Some(Outcome(r.resultType, [], Some(node))), None)
    else ValueAnswer(cfg, node, Extract(Raw(r.data), spare))
  }

  function BaseGet(cfg: Config, node: nat, n: NodeState, key: Bytes, net: Net): (r: (NodeState, Answer))
    requires n.Valid()
    ensures r.0.Valid()
  {
    var (after, r) := RunOnNode(cfg, n, KeyOnlyCmd(GET, key), GET_SET, net);
    (after, GetAnswer(cfg, node, r, net.spare))
  }

  function DeleteAnswer(node: nat, r: Response): Answer {
    if r.err.Some? then Answer(None, Some(NetworkError(r.err.value)))
    else Answer(Some(Outcome(r.resultType, [], Some(node))), None)
  }

  function BaseDelete(cfg: Config, node: nat, n: NodeState, key: Bytes, net: Net): (r: (NodeState, Answer))
    requires n.Valid()
    ensures r.0.Valid()
  {
    var (after, r) := RunOnNode(cfg, n, KeyOnlyCmd(DELETE, key), DELETED_SET, net);
    (after, DeleteAnswer(node, r))
  }

  // ----- what an answer says about the server

  /**
    * What a caller of addJobAndWait can rely on, whatever the network does.  The server has obeyed the command
    * once or not at all, and an error leaves that open; only the link of the worker that took the job changes.
    * If that link was clean and there is no error, the server has obeyed, and the bytes answered begin its reply.
    */
  lemma AnsweredIsObeyed(cfg: Config, n: NodeState, payload: Bytes, rs: ResponseSet, net: Net)
    requires n.Valid() && rs.Valid()
    ensures var (after, r) := RunOnNode(cfg, n, payload, rs, net);
            var served := Serve(n.contents, payload);
            var w := WorkerOf(n, net);
            && (after.contents == n.contents || after.contents == served.contents)
            && |after.links| == |n.links|
            && (forall v :: 0 <= v < |n.links| && v != w ==> after.links[v] == n.links[v])
            && (r.err.None? && Clean(n.links[w]) ==>
                  Receives(n.links[w], net) && after.contents == served.contents
                  && r.data != [] && Raw(r.data) <= served.reply)
  {
    var w := WorkerOf(n, net);
    var ex := JobOn(n, payload, rs, net);
    if Clean(n.links[w]) {
      AnswerIsOwn(cfg.limit, n.links[w], ex, net.script);
      var data := RunOnNode(cfg, n, payload, rs, net).1.data;
      assert data <= Tag(net.job, ex.reply) ==> Raw(data) == ex.reply[..|data|];
    }
  }

  /** The job is answered without an error although the server did not receive the command. */
  ghost predicate AnswersUnreceived(cfg: Config, n: NodeState, payload: Bytes, rs: ResponseSet, net: Net)
    requires n.Valid() && rs.Valid()
  {
    RunOnNode(cfg, n, payload, rs, net).1.err.None? && !Receives(n.links[WorkerOf(n, net)], net)
  }

  lemma UnreceivedAnswer(cfg: Config, n: NodeState, payload: Bytes, rs: ResponseSet, net: Net, ex: Exchange)
    requires n.Valid() && rs.Valid() && !net.arrives && ex == Exchange(net.job, rs, [])
    requires RunJob(cfg.limit, n.links[WorkerOf(n, net)], ex, net.script).1.err.None?
    ensures AnswersUnreceived(cfg, n, payload, rs, net)
  {
  }

  lemma LeftOverScript(limit: nat, link: Link, ex: Exchange) returns (sc: Script)
    requires 0 < limit && ex.responses.Valid() && !Clean(link)
    ensures RunJob(limit, link, ex, sc).1.err.None?
  {
    sc := Calm([Chunk(1), EndOfFile]);
    LeftOverIsRead(limit, link, Exchange(link.connection.value.pending[0].job, ex.responses, []), ex);
  }

  /** The command is lost with its peer, and a byte of an earlier job is the answer. */
  lemma LeftOverAnswers(cfg: Config, n: NodeState, payload: Bytes, rs: ResponseSet, w: nat) returns (net: Net)
    requires 0 < cfg.limit && n.Valid() && rs.Valid() && w < |n.links| && !Clean(n.links[w])
    ensures WorkerOf(n, net) == w && AnswersUnreceived(cfg, n, payload, rs, net)
  {
    var ex := Exchange(0, rs, []);
    var sc := LeftOverScript(cfg.limit, n.links[w], ex);
    net := Net(0, w, sc, false, []);
    UnreceivedAnswer(cfg, n, payload, rs, net, ex);
  }

  /**
    * For the worker `w`, an answer without error means that the server received the command, whatever the
    * network does, exactly when the worker's link is clean: otherwise the peer can be gone unnoticed, the write
    * succeed, and an earlier job's bytes be the answer.
    */
  lemma AnswerMeansReceivedExactlyWhen(cfg: Config, n: NodeState, payload: Bytes, rs: ResponseSet, w: nat)
    requires 0 < cfg.limit && n.Valid() && rs.Valid() && w < |n.links|
    ensures (forall net :: WorkerOf(n, net) == w ==> !AnswersUnreceived(cfg, n, payload, rs, net))
            <==> Clean(n.links[w])
  {
    if Clean(n.links[w]) {
      forall net | WorkerOf(n, net) == w ensures !AnswersUnreceived(cfg, n, payload, rs, net) {
        AnsweredIsObeyed(cfg, n, payload, rs, net);
      }
    } else {
      var net := LeftOverAnswers(cfg, n, payload, rs, w);
    }
  }

  /** Two runs of the same job on the same node: one answer, an error, and a server that obeyed in one run only. */
  ghost predicate Undecided(cfg: Config, n: NodeState, payload: Bytes, rs: ResponseSet, obeyed: Net, ignored: Net)
    requires n.Valid() && rs.Valid()
  {
    var (after, r) := RunOnNode(cfg, n, payload, rs, obeyed);
    var (after', r') := RunOnNode(cfg, n, payload, rs, ignored);
    r.err.Some? && r == r' && after.contents == Serve(n.contents, payload).contents && after'.contents == n.contents
  }

  /** From an error nobody can tell whether the command was obeyed: it can be either, on any healthy node. */
  lemma ErrorsAreUndecided(cfg: Config, n: NodeState, payload: Bytes, rs: ResponseSet)
    requires n.Valid() && rs.Valid() && forall w :: 0 <= w < |n.links| ==> n.links[w] == HEALTHY
    ensures exists obeyed, ignored :: Undecided(cfg, n, payload, rs, obeyed, ignored)
  {
    var sc := Script(false, WriteTimeout, Dialed, false, [], Dialed);
    assert Undecided(cfg, n, payload, rs, Net(0, 0, sc, true, []), Net(0, 0, sc, false, []));
  }

  // ----- what the servers make of the bytes of a request

  lemma StoreIsObeyed(contents: Contents, verb: Verb, key: Bytes, value: Bytes, ttl: nat)
    requires ValidKey(key)
    ensures Serve(contents, StoreCmd(verb, key, value, ttl))
         == (if verb == Add && key in contents then Served(contents, NOT_STORED_DB)
             else Served(contents[key := Item(0, ttl, value)], STORED_DB))
  {
    ParseStoreCmd(verb, key, value, ttl, []);
    assert StoreCmd(verb, key, value, ttl) + [] == StoreCmd(verb, key, value, ttl);
  }

  function GetReply(contents: Contents, key: Bytes): Bytes {
    if key in contents then ValueReply(key, Digits(contents[key].flags), contents[key].data) else END_DB
  }

  lemma OneValue(contents: Contents, key: Bytes)
    ensures Values(contents, [key]) + END_DB == GetReply(contents, key)
  {
    assert Values(contents, [key][1..]) == [];
  }

  lemma GetIsObeyed(contents: Contents, key: Bytes)
    requires ValidKey(key)
    ensures Serve(contents, KeyOnlyCmd(GET, key)) == Served(contents, GetReply(contents, key))
  {
    ParseKeyOnlyCmd(GET, key, []);
    assert KeyOnlyCmd(GET, key) + [] == KeyOnlyCmd(GET, key);
    OneValue(contents, key);
  }

  lemma DeleteIsObeyed(contents: Contents, key: Bytes)
    requires ValidKey(key)
    ensures Serve(contents, KeyOnlyCmd(DELETE, key))
         == (if key in contents then Served(contents - {key}, DELETED_DB) else Served(contents, NOT_FOUND_DB))
  {
    ParseKeyOnlyCmd(DELETE, key, []);
    assert KeyOnlyCmd(DELETE, key) + [] == KeyOnlyCmd(DELETE, key);
  }

  // ----- how the replies are classified when they come in one piece

  lemma StoreRepliesClassify()
    ensures FirstMarker(NOT_STORED_DB, STORED_SET.markers) == 0
    ensures FirstMarker(STORED_DB, STORED_SET.markers) == 1
  {
    FindsEnding(NOT_STORED_DB, NOT_STORED_DB);
    FindsEnding(STORED_DB, STORED_DB);
    if Search(STORED_DB, NOT_STORED_DB) != -1 {
      SearchSound(STORED_DB, NOT_STORED_DB);
    }
  }

  lemma DeleteRepliesClassify()
    ensures FirstMarker(DELETED_DB, DELETED_SET.markers) == 0
    ensures FirstMarker(NOT_FOUND_DB, DELETED_SET.markers) == 1
  {
    FindsEnding(DELETED_DB, DELETED_DB);
    FindsEnding(NOT_FOUND_DB, NOT_FOUND_DB);
    LineIsSuffixOnly(NOT_FOUND_DB, DELETED_SET.markers);
    FoundIsEnding(NOT_FOUND_DB, DELETED_SET, 0);
    assert DELETED_DB[0] != NOT_FOUND_DB[2];
  }

  lemma GetRepliesClassify(contents: Contents, key: Bytes)
    ensures FirstMarker(GetReply(contents, key), GET_SET.markers) == 0
  {
    var reply := GetReply(contents, key);
    if key in contents {
      var item := contents[key];
      var before := ValueHeader(key, Digits(item.flags), |item.data|) + (item.data + CRLF);
      assert reply == before + END_DB;
    }
    assert EndsWith(reply, END_DB);
    FindsEnding(reply, END_DB);
  }

  // ----- an operation on one node, end to end

  /** The worker that takes the job has a healthy link. */
  predicate Ready(n: NodeState, net: Net)
    requires n.Valid()
  {
    n.links[WorkerOf(n, net)] == HEALTHY
  }

  predicate FramedBy(cfg: Config, rs: ResponseSet, reply: Bytes, net: Net, sizes: seq<nat>) {
    net.arrives && net.script == Calm(Chunks(sizes)) && Framed(cfg.limit, rs, reply, sizes)
  }

  /** Nothing fails, the command is received, and the reply comes in chunks that frame it. */
  ghost predicate Smooth(cfg: Config, rs: ResponseSet, reply: Bytes, net: Net) {
    exists sizes :: FramedBy(cfg, rs, reply, net, sizes)
  }

  /** Then the command is obeyed, the answer is the whole reply with its meaning, and the link stays healthy. */
  lemma SmoothJob(cfg: Config, n: NodeState, payload: Bytes, rs: ResponseSet, net: Net)
    requires n.Valid() && rs.Valid() && Ready(n, net)
    requires Smooth(cfg, rs, Serve(n.contents, payload).reply, net)
    ensures var served := Serve(n.contents, payload);
            && RunOnNode(cfg, n, payload, rs, net) ==
               (n.(contents := served.contents),
                Response(rs.types[FirstMarker(served.reply, rs.markers)], Tag(net.job, served.reply), None))
            && Raw(Tag(net.job, served.reply)) == served.reply
  {
    var reply := Serve(n.contents, payload).reply;
    var sizes :| FramedBy(cfg, rs, reply, net, sizes);
    var w := WorkerOf(n, net);
    assert n.links[w := HEALTHY] == n.links;
    assert Receives(n.links[w], net);
    FramedJob(cfg.limit, Exchange(net.job, rs, reply), sizes);
    assert RunJob(cfg.limit, n.links[w], Exchange(net.job, rs, reply), net.script).0 == HEALTHY;
  }

  lemma StoreJob(cfg: Config, n: NodeState, verb: Verb, key: Bytes, tvalue: Bytes, ttl: nat, net: Net)
    requires n.Valid() && Ready(n, net) && ValidKey(key)
    requires Smooth(cfg, STORED_SET, if verb == Add && key in n.contents then NOT_STORED_DB else STORED_DB, net)
    ensures var refused := verb == Add && key in n.contents;
            var reply := if refused then NOT_STORED_DB else STORED_DB;
            RunOnNode(cfg, n, StoreCmd(verb, key, tvalue, ttl), STORED_SET, net) ==
            (if refused then n else n.(contents := n.contents[key := Item(0, ttl, tvalue)]),
             Response(STORED_SET.types[FirstMarker(reply, STORED_SET.markers)], Tag(net.job, reply), None))
  {
    StoreIsObeyed(n.contents, verb, key, tvalue, ttl);
    SmoothJob(cfg, n, StoreCmd(verb, key, tvalue, ttl), STORED_SET, net);
  }

  lemma StoreEndToEnd(cfg: Config, node: nat, n: NodeState, verb: Verb, key: Bytes, value: Bytes, ttl: nat, net: Net)
    requires n.Valid() && Ready(n, net) && ValidKey(key) && cfg.codec.compress(value).Some?
    requires Smooth(cfg, STORED_SET, if verb == Add && key in n.contents then NOT_STORED_DB else STORED_DB, net)
    ensures var refused := verb == Add && key in n.contents;
            BaseStore(cfg, node, n, verb, key, value, ttl, net) ==
            (if refused then n else n.(contents := n.contents[key := Item(0, ttl, cfg.codec.compress(value).value)]),
             Answer(Some(Outcome(if refused then TypeNotStored else TypeStored, [], Some(node))), None))
  {
    var tvalue := cfg.codec.compress(value).value;
    StoreJob(cfg, n, verb, key, tvalue, ttl, net);
    StoreRepliesClassify();
  }

  lemma DeleteJob(cfg: Config, n: NodeState, key: Bytes, net: Net)
    requires n.Valid() && Ready(n, net) && ValidKey(key)
    requires Smooth(cfg, DELETED_SET, if key in n.contents then DELETED_DB else NOT_FOUND_DB, net)
    ensures var reply := if key in n.contents then DELETED_DB else NOT_FOUND_DB;
            RunOnNode(cfg, n, KeyOnlyCmd(DELETE, key), DELETED_SET, net) ==
            (if key in n.contents then n.(contents := n.contents - {key}) else n,
             Response(DELETED_SET.types[FirstMarker(reply, DELETED_SET.markers)], Tag(net.job, reply), None))
  {
    DeleteIsObeyed(n.contents, key);
    SmoothJob(cfg, n, KeyOnlyCmd(DELETE, key), DELETED_SET, net);
  }

  lemma DeleteEndToEnd(cfg: Config, node: nat, n: NodeState, key: Bytes, net: Net)
    requires n.Valid() && Ready(n, net) && ValidKey(key)
    requires Smooth(cfg, DELETED_SET, if key in n.contents then DELETED_DB else NOT_FOUND_DB, net)
    ensures BaseDelete(cfg, node, n, key, net)
         == (n.(contents := n.contents - {key}),
             Answer(Some(Outcome(if key in n.contents then TypeDeleted else TypeNotFound, [], Some(node))), None))
  {
    DeleteJob(cfg, n, key, net);
    DeleteRepliesClassify();
    assert key !in n.contents ==> n.contents - {key} == n.contents;
  }

  /** What the reader of a get reply is told. */
  function ReadItem(contents: Contents, key: Bytes): Extracted {
    if key in contents then Found(contents[key].data) else Missing
  }

  lemma GetReplyIsRead(contents: Contents, key: Bytes, spare: Bytes)
    requires ValidKey(key) && (key in contents ==> |contents[key].data| <= MAX_INT)
    ensures Extract(GetReply(contents, key), spare) == ReadItem(contents, key)
  {
    if key in contents {
      ExtractInvertsPrinting(key, Digits(contents[key].flags), contents[key].data, spare);
    } else {
      assert END_DB == END + CRLF;
      ExtractMiss(CRLF, spare);
    }
  }

  lemma GetEndToEnd(cfg: Config, node: nat, n: NodeState, key: Bytes, net: Net)
    requires n.Valid() && Ready(n, net)
    requires ValidKey(key) && (key in n.contents ==> |n.contents[key].data| <= MAX_INT)
    requires Smooth(cfg, GET_SET, GetReply(n.contents, key), net)
    ensures BaseGet(cfg, node, n, key, net) == (n, ValueAnswer(cfg, node, ReadItem(n.contents, key)))
  {
    GetIsObeyed(n.contents, key);
    SmoothJob(cfg, n, KeyOnlyCmd(GET, key), GET_SET, net);
    GetRepliesClassify(n.contents, key);
    GetReplyIsRead(n.contents, key, net.spare);
  }
}
