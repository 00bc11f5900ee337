/**
  * What an answer without error is worth, whatever the network did: a delete and a set never report the wrong
  * thing, an add can, and a get can, exactly when the network cuts its reply inside the data and the buffer has
  * something else in the place of what is missing.
  */
module AnyNetwork {
  import opened Bytes
  import opened Decimal
  import opened MarkerSearch
  import opened Protocol
  import opened Replies
  import opened Telnet
  import opened StaleReplies
  import opened Framing
  import opened Operations
  import opened Cluster

  /** Where the loop stops on a marker, it has gathered that marker. */
  lemma {:induction false} LoopHoldsMarker(
    limit: nat, stream: Stream, markers: seq<Bytes>, gathered: seq<Tagged>, events: seq<ReadEvent>)
    ensures var end := Loop(limit, stream, markers, gathered, events);
            end.stop.Marked? ==> end.stop.index < |markers| && Occurs(Raw(end.bytes), markers[end.stop.index])
    decreases |events|
  {
    if events != [] && events[0].Chunk? {
      var n := Min(Min(events[0].size, limit), |stream.pending|);
      if 0 < n {
        LoopTurn(limit, stream, markers, gathered, events, n);
        var chunk, rest := stream.pending[..n], stream.pending[n..];
        var i := FirstMarker(Raw(chunk), markers);
        if i < |markers| {
          SearchSound(Raw(chunk), markers[i]);
          assert OccursAt(Raw(gathered + chunk), markers[i], |gathered| + Search(Raw(chunk), markers[i]));
        } else {
          LoopHoldsMarker(limit, stream.(pending := rest), markers, gathered + chunk, events[1..]);
        }
      }
    }
  }

  ghost predicate HoldsType(bytes: Bytes, rs: ResponseSet, t: ResultType) {
    exists i :: 0 <= i < |rs.markers| && i < |rs.types| && rs.types[i] == t && Occurs(bytes, rs.markers[i])
  }

  /**
    * From a clean link and under any script, an answer without error is a first part of the job's reply; it
    * holds the marker that gave it its type, or has no type because the stream ended.
    */
  lemma AnswerHoldsMarker(limit: nat, link: Link, ex: Exchange, sc: Script)
    requires ex.responses.Valid() && Clean(link)
    requires RunJob(limit, link, ex, sc).1.err.None?
    ensures var r := RunJob(limit, link, ex, sc).1;
            && r.data != [] && Raw(r.data) <= ex.reply
            && (r.resultType == TypeNone || HoldsType(Raw(r.data), ex.responses, r.resultType))
  {
    var sent := AfterSend(Tripped(link, sc.tripsBeforeSend), ex.id, ex.reply, sc.write, sc.redialOnWrite).0;
    AnswerIsOwn(limit, link, ex, sc);
    LoopHoldsMarker(limit, sent.connection.value, ex.responses.markers, [], sc.events);
    var r := RunJob(limit, link, ex, sc).1;
    assert Raw(r.data) == ex.reply[..|r.data|];
  }

  lemma OccursInWhole(part: Bytes, whole: Bytes, m: Bytes)
    requires part <= whole && Occurs(part, m)
    ensures Occurs(whole, m)
  {
    var k :| OccursAt(part, m, k);
    assert OccursAt(whole, m, k);
  }

  // ----- get

  /** A first part of a get reply that holds the marker has the whole header. */
  lemma PartHasHeader(part: Bytes, key: Bytes, flags: Bytes, data: Bytes)
    requires Lacks(key, LF) && AllDigits(flags)
    requires part <= ValueReply(key, flags, data) && Occurs(part, END_DB)
    ensures var n := |part| - |ValueHeader(key, flags, |data|)|;
            && 0 <= n <= |data + CRLF + END_DB|
            && part == ValueHeader(key, flags, |data|) + (data + CRLF + END_DB)[..n]
  {
    var h := ValueHeader(key, flags, |data|);
    var body := data + CRLF + END_DB;
    var k :| OccursAt(part, END_DB, k);
    assert OccursAt(h + body, END_DB, k);
    EndStandsBehindHeader(key, flags, |data|, body, k);
  }

  /** END CR LF stands in the data, with more of the data behind it. */
  ghost predicate EndsInside(data: Bytes) {
    exists k :: OccursAt(data, END_DB, k) && k + |END_DB| < |data|
  }

  ghost predicate HoldsEndInside(contents: Contents, key: Bytes) {
    key in contents && EndsInside(contents[key].data)
  }

  /** The reply is cut behind the first `n` bytes of its data, which are not all. */
  ghost predicate CutAt(part: Bytes, contents: Contents, key: Bytes, n: nat) {
    && key in contents && n < |contents[key].data|
    && part == ValueHeader(key, Digits(contents[key].flags), |contents[key].data|) + contents[key].data[..n]
  }

  /** A cut reply is read with bytes of the buffer behind the reply in the place of what is missing. */
  function ReadCut(data: Bytes, n: nat, spare: Bytes): Extracted
    requires n < |data|
  {
    if |data| - n <= |spare| then Found(data[..n] + spare[..|data| - n]) else OutOfBounds
  }

  lemma CutIsRead(part: Bytes, spare: Bytes, contents: Contents, key: Bytes, n: nat)
    requires ValidKey(key) && CutAt(part, contents, key, n) && |contents[key].data| <= MAX_INT
    ensures Extract(part, spare) == ReadCut(contents[key].data, n, spare)
  {
    CutReplyTakesSpareBytes(key, Digits(contents[key].flags), contents[key].data, n, spare);
  }

  /** A cut data block that holds the marker: so does the data, before its end. */
  lemma CutHoldsEnd(part: Bytes, key: Bytes, flags: Bytes, data: Bytes, n: nat) returns (k: nat)
    requires Lacks(key, LF) && AllDigits(flags) && n < |data|
    requires part == ValueHeader(key, flags, |data|) + data[..n] && Occurs(part, END_DB)
    ensures k + |END_DB| <= n && OccursAt(data, END_DB, k)
  {
    var h := ValueHeader(key, flags, |data|);
    var at :| OccursAt(part, END_DB, at);
    EndStandsBehindHeader(key, flags, |data|, data[..n], at);
    assert forall i :: 0 <= i < n ==> part[|h| + i] == data[i];
    k := at - |h|;
  }

  /** A part that has the whole data is read as the data. */
  lemma WholeDataIsRead(key: Bytes, flags: Bytes, data: Bytes, n: nat, spare: Bytes)
    requires Lacks(key, SPACE) && AllDigits(flags) && |data| <= MAX_INT && |data| <= n <= |data + CRLF + END_DB|
    ensures Extract(ValueHeader(key, flags, |data|) + (data + CRLF + END_DB)[..n], spare) == Found(data)
  {
    var body := data + CRLF + END_DB;
    assert body[..n] == data + body[|data|..n];
    ExtractReadsBlock(key, flags, |data|, body[..n], spare);
    AnnouncedWhole(data, body[|data|..n], spare);
  }

  lemma CutOfBody(data: Bytes, n: nat)
    requires n <= |data|
    ensures (data + CRLF + END_DB)[..n] == data[..n]
  {
  }

  /** A first part of a hit that holds the marker has the whole data, or is cut inside data that holds it too. */
  lemma HitPart(part: Bytes, key: Bytes, flags: Bytes, data: Bytes) returns (n: nat)
    requires Lacks(key, LF) && AllDigits(flags)
    requires part <= ValueReply(key, flags, data) && Occurs(part, END_DB)
    ensures n <= |data + CRLF + END_DB|
    ensures part == ValueHeader(key, flags, |data|) + (data + CRLF + END_DB)[..n]
    ensures n < |data| ==> EndsInside(data) && part == ValueHeader(key, flags, |data|) + data[..n]
  {
    PartHasHeader(part, key, flags, data);
    n := |part| - |ValueHeader(key, flags, |data|)|;
    if n < |data| {
      CutOfBody(data, n);
      var k := CutHoldsEnd(part, key, flags, data, n);
    }
  }

  lemma MissPartIsRead(part: Bytes, spare: Bytes)
    requires part <= END_DB && Occurs(part, END_DB)
    ensures Extract(part, spare) == Missing
  {
    var k :| OccursAt(part, END_DB, k);
    assert part == END_DB == END + CRLF;
    ExtractMiss(CRLF, spare);
  }

  /** So such a part is read as what is stored, unless it is cut inside data that holds the marker itself. */
  lemma PartIsReadRight(part: Bytes, spare: Bytes, contents: Contents, key: Bytes)
    requires ValidKey(key) && (key in contents ==> |contents[key].data| <= MAX_INT)
    requires part <= GetReply(contents, key) && Occurs(part, END_DB)
    ensures Extract(part, spare) == ReadItem(contents, key)
            || (HoldsEndInside(contents, key) && exists n :: CutAt(part, contents, key, n))
  {
    if key in contents {
      var flags, data := Digits(contents[key].flags), contents[key].data;
      var n := HitPart(part, key, flags, data);
      if n < |data| {
        assert CutAt(part, contents, key, n);
      } else {
        WholeDataIsRead(key, flags, data, n, spare);
      }
    } else {
      MissPartIsRead(part, spare);
    }
  }

  /**
    * A get of anything but data with END CR LF inside is never wrong.  From a clean link, and whatever the
    * network does, an answer is the one that the stored item calls for, or has no type because the stream
    * ended, unless it has an error, and that is the job's own; no reply is unreadable.
    */
  lemma GetIsNeverWrong(
    cfg: Config, node: nat, link: Link, id: nat, contents: Contents, op: Request, sc: Script, spare: Bytes)
    requires Clean(link) && op.GetReq? && ValidKey(op.CompositeKey())
    requires op.CompositeKey() in contents ==> |contents[op.CompositeKey()].data| <= MAX_INT
    requires !HoldsEndInside(contents, op.CompositeKey())
    ensures var r := RunJob(cfg.limit, link, JobOf(id, contents, op), sc).1;
            var a := GetAnswer(cfg, node, r, spare);
            && (a.err.None? || r.err.None? ==>
                  a == ValueAnswer(cfg, node, ReadItem(contents, op.CompositeKey()))
                  || a == Answer(Some(Outcome(TypeNone, [], Some(node))), None))
            && (r.err.Some? ==> a.err == Some(NetworkError(r.err.value)))
  {
    var ex := JobOf(id, contents, op);
    var r := RunJob(cfg.limit, link, ex, sc).1;
    ReplyIsServed(contents, op);
    if r.err.None? {
      AnswerHoldsMarker(cfg.limit, link, ex, sc);
      if r.resultType == TypeFound {
        PartIsReadRight(Raw(r.data), spare, contents, op.CompositeKey());
      }
    }
  }

  /** A part of the reply that holds the marker is read as a miss exactly when there is nothing, or no data. */
  lemma PartIsMissExactlyWhen(cfg: Config, node: nat, part: Bytes, spare: Bytes, contents: Contents, key: Bytes)
    requires ValidKey(key) && (key in contents ==> |contents[key].data| <= MAX_INT)
    requires part <= GetReply(contents, key) && Occurs(part, END_DB)
    ensures ValueAnswer(cfg, node, Extract(part, spare)) == Answer(Some(Outcome(TypeNotFound, [], Some(node))), None)
       <==> key !in contents || contents[key].data == []
  {
    PartIsReadRight(part, spare, contents, key);
    if Extract(part, spare) != ReadItem(contents, key) {
      var n: nat :| CutAt(part, contents, key, n);
      CutIsRead(part, spare, contents, key, n);
    }
  }

  /**
    * A miss is a miss.  From a clean link, whatever the network and the spare bytes do, and whatever data there
    * is, a get that is answered without error and with a type is answered NotFound exactly when the server holds
    * nothing under the key, or no data.  In particular no failure of the network is reported as a miss.
    */
  lemma MissExactlyWhenAbsent(cfg: Config, node: nat, n: NodeState, op: Request, net: Net)
    requires n.Valid() && Clean(n.links[WorkerOf(n, net)]) && op.GetReq? && ValidKey(op.CompositeKey())
    requires op.CompositeKey() in n.contents ==> |n.contents[op.CompositeKey()].data| <= MAX_INT
    ensures var (after, a) := BaseGet(cfg, node, n, op.CompositeKey(), net);
            a.err.None? ==>
              && after.contents == n.contents && a.result.Some?
              && (a.result.value.resultType != TypeNone ==>
                    (a.result.value.resultType == TypeNotFound <==>
                      op.CompositeKey() !in n.contents || n.contents[op.CompositeKey()].data == []))
  {
    var key := op.CompositeKey();
    var link, ex := n.links[WorkerOf(n, net)], JobOn(n, KeyOnlyCmd(GET, key), GET_SET, net);
    var r := RunJob(cfg.limit, link, ex, net.script).1;
    GetIsObeyed(n.contents, key);
    if r.err.None? {
      AnswerHoldsMarker(cfg.limit, link, ex, net.script);
      if r.resultType == TypeFound {
        PartIsMissExactlyWhen(cfg, node, Raw(r.data), net.spare, n.contents, key);
      }
    }
  }

  /** The answers that tell the truth about a key: nothing found, the value, or a value that cannot be had. */
  ghost predicate Truthful(cfg: Config, node: nat, contents: Contents, key: Bytes, a: Answer) {
    if key !in contents || contents[key].data == [] then a == Answer(Some(Outcome(TypeNotFound, [], Some(node))), None)
    else
      var data := contents[key].data;
      match cfg.codec.decompress(data)
      case None => a == Answer(Some(Outcome(TypeDecompressionError, data, Some(node))), Some(DecompressionFailed))
      case Some(value) => a == Answer(Some(Outcome(TypeFound, value, Some(node))), None)
  }

  lemma StoredIsTruthful(cfg: Config, node: nat, contents: Contents, key: Bytes)
    ensures Truthful(cfg, node, contents, key, ValueAnswer(cfg, node, ReadItem(contents, key)))
  {
  }

  /** A reply that cannot be read is an error, never a miss. */
  lemma UnreadableIsReported(cfg: Config, node: nat, reading: Extracted)
    requires reading.Wrong?
    ensures ValueAnswer(cfg, node, reading) == Answer(Some(Outcome(TypeError, [], Some(node))), Some(BadReply(reading)))
  {
  }

  /**
    * From a clean link, a get of data without END CR LF inside tells the truth about its key, or the network is
    * to blame: with its error, or with no type because the stream ended.
    */
  lemma GetIsTruthful(cfg: Config, node: nat, n: NodeState, op: Request, net: Net)
    requires n.Valid() && Clean(n.links[WorkerOf(n, net)]) && op.GetReq? && ValidKey(op.CompositeKey())
    requires op.CompositeKey() in n.contents ==> |n.contents[op.CompositeKey()].data| <= MAX_INT
    requires !HoldsEndInside(n.contents, op.CompositeKey())
    ensures var a := BaseGet(cfg, node, n, op.CompositeKey(), net).1;
            || Truthful(cfg, node, n.contents, op.CompositeKey(), a)
            || a == Answer(Some(Outcome(TypeNone, [], Some(node))), None)
            || (a.result == Some(Outcome(TypeError, [], Some(node))) && a.err.Some? && a.err.value.NetworkError?)
  {
    var key := op.CompositeKey();
    var link, ex := n.links[WorkerOf(n, net)], JobOn(n, KeyOnlyCmd(GET, key), GET_SET, net);
    var r := RunJob(cfg.limit, link, ex, net.script).1;
    GetIsObeyed(n.contents, key);
    StoredIsTruthful(cfg, node, n.contents, key);
    if r.err.None? {
      AnswerHoldsMarker(cfg.limit, link, ex, net.script);
      if r.resultType == TypeFound {
        PartIsReadRight(Raw(r.data), net.spare, n.contents, key);
      }
    }
  }

  // ----- what the network decides: where a reply is cut

  /** The job answers, without an error and as found, the reply cut behind the first `n` bytes of its data. */
  ghost predicate CutsGet(limit: nat, id: nat, contents: Contents, op: Request, sc: Script, n: nat) {
    var r := RunJob(limit, HEALTHY, JobOf(id, contents, op), sc).1;
    r.err.None? && r.resultType == TypeFound && CutAt(Raw(r.data), contents, op.CompositeKey(), n)
  }

  /** Some cutting makes the job answer the reply up to the marker that stands in its data. */
  lemma JobCanStopBehind(limit: nat, ex: Exchange, k: nat) returns (sc: Script)
    requires |END_DB| <= limit && ex.responses == GET_SET && OccursAt(ex.reply, END_DB, k)
    ensures var r := RunJob(limit, HEALTHY, ex, sc).1;
            r.err.None? && r.resultType == TypeFound && Raw(r.data) == ex.reply[..k + |END_DB|]
  {
    var pending := Tag(ex.id, ex.reply);
    var stream := Stream(true, pending);
    var events := BytesThen(k, [Chunk(|END_DB|)]);
    assert Raw(pending) == ex.reply;
    LoopCanStopBehind(limit, stream, GET_SET, 0, k);
    LoopGathers(limit, stream, GET_SET.markers, [], events);
    LoopMarks(limit, stream, GET_SET.markers, [], events);
    var end := Loop(limit, stream, GET_SET.markers, [], events);
    assert end.bytes == pending[..k + |END_DB|] by {
      assert pending == pending[..k + |END_DB|] + pending[k + |END_DB|..];
      assert [] + pending == pending;
    }
    sc := Calm(events);
    CalmJob(limit, ex, events);
    assert Raw(end.bytes) == ex.reply[..k + |END_DB|];
  }

  lemma EndInReply(h: Bytes, data: Bytes, k: nat)
    requires OccursAt(data, END_DB, k)
    ensures var reply := h + (data + CRLF + END_DB);
            OccursAt(reply, END_DB, |h| + k) && reply[..|h| + k + |END_DB|] == h + data[..k + |END_DB|]
  {
    var reply := h + (data + CRLF + END_DB);
    assert forall i :: 0 <= i < |data| ==> reply[|h| + i] == data[i];
  }

  /** Where the marker stands in the data with more behind it, some script cuts the reply right there. */
  lemma GetCanBeCut(limit: nat, id: nat, contents: Contents, op: Request, k: nat) returns (sc: Script)
    requires |END_DB| <= limit && op.GetReq? && ValidKey(op.CompositeKey()) && op.CompositeKey() in contents
    requires var data := contents[op.CompositeKey()].data;
             OccursAt(data, END_DB, k) && k + |END_DB| < |data|
    ensures CutsGet(limit, id, contents, op, sc, k + |END_DB|)
  {
    var key := op.CompositeKey();
    var data := contents[key].data;
    var h := ValueHeader(key, Digits(contents[key].flags), |data|);
    ReplyIsServed(contents, op);
    assert JobOf(id, contents, op).reply == h + (data + CRLF + END_DB);
    EndInReply(h, data, k);
    sc := JobCanStopBehind(limit, JobOf(id, contents, op), |h| + k);
  }

  /** And a reply is cut nowhere but behind a marker that stands in the data. */
  lemma CutStandsBehindEnd(limit: nat, id: nat, contents: Contents, op: Request, sc: Script, n: nat) returns (k: nat)
    requires op.GetReq? && ValidKey(op.CompositeKey()) && CutsGet(limit, id, contents, op, sc, n)
    ensures var data := contents[op.CompositeKey()].data;
            n < |data| && k + |END_DB| <= n && OccursAt(data, END_DB, k)
  {
    var key := op.CompositeKey();
    var data := contents[key].data;
    ReplyIsServed(contents, op);
    AnswerHoldsMarker(limit, HEALTHY, JobOf(id, contents, op), sc);
    var part := Raw(RunJob(limit, HEALTHY, JobOf(id, contents, op), sc).1.data);
    k := CutHoldsEnd(part, key, Digits(contents[key].flags), data, n);
  }

  /** The network can cut a get inside its data exactly when END CR LF stands in the data before its end. */
  lemma GetIsCutExactlyWhen(limit: nat, id: nat, contents: Contents, op: Request)
    requires |END_DB| <= limit && op.GetReq? && ValidKey(op.CompositeKey())
    ensures (exists sc, n :: CutsGet(limit, id, contents, op, sc, n)) <==> HoldsEndInside(contents, op.CompositeKey())
  {
    var key := op.CompositeKey();
    if HoldsEndInside(contents, key) {
      var k: nat :| OccursAt(contents[key].data, END_DB, k) && k + |END_DB| < |contents[key].data|;
      var sc := GetCanBeCut(limit, id, contents, op, k);
    }
    if sc, n :| CutsGet(limit, id, contents, op, sc, n) {
      var k := CutStandsBehindEnd(limit, id, contents, op, sc, n);
    }
  }

  // ----- what the buffer decides: how a cut reply is read

  /** The bytes behind a reply in its buffer: `room` bytes to which nothing was ever written. */
  function Zeros(room: nat): (zs: Bytes)
    ensures |zs| == room && forall i :: 0 <= i < room ==> zs[i] == 0
  {
    seq(room, _ => 0)
  }

  predicate AllZero(s: Bytes) {
    forall i :: 0 <= i < |s| ==> s[i] == 0
  }

  lemma FilledIsSame(data: Bytes, n: nat)
    requires n <= |data|
    ensures data[..n] + Zeros(|data| - n) == data <==> AllZero(data[n..])
  {
    var filled := data[..n] + Zeros(|data| - n);
    if AllZero(data[n..]) {
      assert forall i :: n <= i < |data| ==> data[i] == data[n..][i - n];
      assert filled == data;
    }
    if filled == data {
      assert forall i :: 0 <= i < |data| - n ==> data[n..][i] == filled[n + i] == 0;
    }
  }

  /** A cut reply is sliced out of bounds, or read as what is stored, or as other data, by the room behind it. */
  lemma CutIsReadBy(part: Bytes, contents: Contents, key: Bytes, n: nat, room: nat)
    requires ValidKey(key) && CutAt(part, contents, key, n) && |contents[key].data| <= MAX_INT
    ensures var data := contents[key].data;
            var reading := Extract(part, Zeros(room));
            && (reading == OutOfBounds <==> room < |data| - n)
            && (reading == Found(data) <==> |data| - n <= room && AllZero(data[n..]))
            && (|data| - n <= room ==> reading == Found(data[..n] + Zeros(|data| - n)))
  {
    var data := contents[key].data;
    CutIsRead(part, Zeros(room), contents, key, n);
    if |data| - n <= room {
      assert Zeros(room)[..|data| - n] == Zeros(|data| - n);
      FilledIsSame(data, n);
    }
  }

  // ----- both together

  /** What a get reads, if its job found something: under that script, and with that room in the buffer. */
  ghost predicate Reads(
    limit: nat, id: nat, contents: Contents, op: Request, sc: Script, room: nat, reading: Extracted)
  {
    var r := RunJob(limit, HEALTHY, JobOf(id, contents, op), sc).1;
    r.err.None? && r.resultType == TypeFound && Extract(Raw(r.data), Zeros(room)) == reading
  }

  ghost predicate BringsOtherData(limit: nat, id: nat, contents: Contents, op: Request, sc: Script, room: nat) {
    exists data ::
      Reads(limit, id, contents, op, sc, room, Found(data)) && Found(data) != ReadItem(contents, op.CompositeKey())
  }

  /** The reply is cut, and there is too little room for what is missing. */
  ghost predicate LacksRoom(limit: nat, id: nat, contents: Contents, op: Request, sc: Script, room: nat) {
    exists n: nat ::
      CutsGet(limit, id, contents, op, sc, n) && room < |contents[op.CompositeKey()].data| - n
  }

  /** The reply is cut, there is room for what is missing, and what is missing is not all zero. */
  ghost predicate LosesBytes(limit: nat, id: nat, contents: Contents, op: Request, sc: Script, room: nat) {
    exists n: nat ::
      CutsGet(limit, id, contents, op, sc, n) && |contents[op.CompositeKey()].data| - n <= room
      && !AllZero(contents[op.CompositeKey()].data[n..])
  }

  lemma CutsOnce(limit: nat, id: nat, contents: Contents, op: Request, sc: Script, m: nat, n: nat)
    requires CutsGet(limit, id, contents, op, sc, m) && CutsGet(limit, id, contents, op, sc, n)
    ensures m == n
  {
    var data := contents[op.CompositeKey()].data;
    assert |data[..m]| == |data[..n]|;
  }

  lemma CutIsMisread(limit: nat, id: nat, contents: Contents, op: Request, sc: Script, room: nat, n: nat)
    requires ValidKey(op.CompositeKey()) && CutsGet(limit, id, contents, op, sc, n)
    requires |contents[op.CompositeKey()].data| <= MAX_INT
    ensures Reads(limit, id, contents, op, sc, room, OutOfBounds) <==> LacksRoom(limit, id, contents, op, sc, room)
    ensures BringsOtherData(limit, id, contents, op, sc, room) <==> LosesBytes(limit, id, contents, op, sc, room)
  {
    var part := Raw(RunJob(limit, HEALTHY, JobOf(id, contents, op), sc).1.data);
    CutIsReadBy(part, contents, op.CompositeKey(), n, room);
    forall m: nat | CutsGet(limit, id, contents, op, sc, m) ensures m == n {
      CutsOnce(limit, id, contents, op, sc, m, n);
    }
    assert Reads(limit, id, contents, op, sc, room, Extract(part, Zeros(room)));
  }

  lemma UncutIsReadRight(
    limit: nat, id: nat, contents: Contents, op: Request, sc: Script, room: nat, reading: Extracted)
    requires op.GetReq? && ValidKey(op.CompositeKey()) && Reads(limit, id, contents, op, sc, room, reading)
    requires op.CompositeKey() in contents ==> |contents[op.CompositeKey()].data| <= MAX_INT
    requires forall n: nat :: !CutsGet(limit, id, contents, op, sc, n)
    ensures reading == ReadItem(contents, op.CompositeKey())
  {
    var part := Raw(RunJob(limit, HEALTHY, JobOf(id, contents, op), sc).1.data);
    ReplyIsServed(contents, op);
    AnswerHoldsMarker(limit, HEALTHY, JobOf(id, contents, op), sc);
    PartIsReadRight(part, Zeros(room), contents, op.CompositeKey());
    if n :| CutAt(part, contents, op.CompositeKey(), n) {
      assert CutsGet(limit, id, contents, op, sc, n);
    }
  }

  /**
    * Under every script and with every room, a get slices out of bounds exactly when its reply is cut and the
    * room is too small for what is missing; and it reads other data than is stored, without an error, exactly
    * when its reply is cut, the room suffices, and what is missing is not all zero.
    */
  lemma GetIsMisreadExactlyWhen(limit: nat, id: nat, contents: Contents, op: Request, sc: Script, room: nat)
    requires op.GetReq? && ValidKey(op.CompositeKey())
    requires op.CompositeKey() in contents ==> |contents[op.CompositeKey()].data| <= MAX_INT
    ensures Reads(limit, id, contents, op, sc, room, OutOfBounds) <==> LacksRoom(limit, id, contents, op, sc, room)
    ensures BringsOtherData(limit, id, contents, op, sc, room) <==> LosesBytes(limit, id, contents, op, sc, room)
  {
    if n: nat :| CutsGet(limit, id, contents, op, sc, n) {
      CutIsMisread(limit, id, contents, op, sc, room, n);
    } else {
      forall reading | Reads(limit, id, contents, op, sc, room, reading)
        ensures reading == ReadItem(contents, op.CompositeKey())
      {
        UncutIsReadRight(limit, id, contents, op, sc, room, reading);
      }
    }
  }

  /** Under that script the get is misread, in one of the two ways, whatever room there is. */
  ghost predicate GoesWrong(limit: nat, id: nat, contents: Contents, op: Request, sc: Script) {
    forall room ::
      Reads(limit, id, contents, op, sc, room, OutOfBounds) || BringsOtherData(limit, id, contents, op, sc, room)
  }

  /** END CR LF stands in the data at `k`, and what is behind it is not all zero. */
  predicate EndsBeforeMore(data: Bytes, k: nat) {
    OccursAt(data, END_DB, k) && !AllZero(data[k + |END_DB|..])
  }

  ghost predicate HoldsEndBeforeMore(contents: Contents, key: Bytes) {
    key in contents && exists k: nat :: EndsBeforeMore(contents[key].data, k)
  }

  lemma CutBeforeMoreGoesWrong(limit: nat, id: nat, contents: Contents, op: Request, sc: Script, n: nat)
    requires op.GetReq? && ValidKey(op.CompositeKey()) && CutsGet(limit, id, contents, op, sc, n)
    requires |contents[op.CompositeKey()].data| <= MAX_INT && !AllZero(contents[op.CompositeKey()].data[n..])
    ensures GoesWrong(limit, id, contents, op, sc)
  {
    forall room: nat
      ensures Reads(limit, id, contents, op, sc, room, OutOfBounds)
              || BringsOtherData(limit, id, contents, op, sc, room)
    {
      CutIsMisread(limit, id, contents, op, sc, room, n);
    }
  }

  /** With room for all of its data, a get that goes wrong has lost a byte that is not zero. */
  lemma GoesWrongByMore(limit: nat, id: nat, contents: Contents, op: Request, sc: Script)
    requires op.GetReq? && ValidKey(op.CompositeKey()) && GoesWrong(limit, id, contents, op, sc)
    requires op.CompositeKey() in contents ==> |contents[op.CompositeKey()].data| <= MAX_INT
    ensures HoldsEndBeforeMore(contents, op.CompositeKey())
  {
    var key := op.CompositeKey();
    var room := if key in contents then |contents[key].data| else 0;
    GetIsMisreadExactlyWhen(limit, id, contents, op, sc, room);
    assert LacksRoom(limit, id, contents, op, sc, room) || LosesBytes(limit, id, contents, op, sc, room);
    var n: nat :| CutsGet(limit, id, contents, op, sc, n) && !AllZero(contents[key].data[n..]);
    var data := contents[key].data;
    var k := CutStandsBehindEnd(limit, id, contents, op, sc, n);
    var i :| 0 <= i < |data[n..]| && data[n..][i] != 0;
    assert data[k + |END_DB|..][n + i - (k + |END_DB|)] == data[n + i];
    assert EndsBeforeMore(data, k);
  }

  /**
    * The network alone can make a get go wrong, whatever room the buffer has, exactly when the key is held and
    * END CR LF stands in its data before a byte that is not zero.
    */
  lemma GetGoesWrongExactlyWhen(limit: nat, id: nat, contents: Contents, op: Request)
    requires |END_DB| <= limit && op.GetReq? && ValidKey(op.CompositeKey())
    requires op.CompositeKey() in contents ==> |contents[op.CompositeKey()].data| <= MAX_INT
    ensures (exists sc :: GoesWrong(limit, id, contents, op, sc)) <==> HoldsEndBeforeMore(contents, op.CompositeKey())
  {
    var key := op.CompositeKey();
    if HoldsEndBeforeMore(contents, key) {
      var k: nat :| EndsBeforeMore(contents[key].data, k);
      var sc := GetCanBeCut(limit, id, contents, op, k);
      CutBeforeMoreGoesWrong(limit, id, contents, op, sc, k + |END_DB|);
    }
    if sc :| GoesWrong(limit, id, contents, op, sc) {
      GoesWrongByMore(limit, id, contents, op, sc);
    }
  }

  /** A get answers other data than is stored, with type Found and no error. */
  ghost predicate AnswersWrongly(
    cfg: Config, node: nat, id: nat, contents: Contents, op: Request, sc: Script, room: nat)
  {
    var a := GetAnswer(cfg, node, RunJob(cfg.limit, HEALTHY, JobOf(id, contents, op), sc).1, Zeros(room));
    a.err.None? && a.result.Some? && a.result.value.resultType == TypeFound &&
    !(op.CompositeKey() in contents && a.result.value.data == contents[op.CompositeKey()].data)
  }

  /**
    * Without compression a caller is given other data than is stored, with no error, under exactly those
    * scripts and rooms under which the reply is cut, the room suffices, and what is missing is not all zero.
    */
  lemma PlainGetIsWrongExactlyWhen(
    cfg: Config, node: nat, id: nat, contents: Contents, op: Request, sc: Script, room: nat)
    requires cfg.codec == PLAIN && op.GetReq? && ValidKey(op.CompositeKey())
    requires op.CompositeKey() in contents ==> |contents[op.CompositeKey()].data| <= MAX_INT
    ensures AnswersWrongly(cfg, node, id, contents, op, sc, room) <==> LosesBytes(cfg.limit, id, contents, op, sc, room)
  {
    GetIsMisreadExactlyWhen(cfg.limit, id, contents, op, sc, room);
    var r := RunJob(cfg.limit, HEALTHY, JobOf(id, contents, op), sc).1;
    if AnswersWrongly(cfg, node, id, contents, op, sc, room) {
      var data := Extract(Raw(r.data), Zeros(room)).data;
      assert Reads(cfg.limit, id, contents, op, sc, room, Found(data));
    }
    if LosesBytes(cfg.limit, id, contents, op, sc, room) {
      var n: nat :| CutsGet(cfg.limit, id, contents, op, sc, n) && |contents[op.CompositeKey()].data| - n <= room
                    && !AllZero(contents[op.CompositeKey()].data[n..]);
      CutIsReadBy(Raw(r.data), contents, op.CompositeKey(), n, room);
    }
  }

  // ----- delete, set and add

  lemma DeleteMarkersTellApart()
    ensures !Occurs(DELETED_DB, NOT_FOUND_DB) && !Occurs(NOT_FOUND_DB, DELETED_DB)
  {
    LineIsSuffixOnly(NOT_FOUND_DB, DELETED_SET.markers);
    assert DELETED_SET.markers[0] == DELETED_DB;
    assert DELETED_DB[0] != NOT_FOUND_DB[2];
  }

  /** A delete is never wrong: without error it reports what was the case, or has no type. */
  lemma DeleteIsNeverWrong(cfg: Config, node: nat, link: Link, id: nat, contents: Contents, op: Request, sc: Script)
    requires Clean(link) && op.DeleteReq? && ValidKey(op.CompositeKey())
    ensures var a := DeleteAnswer(node, RunJob(cfg.limit, link, JobOf(id, contents, op), sc).1);
            a.err.None? ==>
              a.result == Some(Outcome(
                if op.CompositeKey() in contents then TypeDeleted else TypeNotFound, [], Some(node)))
              || a.result == Some(Outcome(TypeNone, [], Some(node)))
  {
    var ex := JobOf(id, contents, op);
    var r := RunJob(cfg.limit, link, ex, sc).1;
    ReplyIsServed(contents, op);
    DeleteMarkersTellApart();
    if r.err.None? {
      AnswerHoldsMarker(cfg.limit, link, ex, sc);
      if r.resultType != TypeNone {
        var i :| 0 <= i < |DELETED_SET.markers| && i < |DELETED_SET.types| && DELETED_SET.types[i] == r.resultType
                 && Occurs(Raw(r.data), DELETED_SET.markers[i]);
        OccursInWhole(Raw(r.data), ex.reply, DELETED_SET.markers[i]);
      }
    }
  }

  /** What a store can report without error: nothing, or "stored", or "not stored" where the server refused. */
  lemma StoreReports(cfg: Config, node: nat, link: Link, id: nat, contents: Contents, op: Request, sc: Script)
    requires Clean(link) && op.PutReq? && ValidKey(op.CompositeKey())
    ensures var a := StoreAnswer(node, RunJob(cfg.limit, link, JobOf(id, contents, op), sc).1);
            a.err.None? ==>
              && a.result.Some? && a.result.value.resultType in {TypeNone, TypeStored, TypeNotStored}
              && (a.result.value.resultType == TypeNotStored ==> op.verb == Add && op.CompositeKey() in contents)
  {
    var ex := JobOf(id, contents, op);
    var r := RunJob(cfg.limit, link, ex, sc).1;
    ReplyIsServed(contents, op);
    if r.err.None? {
      AnswerHoldsMarker(cfg.limit, link, ex, sc);
      if r.resultType != TypeNone {
        var i :| 0 <= i < |STORED_SET.markers| && i < |STORED_SET.types| && STORED_SET.types[i] == r.resultType
                 && Occurs(Raw(r.data), STORED_SET.markers[i]);
        OccursInWhole(Raw(r.data), ex.reply, STORED_SET.markers[i]);
      }
    }
  }

  /** A store reports "stored" although the server refused it. */
  ghost predicate ReportsFalsely(cfg: Config, id: nat, contents: Contents, op: Request, sc: Script) {
    var r := RunJob(cfg.limit, HEALTHY, JobOf(id, contents, op), sc).1;
    Serve(contents, op.Rendered()) == Served(contents, NOT_STORED_DB) && r.err.None? && r.resultType == TypeStored
  }

  /** NOT_STORED cut behind its underscore is read as "stored". */
  lemma CutRefusalReadsAsStored(limit: nat, id: nat)
    requires 8 <= limit
    ensures var r := RunJob(limit, HEALTHY, Exchange(id, STORED_SET, NOT_STORED_DB), Calm(Chunks([4, 8]))).1;
            r.err.None? && r.resultType == TypeStored
  {
    var pending := Tag(id, NOT_STORED_DB);
    var sizes := [4, 8];
    assert sizes[1..] == [8];
    assert Cuts(12, limit, sizes);
    NotStoredIsRead(limit, id, sizes);
    CalmJob(limit, Exchange(id, STORED_SET, NOT_STORED_DB), Chunks(sizes));
    LoopHoldsMarker(limit, Stream(true, pending), STORED_SET.markers, [], Chunks(sizes));
  }

  /**
    * The network can make a store report "stored" falsely exactly when the store is an add of a key that is
    * there.
    */
  lemma FalseReportExactlyWhen(cfg: Config, id: nat, contents: Contents, op: Request)
    requires 8 <= cfg.limit && op.PutReq? && ValidKey(op.CompositeKey())
    ensures (exists sc :: ReportsFalsely(cfg, id, contents, op, sc))
            <==> op.verb == Add && op.CompositeKey() in contents
  {
    StoreIsObeyed(contents, op.verb, op.CompositeKey(), op.value, op.ttl);
    if op.verb == Add && op.CompositeKey() in contents {
      CutRefusalReadsAsStored(cfg.limit, id);
      assert ReportsFalsely(cfg, id, contents, op, Calm(Chunks([4, 8])));
    } else {
      assert |STORED_DB| != |NOT_STORED_DB|;
    }
  }

  // ----- every run of a worker

  /**
    * Over every run of a worker that serves real commands, a get that is answered without error and with a
    * type is answered with what the server held when the command arrived, as long as the data fetched in
    * the run can be delimited.
    */
  lemma GetsOfARunAreRight(
    cfg: Config, node: nat, ops: seq<Request>, held: seq<Contents>, scs: seq<Script>, rebalances: bool, k: nat,
    spare: Bytes)
    requires |held| == |ops| == |scs| && Delimitable(ops, held)
    requires k < |ops| && ops[k].GetReq?
    requires k < |RunJobs(cfg.limit, HEALTHY, JobsOf(ops, held), scs, rebalances).0|
    ensures var r := RunJobs(cfg.limit, HEALTHY, JobsOf(ops, held), scs, rebalances).0[k];
            var a := GetAnswer(cfg, node, r, spare);
            (r.err.None? && r.resultType != TypeNone)
            || (a.err.None? && a.result.Some? && a.result.value.resultType != TypeNone) ==>
              a == ValueAnswer(cfg, node, ReadItem(held[k], ops[k].CompositeKey()))
  {
    CommandsAreNeverStale(cfg.limit, ops, held, scs, rebalances);
    var ex := JobOf(k, held[k], ops[k]);
    ReplyIsServed(held[k], ops[k]);
    assert Raw(Tag(k, ex.reply)) == ex.reply;
    GetReplyIsRead(held[k], ops[k].CompositeKey(), spare);
  }
}
