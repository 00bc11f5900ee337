/**
  * One connection to a node and the worker that owns it: send a command, read its reply, recover.
  *
  * The network is a script of events chosen in advance, so that a statement for all scripts covers every
  * delay, every cutting of a reply into chunks, every timeout, end of stream and failure.  Bytes on their
  * way to the client carry the number of the job whose command they answer.
  */
module Telnet {
  import opened Bytes
  import opened MarkerSearch
  import opened Replies

  datatype ResultType =
    | TypeNone | TypeError | TypeFound | TypeNotFound | TypeNotStored | TypeStored | TypeDeleted
    | TypeCompressionError | TypeDecompressionError | TypeContextTimeout

  /** The markers that end a reply, in the order in which they are tried, and what each one means. */
  datatype ResponseSet = ResponseSet(markers: seq<Bytes>, types: seq<ResultType>) {
    predicate Valid() {
      |markers| == |types| && forall i :: 0 <= i < |markers| ==> 2 <= |markers[i]|
    }
  }

  const STORED_SET := ResponseSet([NOT_STORED_DB, STORED_DB], [TypeNotStored, TypeStored])
  const GET_SET := ResponseSet([END_DB], [TypeFound])
  const DELETED_SET := ResponseSet([DELETED_DB, NOT_FOUND_DB], [TypeDeleted, TypeNotFound])

  datatype Err = ConnectionWrite | ConnectionRead | ConnectionIsClosed | DeadlineExceeded | NoResponse | Network

  datatype Tagged = Tagged(job: nat, b: byte)

  function Tag(job: nat, bs: Bytes): (ts: seq<Tagged>)
    ensures |ts| == |bs| && forall i :: 0 <= i < |bs| ==> ts[i] == Tagged(job, bs[i])
  {
    seq(|bs|, i requires 0 <= i < |bs| => Tagged(job, bs[i]))
  }

  function Raw(ts: seq<Tagged>): (bs: Bytes)
    ensures |bs| == |ts| && forall i :: 0 <= i < |ts| ==> bs[i] == ts[i].b
  {
    seq(|ts|, i requires 0 <= i < |ts| => ts[i].b)
  }

  /** An established connection: whether the peer still answers, and the reply bytes not read yet. */
  datatype Stream = Stream(alive: bool, pending: seq<Tagged>)

  const FRESH := Stream(true, [])
  const DEAD := Stream(false, [])

  /** The fields of a Telnet that decide what it does next. */
  datatype Link = Link(connection: Option<Stream>, onFailure: bool)

  const HEALTHY := Link(Some(FRESH), false)

  /** What becomes of a new connection: the name may not be resolved, or the address not be reached. */
  datatype Dial = Dialed | NotReached | NotResolved

  /** What the checker goroutine finds at a tick; it looks at the address only when the name is resolved. */
  datatype Check = NoTick | NameLost | AddressChanged | AddressDead | AllWell

  datatype WriteEvent = Written | WriteTimeout | WriteFailure | WriteDeadlineRefused

  /**
    * What one turn of the reading loop meets.  EndOfFile is also the read of no bytes.  The deadline of a
    * read is refused only by a connection that is already closed underneath.
    */
  datatype ReadEvent = Chunk(size: nat) | EndOfFile | ReadTimeout | ReadFailure | ReadDeadlineRefused

  datatype Stop = Marked(index: nat) | Ended | TimedOut | Failed | Refused

  datatype ReadEnd = ReadEnd(stream: Stream, bytes: seq<Tagged>, stop: Stop)

  datatype ReadResult = ReadResult(data: seq<Tagged>, resultType: ResultType, err: Option<Err>)

  /** The first marker that the search finds in a chunk, or their number when it finds none. */
  function FirstMarker(chunk: Bytes, markers: seq<Bytes>, from: nat := 0): (i: nat)
    requires from <= |markers|
    ensures from <= i <= |markers|
    ensures forall j :: from <= j < i ==> Search(chunk, markers[j]) == -1
    ensures i < |markers| ==> Search(chunk, markers[i]) != -1
    decreases |markers| - from
  {
    if from == |markers| || Search(chunk, markers[from]) != -1 then from
    else FirstMarker(chunk, markers, from + 1)
  }

  function Min(a: nat, b: nat): nat {
    if a < b then a else b
  }

  /**
    * The reading loop, on a connection and the bytes gathered so far.  A script that has run out, or that
    * announces bytes where none are on their way, leaves the loop waiting for its absolute deadline.
    */
  function Loop(limit: nat, stream: Stream, markers: seq<Bytes>, gathered: seq<Tagged>, events: seq<ReadEvent>): ReadEnd
    decreases |events|
  {
    if events == [] then ReadEnd(stream, gathered, TimedOut)
    else match events[0]
      case ReadDeadlineRefused => ReadEnd(DEAD, gathered, Refused)
      case ReadTimeout => ReadEnd(stream, gathered, TimedOut)
      case ReadFailure => ReadEnd(stream, gathered, Failed)
      case EndOfFile => ReadEnd(DEAD, gathered, Ended)
      case Chunk(size) =>
        var n := Min(Min(size, limit), |stream.pending|);
        if n == 0 then ReadEnd(stream, gathered, TimedOut)
        else
          var chunk := stream.pending[..n];
          var rest := stream.(pending := stream.pending[n..]);
          var i := FirstMarker(Raw(chunk), markers);
          if i < |markers| then ReadEnd(rest, gathered + chunk, Marked(i))
          else Loop(limit, rest, markers, gathered + chunk, events[1..])
  }

  /** What a read answers when its loop has ended, and the link it leaves behind. */
  function Settled(end: ReadEnd, rs: ResponseSet, redial: Dial): (Link, ReadResult)
    requires end.stop.Marked? ==> end.stop.index < |rs.types|
  {
    match end.stop
    case Marked(i) => (Link(Some(end.stream), false), ReadResult(end.bytes, rs.types[i], None))
    case Ended => (Link(Some(end.stream), false), ReadResult(end.bytes, TypeNone, None))
    case Refused => (Link(Some(end.stream), false), ReadResult([], TypeError, Some(Network)))
    case Failed => (Link(Some(end.stream), true), ReadResult([], TypeError, Some(Network)))
    case TimedOut =>
      if redial.Dialed? then (HEALTHY, ReadResult([], TypeContextTimeout, Some(DeadlineExceeded)))
      else (Link(None, false), ReadResult([], TypeError, Some(ConnectionIsClosed)))
  }

  lemma {:induction false} LoopMarks(
    limit: nat, stream: Stream, markers: seq<Bytes>, gathered: seq<Tagged>, events: seq<ReadEvent>)
    ensures var end := Loop(limit, stream, markers, gathered, events);
            end.stop.Marked? ==> end.stop.index < |markers|
    decreases |events|
  {
    if events != [] && events[0].Chunk? {
      var n := Min(Min(events[0].size, limit), |stream.pending|);
      LoopMarks(limit, stream.(pending := stream.pending[n..]), markers, gathered + stream.pending[..n], events[1..]);
    }
  }

  /** What a read answers, and the link it leaves behind. */
  function AfterRead(limit: nat, link: Link, rs: ResponseSet, events: seq<ReadEvent>, redial: Dial): (Link, ReadResult)
    requires rs.Valid()
    requires !link.onFailure ==> link.connection.Some?
  {
    if link.onFailure then (link, ReadResult([], TypeNone, Some(ConnectionRead)))
    else
      LoopMarks(limit, link.connection.value, rs.markers, [], events);
      Settled(Loop(limit, link.connection.value, rs.markers, [], events), rs, redial)
  }

  /** A connection on which a command was written: the reply to it is on its way, unless the peer is gone. */
  function Offered(stream: Stream, job: nat, reply: Bytes): Stream {
    if stream.alive then stream.(pending := stream.pending + Tag(job, reply)) else stream
  }

  /**
    * What a send answers, and the link it leaves behind; `reply` is what the server answers to the command.  A
    * write that fails or times out can have got through all the same, so that its reply is on its way as well.
    */
  function AfterSend(link: Link, job: nat, reply: Bytes, write: WriteEvent, redial: Dial): (Link, Option<Err>) {
    if link.onFailure then (link, Some(ConnectionWrite))
    else match link.connection
      case None => (Link(None, true), Some(ConnectionWrite))
      case Some(stream) =>
        var offered := Some(Offered(stream, job, reply));
        match write
        case Written => (Link(offered, false), None)
        case WriteTimeout =>
          if redial.Dialed? then (HEALTHY, Some(DeadlineExceeded)) else (Link(None, true), Some(ConnectionWrite))
        case WriteFailure => (Link(offered, true), Some(ConnectionWrite))
        case WriteDeadlineRefused => (link.(onFailure := true), Some(ConnectionWrite))
  }

  /** A job of the worker: how its reply is recognised, and the reply that the server gives to it. */
  datatype Exchange = Exchange(id: nat, responses: ResponseSet, reply: Bytes)

  /**
    * Everything the outside world does during one job.  The checker goroutine may latch the failure flag at
    * any moment; the job looks at the flag twice, so a moment counts only by the look that it precedes.
    */
  datatype Script = Script(
    tripsBeforeSend: bool, write: WriteEvent, redialOnWrite: Dial,
    tripsBeforeRead: bool, events: seq<ReadEvent>, redialOnRead: Dial)

  datatype Response = Response(resultType: ResultType, data: seq<Tagged>, err: Option<Err>)

  function Tripped(link: Link, trips: bool): Link {
    if trips then link.(onFailure := true) else link
  }

  /** checkResponse, on what the read answered. */
  function Checked(r: ReadResult): Response {
    if r.err.Some? then Response(r.resultType, [], r.err)
    else if r.data == [] then Response(r.resultType, [], Some(NoResponse))
    else Response(r.resultType, r.data, None)
  }

  /** One job from the link it finds to the link it leaves. */
  function RunJob(limit: nat, link: Link, ex: Exchange, sc: Script): (Link, Response)
    requires ex.responses.Valid()
  {
    var (sent, err) := AfterSend(Tripped(link, sc.tripsBeforeSend), ex.id, ex.reply, sc.write, sc.redialOnWrite);
    if err.Some? then (sent, Response(TypeNone, [], err))
    else
      var (done, r) := AfterRead(limit, Tripped(sent, sc.tripsBeforeRead), ex.responses, sc.events, sc.redialOnRead);
      (done, Checked(r))
  }

  predicate Disconnects(r: Response) {
    r.err == Some(NoResponse) || r.err == Some(ConnectionWrite) || r.err == Some(ConnectionRead)
  }

  ghost predicate ValidJobs(exs: seq<Exchange>) {
    forall k :: 0 <= k < |exs| ==> exs[k].responses.Valid()
  }

  /** The answers of a worker to the jobs it takes, and the link behind the last of them. */
  function RunJobs(limit: nat, link: Link, exs: seq<Exchange>, scs: seq<Script>, rebalances: bool)
    : (seq<Response>, Link)
    requires |exs| == |scs| && ValidJobs(exs)
    decreases |exs|
  {
    if exs == [] then ([], link)
    else
      var (next, r) := RunJob(limit, link, exs[0], scs[0]);
      if Disconnects(r) && rebalances then ([r], next)
      else
        var (rs, last) := RunJobs(limit, next, exs[1..], scs[1..], rebalances);
        ([r] + rs, last)
  }

  function Prepended(before: seq<Response>, rest: (seq<Response>, Link)): (seq<Response>, Link) {
    (before + rest.0, rest.1)
  }

  lemma PrependedEmpty(before: seq<Response>, link: Link, rest: (seq<Response>, Link))
    ensures Prepended(before, ([], link)) == (before, link) && Prepended([], rest) == rest
  {
    assert before + [] == before && [] + rest.0 == rest.0;
  }

  /** One turn of the loop of a worker that has given the answers `before`. */
  lemma WorkTurn(
    limit: nat, link: Link, exs: seq<Exchange>, scs: seq<Script>, rebalances: bool, k: nat, before: seq<Response>,
    next: Link, r: Response)
    requires k < |exs| == |scs| && ValidJobs(exs) && (next, r) == RunJob(limit, link, exs[k], scs[k])
    ensures Prepended(before, RunJobs(limit, link, exs[k..], scs[k..], rebalances)) ==
            (if Disconnects(r) && rebalances then (before + [r], next)
             else Prepended(before + [r], RunJobs(limit, next, exs[k + 1..], scs[k + 1..], rebalances)))
  {
    assert exs[k..][1..] == exs[k + 1..] && scs[k..][1..] == scs[k + 1..];
    assert forall rs :: before + ([r] + rs) == before + [r] + rs;
  }

  class Conn {
    var connection: Option<Stream>
    var onFailure: bool
    var signals: nat        // how many signals this connection has put on the disconnection channel
    var endOffered: bool    // whether the checker goroutine was offered its end
    var addressed: bool     // whether `address` is set: a name that is not resolved leaves it nil
    const readBufferSize: nat

    /** The flag and the signal go together, one signal for each connection at most; a connection has an address. */
    ghost predicate Valid()
      reads this
    {
      signals == (if onFailure then 1 else 0) && (connection.Some? ==> addressed)
    }

    function State(): Link
      reads this
    {
      Link(connection, onFailure)
    }

    /** A connection as NewTelnetFromNode hands it to a worker. */
    constructor (readBufferSize: nat)
      ensures Valid() && State() == HEALTHY && !endOffered && addressed && this.readBufferSize == readBufferSize
    {
      this.readBufferSize := readBufferSize;
      connection := Some(FRESH);
      onFailure := false;
      signals := 0;
      endOffered := false;
      addressed := true;
    }

    method ReportDisconnection()
      requires Valid()
      modifies this`onFailure, this`signals
      ensures Valid() && State() == Tripped(old(State()), true)
    {
      if onFailure {
        return;
      }
      onFailure := true;
      signals := signals + 1;
    }

    /**
      * A tick of the checker goroutine.  Seen from the worker it may report the disconnection; but where the
      * last redial could not resolve the name, and the next job has not latched the failure yet, a name that
      * is resolved by now makes it dereference the address that is nil, which is a panic.
      */
    method Checker(check: Check) returns (panics: bool)
      requires Valid()
      modifies this`onFailure, this`signals
      ensures Valid()
      ensures panics <==> !old(onFailure) && !addressed && check in {AddressChanged, AddressDead, AllWell}
      ensures panics ==> old(State()) == Link(None, false)
      ensures State() == Tripped(old(State()), !panics && check in {NameLost, AddressChanged, AddressDead})
    {
      if check == NoTick || onFailure {
        return false;
      }
      if check == NameLost {
        ReportDisconnection();
        return false;
      }
      if !addressed {
        return true;
      }
      if check == AddressChanged || check == AddressDead {
        ReportDisconnection();
      }
      return false;
    }

    /** Closing offers the checker goroutine its end, but not where there is no connection left to close. */
    method Close(endCheck: bool)
      requires Valid()
      modifies this`connection, this`endOffered
      ensures Valid() && connection == None
      ensures endOffered == (old(endOffered) || (endCheck && old(connection).Some?))
    {
      if connection == None {
        return;
      }
      connection := None;
      if endCheck {
        endOffered := true;
      }
    }

    /** Resolving the address and dialing it; the address is lost before the connection is. */
    method Connect(dial: Dial) returns (err: Option<Err>)
      requires Valid()
      modifies this`connection, this`addressed
      ensures connection ==
              match dial case Dialed => Some(FRESH) case NotReached => None case NotResolved => old(connection)
      ensures addressed == !dial.NotResolved? && (old(connection) == None ==> Valid())
      ensures err.None? <==> dial.Dialed?
    {
      addressed := !dial.NotResolved?;
      if !addressed {
        return Some(Network);
      }
      if dial.NotReached? {
        connection := None;
        return Some(Network);
      }
      connection := Some(FRESH);
      return None;
    }

    method Reconnect(dial: Dial) returns (err: Option<Err>)
      requires Valid()
      modifies this`connection, this`endOffered, this`addressed
      ensures Valid() && connection == if dial.Dialed? then Some(FRESH) else None
      ensures err == if dial.Dialed? then None else Some(ConnectionIsClosed)
      ensures endOffered == old(endOffered) && addressed == !dial.NotResolved?
    {
      Close(false);
      err := Connect(dial);
      if err.Some? {
        return Some(ConnectionIsClosed);
      }
    }

    method WritePayload(job: nat, reply: Bytes, write: WriteEvent, redial: Dial) returns (err: Option<Err>)
      requires Valid() && !onFailure
      modifies this`connection, this`endOffered, this`addressed
      ensures Valid() && endOffered == old(endOffered)
      ensures err.None? ==> (State(), err) == AfterSend(old(State()), job, reply, write, redial)
      ensures err.Some? && err.value == DeadlineExceeded ==>
                (State(), err) == AfterSend(old(State()), job, reply, write, redial)
      ensures err.Some? && err.value != DeadlineExceeded ==>
                (Tripped(State(), true), Some(ConnectionWrite)) == AfterSend(old(State()), job, reply, write, redial)
    {
      if connection == None {
        return Some(ConnectionWrite);
      }
      if write == WriteDeadlineRefused {
        return Some(ConnectionWrite);
      }
      connection := Some(Offered(connection.value, job, reply));
      if write == WriteTimeout {
        err := Reconnect(redial);
        if err.Some? {
          return err;
        }
        return Some(DeadlineExceeded);
      }
      if write == WriteFailure {
        return Some(ConnectionWrite);
      }
      return None;
    }

    /** Without an error there is a connection to read from. */
    method Send(job: nat, reply: Bytes, write: WriteEvent, redial: Dial) returns (err: Option<Err>)
      requires Valid()
      modifies this
      ensures Valid() && (State(), err) == AfterSend(old(State()), job, reply, write, redial)
      ensures err.None? ==> connection.Some?
      ensures endOffered == old(endOffered)
    {
      if onFailure {
        return Some(ConnectionWrite);
      }
      err := WritePayload(job, reply, write, redial);
      if err.Some? {
        if err.value == DeadlineExceeded {
          return err;
        }
        ReportDisconnection();
        return Some(ConnectionWrite);
      }
    }

    /** The loop over the markers of a response set: the first one that the chunk holds. */
    static method TryMarkers(bufferPart: Bytes, markers: seq<Bytes>) returns (i: nat)
      ensures i == FirstMarker(bufferPart, markers)
    {
      i := 0;
      while i < |markers|
        invariant 0 <= i <= |markers|
        invariant FirstMarker(bufferPart, markers) == FirstMarker(bufferPart, markers, i)
      {
        var at := FindLastIndexOfByteSlice(bufferPart, markers[i]);
        if at != -1 {
          return;
        }
        i := i + 1;
      }
    }

    /** The reading loop never touches a connection that is absent: that is what it requires. */
    method Read(rs: ResponseSet, events: seq<ReadEvent>, redial: Dial) returns (r: ReadResult)
      requires Valid() && rs.Valid()
      requires !onFailure ==> connection.Some?
      modifies this
      ensures Valid() && (State(), r) == AfterRead(readBufferSize, old(State()), rs, events, redial)
      ensures endOffered == old(endOffered)
    {
      if onFailure {
        return ReadResult([], TypeNone, Some(ConnectionRead));
      }
      var fullBuffer: seq<Tagged> := [];
      var resultType := TypeNone;
      var timedOut, failed := false, false;
      ghost var end := Loop(readBufferSize, connection.value, rs.markers, [], events);
      LoopMarks(readBufferSize, connection.value, rs.markers, [], events);
      var turn := 0;
      assert events[0..] == events;
      while true
        invariant 0 <= turn <= |events| && connection.Some? && addressed && !onFailure && signals == 0
        invariant endOffered == old(endOffered)
        invariant resultType == TypeNone && !timedOut && !failed
        invariant end == Loop(readBufferSize, connection.value, rs.markers, fullBuffer, events[turn..])
        decreases |events| - turn
      {
        var stream := connection.value;
        if turn == |events| {
          timedOut := true;
          break;
        }
        var event := events[turn];
        if event == ReadDeadlineRefused {
          connection := Some(DEAD);
          return ReadResult([], TypeError, Some(Network));
        }
        if event == EndOfFile {
          connection := Some(DEAD);
          break;
        }
        if event == ReadTimeout || (event.Chunk? && Min(Min(event.size, readBufferSize), |stream.pending|) == 0) {
          timedOut := true;
          break;
        }
        if event == ReadFailure {
          failed := true;
          break;
        }
        var bytesRead := Min(Min(event.size, readBufferSize), |stream.pending|);
        var bufferPart := stream.pending[..bytesRead];
        connection := Some(stream.(pending := stream.pending[bytesRead..]));
        fullBuffer := fullBuffer + bufferPart;
        var found := TryMarkers(Raw(bufferPart), rs.markers);
        assert events[turn..][1..] == events[turn + 1..];
        if found < |rs.markers| {
          resultType := rs.types[found];
          break;
        }
        turn := turn + 1;
      }
      if timedOut {
        var err := Reconnect(redial);
        if err.Some? {
          return ReadResult([], TypeError, err);
        }
        return ReadResult([], TypeContextTimeout, Some(DeadlineExceeded));
      }
      if failed {
        ReportDisconnection();
        return ReadResult([], TypeError, Some(Network));
      }
      return ReadResult(fullBuffer, resultType, None);
    }

    method SendAndReadResponse(ex: Exchange, sc: Script) returns (r: Response)
      requires Valid() && ex.responses.Valid()
      modifies this
      ensures Valid() && (State(), r) == RunJob(readBufferSize, old(State()), ex, sc)
      ensures endOffered == old(endOffered)
    {
      var panics := Checker(if sc.tripsBeforeSend then NameLost else NoTick);
      var err := Send(ex.id, ex.reply, sc.write, sc.redialOnWrite);
      if err.None? {
        panics := Checker(if sc.tripsBeforeRead then NameLost else NoTick);
        var result := Read(ex.responses, sc.events, sc.redialOnRead);
        return Checked(result);
      }
      return Response(TypeNone, [], err);
    }

    /**
      * The loop of a worker over the jobs it takes from the channel, until the channel is closed.  A worker
      * whose last redial failed leaves without a word to its checker goroutine.
      */
    method Work(exs: seq<Exchange>, scs: seq<Script>, rebalances: bool) returns (answers: seq<Response>)
      requires Valid() && |exs| == |scs| && ValidJobs(exs)
      modifies this
      ensures Valid() && connection == None
      ensures var (rs, last) := RunJobs(readBufferSize, old(State()), exs, scs, rebalances);
              && answers == rs && onFailure == last.onFailure
              && endOffered == (old(endOffered) || last.connection.Some?)
    {
      answers := [];
      ghost var all := RunJobs(readBufferSize, State(), exs, scs, rebalances);
      var k := 0;
      assert exs[0..] == exs && scs[0..] == scs;
      PrependedEmpty([], State(), all);
      while k < |exs|
        invariant 0 <= k <= |exs| && Valid() && endOffered == old(endOffered)
        invariant all == Prepended(answers, RunJobs(readBufferSize, State(), exs[k..], scs[k..], rebalances))
      {
        ghost var link, before := State(), answers;
        var response := SendAndReadResponse(exs[k], scs[k]);
        WorkTurn(readBufferSize, link, exs, scs, rebalances, k, before, State(), response);
        answers := answers + [response];
        if Disconnects(response) && rebalances {
          break;
        }
        k := k + 1;
      }
      PrependedEmpty(answers, State(), all);
      assert all == (answers, State());
      Close(true);
    }
  }
}
