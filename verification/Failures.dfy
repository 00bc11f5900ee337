/**
  * The ways in which a job fails: which error answers it, exactly when, what link it leaves, and what a worker
  * makes of it.
  */
module Failures {
  import opened Bytes
  import opened MarkerSearch
  import opened Replies
  import opened Telnet
  import opened StaleReplies

  /** There is a connection, and no failure is latched. */
  predicate Usable(link: Link) {
    link.connection.Some? && !link.onFailure
  }

  // ----- a send

  /**
    * A send is refused and the failure latched, unless the connection is usable and the write succeeds, or times
    * out and is followed by a redial that does.  After a timeout nothing of the old connection is left.
    */
  lemma SendFailsExactlyWhen(link: Link, job: nat, reply: Bytes, write: WriteEvent, redial: Dial)
    ensures var (next, err) := AfterSend(link, job, reply, write, redial);
            && (err == None <==> Usable(link) && write == Written)
            && (err == Some(DeadlineExceeded) <==> Usable(link) && write == WriteTimeout && redial == Dialed)
            && (err == Some(ConnectionWrite) <==>
                !Usable(link) || write == WriteFailure || write == WriteDeadlineRefused
                || (write == WriteTimeout && redial != Dialed))
            && (err == None ==> Usable(next))
            && (err == Some(DeadlineExceeded) ==> next == Link(Some(Stream(true, [])), false))
            && (err == Some(ConnectionWrite) ==> next.onFailure)
            && (Usable(link) && write == WriteTimeout && redial != Dialed ==> next == Link(None, true))
  {
  }

  /** A command that is written to a peer that lives has its reply put behind the bytes that are on their way. */
  lemma SentReplyIsLast(link: Link, job: nat, reply: Bytes, redial: Dial)
    requires Usable(link) && link.connection.value.alive
    ensures var next := AfterSend(link, job, reply, Written, redial).0;
            var before := link.connection.value.pending;
            && next.connection.Some? && next.connection.value.alive
            && Raw(next.connection.value.pending) == Raw(before) + reply
            && next.connection.value.pending[..|before|] == before
            && forall i :: |before| <= i < |next.connection.value.pending| ==>
                 next.connection.value.pending[i].job == job
  {
  }

  // ----- a read

  /** What ends the reading, when `left` is still on its way and `bytes` are gathered. */
  predicate StopsBy(end: ReadEnd, e: ReadEvent, alive: bool, left: seq<Tagged>, bytes: seq<Tagged>) {
    && end.bytes == bytes
    && match e
       case EndOfFile => end.stop == Ended && end.stream == DEAD
       case ReadDeadlineRefused => end.stop == Refused && end.stream == DEAD
       case ReadTimeout => end.stop == TimedOut && end.stream == Stream(alive, left)
       case ReadFailure => end.stop == Failed && end.stream == Stream(alive, left)
       case Chunk(_) => true
  }

  /** An event that is no chunk ends the reading, behind any number of bytes, whatever would come after it. */
  lemma EventStopsLoop(limit: nat, stream: Stream, rs: ResponseSet, k: nat, e: ReadEvent, rest: seq<ReadEvent>)
    requires rs.Valid() && 0 < limit && k <= |stream.pending| && !e.Chunk?
    ensures StopsBy(Loop(limit, stream, rs.markers, [], BytesThen(k, [e] + rest)), e, stream.alive,
                    stream.pending[k..], stream.pending[..k])
  {
    LoopPassesBytes(limit, stream, rs, [], k, [e] + rest);
    assert [] + stream.pending[..k] == stream.pending[..k];
  }

  /** A chunk of nothing is no end of the stream: the read waits for its deadline. */
  lemma NothingToReadTimesOut(limit: nat, stream: Stream, markers: seq<Bytes>, size: nat, rest: seq<ReadEvent>)
    requires size == 0 || limit == 0 || stream.pending == []
    ensures Loop(limit, stream, markers, [], [Chunk(size)] + rest) == ReadEnd(stream, [], TimedOut)
  {
  }

  /** The loop that stops on a marker has gathered something. */
  lemma {:induction false} MarkedHasBytes(
    limit: nat, stream: Stream, markers: seq<Bytes>, gathered: seq<Tagged>, events: seq<ReadEvent>)
    ensures var end := Loop(limit, stream, markers, gathered, events);
            end.stop.Marked? ==> end.bytes != []
    decreases |events|
  {
    if events != [] && events[0].Chunk? {
      var n := Min(Min(events[0].size, limit), |stream.pending|);
      if 0 < n {
        LoopTurn(limit, stream, markers, gathered, events, n);
        var chunk := stream.pending[..n];
        MarkedHasBytes(limit, stream.(pending := stream.pending[n..]), markers, gathered + chunk, events[1..]);
      }
    }
  }

  // ----- a job

  /** The command is written, and no failure is latched before its reply is read. */
  predicate Reads(link: Link, sc: Script) {
    Usable(link) && !sc.tripsBeforeSend && sc.write == Written && !sc.tripsBeforeRead
  }

  /** How the reading of the reply ends. */
  function Reading(limit: nat, link: Link, ex: Exchange, sc: Script): ReadEnd
    requires Usable(link)
  {
    var stream := link.connection.value;
    Loop(limit, if stream.alive then Stream(true, stream.pending + Tag(ex.id, ex.reply)) else stream,
         ex.responses.markers, [], sc.events)
  }

  /** Which of the errors answers a job that does not come to read. */
  lemma UnreadJobFails(limit: nat, link: Link, ex: Exchange, sc: Script)
    requires ex.responses.Valid() && !Reads(link, sc)
    ensures var (next, r) := RunJob(limit, link, ex, sc);
            var sends := Usable(link) && !sc.tripsBeforeSend;
            && r.data == [] && r.resultType == TypeNone
            && (r.err == Some(ConnectionRead) <==> sends && sc.write == Written)
            && (r.err == Some(DeadlineExceeded) <==> sends && sc.write == WriteTimeout && sc.redialOnWrite == Dialed)
            && (r.err == Some(ConnectionWrite) <==>
                !sends || sc.write == WriteFailure || sc.write == WriteDeadlineRefused
                || (sc.write == WriteTimeout && sc.redialOnWrite != Dialed))
            && (if r.err == Some(DeadlineExceeded) then next == HEALTHY else next.onFailure)
  {
  }

  /** And which of them answers one that does; the answer without an error holds all that was gathered. */
  lemma ReadJobFails(limit: nat, link: Link, ex: Exchange, sc: Script)
    requires ex.responses.Valid() && Reads(link, sc)
    ensures var (next, r) := RunJob(limit, link, ex, sc);
            var end := Reading(limit, link, ex, sc);
            && (r.err == Some(DeadlineExceeded) <==> end.stop == TimedOut && sc.redialOnRead == Dialed)
            && (r.err == Some(ConnectionIsClosed) <==> end.stop == TimedOut && sc.redialOnRead != Dialed)
            && (r.err == Some(Network) <==> end.stop == Failed || end.stop == Refused)
            && (r.err == Some(NoResponse) <==> end.stop == Ended && end.bytes == [])
            && (r.err == None <==> end.stop.Marked? || (end.stop == Ended && end.bytes != []))
            && (r.err == None ==> r.data == end.bytes)
            && (r.err.Some? ==> r.data == [])
  {
    var stream := Offered(link.connection.value, ex.id, ex.reply);
    LoopMarks(limit, stream, ex.responses.markers, [], sc.events);
    MarkedHasBytes(limit, stream, ex.responses.markers, [], sc.events);
  }

  /** What a job leaves, by the error that answers it. */
  predicate Leaves(next: Link, err: Option<Err>) {
    match err
    case None => Usable(next)
    case Some(DeadlineExceeded) => next == HEALTHY
    case Some(ConnectionIsClosed) => next == Link(None, false)
    case Some(ConnectionWrite) => next.onFailure
    case Some(ConnectionRead) => next.onFailure
    case Some(NoResponse) => next == Link(Some(DEAD), false)
    case Some(Network) => next == Link(Some(DEAD), false) || (next.connection.Some? && next.onFailure)
  }

  /**
    * From any link and under any script: a deadline leaves a fresh connection, a refused job a latched failure, a
    * failed redial none at all, and the end of the stream a connection that gives nothing any more.
    */
  lemma JobLeaves(limit: nat, link: Link, ex: Exchange, sc: Script)
    requires ex.responses.Valid()
    ensures var (next, r) := RunJob(limit, link, ex, sc);
            Leaves(next, r.err)
  {
    if Reads(link, sc) {
      var stream := Offered(link.connection.value, ex.id, ex.reply);
      LoopMarks(limit, stream, ex.responses.markers, [], sc.events);
      MarkedHasBytes(limit, stream, ex.responses.markers, [], sc.events);
      LoopGathers(limit, stream, ex.responses.markers, [], sc.events);
    }
  }

  // ----- a worker

  /** The link that the worker has before job `k`. */
  function LinkBefore(limit: nat, link: Link, exs: seq<Exchange>, scs: seq<Script>, k: nat): Link
    requires k <= |exs| == |scs| && ValidJobs(exs)
    decreases k
  {
    if k == 0 then link
    else LinkBefore(limit, RunJob(limit, link, exs[0], scs[0]).0, exs[1..], scs[1..], k - 1)
  }

  lemma {:induction false} LinkBeforeNext(limit: nat, link: Link, exs: seq<Exchange>, scs: seq<Script>, k: nat)
    requires k < |exs| == |scs| && ValidJobs(exs)
    ensures LinkBefore(limit, link, exs, scs, k + 1)
         == RunJob(limit, LinkBefore(limit, link, exs, scs, k), exs[k], scs[k]).0
    decreases k
  {
    if k == 0 {
      assert LinkBefore(limit, RunJob(limit, link, exs[0], scs[0]).0, exs[1..], scs[1..], 0)
          == RunJob(limit, link, exs[0], scs[0]).0;
    } else {
      LinkBeforeNext(limit, RunJob(limit, link, exs[0], scs[0]).0, exs[1..], scs[1..], k - 1);
    }
  }

  /** Every answer is that of one job, on the link that the job before has left. */
  ghost predicate InTurn(
    limit: nat, link: Link, exs: seq<Exchange>, scs: seq<Script>, rs: seq<Response>, last: Link)
    requires |exs| == |scs| && ValidJobs(exs)
  {
    && |rs| <= |exs| && last == LinkBefore(limit, link, exs, scs, |rs|)
    && forall k :: 0 <= k < |rs| ==> rs[k] == RunJob(limit, LinkBefore(limit, link, exs, scs, k), exs[k], scs[k]).1
  }

  lemma InTurnMore(
    limit: nat, link: Link, exs: seq<Exchange>, scs: seq<Script>, next: Link, r: Response, rest: seq<Response>,
    last: Link)
    requires 0 < |exs| == |scs| && ValidJobs(exs) && (next, r) == RunJob(limit, link, exs[0], scs[0])
    requires InTurn(limit, next, exs[1..], scs[1..], rest, last)
    ensures InTurn(limit, link, exs, scs, [r] + rest, last)
  {
    var rs := [r] + rest;
    forall k | 0 <= k < |rs| ensures rs[k] == RunJob(limit, LinkBefore(limit, link, exs, scs, k), exs[k], scs[k]).1 {
      if 0 < k {
        assert rs[k] == rest[k - 1];
      }
    }
  }

  lemma {:induction false} WorkerAnswersInTurn(
    limit: nat, link: Link, exs: seq<Exchange>, scs: seq<Script>, rebalances: bool)
    requires |exs| == |scs| && ValidJobs(exs)
    ensures var (rs, last) := RunJobs(limit, link, exs, scs, rebalances);
            InTurn(limit, link, exs, scs, rs, last)
    decreases |exs|
  {
    if exs != [] {
      var (next, r) := RunJob(limit, link, exs[0], scs[0]);
      assert InTurn(limit, next, exs[1..], scs[1..], [], next);
      InTurnMore(limit, link, exs, scs, next, r, [], next);
      WorkerAnswersInTurn(limit, next, exs[1..], scs[1..], rebalances);
      var (rest, last) := RunJobs(limit, next, exs[1..], scs[1..], rebalances);
      InTurnMore(limit, link, exs, scs, next, r, rest, last);
      assert [r] + [] == [r];
    }
  }

  /** The errors that mean a disconnection; a deadline is none of them. */
  predicate Disconnected(r: Response) {
    r.err.Some? && r.err.value in {NoResponse, ConnectionWrite, ConnectionRead}
  }

  /**
    * A worker leaves early only where disconnections trigger a rebalance, and then exactly behind the first job
    * that is answered with one of the three errors.
    */
  lemma {:induction false} WorkerLeavesExactlyWhen(
    limit: nat, link: Link, exs: seq<Exchange>, scs: seq<Script>, rebalances: bool)
    requires |exs| == |scs| && ValidJobs(exs)
    ensures var rs := RunJobs(limit, link, exs, scs, rebalances).0;
            && |rs| <= |exs| && (!rebalances ==> |rs| == |exs|)
            && (rebalances ==> forall k :: 0 <= k < |rs| && Disconnected(rs[k]) ==> k == |rs| - 1)
            && (|rs| < |exs| ==> rs != [] && Disconnected(rs[|rs| - 1]))
    decreases |exs|
  {
    if exs != [] {
      var (next, r) := RunJob(limit, link, exs[0], scs[0]);
      WorkerLeavesExactlyWhen(limit, next, exs[1..], scs[1..], rebalances);
    }
  }

  /** A deadline costs one job only: the next one finds the connection that a new worker would have. */
  lemma DeadlineHeals(limit: nat, link: Link, exs: seq<Exchange>, scs: seq<Script>, rebalances: bool, k: nat)
    requires |exs| == |scs| && ValidJobs(exs) && k < |exs|
    requires k < |RunJobs(limit, link, exs, scs, rebalances).0|
    requires RunJobs(limit, link, exs, scs, rebalances).0[k].err == Some(DeadlineExceeded)
    ensures var rs := RunJobs(limit, link, exs, scs, rebalances).0;
            k + 1 < |exs| ==> (k + 1 < |rs| && rs[k + 1] == RunJob(limit, HEALTHY, exs[k + 1], scs[k + 1]).1)
  {
    WorkerLeavesExactlyWhen(limit, link, exs, scs, rebalances);
    WorkerAnswersInTurn(limit, link, exs, scs, rebalances);
    JobLeaves(limit, LinkBefore(limit, link, exs, scs, k), exs[k], scs[k]);
    LinkBeforeNext(limit, link, exs, scs, k);
  }
}
