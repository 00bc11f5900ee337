/** Whether a job can be handed bytes that answer an earlier one. */
module StaleReplies {
  import opened Bytes
  import opened MarkerSearch
  import opened Replies
  import opened Telnet

  /** In a reply, the markers stand nowhere but at the end. */
  ghost predicate SuffixOnly(reply: Bytes, markers: seq<Bytes>) {
    forall i, k :: 0 <= i < |markers| && OccursAt(reply, markers[i], k) ==> k + |markers[i]| == |reply|
  }

  /** Between two jobs: no connection, or one that will not be read again, or one with nothing left to read. */
  predicate Clean(link: Link) {
    link.onFailure || link.connection.None? || link.connection.value.pending == []
  }

  // ----- one run of the reading loop

  /** Whatever happens, the loop has gathered a first part of what was on its way. */
  lemma {:induction false} LoopGathers(
    limit: nat, stream: Stream, markers: seq<Bytes>, gathered: seq<Tagged>, events: seq<ReadEvent>)
    ensures var end := Loop(limit, stream, markers, gathered, events);
            && end.bytes <= gathered + stream.pending
            && (end.stop.Marked? ==> end.bytes + end.stream.pending == gathered + stream.pending)
            && (end.stop.Ended? || end.stop.Refused? ==> end.stream == DEAD)
    decreases |events|
  {
    if events != [] && events[0].Chunk? {
      var n := Min(Min(events[0].size, limit), |stream.pending|);
      var chunk, rest := stream.pending[..n], stream.pending[n..];
      assert gathered + chunk + rest == gathered + stream.pending;
      LoopGathers(limit, stream.(pending := rest), markers, gathered + chunk, events[1..]);
    }
  }

  /** A marker found in a chunk of a reply that has it only at the end: the chunk is the last of the reply. */
  lemma MarkedChunkIsLast(before: seq<Tagged>, chunk: seq<Tagged>, after: seq<Tagged>, markers: seq<Bytes>, i: nat)
    requires SuffixOnly(Raw(before + chunk + after), markers)
    requires i < |markers| && Search(Raw(chunk), markers[i]) != -1
    ensures after == [] && EndsWith(Raw(before + chunk), markers[i])
  {
    var k := Search(Raw(chunk), markers[i]);
    SearchSound(Raw(chunk), markers[i]);
    assert OccursAt(Raw(before + chunk + after), markers[i], |before| + k);
    assert before + chunk + [] == before + chunk;
  }

  /** One turn of the loop that reads a chunk. */
  lemma LoopTurn(limit: nat, stream: Stream, markers: seq<Bytes>, gathered: seq<Tagged>, events: seq<ReadEvent>, n: nat)
    requires events != [] && events[0].Chunk? && n == Min(Min(events[0].size, limit), |stream.pending|) && 0 < n
    ensures var chunk := stream.pending[..n];
            var rest := stream.(pending := stream.pending[n..]);
            var i := FirstMarker(Raw(chunk), markers);
            Loop(limit, stream, markers, gathered, events) ==
            (if i < |markers| then ReadEnd(rest, gathered + chunk, Marked(i))
             else Loop(limit, rest, markers, gathered + chunk, events[1..]))
  {
  }

  /** Where the loop stops on a marker, the whole reply is gathered and that marker ends it. */
  lemma {:induction false} LoopStopsOnMarker(
    limit: nat, stream: Stream, markers: seq<Bytes>, gathered: seq<Tagged>, events: seq<ReadEvent>, whole: seq<Tagged>)
    requires gathered + stream.pending == whole && SuffixOnly(Raw(whole), markers)
    ensures var end := Loop(limit, stream, markers, gathered, events);
            end.stop.Marked? ==>
              && end.stop.index < |markers| && EndsWith(Raw(whole), markers[end.stop.index])
              && end.bytes == whole && end.stream.pending == []
    decreases |events|
  {
    if events != [] && events[0].Chunk? {
      var n := Min(Min(events[0].size, limit), |stream.pending|);
      if 0 < n {
        LoopTurn(limit, stream, markers, gathered, events, n);
        var chunk, rest := stream.pending[..n], stream.pending[n..];
        assert gathered + chunk + rest == whole;
        var i := FirstMarker(Raw(chunk), markers);
        if i < |markers| {
          MarkedChunkIsLast(gathered, chunk, rest, markers, i);
          assert gathered + chunk == whole;
        } else {
          LoopStopsOnMarker(limit, stream.(pending := rest), markers, gathered + chunk, events[1..], whole);
        }
      }
    }
  }

  // ----- one job

  /** The reply ends with a marker of that meaning. */
  predicate Announces(ex: Exchange, t: ResultType) {
    exists i :: 0 <= i < |ex.responses.markers| && i < |ex.responses.types|
      && EndsWith(ex.reply, ex.responses.markers[i]) && ex.responses.types[i] == t
  }

  /** The answer of a job holds nothing but its own reply: all of it when a marker ended it. */
  predicate Own(r: Response, ex: Exchange) {
    && r.data != [] && r.data <= Tag(ex.id, ex.reply)
    && (r.resultType != TypeNone ==> r.data == Tag(ex.id, ex.reply) && Announces(ex, r.resultType))
  }

  /** From a clean link, every script, and any reply: what is answered without error is the job's own. */
  lemma AnswerIsOwn(limit: nat, link: Link, ex: Exchange, sc: Script)
    requires ex.responses.Valid() && Clean(link)
    ensures var r := RunJob(limit, link, ex, sc).1;
            r.err.None? ==> r.data != [] && r.data <= Tag(ex.id, ex.reply)
  {
    var sent := AfterSend(Tripped(link, sc.tripsBeforeSend), ex.id, ex.reply, sc.write, sc.redialOnWrite).0;
    if sent.connection.Some? {
      LoopGathers(limit, sent.connection.value, ex.responses.markers, [], sc.events);
      assert [] + Tag(ex.id, ex.reply) == Tag(ex.id, ex.reply);
    }
  }

  /** From a clean link, and for a reply with its markers at the end, the job leaves a clean link. */
  lemma JobStaysClean(limit: nat, link: Link, ex: Exchange, sc: Script)
    requires ex.responses.Valid() && Clean(link)
    requires SuffixOnly(ex.reply, ex.responses.markers)
    ensures Clean(RunJob(limit, link, ex, sc).0)
    ensures var r := RunJob(limit, link, ex, sc).1;
            r.err.None? ==> Own(r, ex)
  {
    AnswerIsOwn(limit, link, ex, sc);
    var sent := AfterSend(Tripped(link, sc.tripsBeforeSend), ex.id, ex.reply, sc.write, sc.redialOnWrite).0;
    if sent.connection.Some? {
      var stream := sent.connection.value;
      assert [] + stream.pending == stream.pending;
      if sc.write.Written? && !sent.onFailure {
        assert stream.pending == [] || stream.pending == Tag(ex.id, ex.reply);
        assert Raw(Tag(ex.id, ex.reply)) == ex.reply;
        LoopStopsOnMarker(limit, stream, ex.responses.markers, [], sc.events, stream.pending);
        LoopGathers(limit, stream, ex.responses.markers, [], sc.events);
      }
    }
  }

  // ----- every run of a worker

  /**
    * No stale replies.  Over every list of jobs and every script of the network, what job k is answered
    * without error is taken from the reply to job k, and the connection is left clean.
    */
  lemma {:induction false} NoStaleReplies(
    limit: nat, link: Link, exs: seq<Exchange>, scs: seq<Script>, rebalances: bool)
    requires |exs| == |scs| && ValidJobs(exs) && Clean(link)
    requires forall k :: 0 <= k < |exs| ==> SuffixOnly(exs[k].reply, exs[k].responses.markers)
    ensures var (rs, last) := RunJobs(limit, link, exs, scs, rebalances);
            && Clean(last) && |rs| <= |exs|
            && forall k :: 0 <= k < |rs| && rs[k].err.None? ==> Own(rs[k], exs[k])
    decreases |exs|
  {
    if exs != [] {
      JobStaysClean(limit, link, exs[0], scs[0]);
      var next := RunJob(limit, link, exs[0], scs[0]).0;
      NoStaleReplies(limit, next, exs[1..], scs[1..], rebalances);
    }
  }

  // ----- the condition is exact

  /** The reading of `k` single bytes, and then something else. */
  function BytesThen(k: nat, events: seq<ReadEvent>): seq<ReadEvent> {
    if k == 0 then events else [Chunk(1)] + BytesThen(k - 1, events)
  }

  /** No marker is found in a single byte. */
  lemma NoMarkerInOneByte(chunk: Bytes, rs: ResponseSet)
    requires rs.Valid() && |chunk| == 1
    ensures FirstMarker(chunk, rs.markers) == |rs.markers|
  {
    var i := FirstMarker(chunk, rs.markers);
    if i < |rs.markers| {
      SearchSound(chunk, rs.markers[i]);
    }
  }

  /** A chunk that is a marker stops the loop. */
  lemma MarkerStops(chunk: Bytes, rs: ResponseSet, i: nat)
    requires rs.Valid() && i < |rs.markers| && OccursAt(chunk, rs.markers[i], 0) && |chunk| == |rs.markers[i]|
    ensures FirstMarker(chunk, rs.markers) < |rs.markers|
  {
    FindsEnding(chunk, rs.markers[i]);
  }

  /** The chunk of a marker's length stops the loop where the bytes on their way begin with that marker. */
  lemma LoopStopsBehindFirst(limit: nat, stream: Stream, rs: ResponseSet, gathered: seq<Tagged>, i: nat)
    requires rs.Valid() && i < |rs.markers| && |rs.markers[i]| <= limit
    requires OccursAt(Raw(stream.pending), rs.markers[i], 0)
    ensures var n := |rs.markers[i]|;
            var end := Loop(limit, stream, rs.markers, gathered, [Chunk(n)]);
            end.stop.Marked? && end.stream == stream.(pending := stream.pending[n..])
  {
    var n := |rs.markers[i]|;
    LoopTurn(limit, stream, rs.markers, gathered, [Chunk(n)], n);
    MarkerStops(Raw(stream.pending[..n]), rs, i);
  }

  /** A single byte never stops the loop. */
  lemma LoopPassesByte(limit: nat, stream: Stream, rs: ResponseSet, gathered: seq<Tagged>, events: seq<ReadEvent>)
    requires rs.Valid() && 0 < limit && stream.pending != []
    ensures Loop(limit, stream, rs.markers, gathered, [Chunk(1)] + events)
         == Loop(limit, stream.(pending := stream.pending[1..]), rs.markers, gathered + stream.pending[..1], events)
  {
    LoopTurn(limit, stream, rs.markers, gathered, [Chunk(1)] + events, 1);
    NoMarkerInOneByte(Raw(stream.pending[..1]), rs);
    assert ([Chunk(1)] + events)[1..] == events;
  }

  lemma SlicesCompose(gathered: seq<Tagged>, p: seq<Tagged>, k: nat)
    requires 0 < k <= |p|
    ensures p[1..][k - 1..] == p[k..]
    ensures gathered + p[..1] + p[1..][..k - 1] == gathered + p[..k]
  {
  }

  lemma {:induction false} LoopPassesBytes(
    limit: nat, stream: Stream, rs: ResponseSet, gathered: seq<Tagged>, k: nat, events: seq<ReadEvent>)
    requires rs.Valid() && 0 < limit && k <= |stream.pending|
    ensures Loop(limit, stream, rs.markers, gathered, BytesThen(k, events))
         == Loop(limit, stream.(pending := stream.pending[k..]), rs.markers, gathered + stream.pending[..k], events)
    decreases k
  {
    var p := stream.pending;
    if k == 0 {
      assert gathered + p[..0] == gathered && p[0..] == p;
    } else {
      LoopPassesByte(limit, stream, rs, gathered, BytesThen(k - 1, events));
      LoopPassesBytes(limit, stream.(pending := p[1..]), rs, gathered + p[..1], k - 1, events);
      SlicesCompose(gathered, p, k);
    }
  }

  /** Chunks can be cut so that the loop stops right behind a marker, wherever the marker stands. */
  lemma LoopCanStopBehind(limit: nat, stream: Stream, rs: ResponseSet, i: nat, k: nat)
    requires rs.Valid() && i < |rs.markers| && |rs.markers[i]| <= limit
    requires OccursAt(Raw(stream.pending), rs.markers[i], k)
    ensures var end := Loop(limit, stream, rs.markers, [], BytesThen(k, [Chunk(|rs.markers[i]|)]));
            end.stop.Marked? && end.stream == stream.(pending := stream.pending[k + |rs.markers[i]|..])
  {
    var n, p := |rs.markers[i]|, stream.pending;
    LoopPassesBytes(limit, stream, rs, [], k, [Chunk(n)]);
    assert OccursAt(Raw(p[k..]), rs.markers[i], 0);
    LoopStopsBehindFirst(limit, stream.(pending := p[k..]), rs, [] + p[..k], i);
    assert p[k..][n..] == p[k + n..];
  }

  /** The script in which nothing fails and the reply comes as `events` says. */
  function Calm(events: seq<ReadEvent>): Script {
    Script(false, Written, Dialed, false, events, Dialed)
  }

  ghost predicate FitsBuffer(limit: nat, rs: ResponseSet) {
    forall i :: 0 <= i < |rs.markers| ==> |rs.markers[i]| <= limit
  }

  /** A marker inside the reply: some cutting leaves the bytes behind it for the next job. */
  lemma MarkerInsideLeavesBytes(limit: nat, ex: Exchange) returns (sc: Script)
    requires ex.responses.Valid() && FitsBuffer(limit, ex.responses)
    requires !SuffixOnly(ex.reply, ex.responses.markers)
    ensures var next := RunJob(limit, HEALTHY, ex, sc).0;
            && next.connection.Some? && !next.onFailure && next.connection.value.alive
            && next.connection.value.pending != [] && next.connection.value.pending[0].job == ex.id
  {
    var i, k :| 0 <= i < |ex.responses.markers| && OccursAt(ex.reply, ex.responses.markers[i], k)
                && k + |ex.responses.markers[i]| != |ex.reply|;
    var pending := Tag(ex.id, ex.reply);
    assert Raw(pending) == ex.reply;
    assert [] + pending == pending;
    LoopCanStopBehind(limit, Stream(true, pending), ex.responses, i, k);
    sc := Calm(BytesThen(k, [Chunk(|ex.responses.markers[i]|)]));
  }

  /** A job leaves a clean link under every script exactly when its reply has its markers at the end only. */
  lemma CleanExactlyWhen(limit: nat, ex: Exchange)
    requires ex.responses.Valid() && FitsBuffer(limit, ex.responses)
    ensures (forall sc :: Clean(RunJob(limit, HEALTHY, ex, sc).0)) <==> SuffixOnly(ex.reply, ex.responses.markers)
  {
    if SuffixOnly(ex.reply, ex.responses.markers) {
      forall sc ensures Clean(RunJob(limit, HEALTHY, ex, sc).0) {
        JobStaysClean(limit, HEALTHY, ex, sc);
      }
    } else {
      var sc := MarkerInsideLeavesBytes(limit, ex);
      assert !Clean(RunJob(limit, HEALTHY, ex, sc).0);
    }
  }

  /** The second of two jobs is answered, without error, with a byte of the reply to the first. */
  ghost predicate GetsStaleByte(limit: nat, first: Exchange, second: Exchange, sc1: Script, sc2: Script)
    requires first.responses.Valid() && second.responses.Valid()
  {
    var next := RunJob(limit, HEALTHY, first, sc1).0;
    var r := RunJob(limit, next, second, sc2).1;
    r.err.None? && exists i :: 0 <= i < |r.data| && r.data[i].job == first.id
  }

  /** Left-over bytes are read by the next job: one byte, then the end of the stream. */
  lemma LeftOverIsRead(limit: nat, link: Link, first: Exchange, second: Exchange)
    requires 0 < limit && second.responses.Valid()
    requires link.connection.Some? && !link.onFailure
    requires link.connection.value.pending != [] && link.connection.value.pending[0].job == first.id
    ensures var r := RunJob(limit, link, second, Calm([Chunk(1), EndOfFile])).1;
            r.err.None? && r.data == link.connection.value.pending[..1]
  {
    var stale := link.connection.value.pending;
    var stream := AfterSend(link, second.id, second.reply, Written, Dialed).0.connection.value;
    var chunk := stream.pending[..1];
    assert chunk == stale[..1];
    var events := [Chunk(1), EndOfFile];
    var i := FirstMarker(Raw(chunk), second.responses.markers);
    if i < |second.responses.markers| {
      SearchSound(Raw(chunk), second.responses.markers[i]);
    }
    assert events[1..] == [EndOfFile];
    assert [] + chunk == chunk;
  }

  /**
    * A later job can be handed a stale byte exactly when the reply to the earlier one has a marker
    * before its end.
    */
  lemma StaleExactlyWhen(limit: nat, first: Exchange, second: Exchange)
    requires 0 < limit && first.id != second.id
    requires first.responses.Valid() && second.responses.Valid() && FitsBuffer(limit, first.responses)
    ensures (exists sc1, sc2 :: GetsStaleByte(limit, first, second, sc1, sc2))
       <==> !SuffixOnly(first.reply, first.responses.markers)
  {
    if SuffixOnly(first.reply, first.responses.markers) {
      forall sc1, sc2 ensures !GetsStaleByte(limit, first, second, sc1, sc2) {
        JobStaysClean(limit, HEALTHY, first, sc1);
        var next := RunJob(limit, HEALTHY, first, sc1).0;
        AnswerIsOwn(limit, next, second, sc2);
      }
    } else {
      var sc1 := MarkerInsideLeavesBytes(limit, first);
      var sc2 := Calm([Chunk(1), EndOfFile]);
      var next := RunJob(limit, HEALTHY, first, sc1).0;
      LeftOverIsRead(limit, next, first, second);
      assert RunJob(limit, next, second, sc2).1.data[0].job == first.id;
      assert GetsStaleByte(limit, first, second, sc1, sc2);
    }
  }

  // ----- the absent connection

  /** The command was written, its reply is waited for in vain, and the redial fails. */
  predicate LosesConnection(limit: nat, link: Link, ex: Exchange, sc: Script) {
    && !link.onFailure && link.connection.Some?
    && !sc.tripsBeforeSend && sc.write.Written? && !sc.tripsBeforeRead && !sc.redialOnRead.Dialed?
    && var sent := AfterSend(link, ex.id, ex.reply, sc.write, sc.redialOnWrite).0;
       Loop(limit, sent.connection.value, ex.responses.markers, [], sc.events).stop.TimedOut?
  }

  /** A job reports a closed connection exactly when it loses its own, and then leaves none. */
  lemma ClosedErrorExactlyWhen(limit: nat, link: Link, ex: Exchange, sc: Script)
    requires ex.responses.Valid()
    ensures var (next, r) := RunJob(limit, link, ex, sc);
            && (r.err == Some(ConnectionIsClosed) <==> LosesConnection(limit, link, ex, sc))
            && (r.err == Some(ConnectionIsClosed) ==> next == Link(None, false))
  {
    var sent := AfterSend(Tripped(link, sc.tripsBeforeSend), ex.id, ex.reply, sc.write, sc.redialOnWrite).0;
    if sent.connection.Some? {
      LoopMarks(limit, sent.connection.value, ex.responses.markers, [], sc.events);
    }
  }

  /**
    * Where a redial failed there is no connection, and the next job latches the failure; from then on, and
    * where the failure was latched before, no job reads anything: each one is refused with a write error.
    */
  lemma {:induction false} NoReadOnceLost(
    limit: nat, link: Link, exs: seq<Exchange>, scs: seq<Script>, rebalances: bool)
    requires |exs| == |scs| && ValidJobs(exs) && (link.connection.None? || link.onFailure)
    ensures var (rs, last) := RunJobs(limit, link, exs, scs, rebalances);
            && (forall k :: 0 <= k < |rs| ==> rs[k] == Response(TypeNone, [], Some(ConnectionWrite)))
            && |rs| == (if rebalances && exs != [] then 1 else |exs|) && (exs != [] ==> last.onFailure)
    decreases |exs|
  {
    if exs != [] {
      var next := RunJob(limit, link, exs[0], scs[0]).0;
      assert next.onFailure;
      NoReadOnceLost(limit, next, exs[1..], scs[1..], rebalances);
    }
  }
}
