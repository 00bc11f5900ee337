/** Which replies the reading loop can delimit, and under which cuttings into chunks it does. */
module Framing {
  import opened Bytes
  import opened Decimal
  import opened MarkerSearch
  import opened Replies
  import opened Telnet
  import opened StaleReplies

  // ----- replies with their markers at the end only

  predicate FeedOnlyAtEnd(s: Bytes) {
    s != [] && s[|s| - 1] == LF && forall i :: 0 <= i < |s| - 1 ==> s[i] != LF
  }

  /** One-line replies: STORED, NOT_STORED, DELETED, NOT_FOUND, END and the error lines. */
  lemma LineIsSuffixOnly(line: Bytes, markers: seq<Bytes>)
    requires FeedOnlyAtEnd(line)
    requires forall i :: 0 <= i < |markers| ==> FeedOnlyAtEnd(markers[i])
    ensures SuffixOnly(line, markers)
  {
    forall i, k | 0 <= i < |markers| && OccursAt(line, markers[i], k) ensures k + |markers[i]| == |line| {
      var m := markers[i];
      assert m[|m| - 1] == line[k + (|m| - 1)];
    }
  }

  /** The header of a get reply has one line feed, and a digit two bytes before it. */
  lemma HeaderFeed(key: Bytes, flags: Bytes, length: nat)
    requires Lacks(key, LF) && AllDigits(flags)
    ensures var h := ValueHeader(key, flags, length);
            FeedOnlyAtEnd(h) && 3 <= |h| && IsDigit(h[|h| - 3])
  {
    var n := Digits(length);
    var p := VALUE + [SPACE] + key + [SPACE] + flags + [SPACE];
    DigitsHaveNone(length, LF);
    assert Lacks(flags, LF) by {
      assert forall i :: 0 <= i < |flags| ==> IsDigit(flags[i]);
    }
    assert Lacks(p, LF);
    var h := p + n + CRLF;
    assert h == ValueHeader(key, flags, length);
    assert h[|h| - 3] == n[|n| - 1];
    assert IsDigit(n[|n| - 1]);
  }

  /** END CR LF ends nowhere in the header, and not across its end. */
  lemma EndStandsBehindHeader(key: Bytes, flags: Bytes, length: nat, body: Bytes, k: nat)
    requires Lacks(key, LF) && AllDigits(flags)
    requires OccursAt(ValueHeader(key, flags, length) + body, END_DB, k)
    ensures |ValueHeader(key, flags, length)| <= k
  {
    var h := ValueHeader(key, flags, length);
    var s := h + body;
    HeaderFeed(key, flags, length);
    assert END_DB[4] == s[k + 4] && END_DB[2] == s[k + 2] && END_DB[3] == s[k + 3];
    assert END_DB[0] == s[k] && END_DB[1] == s[k + 1];
    assert s[|h| - 1] == h[|h| - 1] == LF;
    assert s[|h| - 3] == h[|h| - 3];
    assert forall i :: 0 <= i < |h| - 1 ==> s[i] == h[i] != LF;
  }

  /** In a data block and its ending, END CR LF at the very end aside, it stands in the block or nowhere. */
  lemma EndInBody(data: Bytes, k: nat)
    ensures OccursAt(data + CRLF + END_DB, END_DB, k) && k != |data| + 2 <==> OccursAt(data + CRLF, END_DB, k)
  {
    var body := data + CRLF + END_DB;
    var d := data + CRLF;
    if OccursAt(body, END_DB, k) {
      assert END_DB[4] == body[k + 4];
      assert forall i :: 0 <= i < 5 ==> body[|d| + i] == END_DB[i];
    }
    assert forall i :: 0 <= i < |d| ==> body[i] == d[i];
  }

  /**
    * The reply to a get has its marker at the end only, exactly when END CR LF does not stand in the
    * data and the line break behind it.
    */
  lemma GetReplyIsSuffixOnlyExactlyWhen(key: Bytes, flags: Bytes, data: Bytes)
    requires Lacks(key, LF) && AllDigits(flags)
    ensures SuffixOnly(ValueReply(key, flags, data), GET_SET.markers) <==> !Occurs(data + CRLF, END_DB)
  {
    var h := ValueHeader(key, flags, |data|);
    var body := data + CRLF + END_DB;
    var s := ValueReply(key, flags, data);
    if Occurs(data + CRLF, END_DB) {
      var k :| OccursAt(data + CRLF, END_DB, k);
      EndInBody(data, k);
      assert OccursAt(s, GET_SET.markers[0], |h| + k);
    } else {
      forall i, k | 0 <= i < |GET_SET.markers| && OccursAt(s, GET_SET.markers[i], k)
        ensures k + |GET_SET.markers[i]| == |s|
      {
        EndStandsBehindHeader(key, flags, |data|, body, k);
        assert OccursAt(body, END_DB, k - |h|);
        EndInBody(data, k - |h|);
      }
    }
  }

  /** For data without CR, such as encoded data, that is: exactly when the data does not end in END. */
  lemma EndBehindPlainData(data: Bytes)
    requires Lacks(data, CR)
    ensures Occurs(data + CRLF, END_DB) <==> EndsWith(data, END)
  {
    var d := data + CRLF;
    if Occurs(d, END_DB) {
      var k :| OccursAt(d, END_DB, k);
      assert END_DB[3] == d[k + 3];
      assert END_DB[0] == d[k] && END_DB[1] == d[k + 1] && END_DB[2] == d[k + 2];
      assert k + 3 == |data|;
    }
    if EndsWith(data, END) {
      var k := |data| - 3;
      assert END[0] == data[k + 0] && END[1] == data[k + 1] && END[2] == data[k + 2];
      assert OccursAt(d, END_DB, k);
    }
  }

  // ----- cuttings

  /** A cutting of `n` bytes into non-empty chunks that fit the read buffer. */
  predicate Cuts(n: nat, limit: nat, sizes: seq<nat>) {
    sizes != [] && 1 <= sizes[0] <= limit && sizes[0] <= n
    && if |sizes| == 1 then sizes[0] == n else Cuts(n - sizes[0], limit, sizes[1..])
  }

  function Chunks(sizes: seq<nat>): (events: seq<ReadEvent>)
    ensures |events| == |sizes|
  {
    if sizes == [] then [] else [Chunk(sizes[0])] + Chunks(sizes[1..])
  }

  function LastSize(sizes: seq<nat>): nat
    requires sizes != []
  {
    sizes[|sizes| - 1]
  }

  lemma {:induction false} LastIsPartOfAll(n: nat, limit: nat, sizes: seq<nat>)
    requires Cuts(n, limit, sizes)
    ensures LastSize(sizes) <= n && (1 < |sizes| ==> LastSize(sizes) < n)
    decreases |sizes|
  {
    if 1 < |sizes| {
      LastIsPartOfAll(n - sizes[0], limit, sizes[1..]);
    }
  }

  /** Where a text has its markers at the end only, the search finds exactly those that it ends with. */
  lemma FoundIsEnding(s: Bytes, rs: ResponseSet, i: nat)
    requires rs.Valid() && SuffixOnly(s, rs.markers) && i < |rs.markers|
    ensures Search(s, rs.markers[i]) != -1 <==> EndsWith(s, rs.markers[i])
  {
    if Search(s, rs.markers[i]) != -1 {
      SearchSound(s, rs.markers[i]);
    }
    if EndsWith(s, rs.markers[i]) {
      FindsEnding(s, rs.markers[i]);
    }
  }

  lemma TailIsSuffixOnly(s: Bytes, markers: seq<Bytes>, from: nat)
    requires SuffixOnly(s, markers) && from <= |s|
    ensures SuffixOnly(s[from..], markers)
  {
    forall i, k | 0 <= i < |markers| && OccursAt(s[from..], markers[i], k) ensures k + |markers[i]| == |s| - from {
      assert OccursAt(s, markers[i], from + k);
    }
  }

  lemma NoMarkerBeforeEnd(s: Bytes, rs: ResponseSet, n: nat)
    requires rs.Valid() && SuffixOnly(s, rs.markers) && n < |s|
    ensures FirstMarker(s[..n], rs.markers) == |rs.markers|
  {
    var i := FirstMarker(s[..n], rs.markers);
    assert forall j, k :: 0 <= j < |rs.markers| && OccursAt(s[..n], rs.markers[j], k) ==> OccursAt(s, rs.markers[j], k);
    if i < |rs.markers| {
      SearchSound(s[..n], rs.markers[i]);
    }
  }

  /** In the last bytes of a reply, the markers found are those of the reply that fit. */
  lemma MarkersOfTail(reply: Bytes, rs: ResponseSet, last: nat)
    requires rs.Valid() && SuffixOnly(reply, rs.markers) && last <= |reply|
    ensures forall i :: 0 <= i < |rs.markers| ==>
              (Search(reply[|reply| - last..], rs.markers[i]) != -1
               <==> Search(reply, rs.markers[i]) != -1 && |rs.markers[i]| <= last)
  {
    var tail := reply[|reply| - last..];
    TailIsSuffixOnly(reply, rs.markers, |reply| - last);
    forall i | 0 <= i < |rs.markers|
      ensures Search(tail, rs.markers[i]) != -1 <==> Search(reply, rs.markers[i]) != -1 && |rs.markers[i]| <= last
    {
      FoundIsEnding(tail, rs, i);
      FoundIsEnding(reply, rs, i);
    }
  }

  /** The marker that counts in a reply is the one that counts in its last bytes, exactly when it fits there. */
  lemma FirstMarkerOfTail(reply: Bytes, rs: ResponseSet, last: nat)
    requires rs.Valid() && SuffixOnly(reply, rs.markers) && last <= |reply|
    requires FirstMarker(reply, rs.markers) < |rs.markers|
    ensures var i := FirstMarker(reply, rs.markers);
            FirstMarker(reply[|reply| - last..], rs.markers) == i <==> |rs.markers[i]| <= last
  {
    MarkersOfTail(reply, rs, last);
  }

  /**
    * How a reply that comes in these chunks is read: the chunks before the last hold no marker, and the
    * last one holds the marker number `i` of the set first, or none when `i` is the number of markers.
    */
  predicate ReadsAs(limit: nat, rs: ResponseSet, reply: Bytes, sizes: seq<nat>, i: nat)
    decreases |sizes|
  {
    sizes != [] && 1 <= sizes[0] <= limit && sizes[0] <= |reply|
    && if |sizes| == 1 then sizes[0] == |reply| && FirstMarker(reply, rs.markers) == i
       else
         && FirstMarker(reply[..sizes[0]], rs.markers) == |rs.markers|
         && ReadsAs(limit, rs, reply[sizes[0]..], sizes[1..], i)
  }

  /** The reading loop does so: it returns the whole reply, or waits in vain for a marker. */
  lemma {:induction false} ReadsAsLoop(
    limit: nat, pending: seq<Tagged>, rs: ResponseSet, gathered: seq<Tagged>, sizes: seq<nat>, i: nat)
    requires ReadsAs(limit, rs, Raw(pending), sizes, i)
    ensures Loop(limit, Stream(true, pending), rs.markers, gathered, Chunks(sizes))
         == ReadEnd(FRESH, gathered + pending, if i < |rs.markers| then Marked(i) else TimedOut)
    decreases |sizes|
  {
    var n := sizes[0];
    var chunk, rest := pending[..n], pending[n..];
    assert Chunks(sizes)[1..] == Chunks(sizes[1..]);
    LoopTurn(limit, Stream(true, pending), rs.markers, gathered, Chunks(sizes), n);
    assert Raw(chunk) == Raw(pending)[..n];
    if |sizes| == 1 {
      assert chunk == pending && rest == [];
    } else {
      assert Raw(rest) == Raw(pending)[n..];
      ReadsAsLoop(limit, rest, rs, gathered + chunk, sizes[1..], i);
      assert gathered + chunk + rest == gathered + pending;
    }
  }

  lemma ReadsAsFrom(limit: nat, rs: ResponseSet, reply: Bytes, sizes: seq<nat>, i: nat)
    requires 1 < |sizes| && 1 <= sizes[0] <= limit && sizes[0] <= |reply|
    requires FirstMarker(reply[..sizes[0]], rs.markers) == |rs.markers|
    requires ReadsAs(limit, rs, reply[sizes[0]..], sizes[1..], i)
    ensures ReadsAs(limit, rs, reply, sizes, i)
  {
  }

  lemma LastBytesOfRest(reply: Bytes, n: nat, last: nat)
    requires n + last <= |reply|
    ensures reply[n..][|reply[n..]| - last..] == reply[|reply| - last..]
  {
  }

  /** For a reply with its markers at the end only, the last chunk alone decides. */
  lemma {:induction false} LastChunkDecides(limit: nat, rs: ResponseSet, reply: Bytes, sizes: seq<nat>)
    requires rs.Valid() && SuffixOnly(reply, rs.markers) && Cuts(|reply|, limit, sizes)
    ensures LastSize(sizes) <= |reply|
    ensures ReadsAs(limit, rs, reply, sizes, FirstMarker(reply[|reply| - LastSize(sizes)..], rs.markers))
    decreases |sizes|
  {
    var n := sizes[0];
    LastIsPartOfAll(|reply|, limit, sizes);
    if |sizes| == 1 {
      assert reply[0..] == reply;
    } else {
      NoMarkerBeforeEnd(reply, rs, n);
      TailIsSuffixOnly(reply, rs.markers, n);
      LastChunkDecides(limit, rs, reply[n..], sizes[1..]);
      assert LastSize(sizes[1..]) == LastSize(sizes);
      LastBytesOfRest(reply, n, LastSize(sizes));
      ReadsAsFrom(limit, rs, reply, sizes, FirstMarker(reply[|reply| - LastSize(sizes)..], rs.markers));
    }
  }

  /** What the loop makes of it, then. */
  lemma CutReplyIsRead(limit: nat, reply: Bytes, job: nat, rs: ResponseSet, sizes: seq<nat>)
    requires rs.Valid() && SuffixOnly(reply, rs.markers) && Cuts(|reply|, limit, sizes)
    ensures LastSize(sizes) <= |reply|
    ensures var i := FirstMarker(reply[|reply| - LastSize(sizes)..], rs.markers);
            Loop(limit, Stream(true, Tag(job, reply)), rs.markers, [], Chunks(sizes)) ==
            ReadEnd(FRESH, Tag(job, reply), if i < |rs.markers| then Marked(i) else TimedOut)
  {
    var pending := Tag(job, reply);
    assert Raw(pending) == reply;
    LastChunkDecides(limit, rs, reply, sizes);
    ReadsAsLoop(limit, pending, rs, [], sizes, FirstMarker(reply[|reply| - LastSize(sizes)..], rs.markers));
    assert [] + pending == pending;
  }

  /**
    * Chunking independence.  A reply with its markers at the end only is returned whole, and with the
    * meaning it has when it comes in one piece, exactly when the last chunk holds the marker that is
    * first found in the reply.
    */
  lemma ChunkingExactlyWhen(limit: nat, reply: Bytes, job: nat, rs: ResponseSet, sizes: seq<nat>)
    requires rs.Valid() && SuffixOnly(reply, rs.markers) && Cuts(|reply|, limit, sizes)
    requires FirstMarker(reply, rs.markers) < |rs.markers|
    ensures var i := FirstMarker(reply, rs.markers);
            Loop(limit, Stream(true, Tag(job, reply)), rs.markers, [], Chunks(sizes)) ==
            ReadEnd(FRESH, Tag(job, reply), Marked(i))
            <==> |rs.markers[i]| <= LastSize(sizes)
  {
    CutReplyIsRead(limit, reply, job, rs, sizes);
    FirstMarkerOfTail(reply, rs, LastSize(sizes));
  }

  /** Every cutting whose last chunk holds the marker that counts reads the reply as it is in one piece. */
  lemma CuttingReadsWhole(limit: nat, rs: ResponseSet, reply: Bytes, sizes: seq<nat>)
    requires rs.Valid() && SuffixOnly(reply, rs.markers) && Cuts(|reply|, limit, sizes)
    requires FirstMarker(reply, rs.markers) < |rs.markers|
    requires |rs.markers[FirstMarker(reply, rs.markers)]| <= LastSize(sizes)
    ensures ReadsAs(limit, rs, reply, sizes, FirstMarker(reply, rs.markers))
  {
    LastChunkDecides(limit, rs, reply, sizes);
    FirstMarkerOfTail(reply, rs, LastSize(sizes));
  }

  lemma MarkersOfNotStored(last: nat)
    requires last <= |NOT_STORED_DB|
    ensures SuffixOnly(NOT_STORED_DB, STORED_SET.markers)
    ensures FirstMarker(NOT_STORED_DB[|NOT_STORED_DB| - last..], STORED_SET.markers)
         == if last == |NOT_STORED_DB| then 0 else if |STORED_DB| <= last then 1 else 2
  {
    LineIsSuffixOnly(NOT_STORED_DB, STORED_SET.markers);
    FindsEnding(NOT_STORED_DB, NOT_STORED_DB);
    FindsEnding(NOT_STORED_DB, STORED_DB);
    MarkersOfTail(NOT_STORED_DB, STORED_SET, last);
    var tail := NOT_STORED_DB[|NOT_STORED_DB| - last..];
    assert STORED_SET.markers[0] == NOT_STORED_DB && STORED_SET.markers[1] == STORED_DB;
  }

  /**
    * NOT_STORED ends with STORED, so the order of the markers and the size of the last chunk decide: the
    * reply means "not stored" in one piece only; when its last chunk has 8 to 11 bytes it is taken for
    * "stored"; when it has fewer the read times out.
    */
  lemma NotStoredIsRead(limit: nat, job: nat, sizes: seq<nat>)
    requires Cuts(|NOT_STORED_DB|, limit, sizes)
    ensures var end := Loop(limit, Stream(true, Tag(job, NOT_STORED_DB)), STORED_SET.markers, [], Chunks(sizes));
            && (end.stop == Marked(0) <==> |sizes| == 1)
            && (end.stop == Marked(1) <==> 1 < |sizes| && |STORED_DB| <= LastSize(sizes))
            && (end.stop == TimedOut <==> LastSize(sizes) < |STORED_DB|)
  {
    LastIsPartOfAll(|NOT_STORED_DB|, limit, sizes);
    MarkersOfNotStored(LastSize(sizes));
    CutReplyIsRead(limit, NOT_STORED_DB, job, STORED_SET, sizes);
  }

  /** A framed reply: it comes in chunks that are read as the whole reply is in one piece. */
  predicate Framed(limit: nat, rs: ResponseSet, reply: Bytes, sizes: seq<nat>) {
    var i := FirstMarker(reply, rs.markers);
    i < |rs.markers| && ReadsAs(limit, rs, reply, sizes, i)
  }

  /** A reply that comes in one piece is framed, even with markers inside. */
  lemma OnePieceIsFramed(limit: nat, rs: ResponseSet, reply: Bytes)
    requires reply != [] && |reply| <= limit && FirstMarker(reply, rs.markers) < |rs.markers|
    ensures Framed(limit, rs, reply, [|reply|])
  {
  }

  /** On a healthy link and a calm network, a job is the reading of its own reply. */
  lemma CalmJob(limit: nat, ex: Exchange, events: seq<ReadEvent>)
    requires ex.responses.Valid()
    ensures var link := Link(Some(Stream(true, Tag(ex.id, ex.reply))), false);
            var (done, r) := AfterRead(limit, link, ex.responses, events, Dialed);
            RunJob(limit, HEALTHY, ex, Calm(events)) == (done, Checked(r))
  {
    assert [] + Tag(ex.id, ex.reply) == Tag(ex.id, ex.reply);
  }

  lemma CalmJobAnswers(limit: nat, ex: Exchange, events: seq<ReadEvent>, done: Link, r: ReadResult)
    requires ex.responses.Valid()
    requires var link := Link(Some(Stream(true, Tag(ex.id, ex.reply))), false);
             AfterRead(limit, link, ex.responses, events, Dialed) == (done, r)
    ensures RunJob(limit, HEALTHY, ex, Calm(events)) == (done, Checked(r))
  {
    CalmJob(limit, ex, events);
  }

  lemma FramedRead(limit: nat, pending: seq<Tagged>, rs: ResponseSet, sizes: seq<nat>)
    requires rs.Valid() && Framed(limit, rs, Raw(pending), sizes)
    ensures pending != []
    ensures AfterRead(limit, Link(Some(Stream(true, pending)), false), rs, Chunks(sizes), Dialed)
         == (HEALTHY, ReadResult(pending, rs.types[FirstMarker(Raw(pending), rs.markers)], None))
  {
    ReadsAsLoop(limit, pending, rs, [], sizes, FirstMarker(Raw(pending), rs.markers));
    assert [] + pending == pending;
  }

  /** A job on a healthy link, whose reply is framed, answers the whole reply and leaves the link healthy. */
  lemma FramedJob(limit: nat, ex: Exchange, sizes: seq<nat>)
    requires ex.responses.Valid() && Framed(limit, ex.responses, ex.reply, sizes)
    ensures RunJob(limit, HEALTHY, ex, Calm(Chunks(sizes)))
         == (HEALTHY,
             Response(ex.responses.types[FirstMarker(ex.reply, ex.responses.markers)], Tag(ex.id, ex.reply), None))
  {
    var pending := Tag(ex.id, ex.reply);
    var t := ex.responses.types[FirstMarker(ex.reply, ex.responses.markers)];
    assert Raw(pending) == ex.reply;
    FramedRead(limit, pending, ex.responses, sizes);
    CalmJobAnswers(limit, ex, Chunks(sizes), HEALTHY, ReadResult(pending, t, None));
  }
}
