/** The replies a memcached server prints, and the client's reading of a get reply (extractGetCmdValue). */
module Replies {
  import opened Bytes
  import opened Decimal

  const END: Bytes := [69, 78, 68]                                     // END
  const VALUE: Bytes := [86, 65, 76, 85, 69]                           // VALUE
  const END_DB: Bytes := [69, 78, 68, CR, LF]                          // END CR LF
  const STORED_DB: Bytes := [83, 84, 79, 82, 69, 68, CR, LF]           // STORED CR LF
  const NOT_STORED_DB: Bytes := [78, 79, 84, 95] + STORED_DB           // NOT_STORED CR LF
  const NOT_FOUND_DB: Bytes := [78, 79, 84, 95, 70, 79, 85, 78, 68, CR, LF]  // NOT_FOUND CR LF
  const DELETED_DB: Bytes := [68, 69, 76, 69, 84, 69, 68, CR, LF]      // DELETED CR LF
  const ERROR_DB: Bytes := [69, 82, 82, 79, 82, CR, LF]                // ERROR CR LF

  /** "VALUE <key> <flags> <bytes> CR LF", section "Retrieval command" of doc/protocol.txt. */
  function ValueHeader(key: Bytes, flags: Bytes, length: nat): Bytes {
    VALUE + [SPACE] + key + [SPACE] + flags + [SPACE] + Digits(length) + CRLF
  }

  function ValueReply(key: Bytes, flags: Bytes, data: Bytes): Bytes {
    ValueHeader(key, flags, |data|) + (data + CRLF + END_DB)
  }

  datatype Malformed =
    | NoValueProtocol
    | NoSpaceBeforeKey
    | NoSpaceAfterKey
    | NoLineBreakAfterLength
    | BadLength

  /** OutOfBounds: an index past the end of the reply or a slice past its capacity, which is a Go panic. */
  datatype Extracted = Missing | Found(data: Bytes) | Wrong(reason: Malformed) | OutOfBounds

  predicate IsBreak(b: byte) {
    b == CR || b == LF
  }

  /** How far `s` agrees with `word`, byte by byte, from offset `from` on. */
  function Agrees(s: Bytes, word: Bytes, from: nat): (k: nat)
    requires from <= |word|
    ensures from <= k <= |word|
    decreases |word| - from
  {
    if from == |word| || from >= |s| || s[from] != word[from] then from else Agrees(s, word, from + 1)
  }

  /** The first line break from `from` on whose next byte is one too, or does not exist. */
  function BreakFrom(s: Bytes, from: nat): (k: nat)
    requires from <= |s|
    ensures from <= k <= |s|
    decreases |s| - from
  {
    if from == |s| || (IsBreak(s[from]) && (from + 1 == |s| || IsBreak(s[from + 1]))) then from
    else BreakFrom(s, from + 1)
  }

  /** The offset behind the byte at `k`, or the end of the reply. */
  function Behind(s: Bytes, k: nat): (i: nat)
    requires k <= |s|
    ensures i <= |s|
  {
    if k < |s| then k + 1 else |s|
  }

  /**
    * The data block of `length` bytes at offset `from`.  The reply is the filled part of a buffer, and a Go
    * slice may reach past it into the `spare` bytes of the buffer's capacity, whatever they are.
    */
  function Block(s: Bytes, spare: Bytes, from: nat, length: int): Extracted
    requires from <= |s|
  {
    if length < 0 || |s| + |spare| < from + length then OutOfBounds
    else if from + length <= |s| then Found(s[from..from + length])
    else Found(s[from..] + spare[..from + length - |s|])
  }

  /** Where the text of the length stands, or how the reading ends before it. */
  datatype Located = Stopped(reading: Extracted) | Length(start: nat, end: nat)

  predicate InBounds(s: Bytes, from: nat, at: Located) {
    at.Length? ==> from <= at.start <= at.end && at.end + 2 <= |s|
  }

  function LocateLength(s: Bytes, start: nat): (at: Located)
    requires start <= |s|
    ensures InBounds(s, start, at)
  {
    var end := BreakFrom(s, start);
    if end == |s| then Stopped(Wrong(NoLineBreakAfterLength))
    else if end + 1 == |s| then Stopped(OutOfBounds)
    else Length(start, end)
  }

  /** From behind the space that follows the key: the flags end with a space or with the reply. */
  function LocateFlags(s: Bytes, from: nat): (at: Located)
    requires from <= |s|
    ensures InBounds(s, from, at)
  {
    LocateLength(s, Behind(s, IndexFrom(s, SPACE, from)))
  }

  /** From the space before the key. */
  function LocateKey(s: Bytes, from: nat): (at: Located)
    requires from < |s|
    ensures InBounds(s, from, at)
  {
    if s[from] != SPACE then Stopped(Wrong(NoSpaceBeforeKey))
    else
      var end := IndexFrom(s, SPACE, from + 1);
      if end == |s| then Stopped(Wrong(NoSpaceAfterKey)) else LocateFlags(s, end + 1)
  }

  /** The comparison with `word` (VALUE) from its byte `e` on, and what follows it. */
  function LocateValueLine(s: Bytes, word: Bytes, e: nat): (at: Located)
    requires e <= |word|
    ensures InBounds(s, 0, at)
  {
    var v := Agrees(s, word, e);
    if v >= |s| then Stopped(OutOfBounds)
    else if v < |word| then Stopped(Wrong(NoValueProtocol))
    else LocateKey(s, v)
  }

  function Locate(s: Bytes): (at: Located)
    ensures InBounds(s, 0, at)
  {
    var e := Agrees(s, END, 0);
    if e == |END| then Stopped(Missing)
    else if e >= |s| then Stopped(OutOfBounds)
    else LocateValueLine(s, VALUE, e)
  }

  /** The data whose length is spelled between `start` and `end`. */
  function Measured(s: Bytes, spare: Bytes, start: nat, end: nat): Extracted
    requires start <= end && end + 2 <= |s|
  {
    match Atoi(s[start..end])
    case None => Wrong(BadLength)
    case Some(length) => Block(s, spare, end + 2, length)
  }

  /** What a reply `s` is read as, with the bytes `spare` behind it in its buffer. */
  function Extract(s: Bytes, spare: Bytes): Extracted {
    match Locate(s)
    case Stopped(reading) => reading
    case Length(start, end) => Measured(s, spare, start, end)
  }

  /** The loop that compares with a fixed word; it stops at a difference or at the end of the reply. */
  method CompareWord(response: Bytes, word: Bytes, from: nat) returns (i: nat)
    requires from <= |word|
    ensures i == Agrees(response, word, from)
  {
    i := from;
    while i < |word|
      invariant from <= i <= |word|
      invariant Agrees(response, word, from) == Agrees(response, word, i)
    {
      if i >= |response| || response[i] != word[i] {
        break;
      }
      i := i + 1;
    }
  }

  /** The loop that passes over a word and the space behind it; `found` is only ever raised. */
  method SkipWord(response: Bytes, from: nat, before: bool) returns (i: nat, found: bool)
    requires from <= |response|
    ensures i == Behind(response, IndexFrom(response, SPACE, from))
    ensures found == (before || IndexFrom(response, SPACE, from) < |response|)
  {
    i := from;
    found := before;
    while i < |response|
      invariant from <= i <= |response| && found == before
      invariant IndexFrom(response, SPACE, from) == IndexFrom(response, SPACE, i)
    {
      if response[i] == SPACE {
        found := true;
        i := i + 1;
        break;
      }
      i := i + 1;
    }
  }

  /** The loop that looks for two line break bytes; `inBounds` is false when it indexes past the reply. */
  method FindLineBreak(response: Bytes, from: nat) returns (i: nat, endLen: nat, found: bool, inBounds: bool)
    requires from <= |response|
    ensures var end := BreakFrom(response, from);
            && (inBounds <==> end + 1 != |response|)
            && (inBounds ==> (found <==> end < |response|))
            && (inBounds && found ==> endLen == end && i == end + 2 <= |response|)
  {
    i, endLen, found, inBounds := from, 0, false, true;
    while i < |response|
      invariant from <= i <= |response| && !found && inBounds
      invariant BreakFrom(response, from) == BreakFrom(response, i)
    {
      if IsBreak(response[i]) {
        if i + 1 >= |response| {
          inBounds := false;
          return;
        }
        if IsBreak(response[i + 1]) {
          endLen := i;
          i := i + 2;
          found := true;
          break;
        }
      }
      i := i + 1;
    }
  }

  method PassLength(response: Bytes, from: nat) returns (at: Located)
    requires from <= |response|
    ensures at == LocateLength(response, from)
  {
    var i, endLen, found, inBounds := FindLineBreak(response, from);
    if !inBounds {
      return Stopped(OutOfBounds);
    }
    if !found {
      return Stopped(Wrong(NoLineBreakAfterLength));
    }
    return Length(from, endLen);
  }

  method PassKey(response: Bytes, from: nat) returns (at: Located)
    requires from < |response|
    ensures at == LocateKey(response, from)
  {
    var i := from;
    if response[i] != SPACE {
      return Stopped(Wrong(NoSpaceBeforeKey));
    }
    i := i + 1;
    var found := false;
    // ignore the key
    i, found := SkipWord(response, i, found);
    if !found {
      return Stopped(Wrong(NoSpaceAfterKey));
    }
    // ignore the protocol flag: `found` is still true here, so this loop never reports a missing space
    i, found := SkipWord(response, i, found);
    at := PassLength(response, i);
  }

  /** The loop that compares with VALUE, and all that follows it up to the length. */
  method PassValue(response: Bytes, word: Bytes, from: nat) returns (at: Located)
    requires from <= |word|
    ensures at == LocateValueLine(response, word, from)
  {
    var i := CompareWord(response, word, from);
    if i >= |response| {
      return Stopped(OutOfBounds);
    }
    if i < |word| {
      return Stopped(Wrong(NoValueProtocol));
    }
    at := PassKey(response, i);
  }

  method ExtractGetCmdValue(response: Bytes, spare: Bytes) returns (r: Extracted)
    ensures r == Extract(response, spare)
  {
    var i := CompareWord(response, END, 0);
    if i == |END| {
      return Missing;
    }
    if i >= |response| {
      return OutOfBounds;
    }
    var at := PassValue(response, VALUE, i);
    if at.Stopped? {
      return at.reading;
    }
    match Atoi(response[at.start..at.end]) {
      case None => return Wrong(BadLength);
      case Some(valueLen) => return Block(response, spare, at.end + 2, valueLen);
    }
  }

  /** What a reader gets who was told that `length` bytes follow, and finds `body` with `spare` behind it. */
  function Announced(length: nat, body: Bytes, spare: Bytes): Extracted {
    if length > MAX_INT then Wrong(BadLength)
    else Block(body, spare, 0, length)
  }

  lemma BlockFrom(s: Bytes, spare: Bytes, from: nat, length: nat)
    requires from <= |s|
    ensures Block(s, spare, from, length) == Block(s[from..], spare, 0, length)
  {
    if from + length <= |s| {
      assert s[from..from + length] == s[from..][..length];
    }
  }

  lemma MeasuresAnnounced(s: Bytes, spare: Bytes, start: nat, end: nat, length: nat)
    requires start <= end && end + 2 <= |s| && s[start..end] == Digits(length)
    ensures Measured(s, spare, start, end) == Announced(length, s[end + 2..], spare)
  {
    AtoiItoa(length);
    BlockFrom(s, spare, end + 2, length);
  }

  // ----- END and VALUE overlap

  const EALUE: Bytes := [69, 65, 76, 85, 69]
  const ENLUE: Bytes := [69, 78, 76, 85, 69]

  /** The words that are taken for VALUE: the letters that agree with END are not compared with VALUE. */
  predicate PassesForValue(word: Bytes) {
    word == VALUE || word == EALUE || word == ENLUE
  }

  /** The first letter that tells one of the three words from END. */
  function LettersOfEnd(word: Bytes): nat
    requires PassesForValue(word)
  {
    if word == VALUE then 0 else if word == EALUE then 1 else 2
  }

  lemma {:induction false} AgreesUpTo(s: Bytes, word: Bytes, from: nat, to: nat)
    requires from <= to <= |word| && to < |s|
    requires forall i :: from <= i < to ==> s[i] == word[i]
    requires to < |word| ==> s[to] != word[to]
    ensures Agrees(s, word, from) == to
    decreases |word| - from
  {
    if from < to {
      AgreesUpTo(s, word, from + 1, to);
    }
  }

  lemma {:induction false} AgreesSpells(s: Bytes, word: Bytes, from: nat)
    requires from <= |word| <= |s|
    ensures var k := Agrees(s, word, from);
            (forall i :: from <= i < k ==> s[i] == word[i]) && (k < |word| ==> s[k] != word[k])
    decreases |word| - from
  {
    if from < |word| && s[from] == word[from] {
      AgreesSpells(s, word, from + 1);
    }
  }

  lemma LocatesBehindWord(s: Bytes)
    requires 6 <= |s| && PassesForValue(s[..5])
    ensures Locate(s) == LocateKey(s, 5)
  {
    var word := s[..5];
    var e := LettersOfEnd(word);
    assert forall i :: 0 <= i < 5 ==> s[i] == word[i];
    AgreesUpTo(s, END, 0, e);
    AgreesUpTo(s, VALUE, e, 5);
  }

  lemma Spelled(s: Bytes, word: Bytes)
    requires |word| <= |s|
    ensures s[..|word|] == word <==> forall i :: 0 <= i < |word| ==> s[i] == word[i]
  {
    assert s[..|word|] == word ==> forall i :: 0 <= i < |word| ==> s[i] == s[..|word|][i];
  }

  lemma RefusedWord(s: Bytes, spare: Bytes)
    requires 6 <= |s| && s[..3] != END && !PassesForValue(s[..5])
    ensures Locate(s) == Stopped(Wrong(NoValueProtocol))
  {
    AgreesSpells(s, END, 0);
    AgreesSpells(s, VALUE, Agrees(s, END, 0));
    Spelled(s, END);
    Spelled(s, VALUE);
    Spelled(s, EALUE);
    Spelled(s, ENLUE);
  }

  // ----- a reading depends on what stands behind the first word only

  predicate SameFrom(s: Bytes, t: Bytes, from: nat) {
    |s| == |t| && forall k :: from <= k < |s| ==> s[k] == t[k]
  }

  lemma {:induction false} SameBreak(s: Bytes, t: Bytes, from: nat)
    requires SameFrom(s, t, from) && from <= |s|
    ensures BreakFrom(s, from) == BreakFrom(t, from)
    decreases |s| - from
  {
    if from < |s| {
      SameBreak(s, t, from + 1);
    }
  }

  lemma {:induction false} SameIndex(s: Bytes, t: Bytes, b: byte, from: nat)
    requires SameFrom(s, t, from) && from <= |s|
    ensures IndexFrom(s, b, from) == IndexFrom(t, b, from)
    decreases |s| - from
  {
    if from < |s| {
      SameIndex(s, t, b, from + 1);
    }
  }

  lemma SameFlags(s: Bytes, t: Bytes, from: nat)
    requires SameFrom(s, t, from) && from <= |s|
    ensures LocateFlags(s, from) == LocateFlags(t, from)
  {
    SameIndex(s, t, SPACE, from);
    SameBreak(s, t, Behind(s, IndexFrom(s, SPACE, from)));
  }

  lemma SameKey(s: Bytes, t: Bytes, from: nat)
    requires SameFrom(s, t, from) && from < |s|
    ensures LocateKey(s, from) == LocateKey(t, from)
  {
    SameIndex(s, t, SPACE, from + 1);
    var end := IndexFrom(s, SPACE, from + 1);
    if end < |s| {
      SameFlags(s, t, end + 1);
    }
  }

  lemma SameMeasured(s: Bytes, t: Bytes, spare: Bytes, start: nat, end: nat)
    requires SameFrom(s, t, start) && start <= end && end + 2 <= |s|
    ensures Measured(s, spare, start, end) == Measured(t, spare, start, end)
  {
    assert s[start..end] == t[start..end];
    var n := Atoi(s[start..end]);
    assert s[end + 2..] == t[end + 2..];
    if n.Some? && 0 <= n.value && end + 2 + n.value <= |s| {
      assert s[end + 2..end + 2 + n.value] == t[end + 2..end + 2 + n.value];
    }
  }

  /** Any of the three words reads as VALUE does, whatever stands behind it. */
  lemma WordsAreInterchangeable(s: Bytes, spare: Bytes)
    requires 6 <= |s| && PassesForValue(s[..5])
    ensures Extract(s, spare) == Extract(VALUE + s[5..], spare)
  {
    var t := VALUE + s[5..];
    assert t[..5] == VALUE;
    LocatesBehindWord(s);
    LocatesBehindWord(t);
    SameKey(s, t, 5);
    var at := LocateKey(s, 5);
    if at.Length? {
      SameMeasured(s, t, spare, at.start, at.end);
    }
  }

  // ----- replies of a server

  lemma {:induction false} IndexIs(s: Bytes, b: byte, from: nat, k: nat)
    requires from <= k < |s| && s[k] == b && forall i :: from <= i < k ==> s[i] != b
    ensures IndexFrom(s, b, from) == k
    decreases k - from
  {
    if from < k {
      IndexIs(s, b, from + 1, k);
    }
  }

  lemma {:induction false} BreakIs(s: Bytes, from: nat, k: nat)
    requires from <= k && k + 1 < |s| && forall i :: from <= i < k ==> !IsBreak(s[i])
    requires IsBreak(s[k]) && IsBreak(s[k + 1])
    ensures BreakFrom(s, from) == k
    decreases k - from
  {
    if from < k {
      BreakIs(s, from + 1, k);
    }
  }

  /** A VALUE line: its spaces stand at 5, at `k` and at `m`, and its line break at `e`. */
  ghost predicate IsValueLine(s: Bytes, k: nat, m: nat, e: nat) {
    && 6 <= k < m < e && e + 1 < |s|
    && s[..5] == VALUE && s[5] == s[k] == s[m] == SPACE && s[e] == CR && s[e + 1] == LF
    && (forall i :: 6 <= i < k || k < i < m ==> s[i] != SPACE)
    && (forall i :: m < i < e ==> !IsBreak(s[i]))
  }

  lemma LocatesLength(s: Bytes, k: nat, m: nat, e: nat)
    requires IsValueLine(s, k, m, e)
    ensures Locate(s) == Length(m + 1, e)
  {
    LocatesBehindWord(s);
    IndexIs(s, SPACE, 6, k);
    IndexIs(s, SPACE, k + 1, m);
    BreakIs(s, m + 1, e);
  }

  /** The bytes behind the length are read as many as it says, unless the number is too large. */
  lemma ReadsAnnounced(s: Bytes, spare: Bytes, start: nat, end: nat, length: nat)
    requires Locate(s) == Length(start, end) && s[start..end] == Digits(length)
    ensures Extract(s, spare) == Announced(length, s[end + 2..], spare)
  {
    MeasuresAnnounced(s, spare, start, end, length);
  }

  lemma HeaderIsValueLine(key: Bytes, flags: Bytes, n: Bytes, body: Bytes)
    requires Lacks(key, SPACE) && AllDigits(flags) && AllDigits(n)
    ensures var s := VALUE + [SPACE] + key + [SPACE] + flags + [SPACE] + n + CRLF + body;
            var k := 6 + |key|;
            var m := k + 1 + |flags|;
            var e := m + 1 + |n|;
            IsValueLine(s, k, m, e) && s[m + 1..e] == n && s[e + 2..] == body
  {
  }

  lemma HeaderIsLocated(key: Bytes, flags: Bytes, n: Bytes, body: Bytes)
    requires Lacks(key, SPACE) && AllDigits(flags) && AllDigits(n)
    ensures var s := VALUE + [SPACE] + key + [SPACE] + flags + [SPACE] + n + CRLF + body;
            var start := 8 + |key| + |flags|;
            var end := start + |n|;
            Locate(s) == Length(start, end) && s[start..end] == n && s[end + 2..] == body
  {
    var m := 7 + |key| + |flags|;
    HeaderIsValueLine(key, flags, n, body);
    LocatesLength(VALUE + [SPACE] + key + [SPACE] + flags + [SPACE] + n + CRLF + body, 6 + |key|, m, m + 1 + |n|);
  }

  /** What is read from a header that announces `length` bytes, whatever bytes stand behind it. */
  lemma ExtractReadsBlock(key: Bytes, flags: Bytes, length: nat, body: Bytes, spare: Bytes)
    requires Lacks(key, SPACE) && AllDigits(flags)
    ensures Extract(ValueHeader(key, flags, length) + body, spare) == Announced(length, body, spare)
  {
    var start := 8 + |key| + |flags|;
    HeaderIsLocated(key, flags, Digits(length), body);
    ReadsAnnounced(ValueHeader(key, flags, length) + body, spare, start, start + |Digits(length)|, length);
  }

  lemma AnnouncedWhole(data: Bytes, more: Bytes, spare: Bytes)
    requires |data| <= MAX_INT
    ensures Announced(|data|, data + more, spare) == Found(data)
  {
    assert (data + more)[..|data|] == data;
  }

  /** The reading undoes the printing, for every value: line breaks, spaces and END inside it included. */
  lemma ExtractInvertsPrinting(key: Bytes, flags: Bytes, data: Bytes, spare: Bytes)
    requires Lacks(key, SPACE) && AllDigits(flags) && |data| <= MAX_INT
    ensures Extract(ValueReply(key, flags, data), spare) == Found(data)
  {
    var body := data + CRLF + END_DB;
    ExtractReadsBlock(key, flags, |data|, body, spare);
    assert body == data + (CRLF + END_DB);
    AnnouncedWhole(data, CRLF + END_DB, spare);
  }

  /**
    * A get reply that was cut inside its data block is read as if the spare bytes of the buffer were the rest
    * of the data; where there are too few of them the slice is out of bounds.
    */
  lemma CutReplyTakesSpareBytes(key: Bytes, flags: Bytes, data: Bytes, n: nat, spare: Bytes)
    requires Lacks(key, SPACE) && AllDigits(flags) && |data| <= MAX_INT && n <= |data|
    ensures Extract(ValueHeader(key, flags, |data|) + data[..n], spare) ==
            (if |data| - n <= |spare| then Found(data[..n] + spare[..|data| - n]) else OutOfBounds)
  {
    ExtractReadsBlock(key, flags, |data|, data[..n], spare);
    if n == |data| {
      assert data[..n] + spare[..0] == data[..n] == data[..n][..|data|];
    }
  }

  /** The reply of a miss. */
  lemma ExtractMiss(more: Bytes, spare: Bytes)
    ensures Extract(END + more, spare) == Missing
  {
    var s := END + more;
    assert s[0] == 69 && s[1] == 78 && s[2] == 68;
    assert Agrees(s, END, 2) == Agrees(s, END, 1) == Agrees(s, END, 0);
  }

  /**
    * A reply long enough to tell, which is not a miss, is refused as no VALUE line exactly when its first
    * word is none of the three; otherwise it is read as if that word were VALUE.
    */
  lemma TakenForValueExactlyWhen(s: Bytes, spare: Bytes)
    requires 6 <= |s| && s[..3] != END
    ensures Extract(s, spare) == Wrong(NoValueProtocol) <==> !PassesForValue(s[..5])
    ensures PassesForValue(s[..5]) ==> Extract(s, spare) == Extract(VALUE + s[5..], spare)
  {
    if PassesForValue(s[..5]) {
      WordsAreInterchangeable(s, spare);
      LocatesBehindWord(s);
    } else {
      RefusedWord(s, spare);
    }
  }

  /** So EALUE and ENLUE bring the data just as VALUE does. */
  lemma TakesEndForTheStartOfValue(word: Bytes, key: Bytes, flags: Bytes, data: Bytes, spare: Bytes)
    requires Lacks(key, SPACE) && AllDigits(flags) && |data| <= MAX_INT && PassesForValue(word)
    ensures Extract(word + ValueReply(key, flags, data)[5..], spare) == Found(data)
  {
    var reply := ValueReply(key, flags, data);
    var s := word + reply[5..];
    assert s[..5] == word && s[5..] == reply[5..];
    assert reply == VALUE + reply[5..] by {
      assert reply[..5] == VALUE;
    }
    WordsAreInterchangeable(s, spare);
    ExtractInvertsPrinting(key, flags, data, spare);
  }
}
