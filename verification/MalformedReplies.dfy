/**
  * The reader of get replies on what no server prints: every reply has one of the shapes below, and each of them is
  * read, refused or makes the reader panic in its own way.
  */
module MalformedReplies {
  import opened Bytes
  import opened Decimal
  import opened Replies

  // ----- replies that are too short

  /** It ends before its first word can be told. */
  predicate IsCutWord(s: Bytes) {
    s <= VALUE || s <= EALUE || s <= ENLUE
  }

  /** The comparison passes over equal bytes up to the end of the reply, or up to a difference. */
  lemma {:induction false} AgreesWhole(s: Bytes, word: Bytes, from: nat, to: nat)
    requires from <= to <= |word| && to <= |s|
    requires forall i :: from <= i < to ==> s[i] == word[i]
    requires to < |word| && to < |s| ==> s[to] != word[to]
    ensures Agrees(s, word, from) == to
    decreases |word| - from
  {
    if from < to {
      AgreesWhole(s, word, from + 1, to);
    }
  }

  lemma CutWordIsOutOfBounds(s: Bytes, word: Bytes, e: nat)
    requires PassesForValue(word) && s <= word && e == LettersOfEnd(word)
    ensures Locate(s) == Stopped(OutOfBounds)
  {
    AgreesWhole(s, END, 0, if |s| < e then |s| else e);
    if e < |s| {
      AgreesWhole(s, VALUE, e, |s|);
    }
  }

  lemma {:induction false} AgreesPrefix(s: Bytes, word: Bytes, from: nat)
    requires from <= |word| && from <= |s|
    ensures var k := Agrees(s, word, from);
            && k <= |s| && (forall i :: from <= i < k ==> s[i] == word[i])
            && (k < |word| && k < |s| ==> s[k] != word[k])
    decreases |word| - from
  {
    if from < |word| && from < |s| && s[from] == word[from] {
      AgreesPrefix(s, word, from + 1);
    }
  }

  lemma OtherWordIsRefused(s: Bytes, e: nat)
    requires |s| < 6 && !(END <= s) && !IsCutWord(s) && e == Agrees(s, END, 0)
    ensures Locate(s) == Stopped(Wrong(NoValueProtocol))
  {
    AgreesPrefix(s, END, 0);
    AgreesPrefix(s, VALUE, e);
  }

  /** Of fewer than six bytes: a miss, an index past the end, or no VALUE line. */
  lemma ShortReplyIsRead(s: Bytes, spare: Bytes)
    requires |s| < 6
    ensures Extract(s, spare) ==
            (if END <= s then Missing else if IsCutWord(s) then OutOfBounds else Wrong(NoValueProtocol))
  {
    if END <= s {
      assert s == END + s[3..];
      ExtractMiss(s[3..], spare);
    } else if s <= VALUE {
      CutWordIsOutOfBounds(s, VALUE, 0);
    } else if s <= EALUE {
      CutWordIsOutOfBounds(s, EALUE, 1);
    } else if s <= ENLUE {
      CutWordIsOutOfBounds(s, ENLUE, 2);
    } else {
      OtherWordIsRefused(s, Agrees(s, END, 0));
    }
  }

  // ----- the header of a longer reply

  /** Its first word is VALUE, or one that is taken for it. */
  predicate HasWord(s: Bytes) {
    6 <= |s| && PassesForValue(s[..5])
  }

  predicate NoneWithin(s: Bytes, from: nat, to: nat) {
    forall i :: from <= i < to && i < |s| ==> s[i] != SPACE
  }

  /** The key stands between the spaces at 5 and at `k`. */
  predicate KeyEnds(s: Bytes, k: nat) {
    HasWord(s) && s[5] == SPACE && 6 <= k < |s| && s[k] == SPACE && NoneWithin(s, 6, k)
  }

  /** And the flags between that one and the space before `start`. */
  predicate FlagsEnd(s: Bytes, k: nat, start: nat) {
    KeyEnds(s, k) && k + 1 < start <= |s| && s[start - 1] == SPACE && NoneWithin(s, k + 1, start - 1)
  }

  lemma NoSpaceBeforeKeyExactlyWhen(s: Bytes, spare: Bytes)
    requires HasWord(s)
    ensures Extract(s, spare) == Wrong(NoSpaceBeforeKey) <==> s[5] != SPACE
  {
    LocatesBehindWord(s);
  }

  lemma {:induction false} NoneIsFound(s: Bytes, from: nat)
    requires from <= |s| && NoneWithin(s, from, |s|)
    ensures IndexFrom(s, SPACE, from) == |s|
  {
  }

  lemma NoSpaceAfterKeyExactlyWhen(s: Bytes, spare: Bytes)
    requires HasWord(s)
    ensures Extract(s, spare) == Wrong(NoSpaceAfterKey) <==> s[5] == SPACE && NoneWithin(s, 6, |s|)
  {
    LocatesBehindWord(s);
    if NoneWithin(s, 6, |s|) {
      NoneIsFound(s, 6);
    }
  }

  lemma KeyIsPassed(s: Bytes, k: nat)
    requires KeyEnds(s, k)
    ensures Locate(s) == LocateFlags(s, k + 1)
  {
    LocatesBehindWord(s);
    IndexIs(s, SPACE, 6, k);
  }

  /** Without a space behind the flags the reader looks for the length behind the end of the reply. */
  lemma NoSpaceAfterFlagsIsRefused(s: Bytes, k: nat, spare: Bytes)
    requires KeyEnds(s, k) && NoneWithin(s, k + 1, |s|)
    ensures Extract(s, spare) == Wrong(NoLineBreakAfterLength)
  {
    KeyIsPassed(s, k);
    NoneIsFound(s, k + 1);
  }

  lemma FlagsArePassed(s: Bytes, k: nat, start: nat)
    requires FlagsEnd(s, k, start)
    ensures Locate(s) == LocateLength(s, start)
  {
    KeyIsPassed(s, k);
    IndexIs(s, SPACE, k + 1, start - 1);
  }

  // ----- the length

  predicate TwoBreaks(s: Bytes, i: nat) {
    i + 1 < |s| && IsBreak(s[i]) && IsBreak(s[i + 1])
  }

  predicate NoTwoBreaks(s: Bytes, from: nat, to: nat) {
    forall i :: from <= i < to ==> !TwoBreaks(s, i)
  }

  lemma {:induction false} BreakIsFirst(s: Bytes, from: nat, e: nat)
    requires from <= e && TwoBreaks(s, e) && NoTwoBreaks(s, from, e)
    ensures BreakFrom(s, from) == e
    decreases e - from
  {
    if from < e {
      assert !TwoBreaks(s, from);
      BreakIsFirst(s, from + 1, e);
    }
  }

  lemma {:induction false} BreakIsNone(s: Bytes, from: nat)
    requires from <= |s| && NoTwoBreaks(s, from, |s|)
    ensures BreakFrom(s, from) == if from < |s| && IsBreak(s[|s| - 1]) then |s| - 1 else |s|
    decreases |s| - from
  {
    if from + 1 < |s| {
      assert !TwoBreaks(s, from);
      BreakIsNone(s, from + 1);
    }
  }

  /** A line that does not end: one break at the very end makes the reader index past it. */
  lemma UnendedLineIsRefused(s: Bytes, k: nat, start: nat, spare: Bytes)
    requires FlagsEnd(s, k, start) && NoTwoBreaks(s, start, |s|)
    ensures Extract(s, spare) ==
            (if start < |s| && IsBreak(s[|s| - 1]) then OutOfBounds else Wrong(NoLineBreakAfterLength))
  {
    FlagsArePassed(s, k, start);
    BreakIsNone(s, start);
  }

  /** The data that `number` announces, out of all the bytes behind the line. */
  function Announces(number: Bytes, behind: Bytes): Extracted {
    match Atoi(number)
    case None => Wrong(BadLength)
    case Some(n) => if 0 <= n <= |behind| then Found(behind[..n]) else OutOfBounds
  }

  lemma BlockIsTaken(s: Bytes, spare: Bytes, from: nat, n: int)
    requires from <= |s|
    ensures var behind := s[from..] + spare;
            Block(s, spare, from, n) == if 0 <= n <= |behind| then Found(behind[..n]) else OutOfBounds
  {
    var behind := s[from..] + spare;
    if 0 <= n && from + n <= |s| {
      assert behind[..n] == s[from..from + n];
    } else if 0 <= n <= |behind| {
      assert behind[..n] == s[from..] + spare[..from + n - |s|];
    }
  }

  lemma MeasuredAnnounces(s: Bytes, spare: Bytes, start: nat, end: nat)
    requires start <= end && end + 2 <= |s|
    ensures Measured(s, spare, start, end) == Announces(s[start..end], s[end + 2..] + spare)
  {
    var number := Atoi(s[start..end]);
    if number.Some? {
      BlockIsTaken(s, spare, end + 2, number.value);
    }
  }

  lemma LengthIsLocated(s: Bytes, k: nat, start: nat, end: nat)
    requires FlagsEnd(s, k, start) && start <= end && TwoBreaks(s, end) && NoTwoBreaks(s, start, end)
    ensures Locate(s) == Length(start, end)
  {
    FlagsArePassed(s, k, start);
    BreakIsFirst(s, start, end);
  }

  lemma LocatedIsRead(s: Bytes, spare: Bytes, start: nat, end: nat)
    requires Locate(s) == Length(start, end)
    ensures end + 2 <= |s| && start <= end
    ensures Extract(s, spare) == Announces(s[start..end], s[end + 2..] + spare)
  {
    MeasuredAnnounces(s, spare, start, end);
  }

  /** A line that does: its last word is read as strconv.Atoi reads it, and that many bytes are taken behind it. */
  lemma EndedLineIsRead(s: Bytes, k: nat, start: nat, end: nat, spare: Bytes)
    requires FlagsEnd(s, k, start) && start <= end && TwoBreaks(s, end) && NoTwoBreaks(s, start, end)
    ensures Extract(s, spare) == Announces(s[start..end], s[end + 2..] + spare)
  {
    LengthIsLocated(s, k, start, end);
    LocatedIsRead(s, spare, start, end);
  }
}
