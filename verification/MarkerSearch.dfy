/** The backward search for a marker in a byte slice (findLastIndexOfByteSlice). */
module MarkerSearch {
  import opened Bytes

  /** How many bytes of `s` before offset `n` agree with the last bytes of `sep`, counting on from `c`. */
  function Matched(s: Bytes, n: nat, sep: Bytes, c: nat := 0): (r: nat)
    requires c <= n <= |s| && c <= |sep|
    ensures c <= r <= n && r <= |sep|
    decreases |sep| - c
  {
    if c == n || c == |sep| || sep[|sep| - 1 - c] != s[n - 1 - c] then c else Matched(s, n, sep, c + 1)
  }

  /**
    * The search in the first `n` bytes of `s`, told in jumps: all bytes that agree with the end of `sep`
    * are spent together with the byte that breaks the agreement, which is never tried as an end of `sep`.
    */
  function SearchTo(s: Bytes, n: nat, sep: Bytes): int
    requires n <= |s|
    decreases n
  {
    if n == 0 || |sep| < 2 then -1
    else
      var c := Matched(s, n, sep);
      if c == |sep| then n - |sep|
      else if c == n then -1
      else SearchTo(s, n - c - 1, sep)
  }

  function Search(s: Bytes, sep: Bytes): int {
    SearchTo(s, |s|, sep)
  }

  /** The end of `sep` agrees with the `c` bytes of `s` before offset `n`. */
  predicate Agree(s: Bytes, n: nat, sep: Bytes, c: nat)
    requires c <= n <= |s| && c <= |sep|
  {
    forall x :: |sep| - c <= x < |sep| ==> sep[x] == s[n - |sep| + x]
  }

  lemma {:induction false} MatchedIsLongest(s: Bytes, n: nat, sep: Bytes, c: nat)
    requires c <= n <= |s| && c <= |sep| && Agree(s, n, sep, c)
    ensures var r := Matched(s, n, sep, c);
            Agree(s, n, sep, r) && (r < n && r < |sep| ==> sep[|sep| - 1 - r] != s[n - 1 - r])
    decreases |sep| - c
  {
    if c < n && c < |sep| && sep[|sep| - 1 - c] == s[n - 1 - c] {
      MatchedIsLongest(s, n, sep, c + 1);
    }
  }

  lemma WholeMatch(s: Bytes, n: nat, sep: Bytes)
    requires n <= |s|
    ensures Matched(s, n, sep) == |sep| <==> OccursAt(s, sep, n - |sep|)
  {
    MatchedIsLongest(s, n, sep, 0);
  }

  method FindLastIndexOfByteSlice(s: Bytes, sep: Bytes) returns (r: int)
    ensures r == Search(s, sep)
  {
    if |s| == 0 || |sep| == 0 {
      return -1;
    }
    var j := -1;
    var lastIndexSep := |sep| - 1;
    var i := |s| - 1;
    ghost var end := |s|;  // where the attempt under way began, or where the next one may begin
    ghost var answer := Search(s, sep);
    while i >= 0
      invariant -1 <= i < end <= |s| && -1 <= j < lastIndexSep
      invariant answer == SearchTo(s, end, sep)
      invariant j == -1 ==> end == i + 1
      invariant j > -1 ==> end - 1 - i == lastIndexSep - j
      invariant j > -1 ==> Matched(s, end, sep) == Matched(s, end, sep, lastIndexSep - j)
    {
      if j > -1 {
        if s[i] == sep[j] && j == 0 {
          return i;
        }
        if s[i] != sep[j] {
          j := -1;
          end := i;
          i := i - 1;
          continue;
        }
        j := j - 1;
        i := i - 1;
        continue;
      }
      if s[i] == sep[lastIndexSep] {
        j := lastIndexSep - 1;
      }
      if j == -1 {
        end := i;
      }
      i := i - 1;
    }
    return -1;
  }

  lemma {:induction false} SearchToSound(s: Bytes, n: nat, sep: Bytes)
    requires n <= |s| && SearchTo(s, n, sep) != -1
    ensures OccursAt(s, sep, SearchTo(s, n, sep)) && SearchTo(s, n, sep) + |sep| <= n
    decreases n
  {
    WholeMatch(s, n, sep);
    var c := Matched(s, n, sep);
    if c < |sep| {
      SearchToSound(s, n - c - 1, sep);
    }
  }

  /** Any answer other than -1 is a place where the marker really stands. */
  lemma SearchSound(s: Bytes, sep: Bytes)
    requires Search(s, sep) != -1
    ensures OccursAt(s, sep, Search(s, sep))
  {
    SearchToSound(s, |s|, sep);
  }

  /** A text that ends in the marker: the answer is the place of that ending. */
  lemma FindsEnding(s: Bytes, sep: Bytes)
    requires 2 <= |sep| && EndsWith(s, sep)
    ensures Search(s, sep) == |s| - |sep|
  {
    WholeMatch(s, |s|, sep);
  }

  /** A marker of one byte is never found, even where the text is that byte. */
  lemma NeverFound(s: Bytes, sep: Bytes)
    requires |sep| < 2
    ensures Search(s, sep) == -1
  {
  }

  ghost predicate LastOccurrence(s: Bytes, sep: Bytes, k: int) {
    OccursAt(s, sep, k) && forall m :: OccursAt(s, sep, m) ==> m <= k
  }

  /**
    * Reading the bytes from `lo` up to `n` backwards leaves no attempt half done at `lo`: cutting off, again
    * and again, what agrees with the end of `sep` and the byte before it, one never meets a rest that is
    * itself an end of `sep`.
    */
  predicate LeavesNoAttempt(s: Bytes, lo: nat, n: nat, sep: Bytes)
    requires lo <= n <= |s|
    decreases n
  {
    n == lo ||
    var c := Matched(s, n, sep);
    c < n - lo && LeavesNoAttempt(s, lo, n - c - 1, sep)
  }

  lemma {:induction false} FindsLastFrom(s: Bytes, sep: Bytes, k: int, n: nat)
    requires 2 <= |sep| && LastOccurrence(s, sep, k) && k + |sep| <= n <= |s|
    ensures SearchTo(s, n, sep) == k <==> LeavesNoAttempt(s, k + |sep|, n, sep)
    decreases n
  {
    var c := Matched(s, n, sep);
    WholeMatch(s, n, sep);
    if n != k + |sep| {
      if c < n - (k + |sep|) {
        FindsLastFrom(s, sep, k, n - c - 1);
      } else if c < n && SearchTo(s, n - c - 1, sep) != -1 {
        SearchToSound(s, n - c - 1, sep);
      }
    }
  }

  /**
    * The search finds the last occurrence exactly when the bytes behind that occurrence leave no
    * attempt half done.  (A marker of one byte is never found: see NeverFound.)
    */
  lemma FindsLastExactlyWhen(s: Bytes, sep: Bytes, k: int)
    requires 2 <= |sep| && LastOccurrence(s, sep, k)
    ensures Search(s, sep) == k <==> LeavesNoAttempt(s, k + |sep|, |s|, sep)
  {
    FindsLastFrom(s, sep, k, |s|);
  }

  /** The answer is an occurrence that is followed by no attempt half done, */
  lemma {:induction false} FoundIsFree(s: Bytes, sep: Bytes, n: nat)
    requires n <= |s| && SearchTo(s, n, sep) != -1
    ensures var k := SearchTo(s, n, sep);
            0 <= k && k + |sep| <= n && LeavesNoAttempt(s, k + |sep|, n, sep)
    decreases n
  {
    SearchToSound(s, n, sep);
    var c := Matched(s, n, sep);
    if c < |sep| {
      SearchToSound(s, n - c - 1, sep);
      FoundIsFree(s, sep, n - c - 1);
    }
  }

  /** and where there is such an occurrence, there is an answer. */
  lemma {:induction false} FreeIsFound(s: Bytes, sep: Bytes, k: nat, n: nat)
    requires 2 <= |sep| && OccursAt(s, sep, k) && k + |sep| <= n <= |s| && LeavesNoAttempt(s, k + |sep|, n, sep)
    ensures SearchTo(s, n, sep) != -1
    decreases n
  {
    WholeMatch(s, n, sep);
    var c := Matched(s, n, sep);
    if n != k + |sep| && c < |sep| {
      FreeIsFound(s, sep, k, n - c - 1);
    }
  }

  /** Somewhere the marker stands with no attempt half done behind it. */
  ghost predicate StandsFree(s: Bytes, sep: Bytes) {
    exists k: nat :: OccursAt(s, sep, k) && LeavesNoAttempt(s, k + |sep|, |s|, sep)
  }

  /**
    * What the reading loop relies on: a marker is found at all exactly when some occurrence, last or not, is
    * followed by bytes that leave no attempt half done.  So it is missed, though it is there, exactly when no
    * occurrence is.
    */
  lemma FoundExactlyWhen(s: Bytes, sep: Bytes)
    requires 2 <= |sep|
    ensures Search(s, sep) != -1 <==> StandsFree(s, sep)
  {
    if Search(s, sep) != -1 {
      SearchSound(s, sep);
      FoundIsFree(s, sep, |s|);
    }
    if k: nat :| OccursAt(s, sep, k) && LeavesNoAttempt(s, k + |sep|, |s|, sep) {
      FreeIsFound(s, sep, k, |s|);
    }
  }

  lemma {:induction false} UnfollowedFrom(s: Bytes, sep: Bytes, k: int, n: nat)
    requires 2 <= |sep| && LastOccurrence(s, sep, k) && k + |sep| <= n <= |s|
    requires forall i :: k + |sep| <= i < |s| && i < k + 2 * |sep| - 1 ==> s[i] != sep[|sep| - 1]
    ensures LeavesNoAttempt(s, k + |sep|, n, sep)
    decreases n
  {
    if n != k + |sep| {
      var c := Matched(s, n, sep);
      WholeMatch(s, n, sep);
      assert 0 < c ==> sep[|sep| - 1] == s[n - 1];
      UnfollowedFrom(s, sep, k, n - c - 1);
    }
  }

  /** The condition that a caller reads off at a glance: sep's last byte does not follow too closely. */
  lemma FindsLastWhenUnfollowed(s: Bytes, sep: Bytes, k: int)
    requires 2 <= |sep| && LastOccurrence(s, sep, k)
    requires forall i :: k + |sep| <= i < |s| && i < k + 2 * |sep| - 1 ==> s[i] != sep[|sep| - 1]
    ensures Search(s, sep) == k
  {
    UnfollowedFrom(s, sep, k, |s|);
    FindsLastExactlyWhen(s, sep, k);
  }

  /** A line feed behind the marker hides it: `END CR LF LF` holds the marker and the answer is -1. */
  lemma HiddenByOneLineFeed()
    ensures LastOccurrence([69, 78, 68, CR, LF, LF], [69, 78, 68, CR, LF], 0)
    ensures Search([69, 78, 68, CR, LF, LF], [69, 78, 68, CR, LF]) == -1
  {
    var sep: Bytes := [69, 78, 68, CR, LF];
    var s: Bytes := [69, 78, 68, CR, LF, LF];
    assert OccursAt(s, sep, 0);
    assert Matched(s, 6, sep) == Matched(s, 6, sep, 1) == 1;
    if SearchTo(s, 4, sep) != -1 {
      SearchToSound(s, 4, sep);
    }
  }
}
