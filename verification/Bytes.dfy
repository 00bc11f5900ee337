/** Byte strings, and the few facts about them that the other modules share. */
module Bytes {

  newtype byte = x: int | 0 <= x < 256

  type Bytes = seq<byte>

  const CR: byte := 13
  const LF: byte := 10
  const SPACE: byte := 32
  const CRLF: Bytes := [CR, LF]

  datatype Option<+T> = None | Some(value: T)

  /** `sep` stands in `s` at offset `k`. */
  predicate OccursAt(s: Bytes, sep: Bytes, k: int) {
    0 <= k && k + |sep| <= |s| && forall i :: 0 <= i < |sep| ==> sep[i] == s[k + i]
  }

  ghost predicate Occurs(s: Bytes, sep: Bytes) {
    exists k :: OccursAt(s, sep, k)
  }

  predicate EndsWith(s: Bytes, t: Bytes) {
    OccursAt(s, t, |s| - |t|)
  }

  predicate Lacks(s: Bytes, b: byte) {
    forall i :: 0 <= i < |s| ==> s[i] != b
  }

  /** The first index from `from` on that holds `b`, or the length when there is none. */
  function IndexFrom(s: Bytes, b: byte, from: nat): (k: nat)
    requires from <= |s|
    ensures from <= k <= |s|
    ensures forall i :: from <= i < k ==> s[i] != b
    ensures k < |s| ==> s[k] == b
    decreases |s| - from
  {
    if from == |s| || s[from] == b then from else IndexFrom(s, b, from + 1)
  }
}
