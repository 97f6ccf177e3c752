/** Bytes, as held by Node.js `Buffer` objects and by the chunks of a response body. */
module Bytes {

  newtype byte = x: int | 0 <= x < 256

  /** The concatenation of a sequence of chunks, in order. */
  function Concat(chunks: seq<seq<byte>>): (r: seq<byte>)
  {
    if chunks == [] then [] else Concat(chunks[..|chunks| - 1]) + chunks[|chunks| - 1]
  }

  /** Appending one chunk to a prefix of the chunks appends it to their concatenation. */
  lemma ConcatStep(chunks: seq<seq<byte>>, i: nat)
    requires i < |chunks|
    ensures Concat(chunks[..i + 1]) == Concat(chunks[..i]) + chunks[i]
  {
    assert chunks[..i + 1][..i] == chunks[..i];
  }

  /** A longer prefix of the chunks never has a shorter concatenation. */
  lemma {:induction false} ConcatPrefixMonotone(chunks: seq<seq<byte>>, i: nat, j: nat)
    requires i <= j <= |chunks|
    ensures |Concat(chunks[..i])| <= |Concat(chunks[..j])|
    decreases j - i
  {
    if i < j {
      ConcatStep(chunks, j - 1);
      ConcatPrefixMonotone(chunks, i, j - 1);
    }
  }
}
