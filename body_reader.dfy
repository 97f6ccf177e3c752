/**
 * The bounded body reader: the response body is consumed chunk by chunk into
 * a zero-filled buffer of 512 KiB, stopping with "body too large" at the first
 * chunk that does not fit in what is left and with "error reading body" when
 * the stream fails. The reader goes from Reading to exactly one of the
 * terminal states Complete, TooLarge or ReadError, and reads nothing after.
 */
module BodyReader {
  import opened Wrappers
  import opened Bytes

  /** `Buffer.alloc(512 * 1024)`. */
  const Capacity: nat := 512 * 1024

  /**
   * A response body: the chunks it yields, in order, and where it fails.
   * Asking for chunk `k` throws iff `failAt == Some(k)`; a failure index past
   * the last chunk is never reached, because the stream ends first, except
   * `Some(|chunks|)`, which fails in place of ending.
   */
  datatype Stream = Stream(chunks: seq<seq<byte>>, failAt: Option<nat>)

  /** What one step of `for await` obtains. */
  datatype Next = Chunk(data: seq<byte>) | End | Throws

  /** The outcome of asking the stream for its chunk number `k`. */
  function Pull(s: Stream, k: nat): (n: Next)
    requires k <= |s.chunks|
    ensures n.Chunk? <==> k < |s.chunks| && s.failAt != Some(k)
    ensures n.Chunk? ==> n.data == s.chunks[k]
    ensures n == End <==> k == |s.chunks| && s.failAt != Some(k)
  {
    if s.failAt == Some(k) then Throws
    else if k == |s.chunks| then End
    else Chunk(s.chunks[k])
  }

  /** Whether the stream fails before it ends. */
  predicate Fails(s: Stream)
  {
    s.failAt.Some? && s.failAt.value <= |s.chunks|
  }

  /** The chunks the stream yields before it fails or ends. */
  function Delivered(s: Stream): (d: seq<seq<byte>>)
    ensures d <= s.chunks
    ensures Fails(s) ==> |d| == s.failAt.value
    ensures !Fails(s) ==> d == s.chunks
  {
    if Fails(s) then s.chunks[..s.failAt.value] else s.chunks
  }

  /** The terminal states of the reader. */
  datatype ReadState = Complete | TooLarge | ReadError

  /** The reader's final state, the bytes it wrote to the buffer and how many chunks it accepted. */
  datatype ReadResult = ReadResult(state: ReadState, received: seq<byte>, consumed: nat)

  /**
   * The reading loop as a function: from chunk `k` on, with `received` already
   * in the buffer.
   */
  function ReadFrom(s: Stream, k: nat, received: seq<byte>): ReadResult
    requires k <= |s.chunks|
    decreases |s.chunks| - k
  {
    match Pull(s, k)
    case Throws => ReadResult(ReadError, received, k)
    case End => ReadResult(Complete, received, k)
    case Chunk(chunk) =>
      if |chunk| > Capacity - |received| then ReadResult(TooLarge, received, k)
      else ReadFrom(s, k + 1, received + chunk)
  }

  /** What the reader does with a whole stream. */
  function Read(s: Stream): ReadResult
  {
    ReadFrom(s, 0, [])
  }

  /** The value the handler stores in `info.error` for a final state. */
  function ErrorText(state: ReadState): (e: Option<string>)
    ensures e.None? <==> state == Complete
  {
    match state
    case Complete => None
    case TooLarge => Some("body too large")
    case ReadError => Some("error reading body")
  }

  lemma {:induction false} ReadFromCharacterized(s: Stream, k: nat)
    requires k <= |Delivered(s)|
    requires |Concat(s.chunks[..k])| <= Capacity
    ensures var r := ReadFrom(s, k, Concat(s.chunks[..k]));
      && k <= r.consumed <= |Delivered(s)|
      && r.received == Concat(s.chunks[..r.consumed])
      && |r.received| <= Capacity
      && (r.state == TooLarge <==> |Concat(Delivered(s))| > Capacity)
      && (r.state == ReadError <==> Fails(s) && |Concat(Delivered(s))| <= Capacity)
      && (r.state == Complete ==> r.consumed == |s.chunks|)
      && (r.state == ReadError ==> r.consumed == |Delivered(s)|)
      && (r.state == TooLarge ==>
            r.consumed < |Delivered(s)| && |r.received| + |s.chunks[r.consumed]| > Capacity)
    decreases |s.chunks| - k
  {
    var d := Delivered(s);
    var received := Concat(s.chunks[..k]);
    assert d[..k] == s.chunks[..k];
    assert d[..|d|] == d;
    if k == |d| {
      // The stream ends or throws here.
    } else {
      ConcatStep(s.chunks, k);
      assert d[..k + 1] == s.chunks[..k + 1];
      var chunk := s.chunks[k];
      if |chunk| > Capacity - |received| {
        ConcatPrefixMonotone(d, k + 1, |d|);
      } else {
        ReadFromCharacterized(s, k + 1);
      }
    }
  }

  /**
   * The reader's outcome by stream: with the chunks it delivers, the body is
   * too large iff they total more than `Capacity` bytes; otherwise it reads
   * them all and ends Complete or, if the stream fails, ReadError. The buffer
   * always holds the accepted chunks in order, never more than `Capacity`
   * bytes, and on TooLarge the chunk that did not fit and all later ones are
   * left unread.
   */
  lemma ReadCharacterized(s: Stream)
    ensures var r := Read(s);
      && r.consumed <= |Delivered(s)|
      && r.received == Concat(s.chunks[..r.consumed])
      && |r.received| <= Capacity
      && (r.state == TooLarge <==> |Concat(Delivered(s))| > Capacity)
      && (r.state == ReadError <==> Fails(s) && |Concat(Delivered(s))| <= Capacity)
      && (r.state == Complete <==> !Fails(s) && |Concat(Delivered(s))| <= Capacity)
      && (r.state == ReadError ==> r.consumed == |Delivered(s)|)
      && (r.state == Complete ==> r.consumed == |s.chunks| && r.received == Concat(s.chunks))
      && (r.state == TooLarge ==>
            r.consumed < |Delivered(s)| && |r.received| + |s.chunks[r.consumed]| > Capacity)
  {
    assert s.chunks[..0] == [];
    ReadFromCharacterized(s, 0);
    assert s.chunks[..|s.chunks|] == s.chunks;
  }

  /**
   * A stream that does not fail is refused iff its body exceeds `Capacity`;
   * one of exactly `Capacity` bytes is read whole.
   */
  lemma TooLargeIffOverCapacity(s: Stream)
    requires !Fails(s)
    ensures Read(s).state == TooLarge <==> |Concat(s.chunks)| > Capacity
    ensures |Concat(s.chunks)| <= Capacity ==> Read(s) == ReadResult(Complete, Concat(s.chunks), |s.chunks|)
  {
    ReadCharacterized(s);
  }

  /**
   * `chunk.copy(target, targetStart)` from Node.js: copies as many leading
   * bytes of `chunk` as fit from `targetStart` on, leaves the rest of `target`
   * as it was and returns the number of bytes copied.
   */
  method Copy(chunk: seq<byte>, target: array<byte>, targetStart: nat) returns (copied: nat)
    requires targetStart <= target.Length
    modifies target
    ensures copied == if |chunk| <= target.Length - targetStart then |chunk| else target.Length - targetStart
    ensures target[..targetStart] == old(target[..targetStart])
    ensures target[targetStart..targetStart + copied] == chunk[..copied]
    ensures target[targetStart + copied..] == old(target[targetStart + copied..])
  {
    copied := if |chunk| <= target.Length - targetStart then |chunk| else target.Length - targetStart;
    var j := 0;
    while j < copied
      invariant 0 <= j <= copied
      invariant forall i :: 0 <= i < targetStart ==> target[i] == old(target[i])
      invariant forall i :: 0 <= i < j ==> target[targetStart + i] == chunk[i]
      invariant forall i :: targetStart + j <= i < target.Length ==> target[i] == old(target[i])
    {
      target[targetStart + j] := chunk[j];
      j := j + 1;
    }
    assert target[targetStart..targetStart + copied] == chunk[..copied];
  }

  /**
   * The body phase: allocates a fresh zero-filled buffer and consumes the stream.
   * Returns the buffer, the number of bytes written to its front and the
   * error the handler records, as `Read` describes them; every byte from
   * `offset` on is still zero.
   */
  method ReadBody(s: Stream) returns (buffer: array<byte>, offset: nat, error: Option<string>)
    ensures fresh(buffer) && buffer.Length == Capacity
    ensures offset <= Capacity
    ensures buffer[..offset] == Read(s).received
    ensures forall i :: offset <= i < Capacity ==> buffer[i] == 0
    ensures error == ErrorText(Read(s).state)
  {
    buffer := new byte[Capacity](_ => 0);
    offset := 0;
    error := None;
    var k := 0;
    while true
      invariant k <= |s.chunks|
      invariant offset <= buffer.Length == Capacity
      invariant error == None
      invariant ReadFrom(s, k, buffer[..offset]) == Read(s)
      invariant forall i :: offset <= i < Capacity ==> buffer[i] == 0
      decreases |s.chunks| - k
    {
      var next := Pull(s, k);
      if next.Throws? {
        error := Some("error reading body");
        break;
      }
      if next.End? {
        break;
      }
      var chunk := next.data;
      if |chunk| > buffer.Length - offset {
        error := Some("body too large");
        break;
      }
      ghost var before := buffer[..offset];
      var copied := Copy(chunk, buffer, offset);
      assert buffer[..offset + copied] == before + chunk;
      offset := offset + copied;
      k := k + 1;
    }
  }
}
