/** The content store (files under the storage directory, addressed by
    storage key) and the size-limited streaming write of upload_file. */
module Content {
  import opened Common

  /** Sum of the chunk lengths. */
  function Total(chunks: seq<seq<byte>>): nat
    decreases |chunks|
  {
    if chunks == [] then 0 else Total(chunks[..|chunks| - 1]) + |chunks[|chunks| - 1]|
  }

  /** The chunks laid end to end. */
  function Concat(chunks: seq<seq<byte>>): (r: seq<byte>)
    ensures |r| == Total(chunks)
    decreases |chunks|
  {
    if chunks == [] then [] else Concat(chunks[..|chunks| - 1]) + chunks[|chunks| - 1]
  }

  /** Index of the first empty chunk (the read that reports end of stream),
      or the number of chunks if every chunk is non-empty. */
  function EndOfStream(chunks: seq<seq<byte>>): (n: nat)
    ensures n <= |chunks|
    ensures forall i :: 0 <= i < n ==> chunks[i] != []
    ensures n < |chunks| ==> chunks[n] == []
    decreases |chunks|
  {
    if chunks == [] || chunks[0] == [] then 0 else 1 + EndOfStream(chunks[1..])
  }

  /** What the read loop consumes: the chunks before end of stream. */
  function Received(chunks: seq<seq<byte>>): (r: seq<seq<byte>>)
    ensures |r| <= |chunks| && r == chunks[..|r|]
    ensures forall i :: 0 <= i < |r| ==> r[i] != []
    ensures |r| < |chunks| ==> chunks[|r|] == []
  {
    chunks[..EndOfStream(chunks)]
  }

  /** The write succeeds when nothing was received (the limit is then never
      compared) or when the received total is within the limit. */
  predicate Fits(chunks: seq<seq<byte>>, maxBytes: int) {
    Total(Received(chunks)) == 0 || Total(Received(chunks)) <= maxBytes
  }

  lemma {:induction false} TotalMonotone(chunks: seq<seq<byte>>, j: nat, k: nat)
    requires j <= k <= |chunks|
    ensures Total(chunks[..j]) <= Total(chunks[..k])
    decreases k - j
  {
    if j < k {
      TotalMonotone(chunks, j, k - 1);
      assert chunks[..k][..k - 1] == chunks[..k - 1];
    }
  }

  /** Reading chunk k adds its length to the total and its bytes to the
      concatenation. */
  lemma ReadOneMore(chunks: seq<seq<byte>>, k: nat)
    requires k < |chunks|
    ensures Total(chunks[..k + 1]) == Total(chunks[..k]) + |chunks[k]|
    ensures Concat(chunks[..k + 1]) == Concat(chunks[..k]) + chunks[k]
  {
    assert chunks[..k + 1][..k] == chunks[..k];
  }

  /** The first empty read at or before the end of stream is the end of
      stream, and everything before it was received. */
  lemma StopsAtEnd(chunks: seq<seq<byte>>, k: nat)
    requires k <= EndOfStream(chunks)
    requires k == |chunks| || chunks[k] == []
    ensures k == EndOfStream(chunks) && Received(chunks) == chunks[..k]
  {
  }

  /** A read loop that stops at the end of stream with every running total
      within the limit has a write that fits. */
  lemma Completed(chunks: seq<seq<byte>>, k: nat, maxBytes: int)
    requires k == EndOfStream(chunks)
    requires k > 0 ==> Total(chunks[..k]) <= maxBytes
    ensures Fits(chunks, maxBytes)
  {
  }

  /** Chunk k - 1 is the read that pushed the running total over the limit:
      the total before it was within the limit, the total with it is not. */
  predicate OverflowAt(chunks: seq<seq<byte>>, k: nat, maxBytes: int) {
    && 0 < k <= EndOfStream(chunks)
    && maxBytes < Total(chunks[..k])
    && (k == 1 || Total(chunks[..k - 1]) <= maxBytes)
  }

  /** Such a read means the write does not fit. */
  lemma Overflowed(chunks: seq<seq<byte>>, k: nat, maxBytes: int)
    requires 0 < k <= EndOfStream(chunks)
    requires maxBytes < Total(chunks[..k])
    requires k == 1 || Total(chunks[..k - 1]) <= maxBytes
    ensures OverflowAt(chunks, k, maxBytes) && !Fits(chunks, maxBytes)
  {
    TotalMonotone(chunks, k, EndOfStream(chunks));
    TotalMonotone(chunks, k - 1, k);
    ReadOneMore(chunks, k - 1);
  }

  /** A non-empty read comes before the end of stream. */
  lemma BeforeEnd(chunks: seq<seq<byte>>, k: nat)
    requires k <= EndOfStream(chunks) && k < |chunks| && chunks[k] != []
    ensures k < EndOfStream(chunks)
  {
  }

  lemma RemoveAfterUpdate(m: map<string, seq<byte>>, k: string, v: seq<byte>)
    ensures m[k := v] - {k} == m - {k}
  {
  }

  lemma UpdateTwice(m: map<string, seq<byte>>, k: string, v: seq<byte>, w: seq<byte>)
    ensures m[k := v][k := w] == m[k := w]
  {
  }

  /** A stream of non-empty chunks is received in full. */
  lemma AllNonEmptyReceived(chunks: seq<seq<byte>>)
    requires forall i :: 0 <= i < |chunks| ==> chunks[i] != []
    ensures Received(chunks) == chunks
  {
  }

  /** With a non-negative limit, the write fits exactly when the received
      byte count is at most the limit. */
  lemma FitsWithinLimit(chunks: seq<seq<byte>>, maxBytes: int)
    requires maxBytes >= 0
    ensures Fits(chunks, maxBytes) <==> Total(Received(chunks)) <= maxBytes
  {
  }

  /** The stored blobs, by storage key. */
  class ContentStore {
    var blobs: map<string, seq<byte>>

    constructor ()
      ensures blobs == map[]
    {
      blobs := map[];
    }

    /** The block `with open(path, "wb") as out: while True: ...`: the file
        is created empty, each chunk read is added to the running size and,
        if the size is still within `maxBytes`, appended to the file. The
        chunk that crosses the limit is not written: the file is removed and
        no further chunk is read. `consumed` counts the non-empty chunks
        read. */
    method WriteLimited(key: string, chunks: seq<seq<byte>>, maxBytes: int)
      returns (ok: bool, size: nat, consumed: nat)
      modifies this
      ensures consumed <= EndOfStream(chunks)
      ensures ok <==> Fits(chunks, maxBytes)
      ensures ok ==> consumed == EndOfStream(chunks) && size == Total(Received(chunks))
      ensures ok ==> blobs == old(blobs)[key := Concat(Received(chunks))]
      ensures !ok ==> OverflowAt(chunks, consumed, maxBytes)
      ensures !ok ==> blobs == old(blobs) - {key}
    {
      blobs := blobs[key := []];
      size, consumed := 0, 0;
      while true
        invariant consumed <= EndOfStream(chunks)
        invariant size == Total(chunks[..consumed])
        invariant consumed > 0 ==> size <= maxBytes
        invariant blobs == old(blobs)[key := Concat(chunks[..consumed])]
        decreases |chunks| - consumed
      {
        var chunk := if consumed < |chunks| then chunks[consumed] else [];
        if chunk == [] {
          StopsAtEnd(chunks, consumed);
          Completed(chunks, consumed, maxBytes);
          break;
        }
        ReadOneMore(chunks, consumed);
        BeforeEnd(chunks, consumed);
        size := size + |chunk|;
        if size > maxBytes {
          RemoveAfterUpdate(old(blobs), key, Concat(chunks[..consumed]));
          blobs := blobs - {key};
          Overflowed(chunks, consumed + 1, maxBytes);
          consumed := consumed + 1;
          ok := false;
          return;
        }
        UpdateTwice(old(blobs), key, Concat(chunks[..consumed]), Concat(chunks[..consumed + 1]));
        blobs := blobs[key := blobs[key] + chunk];
        consumed := consumed + 1;
      }
      ok := true;
    }

    /** Saving a derived file (the thumbnail) under its own key. */
    method Put(key: string, data: seq<byte>)
      modifies this
      ensures blobs == old(blobs)[key := data]
    {
      blobs := blobs[key := data];
    }
  }
}
