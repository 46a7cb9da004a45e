/**
  The chunk loop of `upload_file` (remove-duplicates/src/main.rs:26-37):
  the chunks of one multipart field are appended in order to a byte buffer
  that may hold at most `MAX_FILE_SIZE` bytes. A chunk read error or a chunk
  that would push the buffer past the limit ends the loop at once.
 */
module Ingest {

  type byte = b: int | 0 <= b < 0x100

  /** `MAX_FILE_SIZE`: 2 MiB. */
  const MAX_FILE_SIZE: nat := 2 * 1024 * 1024

  /** One item of a field's chunk stream: the bytes of a chunk, or an error
      reported by the stream instead of a chunk. */
  datatype Chunk = Data(bytes: seq<byte>) | ReadErr

  /** What the chunk loop ends with. No bytes survive a failure. */
  datatype Ingested = Content(bytes: seq<byte>) | ReadFailed | TooLarge

  /** The bytes of every data chunk, concatenated in stream order. */
  function Flatten(chunks: seq<Chunk>): (bytes: seq<byte>)
  {
    if chunks == [] then []
    else
      var last := chunks[|chunks| - 1];
      Flatten(chunks[..|chunks| - 1]) + (if last.Data? then last.bytes else [])
  }

  predicate AllData(chunks: seq<Chunk>) {
    forall k :: 0 <= k < |chunks| ==> chunks[k].Data?
  }

  /** The first `k` chunks can all be read and together fit in the buffer. */
  predicate Fits(chunks: seq<Chunk>, k: nat)
    requires k <= |chunks|
  {
    AllData(chunks[..k]) && |Flatten(chunks[..k])| <= MAX_FILE_SIZE
  }

  /** Some chunk fails to read while everything before it fits. */
  predicate FailsReading(chunks: seq<Chunk>) {
    exists k :: 0 <= k < |chunks| && Fits(chunks, k) && chunks[k].ReadErr?
  }

  /** Some chunk is too big for what is left of the buffer while everything
      before it fits. */
  predicate Overflows(chunks: seq<Chunk>) {
    exists k :: 0 <= k < |chunks| && Fits(chunks, k) && chunks[k].Data?
      && |Flatten(chunks[..k])| + |chunks[k].bytes| > MAX_FILE_SIZE
  }

  /** One more chunk fits exactly when it is data and its bytes fit in what
      is left of the buffer. */
  lemma FitsStep(chunks: seq<Chunk>, k: nat)
    requires k < |chunks|
    ensures Flatten(chunks[..k + 1]) == Flatten(chunks[..k]) + (if chunks[k].Data? then chunks[k].bytes else [])
    ensures Fits(chunks, k + 1) <==>
      && Fits(chunks, k)
      && chunks[k].Data?
      && |Flatten(chunks[..k])| + |chunks[k].bytes| <= MAX_FILE_SIZE
  {
    assert chunks[..k + 1][..k] == chunks[..k];
    assert chunks[..k + 1][k] == chunks[k];
    if Fits(chunks, k + 1) {
      assert forall j :: 0 <= j < k ==> chunks[..k][j] == chunks[..k + 1][j];
    }
  }

  /** If a prefix fits, every shorter prefix fits, and its bytes are a prefix
      of the longer one's: the buffer only grows. */
  lemma {:induction false} FitsPrefix(chunks: seq<Chunk>, j: nat, k: nat)
    requires j <= k <= |chunks| && Fits(chunks, k)
    ensures Fits(chunks, j)
    ensures Flatten(chunks[..j]) <= Flatten(chunks[..k])
    decreases k - j
  {
    if j < k {
      FitsStep(chunks, k - 1);
      FitsPrefix(chunks, j, k - 1);
    }
  }

  /** There is at most one place where the fitting prefix stops growing. */
  lemma StopPointUnique(chunks: seq<Chunk>, i: nat, k: nat)
    requires i < |chunks| && k < |chunks|
    requires Fits(chunks, i) && !Fits(chunks, i + 1)
    requires Fits(chunks, k) && !Fits(chunks, k + 1)
    ensures i == k
  {
    if i < k {
      FitsPrefix(chunks, i + 1, k);
    } else if k < i {
      FitsPrefix(chunks, k + 1, i);
    }
  }

  /** Where the fitting prefix stops growing, if it stops before the end. */
  lemma {:induction false} StopPointExists(chunks: seq<Chunk>, i: nat)
    requires i <= |chunks| && Fits(chunks, i) && !Fits(chunks, |chunks|)
    ensures exists k :: i <= k < |chunks| && Fits(chunks, k) && !Fits(chunks, k + 1)
    decreases |chunks| - i
  {
    if !Fits(chunks, i + 1) {
      assert i <= i < |chunks| && Fits(chunks, i) && !Fits(chunks, i + 1);
    } else {
      StopPointExists(chunks, i + 1);
    }
  }

  /**
    Exactly one of three things happens to a chunk stream: every chunk is
    read and the whole fits, a read fails first, or a chunk overflows the
    buffer first.
   */
  lemma Outcomes(chunks: seq<Chunk>)
    ensures Fits(chunks, |chunks|) || FailsReading(chunks) || Overflows(chunks)
    ensures !(Fits(chunks, |chunks|) && FailsReading(chunks))
    ensures !(Fits(chunks, |chunks|) && Overflows(chunks))
    ensures !(FailsReading(chunks) && Overflows(chunks))
  {
    assert chunks[..0] == [];
    if !Fits(chunks, |chunks|) {
      StopPointExists(chunks, 0);
      var k :| 0 <= k < |chunks| && Fits(chunks, k) && !Fits(chunks, k + 1);
      FitsStep(chunks, k);
    }
    if FailsReading(chunks) {
      var i :| 0 <= i < |chunks| && Fits(chunks, i) && chunks[i].ReadErr?;
      FitsStep(chunks, i);
      if Fits(chunks, |chunks|) {
        FitsPrefix(chunks, i + 1, |chunks|);
      }
      if Overflows(chunks) {
        var k :| 0 <= k < |chunks| && Fits(chunks, k) && chunks[k].Data?
          && |Flatten(chunks[..k])| + |chunks[k].bytes| > MAX_FILE_SIZE;
        FitsStep(chunks, k);
        StopPointUnique(chunks, i, k);
      }
    }
    if Overflows(chunks) && Fits(chunks, |chunks|) {
      var k :| 0 <= k < |chunks| && Fits(chunks, k) && chunks[k].Data?
        && |Flatten(chunks[..k])| + |chunks[k].bytes| > MAX_FILE_SIZE;
      FitsStep(chunks, k);
      FitsPrefix(chunks, k + 1, |chunks|);
    }
  }

  /**
    The chunk loop. `consumed` is how many items of the stream were taken:
    all of them on success; on failure exactly up to and including the
    offending one, so no later chunk is read. The buffer never exceeds
    `MAX_FILE_SIZE`, and the offending chunk is never appended.
   */
  method IngestChunks(chunks: seq<Chunk>) returns (r: Ingested, consumed: nat)
    ensures consumed <= |chunks|
    ensures r.Content? <==> Fits(chunks, |chunks|)
    ensures r.ReadFailed? <==> FailsReading(chunks)
    ensures r.TooLarge? <==> Overflows(chunks)
    ensures r.Content? ==> consumed == |chunks| && r.bytes == Flatten(chunks) && |r.bytes| <= MAX_FILE_SIZE
    ensures !r.Content? ==> 0 < consumed && Fits(chunks, consumed - 1) && !Fits(chunks, consumed)
  {
    Outcomes(chunks);
    var content: seq<byte> := [];
    var i := 0;
    assert chunks[..0] == [];
    while i < |chunks|
      invariant 0 <= i <= |chunks|
      invariant Fits(chunks, i)
      invariant content == Flatten(chunks[..i])
      invariant |content| <= MAX_FILE_SIZE
    {
      FitsStep(chunks, i);
      match chunks[i] {
        case ReadErr =>
          assert Fits(chunks, i) && chunks[i].ReadErr?;
          return ReadFailed, i + 1;
        case Data(data) =>
          if |content| + |data| > MAX_FILE_SIZE {
            assert Fits(chunks, i) && chunks[i].Data?;
            return TooLarge, i + 1;
          }
          content := content + data;
      }
      i := i + 1;
    }
    assert chunks[..|chunks|] == chunks;
    return Content(content), |chunks|;
  }
}
