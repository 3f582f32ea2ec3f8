// The browser-side uploader: its sizing of an upload, the bookkeeping of which
// chunks the server already holds, and the lists of chunks still to send.
// Network replies are parameters; the worker pool runs one chunk at a time.
module ChunkClient {
  import opened Common
  import opened ChunkService
  import opened ChunkRanges

  /** What `parseInt` returns: a number, or NaN for text that does not start with one. */
  datatype ParsedInt = NaN | Num(value: int)

  /** validateChunkSize: rejects sizes under 5 (MB); NaN passes because `NaN < 5` is false. */
  function ValidateChunkSize(chunkSizeMB: ParsedInt): (ok: bool)
  {
    !(chunkSizeMB.Num? && chunkSizeMB.value < 5)
  }

  /** A size that passes and is a number gives chunks the server's init accepts; NaN passes too. */
  lemma ValidatedSizeMeetsServerMinimum(chunkSizeMB: ParsedInt)
    ensures ValidateChunkSize(NaN)
    ensures chunkSizeMB.Num? ==>
      (ValidateChunkSize(chunkSizeMB) <==> chunkSizeMB.value * 1024 * 1024 >= MIN_CHUNK_SIZE)
  {
  }

  /** Byte size of `mb` megabytes; NaN stays NaN (None). */
  function ChunkSizeBytes(chunkSizeMB: ParsedInt): Option<nat>
    requires ValidateChunkSize(chunkSizeMB)
  {
    if chunkSizeMB.NaN? then None else Some(chunkSizeMB.value * 1024 * 1024)
  }

  /** Math.ceil(size / chunkSize); NaN (None) when the chunk size is NaN. */
  function ChunkCount(size: nat, chunkSize: Option<nat>): Option<nat>
    requires chunkSize.Some? ==> chunkSize.value > 0
  {
    if chunkSize.None? then None else Some(CeilDiv(size, chunkSize.value))
  }

  /** The indices in [0, totalChunks) not yet uploaded, ascending; none when the count is NaN. */
  function Missing(totalChunks: nat, uploaded: set<int>): (missing: seq<int>)
  {
    if totalChunks == 0 then []
    else Missing(totalChunks - 1, uploaded) + (if totalChunks - 1 in uploaded then [] else [totalChunks - 1])
  }

  function MissingOf(totalChunks: Option<nat>, uploaded: set<int>): seq<int>
  {
    if totalChunks.None? then [] else Missing(totalChunks.value, uploaded)
  }

  /** Exactly the indices below the count that are not uploaded, in strictly ascending order. */
  lemma {:induction false} MissingMembers(totalChunks: nat, uploaded: set<int>)
    ensures var missing := Missing(totalChunks, uploaded);
      (forall x :: x in missing <==> 0 <= x < totalChunks && x !in uploaded)
      && (forall i, j :: 0 <= i < j < |missing| ==> missing[i] < missing[j])
  {
    if totalChunks > 0 {
      MissingMembers(totalChunks - 1, uploaded);
      var prev := Missing(totalChunks - 1, uploaded);
      assert forall i :: 0 <= i < |prev| ==> prev[i] in prev;
    }
  }

  /** Nothing is missing exactly when every index below the count is uploaded. */
  lemma MissingEmptyIff(totalChunks: nat, uploaded: set<int>)
    ensures |Missing(totalChunks, uploaded)| == 0 <==> Range(totalChunks) <= uploaded
  {
    MissingMembers(totalChunks, uploaded);
    if |Missing(totalChunks, uploaded)| != 0 {
      assert Missing(totalChunks, uploaded)[0] in Missing(totalChunks, uploaded);
    }
  }

  /** The indices of `queue` that the network lets through, in queue order. */
  function Succeeded(queue: seq<int>, failing: set<int>): seq<int>
  {
    if |queue| == 0 then []
    else Succeeded(queue[..|queue| - 1], failing) + (if queue[|queue| - 1] in failing then [] else [queue[|queue| - 1]])
  }

  /** Total length of the given chunks of the file. */
  function BytesOf(file: seq<byte>, chunkSize: nat, indices: seq<int>): nat
  {
    if |indices| == 0 then 0
    else
      var i := indices[|indices| - 1];
      BytesOf(file, chunkSize, indices[..|indices| - 1]) + (if i >= 0 then |Slice(file, i, chunkSize)| else 0)
  }

  /** With nothing uploaded, one more chunk appends its own index. */
  lemma MissingFresh(k: nat)
    requires k > 0
    ensures Missing(k, {}) == Missing(k - 1, {}) + [k - 1]
  {
  }

  /** Appending a chunk index adds that chunk's length. */
  lemma BytesOfAppend(file: seq<byte>, chunkSize: nat, indices: seq<int>, i: nat)
    ensures BytesOf(file, chunkSize, indices + [i]) == BytesOf(file, chunkSize, indices) + |Slice(file, i, chunkSize)|
  {
    assert (indices + [i])[..|indices|] == indices;
  }

  /** Chunk i holds the bytes between where it starts and where chunk i + 1 starts, capped at the size. */
  lemma SliceLength(file: seq<byte>, i: nat, chunkSize: nat)
    ensures |Slice(file, i, chunkSize)| == Min(ChunkStart(i + 1, chunkSize), |file|) - Min(ChunkStart(i, chunkSize), |file|)
  {
  }

  /** The chunks [0, k) hold the bytes up to where chunk k would start, capped at the size. */
  lemma {:induction false} BytesOfFirstChunks(file: seq<byte>, chunkSize: nat, k: nat)
    ensures BytesOf(file, chunkSize, Missing(k, {})) == Min(ChunkStart(k, chunkSize), |file|)
  {
    if k > 0 {
      var before := BytesOf(file, chunkSize, Missing(k - 1, {}));
      assert before == Min(ChunkStart(k - 1, chunkSize), |file|) by {
        BytesOfFirstChunks(file, chunkSize, k - 1);
      }
      assert BytesOf(file, chunkSize, Missing(k, {})) == before + |Slice(file, k - 1, chunkSize)| by {
        MissingFresh(k);
        BytesOfAppend(file, chunkSize, Missing(k - 1, {}), k - 1);
      }
      SliceLength(file, k - 1, chunkSize);
    }
  }

  /** Sending every chunk of a fresh upload counts exactly the file's size in bytes. */
  lemma AllChunksCountTheFile(file: seq<byte>, chunkSize: nat)
    requires chunkSize > 0
    ensures BytesOf(file, chunkSize, Missing(CeilDiv(|file|, chunkSize), {})) == |file|
  {
    BytesOfFirstChunks(file, chunkSize, CeilDiv(|file|, chunkSize));
    ChunkCountCovers(|file|, chunkSize);
  }

  /**
   * retryFailed completes when the number of uploaded indices equals the
   * count. While every uploaded index is below the count that means all are
   * there; indices the server reported from beyond the count break this.
   */
  lemma CompleteConditionIffAllUploaded(totalChunks: nat, uploaded: set<int>)
    requires forall i :: i in uploaded ==> 0 <= i < totalChunks
    ensures |uploaded| == totalChunks <==> uploaded == Range(totalChunks)
  {
    FullRange(uploaded, totalChunks);
    RangeCardinality(totalChunks);
  }

  /**
   * With two chunks, a server that reported index 5 (left over from an
   * earlier, larger upload) next to index 0 makes the count match although
   * chunk 1 is missing.
   */
  lemma CompleteConditionWithGap()
    ensures |{0, 5}| == 2 && !(Range(2) <= {0, 5})
  {
    assert {0, 5} == {0} + {5};
    assert 1 in Range(2);
  }

  lemma {:induction false} SucceededWithoutFailures(queue: seq<int>)
    ensures Succeeded(queue, {}) == queue
  {
    if |queue| > 0 {
      SucceededWithoutFailures(queue[..|queue| - 1]);
      assert queue[..|queue| - 1] + [queue[|queue| - 1]] == queue;
    }
  }

  /**
   * A fresh upload over a network that never fails sends every index below
   * the count, so the uploaded set becomes [0, count) and the byte count the
   * file's size.
   */
  lemma FreshUploadSendsEverything(file: seq<byte>, chunkSize: nat)
    requires chunkSize > 0
    ensures var queue := Missing(CeilDiv(|file|, chunkSize), {});
      Succeeded(queue, {}) == queue
      && ToSet(queue) == Range(CeilDiv(|file|, chunkSize))
      && BytesOf(file, chunkSize, queue) == |file|
  {
    var n := CeilDiv(|file|, chunkSize);
    SucceededWithoutFailures(Missing(n, {}));
    MissingMembers(n, {});
    AllChunksCountTheFile(file, chunkSize);
  }

  class ChunkUploader {
    var file: Option<seq<byte>>
    var fileMd5Value: string
    var uploadSessionId: string
    /** Bytes per chunk; None when the size field did not parse (NaN). */
    var chunkSize: Option<nat>
    /** Number of chunks; None (NaN) exactly when chunkSize is. */
    var totalChunks: Option<nat>
    var uploadedChunks: set<int>
    var isPaused: bool
    var isCancelled: bool
    var uploadedBytes: nat

    /** A chunk size, when known, is positive, and the chunk count is NaN exactly when the size is. */
    ghost predicate Valid()
      reads this
    {
      (chunkSize.Some? <==> totalChunks.Some?) && (chunkSize.Some? ==> chunkSize.value > 0)
    }

    constructor ()
      ensures Valid()
      ensures file == None && fileMd5Value == "" && uploadSessionId == ""
      ensures chunkSize == Some(5 * 1024 * 1024) && totalChunks == Some(0)
      ensures uploadedChunks == {} && !isPaused && !isCancelled && uploadedBytes == 0
    {
      file := None;
      fileMd5Value := "";
      uploadSessionId := "";
      chunkSize := Some(5 * 1024 * 1024);
      totalChunks := Some(0);
      uploadedChunks := {};
      isPaused := false;
      isCancelled := false;
      uploadedBytes := 0;
    }

    /**
     * handleFileSelect: nothing happens without a file; otherwise the file and
     * a fresh session id are recorded. The digest is left as it was: it is
     * computed asynchronously and only DigestComputed sets it, so until then
     * startUpload sees the new file with the previous file's digest.
     */
    method SelectFile(f: Option<seq<byte>>, sessionId: string)
      requires Valid()
      modifies this
      ensures Valid()
      ensures f.None? ==> file == old(file) && uploadSessionId == old(uploadSessionId)
      ensures f.Some? ==> file == f && uploadSessionId == sessionId
      ensures fileMd5Value == old(fileMd5Value)
      ensures chunkSize == old(chunkSize) && totalChunks == old(totalChunks)
      ensures uploadedChunks == old(uploadedChunks) && uploadedBytes == old(uploadedBytes)
      ensures isPaused == old(isPaused) && isCancelled == old(isCancelled)
    {
      if f.None? {
        return;
      }
      file := f;
      uploadSessionId := sessionId;
    }

    /** The end of calculateMd5: the digest it computed is recorded, nothing else changes. */
    method DigestComputed(md5: string)
      requires Valid()
      modifies this
      ensures Valid()
      ensures fileMd5Value == md5
      ensures file == old(file) && uploadSessionId == old(uploadSessionId)
      ensures chunkSize == old(chunkSize) && totalChunks == old(totalChunks)
      ensures uploadedChunks == old(uploadedChunks) && uploadedBytes == old(uploadedBytes)
      ensures isPaused == old(isPaused) && isCancelled == old(isCancelled)
    {
      fileMd5Value := md5;
    }

    /**
     * startUpload's set-up: nothing happens without a file and its digest or
     * with a rejected size; otherwise the size and count are set and the
     * progress is cleared.
     */
    method StartUpload(chunkSizeMB: ParsedInt) returns (proceeds: bool)
      requires Valid()
      modifies this
      ensures Valid()
      ensures proceeds <==> old(file).Some? && old(fileMd5Value) != "" && ValidateChunkSize(chunkSizeMB)
      ensures !proceeds ==> (chunkSize == old(chunkSize) && totalChunks == old(totalChunks)
        && uploadedChunks == old(uploadedChunks) && uploadedBytes == old(uploadedBytes)
        && isPaused == old(isPaused) && isCancelled == old(isCancelled))
      ensures proceeds ==> (file.Some? && chunkSize == ChunkSizeBytes(chunkSizeMB)
        && totalChunks == ChunkCount(|file.value|, chunkSize)
        && uploadedChunks == {} && uploadedBytes == 0 && !isPaused && !isCancelled)
      ensures file == old(file) && fileMd5Value == old(fileMd5Value) && uploadSessionId == old(uploadSessionId)
    {
      if file.None? || fileMd5Value == "" {
        return false;
      }
      if !ValidateChunkSize(chunkSizeMB) {
        return false;
      }
      if chunkSizeMB.NaN? {
        chunkSize := None;
        totalChunks := None;
      } else {
        var size := chunkSizeMB.value * 1024 * 1024;
        chunkSize := Some(size);
        totalChunks := Some(CeilDiv(|file.value|, size));
      }
      isPaused := false;
      isCancelled := false;
      uploadedChunks := {};
      uploadedBytes := 0;
      proceeds := true;
    }

    /** initUpload's merge: a successful reply's indices are added to the uploaded set. */
    method ApplyInitResponse(data: Option<seq<int>>)
      requires Valid()
      modifies this
      ensures Valid()
      ensures data.None? ==> uploadedChunks == old(uploadedChunks)
      ensures data.Some? ==> uploadedChunks == old(uploadedChunks) + ToSet(data.value)
      ensures file == old(file) && chunkSize == old(chunkSize) && totalChunks == old(totalChunks)
      ensures uploadedBytes == old(uploadedBytes) && isPaused == old(isPaused) && isCancelled == old(isCancelled)
      ensures fileMd5Value == old(fileMd5Value) && uploadSessionId == old(uploadSessionId)
    {
      if data.Some? {
        var merged := uploadedChunks;
        var i := 0;
        while i < |data.value|
          invariant 0 <= i <= |data.value|
          invariant merged == old(uploadedChunks) + ToSet(data.value[..i])
        {
          assert data.value[..i + 1] == data.value[..i] + [data.value[i]];
          merged := merged + {data.value[i]};
          i := i + 1;
        }
        assert data.value[..i] == data.value;
        uploadedChunks := merged;
      }
    }

    /** The for-loop of uploadChunks and retryFailed: the indices still to send, ascending. */
    method MissingChunks() returns (missing: seq<int>)
      ensures missing == MissingOf(totalChunks, uploadedChunks)
    {
      missing := [];
      if totalChunks.Some? {
        var i := 0;
        while i < totalChunks.value
          invariant 0 <= i <= totalChunks.value
          invariant missing == Missing(i, uploadedChunks)
        {
          if i !in uploadedChunks {
            missing := missing + [i];
          }
          i := i + 1;
        }
      }
    }

    /**
     * One chunk upload. It fails when the network does, when the file is gone
     * (reset while uploading) or when the size is NaN (the slice is empty and
     * the server refuses it); on success the index is recorded and the
     * chunk's length added to the byte count.
     */
    method UploadChunk(chunkIndex: int, succeeds: bool)
      requires Valid()
      modifies this
      ensures Valid()
      ensures var sent := succeeds && file.Some? && chunkSize.Some? && chunkIndex >= 0;
        (sent ==> uploadedChunks == old(uploadedChunks) + {chunkIndex}
                  && uploadedBytes == old(uploadedBytes) + |Slice(file.value, chunkIndex, chunkSize.value)|)
        && (!sent ==> uploadedChunks == old(uploadedChunks) && uploadedBytes == old(uploadedBytes))
      ensures file == old(file) && chunkSize == old(chunkSize) && totalChunks == old(totalChunks)
      ensures isPaused == old(isPaused) && isCancelled == old(isCancelled)
      ensures fileMd5Value == old(fileMd5Value) && uploadSessionId == old(uploadSessionId)
    {
      if succeeds && file.Some? && chunkSize.Some? && chunkIndex >= 0 {
        var chunk := Slice(file.value, chunkIndex, chunkSize.value);
        uploadedBytes := uploadedBytes + |chunk|;
        uploadedChunks := uploadedChunks + {chunkIndex};
      }
    }

    /**
     * uploadChunks, one chunk at a time: every missing index is sent once, in
     * ascending order; those in `failing` fail. Returns at once when nothing
     * is missing.
     */
    method UploadChunks(failing: set<int>)
      requires Valid()
      modifies this
      ensures Valid()
      ensures var sent := Sent(file, chunkSize, MissingOf(old(totalChunks), old(uploadedChunks)), failing);
        uploadedChunks == old(uploadedChunks) + ToSet(sent)
        && uploadedBytes == old(uploadedBytes) + SentBytes(file, chunkSize, sent)
      ensures file == old(file) && chunkSize == old(chunkSize) && totalChunks == old(totalChunks)
      ensures isPaused == old(isPaused) && isCancelled == old(isCancelled)
      ensures fileMd5Value == old(fileMd5Value) && uploadSessionId == old(uploadSessionId)
    {
      var queue := MissingChunks();
      if |queue| == 0 {
        return;
      }
      MissingNonNegative(totalChunks, uploadedChunks);
      assert forall i :: 0 <= i < |queue| ==> queue[i] in queue;
      var k := 0;
      while k < |queue|
        invariant 0 <= k <= |queue|
        invariant Valid()
        invariant forall i :: 0 <= i < |queue| ==> queue[i] >= 0
        invariant file == old(file) && chunkSize == old(chunkSize) && totalChunks == old(totalChunks)
        invariant isPaused == old(isPaused) && isCancelled == old(isCancelled)
        invariant fileMd5Value == old(fileMd5Value) && uploadSessionId == old(uploadSessionId)
        invariant uploadedChunks == old(uploadedChunks) + ToSet(Sent(file, chunkSize, queue[..k], failing))
        invariant uploadedBytes == old(uploadedBytes) + SentBytes(file, chunkSize, Sent(file, chunkSize, queue[..k], failing))
      {
        SentStep(file, chunkSize, queue, failing, k);
        UploadChunk(queue[k], queue[k] !in failing);
        k := k + 1;
      }
      assert queue[..k] == queue;
    }

    /**
     * retryFailed: nothing happens when no index is missing; otherwise the
     * flags are cleared, the missing chunks are sent (each sent chunk's bytes
     * added to the progress count), and completion is asked for exactly when
     * the count of uploaded indices equals the chunk count.
     */
    method RetryFailed(failing: set<int>) returns (completeRequested: bool)
      requires Valid()
      modifies this
      ensures Valid()
      ensures |MissingOf(old(totalChunks), old(uploadedChunks))| == 0 ==>
        (!completeRequested && uploadedChunks == old(uploadedChunks) && uploadedBytes == old(uploadedBytes)
         && isPaused == old(isPaused) && isCancelled == old(isCancelled))
      ensures |MissingOf(old(totalChunks), old(uploadedChunks))| > 0 ==>
        var sent := Sent(file, chunkSize, MissingOf(old(totalChunks), old(uploadedChunks)), failing);
        !isPaused && !isCancelled
        && uploadedChunks == old(uploadedChunks) + ToSet(sent)
        && uploadedBytes == old(uploadedBytes) + SentBytes(file, chunkSize, sent)
        && (completeRequested <==> totalChunks.Some? && |uploadedChunks| == totalChunks.value)
      ensures file == old(file) && chunkSize == old(chunkSize) && totalChunks == old(totalChunks)
      ensures fileMd5Value == old(fileMd5Value) && uploadSessionId == old(uploadSessionId)
    {
      var failedChunks := MissingChunks();
      if |failedChunks| == 0 {
        return false;
      }
      isPaused := false;
      isCancelled := false;
      UploadChunks(failing);
      completeRequested := totalChunks.Some? && |uploadedChunks| == totalChunks.value;
    }

    /** reset: forgets the file, its digest and the uploaded set, and clears both flags. */
    method Reset()
      requires Valid()
      modifies this
      ensures Valid()
      ensures file == None && fileMd5Value == "" && uploadedChunks == {}
      ensures !isPaused && !isCancelled
      ensures chunkSize == old(chunkSize) && totalChunks == old(totalChunks)
      ensures uploadedBytes == old(uploadedBytes) && uploadSessionId == old(uploadSessionId)
    {
      file := None;
      fileMd5Value := "";
      uploadedChunks := {};
      isPaused := false;
      isCancelled := false;
    }
  }

  lemma MissingNonNegative(totalChunks: Option<nat>, uploaded: set<int>)
    ensures forall x :: x in MissingOf(totalChunks, uploaded) ==> x >= 0
  {
    if totalChunks.Some? {
      MissingMembers(totalChunks.value, uploaded);
    }
  }

  /** The indices of `queue` actually sent: none when there is no file or the size is NaN. */
  function Sent(file: Option<seq<byte>>, chunkSize: Option<nat>, queue: seq<int>, failing: set<int>): seq<int>
  {
    if file.Some? && chunkSize.Some? then Succeeded(queue, failing) else []
  }

  /** The bytes the sent indices add to the progress count. */
  function SentBytes(file: Option<seq<byte>>, chunkSize: Option<nat>, sent: seq<int>): nat
  {
    if file.Some? && chunkSize.Some? then BytesOf(file.value, chunkSize.value, sent) else 0
  }

  lemma SentStep(file: Option<seq<byte>>, chunkSize: Option<nat>, queue: seq<int>, failing: set<int>, k: nat)
    requires k < |queue| && queue[k] >= 0
    ensures var before := Sent(file, chunkSize, queue[..k], failing);
      var after := Sent(file, chunkSize, queue[..k + 1], failing);
      var sent := queue[k] !in failing && file.Some? && chunkSize.Some?;
      (sent ==> ToSet(after) == ToSet(before) + {queue[k]}
                && SentBytes(file, chunkSize, after)
                   == SentBytes(file, chunkSize, before) + |Slice(file.value, queue[k], chunkSize.value)|)
      && (!sent ==> after == before)
  {
    assert queue[..k + 1][..k] == queue[..k];
    if queue[k] !in failing && file.Some? && chunkSize.Some? {
      var before := Succeeded(queue[..k], failing);
      var after := before + [queue[k]];
      assert Succeeded(queue[..k + 1], failing) == after;
      assert after[..|after| - 1] == before;
    }
  }
}
