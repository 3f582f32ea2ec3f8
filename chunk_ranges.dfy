// The byte ranges the browser client cuts a file into: chunk i covers
// [i * chunkSize, min(i * chunkSize + chunkSize, size)). The same cutting,
// with 2 MiB slices, feeds the MD5 computation.
module ChunkRanges {
  import opened Common
  import opened ObjectStore
  import opened ChunkNaming
  import opened ChunkService

  /** The slice size the client hashes the file in (2 MiB). */
  const MD5_SLICE_SIZE: nat := 2 * 1024 * 1024

  function Min(a: int, b: int): int
  {
    if a <= b then a else b
  }

  /** First byte of chunk `i`: i * chunkSize, written as repeated addition. */
  function ChunkStart(i: nat, chunkSize: nat): nat
  {
    if i == 0 then 0 else ChunkStart(i - 1, chunkSize) + chunkSize
  }

  /** The repeated addition is the product the client computes. */
  lemma {:induction false} ChunkStartIsProduct(i: nat, chunkSize: nat)
    ensures ChunkStart(i, chunkSize) == i * chunkSize
  {
    if i > 0 {
      ChunkStartIsProduct(i - 1, chunkSize);
      assert (i - 1) * chunkSize + chunkSize == i * chunkSize;
    }
  }

  /** Later chunks never start earlier. */
  lemma {:induction false} ChunkStartMonotone(a: nat, b: nat, chunkSize: nat)
    requires a <= b
    ensures ChunkStart(a, chunkSize) <= ChunkStart(b, chunkSize)
  {
    if a < b {
      ChunkStartMonotone(a, b - 1, chunkSize);
    }
  }

  /**
   * With n = ceil(size / chunkSize) chunks, the last chunk starts inside the
   * file and the chunk after it would start at or past its end.
   */
  lemma ChunkCountCovers(size: nat, chunkSize: nat)
    requires chunkSize > 0
    ensures var n := CeilDiv(size, chunkSize);
      ChunkStart(n, chunkSize) >= size && (n > 0 ==> ChunkStart(n - 1, chunkSize) < size)
  {
    var n := CeilDiv(size, chunkSize);
    ChunkStartIsProduct(n, chunkSize);
    if n > 0 {
      ChunkStartIsProduct(n - 1, chunkSize);
    }
  }

  /** One past the last byte of chunk `i`, capped at the file size. */
  function ChunkEnd(i: nat, chunkSize: nat, size: nat): nat
  {
    Min(ChunkStart(i, chunkSize) + chunkSize, size)
  }

  /** `file.slice(start, end)`: the bytes of chunk `i`, empty when the range is. */
  function Slice(file: seq<byte>, i: nat, chunkSize: nat): seq<byte>
  {
    var start := ChunkStart(i, chunkSize);
    var end := ChunkEnd(i, chunkSize, |file|);
    if start < end then file[start..end] else []
  }

  /** The first `k` chunks, in index order. */
  function ChunkSlices(file: seq<byte>, chunkSize: nat, k: nat): (slices: seq<seq<byte>>)
  {
    seq(k, i requires 0 <= i < k => Slice(file, i, chunkSize))
  }

  /** The parts concatenated in order. */
  function Flatten(parts: seq<seq<byte>>): seq<byte>
  {
    if |parts| == 0 then [] else Flatten(parts[..|parts| - 1]) + parts[|parts| - 1]
  }

  /**
   * For i in [0, totalChunks) the ranges are non-empty, start at 0, each
   * begins where the previous ends, all but the last hold exactly chunkSize
   * bytes, and the last ends at the file size: they partition the file.
   */
  lemma ChunkRangesPartition(size: nat, chunkSize: nat)
    requires chunkSize > 0
    ensures var n := CeilDiv(size, chunkSize);
      ChunkStart(0, chunkSize) == 0
      && (forall i: nat :: i < n ==> ChunkStart(i, chunkSize) < ChunkEnd(i, chunkSize, size) <= size)
      && (forall i: nat :: i + 1 < n ==> ChunkEnd(i, chunkSize, size) == ChunkStart(i + 1, chunkSize))
      && (forall i: nat :: i + 1 < n ==> ChunkEnd(i, chunkSize, size) - ChunkStart(i, chunkSize) == chunkSize)
      && (n > 0 ==> ChunkEnd(n - 1, chunkSize, size) == size)
  {
    var n := CeilDiv(size, chunkSize);
    ChunkCountCovers(size, chunkSize);
    forall i: nat | i < n
      ensures ChunkStart(i, chunkSize) < ChunkEnd(i, chunkSize, size) <= size
    {
      ChunkStartMonotone(i, n - 1, chunkSize);
    }
    forall i: nat | i + 1 < n
      ensures ChunkEnd(i, chunkSize, size) == ChunkStart(i + 1, chunkSize)
    {
      ChunkStartMonotone(i + 1, n - 1, chunkSize);
    }
  }

  lemma FlattenStep(file: seq<byte>, chunkSize: nat, k: nat)
    requires k > 0
    ensures Flatten(ChunkSlices(file, chunkSize, k))
      == Flatten(ChunkSlices(file, chunkSize, k - 1)) + Slice(file, k - 1, chunkSize)
  {
    assert ChunkSlices(file, chunkSize, k)[..k - 1] == ChunkSlices(file, chunkSize, k - 1);
  }

  lemma PrefixPlusSlice(file: seq<byte>, start: nat, end: nat)
    requires start <= end
    ensures var e := Min(end, |file|);
      file[..Min(start, |file|)] + (if start < e then file[start..e] else []) == file[..e]
  {
  }

  /** The first `k` chunks put back together are the file up to where chunk `k` would start. */
  lemma {:induction false} FlattenChunkSlices(file: seq<byte>, chunkSize: nat, k: nat)
    ensures Flatten(ChunkSlices(file, chunkSize, k)) == file[..Min(ChunkStart(k, chunkSize), |file|)]
  {
    if k > 0 {
      var start := ChunkStart(k - 1, chunkSize);
      var end := ChunkStart(k, chunkSize);
      var prev := Flatten(ChunkSlices(file, chunkSize, k - 1));
      var last := Slice(file, k - 1, chunkSize);
      assert Flatten(ChunkSlices(file, chunkSize, k)) == prev + last by {
        FlattenStep(file, chunkSize, k);
      }
      assert prev == file[..Min(start, |file|)] by {
        FlattenChunkSlices(file, chunkSize, k - 1);
      }
      assert end == start + chunkSize;
      var e := Min(end, |file|);
      assert last == (if start < e then file[start..e] else []);
      PrefixPlusSlice(file, start, end);
    }
  }

  /** Concatenating every chunk, in index order, gives back the file. */
  lemma ChunksReassemble(file: seq<byte>, chunkSize: nat)
    requires chunkSize > 0
    ensures Flatten(ChunkSlices(file, chunkSize, CeilDiv(|file|, chunkSize))) == file
  {
    var n := CeilDiv(|file|, chunkSize);
    FlattenChunkSlices(file, chunkSize, n);
    ChunkCountCovers(|file|, chunkSize);
    assert file[..|file|] == file;
  }

  /**
   * The MD5 feed loop: the 2 MiB slices of the file, in order; together they
   * are the whole file.
   */
  method Md5Slices(file: seq<byte>) returns (fed: seq<seq<byte>>)
    ensures fed == ChunkSlices(file, MD5_SLICE_SIZE, CeilDiv(|file|, MD5_SLICE_SIZE))
    ensures Flatten(fed) == file
    ensures forall i :: 0 <= i < |fed| ==> 0 < |fed[i]| <= MD5_SLICE_SIZE
  {
    var chunks := CeilDiv(|file|, MD5_SLICE_SIZE);
    fed := [];
    var i := 0;
    while i < chunks
      invariant 0 <= i <= chunks
      invariant fed == ChunkSlices(file, MD5_SLICE_SIZE, i)
    {
      var start := ChunkStart(i, MD5_SLICE_SIZE);
      var end := Min(start + MD5_SLICE_SIZE, |file|);
      var chunk := if start < end then file[start..end] else [];
      assert chunk == Slice(file, i, MD5_SLICE_SIZE);
      assert fed + [chunk] == ChunkSlices(file, MD5_SLICE_SIZE, i + 1);
      fed := fed + [chunk];
      i := i + 1;
    }
    assert Flatten(fed) == file by {
      ChunksReassemble(file, MD5_SLICE_SIZE);
    }
    SliceSizes(file, MD5_SLICE_SIZE);
  }

  /** Every chunk of the file is non-empty and at most one chunk size long. */
  lemma SliceSizes(file: seq<byte>, chunkSize: nat)
    requires chunkSize > 0
    ensures var slices := ChunkSlices(file, chunkSize, CeilDiv(|file|, chunkSize));
      forall i :: 0 <= i < |slices| ==> 0 < |slices[i]| <= chunkSize
  {
    var slices := ChunkSlices(file, chunkSize, CeilDiv(|file|, chunkSize));
    forall j | 0 <= j < |slices|
      ensures 0 < |slices[j]| <= chunkSize
    {
      ChunkRangesPartition(|file|, chunkSize);
      assert slices[j] == Slice(file, j, chunkSize);
    }
  }

  /**
   * When chunk i of the file is stored under its chunk key for every i below
   * the chunk count, composing the sources the server builds gives back the
   * file, and the store accepts the compose once chunks are at least 5 MiB.
   */
  lemma StoredChunksCompose(objects: map<string, seq<byte>>, session: string, md5: string,
                            file: seq<byte>, chunkSize: nat)
    requires chunkSize > 0
    requires forall i: nat :: i < CeilDiv(|file|, chunkSize) ==>
      ChunkKey(session, md5, i) in objects && objects[ChunkKey(session, md5, i)] == Slice(file, i, chunkSize)
    ensures var sources := ComposeSources(session, md5, CeilDiv(|file|, chunkSize));
      (forall i :: 0 <= i < |sources| ==> sources[i] in objects)
      && Concatenation(objects, sources) == file
      && (chunkSize >= MIN_PART_SIZE && |file| > 0 ==> Composable(objects, sources))
  {
    var n := CeilDiv(|file|, chunkSize);
    var sources := ComposeSources(session, md5, n);
    assert (forall i :: 0 <= i < |sources| ==> sources[i] in objects)
      && Concatenation(objects, sources) == Flatten(ChunkSlices(file, chunkSize, n)) by {
      ConcatenationOfChunks(objects, session, md5, file, chunkSize, n);
    }
    ChunksReassemble(file, chunkSize);
    if chunkSize >= MIN_PART_SIZE && |file| > 0 {
      FullChunks(objects, session, md5, file, chunkSize);
    }
  }

  /** Every chunk but the last holds exactly chunkSize bytes. */
  lemma FullChunks(objects: map<string, seq<byte>>, session: string, md5: string,
                   file: seq<byte>, chunkSize: nat)
    requires chunkSize > 0
    requires forall i: nat :: i < CeilDiv(|file|, chunkSize) ==>
      ChunkKey(session, md5, i) in objects && objects[ChunkKey(session, md5, i)] == Slice(file, i, chunkSize)
    ensures var sources := ComposeSources(session, md5, CeilDiv(|file|, chunkSize));
      forall i :: 0 <= i < |sources| - 1 ==> |objects[sources[i]]| == chunkSize
  {
    var n := CeilDiv(|file|, chunkSize);
    var sources := ComposeSources(session, md5, n);
    forall i | 0 <= i < |sources| - 1
      ensures |objects[sources[i]]| == chunkSize
    {
      ChunkRangesPartition(|file|, chunkSize);
      assert ChunkStart(i, chunkSize) < ChunkEnd(i, chunkSize, |file|);
    }
  }

  /** Concatenating stored objects that hold the given parts gives the parts flattened. */
  lemma {:induction false} ConcatenationOfParts(objects: map<string, seq<byte>>, sources: seq<string>,
                                                parts: seq<seq<byte>>)
    requires |sources| == |parts|
    requires forall i :: 0 <= i < |sources| ==> sources[i] in objects && objects[sources[i]] == parts[i]
    ensures Concatenation(objects, sources) == Flatten(parts)
  {
    if |sources| > 0 {
      var n := |sources| - 1;
      ConcatenationOfParts(objects, sources[..n], parts[..n]);
    }
  }

  lemma ConcatenationOfChunks(objects: map<string, seq<byte>>, session: string, md5: string,
                              file: seq<byte>, chunkSize: nat, k: nat)
    requires forall i: nat :: i < k ==>
      ChunkKey(session, md5, i) in objects && objects[ChunkKey(session, md5, i)] == Slice(file, i, chunkSize)
    ensures var sources := ComposeSources(session, md5, k);
      (forall i :: 0 <= i < |sources| ==> sources[i] in objects)
      && Concatenation(objects, sources) == Flatten(ChunkSlices(file, chunkSize, k))
  {
    var sources := ComposeSources(session, md5, k);
    var parts := ChunkSlices(file, chunkSize, k);
    forall i | 0 <= i < |sources|
      ensures sources[i] in objects && objects[sources[i]] == parts[i]
    {
      assert sources[i] == ChunkKey(session, md5, i);
    }
    ConcatenationOfParts(objects, sources, parts);
  }

  /**
   * A non-empty file smaller than 5 MiB is a single chunk that is smaller than
   * the size the server demands of chunk 0, so its upload can never be completed.
   */
  lemma SmallFileIsOneShortChunk(file: seq<byte>, chunkSize: nat)
    requires chunkSize >= MIN_CHUNK_SIZE && 0 < |file| < MIN_CHUNK_SIZE
    ensures CeilDiv(|file|, chunkSize) == 1
    ensures Slice(file, 0, chunkSize) == file && |Slice(file, 0, chunkSize)| < MIN_CHUNK_SIZE
  {
    assert file[0..|file|] == file;
  }
}
