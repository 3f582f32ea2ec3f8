// The server side of the chunked-upload protocol: session start, chunk upload,
// merge, status and cancel. Every piece of session state lives in the object
// store; each call rebuilds what it needs by listing keys.
module ChunkService {
  import opened Common
  import opened ObjectStore
  import opened ChunkNaming

  /** Smallest chunk size a session may use: the store's compose minimum, 5 MiB. */
  const MIN_CHUNK_SIZE: int := 5 * 1024 * 1024

  /** Result codes the protocol reports; Unknown ("9999") also stands for every store failure. */
  datatype ErrorCode = Unknown | NotUploadEmptyFile | NotUploadEmptyName | NotUploadEmptyExt | InvalidParameter

  // The request bodies. A field the client may leave out (a boxed Long or
  // Integer, or a String) is an Option; None is Java's null.

  datatype InitRequest = InitRequest(
    fileName: Option<string>, fileMd5: string, uploadSessionId: Option<string>,
    totalSize: Option<int>, chunkSize: Option<int>)

  datatype ChunkRequest = ChunkRequest(
    fileMd5: string, uploadSessionId: Option<string>, chunkNumber: Option<int>, totalChunks: Option<int>,
    file: Option<seq<byte>>)

  datatype CompleteRequest = CompleteRequest(
    fileName: Option<string>, fileMd5: string, uploadSessionId: Option<string>, totalChunks: Option<int>)

  /**
   * The chunk number and count are both present and the number lies in
   * [0, count). A missing number, or a missing count after a non-negative
   * number, is unboxed from null and throws.
   */
  predicate ChunkInRange(req: ChunkRequest)
  {
    req.chunkNumber.Some? && req.totalChunks.Some? && 0 <= req.chunkNumber.value < req.totalChunks.value
  }

  /** Progress of an upload as reported to the client. */
  datatype ChunkStatus = ChunkStatus(totalChunks: int, uploadedChunks: seq<int>, isCompleted: bool)

  /** A calendar date, as the server clock reports it. */
  datatype Date = Date(year: int, month: int, day: int)

  predicate ValidDate(d: Date)
  {
    1 <= d.year <= 9999 && 1 <= d.month <= 12 && 1 <= d.day <= 31
  }

  predicate IsLowerHex(c: char)
  {
    IsDigit(c) || 'a' <= c <= 'f'
  }

  /** A random UUID with its dashes removed: 32 lower-case hex digits. */
  predicate IsHexId(h: string)
  {
    |h| == 32 && forall i :: 0 <= i < |h| ==> IsLowerHex(h[i])
  }

  /** Ceiling of a / b for a positive divisor. */
  function CeilDiv(a: int, b: int): (r: int)
    requires b > 0
    ensures (r - 1) * b < a <= r * b
  {
    var q := a / b;
    assert a == q * b + a % b;
    if a % b == 0 then q else q + 1
  }

  /** Number of chunks of a session: ceil(totalSize / chunkSize), narrowed to an int. */
  function TotalChunks(totalSize: int, chunkSize: int): (r: int)
    requires chunkSize > 0
    ensures INT32_MIN <= r <= INT32_MAX
    ensures INT32_MIN < r < INT32_MAX ==> (r - 1) * chunkSize < totalSize <= r * chunkSize
    ensures totalSize > (INT32_MAX - 1) * chunkSize ==> r == INT32_MAX
    ensures totalSize <= INT32_MIN * chunkSize ==> r == INT32_MIN
  {
    var c := CeilDiv(totalSize, chunkSize);
    ProductOrder(INT32_MAX - 1, c, chunkSize);
    ProductOrder(c - 1, INT32_MIN, chunkSize);
    SaturateInt32(c)
  }

  /** Multiplying by a positive number keeps a strict order. */
  lemma ProductOrder(x: int, y: int, b: int)
    requires b > 0
    ensures x * b < y * b ==> x < y
  {
    if x >= y {
      assert x * b - y * b == (x - y) * b;
    }
  }

  /** The index list one listed key contributes: its index, or nothing. */
  function IndexList(key: string): seq<int>
  {
    match ChunkIndexOf(key)
    case None => []
    case Some(i) => [i]
  }

  /** The indices a run of parse outcomes holds, in order, failures skipped. */
  function Present(outcomes: seq<Option<int>>): (r: seq<int>)
    ensures |r| <= |outcomes|
  {
    if |outcomes| == 0 then []
    else
      var n := |outcomes| - 1;
      Present(outcomes[..n]) + (if outcomes[n].Some? then [outcomes[n].value] else [])
  }

  /** The parse outcome of every listed key, in listing order. */
  function Lookups(listing: seq<string>): (r: seq<Option<int>>)
    ensures |r| == |listing|
    ensures forall j :: 0 <= j < |listing| ==> r[j] == ChunkIndexOf(listing[j])
  {
    seq(|listing|, j requires 0 <= j < |listing| => ChunkIndexOf(listing[j]))
  }

  /** The chunk indices read from a listing, in listing order, duplicates kept. */
  function ParsedIndices(listing: seq<string>): (r: seq<int>)
    ensures |r| <= |listing|
  {
    Present(Lookups(listing))
  }

  /** Reading one more key appends the index it names, if any. */
  lemma ParsedIndicesStep(listing: seq<string>)
    requires |listing| > 0
    ensures ParsedIndices(listing) == ParsedIndices(listing[..|listing| - 1]) + IndexList(listing[|listing| - 1])
  {
    var n := |listing| - 1;
    assert Lookups(listing)[..n] == Lookups(listing[..n]);
  }

  /** Outcomes that all succeeded give back exactly their values. */
  lemma {:induction false} PresentOfSuccesses(outcomes: seq<Option<int>>, indices: seq<int>)
    requires |outcomes| == |indices|
    requires forall j :: 0 <= j < |outcomes| ==> outcomes[j] == Some(indices[j])
    ensures Present(outcomes) == indices
  {
    if |outcomes| > 0 {
      var n := |outcomes| - 1;
      PresentOfSuccesses(outcomes[..n], indices[..n]);
      assert indices == indices[..n] + [indices[n]];
    }
  }

  /** The keys uploadChunk writes for the indices `written`, in that order. */
  function ChunkKeys(session: string, md5: string, written: seq<int>): (keys: seq<string>)
    requires forall j :: 0 <= j < |written| ==> written[j] >= 0
    ensures |keys| == |written|
    ensures forall j :: 0 <= j < |written| ==> keys[j] == ChunkKey(session, md5, written[j])
  {
    seq(|written|, j requires 0 <= j < |written| => ChunkKey(session, md5, written[j]))
  }

  /** Listing the chunks uploadChunk wrote gives back exactly their indices. */
  lemma ParsedIndicesOfChunkKeys(session: string, md5: string, written: seq<int>)
    requires forall j :: 0 <= j < |written| ==> 0 <= written[j] <= INT32_MAX
    ensures ParsedIndices(ChunkKeys(session, md5, written)) == written
  {
    var keys := ChunkKeys(session, md5, written);
    forall j | 0 <= j < |keys|
      ensures Lookups(keys)[j] == Some(written[j])
    {
      ChunkIndexOfChunkKey(session, md5, written[j]);
    }
    PresentOfSuccesses(Lookups(keys), written);
  }

  /**
   * When only uploadChunk wrote under a session directory, each index at most
   * once and all below totalChunks, the count check of initChunkUpload agrees
   * with the membership check: complete exactly when every index is present.
   */
  lemma InitCompletionOfUploadedChunks(session: string, md5: string, written: seq<int>, totalChunks: nat)
    requires forall j :: 0 <= j < |written| ==> 0 <= written[j] < totalChunks && written[j] <= INT32_MAX
    requires Distinct(written)
    ensures var found := ParsedIndices(ChunkKeys(session, md5, written));
      |found| >= totalChunks <==> forall i :: 0 <= i < totalChunks ==> i in found
  {
    ParsedIndicesOfChunkKeys(session, md5, written);
    CountIffCovered(written, totalChunks);
  }

  /**
   * The count check is not a membership check: two keys naming index 0 make a
   * two-chunk session report completed while chunk 1 is missing.
   */
  lemma InitCountIsNotMembership(session: string, md5: string)
    ensures var dir := ChunkDir(session, md5);
      var found := ParsedIndices([dir + "0.chunk", dir + "00.chunk"]);
      found == [0, 0] && |found| >= 2 && 1 !in found
  {
    var keys := [ChunkDir(session, md5) + "0.chunk", ChunkDir(session, md5) + "00.chunk"];
    ZeroKeys(ChunkDir(session, md5));
    assert Lookups(keys) == [Some(0), Some(0)];
    PresentOfSuccesses(Lookups(keys), [0, 0]);
  }

  /** "0.chunk" and "00.chunk" in one directory both read back as index 0. */
  lemma ZeroKeys(dir: string)
    requires |dir| > 0 && dir[|dir| - 1] == '/'
    ensures ChunkIndexOf(dir + "0.chunk") == Some(0)
    ensures ChunkIndexOf(dir + "00.chunk") == Some(0)
  {
    assert DigitsValue("0") == 0 && DigitsValue("00") == 0 by {
      assert "00"[..1] == "0";
      assert "0"[..0] == "";
    }
    assert dir + "0.chunk" == dir + "0" + CHUNK_SUFFIX;
    assert dir + "00.chunk" == dir + "00" + CHUNK_SUFFIX;
    ChunkIndexOfDigits(dir, "0");
    ChunkIndexOfDigits(dir, "00");
    ParseIntOfDigits("0");
    ParseIntOfDigits("00");
  }

  /** Where cancel deletes: the session when one is named, otherwise the digest. */
  function CancelPrefix(fileMd5: string, uploadSessionId: Option<string>): string
  {
    if !IsBlankOpt(uploadSessionId) then SessionPrefix(uploadSessionId.value) else DigestPrefix(fileMd5)
  }

  /** Cancelling twice leaves the store as cancelling once. */
  lemma CancelIdempotent(objects: map<string, seq<byte>>, prefix: string)
    ensures RemoveUnder(RemoveUnder(objects, prefix), prefix) == RemoveUnder(objects, prefix)
  {
  }

  /** After a session is cleared, no file of that session has a chunk left. */
  lemma ClearedSessionHasNoChunks(objects: map<string, seq<byte>>, session: string, md5: string)
    ensures KeysUnder(RemoveUnder(objects, SessionPrefix(session)), ChunkDir(session, md5)) == {}
  {
    var dir := ChunkDir(session, md5);
    ChunkKeyLocation(session, md5, 0);
    forall k | StartsWith(k, dir)
      ensures StartsWith(k, SessionPrefix(session))
    {
      StartsWithTransitive(k, dir, SessionPrefix(session));
    }
  }

  /** The compose sources of a merge: chunks 0 .. totalChunks-1, in index order. */
  function ComposeSources(session: string, md5: string, totalChunks: int): (sources: seq<string>)
    ensures |sources| == if totalChunks > 0 then totalChunks else 0
    ensures forall i :: 0 <= i < |sources| ==> sources[i] == ChunkKey(session, md5, i)
  {
    if totalChunks <= 0 then []
    else seq(totalChunks, i requires 0 <= i < totalChunks => ChunkKey(session, md5, i))
  }

  /** The file extension, dot included, of a name that has one. */
  function Extension(fileName: string): (ext: string)
    requires '.' in fileName
    ensures |ext| > 0 && ext[0] == '.' && EndsWith(fileName, ext)
    ensures '.' !in ext[1..]
  {
    var i := LastIndexOf(fileName, '.');
    assert fileName[|fileName| - |fileName[i..]|..] == fileName[i..];
    fileName[i..]
  }

  /** `s` left-padded with '0' to at least `width` characters. */
  function PadZeros(s: string, width: nat): (r: string)
    ensures |r| == if |s| >= width then |s| else width
    ensures EndsWith(r, s)
  {
    if |s| >= width then s else seq(width - |s|, _ => '0') + s
  }

  /** The date directory "/yyyy/MM/dd/" of a final object. */
  function DatePath(d: Date): string
    requires ValidDate(d)
  {
    "/" + PadZeros(NatToString(d.year), 4) + "/" + PadZeros(NatToString(d.month), 2) + "/"
    + PadZeros(NatToString(d.day), 2) + "/"
  }

  /** The key of a merged file: date directory, random id, original extension. */
  function FinalKey(d: Date, hexId: string, ext: string): string
    requires ValidDate(d)
  {
    DatePath(d) + hexId + ext
  }

  function Pow10(w: nat): nat
  {
    if w == 0 then 1 else 10 * Pow10(w - 1)
  }

  lemma {:induction false} NatToStringLength(n: nat, width: nat)
    requires width >= 1 && n < Pow10(width)
    ensures |NatToString(n)| <= width
  {
    if n >= 10 {
      NatToStringLength(n / 10, width - 1);
    }
  }

  lemma {:induction false} ZerosValue(z: string)
    requires forall i :: 0 <= i < |z| ==> z[i] == '0'
    ensures forall i :: 0 <= i < |z| ==> IsDigit(z[i])
    ensures DigitsValue(z) == 0
  {
    if |z| > 0 {
      ZerosValue(z[..|z| - 1]);
    }
  }

  /** Leading zeros do not change the value of a digit string. */
  lemma {:induction false} LeadingZerosValue(z: string, s: string)
    requires forall i :: 0 <= i < |z| ==> z[i] == '0'
    requires forall i :: 0 <= i < |s| ==> IsDigit(s[i])
    ensures forall i :: 0 <= i < |z + s| ==> IsDigit((z + s)[i])
    ensures DigitsValue(z + s) == DigitsValue(s)
  {
    ZerosValue(z);
    if |s| == 0 {
      assert z + s == z;
    } else {
      var n := |s| - 1;
      assert (z + s)[..|z + s| - 1] == z + s[..n];
      LeadingZerosValue(z, s[..n]);
    }
  }

  /** The padded decimal text of a number below 10^width: `width` digits with that value. */
  lemma PaddedNumber(n: nat, width: nat)
    requires width >= 1 && n < Pow10(width)
    ensures var t := PadZeros(NatToString(n), width);
      |t| == width && (forall i :: 0 <= i < width ==> IsDigit(t[i])) && DigitsValue(t) == n
  {
    var s := NatToString(n);
    NatToStringLength(n, width);
    DigitsValueOfNatToString(n);
    if |s| < width {
      LeadingZerosValue(seq(width - |s|, _ => '0'), s);
    }
  }

  /** The three padded fields of a valid date: 4, 2 and 2 digits reading back as the date. */
  lemma PaddedDate(d: Date)
    requires ValidDate(d)
    ensures var y := PadZeros(NatToString(d.year), 4);
      |y| == 4 && (forall i :: 0 <= i < 4 ==> IsDigit(y[i])) && DigitsValue(y) == d.year
    ensures var m := PadZeros(NatToString(d.month), 2);
      |m| == 2 && (forall i :: 0 <= i < 2 ==> IsDigit(m[i])) && DigitsValue(m) == d.month
    ensures var dd := PadZeros(NatToString(d.day), 2);
      |dd| == 2 && (forall i :: 0 <= i < 2 ==> IsDigit(dd[i])) && DigitsValue(dd) == d.day
  {
    assert Pow10(2) == 100 && Pow10(4) == 10000 by {
      assert Pow10(1) == 10;
      assert Pow10(3) == 1000;
    }
    PaddedNumber(d.year, 4);
    PaddedNumber(d.month, 2);
    PaddedNumber(d.day, 2);
  }

  lemma FinalKeyText(d: Date, hexId: string, ext: string)
    requires ValidDate(d)
    ensures FinalKey(d, hexId, ext) == "/" + PadZeros(NatToString(d.year), 4) + "/"
      + PadZeros(NatToString(d.month), 2) + "/" + PadZeros(NatToString(d.day), 2) + "/" + hexId + ext
  {
  }

  /** Where each field of "/" + y + "/" + m + "/" + dd + "/" + h + e lands. */
  lemma DatedKeySlices(y: string, m: string, dd: string, h: string, e: string)
    requires |y| == 4 && |m| == 2 && |dd| == 2 && |h| == 32
    ensures var k := "/" + y + "/" + m + "/" + dd + "/" + h + e;
      |k| == 44 + |e| && k[0] == '/' && k[5] == '/' && k[8] == '/' && k[11] == '/'
      && k[1..5] == y && k[6..8] == m && k[9..11] == dd && k[12..44] == h && k[44..] == e
  {
    var k := "/" + y + "/" + m + "/" + dd + "/" + h + e;
    var k1 := "/" + y;
    var k2 := k1 + "/" + m;
    var k3 := k2 + "/" + dd;
    var k4 := k3 + "/" + h;
    assert k == k4 + e;
    assert k4 == k[..44];
    assert k3 == k[..11] && k2 == k[..8] && k1 == k[..5];
    assert k1[1..] == y;
    assert k2[6..] == m;
    assert k3[9..] == dd;
    assert k4[12..] == h;
  }

  /**
   * A final key has the layout "/yyyy/MM/dd/" + 32 hex digits + extension, its
   * date fields parse back as the date it was made with, and it lies outside
   * the reserved chunk prefix.
   */
  lemma FinalKeyLayout(d: Date, hexId: string, ext: string)
    requires ValidDate(d) && IsHexId(hexId)
    ensures var k := FinalKey(d, hexId, ext);
      |k| == 44 + |ext| && k[0] == '/' && k[5] == '/' && k[8] == '/' && k[11] == '/'
      && ParseInt(k[1..5]) == Some(d.year) && ParseInt(k[6..8]) == Some(d.month)
      && ParseInt(k[9..11]) == Some(d.day)
      && k[12..44] == hexId && k[44..] == ext
      && !StartsWith(k, CHUNK_UPLOAD_PREFIX)
  {
    PaddedDate(d);
    var y := PadZeros(NatToString(d.year), 4);
    var m := PadZeros(NatToString(d.month), 2);
    var dd := PadZeros(NatToString(d.day), 2);
    var k := FinalKey(d, hexId, ext);
    FinalKeyText(d, hexId, ext);
    DatedKeySlices(y, m, dd, hexId, ext);
    ParseIntOfDigits(y);
    ParseIntOfDigits(m);
    ParseIntOfDigits(dd);
    assert k[0] != CHUNK_UPLOAD_PREFIX[0];
    assert !StartsWith(k, CHUNK_UPLOAD_PREFIX) by {
      assert |k| >= |CHUNK_UPLOAD_PREFIX| ==> k[..|CHUNK_UPLOAD_PREFIX|][0] == k[0];
    }
  }

  /** The present indices are exactly the values of the successful outcomes. */
  lemma {:induction false} PresentMembers(outcomes: seq<Option<int>>, i: int)
    ensures i in Present(outcomes) <==> exists j :: 0 <= j < |outcomes| && outcomes[j] == Some(i)
  {
    if |outcomes| > 0 {
      var n := |outcomes| - 1;
      PresentMembers(outcomes[..n], i);
      if i in Present(outcomes[..n]) {
        var j :| 0 <= j < n && outcomes[..n][j] == Some(i);
        assert outcomes[j] == Some(i);
      }
      if j :| 0 <= j < |outcomes| && outcomes[j] == Some(i) {
        if j < n {
          assert outcomes[..n][j] == Some(i);
        }
      }
    }
  }

  /** An index read from a listed key shows up in the parsed indices. */
  lemma ParsedIndicesContain(listing: seq<string>, j: int, i: int)
    requires 0 <= j < |listing| && ChunkIndexOf(listing[j]) == Some(i)
    ensures i in ParsedIndices(listing)
  {
    PresentMembers(Lookups(listing), i);
    assert Lookups(listing)[j] == Some(i);
  }

  /** Every parsed index comes from some listed key. */
  lemma ParsedIndicesFrom(listing: seq<string>, i: int)
    requires i in ParsedIndices(listing)
    ensures exists j :: 0 <= j < |listing| && ChunkIndexOf(listing[j]) == Some(i)
  {
    PresentMembers(Lookups(listing), i);
    var j :| 0 <= j < |listing| && Lookups(listing)[j] == Some(i);
  }

  /**
   * A chunk that uploadChunk stored is reported by the next initChunkUpload
   * of the same session and digest, whatever order the listing comes in.
   */
  lemma UploadedChunkIsListed(objects: map<string, seq<byte>>, session: string, md5: string, n: nat,
                              data: seq<byte>, listing: seq<string>)
    requires n <= INT32_MAX
    requires forall k :: k in listing <==>
      k in objects[ChunkKey(session, md5, n) := data] && StartsWith(k, ChunkDir(session, md5))
    ensures n in ParsedIndices(listing)
  {
    var key := ChunkKey(session, md5, n);
    ChunkKeyLocation(session, md5, n);
    assert key in listing;
    var j :| 0 <= j < |listing| && listing[j] == key;
    ChunkIndexOfChunkKey(session, md5, n);
    ParsedIndicesContain(listing, j, n);
  }

  /** The distinct chunk indices of a listing, in first-seen order. */
  function DistinctIndices(listing: seq<string>): (r: seq<int>)
    ensures Distinct(r)
    ensures forall i :: i in r <==> i in ParsedIndices(listing)
  {
    if |listing| == 0 then []
    else
      var n := |listing| - 1;
      var prev := DistinctIndices(listing[..n]);
      ParsedIndicesStep(listing);
      match ChunkIndexOf(listing[n])
      case Some(i) =>
        if i in prev then prev
        else
          assert forall x :: x in prev + [i] <==> x in prev || x == i;
          prev + [i]
      case None => prev
  }

  predicate SortedAscending(s: seq<int>)
  {
    forall i, j :: 0 <= i < j < |s| ==> s[i] <= s[j]
  }

  function InsertSorted(x: int, s: seq<int>): (r: seq<int>)
    requires SortedAscending(s)
    ensures SortedAscending(r) && multiset(r) == multiset(s) + multiset{x}
  {
    if |s| == 0 || x <= s[0] then [x] + s
    else
      var rest := InsertSorted(x, s[1..]);
      assert s == [s[0]] + s[1..];
      SortedCons(s[0], x, s[1..], rest);
      [s[0]] + rest
  }

  /** A head no larger than anything in a sorted permutation of x :: tail keeps it sorted. */
  lemma SortedCons(head: int, x: int, tail: seq<int>, rest: seq<int>)
    requires head < x && SortedAscending([head] + tail)
    requires SortedAscending(rest) && multiset(rest) == multiset(tail) + multiset{x}
    ensures SortedAscending([head] + rest)
  {
    forall k | 0 <= k < |rest|
      ensures head <= rest[k]
    {
      assert rest[k] in multiset(rest);
      if rest[k] != x {
        assert rest[k] in multiset(tail);
        assert rest[k] in tail;
        var j :| 0 <= j < |tail| && tail[j] == rest[k];
        assert ([head] + tail)[0] == head && ([head] + tail)[j + 1] == tail[j];
      }
    }
  }

  /** The indices in ascending order: the same multiset, sorted. */
  function SortAscending(s: seq<int>): (r: seq<int>)
    ensures SortedAscending(r) && multiset(r) == multiset(s)
  {
    if |s| == 0 then []
    else
      assert s == s[..|s| - 1] + [s[|s| - 1]];
      InsertSorted(s[|s| - 1], SortAscending(s[..|s| - 1]))
  }

  /** The largest element of a non-empty sequence. */
  function MaxOf(s: seq<int>): (m: int)
    requires |s| > 0
    ensures m in s && forall x :: x in s ==> x <= m
  {
    if |s| == 1 then s[0]
    else
      var rest := MaxOf(s[1..]);
      assert s == [s[0]] + s[1..];
      if s[0] >= rest then s[0] else rest
  }

  /**
   * The chunk count getChunkUploadStatus infers: one past the largest index,
   * computed in 32-bit arithmetic, or 0 when nothing was found.
   */
  function InferredTotal(uploaded: seq<int>): (t: int)
    ensures |uploaded| == 0 ==> t == 0
    ensures |uploaded| > 0 && INT32_MIN <= MaxOf(uploaded) < INT32_MAX ==> t == MaxOf(uploaded) + 1
  {
    if |uploaded| == 0 then 0 else WrapInt32(MaxOf(uploaded) + 1)
  }

  /**
   * For indices that are all non-negative and below INT32_MAX, the status is
   * complete exactly when every index from 0 to the largest one is present.
   */
  lemma StatusCompletedIffContiguous(uploaded: seq<int>)
    requires Distinct(uploaded)
    requires forall j :: 0 <= j < |uploaded| ==> 0 <= uploaded[j] < INT32_MAX
    ensures var total := InferredTotal(uploaded);
      |uploaded| >= total <==> forall i :: 0 <= i < total ==> i in uploaded
  {
    if |uploaded| > 0 {
      var total := MaxOf(uploaded) + 1;
      forall j | 0 <= j < |uploaded|
        ensures 0 <= uploaded[j] < total
      {
        assert uploaded[j] in uploaded;
      }
      CountIffCovered(uploaded, total);
    }
  }

  /** A listing with no readable chunk key is reported as a completed zero-chunk upload. */
  lemma StatusOfNothingIsCompleted(listing: seq<string>)
    requires forall j :: 0 <= j < |listing| ==> ChunkIndexOf(listing[j]).None?
    ensures var u := DistinctIndices(listing);
      u == [] && InferredTotal(u) == 0 && |u| >= InferredTotal(u)
  {
    var u := DistinctIndices(listing);
    if |u| > 0 {
      ParsedIndicesFrom(listing, u[0]);
    }
  }

  /** A single chunk named INT32_MAX wraps the inferred count to INT32_MIN, which reads as completed. */
  lemma StatusCountWraps()
    ensures InferredTotal([INT32_MAX]) == INT32_MIN
  {
    assert MaxOf([INT32_MAX]) == INT32_MAX;
  }

  /** A merged file never lies under a session's staging prefix, so clearing the session keeps it. */
  lemma FinalKeyOutsideSessions(d: Date, hexId: string, ext: string, session: string)
    requires ValidDate(d) && IsHexId(hexId)
    ensures !StartsWith(FinalKey(d, hexId, ext), SessionPrefix(session))
  {
    var k := FinalKey(d, hexId, ext);
    FinalKeyText(d, hexId, ext);
    assert k[0] == '/';
    assert SessionPrefix(session)[0] == '.';
  }

  /** Reads the chunk index of every listed key, in order, duplicates kept. */
  method CollectIndices(keys: seq<string>) returns (uploaded: seq<int>)
    ensures uploaded == ParsedIndices(keys)
  {
    uploaded := [];
    var j := 0;
    while j < |keys|
      invariant 0 <= j <= |keys|
      invariant uploaded == ParsedIndices(keys[..j])
    {
      assert keys[..j + 1][..j] == keys[..j];
      ParsedIndicesStep(keys[..j + 1]);
      match ChunkIndexOf(keys[j]) {
        case Some(i) => uploaded := uploaded + [i];
        case None =>
      }
      j := j + 1;
    }
    assert keys[..j] == keys;
  }

  /** Reads the chunk indices of the listed keys, skipping indices already seen. */
  method CollectDistinctIndices(keys: seq<string>) returns (uploaded: seq<int>)
    ensures uploaded == DistinctIndices(keys)
  {
    uploaded := [];
    var j := 0;
    while j < |keys|
      invariant 0 <= j <= |keys|
      invariant uploaded == DistinctIndices(keys[..j])
    {
      assert keys[..j + 1][..j] == keys[..j];
      match ChunkIndexOf(keys[j]) {
        case Some(i) =>
          if i !in uploaded {
            uploaded := uploaded + [i];
          }
        case None =>
      }
      j := j + 1;
    }
    assert keys[..j] == keys;
  }

  /** The compose sources "{dir}{i}.chunk" for i = 0 .. totalChunks-1. */
  method ComposeSourceList(session: string, md5: string, totalChunks: int) returns (sources: seq<string>)
    ensures sources == ComposeSources(session, md5, totalChunks)
  {
    sources := [];
    var i := 0;
    while i < totalChunks
      invariant 0 <= i <= (if totalChunks > 0 then totalChunks else 0)
      invariant sources == ComposeSources(session, md5, i)
    {
      sources := sources + [ChunkKey(session, md5, i)];
      i := i + 1;
      assert sources == ComposeSources(session, md5, i);
    }
    if totalChunks <= 0 {
      assert sources == [];
      assert |ComposeSources(session, md5, totalChunks)| == 0;
    }
  }

  /**
   * The chunked-upload endpoints over one bucket (the configured default
   * bucket), with the CDN endpoint used to build the merged file's URL.
   */
  class ChunkUploadService {
    const store: Store
    const bucketName: string
    const endpointCdn: string

    constructor (store: Store, bucketName: string, endpointCdn: string)
      ensures this.store == store && this.bucketName == bucketName && this.endpointCdn == endpointCdn
    {
      this.store := store;
      this.bucketName := bucketName;
      this.endpointCdn := endpointCdn;
    }

    /**
     * Starts or resumes a session. Validation happens in order (name, session,
     * chunk size, extension); a missing total size then throws when it is
     * unboxed (reported as "9999"). Otherwise the chunk directory of
     * (session, digest) is listed and the indices already present are
     * reported, duplicates kept.
     * `listing` is the order the store enumerated that directory in.
     */
    method InitChunkUpload(req: InitRequest) returns (r: Result<ChunkStatus, ErrorCode>, ghost listing: seq<string>)
      ensures IsBlankOpt(req.fileName) ==> r == Err(NotUploadEmptyName)
      ensures !IsBlankOpt(req.fileName) && IsBlankOpt(req.uploadSessionId) ==> r == Err(InvalidParameter)
      ensures (!IsBlankOpt(req.fileName) && !IsBlankOpt(req.uploadSessionId)
               && (req.chunkSize.None? || req.chunkSize.value < MIN_CHUNK_SIZE)) ==> r == Err(InvalidParameter)
      ensures (!IsBlankOpt(req.fileName) && !IsBlankOpt(req.uploadSessionId)
               && req.chunkSize.Some? && req.chunkSize.value >= MIN_CHUNK_SIZE
               && '.' !in req.fileName.value) ==> r == Err(NotUploadEmptyExt)
      ensures (!IsBlankOpt(req.fileName) && !IsBlankOpt(req.uploadSessionId)
               && req.chunkSize.Some? && req.chunkSize.value >= MIN_CHUNK_SIZE
               && '.' in req.fileName.value && req.totalSize.None?) ==> r == Err(Unknown)
      ensures r.Ok? <==> (!IsBlankOpt(req.fileName) && !IsBlankOpt(req.uploadSessionId)
                          && req.chunkSize.Some? && req.chunkSize.value >= MIN_CHUNK_SIZE && '.' in req.fileName.value
                          && req.totalSize.Some?)
      ensures r.Ok? ==>
        var dir := ChunkDir(req.uploadSessionId.value, req.fileMd5);
        var total := TotalChunks(req.totalSize.value, req.chunkSize.value);
        Distinct(listing)
        && (forall k :: k in listing <==> k in store.objects && StartsWith(k, dir))
        && r.value.totalChunks == total
        && r.value.uploadedChunks == ParsedIndices(listing)
        && r.value.isCompleted == (|r.value.uploadedChunks| >= total)
    {
      listing := [];
      if IsBlankOpt(req.fileName) {
        return Err(NotUploadEmptyName), listing;
      }
      if IsBlankOpt(req.uploadSessionId) {
        return Err(InvalidParameter), listing;
      }
      if req.chunkSize.None? || req.chunkSize.value < MIN_CHUNK_SIZE {
        return Err(InvalidParameter), listing;
      }
      if LastIndexOf(req.fileName.value, '.') == -1 {
        return Err(NotUploadEmptyExt), listing;
      }
      if req.totalSize.None? {
        return Err(Unknown), listing;
      }
      var totalChunks := TotalChunks(req.totalSize.value, req.chunkSize.value);
      var dir := ChunkDir(req.uploadSessionId.value, req.fileMd5);
      var keys := store.ListByPrefix(dir);
      var uploaded := CollectIndices(keys);
      listing := keys;
      r := Ok(ChunkStatus(totalChunks, uploaded, |uploaded| >= totalChunks));
    }

    /**
     * Stores one chunk at `.chunk-uploads/{session}/{md5}/{n}.chunk`, after
     * checking (in order) that a non-empty file came, a session is named and
     * 0 <= n < totalChunks, both present. A rejected call leaves the store as
     * it was.
     */
    method UploadChunk(req: ChunkRequest) returns (r: Result<(), ErrorCode>)
      modifies store
      ensures req.file.None? || |req.file.value| == 0 ==> r == Err(NotUploadEmptyFile)
      ensures req.file.Some? && |req.file.value| > 0 && IsBlankOpt(req.uploadSessionId) ==> r == Err(InvalidParameter)
      ensures (req.file.Some? && |req.file.value| > 0 && !IsBlankOpt(req.uploadSessionId)
               && !ChunkInRange(req)) ==> r == Err(Unknown)
      ensures r.Ok? <==> (req.file.Some? && |req.file.value| > 0 && !IsBlankOpt(req.uploadSessionId)
                          && ChunkInRange(req))
      ensures r.Err? ==> store.objects == old(store.objects)
      ensures r.Ok? ==>
        store.objects == old(store.objects)[ChunkKey(req.uploadSessionId.value, req.fileMd5, req.chunkNumber.value) := req.file.value]
    {
      if req.file.None? || |req.file.value| == 0 {
        return Err(NotUploadEmptyFile);
      }
      if IsBlankOpt(req.uploadSessionId) {
        return Err(InvalidParameter);
      }
      // unboxing a null Integer throws, which is reported as "9999" too
      if req.chunkNumber.None? || req.chunkNumber.value < 0 {
        return Err(Unknown);
      }
      if req.totalChunks.None? || req.chunkNumber.value >= req.totalChunks.value {
        return Err(Unknown);
      }
      var chunkPath := ChunkKey(req.uploadSessionId.value, req.fileMd5, req.chunkNumber.value);
      store.Put(chunkPath, req.file.value);
      r := Ok(());
    }

    /**
     * Lists every key under `prefix` and removes each; returns how many were
     * removed.
     */
    method DeleteUnder(prefix: string) returns (deletedCount: nat)
      modifies store
      ensures store.objects == RemoveUnder(old(store.objects), prefix)
      ensures deletedCount == |KeysUnder(old(store.objects), prefix)|
    {
      var keys := store.ListByPrefix(prefix);
      ghost var start := store.objects;
      deletedCount := 0;
      var j := 0;
      while j < |keys|
        invariant 0 <= j <= |keys|
        invariant deletedCount == j
        invariant forall k :: k in store.objects <==> k in start && k !in keys[..j]
        invariant forall k :: k in store.objects ==> store.objects[k] == start[k]
      {
        store.Remove(keys[j]);
        deletedCount := deletedCount + 1;
        assert forall k :: k in keys[..j + 1] <==> k in keys[..j] || k == keys[j];
        j := j + 1;
      }
      assert keys[..j] == keys;
      assert store.objects == RemoveUnder(start, prefix);
      assert ToSet(keys) == KeysUnder(start, prefix);
      DistinctCardinality(keys);
    }

    /**
     * Merges chunks 0 .. totalChunks-1 of (session, digest) into the file
     * "/yyyy/MM/dd/{hexId}{ext}" and clears the whole session. `today` and
     * `hexId` stand for the server clock and the random UUID. A missing file
     * name, or a missing count once the first chunk has passed its size
     * check, throws and is reported as "9999".
     */
    method CompleteChunkUpload(req: CompleteRequest, today: Date, hexId: string) returns (r: Result<string, ErrorCode>)
      requires ValidDate(today) && IsHexId(hexId)
      modifies store
      ensures IsBlankOpt(req.uploadSessionId) ==> r == Err(InvalidParameter)
      ensures !IsBlankOpt(req.uploadSessionId) && req.fileName.None? ==> r == Err(Unknown)
      ensures !IsBlankOpt(req.uploadSessionId) && req.fileName.Some? && '.' !in req.fileName.value ==> r == Err(NotUploadEmptyExt)
      ensures !IsBlankOpt(req.uploadSessionId) && req.fileName.Some? && '.' in req.fileName.value ==>
        var first := ChunkKey(req.uploadSessionId.value, req.fileMd5, 0);
        (first !in old(store.objects) ==> r == Err(Unknown))
        && (first in old(store.objects) && |old(store.objects)[first]| < MIN_CHUNK_SIZE ==> r == Err(InvalidParameter))
        && (first in old(store.objects) && |old(store.objects)[first]| >= MIN_CHUNK_SIZE ==>
              (r.Ok? <==> req.totalChunks.Some?
                          && Composable(old(store.objects), ComposeSources(req.uploadSessionId.value, req.fileMd5, req.totalChunks.value)))
              && (r.Err? ==> r == Err(Unknown)))
      ensures r.Err? ==> store.objects == old(store.objects)
      ensures r.Ok? ==>
        var session := req.uploadSessionId.value;
        var sources := ComposeSources(session, req.fileMd5, req.totalChunks.value);
        var finalKey := FinalKey(today, hexId, Extension(req.fileName.value));
        Composable(old(store.objects), sources)
        && r.value == endpointCdn + bucketName + finalKey
        && store.objects == RemoveUnder(old(store.objects)[finalKey := Concatenation(old(store.objects), sources)],
                                        SessionPrefix(session))
        && finalKey in store.objects && store.objects[finalKey] == Concatenation(old(store.objects), sources)
    {
      if IsBlankOpt(req.uploadSessionId) {
        return Err(InvalidParameter);
      }
      if req.fileName.None? {
        return Err(Unknown);
      }
      if LastIndexOf(req.fileName.value, '.') == -1 {
        return Err(NotUploadEmptyExt);
      }
      var ext := Extension(req.fileName.value);
      var finalFilePath := FinalKey(today, hexId, ext);
      var session := req.uploadSessionId.value;
      // "0.chunk" in the chunk directory
      var firstChunkSize := store.Stat(ChunkKey(session, req.fileMd5, 0));
      if firstChunkSize.None? {
        return Err(Unknown);
      }
      if firstChunkSize.value < MIN_CHUNK_SIZE {
        return Err(InvalidParameter);
      }
      if req.totalChunks.None? {
        return Err(Unknown);
      }
      var sources := ComposeSourceList(session, req.fileMd5, req.totalChunks.value);
      var ok := store.Compose(finalFilePath, sources);
      if !ok {
        return Err(Unknown);
      }
      var deletedCount := DeleteUnder(SessionPrefix(session));
      FinalKeyOutsideSessions(today, hexId, ext, session);
      r := Ok(endpointCdn + bucketName + finalFilePath);
    }

    /**
     * Reports which chunks of a digest exist under `.chunk-uploads/{md5}/`
     * (no session level), each index once and sorted, with a count inferred
     * from the largest index.
     */
    method GetChunkUploadStatus(fileMd5: string) returns (status: ChunkStatus, ghost listing: seq<string>)
      ensures Distinct(listing)
      ensures forall k :: k in listing <==> k in store.objects && StartsWith(k, DigestPrefix(fileMd5))
      ensures SortedAscending(status.uploadedChunks)
      ensures multiset(status.uploadedChunks) == multiset(DistinctIndices(listing))
      ensures status.totalChunks == InferredTotal(DistinctIndices(listing))
      ensures status.isCompleted == (|DistinctIndices(listing)| >= status.totalChunks)
    {
      var keys := store.ListByPrefix(DigestPrefix(fileMd5));
      var uploaded := CollectDistinctIndices(keys);
      listing := keys;
      var totalChunks := InferredTotal(uploaded);
      status := ChunkStatus(totalChunks, SortAscending(uploaded), |uploaded| >= totalChunks);
    }

    /**
     * Deletes a session's staged chunks, or, with no session named, whatever
     * lies under `.chunk-uploads/{md5}/`.
     */
    method CancelChunkUpload(fileMd5: string, uploadSessionId: Option<string>)
      modifies store
      ensures store.objects == RemoveUnder(old(store.objects), CancelPrefix(fileMd5, uploadSessionId))
    {
      var prefix: string;
      if !IsBlankOpt(uploadSessionId) {
        prefix := SessionPrefix(uploadSessionId.value);
      } else {
        prefix := DigestPrefix(fileMd5);
      }
      var deletedCount := DeleteUnder(prefix);
    }
  }
}
