# oss-server core, modelled in Dafny

oss-server is a Spring Boot front end to a MinIO object store with a browser
UI. This project models its core: the chunked-upload protocol on both sides,
the policy-template registry, and the pure helpers around them.

- **Server side of chunked uploads** (`ChunkService`, over `ObjectStore`, `ChunkNaming`, `ChunkRanges`).
  - Chunks are staged under `.chunk-uploads/{session}/{md5}/{n}.chunk`.
  - Sessions are started or resumed by listing that directory.
  - A finished upload is merged by a server-side compose into `/yyyy/MM/dd/{32 hex}{ext}`.
  - Sessions are cleared by deleting everything under a prefix.
  - The store is a class over a `map<string, seq<byte>>` with put, stat, list-by-prefix, remove and compose.
- **Client side** (`ChunkClient`): the `ChunkUploader` object of the browser.
  - Chunk sizing and the chunk count.
  - The byte range of each chunk.
  - The missing-index lists of `uploadChunks` and `retryFailed`.
  - The merge of indices the server reported.
  - The progress counters, and `reset`.
  - The 2 MiB slices fed to the MD5 hash (`ChunkRanges.Md5Slices`).
- **Policy-template registry** (`PolicyRegistry`): a class over a map.
  - Seeded with the built-in templates `public`, `readonly` and `private`.
  - Create, list, get, update, delete and apply.
- **Policy documents.**
  - The server's builders (`OssProcessor`, `OssUtils`, over `PolicyText`).
  - The browser's classifier `determinePolicyType`, its preset documents and its type labels (`PolicyClassifier`).
- **Browsing** (`FileListing`, `FileBrowser`).
  - The server's filter that keeps the direct children of a prefix.
  - The browser's breadcrumb and file-list entries.
- **`getContentType`**: the extension-to-MIME table (`ContentType`).
- **`getFileNameByObjectName`** (`OssProcessor`).

Inputs the server takes from outside are passed in as parameters:
- the current date and the random 32-hex id of a merged file;
- the order the store lists a directory in (a ghost out-parameter);
- which client chunk uploads fail (a set of indices);
- what `JSON.parse` makes of a policy text (a parsed-document datatype).

Java's 32-bit `int` is modelled where the code narrows or overflows:
- the `(int)` cast of the chunk count saturates;
- `max + 1` in the status count wraps.

Some behaviour of the code disagrees with its own comments, and the model follows the code:
- `getFileNameByObjectName` is documented as returning the name without its suffix, but it returns the text after the last '.' (the extension).
- The later `private` branch of `determinePolicyType` can never be taken.
- The status query lists `.chunk-uploads/{md5}/`, so it misses the chunks of a session unless the session id equals the digest (`ChunkNaming.DigestPrefixSeesChunkKey`).

Two differences between the server and the page are kept apart:
- The server's blank test is commons-lang `isBlank` (Java's `Character.isWhitespace`), while the page trims with JavaScript's `trim`. The two whitespace sets differ both ways (`Common.BlankTestsDiffer`).
- Selecting a file sets the file and session at once, but the digest arrives later, asynchronously. Until it does, `startUpload` sees the new file with the previous file's digest.

The protocol returns `ErrorCode.INVALID_PARAMETER`, but that constant is missing from `ErrorCode.java` as shipped. It is modelled as its own error kind, `InvalidParameter`, without a code string.

## Model

| member | source | states |
|---|---|---|
| ObjectStore.KeysUnder | src/main/java/com/luckykuang/oss/service/impl/OssServiceImpl.java:531-536 | definition (the reference for listing and clearing): the stored keys that start with the prefix |
| ObjectStore.RemoveUnder | src/main/java/com/luckykuang/oss/service/impl/OssServiceImpl.java:681-703 | definition (the reference for clearing a prefix): exactly the keys outside it, with their contents unchanged |
| ObjectStore.Store.Put | src/main/java/com/luckykuang/oss/service/impl/OssServiceImpl.java:597-604 | putObject creates or overwrites one key and nothing else |
| ObjectStore.Store.Stat | src/main/java/com/luckykuang/oss/service/impl/OssServiceImpl.java:645-650 | statObject gives the length of an existing object and fails for a missing one |
| ObjectStore.Store.ListByPrefix | src/main/java/com/luckykuang/oss/service/impl/OssServiceImpl.java:531-536 | the listing holds every key under the prefix, each once, and no other key |
| ObjectStore.Store.Remove | src/main/java/com/luckykuang/oss/service/impl/OssServiceImpl.java:692-696 | removeObject deletes one key; removing a missing key changes nothing |
| ObjectStore.Store.Compose | src/main/java/com/luckykuang/oss/service/impl/OssServiceImpl.java:670-676 | composeObject writes the sources' concatenation, in list order, at the destination; a compose the store refuses changes nothing |
| ChunkNaming.ChunkKeyLocation | src/main/java/com/luckykuang/oss/service/impl/OssServiceImpl.java:590 | a chunk key lies in its file's directory, inside its session's prefix, inside `.chunk-uploads/` |
| ChunkNaming.ChunkIndexOfDigits | src/main/java/com/luckykuang/oss/service/impl/OssServiceImpl.java:540-545 | a key `{dir}{digits}.chunk` reads back as the int its digits spell, leading zeros included |
| ChunkNaming.ChunkNameAfterDir | src/main/java/com/luckykuang/oss/service/impl/OssServiceImpl.java:541 | the text after the last '/' of a chunk key is `{digits}.chunk` |
| ChunkNaming.ChunkIndexOfChunkKey | src/main/java/com/luckykuang/oss/service/impl/OssServiceImpl.java:540-545 | the key written for chunk n reads back as n (round trip of uploadChunk's naming and init's parsing) |
| ChunkNaming.ChunkKeyInjective | src/main/java/com/luckykuang/oss/service/impl/OssServiceImpl.java:590 | different indices of one file never share a key |
| ChunkNaming.DigestPrefixSeesChunkKey | src/main/java/com/luckykuang/oss/service/impl/OssServiceImpl.java:724 | the digest-only prefix of the status query sees a session's chunk exactly when the session id equals the digest |
| ChunkService.CeilDiv | src/main/java/com/luckykuang/oss/service/impl/OssServiceImpl.java:521 | the ceiling of a / b: the least r with a <= r * b |
| ChunkService.TotalChunks | src/main/java/com/luckykuang/oss/service/impl/OssServiceImpl.java:521 | the chunk count fits a Java int; it is ceil(totalSize / chunkSize) when that lies strictly inside the int range, INT32_MAX when it reaches it, INT32_MIN when it falls to it |
| ChunkService.Lookups | src/main/java/com/luckykuang/oss/service/impl/OssServiceImpl.java:538-549 | definition (the reference the index lemmas use): the parse outcome of each listed key, position by position |
| ChunkService.ParsedIndicesStep | src/main/java/com/luckykuang/oss/service/impl/OssServiceImpl.java:538-549 | reading one more listed key appends its index when it parses and nothing otherwise |
| ChunkService.PresentOfSuccesses | src/main/java/com/luckykuang/oss/service/impl/OssServiceImpl.java:544-545 | when every key parses, the collected indices are exactly the parsed values, in order |
| ChunkService.PresentMembers | src/main/java/com/luckykuang/oss/service/impl/OssServiceImpl.java:544-548 | an index is collected if and only if some listed key parses to it |
| ChunkService.ParsedIndicesContain | src/main/java/com/luckykuang/oss/service/impl/OssServiceImpl.java:538-549 | an index read from any listed key is reported |
| ChunkService.ParsedIndicesFrom | src/main/java/com/luckykuang/oss/service/impl/OssServiceImpl.java:538-549 | every reported index comes from some listed key |
| ChunkService.ChunkKeys | src/main/java/com/luckykuang/oss/service/impl/OssServiceImpl.java:590 | definition (the reference the round-trip lemmas use): the keys uploadChunk writes for a list of indices, position by position |
| ChunkService.ParsedIndicesOfChunkKeys | src/main/java/com/luckykuang/oss/service/impl/OssServiceImpl.java:538-549 | listing the chunks uploadChunk wrote gives back exactly their indices, in the same order |
| ChunkService.InitCompletionOfUploadedChunks | src/main/java/com/luckykuang/oss/service/impl/OssServiceImpl.java:563 | when only uploadChunk wrote the directory, each index once and below the count, init's count check holds iff every index is present |
| ChunkService.InitCountIsNotMembership | src/main/java/com/luckykuang/oss/service/impl/OssServiceImpl.java:563 | the count check is not a membership check: keys `0.chunk` and `00.chunk` make a two-chunk upload report completed with chunk 1 missing |
| ChunkService.ZeroKeys | src/main/java/com/luckykuang/oss/service/impl/OssServiceImpl.java:540-545 | `0.chunk` and `00.chunk` both read back as index 0 |
| ChunkService.CancelIdempotent | src/main/java/com/luckykuang/oss/service/impl/OssServiceImpl.java:792-822 | cancelling twice leaves the store as cancelling once |
| ChunkService.ClearedSessionHasNoChunks | src/main/java/com/luckykuang/oss/service/impl/OssServiceImpl.java:681-703 | after the session prefix is cleared, no file of that session has a chunk left |
| ChunkService.ComposeSources | src/main/java/com/luckykuang/oss/service/impl/OssServiceImpl.java:660-668 | definition (the reference the merge lemmas use): the keys of chunks 0 .. totalChunks-1, in index order, and none for a non-positive count |
| ChunkService.Extension | src/main/java/com/luckykuang/oss/service/impl/OssServiceImpl.java:625-629 | the extension starts at the last '.', includes it, ends the file name and contains no other '.' |
| ChunkService.PadZeros | src/main/java/com/luckykuang/oss/service/impl/OssServiceImpl.java:60 | left padding with '0' keeps the text as a suffix and reaches the field width |
| ChunkService.PaddedNumber | src/main/java/com/luckykuang/oss/service/impl/OssServiceImpl.java:60 | a number below 10^width is written as exactly width digits that read back as the number |
| ChunkService.PaddedDate | src/main/java/com/luckykuang/oss/service/impl/OssServiceImpl.java:60 | the year, month and day fields have 4, 2 and 2 digits and read back as the date |
| ChunkService.FinalKeyText | src/main/java/com/luckykuang/oss/service/impl/OssServiceImpl.java:632-634 | the merged file's key is "/" + yyyy + "/" + MM + "/" + dd + "/" + id + ext |
| ChunkService.DatedKeySlices | src/main/java/com/luckykuang/oss/service/impl/OssServiceImpl.java:632-634 | the position of each field inside the merged file's key |
| ChunkService.FinalKeyLayout | src/main/java/com/luckykuang/oss/service/impl/OssServiceImpl.java:60 | the merged key is "/yyyy/MM/dd/" + 32 hex + ext; its date fields parse back as the date; it lies outside `.chunk-uploads/` |
| ChunkService.FinalKeyOutsideSessions | src/main/java/com/luckykuang/oss/service/impl/OssServiceImpl.java:681-686 | clearing the session after the merge never deletes the merged file |
| ChunkService.UploadedChunkIsListed | src/main/java/com/luckykuang/oss/service/impl/OssServiceImpl.java:538-549 | a chunk uploadChunk stored is reported by the next init of that session, whatever the listing order |
| ChunkService.DistinctIndices | src/main/java/com/luckykuang/oss/service/impl/OssServiceImpl.java:750-754 | the status query's indices: each once, and exactly the indices some listed key names |
| ChunkService.InsertSorted | src/main/java/com/luckykuang/oss/service/impl/OssServiceImpl.java:777 | inserting into a sorted list keeps it sorted and adds the element to its multiset |
| ChunkService.SortAscending | src/main/java/com/luckykuang/oss/service/impl/OssServiceImpl.java:777 | the reported indices are sorted and a permutation of those found |
| ChunkService.MaxOf | src/main/java/com/luckykuang/oss/service/impl/OssServiceImpl.java:762 | Collections.max: an element no smaller than any other |
| ChunkService.InferredTotal | src/main/java/com/luckykuang/oss/service/impl/OssServiceImpl.java:761-763 | the inferred count is 0 with no index and max + 1 (32-bit) otherwise |
| ChunkService.StatusCompletedIffContiguous | src/main/java/com/luckykuang/oss/service/impl/OssServiceImpl.java:765 | for distinct indices in [0, INT32_MAX), the status is complete iff every index from 0 to the largest is present |
| ChunkService.StatusOfNothingIsCompleted | src/main/java/com/luckykuang/oss/service/impl/OssServiceImpl.java:761-765 | a listing with no readable chunk key reports a completed upload of zero chunks |
| ChunkService.StatusCountWraps | src/main/java/com/luckykuang/oss/service/impl/OssServiceImpl.java:762 | a chunk named 2147483647 wraps the inferred count to -2147483648 |
| ChunkService.CollectIndices | src/main/java/com/luckykuang/oss/service/impl/OssServiceImpl.java:537-550 | init's listing loop collects exactly the parsed indices, in order, duplicates kept |
| ChunkService.CollectDistinctIndices | src/main/java/com/luckykuang/oss/service/impl/OssServiceImpl.java:742-759 | the status loop collects the indices in first-seen order, skipping ones already seen |
| ChunkService.ComposeSourceList | src/main/java/com/luckykuang/oss/service/impl/OssServiceImpl.java:660-668 | the source-building loop produces exactly the compose sources |
| ChunkService.ChunkUploadService.InitChunkUpload | src/main/java/com/luckykuang/oss/service/impl/OssServiceImpl.java:493-566 | validation in order (name 1004, session, chunk size >= 5 MiB, extension 1005), then a null total size fails as 9999; success iff all pass; then the count, the listed indices with duplicates, completed = count check; the store is unchanged |
| ChunkService.ChunkUploadService.UploadChunk | src/main/java/com/luckykuang/oss/service/impl/OssServiceImpl.java:569-611 | the checks in order (empty file 1003, session, then a null or out-of-range index or a null count 9999) before any store access; a success is one put of the chunk key, so a re-upload overwrites |
| ChunkService.ChunkUploadService.DeleteUnder | src/main/java/com/luckykuang/oss/service/impl/OssServiceImpl.java:681-703 | the listing-and-removal loop leaves exactly the store without the prefix and counts the removed keys |
| ChunkService.ChunkUploadService.CompleteChunkUpload | src/main/java/com/luckykuang/oss/service/impl/OssServiceImpl.java:614-716 | checks session, then a null name (9999), then extension; a missing chunk 0 fails as 9999; a short chunk 0 fails without composing; then a null count fails as 9999; otherwise success iff the store accepts the compose, which writes the concatenation at the dated key and then clears the whole session; any failure leaves the store unchanged |
| ChunkService.ChunkUploadService.GetChunkUploadStatus | src/main/java/com/luckykuang/oss/service/impl/OssServiceImpl.java:719-781 | lists the digest-only prefix; reports its distinct indices sorted, a count of max + 1 and completed = count check |
| ChunkService.ChunkUploadService.CancelChunkUpload | src/main/java/com/luckykuang/oss/service/impl/OssServiceImpl.java:784-832 | removes everything under the session prefix when a session is named, else under `.chunk-uploads/{md5}/` |
| ChunkRanges.ChunkStartIsProduct | src/main/resources/static/js/chunk-upload.js:329 | chunk i starts at byte i * chunkSize |
| ChunkRanges.ChunkStartMonotone | src/main/resources/static/js/chunk-upload.js:329 | later chunks never start earlier |
| ChunkRanges.ChunkCountCovers | src/main/resources/static/js/chunk-upload.js:184 | with ceil(size / chunkSize) chunks the last starts inside the file and the next would start at or past its end |
| ChunkRanges.ChunkRangesPartition | src/main/resources/static/js/chunk-upload.js:329-331 | the ranges of chunks 0 .. totalChunks-1 are non-empty, start at 0, are contiguous, all but the last hold exactly chunkSize bytes, and the last ends at the file size |
| ChunkRanges.FlattenChunkSlices | src/main/resources/static/js/chunk-upload.js:329-331 | the first k chunks put together are the file up to where chunk k would start |
| ChunkRanges.ChunksReassemble | src/main/resources/static/js/chunk-upload.js:329-331 | all chunks concatenated in index order give back the file |
| ChunkRanges.Md5Slices | src/main/resources/static/js/chunk-upload.js:117-132 | the MD5 loop feeds the 2 MiB slices in order; together they are the file, each is non-empty and at most 2 MiB |
| ChunkRanges.SliceSizes | src/main/resources/static/js/chunk-upload.js:329-331 | every chunk of the file is non-empty and at most chunkSize bytes |
| ChunkRanges.ConcatenationOfParts | src/main/java/com/luckykuang/oss/service/impl/OssServiceImpl.java:676 | composing objects that hold given parts yields the parts concatenated |
| ChunkRanges.ConcatenationOfChunks | src/main/java/com/luckykuang/oss/service/impl/OssServiceImpl.java:660-676 | composing the stored chunks 0 .. k-1 yields the first k client chunks concatenated |
| ChunkRanges.StoredChunksCompose | src/main/java/com/luckykuang/oss/service/impl/OssServiceImpl.java:660-676 | when the client stored every chunk, the server's compose sources exist, their concatenation is the file, and the store accepts them for chunks of at least 5 MiB |
| ChunkRanges.FullChunks | src/main/resources/static/js/chunk-upload.js:329-331 | every stored chunk but the last holds exactly chunkSize bytes |
| ChunkRanges.SmallFileIsOneShortChunk | src/main/java/com/luckykuang/oss/service/impl/OssServiceImpl.java:650-656 | with chunks of at least 5 MiB, a non-empty file under 5 MiB is one chunk, the whole file, below the 5 MiB the merge demands of chunk 0 |
| ChunkClient.ValidatedSizeMeetsServerMinimum | src/main/resources/static/js/chunk-upload.js:63-74 | a numeric size passes iff its bytes meet the server's 5 MiB minimum; NaN passes |
| ChunkClient.MissingMembers | src/main/resources/static/js/chunk-upload.js:260-265 | the enqueued indices are exactly those below the count not yet uploaded, strictly ascending |
| ChunkClient.MissingEmptyIff | src/main/resources/static/js/chunk-upload.js:266-268 | nothing is enqueued iff every index below the count is uploaded |
| ChunkClient.MissingFresh | src/main/resources/static/js/chunk-upload.js:260-265 | with nothing uploaded, one more chunk appends its own index |
| ChunkClient.BytesOfAppend | src/main/resources/static/js/chunk-upload.js:365 | one more sent chunk adds that chunk's length to the byte count |
| ChunkClient.SliceLength | src/main/resources/static/js/chunk-upload.js:329-331 | chunk i holds the bytes from its start to the next chunk's start, capped at the size |
| ChunkClient.BytesOfFirstChunks | src/main/resources/static/js/chunk-upload.js:365 | chunks 0 .. k-1 add up to the bytes before chunk k's start, capped at the size |
| ChunkClient.AllChunksCountTheFile | src/main/resources/static/js/chunk-upload.js:365 | sending every chunk of a fresh upload counts exactly the file size |
| ChunkClient.CompleteConditionIffAllUploaded | src/main/resources/static/js/chunk-upload.js:545 | while every uploaded index is below the count, size == count iff all indices are uploaded |
| ChunkClient.CompleteConditionWithGap | src/main/resources/static/js/chunk-upload.js:545 | a stale index 5 reported next to 0 satisfies the size check of a two-chunk upload with chunk 1 missing |
| ChunkClient.SucceededWithoutFailures | src/main/resources/static/js/chunk-upload.js:291-295 | with no failures every enqueued index is sent |
| ChunkClient.FreshUploadSendsEverything | src/main/resources/static/js/chunk-upload.js:259-325 | a fresh upload on a reliable network sends every index below the count and counts exactly the file size |
| ChunkClient.MissingNonNegative | src/main/resources/static/js/chunk-upload.js:260-265 | enqueued indices are never negative |
| ChunkClient.SentStep | src/main/resources/static/js/chunk-upload.js:291-298 | each queued index is added with its chunk's bytes when sent, and changes nothing when it fails |
| ChunkClient.ChunkUploader.constructor | src/main/resources/static/js/chunk-upload.js:2-20 | no file, 5 MiB chunks, zero chunks, nothing uploaded, both flags clear |
| ChunkClient.ChunkUploader.SelectFile | src/main/resources/static/js/chunk-upload.js:76-82 | no file changes nothing; otherwise the file and a fresh session id are recorded while the digest keeps its previous value; the progress is untouched |
| ChunkClient.ChunkUploader.DigestComputed | src/main/resources/static/js/chunk-upload.js:134 | the computed digest is recorded and nothing else changes |
| ChunkClient.ChunkUploader.StartUpload | src/main/resources/static/js/chunk-upload.js:171-190 | proceeds iff a file and digest exist and the size passes; then size = MB * 2^20, count = ceil(size / chunkSize), uploaded set, bytes and flags cleared; otherwise nothing changes |
| ChunkClient.ChunkUploader.ApplyInitResponse | src/main/resources/static/js/chunk-upload.js:249-256 | a successful reply's indices are added to the uploaded set; a failed reply changes nothing |
| ChunkClient.ChunkUploader.MissingChunks | src/main/resources/static/js/chunk-upload.js:260-265 | the loop computes the missing-index list |
| ChunkClient.ChunkUploader.UploadChunk | src/main/resources/static/js/chunk-upload.js:327-385 | a successful upload records its index and adds its chunk's length; a failed one changes nothing |
| ChunkClient.ChunkUploader.UploadChunks | src/main/resources/static/js/chunk-upload.js:259-325 | every missing index is sent once, ascending; the set grows by those sent and the bytes by their lengths |
| ChunkClient.ChunkUploader.RetryFailed | src/main/resources/static/js/chunk-upload.js:517-552 | nothing happens when nothing is missing; otherwise the flags are cleared, the missing chunks sent, each sent chunk's bytes added to the progress count, and completion requested iff the set size equals the count |
| ChunkClient.ChunkUploader.Reset | src/main/resources/static/js/chunk-upload.js:575-580 | forgets file, digest and uploaded set and clears both flags |
| FileListing.EffectivePrefix | src/main/java/com/luckykuang/oss/service/impl/OssServiceImpl.java:326-329 | blank prefix means none; otherwise the prefix, with '/' appended when it lacks one |
| FileListing.MaxKeys | src/main/java/com/luckykuang/oss/service/impl/OssServiceImpl.java:340 | the request size when it is at most 100, and exactly 100 above that |
| FileListing.ChildrenFailIffTooShort | src/main/java/com/luckykuang/oss/service/impl/OssServiceImpl.java:359-360 | the filter fails (9999) iff a listed name other than the prefix is shorter than it |
| FileListing.ChildrenMembers | src/main/java/com/luckykuang/oss/service/impl/OssServiceImpl.java:349-369 | the kept names are exactly the listed ones that are not the prefix and are folders or direct children |
| FileListing.ChildrenOfPrefixListing | src/main/java/com/luckykuang/oss/service/impl/OssServiceImpl.java:333-342 | a listing under the prefix never makes the filter fail |
| FileListing.FilterListing | src/main/java/com/luckykuang/oss/service/impl/OssServiceImpl.java:344-376 | the filtering loop keeps the kept names in listing order, or fails |
| FileListing.PrefixFailureSticks | src/main/java/com/luckykuang/oss/service/impl/OssServiceImpl.java:373-376 | once the loop has failed, the whole listing fails |
| OssProcessor.JavaSplitLast | src/main/java/com/luckykuang/oss/processor/OssProcessor.java:89-90 | Java's split on '/' keeps no piece iff the text is non-empty and all '/'; the empty text is kept as the one piece ""; otherwise the last piece is what follows the last '/' after trailing '/' are trimmed |
| OssProcessor.NoSeparator | src/main/java/com/luckykuang/oss/processor/OssProcessor.java:89-90 | a name without '/' splits into itself as the one piece, so the empty name gives the single piece "" |
| OssProcessor.GetFileNameByObjectName | src/main/java/com/luckykuang/oss/processor/OssProcessor.java:85-92 | null iff the argument is blank; a result has no '/' and no '.' |
| OssProcessor.FileNameOfTrimmed | src/main/java/com/luckykuang/oss/processor/OssProcessor.java:86-91 | the result is what follows the last '.' of what follows the last '/' once trailing '/' are dropped |
| OssProcessor.FileNameIsExtension | src/main/java/com/luckykuang/oss/processor/OssProcessor.java:83-91 | for "dirs/name.ext" followed by any number of '/' the result is "ext", not the name |
| OssProcessor.FileNameOfSlashesFails | src/main/java/com/luckykuang/oss/processor/OssProcessor.java:89-90 | a key of only '/' has no pieces and fails with an index error |
| OssProcessor.DefaultBucketPolicy | src/main/java/com/luckykuang/oss/processor/OssProcessor.java:99-124 | the document is the one-statement template with the {"AWS": ["*"]} principal and an action block that reads back as exactly the six default actions, ending with the resource of every object of the bucket |
| OssProcessor.ReadOnlyBucketPolicy | src/main/java/com/luckykuang/oss/processor/OssProcessor.java:168-188 | the document is the one-statement template with the {"AWS": ["*"]} principal and an action block that reads back as exactly GetObject, ending with the resource of every object of the bucket |
| OssProcessor.CustomBucketPolicy | src/main/java/com/luckykuang/oss/processor/OssProcessor.java:131-161 | the document holds the caller's actions, in order, as one quoted line each, and ends with the bucket's resource |
| OssUtils.DefaultBucketPolicy | src/main/java/com/luckykuang/oss/util/OssUtils.java:36-57 | the document is the one-statement template with the bare "*" principal and an action block that reads back as exactly the six default actions, ending with the bucket's object resource |
| OssUtils.ReadOnlyBucketPolicy | src/main/java/com/luckykuang/oss/util/OssUtils.java:97-113 | the document is the one-statement template with the bare "*" principal and an action block that reads back as exactly GetObject, ending with the bucket's object resource |
| OssUtils.CustomBucketPolicy | src/main/java/com/luckykuang/oss/util/OssUtils.java:64-90 | the caller's actions in the quote-and-",\n" block, the bare "*" principal, and the bucket's resource |
| PolicyText.ActionBlock | src/main/java/com/luckykuang/oss/util/OssUtils.java:65-74 | an empty action list gives an empty block, and only an empty list does |
| PolicyText.DocumentResource | src/main/java/com/luckykuang/oss/util/OssUtils.java:84-89 | every document ends with "arn:aws:s3:::" + bucket + "/*" and the closing lines |
| PolicyText.ParseLastLine | src/main/java/com/luckykuang/oss/util/OssUtils.java:67-71 | the final line, closed by "\"\n", reads back as its one action |
| PolicyText.ParseInnerLine | src/main/java/com/luckykuang/oss/util/OssUtils.java:67-73 | a line closed by "\",\n" reads back as its action followed by the rest |
| PolicyText.ActionBlockRoundTrip | src/main/java/com/luckykuang/oss/util/OssUtils.java:65-74 | an action list without '"' reads back from its block: the block encodes exactly the list, in order |
| PolicyText.FixedActionsUnquoted | src/main/java/com/luckykuang/oss/util/OssUtils.java:43-48 | no action of the fixed documents contains '"' |
| PolicyText.FixedBlocksReadBack | src/main/java/com/luckykuang/oss/processor/OssProcessor.java:105-176 | the default documents' action block reads back as exactly the six actions and the read-only one as exactly GetObject |
| PolicyText.ActionBlockInjective | src/main/java/com/luckykuang/oss/util/OssUtils.java:65-74 | different action lists, none of whose actions contains '"', give different blocks |
| PolicyText.BuildActionBlock | src/main/java/com/luckykuang/oss/processor/OssProcessor.java:132-141 | the StringBuilder loop with its early break produces the action block |
| PolicyClassifier.Classify | src/main/resources/static/js/index.js:284-332 | without a public principal, custom; with one, public iff GetObject, DeleteObject and a list action; read-only iff GetObject and no Put, Delete or list; otherwise custom |
| PolicyClassifier.DeterminePolicyType | src/main/resources/static/js/index.js:268-338 | the statement loop computes the classification of the text and what it parses to; blank means null, undefined or empty after JavaScript's trim |
| PolicyClassifier.PrivateOnlyWithoutStatements | src/main/resources/static/js/index.js:269-278 | the kind is private iff the text is blank or the statement list is missing or empty; the later private branch is dead |
| PolicyClassifier.BlankIsTrimBlank | src/main/resources/static/js/index.js:269 | text of U+001C alone is not blank to trim, so unparseable it is custom; text of U+00A0 alone is blank, so private |
| PolicyClassifier.NoPublicPrincipalIsCustom | src/main/resources/static/js/index.js:297-299 | statements none of which has a public principal classify as custom |
| PolicyClassifier.PolicyTypeLabel | src/main/resources/static/js/index.js:255-263 | any input other than the four kinds is shown unchanged |
| PolicyClassifier.LabelsDistinct | src/main/resources/static/js/index.js:255-263 | the four kinds get four different labels, none equal to a kind's name |
| PolicyClassifier.PresetPolicy | src/main/resources/static/js/index.js:671-722 | a document exists exactly for public, readonly and private |
| PolicyClassifier.PresetNotBlank | src/main/resources/static/js/index.js:676-714 | every preset document is non-blank |
| PolicyClassifier.PublicActionsMembers | src/main/resources/static/js/index.js:684-690 | the public preset's actions hold GetObject, DeleteObject and a list action |
| PolicyClassifier.PublicPresetIsPublic | src/main/resources/static/js/index.js:677-695 | the public preset classifies as public |
| PolicyClassifier.ReadOnlyActionIsNotList | src/main/resources/static/js/index.js:703 | GetObject is not a list action |
| PolicyClassifier.ReadOnlyPresetIsReadOnly | src/main/resources/static/js/index.js:696-707 | the read-only preset classifies as readonly |
| PolicyClassifier.PresetsClassifyBack | src/main/resources/static/js/index.js:676-714 | each preset classifies back to the kind it was made for |
| PolicyClassifier.DefaultActionsMembers | src/main/java/com/luckykuang/oss/processor/OssProcessor.java:106-111 | the default actions hold GetObject, DeleteObject and a list action |
| PolicyClassifier.ReadOnlyActionsMembers | src/main/java/com/luckykuang/oss/processor/OssProcessor.java:175 | the read-only actions hold GetObject and neither PutObject nor DeleteObject |
| PolicyClassifier.ServerDefaultIsPublic | src/main/java/com/luckykuang/oss/processor/OssProcessor.java:99-123 | a parsed document of one statement with the {"AWS": ["*"]} principal and the six default actions (the shape of the server's default document) classifies as public |
| PolicyClassifier.ServerReadOnlyIsReadOnly | src/main/java/com/luckykuang/oss/processor/OssProcessor.java:168-187 | a parsed document of one statement with the {"AWS": ["*"]} principal and GetObject alone (the shape of the server's read-only document) classifies as readonly |
| PolicyClassifier.ServerBareStarIsCustom | src/main/java/com/luckykuang/oss/util/OssUtils.java:64-89 | any parsed document whose one statement has the bare "*" principal classifies as custom, whatever its actions, the empty list included |
| PolicyClassifier.ServerDocumentsClassify | src/main/java/com/luckykuang/oss/util/OssUtils.java:36-113 | the three facts above together, over parsed documents of the server's shapes |
| PolicyRegistry.Code | src/main/java/com/luckykuang/oss/service/impl/OssServiceImpl.java:907-1013 | every registry failure is reported with a three-digit code, or with 9999 |
| PolicyRegistry.PresetPolicy | src/main/java/com/luckykuang/oss/service/impl/OssServiceImpl.java:840-873 | every built-in type has a non-empty preset |
| PolicyRegistry.TemplateRegistry.constructor | src/main/java/com/luckykuang/oss/service/impl/OssServiceImpl.java:875-905 | exactly the three built-ins, each with its preset and the seeding time |
| PolicyRegistry.TemplateRegistry.Create | src/main/java/com/luckykuang/oss/service/impl/OssServiceImpl.java:907-935 | fails on an existing name (001), a blank custom policy (002), an unknown type (003), leaving the map unchanged; otherwise adds the template, stamped now, with the preset for a built-in type; keeps the invariant |
| PolicyRegistry.TemplateRegistry.List | src/main/java/com/luckykuang/oss/service/impl/OssServiceImpl.java:937-940 | every template exactly once |
| PolicyRegistry.TemplateRegistry.Get | src/main/java/com/luckykuang/oss/service/impl/OssServiceImpl.java:942-949 | the template under the name, or 004 |
| PolicyRegistry.TemplateRegistry.Update | src/main/java/com/luckykuang/oss/service/impl/OssServiceImpl.java:951-971 | fails on a missing name (005) or a built-in's type change (006); otherwise replaces the template keeping its creation time; keeps the invariant |
| PolicyRegistry.TemplateRegistry.Delete | src/main/java/com/luckykuang/oss/service/impl/OssServiceImpl.java:973-986 | fails on a missing name (007) or a built-in (008); otherwise removes exactly that name; keeps the invariant |
| PolicyRegistry.TemplateRegistry.Apply | src/main/java/com/luckykuang/oss/service/impl/OssServiceImpl.java:988-1007 | 009 for a missing template; otherwise its policy with every "{bucket}" replaced by the bucket name (what that gives for each built-in is stated by the three lemmas below) |
| PolicyRegistry.PublicTemplateApplied | src/main/java/com/luckykuang/oss/service/impl/OssServiceImpl.java:840-856 | applying the public template puts the bucket name into both resources and leaves the rest of the text as written |
| PolicyRegistry.ReadOnlyTemplateApplied | src/main/java/com/luckykuang/oss/service/impl/OssServiceImpl.java:858-868 | applying the read-only template puts the bucket name into its one resource and leaves the rest as written |
| PolicyRegistry.PrivateTemplateApplied | src/main/java/com/luckykuang/oss/service/impl/OssServiceImpl.java:870-873 | the private template has no placeholder, so applying it returns the text unchanged |
| Common.ReplaceAllPrefixFree | src/main/java/com/luckykuang/oss/service/impl/OssServiceImpl.java:995 | `String.replace` copies a head in which no occurrence of the pattern starts, and replaces only in what follows |
| Common.ReplaceAllJoin | src/main/java/com/luckykuang/oss/service/impl/OssServiceImpl.java:995 | parts joined by the pattern, none starting an occurrence of it, come out joined by the replacement: every placeholder replaced, nothing else touched, the inserted text not rescanned |
| ContentType.LowerAscii | src/main/java/com/luckykuang/oss/enums/ContentTypeEnum.java:63 | lower-casing acts character by character |
| ContentType.FirstMatch | src/main/java/com/luckykuang/oss/enums/ContentTypeEnum.java:62-66 | a found type belongs to a row whose extension matches, ignoring case |
| ContentType.GetContentType | src/main/java/com/luckykuang/oss/enums/ContentTypeEnum.java:58-68 | the default type for a null or empty extension; the result is always one of the table's types |
| ContentType.FirstMatchIsEarliest | src/main/java/com/luckykuang/oss/enums/ContentTypeEnum.java:62-66 | the search returns the type of the earliest matching row |
| ContentType.FirstMatchNone | src/main/java/com/luckykuang/oss/enums/ContentTypeEnum.java:62-66 | the search finds nothing when no row matches |
| ContentType.ContentTypeOfMatch | src/main/java/com/luckykuang/oss/enums/ContentTypeEnum.java:59-67 | a non-empty extension gets the type of the earliest row it matches |
| ContentType.ContentTypeOfNoMatch | src/main/java/com/luckykuang/oss/enums/ContentTypeEnum.java:67 | an extension that matches no row gets the default type |
| ContentType.FirstMatchIgnoresCase | src/main/java/com/luckykuang/oss/enums/ContentTypeEnum.java:63 | the search gives the same answer for an extension and its lower-case form |
| ContentType.ContentTypeIgnoresCase | src/main/java/com/luckykuang/oss/enums/ContentTypeEnum.java:58-68 | the lookup gives the same type for an extension and its lower-case form |
| ContentType.UpperCasePng | src/main/java/com/luckykuang/oss/enums/ContentTypeEnum.java:34 | "PNG" gives image/png |
| ContentType.DottedPng | src/main/java/com/luckykuang/oss/enums/ContentTypeEnum.java:67 | ".png" matches no row and gets the default type |
| ContentType.PngExamples | src/main/java/com/luckykuang/oss/enums/ContentTypeEnum.java:58-68 | both examples together |
| ContentType.JpegFamily | src/main/java/com/luckykuang/oss/enums/ContentTypeEnum.java:30-41 | jpg, jfif, jpeg and jpe all give image/jpeg |
| ContentType.JpgMatch | src/main/java/com/luckykuang/oss/enums/ContentTypeEnum.java:30 | jpg gives image/jpeg |
| ContentType.JfifMatch | src/main/java/com/luckykuang/oss/enums/ContentTypeEnum.java:33 | jfif gives image/jpeg |
| ContentType.JpegMatch | src/main/java/com/luckykuang/oss/enums/ContentTypeEnum.java:37 | jpeg gives image/jpeg |
| ContentType.JpeMatch | src/main/java/com/luckykuang/oss/enums/ContentTypeEnum.java:41 | jpe gives image/jpeg |
| ContentType.TiffFamily | src/main/java/com/luckykuang/oss/enums/ContentTypeEnum.java:31-35 | tif and tiff both give image/tiff |
| ContentType.TiffMatch | src/main/java/com/luckykuang/oss/enums/ContentTypeEnum.java:31 | tiff gives image/tiff |
| ContentType.TifMatch | src/main/java/com/luckykuang/oss/enums/ContentTypeEnum.java:35 | tif gives image/tiff |
| ContentType.JpegRows | src/main/java/com/luckykuang/oss/enums/ContentTypeEnum.java:29-42 | the image/jpeg rows are jpg, jfif, jpeg and jpe |
| ContentType.JpegOnlyFromJpegFamily | src/main/java/com/luckykuang/oss/enums/ContentTypeEnum.java:58-68 | only those four extensions, in any case, give image/jpeg |
| FileBrowser.NonEmpty | src/main/resources/static/js/index.js:483 | `filter(p => p)` keeps no empty part and drops no non-empty one: a value is kept iff it is a non-empty part |
| FileBrowser.NonEmptyConcat | src/main/resources/static/js/index.js:483 | the filter keeps order: filtering a + b gives the filtered a followed by the filtered b |
| FileBrowser.NonEmptyKeepsAll | src/main/resources/static/js/index.js:483 | parts that are all non-empty come through whole and in order |
| FileBrowser.SplitSlashJoin | src/main/resources/static/js/index.js:483 | splitting a folder path and a last piece on '/' gives back the folders and the piece |
| FileBrowser.SegmentsOfPath | src/main/resources/static/js/index.js:483 | the non-empty segments of "a/b/.../q" are a, b, ..., q |
| FileBrowser.UpdateBreadcrumb | src/main/resources/static/js/index.js:473-504 | the accumulating loop produces the breadcrumb of the prefix |
| FileBrowser.SlashJoinPrefix | src/main/resources/static/js/index.js:490 | each accumulated path is a prefix of the full one |
| FileBrowser.BreadcrumbOfFolder | src/main/resources/static/js/index.js:473-504 | one crumb per folder; the last is plain text; crumb k links to the first k + 1 folders each followed by '/' |
| FileBrowser.SlashOnlyPrefix | src/main/resources/static/js/index.js:475-483 | the prefix "/" shows only the root link |
| FileBrowser.Trim | src/main/resources/static/js/index.js:389 | the trimmed text neither starts nor ends with a character JavaScript's trim strips (TAB to CR, space separators, LS, PS, BOM) |
| FileBrowser.TrimInnerSlice | src/main/resources/static/js/index.js:389 | the trimmed text is a contiguous slice of the input whose removed head and tail are all whitespace, so the rest of the text is kept unchanged |
| FileBrowser.TrimKeepsLastSlash | src/main/resources/static/js/index.js:390 | a path ending in '/' still does after trimming |
| FileBrowser.FolderIffTrailingSlash | src/main/resources/static/js/index.js:390 | an entry is a folder iff its trimmed path ends with '/' |
| FileBrowser.ItemOfPath | src/main/resources/static/js/index.js:387-402 | the name is the last non-empty segment: q for "a/.../q", z for the folder "a/.../z/" |
| FileBrowser.Items | src/main/resources/static/js/index.js:387-402 | one entry per listed path |
| FileBrowser.DisplayFiles | src/main/resources/static/js/index.js:387-411 | the entries of the listing, reordered with every folder before every file |
| FileBrowser.SortFoldersFirst | src/main/resources/static/js/index.js:405-411 | the sort is a permutation that puts every folder before every file |
| FileBrowser.FoldersThenOthers | src/main/resources/static/js/index.js:407-408 | folders followed by files are in folders-first order |

## Left out

- The MinIO SDK is replaced by the map-backed store. Per-object delete failures that the code swallows, and listing failures in the init and status loops, are not modelled: the store's operations always succeed except stat of a missing key and a refused compose.
- Every exception that becomes `BusinessException(UNKNOWN)` is one `Err(Unknown)` result. HTTP, streaming, presigned URLs and bucket administration are not modelled.
- The three policy-template registry fields are one class with a map; thread safety of the concurrent map is not modelled.
- The clock and the random UUID of a merged key, and the `now` timestamps of the registry, are parameters.
- ChunkService.TotalChunks: `Math.ceil` over doubles is modelled as exact integer ceiling followed by Java's saturating `(int)` cast; double rounding for sizes above 2^53 is not modelled.
- The client's worker pool, `Promise.all`, the polling timers, `togglePause` and `cancelUpload` are not modelled: uploads are sent one at a time, and pausing or cancelling during an upload is outside the model.
- ChunkClient.ChunkUploader.UploadChunk: a NaN chunk size is modelled as "no chunk size", so such an upload always fails; the server's rejection of the empty slice is not modelled.
- XHR and fetch, DOM updates, the MD5 digest value itself (only the slices fed to it), speed and percentages, `formatFileSize`, `generateUUID` (a parameter) and `getRelativePath` are not modelled.
- `enterFolder`, `navigateToRoot` and `openBucketFiles` only reassign the browser's current prefix and bucket and redraw the page; they are not modelled.
- FileBrowser.SortFoldersFirst: the `localeCompare` order among folders and among files is not modelled; only the folders-first order and the permutation are stated.
- FileBrowser.DisplayFiles: inherits the same gap; the order among folders and among files is not stated.
- PolicyClassifier.ServerDefaultIsPublic, ServerReadOnlyIsReadOnly, ServerBareStarIsCustom and ServerDocumentsClassify: they take the parsed form of the server's documents as given, because `JSON.parse` is not modelled; they are not tied to the text the builders produce.
- ContentType.LowerAscii: case folding is ASCII-only; Java's Unicode case rules are not modelled.
- Common.JavaWhitespace: the set of `Character.isWhitespace` follows Unicode 6.3 and later; a Java 8 runtime (Unicode 6.2) also counts U+180E, which the model does not.
- Common.ParseInt: accepts ASCII digits only; `Integer.parseInt` also accepts other Unicode decimal digits, so a chunk file name written in such digits would be parsed by the server but skipped by the model. The server only writes ASCII digits.
- A null `fileMd5` in a request is not modelled: Java's string concatenation would write the text "null" into the chunk keys.
- PolicyClassifier.DeterminePolicyType: `JSON.parse` is a parameter; the de-duplication of actions is dropped because membership tests do not depend on it, and `Effect` and `Resource` are not read by the classifier and are not modelled.
- ChunkRanges.ChunkStartIsProduct: chunk starts are computed by repeated addition in the model; this lemma proves that equal to the product `i * chunkSize` the client computes.
- `INVALID_PARAMETER` has no code string in the model, because `ErrorCode.java` does not define it.
