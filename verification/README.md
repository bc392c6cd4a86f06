# Sparse TAR entries and the 7z coder chain, in Dafny

This project models the core of two readers from Apache Commons Compress.

**`TarArchiveInputStream`** is the TAR reader. The model covers:

- How it turns the sparse map of a sparse entry into a list of sub-streams
  (`buildSparseInputStreams`). Each sub-stream is a run of zeros for a hole or
  a bounded window onto the stored data.
- How `readSparse` and `skipSparse` walk that list with a cursor.
- How `read`, `skip` and `available` deliver the data of the current entry.
- How a skip on the raw stream is checked for truncation
  (`getActuallySkipped`).
- How the stream steps over the padding after an entry
  (`skipRecordPadding`) and the remainder of the last block
  (`consumeRemainderOfLastBlock`).
- How an end-of-archive record is recognised (`isEOFRecord`).
- How a GNU long name loses its trailing NULs (`getLongNameData`).
- How `getNextTarEntry` dispatches over long-link, long-name, global PAX and
  local PAX entries.

**`Folder`** is the 7z reader's unit of solid compression. The model covers
the bind-pair searches, the ordering of the coder chain and the two unpack
size queries.

## Modules

| file | module | what it holds |
|---|---|---|
| `results.dfy` | `Results` | `Option` and `Result`, with `:-` propagation. |
| `binary.dfy` | `Binary` | Bytes, Java `int` narrowing (`ToInt32`), `Integer.MAX_VALUE`, `Math.min`, and small division facts. |
| `sparse.dfy` | `Sparse` | The sparse map, the sub-stream list, the reconstructed entry (`Content`), and `readSparse`/`skipSparse` over a cursor. |
| `reader.dfy` | `EntryReader` | The reader state and `available`, `read`, `skip`, `getActuallySkipped`, `skipRecordPadding` and `consumeRemainderOfLastBlock`. Also the read loop that collects a whole entry. |
| `records.dfy` | `Records` | `isEOFRecord`, and the NUL stripping of `getLongNameData`. |
| `driver.dfy` | `NextEntry` | The stages of `getNextTarEntry`, over records that are already classified. |
| `folder.dfy` | `SevenZipFolder` | `findBindPairForInStream`/`OutStream`, `getOrderedCoders`, `getUnpackSize` and `getUnpackSizeForCoder`. |

### Modelling choices

- **The stream is a value.** The raw archive from the start of the current
  entry's data is a byte sequence `src`. The reader keeps a count `at` of
  the bytes of `src` it has consumed.
  - `in.read` hands back `min(k, bytes left)`, or -1 once `src` is exhausted.
  - `in.skip` passes over `min(n, bytes left)`.
  - `in.available()` is the number of bytes left.
- **Skipping a `FileInputStream`.** Its `skip` reports the whole request,
  even past the end of the file. That is the case `getActuallySkipped`
  guards against, and the flag `fromFile` selects it.
- **The reconstructed entry.** `Content(segs, raw)` is the sub-streams laid
  end to end, with data windows taking successive bytes of `raw`. The read
  and skip lemmas state their results against it.
- **Java `int`.** Narrowing to `int` is written out as `ToInt32`
  (two's-complement wrap-around). `Integer.MAX_VALUE` saturation is written
  out where the source has it.
- **7z coders** are compared by identity in the source. The model gives each
  one a number.
- **Null arrays.** A null array in `Folder` is an empty sequence.
- **A long entry at the end.** A long-name or long-link entry that is
  followed by the end of the archive makes `getNextTarEntry` return null
  (TarArchiveInputStream.java:443-457). `NextEntry.LongEntriesBeforeEnd`
  states it.

## Model

| member | source | states |
|---|---|---|
| Sparse.BuildSparseInputStreams | src/main/java/org/apache/commons/compress/archivers/tar/TarArchiveInputStream.java:260-299 | Building fails exactly when some run starts before the end of the run before it. On success the sub-streams span the logical size of the entry (the end of the last run) and read exactly the stored bytes. The cursor is on the first sub-stream when there is one, and on -1 otherwise. The list is, run by run, a hole for the gap and then a window for the run. |
| Sparse.BuildLoopBuilds | src/main/java/org/apache/commons/compress/archivers/tar/TarArchiveInputStream.java:270-295 | The loop, started from any point up to which the map is in order, yields the run-by-run list when the rest of the map is in order, and the corrupted-map error otherwise. |
| Sparse.BuiltNonEmpty | src/main/java/org/apache/commons/compress/archivers/tar/TarArchiveInputStream.java:276-293 | No sub-stream of the list is empty: zero-size holes and runs are never stored. |
| Sparse.ContentOfRuns | src/main/java/org/apache/commons/compress/archivers/tar/TarArchiveInputStream.java:270-295 | For an ordered map whose stored bytes are all there, in the list that building returns, every logical position inside stored run `i` lies inside the entry. Its byte is the stored byte that is as far past the bytes of the earlier runs as the position is past the run's offset. |
| Sparse.ContentOfHoles | src/main/java/org/apache/commons/compress/archivers/tar/TarArchiveInputStream.java:271-284 | For an ordered map whose stored bytes are all there, building succeeds, and every logical position that no run covers reads as zero. |
| Sparse.ReadSparse | src/main/java/org/apache/commons/compress/archivers/tar/TarArchiveInputStream.java:705-737 | The cursor stays valid on the same list and only moves forward. No more than `k` bytes come back. With no sub-streams, the read goes straight to the raw stream. Past the last sub-stream, the read is end of stream. |
| Sparse.ReadSparseDelivers | src/main/java/org/apache/commons/compress/archivers/tar/TarArchiveInputStream.java:705-737 | A read of `k > 0` bytes from a cursor in step with the raw stream, with all of the entry's stored bytes in the archive, returns exactly the next `min(k, remaining)` bytes of the reconstructed entry, across sub-stream boundaries. It reports end of stream exactly when nothing remains. It leaves the cursor in step, just past the bytes it returned. |
| Sparse.SkipSparse | src/main/java/org/apache/commons/compress/archivers/tar/TarArchiveInputStream.java:820-833 | A skip passes over at most `n` bytes, and over none for `n <= 0`. Stopping short means the cursor is past the last sub-stream. With no sub-streams, the skip goes to the raw stream: the cursor stays, the stream moves over what it holds of the request, and the count is what the stream reports, which on a file is the whole request. |
| Sparse.SkipSparsePassesOver | src/main/java/org/apache/commons/compress/archivers/tar/TarArchiveInputStream.java:820-833 | A skip of `n >= 0` bytes from a cursor in step, with all of the entry's stored bytes in the archive, passes over exactly `min(n, remaining)` bytes of the reconstructed entry and leaves the cursor in step just past them. |
| Sparse.FileSkipOverReports | src/main/java/org/apache/commons/compress/archivers/tar/TarArchiveInputStream.java:820-833 | A skip of 10 over a 4-byte archive, through one 10-byte window or with no sub-streams, reports 10 on a file and 4 on any other stream. |
| EntryReader.Available | src/main/java/org/apache/commons/compress/archivers/tar/TarArchiveInputStream.java:242-251 | A directory has 0 bytes available. A missing entry is an error. Otherwise the answer is the entry's bytes still to come, saturated at `Integer.MAX_VALUE`. |
| EntryReader.Read | src/main/java/org/apache/commons/compress/archivers/tar/TarArchiveInputStream.java:615-646 | A request for 0 bytes returns 0. At the end of the archive, or on a directory, `read` returns -1. A missing entry is an illegal state. A count `c >= 0` comes with `c` bytes and moves `entryOffset` and the byte count by `c`. A -1 moves nothing. `entryOffset` never passes `realSize`. |
| EntryReader.ReadDeliversEntry | src/main/java/org/apache/commons/compress/archivers/tar/TarArchiveInputStream.java:615-646 | On a reader that is inside a plain entry, or inside a sparse entry whose stored bytes are all in the archive, `read` returns -1 at `realSize`. It fails as truncated when the archive holds no more of the entry. Otherwise it returns the next `min(numToRead, available, what is left)` bytes of the entry and stays in step. |
| EntryReader.TruncatedSparseRead | src/main/java/org/apache/commons/compress/archivers/tar/TarArchiveInputStream.java:705-737 | For a sparse entry of 6 bytes, a 4-byte window then a 2-byte hole, over an archive holding only 2 bytes: the first read returns 4 bytes, the 2 stored ones and the zeros of the hole, and the next read fails as truncated. |
| EntryReader.Skip | src/main/java/org/apache/commons/compress/archivers/tar/TarArchiveInputStream.java:775-794 | `n <= 0` or a directory skips nothing. A missing entry is an error. A successful skip passes over between 0 and `n` bytes, moves `entryOffset` and the byte count by that much, and never passes `realSize`. |
| EntryReader.SkipPassesOverEntry | src/main/java/org/apache/commons/compress/archivers/tar/TarArchiveInputStream.java:775-794 | Inside an entry, `skip(n)` passes over `min(n, bytes left in the entry)` and the reader stays in step. A plain entry fails as truncated when the archive holds fewer bytes. A sparse entry without sub-streams stops short where the archive ends, except on a file: there the skip reports the whole request, and the stream is left at its end. |
| EntryReader.GetActuallySkipped | src/main/java/org/apache/commons/compress/archivers/tar/TarArchiveInputStream.java:347-356 | The call either returns the expected count or fails as truncated. For a stream that is not a file, it succeeds exactly when the reported count is the expected one. |
| EntryReader.SkipCheckDetectsTruncation | src/main/java/org/apache/commons/compress/archivers/tar/TarArchiveInputStream.java:347-356 | Whether the stream is a file or not, checking a raw skip of `expected` bytes succeeds exactly when at least that many bytes are left. |
| EntryReader.RecordPadding | src/main/java/org/apache/commons/compress/archivers/tar/TarArchiveInputStream.java:802-805 | The padding after an entry whose size is not a multiple of the record size is strictly between 0 and the record size, and it brings the size to a multiple of the record size. |
| EntryReader.SkipRecordPadding | src/main/java/org/apache/commons/compress/archivers/tar/TarArchiveInputStream.java:801-810 | A directory, an empty entry, or a size that is already a multiple of the record size leaves the reader unchanged. Otherwise the skip succeeds exactly when the archive holds the padding. The reader then moves less than one record and changes nothing else. Whatever it skipped brings the entry's size to a multiple of the record size. The only error is truncation. |
| EntryReader.ConsumeRemainderOfLastBlock | src/main/java/org/apache/commons/compress/archivers/tar/TarArchiveInputStream.java:331-336 | At a block boundary nothing moves. Otherwise the count moves by less than a block, and nothing but the stream position and the count changes. When the archive holds the rest of the block, or the stream is a file, the count lands on the next multiple of the block size. A shorter archive that is not a file leaves the count where its bytes end, with the stream at its end. |
| EntryReader.ReadEntryData | src/main/java/org/apache/commons/compress/archivers/tar/TarArchiveInputStream.java:373-379 | Reading `smallBuf`-sized pieces until -1 collects exactly the entry's data from `entryOffset` to `realSize`. It fails as truncated when the archive ends first. |
| Records.IsEofRecord | src/main/java/org/apache/commons/compress/archivers/tar/TarArchiveInputStream.java:538-540 | A record is an end-of-archive record exactly when it is missing or its first `recordSize` bytes are all zero. |
| Records.StripTrailingNuls | src/main/java/org/apache/commons/compress/archivers/tar/TarArchiveInputStream.java:386-395 | The result is a prefix of the data. Only zeros follow it in the data, and it does not itself end in a zero. |
| Records.StrippedUnique | src/main/java/org/apache/commons/compress/archivers/tar/TarArchiveInputStream.java:386-395 | Only one byte string is the data with its trailing NULs removed. |
| Records.StrippedRestores | src/main/java/org/apache/commons/compress/archivers/tar/TarArchiveInputStream.java:386-395 | Stripping is idempotent, and padding the name back with zeros gives the data again. |
| Records.GetLongNameData | src/main/java/org/apache/commons/compress/archivers/tar/TarArchiveInputStream.java:373-396 | A truncated archive is an error. With no entry after the long-name entry there is no name. Otherwise the name is the entry's data without its trailing NULs. |
| NextEntry.GetNextTarEntryAsWritten | src/main/java/org/apache/commons/compress/archivers/tar/TarArchiveInputStream.java:419-486 | Once at the end of the archive, the call returns null and changes nothing. The position never moves back. A null entry is returned exactly when the end of the archive is reached; the position is then at `|rs|` or at an end-of-archive record. An entry comes from the plain record just before the new position. The call hands out the next entry: every record it passed over before that one is an extension record, neither plain nor end-of-archive (`Follows`). The global headers it hands back are the incoming ones with the block of every global PAX header it passed over applied, in order (`GlobalsAcross`). A pax header error means a global PAX header lies ahead, and a premature end means a local one does. |
| NextEntry.GetNextTarEntry | src/main/java/org/apache/commons/compress/archivers/tar/TarArchiveInputStream.java:419-486 | The same guarantees, for the dispatch that applies the global PAX headers only once. |
| NextEntry.ResolveFollows | src/main/java/org/apache/commons/compress/archivers/tar/TarArchiveInputStream.java:429-486 | One resolution from any record either stops at the first plain or end-of-archive record, with the global headers of every global PAX header before it applied in order, or fails with an error whose cause lies ahead. |
| NextEntry.GlobalThenPlain | src/main/java/org/apache/commons/compress/archivers/tar/TarArchiveInputStream.java:465-473 | A global PAX header followed by a plain entry resolves to that entry with the header's block, over the earlier global headers, applied once: its values, its `path` as the name and its `linkpath` as the link. Those headers are handed on. |
| NextEntry.GlobalReachesLaterEntry | src/main/java/org/apache/commons/compress/archivers/tar/TarArchiveInputStream.java:436-473 | With a global PAX header and then two plain entries, the second call hands out the second entry with the header's block, over the earlier global headers, applied, just like the first, in both variants. |
| NextEntry.GlobalLocalPlain | src/main/java/org/apache/commons/compress/archivers/tar/TarArchiveInputStream.java:465-473 | A global PAX header, a local one and a plain entry resolve to the plain entry with the local block applied over the new global headers. As written, the global headers are applied over it once more. |
| NextEntry.LongNameFor | src/main/java/org/apache/commons/compress/archivers/tar/TarArchiveInputStream.java:458-463 | A directory's long name gets a "/" appended unless it already ends in one. Any other name is kept as it is. |
| NextEntry.Apply | src/main/java/org/apache/commons/compress/archivers/tar/TarArchiveInputStream.java:228-231 | The block's values override the entry's, and the entry keeps the values the block does not set. A `path` in the block becomes the name and a `linkpath` the link; without them the name and link stay. The type flag and the record stay. |
| NextEntry.LongNameThenPlain | src/main/java/org/apache/commons/compress/archivers/tar/TarArchiveInputStream.java:451-473 | A long-name entry followed by a plain entry resolves to the plain entry, two records on, named by `LongNameFor`, with the global headers unchanged. As written, a global `path` then replaces the long name, because the global headers are applied again after `setName`. |
| NextEntry.LongNameMarksDirectory | src/main/java/org/apache/commons/compress/archivers/tar/TarArchiveInputStream.java:451-473 | A long-name entry in front of a directory gives that directory the long name, ending in "/". As written, a global `path` replaces it. |
| NextEntry.LinkAndNameBothApply | src/main/java/org/apache/commons/compress/archivers/tar/TarArchiveInputStream.java:442-473 | A long-link entry, then a long-name entry, then a plain one resolve to the plain entry, three records on. It carries both the long link and the long name, with a "/" added for a directory. As written, a global `linkpath` replaces the link and a global `path` the name. |
| NextEntry.LocalPathOverridesLongName | src/main/java/org/apache/commons/compress/archivers/tar/TarArchiveInputStream.java:451-473 | A local PAX header with a `path`, then a long-name entry, then a plain one: the entry is named by the local `path`, in both variants, because the PAX block goes over the entry the long name resolved to. |
| NextEntry.LongNameOverridesLocalPath | src/main/java/org/apache/commons/compress/archivers/tar/TarArchiveInputStream.java:451-473 | A long-name entry, then a local PAX header, then a plain one: the long name goes over the local `path`. As written, a global `path` replaces both. |
| NextEntry.LongEntriesBeforeEnd | src/main/java/org/apache/commons/compress/archivers/tar/TarArchiveInputStream.java:442-457 | Any chain of long-name and long-link entries that reaches the end of the archive resolves to null, without an error. |
| NextEntry.LocalThenPlain | src/main/java/org/apache/commons/compress/archivers/tar/TarArchiveInputStream.java:580-591 | A local PAX header followed by an entry resolves to that entry, with the header's block applied over the global headers. |
| NextEntry.GlobalOverridesLocalAsWritten | src/main/java/org/apache/commons/compress/archivers/tar/TarArchiveInputStream.java:465-473 | As written, for global `mtime=1`, then local `mtime=2`, then a file, the file ends up with `mtime=1`. |
| NextEntry.LocalPaxTakesPrecedence | src/main/java/org/apache/commons/compress/archivers/tar/TarArchiveInputStream.java:580-591 | In the corrected dispatch, an entry behind a local PAX header carries every value of that header, however many global headers come before it. |
| SevenZipFolder.FindBindPairForInStream | src/main/java/org/apache/commons/compress/archivers/sevenz/Folder.java:65-74 | The result is -1 exactly when no bind pair has that input index. Otherwise it is the first pair that does. |
| SevenZipFolder.FindBindPairForOutStream | src/main/java/org/apache/commons/compress/archivers/sevenz/Folder.java:76-85 | The result is -1 exactly when no bind pair has that output index. Otherwise it is the first pair that does. |
| SevenZipFolder.GetOrderedCoders | src/main/java/org/apache/commons/compress/archivers/sevenz/Folder.java:94-109 | With no packed streams or no coders, the result is empty. Otherwise the chain starts at the coder of the first packed stream and follows the bind pairs. It stops at the first index that is not a coder, and each coder in it is distinct. Meeting a coder a second time is the "same coder more than once" error. The chain is never longer than the folder's coder list. |
| SevenZipFolder.GetUnpackSize | src/main/java/org/apache/commons/compress/archivers/sevenz/Folder.java:111-121 | No output streams gives 0. Otherwise the result is the unpack size of the highest output stream that feeds no other coder, or an index error when `unpackSizes` is too short. It is 0 when every stream is bound. |
| SevenZipFolder.GetUnpackSizeForCoder | src/main/java/org/apache/commons/compress/archivers/sevenz/Folder.java:123-132 | The result is the unpack size at the coder's first position in the coder list (`IndexOf`, characterised on its own). It is 0 when the folder does not use the coder, and an index error when `unpackSizes` is too short. |

## Left out

- **I/O.** Streams, buffers, `count()` bookkeeping beyond the byte count,
  `mark`/`reset`, `close` and `tryToConsumeSecondEOFRecord` are left out,
  because the model works on byte sequences.
- **The entry's fields.** Of the fields a PAX block sets
  (`updateEntryFromPaxHeaders` is not part of this model), only `path` and
  `linkpath` are entry fields, the name and the link. The others stay as
  key/value pairs in `headers`. `directory` is the entry's type flag only:
  whatever `TarArchiveEntry.isDirectory` derives from a name that a PAX
  `path` sets is not part of this model.
- **Header decoding.** Decoding of TAR headers, PAX blocks
  (`TarUtils.parsePaxHeaders`), `zipEncoding` and `TarArchiveEntry` itself
  are left out. The driver works on records that are already classified, and
  on PAX blocks that are already decoded maps.
- **Old GNU sparse headers and other sparse maps.** Old GNU sparse headers
  (`readOldGNUSparse`), PAX 0.1 and 1.x sparse maps, and the sparse
  bookkeeping in `paxHeaders` are left out. They only produce the sparse map
  that `buildSparseInputStreams` consumes.
- **The sparse map's order.** `getOrderedSparseHeaders` and
  `TarArchiveStructSparse` are not part of this model. The map is taken as
  already sorted, with non-negative offsets and sizes.
- **Skipping in the driver.** Skipping the rest of the current entry and its
  padding at the start of `getNextTarEntry` is modelled separately, by `Skip`
  and `SkipRecordPadding`. The driver starts at the next header record.
- **The nested `getNextEntry` of `getLongNameData`.** It becomes the
  `following` parameter of `Records.GetLongNameData`. The driver models the
  nesting itself.
- **`IOUtils.skip`, `ArchiveUtils.isArrayZero`,
  `TarArchiveSparseZeroInputStream` and `BoundedInputStream`** are not part
  of this model. They are modelled by their documented effect:
  - a skip on the raw stream passes over `min(n, bytes left)`, and a file
    reports the whole request;
  - a skip on a hole passes over `min(n, bytes left in the hole)`;
  - a bounded window reads and skips at most its bytes left.
- **The `setAtEOF(true)` branch of `read`.** It runs when the read below
  returns -1 for a request of 0 bytes, which `read` never makes once it is
  past its early returns. `EntryReader.Settle` still models it.
- Sparse.ReadSparseDelivers, Sparse.SkipSparsePassesOver: the raw
  stream never returns fewer bytes than it has left, and a window always
  reads or skips `min(request, bytes left in it, bytes left in the stream)`.
  A stream that returns short while it still has bytes would make the source
  move to the next sub-stream too early (TarArchiveInputStream.java:727-729,
  :828-829). The model has no such stream.
  Both also hold only when all of the entry's stored bytes are in the
  archive (`Aligned` asks for `DataLen(segs) <= |src|`); for a truncated
  archive they say nothing. Both are also stated only for a non-empty sub-stream list. The empty list
  is a raw read or skip, which `Sparse.ReadSparse` and `Sparse.SkipSparse`
  state.
- EntryReader.ReadDeliversEntry, EntryReader.SkipPassesOverEntry: for a
  sparse entry with sub-streams, both are stated only when the archive holds
  all of the entry's stored bytes. When it does not, the window that runs out
  ends early, the cursor moves on, and the holes after it still read as
  zeros. `EntryReader.TruncatedSparseRead` shows this for one read, but no
  lemma states it in general.
- Sparse.BuildSparseInputStreams: offsets and sizes are unbounded
  integers. The source adds them as Java `long`s (TarArchiveInputStream.java:271,
  :294), which can wrap around. For the map `[(Long.MAX_VALUE - 1, 10), (5, 1)]`,
  the model reports the map as corrupted, while the source's wrapped offset
  lets the second run through.
- EntryReader.Read: requires `numToRead >= 0`. A negative count meets the
  same early returns as any other count: -1 at the end of the archive, on a
  directory or past `realSize`, and the illegal state with no entry. After
  them the source passes the count on to `in.read` or to the sub-stream
  read, and what those do with a negative length is not part of this model.
- EntryReader.WellFormed: requires a positive record size and block size.
  With a zero size, `skipRecordPadding` and `consumeRemainderOfLastBlock`
  divide by zero and throw `ArithmeticException`
  (TarArchiveInputStream.java:332, :802). The model does not raise that error.
- **Null arrays in `Folder`.** A null `unpackSizes` throws
  `NullPointerException` in the source. The model treats it as empty, so the
  error becomes the index error. A null `bindPairs` or `coders` behaves like an
  empty one in every modelled query.
- **Floating point, concurrency and the remaining members of both classes**
  are outside the modelled core.

## Findings

| source | as written | input that shows it | evidently intended | confidence | as-written member | corrected member |
|---|---|---|---|---|---|---|
| src/main/java/org/apache/commons/compress/archivers/tar/TarArchiveInputStream.java:465-473 | After `readGlobalPaxHeaders` returns, the entry the nested call resolved is not a PAX header. So the outer call applies the global headers to it again, over the local PAX values it already carries. | A global PAX header `mtime=1`, then a local PAX header `mtime=2`, then a file: the file ends up with `mtime=1`. | A local PAX header takes precedence over the global headers before it, so the file carries `mtime=2`. | medium, not executed | NextEntry.GlobalOverridesLocalAsWritten | NextEntry.LocalPaxTakesPrecedence |
