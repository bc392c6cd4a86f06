/** The entry-level reader of `TarArchiveInputStream`: how `available`,
    `read` and `skip` walk through the data of the current entry, how a
    skip over the raw stream is checked for truncation, and how the stream
    steps over the padding after an entry and the remainder of the last
    block. */
module EntryReader {
  import opened Results
  import opened Binary
  import opened Sparse

  /** What the reader uses of the current `TarArchiveEntry`. `realSize` is
      the size of the extracted entry, which for a sparse entry is larger
      than the bytes stored in the archive. */
  datatype Entry = Entry(directory: bool, sparse: bool, realSize: int)

  /** The exceptions these operations throw. */
  datatype ReadError =
    | IllegalState   // IllegalStateException("No current tar entry")
    | NullEntry      // a NullPointerException on the missing current entry
    | Truncated      // IOException("Truncated TAR archive")

  /** The reader's state.
      - `entry`: the current entry, `None` for a null `currEntry`;
      - `entrySize`: the header's size field (the stored bytes);
      - `entryOffset`: bytes of the entry handed out or skipped so far;
      - `cursor`: the sparse sub-stream list and its position;
      - `src`: the raw archive bytes from the start of the current entry's
        data to the end of the archive, `at` of them consumed;
      - `bytesRead`: the `count` of the archive stream;
      - `fromFile`: the underlying stream is a `FileInputStream`, whose
        `skip` reports the full request even past the end of the file. */
  datatype Reader = Reader(
    entry: Option<Entry>,
    atEof: bool,
    entrySize: int,
    entryOffset: int,
    cursor: SparseState,
    src: seq<byte>,
    at: nat,
    bytesRead: nat,
    fromFile: bool,
    recordSize: nat,
    blockSize: nat)

  predicate WellFormed(r: Reader)
  {
    r.at <= |r.src| && Valid(r.cursor) && r.recordSize > 0 && r.blockSize > 0
  }

  /** `isDirectory`: false when there is no current entry. */
  predicate IsDirectory(r: Reader)
  {
    r.entry.Some? && r.entry.value.directory
  }

  // ---------------------------------------------------------------------
  // The underlying stream
  // ---------------------------------------------------------------------

  /** `in.available()`: the raw bytes not yet consumed. */
  function SourceAvailable(r: Reader): (a: nat)
    requires WellFormed(r)
    ensures r.at + a == |r.src|
  {
    |r.src| - r.at
  }

  /** `getActuallySkipped`: for a file the reported count is capped by what
      was available; anything but the expected count means the archive is
      truncated. */
  function GetActuallySkipped(available: int, skipped: int, expected: int, fromFile: bool): (r: Result<int, ReadError>)
    ensures r.Success? ==> r.value == expected
    ensures r.Failure? ==> r.error == Truncated
    ensures !fromFile ==> (r.Success? <==> skipped == expected)
  {
    var actuallySkipped := if fromFile then Min(skipped, available) else skipped;
    if actuallySkipped != expected then Failure(Truncated) else Success(actuallySkipped)
  }

  /** Whatever a stream reports for its skips, checking a skip of
      `expected >= 0` raw bytes with `getActuallySkipped` succeeds exactly
      when that many bytes are left. */
  lemma {:induction false} SkipCheckDetectsTruncation(src: seq<byte>, at: nat, expected: int, fromFile: bool)
    requires at <= |src| && expected >= 0
    ensures var skipped := SourceSkip(src, at, expected, fromFile);
      GetActuallySkipped(|src| - at, skipped, expected, fromFile)
        == if expected <= |src| - at then Success(expected) else Failure(Truncated)
  {
  }

  // ---------------------------------------------------------------------
  // available
  // ---------------------------------------------------------------------

  /** `available`: the entry bytes still to come, saturated at
      `Integer.MAX_VALUE`. */
  function Available(r: Reader): (a: Result<int, ReadError>)
    ensures IsDirectory(r) ==> a == Success(0)
    ensures r.entry.None? <==> a.Failure?
    ensures a.Failure? ==> a.error == NullEntry
    ensures a.Success? ==> a.value <= IntMax
    ensures r.entry.Some? && !IsDirectory(r) && r.entryOffset <= r.entry.value.realSize ==>
      a == Success(Min(r.entry.value.realSize - r.entryOffset, IntMax))
  {
    if IsDirectory(r) then Success(0)
    else if r.entry.None? then Failure(NullEntry)
    else
      var available := r.entry.value.realSize - r.entryOffset;
      if available > IntMax then Success(IntMax) else Success(ToInt32(available))
  }

  // ---------------------------------------------------------------------
  // read
  // ---------------------------------------------------------------------

  /** The result of `read`: the returned count, the bytes placed in the
      buffer and the reader afterwards. */
  datatype ReadOut = ReadOut(count: int, data: seq<byte>, reader: Reader)

  /** The read below `read`: `readSparse` for a sparse entry, the raw stream
      otherwise. */
  function Fetch(r: Reader, n: nat): (got: SparseRead)
    requires WellFormed(r) && r.entry.Some?
    ensures Valid(got.state) && got.state.segs == r.cursor.segs && got.at <= |r.src|
    ensures got.chunk.Bytes? ==> |got.chunk.data| <= n
  {
    if r.entry.value.sparse then ReadSparse(r.cursor, r.src, r.at, n)
    else
      var c := RawRead(r.src, r.at, n);
      SparseRead(c, r.cursor, r.at + ChunkLen(c))
  }

  /** `read(buf, off, numToRead)`. */
  function Read(r: Reader, numToRead: int): (res: Result<ReadOut, ReadError>)
    requires WellFormed(r) && numToRead >= 0
    ensures numToRead == 0 ==> res == Success(ReadOut(0, [], r))
    ensures numToRead > 0 && (r.atEof || IsDirectory(r)) ==> res == Success(ReadOut(-1, [], r))
    ensures res == Failure(IllegalState) <==> numToRead > 0 && !r.atEof && r.entry.None?
    ensures res.Failure? ==> res.error != NullEntry
    ensures res.Success? ==> WellFormed(res.value.reader) && res.value.reader.entry == r.entry
    ensures res.Success? ==> -1 <= res.value.count <= numToRead
    ensures res.Success? && res.value.count == -1 ==> res.value.data == [] && res.value.reader.entryOffset == r.entryOffset
    ensures res.Success? && res.value.count >= 0 ==>
      && |res.value.data| == res.value.count
      && res.value.reader.entryOffset == r.entryOffset + res.value.count
      && res.value.reader.bytesRead == r.bytesRead + res.value.count
    ensures res.Success? && r.entry.Some? && r.entryOffset <= r.entry.value.realSize ==>
      res.value.reader.entryOffset <= r.entry.value.realSize
  {
    if numToRead == 0 then Success(ReadOut(0, [], r))
    else if r.atEof || IsDirectory(r) then Success(ReadOut(-1, [], r))
    else if r.entry.None? then Failure(IllegalState)
    else if r.entryOffset >= r.entry.value.realSize then Success(ReadOut(-1, [], r))
    else
      var n := Min(numToRead, Available(r).value);
      Settle(r, n, Fetch(r, n))
  }

  /** The end of `read`: -1 from below is a truncated archive when bytes
      were asked for; bytes read are counted and move `entryOffset`. */
  function Settle(r: Reader, n: int, got: SparseRead): (res: Result<ReadOut, ReadError>)
    requires WellFormed(r) && Valid(got.state) && got.at <= |r.src|
    ensures res.Failure? ==> res.error == Truncated
    ensures res.Success? ==> WellFormed(res.value.reader) && res.value.reader.entry == r.entry
    ensures res.Success? && res.value.count == -1 ==> res.value.data == [] && res.value.reader.entryOffset == r.entryOffset
    ensures res.Success? ==> res.value.count == -1 || res.value.count == ChunkLen(got.chunk)
    ensures res.Success? && res.value.count >= 0 ==>
      && got.chunk.Bytes? && res.value.data == got.chunk.data
      && res.value.reader == r.(entryOffset := r.entryOffset + res.value.count, bytesRead := r.bytesRead + res.value.count,
                                cursor := got.state, at := got.at)
  {
    if got.chunk.Eof? then
      if n > 0 then Failure(Truncated) else Success(ReadOut(-1, [], r.(atEof := true)))
    else
      var m := |got.chunk.data|;
      Success(ReadOut(m, got.chunk.data, r.(entryOffset := r.entryOffset + m, bytesRead := r.bytesRead + m,
                                          cursor := got.state, at := got.at)))
  }

  // ---------------------------------------------------------------------
  // The entry as the reader sees it
  // ---------------------------------------------------------------------

  /** The current entry is read through its sparse sub-streams. */
  predicate Sparsely(r: Reader)
    requires r.entry.Some?
  {
    r.entry.value.sparse && |r.cursor.segs| > 0
  }

  /** The reader stands `entryOffset` bytes into its current entry: a sparse
      cursor aligned with the raw stream and just past what was handed out,
      or, without sub-streams, a raw stream consumed exactly that far. */
  predicate Tracks(r: Reader)
  {
    && WellFormed(r)
    && r.entry.Some?
    && 0 <= r.entryOffset <= r.entry.value.realSize
    && (if Sparsely(r) then Aligned(r.cursor, r.src, r.at) && Delivered(r.cursor) == r.entryOffset
        else r.at == r.entryOffset)
  }

  /** The entry's data as stored: the sparse reconstruction, or the raw
      bytes themselves. Reads stop at `realSize` even if more follows. */
  function EntryData(r: Reader): (d: seq<byte>)
    requires Tracks(r)
    ensures r.entryOffset <= |d|
  {
    if Sparsely(r) then Content(r.cursor.segs, r.src) else r.src
  }

  /** A `read` of `numToRead > 0` bytes from a reader inside an entry
      returns end of entry at `realSize`, fails as truncated when the
      archive has no more of the entry, and otherwise returns the next
      `min(numToRead, available, what the archive still holds)` bytes of
      the entry, staying on track. */
  lemma {:induction false} ReadDeliversEntry(r: Reader, numToRead: int)
    requires Tracks(r) && numToRead > 0 && !r.atEof && !IsDirectory(r)
    ensures var res := Read(r, numToRead);
      var left := |EntryData(r)| - r.entryOffset;
      if r.entryOffset >= r.entry.value.realSize then res == Success(ReadOut(-1, [], r))
      else if left == 0 then res == Failure(Truncated)
      else
        && res.Success?
        && res.value.count == Min(Min(numToRead, Available(r).value), left)
        && res.value.data == EntryData(r)[r.entryOffset .. r.entryOffset + res.value.count]
        && Tracks(res.value.reader)
        && EntryData(res.value.reader) == EntryData(r)
  {
    if r.entryOffset < r.entry.value.realSize {
      if Sparsely(r) {
        ReadThroughSegments(r, numToRead);
      } else {
        ReadThroughRaw(r, numToRead);
      }
    }
  }

  /** What `ReadDeliversEntry` promises inside the entry. */
  predicate ReadsOn(r: Reader, numToRead: int, res: Result<ReadOut, ReadError>)
    requires Tracks(r) && numToRead > 0 && !IsDirectory(r) && r.entryOffset < r.entry.value.realSize
  {
    var left := |EntryData(r)| - r.entryOffset;
    if left == 0 then res == Failure(Truncated)
    else
      && res.Success?
      && res.value.count == Min(Min(numToRead, Available(r).value), left)
      && res.value.data == EntryData(r)[r.entryOffset .. r.entryOffset + res.value.count]
      && Tracks(res.value.reader)
      && EntryData(res.value.reader) == EntryData(r)
  }

  lemma {:induction false} ReadThroughSegments(r: Reader, numToRead: int)
    requires Tracks(r) && numToRead > 0 && !r.atEof && !IsDirectory(r) && r.entryOffset < r.entry.value.realSize
    requires Sparsely(r)
    ensures ReadsOn(r, numToRead, Read(r, numToRead))
  {
    ReadInsideEntry(r, numToRead);
    var n := Min(numToRead, Available(r).value);
    SettleSegments(r, numToRead, n, Fetch(r, n));
  }

  lemma {:induction false} ReadThroughRaw(r: Reader, numToRead: int)
    requires Tracks(r) && numToRead > 0 && !r.atEof && !IsDirectory(r) && r.entryOffset < r.entry.value.realSize
    requires !Sparsely(r)
    ensures ReadsOn(r, numToRead, Read(r, numToRead))
  {
    ReadInsideEntry(r, numToRead);
    var n := Min(numToRead, Available(r).value);
    SettleRaw(r, numToRead, n, Fetch(r, n));
  }

  /** `read` inside an entry is the read below it, settled. */
  lemma {:induction false} ReadInsideEntry(r: Reader, numToRead: int)
    requires WellFormed(r) && numToRead > 0 && !r.atEof && r.entry.Some? && !IsDirectory(r)
    requires r.entryOffset < r.entry.value.realSize
    ensures var n := Min(numToRead, Available(r).value);
      && 0 < n <= r.entry.value.realSize - r.entryOffset
      && Read(r, numToRead) == Settle(r, n, Fetch(r, n))
  {
  }

  lemma {:induction false} SettleSegments(r: Reader, numToRead: int, n: int, got: SparseRead)
    requires Tracks(r) && numToRead > 0 && !IsDirectory(r) && r.entryOffset < r.entry.value.realSize
    requires Sparsely(r) && n == Min(numToRead, Available(r).value) && 0 < n <= r.entry.value.realSize - r.entryOffset
    requires got == ReadSparse(r.cursor, r.src, r.at, n)
    ensures ReadsOn(r, numToRead, Settle(r, n, got))
  {
    ReadSparseDelivers(r.cursor, r.src, r.at, n);
    if got.chunk.Bytes? {
      var r2 := Settle(r, n, got).value.reader;
      assert Tracks(r2) && Sparsely(r2);
      assert EntryData(r2) == EntryData(r);
    }
  }

  lemma {:induction false} SettleRaw(r: Reader, numToRead: int, n: int, got: SparseRead)
    requires Tracks(r) && numToRead > 0 && !IsDirectory(r) && r.entryOffset < r.entry.value.realSize
    requires !Sparsely(r) && n == Min(numToRead, Available(r).value) && 0 < n <= r.entry.value.realSize - r.entryOffset
    requires got == Fetch(r, n)
    ensures ReadsOn(r, numToRead, Settle(r, n, got))
  {
    assert got.chunk == RawRead(r.src, r.at, n);
  }

  /** An archive that ends inside a data window that is not the last one
      (4 stored bytes, of which the archive holds 2, then a hole of 2): the
      read takes the 2 bytes there are and moves on to the next sub-stream,
      so the hole's zeros follow them directly; the next read finds every
      sub-stream used up and fails as truncated. */
  lemma {:induction false} TruncatedSparseRead()
    ensures var r := Reader(Some(Entry(false, true, 6)), false, 4, 0, SparseState([Data(4), Zero(2)], 0, 0),
                            [7, 8], 0, 0, false, 512, 10240);
      var first := Read(r, 6);
      && first.Success? && first.value.count == 4 && first.value.data == [7, 8, 0, 0]
      && first.value.reader.entryOffset == 4
      && Read(first.value.reader, 6) == Failure(Truncated)
  {
    var st := SparseState([Data(4), Zero(2)], 0, 0);
    var src: seq<byte> := [7, 8];
    assert NoEmptySegments(st.segs);
    var r := Reader(Some(Entry(false, true, 6)), false, 4, 0, st, src, 0, 0, false, 512, 10240);
    var tail := ReadSparse(SparseState(st.segs, 1, 0), src, 2, 4);
    assert tail == SparseRead(Bytes([0, 0]), SparseState(st.segs, 1, 2), 2);
    assert src[0..2] == [7, 8];
    assert SegmentRead(Data(4), 0, src, 0, 6) == Bytes([7, 8]);
    assert st.(used := 2).(index := 1, used := 0) == SparseState(st.segs, 1, 0);
    assert ReadSparse(st, src, 0, 6) == SparseRead(Bytes([7, 8] + [0, 0]), SparseState(st.segs, 1, 2), 2);
    var r1 := Read(r, 6).value.reader;
    assert r1.cursor == SparseState(st.segs, 1, 2) && r1.entryOffset == 4;
    assert ReadSparse(r1.cursor, src, 2, 2) == SparseRead(Eof, SparseState(st.segs, 1, 2), 2);
  }

  // ---------------------------------------------------------------------
  // skip
  // ---------------------------------------------------------------------

  /** The result of `skip`: the returned count and the reader afterwards. */
  datatype SkipOut = SkipOut(count: int, reader: Reader)

  /** `skip(n)`: at most to the end of the entry; a raw skip is checked for
      truncation, a sparse one is not. */
  function Skip(r: Reader, n: int): (res: Result<SkipOut, ReadError>)
    requires WellFormed(r)
    ensures n <= 0 || IsDirectory(r) ==> res == Success(SkipOut(0, r))
    ensures res == Failure(NullEntry) <==> n > 0 && r.entry.None?
    ensures res.Failure? ==> res.error != IllegalState
    ensures res.Success? ==> WellFormed(res.value.reader) && res.value.reader.entry == r.entry
    ensures res.Success? ==>
      && 0 <= res.value.count
      && (n >= 0 ==> res.value.count <= n)
      && res.value.reader.entryOffset == r.entryOffset + res.value.count
      && res.value.reader.bytesRead == r.bytesRead + res.value.count
    ensures res.Success? && r.entry.Some? && r.entryOffset <= r.entry.value.realSize ==>
      res.value.reader.entryOffset <= r.entry.value.realSize
  {
    if n <= 0 || IsDirectory(r) then Success(SkipOut(0, r))
    else if r.entry.None? then Failure(NullEntry)
    else
      var availableOfInputStream := SourceAvailable(r);
      var numToSkip := Min(n, r.entry.value.realSize - r.entryOffset);
      if !r.entry.value.sparse then
        var reported := SourceSkip(r.src, r.at, numToSkip, r.fromFile);
        match GetActuallySkipped(availableOfInputStream, reported, numToSkip, r.fromFile)
        case Failure(e) => Failure(e)
        case Success(skipped) =>
          Success(SkipOut(skipped, r.(entryOffset := r.entryOffset + skipped, bytesRead := r.bytesRead + skipped,
                                      at := r.at + RawSkip(r.src, r.at, numToSkip))))
      else
        var s := SkipSparse(r.cursor, r.src, r.at, numToSkip, r.fromFile);
        Success(SkipOut(s.count, r.(entryOffset := r.entryOffset + s.count, bytesRead := r.bytesRead + s.count,
                                    cursor := s.state, at := s.at)))
  }

  /** A `skip` of `n > 0` bytes inside an entry passes over
      `min(n, bytes left in the entry)`. A plain entry fails as truncated
      when the archive holds fewer. A sparse entry read without sub-streams
      skips the raw stream unchecked: on a file the skip reports the whole
      request although the stream stops at the end of the archive, on any
      other stream it stops short there. Apart from that file case, the
      reader stays on track. */
  lemma {:induction false} SkipPassesOverEntry(r: Reader, n: int)
    requires Tracks(r) && n > 0 && !IsDirectory(r)
    ensures var res := Skip(r, n);
      var toSkip := Min(n, r.entry.value.realSize - r.entryOffset);
      var left := |EntryData(r)| - r.entryOffset;
      if !r.entry.value.sparse && left < toSkip then res == Failure(Truncated)
      else if !Sparsely(r) && r.fromFile && left < toSkip then
        res == Success(SkipOut(toSkip, r.(entryOffset := r.entryOffset + toSkip, bytesRead := r.bytesRead + toSkip, at := |r.src|)))
      else
        && res.Success?
        && res.value.count == Min(toSkip, left)
        && Tracks(res.value.reader)
        && EntryData(res.value.reader) == EntryData(r)
  {
    if !r.entry.value.sparse {
      SkipPlain(r, n);
    } else if Sparsely(r) {
      SkipThroughSegments(r, n);
    } else {
      SkipWithoutSegments(r, n);
    }
  }

  /** What `SkipPassesOverEntry` promises when the skip succeeds. */
  predicate SkipsOn(r: Reader, n: int, res: Result<SkipOut, ReadError>)
    requires Tracks(r) && n > 0 && !IsDirectory(r)
  {
    var toSkip := Min(n, r.entry.value.realSize - r.entryOffset);
    && res.Success?
    && res.value.count == Min(toSkip, |EntryData(r)| - r.entryOffset)
    && Tracks(res.value.reader)
    && EntryData(res.value.reader) == EntryData(r)
  }

  lemma {:induction false} SkipPlain(r: Reader, n: int)
    requires Tracks(r) && n > 0 && !IsDirectory(r) && !r.entry.value.sparse
    ensures var toSkip := Min(n, r.entry.value.realSize - r.entryOffset);
      if |EntryData(r)| - r.entryOffset < toSkip then Skip(r, n) == Failure(Truncated)
      else SkipsOn(r, n, Skip(r, n))
  {
    var toSkip := Min(n, r.entry.value.realSize - r.entryOffset);
    SkipCheckDetectsTruncation(r.src, r.at, toSkip, r.fromFile);
  }

  lemma {:induction false} SkipThroughSegments(r: Reader, n: int)
    requires Tracks(r) && n > 0 && !IsDirectory(r) && Sparsely(r)
    ensures SkipsOn(r, n, Skip(r, n))
  {
    var toSkip := Min(n, r.entry.value.realSize - r.entryOffset);
    SkipSparsePassesOver(r.cursor, r.src, r.at, toSkip, r.fromFile);
  }

  lemma {:induction false} SkipWithoutSegments(r: Reader, n: int)
    requires Tracks(r) && n > 0 && !IsDirectory(r) && r.entry.value.sparse && !Sparsely(r)
    ensures var toSkip := Min(n, r.entry.value.realSize - r.entryOffset);
      if r.fromFile && |EntryData(r)| - r.entryOffset < toSkip then
        Skip(r, n) == Success(SkipOut(toSkip, r.(entryOffset := r.entryOffset + toSkip, bytesRead := r.bytesRead + toSkip, at := |r.src|)))
      else SkipsOn(r, n, Skip(r, n))
  {
  }

  // ---------------------------------------------------------------------
  // Padding after an entry, and the last block
  // ---------------------------------------------------------------------

  /** The bytes that fill the last record of an entry of `size` bytes. */
  function RecordPadding(size: int, recordSize: nat): (padding: int)
    requires size > 0 && recordSize > 0 && size % recordSize != 0
    ensures 0 < padding < recordSize
    ensures (size + padding) % recordSize == 0
  {
    var numRecords := size / recordSize + 1;
    var padding := numRecords * recordSize - size;
    assert numRecords * recordSize == (size / recordSize) * recordSize + recordSize;
    DivModUnique(size + padding, numRecords, 0, recordSize);
    padding
  }

  /** `skipRecordPadding`. */
  function SkipRecordPadding(r: Reader): (res: Result<Reader, ReadError>)
    requires WellFormed(r)
    ensures IsDirectory(r) || r.entrySize <= 0 || r.entrySize % r.recordSize == 0 ==> res == Success(r)
    ensures res.Failure? ==> res.error == Truncated
    ensures res.Success? ==> WellFormed(res.value)
    ensures res.Success? ==> res.value.at - r.at == res.value.bytesRead - r.bytesRead < r.recordSize
    ensures res.Success? ==> res.value == r.(at := res.value.at, bytesRead := res.value.bytesRead)
    ensures !IsDirectory(r) && r.entrySize > 0 && r.entrySize % r.recordSize != 0 ==>
      (res.Success? <==> r.at + RecordPadding(r.entrySize, r.recordSize) <= |r.src|)
    ensures res.Success? && !IsDirectory(r) && r.entrySize > 0 ==>
      (r.entrySize + (res.value.at - r.at)) % r.recordSize == 0
  {
    if !IsDirectory(r) && r.entrySize > 0 && r.entrySize % r.recordSize != 0 then
      var available := SourceAvailable(r);
      var padding := RecordPadding(r.entrySize, r.recordSize);
      var reported := SourceSkip(r.src, r.at, padding, r.fromFile);
      match GetActuallySkipped(available, reported, padding, r.fromFile)
      case Failure(e) => Failure(e)
      case Success(skipped) =>
        Success(r.(at := r.at + RawSkip(r.src, r.at, padding), bytesRead := r.bytesRead + skipped))
    else
      Success(r)
  }

  /** `consumeRemainderOfLastBlock`: skips to the end of the block the
      archive ends in, counting what the raw stream reports. */
  function ConsumeRemainderOfLastBlock(r: Reader): (r': Reader)
    requires WellFormed(r)
    ensures WellFormed(r') && r' == r.(at := r'.at, bytesRead := r'.bytesRead)
    ensures r.bytesRead % r.blockSize == 0 ==> r' == r
    ensures r.bytesRead <= r'.bytesRead < r.bytesRead + r.blockSize
    ensures r'.bytesRead - r.bytesRead == r'.at - r.at || r.fromFile
    ensures var rem := r.bytesRead % r.blockSize;
      rem != 0 && (r.blockSize - rem <= |r.src| - r.at || r.fromFile) ==>
        r'.bytesRead == (r.bytesRead / r.blockSize + 1) * r.blockSize
    ensures var rem := r.bytesRead % r.blockSize;
      rem != 0 && r.blockSize - rem > |r.src| - r.at && !r.fromFile ==>
        r'.at == |r.src| && r'.bytesRead == r.bytesRead + (|r.src| - r.at)
  {
    var bytesReadOfLastBlock := r.bytesRead % r.blockSize;
    if bytesReadOfLastBlock > 0 then
      var toSkip := r.blockSize - bytesReadOfLastBlock;
      r.(at := r.at + RawSkip(r.src, r.at, toSkip), bytesRead := r.bytesRead + SourceSkip(r.src, r.at, toSkip, r.fromFile))
    else
      r
  }

  // ---------------------------------------------------------------------
  // Reading a whole entry
  // ---------------------------------------------------------------------

  /** `SMALL_BUFFER_SIZE`, the buffer `getLongNameData` reads with. */
  const SmallBufferSize: nat := 256

  /** The read loop of `getLongNameData`: `read(smallBuf)` until it returns
      -1, collecting what it hands back. On a reader inside a plain or
      sparse entry this is the entry's data up to `realSize`, or a
      truncation error when the archive ends first. */
  method ReadEntryData(r: Reader) returns (res: Result<seq<byte>, ReadError>, r': Reader)
    requires Tracks(r) && !r.atEof && !IsDirectory(r)
    ensures var e := r.entry.value;
      if |EntryData(r)| < e.realSize then res == Failure(Truncated)
      else res == Success(EntryData(r)[r.entryOffset .. e.realSize])
    ensures res.Success? ==> Tracks(r') && r'.entryOffset == r'.entry.value.realSize && !r'.atEof
  {
    var collected: seq<byte> := [];
    r' := r;
    while true
      invariant Tracks(r') && r'.entry == r.entry && !r'.atEof && EntryData(r') == EntryData(r)
      invariant r.entryOffset <= r'.entryOffset
      invariant collected == EntryData(r)[r.entryOffset .. r'.entryOffset]
      decreases r.entry.value.realSize - r'.entryOffset
    {
      ReadStep(r', SmallBufferSize);
      var step := Read(r', SmallBufferSize);
      if step.Failure? {
        res := Failure(step.error);
        return;
      }
      if step.value.count < 0 {
        res := Success(collected);
        return;
      }
      var next := step.value.reader;
      SlicesJoin(EntryData(r), r.entryOffset, r'.entryOffset, next.entryOffset);
      collected := collected + step.value.data;
      r' := next;
    }
  }

  /** One turn of the loop in `ReadEntryData`. */
  lemma {:induction false} ReadStep(r: Reader, k: int)
    requires Tracks(r) && k > 0 && !r.atEof && !IsDirectory(r)
    ensures var res := Read(r, k);
      var e := r.entry.value;
      && (res.Failure? <==> r.entryOffset < e.realSize && |EntryData(r)| == r.entryOffset)
      && (res.Failure? ==> res.error == Truncated)
      && (res.Success? && res.value.count < 0 ==> r.entryOffset == e.realSize)
      && (res.Success? && res.value.count >= 0 ==>
            var r2 := res.value.reader;
            && 0 < res.value.count
            && Tracks(r2) && r2.entry == r.entry && !r2.atEof && EntryData(r2) == EntryData(r)
            && r.entryOffset < r2.entryOffset
            && res.value.data == EntryData(r)[r.entryOffset .. r2.entryOffset])
  {
    ReadDeliversEntry(r, k);
  }
}
