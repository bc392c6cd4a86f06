/** Two record-level checks of `TarArchiveInputStream`: the end-of-archive
    record, and the long name read from a GNU long-name entry with its
    trailing NULs removed. */
module Records {
  import opened Results
  import opened Binary
  import opened EntryReader

  /** `isEOFRecord`: a missing record, or one whose first `recordSize`
      bytes are all zero (the scan of `ArchiveUtils.isArrayZero`). */
  method IsEofRecord(record: Option<seq<byte>>, recordSize: nat) returns (eof: bool)
    requires record.Some? ==> recordSize <= |record.value|
    ensures eof <==> record.None? || forall i :: 0 <= i < recordSize ==> record.value[i] == 0
  {
    if record.None? {
      return true;
    }
    var a := record.value;
    var i := 0;
    while i < recordSize
      invariant 0 <= i <= recordSize
      invariant forall j :: 0 <= j < i ==> a[j] == 0
    {
      if a[i] != 0 {
        return false;
      }
      i := i + 1;
    }
    return true;
  }

  /** `name` is `data` without its trailing NUL terminators: a prefix of
      `data` that does not end in a zero, followed in `data` only by
      zeros. */
  predicate StrippedOf(name: seq<byte>, data: seq<byte>)
  {
    && |name| <= |data|
    && name == data[..|name|]
    && (forall i :: |name| <= i < |data| ==> data[i] == 0)
    && (|name| == 0 || name[|name| - 1] != 0)
  }

  /** The loop at the end of `getLongNameData` that drops trailing NULs. */
  method StripTrailingNuls(data: seq<byte>) returns (name: seq<byte>)
    ensures StrippedOf(name, data)
  {
    var length := |data|;
    while length > 0 && data[length - 1] == 0
      invariant 0 <= length <= |data|
      invariant forall i :: length <= i < |data| ==> data[i] == 0
    {
      length := length - 1;
    }
    name := data[..length];
  }

  /** There is only one way to strip a byte string. */
  lemma {:induction false} StrippedUnique(a: seq<byte>, b: seq<byte>, data: seq<byte>)
    requires StrippedOf(a, data) && StrippedOf(b, data)
    ensures a == b
  {
  }

  /** Stripping leaves a name that strips to itself, and the name padded
      back with zeros is the data again. */
  lemma {:induction false} StrippedRestores(name: seq<byte>, data: seq<byte>)
    requires StrippedOf(name, data)
    ensures StrippedOf(name, name)
    ensures name + Zeros(|data| - |name|) == data
  {
    var z := Zeros(|data| - |name|);
    assert forall i :: 0 <= i < |data| ==> (name + z)[i] == data[i];
  }

  /** `getLongNameData`: the whole data of the long-name entry, then the
      header after it; `following` says whether that header opens an entry
      (the nested `getNextEntry` is not part of this member). With no entry
      following there is no long name; otherwise it is the data without
      its trailing NULs. */
  method GetLongNameData(r: Reader, following: bool) returns (res: Result<Option<seq<byte>>, ReadError>)
    requires Tracks(r) && !r.atEof && !IsDirectory(r)
    ensures var e := r.entry.value;
      if |EntryData(r)| < e.realSize then res == Failure(Truncated)
      else if !following then res == Success(None)
      else res.Success? && res.value.Some? && StrippedOf(res.value.value, EntryData(r)[r.entryOffset .. e.realSize])
  {
    var data, _ := ReadEntryData(r);
    if data.Failure? {
      return Failure(data.error);
    }
    if !following {
      return Success(None);
    }
    var name := StripTrailingNuls(data.value);
    return Success(Some(name));
  }
}
