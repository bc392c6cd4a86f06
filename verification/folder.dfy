/** The 7z `Folder`: its coders, the bind pairs that connect one coder's
    output stream to another's input stream, and the queries the 7z reader
    makes of them. */
module SevenZipFolder {
  import opened Results
  import opened Binary

  /** A coder, by object identity: the folder compares coders with `==`
      and `LinkedList.contains`, neither of which looks inside them. */
  type Coder = nat

  /** Output stream `outIndex` feeds input stream `inIndex`. */
  datatype BindPair = BindPair(inIndex: int, outIndex: int)

  /** The fields of `Folder` these queries read; a null array is an empty
      sequence (every query treats the two alike). */
  datatype Folder = Folder(
    coders: seq<Coder>,
    totalOutputStreams: int,
    bindPairs: seq<BindPair>,
    packedStreams: seq<int>,
    unpackSizes: seq<int>)

  datatype FolderError =
    | CoderReused       // IOException("folder uses the same coder more than once in coder chain")
    | IndexOutOfBounds  // ArrayIndexOutOfBoundsException on `unpackSizes`

  // ---------------------------------------------------------------------
  // Bind pairs
  // ---------------------------------------------------------------------

  /** Which end of a bind pair a search looks at. */
  datatype Side = InStream | OutStream

  function StreamOf(p: BindPair, side: Side): int
  {
    match side
    case InStream => p.inIndex
    case OutStream => p.outIndex
  }

  /** The scan shared by both searches, from position `from` on. */
  function FindBindPair(pairs: seq<BindPair>, side: Side, index: int, from: nat): (r: int)
    requires from <= |pairs|
    ensures r == -1 || from <= r < |pairs|
    ensures r == -1 <==> forall j :: from <= j < |pairs| ==> StreamOf(pairs[j], side) != index
    ensures r != -1 ==> StreamOf(pairs[r], side) == index
    ensures r != -1 ==> forall j :: from <= j < r ==> StreamOf(pairs[j], side) != index
    decreases |pairs| - from
  {
    if from == |pairs| then -1
    else if StreamOf(pairs[from], side) == index then from
    else FindBindPair(pairs, side, index, from + 1)
  }

  /** `findBindPairForInStream`: the first bind pair feeding input stream
      `index`, or -1. */
  function FindBindPairForInStream(f: Folder, index: int): (r: int)
    ensures r == -1 <==> forall j :: 0 <= j < |f.bindPairs| ==> f.bindPairs[j].inIndex != index
    ensures r != -1 ==> 0 <= r < |f.bindPairs| && f.bindPairs[r].inIndex == index
    ensures r != -1 ==> forall j :: 0 <= j < r ==> f.bindPairs[j].inIndex != index
  {
    FindBindPair(f.bindPairs, InStream, index, 0)
  }

  /** `findBindPairForOutStream`: the first bind pair fed by output stream
      `index`, or -1. */
  function FindBindPairForOutStream(f: Folder, index: int): (r: int)
    ensures r == -1 <==> forall j :: 0 <= j < |f.bindPairs| ==> f.bindPairs[j].outIndex != index
    ensures r != -1 ==> 0 <= r < |f.bindPairs| && f.bindPairs[r].outIndex == index
    ensures r != -1 ==> forall j :: 0 <= j < r ==> f.bindPairs[j].outIndex != index
  {
    FindBindPair(f.bindPairs, OutStream, index, 0)
  }

  // ---------------------------------------------------------------------
  // The coder chain
  // ---------------------------------------------------------------------

  predicate Distinct<T(==)>(s: seq<T>)
  {
    forall i, j :: 0 <= i < j < |s| ==> s[i] != s[j]
  }

  /** The coder the chain starts with: the narrowed first packed stream. */
  function Start(f: Folder): int
    requires |f.packedStreams| > 0
  {
    ToInt32(f.packedStreams[0])
  }

  /** The coder after coder `i`: the narrowed input stream that the bind
      pair of output stream `i` feeds, or -1 when none does. */
  function Successor(f: Folder, i: int): int
  {
    var pair := FindBindPairForOutStream(f, i);
    if pair != -1 then ToInt32(f.bindPairs[pair].inIndex) else -1
  }

  predicate IsCoderIndex(f: Folder, i: int)
  {
    0 <= i < |f.coders|
  }

  /** `path` is the chain of coder positions followed from the start. */
  predicate FollowsBindPairs(f: Folder, path: seq<int>)
    requires |f.packedStreams| > 0
  {
    && (|path| > 0 ==> path[0] == Start(f))
    && (forall k :: 0 <= k < |path| ==> 0 <= path[k] < |f.coders|)
    && (forall k :: 0 <= k < |path| - 1 ==> path[k + 1] == Successor(f, path[k]))
  }

  /** Where the chain goes after `path`. */
  function After(f: Folder, path: seq<int>): int
    requires |f.packedStreams| > 0
  {
    if |path| == 0 then Start(f) else Successor(f, path[|path| - 1])
  }

  function CodersAt(f: Folder, path: seq<int>): (cs: seq<Coder>)
    requires forall k :: 0 <= k < |path| ==> 0 <= path[k] < |f.coders|
    ensures |cs| == |path|
    ensures forall k :: 0 <= k < |path| ==> cs[k] == f.coders[path[k]]
  {
    seq(|path|, k requires 0 <= k < |path| => f.coders[path[k]])
  }

  /** `getOrderedCoders`: from the coder of the first packed stream, follow
      the bind pairs while they lead to a coder; meeting a coder a second
      time is an error. `path` (ghost) holds the positions visited. The
      chain never holds more coders than the folder has. */
  method GetOrderedCoders(f: Folder) returns (res: Result<seq<Coder>, FolderError>, ghost path: seq<int>)
    ensures |f.packedStreams| == 0 || |f.coders| == 0 ==> res == Success([])
    ensures |f.packedStreams| > 0 && |f.coders| > 0 ==>
      && FollowsBindPairs(f, path)
      && Distinct(CodersAt(f, path))
      && (res.Success? <==> !IsCoderIndex(f, After(f, path)))
      && (res.Success? ==> res.value == CodersAt(f, path))
      && (res.Failure? ==> res.error == CoderReused && f.coders[After(f, path)] in CodersAt(f, path))
    ensures res.Success? ==> |res.value| <= |f.coders|
  {
    path := [];
    if |f.packedStreams| == 0 || |f.coders| == 0 {
      return Success([]), path;
    }
    var list: seq<Coder> := [];
    var current := ToInt32(f.packedStreams[0]);
    while 0 <= current < |f.coders|
      invariant FollowsBindPairs(f, path) && list == CodersAt(f, path) && Distinct(list)
      invariant current == After(f, path)
      invariant |path| <= |f.coders|
      decreases |f.coders| - |path|
    {
      if f.coders[current] in list {
        return Failure(CoderReused), path;
      }
      PathIsShort(f, path + [current]);
      list := list + [f.coders[current]];
      path := path + [current];
      var pair := FindBindPairForOutStream(f, current);
      current := if pair != -1 then ToInt32(f.bindPairs[pair].inIndex) else -1;
    }
    return Success(list), path;
  }

  /** Coder positions holding distinct coders are at most as many as the
      coders. */
  lemma {:induction false} PathIsShort(f: Folder, path: seq<int>)
    requires forall k :: 0 <= k < |path| ==> 0 <= path[k] < |f.coders|
    requires Distinct(CodersAt(f, path))
    ensures |path| <= |f.coders|
  {
    var cs := CodersAt(f, path);
    assert forall i, j :: 0 <= i < j < |path| ==> cs[i] != cs[j];
    DistinctBound(path, |f.coders|);
  }

  /** Pigeonhole: distinct values below `n` are at most `n`. */
  lemma {:induction false} DistinctBound(s: seq<int>, n: nat)
    requires Distinct(s) && forall k :: 0 <= k < |s| ==> 0 <= s[k] < n
    ensures |s| <= n
    decreases n
  {
    if |s| > 0 {
      assert 0 <= s[0] < n;
      var t := Without(s, n - 1);
      forall k | 0 <= k < |t|
        ensures 0 <= t[k] < n - 1
      {
        var i :| 0 <= i < |s| && s[i] == t[k];
      }
      DistinctBound(t, n - 1);
    }
  }

  /** `s` without the value `v`. */
  function Without(s: seq<int>, v: int): (t: seq<int>)
    requires Distinct(s)
    ensures Distinct(t) && |t| == |s| - (if v in s then 1 else 0)
    ensures forall k :: 0 <= k < |t| ==> t[k] != v && t[k] in s
  {
    if |s| == 0 then []
    else
      var rest := Without(s[1..], v);
      assert s[0] !in s[1..];
      if s[0] == v then rest else [s[0]] + rest
  }

  // ---------------------------------------------------------------------
  // Unpack sizes
  // ---------------------------------------------------------------------

  /** Output stream `i` feeds another coder. */
  predicate Bound(f: Folder, i: int)
  {
    FindBindPairForOutStream(f, i) >= 0
  }

  /** The first index `getUnpackSize` looks at: `(int) totalOutputStreams - 1`
      in 32-bit arithmetic. */
  function TopStream(total: int): (top: int)
    ensures 0 < total <= IntMax ==> top == total - 1
  {
    ToInt32(ToInt32(total) - 1)
  }

  /** The entry of `unpackSizes` for stream `i`, or the exception. */
  function SizeAt(f: Folder, i: nat): Result<int, FolderError>
  {
    if i < |f.unpackSizes| then Success(f.unpackSizes[i]) else Failure(IndexOutOfBounds)
  }

  /** `getUnpackSize`: the size of the last output stream that feeds no
      other coder, the folder's final output; 0 with no output streams or
      when every stream is bound. */
  method GetUnpackSize(f: Folder) returns (res: Result<int, FolderError>)
    ensures f.totalOutputStreams == 0 ==> res == Success(0)
    ensures f.totalOutputStreams != 0 && (forall i :: 0 <= i <= TopStream(f.totalOutputStreams) ==> Bound(f, i)) ==>
      res == Success(0)
    ensures f.totalOutputStreams != 0 ==>
      forall i ::
        (&& 0 <= i <= TopStream(f.totalOutputStreams) && !Bound(f, i)
         && forall j :: i < j <= TopStream(f.totalOutputStreams) ==> Bound(f, j))
        ==> res == SizeAt(f, i)
  {
    if f.totalOutputStreams == 0 {
      return Success(0);
    }
    var top := TopStream(f.totalOutputStreams);
    var i := top;
    while i >= 0
      invariant i <= top
      invariant forall j :: i < j <= top ==> Bound(f, j)
    {
      if FindBindPairForOutStream(f, i) < 0 {
        assert !Bound(f, i);
        return SizeAt(f, i);
      }
      i := i - 1;
    }
    return Success(0);
  }

  /** The first position of `c` in `s`, or -1 when `s` does not hold it. */
  function IndexOf(s: seq<Coder>, c: Coder): (r: int)
    ensures r == -1 <==> c !in s
    ensures r != -1 ==> 0 <= r < |s| && s[r] == c && c !in s[..r]
  {
    if |s| == 0 then -1
    else if s[0] == c then 0
    else
      var k := IndexOf(s[1..], c);
      assert c in s[1..] ==> c in s;
      if k == -1 then -1
      else
        assert s[..k + 1] == [s[0]] + s[1..][..k];
        k + 1
  }

  /** `getUnpackSizeForCoder`: the unpack size at the position of the first
      occurrence of `coder`, 0 when the folder does not use it. */
  method GetUnpackSizeForCoder(f: Folder, coder: Coder) returns (res: Result<int, FolderError>)
    ensures var k := IndexOf(f.coders, coder); res == if k == -1 then Success(0) else SizeAt(f, k)
  {
    var i := 0;
    while i < |f.coders|
      invariant 0 <= i <= |f.coders|
      invariant coder !in f.coders[..i]
    {
      if f.coders[i] == coder {
        FirstIndex(f.coders, coder, i);
        return SizeAt(f, i);
      }
      i := i + 1;
    }
    assert f.coders[..i] == f.coders;
    return Success(0);
  }

  /** A position holding `c` with no `c` before it is `IndexOf`. */
  lemma {:induction false} FirstIndex(s: seq<Coder>, c: Coder, i: nat)
    requires i < |s| && s[i] == c && c !in s[..i]
    ensures IndexOf(s, c) == i
  {
    assert c in s;
    var k := IndexOf(s, c);
    assert forall j :: 0 <= j < i ==> s[..i][j] == s[j];
    assert forall j :: 0 <= j < k ==> s[..k][j] == s[j];
  }
}
