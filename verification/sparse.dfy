/** Reconstruction of a sparse TAR entry.

    A sparse entry stores only its non-zero runs. Its ordered sparse map of
    (offset, numbytes) pairs says where each stored run belongs in the
    extracted file; everything between runs is a hole of zeros. The reader
    turns the map into a list of sub-streams, each either a bounded run of
    zeros or a bounded window onto the next bytes of the raw data region,
    and then reads or skips through that list with a cursor.

    Sizes are prefix sums over the sub-stream list (`LenBefore`,
    `UsedBefore`), so that positions in the list and positions in the
    reconstructed entry are related by arithmetic alone. */
module Sparse {
  import opened Results
  import opened Binary

  /** One entry of the sparse map: `numbytes` stored bytes that belong at
      logical `offset` of the extracted entry. */
  datatype SparseHeader = SparseHeader(offset: nat, numbytes: nat)

  /** The logical position just past the run described by `h`. */
  function End(h: SparseHeader): nat
  {
    h.offset + h.numbytes
  }

  /** Whether logical position `p` falls inside the stored run `h`. */
  predicate Covers(h: SparseHeader, p: int)
  {
    h.offset <= p < End(h)
  }

  /** A sub-stream of the reconstructed entry: `len` zeros, or the next
      `len` bytes of the raw data region. */
  datatype Segment = Zero(len: nat) | Data(len: nat)

  /** "Corrupted struct sparse detected". */
  datatype SparseError = CorruptedStructSparse

  /** Raw bytes a sub-stream uses up when it delivers `m` bytes. */
  function Uses(seg: Segment, m: nat): nat
  {
    if seg.Data? then m else 0
  }

  // ---------------------------------------------------------------------
  // Sizes
  // ---------------------------------------------------------------------

  /** Length of the stream of the first `i` segments. */
  function LenBefore(segs: seq<Segment>, i: nat): nat
    requires i <= |segs|
  {
    if i == 0 then 0 else LenBefore(segs, i - 1) + segs[i - 1].len
  }

  /** Raw bytes the first `i` segments consume. */
  function UsedBefore(segs: seq<Segment>, i: nat): nat
    requires i <= |segs|
  {
    if i == 0 then 0 else UsedBefore(segs, i - 1) + Uses(segs[i - 1], segs[i - 1].len)
  }

  /** Length of the stream the segments stand for. */
  function TotalLen(segs: seq<Segment>): nat
  {
    LenBefore(segs, |segs|)
  }

  /** How many raw bytes the segments consume. */
  function DataLen(segs: seq<Segment>): nat
  {
    UsedBefore(segs, |segs|)
  }

  predicate NoEmptySegments(segs: seq<Segment>)
  {
    forall i {:trigger segs[i].len} :: 0 <= i < |segs| ==> segs[i].len > 0
  }

  /** Prefix sums grow with the prefix. */
  lemma {:induction false} PrefixMono(segs: seq<Segment>, i: nat, j: nat)
    requires i <= j <= |segs|
    ensures LenBefore(segs, i) <= LenBefore(segs, j) && UsedBefore(segs, i) <= UsedBefore(segs, j)
    decreases j
  {
    if i < j {
      PrefixMono(segs, i, j - 1);
    }
  }

  /** A segment and everything before it fit in the whole list. */
  lemma {:induction false} PrefixBound(segs: seq<Segment>, i: nat)
    requires i <= |segs|
    ensures i < |segs| ==>
              LenBefore(segs, i) + segs[i].len <= TotalLen(segs)
              && UsedBefore(segs, i) + Uses(segs[i], segs[i].len) <= DataLen(segs)
    ensures LenBefore(segs, i) <= TotalLen(segs) && UsedBefore(segs, i) <= DataLen(segs)
  {
    PrefixMono(segs, i, |segs|);
    if i < |segs| {
      SegmentFits(segs, i);
    }
  }

  lemma {:induction false} SegmentFits(segs: seq<Segment>, i: nat)
    requires i < |segs|
    ensures LenBefore(segs, i) + segs[i].len <= TotalLen(segs)
    ensures UsedBefore(segs, i) + Uses(segs[i], segs[i].len) <= DataLen(segs)
  {
    PrefixMono(segs, i + 1, |segs|);
  }

  /** Prefix sums only look at the prefix. */
  lemma {:induction false} PrefixAgree(s: seq<Segment>, t: seq<Segment>, i: nat)
    requires i <= |s| && i <= |t|
    requires forall j :: 0 <= j < i ==> s[j] == t[j]
    ensures LenBefore(s, i) == LenBefore(t, i) && UsedBefore(s, i) == UsedBefore(t, i)
    decreases i
  {
    if i > 0 {
      PrefixAgree(s, t, i - 1);
    }
  }

  /** Prefix sums of a concatenation: the first list's, then the second
      list's on top of the first list's totals. */
  lemma {:induction false} SumsOfAppend(a: seq<Segment>, b: seq<Segment>, i: nat)
    requires i <= |b|
    ensures LenBefore(a + b, |a| + i) == TotalLen(a) + LenBefore(b, i)
    ensures UsedBefore(a + b, |a| + i) == DataLen(a) + UsedBefore(b, i)
    decreases i
  {
    if i == 0 {
      PrefixAgree(a + b, a, |a|);
    } else {
      assert (a + b)[|a| + i - 1] == b[i - 1];
      SumsOfAppend(a, b, i - 1);
    }
  }

  lemma {:induction false} LengthsAppend(a: seq<Segment>, b: seq<Segment>)
    ensures TotalLen(a + b) == TotalLen(a) + TotalLen(b)
    ensures DataLen(a + b) == DataLen(a) + DataLen(b)
  {
    SumsOfAppend(a, b, |b|);
  }

  // ---------------------------------------------------------------------
  // The sparse map
  // ---------------------------------------------------------------------

  /** The logical offset reached before header `k`: 0, then the end of the
      previous run. */
  function Start(hs: seq<SparseHeader>, k: nat): nat
    requires k <= |hs|
  {
    if k == 0 then 0 else End(hs[k - 1])
  }

  /** Logical size the map describes: the end of its last run. */
  function LastEnd(hs: seq<SparseHeader>): nat
  {
    Start(hs, |hs|)
  }

  /** None of the first `k` runs starts before the end of the run before it. */
  predicate OrderedUpTo(hs: seq<SparseHeader>, k: nat)
    requires k <= |hs|
  {
    forall j {:trigger Start(hs, j)} :: 0 < j < k ==> Start(hs, j) <= hs[j].offset
  }

  /** The runs of the map follow each other without overlapping. */
  predicate Ordered(hs: seq<SparseHeader>)
  {
    OrderedUpTo(hs, |hs|)
  }

  lemma {:induction false} OrderedPrefix(hs: seq<SparseHeader>, k: nat, n: nat)
    requires k <= n <= |hs| && OrderedUpTo(hs, n)
    ensures OrderedUpTo(hs, k)
  {
  }

  /** Stored bytes of the runs before run `k`: where run `k` starts in the
      raw data region. */
  function StoredBefore(hs: seq<SparseHeader>, k: nat): nat
    requires k <= |hs|
  {
    if k == 0 then 0 else StoredBefore(hs, k - 1) + hs[k - 1].numbytes
  }

  /** Total of the stored run lengths of a sparse map. */
  function StoredBytes(hs: seq<SparseHeader>): nat
  {
    StoredBefore(hs, |hs|)
  }

  // ---------------------------------------------------------------------
  // Building the segment list
  // ---------------------------------------------------------------------

  /** A single segment stands for its own bytes. */
  lemma {:induction false} OneSegment(seg: Segment)
    ensures TotalLen([seg]) == seg.len && DataLen([seg]) == Uses(seg, seg.len)
  {
    var segs := [seg];
    assert segs[0] == seg;
    assert LenBefore(segs, 0) == 0 && UsedBefore(segs, 0) == 0;
    assert LenBefore(segs, 1) == LenBefore(segs, 0) + seg.len;
    assert UsedBefore(segs, 1) == UsedBefore(segs, 0) + Uses(seg, seg.len);
  }

  /** The hole sub-stream for a gap of `n` bytes: none when there is no gap. */
  function HoleSegs(n: nat): seq<Segment>
  {
    if n > 0 then [Zero(n)] else []
  }

  /** The window sub-stream for a stored run of `n` bytes: none for an
      empty run. */
  function RunSegs(n: nat): seq<Segment>
  {
    if n > 0 then [Data(n)] else []
  }

  /** A hole of `g` bytes and a window of `n` bytes span `g + n` bytes of
      the entry and read `n` raw bytes. */
  lemma {:induction false} HoleAndRunSizes(g: nat, n: nat)
    ensures TotalLen(HoleSegs(g) + RunSegs(n)) == g + n
    ensures DataLen(HoleSegs(g) + RunSegs(n)) == n
  {
    if g > 0 {
      OneSegment(Zero(g));
    }
    if n > 0 {
      OneSegment(Data(n));
    }
    LengthsAppend(HoleSegs(g), RunSegs(n));
  }

  /** The loop of `buildSparseInputStreams` from header `k` on: `offset` is
      the logical offset reached so far and `acc` the sub-streams built so
      far. A header that starts before `offset` is a corrupted map. */
  function BuildLoop(hs: seq<SparseHeader>, k: nat, offset: nat, acc: seq<Segment>): (r: Result<seq<Segment>, SparseError>)
    requires k <= |hs|
    decreases |hs| - k
  {
    if k == |hs| then
      Success(acc)
    else
      var h := hs[k];
      if h.offset < offset then
        Failure(CorruptedStructSparse)
      else
        BuildLoop(hs, k + 1, End(h), acc + HoleSegs(h.offset - offset) + RunSegs(h.numbytes))
  }

  /** Gap between the end of run `k - 1` and the start of run `k`. */
  function Gap(hs: seq<SparseHeader>, k: nat): nat
    requires k < |hs| && OrderedUpTo(hs, k + 1)
  {
    hs[k].offset - Start(hs, k)
  }

  /** The sub-streams the loop adds for run `k`: the hole before it, then
      its window. */
  function Piece(hs: seq<SparseHeader>, k: nat): seq<Segment>
    requires k < |hs| && OrderedUpTo(hs, k + 1)
  {
    var g := Gap(hs, k);
    var n := hs[k].numbytes;
    if g > 0 && n > 0 then [Zero(g), Data(n)]
    else if g > 0 then [Zero(g)]
    else if n > 0 then [Data(n)]
    else []
  }

  /** The piece for run `k` is the hole then the window, as the loop adds
      them. */
  lemma {:induction false} PieceIsHoleThenRun(hs: seq<SparseHeader>, k: nat)
    requires k < |hs| && OrderedUpTo(hs, k + 1)
    ensures Piece(hs, k) == HoleSegs(Gap(hs, k)) + RunSegs(hs[k].numbytes)
  {
  }

  /** The sub-streams for the first `k` runs of an ordered map. */
  function Built(hs: seq<SparseHeader>, k: nat): seq<Segment>
    requires k <= |hs| && OrderedUpTo(hs, k)
  {
    if k == 0 then [] else Built(hs, k - 1) + Piece(hs, k - 1)
  }

  /** The loop, run from a point the map is ordered up to, ends with the
      sub-streams for the whole map when the rest of the map is ordered too,
      and fails otherwise. */
  lemma {:induction false} BuildLoopBuilds(hs: seq<SparseHeader>, k: nat)
    requires k <= |hs| && OrderedUpTo(hs, k)
    ensures Ordered(hs) ==> BuildLoop(hs, k, Start(hs, k), Built(hs, k)) == Success(Built(hs, |hs|))
    ensures !Ordered(hs) ==> BuildLoop(hs, k, Start(hs, k), Built(hs, k)) == Failure(CorruptedStructSparse)
    decreases |hs| - k
  {
    if k < |hs| {
      if Start(hs, k) <= hs[k].offset {
        BuildStep(hs, k);
        BuildLoopBuilds(hs, k + 1);
      } else {
        BuildStops(hs, k);
      }
    }
  }

  /** One turn of the loop over a header in order. */
  lemma {:induction false} BuildStep(hs: seq<SparseHeader>, k: nat)
    requires k < |hs| && OrderedUpTo(hs, k) && Start(hs, k) <= hs[k].offset
    ensures OrderedUpTo(hs, k + 1)
    ensures BuildLoop(hs, k, Start(hs, k), Built(hs, k)) == BuildLoop(hs, k + 1, Start(hs, k + 1), Built(hs, k + 1))
  {
    assert OrderedUpTo(hs, k + 1);
    var hole := HoleSegs(hs[k].offset - Start(hs, k));
    var run := RunSegs(hs[k].numbytes);
    PieceIsHoleThenRun(hs, k);
    assert Built(hs, k + 1) == Built(hs, k) + (hole + run);
    AppendAssoc(Built(hs, k), hole, run);
  }

  /** A header out of order stops the loop, and the map is not ordered. */
  lemma {:induction false} BuildStops(hs: seq<SparseHeader>, k: nat)
    requires k < |hs| && OrderedUpTo(hs, k) && hs[k].offset < Start(hs, k)
    ensures !Ordered(hs)
    ensures BuildLoop(hs, k, Start(hs, k), Built(hs, k)) == Failure(CorruptedStructSparse)
  {
    assert !OrderedUpTo(hs, k + 1);
    Unordered(hs, k + 1, |hs|);
  }

  /** A map out of order up to `k` is out of order up to any later point. */
  lemma {:induction false} Unordered(hs: seq<SparseHeader>, k: nat, n: nat)
    requires k <= n <= |hs| && !OrderedUpTo(hs, k)
    ensures !OrderedUpTo(hs, n)
  {
  }

  lemma {:induction false} AppendAssoc(a: seq<Segment>, b: seq<Segment>, c: seq<Segment>)
    ensures a + b + c == a + (b + c)
  {
  }

  /** The sub-streams for an ordered prefix of the map span the prefix's
      logical range and read its stored bytes. */
  lemma {:induction false} BuiltSizes(hs: seq<SparseHeader>, k: nat)
    requires k <= |hs| && OrderedUpTo(hs, k)
    ensures TotalLen(Built(hs, k)) == Start(hs, k)
    ensures DataLen(Built(hs, k)) == StoredBefore(hs, k)
    decreases k
  {
    if k > 0 {
      BuiltSizes(hs, k - 1);
      HoleAndRunSizes(Gap(hs, k - 1), hs[k - 1].numbytes);
      PieceIsHoleThenRun(hs, k - 1);
      LengthsAppend(Built(hs, k - 1), Piece(hs, k - 1));
    }
  }

  /** None of the sub-streams is empty. */
  lemma {:induction false} BuiltNonEmpty(hs: seq<SparseHeader>, k: nat)
    requires k <= |hs| && OrderedUpTo(hs, k)
    ensures NoEmptySegments(Built(hs, k))
    decreases k
  {
    if k > 0 {
      BuiltNonEmpty(hs, k - 1);
      var a: seq<Segment> := Built(hs, k - 1);
      var b: seq<Segment> := Piece(hs, k - 1);
      forall j | 0 <= j < |a + b|
        ensures (a + b)[j].len > 0
      {
        if j < |a| {
          assert (a + b)[j] == a[j];
        } else {
          assert (a + b)[j] == b[j - |a|];
        }
      }
    }
  }

  /** Later headers only append sub-streams. */
  lemma {:induction false} BuiltPrefix(hs: seq<SparseHeader>, i: nat, n: nat)
    requires i <= n <= |hs| && OrderedUpTo(hs, n)
    ensures OrderedUpTo(hs, i)
    ensures |Built(hs, i)| <= |Built(hs, n)|
    ensures forall j :: 0 <= j < |Built(hs, i)| ==> Built(hs, n)[j] == Built(hs, i)[j]
  {
    BuiltGrows(hs, i, n);
    forall j | 0 <= j < |Built(hs, i)|
      ensures Built(hs, n)[j] == Built(hs, i)[j]
    {
      BuiltElement(hs, i, n, j);
    }
  }

  /** The list only grows with the headers. */
  lemma {:induction false} BuiltGrows(hs: seq<SparseHeader>, i: nat, n: nat)
    requires i <= n <= |hs| && OrderedUpTo(hs, n)
    ensures OrderedUpTo(hs, i) && |Built(hs, i)| <= |Built(hs, n)|
    decreases n
  {
    OrderedPrefix(hs, i, n);
    if i < n {
      OrderedPrefix(hs, n - 1, n);
      BuiltGrows(hs, i, n - 1);
      assert Built(hs, n) == Built(hs, n - 1) + Piece(hs, n - 1);
    }
  }

  /** Sub-stream `j` of the first `i` runs' list, in a longer list. */
  lemma {:induction false} BuiltElement(hs: seq<SparseHeader>, i: nat, n: nat, j: nat)
    requires i <= n <= |hs| && OrderedUpTo(hs, n)
    requires OrderedUpTo(hs, i) && j < |Built(hs, i)|
    ensures j < |Built(hs, n)| && Built(hs, n)[j] == Built(hs, i)[j]
    decreases n
  {
    if i < n {
      OrderedPrefix(hs, n - 1, n);
      BuiltElement(hs, i, n - 1, j);
      var a := Built(hs, n - 1);
      var b := Piece(hs, n - 1);
      assert Built(hs, n) == a + b;
      assert (a + b)[j] == a[j];
    }
  }

  /** The sub-streams for the first `i` runs start the whole list, and
      their sizes add up to where run `i` starts in either stream. */
  lemma {:induction false} PrefixSumsAt(hs: seq<SparseHeader>, i: nat)
    requires Ordered(hs) && i <= |hs|
    ensures OrderedUpTo(hs, i) && |Built(hs, i)| <= |Built(hs, |hs|)|
    ensures LenBefore(Built(hs, |hs|), |Built(hs, i)|) == Start(hs, i)
    ensures UsedBefore(Built(hs, |hs|), |Built(hs, i)|) == StoredBefore(hs, i)
  {
    BuiltPrefix(hs, i, |hs|);
    BuiltSizes(hs, i);
    PrefixAgree(Built(hs, |hs|), Built(hs, i), |Built(hs, i)|);
  }

  /** Element `u` of the sub-streams for run `i`, in the list for the
      first `n` runs. */
  lemma {:induction false} PieceAt(hs: seq<SparseHeader>, i: nat, u: nat)
    requires Ordered(hs) && i < |hs| && u < |Piece(hs, i)|
    ensures |Built(hs, i)| + u < |Built(hs, |hs|)|
    ensures Built(hs, |hs|)[|Built(hs, i)| + u] == Piece(hs, i)[u]
  {
    PieceInNext(hs, i, u);
    BuiltElement(hs, i + 1, |hs|, |Built(hs, i)| + u);
  }

  /** Element `u` of the sub-streams for run `i`, in the list for the
      runs up to and including `i`. */
  lemma {:induction false} PieceInNext(hs: seq<SparseHeader>, i: nat, u: nat)
    requires i < |hs| && OrderedUpTo(hs, i + 1) && u < |Piece(hs, i)|
    ensures |Built(hs, i)| + u < |Built(hs, i + 1)|
    ensures Built(hs, i + 1)[|Built(hs, i)| + u] == Piece(hs, i)[u]
  {
    var a := Built(hs, i);
    var b := Piece(hs, i);
    assert Built(hs, i + 1) == a + b;
    assert (a + b)[|a| + u] == b[u];
  }

  /** The cursor over the sub-stream list: `index` is the sub-stream being
      read (-1 while the list is empty) and `used` counts the bytes that
      sub-stream has already delivered. */
  datatype SparseState = SparseState(segs: seq<Segment>, index: int, used: nat)

  predicate Valid(st: SparseState)
  {
    && NoEmptySegments(st.segs)
    && (|st.segs| == 0 ==> st.index == -1 && st.used == 0)
    && (|st.segs| > 0 ==> 0 <= st.index <= |st.segs|)
    && (0 <= st.index < |st.segs| ==> st.used <= st.segs[st.index].len)
    && (st.index == |st.segs| ==> st.used == 0)
  }

  /** `buildSparseInputStreams`: the sub-stream list for the sparse map `hs`
      (already sorted by offset), with the cursor on its first sub-stream,
      or the corrupted-map error. */
  function BuildSparseInputStreams(hs: seq<SparseHeader>): (r: Result<SparseState, SparseError>)
    ensures r.Failure? <==> !Ordered(hs)
    ensures r.Success? ==> Valid(r.value) && r.value.used == 0
    ensures r.Success? ==> TotalLen(r.value.segs) == LastEnd(hs)
    ensures r.Success? ==> DataLen(r.value.segs) == StoredBytes(hs)
    ensures r.Success? ==> (r.value.index == 0 <==> |r.value.segs| > 0)
    ensures r.Success? ==> r.value.segs == Built(hs, |hs|)
  {
    BuildLoopBuilds(hs, 0);
    match BuildLoop(hs, 0, 0, [])
    case Failure(e) => Failure(e)
    case Success(segs) =>
      BuiltSizes(hs, |hs|);
      BuiltNonEmpty(hs, |hs|);
      Success(SparseState(segs, if |segs| > 0 then 0 else -1, 0))
  }

  // ---------------------------------------------------------------------
  // The stream the segments stand for
  // ---------------------------------------------------------------------

  /** Byte `p` of the stream the segments stand for, looking for it from
      segment `j` on: a zero in a hole, and in a data window the raw byte
      as far past the earlier windows' bytes as `p` is into the window. */
  function ByteFrom(segs: seq<Segment>, raw: seq<byte>, j: nat, p: nat): byte
    requires j < |segs| && LenBefore(segs, j) <= p < TotalLen(segs) && DataLen(segs) <= |raw|
    decreases |segs| - j
  {
    if p < LenBefore(segs, j + 1) then
      if segs[j].Zero? then 0
      else
        PrefixBound(segs, j);
        raw[UsedBefore(segs, j) + (p - LenBefore(segs, j))]
    else
      ByteFrom(segs, raw, j + 1, p)
  }

  /** The reconstructed entry: the sub-streams one after the other, data
      windows taking successive bytes of the raw region `raw`. */
  function Content(segs: seq<Segment>, raw: seq<byte>): (c: seq<byte>)
    requires DataLen(segs) <= |raw|
    ensures |c| == TotalLen(segs)
  {
    seq(TotalLen(segs), p requires 0 <= p < TotalLen(segs) => ByteFrom(segs, raw, 0, p))
  }

  /** The search for a byte passes over the segments that end before it. */
  lemma {:induction false} SearchReaches(segs: seq<Segment>, raw: seq<byte>, j: nat, i: nat, p: nat)
    requires j <= i < |segs| && DataLen(segs) <= |raw|
    requires LenBefore(segs, i) <= p < LenBefore(segs, i + 1)
    ensures LenBefore(segs, j) <= p < TotalLen(segs)
    ensures ByteFrom(segs, raw, j, p) == ByteFrom(segs, raw, i, p)
    decreases i - j
  {
    PrefixMono(segs, j, i);
    PrefixBound(segs, i);
    if j < i {
      PrefixMono(segs, j + 1, i);
      SearchReaches(segs, raw, j + 1, i, p);
    }
  }

  /** Byte `u` of segment `i` sits in the reconstructed entry right after
      the segments before it: a zero in a hole, and in a data window the
      raw byte `u` places past the windows before it. */
  lemma {:induction false} SegmentByte(segs: seq<Segment>, raw: seq<byte>, i: nat, u: nat)
    requires DataLen(segs) <= |raw| && i < |segs| && u < segs[i].len
    ensures LenBefore(segs, i) + u < TotalLen(segs)
    ensures segs[i].Data? ==> UsedBefore(segs, i) + u < |raw|
    ensures segs[i].Zero? ==> Content(segs, raw)[LenBefore(segs, i) + u] == 0
    ensures segs[i].Data? ==> Content(segs, raw)[LenBefore(segs, i) + u] == raw[UsedBefore(segs, i) + u]
  {
    PrefixBound(segs, i);
    SearchReaches(segs, raw, 0, i, LenBefore(segs, i) + u);
  }

  /** Where the hole before run `i` sits in the sub-stream list. */
  lemma {:induction false} HoleAt(hs: seq<SparseHeader>, i: nat)
    requires Ordered(hs) && i < |hs| && Start(hs, i) < hs[i].offset
    ensures OrderedUpTo(hs, i)
    ensures var segs := Built(hs, |hs|); var j := |Built(hs, i)|;
      && j < |segs| && segs[j] == Zero(hs[i].offset - Start(hs, i))
      && LenBefore(segs, j) == Start(hs, i)
  {
    OrderedPrefix(hs, i + 1, |hs|);
    PrefixSumsAt(hs, i);
    assert Piece(hs, i)[0] == Zero(Gap(hs, i));
    PieceAt(hs, i, 0);
  }

  /** Where the window for run `i` sits in the sub-stream list. */
  lemma {:induction false} RunAt(hs: seq<SparseHeader>, i: nat) returns (j: nat)
    requires Ordered(hs) && i < |hs| && hs[i].numbytes > 0
    ensures OrderedUpTo(hs, i + 1) && j == |Built(hs, i)| + (if Start(hs, i) < hs[i].offset then 1 else 0)
    ensures j < |Built(hs, |hs|)| && Built(hs, |hs|)[j] == Data(hs[i].numbytes)
    ensures LenBefore(Built(hs, |hs|), j) == hs[i].offset
    ensures UsedBefore(Built(hs, |hs|), j) == StoredBefore(hs, i)
  {
    OrderedPrefix(hs, i + 1, |hs|);
    PrefixSumsAt(hs, i);
    var h := if Start(hs, i) < hs[i].offset then 1 else 0;
    j := |Built(hs, i)| + h;
    assert Piece(hs, i)[h] == Data(hs[i].numbytes);
    PieceAt(hs, i, h);
    if h == 1 {
      PastHole(hs, i);
    }
  }

  /** Just past the hole before run `i`. */
  lemma {:induction false} PastHole(hs: seq<SparseHeader>, i: nat)
    requires Ordered(hs) && i < |hs| && Start(hs, i) < hs[i].offset
    ensures OrderedUpTo(hs, i)
    ensures var segs := Built(hs, |hs|); var a := |Built(hs, i)|;
      && a < |segs|
      && LenBefore(segs, a + 1) == hs[i].offset
      && UsedBefore(segs, a + 1) == StoredBefore(hs, i)
  {
    HoleAt(hs, i);
    PrefixSumsAt(hs, i);
    var segs := Built(hs, |hs|);
    var a := |Built(hs, i)|;
    assert LenBefore(segs, a + 1) == LenBefore(segs, a) + segs[a].len;
    assert UsedBefore(segs, a + 1) == UsedBefore(segs, a) + Uses(segs[a], segs[a].len);
  }

  /** The reconstructed entry agrees with the sparse map inside the runs.
      `Built(hs, |hs|)` is the list `BuildSparseInputStreams` returns for an
      ordered map; a position inside stored run `i` lies in the logical
      range and holds the matching byte of that run. */
  lemma {:induction false} ContentOfRuns(hs: seq<SparseHeader>, raw: seq<byte>, i: nat, p: nat)
    requires Ordered(hs) && StoredBytes(hs) <= |raw| && i < |hs| && Covers(hs[i], p)
    ensures DataLen(Built(hs, |hs|)) <= |raw| && TotalLen(Built(hs, |hs|)) == LastEnd(hs)
    ensures p < LastEnd(hs) && StoredBefore(hs, i) + (p - hs[i].offset) < |raw|
    ensures Content(Built(hs, |hs|), raw)[p] == raw[StoredBefore(hs, i) + (p - hs[i].offset)]
  {
    BuiltSizes(hs, |hs|);
    var segs := Built(hs, |hs|);
    var j := RunAt(hs, i);
    WithinSegment(segs, raw, j, p);
    assert UsedBefore(segs, j) + (p - LenBefore(segs, j)) == StoredBefore(hs, i) + (p - hs[i].offset);
  }

  /** A position inside segment `j` holds that segment's byte. */
  lemma {:induction false} WithinSegment(segs: seq<Segment>, raw: seq<byte>, j: nat, p: nat)
    requires DataLen(segs) <= |raw| && j < |segs|
    requires LenBefore(segs, j) <= p < LenBefore(segs, j) + segs[j].len
    ensures p < TotalLen(segs)
    ensures segs[j].Zero? ==> Content(segs, raw)[p] == 0
    ensures segs[j].Data? ==> UsedBefore(segs, j) + (p - LenBefore(segs, j)) < |raw|
    ensures segs[j].Data? ==> Content(segs, raw)[p] == raw[UsedBefore(segs, j) + (p - LenBefore(segs, j))]
  {
    SegmentByte(segs, raw, j, p - LenBefore(segs, j));
  }

  /** No stored run of `hs` covers logical position `p`. */
  predicate InHole(hs: seq<SparseHeader>, p: int)
  {
    forall i :: 0 <= i < |hs| ==> !Covers(hs[i], p)
  }

  /** The first run, from `k` on, that ends after position `p`. */
  lemma {:induction false} RunEndingAfter(hs: seq<SparseHeader>, k: nat, p: nat) returns (i: nat)
    requires k < |hs| && Start(hs, k) <= p < LastEnd(hs)
    ensures k <= i < |hs| && Start(hs, i) <= p < End(hs[i])
    decreases |hs| - k
  {
    if p < End(hs[k]) {
      i := k;
    } else {
      i := RunEndingAfter(hs, k + 1, p);
    }
  }

  /** ... and between the runs: every other position of the logical range
      is a zero of a hole. */
  lemma {:induction false} ContentOfHoles(hs: seq<SparseHeader>, raw: seq<byte>)
    requires Ordered(hs) && StoredBytes(hs) <= |raw|
    ensures BuildSparseInputStreams(hs).Success?
    ensures var segs := BuildSparseInputStreams(hs).value.segs;
      && DataLen(segs) <= |raw| && |Content(segs, raw)| == LastEnd(hs)
      && forall p: int :: 0 <= p < LastEnd(hs) && InHole(hs, p) ==> Content(segs, raw)[p] == 0
  {
    var st := BuildSparseInputStreams(hs).value;
    forall p: int | 0 <= p < LastEnd(hs) && InHole(hs, p)
      ensures Content(st.segs, raw)[p] == 0
    {
      HoleByte(hs, raw, p);
    }
  }

  /** One byte between the runs. */
  lemma {:induction false} HoleByte(hs: seq<SparseHeader>, raw: seq<byte>, p: nat)
    requires Ordered(hs) && StoredBytes(hs) <= |raw| && p < LastEnd(hs) && InHole(hs, p)
    ensures DataLen(Built(hs, |hs|)) <= |raw| && TotalLen(Built(hs, |hs|)) == LastEnd(hs)
    ensures Content(Built(hs, |hs|), raw)[p] == 0
  {
    BuiltSizes(hs, |hs|);
    var i := RunEndingAfter(hs, 0, p);
    assert !Covers(hs[i], p);
    HoleAt(hs, i);
    WithinSegment(Built(hs, |hs|), raw, |Built(hs, i)|, p);
  }

  // ---------------------------------------------------------------------
  // Reading and skipping through the segment list
  // ---------------------------------------------------------------------

  /** What one `read` call hands back: end of stream (-1) or some bytes. */
  datatype Chunk = Eof | Bytes(data: seq<byte>)

  function ChunkLen(c: Chunk): nat
  {
    if c.Bytes? then |c.data| else 0
  }

  /** `InputStream.read(buf, off, k)` on the raw data region `src`, of which
      the first `at` bytes are already consumed: nothing for `k == 0`, end
      of stream once the region is exhausted, otherwise as many of the
      requested bytes as the region still has. */
  function RawRead(src: seq<byte>, at: nat, k: nat): (c: Chunk)
    requires at <= |src|
    ensures c.Eof? <==> k > 0 && at == |src|
    ensures c.Bytes? ==> |c.data| == Min(k, |src| - at) && c.data == src[at..at + |c.data|]
  {
    if k == 0 then Bytes([])
    else if at == |src| then Eof
    else Bytes(src[at..at + Min(k, |src| - at)])
  }

  /** `InputStream.skip(n)` on the raw data region. */
  function RawSkip(src: seq<byte>, at: nat, n: int): (s: nat)
    requires at <= |src|
    ensures at + s <= |src|
    ensures n <= 0 ==> s == 0
    ensures n > 0 ==> s == Min(n, |src| - at)
  {
    if n <= 0 then 0 else Min(n, |src| - at)
  }

  /** What a skip of `n` on the raw stream reports: a `FileInputStream`
      reports the whole request, even past the end of the file; any other
      stream reports the bytes it passed. */
  function SourceSkip(src: seq<byte>, at: nat, n: int, fromFile: bool): (s: nat)
    requires at <= |src|
    ensures n <= 0 ==> s == 0
    ensures n > 0 && fromFile ==> s == n
    ensures n > 0 && !fromFile ==> s == RawSkip(src, at, n)
  {
    if n <= 0 then 0 else if fromFile then n else RawSkip(src, at, n)
  }

  /** A read of `k` bytes from the bounded sub-stream `seg` after it has
      delivered `used` bytes. */
  function SegmentRead(seg: Segment, used: nat, src: seq<byte>, at: nat, k: nat): (c: Chunk)
    requires used <= seg.len && at <= |src|
    ensures c.Bytes? ==> |c.data| <= k && |c.data| <= seg.len - used
    ensures c.Bytes? && seg.Data? ==> at + |c.data| <= |src|
    ensures used == seg.len ==> c.Eof?
  {
    if seg.len - used == 0 then Eof
    else
      match seg
      case Zero(_) => Bytes(Zeros(Min(k, seg.len - used)))
      case Data(_) => RawRead(src, at, Min(k, seg.len - used))
  }

  /** What a skip of `m` bytes on the bounded sub-stream `seg` reports. A
      hole passes over what it has left; a data window asks the raw stream
      for at most what it has left and reports what the raw stream
      reports. */
  function SegmentSkip(seg: Segment, used: nat, src: seq<byte>, at: nat, m: int, fromFile: bool): (s: nat)
    requires used <= seg.len && at <= |src|
    ensures s <= seg.len - used
    ensures m >= 0 ==> s <= m
    ensures seg.Zero? || fromFile ==> s == if m <= 0 then 0 else Min(m, seg.len - used)
    ensures seg.Data? && !fromFile ==> s == SegmentRawSkip(seg, used, src, at, m)
  {
    var toSkip := Min(m, seg.len - used);
    match seg
    case Zero(_) => if toSkip <= 0 then 0 else toSkip
    case Data(_) => SourceSkip(src, at, toSkip, fromFile)
  }

  /** How far that skip moves the raw stream: only a data window moves it,
      and no further than the raw region goes. */
  function SegmentRawSkip(seg: Segment, used: nat, src: seq<byte>, at: nat, m: int): (s: nat)
    requires used <= seg.len && at <= |src|
    ensures at + s <= |src| && s <= seg.len - used
    ensures seg.Zero? ==> s == 0
    ensures seg.Data? && m > 0 ==> s == Min(Min(m, seg.len - used), |src| - at)
  {
    match seg
    case Zero(_) => 0
    case Data(_) => RawSkip(src, at, Min(m, seg.len - used))
  }

  /** The outcome of a sparse read: the chunk, the moved cursor and how
      much of the raw region is consumed afterwards. */
  datatype SparseRead = SparseRead(chunk: Chunk, state: SparseState, at: nat)

  /** `readSparse`: reads up to `k` bytes, moving on to the next sub-stream
      when the current one runs dry, and reading straight from the raw
      region when the list is empty. */
  function ReadSparse(st: SparseState, src: seq<byte>, at: nat, k: nat): (r: SparseRead)
    requires Valid(st) && at <= |src|
    ensures Valid(r.state) && r.state.segs == st.segs
    ensures r.chunk.Bytes? ==> |r.chunk.data| <= k
    ensures at <= r.at <= |src|
    ensures |st.segs| > 0 && st.index >= |st.segs| ==> r.chunk.Eof?
    ensures |st.segs| == 0 ==> r.chunk == RawRead(src, at, k) && r.state == st && r.at == at + ChunkLen(r.chunk)
    ensures |st.segs| > 0 ==> st.index <= r.state.index
    decreases |st.segs| - st.index
  {
    if |st.segs| == 0 then
      var c := RawRead(src, at, k);
      SparseRead(c, st, at + ChunkLen(c))
    else if st.index >= |st.segs| then
      SparseRead(Eof, st, at)
    else
      var seg := st.segs[st.index];
      var c := SegmentRead(seg, st.used, src, at, k);
      var at' := at + Uses(seg, ChunkLen(c));
      var st' := st.(used := st.used + ChunkLen(c));
      if st.index == |st.segs| - 1 then
        SparseRead(c, st', at')
      else if c.Eof? then
        ReadSparse(st.(index := st.index + 1, used := 0), src, at, k)
      else if |c.data| < k then
        var next := ReadSparse(st'.(index := st.index + 1, used := 0), src, at', k - |c.data|);
        if next.chunk.Eof? then SparseRead(c, next.state, next.at)
        else SparseRead(Bytes(c.data + next.chunk.data), next.state, next.at)
      else
        SparseRead(c, st', at')
  }

  /** The outcome of a sparse skip. */
  datatype SparseSkip = SparseSkip(count: nat, state: SparseState, at: nat)

  /** The loop of `skipSparse`, `skipped` bytes having been skipped so far. */
  function SkipLoop(st: SparseState, src: seq<byte>, at: nat, n: int, skipped: nat, fromFile: bool): (r: SparseSkip)
    requires Valid(st) && |st.segs| > 0 && at <= |src|
    requires skipped <= n || skipped == 0
    ensures Valid(r.state) && r.state.segs == st.segs
    ensures skipped <= r.count
    ensures n >= 0 ==> r.count <= n
    ensures r.count < n ==> r.state.index == |st.segs|
    ensures at <= r.at <= |src|
    ensures st.index <= r.state.index
    decreases |st.segs| - st.index
  {
    if skipped < n && st.index < |st.segs| then
      var seg := st.segs[st.index];
      var amt := SegmentSkip(seg, st.used, src, at, n - skipped, fromFile);
      var at' := at + SegmentRawSkip(seg, st.used, src, at, n - skipped);
      if skipped + amt < n then
        SkipLoop(st.(index := st.index + 1, used := 0), src, at', n, skipped + amt, fromFile)
      else
        SparseSkip(skipped + amt, st.(used := st.used + amt), at')
    else
      SparseSkip(skipped, st, at)
  }

  /** `skipSparse`: skips up to `n` bytes across the sub-streams, or on the
      raw region when the list is empty. The count is what the sub-streams
      report; `fromFile` says the raw stream is a `FileInputStream`. */
  function SkipSparse(st: SparseState, src: seq<byte>, at: nat, n: int, fromFile: bool): (r: SparseSkip)
    requires Valid(st) && at <= |src|
    ensures Valid(r.state) && r.state.segs == st.segs
    ensures n >= 0 ==> r.count <= n
    ensures n <= 0 ==> r.count == 0
    ensures |st.segs| > 0 && r.count < n ==> r.state.index == |st.segs|
    ensures |st.segs| == 0 ==>
      r.count == SourceSkip(src, at, n, fromFile) && r.state == st && r.at == at + RawSkip(src, at, n)
    ensures at <= r.at <= |src|
  {
    if |st.segs| == 0 then
      SparseSkip(SourceSkip(src, at, n, fromFile), st, at + RawSkip(src, at, n))
    else
      SkipLoop(st, src, at, n, 0, fromFile)
  }


  // ---------------------------------------------------------------------
  // Where the cursor stands in the reconstructed entry
  // ---------------------------------------------------------------------

  /** Bytes of the reconstructed entry the cursor has delivered. */
  function Delivered(st: SparseState): (d: nat)
    requires Valid(st)
    ensures d <= TotalLen(st.segs)
  {
    if |st.segs| == 0 then 0
    else
      PrefixBound(st.segs, st.index);
      LenBefore(st.segs, st.index) + st.used
  }

  /** Raw bytes the cursor has consumed. */
  function Consumed(st: SparseState): (c: nat)
    requires Valid(st)
    ensures c <= DataLen(st.segs)
  {
    if |st.segs| == 0 then 0
    else
      PrefixBound(st.segs, st.index);
      UsedBefore(st.segs, st.index) + (if st.index < |st.segs| then Uses(st.segs[st.index], st.used) else 0)
  }

  /** Bytes of the reconstructed entry still to come. */
  function Remaining(st: SparseState): (n: nat)
    requires Valid(st)
    ensures Delivered(st) + n == TotalLen(st.segs)
  {
    TotalLen(st.segs) - Delivered(st)
  }

  /** The cursor is `st` and the raw region has been consumed exactly as far
      as the cursor's data windows have read it. */
  predicate Aligned(st: SparseState, src: seq<byte>, at: nat)
  {
    Valid(st) && DataLen(st.segs) <= |src| && at == Consumed(st)
  }

  /** The cursor on the segment after the current one. */
  function Next(st: SparseState): (n: SparseState)
    requires Valid(st) && 0 <= st.index < |st.segs|
    ensures Valid(n) && n.segs == st.segs && n.index == st.index + 1 && n.used == 0
  {
    SparseState(st.segs, st.index + 1, 0)
  }

  /** Moving to the next segment accounts for the rest of the current one. */
  lemma {:induction false} NextPositions(st: SparseState)
    requires Valid(st) && 0 <= st.index < |st.segs|
    ensures var seg := st.segs[st.index];
      && Delivered(Next(st)) == Delivered(st) + (seg.len - st.used)
      && Consumed(Next(st)) == Consumed(st) + Uses(seg, seg.len - st.used)
      && Remaining(st) == seg.len - st.used + Remaining(Next(st))
  {
    PrefixBound(st.segs, st.index);
  }

  /** Consuming `m` bytes of the current segment moves the cursor by `m`. */
  lemma {:induction false} AdvancePositions(st: SparseState, m: nat)
    requires Valid(st) && 0 <= st.index < |st.segs| && st.used + m <= st.segs[st.index].len
    ensures var st' := st.(used := st.used + m);
      && Valid(st')
      && Delivered(st') == Delivered(st) + m
      && Consumed(st') == Consumed(st) + Uses(st.segs[st.index], m)
      && Remaining(st') == Remaining(st) - m
  {
  }

  // ---------------------------------------------------------------------
  // The cursor reads the reconstructed entry in order
  // ---------------------------------------------------------------------

  /** In a hole, the next `m` bytes at the cursor are zeros. */
  lemma {:induction false} HoleSlice(st: SparseState, src: seq<byte>, m: nat)
    requires Valid(st) && DataLen(st.segs) <= |src| && 0 <= st.index < |st.segs|
    requires st.segs[st.index].Zero? && st.used + m <= st.segs[st.index].len
    ensures Delivered(st) + m <= TotalLen(st.segs)
    ensures Content(st.segs, src)[Delivered(st)..Delivered(st) + m] == Zeros(m)
  {
    var i := st.index;
    var pos := Delivered(st);
    PrefixBound(st.segs, i);
    var c := Content(st.segs, src);
    forall p | pos <= p < pos + m
      ensures c[p] == 0
    {
      SegmentByte(st.segs, src, i, st.used + (p - pos));
      assert p == LenBefore(st.segs, i) + (st.used + (p - pos));
    }
    SliceOfZeros(c, pos, m);
  }

  /** In a data window, the next `m` bytes at the cursor are the next `m`
      raw bytes. */
  lemma {:induction false} WindowSlice(st: SparseState, src: seq<byte>, m: nat)
    requires Valid(st) && DataLen(st.segs) <= |src| && 0 <= st.index < |st.segs|
    requires st.segs[st.index].Data? && st.used + m <= st.segs[st.index].len
    ensures Delivered(st) + m <= TotalLen(st.segs)
    ensures Consumed(st) + m <= |src|
    ensures Content(st.segs, src)[Delivered(st)..Delivered(st) + m] == src[Consumed(st)..Consumed(st) + m]
  {
    var i := st.index;
    var pos := Delivered(st);
    var at := Consumed(st);
    PrefixBound(st.segs, i);
    var c := Content(st.segs, src);
    forall p | pos <= p < pos + m
      ensures c[p] == src[at + (p - pos)]
    {
      SegmentByte(st.segs, src, i, st.used + (p - pos));
      assert p == LenBefore(st.segs, i) + (st.used + (p - pos));
      assert at + (p - pos) == UsedBefore(st.segs, i) + (st.used + (p - pos));
    }
    SliceOfSlice(c, pos, src, at, m);
  }

  /** A run of zero bytes in a sequence is a slice of zeros. */
  lemma {:induction false} SliceOfZeros(c: seq<byte>, pos: nat, m: nat)
    requires pos + m <= |c|
    requires forall p :: pos <= p < pos + m ==> c[p] == 0
    ensures c[pos..pos + m] == Zeros(m)
  {
    var s := c[pos..pos + m];
    var z := Zeros(m);
    forall u | 0 <= u < m
      ensures s[u] == z[u]
    {
      assert s[u] == c[pos + u];
    }
    assert s == z;
  }

  /** Two runs that agree byte by byte are equal slices. */
  lemma {:induction false} SliceOfSlice(c: seq<byte>, pos: nat, d: seq<byte>, at: nat, m: nat)
    requires pos + m <= |c| && at + m <= |d|
    requires forall p :: pos <= p < pos + m ==> c[p] == d[at + (p - pos)]
    ensures c[pos..pos + m] == d[at..at + m]
  {
    var s := c[pos..pos + m];
    var t := d[at..at + m];
    forall u | 0 <= u < m
      ensures s[u] == t[u]
    {
      assert s[u] == c[pos + u] && t[u] == d[at + u];
    }
    assert s == t;
  }

  /** A read from the current sub-stream at an aligned cursor hands back
      the next bytes of the reconstructed stream. */
  lemma {:induction false} SegmentReadAtCursor(st: SparseState, src: seq<byte>, at: nat, k: nat)
    requires Aligned(st, src, at) && 0 <= st.index < |st.segs| && k > 0
    requires st.used < st.segs[st.index].len
    ensures Delivered(st) + Min(k, st.segs[st.index].len - st.used) <= TotalLen(st.segs)
    ensures SegmentRead(st.segs[st.index], st.used, src, at, k)
            == Bytes(Content(st.segs, src)[Delivered(st)..Delivered(st) + Min(k, st.segs[st.index].len - st.used)])
  {
    var seg := st.segs[st.index];
    var m := Min(k, seg.len - st.used);
    if seg.Zero? {
      HoleSlice(st, src, m);
      assert SegmentRead(seg, st.used, src, at, k) == Bytes(Zeros(m));
    } else {
      WindowSlice(st, src, m);
      assert SegmentRead(seg, st.used, src, at, k) == RawRead(src, at, m);
      assert RawRead(src, at, m) == Bytes(src[at..at + m]);
    }
  }

  /** Two adjacent slices of a sequence make up the slice they span. */
  lemma {:induction false} SlicesJoin(c: seq<byte>, a: nat, b: nat, e: nat)
    requires a <= b <= e <= |c|
    ensures c[a..b] + c[b..e] == c[a..e]
  {
  }

  /** A read of `k > 0` bytes from an aligned cursor hands back exactly
      the next `min(k, remaining)` bytes of the reconstructed entry, reports
      end of stream only when nothing remains, and leaves the cursor
      aligned and just past what it returned. */
  predicate ReadFollows(st: SparseState, src: seq<byte>, at: nat, k: nat)
    requires Aligned(st, src, at)
  {
    ReadOutcome(st, src, at, k, ReadSparse(st, src, at, k))
  }

  /** `r` is what a read of `k` bytes from `st` should produce. */
  predicate ReadOutcome(st: SparseState, src: seq<byte>, at: nat, k: nat, r: SparseRead)
    requires Aligned(st, src, at)
  {
    && Aligned(r.state, src, r.at)
    && (r.chunk.Eof? <==> Remaining(st) == 0)
    && Delivered(r.state) == Delivered(st) + ChunkLen(r.chunk)
    && (r.chunk.Bytes? ==>
          |r.chunk.data| == Min(k, Remaining(st))
          && r.chunk.data == Content(st.segs, src)[Delivered(st)..Delivered(st) + |r.chunk.data|])
  }


  /** Reading from an aligned cursor, by cases on where the read ends. */
  lemma {:induction false} ReadSparseFollowsContent(st: SparseState, src: seq<byte>, at: nat, k: nat)
    requires Aligned(st, src, at) && |st.segs| > 0 && k > 0
    ensures ReadFollows(st, src, at, k)
    decreases |st.segs| - st.index, 1
  {
    if st.index >= |st.segs| {
      ReadAtEnd(st, src, at, k);
    } else if st.used == st.segs[st.index].len {
      ReadExhaustedSegment(st, src, at, k);
    } else if st.index == |st.segs| - 1 || k <= st.segs[st.index].len - st.used {
      ReadWithinSegment(st, src, at, k);
    } else {
      ReadAcrossSegments(st, src, at, k);
    }
  }

  /** Past the last segment every read is end of stream. */
  lemma {:induction false} ReadAtEnd(st: SparseState, src: seq<byte>, at: nat, k: nat)
    requires Aligned(st, src, at) && |st.segs| > 0 && k > 0 && st.index >= |st.segs|
    ensures ReadFollows(st, src, at, k)
  {
    assert ReadSparse(st, src, at, k) == SparseRead(Eof, st, at);
  }

  /** The current segment has nothing left: the read moves on to the next
      one, or reports end of stream after the last. */
  lemma {:induction false} ReadExhaustedSegment(st: SparseState, src: seq<byte>, at: nat, k: nat)
    requires Aligned(st, src, at) && |st.segs| > 0 && k > 0
    requires 0 <= st.index < |st.segs| && st.used == st.segs[st.index].len
    ensures ReadFollows(st, src, at, k)
    decreases |st.segs| - st.index, 0
  {
    NextPositions(st);
    if st.index < |st.segs| - 1 {
      assert ReadSparse(st, src, at, k) == ReadSparse(Next(st), src, at, k);
      ReadSparseFollowsContent(Next(st), src, at, k);
    } else {
      assert ReadSparse(st, src, at, k) == SparseRead(Eof, st, at);
    }
  }

  /** The read is served by the current segment alone. */
  lemma {:induction false} ReadWithinSegment(st: SparseState, src: seq<byte>, at: nat, k: nat)
    requires Aligned(st, src, at) && |st.segs| > 0 && k > 0
    requires 0 <= st.index < |st.segs| && st.used < st.segs[st.index].len
    requires st.index == |st.segs| - 1 || k <= st.segs[st.index].len - st.used
    ensures ReadFollows(st, src, at, k)
  {
    var seg := st.segs[st.index];
    var m := Min(k, seg.len - st.used);
    NextPositions(st);
    AdvancePositions(st, m);
    SegmentReadAtCursor(st, src, at, k);
    var c := SegmentRead(seg, st.used, src, at, k);
    assert ReadSparse(st, src, at, k) == SparseRead(c, st.(used := st.used + m), at + Uses(seg, m));
    assert m == Min(k, Remaining(st)) by {
      if st.index == |st.segs| - 1 {
        assert Remaining(Next(st)) == 0;
      }
    }
  }

  /** The current segment runs dry before `k` bytes: the read continues
      into the next segment, which has bytes to give. */
  lemma {:induction false} ReadAcrossSegments(st: SparseState, src: seq<byte>, at: nat, k: nat)
    requires Aligned(st, src, at) && |st.segs| > 0 && k > 0
    requires 0 <= st.index < |st.segs| - 1 && st.used < st.segs[st.index].len
    requires st.segs[st.index].len - st.used < k
    ensures ReadFollows(st, src, at, k)
    decreases |st.segs| - st.index, 0
  {
    var seg := st.segs[st.index];
    var m := seg.len - st.used;
    var at1 := at + Uses(seg, m);
    NextAligned(st, src, at);
    ReadSparseFollowsContent(Next(st), src, at1, k - m);
    var next := ReadSparse(Next(st), src, at1, k - m);
    JoinReads(st, src, at, k, next);
    ReadCarriesOn(st, src, at, k, m, at1, next);
  }

  /** Moving past the rest of a segment that is not the last keeps the
      cursor aligned, and the next segment has bytes to give. */
  lemma {:induction false} NextAligned(st: SparseState, src: seq<byte>, at: nat)
    requires Aligned(st, src, at) && 0 <= st.index < |st.segs| - 1
    ensures var seg := st.segs[st.index];
      && Aligned(Next(st), src, at + Uses(seg, seg.len - st.used))
      && Remaining(Next(st)) > 0
      && Remaining(st) == seg.len - st.used + Remaining(Next(st))
      && Delivered(Next(st)) == Delivered(st) + (seg.len - st.used)
  {
    NextPositions(st);
    assert st.segs[st.index + 1].len > 0;
    PrefixBound(st.segs, st.index + 1);
  }

  /** The bytes left in the current segment followed by a correct read
      from the next segment make a correct read from the current one. */
  lemma {:induction false} JoinReads(st: SparseState, src: seq<byte>, at: nat, k: nat, next: SparseRead)
    requires Aligned(st, src, at) && 0 <= st.index < |st.segs| - 1
    requires st.used < st.segs[st.index].len && st.segs[st.index].len - st.used < k
    requires var seg := st.segs[st.index]; var m := seg.len - st.used;
      && Aligned(Next(st), src, at + Uses(seg, m))
      && Remaining(Next(st)) > 0
      && Remaining(st) == m + Remaining(Next(st))
      && Delivered(Next(st)) == Delivered(st) + m
      && ReadOutcome(Next(st), src, at + Uses(seg, m), k - m, next)
    ensures SegmentRead(st.segs[st.index], st.used, src, at, k).Bytes?
    ensures ReadOutcome(st, src, at, k,
              SparseRead(Bytes(SegmentRead(st.segs[st.index], st.used, src, at, k).data + next.chunk.data), next.state, next.at))
  {
    var seg := st.segs[st.index];
    var m := seg.len - st.used;
    var c := JoinedData(st, src, at, k, next.chunk);
    var r := SparseRead(Bytes(c + next.chunk.data), next.state, next.at);
    assert |r.chunk.data| == Min(k, Remaining(st));
    assert Delivered(r.state) == Delivered(st) + ChunkLen(r.chunk);
  }

  /** The bytes left in the current segment, followed by the next bytes of
      the entry after them, are the next bytes of the entry. */
  lemma {:induction false} JoinedData(st: SparseState, src: seq<byte>, at: nat, k: nat, d: Chunk) returns (c: seq<byte>)
    requires Aligned(st, src, at) && 0 <= st.index < |st.segs|
    requires st.used < st.segs[st.index].len && st.segs[st.index].len - st.used < k
    requires var m := st.segs[st.index].len - st.used;
      && d.Bytes? && Delivered(st) + m + |d.data| <= TotalLen(st.segs)
      && d.data == Content(st.segs, src)[Delivered(st) + m..Delivered(st) + m + |d.data|]
    ensures SegmentRead(st.segs[st.index], st.used, src, at, k) == Bytes(c)
    ensures |c| == st.segs[st.index].len - st.used
    ensures c + d.data == Content(st.segs, src)[Delivered(st)..Delivered(st) + |c| + |d.data|]
  {
    var m := st.segs[st.index].len - st.used;
    var C := Content(st.segs, src);
    var pos := Delivered(st);
    SegmentReadAtCursor(st, src, at, k);
    c := C[pos..pos + m];
    SlicesJoin(C, pos, pos + m, pos + m + |d.data|);
  }

  /** When the current segment runs dry before `k` bytes and the next one
      has bytes to give, the read returns both parts joined. */
  lemma {:induction false} ReadCarriesOn(st: SparseState, src: seq<byte>, at: nat, k: nat, m: nat, at1: nat, next: SparseRead)
    requires Valid(st) && at <= |src| && 0 <= st.index < |st.segs| - 1
    requires m == st.segs[st.index].len - st.used && 0 < m < k
    requires at1 == at + Uses(st.segs[st.index], m) && at1 <= |src|
    requires next == ReadSparse(Next(st), src, at1, k - m) && next.chunk.Bytes?
    ensures SegmentRead(st.segs[st.index], st.used, src, at, k).Bytes?
    ensures ReadSparse(st, src, at, k)
            == SparseRead(Bytes(SegmentRead(st.segs[st.index], st.used, src, at, k).data + next.chunk.data), next.state, next.at)
  {
    var c := SegmentRead(st.segs[st.index], st.used, src, at, k);
    assert c.Bytes? && |c.data| == m;
    assert st.(used := st.used + ChunkLen(c)).(index := st.index + 1, used := 0) == Next(st);
  }

  /** A skip loop run from an aligned cursor passes over exactly the next
      `min(n - skipped, remaining)` bytes and leaves the cursor aligned
      and just past them. */
  predicate SkipFollows(st: SparseState, src: seq<byte>, at: nat, n: int, skipped: nat, fromFile: bool)
    requires Aligned(st, src, at) && |st.segs| > 0 && skipped <= n
  {
    SkipOutcome(st, src, at, n, skipped, SkipLoop(st, src, at, n, skipped, fromFile))
  }

  /** `r` is what the skip loop should produce from `st`. */
  predicate SkipOutcome(st: SparseState, src: seq<byte>, at: nat, n: int, skipped: nat, r: SparseSkip)
    requires Aligned(st, src, at) && skipped <= n
  {
    && Aligned(r.state, src, r.at)
    && r.count >= skipped
    && r.count - skipped == Min(n - skipped, Remaining(st))
    && Delivered(r.state) == Delivered(st) + (r.count - skipped)
  }

  /** The skip loop from an aligned cursor, by cases on where it stops. */
  lemma {:induction false} SkipLoopFollowsContent(st: SparseState, src: seq<byte>, at: nat, n: int, skipped: nat, fromFile: bool)
    requires Aligned(st, src, at) && |st.segs| > 0 && skipped <= n
    ensures SkipFollows(st, src, at, n, skipped, fromFile)
    decreases |st.segs| - st.index, 1
  {
    if !(skipped < n && st.index < |st.segs|) {
      SkipStops(st, src, at, n, skipped, fromFile);
    } else if n - skipped <= st.segs[st.index].len - st.used {
      SkipWithinSegment(st, src, at, n, skipped, fromFile);
    } else {
      SkipAcrossSegments(st, src, at, n, skipped, fromFile);
    }
  }

  /** Nothing left to skip, or nothing left to skip over. */
  lemma {:induction false} SkipStops(st: SparseState, src: seq<byte>, at: nat, n: int, skipped: nat, fromFile: bool)
    requires Aligned(st, src, at) && |st.segs| > 0 && skipped <= n
    requires !(skipped < n && st.index < |st.segs|)
    ensures SkipFollows(st, src, at, n, skipped, fromFile)
  {
    assert SkipLoop(st, src, at, n, skipped, fromFile) == SparseSkip(skipped, st, at);
  }

  /** The skip ends inside the current segment. */
  lemma {:induction false} SkipWithinSegment(st: SparseState, src: seq<byte>, at: nat, n: int, skipped: nat, fromFile: bool)
    requires Aligned(st, src, at) && |st.segs| > 0 && skipped < n
    requires 0 <= st.index < |st.segs| && n - skipped <= st.segs[st.index].len - st.used
    ensures SkipFollows(st, src, at, n, skipped, fromFile)
  {
    var seg := st.segs[st.index];
    var amt := n - skipped;
    PrefixBound(st.segs, st.index);
    assert SegmentRawSkip(seg, st.used, src, at, n - skipped) == Uses(seg, amt);
    assert SegmentSkip(seg, st.used, src, at, n - skipped, fromFile) == amt;
    AdvancePositions(st, amt);
    assert SkipLoop(st, src, at, n, skipped, fromFile)
        == SparseSkip(skipped + amt, st.(used := st.used + amt), at + Uses(seg, amt));
  }

  /** The skip passes over the rest of the current segment and carries on
      with the next one, or stops at the end of the list. */
  lemma {:induction false} SkipAcrossSegments(st: SparseState, src: seq<byte>, at: nat, n: int, skipped: nat, fromFile: bool)
    requires Aligned(st, src, at) && |st.segs| > 0 && skipped < n
    requires 0 <= st.index < |st.segs| && st.segs[st.index].len - st.used < n - skipped
    ensures SkipFollows(st, src, at, n, skipped, fromFile)
    decreases |st.segs| - st.index, 0
  {
    var seg := st.segs[st.index];
    var rem := seg.len - st.used;
    var at1 := at + Uses(seg, rem);
    NextPositions(st);
    SkipLoopFollowsContent(Next(st), src, at1, n, skipped + rem, fromFile);
    var r := SkipLoop(Next(st), src, at1, n, skipped + rem, fromFile);
    assert SkipOutcome(Next(st), src, at1, n, skipped + rem, r);
    SkipPastSegment(st, src, at, n, skipped, fromFile, rem, at1);
    JoinSkips(st, src, at, n, skipped, r);
  }

  /** Skipping the rest of the current segment and then correctly from the
      next one is a correct skip from the current one. */
  lemma {:induction false} JoinSkips(st: SparseState, src: seq<byte>, at: nat, n: int, skipped: nat, r: SparseSkip)
    requires Aligned(st, src, at) && skipped < n && 0 <= st.index < |st.segs|
    requires var rem := st.segs[st.index].len - st.used;
      && rem < n - skipped
      && Aligned(Next(st), src, at + Uses(st.segs[st.index], rem))
      && SkipOutcome(Next(st), src, at + Uses(st.segs[st.index], rem), n, skipped + rem, r)
    ensures SkipOutcome(st, src, at, n, skipped, r)
  {
    NextPositions(st);
  }

  /** A skip that goes past the current segment carries on from the next. */
  lemma {:induction false} SkipPastSegment(st: SparseState, src: seq<byte>, at: nat, n: int, skipped: nat, fromFile: bool, rem: nat, at1: nat)
    requires Valid(st) && |st.segs| > 0 && skipped < n
    requires 0 <= st.index < |st.segs| && rem == st.segs[st.index].len - st.used && rem < n - skipped
    requires at1 == at + Uses(st.segs[st.index], rem) && at1 <= |src|
    ensures SkipLoop(st, src, at, n, skipped, fromFile) == SkipLoop(Next(st), src, at1, n, skipped + rem, fromFile)
  {
    var seg := st.segs[st.index];
    assert SegmentRawSkip(seg, st.used, src, at, n - skipped) == Uses(seg, rem);
    assert SegmentSkip(seg, st.used, src, at, n - skipped, fromFile) == rem;
  }

  // ---------------------------------------------------------------------
  // Summaries
  // ---------------------------------------------------------------------

  /** Reading `k > 0` bytes from an aligned sparse cursor hands back exactly
      the next `min(k, remaining)` bytes of the reconstructed entry
      (across segment boundaries), reports end of stream only when nothing
      remains, and leaves the cursor aligned and just past what it
      returned. */
  lemma {:induction false} ReadSparseDelivers(st: SparseState, src: seq<byte>, at: nat, k: nat)
    requires Aligned(st, src, at) && |st.segs| > 0 && k > 0
    ensures var r := ReadSparse(st, src, at, k);
      && Aligned(r.state, src, r.at)
      && (r.chunk.Eof? <==> Remaining(st) == 0)
      && Delivered(r.state) == Delivered(st) + ChunkLen(r.chunk)
      && (r.chunk.Bytes? ==>
            |r.chunk.data| == Min(k, Remaining(st))
            && r.chunk.data == Content(st.segs, src)[Delivered(st)..Delivered(st) + |r.chunk.data|])
  {
    ReadSparseFollowsContent(st, src, at, k);
    assert ReadFollows(st, src, at, k);
  }

  /** Skipping `n >= 0` bytes from an aligned sparse cursor passes over
      exactly the next `min(n, remaining)` bytes of the reconstructed entry
      and leaves the cursor aligned and just past them. The raw region
      holds every stored byte, so a file reports what any stream would. */
  lemma {:induction false} SkipSparsePassesOver(st: SparseState, src: seq<byte>, at: nat, n: int, fromFile: bool)
    requires Aligned(st, src, at) && |st.segs| > 0 && n >= 0
    ensures var r := SkipSparse(st, src, at, n, fromFile);
      && Aligned(r.state, src, r.at)
      && r.count == Min(n, Remaining(st))
      && Delivered(r.state) == Delivered(st) + r.count
  {
    SkipLoopFollowsContent(st, src, at, n, 0, fromFile);
    assert SkipSparse(st, src, at, n, fromFile) == SkipLoop(st, src, at, n, 0, fromFile);
    assert SkipFollows(st, src, at, n, 0, fromFile);
  }

  /** A file reports the whole request even where the raw region ends: a
      window of 10 stored bytes of which the archive holds 4 reports a skip
      of 10, where any other stream reports 4. */
  lemma {:induction false} FileSkipOverReports()
    ensures SkipSparse(SparseState([Data(10)], 0, 0), [1, 2, 3, 4], 0, 10, true).count == 10
    ensures SkipSparse(SparseState([Data(10)], 0, 0), [1, 2, 3, 4], 0, 10, false).count == 4
    ensures SkipSparse(SparseState([], -1, 0), [1, 2, 3, 4], 0, 10, true).count == 10
    ensures SkipSparse(SparseState([], -1, 0), [1, 2, 3, 4], 0, 10, false).count == 4
  {
    var st := SparseState([Data(10)], 0, 0);
    assert NoEmptySegments(st.segs);
    assert SkipSparse(st, [1, 2, 3, 4], 0, 10, true) == SkipLoop(st, [1, 2, 3, 4], 0, 10, 0, true);
    assert SkipSparse(st, [1, 2, 3, 4], 0, 10, false) == SkipLoop(st, [1, 2, 3, 4], 0, 10, 0, false);
  }
}
