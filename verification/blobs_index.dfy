/** The address translator: positions `(blob, offset)` versus absolute
    offsets into the logical stream, and the clamped seek arithmetic. */
module BlobsIndexing {
  import opened Blobs

  /** A cursor position. `blob == |blobs|` is the past-the-end sentinel. */
  datatype BlobsIndex = BlobsIndex(blob: nat, offset: nat)

  /** A position that `Read` can work from: at most the sentinel, and inside
      or exactly at the end of its blob. `{i, |blobs[i]|}` ("end of blob i,
      not yet advanced") is well-formed. */
  predicate WellFormed(blobs: seq<Blob>, index: BlobsIndex)
  {
    index.blob <= |blobs| &&
    (index.blob < |blobs| ==> index.offset <= |blobs[index.blob]|)
  }

  /** A position that addresses an actual byte of the stream. */
  predicate Inside(blobs: seq<Blob>, index: BlobsIndex)
  {
    index.blob < |blobs| && index.offset < |blobs[index.blob]|
  }

  /** The end-of-stream cursor used by seeking: the sentinel blob index,
      with the last blob's length as its offset. */
  function EndIndex(blobs: seq<Blob>): BlobsIndex
    requires |blobs| >= 1
  {
    BlobsIndex(|blobs|, |blobs[|blobs| - 1]|)
  }

  /** Absolute stream offset of a position. Any index at or past the
      sentinel is the end of the stream; an offset past the end of its blob
      is recovered as the start of the next blob. */
  function AbsoluteOffsetForIndex(blobs: seq<Blob>, index: BlobsIndex): (r: nat)
    ensures r <= FullSize(blobs)
    ensures index.blob >= |blobs| ==> r == FullSize(blobs)
    ensures WellFormed(blobs, index) && index.blob < |blobs| ==>
              r == PrefixSize(blobs, index.blob) + index.offset
    ensures index.blob < |blobs| && index.offset > |blobs[index.blob]| ==>
              r == PrefixSize(blobs, index.blob + 1)
    decreases |blobs| - index.blob
  {
    if index.blob >= |blobs| then
      FullSize(blobs)
    else if index.offset > |blobs[index.blob]| then
      PrefixSizeStep(blobs, index.blob);
      PrefixSizeAll(blobs);
      AbsoluteOffsetForIndex(blobs, BlobsIndex(index.blob + 1, 0))
    else
      PrefixSizeStep(blobs, index.blob);
      PrefixSizeMonotone(blobs, index.blob + 1, |blobs|);
      PrefixSizeAll(blobs);
      PrefixSize(blobs, index.blob) + index.offset
  }

  /** The walk of `IndexForAbsoluteOffset`, from blob `i` with `rest` bytes
      still to skip: the first blob longer than what remains holds the byte. */
  function IndexFrom(blobs: seq<Blob>, i: nat, rest: nat): (r: BlobsIndex)
    requires i <= |blobs|
    ensures rest < FullSize(blobs[i..]) ==>
              Inside(blobs, r) && i <= r.blob &&
              PrefixSize(blobs, r.blob) + r.offset == PrefixSize(blobs, i) + rest
    ensures rest >= FullSize(blobs[i..]) ==> r == BlobsIndex(|blobs|, 0)
    decreases |blobs| - i
  {
    if i == |blobs| then
      BlobsIndex(|blobs|, 0)
    else
      assert blobs[i..][1..] == blobs[i + 1..];
      if rest < |blobs[i]| then
        BlobsIndex(i, rest)
      else
        PrefixSizeStep(blobs, i);
        IndexFrom(blobs, i + 1, rest - |blobs[i]|)
  }

  /** The position of absolute offset `offset`: for an offset inside the
      stream, the unique position addressing that byte; otherwise `{N, 0}`. */
  function IndexForAbsoluteOffset(blobs: seq<Blob>, offset: nat): (r: BlobsIndex)
    ensures offset < FullSize(blobs) ==>
              Inside(blobs, r) && AbsoluteOffsetForIndex(blobs, r) == offset
    ensures offset >= FullSize(blobs) ==> r == BlobsIndex(|blobs|, 0)
  {
    assert blobs[0..] == blobs;
    IndexFrom(blobs, 0, offset)
  }

  /** `x` clamped into [0, hi]. */
  function Clamp(x: int, hi: nat): nat
  {
    if x < 0 then 0 else if x > hi then hi else x
  }

  /** The position `offset` bytes (possibly negative) away from `start`,
      clamped to `{0, 0}` before the stream and to the end cursor past it. */
  function IndexFromAbsoluteOffset(blobs: seq<Blob>, offset: int, start: BlobsIndex): (r: BlobsIndex)
    requires |blobs| >= 1
    ensures WellFormed(blobs, r)
    ensures AbsoluteOffsetForIndex(blobs, r) ==
              Clamp(AbsoluteOffsetForIndex(blobs, start) + offset, FullSize(blobs))
    ensures AbsoluteOffsetForIndex(blobs, start) + offset < 0 ==> r == BlobsIndex(0, 0)
    ensures 0 <= AbsoluteOffsetForIndex(blobs, start) + offset < FullSize(blobs) ==>
              Inside(blobs, r)
    ensures AbsoluteOffsetForIndex(blobs, start) + offset >= FullSize(blobs) ==>
              r == EndIndex(blobs)
  {
    var startOffset := AbsoluteOffsetForIndex(blobs, start);
    if offset < 0 && -offset > startOffset then
      BlobsIndex(0, 0)
    else
      var dest := startOffset + offset;
      if dest >= FullSize(blobs) then
        EndIndex(blobs)
      else
        IndexForAbsoluteOffset(blobs, dest)
  }

  /** Two positions that address actual bytes and have the same absolute
      offset are the same position. */
  lemma InsideInjective(blobs: seq<Blob>, a: BlobsIndex, b: BlobsIndex)
    requires Inside(blobs, a) && Inside(blobs, b)
    requires AbsoluteOffsetForIndex(blobs, a) == AbsoluteOffsetForIndex(blobs, b)
    ensures a == b
  {
    if a.blob < b.blob {
      PrefixSizeStep(blobs, a.blob);
      PrefixSizeMonotone(blobs, a.blob + 1, b.blob);
    } else if b.blob < a.blob {
      PrefixSizeStep(blobs, b.blob);
      PrefixSizeMonotone(blobs, b.blob + 1, a.blob);
    }
  }

  /** Round trip from positions: a position addressing a byte is recovered
      from its absolute offset. */
  lemma IndexForAbsoluteOffsetInverse(blobs: seq<Blob>, index: BlobsIndex)
    requires Inside(blobs, index)
    ensures IndexForAbsoluteOffset(blobs, AbsoluteOffsetForIndex(blobs, index)) == index
  {
    var o := AbsoluteOffsetForIndex(blobs, index);
    PrefixSizeStep(blobs, index.blob);
    PrefixSizeMonotone(blobs, index.blob + 1, |blobs|);
    PrefixSizeAll(blobs);
    InsideInjective(blobs, IndexForAbsoluteOffset(blobs, o), index);
  }

  /** The boundary rule: an absolute offset that is exactly the start of
      blob `k` resolves to offset 0 of the first non-empty blob from `k` on,
      never to the end of an earlier blob, and every blob skipped is empty. */
  lemma BoundaryResolvesToNextNonEmptyBlob(blobs: seq<Blob>, k: nat)
    requires k < |blobs| && PrefixSize(blobs, k) < FullSize(blobs)
    ensures var r := IndexForAbsoluteOffset(blobs, PrefixSize(blobs, k));
            k <= r.blob && r.offset == 0 && |blobs[r.blob]| > 0 &&
            forall m :: k <= m < r.blob ==> |blobs[m]| == 0
  {
    var r := IndexForAbsoluteOffset(blobs, PrefixSize(blobs, k));
    if r.blob < k {
      PrefixSizeStep(blobs, r.blob);
      PrefixSizeMonotone(blobs, r.blob + 1, k);
      assert false;
    }
    PrefixSizeMonotone(blobs, k, r.blob);
    forall m | k <= m < r.blob
      ensures |blobs[m]| == 0
    {
      PrefixSizeStep(blobs, m);
      PrefixSizeMonotone(blobs, k, m);
      PrefixSizeMonotone(blobs, m + 1, r.blob);
    }
  }

  /** An absolute offset addresses the byte its position names. */
  lemma AbsoluteOffsetAddressesByte(blobs: seq<Blob>, index: BlobsIndex)
    requires Inside(blobs, index)
    ensures AbsoluteOffsetForIndex(blobs, index) < |Concat(blobs)|
    ensures Concat(blobs)[AbsoluteOffsetForIndex(blobs, index)] == blobs[index.blob][index.offset]
  {
    ConcatAtBlob(blobs, index.blob, index.offset, index.offset + 1);
    var p := PrefixSize(blobs, index.blob) + index.offset;
    assert Concat(blobs)[p .. p + 1][0] == Concat(blobs)[p];
  }

  /** Positions ordered lexicographically have ordered absolute offsets,
      so advancing a well-formed cursor never moves backwards in the stream. */
  lemma AbsoluteOffsetMonotone(blobs: seq<Blob>, a: BlobsIndex, b: BlobsIndex)
    requires WellFormed(blobs, a) && WellFormed(blobs, b)
    requires a.blob < b.blob || (a.blob == b.blob && a.offset <= b.offset)
    ensures AbsoluteOffsetForIndex(blobs, a) <= AbsoluteOffsetForIndex(blobs, b)
  {
    if a.blob < b.blob && a.blob < |blobs| {
      PrefixSizeStep(blobs, a.blob);
      PrefixSizeMonotone(blobs, a.blob + 1, b.blob);
    }
  }

  /** A malformed position, whose offset runs past its blob, means the same
      as the start of the next blob. */
  lemma MalformedIsStartOfNextBlob(blobs: seq<Blob>, index: BlobsIndex)
    requires index.blob < |blobs| && index.offset > |blobs[index.blob]|
    ensures AbsoluteOffsetForIndex(blobs, index) ==
            AbsoluteOffsetForIndex(blobs, BlobsIndex(index.blob + 1, 0))
  {
  }

  /** "End of blob i" and "start of blob i+1" are the same stream offset. */
  lemma EndOfBlobIsStartOfNext(blobs: seq<Blob>, i: nat)
    requires i < |blobs|
    ensures AbsoluteOffsetForIndex(blobs, BlobsIndex(i, |blobs[i]|)) ==
            AbsoluteOffsetForIndex(blobs, BlobsIndex(i + 1, 0))
  {
    PrefixSizeStep(blobs, i);
    PrefixSizeAll(blobs);
  }

  /** Seek arithmetic depends only on the absolute destination: two starts
      and deltas reaching the same destination give the same position. */
  lemma IndexFromDependsOnlyOnDestination(blobs: seq<Blob>, d1: int, s1: BlobsIndex, d2: int, s2: BlobsIndex)
    requires |blobs| >= 1
    requires AbsoluteOffsetForIndex(blobs, s1) + d1 == AbsoluteOffsetForIndex(blobs, s2) + d2
    ensures IndexFromAbsoluteOffset(blobs, d1, s1) == IndexFromAbsoluteOffset(blobs, d2, s2)
  {
    var dest := AbsoluteOffsetForIndex(blobs, s1) + d1;
    if 0 <= dest < FullSize(blobs) {
      InsideInjective(blobs, IndexFromAbsoluteOffset(blobs, d1, s1), IndexFromAbsoluteOffset(blobs, d2, s2));
    }
  }
}
