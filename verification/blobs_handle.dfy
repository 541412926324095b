/** The read-only seekable handle: a fixed blob store plus one cursor.
    The cursor is the only mutable state; it is passed in and handed back
    by `Read` and `Seek`, and nothing else changes it. */
module BlobsHandle {
  import opened Blobs
  import opened BlobsIndexing

  /** POSIX `whence` encodings accepted by `Seek`. */
  const SEEK_SET: int := 0
  const SEEK_CUR: int := 1
  const SEEK_END: int := 2

  datatype Handle = Handle(blobs: seq<Blob>, cursor: BlobsIndex)

  /** What every reachable handle satisfies: at least one blob, and a cursor
      that `Read` can work from. */
  predicate Valid(h: Handle)
  {
    |h.blobs| >= 1 && WellFormed(h.blobs, h.cursor)
  }

  /** The cursor as an absolute stream offset. */
  function Position(h: Handle): nat
  {
    AbsoluteOffsetForIndex(h.blobs, h.cursor)
  }

  /** A new handle over `blobs`, stored as given. The cursor starts at the
      beginning of the stream (the source leaves it uninitialised; this
      model assumes `{0, 0}`). */
  function New(blobs: seq<Blob>): (h: Handle)
    requires |blobs| >= 1
    ensures Valid(h) && h.blobs == blobs
    ensures Position(h) == 0
  {
    Handle(blobs, BlobsIndex(0, 0))
  }

  /** A compiled snapshot's two regions. */
  datatype Snapshot = Snapshot(data: Blob, instructions: Blob)

  /** The handle over a VM snapshot and an isolate snapshot. The four blobs
      are stored data-before-instructions, VM-before-isolate, so the stream
      reads as both data regions followed by both instruction regions. */
  function CreateForSnapshots(vm: Snapshot, isolate: Snapshot): (h: Handle)
    ensures Valid(h) && |h.blobs| == 4 && Position(h) == 0
    ensures h.blobs[0] == vm.data && h.blobs[1] == isolate.data
    ensures h.blobs[2] == vm.instructions && h.blobs[3] == isolate.instructions
    ensures Concat(h.blobs) == vm.data + isolate.data + vm.instructions + isolate.instructions
    ensures FullSize(h.blobs) ==
              |vm.data| + |isolate.data| + |vm.instructions| + |isolate.instructions|
  {
    var blobs := [vm.data, isolate.data, vm.instructions, isolate.instructions];
    assert blobs[1..] == [isolate.data, vm.instructions, isolate.instructions];
    assert blobs[1..][1..] == [vm.instructions, isolate.instructions];
    assert blobs[1..][1..][1..] == [isolate.instructions];
    assert blobs[1..][1..][1..][1..] == [];
    assert Concat(blobs[1..][1..][1..]) == isolate.instructions;
    assert Concat(blobs[1..][1..]) == vm.instructions + isolate.instructions;
    assert Concat(blobs[1..]) == isolate.data + vm.instructions + isolate.instructions;
    New(blobs)
  }

  /** One copy step of `Read`: writing the next `chunk` of the stream at
      output position `n` extends the copied prefix and leaves the rest of
      the caller's buffer alone. */
  lemma CopyChunk(buf: seq<byte>, orig: seq<byte>, stream: seq<byte>, start: nat, n: nat, chunk: seq<byte>)
    requires n + |chunk| <= |buf| == |orig|
    requires start + n + |chunk| <= |stream|
    requires buf[..n] == stream[start .. start + n]
    requires buf[n..] == orig[n..]
    requires stream[start + n .. start + n + |chunk|] == chunk
    ensures var b := buf[..n] + chunk + buf[n + |chunk|..];
            |b| == |buf| &&
            b[..n + |chunk|] == stream[start .. start + n + |chunk|] &&
            b[n + |chunk|..] == orig[n + |chunk|..]
  {
  }

  /** What `Read` has achieved after copying `n` bytes from stream offset
      `start`: the cursor sits `n` bytes further on, the output holds those
      bytes of the stream and the rest of the caller's buffer is untouched. */
  ghost predicate ReadProgress(blobs: seq<Blob>, buffer: seq<byte>, start: nat, length: nat,
                               cur: BlobsIndex, n: nat, out: seq<byte>)
  {
    && WellFormed(blobs, cur)
    && n <= length <= |buffer| == |out|
    && AbsoluteOffsetForIndex(blobs, cur) == start + n
    && start + n <= |Concat(blobs)|
    && out[..n] == Concat(blobs)[start .. start + n]
    && out[n..] == buffer[n..]
  }

  /** Stepping from "end of blob i" to "start of blob i+1" keeps the
      progress of `Read`. */
  lemma AdvanceKeepsProgress(blobs: seq<Blob>, buffer: seq<byte>, start: nat, length: nat,
                             cur: BlobsIndex, n: nat, out: seq<byte>)
    requires ReadProgress(blobs, buffer, start, length, cur, n, out)
    requires cur.blob < |blobs| && cur.offset == |blobs[cur.blob]|
    ensures ReadProgress(blobs, buffer, start, length, BlobsIndex(cur.blob + 1, 0), n, out)
  {
    EndOfBlobIsStartOfNext(blobs, cur.blob);
  }

  /** Copying the next `k` bytes of the current blob keeps the progress
      of `Read`, with `k` more bytes done. */
  lemma CopyKeepsProgress(blobs: seq<Blob>, buffer: seq<byte>, start: nat, length: nat,
                          cur: BlobsIndex, n: nat, out: seq<byte>, k: nat)
    requires ReadProgress(blobs, buffer, start, length, cur, n, out)
    requires cur.blob < |blobs| && n + k <= length && cur.offset + k <= |blobs[cur.blob]|
    ensures ReadProgress(blobs, buffer, start, length, BlobsIndex(cur.blob, cur.offset + k), n + k,
                         out[..n] + blobs[cur.blob][cur.offset .. cur.offset + k] + out[n + k..])
  {
    var chunk := blobs[cur.blob][cur.offset .. cur.offset + k];
    ConcatAtBlob(blobs, cur.blob, cur.offset, cur.offset + k);
    CopyChunk(out, buffer, Concat(blobs), start, n, chunk);
  }

  /** Copies up to `length` bytes from the cursor into `buffer`, crossing
      blob boundaries, and advances the cursor past them. A short count
      means the end of the stream was reached. */
  method Read(h: Handle, buffer: seq<byte>, length: nat) returns (h': Handle, buffer': seq<byte>, bytesRead: nat)
    requires Valid(h)
    requires |buffer| >= length
    ensures Valid(h') && h'.blobs == h.blobs
    ensures bytesRead <= length && |buffer'| == |buffer|
    ensures bytesRead == if length <= FullSize(h.blobs) - Position(h) then length
                         else FullSize(h.blobs) - Position(h)
    ensures Position(h) + bytesRead <= |Concat(h.blobs)|
    ensures buffer'[..bytesRead] == Concat(h.blobs)[Position(h) .. Position(h) + bytesRead]
    ensures buffer'[bytesRead..] == buffer[bytesRead..]
    ensures Position(h') == Position(h) + bytesRead
    ensures bytesRead < length ==> h'.cursor.blob == |h.blobs|
    ensures h.cursor.blob <= h'.cursor.blob
    ensures Position(h) == 0 && length == FullSize(h.blobs) ==> buffer'[..bytesRead] == Concat(h.blobs)
  {
    var blobs := h.blobs;
    var cur := h.cursor;
    var n := 0;
    ghost var start := Position(h);
    buffer' := buffer;
    while n < length
      invariant ReadProgress(blobs, buffer, start, length, cur, n, buffer')
      invariant h.cursor.blob <= cur.blob
      decreases length - n, |blobs| - cur.blob
    {
      if cur.blob >= |blobs| {
        break;
      }
      var remaining := |blobs[cur.blob]| - cur.offset;
      if remaining == 0 {
        AdvanceKeepsProgress(blobs, buffer, start, length, cur, n, buffer');
        cur := BlobsIndex(cur.blob + 1, 0);
        continue;
      }
      var k := if length - n < remaining then length - n else remaining;
      CopyKeepsProgress(blobs, buffer, start, length, cur, n, buffer', k);
      buffer' := buffer'[..n] + blobs[cur.blob][cur.offset .. cur.offset + k] + buffer'[n + k..];
      n := n + k;
      cur := BlobsIndex(cur.blob, cur.offset + k);
    }
    h' := Handle(blobs, cur);
    bytesRead := n;
  }

  /** The absolute offset a seek is measured from. */
  function SeekBase(h: Handle, whence: int): nat
  {
    if whence == SEEK_SET then 0
    else if whence == SEEK_CUR then Position(h)
    else FullSize(h.blobs)
  }

  /** Moves the cursor `offset` bytes from the origin `whence`, clamping to
      the stream, and returns the new cursor's offset WITHIN ITS BLOB (not
      the absolute stream position). Any other `whence` is a fatal check in
      the source, so it is excluded here. */
  function Seek(h: Handle, offset: int, whence: int): (r: (Handle, int))
    requires Valid(h)
    requires whence == SEEK_SET || whence == SEEK_CUR || whence == SEEK_END
    ensures Valid(r.0) && r.0.blobs == h.blobs
    ensures r.1 == r.0.cursor.offset
    ensures Position(r.0) == Clamp(SeekBase(h, whence) + offset, FullSize(h.blobs))
    ensures SeekBase(h, whence) + offset < 0 ==> r.0.cursor == BlobsIndex(0, 0)
    ensures 0 <= SeekBase(h, whence) + offset < FullSize(h.blobs) ==>
              Inside(h.blobs, r.0.cursor)
    ensures SeekBase(h, whence) + offset >= FullSize(h.blobs) ==>
              r.0.cursor == BlobsIndex(|h.blobs|, |h.blobs[|h.blobs| - 1]|)
  {
    var start :=
      if whence == SEEK_CUR then h.cursor
      else if whence == SEEK_SET then BlobsIndex(0, 0)
      else EndIndex(h.blobs);
    var cursor := IndexFromAbsoluteOffset(h.blobs, offset, start);
    (Handle(h.blobs, cursor), cursor.offset)
  }

  /** Seeks are determined by their absolute destination alone: whatever
      the prior cursor and origin, the same destination gives the same
      cursor. */
  lemma SeekDependsOnlyOnDestination(h1: Handle, d1: int, w1: int, h2: Handle, d2: int, w2: int)
    requires Valid(h1) && Valid(h2) && h1.blobs == h2.blobs
    requires w1 == SEEK_SET || w1 == SEEK_CUR || w1 == SEEK_END
    requires w2 == SEEK_SET || w2 == SEEK_CUR || w2 == SEEK_END
    requires SeekBase(h1, w1) + d1 == SeekBase(h2, w2) + d2
    ensures Seek(h1, d1, w1) == Seek(h2, d2, w2)
  {
    var blobs := h1.blobs;
    var dest := SeekBase(h1, w1) + d1;
    if 0 <= dest < FullSize(blobs) {
      InsideInjective(blobs, Seek(h1, d1, w1).0.cursor, Seek(h2, d2, w2).0.cursor);
    }
  }

  /** Seek composition: seeking to `x` from the start and then `y` from
      there is a single seek to `x + y`, provided `x` lies within the
      stream. */
  lemma SeekSetThenCur(h: Handle, x: int, y: int)
    requires Valid(h)
    requires 0 <= x <= FullSize(h.blobs)
    ensures Valid(Seek(h, x, SEEK_SET).0)
    ensures Seek(Seek(h, x, SEEK_SET).0, y, SEEK_CUR) == Seek(h, x + y, SEEK_SET)
  {
    var h1 := Seek(h, x, SEEK_SET).0;
    SeekDependsOnlyOnDestination(h1, y, SEEK_CUR, h, x + y, SEEK_SET);
  }

  /** After seeking to the end (or past it), the cursor is at the end of the
      stream, so any following `Read` returns 0 bytes. */
  lemma SeekEndIsEndOfStream(h: Handle, offset: int)
    requires Valid(h) && offset >= 0
    ensures Position(Seek(h, offset, SEEK_END).0) == FullSize(h.blobs)
    ensures Seek(h, offset, SEEK_END).0.cursor == EndIndex(h.blobs)
  {
  }

  /** Seek reports the offset within the blob the cursor lands on, which
      is the absolute position minus the bytes of all earlier blobs; once
      the cursor is past a non-empty first blob, it is smaller than the
      absolute position. */
  lemma SeekResultIsIntraBlobOffset(h: Handle, offset: int, whence: int)
    requires Valid(h)
    requires whence == SEEK_SET || whence == SEEK_CUR || whence == SEEK_END
    requires Inside(h.blobs, Seek(h, offset, whence).0.cursor)
    ensures Seek(h, offset, whence).1 + PrefixSize(h.blobs, Seek(h, offset, whence).0.cursor.blob) ==
            Position(Seek(h, offset, whence).0)
    ensures Seek(h, offset, whence).0.cursor.blob > 0 && |h.blobs[0]| > 0 ==>
            Seek(h, offset, whence).1 < Position(Seek(h, offset, whence).0)
  {
  }
}
