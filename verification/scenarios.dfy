/** Worked examples over a store of four blobs of lengths 4, 6, 3 and 5
    (18 bytes), whose bytes hold their own stream offsets. */
module Scenarios {
  import opened Blobs
  import opened BlobsIndexing
  import opened BlobsHandle

  function Example(): seq<Blob>
  {
    [[0, 1, 2, 3], [4, 5, 6, 7, 8, 9], [10, 11, 12], [13, 14, 15, 16, 17]]
  }

  lemma ExampleSizes()
    ensures FullSize(Example()) == 18
    ensures PrefixSize(Example(), 1) == 4
    ensures PrefixSize(Example(), 2) == 10
    ensures PrefixSize(Example(), 3) == 13
  {
  }

  /** Seeking to 5 from the start lands on byte 1 of blob 1; Seek reports
      1, not 5, and the three bytes that follow are bytes 1..4 of blob 1. */
  lemma SeekIntoSecondBlob()
    ensures var r := Seek(New(Example()), 5, SEEK_SET);
            r.0.cursor == BlobsIndex(1, 1) && r.1 == 1 && Position(r.0) == 5
    ensures Concat(Example())[5 .. 8] == Example()[1][1 .. 4]
  {
    var b := Example();
    ExampleSizes();
    var r := Seek(New(b), 5, SEEK_SET);
    InsideInjective(b, r.0.cursor, BlobsIndex(1, 1));
    ConcatAtBlob(b, 1, 1, 4);
  }

  /** An offset past the end of blob 1 reads as the start of blob 2. */
  lemma MalformedIndexRecovers()
    ensures AbsoluteOffsetForIndex(Example(), BlobsIndex(1, 10)) == 10
    ensures AbsoluteOffsetForIndex(Example(), BlobsIndex(2, 0)) == 10
  {
    ExampleSizes();
  }

  /** Seeking 100 past the end clamps to the end cursor `{4, 5}`. */
  lemma SeekPastEndClamps(h: Handle)
    requires Valid(h) && h.blobs == Example()
    ensures Seek(h, 100, SEEK_END).0.cursor == BlobsIndex(4, 5)
    ensures Position(Seek(h, 100, SEEK_END).0) == 18
  {
    ExampleSizes();
  }

  /** Seeking back further than the current position clamps to `{0, 0}`
      rather than producing a negative or wrapped position. */
  lemma SeekBeforeStartClamps(h: Handle, back: nat)
    requires Valid(h) && Position(h) < back
    ensures Seek(h, -(back as int), SEEK_CUR).0.cursor == BlobsIndex(0, 0)
  {
  }

  /** Composition fails when the first seek overshoots the stream: seeking
      to 25 clamps at 18, so stepping back 8 reaches 10, whereas a direct
      seek to 17 stays at 17. */
  lemma SeekComposeNeedsInStreamIntermediate(h: Handle)
    requires Valid(h) && h.blobs == Example()
    ensures Valid(Seek(h, 25, SEEK_SET).0)
    ensures Position(Seek(Seek(h, 25, SEEK_SET).0, -8, SEEK_CUR).0) == 10
    ensures Position(Seek(h, 17, SEEK_SET).0) == 17
    ensures Seek(Seek(h, 25, SEEK_SET).0, -8, SEEK_CUR) != Seek(h, 17, SEEK_SET)
  {
    ExampleSizes();
  }

  /** Seeking to the end and then reading any number of bytes reads none
      and leaves the caller's buffer as it was. */
  method SeekEndThenRead(h: Handle, buffer: seq<byte>, n: nat) returns (h': Handle, buffer': seq<byte>, count: nat)
    requires Valid(h) && |buffer| >= n
    ensures count == 0 && Position(h') == FullSize(h.blobs)
    ensures buffer' == buffer
  {
    SeekEndIsEndOfStream(h, 0);
    h', buffer', count := Read(Seek(h, 0, SEEK_END).0, buffer, n);
  }
}
