/** The blob store: an ordered list of byte regions that together form one
    logical byte stream. Sizes are mathematical naturals (the source uses
    `size_t`; see the README for the wrap-around that is not modelled). */
module Blobs {

  type byte = bv8

  /** One non-owning view over a contiguous byte region of known length. */
  type Blob = seq<byte>

  /** The logical stream: the blobs laid end to end in stored order. */
  function Concat(blobs: seq<Blob>): seq<byte>
  {
    if |blobs| == 0 then [] else blobs[0] + Concat(blobs[1..])
  }

  /** Total number of bytes in the store (the sum of the blob lengths).
      It depends on the blobs alone, never on a cursor. */
  function FullSize(blobs: seq<Blob>): (size: nat)
    ensures size == |Concat(blobs)|
  {
    if |blobs| == 0 then 0 else |blobs[0]| + FullSize(blobs[1..])
  }

  /** Number of bytes in the blobs strictly before blob `k`. */
  function PrefixSize(blobs: seq<Blob>, k: nat): nat
    requires k <= |blobs|
  {
    FullSize(blobs[..k])
  }

  /** Laying two lists of blobs end to end concatenates their streams. */
  lemma {:induction false} ConcatAppend(a: seq<Blob>, b: seq<Blob>)
    ensures Concat(a + b) == Concat(a) + Concat(b)
  {
    if |a| == 0 {
      assert a + b == b;
    } else {
      assert (a + b)[1..] == a[1..] + b;
      ConcatAppend(a[1..], b);
    }
  }

  /** Adding blob `k` to the prefix adds exactly its length. */
  lemma PrefixSizeStep(blobs: seq<Blob>, k: nat)
    requires k < |blobs|
    ensures PrefixSize(blobs, k + 1) == PrefixSize(blobs, k) + |blobs[k]|
  {
    assert blobs[..k + 1] == blobs[..k] + [blobs[k]];
    ConcatAppend(blobs[..k], [blobs[k]]);
    assert [blobs[k]][1..] == [];
  }

  /** The prefix over all blobs is the full size. */
  lemma PrefixSizeAll(blobs: seq<Blob>)
    ensures PrefixSize(blobs, |blobs|) == FullSize(blobs)
  {
    assert blobs[..|blobs|] == blobs;
  }

  /** Prefix sizes never decrease as the blob index grows. */
  lemma PrefixSizeMonotone(blobs: seq<Blob>, i: nat, j: nat)
    requires i <= j <= |blobs|
    ensures PrefixSize(blobs, i) <= PrefixSize(blobs, j)
  {
    assert blobs[..j] == blobs[..i] + blobs[i..j];
    ConcatAppend(blobs[..i], blobs[i..j]);
  }

  /** Blob `i` occupies the stream range [PrefixSize(i), PrefixSize(i+1)):
      byte `j` of the blob is byte `PrefixSize(i) + j` of the stream. */
  lemma {:induction false} ConcatAtBlob(blobs: seq<Blob>, i: nat, lo: nat, hi: nat)
    requires i < |blobs| && lo <= hi <= |blobs[i]|
    ensures PrefixSize(blobs, i) + hi <= |Concat(blobs)|
    ensures Concat(blobs)[PrefixSize(blobs, i) + lo .. PrefixSize(blobs, i) + hi] == blobs[i][lo..hi]
  {
    var before := blobs[..i];
    var after := blobs[i + 1..];
    assert blobs == before + ([blobs[i]] + after);
    ConcatAppend(before, [blobs[i]] + after);
    ConcatAppend([blobs[i]], after);
    assert [blobs[i]][1..] == [];
    assert Concat([blobs[i]]) == blobs[i];
    var p := |Concat(before)|;
    assert Concat(blobs) == Concat(before) + (blobs[i] + Concat(after));
    assert Concat(blobs)[p + lo .. p + hi] == blobs[i][lo..hi];
  }
}
