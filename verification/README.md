# BlobsHandle: a seekable byte stream over separately allocated blobs

This project models `BlobsHandle` from the Shorebird fork of the Flutter
engine. It is a read-only, seekable "virtual file" that presents an ordered
list of blobs as one contiguous byte stream. A blob is a separately
allocated byte region. For example, the four regions of a pair of Dart
snapshots are handed to a consumer that only understands POSIX-style
`read`/`seek`. The handle keeps two coordinate systems:

- a cursor `(blob, offset)`, where `blob == N` (the number of blobs) is the past-the-end sentinel;
- an absolute offset into the concatenated stream.

Most of the behaviour is in translating between the two.

The model has four modules:

- `Blobs` (`blobs.dfy`): the blob store as `seq<seq<bv8>>`. It defines the stream `Concat`, its length `FullSize`, and the prefix sums `PrefixSize` with the facts about them.
- `BlobsIndexing` (`blobs_index.dfy`): the address translator. It defines `BlobsIndex`, `AbsoluteOffsetForIndex`, `IndexForAbsoluteOffset` (with its walk `IndexFrom`) and the clamped seek arithmetic `IndexFromAbsoluteOffset`.
- `BlobsHandle` (`blobs_handle.dfy`): the handle. A `Handle` is the blob list plus the cursor. This module holds the constructor `New`, the factory `CreateForSnapshots`, the `Read` loop and `Seek`.
- `Scenarios` (`scenarios.dfy`): worked examples over blobs of lengths 4, 6, 3 and 5.

The source's cursor is a mutable field. Here the cursor is passed explicitly: `Read` and `Seek` take a handle and return the new one. Their contracts state that the blob list comes back unchanged, so `FullSize` never depends on the cursor.

Behaviour kept exactly as the code has it:

- `Seek` returns the new cursor's offset *within its blob*, not the absolute stream position. `SeekResultIsIntraBlobOffset` states the relation between the two. `SeekIntoSecondBlob` shows a seek to 5 that reports 1.
- There are two end cursors. Seeking past the end gives `{N, size of last blob}`. `IndexForAbsoluteOffset` of an offset at or past the end gives `{N, 0}`.
- An offset exactly on a blob boundary resolves to offset 0 of the next non-empty blob. This holds across any run of empty blobs.
- `Read` can leave the cursor at "end of blob i" (`{i, size(i)}`). `AbsoluteOffsetForIndex` gives this position the same offset as `{i+1, 0}`.
- The class comment lists the snapshot blobs as VM data, VM instructions, isolate data, isolate instructions. The factory actually stores VM data, isolate data, VM instructions, isolate instructions. The model follows the factory.

One assumption departs from the code. The cursor has no initializer in the source (`blobs_handle.h:38`). This model assumes the constructor sets it to `{0, 0}`.

## Model

| member | source | states |
|---|---|---|
| Blobs.FullSize | shell/common/shorebird/blobs_handle.cc:19-25 | The size of the store is the length of the stream formed by laying the blobs end to end; it is a function of the blobs alone. |
| BlobsIndexing.AbsoluteOffsetForIndex | shell/common/shorebird/blobs_handle.cc:27-44 | Never exceeds FullSize; any blob index at or past N is the end of the stream; a well-formed position is the bytes of all earlier blobs plus its offset; a position whose offset runs past its blob is read as the start of the next blob. |
| BlobsIndexing.MalformedIsStartOfNextBlob | shell/common/shorebird/blobs_handle.cc:31-37 | A position with offset beyond its blob's size has the same absolute offset as `{blob+1, 0}`. |
| BlobsIndexing.EndOfBlobIsStartOfNext | shell/common/shorebird/blobs_handle.cc:38-43 | "End of blob i", the cursor Read can leave behind, has the same absolute offset as the start of blob i+1. |
| BlobsIndexing.AbsoluteOffsetMonotone | shell/common/shorebird/blobs_handle.cc:27-44 | Advancing a well-formed position (lexicographically) never decreases its absolute offset. |
| BlobsIndexing.AbsoluteOffsetAddressesByte | shell/common/shorebird/blobs_handle.cc:38-43 | For a position inside a blob, the stream byte at its absolute offset is exactly the blob byte the position names. |
| BlobsIndexing.IndexFrom | shell/common/shorebird/blobs_handle.cc:55-66 | The walk from blob i with r bytes left finds a position inside a blob, at or after i, exactly r bytes past the start of blob i when r is less than what the remaining blobs hold, and otherwise ends at `{N, 0}`. |
| BlobsIndexing.IndexForAbsoluteOffset | shell/common/shorebird/blobs_handle.cc:46-67 | For an offset inside the stream, yields a position inside a blob whose absolute offset is that offset; for an offset at or past FullSize, yields `{N, 0}`. |
| BlobsIndexing.IndexForAbsoluteOffsetInverse | shell/common/shorebird/blobs_handle.cc:55-66 | Round trip the other way: every position inside a blob is recovered from its own absolute offset. |
| BlobsIndexing.BoundaryResolvesToNextNonEmptyBlob | shell/common/shorebird/blobs_handle.cc:56-61 | The strict `<` rule: the start offset of blob k resolves to offset 0 of a non-empty blob at or after k, and every blob skipped on the way is empty. |
| BlobsIndexing.IndexFromAbsoluteOffset | shell/common/shorebird/blobs_handle.cc:69-84 | The result is well-formed and its absolute offset is start + delta clamped into [0, FullSize]; before the stream it is `{0, 0}`, inside it a position inside a blob, at or past the end the sentinel `{N, size of last blob}`. |
| BlobsIndexing.IndexFromDependsOnlyOnDestination | shell/common/shorebird/blobs_handle.cc:69-84 | Any two (start, delta) pairs that reach the same absolute destination give the same position. |
| BlobsHandle.New | shell/common/shorebird/blobs_handle.h:22-23 | The handle keeps the blob list as given, is valid, and starts at stream offset 0. |
| BlobsHandle.CreateForSnapshots | shell/common/shorebird/blobs_handle.cc:86-97 | Exactly four blobs, blob k being the k-th of VM data, isolate data, VM instructions, isolate instructions, so blob boundaries (and Seek's intra-blob result) fall between the regions; the stream is their concatenation in that order and its size the sum of the four. |
| BlobsHandle.Read | shell/common/shorebird/blobs_handle.cc:99-125 | Returns min(length, bytes left after the cursor); those bytes are written at the front of the buffer and equal the stream slice starting at the cursor, the rest of the buffer is unchanged; the cursor advances by exactly that count, only forward, and stays well-formed; a short count means the cursor is at the sentinel; from offset 0 reading FullSize bytes yields the whole concatenation. |
| BlobsHandle.Seek | shell/common/shorebird/blobs_handle.cc:127-144 | The new absolute position is base + delta clamped to the stream, where base is 0, the current position or FullSize for SET, CUR and END; the blobs are unchanged; below the start the cursor is `{0, 0}`, past the end it is `{N, size of last blob}`; the returned value is the cursor's intra-blob offset. |
| BlobsHandle.SeekDependsOnlyOnDestination | shell/common/shorebird/blobs_handle.cc:127-144 | Seeks reaching the same absolute destination give identical results, whatever the prior cursor and origin. |
| BlobsHandle.SeekSetThenCur | shell/common/shorebird/blobs_handle.cc:127-144 | Seek(x, SET) then Seek(y, CUR) equals Seek(x + y, SET) whenever 0 <= x <= FullSize. |
| BlobsHandle.SeekEndIsEndOfStream | shell/common/shorebird/blobs_handle.cc:136-137 | A non-negative seek from END leaves the cursor at the end sentinel, at absolute offset FullSize. |
| BlobsHandle.SeekResultIsIntraBlobOffset | shell/common/shorebird/blobs_handle.cc:142-143 | Seek's return value plus the size of all blobs before the cursor's blob is the absolute position, so past a non-empty first blob it is strictly less than the position. |
| Scenarios.SeekIntoSecondBlob | shell/common/shorebird/blobs_handle.cc:127-144 | With blobs of sizes 4, 6, 3, 5, seeking to 5 from the start gives cursor `{1, 1}` and returns 1; the next three stream bytes are bytes 1 to 3 of blob 1. |
| Scenarios.MalformedIndexRecovers | shell/common/shorebird/blobs_handle.cc:31-37 | `{1, 10}` with blob 1 of size 6 recovers to offset 10, the start of blob 2. |
| Scenarios.SeekPastEndClamps | shell/common/shorebird/blobs_handle.cc:77-81 | Seeking 100 from END over an 18-byte store gives `{4, 5}` at offset 18. |
| Scenarios.SeekBeforeStartClamps | shell/common/shorebird/blobs_handle.cc:71-75 | Seeking back from CUR further than the current position gives `{0, 0}`, never a negative or wrapped position. |
| Scenarios.SeekComposeNeedsInStreamIntermediate | shell/common/shorebird/blobs_handle.cc:77-81 | Seek composition fails when the first seek overshoots: 25 then -8 reaches 10, while 17 stays at 17. |
| Scenarios.SeekEndThenRead | shell/common/shorebird/blobs_handle.cc:99-107 | After Seek(0, END), any Read returns 0 bytes, leaves the caller's buffer unchanged and the cursor stays at FullSize. |

## Left out

- Logging: the `FML_LOG` diagnostics on malformed positions are not modelled.
- Snapshot size lookups: `DataBlob` and `InstrBlob` find region sizes through `Dart_SnapshotDataSize` and `Dart_SnapshotInstrSize`, which are foreign calls. The factory takes each snapshot as two byte sequences (`Snapshot`) instead.
- Memory: pointers, `memcpy` and the non-owning mappings are modelled as sequence slices written into an output sequence. The lifetime of the backing memory is not modelled.
- Floating point: `Read` takes the minimum with `fmin` on `double`. This model uses an integer minimum, which assumes blob sizes and read lengths below 2^53.
- Dead branch: the `offset < 0` test in `IndexForAbsoluteOffset` is on a `size_t`, so it is always false. The model takes a natural number and has no negative path.
- Machine integers: sizes, offsets and deltas are unbounded. Negating `INT64_MIN` and `size_t` wrap-around in `start_offset + offset` are not modelled.
- Empty blob list: `back()` on an empty list is undefined, so handles and seeks require at least one blob.
- Unknown `whence`: any value other than `SEEK_SET`, `SEEK_CUR` or `SEEK_END` is a fatal check in the source. Here it is a precondition of `Seek`.
- BlobsHandle.Read: requires a well-formed cursor (offset at most the size of its blob). With a larger offset the source computes a negative remaining length and passes it to `memcpy`, which is undefined behaviour. `Seek` and `Read` never produce such a cursor.
- BlobsHandle.SeekSetThenCur: requires 0 <= x <= FullSize, not only 0 <= x + y < FullSize. When x > FullSize, the first seek clamps at FullSize and the composition fails. `Scenarios.SeekComposeNeedsInStreamIntermediate` gives the counterexample.
- Uninitialised cursor: the source never initialises `current_index_`. `New` assumes `{0, 0}`.
- Mutability: the single mutable field is modelled by passing the handle in and out, not by a class.
- Rest of the repository: `shell/common/shorebird.cc` (updater calls, directories, platform checks) and the Impeller and Vulkan files are not part of this model.
