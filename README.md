# Merkle tree over a byte buffer, modelled in Dafny

This project models the Merkle tree of `merkletree/merkletree.go`. The code has two parts.

- **Segmenter** (`chopData`): cuts a byte buffer into consecutive segments of `segmentSize` bytes. The last segment may be shorter, and nothing is padded.
- **Tree builder** (`buildTree`): builds a binary tree over the byte range `[0, len(data))`.
  - A range of at most `segmentSize` bytes becomes a leaf.
  - A longer range is split at `start + (end - start) / 2`.
  - A leaf's digest is the hash of a segment.
  - An internal node's digest is the hash of its two children's digests, concatenated.

On top of these sit the constructor, `GetRootHash`, `Equals`/`subTreeEquals` and `Validate`. `Validate` rebuilds the tree from the stored buffer and compares the result with the tree it has.

The model keeps two behaviours of the code as written:

- `segments = segments[1:]` only rebinds the callee's local slice, so every leaf hashes the **first** segment.
- `subTreeEquals` compares a node's digest with **itself**, so `Equals` only compares the shapes of the two trees.

Module `MerkleFixed` holds the corrected behaviour: one leaf per segment, and an equality that compares digests. The findings below relate the two.

Files:
- `wrappers.dfy`: `Option`, standing in for a pointer that may be nil.
- `segmenter.dfy`:
  - `Min`;
  - `Chop`, a pure function that specifies the segments;
  - `ChopData`, the counted loop of the source, proved equal to `Chop`;
  - the no-loss and segment-count lemmas.
- `merkle.dfy`:
  - the `Tree` datatype;
  - `Build` (`buildTree` as written), with the byte ranges of its leaves;
  - the `MerkleTree` record and its constructor;
  - `GetRootHash`, `SubTreeEquals`/`Equals` and `Validate`, with their lemmas.
- `merkle_fixed.dfy`: the corrected builder, equality and validation.

The hash is a parameter `hash: Bytes -> Bytes`. It gives the finalized digest of a fresh hashing context that was fed the given bytes, and each node stores its finalized digest. Go's `uint32` arithmetic is modelled with `nat` under the predicate `NoWrap(len, segmentSize)`. It holds when three things are true:

- both values fit in 32 bits;
- an empty buffer may have any segment size, zero included;
- a non-empty buffer has `segmentSize >= 1`, and the last cut `((len - 1) / segmentSize) * segmentSize` plus `segmentSize` stays below 2^32.

These are exactly the inputs on which `chopData` terminates with no truncating cast and no wrapping addition.

The comment at `merkletree/merkletree.go:33-35` promises one leaf per segment: every segment has `segmentSize` bytes, and the last may be shorter. The code does not build that tree. Every leaf hashes the first segment, and the number of leaves comes from halving the byte range. The model follows the code, and the findings record the difference.

## Model

| member | source | states |
|---|---|---|
| `Segmenter.NoWrapBoundary` | merkletree/merkletree.go:57-58 | the cases above: where the cast truncates, where `i += segmentSize` wraps, and where a zero size never advances |
| `Segmenter.Min` | merkletree/merkletree.go:26-31 | the result is one of the two arguments and no larger than either |
| `Segmenter.Chop` | merkletree/merkletree.go:33-35 | the segment list is empty exactly when the buffer is; every segment has 1 to `segmentSize` bytes; every segment but the last has exactly `segmentSize` bytes |
| `Segmenter.ChopData` | merkletree/merkletree.go:55-65 | the loop that steps `i` by `segmentSize` and appends `data[i : i + min(len - i, segmentSize)]` returns exactly `Chop(data, segmentSize)`; the uint32 addition `i += segmentSize` never wraps under `NoWrap`, because every cut is at or before the last cut |
| `Segmenter.ChopFrom` | merkletree/merkletree.go:59-62 | the segments from offset `i` on are the segment cut at `i` followed by the segments after it |
| `Segmenter.ChopFlatten` | merkletree/merkletree.go:55-65 | the segments, concatenated in order, give back `data` exactly: nothing padded, no tail dropped |
| `Segmenter.ChopCount` | merkletree/merkletree.go:55-65 | the number of segments is `ceil(len(data) / segmentSize)`, zero for an empty buffer |
| `Merkle.Build` | merkletree/merkletree.go:68-98 | `buildTree` returns nil exactly when the segment list is empty, so both children of an internal node are non-nil and the `Sum` calls on line 94 never meet nil |
| `Merkle.LeafRangesTile` | merkletree/merkletree.go:75-90 | the ranges of `LeafRanges`, which `BuildLeafRanges` ties to the leaves, start at `start`, end at `end` and are contiguous; each holds at most `segmentSize` bytes, and none is empty when `[start, end)` is not |
| `Merkle.LeafRangesAtLeastSegments` | merkletree/merkletree.go:75-90 | there are at least `ceil((end - start) / segmentSize)` leaf ranges |
| `Merkle.BuildLeaves` | merkletree/merkletree.go:74-95 | for a non-empty segment list there is one leaf per byte range; every leaf's digest is `H(segments[0])` whatever its position; every internal node's digest is `H(left ++ right)` |
| `Merkle.RangeShapeTips` | merkletree/merkletree.go:75-90 | reading the byte ranges off the tips of `RangeShape` (the shape the halving gives `[start, end)`), splitting each fork at `start + (end - start) / 2`, gives `LeafRanges` range by range |
| `Merkle.BuildLeafRanges` | merkletree/merkletree.go:74-92 | for a non-empty segment list, the tips of the built tree, read left to right, cover exactly the ranges of `LeafRanges` in order: the k-th leaf covers the k-th byte range |
| `Merkle.BuildRangeShape` | merkletree/merkletree.go:74-92 | for a non-empty segment list, the built tree has exactly the shape `RangeShape(start, end, segmentSize)`, whatever the segments are |
| `Merkle.BuildShape` | merkletree/merkletree.go:86-92 | the tree's shape depends only on the byte range and the segment size, not on the segments |
| `Merkle.BuildReadsFirstSegmentOnly` | merkletree/merkletree.go:81-90 | two segment lists with the same first segment build the same tree |
| `Merkle.NewMerkleTreeWithCustomHash` | merkletree/merkletree.go:41-52 | the tree keeps the buffer, the segment size and the hash it was given; it has a root exactly when the buffer is non-empty |
| `Merkle.GetRootHash` | merkletree/merkletree.go:101-103 | the root hash of a single-leaf tree is its only leaf digest; in a hash-consistent tree, an internal root's hash is the hash of its two children's digests |
| `Merkle.NewRootHash` | merkletree/merkletree.go:100-103 | for a non-empty buffer the root is present; its digest is `H(data)` when the buffer fits in one segment, and otherwise the hash of the root's two children's digests |
| `Merkle.NewLeafCount` | merkletree/merkletree.go:49-50 | a built tree has one leaf per byte range, and that is at least `ceil(len(data) / segmentSize)`, the number of segments |
| `Merkle.TwelveBytesFourLeaves` | merkletree/merkletree.go:87-90 | 12 bytes in segments of 5 give the ranges [0,3), [3,6), [6,9) and [9,12): four leaves, but only three segments |
| `Merkle.AbcdefghSegments` | merkletree/merkletree.go:55-65 | "abcdefgh" in segments of 4 is "abcd", "efgh" |
| `Merkle.AbcdefghRootHash` | merkletree/merkletree.go:74-97 | "abcdefgh" in segments of 4 is a root over two leaves, both `H("abcd")`, so the root digest is `H(H("abcd") ++ H("abcd"))` |
| `Merkle.NineBytesLeafRanges` | merkletree/merkletree.go:87-90 | 9 bytes in segments of 4 split at 4 and then at 6: leaves [0,4), [4,6), [6,9) |
| `Merkle.SubTreeEquals` | merkletree/merkletree.go:125-137 | `subTreeEquals` is true for nil/nil and false for nil/non-nil; for two trees it is true exactly when they have the same shape, whatever their digests |
| `Merkle.SubTreeEqualsReflexive` | merkletree/merkletree.go:125-137 | every tree equals itself |
| `Merkle.SubTreeEqualsSymmetric` | merkletree/merkletree.go:125-137 | the comparison gives the same answer either way round |
| `Merkle.Equals` | merkletree/merkletree.go:121-123 | `Equals` holds exactly when the two roots have the same shape |
| `Merkle.EqualsIgnoresDigests` | merkletree/merkletree.go:132 | two single-leaf trees with different root digests compare equal |
| `Merkle.Validate` | merkletree/merkletree.go:106-112 | `Validate` holds exactly when the tree has the shape of a tree rebuilt from its buffer, segment size and hash |
| `Merkle.ValidateAlwaysTrue` | merkletree/merkletree.go:106-112 | `Validate` holds for every built tree, and still holds after its buffer is overwritten in place |
| `Merkle.EmptyBufferZeroSize` | merkletree/merkletree.go:55-72 | an empty buffer with segment size 0: no segments, a nil root, and `Validate` holds |
| `Merkle.OneByteSegments` | merkletree/merkletree.go:55-65 | a two-byte buffer in one-byte segments gives the two one-byte segments |
| `Merkle.ValidateMissesTamper` | merkletree/merkletree.go:81-82 | under the identity hash, the tree over [1, 2] in one-byte segments has root digest [1, 1]; the buffer [1, 3] gives the same root, and `Validate` still holds after the overwrite |
| `MerkleFixed.BuildFixed` | merkletree/merkletree.go:68-98 | corrected builder over the segment indices [lo, hi): nil exactly when the range is empty |
| `MerkleFixed.BuildFixedLeaves` | merkletree/merkletree.go:74-83 | corrected: the leaves, left to right, are the digests of segments lo to hi - 1, in order |
| `MerkleFixed.BuildFixedHashConsistent` | merkletree/merkletree.go:94-95 | corrected: every internal node's digest is `H(left ++ right)` |
| `MerkleFixed.DigestsInjective` | merkletree/merkletree.go:81 | under a one-to-one hash, equal digest lists mean equal segment lists |
| `MerkleFixed.NewFixed` | merkletree/merkletree.go:41-52 | corrected constructor: keeps the buffer, segment size and hash; it has a root exactly when the buffer is non-empty |
| `MerkleFixed.NewFixedLeaves` | merkletree/merkletree.go:33-35 | corrected: the leaves are the segments' digests in order, `ceil(len(data) / segmentSize)` of them, and every internal node hashes its children |
| `MerkleFixed.TwelveBytesThreeLeaves` | merkletree/merkletree.go:87-90 | corrected: 12 bytes in segments of 5 give three leaves, one per segment |
| `MerkleFixed.AbcdefghRootHashFixed` | merkletree/merkletree.go:74-97 | corrected: "abcdefgh" in segments of 4 has root digest `H(H("abcd") ++ H("efgh"))` |
| `MerkleFixed.SubTreeEqualsFixed` | merkletree/merkletree.go:125-137 | corrected comparison (the two nodes' digests): true exactly when the two trees are identical |
| `MerkleFixed.EqualsFixed` | merkletree/merkletree.go:121-123 | corrected: `Equals` holds exactly when the two roots are identical |
| `MerkleFixed.ValidateFixed` | merkletree/merkletree.go:106-112 | corrected: `Validate` holds exactly when the root is the one rebuilt from the buffer |
| `MerkleFixed.ValidateFixedDetectsTamper` | merkletree/merkletree.go:106-112 | corrected, under a one-to-one hash: after the buffer is overwritten, `Validate` holds exactly when the new buffer equals the old one |
| `MerkleFixed.ValidateFixedCatchesTamper` | merkletree/merkletree.go:106-112 | corrected, under the identity hash: the tree over [1, 2] has root digest [1, 2], and overwriting the buffer with [1, 3] makes `Validate` false |

## Left out

- `NewMerkleTree` (lines 36-38) only passes `sha256.New` to the constructor. SHA-256 itself is not modelled; the hash is a parameter of `NewMerkleTreeWithCustomHash`.
- The stateful `hash.Hash` API (`Write`, `Sum`) is foreign library code. A node stores the finalized digest, and the hash is a function from bytes to bytes.
- `String` and `subTreeToString` (lines 114-118 and 139-146) are diagnostic formatting with no contract.
- The `error` results are left out. The constructor always returns nil, so the error branch of `Validate` (lines 108-110) cannot run. `Validate` is modelled as a boolean.
- Segmenter.ChopData: requires `NoWrap(len(data), segmentSize)`, which the source does not check. Outside it, the loop at line 58 either never ends or runs on wrong offsets. A zero size with a non-empty buffer never advances `i`. A length of 2^32 or more is truncated by the cast at line 57. A last step `i += segmentSize` that reaches 2^32 wraps `i` below the buffer's length. Those executions are not modelled.
- Merkle.NewMerkleTreeWithCustomHash: requires `NoWrap`, because it calls `chopData`. Outside `NoWrap`, the hang or wrap-around happens in `chopData`, before `buildTree` runs.
- Merkle.Validate: requires `NoWrap` on the tree's buffer and segment size, because it calls the constructor.
- Merkle.GetRootHash: requires a root. On a tree over an empty buffer the source dereferences nil and panics.
- Building twice from the same buffer, segment size and hash gives the same tree. There is no separate lemma for this: every operation is a Dafny function, so it is deterministic by construction.
- Termination of `buildTree` for `segmentSize >= 1` has no lemma either. Dafny checks the `decreases end - start` of `Build`: an internal range is longer than `segmentSize >= 1`, so `start < mid < end`.
- Overwriting the buffer in place, through a caller that still holds the slice `data`, is modelled as the value `mt.(data := overwritten)`. Aliasing itself is not modelled.

## Findings

| source | as written | input that shows it | evidently intended | confidence | as-written member | corrected member |
|---|---|---|---|---|---|---|
| merkletree/merkletree.go:81-90 | `segments = segments[1:]` rebinds a local slice, and both recursive calls receive the caller's list, so every leaf hashes the first segment and later bytes never reach the root | buffer [1, 2] in one-byte segments under the identity hash: root digest [1, 1]; overwriting the buffer with [1, 3] leaves the root unchanged and `Validate` true | each leaf hashes its own segment, in order, so the root commits to the whole buffer | not executed | `Merkle.ValidateMissesTamper` | `MerkleFixed.ValidateFixedDetectsTamper` |
| merkletree/merkletree.go:87-90 | the shape comes from halving the byte range, so the leaf count can exceed the number of segments | 12 bytes in segments of 5: four leaves over [0,3), [3,6), [6,9) and [9,12), but three segments | one leaf per segment (the comment at lines 33-35): `ceil(len(data) / segmentSize)` leaves | not executed | `Merkle.TwelveBytesFourLeaves` | `MerkleFixed.NewFixedLeaves` |
| merkletree/merkletree.go:132 | compares `n`'s digest with `n`'s own digest, so `Equals` compares shapes only | single-leaf trees with digests [1] and [2] compare equal | compare `n`'s digest with `o`'s | not executed | `Merkle.EqualsIgnoresDigests` | `MerkleFixed.SubTreeEqualsFixed` |
