/**
 The byte-segmented Merkle tree of merkletree/merkletree.go, as the code is written:
 the tree's shape comes from halving the byte range [start, end), every leaf hashes
 the first segment (the reslice `segments = segments[1:]` is local to the call that
 makes it), and subtree equality compares a node's digest with itself.

 The hash is a parameter `hash: Bytes -> Bytes`, the finalized digest of a fresh
 hashing context fed the given bytes; each node stores its finalized digest.
 */
module Merkle {
  import opened Wrappers
  import opened Segmenter

  /** A node of the tree: a leaf has no children, an internal node has two. */
  datatype Tree =
    | Leaf(digest: Bytes)
    | Node(left: Tree, right: Tree, digest: Bytes)

  /** A tree with its digests erased. */
  datatype Shape = Tip | Fork(left: Shape, right: Shape)

  function ShapeOf(t: Tree): Shape {
    match t
    case Leaf(_) => Tip
    case Node(l, r, _) => Fork(ShapeOf(l), ShapeOf(r))
  }

  /** The shape of a tree that may be absent (a nil root). */
  function RootShape(n: Option<Tree>): Option<Shape> {
    match n
    case None => None
    case Some(t) => Some(ShapeOf(t))
  }

  function Size(t: Tree): nat {
    match t
    case Leaf(_) => 1
    case Node(l, r, _) => 1 + Size(l) + Size(r)
  }

  function OptionSize(n: Option<Tree>): nat {
    if n.None? then 0 else Size(n.value)
  }

  /** The digests of the leaves, read left to right. */
  function LeafDigests(t: Tree): (ds: seq<Bytes>)
    ensures |ds| >= 1
  {
    match t
    case Leaf(d) => [d]
    case Node(l, r, _) => LeafDigests(l) + LeafDigests(r)
  }

  /** Every internal node's digest is the hash of its children's digests, left then right. */
  ghost predicate HashConsistent(hash: Bytes -> Bytes, t: Tree) {
    match t
    case Leaf(_) => true
    case Node(l, r, d) =>
      && d == hash(l.digest + r.digest)
      && HashConsistent(hash, l)
      && HashConsistent(hash, r)
  }

  // ---------------------------------------------------------------------------
  // buildTree

  /**
   buildTree over the byte range [start, end): nil when there are no segments, a leaf
   once the range fits in one segment, otherwise the two halves around
   `start + (end - start) / 2`. Both recursive calls receive the caller's segment list,
   so every leaf hashes `segments[0]`.
   */
  function Build(hash: Bytes -> Bytes, segments: seq<Bytes>, start: nat, end: nat, segmentSize: nat): (r: Option<Tree>)
    requires start <= end && (segmentSize >= 1 || segments == [])
    ensures r.Some? <==> segments != []
    decreases end - start
  {
    if |segments| == 0 then None
    else if end - start <= segmentSize then Some(Leaf(hash(segments[0])))
    else
      var mid := start + (end - start) / 2;
      var left := Build(hash, segments, start, mid, segmentSize);
      var right := Build(hash, segments, mid, end, segmentSize);
      Some(Node(left.value, right.value, hash(left.value.digest + right.value.digest)))
  }

  /**
   The byte ranges of the leaves that buildTree makes over [start, end), left to right:
   the same halving, without the segments.
   */
  function LeafRanges(start: nat, end: nat, segmentSize: nat): seq<(nat, nat)>
    requires start <= end && segmentSize >= 1
    decreases end - start
  {
    if end - start <= segmentSize then [(start, end)]
    else
      var mid := start + (end - start) / 2;
      LeafRanges(start, mid, segmentSize) + LeafRanges(mid, end, segmentSize)
  }

  /**
   The leaf ranges tile [start, end): the first starts at `start`, the last ends at
   `end`, each ends where the next begins, none is longer than a segment, and none is
   empty when the whole range is not.
   */
  lemma {:induction false} LeafRangesTile(start: nat, end: nat, segmentSize: nat)
    requires start <= end && segmentSize >= 1
    ensures var r := LeafRanges(start, end, segmentSize);
      && |r| >= 1
      && r[0].0 == start
      && r[|r| - 1].1 == end
      && (forall k :: 0 <= k < |r| - 1 ==> r[k].1 == r[k + 1].0)
      && (forall k :: 0 <= k < |r| ==> r[k].0 <= r[k].1 <= r[k].0 + segmentSize)
      && (start < end ==> forall k :: 0 <= k < |r| ==> r[k].0 < r[k].1)
    decreases end - start
  {
    if end - start > segmentSize {
      var mid := start + (end - start) / 2;
      LeafRangesTile(start, mid, segmentSize);
      LeafRangesTile(mid, end, segmentSize);
      var a, b := LeafRanges(start, mid, segmentSize), LeafRanges(mid, end, segmentSize);
      AppendContiguous(a, b);
    }
  }

  /** Two contiguous runs of ranges, the first ending where the second begins, make one. */
  lemma AppendContiguous(a: seq<(nat, nat)>, b: seq<(nat, nat)>)
    requires |a| >= 1 && |b| >= 1 && a[|a| - 1].1 == b[0].0
    requires forall k :: 0 <= k < |a| - 1 ==> a[k].1 == a[k + 1].0
    requires forall k :: 0 <= k < |b| - 1 ==> b[k].1 == b[k + 1].0
    ensures var r := a + b; forall k :: 0 <= k < |r| - 1 ==> r[k].1 == r[k + 1].0
  {
    var r := a + b;
    forall k | 0 <= k < |r| - 1 ensures r[k].1 == r[k + 1].0 {
      if k < |a| - 1 {
        assert r[k] == a[k] && r[k + 1] == a[k + 1];
      } else if k == |a| - 1 {
        assert r[k] == a[|a| - 1] && r[k + 1] == b[0];
      } else {
        assert r[k] == b[k - |a|] && r[k + 1] == b[k - |a| + 1];
      }
    }
  }

  /** The leaf ranges cover [start, end) with at most `segmentSize` bytes each, so there are at least ceil((end - start) / segmentSize) of them. */
  lemma {:induction false} LeafRangesAtLeastSegments(start: nat, end: nat, segmentSize: nat)
    requires start <= end && segmentSize >= 1
    ensures |LeafRanges(start, end, segmentSize)| * segmentSize >= end - start
    ensures |LeafRanges(start, end, segmentSize)| >= CeilDiv(end - start, segmentSize)
    decreases end - start
  {
    var c := |LeafRanges(start, end, segmentSize)|;
    if end - start > segmentSize {
      var mid := start + (end - start) / 2;
      LeafRangesAtLeastSegments(start, mid, segmentSize);
      LeafRangesAtLeastSegments(mid, end, segmentSize);
      var a, b := |LeafRanges(start, mid, segmentSize)|, |LeafRanges(mid, end, segmentSize)|;
      assert c == a + b;
      MulAdd(a, b, segmentSize);
    }
    CeilDivAtMost(end - start, segmentSize, c);
  }

  /** ceil(n / d) <= c whenever n <= c * d. */
  lemma CeilDivAtMost(n: nat, d: nat, c: nat)
    requires d >= 1 && n <= c * d
    ensures CeilDiv(n, d) <= c
  {
    var q, r := (n + d - 1) / d, (n + d - 1) % d;
    assert n + d - 1 == q * d + r;
    if q > c {
      MulAtLeast(q - c, d);
    }
  }

  /**
   What buildTree makes for a non-empty segment list: one leaf per byte range of
   LeafRanges, each leaf's digest the hash of the FIRST segment whatever its position,
   and each internal node's digest the hash of its children's digests.
   */
  lemma {:induction false} BuildLeaves(hash: Bytes -> Bytes, segments: seq<Bytes>, start: nat, end: nat, segmentSize: nat)
    requires start <= end && segmentSize >= 1 && segments != []
    ensures var t := Build(hash, segments, start, end, segmentSize).value;
      && |LeafDigests(t)| == |LeafRanges(start, end, segmentSize)|
      && (forall d :: d in LeafDigests(t) ==> d == hash(segments[0]))
      && HashConsistent(hash, t)
    decreases end - start
  {
    if end - start > segmentSize {
      var mid := start + (end - start) / 2;
      BuildLeaves(hash, segments, start, mid, segmentSize);
      BuildLeaves(hash, segments, mid, end, segmentSize);
      var t, l, r := Build(hash, segments, start, end, segmentSize).value,
        Build(hash, segments, start, mid, segmentSize).value, Build(hash, segments, mid, end, segmentSize).value;
      assert t == Node(l, r, hash(l.digest + r.digest));
      assert LeafDigests(t) == LeafDigests(l) + LeafDigests(r);
    }
  }

  /**
   The shape buildTree gives the range [start, end): a tip once the range fits in one
   segment, else the shapes of the two halves.
   */
  function RangeShape(start: nat, end: nat, segmentSize: nat): Shape
    requires start <= end && segmentSize >= 1
    decreases end - start
  {
    if end - start <= segmentSize then Tip
    else
      var mid := start + (end - start) / 2;
      Fork(RangeShape(start, mid, segmentSize), RangeShape(mid, end, segmentSize))
  }

  /**
   The byte ranges of a shape's tips over [start, end), left to right, with each fork
   splitting its range at `start + (end - start) / 2` as buildTree does.
   */
  function TipRanges(s: Shape, start: nat, end: nat): seq<(nat, nat)>
    requires start <= end
  {
    match s
    case Tip => [(start, end)]
    case Fork(l, r) =>
      var mid := start + (end - start) / 2;
      TipRanges(l, start, mid) + TipRanges(r, mid, end)
  }

  /** Reading the ranges off the tips of RangeShape gives LeafRanges, range by range. */
  lemma {:induction false} RangeShapeTips(start: nat, end: nat, segmentSize: nat)
    requires start <= end && segmentSize >= 1
    ensures TipRanges(RangeShape(start, end, segmentSize), start, end) == LeafRanges(start, end, segmentSize)
    decreases end - start
  {
    if end - start > segmentSize {
      var mid := start + (end - start) / 2;
      RangeShapeTips(start, mid, segmentSize);
      RangeShapeTips(mid, end, segmentSize);
    }
  }

  /** buildTree over a non-empty segment list has the shape RangeShape, whatever the segments are. */
  lemma {:induction false} BuildRangeShape(hash: Bytes -> Bytes, segments: seq<Bytes>, start: nat, end: nat, segmentSize: nat)
    requires start <= end && segmentSize >= 1 && segments != []
    ensures ShapeOf(Build(hash, segments, start, end, segmentSize).value) == RangeShape(start, end, segmentSize)
    decreases end - start
  {
    if end - start > segmentSize {
      var mid := start + (end - start) / 2;
      BuildRangeShape(hash, segments, start, mid, segmentSize);
      BuildRangeShape(hash, segments, mid, end, segmentSize);
      var t := Build(hash, segments, start, end, segmentSize).value;
      assert t.left == Build(hash, segments, start, mid, segmentSize).value && t.right == Build(hash, segments, mid, end, segmentSize).value;
    }
  }

  /**
   The leaves of the built tree, read left to right, cover the byte ranges of LeafRanges
   in order: the k-th leaf's range is the k-th range.
   */
  lemma BuildLeafRanges(hash: Bytes -> Bytes, segments: seq<Bytes>, start: nat, end: nat, segmentSize: nat)
    requires start <= end && segmentSize >= 1 && segments != []
    ensures TipRanges(ShapeOf(Build(hash, segments, start, end, segmentSize).value), start, end)
            == LeafRanges(start, end, segmentSize)
  {
    BuildRangeShape(hash, segments, start, end, segmentSize);
    RangeShapeTips(start, end, segmentSize);
  }

  /** The shape of the tree depends on the byte range and the segment size only, not on the segments. */
  lemma BuildShape(hash: Bytes -> Bytes, s1: seq<Bytes>, s2: seq<Bytes>, start: nat, end: nat, segmentSize: nat)
    requires start <= end && segmentSize >= 1 && s1 != [] && s2 != []
    ensures ShapeOf(Build(hash, s1, start, end, segmentSize).value) == ShapeOf(Build(hash, s2, start, end, segmentSize).value)
  {
    BuildRangeShape(hash, s1, start, end, segmentSize);
    BuildRangeShape(hash, s2, start, end, segmentSize);
  }

  /** Two segment lists with the same first segment give the same tree: the later segments are never read. */
  lemma {:induction false} BuildReadsFirstSegmentOnly(hash: Bytes -> Bytes, s1: seq<Bytes>, s2: seq<Bytes>, start: nat, end: nat, segmentSize: nat)
    requires start <= end && segmentSize >= 1 && s1 != [] && s2 != [] && s1[0] == s2[0]
    ensures Build(hash, s1, start, end, segmentSize) == Build(hash, s2, start, end, segmentSize)
    decreases end - start
  {
    if end - start > segmentSize {
      var mid := start + (end - start) / 2;
      BuildReadsFirstSegmentOnly(hash, s1, s2, start, mid, segmentSize);
      BuildReadsFirstSegmentOnly(hash, s1, s2, mid, end, segmentSize);
      var l, r := Build(hash, s1, start, mid, segmentSize).value, Build(hash, s1, mid, end, segmentSize).value;
      assert Build(hash, s1, start, end, segmentSize) == Some(Node(l, r, hash(l.digest + r.digest)));
      assert Build(hash, s2, start, end, segmentSize) == Some(Node(l, r, hash(l.digest + r.digest)));
    }
  }

  // ---------------------------------------------------------------------------
  // MerkleTree

  /** The tree together with what it was built from; `newHash` is the hash it was built with. */
  datatype MerkleTree = MerkleTree(root: Option<Tree>, data: Bytes, segmentSize: nat, newHash: Bytes -> Bytes)

  /** NewMerkleTreeWithCostumHash: chop the buffer, then build over [0, len(data)). */
  function NewMerkleTreeWithCustomHash(data: Bytes, segmentSize: nat, hash: Bytes -> Bytes): (mt: MerkleTree)
    requires NoWrap(|data|, segmentSize)
    ensures mt.data == data && mt.segmentSize == segmentSize && mt.newHash == hash
    ensures mt.root.Some? <==> data != []
  {
    var segments := Chop(data, segmentSize);
    MerkleTree(Build(hash, segments, 0, |data|, segmentSize), data, segmentSize, hash)
  }

  /**
   The root's digest; the source dereferences the root, so it must be present. A
   single-leaf tree's root hash is its only leaf digest; in a hash-consistent tree an
   internal root's hash is the hash of its children's digests.
   */
  function GetRootHash(mt: MerkleTree): (r: Bytes)
    requires mt.root.Some?
    ensures mt.root.value.Leaf? ==> LeafDigests(mt.root.value) == [r]
    ensures mt.root.value.Node? && HashConsistent(mt.newHash, mt.root.value) ==>
      r == mt.newHash(mt.root.value.left.digest + mt.root.value.right.digest)
  {
    mt.root.value.digest
  }

  /**
   A tree built from a non-empty buffer has a root, and its digest is the hash of the
   buffer's first segment when the buffer fits in one segment, else the hash of the
   two children's digests.
   */
  lemma NewRootHash(data: Bytes, segmentSize: nat, hash: Bytes -> Bytes)
    requires NoWrap(|data|, segmentSize) && data != []
    ensures var mt := NewMerkleTreeWithCustomHash(data, segmentSize, hash);
      && mt.root.Some?
      && (|data| <= segmentSize ==> GetRootHash(mt) == hash(data))
      && (|data| > segmentSize ==>
            && mt.root.value.Node?
            && GetRootHash(mt) == hash(mt.root.value.left.digest + mt.root.value.right.digest))
  {
    if |data| <= segmentSize {
      assert Chop(data, segmentSize)[0] == data[..|data|] == data;
    }
  }

  /** The leaf count of a built tree is at least ceil(len(data) / segmentSize), the number of segments. */
  lemma NewLeafCount(data: Bytes, segmentSize: nat, hash: Bytes -> Bytes)
    requires NoWrap(|data|, segmentSize) && data != []
    ensures var t := NewMerkleTreeWithCustomHash(data, segmentSize, hash).root.value;
      && |LeafDigests(t)| == |LeafRanges(0, |data|, segmentSize)|
      && |LeafDigests(t)| >= CeilDiv(|data|, segmentSize) == |Chop(data, segmentSize)|
  {
    BuildLeaves(hash, Chop(data, segmentSize), 0, |data|, segmentSize);
    LeafRangesAtLeastSegments(0, |data|, segmentSize);
    ChopCount(data, segmentSize);
  }

  /**
   The example of 12 bytes in segments of 5: the byte ranges [0,3), [3,6), [6,9), [9,12)
   make four leaves, while there are only three segments.
   */
  lemma TwelveBytesFourLeaves(data: Bytes, hash: Bytes -> Bytes)
    requires |data| == 12
    ensures LeafRanges(0, 12, 5) == [(0, 3), (3, 6), (6, 9), (9, 12)]
    ensures |Chop(data, 5)| == 3
    ensures |LeafDigests(NewMerkleTreeWithCustomHash(data, 5, hash).root.value)| == 4
  {
    assert LeafRanges(0, 6, 5) == [(0, 3), (3, 6)];
    assert LeafRanges(6, 12, 5) == [(6, 9), (9, 12)];
    NewLeafCount(data, 5, hash);
  }

  /** The buffer "abcdefgh". */
  const Abcdefgh: Bytes := [0x61, 0x62, 0x63, 0x64, 0x65, 0x66, 0x67, 0x68]

  /** "abcdefgh" in segments of four bytes is "abcd", "efgh". */
  lemma AbcdefghSegments()
    ensures Chop(Abcdefgh, 4) == [Abcdefgh[..4], Abcdefgh[4..]]
  {
    ChopFrom(Abcdefgh, 0, 4);
    ChopFrom(Abcdefgh, 4, 4);
    assert Abcdefgh[0..] == Abcdefgh && Abcdefgh[0..4] == Abcdefgh[..4];
    assert Abcdefgh[4..8] == Abcdefgh[4..];
    assert Chop(Abcdefgh[8..], 4) == [];
  }

  /**
   "abcdefgh" in segments of four bytes: a root over two leaves, both of which hash
   "abcd", so the root digest is H(H("abcd") || H("abcd")).
   */
  lemma AbcdefghRootHash(hash: Bytes -> Bytes)
    ensures var mt := NewMerkleTreeWithCustomHash(Abcdefgh, 4, hash);
      var abcd := hash(Abcdefgh[..4]);
      && mt.root == Some(Node(Leaf(abcd), Leaf(abcd), hash(abcd + abcd)))
      && GetRootHash(mt) == hash(abcd + abcd)
  {
    AbcdefghSegments();
    var segments := Chop(Abcdefgh, 4);
    assert Build(hash, segments, 0, 4, 4) == Some(Leaf(hash(Abcdefgh[..4])));
    assert Build(hash, segments, 4, 8, 4) == Some(Leaf(hash(Abcdefgh[..4])));
  }

  /** Nine bytes in segments of four: [0,9) splits at 4, and [4,9) again at 6. */
  lemma NineBytesLeafRanges()
    ensures LeafRanges(0, 9, 4) == [(0, 4), (4, 6), (6, 9)]
  {
    assert LeafRanges(4, 9, 4) == [(4, 6), (6, 9)];
  }

  // ---------------------------------------------------------------------------
  // Equals / subTreeEquals

  /** The left child, nil for a leaf. */
  function LeftChild(t: Tree): (c: Option<Tree>)
    ensures OptionSize(c) < Size(t)
  {
    if t.Node? then Some(t.left) else None
  }

  /** The right child, nil for a leaf. */
  function RightChild(t: Tree): (c: Option<Tree>)
    ensures OptionSize(c) < Size(t)
  {
    if t.Node? then Some(t.right) else None
  }

  /**
   subTreeEquals: nil equals only nil; for two nodes the digest test compares the
   receiver's digest with itself, then both pairs of children are compared.
   */
  function SubTreeEquals(n: Option<Tree>, o: Option<Tree>): (r: bool)
    ensures r <==> RootShape(n) == RootShape(o)
    decreases OptionSize(n)
  {
    if n.None? && o.None? then true
    else if o.None? || n.None? then false
    else if n.value.digest != n.value.digest then false
    else
      var a, b := n.value, o.value;
      var same := SubTreeEquals(LeftChild(a), LeftChild(b)) && SubTreeEquals(RightChild(a), RightChild(b));
      assert a.Node? ==> RootShape(LeftChild(a)) == Some(ShapeOf(a.left));
      assert b.Node? ==> RootShape(LeftChild(b)) == Some(ShapeOf(b.left));
      same
  }

  lemma SubTreeEqualsReflexive(n: Option<Tree>)
    ensures SubTreeEquals(n, n)
  {
  }

  lemma SubTreeEqualsSymmetric(n: Option<Tree>, o: Option<Tree>)
    ensures SubTreeEquals(n, o) == SubTreeEquals(o, n)
  {
  }

  /** Equals: the roots compared by subTreeEquals, which makes it a comparison of shapes. */
  function Equals(mt: MerkleTree, other: MerkleTree): (eq: bool)
    ensures eq <==> RootShape(mt.root) == RootShape(other.root)
  {
    SubTreeEquals(mt.root, other.root)
  }

  /** Two single-leaf trees with different digests compare equal. */
  lemma EqualsIgnoresDigests()
    ensures var a := MerkleTree(Some(Leaf([1])), [1], 1, (b: Bytes) => b);
      var b := MerkleTree(Some(Leaf([2])), [2], 1, (b: Bytes) => b);
      GetRootHash(a) != GetRootHash(b) && Equals(a, b)
  {
  }

  // ---------------------------------------------------------------------------
  // Validate

  /**
   Validate: rebuild from the tree's buffer, segment size and hash, and compare with
   Equals. The constructor never fails, so the source's error branch is not reachable.
   */
  function Validate(mt: MerkleTree): (valid: bool)
    requires NoWrap(|mt.data|, mt.segmentSize)
    ensures valid <==> RootShape(mt.root)
                       == RootShape(NewMerkleTreeWithCustomHash(mt.data, mt.segmentSize, mt.newHash).root)
  {
    var nmt := NewMerkleTreeWithCustomHash(mt.data, mt.segmentSize, mt.newHash);
    Equals(mt, nmt)
  }

  /**
   Validate is true for every built tree, also after its buffer was overwritten in place
   (a buffer of the same length): the rebuilt tree always has the same shape.
   */
  lemma ValidateAlwaysTrue(data: Bytes, overwritten: Bytes, segmentSize: nat, hash: Bytes -> Bytes)
    requires NoWrap(|data|, segmentSize) && |overwritten| == |data|
    ensures Validate(NewMerkleTreeWithCustomHash(data, segmentSize, hash).(data := overwritten))
  {
    if data != [] {
      BuildShape(hash, Chop(data, segmentSize), Chop(overwritten, segmentSize), 0, |data|, segmentSize);
    }
  }

  /**
   An empty buffer with segment size zero: chopData cuts nothing, buildTree returns nil
   at once, and Validate holds.
   */
  lemma EmptyBufferZeroSize(hash: Bytes -> Bytes)
    ensures NoWrap(0, 0)
    ensures var mt := NewMerkleTreeWithCustomHash([], 0, hash);
      mt.root == None && Validate(mt)
  {
  }

  /** The one-byte segments of a two-byte buffer. */
  lemma OneByteSegments(d: Bytes, x: Byte, y: Byte)
    requires d == [x, y]
    ensures Chop(d, 1) == [[x], [y]]
  {
    var tail: Bytes := [y];
    assert Chop(d, 1) == [d[..1]] + Chop(d[1..], 1);
    assert d[1..] == tail && d[..1] == [x];
    assert Chop(tail, 1) == [tail[..1]] + Chop(tail[1..], 1);
    assert tail[..1] == tail;
    assert Chop(tail[1..], 1) == [];
  }

  /**
   A tree over [1, 2] in segments of one byte, with the identity as hash: overwriting the
   second byte goes unnoticed, and the rebuilt root is even the same.
   */
  lemma ValidateMissesTamper()
    ensures var id := (b: Bytes) => b;
      var mt := NewMerkleTreeWithCustomHash([1, 2], 1, id);
      && GetRootHash(mt) == [1, 1]
      && GetRootHash(NewMerkleTreeWithCustomHash([1, 3], 1, id)) == GetRootHash(mt)
      && Validate(mt.(data := [1, 3]))
  {
    var id := (b: Bytes) => b;
    OneByteSegments([1, 2], 1, 2);
    OneByteSegments([1, 3], 1, 3);
    ValidateAlwaysTrue([1, 2], [1, 3], 1, id);
  }
}
