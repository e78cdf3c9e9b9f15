/**
 The corrected Merkle tree: one leaf per segment, consumed left to right, and an
 equality that compares the two trees' digests. The tree builder walks an index range
 [lo, hi) of the segment list instead of sharing a shrinking slice, and splits it at
 `lo + (hi - lo) / 2`, the same halving the byte-range builder uses.
 */
module MerkleFixed {
  import opened Wrappers
  import opened Segmenter
  import opened Merkle

  /** The digests of the segments, in order. */
  function Digests(hash: Bytes -> Bytes, segments: seq<Bytes>): (ds: seq<Bytes>)
    ensures |ds| == |segments|
    ensures forall k :: 0 <= k < |segments| ==> ds[k] == hash(segments[k])
  {
    seq(|segments|, k requires 0 <= k < |segments| => hash(segments[k]))
  }

  /**
   The hash is one-to-one: an idealisation of collision resistance. No hash with
   fixed-length digests, SHA-256 included, is one-to-one on all byte sequences; the
   identity is.
   */
  ghost predicate Injective(hash: Bytes -> Bytes) {
    forall x: Bytes, y: Bytes :: hash(x) == hash(y) ==> x == y
  }

  /** Segments lo, ..., hi - 1 as a tree: nil when there are none, a leaf for one segment, else two halves. */
  function BuildFixed(hash: Bytes -> Bytes, segments: seq<Bytes>, lo: nat, hi: nat): (r: Option<Tree>)
    requires lo <= hi <= |segments|
    ensures r.Some? <==> lo < hi
    decreases hi - lo
  {
    if lo == hi then None
    else if hi - lo == 1 then Some(Leaf(hash(segments[lo])))
    else
      var mid := lo + (hi - lo) / 2;
      var left := BuildFixed(hash, segments, lo, mid);
      var right := BuildFixed(hash, segments, mid, hi);
      Some(Node(left.value, right.value, hash(left.value.digest + right.value.digest)))
  }

  /** Leaf k hashes segment lo + k. */
  lemma {:induction false} BuildFixedLeaves(hash: Bytes -> Bytes, segments: seq<Bytes>, lo: nat, hi: nat)
    requires lo < hi <= |segments|
    ensures LeafDigests(BuildFixed(hash, segments, lo, hi).value) == Digests(hash, segments[lo..hi])
    decreases hi - lo
  {
    if hi - lo > 1 {
      var mid := lo + (hi - lo) / 2;
      var t := BuildFixed(hash, segments, lo, hi).value;
      BuildFixedLeaves(hash, segments, lo, mid);
      BuildFixedLeaves(hash, segments, mid, hi);
      assert LeafDigests(t) == Digests(hash, segments[lo..mid]) + Digests(hash, segments[mid..hi]);
      assert segments[lo..hi] == segments[lo..mid] + segments[mid..hi];
      DigestsAppend(hash, segments[lo..mid], segments[mid..hi]);
    } else {
      assert segments[lo..hi] == [segments[lo]];
    }
  }

  /** Every internal node of the corrected tree hashes its children's digests. */
  lemma {:induction false} BuildFixedHashConsistent(hash: Bytes -> Bytes, segments: seq<Bytes>, lo: nat, hi: nat)
    requires lo < hi <= |segments|
    ensures HashConsistent(hash, BuildFixed(hash, segments, lo, hi).value)
    decreases hi - lo
  {
    if hi - lo > 1 {
      var mid := lo + (hi - lo) / 2;
      BuildFixedHashConsistent(hash, segments, lo, mid);
      BuildFixedHashConsistent(hash, segments, mid, hi);
      var l, r := BuildFixed(hash, segments, lo, mid).value, BuildFixed(hash, segments, mid, hi).value;
      assert BuildFixed(hash, segments, lo, hi).value == Node(l, r, hash(l.digest + r.digest));
    }
  }

  lemma DigestsAppend(hash: Bytes -> Bytes, a: seq<Bytes>, b: seq<Bytes>)
    ensures Digests(hash, a + b) == Digests(hash, a) + Digests(hash, b)
  {
    var l, r := Digests(hash, a + b), Digests(hash, a) + Digests(hash, b);
    forall k | 0 <= k < |l| ensures l[k] == r[k] {
      if k < |a| {
        assert (a + b)[k] == a[k];
      } else {
        assert (a + b)[k] == b[k - |a|];
      }
    }
  }

  /** Under a one-to-one hash the digests of the segments give back the segments. */
  lemma DigestsInjective(hash: Bytes -> Bytes, a: seq<Bytes>, b: seq<Bytes>)
    requires Injective(hash) && Digests(hash, a) == Digests(hash, b)
    ensures a == b
  {
    forall k | 0 <= k < |a| ensures a[k] == b[k] {
      assert hash(a[k]) == Digests(hash, a)[k] == Digests(hash, b)[k] == hash(b[k]);
    }
  }

  /** The constructor, with one leaf per segment. */
  function NewFixed(data: Bytes, segmentSize: nat, hash: Bytes -> Bytes): (mt: MerkleTree)
    requires NoWrap(|data|, segmentSize)
    ensures mt.data == data && mt.segmentSize == segmentSize && mt.newHash == hash
    ensures mt.root.Some? <==> data != []
  {
    var segments := Chop(data, segmentSize);
    MerkleTree(BuildFixed(hash, segments, 0, |segments|), data, segmentSize, hash)
  }

  /**
   The leaves of the corrected tree are the digests of the segments, in order, so there
   are ceil(len(data) / segmentSize) of them.
   */
  lemma NewFixedLeaves(data: Bytes, segmentSize: nat, hash: Bytes -> Bytes)
    requires NoWrap(|data|, segmentSize) && data != []
    ensures var t := NewFixed(data, segmentSize, hash).root.value;
      && LeafDigests(t) == Digests(hash, Chop(data, segmentSize))
      && |LeafDigests(t)| == CeilDiv(|data|, segmentSize)
      && HashConsistent(hash, t)
  {
    var segments := Chop(data, segmentSize);
    BuildFixedLeaves(hash, segments, 0, |segments|);
    BuildFixedHashConsistent(hash, segments, 0, |segments|);
    assert segments[0..|segments|] == segments;
    ChopCount(data, segmentSize);
  }

  /** The 12 bytes in segments of 5 now give three leaves, one per segment. */
  lemma TwelveBytesThreeLeaves(data: Bytes, hash: Bytes -> Bytes)
    requires |data| == 12
    ensures |LeafDigests(NewFixed(data, 5, hash).root.value)| == |Chop(data, 5)| == 3
  {
    NewFixedLeaves(data, 5, hash);
    ChopCount(data, 5);
  }

  /** "abcdefgh" in segments of four bytes: the root digest is H(H("abcd") || H("efgh")). */
  lemma AbcdefghRootHashFixed(hash: Bytes -> Bytes)
    ensures var mt := NewFixed(Abcdefgh, 4, hash);
      var abcd, efgh := hash(Abcdefgh[..4]), hash(Abcdefgh[4..]);
      && mt.root == Some(Node(Leaf(abcd), Leaf(efgh), hash(abcd + efgh)))
      && GetRootHash(mt) == hash(abcd + efgh)
  {
    AbcdefghSegments();
  }

  /** subTreeEquals comparing the receiver's digest with the other node's: it holds exactly when the two trees are identical. */
  function SubTreeEqualsFixed(n: Option<Tree>, o: Option<Tree>): (r: bool)
    ensures r <==> n == o
    decreases OptionSize(n)
  {
    if n.None? && o.None? then true
    else if o.None? || n.None? then false
    else if n.value.digest != o.value.digest then false
    else SubTreeEqualsFixed(LeftChild(n.value), LeftChild(o.value)) && SubTreeEqualsFixed(RightChild(n.value), RightChild(o.value))
  }

  function EqualsFixed(mt: MerkleTree, other: MerkleTree): (eq: bool)
    ensures eq <==> mt.root == other.root
  {
    SubTreeEqualsFixed(mt.root, other.root)
  }

  /** Validate with the corrected builder and comparison. */
  function ValidateFixed(mt: MerkleTree): (valid: bool)
    requires NoWrap(|mt.data|, mt.segmentSize)
    ensures valid <==> mt.root == NewFixed(mt.data, mt.segmentSize, mt.newHash).root
  {
    EqualsFixed(mt, NewFixed(mt.data, mt.segmentSize, mt.newHash))
  }

  /**
   With a one-to-one hash, the corrected Validate of a built tree whose buffer was then
   overwritten holds exactly when the buffer is unchanged.
   */
  lemma ValidateFixedDetectsTamper(data: Bytes, overwritten: Bytes, segmentSize: nat, hash: Bytes -> Bytes)
    requires NoWrap(|data|, segmentSize) && NoWrap(|overwritten|, segmentSize) && Injective(hash)
    ensures ValidateFixed(NewFixed(data, segmentSize, hash).(data := overwritten)) <==> overwritten == data
  {
    var r1 := NewFixed(data, segmentSize, hash).root;
    var r2 := NewFixed(overwritten, segmentSize, hash).root;
    if r1 == r2 && data != [] {
      NewFixedLeaves(data, segmentSize, hash);
      NewFixedLeaves(overwritten, segmentSize, hash);
      DigestsInjective(hash, Chop(data, segmentSize), Chop(overwritten, segmentSize));
      ChopFlatten(data, segmentSize);
      ChopFlatten(overwritten, segmentSize);
    }
  }

  /** The tree over [1, 2] in one-byte segments under the identity hash: overwriting the second byte is now caught. */
  lemma ValidateFixedCatchesTamper()
    ensures var id := (b: Bytes) => b;
      var mt := NewFixed([1, 2], 1, id);
      && GetRootHash(mt) == [1, 2]
      && !ValidateFixed(mt.(data := [1, 3]))
  {
    var id := (b: Bytes) => b;
    assert Injective(id);
    OneByteSegments([1, 2], 1, 2);
    ValidateFixedDetectsTamper([1, 2], [1, 3], 1, id);
  }
}
