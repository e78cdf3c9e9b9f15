/**
 The segmenter of merkletree/merkletree.go: it cuts a byte buffer into consecutive
 segments of `segmentSize` bytes, the last one possibly shorter, with no padding.
 */
module Segmenter {

  type Byte = bv8
  type Bytes = seq<Byte>

  /** 2^32: the source keeps buffer lengths, offsets and the segment size in uint32. */
  const Word: nat := 0x1_0000_0000

  /** The offset at which chopData cuts the last segment of a non-empty buffer: the largest multiple of `segmentSize` below `dataLen`. */
  function LastCut(dataLen: nat, segmentSize: nat): nat
    requires dataLen >= 1 && segmentSize >= 1
  {
    (dataLen - 1) / segmentSize * segmentSize
  }

  /**
   The inputs on which chopData's uint32 arithmetic is exact: the segment size is a
   uint32, the cast of the buffer length does not truncate, and when there is anything
   to cut the size is non-zero (otherwise `i` never advances) and the last step
   `i += segmentSize` stays below 2^32. An empty buffer is cut into no segments
   whatever the size, zero included.
   */
  predicate NoWrap(dataLen: nat, segmentSize: nat) {
    && segmentSize < Word
    && dataLen < Word
    && (dataLen >= 1 ==> segmentSize >= 1 && LastCut(dataLen, segmentSize) + segmentSize < Word)
  }

  /**
   Where chopData's arithmetic stops being exact: a zero size is fine for an empty buffer
   and never advances otherwise; a size just below 2^32 is fine for a short buffer; and a
   buffer of 2^32 - 1 bytes in segments of 2^31 makes the last `i += segmentSize` reach
   2^32, which wraps `i` back to 0.
   */
  lemma NoWrapBoundary()
    ensures NoWrap(0, 0) && !NoWrap(1, 0)
    ensures NoWrap(10, Word - 1)
    ensures NoWrap(Word - 1, 1) && !NoWrap(Word, 1)
    ensures !NoWrap(Word - 1, Word / 2)
  {
    assert LastCut(Word - 1, Word / 2) == Word / 2;
  }

  /** The smaller of two sizes. */
  function Min(a: nat, b: nat): (r: nat)
    ensures r <= a && r <= b
    ensures r == a || r == b
  {
    if a < b then a else b
  }

  /** ceil(n / d) */
  function CeilDiv(n: nat, d: nat): nat
    requires d >= 1
  {
    (n + d - 1) / d
  }

  /** The segments laid end to end. */
  function Flatten(segments: seq<Bytes>): Bytes {
    if segments == [] then [] else segments[0] + Flatten(segments[1..])
  }

  /**
   The segments the source cuts `data` into, from the front: a full segment while
   more than `segmentSize` bytes remain, then the remaining bytes.
   */
  function Chop(data: Bytes, segmentSize: nat): (segments: seq<Bytes>)
    requires segmentSize >= 1 || data == []
    ensures segments == [] <==> data == []
    ensures forall k :: 0 <= k < |segments| ==> 1 <= |segments[k]| <= segmentSize
    ensures forall k :: 0 <= k < |segments| - 1 ==> |segments[k]| == segmentSize
    decreases |data|
  {
    if |data| == 0 then []
    else
      var n := Min(|data|, segmentSize);
      [data[..n]] + Chop(data[n..], segmentSize)
  }

  /** chopData: the counted loop that appends one segment per step of `segmentSize`. */
  method ChopData(data: Bytes, segmentSize: nat) returns (segments: seq<Bytes>)
    requires NoWrap(|data|, segmentSize)
    ensures segments == Chop(data, segmentSize)
  {
    segments := [];
    var dataLen := |data|;
    var i := 0;
    ghost var k := 0;
    assert data[i..] == data;
    while i < dataLen
      invariant i == k * segmentSize
      invariant i <= dataLen ==> segments + Chop(data[i..], segmentSize) == Chop(data, segmentSize)
      invariant dataLen < i ==> segments == Chop(data, segmentSize)
      decreases dataLen - i
    {
      var currSegmentSize := Min(dataLen - i, segmentSize);
      var segment := data[i..i + currSegmentSize];
      ChopStep(data, segmentSize, segments, i, segment);
      segments := segments + [segment];
      // the uint32 addition of the source does not wrap here
      CutAtMostLast(k, segmentSize, dataLen);
      assert i + segmentSize < Word;
      i, k := i + segmentSize, k + 1;
      assert i == k * segmentSize by {
        MulAdd(k - 1, 1, segmentSize);
      }
    }
    if i == dataLen {
      ChopEmptyTail(data, i, segmentSize);
      AppendEmpty(segments);
    }
  }

  /** A cut made inside a non-empty buffer is at or before the last cut. */
  lemma CutAtMostLast(k: nat, segmentSize: nat, dataLen: nat)
    requires segmentSize >= 1 && k * segmentSize < dataLen
    ensures k * segmentSize <= LastCut(dataLen, segmentSize)
  {
    var q, r := (dataLen - 1) / segmentSize, (dataLen - 1) % segmentSize;
    assert dataLen - 1 == q * segmentSize + r;
    if k > q {
      MulAtLeast(k - q, segmentSize);
      MulAdd(k - q, q, segmentSize);
    }
  }

  lemma MulAdd(a: nat, b: nat, d: nat)
    ensures (a + b) * d == a * d + b * d
  {
  }

  /** The segments of `data` from offset `i` on: the one at `i`, then those after it. */
  lemma ChopFrom(data: Bytes, i: nat, segmentSize: nat)
    requires i < |data| && segmentSize >= 1
    ensures var n := Min(|data| - i, segmentSize);
      Chop(data[i..], segmentSize) == [data[i..i + n]] + Chop(data[i + n..], segmentSize)
  {
    var n := Min(|data| - i, segmentSize);
    assert data[i..][..n] == data[i..i + n];
    assert data[i..][n..] == data[i + n..];
  }

  /** One step of chopData: the segment cut at `i` is appended, and the cut point moves on by `segmentSize`. */
  lemma ChopStep(data: Bytes, segmentSize: nat, segments: seq<Bytes>, i: nat, segment: Bytes)
    requires i < |data| && segmentSize >= 1
    requires segment == data[i..i + Min(|data| - i, segmentSize)]
    requires segments + Chop(data[i..], segmentSize) == Chop(data, segmentSize)
    ensures i + segmentSize <= |data| ==>
      (segments + [segment]) + Chop(data[i + segmentSize..], segmentSize) == Chop(data, segmentSize)
    ensures |data| < i + segmentSize ==> segments + [segment] == Chop(data, segmentSize)
  {
    var n := Min(|data| - i, segmentSize);
    var rest := Chop(data[i + n..], segmentSize);
    ChopFrom(data, i, segmentSize);
    AppendAssoc(segments, [segment], rest);
    if |data| < i + segmentSize {
      ChopEmptyTail(data, i + n, segmentSize);
      AppendEmpty(segments + [segment]);
    }
  }

  lemma ChopEmptyTail(data: Bytes, j: nat, segmentSize: nat)
    requires j == |data|
    ensures Chop(data[j..], segmentSize) == []
  {
    assert data[j..] == [];
  }

  lemma AppendAssoc<T>(a: seq<T>, b: seq<T>, c: seq<T>)
    ensures (a + b) + c == a + (b + c)
  {
  }

  lemma AppendEmpty<T>(a: seq<T>)
    ensures a + [] == a
  {
  }

  /** Nothing is lost and nothing is added: the segments in order are `data` exactly. */
  lemma {:induction false} ChopFlatten(data: Bytes, segmentSize: nat)
    requires segmentSize >= 1
    ensures Flatten(Chop(data, segmentSize)) == data
    decreases |data|
  {
    if |data| > 0 {
      var n := Min(|data|, segmentSize);
      var segments := Chop(data, segmentSize);
      assert segments[0] == data[..n];
      assert segments[1..] == Chop(data[n..], segmentSize);
      ChopFlatten(data[n..], segmentSize);
      assert data == data[..n] + data[n..];
    }
  }

  lemma CeilDivStep(n: nat, d: nat)
    requires 1 <= d <= n
    ensures CeilDiv(n, d) == 1 + CeilDiv(n - d, d)
  {
    var a := n - 1;
    var q, r := a / d, a % d;
    assert a == q * d + r && 0 <= r < d;
    assert n + d - 1 == (q + 1) * d + r;
    DivUnique(n + d - 1, d, q + 1, r);
    assert n - d + d - 1 == (q - 0) * d + r - 0 by {
      assert n - d + d - 1 == a;
    }
    DivUnique(n - d + d - 1, d, q, r);
  }

  /** Euclidean division has a unique quotient. */
  lemma DivUnique(x: nat, d: nat, q: int, r: int)
    requires d >= 1 && x == q * d + r && 0 <= r < d
    ensures x / d == q
  {
    var q', r' := x / d, x % d;
    var k := q - q';
    assert k * d == r' - r;
    if k >= 1 {
      MulAtLeast(k, d);
    } else if k <= -1 {
      MulAtLeast(-k, d);
    }
  }

  lemma MulAtLeast(k: int, d: int)
    requires k >= 1 && d >= 1
    ensures k * d >= d
  {
    assert k * d == d + (k - 1) * d;
  }

  /** The number of segments is ceil(len(data) / segmentSize), zero for an empty buffer. */
  lemma {:induction false} ChopCount(data: Bytes, segmentSize: nat)
    requires segmentSize >= 1
    ensures |Chop(data, segmentSize)| == CeilDiv(|data|, segmentSize)
    decreases |data|
  {
    if |data| == 0 {
      DivUnique(segmentSize - 1, segmentSize, 0, segmentSize - 1);
    } else if |data| <= segmentSize {
      assert Chop(data[|data|..], segmentSize) == [];
      DivUnique(|data| + segmentSize - 1, segmentSize, 1, |data| - 1);
    } else {
      ChopCount(data[segmentSize..], segmentSize);
      CeilDivStep(|data|, segmentSize);
    }
  }
}
