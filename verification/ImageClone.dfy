/** The clone loop: the used blocks of a device become the data area of an image. */
module ImageClone {
  import opened Arithmetic
  import opened Sequences
  import opened ImageLayout

  /** The number of blocks a buffer of `bufferSize` bytes is taken to hold. */
  function Capacity(f: Format, bufferSize: nat): (c: nat)
    requires 0 < f.blockSize
    ensures 0 < c
  {
    if f.blockSize < bufferSize then
      assert 0 < bufferSize / f.blockSize by { DivPositive(bufferSize, f.blockSize); }
      bufferSize / f.blockSize
    else 1
  }

  /** As many whole blocks as fit the buffer, but at least one. */
  lemma CapacityFits(f: Format, bufferSize: nat)
    requires 0 < f.blockSize
    ensures var c := Capacity(f, bufferSize);
            if bufferSize < f.blockSize then c == 1
            else c * f.blockSize <= bufferSize < (c + 1) * f.blockSize
  {
    MulStep(Capacity(f, bufferSize), f.blockSize);
  }

  /** Sizes and offsets of one batch are 32-bit in the source. */
  ghost predicate BatchFits(f: Format, capacity: nat) {
    f.Offset(capacity) + f.csSize < UINT32_LIMIT
  }

  /** `MAX_BLOCK_SIZE` */
  const MAX_BLOCK_SIZE := 64 * 1024 * 1024

  lemma {:induction false} OffsetAtMost(f: Format, n: nat)
    requires f.csSize <= f.blockSize
    ensures f.Offset(n) <= 2 * f.Bytes(n)
  {
    if 0 < n {
      OffsetAtMost(f, n - 1);
    }
  }

  lemma CapacityBytes(f: Format, bufferSize: nat)
    requires 0 < f.blockSize
    ensures f.Bytes(Capacity(f, bufferSize)) <= if f.blockSize < bufferSize then bufferSize else f.blockSize
  {
    BytesIsProduct(f, Capacity(f, bufferSize));
  }

  /** Any buffer up to almost two gigabytes is small enough, for every block size the source accepts
      that is no smaller than a checksum. */
  lemma BufferFits(f: Format, bufferSize: nat)
    requires f.Valid() && f.csSize <= f.blockSize <= MAX_BLOCK_SIZE && bufferSize < 0x7e00_0000
    ensures BatchFits(f, Capacity(f, bufferSize))
  {
    hide Format.Offset, Format.Bytes, Capacity;
    CapacityBytes(f, bufferSize);
    OffsetAtMost(f, Capacity(f, bufferSize));
  }

  lemma BatchFitsExact(f: Format, capacity: nat, offset: nat, count: nat)
    requires BatchFits(f, capacity) && count <= capacity
    ensures f.BlocksToBytes(offset, count) == f.Offset(offset + count) - f.Offset(offset)
  {
    OffsetMonotone(f, count, capacity);
    OffsetAtLeastBytes(f, count);
    BlocksToBytesExact(f, offset, count);
  }

  lemma {:induction false} OffsetAtLeastBytes(f: Format, n: nat)
    ensures f.Bytes(n) <= f.Offset(n)
  {
    if 0 < n {
      OffsetAtLeastBytes(f, n - 1);
    }
  }

  /** memcpy: the bytes at `offset` become `data`, the rest of the buffer stays. */
  method Memcpy(dst: array<byte>, offset: nat, data: seq<byte>)
    requires offset + |data| <= dst.Length
    modifies dst
    ensures dst[..] == old(dst[..offset]) + data + old(dst[offset + |data|..])
  {
    forall i | 0 <= i < |data| {
      dst[offset + i] := data[i];
    }
  }

  /** The number of unused blocks from `start` on. */
  method ScanUnused(bits: seq<bool>, start: nat) returns (n: nat)
    requires start <= |bits|
    ensures start + n <= |bits|
    ensures forall i :: start <= i < start + n ==> !bits[i]
    ensures start + n < |bits| ==> bits[start + n]
  {
    n := 0;
    while start + n < |bits| && !bits[start + n]
      invariant start + n <= |bits|
      invariant forall i :: start <= i < start + n ==> !bits[i]
    {
      n := n + 1;
    }
  }

  /** The number of used blocks from `start` on, but no more than `limit`. */
  method ScanUsed(bits: seq<bool>, start: nat, limit: nat) returns (n: nat)
    requires start <= |bits|
    ensures start + n <= |bits| && n <= limit
    ensures forall i :: start <= i < start + n ==> bits[i]
    ensures start + n < |bits| && n < limit ==> !bits[start + n]
  {
    n := 0;
    while start + n < |bits| && n < limit && bits[start + n]
      invariant start + n <= |bits| && n <= limit
      invariant forall i :: start <= i < start + n ==> bits[i]
    {
      n := n + 1;
    }
  }

  /** The next run of used blocks, cut at `limit`; none is left when it is empty. */
  method NextRun(f: Format, bits: seq<bool>, src: seq<byte>, from: nat, limit: nat) returns (start: nat, count: nat)
    requires from <= |bits| && 0 < limit && f.Bytes(|bits|) <= |src|
    ensures from <= start <= start + count <= |bits| && count <= limit
    ensures Rank(bits, start) == Rank(bits, from)
    ensures count == 0 ==> start == |bits|
    ensures Rank(bits, start + count) == Rank(bits, start) + count <= Rank(bits, |bits|)
    ensures f.Bytes(start) <= f.Bytes(start + count) <= |src|
    ensures src[f.Bytes(start)..f.Bytes(start + count)]
            == Flat(Gather(f, bits, src, |bits|)[Rank(bits, start)..Rank(bits, start) + count])
  {
    hide Flat, Gather, Rank, Format.Bytes;
    var blocksSkip := ScanUnused(bits, from);
    RankGap(bits, from, from + blocksSkip);
    start := from + blocksSkip;
    count := ScanUsed(bits, start, limit);
    RankRun(bits, start, start + count);
    RunIsFlat(f, bits, src, start, count);
  }

  /** One block of a batch goes into the write buffer, with the checksum it closes. */
  method EncodeBlock(f: Format, ghost blocks: seq<seq<byte>>, ghost n: nat, block: seq<byte>,
                     writeBuffer: array<byte>, offset: nat, inCs: nat, fedIn: seq<byte>)
    returns (writeOffset: nat, blocksInCs: nat, fed: seq<byte>)
    requires f.Valid() && n < |blocks| && block == blocks[n] && |block| == f.blockSize
    requires offset + (f.Offset(n + 1) - f.Offset(n)) <= writeBuffer.Length
    requires fedIn == Fed(f, blocks, n) && inCs == f.InGroup(n)
    modifies writeBuffer
    ensures writeOffset == offset + (f.Offset(n + 1) - f.Offset(n)) <= writeBuffer.Length
    ensures writeBuffer[..writeOffset] == old(writeBuffer[..offset]) + Piece(f, blocks, n)
    ensures fed == Fed(f, blocks, n + 1) && blocksInCs == f.InGroup(n + 1)
  {
    hide Format.Offset, Format.InGroup, Format.Closes, Fed, Recorded;
    OffsetStep(f, n);
    GroupStep(f, blocks, n);
    Memcpy(writeBuffer, offset, block);
    writeOffset := offset + f.blockSize;
    fed := fedIn + block;
    blocksInCs := inCs;
    if 0 < f.perCs {
      blocksInCs := blocksInCs + 1;
      if blocksInCs == f.perCs {
        var checksum := f.digest(fed);
        Memcpy(writeBuffer, writeOffset, checksum);
        writeOffset := writeOffset + f.csSize;
        blocksInCs := 0;
        if f.reseed {
          fed := [];
        }
      }
    }
  }

  /** A whole batch: what the write buffer holds continues the data area. */
  method EncodeBatch(f: Format, ghost blocks: seq<seq<byte>>, ghost copied: nat, readBuffer: seq<byte>,
                     blocksRead: nat, ghost capacity: nat, writeBuffer: array<byte>, inCs: nat, fedIn: seq<byte>)
    returns (writeOffset: nat, blocksInCs: nat, fed: seq<byte>)
    requires f.Valid() && Sized(f, blocks) && copied + blocksRead <= |blocks|
    requires readBuffer == Flat(blocks[copied..copied + blocksRead])
    requires blocksRead <= capacity && writeBuffer.Length == f.Offset(capacity) + f.csSize
    requires fedIn == Fed(f, blocks, copied) && inCs == f.InGroup(copied)
    modifies writeBuffer
    ensures writeOffset <= writeBuffer.Length
    ensures Body(f, blocks, copied) + writeBuffer[..writeOffset] == Body(f, blocks, copied + blocksRead)
    ensures fed == Fed(f, blocks, copied + blocksRead) && blocksInCs == f.InGroup(copied + blocksRead)
  {
    hide Body, Fed, Piece, Flat, Format.Offset, Format.InGroup, Format.Bytes;
    writeOffset, blocksInCs, fed := 0, inCs, fedIn;
    for i := 0 to blocksRead
      invariant writeOffset == f.Offset(copied + i) - f.Offset(copied) <= writeBuffer.Length
      invariant Body(f, blocks, copied) + writeBuffer[..writeOffset] == Body(f, blocks, copied + i)
      invariant fed == Fed(f, blocks, copied + i) && blocksInCs == f.InGroup(copied + i)
    {
      BufferRoom(f, copied, i + 1, capacity);
      FlatAt(f, blocks[copied..copied + blocksRead], i);
      var block := readBuffer[f.Bytes(i)..f.Bytes(i + 1)];
      BodyStep(f, blocks, copied + i);
      ghost var before := writeBuffer[..writeOffset];
      writeOffset, blocksInCs, fed :=
        EncodeBlock(f, blocks, copied + i, block, writeBuffer, writeOffset, blocksInCs, fed);
      ConcatAssociates(Body(f, blocks, copied), before, Piece(f, blocks, copied + i));
    }
  }

  /** Block `i` of a concatenation of equally long blocks. */
  lemma {:induction false} FlatAt(f: Format, blocks: seq<seq<byte>>, i: nat)
    requires Sized(f, blocks) && i < |blocks|
    ensures f.Bytes(i) <= f.Bytes(i + 1) <= |Flat(blocks)| == f.Bytes(|blocks|)
    ensures Flat(blocks)[f.Bytes(i)..f.Bytes(i + 1)] == blocks[i]
  {
    FlatLength(f, blocks);
    var last := |blocks| - 1;
    BytesMonotone(f, i + 1, |blocks|);
    FlatLength(f, blocks[..last]);
    if i < last {
      FlatAt(f, blocks[..last], i);
      assert Flat(blocks)[f.Bytes(i)..f.Bytes(i + 1)] == Flat(blocks[..last])[f.Bytes(i)..f.Bytes(i + 1)];
    }
  }

  lemma {:induction false} FlatLength(f: Format, blocks: seq<seq<byte>>)
    requires Sized(f, blocks)
    ensures |Flat(blocks)| == f.Bytes(|blocks|)
  {
    if blocks != [] {
      FlatLength(f, blocks[..|blocks| - 1]);
    }
  }

  lemma {:induction false} FlatSplit(a: seq<seq<byte>>, b: seq<seq<byte>>)
    ensures Flat(a + b) == Flat(a) + Flat(b)
  {
    if b == [] {
      assert a + b == a;
    } else {
      var last := |b| - 1;
      FlatSplit(a, b[..last]);
      assert (a + b)[..|a| + last] == a + b[..last];
      ConcatAssociates(Flat(a), Flat(b[..last]), b[last]);
    }
  }

  /** A run of blocks inside a buffer of blocks. */
  lemma FlatInside(f: Format, blocks: seq<seq<byte>>, a: nat, b: nat)
    requires Sized(f, blocks) && a <= b <= |blocks|
    ensures f.Bytes(a) <= f.Bytes(b) <= |Flat(blocks)| == f.Bytes(|blocks|)
    ensures Flat(blocks)[f.Bytes(a)..f.Bytes(b)] == Flat(blocks[a..b])
  {
    assert blocks == blocks[..a] + (blocks[a..b] + blocks[b..]);
    FlatOfParts(f, blocks[..a], blocks[a..b], blocks[b..]);
  }

  lemma FlatOfParts(f: Format, x: seq<seq<byte>>, y: seq<seq<byte>>, z: seq<seq<byte>>)
    requires Sized(f, x) && Sized(f, y) && Sized(f, z)
    ensures var all := Flat(x + (y + z));
            && f.Bytes(|x|) <= f.Bytes(|x| + |y|) <= |all| == f.Bytes(|x| + |y| + |z|)
            && all[f.Bytes(|x|)..f.Bytes(|x| + |y|)] == Flat(y)
  {
    hide *;
    FlatLength(f, x);
    FlatLength(f, y);
    FlatLength(f, z);
    BytesSum(f, |x|, |y|);
    BytesSum(f, |x| + |y|, |z|);
    FlatSplit(x, y + z);
    FlatSplit(y, z);
    InnerSlices(Flat(x), Flat(y), Flat(z), Flat(x + (y + z)));
  }

  lemma RunBounds(f: Format, bits: seq<bool>, size: nat, b: nat, count: nat)
    requires f.Bytes(|bits|) <= size
    requires b + count <= |bits|
    requires forall i :: b <= i < b + count ==> bits[i]
    ensures f.Bytes(b) <= f.Bytes(b + count) <= size
    ensures Rank(bits, b + count) == Rank(bits, b) + count <= Rank(bits, |bits|)
  {
    BytesMonotone(f, b, b + count);
    BytesMonotone(f, b + count, |bits|);
    RankRun(bits, b, b + count);
    RankMonotone(bits, b + count, |bits|);
  }

  /** What a read of the `count` blocks from `b` on yields. */
  ghost predicate ReadsRun(f: Format, bits: seq<bool>, src: seq<byte>, b: nat, count: nat)
    requires f.Bytes(|bits|) <= |src| && b + count <= |bits|
  {
    && f.Bytes(b) <= f.Bytes(b + count) <= |src|
    && Rank(bits, b) + count <= Rank(bits, |bits|)
    && src[f.Bytes(b)..f.Bytes(b + count)]
       == Flat(Gather(f, bits, src, |bits|)[Rank(bits, b)..Rank(bits, b) + count])
  }

  lemma RunStep(f: Format, bits: seq<bool>, src: seq<byte>, b: nat, count: nat)
    requires f.Bytes(|bits|) <= |src|
    requires b + count < |bits| && bits[b + count]
    requires Rank(bits, b + count) == Rank(bits, b) + count
    requires ReadsRun(f, bits, src, b, count)
    ensures ReadsRun(f, bits, src, b, count + 1)
  {
    hide Flat, Gather, Rank, Format.Bytes;
    var last, r := b + count, Rank(bits, b);
    GatherAt(f, bits, src, |bits|, last);
    FlatRun(Gather(f, bits, src, |bits|), r, r + count);
    BytesMonotone(f, last, last + 1);
    SliceStep(src, f.Bytes(b), f.Bytes(last), f.Bytes(last + 1));
  }

  /** A run of used blocks read from the device is a run of the gathered blocks. */
  lemma {:induction false} RunIsFlat(f: Format, bits: seq<bool>, src: seq<byte>, b: nat, count: nat)
    requires f.Bytes(|bits|) <= |src|
    requires b + count <= |bits|
    requires forall i :: b <= i < b + count ==> bits[i]
    ensures ReadsRun(f, bits, src, b, count)
  {
    RunBounds(f, bits, |src|, b, count);
    if count == 0 {
      assert Gather(f, bits, src, |bits|)[Rank(bits, b)..Rank(bits, b)] == [];
    } else {
      RunIsFlat(f, bits, src, b, count - 1);
      RankRun(bits, b, b + (count - 1));
      RunStep(f, bits, src, b, count - 1);
    }
  }

  /** src/main.c, the clone branch. */
  method Clone(f: Format, bits: seq<bool>, src: seq<byte>, bufferSize: nat)
    returns (image: seq<byte>, copied: nat)
    requires f.Valid()
    requires f.Bytes(|bits|) <= |src|
    requires BatchFits(f, Capacity(f, bufferSize))
    ensures image == Image(f, Gather(f, bits, src, |bits|))
    ensures copied == Rank(bits, |bits|)
  {
    var capacity := Capacity(f, bufferSize);
    BatchFitsExact(f, capacity, 0, capacity);
    var writeBuffer := new byte[f.BlocksToBytes(0, capacity) + f.csSize];
    image, copied := CloneBatches(f, bits, src, capacity, writeBuffer);
  }

  /** Runs of used blocks are read up to `capacity` blocks at a time; checksum groups
      carry over from one batch to the next. */
  method CloneBatches(f: Format, bits: seq<bool>, src: seq<byte>, capacity: nat, writeBuffer: array<byte>)
    returns (image: seq<byte>, copied: nat)
    requires f.Valid()
    requires f.Bytes(|bits|) <= |src|
    requires 0 < capacity && writeBuffer.Length == f.Offset(capacity) + f.csSize
    modifies writeBuffer
    ensures image == Image(f, Gather(f, bits, src, |bits|))
    ensures copied == Rank(bits, |bits|)
  {
    hide *;
    var total := |bits|;
    ghost var blocks := Gather(f, bits, src, total);
    var blocksInCs: nat, fed: seq<byte>, blockId: nat := 0, [], 0;
    image, copied := [], 0;
    CloneStarts(f, bits, blocks);
    while true
      invariant blockId <= total && copied == Rank(bits, blockId) <= |blocks|
      invariant image == Body(f, blocks, copied)
      invariant fed == Fed(f, blocks, copied) && blocksInCs == f.InGroup(copied)
      decreases total - blockId
    {
      var start, blocksRead := NextRun(f, bits, src, blockId, capacity);
      blockId := start;
      if blocksRead == 0 {
        break;
      }
      var readBuffer := src[f.Bytes(blockId)..f.Bytes(blockId + blocksRead)];
      var writeOffset;
      writeOffset, blocksInCs, fed :=
        EncodeBatch(f, blocks, copied, readBuffer, blocksRead, capacity, writeBuffer, blocksInCs, fed);
      image := image + writeBuffer[..writeOffset];
      copied := copied + blocksRead;
      blockId := blockId + blocksRead;
    }
    CloneEnds(f, blocks);
    if 0 < blocksInCs {
      image := image + f.digest(fed);
    }
  }

  lemma CloneStarts(f: Format, bits: seq<bool>, blocks: seq<seq<byte>>)
    ensures Rank(bits, 0) == 0 && Body(f, blocks, 0) == [] && Fed(f, blocks, 0) == [] && f.InGroup(0) == 0
  {
  }

  lemma CloneEnds(f: Format, blocks: seq<seq<byte>>)
    ensures Image(f, blocks) == Body(f, blocks, |blocks|)
                                + if 0 < f.InGroup(|blocks|) then f.digest(Fed(f, blocks, |blocks|)) else []
  {
  }
}
