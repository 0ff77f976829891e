/** The FUSE view of an image: every maximal run of used blocks is a file, read through
    closed-form positions instead of a scan of the data area. */
module FuseReader {
  import opened Arithmetic
  import opened Sequences
  import opened ImageLayout
  import opened ImageClone
  import opened ImageDamage
  import Crc32

  datatype Option<+T> = None | Some(value: T)

  /** `pread`: short at the end of the file. */
  function Pread(image: seq<byte>, at: nat, size: nat): seq<byte> {
    if at + size <= |image| then image[at..at + size] else if at <= |image| then image[at..] else []
  }

  /** A file in the view: its blocks lie one after another on the device. */
  ghost predicate IsRun(bits: seq<bool>, block: nat, n: nat) {
    block + n <= |bits| && forall i :: block <= i < block + n ==> bits[i]
  }

  /** How many used blocks follow one another from `block` on. */
  ghost function RunLength(bits: seq<bool>, block: nat): (n: nat)
    ensures block <= |bits| ==> IsRun(bits, block, n)
    ensures block + n < |bits| ==> !bits[block + n]
    decreases |bits| - block
  {
    if block < |bits| && bits[block] then 1 + RunLength(bits, block + 1) else 0
  }

  lemma {:induction false} RunLengthOnly(bits: seq<bool>, block: nat, n: nat)
    requires IsRun(bits, block, n) && (block + n < |bits| ==> !bits[block + n])
    ensures n == RunLength(bits, block)
    decreases n
  {
    if 0 < n {
      RunLengthOnly(bits, block + 1, n - 1);
    }
  }

  /** `get_file_size`: the bytes of the run of used blocks that starts at `block`. */
  method GetFileSize(f: Format, bits: seq<bool>, block: nat) returns (size: nat)
    ensures size == f.Bytes(RunLength(bits, block))
  {
    var copied := 0;
    if block < |bits| {
      copied := ScanUsed(bits, block, |bits|);
      RunLengthOnly(bits, block, copied);
    }
    size := f.Bytes(copied);
  }

  /** `read_block_data`.  The interval divides the used count, so an image without
      checksums stops the reader (`None`). */
  method ReadBlockData(f: Format, bits: seq<bool>, image: seq<byte>, base: nat, block: nat, size: nat, offset: nat)
    returns (r: Option<seq<byte>>)
    requires block <= |bits|
    ensures r.None? <==> f.perCs == 0
    ensures r.Some? ==> r.value == Pread(image, base + f.Offset(Rank(bits, block)) + offset, size)
  {
    var used := 0;
    for i := 0 to block
      invariant used == Rank(bits, i)
    {
      if bits[i] {
        used := used + 1;
      }
    }
    if f.perCs == 0 {
      return None;
    }
    OffsetClosedForm(f, used);
    var bseek := f.blockSize * used + used / f.perCs * f.csSize + base;
    r := Some(Pread(image, bseek + offset, size));
  }

  /** The data area of the device `src`, after `base` bytes of header and bitmap. */
  ghost predicate IsImageOf(f: Format, bits: seq<bool>, src: seq<byte>, base: nat, image: seq<byte>)
    requires f.Bytes(|bits|) <= |src|
  {
    base <= |image| && image[base..] == Image(f, Gather(f, bits, src, |bits|))
  }

  /** A block of 4096 bytes in an image without checksums cannot be read, though it is there. */
  method NoChecksumExample(block: seq<byte>) returns (f: Format, r: Option<seq<byte>>)
    requires |block| == 4096
    ensures f.Valid() && f.Bytes(1) == |block| && IsImageOf(f, [true], block, 0, block) && r.None?
  {
    f := Format(4096, 0, 0, false, _ => []);
    OneBlockImage(f, block);
    r := ReadBlockData(f, [true], block, 0, 0, 4096, 0);
  }

  lemma OneBlockImage(f: Format, block: seq<byte>)
    requires f.perCs == 0 && f.blockSize == |block|
    ensures f.Bytes(1) == |block| && Image(f, Gather(f, [true], block, 1)) == block
  {
    assert f.Bytes(1) == f.Bytes(0) + |block|;
    var blocks := Gather(f, [true], block, 1);
    assert BlockAt(f, block, 0) == block;
    assert blocks == Gather(f, [true], block, 0) + [block] == [block];
    assert Body(f, [block], 1) == Body(f, [block], 0) + Piece(f, [block], 0);
  }

  lemma PreadInside(image: seq<byte>, base: nat, area: seq<byte>, lo: nat, hi: nat, x: nat, size: nat)
    requires base <= |image| && image[base..] == area
    requires lo <= hi <= |area| && x + size <= hi - lo
    ensures Pread(image, base + lo + x, size) == area[lo..hi][x..x + size]
  {
    SliceOfSlice(area, lo, hi, x, x + size);
    SliceOfDrop(image, base, lo + x, lo + x + size);
  }

  /** The closed-form position of a used block is where the clone loop put it. */
  lemma BlockRead(f: Format, bits: seq<bool>, src: seq<byte>, base: nat, image: seq<byte>,
                  block: nat, x: nat, size: nat)
    requires f.Valid() && f.Bytes(|bits|) <= |src| && IsImageOf(f, bits, src, base, image)
    requires block < |bits| && bits[block] && x + size <= f.blockSize
    ensures f.Bytes(block) + f.blockSize == f.Bytes(block + 1) <= |src|
    ensures Pread(image, base + f.Offset(Rank(bits, block)) + x, size)
            == src[f.Bytes(block) + x..f.Bytes(block) + x + size]
  {
    hide Gather, Rank, Image, Format.Bytes, Format.Offset, Pread;
    var blocks, r := Gather(f, bits, src, |bits|), Rank(bits, block);
    BytesStep(f, block);
    GatherAt(f, bits, src, |bits|, block);
    BlockInImage(f, blocks, r);
    PreadInside(image, base, Image(f, blocks), f.Offset(r), f.Offset(r) + f.blockSize, x, size);
    SliceOfSlice(src, f.Bytes(block), f.Bytes(block + 1), x, x + size);
  }

  /** The first piece of a request stays inside one block. */
  predicate SafeRequest(f: Format, size: nat, offset: nat)
    requires 0 < f.blockSize
  {
    f.blockSize < size || offset % f.blockSize + size <= f.blockSize
  }

  /** Where byte `offset` of a file lies on the device. */
  lemma OffsetInRun(f: Format, bits: seq<bool>, block: nat, n: nat, offset: nat)
    requires 0 < f.blockSize && IsRun(bits, block, n) && offset < f.Bytes(n)
    ensures 0 <= offset / f.blockSize < n && 0 <= offset % f.blockSize < f.blockSize
    ensures f.Bytes(block) + offset == f.Bytes(block + offset / f.blockSize) + offset % f.blockSize
  {
    hide Format.Bytes;
    DivNonNegative(offset, f.blockSize);
    WholeAndRest(f, offset);
    var q := offset / f.blockSize;
    BytesSum(f, block, q);
    if n <= q {
      BytesMonotone(f, n, q);
      assert false;
    }
  }

  lemma WholeAndRest(f: Format, x: nat)
    requires 0 < f.blockSize && 0 <= x / f.blockSize
    ensures f.Bytes(x / f.blockSize) + x % f.blockSize == x
  {
    BytesIsProduct(f, x / f.blockSize);
  }

  lemma RunPart(f: Format, bits: seq<bool>, block: nat, n: nat, k: nat)
    requires IsRun(bits, block, n) && k <= n
    ensures IsRun(bits, block + k, n - k)
    ensures f.Bytes(block + k) == f.Bytes(block) + f.Bytes(k)
    ensures f.Bytes(n) == f.Bytes(k) + f.Bytes(n - k)
  {
    BytesSum(f, block, k);
    BytesSum(f, k, n - k);
  }

  lemma WholeBlocks(f: Format, bits: seq<bool>, block: nat, n: nat, remaining: nat)
    requires 0 < f.blockSize && IsRun(bits, block, n) && remaining <= f.Bytes(n)
    ensures remaining / f.blockSize <= n
    ensures f.Bytes(remaining / f.blockSize) + remaining % f.blockSize == remaining
    ensures 0 < remaining % f.blockSize ==> remaining / f.blockSize < n
  {
    hide Format.Bytes;
    DivNonNegative(remaining, f.blockSize);
    WholeAndRest(f, remaining);
    var q := remaining / f.blockSize;
    if n < q {
      BytesMonotone(f, n, q);
      assert false;
    }
  }

  /** The loop over whole blocks. */
  method ReadWholeBlocks(f: Format, bits: seq<bool>, ghost src: seq<byte>, image: seq<byte>, base: nat,
                         block: nat, count: nat)
    returns (buf: seq<byte>)
    requires f.Valid() && f.Bytes(|bits|) <= |src| && IsImageOf(f, bits, src, base, image) && 0 < f.perCs
    requires IsRun(bits, block, count)
    ensures f.Bytes(block) <= f.Bytes(block + count) <= |src|
    ensures buf == src[f.Bytes(block)..f.Bytes(block + count)]
  {
    hide Gather, Rank, Image, Format.Bytes, Format.Offset, Pread, IsImageOf, Format.InGroup, Format.Valid;
    RunOnDevice(f, bits, |src|, block, count);
    buf := [];
    for x := 0 to count
      invariant f.Bytes(block) <= f.Bytes(block + x) <= |src|
      invariant buf == src[f.Bytes(block)..f.Bytes(block + x)]
    {
      BlockRead(f, bits, src, base, image, block + x, 0, f.blockSize);
      var r := ReadBlockData(f, bits, image, base, block + x, f.blockSize, 0);
      SliceStep(src, f.Bytes(block), f.Bytes(block + x), f.Bytes(block + x + 1));
      buf := buf + r.value;
    }
  }

  /** The loop over whole blocks and the rest in one more block. */
  method ReadWhole(f: Format, bits: seq<bool>, ghost src: seq<byte>, image: seq<byte>, base: nat,
                   block: nat, ghost n: nat, remaining: nat)
    returns (buf: seq<byte>)
    requires f.Valid() && f.Bytes(|bits|) <= |src| && IsImageOf(f, bits, src, base, image) && 0 < f.perCs
    requires IsRun(bits, block, n) && remaining <= f.Bytes(n)
    ensures f.Bytes(block) + remaining <= |src|
    ensures buf == src[f.Bytes(block)..f.Bytes(block) + remaining]
  {
    hide Gather, Rank, Image, Format.Bytes, Format.Offset, Pread, IsImageOf, Format.InGroup;
    WholeBlocks(f, bits, block, n, remaining);
    RunOnDevice(f, bits, |src|, block, n);
    var blockCount := remaining / f.blockSize;
    RunPart(f, bits, block, n, blockCount);
    buf := ReadWholeBlocks(f, bits, src, image, base, block, blockCount);
    var last := remaining - |buf|;
    if 0 < last {
      BlockRead(f, bits, src, base, image, block + blockCount, 0, last);
      var r := ReadBlockData(f, bits, image, base, block + blockCount, last, 0);
      SliceStep(src, f.Bytes(block), f.Bytes(block + blockCount), f.Bytes(block + blockCount) + last);
      buf := buf + r.value;
    }
  }

  /** The checksum, if any, between block number `r` of the data area and the next one. */
  ghost function Between(f: Format, blocks: seq<seq<byte>>, r: nat): seq<byte>
    requires r < |blocks|
  {
    if f.Closes(r + 1) then Recorded(f, blocks, r + 1) else []
  }

  lemma Crossing(a: seq<byte>, lo: nat, b: seq<byte>, c: seq<byte>, d: seq<byte>, x: nat, size: nat)
    requires lo + |b| + |c| + |d| <= |a|
    requires a[lo..lo + |b|] == b && a[lo + |b|..lo + |b| + |c|] == c
    requires a[lo + |b| + |c|..lo + |b| + |c| + |d|] == d
    requires x <= |b| <= x + size <= |b| + |d|
    ensures a[lo + x..lo + x + size] == b[x..] + (c + d)[..x + size - |b|]
  {
    SliceStep(a, lo + x, lo + |b|, lo + x + size);
    SliceOfSlice(a, lo, lo + |b|, x, |b|);
    SliceStep(a, lo + |b|, lo + |b| + |c|, lo + |b| + |c| + |d|);
    SliceOfSlice(a, lo + |b|, lo + |b| + |c| + |d|, 0, x + size - |b|);
    assert (c + d)[..x + size - |b|] == (c + d)[0..x + size - |b|];
  }

  /** Two neighbouring blocks of the data area with what is between them. */
  lemma TwoBlocks(f: Format, blocks: seq<seq<byte>>, r: nat)
    requires f.Valid() && Sized(f, blocks) && r + 1 < |blocks|
    ensures var lo, mid := f.Offset(r) + f.blockSize, |Between(f, blocks, r)|;
            && f.Offset(r + 1) == lo + mid && lo + mid + f.blockSize <= |Image(f, blocks)|
            && Image(f, blocks)[f.Offset(r)..lo] == blocks[r]
            && Image(f, blocks)[lo..lo + mid] == Between(f, blocks, r)
            && Image(f, blocks)[lo + mid..lo + mid + f.blockSize] == blocks[r + 1]
  {
    hide Image, Format.Offset, Recorded, Format.Closes, Format.InGroup;
    BlockInImage(f, blocks, r);
    BlockInImage(f, blocks, r + 1);
    OffsetStep(f, r);
    EmptySlice(Image(f, blocks), f.Offset(r) + f.blockSize);
  }

  lemma CrossingArea(f: Format, blocks: seq<seq<byte>>, r: nat, x: nat, size: nat)
    requires f.Valid() && Sized(f, blocks) && r + 1 < |blocks|
    requires x < f.blockSize < x + size && size <= f.blockSize
    ensures f.Offset(r) + x + size <= f.Offset(r + 1) + f.blockSize <= |Image(f, blocks)|
    ensures Image(f, blocks)[f.Offset(r) + x..f.Offset(r) + x + size]
            == blocks[r][x..] + (Between(f, blocks, r) + blocks[r + 1])[..x + size - f.blockSize]
  {
    hide Image, Format.Offset, Between;
    TwoBlocks(f, blocks, r);
    Crossing(Image(f, blocks), f.Offset(r), blocks[r], Between(f, blocks, r), blocks[r + 1], x, size);
  }

  /** A read that runs over the end of a block goes on with the checksum that follows. */
  lemma CrossingRead(f: Format, bits: seq<bool>, src: seq<byte>, base: nat, image: seq<byte>,
                     block: nat, x: nat, size: nat)
    requires f.Valid() && f.Bytes(|bits|) <= |src| && IsImageOf(f, bits, src, base, image)
    requires block + 1 < |bits| && bits[block] && bits[block + 1]
    requires x < f.blockSize < x + size && size <= f.blockSize
    ensures f.Bytes(block + 1) + f.blockSize == f.Bytes(block + 2) <= |src|
    ensures Rank(bits, block) < Rank(bits, |bits|)
    ensures var blocks, r := Gather(f, bits, src, |bits|), Rank(bits, block);
            Pread(image, base + f.Offset(r) + x, size)
            == BlockAt(f, src, block)[x..]
               + (Between(f, blocks, r) + BlockAt(f, src, block + 1))[..x + size - f.blockSize]
  {
    hide Gather, Rank, Image, Format.Bytes, Format.Offset, Pread, Between;
    var blocks, r := Gather(f, bits, src, |bits|), Rank(bits, block);
    RankStep(bits, block);
    BytesStep(f, block + 1);
    BytesMonotone(f, block + 2, |bits|);
    GatherAt(f, bits, src, |bits|, block);
    GatherAt(f, bits, src, |bits|, block + 1);
    CrossingArea(f, blocks, r, x, size);
    PreadInside(image, base, Image(f, blocks), f.Offset(r), f.Offset(r + 1) + f.blockSize, x, size);
    SliceOfSlice(Image(f, blocks), f.Offset(r), f.Offset(r + 1) + f.blockSize, x, x + size);
  }

  lemma EmptySlice(s: seq<byte>, a: nat)
    requires a <= |s|
    ensures s[a..a] == []
  {
  }

  /** Exactly when a request that is not safe still yields the bytes of the device: no
      checksum follows its first block, or the checksum happens to equal the data. */
  lemma CrossingIsRightIff(f: Format, bits: seq<bool>, src: seq<byte>, base: nat, image: seq<byte>,
                           block: nat, x: nat, size: nat)
    requires f.Valid() && f.Bytes(|bits|) <= |src| && IsImageOf(f, bits, src, base, image)
    requires block + 1 < |bits| && bits[block] && bits[block + 1]
    requires x < f.blockSize < x + size && size <= f.blockSize
    ensures f.Bytes(block) + x + size <= f.Bytes(block + 2) <= |src|
    ensures var blocks, r, past := Gather(f, bits, src, |bits|), Rank(bits, block), x + size - f.blockSize;
            && r < |blocks|
            && (Pread(image, base + f.Offset(r) + x, size)
                == src[f.Bytes(block) + x..f.Bytes(block) + x + size]
                <==> !f.Closes(r + 1)
                     || (Recorded(f, blocks, r + 1) + BlockAt(f, src, block + 1))[..past]
                        == BlockAt(f, src, block + 1)[..past])
  {
    hide Gather, Rank, Image, Format.Bytes, Format.Offset, Pread, Recorded, Format.Closes, Format.InGroup;
    hide BlockAt;
    CrossingRead(f, bits, src, base, image, block, x, size);
    DeviceCrossing(f, src, block, x, size);
    var next, past := BlockAt(f, src, block + 1), x + size - f.blockSize;
    var between := Between(f, Gather(f, bits, src, |bits|), Rank(bits, block));
    SameTail(BlockAt(f, src, block)[x..], (between + next)[..past], next[..past]);
    EmptyConcat(next);
  }

  lemma SmallFormat(f: Format)
    requires f.perCs == 1
    ensures f.Bytes(0) == 0 && f.Bytes(1) == f.blockSize && f.Bytes(2) == 2 * f.blockSize
    ensures f.Closes(1) && f.Offset(0) == 0
  {
    assert f.InGroup(0) == 0;
  }

  lemma BothUsed()
    ensures Rank([true, true], 0) == 0 && Rank([true, true], 2) == 2
  {
    assert Rank([true, true], 1) == 1;
  }

  lemma FirstRecorded(f: Format, src: seq<byte>)
    requires f.Bytes(0) == 0 && f.Bytes(1) == f.blockSize && f.Bytes(2) == 2 * f.blockSize <= |src|
    ensures Recorded(f, Gather(f, [true, true], src, 2), 1) == f.digest(src[..f.blockSize])
  {
    var blocks := Gather(f, [true, true], src, 2);
    GatherAt(f, [true, true], src, 2, 0);
    assert blocks[0] == src[..f.blockSize];
    assert [] + blocks[0] == blocks[0];
  }

  /** An image with a CRC-32 after each of two blocks, and a request for as many bytes as a block has, from the
      second byte on: its last byte is the first byte of the checksum. */
  lemma CrossingCrc(blockSize: nat, reseed: bool, src: seq<byte>)
    requires 4 <= blockSize && |src| == 2 * blockSize
    ensures var f := CrcFormat(blockSize, 1, reseed);
            && f.Valid() && f.Bytes(2) == |src|
            && (Pread(Image(f, Gather(f, [true, true], src, 2)), 1, blockSize) == src[1..blockSize + 1]
                <==> src[blockSize] == Crc32.Digest(src[..blockSize])[0])
  {
    hide Format.Bytes, Format.Offset, Format.Closes, Format.InGroup, Gather, Rank, Image, Recorded, Crc32.Digest, Pread;
    hide BlockAt;
    var f := CrcFormat(blockSize, 1, reseed);
    CrcFormatValid(blockSize, 1, reseed);
    SmallFormat(f);
    BothUsed();
    FirstRecorded(f, src);
    var image := Image(f, Gather(f, [true, true], src, 2));
    assert image[0..] == image;
    CrossingIsRightIff(f, [true, true], src, 0, image, 0, 1, blockSize);
    SecondBlockAt(f, src);
    FirstBytes(Crc32.Digest(src[..blockSize]), BlockAt(f, src, 1), src[blockSize]);
  }

  lemma SecondBlockAt(f: Format, src: seq<byte>)
    requires 0 < f.blockSize && f.Bytes(1) == f.blockSize && f.Bytes(2) == 2 * f.blockSize <= |src|
    ensures BlockAt(f, src, 1)[0] == src[f.blockSize]
  {
  }

  lemma FirstBytes(digest: seq<byte>, block: seq<byte>, b: byte)
    requires 0 < |digest| && 0 < |block| && block[0] == b
    ensures (digest + block)[..1] == block[..1] <==> b == digest[0]
  {
    assert (digest + block)[..1] == [digest[0]] && block[..1] == [b];
  }

  /** So it is wrong for every first block `a` with a suitable second one. */
  lemma CrossingCanBeWrong(reseed: bool, a: seq<byte>)
    requires 4 <= |a|
    ensures var f := CrcFormat(|a|, 1, reseed);
            var src := a + [Crc32.Digest(a)[0] + 1] + a[1..];
            && f.Valid() && f.Bytes(2) == |src|
            && Pread(Image(f, Gather(f, [true, true], src, 2)), 1, |a|) != src[1..|a| + 1]
  {
    hide Format.Bytes, Format.Valid, Gather, Rank, Image, Crc32.Digest, Pread;
    var src := a + [Crc32.Digest(a)[0] + 1] + a[1..];
    assert src[..|a|] == a;
    CrossingCrc(|a|, reseed, src);
  }

  lemma EmptyConcat(s: seq<byte>)
    ensures [] + s == s
  {
  }

  /** The bytes of the device from inside one block to inside the next. */
  lemma DeviceCrossing(f: Format, src: seq<byte>, block: nat, x: nat, size: nat)
    requires f.Bytes(block + 2) <= |src|
    requires x < f.blockSize < x + size && size <= f.blockSize
    ensures f.Bytes(block + 1) <= |src| && f.Bytes(block) + x + size <= f.Bytes(block + 2)
    ensures src[f.Bytes(block) + x..f.Bytes(block) + x + size]
            == BlockAt(f, src, block)[x..] + BlockAt(f, src, block + 1)[..x + size - f.blockSize]
  {
    BytesStep(f, block);
    BytesStep(f, block + 1);
    var lo, past := f.Bytes(block), x + size - f.blockSize;
    SliceStep(src, lo + x, lo + f.blockSize, lo + x + size);
    SliceOfSlice(src, lo, lo + f.blockSize, x, f.blockSize);
    SliceOfSlice(src, lo + f.blockSize, f.Bytes(block + 2), 0, past);
  }

  lemma SameTail(a: seq<byte>, b: seq<byte>, c: seq<byte>)
    ensures a + b == a + c <==> b == c
  {
    if a + b == a + c {
      assert b == (a + b)[|a|..] && c == (a + c)[|a|..];
    }
  }

  /** The reads of `read_blocks_data`, from byte `x` of block `block` on.  `skipping` says
      that the request does not start at the first byte of its file. */
  method ReadFrom(f: Format, bits: seq<bool>, ghost src: seq<byte>, image: seq<byte>, base: nat,
                  block: nat, ghost n: nat, x: nat, size: nat, skipping: bool)
    returns (buf: seq<byte>)
    requires f.Valid() && f.Bytes(|bits|) <= |src| && IsImageOf(f, bits, src, base, image) && 0 < f.perCs
    requires IsRun(bits, block, n) && 0 < n && 0 < size && x < f.blockSize && x + size <= f.Bytes(n)
    requires !skipping ==> x == 0
    ensures f.Bytes(block) + x + size <= |src|
    ensures f.blockSize < size || x + size <= f.blockSize ==>
              buf == src[f.Bytes(block) + x..f.Bytes(block) + x + size]
    ensures size <= f.blockSize < x + size ==> buf == Pread(image, base + f.Offset(Rank(bits, block)) + x, size)
  {
    hide Gather, Rank, Image, Format.Bytes, Format.Offset, IsImageOf, Format.InGroup, Pread, Between;
    RunOnDevice(f, bits, |src|, block, n);
    if skipping {
      var piece := if size <= f.blockSize then size else f.blockSize - x;
      var first := ReadBlockData(f, bits, image, base, block, piece, x);
      buf := first.value;
      if size <= f.blockSize < x + size {
        SecondBlock(f, n, x + size);
        CrossingLength(f, bits, src, base, image, block, x, size);
        return;
      }
      BlockRead(f, bits, src, base, image, block, x, piece);
      if |buf| == size {
        return;
      }
      RunPart(f, bits, block, n, 1);
      BytesOne(f);
      var rest := ReadWhole(f, bits, src, image, base, block + 1, n - 1, size - |buf|);
      SliceStep(src, f.Bytes(block) + x, f.Bytes(block + 1), f.Bytes(block) + x + size);
      buf := buf + rest;
    } else {
      buf := ReadWhole(f, bits, src, image, base, block, n, size);
    }
  }

  lemma BytesOne(f: Format)
    ensures f.Bytes(1) == f.blockSize
  {
    assert f.Bytes(0) == 0;
  }

  lemma SecondBlock(f: Format, n: nat, end: nat)
    requires f.blockSize < end <= f.Bytes(n)
    ensures 1 < n
  {
    BytesOne(f);
    if n <= 1 {
      BytesMonotone(f, n, 1);
      assert false;
    }
  }

  lemma RunOnDevice(f: Format, bits: seq<bool>, size: nat, block: nat, n: nat)
    requires IsRun(bits, block, n) && f.Bytes(|bits|) <= size
    ensures f.Bytes(block) + f.Bytes(n) == f.Bytes(block + n) <= size
  {
    BytesSum(f, block, n);
    BytesMonotone(f, block + n, |bits|);
  }

  lemma CrossingLength(f: Format, bits: seq<bool>, src: seq<byte>, base: nat, image: seq<byte>,
                       block: nat, x: nat, size: nat)
    requires f.Valid() && f.Bytes(|bits|) <= |src| && IsImageOf(f, bits, src, base, image)
    requires block + 1 < |bits| && bits[block] && bits[block + 1]
    requires x < f.blockSize < x + size && size <= f.blockSize
    ensures |Pread(image, base + f.Offset(Rank(bits, block)) + x, size)| == size
  {
    hide Gather, Rank, Image, Format.Bytes, Format.Offset, IsImageOf, Format.InGroup, Pread, Between;
    CrossingRead(f, bits, src, base, image, block, x, size);
  }

  /** What a request yields: a safe one the bytes of the device, any other one whatever
      the image holds from the position of its first byte on. */
  ghost predicate Delivers(f: Format, bits: seq<bool>, src: seq<byte>, base: nat, image: seq<byte>,
                           block: nat, size: nat, offset: nat, buf: seq<byte>)
    requires 0 < f.blockSize
  {
    var first, x := block + offset / f.blockSize, offset % f.blockSize;
    if SafeRequest(f, size, offset) then
      f.Bytes(block) + offset + size <= |src|
      && buf == src[f.Bytes(block) + offset..f.Bytes(block) + offset + size]
    else
      first <= |bits| && buf == Pread(image, base + f.Offset(Rank(bits, first)) + x, size)
  }

  lemma DeliversIntro(f: Format, bits: seq<bool>, src: seq<byte>, base: nat, image: seq<byte>,
                      block: nat, size: nat, offset: nat, q: nat, x: nat, buf: seq<byte>)
    requires 0 < f.blockSize && q == offset / f.blockSize && x == offset % f.blockSize && block + q <= |bits|
    requires f.Bytes(block) + offset == f.Bytes(block + q) + x && f.Bytes(block + q) + x + size <= |src|
    requires f.blockSize < size || x + size <= f.blockSize ==>
               buf == src[f.Bytes(block + q) + x..f.Bytes(block + q) + x + size]
    requires size <= f.blockSize < x + size ==>
               buf == Pread(image, base + f.Offset(Rank(bits, block + q)) + x, size)
    ensures Delivers(f, bits, src, base, image, block, size, offset, buf)
  {
    hide Gather, Rank, Format.Bytes, Format.Offset, Pread;
  }

  /** `read_blocks_data` for a request inside a file. */
  method ReadBlocksData(f: Format, bits: seq<bool>, ghost src: seq<byte>, image: seq<byte>, base: nat,
                        block: nat, ghost n: nat, size: nat, offset: nat)
    returns (r: Option<seq<byte>>)
    requires f.Valid() && f.Bytes(|bits|) <= |src| && IsImageOf(f, bits, src, base, image)
    requires IsRun(bits, block, n) && offset + size <= f.Bytes(n) && offset < f.Bytes(n)
    ensures r.None? <==> f.perCs == 0 && (0 < size || 0 < offset)
    ensures r.Some? ==> Delivers(f, bits, src, base, image, block, size, offset, r.value)
  {
    hide Gather, Rank, Image, Format.Bytes, Format.Offset, IsImageOf, Format.InGroup, Pread, SafeRequest, Delivers;
    RunOnDevice(f, bits, |src|, block, n);
    OffsetInRun(f, bits, block, n, offset);
    var skipBlock, skipSize := offset / f.blockSize, offset % f.blockSize;
    if size == 0 {
      NothingDelivered(f, bits, src, base, image, block, offset);
      return if f.perCs == 0 && (0 < skipSize || 1 <= skipBlock) then None else Some([]);
    }
    if f.perCs == 0 {
      return None;
    }
    RunPart(f, bits, block, n, skipBlock);
    var buf := ReadFrom(f, bits, src, image, base, block + skipBlock, n - skipBlock, skipSize, size,
                        0 < skipSize || 1 <= skipBlock);
    DeliversIntro(f, bits, src, base, image, block, size, offset, skipBlock, skipSize, buf);
    r := Some(buf);
  }

  /** An empty request yields nothing. */
  lemma NothingDelivered(f: Format, bits: seq<bool>, src: seq<byte>, base: nat, image: seq<byte>,
                         block: nat, offset: nat)
    requires 0 < f.blockSize && f.Bytes(block) + offset <= |src|
    ensures Delivers(f, bits, src, base, image, block, 0, offset, [])
  {
    DivNonNegative(offset, f.blockSize);
  }

  /** `read_block` on the file named after `block`: a request past the end of the file is
      cut, one that starts past it yields nothing. */
  method ReadFile(f: Format, bits: seq<bool>, ghost src: seq<byte>, image: seq<byte>, base: nat,
                  block: nat, size: nat, offset: nat)
    returns (r: Option<seq<byte>>)
    requires f.Valid() && f.Bytes(|bits|) <= |src| && IsImageOf(f, bits, src, base, image)
    requires block < |bits|
    ensures f.Bytes(RunLength(bits, block)) <= offset ==> r == Some([])
    ensures var length := f.Bytes(RunLength(bits, block));
            var count := if offset + size <= length then size else length - offset;
            offset < length ==>
              && (r.None? <==> f.perCs == 0 && (0 < size || 0 < offset))
              && (r.Some? ==> Delivers(f, bits, src, base, image, block, count, offset, r.value))
  {
    hide Gather, Rank, Image, Format.Bytes, Format.Offset, IsImageOf, Format.InGroup, Pread, SafeRequest, Delivers,
         RunLength;
    ghost var n := RunLength(bits, block);
    var len := GetFileSize(f, bits, block);
    RunOnDevice(f, bits, |src|, block, n);
    if len <= offset {
      return Some([]);
    }
    var count := if offset + size <= len then size else len - offset;
    r := ReadBlocksData(f, bits, src, image, base, block, n, count, offset);
  }

  // ----- the directory

  /** A file starts at every used block that does not follow a used block. */
  predicate IsRunStart(bits: seq<bool>, b: nat) {
    b < |bits| && bits[b] && (b == 0 || !bits[b - 1])
  }

  /** The starts of files among the first `n` blocks. */
  function RunStarts(bits: seq<bool>, n: nat): seq<nat> {
    if n == 0 then [] else RunStarts(bits, n - 1) + (if IsRunStart(bits, n - 1) then [n - 1] else [])
  }

  lemma {:induction false} RunStartsGap(bits: seq<bool>, m: nat, n: nat)
    requires m <= n
    requires forall b: nat :: m <= b < n ==> !IsRunStart(bits, b)
    ensures RunStarts(bits, n) == RunStarts(bits, m)
  {
    if m < n {
      RunStartsGap(bits, m, n - 1);
    }
  }

  /** Every maximal run is listed once, in order, by its first block. */
  lemma {:induction false} RunStartsExact(bits: seq<bool>, n: nat)
    ensures forall b: nat :: b in RunStarts(bits, n) <==> b < n && IsRunStart(bits, b)
    ensures forall i, j :: 0 <= i < j < |RunStarts(bits, n)| ==> RunStarts(bits, n)[i] < RunStarts(bits, n)[j]
  {
    if 0 < n {
      RunStartsExact(bits, n - 1);
      var before, all := RunStarts(bits, n - 1), RunStarts(bits, n);
      forall i, j | 0 <= i < j < |all|
        ensures all[i] < all[j]
      {
        assert all[i] in before && (j < |before| ==> all[j] == before[j]);
      }
    }
  }

  /** `readdir_block`: the block numbers behind the names that are listed. */
  method ListFiles(f: Format, bits: seq<bool>) returns (starts: seq<nat>)
    requires 0 < f.blockSize
    ensures starts == RunStarts(bits, |bits|)
  {
    hide RunStarts;
    starts := [];
    var block := 0;
    RunStartsStep(bits, 0);
    while block < |bits|
      invariant starts == RunStarts(bits, if block <= |bits| then block else |bits|)
      invariant 0 < block <= |bits| ==> !bits[block - 1]
      decreases |bits| - block
    {
      RunStartsStep(bits, block);
      if bits[block] {
        starts := starts + [block];
        ghost var n := RunLength(bits, block);
        var size := GetFileSize(f, bits, block);
        WholeNumber(f, n);
        RunStartsGap(bits, block + 1, if block + n + 1 <= |bits| then block + n + 1 else |bits|);
        block := block + size / f.blockSize;
      }
      block := block + 1;
    }
  }

  lemma RunStartsStep(bits: seq<bool>, n: nat)
    ensures RunStarts(bits, 0) == []
    ensures RunStarts(bits, n + 1) == if IsRunStart(bits, n) then RunStarts(bits, n) + [n] else RunStarts(bits, n)
  {
  }

  lemma WholeNumber(f: Format, n: nat)
    requires 0 < f.blockSize
    ensures f.Bytes(n) / f.blockSize == n
  {
    BytesIsProduct(f, n);
    DivUnique(f.Bytes(n), f.blockSize, n, 0);
  }
}
