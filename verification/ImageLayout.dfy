/** The layout of the data area of a partclone image.

The data area is the used blocks in device order.  When `perCs` (the source's
`blocks_per_checksum`) is not zero, a checksum follows every `perCs` blocks, and
one more checksum follows the last group when that group is not full.

Positions are defined block by block; the closed forms the source computes with
are lemmas (`InGroupIsMod`, `OffsetClosedForm`, `BlocksToBytesExact`).
 */
module ImageLayout {
  import opened Arithmetic
  import opened Sequences

  const UINT32_LIMIT := 0x1_0000_0000

  /** The image options that decide the layout.  `digest` is the checksum of the
      bytes fed since the last seeding; nothing is assumed of it but its size. */
  datatype Format = Format(blockSize: nat, csSize: nat, perCs: nat, reseed: bool,
                           digest: seq<byte> -> seq<byte>)
  {
    /** What `load_image_desc_v2` and the option parser insist on. */
    ghost predicate Valid() {
      && 0 < blockSize
      && perCs < UINT32_LIMIT
      && (0 < csSize ==> 0 < perCs)
      && forall s :: |digest(s)| == csSize
    }

    /** The room of `n` blocks in bytes: `n * blockSize`, see `BytesIsProduct`. */
    function Bytes(n: nat): nat {
      if n == 0 then 0 else Bytes(n - 1) + blockSize
    }

    /** How many of `n` blocks belong to a group that is still open (`blocks_in_cs`). */
    function InGroup(n: nat): (r: nat)
      ensures 0 < perCs ==> r < perCs
    {
      if n == 0 || perCs == 0 || InGroup(n - 1) + 1 == perCs then 0 else InGroup(n - 1) + 1
    }

    /** A checksum is recorded right after block number `n` (counted from one). */
    predicate Closes(n: nat) {
      0 < n && 0 < perCs && InGroup(n) == 0
    }

    /** Where block number `n` (counted from zero) starts in the data area. */
    function Offset(n: nat): nat {
      if n == 0 then 0 else Offset(n - 1) + blockSize + (if Closes(n) then csSize else 0)
    }

    /** `get_checksum_count` */
    function ChecksumCount(n: nat): nat {
      if perCs == 0 then 0 else n / perCs
    }

    /** `cnv_blocks_to_bytes`; the product of count and size is a 32-bit one. */
    function BlocksToBytes(offset: nat, count: nat): int {
      (count * blockSize) % UINT32_LIMIT
      + (ChecksumCount(offset + count) - ChecksumCount(offset)) * csSize
    }
  }

  ghost predicate Sized(f: Format, blocks: seq<seq<byte>>) {
    forall i :: 0 <= i < |blocks| ==> |blocks[i]| == f.blockSize
  }

  function Flat(blocks: seq<seq<byte>>): seq<byte> {
    if blocks == [] then [] else Flat(blocks[..|blocks| - 1]) + blocks[|blocks| - 1]
  }

  /** The bytes the running checksum has seen once the first `n` blocks are done. */
  function Fed(f: Format, blocks: seq<seq<byte>>, n: nat): seq<byte>
    requires n <= |blocks|
  {
    if n == 0 || (f.reseed && f.Closes(n)) then [] else Fed(f, blocks, n - 1) + blocks[n - 1]
  }

  /** The checksum recorded after block number `n` (counted from one). */
  function Recorded(f: Format, blocks: seq<seq<byte>>, n: nat): seq<byte>
    requires 0 < n <= |blocks|
  {
    f.digest(Fed(f, blocks, n - 1) + blocks[n - 1])
  }

  /** What block number `n` (counted from zero) adds to the data area. */
  function Piece(f: Format, blocks: seq<seq<byte>>, n: nat): seq<byte>
    requires n < |blocks|
  {
    blocks[n] + (if f.Closes(n + 1) then Recorded(f, blocks, n + 1) else [])
  }

  /** The first `n` blocks with the checksums that close full groups. */
  function Body(f: Format, blocks: seq<seq<byte>>, n: nat): seq<byte>
    requires n <= |blocks|
  {
    if n == 0 then [] else Body(f, blocks, n - 1) + Piece(f, blocks, n - 1)
  }

  /** The checksum of a last group that is not full. */
  function Tail(f: Format, blocks: seq<seq<byte>>): seq<byte> {
    if 0 < f.InGroup(|blocks|) then f.digest(Fed(f, blocks, |blocks|)) else []
  }

  function Image(f: Format, blocks: seq<seq<byte>>): seq<byte> {
    Body(f, blocks, |blocks|) + Tail(f, blocks)
  }

  // ----- closed forms

  lemma {:induction false} BytesIsProduct(f: Format, n: nat)
    ensures f.Bytes(n) == n * f.blockSize
  {
    if 0 < n {
      BytesIsProduct(f, n - 1);
      MulStep(n - 1, f.blockSize);
    }
  }

  lemma {:induction false} InGroupIsMod(f: Format, n: nat)
    requires 0 < f.perCs
    ensures f.InGroup(n) == n % f.perCs
  {
    if n == 0 {
      SmallMod(0, f.perCs);
    } else {
      InGroupIsMod(f, n - 1);
      DivStep(n - 1, f.perCs);
    }
  }

  /** The position the readers compute: block bytes before it plus one checksum per
      full group before it. */
  lemma {:induction false} OffsetClosedForm(f: Format, n: nat)
    ensures f.Offset(n) == n * f.blockSize + f.ChecksumCount(n) * f.csSize
  {
    if n == 0 {
      if 0 < f.perCs { SmallMod(0, f.perCs); }
    } else {
      OffsetClosedForm(f, n - 1);
      MulStep(n - 1, f.blockSize);
      if 0 < f.perCs {
        InGroupIsMod(f, n);
        DivStep(n - 1, f.perCs);
        MulStep(f.ChecksumCount(n - 1), f.csSize);
      }
    }
  }

  lemma BatchAlgebra(o: nat, c: nat, size: nat, a: nat, b: nat, cs: nat)
    ensures ((o + c) * size + a * cs) - (o * size + b * cs) == c * size + (a - b) * cs
  {
    MulDistributes(o, c, size);
    MulDistributes(a - b, b, cs);
  }

  lemma Wraps(n: nat)
    ensures n % UINT32_LIMIT == n <==> n < UINT32_LIMIT
  {
  }

  /** The size computed for a batch is the room the batch takes in the data area
      exactly when the 32-bit product does not wrap. */
  lemma BlocksToBytesExact(f: Format, offset: nat, count: nat)
    ensures f.BlocksToBytes(offset, count) == f.Offset(offset + count) - f.Offset(offset)
            <==> f.Bytes(count) < UINT32_LIMIT
  {
    OffsetClosedForm(f, offset);
    OffsetClosedForm(f, offset + count);
    BytesIsProduct(f, count);
    BatchAlgebra(offset, count, f.blockSize, f.ChecksumCount(offset + count), f.ChecksumCount(offset), f.csSize);
    Wraps(count * f.blockSize);
  }

  /** The room the data area is said to need when the free space of the target is checked; the count of used
      blocks is handed over in 32 bits. */
  function SpaceChecked(f: Format, used: nat): int {
    f.BlocksToBytes(0, used % UINT32_LIMIT)
  }

  lemma SpaceAtMost(f: Format, n: nat)
    requires 0 < f.blockSize
    ensures f.BlocksToBytes(0, n) <= f.Offset(n)
  {
    OffsetClosedForm(f, n);
    MulMonotone(0, n, f.blockSize);
    if 0 < f.perCs { SmallMod(0, f.perCs); }
  }

  lemma BytesAtLeast(f: Format, n: nat)
    requires 0 < f.blockSize
    ensures n <= f.Bytes(n)
  {
    BytesIsProduct(f, n);
    MulMonotone(1, f.blockSize, n);
  }

  /** The free space is checked for the right size exactly when the used blocks together are less than four
      gigabytes. */
  lemma SpaceCheckedExact(f: Format, used: nat)
    requires 0 < f.blockSize
    ensures SpaceChecked(f, used) == f.Offset(used) <==> f.Bytes(used) < UINT32_LIMIT
  {
    hide Format.Offset, Format.Bytes, Format.BlocksToBytes;
    OffsetClosedForm(f, 0);
    BytesAtLeast(f, used);
    var n := used % UINT32_LIMIT;
    if used < UINT32_LIMIT {
      BlocksToBytesExact(f, 0, used);
      if 0 < f.perCs { SmallMod(0, f.perCs); }
    } else {
      SpaceAtMost(f, n);
      OffsetMonotone(f, n, used);
    }
  }

  /** For 2^20 used blocks of 4096 bytes only the checksums are counted: four gigabytes are missing. */
  lemma SpaceCheckedWraps(f: Format, used: nat)
    requires f.blockSize == 4096 && used == 0x10_0000
    ensures f.Offset(used) == SpaceChecked(f, used) + 0x1_0000_0000
  {
    OffsetClosedForm(f, used);
    if 0 < f.perCs { SmallMod(0, f.perCs); }
  }

  lemma {:induction false} BytesSum(f: Format, m: nat, n: nat)
    ensures f.Bytes(m + n) == f.Bytes(m) + f.Bytes(n)
  {
    if 0 < n {
      BytesSum(f, m, n - 1);
      assert m + n - 1 == m + (n - 1);
    }
  }

  lemma BytesStep(f: Format, n: nat)
    ensures f.Bytes(n + 1) == f.Bytes(n) + f.blockSize
  {
  }

  lemma {:induction false} BytesMonotone(f: Format, m: nat, n: nat)
    requires m <= n
    ensures f.Bytes(m) <= f.Bytes(n)
    ensures m < n ==> f.Bytes(m) + f.blockSize <= f.Bytes(n)
  {
    if m < n {
      BytesMonotone(f, m, n - 1);
    }
  }

  lemma OffsetStep(f: Format, n: nat)
    ensures f.Offset(n + 1) == f.Offset(n) + f.blockSize + (if f.Closes(n + 1) then f.csSize else 0)
  {
  }

  lemma {:induction false} OffsetMonotone(f: Format, m: nat, n: nat)
    requires m <= n
    ensures f.Offset(m) <= f.Offset(n)
    ensures m < n ==> f.Offset(m) + f.blockSize <= f.Offset(n)
  {
    if m < n {
      OffsetMonotone(f, m, n - 1);
    }
  }

  /** However a batch is aligned, it holds at most one checksum more than a batch
      that starts a group, which is the slack `cs_size` the buffers are given. */
  lemma BatchRoom(f: Format, offset: nat, count: nat)
    ensures f.Offset(offset + count) - f.Offset(offset) <= f.Offset(count) + f.csSize
  {
    OffsetClosedForm(f, offset);
    OffsetClosedForm(f, count);
    OffsetClosedForm(f, offset + count);
    MulDistributes(offset, count, f.blockSize);
    if 0 < f.perCs {
      DivSum(offset, count, f.perCs);
      var a, b, c := f.ChecksumCount(offset + count), f.ChecksumCount(offset), f.ChecksumCount(count);
      MulMonotone(a, b + c + 1, f.csSize);
      MulDistributes(b, c, f.csSize);
      MulStep(b + c, f.csSize);
    }
  }

  /** The buffers, sized for a full batch plus one checksum, have room for any batch. */
  lemma BufferRoom(f: Format, offset: nat, count: nat, capacity: nat)
    requires count <= capacity
    ensures f.Offset(offset + count) - f.Offset(offset) <= f.Offset(capacity) + f.csSize
  {
    BatchRoom(f, offset, count);
    OffsetMonotone(f, count, capacity);
  }

  // ----- lemmas about the layout

  lemma {:induction false} BodyLength(f: Format, blocks: seq<seq<byte>>, n: nat)
    requires f.Valid() && Sized(f, blocks) && n <= |blocks|
    ensures |Body(f, blocks, n)| == f.Offset(n)
  {
    if 0 < n {
      BodyLength(f, blocks, n - 1);
    }
  }

  lemma BodyStep(f: Format, blocks: seq<seq<byte>>, n: nat)
    requires n < |blocks|
    ensures Body(f, blocks, n + 1) == Body(f, blocks, n) + Piece(f, blocks, n)
  {
  }

  lemma {:induction false} BodyPrefix(f: Format, blocks: seq<seq<byte>>, m: nat, n: nat)
    requires m <= n <= |blocks|
    ensures Body(f, blocks, m) <= Body(f, blocks, n)
  {
    if m < n {
      BodyPrefix(f, blocks, m, n - 1);
    }
  }

  lemma FlatStep(blocks: seq<seq<byte>>, block: seq<byte>)
    ensures Flat(blocks + [block]) == Flat(blocks) + block
  {
    assert (blocks + [block])[..|blocks|] == blocks;
  }

  lemma FlatRun(blocks: seq<seq<byte>>, r: nat, k: nat)
    requires r <= k < |blocks|
    ensures Flat(blocks[r..k + 1]) == Flat(blocks[r..k]) + blocks[k]
  {
    assert blocks[r..k + 1] == blocks[r..k] + [blocks[k]];
    FlatStep(blocks[r..k], blocks[k]);
  }

  /** The number of the first block that the running checksum covers after `n` blocks. */
  function GroupStart(f: Format, n: nat): (start: int) {
    if f.reseed && 0 < f.perCs then n - f.InGroup(n) else 0
  }

  /** The closed form of `Fed`: exactly the blocks since the last seeding. */
  lemma {:induction false} FedIsGroup(f: Format, blocks: seq<seq<byte>>, n: nat)
    requires n <= |blocks|
    ensures 0 <= GroupStart(f, n) <= n
    ensures Fed(f, blocks, n) == Flat(blocks[GroupStart(f, n)..n])
  {
    if n == 0 || (f.reseed && f.Closes(n)) {
      assert blocks[GroupStart(f, n)..n] == [];
    } else {
      FedIsGroup(f, blocks, n - 1);
      FlatRun(blocks, GroupStart(f, n), n - 1);
    }
  }

  /** What one more block does to the group and its checksum. */
  lemma GroupStep(f: Format, blocks: seq<seq<byte>>, n: nat)
    requires n < |blocks|
    ensures f.Closes(n + 1) <==> 0 < f.perCs && f.InGroup(n) + 1 == f.perCs
    ensures f.perCs == 0 ==> f.InGroup(n) == 0
    ensures f.InGroup(n + 1) == if f.perCs == 0 || f.Closes(n + 1) then 0 else f.InGroup(n) + 1
    ensures Fed(f, blocks, n + 1) == if f.reseed && f.Closes(n + 1) then [] else Fed(f, blocks, n) + blocks[n]
    ensures Recorded(f, blocks, n + 1) == f.digest(Fed(f, blocks, n) + blocks[n])
  {
  }

  /** Every block sits at its offset, followed by the checksum of its group when it
      closes one. */
  lemma BlockInImage(f: Format, blocks: seq<seq<byte>>, i: nat)
    requires f.Valid() && Sized(f, blocks) && i < |blocks|
    ensures f.Offset(i) + f.blockSize <= f.Offset(i + 1) <= |Image(f, blocks)|
    ensures Image(f, blocks)[f.Offset(i)..f.Offset(i) + f.blockSize] == blocks[i]
    ensures f.Closes(i + 1) ==>
              Image(f, blocks)[f.Offset(i) + f.blockSize..f.Offset(i + 1)] == Recorded(f, blocks, i + 1)
  {
    hide Body, Recorded, Tail, Format.InGroup, Format.Closes, Format.Offset;
    BodyLength(f, blocks, i);
    BodyLength(f, blocks, i + 1);
    BodyPrefix(f, blocks, i + 1, |blocks|);
    BodyStep(f, blocks, i);
    var cs := if f.Closes(i + 1) then Recorded(f, blocks, i + 1) else [];
    InnerSlices(Body(f, blocks, i), blocks[i], cs, Image(f, blocks));
  }

  lemma ImageLength(f: Format, blocks: seq<seq<byte>>)
    requires f.Valid() && Sized(f, blocks)
    ensures |Image(f, blocks)|
            == f.Offset(|blocks|) + (if 0 < f.InGroup(|blocks|) then f.csSize else 0)
  {
    BodyLength(f, blocks, |blocks|);
  }

  // ----- the used blocks of a device

  /** How many of the first `n` blocks are used. */
  function Rank(bits: seq<bool>, n: nat): nat
    requires n <= |bits|
  {
    if n == 0 then 0 else Rank(bits, n - 1) + (if bits[n - 1] then 1 else 0)
  }

  lemma RankStep(bits: seq<bool>, n: nat)
    requires n < |bits|
    ensures Rank(bits, n + 1) == Rank(bits, n) + (if bits[n] then 1 else 0)
  {
  }

  /** Block `b` of a device. */
  function BlockAt(f: Format, src: seq<byte>, b: nat): (block: seq<byte>)
    requires f.Bytes(b + 1) <= |src|
    ensures |block| == f.blockSize
  {
    src[f.Bytes(b)..f.Bytes(b + 1)]
  }

  /** The used blocks among the first `n`, in order. */
  function Gather(f: Format, bits: seq<bool>, src: seq<byte>, n: nat): (blocks: seq<seq<byte>>)
    requires n <= |bits| && f.Bytes(n) <= |src|
    ensures |blocks| == Rank(bits, n)
    ensures Sized(f, blocks)
  {
    if n == 0 then []
    else Gather(f, bits, src, n - 1) + (if bits[n - 1] then [BlockAt(f, src, n - 1)] else [])
  }

  lemma {:induction false} RankMonotone(bits: seq<bool>, m: nat, n: nat)
    requires m <= n <= |bits|
    ensures Rank(bits, m) <= Rank(bits, n) <= Rank(bits, m) + (n - m)
  {
    if m < n {
      RankMonotone(bits, m, n - 1);
    }
  }

  lemma {:induction false} RankGap(bits: seq<bool>, m: nat, n: nat)
    requires m <= n <= |bits|
    ensures Rank(bits, m) == Rank(bits, n) <==> forall i :: m <= i < n ==> !bits[i]
  {
    if m < n {
      RankGap(bits, m, n - 1);
      RankMonotone(bits, m, n - 1);
    }
  }

  lemma {:induction false} RankRun(bits: seq<bool>, m: nat, n: nat)
    requires m <= n <= |bits|
    requires forall i :: m <= i < n ==> bits[i]
    ensures Rank(bits, n) == Rank(bits, m) + (n - m)
  {
    if m < n {
      RankRun(bits, m, n - 1);
    }
  }

  /** The used block `b` comes out as number `Rank(bits, b)`. */
  lemma {:induction false} GatherAt(f: Format, bits: seq<bool>, src: seq<byte>, n: nat, b: nat)
    requires n <= |bits| && f.Bytes(n) <= |src|
    requires b < n && bits[b]
    ensures f.Bytes(b + 1) <= |src|
    ensures Rank(bits, b) < Rank(bits, n)
    ensures Gather(f, bits, src, n)[Rank(bits, b)] == BlockAt(f, src, b)
  {
    BytesMonotone(f, b + 1, n);
    if b < n - 1 {
      GatherAt(f, bits, src, n - 1, b);
    }
  }
}
