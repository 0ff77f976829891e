/** What cloning and restoring promise together. */
module ImageRoundTrip {
  import opened Sequences
  import opened ImageLayout
  import opened ImageClone
  import opened ImageRestore

  /** A data area read block by block at the offsets of the layout gives the blocks back. */
  lemma StreamOfImage(f: Format, blocks: seq<seq<byte>>)
    requires f.Valid() && Sized(f, blocks)
    ensures StreamBlocks(f, Image(f, blocks), |blocks|) == blocks
  {
    forall i | 0 <= i < |blocks|
      ensures StreamBlock(f, Image(f, blocks), i) == blocks[i]
    {
      BlockInImage(f, blocks, i);
      StreamBlockInside(f, Image(f, blocks), i);
    }
  }

  lemma ChecksOfImage(f: Format, blocks: seq<seq<byte>>)
    requires f.Valid() && Sized(f, blocks)
    ensures ChecksHold(f, Image(f, blocks), blocks, |blocks|)
  {
    forall i | 0 < i <= |blocks| && f.Closes(i)
      ensures CheckHolds(f, Image(f, blocks), blocks, i)
    {
      BlockInImage(f, blocks, i - 1);
    }
  }

  lemma TailOfImage(f: Format, blocks: seq<seq<byte>>)
    requires f.Valid() && Sized(f, blocks) && 0 < f.InGroup(|blocks|)
    ensures TailHolds(f, Image(f, blocks), blocks)
  {
    BodyLength(f, blocks, |blocks|);
    ConcatParts(Body(f, blocks, |blocks|), Tail(f, blocks));
  }

  /** Every image a clone writes is accepted, whatever buffer the restore uses: no read
      asks for more bytes than are left and no comparison fails. */
  lemma CloneIsAccepted(f: Format, blocks: seq<seq<byte>>, capacity: nat, ignoreCrc: bool)
    requires f.Valid() && Sized(f, blocks) && 0 < capacity
    ensures Accepts(f, Image(f, blocks), |blocks|, capacity, ignoreCrc)
  {
    hide Image, Format.Valid, ChecksHold, TailHolds, StreamBlocks, Format.Offset, Format.InGroup;
    StreamOfImage(f, blocks);
    ChecksOfImage(f, blocks);
    ImageLength(f, blocks);
    if 0 < f.perCs {
      InGroupIsMod(f, |blocks|);
      if 0 < f.InGroup(|blocks|) {
        TailOfImage(f, blocks);
      }
    }
  }

  /** The restore reads a cloned data area to its end exactly when there is no tail
      checksum or the tail checksum is one it looks at. */
  lemma WholeImageRead(f: Format, blocks: seq<seq<byte>>, capacity: nat)
    requires f.Valid() && Sized(f, blocks) && 0 < capacity
    ensures Needed(f, |blocks|, capacity) == |Image(f, blocks)|
            <==> f.csSize == 0 || |blocks| % f.perCs == 0 || TailRead(f, |blocks|, capacity)
  {
    ImageLength(f, blocks);
    if 0 < f.perCs {
      InGroupIsMod(f, |blocks|);
    }
  }

  /** A buffer of two blocks and a checksum every three: the tail checksum of four
      blocks is written but never compared. */
  lemma TailCanBeSkipped(f: Format)
    requires f.perCs == 3
    ensures f.InGroup(4) == 1 && !TailRead(f, 4, 2)
  {
    InGroupIsMod(f, 4);
  }

  /** What follows the partition in a restored target. */
  ghost function After(f: Format, total: nat, pipe: bool, background: seq<byte>, deviceSize: nat): seq<byte>
    requires f.Bytes(total) <= |background|
  {
    if !pipe then background[f.Bytes(total)..]
    else if f.Bytes(total) < deviceSize then Zeros(deviceSize - f.Bytes(total)) else []
  }

  /** The restored partition lies between what precedes and what follows it. */
  lemma RestoredParts(f: Format, bits: seq<bool>, blocks: seq<seq<byte>>, pipe: bool, head: seq<byte>,
                      background: seq<byte>, deviceSize: nat)
    requires Rank(bits, |bits|) <= |blocks| && Sized(f, blocks)
    requires f.Bytes(|bits|) <= |background|
    ensures Restored(f, bits, blocks, pipe, head, background, deviceSize)
            == head + (Assembled(f, bits, blocks, background, |bits|)
                       + After(f, |bits|, pipe, background, deviceSize))
  {
    hide Assembled, Rank, Format.Bytes, Sized, Zeros;
    var a, t := Assembled(f, bits, blocks, background, |bits|), After(f, |bits|, pipe, background, deviceSize);
    ConcatAssociates(head, a, t);
    ConcatAssociates(head + a, [], t);
  }

  /** What block `b` of the restored partition must be: the source's block where it is
      used, and what was there before (zeros on a pipe) where it is not. */
  ghost predicate BlockRestored(f: Format, bits: seq<bool>, src: seq<byte>, background: seq<byte>,
                                partition: seq<byte>, b: nat)
    requires b < |bits|
  {
    && f.Bytes(b + 1) <= |src| && f.Bytes(b + 1) <= |background| && f.Bytes(b + 1) <= |partition|
    && BlockAt(f, partition, b) == if bits[b] then BlockAt(f, src, b) else BlockAt(f, background, b)
  }

  /** The promise of a restore: every block of the partition is as `BlockRestored` says,
      and the bytes around the partition are kept (on a pipe they are zeros). */
  ghost predicate Faithful(f: Format, bits: seq<bool>, src: seq<byte>, pipe: bool, head: seq<byte>,
                           background: seq<byte>, deviceSize: nat, after: seq<byte>)
    requires f.Bytes(|bits|) <= |background|
  {
    && |head| + f.Bytes(|bits|) <= |after|
    && after[..|head|] == head
    && (forall b :: 0 <= b < |bits| ==> BlockRestored(f, bits, src, background, after[|head|..], b))
    && after[|head|..][f.Bytes(|bits|)..] == After(f, |bits|, pipe, background, deviceSize)
  }

  lemma BlockAtPrefix(f: Format, a: seq<byte>, t: seq<byte>, b: nat)
    requires f.Bytes(b + 1) <= |a|
    ensures BlockAt(f, a + t, b) == BlockAt(f, a, b)
  {
  }

  lemma RestoredBlock(f: Format, bits: seq<bool>, src: seq<byte>, background: seq<byte>, t: seq<byte>, b: nat)
    requires f.Bytes(|bits|) <= |src| && f.Bytes(|bits|) <= |background| && b < |bits|
    ensures BlockRestored(f, bits, src, background,
                          Assembled(f, bits, Gather(f, bits, src, |bits|), background, |bits|) + t, b)
  {
    hide Assembled, Gather, Rank, Format.Bytes, BlockAt, Sized;
    var blocks := Gather(f, bits, src, |bits|);
    AssembledAt(f, bits, blocks, background, |bits|, b);
    BlockAtPrefix(f, Assembled(f, bits, blocks, background, |bits|), t, b);
    if bits[b] {
      GatherAt(f, bits, src, |bits|, b);
    }
  }

  /** Restoring the used blocks of `src` is faithful to `src`. */
  lemma RestoredIsFaithful(f: Format, bits: seq<bool>, src: seq<byte>, pipe: bool, head: seq<byte>,
                           background: seq<byte>, deviceSize: nat)
    requires f.Bytes(|bits|) <= |src| && f.Bytes(|bits|) <= |background|
    ensures Faithful(f, bits, src, pipe, head, background, deviceSize,
                     Restored(f, bits, Gather(f, bits, src, |bits|), pipe, head, background, deviceSize))
  {
    hide Assembled, Gather, Rank, Format.Bytes, Restored, BlockRestored, After;
    var blocks := Gather(f, bits, src, |bits|);
    var a, t := Assembled(f, bits, blocks, background, |bits|), After(f, |bits|, pipe, background, deviceSize);
    RestoredParts(f, bits, blocks, pipe, head, background, deviceSize);
    ConcatParts(head, a + t);
    ConcatParts(a, t);
    forall b | 0 <= b < |bits|
      ensures BlockRestored(f, bits, src, background, a + t, b)
    {
      RestoredBlock(f, bits, src, background, t, b);
    }
  }

  /** Cloning a device and restoring the image, with any two buffer sizes: the restore
      succeeds, every used block comes back to its own place, and nothing else changes
      (on a pipe, everything else is zero). */
  method CloneThenRestore(f: Format, bits: seq<bool>, src: seq<byte>, cloneBuffer: nat, restoreBuffer: nat,
                          ignoreCrc: bool, target: Target, offset: nat, deviceSize: nat)
    returns (status: Status)
    requires f.Valid() && f.Bytes(|bits|) <= |src|
    requires BatchFits(f, Capacity(f, cloneBuffer)) && BatchFits(f, Capacity(f, restoreBuffer))
    requires !TailTooLarge(f, Rank(bits, |bits|), Capacity(f, restoreBuffer))
    requires target.pos <= |target.contents|
    requires target.pipe ==> target.pos == |target.contents|
    requires !target.pipe ==> target.pos + offset + f.Bytes(|bits|) <= |target.contents|
    modifies target
    ensures status == Ok
    ensures Faithful(f, bits, src, target.pipe,
                     old(Head(target.pipe, target.contents, target.pos, offset)),
                     old(Background(f, |bits|, target.pipe, target.contents, target.pos, offset)),
                     deviceSize, target.contents)
  {
    hide Format.Bytes, Rank, Gather, Image, StreamBlocks, Restored, Zeros, BatchFits, Capacity, Accepts, Faithful, Head;
    hide TailTooLarge;
    ghost var blocks := Gather(f, bits, src, |bits|);
    ghost var head := Head(target.pipe, target.contents, target.pos, offset);
    ghost var background := Background(f, |bits|, target.pipe, target.contents, target.pos, offset);
    var image, copied := Clone(f, bits, src, cloneBuffer);
    CloneIsAccepted(f, blocks, Capacity(f, restoreBuffer), ignoreCrc);
    StreamOfImage(f, blocks);
    RestoredIsFaithful(f, bits, src, target.pipe, head, background, deviceSize);
    status := Restore(f, bits, image, restoreBuffer, ignoreCrc, target, offset, deviceSize);
  }
}
