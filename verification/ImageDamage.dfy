/** What the CRC-32 checksums of an image are for: which changes of up to four neighbouring bytes, anywhere in
    the data area, are noticed by a restore. */
module ImageDamage {
  import opened Sequences
  import opened ImageLayout
  import opened ImageClone
  import opened ImageRestore
  import opened ImageRoundTrip
  import Crc32

  /** The format of images with `CSM_CRC32`. */
  function CrcFormat(blockSize: nat, perCs: nat, reseed: bool): Format {
    Format(blockSize, 4, perCs, reseed, Crc32.Digest)
  }

  ghost predicate IsCrc(f: Format) {
    f.Valid() && f.digest == Crc32.Digest && f.csSize == 4 && 0 < f.perCs
  }

  lemma CrcFormatValid(blockSize: nat, perCs: nat, reseed: bool)
    requires 0 < blockSize && 0 < perCs < UINT32_LIMIT
    ensures IsCrc(CrcFormat(blockSize, perCs, reseed))
  {
    hide Crc32.Digest;
  }

  // ----- groups of blocks

  /** Inside a group blocks lie end to end. */
  lemma {:induction false} GroupRun(f: Format, a: nat, n: nat)
    requires f.InGroup(a) == 0 && a <= n < a + f.perCs
    ensures f.InGroup(n) == n - a && f.Offset(n) == f.Offset(a) + f.Bytes(n - a)
    decreases n
  {
    if a < n {
      GroupRun(f, a, n - 1);
    }
  }

  /** The open group, if any, starts where the last full one ends. */
  lemma {:induction false} GroupBegins(f: Format, n: nat)
    requires 0 < f.perCs
    ensures f.InGroup(n) <= n && f.InGroup(n - f.InGroup(n)) == 0
  {
    if 0 < n {
      GroupBegins(f, n - 1);
    }
  }

  /** A full group ends with a checksum. */
  lemma GroupEnds(f: Format, a: nat)
    requires f.InGroup(a) == 0 && 0 < f.perCs
    ensures f.Closes(a + f.perCs) && f.Offset(a + f.perCs) == f.Offset(a) + f.Bytes(f.perCs) + f.csSize
  {
    GroupRun(f, a, a + f.perCs - 1);
    BytesStep(f, f.perCs - 1);
  }

  /** Every byte before the open group belongs to a full group or its checksum. */
  lemma {:induction false} FullGroupAt(f: Format, p: nat, total: nat) returns (a: nat)
    requires 0 < f.perCs && f.InGroup(total) <= total && p < f.Offset(total - f.InGroup(total))
    ensures f.InGroup(a) == 0 && a + f.perCs <= total && f.Offset(a) <= p < f.Offset(a + f.perCs)
    decreases total
  {
    GroupBegins(f, total - 1);
    var b := total - 1 - f.InGroup(total - 1);
    if p < f.Offset(b) {
      a := FullGroupAt(f, p, total - 1);
    } else {
      a := b;
    }
  }

  // ----- a group as one message

  /** The blocks that the checksum of the group from `a` on covers before the group: none, or all of them. */
  function CoveredFrom(f: Format, a: nat): nat {
    if f.reseed then a else 0
  }

  /** The bytes a checksum covers, followed by the checksum, for the group of the blocks `a` to `n`. */
  ghost function Message(f: Format, image: seq<byte>, blocks: seq<seq<byte>>, a: nat, n: nat): seq<byte>
    requires a <= n && a <= |blocks| && f.Offset(a) + f.Bytes(n - a) + 4 <= |image|
  {
    Flat(blocks[CoveredFrom(f, a)..a]) + image[f.Offset(a)..f.Offset(a) + f.Bytes(n - a) + 4]
  }

  /** The bytes of a group are its blocks. */
  lemma {:induction false} GroupBytes(f: Format, image: seq<byte>, blocks: seq<seq<byte>>, a: nat, n: nat)
    requires f.InGroup(a) == 0 && a <= n <= |blocks| && n - a <= f.perCs && blocks == StreamBlocks(f, image, |blocks|)
    requires f.Offset(a) + f.Bytes(n - a) <= |image|
    ensures image[f.Offset(a)..f.Offset(a) + f.Bytes(n - a)] == Flat(blocks[a..n])
    decreases n
  {
    hide Format.Offset, Format.InGroup, Flat, StreamBlocks, Format.Bytes;
    if n == a {
      EmptyGroup(f, blocks, a);
    } else {
      var k := n - 1 - a;
      GroupRun(f, a, n - 1);
      BytesStep(f, k);
      GroupBytes(f, image, blocks, a, n - 1);
      FlatRun(blocks, a, n - 1);
      StreamBlockInside(f, image, n - 1);
      StreamAt(f, image, blocks, n - 1);
      SliceStep(image, f.Offset(a), f.Offset(a) + f.Bytes(k), f.Offset(a) + f.Bytes(k + 1));
    }
  }

  lemma EmptyGroup(f: Format, blocks: seq<seq<byte>>, a: nat)
    requires a <= |blocks|
    ensures f.Bytes(0) == 0 && Flat(blocks[a..a]) == []
  {
  }

  lemma StreamAt(f: Format, image: seq<byte>, blocks: seq<seq<byte>>, i: nat)
    requires blocks == StreamBlocks(f, image, |blocks|) && i < |blocks|
    ensures blocks[i] == StreamBlock(f, image, i)
  {
  }

  /** The message is sealed exactly if the checksum behind the group is right. */
  lemma MessageSealedIff(f: Format, image: seq<byte>, blocks: seq<seq<byte>>, a: nat, n: nat)
    requires f.InGroup(a) == 0 && a < n <= |blocks| && n - a <= f.perCs && blocks == StreamBlocks(f, image, |blocks|)
    requires f.Offset(a) + f.Bytes(n - a) + 4 <= |image|
    ensures var e := f.Offset(a) + f.Bytes(n - a);
            Crc32.Sealed(Message(f, image, blocks, a, n)) <==>
              image[e..e + 4] == Crc32.Digest(Flat(blocks[CoveredFrom(f, a)..n]))
  {
    hide Format.Offset, Format.InGroup, Flat, StreamBlocks, Format.Bytes, Crc32.Digest;
    var g, e := CoveredFrom(f, a), f.Offset(a) + f.Bytes(n - a);
    GroupBytes(f, image, blocks, a, n);
    SliceStep(image, f.Offset(a), e, e + 4);
    SliceStep(blocks, g, a, n);
    FlatSplit(blocks[g..a], blocks[a..n]);
    var data, d := Flat(blocks[g..n]), image[e..e + 4];
    ConcatAssociates(Flat(blocks[g..a]), Flat(blocks[a..n]), d);
    ConcatParts(data, d);
    assert Message(f, image, blocks, a, n) == data + d;
  }

  lemma CoveredIsGroupStart(f: Format, a: nat, n: nat)
    requires f.InGroup(a) == 0 && a < n && 0 < f.perCs
    ensures n - a < f.perCs ==> GroupStart(f, n) == CoveredFrom(f, a)
    ensures n - a == f.perCs ==> GroupStart(f, n - 1) == CoveredFrom(f, a)
  {
    if n - a < f.perCs {
      GroupRun(f, a, n);
    } else if n - a == f.perCs {
      GroupRun(f, a, n - 1);
    }
  }

  lemma RecordedIsDigest(f: Format, blocks: seq<seq<byte>>, n: nat)
    requires 0 < n <= |blocks|
    ensures 0 <= GroupStart(f, n - 1) <= n - 1
    ensures Recorded(f, blocks, n) == f.digest(Flat(blocks[GroupStart(f, n - 1)..n]))
  {
    hide Flat, GroupStart;
    FedIsGroup(f, blocks, n - 1);
    FlatRun(blocks, GroupStart(f, n - 1), n - 1);
  }

  /** For a full group: the check of its checksum. */
  lemma FullGroupCheck(f: Format, image: seq<byte>, blocks: seq<seq<byte>>, a: nat)
    requires f.digest == Crc32.Digest && f.csSize == 4 && 0 < f.perCs && f.InGroup(a) == 0 && a + f.perCs <= |blocks|
    requires blocks == StreamBlocks(f, image, |blocks|) && f.Offset(|blocks|) <= |image|
    ensures f.Offset(a) + f.Bytes(f.perCs) + 4 == f.Offset(a + f.perCs) <= |image|
    ensures CheckHolds(f, image, blocks, a + f.perCs) <==> Crc32.Sealed(Message(f, image, blocks, a, a + f.perCs))
  {
    hide Format.Offset, Format.InGroup, Flat, StreamBlocks, Format.Bytes, Crc32.Digest, GroupStart, Crc32.Sealed;
    hide Message;
    var n := a + f.perCs;
    GroupEnds(f, a);
    GroupRun(f, a, n - 1);
    BytesStep(f, f.perCs - 1);
    OffsetMonotone(f, n, |blocks|);
    CoveredIsGroupStart(f, a, n);
    RecordedIsDigest(f, blocks, n);
    MessageSealedIff(f, image, blocks, a, n);
  }

  lemma OpenGroupFed(f: Format, blocks: seq<seq<byte>>, a: nat, n: nat)
    requires 0 < f.perCs && f.InGroup(a) == 0 && a < n <= |blocks| && n < a + f.perCs
    ensures Fed(f, blocks, n) == Flat(blocks[CoveredFrom(f, a)..n])
  {
    hide Fed, Flat, GroupStart;
    CoveredIsGroupStart(f, a, n);
    FedIsGroup(f, blocks, n);
  }

  /** For an open group: the check of a checksum behind it. */
  lemma OpenGroupSealedIff(f: Format, image: seq<byte>, blocks: seq<seq<byte>>, a: nat, n: nat)
    requires f.digest == Crc32.Digest && 0 < f.perCs && f.InGroup(a) == 0 && a < n <= |blocks| && n < a + f.perCs
    requires blocks == StreamBlocks(f, image, |blocks|) && f.Offset(n) + 4 <= |image|
    ensures f.Offset(a) + f.Bytes(n - a) == f.Offset(n)
    ensures image[f.Offset(n)..f.Offset(n) + 4] == f.digest(Fed(f, blocks, n)) <==>
              Crc32.Sealed(Message(f, image, blocks, a, n))
  {
    hide Format.Offset, Format.InGroup, Flat, StreamBlocks, Format.Bytes, Crc32.Digest, Crc32.Sealed, Message;
    hide Fed, CoveredFrom;
    GroupRun(f, a, n);
    OpenGroupFed(f, blocks, a, n);
    MessageSealedIff(f, image, blocks, a, n);
  }

  /** For the open group of an image: the check of the tail checksum. */
  lemma OpenGroupCheck(f: Format, image: seq<byte>, total: nat, a: nat)
    requires f.digest == Crc32.Digest && f.csSize == 4 && 0 < f.perCs && f.InGroup(a) == 0
    requires a < total < a + f.perCs && f.Offset(total) + 4 <= |image|
    ensures f.Offset(a) + f.Bytes(total - a) == f.Offset(total)
    ensures TailHolds(f, image, StreamBlocks(f, image, total)) <==>
              Crc32.Sealed(Message(f, image, StreamBlocks(f, image, total), a, total))
  {
    hide Format.Offset, Format.InGroup, StreamBlocks, Format.Bytes, Crc32.Digest, Crc32.Sealed, Message, Fed;
    OpenGroupSealedIff(f, image, StreamBlocks(f, image, total), a, total);
  }

  // ----- a change

  /** The blocks before the first changed byte are the same. */
  lemma SameBlocks(f: Format, image: seq<byte>, image': seq<byte>, total: nat, p: nat, a: nat)
    requires |image| == |image'| && (forall i :: 0 <= i < p && i < |image| ==> image[i] == image'[i])
    requires a <= total && f.Offset(a) <= p && f.Offset(a) <= |image|
    ensures forall i :: 0 <= i < a ==> StreamBlocks(f, image', total)[i] == StreamBlocks(f, image, total)[i]
  {
    hide Format.Offset, StreamBlock;
    forall i | 0 <= i < a
      ensures StreamBlock(f, image', i) == StreamBlock(f, image, i)
    {
      OffsetMonotone(f, i, a);
      StreamBlockInside(f, image, i);
      StreamBlockInside(f, image', i);
      SameSlice(image, image', p, f.Offset(i), f.Offset(i) + f.blockSize);
    }
  }

  lemma SameSlice(s: seq<byte>, t: seq<byte>, p: nat, a: nat, b: nat)
    requires |s| == |t| && (forall i :: 0 <= i < p && i < |s| ==> s[i] == t[i]) && a <= b <= p && b <= |s|
    ensures s[a..b] == t[a..b]
  {
  }

  /** A group in which the first change falls is no longer sealed. */
  lemma MessageBroken(f: Format, image: seq<byte>, image': seq<byte>, total: nat, p: nat, a: nat, n: nat)
    requires |image| == |image'| && Crc32.Within(image, image', p) && p < |image| && image[p] != image'[p]
    requires a <= n <= total && f.Offset(a) <= p < f.Offset(a) + f.Bytes(n - a) + 4 <= |image|
    requires Crc32.Sealed(Message(f, image, StreamBlocks(f, image, total), a, n))
    ensures !Crc32.Sealed(Message(f, image', StreamBlocks(f, image', total), a, n))
  {
    hide Format.Offset, Flat, StreamBlocks, Format.Bytes, Crc32.Sealed;
    var b, b' := StreamBlocks(f, image, total), StreamBlocks(f, image', total);
    SameBlocks(f, image, image', total, p, a);
    var g := CoveredFrom(f, a);
    assert b[g..a] == b'[g..a];
    var pre, lo, hi := Flat(b[g..a]), f.Offset(a), f.Offset(a) + f.Bytes(n - a) + 4;
    WindowMoved(pre, image, image', lo, hi, p);
    Crc32.SealedOnce(pre + image[lo..hi], pre + image'[lo..hi], |pre| + (p - lo));
  }

  lemma WindowMoved(pre: seq<byte>, s: seq<byte>, t: seq<byte>, lo: nat, hi: nat, p: nat)
    requires Crc32.Within(s, t, p) && lo <= p < hi <= |s| && s[p] != t[p]
    ensures Crc32.Within(pre + s[lo..hi], pre + t[lo..hi], |pre| + (p - lo))
    ensures pre + s[lo..hi] != pre + t[lo..hi]
  {
    var u, w := pre + s[lo..hi], pre + t[lo..hi];
    assert u[|pre| + (p - lo)] == s[p] && w[|pre| + (p - lo)] == t[p];
  }

  /** Where the open group starts, or the data area ends. */
  ghost function OpenFrom(f: Format, total: nat): nat
    requires f.InGroup(total) <= total
  {
    f.Offset(total - f.InGroup(total))
  }

  /** The first changed byte. */
  lemma FirstChange(s: seq<byte>, t: seq<byte>, x: nat, q: nat) returns (p: nat)
    requires Crc32.Within(s, t, x) && q < |s| && s[q] != t[q]
    ensures p <= q && s[p] != t[p] && Crc32.Within(s, t, p) && forall i :: 0 <= i < p ==> s[i] == t[i]
  {
    p := x;
    while s[p] == t[p]
      invariant x <= p <= q && forall i :: 0 <= i < p ==> s[i] == t[i]
      decreases q - p
    {
      p := p + 1;
    }
  }

  /** A change before the open group is noticed. */
  lemma ChangeNoticed(f: Format, blocks: seq<seq<byte>>, image': seq<byte>, p: nat,
                      capacity: nat)
    requires IsCrc(f) && 0 < capacity
    requires && Sized(f, blocks) && Crc32.Within(Image(f, blocks), image', p) && f.InGroup(|blocks|) <= |blocks|
             && p < OpenFrom(f, |blocks|) && p < |image'| && Image(f, blocks)[p] != image'[p]
    ensures !Accepts(f, image', |blocks|, capacity, false)
  {
    hide Image, Format.Offset, Format.Valid, StreamBlocks, Format.InGroup, Format.Bytes, Message, CheckHolds;
    hide Crc32.Digest, Crc32.Sealed;
    var image, total := Image(f, blocks), |blocks|;
    var a := FullGroupAt(f, p, total);
    StreamOfImage(f, blocks);
    ChecksOfImage(f, blocks);
    ImageLength(f, blocks);
    GroupEnds(f, a);
    var blocks' := StreamBlocks(f, image', total);
    FullGroupCheck(f, image, blocks, a);
    FullGroupCheck(f, image', blocks', a);
    assert a + f.perCs - a == f.perCs;
    MessageBroken(f, image, image', total, p, a, a + f.perCs);
  }

  /** A change in the open group is noticed if the restore looks at the tail checksum. */
  lemma TailChangeNoticed(f: Format, blocks: seq<seq<byte>>, image': seq<byte>, p: nat,
                          capacity: nat)
    requires IsCrc(f) && 0 < capacity
    requires && Sized(f, blocks) && Crc32.Within(Image(f, blocks), image', p) && f.InGroup(|blocks|) <= |blocks|
             && OpenFrom(f, |blocks|) <= p < |image'| && Image(f, blocks)[p] != image'[p]
             && TailRead(f, |blocks|, capacity)
    ensures !Accepts(f, image', |blocks|, capacity, false)
  {
    hide Image, Format.Offset, Format.Valid, StreamBlocks, Format.InGroup, Format.Bytes, Message, TailHolds;
    hide Crc32.Digest, Crc32.Sealed, ChecksHold;
    var image, total := Image(f, blocks), |blocks|;
    InGroupIsMod(f, total);
    GroupBegins(f, total);
    var a := total - f.InGroup(total);
    StreamOfImage(f, blocks);
    TailOfImage(f, blocks);
    ImageLength(f, blocks);
    OpenGroupCheck(f, image, total, a);
    OpenGroupCheck(f, image', total, a);
    MessageBroken(f, image, image', total, p, a, total);
  }

  /** No checksum that closes a full group comes after the first block of the open one. */
  lemma {:induction false} ClosesBefore(f: Format, n: nat, total: nat)
    requires f.Closes(n) && n <= total
    ensures n <= total - f.InGroup(total)
    decreases total
  {
    if n < total {
      ClosesBefore(f, n, total - 1);
    }
  }

  lemma {:induction false} FedSame(f: Format, blocks: seq<seq<byte>>, others: seq<seq<byte>>, n: nat)
    requires n <= |blocks| && n <= |others| && forall k :: 0 <= k < n ==> blocks[k] == others[k]
    ensures Fed(f, blocks, n) == Fed(f, others, n)
  {
    if 0 < n {
      FedSame(f, blocks, others, n - 1);
    }
  }

  /** The checksum of a full group holds in both, if there is no change up to it. */
  lemma CheckKept(f: Format, image: seq<byte>, image': seq<byte>, total: nat, p: nat, n: nat)
    requires |image| == |image'| && (forall i :: 0 <= i < p && i < |image| ==> image[i] == image'[i])
    requires 0 < n <= total && f.Closes(n) && f.Offset(n) <= p && f.Offset(n) <= |image|
    requires CheckHolds(f, image, StreamBlocks(f, image, total), n)
    ensures CheckHolds(f, image', StreamBlocks(f, image', total), n)
  {
    hide Format.Offset, StreamBlocks, Format.InGroup, Fed, Format.Closes;
    SameBlocks(f, image, image', total, p, n);
    FedSame(f, StreamBlocks(f, image, total), StreamBlocks(f, image', total), n - 1);
    OffsetStep(f, n - 1);
    SameSlice(image, image', p, f.Offset(n - 1) + f.blockSize, f.Offset(n));
  }

  /** A change in the open group is accepted if the restore does not look at the tail checksum. */
  lemma TailChangeAccepted(f: Format, blocks: seq<seq<byte>>, image': seq<byte>,
                           capacity: nat)
    requires IsCrc(f) && 0 < capacity
    requires && Sized(f, blocks) && |image'| == |Image(f, blocks)| && f.InGroup(|blocks|) <= |blocks|
             && (forall i :: 0 <= i < OpenFrom(f, |blocks|) && i < |image'| ==> Image(f, blocks)[i] == image'[i])
             && !TailRead(f, |blocks|, capacity)
    ensures Accepts(f, image', |blocks|, capacity, false)
  {
    hide Image, Format.Offset, Format.Valid, StreamBlocks, Format.InGroup, Format.Closes, CheckHolds, Crc32.Digest;
    var image, total := Image(f, blocks), |blocks|;
    StreamOfImage(f, blocks);
    ChecksOfImage(f, blocks);
    ImageLength(f, blocks);
    forall n | 0 < n <= total && f.Closes(n)
      ensures CheckHolds(f, image', StreamBlocks(f, image', total), n)
    {
      ClosesBefore(f, n, total);
      OffsetMonotone(f, n, total - f.InGroup(total));
      OffsetMonotone(f, n, total);
      CheckKept(f, image, image', total, OpenFrom(f, total), n);
    }
  }

  /** Some byte before `end` is different. */
  ghost predicate ChangedBefore(s: seq<byte>, t: seq<byte>, end: nat) {
    exists q :: 0 <= q < end && q < |s| && q < |t| && s[q] != t[q]
  }

  /** The exact range of the checksums. The data area of an image is changed anywhere, in blocks or checksums, within
      four neighbouring bytes: a restore notices it if and only if it looks at the tail checksum or a byte before
      the open group is different. */
  lemma NoticedIff(f: Format, blocks: seq<seq<byte>>, image': seq<byte>, x: nat,
                   capacity: nat)
    requires IsCrc(f) && 0 < capacity
    requires Sized(f, blocks) && Crc32.Within(Image(f, blocks), image', x) && image' != Image(f, blocks)
    ensures f.InGroup(|blocks|) <= |blocks|
    ensures !Accepts(f, image', |blocks|, capacity, false) <==>
              TailRead(f, |blocks|, capacity) || ChangedBefore(Image(f, blocks), image', OpenFrom(f, |blocks|))
  {
    hide Image, Format.InGroup, Accepts, OpenFrom, TailRead, Crc32.Digest;
    GroupBegins(f, |blocks|);
    var image, open := Image(f, blocks), OpenFrom(f, |blocks|);
    if ChangedBefore(image, image', open) {
      var q :| 0 <= q < open && q < |image| && q < |image'| && image[q] != image'[q];
      var p := FirstChange(image, image', x, q);
      ChangeNoticed(f, blocks, image', p, capacity);
    } else if TailRead(f, |blocks|, capacity) {
      var q :| 0 <= q < |image| && image[q] != image'[q];
      var p := FirstChange(image, image', x, q);
      TailChangeNoticed(f, blocks, image', p, capacity);
    } else {
      TailChangeAccepted(f, blocks, image', capacity);
    }
  }

  /** In terms of blocks: damage to a block is noticed if and only if the block belongs to a full group or the restore
      looks at the tail checksum. */
  lemma DetectedIff(f: Format, blocks: seq<seq<byte>>, i: nat, x: nat, burst: seq<byte>,
                    capacity: nat)
    requires IsCrc(f) && 0 < capacity && Sized(f, blocks) && i < |blocks|
    requires x + |burst| <= f.blockSize && |burst| <= 4 && burst != blocks[i][x..x + |burst|]
    ensures f.Offset(i) + x + |burst| <= |Image(f, blocks)|
    ensures !Accepts(f, Replaced(Image(f, blocks), f.Offset(i) + x, burst), |blocks|, capacity, false) <==>
              i < |blocks| - f.InGroup(|blocks|) || TailRead(f, |blocks|, capacity)
  {
    hide Image, Format.Offset, Format.Valid, Format.InGroup, Accepts, TailRead, Recorded, Format.Closes, Crc32.Digest;
    BlockInImage(f, blocks, i);
    var image, at := Image(f, blocks), f.Offset(i) + x;
    var image' := Replaced(image, at, burst);
    SliceOfSlice(image, f.Offset(i), f.Offset(i) + f.blockSize, x, x + |burst|);
    DamagedWithin(image, at, burst);
    NoticedIff(f, blocks, image', at, capacity);
    var open := |blocks| - f.InGroup(|blocks|);
    if i < open {
      OffsetMonotone(f, i, open);
    } else {
      OffsetMonotone(f, open, i);
    }
  }

  lemma DamagedWithin(s: seq<byte>, x: nat, burst: seq<byte>)
    requires x + |burst| <= |s| && |burst| <= 4 && burst != s[x..x + |burst|]
    ensures Crc32.Within(s, Replaced(s, x, burst), x) && Replaced(s, x, burst) != s
    ensures forall end: nat :: x + |burst| <= end ==> ChangedBefore(s, Replaced(s, x, burst), end)
    ensures forall end: nat :: end <= x ==> !ChangedBefore(s, Replaced(s, x, burst), end)
  {
    var t := Replaced(s, x, burst);
    var j :| 0 <= j < |burst| && burst[j] != s[x..x + |burst|][j];
    assert t[x + j] == burst[j] != s[x + j];
  }
}
