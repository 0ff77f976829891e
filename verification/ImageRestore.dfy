/** The restore loop: the data area of an image goes back onto a device or to stdout. */
module ImageRestore {
  import opened Arithmetic
  import opened Sequences
  import opened ImageLayout
  import opened ImageClone

  /** The bytes at `pos` become `data`; the file grows when they reach past its end. */
  function Overwrite(contents: seq<byte>, pos: nat, data: seq<byte>): seq<byte>
    requires pos <= |contents|
  {
    contents[..pos] + data + (if pos + |data| <= |contents| then contents[pos + |data|..] else [])
  }

  /** What one call of `write` reports: how much it took, that it is to be repeated, or that it failed. */
  datatype Outcome = Took(n: nat) | Again | Failed

  /** How many of `count` bytes are taken before a call takes nothing or fails. */
  function Taken(outcomes: seq<Outcome>, count: nat): (n: nat)
    ensures n <= count
    decreases |outcomes|
  {
    if outcomes == [] || count == 0 then 0
    else
      match outcomes[0]
      case Took(n) =>
        if n == 0 then 0 else if count <= n then count else n + Taken(outcomes[1..], count - n)
      case Again => Taken(outcomes[1..], count)
      case Failed => 0
  }

  lemma TakenStep(outcomes: seq<Outcome>, count: nat)
    requires outcomes != [] && 0 < count
    ensures outcomes[0] == Failed || outcomes[0] == Took(0) ==> Taken(outcomes, count) == 0
    ensures outcomes[0] == Again ==> Taken(outcomes, count) == Taken(outcomes[1..], count)
    ensures outcomes[0].Took? && 0 < outcomes[0].n ==>
              var n := if count <= outcomes[0].n then count else outcomes[0].n;
              Taken(outcomes, count) == n + Taken(outcomes[1..], count - n)
  {
  }

  lemma TakenEnd(outcomes: seq<Outcome>, count: nat)
    ensures outcomes == [] || count == 0 || outcomes[0] == Failed || outcomes[0] == Took(0) ==>
              Taken(outcomes, count) == 0
  {
  }

  lemma OverwriteNone(contents: seq<byte>, pos: nat, a: seq<byte>)
    requires pos <= |contents| && a == []
    ensures Overwrite(contents, pos, a) == contents
  {
  }

  lemma OverwriteFits(contents: seq<byte>, pos: nat, a: seq<byte>)
    requires pos <= |contents|
    ensures pos + |a| <= |Overwrite(contents, pos, a)|
  {
  }

  lemma OverwriteTwice(contents: seq<byte>, pos: nat, a: seq<byte>, b: seq<byte>)
    requires pos <= |contents|
    ensures pos + |a| <= |Overwrite(contents, pos, a)|
    ensures Overwrite(Overwrite(contents, pos, a), pos + |a|, b) == Overwrite(contents, pos, a + b)
  {
  }

  /** A file descriptor opened for writing.  On a pipe there is no seeking, and unused
      blocks are written out as zeros. */
  class Target {
    var contents: seq<byte>
    var pos: nat
    const pipe: bool

    constructor (contents: seq<byte>, pipe: bool)
      ensures this.contents == contents && this.pipe == pipe
      ensures pos == (if pipe then |contents| else 0)
    {
      this.contents, this.pipe := contents, pipe;
      pos := if pipe then |contents| else 0;
    }

    /** `io_all` for writing, with what the calls of `write` report: whatever the pieces, the bytes taken are
        the beginning of the buffer, and are written once and in order. `true` is a full write. */
    method WriteInPieces(data: seq<byte>, outcomes: seq<Outcome>) returns (full: bool)
      requires pos <= |contents|
      modifies this
      ensures contents == Overwrite(old(contents), old(pos), data[..Taken(outcomes, |data|)])
      ensures pos == old(pos) + Taken(outcomes, |data|) <= |contents|
      ensures full <==> Taken(outcomes, |data|) == |data|
    {
      hide Overwrite, Taken;
      var done, k := 0, 0;
      OverwriteNone(contents, pos, data[..0]);
      assert outcomes[0..] == outcomes;
      while done < |data| && k < |outcomes|
        invariant 0 <= done <= |data| && 0 <= k <= |outcomes|
        invariant contents == Overwrite(old(contents), old(pos), data[..done]) && pos == old(pos) + done <= |contents|
        invariant Taken(outcomes, |data|) == done + Taken(outcomes[k..], |data| - done)
        decreases |outcomes| - k
      {
        var outcome := outcomes[k];
        assert outcomes[k..][0] == outcome && outcomes[k..][1..] == outcomes[k + 1..];
        TakenStep(outcomes[k..], |data| - done);
        if outcome.Failed? || outcome == Took(0) {
          break;
        }
        if outcome.Took? {
          var i := if |data| - done <= outcome.n then |data| - done else outcome.n;
          OverwriteTwice(old(contents), old(pos), data[..done], data[done..done + i]);
          OverwriteFits(contents, pos, data[done..done + i]);
          assert data[..done] + data[done..done + i] == data[..done + i];
          contents := Overwrite(contents, pos, data[done..done + i]);
          pos, done := pos + i, done + i;
        }
        k := k + 1;
      }
      TakenEnd(outcomes[k..], |data| - done);
      full := done == |data|;
    }

    /** A full write. */
    method Write(data: seq<byte>)
      requires pos <= |contents|
      modifies this
      ensures contents == Overwrite(old(contents), old(pos), data)
      ensures pos == old(pos) + |data| <= |contents|
    {
      contents := Overwrite(contents, pos, data);
      pos := pos + |data|;
    }

    /** `skip_bytes`: seek forward, or write zeros in pieces of `size` bytes. */
    method SkipBytes(size: nat, count: nat)
      requires 0 < size
      requires pipe ==> pos == |contents|
      requires !pipe ==> pos + count <= |contents|
      modifies this
      ensures pos == old(pos) + count
      ensures contents == if pipe then old(contents) + Zeros(count) else old(contents)
    {
      if count == 0 {
      } else if !pipe {
        pos := pos + count;
      } else {
        var completed := 0;
        while size < count - completed
          invariant completed <= count && pos == |contents| == old(pos) + completed
          invariant contents == old(contents) + Zeros(completed)
        {
          Write(Zeros(size));
          completed := completed + size;
        }
        Write(Zeros(count - completed));
      }
    }

    /** `skip_blocks`: seek forward, or write `count` empty blocks. */
    method SkipBlocks(f: Format, count: nat)
      requires pipe ==> pos == |contents|
      requires !pipe ==> pos + f.Bytes(count) <= |contents|
      modifies this
      ensures pos == old(pos) + f.Bytes(count)
      ensures contents == if pipe then old(contents) + Zeros(f.Bytes(count)) else old(contents)
    {
      if count == 0 {
      } else if !pipe {
        pos := pos + f.Bytes(count);
      } else {
        for i := 0 to count
          invariant pos == |contents| == old(pos) + f.Bytes(i)
          invariant contents == old(contents) + Zeros(f.Bytes(i))
        {
          Write(Zeros(f.blockSize));
        }
      }
    }
  }

  // ----- what an image says, whether or not a clone made it

  /** Block number `i` of a data area; zeros past its end. */
  function StreamBlock(f: Format, image: seq<byte>, i: nat): (block: seq<byte>)
    ensures |block| == f.blockSize
  {
    if f.Offset(i) + f.blockSize <= |image| then image[f.Offset(i)..f.Offset(i) + f.blockSize]
    else Zeros(f.blockSize)
  }

  function StreamBlocks(f: Format, image: seq<byte>, n: nat): (blocks: seq<seq<byte>>)
    ensures |blocks| == n && Sized(f, blocks)
    ensures forall i :: 0 <= i < n ==> blocks[i] == StreamBlock(f, image, i)
  {
    if n == 0 then [] else StreamBlocks(f, image, n - 1) + [StreamBlock(f, image, n - 1)]
  }

  /** The checksum that closes a full group after block `n` is the one recorded. */
  ghost predicate CheckHolds(f: Format, image: seq<byte>, blocks: seq<seq<byte>>, n: nat)
    requires 0 < n <= |blocks|
  {
    && f.Offset(n - 1) + f.blockSize + f.csSize <= |image|
    && image[f.Offset(n - 1) + f.blockSize..f.Offset(n - 1) + f.blockSize + f.csSize] == Recorded(f, blocks, n)
  }

  ghost predicate ChecksHold(f: Format, image: seq<byte>, blocks: seq<seq<byte>>, n: nat)
    requires n <= |blocks|
  {
    forall i :: 0 < i <= n && f.Closes(i) ==> CheckHolds(f, image, blocks, i)
  }

  /** The restore reads and compares the checksum of a last group that is not full
      only when its last batch is short and is itself not a whole number of groups. */
  predicate TailRead(f: Format, used: nat, capacity: nat)
    requires 0 < capacity
  {
    0 < f.perCs && used % capacity % f.perCs != 0 && used % f.perCs != 0
  }

  function Needed(f: Format, used: nat, capacity: nat): nat
    requires 0 < capacity
  {
    f.Offset(used) + (if TailRead(f, used, capacity) then f.csSize else 0)
  }

  ghost predicate TailHolds(f: Format, image: seq<byte>, blocks: seq<seq<byte>>)
  {
    && f.Offset(|blocks|) + f.csSize <= |image|
    && image[f.Offset(|blocks|)..f.Offset(|blocks|) + f.csSize] == f.digest(Fed(f, blocks, |blocks|))
  }

  /** The images a restore with the given buffer accepts. */
  ghost predicate Accepts(f: Format, image: seq<byte>, used: nat, capacity: nat, ignoreCrc: bool)
    requires 0 < capacity
  {
    Needed(f, used, capacity) <= |image| && (!ignoreCrc ==> AllChecksHold(f, image, used, capacity))
  }

  /** All checksums the restore looks at are right. */
  ghost predicate AllChecksHold(f: Format, image: seq<byte>, used: nat, capacity: nat)
    requires 0 < capacity
  {
    && ChecksHold(f, image, StreamBlocks(f, image, used), used)
    && (TailRead(f, used, capacity) ==> TailHolds(f, image, StreamBlocks(f, image, used)))
  }

  // ----- what the target becomes

  /** The first `n` blocks of the target: used blocks in order, the rest as they were. */
  function Assembled(f: Format, bits: seq<bool>, blocks: seq<seq<byte>>, background: seq<byte>, n: nat)
    : (a: seq<byte>)
    requires n <= |bits| && Rank(bits, n) <= |blocks| && Sized(f, blocks)
    requires f.Bytes(n) <= |background|
    ensures |a| == f.Bytes(n)
  {
    if n == 0 then []
    else Assembled(f, bits, blocks, background, n - 1)
         + (if bits[n - 1] then blocks[Rank(bits, n - 1)] else BlockAt(f, background, n - 1))
  }

  /** The contents of the target once `n` blocks of it are settled. */
  ghost function Settled(f: Format, bits: seq<bool>, blocks: seq<seq<byte>>, pipe: bool,
                         head: seq<byte>, background: seq<byte>, n: nat): seq<byte>
    requires n <= |bits| && Rank(bits, n) <= |blocks| && Sized(f, blocks)
    requires f.Bytes(n) <= |background|
  {
    head + Assembled(f, bits, blocks, background, n) + (if pipe then [] else background[f.Bytes(n)..])
  }

  lemma {:induction false} AssembledAt(f: Format, bits: seq<bool>, blocks: seq<seq<byte>>, background: seq<byte>,
                                       n: nat, b: nat)
    requires n <= |bits| && Rank(bits, n) <= |blocks| && Sized(f, blocks)
    requires f.Bytes(n) <= |background| && b < n
    ensures f.Bytes(b + 1) <= f.Bytes(n) && (bits[b] ==> Rank(bits, b) < |blocks|)
    ensures BlockAt(f, Assembled(f, bits, blocks, background, n), b)
            == if bits[b] then blocks[Rank(bits, b)] else BlockAt(f, background, b)
  {
    hide Assembled, Rank, Format.Bytes;
    var last := n - 1;
    BytesMonotone(f, b + 1, n);
    AssembledStep(f, bits, blocks, background, last);
    var before := Assembled(f, bits, blocks, background, last);
    var piece := if bits[last] then blocks[Rank(bits, last)] else BlockAt(f, background, last);
    ConcatParts(before, piece);
    if b < last {
      BytesMonotone(f, b + 1, last);
      BytesStep(f, b);
      AssembledAt(f, bits, blocks, background, last, b);
      PrefixSlice(before, piece, f.Bytes(b), f.Bytes(b + 1));
    }
  }

  lemma AssembledStep(f: Format, bits: seq<bool>, blocks: seq<seq<byte>>, background: seq<byte>, n: nat)
    requires n < |bits| && Rank(bits, n + 1) <= |blocks| && Sized(f, blocks) && f.Bytes(n + 1) <= |background|
    ensures Rank(bits, n) <= |blocks| && (bits[n] ==> Rank(bits, n) < |blocks|)
    ensures f.Bytes(n) + f.blockSize == f.Bytes(n + 1)
    ensures Assembled(f, bits, blocks, background, n + 1)
            == Assembled(f, bits, blocks, background, n)
               + if bits[n] then blocks[Rank(bits, n)] else BlockAt(f, background, n)
  {
  }

  lemma PrefixSlice(s: seq<byte>, t: seq<byte>, a: nat, b: nat)
    requires a <= b <= |s|
    ensures (s + t)[a..b] == s[a..b]
  {
  }

  /** Skipping unused blocks settles them. */
  lemma {:induction false} AssembledGap(f: Format, bits: seq<bool>, blocks: seq<seq<byte>>, background: seq<byte>,
                                        m: nat, n: nat)
    requires m <= n <= |bits| && Rank(bits, n) <= |blocks| && Sized(f, blocks)
    requires f.Bytes(n) <= |background|
    requires forall i :: m <= i < n ==> !bits[i]
    ensures Rank(bits, m) == Rank(bits, n) && f.Bytes(m) <= f.Bytes(n)
    ensures Assembled(f, bits, blocks, background, n)
            == Assembled(f, bits, blocks, background, m) + background[f.Bytes(m)..f.Bytes(n)]
  {
    RankGap(bits, m, n);
    BytesMonotone(f, m, n);
    if m < n {
      AssembledGap(f, bits, blocks, background, m, n - 1);
      SliceStep(background, f.Bytes(m), f.Bytes(n - 1), f.Bytes(n));
      ConcatAssociates(Assembled(f, bits, blocks, background, m), background[f.Bytes(m)..f.Bytes(n - 1)],
                       background[f.Bytes(n - 1)..f.Bytes(n)]);
    } else {
      assert background[f.Bytes(m)..f.Bytes(n)] == [];
    }
  }

  lemma AssembledUsed(f: Format, bits: seq<bool>, blocks: seq<seq<byte>>, background: seq<byte>, n: nat)
    requires n < |bits| && bits[n] && Rank(bits, n + 1) <= |blocks| && Sized(f, blocks)
    requires f.Bytes(n + 1) <= |background|
    ensures Assembled(f, bits, blocks, background, n + 1)
            == Assembled(f, bits, blocks, background, n) + blocks[Rank(bits, n)]
  {
  }

  /** Writing a run of used blocks settles them. */
  lemma {:induction false} AssembledRun(f: Format, bits: seq<bool>, blocks: seq<seq<byte>>, background: seq<byte>,
                                        m: nat, n: nat)
    requires m <= n <= |bits| && Rank(bits, n) <= |blocks| && Sized(f, blocks)
    requires f.Bytes(n) <= |background|
    requires forall i :: m <= i < n ==> bits[i]
    ensures Rank(bits, n) == Rank(bits, m) + (n - m) && f.Bytes(m) <= f.Bytes(n)
    ensures Assembled(f, bits, blocks, background, n)
            == Assembled(f, bits, blocks, background, m) + Flat(blocks[Rank(bits, m)..Rank(bits, n)])
  {
    hide *;
    RankRun(bits, m, n);
    BytesMonotone(f, m, n);
    var r := Rank(bits, m);
    if m < n {
      var k := n - 1;
      RankRun(bits, m, k);
      BytesMonotone(f, k, n);
      AssembledRun(f, bits, blocks, background, m, k);
      AssembledUsed(f, bits, blocks, background, k);
      FlatRun(blocks, r, r + (k - m));
      ConcatAssociates(Assembled(f, bits, blocks, background, m), Flat(blocks[r..r + (k - m)]), blocks[r + (k - m)]);
    } else {
      EmptyRun(f, blocks, r);
    }
  }

  // ----- one batch read from the image

  /** `buffer` holds the bytes of the image from `start` on. */
  ghost predicate Window(image: seq<byte>, buffer: seq<byte>, start: nat) {
    start + |buffer| <= |image| && buffer == image[start..start + |buffer|]
  }

  lemma WindowSlice(image: seq<byte>, buffer: seq<byte>, start: nat, a: nat, b: nat)
    requires Window(image, buffer, start) && a <= b <= |buffer|
    ensures buffer[a..b] == image[start + a..start + b]
  {
    SliceOfSlice(image, start, start + |buffer|, a, b);
  }

  lemma WindowBound(image: seq<byte>, buffer: seq<byte>, start: nat)
    requires Window(image, buffer, start)
    ensures start + |buffer| <= |image|
  {
  }

  /** The running checksum state of the restore loop after `n` blocks.  Without a
      checksum interval the counter only wraps around and the digest is empty. */
  ghost predicate Tracks(f: Format, blocks: seq<seq<byte>>, n: nat, ignoreCrc: bool, inCs: nat, fed: seq<byte>)
    requires n <= |blocks|
  {
    && inCs < UINT32_LIMIT
    && (0 < f.perCs ==> inCs == f.InGroup(n) && (ignoreCrc || fed == Fed(f, blocks, n)))
  }

  lemma ValidParts(f: Format, fed: seq<byte>)
    requires f.Valid()
    ensures f.perCs < UINT32_LIMIT && (f.perCs == 0 ==> f.csSize == 0) && |f.digest(fed)| == f.csSize
  {
  }

  /** One block of the read buffer: the running checksum takes it in and, when it closes
      a group, is compared with the recorded one. */
  method DecodeBlock(f: Format, ghost image: seq<byte>, ghost blocks: seq<seq<byte>>, ghost n: nat,
                     readBuffer: seq<byte>, offset: nat, ignoreCrc: bool, inCs: nat, fedIn: seq<byte>)
    returns (ok: bool, readOffset: nat, blocksInCs: nat, fed: seq<byte>)
    requires f.Valid() && n < |blocks| && blocks[n] == StreamBlock(f, image, n)
    requires offset <= f.Offset(n) && Window(image, readBuffer, f.Offset(n) - offset)
    requires offset + f.Offset(n + 1) - f.Offset(n) <= |readBuffer|
    requires Tracks(f, blocks, n, ignoreCrc, inCs, fedIn)
    ensures ok <==> ignoreCrc || !f.Closes(n + 1) || CheckHolds(f, image, blocks, n + 1)
    ensures ok ==> readOffset == offset + f.Offset(n + 1) - f.Offset(n)
    ensures ok ==> Tracks(f, blocks, n + 1, ignoreCrc, blocksInCs, fed)
  {
    hide Format.Offset, Format.InGroup, Format.Closes, Fed, Recorded, Window, StreamBlock, Format.Valid;
    ghost var start := f.Offset(n) - offset;
    OffsetStep(f, n);
    GroupStep(f, blocks, n);
    WindowBound(image, readBuffer, start);
    StreamBlockInside(f, image, n);
    WindowSlice(image, readBuffer, start, offset, offset + f.blockSize);
    var block := readBuffer[offset..offset + f.blockSize];
    ValidParts(f, fedIn + block);
    ok, readOffset, fed := true, offset, fedIn;
    blocksInCs := (inCs + 1) % UINT32_LIMIT;
    if !ignoreCrc {
      fed := fed + block;
    }
    if blocksInCs == f.perCs {
      if !ignoreCrc {
        WindowSlice(image, readBuffer, start, offset + f.blockSize, offset + f.blockSize + f.csSize);
        if readBuffer[offset + f.blockSize..offset + f.blockSize + f.csSize] != f.digest(fed) {
          ok := false;
          return;
        }
      }
      readOffset := readOffset + f.csSize;
      blocksInCs := 0;
      if f.reseed && !ignoreCrc {
        fed := [];
      }
    }
    readOffset := readOffset + f.blockSize;
  }

  method DecodeBatch(f: Format, ghost image: seq<byte>, ghost blocks: seq<seq<byte>>, ghost copied: nat,
                     readBuffer: seq<byte>, blocksRead: nat, ignoreCrc: bool, writeBuffer: array<byte>,
                     inCs: nat, fedIn: seq<byte>)
    returns (ok: bool, readOffset: nat, blocksInCs: nat, fed: seq<byte>)
    requires f.Valid() && copied + blocksRead <= |blocks| && blocks == StreamBlocks(f, image, |blocks|)
    requires Window(image, readBuffer, f.Offset(copied))
    requires f.Offset(copied + blocksRead) - f.Offset(copied) <= |readBuffer|
    requires f.Bytes(blocksRead) <= writeBuffer.Length
    requires Tracks(f, blocks, copied, ignoreCrc, inCs, fedIn)
    requires !ignoreCrc ==> ChecksHold(f, image, blocks, copied)
    modifies writeBuffer
    ensures ok <==> ignoreCrc || ChecksHold(f, image, blocks, copied + blocksRead)
    ensures ok ==> readOffset == f.Offset(copied + blocksRead) - f.Offset(copied)
    ensures ok ==> Tracks(f, blocks, copied + blocksRead, ignoreCrc, blocksInCs, fed)
    ensures ok ==> writeBuffer[..f.Bytes(blocksRead)] == Flat(blocks[copied..copied + blocksRead])
  {
    hide Format.Offset, Format.Bytes, Format.InGroup, Flat, Tracks, StreamBlocks, Recorded, CheckHolds, Window;
    hide Format.Valid;
    ok, readOffset, blocksInCs, fed := true, 0, inCs, fedIn;
    EmptyRun(f, blocks, copied);
    for i := 0 to blocksRead
      invariant readOffset == f.Offset(copied + i) - f.Offset(copied)
      invariant Tracks(f, blocks, copied + i, ignoreCrc, blocksInCs, fed)
      invariant !ignoreCrc ==> ChecksHold(f, image, blocks, copied + i)
      invariant f.Bytes(i) <= writeBuffer.Length
      invariant writeBuffer[..f.Bytes(i)] == Flat(blocks[copied..copied + i])
    {
      StreamRoom(f, copied, i, blocksRead);
      StreamView(f, image, readBuffer, f.Offset(copied), readOffset, copied + i);
      ghost var n, before := copied + i, writeBuffer[..f.Bytes(i)];
      var block := readBuffer[readOffset..readOffset + f.blockSize];
      Memcpy(writeBuffer, f.Bytes(i), block);
      FlatRun(blocks, copied, n);
      assert writeBuffer[..f.Bytes(i + 1)] == before + block;
      ok, readOffset, blocksInCs, fed :=
        DecodeBlock(f, image, blocks, n, readBuffer, readOffset, ignoreCrc, blocksInCs, fed);
      ChecksStep(f, image, blocks, copied + i, copied + blocksRead);
      if !ok {
        return;
      }
    }
  }

  lemma EmptyRun(f: Format, blocks: seq<seq<byte>>, n: nat)
    requires n <= |blocks|
    ensures f.Bytes(0) == 0 && Flat(blocks[n..n]) == []
  {
    assert blocks[n..n] == [];
  }

  /** Growing the prefix whose checksums hold by one block, or failing for good. */
  lemma ChecksStep(f: Format, image: seq<byte>, blocks: seq<seq<byte>>, n: nat, end: nat)
    requires n < end <= |blocks|
    ensures ChecksHold(f, image, blocks, n + 1) <==>
              ChecksHold(f, image, blocks, n) && (f.Closes(n + 1) ==> CheckHolds(f, image, blocks, n + 1))
    ensures ChecksHold(f, image, blocks, end) ==> ChecksHold(f, image, blocks, n + 1)
  {
  }

  lemma StreamBlockInside(f: Format, image: seq<byte>, n: nat)
    ensures f.Offset(n) + f.blockSize <= |image| ==>
              StreamBlock(f, image, n) == image[f.Offset(n)..f.Offset(n) + f.blockSize]
  {
  }

  /** Where block `i` of a batch lies. */
  lemma StreamRoom(f: Format, copied: nat, i: nat, count: nat)
    requires i < count
    ensures f.Offset(copied) <= f.Offset(copied + i)
    ensures f.Offset(copied + i) + f.blockSize <= f.Offset(copied + i + 1) <= f.Offset(copied + count)
    ensures f.Bytes(i) + f.blockSize == f.Bytes(i + 1) <= f.Bytes(count)
  {
    hide *;
    BytesStep(f, i);
    OffsetMonotone(f, copied, copied + i);
    OffsetMonotone(f, copied + i, copied + i + 1);
    OffsetMonotone(f, copied + i + 1, copied + count);
    BytesMonotone(f, i + 1, count);
  }

  /** A block of the stream, seen in the read buffer. */
  lemma StreamView(f: Format, image: seq<byte>, readBuffer: seq<byte>, start: nat, at: nat, n: nat)
    requires Window(image, readBuffer, start)
    requires start + at == f.Offset(n) && at + f.blockSize <= |readBuffer|
    ensures readBuffer[at..at + f.blockSize] == StreamBlock(f, image, n)
  {
    hide *;
    WindowBound(image, readBuffer, start);
    StreamBlockInside(f, image, n);
    WindowSlice(image, readBuffer, start, at, at + f.blockSize);
  }

  // ----- one batch written to the target

  /** The target once the first `n` of its blocks are settled. */
  ghost predicate SettledAt(f: Format, bits: seq<bool>, blocks: seq<seq<byte>>, head: seq<byte>,
                            background: seq<byte>, target: Target, n: nat)
    requires n <= |bits| && Rank(bits, n) <= |blocks| && Sized(f, blocks)
    requires f.Bytes(n) <= |background|
    reads target
  {
    && target.contents == Settled(f, bits, blocks, target.pipe, head, background, n)
    && target.pos == |head| + f.Bytes(n)
  }

  lemma ZerosSlice(n: nat, a: nat, b: nat)
    requires a <= b <= n
    ensures Zeros(n)[a..b] == Zeros(b - a)
  {
  }

  /** Seeking over unused blocks, or writing zeros for them, settles them. */
  lemma SkipSettles(f: Format, bits: seq<bool>, blocks: seq<seq<byte>>, pipe: bool, head: seq<byte>,
                    background: seq<byte>, m: nat, n: nat)
    requires m <= n <= |bits| && Rank(bits, n) <= |blocks| && Sized(f, blocks)
    requires f.Bytes(|bits|) <= |background|
    requires pipe ==> background == Zeros(f.Bytes(|bits|))
    requires forall i :: m <= i < n ==> !bits[i]
    ensures Rank(bits, m) == Rank(bits, n)
    ensures f.Bytes(m) + f.Bytes(n - m) == f.Bytes(n) <= f.Bytes(|bits|)
    ensures Settled(f, bits, blocks, pipe, head, background, n)
            == if pipe then Settled(f, bits, blocks, pipe, head, background, m) + Zeros(f.Bytes(n - m))
               else Settled(f, bits, blocks, pipe, head, background, m)
  {
    hide Assembled, Rank, Format.Bytes, Zeros, Sized;
    BytesMonotone(f, n, |bits|);
    BytesSum(f, m, n - m);
    AssembledGap(f, bits, blocks, background, m, n);
    var a, gap := Assembled(f, bits, blocks, background, m), background[f.Bytes(m)..f.Bytes(n)];
    if pipe {
      ZerosSlice(f.Bytes(|bits|), f.Bytes(m), f.Bytes(n));
      assert head + (a + gap) + [] == head + a + [] + gap;
    } else {
      SliceStep(background, f.Bytes(m), f.Bytes(n), |background|);
      Regroup(head, a, gap, background[f.Bytes(n)..]);
      assert background[f.Bytes(m)..] == gap + background[f.Bytes(n)..];
    }
  }

  lemma Regroup(a: seq<byte>, b: seq<byte>, c: seq<byte>, d: seq<byte>)
    ensures a + (b + c) + d == a + b + (c + d)
  {
  }

  /** Writing a run of used blocks settles them. */
  lemma WriteSettles(f: Format, bits: seq<bool>, blocks: seq<seq<byte>>, pipe: bool, head: seq<byte>,
                     background: seq<byte>, m: nat, n: nat)
    requires m <= n <= |bits| && Rank(bits, n) <= |blocks| && Sized(f, blocks)
    requires f.Bytes(|bits|) <= |background|
    requires forall i :: m <= i < n ==> bits[i]
    ensures Rank(bits, n) == Rank(bits, m) + (n - m)
    ensures f.Bytes(m) + f.Bytes(n - m) == f.Bytes(n) <= f.Bytes(|bits|)
    ensures |head| + f.Bytes(m) <= |Settled(f, bits, blocks, pipe, head, background, m)|
    ensures Settled(f, bits, blocks, pipe, head, background, n)
            == Overwrite(Settled(f, bits, blocks, pipe, head, background, m), |head| + f.Bytes(m),
                         Flat(blocks[Rank(bits, m)..Rank(bits, n)]))
  {
    hide Assembled, Rank, Format.Bytes, Flat, Overwrite;
    BytesMonotone(f, n, |bits|);
    BytesSum(f, m, n - m);
    AssembledRun(f, bits, blocks, background, m, n);
    var run := Flat(blocks[Rank(bits, m)..Rank(bits, n)]);
    FlatLength(f, blocks[Rank(bits, m)..Rank(bits, n)]);
    var a := Assembled(f, bits, blocks, background, m);
    assert |head + a| == |head| + f.Bytes(m);
    ConcatAssociates(head, a, run);
    if pipe {
      OverwriteEnd(head + a, run);
    } else {
      OverwriteInside(head + a, background[f.Bytes(m)..], run);
      assert background[f.Bytes(m)..][|run|..] == background[f.Bytes(n)..];
    }
  }

  lemma OverwriteEnd(a: seq<byte>, data: seq<byte>)
    ensures Overwrite(a + [], |a|, data) == a + data + []
  {
  }

  lemma OverwriteInside(a: seq<byte>, b: seq<byte>, data: seq<byte>)
    requires |data| <= |b|
    ensures Overwrite(a + b, |a|, data) == a + data + b[|data|..]
  {
    assert (a + b)[..|a|] == a;
    assert (a + b)[|a| + |data|..] == b[|data|..];
  }

  /** The unused blocks from `start` on are passed over. */
  method SkipRun(f: Format, bits: seq<bool>, ghost blocks: seq<seq<byte>>, ghost head: seq<byte>,
                 ghost background: seq<byte>, target: Target, start: nat)
    returns (blockId: nat)
    requires start <= |bits| && Rank(bits, |bits|) == |blocks| && Rank(bits, start) <= |blocks| && Sized(f, blocks)
    requires f.Bytes(start) <= f.Bytes(|bits|) <= |background|
    requires target.pipe ==> background == Zeros(f.Bytes(|bits|))
    requires SettledAt(f, bits, blocks, head, background, target, start)
    modifies target
    ensures start <= blockId <= |bits| && Rank(bits, blockId) == Rank(bits, start)
    ensures blockId < |bits| ==> bits[blockId]
    ensures f.Bytes(blockId) <= f.Bytes(|bits|) && SettledAt(f, bits, blocks, head, background, target, blockId)
  {
    hide Assembled, Rank, Format.Bytes, Overwrite, Sized, Settled, Zeros;
    var skip := ScanUnused(bits, start);
    RankMonotone(bits, start + skip, |bits|);
    SkipSettles(f, bits, blocks, target.pipe, head, background, start, start + skip);
    SettledRoom(f, bits, blocks, target.pipe, head, background, start);
    target.SkipBlocks(f, skip);
    blockId := start + skip;
  }

  /** A run of used blocks is written. */
  method WriteRun(f: Format, bits: seq<bool>, ghost blocks: seq<seq<byte>>, ghost head: seq<byte>,
                  ghost background: seq<byte>, target: Target, ghost start: nat, ghost count: nat, data: seq<byte>)
    requires start + count <= |bits| && Rank(bits, |bits|) == |blocks| && Sized(f, blocks)
    requires forall i :: start <= i < start + count ==> bits[i]
    requires f.Bytes(start) <= f.Bytes(|bits|) <= |background|
    requires Rank(bits, start) + count <= |blocks|
    requires data == Flat(blocks[Rank(bits, start)..Rank(bits, start) + count])
    requires SettledAt(f, bits, blocks, head, background, target, start)
    modifies target
    ensures Rank(bits, start + count) == Rank(bits, start) + count && f.Bytes(start + count) <= f.Bytes(|bits|)
    ensures SettledAt(f, bits, blocks, head, background, target, start + count)
  {
    hide Assembled, Rank, Format.Bytes, Flat, Overwrite, Settled;
    RankMonotone(bits, start + count, |bits|);
    RankRun(bits, start, start + count);
    WriteSettles(f, bits, blocks, target.pipe, head, background, start, start + count);
    FlatLength(f, blocks[Rank(bits, start)..Rank(bits, start) + count]);
    target.Write(data);
  }

  /** The scatter loop: a batch of blocks goes to the next used positions. */
  method WriteBatch(f: Format, bits: seq<bool>, ghost blocks: seq<seq<byte>>, ghost head: seq<byte>,
                    ghost background: seq<byte>, target: Target, writeBuffer: array<byte>, blocksRead: nat, start: nat)
    returns (blockId: nat)
    requires start <= |bits| && Rank(bits, |bits|) == |blocks| && Sized(f, blocks)
    requires f.Bytes(|bits|) <= |background| && f.Bytes(start) <= f.Bytes(|bits|)
    requires target.pipe ==> background == Zeros(f.Bytes(|bits|))
    requires Rank(bits, start) + blocksRead <= |blocks|
    requires f.Bytes(blocksRead) <= writeBuffer.Length
    requires writeBuffer[..f.Bytes(blocksRead)]
             == Flat(blocks[Rank(bits, start)..Rank(bits, start) + blocksRead])
    requires SettledAt(f, bits, blocks, head, background, target, start)
    modifies target
    ensures start <= blockId <= |bits| && Rank(bits, blockId) == Rank(bits, start) + blocksRead
    ensures f.Bytes(blockId) <= f.Bytes(|bits|)
    ensures SettledAt(f, bits, blocks, head, background, target, blockId)
  {
    hide Assembled, Rank, Format.Bytes, Flat, Overwrite, Sized, SettledAt, Zeros;
    ghost var copied := Rank(bits, start);
    var buffer := writeBuffer[..f.Bytes(blocksRead)];
    var written: nat := 0;
    blockId := start;
    while written < blocksRead
      invariant start <= blockId <= |bits| && written <= blocksRead
      invariant Rank(bits, blockId) == copied + written
      invariant f.Bytes(blockId) <= f.Bytes(|bits|)
      invariant SettledAt(f, bits, blocks, head, background, target, blockId)
      decreases |bits| - blockId
    {
      blockId := SkipRun(f, bits, blocks, head, background, target, blockId);
      var count := ScanUsed(bits, blockId, blocksRead - written);
      BufferRun(f, blocks, buffer, copied, blocksRead, written, count);
      WriteRun(f, bits, blocks, head, background, target, blockId, count,
               buffer[f.Bytes(written)..f.Bytes(written + count)]);
      written := written + count;
      blockId := blockId + count;
    }
  }

  lemma BufferRun(f: Format, blocks: seq<seq<byte>>, buffer: seq<byte>, copied: nat, count: nat, a: nat, n: nat)
    requires Sized(f, blocks) && copied + count <= |blocks| && a + n <= count
    requires buffer == Flat(blocks[copied..copied + count])
    ensures f.Bytes(a) + f.Bytes(n) == f.Bytes(a + n) <= |buffer| == f.Bytes(count)
    ensures buffer[f.Bytes(a)..f.Bytes(a + n)] == Flat(blocks[copied + a..copied + a + n])
  {
    hide Flat, Format.Bytes;
    var batch := blocks[copied..copied + count];
    FlatInside(f, batch, a, a + n);
    BytesSum(f, a, n);
    SliceOfSlice(blocks, copied, copied + count, a, a + n);
  }

  lemma SettledRoom(f: Format, bits: seq<bool>, blocks: seq<seq<byte>>, pipe: bool, head: seq<byte>,
                    background: seq<byte>, n: nat)
    requires n <= |bits| && Rank(bits, n) <= |blocks| && Sized(f, blocks)
    requires f.Bytes(n) <= f.Bytes(|bits|) <= |background|
    ensures |Settled(f, bits, blocks, pipe, head, background, n)|
            == |head| + (if pipe then f.Bytes(n) else |background|)
  {
  }

  // ----- the whole restore

  datatype Status = Ok | ReadError | ChecksumError

  /** The condition of the source for reading one checksum more is that this is the
      last batch and that the tail checksum is one the restore looks at. */
  lemma TailReadIff(f: Format, used: nat, capacity: nat, copied: nat, blocksRead: nat)
    requires 0 < capacity && copied % capacity == 0 && copied <= used
    requires blocksRead == (if copied + capacity < used then capacity else used - copied)
    ensures 0 < f.perCs && blocksRead < capacity && blocksRead % f.perCs != 0 && used % f.perCs != 0
            <==> copied + blocksRead == used && TailRead(f, used, capacity)
  {
    if blocksRead < capacity {
      ModOfSum(copied, blocksRead, capacity);
    } else {
      ModOfNext(copied, capacity);
      if 0 < f.perCs { SmallMod(0, f.perCs); }
    }
  }

  /** How many blocks the batch after `copied` blocks has. */
  function BatchCount(used: nat, capacity: nat, copied: nat): (n: nat)
    requires copied <= used
    ensures copied + n <= used
  {
    if copied + capacity < used then capacity else used - copied
  }

  /** How many bytes are read for it. */
  ghost function ReadLength(f: Format, used: nat, capacity: nat, copied: nat): int
    requires 0 < capacity && copied <= used
  {
    var n := BatchCount(used, capacity, copied);
    f.Offset(copied + n) - f.Offset(copied)
    + (if copied + n == used && TailRead(f, used, capacity) then f.csSize else 0)
  }

  /** The last batch has one group end more than a full batch at the beginning, reads the tail checksum too, and its
      missing blocks are less than a checksum. */
  predicate TailTooLarge(f: Format, used: nat, capacity: nat)
    requires 0 < capacity
  {
    var n := used % capacity;
    && TailRead(f, used, capacity)
    && n <= used && f.ChecksumCount(capacity) < f.ChecksumCount(used) - f.ChecksumCount(used - n)
    && (capacity - n) * f.blockSize < f.csSize
  }

  lemma RoomAlgebra(n: nat, d: int, capacity: nat, k: int, bs: nat, cs: nat)
    requires n <= capacity && d <= k + 1
    ensures n * bs + d * cs <= capacity * bs + k * cs <==> !(k < d && (capacity - n) * bs < cs)
  {
    MulDistributes(n, capacity - n, bs);
    MulDistributes(k, d - k, cs);
    MulMonotone(0, capacity - n, bs);
    if d <= k {
      MulMonotone(d, k, cs);
    } else {
      assert d - k == 1;
    }
  }

  /** The last, short batch with its tail checksum. */
  lemma TailFitsIff(f: Format, used: nat, capacity: nat, copied: nat)
    requires 0 < capacity && copied % capacity == 0 && copied <= used < copied + capacity && TailRead(f, used, capacity)
    ensures f.Offset(used) - f.Offset(copied) <= f.Offset(capacity) <==> !TailTooLarge(f, used, capacity)
  {
    hide Format.Offset;
    var n := used - copied;
    ModOfSum(copied, n, capacity);
    OffsetClosedForm(f, used);
    OffsetClosedForm(f, copied);
    OffsetClosedForm(f, capacity);
    MulDistributes(copied, n, f.blockSize);
    DivSum(copied, n, f.perCs);
    DivMonotone(n, capacity, f.perCs);
    var d := f.ChecksumCount(used) - f.ChecksumCount(copied);
    MulDistributes(f.ChecksumCount(copied), d, f.csSize);
    RoomAlgebra(n, d, capacity, f.ChecksumCount(capacity), f.blockSize, f.csSize);
  }

  /** Every read fits the read buffer if and only if the last one is not too large. */
  lemma ReadsFitIff(f: Format, used: nat, capacity: nat)
    requires 0 < capacity
    ensures (forall copied: nat :: copied % capacity == 0 && copied <= used ==>
               ReadLength(f, used, capacity, copied) <= f.Offset(capacity) + f.csSize)
            <==> !TailTooLarge(f, used, capacity)
  {
    hide Format.Offset, TailTooLarge, ReadLength;
    forall copied: nat | copied % capacity == 0 && copied <= used
      ensures ReadLength(f, used, capacity, copied) <= f.Offset(capacity) + f.csSize
              <==> !(used < copied + capacity && TailTooLarge(f, used, capacity))
    {
      ReadFitsIff(f, used, capacity, copied);
    }
    if TailTooLarge(f, used, capacity) {
      LastBatch(used, capacity);
      var copied: nat := used - used % capacity;
      assert f.Offset(capacity) + f.csSize < ReadLength(f, used, capacity, copied);
    }
  }

  lemma LastBatch(used: nat, capacity: nat)
    requires 0 < capacity
    ensures used % capacity <= used && (used - used % capacity) % capacity == 0
    ensures used < used - used % capacity + capacity
  {
    var q := used / capacity;
    DivNonNegative(used, capacity);
    MulMonotone(0, q, capacity);
    DivUnique(used - used % capacity, capacity, q, 0);
  }

  lemma ReadFitsIff(f: Format, used: nat, capacity: nat, copied: nat)
    requires 0 < capacity && copied % capacity == 0 && copied <= used
    ensures ReadLength(f, used, capacity, copied) <= f.Offset(capacity) + f.csSize
            <==> !(used < copied + capacity && TailTooLarge(f, used, capacity))
  {
    hide Format.Offset;
    BufferRoom(f, copied, BatchCount(used, capacity, copied), capacity);
    if used < copied + capacity {
      if TailRead(f, used, capacity) {
        TailFitsIff(f, used, capacity, copied);
      }
    } else if used == copied + capacity {
      ModOfNext(copied, capacity);
      if 0 < f.perCs { SmallMod(0, f.perCs); }
    }
  }

  /** A block no smaller than a checksum is enough. */
  lemma LargeBlocksFit(f: Format, used: nat, capacity: nat)
    requires 0 < capacity && f.csSize <= f.blockSize
    ensures !TailTooLarge(f, used, capacity)
  {
    DivNonNegative(used, capacity);
    MulMonotone(1, capacity - used % capacity, f.blockSize);
  }

  /** Blocks of one byte, 513 of them to a checksum of 16 bytes, and a buffer for 512: of 1023 blocks the second
      read takes 543 bytes, and the buffer has 528. */
  lemma ReadCanBeTooLarge(f: Format, used: nat, capacity: nat)
    requires f.blockSize == 1 && f.csSize == 16 && f.perCs == 513 && used == 1023 && capacity == 512
    ensures TailTooLarge(f, used, capacity)
    ensures ReadLength(f, used, capacity, capacity) == 543 && f.Offset(capacity) + f.csSize == 528
  {
    OffsetClosedForm(f, used);
    OffsetClosedForm(f, capacity);
  }

  /** The size of the next read, which the read buffer has room for. */
  method ReadSize(f: Format, used: nat, capacity: nat, copied: nat, blocksRead: nat) returns (size: nat)
    requires f.Valid() && BatchFits(f, capacity) && 0 < capacity && !TailTooLarge(f, used, capacity)
    requires copied % capacity == 0 && copied <= used
    requires blocksRead == (if copied + capacity < used then capacity else used - copied)
    ensures f.Offset(copied) <= f.Offset(copied + blocksRead) <= f.Offset(used)
    ensures f.Offset(copied) + size
            == if copied + blocksRead == used then Needed(f, used, capacity) else f.Offset(copied + blocksRead)
    ensures f.Offset(copied + blocksRead) <= f.Offset(copied) + size <= Needed(f, used, capacity)
    ensures size <= f.BlocksToBytes(0, capacity) + f.csSize
  {
    BatchFitsExact(f, capacity, 0, capacity);
    BatchFitsExact(f, capacity, copied, blocksRead);
    ReadFitsIff(f, used, capacity, copied);
    OffsetMonotone(f, copied, copied + blocksRead);
    OffsetMonotone(f, copied + blocksRead, used);
    TailReadIff(f, used, capacity, copied, blocksRead);
    hide Format.Offset, Format.BlocksToBytes, TailRead, BatchFits;
    size := f.BlocksToBytes(copied, blocksRead);
    if 0 < f.perCs && blocksRead < capacity && blocksRead % f.perCs != 0 && used % f.perCs != 0 {
      size := size + f.csSize;
    }
  }

  /** What the restore loop keeps: after `copied` blocks everything read so far was
      right, and the target is settled up to `blockId`. */
  ghost predicate Restoring(f: Format, bits: seq<bool>, image: seq<byte>, blocks: seq<seq<byte>>,
                            head: seq<byte>, background: seq<byte>, capacity: nat, ignoreCrc: bool, target: Target,
                            copied: nat, blockId: nat, pos: nat, inCs: nat, fed: seq<byte>)
    reads target
  {
    && 0 < capacity
    && Rank(bits, |bits|) == |blocks| && blocks == StreamBlocks(f, image, |blocks|)
    && f.Bytes(|bits|) <= |background|
    && (target.pipe ==> background == Zeros(f.Bytes(|bits|)))
    && blockId <= |bits| && f.Bytes(blockId) <= f.Bytes(|bits|) && Rank(bits, blockId) == copied <= |blocks|
    && SettledAt(f, bits, blocks, head, background, target, blockId)
    && Tracks(f, blocks, copied, ignoreCrc, inCs, fed)
    && (copied < |blocks| ==> copied % capacity == 0)
    && pos == (if copied == |blocks| then Needed(f, |blocks|, capacity) else f.Offset(copied)) <= |image|
    && (!ignoreCrc ==> ChecksHold(f, image, blocks, copied))
    && (!ignoreCrc && copied == |blocks| && TailRead(f, |blocks|, capacity) ==> TailHolds(f, image, blocks))
  }

  /** The comparison after a short batch: it covers the tail checksum and nothing else. */
  method CheckTail(f: Format, ghost image: seq<byte>, ghost blocks: seq<seq<byte>>, capacity: nat, used: nat,
                   ghost copied: nat, blocksRead: nat, readBuffer: seq<byte>, readOffset: nat,
                   blocksInCs: nat, fed: seq<byte>)
    returns (ok: bool)
    requires f.Valid() && used == |blocks|
    requires 0 < capacity && copied % capacity == 0 && copied <= used
    requires blocksRead == (if copied + capacity < used then capacity else used - copied)
    requires Window(image, readBuffer, f.Offset(copied))
    requires f.Offset(copied) + readOffset == f.Offset(copied + blocksRead)
    requires f.Offset(copied) + |readBuffer|
             == if copied + blocksRead == used then Needed(f, used, capacity) else f.Offset(copied + blocksRead)
    requires Tracks(f, blocks, copied + blocksRead, false, blocksInCs, fed)
    ensures ok <==> (copied + blocksRead == used && TailRead(f, used, capacity) ==> TailHolds(f, image, blocks))
  {
    TailReadIff(f, used, capacity, copied, blocksRead);
    WindowBound(image, readBuffer, f.Offset(copied));
    ok := true;
    if 0 < f.perCs {
      InGroupIsMod(f, copied + blocksRead);
      if blocksInCs != 0 && blocksRead < capacity && blocksRead % f.perCs != 0 {
        WindowSlice(image, readBuffer, f.Offset(copied), readOffset, readOffset + f.csSize);
        ok := readBuffer[readOffset..readOffset + f.csSize] == f.digest(fed);
      }
    }
  }

  /** One turn of the restore loop. */
  method RestoreBatch(f: Format, bits: seq<bool>, image: seq<byte>, ghost blocks: seq<seq<byte>>,
                      ghost head: seq<byte>, ghost background: seq<byte>, capacity: nat, used: nat, ignoreCrc: bool,
                      target: Target, writeBuffer: array<byte>,
                      copied: nat, start: nat, at: nat, inCs: nat, fedIn: seq<byte>)
    returns (status: Status, blocksRead: nat, blockId: nat, pos: nat, blocksInCs: nat, fed: seq<byte>)
    requires f.Valid() && BatchFits(f, capacity) && used == |blocks| && 0 < capacity && !TailTooLarge(f, used, capacity)
    requires Restoring(f, bits, image, blocks, head, background, capacity, ignoreCrc, target,
                       copied, start, at, inCs, fedIn)
    requires copied < used && writeBuffer.Length == f.Bytes(capacity)
    modifies target, writeBuffer
    ensures status == Ok ==>
              && copied < copied + blocksRead <= used
              && Restoring(f, bits, image, blocks, head, background, capacity, ignoreCrc, target,
                           copied + blocksRead, blockId, pos, blocksInCs, fed)
    ensures status == ReadError ==> |image| < Needed(f, used, capacity)
    ensures status == ChecksumError ==> !ignoreCrc && !AllChecksHold(f, image, used, capacity)
    ensures status != Ok ==> Sized(f, blocks) && Interrupted(f, bits, blocks, head, background, target)
  {
    hide Format.Valid, Format.Offset, Format.Bytes, Format.InGroup, BatchFits, StreamBlocks, Needed, TailRead;
    hide TailHolds, TailTooLarge;
    hide Rank, Tracks, SettledAt, Zeros, Window, Flat, ChecksHold, Interrupted;
    blocksRead := if copied + capacity < used then capacity else used - copied;
    var size := ReadSize(f, used, capacity, copied, blocksRead);
    status, blockId, pos, blocksInCs, fed := Ok, start, at + size, inCs, fedIn;
    if |image| < at + size {
      StopsAt(f, bits, image, blocks, head, background, capacity, ignoreCrc, target, copied, start, at, inCs, fedIn);
      status := ReadError;
      return;
    }
    var readBuffer := image[at..at + size];
    WindowIntro(image, at, at + size);
    BytesMonotone(f, blocksRead, capacity);
    var ok, readOffset;
    ok, readOffset, blocksInCs, fed :=
      DecodeBatch(f, image, blocks, copied, readBuffer, blocksRead, ignoreCrc, writeBuffer, inCs, fedIn);
    if ok && !ignoreCrc {
      ok := CheckTail(f, image, blocks, capacity, used, copied, blocksRead, readBuffer, readOffset, blocksInCs, fed);
    }
    if !ok {
      ChecksShrink(f, image, blocks, copied + blocksRead);
      StopsAt(f, bits, image, blocks, head, background, capacity, ignoreCrc, target, copied, start, at, inCs, fedIn);
      status := ChecksumError;
      return;
    }
    blockId := WriteBatch(f, bits, blocks, head, background, target, writeBuffer, blocksRead, start);
    if copied + blocksRead < used {
      ModOfNext(copied, capacity);
    }
  }

  lemma WindowIntro(image: seq<byte>, a: nat, b: nat)
    requires a <= b <= |image|
    ensures Window(image, image[a..b], a)
  {
  }

  lemma ChecksShrink(f: Format, image: seq<byte>, blocks: seq<seq<byte>>, n: nat)
    requires n <= |blocks|
    ensures ChecksHold(f, image, blocks, |blocks|) ==> ChecksHold(f, image, blocks, n)
  {
  }

  /** `blocks_used_fix`: the used count is taken from the bitmap. */
  method CountUsed(bits: seq<bool>) returns (used: nat)
    ensures used == Rank(bits, |bits|)
  {
    used := 0;
    for i := 0 to |bits|
      invariant used == Rank(bits, i)
    {
      if bits[i] {
        used := used + 1;
      }
    }
  }

  /** What a successful restore leaves: `head` is what precedes the partition, and a
      pipe is filled up with zeros to the size of the device. */
  ghost function Restored(f: Format, bits: seq<bool>, blocks: seq<seq<byte>>, pipe: bool,
                          head: seq<byte>, background: seq<byte>, deviceSize: nat): seq<byte>
    requires Rank(bits, |bits|) <= |blocks| && Sized(f, blocks)
    requires f.Bytes(|bits|) <= |background|
  {
    Settled(f, bits, blocks, pipe, head, background, |bits|)
    + (if pipe && f.Bytes(|bits|) < deviceSize then Zeros(deviceSize - f.Bytes(|bits|)) else [])
  }

  /** What a restore that stops leaves: the target is settled up to some block and as it was from there on. */
  ghost predicate Interrupted(f: Format, bits: seq<bool>, blocks: seq<seq<byte>>, head: seq<byte>,
                              background: seq<byte>, target: Target)
    requires Sized(f, blocks)
    reads target
  {
    exists n: nat :: n <= |bits| && Rank(bits, n) <= |blocks| && f.Bytes(n) <= |background|
                     && SettledAt(f, bits, blocks, head, background, target, n)
  }

  lemma StopsAt(f: Format, bits: seq<bool>, image: seq<byte>, blocks: seq<seq<byte>>, head: seq<byte>,
                background: seq<byte>, capacity: nat, ignoreCrc: bool, target: Target,
                copied: nat, blockId: nat, pos: nat, inCs: nat, fed: seq<byte>)
    requires Restoring(f, bits, image, blocks, head, background, capacity, ignoreCrc, target,
                       copied, blockId, pos, inCs, fed)
    ensures Sized(f, blocks) && Interrupted(f, bits, blocks, head, background, target)
  {
  }

  /** Everything that precedes the restored partition in the target. */
  ghost function Head(pipe: bool, contents: seq<byte>, pos: nat, offset: nat): seq<byte>
    requires pos <= |contents| && (!pipe ==> pos + offset <= |contents|)
  {
    if pipe then contents + Zeros(offset) else contents[..pos + offset]
  }

  /** What unused blocks read as: zeros on a pipe, the old contents on a device. */
  ghost function Background(f: Format, total: nat, pipe: bool, contents: seq<byte>, pos: nat, offset: nat): seq<byte>
    requires !pipe ==> pos + offset <= |contents|
  {
    if pipe then Zeros(f.Bytes(total)) else contents[pos + offset..]
  }

  lemma StartSettled(f: Format, bits: seq<bool>, blocks: seq<seq<byte>>, pipe: bool, contents: seq<byte>, pos: nat,
                     offset: nat)
    requires pos <= |contents| && (!pipe ==> pos + offset <= |contents|) && Sized(f, blocks)
    ensures f.Bytes(0) == 0 && Rank(bits, 0) == 0
    ensures Settled(f, bits, blocks, pipe, Head(pipe, contents, pos, offset),
                    Background(f, |bits|, pipe, contents, pos, offset), 0)
            == if pipe then contents + Zeros(offset) else contents
  {
  }

  lemma StartTracks(f: Format, image: seq<byte>, blocks: seq<seq<byte>>, capacity: nat, ignoreCrc: bool)
    requires 0 < capacity
    ensures Tracks(f, blocks, 0, ignoreCrc, 0, [])
    ensures 0 % capacity == 0 && f.Offset(0) == 0 && Needed(f, 0, capacity) == 0
    ensures ChecksHold(f, image, blocks, 0) && !TailRead(f, 0, capacity)
  {
    SmallMod(0, capacity);
    if 0 < f.perCs { SmallMod(0, f.perCs); }
  }

  /** After the loop: the rest of the partition and, on a pipe, of the device. */
  method FillUp(f: Format, bits: seq<bool>, ghost blocks: seq<seq<byte>>, ghost head: seq<byte>,
                ghost background: seq<byte>, target: Target, start: nat, deviceSize: nat)
    requires 0 < f.blockSize
    requires start <= |bits| && Rank(bits, start) == Rank(bits, |bits|) == |blocks| && Sized(f, blocks)
    requires f.Bytes(start) <= f.Bytes(|bits|) <= |background|
    requires target.pipe ==> background == Zeros(f.Bytes(|bits|))
    requires SettledAt(f, bits, blocks, head, background, target, start)
    modifies target
    ensures target.contents == Restored(f, bits, blocks, target.pipe, head, background, deviceSize)
  {
    hide Rank, Format.Bytes, Assembled, Settled, Zeros, Sized;
    RankGap(bits, start, |bits|);
    SkipSettles(f, bits, blocks, target.pipe, head, background, start, |bits|);
    SettledRoom(f, bits, blocks, target.pipe, head, background, start);
    if target.pipe {
      if start < |bits| {
        target.SkipBlocks(f, |bits| - start);
      } else {
        EmptyZeros(f);
      }
      if f.Bytes(|bits|) < deviceSize {
        SettledRoom(f, bits, blocks, target.pipe, head, background, |bits|);
        target.SkipBytes(f.blockSize, deviceSize - f.Bytes(|bits|));
      }
    }
  }

  lemma EmptyZeros(f: Format)
    ensures f.Bytes(0) == 0 && forall s: seq<byte> :: s + Zeros(0) == s
  {
  }

  /** src/main.c, the restore branch.  It succeeds on exactly the images `Accepts`
      describes, and then the target is `Restored`. */
  method Restore(f: Format, bits: seq<bool>, image: seq<byte>, bufferSize: nat, ignoreCrc: bool, target: Target,
                 offset: nat, deviceSize: nat)
    returns (status: Status)
    requires f.Valid() && BatchFits(f, Capacity(f, bufferSize))
    requires !TailTooLarge(f, Rank(bits, |bits|), Capacity(f, bufferSize))
    requires target.pos <= |target.contents|
    requires target.pipe ==> target.pos == |target.contents|
    requires !target.pipe ==> target.pos + offset + f.Bytes(|bits|) <= |target.contents|
    modifies target
    ensures status == Ok <==> Accepts(f, image, Rank(bits, |bits|), Capacity(f, bufferSize), ignoreCrc)
    ensures status == Ok ==>
              target.contents == Restored(f, bits, StreamBlocks(f, image, Rank(bits, |bits|)), target.pipe,
                                          old(Head(target.pipe, target.contents, target.pos, offset)),
                                          old(Background(f, |bits|, target.pipe, target.contents, target.pos, offset)),
                                          deviceSize)
    ensures status == ReadError ==> |image| < Needed(f, Rank(bits, |bits|), Capacity(f, bufferSize))
    ensures status == ChecksumError ==>
              !ignoreCrc && !AllChecksHold(f, image, Rank(bits, |bits|), Capacity(f, bufferSize))
    ensures status != Ok ==>
              Interrupted(f, bits, StreamBlocks(f, image, Rank(bits, |bits|)),
                          old(Head(target.pipe, target.contents, target.pos, offset)),
                          old(Background(f, |bits|, target.pipe, target.contents, target.pos, offset)), target)
  {
    ghost var head := Head(target.pipe, target.contents, target.pos, offset);
    ghost var background := Background(f, |bits|, target.pipe, target.contents, target.pos, offset);
    var capacity := Capacity(f, bufferSize);
    var used := CountUsed(bits);
    ghost var blocks := StreamBlocks(f, image, used);
    StartSettled(f, bits, blocks, target.pipe, target.contents, target.pos, offset);
    StartTracks(f, image, blocks, capacity, ignoreCrc);
    var writeBuffer := new byte[f.Bytes(capacity)];
    target.SkipBytes(f.blockSize, offset);
    status := RestoreBatches(f, bits, image, blocks, head, background, capacity, used, ignoreCrc, target, writeBuffer,
                             deviceSize);
  }

  /** `ftruncate` */
  function Resized(s: seq<byte>, n: nat): (r: seq<byte>)
    ensures |r| == n
  {
    if n <= |s| then s[..n] else s + Zeros(n - |s|)
  }

  lemma ZerosParts(f: Format, total: nat, offset: nat)
    ensures Head(false, Zeros(offset + f.Bytes(total)), 0, offset) == Zeros(offset)
    ensures Background(f, total, false, Zeros(offset + f.Bytes(total)), 0, offset) == Zeros(f.Bytes(total))
  {
  }

  lemma NothingBehindBytes(f: Format, bits: seq<bool>, blocks: seq<seq<byte>>, head: seq<byte>, background: seq<byte>,
                           deviceSize: nat)
    requires Rank(bits, |bits|) <= |blocks| && Sized(f, blocks) && |background| == f.Bytes(|bits|)
    ensures Restored(f, bits, blocks, false, head, background, deviceSize)
            == head + Assembled(f, bits, blocks, background, |bits|)
  {
  }

  /** Byte `x` of block `b` of a file restored from `image`: that of the stream if the block is used, else zero. */
  ghost predicate RawByte(f: Format, bits: seq<bool>, image: seq<byte>, offset: nat, file: seq<byte>, b: nat, x: nat)
    requires b < |bits|
  {
    var y := offset + f.Bytes(b) + x;
    y < |file| ==>
      if bits[b] then
        f.Offset(Rank(bits, b)) + x < |image| && file[y] == image[f.Offset(Rank(bits, b)) + x]
      else file[y] == 0
  }

  /** The file of a raw restore: it has the size of the device or, if the last block is used, ends with that block;
      as far as it goes every block is at its place and every other byte is zero. */
  ghost predicate RawFile(f: Format, bits: seq<bool>, image: seq<byte>, offset: nat, deviceSize: nat, file: seq<byte>)
    requires bits != []
  {
    && |file| == (if bits[|bits| - 1] then offset + f.Bytes(|bits|) else deviceSize)
    && (forall b: nat, x: nat :: b < |bits| && x < f.blockSize ==> RawByte(f, bits, image, offset, file, b, x))
    && forall y :: 0 <= y < |file| && (y < offset || offset + f.Bytes(|bits|) <= y) ==> file[y] == 0
  }

  /** A byte of the whole partition behind `offset` bytes of zeros. */
  lemma WholeByte(f: Format, bits: seq<bool>, image: seq<byte>, offset: nat, b: nat, x: nat)
    requires b < |bits| && x < f.blockSize && f.Offset(Rank(bits, |bits|)) <= |image|
    ensures var blocks := StreamBlocks(f, image, Rank(bits, |bits|));
            var whole := Zeros(offset) + Assembled(f, bits, blocks, Zeros(f.Bytes(|bits|)), |bits|);
            && |whole| == offset + f.Bytes(|bits|) && offset + f.Bytes(b) + x < |whole|
            && RawByte(f, bits, image, offset, whole, b, x)
  {
    hide Rank, Format.Bytes, Assembled, StreamBlocks, StreamBlock, Zeros, Format.Offset;
    var used := Rank(bits, |bits|);
    var blocks, zeros := StreamBlocks(f, image, used), Zeros(f.Bytes(|bits|));
    var part := Assembled(f, bits, blocks, zeros, |bits|);
    AssembledAt(f, bits, blocks, zeros, |bits|, b);
    BytesStep(f, b);
    assert BlockAt(f, part, b)[x] == part[f.Bytes(b) + x];
    assert BlockAt(f, zeros, b)[x] == 0;
    if bits[b] {
      var r := Rank(bits, b);
      assert blocks[r] == StreamBlock(f, image, r);
      OffsetMonotone(f, r + 1, used);
      OffsetStep(f, r);
      StreamBlockInside(f, image, r);
    }
  }

  lemma ResizedBytes(s: seq<byte>, n: nat)
    ensures forall y :: 0 <= y < n ==> Resized(s, n)[y] == if y < |s| then s[y] else 0
  {
  }

  lemma RawByteKept(f: Format, bits: seq<bool>, image: seq<byte>, offset: nat, whole: seq<byte>, file: seq<byte>,
                    b: nat, x: nat)
    requires b < |bits| && RawByte(f, bits, image, offset, whole, b, x)
    requires offset + f.Bytes(b) + x < |whole|
    requires forall y :: 0 <= y < |file| && y < |whole| ==> file[y] == whole[y]
    ensures RawByte(f, bits, image, offset, file, b, x)
  {
  }

  /** Cutting or extending the partition to the size of the device. */
  lemma ResizedIsRaw(f: Format, bits: seq<bool>, image: seq<byte>, offset: nat, deviceSize: nat, whole: seq<byte>,
                     end: nat)
    requires bits != [] && end == offset + f.Bytes(|bits|) == |whole|
    requires forall b: nat, x: nat :: b < |bits| && x < f.blockSize ==>
               RawByte(f, bits, image, offset, whole, b, x) && offset + f.Bytes(b) + x < end
    requires forall y :: 0 <= y < offset ==> whole[y] == 0
    ensures RawFile(f, bits, image, offset, deviceSize,
                    if bits[|bits| - 1] then whole else Resized(whole, deviceSize))
  {
    hide Format.Bytes, Resized, RawByte;
    var file := if bits[|bits| - 1] then whole else Resized(whole, deviceSize);
    ResizedBytes(whole, deviceSize);
    forall b: nat, x: nat | b < |bits| && x < f.blockSize
      ensures RawByte(f, bits, image, offset, file, b, x)
    {
      RawByteKept(f, bits, image, offset, whole, file, b, x);
    }
  }

  lemma RestoredIsRaw(f: Format, bits: seq<bool>, image: seq<byte>, offset: nat, deviceSize: nat, used: nat)
    requires bits != [] && used == Rank(bits, |bits|) && f.Offset(used) <= |image| && 0 < f.blockSize
    ensures var whole := Zeros(offset)
                         + Assembled(f, bits, StreamBlocks(f, image, used), Zeros(f.Bytes(|bits|)), |bits|);
            RawFile(f, bits, image, offset, deviceSize,
                    if bits[|bits| - 1] then whole else Resized(whole, deviceSize))
  {
    hide Rank, Format.Bytes, Assembled, StreamBlocks, Format.Offset, Resized, RawByte, RawFile;
    var whole := Zeros(offset) + Assembled(f, bits, StreamBlocks(f, image, used), Zeros(f.Bytes(|bits|)), |bits|);
    forall b: nat, x: nat | b < |bits| && x < f.blockSize
      ensures RawByte(f, bits, image, offset, whole, b, x) && offset + f.Bytes(b) + x < |whole|
    {
      WholeByte(f, bits, image, offset, b, x);
    }
    ResizedIsRaw(f, bits, image, offset, deviceSize, whole, offset + f.Bytes(|bits|));
  }

  /** The restore to a new file (`restore_raw_file`). What is sought over in a file reads as zeros, so the file is
      like a device of zeros that ends with the partition. It really reaches that far if the last block is used,
      since that is then written last; otherwise it is given the size of the device. */
  method RestoreRaw(f: Format, bits: seq<bool>, image: seq<byte>, bufferSize: nat, ignoreCrc: bool, offset: nat,
                    deviceSize: nat)
    returns (status: Status, file: seq<byte>)
    requires f.Valid() && BatchFits(f, Capacity(f, bufferSize)) && bits != []
    requires !TailTooLarge(f, Rank(bits, |bits|), Capacity(f, bufferSize))
    ensures status == Ok <==> Accepts(f, image, Rank(bits, |bits|), Capacity(f, bufferSize), ignoreCrc)
    ensures status == Ok ==> RawFile(f, bits, image, offset, deviceSize, file)
  {
    hide Rank, Format.Bytes, Assembled, StreamBlocks, BatchFits, Capacity, Restored, Head;
    hide Background, TailTooLarge, RawFile, Format.Offset, AllChecksHold;
    var target := new Target(Zeros(offset + f.Bytes(|bits|)), false);
    ZerosParts(f, |bits|, offset);
    NothingBehindBytes(f, bits, StreamBlocks(f, image, Rank(bits, |bits|)), Zeros(offset), Zeros(f.Bytes(|bits|)),
                       deviceSize);
    status := Restore(f, bits, image, bufferSize, ignoreCrc, target, offset, deviceSize);
    file := target.contents;
    if !bits[|bits| - 1] {
      file := Resized(file, deviceSize);
    }
    if status == Ok {
      RestoredIsRaw(f, bits, image, offset, deviceSize, Rank(bits, |bits|));
    }
  }

  method RestoreBatches(f: Format, bits: seq<bool>, image: seq<byte>, ghost blocks: seq<seq<byte>>,
                        ghost head: seq<byte>, ghost background: seq<byte>, capacity: nat, used: nat, ignoreCrc: bool,
                        target: Target, writeBuffer: array<byte>, deviceSize: nat)
    returns (status: Status)
    requires f.Valid() && BatchFits(f, capacity) && used == |blocks| && writeBuffer.Length == f.Bytes(capacity)
    requires 0 < capacity && !TailTooLarge(f, used, capacity)
    requires Restoring(f, bits, image, blocks, head, background, capacity, ignoreCrc, target, 0, 0, 0, 0, [])
    modifies target, writeBuffer
    ensures status == Ok <==> Accepts(f, image, used, capacity, ignoreCrc)
    ensures status == Ok ==> target.contents == Restored(f, bits, blocks, target.pipe, head, background, deviceSize)
    ensures status == ReadError ==> |image| < Needed(f, used, capacity)
    ensures status == ChecksumError ==> !ignoreCrc && !AllChecksHold(f, image, used, capacity)
    ensures status != Ok ==> Interrupted(f, bits, blocks, head, background, target)
  {
    hide Rank, Format.Bytes, Settled, Zeros, Sized, ChecksHold, SettledAt, Tracks, TailHolds, TailRead, Needed;
    hide BatchFits;
    hide Format.Offset, Interrupted, TailTooLarge;
    status := Ok;
    var copied, blockId, pos, blocksInCs, fed: seq<byte> := 0, 0, 0, 0, [];
    while copied < used
      invariant status == Ok && copied <= used
      invariant Restoring(f, bits, image, blocks, head, background, capacity, ignoreCrc, target,
                          copied, blockId, pos, blocksInCs, fed)
    {
      var blocksRead;
      status, blocksRead, blockId, pos, blocksInCs, fed :=
        RestoreBatch(f, bits, image, blocks, head, background, capacity, used, ignoreCrc, target, writeBuffer,
                     copied, blockId, pos, blocksInCs, fed);
      if status != Ok {
        return;
      }
      copied := copied + blocksRead;
    }
    FillUp(f, bits, blocks, head, background, target, blockId, deviceSize);
  }
}
