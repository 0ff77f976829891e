/** src/exfat/io.c and the truncation of src/exfat/cluster.c: reading and writing a file's bytes. */
module ExfatFile {
  import opened Arithmetic
  import opened Sequences
  import opened ExfatChain
  import opened ExfatContents
  import opened ExfatErase
  import opened ExfatVolume
  import opened WordBitmap

  /** A file: its clusters are `cl`, just enough of them for its size. */
  ghost predicate FileIn(fat: seq<nat>, free: set<nat>, size: nat, cs: nat, node: FileNode, cl: seq<nat>)
    requires 0 < cs
    reads node
  {
    && node.Holds(fat, cl) && Listed(cl, size) && Elems(cl) !! free && Ended(fat, node.contiguous, cl)
    && |cl| == Needed(node.size, cs) < WRAP
  }

  ghost predicate IsFile(v: Volume, node: FileNode, cl: seq<nat>)
    reads v, v.chunk, node
  {
    v.Valid() && FileIn(v.fat, v.Free(), v.size, v.clusterSize, node, cl)
  }

  lemma FileCovered(v: Volume, node: FileNode, cl: seq<nat>)
    requires IsFile(v, node, cl)
    ensures 0 < v.clusterSize && Backed(v.data, v.clusterSize, cl) && Covers(v.clusterSize, cl, node.size)
  {
    hide Needed, Covers, Linked, Ended, Elems, FreeSet;
    CoversNeeded(v.clusterSize, cl, node.size);
  }

  /** What the file contains. */
  ghost function Bytes(v: Volume, node: FileNode, cl: seq<nat>): (s: seq<byte>)
    requires IsFile(v, node, cl)
    reads v, v.chunk, node
    ensures |s| == node.size
  {
    FileCovered(v, node, cl);
    Contents(v.data, v.clusterSize, cl, node.size)
  }

  /** `exfat_generic_pread` */
  method Pread(v: Volume, node: FileNode, size: nat, offset: nat, ghost cl: seq<nat>) returns (buffer: seq<byte>)
    requires IsFile(v, node, cl)
    modifies node`fptrIndex, node`fptrCluster
    ensures IsFile(v, node, cl) && Bytes(v, node, cl) == old(Bytes(v, node, cl))
    ensures buffer == if node.size <= offset then []
                      else Bytes(v, node, cl)[offset..if offset + size < node.size then offset + size else node.size]
  {
    hide Needed, Covers, Linked, Ended, Elems, FreeSet, Listed, Backed, Place, Contents;
    buffer := [];
    if node.size <= offset || size == 0 {
      return;
    }
    var cs := v.clusterSize;
    FileCovered(v, node, cl);
    NeededCovers(node.size, cs, offset);
    var cluster := v.Advance(node, offset / cs, cl);
    var off := offset % cs;
    var remainder := if size < node.size - offset then size else node.size - offset;
    buffer := ReadOn(v, node, cluster, off, remainder, offset, cl);
  }

  /** The loop of `exfat_generic_pread`. */
  method ReadOn(v: Volume, node: FileNode, first: nat, firstOff: nat, wanted: nat, offset: nat, ghost cl: seq<nat>)
    returns (buffer: seq<byte>)
    requires IsFile(v, node, cl) && offset + wanted <= node.size && 0 < wanted
    requires offset / v.clusterSize < |cl| && first == cl[offset / v.clusterSize] && firstOff == offset % v.clusterSize
    ensures buffer == Bytes(v, node, cl)[offset..offset + wanted]
  {
    hide Needed, Covers, Linked, Ended, Elems, FreeSet, Listed, Backed, Place, Contents;
    var cs := v.clusterSize;
    var cluster: nat, off: nat, remainder: nat := first, firstOff, wanted;
    FileCovered(v, node, cl);
    ghost var all := Bytes(v, node, cl);
    StartPlace(cs, offset);
    ghost var x: nat, k: nat := offset, offset / cs;
    InList(cl, v.size);
    buffer := [];
    while 0 < remainder
      invariant x + remainder == offset + wanted && x == offset + |buffer|
      invariant 0 < remainder ==> k < |cl| && cluster == cl[k] && off < cs && Place(cs, x, k, off)
      invariant buffer == all[offset..x]
    {
      var len := if cs - off < remainder then cs - off else remainder;
      PieceOfContents(v.data, cs, cl, node.size, x, k, off, len);
      ClusterBacked(v.data, cs, cl, k);
      buffer := buffer + v.data[cluster][off..off + len];
      remainder := remainder - len;
      if 0 < remainder {
        PlaceMoves(cs, x, k, off, len);
        NextPlace(cs, cl, node.size, x + len, k + 1);
        NextInList(v.fat, node.contiguous, cl, k);
      }
      x, k, off := x + len, k + 1, 0;
      cluster := Next(v.fat, node.contiguous, cluster);
    }
  }

  lemma StartPlace(cs: nat, x: nat)
    requires 0 < cs
    ensures 0 <= x / cs && x % cs < cs && Place(cs, x, x / cs, x % cs)
  {
    DivNonNegative(x, cs);
  }

  lemma NextPlace(cs: nat, cl: seq<nat>, n: nat, x: nat, k: nat)
    requires 0 < cs && Covers(cs, cl, n) && Place(cs, x, k, 0) && x < n
    ensures k < |cl|
  {
  }

  lemma ClusterBacked(data: seq<seq<byte>>, cs: nat, cl: seq<nat>, k: nat)
    requires Backed(data, cs, cl) && k < |cl|
    ensures cl[k] < |data| && |data[cl[k]]| == cs
  {
  }

  /** The loop of `exfat_generic_pwrite`. */
  method WriteOn(v: Volume, node: FileNode, first: nat, firstOff: nat, buffer: seq<byte>, offset: nat,
                 ghost cl: seq<nat>)
    requires v.Valid() && v.Owns(node, cl) && Covers(v.clusterSize, cl, node.size) && Backed(v.data, v.clusterSize, cl)
    requires offset + |buffer| <= node.size && 0 < |buffer|
    requires offset / v.clusterSize < |cl| && first == cl[offset / v.clusterSize] && firstOff == offset % v.clusterSize
    modifies v`data
    ensures v.Valid() && Backed(v.data, v.clusterSize, cl)
    ensures Contents(v.data, v.clusterSize, cl, node.size) ==
              Replaced(Contents(old(v.data), v.clusterSize, cl, node.size), offset, buffer)
    ensures forall c :: 0 <= c < |v.data| && c !in cl ==> v.data[c] == old(v.data)[c]
  {
    hide Needed, Covers, Linked, Ended, Elems, FreeSet, Listed, Backed, Place, Contents, Replaced;
    var cs := v.clusterSize;
    var cluster: nat, off: nat, done: nat := first, firstOff, 0;
    ghost var was := Contents(v.data, cs, cl, node.size);
    StartPlace(cs, offset);
    ghost var k: nat := offset / cs;
    InList(cl, v.size);
    OverwriteNothing(was, offset, buffer[..0]);
    while done < |buffer|
      invariant v.Valid() && Backed(v.data, cs, cl) && done <= |buffer|
      invariant done < |buffer| ==> k < |cl| && cluster == cl[k] && off < cs && Place(cs, offset + done, k, off)
      invariant Contents(v.data, cs, cl, node.size) == Replaced(was, offset, buffer[..done])
      invariant forall c :: 0 <= c < |v.data| && c !in cl ==> v.data[c] == old(v.data)[c]
    {
      var len := if cs - off < |buffer| - done then cs - off else |buffer| - done;
      var piece := buffer[done..done + len];
      PieceWritten(v.data, cs, cl, node.size, offset + done, k, off, piece, v.size);
      ClusterBacked(v.data, cs, cl, k);
      assert buffer[..done + len] == buffer[..done] + piece;
      OverwriteOn(was, offset, buffer[..done], piece);
      v.data := v.data[cluster := Replaced(v.data[cluster], off, piece)];
      if done + len < |buffer| {
        PlaceMoves(cs, offset + done, k, off, len);
        NextPlace(cs, cl, node.size, offset + done + len, k + 1);
        NextInList(v.fat, node.contiguous, cl, k);
      }
      k, off, done := k + 1, 0, done + len;
      cluster := Next(v.fat, node.contiguous, cluster);
    }
    assert buffer[..done] == buffer;
  }

  lemma OverwriteNothing(s: seq<byte>, x: nat, b: seq<byte>)
    requires x <= |s| && b == []
    ensures Replaced(s, x, b) == s
  {
  }

  /** `erase_range`: the first `end` bytes are zero from `begin` on. */
  method EraseRange(v: Volume, node: FileNode, begin: nat, end: nat, ghost cl: seq<nat>)
    requires v.Valid() && v.Owns(node, cl) && Covers(v.clusterSize, cl, end) && Backed(v.data, v.clusterSize, cl)
    modifies v`data, node`fptrIndex, node`fptrCluster
    ensures v.Valid() && v.Owns(node, cl) && Backed(v.data, v.clusterSize, cl)
    ensures begin < end ==> Contents(v.data, v.clusterSize, cl, end)
                              == Contents(old(v.data), v.clusterSize, cl, end)[..begin] + Zeros(end - begin)
    ensures end <= begin ==> v.data == old(v.data)
    ensures forall c :: 0 <= c < |v.data| && c !in cl ==> v.data[c] == old(v.data)[c]
  {
    hide Needed, Covers, Linked, Ended, Elems, FreeSet, Listed, Backed, Place, Contents, Replaced, Erased, Zeros;
    if end <= begin {
      return;
    }
    var cs := v.clusterSize;
    ghost var was := v.data;
    StartPlace(cs, begin);
    NextPlaceAt(cs, cl, end, begin);
    var cluster := v.Advance(node, begin / cs, cl);
    var off := begin % cs;
    var boundary: nat := begin + (cs - off);
    ghost var k: nat := begin / cs;
    InList(cl, v.size);
    ErasedNothing(was, cs, cl, end, begin);
    EraseRaw(v, cluster, off, (if boundary < end then boundary else end) - begin, was, cs, cl, end, begin, begin, k);
    PlaceMoves(cs, begin, k, off, boundary - begin);
    if end < boundary {
      ErasedBeyond(was, v.data, cs, cl, end, begin, end, boundary);
    }
    while boundary < end
      invariant v.Valid() && v.Owns(node, cl) && Backed(v.data, cs, cl) && begin <= boundary && k < |cl|
      invariant cluster == cl[k]
      invariant Place(cs, boundary, k + 1, 0) && Erased(was, v.data, cs, cl, end, begin, boundary)
      invariant forall c :: 0 <= c < |v.data| && c !in cl ==> v.data[c] == was[c]
    {
      NextPlace(cs, cl, end, boundary, k + 1);
      NextInList(v.fat, node.contiguous, cl, k);
      cluster := Next(v.fat, node.contiguous, cluster);
      EraseRaw(v, cluster, 0, cs, was, cs, cl, end, begin, boundary, k + 1);
      PlaceMoves(cs, boundary, k + 1, 0, cs);
      boundary, k := boundary + cs, k + 1;
    }
    ErasedAll(was, v.data, cs, cl, end, begin, boundary);
  }

  /** `erase_raw` inside one cluster. */
  method EraseRaw(v: Volume, cluster: nat, off: nat, size: nat, ghost was: seq<seq<byte>>, ghost cs: nat,
                  ghost cl: seq<nat>, ghost n: nat, ghost begin: nat, ghost x: nat, ghost k: nat)
    requires v.Valid() && cs == v.clusterSize && Backed(v.data, cs, cl) && Backed(was, cs, cl) && Covers(cs, cl, n)
    requires Listed(cl, v.size) && k < |cl| && cluster == cl[k] && Place(cs, x, k, off) && off + size <= cs
    requires begin <= x && Erased(was, v.data, cs, cl, n, begin, x)
    modifies v`data
    ensures v.Valid() && Backed(v.data, cs, cl) && Erased(was, v.data, cs, cl, n, begin, x + size)
    ensures forall c :: 0 <= c < |v.data| && c != cluster ==> v.data[c] == old(v.data)[c]
  {
    hide Covers, Listed, Backed, Place, Replaced, Erased;
    ErasedMore(was, v.data, cs, cl, n, begin, x, k, off, size, v.size);
    ClusterBacked(v.data, cs, cl, k);
    v.data := v.data[cluster := Replaced(v.data[cluster], off, seq(size, _ => 0))];
  }

  lemma NextPlaceAt(cs: nat, cl: seq<nat>, n: nat, x: nat)
    requires 0 < cs && Covers(cs, cl, n) && x < n
    ensures x / cs < |cl|
  {
  }

  lemma ErasedBeyond(data: seq<seq<byte>>, data': seq<seq<byte>>, cs: nat, cl: seq<nat>, n: nat, begin: nat,
                     upto: nat, more: nat)
    requires Backed(data, cs, cl) && Backed(data', cs, cl) && Covers(cs, cl, n)
    requires Erased(data, data', cs, cl, n, begin, upto) && n <= upto <= more
    ensures Erased(data, data', cs, cl, n, begin, more)
  {
  }

  /** The parts of the volume that belong neither to the file nor to the free clusters are as they were. */
  twostate predicate RestUntouched(v: Volume, cl: seq<nat>, free: set<nat>)
    reads v
  {
    && |v.fat| == |old(v.fat)| && |v.data| == |old(v.data)|
    && (forall c :: 0 <= c < |v.fat| && c !in cl && c !in free ==> v.fat[c] == old(v.fat)[c])
    && (forall c :: 0 <= c < |v.data| && c !in cl && c !in free ==> v.data[c] == old(v.data)[c])
  }

  /** The lists agree as far as both go. */
  ghost predicate Agree(cl: seq<nat>, now: seq<nat>) {
    if |cl| <= |now| then now[..|cl|] == cl else now == cl[..|now|]
  }

  /** No cluster comes from, or goes to, anywhere but the free clusters. */
  ghost predicate Conserved(cl: seq<nat>, free: set<nat>, now: seq<nat>, left: set<nat>) {
    left + Elems(now) == free + Elems(cl)
  }

  lemma ConservedGrown(cl: seq<nat>, free: set<nat>, now: seq<nat>, left: set<nat>)
    requires |cl| <= |now| && now[..|cl|] == cl
    requires Elems(now[|cl|..]) <= free && left == free - Elems(now[|cl|..])
    ensures Conserved(cl, free, now, left) && Agree(cl, now)
  {
    ElemsSplit(now, |cl|);
  }

  lemma ConservedShrunk(cl: seq<nat>, free: set<nat>, now: seq<nat>, left: set<nat>, n: nat)
    requires n <= |cl| && now == cl[..n] && left == free + Elems(cl[n..])
    ensures Conserved(cl, free, now, left) && Agree(cl, now)
  {
    ElemsSplit(cl, n);
  }

  lemma ConservedElems(cl: seq<nat>, free: set<nat>, now: seq<nat>, left: set<nat>)
    requires Conserved(cl, free, now, left)
    ensures forall c :: c !in cl && c !in free ==> c !in now
  {
    forall c | c in now
      ensures c in cl || c in free
    {
      assert c in left + Elems(now);
    }
  }

  /** The clusters of a file are made as many as are computed for `size` bytes. */
  method Resize(v: Volume, node: FileNode, size: nat, ghost cl: seq<nat>) returns (rc: Status, ghost now: seq<nat>)
    requires IsFile(v, node, cl)
    requires !v.OnlyBelow(node, cl) || Bytes2Clusters(size, v.clusterSize) <= |cl|
    modifies v`dirty, v`fat, v.chunk, node`start, node`fptrIndex, node`fptrCluster, node`contiguous, node`dirty
    ensures v.Valid() && v.Owns(node, now) && Ended(v.fat, node.contiguous, now)
    ensures rc == if |cl| + |old(v.Free())| < Bytes2Clusters(size, v.clusterSize) then NoSpace else Ok
    ensures rc == NoSpace ==> now == cl && v.Free() == old(v.Free())
    ensures rc == Ok ==> |now| == Bytes2Clusters(size, v.clusterSize)
    ensures rc == Ok && |now| == |cl| ==>
              now == cl && v.Free() == old(v.Free()) && node.contiguous == old(node.contiguous)
    ensures |cl| < |now| ==> !v.OnlyBelow(node, now)
    ensures v.Noted(old(v.dirty), old(v.Free())) && (old(node.dirty) ==> node.dirty)
    ensures Agree(cl, now) && Conserved(cl, old(v.Free()), now, v.Free())
    ensures forall c :: 0 <= c < |v.fat| && c !in cl && c !in old(v.Free()) ==> v.fat[c] == old(v.fat)[c]
  {
    hide Needed, Bytes2Clusters, Covers, Linked, Ended, Elems, FreeSet, Listed, OneBelow, Conserved, Agree, Flags;
    hide Released, Countable;
    var cs := v.clusterSize;
    CountableNeeded(node.size, cs);
    var c1, c2 := Bytes2Clusters(node.size, cs), Bytes2Clusters(size, cs);
    rc, now := Ok, cl;
    ghost var free := v.Free();
    if c1 < c2 {
      rc, now := v.Grow(node, c1, c2 - c1, cl);
      if rc == Ok {
        ConservedGrown(cl, free, now, v.Free());
        return;
      }
    } else if c2 < c1 {
      now := v.Shrink(node, c1, c1 - c2, cl);
      ConservedShrunk(cl, free, now, v.Free(), c2);
      return;
    }
    ConservedSame(cl, free);
  }

  lemma ConservedSame(cl: seq<nat>, free: set<nat>)
    ensures Conserved(cl, free, cl, free) && Agree(cl, cl)
  {
  }

  /** Bytes in the clusters that both lists have are the same bytes. */
  lemma AgreeContents(data: seq<seq<byte>>, cs: nat, cl: seq<nat>, now: seq<nat>, m: nat, n: nat)
    requires Backed(data, cs, cl) && Backed(data, cs, now) && Agree(cl, now)
    requires Covers(cs, cl, m) && Covers(cs, now, n)
    ensures var k := if m < n then m else n; Contents(data, cs, cl, m)[..k] == Contents(data, cs, now, n)[..k]
  {
    var k := if m < n then m else n;
    forall x | 0 <= x < k
      ensures ByteAt(data, cs, cl, x) == ByteAt(data, cs, now, x)
    {
      DivNonNegative(x, cs);
      AgreeAt(cl, now, x / cs);
    }
  }

  lemma AgreeAt(cl: seq<nat>, now: seq<nat>, i: nat)
    requires Agree(cl, now) && i < |cl| && i < |now|
    ensures cl[i] == now[i]
  {
    if |cl| <= |now| {
      assert now[..|cl|][i] == now[i];
    }
  }

  /** What a truncation makes of the bytes of a file: they are kept as far as they go, and a longer file is filled
      up, with zeros if asked to. */
  ghost predicate Truncated(was: seq<byte>, now: seq<byte>, size: nat, erase: bool) {
    && |now| == size
    && (size <= |was| ==> now == was[..size])
    && (|was| < size ==> now[..|was|] == was)
    && (erase && |was| < size ==> now == was + Zeros(size - |was|))
  }

  /** `exfat_truncate`. Without space nothing changes, and no cluster is lost or shared. The result is a file, with
      the bytes it should have, if and only if the clusters of its new size can be counted. With erasing a size that
      cannot be counted is never reached: the call fails or the program stops, with the old size and fewer clusters,
      and what `Visited` tells is erased. */
  method Truncate(v: Volume, node: FileNode, size: nat, erase: bool, ghost cl: seq<nat>)
    returns (rc: Status, ghost now: seq<nat>)
    requires IsFile(v, node, cl)
    requires !v.OnlyBelow(node, cl) || Bytes2Clusters(size, v.clusterSize) <= |cl|
    modifies v, v.chunk, node
    ensures v.Valid() && node.Names(v.fat, now) && Listed(now, v.size) && Ended(v.fat, node.contiguous, now)
    ensures Conserved(cl, old(v.Free()), now, v.Free()) && Elems(now) !! v.Free()
    ensures rc == NoSpace <==> |cl| + |old(v.Free())| < Bytes2Clusters(size, v.clusterSize)
    ensures rc == NoSpace ==> now == cl && v.Free() == old(v.Free())
    ensures rc == NoSpace ==> IsFile(v, node, now) && Bytes(v, node, now) == old(Bytes(v, node, cl))
    ensures rc != NoSpace ==> |now| == Bytes2Clusters(size, v.clusterSize)
    ensures rc == Ok || rc == NoSpace <==>
              !erase || Countable(size, v.clusterSize) || |cl| + |old(v.Free())| < Bytes2Clusters(size, v.clusterSize)
    ensures rc == Ok || rc == NoSpace ==> v.Owns(node, now) && RestUntouched(v, cl, old(v.Free()))
    ensures v.Noted(old(v.dirty), old(v.Free())) && (old(node.dirty) || node.size != old(node.size) ==> node.dirty)
    ensures rc == Ok ==> node.size == size
    ensures rc == Ok ==> (IsFile(v, node, now) <==> Countable(size, v.clusterSize))
    ensures rc == Ok && Countable(size, v.clusterSize) ==>
              Truncated(old(Bytes(v, node, cl)), Bytes(v, node, now), size, erase)
    ensures rc == Ok && |cl| <= |now| && v.OnlyBelow(node, now) ==> old(v.OnlyBelow(node, cl)) && |now| == |cl|
    ensures rc == Failed || rc == Stopped ==>
              0 <= old(node.size) / v.clusterSize && node.size == old(node.size)
              && rc == Ending(node.contiguous, now, old(node.size) / v.clusterSize, v.size)
    ensures rc == Failed || rc == Stopped ==>
              v.data == Wiped(old(v.data), Visited(node.contiguous, now, old(node.size) / v.clusterSize, v.size),
                              old(node.size) % v.clusterSize, v.clusterSize)
  {
    hide Needed, Covers, Linked, Ended, Elems, FreeSet, Listed, Backed, Place, Contents, Replaced, Zeros, OneBelow;
    hide Agree, Bytes2Clusters, Countable, Truncated, Conserved, Flags, Visited, Wiped, Ending;
    ghost var was, cs, n := v.data, v.clusterSize, node.size;
    FileCovered(v, node, cl);
    CountableNeeded(n, cs);
    CountableNeeded(size, cs);
    if node.size == size {
      ConservedSame(cl, v.Free());
      TruncatedSame(Contents(was, cs, cl, n), erase);
      return Ok, cl;
    }
    if !Countable(size, cs) {
      CountableBelow(n, size, cs);
    }
    rc, now := Resize(v, node, size, cl);
    ConservedElems(cl, old(v.Free()), now, v.Free());
    if rc != Ok {
      return;
    }
    rc := Fill(v, node, size, erase, now);
    if Countable(size, cs) {
      AgreeContents(was, cs, cl, now, n, size);
      TruncatedIs(Contents(was, cs, cl, n), Contents(was, cs, now, size), Bytes(v, node, now), size, erase);
    }
  }

  lemma CountableBelow(m: nat, n: nat, cs: nat)
    requires Countable(m, cs) && !Countable(n, cs)
    ensures m < n
  {
  }

  /** The rest of `exfat_truncate`, once the file has its clusters. */
  method Fill(v: Volume, node: FileNode, size: nat, erase: bool, ghost cl: seq<nat>) returns (rc: Status)
    requires v.Valid() && v.Owns(node, cl) && Ended(v.fat, node.contiguous, cl)
    requires |cl| == Bytes2Clusters(size, v.clusterSize) && (!Countable(size, v.clusterSize) ==> node.size < size)
    modifies v`data, node`fptrIndex, node`fptrCluster, node`size, node`dirty
    ensures v.Valid() && node.Names(v.fat, cl)
    ensures rc == Ok <==> !erase || Countable(size, v.clusterSize)
    ensures rc == Ok ==> v.Owns(node, cl) && node.size == size && node.dirty
    ensures rc == Ok ==> forall c :: 0 <= c < |v.data| && c !in cl ==> v.data[c] == old(v.data)[c]
    ensures rc != Ok ==> node.size == old(node.size) && node.dirty == old(node.dirty)
    ensures rc != Ok ==> 0 <= node.size / v.clusterSize
                         && rc == Ending(node.contiguous, cl, node.size / v.clusterSize, v.size) && rc != NoSpace
    ensures rc != Ok ==> v.data == Wiped(old(v.data), Visited(node.contiguous, cl, node.size / v.clusterSize, v.size),
                                         node.size % v.clusterSize, v.clusterSize)
    ensures Countable(size, v.clusterSize) ==>
              IsFile(v, node, cl) && Backed(old(v.data), v.clusterSize, cl) && Covers(v.clusterSize, cl, size)
    ensures Countable(size, v.clusterSize) ==>
              var was := Contents(old(v.data), v.clusterSize, cl, size);
              Bytes(v, node, cl) == if erase && old(node.size) < size
                                    then was[..old(node.size)] + Zeros(size - old(node.size)) else was
  {
    hide Needed, Covers, Linked, Ended, Elems, FreeSet, Listed, Backed, Contents, Zeros, Flags, Bytes2Clusters;
    hide Countable, Visited, Wiped;
    CountableNeeded(size, v.clusterSize);
    CoversIffCountable(v.clusterSize, cl, size);
    BackedNow(v, cl);
    // the two cases of `erase_range`: a size within the clusters and one beyond them
    if erase {
      if !Countable(size, v.clusterSize) {
        rc := EraseBeyond(v, node, node.size, size, cl);
        return;
      }
      EraseRange(v, node, node.size, size, cl);
    }
    node.size := size;
    node.dirty := true;
    rc := Ok;
  }

  /** A file in clusters of 512 bytes made two terabytes long: all its clusters become free, and the size is set. */
  method TruncateHuge(v: Volume, node: FileNode, ghost cl: seq<nat>) returns (rc: Status)
    requires IsFile(v, node, cl) && v.clusterSize == 512
    modifies v, v.chunk, node
    ensures rc == Ok && node.size == 0x200_0000_0000 && v.Valid() && v.Owns(node, [])
    ensures v.Free() == old(v.Free()) + Elems(cl)
  {
    hide Needed, Bytes2Clusters, Linked, Ended, FreeSet, Listed, OneBelow, Flags;
    Bytes2ClustersWraps();
    ghost var now;
    rc, now := Truncate(v, node, 0x200_0000_0000, false, cl);
    assert now == [];
    assert Elems(now) == {};
  }

  lemma TruncatedSame(s: seq<byte>, erase: bool)
    ensures Truncated(s, s, |s|, erase)
  {
  }

  lemma TruncatedIs(was: seq<byte>, room: seq<byte>, now: seq<byte>, size: nat, erase: bool)
    requires |room| == size
    requires var k := if |was| < size then |was| else size; was[..k] == room[..k]
    requires now == if erase && |was| < size then room[..|was|] + Zeros(size - |was|) else room
    ensures Truncated(was, now, size, erase)
  {
    if size <= |was| {
      assert room[..size] == room;
    } else {
      assert was[..|was|] == was;
    }
  }

  lemma BackedNow(v: Volume, cl: seq<nat>)
    requires v.Valid() && Listed(cl, v.size)
    ensures Backed(v.data, v.clusterSize, cl)
  {
  }

  lemma ConservedTwice(a: seq<nat>, x: set<nat>, b: seq<nat>, y: set<nat>, c: seq<nat>, z: set<nat>)
    requires Conserved(a, x, b, y) && Conserved(b, y, c, z)
    ensures Conserved(a, x, c, z)
  {
  }

  /** As many clusters, owned and free together. */
  lemma ConservedSize(cl: seq<nat>, free: set<nat>, now: seq<nat>, left: set<nat>, size: nat)
    requires Conserved(cl, free, now, left) && Listed(cl, size) && Listed(now, size)
    requires Elems(cl) !! free && Elems(now) !! left
    ensures |cl| + |free| == |now| + |left|
  {
    hide Listed, Elems;
    ElemsSize(cl, size);
    ElemsSize(now, size);
    DisjointSize(free, Elems(cl));
    DisjointSize(left, Elems(now));
  }

  lemma DisjointSize(a: set<nat>, b: set<nat>)
    requires a !! b
    ensures |a + b| == |a| + |b|
  {
  }

  lemma ConservedOutside(cl: seq<nat>, free: set<nat>, now: seq<nat>, left: set<nat>)
    requires Conserved(cl, free, now, left)
    ensures forall c :: c !in cl && c !in free ==> c !in now && c !in left
  {
    ConservedElems(cl, free, now, left);
    forall c | c in left
      ensures c in cl || c in free
    {
      assert c in left + Elems(now);
    }
  }

  /** The bytes, filled up with zeros to `offset`. */
  ghost function Padded(s: seq<byte>, offset: nat): (p: seq<byte>)
    ensures |p| == if |s| < offset then offset else |s|
  {
    if |s| < offset then s + Zeros(offset - |s|) else s
  }

  /** What a write makes of a file: a gap before `offset` is filled with zeros. */
  ghost function Written(s: seq<byte>, offset: nat, b: seq<byte>): (r: seq<byte>)
    ensures |r| == if |s| < offset + |b| then offset + |b| else |s|
    ensures r[offset..offset + |b|] == b
    ensures forall x :: 0 <= x < |r| && !(offset <= x < offset + |b|) ==> r[x] == if x < |s| then s[x] else 0
  {
    var p := Padded(s, offset);
    if |p| <= offset + |b| then p[..offset] + b else Replaced(p, offset, b)
  }

  lemma WrittenIsOverwrite(s: seq<byte>, offset: nat, b: seq<byte>, t: seq<byte>)
    requires |t| == if |s| < offset + |b| then offset + |b| else |s|
    requires t[..|Padded(s, offset)|] == Padded(s, offset)
    ensures Replaced(t, offset, b) == Written(s, offset, b)
  {
    var p, w, r := Padded(s, offset), Written(s, offset, b), Replaced(t, offset, b);
    forall x | 0 <= x < |t|
      ensures r[x] == w[x]
    {
      if offset <= x < offset + |b| {
        assert w[offset..offset + |b|][x - offset] == w[x];
      } else {
        assert t[..|p|][x] == t[x];
      }
    }
  }

  /** The first truncation of `exfat_generic_pwrite`: a gap is filled with zeros. */
  method PadTo(v: Volume, node: FileNode, offset: nat, ghost cl: seq<nat>) returns (rc: Status, ghost now: seq<nat>)
    requires IsFile(v, node, cl) && Countable(offset, v.clusterSize)
    requires !v.OnlyBelow(node, cl) || Needed(offset, v.clusterSize) <= |cl|
    modifies v, v.chunk, node
    ensures IsFile(v, node, now) && Conserved(cl, old(v.Free()), now, v.Free()) && RestUntouched(v, cl, old(v.Free()))
    ensures rc == if |cl| + |old(v.Free())| < Needed(offset, v.clusterSize) then NoSpace else Ok
    ensures Bytes(v, node, now) == if rc == Ok then Padded(old(Bytes(v, node, cl)), offset) else old(Bytes(v, node, cl))
    ensures v.OnlyBelow(node, now) ==> rc == NoSpace || (old(v.OnlyBelow(node, cl)) && |now| == |cl|)
    ensures v.Noted(old(v.dirty), old(v.Free())) && (old(node.dirty) || node.size != old(node.size) ==> node.dirty)
  {
    hide Needed, Linked, Ended, Elems, FreeSet, Listed, OneBelow, Flags, Bytes2Clusters, Countable, Conserved, Bytes;
    hide Zeros;
    rc, now := Ok, cl;
    CountableNeeded(offset, v.clusterSize);
    ConservedSame(cl, v.Free());
    if node.size < offset {
      NeededMonotone(node.size, offset, v.clusterSize);
      rc, now := Truncate(v, node, offset, true, cl);
    } else {
      NeededMonotone(offset, node.size, v.clusterSize);
    }
  }

  /** The second one: the file is made long enough for the data. */
  method LengthenTo(v: Volume, node: FileNode, end: nat, ghost cl: seq<nat>) returns (rc: Status, ghost now: seq<nat>)
    requires IsFile(v, node, cl) && Countable(end, v.clusterSize)
    requires !v.OnlyBelow(node, cl) || Needed(end, v.clusterSize) <= |cl|
    modifies v, v.chunk, node
    ensures IsFile(v, node, now) && Conserved(cl, old(v.Free()), now, v.Free()) && RestUntouched(v, cl, old(v.Free()))
    ensures rc == if |cl| + |old(v.Free())| < Needed(end, v.clusterSize) then NoSpace else Ok
    ensures rc == NoSpace ==> Bytes(v, node, now) == old(Bytes(v, node, cl))
    ensures rc == Ok ==> var was := old(Bytes(v, node, cl));
                         && node.size == (if |was| < end then end else |was|)
                         && Bytes(v, node, now)[..|was|] == was
    ensures v.Noted(old(v.dirty), old(v.Free())) && (old(node.dirty) || node.size != old(node.size) ==> node.dirty)
  {
    hide Needed, Linked, Ended, Elems, FreeSet, Listed, OneBelow, Flags, Bytes2Clusters, Countable, Conserved, Bytes;
    hide Zeros;
    rc, now := Ok, cl;
    CountableNeeded(end, v.clusterSize);
    ConservedSame(cl, v.Free());
    if node.size < end {
      rc, now := Truncate(v, node, end, false, cl);
    } else {
      NeededMonotone(end, node.size, v.clusterSize);
    }
  }

  /** Both together. */
  method MakeRoom(v: Volume, node: FileNode, len: nat, offset: nat, ghost cl: seq<nat>)
    returns (rc: Status, ghost now: seq<nat>)
    requires IsFile(v, node, cl) && Countable(offset + len, v.clusterSize)
    requires !v.OnlyBelow(node, cl) || Needed(offset + len, v.clusterSize) <= |cl|
    modifies v, v.chunk, node
    ensures IsFile(v, node, now) && Conserved(cl, old(v.Free()), now, v.Free()) && RestUntouched(v, cl, old(v.Free()))
    ensures rc == if |cl| + |old(v.Free())| < Needed(offset + len, v.clusterSize) then NoSpace else Ok
    ensures rc == NoSpace && |cl| + |old(v.Free())| < Needed(offset, v.clusterSize) ==>
              Bytes(v, node, now) == old(Bytes(v, node, cl))
    ensures rc == NoSpace && Needed(offset, v.clusterSize) <= |cl| + |old(v.Free())| ==>
              Bytes(v, node, now) == Padded(old(Bytes(v, node, cl)), offset)
    ensures v.Noted(old(v.dirty), old(v.Free())) && (old(node.dirty) || node.size != old(node.size) ==> node.dirty)
    ensures rc == Ok ==> var was := old(Bytes(v, node, cl));
                         && node.size == (if |was| < offset + len then offset + len else |was|)
                         && Bytes(v, node, now)[..|Padded(was, offset)|] == Padded(was, offset)
  {
    hide Needed, Linked, Ended, Elems, FreeSet, Listed, OneBelow, Flags, Countable, Conserved, Bytes, Zeros;
    ghost var free := v.Free();
    NeededMonotone(offset, offset + len, v.clusterSize);
    CountableMonotone(offset, offset + len, v.clusterSize);
    rc, now := PadTo(v, node, offset, cl);
    ConservedSize(cl, free, now, v.Free(), v.size);
    if rc != Ok {
      return;
    }
    ghost var mid, left := now, v.Free();
    ConservedOutside(cl, free, mid, left);
    rc, now := LengthenTo(v, node, offset + len, mid);
    ConservedTwice(cl, free, mid, left, now, v.Free());
  }

  lemma CountableMonotone(m: nat, n: nat, cs: nat)
    requires m <= n && Countable(n, cs)
    ensures Countable(m, cs)
  {
  }

  /** `exfat_generic_pwrite`: only the window written changes, and a gap reads as zeros. Without
      space the file keeps its bytes, with zeros up to `offset` if there was room for those. */
  method Pwrite(v: Volume, node: FileNode, buffer: seq<byte>, offset: nat, ghost cl: seq<nat>)
    returns (rc: Status, ghost now: seq<nat>)
    requires IsFile(v, node, cl) && Countable(offset + |buffer|, v.clusterSize)
    requires !v.OnlyBelow(node, cl) || Needed(offset + |buffer|, v.clusterSize) <= |cl|
    modifies v, v.chunk, node
    ensures IsFile(v, node, now) && Conserved(cl, old(v.Free()), now, v.Free()) && RestUntouched(v, cl, old(v.Free()))
    ensures rc == if |cl| + |old(v.Free())| < Needed(offset + |buffer|, v.clusterSize) then NoSpace else Ok
    ensures rc == Ok ==> Bytes(v, node, now) == Written(old(Bytes(v, node, cl)), offset, buffer)
    ensures rc == NoSpace && |cl| + |old(v.Free())| < Needed(offset, v.clusterSize) ==>
              Bytes(v, node, now) == old(Bytes(v, node, cl))
    ensures rc == NoSpace && Needed(offset, v.clusterSize) <= |cl| + |old(v.Free())| ==>
              Bytes(v, node, now) == Padded(old(Bytes(v, node, cl)), offset)
    ensures v.Noted(old(v.dirty), old(v.Free())) && (old(node.dirty) || node.size != old(node.size) ==> node.dirty)
  {
    hide Needed, Covers, Linked, Ended, Elems, FreeSet, Listed, Backed, Place, Contents, Replaced, Zeros, OneBelow;
    hide Flags;
    hide Conserved, Written, Padded;
    ghost var free, was := v.Free(), Bytes(v, node, cl);
    rc, now := MakeRoom(v, node, |buffer|, offset, cl);
    if rc != Ok {
      return;
    }
    ghost var room := Bytes(v, node, now);
    WrittenIsOverwrite(was, offset, buffer, room);
    if |buffer| == 0 {
      OverwriteNothing(room, offset, buffer);
      return;
    }
    var cs := v.clusterSize;
    NeededCovers(node.size, cs, offset);
    FileCovered(v, node, now);
    ConservedElems(cl, free, now, v.Free());
    var cluster := v.Advance(node, offset / cs, now);
    WriteOn(v, node, cluster, offset % cs, buffer, offset, now);
  }
}
