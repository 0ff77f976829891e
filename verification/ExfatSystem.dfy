/** A volume with many files: no operation on one of them concerns the others. */
module ExfatSystem {
  import opened Sequences
  import opened ExfatChain
  import opened ExfatContents
  import opened ExfatVolume
  import opened ExfatFile
  import opened WordBitmap
  import opened Arithmetic

  /** What an operation on the file with clusters `cl` may have done to the volume. */
  ghost predicate Confined(fat: seq<nat>, data: seq<seq<byte>>, free: set<nat>, cl: seq<nat>,
                           fat': seq<nat>, data': seq<seq<byte>>, free': set<nat>, now: seq<nat>)
  {
    && |fat| == |fat'| && |data| == |data'|
    && (forall c :: 0 <= c < |fat| && c !in cl && c !in free ==> fat'[c] == fat[c])
    && (forall c :: 0 <= c < |data| && c !in cl && c !in free ==> data'[c] == data[c])
    && Conserved(cl, free, now, free')
  }

  /** It leaves a file with other clusters alone. */
  lemma OtherFile(size: nat, cs: nat, m: FileNode, cm: seq<nat>,
                  fat: seq<nat>, data: seq<seq<byte>>, free: set<nat>, cl: seq<nat>,
                  fat': seq<nat>, data': seq<seq<byte>>, free': set<nat>, now: seq<nat>)
    requires 0 < cs && FileIn(fat, free, size, cs, m, cm) && Elems(cm) !! Elems(cl)
    requires Shaped(fat, data, size, cs) && Shaped(fat', data', size, cs)
    requires Confined(fat, data, free, cl, fat', data', free', now)
    ensures FileIn(fat', free', size, cs, m, cm) && Elems(cm) !! Elems(now)
    ensures Covers(cs, cm, m.size) && Backed(data, cs, cm) && Backed(data', cs, cm)
    ensures Contents(data', cs, cm, m.size) == Contents(data, cs, cm, m.size)
  {
    hide Needed, Conserved, Linked, Ended, Contents, Listed, Backed, Covers;
    ConservedOutside(cl, free, now, free');
    assert forall c :: c in cm ==> c in Elems(cm);
    assert forall c :: c in cl ==> c in Elems(cl);
    FatKept(fat, fat', m.contiguous, cm, size);
    CoversNeeded(cs, cm, m.size);
    ListBacked(data, cs, cm, size);
    ContentsKept(data, data', cs, cm, m.size);
  }

  lemma ListBacked(data: seq<seq<byte>>, cs: nat, cl: seq<nat>, size: nat)
    requires 0 < cs && |data| == FIRST_DATA + size && Listed(cl, size)
    requires forall c :: 0 <= c < |data| ==> |data[c]| == cs
    ensures Backed(data, cs, cl)
  {
  }

  lemma FatKept(fat: seq<nat>, fat': seq<nat>, contiguous: bool, cl: seq<nat>, size: nat)
    requires Listed(cl, size) && |fat| == |fat'| == FIRST_DATA + size
    requires Linked(fat, contiguous, cl) && Ended(fat, contiguous, cl)
    requires forall c :: 0 <= c < |fat| && c in cl ==> fat'[c] == fat[c]
    ensures Linked(fat', contiguous, cl) && Ended(fat', contiguous, cl)
  {
  }

  lemma ContentsKept(data: seq<seq<byte>>, data': seq<seq<byte>>, cs: nat, cl: seq<nat>, n: nat)
    requires Backed(data, cs, cl) && Covers(cs, cl, n) && |data| == |data'|
    requires forall c :: 0 <= c < |data'| ==> |data'[c]| == cs
    requires forall c :: 0 <= c < |data| && c in cl ==> data'[c] == data[c]
    ensures Backed(data', cs, cl) && Contents(data', cs, cl, n) == Contents(data, cs, cl, n)
  {
  }

  /** Whatever was apart from the file and from the free clusters still is. */
  lemma StillApart(cl: seq<nat>, free: set<nat>, now: seq<nat>, left: set<nat>, other: set<nat>)
    requires Conserved(cl, free, now, left) && other !! Elems(cl) && other !! free
    ensures other !! Elems(now) && other !! left
  {
    assert left + Elems(now) == free + Elems(cl);
  }

  /** The files' lists, the free clusters and the fixed ones have nothing in common and leave nothing out. */
  ghost predicate Partition(lists: map<FileNode, seq<nat>>, free: set<nat>, fixed: set<nat>, size: nat) {
    && free !! fixed
    && (forall n :: n in lists ==> Elems(lists[n]) !! fixed)
    && (forall m, n :: m in lists && n in lists && m != n ==> Elems(lists[m]) !! Elems(lists[n]))
    && (forall c :: c in Clusters(size) ==> c in free || c in fixed || exists n :: n in lists && c in Elems(lists[n]))
  }

  lemma PartitionKept(lists: map<FileNode, seq<nat>>, free: set<nat>, fixed: set<nat>, size: nat,
                      node: FileNode, now: seq<nat>, left: set<nat>)
    requires Partition(lists, free, fixed, size) && node in lists && Conserved(lists[node], free, now, left)
    requires forall m :: m in lists && m != node ==> Elems(lists[m]) !! Elems(now)
    ensures Partition(lists[node := now], left, fixed, size)
  {
    hide Elems;
    var lists' := lists[node := now];
    StillApart(lists[node], free, now, left, fixed);
    forall c | c in Clusters(size)
      ensures c in left || c in fixed || exists n :: n in lists' && c in Elems(lists'[n])
    {
      if c !in free && c !in fixed {
        var n: FileNode :| n in lists && c in Elems(lists[n]);
        if n != node {
          assert n in lists' && c in Elems(lists'[n]);
        } else {
          assert c in free + Elems(lists[node]);
          assert c in left || (node in lists' && c in Elems(lists'[node]));
        }
      } else if c in free {
        assert c in free + Elems(lists[node]);
        assert c in left || (node in lists' && c in Elems(lists'[node]));
      }
    }
  }

  class Mounted {
    const v: Volume
    /** The files, with their clusters. */
    ghost var lists: map<FileNode, seq<nat>>
    /** Clusters in use by the file system itself. */
    ghost var fixed: set<nat>
    /** The bitmap as the device has it. */
    var onDisk: seq<bv64>

    constructor (v: Volume)
      requires v.Valid()
      ensures Valid() && this.v == v && lists == map[] && fixed == Clusters(v.size) - v.Free()
    {
      this.v, onDisk := v, v.chunk[..];
      lists, fixed := map[], Clusters(v.size) - v.Free();
    }

    /** A bitmap not marked dirty need not be written. */
    ghost predicate Synced()
      requires v.Valid()
      reads this, v, v.chunk
    {
      |onDisk| == v.chunk.Length && (!v.dirty ==> FreeSet(Flags(onDisk), v.size) == v.Free())
    }

    /** Every cluster is free, fixed, or in exactly one place of exactly one file. */
    ghost predicate Valid()
      reads this, v, v.chunk, lists.Keys
    {
      && v.Valid()
      && (forall n :: n in lists ==> IsFile(v, n, lists[n]))
      && Partition(lists, v.Free(), fixed, v.size)
      && Synced()
    }

    /** All files but `node` have the bytes they had in an earlier state of the volume. */
    ghost predicate OthersKept(node: FileNode, data: seq<seq<byte>>, was: map<FileNode, seq<nat>>)
      requires Valid()
      reads this, v, v.chunk, lists.Keys
    {
      && was.Keys == lists.Keys
      && forall m :: m in lists && m != node ==>
           && lists[m] == was[m] && Backed(data, v.clusterSize, was[m]) && Covers(v.clusterSize, was[m], m.size)
           && Bytes(v, m, lists[m]) == Contents(data, v.clusterSize, was[m], m.size)
    }

    /** The file `node` now has the clusters `now`; everything else is as it was. */
    lemma Updated(node: FileNode, now: seq<nat>, fat: seq<nat>, data: seq<seq<byte>>, free: set<nat>,
                  was: map<FileNode, seq<nat>>)
      requires v.Valid() && node in was && IsFile(v, node, now) && lists == was[node := now]
      requires Shaped(fat, data, v.size, v.clusterSize) && Partition(was, free, fixed, v.size)
      requires forall m :: m in was && m != node ==> FileIn(fat, free, v.size, v.clusterSize, m, was[m])
      requires Confined(fat, data, free, was[node], v.fat, v.data, v.Free(), now)
      requires Synced()
      ensures Valid() && OthersKept(node, data, was)
    {
      hide FileIn, Elems, FreeSet, Flags, Conserved, Contents, Backed, Covers, Shaped, Partition, Confined;
      forall m | m in was && m != node
        ensures FileIn(v.fat, v.Free(), v.size, v.clusterSize, m, was[m]) && Elems(was[m]) !! Elems(now)
        ensures Covers(v.clusterSize, was[m], m.size) && Backed(data, v.clusterSize, was[m])
        ensures Backed(v.data, v.clusterSize, was[m])
        ensures Contents(v.data, v.clusterSize, was[m], m.size) == Contents(data, v.clusterSize, was[m], m.size)
      {
        PartitionApart(was, free, fixed, v.size, m, node);
        OtherFile(v.size, v.clusterSize, m, was[m], fat, data, free, was[node], v.fat, v.data, v.Free(), now);
      }
      ConfinedConserves(fat, data, free, was[node], v.fat, v.data, v.Free(), now);
      PartitionKept(was, free, fixed, v.size, node, now, v.Free());
    }

    /** A file found on the volume: its clusters, in use until now without an owner, become those of the node. */
    method Open(node: FileNode, ghost cl: seq<nat>)
      requires Valid() && node !in lists && IsFile(v, node, cl) && Elems(cl) <= fixed
      modifies this`lists, this`fixed
      ensures Valid() && lists == old(lists)[node := cl] && fixed == old(fixed) - Elems(cl)
    {
      hide IsFile, FreeSet, Flags;
      PartitionMore(lists, v.Free(), fixed, v.size, node, cl);
      lists, fixed := lists[node := cl], fixed - Elems(cl);
    }

    /** A new file, without clusters. */
    method Create() returns (node: FileNode)
      requires Valid()
      modifies this`lists, this`fixed
      ensures fresh(node) && node.size == 0
      ensures Valid() && lists == old(lists)[node := []] && fixed == old(fixed)
    {
      hide FreeSet, Flags, Partition;
      node := new FileNode();
      EmptyFile(v, node);
      Open(node, []);
    }

    /** A write to one of the files. */
    method Write(node: FileNode, buffer: seq<byte>, offset: nat) returns (rc: Status)
      requires Valid() && node in lists && Countable(offset + |buffer|, v.clusterSize)
      requires !v.OnlyBelow(node, lists[node]) || Needed(offset + |buffer|, v.clusterSize) <= |lists[node]|
      modifies v, v.chunk, node, this`lists
      ensures Valid() && OthersKept(node, old(v.data), old(lists))
      ensures rc == if |old(lists[node])| + |old(v.Free())| < Needed(offset + |buffer|, v.clusterSize) then NoSpace
                    else Ok
      ensures rc == Ok ==> Bytes(v, node, lists[node]) == Written(old(Bytes(v, node, lists[node])), offset, buffer)
      ensures rc == NoSpace ==> Padded(old(Bytes(v, node, lists[node])), offset) ==
                                Padded(Bytes(v, node, lists[node]), offset)
    {
      hide IsFile, FileIn, Elems, FreeSet, Flags, Conserved, Contents, Backed, Covers, Partition, Bytes, OneBelow;
      hide Written;
      ghost var fat, data, free, was := v.fat, v.data, v.Free(), lists;
      AllFiles(v, was);
      ghost var now;
      rc, now := Pwrite(v, node, buffer, offset, was[node]);
      lists := was[node := now];
      FileValid(v, node, now);
      Updated(node, now, fat, data, free, was);
    }

    /** A read from one of the files. */
    method Read(node: FileNode, size: nat, offset: nat) returns (buffer: seq<byte>)
      requires Valid() && node in lists
      modifies node`fptrIndex, node`fptrCluster
      ensures Valid() && Bytes(v, node, lists[node]) == old(Bytes(v, node, lists[node]))
      ensures var end := if offset + size < node.size then offset + size else node.size;
              buffer == if node.size <= offset then [] else Bytes(v, node, lists[node])[offset..end]
    {
      hide IsFile, Partition, Bytes;
      buffer := Pread(v, node, size, offset, lists[node]);
    }

    /** A truncation of one of the files. */
    method Truncate(node: FileNode, size: nat, erase: bool) returns (rc: Status)
      requires Valid() && node in lists && Countable(size, v.clusterSize)
      requires !v.OnlyBelow(node, lists[node]) || Needed(size, v.clusterSize) <= |lists[node]|
      modifies v, v.chunk, node, this`lists
      ensures Valid() && OthersKept(node, old(v.data), old(lists))
      ensures rc == if |old(lists[node])| + |old(v.Free())| < Needed(size, v.clusterSize) then NoSpace else Ok
      ensures rc == Ok ==> Truncated(old(Bytes(v, node, lists[node])), Bytes(v, node, lists[node]), size, erase)
      ensures rc == NoSpace ==> Bytes(v, node, lists[node]) == old(Bytes(v, node, lists[node]))
    {
      hide IsFile, FileIn, Elems, FreeSet, Flags, Conserved, Contents, Backed, Covers, Partition, Bytes, OneBelow;
      hide Truncated, Needed, Bytes2Clusters, Countable;
      CountableNeeded(size, v.clusterSize);
      ghost var fat, data, free, was := v.fat, v.data, v.Free(), lists;
      AllFiles(v, was);
      ghost var now;
      rc, now := ExfatFile.Truncate(v, node, size, erase, was[node]);
      lists := was[node := now];
      FileValid(v, node, now);
      Updated(node, now, fat, data, free, was);
    }

    /** `exfat_flush`: afterwards the device has the bitmap of the files as they are. */
    method Flush()
      requires Valid()
      modifies this`onDisk, v`dirty
      ensures Valid() && !v.dirty && FreeSet(Flags(onDisk), v.size) == v.Free() == old(v.Free())
    {
      hide IsFile, FreeSet, Flags, Partition;
      AllFiles(v, lists);
      if v.dirty {
        onDisk := v.chunk[..];
        v.dirty := false;
      }
      FilesKept(v, lists);
    }
  }

  lemma EmptyFile(v: Volume, node: FileNode)
    requires v.Valid() && node.start == FREE && node.fptrIndex == 0 && node.fptrCluster == FREE && node.size == 0
    ensures IsFile(v, node, []) && Elems([]) == {}
  {
    DivUp(0, v.clusterSize);
  }

  lemma PartitionMore(lists: map<FileNode, seq<nat>>, free: set<nat>, fixed: set<nat>, size: nat,
                      node: FileNode, cl: seq<nat>)
    requires Partition(lists, free, fixed, size) && node !in lists && Elems(cl) <= fixed
    ensures Partition(lists[node := cl], free, fixed - Elems(cl), size)
  {
    hide Elems;
    var lists' := lists[node := cl];
    forall c | c in Clusters(size)
      ensures c in free || c in fixed - Elems(cl) || exists n :: n in lists' && c in Elems(lists'[n])
    {
      if c in Elems(cl) {
        assert node in lists' && c in Elems(lists'[node]);
      } else if c !in free && c !in fixed {
        var n: FileNode :| n in lists && c in Elems(lists[n]);
        assert n in lists' && c in Elems(lists'[n]);
      }
    }
  }

  /** A new file is written and read: what was written comes back, for every volume, offset and length, as long as
      there is room. */
  method WriteThenRead(m: Mounted, data: seq<byte>, offset: nat) returns (rc: Status, back: seq<byte>)
    requires m.Valid() && Countable(offset + |data|, m.v.clusterSize)
    modifies m, m.v, m.v.chunk
    ensures m.Valid()
    ensures rc == if |old(m.v.Free())| < Needed(offset + |data|, m.v.clusterSize) then NoSpace else Ok
    ensures rc == Ok ==> back == data
  {
    hide IsFile, FreeSet, Flags, Partition, Needed, Countable, Written, OneBelow, Bytes;
    back := [];
    var node := m.Create();
    rc := m.Write(node, data, offset);
    if rc == Ok {
      back := m.Read(node, |data|, offset);
    }
  }

  lemma FilesKept(v: Volume, lists: map<FileNode, seq<nat>>)
    requires v.Valid()
    requires forall n :: n in lists ==> FileIn(v.fat, v.Free(), v.size, v.clusterSize, n, lists[n])
    ensures forall n :: n in lists ==> IsFile(v, n, lists[n])
  {
  }

  lemma AllFiles(v: Volume, lists: map<FileNode, seq<nat>>)
    requires v.Valid() && forall n :: n in lists ==> IsFile(v, n, lists[n])
    ensures forall n :: n in lists ==> FileIn(v.fat, v.Free(), v.size, v.clusterSize, n, lists[n])
  {
  }

  lemma FileValid(v: Volume, node: FileNode, cl: seq<nat>)
    requires IsFile(v, node, cl)
    ensures v.Valid()
  {
  }

  lemma PartitionApart(lists: map<FileNode, seq<nat>>, free: set<nat>, fixed: set<nat>, size: nat, m: FileNode,
                       n: FileNode)
    requires Partition(lists, free, fixed, size) && m in lists && n in lists && m != n
    ensures Elems(lists[m]) !! Elems(lists[n])
  {
  }

  lemma ConfinedConserves(fat: seq<nat>, data: seq<seq<byte>>, free: set<nat>, cl: seq<nat>,
                          fat': seq<nat>, data': seq<seq<byte>>, free': set<nat>, now: seq<nat>)
    requires Confined(fat, data, free, cl, fat', data', free', now)
    ensures Conserved(cl, free, now, free')
  {
  }
}
