/** src/exfat/cluster.c: erasing up to a size that the list of clusters does not reach. */
module ExfatErase {
  import opened Arithmetic
  import opened Sequences
  import opened ExfatChain
  import opened ExfatContents
  import opened ExfatVolume
  import opened WordBitmap

  /** As many clusters as computed for a size reach up to it exactly if they can be counted. */
  lemma CoversIffCountable(cs: nat, cl: seq<nat>, size: nat)
    requires 0 < cs && |cl| == Bytes2Clusters(size, cs)
    ensures Covers(cs, cl, size) <==> Countable(size, cs)
  {
    hide Needed, Bytes2Clusters, Countable;
    CountableNeeded(size, cs);
    if Countable(size, cs) {
      CoversNeeded(cs, cl, size);
    } else {
      SomeBytes(size, cs);
      NeededCovers(size, cs, size - 1);
      assert |cl| <= (size - 1) / cs;
    }
  }

  lemma SomeBytes(size: nat, cs: nat)
    requires !Countable(size, cs)
    ensures 0 < size
  {
    MulMonotone(0, WRAP - 1, cs);
  }

  lemma {:induction false} ClusterCount(size: nat)
    ensures |Clusters(size)| == size
  {
    if size == 0 {
      assert Clusters(0) == {};
    } else {
      ClusterCount(size - 1);
      assert Clusters(size) == Clusters(size - 1) + {FIRST_DATA + size - 1};
    }
  }

  lemma SubsetSize(a: set<nat>, b: set<nat>)
    requires a <= b
    ensures |a| <= |b|
  {
    assert b == a + (b - a);
  }

  /** A list has no more clusters than the volume. */
  lemma ListedSize(cl: seq<nat>, size: nat)
    requires Listed(cl, size)
    ensures |cl| <= size
  {
    ElemsSize(cl, size);
    ClusterCount(size);
    SubsetSize(Elems(cl), Clusters(size));
  }

  // ----- what the walk visits

  /** The clusters from `first` up to the end of the volume. */
  ghost function UpFrom(first: nat, size: nat): (s: seq<nat>)
    ensures |s| == (if InVolume(first, size) then FIRST_DATA + size - first else 0)
    ensures forall i :: 0 <= i < |s| ==> s[i] == first + i
  {
    if InVolume(first, size) then seq(FIRST_DATA + size - first, i requires 0 <= i => first + i) else []
  }

  /** The clusters visited from place `k` of the list on: the rest of a chain, and behind a contiguous file
      everything up to the end of the volume. */
  ghost function Visited(contiguous: bool, cl: seq<nat>, k: nat, size: nat): (vs: seq<nat>)
  {
    if cl == [] then []
    else if contiguous then UpFrom(cl[0] + k, size)
    else if k < |cl| then cl[k..]
    else []
  }

  /** A contiguous file of one cluster on a volume of two: the other cluster is visited too. */
  lemma VisitsNeighbour()
    ensures Visited(true, [2], 0, 2) == [2, 3]
  {
  }

  /** How it ends: with an error, or the program is stopped. */
  ghost function Ending(contiguous: bool, cl: seq<nat>, k: nat, size: nat): Status {
    if cl == [] then (if k == 0 then Failed else Stopped)
    else if contiguous then (if InVolume(cl[0] + k, size) && Invalid(FIRST_DATA + size) then Stopped else Failed)
    else if k < |cl| then Stopped
    else Failed
  }

  /** The clusters `vs` filled with zeros, the first one from `off` on. */
  ghost function Wiped(data: seq<seq<byte>>, vs: seq<nat>, off: nat, cs: nat): (d: seq<seq<byte>>)
    requires off <= cs && forall c :: 0 <= c < |data| ==> |data[c]| == cs
    ensures |d| == |data| && forall c :: 0 <= c < |d| ==> |d[c]| == cs
    ensures forall c :: 0 <= c < |d| && c !in vs ==> d[c] == data[c]
  {
    seq(|data|, c requires 0 <= c < |data| =>
      if c !in vs then data[c] else if c == vs[0] then data[c][..off] + Zeros(cs - off) else Zeros(cs))
  }

  lemma WipedNone(data: seq<seq<byte>>, off: nat, cs: nat)
    requires off <= cs && forall c :: 0 <= c < |data| ==> |data[c]| == cs
    ensures Wiped(data, [], off, cs) == data
  {
  }

  lemma WipedFirst(data: seq<seq<byte>>, c: nat, off: nat, cs: nat)
    requires off <= cs && (forall c :: 0 <= c < |data| ==> |data[c]| == cs) && c < |data|
    ensures Wiped(data, [c], off, cs) == data[c := Replaced(data[c], off, Zeros(cs - off))]
  {
    assert Replaced(data[c], off, Zeros(cs - off)) == data[c][..off] + Zeros(cs - off);
  }

  lemma WipedNext(data: seq<seq<byte>>, vs: seq<nat>, c: nat, off: nat, cs: nat)
    requires off <= cs && (forall c :: 0 <= c < |data| ==> |data[c]| == cs) && c < |data| && vs != [] && c !in vs
    ensures Wiped(data, vs + [c], off, cs) == Wiped(data, vs, off, cs)[c := Replaced(data[c], 0, Zeros(cs))]
  {
    assert Replaced(data[c], 0, Zeros(cs)) == Zeros(cs);
    var a, b := Wiped(data, vs + [c], off, cs), Wiped(data, vs, off, cs)[c := Replaced(data[c], 0, Zeros(cs))];
    forall d | 0 <= d < |data|
      ensures a[d] == b[d]
    {
      assert d in vs + [c] <==> d in vs || d == c;
    }
  }

  /** The clusters visited are different ones of the volume, and fewer than the size asks for. */
  lemma VisitedClusters(fat: seq<nat>, contiguous: bool, cl: seq<nat>, k: nat, size: nat)
    requires Linked(fat, contiguous, cl) && Listed(cl, size)
    ensures var vs := Visited(contiguous, cl, k, size);
            Listed(vs, size) && (vs != [] ==> k + |vs| <= size)
    ensures var vs := Visited(contiguous, cl, k, size);
            vs != [] ==> vs[0] == if contiguous then cl[0] + k else if k < |cl| then cl[k] else 0
  {
    if cl != [] {
      assert InVolume(cl[0], size);
      ListedSize(cl, size);
    }
  }

  /** From one visited cluster to the next. */
  lemma NextVisited(fat: seq<nat>, contiguous: bool, cl: seq<nat>, k: nat, size: nat, i: nat)
    requires Linked(fat, contiguous, cl) && Ended(fat, contiguous, cl) && Listed(cl, size) && |fat| == FIRST_DATA + size
    requires i < |Visited(contiguous, cl, k, size)|
    ensures var vs := Visited(contiguous, cl, k, size);
            && (contiguous || vs[i] < |fat|)
            && Next(fat, contiguous, vs[i]) ==
                 if i + 1 < |vs| then vs[i + 1] else if contiguous then FIRST_DATA + size else END
  {
    if !contiguous {
      assert InVolume(cl[k + i], size);
    }
  }

  /** The walk never gets as far as the size asks for. */
  lemma NeverThere(cs: nat, end: nat, size: nat, n: nat)
    requires 0 < cs && !Countable(end, cs) && size + FIRST_DATA <= LAST_DATA + 1 && n <= size
    ensures n * cs < end
  {
    MulMonotone(n, WRAP - 1, cs);
  }

  /** `exfat_advance_cluster` to any place, in the list or not; `stopped` is the end of the program. */
  method AdvanceAny(v: Volume, node: FileNode, count: nat, ghost cl: seq<nat>) returns (r: nat, stopped: bool)
    requires v.Valid() && node.Holds(v.fat, cl) && Listed(cl, v.size) && Ended(v.fat, node.contiguous, cl)
    modifies node`fptrIndex, node`fptrCluster
    ensures stopped <==> cl == [] && 0 < count
    ensures !stopped ==> r == node.fptrCluster && node.fptrIndex == count
    ensures !stopped && cl == [] ==> r == FREE
    ensures !stopped && cl != [] && !node.contiguous ==> r == if count < |cl| then cl[count] else END
    ensures !stopped && cl != [] && node.contiguous ==>
              r == if cl[0] + count <= LAST_DATA then cl[0] + count else LAST_DATA + 1
  {
    hide Ended;
    stopped := false;
    if count < node.fptrIndex {
      node.fptrIndex := 0;
      node.fptrCluster := node.start;
    }
    if cl != [] {
      LastListed(cl, v.size);
    }
    var i := node.fptrIndex;
    while i < count
      invariant node.fptrIndex <= i <= count
      invariant cl == [] ==> i == 0 && node.fptrCluster == FREE
      invariant cl != [] && !node.contiguous ==> i < |cl| && node.fptrCluster == cl[i]
      invariant cl != [] && node.contiguous ==> node.fptrCluster == cl[0] + i <= LAST_DATA
    {
      if node.fptrCluster < FIRST_DATA {
        return 0, true;
      }
      Beyond(v.fat, node.contiguous, cl, v.size, i);
      node.fptrCluster := Next(v.fat, node.contiguous, node.fptrCluster);
      if Invalid(node.fptrCluster) {
        break;
      }
      i := i + 1;
    }
    node.fptrIndex := count;
    r := node.fptrCluster;
  }

  lemma Beyond(fat: seq<nat>, contiguous: bool, cl: seq<nat>, size: nat, i: nat)
    requires Linked(fat, contiguous, cl) && Ended(fat, contiguous, cl) && Listed(cl, size) && |fat| == FIRST_DATA + size
    ensures i < |cl| ==> InVolume(cl[i], size)
    ensures !contiguous && i < |cl| ==> cl[i] < |fat| && fat[cl[i]] == if i + 1 < |cl| then cl[i + 1] else END
    ensures !contiguous && i + 1 < |cl| ==> InVolume(cl[i + 1], size)
  {
  }

  /** `erase_range` up to a size whose clusters cannot be counted: it never succeeds, and it has then erased the rest
      of a chain, or everything behind a contiguous file. */
  method EraseBeyond(v: Volume, node: FileNode, begin: nat, end: nat, ghost cl: seq<nat>) returns (rc: Status)
    requires v.Valid() && v.Owns(node, cl) && Ended(v.fat, node.contiguous, cl)
    requires begin < end && !Countable(end, v.clusterSize)
    modifies v`data, node`fptrIndex, node`fptrCluster
    ensures v.Valid() && node.Names(v.fat, cl)
    ensures 0 <= begin / v.clusterSize && rc == Ending(node.contiguous, cl, begin / v.clusterSize, v.size)
    ensures v.data == Wiped(old(v.data), Visited(node.contiguous, cl, begin / v.clusterSize, v.size),
                            begin % v.clusterSize, v.clusterSize)
  {
    hide Linked, Listed, Ended, Elems, FreeSet, Flags, Visited, Wiped, Countable;
    var cs := v.clusterSize;
    DivNonNegative(begin, cs);
    var k: nat, off := begin / cs, begin % cs;
    ghost var vs := Visited(node.contiguous, cl, k, v.size);
    VisitedClusters(v.fat, node.contiguous, cl, k, v.size);
    VisitedIf(node.contiguous, cl, k, v.size);
    WipedNone(v.data, off, cs);
    var cluster, stopped := AdvanceAny(v, node, k, cl);
    if stopped {
      return Stopped;
    }
    if Invalid(cluster) || !InVolume(cluster, v.size) {
      return Failed;
    }
    assert vs != [] && cluster == vs[0];
    rc := EraseOn(v, node, cluster, off, k, end, cl, vs);
  }

  /** Where nothing is visited, and why. */
  lemma VisitedIf(contiguous: bool, cl: seq<nat>, k: nat, size: nat)
    requires Listed(cl, size)
    ensures var vs := Visited(contiguous, cl, k, size);
            if cl == [] then vs == []
            else if contiguous then vs != [] <==> InVolume(cl[0] + k, size)
            else (vs != [] <==> k < |cl|) && (k < |cl| ==> InVolume(cl[k], size))
  {
  }

  /** The erasing itself, from the first cluster on. */
  method EraseOn(v: Volume, node: FileNode, first: nat, off: nat, k: nat, end: nat, ghost cl: seq<nat>,
                 ghost vs: seq<nat>)
    returns (rc: Status)
    requires v.Valid() && Linked(v.fat, node.contiguous, cl) && Ended(v.fat, node.contiguous, cl) && Listed(cl, v.size)
    requires vs == Visited(node.contiguous, cl, k, v.size) && vs != [] && first == vs[0]
    requires off < v.clusterSize && !Countable(end, v.clusterSize)
    modifies v`data
    ensures v.Valid() && v.data == Wiped(old(v.data), vs, off, v.clusterSize)
    ensures rc == if node.contiguous && !Invalid(FIRST_DATA + v.size) then Failed else Stopped
  {
    hide Linked, Listed, Ended, Visited, Wiped, Countable;
    var cs := v.clusterSize;
    ghost var was := v.data;
    VisitedClusters(v.fat, node.contiguous, cl, k, v.size);
    InList(vs, v.size);
    var cluster := first;
    WipedFirst(was, cluster, off, cs);
    assert vs[..1] == [cluster];
    v.data := v.data[cluster := Replaced(v.data[cluster], off, seq(cs - off, _ => 0))];
    ghost var i: nat := 0;
    var boundary: nat := (k + 1) * cs;
    while boundary < end
      invariant v.Valid() && i < |vs| && cluster == vs[i] && boundary == (k + 1 + i) * cs
      invariant v.data == Wiped(was, vs[..i + 1], off, cs)
      decreases |vs| - i
    {
      NextVisited(v.fat, node.contiguous, cl, k, v.size, i);
      cluster := Next(v.fat, node.contiguous, cluster);
      if i + 1 == |vs| {
        assert vs[..i + 1] == vs;
      }
      if Invalid(cluster) {
        return Stopped;
      }
      if !InVolume(cluster, v.size) {
        return Failed;
      }
      Distinct(vs, v.size, i + 1);
      WipedNext(was, vs[..i + 1], cluster, off, cs);
      assert vs[..i + 2] == vs[..i + 1] + [cluster];
      v.data := v.data[cluster := Replaced(v.data[cluster], 0, seq(cs, _ => 0))];
      MulStep(k + 1 + i, cs);
      boundary, i := boundary + cs, i + 1;
    }
    NeverThere(cs, end, v.size, k + 1 + i);
  }

  lemma Distinct(vs: seq<nat>, size: nat, i: nat)
    requires Listed(vs, size) && i < |vs|
    ensures vs[i] !in vs[..i] && InVolume(vs[i], size)
  {
  }
}
