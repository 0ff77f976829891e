/** The bytes of a file, as its clusters hold them. */
module ExfatContents {
  import opened Arithmetic
  import opened Sequences
  import opened ExfatChain

  /** Every cluster number of the list names a cluster of `cs` bytes. */
  ghost predicate Backed(data: seq<seq<byte>>, cs: nat, cl: seq<nat>) {
    && 0 < cs
    && (forall c :: 0 <= c < |data| ==> |data[c]| == cs)
    && (forall i :: 0 <= i < |cl| ==> cl[i] < |data|)
  }

  /** The clusters a file of `n` bytes takes. */
  function Needed(n: nat, cs: nat): (k: nat)
    requires 0 < cs
  {
    DivUp(n, cs);
    DivNonNegative(if n == 0 then 0 else n - 1, cs);
    (n + cs - 1) / cs
  }

  /** `bytes2clusters`: the count is kept in 32 bits. */
  function Bytes2Clusters(n: nat, cs: nat): nat
    requires 0 < cs
  {
    Needed(n, cs) % WRAP
  }

  /** The largest files whose clusters can be counted. */
  predicate Countable(n: nat, cs: nat) {
    n <= (WRAP - 1) * cs
  }

  /** The clusters needed have room for the file, and fewer have not. */
  lemma NeededRoom(n: nat, cs: nat)
    requires 0 < cs
    ensures n <= Needed(n, cs) * cs < n + cs
  {
    var k := Needed(n, cs);
    DivNonNegative(n + cs - 1, cs);
    assert n + cs - 1 == cs * k + (n + cs - 1) % cs;
  }

  lemma CountableNeeded(n: nat, cs: nat)
    requires 0 < cs
    ensures Countable(n, cs) <==> Needed(n, cs) < WRAP
    ensures Countable(n, cs) ==> Bytes2Clusters(n, cs) == Needed(n, cs)
    ensures !Countable(n, cs) ==> Bytes2Clusters(n, cs) < Needed(n, cs)
  {
    hide Needed;
    NeededRoom(n, cs);
    var k := Needed(n, cs);
    if Countable(n, cs) && WRAP <= k {
      MulMonotone(WRAP, k, cs);
      assert false;
    }
    if k < WRAP {
      MulMonotone(k, WRAP - 1, cs);
    }
  }

  /** As many clusters as computed have room for the file, and none too many, exactly if the file has at most
      2^32 - 1 clusters' worth of bytes. */
  lemma Bytes2ClustersExact(n: nat, cs: nat)
    requires 0 < cs
    ensures n <= Bytes2Clusters(n, cs) * cs < n + cs <==> Countable(n, cs)
  {
    hide Needed, Bytes2Clusters;
    NeededRoom(n, cs);
    CountableNeeded(n, cs);
    BelowWrap(n, cs);
    if !Countable(n, cs) {
      MulMonotone(Bytes2Clusters(n, cs), WRAP - 1, cs);
    }
  }

  lemma BelowWrap(n: nat, cs: nat)
    requires 0 < cs
    ensures Bytes2Clusters(n, cs) < WRAP
  {
    hide Needed;
  }

  /** A file of two terabytes in clusters of 512 bytes is taken to need none. */
  lemma Bytes2ClustersWraps()
    ensures Bytes2Clusters(0x200_0000_0000, 512) == 0
  {
  }

  /** A position inside the file is in one of its clusters, and `Needed` is least such. */
  lemma NeededCovers(n: nat, cs: nat, x: nat)
    requires 0 < cs
    ensures 0 <= x / cs && x % cs < cs
    ensures x < n ==> x / cs < Needed(n, cs)
    ensures n != 0 ==> (n - 1) / cs == Needed(n, cs) - 1
  {
    DivNonNegative(x, cs);
    DivUp(n, cs);
    if x < n {
      DivMonotone(x, n - 1, cs);
    }
  }

  lemma NeededMonotone(m: nat, n: nat, cs: nat)
    requires 0 < cs && m <= n
    ensures Needed(m, cs) <= Needed(n, cs)
  {
    DivMonotone(m + cs - 1, n + cs - 1, cs);
  }

  /** The byte at position `x`. */
  ghost function ByteAt(data: seq<seq<byte>>, cs: nat, cl: seq<nat>, x: nat): byte
    requires Backed(data, cs, cl) && x / cs < |cl|
  {
    DivNonNegative(x, cs);
    data[cl[x / cs]][x % cs]
  }

  ghost predicate Covers(cs: nat, cl: seq<nat>, n: nat)
    requires 0 < cs
  {
    forall x :: 0 <= x < n ==> x / cs < |cl|
  }

  lemma CoversNeeded(cs: nat, cl: seq<nat>, n: nat)
    requires 0 < cs && Needed(n, cs) <= |cl|
    ensures Covers(cs, cl, n)
  {
    hide Needed;
    forall x | 0 <= x < n
      ensures x / cs < |cl|
    {
      NeededCovers(n, cs, x);
    }
  }

  /** The first `n` bytes of the clusters laid end to end. */
  ghost function Contents(data: seq<seq<byte>>, cs: nat, cl: seq<nat>, n: nat): (s: seq<byte>)
    requires Backed(data, cs, cl) && Covers(cs, cl, n)
    ensures |s| == n
    ensures forall x :: 0 <= x < n ==> s[x] == ByteAt(data, cs, cl, x)
  {
    seq(n, x requires 0 <= x < n => ByteAt(data, cs, cl, x))
  }

  /** Position `x` is the byte `off` of the `k`-th cluster. */
  ghost predicate Place(cs: nat, x: nat, k: nat, off: nat)
    requires 0 < cs
  {
    x / cs == k && x % cs == off
  }

  lemma PlaceMoves(cs: nat, x: nat, k: nat, off: nat, j: nat)
    requires 0 < cs && Place(cs, x, k, off) && off + j <= cs
    ensures off + j < cs ==> Place(cs, x + j, k, off + j)
    ensures off + j == cs ==> Place(cs, x + j, k + 1, 0)
  {
    if off + j < cs {
      DivWithin(x, j, cs);
    } else {
      DivBoundary(x, j, cs);
    }
  }

  /** Part of one cluster is part of the contents. */
  lemma PieceOfContents(data: seq<seq<byte>>, cs: nat, cl: seq<nat>, n: nat, x: nat, k: nat, off: nat, len: nat)
    requires Backed(data, cs, cl) && Covers(cs, cl, n) && k < |cl|
    requires Place(cs, x, k, off) && off + len <= cs && x + len <= n
    ensures data[cl[k]][off..off + len] == Contents(data, cs, cl, n)[x..x + len]
  {
    hide Place;
    var s, t := data[cl[k]][off..off + len], Contents(data, cs, cl, n)[x..x + len];
    forall j | 0 <= j < len
      ensures s[j] == t[j]
    {
      PlaceMoves(cs, x, k, off, j);
      PlacedByte(data, cs, cl, x + j, k, off + j);
    }
  }

  lemma PlacedByte(data: seq<seq<byte>>, cs: nat, cl: seq<nat>, x: nat, k: nat, off: nat)
    requires Backed(data, cs, cl) && k < |cl| && Place(cs, x, k, off) && off < cs
    ensures ByteAt(data, cs, cl, x) == data[cl[k]][off]
  {
  }

  /** Writing into one cluster overwrites that part of the contents and nothing else. */
  lemma PieceWritten(data: seq<seq<byte>>, cs: nat, cl: seq<nat>, n: nat, x: nat, k: nat, off: nat, b: seq<byte>,
                     size: nat)
    requires Backed(data, cs, cl) && Covers(cs, cl, n) && k < |cl| && Listed(cl, size)
    requires Place(cs, x, k, off) && off + |b| <= cs && x + |b| <= n
    ensures var data' := data[cl[k] := Replaced(data[cl[k]], off, b)];
            Backed(data', cs, cl) && Contents(data', cs, cl, n) == Replaced(Contents(data, cs, cl, n), x, b)
  {
    var data' := data[cl[k] := Replaced(data[cl[k]], off, b)];
    assert Backed(data', cs, cl);
    var s, t := Contents(data', cs, cl, n), Replaced(Contents(data, cs, cl, n), x, b);
    forall y | 0 <= y < n
      ensures s[y] == t[y]
    {
      WrittenByte(data, cs, cl, n, x, k, off, b, size, y);
    }
  }

  lemma WrittenByte(data: seq<seq<byte>>, cs: nat, cl: seq<nat>, n: nat, x: nat, k: nat, off: nat, b: seq<byte>,
                    size: nat, y: nat)
    requires Backed(data, cs, cl) && Covers(cs, cl, n) && k < |cl| && Listed(cl, size)
    requires Place(cs, x, k, off) && off + |b| <= cs && y < n
    ensures var data' := data[cl[k] := Replaced(data[cl[k]], off, b)];
            Backed(data', cs, cl) &&
            ByteAt(data', cs, cl, y) == if x <= y < x + |b| then b[y - x] else ByteAt(data, cs, cl, y)
  {
    var data' := data[cl[k] := Replaced(data[cl[k]], off, b)];
    assert Backed(data', cs, cl);
    DivNonNegative(y, cs);
    var k', off' := y / cs, y % cs;
    if x <= y < x + |b| {
      PlaceMoves(cs, x, k, off, y - x);
    } else if k' == k {
      SameCluster(cs, x, y, k, off, off', |b|);
    }
  }

  /** Of the first `n` bytes those from `begin` up to `upto` are now zero; the others are as they were. */
  ghost predicate Erased(data: seq<seq<byte>>, data': seq<seq<byte>>, cs: nat, cl: seq<nat>, n: nat, begin: nat,
                         upto: nat)
    requires Backed(data, cs, cl) && Backed(data', cs, cl) && Covers(cs, cl, n)
  {
    forall y :: 0 <= y < n ==> ByteAt(data', cs, cl, y) == if begin <= y < upto then 0 else ByteAt(data, cs, cl, y)
  }

  lemma ErasedNothing(data: seq<seq<byte>>, cs: nat, cl: seq<nat>, n: nat, begin: nat)
    requires Backed(data, cs, cl) && Covers(cs, cl, n)
    ensures Erased(data, data, cs, cl, n, begin, begin)
  {
  }

  /** Erasing further, inside one cluster. */
  lemma ErasedMore(data: seq<seq<byte>>, data': seq<seq<byte>>, cs: nat, cl: seq<nat>, n: nat, begin: nat, x: nat,
                   k: nat, off: nat, len: nat, size: nat)
    requires Backed(data, cs, cl) && Backed(data', cs, cl) && Covers(cs, cl, n) && Listed(cl, size)
    requires Erased(data, data', cs, cl, n, begin, x) && begin <= x
    requires k < |cl| && Place(cs, x, k, off) && off + len <= cs
    ensures var data'' := data'[cl[k] := Replaced(data'[cl[k]], off, Zeros(len))];
            Backed(data'', cs, cl) && Erased(data, data'', cs, cl, n, begin, x + len)
  {
    hide ByteAt, Place, Listed, Replaced;
    var data'' := data'[cl[k] := Replaced(data'[cl[k]], off, Zeros(len))];
    assert Backed(data'', cs, cl);
    forall y | 0 <= y < n
      ensures ByteAt(data'', cs, cl, y) == if begin <= y < x + len then 0 else ByteAt(data, cs, cl, y)
    {
      WrittenByte(data', cs, cl, n, x, k, off, Zeros(len), size, y);
    }
  }

  /** Everything from `begin` on is zero. */
  lemma ErasedAll(data: seq<seq<byte>>, data': seq<seq<byte>>, cs: nat, cl: seq<nat>, n: nat, begin: nat, upto: nat)
    requires Backed(data, cs, cl) && Backed(data', cs, cl) && Covers(cs, cl, n)
    requires Erased(data, data', cs, cl, n, begin, upto) && begin <= n <= upto
    ensures Contents(data', cs, cl, n) == Contents(data, cs, cl, n)[..begin] + Zeros(n - begin)
  {
  }

  /** Writing on where the last piece ended. */
  lemma OverwriteOn(s: seq<byte>, x: nat, b: seq<byte>, c: seq<byte>)
    requires x + |b| + |c| <= |s|
    ensures Replaced(Replaced(s, x, b), x + |b|, c) == Replaced(s, x, b + c)
  {
  }

  /** In the same cluster, positions and offsets go together. */
  lemma SameCluster(cs: nat, x: nat, y: nat, k: nat, off: nat, off': nat, len: nat)
    requires 0 < cs && Place(cs, x, k, off) && Place(cs, y, k, off') && off + len <= cs
    ensures y - x == off' - off
  {
    assert x == cs * k + off && y == cs * k + off';
  }

  /** The clusters laid end to end. */
  ghost function Chained(data: seq<seq<byte>>, cl: seq<nat>): seq<byte>
    requires forall i :: 0 <= i < |cl| ==> cl[i] < |data|
  {
    if cl == [] then [] else Chained(data, cl[..|cl| - 1]) + data[cl[|cl| - 1]]
  }

  lemma {:induction false} ChainedByte(data: seq<seq<byte>>, cs: nat, cl: seq<nat>, x: nat)
    requires Backed(data, cs, cl) && x < |Chained(data, cl)|
    ensures |Chained(data, cl)| == |cl| * cs
    ensures 0 <= x / cs < |cl| && Chained(data, cl)[x] == ByteAt(data, cs, cl, x)
  {
    var m := |cl| - 1;
    var front := cl[..m];
    FlatLength(data, cs, cl);
    FlatLength(data, cs, front);
    MulStep(m, cs);
    if m * cs <= x {
      DivUnique(x, cs, m, x - m * cs);
    } else {
      ChainedByte(data, cs, front, x);
      assert ByteAt(data, cs, front, x) == ByteAt(data, cs, cl, x);
    }
  }

  lemma {:induction false} FlatLength(data: seq<seq<byte>>, cs: nat, cl: seq<nat>)
    requires Backed(data, cs, cl)
    ensures |Chained(data, cl)| == |cl| * cs
  {
    if cl != [] {
      FlatLength(data, cs, cl[..|cl| - 1]);
      MulStep(|cl| - 1, cs);
    }
  }

  /** The contents are a prefix of the flattened list. */
  lemma ChainedIsContents(data: seq<seq<byte>>, cs: nat, cl: seq<nat>, n: nat)
    requires Backed(data, cs, cl) && n <= |Chained(data, cl)|
    ensures Covers(cs, cl, n) && Contents(data, cs, cl, n) == Chained(data, cl)[..n]
  {
    hide Chained, ByteAt;
    forall x | 0 <= x < n
      ensures 0 <= x / cs < |cl| && Chained(data, cl)[x] == ByteAt(data, cs, cl, x)
    {
      ChainedByte(data, cs, cl, x);
    }
  }
}
