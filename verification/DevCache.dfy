/** src/f2fs/libf2fs_io.c: the block cache in front of a device. */
module DevCache {
  import opened Sequences

  const BLKSIZE: nat := 4096
  const PROBES: nat := 16

  /** `dcache_relocate_offset0` */
  const RELOCATE: seq<int> := [20, -20, 40, -40, 80, -80, 160, -160, 320, -320, 640, -640, 1280, -1280, 2560, -2560]

  // ----- the device

  predicate InDevice(disk: seq<byte>, b: nat) {
    b * BLKSIZE < |disk|
  }

  /** Where block `b` ends; the last one may be cut short by the end of the device. */
  function EndOf(size: nat, b: nat): nat {
    if (b + 1) * BLKSIZE <= size then (b + 1) * BLKSIZE else size
  }

  function Block(disk: seq<byte>, b: nat): (s: seq<byte>)
    requires InDevice(disk, b)
    ensures |s| == EndOf(|disk|, b) - b * BLKSIZE <= BLKSIZE
  {
    disk[b * BLKSIZE..EndOf(|disk|, b)]
  }

  lemma StoreOn(disk: seq<byte>, offset: nat, a: seq<byte>, b: seq<byte>)
    requires offset + |a| + |b| <= |disk|
    ensures Replaced(Replaced(disk, offset, a), offset + |a|, b) == Replaced(disk, offset, a + b)
  {
  }

  lemma StoreNothing(disk: seq<byte>, offset: nat, a: seq<byte>)
    requires offset <= |disk| && a == []
    ensures Replaced(disk, offset, a) == disk
  {
  }

  /** A write inside one block changes that block. */
  lemma StoredBlock(disk: seq<byte>, b: nat, at: nat, a: seq<byte>)
    requires InDevice(disk, b) && b * BLKSIZE + at + |a| <= EndOf(|disk|, b)
    ensures Block(Replaced(disk, b * BLKSIZE + at, a), b) == Replaced(Block(disk, b), at, a)
  {
  }

  /** And no other. */
  lemma OtherBlock(disk: seq<byte>, b: nat, at: nat, a: seq<byte>, b': nat)
    requires InDevice(disk, b) && InDevice(disk, b') && b != b' && b * BLKSIZE + at + |a| <= EndOf(|disk|, b)
    ensures Block(Replaced(disk, b * BLKSIZE + at, a), b') == Block(disk, b')
  {
  }

  // ----- where a block may be cached

  /** The `k`-th place to look for a block. */
  function Probe(n: nat, shift: seq<nat>, b: nat, k: nat): (r: nat)
    requires 0 < n && k <= |shift|
    ensures r < n
  {
    if k == 0 then b % n else (b % n + shift[k - 1]) % n
  }

  /** The number of places looked at. */
  function Tries(m: nat): nat {
    if m == 0 then 1 else m
  }

  /** A block cached in slot `s` is at one of its places, behind places that are all in use. */
  ghost predicate AtProbe(n: nat, shift: seq<nat>, valid: seq<bool>, s: nat, b: nat, k: nat)
    requires 0 < n == |valid|
  {
    k <= |shift| && Probe(n, shift, b, k) == s && forall j :: 0 <= j < k ==> valid[Probe(n, shift, b, j)]
  }

  ghost predicate Placed(n: nat, m: nat, shift: seq<nat>, valid: seq<bool>, blk: seq<nat>, place: seq<nat>) {
    && 0 < n == |valid| == |blk| == |place|
    && forall s :: 0 <= s < n && valid[s] ==> place[s] < Tries(m) && AtProbe(n, shift, valid, s, blk[s], place[s])
  }

  /** No block is in two slots. */
  ghost predicate Unique(valid: seq<bool>, blk: seq<nat>) {
    && |valid| == |blk|
    && forall s, t :: 0 <= s < |valid| && 0 <= t < |valid| && valid[s] && valid[t] && blk[s] == blk[t] ==> s == t
  }

  /** Every cached block is what the device holds, as far as the device goes. */
  ghost predicate Coherent(valid: seq<bool>, blk: seq<nat>, buf: seq<seq<byte>>, disk: seq<byte>) {
    && |valid| == |blk| == |buf|
    && (forall s :: 0 <= s < |buf| ==> |buf[s]| == BLKSIZE)
    && forall s :: 0 <= s < |valid| && valid[s] ==> InDevice(disk, blk[s]) && Block(disk, blk[s]) <= buf[s]
  }

  ghost predicate Cached(valid: seq<bool>, blk: seq<nat>, b: nat, s: nat) {
    s < |valid| && |valid| == |blk| && valid[s] && blk[s] == b
  }

  /** The block is cached in no slot but, possibly, `r`. */
  ghost predicate OnlyAt(valid: seq<bool>, blk: seq<nat>, b: nat, r: nat) {
    |valid| == |blk| && forall s :: 0 <= s < |valid| && s != r && valid[s] ==> blk[s] != b
  }

  /** A block not met on the first `k` places is not cached, if the next place is unused or there is none. */
  lemma NotCached(n: nat, m: nat, shift: seq<nat>, valid: seq<bool>, blk: seq<nat>, place: seq<nat>, b: nat, k: nat)
    requires Placed(n, m, shift, valid, blk, place) && m <= |shift| && k <= m
    requires forall j :: 0 <= j < k ==> blk[Probe(n, shift, b, j)] != b
    requires (k == m && 0 < m) || !valid[Probe(n, shift, b, k)]
    ensures forall s :: 0 <= s < n && valid[s] ==> blk[s] != b
  {
    hide Probe;
    forall s | 0 <= s < n && valid[s]
      ensures blk[s] != b
    {
      assert AtProbe(n, shift, valid, s, blk[s], place[s]);
    }
  }

  /** Putting a block into a slot found for it. */
  lemma PlacedMore(n: nat, m: nat, shift: seq<nat>, valid: seq<bool>, blk: seq<nat>, place: seq<nat>, b: nat, k: nat)
    requires Placed(n, m, shift, valid, blk, place) && m <= |shift| && k < Tries(m)
    requires AtProbe(n, shift, valid, Probe(n, shift, b, k), b, k)
    ensures var r := Probe(n, shift, b, k); Placed(n, m, shift, valid[r := true], blk[r := b], place[r := k])
  {
    hide Probe;
    var r := Probe(n, shift, b, k);
    var valid', blk', place' := valid[r := true], blk[r := b], place[r := k];
    forall s | 0 <= s < n && valid'[s]
      ensures place'[s] < Tries(m) && AtProbe(n, shift, valid', s, blk'[s], place'[s])
    {
      if s != r {
        assert AtProbe(n, shift, valid, s, blk[s], place[s]);
      }
    }
  }

  lemma UniqueMore(valid: seq<bool>, blk: seq<nat>, b: nat, r: nat)
    requires Unique(valid, blk) && r < |valid| && OnlyAt(valid, blk, b, r)
    ensures Unique(valid[r := true], blk[r := b])
  {
  }

  /** A cache in agreement with `seen` takes in a block of `disk`. */
  lemma CoherentMore(valid: seq<bool>, blk: seq<nat>, buf: seq<seq<byte>>, seen: seq<byte>, disk: seq<byte>, b: nat,
                     r: nat)
    requires Coherent(valid, blk, buf, seen) && r < |valid| && OnlyAt(valid, blk, b, r)
    requires |seen| == |disk| && InDevice(disk, b)
    ensures |buf[r]| == BLKSIZE
    ensures Coherent(valid[r := true], blk[r := b], buf[r := Replaced(buf[r], 0, Block(disk, b))],
                     Renewed(seen, disk, b))
  {
    hide Block, Replaced;
    StoredPrefix(buf[r], Block(disk, b));
    RenewedBlock(seen, disk, b);
    forall s | 0 <= s < |valid| && valid[s] && s != r
      ensures Block(Renewed(seen, disk, b), blk[s]) == Block(seen, blk[s])
    {
      OtherBlock(seen, b, 0, Block(disk, b), blk[s]);
    }
  }

  /** `seen` with block `b` as it is on `disk`. */
  function Renewed(seen: seq<byte>, disk: seq<byte>, b: nat): (d: seq<byte>)
    requires |seen| == |disk| && InDevice(disk, b)
    ensures |d| == |disk|
  {
    Replaced(seen, b * BLKSIZE, Block(disk, b))
  }

  lemma RenewedBlock(seen: seq<byte>, disk: seq<byte>, b: nat)
    requires |seen| == |disk| && InDevice(disk, b)
    ensures Block(Renewed(seen, disk, b), b) == Block(disk, b)
  {
    StoredBlock(seen, b, 0, Block(disk, b));
  }

  /** Every byte of `r` is the one of `s` or the one of `t`. */
  ghost predicate Mix(s: seq<byte>, t: seq<byte>, r: seq<byte>) {
    |s| == |t| == |r| && forall x :: 0 <= x < |r| ==> r[x] == s[x] || r[x] == t[x]
  }

  lemma MixRenewed(s: seq<byte>, t: seq<byte>, r: seq<byte>, b: nat)
    requires Mix(s, t, r) && InDevice(t, b)
    ensures Mix(s, t, Renewed(r, t, b))
  {
  }

  lemma MixSlice(s: seq<byte>, t: seq<byte>, r: seq<byte>, at: nat, done: nat, cur: nat, out: seq<byte>)
    requires Mix(s, t, r) && at + done + cur <= |s| && Mix(s[at..at + done], t[at..at + done], out)
    ensures Mix(s[at..at + done + cur], t[at..at + done + cur], out + r[at + done..at + done + cur])
  {
    var out' := out + r[at + done..at + done + cur];
    forall x | 0 <= x < |out'|
      ensures out'[x] == s[at + x] || out'[x] == t[at + x]
    {
      if x < done {
        assert out[x] == s[at..at + done][x] || out[x] == t[at..at + done][x];
      } else {
        assert out'[x] == r[at + x];
      }
    }
  }

  lemma MixSelf(s: seq<byte>, r: seq<byte>)
    requires Mix(s, s, r)
    ensures r == s
  {
  }

  lemma StoredPrefix(s: seq<byte>, a: seq<byte>)
    requires |a| <= |s|
    ensures a <= Replaced(s, 0, a)
  {
  }

  lemma StoredBoth(s: seq<byte>, t: seq<byte>, at: nat, a: seq<byte>)
    requires s <= t && at + |a| <= |s|
    ensures Replaced(s, at, a) <= Replaced(t, at, a)
  {
  }

  /** The cache follows a write inside one block if the slot of that block does. */
  lemma CoherentStored(valid: seq<bool>, blk: seq<nat>, buf: seq<seq<byte>>, disk: seq<byte>, b: nat, at: nat,
                       a: seq<byte>, r: nat)
    requires Coherent(valid, blk, buf, disk) && Unique(valid, blk) && r < |valid|
    requires InDevice(disk, b) && b * BLKSIZE + at + |a| <= EndOf(|disk|, b)
    requires OnlyAt(valid, blk, b, r)
    ensures Cached(valid, blk, b, r) ==>
              && |buf[r]| == BLKSIZE
              && Coherent(valid, blk, buf[r := Replaced(buf[r], at, a)], Replaced(disk, b * BLKSIZE + at, a))
    ensures !Cached(valid, blk, b, r) ==> Coherent(valid, blk, buf, Replaced(disk, b * BLKSIZE + at, a))
  {
    hide Block, Replaced;
    StoredBlock(disk, b, at, a);
    if Cached(valid, blk, b, r) {
      StoredBoth(Block(disk, b), buf[r], at, a);
    }
    forall s | 0 <= s < |valid| && valid[s] && blk[s] != b
      ensures Block(Replaced(disk, b * BLKSIZE + at, a), blk[s]) == Block(disk, blk[s])
    {
      OtherBlock(disk, b, at, a, blk[s]);
    }
  }

  lemma FirstProbe(n: nat, shift: seq<nat>, b: nat)
    requires 0 < n
    ensures Probe(n, shift, b, 0) == b % n
  {
  }

  lemma NextProbe(n: nat, shift: seq<nat>, b: nat, k: nat)
    requires 0 < n && k < |shift|
    ensures Probe(n, shift, b, k + 1) == (b % n + shift[k]) % n
  {
  }

  /** The search stopped at an unused slot, or at the block. */
  lemma Met(n: nat, m: nat, shift: seq<nat>, valid: seq<bool>, blk: seq<nat>, place: seq<nat>, b: nat, k: nat)
    requires Placed(n, m, shift, valid, blk, place) && Unique(valid, blk) && m <= |shift| && k < m
    requires forall j :: 0 <= j < k ==> valid[Probe(n, shift, b, j)] && blk[Probe(n, shift, b, j)] != b
    requires !valid[Probe(n, shift, b, k)] || blk[Probe(n, shift, b, k)] == b
    ensures AtProbe(n, shift, valid, Probe(n, shift, b, k), b, k) && OnlyAt(valid, blk, b, Probe(n, shift, b, k))
  {
    hide Probe;
    if !valid[Probe(n, shift, b, k)] {
      NotCached(n, m, shift, valid, blk, place, b, k);
    }
  }

  /** The search met neither; it ends with place `k`. */
  lemma NotMet(n: nat, m: nat, shift: seq<nat>, valid: seq<bool>, blk: seq<nat>, place: seq<nat>, b: nat, k: nat)
    requires Placed(n, m, shift, valid, blk, place) && Unique(valid, blk) && m <= |shift| && k < Tries(m)
    requires forall j :: 0 <= j < m ==> valid[Probe(n, shift, b, j)] && blk[Probe(n, shift, b, j)] != b
    ensures AtProbe(n, shift, valid, Probe(n, shift, b, k), b, k) && OnlyAt(valid, blk, b, Probe(n, shift, b, k))
  {
    if 0 < m {
      NotCached(n, m, shift, valid, blk, place, b, m);
    }
  }

  const MIN_ENTRIES: nat := 1024

  function Distance(x: int): (d: nat)
    ensures d == x || d == -x
  {
    if x < 0 then -x else x
  }

  /** `dcache_relocate_init`: probing stops before the first offset that reaches more than halfway around. */
  method RelocateInit(n: nat, wanted: nat) returns (m: nat, shift: seq<nat>)
    requires 0 < n && wanted <= PROBES
    ensures m <= wanted && |shift| == m
    ensures forall i :: 0 <= i < m ==> Distance(RELOCATE[i]) <= n / 2 && shift[i] == n + RELOCATE[i]
    ensures m < wanted ==> n / 2 < Distance(RELOCATE[m])
  {
    m, shift := wanted, [];
    var i := 0;
    while i < PROBES && i < m
      invariant i <= m == wanted && |shift| == i
      invariant forall j :: 0 <= j < i ==> Distance(RELOCATE[j]) <= n / 2 && shift[j] == n + RELOCATE[j]
    {
      if n / 2 < Distance(RELOCATE[i]) {
        m := i;
        break;
      }
      shift := shift + [n + RELOCATE[i]];
      i := i + 1;
    }
  }

  /** With the least number of entries ten of the sixteen places are looked at. */
  method RelocateExample() returns (m: nat, shift: seq<nat>)
    ensures m == 10 && shift == [1044, 1004, 1064, 984, 1104, 944, 1184, 864, 1344, 704]
  {
    m, shift := RelocateInit(1024, 16);
    assert forall i :: 0 <= i < 10 ==> Distance(RELOCATE[i]) <= 512;
    assert RELOCATE[10] == 640;
  }

  /** No two cached blocks were read in at the same tick, and none after the last. */
  ghost predicate Ticked(valid: seq<bool>, lastused: seq<nat>, usetick: nat) {
    && |valid| == |lastused|
    && (forall e :: 0 <= e < |valid| && valid[e] ==> lastused[e] <= usetick)
    && forall d, e :: 0 <= d < e < |valid| && valid[d] && valid[e] ==> lastused[d] != lastused[e]
  }

  lemma TickedMore(valid: seq<bool>, lastused: seq<nat>, usetick: nat, entry: nat)
    requires Ticked(valid, lastused, usetick) && entry < |valid|
    ensures Ticked(valid[entry := true], lastused[entry := usetick + 1], usetick + 1)
  {
  }

  lemma NowhereElse(valid: seq<bool>, blk: seq<nat>, b: nat, r: nat)
    requires |valid| == |blk| && OnlyAt(valid, blk, b, r)
    ensures forall e :: 0 <= e < |valid| && e != r ==> !Cached(valid, blk, b, e)
  {
  }

  class Cache {
    const n: nat
    const m: nat
    const shift: seq<nat>
    const valid: array<bool>
    const blk: array<nat>
    const lastused: array<nat>
    const buf: array<seq<byte>>
    var usetick: nat
    ghost var place: seq<nat>

    /** `dcache_init`, on slots that are not in use. */
    constructor (entries: nat, wanted: nat, ghost disk: seq<byte>)
      requires wanted <= PROBES
      ensures Fits(disk) && fresh(valid) && fresh(blk) && fresh(lastused) && fresh(buf)
      ensures n == if entries < 1024 then 1024 else entries
      ensures m <= wanted && forall i :: 0 <= i < m ==> shift[i] == n + RELOCATE[i]
    {
      var size := if entries < MIN_ENTRIES then MIN_ENTRIES else entries;
      var probes, offsets := RelocateInit(size, wanted);
      n, m, shift := size, probes, offsets;
      valid := new bool[size](_ => false);
      blk := new nat[size](_ => 0);
      lastused := new nat[size](_ => 0);
      buf := new seq<byte>[size](_ => seq(BLKSIZE, _ => 0));
      usetick := 0;
      place := seq(size, _ => 0);
    }

    /** The slots agree with each other and with a device that holds `disk`. */
    ghost predicate Fits(disk: seq<byte>)
      reads this, valid, blk, lastused, buf
    {
      && 0 < n == valid.Length == blk.Length == lastused.Length == buf.Length && m <= |shift|
      && blk != lastused && |place| == n
      && Placed(n, m, shift, valid[..], blk[..], place)
      && Unique(valid[..], blk[..])
      && Coherent(valid[..], blk[..], buf[..], disk)
      && Ticked(valid[..], lastused[..], usetick)
    }

    /** `dcache_find`: the slot of the block if it is cached; else a slot to put it into, unused or,
        with all its places in use, the one whose block was read in longest ago. */
    method Find(b: nat, ghost disk: seq<byte>) returns (r: nat, ghost k: nat)
      requires Fits(disk)
      ensures r < n && k < Tries(m) && AtProbe(n, shift, valid[..], r, b, k)
      ensures OnlyAt(valid[..], blk[..], b, r)
      ensures valid[r] && blk[r] != b ==>
                forall j :: 0 <= j < m ==>
                  valid[Probe(n, shift, b, j)] && lastused[r] <= lastused[Probe(n, shift, b, j)]
    {
      hide Placed, Unique, Coherent, Probe, AtProbe, OnlyAt;
      FirstProbe(n, shift, b);
      var entry := b % n;
      var target, leastUsed := entry, entry;
      k := 0;
      var try := 0;
      while try < m
        invariant 0 <= try <= m && k < Tries(m) && k <= try
        invariant target < n && (try < m ==> target == Probe(n, shift, b, try))
        invariant leastUsed == Probe(n, shift, b, k)
        invariant forall j :: 0 <= j < try ==> valid[Probe(n, shift, b, j)] && blk[Probe(n, shift, b, j)] != b
        invariant forall j :: 0 <= j < try ==> lastused[leastUsed] <= lastused[Probe(n, shift, b, j)]
      {
        if !valid[target] || blk[target] == b {
          Met(n, m, shift, valid[..], blk[..], place, b, try);
          return target, try;
        }
        if lastused[target] < lastused[leastUsed] {
          leastUsed := target;
          k := try;
        }
        NextProbe(n, shift, b, try);
        target := (entry + shift[try]) % n;
        try := try + 1;
      }
      NotMet(n, m, shift, valid[..], blk[..], place, b, k);
      r := leastUsed;
    }

    /** The hit, or the `dcache_io_read`, of one turn of the loop for reading. The cache agrees with `seen`, which
        may not be what the device holds. */
    method Fetch(b: nat, disk: seq<byte>, ghost seen: seq<byte>) returns (entry: nat, ghost seen': seq<byte>)
      requires Fits(seen) && |seen| == |disk| && InDevice(disk, b)
      modifies this`usetick, this`place, valid, blk, lastused, buf
      ensures |seen'| == |disk| && Fits(seen') && entry < n
      ensures Cached(valid[..], blk[..], b, entry) && Block(seen', b) <= buf[entry]
      ensures seen' == if old(Cached(valid[..], blk[..], b, entry)) then seen else Renewed(seen, disk, b)
      ensures usetick == old(usetick) + (if old(Cached(valid[..], blk[..], b, entry)) then 0 else 1)
      ensures !old(Cached(valid[..], blk[..], b, entry)) ==>
                forall e :: 0 <= e < n ==> !old(Cached(valid[..], blk[..], b, e))
      ensures old(Cached(valid[..], blk[..], b, entry)) || lastused[entry] == usetick
      ensures forall e :: 0 <= e < n && (e != entry || usetick == old(usetick)) ==>
                && valid[e] == old(valid[e]) && blk[e] == old(blk[e])
                && lastused[e] == old(lastused[e]) && buf[e] == old(buf[e])
    {
      hide Placed, Unique, Coherent, Probe, AtProbe, OnlyAt, Block, Ticked, Replaced, Renewed;
      ghost var k;
      entry, k := Find(b, seen);
      if valid[entry] && blk[entry] == b {
        HitIsBlock(valid[..], blk[..], buf[..], seen, b, entry);
        seen' := seen;
        return;
      }
      ProbeOf(n, shift, valid[..], entry, b, k);
      PlacedMore(n, m, shift, valid[..], blk[..], place, b, k);
      UniqueMore(valid[..], blk[..], b, entry);
      CoherentMore(valid[..], blk[..], buf[..], seen, disk, b, entry);
      TickedMore(valid[..], lastused[..], usetick, entry);
      NowhereElse(valid[..], blk[..], b, entry);
      seen' := Renewed(seen, disk, b);
      ghost var v, l, f, u := valid[..], blk[..], buf[..], lastused[..];
      place := place[entry := k];
      buf[entry] := Replaced(buf[entry], 0, disk[b * BLKSIZE..EndOf(|disk|, b)]);
      usetick := usetick + 1;
      lastused[entry] := usetick;
      valid[entry] := true;
      blk[entry] := b;
      assert valid[..] == v[entry := true] && blk[..] == l[entry := b];
      assert lastused[..] == u[entry := usetick];
      BlockIs(disk, b);
      assert buf[..] == f[entry := Replaced(f[entry], 0, Block(disk, b))];
      HitIsBlock(valid[..], blk[..], buf[..], seen', b, entry);
    }

    /** One turn of the loop for reading. */
    method ReadPiece(b: nat, at: nat, count: nat, disk: seq<byte>, ghost seen: seq<byte>)
      returns (piece: seq<byte>, ghost seen': seq<byte>)
      requires Fits(seen) && |seen| == |disk| && InDevice(disk, b) && b * BLKSIZE + at + count <= EndOf(|disk|, b)
      modifies this`usetick, this`place, valid, blk, lastused, buf
      ensures |seen'| == |disk| && Fits(seen') && piece == seen'[b * BLKSIZE + at..b * BLKSIZE + at + count]
      ensures if old(IsCached(valid[..], blk[..], b)) then
                seen' == seen && valid[..] == old(valid[..]) && blk[..] == old(blk[..])
              else seen' == Renewed(seen, disk, b)
    {
      hide Placed, Unique, Coherent, Block, Ticked, Renewed;
      var entry;
      entry, seen' := Fetch(b, disk, seen);
      PieceOfBlock(seen', b, at, count, buf[entry]);
      piece := buf[entry][at..at + count];
    }

    /** `dcache_update_rw` for a read. Every byte is the one the cache has seen or the one on the device; if all
        blocks of the range are cached, it is the one the cache has seen. */
    method Read(disk: seq<byte>, offset: nat, count: nat, ghost seen: seq<byte>)
      returns (out: seq<byte>, ghost seen': seq<byte>)
      requires Fits(seen) && |seen| == |disk| && offset + count <= |disk|
      modifies this`usetick, this`place, valid, blk, lastused, buf
      ensures Fits(seen') && Mix(seen, disk, seen')
      ensures Mix(seen[offset..offset + count], disk[offset..offset + count], out)
      ensures old(AllCached(valid[..], blk[..], offset, count)) ==> out == seen[offset..offset + count]
    {
      hide Fits, Block, Mix, IsCached, Renewed;
      var b: nat, at: nat, left: nat := offset / BLKSIZE, offset % BLKSIZE, count;
      out, seen' := [], seen;
      MixStart(seen, disk, offset);
      while left != 0
        invariant |seen'| == |disk| && Fits(seen') && Mix(seen, disk, seen') && left + |out| == count && at < BLKSIZE
        invariant left != 0 ==> b * BLKSIZE + at == offset + |out|
        invariant Mix(seen[offset..offset + |out|], disk[offset..offset + |out|], out)
        invariant old(AllCached(valid[..], blk[..], offset, count)) ==>
                    && seen' == seen && out == seen[offset..offset + |out|]
                    && valid[..] == old(valid[..]) && blk[..] == old(blk[..])
        decreases left
      {
        var cur := if left < BLKSIZE - at then left else BLKSIZE - at;
        assert InDevice(disk, b);
        MixRenewed(seen, disk, seen', b);
        var piece;
        piece, seen' := ReadPiece(b, at, cur, disk, seen');
        MixSlice(seen, disk, seen', offset, |out|, cur, out);
        out := out + piece;
        b, left, at := b + 1, left - cur, 0;
      }
    }

    /** One turn of the loop for writing: a cached block is brought up to date. */
    method Refresh(b: nat, at: nat, data: seq<byte>, ghost disk: seq<byte>)
      requires Fits(disk) && InDevice(disk, b) && b * BLKSIZE + at + |data| <= EndOf(|disk|, b)
      modifies buf
      ensures Fits(Replaced(disk, b * BLKSIZE + at, data))
    {
      hide Placed, Unique, Coherent, Probe, AtProbe, OnlyAt, Block, Replaced;
      var entry;
      ghost var k;
      entry, k := Find(b, disk);
      CoherentStored(valid[..], blk[..], buf[..], disk, b, at, data, entry);
      if valid[entry] && blk[entry] == b {
        ghost var f := buf[..];
        buf[entry] := Replaced(buf[entry], at, data);
        assert buf[..] == f[entry := Replaced(f[entry], at, data)];
      }
    }

    /** `dcache_update_rw` for a write: the cache is ahead of the device, which is to be written next. */
    method Update(data: seq<byte>, offset: nat, ghost disk: seq<byte>)
      requires Fits(disk) && offset + |data| <= |disk|
      modifies buf
      ensures Fits(Replaced(disk, offset, data))
    {
      hide Fits, Replaced;
      var b: nat, at: nat, done: nat := offset / BLKSIZE, offset % BLKSIZE, 0;
      StoreNothing(disk, offset, data[..0]);
      while done != |data|
        invariant done <= |data| && at < BLKSIZE && Fits(Replaced(disk, offset, data[..done]))
        invariant done != |data| ==> b * BLKSIZE + at == offset + done
        decreases |data| - done
      {
        var cur := if |data| - done < BLKSIZE - at then |data| - done else BLKSIZE - at;
        var piece := data[done..done + cur];
        assert InDevice(Replaced(disk, offset, data[..done]), b);
        Refresh(b, at, piece, Replaced(disk, offset, data[..done]));
        StoreOn(disk, offset, data[..done], piece);
        assert data[..done + cur] == data[..done] + piece;
        b, done, at := b + 1, done + cur, 0;
      }
      assert data[..done] == data;
    }
  }

  lemma MixStart(seen: seq<byte>, disk: seq<byte>, offset: nat)
    requires |seen| == |disk| && offset <= |disk|
    ensures Mix(seen, disk, seen) && Mix(seen[offset..offset], disk[offset..offset], [])
  {
  }

  /** All blocks of a range are cached. */
  ghost predicate AllCached(valid: seq<bool>, blk: seq<nat>, offset: nat, count: nat) {
    forall b: nat :: b * BLKSIZE < offset + count && offset < (b + 1) * BLKSIZE ==> IsCached(valid, blk, b)
  }

  ghost predicate IsCached(valid: seq<bool>, blk: seq<nat>, b: nat) {
    exists s: nat :: Cached(valid, blk, b, s)
  }

  lemma PieceOfBlock(disk: seq<byte>, b: nat, at: nat, cur: nat, slot: seq<byte>)
    requires InDevice(disk, b) && b * BLKSIZE + at + cur <= EndOf(|disk|, b) && Block(disk, b) <= slot
    ensures slot[at..at + cur] == disk[b * BLKSIZE + at..b * BLKSIZE + at + cur]
  {
    SliceOfSlice(disk, b * BLKSIZE, EndOf(|disk|, b), at, at + cur);
    assert slot[..|Block(disk, b)|][at..at + cur] == slot[at..at + cur];
  }

  /** The data do not change the part of a cached block they are written to. */
  ghost predicate KeepsCached(valid: seq<bool>, blk: seq<nat>, disk: seq<byte>, offset: nat, data: seq<byte>)
    requires offset + |data| <= |disk|
  {
    && |valid| == |blk|
    && forall s, x :: 0 <= s < |valid| && valid[s] && offset <= x < offset + |data| && x / BLKSIZE == blk[s] ==>
                        data[x - offset] == disk[x]
  }

  ghost predicate KeepsBlock(disk: seq<byte>, offset: nat, data: seq<byte>, b: nat)
    requires offset + |data| <= |disk|
  {
    forall x :: offset <= x < offset + |data| && x / BLKSIZE == b ==> data[x - offset] == disk[x]
  }

  lemma SameBlockIff(disk: seq<byte>, offset: nat, data: seq<byte>, b: nat)
    requires InDevice(disk, b) && offset + |data| <= |disk|
    ensures Block(Replaced(disk, offset, data), b) == Block(disk, b) <==> KeepsBlock(disk, offset, data, b)
  {
    var disk' := Replaced(disk, offset, data);
    if Block(disk', b) == Block(disk, b) {
      forall x | offset <= x < offset + |data| && x / BLKSIZE == b
        ensures data[x - offset] == disk[x]
      {
        assert Block(disk', b)[x - b * BLKSIZE] == Block(disk, b)[x - b * BLKSIZE];
      }
    }
  }

  lemma StillCoherent(valid: seq<bool>, blk: seq<nat>, buf: seq<seq<byte>>, disk: seq<byte>, offset: nat,
                      data: seq<byte>)
    requires Coherent(valid, blk, buf, disk) && offset + |data| <= |disk|
    ensures Coherent(valid, blk, buf, Replaced(disk, offset, data)) <==> KeepsCached(valid, blk, disk, offset, data)
  {
    hide Block, Replaced, KeepsBlock;
    var disk' := Replaced(disk, offset, data);
    forall s | 0 <= s < |valid| && valid[s]
      ensures Block(disk', blk[s]) <= buf[s] <==> KeepsBlock(disk, offset, data, blk[s])
    {
      SamePrefix(Block(disk, blk[s]), Block(disk', blk[s]), buf[s]);
      SameBlockIff(disk, offset, data, blk[s]);
    }
    KeepsEach(valid, blk, disk, offset, data);
  }

  lemma KeepsEach(valid: seq<bool>, blk: seq<nat>, disk: seq<byte>, offset: nat, data: seq<byte>)
    requires offset + |data| <= |disk| && |valid| == |blk|
    ensures KeepsCached(valid, blk, disk, offset, data) <==>
              forall s :: 0 <= s < |valid| && valid[s] ==> KeepsBlock(disk, offset, data, blk[s])
  {
  }

  lemma SamePrefix(a: seq<byte>, b: seq<byte>, s: seq<byte>)
    requires |a| == |b| && a <= s
    ensures b <= s <==> b == a
  {
  }

  // ----- the device behind its cache

  datatype Op = ReadOp(offset: nat, count: nat) | WriteOp(offset: nat, data: seq<byte>)

  predicate InRange(op: Op, size: nat) {
    match op
    case ReadOp(offset, count) => offset + count <= size
    case WriteOp(offset, data) => offset + |data| <= size
  }

  /** What a device without a cache does: its contents and answers after a run of operations. */
  function Plain(disk: seq<byte>, dryRun: bool, ops: seq<Op>): (r: (seq<byte>, seq<seq<byte>>))
    requires forall i :: 0 <= i < |ops| ==> InRange(ops[i], |disk|)
    ensures |r.0| == |disk|
    decreases |ops|
  {
    if ops == [] then (disk, [])
    else
      var n := |ops| - 1;
      assert InRange(ops[n], |disk|);
      var (d, answers) := Plain(disk, dryRun, ops[..n]);
      match ops[n]
      case ReadOp(offset, count) => (d, answers + [d[offset..offset + count]])
      case WriteOp(offset, data) => (if dryRun then d else Replaced(d, offset, data), answers)
  }

  /** A write to byte `x`. */
  predicate Hits(op: Op, x: nat) {
    op.WriteOp? && op.offset <= x < op.offset + |op.data|
  }

  ghost predicate AllInRange(ops: seq<Op>, size: nat) {
    forall i :: 0 <= i < |ops| ==> InRange(ops[i], size)
  }

  lemma PlainStep(disk: seq<byte>, dryRun: bool, ops: seq<Op>, n: nat)
    requires AllInRange(ops, |disk|) && |ops| == n + 1
    ensures AllInRange(ops[..n], |disk|) && InRange(ops[n], |disk|)
    ensures var (d, answers) := Plain(disk, dryRun, ops[..n]);
            Plain(disk, dryRun, ops) ==
              match ops[n]
              case ReadOp(offset, count) => (d, answers + [d[offset..offset + count]])
              case WriteOp(offset, data) => (if dryRun then d else Replaced(d, offset, data), answers)
  {
  }

  lemma PlainByteStep(disk: seq<byte>, dryRun: bool, ops: seq<Op>, n: nat, x: nat)
    requires AllInRange(ops, |disk|) && |ops| == n + 1 && x < |disk|
    ensures AllInRange(ops[..n], |disk|)
    ensures Plain(disk, dryRun, ops).0[x] ==
              if Hits(ops[n], x) && !dryRun then ops[n].data[x - ops[n].offset]
              else Plain(disk, dryRun, ops[..n]).0[x]
  {
    hide Plain;
    PlainStep(disk, dryRun, ops, n);
  }

  /** After a run a byte that was not written to is as it was... */
  lemma {:induction false} PlainKept(disk: seq<byte>, dryRun: bool, ops: seq<Op>, x: nat)
    requires AllInRange(ops, |disk|) && x < |disk| && (dryRun || forall i :: 0 <= i < |ops| ==> !Hits(ops[i], x))
    ensures Plain(disk, dryRun, ops).0[x] == disk[x]
    decreases |ops|
  {
    if ops != [] {
      hide Plain;
      PlainByteStep(disk, dryRun, ops, |ops| - 1, x);
      PlainKept(disk, dryRun, ops[..|ops| - 1], x);
    }
  }

  /** ...and one that was is what the last write to it has put there. */
  lemma {:induction false} PlainWritten(disk: seq<byte>, ops: seq<Op>, x: nat, i: nat)
    requires AllInRange(ops, |disk|) && x < |disk| && i < |ops| && Hits(ops[i], x)
    requires forall j :: i < j < |ops| ==> !Hits(ops[j], x)
    ensures Plain(disk, false, ops).0[x] == ops[i].data[x - ops[i].offset]
    decreases |ops|
  {
    hide Plain;
    PlainByteStep(disk, false, ops, |ops| - 1, x);
    if i < |ops| - 1 {
      PlainWritten(disk, ops[..|ops| - 1], x, i);
    }
  }

  /** How many of the operations are reads. */
  function Reads(ops: seq<Op>): nat {
    if ops == [] then 0 else Reads(ops[..|ops| - 1]) + if ops[|ops| - 1].ReadOp? then 1 else 0
  }

  lemma {:induction false} AnswerCount(disk: seq<byte>, dryRun: bool, ops: seq<Op>)
    requires AllInRange(ops, |disk|)
    ensures |Plain(disk, dryRun, ops).1| == Reads(ops)
    decreases |ops|
  {
    if ops != [] {
      hide Plain;
      PlainStep(disk, dryRun, ops, |ops| - 1);
      AnswerCount(disk, dryRun, ops[..|ops| - 1]);
    }
  }

  lemma AllInRangeFirst(ops: seq<Op>, size: nat, i: nat)
    requires AllInRange(ops, size) && i < |ops|
    ensures AllInRange(ops[..i], size) && InRange(ops[i], size)
  {
  }

  /** There is an answer to every read, in order: what the device holds at that time. */
  lemma {:induction false} PlainAnswer(disk: seq<byte>, dryRun: bool, ops: seq<Op>, i: nat)
    requires AllInRange(ops, |disk|) && i < |ops| && ops[i].ReadOp?
    ensures |Plain(disk, dryRun, ops).1| == Reads(ops) && Reads(ops[..i]) < Reads(ops)
    ensures AllInRange(ops[..i], |disk|) && InRange(ops[i], |disk|)
    ensures Plain(disk, dryRun, ops).1[Reads(ops[..i])]
            == Plain(disk, dryRun, ops[..i]).0[ops[i].offset..ops[i].offset + ops[i].count]
    decreases |ops|
  {
    hide Plain, AllInRange, InRange;
    var n := |ops| - 1;
    AllInRangeFirst(ops, |disk|, i);
    AnswerCount(disk, dryRun, ops);
    PlainStep(disk, dryRun, ops, n);
    AnswerCount(disk, dryRun, ops[..n]);
    if i < n {
      PlainAnswer(disk, dryRun, ops[..n], i);
      assert ops[..n][..i] == ops[..i];
    }
  }

  class Device {
    const cache: Cache?
    const dryRun: bool
    var disk: seq<byte>

    ghost predicate Valid()
      reads this, cache, if cache == null then {} else {cache.valid, cache.blk, cache.lastused, cache.buf}
    {
      cache != null ==> cache.Fits(disk)
    }

    ghost function Footprint(): set<object>
      reads this
    {
      {this} + if cache == null then {} else {cache, cache.valid, cache.blk, cache.lastused, cache.buf}
    }

    constructor (cache: Cache?, dryRun: bool, disk: seq<byte>)
      requires cache != null ==> cache.Fits(disk)
      ensures Valid() && this.cache == cache && this.dryRun == dryRun && this.disk == disk
    {
      this.cache, this.dryRun, this.disk := cache, dryRun, disk;
    }

    /** `dev_read`, behind a cache that agrees with `seen`. */
    method ReadBehind(offset: nat, count: nat, ghost seen: seq<byte>) returns (out: seq<byte>, ghost seen': seq<byte>)
      requires |seen| == |disk| && (cache != null ==> cache.Fits(seen)) && offset + count <= |disk|
      modifies Footprint()
      ensures disk == old(disk) && |seen'| == |disk| && (cache != null ==> cache.Fits(seen') && Mix(seen, disk, seen'))
      ensures cache == null ==> out == disk[offset..offset + count]
      ensures Mix(seen[offset..offset + count], disk[offset..offset + count], out)
      ensures cache != null && old(AllCached(cache.valid[..], cache.blk[..], offset, count)) ==>
                out == seen[offset..offset + count]
    {
      if cache == null {
        out, seen' := disk[offset..offset + count], seen;
      } else {
        out, seen' := cache.Read(disk, offset, count, seen);
      }
    }

    /** `dev_read`: the bytes are those on the device. */
    method Read(offset: nat, count: nat) returns (out: seq<byte>)
      requires Valid() && offset + count <= |disk|
      modifies Footprint()
      ensures Valid() && disk == old(disk) && out == disk[offset..offset + count]
    {
      hide Mix, AllCached;
      ghost var seen';
      out, seen' := ReadBehind(offset, count, disk);
      MixSelf(disk[offset..offset + count], out);
      if cache != null {
        MixSelf(disk, seen');
      }
    }

    /** `dev_write` */
    method Write(offset: nat, data: seq<byte>)
      requires Valid() && offset + |data| <= |disk|
      modifies Footprint()
      ensures Valid() && disk == if dryRun then old(disk) else Replaced(old(disk), offset, data)
    {
      if dryRun {
        return;
      }
      if cache != null {
        cache.Update(data, offset, disk);
      }
      disk := Replaced(disk, offset, data);
    }

    /** `dev_fill`, which writes to the device past its cache, in a dry run too, if the data begin with a zero byte.
        The cache still fits the device if and only if the data are what cached blocks hold in their place. */
    method Fill(offset: nat, data: seq<byte>) returns (ok: bool)
      requires Valid() && 0 < |data| && offset + |data| <= |disk|
      modifies this`disk
      ensures ok <==> data[0] == 0
      ensures disk == if ok then Replaced(old(disk), offset, data) else old(disk)
      ensures Valid() <==> (ok && cache != null ==>
                              KeepsCached(cache.valid[..], cache.blk[..], old(disk), offset, data))
    {
      hide Replaced;
      if data[0] != 0 {
        return false;
      }
      if cache != null {
        StillCoherent(cache.valid[..], cache.blk[..], cache.buf[..], disk, offset, data);
      }
      disk := Replaced(disk, offset, data);
      ok := true;
    }

    /** Any run of reads and writes answers as a device without a cache would. */
    method Run(ops: seq<Op>) returns (answers: seq<seq<byte>>)
      requires Valid() && forall i :: 0 <= i < |ops| ==> InRange(ops[i], |disk|)
      modifies Footprint()
      ensures Valid() && (disk, answers) == Plain(old(disk), dryRun, ops)
    {
      hide Valid, Replaced;
      answers := [];
      var i := 0;
      assert ops[..0] == [];
      while i < |ops|
        invariant 0 <= i <= |ops| && Valid()
        invariant (disk, answers) == Plain(old(disk), dryRun, ops[..i])
      {
        assert ops[..i + 1][..i] == ops[..i];
        match ops[i] {
          case ReadOp(offset, count) =>
            var out := Read(offset, count);
            answers := answers + [out];
          case WriteOp(offset, data) =>
            Write(offset, data);
        }
        i := i + 1;
      }
      assert ops[..i] == ops;
    }
  }

  /** A block of ones is read, its first byte is then filled with zero, and reading that byte still gives one. */
  method FillExample() returns (d: Device, out: seq<byte>)
    ensures out == [1] && |d.disk| == 4096 && d.disk[0] == 0
  {
    hide Coherent, Placed, Unique, Ticked, Block, Replaced, Mix, Renewed;
    var disk: seq<byte> := seq(BLKSIZE, _ => 1);
    var cache := new Cache(MIN_ENTRIES, 1, disk);
    var entry;
    ghost var seen;
    entry, seen := cache.Fetch(0, disk, disk);
    RenewedSame(disk, 0);
    d := new Device(cache, false, disk);
    FirstBlock(cache.valid[..], cache.blk[..], entry);
    var ok := d.Fill(0, [0]);
    out, seen := d.ReadBehind(0, 1, disk);
  }

  lemma RenewedSame(disk: seq<byte>, b: nat)
    requires InDevice(disk, b)
    ensures Renewed(disk, disk, b) == disk
  {
  }

  lemma FirstBlock(valid: seq<bool>, blk: seq<nat>, entry: nat)
    requires Cached(valid, blk, 0, entry)
    ensures AllCached(valid, blk, 0, 1)
  {
    assert IsCached(valid, blk, 0);
  }

  lemma BlockIs(disk: seq<byte>, b: nat)
    requires InDevice(disk, b)
    ensures Block(disk, b) == disk[b * BLKSIZE..EndOf(|disk|, b)]
  {
  }

  lemma HitIsBlock(valid: seq<bool>, blk: seq<nat>, buf: seq<seq<byte>>, disk: seq<byte>, b: nat, r: nat)
    requires Coherent(valid, blk, buf, disk) && r < |valid| && Cached(valid, blk, b, r) && InDevice(disk, b)
    ensures Block(disk, b) <= buf[r]
  {
  }

  lemma ProbeOf(n: nat, shift: seq<nat>, valid: seq<bool>, s: nat, b: nat, k: nat)
    requires 0 < n == |valid| && AtProbe(n, shift, valid, s, b, k)
    ensures k <= |shift| && Probe(n, shift, b, k) == s
  {
  }
}
