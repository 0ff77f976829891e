/** src/fatclone.c: the used sectors of a FAT volume. */
module FatWalk {
  import opened Arithmetic
  import opened WordBitmap

  type Byte = x: nat | x < 256 witness 0

  datatype FatType = Fat12 | Fat16 | Fat32

  const MAX_CLUSTERS: nat := 0x0FFFFFF6

  /** What the boot sector says about the volume. */
  datatype Geometry = Geometry(sectorSize: nat, clusterSize: nat, reserved: nat, fats: nat, dirEntries: nat,
                               secPerFat: nat, total: nat) {
    ghost predicate Valid() {
      0 < sectorSize && 0 < clusterSize
    }

    /** `get_root_sec` */
    function RootSec(): (n: nat)
      requires Valid()
      ensures dirEntries * 32 <= n * sectorSize < dirEntries * 32 + sectorSize
    {
      (dirEntries * 32 + sectorSize - 1) / sectorSize
    }

    /** The sectors before the first cluster. */
    function Meta(): nat
      requires Valid()
    {
      reserved + fats * secPerFat + RootSec()
    }

    /** `get_cluster_count` */
    function ClusterCount(): nat
      requires Valid()
    {
      if total < Meta() then 0 else (total - Meta()) / clusterSize
    }
  }

  /** All clusters lie inside the volume, and one more would not. */
  lemma ClustersFit(g: Geometry)
    requires g.Valid() && g.Meta() <= g.total
    ensures g.Meta() + g.ClusterCount() * g.clusterSize <= g.total < g.Meta() + (g.ClusterCount() + 1) * g.clusterSize
  {
  }

  // ----- the entries of the FAT

  function Le2(a: nat, b: nat): nat {
    a + 256 * b
  }

  function Le3(a: nat, b: nat, c: nat): nat {
    Le2(a, b) + 65536 * c
  }

  function Le4(a: nat, b: nat, c: nat, d: nat): nat {
    Le3(a, b, c) + 16777216 * d
  }

  /** Two 12-bit entries share three bytes. */
  ghost function Entry12(fat: seq<Byte>, n: nat): nat
    requires 3 * (n / 2) + 3 <= |fat|
  {
    var g := 3 * (n / 2);
    var v := Le3(fat[g], fat[g + 1], fat[g + 2]);
    if n % 2 == 0 then v % 4096 else v / 4096
  }

  lemma LowEntry(a: nat, b: nat, c: nat)
    requires a < 256 && b < 256 && c < 256
    ensures Le3(a, b, c) % 4096 == Le2(a, b) % 4096 && Le2(a, b) / 4096 == b / 16
  {
  }

  lemma HighEntry(a: nat, b: nat, c: nat)
    requires a < 256 && b < 256 && c < 256
    ensures Le3(a, b, c) / 4096 == c * 16 + b / 16
  {
  }

  ghost function Entry16(fat: seq<Byte>, n: nat): nat
    requires 2 * n + 2 <= |fat|
  {
    Le2(fat[2 * n], fat[2 * n + 1])
  }

  ghost function Entry32(fat: seq<Byte>, n: nat): nat
    requires 4 * n + 4 <= |fat|
  {
    Le4(fat[4 * n], fat[4 * n + 1], fat[4 * n + 2], fat[4 * n + 3])
  }

  /** The FAT holds `count` entries. */
  predicate Holds(t: FatType, fat: seq<Byte>, count: nat) {
    match t
    case Fat12 => 3 * ((count + 1) / 2) <= |fat|
    case Fat16 => 2 * count <= |fat|
    case Fat32 => 4 * count <= |fat|
  }

  ghost function Entry(t: FatType, fat: seq<Byte>, n: nat): nat
    requires Holds(t, fat, n + 1)
  {
    match t
    case Fat12 => Entry12(fat, n)
    case Fat16 => Entry16(fat, n)
    case Fat32 => Entry32(fat, n)
  }

  const NO_NIBBLE: nat := 0xFF

  /** The open device, from the beginning of the FAT on. */
  class Reader {
    const t: FatType
    const fat: seq<Byte>
    var pos: nat
    var nibble: nat

    constructor (t: FatType, fat: seq<Byte>)
      ensures this.t == t && this.fat == fat && At(0)
    {
      this.t, this.fat := t, fat;
      pos, nibble := 0, NO_NIBBLE;
    }

    /** The next entry to be read is the `n`-th. */
    ghost predicate At(n: nat)
      reads this
    {
      match t
      case Fat12 =>
        if n % 2 == 0 then pos == 3 * (n / 2) && nibble == NO_NIBBLE
        else pos == 3 * (n / 2) + 2 && pos <= |fat| && nibble == fat[pos - 1] / 16
      case Fat16 => pos == 2 * n
      case Fat32 => pos == 4 * n
    }

    /** `read12` */
    method Read12(ghost n: nat) returns (out: nat)
      requires t == Fat12 && At(n) && Holds(t, fat, n + 1)
      modifies this`pos, this`nibble
      ensures At(n + 1) && out == Entry12(fat, n)
    {
      hide Le2, Le3;
      ghost var g := 3 * (n / 2);
      LowEntry(fat[g], fat[g + 1], fat[g + 2]);
      HighEntry(fat[g], fat[g + 1], fat[g + 2]);
      if nibble == NO_NIBBLE {
        var buffer := Le2(fat[pos], fat[pos + 1]);
        pos := pos + 2;
        nibble := buffer / 4096;
        out := buffer % 4096;
      } else {
        var buffer: nat := fat[pos];
        pos := pos + 1;
        out := buffer * 16 + nibble;
        nibble := NO_NIBBLE;
      }
    }

    method Read(ghost n: nat) returns (out: nat)
      requires At(n) && Holds(t, fat, n + 1)
      modifies this`pos, this`nibble
      ensures At(n + 1) && out == Entry(t, fat, n)
    {
      match t {
        case Fat12 => out := Read12(n);
        case Fat16 =>
          out := Le2(fat[pos], fat[pos + 1]);
          pos := pos + 2;
        case Fat32 =>
          out := Le4(fat[pos], fat[pos + 1], fat[pos + 2], fat[pos + 3]);
          pos := pos + 4;
      }
    }
  }

  /** The mark of a bad cluster. */
  function Bad(t: FatType): nat {
    match t
    case Fat12 => 0xFF7
    case Fat16 => 0xFFF7
    case Fat32 => 0x0FFFFFF7
  }

  /** A cluster is copied unless it is free or bad. */
  predicate Kept(t: FatType, entry: nat) {
    entry != Bad(t) && entry != 0
  }

  /** `check_fat_status`: the second entry says that the volume was unmounted cleanly and without errors. */
  predicate Clean(t: FatType, status: nat) {
    match t
    case Fat12 => true
    case Fat16 => status / 0x8000 % 2 == 1 && status / 0x4000 % 2 == 1
    case Fat32 => status / 0x800_0000 % 2 == 1 && status / 0x400_0000 % 2 == 1
  }

  // ----- the same in the bytes of the FAT

  function LowPacked(a: nat, b: nat): nat {
    a + 256 * (b % 16)
  }

  function HighPacked(b: nat, c: nat): nat {
    b / 16 + 16 * c
  }

  /** The FAT neither has zero nor the mark of a bad cluster in entry `n`. */
  predicate InUse(t: FatType, fat: seq<Byte>, n: nat)
    requires Holds(t, fat, n + 1)
  {
    match t
    case Fat12 =>
      var g := 3 * (n / 2);
      var number := if n % 2 == 0 then LowPacked(fat[g], fat[g + 1]) else HighPacked(fat[g + 1], fat[g + 2]);
      number != 0 && number != 0xFF7
    case Fat16 => fat[2 * n..2 * n + 2] != [0, 0] && fat[2 * n..2 * n + 2] != [0xF7, 0xFF]
    case Fat32 => fat[4 * n..4 * n + 4] != [0, 0, 0, 0] && fat[4 * n..4 * n + 4] != [0xF7, 0xFF, 0xFF, 0x0F]
  }

  lemma PackedNumber(a: nat, b: nat, c: nat)
    requires a < 256 && b < 256 && c < 256
    ensures Le3(a, b, c) % 4096 == a + 256 * (b % 16) && Le3(a, b, c) / 4096 == b / 16 + 16 * c
  {
  }

  lemma TwoBytes(s: seq<Byte>, a: nat, b: nat)
    requires |s| == 2 && a < 256 && b < 256
    ensures Le2(s[0], s[1]) == a + 256 * b <==> s == [a, b]
  {
  }

  lemma FourBytes(s: seq<Byte>, a: nat, b: nat, c: nat, d: nat)
    requires |s| == 4 && a < 256 && b < 256 && c < 256 && d < 256
    ensures Le4(s[0], s[1], s[2], s[3]) == a + 256 * b + 65536 * c + 16777216 * d <==> s == [a, b, c, d]
  {
  }

  /** The source keeps exactly the clusters whose bytes say so. */
  lemma KeptIff(t: FatType, fat: seq<Byte>, n: nat)
    requires Holds(t, fat, n + 1)
    ensures Kept(t, Entry(t, fat, n)) <==> InUse(t, fat, n)
  {
    hide Le2, Le3, Le4;
    match t
    case Fat12 =>
      var g := 3 * (n / 2);
      PackedNumber(fat[g], fat[g + 1], fat[g + 2]);
    case Fat16 =>
      TwoBytes(fat[2 * n..2 * n + 2], 0, 0);
      TwoBytes(fat[2 * n..2 * n + 2], 0xF7, 0xFF);
    case Fat32 =>
      FourBytes(fat[4 * n..4 * n + 4], 0, 0, 0, 0);
      FourBytes(fat[4 * n..4 * n + 4], 0xF7, 0xFF, 0xFF, 0x0F);
  }

  /** The two highest bits of entry 1, of sixteen or of twenty-eight, are set; FAT12 has no such bits. */
  predicate CleanVolume(t: FatType, fat: seq<Byte>)
    requires Holds(t, fat, 2)
  {
    match t
    case Fat12 => true
    case Fat16 => 0xC0 <= fat[3]
    case Fat32 => 0x0C <= fat[7] % 16
  }

  lemma CleanIff(t: FatType, fat: seq<Byte>)
    requires Holds(t, fat, 2)
    ensures Clean(t, Entry(t, fat, 1)) <==> CleanVolume(t, fat)
  {
    match t
    case Fat12 =>
    case Fat16 => HighBits16(fat[2], fat[3]);
    case Fat32 => HighBits32(fat[4], fat[5], fat[6], fat[7]);
  }

  lemma HighBits16(a: nat, b: nat)
    requires a < 256 && b < 256
    ensures Le2(a, b) / 0x8000 % 2 == 1 && Le2(a, b) / 0x4000 % 2 == 1 <==> 0xC0 <= b
  {
    DivUnique(Le2(a, b), 0x4000, b / 0x40, b % 0x40 * 256 + a);
    DivUnique(Le2(a, b), 0x8000, b / 0x80, b % 0x80 * 256 + a);
  }

  lemma HighBits32(a: nat, b: nat, c: nat, d: nat)
    requires a < 256 && b < 256 && c < 256 && d < 256
    ensures Le4(a, b, c, d) / 0x800_0000 % 2 == 1 && Le4(a, b, c, d) / 0x400_0000 % 2 == 1 <==> 0x0C <= d % 16
  {
    hide Le3;
    ThreeBytes(a, b, c);
    OverFour(Le3(a, b, c), d);
    OverEight(Le3(a, b, c), d);
    TwoBits(d);
  }

  lemma ThreeBytes(a: nat, b: nat, c: nat)
    requires a < 256 && b < 256 && c < 256
    ensures Le3(a, b, c) < 16777216
  {
  }

  lemma OverFour(low: nat, d: nat)
    requires low < 16777216
    ensures (low + 16777216 * d) / 0x400_0000 == d / 4
  {
    DivUnique(low + 16777216 * d, 0x400_0000, d / 4, d % 4 * 16777216 + low);
  }

  lemma OverEight(low: nat, d: nat)
    requires low < 16777216
    ensures (low + 16777216 * d) / 0x800_0000 == d / 8
  {
    DivUnique(low + 16777216 * d, 0x800_0000, d / 8, d % 8 * 16777216 + low);
  }

  lemma TwoBits(d: nat)
    ensures d / 8 % 2 == 1 && d / 4 % 2 == 1 <==> 0x0C <= d % 16
  {
    var q, r := d / 16, d % 16;
    DivUnique(d, 4, 4 * q + r / 4, r % 4);
    DivUnique(d, 8, 2 * q + r / 8, r % 8);
  }

  /** A sector is used unless it belongs to a cluster that is not in use; the first cluster has entry 2. */
  ghost predicate SectorUsed(g: Geometry, t: FatType, fat: seq<Byte>, s: nat)
    requires g.Valid() && Holds(t, fat, g.ClusterCount() + 2)
  {
    g.Meta() <= s < g.Meta() + g.ClusterCount() * g.clusterSize ==>
      && 0 <= (s - g.Meta()) / g.clusterSize < g.ClusterCount()
      && Holds(t, fat, (s - g.Meta()) / g.clusterSize + 3)
      && InUse(t, fat, (s - g.Meta()) / g.clusterSize + 2)
  }

  // ----- the bitmap

  ghost function Same(n: nat, value: bool): (s: seq<bool>)
    ensures |s| == n && forall i :: 0 <= i < n ==> s[i] == value
  {
    seq(n, _ => value)
  }

  /** The sectors before the clusters, and then those of the first `k` clusters; cluster 0 has entry 2. */
  ghost function Marks(g: Geometry, t: FatType, fat: seq<Byte>, k: nat): (s: seq<bool>)
    requires g.Valid() && Holds(t, fat, k + 2)
  {
    if k == 0 then Same(g.Meta(), true)
    else Marks(g, t, fat, k - 1) + Same(g.clusterSize, Kept(t, Entry(t, fat, k + 1)))
  }

  lemma MarksStep(g: Geometry, t: FatType, fat: seq<Byte>, k: nat)
    requires g.Valid() && Holds(t, fat, k + 3)
    ensures Holds(t, fat, k + 2)
    ensures Marks(g, t, fat, k + 1) == Marks(g, t, fat, k) + Same(g.clusterSize, Kept(t, Entry(t, fat, k + 2)))
  {
  }

  lemma MarksStart(g: Geometry, t: FatType, fat: seq<Byte>)
    requires g.Valid() && Holds(t, fat, 2)
    ensures Marks(g, t, fat, 0) == Same(g.Meta(), true)
  {
  }

  lemma {:induction false} MarksLength(g: Geometry, t: FatType, fat: seq<Byte>, k: nat)
    requires g.Valid() && Holds(t, fat, k + 2)
    ensures |Marks(g, t, fat, k)| == g.Meta() + k * g.clusterSize
  {
    hide Geometry.Meta, Marks, Entry, Kept;
    if k == 0 {
      MarksStart(g, t, fat);
    } else {
      MarksLength(g, t, fat, k - 1);
      MarksStep(g, t, fat, k - 1);
      MulStep(k - 1, g.clusterSize);
    }
  }

  /** Which sectors are used; those that do not make a whole cluster are. */
  ghost function Used(g: Geometry, t: FatType, fat: seq<Byte>): (s: seq<bool>)
    requires g.Valid() && g.Meta() <= g.total && Holds(t, fat, g.ClusterCount() + 2)
    ensures |s| == g.total
  {
    var k := g.ClusterCount();
    MarksLength(g, t, fat, k);
    ClustersFit(g);
    var s := Marks(g, t, fat, k);
    s + Same(g.total - |s|, true)
  }

  lemma {:induction false} MarksAt(g: Geometry, t: FatType, fat: seq<Byte>, k: nat, s: nat)
    requires g.Valid() && Holds(t, fat, k + 2) && s < g.Meta() + k * g.clusterSize
    ensures s < |Marks(g, t, fat, k)|
    ensures s < g.Meta() ==> Marks(g, t, fat, k)[s]
    ensures g.Meta() <= s ==>
              && 0 <= (s - g.Meta()) / g.clusterSize < k && Holds(t, fat, (s - g.Meta()) / g.clusterSize + 3)
              && Marks(g, t, fat, k)[s] == Kept(t, Entry(t, fat, (s - g.Meta()) / g.clusterSize + 2))
  {
    hide Geometry.Meta, Marks, Entry, Kept;
    MarksLength(g, t, fat, k);
    if k == 0 {
      MarksStart(g, t, fat);
    } else {
      MarksLength(g, t, fat, k - 1);
      MarksStep(g, t, fat, k - 1);
      MulStep(k - 1, g.clusterSize);
      MulMonotone(0, k - 1, g.clusterSize);
      if s < g.Meta() + (k - 1) * g.clusterSize {
        MarksAt(g, t, fat, k - 1, s);
      } else {
        ClusterOf(s - g.Meta(), g.clusterSize, k - 1);
      }
    }
  }

  lemma ClusterOf(x: nat, size: nat, k: nat)
    requires 0 < size && k * size <= x < k * size + size
    ensures x / size == k
  {
    DivUnique(x, size, k, x - k * size);
  }

  /** The bitmap, sector by sector. */
  lemma UsedSector(g: Geometry, t: FatType, fat: seq<Byte>, s: nat)
    requires g.Valid() && g.Meta() <= g.total && Holds(t, fat, g.ClusterCount() + 2) && s < g.total
    ensures Used(g, t, fat)[s] <==> SectorUsed(g, t, fat, s)
  {
    hide Geometry.Meta, Geometry.ClusterCount, Marks, Entry, Kept, InUse;
    var k := g.ClusterCount();
    MarksLength(g, t, fat, k);
    ClustersFit(g);
    if s < g.Meta() + k * g.clusterSize {
      MarksAt(g, t, fat, k, s);
      if g.Meta() <= s {
        KeptIff(t, fat, (s - g.Meta()) / g.clusterSize + 2);
      }
    }
  }

  // ----- the walks

  /** The bitmap says what is expected, as far as that goes; the sectors behind it are marked. */
  ghost predicate Marked(flags: seq<bool>, total: nat, expected: seq<bool>) {
    && |expected| <= total <= |flags|
    && (forall i :: 0 <= i < |expected| ==> flags[i] == expected[i])
    && (forall i :: |expected| <= i < total ==> flags[i])
  }

  lemma MarkedMore(flags: seq<bool>, total: nat, expected: seq<bool>, value: bool)
    requires Marked(flags, total, expected) && |expected| < total
    ensures Marked(flags[|expected| := value], total, expected + [value])
  {
  }

  /** Sets or clears `n` sectors; one outside the volume ends the program (`false`). */
  method MarkRun(bitmap: array<bv64>, start: nat, n: nat, total: nat, value: bool, ghost expected: seq<bool>)
    returns (ok: bool, block: nat)
    requires total <= 64 * bitmap.Length && start == |expected| <= total
    requires Marked(Flags(bitmap[..]), total, expected)
    modifies bitmap
    ensures ok <==> start + n <= total
    ensures ok ==> block == start + n && Marked(Flags(bitmap[..]), total, expected + Same(n, value))
  {
    hide Flags, Marked;
    ok, block := true, start;
    var i := 0;
    assert expected + Same(0, value) == expected;
    while i < n
      invariant 0 <= i <= n && block == start + i <= total
      invariant Marked(Flags(bitmap[..]), total, expected + Same(i, value))
    {
      if total <= block {
        return false, block;
      }
      MarkedMore(Flags(bitmap[..]), total, expected + Same(i, value), value);
      if value {
        SetBit(block, bitmap);
      } else {
        ClearBit(block, bitmap);
      }
      assert expected + Same(i, value) + [value] == expected + Same(i + 1, value);
      i, block := i + 1, block + 1;
    }
  }

  /** `mark_reserved_sectors` */
  method MarkReserved(g: Geometry, bitmap: array<bv64>) returns (ok: bool, block: nat)
    requires g.Valid() && g.total <= 64 * bitmap.Length
    requires Marked(Flags(bitmap[..]), g.total, [])
    modifies bitmap
    ensures ok <==> g.Meta() <= g.total
    ensures ok ==> block == g.Meta() && Marked(Flags(bitmap[..]), g.total, Same(g.Meta(), true))
  {
    hide Flags, Marked, Geometry.RootSec;
    assert [] + Same(g.reserved, true) == Same(g.reserved, true);
    MulMonotone(0, g.fats, g.secPerFat);
    ok, block := MarkRun(bitmap, 0, g.reserved, g.total, true, []);
    if !ok {
      return;
    }
    var j := 0;
    while j < g.fats
      invariant 0 <= j <= g.fats && block == g.reserved + j * g.secPerFat <= g.total
      invariant Marked(Flags(bitmap[..]), g.total, Same(block, true))
    {
      MulStep(j, g.secPerFat);
      MulMonotone(j + 1, g.fats, g.secPerFat);
      SameMore(block, g.secPerFat);
      ok, block := MarkRun(bitmap, block, g.secPerFat, g.total, true, Same(block, true));
      if !ok {
        return;
      }
      j := j + 1;
    }
    SameMore(block, g.RootSec());
    ok, block := MarkRun(bitmap, block, g.RootSec(), g.total, true, Same(block, true));
  }

  lemma SameMore(m: nat, n: nat)
    ensures Same(m, true) + Same(n, true) == Same(m + n, true)
  {
  }

  /** The loop over the clusters, with `check_fat12_entry` and its like. */
  method WalkClusters(g: Geometry, r: Reader, bitmap: array<bv64>, start: nat) returns (block: nat)
    requires g.Valid() && g.Meta() <= g.total <= 64 * bitmap.Length && start == g.Meta()
    requires r.At(2) && Holds(r.t, r.fat, g.ClusterCount() + 2)
    requires Marked(Flags(bitmap[..]), g.total, Same(g.Meta(), true))
    modifies bitmap, r`pos, r`nibble
    ensures block <= g.total && Marked(Flags(bitmap[..]), g.total, Marks(g, r.t, r.fat, g.ClusterCount()))
    ensures block == |Marks(g, r.t, r.fat, g.ClusterCount())|
  {
    hide Flags, Marked, Marks, Entry, Kept, Geometry.Meta, Geometry.ClusterCount, Reader.At;
    block := start;
    var n := g.ClusterCount();
    var i := 0;
    ClustersFit(g);
    HoldsLess(r.t, r.fat, n + 2, 2);
    MarksStart(g, r.t, r.fat);
    while i < n
      invariant 0 <= i <= n && r.At(i + 2) && Holds(r.t, r.fat, i + 2)
      invariant block == |Marks(g, r.t, r.fat, i)| && Marked(Flags(bitmap[..]), g.total, Marks(g, r.t, r.fat, i))
    {
      HoldsLess(r.t, r.fat, n + 2, i + 3);
      MarksStep(g, r.t, r.fat, i);
      MarksLength(g, r.t, r.fat, i + 1);
      MulMonotone(i + 1, n, g.clusterSize);
      var entry := r.Read(i + 2);
      var ok;
      ok, block := MarkRun(bitmap, block, g.clusterSize, g.total, Kept(r.t, entry), Marks(g, r.t, r.fat, i));
      i := i + 1;
    }
    MarksLength(g, r.t, r.fat, n);
  }

  lemma HoldsLess(t: FatType, fat: seq<Byte>, m: nat, n: nat)
    requires Holds(t, fat, m) && n <= m
    ensures Holds(t, fat, n)
  {
  }

  /** Everything up to the clusters, the first two entries of the FAT included. */
  method Begin(g: Geometry, t: FatType, fat: seq<Byte>, bitmap: array<bv64>, ignoreCheck: bool)
    returns (ok: bool, block: nat, r: Reader)
    requires g.Valid() && g.total <= 64 * bitmap.Length && (g.Meta() <= g.total ==> Holds(t, fat, 2))
    modifies bitmap
    ensures fresh(r) && r.t == t && r.fat == fat
    ensures ok <==> g.Meta() <= g.total && (ignoreCheck || CleanVolume(t, fat))
    ensures ok ==> r.At(2) && block == g.Meta() && Marked(Flags(bitmap[..]), g.total, Same(g.Meta(), true))
  {
    hide Geometry.Meta, Clean, CleanVolume;
    SetAll(bitmap);
    r := new Reader(t, fat);
    ok, block := MarkReserved(g, bitmap);
    if !ok {
      return;
    }
    HoldsLess(t, fat, 2, 1);
    var media := r.Read(0);
    var status := r.Read(1);
    CleanIff(t, fat);
    ok := ignoreCheck || Clean(t, status);
  }

  /** `read_bitmap`: it is refused exactly for too many clusters, metadata that do not fit the volume or, unless
      the check is ignored, a volume that is not clean; otherwise the bitmap is that of the used sectors. */
  method ReadBitmap(g: Geometry, t: FatType, fat: seq<Byte>, bitmap: array<bv64>, ignoreCheck: bool)
    returns (ok: bool)
    requires g.Valid() && g.total <= 64 * bitmap.Length
    requires g.Meta() <= g.total ==> Holds(t, fat, g.ClusterCount() + 2)
    modifies bitmap
    ensures ok <==> && g.ClusterCount() <= 0x0FFFFFF6 && g.Meta() <= g.total
                    && (ignoreCheck || CleanVolume(t, fat))
    ensures ok ==> forall s: nat :: s < g.total ==> (Flags(bitmap[..])[s] <==> SectorUsed(g, t, fat, s))
  {
    hide Flags, Marks, Geometry.Meta, Geometry.ClusterCount, CleanVolume, SectorUsed, Used;
    if MAX_CLUSTERS < g.ClusterCount() {
      return false;
    }
    if g.Meta() <= g.total {
      HoldsLess(t, fat, g.ClusterCount() + 2, 2);
    }
    var block, r;
    ok, block, r := Begin(g, t, fat, bitmap, ignoreCheck);
    if !ok {
      return;
    }
    block := WalkClusters(g, r, bitmap, block);
    MarkedIsUsed(g, t, fat, Flags(bitmap[..]));
    forall s: nat | s < g.total
      ensures Flags(bitmap[..])[s] <==> SectorUsed(g, t, fat, s)
    {
      UsedSector(g, t, fat, s);
      assert Flags(bitmap[..])[..g.total][s] == Flags(bitmap[..])[s];
    }
  }

  lemma MarkedIsUsed(g: Geometry, t: FatType, fat: seq<Byte>, flags: seq<bool>)
    requires g.Valid() && g.Meta() <= g.total && Holds(t, fat, g.ClusterCount() + 2)
    requires Marked(flags, g.total, Marks(g, t, fat, g.ClusterCount()))
    ensures flags[..g.total] == Used(g, t, fat)
  {
    hide Marks, Geometry.Meta, Geometry.ClusterCount;
  }

  ghost function Count(s: seq<bool>): nat {
    if s == [] then 0 else Count(s[..|s| - 1]) + if s[|s| - 1] then 1 else 0
  }

  /** `get_used_block`: as many blocks as `read_bitmap` marks; here the check is never ignored. */
  method GetUsedBlock(g: Geometry, t: FatType, fat: seq<Byte>) returns (ok: bool, n: nat)
    requires g.Valid() && (g.Meta() <= g.total ==> Holds(t, fat, g.ClusterCount() + 2))
    ensures ok <==> g.Meta() <= g.total && CleanVolume(t, fat)
    ensures ok ==> n == |set s: nat | s < g.total && SectorUsed(g, t, fat, s)|
  {
    hide Flags, Marks, Geometry.Meta, Geometry.ClusterCount, Marked, Used, CleanVolume, SectorUsed;
    var bitmap := new bv64[(g.total + 63) / 64];
    if g.Meta() <= g.total {
      HoldsLess(t, fat, g.ClusterCount() + 2, 2);
    }
    var block, r;
    ok, block, r := Begin(g, t, fat, bitmap, false);
    if !ok {
      return false, 0;
    }
    block := WalkClusters(g, r, bitmap, block);
    ghost var marks := Marks(g, t, fat, g.ClusterCount());
    while block < g.total
      invariant block <= g.total && Marked(Flags(bitmap[..]), g.total, marks) && |marks| <= block
    {
      MarkedAgain(Flags(bitmap[..]), g.total, marks, block);
      SetBit(block, bitmap);
      block := block + 1;
    }
    MarkedIsUsed(g, t, fat, Flags(bitmap[..]));
    n := CountBits(bitmap, g.total);
    ghost var used := Used(g, t, fat);
    CountIsSet(used);
    forall s: nat | s < g.total
      ensures used[s] <==> SectorUsed(g, t, fat, s)
    {
      UsedSector(g, t, fat, s);
    }
    assert (set s: nat | s < |used| && used[s]) == set s: nat | s < g.total && SectorUsed(g, t, fat, s);
  }

  lemma SetMore(s: seq<bool>, t: seq<bool>, all: set<nat>, few: set<nat>)
    requires s != [] && t == s[..|s| - 1]
    requires all == (set i: nat | i < |s| && s[i]) && few == (set i: nat | i < |t| && t[i])
    ensures |all| == |few| + (if s[|s| - 1] then 1 else 0)
  {
    var n := |s| - 1;
    assert all == few + (if s[n] then {n} else {});
    assert n !in few;
  }

  lemma {:induction false} CountIsSet(s: seq<bool>)
    ensures Count(s) == |set i: nat | i < |s| && s[i]|
  {
    var all := set i: nat | i < |s| && s[i];
    if s == [] {
      assert all == {};
    } else {
      var n := |s| - 1;
      var t := s[..n];
      CountIsSet(t);
      var few := set i: nat | i < |t| && t[i];
      SetMore(s, t, all, few);
    }
  }

  lemma MarkedAgain(flags: seq<bool>, total: nat, expected: seq<bool>, block: nat)
    requires Marked(flags, total, expected) && |expected| <= block < total
    ensures Marked(flags[block := true], total, expected)
  {
  }

  method CountBits(bitmap: array<bv64>, total: nat) returns (n: nat)
    requires total <= 64 * bitmap.Length
    ensures n == Count(Flags(bitmap[..])[..total])
  {
    hide Bit;
    ghost var flags := Flags(bitmap[..]);
    n := 0;
    var block := 0;
    while block < total
      invariant 0 <= block <= total && n == Count(flags[..block])
    {
      assert flags[..block + 1][..block] == flags[..block];
      if Bit(bitmap[block / 64], block % 64) {
        n := n + 1;
      }
      block := block + 1;
    }
  }
}
