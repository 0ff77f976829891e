/** src/jfsclone.c: the pages of the block allocation map and the walk over them. */
module JfsMap {
  import opened WordBitmap

  const LPERCTL: nat := 1024
  const L0FACTOR: nat := 1025
  const L1FACTOR: nat := 1025 * 1024 + 1

  function L1Page(l1: nat): nat {
    2 + l1 * L1FACTOR
  }

  function L0Page(l1: nat, l0: nat): nat {
    L1Page(l1) + 1 + l0 * L0FACTOR
  }

  function DmapPage(l1: nat, l0: nat, d: nat): nat {
    L0Page(l1, l0) + 1 + d
  }

  datatype Kind = Control | Level2 | Level1(l1: nat) | Level0(l1: nat, l0: nat) | Dmap(l1: nat, l0: nat, d: nat)

  /** `decode_pagenum`; page 0, the control page, is given the code of a dmap page. */
  function Decode(page: nat): Kind {
    if page == 0 then Control
    else if page == 1 then Level2
    else
      var l1, r := (page - 2) / L1FACTOR, (page - 2) % L1FACTOR;
      if r == 0 then Level1(l1)
      else
        var l0, s := (r - 1) / L0FACTOR, (r - 1) % L0FACTOR;
        if s == 0 then Level0(l1, l0) else Dmap(l1, l0, s - 1)
  }

  /** The page a kind stands for, and the kinds there are. */
  function Encode(k: Kind): nat {
    match k
    case Control => 0
    case Level2 => 1
    case Level1(l1) => L1Page(l1)
    case Level0(l1, l0) => L0Page(l1, l0)
    case Dmap(l1, l0, d) => DmapPage(l1, l0, d)
  }

  predicate Proper(k: Kind) {
    match k
    case Level0(_, l0) => l0 < LPERCTL
    case Dmap(_, l0, d) => l0 < LPERCTL && d < LPERCTL
    case _ => true
  }

  lemma SplitL1(l1: nat, r: nat)
    requires r < L1FACTOR
    ensures (l1 * L1FACTOR + r) / L1FACTOR == l1 && (l1 * L1FACTOR + r) % L1FACTOR == r
  {
  }

  lemma SplitL0(l0: nat, s: nat)
    requires s < L0FACTOR
    ensures (l0 * L0FACTOR + s) / L0FACTOR == l0 && (l0 * L0FACTOR + s) % L0FACTOR == s
  {
  }

  /** Decoding undoes the page formulas... */
  lemma DecodeEncode(k: Kind)
    requires Proper(k)
    ensures Decode(Encode(k)) == k
  {
    match k
    case Level1(l1) => SplitL1(l1, 0);
    case Level0(l1, l0) =>
      SplitL1(l1, 1 + l0 * L0FACTOR);
      SplitL0(l0, 0);
    case Dmap(l1, l0, d) =>
      SplitL1(l1, 1 + l0 * L0FACTOR + 1 + d);
      SplitL0(l0, 1 + d);
    case _ =>
  }

  /** ...and every page number is one of theirs. */
  lemma EncodeDecode(page: nat)
    ensures Proper(Decode(page)) && Encode(Decode(page)) == page
  {
  }

  /** The first pages: control page, level 2, level 1, level 0 and 1024 dmaps; then the next level 0, and after 1024 of
      those the next level 1. */
  lemma PageExamples()
    ensures Decode(0) == Control && Decode(1) == Level2 && Decode(2) == Level1(0) && Decode(3) == Level0(0, 0)
    ensures Decode(4) == Dmap(0, 0, 0) && Decode(1027) == Dmap(0, 0, 1023) && Decode(1028) == Level0(0, 1)
    ensures Decode(1029) == Dmap(0, 1, 0) && Decode(1049603) == Level1(1) && Decode(1049604) == Level0(1, 0)
  {
  }

  // ----- the order of the dmap pages

  /** The control pages above the `k`-th dmap, and its place below them. */
  function Digits(k: nat): (nat, nat, nat) {
    (k / (LPERCTL * LPERCTL), k / LPERCTL % LPERCTL, k % LPERCTL)
  }

  /** The page of the `k`-th dmap. */
  function NthDmap(k: nat): nat {
    var (l1, l0, d) := Digits(k);
    DmapPage(l1, l0, d)
  }

  lemma Carry(k: nat)
    ensures var (l1, l0, d) := Digits(k);
            && l0 < LPERCTL && d < LPERCTL
            && Digits(k + 1) == if d + 1 < LPERCTL then (l1, l0, d + 1)
                                else if l0 + 1 < LPERCTL then (l1, l0 + 1, 0)
                                else (l1 + 1, 0, 0)
  {
    var m := k / LPERCTL;
    assert k / (LPERCTL * LPERCTL) == m / LPERCTL;
    assert (k + 1) / (LPERCTL * LPERCTL) == (k + 1) / LPERCTL / LPERCTL;
  }

  /** From one dmap page to the next there is nothing but, possibly, control pages. */
  lemma NextDmap(k: nat)
    ensures 0 < NthDmap(k) < NthDmap(k + 1) <= NthDmap(k) + 3
    ensures Decode(NthDmap(k)).Dmap?
    ensures forall p :: NthDmap(k) < p < NthDmap(k + 1) ==> !Decode(p).Dmap? && p != 0
  {
    hide Digits, Decode;
    Carry(k);
    var (l1, l0, d) := Digits(k);
    DecodeEncode(Dmap(l1, l0, d));
    if d + 1 == LPERCTL {
      if l0 + 1 == LPERCTL {
        DecodeEncode(Level1(l1 + 1));
        DecodeEncode(Level0(l1 + 1, 0));
      } else {
        DecodeEncode(Level0(l1, l0 + 1));
      }
    }
  }

  /** Every dmap page is one of them. */
  lemma DmapIndex(l1: nat, l0: nat, d: nat)
    requires l0 < LPERCTL && d < LPERCTL
    ensures NthDmap((l1 * LPERCTL + l0) * LPERCTL + d) == DmapPage(l1, l0, d)
  {
  }

  // ----- the walk

  /** A dmap page: how many blocks it tells about, and their bits. */
  datatype DmapBlock = DmapBlock(nblocks: nat, wmap: seq<bv32>)

  /** The last `n` binary digits of a word, highest first. */
  function Binary(w: bv32, n: nat): (s: seq<bool>)
    ensures |s| == n
  {
    if n == 0 then [] else Binary(w / 2, n - 1) + [w % 2 == 1]
  }

  /** The number that binary digits are written for. */
  function FromDigits(s: seq<bool>): bv32 {
    if s == [] then 0 else 2 * FromDigits(s[..|s| - 1]) + (if s[|s| - 1] then 1 else 0)
  }

  lemma NextPlace(b: bv5)
    requires b != 31
    ensures (b + 1) as int == b as int + 1
  {
  }

  /** A place in a word. */
  function Place(k: nat): (b: bv5)
    requires k < 32
    ensures b as int == k
  {
    if k == 0 then 0 else NextPlace(Place(k - 1)); Place(k - 1) + 1
  }

  predicate Meets(w: bv32, p: bv5) {
    w & ((1 as bv32) << p) != 0
  }

  /** `jfs_bit_inuse` */
  predicate InUse(wmap: seq<bv32>, block: nat)
    requires block < 32 * |wmap|
  {
    Meets(wmap[block / 32], Place(31 - block % 32))
  }

  lemma MeetsHalf(w: bv32, p: bv5)
    ensures Meets(w, 0) <==> w % 2 == 1
    ensures p != 0 ==> (Meets(w, p) <==> Meets(w / 2, p - 1))
  {
  }

  lemma {:induction false} MeetsDigit(w: bv32, n: nat, j: nat)
    requires j < n <= 32
    ensures Meets(w, Place(n - 1 - j)) == Binary(w, n)[j]
    decreases n
  {
    hide Meets;
    MeetsHalf(w, Place(n - 1 - j));
    if j < n - 1 {
      MeetsDigit(w / 2, n - 1, j);
      assert Place(n - 1 - j) == Place(n - 2 - j) + 1;
    }
  }

  /** What the source looks at is the digit of the block: the highest digit of a word is its first block. */
  lemma InUseIsDigit(wmap: seq<bv32>, block: nat)
    requires block < 32 * |wmap|
    ensures InUse(wmap, block) == Binary(wmap[block / 32], 32)[block % 32]
  {
    hide Meets, Binary, Place;
    MeetsDigit(wmap[block / 32], 32, block % 32);
  }

  // Thirty-two digits are all there is.

  function Half(w: bv32): bv32 {
    w / 2
  }

  function Sixteenth(w: bv32): bv32 {
    w / 16
  }

  function Halved(w: bv32, n: nat): bv32 {
    if n == 0 then w else Halved(Half(w), n - 1)
  }

  lemma {:induction false} BinaryBack(w: bv32, n: nat)
    requires Halved(w, n) == 0
    ensures FromDigits(Binary(w, n)) == w
    decreases n
  {
    if 0 < n {
      BinaryBack(w / 2, n - 1);
      assert Binary(w, n)[..n - 1] == Binary(w / 2, n - 1);
      HalfAndRest(w);
    }
  }

  lemma HalfAndRest(w: bv32)
    ensures 2 * (w / 2) + (if w % 2 == 1 then 1 else 0) == w
  {
  }

  lemma Quarter(w: bv32)
    ensures w / 2 / 2 == w / 4
  {
  }

  lemma Eighth(w: bv32)
    ensures w / 4 / 2 == w / 8
  {
  }

  lemma HalfEighth(w: bv32)
    ensures w / 8 / 2 == w / 16
  {
  }

  lemma FourHalves(w: bv32)
    ensures Half(Half(Half(Half(w)))) == Sixteenth(w)
  {
    Quarter(w);
    Eighth(w);
    HalfEighth(w);
  }

  lemma HalvedFour(w: bv32, n: nat)
    requires 4 <= n
    ensures Halved(w, n) == Halved(Sixteenth(w), n - 4)
  {
    hide Half, Sixteenth;
    FourHalves(w);
    assert Halved(w, n) == Halved(Half(w), n - 1) == Halved(Half(Half(w)), n - 2);
    assert Halved(Half(Half(w)), n - 2) == Halved(Half(Half(Half(w))), n - 3);
  }

  lemma NothingLeft(w: bv32)
    ensures Sixteenth(Sixteenth(Sixteenth(Sixteenth(Sixteenth(Sixteenth(Sixteenth(Sixteenth(w)))))))) == 0
  {
  }

  lemma Halved32(w: bv32)
    ensures Halved(w, 32) == 0
  {
    hide Halved, Half, Sixteenth;
    HalvedFour(w, 32);
    var a := Sixteenth(w);
    HalvedFour(a, 28);
    var b := Sixteenth(a);
    HalvedFour(b, 24);
    var c := Sixteenth(b);
    HalvedFour(c, 20);
    var d := Sixteenth(c);
    HalvedFour(d, 16);
    var e := Sixteenth(d);
    HalvedFour(e, 12);
    var f := Sixteenth(e);
    HalvedFour(f, 8);
    var g := Sixteenth(f);
    HalvedFour(g, 4);
    NothingLeft(w);
    HalvedNone(Sixteenth(g));
  }

  lemma HalvedNone(w: bv32)
    ensures Halved(w, 0) == w
  {
  }

  /** The digits of a word are those of its number. */
  lemma BinaryIsNumber(w: bv32)
    ensures FromDigits(Binary(w, 32)) == w
  {
    hide Halved, Binary, FromDigits;
    Halved32(w);
    BinaryBack(w, 32);
  }

  /** Of the word 0x8000_0000 the first block is in use and no other. */
  lemma FirstBlockExample(wmap: seq<bv32>, block: nat)
    requires wmap != [] && wmap[0] == 0x8000_0000 && block < 32
    ensures InUse(wmap, block) <==> block == 0
    ensures Binary(wmap[0], 32)[block] <==> block == 0
  {
    hide Binary;
    InUseIsDigit(wmap, block);
    OnlyHighest(Place(31 - block));
  }

  lemma OnlyHighest(p: bv5)
    ensures Meets(0x8000_0000, p) <==> p == 31
  {
  }

  ghost predicate Usable(pages: nat -> DmapBlock) {
    forall p :: pages(p).nblocks <= 32 * |pages(p).wmap|
  }

  ghost function Bits(b: DmapBlock): (s: seq<bool>)
    requires b.nblocks <= 32 * |b.wmap|
    ensures |s| == b.nblocks && forall i :: 0 <= i < |s| ==> s[i] == Binary(b.wmap[i / 32], 32)[i % 32]
  {
    seq(b.nblocks, i requires 0 <= i < b.nblocks => Binary(b.wmap[i / 32], 32)[i % 32])
  }

  /** What the first `k` dmaps say, one after the other. */
  ghost function MapBits(pages: nat -> DmapBlock, k: nat): seq<bool>
    requires Usable(pages)
  {
    if k == 0 then [] else MapBits(pages, k - 1) + Bits(pages(NthDmap(k - 1)))
  }

  /** The bitmap agrees with what the dmaps say, as far as `tb`. */
  ghost predicate Agrees(flags: seq<bool>, said: seq<bool>, tb: nat) {
    tb <= |flags| && tb <= |said| && forall i :: 0 <= i < tb ==> flags[i] == said[i]
  }

  /** How many blocks the walk has to be told about before it stops: those of the map or, if the map is larger
      than the volume, one more than the volume has. */
  function Wanted(mapsize: nat, total: nat): nat {
    if mapsize <= total then mapsize else total + 1
  }

  // ----- when the walk stops

  /** Where the walk is before a turn of its loop: at a page, with `tb` blocks told about; or it has stopped. */
  datatype Walk = Going(page: nat, tb: nat) | Stopped

  /** One turn. A dmap that completes the map, or tells about a block outside the volume, is the last one. */
  function Turn(pages: nat -> DmapBlock, mapsize: nat, total: nat, page: nat, tb: nat): Walk {
    var kind := Decode(page);
    if kind.Level1? || kind.Level0? || kind.Level2? then Going(page + 1, tb)
    else if Wanted(mapsize, total) <= tb + pages(page).nblocks then Stopped
    else Going(page + 1, tb + pages(page).nblocks)
  }

  /** The walk of `read_bitmap` over the map, from page 4 on, after `n` turns. */
  function After(pages: nat -> DmapBlock, mapsize: nat, total: nat, n: nat): Walk {
    if n == 0 then
      if mapsize == 0 then Stopped else Going(4, 0)
    else
      match After(pages, mapsize, total, n - 1)
      case Stopped => Stopped
      case Going(page, tb) => Turn(pages, mapsize, total, page, tb)
  }

  /** The next dmap is the `k`-th. */
  ghost predicate OnWay(page: nat, k: nat) {
    page != 0 && page <= NthDmap(k) && forall p :: page <= p < NthDmap(k) ==> !Decode(p).Dmap? && p != 0
  }

  /** A turn that goes on leads towards the same dmap or past it... */
  lemma TurnOnWay(pages: nat -> DmapBlock, mapsize: nat, total: nat, page: nat, k: nat) returns (k': nat)
    requires Usable(pages) && OnWay(page, k)
    ensures Turn(pages, mapsize, total, page, |MapBits(pages, k)|) ==
              if page < NthDmap(k) then Going(page + 1, |MapBits(pages, k')|)
              else if Wanted(mapsize, total) <= |MapBits(pages, k')| then Stopped
              else Going(page + 1, |MapBits(pages, k')|)
    ensures OnWay(page + 1, k') && k' == if page < NthDmap(k) then k else k + 1
  {
    hide Decode, NthDmap, Usable, Bits, MapBits;
    NextDmap(k);
    MapBitsStep(pages, k);
    if page < NthDmap(k) {
      k' := k;
    } else {
      k' := k + 1;
    }
    if !Decode(page).Level1? && !Decode(page).Level0? && !Decode(page).Level2? {
      OnlyDmapLeft(page);
    }
  }

  /** ...so the walk is always on the way to a dmap, and has been told what the dmaps before it say; it has stopped
      only if that is enough. */
  lemma {:induction false} WalkAt(pages: nat -> DmapBlock, mapsize: nat, total: nat, n: nat) returns (k: nat)
    requires Usable(pages)
    ensures match After(pages, mapsize, total, n)
            case Going(page, tb) => OnWay(page, k) && tb == |MapBits(pages, k)|
            case Stopped => Wanted(mapsize, total) <= |MapBits(pages, k)|
  {
    hide Decode, NthDmap, Usable, Bits, MapBits, Turn;
    if n == 0 {
      FirstDmap(pages);
      k := 0;
    } else {
      k := WalkAt(pages, mapsize, total, n - 1);
      match After(pages, mapsize, total, n - 1)
      case Stopped =>
      case Going(page, tb) => k := TurnOnWay(pages, mapsize, total, page, k);
    }
  }

  /** It passes every dmap that does not tell enough. */
  lemma {:induction false} Reaches(pages: nat -> DmapBlock, mapsize: nat, total: nat, k: nat) returns (n: nat)
    requires Usable(pages) && |MapBits(pages, k)| < Wanted(mapsize, total)
    ensures After(pages, mapsize, total, n) == Going(NthDmap(k), |MapBits(pages, k)|)
  {
    hide Decode, NthDmap, Usable, Bits, MapBits, Turn;
    FirstDmap(pages);
    if k == 0 {
      n := 0;
    } else {
      MapBitsPrefix(pages, k - 1, k);
      n := Reaches(pages, mapsize, total, k - 1);
      NextDmap(k - 1);
      var k' := TurnOnWay(pages, mapsize, total, NthDmap(k - 1), k - 1);
      n := n + 1;
      var page := NthDmap(k - 1) + 1;
      while page < NthDmap(k)
        invariant OnWay(page, k) && After(pages, mapsize, total, n) == Going(page, |MapBits(pages, k)|)
        decreases NthDmap(k) - page
      {
        k' := TurnOnWay(pages, mapsize, total, page, k);
        page, n := page + 1, n + 1;
      }
    }
  }

  /** The walk stops if and only if some number of dmaps tell about enough blocks. */
  lemma StopsIff(pages: nat -> DmapBlock, mapsize: nat, total: nat)
    requires Usable(pages)
    ensures (exists n: nat :: After(pages, mapsize, total, n).Stopped?) <==>
              exists k: nat :: Wanted(mapsize, total) <= |MapBits(pages, k)|
  {
    hide Decode, NthDmap, Usable, Bits, MapBits, Turn;
    if n: nat :| After(pages, mapsize, total, n).Stopped? {
      var k := WalkAt(pages, mapsize, total, n);
    }
    if k: nat :| Wanted(mapsize, total) <= |MapBits(pages, k)| {
      var n := StopsBy(pages, mapsize, total, k);
    }
  }

  /** With pages that tell about no block the walk never stops. */
  lemma EndlessExample(n: nat)
    ensures After(_ => DmapBlock(0, []), 1, 1, n).Going?
  {
    hide Decode, NthDmap, Turn, MapBits, After;
    var pages: nat -> DmapBlock := _ => DmapBlock(0, []);
    var k := WalkAt(pages, 1, 1, n);
    NothingTold(pages, k);
  }

  lemma {:induction false} NothingTold(pages: nat -> DmapBlock, k: nat)
    requires forall p :: pages(p) == DmapBlock(0, [])
    ensures Usable(pages) && MapBits(pages, k) == []
  {
    hide NthDmap;
    if 0 < k {
      NothingTold(pages, k - 1);
      MapBitsStep(pages, k - 1);
    }
  }

  lemma {:induction false} StopsBy(pages: nat -> DmapBlock, mapsize: nat, total: nat, k: nat) returns (n: nat)
    requires Usable(pages) && Wanted(mapsize, total) <= |MapBits(pages, k)|
    ensures After(pages, mapsize, total, n).Stopped?
  {
    hide Decode, NthDmap, Usable, Bits, MapBits, Turn;
    FirstDmap(pages);
    if k == 0 {
      n := 0;
    } else if Wanted(mapsize, total) <= |MapBits(pages, k - 1)| {
      n := StopsBy(pages, mapsize, total, k - 1);
    } else {
      n := Reaches(pages, mapsize, total, k - 1);
      NextDmap(k - 1);
      var k' := TurnOnWay(pages, mapsize, total, NthDmap(k - 1), k - 1);
      n := n + 1;
    }
  }

  /** The walk over the map, told that the first `enough` dmaps are enough; a block outside the volume ends the
      program (`false`). It takes the turns of `After`. */
  method ReadMap(pages: nat -> DmapBlock, mapsize: nat, bitmap: array<bv64>, total: nat, ghost enough: nat)
    returns (ok: bool, ghost turns: nat)
    requires Usable(pages) && total <= 64 * bitmap.Length && Wanted(mapsize, total) <= |MapBits(pages, enough)|
    modifies bitmap
    ensures ok <==> mapsize <= total
    ensures ok ==> Agrees(Flags(bitmap[..]), MapBits(pages, enough), mapsize)
    ensures forall i :: mapsize <= i < 64 * bitmap.Length ==> Flags(bitmap[..])[i] == old(Flags(bitmap[..]))[i]
    ensures After(pages, mapsize, total, turns).Stopped?
    ensures 0 < turns ==> After(pages, mapsize, total, turns - 1).Going?
  {
    hide Decode, NthDmap, Flags, Usable, Bits, MapBits, Turn, OnWay;
    var tb: nat, lblock: nat := 0, 4;
    ghost var k: nat := 0;
    turns := 0;
    FirstDmap(pages);
    while tb < mapsize
      invariant tb <= mapsize && tb <= total && OnWay(lblock, k)
      invariant tb < mapsize ==> tb == |MapBits(pages, k)|
      invariant Agrees(Flags(bitmap[..]), MapBits(pages, enough), tb)
      invariant forall i :: mapsize <= i < 64 * bitmap.Length ==> Flags(bitmap[..])[i] == old(Flags(bitmap[..]))[i]
      invariant After(pages, mapsize, total, turns) == if tb < mapsize then Going(lblock, tb) else Stopped
      invariant 0 < turns ==> After(pages, mapsize, total, turns - 1).Going?
      decreases enough - k, NthDmap(k) - lblock
    {
      NotYet(pages, k, enough);
      var kind := Decode(lblock);
      ghost var k' := TurnOnWay(pages, mapsize, total, lblock, k);
      turns := turns + 1;
      if kind.Level1? || kind.Level0? || kind.Level2? {
        ControlOnWay(lblock, k);
        lblock := lblock + 1;
        continue;
      }
      OnlyDmapLeft(lblock);
      DmapOnWay(lblock, k);
      MapBitsStep(pages, k);
      MapBitsPrefix(pages, k + 1, enough);
      ok, tb := ReadDmap(pages(lblock), tb, mapsize, bitmap, total, MapBits(pages, k), MapBits(pages, enough));
      if !ok {
        return;
      }
      lblock := lblock + 1;
      k := k + 1;
    }
    ok := true;
  }

  lemma ControlOnWay(page: nat, k: nat)
    requires OnWay(page, k) && !Decode(page).Dmap?
    ensures page < NthDmap(k)
  {
    hide NthDmap, Decode;
    NextDmap(k);
  }

  lemma DmapOnWay(page: nat, k: nat)
    requires OnWay(page, k) && Decode(page).Dmap?
    ensures page == NthDmap(k)
  {
  }

  lemma FirstDmap(pages: nat -> DmapBlock)
    requires Usable(pages)
    ensures NthDmap(0) == 4 && MapBits(pages, 0) == [] && OnWay(4, 0)
  {
  }

  lemma OnlyDmapLeft(page: nat)
    requires page != 0 && !Decode(page).Level1? && !Decode(page).Level0? && !Decode(page).Level2?
    ensures Decode(page).Dmap?
  {
  }

  lemma MapBitsStep(pages: nat -> DmapBlock, k: nat)
    requires Usable(pages)
    ensures pages(NthDmap(k)).nblocks <= 32 * |pages(NthDmap(k)).wmap|
    ensures MapBits(pages, k + 1) == MapBits(pages, k) + Bits(pages(NthDmap(k)))
  {
  }

  /** What more dmaps say begins with what fewer say. */
  lemma {:induction false} MapBitsPrefix(pages: nat -> DmapBlock, k: nat, n: nat)
    requires Usable(pages) && k <= n
    ensures MapBits(pages, k) <= MapBits(pages, n)
  {
    hide NthDmap, Usable;
    if k < n {
      MapBitsPrefix(pages, k, n - 1);
      MapBitsStep(pages, n - 1);
    }
  }

  /** While blocks are missing there are dmaps left. */
  lemma NotYet(pages: nat -> DmapBlock, k: nat, enough: nat)
    requires Usable(pages)
    ensures |MapBits(pages, k)| < |MapBits(pages, enough)| ==> k < enough
  {
    hide NthDmap, Usable, MapBits;
    if enough <= k {
      MapBitsPrefix(pages, enough, k);
    }
  }

  /** The loop over the blocks of one dmap. */
  method ReadDmap(b: DmapBlock, start: nat, mapsize: nat, bitmap: array<bv64>, total: nat,
                  ghost before: seq<bool>, ghost said: seq<bool>)
    returns (ok: bool, tb: nat)
    requires b.nblocks <= 32 * |b.wmap| && start <= total <= 64 * bitmap.Length && start < mapsize
    requires start == |before| && before + Bits(b) <= said && Agrees(Flags(bitmap[..]), said, start)
    modifies bitmap
    ensures !ok <==> total < mapsize && total < start + b.nblocks
    ensures ok ==> tb == if mapsize <= start + b.nblocks then mapsize else start + b.nblocks
    ensures ok ==> Agrees(Flags(bitmap[..]), said, tb)
    ensures forall i :: mapsize <= i < 64 * bitmap.Length ==> Flags(bitmap[..])[i] == old(Flags(bitmap[..]))[i]
  {
    hide InUse, Flags;
    tb := start;
    var pb := 0;
    while pb < b.nblocks && tb < mapsize
      invariant 0 <= pb <= b.nblocks && tb == start + pb <= mapsize && tb <= total
      invariant Agrees(Flags(bitmap[..]), said, tb)
      invariant forall i :: mapsize <= i < 64 * bitmap.Length ==> Flags(bitmap[..])[i] == old(Flags(bitmap[..]))[i]
    {
      if total <= tb {
        return false, tb;
      }
      assert said[tb] == Bits(b)[pb];
      InUseIsDigit(b.wmap, pb);
      if InUse(b.wmap, pb) {
        SetBit(tb, bitmap);
      } else {
        ClearBit(tb, bitmap);
      }
      tb := tb + 1;
      pb := pb + 1;
    }
    ok := true;
  }

  /** `read_bitmap`: as far as the map goes the bitmap is what the dmaps say; everything behind it,
      the log included, is kept. */
  method ReadBitmap(pages: nat -> DmapBlock, mapsize: nat, logloc: nat, logsize: nat, bitmap: array<bv64>, total: nat,
                    ghost enough: nat)
    returns (ok: bool)
    requires Usable(pages) && total <= 64 * bitmap.Length && Wanted(mapsize, total) <= |MapBits(pages, enough)|
    modifies bitmap
    ensures ok <==> mapsize <= total
    ensures ok ==> Agrees(Flags(bitmap[..]), MapBits(pages, enough), mapsize)
    ensures ok ==> forall i :: mapsize <= i < total ==> Flags(bitmap[..])[i]
  {
    hide Flags, Usable, MapBits, Agrees;
    SetAll(bitmap);
    ghost var turns;
    ok, turns := ReadMap(pages, mapsize, bitmap, total, enough);
    if !ok {
      return;
    }
    ghost var said := MapBits(pages, enough);
    var tb := mapsize;
    while tb < total
      invariant mapsize <= tb <= total && Agrees(Flags(bitmap[..]), said, mapsize)
      invariant forall i :: mapsize <= i < 64 * bitmap.Length ==> Flags(bitmap[..])[i]
    {
      if logloc <= tb < logloc + logsize {
        AgreesBehind(Flags(bitmap[..]), said, mapsize, tb);
        SetBit(tb, bitmap);
      }
      tb := tb + 1;
    }
  }

  lemma AgreesBehind(flags: seq<bool>, said: seq<bool>, n: nat, i: nat)
    requires Agrees(flags, said, n) && n <= i < |flags|
    ensures Agrees(flags[i := true], said, n)
  {
  }
}
