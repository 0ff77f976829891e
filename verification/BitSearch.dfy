/** src/f2fs/libf2fs.c: searching a bitmap byte by byte. */
module BitSearch {
  import opened Arithmetic

  function Mask(k: nat): bv8
    requires k < 8
  {
    (1 as bv8) << k
  }

  predicate Bit(w: bv8, k: nat)
    requires k < 8
  {
    w & Mask(k) != 0
  }

  /** `test_bit_le` */
  predicate TestBit(bitmap: seq<bv8>, i: nat)
    requires i < 8 * |bitmap|
  {
    Bit(bitmap[i / 8], i % 8)
  }

  lemma Masks()
    ensures Mask(0) == 1 && Mask(1) == 2 && Mask(2) == 4 && Mask(3) == 8
    ensures Mask(4) == 16 && Mask(5) == 32 && Mask(6) == 64 && Mask(7) == 128
  {
  }

  lemma HalfByte(w: bv8, k: nat)
    requires k < 8
    ensures (w >> 1) as nat == w as nat / 2
    ensures Bit(w, k) <==> if k == 0 then w as nat % 2 == 1 else Bit(w >> 1, k - 1)
  {
    Masks();
  }

  /** A bit of a byte is that binary digit of its number. */
  lemma {:induction false} BitIsDigit(w: bv8, k: nat)
    requires k < 8
    ensures Bit(w, k) <==> Digit(w as nat, k)
    decreases k
  {
    hide Bit;
    HalfByte(w, k);
    if 0 < k {
      BitIsDigit(w >> 1, k - 1);
    }
  }

  /** `__ffs` */
  function Ffs(word: bv8): (n: nat)
    ensures n < 8
  {
    var (a, n) := if word & 0xf == 0 then (word >> 4, 4) else (word, 0);
    var (b, m) := if a & 0x3 == 0 then (a >> 2, n + 2) else (a, n);
    if b & 0x1 == 0 then m + 1 else m
  }

  lemma FfsIsFirst(w: bv8)
    requires w != 0
    ensures Bit(w, Ffs(w)) && forall j :: 0 <= j < Ffs(w) ==> !Bit(w, j)
  {
    Masks();
  }

  lemma Inverted(w: bv8, k: nat)
    requires k < 8
    ensures Bit(w ^ 0xff, k) <==> !Bit(w, k)
  {
    Masks();
  }

  lemma FirstByte(w: bv8, s: nat, k: nat)
    requires s < 8 && k < 8
    ensures Bit(From(w, s), k) <==> s <= k && Bit(w, k)
  {
    Masks();
  }

  lemma NoBits(w: bv8, k: nat)
    requires k < 8 && w == 0
    ensures !Bit(w, k)
  {
  }

  lemma BitSet(w: bv8, j: nat, k: nat)
    requires j < 8 && k < 8
    ensures Bit(w | Mask(k), j) <==> j == k || Bit(w, j)
  {
    Masks();
  }

  /** The first `n` bits. */
  ghost function Flags(bitmap: seq<bv8>, n: nat): (s: seq<bool>)
    requires n <= 8 * |bitmap|
    ensures |s| == n && forall i :: 0 <= i < n ==> s[i] == TestBit(bitmap, i)
  {
    seq(n, i requires 0 <= i < n => TestBit(bitmap, i))
  }

  /** `r` is the first place from `start` on whose flag is `wanted`, or `|flags|` if there is none. */
  ghost predicate FirstFrom(flags: seq<bool>, start: nat, wanted: bool, r: nat) {
    && r <= |flags| && (start <= |flags| ==> start <= r) && (|flags| <= start ==> r == |flags|)
    && (r < |flags| ==> flags[r] == wanted)
    && forall i :: start <= i < r ==> flags[i] != wanted
  }

  /** A byte to look at, with `wanted` bits as ones. */
  function Look(w: bv8, invert: bool): bv8 {
    if invert then w ^ 0xff else w
  }

  lemma LookBit(w: bv8, invert: bool, k: nat)
    requires k < 8
    ensures Bit(Look(w, invert), k) <==> Bit(w, k) != invert
  {
    hide Bit;
    Inverted(w, k);
  }

  /** The byte without the bits below `s`. */
  function From(w: bv8, s: nat): bv8
    requires s < 8
  {
    w & (0xff << s)
  }

  /** From `from` up to `to` there is nothing to be found. */
  ghost predicate Passed(flags: seq<bool>, from: nat, to: nat, invert: bool) {
    forall i :: from <= i < to && i < |flags| ==> flags[i] == invert
  }

  /** What the byte at `base`, cut below `cut`, tells about the flags. */
  ghost predicate Seen(flags: seq<bool>, base: nat, cut: nat, invert: bool, w: bv8) {
    if w == 0 then Passed(flags, base + cut, base + 8, invert)
    else
      && cut <= Ffs(w) && Passed(flags, base + cut, base + Ffs(w), invert)
      && (base + Ffs(w) < |flags| ==> flags[base + Ffs(w)] != invert)
  }

  lemma SeenByte(bitmap: seq<bv8>, n: nat, base: nat, cut: nat, invert: bool)
    requires n <= 8 * |bitmap| && base % 8 == 0 && base < n && cut < 8
    ensures Seen(Flags(bitmap, n), base, cut, invert, From(Look(bitmap[base / 8], invert), cut))
  {
    hide Bit, Ffs, From, Look;
    var w := From(Look(bitmap[base / 8], invert), cut);
    forall i | base + cut <= i < base + 8 && i < n
      ensures Flags(bitmap, n)[i] != invert <==> Bit(w, i - base)
    {
      assert i / 8 == base / 8 && i % 8 == i - base;
      FirstByte(Look(bitmap[base / 8], invert), cut, i - base);
      LookBit(bitmap[base / 8], invert, i - base);
    }
    if w == 0 {
      forall k | 0 <= k < 8
        ensures !Bit(w, k)
      {
        NoBits(w, k);
      }
    } else {
      FfsIsFirst(w);
      FirstByte(Look(bitmap[base / 8], invert), cut, Ffs(w));
    }
  }

  lemma FromStart(w: bv8)
    ensures From(w, 0) == w
  {
  }

  /** `_find_next_bit_le`: looking a byte at a time finds what a scan bit by bit would. */
  method FindNext(bitmap: array<bv8>, nbits: nat, from: nat, invert: bool) returns (r: nat)
    requires nbits <= 8 * bitmap.Length
    ensures FirstFrom(Flags(bitmap[..], nbits), from, !invert, r)
  {
    hide Bit, Ffs, Look, Flags, From, Seen, Passed;
    if nbits == 0 || nbits <= from {
      return nbits;
    }
    var start := from;
    ghost var flags := Flags(bitmap[..], nbits);
    var tmp := Look(bitmap[start / 8], invert);
    tmp := From(tmp, start % 8);
    ghost var cut: nat := start % 8;
    start := start - start % 8;
    assert start / 8 == from / 8;
    SeenByte(bitmap[..], nbits, start, cut, invert);
    PassedNone(flags, from, invert);
    while tmp == 0
      invariant start % 8 == 0 && start < nbits && cut < 8 && from <= start + cut
      invariant Passed(flags, from, start + cut, invert) && Seen(flags, start, cut, invert, tmp)
      decreases nbits - start
    {
      SeenNothing(flags, from, start, cut, invert, tmp);
      start := start + 8;
      if nbits <= start {
        EndReached(flags, from, start, invert);
        return nbits;
      }
      tmp := Look(bitmap[start / 8], invert);
      cut := 0;
      FromStart(tmp);
      SeenByte(bitmap[..], nbits, start, cut, invert);
    }
    SeenFirst(flags, from, start, cut, invert, tmp);
    r := if start + Ffs(tmp) < nbits then start + Ffs(tmp) else nbits;
  }

  lemma PassedNone(flags: seq<bool>, from: nat, invert: bool)
    ensures Passed(flags, from, from, invert)
  {
  }

  lemma SeenNothing(flags: seq<bool>, from: nat, base: nat, cut: nat, invert: bool, w: bv8)
    requires Passed(flags, from, base + cut, invert) && Seen(flags, base, cut, invert, w) && w == 0
    ensures Passed(flags, from, base + 8, invert)
  {
  }

  lemma EndReached(flags: seq<bool>, from: nat, to: nat, invert: bool)
    requires Passed(flags, from, to, invert) && |flags| <= to && from < |flags|
    ensures FirstFrom(flags, from, !invert, |flags|)
  {
  }

  lemma SeenFirst(flags: seq<bool>, from: nat, base: nat, cut: nat, invert: bool, w: bv8)
    requires Passed(flags, from, base + cut, invert) && Seen(flags, base, cut, invert, w) && w != 0
    requires from < |flags| && from <= base + cut
    ensures FirstFrom(flags, from, !invert, if base + Ffs(w) < |flags| then base + Ffs(w) else |flags|)
  {
    hide Ffs;
  }

  /** `test_and_set_bit_le` */
  method SetBit(nr: nat, bitmap: array<bv8>)
    requires nr < 8 * bitmap.Length
    modifies bitmap
    ensures forall n :: 0 <= n <= 8 * bitmap.Length ==>
              Flags(bitmap[..], n) ==
                if nr < n then old(Flags(bitmap[..], n))[nr := true] else old(Flags(bitmap[..], n))
  {
    hide Bit;
    ghost var was := bitmap[..];
    var w := bitmap[nr / 8] | Mask(nr % 8);
    forall k | 0 <= k < 8
      ensures Bit(w, k) <==> k == nr % 8 || Bit(was[nr / 8], k)
    {
      BitSet(was[nr / 8], k, nr % 8);
    }
    bitmap[nr / 8] := w;
    forall i | 0 <= i < 8 * bitmap.Length
      ensures TestBit(bitmap[..], i) <==> i == nr || TestBit(was, i)
    {
      if i / 8 == nr / 8 {
        assert i == nr <==> i % 8 == nr % 8;
      }
    }
  }
}
