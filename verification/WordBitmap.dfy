/** Bitmaps kept as arrays of 64-bit words: src/bitmap.h and the BMAP macros of src/exfat/exfat.h. */
module WordBitmap {
  lemma NextPosition(b: bv6)
    requires b != 63
    ensures (b + 1) as int == b as int + 1
  {
  }

  /** A place in a word. */
  function Position(k: nat): (b: bv6)
    requires k < 64
    ensures b as int == k
  {
    if k == 0 then 0 else NextPosition(Position(k - 1)); Position(k - 1) + 1
  }

  function Mask(k: nat): bv64
    requires k < 64
  {
    (1 as bv64) << Position(k)
  }

  predicate Meets(w: bv64, m: bv64) {
    w & m != 0
  }

  function Join(w: bv64, m: bv64): bv64 {
    w | m
  }

  function Remove(w: bv64, m: bv64): bv64 {
    w & !m
  }

  predicate Bit(word: bv64, k: nat)
    requires k < 64
  {
    Meets(word, Mask(k))
  }

  predicate At(words: seq<bv64>, i: nat)
    requires i < 64 * |words|
  {
    Bit(words[i / 64], i % 64)
  }

  /** The bits in order. */
  ghost function Flags(words: seq<bv64>): (s: seq<bool>)
    ensures |s| == 64 * |words|
    ensures forall i :: 0 <= i < 64 * |words| ==> s[i] == At(words, i)
  {
    seq(64 * |words|, i requires 0 <= i < 64 * |words| => At(words, i))
  }

  lemma Apart(j: bv6, k: bv6)
    requires j != k
    ensures ((1 as bv64) << k) & ((1 as bv64) << j) == 0
  {
  }

  lemma MasksApart(j: nat, k: nat)
    requires j < 64 && k < 64 && j != k
    ensures !Meets(Mask(k), Mask(j))
  {
    hide Position;
    Apart(Position(j), Position(k));
  }

  lemma MaskIsSomething(k: nat)
    requires k < 64
    ensures Mask(k) != 0
  {
  }

  /** `word` with bit `k` set. */
  function With(word: bv64, k: nat): bv64
    requires k < 64
  {
    Join(word, Mask(k))
  }

  /** `word` with bit `k` cleared. */
  function Without(word: bv64, k: nat): bv64
    requires k < 64
  {
    Remove(word, Mask(k))
  }

  lemma Distributes(w: bv64, m: bv64, n: bv64)
    ensures (w | m) & n == (w & n) | (m & n)
    ensures (w & !m) & n == (w & n) & !(m & n)
  {
  }

  lemma NothingChanges(w: bv64, m: bv64)
    requires m == 0
    ensures w | m == w && w & !m == w
  {
  }

  lemma OtherBits(w: bv64, m: bv64, n: bv64)
    requires !Meets(m, n)
    ensures Meets(Join(w, m), n) == Meets(w, n)
    ensures Meets(Remove(w, m), n) == Meets(w, n)
  {
    Distributes(w, m, n);
    NothingChanges(w & n, m & n);
  }

  lemma OwnBit(w: bv64, m: bv64)
    requires m != 0
    ensures Meets(Join(w, m), m)
    ensures !Meets(Remove(w, m), m)
  {
  }

  lemma BitChanged(w: bv64, j: nat, k: nat)
    requires j < 64 && k < 64
    ensures Bit(With(w, k), j) <==> j == k || Bit(w, j)
    ensures Bit(Without(w, k), j) <==> j != k && Bit(w, j)
  {
    hide Mask, Meets, Join, Remove;
    if j == k {
      MaskIsSomething(k);
      OwnBit(w, Mask(k));
    } else {
      MasksApart(j, k);
      OtherBits(w, Mask(k), Mask(j));
    }
  }

  lemma AllOnes(w: bv64, k: nat)
    requires k < 64 && w == 0xffff_ffff_ffff_ffff
    ensures Bit(w, k)
  {
    hide Mask;
    MaskIsSomething(k);
    Within(Mask(k));
  }

  lemma Within(m: bv64)
    ensures 0xffff_ffff_ffff_ffff & m == m
  {
  }

  /** Changing one bit of one word changes one flag. */
  lemma OneWord(words: seq<bv64>, i: nat, w: bv64, on: bool)
    requires i < 64 * |words|
    requires forall k :: 0 <= k < 64 ==> Bit(w, k) == if k == i % 64 then on else Bit(words[i / 64], k)
    ensures Flags(words[i / 64 := w]) == Flags(words)[i := on]
  {
    hide Bit;
    var s, t := Flags(words[i / 64 := w]), Flags(words)[i := on];
    forall j | 0 <= j < 64 * |words|
      ensures s[j] == t[j]
    {
      if j / 64 == i / 64 {
        assert j == i <==> j % 64 == i % 64;
      }
    }
  }

  // ----- what the bits of a word are worth

  function Sum(a: bv64, b: bv64): bv64 {
    a + b
  }

  /** Two to the power of `k`. */
  function Power(k: nat): bv64 {
    if k == 0 then 1 else Sum(Power(k - 1), Power(k - 1))
  }

  /** The number with the binary digits `s`, lowest first. */
  function OfDigits(s: seq<bool>): bv64 {
    if s == [] then 0 else Sum(OfDigits(s[..|s| - 1]), if s[|s| - 1] then Power(|s| - 1) else 0)
  }

  /** What a word has below a power. */
  function Below(w: bv64, m: bv64): bv64 {
    w & (m - 1)
  }

  predicate Single(m: bv64) {
    m & (m - 1) == 0
  }

  lemma Doubled(p: bv6)
    requires p != 63
    ensures (1 as bv64) << (p + 1) == ((1 as bv64) << p) + ((1 as bv64) << p)
  {
  }

  lemma MaskDoubles(k: nat)
    requires 0 < k < 64
    ensures Mask(k) == Sum(Mask(k - 1), Mask(k - 1))
  {
    Doubled(Position(k - 1));
  }

  lemma OnePower(p: bv6)
    ensures ((1 as bv64) << p) & (((1 as bv64) << p) - 1) == 0
  {
  }

  lemma MaskIsSingle(k: nat)
    requires k < 64
    ensures Single(Mask(k))
  {
    hide Position;
    OnePower(Position(k));
  }

  lemma FirstMask()
    ensures Mask(0) == 1
  {
  }

  lemma {:induction false} MaskIsPower(k: nat)
    requires k < 64
    ensures Mask(k) == Power(k)
  {
    hide Mask, Sum;
    if k == 0 {
      FirstMask();
    } else {
      MaskIsPower(k - 1);
      MaskDoubles(k);
    }
  }

  lemma OneMore(w: bv64, m: bv64)
    requires m & (m - 1) == 0
    ensures (w & (m - 1)) | (w & m) == w & (m + m - 1)
  {
  }

  lemma Either(a: bv64, b: bv64)
    requires a & b == 0
    ensures a | b == a + b
  {
  }

  lemma NoOverlap(w: bv64, m: bv64)
    requires m & (m - 1) == 0
    ensures (w & (m - 1)) & (w & m) == 0
  {
  }

  lemma BelowNext(w: bv64, m: bv64)
    requires Single(m)
    ensures Below(w, Sum(m, m)) == Sum(Below(w, m), w & m)
  {
    OneMore(w, m);
    NoOverlap(w, m);
    Either(w & (m - 1), w & m);
  }

  lemma AllOrNothing(w: bv64, m: bv64)
    requires m & (m - 1) == 0
    ensures w & m == 0 || w & m == m
  {
  }

  lemma BitWorth(w: bv64, k: nat)
    requires k < 64
    ensures w & Mask(k) == if Bit(w, k) then Mask(k) else 0
  {
    hide Mask;
    MaskIsSingle(k);
    AllOrNothing(w, Mask(k));
  }

  lemma NextBelow(w: bv64, k: nat)
    requires k < 64
    ensures Below(w, Sum(Mask(k), Mask(k))) == Sum(Below(w, Mask(k)), if Bit(w, k) then Mask(k) else 0)
  {
    hide Mask, Sum, Below, Single, Bit;
    MaskIsSingle(k);
    BelowNext(w, Mask(k));
    BitWorth(w, k);
  }

  /** The lowest bits of a word. */
  lemma {:induction false} LowDigits(w: bv64, s: seq<bool>)
    requires |s| <= 64 && forall k :: 0 <= k < |s| ==> s[k] == Bit(w, k)
    ensures OfDigits(s) == Below(w, Power(|s|))
    decreases |s|
  {
    hide Mask, Sum, Below, Bit;
    if s == [] {
      NothingBelow(w);
    } else {
      var n := |s| - 1;
      LowDigits(w, s[..n]);
      MaskIsPower(n);
      NextBelow(w, n);
    }
  }

  lemma NothingBelow(w: bv64)
    ensures Below(w, Power(0)) == 0
  {
  }

  lemma TopPower(w: bv64)
    ensures Below(w, Sum((1 as bv64) << 63, (1 as bv64) << 63)) == w
  {
  }

  lemma LastMask()
    ensures Mask(63) == (1 as bv64) << 63
  {
    hide Position;
    assert Position(63) == 63;
  }

  lemma AllDigits(w: bv64)
    ensures Below(w, Power(64)) == w
  {
    hide Mask, Below, Sum;
    MaskIsPower(63);
    LastMask();
    TopPower(w);
    assert Power(64) == Sum(Power(63), Power(63));
  }

  /** A word is the number whose binary digits are its flags, lowest first. */
  lemma WordIsNumber(words: seq<bv64>, k: nat, s: seq<bool>)
    requires k < |words| && |s| == 64 && forall j :: 0 <= j < 64 ==> s[j] == Flags(words)[64 * k + j]
    ensures OfDigits(s) == words[k]
  {
    hide Bit, Power, OfDigits, Below;
    forall j | 0 <= j < 64
      ensures s[j] == Bit(words[k], j)
    {
      assert (64 * k + j) / 64 == k && (64 * k + j) % 64 == j;
    }
    LowDigits(words[k], s);
    AllDigits(words[k]);
  }

  // ----- changing bits

  method SetBit(nr: nat, bitmap: array<bv64>)
    requires nr < 64 * bitmap.Length
    modifies bitmap
    ensures Flags(bitmap[..]) == old(Flags(bitmap[..]))[nr := true]
  {
    hide Bit, Flags, With, Without;
    ghost var was := bitmap[..];
    var w := With(bitmap[nr / 64], nr % 64);
    forall k | 0 <= k < 64
      ensures Bit(w, k) == if k == nr % 64 then true else Bit(was[nr / 64], k)
    {
      BitChanged(was[nr / 64], k, nr % 64);
    }
    OneWord(was, nr, w, true);
    bitmap[nr / 64] := w;
    assert bitmap[..] == was[nr / 64 := w];
  }

  method ClearBit(nr: nat, bitmap: array<bv64>)
    requires nr < 64 * bitmap.Length
    modifies bitmap
    ensures Flags(bitmap[..]) == old(Flags(bitmap[..]))[nr := false]
  {
    hide Bit, Flags, With, Without;
    ghost var was := bitmap[..];
    var w := Without(bitmap[nr / 64], nr % 64);
    forall k | 0 <= k < 64
      ensures Bit(w, k) == if k == nr % 64 then false else Bit(was[nr / 64], k)
    {
      BitChanged(was[nr / 64], k, nr % 64);
    }
    OneWord(was, nr, w, false);
    bitmap[nr / 64] := w;
    assert bitmap[..] == was[nr / 64 := w];
  }

  /** `pc_init_bitmap` with all bits clear. */
  method ClearAll(bitmap: array<bv64>)
    modifies bitmap
    ensures forall i :: 0 <= i < 64 * bitmap.Length ==> !Flags(bitmap[..])[i]
  {
    hide Mask;
    for n := 0 to bitmap.Length
      invariant forall w :: 0 <= w < n ==> bitmap[w] == 0
    {
      bitmap[n] := 0;
    }
    forall i | 0 <= i < 64 * bitmap.Length
      ensures !Flags(bitmap[..])[i]
    {
      NoneMeets(Mask(i % 64));
      assert bitmap[..][i / 64] == 0;
    }
  }

  lemma NoneMeets(m: bv64)
    ensures !Meets(0, m)
  {
  }

  /** `pc_init_bitmap` with all bits set. */
  method SetAll(bitmap: array<bv64>)
    modifies bitmap
    ensures forall i :: 0 <= i < 64 * bitmap.Length ==> Flags(bitmap[..])[i]
  {
    hide Bit;
    var n := 0;
    while n < bitmap.Length
      invariant 0 <= n <= bitmap.Length
      invariant forall w :: 0 <= w < n ==> bitmap[w] == 0xffff_ffff_ffff_ffff
    {
      bitmap[n] := 0xffff_ffff_ffff_ffff;
      n := n + 1;
    }
    forall i | 0 <= i < 64 * bitmap.Length
      ensures Flags(bitmap[..])[i]
    {
      AllOnes(bitmap[i / 64], i % 64);
    }
  }
}
