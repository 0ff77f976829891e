/** What the CRC-32 is: the remainder of a polynomial over the field of two elements. The division here is on
    coefficients and knows nothing of words. */
module CrcPolynomial {
  import opened Sequences
  import opened Crc32

  /** The coefficients of a polynomial, that of the highest power first. */
  type Poly = seq<bool>

  function Falses(n: nat): Poly {
    seq(n, _ => false)
  }

  /** `a` with `b` added to its highest coefficients. */
  function Plus(a: Poly, b: Poly): (r: Poly)
    requires |b| <= |a|
    ensures |r| == |a| && forall i :: 0 <= i < |r| ==> r[i] == if i < |b| then a[i] != b[i] else a[i]
  {
    seq(|a|, i requires 0 <= i < |a| => if i < |b| then a[i] != b[i] else a[i])
  }

  /** The powers of the generator of IEEE 802.3. */
  const POWERS: set<nat> := {32, 26, 23, 22, 16, 12, 11, 10, 8, 7, 5, 4, 2, 1, 0}

  function Generator(): (g: Poly)
    ensures |g| == 33 && forall i :: 0 <= i < 33 ==> g[i] == (32 - i in POWERS)
  {
    seq(33, i requires 0 <= i < 33 => 32 - i in POWERS)
  }

  /** Long division by the generator. */
  function Remainder(m: Poly): (r: Poly)
    requires 32 <= |m|
    ensures |r| == 32
    decreases |m|
  {
    if |m| == 32 then m else Remainder((if m[0] then Plus(m, Generator()) else m)[1..])
  }

  /** The product of two polynomials. */
  function Times(q: Poly, g: Poly): (r: Poly)
    requires g != []
    ensures |r| == |q| + |g| - 1
    decreases |q|
  {
    if q == [] then Falses(|g| - 1)
    else Plus([false] + Times(q[1..], g), if q[0] then g else [])
  }

  /** The division is one: the dividend is a multiple of the generator, plus the remainder. */
  lemma {:induction false} Divides(m: Poly) returns (q: Poly)
    requires 32 <= |m|
    ensures |q| == |m| - 32 && m == Plus(Times(q, Generator()), Falses(|q|) + Remainder(m))
    decreases |m|
  {
    var g := Generator();
    if |m| == 32 {
      q := [];
      assert m == Plus(Falses(32), m);
      assert Falses(0) + m == m;
    } else {
      assert g[0];
      var m' := (if m[0] then Plus(m, g) else m)[1..];
      var q' := Divides(m');
      q := [m[0]] + q';
      assert q[1..] == q';
      Multiplied(m, m', Times(q', g), g, |q'|, Remainder(m'));
    }
  }

  lemma Multiplied(m: Poly, m': Poly, t: Poly, g: Poly, k: nat, r: Poly)
    requires |m| == k + 33 && |m'| == |t| == k + 32 && |g| == 33 && |r| == 32 && g[0]
    requires m' == (if m[0] then Plus(m, g) else m)[1..] && m' == Plus(t, Falses(k) + r)
    ensures m == Plus(Plus([false] + t, if m[0] then g else []), Falses(k + 1) + r)
  {
    hide Plus;
    var p := Plus([false] + t, if m[0] then g else []);
    var s := Plus(p, Falses(k + 1) + r);
    forall i | 0 <= i < |m|
      ensures m[i] == s[i]
    {
      Divided(m, m', g, i);
      Summed(t, m', k, r, i);
      assert p[i] == ((0 < i && t[i - 1]) != (m[0] && i < 33 && g[i]));
      assert s[i] == (p[i] != (Falses(k + 1) + r)[i]);
    }
  }

  lemma Divided(m: Poly, m': Poly, g: Poly, i: nat)
    requires i < |m| && 33 <= |m| && |g| == 33 && g[0] && m' == (if m[0] then Plus(m, g) else m)[1..]
    ensures m[i] == ((0 < i && m'[i - 1]) != (m[0] && i < 33 && g[i]))
  {
  }

  lemma Summed(t: Poly, m': Poly, k: nat, r: Poly, i: nat)
    requires |t| == k + 32 && |r| == 32 && m' == Plus(t, Falses(k) + r) && i < k + 33
    ensures (0 < i && m'[i - 1]) == ((0 < i && t[i - 1]) != (Falses(k + 1) + r)[i])
  {
    if 0 < i {
      assert (Falses(k + 1) + r)[i] == (Falses(k) + r)[i - 1];
    }
  }

  // ----- the bits of words and bytes

  /** Bit `j` of a word, the lowest first; it is the coefficient of the power `31 - j`. */
  predicate Bit(c: bv32, j: nat) {
    if j == 0 then !Even(c) else Bit(Half(c), j - 1)
  }

  function Bits(c: bv32): (p: Poly)
    ensures |p| == 32 && forall j :: 0 <= j < 32 ==> p[j] == Bit(c, j)
  {
    seq(32, j requires 0 <= j < 32 => Bit(c, j))
  }

  /** The bits of a byte, the lowest first, found by halving it as a number. */
  function ByteBits(n: nat, k: nat): (p: Poly)
    ensures |p| == k
  {
    if k == 0 then [] else [n % 2 == 1] + ByteBits(n / 2, k - 1)
  }

  /** The polynomial of a message. */
  function Message(s: seq<byte>): (p: Poly)
    ensures |p| == 8 * |s|
  {
    if s == [] then [] else ByteBits(s[0] as nat, 8) + Message(s[1..])
  }

  lemma {:induction false} BitXor(a: bv32, b: bv32, j: nat)
    ensures Bit(Xor(a, b), j) <==> Bit(a, j) != Bit(b, j)
    decreases j
  {
    hide Xor, Half, Even;
    XorEven(a, b);
    if 0 < j {
      XorHalf(a, b);
      BitXor(Half(a), Half(b), j - 1);
    }
  }

  lemma XorEven(a: bv32, b: bv32)
    ensures Even(Xor(a, b)) <==> Even(a) == Even(b)
  {
  }

  lemma XorHalf(a: bv32, b: bv32)
    ensures Half(Xor(a, b)) == Xor(Half(a), Half(b))
  {
    XorHalves(a, b);
  }

  lemma BitsDown(c: bv32, j: nat)
    ensures Bit(c, j + 8) == Bit(Down(c), j)
  {
    hide Half, Even, Down, Nibble;
    FourHalves(c);
    FourHalves(Nibble(c));
    TwoNibbles(c);
    FourBits(c, j + 4);
    FourBits(Nibble(c), j);
  }

  lemma FourBits(c: bv32, j: nat)
    ensures Bit(c, j + 4) == Bit(Half(Half(Half(Half(c)))), j)
  {
    assert Bit(c, j + 4) == Bit(Half(c), j + 3) == Bit(Half(Half(c)), j + 2) == Bit(Half(Half(Half(c))), j + 1);
  }

  lemma {:induction false} NoBits(j: nat)
    ensures !Bit(0, j)
  {
    if 0 < j {
      assert Half(0) == 0;
      NoBits(j - 1);
    }
  }

  lemma AllDown(c: bv32)
    ensures Down(Down(Down(Down(c)))) == 0
  {
    assert (((c >> 8) >> 8) >> 8) >> 8 == 0;
  }

  /** A word has 32 bits. */
  lemma NoHighBit(c: bv32, j: nat)
    requires 32 <= j
    ensures !Bit(c, j)
  {
    hide Bit, Down;
    BitsDown(c, j - 8);
    BitsDown(Down(c), j - 16);
    BitsDown(Down(Down(c)), j - 24);
    BitsDown(Down(Down(Down(c))), j - 32);
    AllDown(c);
    NoBits(j - 32);
  }

  // ----- one step of the division

  /** The word of the source has the coefficients of the generator below the highest. */
  lemma PolyIsGenerator(j: nat)
    requires j < 32
    ensures Bit(POLY, j) <==> 31 - j in POWERS
  {
    hide Bit;
    if j < 8 {
      ByteBit(POLY);
    } else if j < 16 {
      BitsDown(POLY, j - 8);
      ByteBit(Down(POLY));
    } else if j < 24 {
      BitsDown(POLY, j - 8);
      BitsDown(Down(POLY), j - 16);
      ByteBit(Down(Down(POLY)));
    } else {
      BitsDown(POLY, j - 8);
      BitsDown(Down(POLY), j - 16);
      BitsDown(Down(Down(POLY)), j - 24);
      ByteBit(Down(Down(Down(POLY))));
    }
  }

  lemma ByteBit(c: bv32)
    ensures Bit(c, 0) == (c & 0x01 != 0) && Bit(c, 1) == (c & 0x02 != 0)
    ensures Bit(c, 2) == (c & 0x04 != 0) && Bit(c, 3) == (c & 0x08 != 0)
    ensures Bit(c, 4) == (c & 0x10 != 0) && Bit(c, 5) == (c & 0x20 != 0)
    ensures Bit(c, 6) == (c & 0x40 != 0) && Bit(c, 7) == (c & 0x80 != 0)
  {
    hide Half, Even;
    LowBits(c);
    FourBits(c, 0);
    FourBits(c, 1);
    FourBits(c, 2);
    FourBits(c, 3);
    LowBits(Half(Half(Half(Half(c)))));
    UpperBits(c);
  }

  lemma LowBits(c: bv32)
    ensures Bit(c, 0) == (c & 0x01 != 0) && Bit(c, 1) == (c & 0x02 != 0)
    ensures Bit(c, 2) == (c & 0x04 != 0) && Bit(c, 3) == (c & 0x08 != 0)
  {
    assert Bit(c, 1) == Bit(Half(c), 0);
    assert Bit(c, 2) == Bit(Half(Half(c)), 0);
    assert Bit(c, 3) == Bit(Half(Half(Half(c))), 0);
  }

  lemma UpperBits(c: bv32)
    ensures var d := Half(Half(Half(Half(c))));
            && (d & 0x01 != 0) == (c & 0x10 != 0) && (d & 0x02 != 0) == (c & 0x20 != 0)
            && (d & 0x04 != 0) == (c & 0x40 != 0) && (d & 0x08 != 0) == (c & 0x80 != 0)
  {
  }

  lemma ShiftIs(c: bv32)
    ensures Shift(c) == Xor(Half(c), if Even(c) then 0 else POLY)
  {
    XorParity(c, c);
  }

  /** One step of the source is one step of the long division. */
  lemma DivisionStep(c: bv32, rest: Poly)
    requires 32 <= |rest|
    ensures Remainder(Plus([false] + rest, Bits(c))) == Remainder(Plus(rest, Bits(Shift(c))))
  {
    hide Shift, Half, Even, Xor, Bit, Bits, Plus;
    var m := Plus([false] + rest, Bits(c));
    var m' := (if m[0] then Plus(m, Generator()) else m)[1..];
    var n := Plus(rest, Bits(Shift(c)));
    forall i | 0 <= i < |rest|
      ensures m'[i] == n[i]
    {
      StepAt(c, rest, i);
    }
    assert m' == n;
  }

  lemma StepAt(c: bv32, rest: Poly, i: nat)
    requires i < |rest| && 32 <= |rest|
    ensures var m := Plus([false] + rest, Bits(c));
            (if m[0] then Plus(m, Generator()) else m)[1..][i] == Plus(rest, Bits(Shift(c)))[i]
  {
    hide Shift, Half, Even, Xor, Bit, Bits, Plus;
    var m := Plus([false] + rest, Bits(c));
    BitStep(c, i);
    assert m[0] == Bit(c, 0);
    assert m[i + 1] == (rest[i] != (i + 1 < 32 && Bit(c, i + 1)));
    if i < 32 {
      ShiftedBit(c, i);
      assert Generator()[i + 1] == (31 - i in POWERS);
    }
  }

  lemma BitStep(c: bv32, j: nat)
    ensures Bit(c, 0) == !Even(c) && Bit(c, j + 1) == Bit(Half(c), j)
  {
  }

  lemma ShiftedBit(c: bv32, i: nat)
    requires i < 32
    ensures Bit(Shift(c), i) == ((i + 1 < 32 && Bit(c, i + 1)) != (Bit(c, 0) && 31 - i in POWERS))
  {
    hide Shift, Half, Even, Xor, Bit;
    ShiftIs(c);
    BitStep(c, i);
    BitXor(Half(c), if Even(c) then 0 else POLY, i);
    PolyIsGenerator(i);
    NoBits(i);
    NoHighBit(c, 32);
  }

  lemma {:induction false} DivisionSteps(c: bv32, k: nat, rest: Poly)
    requires 32 <= |rest|
    ensures Remainder(Plus(Falses(k) + rest, Bits(c))) == Remainder(Plus(rest, Bits(Shifts(c, k))))
    decreases k
  {
    hide Shift, Bits, Plus, Remainder;
    if k == 0 {
      assert Falses(0) + rest == rest;
    } else {
      assert Falses(k) + rest == [false] + (Falses(k - 1) + rest);
      DivisionStep(c, Falses(k - 1) + rest);
      DivisionSteps(Shift(c), k - 1, rest);
      ShiftsCompose(c, 1, k - 1);
      assert Shifts(c, 1) == Shift(Shifts(c, 0));
    }
  }

  // ----- whole messages

  lemma HalfByte(b: byte)
    ensures (b >> 1) as nat == b as nat / 2 && (b as nat % 2 == 1 <==> !Even(Word(b)))
    ensures Word(b >> 1) == Half(Word(b))
  {
  }

  lemma {:induction false} ByteBitsAre(b: byte, k: nat, i: nat)
    requires i < k
    ensures ByteBits(b as nat, k)[i] == Bit(Word(b), i)
    decreases k
  {
    hide Word, Half, Even;
    HalfByte(b);
    if 0 < i {
      ByteBitsAre(b >> 1, k - 1, i - 1);
    }
  }

  lemma ByteIsLow(b: byte, i: nat)
    requires 8 <= i
    ensures !Bit(Word(b), i)
  {
    hide Bit;
    BitsDown(Word(b), i - 8);
    assert Down(Word(b)) == 0;
    NoBits(i - 8);
  }

  /** Taking in a byte adds it to the dividend. */
  lemma ByteAdded(c: bv32, b: byte, rest: Poly)
    requires 32 <= |rest|
    ensures Plus(ByteBits(b as nat, 8) + rest, Bits(c)) == Plus(Falses(8) + rest, Bits(Xor(c, Word(b))))
  {
    hide Xor, Word, Bit, Bits, Plus, ByteBits;
    var p, q := Plus(ByteBits(b as nat, 8) + rest, Bits(c)), Plus(Falses(8) + rest, Bits(Xor(c, Word(b))));
    forall i | 0 <= i < |p|
      ensures p[i] == q[i]
    {
      BitXor(c, Word(b), i);
      if i < 8 {
        ByteBitsAre(b, 8, i);
      } else {
        ByteIsLow(b, i);
      }
    }
  }

  lemma ByteDivided(c: bv32, b: byte, rest: Poly)
    requires 32 <= |rest|
    ensures Remainder(Plus(ByteBits(b as nat, 8) + rest, Bits(c))) == Remainder(Plus(rest, Bits(Step(c, b))))
  {
    hide Xor, Word, Bits, Plus, ByteBits, Remainder, Shifts;
    ByteAdded(c, b, rest);
    DivisionSteps(Xor(c, Word(b)), 8, rest);
  }

  /** The CRC is the remainder of the message times the 32nd power, with the seed added in front. */
  lemma {:induction false} CrcIsRemainder(seed: bv32, s: seq<byte>)
    ensures Bits(Crc(seed, s)) == Remainder(Plus(Message(s) + Falses(32), Bits(seed)))
    decreases |s|
  {
    hide Step, Bits, ByteBits;
    if s == [] {
      assert Plus([] + Falses(32), Bits(seed)) == Bits(seed);
    } else {
      var b, t := s[0], s[1..];
      assert s == [b] + t;
      CrcCompose(seed, [b], t);
      assert Crc(seed, [b]) == Step(Crc(seed, []), b);
      CrcIsRemainder(Step(seed, b), t);
      var rest := Message(t) + Falses(32);
      assert Message(s) + Falses(32) == ByteBits(b as nat, 8) + rest;
      ByteDivided(seed, b, rest);
    }
  }

  /** So the dividend is a multiple of the generator plus the CRC, which has a lower degree. */
  lemma CrcDivides(seed: bv32, s: seq<byte>) returns (q: Poly)
    ensures |q| == 8 * |s|
    ensures Plus(Message(s) + Falses(32), Bits(seed))
            == Plus(Times(q, Generator()), Falses(|q|) + Bits(Crc(seed, s)))
  {
    hide Crc, Bits, Times, Message;
    CrcIsRemainder(seed, s);
    q := Divides(Plus(Message(s) + Falses(32), Bits(seed)));
  }

  // ----- the check value

  lemma StepIsEight(c: bv32, b: byte)
    ensures Step(c, b) == Shift(Shift(Shift(Shift(Shift(Shift(Shift(Shift(c ^ (b as bv32)))))))))
  {
    hide Shift;
    var x := c ^ (b as bv32);
    assert Shifts(x, 2) == Shift(Shifts(x, 1)) == Shift(Shift(Shifts(x, 0)));
    assert Shifts(x, 4) == Shift(Shifts(x, 3)) == Shift(Shift(Shifts(x, 2)));
    assert Shifts(x, 6) == Shift(Shifts(x, 5)) == Shift(Shift(Shifts(x, 4)));
    assert Shifts(x, 8) == Shift(Shifts(x, 7)) == Shift(Shift(Shifts(x, 6)));
  }

  lemma CrcNext(s: seq<byte>, i: nat, before: bv32)
    requires i < |s| && Crc(SEED, s[..i]) == before
    ensures Crc(SEED, s[..i + 1])
            == Shift(Shift(Shift(Shift(Shift(Shift(Shift(Shift(before ^ (s[i] as bv32)))))))))
  {
    hide Shift, Step;
    assert s[..i + 1][..i] == s[..i];
    StepIsEight(before, s[i]);
  }

  lemma CheckFirst(s: seq<byte>)
    requires |s| == 9 && s[0] == 0x31 && s[1] == 0x32 && s[2] == 0x33
    requires Crc(SEED, s[..0]) == 0xffff_ffff
    ensures Crc(SEED, s[..3]) == 0x77b7_9c2d
  {
    hide Crc;
    CrcNext(s, 0, 0xffff_ffff);
    CrcNext(s, 1, 0x7c23_1048);
    CrcNext(s, 2, 0xb0ac_bb32);
  }

  lemma CheckSecond(s: seq<byte>)
    requires |s| == 9 && s[3] == 0x34 && s[4] == 0x35 && s[5] == 0x36
    requires Crc(SEED, s[..3]) == 0x77b7_9c2d
    ensures Crc(SEED, s[..6]) == 0xf68d_2c9e
  {
    hide Crc;
    CrcNext(s, 3, 0x77b7_9c2d);
    CrcNext(s, 4, 0x641c_1f5c);
    CrcNext(s, 5, 0x340a_c5e3);
  }

  lemma CheckThird(s: seq<byte>)
    requires |s| == 9 && s[6] == 0x37 && s[7] == 0x38 && s[8] == 0x39
    requires Crc(SEED, s[..6]) == 0xf68d_2c9e
    ensures Crc(SEED, s[..9]) == 0x340b_c6d9
  {
    hide Crc;
    CrcNext(s, 6, 0xf68d_2c9e);
    CrcNext(s, 7, 0xaffc_9660);
    CrcNext(s, 8, 0x651f_2550);
  }

  /** The check value of the CRC-32, before the final inversion: that of the digits from 1 to 9. */
  lemma CheckValue()
    ensures Crc(SEED, [0x31, 0x32, 0x33, 0x34, 0x35, 0x36, 0x37, 0x38, 0x39]) == 0x340b_c6d9
  {
    hide Crc;
    var s: seq<byte> := [0x31, 0x32, 0x33, 0x34, 0x35, 0x36, 0x37, 0x38, 0x39];
    CrcNothing(s);
    CheckFirst(s);
    CheckSecond(s);
    CheckThird(s);
    assert s[..9] == s;
  }

  lemma CrcNothing(s: seq<byte>)
    ensures Crc(SEED, s[..0]) == 0xffff_ffff
  {
  }
}
