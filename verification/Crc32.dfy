/** CRC-32 as IEEE 802.3 defines it (polynomial 0x04C11DB7, reflected), seeded with all
    ones and without the final inversion.

    The word operations are named so that the algebra of the division can be done on
    the names alone. */
module Crc32 {
  import opened Sequences

  const POLY: bv32 := 0xEDB8_8320
  const SEED: bv32 := 0xFFFF_FFFF

  function Xor(a: bv32, b: bv32): bv32 { a ^ b }

  function Half(c: bv32): bv32 { c >> 1 }

  predicate Even(c: bv32) { c & 1 == 0 }

  function Low(c: bv32): bv32 { c & 0xff }

  function High(c: bv32): bv32 { c & 0xffff_ff00 }

  function Nibble(c: bv32): bv32 { c >> 4 }

  function Down(c: bv32): bv32 { c >> 8 }

  function Word(b: byte): bv32 { b as bv32 }

  function Up(c: bv32): bv32 { c << 8 }

  /** The bits that a word of `k` bytes must not have. */
  function Mask(k: nat): bv32 {
    if k == 0 then 0xffff_ffff else if k == 1 then 0xffff_ff00 else if k == 2 then 0xffff_0000
    else if k == 3 then 0xff00_0000 else 0
  }

  predicate Below(c: bv32, k: nat) { c & Mask(k) == 0 }

  /** One step of the bit-at-a-time division. */
  function Shift(c: bv32): bv32 {
    (c >> 1) ^ (if c & 1 == 1 then POLY else 0)
  }

  function Shifts(c: bv32, n: nat): bv32 {
    if n == 0 then c else Shift(Shifts(c, n - 1))
  }

  /** One byte. */
  function Step(c: bv32, b: byte): bv32 {
    Shifts(Xor(c, Word(b)), 8)
  }

  /** The checksum of a buffer, taken up from `crc`. */
  function Crc(crc: bv32, s: seq<byte>): bv32 {
    if s == [] then crc else Step(Crc(crc, s[..|s| - 1]), s[|s| - 1])
  }

  // ----- single words

  lemma XorHalves(a: bv32, b: bv32)
    ensures (a ^ b) >> 1 == (a >> 1) ^ (b >> 1)
  {
  }

  lemma XorParity(a: bv32, b: bv32)
    ensures (a ^ b) & 1 == (a & 1) ^ (b & 1)
    ensures a & 1 == 0 || a & 1 == 1
  {
  }

  lemma XorShuffle(a: bv32, b: bv32, p: bv32, q: bv32)
    ensures (a ^ p) ^ (b ^ q) == (a ^ b) ^ (p ^ q)
  {
  }

  lemma XorCommutes(a: bv32, b: bv32)
    ensures a ^ b == b ^ a
  {
  }

  lemma XorAssociates(a: bv32, b: bv32, c: bv32)
    ensures a ^ (b ^ c) == (a ^ b) ^ c
  {
  }

  lemma XorInjective(a: bv32, b: bv32, c: bv32)
    ensures Xor(a, b) == Xor(a, c) ==> b == c
    ensures Xor(b, a) == Xor(c, a) ==> b == c
  {
  }

  lemma ShiftOfXor(a: bv32, b: bv32)
    ensures Shift(a ^ b) == Shift(a) ^ Shift(b)
  {
    XorHalves(a, b);
    XorParity(a, b);
    XorParity(b, a);
    XorShuffle(a >> 1, b >> 1, if a & 1 == 1 then POLY else 0, if b & 1 == 1 then POLY else 0);
  }

  lemma ShiftLinear(a: bv32, b: bv32)
    ensures Shift(Xor(a, b)) == Xor(Shift(a), Shift(b))
  {
    hide Shift;
    ShiftOfXor(a, b);
  }

  /** The top bit of the polynomial tells which way a step went. */
  lemma ShiftInjective(a: bv32, b: bv32)
    requires Shift(a) == Shift(b)
    ensures a == b
  {
  }

  lemma ShiftOfEven(c: bv32)
    requires Even(c)
    ensures Shift(c) == Half(c)
  {
  }

  lemma FourEven(c: bv32)
    requires c & 0xf == 0
    ensures Even(c) && Even(Half(c)) && Even(Half(Half(c))) && Even(Half(Half(Half(c))))
  {
    assert c & 1 == 0;
    assert (c >> 1) & 1 == 0;
    assert ((c >> 1) >> 1) & 1 == 0;
    assert (((c >> 1) >> 1) >> 1) & 1 == 0;
  }

  lemma NextNibble(c: bv32)
    requires Low(c) == 0
    ensures c & 0xf == 0 && Half(Half(Half(Half(c)))) & 0xf == 0
  {
    assert c & 0xff == 0;
    assert ((((c >> 1) >> 1) >> 1) >> 1) & 0xf == 0;
  }

  lemma HalfOfHalf(c: bv32)
    ensures (c >> 1) >> 1 == c >> 2
  {
  }

  lemma HalfOfQuarter(c: bv32)
    ensures (c >> 2) >> 1 == c >> 3
  {
  }

  lemma HalfOfEighth(c: bv32)
    ensures (c >> 3) >> 1 == c >> 4
  {
  }

  lemma FourHalves(c: bv32)
    ensures Half(Half(Half(Half(c)))) == Nibble(c)
  {
    HalfOfHalf(c);
    HalfOfQuarter(c);
    HalfOfEighth(c);
  }

  lemma TwoNibbles(c: bv32)
    ensures Nibble(Nibble(c)) == Down(c)
  {
    assert (c >> 4) >> 4 == c >> 8;
  }

  // ----- runs of steps

  lemma {:induction false} ShiftsLinear(a: bv32, b: bv32, n: nat)
    ensures Shifts(Xor(a, b), n) == Xor(Shifts(a, n), Shifts(b, n))
  {
    hide Shift, Xor;
    if 0 < n {
      ShiftsLinear(a, b, n - 1);
      ShiftLinear(Shifts(a, n - 1), Shifts(b, n - 1));
    }
  }

  lemma {:induction false} ShiftsInjective(a: bv32, b: bv32, n: nat)
    requires Shifts(a, n) == Shifts(b, n)
    ensures a == b
  {
    hide Shift;
    if 0 < n {
      ShiftInjective(Shifts(a, n - 1), Shifts(b, n - 1));
      ShiftsInjective(a, b, n - 1);
    }
  }

  lemma {:induction false} ShiftsCompose(c: bv32, m: nat, n: nat)
    ensures Shifts(c, m + n) == Shifts(Shifts(c, m), n)
  {
    hide Shift;
    if 0 < n {
      ShiftsCompose(c, m, n - 1);
      assert m + n - 1 == m + (n - 1);
    }
  }

  lemma FourShifts(c: bv32)
    requires Even(c) && Even(Half(c)) && Even(Half(Half(c))) && Even(Half(Half(Half(c))))
    ensures Shifts(c, 4) == Half(Half(Half(Half(c))))
  {
    hide Shift, Half, Even;
    ShiftOfEven(c);
    ShiftOfEven(Half(c));
    ShiftOfEven(Half(Half(c)));
    ShiftOfEven(Half(Half(Half(c))));
    assert Shifts(c, 0) == c;
    assert Shifts(c, 1) == Half(c);
    assert Shifts(c, 2) == Half(Half(c));
    assert Shifts(c, 3) == Half(Half(Half(c)));
  }

  /** Eight steps move a word whose low byte is zero down by a byte. */
  lemma ShiftsOfHigh(c: bv32)
    requires Low(c) == 0
    ensures Shifts(c, 8) == Down(c)
  {
    hide *;
    var d := Half(Half(Half(Half(c))));
    NextNibble(c);
    FourEven(c);
    FourEven(d);
    FourShifts(c);
    FourShifts(d);
    FourHalves(c);
    FourHalves(d);
    TwoNibbles(c);
    ShiftsCompose(c, 4, 4);
  }

  // ----- the table-driven form

  /** The table that `init_crc32` fills. */
  ghost predicate IsTable(tab: seq<bv32>) {
    |tab| == 256 && forall i :: 0 <= i < 256 ==> tab[i] == Shifts(Word(i as bv8), 8)
  }

  lemma SplitLow(x: bv32)
    ensures Xor(Low(x), High(x)) == x
  {
    assert (x & 0xff) ^ (x & 0xffff_ff00) == x;
  }

  lemma HighIsHigh(x: bv32)
    ensures Low(High(x)) == 0
    ensures Down(High(x)) == Down(x)
  {
    assert (x & 0xffff_ff00) & 0xff == 0;
    assert (x & 0xffff_ff00) >> 8 == x >> 8;
  }

  lemma SameHigh(c: bv32, b: byte)
    ensures Down(Xor(c, Word(b))) == Down(c)
  {
    assert (c ^ (b as bv32)) >> 8 == c >> 8;
  }

  /** One table lookup does eight steps of the division. */
  lemma TableStep(c: bv32, b: byte)
    ensures Step(c, b) == Xor(Down(c), Shifts(Low(Xor(c, Word(b))), 8))
  {
    hide Shift, Shifts, Xor, Low, High, Down, Word;
    var x := Xor(c, Word(b));
    SplitLow(x);
    ShiftsLinear(Low(x), High(x), 8);
    HighIsHigh(x);
    ShiftsOfHigh(High(x));
    SameHigh(c, b);
    XorSymmetric(Shifts(Low(x), 8), Down(c));
  }

  lemma XorSymmetric(a: bv32, b: bv32)
    ensures Xor(a, b) == Xor(b, a)
  {
    XorCommutes(a, b);
  }

  lemma LowByte(x: bv32)
    ensures Low(x) < 256
    ensures Word(Low(x) as bv8) == Low(x)
  {
  }

  lemma ByteIndex(b: bv8)
    ensures (b as int) as bv8 == b
  {
  }

  /** `init_crc32`.  Entry zero of a filled table is zero, so the guard never keeps the
      table from being filled again. */
  method InitCrc32(tab: array<bv32>) returns (seed: bv32)
    requires tab.Length == 256 && (tab[0] == 0 || IsTable(tab[..]))
    modifies tab
    ensures IsTable(tab[..]) && seed == SEED
  {
    hide Shift, Shifts, Word;
    if tab[0] == 0 {
      for i := 0 to 256
        invariant forall k :: 0 <= k < i ==> tab[k] == Shifts(Word(k as bv8), 8)
      {
        tab[i] := ShiftRun(Word(i as bv8), 8);
      }
    }
    seed := SEED;
  }

  /** The inner loop of the initialisation. */
  method ShiftRun(start: bv32, n: nat) returns (c: bv32)
    ensures c == Shifts(start, n)
  {
    hide Shift;
    c := start;
    for j := 0 to n
      invariant c == Shifts(start, j)
    {
      c := Shift(c);
    }
  }

  /** The table-driven loop computes the bit-at-a-time checksum. */
  method TableCrc32(tab: array<bv32>, seed: bv32, buffer: seq<byte>) returns (crc: bv32)
    requires IsTable(tab[..])
    ensures crc == Crc(seed, buffer)
  {
    hide Shift, Shifts, Xor, Low, Down, Word, Step;
    crc := seed;
    for i := 0 to |buffer|
      invariant crc == Crc(seed, buffer[..i])
    {
      var tmp := Xor(crc, Word(buffer[i]));
      TableStep(crc, buffer[i]);
      LowByte(tmp);
      ByteIndex(Low(tmp) as bv8);
      assert buffer[..i + 1][..i] == buffer[..i];
      assert tab[..][Low(tmp) as bv8 as int] == Shifts(Low(tmp), 8);
      crc := Xor(Down(crc), tab[Low(tmp) as bv8 as int]);
    }
    assert buffer[..|buffer|] == buffer;
  }

  /** `f2fs_cal_crc32`, eight single steps a byte. */
  method BitCrc32(seed: bv32, buffer: seq<byte>) returns (crc: bv32)
    ensures crc == Crc(seed, buffer)
  {
    hide Shift, Xor, Word;
    crc := seed;
    for i := 0 to |buffer|
      invariant crc == Crc(seed, buffer[..i])
    {
      ghost var before := Xor(crc, Word(buffer[i]));
      assert buffer[..i + 1][..i] == buffer[..i];
      crc := Xor(crc, Word(buffer[i]));
      for j := 0 to 8
        invariant crc == Shifts(before, j)
      {
        crc := Shift(crc);
      }
    }
    assert buffer[..|buffer|] == buffer;
  }

  // ----- composition and error detection

  /** A checksum can be taken up where another one stopped. */
  lemma {:induction false} CrcCompose(crc: bv32, s: seq<byte>, t: seq<byte>)
    ensures Crc(crc, s + t) == Crc(Crc(crc, s), t)
  {
    hide Step;
    if t == [] {
      assert s + t == s;
    } else {
      var last := |t| - 1;
      CrcCompose(crc, s, t[..last]);
      assert (s + t)[..|s| + last] == s + t[..last];
    }
  }

  lemma StepInjective(c: bv32, d: bv32, b: byte)
    requires Step(c, b) == Step(d, b)
    ensures c == d
  {
    hide Shifts, Xor, Word;
    ShiftsInjective(Xor(c, Word(b)), Xor(d, Word(b)), 8);
    XorInjective(Word(b), c, d);
  }

  /** Different states stay different under the same bytes. */
  lemma {:induction false} CrcInjective(c: bv32, d: bv32, s: seq<byte>)
    requires Crc(c, s) == Crc(d, s)
    ensures c == d
  {
    hide Step;
    if s != [] {
      var last := |s| - 1;
      StepInjective(Crc(c, s[..last]), Crc(d, s[..last]), s[last]);
      CrcInjective(c, d, s[..last]);
    }
  }

  /** Up to four bytes as one little-endian word. */
  function Pack(s: seq<byte>): bv32
    requires |s| <= 4
  {
    if s == [] then 0 else Xor(Word(s[0]), Up(Pack(s[1..])))
  }

  lemma BelowStep(c: bv32, b: byte, k: nat)
    requires Below(c, k) && k < 3
    ensures Below(Xor(Word(b), Up(c)), k + 1)
  {
    if k == 0 {
      BelowStep0(c, b);
    } else if k == 1 {
      BelowStep1(c, b);
    } else {
      BelowStep2(c, b);
    }
  }

  lemma BelowStep0(c: bv32, b: byte)
    requires c & 0xffff_ffff == 0
    ensures ((b as bv32) ^ (c << 8)) & 0xffff_ff00 == 0
  {
  }

  lemma BelowStep1(c: bv32, b: byte)
    requires c & 0xffff_ff00 == 0
    ensures ((b as bv32) ^ (c << 8)) & 0xffff_0000 == 0
  {
  }

  lemma BelowStep2(c: bv32, b: byte)
    requires c & 0xffff_0000 == 0
    ensures ((b as bv32) ^ (c << 8)) & 0xff00_0000 == 0
  {
  }

  lemma BelowWeakens(c: bv32, k: nat)
    requires Below(c, k) && k <= 3
    ensures Below(c, 3)
  {
    if k == 0 {
      BelowWeakens0(c);
    } else if k == 1 {
      BelowWeakens1(c);
    } else if k == 2 {
      BelowWeakens2(c);
    }
  }

  lemma BelowWeakens0(c: bv32)
    requires c & 0xffff_ffff == 0
    ensures c & 0xff00_0000 == 0
  {
  }

  lemma BelowWeakens1(c: bv32)
    requires c & 0xffff_ff00 == 0
    ensures c & 0xff00_0000 == 0
  {
  }

  lemma BelowWeakens2(c: bv32)
    requires c & 0xffff_0000 == 0
    ensures c & 0xff00_0000 == 0
  {
  }

  lemma {:induction false} PackBelow(s: seq<byte>)
    requires |s| <= 3
    ensures Below(Pack(s), |s|) && Below(Pack(s), 3)
  {
    if s == [] {
    } else {
      hide Xor, Word, Up, Below;
      PackBelow(s[1..]);
      BelowStep(Pack(s[1..]), s[0], |s| - 1);
    }
    BelowWeakens(Pack(s), |s|);
  }

  lemma UpClear(c: bv32)
    ensures Low(Up(c)) == 0
  {
    assert (c << 8) & 0xff == 0;
  }

  lemma UpDown(c: bv32)
    requires Below(c, 3)
    ensures Down(Up(c)) == c
  {
    UpDownRaw(c);
  }

  lemma UpDownRaw(c: bv32)
    requires c & 0xff00_0000 == 0
    ensures (c << 8) >> 8 == c
  {
  }

  lemma XorRegroup(a: bv32, b: bv32, c: bv32)
    ensures Xor(a, Xor(b, c)) == Xor(Xor(a, b), c)
  {
    XorAssociates(a, b, c);
  }

  /** The first byte of a packed word is consumed by eight steps. */
  lemma Peel(c: bv32, b: byte, rest: bv32)
    requires Below(rest, 3)
    ensures Shifts(Xor(c, Xor(Word(b), Up(rest))), 8) == Xor(Step(c, b), rest)
  {
    hide Shift, Shifts, Xor, Up, Down, Low, Word, Below;
    XorRegroup(c, Word(b), Up(rest));
    ShiftsLinear(Xor(c, Word(b)), Up(rest), 8);
    UpClear(rest);
    ShiftsOfHigh(Up(rest));
    UpDown(rest);
  }

  lemma XorZero(c: bv32)
    ensures Xor(c, 0) == c
  {
  }

  lemma CrcFront(c: bv32, s: seq<byte>)
    requires s != []
    ensures Crc(c, s) == Crc(Step(c, s[0]), s[1..])
  {
    hide Step;
    assert s == s[..1] + s[1..];
    CrcCompose(c, s[..1], s[1..]);
    assert s[..1][..0] == [];
  }

  /** Up to four bytes act on the state like one word, followed by plain steps. */
  lemma {:induction false} CrcOfWord(c: bv32, s: seq<byte>)
    requires |s| <= 4
    ensures Crc(c, s) == Shifts(Xor(c, Pack(s)), 8 * |s|)
    decreases |s|, 1
  {
    if s == [] {
      XorZero(c);
    } else {
      CrcOfWordStep(c, s);
    }
  }

  lemma {:induction false} CrcOfWordStep(c: bv32, s: seq<byte>)
    requires 0 < |s| <= 4
    ensures Crc(c, s) == Shifts(Xor(c, Pack(s)), 8 * |s|)
    decreases |s|, 0
  {
    hide Shift, Shifts, Xor, Up, Word, Below, Step, Crc;
    var t := s[1..];
    CrcFront(c, s);
    PackBelow(t);
    Peel(c, s[0], Pack(t));
    CrcOfWord(Step(c, s[0]), t);
    ShiftsCompose(Xor(c, Pack(s)), 8, 8 * |t|);
  }

  lemma PackParts(a: byte, b: byte, p: bv32, q: bv32)
    requires (a as bv32) ^ (p << 8) == (b as bv32) ^ (q << 8)
    requires p & 0xff00_0000 == 0 && q & 0xff00_0000 == 0
    ensures a == b && p == q
  {
  }

  lemma PackPartsNamed(a: byte, b: byte, p: bv32, q: bv32)
    requires Xor(Word(a), Up(p)) == Xor(Word(b), Up(q))
    requires Below(p, 3) && Below(q, 3)
    ensures a == b && p == q
  {
    PackParts(a, b, p, q);
  }

  lemma {:induction false} PackInjective(s: seq<byte>, t: seq<byte>)
    requires |s| == |t| <= 4 && Pack(s) == Pack(t)
    ensures s == t
  {
    hide Xor, Up, Word, Below;
    if s != [] {
      PackBelow(s[1..]);
      PackBelow(t[1..]);
      PackPartsNamed(s[0], t[0], Pack(s[1..]), Pack(t[1..]));
      PackInjective(s[1..], t[1..]);
      assert s == [s[0]] + s[1..] && t == [t[0]] + t[1..];
    }
  }

  /** From the same state, different words of up to four bytes lead to different states. */
  lemma WordDetected(c: bv32, s: seq<byte>, t: seq<byte>)
    requires |s| == |t| <= 4 && Crc(c, s) == Crc(c, t)
    ensures s == t
  {
    hide *;
    CrcOfWord(c, s);
    CrcOfWord(c, t);
    ShiftsInjective(Xor(c, Pack(s)), Xor(c, Pack(t)), 8 * |s|);
    XorInjective(c, Pack(s), Pack(t));
    PackInjective(s, t);
  }

  /** Two buffers that differ, but only inside one window of at most four consecutive
      bytes, have different checksums. */
  lemma BurstDetected(crc: bv32, prefix: seq<byte>, s: seq<byte>, t: seq<byte>, suffix: seq<byte>)
    requires |s| == |t| <= 4 && s != t
    ensures Crc(crc, prefix + s + suffix) != Crc(crc, prefix + t + suffix)
  {
    hide *;
    CrcCompose(crc, prefix + s, suffix);
    CrcCompose(crc, prefix + t, suffix);
    CrcCompose(crc, prefix, s);
    CrcCompose(crc, prefix, t);
    var c := Crc(crc, prefix);
    if Crc(Crc(c, s), suffix) == Crc(Crc(c, t), suffix) {
      CrcInjective(Crc(c, s), Crc(c, t), suffix);
      WordDetected(c, s, t);
    }
  }

  // ----- the checksum bytes of an image

  /** The four bytes of a word as they lie in memory. */
  function Bytes(c: bv32): (s: seq<byte>)
    ensures |s| == 4
  {
    [(c & 0xff) as bv8, ((c >> 8) & 0xff) as bv8, ((c >> 16) & 0xff) as bv8, ((c >> 24) & 0xff) as bv8]
  }

  lemma WordFromBytes(c: bv32)
    ensures c == (((c & 0xff) as bv8) as bv32) | (((((c >> 8) & 0xff) as bv8) as bv32) << 8)
                 | (((((c >> 16) & 0xff) as bv8) as bv32) << 16) | (((((c >> 24) & 0xff) as bv8) as bv32) << 24)
  {
  }

  lemma BytesInjective(c: bv32, d: bv32)
    requires Bytes(c) == Bytes(d)
    ensures c == d
  {
    assert Bytes(c)[0] == Bytes(d)[0] && Bytes(c)[1] == Bytes(d)[1];
    assert Bytes(c)[2] == Bytes(d)[2] && Bytes(c)[3] == Bytes(d)[3];
    WordFromBytes(c);
    WordFromBytes(d);
  }

  /** What `CSM_CRC32` records for the bytes fed since the last seeding. */
  function Digest(s: seq<byte>): (d: seq<byte>)
    ensures |d| == 4
  {
    Bytes(Crc(SEED, s))
  }

  /** `update_checksum`: the stored word is all the state there is. */
  method UpdateChecksum(tab: array<bv32>, checksum: bv32, ghost fed: seq<byte>, buffer: seq<byte>) returns (r: bv32)
    requires IsTable(tab[..]) && checksum == Crc(SEED, fed)
    ensures r == Crc(SEED, fed + buffer) && Bytes(r) == Digest(fed + buffer)
  {
    hide Crc;
    CrcCompose(SEED, fed, buffer);
    r := TableCrc32(tab, checksum, buffer);
  }

  // ----- data with its checksum behind it

  lemma PackRaw(a: byte, b: byte, c: byte, d: byte)
    ensures (a as bv32) ^ (((b as bv32) ^ (((c as bv32) ^ (((d as bv32) ^ ((0 as bv32) << 8)) << 8)) << 8)) << 8)
            == (a as bv32) | ((b as bv32) << 8) | ((c as bv32) << 16) | ((d as bv32) << 24)
  {
  }

  lemma PackNamed(a: byte, b: byte, c: byte, d: byte)
    ensures Xor(Word(a), Up(Xor(Word(b), Up(Xor(Word(c), Up(Xor(Word(d), Up(0)))))))) ==
            (a as bv32) | ((b as bv32) << 8) | ((c as bv32) << 16) | ((d as bv32) << 24)
  {
    PackRaw(a, b, c, d);
  }

  lemma PackFour(a: byte, b: byte, c: byte, d: byte)
    ensures Pack([a, b, c, d]) == Xor(Word(a), Up(Xor(Word(b), Up(Xor(Word(c), Up(Xor(Word(d), Up(0))))))))
  {
    hide Xor, Word, Up, Pack;
    PackStep(d, []);
    PackStep(c, [d]);
    PackStep(b, [c, d]);
    PackStep(a, [b, c, d]);
    assert [a] + [b, c, d] == [a, b, c, d] && [b] + [c, d] == [b, c, d] && [c] + [d] == [c, d] && [d] + [] == [d];
  }

  lemma PackStep(a: byte, s: seq<byte>)
    requires |s| < 4
    ensures Pack([]) == 0 && Pack([a] + s) == Xor(Word(a), Up(Pack(s)))
  {
    hide Xor, Word, Up;
    assert ([a] + s)[1..] == s;
  }

  lemma PackOfBytes(c: bv32)
    ensures Pack(Bytes(c)) == c
  {
    hide Pack, Xor, Word, Up;
    var s := Bytes(c);
    PackFour(s[0], s[1], s[2], s[3]);
    PackNamed(s[0], s[1], s[2], s[3]);
    WordFromBytes(c);
  }

  lemma XorSelf(c: bv32)
    ensures Xor(c, c) == 0
  {
  }

  lemma {:induction false} ShiftsOfZero(n: nat)
    ensures Shifts(0, n) == 0
  {
    if 0 < n {
      ShiftsOfZero(n - 1);
    }
  }

  /** A word takes the state it stands for to zero. */
  lemma CrcOfOwnBytes(c: bv32)
    ensures Crc(c, Bytes(c)) == 0
  {
    hide Shifts, Xor, Pack, Crc, Bytes;
    CrcOfWord(c, Bytes(c));
    PackOfBytes(c);
    XorSelf(c);
    ShiftsOfZero(8 * |Bytes(c)|);
  }

  /** The last four bytes are the checksum of the others. */
  ghost predicate Sealed(m: seq<byte>) {
    4 <= |m| && m[|m| - 4..] == Digest(m[..|m| - 4])
  }

  /** That is so exactly if the checksum of all of it is zero. */
  lemma SealedIff(m: seq<byte>)
    requires 4 <= |m|
    ensures Sealed(m) <==> Crc(SEED, m) == 0
  {
    hide Crc, Bytes;
    var s, d := m[..|m| - 4], m[|m| - 4..];
    assert m == s + d;
    CrcCompose(SEED, s, d);
    CrcOfOwnBytes(Crc(SEED, s));
    if Crc(SEED, m) == 0 {
      WordDetected(Crc(SEED, s), d, Bytes(Crc(SEED, s)));
    }
  }

  /** The two differ at most in the four bytes from `x` on. */
  ghost predicate Within(m: seq<byte>, t: seq<byte>, x: nat) {
    |m| == |t| && forall i :: 0 <= i < |m| && !(x <= i < x + 4) ==> m[i] == t[i]
  }

  /** No two different ones are both sealed. */
  lemma SealedOnce(m: seq<byte>, t: seq<byte>, x: nat)
    requires Within(m, t, x) && m != t && Sealed(m)
    ensures !Sealed(t)
  {
    hide Sealed, Crc;
    SealedLength(m);
    var lo := if x < |m| then x else |m|;
    var hi := if x + 4 < |m| then x + 4 else |m|;
    var prefix, s, s', suffix := m[..lo], m[lo..hi], t[lo..hi], m[hi..];
    assert m == prefix + s + suffix && t == prefix + s' + suffix;
    SealedIff(m);
    SealedIff(t);
    BurstDetected(SEED, prefix, s, s', suffix);
  }

  lemma SealedLength(m: seq<byte>)
    requires Sealed(m)
    ensures 4 <= |m|
  {
  }
}
