/** src/exfat/utf.c: names in UTF-16 and UTF-8. */
module Utf {
  datatype Status = Ok | Illegal | TooLong

  /** A name, or its legal beginning. */
  datatype Text<T> = Text(units: seq<T>, legal: bool) {
    /** What a conversion into `room` units makes of it: it stops at what comes first, the end of
        the room or the end of what is legal. */
    function Within(room: nat): Status {
      if room < |units| then TooLong else if legal then Ok else Illegal
    }
  }

  /** A character and what it took. */
  datatype Char = Char(wc: bv32, used: nat) | NoChar

  // ----- one character

  predicate IsHigh(u: bv16) {
    u & 0xfc00 == 0xd800
  }

  predicate IsLow(u: bv16) {
    u & 0xfc00 == 0xdc00
  }

  /** The character of a surrogate pair. */
  function Pair(hi: bv16, lo: bv16): bv32 {
    ((((hi & 0x3ff) as bv32) << 10) | ((lo & 0x3ff) as bv32)) + 0x10000
  }

  /** `utf16_to_wchar` */
  function FromUtf16(s: seq<bv16>): (c: Char)
    requires s != []
    ensures c.Char? ==> 0 < c.used <= |s|
  {
    if IsHigh(s[0]) then
      if |s| < 2 || !IsLow(s[1]) then NoChar else Char(Pair(s[0], s[1]), 2)
    else Char(Wide(s[0]), 1)
  }

  function Low8(x: bv32): bv8 {
    (x & 0xff) as bv8
  }

  function Low16(x: bv32): bv16 {
    (x & 0xffff) as bv16
  }

  /** The number of bytes of a character. */
  function Width(wc: bv32): (n: nat)
    ensures 1 <= n <= 4
  {
    if wc <= 0x7f then 1 else if wc <= 0x7ff then 2 else if wc <= 0xffff then 3 else 4
  }

  /** The first byte of a character. */
  function Lead(wc: bv32): bv8 {
    if wc <= 0x7f then Low8(wc)
    else if wc <= 0x7ff then Low8(0xc0 | (wc >> 6))
    else if wc <= 0xffff then Low8(0xe0 | (wc >> 12))
    else Low8(0xf0 | (wc >> 18))
  }

  /** The following bytes, counted from the last. */
  function Last(wc: bv32): bv8 {
    Low8(0x80 | (wc & 0x3f))
  }

  function LastButOne(wc: bv32): bv8 {
    Low8(0x80 | ((wc >> 6) & 0x3f))
  }

  function LastButTwo(wc: bv32): bv8 {
    Low8(0x80 | ((wc >> 12) & 0x3f))
  }

  /** `wchar_to_utf8`, for the characters UTF-16 can express. */
  function ToUtf8(wc: bv32): (s: seq<bv8>)
    requires InRange(wc)
    ensures |s| == Width(wc)
  {
    match Width(wc)
    case 1 => [Lead(wc)]
    case 2 => [Lead(wc), Last(wc)]
    case 3 => [Lead(wc), LastButOne(wc), Last(wc)]
    case _ => [Lead(wc), LastButTwo(wc), LastButOne(wc), Last(wc)]
  }

  /** How many bytes a character takes, by its first one; 0 for a byte that is no first one. */
  function Class(b: bv8): nat {
    if b & 0x80 == 0 then 1
    else if b & 0xe0 == 0xc0 then 2
    else if b & 0xf0 == 0xe0 then 3
    else if b & 0xf8 == 0xf0 then 4
    else if b & 0xfc == 0xf8 then 5
    else if b & 0xfe == 0xfc then 6
    else 0
  }

  /** The six low bits of a byte. */
  function Tail(b: bv8): bv32 {
    (b & 0x3f) as bv32
  }

  function Join1(a: bv8): bv32 {
    a as bv32
  }

  function Join2(a: bv8, b: bv8): bv32 {
    (((a & 0x1f) as bv32) << 6) | Tail(b)
  }

  function Join3(a: bv8, b: bv8, c: bv8): bv32 {
    (((a & 0x0f) as bv32) << 12) | (Tail(b) << 6) | Tail(c)
  }

  function Join4(a: bv8, b: bv8, c: bv8, d: bv8): bv32 {
    (((a & 0x07) as bv32) << 18) | (Tail(b) << 12) | (Tail(c) << 6) | Tail(d)
  }

  function Join5(a: bv8, b: bv8, c: bv8, d: bv8, e: bv8): bv32 {
    (((a & 0x03) as bv32) << 24) | (Tail(b) << 18) | (Tail(c) << 12) | (Tail(d) << 6) | Tail(e)
  }

  function Join6(a: bv8, b: bv8, c: bv8, d: bv8, e: bv8, f: bv8): bv32 {
    (((a & 0x01) as bv32) << 30) | (Tail(b) << 24) | (Tail(c) << 18) | (Tail(d) << 12) | (Tail(e) << 6) | Tail(f)
  }

  /** `utf8_to_wchar` */
  function FromUtf8(s: seq<bv8>): (c: Char)
    requires s != []
    ensures c.Char? ==> 0 < c.used <= |s|
  {
    var n := Class(s[0]);
    if n == 0 || |s| < n then NoChar
    else
      Char(match n
           case 1 => Join1(s[0])
           case 2 => Join2(s[0], s[1])
           case 3 => Join3(s[0], s[1], s[2])
           case 4 => Join4(s[0], s[1], s[2], s[3])
           case 5 => Join5(s[0], s[1], s[2], s[3], s[4])
           case _ => assert n == 6; Join6(s[0], s[1], s[2], s[3], s[4], s[5]),
           n)
  }

  predicate InPlane0(wc: bv32) {
    wc <= 0xffff
  }

  function HighOf(wc: bv32): bv16 {
    Low16(0xd800 | (((wc - 0x10000) >> 10) & 0x3ff))
  }

  function LowOf(wc: bv32): bv16 {
    Low16(0xdc00 | ((wc - 0x10000) & 0x3ff))
  }

  /** `wchar_to_utf16` */
  function ToUtf16(wc: bv32): (s: seq<bv16>)
    ensures 0 < |s|
  {
    if InPlane0(wc) then [Low16(wc)] else [HighOf(wc), LowOf(wc)]
  }

  predicate InRange(wc: bv32) {
    wc <= 0x10ffff
  }

  function Wide(u: bv16): bv32 {
    u as bv32
  }

  // ----- the encodings as RFC 3629 and RFC 2781 give them, in numbers

  /** UTF-8: six bits to a following byte, the rest in the first. */
  function Utf8Bytes(wc: bv32): seq<bv32> {
    if wc < 0x80 then [wc]
    else if wc < 0x800 then [0xc0 + wc / 64, 0x80 + wc % 64]
    else if wc < 0x1_0000 then [0xe0 + wc / 4096, 0x80 + wc / 64 % 64, 0x80 + wc % 64]
    else [0xf0 + wc / 262144, 0x80 + wc / 4096 % 64, 0x80 + wc / 64 % 64, 0x80 + wc % 64]
  }

  function Wide8(b: bv8): bv32 {
    b as bv32
  }

  lemma Utf8Is(wc: bv32, i: nat)
    requires InRange(wc)
    ensures |ToUtf8(wc)| == |Utf8Bytes(wc)|
    ensures i < |ToUtf8(wc)| ==> Wide8(ToUtf8(wc)[i]) == Utf8Bytes(wc)[i]
  {
    hide Lead, Last, LastButOne, LastButTwo, Wide8;
    LeadIs(wc);
    LastIs(wc);
    LastButOneIs(wc);
    LastButTwoIs(wc);
  }

  lemma LeadIs(wc: bv32)
    requires InRange(wc)
    ensures Wide8(Lead(wc)) == if wc < 0x80 then wc else if wc < 0x800 then 0xc0 + wc / 64
                                else if wc < 0x1_0000 then 0xe0 + wc / 4096 else 0xf0 + wc / 262144
  {
  }

  lemma LastIs(wc: bv32)
    ensures Wide8(Last(wc)) == 0x80 + wc % 64
  {
  }

  lemma LastButOneIs(wc: bv32)
    ensures Wide8(LastButOne(wc)) == 0x80 + wc / 64 % 64
  {
  }

  lemma LastButTwoIs(wc: bv32)
    ensures Wide8(LastButTwo(wc)) == 0x80 + wc / 4096 % 64
  {
  }

  /** How many bytes there are, by the range of the first byte. */
  function Length(b: bv8): nat {
    if b < 0x80 then 1 else if b < 0xc0 then 0 else if b < 0xe0 then 2 else if b < 0xf0 then 3
    else if b < 0xf8 then 4 else if b < 0xfc then 5 else if b < 0xfe then 6 else 0
  }

  /** What the first byte contributes: its distance from the first byte of its range. */
  function First(b: bv8): bv32 {
    Wide8(if b < 0x80 then b else if b < 0xe0 then b - 0xc0 else if b < 0xf0 then b - 0xe0
          else if b < 0xf8 then b - 0xf0 else if b < 0xfc then b - 0xf8 else b - 0xfc)
  }

  lemma ClassIs(b: bv8)
    ensures Class(b) == Length(b) <= 6
  {
  }

  /** `v` with six bits more from every byte. */
  function Added(v: bv32, s: seq<bv8>): bv32 {
    if s == [] then v else More(Added(v, s[..|s| - 1]), s[|s| - 1])
  }

  function More(v: bv32, b: bv8): bv32 {
    64 * v + (b as bv32) % 64
  }

  /** Reading takes the length from the range of the first byte, the older five and six included, and adds up; the two
      highest bits of the bytes that follow are not looked at. */
  lemma FromUtf8Is(s: seq<bv8>)
    requires s != []
    ensures var n := Length(s[0]);
            if n == 0 || |s| < n then FromUtf8(s) == NoChar
            else FromUtf8(s) == Char(Added(First(s[0]), s[1..n]), n)
  {
    hide Class, Length, First, Join1, Join2, Join3, Join4, Join5, Join6, Added;
    var n := Class(s[0]);
    ClassIs(s[0]);
    if 0 < n <= |s| {
      match n
      case 1 => Join1Is(s);
      case 2 => Join2Is(s);
      case 3 => Join3Is(s);
      case 4 => Join4Is(s);
      case 5 => Join5Is(s);
      case 6 => Join6Is(s);
    }
  }

  lemma AddedMore(v: bv32, s: seq<bv8>, n: nat)
    requires 1 <= n < |s|
    ensures Added(v, s[1..n + 1]) == More(Added(v, s[1..n]), s[n])
    ensures Added(v, s[1..1]) == v
  {
    hide More;
    assert s[1..n + 1][..n - 1] == s[1..n];
  }

  lemma Join1Is(s: seq<bv8>)
    requires 1 <= |s| && Length(s[0]) == 1
    ensures Join1(s[0]) == Added(First(s[0]), s[1..1])
  {
  }

  lemma Join2Is(s: seq<bv8>)
    requires 2 <= |s| && Length(s[0]) == 2
    ensures Join2(s[0], s[1]) == Added(First(s[0]), s[1..2])
  {
    hide Added, More, First, Join2;
    AddedMore(First(s[0]), s, 1);
    Join2Sum(s[0], s[1]);
  }

  lemma Join2Sum(a: bv8, b: bv8)
    requires Length(a) == 2
    ensures Join2(a, b) == More(First(a), b)
  {
  }

  lemma Join3Is(s: seq<bv8>)
    requires 3 <= |s| && Length(s[0]) == 3
    ensures Join3(s[0], s[1], s[2]) == Added(First(s[0]), s[1..3])
  {
    hide Added, More, First, Join3;
    AddedMore(First(s[0]), s, 1);
    AddedMore(First(s[0]), s, 2);
    Join3Sum(s[0], s[1], s[2]);
  }

  lemma Join3Sum(a: bv8, b: bv8, c: bv8)
    requires Length(a) == 3
    ensures Join3(a, b, c) == More(More(First(a), b), c)
  {
  }

  lemma Join4Is(s: seq<bv8>)
    requires 4 <= |s| && Length(s[0]) == 4
    ensures Join4(s[0], s[1], s[2], s[3]) == Added(First(s[0]), s[1..4])
  {
    hide Added, More, First, Join4;
    AddedMore(First(s[0]), s, 1);
    AddedMore(First(s[0]), s, 2);
    AddedMore(First(s[0]), s, 3);
    Join4Sum(s[0], s[1], s[2], s[3]);
  }

  lemma Join4Sum(a: bv8, b: bv8, c: bv8, d: bv8)
    requires Length(a) == 4
    ensures Join4(a, b, c, d) == More(More(More(First(a), b), c), d)
  {
  }

  lemma Join5Is(s: seq<bv8>)
    requires 5 <= |s| && Length(s[0]) == 5
    ensures Join5(s[0], s[1], s[2], s[3], s[4]) == Added(First(s[0]), s[1..5])
  {
    hide Added, More, First, Join5;
    AddedMore(First(s[0]), s, 1);
    AddedMore(First(s[0]), s, 2);
    AddedMore(First(s[0]), s, 3);
    AddedMore(First(s[0]), s, 4);
    Join5Sum(s[0], s[1], s[2], s[3], s[4]);
  }

  lemma Join5Sum(a: bv8, b: bv8, c: bv8, d: bv8, e: bv8)
    requires Length(a) == 5
    ensures Join5(a, b, c, d, e) == More(More(More(More(First(a), b), c), d), e)
  {
  }

  lemma Join6Is(s: seq<bv8>)
    requires 6 <= |s| && Length(s[0]) == 6
    ensures Join6(s[0], s[1], s[2], s[3], s[4], s[5]) == Added(First(s[0]), s[1..6])
  {
    hide Added, More, First, Join6;
    AddedMore(First(s[0]), s, 1);
    AddedMore(First(s[0]), s, 2);
    AddedMore(First(s[0]), s, 3);
    AddedMore(First(s[0]), s, 4);
    AddedMore(First(s[0]), s, 5);
    Join6Sum(s[0], s[1], s[2], s[3], s[4], s[5]);
  }

  lemma Join6Sum(a: bv8, b: bv8, c: bv8, d: bv8, e: bv8, f: bv8)
    requires Length(a) == 6
    ensures Join6(a, b, c, d, e, f) == More(More(More(More(More(First(a), b), c), d), e), f)
  {
  }

  /** UTF-16: ten bits to each unit of a pair, and a unit for every other character. */
  lemma Utf16Is(wc: bv32)
    requires InRange(wc)
    ensures var s := ToUtf16(wc);
            if wc < 0x1_0000 then |s| == 1 && Wide(s[0]) == wc
            else && |s| == 2 && Wide(s[0]) == 0xd800 + (wc - 0x1_0000) / 1024
                 && Wide(s[1]) == 0xdc00 + (wc - 0x1_0000) % 1024
  {
    hide HighOf, LowOf, Low16, Wide;
    UnitsAre(wc);
  }

  lemma UnitsAre(wc: bv32)
    requires InRange(wc)
    ensures wc < 0x1_0000 ==> Wide(Low16(wc)) == wc
    ensures 0x1_0000 <= wc ==> Wide(HighOf(wc)) == 0xd800 + (wc - 0x1_0000) / 1024
    ensures 0x1_0000 <= wc ==> Wide(LowOf(wc)) == 0xdc00 + (wc - 0x1_0000) % 1024
  {
  }

  lemma FromUtf16Is(s: seq<bv16>)
    requires s != []
    ensures FromUtf16(s) ==
              if 0xd800 <= s[0] < 0xdc00 then
                if 2 <= |s| && 0xdc00 <= s[1] < 0xe000 then
                  Char(0x1_0000 + 1024 * (s[0] as bv32 - 0xd800) + (s[1] as bv32 - 0xdc00), 2)
                else NoChar
              else Char(s[0] as bv32, 1)
  {
  }

  /** A character read from UTF-16 is in range and is written back as the same units. */
  lemma Utf16Back(s: seq<bv16>)
    requires s != [] && FromUtf16(s).Char?
    ensures InRange(FromUtf16(s).wc)
    ensures ToUtf16(FromUtf16(s).wc) == s[..FromUtf16(s).used]
    ensures s[0] != 0 ==> FromUtf16(s).wc != 0
  {
    hide IsHigh, IsLow, Pair, HighOf, LowOf, InPlane0, Low16, Wide, InRange;
    if IsHigh(s[0]) {
      PairBack(s[0], s[1]);
      assert s[..2] == [s[0], s[1]];
    } else {
      UnitBack(s[0]);
      assert s[..1] == [s[0]];
    }
  }

  lemma PairBack(hi: bv16, lo: bv16)
    requires IsHigh(hi) && IsLow(lo)
    ensures !InPlane0(Pair(hi, lo)) && InRange(Pair(hi, lo)) && Pair(hi, lo) != 0
    ensures HighOf(Pair(hi, lo)) == hi && LowOf(Pair(hi, lo)) == lo
  {
  }

  lemma UnitBack(u: bv16)
    ensures InPlane0(Wide(u)) && InRange(Wide(u)) && Low16(Wide(u)) == u
    ensures u != 0 ==> Wide(u) != 0
  {
  }

  /** A character written to UTF-8 is read back, whatever follows. */
  lemma Utf8Back(wc: bv32, rest: seq<bv8>)
    requires InRange(wc)
    ensures FromUtf8(ToUtf8(wc) + rest) == Char(wc, |ToUtf8(wc)|)
    ensures wc != 0 ==> ToUtf8(wc)[0] != 0
  {
    hide Width, Lead, Last, LastButOne, LastButTwo, Class, Join1, Join2, Join3, Join4, Join5, Join6, InRange;
    Led(wc);
    Joined(wc);
  }

  /** The first byte tells the width. */
  lemma Led(wc: bv32)
    requires InRange(wc)
    ensures Class(Lead(wc)) == Width(wc)
    ensures wc != 0 ==> Lead(wc) != 0
  {
  }

  lemma Joined1(wc: bv32)
    requires wc <= 0x7f
    ensures Join1(Lead(wc)) == wc
  {
  }

  lemma Joined2(wc: bv32)
    requires 0x7f < wc <= 0x7ff
    ensures Join2(Lead(wc), Last(wc)) == wc
  {
  }

  lemma Joined3(wc: bv32)
    requires 0x7ff < wc <= 0xffff
    ensures Join3(Lead(wc), LastButOne(wc), Last(wc)) == wc
  {
  }

  lemma Joined4(wc: bv32)
    requires 0xffff < wc && InRange(wc)
    ensures Join4(Lead(wc), LastButTwo(wc), LastButOne(wc), Last(wc)) == wc
  {
  }

  lemma Joined(wc: bv32)
    requires InRange(wc)
    ensures Width(wc) == 1 ==> Join1(Lead(wc)) == wc
    ensures Width(wc) == 2 ==> Join2(Lead(wc), Last(wc)) == wc
    ensures Width(wc) == 3 ==> Join3(Lead(wc), LastButOne(wc), Last(wc)) == wc
    ensures Width(wc) == 4 ==> Join4(Lead(wc), LastButTwo(wc), LastButOne(wc), Last(wc)) == wc
  {
    hide Lead, Last, LastButOne, LastButTwo, Join1, Join2, Join3, Join4;
    if wc <= 0x7f {
      Joined1(wc);
    } else if wc <= 0x7ff {
      Joined2(wc);
    } else if wc <= 0xffff {
      Joined3(wc);
    } else {
      Joined4(wc);
    }
  }

  // ----- whole names

  /** The units of a name: those before the first zero. */
  function Name(s: seq<bv16>): seq<bv16> {
    if s == [] || s[0] == 0 then [] else [s[0]] + Name(s[1..])
  }

  /** What is written already, followed by what is still to come. */
  function Prepend<T>(done: seq<T>, r: Text<T>): Text<T> {
    Text(done + r.units, r.legal)
  }

  lemma PrependMore<T>(done: seq<T>, more: seq<T>, r: Text<T>)
    ensures Prepend(done, Prepend(more, r)) == Prepend(done + more, r)
  {
    assert done + (more + r.units) == done + more + r.units;
  }

  lemma PrependNothing<T>(done: seq<T>, r: Text<T>)
    ensures Prepend([], r) == r && Prepend(done, Text([], true)) == Text(done, true)
  {
    assert done + [] == done && [] + r.units == r.units;
  }

  /** What a name is in UTF-8, as far as it is legal. */
  function Encode(s: seq<bv16>): Text<bv8>
    decreases |s|
  {
    if s == [] || s[0] == 0 then Text([], true)
    else
      var c := FromUtf16(s);
      if c.NoChar? then Text([], false)
      else
        Utf16Back(s);
        Prepend(ToUtf8(c.wc), Encode(s[c.used..]))
  }

  /** What a name is in UTF-16, as far as it is legal. */
  function Decode(s: seq<bv8>): Text<bv16>
    decreases |s|
  {
    if s == [] || s[0] == 0 then Text([], true)
    else
      var c := FromUtf8(s);
      if c.NoChar? then Text([], false) else Prepend(ToUtf16(c.wc), Decode(s[c.used..]))
  }

  /** A legal UTF-16 name comes back unchanged, whatever follows the zero behind its encoding. */
  lemma {:induction false} RoundTrip(s: seq<bv16>, after: seq<bv8>)
    requires Encode(s).legal && (after == [] || after[0] == 0)
    ensures Decode(Encode(s).units + after) == Text(Name(s), true)
    decreases |s|
  {
    hide FromUtf16, ToUtf16, FromUtf8, ToUtf8, InRange, Width;
    if s != [] && s[0] != 0 {
      var c := FromUtf16(s);
      Utf16Back(s);
      var rest := s[c.used..];
      RoundTrip(rest, after);
      var t := Encode(rest).units + after;
      Utf8Back(c.wc, t);
      assert Encode(s).units + after == ToUtf8(c.wc) + t;
      assert (ToUtf8(c.wc) + t)[|ToUtf8(c.wc)|..] == t;
      NameSplit(s);
    } else {
      assert Encode(s).units + after == after;
    }
  }

  lemma NameSplit(s: seq<bv16>)
    requires s != [] && s[0] != 0 && FromUtf16(s).Char?
    ensures Name(s) == s[..FromUtf16(s).used] + Name(s[FromUtf16(s).used..])
  {
    hide IsHigh, Pair, Wide;
    if IsHigh(s[0]) {
      LowIsUnit(s[1]);
      assert s[1..][0] == s[1] && s[1..][1..] == s[2..];
      assert s[..2] == [s[0]] + [s[1]];
    } else {
      assert s[..1] == [s[0]];
    }
  }

  lemma LowIsUnit(u: bv16)
    requires IsLow(u)
    ensures u != 0
  {
  }

  lemma EncodeStep(s: seq<bv16>)
    requires s != [] && s[0] != 0
    ensures FromUtf16(s).NoChar? ==> Encode(s) == Text([], false)
    ensures FromUtf16(s).Char? ==>
              InRange(FromUtf16(s).wc) && Encode(s) == Prepend(ToUtf8(FromUtf16(s).wc), Encode(s[FromUtf16(s).used..]))
  {
    hide FromUtf16, ToUtf8, InRange;
    if FromUtf16(s).Char? {
      Utf16Back(s);
    }
  }

  lemma DecodeStep(s: seq<bv8>)
    requires s != [] && s[0] != 0
    ensures FromUtf8(s).NoChar? ==> Decode(s) == Text([], false)
    ensures FromUtf8(s).Char? ==> Decode(s) == Prepend(ToUtf16(FromUtf8(s).wc), Decode(s[FromUtf8(s).used..]))
  {
    hide FromUtf8, ToUtf16;
  }

  // ----- whole names

  /** The text and a zero behind it. */
  predicate Terminated<T(==)>(cells: seq<T>, text: seq<T>, zero: T) {
    |text| < |cells| && cells[..|text|] == text && cells[|text|] == zero
  }

  method Put<T>(output: array<T>, at: nat, units: seq<T>)
    requires at + |units| <= output.Length
    modifies output
    ensures output[..at] == old(output[..at]) && output[at..at + |units|] == units
    ensures forall i :: at + |units| <= i < output.Length ==> output[i] == old(output[i])
  {
    var k := 0;
    while k < |units|
      invariant 0 <= k <= |units|
      invariant output[..at] == old(output[..at]) && output[at..at + k] == units[..k]
      invariant forall i :: at + k <= i < output.Length ==> output[i] == old(output[i])
    {
      output[at + k] := units[k];
      k := k + 1;
    }
  }

  lemma PutBehind<T>(cells: seq<T>, at: nat, a: seq<T>, b: seq<T>)
    requires at + |b| <= |cells| && cells[..at] == a && cells[at..at + |b|] == b
    ensures cells[..at + |b|] == a + b
  {
  }

  /** `utf16_to_utf8`: one cell behind the room is written, with the zero, exactly if the text fills the room. */
  method Utf16ToUtf8(output: array<bv8>, input: seq<bv16>, outsize: nat) returns (rc: Status)
    requires outsize < output.Length
    modifies output
    ensures rc == Encode(input).Within(outsize)
    ensures rc.Ok? ==> Terminated(output[..], Encode(input).units, 0)
    ensures !(rc.Ok? && |Encode(input).units| == outsize) ==> output[outsize] == old(output[outsize])
    ensures forall i :: outsize < i < output.Length ==> output[i] == old(output[i])
  {
    hide FromUtf16, ToUtf8, Encode, InRange;
    var inp, outp := 0, 0;
    ghost var out := [];
    PrependNothing(out, Encode(input));
    assert input[0..] == input;
    while inp < |input| && input[inp] != 0
      invariant 0 <= inp <= |input| && outp == |out| <= outsize && output[..outp] == out
      invariant Encode(input) == Prepend(out, Encode(input[inp..]))
      invariant forall i :: outsize <= i < output.Length ==> output[i] == old(output[i])
    {
      EncodeStep(input[inp..]);
      var c := FromUtf16(input[inp..]);
      if c.NoChar? {
        return Illegal;
      }
      var bytes := ToUtf8(c.wc);
      PrependMore(out, bytes, Encode(input[inp..][c.used..]));
      assert input[inp..][c.used..] == input[inp + c.used..];
      if outsize - outp < |bytes| {
        return TooLong;
      }
      Put(output, outp, bytes);
      PutBehind(output[..], outp, out, bytes);
      inp, outp, out := inp + c.used, outp + |bytes|, out + bytes;
    }
    EncodeEnd(input[inp..]);
    PrependNothing(out, Encode(input));
    output[outp] := 0;
    rc := Ok;
  }

  lemma EncodeEnd(s: seq<bv16>)
    ensures s == [] || s[0] == 0 ==> Encode(s) == Text([], true)
  {
  }

  /** `utf8_to_utf16` */
  method Utf8ToUtf16(output: array<bv16>, input: seq<bv8>, outsize: nat) returns (rc: Status)
    requires outsize < output.Length
    modifies output
    ensures rc == Decode(input).Within(outsize)
    ensures rc.Ok? ==> Terminated(output[..], Decode(input).units, 0)
    ensures !(rc.Ok? && |Decode(input).units| == outsize) ==> output[outsize] == old(output[outsize])
    ensures forall i :: outsize < i < output.Length ==> output[i] == old(output[i])
  {
    hide FromUtf8, ToUtf16, Decode;
    var inp, outp := 0, 0;
    ghost var out := [];
    PrependNothing(out, Decode(input));
    assert input[0..] == input;
    while inp < |input| && input[inp] != 0
      invariant 0 <= inp <= |input| && outp == |out| <= outsize && output[..outp] == out
      invariant Decode(input) == Prepend(out, Decode(input[inp..]))
      invariant forall i :: outsize <= i < output.Length ==> output[i] == old(output[i])
    {
      DecodeStep(input[inp..]);
      var c := FromUtf8(input[inp..]);
      if c.NoChar? {
        return Illegal;
      }
      var units := ToUtf16(c.wc);
      PrependMore(out, units, Decode(input[inp..][c.used..]));
      assert input[inp..][c.used..] == input[inp + c.used..];
      if outsize - outp < |units| {
        return TooLong;
      }
      Put(output, outp, units);
      PutBehind(output[..], outp, out, units);
      inp, outp, out := inp + c.used, outp + |units|, out + units;
    }
    DecodeEnd(input[inp..]);
    PrependNothing(out, Decode(input));
    output[outp] := 0;
    rc := Ok;
  }

  lemma DecodeEnd(s: seq<bv8>)
    ensures s == [] || s[0] == 0 ==> Decode(s) == Text([], true)
  {
  }

  /** A name converted into a buffer, and the buffer converted back, with its old contents behind the zero. */
  method ThereAndBack(input: seq<bv16>, buffer: array<bv8>, back: array<bv16>) returns (rc: Status)
    requires 0 < buffer.Length && |Name(input)| < back.Length
    modifies buffer, back
    ensures rc.Ok? <==> Encode(input).legal && |Encode(input).units| < buffer.Length
    ensures rc.Ok? ==> Terminated(back[..], Name(input), 0)
  {
    hide Encode, Decode;
    rc := Utf16ToUtf8(buffer, input, buffer.Length - 1);
    if rc.Ok? {
      ghost var text := Encode(input).units;
      RoundTrip(input, buffer[|text|..]);
      assert buffer[..] == text + buffer[|text|..];
      rc := Utf8ToUtf16(back, buffer[..], back.Length - 1);
    }
  }
}
