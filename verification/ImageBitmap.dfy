/** src/partclone.c: the bitmap of used blocks as it is stored in an image. */
module ImageBitmap {
  import opened Sequences
  import opened Arithmetic
  import opened WordBitmap
  import BitSearch
  import Crc32

  // ----- the bytes a word is made of

  /** Byte `j` of a word in memory, lowest first. */
  function ByteOf(w: bv64, j: nat): byte
    requires j < 8
  {
    if j == 0 then (w & 0xff) as bv8
    else if j == 1 then ((w >> 8) & 0xff) as bv8
    else if j == 2 then ((w >> 16) & 0xff) as bv8
    else if j == 3 then ((w >> 24) & 0xff) as bv8
    else if j == 4 then ((w >> 32) & 0xff) as bv8
    else if j == 5 then ((w >> 40) & 0xff) as bv8
    else if j == 6 then ((w >> 48) & 0xff) as bv8
    else ((w >> 56) & 0xff) as bv8
  }

  /** The word made of eight bytes. */
  function Join(a: byte, b: byte, c: byte, d: byte, e: byte, f: byte, g: byte, h: byte): bv64 {
    (a as bv64) | ((b as bv64) << 8) | ((c as bv64) << 16) | ((d as bv64) << 24)
    | ((e as bv64) << 32) | ((f as bv64) << 40) | ((g as bv64) << 48) | ((h as bv64) << 56)
  }

  lemma JoinGet(a: byte, b: byte, c: byte, d: byte, e: byte, f: byte, g: byte, h: byte)
    ensures var w := Join(a, b, c, d, e, f, g, h);
            && ByteOf(w, 0) == a && ByteOf(w, 1) == b && ByteOf(w, 2) == c && ByteOf(w, 3) == d
            && ByteOf(w, 4) == e && ByteOf(w, 5) == f && ByteOf(w, 6) == g && ByteOf(w, 7) == h
  {
  }

  /** A bit is in its byte. */
  lemma SameByte(w: bv64, v: bv64, j: nat, p: bv6)
    requires j < 8 && ByteOf(w, j) == ByteOf(v, j) && 8 * j <= p as int < 8 * j + 8
    ensures Meets(w, (1 as bv64) << p) == Meets(v, (1 as bv64) << p)
  {
  }

  lemma SameBit(w: bv64, v: bv64, i: nat)
    requires i < 64 && ByteOf(w, i / 8) == ByteOf(v, i / 8)
    ensures Bit(w, i) == Bit(v, i)
  {
    hide ByteOf, Meets, Position;
    SameByte(w, v, i / 8, Position(i));
  }

  /** A bit of a word is one of its byte. */
  lemma BitInByte(w: bv64, j: nat, p: bv6, k: nat)
    requires j < 8 && k < 8 && p as int == 8 * j + k
    ensures Meets(w, (1 as bv64) << p) == BitSearch.Bit(ByteOf(w, j), k)
  {
    BitSearch.Masks();
  }

  /** The words as they lie in memory. */
  ghost function Memory(words: seq<bv64>): (s: seq<byte>)
    ensures |s| == 8 * |words|
    ensures forall x :: 0 <= x < |s| ==> s[x] == ByteOf(words[x / 8], x % 8)
  {
    seq(8 * |words|, x requires 0 <= x < 8 * |words| => ByteOf(words[x / 8], x % 8))
  }

  /** `pc_BITS_TO_BYTES`, where it does not overflow. */
  function BitsToBytes(bits: nat): nat {
    (bits + 7) / 8
  }

  /** Words that agree in their first bytes agree in their first bits. */
  lemma SameFlags(words: seq<bv64>, words': seq<bv64>, total: nat)
    requires total <= 64 * |words| && total <= 64 * |words'|
    requires Memory(words)[..BitsToBytes(total)] == Memory(words')[..BitsToBytes(total)]
    ensures Flags(words)[..total] == Flags(words')[..total]
  {
    hide Bit, ByteOf;
    var m, m' := Memory(words), Memory(words');
    forall i | 0 <= i < total
      ensures Flags(words)[i] == Flags(words')[i]
    {
      var n := BitsToBytes(total);
      assert m[..n][i / 8] == m[i / 8] && m'[..n][i / 8] == m'[i / 8];
      assert i / 8 / 8 == i / 64 && i / 8 % 8 == i % 64 / 8;
      SameBit(words[i / 64], words'[i / 64], i % 64);
    }
  }

  // ----- writing and loading

  /** A byte of the word in memory after `data` has been copied over it. */
  function Laid(data: seq<byte>, w: bv64, base: nat, k: nat): byte
    requires k < 8
  {
    if base + k < |data| then data[base + k] else ByteOf(w, k)
  }

  /** Copies bytes over the words. */
  method Lay(data: seq<byte>, bitmap: array<bv64>)
    requires |data| <= 8 * bitmap.Length
    modifies bitmap
    ensures Memory(bitmap[..])[..|data|] == data
  {
    hide ByteOf, Join, Memory;
    var i := 0;
    while i < bitmap.Length
      invariant 0 <= i <= bitmap.Length
      invariant forall j, k :: 0 <= j < i && 0 <= k < 8 && 8 * j + k < |data| ==>
                ByteOf(bitmap[j], k) == data[8 * j + k]
    {
      var w, n := bitmap[i], 8 * i;
      JoinGet(Laid(data, w, n, 0), Laid(data, w, n, 1), Laid(data, w, n, 2), Laid(data, w, n, 3),
              Laid(data, w, n, 4), Laid(data, w, n, 5), Laid(data, w, n, 6), Laid(data, w, n, 7));
      bitmap[i] := Join(Laid(data, w, n, 0), Laid(data, w, n, 1), Laid(data, w, n, 2), Laid(data, w, n, 3),
                        Laid(data, w, n, 4), Laid(data, w, n, 5), Laid(data, w, n, 6), Laid(data, w, n, 7));
      i := i + 1;
    }
    LaidDown(data, bitmap[..]);
  }

  lemma LaidDown(data: seq<byte>, words: seq<bv64>)
    requires |data| <= 8 * |words|
    requires forall j, k :: 0 <= j < |words| && 0 <= k < 8 && 8 * j + k < |data| ==>
              ByteOf(words[j], k) == data[8 * j + k]
    ensures Memory(words)[..|data|] == data
  {
    hide ByteOf;
    forall x | 0 <= x < |data|
      ensures Memory(words)[x] == data[x]
    {
      assert 8 * (x / 8) + x % 8 == x;
    }
  }

  /** What `write_image_bitmap` stores, one bit per block: the words' bytes and their checksum. */
  ghost function Stored(words: seq<bv64>, total: nat): seq<byte>
    requires total <= 64 * |words|
  {
    var data := Memory(words)[..BitsToBytes(total)];
    data + Crc32.Digest(data)
  }

  /** In the stored bitmap block `i` is binary digit `i % 8` of byte `i / 8`. */
  lemma StoredDigit(words: seq<bv64>, total: nat, i: nat)
    requires i < total <= 64 * |words|
    ensures i / 8 < |Stored(words, total)|
    ensures Flags(words)[i] <==> Digit(Stored(words, total)[i / 8] as nat, i % 8)
  {
    hide ByteOf, Meets, Position, BitSearch.Bit, Digit, Crc32.Digest;
    var w := words[i / 64];
    assert i / 8 / 8 == i / 64 && i / 8 % 8 == i % 64 / 8 && i % 64 % 8 == i % 8;
    BitInByte(w, i % 64 / 8, Position(i % 64), i % 8);
    BitSearch.BitIsDigit(ByteOf(w, i % 64 / 8), i % 8);
    assert Stored(words, total)[i / 8] == Memory(words)[i / 8];
  }

  /** `write_image_bitmap` */
  method Write(bitmap: array<bv64>, total: nat) returns (out: seq<byte>)
    requires total <= 64 * bitmap.Length
    ensures out == Stored(bitmap[..], total)
  {
    hide ByteOf, Crc32.Digest;
    var n := BitsToBytes(total);
    out := [];
    var x := 0;
    while x < n
      invariant 0 <= x <= n && out == Memory(bitmap[..])[..x]
    {
      out := out + [ByteOf(bitmap[x / 8], x % 8)];
      x := x + 1;
    }
    out := out + Crc32.Digest(out);
  }

  /** `load_image_bitmap_bits`: whatever is accepted carries its own checksum. */
  method Load(stream: seq<byte>, total: nat, bitmap: array<bv64>) returns (ok: bool)
    requires total <= 64 * bitmap.Length
    modifies bitmap
    ensures var n := BitsToBytes(total);
            && (ok <==> n + 4 <= |stream| && Crc32.Digest(stream[..n]) == stream[n..n + 4])
            && (ok ==> Memory(bitmap[..])[..n] == stream[..n])
  {
    hide Memory, Crc32.Digest;
    var n := BitsToBytes(total);
    if |stream| < n + 4 {
      return false;
    }
    Lay(stream[..n], bitmap);
    ok := Crc32.Digest(stream[..n]) == stream[n..n + 4];
  }

  /** A stored bitmap is loaded as it was. */
  lemma LoadedIsStored(words: seq<bv64>, total: nat, rest: seq<byte>)
    requires total <= 64 * |words|
    ensures var n, s := BitsToBytes(total), Stored(words, total) + rest;
            && n + 4 <= |s| && s[..n] == Memory(words)[..n] && Crc32.Digest(s[..n]) == s[n..n + 4] && s[n + 4..] == rest
  {
    hide Memory, Crc32.Digest;
  }

  /** Up to four changed neighbouring bytes, of the bitmap or of its checksum, are noticed. */
  lemma DamageNoticed(words: seq<bv64>, total: nat, t: seq<byte>, x: nat)
    requires total <= 64 * |words| && Crc32.Within(Stored(words, total), t, x) && t != Stored(words, total)
    ensures var n := BitsToBytes(total);
            |t| == n + 4 && Crc32.Digest(t[..n]) != t[n..n + 4]
  {
    hide Memory, Crc32.Digest;
    var s := Stored(words, total);
    assert Crc32.Sealed(s);
    Crc32.SealedOnce(s, t, x);
    assert t[BitsToBytes(total)..] == t[BitsToBytes(total)..BitsToBytes(total) + 4];
  }
}
