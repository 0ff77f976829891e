/** src/partclone.c: the description at the head of an image of version 0002. */
module ImageHeader {
  import opened Arithmetic
  import opened Sequences
  import ImageLayout
  import Crc32

  // ----- numbers and fields

  /** The number that bytes in memory stand for, lowest first. */
  function Number(s: seq<byte>): nat {
    if s == [] then 0 else s[0] as nat + 256 * Number(s[1..])
  }

  /** Fields of the given widths, one after the other. */
  ghost predicate Fielded(fields: seq<seq<byte>>, widths: seq<nat>) {
    |fields| == |widths| && forall i :: 0 <= i < |fields| ==> |fields[i]| == widths[i]
  }

  function Total(widths: seq<nat>): nat {
    if widths == [] then 0 else Total(widths[..|widths| - 1]) + widths[|widths| - 1]
  }

  function Split(s: seq<byte>, widths: seq<nat>): (fields: seq<seq<byte>>)
    requires |s| == Total(widths)
    ensures Fielded(fields, widths)
    decreases |widths|
  {
    if widths == [] then []
    else
      var n := |s| - widths[|widths| - 1];
      Split(s[..n], widths[..|widths| - 1]) + [s[n..]]
  }

  lemma {:induction false} SplitFlat(fields: seq<seq<byte>>, widths: seq<nat>)
    requires Fielded(fields, widths)
    ensures |ImageLayout.Flat(fields)| == Total(widths) && Split(ImageLayout.Flat(fields), widths) == fields
    decreases |widths|
  {
    if widths != [] {
      var k := |widths| - 1;
      SplitFlat(fields[..k], widths[..k]);
      var a := ImageLayout.Flat(fields[..k]);
      assert (a + fields[k])[..|a|] == a && (a + fields[k])[|a|..] == fields[k];
      assert fields == fields[..k] + [fields[k]];
    }
  }

  lemma {:induction false} FlatSplit(s: seq<byte>, widths: seq<nat>)
    requires |s| == Total(widths)
    ensures ImageLayout.Flat(Split(s, widths)) == s
    decreases |widths|
  {
    if widths != [] {
      var k, n := |widths| - 1, |s| - widths[|widths| - 1];
      FlatSplit(s[..n], widths[..k]);
      var fields := Split(s, widths);
      assert fields[..k] == Split(s[..n], widths[..k]) && fields[k] == s[n..];
    }
  }

  lemma TotalStep(widths: seq<nat>, k: nat)
    requires k < |widths|
    ensures Total(widths[..k + 1]) == Total(widths[..k]) + widths[k]
  {
    assert widths[..k + 1][..k] == widths[..k];
  }

  /** Where a field is. */
  lemma {:induction false} FieldAt(s: seq<byte>, widths: seq<nat>, k: nat)
    requires |s| == Total(widths) && k < |widths|
    ensures Total(widths[..k]) + widths[k] <= |s|
    ensures Split(s, widths)[k] == s[Total(widths[..k])..Total(widths[..k]) + widths[k]]
    decreases |widths|
  {
    var last, n := |widths| - 1, |s| - widths[|widths| - 1];
    assert Split(s, widths) == Split(s[..n], widths[..last]) + [s[n..]];
    if k < last {
      FieldAt(s[..n], widths[..last], k);
      assert widths[..last][..k] == widths[..k];
      SliceOfSlice(s, 0, n, Total(widths[..k]), Total(widths[..k]) + widths[k]);
      assert s[0..n] == s[..n];
    } else {
      assert s[n..] == s[n..n + widths[k]];
    }
  }

  // ----- the description

  /** The fields of `image_head_v2`, `file_system_info_v2` and `image_options_v2`, as they are in memory. */
  datatype Desc = Desc(magic: seq<byte>, magicEnd: seq<byte>, program: seq<byte>, version: seq<byte>,
                       endianess: seq<byte>, fs: seq<byte>, deviceSize: seq<byte>, totalBlocks: seq<byte>,
                       superUsed: seq<byte>, usedBlocks: seq<byte>, blockSize: seq<byte>, featureSize: seq<byte>,
                       imageVersion: seq<byte>, cpuBits: seq<byte>, mode: seq<byte>, csSize: seq<byte>,
                       perCs: seq<byte>, reseed: seq<byte>, bitmapMode: seq<byte>)
  {
    /** The `memcpy` of the description. */
    function Fields(): seq<seq<byte>> {
      [magic, magicEnd, program, version, endianess, fs, deviceSize, totalBlocks, superUsed, usedBlocks, blockSize,
       featureSize, imageVersion, cpuBits, mode, csSize, perCs, reseed, bitmapMode]
    }

    ghost predicate Valid() {
      Fielded(Fields(), WIDTHS)
    }

    /** One bit per block, followed by a checksum: the bitmaps of `ImageBitmap`. */
    predicate HasBits() {
      Number(bitmapMode) == BM_BIT && Number(imageVersion) == 2
    }

    /** The format of the data area. */
    function Format(digest: seq<byte> -> seq<byte>): ImageLayout.Format {
      ImageLayout.Format(Number(blockSize), Number(csSize), Number(perCs), Number(reseed) != 0, digest)
    }
  }

  function OfFields(f: seq<seq<byte>>): Desc
    requires |f| == 19
  {
    Desc(f[0], f[1], f[2], f[3], f[4], f[5], f[6], f[7], f[8], f[9], f[10], f[11], f[12], f[13], f[14], f[15], f[16],
         f[17], f[18])
  }

  const WIDTHS: seq<nat> := [15, 1, 14, 4, 2, 16, 8, 8, 8, 8, 4, 4, 2, 2, 2, 2, 4, 1, 1]
  const OFFSETS: seq<nat> := [0, 15, 16, 30, 34, 36, 52, 60, 68, 76, 84, 88, 92, 94, 96, 98, 100, 104, 105, 106]
  const VERSION_AT: nat := 30
  const CRC_AT: nat := 106
  const SIZE: nat := 110

  lemma NextOffset(k: nat)
    requires k < 19
    ensures OFFSETS[k + 1] == OFFSETS[k] + WIDTHS[k]
  {
  }

  lemma {:induction false} OffsetIs(k: nat)
    requires k <= 19
    ensures Total(WIDTHS[..k]) == OFFSETS[k]
  {
    if 0 < k {
      OffsetIs(k - 1);
      NextOffset(k - 1);
      TotalStep(WIDTHS, k - 1);
    }
  }

  lemma TotalIs()
    ensures Total(WIDTHS) == CRC_AT
  {
    OffsetIs(19);
    assert WIDTHS[..19] == WIDTHS;
  }

  /** The bytes of a description, and the description bytes stand for. */
  function Encode(d: Desc): seq<byte> {
    ImageLayout.Flat(d.Fields())
  }

  function Decode(s: seq<byte>): Desc
    requires |s| == CRC_AT
  {
    TotalIs();
    OfFields(Split(s, WIDTHS))
  }

  lemma DecodeEncode(d: Desc)
    requires d.Valid()
    ensures |Encode(d)| == CRC_AT && Decode(Encode(d)) == d
  {
    TotalIs();
    SplitFlat(d.Fields(), WIDTHS);
  }

  lemma EncodeDecode(s: seq<byte>)
    requires |s| == CRC_AT
    ensures Decode(s).Valid() && Encode(Decode(s)) == s
  {
    TotalIs();
    var f := Split(s, WIDTHS);
    FlatSplit(s, WIDTHS);
    assert Decode(s).Fields() == f;
  }

  /** Where a field of a description is in its bytes. */
  lemma FieldIn(d: Desc, k: nat)
    requires d.Valid() && k < 19
    ensures OFFSETS[k] + WIDTHS[k] == OFFSETS[k + 1] <= |Encode(d)|
    ensures Encode(d)[OFFSETS[k]..OFFSETS[k + 1]] == d.Fields()[k]
  {
    hide ImageLayout.Flat, Split, Total, Desc.Fields;
    TotalIs();
    SplitFlat(d.Fields(), WIDTHS);
    FieldAt(Encode(d), WIDTHS, k);
    OffsetIs(k);
    NextOffset(k);
  }

  /** The layout of a header, byte by byte: `image_head_v2`, `file_system_info_v2` and `image_options_v2`, packed. */
  lemma EncodedLayout(d: Desc)
    requires d.Valid()
    ensures var s := Encode(d);
            && |s| == 106
            && s[0..15] == d.magic && s[15..16] == d.magicEnd && s[16..30] == d.program && s[30..34] == d.version
            && s[34..36] == d.endianess && s[36..52] == d.fs && s[52..60] == d.deviceSize
            && s[60..68] == d.totalBlocks && s[68..76] == d.superUsed && s[76..84] == d.usedBlocks
            && s[84..88] == d.blockSize && s[88..92] == d.featureSize && s[92..94] == d.imageVersion
            && s[94..96] == d.cpuBits && s[96..98] == d.mode && s[98..100] == d.csSize && s[100..104] == d.perCs
            && s[104..105] == d.reseed && s[105..106] == d.bitmapMode
  {
    hide Encode, Desc.Valid, Fielded;
    DecodeEncode(d);
    FieldIn(d, 0);
    FieldIn(d, 1);
    FieldIn(d, 2);
    FieldIn(d, 3);
    FieldIn(d, 4);
    FieldIn(d, 5);
    FieldIn(d, 6);
    FieldIn(d, 7);
    FieldIn(d, 8);
    FieldIn(d, 9);
    FieldIn(d, 10);
    FieldIn(d, 11);
    FieldIn(d, 12);
    FieldIn(d, 13);
    FieldIn(d, 14);
    FieldIn(d, 15);
    FieldIn(d, 16);
    FieldIn(d, 17);
    FieldIn(d, 18);
  }

  /** And the fields that bytes are taken for. */
  lemma DecodedLayout(s: seq<byte>)
    requires |s| == 106
    ensures var d := Decode(s);
            && s[0..15] == d.magic && s[15..16] == d.magicEnd && s[16..30] == d.program && s[30..34] == d.version
            && s[34..36] == d.endianess && s[36..52] == d.fs && s[52..60] == d.deviceSize
            && s[60..68] == d.totalBlocks && s[68..76] == d.superUsed && s[76..84] == d.usedBlocks
            && s[84..88] == d.blockSize && s[88..92] == d.featureSize && s[92..94] == d.imageVersion
            && s[94..96] == d.cpuBits && s[96..98] == d.mode && s[98..100] == d.csSize && s[100..104] == d.perCs
            && s[104..105] == d.reseed && s[105..106] == d.bitmapMode
  {
    hide Encode, Decode, Desc.Valid;
    EncodeDecode(s);
    EncodedLayout(Decode(s));
  }

  // ----- loading

  const MAGIC: seq<byte> :=
    [0x70, 0x61, 0x72, 0x74, 0x63, 0x6c, 0x6f, 0x6e, 0x65, 0x2d, 0x69, 0x6d, 0x61, 0x67, 0x65]

  predicate IsDigit(c: byte) {
    0x30 <= c <= 0x39
  }

  predicate IsSpace(c: byte) {
    c == 0x20 || 0x09 <= c <= 0x0d
  }

  function Digits(s: seq<byte>, n: nat): nat {
    if s == [] || !IsDigit(s[0]) then n else Digits(s[1..], 10 * n + (s[0] - 0x30) as nat)
  }

  /** `atol` */
  function Atol(s: seq<byte>): int {
    if s == [] then 0
    else if IsSpace(s[0]) then Atol(s[1..])
    else if s[0] == 0x2d then 0 - Digits(s[1..], 0)
    else if s[0] == 0x2b then Digits(s[1..], 0)
    else Digits(s, 0)
  }

  const BM_BIT: nat := 0x01
  const ENDIAN_MAGIC: nat := 0xC0DE
  const MAX_BLOCK_SIZE: nat := 0x400_0000
  const CSM_NONE: nat := 0x00
  const CSM_CRC32: nat := 0x20
  const CSM_XXH64: nat := 0x30
  const CSM_XXH128: nat := 0x31
  const CSM_CRC32_0001: nat := 0xFF

  /** `get_checksum_size`, for a program built with or without xxHash; an unknown mode stops it. */
  function ChecksumSize(mode: nat, xxHash: bool): int {
    if mode == CSM_NONE then 0
    else if mode == CSM_CRC32 || mode == CSM_CRC32_0001 then 4
    else if xxHash && mode == CSM_XXH64 then 8
    else if xxHash && mode == CSM_XXH128 then 16
    else -1
  }

  /** `load_image_desc_v2`: the descriptions that do not stop the program. */
  predicate Sound(d: Desc, xxHash: bool) {
    var blockSize, total, mode := Number(d.blockSize), Number(d.totalBlocks), Number(d.mode);
    && Number(d.endianess) == ENDIAN_MAGIC
    && 0 < blockSize <= MAX_BLOCK_SIZE
    && Number(d.usedBlocks) <= total
    && ChecksumSize(mode, xxHash) == Number(d.csSize)
    && total <= 0x7fff_ffff_ffff_ffff && total <= 0x800_0000_0000
    && total <= 0xffff_ffff_ffff_ffff / blockSize && total * blockSize <= Number(d.deviceSize)
    && (mode != CSM_NONE ==> Number(d.perCs) != 0)
    && total <= 0xffff_ffff_ffff_fff8
  }

  /** A version 0002 header, a version 0001 header (which is not looked into here), or the end of the program. */
  datatype Loaded = Accepted(desc: Desc) | Old | Refused

  /** `load_image_desc` */
  function Load(image: seq<byte>, xxHash: bool): Loaded {
    if |image| < SIZE || image[..|MAGIC|] != MAGIC then Refused
    else
      var version := Atol(image[VERSION_AT..SIZE]);
      if version == 1 then Old
      else if version != 2 || image[CRC_AT..SIZE] != Crc32.Digest(image[..CRC_AT]) then Refused
      else
        var d := Decode(image[..CRC_AT]);
        if Sound(d, xxHash) then Accepted(d) else Refused
  }

  // ----- writing

  /** A description with its checksum. */
  function Written(d: Desc): seq<byte> {
    Encode(d) + Crc32.Digest(Encode(d))
  }

  /** `init_image_head_v2`, in a program of version `program`. */
  function Headed(d: Desc, program: seq<byte>): Desc {
    d.(magic := MAGIC, magicEnd := [0], version := [0x30, 0x30, 0x30, 0x32], endianess := [0xde, 0xc0],
       program := if |program| < 14 then program + Zeros(14 - |program|) else program[..14])
  }

  lemma HeadedValid(d: Desc, program: seq<byte>)
    requires d.Valid()
    ensures Headed(d, program).Valid()
  {
    var f, h := d.Fields(), Headed(d, program).Fields();
    forall i | 0 <= i < 19
      ensures |h[i]| == WIDTHS[i]
    {
      assert |f[i]| == WIDTHS[i];
    }
  }

  /** What is loaded from a header is what was written, if it is accepted; and exactly the written headers that
      have the magic, the version and a sound description are accepted. */
  lemma LoadedIff(image: seq<byte>, xxHash: bool, d: Desc)
    ensures Load(image, xxHash) == Accepted(d) <==>
              && d.Valid() && d.magic == MAGIC && Sound(d, xxHash)
              && SIZE <= |image| && image[..SIZE] == Written(d) && Atol(image[VERSION_AT..SIZE]) == 2
  {
    hide Sound, Atol, Encode, Decode, Crc32.Digest, Desc.Valid, Desc.Fields;
    if SIZE <= |image| {
      var body := image[..CRC_AT];
      assert image[..SIZE] == body + image[CRC_AT..SIZE];
      EncodeDecode(body);
      MagicIn(Decode(body));
      assert image[..|MAGIC|] == body[..|MAGIC|];
      if d.Valid() && image[..SIZE] == Written(d) {
        DecodeEncode(d);
        ConcatParts(Encode(d), Crc32.Digest(Encode(d)));
        assert body == Encode(d);
      }
    }
  }

  lemma MagicIn(d: Desc)
    requires d.Valid()
    ensures |Encode(d)| == CRC_AT && Encode(d)[..|MAGIC|] == d.magic
  {
    DecodeEncode(d);
    FieldIn(d, 0);
  }

  /** What a digit stands for. */
  function DigitValue(c: byte): nat {
    if IsDigit(c) then c as nat - 0x30 else 0
  }

  lemma DigitsStep(s: seq<byte>, k: nat, n: nat)
    requires k < |s| && IsDigit(s[k])
    ensures Digits(s[k..], n) == Digits(s[k + 1..], 10 * n + DigitValue(s[k]))
  {
    assert s[k..][1..] == s[k + 1..];
    DigitIs(s[k]);
  }

  lemma DigitIs(c: byte)
    requires IsDigit(c)
    ensures (c - 0x30) as nat == DigitValue(c)
  {
  }

  /** Four digits and then no digit are read as a decimal number. */
  lemma AtolOfVersion(s: seq<byte>)
    requires 5 <= |s| && IsDigit(s[0]) && IsDigit(s[1]) && IsDigit(s[2]) && IsDigit(s[3]) && !IsDigit(s[4])
    ensures Atol(s) == 1000 * DigitValue(s[0]) + 100 * DigitValue(s[1]) + 10 * DigitValue(s[2]) + DigitValue(s[3])
  {
    hide Atol, Digits, IsDigit, DigitValue;
    AtolIsDigits(s);
    DigitsStep(s, 0, 0);
    var n1 := DigitValue(s[0]);
    DigitsStep(s, 1, n1);
    var n2 := 10 * n1 + DigitValue(s[1]);
    DigitsStep(s, 2, n2);
    var n3 := 10 * n2 + DigitValue(s[2]);
    DigitsStep(s, 3, n3);
    DigitsEnd(s, 4, 10 * n3 + DigitValue(s[3]));
  }

  /** Which characters are digits, which are skipped, and what a sign does. */
  lemma AtolForms(c: byte, s: seq<byte>)
    ensures IsDigit(c) <==> c in [0x30, 0x31, 0x32, 0x33, 0x34, 0x35, 0x36, 0x37, 0x38, 0x39]
    ensures c in [0x20, 0x09, 0x0a, 0x0b, 0x0c, 0x0d] ==> Atol([c] + s) == Atol(s)
    ensures c == 0x2b && s != [] && IsDigit(s[0]) ==> Atol([c] + s) == Atol(s)
    ensures c == 0x2d && s != [] && IsDigit(s[0]) ==> Atol([c] + s) == 0 - Atol(s)
    ensures c !in [0x20, 0x09, 0x0a, 0x0b, 0x0c, 0x0d, 0x2b, 0x2d] && !IsDigit(c) ==> Atol([c] + s) == 0
    ensures Atol([]) == 0
  {
    hide Digits;
    assert ([c] + s)[1..] == s;
    DigitsStart([c] + s, 0);
  }

  lemma DigitsStart(s: seq<byte>, n: nat)
    requires s != []
    ensures !IsDigit(s[0]) ==> Digits(s, n) == n
  {
  }

  lemma AtolIsDigits(s: seq<byte>)
    requires s != [] && IsDigit(s[0])
    ensures s[0..] == s && Atol(s) == Digits(s, 0)
  {
  }

  lemma DigitsEnd(s: seq<byte>, k: nat, n: nat)
    requires k < |s| && !IsDigit(s[k])
    ensures Digits(s[k..], n) == n
  {
  }

  lemma VersionIn(d: Desc, program: seq<byte>)
    requires d.Valid()
    ensures var s := Encode(Headed(d, program));
            && |s| == CRC_AT && s[..|MAGIC|] == MAGIC
            && s[30] == s[31] == s[32] == 0x30 && s[33] == 0x32 && !IsDigit(s[34])
  {
    hide Encode, Desc.Valid;
    var h := Headed(d, program);
    HeadedValid(d, program);
    MagicIn(h);
    FieldIn(h, 3);
    FieldIn(h, 4);
    var s := Encode(h);
    assert s[30..34] == h.version && s[34..36] == h.endianess;
    assert s[30] == h.version[0] && s[31] == h.version[1] && s[32] == h.version[2] && s[33] == h.version[3];
    assert s[34] == h.endianess[0];
  }

  /** What `init_image_head_v2` puts into a header, byte by byte; the rest is that of the description. */
  lemma HeadWritten(d: Desc, program: seq<byte>)
    requires d.Valid()
    ensures |Encode(d)| == 106 && |Encode(Headed(d, program))| == 106
    ensures var s := Encode(Headed(d, program));
            && s[0..16] == [0x70, 0x61, 0x72, 0x74, 0x63, 0x6c, 0x6f, 0x6e, 0x65, 0x2d, 0x69, 0x6d, 0x61, 0x67, 0x65, 0]
            && (forall i :: 0 <= i < 14 ==> s[16..30][i] == if i < |program| then program[i] else 0)
            && s[30..34] == [0x30, 0x30, 0x30, 0x32] && s[34..36] == [0xde, 0xc0]
            && s[36..52] == Encode(d)[36..52] && s[52..60] == Encode(d)[52..60] && s[60..68] == Encode(d)[60..68]
            && s[68..76] == Encode(d)[68..76] && s[76..84] == Encode(d)[76..84] && s[84..88] == Encode(d)[84..88]
            && s[88..92] == Encode(d)[88..92] && s[92..94] == Encode(d)[92..94] && s[94..96] == Encode(d)[94..96]
            && s[96..98] == Encode(d)[96..98] && s[98..100] == Encode(d)[98..100] && s[100..104] == Encode(d)[100..104]
            && s[104..105] == Encode(d)[104..105] && s[105..106] == Encode(d)[105..106]
  {
    hide Encode, Desc.Valid;
    HeadedValid(d, program);
    EncodedLayout(d);
    EncodedLayout(Headed(d, program));
    var s := Encode(Headed(d, program));
    assert s[0..16] == s[0..15] + s[15..16];
  }

  /** A written header is loaded as it was written, if the description is sound; if not, it is refused. */
  lemma WriteThenLoad(d: Desc, program: seq<byte>, rest: seq<byte>, xxHash: bool)
    requires d.Valid()
    ensures |Written(Headed(d, program))| == SIZE
    ensures Load(Written(Headed(d, program)) + rest, xxHash) ==
              if Sound(Headed(d, program), xxHash) then Accepted(Headed(d, program)) else Refused
  {
    hide Sound, Atol, Encode, Decode, Crc32.Digest, Desc.Valid, Headed, Digits;
    var h := Headed(d, program);
    HeadedValid(d, program);
    VersionIn(d, program);
    DecodeEncode(h);
    var image := Written(h) + rest;
    ConcatParts(Encode(h), Crc32.Digest(Encode(h)));
    ConcatParts(Written(h), rest);
    assert image[..CRC_AT] == Encode(h) && image[CRC_AT..SIZE] == Crc32.Digest(Encode(h));
    AtolOfVersion(image[VERSION_AT..SIZE]);
    assert image[..|MAGIC|] == Encode(h)[..|MAGIC|];
  }

  /** Up to four changed neighbouring bytes anywhere in a header: it is refused, if its version number is not 1 now. */
  lemma DamageNoticed(image: seq<byte>, image': seq<byte>, x: nat, xxHash: bool)
    requires Load(image, xxHash).Accepted? && Crc32.Within(image, image', x)
    requires image[..SIZE] != image'[..SIZE]
    ensures Load(image', xxHash) ==
              if image'[..|MAGIC|] == MAGIC && Atol(image'[VERSION_AT..SIZE]) == 1 then Old else Refused
  {
    hide Sound, Atol, Decode, Crc32.Digest;
    var s, t := image[..SIZE], image'[..SIZE];
    assert s[..CRC_AT] == image[..CRC_AT] && s[CRC_AT..] == image[CRC_AT..SIZE];
    assert t[..CRC_AT] == image'[..CRC_AT] && t[CRC_AT..] == image'[CRC_AT..SIZE];
    Crc32.SealedOnce(s, t, x);
  }

  /** One byte is enough to have it taken for a header of version 0001, whose checksum is not looked at. */
  lemma TakenForOld(d: Desc, program: seq<byte>, rest: seq<byte>, xxHash: bool)
    requires d.Valid()
    ensures |Written(Headed(d, program))| == SIZE
    ensures Load((Written(Headed(d, program)) + rest)[33 := 0x31], xxHash) == Old
  {
    hide Atol, Encode, Decode, Crc32.Digest, Desc.Valid, Headed, Digits;
    VersionIn(d, program);
    var image := Written(Headed(d, program)) + rest;
    var image' := image[33 := 0x31];
    AtolOfVersion(image'[VERSION_AT..SIZE]);
    assert image'[..|MAGIC|] == Encode(Headed(d, program))[..|MAGIC|];
  }

  // ----- what an accepted header promises

  /** The numbers `width` bytes can hold: 256 to that power. */
  function Limit(width: nat): nat {
    if width == 0 then 1 else 256 * Limit(width - 1)
  }

  lemma {:induction false} NumberBelow(s: seq<byte>)
    ensures Number(s) < Limit(|s|)
  {
    if s != [] {
      NumberBelow(s[1..]);
    }
  }

  /** The data area of an accepted image has a format the other modules take, and fits the device. */
  lemma SoundFormat(d: Desc, xxHash: bool, digest: seq<byte> -> seq<byte>)
    requires d.Valid() && Sound(d, xxHash) && forall s :: |digest(s)| == Number(d.csSize)
    ensures d.Format(digest).Valid() && d.Format(digest).blockSize <= MAX_BLOCK_SIZE
    ensures d.Format(digest).Bytes(Number(d.totalBlocks)) <= Number(d.deviceSize)
  {
    hide Number;
    assert |d.Fields()[16]| == WIDTHS[16];
    NumberBelow(d.perCs);
    assert Limit(4) == ImageLayout.UINT32_LIMIT;
    ImageLayout.BytesIsProduct(d.Format(digest), Number(d.totalBlocks));
  }

  // ----- the same in bytes

  /** A byte more is worth the power of 256 of its place. */
  lemma {:induction false} NumberMore(s: seq<byte>, b: byte)
    ensures Number(s + [b]) == Number(s) + b as nat * Limit(|s|)
  {
    hide Number;
    if s == [] {
      NumberStep([b], 0);
      assert s + [b] == [b] && s == [b][1..];
    } else {
      NumberMore(s[1..], b);
      NumberStep(s, 0);
      NumberStep(s + [b], 0);
      assert (s + [b])[1..] == s[1..] + [b];
      TimesShuffled(b as nat, Limit(|s| - 1));
    }
  }

  lemma TimesShuffled(v: nat, l: nat)
    ensures v * (256 * l) == 256 * (v * l)
  {
  }

  lemma TwoBytes(s: seq<byte>)
    requires |s| == 2
    ensures Number(s) == s[0] as nat + 256 * s[1] as nat
    ensures s == [s[0], s[1]]
  {
    NumberStep(s, 0);
    NumberStep(s, 1);
  }

  lemma NumberStep(s: seq<byte>, k: nat)
    requires k < |s|
    ensures Number(s[k..]) == s[k] as nat + 256 * Number(s[k + 1..])
    ensures s[0..] == s && Number(s[|s|..]) == 0
  {
    assert s[k..][1..] == s[k + 1..];
  }

  lemma FourZeros(s: seq<byte>)
    requires |s| == 4
    ensures Number(s) == 0 <==> s == [0, 0, 0, 0]
  {
    hide Number;
    NumberStep(s, 0);
    NumberStep(s, 1);
    NumberStep(s, 2);
    NumberStep(s, 3);
  }

  /** The kinds of checksum and their sizes, as they are written in a header. */
  predicate ModeAndSize(mode: seq<byte>, size: seq<byte>, xxHash: bool) {
    || (mode == [0x00, 0] && size == [0, 0])
    || (mode == [0x20, 0] && size == [4, 0])
    || (mode == [0xff, 0] && size == [4, 0])
    || (xxHash && mode == [0x30, 0] && size == [8, 0])
    || (xxHash && mode == [0x31, 0] && size == [16, 0])
  }

  lemma ModeAndSizeIff(mode: seq<byte>, size: seq<byte>, xxHash: bool)
    requires |mode| == 2 && |size| == 2
    ensures ChecksumSize(Number(mode), xxHash) == Number(size) <==> ModeAndSize(mode, size, xxHash)
  {
    hide Number;
    TwoBytes(mode);
    TwoBytes(size);
  }

  /** The headers that are accepted, byte by byte. */
  lemma AcceptedIff(image: seq<byte>, xxHash: bool)
    ensures Load(image, xxHash).Accepted? <==>
              && 110 <= |image|
              && image[..15] ==
                   [0x70, 0x61, 0x72, 0x74, 0x63, 0x6c, 0x6f, 0x6e, 0x65, 0x2d, 0x69, 0x6d, 0x61, 0x67, 0x65]
              && Atol(image[30..110]) == 2 && image[34..36] == [0xde, 0xc0]
              && image[106..110] == Crc32.Digest(image[..106])
              && 0 < Number(image[84..88]) <= 64 * 1024 * 1024
              && Number(image[76..84]) <= Number(image[60..68]) <= 8 * 1024 * 1024 * 1024 * 1024
              && Number(image[60..68]) * Number(image[84..88]) <= Number(image[52..60])
              && ModeAndSize(image[96..98], image[98..100], xxHash)
              && (image[96..98] != [0, 0] ==> image[100..104] != [0, 0, 0, 0])
  {
    hide Atol, Crc32.Digest, Decode, Number, ChecksumSize, ModeAndSize, Sound;
    if 110 <= |image| {
      var s := image[..106];
      DecodedLayout(s);
      SoundIff(s, xxHash);
      assert s[34..36] == image[34..36] && s[52..60] == image[52..60] && s[60..68] == image[60..68];
      assert s[76..84] == image[76..84] && s[84..88] == image[84..88] && s[96..98] == image[96..98];
      assert s[98..100] == image[98..100] && s[100..104] == image[100..104];
    }
  }

  lemma SoundIff(s: seq<byte>, xxHash: bool)
    requires |s| == 106
    ensures Sound(Decode(s), xxHash) <==>
              && s[34..36] == [0xde, 0xc0]
              && 0 < Number(s[84..88]) <= 64 * 1024 * 1024
              && Number(s[76..84]) <= Number(s[60..68]) <= 8 * 1024 * 1024 * 1024 * 1024
              && Number(s[60..68]) * Number(s[84..88]) <= Number(s[52..60])
              && ModeAndSize(s[96..98], s[98..100], xxHash)
              && (s[96..98] != [0, 0] ==> s[100..104] != [0, 0, 0, 0])
  {
    hide Decode, Number, ChecksumSize, ModeAndSize;
    DecodedLayout(s);
    TwoBytes(s[34..36]);
    TwoBytes(s[96..98]);
    FourZeros(s[100..104]);
    ModeAndSizeIff(s[96..98], s[98..100], xxHash);
    NumberBelow(s[52..60]);
    assert Limit(8) == 0x1_0000_0000_0000_0000;
    if 0 < Number(s[84..88]) && Number(s[60..68]) * Number(s[84..88]) <= Number(s[52..60]) {
      NoOverflow(Number(s[60..68]), Number(s[84..88]), Number(s[52..60]));
    }
  }

  /** A product that fits the device does not overflow. */
  lemma NoOverflow(total: nat, blockSize: nat, deviceSize: nat)
    requires 0 < blockSize && deviceSize < 0x1_0000_0000_0000_0000 && total * blockSize <= deviceSize
    ensures total <= 0xffff_ffff_ffff_ffff / blockSize
  {
    DivMonotone(total * blockSize, 0xffff_ffff_ffff_ffff, blockSize);
    DivUnique(total * blockSize, blockSize, total, 0);
  }

  /** The format of the data area, from the bytes of the header. */
  lemma FormatOfBytes(s: seq<byte>, digest: seq<byte> -> seq<byte>)
    requires |s| == 106
    ensures var f := Decode(s).Format(digest);
            && f.blockSize == Number(s[84..88]) && f.csSize == Number(s[98..100]) && f.perCs == Number(s[100..104])
            && (f.reseed <==> s[104] != 0) && f.digest == digest
    ensures Decode(s).HasBits() <==> s[105] == 1 && s[92..94] == [2, 0]
  {
    hide Decode;
    DecodedLayout(s);
    assert s[104..105] == [s[104]];
    NumberStep([s[104]], 0);
    assert s[105..106] == [s[105]];
    NumberStep([s[105]], 0);
    TwoBytes(s[92..94]);
  }
}
