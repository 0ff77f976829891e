/** A whole image: header, bitmap and blocks, written by a clone and read by a restore. */
module ImageFile {
  import opened Sequences
  import opened ImageLayout
  import opened ImageClone
  import opened ImageRestore
  import opened ImageRoundTrip
  import opened ImageHeader
  import ImageBitmap
  import WordBitmap

  /** The blocks a bitmap marks as used. */
  ghost function Marked(words: seq<bv64>, total: nat): (bits: seq<bool>)
    requires total <= 64 * |words|
    ensures |bits| == total
  {
    WordBitmap.Flags(words)[..total]
  }

  /** Asks for every block of a bitmap. */
  method ReadBits(bitmap: array<bv64>, total: nat) returns (bits: seq<bool>)
    requires total <= 64 * bitmap.Length
    ensures bits == Marked(bitmap[..], total)
  {
    hide WordBitmap.Bit;
    bits := [];
    var i := 0;
    while i < total
      invariant 0 <= i <= total && bits == WordBitmap.Flags(bitmap[..])[..i]
    {
      bits := bits + [WordBitmap.Bit(bitmap[i / 64], i % 64)];
      i := i + 1;
    }
  }

  /** The image of a device: its description, its bitmap and its used blocks with their checksums. */
  ghost function ImageOf(d: Desc, digest: seq<byte> -> seq<byte>, words: seq<bv64>, src: seq<byte>): seq<byte>
    requires Number(d.totalBlocks) <= 64 * |words|
    requires d.Format(digest).Valid() && d.Format(digest).Bytes(Number(d.totalBlocks)) <= |src|
  {
    var f, total := d.Format(digest), Number(d.totalBlocks);
    Written(d) + (ImageBitmap.Stored(words, total) + Image(f, Gather(f, Marked(words, total), src, total)))
  }

  /** A clone. */
  method Save(d: Desc, program: seq<byte>, digest: seq<byte> -> seq<byte>, bitmap: array<bv64>, src: seq<byte>,
              bufferSize: nat)
    returns (image: seq<byte>)
    requires var f, total := d.Format(digest), Number(d.totalBlocks);
             && d.HasBits() && f.Valid() && total <= 64 * bitmap.Length && f.Bytes(total) <= |src|
             && BatchFits(f, Capacity(f, bufferSize))
    ensures image == ImageOf(Headed(d, program), digest, bitmap[..], src)
  {
    hide Written, ImageBitmap.Stored, Image, Gather, Marked, Number, BatchFits, Capacity, Format.Bytes;
    var f, total := d.Format(digest), Number(d.totalBlocks);
    var bitmapBytes := ImageBitmap.Write(bitmap, total);
    var bits := ReadBits(bitmap, total);
    var body, copied := Clone(f, bits, src, bufferSize);
    image := Written(Headed(d, program)) + (bitmapBytes + body);
  }

  /** Loads the bitmap of an image. */
  method LoadBits(stream: seq<byte>, total: nat) returns (ok: bool, bits: seq<bool>)
    ensures |bits| == total
    ensures ok ==> ImageBitmap.BitsToBytes(total) + 4 <= |stream|
    ensures forall words: seq<bv64>, rest: seq<byte> ::
              total <= 64 * |words| && stream == ImageBitmap.Stored(words, total) + rest ==>
                ok && bits == Marked(words, total)
  {
    hide ImageBitmap.Memory, ImageBitmap.Stored, WordBitmap.Flags;
    var bitmap := new bv64[(total + 63) / 64](_ => 0);
    ok := ImageBitmap.Load(stream, total, bitmap);
    bits := ReadBits(bitmap, total);
    forall words: seq<bv64>, rest: seq<byte> |
      total <= 64 * |words| && stream == ImageBitmap.Stored(words, total) + rest
      ensures ok && bits == Marked(words, total)
    {
      ImageBitmap.LoadedIsStored(words, total, rest);
      ImageBitmap.SameFlags(bitmap[..], words, total);
    }
  }

  /** Loads the header and the bitmap, from the bytes of the image alone; only bitmaps of one bit per block. */
  method LoadHead(image: seq<byte>, xxHash: bool) returns (ok: bool, d: Desc, bits: seq<bool>, data: seq<byte>)
    ensures ok ==> Load(image, xxHash) == Accepted(d) && |bits| == Number(d.totalBlocks)
    ensures forall h: Desc, words: seq<bv64>, rest: seq<byte> ::
              && Load(image, xxHash) == Accepted(h) && h.HasBits() && Number(h.totalBlocks) <= 64 * |words|
              && image == Written(h) + (ImageBitmap.Stored(words, Number(h.totalBlocks)) + rest) ==>
                ok && d == h && bits == Marked(words, Number(h.totalBlocks)) && data == rest
  {
    hide ImageBitmap.Memory, ImageBitmap.Stored, ImageBitmap.BitsToBytes, WordBitmap.Flags, Load, Written, Marked;
    hide Number;
    var loaded := Load(image, xxHash);
    if !loaded.Accepted? || !loaded.desc.HasBits() {
      return false, Blank(), [], [];
    }
    d := loaded.desc;
    LongEnough(image, xxHash);
    var stream, total := image[SIZE..], Number(d.totalBlocks);
    ok, bits := LoadBits(stream, total);
    data := if ok then stream[ImageBitmap.BitsToBytes(total) + 4..] else [];
    forall h: Desc, words: seq<bv64>, rest: seq<byte> |
      && loaded == Accepted(h) && h.HasBits() && Number(h.totalBlocks) <= 64 * |words|
      && image == Written(h) + (ImageBitmap.Stored(words, Number(h.totalBlocks)) + rest)
      ensures ok && d == h && bits == Marked(words, Number(h.totalBlocks)) && data == rest
    {
      WrittenLength(image, xxHash, h);
      ConcatParts(Written(h), ImageBitmap.Stored(words, total) + rest);
      ImageBitmap.LoadedIsStored(words, total, rest);
    }
  }

  lemma LongEnough(image: seq<byte>, xxHash: bool)
    ensures Load(image, xxHash).Accepted? ==> SIZE <= |image|
  {
  }

  lemma WrittenLength(image: seq<byte>, xxHash: bool, d: Desc)
    requires Load(image, xxHash) == Accepted(d)
    ensures |Written(d)| == SIZE
  {
    LoadedIff(image, xxHash, d);
  }

  function Blank(): Desc {
    Desc([], [], [], [], [], [], [], [], [], [], [], [], [], [], [], [], [], [], [])
  }

  /** A device saved to an image and restored from the bytes of that image alone: header and bitmap are accepted,
      every used block comes back to its own place, and nothing else changes. */
  method SaveThenRestore(d: Desc, program: seq<byte>, xxHash: bool, digests: nat -> (seq<byte> -> seq<byte>),
                         bitmap: array<bv64>, src: seq<byte>, saveBuffer: nat, restoreBuffer: nat, ignoreCrc: bool,
                         target: Target, offset: nat, deviceSize: nat)
    returns (loaded: bool, status: Status)
    requires d.Valid() && d.HasBits() && Sound(Headed(d, program), xxHash)
    requires forall s :: |digests(Number(d.mode))(s)| == Number(d.csSize)
    requires var f, total := d.Format(digests(Number(d.mode))), Number(d.totalBlocks);
             && total <= 64 * bitmap.Length && f.Bytes(total) <= |src|
             && BatchFits(f, Capacity(f, saveBuffer)) && BatchFits(f, Capacity(f, restoreBuffer))
             && !TailTooLarge(f, Rank(Marked(bitmap[..], total), total), Capacity(f, restoreBuffer))
             && target.pos <= |target.contents|
             && (target.pipe ==> target.pos == |target.contents|)
             && (!target.pipe ==> target.pos + offset + f.Bytes(total) <= |target.contents|)
    modifies target
    ensures loaded && status == Ok
    ensures var f, total := d.Format(digests(Number(d.mode))), Number(d.totalBlocks);
            Faithful(f, Marked(old(bitmap[..]), total), src, target.pipe,
                     old(Head(target.pipe, target.contents, target.pos, offset)),
                     old(Background(f, total, target.pipe, target.contents, target.pos, offset)),
                     deviceSize, target.contents)
  {
    hide Format.Bytes, Rank, Gather, Image, StreamBlocks, Restored, Zeros, BatchFits, Capacity, Accepts, Faithful;
    hide Head, Marked, TailTooLarge, Number, Sound, Load, Written;
    hide ImageBitmap.Stored;
    ghost var words, h := bitmap[..], Headed(d, program);
    var digest := digests(Number(d.mode));
    ghost var f0, total0 := d.Format(digest), Number(d.totalBlocks);
    ghost var head := Head(target.pipe, target.contents, target.pos, offset);
    ghost var background := Background(f0, total0, target.pipe, target.contents, target.pos, offset);
    HeadedValid(d, program);
    SoundFormat(h, xxHash, digest);
    var image := Save(d, program, digest, bitmap, src, saveBuffer);
    ghost var blocks := Gather(f0, Marked(words, total0), src, total0);
    WriteThenLoad(d, program, ImageBitmap.Stored(words, total0) + Image(f0, blocks), xxHash);
    var desc, bits, data;
    loaded, desc, bits, data := LoadHead(image, xxHash);
    assert loaded && desc == h && bits == Marked(words, total0) && data == Image(f0, blocks);
    var f := desc.Format(digests(Number(desc.mode)));
    CloneIsAccepted(f, blocks, Capacity(f, restoreBuffer), ignoreCrc);
    StreamOfImage(f, blocks);
    RestoredIsFaithful(f, bits, src, target.pipe, head, background, deviceSize);
    status := Restore(f, bits, data, restoreBuffer, ignoreCrc, target, offset, deviceSize);
  }
}
