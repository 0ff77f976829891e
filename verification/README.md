# Partclone in Dafny

Partclone saves the used blocks of a partition as a byte stream and puts them back. It also carries
libraries of its own for exFAT and F2FS and readers for other file systems. This project models the
parts of it in which most can go wrong, and proves what they promise.

| files | part |
|---|---|
| `ImageLayout`, `ImageClone`, `ImageRestore`, `ImageRoundTrip` | the stream of blocks and checksums: written by a clone in batches of one capacity, read by a restore in batches of another |
| `ImageHeader`, `ImageBitmap`, `ImageFile` | the header and the bitmap stored in front of the stream, and all three together |
| `Crc32`, `CrcPolynomial`, `ImageDamage` | the checksum as the source computes it and as a remainder of polynomials, and what damage a restore notices |
| `FuseReader` | the files of a mounted image, read at computed positions |
| `RedBlackTree`, `Dictionary`, `SortedDictionary` | the red-black tree of the F2FS tools: the tree as a value, the linked nodes, and the dictionary |
| `ExfatChain`, `ExfatVolume` | the cluster allocator and the cluster lists of files |
| `ExfatContents`, `ExfatErase`, `ExfatFile`, `ExfatSystem` | file contents, reading, writing, erasing and truncating, and many files on one volume |
| `ExfatUsed` | the sectors of an exFAT volume that are saved |
| `DevCache` | the block cache of the F2FS tools |
| `BitSearch`, `Dentry` | the names of an F2FS directory block |
| `NodeDump` | the numbering and the walk of F2FS node blocks |
| `JfsXtree`, `JfsMap` | the extent tree and the allocation map of JFS |
| `FatWalk` | the FAT walk |
| `TorrentPieces`, `Utf`, `ExfatTime` | piece hashes, file names, timestamps |
| `WordBitmap`, `Arithmetic`, `Sequences` | bitmaps of words, and facts used throughout |

Code that changes things step by step is modelled by methods, classes and arrays; each method is proved
against a specification on values, and the promises are lemmas about those values or invariants every
operation keeps. The main results:

- Saving a device and restoring it from the bytes of the image alone puts every used block back to its
  place, for every sound description, bitmap, block size, checksum interval, reseed choice and any two
  buffer sizes with batches that fit 32 bits and a last read that fits its buffer; blocks no smaller than a
  checksum are enough for the latter (`ImageFile.SaveThenRestore`, `ImageRoundTrip.CloneThenRestore`,
  `ImageRestore.LargeBlocksFit`).
- A change within any four neighbouring bytes of an image with CRC-32 is always noticed in the bitmap, in
  the header exactly if its version number does not become 1, and in the data area exactly if it touches a
  byte before the open checksum group or the restore looks at the tail checksum (`ImageHeader.DamageNoticed`, `ImageBitmap.DamageNoticed`,
  `ImageDamage.NoticedIff`).
- The CRC-32 that the table-driven and the bit-at-a-time loops compute is the remainder of the message by the
  polynomial of IEEE 802.3 (`Crc32.TableCrc32`, `Crc32.BitCrc32`, `CrcPolynomial.CrcIsRemainder`).
- Insertion keeps the linked nodes a sound red-black tree and puts the node at its place in the order
  (`SortedDictionary.Dict.Insert`); lookup finds the first of equal keys.
- Over writes and truncations to any of the files of an exFAT volume every cluster stays accounted for
  exactly once, other files keep their bytes, and running out of space loses nothing
  (`ExfatSystem.Mounted.Write`, `ExfatVolume.Volume.Grow`); what is written is read back
  (`ExfatSystem.WriteThenRead`).
- Any run of reads and writes through the block cache answers as the bare device would
  (`DevCache.Device.Run`).

Some things the code might be expected to do it does not; the model keeps the code as it is, and each
has a concrete case and an exact condition:

- The last read of a restore can be larger than the read buffer, when blocks are smaller than a checksum
  (`ImageRestore.ReadsFitIff`, `ImageRestore.ReadCanBeTooLarge`).
- A header with one digit of its version changed is taken for an old one, and its checksum is not looked
  at (`ImageHeader.TakenForOld`, `ImageHeader.DamageNoticed`).
- A file of one contiguous cluster, when only the cluster just below it is free, grows into a file whose
  second cluster is not the one allocated (`ExfatVolume.Volume.Extend`, `ExfatChain.BelowIsLast`,
  `ExfatChain.BelowExample`).
- A short request to a mounted image that crosses a block boundary is given checksum bytes
  (`FuseReader.CrossingIsRightIff`, `FuseReader.CrossingCanBeWrong`), and an image without checksums makes
  the reader divide by zero (`FuseReader.ReadBlockData`, `FuseReader.NoChecksumExample`).
- The tail checksum of an image is not always read back, and then damage to its blocks goes unnoticed
  (`ImageRoundTrip.WholeImageRead`, `ImageRoundTrip.TailCanBeSkipped`, `ImageDamage.TailChangeAccepted`).
- A name of a multiple of eight bytes overwrites the first byte of the name behind it
  (`Dentry.Block.Update`, `Dentry.StrikeExample`).
- The walk over used exFAT clusters ends before the cluster count, while the specification numbers
  the clusters up to the count plus one: the last two are looked at by accident or not at all
  (`ExfatUsed.AllGivenIff`, `ExfatUsed.LostExample`). Read as src/exfat/node.c reads the count, the walk
  gives a cluster that does not exist when the last one is in use (`ExfatUsed.ExactIffLastFree`,
  `ExfatUsed.OverrunExample`).
- The search in a JFS extent tree strays into the header of a page when the key lies before its first
  entry (`JfsXtree.Find`, `JfsXtree.StrayExample`).
- The free space of the target is checked for the wrong size from four gigabytes on
  (`ImageLayout.SpaceCheckedExact`, `ImageLayout.SpaceCheckedWraps`).
- Truncating an exFAT file to more clusters than 32 bits can count frees clusters it needs
  (`ExfatContents.Bytes2ClustersExact`, `ExfatFile.Truncate`, `ExfatFile.TruncateHuge`); with erasing it
  never succeeds, and can erase clusters behind the file (`ExfatErase.EraseBeyond`,
  `ExfatErase.VisitsNeighbour`).
- A fill of an F2FS device does not go through the block cache, which is stale afterwards if it had a block
  that changed (`DevCache.Device.Fill`, `DevCache.FillExample`).
- The walk over the allocation map of JFS does not end when its pages tell about too few blocks
  (`JfsMap.StopsIff`, `JfsMap.EndlessExample`).
- The year 2100 is taken for a leap year (`ExfatTime.CalendarAgrees`, `ExfatTime.FirstOfMarch2100`).

A device or a file is a sequence of bytes, and reading and writing it succeeds. Checksums other than
CRC-32 and the piece hash are unknown functions of the bytes fed. Integers are unbounded except where
the width matters, and there the wrap-around is written out.

## Model

| member | source | states |
|---|---|---|
| `ImageLayout.OffsetClosedForm` | src/partclone.c:727-743 | the place of block n in the data area, followed step by step, is n blocks plus one checksum for each full group before it |
| `ImageLayout.BlocksToBytesExact` | src/partclone.c:727-743 | the size computed for a batch is the distance between two places of the layout exactly when the 32-bit product of count and block size does not wrap |
| `ImageLayout.SpaceCheckedExact` | src/main.c:245-245 | the free space of the target is checked for the size of the data area if and only if the used blocks together are less than four gigabytes; the count of used blocks is itself cut to 32 bits |
| `ImageLayout.SpaceCheckedWraps` | src/main.c:245-245 | for 2^20 used blocks of 4096 bytes the size checked is four gigabytes too small |
| `ImageLayout.InGroupIsMod` | src/main.c:548-560 | the running count of blocks in a checksum group is the block number modulo the group size |
| `ImageLayout.FedIsGroup` | src/main.c:546-562 | the bytes fed to a running checksum are those of the blocks since the last reseed, or of all blocks without reseeding |
| `ImageLayout.BatchRoom` | src/partclone.c:727-743 | a batch anywhere in the stream takes at most one checksum more than the same number of blocks at its beginning |
| `ImageLayout.BufferRoom` | src/main.c:665-671 | no batch is larger than the buffer allocated for a full one plus one checksum |
| `ImageLayout.BlockInImage` | src/main.c:539-560 | in a written stream every block is found at its place, and the checksum of its group right behind it when it closes the group |
| `ImageLayout.ImageLength` | src/main.c:594-608 | the length of the stream: the place behind the last block, plus one checksum if a group is left open |
| `ImageLayout.GatherAt` | src/main.c:497-521 | the used block b is the block with number rank(b) of the stream, with the bytes it has on the device |
| `ImageClone.BufferFits` | src/main.c:446-458 | every buffer of less than 0x7e000000 bytes makes batches whose sizes fit 32 bits, for every block size the source accepts that is no smaller than a checksum |
| `ImageClone.BatchFitsExact` | src/main.c:458-470 | when a full batch fits 32 bits, the size of every batch up to the capacity is exact |
| `ImageClone.CapacityFits` | src/main.c:446-446 | the capacity is as many whole blocks as fit the buffer, but at least one |
| `ImageClone.ScanUnused` | src/main.c:499-505 | the scan stops at the first used block, or at the end |
| `ImageClone.ScanUsed` | src/main.c:510-515 | the scan takes used blocks up to the limit and stops only at an unused block, the limit or the end |
| `ImageClone.NextRun` | src/main.c:498-523 | the next run is read as the next blocks of the gathered sequence, and no used block is skipped |
| `ImageClone.EncodeBlock` | src/main.c:539-563 | one turn of the copying loop appends the block and, if it closes a group, the checksum of the group, and carries group count and checksum state on |
| `ImageClone.EncodeBatch` | src/main.c:537-565 | a batch written behind the first n blocks of the stream gives its first n + count blocks, wherever the batch begins inside a group |
| `ImageClone.CloneBatches` | src/main.c:493-608 | whatever the capacity, the batches together are the stream of all used blocks and the count of copied blocks is right; the loop ends |
| `ImageClone.Clone` | src/main.c:442-610 | the clone branch writes the stream of the used blocks, whatever the buffer size |
| `ImageRestore.Target.WriteInPieces` | src/partclone.c:1933-1964 | whatever pieces the calls of write take, and however often they are to be repeated, the bytes taken are the beginning of the buffer, written once and in order; the write is full exactly if no call takes nothing or fails before the end |
| `ImageRestore.Target.Write` | src/partclone.c:1941-1942 | a full write replaces the bytes at the position, extending the target if need be, and moves the position |
| `ImageRestore.Target.SkipBytes` | src/partclone.c:1990-2013 | skipping moves a device position without writing; on a pipe it writes that many zeros, however they are cut into buffers |
| `ImageRestore.Target.SkipBlocks` | src/partclone.c:2015-2038 | the same for whole blocks |
| `ImageRestore.DecodeBlock` | src/main.c:747-784 | one turn of the decoding loop accepts the block exactly if its group checksum, when it closes a group, is the recorded one, and carries the state on |
| `ImageRestore.DecodeBatch` | src/main.c:745-785 | a batch is accepted exactly if every checksum up to its end holds, and the write buffer then has its blocks without checksums |
| `ImageRestore.TailReadIff` | src/main.c:724-730 | the condition on the batch size for reading one checksum more means: this is the last batch, and the tail checksum is one the restore looks at |
| `ImageRestore.ReadsFitIff` | src/main.c:665-735 | every read of a restore fits the read buffer if and only if not: the last batch is short, contains the end of one group more than a full batch at the beginning, reads the tail checksum as well, and lacks blocks worth less than a checksum |
| `ImageRestore.LargeBlocksFit` | src/main.c:665-735 | blocks no smaller than a checksum are enough for that |
| `ImageRestore.ReadCanBeTooLarge` | src/main.c:722-735 | a concrete case in which the second read takes 543 bytes into a buffer of 528 |
| `ImageRestore.ReadSize` | src/main.c:714-731 | the size asked for ends where the next batch begins, never passes the bytes the restore needs in all, and fits the read buffer, unless the last batch is too large |
| `ImageRestore.CheckTail` | src/main.c:786-803 | the check after the last batch fails exactly when the tail checksum is read and is not the recorded one |
| `ImageRestore.SkipRun` | src/main.c:810-827 | the unused blocks up to the next used one are passed over, by seeking or by writing zeros |
| `ImageRestore.WriteRun` | src/main.c:829-862 | a run of used blocks is written to its own place |
| `ImageRestore.WriteBatch` | src/main.c:806-870 | the second scan of the bitmap puts each block of the batch at its own place of the target and leaves the unused ones between; both loops end because the used count is that of the bitmap |
| `ImageRestore.CountUsed` | src/main.c:656-664 | the recomputed count is the number of used blocks of the bitmap |
| `ImageRestore.FillUp` | src/main.c:880-888 | on a pipe the rest of the device is filled with zeros; a device is left as it is |
| `ImageRestore.RestoreBatch` | src/main.c:709-870 | one turn of the restore loop keeps the invariant that target, stream position, group count and checksum state belong together; a read error means that the stream is too short, a checksum error that a checksum is wrong, and then the target is as the turn found it |
| `ImageRestore.RestoreBatches` | src/main.c:708-888 | the whole loop succeeds exactly on acceptable streams and then leaves the restored contents; if it stops, the target is settled up to some block and untouched behind it |
| `ImageRestore.Restore` | src/main.c:638-888 | the restore branch, from skipping the offset to filling up: success exactly on acceptable streams, the reason of a failure, and the contents that result in either case |
| `ImageRestore.RestoreRaw` | src/main.c:638-898 | a restore to a new file: the file has the size of the device or, if the last block is used, ends with that block; as far as it goes every byte of a used block is the byte of the stream at the place of the block, and every other byte is zero |
| `ImageRoundTrip.StreamOfImage` | src/main.c:537-563 | reading a written stream at the places of the layout gives the blocks back |
| `ImageRoundTrip.ChecksOfImage` | src/main.c:747-784 | every checksum the restore compares on a written stream is the recorded one |
| `ImageRoundTrip.TailOfImage` | src/main.c:786-803 | so is the tail checksum |
| `ImageRoundTrip.CloneIsAccepted` | src/main.c:709-872 | a written stream is long enough for every read of the restore and passes every check, for every capacity |
| `ImageRoundTrip.WholeImageRead` | src/main.c:724-730 | the restore reads the stream to its end if and only if there is no tail checksum or the last batch is partial and ends inside a group |
| `ImageRoundTrip.TailCanBeSkipped` | src/main.c:724-730 | a concrete case in which the tail checksum is not read back: groups of three, four used blocks, capacity two |
| `ImageRoundTrip.RestoredIsFaithful` | src/main.c:806-888 | what a restore of the gathered blocks leaves has every used block at its own place with its own bytes and is unchanged, or zero on a pipe, everywhere else |
| `ImageRoundTrip.CloneThenRestore` | src/main.c:442-888 | clone followed by restore, for every bitmap, block size, checksum interval, reseed choice and any two buffer sizes of which the second has room for every read: the restore succeeds and is faithful |
| `ImageBitmap.SameFlags` | src/bitmap.h:32-45 | bitmaps of words whose first bytes agree have the same first bits |
| `ImageBitmap.Write` | src/partclone.c:1140-1207 | the stored bitmap is the bytes of its words, as many as the blocks need, followed by their checksum |
| `ImageBitmap.StoredDigit` | src/partclone.c:1140-1207 | in a stored bitmap block i is the binary digit i % 8 of byte i / 8 |
| `ImageBitmap.Load` | src/partclone.c:1506-1523 | the load succeeds exactly if the stream is long enough and the checksum behind the bitmap is its own, and the words then have the bytes read |
| `ImageBitmap.LoadedIsStored` | src/partclone.c:1506-1523 | a stored bitmap passes the check, and what follows it in the image is left |
| `ImageBitmap.DamageNoticed` | src/partclone.c:1519-1522 | changing up to four neighbouring bytes of a stored bitmap or its checksum makes the check fail |
| `ImageHeader.SplitFlat` | src/partclone.h:163-267 | fields of fixed widths, packed without gaps, are read back |
| `ImageHeader.FlatSplit` | src/partclone.h:163-267 | and all bytes of that length are such fields |
| `ImageHeader.DecodeEncode` | src/partclone.c:1126-1131 | the description read from its bytes is the one written |
| `ImageHeader.EncodeDecode` | src/partclone.c:1006-1014 | every 106 bytes are those of one description |
| `ImageHeader.FieldIn` | src/partclone.h:163-267 | the place of every field |
| `ImageHeader.EncodedLayout` | src/partclone.h:163-267 | the byte offsets of all nineteen fields of a written header |
| `ImageHeader.DecodedLayout` | src/partclone.h:163-267 | and the bytes every field is read from |
| `ImageHeader.NumberMore` | src/partclone.h:187-249 | a number is the sum of its bytes times the powers of 256, lowest byte first |
| `ImageHeader.AtolOfVersion` | src/partclone.c:1078-1078 | four digits followed by no digit are read as a decimal number |
| `ImageHeader.AtolForms` | src/partclone.c:1078-1078 | which characters count as digits, which are skipped before a number, and what a sign does |
| `ImageHeader.HeadWritten` | src/partclone.c:154-168 | what is put in front of a written header, byte by byte: magic, program version filled up with zeros, image version and byte order; the rest is the description |
| `ImageHeader.AcceptedIff` | src/partclone.c:1002-1122 | the headers that are accepted, byte by byte: magic, version 2, byte order, CRC, block size, counts, device size, kind and size of the checksum and its interval |
| `ImageHeader.FormatOfBytes` | src/partclone.c:1014-1014 | block size, checksum size, interval and reseeding of the data area, from the bytes of the header |
| `ImageHeader.LoadedIff` | src/partclone.c:1002-1122 | a header is accepted, as the description d, if and only if it is what is written for d, has the magic and the version number 2, and d is sound |
| `ImageHeader.WriteThenLoad` | src/partclone.c:1062-1138 | a written header is loaded as it was written if the description is sound, and refused if not |
| `ImageHeader.DamageNoticed` | src/partclone.c:1099-1105 | a header changed anywhere within four neighbouring bytes is refused, unless it still has the magic and its version number is now 1 |
| `ImageHeader.TakenForOld` | src/partclone.c:1078-1096 | every header with the last digit of its version changed to 1 is taken for one of version 0001, whose checksum is not looked at |
| `ImageHeader.SoundFormat` | src/partclone.c:1002-1055 | a sound description gives a valid format of the data area, and blocks that fit the device |
| `ImageFile.ReadBits` | src/bitmap.h:32-45 | asking for every block gives the bitmap as a sequence |
| `ImageFile.Save` | src/main.c:225-610 | an image is the header, the stored bitmap and the stream of the blocks it marks |
| `ImageFile.LoadBits` | src/main.c:276-286 | loading from a stream that begins with a stored bitmap succeeds and gives the marked blocks |
| `ImageFile.LoadHead` | src/main.c:262-286 | from the bytes of an image alone: the description written, the marked blocks and the stream behind them |
| `ImageFile.SaveThenRestore` | src/main.c:225-888 | a device saved and restored from nothing but the bytes of the image: header and bitmap are accepted, the restore succeeds and is faithful, for every sound description |
| `ImageDamage.RecordedIsDigest` | src/main.c:548-554 | the checksum recorded behind a block is that of the blocks of its group |
| `ImageDamage.FullGroupAt` | src/main.c:537-565 | every byte before the open group belongs to a full group or to the checksum behind it |
| `ImageDamage.MessageSealedIff` | src/main.c:761-777 | the check of a group is a check that the bytes covered, followed by the checksum, are sealed |
| `ImageDamage.ChangeNoticed` | src/main.c:761-777 | with CRC-32, a stream whose first difference from a written one lies before the open group, and that differs only within four bytes, is not accepted, for every capacity |
| `ImageDamage.TailChangeNoticed` | src/main.c:786-803 | the same for a difference in the open group or its checksum, if the restore looks at the tail checksum |
| `ImageDamage.TailChangeAccepted` | src/main.c:724-803 | if it does not, any change of the open group is accepted |
| `ImageDamage.NoticedIff` | src/main.c:724-803 | a stream changed anywhere, in blocks, checksums or across their borders, within four neighbouring bytes: the restore notices it if and only if it looks at the tail checksum or a byte before the open group is different |
| `ImageDamage.DetectedIff` | src/main.c:724-803 | in terms of blocks: damage to a block is noticed if and only if the block belongs to a complete group or the restore looks at the tail checksum |
| `FuseReader.GetFileSize` | src/fuseimg.c:64-76 | the size of the file at a block is that of the run of used blocks from there on |
| `FuseReader.ReadBlockData` | src/fuseimg.c:79-107 | the closed form for the position of a block is its place in the layout; with no checksum interval the division by zero is the only failure |
| `FuseReader.BlockRead` | src/fuseimg.c:79-107 | reading inside one used block yields the bytes of the device |
| `FuseReader.NoChecksumExample` | src/fuseimg.c:79-107 | an image of one block without checksums, of which the block cannot be read |
| `FuseReader.ReadWhole` | src/fuseimg.c:136-162 | the loop over whole blocks and the last partial one yield the bytes of the device |
| `FuseReader.ReadFrom` | src/fuseimg.c:123-162 | a request whose first piece stays inside a block, or that is longer than a block, yields the bytes of the device; any other yields the raw bytes of the stream |
| `FuseReader.ReadBlocksData` | src/fuseimg.c:108-164 | the same for a request at any offset of a file, with the failure for a missing checksum interval, which an empty request at the start of a file escapes |
| `FuseReader.ReadFile` | src/fuseimg.c:247-277 | requests are cut at the end of the run of used blocks; behind it nothing is read |
| `FuseReader.CrossingRead` | src/fuseimg.c:127-128 | a short request that runs over the end of a block is given the rest of the block and then whatever follows in the stream, checksum first |
| `FuseReader.CrossingIsRightIff` | src/fuseimg.c:127-128 | such a request yields the bytes of the device if and only if no checksum follows its first block or the checksum happens to equal the data |
| `FuseReader.CrossingCrc` | src/fuseimg.c:127-128 | with a CRC-32 after each block, a request for one block from its second byte on is right if and only if the byte after the block equals the first byte of the checksum |
| `FuseReader.CrossingCanBeWrong` | src/fuseimg.c:127-128 | for every first block, a second one with which that request is wrong |
| `FuseReader.RunStartsExact` | src/fuseimg.c:218-226 | the list of run starts has the first block of every maximal run of used blocks, in order and once |
| `FuseReader.ListFiles` | src/fuseimg.c:204-229 | the directory listing is that list |
| `Crc32.TableStep` | src/checksum.c:39-48 | one table step equals eight shifts with the polynomial |
| `Crc32.ShiftsLinear` | src/checksum.c:117-122 | shifting is linear over exclusive or |
| `Crc32.InitCrc32` | src/checksum.c:108-130 | after the initialisation, first or repeated, every entry is eight shifts of its index, and the seed is all ones |
| `Crc32.ShiftRun` | src/checksum.c:117-122 | the inner loop of the initialisation makes as many single steps as it has turns |
| `Crc32.TableCrc32` | src/checksum.c:38-50 | the table-driven loop computes the CRC of any buffer from any seed |
| `Crc32.BitCrc32` | src/f2fs/libf2fs.c:526-538 | the bit-at-a-time loop computes the same CRC |
| `CrcPolynomial.Divides` | src/checksum.c:108-127 | long division of polynomials over two elements by the generator of IEEE 802.3: the dividend is a multiple of the generator plus the remainder |
| `CrcPolynomial.PolyIsGenerator` | src/checksum.c:117-122 | the word the source shifts with has the coefficients of that generator |
| `CrcPolynomial.DivisionStep` | src/checksum.c:117-122 | one shift of the source is one step of the long division |
| `CrcPolynomial.CrcIsRemainder` | src/checksum.c:38-50 | the CRC of any message from any seed is the remainder of the message times the 32nd power with the seed added in front |
| `CrcPolynomial.CrcDivides` | src/checksum.c:38-50 | so that dividend is a multiple of the generator plus the CRC |
| `CrcPolynomial.CheckValue` | src/checksum.c:38-50 | the check value: the CRC of the digits from 1 to 9 |
| `Crc32.CrcCompose` | src/checksum.c:218-226 | the CRC of a concatenation is that of the second part seeded with that of the first |
| `Crc32.CrcInjective` | src/checksum.c:38-50 | over the same bytes different seeds give different results |
| `Crc32.WordDetected` | src/checksum.c:38-50 | two different buffers of up to four bytes have different CRCs |
| `Crc32.BurstDetected` | src/checksum.c:38-50 | buffers that differ only inside four neighbouring bytes have different CRCs |
| `Crc32.BytesInjective` | src/checksum.c:218-222 | different CRCs are stored as different bytes |
| `Crc32.UpdateChecksum` | src/checksum.c:218-226 | updating the stored word gives the checksum of everything fed so far |
| `Crc32.CrcOfOwnBytes` | src/checksum.c:38-50 | a CRC followed by its own bytes is zero |
| `Crc32.SealedIff` | src/checksum.c:218-226 | four bytes are the checksum of those before them if and only if the CRC of all of them is zero |
| `Crc32.SealedOnce` | src/checksum.c:218-226 | data and the checksum behind them, changed anywhere within four neighbouring bytes, no longer belong together |
| `RedBlackTree.PlugOrder` | src/f2fs/dict.c:82-129 | the nodes and keys of a tree, in order, are those left of a place, those of the subtree there and those right of it |
| `RedBlackTree.RotationsKeepOrder` | src/f2fs/dict.c:82-129 | a rotation keeps the order of nodes and keys |
| `RedBlackTree.RecolorFixes` | src/f2fs/dict.c:588-593 | with a red uncle, repainting three nodes moves the only possible violation two levels up and keeps the black heights |
| `RedBlackTree.OuterIsHeavy` | src/f2fs/dict.c:594-600 | what the tree looks like below a red parent with a red child |
| `RedBlackTree.InnerTurns` | src/f2fs/dict.c:595-600 | turning an inner grandchild outwards keeps the black heights |
| `RedBlackTree.LeftTurnFixes` | src/f2fs/dict.c:601-604 | the last rotation and the exchange of colours remove the violation |
| `RedBlackTree.RightTurnFixes` | src/f2fs/dict.c:620-623 | the same on the other side |
| `RedBlackTree.InsertStarts` | src/f2fs/dict.c:569-582 | a red leaf in a sound tree breaks at most the rule that a red node has a black parent |
| `RedBlackTree.FixedIsRedBlack` | src/f2fs/dict.c:628-628 | painting the root black then makes the tree sound |
| `RedBlackTree.Shallow` | src/f2fs/dict.c:542-631 | a sound tree is at most twice as deep as the logarithm of its size plus one |
| `RedBlackTree.DescentWithin` | src/f2fs/dict.c:542-631 | no way down a tree has more nodes than its depth |
| `RedBlackTree.LongestDescent` | src/f2fs/dict.c:542-631 | and one has that many |
| `Dictionary.RotateLeft` | src/f2fs/dict.c:82-105 | the linked nodes form the rotated tree, with all parent links right, whatever is written to the nil node |
| `Dictionary.RotateRight` | src/f2fs/dict.c:110-129 | the same in the other direction |
| `Dictionary.Recolor` | src/f2fs/dict.c:588-593 | the linked nodes form the repainted tree |
| `Dictionary.StraightenLeft` | src/f2fs/dict.c:595-600 | the rotation below a left parent, if the child is an inner one |
| `Dictionary.StraightenRight` | src/f2fs/dict.c:615-619 | the same on the other side |
| `Dictionary.FinishRight` | src/f2fs/dict.c:601-604 | repainting and the rotation of the grandparent end the repair |
| `Dictionary.FinishLeft` | src/f2fs/dict.c:620-623 | the same on the other side |
| `Dictionary.FixStep` | src/f2fs/dict.c:584-626 | one turn of the repair loop ends the repair or moves it two levels up, keeping the order of the nodes |
| `Dictionary.FixUp` | src/f2fs/dict.c:584-628 | the repair loop ends with a sound tree of the same nodes in the same order |
| `SortedDictionary.Descend` | src/f2fs/dict.c:556-565 | the descent finds a free place with smaller or equal keys before it and larger ones behind it |
| `SortedDictionary.Attach` | src/f2fs/dict.c:569-582 | the new node is linked there as a red leaf |
| `SortedDictionary.InsertNode` | src/f2fs/dict.c:542-631 | descent, attachment and repair together: one node more at that place, everything else in order, and a sound tree |
| `SortedDictionary.Dict.constructor` | src/f2fs/dict.c:323-337 | a new dictionary is empty and valid |
| `SortedDictionary.Dict.Insert` | src/f2fs/dict.c:542-631 | the nodes in order gain exactly the new node, behind the smaller and equal keys and before the larger ones; tree, links and count stay valid |
| `SortedDictionary.Dict.AllowDupes` | src/f2fs/dict.c:915-918 | duplicates are allowed from now on, and nothing else changes |
| `SortedDictionary.InsertAgain` | src/f2fs/dict.c:438-631 | once duplicates are allowed every key can be inserted; a key inserted again is still found at its first node, a new one at its own |
| `SortedDictionary.NextMatch` | src/f2fs/dict.c:461-462 | below the left child of a match, the innermost loop finds the next match or the end, passing only smaller keys |
| `SortedDictionary.LeftmostMatch` | src/f2fs/dict.c:456-463 | from any match the inner loops reach the first one in order |
| `SortedDictionary.LookupNode` | src/f2fs/dict.c:438-469 | a node is found exactly when the key is there |
| `SortedDictionary.Dict.Lookup` | src/f2fs/dict.c:438-469 | the same; the node found is the first in order with that key, also among duplicates |
| `SortedDictionary.Dict.First` | src/f2fs/dict.c:837-846 | the first node in order, or none in an empty dictionary |
| `SortedDictionary.Dict.Last` | src/f2fs/dict.c:852-861 | the last one |
| `SortedDictionary.NextNode` | src/f2fs/dict.c:869-888 | descending or climbing leads to the following node in order |
| `SortedDictionary.PrevNode` | src/f2fs/dict.c:894-913 | and to the preceding one |
| `SortedDictionary.Dict.Next` | src/f2fs/dict.c:869-888 | the following node in order, or none behind the last |
| `SortedDictionary.Dict.Prev` | src/f2fs/dict.c:894-913 | the preceding node in order, or none before the first |
| `SortedDictionary.KeysInOrder` | src/f2fs/dict.c:542-631 | the nodes in order hold the keys in order |
| `WordBitmap.SetBit` | src/bitmap.h:47-60 | one flag is set and no other changes |
| `WordBitmap.ClearBit` | src/bitmap.h:62-75 | one flag is cleared and no other changes |
| `WordBitmap.ClearAll` | src/bitmap.h:86-95 | filling with zeros clears every flag |
| `WordBitmap.SetAll` | src/bitmap.h:86-95 | filling with ones sets every flag |
| `WordBitmap.WordIsNumber` | src/bitmap.h:32-45 | a word of a bitmap is the number whose binary digits are its flags, lowest first |
| `ExfatChain.WalkIsList` | src/exfat/cluster.c:73-90 | walking afresh from the first cluster reaches the n-th cluster of the list after n steps |
| `ExfatChain.ListIsWalk` | src/exfat/cluster.c:73-90 | first cluster, length and links determine the list |
| `ExfatChain.ChainExample` | src/exfat/cluster.c:73-90 | a FAT with a chain of two clusters, and which numbers are no clusters |
| `ExfatChain.BelowIsLast` | src/exfat/cluster.c:194-213 | searching from behind a cluster, the one just below it is taken if and only if it is the only free one |
| `ExfatChain.FirstHasNoneBelow` | src/exfat/cluster.c:194-213 | the first cluster of an empty file has no free cluster just below it |
| `ExfatChain.BelowExample` | src/exfat/cluster.c:285-285 | a concrete volume in which growing a file takes the cluster just below it |
| `ExfatVolume.FindBitAndSet` | src/exfat/cluster.c:114-137 | skipping full words, the first clear bit of the range is found and set, and nothing is changed if there is none |
| `ExfatVolume.Volume.Allocate` | src/exfat/cluster.c:194-213 | the first free cluster from the hint on and around is taken and the bitmap noted as changed; none exactly if the volume is full |
| `ExfatVolume.Volume.FreeCluster` | src/exfat/cluster.c:215-225 | exactly that cluster becomes free |
| `ExfatVolume.Volume.SetNext` | src/exfat/cluster.c:174-192 | the FAT entry of a chained file is written; a contiguous file needs none |
| `ExfatVolume.Volume.Advance` | src/exfat/cluster.c:92-112 | wherever earlier seeks ended, the cluster reached and remembered is that of a fresh walk |
| `ExfatVolume.Volume.MakeNoncontiguous` | src/exfat/cluster.c:227-236 | the FAT then chains the clusters that were consecutive, and no other entry changes |
| `ExfatVolume.Volume.LinkNext` | src/exfat/cluster.c:285-295 | the new cluster follows the last one, unless a contiguous file is taken to go on below |
| `ExfatVolume.Volume.Extend` | src/exfat/cluster.c:276-298 | one turn of growing takes a free cluster that continues the list, except exactly when the file is one contiguous cluster and only the cluster just below it is free |
| `ExfatVolume.Volume.GrowBelow` | src/exfat/cluster.c:241-304 | in that case growing by one loses the taken cluster and the file goes on with the cluster above its own; growing by more gives up and frees the cluster above, whosever it is, or ends the program if there is none |
| `ExfatVolume.Volume.Begin` | src/exfat/cluster.c:261-274 | an empty file is given the lowest free cluster |
| `ExfatVolume.Volume.GrowFrom` | src/exfat/cluster.c:250-274 | growing starts from the last cluster of the list or from a first one, taken from the free clusters |
| `ExfatVolume.Volume.Seal` | src/exfat/cluster.c:300-302 | the last cluster is marked as the end of the list, and nothing else changes |
| `ExfatVolume.Volume.GrowOn` | src/exfat/cluster.c:276-298 | the loop either takes as many clusters as asked for or, with too few, restores list and bitmap |
| `ExfatVolume.Volume.Grow` | src/exfat/cluster.c:241-304 | the old list followed by exactly the requested number of distinct, formerly free clusters; failure exactly with too few free ones, and then the list and the free clusters are as before; no FAT entry outside the list and the free clusters changes |
| `ExfatVolume.Volume.Crop` | src/exfat/cluster.c:319-341 | the list is cut behind the clusters to keep, and the remembered position is reset |
| `ExfatVolume.Volume.FreeTail` | src/exfat/cluster.c:343-359 | exactly the clusters behind the cut become free, in the bitmap and, for a chained file, in the FAT |
| `ExfatVolume.Volume.FreeNext` | src/exfat/cluster.c:343-358 | one turn of that loop frees one more cluster and finds the next one before its link is lost |
| `ExfatVolume.Volume.Shrink` | src/exfat/cluster.c:306-360 | the list loses exactly its tail, which becomes free; the seek position is reset, and an emptied file is marked as changed |
| `ExfatContents.Bytes2ClustersExact` | src/exfat/cluster.c:67-71 | the clusters computed have room for the file and none is superfluous if and only if the file has at most 2^32 - 1 clusters worth of bytes |
| `ExfatContents.Bytes2ClustersWraps` | src/exfat/cluster.c:67-71 | two terabytes in clusters of 512 bytes are taken to need none |
| `ExfatContents.NeededCovers` | src/exfat/cluster.c:67-71 | every position of a file is in one of its clusters, and no cluster is superfluous |
| `ExfatContents.PieceOfContents` | src/exfat/io.c:300-318 | part of one cluster is that part of the flattened list |
| `ExfatContents.PieceWritten` | src/exfat/io.c:349-367 | writing into one cluster overwrites that part of the contents and nothing else |
| `ExfatContents.ChainedIsContents` | src/exfat/io.c:279-322 | the contents of a file are a prefix of its clusters laid end to end |
| `ExfatFile.Pread` | src/exfat/io.c:279-322 | reading at any offset returns that slice of the contents, cut at the end of the file |
| `ExfatFile.WriteOn` | src/exfat/io.c:347-367 | the loop overwrites exactly the window, and no cluster outside the list changes |
| `ExfatFile.EraseRange` | src/exfat/cluster.c:372-405 | everything from the old size to the new one is zero, and what was before is kept |
| `ExfatErase.CoversIffCountable` | src/exfat/cluster.c:407-439 | the clusters computed for a size reach up to it if and only if they can be counted in 32 bits |
| `ExfatErase.AdvanceAny` | src/exfat/cluster.c:92-112 | the cluster reached at any place, in the list or not: behind a chain its end mark, behind a contiguous file the clusters above, and the program stops on an empty list |
| `ExfatErase.VisitedClusters` | src/exfat/cluster.c:372-405 | the clusters an erasure up to such a size visits are different ones of the volume |
| `ExfatErase.NeverThere` | src/exfat/cluster.c:394-403 | and too few to reach that size |
| `ExfatErase.EraseBeyond` | src/exfat/cluster.c:372-405 | it never succeeds: exactly the rest of a chain, or every cluster from there to the end of the volume for a contiguous file, is filled with zeros, and then it fails or the program stops |
| `ExfatErase.VisitsNeighbour` | src/exfat/cluster.c:394-403 | a volume of two clusters on which such an erasure of one file visits the cluster behind it |
| `ExfatFile.Resize` | src/exfat/cluster.c:410-426 | the file has as many clusters as are computed for its new size; free and owned clusters together are the same as before |
| `ExfatFile.Truncate` | src/exfat/cluster.c:407-439 | without space nothing changes; else the result is a file, its bytes kept as far as they go and filled with zeros if asked for, if and only if the clusters of the new size can be counted in 32 bits. An erasing truncation to a size that cannot be counted never succeeds: it fails or the program stops, with the old size and what it erased told exactly; no cluster is lost or shared |
| `ExfatFile.TruncateHuge` | src/exfat/cluster.c:407-439 | a file in clusters of 512 bytes made two terabytes long loses all its clusters and is given that size |
| `ExfatFile.ConservedSize` | src/exfat/cluster.c:241-360 | as many clusters as before, owned and free together |
| `ExfatFile.PadTo` | src/exfat/io.c:331-333 | a gap before the offset is filled with zeros, or nothing changes for lack of space |
| `ExfatFile.LengthenTo` | src/exfat/io.c:334-336 | the file is made long enough and keeps its bytes, or nothing changes for lack of space |
| `ExfatFile.MakeRoom` | src/exfat/io.c:331-336 | the two truncations before a write: the gap is zero and there is room for the data |
| `ExfatFile.WrittenIsOverwrite` | src/exfat/io.c:324-370 | overwriting the file made long enough is what a write means: the window is the data, a gap reads as zero, the rest is unchanged |
| `ExfatFile.Pwrite` | src/exfat/io.c:324-370 | a write changes only its window and fills a gap with zeros; it fails exactly for lack of space and then keeps the old bytes, with zeros up to the offset if there was room for those |
| `ExfatSystem.OtherFile` | src/exfat/cluster.c:241-360 | an operation on one file leaves every file with other clusters valid and with the same bytes |
| `ExfatSystem.PartitionKept` | src/exfat/cluster.c:241-360 | the lists, the free and the fixed clusters still have nothing in common and leave nothing out |
| `ExfatVolume.FileNode.constructor` | src/exfat/node.c:169-179 | a new node is an empty file |
| `ExfatSystem.Mounted.Open` | src/exfat/node.c:191-199 | a file found on the volume takes over its clusters, and every cluster stays accounted for once |
| `ExfatSystem.Mounted.Create` | src/exfat/node.c:169-179 | a new file joins the volume without clusters |
| `ExfatSystem.WriteThenRead` | src/exfat/io.c:279-370 | a new file written at any offset reads back what was written, and fails exactly for lack of space |
| `ExfatSystem.Mounted.Write` | src/exfat/io.c:324-370 | a write to one file of many keeps every cluster accounted for exactly once and all other files unchanged |
| `ExfatSystem.Mounted.Truncate` | src/exfat/cluster.c:407-439 | the same for a truncation, with what becomes of the bytes of the file |
| `ExfatSystem.Mounted.Read` | src/exfat/io.c:279-322 | a read changes nothing but the remembered position |
| `ExfatSystem.Mounted.Flush` | src/exfat/cluster.c:157-172 | after any operations the bitmap on the device is the one in memory once it is flushed; one not marked as changed need not be written |
| `ExfatUsed.S2cOfCluster` | src/exfat/cluster.c:39-62 | every sector of a cluster is converted back to the cluster |
| `ExfatUsed.ClustersInRow` | src/exfat/cluster.c:39-45 | the clusters follow one another from the beginning of the heap on |
| `ExfatUsed.FindUsedClusters` | src/exfat/cluster.c:452-473 | the next run of used clusters is found if there is one; a run that reaches the end of the volume is given one cluster too many |
| `ExfatUsed.MarkRange` | src/exfatclone.c:65-70 | a range of sectors is marked, and the program ends exactly if it reaches outside the volume |
| `ExfatUsed.NextRange` | src/exfat/cluster.c:475-492 | each step of the walk adds exactly the sectors up to the end of the next run that are to be saved |
| `ExfatUsed.ReadBitmap` | src/exfatclone.c:48-76 | the bitmap is built exactly if all sectors to be saved are in the volume; it then marks them and no others: once a cluster is in use, everything before the first such cluster, the used clusters, and one more behind a used last one |
| `ExfatUsed.BuiltIff` | src/exfat/cluster.c:465-470 | on a volume that holds the clusters below the count, the bitmap can be built if and only if the last of them is free or there is room for one more |
| `ExfatUsed.UsedSaved` | src/exfat/cluster.c:475-492 | a sector of a used cluster is saved if and only if the walk gives its cluster |
| `ExfatUsed.AllGivenIff` | src/exfat/cluster.c:452-473 | by the cluster count of the exFAT specification, every used cluster is given if and only if the last one is free and the last but one is free or follows a used one |
| `ExfatUsed.LostExample` | src/exfat/cluster.c:455-455 | three clusters in use of which the last is not given |
| `ExfatUsed.AlwaysBuilt` | src/exfatclone.c:65-70 | by that count the volume has room for everything that is given |
| `ExfatUsed.ExactIffLastFree` | src/exfat/node.c:486-487 | by the count the source takes for the bitmap, the walk gives exactly the used clusters if and only if the last one is free |
| `ExfatUsed.OverrunExample` | src/exfat/node.c:486-487 | a concrete volume on which, by that count, it gives a cluster that does not exist |
| `DevCache.RelocateInit` | src/f2fs/libf2fs_io.c:188-207 | the probing offsets are those of the table up to the first that reaches more than halfway around |
| `DevCache.RelocateExample` | src/f2fs/libf2fs_io.c:188-207 | with 1024 entries the first ten offsets are used |
| `DevCache.NotCached` | src/f2fs/libf2fs_io.c:260-278 | a block not met on its places is in no slot, if the next place is unused or there is none |
| `DevCache.PlacedMore` | src/f2fs/libf2fs_io.c:281-297 | putting a block into the slot found for it keeps every cached block behind places that are in use |
| `DevCache.Cache.constructor` | src/f2fs/libf2fs_io.c:209-245 | a cache without valid slots fits every device |
| `DevCache.Cache.Find` | src/f2fs/libf2fs_io.c:260-278 | the slot of the block if it is cached, and then no other slot has it; else an unused slot or, with all places in use, the one whose block was read in longest ago |
| `DevCache.Cache.Fetch` | src/f2fs/libf2fs_io.c:331-354 | after a hit or a read into the cache the slot has the block, and no block is cached twice; a block read in is as it is on the device, only such a read moves the clock, and no other slot changes |
| `DevCache.Cache.ReadPiece` | src/f2fs/libf2fs_io.c:331-354 | a piece of a cached block is what the cache has seen, of any other what is on the device |
| `DevCache.Cache.Read` | src/f2fs/libf2fs_io.c:324-370 | every byte is the one the cache has seen or the one on the device; if all blocks of the range are cached it is the one seen |
| `DevCache.Cache.Refresh` | src/f2fs/libf2fs_io.c:331-340 | updating the slot of a written block, if there is one, makes the cache fit the device after the write |
| `DevCache.Cache.Update` | src/f2fs/libf2fs_io.c:324-370 | the same for a write of any length |
| `DevCache.Device.Read` | src/f2fs/libf2fs_io.c:522-545 | with or without a cache, a read returns what the device holds |
| `DevCache.Device.ReadBehind` | src/f2fs/libf2fs_io.c:522-545 | the same behind a cache that is stale: which bytes a read can return, and which it does if they are cached |
| `DevCache.Device.Write` | src/f2fs/libf2fs_io.c:564-590 | after a write the device holds the data and the cache fits it; a dry run changes nothing |
| `DevCache.Device.Fill` | src/f2fs/libf2fs_io.c:606-626 | a fill changes the device only, and the cache still fits it if and only if in every cached block the data are the bytes that were there |
| `DevCache.FillExample` | src/f2fs/libf2fs_io.c:606-626 | a block of ones, cached and then filled with a zero at its beginning, is still read as one |
| `DevCache.Device.Run` | src/f2fs/libf2fs_io.c:522-590 | over any run of reads and writes, contents and answers are those of a device without a cache |
| `DevCache.PlainKept` | src/f2fs/libf2fs_io.c:522-590 | after a run on a device without a cache a byte that was not written to is as it was |
| `DevCache.PlainWritten` | src/f2fs/libf2fs_io.c:564-590 | and one that was is what the last write to it has put there |
| `DevCache.PlainAnswer` | src/f2fs/libf2fs_io.c:522-545 | there is one answer to every read, in order, and it is what the device held at that time |
| `BitSearch.FfsIsFirst` | src/f2fs/libf2fs.c:326-341 | the halving computation gives the lowest set bit |
| `BitSearch.FindNext` | src/f2fs/libf2fs.c:346-369 | looking byte by byte finds the same bit as a scan bit by bit, for ones and for zeros |
| `BitSearch.SetBit` | src/f2fs/libf2fs.c:265-274 | one flag is set and no other changes |
| `BitSearch.BitIsDigit` | src/f2fs/libf2fs.c:265-274 | a bit of a byte is that binary digit of its number |
| `Dentry.RoomForFilename` | src/f2fs/dir.c:20-36 | the least place from which enough free places follow, or the maximum exactly if there is none |
| `Dentry.Inserted` | src/f2fs/dir.c:198-216 | a new name in free places of a well-formed block adds one entry and disturbs none |
| `Dentry.EntryFits` | src/f2fs/dir.c:64-98 | the places of every entry are marked and inside the block |
| `Dentry.Block.constructor` | src/f2fs/dir.c:38-62 | an empty block is well formed and has no entries |
| `Dentry.GapIsRoom` | src/f2fs/dir.c:64-98 | the longest gap is at least k if and only if k free places follow one another |
| `Dentry.Block.Find` | src/f2fs/dir.c:64-98 | the first entry with that name and hash, or none exactly if there is none, and the longest gap on the way |
| `Dentry.Block.WriteName` | src/f2fs/dir.c:210-211 | the name area with the name and a zero byte behind it, unless that falls behind the block |
| `Dentry.Block.MarkSlots` | src/f2fs/dir.c:214-215 | exactly the places of the name are marked |
| `Dentry.Block.Update` | src/f2fs/dir.c:198-216 | the block stays well formed, the new name is an entry, and every other entry keeps its name if and only if the zero byte behind the new name does not fall on a different first byte of it; the byte falls behind the block exactly for a name of a multiple of eight bytes in the last places |
| `Dentry.NameKept` | src/f2fs/dir.c:210-211 | which names the zero byte behind a name of a multiple of eight bytes changes |
| `Dentry.StrikeExample` | src/f2fs/dir.c:211-211 | a block in which an entry is changed by the name written before it |
| `Dentry.Block.Add` | src/f2fs/dir.c:281-292 | a name goes to the first place with room, if there is one, and is then an entry; the entries before it keep their names |
| `Dentry.AddThenFind` | src/f2fs/dir.c:64-292 | a name that is not in a block is added and found again, with its inode number, exactly if there is room |
| `NodeDump.NumberIndex` | src/f2fs/node.h:112-126 | every number of a direct node is that of exactly one place in the tree |
| `NodeDump.IndexNumber` | src/f2fs/node.h:112-126 | and every place has such a number |
| `NodeDump.StartOfDirect` | src/f2fs/dump.c:641-661 | the formula gives the first file block of every direct node, without 32-bit overflow |
| `NodeDump.StartOfInode` | src/f2fs/dump.c:641-648 | the addresses in the inode itself come first |
| `NodeDump.DumpDirect` | src/f2fs/dump.c:294-350 | a direct node gives its addresses at consecutive file blocks; a missing one is skipped over |
| `NodeDump.DumpIndirect` | src/f2fs/dump.c:294-350 | an indirect node gives its direct nodes one after the other, holes included |
| `NodeDump.DumpDouble` | src/f2fs/dump.c:294-350 | the same for a doubly indirect node |
| `NodeDump.DumpInode` | src/f2fs/dump.c:422-470 | every address reachable from an inode is dumped once, in order, at the file block it is for |
| `NodeDump.DumpAgrees` | src/f2fs/dump.c:641-661 | the walk dumps an address at a file block if and only if the formula for its node puts it there, whatever nodes are missing |
| `NodeDump.DumpedAt` | src/f2fs/dump.c:294-470 | the file block of every address, by its path of ids from the inode: through which id of which node |
| `NodeDump.MappedInOrder` | src/f2fs/dump.c:294-470 | addresses are dumped in the order of their file blocks, and none twice |
| `JfsXtree.Search` | src/jfsclone.c:512-539 | the halving search hits exactly if some entry covers the key, and otherwise stops just past the last smaller entry, which is a place of the header exactly if the key lies before the first entry |
| `JfsXtree.Find` | src/jfsclone.c:509-561 | for every key: the mapping of the leaf entry that covers it, or nothing exactly if no leaf entry does, except that the search strays into a page header if and only if a page on the way has the key before its first entry |
| `JfsXtree.TightDoesNotStray` | src/jfsclone.c:543-558 | it never strays in a tree whose internal pages begin with their smallest key |
| `JfsXtree.StrayExample` | src/jfsclone.c:546-546 | a root whose only entry starts at 5, searched for key 3 |
| `JfsXtree.OneCovers` | src/jfsclone.c:62-67 | at most one leaf entry covers a key |
| `JfsMap.DecodeEncode` | src/jfsclone.c:392-414 | decoding a page number undoes the page formulas of all levels |
| `JfsMap.EncodeDecode` | src/jfsclone.c:392-414 | every page number is one of theirs |
| `JfsMap.PageExamples` | src/jfsclone.c:392-414 | the kinds of the first pages of every level |
| `JfsMap.NextDmap` | src/jfsclone.c:55-60 | between the page of one dmap and that of the next there are only control pages, at most two |
| `JfsMap.DmapIndex` | src/jfsclone.c:55-60 | every dmap page is one of the pages so counted |
| `JfsMap.InUseIsDigit` | src/jfsclone.c:563-575 | what is looked at for a block is a binary digit of its word, the first block being the highest |
| `JfsMap.BinaryIsNumber` | src/jfsclone.c:563-575 | the 32 digits of a word are those of its number |
| `JfsMap.FirstBlockExample` | src/jfsclone.c:563-575 | of the word 0x80000000 the first block is in use and no other |
| `JfsMap.ReadDmap` | src/jfsclone.c:268-286 | the blocks of one dmap, if any, are copied to the bitmap in order, up to the end of the map, as the binary digits of its words say; a block outside the volume ends the program |
| `JfsMap.WalkAt` | src/jfsclone.c:246-291 | after any number of turns the walk is on the way to a dmap and has been told what those before it say; it has stopped only if that is enough |
| `JfsMap.Reaches` | src/jfsclone.c:246-291 | it reaches every dmap before which not enough was told |
| `JfsMap.EndlessExample` | src/jfsclone.c:246-291 | with pages that tell about no block it never stops |
| `JfsMap.StopsIff` | src/jfsclone.c:246-291 | it stops if and only if some number of dmaps tells about enough blocks |
| `JfsMap.ReadMap` | src/jfsclone.c:233-291 | the walk from page 4 reads the dmaps in order, passing over empty ones, and the bitmap is what they say one after the other; it succeeds exactly if the map is no larger than the volume, and takes the turns counted by After |
| `JfsMap.ReadBitmap` | src/jfsclone.c:231-307 | as far as the map goes the bitmap is what the dmaps say, the binary digits of their words highest first; everything behind it, the log included, is kept |
| `TorrentPieces.PiecesAre` | src/torrent_helper.c:32-92 | the pieces of a stream are the stream, none is empty and all but the last are full |
| `TorrentPieces.FullPieces` | src/torrent_helper.c:43-91 | full pieces and a rest are the pieces of what they make together |
| `TorrentPieces.Generator.constructor` | src/torrent_helper.c:16-30 | nothing fed and nothing written |
| `TorrentPieces.Generator.Update` | src/torrent_helper.c:32-92 | the lines written, the bytes in the hash context and the length stay those of the pieces of everything fed |
| `TorrentPieces.Generator.Final` | src/torrent_helper.c:94-114 | the lines are the hashes of the pieces of everything fed, the last one only if bytes remain |
| `TorrentPieces.HashStream` | src/torrent_helper.c:16-114 | however a stream is cut into updates, the lines are the hashes of its pieces |
| `Utf.Utf16Back` | src/exfat/utf.c:85-102 | a character read from UTF-16 is in range and written back as the same units, surrogate pairs included |
| `Utf.Utf8Back` | src/exfat/utf.c:26-179 | a character written to UTF-8 is read back, whatever follows it |
| `Utf.Utf8Is` | src/exfat/utf.c:26-83 | the bytes of a character, as RFC 3629 gives them |
| `Utf.FromUtf8Is` | src/exfat/utf.c:130-179 | the character read, by the range of the first byte and six bits of every other |
| `Utf.Utf16Is` | src/exfat/utf.c:181-196 | the units of a character, as RFC 2781 gives them |
| `Utf.FromUtf16Is` | src/exfat/utf.c:85-102 | the character read from a unit or a pair |
| `Utf.Utf16ToUtf8` | src/exfat/utf.c:104-128 | the result for every name: its encoding with a zero behind it if it is legal and fits, and otherwise the error met first; the one cell behind the room is written exactly if the text fills the room |
| `Utf.Utf8ToUtf16` | src/exfat/utf.c:198-222 | the same in the other direction |
| `Utf.RoundTrip` | src/exfat/utf.c:26-222 | decoding the encoding of a legal name gives its units up to the first zero, whatever follows a zero behind it |
| `Utf.ThereAndBack` | src/exfat/utf.c:104-222 | every name the first conversion accepts is returned unchanged by the second from the same buffer, given room |
| `ExfatTime.CalendarAgrees` | src/exfat/time.c:44-56 | the day the source computes for a date is that of the Gregorian calendar if and only if it is before 1 March 2100 |
| `ExfatTime.FirstOfMarch2100` | src/exfat/time.c:44-56 | 1 March 2100 is taken for the day after it |
| `ExfatTime.EpochAgrees` | src/exfat/time.c:39-41 | the ten years from 1970 have the days the source takes |
| `ExfatTime.YearOf` | src/exfat/time.c:123-124 | the division by the average length of four years gives the year of a day, for all 128 years |
| `ExfatTime.FindMonth` | src/exfat/time.c:126-139 | the loop finds the month and day of a day of the year, in leap years too |
| `ExfatTime.UnpackPack` | src/exfat/time.c:145-146 | the fields of the date and time words do not overlap and are read back |
| `ExfatTime.WordsAre` | src/exfat/time.c:60-66 | the fields of the words as numbers: a day in 32, a month in 16, then the year; two seconds in 32, a minute in 64, then the hour |
| `ExfatTime.MomentExamples` | src/exfat/time.c:56-106 | the beginning of 1980 and the noon of a leap day, in seconds after 1970 |
| `ExfatTime.Exfat2Unix` | src/exfat/time.c:56-106 | a timestamp with good fields is converted to its moment, one with a bad field to 0 |
| `ExfatTime.Unix2Exfat` | src/exfat/time.c:108-149 | the fields written are good and stand for the given moment, or for the beginning of 1980 for an earlier one |
| `ExfatTime.ThereAndBack` | src/exfat/time.c:56-149 | every moment of the 128 years comes back as the same second, for every timezone; without the centiseconds an odd second is lost |
| `FatWalk.ClustersFit` | src/fatclone.c:140-157 | the clusters counted lie inside the volume and one more would not |
| `FatWalk.Reader.Read12` | src/fatclone.c:160-173 | the n-th call yields the n-th packed 12-bit entry |
| `FatWalk.Reader.Read` | src/fatclone.c:306-383 | the same for all three kinds of FAT |
| `FatWalk.KeptIff` | src/fatclone.c:306-383 | a cluster is kept exactly if the bytes of its entry are neither zero nor the mark of a bad cluster |
| `FatWalk.CleanIff` | src/fatclone.c:179-242 | the status is good exactly if the two highest bits of entry 1 are set in its bytes |
| `FatWalk.UsedSector` | src/fatclone.c:416-490 | sector by sector: marked unless it belongs to a cluster that is not in use |
| `FatWalk.MarkReserved` | src/fatclone.c:245-269 | exactly the reserved, FAT and root directory sectors are marked so far; the program ends exactly if they do not fit the volume |
| `FatWalk.WalkClusters` | src/fatclone.c:469-483 | cluster by cluster the sectors are marked or cleared as the entry says, never outside the volume |
| `FatWalk.ReadBitmap` | src/fatclone.c:416-490 | a sector is marked exactly if it does not belong to a cluster whose entry, in the bytes of the FAT, is zero or the bad mark; refused exactly for too many clusters, metadata that do not fit the volume or, unless that check is ignored, a volume not unmounted cleanly or with errors |
| `FatWalk.GetUsedBlock` | src/fatclone.c:493-560 | the count is the number of those sectors, for every clean volume that holds its metadata |

## Left out

- Failing I/O: short reads, seek errors, rescue of bad sectors, `opt.force` and `skip_write_error`; a device is a sequence of bytes and calls succeed.
- Images of version 0001, whose headers are told apart but not looked into, and bitmaps of one byte per block or none.
- `blockfile` and torrent-only cloning, the `dd` and domain modes, image checking, and everything the user interface shows.
- ImageClone.Clone: requires that the size of a full batch with its checksums fits 32 bits, the type the source keeps it in; `BufferFits` gives buffer sizes for which it does.
- ImageRestore.Restore: requires that the last read fits the read buffer, by the exact condition of `ReadsFitIff`, and that the batch size fits 32 bits; a target that can be sought in is long enough, and `RestoreRaw` is about one that is not.
- ImageFile.Save: bitmaps have one bit per block; the checksum functions other than CRC-32 are given by their modes.
- ImageHeader.LoadedIff: the version number is not cut to 32 bits, which only numbers of ten digits and more would notice.
- ImageBitmap.Write: words are laid out lowest byte first, as on the usual machines.
- Crc32.TableCrc32: the variant that calls ISA-L is not modelled; XXH64 and XXH128 are unknown functions.
- FuseReader.ReadFile: the path names and the other FUSE operations are not modelled.
- SortedDictionary.Dict.Insert: keys are integers compared as such, in place of an arbitrary comparison; the limit on the number of nodes is not modelled.
- Deleting, merging and bulk loading of dictionaries, which are not compiled in the source.
- ExfatVolume.Volume.Grow: excludes the file of one contiguous cluster of which only the cluster just below is free; `Extend` and `GrowBelow` show what happens then.
- ExfatFile.Truncate: excludes the growth that `Grow` excludes. Reference counts, time stamps and flushing of nodes are not modelled.
- ExfatFile.Pwrite: requires that the clusters of the new size can be counted, and excludes the file that `Grow` excludes.
- ExfatSystem.Mounted.Write: the same as for `Pwrite`.
- ExfatSystem.Mounted.Truncate: the same, since the result would not be a file.
- ExfatFile.EraseRange: the end of a cluster is computed by arithmetic where the source uses a bit mask; for cluster sizes that are powers of two this is the same.
- The on-disk form of the FAT, the superblock, directory entries, labels and renaming of exFAT.
- DevCache.Cache.constructor: slots begin unused; the source does not clear its array of flags. At most 16 probes are made, and there is one device.
- DevCache.Device.Run: a fill is not a step of a run, because it can leave the cache stale; `Fill` says exactly when. Sparse and zoned devices are left out.
- Dentry.Block.Update: names are not empty.
- NodeDump.DumpInode: inline data, extended attributes and the printing of the file map are not modelled.
- JfsXtree.Find: pages are the children of their page in place of disk addresses; what is read from a page header once the search has strayed is not modelled.
- JfsMap.ReadMap: requires that some number of dmaps tells about enough blocks, without which, by `StopsIff`, the walk does not end; the addresses of the pages are found by code that is not part of this model.
- Utf.Utf16ToUtf8: the five- and six-byte forms of UTF-8 are read but never written, because UTF-16 cannot express them.
- Readers of other file systems (ext, NTFS, XFS, Btrfs, HFS+, APFS, Minix and more), most of whose work is in libraries.
