# A model of the image, boot and wire-format code of this repository

The repository builds boot and root file system images for small panels, and talks to their boot loader. This
project models the parts of it that compute something intricate, in Dafny, and proves what they promise:

* `tools/avbtool`: the `ImageHandler`, which edits Android sparse files in place and must look like a plain byte
  array; the Merkle tree builder, which fills one array upside down; the descriptors, the footer and the vbmeta
  blob with their parsers; and the commands that add, move, erase, zero and verify footers.
* `tools/mksparse.py`: the encoder of sparse files, whose output `ImageHandler` reads.
* `smoke/catch_uboot.py`: WebSocket framing over a stream that arrives in arbitrary pieces.
* `initramfs/init`: the boot script, for every outcome of every mount and unmount.
* `tools/uboot_env_edit.py` and `tools/mkinitramfs.py`: the environment block codec and the cpio writer.

Check everything with `dafny verify dfyconfig.toml`.

## How the model is built

A file is a sequence of bytes; a handler, a socket, the boot script and the cpio writer are classes with the fields
the source gives them, and their methods are proved against functions of the old state. Text is its UTF-8 encoding,
except in the environment and cpio modules, where it is a sequence of code points. Exceptions are a `Result`.
Random salts and masks, the system's hash functions (`Hashlib`: names, fixed digest sizes, and otherwise arbitrary
functions), the CRC, the outcome of checking a signature and the answers of the operating system are parameters, so
every theorem holds for all of them. Integers are unbounded and every field width is checked where the source packs
one. No collision freedom is assumed anywhere: `EqualRootsCollideOrAgree` returns a collision instead.

| module | about |
|---|---|
| `Bytes`, `Results`, `Struct` | bytes, integers in fields, slices, exceptions, fixed layouts |
| `SparseFormat`, `SparseEdit` | what a sparse file stands for; which edits keep it well formed |
| `SparseImage`, `SparseRun` | `ImageHandler`, and whole runs of its operations against a flat file |
| `MkSparse` | converting to sparse and verifying the result |
| `HashTree`, `Merkle` | level arithmetic; the in-place builder against a recursive Merkle tree |
| `Descriptors`, `VBMeta`, `Blob` | encoding and parsing of descriptors, footer, header and blob |
| `FooterOps`, `FooterEdits` | hash footers: adding, erasing, resizing, and their algebra |
| `HashtreeFooter`, `HashtreeLaws`, `ZeroHashtree` | hashtree footers and the zeroing of trees |
| `Verify`, `VerifyLaws` | `verify_image`, and what it says about images the other commands wrote |
| `Counterexamples` | concrete images and options for which a blob is cut, a file is lost or an image does not verify |
| `NumberTheory` | `egcd`, `modinv`, long integers, the RSA public key header |
| `WebSocket`, `BootInit`, `UBootEnv`, `CpioArchive` | the four smaller programs |
| `Layouts`, `Readings`, `SparseLayout` | the formats byte by byte, as they are written and as they are read |
| `Outcomes`, `Acceptance` | what the commands leave and accept, field by field, in terms of their arguments |

Most results are stated through specification functions. The last two rows, and the sections at the end of the other
modules, say what those functions are without them: each field at its offset, each flag from its option, each step of
the boot script from the answer it depends on.

## What the proofs found in the source

Where the code and its documentation or the obvious expectation differ, the model follows the code. Each difference
has a member that states it, most of them both an exact condition and a concrete input:

* Truncating a sparse image to its current size leaves the cursor where it is, while a flat file's cursor goes back
  to the start (`SparseRun.SameSizeTruncateDiffers`, tools/avbtool:1128-1143).
* Reading past the end of a sparse image moves the cursor back to the end (`SparseRun.ReadPastEndDiffers`), or fails
  with a negative count when the last chunk is RAW (`SparseRun.ReadPastRawFails`); a flat file's cursor stays. `Read`
  behaves as on a flat file exactly under the condition its contract states (tools/avbtool:1060-1109).
* An append to a sparse file writes the counts in the header before it checks anything else. If it is then refused, for
  a negative or an overlong size, the file cannot be opened again (`SparseRun.RefusedAppendBreaksFile`); if the counts
  themselves do not fit, the file is unchanged and every later append fails. The contracts of the append operations say
  exactly which (tools/avbtool:932-1045). Only a cut to a smaller size repairs the header: the commands that add a
  footer leave a file that can be opened, unless the first thing they append is too long
  (`FooterOps.AddHashFooter`, `HashtreeFooter.AddHashtreeFooter`), and `zero_hashtree` breaks a sparse file whose
  tree or FEC data has size zero (`ZeroHashtree.ZeroHashtree`).
* If the image in a sparse file grows to whole blocks of the tree by less than whole blocks of the file,
  `add_hashtree_footer` writes a RAW chunk that cannot be read again, whatever the file is then cut to
  (`SparseImage.ImageHandler.AppendOdd`, `SparseEdit.OddNeverOpens`). The handler is left taking the file for a flat
  one, so the attempt to restore the image cuts or extends the sparse file itself: the file is lost
  (`HashtreeFooter.AddHashtreeFooter`, `Counterexamples.OddBlocksLoseFile`, tools/avbtool:3772-3779).
* A read-back of a flat file of fewer than 28 bytes fails after the file was already cut; the commands that add a
  footer take this error for a missing footer, and also that of a sparse file that cannot grow back to its original
  size (`FooterOps.StripFooter`, tools/avbtool:3503-3517).
* On a flat file, a blob that does not fit the partition is cut for the footer instead of refused; a sparse file refuses
  it (`FooterEdits.AddToSparseAndFlat`, `HashtreeLaws.AddTreeToSparseAndFlat`). For hash footers this takes a blob over
  64 KiB (`Counterexamples.HashBlobIsCut`), but for tree blocks that are not whole blocks of the file a smaller one
  does, because the check is made before image and tree are rounded up (`HashtreeLaws.TreeFooteredLayout`,
  `HashtreeLaws.BlobOf64KiBIsCut`, `Counterexamples.TreeBlobIsCutBelow64KiB`, tools/avbtool:3720-3850).
* The levels of the hash tree are computed before the image is grown to whole blocks of the file. If that makes a tree
  of another size, the descriptor claims too few bytes and the image does not verify
  (`VerifyLaws.HashtreeFooterVerifies`, `HashtreeLaws.LevelsDiffer`); an image of one tree block that is not whole
  blocks of the file cannot be given a tree at all (`HashtreeLaws.OneBlockFails`). Above that, blocks of 512, 1024
  and 2048 bytes are safe (`HashtreeLaws.SameLevelsAbove`).
* `zero_hashtree` keeps the size of the image only if tree and FEC data take at least a block each
  (`ZeroHashtree.ZeroingKeepsTheRest`). An image written with `--no_hashtree` grows by a block and cannot be parsed any
  more, and a tree that is not whole blocks leaves the image cut behind the first marker (`VerifyLaws.AddThenZero`).
  Every run refused after the cut has lost the footer (`ZeroHashtree.FooterIsLost`).
* `generate_hash_tree` reads a variable it has not set for less than a block of data, and for more than one block it
  ends only if the image is as long as the size it is given (`Merkle.HashingEnds`, `Merkle.ShortImageNeverHashed`). The
  level computation ends exactly when the image is at most one block or two padded digests fit in a block
  (`HashTree.LoopEnds`).
* `verify_image` reads the data of a hash descriptor without a partition name from where the cursor is, behind the blob
  (`VerifyLaws.HashFooterVerifies`, `Counterexamples.UnnamedDoesNotVerify`, tools/avbtool:1718-1724).
* An image to which a footer was added with `--no_hashtree` verifies only if zeroed trees are accepted or it is a
  single block (`VerifyLaws.HashtreeFooterVerifies`).
* A footer that points to an empty blob at the start of a flat file makes `resize_image` cut the file to nothing and
  then fail (`FooterEdits.ResizeImage`, `Counterexamples.ResizeToNothing`).
* A header parsed from no data at all is a default header (`VBMeta.ParseHeader`, tools/avbtool:2131-2181).
* A caller of `ws_recv_all_available` cannot tell a close frame from an ordinary end of input, and the rest of the
  buffer is dropped (`WebSocket.CloseLooksLikeNothing`, smoke/catch_uboot.py:114-115).
* `sendall` on the non-blocking socket may raise after part of a frame. The caller cannot tell how much was sent, and
  the receiver waits for the rest (`WebSocket.SendBinary`, `WebSocket.CutFrameWaits`, smoke/catch_uboot.py:46-60).
* `modinv` finds no inverse of a negative number even if there is one (`NumberTheory.ModinvFindsInverse`,
  `NumberTheory.NegativeHasNoModinv`).
* The name size in a cpio header counts characters, not bytes, so it is right exactly for ASCII names
  (`CpioArchive.NameSizeIsRight`).

## Model

| member | source | states |
|---|---|---|
| `Bytes.RoundUpLeast` | tools/avbtool:239-253 | `round_to_multiple` gives the least multiple that is not below the number |
| `SparseFormat.ParseFindsTable` | tools/avbtool:798-917 | the header reader accepts every well-formed sparse file and finds exactly its chunk table, image size and end |
| `SparseFormat.ParseSound` | tools/avbtool:798-917 | conversely, a file the reader accepts completely is well formed: contiguous, sorted chunks, matching counts, nothing behind the last chunk |
| `SparseFormat.ExpandSlice` | tools/avbtool:691-747 | chunk `i` produces exactly its own stretch of the flat image |
| `SparseFormat.TableFrame` | tools/avbtool:691-747 | a table and its image depend only on the bytes of its own chunks |
| `SparseLayout.SparseFileIs` | tools/avbtool:798-917 | a whole sparse file, byte by byte: magic, version and sizes, counts, and the chunks behind each other with nothing after the last one |
| `SparseLayout.TableIs` | tools/avbtool:846-900 | a chunk table is exactly a row of chunks with their types, sizes and payloads at their offsets |
| `SparseLayout.ImageByte` | tools/avbtool:691-747 | each byte of the image: copied from the payload, one of the four fill bytes by its position modulo four, or zero |
| `SparseLayout.RoundIs` | tools/avbtool:849-897 | one round of the chunk loop: the four kinds by their bytes, the size each must have, what is kept, and the error otherwise |
| `SparseLayout.ParseIs` | tools/avbtool:817-917 | too short, flat, a wrong version or size, or the chunks that are announced with matching blocks and nothing behind them |
| `SparseLayout.SampleParses` | tools/avbtool:798-917 | a concrete file of 72 bytes with a RAW, a FILL and a DONT_CARE chunk, its table and its image |
| `SparseLayout.PatchCountsIs` | tools/avbtool:919-930 | only the eight bytes at offset 16 change, to the two counts |
| `SparseLayout.ChunkHeaderIs` | tools/mksparse.py:53-61 | the twelve bytes of a chunk header |
| `SparseLayout.FileHeaderIs` | tools/mksparse.py:37-50 | the 28 bytes of a file header |
| `SparseEdit.AppendChunk` | tools/avbtool:957-967 | patching the counts and writing chunk header and payload at the end gives a well-formed file with one more chunk and a longer image |
| `SparseEdit.CutAtBoundary` | tools/avbtool:1145-1188 | cutting the file at a chunk boundary, with patched counts, leaves a well-formed file for the cut image |
| `SparseEdit.CutInMiddle` | tools/avbtool:1148-1188 | so does rewriting a chunk's header for fewer blocks and cutting inside its payload |
| `SparseEdit.OddNeverOpens` | tools/avbtool:843-895 | a sparse file with a RAW chunk that is not whole blocks cannot be opened, nor anything it is cut or grown to |
| `SparseImage.BisectRight` | tools/avbtool:1081-1083 | the insertion point: everything before is at most `x`, everything after is larger |
| `SparseImage.FillPhase` | tools/avbtool:1094-1097 | repeating the four bytes often enough and slicing at the offset modulo four gives the chunk's bytes at that offset |
| `SparseImage.ReadPieceInside` | tools/avbtool:1091-1100 | a piece read from a chunk is that stretch of the chunk's bytes, for all three kinds |
| `SparseLayout.BehindTheEnd` | tools/avbtool:1086-1100 | what the last chunk gives when it is asked for a negative number of bytes, for each kind |
| `SparseImage.ImageHandler.Open` | tools/avbtool:781-796 | opening succeeds exactly when the header parses, and gives a consistent handler for complete files |
| `SparseImage.ImageHandler.ReadHeader` | tools/avbtool:798-917 | re-reading a file makes every table of the handler agree with it and resets the cursor; it fails exactly when parsing fails |
| `SparseImage.ImageHandler.ReadChunks` | tools/avbtool:846-900 | the chunk loop computes the recursive scan |
| `SparseImage.ImageHandler.UpdateChunksAndBlocks` | tools/avbtool:919-930 | both counts are patched in place, or nothing is if one does not fit 32 bits |
| `SparseImage.ImageHandler.AppendDontCare` | tools/avbtool:932-967 | exactly when it succeeds; the image grows by zeros (a flat one is cut by a negative count). What a refused call leaves: nothing changed before the checks; on a sparse file the same image, but the counts written if they fit, and then a file that cannot be opened |
| `SparseImage.ImageHandler.AppendRaw` | tools/avbtool:969-1007 | exactly when it succeeds; the image grows by the data; what a refused call leaves of a sparse file, as above; nothing succeeds once the counts have left their fields |
| `SparseImage.ImageHandler.AppendOdd` | tools/avbtool:969-1007 | data that is not whole blocks is never appended to a sparse file; exactly when nothing is written, when only the counts, and when a chunk after which neither this file nor anything it is cut or grown to can be opened |
| `SparseImage.ImageHandler.AppendFill` | tools/avbtool:1009-1045 | exactly when it succeeds; the image grows by the repeated four bytes; what a refused call leaves of a sparse file, as above |
| `SparseImage.CountsWritten` | tools/avbtool:919-955 | a file whose counts announce one chunk more has the same table and image, but cannot be opened |
| `SparseImage.ImageHandler.Seek` | tools/avbtool:1047-1058 | moves the cursor unless the offset is negative |
| `SparseImage.ImageHandler.Read` | tools/avbtool:1060-1109 | the bytes of the flat image at the cursor, if and only if the handler is flat, nothing is asked for, or there is a chunk and the cursor is not past the end; otherwise exactly the error, or what the last chunk gives for a negative count |
| `SparseImage.ImageHandler.ReadLoop` | tools/avbtool:1084-1109 | the chunk loop returns the clipped stretch and the cursor behind it |
| `SparseImage.ImageHandler.Truncate` | tools/avbtool:1119-1191 | exactly when it succeeds, and with which error it fails; the image is cut or grown with zeros; a refused growth leaves the sparse file as it was and the counts out of their fields; stale counts are repaired by a cut |
| `SparseImage.ImageHandler.CutSparse` | tools/avbtool:1145-1188 | cutting a sparse image anywhere at a block boundary, also inside a chunk, always succeeds and leaves a consistent handler |
| `SparseImage.ImageHandler.CountBlocks` | tools/avbtool:1181-1183 | recounting the chunks that stay gives the blocks of the cut image |
| `SparseRun.Step` | tools/avbtool:932-1191 | each operation gives what a flat file gives if and only if a condition holds that can be checked before the call |
| `SparseRun.Run` | tools/avbtool:932-1191 | every run of operations on a handler returns and ends as the same run on flat bytes |
| `SparseRun.RunBoth` | tools/avbtool:932-1191 | a sparse file and its expansion cannot be told apart by any run allowed on both |
| `SparseLayout.PlainStep` | tools/avbtool:932-1191 | the plain file a run is compared with: the bytes, the cursor and the result of each operation |
| `SparseLayout.AdmissibleIs` | tools/avbtool:932-1191 | the condition for behaving like a plain file, written out for each operation |
| `SparseRun.SameSizeTruncateDiffers` | tools/avbtool:1128-1143 | both handlers after truncating a file of one block to its size, from the same cursor: the sparse one keeps it, the flat one does not |
| `SparseRun.SameSizeNotAdmissible` | tools/avbtool:1128-1143 | the condition for behaving like a flat file is false for that call on any handler of that file, and what a flat file would do |
| `SparseRun.ReadPastEndDiffers` | tools/avbtool:1060-1109 | both handlers of that file after the same read past its end: the cursor of the sparse one has moved back |
| `SparseRun.PastEndNotAdmissible` | tools/avbtool:1060-1109 | the condition for behaving like a flat file is false for that read on any handler of that file, and what a flat file would do |
| `SparseRun.RefusedAppendBreaksFile` | tools/avbtool:932-967 | a concrete sparse file that cannot be opened any more after a refused append |
| `SparseRun.ReadPastRawFails` | tools/avbtool:1086-1093 | on any handler of a sparse file of one RAW block a read past the end is an error |
| `MkSparse.LabelsOfRuns` | tools/mksparse.py:78-92 | the runs stand for exactly the block map they were made from |
| `MkSparse.RunsAlternate` | tools/mksparse.py:78-92 | no run is empty and neighbouring runs differ in kind |
| `MkSparse.RunsMinimal` | tools/mksparse.py:78-92 | no encoding whose DONT_CARE chunks are exactly the zero blocks has fewer chunks |
| `MkSparse.Coalesce` | tools/mksparse.py:78-92 | the scanning loop produces the maximal runs, and their bytes are the padded input |
| `MkSparse.FileHeaderFields` | tools/mksparse.py:37-50 | the written file header has the fields the reader insists on |
| `MkSparse.Convert` | tools/mksparse.py:64-102 | succeeds exactly when all 32-bit fields fit (RAW runs of at most 1048575 blocks); the result is a well-formed sparse file of the padded input with one chunk per run |
| `SparseLayout.ZeroBlockIs` | tools/mksparse.py:73-92 | a block is left out exactly if all its 4096 bytes are zero |
| `SparseLayout.PaddedIs` | tools/mksparse.py:67-72 | the input is followed by zeros up to the next multiple of 4096 |
| `MkSparse.ConvertAndRead` | tools/mksparse.py:64-102 | end to end: reading the converted file back through `ImageHandler` gives the zero-padded input |
| `MkSparse.Verify` | tools/mksparse.py:105-150 | accepts exactly the files whose header, chunk sizes and covered blocks are right for the raw size |
| `MkSparse.VerifyWellFormed` | tools/mksparse.py:105-150 | on a well-formed sparse file, `verify` accepts exactly if the sizes match |
| `SparseLayout.WalkIs` | tools/mksparse.py:124-139 | one round of `verify`: which chunks it accepts, the blocks they cover and where the next one is |
| `MkSparse.ConvertAndVerify` | tools/mksparse.py:64-150 | `verify` accepts whatever `convert` produced |
| `HashTree.LevelShrinks` | tools/avbtool:4091-4099 | with room for two digests in a block, every level has fewer blocks than the one below |
| `HashTree.LevelsTile` | tools/avbtool:4101-4105 | the levels tile the tree: a level starts where the levels above it end, and together they are the tree |
| `HashTree.CalcHashLevelOffsets` | tools/avbtool:4073-4107 | the two loops compute the recursive offsets and the tree size, and end |
| `HashTree.LoopEnds` | tools/avbtool:4091-4099 | the level loop ends if and only if the image is at most one block or two digests fit in a block |
| `HashTree.TreeSizeMonotone` | tools/avbtool:4073-4107 | a larger image never has a smaller tree |
| `HashTree.SameTreeSize` | tools/avbtool:4073-4107 | a larger image whose tree has the same size has the same levels |
| `Merkle.GenerateHashTree` | tools/avbtool:4173-4241 | for any offsets inside the array: the root of the recursive Merkle tree, and the array with each level written at its offset, longer if a level reaches past the end; too few offsets and less than a block of data are errors; one block is hashed as it is. `Merkle.TreeIs` says what root and tree are |
| `Merkle.WrittenTree` | tools/avbtool:4227-4237 | at the offsets of the tree the levels do not overlap and make up exactly the recursive tree, top level first |
| `Merkle.EnoughOffsets` | tools/avbtool:4227-4237 | every level finds its place if and only if there are at least as many offsets as levels |
| `Merkle.WrittenSize` | tools/avbtool:4227-4237 | offsets computed for a smaller image never make the array longer than the tree of the image |
| `Merkle.UpperLevels` | tools/avbtool:4203-4241 | the level loop above the image: each level read back from the array is the one just written, whatever the offsets |
| `Merkle.NextLevel` | tools/avbtool:4204-4225 | one level is hashed from where it was written, giving the next level |
| `Merkle.HashImage` | tools/avbtool:4203-4225 | the bottom level: the padded digests of all blocks of the image, the last one filled with zeros |
| `Merkle.LevelIs` | tools/avbtool:4203-4229 | each digest of a level stands at its slot, over salt and block, and every other byte is zero |
| `Merkle.LevelBytes` | tools/avbtool:4203-4229 | the same for one block and one byte, without predicates of this project |
| `Merkle.TreeIs` | tools/avbtool:4173-4241 | root, tree and offsets described level by level: each level over the one below, at its offset, down to a single block |
| `Merkle.TreeMeans` | tools/avbtool:4173-4241 | what the description says of the root and of the last level, and that the levels in front are described in the same way |
| `Merkle.TreeUnique` | tools/avbtool:4173-4241 | that description has one root and one tree |
| `Merkle.BuildWhole` | tools/avbtool:4073-4241 | computing the offsets and building gives a root and an array of that description |
| `Merkle.HashingEnds` | tools/avbtool:4203-4217 | the hashing of the image ends if and only if the image is as long as the size given |
| `Merkle.HashRounds` | tools/avbtool:4206-4217 | what the loop has left after any number of rounds is what that theorem is about |
| `Merkle.ShortImageNeverHashed` | tools/avbtool:4203-4217 | a concrete image and size for which 2192 bytes are left after every round from the second on |
| `Merkle.EqualRootsCollideOrAgree` | tools/avbtool:4203-4241 | images of equal size with equal roots are equal, or two different hash inputs with the same digest are returned |
| `Struct.SplitJoin` | tools/avbtool:2055-2063 | cutting joined fields at their widths gives the fields back |
| `Struct.FixedRoundTrip` | tools/avbtool:1447-1451 | text survives a NUL-padded field exactly if it fits and does not end in NUL |
| `Readings.Utf8Is` | tools/avbtool:2155-2158 | the bytes accepted as UTF-8 are exactly the encodings of texts without surrogates |
| `Descriptors.FormatSize` | tools/avbtool:1287-1305 | each format string has the size the class declares |
| `Descriptors.EncodedAligned` | tools/avbtool:1343-1358 | every encoded descriptor is a multiple of eight bytes long |
| `Layouts.PropertyLayout` | tools/avbtool:1343-1358 | every field of the encoding at its offset; key and value, each with a NUL behind it |
| `Layouts.HashtreeLayout` | tools/avbtool:1511-1532 | the same for hashtree descriptors |
| `Layouts.HashLayout` | tools/avbtool:1682-1700 | the same for hash descriptors |
| `Layouts.KernelCmdlineLayout` | tools/avbtool:1800-1813 | the same for command lines |
| `Layouts.ChainPartitionLayout` | tools/avbtool:1911-1927 | the same for chained partitions |
| `Layouts.UnknownLayout` | tools/avbtool:1240-1252 | the same for other tags |
| `Layouts.EncodedIf` | tools/avbtool:1194-1252 | when encoding succeeds, field by field |
| `Readings.PropertyReadIf` | tools/avbtool:1294-1323 | which bytes are a property descriptor, and what is read from them |
| `Readings.HashtreeReadIf` | tools/avbtool:1425-1485 | the same for hashtree descriptors, the algorithm and the length of its digest included |
| `Readings.HashReadIf` | tools/avbtool:1621-1666 | the same for hash descriptors |
| `Readings.KernelCmdlineReadIf` | tools/avbtool:1759-1788 | the same for command lines |
| `Readings.ChainPartitionReadIf` | tools/avbtool:1857-1894 | the same for chained partitions |
| `Descriptors.ParseEncoded` | tools/avbtool:1194-1252 | for each kind, parsing undoes encoding if and only if the descriptor is canonical: UTF-8 text, a name that fits its field, a digest of the right size, for unknown tags whole words |
| `Descriptors.PropertyRoundTrip` | tools/avbtool:1278-1358 | the property descriptor comes back exactly if its key is UTF-8 |
| `Descriptors.HashtreeRoundTrip` | tools/avbtool:1380-1532 | the hashtree descriptor comes back exactly if it is canonical |
| `Descriptors.HashRoundTrip` | tools/avbtool:1595-1700 | the hash descriptor comes back exactly if it is canonical |
| `Descriptors.KernelCmdlineRoundTrip` | tools/avbtool:1740-1813 | the command line descriptor comes back exactly if it is UTF-8 |
| `Descriptors.ChainPartitionRoundTrip` | tools/avbtool:1835-1927 | the chain descriptor comes back exactly if its name is UTF-8 |
| `VBMeta.ParseDescriptors` | tools/avbtool:1979-1999 | the parse loop ends and computes the recursive list parser, errors included |
| `VBMeta.ParseListRoundTrip` | tools/avbtool:1979-1999 | joined encodings parse to the original list if and only if every descriptor is canonical |
| `Readings.ListReadIf` | tools/avbtool:1979-1999 | the tag of a descriptor chooses its parser and its size says where the next one starts |
| `VBMeta.FooterRoundTrip` | tools/avbtool:2002-2063 | a footer is 64 bytes long and is read back as written |
| `VBMeta.HeaderRoundTrip` | tools/avbtool:2066-2213 | a vbmeta header is 256 bytes long and is read back as written exactly if its release string fits |
| `Layouts.FooterLayout` | tools/avbtool:2055-2063 | the 64 bytes of a footer, field by field |
| `Layouts.HeaderLayout` | tools/avbtool:2196-2213 | the 256 bytes of a header, field by field |
| `Readings.FooterReadIf` | tools/avbtool:2029-2053 | which bytes are a footer, and its fields |
| `Readings.HeaderReadIf` | tools/avbtool:2131-2181 | which bytes are a header, and its fields |
| `Blob.KeyInjective` | tools/avbtool:3205-3206 | a dictionary key stands for one kind of descriptor and one partition name |
| `Blob.LastSeenWins` | tools/avbtool:3199-3211 | for each kind and partition name the dictionary keeps exactly the last descriptor seen |
| `Blob.BumpAllIsMax` | tools/avbtool:2184-2194 | the required minor version is the maximum over all images |
| `Blob.SortKeys` | tools/avbtool:3210-3211 | sorting gives the one ascending listing of the keys |
| `Blob.LessIs` | tools/avbtool:3210-3211 | the order of the keys is that of their first differing bytes, a prefix first |
| `Blob.KeyIs` | tools/avbtool:3205-3207 | a key is the class name, an underscore and the partition name |
| `Blob.FirstColon` | tools/avbtool:3144-3152 | a property is cut at its first colon, and refused exactly if it has none |
| `Blob.IncludeAll` | tools/avbtool:3190-3211 | the loop over images computes the dictionary, the unnamed descriptors and the version |
| `Blob.GenerateBlob` | tools/avbtool:3038-3298 | for algorithm NONE: exactly when a blob can be generated, and that it is header, descriptors, metadata and padding |
| `Blob.DescriptorsListed` | tools/avbtool:3112-3211 | the descriptors of a blob in order, each from its option, the included ones last, sorted, and the last one seen of each key |
| `Blob.GeneratedIf` | tools/avbtool:3093-3266 | when a blob can be generated, in terms of the options |
| `Blob.BlobLayout` | tools/avbtool:3230-3297 | a blob byte by byte: header, descriptors, metadata and zeros |
| `Blob.HeaderSays` | tools/avbtool:3238-3266 | every field of the header that is parsed from the first 256 bytes, from the options |
| `Blob.OrderIndependent` | tools/avbtool:3189-3211 | with all included descriptors named and no two disagreeing about a key, the order of the images changes neither the blob nor whether there is one |
| `Blob.BlobSize` | tools/avbtool:3238-3298 | a blob is a multiple of 64 bytes and starts with its magic |
| `Blob.BlobParses` | tools/avbtool:2788-2828 | parsing at the blob's offset recovers header and descriptor list if and only if all of them are readable |
| `Blob.BareBlobParses` | tools/avbtool:2788-2828 | so does parsing a bare blob whose last 64 bytes are not a footer |
| `Blob.FooteredBlobParses` | tools/avbtool:2788-2828 | so does parsing an image whose footer points at the blob |
| `Readings.FooterFoundIf` | tools/avbtool:2808-2816 | which images have a footer, and its fields |
| `Readings.ImageReadIf` | tools/avbtool:2788-2828 | where header and descriptors are read from |
| `FooterOps.AppendVBMeta` | tools/avbtool:3600-3624 | blob, hole and footer block are appended so that the image is the old one, the padded blob, zeros and the footer; when there is room it fails exactly if a footer field does not fit |
| `FooterOps.StripFooter` | tools/avbtool:3503-3517 | exactly when it goes on and when it raises; an existing footer is cut off, or, when the sparse file cannot grow to the original size, nothing changes but every later append fails |
| `FooterOps.AddHashFooter` | tools/avbtool:3408-3628 | for sparse and flat images: exactly when it succeeds and what the partition then contains; on a sparse file, with any block size, that takes blob and footer to fit the partition and the fields of the file; every failing run leaves the image without footer, and a sparse file that can be opened if and only if the blob was not the first append to be refused for its length |
| `Readings.StripIs` | tools/avbtool:3503-3517 | an existing footer is cut off with everything behind the original image it names |
| `Outcomes.HashArgsIf` | tools/avbtool:3482-3526 | what is checked before the image is touched, and the size of the partition that is filled |
| `Outcomes.HashAddedIf` | tools/avbtool:3471-3560 | when an image is accepted, in terms of the options |
| `Outcomes.HashFooterSays` | tools/avbtool:3471-3600 | what parsing the result gives: the footer, the version needed, every option in the header, and the hash descriptor with its digest and flag |
| `Outcomes.SaysHashMeans` | tools/avbtool:3471-3600 | the same field by field, the version among them: 3 for chained partitions without A/B, else 2 for a rollback index location, else 1 for a persistent digest or a partition without A/B |
| `Outcomes.AddHashThenParse` | tools/avbtool:3408-3628 | running the command and parsing the image gives that |
| `Outcomes.WithFooterLayout` | tools/avbtool:3581-3624 | image, blob, zeros and footer block, with or without a partition size, and what is cut if they do not fit |
| `Outcomes.FooterBlockLayout` | tools/avbtool:3608-3624 | the last block byte by byte |
| `FooterEdits.ParseImageOf` | tools/avbtool:2788-2828 | parsing through a handler, exactly: for flat images and offsets inside it is parsing the flat image, for a sparse image whose header points past its end the reads past the end decide |
| `FooterEdits.EraseFooter` | tools/avbtool:2276-2313 | exactly when it succeeds, for sparse and flat images: the image is cut to its original size or behind tree and FEC data; without a footer, and when a sparse file refuses, nothing changes |
| `Readings.EraseSizeIs` | tools/avbtool:2287-2313 | the size that stays: the original one or, keeping the tree, the end of the first tree and its error correction |
| `FooterEdits.ResizeImage` | tools/avbtool:2370-2415 | the image is cut behind the blob and the same footer put at the end of the new size; exactly when that succeeds on flat files, and on sparse ones with any block size; without a footer or space nothing changes |
| `Outcomes.ResizableIf` | tools/avbtool:2383-2403 | when a footer can be moved |
| `Outcomes.ResizedLayout` | tools/avbtool:2395-2415 | the image up to its blob, zeros, and the same footer |
| `FooterEdits.ParsedFooterInRange` | tools/avbtool:2370-2415 | a footer that was read can always be written again |
| `FooterEdits.HashFooteredLayout` | tools/avbtool:3586-3624 | with 4096-byte blocks and a blob that fits: exactly the partition size, laid out as image, zeros, blob, zeros, footer, with no negative gap |
| `FooterEdits.SmallBlobFits` | tools/avbtool:3519-3535 | a blob of at most 64 KiB always fits |
| `FooterEdits.StripUndoesAdd` | tools/avbtool:3503-3624 | cutting the footer off gives back the image it was added to |
| `FooterEdits.AddAfterAdd` | tools/avbtool:3503-3624 | adding a footer to an image that has one is adding it to the original image |
| `FooterEdits.FooterMoves` | tools/avbtool:2395-2415 | moving a footer between any two sizes the parts fit gives what writing it for the other size gives |
| `FooterEdits.ResizeAfterAdd` | tools/avbtool:2370-2415 | moving the footer gives what adding it for the other size gives |
| `FooterEdits.HashFooteredParses` | tools/avbtool:2788-2828 | the written image parses to the footer, header and descriptors that were put into it |
| `FooterEdits.AddThenErase` | tools/avbtool:2276-2313 | adding and erasing is the identity on flat images without footer |
| `FooterEdits.AddTwice` | tools/avbtool:3503-3624 | adding twice is adding once, and succeeds exactly if both can be added to the image without footer |
| `FooterEdits.AddThenResize` | tools/avbtool:2370-2415 | adding at one size and resizing to another succeeds exactly if the parts fit, and is adding at the other |
| `FooterEdits.AddToSparseAndFlat` | tools/avbtool:3408-3628 | on a sparse file with room in its fields and on its expansion the command gives the same result and the same image if and only if the image is not accepted or its blob fits |
| `HashtreeFooter.RoundToPow2Least` | tools/avbtool:256-267 | `round_to_pow2` gives the least power of two that is not below a positive number |
| `HashtreeFooter.TreeFits` | tools/avbtool:3720-3731 | an image within the computed maximum leaves room for its own tree, because tree size is monotone: up to the metadata if the tree's blocks are whole blocks of the file, up to less than two blocks more otherwise |
| `HashtreeFooter.BuiltFacts` | tools/avbtool:3801-3822 | the builder succeeds on the grown image exactly if growing adds no level, and returns between the claimed and the needed number of bytes |
| `HashtreeFooter.BuiltTree` | tools/avbtool:3801-3822 | if growing the image leaves the tree's size as it was, the builder returns the tree of the grown image |
| `HashtreeFooter.AddHashtreeFooter` | tools/avbtool:3630-3917 | for sparse and flat images and any block sizes: exactly when it succeeds and what the partition then contains; a failing run leaves the image without footer, and a sparse file that can be opened if and only if the first append was not refused for its length, unless the image does not grow by whole blocks of the file: then the file is lost |
| `Outcomes.HashingIs` | tools/avbtool:3712-3714 | salt, block size and algorithm are those given, and digests are padded to the next power of two |
| `Outcomes.TreeArgsIf` | tools/avbtool:3712-3750 | what is checked before the image is touched |
| `Outcomes.TreeAddedIf` | tools/avbtool:3720-3850 | when an image is accepted, in terms of the options |
| `Outcomes.TreeFooterSays` | tools/avbtool:3699-3912 | image and tree, described level by level, and what parsing gives: the version needed, every option in the header, and the hashtree descriptor with its root and flags |
| `Outcomes.SaysTreeMeans` | tools/avbtool:3699-3847 | the same field by field |
| `Outcomes.AddTreeThenParse` | tools/avbtool:3630-3917 | running the command and parsing the image gives that |
| `HashtreeLaws.OneBlockFails` | tools/avbtool:3801-3822 | an image of at most one tree block, of a size that is not whole blocks of the file, is always refused |
| `HashtreeLaws.SameLevelsAbove` | tools/avbtool:3801-3812 | if blocks of hashes cover whole blocks of the file, growing an image of more than one tree block changes no level |
| `HashtreeLaws.LevelsDiffer` | tools/avbtool:3801-3822 | a concrete image and block size for which the descriptor claims 768 of 1280 bytes of tree |
| `HashtreeLaws.TreeFooteredLayout` | tools/avbtool:3781-3912 | the partition is filled exactly by image, zeros, tree, blob, zeros and footer if and only if they fit; otherwise exactly the end of the blob is missing |
| `HashtreeLaws.SmallTreeBlobFits` | tools/avbtool:3720-3731 | a blob of at most 64 KiB fits if the tree's blocks are whole blocks of the file, and one of a block less always does |
| `HashtreeLaws.BlobOf64KiBIsCut` | tools/avbtool:3720-3850 | a concrete image, block size and partition for which the levels are right and every blob over 61440 bytes is cut |
| `HashtreeLaws.TreeFooteredParts` | tools/avbtool:3744-3912 | the result starts with image and tree, ends with the footer, and cutting the footer off gives the image back, whether the blob was cut or not |
| `HashtreeLaws.TreeFooteredParses` | tools/avbtool:2788-2828 | the written image parses to what was put into it, the hashtree descriptor first |
| `HashtreeLaws.KeptIsTree` | tools/avbtool:3801-3850 | the claimed part of the stored tree is the tree of the grown image if and only if growing changed no level |
| `HashtreeLaws.AddTreeThenErase` | tools/avbtool:2276-2313 | adding and erasing succeeds exactly if the footer can be added, and gives the image back, or the grown image with the claimed part of its tree, as asked |
| `HashtreeLaws.AddTreeTwice` | tools/avbtool:3744-3912 | adding a hashtree footer twice is adding it once, and succeeds exactly if both can be added to the image without footer |
| `HashtreeLaws.ResizeAfterAddTree` | tools/avbtool:2370-2415 | moving the footer gives what adding it for the other size gives |
| `HashtreeLaws.AddTreeThenResize` | tools/avbtool:2370-2415 | adding and resizing succeeds exactly if the footer can be added and image, tree, blob and footer block fit the new size |
| `HashtreeLaws.AddTreeToSparseAndFlat` | tools/avbtool:3630-3917 | on a sparse file with room in its fields and on its expansion the command gives the same result if and only if the image is not accepted, or its blob fits and it grows by whole blocks of the file; the same image under the same condition, except that odd growth loses the file even if the image is not accepted |
| `ZeroHashtree.ZeroHashtree` | tools/avbtool:2315-2368 | for flat images and sparse ones with any block size: what the image contains after success; exactly when it succeeds, what a refused run leaves, and when a sparse file can then still be opened; without footer, tree or adjacent FEC data nothing changes |
| `ZeroHashtree.FooterIsLost` | tools/avbtool:2353-2368 | what a run leaves that is refused after the cut has no footer |
| `ZeroHashtree.ZeroingKeepsTheRest` | tools/avbtool:2315-2368 | the size stays if and only if tree and FEC data take at least a block each; then every byte outside them stays and the marker stands at their start |
| `ZeroHashtree.ZeroedByte` | tools/avbtool:2340-2368 | every byte of an image whose tree and FEC data take at least a block each: the marker, zeros, or what it was |
| `ZeroHashtree.HasTreeIf` | tools/avbtool:2325-2351 | what the command looks for, and where the stretch it rewrites ends |
| `Verify.VerifyHash` | tools/avbtool:1702-1737 | true exactly if there is no digest or it is that of salt and what stands behind the cursor, which moves on |
| `Verify.VerifyHashtree` | tools/avbtool:1534-1592 | true exactly if the root matches or is absent, and the tree on disk is the computed one or accepted as zeroed; for descriptors over missing data, as far as the hashing ends |
| `Verify.VerifyDescriptor` | tools/avbtool:1929-1971 | true exactly if the descriptor holds for its partition, for its own image from the cursor on if it has no name, or for the expected chain |
| `Verify.VerifyImage` | tools/avbtool:2539-2629 | succeeds exactly if the blob is genuine and every descriptor passes, each from where the ones before it left the cursor, chained images included |
| `Acceptance.VerifiesIf` | tools/avbtool:2571-2629 | what success means: the image parses, its algorithm is known, the signature is right over exactly its blob, the key is the one given, and each descriptor says what is so |
| `Acceptance.VerifyFile` | tools/avbtool:2539-2629 | running the command: an image that is accepted has a known algorithm, a signature that is right over exactly its blob and the key that was given; an image with these is refused only for a descriptor |
| `Acceptance.AcceptsMeans` | tools/avbtool:1534-1971 | what each kind of descriptor has to say to be accepted |
| `Acceptance.CursorMoves` | tools/avbtool:2577-2629 | from where each descriptor of the image reads |
| `Acceptance.TreeAccepted` | tools/avbtool:1534-1592 | when a tree descriptor is accepted, against a tree described level by level |
| `Acceptance.SmallTreeAccepted` | tools/avbtool:1534-1592 | the same for an image of one block or less |
| `Acceptance.PartitionIs` | tools/avbtool:1702-1716 | what the file of another partition stands for |
| `Acceptance.SignedVerifies` | tools/avbtool:2539-2629 | an image with any signature and key parses to what is in it and verifies exactly if both are right and its descriptors are accepted |
| `Acceptance.UnsignedHasNoKey` | tools/avbtool:2582-2606 | an unsigned blob verifies against no key but the empty one |
| `VerifyLaws.HashFooterVerifies` | tools/avbtool:2539-2629 | an unsigned image with a hash footer verifies if and only if the descriptors asked for in addition pass and the partition is named, or what stands behind the blob has the same digest |
| `Counterexamples.HashBlobIsCut` | tools/avbtool:3519-3624 | options with 70000 bytes of metadata for which every image of a block is accepted and its blob cut |
| `Counterexamples.TreeBlobIsCutBelow64KiB` | tools/avbtool:3720-3850 | options with 62000 bytes of metadata for which an image is accepted and its blob of at most 64 KiB cut |
| `Counterexamples.OddBlocksLoseFile` | tools/avbtool:3772-3917 | a sparse file of one block and tree blocks of 5000 bytes: the command fails and the file it leaves cannot be opened |
| `Counterexamples.UnnamedDoesNotVerify` | tools/avbtool:1702-1737 | a hash function and an unnamed image that does not verify after it was given a footer |
| `Counterexamples.ResizeToNothing` | tools/avbtool:2370-2415 | an image that every resizing leaves as an empty file |
| `VerifyLaws.AddThenVerify` | tools/avbtool:3408-3628 | running both commands with any options: what `add_hash_footer` wrote is accepted under exactly that condition; always, for a named partition with properties and command lines |
| `VerifyLaws.HashtreeFooterVerifies` | tools/avbtool:1534-1592 | an image with a hashtree footer verifies if and only if the other descriptors pass and growing the image changed no level; without a stored tree, if zeroed trees are accepted or it is empty |
| `VerifyLaws.ZeroedStillVerifies` | tools/avbtool:1557-1592 | an image that verified before its tree was zeroed still verifies when zeroed trees are accepted |
| `VerifyLaws.ZeroedStillFollows` | tools/avbtool:2612-2640 | so it does when chained partitions are followed that are the image itself or describe nothing of it |
| `VerifyLaws.FooteredTreeIsZeroable` | tools/avbtool:2315-2368 | what `add_hashtree_footer` writes is laid out as zeroing needs it, and its tree takes a block exactly if that many bytes are claimed |
| `VerifyLaws.AddThenZero` | tools/avbtool:2315-2368 | zeroing what was added succeeds exactly if the claimed tree is whole 4096-byte blocks; without a tree the image grows by a block and does not parse any more; a refused run leaves no footer |
| `NumberTheory.EncodeLong` | tools/avbtool:270-289 | the value modulo two to the number of bits, for any integer; fails exactly for counts that are not multiples of eight |
| `NumberTheory.DecodeLong` | tools/avbtool:292-310 | the number the bytes stand for, below 256 to their count |
| `NumberTheory.EncodeDecode` | tools/avbtool:270-310 | decoding undoes encoding modulo two to the number of bits |
| `NumberTheory.FromBEInjective` | tools/avbtool:292-310 | a number has one encoding of each length |
| `NumberTheory.Bezout` | tools/avbtool:313-330 | the coefficients of `egcd` combine to its first result, for all integers |
| `NumberTheory.DividesBoth` | tools/avbtool:313-330 | that result divides both numbers |
| `NumberTheory.GreatestDivisor` | tools/avbtool:313-330 | every common divisor divides it, and for numbers that are not negative none is larger |
| `NumberTheory.ModinvFindsInverse` | tools/avbtool:333-351 | an inverse below the modulus is returned if and only if there is one and the number is not negative |
| `NumberTheory.NegativeHasNoModinv` | tools/avbtool:333-351 | a concrete negative number that has an inverse which is not found |
| `NumberTheory.InverseUnique` | tools/avbtool:333-351 | there is only one inverse below the modulus |
| `NumberTheory.N0InvIsMinusInverse` | tools/avbtool:450-453 | exactly for odd moduli `n0inv` exists; it fits 32 bits and is minus the inverse modulo two to the 32 |
| `NumberTheory.EncodeKey` | tools/avbtool:435-460 | the public key header: bit count, `n0inv`, the modulus and the reduced square can be read back from it |
| `WebSocket.MaskTwice` | smoke/catch_uboot.py:52-53 | masking twice with the same mask changes nothing |
| `WebSocket.MaskedIs` | smoke/catch_uboot.py:52-53 | each byte is the exclusive or, bit by bit, of payload and mask, the mask repeating every four bytes |
| `WebSocket.FrameIs` | smoke/catch_uboot.py:94-111 | which bytes are a complete frame, and its opcode, size and payload |
| `WebSocket.FrameMeans` | smoke/catch_uboot.py:94-111 | the same for one bit of one byte of the payload |
| `WebSocket.OpcodesMean` | smoke/catch_uboot.py:111-117 | 8 ends the stream, 0, 1 and 2 bring data, all others are skipped |
| `WebSocket.FrameStable` | smoke/catch_uboot.py:94-111 | more bytes do not change a frame that is complete |
| `WebSocket.Need` | smoke/catch_uboot.py:69-78 | bytes only move from the socket to the buffer; true exactly if enough are buffered, and false only once the socket had nothing more |
| `WebSocket.ReadFrame` | smoke/catch_uboot.py:94-111 | the header logic finds the frame at the start of the buffer exactly when all of it is there, and gives up only once the socket had nothing more |
| `WebSocket.RecvAllAvailable` | smoke/catch_uboot.py:63-120 | however the stream is cut, decoding what is left continues where the output stops, and what is left is the end of what there was; with little output only an incomplete frame is left; every call takes at least one pending read; a close frame drops the rest |
| `WebSocket.CloseLooksLikeNothing` | smoke/catch_uboot.py:94-120 | two concrete streams, one closed and one on which nothing came, that give the same answer |
| `WebSocket.RecvRepeatedly` | smoke/catch_uboot.py:63-120 | over any number of calls with the leftover threaded through, the output is a prefix of that of the whole stream, and all of it after enough calls |
| `WebSocket.SendBinary` | smoke/catch_uboot.py:49-60 | exactly when one masked frame is sent; nothing is sent if the length does not fit, and the start of the frame if the socket blocks |
| `WebSocket.HeaderIs` | smoke/catch_uboot.py:53-59 | the bytes of the header in each of the three length forms |
| `WebSocket.SentFrameIs` | smoke/catch_uboot.py:49-60 | the frame byte by byte: header, mask, masked payload |
| `WebSocket.CutFrameWaits` | smoke/catch_uboot.py:49-118 | the start of a frame that was sent is no frame to the reader |
| `WebSocket.SentFrameParses` | smoke/catch_uboot.py:49-60 | each of the three length forms, with any mask, parses to the payload (sections 5.2 and 5.3 of RFC 6455) |
| `WebSocket.SentStreamDecodes` | smoke/catch_uboot.py:49-120 | a stream of sent frames decodes to the payloads and leaves what follows |
| `WebSocket.InOrder` | smoke/catch_uboot.py:49-60 | frames and payloads stand in the order of the messages |
| `WebSocket.Loopback` | smoke/catch_uboot.py:49-120 | receiving what was sent, in any pieces, gives exactly the payloads after enough calls |
| `BootInit.Init.ParseCmdline` | initramfs/init:45-54 | the last argument with each prefix decides, others do not matter |
| `BootInit.LastValueIs` | initramfs/init:48-54 | the value is that of the last argument with the prefix |
| `BootInit.DefaultIs` | initramfs/init:45-54 | without an argument with the prefix the value is the default |
| `BootInit.FindPartlabel` | initramfs/init:58-74 | the device of the first block device that carries the name, or none |
| `BootInit.FieldIs` | initramfs/init:61-67 | a field has the value of the last line with its key |
| `BootInit.FoundIs` | initramfs/init:58-74 | the device node of the first file that carries the name and names a device; none before it does both |
| `BootInit.Init.WaitForRoot` | initramfs/init:77-85 | at most a hundred tries; the device of the first one that succeeds, found exactly if one does |
| `BootInit.Init.ReadFlag` | initramfs/init:89-96 | a mode given on the command line beats the flag; only `rw`, or a flag file in a partition that is there and mounts, is maintenance |
| `BootInit.Init.ApplyConfig` | initramfs/init:108-126 | the root is mounted writable only for a staged blob, and is gone again unless the script ends in the rescue shell |
| `BootInit.Init.MountSealed` | initramfs/init:134-161 | overlay over a read-only lower layer, or the writable fallback, or rescue |
| `BootInit.Init.Run` | initramfs/init:45-171 | the exact sequence of mounts, unmounts and moves; exactly when the script ends in the rescue shell, when in a sealed and when in a writable root, and when the device is ever writable |
| `BootInit.Boot` | initramfs/init:45-171 | for all outcomes: one of sealed, direct or rescue; the lower layer is only mounted while the device is nowhere writable; writable only in maintenance mode, with a staged blob, or when the overlay failed |
| `BootInit.BootSteps` | initramfs/init:89-171 | every mount, unmount and move in order, each from the answers it depends on |
| `BootInit.UnmountingIs` | initramfs/init:121-122 | an unmount takes away the last mount on its target |
| `BootInit.MovingIs` | initramfs/init:152-169 | a move takes the last mount on its target elsewhere, above all others |
| `BootInit.EndsMean` | initramfs/init:129-162 | sealed and direct in terms of the last mount on the new root and of all mounts of the device |
| `BootInit.WritableWasMounted` | initramfs/init:109-161 | what is writable in the mount table was mounted writable by the script |
| `UBootEnv.ParseEnv` | tools/uboot_env_edit.py:103-127 | the loop computes the entries up to the first empty one; a wrong checksum is only warned about |
| `UBootEnv.VerifyBlock` | tools/uboot_env_edit.py:143-160 | true exactly for the right size, checksum and well-formed ASCII entries |
| `UBootEnv.RoundTrip` | tools/uboot_env_edit.py:103-140 | parsing undoes serializing, insertion order included, if and only if there is no NUL and no equals sign in a key |
| `UBootEnv.BlockIs` | tools/uboot_env_edit.py:130-140 | a saved block byte by byte: the checksum, lowest byte first, the text and at least one zero |
| `UBootEnv.TextIs` | tools/uboot_env_edit.py:130-140 | the text: key, equals sign, value and NUL, entry after entry |
| `UBootEnv.SavedIf` | tools/uboot_env_edit.py:130-140 | an environment can be saved exactly if it is ASCII and a byte is left behind its text |
| `UBootEnv.LineParsed` | tools/uboot_env_edit.py:115-127 | an empty line ends parsing, one without an equals sign is skipped, any other sets the key before its first one |
| `UBootEnv.VerifiedIs` | tools/uboot_env_edit.py:143-160 | what verifies, line by line |
| `UBootEnv.LoadSaveLoad` | tools/uboot_env_edit.py:206-220 | saving what was loaded and loading it again changes nothing |
| `UBootEnv.SavedVerifies` | tools/uboot_env_edit.py:143-160 | a serialized clean environment passes `verify_block` |
| `UBootEnv.SerializesIfFits` | tools/uboot_env_edit.py:130-140 | an environment that is not empty is accepted if and only if the reported count plus one is at most 4092 |
| `UBootEnv.PutUpdates` | tools/uboot_env_edit.py:223-236 | setting a key is map update; keys keep their order, a new one comes last |
| `UBootEnv.RemoveRemoves` | tools/uboot_env_edit.py:239-248 | deleting a key is removal from the map |
| `UBootEnv.PutIs` | tools/uboot_env_edit.py:229-246 | a known key keeps its place, a new one goes to the end, a deleted one is taken out |
| `UBootEnv.SettingsAre` | tools/uboot_env_edit.py:229-234 | arguments are cut at their first equals sign and take effect from left to right |
| `UBootEnv.Save` | tools/uboot_env_edit.py:211-220 | the written block, whether it verifies, and the reported count; it succeeds exactly for ASCII entries whose count plus one fits, and what is written of a clean environment verifies |
| `UBootEnv.Modify` | tools/uboot_env_edit.py:223-236 | exactly when it succeeds; the written block verifies and parses to the updated environment |
| `UBootEnv.Delete` | tools/uboot_env_edit.py:239-248 | exactly when it succeeds; the written block verifies and parses to the environment without the keys |
| `CpioArchive.HexParses` | tools/mkinitramfs.py:36-51 | a hexadecimal field is read back |
| `CpioArchive.HexSize` | tools/mkinitramfs.py:36-51 | a field is eight digits long exactly if the number is below two to the 32 |
| `CpioArchive.HexIs` | tools/mkinitramfs.py:38-50 | upper-case digits, the least significant last |
| `CpioArchive.NameSizeIsRight` | tools/mkinitramfs.py:49-52 | the name size field is right exactly for ASCII names |
| `CpioArchive.OrDisjoint` | tools/mkinitramfs.py:60-67 | file type and permissions stand side by side in the mode |
| `CpioArchive.CallIs` | tools/mkinitramfs.py:60-67 | the entry of each call: type and permissions, links, device numbers |
| `CpioArchive.HeaderIs` | tools/mkinitramfs.py:35-52 | the header: magic, thirteen numbers in their order, name and NUL |
| `CpioArchive.EntryIs` | tools/mkinitramfs.py:52-58 | header and data, each filled with zeros to a multiple of four |
| `CpioArchive.FinishedIs` | tools/mkinitramfs.py:69-73 | the entries, the trailer, and zeros up to a multiple of 512 |
| `CpioArchive.CharIs` | tools/mkinitramfs.py:52 | names are encoded as UTF-8 |
| `CpioArchive.Cpio.AddEntry` | tools/mkinitramfs.py:33-58 | the archive grows by one entry with the next inode number, padded to multiples of four |
| `CpioArchive.Cpio.Trailer` | tools/mkinitramfs.py:69-73 | the finished archive is all entries and the trailer, a multiple of 512 bytes |
| `CpioArchive.EntryRead` | tools/mkinitramfs.py:33-58 | an entry at a multiple of four is read back whole, its data at a multiple of four |
| `CpioArchive.ReadsBack` | tools/mkinitramfs.py:28-73 | a reader of the format finds exactly the entries that were added |
| `CpioArchive.Build` | tools/mkinitramfs.py:28-73 | for every sequence of calls: a multiple of 512 bytes, distinct inode numbers, and a reader recovers the entries in order |

## Left out

- `HashtreeFooter.AddHashtreeFooter`: needs two padded digests to fit in a tree block, because otherwise the level computation does not end for more than one block; that success is exact needs, on a sparse file, six more chunks than it has to fit the 32-bit count.
- `Merkle.GenerateHashTree`: needs an image as long as the size given, for more than one block; `Merkle.HashingEnds` says that it does not end otherwise.
- `Verify.VerifyImage`: needs the hashing of every described tree to end (`Merkle.HashingEnds`, `HashTree.LoopEnds`), and on sparse files a header and a tree that start inside the image.
- `VerifyLaws.ZeroedStillFollows`: asks that chained images describe nothing of the zeroed partition, because such a descriptor may well fail after it.
- `FooterOps.AddHashFooter`: that success is exact needs, on a sparse file, four more chunks than it has to fit the 32-bit count; all other limits of the file are part of the condition.
- `FooterEdits.ResizeImage`: the same with three chunks.
- `ZeroHashtree.ZeroHashtree`: the same with six chunks; what a refused run leaves is stated when the fields of the sparse file are not what stopped it.
- Images with CRC32 chunks: the reader skips them in its table but counts them in the header, so `truncate` would lose them.
- Sparse files whose last RAW payload is cut off: the reader accepts them, the handler's operations are not modelled on them.
- RSA signing and signature checks, openssl, certificates and unlock credentials: external programs; signed blobs appear as an outcome in `Verify` only.
- FEC data: the `fec` tool is external; FEC fields are kept in descriptors, in `erase_footer` and in `zero_hashtree`.
- The dm-verity kernel command line descriptors, properties read from files, and the options that only compute or print a size or version.
- Writing the blob to a separate file and leaving it out of the image: these options skip the steps that matter here.
- `append_vbmeta_image`, `make_vbmeta_image`, `info_image`, partition digests, `set_ab_metadata`: straight-line layouts and printing.
- The hash functions and the CRC themselves, and real file handles; a file is a byte sequence that is read and written as a whole.
- The word splitting of the kernel command line by the shell, and file name patterns in it: arguments are a list.
- Uevent files are given as lines split at the first equals sign; the configuration applier called by the boot script is one outcome; a rescue shell is the end of a run.
- The WebSocket handshake and the timing loops around the two framing functions.
- The commands of the environment editor that use ssh, print, or apply a fixed preset.
- gzip and the fixed list of files in the ramdisk builder's `main`.
- `mkbootimg.py`, `mkdtboimg.py`, `mkconfigblob.py`, `make-gpt-restore.py`, the shell scripts and kernel configurations: no behaviour beyond straight-line layouts and orchestration.
