/** tools/avbtool: the operations that add, move and remove a footer. */
module FooterOps {
  import opened Bytes
  import opened Results
  import opened Struct
  import opened SparseFormat
  import opened SparseImage
  import opened Descriptors
  import opened VBMeta
  import opened Blob

  const MAX_VBMETA_SIZE := 64 * 1024
  const MAX_FOOTER_SIZE := 4096
  const MAX_METADATA_SIZE := MAX_VBMETA_SIZE + MAX_FOOTER_SIZE

  // ---------------------------------------------------------------- the image with a footer

  /** Zeros that fill a blob up to whole blocks. */
  function Filling(blob: bytes, bs: nat): bytes
    requires bs > 0
  {
    Zeros(RoundUp(|blob|, bs) - |blob|)
  }

  /** The block the footer ends. */
  function FooterBlock(f: Footer, bs: nat): bytes {
    Zeros(bs - FOOTER_SIZE) + Join(FooterFields(f))
  }

  /** `base` followed by the blob, then zeros up to the last block of the partition (if its size is given). */
  function Body(base: bytes, blob: bytes, partitionSize: nat, bs: nat): bytes
    requires bs > 0
  {
    var body := base + (blob + Filling(blob, bs));
    if partitionSize > 0 then Resize(body, Max(partitionSize - bs, 0)) else body
  }

  /** ... and then the footer block. */
  function WithFooter(base: bytes, blob: bytes, originalSize: nat, partitionSize: nat, bs: nat): bytes
    requires bs > 0
  {
    Body(base, blob, partitionSize, bs) + FooterBlock(NewFooter(originalSize, |base|, |blob|), bs)
  }

  /** The image without its footer: what it was before a footer was added. */
  function Strip(img: bytes): bytes {
    var f := FooterOf(img);
    if f.Some? then Resize(img, f.value.originalImageSize) else img
  }

  // ---------------------------------------------------------------- handler facts

  lemma FlatFacts(image: ImageHandler)
    requires image.Sound()
    ensures image.blockSize > 0
    ensures !image.isSparse ==>
      image.blockSize == DEFAULT_BLOCK_SIZE && image.Contents() == image.file && !MagicPrefix(image.file) && image.Valid()
    ensures image.isSparse ==> image.imageSize % image.blockSize == 0
  {
    if image.isSparse {
      MultipleOfBlocks(image.file, image.blockSize, image.chunks);
    }
  }

  /** A flat file that has its first four bytes keeps them when something is appended. */
  lemma MagicStays(file: bytes, data: bytes)
    requires !MagicPrefix(file) && (|file| >= 4 || file == [])
    requires file == [] ==> |data| >= 4 && data[..4] == VBMETA_MAGIC
    ensures !MagicPrefix(file + data)
  {
    var all := file + data;
    if file == [] {
      assert all[0] == data[..4][0];
    } else {
      assert all[0] == file[0] && all[1] == file[1] && all[2] == file[2] && all[3] == file[3];
    }
  }

  // ---------------------------------------------------------------- appending blob and footer

  /** The footer block is whole blocks of a sparse file, and its size fits its field. */
  predicate FooterWhole(bs: nat)
    requires bs > 0
  {
    Max(bs, FOOTER_SIZE) % bs == 0 && !TooLong(Max(bs, FOOTER_SIZE))
  }

  /** The 32-bit fields of a sparse file suffice for one more chunk, the footer block. Flat files need no room. */
  ghost predicate FooterRoom(image: ImageHandler)
    requires image.Sound() && image.blockSize > 0
    reads image
  {
    image.isSparse ==>
      && |image.chunks| + 1 < TWO_32 && FooterWhole(image.blockSize)
      && image.imageSize + Max(image.blockSize, FOOTER_SIZE) < BlockBytes(TWO_32, image.blockSize)
  }

  /** The size of blob and footer block, in whole blocks. */
  function Metadata(blob: bytes, bs: nat): nat
    requires bs > 0
  {
    RoundUp(|blob|, bs) + bs
  }

  /** Blob and footer block fit behind `size` bytes in a partition whose size is given. */
  predicate BlobHolds(size: nat, blob: bytes, partitionSize: nat, bs: nat)
    requires bs > 0
  {
    partitionSize > 0 ==> size + Metadata(blob, bs) <= partitionSize
  }

  /** How many chunks blob and hole take, and where they end. */
  function BodyChunks(partitionSize: nat): nat { if partitionSize > 0 then 2 else 1 }

  function BodyEnd(size: nat, blob: bytes, partitionSize: nat, bs: nat): int
    requires bs > 0
  {
    if partitionSize > 0 then partitionSize - bs else size + RoundUp(|blob|, bs)
  }

  /** Room for blob and hole in the fields of a sparse file; whether they fit the partition is another matter. */
  ghost predicate BodyRoom(image: ImageHandler, blob: bytes, partitionSize: nat)
    requires image.Sound() && image.blockSize > 0
    reads image
  {
    image.isSparse ==>
      && |image.chunks| + BodyChunks(partitionSize) < TWO_32 && !TooLong(RoundUp(|blob|, image.blockSize))
      && BodyEnd(image.imageSize, blob, partitionSize, image.blockSize) < BlockBytes(TWO_32, image.blockSize)
  }

  /** Blob, hole and footer fit the fields of a sparse file that has `size` bytes, but for the number of chunks. */
  predicate FieldsHold(size: nat, blob: bytes, partitionSize: nat, bs: nat)
    requires bs > 0
  {
    && !TooLong(RoundUp(|blob|, bs)) && FooterWhole(bs)
    && BodyEnd(size, blob, partitionSize, bs) + Max(bs, FOOTER_SIZE) < BlockBytes(TWO_32, bs)
  }

  /** Room for blob, hole and footer, in a partition that holds them. */
  ghost predicate HasRoom(image: ImageHandler, blob: bytes, partitionSize: nat)
    requires image.Sound() && image.blockSize > 0
    reads image
  {
    image.isSparse ==>
      && |image.chunks| + BodyChunks(partitionSize) + 1 < TWO_32
      && FieldsHold(image.imageSize, blob, partitionSize, image.blockSize)
  }

  /** Appending `size` bytes of payload to a sparse image of the given size and number of chunks is refused for their
      length alone: the counts in the header are written before that, and leave a file that cannot be opened. */
  predicate Breaks(imageSize: nat, chunks: nat, size: nat, bs: nat) {
    TooLong(size) && chunks + 1 < TWO_32 && imageSize + size < BlockBytes(TWO_32, bs)
  }

  /** A payload whose size does not fit the chunk header. */
  predicate TooLong(size: nat) { CHUNK_HEADER_SIZE + size >= TWO_32 }

  /** The handler is in order, or its counts have left their fields and every append will fail. */
  ghost predicate Ready(image: ImageHandler)
    reads image
  {
    image.Valid() || image.Stuck()
  }

  /** The blob has room. */
  ghost predicate BlobTaken(image: ImageHandler, blob: bytes)
    requires image.Sound() && image.blockSize > 0
    reads image
  {
    image.isSparse ==>
      && |image.chunks| + 1 < TWO_32 && !TooLong(RoundUp(|blob|, image.blockSize))
      && image.imageSize + RoundUp(|blob|, image.blockSize) < BlockBytes(TWO_32, image.blockSize)
  }

  lemma BlobAccepted(image: ImageHandler, blob: bytes)
    requires image.Valid() && !image.readOnly && image.blockSize > 0 && |blob| > 0
    ensures image.Accepts(true, RoundUp(|blob|, image.blockSize), RoundUp(|blob|, image.blockSize)) <==> BlobTaken(image, blob)
  {
    hide BlockBytes;
    FlatFacts(image);
    if !image.isSparse && RoundUp(|blob|, image.blockSize) < image.blockSize {
      DivModUnique(RoundUp(|blob|, image.blockSize), image.blockSize, 0, RoundUp(|blob|, image.blockSize));
    }
  }

  /** The hole is not negative and, on a sparse file, has room. */
  ghost predicate HoleFits(image: ImageHandler, partitionSize: nat)
    requires image.Sound() && image.blockSize > 0
    reads image
  {
    if image.isSparse then
      && |image.chunks| + 1 < TWO_32 && image.imageSize + image.blockSize <= partitionSize
      && partitionSize - image.blockSize < BlockBytes(TWO_32, image.blockSize)
    else partitionSize >= image.blockSize + HEADER_SIZE
  }

  lemma HoleAccepted(image: ImageHandler, partitionSize: nat)
    requires image.Valid() && !image.readOnly && image.blockSize > 0
    requires image.imageSize % image.blockSize == 0 && partitionSize % image.blockSize == 0
    ensures image.Accepts((partitionSize - image.imageSize - image.blockSize) % image.blockSize == 0,
                          partitionSize - image.imageSize - image.blockSize, 0)
       <==> HoleFits(image, partitionSize)
  {
    hide BlockBytes;
    FlatFacts(image);
    MultiplesAdd(partitionSize, image.imageSize, image.blockSize);
    MultiplesAdd(partitionSize - image.imageSize, image.blockSize, image.blockSize);
  }

  lemma FooterAccepted(image: ImageHandler, footer: Footer)
    requires image.Valid() && !image.readOnly && image.blockSize > 0 && FooterInRange(footer)
    ensures TakesFooter(image, footer) <==> FooterRoom(image)
  {
    hide BlockBytes, FooterBlock, FooterInRange;
    FlatFacts(image);
    FooterBlockSize(footer, image.blockSize);
  }

  lemma WholeBlockAtLeast(n: nat, bs: nat)
    requires bs > 0 && n % bs == 0
    ensures n == 0 || n >= bs
  {
    if 0 < n < bs {
      DivModUnique(n, bs, 0, n);
    }
  }

  lemma WholeBlocksOrNothing(size: nat)
    requires size % DEFAULT_BLOCK_SIZE == 0
    ensures size == 0 || size >= DEFAULT_BLOCK_SIZE
  {
  }

  /** Whether the counts fit is a matter of the image's size and chunks. */
  lemma CountsFitMeans(image: ImageHandler, size: nat)
    requires image.Valid() && image.isSparse && image.blockSize > 0 && size % image.blockSize == 0
    ensures image.CountsFit(size) <==>
      |image.chunks| + 1 < TWO_32 && image.imageSize + size < BlockBytes(TWO_32, image.blockSize)
  {
    hide BlockBytes;
    BlocksFit(image.imageSize, image.numTotalBlocks, size, image.blockSize);
    QuotientSign(size, image.blockSize);
  }

  /** A refused append breaks the file exactly if only the length is at fault. */
  lemma RefusedLength(image: ImageHandler, size: nat)
    requires image.Valid() && image.isSparse && !image.readOnly && image.blockSize > 0 && size % image.blockSize == 0
    requires !image.Accepts(true, size, size)
    ensures image.CountsFit(size) <==> Breaks(image.imageSize, |image.chunks|, size, image.blockSize)
  {
    hide BlockBytes;
    CountsFitMeans(image, size);
  }

  /** Appending the blob, filled up to whole blocks. */
  method AppendBlob(image: ImageHandler, blob: bytes) returns (r: Result<()>)
    requires Ready(image) && image.blockSize > 0 && image.imageSize % image.blockSize == 0
    requires |blob| >= 4 && blob[..4] == VBMETA_MAGIC
    modifies image
    ensures image.Sound() && image.isSparse == old(image.isSparse) && image.blockSize == old(image.blockSize) > 0
    ensures r.Ok? <==> old(image.Valid() && image.Accepts(true, RoundUp(|blob|, image.blockSize), RoundUp(|blob|, image.blockSize)))
    ensures r.Ok? ==> image.Valid() && (image.isSparse ==> |image.chunks| == old(|image.chunks|) + 1)
    ensures r.Ok? ==> image.Contents() == old(image.Contents()) + (blob + Filling(blob, image.blockSize))
    ensures old(image.Contents()) <= image.Contents()
    ensures r.Err? && (image.isSparse || image.readOnly) ==> image.Contents() == old(image.Contents()) && image.chunks == old(image.chunks)
    ensures image.isSparse && r.Err? && !image.readOnly && old(image.Valid()) ==>
      image.LeftBehind(old(image.file),
                       old(Breaks(image.imageSize, |image.chunks|, RoundUp(|blob|, image.blockSize), image.blockSize)))
    ensures old(image.Stuck()) ==>
      r.Err? && image.Stuck() && image.file == old(image.file) && image.Contents() == old(image.Contents())
    ensures image.isSparse && r.Ok? ==> !TooLong(RoundUp(|blob|, image.blockSize))
    ensures old(image.Valid()) && !image.readOnly ==> (r.Ok? <==> old(BlobTaken(image, blob)))
  {
    hide ImageHandler.Sound, ImageHandler.Contents, ImageHandler.LeftBehind, ImageHandler.CountsFit, RoundUp,
      BlockBytes, MagicPrefix, Breaks;
    FlatFacts(image);
    if image.Valid() && !image.readOnly {
      BlobAccepted(image, blob);
    }
    var padded := blob + Filling(blob, image.blockSize);
    if !image.isSparse {
      WholeBlocksOrNothing(image.imageSize);
      assert padded[..4] == blob[..4];
      MagicStays(image.file, padded);
    } else if image.Valid() && !image.readOnly && !image.Accepts(true, |padded|, |padded|) {
      RefusedLength(image, |padded|);
    }
    r := image.AppendRaw(padded);
  }

  /** The DONT_CARE chunk between the blob and the footer block; a negative size cuts a flat image. */
  method AppendHole(image: ImageHandler, partitionSize: nat) returns (r: Result<()>)
    requires image.Valid() && image.blockSize > 0 && image.blockSize <= partitionSize
    modifies image
    ensures image.Sound() && image.isSparse == old(image.isSparse) && image.blockSize == old(image.blockSize)
    ensures r.Ok? <==> old(image.Accepts((partitionSize - image.imageSize - image.blockSize) % image.blockSize == 0,
                                         partitionSize - image.imageSize - image.blockSize, 0))
    ensures r.Ok? ==> image.Valid() && (image.isSparse ==> |image.chunks| == old(|image.chunks|) + 1)
    ensures r.Ok? ==> image.Contents() == Resize(old(image.Contents()), partitionSize - image.blockSize)
    ensures r.Err? && (image.isSparse || image.readOnly) ==> image.Contents() == old(image.Contents())
    ensures old(image.imageSize % image.blockSize == 0 && partitionSize % image.blockSize == 0) && !image.readOnly ==>
      (r.Ok? <==> old(HoleFits(image, partitionSize)))
    ensures image.isSparse && r.Ok? ==> old(image.imageSize) + image.blockSize <= partitionSize
  {
    hide ImageHandler.Sound, ImageHandler.Contents, BlockBytes, MagicPrefix, HoleFits;
    FlatFacts(image);
    if !image.readOnly && image.imageSize % image.blockSize == 0 && partitionSize % image.blockSize == 0 {
      HoleAccepted(image, partitionSize);
    }
    r := image.AppendDontCare(partitionSize - image.imageSize - image.blockSize);
  }

  ghost predicate TakesFooter(image: ImageHandler, footer: Footer)
    requires image.Sound()
    reads image
  {
    FlatFacts(image);
    var n := |FooterBlock(footer, image.blockSize)|;
    image.Accepts(n % image.blockSize == 0, n, n)
  }

  /** The footer, in the last 64 bytes of a block of its own. */
  method AppendFooter(image: ImageHandler, footer: Footer) returns (r: Result<()>)
    requires image.Valid() && (!image.isSparse ==> image.imageSize >= 4)
    modifies image
    ensures image.Sound() && image.isSparse == old(image.isSparse) && image.blockSize == old(image.blockSize)
    ensures r.Ok? <==> FooterInRange(footer) && old(TakesFooter(image, footer))
    ensures r.Ok? ==> image.Valid()
    ensures r.Ok? ==> image.Contents() == old(image.Contents()) + FooterBlock(footer, image.blockSize)
    ensures r.Err? && (image.isSparse || image.readOnly || !FooterInRange(footer)) ==> image.Contents() == old(image.Contents())
    ensures old(image.Contents()) <= image.Contents()
  {
    FlatFacts(image);
    var footerBlob := EncodeFooter(footer);
    if footerBlob.Err? {
      return Err(footerBlob.error);
    }
    var footerBlock := FooterBlock(footer, image.blockSize);
    if !image.isSparse {
      MagicStays(image.file, footerBlock);
    }
    hide ImageHandler.Sound, ImageHandler.Contents, ImageHandler.Accepts, BlockBytes, FooterBlock;
    r := image.AppendRaw(footerBlock);
  }

  lemma FooterBlockSize(f: Footer, bs: nat)
    requires FooterInRange(f)
    ensures |FooterBlock(f, bs)| == Max(bs, FOOTER_SIZE)
    ensures FooterBlock(f, bs)[|FooterBlock(f, bs)| - FOOTER_SIZE..] == Join(FooterFields(f))
  {
    hide FooterFields, ParseFooter;
    FooterRoundTrip(f);
  }

  /** A resized file still starts with what it started with. */
  lemma ResizePrefix(base: bytes, more: bytes, n: nat)
    requires |base| <= n
    ensures Resize(base + more, n)[..|base|] == base
  {
  }

  /** The first append of a run, of `first` bytes of payload if the run gets to one, breaks the sparse file. */
  predicate FirstBreaks(first: Option<nat>, imageSize: nat, chunks: nat, bs: nat) {
    first.Some? && Breaks(imageSize, chunks, first.value, bs)
  }

  /** What a failing run leaves of a sparse image that had `size` bytes: either something was appended, and cutting it
      off repairs the header, or nothing was, and the file can be opened unless the first append broke it. */
  ghost predicate Repairable(image: ImageHandler, size: nat, chunks: nat, first: Option<nat>)
    reads image
  {
    image.isSparse ==>
      || (image.imageSize > size && !(first.Some? && TooLong(first.value)))
      || (image.imageSize == size && |image.chunks| == chunks
          && (Parse(image.file).Ok? <==> !FirstBreaks(first, size, chunks, image.blockSize)))
  }

  /** The state of a sparse image that had `size` bytes after the first append of a run, or without one. */
  ghost predicate Stepped(image: ImageHandler, size: nat, chunks: nat, first: Option<nat>)
    reads image
  {
    image.isSparse ==>
      if first.Some? then image.imageSize > size && !TooLong(first.value)
      else image.imageSize == size && |image.chunks| == chunks && Parse(image.file).Ok?
  }

  /** What blob, hole and footer rely on. */
  ghost predicate Appendable(image: ImageHandler, blob: bytes, partitionSize: nat)
    reads image
  {
    && Ready(image) && !image.readOnly && image.blockSize > 0
    && image.imageSize % image.blockSize == 0 && partitionSize % image.blockSize == 0
    && (partitionSize > 0 && !image.isSparse ==>
          image.imageSize + image.blockSize <= partitionSize && 2 * image.blockSize <= partitionSize)
    && |blob| >= 4 && blob[..4] == VBMETA_MAGIC
  }

  /** Blob and hole. */
  method AppendBody(image: ImageHandler, blob: bytes, partitionSize: nat) returns (r: Result<()>)
    requires Appendable(image, blob, partitionSize)
    modifies image
    ensures image.Sound() && image.isSparse == old(image.isSparse) && image.blockSize == old(image.blockSize) > 0
    ensures r.Ok? ==> image.Valid()
    ensures image.isSparse && r.Ok? ==> image.imageSize > old(image.imageSize) && !TooLong(RoundUp(|blob|, image.blockSize))
    ensures r.Ok? ==> image.Contents() == Body(old(image.Contents()), blob, partitionSize, image.blockSize)
    ensures old(image.Contents()) <= image.Contents()
    ensures old(image.Valid()) ==>
      (r.Ok? <==> image.isSparse ==>
        BlobHolds(old(image.imageSize), blob, partitionSize, image.blockSize) && old(BodyRoom(image, blob, partitionSize)))
    ensures image.isSparse && r.Ok? ==> |image.chunks| == old(|image.chunks|) + BodyChunks(partitionSize)
    ensures image.isSparse && r.Ok? ==> image.imageSize == BodyEnd(old(image.imageSize), blob, partitionSize, image.blockSize)
    ensures !image.isSparse ==> image.imageSize >= 4
    ensures old(image.Stuck()) ==>
      r.Err? && image.Stuck() && image.file == old(image.file) && image.Contents() == old(image.Contents())
    ensures r.Err? && old(image.Valid()) ==>
      Repairable(image, old(image.imageSize), old(|image.chunks|), Some(RoundUp(|blob|, image.blockSize)))
  {
    hide ImageHandler.Sound, ImageHandler.Contents, ImageHandler.Accepts, BlockBytes, RoundUp, Parse;
    ghost var base := image.Contents();
    FlatFacts(image);
    var bs := image.blockSize;
    r := AppendBlob(image, blob);
    if r.Err? {
      return;
    }
    FlatFacts(image);
    if partitionSize > 0 {
      MultiplesAdd(|base|, RoundUp(|blob|, bs), bs);
      WholeBlockAtLeast(partitionSize, bs);
      r := AppendHole(image, partitionSize);
      if r.Ok? {
        ResizePrefix(base, blob + Filling(blob, bs), partitionSize - bs);
      }
      FlatFacts(image);
    }
  }

  /** The common end of the commands that append a vbmeta blob: blob, hole, footer. */
  method AppendVBMeta(image: ImageHandler, blob: bytes, originalSize: nat, partitionSize: nat) returns (r: Result<()>)
    requires Appendable(image, blob, partitionSize)
    modifies image
    ensures image.Sound() && image.isSparse == old(image.isSparse) && image.blockSize == old(image.blockSize) > 0
    ensures r.Ok? ==> image.Valid() && FooterInRange(NewFooter(originalSize, old(image.imageSize), |blob|))
    ensures r.Ok? ==>
      image.Contents() == WithFooter(old(image.Contents()), blob, originalSize, partitionSize, image.blockSize)
    ensures old(image.Contents()) <= image.Contents()
    ensures old(image.Valid()) ==>
      (r.Ok? <==> && FooterInRange(NewFooter(originalSize, old(image.imageSize), |blob|))
                  && (image.isSparse ==> && BlobHolds(old(image.imageSize), blob, partitionSize, image.blockSize)
                                         && old(HasRoom(image, blob, partitionSize))))
    ensures old(image.Stuck()) ==>
      r.Err? && image.Stuck() && image.file == old(image.file) && image.Contents() == old(image.Contents())
    ensures image.isSparse && r.Ok? ==> !TooLong(RoundUp(|blob|, image.blockSize))
    ensures r.Err? && old(image.Valid()) ==>
      Repairable(image, old(image.imageSize), old(|image.chunks|), Some(RoundUp(|blob|, image.blockSize)))
  {
    hide ImageHandler.Sound, ImageHandler.Contents, ImageHandler.Accepts, BlockBytes, FooterBlock, FooterInRange,
      RoundUp, TakesFooter, Body, Parse, BlobHolds;
    var vbmetaOffset := image.imageSize;
    r := AppendBody(image, blob, partitionSize);
    if r.Err? {
      return;
    }
    var footer := NewFooter(originalSize, vbmetaOffset, |blob|);
    if FooterInRange(footer) {
      FlatFacts(image);
      FooterAccepted(image, footer);
    }
    r := AppendFooter(image, footer);
  }

  // ---------------------------------------------------------------- removing an existing footer

  /** `truncate` does not reject the original size: the handler is writable and, if sparse, the size is whole blocks. */
  ghost predicate StripAllowed(image: ImageHandler)
    requires image.Sound()
    reads image
  {
    FlatFacts(image);
    var f := FooterOf(image.Contents());
    f.Some? ==> !image.readOnly && (image.isSparse ==> f.value.originalImageSize % image.blockSize == 0)
  }

  /** ... and a sparse file that has to grow for it can. */
  ghost predicate CanStrip(image: ImageHandler)
    requires image.Sound()
    reads image
  {
    var f := FooterOf(image.Contents());
    && StripAllowed(image)
    && (f.Some? && image.isSparse && f.value.originalImageSize > image.imageSize ==>
          image.Room(f.value.originalImageSize - image.imageSize, 0))
  }

  /** The footer in the last 64 bytes, if there is one. */
  method ReadFooter(image: ImageHandler) returns (f: Option<Footer>)
    requires image.Valid()
    modifies image`filePos
    ensures image.Valid() && image.Contents() == old(image.Contents())
    ensures f == FooterOf(image.Contents())
  {
    hide ImageHandler.Contents, ParseFooter, BlockBytes, Table, HeaderFor;
    if image.imageSize < FOOTER_SIZE {
      return None;
    }
    var data := ReadAt(image, image.imageSize - FOOTER_SIZE, FOOTER_SIZE);
    assert data == image.Contents()[image.imageSize - FOOTER_SIZE..];
    var parsed := ParseFooter(data);
    f := if parsed.Ok? then Some(parsed.value) else None;
  }

  /** The first step of the commands that add a footer: cut off an existing one. A struct error of `truncate` is taken
      for a missing footer: on a very short flat file after the cut, on a sparse file that cannot grow with nothing
      changed but the handler's counts, so that every later append fails. */
  method StripFooter(image: ImageHandler) returns (r: Result<nat>)
    requires image.Valid()
    modifies image
    ensures image.Sound() && image.isSparse == old(image.isSparse) && image.blockSize == old(image.blockSize)
    ensures r.Ok? <==> old(StripAllowed(image))
    ensures r.Ok? ==> r.value == image.imageSize
    ensures old(CanStrip(image)) ==> image.Valid() && image.Contents() == Strip(old(image.Contents()))
    ensures !old(CanStrip(image)) ==> image.file == old(image.file) && image.Contents() == old(image.Contents())
    ensures r.Ok? && !old(CanStrip(image)) ==> image.Stuck()
    ensures r.Err? ==> image.Valid() && !old(CanStrip(image))
    ensures image.isSparse ==> |image.chunks| <= old(|image.chunks|) + 1
    ensures old(FooterOf(image.Contents())).None? ==> image.file == old(image.file) && image.chunks == old(image.chunks)
  {
    hide ImageHandler.Contents, ImageHandler.Sound, FooterOf, BlockBytes, MagicPrefix;
    FlatFacts(image);
    var f := ReadFooter(image);
    if f.Some? {
      var t := image.Truncate(f.value.originalImageSize);
      if t.Err? && t.error != StructError {
        return Err(t.error);
      }
    }
    return Ok(image.imageSize);
  }

  // ---------------------------------------------------------------- add_hash_footer

  datatype HashArgs = HashArgs(
    partitionSize: nat, dynamicPartitionSize: bool, partitionName: bytes, hashAlgorithm: bytes, salt: bytes,
    usePersistentDigest: bool, doNotUseAb: bool, options: Options)

  /** The checks before the image is touched. */
  predicate ArgsOk(a: HashArgs) {
    (a.dynamicPartitionSize || a.partitionSize > 0)
    && (!a.dynamicPartitionSize ==> a.partitionSize >= MAX_METADATA_SIZE)
  }

  function RequiredMinor(a: HashArgs): nat {
    if exists i :: 0 <= i < |a.options.chains| && a.options.chains[i].doNotUseAb then 3
    else if a.options.rollbackIndexLocation > 0 then 2
    else if a.usePersistentDigest || a.doNotUseAb then 1
    else 0
  }

  /** The size of the partition the image is made for. */
  function Target(a: HashArgs, imageSize: nat, bs: nat): nat
    requires bs > 0
  {
    if a.dynamicPartitionSize then RoundUp(imageSize + MAX_METADATA_SIZE, bs) else a.partitionSize
  }

  /** The hash descriptor of image `img`. */
  function HashOf(lib: Hashlib, a: HashArgs, img: bytes): Descriptor {
    Hash(|img|, a.hashAlgorithm, a.partitionName, a.salt,
         if a.usePersistentDigest then [] else lib.hash(a.hashAlgorithm, a.salt + img),
         if a.doNotUseAb then 1 else 0)
  }

  /** `img`, grown to whole blocks. */
  function GrownToBlocks(img: bytes, bs: nat): (r: bytes)
    requires bs > 0
    ensures |r| % bs == 0
  {
    Resize(img, RoundUp(|img|, bs))
  }

  /** The blob with the image's hash descriptor can be generated. */
  ghost predicate HashBlobOk(lib: Hashlib, a: HashArgs, img: bytes) {
    BlobOk([HashOf(lib, a, img)], a.options, RequiredMinor(a))
  }

  ghost function HashBlob(lib: Hashlib, a: HashArgs, img: bytes): bytes
    requires HashBlobOk(lib, a, img)
  {
    BlobOf([HashOf(lib, a, img)], a.options, RequiredMinor(a))
  }

  /** What the partition is to contain: image, blob and footer. */
  ghost function HashFootered(lib: Hashlib, a: HashArgs, img: bytes, bs: nat): bytes
    requires bs > 0 && HashBlobOk(lib, a, img)
  {
    WithFooter(GrownToBlocks(img, bs), HashBlob(lib, a, img), |img|, Target(a, |img|, bs), bs)
  }

  /** The conditions that depend on the image: it fits, and descriptor, blob and footer can be encoded. */
  ghost predicate Addable(lib: Hashlib, a: HashArgs, img: bytes, bs: nat)
    requires bs > 0
  {
    var p := Target(a, |img|, bs);
    && p % bs == 0 && |img| + MAX_METADATA_SIZE <= p
    && lib.hashSize(a.hashAlgorithm).Some?
    && HashBlobOk(lib, a, img)
    && FooterInRange(NewFooter(|img|, RoundUp(|img|, bs), |HashBlob(lib, a, img)|))
  }

  /** Reading the whole image from the start. */
  method ReadAll(image: ImageHandler) returns (data: bytes)
    requires image.Sound()
    modifies image`filePos
    ensures image.Sound() && image.Contents() == old(image.Contents()) && data == image.Contents()
    ensures old(image.Valid()) ==> image.Valid()
  {
    hide ImageHandler.Contents, BlockBytes, Table, HeaderFor;
    if image.imageSize == 0 {
      var _ := image.Seek(0);
      var r := image.Read(0);
      data := r.value;
      assert image.Contents() == [];
    } else {
      data := ReadAt(image, 0, image.imageSize);
    }
  }

  /** Blob and footer block both fit, so that nothing of the blob is cut. */
  ghost predicate BlobFits(lib: Hashlib, a: HashArgs, img: bytes, bs: nat)
    requires bs > 0 && HashBlobOk(lib, a, img)
  {
    RoundUp(|img|, bs) + RoundUp(|HashBlob(lib, a, img)|, bs) + bs <= Target(a, |img|, bs)
  }

  /** What the command appends first, if it comes that far: the blob. */
  ghost function HashFirst(lib: Hashlib, a: HashArgs, img: bytes, bs: nat): Option<nat>
    requires bs > 0
  {
    if && Target(a, |img|, bs) % bs == 0 && |img| + MAX_METADATA_SIZE <= Target(a, |img|, bs)
       && lib.hashSize(a.hashAlgorithm).Some? && HashBlobOk(lib, a, img)
    then Some(RoundUp(|HashBlob(lib, a, img)|, bs))
    else None
  }

  /** On a sparse file: blob and footer fit the partition, and blob, footer and image the 32-bit fields. */
  ghost predicate FitsSparse(lib: Hashlib, a: HashArgs, img: bytes, bs: nat)
    requires bs > 0 && HashBlobOk(lib, a, img)
  {
    BlobFits(lib, a, img, bs) && FieldsHold(RoundUp(|img|, bs), HashBlob(lib, a, img), Target(a, |img|, bs), bs)
  }

  /** Growing a flat image to whole blocks; a sparse one always is. */
  method GrowToBlocks(image: ImageHandler)
    requires Ready(image) && !image.readOnly
    modifies image
    ensures image.Sound() && image.isSparse == old(image.isSparse) && image.blockSize == old(image.blockSize)
    ensures image.blockSize > 0 && image.Contents() == GrownToBlocks(old(image.Contents()), image.blockSize)
    ensures image.imageSize % image.blockSize == 0
    ensures image.isSparse ==> unchanged(image)
    ensures !image.isSparse ==> image.Valid()
  {
    FlatFacts(image);
    hide ImageHandler.Contents, BlockBytes, Table, HeaderFor;
    if image.imageSize % image.blockSize != 0 {
      var paddingNeeded := image.blockSize - image.imageSize % image.blockSize;
      var t := image.Truncate(image.imageSize + paddingNeeded);
    }
  }

  /** The guarded part of `add_hash_footer`: everything after the existing footer was cut off. */
  method HashBody(lib: Hashlib, a: HashArgs, image: ImageHandler, p: nat) returns (r: Result<()>)
    requires Ready(image) && !image.readOnly && lib.Valid()
    requires image.blockSize > 0 && p == Target(a, image.imageSize, image.blockSize) && p % image.blockSize == 0
    modifies image
    ensures image.Sound() && image.isSparse == old(image.isSparse) && image.blockSize == old(image.blockSize)
    ensures r.Ok? ==> image.Valid() && Addable(lib, a, old(image.Contents()), image.blockSize)
    ensures r.Ok? ==> image.Contents() == HashFootered(lib, a, old(image.Contents()), image.blockSize)
    ensures old(image.Contents()) <= image.Contents()
    ensures old(image.Valid()) ==>
      (r.Ok? <==> && Addable(lib, a, old(image.Contents()), image.blockSize)
                  && (image.isSparse ==>
                        FitsSparse(lib, a, old(image.Contents()), image.blockSize) && old(|image.chunks|) + 3 < TWO_32))
    ensures old(image.Stuck()) ==>
      r.Err? && image.Stuck() && image.file == old(image.file) && image.Contents() == old(image.Contents())
    ensures r.Err? && old(image.Valid()) ==>
      Repairable(image, old(image.imageSize), old(|image.chunks|), HashFirst(lib, a, old(image.Contents()), image.blockSize))
  {
    hide ImageHandler.Sound, ImageHandler.Contents, BlockBytes, BlobOk, BlobOf, ChainsOk, PropsOk, WithFooter,
      FooterInRange, Target, Parse, RoundUp;
    if image.isSparse && image.Valid() {
      StillParses(image);
    }
    if image.imageSize + MAX_METADATA_SIZE > p {
      return Err(AvbError);
    }
    if lib.hashSize(a.hashAlgorithm).None? {
      return Err(ValueError);
    }
    var data := ReadAll(image);
    var descriptor := HashOf(lib, a, data);
    var blob := GenerateBlob([descriptor], a.options, RequiredMinor(a));
    if blob.Err? {
      return Err(blob.error);
    }
    r := AppendHashBlob(lib, a, image, p, blob.value, data);
  }

  /** The last part of `add_hash_footer`: grow the image to whole blocks and append blob and footer. */
  method AppendHashBlob(lib: Hashlib, a: HashArgs, image: ImageHandler, p: nat, blob: bytes, data: bytes) returns (r: Result<()>)
    requires Ready(image) && !image.readOnly && data == image.Contents()
    requires image.blockSize > 0 && p == Target(a, |data|, image.blockSize) && p % image.blockSize == 0
    requires |data| + MAX_METADATA_SIZE <= p
    requires HashBlobOk(lib, a, data) && blob == HashBlob(lib, a, data)
    modifies image
    ensures image.Sound() && image.isSparse == old(image.isSparse) && image.blockSize == old(image.blockSize)
    ensures r.Ok? ==> image.Valid() && FooterInRange(NewFooter(|data|, RoundUp(|data|, image.blockSize), |blob|))
    ensures r.Ok? ==> image.Contents() == WithFooter(GrownToBlocks(data, image.blockSize), blob, |data|, p, image.blockSize)
    ensures data <= image.Contents()
    ensures old(image.Valid()) ==>
      (r.Ok? <==> && FooterInRange(NewFooter(|data|, RoundUp(|data|, image.blockSize), |blob|))
                  && (image.isSparse ==> FitsSparse(lib, a, data, image.blockSize) && old(|image.chunks|) + 3 < TWO_32))
    ensures old(image.Stuck()) ==>
      r.Err? && image.Stuck() && image.file == old(image.file) && image.Contents() == old(image.Contents())
    ensures r.Err? && old(image.Valid()) ==>
      Repairable(image, |data|, old(|image.chunks|), Some(RoundUp(|blob|, image.blockSize)))
  {
    hide ImageHandler.Sound, ImageHandler.Contents, BlockBytes, BlobOk, BlobOf, ChainsOk, PropsOk, WithFooter,
      FooterInRange, RoundUp, Parse, Breaks;
    FlatFacts(image);
    BlobStart([HashOf(lib, a, data)], a.options, RequiredMinor(a));
    GrownFits(|data|, p, image.blockSize);
    GrowToBlocks(image);
    ResizeGrows(data, RoundUp(|data|, image.blockSize));
    r := AppendVBMeta(image, blob, |data|, p);
  }

  lemma ResizeGrows(img: bytes, n: nat)
    requires |img| <= n
    ensures img <= Resize(img, n)
  {
  }

  /** An image that fits still fits after it was grown to whole blocks, with a block to spare for the footer. */
  lemma GrownFits(size: nat, p: nat, bs: nat)
    requires bs > 0 && p % bs == 0 && size + MAX_METADATA_SIZE <= p
    requires bs == DEFAULT_BLOCK_SIZE || size % bs == 0
    ensures RoundUp(size, bs) + bs <= p
    ensures bs == DEFAULT_BLOCK_SIZE ==> RoundUp(size, bs) + MAX_METADATA_SIZE <= p
  {
    if bs == DEFAULT_BLOCK_SIZE {
      RoundUpLeast(size, bs, p - MAX_METADATA_SIZE);
    } else {
      MultiplesAdd(p, size, bs);
      if p - size < bs {
        DivModUnique(p - size, bs, 0, p - size);
      }
    }
  }

  lemma BlobStart(ds: seq<Descriptor>, o: Options, minor: nat)
    requires BlobOk(ds, o, minor)
    ensures |BlobOf(ds, o, minor)| >= 4 && BlobOf(ds, o, minor)[..4] == VBMETA_MAGIC
  {
    hide BlobOk, BlobOf;
    BlobSize(ds, o, minor);
  }

  /** `add_hash_footer`, when the blob is to be appended. Whatever goes wrong after an existing footer was cut off, the
      image is left as it was without a footer; a sparse file it is stored in can then be opened again, unless the blob
      is so long that appending it broke the header. */
  method AddHashFooter(lib: Hashlib, a: HashArgs, image: ImageHandler) returns (r: Result<()>)
    requires image.Valid() && !image.readOnly && lib.Valid()
    modifies image
    ensures image.Sound() && image.isSparse == old(image.isSparse) && image.blockSize == old(image.blockSize) > 0
    ensures !ArgsOk(a) || !old(CanStrip(image)) ==>
      r.Err? && image.file == old(image.file) && image.Contents() == old(image.Contents())
    ensures ArgsOk(a) && old(CanStrip(image)) ==>
      var img, bs := Strip(old(image.Contents())), image.blockSize;
      && (r.Ok? ==> image.Valid() && Addable(lib, a, img, bs) && image.Contents() == HashFootered(lib, a, img, bs))
      && (r.Err? ==> image.Contents() == img)
      && (r.Err? && image.isSparse ==>
            (Parse(image.file).Ok? <==> !FirstBreaks(HashFirst(lib, a, img, bs), |img|, |image.chunks|, bs)))
      && (!image.isSparse ==> (r.Ok? <==> Addable(lib, a, img, bs)))
      && (image.isSparse && r.Ok? ==> FitsSparse(lib, a, img, bs))
      && (image.isSparse && old(|image.chunks|) + 4 < TWO_32 ==>
            (r.Ok? <==> Addable(lib, a, img, bs) && FitsSparse(lib, a, img, bs)))
  {
    hide ImageHandler.Contents, BlockBytes, Strip, HashFootered, Addable, CanStrip, HashBlobOk, HashBlob, Table,
      HeaderFor, BlobFits, Parse, HashFirst, Breaks, RoundUp;
    FlatFacts(image);
    if !ArgsOk(a) {
      return Err(AvbError);
    }
    var original :- StripFooter(image);
    ghost var img, chunks := image.Contents(), |image.chunks|;
    FlatFacts(image);
    var partitionSize := Target(a, original, image.blockSize);
    if partitionSize % image.blockSize != 0 {
      NotAddable(lib, a, img, image.blockSize);
      if image.isSparse && image.Valid() {
        StillParses(image);
      }
      return Err(AvbError);
    }
    ghost var first := HashFirst(lib, a, img, image.blockSize);
    r := HashBody(lib, a, image, partitionSize);
    if r.Err? {
      Restore(image, original, img, chunks, first);
      return Err(AvbError);
    }
  }

  /** The last resort of the commands that add a footer: back to the image without one. */
  method Restore(image: ImageHandler, original: nat, ghost img: bytes, ghost chunks: nat, ghost first: Option<nat>)
    requires image.Sound() && !image.readOnly && |img| == original && img <= image.Contents()
    requires image.isSparse && image.blockSize > 0 ==> original % image.blockSize == 0
    modifies image
    ensures image.Sound() && image.isSparse == old(image.isSparse) && image.blockSize == old(image.blockSize)
    ensures image.Contents() == img
    ensures image.isSparse && old(image.imageSize) == original ==> unchanged(image)
    ensures image.isSparse && old(Repairable(image, original, chunks, first)) ==>
      (Parse(image.file).Ok? <==> !FirstBreaks(first, original, |image.chunks|, image.blockSize))
  {
    hide ImageHandler.Contents, ImageHandler.Sound, BlockBytes, Parse;
    FlatFacts(image);
    assert Resize(image.Contents(), original) == img;
    var _ := image.Truncate(original);
    if image.isSparse && image.Valid() {
      StillParses(image);
    }
  }

  lemma NotAddable(lib: Hashlib, a: HashArgs, img: bytes, bs: nat)
    requires bs > 0 && Target(a, |img|, bs) % bs != 0
    ensures !Addable(lib, a, img, bs) && HashFirst(lib, a, img, bs) == None
  {
  }
}
