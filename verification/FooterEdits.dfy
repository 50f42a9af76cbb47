/** tools/avbtool: `_parse_image` on a handler, `erase_footer`, `resize_image`; and the laws of adding, moving and
    removing footers. */
module FooterEdits {
  import opened Bytes
  import opened Results
  import opened Struct
  import opened SparseFormat
  import opened SparseImage
  import opened Descriptors
  import opened VBMeta
  import opened Blob
  import opened FooterOps

  // ---------------------------------------------------------------- parsing through a handler

  /** The offsets `_parse_image` follows stay inside the image; only reads past its end differ on sparse files. */
  predicate InBounds(img: bytes) {
    var at := ParseOffset(img);
    && at <= |img|
    && var h := ParseHeader(Clip(img, at, at + VBMETA_HEADER_SIZE));
       h.Ok? ==> at + VBMETA_HEADER_SIZE + h.value.authSize + h.value.descriptors.offset <= |img|
  }

  function ParseOffset(img: bytes): nat {
    var f := FooterOf(img);
    if f.Some? then f.value.vbmetaOffset else 0
  }

  /** What `_parse_image` finds through a handler, whose reads past the end of a sparse image are not those of the
      flat one. */
  ghost function ParseThrough(lib: Hashlib, image: ImageHandler): Result<Parsed>
    requires image.Sound()
    reads image
  {
    if image.imageSize < FOOTER_SIZE then Err(RuntimeError)
    else
      var at := ParseOffset(image.Contents());
      var headerData :- image.ReadResult(at, VBMETA_HEADER_SIZE);
      var h :- ParseHeader(headerData);
      var data :- image.ReadResult(at + VBMETA_HEADER_SIZE + h.authSize + h.descriptors.offset, h.descriptors.size);
      var ds :- ParseList(lib, data);
      Ok(Parsed(FooterOf(image.Contents()), h, ds))
  }

  /** Inside the image it is what is found in the flat image. */
  lemma ParseThroughIs(lib: Hashlib, image: ImageHandler)
    requires image.Sound() && (image.isSparse ==> InBounds(image.Contents()))
    ensures ParseThrough(lib, image) == ParseImage(lib, image.Contents())
  {
    hide ImageHandler.Sound, ImageHandler.Contents, FooterOf, ParseHeader, ParseList, Clip, PastEnd, Table;
    if image.imageSize >= FOOTER_SIZE {
      HasChunks(image);
    }
  }

  /** `_parse_image`. */
  method ParseImageOf(lib: Hashlib, image: ImageHandler) returns (r: Result<Parsed>)
    requires image.Valid()
    modifies image`filePos
    ensures image.Valid() && image.Contents() == old(image.Contents())
    ensures r == old(ParseThrough(lib, image))
    ensures !image.isSparse || InBounds(image.Contents()) ==> r == ParseImage(lib, image.Contents())
  {
    hide ImageHandler.Sound, ImageHandler.Contents, FooterOf, ParseHeader, ParseList, Clip, PastEnd, InBounds,
      ParseImage, Table;
    if !image.isSparse || InBounds(image.Contents()) {
      ParseThroughIs(lib, image);
    }
    if image.imageSize < FOOTER_SIZE {
      return Err(RuntimeError);
    }
    var footer := ReadFooter(image);
    var vbmetaOffset := if footer.Some? then footer.value.vbmetaOffset else 0;
    var headerData :- ReadFrom(image, vbmetaOffset, VBMETA_HEADER_SIZE);
    var h :- ParseHeader(headerData);
    var start := vbmetaOffset + VBMETA_HEADER_SIZE + h.authSize + h.descriptors.offset;
    var data :- ReadFrom(image, start, h.descriptors.size);
    var descriptors := ParseDescriptors(lib, data);
    if descriptors.Err? {
      return Err(descriptors.error);
    }
    return Ok(Parsed(footer, h, descriptors.value));
  }

  // ---------------------------------------------------------------- erase_footer

  /** The first hashtree descriptor of a list. */
  function FirstHashtree(ds: seq<Descriptor>): (d: Option<Descriptor>)
    ensures d.Some? ==> d.value in ds && d.value.Hashtree?
  {
    if ds == [] then None else if ds[0].Hashtree? then Some(ds[0]) else FirstHashtree(ds[1..])
  }

  /** The size `erase_footer` cuts the image to, if it finds one. */
  function EraseSize(p: Parsed, keepHashtree: bool): Option<nat> {
    if p.footer.None? then None
    else if !keepHashtree then Some(p.footer.value.originalImageSize)
    else
      var d := FirstHashtree(p.descriptors);
      if d.None? then None
      else
        var treeEnd := d.value.treeOffset + d.value.treeSize;
        var size := if d.value.fecOffset > 0 then Max(treeEnd, d.value.fecOffset + d.value.fecSize) else treeEnd;
        if size == 0 then None else Some(size)
  }

  /** When `truncate` succeeds. */
  ghost predicate Truncates(image: ImageHandler, size: nat)
    requires image.blockSize > 0
    reads image
  {
    if !image.isSparse then size >= HEADER_SIZE
    else size % image.blockSize == 0 && (size > image.imageSize ==> image.Room(size - image.imageSize, 0))
  }

  /** `erase_footer`. */
  method EraseFooter(lib: Hashlib, image: ImageHandler, keepHashtree: bool) returns (r: Result<()>)
    requires image.Valid() && !image.readOnly
    modifies image
    ensures image.Sound() && image.isSparse == old(image.isSparse) && old(image.blockSize) > 0
    ensures var p := old(ParseThrough(lib, image));
      if p.Err? || EraseSize(p.value, keepHashtree).None? then
        r.Err? && image.file == old(image.file) && image.Contents() == old(image.Contents())
      else
        var size := EraseSize(p.value, keepHashtree).value;
        && (r.Ok? <==> old(Truncates(image, size)))
        && (r.Ok? || !image.isSparse ==> image.Contents() == Resize(old(image.Contents()), size))
        && (r.Err? && image.isSparse ==> image.file == old(image.file) && image.Contents() == old(image.Contents()))
    ensures old(!image.isSparse || InBounds(image.Contents())) ==>
      old(ParseThrough(lib, image)) == ParseImage(lib, old(image.Contents()))
  {
    hide ImageHandler.Contents, ParseImage, ParseThrough, BlockBytes, InBounds, Table, HeaderFor;
    if !image.isSparse || InBounds(image.Contents()) {
      ParseThroughIs(lib, image);
    }
    var parsed := ParseImageOf(lib, image);
    if parsed.Err? {
      return Err(parsed.error);
    }
    var size := EraseSize(parsed.value, keepHashtree);
    if size.None? {
      return Err(AvbError);
    }
    r := image.Truncate(size.value);
  }

  // ---------------------------------------------------------------- resize_image

  /** Where the blob a footer points to ends, in whole blocks. */
  function BlobEnd(f: Footer, bs: nat): nat
    requires bs > 0
  {
    RoundUp(f.vbmetaOffset + f.vbmetaSize, bs)
  }

  /** The image with its footer moved to the end of a partition of another size. */
  function Resized(img: bytes, f: Footer, partitionSize: nat, bs: nat): bytes
    requires bs > 0 && BlobEnd(f, bs) + bs <= partitionSize
  {
    Resize(Resize(img, BlobEnd(f, bs)), partitionSize - bs) + FooterBlock(f, bs)
  }

  function FooterIn(lib: Hashlib, img: bytes): Footer
    requires ParseImage(lib, img).Ok? && ParseImage(lib, img).value.footer.Some?
  {
    ParseImage(lib, img).value.footer.value
  }

  /** The image has a footer, and blob and footer fit the new size. */
  predicate Resizable(p: Result<Parsed>, partitionSize: nat, bs: nat)
    requires bs > 0
  {
    && p.Ok? && p.value.footer.Some?
    && partitionSize % bs == 0 && BlobEnd(p.value.footer.value, bs) + bs <= partitionSize
  }

  /** The fields of a sparse file hold a footer block and an image that ends with it. */
  predicate ResizeHolds(partitionSize: nat, bs: nat)
    requires bs > 0
  {
    FooterWhole(bs) && partitionSize - bs + Max(bs, FOOTER_SIZE) < BlockBytes(TWO_32, bs)
  }

  /** `resize_image`. A refused run changes nothing; only a footer that points to an empty blob at the start of a flat
      file passes the checks and then fails, with nothing left of the file. */
  method ResizeImage(lib: Hashlib, image: ImageHandler, partitionSize: nat) returns (r: Result<()>)
    requires image.Valid() && !image.readOnly
    modifies image
    ensures image.Sound() && image.isSparse == old(image.isSparse) && image.blockSize == old(image.blockSize) > 0
    ensures var p := old(ParseThrough(lib, image));
      if !Resizable(p, partitionSize, image.blockSize) then
        r.Err? && image.file == old(image.file) && image.Contents() == old(image.Contents())
      else
        var f := p.value.footer.value;
        && (r.Ok? ==> image.Contents() == Resized(old(image.Contents()), f, partitionSize, image.blockSize))
        && (!image.isSparse ==> (r.Ok? <==> BlobEnd(f, image.blockSize) > 0) && (r.Err? ==> image.Contents() == []))
        && (image.isSparse && r.Ok? ==> ResizeHolds(partitionSize, image.blockSize))
        && (image.isSparse && old(|image.chunks|) + 3 < TWO_32 ==> (r.Ok? <==> ResizeHolds(partitionSize, image.blockSize)))
        && (image.isSparse && r.Err? ==>
              image.Contents() == old(image.Contents()) || Resize(old(image.Contents()), BlobEnd(f, image.blockSize)) <= image.Contents())
    ensures old(!image.isSparse || InBounds(image.Contents())) ==>
      old(ParseThrough(lib, image)) == ParseImage(lib, old(image.Contents()))
  {
    hide ImageHandler.Contents, ParseImage, ParseThrough, BlockBytes, InBounds, Table, HeaderFor, FooterBlock,
      FooterInRange, TakesFooter, Resized;
    FlatFacts(image);
    if !image.isSparse || InBounds(image.Contents()) {
      ParseThroughIs(lib, image);
    }
    if partitionSize % image.blockSize != 0 {
      return Err(AvbError);
    }
    ParsedFooterInRange(lib, image);
    var parsed := ParseImageOf(lib, image);
    if parsed.Err? {
      return Err(parsed.error);
    }
    if parsed.value.footer.None? {
      return Err(AvbError);
    }
    var f := parsed.value.footer.value;
    if partitionSize < BlobEnd(f, image.blockSize) + image.blockSize {
      return Err(AvbError);
    }
    r := MoveFooter(image, f, partitionSize);
  }

  /** A footer that was read can be written again. */
  lemma ParsedFooterInRange(lib: Hashlib, image: ImageHandler)
    requires image.Sound()
    ensures FooterOf(image.Contents()).Some? ==> FooterInRange(FooterOf(image.Contents()).value)
    ensures ParseThrough(lib, image).Ok? ==> ParseThrough(lib, image).value.footer == FooterOf(image.Contents())
  {
    hide ImageHandler.Contents, ImageHandler.Sound, ImageHandler.ReadResult, FromBE, FooterInRange;
    ReadFooterInRange(image.Contents());
  }

  lemma ReadFooterInRange(img: bytes)
    ensures FooterOf(img).Some? ==> FooterInRange(FooterOf(img).value)
  {
    hide FromBE;
    if FooterOf(img).Some? {
      var f := Split(FOOTER_FORMAT, img[|img| - FOOTER_SIZE..]);
      PowersOf256();
      FromBEBound(f[1]);
      FromBEBound(f[2]);
      FromBEBound(f[3]);
      FromBEBound(f[4]);
      FromBEBound(f[5]);
    }
  }

  /** The edits of `resize_image`: cut after the blob, a hole, and the same footer again. */
  method MoveFooter(image: ImageHandler, f: Footer, partitionSize: nat) returns (r: Result<()>)
    requires image.Valid() && !image.readOnly && image.blockSize > 0 && FooterInRange(f)
    requires partitionSize % image.blockSize == 0 && BlobEnd(f, image.blockSize) + image.blockSize <= partitionSize
    modifies image
    ensures image.Sound() && image.isSparse == old(image.isSparse) && image.blockSize == old(image.blockSize)
    ensures r.Ok? ==> image.Contents() == Resized(old(image.Contents()), f, partitionSize, image.blockSize)
    ensures !image.isSparse ==> (r.Ok? <==> BlobEnd(f, image.blockSize) > 0) && (r.Err? ==> image.Contents() == [])
    ensures image.isSparse && r.Ok? ==> ResizeHolds(partitionSize, image.blockSize)
    ensures image.isSparse && old(|image.chunks|) + 3 < TWO_32 ==> (r.Ok? <==> ResizeHolds(partitionSize, image.blockSize))
    ensures image.isSparse && r.Err? ==>
      image.Contents() == old(image.Contents()) || Resize(old(image.Contents()), BlobEnd(f, image.blockSize)) <= image.Contents()
  {
    hide ImageHandler.Contents, ImageHandler.Sound, BlockBytes, FooterBlock, FooterInRange, TakesFooter, FooterWhole,
      RoundUp;
    FlatFacts(image);
    var end := BlobEnd(f, image.blockSize);
    WholeBlockAtLeast(end, image.blockSize);
    r := image.Truncate(end);
    if r.Err? {
      return;
    }
    FlatFacts(image);
    r := AppendHole(image, partitionSize);
    if r.Err? {
      return;
    }
    FlatFacts(image);
    FooterAccepted(image, f);
    r := AppendFooter(image, f);
  }

  // ---------------------------------------------------------------- laws of footers

  /** The last 64 bytes of an image with a footer are that footer. */
  lemma FooterFound(body: bytes, f: Footer, bs: nat)
    requires FooterInRange(f)
    ensures |body + FooterBlock(f, bs)| >= FOOTER_SIZE
    ensures (body + FooterBlock(f, bs))[|body + FooterBlock(f, bs)| - FOOTER_SIZE..] == Join(FooterFields(f))
    ensures FooterOf(body + FooterBlock(f, bs)) == Some(f)
  {
    hide FooterFields, ParseFooter;
    FooterRoundTrip(f);
    FooterBlockSize(f, bs);
    var img := body + FooterBlock(f, bs);
    var block := FooterBlock(f, bs);
    assert img[|img| - FOOTER_SIZE..] == block[|block| - FOOTER_SIZE..];
  }

  /** The parts of an image with a hash footer: the original image, zeros, the blob, zeros, the footer. */
  lemma HashFooteredParts(lib: Hashlib, a: HashArgs, img: bytes, bs: nat)
    requires bs > 0 && Addable(lib, a, img, bs) && (bs == DEFAULT_BLOCK_SIZE || |img| % bs == 0)
    ensures var p, base, blob := Target(a, |img|, bs), GrownToBlocks(img, bs), HashBlob(lib, a, img);
      var out, f := HashFootered(lib, a, img, bs), NewFooter(|img|, RoundUp(|img|, bs), |blob|);
      && RoundUp(|img|, bs) + bs <= p
      && out == Resize(base + (blob + Filling(blob, bs)), p - bs) + FooterBlock(f, bs)
      && FooterOf(out) == Some(f) && out[|out| - FOOTER_SIZE..] == Join(FooterFields(f))
      && img <= base <= out
      && |out| == p - bs + Max(bs, FOOTER_SIZE)
  {
    hide HashBlobOk, HashBlob, FooterBlock, FooterFields, FooterOf, FooterInRange, RoundUp, Target;
    var p, base, blob := Target(a, |img|, bs), GrownToBlocks(img, bs), HashBlob(lib, a, img);
    var f := NewFooter(|img|, RoundUp(|img|, bs), |blob|);
    GrownFits(|img|, p, bs);
    var body := Resize(base + (blob + Filling(blob, bs)), p - bs);
    FooterFound(body, f, bs);
    FooterBlockSize(f, bs);
    ResizePrefix(base, blob + Filling(blob, bs), p - bs);
    ResizeGrows(img, RoundUp(|img|, bs));
  }

  /** Cutting the footer off gives back the image the footer was added to, whatever it was. */
  lemma StripUndoesAdd(lib: Hashlib, a: HashArgs, img: bytes, bs: nat)
    requires bs > 0 && Addable(lib, a, img, bs) && (bs == DEFAULT_BLOCK_SIZE || |img| % bs == 0)
    ensures Strip(HashFootered(lib, a, img, bs)) == img
  {
    hide HashFootered, Addable, FooterOf, FooterBlock, GrownToBlocks, Target, FooterFields;
    HashFooteredParts(lib, a, img, bs);
  }

  /** The layout for 4096-byte blocks and a blob that fits: exactly the partition size, nothing cut, and a hole whose
      size is never negative. */
  lemma HashFooteredLayout(lib: Hashlib, a: HashArgs, img: bytes)
    requires Addable(lib, a, img, DEFAULT_BLOCK_SIZE) && BlobFits(lib, a, img, DEFAULT_BLOCK_SIZE)
    ensures var bs, p, blob := DEFAULT_BLOCK_SIZE, Target(a, |img|, DEFAULT_BLOCK_SIZE), HashBlob(lib, a, img);
      var at := RoundUp(|img|, bs);
      var end := at + RoundUp(|blob|, bs);
      && |img| <= at && end <= p - bs
      && |HashFootered(lib, a, img, bs)| == p
      && HashFootered(lib, a, img, bs)
         == img + Zeros(at - |img|) + blob + Zeros(end - at - |blob|) + Zeros(p - bs - end)
            + FooterBlock(NewFooter(|img|, at, |blob|), bs)
  {
    hide Addable, HashBlobOk, HashBlob, FooterFields, FooterOf, Target, RoundUp, HashFootered, FooterBlock, Resize,
      Filling, GrownToBlocks;
    AddableFits(lib, a, img);
    var bs, p, blob := DEFAULT_BLOCK_SIZE, Target(a, |img|, DEFAULT_BLOCK_SIZE), HashBlob(lib, a, img);
    HashFooteredParts(lib, a, img, bs);
    LayoutSum(img, blob, p - bs, FooterBlock(NewFooter(|img|, RoundUp(|img|, bs), |blob|), bs), bs);
  }

  lemma AddableFits(lib: Hashlib, a: HashArgs, img: bytes)
    requires Addable(lib, a, img, DEFAULT_BLOCK_SIZE)
    ensures HashBlobOk(lib, a, img)
    ensures RoundUp(|img|, DEFAULT_BLOCK_SIZE) + MAX_METADATA_SIZE <= Target(a, |img|, DEFAULT_BLOCK_SIZE)
  {
    hide HashBlobOk, HashBlob, Target, RoundUp, FooterInRange;
    GrownFits(|img|, Target(a, |img|, DEFAULT_BLOCK_SIZE), DEFAULT_BLOCK_SIZE);
  }

  lemma LayoutSum(img: bytes, blob: bytes, n: nat, last: bytes, bs: nat)
    requires bs > 0 && RoundUp(|img|, bs) + RoundUp(|blob|, bs) <= n
    ensures Resize(GrownToBlocks(img, bs) + (blob + Filling(blob, bs)), n) + last
         == img + Zeros(RoundUp(|img|, bs) - |img|) + blob + Zeros(RoundUp(|blob|, bs) - |blob|)
            + Zeros(n - RoundUp(|img|, bs) - RoundUp(|blob|, bs)) + last
  {
    hide RoundUp;
    var at, size := RoundUp(|img|, bs), RoundUp(|blob|, bs);
    assert Resize(img, at) == img + Zeros(at - |img|);
    var body := img + Zeros(at - |img|) + blob + Zeros(size - |blob|);
    assert GrownToBlocks(img, bs) + (blob + Filling(blob, bs)) == body;
    assert Resize(body, n) == body + Zeros(n - |body|);
  }

  /** Adding a footer to an image that has one replaces it: the second one is added to the original image. */
  lemma AddAfterAdd(lib: Hashlib, first: HashArgs, second: HashArgs, img: bytes, bs: nat)
    requires bs > 0 && Addable(lib, first, img, bs) && (bs == DEFAULT_BLOCK_SIZE || |img| % bs == 0)
    requires Addable(lib, second, img, bs)
    ensures Addable(lib, second, Strip(HashFootered(lib, first, img, bs)), bs)
    ensures HashFootered(lib, second, Strip(HashFootered(lib, first, img, bs)), bs) == HashFootered(lib, second, img, bs)
  {
    hide HashFootered, Addable, Strip;
    StripUndoesAdd(lib, first, img, bs);
  }

  /** Moving the footer to another partition size gives what adding it there gives. */
  lemma ResizeAfterAdd(lib: Hashlib, a: HashArgs, img: bytes, bs: nat, p2: nat)
    requires bs > 0 && Addable(lib, a, img, bs) && (bs == DEFAULT_BLOCK_SIZE || |img| % bs == 0)
    requires var blob := HashBlob(lib, a, img);
      RoundUp(|img|, bs) + RoundUp(|blob|, bs) + bs <= Target(a, |img|, bs)
    ensures var blob := HashBlob(lib, a, img);
      var f := NewFooter(|img|, RoundUp(|img|, bs), |blob|);
      && BlobEnd(f, bs) == RoundUp(|img|, bs) + RoundUp(|blob|, bs)
      && (p2 % bs == 0 && BlobEnd(f, bs) + bs <= p2 ==>
            Resized(HashFootered(lib, a, img, bs), f, p2, bs)
              == WithFooter(GrownToBlocks(img, bs), blob, |img|, p2, bs))
  {
    hide HashBlobOk, HashBlob, FooterFields, FooterOf, FooterInRange, FooterBlock, Target, RoundUp, Addable,
      HashFootered, WithFooter;
    AddableBlob(lib, a, img, bs);
    HashFooteredIs(lib, a, img, bs);
    FooterMoves(GrownToBlocks(img, bs), HashBlob(lib, a, img), |img|, Target(a, |img|, bs), p2, bs);
  }

  lemma HashFooteredIs(lib: Hashlib, a: HashArgs, img: bytes, bs: nat)
    requires bs > 0 && HashBlobOk(lib, a, img)
    ensures HashFootered(lib, a, img, bs)
         == WithFooter(GrownToBlocks(img, bs), HashBlob(lib, a, img), |img|, Target(a, |img|, bs), bs)
  {
    hide HashBlobOk, HashBlob, WithFooter, Target;
  }

  /** Moving a footer from one partition size (or none) to another that the parts fit. */
  lemma FooterMoves(base: bytes, blob: bytes, originalSize: nat, p: nat, p2: nat, bs: nat)
    requires bs > 0 && |base| % bs == 0 && BlobHolds(|base|, blob, p, bs)
    ensures var f := NewFooter(originalSize, |base|, |blob|);
      && BlobEnd(f, bs) == |base| + RoundUp(|blob|, bs)
      && (BlobEnd(f, bs) + bs <= p2 ==>
            Resized(WithFooter(base, blob, originalSize, p, bs), f, p2, bs) == WithFooter(base, blob, originalSize, p2, bs))
  {
    hide FooterBlock, RoundUp, Resize;
    var f := NewFooter(originalSize, |base|, |blob|);
    RoundUpSum(|base|, |blob|, bs);
    var body := base + (blob + Filling(blob, bs));
    if BlobEnd(f, bs) + bs <= p2 {
      var n := if p > 0 then p - bs else |body|;
      WholeIsResized(body);
      CutAndGrow(body, n, FooterBlock(f, bs), p2 - bs);
    }
  }

  lemma WholeIsResized(s: bytes)
    ensures Resize(s, |s|) == s
  {
  }

  lemma AddableBlob(lib: Hashlib, a: HashArgs, img: bytes, bs: nat)
    requires bs > 0 && Addable(lib, a, img, bs)
    ensures HashBlobOk(lib, a, img)
  {
    hide HashBlobOk, HashBlob;
  }

  /** Cutting behind the body and growing again. */
  lemma CutAndGrow(body: bytes, n: nat, last: bytes, m: nat)
    requires |body| <= n && |body| <= m
    ensures Resize(Resize(Resize(body, n) + last, |body|), m) == Resize(body, m)
  {
    assert (Resize(body, n) + last)[..|body|] == body;
  }

  lemma RoundUpSum(a: nat, b: nat, bs: nat)
    requires bs > 0 && a % bs == 0
    ensures RoundUp(a + b, bs) == a + RoundUp(b, bs)
  {
    MultiplesAdd(a, RoundUp(b, bs), bs);
    RoundUpLeast(a + b, bs, a + RoundUp(b, bs));
    MultiplesAdd(RoundUp(a + b, bs), a, bs);
    RoundUpLeast(b, bs, RoundUp(a + b, bs) - a);
  }

  /** The header and descriptors in the blob of an image. */
  ghost function HashHeader(lib: Hashlib, a: HashArgs, img: bytes): Header
    requires ChainsOk(a.options) && PropsOk(a.options)
  {
    HeaderOf(EncodeAll(HashDescriptors(lib, a, img)), a.options, BumpAll(RequiredMinor(a), a.options.included))
  }

  ghost function HashDescriptors(lib: Hashlib, a: HashArgs, img: bytes): seq<Descriptor>
    requires ChainsOk(a.options) && PropsOk(a.options)
  {
    AllDescriptors([HashOf(lib, a, img)], a.options)
  }

  ghost predicate HashReadable(lib: Hashlib, a: HashArgs, img: bytes) {
    HashBlobOk(lib, a, img) && Readable(lib, [HashOf(lib, a, img)], a.options)
  }

  /** An image with a hash footer parses to the footer, header and descriptors that were put into it. */
  lemma HashFooteredParses(lib: Hashlib, a: HashArgs, img: bytes, bs: nat)
    requires bs > 0 && Addable(lib, a, img, bs) && (bs == DEFAULT_BLOCK_SIZE || |img| % bs == 0)
    requires HashReadable(lib, a, img) && BlobFits(lib, a, img, bs)
    ensures ChainsOk(a.options) && PropsOk(a.options)
    ensures var f := NewFooter(|img|, RoundUp(|img|, bs), |HashBlob(lib, a, img)|);
      ParseImage(lib, HashFootered(lib, a, img, bs)) == Ok(Parsed(Some(f), HashHeader(lib, a, img), HashDescriptors(lib, a, img)))
  {
    hide FooterFields, FooterOf, FooterBlock, Target, RoundUp, Resize, Filling, ParseImage, Readable, HeaderOf,
      BlobOf, BlobOk, HashOf, RequiredMinor, HashFootered, FooterInRange;
    var blob, base := HashBlob(lib, a, img), GrownToBlocks(img, bs);
    var f := NewFooter(|img|, RoundUp(|img|, bs), |blob|);
    HashFooteredParts(lib, a, img, bs);
    BlobInside(base, blob, Target(a, |img|, bs) - bs, FooterBlock(f, bs), bs);
    BlobOkChecks([HashOf(lib, a, img)], a.options, RequiredMinor(a));
    FooteredBlobParses(lib, [HashOf(lib, a, img)], a.options, RequiredMinor(a), HashFootered(lib, a, img, bs), f);
  }

  lemma BlobOkChecks(ds: seq<Descriptor>, o: Options, minor: nat)
    requires BlobOk(ds, o, minor)
    ensures ChainsOk(o) && PropsOk(o)
  {
  }

  lemma BlobInside(base: bytes, blob: bytes, n: nat, last: bytes, bs: nat)
    requires bs > 0 && |base| + RoundUp(|blob|, bs) <= n
    ensures var out := Resize(base + (blob + Filling(blob, bs)), n) + last;
      |base| + |blob| <= |out| && out[|base|..|base| + |blob|] == blob
  {
    hide RoundUp;
    var body := base + (blob + Filling(blob, bs));
    var out := Resize(body, n) + last;
    ResizePrefix(body, [], n);
    assert body + [] == body;
    assert out[..|body|] == body;
    assert out[|base|..|base| + |blob|] == body[|base|..|base| + |blob|] == blob;
  }

  /** A blob of at most 64 KiB always fits a partition with 4096-byte blocks. */
  lemma SmallBlobFits(lib: Hashlib, a: HashArgs, img: bytes)
    requires Addable(lib, a, img, DEFAULT_BLOCK_SIZE) && |HashBlob(lib, a, img)| <= MAX_VBMETA_SIZE
    ensures BlobFits(lib, a, img, DEFAULT_BLOCK_SIZE)
  {
    hide Target, HashBlob, HashBlobOk;
    AddableFits(lib, a, img);
    RoundUpLeast(|HashBlob(lib, a, img)|, DEFAULT_BLOCK_SIZE, MAX_VBMETA_SIZE);
  }

  // ---------------------------------------------------------------- runs of the commands themselves

  /** Adding a hash footer to a flat image without footer, and erasing it again, leaves the image as it was. */
  method AddThenErase(lib: Hashlib, a: HashArgs, image: ImageHandler) returns (r: Result<()>)
    requires image.Valid() && !image.readOnly && !image.isSparse && lib.Valid()
    requires FooterOf(image.Contents()).None? && image.imageSize >= HEADER_SIZE
    requires Addable(lib, a, image.Contents(), DEFAULT_BLOCK_SIZE) ==>
      HashReadable(lib, a, image.Contents()) && BlobFits(lib, a, image.Contents(), DEFAULT_BLOCK_SIZE)
    modifies image
    ensures image.Sound() && image.Contents() == old(image.Contents())
    ensures r.Ok? <==> ArgsOk(a) && Addable(lib, a, old(image.Contents()), DEFAULT_BLOCK_SIZE)
  {
    hide ImageHandler.Contents, ParseImage, FooterOf, Addable, HashBlob, HashBlobOk, Readable, HashFootered, ArgsOk,
      BlobFits;
    FlatFacts(image);
    ghost var img := image.Contents();
    r := AddHashFooter(lib, a, image);
    if r.Err? {
      return;
    }
    FlatFacts(image);
    HashFooteredParses(lib, a, img, DEFAULT_BLOCK_SIZE);
    StripUndoesAdd(lib, a, img, DEFAULT_BLOCK_SIZE);
    StripIsResize(HashFootered(lib, a, img, DEFAULT_BLOCK_SIZE), lib);
    r := EraseFooter(lib, image, false);
  }

  lemma StripIsResize(img: bytes, lib: Hashlib)
    requires ParseImage(lib, img).Ok? && ParseImage(lib, img).value.footer.Some?
    ensures Strip(img) == Resize(img, FooterIn(lib, img).originalImageSize)
  {
    hide ParseAt, ParseFooter;
  }

  /** A footer can always be cut off a writable flat image. */
  lemma FlatStrips(image: ImageHandler)
    requires image.Sound() && !image.isSparse && !image.readOnly
    ensures CanStrip(image)
  {
  }

  /** Adding a footer twice, with any arguments the first time, is adding it once. */
  method AddTwice(lib: Hashlib, first: HashArgs, second: HashArgs, image: ImageHandler) returns (r: Result<()>)
    requires image.Valid() && !image.readOnly && !image.isSparse && lib.Valid()
    modifies image
    ensures image.Sound()
    ensures r.Ok? <==>
      (ArgsOk(first) && Addable(lib, first, Strip(old(image.Contents())), DEFAULT_BLOCK_SIZE)
       && ArgsOk(second) && Addable(lib, second, Strip(old(image.Contents())), DEFAULT_BLOCK_SIZE))
    ensures r.Ok? ==> image.Contents() == HashFootered(lib, second, Strip(old(image.Contents())), DEFAULT_BLOCK_SIZE)
  {
    hide ImageHandler.Contents, Strip, Addable, HashBlobOk, HashFootered, CanStrip, ArgsOk;
    FlatFacts(image);
    FlatStrips(image);
    ghost var img := Strip(image.Contents());
    r := AddHashFooter(lib, first, image);
    if r.Err? {
      return;
    }
    FlatFacts(image);
    FlatStrips(image);
    StripUndoesAdd(lib, first, img, DEFAULT_BLOCK_SIZE);
    r := AddHashFooter(lib, second, image);
  }

  /** Adding a footer and resizing to `p2` gives what adding the footer for a partition of `p2` bytes gives; it
      succeeds exactly if the footer can be added and blob and footer fit the new size. */
  method AddThenResize(lib: Hashlib, a: HashArgs, image: ImageHandler, p2: nat) returns (r: Result<()>)
    requires image.Valid() && !image.readOnly && !image.isSparse && lib.Valid() && p2 > 0
    requires Addable(lib, a, Strip(image.Contents()), DEFAULT_BLOCK_SIZE) ==>
      HashReadable(lib, a, Strip(image.Contents())) && BlobFits(lib, a, Strip(image.Contents()), DEFAULT_BLOCK_SIZE)
    modifies image
    ensures image.Sound()
    ensures r.Ok? <==>
      (ArgsOk(a) && Addable(lib, a, Strip(old(image.Contents())), DEFAULT_BLOCK_SIZE)
       && SizeSuits(lib, a, Strip(old(image.Contents())), p2))
    ensures r.Ok? ==>
      var b, img := a.(partitionSize := p2, dynamicPartitionSize := false), Strip(old(image.Contents()));
      HashBlobOk(lib, b, img) && image.Contents() == HashFootered(lib, b, img, DEFAULT_BLOCK_SIZE)
  {
    hide ImageHandler.Contents, ParseImage, Strip, Addable, HashBlob, HashBlobOk, Readable, HashFootered, BlobFits,
      Resized, ArgsOk, CanStrip;
    FlatFacts(image);
    FlatStrips(image);
    ghost var img := Strip(image.Contents());
    r := AddHashFooter(lib, a, image);
    if r.Err? {
      return;
    }
    FlatFacts(image);
    HashFooteredParses(lib, a, img, DEFAULT_BLOCK_SIZE);
    FitsUnfold(lib, a, img, DEFAULT_BLOCK_SIZE);
    ResizeAfterAdd(lib, a, img, DEFAULT_BLOCK_SIZE, p2);
    SameBlob(lib, a, img, p2);
    BlobNotEmpty(lib, a, img);
    r := ResizeImage(lib, image, p2);
  }

  /** Whole blocks, and room for image, blob and footer block. */
  ghost predicate SizeSuits(lib: Hashlib, a: HashArgs, img: bytes, p2: nat)
    requires HashBlobOk(lib, a, img)
  {
    p2 % DEFAULT_BLOCK_SIZE == 0
    && RoundUp(|img|, DEFAULT_BLOCK_SIZE) + RoundUp(|HashBlob(lib, a, img)|, DEFAULT_BLOCK_SIZE) + DEFAULT_BLOCK_SIZE <= p2
  }

  lemma BlobNotEmpty(lib: Hashlib, a: HashArgs, img: bytes)
    requires HashBlobOk(lib, a, img)
    ensures RoundUp(|HashBlob(lib, a, img)|, DEFAULT_BLOCK_SIZE) > 0
  {
    hide BlobOf, RoundUp;
    BlobSize([HashOf(lib, a, img)], a.options, RequiredMinor(a));
  }

  lemma FitsUnfold(lib: Hashlib, a: HashArgs, img: bytes, bs: nat)
    requires bs > 0 && HashBlobOk(lib, a, img) && BlobFits(lib, a, img, bs)
    ensures RoundUp(|img|, bs) + RoundUp(|HashBlob(lib, a, img)|, bs) + bs <= Target(a, |img|, bs)
  {
    hide HashBlobOk, HashBlob;
  }

  /** The partition size is not part of the blob. */
  lemma SameBlob(lib: Hashlib, a: HashArgs, img: bytes, p2: nat)
    requires HashBlobOk(lib, a, img)
    ensures var b := a.(partitionSize := p2, dynamicPartitionSize := false);
      && HashBlobOk(lib, b, img) && HashBlob(lib, b, img) == HashBlob(lib, a, img)
      && HashFootered(lib, b, img, DEFAULT_BLOCK_SIZE)
         == WithFooter(GrownToBlocks(img, DEFAULT_BLOCK_SIZE), HashBlob(lib, a, img), |img|, p2, DEFAULT_BLOCK_SIZE)
  {
    hide BlobOk, BlobOf, WithFooter;
    var b := a.(partitionSize := p2, dynamicPartitionSize := false);
    assert HashOf(lib, b, img) == HashOf(lib, a, img) && RequiredMinor(b) == RequiredMinor(a);
  }

  /** The image is accepted, but its blob is too long for the partition. */
  ghost predicate BlobIsCut(lib: Hashlib, a: HashArgs, img: bytes) {
    ArgsOk(a) && Addable(lib, a, img, DEFAULT_BLOCK_SIZE) && !BlobFits(lib, a, img, DEFAULT_BLOCK_SIZE)
  }

  /** Adding a hash footer to a sparse file and to its expansion gives the same result, and the same image, exactly
      unless the image is accepted and its blob does not fit: then the flat file gets a footer behind a blob that was
      cut, and the sparse file refuses. */
  method AddToSparseAndFlat(lib: Hashlib, a: HashArgs, sparse: ImageHandler, flat: ImageHandler)
    returns (r: Result<()>, q: Result<()>)
    requires sparse != flat && lib.Valid()
    requires sparse.Valid() && !sparse.readOnly && sparse.isSparse && CanStrip(sparse)
    requires flat.Valid() && !flat.readOnly && !flat.isSparse && flat.file == sparse.Contents()
    requires sparse.blockSize == DEFAULT_BLOCK_SIZE && |sparse.chunks| + 4 < TWO_32
    requires HashBlobOk(lib, a, Strip(sparse.Contents())) ==>
      var img := Strip(sparse.Contents());
      FieldsHold(RoundUp(|img|, DEFAULT_BLOCK_SIZE), HashBlob(lib, a, img), Target(a, |img|, DEFAULT_BLOCK_SIZE), DEFAULT_BLOCK_SIZE)
    modifies sparse, flat
    ensures sparse.Sound() && flat.Sound() && sparse.isSparse && !flat.isSparse
    ensures q.Ok? <==> ArgsOk(a) && Addable(lib, a, Strip(old(sparse.Contents())), DEFAULT_BLOCK_SIZE)
    ensures (r.Ok? <==> q.Ok?) <==> !BlobIsCut(lib, a, Strip(old(sparse.Contents())))
    ensures flat.file == sparse.Contents() <==> !BlobIsCut(lib, a, Strip(old(sparse.Contents())))
  {
    hide ImageHandler.Contents, Strip, Addable, HashFootered, HashBlobOk, HashBlob, BlockBytes, ArgsOk, FooterOf,
      BlobFits, Parse, HashFirst, FirstBreaks;
    FlatFacts(flat);
    ghost var img := Strip(sparse.Contents());
    if Addable(lib, a, img, DEFAULT_BLOCK_SIZE) {
      AddableBlob(lib, a, img, DEFAULT_BLOCK_SIZE);
    }
    r := AddHashFooter(lib, a, sparse);
    q := AddHashFooter(lib, a, flat);
    FlatFacts(flat);
    if q.Ok? {
      FooterAddsBytes(lib, a, img);
    }
  }

  lemma FooterAddsBytes(lib: Hashlib, a: HashArgs, img: bytes)
    requires Addable(lib, a, img, DEFAULT_BLOCK_SIZE)
    ensures HashFootered(lib, a, img, DEFAULT_BLOCK_SIZE) != img
  {
    hide HashBlobOk, HashBlob, FooterFields, FooterOf, FooterInRange, FooterBlock, Target, RoundUp, Resize,
      HashFootered;
    HashFooteredParts(lib, a, img, DEFAULT_BLOCK_SIZE);
  }
}
