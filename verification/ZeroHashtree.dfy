/** tools/avbtool: `zero_hashtree`. */
module ZeroHashtree {
  import opened Bytes
  import opened Results
  import opened SparseFormat
  import opened SparseImage
  import opened Descriptors
  import opened VBMeta
  import opened Blob
  import opened FooterOps
  import opened FooterEdits

  /** `ZeRoHaSH` */
  const ZERO_MARK: bytes := [0x5A, 0x65, 0x52, 0x6F, 0x48, 0x61, 0x53, 0x48]

  /** The block that marks zeroed data. */
  function MarkBlock(bs: nat): bytes { ZERO_MARK + Zeros(bs - 8) }

  /** What `size` bytes are replaced with: at least the marker block. */
  function Marked(size: nat, bs: nat): bytes { MarkBlock(bs) + Zeros(size - bs) }

  /** Where the zeroed stretch of a hashtree descriptor ends: FEC data follows the tree. */
  function ZeroEnd(d: Descriptor): nat
    requires d.Hashtree?
  {
    d.treeOffset + d.treeSize + if d.fecOffset > 0 then d.fecSize else 0
  }

  predicate Adjacent(d: Descriptor)
    requires d.Hashtree?
  {
    d.fecOffset > 0 ==> d.fecOffset == d.treeOffset + d.treeSize
  }

  /** The image with tree and FEC data zeroed. */
  function Zeroed(img: bytes, d: Descriptor, bs: nat): bytes
    requires d.Hashtree?
  {
    MarkedImage(img, d, bs, Clip(img, ZeroEnd(d), |img|))
  }

  /** Everything up to the tree, the marked tree and FEC data, and what follows. */
  function MarkedImage(img: bytes, d: Descriptor, bs: nat, rest: bytes): bytes
    requires d.Hashtree?
  {
    Resize(img, d.treeOffset) + Marked(d.treeSize, bs) + (if d.fecOffset > 0 then Marked(d.fecSize, bs) else []) + rest
  }

  /** The image has a footer and a hashtree descriptor whose FEC data, if any, directly follows the tree. */
  predicate HasTree(p: Result<Parsed>) {
    && p.Ok? && p.value.footer.Some?
    && FirstHashtree(p.value.descriptors).Some?
    && Adjacent(FirstHashtree(p.value.descriptors).value)
  }

  function TreeOf(p: Result<Parsed>): (d: Descriptor)
    requires HasTree(p)
    ensures d.Hashtree?
  {
    FirstHashtree(p.value.descriptors).value
  }

  /** How many bytes that is. */
  function MarkedSize(size: nat, bs: nat): nat { Max(bs, 8) + Max(size - bs, 0) }

  /** The fill behind the marker block is refused: not whole blocks or not in fours or, in a sparse file, fewer bytes than
      the marker. */
  predicate FillRefused(size: nat, sparse: bool, bs: nat)
    requires bs > 0
  {
    size % bs != 0 || (size - bs) % 4 != 0 || (sparse && size < bs)
  }

  /** The marker block is whole blocks of the file, and its size fits its field. */
  predicate MarkWhole(bs: nat)
    requires bs > 0
  {
    Max(bs, 8) % bs == 0 && CHUNK_HEADER_SIZE + Max(bs, 8) < TWO_32
  }

  /** How far a run gets that is refused: nowhere, to the cut, to the first marker, to the second, or to the rest. */
  datatype Refusal = Untouched | AtCut | AtTree | AtFec | AtRest

  /** What stops a run over an image of `size` bytes, if anything does, unless the fields of a sparse file do. */
  function RefusedAt(size: nat, d: Descriptor, sparse: bool, bs: nat): Option<Refusal>
    requires d.Hashtree? && bs > 0
  {
    if sparse && d.treeOffset % bs != 0 then Some(Untouched)
    else if !sparse && ZeroEnd(d) > size + 1 then Some(Untouched)
    else if !sparse && d.treeOffset < HEADER_SIZE then Some(AtCut)
    else if FillRefused(d.treeSize, sparse, bs) then Some(AtTree)
    else if d.fecOffset > 0 && FillRefused(d.fecSize, sparse, bs) then Some(AtFec)
    else if ZeroEnd(d) <= size && (size - ZeroEnd(d)) % bs != 0 then Some(AtRest)
    else None
  }

  /** What a refused run leaves of the image. */
  function LeftBy(img: bytes, d: Descriptor, at: Refusal, bs: nat): bytes
    requires d.Hashtree?
  {
    var cut := Resize(img, d.treeOffset);
    match at
    case Untouched => img
    case AtCut => cut
    case AtTree => cut + MarkBlock(bs)
    case AtFec => cut + Marked(d.treeSize, bs) + MarkBlock(bs)
    case AtRest => cut + Marked(d.treeSize, bs) + (if d.fecOffset > 0 then Marked(d.fecSize, bs) else [])
  }

  /** The fill that is refused in a sparse file has a negative size: the counts are written, and the file is broken. */
  predicate ShortFill(d: Descriptor, at: Refusal, bs: nat)
    requires d.Hashtree?
  {
    bs % 4 == 0 && ((at == AtTree && d.treeSize == 0) || (at == AtFec && d.fecSize == 0))
  }

  lemma RepeatedZeros(n: int)
    ensures n % 4 == 0 ==> Repeat([0, 0, 0, 0], n / 4) == Zeros(n)
  {
  }

  /** A sparse file has room in its fields for `n` more chunks and an image of `size` bytes. */
  ghost predicate MarkRoom(image: ImageHandler, n: nat, size: nat)
    requires image.blockSize > 0
    reads image
  {
    image.isSparse ==>
      MarkWhole(image.blockSize) && |image.chunks| + n < TWO_32 && size < BlockBytes(TWO_32, image.blockSize)
  }

  /** A refused fill: by its alignment in any file, by its sign in a sparse one. */
  lemma FillFacts(image: ImageHandler, size: nat)
    requires image.Valid() && !image.readOnly && image.blockSize > 0 && (!image.isSparse ==> image.imageSize >= HEADER_SIZE)
    requires image.isSparse ==> image.imageSize >= image.blockSize
    ensures var n := size - image.blockSize;
      var aligned, extra := n % 4 == 0 && n % image.blockSize == 0, if image.isSparse then n else Max(n, 0);
      && (image.Accepts(aligned, extra, 4) ==> !FillRefused(size, image.isSparse, image.blockSize))
      && (MarkRoom(image, 1, image.imageSize + Max(n, 0)) && !FillRefused(size, image.isSparse, image.blockSize) ==>
            image.Accepts(aligned, extra, 4))
      && (image.Accepts(aligned, extra, 4) ==> aligned)
      && (!image.isSparse ==> (image.Accepts(aligned, extra, 4) <==> image.Permits(aligned)))
      && (image.isSparse && MarkRoom(image, 1, image.imageSize + Max(n, 0)) && !image.Accepts(aligned, extra, 4) ==>
            && (image.Permits(aligned) <==> size == 0 && image.blockSize % 4 == 0)
            && (image.Permits(aligned) ==> image.CountsFit(n)))
  {
    hide BlockBytes, ImageHandler.Sound, ImageHandler.CountsFit, FillRefused, MarkWhole;
    FillWhen(size, image.isSparse, image.blockSize);
    if image.isSparse && |image.chunks| + 1 < TWO_32 && size == 0 {
      NegativeFits(image);
    }
  }

  /** The same in terms of what is filled. */
  lemma FillWhen(size: nat, sparse: bool, bs: nat)
    requires bs > 0
    ensures var n := size - bs;
      && (!FillRefused(size, sparse, bs) <==> n % 4 == 0 && n % bs == 0 && (sparse ==> n >= 0))
      && (n % bs == 0 && n < 0 ==> size == 0)
      && (size == 0 ==> n % bs == 0 && (n % 4 == 0 <==> bs % 4 == 0))
  {
    if size % bs == 0 {
      MultiplesAdd(size, bs, bs);
      WholeBlockAtLeast(size, bs);
    }
    if (size - bs) % bs == 0 {
      MultiplesAdd(size - bs, bs, bs);
    }
  }

  /** An image of at least a block has a block to take off its count. */
  lemma NegativeFits(image: ImageHandler)
    requires image.Valid() && image.isSparse && image.imageSize >= image.blockSize > 0 && |image.chunks| + 1 < TWO_32
    ensures image.CountsFit(0 - image.blockSize)
  {
    hide Table, HeaderFor;
    BlocksOfNothing(image.blockSize);
    MultipleDivides(-1, image.blockSize);
    assert image.numTotalBlocks > 0;
  }

  /** A marker block and zeros. */
  method AppendMarked(image: ImageHandler, size: nat) returns (r: Result<()>)
    requires image.Valid() && !image.readOnly && image.blockSize > 0 && (!image.isSparse ==> image.imageSize >= HEADER_SIZE)
    modifies image
    ensures image.Sound() && image.isSparse == old(image.isSparse) && image.blockSize == old(image.blockSize)
    ensures r.Ok? ==> image.Valid() && image.Contents() == old(image.Contents()) + Marked(size, image.blockSize)
    ensures r.Ok? && image.isSparse ==> |image.chunks| == old(|image.chunks|) + 2 && MarkWhole(image.blockSize)
    ensures r.Ok? ==> !FillRefused(size, image.isSparse, image.blockSize)
    ensures old(MarkRoom(image, 2, image.imageSize + MarkedSize(size, image.blockSize))) ==>
      && (r.Ok? <==> !FillRefused(size, image.isSparse, image.blockSize))
      && (r.Err? ==> image.Contents() == old(image.Contents()) + MarkBlock(image.blockSize))
      && (r.Err? && image.isSparse ==> (Parse(image.file).Ok? <==> !(size == 0 && image.blockSize % 4 == 0)))
  {
    hide ImageHandler.Sound, ImageHandler.Contents, BlockBytes, MagicPrefix, Repeat, Parse, FillRefused;
    FlatFacts(image);
    var mark := MarkBlock(image.blockSize);
    ghost var room := MarkRoom(image, 2, image.imageSize + MarkedSize(size, image.blockSize));
    if !image.isSparse {
      MagicStays(image.file, mark);
    }
    r := image.AppendRaw(mark);
    if r.Err? {
      return;
    }
    r := AppendZeros(image, size - image.blockSize, room);
  }

  /** The fill behind a marker block. */
  method AppendZeros(image: ImageHandler, n: int, ghost room: bool) returns (r: Result<()>)
    requires image.Valid() && !image.readOnly && (!image.isSparse ==> image.imageSize >= HEADER_SIZE)
    requires image.blockSize > 0 && n + image.blockSize >= 0 && (image.isSparse ==> image.imageSize >= image.blockSize)
    requires room ==> MarkRoom(image, 1, image.imageSize + Max(n, 0))
    modifies image
    ensures image.Sound() && image.isSparse == old(image.isSparse) && image.blockSize == old(image.blockSize)
    ensures r.Ok? ==> image.Valid() && image.Contents() == old(image.Contents()) + Zeros(n)
    ensures r.Ok? && image.isSparse ==> |image.chunks| == old(|image.chunks|) + 1
    ensures r.Ok? ==> !FillRefused(n + image.blockSize, image.isSparse, image.blockSize)
    ensures room ==>
      && (r.Ok? <==> !FillRefused(n + image.blockSize, image.isSparse, image.blockSize))
      && (r.Err? ==> image.Contents() == old(image.Contents()))
      && (r.Err? && image.isSparse ==> (Parse(image.file).Ok? <==> !(n + image.blockSize == 0 && image.blockSize % 4 == 0)))
  {
    hide ImageHandler.Sound, ImageHandler.Contents, BlockBytes, MagicPrefix, Repeat, Parse, ImageHandler.CountsFit,
      ImageHandler.Accepts, ImageHandler.Permits, FillRefused, MarkWhole;
    FlatFacts(image);
    FillFacts(image, n + image.blockSize);
    if image.isSparse {
      StillParses(image);
    } else {
      MagicStays(image.file, Repeat([0, 0, 0, 0], n / 4));
    }
    r := image.AppendFill([0, 0, 0, 0], n);
    RepeatedZeros(n);
  }

  /** Reading from `offset` to the end of the image. Past the end a flat file fails, except for the count -1. */
  method ReadRest(image: ImageHandler, offset: nat) returns (r: Result<bytes>)
    requires image.Valid()
    modifies image`filePos
    ensures image.Valid() && image.Contents() == old(image.Contents())
    ensures r.Ok? ==> r.value == Clip(image.Contents(), offset, image.imageSize)
    ensures r.Ok? <==> image.isSparse || offset <= image.imageSize + 1
  {
    hide BlockBytes, Table, HeaderFor;
    if offset >= image.imageSize {
      var _ := image.Seek(offset);
      return if !image.isSparse && offset > image.imageSize + 1 then Err(ValueError) else Ok([]);
    }
    HasChunks(image);
    r := ReadFrom(image, offset, image.imageSize - offset);
  }

  /** The fields of a sparse file hold everything that is written. */
  ghost predicate RoomToZero(image: ImageHandler, d: Descriptor)
    requires image.Sound() && d.Hashtree? && image.blockSize > 0
    reads image
  {
    image.isSparse ==> |image.chunks| + 6 < TWO_32 && ZeroFields(image.Contents(), d, image.blockSize)
  }

  /** ... but for the number of chunks. */
  predicate ZeroFields(img: bytes, d: Descriptor, bs: nat)
    requires d.Hashtree? && bs > 0
  {
    MarkWhole(bs) && |Zeroed(img, d, bs)| < BlockBytes(TWO_32, bs) && !TooLong(Max(|img| - ZeroEnd(d), 0))
  }

  /** The cut, and the first marked stretch. */
  method WriteTreeMarks(image: ImageHandler, d: Descriptor) returns (r: Result<()>)
    requires image.Valid() && !image.readOnly && image.blockSize > 0
    requires d.Hashtree? && (image.isSparse || ZeroEnd(d) <= image.imageSize + 1)
    modifies image
    ensures image.Sound() && image.isSparse == old(image.isSparse) && image.blockSize == old(image.blockSize)
    ensures r.Ok? ==> image.Valid() && (!image.isSparse ==> image.imageSize >= HEADER_SIZE)
    ensures r.Ok? ==> image.Contents() == Resize(old(image.Contents()), d.treeOffset) + Marked(d.treeSize, image.blockSize)
    ensures r.Ok? && image.isSparse ==> |image.chunks| <= old(|image.chunks|) + 3 && MarkWhole(image.blockSize)
    ensures var at := RefusedAt(old(image.imageSize), d, image.isSparse, image.blockSize);
      && (r.Ok? ==> !StopsEarly(at))
      && (old(RoomToZero(image, d)) ==>
            && (r.Err? <==> StopsEarly(at))
            && (r.Err? ==> image.Contents() == LeftBy(old(image.Contents()), d, at.value, image.blockSize))
            && (r.Err? && image.isSparse ==> (Parse(image.file).Ok? <==> !ShortFill(d, at.value, image.blockSize))))
  {
    hide ImageHandler.Sound, ImageHandler.Contents, BlockBytes, Parse, Marked, FillRefused, MarkWhole;
    FlatFacts(image);
    ghost var room, size := RoomToZero(image, d), image.imageSize;
    MarkedSizes(image.Contents(), d, image.blockSize);
    if image.isSparse {
      StillParses(image);
    }
    r := image.Truncate(d.treeOffset);
    if r.Err? {
      return;
    }
    FlatFacts(image);
    assert room ==> MarkRoom(image, 5, image.imageSize + MarkedSize(d.treeSize, image.blockSize));
    r := AppendMarked(image, d.treeSize);
    FlatFacts(image);
  }

  /** The run does not get past the tree. */
  predicate StopsEarly(at: Option<Refusal>) { at.Some? && at.value in {Untouched, AtCut, AtTree} }

  lemma MarkedSizes(img: bytes, d: Descriptor, bs: nat)
    requires d.Hashtree?
    ensures |Marked(d.treeSize, bs)| == MarkedSize(d.treeSize, bs) && |Marked(d.fecSize, bs)| == MarkedSize(d.fecSize, bs)
    ensures |Zeroed(img, d, bs)|
         == d.treeOffset + MarkedSize(d.treeSize, bs) + (if d.fecOffset > 0 then MarkedSize(d.fecSize, bs) else 0)
            + Max(|img| - ZeroEnd(d), 0)
  {
  }

  /** The tree's stretch and, if there is FEC data, its own. */
  function BothMarked(img: bytes, d: Descriptor, bs: nat): bytes
    requires d.Hashtree?
  {
    Resize(img, d.treeOffset) + Marked(d.treeSize, bs) + if d.fecOffset > 0 then Marked(d.fecSize, bs) else []
  }

  /** The second marked stretch, if there is FEC data. */
  method WriteFecMarks(image: ImageHandler, d: Descriptor, ghost before: bytes) returns (r: Result<()>)
    requires image.Valid() && !image.readOnly && image.blockSize > 0
    requires d.Hashtree? && (!image.isSparse ==> image.imageSize >= HEADER_SIZE)
    requires image.Contents() == Resize(before, d.treeOffset) + Marked(d.treeSize, image.blockSize)
    modifies image
    ensures image.Sound() && image.isSparse == old(image.isSparse) && image.blockSize == old(image.blockSize)
    ensures r.Ok? ==> image.Valid() && (!image.isSparse ==> image.imageSize >= HEADER_SIZE)
    ensures r.Ok? ==> image.Contents() == BothMarked(before, d, image.blockSize)
    ensures r.Ok? && image.isSparse ==> |image.chunks| <= old(|image.chunks|) + 2
    ensures r.Ok? ==> !(d.fecOffset > 0 && FillRefused(d.fecSize, image.isSparse, image.blockSize))
    ensures old(MarkRoom(image, 3, |Zeroed(before, d, image.blockSize)|)) ==>
      && (r.Err? <==> d.fecOffset > 0 && FillRefused(d.fecSize, image.isSparse, image.blockSize))
      && (r.Err? ==> image.Contents() == LeftBy(before, d, AtFec, image.blockSize))
      && (r.Err? && image.isSparse ==> (Parse(image.file).Ok? <==> !(d.fecSize == 0 && image.blockSize % 4 == 0)))
  {
    hide ImageHandler.Sound, ImageHandler.Contents, BlockBytes, Parse, Marked, FillRefused, MarkWhole;
    FlatFacts(image);
    MarkedSizes(before, d, image.blockSize);
    if d.fecOffset == 0 {
      assert image.Contents() + [] == image.Contents();
      return Ok(());
    }
    assert MarkRoom(image, 3, |Zeroed(before, d, image.blockSize)|) ==>
        MarkRoom(image, 3, image.imageSize + MarkedSize(d.fecSize, image.blockSize));
    r := AppendMarked(image, d.fecSize);
    FlatFacts(image);
  }

  /** Both stretches and what follows them. */
  method WriteRest(image: ImageHandler, d: Descriptor, data: bytes, ghost before: bytes) returns (r: Result<()>)
    requires image.Valid() && !image.readOnly && image.blockSize > 0
    requires d.Hashtree? && (!image.isSparse ==> image.imageSize >= HEADER_SIZE)
    requires data == Clip(before, ZeroEnd(d), |before|) && (image.isSparse ==> |before| % image.blockSize == 0)
    requires image.Contents() == Resize(before, d.treeOffset) + Marked(d.treeSize, image.blockSize)
    modifies image
    ensures image.Sound() && image.isSparse == old(image.isSparse) && image.blockSize == old(image.blockSize)
    ensures r.Ok? ==> image.Valid() && image.Contents() == MarkedImage(before, d, image.blockSize, data)
    ensures r.Ok? && image.isSparse ==> !TooLong(|data|)
    ensures var at := RefusedAt(|before|, d, image.isSparse, image.blockSize);
      !StopsEarly(at) ==>
        && (r.Ok? ==> at.None?)
        && (old(RestRoom(image, d, before)) ==>
              && (r.Err? <==> at.Some?)
              && (r.Err? ==> image.Contents() == LeftBy(before, d, at.value, image.blockSize))
              && (r.Err? && image.isSparse ==> (Parse(image.file).Ok? <==> !ShortFill(d, at.value, image.blockSize))))
  {
    hide ImageHandler.Sound, ImageHandler.Contents, BlockBytes, Parse, Marked, MagicPrefix, Zeroed, MarkBlock,
      RefusedAt, FillRefused, MarkWhole;
    RestRefusals(|before|, d, image.isSparse, image.blockSize);
    r := WriteFecMarks(image, d, before);
    if r.Err? {
      return;
    }
    MarkedSizes(before, d, image.blockSize);
    FlatFacts(image);
    if !image.isSparse {
      MagicStays(image.file, data);
    }
    r := image.AppendRaw(data);
  }

  /** A sparse file has room for the rest. */
  ghost predicate RestRoom(image: ImageHandler, d: Descriptor, before: bytes)
    requires image.Sound() && d.Hashtree? && image.blockSize > 0
    reads image
  {
    && MarkRoom(image, 3, |Zeroed(before, d, image.blockSize)|)
    && (image.isSparse ==> !TooLong(Max(|before| - ZeroEnd(d), 0)))
  }

  /** What can still stop a run that got past the tree. */
  lemma RestRefusals(size: nat, d: Descriptor, sparse: bool, bs: nat)
    requires d.Hashtree? && bs > 0
    ensures var at, left := RefusedAt(size, d, sparse, bs), Max(size - ZeroEnd(d), 0);
      !StopsEarly(at) ==>
        && (at.Some? ==> at.value in {AtFec, AtRest})
        && (at == Some(AtFec) <==> d.fecOffset > 0 && FillRefused(d.fecSize, sparse, bs))
        && (at == Some(AtRest) <==> at != Some(AtFec) && left % bs != 0)
        && (sparse && size % bs == 0 ==> at != Some(AtRest))
  {
    if sparse && size % bs == 0 && RefusedAt(size, d, sparse, bs) == Some(AtRest) {
      MultiplesAdd(d.treeOffset, d.treeSize, bs);
      if d.fecOffset > 0 {
        MultiplesAdd(d.treeOffset + d.treeSize, d.fecSize, bs);
      }
      MultiplesAdd(size, ZeroEnd(d), bs);
    }
  }

  /** `zero_hashtree`. */
  method ZeroHashtree(lib: Hashlib, image: ImageHandler) returns (r: Result<()>)
    requires image.Valid() && !image.readOnly
    modifies image
    ensures image.Sound() && image.isSparse == old(image.isSparse) && image.blockSize == old(image.blockSize) > 0
    ensures var p := old(ParseThrough(lib, image));
      if !HasTree(p) then r.Err? && image.file == old(image.file) && image.Contents() == old(image.Contents())
      else
        var d, at := TreeOf(p), RefusedAt(old(image.imageSize), TreeOf(p), image.isSparse, image.blockSize);
        && (r.Ok? ==> at.None? && image.Contents() == Zeroed(old(image.Contents()), d, image.blockSize))
        && (r.Ok? && image.isSparse ==> ZeroFields(old(image.Contents()), d, image.blockSize))
        && (old(RoomToZero(image, d)) ==>
              && (r.Ok? <==> at.None?)
              && (r.Err? ==> image.Contents() == LeftBy(old(image.Contents()), d, at.value, image.blockSize))
              && (r.Err? && image.isSparse ==> (Parse(image.file).Ok? <==> !ShortFill(d, at.value, image.blockSize))))
    ensures old(!image.isSparse || InBounds(image.Contents())) ==>
      old(ParseThrough(lib, image)) == ParseImage(lib, old(image.Contents()))
  {
    hide ImageHandler.Contents, ParseThrough, ParseImage, BlockBytes, InBounds, Table, HeaderFor, Parse, Zeroed,
      MarkedImage, Marked, LeftBy, RefusedAt, Adjacent, ZeroFields;
    FlatFacts(image);
    if !image.isSparse || InBounds(image.Contents()) {
      ParseThroughIs(lib, image);
    }
    var parsed := ParseImageOf(lib, image);
    if parsed.Err? {
      return Err(parsed.error);
    }
    if parsed.value.footer.None? {
      return Err(AvbError);
    }
    var tree := FirstHashtree(parsed.value.descriptors);
    if tree.None? || !Adjacent(tree.value) {
      return Err(AvbError);
    }
    r := ZeroTree(image, tree.value);
  }

  /** The part of `zero_hashtree` after the tree was found. */
  method ZeroTree(image: ImageHandler, d: Descriptor) returns (r: Result<()>)
    requires image.Valid() && !image.readOnly && d.Hashtree? && image.blockSize > 0
    modifies image
    ensures image.Sound() && image.isSparse == old(image.isSparse) && image.blockSize == old(image.blockSize)
    ensures r.Ok? ==> image.Contents() == Zeroed(old(image.Contents()), d, image.blockSize)
    ensures r.Ok? && image.isSparse ==> ZeroFields(old(image.Contents()), d, image.blockSize)
    ensures var at := RefusedAt(old(image.imageSize), d, image.isSparse, image.blockSize);
      && (r.Ok? ==> at.None?)
      && (old(RoomToZero(image, d)) ==>
            && (r.Ok? <==> at.None?)
            && (r.Err? ==> image.Contents() == LeftBy(old(image.Contents()), d, at.value, image.blockSize))
            && (r.Err? && image.isSparse ==> (Parse(image.file).Ok? <==> !ShortFill(d, at.value, image.blockSize))))
  {
    hide ImageHandler.Sound, ImageHandler.Contents, BlockBytes, Parse, Marked;
    FlatFacts(image);
    ghost var before, room := image.Contents(), RoomToZero(image, d);
    if image.isSparse {
      StillParses(image);
    }
    var data :- ReadRest(image, ZeroEnd(d));
    r := WriteTreeMarks(image, d);
    if r.Err? {
      return;
    }
    r := WriteRest(image, d, data, before);
    if r.Ok? && image.isSparse {
      SizeHolds(image);
    }
  }

  lemma SizeHolds(image: ImageHandler)
    requires image.Sound() && image.isSparse
    ensures image.imageSize < BlockBytes(TWO_32, image.blockSize)
  {
    hide Table, HeaderFor;
  }

  /** A refused run that got as far as the cut has lost the footer. */
  lemma FooterIsLost(img: bytes, d: Descriptor, at: Refusal, bs: nat)
    requires d.Hashtree? && bs >= FOOTER_SIZE && at != Untouched && (at == AtCut ==> d.treeOffset < HEADER_SIZE)
    ensures FooterOf(LeftBy(img, d, at, bs)).None?
  {
    hide FooterOf, Marked, MarkBlock, Resize;
    var cut := Resize(img, d.treeOffset);
    match at
    case AtCut => TooShortForFooter(cut);
    case AtTree => NoFooterBehind(cut, 0, bs);
    case AtFec => NoFooterBehind(cut + Marked(d.treeSize, bs), 0, bs);
    case AtRest =>
      if d.fecOffset > 0 {
        NoFooterBehind(cut + Marked(d.treeSize, bs), d.fecSize, bs);
      } else {
        NoFooterBehind(cut, d.treeSize, bs);
        assert cut + Marked(d.treeSize, bs) + [] == cut + Marked(d.treeSize, bs);
      }
  }

  lemma TooShortForFooter(img: bytes)
    requires |img| < FOOTER_SIZE
    ensures FooterOf(img).None?
  {
  }

  /** No byte of a marked stretch starts a footer. */
  lemma NoFooterBehind(front: bytes, size: nat, bs: nat)
    requires bs >= FOOTER_SIZE
    ensures FooterOf(front + Marked(size, bs)).None?
    ensures size == 0 ==> Marked(size, bs) == MarkBlock(bs)
  {
    hide ParseFooter;
    var m, img := Marked(size, bs), front + Marked(size, bs);
    MarkedByte(size, bs, |m| - FOOTER_SIZE);
    assert img[|img| - FOOTER_SIZE..] == m[|m| - FOOTER_SIZE..];
    WrongStart(m[|m| - FOOTER_SIZE..]);
  }

  lemma MarkedByte(size: nat, bs: nat, k: nat)
    requires k < |Marked(size, bs)|
    ensures Marked(size, bs)[k] != FOOTER_MAGIC[0]
    ensures size == 0 ==> Marked(size, bs) == MarkBlock(bs)
  {
  }

  lemma WrongStart(data: bytes)
    requires |data| == FOOTER_SIZE && data[0] != FOOTER_MAGIC[0]
    ensures ParseFooter(data).Err?
  {
  }

  // ---------------------------------------------------------------- what stays

  /** The stretch the command rewrites. */
  predicate Inside(d: Descriptor, k: nat)
    requires d.Hashtree?
  {
    d.treeOffset <= k < ZeroEnd(d)
  }

  /** Byte `k` of a stretch of `size` bytes that was zeroed: "ZeRoHaSH", and then zeros. */
  function MarkedByteIs(k: nat): byte {
    if k < 8 then [0x5A, 0x65, 0x52, 0x6F, 0x48, 0x61, 0x53, 0x48][k] else 0
  }

  /** Every byte of an image whose tree, of at least a block, was zeroed, and its FEC data too, if there is any. */
  lemma ZeroedByte(img: bytes, d: Descriptor, bs: nat, k: nat)
    requires d.Hashtree? && bs >= 8 && d.treeSize >= bs && k < |img|
    requires
      if d.fecOffset > 0 then
        d.fecOffset == d.treeOffset + d.treeSize && d.fecSize >= bs && d.fecOffset + d.fecSize <= |img|
      else d.treeOffset + d.treeSize <= |img|
    ensures |Zeroed(img, d, bs)| == |img|
    ensures Zeroed(img, d, bs)[k] ==
      if d.treeOffset <= k < d.treeOffset + d.treeSize then MarkedByteIs(k - d.treeOffset)
      else if 0 < d.fecOffset <= k < d.fecOffset + d.fecSize then MarkedByteIs(k - d.fecOffset)
      else img[k]
  {
    hide Marked;
    MarkedBytes(d.treeSize, bs);
    MarkedBytes(d.fecSize, bs);
    ZeroingKeepsTheRest(img, d, bs);
  }

  lemma MarkedBytes(size: nat, bs: nat)
    requires bs >= 8
    ensures |Marked(size, bs)| == Max(size, bs)
    ensures forall k :: 0 <= k < |Marked(size, bs)| ==> Marked(size, bs)[k] == MarkedByteIs(k)
  {
  }

  /** What the command looks for: a footer, and a hashtree descriptor whose FEC data follows its tree, if it has any. */
  lemma HasTreeIf(p: Result<Parsed>)
    ensures HasTree(p) <==>
      && p.Ok? && p.value.footer.Some? && FirstHashtree(p.value.descriptors).Some?
      && var d := FirstHashtree(p.value.descriptors).value;
         d.fecOffset == 0 || d.fecOffset == d.treeOffset + d.treeSize
    ensures HasTree(p) ==>
      var d := TreeOf(p);
      Some(d) == FirstHashtree(p.value.descriptors)
      && ZeroEnd(d) == if d.fecOffset > 0 then d.fecOffset + d.fecSize else d.treeOffset + d.treeSize
  {
  }

  /** The image keeps its size exactly if the tree, and the FEC data if there is any, take at least a block; then
      every byte outside them stays. */
  lemma ZeroingKeepsTheRest(img: bytes, d: Descriptor, bs: nat)
    requires d.Hashtree? && bs >= 8 && ZeroEnd(d) <= |img|
    ensures |Zeroed(img, d, bs)| == |img| <==> d.treeSize >= bs && (d.fecOffset > 0 ==> d.fecSize >= bs)
    ensures |Zeroed(img, d, bs)| == |img| ==>
      forall k: nat :: k < |img| && !Inside(d, k) ==> Zeroed(img, d, bs)[k] == img[k]
    ensures d.treeSize >= bs ==> Zeroed(img, d, bs)[d.treeOffset..d.treeOffset + 8] == ZERO_MARK
  {
    var head, rest := Resize(img, d.treeOffset), Clip(img, ZeroEnd(d), |img|);
    var fec := if d.fecOffset > 0 then Marked(d.fecSize, bs) else [];
    var out := Zeroed(img, d, bs);
    assert |Marked(d.treeSize, bs)| == Max(d.treeSize, bs);
    assert d.fecOffset > 0 ==> |fec| == Max(d.fecSize, bs);
    assert out[..d.treeOffset] == head;
    assert out[|out| - |rest|..] == rest == img[ZeroEnd(d)..];
    if |out| == |img| {
      forall k: nat | k < |img| && !Inside(d, k)
        ensures out[k] == img[k]
      {
        if k >= ZeroEnd(d) {
          assert rest[k - ZeroEnd(d)] == img[k];
        } else {
          assert head[k] == img[k];
        }
      }
    }
  }
}
