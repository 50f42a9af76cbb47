/** Laws of hashtree footers: layout, parsing, and what erasing, resizing and adding again does. */
module HashtreeLaws {
  import opened Bytes
  import opened Results
  import opened Struct
  import opened SparseFormat
  import opened SparseImage
  import opened HashTree
  import opened Merkle
  import opened Descriptors
  import opened VBMeta
  import opened Blob
  import opened FooterOps
  import opened FooterEdits
  import opened HashtreeFooter

  // ---------------------------------------------------------------- when the levels agree

  /** An image of at most one block of the tree has no levels; if growing it to whole blocks of the file makes it
      longer than that, the builder runs out of offsets. */
  lemma OneBlockFails(lib: Hashlib, a: TreeArgs, img: bytes, bs: nat)
    requires TreeWorks(lib, a.hashAlgorithm, a.blockSize) && bs > 0 && 0 < |img| <= a.blockSize && a.blockSize % bs != 0
    ensures !LevelsSuffice(lib, a, img, bs) && !TreeAddable(lib, a, img, bs)
  {
    hide Built, TreeBlobOk, Written, LevelSize, NumBlocks, Root, TreeSize;
    GrownSizes(a, img, bs);
    RoundUpLeast(|img|, a.blockSize, a.blockSize);
    HashingValid(lib, a.hashAlgorithm, a.salt, a.blockSize);
    assert LevelOffsets(|Rounded(a, img)|, a.blockSize, SlotOf(lib, a)) == [];
    assert LevelOffsets(|Grown(a, img, bs)|, a.blockSize, SlotOf(lib, a)) != [];
    BuiltFacts(lib, a, img, bs);
  }

  /** The size of a level that holds one block for every `fan` blocks of the image. */
  lemma LevelBlocks(size: nat, bs: nat, digest: nat, fan: nat)
    requires bs > 0 && digest > 0 && fan * digest == bs
    ensures fan * bs > 0 && LevelSize(size, bs, digest) == NumBlocks(size, fan * bs) * bs
  {
    hide RoundUp, NumBlocks;
    FanPositive(fan, digest, bs);
    MulMonotone(1, fan, bs);
    var n, m := NumBlocks(size, bs), NumBlocks(size, fan * bs);
    MulNat(n, digest);
    Reorder(m, fan, bs);
    CountsNest(size, n, m, bs, fan);
    PackedDigests(n, m, digest, bs, fan);
  }

  lemma Reorder(m: nat, fan: nat, bs: nat)
    ensures m * (fan * bs) == (m * fan) * bs
  {
  }

  /** `n` digests, `fan` of which fill a block, take `m` blocks. */
  lemma PackedDigests(n: nat, m: nat, digest: nat, bs: nat, fan: nat)
    requires bs > 0 && digest > 0 && fan * digest == bs && n * digest >= 0
    requires n <= m * fan && (m > 0 ==> (m - 1) * fan < n)
    ensures RoundUp(n * digest, bs) == m * bs
  {
    hide RoundUp;
    MulMonotone(n, m * fan, digest);
    Reorder(m, fan, digest);
    MultipleDivides(m, bs);
    RoundUpLeast(n * digest, bs, m * bs);
    if m > 0 {
      RoundedBelow(n, m, digest, bs, fan);
    }
  }

  lemma FanPositive(fan: nat, digest: nat, bs: nat)
    requires bs > 0 && fan * digest == bs
    ensures fan > 0
  {
  }

  lemma CancelLess(x: int, y: int, d: nat)
    requires x * d < y * d
    ensures x < y
  {
    if x >= y {
      MulMonotone(y, x, d);
    }
  }

  lemma CountsNest(size: nat, n: nat, m: nat, bs: nat, fan: nat)
    requires bs > 0 && fan > 0 && size <= n * bs < size + bs
    requires size <= (m * fan) * bs < size + fan * bs
    ensures n <= m * fan && (m > 0 ==> (m - 1) * fan < n)
  {
    Distribute(m * fan, 1, bs);
    CancelLess(n, m * fan + 1, bs);
    if m > 0 {
      Distribute(m * fan, 0 - fan, bs);
      CancelLess(m * fan - fan, n, bs);
      Distribute(m, -1, fan);
    }
  }

  lemma RoundedBelow(n: nat, m: nat, digest: nat, bs: nat, fan: nat)
    requires bs > 0 && digest > 0 && fan * digest == bs && m > 0 && (m - 1) * fan < n && n * digest >= 0
    ensures RoundUp(n * digest, bs) >= m * bs
  {
    hide RoundUp;
    var r := RoundUp(n * digest, bs);
    MulMonotone((m - 1) * fan + 1, n, digest);
    Distribute((m - 1) * fan, 1, digest);
    assert ((m - 1) * fan) * digest == (m - 1) * bs by {
      assert ((m - 1) * fan) * digest == (m - 1) * (fan * digest);
    }
    assert r > (m - 1) * bs;
    var q := r / bs;
    assert r == q * bs;
    if q < m {
      MulMonotone(q, m - 1, bs);
    }
    MulMonotone(m, q, bs);
  }

  /** Whole blocks of the file that fill whole blocks of hashes: then growing an image of more than one block of the
      tree changes no level. So it is for tree blocks of 512, 1024 and 2048 bytes and digests of at most 64. */
  lemma SameLevelsAbove(lib: Hashlib, a: TreeArgs, img: bytes, bs: nat, fan: nat)
    requires TreeWorks(lib, a.hashAlgorithm, a.blockSize) && bs > 0 && |img| > a.blockSize
    requires fan * SlotOf(lib, a) == a.blockSize && (fan * a.blockSize) % bs == 0
    ensures SameLevels(lib, a, img, bs)
  {
    hide LevelSize, NumBlocks, RoundToPow2, RoundUp;
    WorksNonzero(lib, a.hashAlgorithm, a.blockSize);
    RoundToPow2AtLeast(lib.treeHashSize(a.hashAlgorithm).value);
    GrownSizes(a, img, bs);
    var b, digest, small, large := a.blockSize, SlotOf(lib, a), |Rounded(a, img)|, |Grown(a, img, bs)|;
    LevelBlocks(small, b, digest, fan);
    LevelBlocks(large, b, digest, fan);
    GrownCount(small, bs, fan * b);
    LevelShrinks(small, b, digest);
    LevelShrinks(large, b, digest);
  }

  lemma GrownCount(size: nat, bs: nat, step: nat)
    requires bs > 0 && step > 0 && step % bs == 0
    ensures NumBlocks(RoundUp(size, bs), step) == NumBlocks(size, step)
  {
    hide RoundUp;
    var n := NumBlocks(size, step);
    MultipleDivides(n, step);
    MulNat(n, step);
    MultipleOfMultiple(n * step, step, bs);
    RoundUpLeast(size, bs, n * step);
    NumBlocksUnique(RoundUp(size, bs), step, n);
  }

  // ---------------------------------------------------------------- layout

  /** The block sizes for which the laws hold: 4096, and those that divide the blocks of the tree. */
  predicate Suits(a: TreeArgs, bs: nat) {
    bs > 0 && (bs == DEFAULT_BLOCK_SIZE || a.blockSize % bs == 0)
  }

  /** The partition leaves room for image, tree and a block for the footer. */
  lemma TreeFitsBlock(lib: Hashlib, a: TreeArgs, img: bytes, bs: nat)
    requires TreeWorks(lib, a.hashAlgorithm, a.blockSize) && Suits(a, bs)
    requires TreeBuilds(lib, a, img, bs) && a.partitionSize > 0 && a.partitionSize % bs == 0
    ensures |WithTree(lib, a, img, bs)| % bs == 0 && |WithTree(lib, a, img, bs)| + bs <= a.partitionSize
  {
    hide WithTree, Rounded, MaxTreeSize, RoundToPow2, TreeWorks, Built;
    WorksNonzero(lib, a.hashAlgorithm, a.blockSize);
    if a.blockSize % bs == 0 {
      RoundedAligned(a, img, bs);
    }
    TreeFits(lib, a, img, bs);
    var n := |WithTree(lib, a, img, bs)|;
    MultiplesAdd(a.partitionSize, n, bs);
    if a.partitionSize - n < bs && n < a.partitionSize {
      DivModUnique(a.partitionSize - n, bs, 0, a.partitionSize - n);
    }
  }

  /** An image with a hashtree footer starts with image and tree and ends with the footer; cutting the footer off
      gives back the image. */
  lemma TreeFooteredParts(lib: Hashlib, a: TreeArgs, img: bytes, bs: nat)
    requires TreeWorks(lib, a.hashAlgorithm, a.blockSize) && Suits(a, bs)
    requires TreeAddable(lib, a, img, bs) && a.partitionSize % bs == 0
    ensures var out, base, blob := TreeFootered(lib, a, img, bs), WithTree(lib, a, img, bs), TreeBlob(lib, a, img, bs);
      var f := NewFooter(|img|, |base|, |blob|);
      && FooterOf(out) == Some(f) && |out| >= FOOTER_SIZE && out[|out| - FOOTER_SIZE..] == Join(FooterFields(f))
      && img <= Grown(a, img, bs) <= base <= out && Strip(out) == img
  {
    hide MaxTreeSize, TreeBlobOk, TreeBlob, FooterBlock, FooterFields, FooterOf, FooterInRange, RoundUp, TreeWorks,
      StoredTree, Built, Grown, Rounded;
    var base, blob := WithTree(lib, a, img, bs), TreeBlob(lib, a, img, bs);
    var f := NewFooter(|img|, |base|, |blob|);
    WorksNonzero(lib, a.hashAlgorithm, a.blockSize);
    GrownSizes(a, img, bs);
    FooterFound(Body(base, blob, a.partitionSize, bs), f, bs);
    if a.partitionSize > 0 {
      TreeFitsBlock(lib, a, img, bs);
      ResizePrefix(base, blob + Filling(blob, bs), a.partitionSize - bs);
    }
  }

  /** Image, zeros, tree, blob, zeros and footer fill the partition exactly if they fit; if they do not, the blob is cut
      for the footer. */
  lemma TreeFooteredLayout(lib: Hashlib, a: TreeArgs, img: bytes)
    requires TreeWorks(lib, a.hashAlgorithm, a.blockSize) && TreeAddable(lib, a, img, DEFAULT_BLOCK_SIZE)
    requires a.partitionSize % DEFAULT_BLOCK_SIZE == 0 && a.partitionSize > 0
    ensures var bs, p, blob := DEFAULT_BLOCK_SIZE, a.partitionSize, TreeBlob(lib, a, img, DEFAULT_BLOCK_SIZE);
      var at, tree := |Grown(a, img, bs)|, StoredTree(lib, a, img, bs);
      var last := FooterBlock(NewFooter(|img|, at + |tree|, |blob|), bs);
      var left := p - bs - at - |tree|;
      && |img| <= at && left >= 0 && |TreeFootered(lib, a, img, bs)| == p
      && (TreeBlobFits(lib, a, img, bs) <==> |blob| <= left)
      && TreeFootered(lib, a, img, bs)
         == img + Zeros(at - |img|) + tree + (if |blob| <= left then blob + Zeros(left - |blob|) else blob[..left]) + last
  {
    hide MaxTreeSize, TreeBlobOk, TreeBlob, TreeWorks, StoredTree, FooterBlock, FooterInRange, RoundUp, Built, Grown,
      Rounded, Body;
    var bs, p, blob := DEFAULT_BLOCK_SIZE, a.partitionSize, TreeBlob(lib, a, img, DEFAULT_BLOCK_SIZE);
    WorksNonzero(lib, a.hashAlgorithm, a.blockSize);
    GrownSizes(a, img, bs);
    TreeFitsBlock(lib, a, img, bs);
    var base := WithTree(lib, a, img, bs);
    FooterBlockSize(NewFooter(|img|, |base|, |blob|), bs);
    assert Resize(img, |Grown(a, img, bs)|) == img + Zeros(|Grown(a, img, bs)| - |img|);
    BodyIs(base, blob, p, bs);
    FitsOrNot(|base|, |blob|, p, bs);
  }

  /** In a flat file, a blob of at most 64 KiB fits if the tree's blocks are whole blocks of the file, and in any case
      if it is a block shorter. */
  lemma SmallTreeBlobFits(lib: Hashlib, a: TreeArgs, img: bytes)
    requires TreeWorks(lib, a.hashAlgorithm, a.blockSize) && TreeAddable(lib, a, img, DEFAULT_BLOCK_SIZE)
    requires a.partitionSize % DEFAULT_BLOCK_SIZE == 0
    requires |TreeBlob(lib, a, img, DEFAULT_BLOCK_SIZE)|
      <= if a.blockSize % DEFAULT_BLOCK_SIZE == 0 then MAX_VBMETA_SIZE else MAX_VBMETA_SIZE - DEFAULT_BLOCK_SIZE
    ensures TreeBlobFits(lib, a, img, DEFAULT_BLOCK_SIZE)
  {
    hide MaxTreeSize, TreeBlobOk, TreeBlob, TreeWorks, WithTree, Built, Rounded, RoundUp, FooterInRange;
    if a.partitionSize > 0 {
      TreeFits(lib, a, img, DEFAULT_BLOCK_SIZE);
      TreeFitsBlock(lib, a, img, DEFAULT_BLOCK_SIZE);
      FitsOrNot(|WithTree(lib, a, img, DEFAULT_BLOCK_SIZE)|, |TreeBlob(lib, a, img, DEFAULT_BLOCK_SIZE)|, a.partitionSize,
                DEFAULT_BLOCK_SIZE);
    }
  }

  /** In whole blocks, the filled-up blob fits exactly if the blob does. */
  lemma FitsOrNot(base: nat, blob: nat, p: nat, bs: nat)
    requires bs > 0 && base % bs == 0 && p % bs == 0 && base + bs <= p
    ensures base + RoundUp(blob, bs) + bs <= p <==> blob <= p - bs - base
  {
    MultiplesAdd(p, base, bs);
    MultiplesAdd(p - base, bs, bs);
    if blob <= p - bs - base {
      RoundUpLeast(blob, bs, p - bs - base);
    }
  }

  lemma BodyIs(base: bytes, blob: bytes, p: nat, bs: nat)
    requires bs > 0 && p > 0 && |base| + bs <= p && |base| % bs == 0 && p % bs == 0
    ensures var left := p - bs - |base|;
      Body(base, blob, p, bs) == base + if |blob| <= left then blob + Zeros(left - |blob|) else blob[..left]
  {
    hide RoundUp;
    FitsOrNot(|base|, |blob|, p, bs);
    var body, left := base + (blob + Filling(blob, bs)), p - bs - |base|;
    if |blob| <= left {
      assert Filling(blob, bs) + Zeros(left - RoundUp(|blob|, bs)) == Zeros(left - |blob|);
      assert Body(base, blob, p, bs) == base + (blob + (Filling(blob, bs) + Zeros(left - RoundUp(|blob|, bs))));
    } else {
      assert body[..p - bs] == base + blob[..left];
    }
  }

  /** Where the blob is. */
  lemma TreeBlobInside(lib: Hashlib, a: TreeArgs, img: bytes, bs: nat)
    requires TreeWorks(lib, a.hashAlgorithm, a.blockSize) && bs > 0
    requires TreeAddable(lib, a, img, bs) && TreeBlobFits(lib, a, img, bs)
    ensures var out, at, blob := TreeFootered(lib, a, img, bs), |WithTree(lib, a, img, bs)|, TreeBlob(lib, a, img, bs);
      at + |blob| <= |out| && out[at..at + |blob|] == blob
  {
    hide MaxTreeSize, TreeBlobOk, TreeBlob, TreeWorks, WithTree, FooterBlock, FooterInRange, RoundUp, Built;
    var base, blob := WithTree(lib, a, img, bs), TreeBlob(lib, a, img, bs);
    var last := FooterBlock(NewFooter(|img|, |base|, |blob|), bs);
    if a.partitionSize > 0 {
      BlobInside(base, blob, a.partitionSize - bs, last, bs);
    } else {
      var out := base + (blob + Filling(blob, bs)) + last;
      assert out[|base|..|base| + |blob|] == blob;
    }
  }

  // ---------------------------------------------------------------- parsing

  ghost predicate TreeReadable(lib: Hashlib, a: TreeArgs, img: bytes, bs: nat)
    requires TreeWorks(lib, a.hashAlgorithm, a.blockSize) && bs > 0 && img != []
  {
    TreeBlobOk(lib, a, img, bs) && Readable(lib, [TreeDescriptor(lib, a, img, bs)], a.options)
  }

  ghost function TreeDescriptors(lib: Hashlib, a: TreeArgs, img: bytes, bs: nat): seq<Descriptor>
    requires TreeWorks(lib, a.hashAlgorithm, a.blockSize) && bs > 0 && img != []
    requires ChainsOk(a.options) && PropsOk(a.options)
  {
    AllDescriptors([TreeDescriptor(lib, a, img, bs)], a.options)
  }

  ghost function TreeHeader(lib: Hashlib, a: TreeArgs, img: bytes, bs: nat): Header
    requires TreeWorks(lib, a.hashAlgorithm, a.blockSize) && bs > 0 && img != []
    requires ChainsOk(a.options) && PropsOk(a.options)
  {
    HeaderOf(EncodeAll(TreeDescriptors(lib, a, img, bs)), a.options, BumpAll(Minor(a), a.options.included))
  }

  /** An image with a hashtree footer parses to the footer, header and descriptors that were put into it. */
  lemma TreeFooteredParses(lib: Hashlib, a: TreeArgs, img: bytes, bs: nat)
    requires TreeWorks(lib, a.hashAlgorithm, a.blockSize) && Suits(a, bs)
    requires TreeAddable(lib, a, img, bs) && a.partitionSize % bs == 0
    requires TreeReadable(lib, a, img, bs) && TreeBlobFits(lib, a, img, bs)
    ensures ChainsOk(a.options) && PropsOk(a.options)
    ensures var f := NewFooter(|img|, |WithTree(lib, a, img, bs)|, |TreeBlob(lib, a, img, bs)|);
      ParseImage(lib, TreeFootered(lib, a, img, bs))
        == Ok(Parsed(Some(f), TreeHeader(lib, a, img, bs), TreeDescriptors(lib, a, img, bs)))
    ensures FirstHashtree(TreeDescriptors(lib, a, img, bs)) == Some(TreeDescriptor(lib, a, img, bs))
  {
    hide MaxTreeSize, TreeWorks, WithTree, TreeFootered, TreeDescriptor, FooterOf, FooterFields, Strip, ParseImage,
      HeaderOf, BlobOf, BlobOk, Minor, FooterInRange, Readable, Rounded, Grown, Built;
    TreeFooteredParts(lib, a, img, bs);
    TreeBlobInside(lib, a, img, bs);
    BlobOkChecks([TreeDescriptor(lib, a, img, bs)], a.options, Minor(a));
    var f := NewFooter(|img|, |WithTree(lib, a, img, bs)|, |TreeBlob(lib, a, img, bs)|);
    FooteredBlobParses(lib, [TreeDescriptor(lib, a, img, bs)], a.options, Minor(a), TreeFootered(lib, a, img, bs), f);
    TreeComesFirst(lib, a, img, bs);
  }

  lemma TreeComesFirst(lib: Hashlib, a: TreeArgs, img: bytes, bs: nat)
    requires TreeWorks(lib, a.hashAlgorithm, a.blockSize) && bs > 0 && img != []
    requires ChainsOk(a.options) && PropsOk(a.options)
    ensures FirstHashtree(TreeDescriptors(lib, a, img, bs)) == Some(TreeDescriptor(lib, a, img, bs))
  {
    hide ChainsOk, PropsOk, Root, TreeWorks, Grown, ClaimedSize;
    var all := TreeDescriptors(lib, a, img, bs);
    assert all[0] == TreeDescriptor(lib, a, img, bs);
  }

  /** What the hashtree descriptor says. */
  lemma DescribedTree(lib: Hashlib, a: TreeArgs, img: bytes, bs: nat)
    requires TreeWorks(lib, a.hashAlgorithm, a.blockSize) && bs > 0 && img != []
    ensures |Grown(a, img, bs)| >= a.blockSize && HashingFor(lib, a).Valid()
    ensures var d := TreeDescriptor(lib, a, img, bs);
      && d.Hashtree? && d.imageSize == d.treeOffset == |Grown(a, img, bs)|
      && d.treeSize == (if a.noHashtree then 0 else ClaimedSize(lib, a, img))
      && d.dataBlockSize == a.blockSize && d.hashAlgorithm == a.hashAlgorithm && d.salt == a.salt
      && d.partitionName == a.partitionName && d.fecOffset == 0
      && (d.rootDigest == [] || d.rootDigest == Root(HashingFor(lib, a), Grown(a, img, bs)))
  {
    hide Root, Rounded, Grown, ClaimedSize, RoundToPow2;
    GrownSizes(a, img, bs);
    HashingValid(lib, a.hashAlgorithm, a.salt, a.blockSize);
  }

  // ---------------------------------------------------------------- erasing

  /** As much of the stored tree as the descriptor claims. */
  ghost function KeptTree(lib: Hashlib, a: TreeArgs, img: bytes, bs: nat): bytes
    requires TreeWorks(lib, a.hashAlgorithm, a.blockSize) && bs > 0 && img != [] && Built(lib, a, img, bs).Ok?
  {
    if a.noHashtree then [] else Clip(Built(lib, a, img, bs).value, 0, ClaimedSize(lib, a, img))
  }

  /** It is the tree of the grown image exactly if growing changed none of the levels. */
  lemma KeptIsTree(lib: Hashlib, a: TreeArgs, img: bytes, bs: nat)
    requires TreeWorks(lib, a.hashAlgorithm, a.blockSize) && bs > 0 && img != [] && Built(lib, a, img, bs).Ok? && !a.noHashtree
    ensures HashingFor(lib, a).Valid() && |KeptTree(lib, a, img, bs)| == ClaimedSize(lib, a, img)
    ensures KeptTree(lib, a, img, bs) == Tree(HashingFor(lib, a), Grown(a, img, bs)) <==> SameLevels(lib, a, img, bs)
  {
    hide Built, Tree, TreeSize, Grown, Rounded, RoundToPow2;
    HashingValid(lib, a.hashAlgorithm, a.salt, a.blockSize);
    BuiltFacts(lib, a, img, bs);
    if SameLevels(lib, a, img, bs) {
      BuiltTree(lib, a, img, bs);
    }
  }

  lemma StoredStartsWithKept(lib: Hashlib, a: TreeArgs, img: bytes, bs: nat)
    requires TreeWorks(lib, a.hashAlgorithm, a.blockSize) && bs > 0 && img != [] && Built(lib, a, img, bs).Ok?
    ensures KeptTree(lib, a, img, bs) <= StoredTree(lib, a, img, bs)
    ensures |KeptTree(lib, a, img, bs)| == if a.noHashtree then 0 else ClaimedSize(lib, a, img)
    ensures Grown(a, img, bs) + KeptTree(lib, a, img, bs) <= WithTree(lib, a, img, bs)
  {
    hide Built, TreeSize, Grown, Rounded, RoundToPow2, RoundUp;
    BuiltFacts(lib, a, img, bs);
  }

  /** Erasing the footer gives the image, or the grown image with as much of its tree as was claimed, as asked. */
  lemma ErasedSizes(lib: Hashlib, a: TreeArgs, img: bytes, bs: nat)
    requires TreeWorks(lib, a.hashAlgorithm, a.blockSize) && Suits(a, bs)
    requires TreeAddable(lib, a, img, bs) && a.partitionSize % bs == 0
    requires TreeReadable(lib, a, img, bs) && TreeBlobFits(lib, a, img, bs)
    ensures var out, kept := TreeFootered(lib, a, img, bs), Grown(a, img, bs) + KeptTree(lib, a, img, bs);
      && ParseImage(lib, out).Ok?
      && EraseSize(ParseImage(lib, out).value, false) == Some(|img|) && Resize(out, |img|) == img
      && EraseSize(ParseImage(lib, out).value, true) == Some(|kept|) && Resize(out, |kept|) == kept
      && |img| <= |kept|
  {
    hide TreeReadable, TreeBlobFits, TreeFootered, ParseImage, TreeWorks, Root, StoredTree, TreeDescriptors,
      TreeHeader, Built, WithTree, KeptTree, MaxTreeSize, TreeDescriptor, Rounded, Grown, RoundToPow2, FooterOf,
      FooterInRange, FirstHashtree, TreeBlobOk, TreeBlob, Strip, FooterFields, ClaimedSize;
    WorksNonzero(lib, a.hashAlgorithm, a.blockSize);
    GrownSizes(a, img, bs);
    TreeFooteredParses(lib, a, img, bs);
    TreeFooteredParts(lib, a, img, bs);
    StoredStartsWithKept(lib, a, img, bs);
    DescribedTree(lib, a, img, bs);
  }

  /** Adding a hashtree footer to a flat image without footer and erasing it again: the image comes back, or the grown
      image with the tree as far as it was claimed. */
  method AddTreeThenErase(lib: Hashlib, a: TreeArgs, image: ImageHandler, keepHashtree: bool) returns (r: Result<()>)
    requires image.Valid() && !image.readOnly && !image.isSparse && lib.Valid()
    requires TreeWorks(lib, a.hashAlgorithm, a.blockSize)
    requires FooterOf(image.Contents()).None? && image.imageSize >= HEADER_SIZE
    requires TreeAddable(lib, a, image.Contents(), DEFAULT_BLOCK_SIZE) ==>
      TreeReadable(lib, a, image.Contents(), DEFAULT_BLOCK_SIZE) && TreeBlobFits(lib, a, image.Contents(), DEFAULT_BLOCK_SIZE)
    modifies image
    ensures image.Sound()
    ensures r.Ok? <==> && TreeArgsOk(lib, a, old(image.imageSize), DEFAULT_BLOCK_SIZE)
                       && TreeAddable(lib, a, old(image.Contents()), DEFAULT_BLOCK_SIZE)
    ensures r.Ok? ==> image.Contents() == if !keepHashtree then old(image.Contents())
      else Grown(a, old(image.Contents()), DEFAULT_BLOCK_SIZE) + KeptTree(lib, a, old(image.Contents()), DEFAULT_BLOCK_SIZE)
    ensures r.Err? ==> image.Contents() == old(image.Contents())
  {
    hide ImageHandler.Contents, ParseImage, FooterOf, TreeAddable, TreeReadable, TreeFootered, TreeBlobFits,
      TreeWorks, Grown, KeptTree, TreeArgsOk, ParseThrough, TreeFirst;
    FlatFacts(image);
    FlatStrips(image);
    ghost var img := image.Contents();
    r := AddHashtreeFooter(lib, a, image);
    if r.Err? {
      return;
    }
    FlatFacts(image);
    ArgsWhole(lib, a, |img|, DEFAULT_BLOCK_SIZE);
    ErasedSizes(lib, a, img, DEFAULT_BLOCK_SIZE);
    r := EraseFooter(lib, image, keepHashtree);
  }

  lemma ArgsWhole(lib: Hashlib, a: TreeArgs, size: nat, bs: nat)
    requires bs > 0 && TreeArgsOk(lib, a, size, bs)
    ensures a.partitionSize % bs == 0
  {
  }

  // ---------------------------------------------------------------- adding again, resizing, expanding

  /** Adding a hashtree footer twice, with any arguments the first time, is adding it once, and succeeds exactly if both
      can be added to the image without footer. */
  method AddTreeTwice(lib: Hashlib, first: TreeArgs, second: TreeArgs, image: ImageHandler) returns (r: Result<()>)
    requires image.Valid() && !image.readOnly && !image.isSparse && lib.Valid()
    requires TreeWorks(lib, first.hashAlgorithm, first.blockSize) && TreeWorks(lib, second.hashAlgorithm, second.blockSize)
    modifies image
    ensures image.Sound()
    ensures r.Ok? <==>
      && TreeArgsOk(lib, first, old(image.imageSize), DEFAULT_BLOCK_SIZE)
      && TreeAddable(lib, first, Strip(old(image.Contents())), DEFAULT_BLOCK_SIZE)
      && TreeArgsOk(lib, second, |TreeFootered(lib, first, Strip(old(image.Contents())), DEFAULT_BLOCK_SIZE)|, DEFAULT_BLOCK_SIZE)
      && TreeAddable(lib, second, Strip(old(image.Contents())), DEFAULT_BLOCK_SIZE)
    ensures r.Ok? ==> image.Contents() == TreeFootered(lib, second, Strip(old(image.Contents())), DEFAULT_BLOCK_SIZE)
  {
    hide ImageHandler.Contents, Strip, TreeAddable, TreeFootered, TreeWorks, FooterOf, TreeArgsOk, TreeFirst;
    FlatFacts(image);
    FlatStrips(image);
    ghost var img := Strip(image.Contents());
    r := AddHashtreeFooter(lib, first, image);
    if r.Err? {
      return;
    }
    FlatFacts(image);
    FlatStrips(image);
    ArgsWhole(lib, first, old(image.imageSize), DEFAULT_BLOCK_SIZE);
    FooteredAgain(lib, first, img);
    r := AddHashtreeFooter(lib, second, image);
  }

  lemma FooteredAgain(lib: Hashlib, a: TreeArgs, img: bytes)
    requires TreeWorks(lib, a.hashAlgorithm, a.blockSize) && a.partitionSize % DEFAULT_BLOCK_SIZE == 0
    requires TreeAddable(lib, a, img, DEFAULT_BLOCK_SIZE)
    ensures Strip(TreeFootered(lib, a, img, DEFAULT_BLOCK_SIZE)) == img
  {
    hide TreeFootered, TreeWorks, FooterOf, Strip, WithTree, Built, Grown, TreeBlobOk, TreeBlob, FooterInRange;
    TreeFooteredParts(lib, a, img, DEFAULT_BLOCK_SIZE);
  }

  /** Moving the footer to another partition size gives what adding it there gives, if it can be added there. */
  lemma ResizeAfterAddTree(lib: Hashlib, a: TreeArgs, img: bytes, bs: nat, p2: nat)
    requires TreeWorks(lib, a.hashAlgorithm, a.blockSize) && bs > 0 && TreeAddable(lib, a, img, bs) && TreeBlobFits(lib, a, img, bs)
    ensures var base, blob, b := WithTree(lib, a, img, bs), TreeBlob(lib, a, img, bs), a.(partitionSize := p2);
      var f := NewFooter(|img|, |base|, |blob|);
      && |base| % bs == 0 && BlobEnd(f, bs) == |base| + RoundUp(|blob|, bs) > 0
      && (BlobEnd(f, bs) + bs <= p2 ==>
            Resized(TreeFootered(lib, a, img, bs), f, p2, bs) == WithFooter(base, blob, |img|, p2, bs))
      && (TreeBuilds(lib, b, img, bs) && p2 > 0 ==>
            TreeBlobOk(lib, b, img, bs) && TreeFootered(lib, b, img, bs) == WithFooter(base, blob, |img|, p2, bs))
  {
    hide MaxTreeSize, TreeWorks, WithFooter, RoundUp, FooterInRange, Resized, Root, ClaimedSize, Grown, Rounded,
      BlobOf, BlobOk, Minor;
    var base, blob, b := WithTree(lib, a, img, bs), TreeBlob(lib, a, img, bs), a.(partitionSize := p2);
    WithTreeAligned(lib, a, img, bs);
    TreeBlobSize(lib, a, img, bs);
    FooterMoves(base, blob, |img|, a.partitionSize, p2, bs);
    SameTree(lib, a, img, bs, p2);
  }

  lemma TreeBlobSize(lib: Hashlib, a: TreeArgs, img: bytes, bs: nat)
    requires TreeWorks(lib, a.hashAlgorithm, a.blockSize) && bs > 0 && img != [] && TreeBlobOk(lib, a, img, bs)
    ensures |TreeBlob(lib, a, img, bs)| > 0
  {
    hide BlobOf, BlobOk, TreeDescriptor;
    BlobSize([TreeDescriptor(lib, a, img, bs)], a.options, Minor(a));
  }

  /** The partition size is part of neither tree nor blob. */
  lemma SameTree(lib: Hashlib, a: TreeArgs, img: bytes, bs: nat, p2: nat)
    requires TreeWorks(lib, a.hashAlgorithm, a.blockSize) && bs > 0 && img != []
    ensures var b := a.(partitionSize := p2);
      && Built(lib, b, img, bs) == Built(lib, a, img, bs) && Grown(b, img, bs) == Grown(a, img, bs)
      && TreeDescriptor(lib, b, img, bs) == TreeDescriptor(lib, a, img, bs) && Minor(b) == Minor(a)
  {
    hide Written, Root, LevelOffsets, TreeSize, RoundUp, RoundToPow2;
    var b := a.(partitionSize := p2);
    assert HashingFor(lib, b) == HashingFor(lib, a);
    assert Rounded(b, img) == Rounded(a, img);
  }

  /** Adding a hashtree footer and resizing to `p2`: it succeeds exactly if the footer can be added and image, tree, blob
      and footer block fit the new size, and gives the image, tree and blob with the footer for that size. */
  method AddTreeThenResize(lib: Hashlib, a: TreeArgs, image: ImageHandler, p2: nat) returns (r: Result<()>)
    requires image.Valid() && !image.readOnly && !image.isSparse && lib.Valid()
    requires TreeWorks(lib, a.hashAlgorithm, a.blockSize)
    requires TreeAddable(lib, a, Strip(image.Contents()), DEFAULT_BLOCK_SIZE) ==>
      && TreeReadable(lib, a, Strip(image.Contents()), DEFAULT_BLOCK_SIZE)
      && TreeBlobFits(lib, a, Strip(image.Contents()), DEFAULT_BLOCK_SIZE)
    modifies image
    ensures image.Sound()
    ensures r.Ok? <==>
      && TreeArgsOk(lib, a, old(image.imageSize), DEFAULT_BLOCK_SIZE)
      && TreeAddable(lib, a, Strip(old(image.Contents())), DEFAULT_BLOCK_SIZE)
      && p2 % DEFAULT_BLOCK_SIZE == 0 && HoldsTree(lib, a, Strip(old(image.Contents())), p2)
    ensures r.Ok? ==>
      var img := Strip(old(image.Contents()));
      image.Contents() == WithFooter(WithTree(lib, a, img, DEFAULT_BLOCK_SIZE), TreeBlob(lib, a, img, DEFAULT_BLOCK_SIZE), |img|, p2,
                                     DEFAULT_BLOCK_SIZE)
  {
    hide ImageHandler.Contents, ParseImage, FooterOf, TreeAddable, TreeReadable, TreeFootered, TreeBlobFits,
      TreeWorks, WithTree, TreeBlob, TreeArgsOk, ParseThrough, TreeFirst, Resized, WithFooter, Strip, RoundUp;
    FlatFacts(image);
    FlatStrips(image);
    ghost var img := Strip(image.Contents());
    r := AddHashtreeFooter(lib, a, image);
    if r.Err? {
      return;
    }
    FlatFacts(image);
    ArgsWhole(lib, a, old(image.imageSize), DEFAULT_BLOCK_SIZE);
    AddableParts(lib, a, img, DEFAULT_BLOCK_SIZE);
    TreeFooteredParses(lib, a, img, DEFAULT_BLOCK_SIZE);
    ResizeAfterAddTree(lib, a, img, DEFAULT_BLOCK_SIZE, p2);
    r := ResizeImage(lib, image, p2);
  }

  /** Image, tree, blob and footer block fit `p2` bytes. */
  ghost predicate HoldsTree(lib: Hashlib, a: TreeArgs, img: bytes, p2: nat)
    requires TreeWorks(lib, a.hashAlgorithm, a.blockSize) && TreeAddable(lib, a, img, DEFAULT_BLOCK_SIZE)
  {
    |WithTree(lib, a, img, DEFAULT_BLOCK_SIZE)| + Metadata(TreeBlob(lib, a, img, DEFAULT_BLOCK_SIZE), DEFAULT_BLOCK_SIZE) <= p2
  }

  lemma AddableParts(lib: Hashlib, a: TreeArgs, img: bytes, bs: nat)
    requires TreeWorks(lib, a.hashAlgorithm, a.blockSize) && bs > 0 && TreeAddable(lib, a, img, bs)
    ensures img != [] && TreeBuilds(lib, a, img, bs) && Built(lib, a, img, bs).Ok? && TreeBlobOk(lib, a, img, bs)
  {
    hide Built, TreeBlobOk, WithTree, TreeBlob, FooterInRange, MaxTreeSize;
  }

  /** The image is accepted, but image, tree, blob and footer block do not fit the partition. */
  ghost predicate TreeBlobIsCut(lib: Hashlib, a: TreeArgs, img: bytes, imageSize: nat)
    requires TreeWorks(lib, a.hashAlgorithm, a.blockSize)
  {
    && TreeArgsOk(lib, a, imageSize, DEFAULT_BLOCK_SIZE) && TreeAddable(lib, a, img, DEFAULT_BLOCK_SIZE)
    && !TreeBlobFits(lib, a, img, DEFAULT_BLOCK_SIZE)
  }

  /** Growth, tree, blob and footer fit the fields of a sparse file with blocks of 4096 bytes. */
  ghost predicate FieldsTake(lib: Hashlib, a: TreeArgs, img: bytes)
    requires TreeWorks(lib, a.hashAlgorithm, a.blockSize)
  {
    TreeAddable(lib, a, img, DEFAULT_BLOCK_SIZE) && TreeBlobFits(lib, a, img, DEFAULT_BLOCK_SIZE) ==>
      FitsSparseTree(lib, a, img, DEFAULT_BLOCK_SIZE)
  }

  /** Adding a hashtree footer to a sparse file and to its expansion gives the same result exactly unless the image is
      accepted and its blob does not fit, or it does not grow to whole blocks of the tree by whole blocks of the file;
      and the same image, except that such growth loses the sparse file even if the image is not accepted. */
  method AddTreeToSparseAndFlat(lib: Hashlib, a: TreeArgs, sparse: ImageHandler, flat: ImageHandler)
    returns (r: Result<()>, q: Result<()>)
    requires sparse != flat && lib.Valid() && TreeWorks(lib, a.hashAlgorithm, a.blockSize)
    requires sparse.Valid() && !sparse.readOnly && sparse.isSparse && CanStrip(sparse)
    requires flat.Valid() && !flat.readOnly && !flat.isSparse && flat.file == sparse.Contents()
    requires sparse.blockSize == DEFAULT_BLOCK_SIZE && a.blockSize > 0 && |sparse.chunks| + 6 < TWO_32
    requires if OddGrowth(a, sparse) then OddRoom(a, sparse) else FieldsTake(lib, a, Strip(sparse.Contents()))
    modifies sparse, flat
    ensures flat.Sound() && !flat.isSparse
    ensures q.Ok? <==> && TreeArgsOk(lib, a, old(sparse.imageSize), DEFAULT_BLOCK_SIZE)
                       && TreeAddable(lib, a, Strip(old(sparse.Contents())), DEFAULT_BLOCK_SIZE)
    ensures (r.Ok? <==> q.Ok?) <==>
      && !TreeBlobIsCut(lib, a, Strip(old(sparse.Contents())), old(sparse.imageSize))
      && !(q.Ok? && old(OddGrowth(a, sparse)))
    ensures sparse.isSparse && sparse.Sound() && flat.file == sparse.Contents() <==>
      && !TreeBlobIsCut(lib, a, Strip(old(sparse.Contents())), old(sparse.imageSize))
      && !(TreeArgsOk(lib, a, old(sparse.imageSize), DEFAULT_BLOCK_SIZE) && old(OddGrowth(a, sparse)))
  {
    hide ImageHandler.Contents, Strip, TreeAddable, TreeFootered, TreeWorks, BlockBytes, TreeArgsOk, FooterOf,
      TreeBlobFits, Parse, TreeFirst, FirstBreaks, FitsSparseTree, CanStrip, RoundUp, OddGrowth, OddRoom;
    FlatFacts(flat);
    FlatStrips(flat);
    FlatNeverOdd(a, flat);
    ghost var img, size := Strip(sparse.Contents()), sparse.imageSize;
    SparseFitsBlob(lib, a, img);
    r := AddHashtreeFooter(lib, a, sparse);
    q := AddHashtreeFooter(lib, a, flat);
    FlatFacts(flat);
    if q.Ok? {
      ArgsWhole(lib, a, size, DEFAULT_BLOCK_SIZE);
      TreeAddsBytes(lib, a, img);
    }
  }

  lemma FlatNeverOdd(a: TreeArgs, image: ImageHandler)
    requires image.Sound() && !image.isSparse
    ensures !OddGrowth(a, image)
  {
    hide CanStrip, Strip, RoundUp;
  }

  lemma SparseFitsBlob(lib: Hashlib, a: TreeArgs, img: bytes)
    requires TreeWorks(lib, a.hashAlgorithm, a.blockSize)
    ensures TreeAddable(lib, a, img, DEFAULT_BLOCK_SIZE) && FitsSparseTree(lib, a, img, DEFAULT_BLOCK_SIZE) ==>
      TreeBlobFits(lib, a, img, DEFAULT_BLOCK_SIZE)
  {
    hide TreeBuilds, TreeBlobOk, StoredTree, TreeBlob, TreeBlobFits, WithTree, FooterInRange;
  }

  lemma TreeAddsBytes(lib: Hashlib, a: TreeArgs, img: bytes)
    requires TreeWorks(lib, a.hashAlgorithm, a.blockSize) && a.partitionSize % DEFAULT_BLOCK_SIZE == 0
    requires TreeAddable(lib, a, img, DEFAULT_BLOCK_SIZE)
    ensures TreeFootered(lib, a, img, DEFAULT_BLOCK_SIZE) != img
  {
    hide TreeWorks, Built, Grown, Rounded, TreeBlobOk, TreeBlob, FooterInRange, TreeBlobFits, StoredTree, FooterBlock,
      WithFooter;
    WorksNonzero(lib, a.hashAlgorithm, a.blockSize);
    GrownSizes(a, img, DEFAULT_BLOCK_SIZE);
    FooterBlockSize(NewFooter(|img|, |WithTree(lib, a, img, DEFAULT_BLOCK_SIZE)|, |TreeBlob(lib, a, img, DEFAULT_BLOCK_SIZE)|),
                    DEFAULT_BLOCK_SIZE);
    if a.partitionSize > 0 {
      TreeFooteredLayout(lib, a, img);
    } else {
      BehindTheBase(WithTree(lib, a, img, DEFAULT_BLOCK_SIZE), TreeBlob(lib, a, img, DEFAULT_BLOCK_SIZE), |img|);
    }
  }

  lemma BehindTheBase(base: bytes, blob: bytes, originalSize: nat)
    requires FooterInRange(NewFooter(originalSize, |base|, |blob|))
    ensures |WithFooter(base, blob, originalSize, 0, DEFAULT_BLOCK_SIZE)| > |base|
  {
    hide FooterBlock, FooterInRange;
    FooterBlockSize(NewFooter(originalSize, |base|, |blob|), DEFAULT_BLOCK_SIZE);
  }

  // ---------------------------------------------------------------- three inputs

  /** One level, computed. */
  lemma LevelOf(size: nat, bs: nat, digest: nat, blocks: nat, level: nat)
    requires bs > 0 && size <= blocks * bs < size + bs
    requires blocks * digest <= level < blocks * digest + bs && level % bs == 0
    ensures LevelSize(size, bs, digest) == level
  {
    NumBlocksUnique(size, bs, blocks);
    MulNat(blocks, digest);
    RoundUpLeast(blocks * digest, bs, level);
    var r := RoundUp(blocks * digest, bs);
    MultiplesAdd(level, r, bs);
    if r < level {
      DivModUnique(level - r, bs, 0, level - r);
    }
  }

  lemma Slots()
    ensures RoundToPow2(32) == 32 && RoundToPow2(64) == 64
  {
    assert BitLength(3) == 2 && BitLength(7) == 3 && BitLength(15) == 4 && BitLength(31) == 5 && BitLength(63) == 6;
    assert Pow2(2) == 4 && Pow2(4) == 16 && Pow2(5) == 32 && Pow2(6) == 64;
  }

  /** SHA-256, blocks of 2048 bytes, a partition of 81920 bytes: an image of 10240 bytes is accepted and its levels are
      right, but it is grown to 12288 bytes and its tree of 2048 to 4096, and a blob of more than 61440 bytes is cut. */
  lemma BlobOf64KiBIsCut(lib: Hashlib, a: TreeArgs, img: bytes)
    requires TreeWorks(lib, a.hashAlgorithm, a.blockSize) && lib.treeHashSize(a.hashAlgorithm) == Some(32)
    requires a.blockSize == 2048 && a.partitionSize == 81920 && !a.noHashtree && |img| == 10240
    ensures var bs := DEFAULT_BLOCK_SIZE;
      && TreeBuilds(lib, a, img, bs) && SameLevels(lib, a, img, bs)
      && |Grown(a, img, bs)| == 12288 && |WithTree(lib, a, img, bs)| == 16384
      && (TreeBlobOk(lib, a, img, bs) ==> (TreeBlobFits(lib, a, img, bs) <==> |TreeBlob(lib, a, img, bs)| <= 61440))
  {
    hide TreeSize, RoundToPow2, Built, StoredTree, TreeBlobOk, TreeBlob, TreeWorks, Grown, Rounded, RoundUp,
      LevelsSuffice;
    var bs := DEFAULT_BLOCK_SIZE;
    SmallTrees();
    Slots();
    SizesAre(a, img);
    BuiltFacts(lib, a, img, bs);
    BuiltTree(lib, a, img, bs);
    StoredSize(lib, a, img, bs);
    RoundUpIs(2048, bs, 4096);
    if TreeBlobOk(lib, a, img, bs) {
      FitsOrNot(16384, |TreeBlob(lib, a, img, bs)|, 81920, bs);
    }
  }

  lemma RoundUpIs(n: nat, size: nat, r: nat)
    requires size > 0 && n <= r < n + size && r % size == 0
    ensures RoundUp(n, size) == r
  {
    RoundUpLeast(n, size, r);
    MultiplesAdd(r, RoundUp(n, size), size);
    if RoundUp(n, size) < r {
      DivModUnique(r - RoundUp(n, size), size, 0, r - RoundUp(n, size));
    }
  }

  lemma SizesAre(a: TreeArgs, img: bytes)
    requires a.blockSize == 2048 && |img| == 10240
    ensures |Rounded(a, img)| == 10240 && |Grown(a, img, DEFAULT_BLOCK_SIZE)| == 12288
  {
    hide RoundUp;
    RoundUpIs(10240, 2048, 10240);
    RoundUpIs(10240, 4096, 12288);
  }

  lemma SmallTrees()
    ensures TreeSize(10240, 2048, 32) == TreeSize(12288, 2048, 32) == TreeSize(81920, 2048, 32) == 2048
  {
    hide NumBlocks, LevelSize;
    LevelOf(10240, 2048, 32, 5, 2048);
    LevelOf(12288, 2048, 32, 6, 2048);
    LevelOf(81920, 2048, 32, 40, 2048);
    LevelShrinks(10240, 2048, 32);
    LevelShrinks(12288, 2048, 32);
    LevelShrinks(81920, 2048, 32);
  }

  /** SHA-512, blocks of 256 bytes: for an image of 1280 bytes the tree is built, but takes 1280 bytes where the
      descriptor claims 768. */
  lemma LevelsDiffer(lib: Hashlib, a: TreeArgs, img: bytes)
    requires TreeWorks(lib, a.hashAlgorithm, a.blockSize) && lib.treeHashSize(a.hashAlgorithm) == Some(64)
    requires a.blockSize == 256 && |img| == 1280
    ensures LevelsSuffice(lib, a, img, DEFAULT_BLOCK_SIZE) && !SameLevels(lib, a, img, DEFAULT_BLOCK_SIZE)
    ensures ClaimedSize(lib, a, img) == 768 && NeededSize(lib, a, img, DEFAULT_BLOCK_SIZE) == 1280
  {
    hide NumBlocks, LevelSize, RoundToPow2;
    Slots();
    LevelOf(1280, 256, 64, 5, 512);
    LevelOf(512, 256, 64, 2, 256);
    LevelOf(4096, 256, 64, 16, 1024);
    LevelOf(1024, 256, 64, 4, 256);
    LevelShrinks(1280, 256, 64);
    LevelShrinks(512, 256, 64);
    LevelShrinks(4096, 256, 64);
    LevelShrinks(1024, 256, 64);
  }
}
