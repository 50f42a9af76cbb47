/** What the commands of tools/avbtool leave in an image, in terms of their arguments: each field of the footer, of the
    header and of the first descriptor, as parsing the image gives it back. */
module Outcomes {
  import opened Bytes
  import opened Results
  import opened Struct
  import opened SparseFormat
  import opened SparseImage
  import opened Descriptors
  import opened VBMeta
  import opened Blob
  import opened Layouts
  import opened FooterOps
  import opened FooterEdits
  import opened HashTree
  import opened Merkle
  import opened HashtreeFooter
  import opened HashtreeLaws

  // ---------------------------------------------------------------- what both commands write

  /** The version a blob needs for its options: chained partitions without A/B, a rollback index location of its own,
      or one of the flags of its descriptor. */
  function Needed(o: Options, flagged: bool): nat {
    if exists i :: 0 <= i < |o.chains| && o.chains[i].doNotUseAb then 3
    else if o.rollbackIndexLocation > 0 then 2
    else if flagged then 1
    else 0
  }

  /** The header of a blob without signature, for these options. */
  predicate HeaderFollows(h: Header, o: Options, flagged: bool) {
    && h.versionMajor == 1 && IsRequiredMinor(h.versionMinor, Needed(o, flagged), o.included)
    && h.algorithmType == 0 && h.authSize == 0
    && h.descriptors.offset == 0 && h.metadata.size == |o.metadata|
    && h.rollbackIndex == o.rollbackIndex && h.flags == o.flags && h.rollbackIndexLocation == o.rollbackIndexLocation
    && IsRelease(h.releaseString, o)
  }

  lemma HeaderFollowsOptions(encoded: bytes, o: Options, flagged: bool)
    ensures HeaderFollows(HeaderOf(encoded, o, BumpAll(Needed(o, flagged), o.included)), o, flagged)
  {
    hide IsRelease, Release, IsRequiredMinor, BumpAll, RoundUp;
    ReleaseIs(o);
    RequiredMinorIs(Needed(o, flagged), o.included);
  }

  /** The last block of an image with a footer: zeros, and then the 64 bytes that say where image and blob are. */
  lemma FooterBlockLayout(f: Footer, bs: nat)
    requires bs >= 64 && FooterInRange(f)
    ensures var b := FooterBlock(f, bs);
      && |b| == bs && b[..bs - 64] == Zeros(bs - 64) && b[bs - 64..bs - 60] == AsciiBytes("AVBf")
      && Be32(b, bs - 60) == f.versionMajor && Be32(b, bs - 56) == f.versionMinor
      && Be64(b, bs - 52) == f.originalImageSize && Be64(b, bs - 44) == f.vbmetaOffset && Be64(b, bs - 36) == f.vbmetaSize
      && b[bs - 28..] == Zeros(28)
  {
    hide Be32, Be64, FooterFields, Join, FooterInRange;
    FooterLayout(f);
    var front, last := Zeros(bs - 64), Join(FooterFields(f));
    assert FooterBlock(f, bs) == front + last;
    Behind32(front, last, 4);
    Behind32(front, last, 8);
    Behind64(front, last, 12);
    Behind64(front, last, 20);
    Behind64(front, last, 28);
    assert (front + last)[bs - 64..bs - 60] == last[..4] && (front + last)[bs - 28..] == last[36..];
  }

  /** A blob behind `base` and its footer at the end: zeros fill the blob up to whole blocks, and the partition, if its
      size is given, up to its last block; what does not fit in front of that block is cut. */
  lemma WithFooterLayout(base: bytes, blob: bytes, originalSize: nat, partitionSize: nat, bs: nat)
    requires bs > 0
    ensures var out, last := WithFooter(base, blob, originalSize, partitionSize, bs),
                             FooterBlock(Footer(1, 0, originalSize, |base|, |blob|), bs);
      && (partitionSize == 0 ==> out == base + blob + Zeros(RoundUp(|blob|, bs) - |blob|) + last)
      && (partitionSize >= bs + |base| + RoundUp(|blob|, bs) ==>
            out == base + blob + Zeros(partitionSize - bs - |base| - |blob|) + last)
      && (bs <= partitionSize <= bs + |base| + |blob| ==> out == (base + blob)[..partitionSize - bs] + last)
  {
    hide RoundUp, FooterBlock;
    var filling, at := Zeros(RoundUp(|blob|, bs) - |blob|), |base| + RoundUp(|blob|, bs);
    assert base + (blob + filling) == base + blob + filling;
    if partitionSize >= bs + at {
      assert Resize(base + (blob + filling), partitionSize - bs) == base + blob + Zeros(partitionSize - bs - |base| - |blob|);
    } else if bs <= partitionSize <= bs + |base| + |blob| {
      assert Resize(base + (blob + filling), partitionSize - bs) == (base + blob)[..partitionSize - bs];
    }
  }

  /** Moving a footer: the image up to the end of its blob, in whole blocks; zeros; and the same footer. */
  lemma ResizedLayout(img: bytes, f: Footer, partitionSize: nat, bs: nat)
    requires bs > 0 && RoundUp(f.vbmetaOffset + f.vbmetaSize, bs) + bs <= partitionSize
    ensures var end := RoundUp(f.vbmetaOffset + f.vbmetaSize, bs);
      && (end <= |img| ==> Resized(img, f, partitionSize, bs) == img[..end] + Zeros(partitionSize - bs - end) + FooterBlock(f, bs))
      && (end > |img| ==> Resized(img, f, partitionSize, bs) == img + Zeros(partitionSize - bs - |img|) + FooterBlock(f, bs))
  {
    hide RoundUp, FooterBlock, Resize, Zeros;
    var end := RoundUp(f.vbmetaOffset + f.vbmetaSize, bs);
    ResizeTwice(img, end, partitionSize - bs);
  }

  lemma ResizeTwice(img: bytes, end: nat, n: nat)
    requires end <= n
    ensures end <= |img| ==> Resize(Resize(img, end), n) == img[..end] + Zeros(n - end)
    ensures end > |img| ==> Resize(Resize(img, end), n) == img + Zeros(n - |img|)
  {
    if end > |img| {
      assert Zeros(end - |img|) + Zeros(n - end) == Zeros(n - |img|);
      assert img + Zeros(end - |img|) + Zeros(n - end) == img + (Zeros(end - |img|) + Zeros(n - end));
    }
  }

  /** When a footer can be moved: there is one, the new size is whole blocks, and blob and footer fit. */
  lemma ResizableIf(p: Result<Parsed>, partitionSize: nat, bs: nat)
    requires bs > 0
    ensures Resizable(p, partitionSize, bs) <==>
      && p.Ok? && p.value.footer.Some? && partitionSize % bs == 0
      && RoundUp(p.value.footer.value.vbmetaOffset + p.value.footer.value.vbmetaSize, bs) + bs <= partitionSize
  {
    hide RoundUp;
  }

  /** Numbers in the second of two parts. */
  lemma Behind32(front: bytes, last: bytes, at: nat)
    requires at + 4 <= |last|
    ensures Be32(front + last, |front| + at) == Be32(last, at)
  {
  }

  lemma Behind64(front: bytes, last: bytes, at: nat)
    requires at + 8 <= |last|
    ensures Be64(front + last, |front| + at) == Be64(last, at)
  {
    hide Be32;
    Behind32(front, last, at);
    Behind32(front, last, at + 4);
  }

  // ---------------------------------------------------------------- add_hash_footer

  /** What parsing gives of an image that was given a hash footer. */
  predicate SaysHash(p: Parsed, lib: Hashlib, a: HashArgs, img: bytes, bs: nat)
    requires bs > 0
  {
    && p.footer.Some? && p.footer.value.versionMajor == 1 && p.footer.value.versionMinor == 0
    && p.footer.value.originalImageSize == |img| && p.footer.value.vbmetaOffset == RoundUp(|img|, bs)
    && HeaderFollows(p.header, a.options, a.usePersistentDigest || a.doNotUseAb)
    && |p.descriptors| > 0
    && p.descriptors[0] == Hash(|img|, a.hashAlgorithm, a.partitionName, a.salt,
                                if a.usePersistentDigest then [] else lib.hash(a.hashAlgorithm, a.salt + img),
                                if a.doNotUseAb then 1 else 0)
  }

  lemma HashFooterSays(lib: Hashlib, a: HashArgs, img: bytes, bs: nat)
    requires bs > 0 && Addable(lib, a, img, bs) && (bs == DEFAULT_BLOCK_SIZE || |img| % bs == 0)
    requires HashReadable(lib, a, img) && BlobFits(lib, a, img, bs)
    ensures var p := ParseImage(lib, HashFootered(lib, a, img, bs)); p.Ok? && SaysHash(p.value, lib, a, img, bs)
  {
    hide Addable, HashReadable, BlobFits, HashFootered, ParseImage, HeaderOf, AllDescriptors, HeaderFollows, BumpAll, Needed,
      RequiredMinor;
    HashFooteredParses(lib, a, img, bs);
    HashNeeds(a);
    HeaderFollowsOptions(EncodeAll(HashDescriptors(lib, a, img)), a.options, a.usePersistentDigest || a.doNotUseAb);
    DescriptorsListed([HashOf(lib, a, img)], a.options);
    assert HashDescriptors(lib, a, img)[0] == HashDescriptors(lib, a, img)[..1][0];
  }

  lemma HashNeeds(a: HashArgs)
    ensures RequiredMinor(a) == Needed(a.options, a.usePersistentDigest || a.doNotUseAb)
  {
  }

  /** The same without these names. */
  lemma SaysHashMeans(p: Parsed, lib: Hashlib, a: HashArgs, img: bytes, bs: nat)
    requires bs > 0 && SaysHash(p, lib, a, img, bs)
    ensures p.footer.Some? && p.descriptors != []
    ensures var f := p.footer.value;
      f.versionMajor == 1 && f.versionMinor == 0 && f.originalImageSize == |img| && f.vbmetaOffset == RoundUp(|img|, bs)
    ensures var o, h := a.options, p.header;
      var needed :=
        if exists i :: 0 <= i < |o.chains| && o.chains[i].doNotUseAb then 3
        else if o.rollbackIndexLocation > 0 then 2 else if a.usePersistentDigest || a.doNotUseAb then 1 else 0;
      && h.versionMajor == 1 && needed <= h.versionMinor
      && (forall i :: 0 <= i < |o.included| ==> o.included[i].versionMinor <= h.versionMinor)
      && (h.versionMinor == needed || exists i :: 0 <= i < |o.included| && o.included[i].versionMinor == h.versionMinor)
      && h.algorithmType == 0 && h.rollbackIndex == o.rollbackIndex && h.flags == o.flags
      && h.rollbackIndexLocation == o.rollbackIndexLocation && h.metadata.size == |o.metadata| && IsRelease(h.releaseString, o)
    ensures var d := p.descriptors[0];
      && d.Hash? && d.imageSize == |img| && d.hashAlgorithm == a.hashAlgorithm && d.partitionName == a.partitionName
      && d.salt == a.salt && d.digest == (if a.usePersistentDigest then [] else lib.hash(a.hashAlgorithm, a.salt + img))
      && d.flags == if a.doNotUseAb then 1 else 0
  {
    hide IsRelease, RoundUp;
  }

  /** Running the command on a flat image and parsing the result. */
  method AddHashThenParse(lib: Hashlib, a: HashArgs, image: ImageHandler) returns (r: Result<()>, p: Result<Parsed>)
    requires image.Valid() && !image.readOnly && !image.isSparse && lib.Valid()
    requires Addable(lib, a, Strip(image.Contents()), DEFAULT_BLOCK_SIZE) ==>
      HashReadable(lib, a, Strip(image.Contents())) && BlobFits(lib, a, Strip(image.Contents()), DEFAULT_BLOCK_SIZE)
    modifies image
    ensures image.Sound()
    ensures r.Ok? ==> p.Ok? && SaysHash(p.value, lib, a, Strip(old(image.Contents())), DEFAULT_BLOCK_SIZE)
  {
    hide ImageHandler.Contents, ParseImage, FooterOf, Addable, HashReadable, BlobFits, HashFootered, ArgsOk, Strip,
      SaysHash, ParseThrough;
    FlatFacts(image);
    FlatStrips(image);
    ghost var img := Strip(image.Contents());
    r := AddHashFooter(lib, a, image);
    p := Err(AvbError);
    if r.Ok? {
      FlatFacts(image);
      HashFooterSays(lib, a, img, DEFAULT_BLOCK_SIZE);
      p := ParseImageOf(lib, image);
    }
  }

  /** What is checked before the image is touched, and the size of the partition that is filled. */
  lemma HashArgsIf(a: HashArgs, imageSize: nat, bs: nat)
    requires bs > 0
    ensures ArgsOk(a) <==> a.dynamicPartitionSize || a.partitionSize >= 69632
    ensures Target(a, imageSize, bs) == if a.dynamicPartitionSize then RoundUp(imageSize + 69632, bs) else a.partitionSize
  {
    hide RoundUp;
  }

  /** When the command succeeds on a flat image: the partition is given or computed and at least 69632 bytes and whole
      blocks; the image leaves that much of it; the algorithm is known; and blob and footer can be generated. */
  lemma HashAddedIf(lib: Hashlib, a: HashArgs, img: bytes)
    ensures ArgsOk(a) && Addable(lib, a, img, DEFAULT_BLOCK_SIZE) <==>
      var p := if a.dynamicPartitionSize then RoundUp(|img| + 69632, 4096) else a.partitionSize;
      var minor := Needed(a.options, a.usePersistentDigest || a.doNotUseAb);
      var digest := if a.usePersistentDigest then [] else lib.hash(a.hashAlgorithm, a.salt + img);
      var d := Hash(|img|, a.hashAlgorithm, a.partitionName, a.salt, digest, if a.doNotUseAb then 1 else 0);
      && p % 4096 == 0 && |img| + 69632 <= p && lib.hashSize(a.hashAlgorithm).Some?
      && BlobOk([d], a.options, minor) && |BlobOf([d], a.options, minor)| < TWO_64
      && RoundUp(|img|, 4096) < TWO_64
  {
    hide BlobOk, BlobOf, RoundUp, RequiredMinor, Needed;
    HashNeeds(a);
    RoundUpAtLeast(|img|);
  }

  lemma RoundUpAtLeast(n: nat)
    ensures RoundUp(n, 4096) >= n && RoundUp(n + 69632, 4096) % 4096 == 0 && RoundUp(n + 69632, 4096) >= n + 69632
  {
  }

  // ---------------------------------------------------------------- add_hashtree_footer

  /** What parsing gives of an image that was given a hashtree footer: `size` is that of the image, grown to whole blocks
      of tree and file, `root` its root digest, `tree` its tree. */
  predicate SaysTree(p: Parsed, a: TreeArgs, originalSize: nat, size: nat, root: bytes, tree: bytes) {
    && p.footer.Some? && p.footer.value.versionMajor == 1 && p.footer.value.versionMinor == 0
    && p.footer.value.originalImageSize == originalSize
    && HeaderFollows(p.header, a.options, a.usePersistentRootDigest || a.doNotUseAb || a.checkAtMostOnce)
    && |p.descriptors| > 0
    && p.descriptors[0] ==
         Hashtree(1, size, size, if a.noHashtree then 0 else |tree|, a.blockSize, a.blockSize, 0, 0, 0,
                  a.hashAlgorithm, a.partitionName, a.salt, if a.usePersistentRootDigest then [] else root,
                  if a.doNotUseAb && a.checkAtMostOnce then 3 else if a.checkAtMostOnce then 2 else if a.doNotUseAb then 1 else 0)
  }

  /** How the tree is hashed: with the salt in front, in blocks, digests padded to the next power of two. */
  ghost predicate HashesFor(h: Hashing, lib: Hashlib, a: TreeArgs) {
    && (forall data :: h.hash(data) == lib.treeHash(a.hashAlgorithm, data))
    && h.salt == a.salt && h.bs == a.blockSize && lib.treeHashSize(a.hashAlgorithm) == Some(h.digestSize)
    && (exists k: nat :: Pow2(k) == h.digestSize + h.padding)
    && forall k: nat :: Pow2(k) >= h.digestSize ==> Pow2(k) >= h.digestSize + h.padding
  }

  lemma HashingIs(lib: Hashlib, a: TreeArgs)
    requires TreeWorks(lib, a.hashAlgorithm, a.blockSize)
    ensures lib.treeHashSize(a.hashAlgorithm).Some? && HashesFor(HashingFor(lib, a), lib, a) && HashingFor(lib, a).Valid()
    ensures HashingFor(lib, a).bs == a.blockSize
  {
    hide RoundToPow2;
    HashingValid(lib, a.hashAlgorithm, a.salt, a.blockSize);
    RoundToPow2Least(lib.treeHashSize(a.hashAlgorithm).value);
  }

  /** What that says, without these names. */
  lemma SaysTreeMeans(p: Parsed, a: TreeArgs, originalSize: nat, size: nat, root: bytes, tree: bytes)
    requires SaysTree(p, a, originalSize, size, root, tree)
    ensures p.footer.Some? && p.descriptors != []
    ensures var f := p.footer.value; f.versionMajor == 1 && f.versionMinor == 0 && f.originalImageSize == originalSize
    ensures var o, h := a.options, p.header;
      var needed :=
        if exists i :: 0 <= i < |o.chains| && o.chains[i].doNotUseAb then 3
        else if o.rollbackIndexLocation > 0 then 2
        else if a.usePersistentRootDigest || a.doNotUseAb || a.checkAtMostOnce then 1 else 0;
      && h.versionMajor == 1 && needed <= h.versionMinor
      && (forall i :: 0 <= i < |o.included| ==> o.included[i].versionMinor <= h.versionMinor)
      && (h.versionMinor == needed || exists i :: 0 <= i < |o.included| && o.included[i].versionMinor == h.versionMinor)
      && h.algorithmType == 0 && h.rollbackIndex == o.rollbackIndex && h.flags == o.flags
      && h.rollbackIndexLocation == o.rollbackIndexLocation && h.metadata.size == |o.metadata| && IsRelease(h.releaseString, o)
    ensures var d := p.descriptors[0];
      && d.Hashtree? && d.dmVerityVersion == 1 && d.imageSize == d.treeOffset == size
      && d.treeSize == (if a.noHashtree then 0 else |tree|) && d.dataBlockSize == d.hashBlockSize == a.blockSize
      && d.fecNumRoots == d.fecOffset == d.fecSize == 0 && d.hashAlgorithm == a.hashAlgorithm
      && d.partitionName == a.partitionName && d.salt == a.salt
      && d.rootDigest == (if a.usePersistentRootDigest then [] else root)
      && d.flags == (if a.doNotUseAb then 1 else 0) + if a.checkAtMostOnce then 2 else 0
  {
    hide IsRelease;
  }

  lemma TreeNeeds(a: TreeArgs)
    ensures Minor(a) == Needed(a.options, a.usePersistentRootDigest || a.doNotUseAb || a.checkAtMostOnce)
  {
  }

  /** The image, filled up with zeros to whole blocks of the tree, and then of a flat file. */
  function GrownImage(img: bytes, treeBlock: nat): bytes
    requires treeBlock > 0
  {
    Resize(img, RoundUp(RoundUp(|img|, treeBlock), 4096))
  }

  /** What a command that was accepted wrote, if growing the image to whole blocks of the file changed none of the levels
      of the tree: the grown image, behind it its tree, and what parsing gives. */
  lemma TreeFooterSays(lib: Hashlib, a: TreeArgs, img: bytes)
    returns (h: Hashing, levels: seq<bytes>, offsets: seq<nat>, root: bytes, tree: bytes)
    requires TreeWorks(lib, a.hashAlgorithm, a.blockSize)
    requires TreeAddable(lib, a, img, DEFAULT_BLOCK_SIZE) && a.partitionSize % DEFAULT_BLOCK_SIZE == 0
    requires TreeReadable(lib, a, img, DEFAULT_BLOCK_SIZE) && TreeBlobFits(lib, a, img, DEFAULT_BLOCK_SIZE)
    requires SameLevels(lib, a, img, DEFAULT_BLOCK_SIZE)
    ensures HashesFor(h, lib, a) && h.bs > 0 && IsTree(h, GrownImage(img, a.blockSize), levels, offsets, root, tree)
    ensures var grown, out := GrownImage(img, a.blockSize), TreeFootered(lib, a, img, DEFAULT_BLOCK_SIZE);
      && grown <= out && (!a.noHashtree ==> grown + tree <= out)
      && ParseImage(lib, out).Ok? && SaysTree(ParseImage(lib, out).value, a, |img|, |grown|, root, tree)
  {
    hide TreeAddable, TreeReadable, TreeBlobFits, TreeFootered, ParseImage, HeaderOf, AllDescriptors, HeaderFollows, BumpAll,
      Needed, Minor, Root, Tree, IsTree, Levels, LevelOffsets, SameLevels, Built, TreeWorks, WithTree, ClaimedSize, NeededSize,
      HashesFor, HashingFor, TreeDescriptor, Grown, GrownImage;
    var bs := DEFAULT_BLOCK_SIZE;
    AddableParts(lib, a, img, bs);
    WorksNonzero(lib, a.hashAlgorithm, a.blockSize);
    HashingIs(lib, a);
    GrownIs(a, img);
    GrownSizes(a, img, bs);
    h := HashingFor(lib, a);
    var grown := Grown(a, img, bs);
    levels, offsets, root, tree := Levels(h, grown), LevelOffsets(|grown|, h.bs, h.Slot()), Root(h, grown), Tree(h, grown);
    TreeIs(h, grown);
    TreeFooteredParses(lib, a, img, bs);
    TreeNeeds(a);
    HeaderFollowsOptions(EncodeAll(TreeDescriptors(lib, a, img, bs)), a.options,
                         a.usePersistentRootDigest || a.doNotUseAb || a.checkAtMostOnce);
    DescriptorsListed([TreeDescriptor(lib, a, img, bs)], a.options);
    assert TreeDescriptors(lib, a, img, bs)[0] == TreeDescriptors(lib, a, img, bs)[..1][0];
    TreeDescriptorIs(lib, a, img);
    TreeIsStored(lib, a, img);
  }

  lemma GrownIs(a: TreeArgs, img: bytes)
    requires a.blockSize > 0
    ensures Grown(a, img, DEFAULT_BLOCK_SIZE) == GrownImage(img, a.blockSize)
  {
    GrownSizes(a, img, DEFAULT_BLOCK_SIZE);
  }

  lemma TreeDescriptorIs(lib: Hashlib, a: TreeArgs, img: bytes)
    requires TreeWorks(lib, a.hashAlgorithm, a.blockSize) && img != [] && SameLevels(lib, a, img, DEFAULT_BLOCK_SIZE)
    ensures var h, grown := HashingFor(lib, a), Grown(a, img, DEFAULT_BLOCK_SIZE);
      && h.Valid() && |grown| >= h.bs
      && TreeDescriptor(lib, a, img, DEFAULT_BLOCK_SIZE) ==
           Hashtree(1, |grown|, |grown|, if a.noHashtree then 0 else |Tree(h, grown)|, a.blockSize, a.blockSize, 0, 0, 0,
                    a.hashAlgorithm, a.partitionName, a.salt, if a.usePersistentRootDigest then [] else Root(h, grown),
                    if a.doNotUseAb && a.checkAtMostOnce then 3 else if a.checkAtMostOnce then 2 else if a.doNotUseAb then 1 else 0)
  {
    hide Root, Tree, Grown, Rounded, TreeSize, RoundToPow2;
    HashingValid(lib, a.hashAlgorithm, a.salt, a.blockSize);
    GrownSizes(a, img, DEFAULT_BLOCK_SIZE);
  }

  /** What is checked before the image is touched. */
  lemma TreeArgsIf(lib: Hashlib, a: TreeArgs, imageSize: nat, bs: nat)
    requires bs > 0
    ensures TreeArgsOk(lib, a, imageSize, bs) <==>
      lib.treeHashSize(a.hashAlgorithm).Some? && (if a.partitionSize > 0 then a.partitionSize else imageSize) % bs == 0
  {
  }

  /** When the command succeeds on a flat image without a footer, the partition size or, if none is given, the size of the
      file being whole blocks: the image is not empty; it leaves room for the tree of an image as large as the partition and
      for 69632 bytes; growing it to whole blocks of the file adds no level to its tree; and blob and footer can be
      generated. */
  lemma TreeAddedIf(lib: Hashlib, a: TreeArgs, img: bytes)
    requires TreeWorks(lib, a.hashAlgorithm, a.blockSize)
    ensures img != [] ==> |Grown(a, img, DEFAULT_BLOCK_SIZE)| >= a.blockSize
    ensures HashingFor(lib, a).Valid() && a.blockSize > 0
    ensures TreeAddable(lib, a, img, DEFAULT_BLOCK_SIZE) <==>
      var h, n, grown := HashingFor(lib, a), RoundUp(|img|, a.blockSize), Grown(a, img, DEFAULT_BLOCK_SIZE);
      var d := Hashtree(1, |grown|, |grown|, if a.noHashtree then 0 else TreeSize(n, h.bs, h.Slot()), a.blockSize, a.blockSize,
                        0, 0, 0, a.hashAlgorithm, a.partitionName, a.salt,
                        if a.usePersistentRootDigest || img == [] then [] else Root(h, grown),
                        if a.doNotUseAb && a.checkAtMostOnce then 3
                        else if a.checkAtMostOnce then 2 else if a.doNotUseAb then 1 else 0);
      var minor := Needed(a.options, a.usePersistentRootDigest || a.doNotUseAb || a.checkAtMostOnce);
      && img != []
      && (a.partitionSize > 0 ==>
            n + (if a.noHashtree then 0 else TreeSize(a.partitionSize, h.bs, h.Slot())) + 69632 <= a.partitionSize)
      && |LevelOffsets(|grown|, h.bs, h.Slot())| <= |LevelOffsets(n, h.bs, h.Slot())|
      && BlobOk([d], a.options, minor)
      && |img| < TWO_64 && |BlobOf([d], a.options, minor)| < TWO_64
      && Built(lib, a, img, DEFAULT_BLOCK_SIZE).Ok? && |WithTree(lib, a, img, DEFAULT_BLOCK_SIZE)| < TWO_64
  {
    hide BlobOk, BlobOf, RoundUp, Minor, Needed, Root, Grown, TreeSize, LevelOffsets, RoundToPow2, Written, Built, StoredTree;
    HashingValid(lib, a.hashAlgorithm, a.salt, a.blockSize);
    TreeNeeds(a);
    GrownSizes(a, img, DEFAULT_BLOCK_SIZE);
    RoundedIs(a, img);
    if img != [] {
      BuiltFacts(lib, a, img, DEFAULT_BLOCK_SIZE);
      SlotIsIt(lib, a);
      hide Rounded;
    }
  }

  lemma RoundedIs(a: TreeArgs, img: bytes)
    requires a.blockSize > 0
    ensures |Rounded(a, img)| == RoundUp(|img|, a.blockSize)
  {
  }

  lemma SlotIsIt(lib: Hashlib, a: TreeArgs)
    requires lib.treeHashSize(a.hashAlgorithm).Some?
    ensures SlotOf(lib, a) == HashingFor(lib, a).Slot()
  {
    RoundToPow2AtLeast(lib.treeHashSize(a.hashAlgorithm).value);
    hide RoundToPow2;
  }

  lemma TreeIsStored(lib: Hashlib, a: TreeArgs, img: bytes)
    requires TreeWorks(lib, a.hashAlgorithm, a.blockSize)
    requires TreeAddable(lib, a, img, DEFAULT_BLOCK_SIZE) && a.partitionSize % DEFAULT_BLOCK_SIZE == 0
    requires SameLevels(lib, a, img, DEFAULT_BLOCK_SIZE)
    ensures var h, grown, out := HashingFor(lib, a), Grown(a, img, DEFAULT_BLOCK_SIZE),
                                 TreeFootered(lib, a, img, DEFAULT_BLOCK_SIZE);
      h.Valid() && grown <= out && (!a.noHashtree ==> grown + Tree(h, grown) <= out)
  {
    hide TreeAddable, TreeFootered, Tree, SameLevels, Built, TreeWorks, WithTree, ClaimedSize, HashingFor, Grown, Strip,
      FooterFields, FooterOf;
    var bs := DEFAULT_BLOCK_SIZE;
    AddableParts(lib, a, img, bs);
    TreeFooteredParts(lib, a, img, bs);
    HashingIs(lib, a);
    StoredStartsWithKept(lib, a, img, bs);
    if !a.noHashtree {
      KeptIsTree(lib, a, img, bs);
    }
  }

  /** Running the command on a flat image and parsing the result. */
  method AddTreeThenParse(lib: Hashlib, a: TreeArgs, image: ImageHandler)
    returns (r: Result<()>, p: Result<Parsed>, ghost h: Hashing, ghost levels: seq<bytes>, ghost offsets: seq<nat>,
             ghost root: bytes, ghost tree: bytes)
    requires image.Valid() && !image.readOnly && !image.isSparse && lib.Valid()
    requires TreeWorks(lib, a.hashAlgorithm, a.blockSize)
    requires TreeAddable(lib, a, Strip(image.Contents()), DEFAULT_BLOCK_SIZE) ==>
      && TreeReadable(lib, a, Strip(image.Contents()), DEFAULT_BLOCK_SIZE)
      && TreeBlobFits(lib, a, Strip(image.Contents()), DEFAULT_BLOCK_SIZE)
      && SameLevels(lib, a, Strip(image.Contents()), DEFAULT_BLOCK_SIZE)
    modifies image
    ensures image.Sound() && a.blockSize > 0
    ensures r.Ok? ==>
      var img := Strip(old(image.Contents()));
      var grown := GrownImage(img, a.blockSize);
      && p.Ok? && HashesFor(h, lib, a) && h.bs > 0 && IsTree(h, grown, levels, offsets, root, tree)
      && SaysTree(p.value, a, |img|, |grown|, root, tree)
      && grown <= image.Contents() && (!a.noHashtree ==> grown + tree <= image.Contents())
  {
    hide ImageHandler.Contents, ParseImage, FooterOf, TreeAddable, TreeReadable, TreeBlobFits, TreeFootered, Strip,
      SaysTree, ParseThrough, SameLevels, TreeWorks, IsTree, HashesFor, GrownImage, TreeArgsOk, TreeFirst, FirstBreaks, Parse;
    WorksNonzero(lib, a.hashAlgorithm, a.blockSize);
    HashingIs(lib, a);
    FlatFacts(image);
    FlatStrips(image);
    FlatNeverOdd(a, image);
    ghost var img, size := Strip(image.Contents()), image.imageSize;
    r := AddHashtreeFooter(lib, a, image);
    p := Err(AvbError);
    h, levels, offsets, root, tree := HashingFor(lib, a), [], [], [], [];
    if r.Ok? {
      FlatFacts(image);
      ArgsWhole(lib, a, size, DEFAULT_BLOCK_SIZE);
      h, levels, offsets, root, tree := TreeFooterSays(lib, a, img);
      p := ParseImageOf(lib, image);
    }
  }
}
