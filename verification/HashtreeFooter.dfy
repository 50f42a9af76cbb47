/** tools/avbtool: `add_hashtree_footer` (without FEC) and `zero_hashtree`. */
module HashtreeFooter {
  import opened Bytes
  import opened Results
  import opened SparseFormat
  import opened SparseImage
  import opened HashTree
  import opened Merkle
  import opened Descriptors
  import opened VBMeta
  import opened Blob
  import opened FooterOps

  // ---------------------------------------------------------------- round_to_pow2

  /** `round_to_pow2`; zero is rounded to 2, as minus one has one bit. */
  function RoundToPow2(n: nat): nat {
    if n == 0 then 2 else Pow2(BitLength(n - 1))
  }

  /** The smallest power of two that is at least `n`. */
  lemma RoundToPow2Least(n: nat)
    requires n > 0
    ensures n <= RoundToPow2(n) && exists k: nat :: RoundToPow2(n) == Pow2(k)
    ensures forall k: nat :: n <= Pow2(k) ==> RoundToPow2(n) <= Pow2(k)
  {
    BitLengthBounds(n - 1);
    assert RoundToPow2(n) == Pow2(BitLength(n - 1));
    forall k: nat | n <= Pow2(k)
      ensures RoundToPow2(n) <= Pow2(k)
    {
      if k < BitLength(n - 1) {
        Pow2Monotone(k, BitLength(n - 1) - 1);
      } else {
        Pow2Monotone(BitLength(n - 1), k);
      }
    }
  }

  // ---------------------------------------------------------------- arguments

  datatype TreeArgs = TreeArgs(
    partitionSize: nat, partitionName: bytes, hashAlgorithm: bytes, blockSize: nat, salt: bytes,
    usePersistentRootDigest: bool, doNotUseAb: bool, noHashtree: bool, checkAtMostOnce: bool, options: Options)

  function Minor(a: TreeArgs): nat {
    if exists i :: 0 <= i < |a.options.chains| && a.options.chains[i].doNotUseAb then 3
    else if a.options.rollbackIndexLocation > 0 then 2
    else if a.usePersistentRootDigest || a.doNotUseAb || a.checkAtMostOnce then 1
    else 0
  }

  /** How the tree is hashed: algorithm, salt and block size; digests are padded to a power of two. */
  function HashingOf(lib: Hashlib, alg: bytes, salt: bytes, bs: nat, digestSize: nat): Hashing {
    RoundToPow2AtLeast(digestSize);
    Hashing(data => lib.treeHash(alg, data), salt, bs, digestSize, RoundToPow2(digestSize) - digestSize)
  }

  lemma RoundToPow2AtLeast(n: nat)
    ensures RoundToPow2(n) >= n
  {
    if n > 0 {
      RoundToPow2Least(n);
    }
  }

  /** A known algorithm, two of whose padded digests fit in a block: otherwise the tree has no top. */
  ghost predicate TreeWorks(lib: Hashlib, alg: bytes, bs: nat) {
    lib.Valid() && bs > 0 && lib.treeHashSize(alg).Some? && lib.treeHashSize(alg).value > 0
    && 2 * RoundToPow2(lib.treeHashSize(alg).value) <= bs
  }

  lemma WorksNonzero(lib: Hashlib, alg: bytes, bs: nat)
    requires TreeWorks(lib, alg, bs)
    ensures bs >= 32
  {
    RoundToPow2AtLeast(lib.treeHashSize(alg).value);
  }

  lemma HashingValid(lib: Hashlib, alg: bytes, salt: bytes, bs: nat)
    requires TreeWorks(lib, alg, bs)
    ensures HashingOf(lib, alg, salt, bs, lib.treeHashSize(alg).value).Valid()
  {
    RoundToPow2AtLeast(lib.treeHashSize(alg).value);
  }

  function HashingFor(lib: Hashlib, a: TreeArgs): Hashing
    requires lib.treeHashSize(a.hashAlgorithm).Some?
  {
    HashingOf(lib, a.hashAlgorithm, a.salt, a.blockSize, lib.treeHashSize(a.hashAlgorithm).value)
  }

  // ---------------------------------------------------------------- what is to be written

  /** The image, grown to whole blocks of the tree. */
  function Rounded(a: TreeArgs, img: bytes): bytes
    requires a.blockSize > 0
  {
    Resize(img, RoundUp(|img|, a.blockSize))
  }

  /** ... and then to whole blocks of the file, after the levels of the tree were computed. */
  function Grown(a: TreeArgs, img: bytes, bs: nat): bytes
    requires a.blockSize > 0 && bs > 0
  {
    GrownToBlocks(Rounded(a, img), bs)
  }

  lemma GrownSizes(a: TreeArgs, img: bytes, bs: nat)
    requires a.blockSize > 0 && bs > 0
    ensures img <= Rounded(a, img) <= Grown(a, img, bs) == Resize(img, |Grown(a, img, bs)|)
    ensures |Rounded(a, img)| <= |Grown(a, img, bs)| < |Rounded(a, img)| + bs && |Grown(a, img, bs)| % bs == 0
    ensures |Rounded(a, img)| % bs == 0 ==> Grown(a, img, bs) == Rounded(a, img)
    ensures img != [] <==> |Rounded(a, img)| >= a.blockSize
    ensures img == [] ==> |Grown(a, img, bs)| == 0
  {
    WholeBlockAtLeast(RoundUp(|img|, a.blockSize), a.blockSize);
    if img == [] {
      RoundUpLeast(0, a.blockSize, 0);
      RoundUpLeast(0, bs, 0);
    }
  }

  /** What the builder returns for the grown image: the levels are where they belong in the tree of the image
      before it was grown to whole blocks of the file. */
  ghost function Built(lib: Hashlib, a: TreeArgs, img: bytes, bs: nat): Result<bytes>
    requires TreeWorks(lib, a.hashAlgorithm, a.blockSize) && bs > 0 && img != []
  {
    HashingValid(lib, a.hashAlgorithm, a.salt, a.blockSize);
    GrownSizes(a, img, bs);
    var h, size := HashingFor(lib, a), |Rounded(a, img)|;
    OffsetsInside(size, h.bs, h.Slot());
    Written(h, Zeros(TreeSize(size, h.bs, h.Slot())), LevelOffsets(size, h.bs, h.Slot()), Grown(a, img, bs))
  }

  function SlotOf(lib: Hashlib, a: TreeArgs): nat
    requires lib.treeHashSize(a.hashAlgorithm).Some?
  {
    RoundToPow2(lib.treeHashSize(a.hashAlgorithm).value)
  }

  /** The size the descriptor gives for the tree, and that of the tree of the grown image. */
  function ClaimedSize(lib: Hashlib, a: TreeArgs, img: bytes): nat
    requires a.blockSize > 0 && lib.treeHashSize(a.hashAlgorithm).Some? && 2 * SlotOf(lib, a) <= a.blockSize
  {
    TreeSize(|Rounded(a, img)|, a.blockSize, SlotOf(lib, a))
  }

  function NeededSize(lib: Hashlib, a: TreeArgs, img: bytes, bs: nat): nat
    requires a.blockSize > 0 && bs > 0 && lib.treeHashSize(a.hashAlgorithm).Some? && 2 * SlotOf(lib, a) <= a.blockSize
  {
    TreeSize(|Grown(a, img, bs)|, a.blockSize, SlotOf(lib, a))
  }

  /** Growing to whole blocks of the file adds no level to the tree. */
  predicate LevelsSuffice(lib: Hashlib, a: TreeArgs, img: bytes, bs: nat)
    requires a.blockSize > 0 && bs > 0 && lib.treeHashSize(a.hashAlgorithm).Some? && 2 * SlotOf(lib, a) <= a.blockSize
  {
    |LevelOffsets(|Grown(a, img, bs)|, a.blockSize, SlotOf(lib, a))|
      <= |LevelOffsets(|Rounded(a, img)|, a.blockSize, SlotOf(lib, a))|
  }

  /** ... and makes none of its levels larger. */
  predicate SameLevels(lib: Hashlib, a: TreeArgs, img: bytes, bs: nat)
    requires a.blockSize > 0 && bs > 0 && lib.treeHashSize(a.hashAlgorithm).Some? && 2 * SlotOf(lib, a) <= a.blockSize
  {
    ClaimedSize(lib, a, img) == NeededSize(lib, a, img, bs)
  }

  lemma BuiltFacts(lib: Hashlib, a: TreeArgs, img: bytes, bs: nat)
    requires TreeWorks(lib, a.hashAlgorithm, a.blockSize) && bs > 0 && img != []
    ensures Built(lib, a, img, bs).Ok? <==> LevelsSuffice(lib, a, img, bs)
    ensures Built(lib, a, img, bs).Ok? ==>
      ClaimedSize(lib, a, img) <= |Built(lib, a, img, bs).value| <= NeededSize(lib, a, img, bs)
  {
    hide Written, TreeSize, LevelOffsets, Rounded, Grown, RoundToPow2, LevelSize, NumBlocks;
    HashingValid(lib, a.hashAlgorithm, a.salt, a.blockSize);
    GrownSizes(a, img, bs);
    var h, size, src := HashingFor(lib, a), |Rounded(a, img)|, Grown(a, img, bs);
    var tree := Zeros(TreeSize(size, h.bs, h.Slot()));
    OffsetsInside(size, h.bs, h.Slot());
    EnoughOffsets(h, tree, LevelOffsets(size, h.bs, h.Slot()), src);
    WrittenSize(h, tree, size, src);
    TreeSizeMonotone(size, |src|, h.bs, h.Slot());
  }

  /** With the same levels the builder returns the tree of the grown image. */
  lemma BuiltTree(lib: Hashlib, a: TreeArgs, img: bytes, bs: nat)
    requires TreeWorks(lib, a.hashAlgorithm, a.blockSize) && bs > 0 && img != [] && SameLevels(lib, a, img, bs)
    ensures LevelsSuffice(lib, a, img, bs) && HashingFor(lib, a).Valid()
    ensures Built(lib, a, img, bs) == Ok(Tree(HashingFor(lib, a), Grown(a, img, bs)))
  {
    hide Written, TreeSize, LevelOffsets, Rounded, Grown, RoundToPow2, LevelSize, NumBlocks, Tree;
    HashingValid(lib, a.hashAlgorithm, a.salt, a.blockSize);
    GrownSizes(a, img, bs);
    var h, size, src := HashingFor(lib, a), |Rounded(a, img)|, Grown(a, img, bs);
    var tree := Zeros(TreeSize(size, h.bs, h.Slot()));
    SameTreeSize(size, |src|, h.bs, h.Slot());
    WrittenTree(h, tree, src);
    assert Tree(h, src) + tree[|tree|..] == Tree(h, src);
  }

  /** Whole blocks of the tree that are whole blocks of the file need no growing. */
  lemma DivisibleSameLevels(lib: Hashlib, a: TreeArgs, img: bytes, bs: nat)
    requires TreeWorks(lib, a.hashAlgorithm, a.blockSize) && bs > 0 && |Rounded(a, img)| % bs == 0
    ensures Grown(a, img, bs) == Rounded(a, img) && SameLevels(lib, a, img, bs) && LevelsSuffice(lib, a, img, bs)
  {
    hide TreeSize, LevelOffsets, Rounded, RoundToPow2;
    GrownSizes(a, img, bs);
  }

  /** The tree that is stored behind the image, filled up to whole blocks of the file. */
  ghost function StoredTree(lib: Hashlib, a: TreeArgs, img: bytes, bs: nat): bytes
    requires TreeWorks(lib, a.hashAlgorithm, a.blockSize) && bs > 0 && img != [] && Built(lib, a, img, bs).Ok?
  {
    if a.noHashtree then [] else GrownToBlocks(Built(lib, a, img, bs).value, bs)
  }

  ghost function TreeDescriptor(lib: Hashlib, a: TreeArgs, img: bytes, bs: nat): Descriptor
    requires TreeWorks(lib, a.hashAlgorithm, a.blockSize) && bs > 0 && img != []
  {
    HashingValid(lib, a.hashAlgorithm, a.salt, a.blockSize);
    GrownSizes(a, img, bs);
    DescriptorFor(a, |Grown(a, img, bs)|, if a.noHashtree then 0 else ClaimedSize(lib, a, img),
                  Root(HashingFor(lib, a), Grown(a, img, bs)))
  }

  function DescriptorFor(a: TreeArgs, imageSize: nat, treeSize: nat, root: bytes): Descriptor {
    Hashtree(1, imageSize, imageSize, treeSize, a.blockSize, a.blockSize, 0, 0, 0,
             a.hashAlgorithm, a.partitionName, a.salt, if a.usePersistentRootDigest then [] else root,
             (if a.doNotUseAb then 1 else 0) + if a.checkAtMostOnce then 2 else 0)
  }

  ghost predicate TreeBlobOk(lib: Hashlib, a: TreeArgs, img: bytes, bs: nat)
    requires TreeWorks(lib, a.hashAlgorithm, a.blockSize) && bs > 0 && img != []
  {
    BlobOk([TreeDescriptor(lib, a, img, bs)], a.options, Minor(a))
  }

  ghost function TreeBlob(lib: Hashlib, a: TreeArgs, img: bytes, bs: nat): bytes
    requires TreeWorks(lib, a.hashAlgorithm, a.blockSize) && bs > 0 && img != [] && TreeBlobOk(lib, a, img, bs)
  {
    BlobOf([TreeDescriptor(lib, a, img, bs)], a.options, Minor(a))
  }

  /** Image and tree, without blob and footer. */
  ghost function WithTree(lib: Hashlib, a: TreeArgs, img: bytes, bs: nat): bytes
    requires TreeWorks(lib, a.hashAlgorithm, a.blockSize) && bs > 0 && img != [] && Built(lib, a, img, bs).Ok?
  {
    Grown(a, img, bs) + StoredTree(lib, a, img, bs)
  }

  /** The largest tree an image of the partition's size could need. */
  function MaxTreeSize(lib: Hashlib, a: TreeArgs): nat
    requires a.blockSize > 0 && lib.treeHashSize(a.hashAlgorithm).Some? && 2 * SlotOf(lib, a) <= a.blockSize
  {
    if a.noHashtree then 0 else TreeSize(a.partitionSize, a.blockSize, SlotOf(lib, a))
  }

  /** The image is not empty and leaves room for the largest possible tree, a 64 KiB blob and a footer block. */
  predicate SizeFits(lib: Hashlib, a: TreeArgs, img: bytes)
    requires a.blockSize > 0 && lib.treeHashSize(a.hashAlgorithm).Some? && 2 * SlotOf(lib, a) <= a.blockSize
  {
    && img != []
    && (a.partitionSize > 0 ==> |Rounded(a, img)| + MaxTreeSize(lib, a) + MAX_METADATA_SIZE <= a.partitionSize)
  }

  /** The tree can be built. */
  ghost predicate TreeBuilds(lib: Hashlib, a: TreeArgs, img: bytes, bs: nat)
    requires TreeWorks(lib, a.hashAlgorithm, a.blockSize) && bs > 0
  {
    SizeFits(lib, a, img) && Built(lib, a, img, bs).Ok?
  }

  /** The conditions that depend on the image. */
  ghost predicate TreeAddable(lib: Hashlib, a: TreeArgs, img: bytes, bs: nat)
    requires TreeWorks(lib, a.hashAlgorithm, a.blockSize) && bs > 0
  {
    && TreeBuilds(lib, a, img, bs)
    && TreeBlobOk(lib, a, img, bs)
    && FooterInRange(NewFooter(|img|, |WithTree(lib, a, img, bs)|, |TreeBlob(lib, a, img, bs)|))
  }

  ghost function TreeFootered(lib: Hashlib, a: TreeArgs, img: bytes, bs: nat): bytes
    requires TreeWorks(lib, a.hashAlgorithm, a.blockSize) && bs > 0 && TreeBuilds(lib, a, img, bs) && TreeBlobOk(lib, a, img, bs)
  {
    WithFooter(WithTree(lib, a, img, bs), TreeBlob(lib, a, img, bs), |img|, a.partitionSize, bs)
  }

  /** Image, tree, blob and footer block all fit, so that nothing of the blob is cut. */
  ghost predicate TreeBlobFits(lib: Hashlib, a: TreeArgs, img: bytes, bs: nat)
    requires TreeWorks(lib, a.hashAlgorithm, a.blockSize) && bs > 0 && TreeBuilds(lib, a, img, bs) && TreeBlobOk(lib, a, img, bs)
  {
    BlobHolds(|WithTree(lib, a, img, bs)|, TreeBlob(lib, a, img, bs), a.partitionSize, bs)
  }

  /** On a sparse file: tree, blob and footer fit the partition, and the 32-bit fields of the file. */
  ghost predicate TailFits(lib: Hashlib, a: TreeArgs, img: bytes, bs: nat)
    requires TreeWorks(lib, a.hashAlgorithm, a.blockSize) && bs > 0 && TreeBuilds(lib, a, img, bs) && TreeBlobOk(lib, a, img, bs)
  {
    && TreeBlobFits(lib, a, img, bs) && !TooLong(|StoredTree(lib, a, img, bs)|)
    && FieldsHold(|WithTree(lib, a, img, bs)|, TreeBlob(lib, a, img, bs), a.partitionSize, bs)
  }

  /** ... and so does what the image is grown by first. */
  ghost predicate FitsSparseTree(lib: Hashlib, a: TreeArgs, img: bytes, bs: nat)
    requires TreeWorks(lib, a.hashAlgorithm, a.blockSize) && bs > 0 && TreeBuilds(lib, a, img, bs) && TreeBlobOk(lib, a, img, bs)
  {
    TailFits(lib, a, img, bs) && !TooLong(Growth(a, |img|))
  }

  /** How many chunks an append of `size` bytes takes that is left out if there is nothing to append. */
  function OneIf(size: nat): nat { if size > 0 then 1 else 0 }

  /** How many chunks tree, blob, hole and footer take. */
  ghost function TailChunks(lib: Hashlib, a: TreeArgs, img: bytes, bs: nat): nat
    requires TreeWorks(lib, a.hashAlgorithm, a.blockSize) && bs > 0 && TreeBuilds(lib, a, img, bs)
  {
    OneIf(|StoredTree(lib, a, img, bs)|) + BodyChunks(a.partitionSize) + 1
  }

  lemma StoredSize(lib: Hashlib, a: TreeArgs, img: bytes, bs: nat)
    requires TreeWorks(lib, a.hashAlgorithm, a.blockSize) && bs > 0 && img != [] && Built(lib, a, img, bs).Ok?
    ensures |StoredTree(lib, a, img, bs)| % bs == 0
    ensures |StoredTree(lib, a, img, bs)| == if a.noHashtree then 0 else RoundUp(|Built(lib, a, img, bs).value|, bs)
  {
    hide Built, RoundUp, TreeWorks;
  }

  /** An accepted image leaves room for its tree, because a larger image never has a smaller tree: up to the metadata
      if image and tree are whole blocks of the file, and up to less than two blocks more otherwise. */
  lemma TreeFits(lib: Hashlib, a: TreeArgs, img: bytes, bs: nat)
    requires TreeWorks(lib, a.hashAlgorithm, a.blockSize) && bs > 0 && a.partitionSize > 0 && TreeBuilds(lib, a, img, bs)
    requires bs <= MAX_METADATA_SIZE || |Rounded(a, img)| % bs == 0
    ensures |WithTree(lib, a, img, bs)| % bs == 0
    ensures |WithTree(lib, a, img, bs)| + MAX_METADATA_SIZE < a.partitionSize + 2 * bs
    ensures a.blockSize % bs == 0 ==> |WithTree(lib, a, img, bs)| + MAX_METADATA_SIZE <= a.partitionSize
  {
    hide TreeSize, Rounded, Grown, RoundToPow2, Built, RoundUp, LevelsSuffice, StoredTree, TreeWorks;
    WorksNonzero(lib, a.hashAlgorithm, a.blockSize);
    GrownSizes(a, img, bs);
    StoredSize(lib, a, img, bs);
    BuiltInside(lib, a, img, bs);
    MultiplesAdd(|Grown(a, img, bs)|, |StoredTree(lib, a, img, bs)|, bs);
    if a.blockSize % bs == 0 {
      RoundedAligned(a, img, bs);
      BuiltAligned(lib, a, img, bs);
    }
  }

  lemma BuiltInside(lib: Hashlib, a: TreeArgs, img: bytes, bs: nat)
    requires TreeWorks(lib, a.hashAlgorithm, a.blockSize) && bs > 0 && a.partitionSize > 0 && TreeBuilds(lib, a, img, bs)
    requires |Grown(a, img, bs)| <= a.partitionSize
    ensures a.blockSize > 0
    ensures a.noHashtree || |Rounded(a, img)| + |Built(lib, a, img, bs).value| + MAX_METADATA_SIZE <= a.partitionSize
    ensures |Rounded(a, img)| + MAX_METADATA_SIZE <= a.partitionSize
  {
    hide TreeSize, Rounded, Grown, RoundToPow2, Built, RoundUp, LevelsSuffice;
    BuiltFacts(lib, a, img, bs);
    TreeSizeMonotone(|Grown(a, img, bs)|, a.partitionSize, a.blockSize, SlotOf(lib, a));
  }

  /** If the tree's blocks are whole blocks of the file, so is the tree. */
  lemma BuiltAligned(lib: Hashlib, a: TreeArgs, img: bytes, bs: nat)
    requires TreeWorks(lib, a.hashAlgorithm, a.blockSize) && bs > 0 && img != [] && a.blockSize % bs == 0
    ensures Built(lib, a, img, bs).Ok?
    ensures RoundUp(|Built(lib, a, img, bs).value|, bs) == |Built(lib, a, img, bs).value| == ClaimedSize(lib, a, img)
  {
    hide TreeSize, Rounded, Grown, RoundToPow2, Built, RoundUp;
    RoundedAligned(a, img, bs);
    DivisibleSameLevels(lib, a, img, bs);
    BuiltFacts(lib, a, img, bs);
    MultipleOfMultiple(ClaimedSize(lib, a, img), a.blockSize, bs);
    RoundUpLeast(ClaimedSize(lib, a, img), bs, ClaimedSize(lib, a, img));
  }

  lemma RoundedAligned(a: TreeArgs, img: bytes, bs: nat)
    requires a.blockSize > 0 && bs > 0 && a.blockSize % bs == 0
    ensures |Rounded(a, img)| % bs == 0
  {
    MultipleOfMultiple(|Rounded(a, img)|, a.blockSize, bs);
  }

  lemma MultipleOfMultiple(n: nat, m: nat, d: nat)
    requires d > 0 && m > 0 && n % m == 0 && m % d == 0
    ensures n % d == 0
  {
    var x, y := n / m, m / d;
    assert n == x * m && m == y * d;
    assert n == (x * y) * d;
    MultipleDivides(x * y, d);
  }

  // ---------------------------------------------------------------- add_hashtree_footer

  /** A sparse file takes `size` more bytes of payload in one chunk. */
  ghost predicate Takes(image: ImageHandler, size: nat)
    reads image
  {
    image.Valid() && (image.isSparse && size > 0 ==> image.Room(size, size))
  }

  /** What an optional append of `size` bytes is, as the first of a run. */
  function FirstOf(size: nat): Option<nat> { if size > 0 then Some(size) else None }

  /** An append that is left out if there is nothing to append. */
  method AppendSome(image: ImageHandler, data: bytes, multipleBlockSize: bool) returns (r: Result<()>)
    requires Ready(image) && !image.readOnly && image.blockSize > 0
    requires |data| % image.blockSize == 0 || (!image.isSparse && !multipleBlockSize)
    requires !image.isSparse && data != [] ==> !MagicPrefix(image.file + data) && |image.file + data| >= HEADER_SIZE
    modifies image
    ensures image.Sound() && image.isSparse == old(image.isSparse) && image.blockSize == old(image.blockSize)
    ensures old(image.Contents()) <= image.Contents()
    ensures r.Ok? ==> image.Contents() == old(image.Contents()) + data
    ensures r.Ok? ==> Ready(image) && (old(image.Valid()) ==> image.Valid())
    ensures r.Ok? <==> data == [] || old(Takes(image, |data|))
    ensures r.Ok? && image.isSparse ==> |image.chunks| == old(|image.chunks|) + OneIf(|data|)
    ensures r.Ok? && old(image.Valid()) ==> Stepped(image, old(image.imageSize), old(|image.chunks|), FirstOf(|data|))
    ensures r.Err? && old(image.Valid()) ==> Repairable(image, old(image.imageSize), old(|image.chunks|), FirstOf(|data|))
    ensures old(image.Stuck()) ==> image.Stuck() && image.file == old(image.file) && image.Contents() == old(image.Contents())
  {
    hide ImageHandler.Sound, ImageHandler.Contents, BlockBytes, Parse, MagicPrefix, Breaks, ImageHandler.CountsFit;
    FlatFacts(image);
    if image.isSparse && image.Valid() {
      StillParses(image);
    }
    if |data| == 0 {
      assert image.Contents() + data == image.Contents();
      return Ok(());
    }
    if image.isSparse && image.Valid() && !image.Accepts(true, |data|, |data|) {
      RefusedLength(image, |data|);
    }
    r := image.AppendRaw(data, multipleBlockSize);
  }

  /** Growing the image to whole blocks of the tree. */
  method GrowForTree(a: TreeArgs, image: ImageHandler) returns (r: Result<()>)
    requires Ready(image) && !image.readOnly && image.blockSize > 0 && a.blockSize >= HEADER_SIZE
    requires image.isSparse ==> RoundUp(image.imageSize, a.blockSize) % image.blockSize == 0
    modifies image
    ensures image.Sound() && image.isSparse == old(image.isSparse) && image.blockSize == old(image.blockSize)
    ensures old(image.Contents()) <= image.Contents()
    ensures r.Ok? ==> image.Contents() == Rounded(a, old(image.Contents()))
    ensures r.Ok? ==> Ready(image) && (old(image.Valid()) ==> image.Valid())
    ensures r.Ok? <==> Growth(a, old(image.imageSize)) == 0 || old(Takes(image, Growth(a, image.imageSize)))
    ensures r.Ok? && image.isSparse ==> |image.chunks| == old(|image.chunks|) + OneIf(Growth(a, old(image.imageSize)))
    ensures r.Ok? && old(image.Valid()) ==>
      Stepped(image, old(image.imageSize), old(|image.chunks|), FirstOf(Growth(a, old(image.imageSize))))
    ensures r.Err? && old(image.Valid()) ==>
      Repairable(image, old(image.imageSize), old(|image.chunks|), FirstOf(Growth(a, old(image.imageSize))))
    ensures old(image.Stuck()) ==> image.Stuck() && image.file == old(image.file) && image.Contents() == old(image.Contents())
  {
    hide ImageHandler.Sound, ImageHandler.Contents, RoundUp, BlockBytes, Repairable, Stepped, FirstOf;
    FlatFacts(image);
    ghost var img := image.Contents();
    var rounded := RoundUp(image.imageSize, a.blockSize);
    var filling := Zeros(rounded - image.imageSize);
    if image.isSparse {
      MultiplesAdd(rounded, image.imageSize, image.blockSize);
    } else if rounded > image.imageSize {
      WholeBlockAtLeast(rounded, a.blockSize);
      ResizeKeepsMagic(image.file, rounded);
      assert Resize(image.file, rounded) == image.file + filling;
    }
    r := AppendSome(image, filling, false);
    assert Resize(img, rounded) == img + filling;
  }

  /** How many bytes an image of `size` bytes lacks to whole blocks of the tree. */
  function Growth(a: TreeArgs, size: nat): nat
    requires a.blockSize > 0
  {
    RoundUp(size, a.blockSize) - size
  }

  /** An image with everything behind it that fits the fields of a sparse file fits them itself. */
  lemma BelowTheEnd(size: nat, blob: bytes, partitionSize: nat, bs: nat)
    requires bs > 0 && BlobHolds(size, blob, partitionSize, bs) && FieldsHold(size, blob, partitionSize, bs)
    ensures size < BlockBytes(TWO_32, bs)
  {
    hide BlockBytes, RoundUp;
  }

  lemma TakesGrowth(lib: Hashlib, a: TreeArgs, image: ImageHandler)
    requires TreeWorks(lib, a.hashAlgorithm, a.blockSize) && image.blockSize > 0 && image.Valid()
    requires TreeBuilds(lib, a, image.Contents(), image.blockSize) && TreeBlobOk(lib, a, image.Contents(), image.blockSize)
    requires image.isSparse ==> FitsSparseTree(lib, a, image.Contents(), image.blockSize)
    requires image.isSparse ==>
      |image.chunks| + OneIf(Growth(a, image.imageSize)) + TailChunks(lib, a, image.Contents(), image.blockSize) < TWO_32
    ensures Takes(image, Growth(a, image.imageSize))
  {
    hide BlockBytes, RoundUp, Built, TreeBlobOk, TreeBlob, TreeWorks, ImageHandler.Contents, ImageHandler.Sound,
      StoredTree, MaxTreeSize, BlobHolds, FieldsHold;
    if image.isSparse {
      var img, bs := image.Contents(), image.blockSize;
      WorksNonzero(lib, a.hashAlgorithm, a.blockSize);
      GrownSizes(a, img, bs);
      BelowTheEnd(|WithTree(lib, a, img, bs)|, TreeBlob(lib, a, img, bs), a.partitionSize, bs);
    }
  }

  lemma TakesTree(lib: Hashlib, a: TreeArgs, image: ImageHandler, img: bytes)
    requires TreeWorks(lib, a.hashAlgorithm, a.blockSize) && image.blockSize > 0 && image.Valid()
    requires TreeBuilds(lib, a, img, image.blockSize) && TreeBlobOk(lib, a, img, image.blockSize)
    requires image.isSparse ==> TailFits(lib, a, img, image.blockSize)
    requires image.isSparse ==> |image.chunks| + TailChunks(lib, a, img, image.blockSize) < TWO_32
    requires image.Contents() == Grown(a, img, image.blockSize)
    ensures Takes(image, |StoredTree(lib, a, img, image.blockSize)|)
  {
    hide BlockBytes, RoundUp, Built, TreeBlobOk, TreeBlob, TreeWorks, ImageHandler.Contents, ImageHandler.Sound,
      Rounded, Grown, StoredTree, MaxTreeSize, BlobHolds, FieldsHold;
    if image.isSparse {
      var bs := image.blockSize;
      BelowTheEnd(|WithTree(lib, a, img, bs)|, TreeBlob(lib, a, img, bs), a.partitionSize, bs);
    }
  }

  /** The first steps of the guarded part: grow the image and check its size. */
  method GrowAndCheck(lib: Hashlib, a: TreeArgs, image: ImageHandler) returns (r: Result<()>)
    requires Ready(image) && !image.readOnly && image.blockSize > 0 && TreeWorks(lib, a.hashAlgorithm, a.blockSize)
    requires image.isSparse ==> RoundUp(image.imageSize, a.blockSize) % image.blockSize == 0
    modifies image
    ensures image.Sound() && image.isSparse == old(image.isSparse) && image.blockSize == old(image.blockSize)
    ensures old(image.Contents()) <= image.Contents()
    ensures r.Ok? ==> Ready(image) && (old(image.Valid()) ==> image.Valid())
    ensures r.Ok? ==> image.Contents() == Rounded(a, old(image.Contents()))
    ensures r.Ok? ==> old(image.Contents()) == [] || SizeFits(lib, a, old(image.Contents()))
    ensures SizeFits(lib, a, old(image.Contents())) ==>
      (r.Ok? <==> Growth(a, old(image.imageSize)) == 0 || old(Takes(image, Growth(a, image.imageSize))))
    ensures r.Ok? ==> Growth(a, old(image.imageSize)) == 0 || old(Takes(image, Growth(a, image.imageSize)))
    ensures r.Ok? && image.isSparse ==> |image.chunks| == old(|image.chunks|) + OneIf(Growth(a, old(image.imageSize)))
    ensures r.Ok? && old(image.Valid()) ==>
      Stepped(image, old(image.imageSize), old(|image.chunks|), FirstOf(Growth(a, old(image.imageSize))))
    ensures r.Err? && old(image.Valid()) ==>
      Repairable(image, old(image.imageSize), old(|image.chunks|), FirstOf(Growth(a, old(image.imageSize))))
    ensures old(image.Stuck()) ==> image.Stuck() && image.file == old(image.file) && image.Contents() == old(image.Contents())
  {
    hide ImageHandler.Sound, ImageHandler.Contents, BlockBytes, RoundUp, MaxTreeSize, Parse, Breaks, Rounded, Growth,
      Takes;
    FlatFacts(image);
    WorksNonzero(lib, a.hashAlgorithm, a.blockSize);
    r := GrowForTree(a, image);
    if r.Ok? && a.partitionSize > 0 && image.imageSize + MaxTreeSize(lib, a) + MAX_METADATA_SIZE > a.partitionSize {
      return Err(AvbError);
    }
  }

  /** ... and build the tree. */
  method BuildTree(lib: Hashlib, a: TreeArgs, image: ImageHandler) returns (r: Result<(bytes, bytes, nat)>)
    requires Ready(image) && !image.readOnly && image.blockSize > 0 && TreeWorks(lib, a.hashAlgorithm, a.blockSize)
    requires image.isSparse ==> RoundUp(image.imageSize, a.blockSize) % image.blockSize == 0
    modifies image
    ensures image.Sound() && image.isSparse == old(image.isSparse) && image.blockSize == old(image.blockSize)
    ensures old(image.Contents()) <= image.Contents()
    ensures r.Ok? ==> Ready(image) && (old(image.Valid()) ==> image.Valid())
    ensures r.Ok? ==> TreeBuilds(lib, a, old(image.Contents()), image.blockSize)
    ensures r.Ok? ==> image.Contents() == Grown(a, old(image.Contents()), image.blockSize)
    ensures r.Ok? ==> HashingFor(lib, a).Valid() && |image.Contents()| >= a.blockSize
    ensures r.Ok? ==> r.value == (Root(HashingFor(lib, a), image.Contents()),
                                  Built(lib, a, old(image.Contents()), image.blockSize).value,
                                  ClaimedSize(lib, a, old(image.Contents())))
    ensures TreeBuilds(lib, a, old(image.Contents()), image.blockSize) ==>
      (r.Ok? <==> Growth(a, old(image.imageSize)) == 0 || old(Takes(image, Growth(a, image.imageSize))))
    ensures r.Ok? && image.isSparse ==> |image.chunks| == old(|image.chunks|) + OneIf(Growth(a, old(image.imageSize)))
    ensures r.Ok? && old(image.Valid()) ==>
      Stepped(image, old(image.imageSize), old(|image.chunks|), FirstOf(Growth(a, old(image.imageSize))))
    ensures r.Err? && old(image.Valid()) ==>
      Repairable(image, old(image.imageSize), old(|image.chunks|), FirstOf(Growth(a, old(image.imageSize))))
    ensures old(image.Stuck()) ==> image.Stuck() && image.file == old(image.file) && image.Contents() == old(image.Contents())
  {
    hide ImageHandler.Sound, ImageHandler.Contents, BlockBytes, Root, TreeSize, MaxTreeSize, Takes, Built, Parse,
      Breaks, Rounded, Grown, Growth, RoundUp;
    WorksNonzero(lib, a.hashAlgorithm, a.blockSize);
    ghost var img := image.Contents();
    GrownSizes(a, img, image.blockSize);
    var grown := GrowAndCheck(lib, a, image);
    if grown.Err? {
      return Err(grown.error);
    }
    r := BuildRounded(lib, a, image, img);
  }

  /** The tree of the rounded image: levels first, then growing to whole blocks of the file, then hashing. */
  method BuildRounded(lib: Hashlib, a: TreeArgs, image: ImageHandler, ghost img: bytes) returns (r: Result<(bytes, bytes, nat)>)
    requires Ready(image) && !image.readOnly && image.blockSize > 0 && TreeWorks(lib, a.hashAlgorithm, a.blockSize)
    requires image.Contents() == Rounded(a, img)
    modifies image
    ensures image.Sound() && image.isSparse == old(image.isSparse) && image.blockSize == old(image.blockSize)
    ensures image.Contents() == Grown(a, img, image.blockSize)
    ensures Ready(image) && (old(image.Valid()) ==> image.Valid())
    ensures image.isSparse ==>
      image.file == old(image.file) && image.chunks == old(image.chunks) && image.imageSize == old(image.imageSize)
    ensures old(image.Stuck()) ==> image.Stuck()
    ensures r.Ok? <==> img != [] && Built(lib, a, img, image.blockSize).Ok?
    ensures r.Ok? ==> HashingFor(lib, a).Valid() && |image.Contents()| >= a.blockSize
    ensures r.Ok? ==>
      r.value == (Root(HashingFor(lib, a), image.Contents()), Built(lib, a, img, image.blockSize).value, ClaimedSize(lib, a, img))
  {
    hide ImageHandler.Contents, BlockBytes, Table, HeaderFor, Root, RoundUp, TreeSize, LevelOffsets, LevelSize,
      NumBlocks, Written, Rounded;
    GrownSizes(a, img, image.blockSize);
    HashingValid(lib, a.hashAlgorithm, a.salt, a.blockSize);
    var h := HashingFor(lib, a);
    var offsets, treeSize := CalcHashLevelOffsets(image.imageSize, a.blockSize, h.Slot());
    OffsetsInside(image.imageSize, a.blockSize, h.Slot());
    GrowToBlocks(image);
    var built := GenerateWhole(h, image, offsets, treeSize);
    if built.Err? {
      return Err(built.error);
    }
    return Ok((built.value.0, built.value.1, treeSize));
  }

  /** What the run appends first behind the grown image: the tree, or the blob if no tree is stored. */
  ghost function TailFirst(lib: Hashlib, a: TreeArgs, img: bytes, bs: nat): Option<nat>
    requires TreeWorks(lib, a.hashAlgorithm, a.blockSize) && bs > 0 && TreeBuilds(lib, a, img, bs)
  {
    if |StoredTree(lib, a, img, bs)| > 0 then Some(|StoredTree(lib, a, img, bs)|)
    else if TreeBlobOk(lib, a, img, bs) then Some(RoundUp(|TreeBlob(lib, a, img, bs)|, bs))
    else None
  }

  /** What the run appends first, if it comes that far. */
  ghost function TreeFirst(lib: Hashlib, a: TreeArgs, img: bytes, bs: nat): Option<nat>
    requires TreeWorks(lib, a.hashAlgorithm, a.blockSize) && bs > 0
  {
    if Growth(a, |img|) > 0 then Some(Growth(a, |img|))
    else if TreeBuilds(lib, a, img, bs) then TailFirst(lib, a, img, bs)
    else None
  }

  lemma FirstUnlessBuilt(lib: Hashlib, a: TreeArgs, img: bytes, bs: nat)
    requires TreeWorks(lib, a.hashAlgorithm, a.blockSize) && bs > 0
    ensures Growth(a, |img|) > 0 || !TreeBuilds(lib, a, img, bs) ==> TreeFirst(lib, a, img, bs) == FirstOf(Growth(a, |img|))
    ensures Growth(a, |img|) == 0 && TreeBuilds(lib, a, img, bs) ==> TreeFirst(lib, a, img, bs) == TailFirst(lib, a, img, bs)
  {
    hide TreeBuilds, TailFirst, Growth;
  }

  /** The checks before the image is touched. */
  predicate TreeArgsOk(lib: Hashlib, a: TreeArgs, imageSize: nat, bs: nat)
    requires bs > 0
  {
    lib.treeHashSize(a.hashAlgorithm).Some? && if a.partitionSize > 0 then a.partitionSize % bs == 0 else imageSize % bs == 0
  }

  /** On a sparse file, growing the image to whole blocks of the tree does not take whole blocks of the file. */
  ghost predicate OddGrowth(a: TreeArgs, image: ImageHandler)
    requires image.Sound()
    reads image
  {
    && image.isSparse && image.blockSize > 0 && a.blockSize > 0 && CanStrip(image)
    && RoundUp(|Strip(image.Contents())|, a.blockSize) % image.blockSize != 0
  }

  /** ... and the fields of the file take the chunk that is written nevertheless. */
  ghost predicate OddRoom(a: TreeArgs, image: ImageHandler)
    requires image.Sound() && a.blockSize > 0
    reads image
  {
    && |image.chunks| + 2 < TWO_32
    && RoundUp(|Strip(image.Contents())|, a.blockSize) < BlockBytes(TWO_32, image.blockSize)
    && !TooLong(Growth(a, |Strip(image.Contents())|))
  }

  /** The same, when there is no footer to cut off. */
  ghost predicate OddTaken(a: TreeArgs, image: ImageHandler)
    requires image.blockSize > 0 && a.blockSize > 0
    reads image
  {
    && |image.chunks| + 1 < TWO_32 && !TooLong(Growth(a, image.imageSize))
    && RoundUp(image.imageSize, a.blockSize) < BlockBytes(TWO_32, image.blockSize)
  }

  lemma OddCountsFit(image: ImageHandler, size: nat)
    requires image.Valid() && image.isSparse && image.blockSize > 0
    requires |image.chunks| + 1 < TWO_32 && image.imageSize + size < BlockBytes(TWO_32, image.blockSize)
    ensures image.CountsFit(size)
  {
    hide ImageHandler.Contents, Table, HeaderFor, BlockBytes;
    QuotientSign(size, image.blockSize);
    BlocksStayBelow(image.numTotalBlocks, size, image.blockSize);
  }

  lemma BlocksStayBelow(total: nat, size: nat, bs: nat)
    requires bs > 0 && BlockBytes(total, bs) + size < BlockBytes(TWO_32, bs)
    ensures total + size / bs < TWO_32
  {
    var q := size / bs;
    assert size == q * bs + size % bs;
    if total + q >= TWO_32 {
      Distribute(total, q, bs);
      MulMonotone(TWO_32, total + q, bs);
    }
  }

  /** Growing such an image: `append_raw` writes a chunk that it then cannot read, and the command, in trying to restore
      the image, cuts the sparse file to the size of the image it stands for. */
  method GrowOdd(a: TreeArgs, image: ImageHandler, original: nat) returns (r: Result<()>)
    requires Ready(image) && !image.readOnly && image.isSparse && image.blockSize > 0 && a.blockSize > 0
    requires original == image.imageSize && RoundUp(image.imageSize, a.blockSize) % image.blockSize != 0
    requires Parse(image.file).Ok?
    modifies image
    ensures r.Err?
    ensures Parse(image.file).Ok? <==> image.Stuck()
    ensures image.isSparse ==>
      image.Sound() && image.blockSize == old(image.blockSize) && image.Contents() == old(image.Contents())
    ensures !image.isSparse ==> |image.file| == original
    ensures old(image.Stuck()) ==> image.Stuck() && image.file == old(image.file)
    ensures old(image.Valid() && OddTaken(a, image)) ==> !image.isSparse
  {
    hide ImageHandler.Sound, ImageHandler.Contents, ImageHandler.CountsFit, BlockBytes, RoundUp, Parse, Resize;
    FlatFacts(image);
    var filling := Zeros(RoundUp(image.imageSize, a.blockSize) - image.imageSize);
    if |filling| % image.blockSize == 0 {
      MultiplesAdd(|filling|, image.imageSize, image.blockSize);
    }
    if image.Valid() && OddTaken(a, image) {
      OddCountsFit(image, |filling|);
    }
    r := image.AppendOdd(filling);
    if image.isSparse {
      var _ := image.Truncate(original);
    } else {
      r := image.TruncateUnread(original);
    }
  }

  /** Blob, hole and footer behind the tree. */
  method AppendTreeBlob(lib: Hashlib, a: TreeArgs, image: ImageHandler, descriptor: Descriptor, originalSize: nat, ghost img: bytes)
    returns (r: Result<()>)
    requires Ready(image) && !image.readOnly && image.blockSize > 0 && TreeWorks(lib, a.hashAlgorithm, a.blockSize)
    requires a.partitionSize % image.blockSize == 0 && originalSize == |img|
    requires TreeBuilds(lib, a, img, image.blockSize) && image.Contents() == WithTree(lib, a, img, image.blockSize)
    requires descriptor == TreeDescriptor(lib, a, img, image.blockSize)
    modifies image
    ensures image.Sound() && image.isSparse == old(image.isSparse) && image.blockSize == old(image.blockSize)
    ensures old(image.Contents()) <= image.Contents()
    ensures r.Ok? ==> image.Valid() && TreeAddable(lib, a, img, image.blockSize)
    ensures r.Ok? ==> image.Contents() == TreeFootered(lib, a, img, image.blockSize)
    ensures old(image.Valid()) ==>
      (r.Ok? <==> && TreeAddable(lib, a, img, image.blockSize)
                  && (image.isSparse ==> && TreeBlobFits(lib, a, img, image.blockSize)
                                         && old(HasRoom(image, TreeBlob(lib, a, img, image.blockSize), a.partitionSize))))
    ensures r.Err? && old(image.Valid()) ==>
      Repairable(image, old(image.imageSize), old(|image.chunks|),
                 if TreeBlobOk(lib, a, img, image.blockSize) then Some(RoundUp(|TreeBlob(lib, a, img, image.blockSize)|, image.blockSize))
                 else None)
    ensures old(image.Stuck()) ==>
      r.Err? && image.Stuck() && image.file == old(image.file) && image.Contents() == old(image.Contents())
  {
    hide ImageHandler.Sound, ImageHandler.Contents, BlockBytes, BlobOk, BlobOf, ChainsOk, PropsOk, WithFooter,
      FooterInRange, WithTree, TreeDescriptor, Minor, TreeWorks, MaxTreeSize, Rounded, Built, StoredTree, RoundUp,
      Parse, Breaks;
    FlatFacts(image);
    if image.isSparse && image.Valid() {
      StillParses(image);
    }
    var blob := GenerateBlob([descriptor], a.options, Minor(a));
    if blob.Err? {
      return Err(blob.error);
    }
    BlobStart([descriptor], a.options, Minor(a));
    WithTreeAligned(lib, a, img, image.blockSize);
    if a.partitionSize > 0 && !image.isSparse {
      TreeFits(lib, a, img, image.blockSize);
    }
    r := AppendVBMeta(image, blob.value, originalSize, a.partitionSize);
  }

  lemma WithTreeAligned(lib: Hashlib, a: TreeArgs, img: bytes, bs: nat)
    requires TreeWorks(lib, a.hashAlgorithm, a.blockSize) && bs > 0 && img != [] && Built(lib, a, img, bs).Ok?
    ensures |WithTree(lib, a, img, bs)| % bs == 0
  {
    hide TreeWorks, Built, StoredTree, Grown;
    WorksNonzero(lib, a.hashAlgorithm, a.blockSize);
    StoredSize(lib, a, img, bs);
    GrownSizes(a, img, bs);
    MultiplesAdd(|Grown(a, img, bs)|, |StoredTree(lib, a, img, bs)|, bs);
  }

  /** The part after the tree was built: tree, blob, hole, footer. */
  method AppendTreeAndBlob(lib: Hashlib, a: TreeArgs, image: ImageHandler, root: bytes, tree: bytes, treeSize: nat,
      originalSize: nat, ghost img: bytes)
    returns (r: Result<()>)
    requires Ready(image) && !image.readOnly && image.blockSize > 0 && TreeWorks(lib, a.hashAlgorithm, a.blockSize)
    requires a.partitionSize % image.blockSize == 0 && originalSize == |img|
    requires TreeBuilds(lib, a, img, image.blockSize) && image.Contents() == Grown(a, img, image.blockSize)
    requires HashingFor(lib, a).Valid() && |image.Contents()| >= a.blockSize && root == Root(HashingFor(lib, a), image.Contents())
    requires tree == Built(lib, a, img, image.blockSize).value && treeSize == ClaimedSize(lib, a, img)
    modifies image
    ensures image.Sound() && image.isSparse == old(image.isSparse) && image.blockSize == old(image.blockSize)
    ensures old(image.Contents()) <= image.Contents()
    ensures r.Ok? ==> image.Valid() && TreeAddable(lib, a, img, image.blockSize)
    ensures r.Ok? ==> image.Contents() == TreeFootered(lib, a, img, image.blockSize)
    ensures old(image.Valid()) ==>
      (r.Ok? <==> && TreeAddable(lib, a, img, image.blockSize)
                  && (image.isSparse ==> && TailFits(lib, a, img, image.blockSize)
                                         && old(|image.chunks|) + TailChunks(lib, a, img, image.blockSize) < TWO_32))
    ensures r.Err? && old(image.Valid()) ==>
      Repairable(image, old(image.imageSize), old(|image.chunks|), TailFirst(lib, a, img, image.blockSize))
    ensures old(image.Stuck()) ==>
      r.Err? && image.Stuck() && image.file == old(image.file) && image.Contents() == old(image.Contents())
  {
    hide ImageHandler.Sound, ImageHandler.Contents, BlockBytes, Root, RoundUp, Built, TreeAddable, TreeFootered,
      TreeBlobFits, TreeDescriptor, DescriptorFor, Grown, HashingFor, RoundToPow2, FieldsHold, TreeBlobOk, TreeBlob,
      TreeWorks, MaxTreeSize, Rounded, Parse, Breaks, ClaimedSize, TreeFootered, StoredTree, WithTree;
    var stored := if a.noHashtree then [] else tree;
    var descriptor := DescriptorFor(a, image.imageSize, if a.noHashtree then 0 else treeSize, root);
    DescribedBy(lib, a, img, image.blockSize, root);
    FlatFacts(image);
    WorksNonzero(lib, a.hashAlgorithm, a.blockSize);
    GrownSizes(a, img, image.blockSize);
    var padded := GrownToBlocks(stored, image.blockSize);
    StoredIs(lib, a, img, image.blockSize, stored);
    if image.Valid() {
      StoredTaken(lib, a, image, img);
    }
    if !image.isSparse {
      WholeBlockAtLeast(image.imageSize, image.blockSize);
      MagicStays(image.file, padded);
    }
    r := AppendSome(image, padded, true);
    if r.Err? {
      return;
    }
    r := AppendTreeBlob(lib, a, image, descriptor, originalSize, img);
  }

  /** The tree is taken if everything fits, and only if it fits its own fields. */
  lemma StoredTaken(lib: Hashlib, a: TreeArgs, image: ImageHandler, img: bytes)
    requires TreeWorks(lib, a.hashAlgorithm, a.blockSize) && image.blockSize > 0 && image.Valid()
    requires TreeBuilds(lib, a, img, image.blockSize) && image.Contents() == Grown(a, img, image.blockSize)
    ensures var bs := image.blockSize;
      && (TreeAddable(lib, a, img, bs)
          && (image.isSparse ==> TailFits(lib, a, img, bs) && |image.chunks| + TailChunks(lib, a, img, bs) < TWO_32) ==>
            Takes(image, |StoredTree(lib, a, img, bs)|))
      && (image.isSparse && (|StoredTree(lib, a, img, bs)| == 0 || Takes(image, |StoredTree(lib, a, img, bs)|)) ==>
            !TooLong(|StoredTree(lib, a, img, bs)|))
  {
    hide BlockBytes, RoundUp, Built, TreeBlobOk, TreeBlob, TreeWorks, ImageHandler.Contents, ImageHandler.Sound,
      Rounded, Grown, StoredTree, SizeFits, TreeBuilds, TailChunks, FooterInRange;
    var bs := image.blockSize;
    if TreeAddable(lib, a, img, bs)
       && (image.isSparse ==> TailFits(lib, a, img, bs) && |image.chunks| + TailChunks(lib, a, img, bs) < TWO_32) {
      TakesTree(lib, a, image, img);
    }
  }

  lemma DescribedBy(lib: Hashlib, a: TreeArgs, img: bytes, bs: nat, root: bytes)
    requires TreeWorks(lib, a.hashAlgorithm, a.blockSize) && bs > 0 && img != []
    requires HashingFor(lib, a).Valid() && |Grown(a, img, bs)| >= a.blockSize && root == Root(HashingFor(lib, a), Grown(a, img, bs))
    ensures TreeDescriptor(lib, a, img, bs)
         == DescriptorFor(a, |Grown(a, img, bs)|, if a.noHashtree then 0 else ClaimedSize(lib, a, img), root)
  {
    hide Root, Grown, HashingFor, ClaimedSize, DescriptorFor;
  }

  lemma StoredIs(lib: Hashlib, a: TreeArgs, img: bytes, bs: nat, stored: bytes)
    requires TreeWorks(lib, a.hashAlgorithm, a.blockSize) && bs > 0 && img != [] && Built(lib, a, img, bs).Ok?
    requires stored == if a.noHashtree then [] else Built(lib, a, img, bs).value
    ensures GrownToBlocks(stored, bs) == StoredTree(lib, a, img, bs)
    ensures WithTree(lib, a, img, bs) == Grown(a, img, bs) + StoredTree(lib, a, img, bs)
  {
    hide Built, Grown, RoundUp;
    RoundUpLeast(0, bs, 0);
  }

  /** A sparse file with `chunks` chunks has room for those of the run. */
  ghost predicate TreeChunksFit(lib: Hashlib, a: TreeArgs, img: bytes, bs: nat, chunks: nat)
    requires TreeWorks(lib, a.hashAlgorithm, a.blockSize) && bs > 0 && TreeBuilds(lib, a, img, bs)
  {
    chunks + OneIf(Growth(a, |img|)) + TailChunks(lib, a, img, bs) < TWO_32
  }

  /** What the image is grown by is taken if everything fits, and only if it fits its own fields. */
  lemma GrowthTaken(lib: Hashlib, a: TreeArgs, image: ImageHandler)
    requires TreeWorks(lib, a.hashAlgorithm, a.blockSize) && image.blockSize > 0 && image.Valid()
    ensures var img, bs := image.Contents(), image.blockSize;
      && (TreeAddable(lib, a, img, bs)
          && (image.isSparse ==> FitsSparseTree(lib, a, img, bs) && TreeChunksFit(lib, a, img, bs, |image.chunks|)) ==>
            Takes(image, Growth(a, image.imageSize)))
      && (image.isSparse && (Growth(a, |img|) == 0 || Takes(image, Growth(a, image.imageSize))) ==> !TooLong(Growth(a, |img|)))
  {
    hide BlockBytes, RoundUp, Built, TreeBlobOk, TreeBlob, TreeWorks, ImageHandler.Contents, ImageHandler.Sound,
      StoredTree, SizeFits, TreeBuilds, TailChunks, FooterInRange, FitsSparseTree, Growth;
    var img, bs := image.Contents(), image.blockSize;
    if TreeAddable(lib, a, img, bs)
       && (image.isSparse ==> FitsSparseTree(lib, a, img, bs) && TreeChunksFit(lib, a, img, bs, |image.chunks|)) {
      TakesGrowth(lib, a, image);
    }
  }

  /** The guarded part of `add_hashtree_footer`. */
  method TreeBody(lib: Hashlib, a: TreeArgs, image: ImageHandler) returns (r: Result<()>)
    requires Ready(image) && !image.readOnly && image.blockSize > 0 && TreeWorks(lib, a.hashAlgorithm, a.blockSize)
    requires image.isSparse ==> RoundUp(image.imageSize, a.blockSize) % image.blockSize == 0
    requires a.partitionSize % image.blockSize == 0
    modifies image
    ensures image.Sound() && image.isSparse == old(image.isSparse) && image.blockSize == old(image.blockSize)
    ensures old(image.Contents()) <= image.Contents()
    ensures r.Ok? ==> image.Valid() && TreeAddable(lib, a, old(image.Contents()), image.blockSize)
    ensures r.Ok? ==> image.Contents() == TreeFootered(lib, a, old(image.Contents()), image.blockSize)
    ensures old(image.Valid()) ==>
      (r.Ok? <==> && TreeAddable(lib, a, old(image.Contents()), image.blockSize)
                  && (image.isSparse ==> && FitsSparseTree(lib, a, old(image.Contents()), image.blockSize)
                                         && TreeChunksFit(lib, a, old(image.Contents()), image.blockSize, old(|image.chunks|))))
    ensures r.Err? && old(image.Valid()) ==>
      Repairable(image, old(image.imageSize), old(|image.chunks|), TreeFirst(lib, a, old(image.Contents()), image.blockSize))
    ensures old(image.Stuck()) ==>
      r.Err? && image.Stuck() && image.file == old(image.file) && image.Contents() == old(image.Contents())
  {
    hide ImageHandler.Sound, ImageHandler.Contents, BlockBytes, Root, TreeBuilds, TreeFootered, TreeBlobOk, Grown,
      Growth, Parse, Breaks, HashingFor, TreeBlob, FooterInRange, TreeWorks, TailFits, TreeBlobFits, TreeFootered,
      Built, ClaimedSize, TailFirst, WithTree, RoundUp, Takes, TailChunks;
    WorksNonzero(lib, a.hashAlgorithm, a.blockSize);
    ghost var img := image.Contents();
    if image.Valid() {
      GrowthTaken(lib, a, image);
    }
    var originalSize := image.imageSize;
    var built := BuildTree(lib, a, image);
    if built.Err? {
      FirstUnlessBuilt(lib, a, img, image.blockSize);
      return Err(built.error);
    }
    r := AppendTreeAndBlob(lib, a, image, built.value.0, built.value.1, built.value.2, originalSize, img);
  }

  /** What such a run leaves: the file is the sparse file it was, without a footer, only if the handler's counts have
      left their fields; otherwise it cannot be opened again, and unless the length alone is at fault it was cut or grown
      to the size of the image. */
  ghost predicate OddLeft(image: ImageHandler, size: nat)
    reads image
  {
    && (Parse(image.file).Ok? <==> image.Stuck())
    && if image.isSparse then image.Sound() else |image.file| == size
  }

  /** `add_hashtree_footer` from cutting off an existing footer on. */
  method StripAndBuild(lib: Hashlib, a: TreeArgs, image: ImageHandler) returns (r: Result<()>)
    requires image.Valid() && !image.readOnly && image.blockSize > 0 && TreeWorks(lib, a.hashAlgorithm, a.blockSize)
    requires a.partitionSize % image.blockSize == 0
    modifies image
    ensures !old(OddGrowth(a, image)) ==>
      image.Sound() && image.isSparse == old(image.isSparse) && image.blockSize == old(image.blockSize)
    ensures !old(CanStrip(image)) ==> r.Err? && image.file == old(image.file) && image.Contents() == old(image.Contents())
    ensures old(OddGrowth(a, image)) ==>
      && r.Err? && OddLeft(image, |Strip(old(image.Contents()))|)
      && (image.isSparse ==> image.Contents() == Strip(old(image.Contents())))
      && (old(OddRoom(a, image)) ==> !image.isSparse)
    ensures old(CanStrip(image) && !OddGrowth(a, image)) ==>
      var img, bs := Strip(old(image.Contents())), image.blockSize;
      && (r.Ok? ==> image.Valid() && TreeAddable(lib, a, img, bs) && image.Contents() == TreeFootered(lib, a, img, bs))
      && (r.Ok? && image.isSparse ==> FitsSparseTree(lib, a, img, bs))
      && (r.Err? ==> image.Contents() == img)
      && (r.Err? && image.isSparse ==>
            (Parse(image.file).Ok? <==> !FirstBreaks(TreeFirst(lib, a, img, bs), image.imageSize, |image.chunks|, bs)))
      && ((image.isSparse ==> old(|image.chunks|) + 6 < TWO_32) ==>
            (r.Ok? <==> TreeAddable(lib, a, img, bs) && (image.isSparse ==> FitsSparseTree(lib, a, img, bs))))
  {
    hide ImageHandler.Contents, ImageHandler.Sound, BlockBytes, Strip, TreeFootered, TreeAddable, CanStrip, TreeWorks,
      FooterOf, FitsSparseTree, TreeFirst, Breaks, Parse, RoundUp;
    WorksNonzero(lib, a.hashAlgorithm, a.blockSize);
    if image.isSparse {
      StillParses(image);
    }
    var original :- StripFooter(image);
    ghost var img, chunks := image.Contents(), |image.chunks|;
    ghost var first := TreeFirst(lib, a, img, image.blockSize);
    FlatFacts(image);
    if image.isSparse && RoundUp(image.imageSize, a.blockSize) % image.blockSize != 0 {
      if image.Valid() {
        StillParses(image);
      }
      r := GrowOdd(a, image, original);
      return;
    }
    r := TreeBody(lib, a, image);
    if r.Err? {
      Restore(image, original, img, chunks, first);
      return Err(AvbError);
    }
  }

  /** `add_hashtree_footer` without FEC, when the blob is to be appended. Whatever goes wrong after an existing footer
      was cut off, the image is left as it was without a footer; a sparse file it is stored in can then be opened again,
      unless the first thing to append was so long that it broke the header. The exception is a sparse file whose image
      does not grow to whole blocks of the tree by whole blocks of the file: that file is lost. For a tree whose padded
      digests are larger than half a block the level computation does not end: see `HashTree.LoopEnds`. */
  method AddHashtreeFooter(lib: Hashlib, a: TreeArgs, image: ImageHandler) returns (r: Result<()>)
    requires image.Valid() && !image.readOnly && lib.Valid() && image.blockSize > 0
    requires lib.treeHashSize(a.hashAlgorithm).Some? ==> TreeWorks(lib, a.hashAlgorithm, a.blockSize)
    modifies image
    ensures !(old(TreeArgsOk(lib, a, image.imageSize, image.blockSize) && OddGrowth(a, image))) ==>
      image.Sound() && image.isSparse == old(image.isSparse) && image.blockSize == old(image.blockSize)
    ensures !(old(TreeArgsOk(lib, a, image.imageSize, image.blockSize) && CanStrip(image))) ==>
      r.Err? && image.file == old(image.file) && image.Contents() == old(image.Contents())
    ensures old(TreeArgsOk(lib, a, image.imageSize, image.blockSize) && OddGrowth(a, image)) ==>
      && r.Err? && OddLeft(image, |Strip(old(image.Contents()))|)
      && (image.isSparse ==> image.Contents() == Strip(old(image.Contents())))
      && (old(OddRoom(a, image)) ==> !image.isSparse)
    ensures old(TreeArgsOk(lib, a, image.imageSize, image.blockSize) && CanStrip(image) && !OddGrowth(a, image)) ==>
      var img, bs := Strip(old(image.Contents())), image.blockSize;
      && (r.Ok? ==> image.Valid() && TreeAddable(lib, a, img, bs) && image.Contents() == TreeFootered(lib, a, img, bs))
      && (r.Ok? && image.isSparse ==> FitsSparseTree(lib, a, img, bs))
      && (r.Err? ==> image.Contents() == img)
      && (r.Err? && image.isSparse ==>
            (Parse(image.file).Ok? <==> !FirstBreaks(TreeFirst(lib, a, img, bs), image.imageSize, |image.chunks|, bs)))
      && ((image.isSparse ==> old(|image.chunks|) + 6 < TWO_32) ==>
            (r.Ok? <==> TreeAddable(lib, a, img, bs) && (image.isSparse ==> FitsSparseTree(lib, a, img, bs))))
  {
    hide ImageHandler.Contents, ImageHandler.Sound, BlockBytes, Strip, TreeFootered, TreeAddable, CanStrip, TreeWorks,
      FooterOf, FitsSparseTree, TreeFirst, FirstBreaks, Parse, RoundUp;
    if lib.treeHashSize(a.hashAlgorithm).None? {
      return Err(ValueError);
    }
    if a.partitionSize > 0 {
      if a.partitionSize % image.blockSize != 0 {
        return Err(AvbError);
      }
    } else if image.imageSize % image.blockSize != 0 {
      return Err(AvbError);
    }
    r := StripAndBuild(lib, a, image);
  }
}
