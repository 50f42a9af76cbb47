/** Concrete inputs of tools/avbtool for which a blob is cut, a file is lost, or an image just written does not verify. */
module Counterexamples {
  import opened Bytes
  import opened Results
  import opened Struct
  import opened SparseFormat
  import opened SparseImage
  import opened Descriptors
  import opened VBMeta
  import opened Blob
  import opened FooterOps
  import opened FooterEdits
  import opened HashTree
  import opened Merkle
  import opened HashtreeFooter
  import opened HashtreeLaws
  import opened Verify
  import opened VerifyLaws
  import SparseRun

  // ---------------------------------------------------------------- blobs of a given size

  /** No options but `n` bytes of public key metadata. */
  function MetadataOnly(n: nat): Options { Options([], 0, 0, 0, [], [], [], Zeros(n), None, None) }

  lemma OnlyOne(d: Descriptor, n: nat)
    ensures ChainsOk(MetadataOnly(n)) && PropsOk(MetadataOnly(n)) && AllDescriptors([d], MetadataOnly(n)) == [d]
  {
    var o := MetadataOnly(n);
    var dict := Dict(Flat(o.included));
    assert dict.Keys == {};
    ListedKeys(SortedListing(dict.Keys), dict.Keys);
  }

  /** The blob of a single descriptor: a header, the descriptor and the metadata, in multiples of 64 bytes. */
  lemma MetadataBlob(lib: Hashlib, d: Descriptor, n: nat, minor: nat)
    requires Encode(d).Ok? && |Encoded(d)| <= 1000 && n < TWO_32 && minor < TWO_32
    ensures BlobOk([d], MetadataOnly(n), minor)
    ensures VBMETA_HEADER_SIZE + n <= |BlobOf([d], MetadataOnly(n), minor)| <= VBMETA_HEADER_SIZE + n + 1064
    ensures Canonical(lib, d) ==> Readable(lib, [d], MetadataOnly(n))
  {
    hide ChainsOk, PropsOk, AllDescriptors, RoundUp, Canonical, Encoded, Encode, BlobOf, HeaderOf, HeaderInRange, EncodeAll, ReleaseFits;
    var o := MetadataOnly(n);
    OnlyOne(d, n);
    EncodedIs(d);
    NothingToEncode(minor);
    HeaderIsFine(Encoded(d), n, minor);
    BlobSize([d], o, minor);
    ReleaseIsFine();
  }

  lemma HeaderIsFine(encoded: bytes, n: nat, minor: nat)
    requires |encoded| <= 1000 && n < TWO_32 && minor < TWO_32
    ensures var h := HeaderOf(encoded, MetadataOnly(n), minor);
      HeaderInRange(h) && h.authSize == 0 && n <= h.auxSize <= n + 1064
  {
  }

  lemma NothingToEncode(minor: nat)
    ensures Flat([]) == [] && Encodable([]) && BumpAll(minor, []) == minor
  {
  }

  lemma ReleaseIsFine()
    ensures ReleaseFits(RELEASE_STRING) && RELEASE_STRING + [] == RELEASE_STRING
  {
    AsciiIsUtf8(RELEASE_STRING);
  }

  lemma {:induction false} AsciiIsUtf8(s: bytes)
    requires Ascii(s)
    ensures Utf8(s)
  {
    if s != [] {
      AsciiIsUtf8(s[1..]);
    }
  }

  /** How long hash and hashtree descriptors are. */
  lemma DescriptorSize(d: Descriptor)
    requires (d.Hash? || d.Hashtree?) && |d.partitionName| + |d.salt| <= 64
    requires d.Hash? ==> |d.digest| <= 64
    requires d.Hashtree? ==> |d.rootDigest| <= 64
    ensures |Encoded(d)| <= 400
  {
    hide Fields, Encoded, Format;
    EncodedLayout(d);
  }

  /** A known algorithm with digests of the given size, and a name that can be written. */
  predicate Known(lib: Hashlib, alg: bytes, size: nat) {
    Ascii(alg) && FitsField(alg) && lib.hashSize(alg) == Some(size) && size <= 64
  }

  // ---------------------------------------------------------------- hash footers

  /** An unnamed partition of 73728 bytes with `n` bytes of metadata. */
  function HashArgsFor(alg: bytes, n: nat): HashArgs {
    HashArgs(73728, false, [], alg, [], false, false, MetadataOnly(n))
  }

  /** One block can be given such a footer. */
  lemma HashAddable(lib: Hashlib, alg: bytes, size: nat, n: nat, img: bytes)
    requires lib.Valid() && Known(lib, alg, size) && n < TWO_32 && |img| == DEFAULT_BLOCK_SIZE
    ensures var a := HashArgsFor(alg, n);
      && ArgsOk(a) && Addable(lib, a, img, DEFAULT_BLOCK_SIZE) && HashReadable(lib, a, img)
      && VBMETA_HEADER_SIZE + n <= |HashBlob(lib, a, img)| <= VBMETA_HEADER_SIZE + n + 1064
  {
    hide BlobOk, BlobOf, AllDescriptors, Blob.Readable, Encoded, ChainsOk, PropsOk;
    var a := HashArgsFor(alg, n);
    var d := HashOf(lib, a, img);
    DescriptorSize(d);
    OnlyOne(d, n);
    HashIsFine(lib, d);
    MetadataBlob(lib, d, n, RequiredMinor(a));
    RoundUpIs(DEFAULT_BLOCK_SIZE, DEFAULT_BLOCK_SIZE, DEFAULT_BLOCK_SIZE);
  }

  lemma HashIsFine(lib: Hashlib, d: Descriptor)
    requires d.Hash? && d.imageSize == DEFAULT_BLOCK_SIZE && d.partitionName == [] && d.salt == [] && d.flags < TWO_32
    requires Known(lib, d.hashAlgorithm, |d.digest|)
    ensures Encode(d).Ok? && Canonical(lib, d)
  {
  }

  /** 70000 bytes of metadata: the image is accepted, and its blob does not fit the partition. So a flat file gets a
      footer behind a blob that was cut, and a sparse file with the same image is refused. */
  lemma HashBlobIsCut(lib: Hashlib, alg: bytes, size: nat, img: bytes)
    requires lib.Valid() && Known(lib, alg, size) && |img| == DEFAULT_BLOCK_SIZE
    ensures BlobIsCut(lib, HashArgsFor(alg, 70000), img)
  {
    hide Addable, HashReadable, HashBlobOk, HashBlob, ArgsOk, RoundUp;
    HashAddable(lib, alg, size, 70000, img);
    AddableBlob(lib, HashArgsFor(alg, 70000), img, DEFAULT_BLOCK_SIZE);
  }

  /** A digest of one byte: the first one. */
  const FIRST_BYTE: Hashlib :=
    Hashlib(name => Some(1), (name, data) => [if data == [] then 0 else data[0]], name => None, (name, data) => [])

  /** An image that does not start with zero. */
  const ONE_THEN_ZEROS: bytes := [1] + Zeros(4095)

  /** An unnamed image that was just given a footer does not verify: its digest is compared with that of the zeros that
      stand behind the blob. */
  lemma UnnamedDoesNotVerify(env: Env, expected: Chains, follow: bool)
    requires env.key.None?
    ensures var a := HashArgsFor([0x61], 0);
      && Addable(FIRST_BYTE, a, ONE_THEN_ZEROS, DEFAULT_BLOCK_SIZE)
      && !Verifies(FIRST_BYTE, env, expected, Some(Whole(HashFootered(FIRST_BYTE, a, ONE_THEN_ZEROS, DEFAULT_BLOCK_SIZE))), follow)
  {
    hide Addable, HashReadable, HashBlobOk, HashBlob, HashFootered, Verifies, RoundUp, ReadsItself, OthersPass, ParseImage;
    var a := HashArgsFor([0x61], 0);
    HashAddable(FIRST_BYTE, [0x61], 1, 0, ONE_THEN_ZEROS);
    SmallBlobFits(FIRST_BYTE, a, ONE_THEN_ZEROS);
    HashFooterVerifies(FIRST_BYTE, env, expected, a, ONE_THEN_ZEROS, DEFAULT_BLOCK_SIZE, follow);
    ZerosBehindBlob();
  }

  lemma ZerosBehindBlob()
    ensures var a := HashArgsFor([0x61], 0);
      HashBlobOk(FIRST_BYTE, a, ONE_THEN_ZEROS) && !ReadsItself(FIRST_BYTE, a, ONE_THEN_ZEROS, DEFAULT_BLOCK_SIZE)
  {
    hide Addable, HashReadable, HashBlobOk, HashBlob, HashFootered, RoundUp, Clip;
    var a := HashArgsFor([0x61], 0);
    HashAddable(FIRST_BYTE, [0x61], 1, 0, ONE_THEN_ZEROS);
    AddableBlob(FIRST_BYTE, a, ONE_THEN_ZEROS, DEFAULT_BLOCK_SIZE);
    ZeroBehindBlob();
    var behind := BehindBlob(FIRST_BYTE, a, ONE_THEN_ZEROS, DEFAULT_BLOCK_SIZE);
    assert [] + behind == behind && [] + ONE_THEN_ZEROS == ONE_THEN_ZEROS;
  }

  lemma ZeroBehindBlob()
    ensures var a, bs := HashArgsFor([0x61], 0), DEFAULT_BLOCK_SIZE;
      HashBlobOk(FIRST_BYTE, a, ONE_THEN_ZEROS) && BehindBlob(FIRST_BYTE, a, ONE_THEN_ZEROS, bs) != []
      && BehindBlob(FIRST_BYTE, a, ONE_THEN_ZEROS, bs)[0] == 0
  {
    hide Addable, HashReadable, HashBlobOk, HashBlob, HashFootered, RoundUp, FooterBlock;
    var a, bs := HashArgsFor([0x61], 0), DEFAULT_BLOCK_SIZE;
    HashAddable(FIRST_BYTE, [0x61], 1, 0, ONE_THEN_ZEROS);
    AddableBlob(FIRST_BYTE, a, ONE_THEN_ZEROS, bs);
    SmallBlobFits(FIRST_BYTE, a, ONE_THEN_ZEROS);
    HashFooteredLayout(FIRST_BYTE, a, ONE_THEN_ZEROS);
    RoundUpIs(4096, bs, 4096);
    var blob := HashBlob(FIRST_BYTE, a, ONE_THEN_ZEROS);
    RoundUpIs(|blob|, bs, 4096);
    var last := FooterBlock(NewFooter(4096, 4096, |blob|), bs);
    FooterStartsWithZeros(NewFooter(4096, 4096, |blob|));
    ZeroAfter(ONE_THEN_ZEROS + Zeros(0) + blob, 4096 - |blob|, 73728 - bs - 8192, last);
  }

  lemma FooterStartsWithZeros(f: Footer)
    ensures |FooterBlock(f, DEFAULT_BLOCK_SIZE)| >= 4032 && FooterBlock(f, DEFAULT_BLOCK_SIZE)[0] == 0
  {
    hide FooterFields;
  }

  lemma ZeroAfter(front: bytes, m: nat, n: nat, last: bytes)
    requires last != [] && last[0] == 0
    ensures (front + Zeros(m) + Zeros(n) + last)[|front|] == 0
  {
  }

  // ---------------------------------------------------------------- hashtree footers

  /** Tree blocks of 2048 bytes, a partition of 81920 and 62000 bytes of metadata. */
  function TreeArgsFor(alg: bytes): TreeArgs {
    TreeArgs(81920, [], alg, 2048, [], false, false, false, false, MetadataOnly(62000))
  }

  predicate KnownTree(lib: Hashlib, alg: bytes) { Ascii(alg) && FitsField(alg) && lib.treeHashSize(alg) == Some(32) }

  lemma TreeArgsWork(lib: Hashlib, alg: bytes)
    requires lib.Valid() && KnownTree(lib, alg)
    ensures TreeWorks(lib, alg, 2048)
  {
    Slots();
  }

  /** A blob of at most 64 KiB that is cut although the image is accepted. */
  lemma TreeBlobIsCutBelow64KiB(lib: Hashlib, alg: bytes, img: bytes)
    requires lib.Valid() && KnownTree(lib, alg) && |img| == 10240
    ensures TreeWorks(lib, alg, 2048)
    ensures var a, bs := TreeArgsFor(alg), DEFAULT_BLOCK_SIZE;
      && TreeArgsOk(lib, a, |img|, bs) && TreeAddable(lib, a, img, bs)
      && 61440 < |TreeBlob(lib, a, img, bs)| <= MAX_VBMETA_SIZE && !TreeBlobFits(lib, a, img, bs)
  {
    hide TreeWorks, BlobOk, BlobOf, TreeDescriptor, Encoded, TreeBlobFits, TreeBuilds, WithTree, Grown, SameLevels, Minor;
    var a, bs := TreeArgsFor(alg), DEFAULT_BLOCK_SIZE;
    TreeArgsWork(lib, alg);
    BlobOf64KiBIsCut(lib, a, img);
    var d := TreeDescriptor(lib, a, img, bs);
    TreeIsFine(lib, alg, img);
    MetadataBlob(lib, d, 62000, Minor(a));
  }

  lemma TreeIsFine(lib: Hashlib, alg: bytes, img: bytes)
    requires lib.Valid() && KnownTree(lib, alg) && |img| == 10240
    ensures TreeWorks(lib, alg, 2048)
    ensures var a, d := TreeArgsFor(alg), TreeDescriptor(lib, TreeArgsFor(alg), img, DEFAULT_BLOCK_SIZE);
      Encode(d).Ok? && |Encoded(d)| <= 1000 && Minor(a) < TWO_32
  {
    hide Encoded, Grown, Rounded, TreeSize, Root, RoundUp;
    TreeArgsWork(lib, alg);
    var a := TreeArgsFor(alg);
    DescribedTree(lib, a, img, DEFAULT_BLOCK_SIZE);
    SizesAre(a, img);
    SmallTrees();
    Slots();
    RootSize(HashingFor(lib, a), Grown(a, img, DEFAULT_BLOCK_SIZE));
    DescriptorSize(TreeDescriptor(lib, a, img, DEFAULT_BLOCK_SIZE));
  }

  lemma {:induction false} RootSize(h: Hashing, src: bytes)
    requires h.Valid() && |src| >= h.bs
    ensures |Root(h, src)| == h.digestSize
    decreases NumBlocks(|src|, h.bs)
  {
    if |src| > h.bs {
      TreeStep(h, src);
      RootSize(h, Level(h, src));
    }
  }

  /** Tree blocks of 5000 bytes and a sparse file of one block of 4096: the file is lost. */
  method OddBlocksLoseFile(lib: Hashlib, a: TreeArgs) returns (r: Result<()>, file: bytes)
    requires lib.Valid() && lib.treeHashSize(a.hashAlgorithm) == Some(32)
    requires a.blockSize == 5000 && a.partitionSize % DEFAULT_BLOCK_SIZE == 0
    ensures Parse(SparseRun.OneBlock()).Ok? && r.Err? && Parse(file).Err? && |file| == 4096
  {
    hide Parse, Table, Expand, HeaderFor, ImageHandler.Sound, ImageHandler.Contents, RoundUp, TreeWorks, OddGrowth, OddRoom,
      SparseRun.OneBlock, CanStrip, Strip, TreeFirst, FitsSparseTree, TreeAddable, TreeFootered;
    SparseRun.OneBlockIsSparse();
    TreesOf5000(lib, a);
    var image := SparseRun.OpenOneBlock();
    SparseRun.OneBlockHandled(image);
    OneBlockIsOdd(a, image);
    r := AddHashtreeFooter(lib, a, image);
    file := image.file;
  }

  lemma TreesOf5000(lib: Hashlib, a: TreeArgs)
    requires lib.Valid() && lib.treeHashSize(a.hashAlgorithm) == Some(32) && a.blockSize == 5000
    ensures TreeWorks(lib, a.hashAlgorithm, a.blockSize)
  {
    Slots();
  }

  lemma OneBlockIsOdd(a: TreeArgs, image: ImageHandler)
    requires image.Valid() && image.isSparse && image.blockSize == 4096 && image.imageSize == 4096 && |image.chunks| == 1
    requires image.Contents() == Zeros(4096) && a.blockSize == 5000
    ensures Strip(image.Contents()) == Zeros(4096) && OddGrowth(a, image) && OddRoom(a, image)
  {
    hide RoundUp, Table, Expand, HeaderFor, FooterOf, ImageHandler.Sound, ImageHandler.Contents;
    ZerosAreNoFooter();
    RoundUpIs(4096, 5000, 5000);
  }

  lemma ZerosAreNoFooter()
    ensures FooterOf(Zeros(4096)).None?
  {
    assert Zeros(4096)[4032..][0] == 0;
  }

  // ---------------------------------------------------------------- resizing

  /** A header without descriptors, and a footer that points to an empty blob at the start. */
  function EmptyBlobImage(): bytes {
    Join(HeaderFields(DEFAULT_HEADER)) + FooterBlock(NewFooter(0, 0, 0), DEFAULT_BLOCK_SIZE)
  }

  lemma EmptyBlobParts()
    ensures var img := EmptyBlobImage();
      && Clip(img, 0, VBMETA_HEADER_SIZE) == Join(HeaderFields(DEFAULT_HEADER)) && FooterOf(img) == Some(NewFooter(0, 0, 0))
      && |img| >= VBMETA_HEADER_SIZE && img[0] == VBMETA_MAGIC[0]
  {
    hide HeaderFields, FooterBlock, ParseHeader, FooterFields, FooterOf;
    var header, f := Join(HeaderFields(DEFAULT_HEADER)), NewFooter(0, 0, 0);
    HeaderRoundTrip(DEFAULT_HEADER);
    HeaderStart(DEFAULT_HEADER);
    FooterFound(header, f, DEFAULT_BLOCK_SIZE);
    var img := EmptyBlobImage();
    assert img[..4] == header[..4] && img[0] == img[..4][0];
  }

  lemma EmptyBlobParses(lib: Hashlib)
    ensures var p := ParseImage(lib, EmptyBlobImage());
      p.Ok? && p.value.footer == Some(NewFooter(0, 0, 0)) && BlobEnd(NewFooter(0, 0, 0), DEFAULT_BLOCK_SIZE) == 0
  {
    hide EmptyBlobImage, HeaderFields, ParseHeader, FooterOf, RoundUp, Clip, ParseAt;
    EmptyBlobParts();
    HeaderRoundTrip(DEFAULT_HEADER);
    ReleaseIsFine();
    HeaderAlone(lib, EmptyBlobImage(), DEFAULT_HEADER);
    RoundUpLeast(0, DEFAULT_BLOCK_SIZE, 0);
  }

  lemma HeaderAlone(lib: Hashlib, img: bytes, h: Header)
    requires ParseHeader(Clip(img, 0, VBMETA_HEADER_SIZE)) == Ok(h) && h.descriptors.size == 0
    ensures ParseAt(lib, img, 0) == Ok((h, []))
  {
    hide ParseHeader;
  }

  /** Resizing that image, to any number of whole blocks, fails and leaves an empty file. */
  method ResizeToNothing(lib: Hashlib, image: ImageHandler, partitionSize: nat) returns (r: Result<()>)
    requires image.Valid() && !image.readOnly && !image.isSparse && image.file == EmptyBlobImage()
    requires partitionSize % DEFAULT_BLOCK_SIZE == 0 && partitionSize > 0
    modifies image
    ensures r.Err? && image.Sound() && image.Contents() == []
  {
    hide ImageHandler.Sound, ImageHandler.Contents, ParseImage, ParseThrough, EmptyBlobImage, RoundUp, Resized;
    FlatFacts(image);
    EmptyBlobParses(lib);
    WholeBlockAtLeast(partitionSize, DEFAULT_BLOCK_SIZE);
    r := ResizeImage(lib, image, partitionSize);
  }
}
