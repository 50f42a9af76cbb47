/** What `verify_image` says about the images the other commands of tools/avbtool write. */
module VerifyLaws {
  import opened Bytes
  import opened Results
  import opened SparseFormat
  import opened SparseImage
  import opened HashTree
  import opened Merkle
  import opened Descriptors
  import opened VBMeta
  import opened Blob
  import opened FooterOps
  import opened FooterEdits
  import opened HashtreeFooter
  import opened HashtreeLaws
  import opened ZeroHashtree
  import opened Verify

  /** A flat image as the command sees it. */
  function Whole(img: bytes): Partition { Partition(img, false, true) }

  /** The descriptors from the second one on pass. */
  ghost predicate OthersPass(lib: Hashlib, env: Env, expected: Chains, self: Partition, p: Parsed, follow: bool) {
    forall i :: 1 <= i < |p.descriptors| ==>
      Passes(lib, env, expected, self, CursorFor(p, self.contents, i), p.descriptors[i], follow)
  }

  /** An unsigned image verifies if its first descriptor and the other ones pass. */
  lemma VerifiesByDescriptors(lib: Hashlib, env: Env, expected: Chains, self: Partition, p: Parsed, follow: bool)
    requires ParseImage(lib, self.contents) == Ok(p) && p.header.algorithmType == 0 && env.key.None?
    requires p.descriptors != [] && !p.descriptors[0].ChainPartition?
    ensures Verifies(lib, env, expected, Some(self), follow)
      <==> && DescriptorOk(lib, env, expected, self, CursorFor(p, self.contents, 0), p.descriptors[0])
           && OthersPass(lib, env, expected, self, p, follow)
  {
    hide ParseImage, BlobIn, KeyIn, DescriptorOk, Cursor, FileOf;
    var ds := p.descriptors;
    assert Passes(lib, env, expected, self, CursorFor(p, self.contents, 0), ds[0], follow)
      <==> DescriptorOk(lib, env, expected, self, CursorFor(p, self.contents, 0), ds[0]);
    if DescriptorOk(lib, env, expected, self, CursorFor(p, self.contents, 0), ds[0]) && OthersPass(lib, env, expected, self, p, follow) {
      forall i | 0 <= i < |ds|
        ensures Passes(lib, env, expected, self, CursorFor(p, self.contents, i), ds[i], follow)
      {
      }
    }
  }

  // ---------------------------------------------------------------- hash footers

  /** The hash descriptor of an image with a hash footer matches it, read from the start. */
  lemma HashMatchesFootered(lib: Hashlib, a: HashArgs, img: bytes, bs: nat)
    requires bs > 0 && Addable(lib, a, img, bs) && (bs == DEFAULT_BLOCK_SIZE || |img| % bs == 0)
    ensures HashMatches(lib, HashOf(lib, a, img), Whole(HashFootered(lib, a, img, bs)), 0)
  {
    hide HashFootered, HashBlobOk, HashBlob, FooterInRange, FooterOf, GrownToBlocks, Target;
    HashFooteredParts(lib, a, img, bs);
    assert Clip(HashFootered(lib, a, img, bs), 0, |img|) == img;
  }

  /** As many bytes as the image had, read from behind the blob. */
  ghost function BehindBlob(lib: Hashlib, a: HashArgs, img: bytes, bs: nat): bytes
    requires bs > 0 && HashBlobOk(lib, a, img)
  {
    var at := RoundUp(|img|, bs) + |HashBlob(lib, a, img)|;
    Clip(HashFootered(lib, a, img, bs), at, at + |img|)
  }

  /** The descriptor is checked against the right bytes: it names its partition, or what happens to stand behind the
      blob, where the cursor is, has the same digest, or there is no digest to compare. */
  ghost predicate ReadsItself(lib: Hashlib, a: HashArgs, img: bytes, bs: nat)
    requires bs > 0 && HashBlobOk(lib, a, img)
  {
    a.partitionName != [] || a.usePersistentDigest
    || lib.hash(a.hashAlgorithm, a.salt + BehindBlob(lib, a, img, bs)) == lib.hash(a.hashAlgorithm, a.salt + img)
  }

  /** Where the blob's own header says it ends, the cursor is when the first descriptor is checked. */
  lemma CursorBehindBlob(lib: Hashlib, a: HashArgs, img: bytes, bs: nat)
    requires bs > 0 && Addable(lib, a, img, bs) && (bs == DEFAULT_BLOCK_SIZE || |img| % bs == 0)
    requires HashReadable(lib, a, img) && BlobFits(lib, a, img, bs)
    ensures ChainsOk(a.options) && PropsOk(a.options)
    ensures var out := HashFootered(lib, a, img, bs);
      && ParseImage(lib, out).Ok?
      && CursorFor(ParseImage(lib, out).value, out, 0) == RoundUp(|img|, bs) + |HashBlob(lib, a, img)|
      && ParseImage(lib, out).value.header.algorithmType == 0
  {
    hide FooterFields, FooterOf, FooterBlock, Target, RoundUp, Resize, Filling, ParseImage, Blob.Readable, HeaderOf,
      BlobOf, BlobOk, HashOf, RequiredMinor, HashFootered, FooterInRange, BlobFits, AllDescriptors, EncodeAll;
    var out := HashFootered(lib, a, img, bs);
    HashFooteredParses(lib, a, img, bs);
    HashFooteredParts(lib, a, img, bs);
    BlobSize([HashOf(lib, a, img)], a.options, RequiredMinor(a));
    BlobFitsInside(lib, a, img, bs);
  }

  lemma BlobFitsInside(lib: Hashlib, a: HashArgs, img: bytes, bs: nat)
    requires bs > 0 && Addable(lib, a, img, bs) && (bs == DEFAULT_BLOCK_SIZE || |img| % bs == 0) && BlobFits(lib, a, img, bs)
    ensures RoundUp(|img|, bs) + |HashBlob(lib, a, img)| <= |HashFootered(lib, a, img, bs)|
  {
    hide HashBlobOk, HashBlob, FooterOf, FooterFields, FooterBlock, FooterInRange, Target, HashFootered;
    HashFooteredParts(lib, a, img, bs);
  }

  /** `verify_image` accepts an unsigned image with a hash footer exactly if it accepts the descriptors that were asked
      for in addition, and the descriptor names its partition or what stands behind the blob has the same digest. */
  lemma HashFooterVerifies(lib: Hashlib, env: Env, expected: Chains, a: HashArgs, img: bytes, bs: nat, follow: bool)
    requires bs > 0 && Addable(lib, a, img, bs) && (bs == DEFAULT_BLOCK_SIZE || |img| % bs == 0) && lib.Valid()
    requires HashReadable(lib, a, img) && BlobFits(lib, a, img, bs)
    requires Subject(env, Whole(HashFootered(lib, a, img, bs)), a.partitionName) == Some(Whole(HashFootered(lib, a, img, bs)))
    requires env.key.None?
    ensures ChainsOk(a.options) && PropsOk(a.options)
    ensures var out := HashFootered(lib, a, img, bs);
      && ParseImage(lib, out).Ok? && ParseImage(lib, out).value.descriptors == HashDescriptors(lib, a, img)
      && HashDescriptors(lib, a, img) != [] && HashDescriptors(lib, a, img)[0] == HashOf(lib, a, img)
      && (Verifies(lib, env, expected, Some(Whole(out)), follow) <==>
            ReadsItself(lib, a, img, bs) && OthersPass(lib, env, expected, Whole(out), ParseImage(lib, out).value, follow))
  {
    hide Addable, HashReadable, BlobFits, HashFootered, ParseImage, EncodeAll, Verifies, OthersPass, TreeMatches,
      Target, RoundUp, CursorFor, HashMatches, ReadsItself, HashBlobOk, HashBlob;
    AddableBlob(lib, a, img, bs);
    HashFooteredParses(lib, a, img, bs);
    HashMatchesFootered(lib, a, img, bs);
    CursorBehindBlob(lib, a, img, bs);
    hide ChainsOk, PropsOk;
    var out, ds := HashFootered(lib, a, img, bs), HashDescriptors(lib, a, img);
    assert ds[0] == HashOf(lib, a, img);
    VerifiesByDescriptors(lib, env, expected, Whole(out), ParseImage(lib, out).value, follow);
    ReadBehindBlob(lib, a, img, bs);
  }

  lemma ReadBehindBlob(lib: Hashlib, a: HashArgs, img: bytes, bs: nat)
    requires bs > 0 && Addable(lib, a, img, bs) && lib.Valid()
    ensures a.partitionName == [] ==>
      (ReadsItself(lib, a, img, bs) <==>
        HashMatches(lib, HashOf(lib, a, img), Whole(HashFootered(lib, a, img, bs)), RoundUp(|img|, bs) + |HashBlob(lib, a, img)|))
    ensures a.partitionName != [] ==> ReadsItself(lib, a, img, bs)
  {
    hide HashFootered, HashBlobOk, HashBlob, FooterInRange, RoundUp, Target, Clip;
    if a.partitionName == [] && !a.usePersistentDigest && lib.hash(a.hashAlgorithm, a.salt + img) == [] {
      assert |lib.hash(a.hashAlgorithm, a.salt + BehindBlob(lib, a, img, bs))| == 0;
    }
  }

  lemma ListedKeys(ks: seq<bytes>, keys: set<bytes>)
    requires SortedKeys(ks, keys)
    ensures ks != [] ==> keys != {}
  {
    if ks != [] {
      assert ks[0] in keys;
    }
  }

  /** Properties and command lines ask for nothing. */
  lemma PlainOptions(lib: Hashlib, env: Env, expected: Chains, self: Partition, p: Parsed, d: Descriptor, o: Options, follow: bool)
    requires ChainsOk(o) && PropsOk(o) && o.included == [] && o.chains == [] && p.descriptors == AllDescriptors([d], o)
    ensures OthersPass(lib, env, expected, self, p, follow)
    ensures forall i :: 1 <= i < |p.descriptors| ==> p.descriptors[i].Property? || p.descriptors[i].KernelCmdline?
  {
    var dict := Dict(Flat(o.included));
    assert dict.Keys == {};
    ListedKeys(SortedListing(dict.Keys), dict.Keys);
    var ds := AllDescriptors([d], o);
    assert ds == [d] + Props(o) + Cmdlines(o);
    forall i | 1 <= i < |ds|
      ensures ds[i].Property? || ds[i].KernelCmdline?
      ensures Passes(lib, env, expected, self, CursorFor(p, self.contents, i), ds[i], follow)
    {
      assert ds[i].Property? || ds[i].KernelCmdline?;
    }
  }

  /** The directory once the image was written into it, if it has a name there. */
  function With(env: Env, name: bytes, file: bytes): Env {
    if name == [] then env else env.(files := env.files[name := file])
  }

  /** With properties and command lines only, every check ends. */
  lemma PlainEnds(lib: Hashlib, env: Env, a: HashArgs, img: bytes, bs: nat, follow: bool)
    requires bs > 0 && Addable(lib, a, img, bs) && (bs == DEFAULT_BLOCK_SIZE || |img| % bs == 0)
    requires HashReadable(lib, a, img) && BlobFits(lib, a, img, bs) && a.options.included == [] && a.options.chains == []
    ensures Ends(lib, env, Some(Whole(HashFootered(lib, a, img, bs))), follow)
  {
    hide Addable, HashReadable, BlobFits, HashFootered, ParseImage, EncodeAll, Target, RoundUp, TreeEnds, HashBlobOk,
      HashBlob, Subject;
    AddableBlob(lib, a, img, bs);
    HashFooteredParses(lib, a, img, bs);
    hide ChainsOk, PropsOk;
    var out := HashFootered(lib, a, img, bs);
    PlainOptions(lib, env, map[], Whole(out), ParseImage(lib, out).value, HashOf(lib, a, img), a.options, follow);
  }

  /** Verifying the file that was written. */
  method VerifyFlat(lib: Hashlib, env: Env, expected: Chains, a: HashArgs, ghost img: bytes, file: bytes, follow: bool)
    returns (verified: Result<()>)
    requires lib.Valid() && FilesUsable(env) && env.key.None? && !MagicPrefix(file)
    requires Addable(lib, a, img, DEFAULT_BLOCK_SIZE) && file == HashFootered(lib, a, img, DEFAULT_BLOCK_SIZE)
    requires HashReadable(lib, a, img) && BlobFits(lib, a, img, DEFAULT_BLOCK_SIZE)
    requires Ends(lib, With(env, a.partitionName, file), Some(Whole(file)), follow)
    ensures ParseImage(lib, file).Ok?
    ensures verified.Ok? <==>
      && ReadsItself(lib, a, img, DEFAULT_BLOCK_SIZE)
      && OthersPass(lib, With(env, a.partitionName, file), expected, Whole(file), ParseImage(lib, file).value, follow)
    ensures a.options.included == [] && a.options.chains == [] ==> (verified.Ok? <==> ReadsItself(lib, a, img, DEFAULT_BLOCK_SIZE))
  {
    hide Addable, HashBlob, HashBlobOk, HashFootered, Blob.Readable, HashReadable, BlobFits, ParseImage, Verifies,
      Ends, OthersPass, ReadsItself;
    HashFooteredLayout(lib, a, img);
    HashFooteredParses(lib, a, img, DEFAULT_BLOCK_SIZE);
    FlatParses(file);
    var here := With(env, a.partitionName, file);
    assert PartitionOf(file) == Some(Whole(file));
    HashFooterVerifies(lib, here, expected, a, img, DEFAULT_BLOCK_SIZE, follow);
    if a.options.included == [] && a.options.chains == [] {
      PlainOptions(lib, here, expected, Whole(file), ParseImage(lib, file).value, HashOf(lib, a, img), a.options, follow);
    }
    verified := VerifyImage(lib, here, expected, file, follow);
  }

  /** Adding a hash footer to a flat image and verifying the result: with properties and kernel command lines only, and
      a partition name, it is accepted; in general exactly if the descriptors asked for in addition are. */
  method AddThenVerify(lib: Hashlib, env: Env, expected: Chains, a: HashArgs, image: ImageHandler, follow: bool)
    returns (added: Result<()>, verified: Result<()>)
    requires image.Valid() && !image.readOnly && !image.isSparse && lib.Valid() && FilesUsable(env) && env.key.None?
    requires Addable(lib, a, Strip(image.Contents()), DEFAULT_BLOCK_SIZE) ==>
      && HashReadable(lib, a, Strip(image.Contents())) && BlobFits(lib, a, Strip(image.Contents()), DEFAULT_BLOCK_SIZE)
      && var out := HashFootered(lib, a, Strip(image.Contents()), DEFAULT_BLOCK_SIZE);
         (a.options.included == [] && a.options.chains == []) || Ends(lib, With(env, a.partitionName, out), Some(Whole(out)), follow)
    modifies image
    ensures added.Ok? <==> ArgsOk(a) && Addable(lib, a, Strip(old(image.Contents())), DEFAULT_BLOCK_SIZE)
    ensures added.Ok? ==> image.Sound() && ParseImage(lib, image.Contents()).Ok?
    ensures added.Ok? ==>
      (verified.Ok? <==>
        && ReadsItself(lib, a, Strip(old(image.Contents())), DEFAULT_BLOCK_SIZE)
        && OthersPass(lib, With(env, a.partitionName, image.Contents()), expected, Whole(image.Contents()),
                      ParseImage(lib, image.Contents()).value, follow))
    ensures added.Ok? && a.options.included == [] && a.options.chains == [] && a.partitionName != [] ==> verified.Ok?
  {
    hide Strip, Addable, HashBlob, HashBlobOk, HashFootered, CanStrip, Blob.Readable, ImageHandler.Contents, ArgsOk,
      HashReadable, BlobFits, ParseImage, OthersPass, Ends;
    FlatFacts(image);
    FlatStrips(image);
    ghost var img := Strip(image.Contents());
    added := AddHashFooter(lib, a, image);
    verified := Err(AvbError);
    if added.Ok? {
      FlatFacts(image);
      if a.options.included == [] && a.options.chains == [] {
        PlainEnds(lib, With(env, a.partitionName, image.file), a, img, DEFAULT_BLOCK_SIZE, follow);
      }
      verified := VerifyFlat(lib, env, expected, a, img, image.file, follow);
    }
  }

  // ---------------------------------------------------------------- hashtree footers

  /** Only a single block has an empty tree. */
  lemma EmptyTree(h: Hashing, data: bytes)
    requires h.Valid() && |data| >= h.bs
    ensures Tree(h, data) == [] <==> |data| == h.bs
  {
    if |data| > h.bs {
      TreeStep(h, data);
    }
  }

  /** When the stored tree passes: it is the tree if growing the image changed none of its levels; otherwise, and without
      a stored tree, zeroed trees must be accepted (and the tree look zeroed), or the tree be empty. */
  ghost predicate TreePasses(lib: Hashlib, a: TreeArgs, img: bytes, bs: nat, acceptZeroed: bool)
    requires TreeWorks(lib, a.hashAlgorithm, a.blockSize) && bs > 0 && img != [] && Built(lib, a, img, bs).Ok?
  {
    if a.noHashtree then acceptZeroed || |Grown(a, img, bs)| == a.blockSize
    else SameLevels(lib, a, img, bs) || (acceptZeroed && Clip(KeptTree(lib, a, img, bs), 0, 8) == ZERO_MARK)
  }

  /** What is computed again for an image with a hashtree footer are root and tree of the grown image. */
  lemma RebuiltFootered(lib: Hashlib, a: TreeArgs, img: bytes, bs: nat)
    requires TreeWorks(lib, a.hashAlgorithm, a.blockSize) && Suits(a, bs)
    requires TreeAddable(lib, a, img, bs) && a.partitionSize % bs == 0
    ensures HashingFor(lib, a).Valid() && |Grown(a, img, bs)| >= a.blockSize
    ensures var d, part := TreeDescriptor(lib, a, img, bs), Whole(TreeFootered(lib, a, img, bs));
      && TreeEnds(lib, d, part.contents)
      && Rebuilt(lib, d, part) == Some((Root(HashingFor(lib, a), Grown(a, img, bs)), Tree(HashingFor(lib, a), Grown(a, img, bs))))
      && OnDisk(d, part.contents) == KeptTree(lib, a, img, bs)
  {
    hide TreeFootered, TreeAddable, Rounded, Grown, FooterOf, Root, RoundToPow2, Strip, Tree, TreeDescriptor,
      TreeBlob, TreeBlobOk, Built, WithTree, KeptTree, FooterFields, ClaimedSize, FooterInRange;
    AddableParts(lib, a, img, bs);
    TreeFooteredParts(lib, a, img, bs);
    DescribedTree(lib, a, img, bs);
    HashingValid(lib, a.hashAlgorithm, a.salt, a.blockSize);
    StoredStartsWithKept(lib, a, img, bs);
    var out, data, h := TreeFootered(lib, a, img, bs), Grown(a, img, bs), HashingFor(lib, a);
    var d := TreeDescriptor(lib, a, img, bs);
    assert out[..|data|] == data;
    OnDiskIs(out, data, KeptTree(lib, a, img, bs), WithTree(lib, a, img, bs), d);
    assert TreeHashing(lib, d) == h;
    if |data| == a.blockSize {
      SmallTree(h, data);
    }
  }

  lemma OnDiskIs(out: bytes, data: bytes, kept: bytes, base: bytes, d: Descriptor)
    requires d.Hashtree? && base <= out && data + kept <= base && d.treeOffset == |data| && d.treeSize == |kept|
    ensures OnDisk(d, out) == kept
  {
    assert out[..|data| + |kept|] == data + kept;
    assert out[|data|..|data| + |kept|] == kept;
  }

  /** The stored tree is the right one, or zeroed trees are accepted and it looks zeroed. */
  lemma PassesMeans(lib: Hashlib, a: TreeArgs, img: bytes, bs: nat, acceptZeroed: bool)
    requires TreeWorks(lib, a.hashAlgorithm, a.blockSize) && bs > 0 && img != [] && Built(lib, a, img, bs).Ok?
    requires HashingFor(lib, a).Valid() && |Grown(a, img, bs)| >= a.blockSize
    ensures var kept, tree := KeptTree(lib, a, img, bs), Tree(HashingFor(lib, a), Grown(a, img, bs));
      (acceptZeroed && (kept == [] || Clip(kept, 0, 8) == ZERO_MARK)) || kept == tree <==> TreePasses(lib, a, img, bs, acceptZeroed)
  {
    hide Rounded, Grown, RoundToPow2, Tree, Built, KeptTree, ClaimedSize, TreeSize, SameLevels;
    EmptyTree(HashingFor(lib, a), Grown(a, img, bs));
    if a.noHashtree {
      NoTreeKept(lib, a, img, bs);
    } else {
      KeptIsTree(lib, a, img, bs);
      if ClaimedSize(lib, a, img) == 0 {
        NothingClaimed(lib, a, img, bs);
      }
    }
  }

  /** Root and tree of an image with a hashtree footer match it exactly under the condition above. */
  lemma TreeMatchesFootered(lib: Hashlib, a: TreeArgs, img: bytes, bs: nat, acceptZeroed: bool)
    requires TreeWorks(lib, a.hashAlgorithm, a.blockSize) && Suits(a, bs)
    requires TreeAddable(lib, a, img, bs) && a.partitionSize % bs == 0
    ensures TreeBuilds(lib, a, img, bs)
    ensures TreeEnds(lib, TreeDescriptor(lib, a, img, bs), TreeFootered(lib, a, img, bs))
    ensures TreeMatches(lib, TreeDescriptor(lib, a, img, bs), Whole(TreeFootered(lib, a, img, bs)), acceptZeroed)
      <==> TreePasses(lib, a, img, bs, acceptZeroed)
  {
    hide TreeFootered, TreeAddable, Rounded, Grown, Root, RoundToPow2, Tree, TreeDescriptor, Built, Rebuilt, OnDisk,
      KeptTree, TreeEnds, ClaimedSize, TreeSize, SameLevels, TreeWorks, TreePasses, HashingFor;
    AddableParts(lib, a, img, bs);
    WorksValid(lib, a.hashAlgorithm, a.blockSize);
    DescribedTree(lib, a, img, bs);
    RebuiltFootered(lib, a, img, bs);
    StoredStartsWithKept(lib, a, img, bs);
    PassesMeans(lib, a, img, bs, acceptZeroed);
  }

  lemma WorksValid(lib: Hashlib, alg: bytes, bs: nat)
    requires TreeWorks(lib, alg, bs)
    ensures lib.Valid() && bs > 0 && lib.treeHashSize(alg).Some?
  {
  }

  lemma NoTreeKept(lib: Hashlib, a: TreeArgs, img: bytes, bs: nat)
    requires TreeWorks(lib, a.hashAlgorithm, a.blockSize) && bs > 0 && img != [] && Built(lib, a, img, bs).Ok? && a.noHashtree
    ensures KeptTree(lib, a, img, bs) == []
  {
    hide Built;
  }

  /** A tree that claims nothing has no levels, and as it could be built, the grown image has none either. */
  lemma NothingClaimed(lib: Hashlib, a: TreeArgs, img: bytes, bs: nat)
    requires TreeWorks(lib, a.hashAlgorithm, a.blockSize) && bs > 0 && img != [] && Built(lib, a, img, bs).Ok?
    requires ClaimedSize(lib, a, img) == 0
    ensures SameLevels(lib, a, img, bs)
  {
    hide Built, Rounded, Grown, LevelSize, NumBlocks, RoundToPow2;
    WorksNonzero(lib, a.hashAlgorithm, a.blockSize);
    RoundToPow2AtLeast(lib.treeHashSize(a.hashAlgorithm).value);
    BuiltFacts(lib, a, img, bs);
    GrownSizes(a, img, bs);
    if |Rounded(a, img)| > a.blockSize {
      LevelNotEmpty(|Rounded(a, img)|, a.blockSize, SlotOf(lib, a));
    }
  }

  /** `verify_image` accepts an unsigned image with a hashtree footer exactly if it accepts the descriptors that were
      asked for in addition, and the tree passes. */
  lemma HashtreeFooterVerifies(lib: Hashlib, env: Env, expected: Chains, a: TreeArgs, img: bytes, bs: nat, follow: bool)
    requires TreeWorks(lib, a.hashAlgorithm, a.blockSize) && Suits(a, bs)
    requires TreeAddable(lib, a, img, bs) && a.partitionSize % bs == 0
    requires TreeReadable(lib, a, img, bs) && TreeBlobFits(lib, a, img, bs)
    requires Subject(env, Whole(TreeFootered(lib, a, img, bs)), a.partitionName) == Some(Whole(TreeFootered(lib, a, img, bs)))
    requires env.key.None?
    ensures ChainsOk(a.options) && PropsOk(a.options)
    ensures var out := TreeFootered(lib, a, img, bs);
      && ParseImage(lib, out).Ok? && ParseImage(lib, out).value.descriptors == TreeDescriptors(lib, a, img, bs)
      && TreeDescriptors(lib, a, img, bs) != [] && TreeDescriptors(lib, a, img, bs)[0] == TreeDescriptor(lib, a, img, bs)
      && (Verifies(lib, env, expected, Some(Whole(out)), follow) <==>
            && TreePasses(lib, a, img, bs, env.acceptZeroed)
            && OthersPass(lib, env, expected, Whole(out), ParseImage(lib, out).value, follow))
  {
    hide TreeAddable, TreeReadable, TreeBlobFits, TreeFootered, ParseImage, TreeMatches, EncodeAll, Verifies,
      OthersPass, HashMatches, TreeWorks, Grown, Built, Root, TreeEnds, TreeDescriptor, RoundToPow2, TreePasses,
      CursorFor, ClaimedSize;
    AddableParts(lib, a, img, bs);
    DescribedTree(lib, a, img, bs);
    TreeFooteredParses(lib, a, img, bs);
    TreeMatchesFootered(lib, a, img, bs, env.acceptZeroed);
    hide ChainsOk, PropsOk;
    var out, ds := TreeFootered(lib, a, img, bs), TreeDescriptors(lib, a, img, bs);
    assert ds[0] == TreeDescriptor(lib, a, img, bs);
    VerifiesByDescriptors(lib, env, expected, Whole(out), ParseImage(lib, out).value, follow);
  }

  // ---------------------------------------------------------------- zeroed trees

  /** Two images of the same size that agree from `at` on. */
  ghost predicate AgreeFrom(a: bytes, b: bytes, at: nat) {
    |a| == |b| && forall k :: at <= k < |a| ==> a[k] == b[k]
  }

  lemma ClipAgrees(a: bytes, b: bytes, at: nat, lo: nat, hi: nat)
    requires AgreeFrom(a, b, at) && at <= lo
    ensures Clip(a, lo, hi) == Clip(b, lo, hi)
  {
  }

  /** Parsing reads the footer and what follows the start of the blob, nothing else. */
  lemma ParseAgrees(lib: Hashlib, a: bytes, b: bytes, at: nat)
    requires AgreeFrom(a, b, at) && at + FOOTER_SIZE <= |a|
    requires FooterOf(a).Some? && FooterOf(a).value.vbmetaOffset >= at
    ensures ParseImage(lib, a) == ParseImage(lib, b)
    ensures forall p: Parsed :: p.footer == FooterOf(a) ==> BlobIn(p, a) == BlobIn(p, b)
  {
    hide ParseFooter, ParseHeader, ParseList, Clip;
    assert a[|a| - FOOTER_SIZE..] == b[|b| - FOOTER_SIZE..];
    var f := FooterOf(a).value.vbmetaOffset;
    ClipAgrees(a, b, at, f, f + VBMETA_HEADER_SIZE);
    var h := ParseHeader(Clip(a, f, f + VBMETA_HEADER_SIZE));
    if h.Ok? {
      var start := f + VBMETA_HEADER_SIZE + h.value.authSize + h.value.descriptors.offset;
      ClipAgrees(a, b, at, start, start + h.value.descriptors.size);
    }
    forall p: Parsed | p.footer == FooterOf(a)
      ensures BlobIn(p, a) == BlobIn(p, b)
    {
      ClipAgrees(a, b, at, f, f + VBMETA_HEADER_SIZE + p.header.authSize + p.header.auxSize);
    }
  }

  /** The usual layout: data, tree, blob, footer. */
  predicate InOrder(p: Result<Parsed>, size: nat)
    requires HasTree(p)
  {
    var d, f := TreeOf(p), p.value.footer.value;
    d.imageSize <= d.treeOffset && ZeroEnd(d) <= f.vbmetaOffset && ZeroEnd(d) + FOOTER_SIZE <= size
  }

  /** Tree, and FEC data if there is any, take at least a block: the marker fits, and zeroing keeps the size. */
  predicate Zeroable(d: Descriptor, bs: nat)
    requires d.Hashtree?
  {
    d.treeSize >= bs >= 8 && (d.fecOffset > 0 ==> d.fecSize >= bs)
  }

  /** `self` with the tree of `d` zeroed. */
  function WithZeroed(self: Partition, d: Descriptor, bs: nat): Partition
    requires d.Hashtree?
  {
    self.(contents := Zeroed(self.contents, d, bs))
  }

  /** The other files are the same, and a partition that was the subject of `name` still is. */
  ghost predicate OnlyZeroed(before: Env, after: Env, self: Partition, zeroed: Partition, name: bytes) {
    && after.signature == before.signature && after.key == before.key && after.acceptZeroed
    && Subject(before, self, name) == Some(self) && Subject(after, zeroed, name) == Some(zeroed)
    && forall n :: n != name || name == [] ==> FileOf(after, n) == FileOf(before, n)
  }

  /** A descriptor about the data of another partition, or about none. */
  predicate Elsewhere(d: Descriptor, name: bytes) {
    d.Hash? || d.Hashtree? ==> d.partitionName != name && d.partitionName != []
  }

  /** A chained image that describes nothing of the partition `name`. */
  ghost predicate Unrelated(lib: Hashlib, part: Option<Partition>, name: bytes) {
    part.Some? && ParseImage(lib, part.value.contents).Ok? ==>
      forall e :: e in ParseImage(lib, part.value.contents).value.descriptors ==> (e.Hash? || e.Hashtree? ==> e.partitionName != name)
  }

  /** Zeroing leaves the data and everything behind the tree as they were. */
  lemma ZeroedAgrees(img: bytes, d: Descriptor, bs: nat)
    requires d.Hashtree? && Zeroable(d, bs) && ZeroEnd(d) <= |img|
    ensures var out := Zeroed(img, d, bs);
      && AgreeFrom(img, out, ZeroEnd(d)) && LooksZeroed(d, out)
      && forall n: nat :: n <= d.treeOffset ==> out[..n] == img[..n]
  {
    hide Zeroed;
    var out := Zeroed(img, d, bs);
    ZeroingKeepsTheRest(img, d, bs);
    assert Clip(OnDisk(d, out), 0, 8) == ZERO_MARK by {
      SliceOfSlice(out, d.treeOffset, d.treeOffset + d.treeSize, 0, 8);
    }
  }

  /** The tree descriptor still passes. */
  lemma ZeroedTreeMatches(lib: Hashlib, d: Descriptor, part: Partition, bs: nat, accepted: bool)
    requires d.Hashtree? && Zeroable(d, bs) && ZeroEnd(d) <= |part.contents| && d.imageSize <= d.treeOffset
    requires TreeMatches(lib, d, part, accepted)
    ensures TreeMatches(lib, d, WithZeroed(part, d, bs), true)
  {
    hide Zeroed, Root, Tree, OnDisk, TreeHashing, RoundToPow2;
    ZeroedAgrees(part.contents, d, bs);
    assert Clip(Zeroed(part.contents, d, bs), 0, d.imageSize) == Clip(part.contents, 0, d.imageSize);
  }

  /** A descriptor that passed, the tree's or one about another partition, still passes, wherever the cursor is. */
  lemma StillOk(lib: Hashlib, before: Env, after: Env, expected: Chains, self: Partition, cursor: nat, cursor': nat, d: Descriptor,
      e: Descriptor, bs: nat)
    requires d.Hashtree? && Zeroable(d, bs) && ZeroEnd(d) <= |self.contents| && d.imageSize <= d.treeOffset
    requires OnlyZeroed(before, after, self, WithZeroed(self, d, bs), d.partitionName)
    requires e == d || Elsewhere(e, d.partitionName)
    requires DescriptorOk(lib, before, expected, self, cursor, e)
    ensures DescriptorOk(lib, after, expected, WithZeroed(self, d, bs), cursor', e)
  {
    hide Zeroed, HashMatches, TreeMatches, FileOf;
    if e == d {
      ZeroedTreeMatches(lib, d, self, bs, before.acceptZeroed);
    } else if e.Hashtree? {
      AcceptingMore(lib, e, FileOf(before, e.partitionName).value, before.acceptZeroed);
    }
  }

  lemma AcceptingMore(lib: Hashlib, d: Descriptor, part: Partition, accepted: bool)
    requires d.Hashtree? && TreeMatches(lib, d, part, accepted)
    ensures TreeMatches(lib, d, part, true)
  {
    hide Rebuilt, OnDisk, TreeEnds;
  }

  /** An image whose own tree was not touched, and that describes nothing of the partition that was, still verifies. */
  lemma UnrelatedStillVerifies(lib: Hashlib, before: Env, after: Env, self: Partition, zeroed: Partition, name: bytes,
      part: Option<Partition>)
    requires OnlyZeroed(before, after, self, zeroed, name) && Unrelated(lib, part, name)
    requires Verifies(lib, before, map[], part, false)
    ensures Verifies(lib, after, map[], part, false)
  {
    hide ParseImage, BlobIn, KeyIn, HashMatches, TreeMatches, FileOf, CursorFor;
    var p := ParseImage(lib, part.value.contents).value;
    forall i | 0 <= i < |p.descriptors|
      ensures Passes(lib, after, map[], part.value, CursorFor(p, part.value.contents, i), p.descriptors[i], false)
    {
      var e := p.descriptors[i];
      assert e in p.descriptors;
      assert Passes(lib, before, map[], part.value, CursorFor(p, part.value.contents, i), e, false);
      if e.Hashtree? {
        AcceptingMore(lib, e, Subject(before, part.value, e.partitionName).value, before.acceptZeroed);
      }
    }
  }

  /** What the two verification laws about zeroed trees rely on. */
  ghost predicate ZeroedWell(lib: Hashlib, before: Env, after: Env, self: Partition, bs: nat) {
    var p := ParseImage(lib, self.contents);
    && HasTree(p) && InOrder(p, |self.contents|) && Zeroable(TreeOf(p), bs)
    && OnlyZeroed(before, after, self, WithZeroed(self, TreeOf(p), bs), TreeOf(p).partitionName)
    && forall e :: e in p.value.descriptors ==> e == TreeOf(p) || Elsewhere(e, TreeOf(p).partitionName)
  }

  /** An image that verified before its tree was zeroed still verifies when zeroed trees are accepted. */
  lemma ZeroedStillVerifies(lib: Hashlib, before: Env, after: Env, expected: Chains, self: Partition, bs: nat)
    requires ZeroedWell(lib, before, after, self, bs) && Verifies(lib, before, expected, Some(self), false)
    ensures var zeroed := WithZeroed(self, TreeOf(ParseImage(lib, self.contents)), bs);
      |zeroed.contents| == |self.contents| && Verifies(lib, after, expected, Some(zeroed), false)
  {
    hide ParseImage, Zeroed, BlobIn, KeyIn, HashMatches, TreeMatches, FileOf, FooterOf, CursorFor, DescriptorOk;
    var img, p := self.contents, ParseImage(lib, self.contents).value;
    var d := TreeOf(Ok(p));
    var zeroed := WithZeroed(self, d, bs);
    ParseFindsFooter(lib, img);
    ZeroedAgrees(img, d, bs);
    ParseAgrees(lib, img, zeroed.contents, ZeroEnd(d));
    forall i | 0 <= i < |p.descriptors|
      ensures Passes(lib, after, expected, zeroed, CursorFor(p, zeroed.contents, i), p.descriptors[i], false)
    {
      var e := p.descriptors[i];
      assert e in p.descriptors && Passes(lib, before, expected, self, CursorFor(p, img, i), e, false);
      StillOk(lib, before, after, expected, self, CursorFor(p, img, i), CursorFor(p, zeroed.contents, i), d, e, bs);
    }
  }

  /** ... also when chained partitions are followed, each of which is the image itself or describes nothing of it. */
  lemma ZeroedStillFollows(lib: Hashlib, before: Env, after: Env, expected: Chains, self: Partition, bs: nat)
    requires ZeroedWell(lib, before, after, self, bs) && Verifies(lib, before, expected, Some(self), true)
    requires var p := ParseImage(lib, self.contents);
      forall e :: e in p.value.descriptors && e.ChainPartition? ==>
        e.partitionName == TreeOf(p).partitionName != [] || Unrelated(lib, FileOf(before, e.partitionName), TreeOf(p).partitionName)
    ensures Verifies(lib, after, expected, Some(WithZeroed(self, TreeOf(ParseImage(lib, self.contents)), bs)), true)
  {
    hide ParseImage, Zeroed, BlobIn, KeyIn, HashMatches, TreeMatches, FileOf, FooterOf, CursorFor, DescriptorOk,
      Unrelated;
    var img, p := self.contents, ParseImage(lib, self.contents).value;
    var d := TreeOf(Ok(p));
    var zeroed := WithZeroed(self, d, bs);
    ParseFindsFooter(lib, img);
    ZeroedAgrees(img, d, bs);
    ParseAgrees(lib, img, zeroed.contents, ZeroEnd(d));
    forall i | 0 <= i < |p.descriptors|
      ensures Passes(lib, after, expected, zeroed, CursorFor(p, zeroed.contents, i), p.descriptors[i], true)
    {
      var e := p.descriptors[i];
      assert e in p.descriptors && Passes(lib, before, expected, self, CursorFor(p, img, i), e, true);
      if !(e.ChainPartition? && e.partitionName !in expected) {
        StillOk(lib, before, after, expected, self, CursorFor(p, img, i), CursorFor(p, zeroed.contents, i), d, e, bs);
      }
      if e.ChainPartition? {
        if e.partitionName == d.partitionName && d.partitionName != [] {
          ZeroedStillVerifies(lib, before, after, map[], self, bs);
        } else {
          UnrelatedStillVerifies(lib, before, after, self, zeroed, d.partitionName, FileOf(before, e.partitionName));
        }
      }
    }
  }

  // ---------------------------------------------------------------- zeroing what was added

  /** What `add_hashtree_footer` writes is laid out as zeroing needs it. */
  lemma FooteredTreeIsZeroable(lib: Hashlib, a: TreeArgs, img: bytes)
    requires TreeWorks(lib, a.hashAlgorithm, a.blockSize) && TreeAddable(lib, a, img, DEFAULT_BLOCK_SIZE)
    requires a.partitionSize % DEFAULT_BLOCK_SIZE == 0
    requires TreeReadable(lib, a, img, DEFAULT_BLOCK_SIZE) && TreeBlobFits(lib, a, img, DEFAULT_BLOCK_SIZE)
    ensures var out := TreeFootered(lib, a, img, DEFAULT_BLOCK_SIZE);
      var p, d := ParseImage(lib, out), TreeDescriptor(lib, a, img, DEFAULT_BLOCK_SIZE);
      && HasTree(p) && InOrder(p, |out|) && TreeOf(p) == d && d.fecOffset == 0
      && ZeroEnd(d) + DEFAULT_BLOCK_SIZE <= |out|
      && |out| % DEFAULT_BLOCK_SIZE == 0 && d.treeOffset % DEFAULT_BLOCK_SIZE == 0 && d.treeOffset >= DEFAULT_BLOCK_SIZE
      && (Zeroable(d, DEFAULT_BLOCK_SIZE) <==> d.treeSize >= DEFAULT_BLOCK_SIZE)
  {
    hide TreeReadable, TreeBlobFits, TreeFootered, ParseImage, EncodeAll, TreeWorks, Rounded, Grown, StoredTree, Root,
      Built, WithTree, KeptTree, TreeDescriptor, TreeDescriptors, RoundToPow2, FooterBlock, FooterInRange,
      ClaimedSize, FooterOf, TreeHeader, TreeAddable;
    AddableParts(lib, a, img, DEFAULT_BLOCK_SIZE);
    WorksNonzero(lib, a.hashAlgorithm, a.blockSize);
    GrownSizes(a, img, DEFAULT_BLOCK_SIZE);
    DescribedTree(lib, a, img, DEFAULT_BLOCK_SIZE);
    TreeFooteredParses(lib, a, img, DEFAULT_BLOCK_SIZE);
    StoredStartsWithKept(lib, a, img, DEFAULT_BLOCK_SIZE);
    FooterBehindTree(lib, a, img);
    WholeBlockAtLeast(|Grown(a, img, DEFAULT_BLOCK_SIZE)|, DEFAULT_BLOCK_SIZE);
  }

  lemma FooterBehindTree(lib: Hashlib, a: TreeArgs, img: bytes)
    requires TreeWorks(lib, a.hashAlgorithm, a.blockSize) && TreeAddable(lib, a, img, DEFAULT_BLOCK_SIZE)
    requires a.partitionSize % DEFAULT_BLOCK_SIZE == 0
    ensures TreeBuilds(lib, a, img, DEFAULT_BLOCK_SIZE) && TreeBlobOk(lib, a, img, DEFAULT_BLOCK_SIZE)
    ensures |WithTree(lib, a, img, DEFAULT_BLOCK_SIZE)| + DEFAULT_BLOCK_SIZE <= |TreeFootered(lib, a, img, DEFAULT_BLOCK_SIZE)|
    ensures |TreeFootered(lib, a, img, DEFAULT_BLOCK_SIZE)| % DEFAULT_BLOCK_SIZE == 0
  {
    hide TreeBlobOk, TreeBlob, TreeWorks, WithTree, Built, WithFooter, FooterInRange, RoundUp, MaxTreeSize, Rounded;
    WithTreeAligned(lib, a, img, DEFAULT_BLOCK_SIZE);
    if a.partitionSize > 0 {
      TreeFitsBlock(lib, a, img, DEFAULT_BLOCK_SIZE);
    }
    WithFooterWhole(WithTree(lib, a, img, DEFAULT_BLOCK_SIZE), TreeBlob(lib, a, img, DEFAULT_BLOCK_SIZE), |img|, a.partitionSize,
                    DEFAULT_BLOCK_SIZE);
  }

  /** With its footer, an image of whole blocks is whole blocks, the last of them the footer's. */
  lemma WithFooterWhole(base: bytes, blob: bytes, originalSize: nat, p: nat, bs: nat)
    requires bs >= FOOTER_SIZE && FooterInRange(NewFooter(originalSize, |base|, |blob|)) && |base| % bs == 0 && p % bs == 0
    requires p > 0 ==> |base| + bs <= p
    ensures |WithFooter(base, blob, originalSize, p, bs)| % bs == 0
    ensures |base| + bs <= |WithFooter(base, blob, originalSize, p, bs)|
  {
    hide FooterBlock, FooterInRange, RoundUp;
    FooterBlockSize(NewFooter(originalSize, |base|, |blob|), bs);
    MultiplesAdd(|base|, RoundUp(|blob|, bs), bs);
    MultiplesAdd(|base| + RoundUp(|blob|, bs), bs, bs);
  }

  /** The bytes the descriptor of an added footer claims for the tree. */
  ghost function TreeBytes(lib: Hashlib, a: TreeArgs, img: bytes): nat
    requires TreeWorks(lib, a.hashAlgorithm, a.blockSize)
  {
    if a.noHashtree then 0 else ClaimedSize(lib, a, img)
  }

  /** Adding a hashtree footer to a flat image and zeroing its tree. That succeeds exactly if the claimed tree is whole
      blocks of 4096 bytes; otherwise the image is left cut behind the first marker. An image that has no tree, as with
      --no_hashtree, grows by a block; the marker then stands where the footer says the blob is, and the image cannot be
      parsed any more. */
  method AddThenZero(lib: Hashlib, a: TreeArgs, image: ImageHandler) returns (added: Result<()>, zeroed: Result<()>)
    requires image.Valid() && !image.readOnly && !image.isSparse && lib.Valid()
    requires TreeWorks(lib, a.hashAlgorithm, a.blockSize)
    requires TreeAddable(lib, a, Strip(image.Contents()), DEFAULT_BLOCK_SIZE) ==>
      && TreeReadable(lib, a, Strip(image.Contents()), DEFAULT_BLOCK_SIZE)
      && TreeBlobFits(lib, a, Strip(image.Contents()), DEFAULT_BLOCK_SIZE)
    modifies image
    ensures image.Sound()
    ensures added.Ok? <==> && TreeArgsOk(lib, a, old(image.imageSize), DEFAULT_BLOCK_SIZE)
                           && TreeAddable(lib, a, Strip(old(image.Contents())), DEFAULT_BLOCK_SIZE)
    ensures added.Ok? ==>
      var img := Strip(old(image.Contents()));
      var out, d := TreeFootered(lib, a, img, DEFAULT_BLOCK_SIZE), TreeDescriptor(lib, a, img, DEFAULT_BLOCK_SIZE);
      && (zeroed.Ok? <==> TreeBytes(lib, a, img) % DEFAULT_BLOCK_SIZE == 0)
      && image.Contents() == (if zeroed.Ok? then Zeroed(out, d, DEFAULT_BLOCK_SIZE) else LeftBy(out, d, AtTree, DEFAULT_BLOCK_SIZE))
      && (zeroed.Ok? ==> image.imageSize == |out| + if TreeBytes(lib, a, img) == 0 then DEFAULT_BLOCK_SIZE else 0)
      && (zeroed.Err? ==> FooterOf(image.Contents()).None?)
      && (zeroed.Ok? && TreeBytes(lib, a, img) == 0 ==> ParseImage(lib, image.Contents()).Err?)
  {
    hide ImageHandler.Contents, ParseImage, FooterOf, TreeAddable, TreeReadable, TreeFootered, TreeBlobFits,
      TreeWorks, TreeDescriptor, TreeArgsOk, ParseThrough, TreeFirst, Strip, LeftBy, Zeroed, TreeBytes;
    FlatFacts(image);
    FlatStrips(image);
    ghost var img := Strip(image.Contents());
    added := AddHashtreeFooter(lib, a, image);
    zeroed := Err(AvbError);
    if added.Ok? {
      FlatFacts(image);
      ArgsWhole(lib, a, old(image.imageSize), DEFAULT_BLOCK_SIZE);
      AddableParts(lib, a, img, DEFAULT_BLOCK_SIZE);
      FooteredTreeIsZeroable(lib, a, img);
      ZeroingFootered(lib, a, img);
      if TreeBytes(lib, a, img) == 0 {
        BlobIsLost(lib, a, img);
      }
      zeroed := ZeroHashtree.ZeroHashtree(lib, image);
    }
  }

  lemma ZeroingFootered(lib: Hashlib, a: TreeArgs, img: bytes)
    requires TreeWorks(lib, a.hashAlgorithm, a.blockSize) && TreeAddable(lib, a, img, DEFAULT_BLOCK_SIZE)
    requires a.partitionSize % DEFAULT_BLOCK_SIZE == 0
    requires TreeReadable(lib, a, img, DEFAULT_BLOCK_SIZE) && TreeBlobFits(lib, a, img, DEFAULT_BLOCK_SIZE)
    ensures TreeBuilds(lib, a, img, DEFAULT_BLOCK_SIZE) && TreeBlobOk(lib, a, img, DEFAULT_BLOCK_SIZE)
    ensures var out, d := TreeFootered(lib, a, img, DEFAULT_BLOCK_SIZE), TreeDescriptor(lib, a, img, DEFAULT_BLOCK_SIZE);
      && RefusedAt(|out|, d, false, DEFAULT_BLOCK_SIZE) == (if TreeBytes(lib, a, img) % DEFAULT_BLOCK_SIZE == 0 then None else Some(AtTree))
      && FooterOf(LeftBy(out, d, AtTree, DEFAULT_BLOCK_SIZE)).None?
      && (TreeBytes(lib, a, img) % DEFAULT_BLOCK_SIZE == 0 ==>
            |Zeroed(out, d, DEFAULT_BLOCK_SIZE)| == |out| + if TreeBytes(lib, a, img) == 0 then DEFAULT_BLOCK_SIZE else 0)
  {
    hide TreeReadable, TreeBlobFits, TreeFootered, ParseImage, TreeWorks, TreeDescriptor, TreeAddable, FooterOf,
      LeftBy, Zeroed, ClaimedSize, Grown, Root, Built, RefusedAt, TreeBlobOk;
    AddableParts(lib, a, img, DEFAULT_BLOCK_SIZE);
    FooteredTreeIsZeroable(lib, a, img);
    DescribedTree(lib, a, img, DEFAULT_BLOCK_SIZE);
    var out, d := TreeFootered(lib, a, img, DEFAULT_BLOCK_SIZE), TreeDescriptor(lib, a, img, DEFAULT_BLOCK_SIZE);
    FooterIsLost(out, d, AtTree, DEFAULT_BLOCK_SIZE);
    ZeroingWhole(out, d);
  }

  /** Without a tree the blob directly follows the image, and zeroing puts the marker in its place. */
  lemma BlobIsLost(lib: Hashlib, a: TreeArgs, img: bytes)
    requires TreeWorks(lib, a.hashAlgorithm, a.blockSize) && TreeAddable(lib, a, img, DEFAULT_BLOCK_SIZE)
    requires a.partitionSize % DEFAULT_BLOCK_SIZE == 0 && TreeBytes(lib, a, img) == 0
    requires TreeReadable(lib, a, img, DEFAULT_BLOCK_SIZE) && TreeBlobFits(lib, a, img, DEFAULT_BLOCK_SIZE)
    ensures var out, d := TreeFootered(lib, a, img, DEFAULT_BLOCK_SIZE), TreeDescriptor(lib, a, img, DEFAULT_BLOCK_SIZE);
      d.treeOffset <= |out| && ParseImage(lib, Zeroed(out, d, DEFAULT_BLOCK_SIZE)).Err?
  {
    hide TreeReadable, TreeBlobFits, TreeFootered, ParseImage, TreeWorks, TreeDescriptor, TreeAddable, FooterOf,
      Zeroed, ClaimedSize, Grown, Root, Built, FooterFields, FooterInRange, Strip, StoredTree;
    AddableParts(lib, a, img, DEFAULT_BLOCK_SIZE);
    FooteredTreeIsZeroable(lib, a, img);
    DescribedTree(lib, a, img, DEFAULT_BLOCK_SIZE);
    TreeFooteredParts(lib, a, img, DEFAULT_BLOCK_SIZE);
    NothingStored(lib, a, img);
    MarkerForBlob(lib, TreeFootered(lib, a, img, DEFAULT_BLOCK_SIZE), TreeDescriptor(lib, a, img, DEFAULT_BLOCK_SIZE));
  }

  lemma NothingStored(lib: Hashlib, a: TreeArgs, img: bytes)
    requires TreeWorks(lib, a.hashAlgorithm, a.blockSize) && img != [] && Built(lib, a, img, DEFAULT_BLOCK_SIZE).Ok?
    requires TreeBytes(lib, a, img) == 0
    ensures |WithTree(lib, a, img, DEFAULT_BLOCK_SIZE)| == |Grown(a, img, DEFAULT_BLOCK_SIZE)|
  {
    hide Built, StoredTree, Grown, ClaimedSize, NeededSize, RoundUp;
    StoredSize(lib, a, img, DEFAULT_BLOCK_SIZE);
    RoundUpLeast(0, DEFAULT_BLOCK_SIZE, 0);
    if !a.noHashtree {
      NothingClaimed(lib, a, img, DEFAULT_BLOCK_SIZE);
      BuiltFacts(lib, a, img, DEFAULT_BLOCK_SIZE);
    }
  }

  lemma MarkerForBlob(lib: Hashlib, img: bytes, d: Descriptor)
    requires d.Hashtree? && d.treeSize == 0 && d.fecOffset == 0 && d.treeOffset + FOOTER_SIZE <= |img|
    requires FooterOf(img).Some? && FooterOf(img).value.vbmetaOffset == d.treeOffset
    ensures ParseImage(lib, Zeroed(img, d, DEFAULT_BLOCK_SIZE)).Err?
  {
    hide ParseFooter, ParseHeader, ParseList, Zeroed;
    var out, at := Zeroed(img, d, DEFAULT_BLOCK_SIZE), d.treeOffset;
    MarkerStands(img, d);
    var data := Clip(out, at, at + VBMETA_HEADER_SIZE);
    assert data[..4][0] == out[at];
    WrongMagic(data);
  }

  lemma MarkerStands(img: bytes, d: Descriptor)
    requires d.Hashtree? && d.treeSize == 0 && d.fecOffset == 0 && d.treeOffset + FOOTER_SIZE <= |img|
    ensures var out := Zeroed(img, d, DEFAULT_BLOCK_SIZE);
      && |out| == |img| + DEFAULT_BLOCK_SIZE && out[d.treeOffset] == ZERO_MARK[0]
      && out[|out| - FOOTER_SIZE..] == img[|img| - FOOTER_SIZE..]
  {
    var out, at := Zeroed(img, d, DEFAULT_BLOCK_SIZE), d.treeOffset;
    assert out == img[..at] + Marked(0, DEFAULT_BLOCK_SIZE) + img[at..];
  }

  /** Zeroing in an image of whole blocks with a tree behind whole blocks of data and no FEC data. */
  lemma ZeroingWhole(img: bytes, d: Descriptor)
    requires d.Hashtree? && d.fecOffset == 0 && ZeroEnd(d) <= |img|
    requires |img| % DEFAULT_BLOCK_SIZE == 0 && d.treeOffset % DEFAULT_BLOCK_SIZE == 0 && d.treeOffset >= DEFAULT_BLOCK_SIZE
    ensures RefusedAt(|img|, d, false, DEFAULT_BLOCK_SIZE) == if d.treeSize % DEFAULT_BLOCK_SIZE == 0 then None else Some(AtTree)
    ensures d.treeSize % DEFAULT_BLOCK_SIZE == 0 ==>
      |Zeroed(img, d, DEFAULT_BLOCK_SIZE)| == |img| + if d.treeSize == 0 then DEFAULT_BLOCK_SIZE else 0
  {
    hide Zeroed, FillRefused;
    MarkedSizes(img, d, DEFAULT_BLOCK_SIZE);
    WholeFill(d.treeSize);
    if d.treeSize % DEFAULT_BLOCK_SIZE == 0 {
      MultiplesAdd(d.treeOffset, d.treeSize, DEFAULT_BLOCK_SIZE);
      MultiplesAdd(|img|, ZeroEnd(d), DEFAULT_BLOCK_SIZE);
      WholeBlockAtLeast(d.treeSize, DEFAULT_BLOCK_SIZE);
    }
  }

  lemma WholeFill(size: nat)
    ensures FillRefused(size, false, DEFAULT_BLOCK_SIZE) <==> size % DEFAULT_BLOCK_SIZE != 0
  {
  }
}
