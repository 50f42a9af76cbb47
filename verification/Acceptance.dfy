/** What `verify_image` accepts, field by field, and images with a signature that it accepts. */
module Acceptance {
  import opened Bytes
  import opened Results
  import opened Struct
  import opened SparseFormat
  import opened SparseImage
  import opened SparseLayout
  import opened HashTree
  import opened Merkle
  import opened Descriptors
  import opened VBMeta
  import opened Blob
  import opened HashtreeFooter
  import opened Verify
  import opened VerifyLaws

  // ---------------------------------------------------------------- the blob

  /** The checks of a blob at `at`: a known algorithm; the signature over exactly header, authentication and auxiliary
      block, unless it is not signed; and the key in the auxiliary block, if one was given. */
  predicate Genuine(env: Env, h: Header, img: bytes, at: nat) {
    var blob := Clip(img, at, at + 256 + h.authSize + h.auxSize);
    var key := 256 + h.authSize + h.publicKey.offset;
    && h.algorithmType < 7
    && (h.algorithmType == 0 || env.signature(h, blob))
    && (env.key.Some? ==> Clip(blob, key, key + h.publicKey.size) == env.key.value)
  }

  // ---------------------------------------------------------------- the descriptors

  /** What a descriptor has to say: a hash, the digest of the bytes it is about; a chained partition, what is expected of
      it, and with `follow` that partition has to verify too. A tree is `TreeAccepted`'s matter. */
  ghost predicate Accepts(lib: Hashlib, env: Env, expected: Chains, self: Partition, cursor: nat, d: Descriptor, follow: bool) {
    match d
    case Hash(size, alg, name, salt, digest, _) =>
      var subject := if name == [] then Some(self) else if name in env.files then PartitionOf(env.files[name]) else None;
      var from := if name == [] then cursor else 0;
      && subject.Some? && lib.hashSize(alg).Some? && (subject.value.readable || size == 0)
      && (digest == [] || digest == lib.hash(alg, salt + Clip(subject.value.contents, from, from + size)))
    case Hashtree(_, _, _, _, _, _, _, _, _, _, name, _, _, _) =>
      var subject := if name == [] then Some(self) else if name in env.files then PartitionOf(env.files[name]) else None;
      subject.Some? && TreeMatches(lib, d, subject.value, env.acceptZeroed)
    case ChainPartition(location, name, key, _) =>
      && (if name in expected then expected[name] == (location, key) else follow)
      && (follow ==> name in env.files && Verifies(lib, env, map[], PartitionOf(env.files[name]), false))
    case _ => true
  }

  /** The same without these names, kind by kind. */
  lemma AcceptsMeans(lib: Hashlib, env: Env, expected: Chains, self: Partition, cursor: nat, d: Descriptor, follow: bool)
    ensures d.Hash? && d.partitionName == [] ==>
      (Accepts(lib, env, expected, self, cursor, d, follow) <==>
         lib.hashSize(d.hashAlgorithm).Some? && (self.readable || d.imageSize == 0)
         && (d.digest == [] || d.digest == lib.hash(d.hashAlgorithm, d.salt + Clip(self.contents, cursor, cursor + d.imageSize))))
    ensures d.Hash? && d.partitionName != [] ==>
      (Accepts(lib, env, expected, self, cursor, d, follow) <==>
         d.partitionName in env.files && PartitionOf(env.files[d.partitionName]).Some?
         && var other := PartitionOf(env.files[d.partitionName]).value;
            && lib.hashSize(d.hashAlgorithm).Some? && (other.readable || d.imageSize == 0)
            && (d.digest == [] || d.digest == lib.hash(d.hashAlgorithm, d.salt + Clip(other.contents, 0, d.imageSize))))
    ensures d.Hashtree? && d.partitionName == [] ==>
      (Accepts(lib, env, expected, self, cursor, d, follow) <==> TreeMatches(lib, d, self, env.acceptZeroed))
    ensures d.Hashtree? && d.partitionName != [] ==>
      (Accepts(lib, env, expected, self, cursor, d, follow) <==>
         d.partitionName in env.files && PartitionOf(env.files[d.partitionName]).Some?
         && TreeMatches(lib, d, PartitionOf(env.files[d.partitionName]).value, env.acceptZeroed))
    ensures d.ChainPartition? ==>
      (Accepts(lib, env, expected, self, cursor, d, follow) <==>
         (if d.partitionName in expected then expected[d.partitionName] == (d.rollbackIndexLocation, d.publicKey) else follow)
         && (follow ==> d.partitionName in env.files
                        && Verifies(lib, env, map[], PartitionOf(env.files[d.partitionName]), false)))
    ensures d.Property? || d.KernelCmdline? || d.Unknown? ==> Accepts(lib, env, expected, self, cursor, d, follow)
  {
    hide TreeMatches, PartitionOf, Verifies, Clip;
  }

  lemma AcceptsPasses(lib: Hashlib, env: Env, expected: Chains, self: Partition, cursor: nat, d: Descriptor, follow: bool)
    ensures Passes(lib, env, expected, self, cursor, d, follow) <==> Accepts(lib, env, expected, self, cursor, d, follow)
  {
    hide TreeMatches, PartitionOf;
    if d.ChainPartition? && follow {
      NothingThere(lib, env, map[]);
    }
    hide Verifies;
  }

  /** `verify_image` succeeds exactly if the image parses, its blob is genuine, and every descriptor is accepted. */
  lemma VerifiesIf(lib: Hashlib, env: Env, expected: Chains, part: Option<Partition>, follow: bool)
    ensures Verifies(lib, env, expected, part, follow) <==>
      && part.Some? && ParseImage(lib, part.value.contents).Ok?
      && var p, img := ParseImage(lib, part.value.contents).value, part.value.contents;
         var at := if p.footer.Some? then p.footer.value.vbmetaOffset else 0;
         var blob := Clip(img, at, at + 256 + p.header.authSize + p.header.auxSize);
         var key := 256 + p.header.authSize + p.header.publicKey.offset;
         && p.header.algorithmType < 7 && (p.header.algorithmType == 0 || env.signature(p.header, blob))
         && (env.key.Some? ==> Clip(blob, key, key + p.header.publicKey.size) == env.key.value)
         && forall i :: 0 <= i < |p.descriptors| ==>
              Accepts(lib, env, expected, part.value, CursorFor(p, img, i), p.descriptors[i], follow)
  {
    hide ParseImage, Accepts, Verifies, CursorFor, Clip;
    VerifiesGenuine(lib, env, expected, part, follow);
  }

  lemma VerifiesGenuine(lib: Hashlib, env: Env, expected: Chains, part: Option<Partition>, follow: bool)
    ensures Verifies(lib, env, expected, part, follow) <==>
      && part.Some? && ParseImage(lib, part.value.contents).Ok?
      && var p, img := ParseImage(lib, part.value.contents).value, part.value.contents;
         && Genuine(env, p.header, img, if p.footer.Some? then p.footer.value.vbmetaOffset else 0)
         && forall i :: 0 <= i < |p.descriptors| ==>
              Accepts(lib, env, expected, part.value, CursorFor(p, img, i), p.descriptors[i], follow)
  {
    hide ParseImage, Accepts, Passes, CursorFor, Clip;
    if part.Some? && ParseImage(lib, part.value.contents).Ok? {
      var p, img := ParseImage(lib, part.value.contents).value, part.value.contents;
      forall i | 0 <= i < |p.descriptors|
        ensures Passes(lib, env, expected, part.value, CursorFor(p, img, i), p.descriptors[i], follow)
           <==> Accepts(lib, env, expected, part.value, CursorFor(p, img, i), p.descriptors[i], follow)
      {
        AcceptsPasses(lib, env, expected, part.value, CursorFor(p, img, i), p.descriptors[i], follow);
      }
    }
  }

  /** Running the command: what an image that is accepted must be, and that it is accepted if its descriptors are, too. */
  method VerifyFile(lib: Hashlib, env: Env, expected: Chains, file: bytes, follow: bool) returns (r: Result<()>)
    requires lib.Valid() && FilesUsable(env) && Usable(file)
    requires Ends(lib, env, PartitionOf(file), follow)
    ensures r.Ok? ==> PartitionOf(file).Some? && ParseImage(lib, PartitionOf(file).value.contents).Ok?
    ensures PartitionOf(file).Some? && ParseImage(lib, PartitionOf(file).value.contents).Ok? ==>
      var part := PartitionOf(file).value;
      var img, p := part.contents, ParseImage(lib, part.contents).value;
      var at := if p.footer.Some? then p.footer.value.vbmetaOffset else 0;
      var blob := Clip(img, at, at + 256 + p.header.authSize + p.header.auxSize);
      var key := 256 + p.header.authSize + p.header.publicKey.offset;
      && (r.Ok? ==> p.header.algorithmType < 7 && (p.header.algorithmType != 0 ==> env.signature(p.header, blob)))
      && (r.Ok? && env.key.Some? ==> env.key.value == Clip(blob, key, key + p.header.publicKey.size))
      && (r.Err? && p.header.algorithmType < 7 && (p.header.algorithmType != 0 ==> env.signature(p.header, blob))
          && (env.key.Some? ==> env.key.value == Clip(blob, key, key + p.header.publicKey.size)) ==>
            exists i :: 0 <= i < |p.descriptors|
                        && !Accepts(lib, env, expected, part, CursorFor(p, img, i), p.descriptors[i], follow))
  {
    hide PartitionOf, Usable, FilesUsable, ParseImage, Accepts, CursorFor, Verifies, Ends, Clip;
    VerifiesIf(lib, env, expected, PartitionOf(file), follow);
    r := VerifyImage(lib, env, expected, file, follow);
  }

  /** Where the cursor of the image is when its descriptors are checked: behind the blob at first; then a hash descriptor
      without a name moves it by what it reads, a tree descriptor without a name puts it behind the stored tree. */
  lemma CursorMoves(p: Parsed, img: bytes, i: nat)
    requires i < |p.descriptors|
    ensures var at := if p.footer.Some? then p.footer.value.vbmetaOffset else 0;
      CursorFor(p, img, 0) == at + |Clip(img, at, at + 256 + p.header.authSize + p.header.auxSize)|
    ensures var c, d := CursorFor(p, img, i), p.descriptors[i];
      CursorFor(p, img, i + 1) ==
        if d.Hash? && d.partitionName == [] then c + |Clip(img, c, c + d.imageSize)|
        else if d.Hashtree? && d.partitionName == [] then d.treeOffset + |Clip(img, d.treeOffset, d.treeOffset + d.treeSize)|
        else c
  {
    hide Clip;
  }

  /** How the tree of a descriptor is hashed. */
  lemma TreeHashingIs(lib: Hashlib, d: Descriptor)
    requires d.Hashtree? && lib.treeHashSize(d.hashAlgorithm).Some? && lib.treeHashSize(d.hashAlgorithm).value > 0
    ensures var h := TreeHashing(lib, d);
      && (forall data :: h.hash(data) == lib.treeHash(d.hashAlgorithm, data))
      && h.salt == d.salt && h.bs == d.dataBlockSize && lib.treeHashSize(d.hashAlgorithm) == Some(h.digestSize)
      && (exists k: nat :: Pow2(k) == h.digestSize + h.padding)
      && forall k: nat :: Pow2(k) >= h.digestSize ==> Pow2(k) >= h.digestSize + h.padding
  {
    hide RoundToPow2;
    RoundToPow2Least(lib.treeHashSize(d.hashAlgorithm).value);
  }

  /** A tree descriptor of a complete image: root digest and stored tree are those of the image's own tree, unless there
      is no digest to compare, or the stored tree may be zeroed and starts with the mark "ZeRoHaSH". */
  lemma TreeAccepted(lib: Hashlib, d: Descriptor, part: Partition, acceptZeroed: bool, levels: seq<bytes>, offsets: seq<nat>,
      root: bytes, tree: bytes)
    requires d.Hashtree? && lib.Valid() && lib.treeHashSize(d.hashAlgorithm).Some? && TreeEnds(lib, d, part.contents)
    requires 0 < d.dataBlockSize < d.imageSize <= |part.contents|
    requires IsTree(TreeHashing(lib, d), part.contents[..d.imageSize], levels, offsets, root, tree)
    ensures TreeMatches(lib, d, part, acceptZeroed) <==>
      var stored := Clip(part.contents, d.treeOffset, d.treeOffset + d.treeSize);
      && (part.readable || d.treeSize == 0)
      && (d.rootDigest == [] || d.rootDigest == root)
      && (stored == tree || (acceptZeroed && (d.treeSize == 0 || Clip(stored, 0, 8) == AsciiBytes("ZeRoHaSH"))))
  {
    hide IsTree, Root, Tree, TreeEnds, Clip;
    var h, data := TreeHashing(lib, d), part.contents[..d.imageSize];
    TreeHashingValid(lib, d, part.contents);
    TreeIs(h, data);
    TreeUnique(h, data, levels, offsets, root, tree,
               Levels(h, data), LevelOffsets(|data|, h.bs, h.Slot()), Root(h, data), Tree(h, data));
    MarkIs();
  }

  /** ... and of an image of one block or less: one block is hashed as it is and has no tree; there is nothing to compare
      for less, or for an algorithm that is not known. */
  lemma SmallTreeAccepted(lib: Hashlib, d: Descriptor, part: Partition, acceptZeroed: bool)
    requires d.Hashtree? && lib.Valid()
    requires d.imageSize <= d.dataBlockSize || d.dataBlockSize == 0 || lib.treeHashSize(d.hashAlgorithm).None?
    ensures TreeMatches(lib, d, part, acceptZeroed) <==>
      var stored := Clip(part.contents, d.treeOffset, d.treeOffset + d.treeSize);
      && lib.treeHashSize(d.hashAlgorithm).Some? && d.imageSize == d.dataBlockSize
      && (part.readable || (d.treeSize == 0 && d.imageSize == 0))
      && (d.rootDigest == [] || d.rootDigest == lib.treeHash(d.hashAlgorithm, d.salt + Clip(part.contents, 0, d.imageSize)))
      && (stored == [] || (acceptZeroed && (d.treeSize == 0 || Clip(stored, 0, 8) == AsciiBytes("ZeRoHaSH"))))
  {
    hide Clip, Root, Tree, RoundToPow2;
    MarkIs();
  }

  lemma MarkIs()
    ensures ZeroHashtree.ZERO_MARK == AsciiBytes("ZeRoHaSH")
  {
  }

  // ---------------------------------------------------------------- the files of other partitions

  /** What another partition's file stands for: itself, if it does not start like a sparse file; the image of its chunks,
      if it is a whole sparse file. */
  lemma PartitionIs(file: bytes, bs: nat, cs: seq<Chunk>)
    ensures |file| < 28 ==> PartitionOf(file).None?
    ensures |file| >= 28 && file[..4] != [0x3a, 0xff, 0x26, 0xed] ==> PartitionOf(file) == Some(Partition(file, false, true))
    ensures SparseFile(file, bs, cs) ==> PartitionOf(file) == Some(Partition(Expand(file, bs, cs), true, cs != []))
  {
    hide Table, Expand, HeaderFor, Parse, SparseFile, Complete;
    ParseIs(file);
    if |file| >= 4 {
      MagicIs(file);
      var front := file[..4];
      assert front[0] == file[0] && front[1] == file[1] && front[2] == file[2] && front[3] == file[3];
    }
    if SparseFile(file, bs, cs) {
      ParseFindsTable(file, bs, cs);
      SparseFileIsComplete(file, bs, cs);
    } else if Parse(file).Ok? && !MagicPrefix(file) {
      FlatIsComplete(file);
    }
  }

  lemma FlatIsComplete(file: bytes)
    requires Parse(file) == Ok(FlatView)
    ensures Complete(file, Parse(file).value)
  {
    hide Parse;
  }

  // ---------------------------------------------------------------- a signed image

  /** An image that is a blob with any authentication block and any auxiliary block that starts with the descriptors:
      it verifies exactly if the signature and the key that was given are right and the descriptors are accepted. */
  lemma SignedVerifies(lib: Hashlib, env: Env, expected: Chains, h: Header, ds: seq<Descriptor>, auth: bytes, aux: bytes,
      follow: bool)
    requires HeaderInRange(h) && ReleaseFits(h.releaseString) && 0 < h.algorithmType < 7
    requires Encodable(ds) && forall i :: 0 <= i < |ds| ==> Canonical(lib, ds[i])
    requires |auth| == h.authSize && |aux| == h.auxSize && EncodeAll(ds) <= aux
    requires h.descriptors == Extent(0, |EncodeAll(ds)|) && h.publicKey.offset + h.publicKey.size <= |aux|
    requires FooterOf(Join(HeaderFields(h)) + auth + aux).None?
    ensures var img := Join(HeaderFields(h)) + auth + aux;
      && ParseImage(lib, img) == Ok(Parsed(None, h, ds))
      && (Verifies(lib, env, expected, Some(Whole(img)), follow) <==>
            && env.signature(h, img)
            && (env.key.Some? ==> env.key.value == aux[h.publicKey.offset..h.publicKey.offset + h.publicKey.size])
            && forall i :: 0 <= i < |ds| ==>
                 Accepts(lib, env, expected, Whole(img), CursorFor(Parsed(None, h, ds), img, i), ds[i], follow))
  {
    hide HeaderInRange, ReleaseFits, Encodable, Canonical, EncodeAll, ParseImage, HeaderFields, FooterOf, Accepts, CursorFor,
      Verifies, Join, Genuine;
    var img := Join(HeaderFields(h)) + auth + aux;
    HeaderRoundTrip(h);
    SignedParses(lib, h, ds, auth, aux);
    VerifiesGenuine(lib, env, expected, Some(Whole(img)), follow);
    SignedIsGenuine(env, h, Join(HeaderFields(h)), auth, aux);
  }

  lemma SignedIsGenuine(env: Env, h: Header, head: bytes, auth: bytes, aux: bytes)
    requires 0 < h.algorithmType < 7 && |head| == 256 && |auth| == h.authSize && |aux| == h.auxSize
    requires h.publicKey.offset + h.publicKey.size <= |aux|
    ensures Genuine(env, h, head + auth + aux, 0) <==>
      && env.signature(h, head + auth + aux)
      && (env.key.Some? ==> env.key.value == aux[h.publicKey.offset..h.publicKey.offset + h.publicKey.size])
  {
    var img, key := head + auth + aux, 256 + |auth| + h.publicKey.offset;
    assert Clip(img, 0, |img|) == img[0..|img|] == img;
    assert img[key..key + h.publicKey.size] == aux[h.publicKey.offset..h.publicKey.offset + h.publicKey.size];
  }

  lemma SignedParses(lib: Hashlib, h: Header, ds: seq<Descriptor>, auth: bytes, aux: bytes)
    requires HeaderInRange(h) && ReleaseFits(h.releaseString)
    requires Encodable(ds) && forall i :: 0 <= i < |ds| ==> Canonical(lib, ds[i])
    requires |auth| == h.authSize && EncodeAll(ds) <= aux && h.descriptors == Extent(0, |EncodeAll(ds)|)
    requires FooterOf(Join(HeaderFields(h)) + auth + aux).None?
    ensures ParseImage(lib, Join(HeaderFields(h)) + auth + aux) == Ok(Parsed(None, h, ds))
  {
    hide HeaderInRange, ReleaseFits, Encodable, Canonical, EncodeAll, ParseHeader, ParseList, HeaderFields, FooterOf, Join, Clip;
    var head := Join(HeaderFields(h));
    var img := head + auth + aux;
    HeaderRoundTrip(h);
    ParseListRoundTrip(lib, ds);
    var start, n := 256 + |auth|, |EncodeAll(ds)|;
    assert img[0..256] == head && Clip(img, 0, 256) == head;
    assert img[start..start + n] == aux[..n] == EncodeAll(ds) && Clip(img, start, start + n) == EncodeAll(ds);
    assert ParseAt(lib, img, 0) == Ok((h, ds));
  }

  /** An unsigned blob of the other commands carries no key, so it verifies against no key but the empty one. */
  lemma UnsignedHasNoKey(env: Env, h: Header, img: bytes, at: nat)
    requires h.algorithmType == 0 && h.publicKey.size == 0
    ensures Genuine(env, h, img, at) <==> env.key.None? || env.key.value == []
  {
  }
}
