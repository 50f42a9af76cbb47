/** tools/avbtool: `verify_image` and the `verify` methods of the descriptors. */
module Verify {
  import opened Bytes
  import opened Results
  import opened SparseFormat
  import opened SparseImage
  import opened HashTree
  import opened Merkle
  import opened Descriptors
  import opened VBMeta
  import opened Blob
  import opened FooterEdits
  import opened HashtreeFooter
  import opened ZeroHashtree

  /** What a handler shows of a file: the flat image, whether the file is sparse, and whether there is anything to read
      from; a sparse file may have no chunks. */
  datatype Partition = Partition(contents: bytes, sparse: bool, readable: bool)

  /** A file without CRC32 chunks and with all its payload. */
  ghost predicate Usable(file: bytes) {
    Parse(file).Ok? ==> Complete(file, Parse(file).value)
  }

  ghost function PartitionOf(file: bytes): Option<Partition> {
    if Parse(file).Err? || !Complete(file, Parse(file).value) then None
    else if !MagicPrefix(file) then Some(Partition(file, false, true))
    else
      ParseSound(file);
      var chunks := Parse(file).value.chunks;
      Some(Partition(Expand(file, Parse(file).value.blockSize, chunks), true, chunks != []))
  }

  ghost function Shown(image: ImageHandler): Partition
    requires image.Sound()
    reads image
  {
    Partition(image.Contents(), image.isSparse, !image.isSparse || image.chunks != [])
  }

  /** The image files next to each other, by partition name, and the options of the command. `signature` stands
      for the check of a signed blob, `key` for the encoded public key that was given. */
  datatype Env = Env(files: map<bytes, bytes>, acceptZeroed: bool, signature: (Header, bytes) -> bool, key: Option<bytes>)

  type Chains = map<bytes, (nat, bytes)>

  /** The image of another partition. */
  ghost function FileOf(env: Env, name: bytes): Option<Partition> {
    if name in env.files then PartitionOf(env.files[name]) else None
  }

  /** The image a descriptor is about: the one that contains it, if it has no name. */
  ghost function Subject(env: Env, self: Partition, name: bytes): Option<Partition> {
    if name == [] then Some(self) else FileOf(env, name)
  }

  // ---------------------------------------------------------------- what a descriptor promises

  /** The digest is that of what is read from `from` on, or there is none to compare. */
  ghost predicate HashMatches(lib: Hashlib, d: Descriptor, part: Partition, from: nat)
    requires d.Hash?
  {
    && lib.hashSize(d.hashAlgorithm).Some? && (part.readable || d.imageSize == 0)
    && (d.digest == [] || d.digest == lib.hash(d.hashAlgorithm, d.salt + Clip(part.contents, from, from + d.imageSize)))
  }

  /** The tree computation ends: see `HashTree.LoopEnds` and `Merkle.HashingEnds`. */
  ghost predicate TreeEnds(lib: Hashlib, d: Descriptor, img: bytes)
    requires d.Hashtree?
  {
    lib.treeHashSize(d.hashAlgorithm).Some? && d.imageSize > d.dataBlockSize > 0 ==>
      2 * RoundToPow2(lib.treeHashSize(d.hashAlgorithm).value) <= d.dataBlockSize && d.imageSize <= |img|
  }

  function TreeHashing(lib: Hashlib, d: Descriptor): Hashing
    requires d.Hashtree? && lib.treeHashSize(d.hashAlgorithm).Some?
  {
    HashingOf(lib, d.hashAlgorithm, d.salt, d.dataBlockSize, lib.treeHashSize(d.hashAlgorithm).value)
  }

  lemma TreeHashingValid(lib: Hashlib, d: Descriptor, img: bytes)
    requires d.Hashtree? && lib.Valid() && lib.treeHashSize(d.hashAlgorithm).Some? && TreeEnds(lib, d, img)
    requires d.imageSize > d.dataBlockSize > 0
    ensures TreeHashing(lib, d).Valid() && TreeWorks(lib, d.hashAlgorithm, d.dataBlockSize)
  {
    HashingValid(lib, d.hashAlgorithm, d.salt, d.dataBlockSize);
  }

  /** Root digest and tree as they are computed again; a single block is hashed as far as it is there. */
  ghost function Rebuilt(lib: Hashlib, d: Descriptor, part: Partition): Option<(bytes, bytes)>
    requires d.Hashtree? && lib.Valid() && TreeEnds(lib, d, part.contents)
  {
    if lib.treeHashSize(d.hashAlgorithm).None? then None
    else if d.imageSize == d.dataBlockSize then
      if part.readable || d.imageSize == 0
      then Some((lib.treeHash(d.hashAlgorithm, d.salt + Clip(part.contents, 0, d.imageSize)), []))
      else None
    else if d.imageSize < d.dataBlockSize || d.dataBlockSize == 0 then None
    else
      TreeHashingValid(lib, d, part.contents);
      var data := part.contents[..d.imageSize];
      Some((Root(TreeHashing(lib, d), data), Tree(TreeHashing(lib, d), data)))
  }

  /** What is stored where the descriptor says the tree is. */
  function OnDisk(d: Descriptor, img: bytes): bytes
    requires d.Hashtree?
  {
    Clip(img, d.treeOffset, d.treeOffset + d.treeSize)
  }

  predicate LooksZeroed(d: Descriptor, img: bytes)
    requires d.Hashtree?
  {
    d.treeSize == 0 || Clip(OnDisk(d, img), 0, 8) == ZERO_MARK
  }

  ghost predicate TreeMatches(lib: Hashlib, d: Descriptor, part: Partition, acceptZeroed: bool)
    requires d.Hashtree?
  {
    && lib.Valid() && TreeEnds(lib, d, part.contents) && (part.readable || d.treeSize == 0)
    && var rebuilt := Rebuilt(lib, d, part);
       && rebuilt.Some?
       && (d.rootDigest == [] || d.rootDigest == rebuilt.value.0)
       && ((acceptZeroed && LooksZeroed(d, part.contents)) || OnDisk(d, part.contents) == rebuilt.value.1)
  }

  /** A hash descriptor is checked from wherever the cursor of its image is: at the start of another partition, but
      behind what was read last in the image that contains it. */
  ghost predicate DescriptorOk(lib: Hashlib, env: Env, expected: Chains, self: Partition, cursor: nat, d: Descriptor) {
    match d
    case Hash(_, _, name, _, _, _) =>
      Subject(env, self, name).Some? && HashMatches(lib, d, Subject(env, self, name).value, if name == [] then cursor else 0)
    case Hashtree(_, _, _, _, _, _, _, _, _, _, name, _, _, _) =>
      Subject(env, self, name).Some? && TreeMatches(lib, d, Subject(env, self, name).value, env.acceptZeroed)
    case ChainPartition(location, name, key, _) => name in expected && expected[name] == (location, key)
    case _ => true
  }

  /** Where checking a descriptor leaves the cursor of the image that contains it. */
  function CursorAfter(d: Descriptor, img: bytes, cursor: nat): nat {
    if d.Hash? && d.partitionName == [] then cursor + |Clip(img, cursor, cursor + d.imageSize)|
    else if d.Hashtree? && d.partitionName == [] then d.treeOffset + |OnDisk(d, img)|
    else cursor
  }

  /** The tree computation of a descriptor ends, and no read of a sparse image starts past its end. */
  ghost predicate Checkable(lib: Hashlib, env: Env, self: Partition, d: Descriptor) {
    d.Hashtree? && Subject(env, self, d.partitionName).Some? ==>
      var part := Subject(env, self, d.partitionName).value;
      TreeEnds(lib, d, part.contents) && (part.sparse ==> d.treeOffset <= |part.contents|)
  }

  ghost predicate FilesUsable(env: Env) {
    forall name :: name in env.files ==> Usable(env.files[name])
  }

  // ---------------------------------------------------------------- checking one descriptor

  /** `ImageHandler(filename, read_only=True)`. */
  method OpenForReading(file: bytes) returns (r: Result<ImageHandler>)
    requires Usable(file)
    ensures r.Ok? <==> PartitionOf(file).Some?
    ensures r.Ok? ==> fresh(r.value) && r.value.Valid() && r.value.filePos == 0
    ensures r.Ok? ==> Shown(r.value) == PartitionOf(file).value
  {
    r := ImageHandler.Open(file, true);
  }

  /** `seek` and `read` inside a sparse image, or anywhere in a flat one. */
  method ReadStored(image: ImageHandler, offset: nat, size: nat) returns (r: Result<bytes>)
    requires image.Valid() && (image.isSparse ==> offset <= image.imageSize)
    modifies image`filePos
    ensures image.Valid() && Shown(image) == old(Shown(image))
    ensures r.Ok? <==> Shown(image).readable || size == 0
    ensures r.Ok? ==> r.value == Clip(image.Contents(), offset, offset + size) && image.filePos == offset + |r.value|
  {
    hide BlockBytes, Table, HeaderFor, PastEnd;
    var _ := image.Seek(offset);
    r := image.Read(size);
  }

  method VerifyHash(lib: Hashlib, d: Descriptor, image: ImageHandler) returns (r: Result<bool>)
    requires d.Hash? && image.Valid() && (image.isSparse ==> image.filePos <= image.imageSize)
    modifies image`filePos
    ensures image.Valid() && Shown(image) == old(Shown(image))
    ensures r == Ok(true) <==> HashMatches(lib, d, Shown(image), old(image.filePos))
    ensures r.Ok? ==>
      image.filePos == old(image.filePos) + |Clip(image.Contents(), old(image.filePos), old(image.filePos) + d.imageSize)|
  {
    hide ImageHandler.Sound, ImageHandler.Contents;
    var data :- ReadStored(image, image.filePos, d.imageSize);
    if lib.hashSize(d.hashAlgorithm).None? {
      return Err(ValueError);
    }
    var digest := lib.hash(d.hashAlgorithm, d.salt + data);
    return Ok(d.digest == [] || digest == d.digest);
  }

  /** The tree and root digest of the image itself. */
  method Rebuild(lib: Hashlib, d: Descriptor, image: ImageHandler) returns (r: Result<(bytes, bytes)>)
    requires d.Hashtree? && image.Valid() && lib.Valid() && TreeEnds(lib, d, image.Contents())
    modifies image`filePos
    ensures image.Valid() && Shown(image) == old(Shown(image))
    ensures r.Ok? <==> Rebuilt(lib, d, Shown(image)).Some?
    ensures r.Ok? ==> r.value == Rebuilt(lib, d, Shown(image)).value
  {
    hide BlockBytes, Table, HeaderFor, Root, Tree, RoundToPow2, LevelOffsets, TreeSize, Written,
      ImageHandler.Contents;
    if lib.treeHashSize(d.hashAlgorithm).None? {
      return Err(ValueError);
    }
    if d.dataBlockSize == 0 && d.imageSize > 0 {
      return Err(ZeroDivisionError);
    }
    ghost var part := Shown(image);
    var h := TreeHashing(lib, d);
    var offsets, treeSize := [], 0;
    if d.dataBlockSize > 0 {
      if d.imageSize > d.dataBlockSize {
        TreeHashingValid(lib, d, image.Contents());
        OffsetsInside(d.imageSize, d.dataBlockSize, h.Slot());
      } else {
        NoLevelsAtAll(d.imageSize, d.dataBlockSize, h.Slot());
      }
      offsets, treeSize := CalcHashLevelOffsets(d.imageSize, d.dataBlockSize, h.Slot());
    }
    r := GenerateHashTree(h, image, d.imageSize, offsets, treeSize);
    if d.imageSize > d.dataBlockSize {
      RebuiltTree(lib, d, part);
    }
  }

  lemma NoLevelsAtAll(size: nat, bs: nat, digest: nat)
    requires bs > 0 && size <= bs
    ensures LevelOffsets(size, bs, digest) == [] && TreeSize(size, bs, digest) == 0
  {
  }

  /** For more than one block the builder returns the tree. */
  lemma RebuiltTree(lib: Hashlib, d: Descriptor, part: Partition)
    requires d.Hashtree? && lib.Valid() && lib.treeHashSize(d.hashAlgorithm).Some? && TreeEnds(lib, d, part.contents)
    requires d.imageSize > d.dataBlockSize > 0
    ensures TreeHashing(lib, d).Valid()
    ensures var h, data := TreeHashing(lib, d), part.contents[..d.imageSize];
      var offsets, tree := LevelOffsets(d.imageSize, h.bs, h.Slot()), Zeros(TreeSize(d.imageSize, h.bs, h.Slot()));
      && (forall i :: 0 <= i < |offsets| ==> offsets[i] <= |tree|)
      && Written(h, tree, offsets, data) == Ok(Tree(h, data))
      && Rebuilt(lib, d, part) == Some((Root(h, data), Tree(h, data)))
  {
    hide Root, Tree, RoundToPow2, LevelOffsets, TreeSize, Written;
    TreeHashingValid(lib, d, part.contents);
    var h, data := TreeHashing(lib, d), part.contents[..d.imageSize];
    var tree := Zeros(TreeSize(d.imageSize, h.bs, h.Slot()));
    WrittenTree(h, tree, data);
    assert Tree(h, data) + tree[|tree|..] == Tree(h, data);
  }

  method VerifyHashtree(lib: Hashlib, d: Descriptor, image: ImageHandler, acceptZeroed: bool) returns (r: Result<bool>)
    requires d.Hashtree? && image.Valid() && lib.Valid()
    requires TreeEnds(lib, d, image.Contents()) && (image.isSparse ==> d.treeOffset <= image.imageSize)
    modifies image`filePos
    ensures image.Valid() && Shown(image) == old(Shown(image))
    ensures r == Ok(true) <==> TreeMatches(lib, d, Shown(image), acceptZeroed)
    ensures r == Ok(true) ==> image.filePos == d.treeOffset + |OnDisk(d, image.Contents())|
  {
    hide Rebuilt, TreeEnds, ImageHandler.Contents, ImageHandler.Sound;
    var built :- Rebuild(lib, d, image);
    if d.rootDigest != [] && built.0 != d.rootDigest {
      return Ok(false);
    }
    var onDisk :- ReadStored(image, d.treeOffset, d.treeSize);
    var isZeroed := d.treeSize == 0 || Clip(onDisk, 0, 8) == ZERO_MARK;
    if isZeroed && acceptZeroed {
      return Ok(true);
    }
    return Ok(built.1 == onDisk);
  }

  /** The `verify` methods of hash and hashtree descriptors, from opening the image on. */
  method VerifyData(lib: Hashlib, env: Env, d: Descriptor, sub: ImageHandler) returns (r: Result<bool>)
    requires (d.Hash? || d.Hashtree?) && lib.Valid() && sub.Valid()
    requires d.Hash? && sub.isSparse ==> sub.filePos <= sub.imageSize
    requires d.Hashtree? ==> TreeEnds(lib, d, sub.Contents()) && (sub.isSparse ==> d.treeOffset <= sub.imageSize)
    modifies sub`filePos
    ensures sub.Valid() && Shown(sub) == old(Shown(sub))
    ensures r == Ok(true) <==>
      if d.Hash? then HashMatches(lib, d, Shown(sub), old(sub.filePos)) else TreeMatches(lib, d, Shown(sub), env.acceptZeroed)
    ensures r == Ok(true) && d.Hash? ==>
      sub.filePos == old(sub.filePos) + |Clip(sub.Contents(), old(sub.filePos), old(sub.filePos) + d.imageSize)|
    ensures r == Ok(true) && d.Hashtree? ==> sub.filePos == d.treeOffset + |OnDisk(d, sub.Contents())|
  {
    hide TreeMatches, HashMatches, TreeEnds, ImageHandler.Sound, ImageHandler.Contents;
    if d.Hash? {
      r := VerifyHash(lib, d, sub);
    } else {
      r := VerifyHashtree(lib, d, sub, env.acceptZeroed);
    }
  }

  /** `desc.verify`. */
  method VerifyDescriptor(lib: Hashlib, env: Env, expected: Chains, image: ImageHandler, d: Descriptor) returns (r: Result<bool>)
    requires image.Valid() && lib.Valid() && FilesUsable(env) && (image.isSparse ==> image.filePos <= image.imageSize)
    requires Checkable(lib, env, Shown(image), d)
    modifies image`filePos
    ensures image.Valid() && Shown(image) == old(Shown(image))
    ensures r == Ok(true) <==> DescriptorOk(lib, env, expected, Shown(image), old(image.filePos), d)
    ensures r == Ok(true) ==> image.filePos == CursorAfter(d, image.Contents(), old(image.filePos))
    ensures r == Ok(true) && image.isSparse ==> image.filePos <= image.imageSize
  {
    hide TreeMatches, HashMatches, TreeEnds, ImageHandler.Sound, ImageHandler.Contents, PartitionOf, Usable;
    if d.ChainPartition? {
      return Ok(d.partitionName in expected && expected[d.partitionName] == (d.rollbackIndexLocation, d.publicKey));
    }
    if !d.Hash? && !d.Hashtree? {
      return Ok(true);
    }
    if d.partitionName == [] {
      r := VerifyData(lib, env, d, image);
      return;
    }
    if d.partitionName !in env.files {
      return Err(OSError);
    }
    var sub :- OpenForReading(env.files[d.partitionName]);
    r := VerifyData(lib, env, d, sub);
  }

  // ---------------------------------------------------------------- verify_image

  const NUM_ALGORITHMS := 7

  /** Where the blob of an image starts, and the bytes its header says it has. */
  function BlobIn(p: Parsed, img: bytes): bytes {
    var at := if p.footer.Some? then p.footer.value.vbmetaOffset else 0;
    Clip(img, at, at + VBMETA_HEADER_SIZE + p.header.authSize + p.header.auxSize)
  }

  function KeyIn(p: Parsed, blob: bytes): bytes {
    var at := VBMETA_HEADER_SIZE + p.header.authSize + p.header.publicKey.offset;
    Clip(blob, at, at + p.header.publicKey.size)
  }

  /** The checks of the blob itself. */
  predicate BlobVerifies(env: Env, p: Parsed, blob: bytes) {
    && p.header.algorithmType < NUM_ALGORITHMS
    && (p.header.algorithmType != 0 ==> env.signature(p.header, blob))
    && (env.key.Some? ==> env.key.value == KeyIn(p, blob))
  }

  /** Where the cursor is when descriptor `i` is checked: behind the blob at first. */
  function Cursor(ds: seq<Descriptor>, img: bytes, start: nat, i: nat): nat
    requires i <= |ds|
  {
    if i == 0 then start else CursorAfter(ds[i - 1], img, Cursor(ds, img, start, i - 1))
  }

  function BlobStartsAt(p: Parsed): nat { if p.footer.Some? then p.footer.value.vbmetaOffset else 0 }

  function CursorFor(p: Parsed, img: bytes, i: nat): nat
    requires i <= |p.descriptors|
  {
    Cursor(p.descriptors, img, BlobStartsAt(p) + |BlobIn(p, img)|, i)
  }

  /** A descriptor passes: with `follow`, a chained partition nobody expects anything of is only followed. */
  ghost predicate Passes(lib: Hashlib, env: Env, expected: Chains, self: Partition, cursor: nat, d: Descriptor, follow: bool)
    decreases follow, 0
  {
    && ((follow && d.ChainPartition? && d.partitionName !in expected) || DescriptorOk(lib, env, expected, self, cursor, d))
    && (follow && d.ChainPartition? ==> Verifies(lib, env, map[], FileOf(env, d.partitionName), false))
  }

  /** What `verify_image` establishes: the blob is genuine and every descriptor passes. */
  ghost predicate Verifies(lib: Hashlib, env: Env, expected: Chains, part: Option<Partition>, follow: bool)
    decreases follow, 1
  {
    && part.Some? && ParseImage(lib, part.value.contents).Ok?
    && var p := ParseImage(lib, part.value.contents).value;
       && BlobVerifies(env, p, BlobIn(p, part.value.contents))
       && forall i :: 0 <= i < |p.descriptors| ==>
            Passes(lib, env, expected, part.value, CursorFor(p, part.value.contents, i), p.descriptors[i], follow)
  }

  /** Every check the command may make ends, and no read of a sparse file starts past its end. */
  ghost predicate Ends(lib: Hashlib, env: Env, part: Option<Partition>, follow: bool)
    decreases follow
  {
    part.Some? ==>
      && (part.value.sparse ==> InBounds(part.value.contents))
      && (ParseImage(lib, part.value.contents).Ok? ==>
            forall i :: 0 <= i < |ParseImage(lib, part.value.contents).value.descriptors| ==>
              var d := ParseImage(lib, part.value.contents).value.descriptors[i];
              && Checkable(lib, env, part.value, d)
              && (follow && d.ChainPartition? ==> Ends(lib, env, FileOf(env, d.partitionName), false)))
  }

  /** `verify_image`. */
  method VerifyImage(lib: Hashlib, env: Env, expected: Chains, file: bytes, follow: bool) returns (r: Result<()>)
    requires lib.Valid() && FilesUsable(env) && Usable(file)
    requires Ends(lib, env, PartitionOf(file), follow)
    ensures r.Ok? <==> Verifies(lib, env, expected, PartitionOf(file), follow)
    decreases follow, 1
  {
    hide ImageHandler.Sound, ImageHandler.Contents, PartitionOf, Usable, FilesUsable, ParseImage, Passes, Checkable,
      BlobVerifies, ParseThrough, InBounds, FooterOf, BlobIn, Cursor;
    var image :- OpenForReading(file);
    var parsed := ParseImageOf(lib, image);
    if parsed.Err? {
      return Err(parsed.error);
    }
    ParseFindsFooter(lib, image.Contents());
    var blob := ReadBlob(image, parsed.value);
    if !BlobVerifies(env, parsed.value, blob) {
      return Err(AvbError);
    }
    r := VerifyAll(lib, env, expected, image, parsed.value.descriptors, follow);
  }

  lemma ShownFacts(image: ImageHandler)
    requires image.Sound()
    ensures Shown(image).contents == image.Contents() && Shown(image).sparse == image.isSparse
  {
  }

  lemma ParseFindsFooter(lib: Hashlib, img: bytes)
    requires ParseImage(lib, img).Ok?
    ensures ParseImage(lib, img).value.footer == FooterOf(img) && |img| >= FOOTER_SIZE
  {
    hide ParseAt, FooterOf;
  }

  method ReadBlob(image: ImageHandler, p: Parsed) returns (blob: bytes)
    requires image.Valid() && image.imageSize > 0
    requires image.isSparse ==> InBounds(image.Contents())
    requires FooterOf(image.Contents()) == p.footer
    modifies image`filePos
    ensures image.Valid() && Shown(image) == old(Shown(image))
    ensures blob == BlobIn(p, image.Contents())
    ensures image.filePos == BlobStartsAt(p) + |blob| && (image.isSparse ==> image.filePos <= image.imageSize)
  {
    hide ImageHandler.Sound, ImageHandler.Contents, FooterOf, ParseHeader;
    HasChunks(image);
    var offset := if p.footer.Some? then p.footer.value.vbmetaOffset else 0;
    var read := ReadStored(image, offset, VBMETA_HEADER_SIZE + p.header.authSize + p.header.auxSize);
    blob := read.value;
  }

  lemma NothingThere(lib: Hashlib, env: Env, expected: Chains)
    ensures !Verifies(lib, env, expected, None, false)
  {
  }

  /** The descriptor loop of `verify_image`. */
  method VerifyAll(lib: Hashlib, env: Env, expected: Chains, image: ImageHandler, ds: seq<Descriptor>, follow: bool)
    returns (r: Result<()>)
    requires lib.Valid() && FilesUsable(env) && image.Valid() && (image.isSparse ==> image.filePos <= image.imageSize)
    requires forall i :: 0 <= i < |ds| ==> Checkable(lib, env, Shown(image), ds[i])
    requires follow ==> forall i :: 0 <= i < |ds| && ds[i].ChainPartition? ==> Ends(lib, env, FileOf(env, ds[i].partitionName), false)
    modifies image`filePos
    ensures r.Ok? <==> forall i :: 0 <= i < |ds| ==>
      Passes(lib, env, expected, old(Shown(image)), Cursor(ds, old(image.Contents()), old(image.filePos), i), ds[i], follow)
    decreases follow, 0
  {
    hide ImageHandler.Sound, ImageHandler.Contents, PartitionOf, Usable, Checkable, DescriptorOk, Verifies, Ends,
      CursorAfter, Shown;
    ghost var self, start := Shown(image), image.filePos;
    ghost var img := image.Contents();
    ShownFacts(image);
    for i := 0 to |ds|
      invariant image.Valid() && Shown(image) == self && image.Contents() == img
      invariant image.isSparse ==> image.filePos <= image.imageSize
      invariant image.filePos == Cursor(ds, img, start, i)
      invariant forall j :: 0 <= j < i ==> Passes(lib, env, expected, self, Cursor(ds, img, start, j), ds[j], follow)
    {
      var d := ds[i];
      if !(d.ChainPartition? && follow && d.partitionName !in expected) {
        var ok :- VerifyDescriptor(lib, env, expected, image, d);
        ShownFacts(image);
        if !ok {
          return Err(AvbError);
        }
      } else {
        ChainsKeepCursor(d, img, image.filePos);
      }
      if d.ChainPartition? && follow {
        if d.partitionName !in env.files {
          NothingThere(lib, env, map[]);
          return Err(OSError);
        }
        var _ :- VerifyImage(lib, env, map[], env.files[d.partitionName], false);
      }
    }
    return Ok(());
  }

  lemma ChainsKeepCursor(d: Descriptor, img: bytes, cursor: nat)
    requires d.ChainPartition?
    ensures CursorAfter(d, img, cursor) == cursor
  {
  }
}
