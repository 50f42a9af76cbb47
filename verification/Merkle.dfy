/** tools/avbtool `generate_hash_tree`: the tree built in place, against a recursive Merkle tree. */
module Merkle {
  import opened Bytes
  import opened Results
  import opened SparseImage
  import opened HashTree

  /** The hash, with the salt it is keyed with, the block size and the padding after each digest. */
  datatype Hashing = Hashing(hash: bytes -> bytes, salt: bytes, bs: nat, digestSize: nat, padding: nat) {
    /** Digests have a fixed, positive size, and two of them fit in a block. */
    ghost predicate Valid() {
      && bs > 0 && digestSize > 0
      && 2 * (digestSize + padding) <= bs
      && forall x :: |hash(x)| == digestSize
    }

    function Slot(): nat { digestSize + padding }
  }

  /** Block `k` of `src`, filled up with zeros. */
  function BlockAt(src: bytes, bs: nat, k: nat): (b: bytes)
    ensures |src| >= (k + 1) * bs ==> |b| == bs && b == src[k * bs..(k + 1) * bs]
  {
    MulNat(k, bs);
    Distribute(k, 1, bs);
    var data := Clip(src, k * bs, (k + 1) * bs);
    data + Zeros(bs - |data|)
  }

  /** The padded digests of the first `n` blocks. */
  ghost function Digests(h: Hashing, src: bytes, n: nat): (d: bytes)
    requires h.Valid()
    ensures |d| == n * h.Slot()
  {
    if n == 0 then []
    else
      Distribute(n - 1, 1, h.Slot());
      Digests(h, src, n - 1) + h.hash(h.salt + BlockAt(src, h.bs, n - 1)) + Zeros(h.padding)
  }

  /** The hash level over `src`: the padded digests of all its blocks, filled up to whole blocks. */
  ghost function Level(h: Hashing, src: bytes): (l: bytes)
    requires h.Valid()
    ensures |l| == LevelSize(|src|, h.bs, h.Slot())
  {
    Digests(h, src, NumBlocks(|src|, h.bs)) + Zeros(LevelSize(|src|, h.bs, h.Slot()) - NumBlocks(|src|, h.bs) * h.Slot())
  }

  /** The Merkle root of at least one block of data. */
  ghost function Root(h: Hashing, src: bytes): bytes
    requires h.Valid() && |src| >= h.bs
    decreases NumBlocks(|src|, h.bs)
  {
    if |src| == h.bs then h.hash(h.salt + src)
    else
      LevelShrinks(|src|, h.bs, h.Slot());
      LevelNotEmpty(|src|, h.bs, h.Slot());
      Root(h, Level(h, src))
  }

  /** All levels, top level first. */
  ghost function Tree(h: Hashing, src: bytes): (t: bytes)
    requires h.Valid()
    ensures |t| == TreeSize(|src|, h.bs, h.Slot())
    decreases NumBlocks(|src|, h.bs)
  {
    if |src| <= h.bs then []
    else
      LevelShrinks(|src|, h.bs, h.Slot());
      Tree(h, Level(h, src)) + Level(h, src)
  }

  // ---------------------------------------------------------------- the in-place builder

  /** The tree builder's last hash, and the levels below `src` it still has to write above. */
  lemma TreeStep(h: Hashing, src: bytes)
    requires h.Valid() && |src| > h.bs
    ensures |Level(h, src)| >= h.bs && |Level(h, src)| % h.bs == 0
    ensures NumBlocks(|Level(h, src)|, h.bs) < NumBlocks(|src|, h.bs)
    ensures Root(h, src) == Root(h, Level(h, src))
    ensures Tree(h, src) == Tree(h, Level(h, src)) + Level(h, src)
    ensures var o := LevelOffsets(|src|, h.bs, h.Slot());
      o != [] && o[0] == TreeSize(|Level(h, src)|, h.bs, h.Slot())
      && o[1..] == LevelOffsets(|Level(h, src)|, h.bs, h.Slot())
  {
    LevelNotEmpty(|src|, h.bs, h.Slot());
    LevelShrinks(|src|, h.bs, h.Slot());
  }

  /** Where the block loop stands before it reads block `k`. */
  lemma BlockBounds(size: nat, bs: nat, k: nat)
    requires bs > 0 && k < NumBlocks(size, bs)
    ensures 0 <= k * bs < size
    ensures (k + 1) * bs == k * bs + bs
    ensures k + 1 < NumBlocks(size, bs) ==> (k + 1) * bs < size
    ensures k + 1 == NumBlocks(size, bs) ==> size <= (k + 1) * bs
  {
    var n := NumBlocks(size, bs);
    MulNat(k, bs);
    Distribute(k, 1, bs);
    MulMonotone(k + 1, n, bs);
    Distribute(n, -1, bs);
    if k + 1 < n {
      MulMonotone(k + 2, n, bs);
      Distribute(k + 1, 1, bs);
    }
  }

  lemma NoDigests(h: Hashing, src: bytes)
    requires h.Valid()
    ensures Digests(h, src, 0) == []
  {
  }

  /** What one round adds for a full or a partial block. */
  lemma DigestsStep(h: Hashing, src: bytes, k: nat, data: bytes)
    requires h.Valid() && k < NumBlocks(|src|, h.bs)
    requires k * h.bs >= 0 && data == Clip(src, k * h.bs, k * h.bs + h.bs)
    ensures Digests(h, src, k + 1)
         == Digests(h, src, k) + h.hash(h.salt + data + Zeros(h.bs - |data|)) + Zeros(h.padding)
  {
    hide NumBlocks, BlockAt, Clip;
    BlockIs(src, h.bs, k, data);
    Regroup(h.salt, data, Zeros(h.bs - |data|));
  }

  lemma BlockIs(src: bytes, bs: nat, k: nat, data: bytes)
    requires k * bs >= 0 && data == Clip(src, k * bs, k * bs + bs)
    ensures BlockAt(src, bs, k) == data + Zeros(bs - |data|)
  {
    hide Clip;
    Distribute(k, 1, bs);
  }

  /** Hashing the blocks of the image itself, read through the handler. */
  method HashImage(h: Hashing, image: ImageHandler, imageSize: nat) returns (out: bytes)
    requires h.Valid() && image.Sound() && 0 < imageSize <= image.imageSize
    modifies image`filePos
    ensures image.Sound() && image.Contents() == old(image.Contents()) && (old(image.Valid()) ==> image.Valid())
    ensures out == Digests(h, image.Contents()[..imageSize], NumBlocks(imageSize, h.bs))
  {
    hide NumBlocks, ImageHandler.Sound, ImageHandler.Contents, Digests, Clip;
    ghost var contents := image.Contents();
    ghost var src := contents[..imageSize];
    var remaining: int, k: nat := imageSize, 0;
    out := [];
    NoDigests(h, src);
    while remaining > 0
      invariant k <= NumBlocks(imageSize, h.bs)
      invariant image.Sound() && image.Contents() == contents && (old(image.Valid()) ==> image.Valid())
      invariant k < NumBlocks(imageSize, h.bs) ==> remaining == imageSize - k * h.bs > 0
      invariant k == NumBlocks(imageSize, h.bs) ==> remaining <= 0
      invariant out == Digests(h, src, k)
      decreases NumBlocks(imageSize, h.bs) - k
    {
      BlockBounds(imageSize, h.bs, k);
      var data := ReadAt(image, imageSize - remaining, Min(remaining, h.bs));
      ClipPrefix(contents, imageSize, imageSize - remaining, h.bs);
      DigestsStep(h, src, k, data);
      out := out + h.hash(h.salt + data + Zeros(h.bs - |data|)) + Zeros(h.padding);
      remaining := remaining - |data|;
      k := k + 1;
    }
  }

  lemma ClipPrefix(s: bytes, size: nat, at: nat, n: nat)
    requires at < size <= |s|
    ensures Clip(s, at, at + Min(size - at, n)) == Clip(s[..size], at, at + n)
  {
  }

  /** Hashing the blocks of a level that was just written into the array. */
  method HashLevel(h: Hashing, tree: array<byte>, at: nat, size: nat) returns (out: bytes)
    requires h.Valid() && size > 0 && size % h.bs == 0 && at + size <= tree.Length
    ensures out == Digests(h, tree[at..at + size], NumBlocks(size, h.bs))
  {
    hide NumBlocks, Digests;
    ghost var src := tree[at..at + size];
    var remaining: int, k: nat := size, 0;
    out := [];
    NoDigests(h, src);
    WholeBlockCount(size, h.bs);
    while remaining > 0
      invariant k <= NumBlocks(size, h.bs)
      invariant src == tree[at..at + size]
      invariant k < NumBlocks(size, h.bs) ==> remaining == size - k * h.bs > 0
      invariant k == NumBlocks(size, h.bs) ==> remaining <= 0
      invariant out == Digests(h, src, k)
      decreases NumBlocks(size, h.bs) - k
    {
      BlockBounds(size, h.bs, k);
      MulMonotone(k + 1, NumBlocks(size, h.bs), h.bs);
      var offset := at + size - remaining;
      var data := tree[offset..offset + h.bs];
      assert data == Clip(src, k * h.bs, k * h.bs + h.bs);
      DigestsStep(h, src, k, data);
      out := out + h.hash(h.salt + data + Zeros(h.bs - |data|)) + Zeros(h.padding);
      remaining := remaining - |data|;
      k := k + 1;
    }
  }

  lemma WholeBlockCount(size: nat, bs: nat)
    requires bs > 0 && size % bs == 0
    ensures NumBlocks(size, bs) * bs == size
  {
    NumBlocksUnique(size, bs, size / bs);
  }

  /** Filling up the joined digests to whole blocks gives the level. */
  method Filled(h: Hashing, ghost src: bytes, digests: bytes) returns (out: bytes)
    requires h.Valid() && digests == Digests(h, src, NumBlocks(|src|, h.bs))
    ensures out == Level(h, src)
  {
    var paddingNeeded := RoundUp(|digests|, h.bs) - |digests|;
    out := digests + Zeros(paddingNeeded);
  }

  /** The array after the levels over `src` were written into it at the given offsets, one over the other; a level
      that reaches past the end makes the array longer. */
  ghost function Written(h: Hashing, tree: bytes, offsets: seq<nat>, src: bytes): Result<bytes>
    requires h.Valid() && |src| > 0 && forall i :: 0 <= i < |offsets| ==> offsets[i] <= |tree|
    decreases NumBlocks(|src|, h.bs)
  {
    if |src| <= h.bs then Ok(tree)
    else if offsets == [] then Err(IndexError)
    else
      TreeStep(h, src);
      Written(h, WriteAt(tree, offsets[0], Level(h, src)), offsets[1..], Level(h, src))
  }

  /** At offsets that are those of the tree the levels do not overlap, and together they are the tree. */
  lemma {:induction false} WrittenTree(h: Hashing, tree: bytes, src: bytes)
    requires h.Valid() && |src| > 0 && TreeSize(|src|, h.bs, h.Slot()) <= |tree|
    ensures var offsets := LevelOffsets(|src|, h.bs, h.Slot());
      && (forall i :: 0 <= i < |offsets| ==> offsets[i] <= |tree|)
      && Written(h, tree, offsets, src) == Ok(Tree(h, src) + tree[TreeSize(|src|, h.bs, h.Slot())..])
    decreases NumBlocks(|src|, h.bs)
  {
    hide Level, LevelOffsets, TreeSize, LevelSize, NumBlocks, Tree, Written, Root, WriteAt;
    var offsets := LevelOffsets(|src|, h.bs, h.Slot());
    OffsetsInside(|src|, h.bs, h.Slot());
    if |src| > h.bs {
      TreeStep(h, src);
      var level := Level(h, src);
      TreeSizeStep(|src|, h.bs, h.Slot());
      WrittenStep(h, tree, offsets, src);
      var more := WriteAt(tree, offsets[0], level);
      WrittenBehind(tree, offsets[0], level);
      WrittenTree(h, more, level);
      Regroup(Tree(h, level), level, tree[offsets[0] + |level|..]);
    } else {
      NoTree(h, src);
      WrittenStep(h, tree, offsets, src);
      assert [] + tree[0..] == tree;
    }
  }

  lemma WrittenBehind(tree: bytes, at: nat, data: bytes)
    requires at + |data| <= |tree|
    ensures WriteAt(tree, at, data)[at..] == data + tree[at + |data|..]
  {
  }

  lemma NoTree(h: Hashing, src: bytes)
    requires h.Valid() && |src| <= h.bs
    ensures Tree(h, src) == [] && TreeSize(|src|, h.bs, h.Slot()) == 0
  {
  }

  lemma {:induction false} OffsetsInside(size: nat, bs: nat, digest: nat)
    requires bs > 0 && (size > bs ==> 2 * digest <= bs)
    ensures forall i :: 0 <= i < |LevelOffsets(size, bs, digest)| ==>
      LevelOffsets(size, bs, digest)[i] <= TreeSize(size, bs, digest)
    decreases NumBlocks(size, bs)
  {
    hide LevelSize, NumBlocks;
    if size > bs {
      LevelShrinks(size, bs, digest);
      OffsetsInside(LevelSize(size, bs, digest), bs, digest);
    }
  }

  /** Every level finds its place exactly if there are enough offsets. */
  lemma {:induction false} EnoughOffsets(h: Hashing, tree: bytes, offsets: seq<nat>, src: bytes)
    requires h.Valid() && |src| > 0 && forall i :: 0 <= i < |offsets| ==> offsets[i] <= |tree|
    ensures Written(h, tree, offsets, src).Ok? <==> |LevelOffsets(|src|, h.bs, h.Slot())| <= |offsets|
    decreases NumBlocks(|src|, h.bs)
  {
    if |src| > h.bs {
      TreeStep(h, src);
      if offsets != [] {
        EnoughOffsets(h, WriteAt(tree, offsets[0], Level(h, src)), offsets[1..], Level(h, src));
      }
    }
  }

  /** Offsets computed for a smaller image never make the array longer than the tree of the image. */
  lemma {:induction false} WrittenSize(h: Hashing, tree: bytes, size: nat, src: bytes)
    requires h.Valid() && 0 < size <= |src|
    requires TreeSize(size, h.bs, h.Slot()) <= |tree|
    ensures var offsets := LevelOffsets(size, h.bs, h.Slot());
      && (forall i :: 0 <= i < |offsets| ==> offsets[i] <= |tree|)
      && (Written(h, tree, offsets, src).Ok? ==>
            |tree| <= |Written(h, tree, offsets, src).value| <= Max(|tree|, TreeSize(|src|, h.bs, h.Slot())))
    decreases NumBlocks(|src|, h.bs)
  {
    hide Level, LevelSize, NumBlocks;
    OffsetsInside(size, h.bs, h.Slot());
    if |src| > h.bs && size > h.bs {
      TreeStep(h, src);
      LevelRound(size, h.bs, h.Slot());
      LevelSizeMonotone(size, |src|, h.bs, h.Slot());
      LevelNotEmpty(size, h.bs, h.Slot());
      var smaller := LevelSize(size, h.bs, h.Slot());
      TreeSizeMonotone(smaller, |Level(h, src)|, h.bs, h.Slot());
      WrittenSize(h, WriteAt(tree, LevelOffsets(size, h.bs, h.Slot())[0], Level(h, src)), smaller, Level(h, src));
    }
  }

  /** `generate_hash_tree`, for offsets inside an array of the given size. For less than one block of data the source
      trips over a variable it has not set; over an image that is too short its first loop does not end: see
      `HashingEnds`. */
  method GenerateHashTree(h: Hashing, image: ImageHandler, imageSize: nat, offsets: seq<nat>, treeSize: nat)
    returns (r: Result<(bytes, bytes)>)
    requires image.Sound() && (imageSize > h.bs ==> h.Valid() && imageSize <= image.imageSize)
    requires forall i :: 0 <= i < |offsets| ==> offsets[i] <= treeSize
    modifies image`filePos
    ensures image.Sound() && image.Contents() == old(image.Contents()) && (old(image.Valid()) ==> image.Valid())
    ensures imageSize < h.bs ==> r == Err(UnboundLocalError)
    ensures imageSize == h.bs ==>
      var data := old(image.ReadResult(0, h.bs));
      r == if data.Err? then Err(data.error) else Ok((h.hash(h.salt + data.value), Zeros(treeSize)))
    ensures imageSize > h.bs ==>
      var src := image.Contents()[..imageSize];
      var tree := Written(h, Zeros(treeSize), offsets, src);
      r == if tree.Err? then Err(IndexError) else Ok((Root(h, src), tree.value))
  {
    hide ImageHandler.Contents, Root, Written, Level, NumBlocks, LevelSize, LevelOffsets, TreeSize,
      ImageHandler.Sound, ImageHandler.ReadResult;
    if imageSize == h.bs {
      var data :- ReadFrom(image, 0, h.bs);
      return Ok((h.hash(h.salt + data), Zeros(treeSize)));
    }
    if imageSize < h.bs {
      return Err(UnboundLocalError);
    }
    r := BuildLevels(h, image, imageSize, offsets, treeSize);
  }

  /** `generate_hash_tree` over all of an image that is not empty and whole blocks: one block is no special case. */
  method GenerateWhole(h: Hashing, image: ImageHandler, offsets: seq<nat>, treeSize: nat) returns (r: Result<(bytes, bytes)>)
    requires image.Sound() && h.Valid() && forall i :: 0 <= i < |offsets| ==> offsets[i] <= treeSize
    modifies image`filePos
    ensures image.Sound() && image.Contents() == old(image.Contents()) && (old(image.Valid()) ==> image.Valid())
    ensures image.imageSize < h.bs ==> r == Err(UnboundLocalError)
    ensures image.imageSize >= h.bs ==>
      var tree := Written(h, Zeros(treeSize), offsets, image.Contents());
      r == if tree.Err? then Err(IndexError) else Ok((Root(h, image.Contents()), tree.value))
  {
    hide ImageHandler.Sound, ImageHandler.Contents, Root, Written, Level, NumBlocks, LevelSize, LevelOffsets,
      TreeSize;
    if image.imageSize == h.bs {
      HasChunks(image);
      SmallTree(h, image.Contents());
      WrittenStep(h, Zeros(treeSize), offsets, image.Contents());
    }
    assert image.Contents()[..image.imageSize] == image.Contents();
    r := GenerateHashTree(h, image, image.imageSize, offsets, treeSize);
  }

  /** The level loop of `generate_hash_tree`. */
  method BuildLevels(h: Hashing, image: ImageHandler, imageSize: nat, offsets: seq<nat>, treeSize: nat)
    returns (r: Result<(bytes, bytes)>)
    requires image.Sound() && h.Valid() && h.bs < imageSize <= image.imageSize
    requires forall i :: 0 <= i < |offsets| ==> offsets[i] <= treeSize
    modifies image`filePos
    ensures image.Sound() && image.Contents() == old(image.Contents()) && (old(image.Valid()) ==> image.Valid())
    ensures
      var src := image.Contents()[..imageSize];
      var tree := Written(h, Zeros(treeSize), offsets, src);
      r == if tree.Err? then Err(IndexError) else Ok((Root(h, src), tree.value))
  {
    hide ImageHandler.Sound, ImageHandler.Contents, Root, Level, NumBlocks, LevelSize, LevelOffsets, TreeSize;
    ghost var img := image.Contents()[..imageSize];
    var hashRet := new byte[treeSize](_ => 0);
    assert hashRet[..] == Zeros(treeSize);
    var levelOutput := HashImage(h, image, imageSize);
    levelOutput := Filled(h, img, levelOutput);
    if |offsets| == 0 {
      return Err(IndexError);
    }
    TreeStep(h, img);
    hashRet := WriteLevel(hashRet, offsets[0], levelOutput);
    hide Written;
    var top, tree := UpperLevels(h, hashRet, offsets, levelOutput);
    if top.Err? {
      return Err(IndexError);
    }
    return Ok((h.hash(h.salt + top.value), tree[..]));
  }

  /** The hashes of the level at `at`, read from the array. */
  method NextLevel(h: Hashing, tree: array<byte>, at: nat, size: nat, ghost level: bytes) returns (out: bytes)
    requires h.Valid() && size > 0 && size % h.bs == 0 && at + size <= tree.Length
    requires tree[at..at + size] == level
    ensures out == Level(h, level)
  {
    hide LevelSize, Digests;
    out := HashLevel(h, tree, at, size);
    out := Filled(h, level, out);
  }

  /** The rounds after the first one: each reads the level that was just written and writes its hashes. */
  method UpperLevels(h: Hashing, tree: array<byte>, offsets: seq<nat>, level: bytes) returns (r: Result<bytes>, out: array<byte>)
    requires h.Valid() && |level| >= h.bs && |level| % h.bs == 0 && |offsets| > 0
    requires forall i :: 0 <= i < |offsets| ==> offsets[i] <= tree.Length
    requires offsets[0] + |level| <= tree.Length && tree[offsets[0]..offsets[0] + |level|] == level
    modifies tree
    ensures var built := Written(h, old(tree[..]), offsets[1..], level);
      && (r.Ok? <==> built.Ok?)
      && (r.Ok? ==> out[..] == built.value && Root(h, level) == h.hash(h.salt + r.value))
  {
    hide Root, Tree, LevelOffsets, TreeSize, Level, LevelSize, NumBlocks, Written, WriteAt, Digests;
    var levelNum := 1;
    var top := level;
    out := tree;
    ghost var before := tree[..];
    while |top| > h.bs
      invariant 1 <= levelNum <= |offsets| && |top| >= h.bs && |top| % h.bs == 0
      invariant out == tree || fresh(out)
      invariant forall i :: 0 <= i < |offsets| ==> offsets[i] <= out.Length
      invariant offsets[levelNum - 1] + |top| <= out.Length
      invariant out[offsets[levelNum - 1]..offsets[levelNum - 1] + |top|] == top
      invariant Root(h, level) == Root(h, top)
      invariant Written(h, before, offsets[1..], level) == Written(h, out[..], offsets[levelNum..], top)
      decreases NumBlocks(|top|, h.bs)
    {
      TreeStep(h, top);
      WrittenStep(h, out[..], offsets[levelNum..], top);
      var output := NextLevel(h, out, offsets[levelNum - 1], |top|, top);
      if levelNum == |offsets| {
        return Err(IndexError), out;
      }
      assert offsets[levelNum..][0] == offsets[levelNum] && offsets[levelNum + 1..] == offsets[levelNum..][1..];
      out := WriteLevel(out, offsets[levelNum], output);
      top, levelNum := output, levelNum + 1;
    }
    SmallTree(h, top);
    WrittenStep(h, out[..], offsets[levelNum..], top);
    r := Ok(top);
  }

  lemma WrittenStep(h: Hashing, tree: bytes, offsets: seq<nat>, src: bytes)
    requires h.Valid() && |src| > 0 && forall i :: 0 <= i < |offsets| ==> offsets[i] <= |tree|
    ensures |Level(h, src)| > 0
    ensures Written(h, tree, offsets, src) ==
      if |src| <= h.bs then Ok(tree)
      else if offsets == [] then Err(IndexError)
      else Written(h, WriteAt(tree, offsets[0], Level(h, src)), offsets[1..], Level(h, src))
  {
    LevelNotEmpty(|src|, h.bs, h.Slot());
  }

  lemma Regroup(a: bytes, b: bytes, c: bytes)
    ensures a + b + c == a + (b + c)
  {
  }

  lemma TreeSizeStep(size: nat, bs: nat, digest: nat)
    requires bs > 0 && size > bs && 2 * digest <= bs
    ensures TreeSize(size, bs, digest) == LevelSize(size, bs, digest) + TreeSize(LevelSize(size, bs, digest), bs, digest)
  {
  }

  lemma SmallTree(h: Hashing, src: bytes)
    requires h.Valid() && |src| == h.bs
    ensures Tree(h, src) == [] && TreeSize(|src|, h.bs, h.Slot()) == 0
    ensures Root(h, src) == h.hash(h.salt + src)
  {
  }

  /** Copying one level into the tree; everything outside its stretch stays, and the array grows if it has to. */
  method WriteLevel(tree: array<byte>, at: nat, level: bytes) returns (out: array<byte>)
    requires at <= tree.Length
    modifies tree
    ensures out == tree || fresh(out)
    ensures out[..] == WriteAt(old(tree[..]), at, level)
    ensures at + |level| <= out.Length && out[at..at + |level|] == level
  {
    ghost var before := tree[..];
    out := tree;
    if at + |level| > tree.Length {
      out := new byte[at + |level|](i requires 0 <= i && tree in {tree} reads tree => if i < tree.Length then tree[i] else 0);
    }
    forall i | 0 <= i < |level| {
      out[at + i] := level[i];
    }
    assert out[at..at + |level|] == level;
    assert out[..at] == before[..at];
    assert out[..] == out[..at] + out[at..at + |level|] + out[at + |level|..];
  }

  // ---------------------------------------------------------------- when the hashing ends

  /** What the block loop over the image has left to hash after `n` more rounds, of `size` bytes altogether: every
      round takes off what its read returned. */
  function Remaining(n: nat, remaining: int, size: nat, img: bytes, bs: nat): int
    requires remaining <= size
  {
    if n == 0 || remaining <= 0 then remaining
    else Remaining(n - 1, remaining - |Clip(img, size - remaining, size - remaining + Min(remaining, bs))|, size, img, bs)
  }

  /** The loop, stopped after `n` rounds, reading through a handler. */
  method HashRounds(h: Hashing, image: ImageHandler, imageSize: nat, n: nat) returns (remaining: int)
    requires image.Sound() && image.imageSize > 0 && h.bs > 0
    modifies image`filePos
    ensures image.Sound() && image.Contents() == old(image.Contents())
    ensures remaining == Remaining(n, imageSize, imageSize, image.Contents(), h.bs)
  {
    hide ImageHandler.Sound, ImageHandler.Contents, Clip;
    ghost var contents := image.Contents();
    remaining := imageSize;
    var k := 0;
    while k < n && remaining > 0
      invariant k <= n && remaining <= imageSize && image.Sound() && image.Contents() == contents
      invariant remaining > 0 ==> imageSize - remaining <= |contents|
      invariant Remaining(n, imageSize, imageSize, contents, h.bs) == Remaining(n - k, remaining, imageSize, contents, h.bs)
    {
      var data := ReadAt(image, imageSize - remaining, Min(remaining, h.bs));
      ClipInside(contents, imageSize - remaining, imageSize - remaining + Min(remaining, h.bs));
      remaining := remaining - |data|;
      k := k + 1;
    }
  }

  lemma ClipInside(s: bytes, lo: nat, hi: int)
    requires lo <= |s| && hi >= 0
    ensures lo + |Clip(s, lo, hi)| <= |s|
  {
  }

  /** Bytes that are missing are never taken off. */
  lemma {:induction false} RemainingStuck(n: nat, remaining: int, size: nat, img: bytes, bs: nat)
    requires bs > 0 && size > |img| && size - |img| <= remaining <= size
    ensures Remaining(n, remaining, size, img, bs) >= size - |img|
  {
    if n > 0 {
      var data := Clip(img, size - remaining, size - remaining + Min(remaining, bs));
      RemainingStuck(n - 1, remaining - |data|, size, img, bs);
    }
  }

  lemma {:induction false} RemainingEnds(remaining: int, size: nat, img: bytes, bs: nat) returns (n: nat)
    requires bs > 0 && size <= |img| && remaining <= size
    ensures Remaining(n, remaining, size, img, bs) <= 0
    decreases remaining
  {
    if remaining <= 0 {
      n := 0;
    } else {
      var m := RemainingEnds(remaining - Min(remaining, bs), size, img, bs);
      n := m + 1;
    }
  }

  /** The hashing of the image ends exactly if the image is as long as the builder was told. */
  lemma HashingEnds(size: nat, img: bytes, bs: nat)
    requires bs > 0 && size > 0
    ensures (exists n :: Remaining(n, size, size, img, bs) <= 0) <==> size <= |img|
  {
    if size <= |img| {
      var n := RemainingEnds(size, size, img, bs);
    } else {
      forall n: nat
        ensures Remaining(n, size, size, img, bs) > 0
      {
        RemainingStuck(n, size, size, img, bs);
      }
    }
  }

  /** A descriptor that claims two blocks for an image of 6000 bytes: after the second round 2192 bytes are left, and
      they stay. */
  lemma ShortImageNeverHashed(n: nat)
    requires n >= 2
    ensures Remaining(n, 8192, 8192, Zeros(6000), 4096) == 2192
  {
    var img := Zeros(6000);
    assert Remaining(n, 8192, 8192, img, 4096) == Remaining(n - 1, 4096, 8192, img, 4096);
    assert Remaining(n - 1, 4096, 8192, img, 4096) == Remaining(n - 2, 2192, 8192, img, 4096);
    NothingLeftToRead(n - 2, img);
  }

  lemma {:induction false} NothingLeftToRead(n: nat, img: bytes)
    requires |img| == 6000
    ensures Remaining(n, 2192, 8192, img, 4096) == 2192
  {
    if n > 0 {
      NothingLeftToRead(n - 1, img);
    }
  }

  // ---------------------------------------------------------------- what the root says about the data

  /** The digest of block `k` in the joined digests. */
  lemma {:induction false} DigestAt(h: Hashing, src: bytes, n: nat, k: nat)
    requires h.Valid() && k < n
    ensures 0 <= k * h.Slot() && k * h.Slot() + h.digestSize <= n * h.Slot()
    ensures Digests(h, src, n)[k * h.Slot()..k * h.Slot() + h.digestSize] == h.hash(h.salt + BlockAt(src, h.bs, k))
  {
    Distribute(n - 1, 1, h.Slot());
    MulNat(k, h.Slot());
    var digest := h.hash(h.salt + BlockAt(src, h.bs, n - 1));
    if k == n - 1 {
      assert Digests(h, src, n)[k * h.Slot()..k * h.Slot() + h.digestSize] == digest;
    } else {
      DigestAt(h, src, n - 1, k);
      var p := Digests(h, src, n - 1);
      assert Digests(h, src, n)[..|p|] == p;
      SlicesAgree(Digests(h, src, n), p, k * h.Slot(), k * h.Slot() + h.digestSize);
    }
  }

  /** A block is the image's own bytes, and zeros behind the end of the image. */
  lemma BlockAtBytes(src: bytes, bs: nat, k: nat, j: nat)
    requires j < bs
    ensures |BlockAt(src, bs, k)| == bs && 0 <= k * bs
    ensures BlockAt(src, bs, k)[j] == if k * bs + j < |src| then src[k * bs + j] else 0
  {
    MulNat(k, bs);
    Distribute(k, 1, bs);
  }

  /** The padding behind the digest of block `k` is zero. */
  lemma {:induction false} PaddingAt(h: Hashing, src: bytes, n: nat, k: nat, i: nat)
    requires h.Valid() && k < n && h.digestSize <= i < h.Slot()
    ensures 0 <= k * h.Slot() && k * h.Slot() + i < n * h.Slot() && Digests(h, src, n)[k * h.Slot() + i] == 0
  {
    hide BlockAt;
    var p, digest := Digests(h, src, n - 1), h.hash(h.salt + BlockAt(src, h.bs, n - 1));
    Distribute(n - 1, 1, h.Slot());
    MulNat(k, h.Slot());
    assert Digests(h, src, n) == p + (digest + Zeros(h.padding));
    if k < n - 1 {
      PaddingAt(h, src, n - 1, k, i);
    } else {
      assert k * h.Slot() == |p| && (digest + Zeros(h.padding))[i] == 0;
    }
  }

  /** What a level is, byte by byte: in the slot of each block the digest of the salt and the block, and zeros
      everywhere else, in the slots and behind them. */
  ghost predicate IsLevel(h: Hashing, src: bytes, level: bytes)
    requires h.bs > 0
  {
    var slot, n := h.digestSize + h.padding, (|src| + h.bs - 1) / h.bs;
    && |level| % h.bs == 0 && 0 <= n * slot <= |level| < n * slot + h.bs
    && (forall k: nat :: k < n ==> HasDigest(h, src, level, k, k * slot))
    && (forall i :: n * slot <= i < |level| ==> level[i] == 0)
  }

  /** The digest of block `k`, and the padding behind it. */
  ghost predicate HasDigest(h: Hashing, src: bytes, level: bytes, k: nat, at: int) {
    && 0 <= at && at + h.digestSize + h.padding <= |level|
    && level[at..at + h.digestSize] == h.hash(h.salt + BlockAt(src, h.bs, k))
    && forall i :: at + h.digestSize <= i < at + h.digestSize + h.padding ==> level[i] == 0
  }

  lemma LevelIs(h: Hashing, src: bytes)
    requires h.Valid()
    ensures IsLevel(h, src, Level(h, src))
  {
    hide Digests, BlockAt, HasDigest;
    var n, level := NumBlocks(|src|, h.bs), Level(h, src);
    MulNat(n, h.Slot());
    forall k: nat | k < n
      ensures HasDigest(h, src, level, k, k * h.Slot())
    {
      SlotIs(h, src, k);
    }
  }

  /** The same without these names: the digest of block `k` stands at its slot, the padding behind it and the filling
      behind all slots are zero. */
  lemma LevelBytes(h: Hashing, src: bytes, k: nat, i: nat)
    requires h.Valid()
    ensures var level, slot, n := Level(h, src), h.digestSize + h.padding, (|src| + h.bs - 1) / h.bs;
      && |level| % h.bs == 0 && 0 <= n * slot <= |level| < n * slot + h.bs
      && (k < n ==>
            && 0 <= k * slot && k * slot + slot <= |level|
            && level[k * slot..k * slot + h.digestSize] == h.hash(h.salt + BlockAt(src, h.bs, k))
            && (h.digestSize <= i < slot ==> level[k * slot + i] == 0))
      && (n * slot <= i < |level| ==> level[i] == 0)
  {
    hide Level, BlockAt;
    LevelIs(h, src);
    var slot, n := h.digestSize + h.padding, (|src| + h.bs - 1) / h.bs;
    if k < n {
      assert HasDigest(h, src, Level(h, src), k, k * slot);
    }
  }

  lemma SlotIs(h: Hashing, src: bytes, k: nat)
    requires h.Valid() && k < NumBlocks(|src|, h.bs)
    ensures HasDigest(h, src, Level(h, src), k, k * h.Slot())
  {
    hide Digests, BlockAt, NumBlocks, LevelSize, Level, HasDigest;
    var n := NumBlocks(|src|, h.bs);
    LevelStart(h, src);
    DigestAt(h, src, n, k);
    PaddingIs(h, src, n, k, k * h.Slot());
    SlotInPrefix(h, src, Level(h, src), Digests(h, src, n), k, k * h.Slot());
  }

  lemma LevelStart(h: Hashing, src: bytes)
    requires h.Valid()
    ensures var d := Digests(h, src, NumBlocks(|src|, h.bs));
      |d| <= |Level(h, src)| && forall i :: 0 <= i < |d| ==> Level(h, src)[i] == d[i]
  {
    hide Digests;
  }

  lemma PaddingIs(h: Hashing, src: bytes, n: nat, k: nat, at: int)
    requires h.Valid() && k < n && at == k * h.Slot()
    ensures 0 <= at && at + h.digestSize + h.padding <= |Digests(h, src, n)|
    ensures forall i :: at + h.digestSize <= i < at + h.digestSize + h.padding ==> Digests(h, src, n)[i] == 0
  {
    hide Digests;
    MulNat(k, h.Slot());
    MulMonotone(k + 1, n, h.Slot());
    Distribute(k, 1, h.Slot());
    forall i | at + h.digestSize <= i < at + h.digestSize + h.padding
      ensures Digests(h, src, n)[i] == 0
    {
      PaddingAt(h, src, n, k, i - at);
    }
  }

  lemma SlotInPrefix(h: Hashing, src: bytes, level: bytes, d: bytes, k: nat, at: int)
    requires 0 <= at && at + h.digestSize + h.padding <= |d| <= |level| && forall i :: 0 <= i < |d| ==> level[i] == d[i]
    requires d[at..at + h.digestSize] == h.hash(h.salt + BlockAt(src, h.bs, k))
    requires forall i :: at + h.digestSize <= i < at + h.digestSize + h.padding ==> d[i] == 0
    ensures HasDigest(h, src, level, k, at)
  {
    hide BlockAt;
    SlicesAgree(level, d, at, at + h.digestSize);
  }

  /** The levels over `src`, bottom level first. */
  ghost function Levels(h: Hashing, src: bytes): seq<bytes>
    requires h.Valid()
    decreases NumBlocks(|src|, h.bs)
  {
    if |src| <= h.bs then []
    else
      LevelShrinks(|src|, h.bs, h.Slot());
      [Level(h, src)] + Levels(h, Level(h, src))
  }

  /** Root digest and tree over `src`, spelled out. A single block has no levels, and its digest is the root. Otherwise
      the first level is over `src` and stands at the end of the tree, at its offset; what is in front of it is the tree
      over that level. */
  ghost predicate IsTree(h: Hashing, src: bytes, levels: seq<bytes>, offsets: seq<nat>, root: bytes, tree: bytes)
    requires h.bs > 0
    decreases |levels|
  {
    if levels == [] then |src| == h.bs && root == h.hash(h.salt + src) && offsets == [] && tree == []
    else
      && |src| > h.bs && IsLevel(h, src, levels[0])
      && offsets != [] && offsets[0] <= |tree| && tree[offsets[0]..] == levels[0]
      && IsTree(h, levels[0], levels[1..], offsets[1..], root, tree[..offsets[0]])
  }

  lemma {:induction false} TreeIs(h: Hashing, src: bytes)
    requires h.Valid() && |src| >= h.bs
    ensures IsTree(h, src, Levels(h, src), LevelOffsets(|src|, h.bs, h.Slot()), Root(h, src), Tree(h, src))
    decreases NumBlocks(|src|, h.bs)
  {
    hide IsLevel, Level, Root, Tree, LevelOffsets, TreeSize, NumBlocks, LevelSize;
    var offsets, tree := LevelOffsets(|src|, h.bs, h.Slot()), Tree(h, src);
    if |src| == h.bs {
      SmallTree(h, src);
      NoOffsets(|src|, h.bs, h.Slot());
    } else {
      TreeStep(h, src);
      var level := Level(h, src);
      LevelIs(h, src);
      TreeIs(h, level);
      assert tree[..offsets[0]] == Tree(h, level) && tree[offsets[0]..] == level;
      assert Levels(h, src)[1..] == Levels(h, level);
    }
  }

  /** What the description says of a tree: the root is the digest of the last level, a single block, or of the data
      itself; the first level is hashed from the data, each block with the salt in front, and ends the tree; in front of
      it is the tree over that level, hashed in the same way. */
  lemma TreeMeans(h: Hashing, src: bytes, levels: seq<bytes>, offsets: seq<nat>, root: bytes, tree: bytes, k: nat)
    requires h.bs > 0 && IsTree(h, src, levels, offsets, root, tree)
    ensures levels == [] ==> |src| == h.bs && root == h.hash(h.salt + src) && offsets == [] && tree == []
    ensures levels != [] ==>
      var level, slot, n := levels[0], h.digestSize + h.padding, (|src| + h.bs - 1) / h.bs;
      && |src| > h.bs && |level| % h.bs == 0 && n * slot <= |level| < n * slot + h.bs
      && (k < n ==> 0 <= k * slot && k * slot + slot <= |level|
                    && level[k * slot..k * slot + h.digestSize] == h.hash(h.salt + BlockAt(src, h.bs, k)))
      && offsets != [] && offsets[0] <= |tree| && tree[offsets[0]..] == level
      && IsTree(h, level, levels[1..], offsets[1..], root, tree[..offsets[0]])
  {
    hide BlockAt;
    var slot, n := h.digestSize + h.padding, (|src| + h.bs - 1) / h.bs;
    if levels != [] && k < n {
      assert HasDigest(h, src, levels[0], k, k * slot);
    }
  }

  lemma NoOffsets(size: nat, bs: nat, digest: nat)
    requires bs > 0 && size <= bs
    ensures LevelOffsets(size, bs, digest) == []
  {
  }

  /** The description of a level determines it ... */
  lemma LevelUnique(h: Hashing, src: bytes, a: bytes, b: bytes)
    requires h.bs > 0 && h.digestSize > 0 && IsLevel(h, src, a) && IsLevel(h, src, b)
    requires forall x :: |h.hash(x)| == h.digestSize
    ensures a == b
  {
    hide HasDigest;
    var slot, n := h.digestSize + h.padding, (|src| + h.bs - 1) / h.bs;
    MultiplesAdd(|a|, |b|, h.bs);
    if |a| < |b| {
      MultiplesAdd(|b|, |a|, h.bs);
      DivModUnique(|b| - |a|, h.bs, 0, |b| - |a|);
    } else if |b| < |a| {
      DivModUnique(|a| - |b|, h.bs, 0, |a| - |b|);
    }
    forall i | 0 <= i < n * slot
      ensures a[i] == b[i]
    {
      SlotBelow(i, n, slot);
      SameSlot(h, src, a, b, i / slot, (i / slot) * slot, i);
    }
  }

  lemma SlotBelow(i: nat, n: int, slot: nat)
    requires slot > 0 && i < n * slot
    ensures 0 <= i / slot < n && 0 <= (i / slot) * slot <= i < (i / slot) * slot + slot
  {
    var k := i / slot;
    assert i == k * slot + i % slot;
    MulSign(k, slot, i - i % slot);
    if k >= n {
      MulMonotone(n, k, slot);
    }
  }

  lemma SameSlot(h: Hashing, src: bytes, a: bytes, b: bytes, k: nat, at: nat, i: nat)
    requires HasDigest(h, src, a, k, at) && HasDigest(h, src, b, k, at) && at <= i < at + h.digestSize + h.padding
    requires forall x :: |h.hash(x)| == h.digestSize
    ensures a[i] == b[i]
  {
    hide BlockAt;
    if i < at + h.digestSize {
      assert a[at..at + h.digestSize][i - at] == a[i] && b[at..at + h.digestSize][i - at] == b[i];
    }
  }

  /** ... and that of a tree its root digest and its bytes. */
  lemma {:induction false} TreeUnique(h: Hashing, src: bytes, la: seq<bytes>, oa: seq<nat>, ra: bytes, ta: bytes,
      lb: seq<bytes>, ob: seq<nat>, rb: bytes, tb: bytes)
    requires h.Valid() && IsTree(h, src, la, oa, ra, ta) && IsTree(h, src, lb, ob, rb, tb)
    ensures la == lb && ra == rb && ta == tb
    decreases |la|
  {
    hide IsLevel;
    if la != [] {
      LevelUnique(h, src, la[0], lb[0]);
      TreeUnique(h, la[0], la[1..], oa[1..], ra, ta[..oa[0]], lb[1..], ob[1..], rb, tb[..ob[0]]);
      assert la == [la[0]] + la[1..] && lb == [lb[0]] + lb[1..];
      assert ta == ta[..oa[0]] + ta[oa[0]..] && tb == tb[..ob[0]] + tb[ob[0]..];
    }
  }

  /** Computing the offsets and building the tree of a whole image: what comes out, level by level. */
  method BuildWhole(h: Hashing, image: ImageHandler)
    returns (r: Result<(bytes, bytes)>, ghost levels: seq<bytes>, offsets: seq<nat>)
    requires image.Sound() && h.Valid()
    modifies image`filePos
    ensures image.Sound() && image.Contents() == old(image.Contents())
    ensures r.Ok? <==> image.imageSize >= h.bs
    ensures r.Ok? ==> IsTree(h, image.Contents(), levels, offsets, r.value.0, r.value.1)
  {
    hide ImageHandler.Sound, ImageHandler.Contents, Root, Written, Level, NumBlocks, LevelSize, LevelOffsets, TreeSize, Tree,
      IsTree;
    var treeSize;
    offsets, treeSize := CalcHashLevelOffsets(image.imageSize, h.bs, h.Slot());
    OffsetsInside(image.imageSize, h.bs, h.Slot());
    r := GenerateWhole(h, image, offsets, treeSize);
    levels := [];
    if image.imageSize >= h.bs {
      ghost var src := image.Contents();
      levels := Levels(h, src);
      TreeIs(h, src);
      WrittenTree(h, Zeros(treeSize), src);
      assert Tree(h, src) + Zeros(treeSize)[treeSize..] == Tree(h, src);
    }
  }

  /** Data of the same size whose blocks are all the same is the same. */
  lemma BlocksDetermine(a: bytes, b: bytes, bs: nat)
    requires bs > 0 && |a| == |b|
    requires forall k :: 0 <= k < NumBlocks(|a|, bs) ==> BlockAt(a, bs, k) == BlockAt(b, bs, k)
    ensures a == b
  {
    forall i | 0 <= i < |a|
      ensures a[i] == b[i]
    {
      var k := i / bs;
      assert i == k * bs + i % bs;
      InBlock(i, |a|, bs);
      assert BlockAt(a, bs, k)[i % bs] == a[i] && BlockAt(b, bs, k)[i % bs] == b[i];
    }
  }

  lemma InBlock(i: nat, size: nat, bs: nat)
    requires bs > 0 && i < size
    ensures 0 <= i / bs < NumBlocks(size, bs) && 0 <= (i / bs) * bs <= i < (i / bs + 1) * bs
  {
    var k, n := i / bs, NumBlocks(size, bs);
    assert i == k * bs + i % bs;
    MulSign(k, bs, i - i % bs);
    Distribute(k, 1, bs);
    if k >= n {
      MulMonotone(n, k, bs);
    }
  }

  /** Equal roots over data of the same size: either the data is the same, or two different hash inputs with
      the same digest come out of the proof. Nothing is assumed about collisions. */
  lemma {:induction false} EqualRootsCollideOrAgree(h: Hashing, a: bytes, b: bytes) returns (x: bytes, y: bytes)
    requires h.Valid() && |a| == |b| >= h.bs && Root(h, a) == Root(h, b)
    ensures a == b || (x != y && h.hash(x) == h.hash(y))
    decreases NumBlocks(|a|, h.bs)
  {
    x, y := h.salt + a, h.salt + b;
    if |a| == h.bs {
      assert x[|h.salt|..] == a && y[|h.salt|..] == b;
    } else {
      TreeStep(h, a);
      TreeStep(h, b);
      x, y := EqualRootsCollideOrAgree(h, Level(h, a), Level(h, b));
      if x == y || h.hash(x) != h.hash(y) {
        var k: nat, differ: bool := DifferentBlock(a, b, h.bs);
        if differ {
          x, y := h.salt + BlockAt(a, h.bs, k), h.salt + BlockAt(b, h.bs, k);
          assert x[|h.salt|..] == BlockAt(a, h.bs, k) && y[|h.salt|..] == BlockAt(b, h.bs, k);
          SameLevelSameDigest(h, a, b, k);
        }
      }
    }
  }

  lemma DifferentBlock(a: bytes, b: bytes, bs: nat) returns (k: nat, differ: bool)
    requires bs > 0 && |a| == |b|
    ensures differ ==> k < NumBlocks(|a|, bs) && BlockAt(a, bs, k) != BlockAt(b, bs, k)
    ensures !differ ==> a == b
  {
    k, differ := 0, false;
    if i: nat :| i < NumBlocks(|a|, bs) && BlockAt(a, bs, i) != BlockAt(b, bs, i) {
      k, differ := i, true;
    } else {
      BlocksDetermine(a, b, bs);
    }
  }

  lemma SameLevelSameDigest(h: Hashing, a: bytes, b: bytes, k: nat)
    requires h.Valid() && |a| == |b| && Level(h, a) == Level(h, b) && k < NumBlocks(|a|, h.bs)
    ensures h.hash(h.salt + BlockAt(a, h.bs, k)) == h.hash(h.salt + BlockAt(b, h.bs, k))
  {
    var n := NumBlocks(|a|, h.bs);
    var da, db := Digests(h, a, n), Digests(h, b, n);
    assert da == Level(h, a)[..|da|] && db == Level(h, b)[..|db|];
    hide BlockAt, Level, Digests;
    DigestAt(h, a, n, k);
    DigestAt(h, b, n, k);
  }
}
