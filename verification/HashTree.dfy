/** tools/avbtool: `calc_hash_level_offsets` and `generate_hash_tree`, against a recursive Merkle tree. */
module HashTree {
  import opened Bytes

  // ---------------------------------------------------------------- level sizes

  /** Number of blocks that hold `size` bytes. */
  function NumBlocks(size: nat, bs: nat): (n: nat)
    requires bs > 0
    ensures size <= n * bs < size + bs
  {
    var n := (size + bs - 1) / bs;
    assert n * bs + (size + bs - 1) % bs == size + bs - 1;
    MulSign(n, bs, size + bs - 1 - (size + bs - 1) % bs);
    n
  }

  lemma MulSign(n: int, bs: nat, m: int)
    requires bs > 0 && n * bs == m && m >= 0
    ensures n >= 0
  {
    if n < 0 {
      MulMonotone(n, -1, bs);
    }
  }

  lemma NumBlocksUnique(size: nat, bs: nat, n: nat)
    requires bs > 0 && size <= n * bs < size + bs
    ensures NumBlocks(size, bs) == n
  {
    var m := NumBlocks(size, bs);
    if m < n {
      MulMonotone(m + 1, n, bs);
      Distribute(m, 1, bs);
    } else if n < m {
      MulMonotone(n + 1, m, bs);
      Distribute(n, 1, bs);
    }
  }

  /** Size of the hash level over `size` bytes. */
  function LevelSize(size: nat, bs: nat, digest: nat): nat
    requires bs > 0
  {
    MulNat(NumBlocks(size, bs), digest);
    RoundUp(NumBlocks(size, bs) * digest, bs)
  }

  lemma MulNat(a: nat, b: nat)
    ensures a * b >= 0
  {
  }

  /** With room for two digests in a block, a level over more than one block has fewer blocks. */
  lemma LevelShrinks(size: nat, bs: nat, digest: nat)
    requires bs > 0 && 2 * digest <= bs && size > bs
    ensures NumBlocks(LevelSize(size, bs, digest), bs) < NumBlocks(size, bs)
  {
    var n := NumBlocks(size, bs);
    var level := LevelSize(size, bs, digest);
    var q := level / bs;
    assert level == q * bs;
    if n <= 1 {
      MulMonotone(n, 1, bs);
    }
    if q >= n {
      MulMonotone(n, q, bs);
      assert n * bs < n * digest + bs;
      HalfOf(n, digest, bs);
      assert n * bs < 2 * bs;
      MulMonotone(2, n, bs);
    }
    NumBlocksUnique(level, bs, q);
  }

  lemma HalfOf(n: nat, digest: nat, bs: nat)
    requires 2 * digest <= bs
    ensures 2 * (n * digest) <= n * bs
  {
    MulMonotone(2 * digest, bs, n);
    assert (2 * digest) * n == 2 * (n * digest);
  }

  /** Sizes of the levels over `size` bytes, bottom level first. */
  function LevelSizes(size: nat, bs: nat, digest: nat): (s: seq<nat>)
    requires bs > 0 && (size > bs ==> 2 * digest <= bs)
    decreases NumBlocks(size, bs)
  {
    if size <= bs then []
    else
      LevelShrinks(size, bs, digest);
      [LevelSize(size, bs, digest)] + LevelSizes(LevelSize(size, bs, digest), bs, digest)
  }

  /** Size of the whole tree over `size` bytes. */
  function TreeSize(size: nat, bs: nat, digest: nat): (t: nat)
    requires bs > 0 && (size > bs ==> 2 * digest <= bs)
    ensures t % bs == 0
    decreases NumBlocks(size, bs)
  {
    if size <= bs then 0
    else
      LevelShrinks(size, bs, digest);
      var level := LevelSize(size, bs, digest);
      MultiplesAdd(level, TreeSize(level, bs, digest), bs);
      level + TreeSize(level, bs, digest)
  }

  /** Where each level starts: the levels above it come first. */
  function LevelOffsets(size: nat, bs: nat, digest: nat): (o: seq<nat>)
    requires bs > 0 && (size > bs ==> 2 * digest <= bs)
    decreases NumBlocks(size, bs)
  {
    if size <= bs then []
    else
      LevelShrinks(size, bs, digest);
      var level := LevelSize(size, bs, digest);
      [TreeSize(level, bs, digest)] + LevelOffsets(level, bs, digest)
  }

  function Sum(s: seq<nat>): nat {
    if s == [] then 0 else s[0] + Sum(s[1..])
  }

  lemma {:induction false} SumSnoc(s: seq<nat>, x: nat)
    ensures Sum(s + [x]) == Sum(s) + x
  {
    if s == [] {
      assert s + [x] == [x];
    } else {
      SumSnoc(s[1..], x);
      assert (s + [x])[1..] == s[1..] + [x];
    }
  }

  /** The tree is exactly as long as its levels together. */
  lemma {:induction false} LevelsTile(size: nat, bs: nat, digest: nat)
    requires bs > 0 && (size > bs ==> 2 * digest <= bs)
    ensures Sum(LevelSizes(size, bs, digest)) == TreeSize(size, bs, digest)
    ensures |LevelOffsets(size, bs, digest)| == |LevelSizes(size, bs, digest)|
    ensures forall n :: 0 <= n < |LevelOffsets(size, bs, digest)| ==>
      LevelOffsets(size, bs, digest)[n] == Sum(LevelSizes(size, bs, digest)[n + 1..])
    decreases NumBlocks(size, bs)
  {
    if size > bs {
      LevelShrinks(size, bs, digest);
      var level := LevelSize(size, bs, digest);
      LevelsTile(level, bs, digest);
      var sizes := LevelSizes(size, bs, digest);
      assert sizes[1..] == LevelSizes(level, bs, digest);
      forall n | 0 <= n < |LevelOffsets(size, bs, digest)|
        ensures LevelOffsets(size, bs, digest)[n] == Sum(sizes[n + 1..])
      {
        if n > 0 {
          assert sizes[n + 1..] == sizes[1..][n..];
        }
      }
    }
  }

  /** One round of the level loop. */
  lemma LevelRound(size: nat, bs: nat, digest: nat)
    requires bs > 0 && 2 * digest <= bs && size > bs
    ensures NumBlocks(LevelSize(size, bs, digest), bs) < NumBlocks(size, bs)
    ensures LevelSizes(size, bs, digest) == [LevelSize(size, bs, digest)] + LevelSizes(LevelSize(size, bs, digest), bs, digest)
    ensures NumBlocks(size, bs) * digest >= 0
    ensures LevelSize(size, bs, digest) == RoundUp(NumBlocks(size, bs) * digest, bs)
  {
    LevelShrinks(size, bs, digest);
    MulNat(NumBlocks(size, bs), digest);
  }

  /** `calc_hash_level_offsets`. Its first loop ends only under the stated condition: see `LoopEnds`. */
  method CalcHashLevelOffsets(imageSize: nat, blockSize: nat, digestSize: nat)
    returns (levelOffsets: seq<nat>, treeSize: nat)
    requires blockSize > 0 && (imageSize > blockSize ==> 2 * digestSize <= blockSize)
    ensures levelOffsets == LevelOffsets(imageSize, blockSize, digestSize)
    ensures treeSize == TreeSize(imageSize, blockSize, digestSize)
  {
    hide LevelSizes, LevelSize, NumBlocks, LevelOffsets, TreeSize, Sum;
    var levelSizes: seq<nat> := [];
    treeSize := 0;
    var size: nat := imageSize;
    NothingToSum();
    assert levelSizes + LevelSizes(size, blockSize, digestSize) == LevelSizes(imageSize, blockSize, digestSize);
    while size > blockSize
      invariant size > blockSize ==> 2 * digestSize <= blockSize
      invariant levelSizes + LevelSizes(size, blockSize, digestSize) == LevelSizes(imageSize, blockSize, digestSize)
      invariant treeSize == Sum(levelSizes)
      decreases NumBlocks(size, blockSize)
    {
      LevelRound(size, blockSize, digestSize);
      var numBlocks := NumBlocks(size, blockSize);
      var levelSize := RoundUp(numBlocks * digestSize, blockSize);
      SumSnoc(levelSizes, levelSize);
      ghost var above := LevelSizes(levelSize, blockSize, digestSize);
      assert levelSizes + ([levelSize] + above) == levelSizes + [levelSize] + above;
      levelSizes := levelSizes + [levelSize];
      treeSize := treeSize + levelSize;
      size := levelSize;
    }
    NoLevels(size, blockSize, digestSize);
    assert levelSizes + [] == levelSizes;
    LevelsTile(imageSize, blockSize, digestSize);
    levelOffsets := OffsetsOf(levelSizes);
  }

  lemma NothingToSum()
    ensures Sum([]) == 0
  {
  }

  lemma NoLevels(size: nat, bs: nat, digest: nat)
    requires bs > 0 && size <= bs
    ensures LevelSizes(size, bs, digest) == []
  {
  }

  /** The second loop: a level starts behind all levels above it. */
  method OffsetsOf(levelSizes: seq<nat>) returns (levelOffsets: seq<nat>)
    ensures |levelOffsets| == |levelSizes|
    ensures forall n :: 0 <= n < |levelOffsets| ==> levelOffsets[n] == Sum(levelSizes[n + 1..])
  {
    levelOffsets := [];
    for n := 0 to |levelSizes|
      invariant |levelOffsets| == n
      invariant forall k :: 0 <= k < n ==> levelOffsets[k] == Sum(levelSizes[k + 1..])
    {
      var offset := 0;
      for m := n + 1 to |levelSizes|
        invariant offset == Sum(levelSizes[n + 1..m])
      {
        SumSnoc(levelSizes[n + 1..m], levelSizes[m]);
        assert levelSizes[n + 1..m + 1] == levelSizes[n + 1..m] + [levelSizes[m]];
        offset := offset + levelSizes[m];
      }
      assert levelSizes[..|levelSizes|] == levelSizes;
      levelOffsets := levelOffsets + [offset];
    }
  }

  // ---------------------------------------------------------------- when the loop ends

  /** The value of `size` after `n` more rounds of the loop. */
  function Rounds(n: nat, size: nat, bs: nat, digest: nat): nat
    requires bs > 0
  {
    if n == 0 then size else Rounds(n - 1, LevelSize(size, bs, digest), bs, digest)
  }

  /** A level over more than one block needs more than one block itself, when two digests do not fit in a block. */
  lemma {:induction false} RoundsStuck(n: nat, size: nat, bs: nat, digest: nat)
    requires bs > 0 && 2 * digest > bs && size > bs
    ensures Rounds(n, size, bs, digest) > bs
  {
    if n > 0 {
      var k := NumBlocks(size, bs);
      if k <= 1 {
        MulMonotone(k, 1, bs);
      }
      MulMonotone(2, k, digest);
      RoundsStuck(n - 1, LevelSize(size, bs, digest), bs, digest);
    }
  }

  lemma {:induction false} RoundsEnd(size: nat, bs: nat, digest: nat) returns (n: nat)
    requires bs > 0 && 2 * digest <= bs
    ensures Rounds(n, size, bs, digest) <= bs
    decreases NumBlocks(size, bs)
  {
    if size <= bs {
      n := 0;
    } else {
      LevelShrinks(size, bs, digest);
      var m := RoundsEnd(LevelSize(size, bs, digest), bs, digest);
      n := m + 1;
    }
  }

  /** The level loop ends exactly when the image is at most one block or two digests fit in a block. */
  lemma LoopEnds(size: nat, bs: nat, digest: nat)
    requires bs > 0
    ensures (exists n :: Rounds(n, size, bs, digest) <= bs) <==> size <= bs || 2 * digest <= bs
  {
    if size <= bs {
      assert Rounds(0, size, bs, digest) <= bs;
    } else if 2 * digest <= bs {
      var n := RoundsEnd(size, bs, digest);
    } else {
      forall n: nat
        ensures Rounds(n, size, bs, digest) > bs
      {
        RoundsStuck(n, size, bs, digest);
      }
    }
  }

  /** A larger image never has a smaller tree. */
  lemma {:induction false} TreeSizeMonotone(a: nat, b: nat, bs: nat, digest: nat)
    requires bs > 0 && a <= b && (b > bs ==> 2 * digest <= bs)
    ensures TreeSize(a, bs, digest) <= TreeSize(b, bs, digest)
    decreases NumBlocks(b, bs)
  {
    hide LevelSize, NumBlocks;
    if a > bs {
      LevelShrinks(b, bs, digest);
      LevelShrinks(a, bs, digest);
      LevelSizeMonotone(a, b, bs, digest);
      TreeSizeMonotone(LevelSize(a, bs, digest), LevelSize(b, bs, digest), bs, digest);
    }
  }

  lemma LevelSizeMonotone(a: nat, b: nat, bs: nat, digest: nat)
    requires bs > 0 && a <= b
    ensures LevelSize(a, bs, digest) <= LevelSize(b, bs, digest)
  {
    hide RoundUp;
    var m, n := NumBlocks(a, bs), NumBlocks(b, bs);
    if m > n {
      MulMonotone(n + 1, m, bs);
      Distribute(n, 1, bs);
    }
    MulMonotone(m, n, digest);
    MulNat(m, digest);
    RoundUpMonotone(m * digest, n * digest, bs);
  }

  /** Images whose trees have the same size have the same levels. */
  lemma {:induction false} SameTreeSize(a: nat, b: nat, bs: nat, digest: nat)
    requires bs > 0 && digest > 0 && a <= b && (b > bs ==> 2 * digest <= bs)
    requires TreeSize(a, bs, digest) == TreeSize(b, bs, digest)
    ensures LevelOffsets(a, bs, digest) == LevelOffsets(b, bs, digest)
    decreases NumBlocks(b, bs)
  {
    hide LevelSize, NumBlocks;
    if b > bs {
      LevelShrinks(b, bs, digest);
      LevelNotEmpty(b, bs, digest);
      assert a > bs;
      LevelShrinks(a, bs, digest);
      LevelSizeMonotone(a, b, bs, digest);
      TreeSizeMonotone(LevelSize(a, bs, digest), LevelSize(b, bs, digest), bs, digest);
      SameTreeSize(LevelSize(a, bs, digest), LevelSize(b, bs, digest), bs, digest);
    }
  }

  /** A level is at least one whole block. */
  lemma LevelNotEmpty(size: nat, bs: nat, digest: nat)
    requires bs > 0 && size > 0 && digest > 0
    ensures LevelSize(size, bs, digest) >= bs && LevelSize(size, bs, digest) % bs == 0
  {
    var n := NumBlocks(size, bs);
    assert n >= 1;
    MulMonotone(1, n, digest);
    var level := LevelSize(size, bs, digest);
    if level < bs {
      DivModUnique(level, bs, 0, level);
    }
  }
}
