/** The Android sparse file format as tools/avbtool reads it: chunk table, expansion, header parsing. */
module SparseFormat {
  import opened Bytes
  import opened Results

  const MAGIC := 0xed26ff3a
  const HEADER_SIZE := 28
  const CHUNK_HEADER_SIZE := 12
  const COUNTS_OFFSET := 16
  const DEFAULT_BLOCK_SIZE := 4096

  const TYPE_RAW := 0xcac1
  const TYPE_FILL := 0xcac2
  const TYPE_DONT_CARE := 0xcac3
  const TYPE_CRC32 := 0xcac4

  /** tools/avbtool `ImageChunk`. */
  datatype Chunk =
    | Raw(chunkOffset: nat, outputOffset: nat, outputSize: nat, inputOffset: nat)
    | Fill(chunkOffset: nat, outputOffset: nat, outputSize: nat, fillData: bytes)
    | DontCare(chunkOffset: nat, outputOffset: nat, outputSize: nat)

  function TypeOf(c: Chunk): (t: nat)
    ensures t < TWO_16
  {
    match c
    case Raw(_, _, _, _) => TYPE_RAW
    case Fill(_, _, _, _) => TYPE_FILL
    case DontCare(_, _, _) => TYPE_DONT_CARE
  }

  /** Number of bytes that follow the chunk header in the sparse file. */
  function PayloadSize(c: Chunk): nat {
    match c
    case Raw(_, _, size, _) => size
    case Fill(_, _, _, _) => 4
    case DontCare(_, _, _) => 0
  }

  /** Size in bytes of `n` blocks; named so that proofs that need no arithmetic about it can hide it. */
  function BlockBytes(n: nat, bs: nat): nat { n * bs }

  lemma BlocksAdd(a: nat, b: nat, bs: nat)
    ensures BlockBytes(a + b, bs) == BlockBytes(a, bs) + BlockBytes(b, bs)
  {
    Distribute(a, b, bs);
  }

  function FileEnd(c: Chunk): nat { c.chunkOffset + CHUNK_HEADER_SIZE + PayloadSize(c) }

  function OutputEnd(c: Chunk): nat { c.outputOffset + c.outputSize }

  // ---------------------------------------------------------------- the chunk table

  /** Where the table ends in the sparse file, and in the expanded image. */
  function EndOf(cs: seq<Chunk>): nat { if cs == [] then HEADER_SIZE else FileEnd(cs[|cs| - 1]) }

  function SizeOf(cs: seq<Chunk>): nat { if cs == [] then 0 else OutputEnd(cs[|cs| - 1]) }

  /** The bytes of `file` at the chunk's offset are the complete encoding of chunk `c`. */
  ghost predicate Describes(file: bytes, bs: nat, c: Chunk) {
    var o := c.chunkOffset;
    && FileEnd(c) <= |file|
    && U16(file, o) == TypeOf(c)
    && c.outputSize == BlockBytes(U32(file, o + 4), bs)
    && U32(file, o + 8) == CHUNK_HEADER_SIZE + PayloadSize(c)
    && (c.Raw? ==> c.inputOffset == o + CHUNK_HEADER_SIZE)
    && (c.Fill? ==> c.fillData == file[o + CHUNK_HEADER_SIZE..o + CHUNK_HEADER_SIZE + 4])
  }

  /** `cs` is the table of chunks stored in `file` after its header: each chunk is described by its
      own bytes and follows the one before without gap or overlap, in the file and in the image. */
  ghost predicate Table(file: bytes, bs: nat, cs: seq<Chunk>) {
    cs != [] ==>
      var rest, c := cs[..|cs| - 1], cs[|cs| - 1];
      && Table(file, bs, rest)
      && c.chunkOffset == EndOf(rest) && c.outputOffset == SizeOf(rest)
      && Describes(file, bs, c)
  }

  /** A prefix of a table is a table, and it ends no later. */
  lemma {:induction false} TablePrefix(file: bytes, bs: nat, cs: seq<Chunk>, k: nat)
    requires Table(file, bs, cs) && k <= |cs|
    ensures Table(file, bs, cs[..k])
    ensures HEADER_SIZE <= EndOf(cs[..k]) <= EndOf(cs) && SizeOf(cs[..k]) <= SizeOf(cs)
    decreases |cs|
  {
    if k == |cs| {
      assert cs[..k] == cs;
      if cs != [] {
        TablePrefix(file, bs, cs[..|cs| - 1], |cs| - 1);
      }
    } else {
      assert cs[..|cs| - 1][..k] == cs[..k];
      TablePrefix(file, bs, cs[..|cs| - 1], k);
    }
  }

  /** What a table says about its chunk `i`. */
  lemma TableAt(file: bytes, bs: nat, cs: seq<Chunk>, i: nat)
    requires Table(file, bs, cs) && i < |cs|
    ensures Describes(file, bs, cs[i])
    ensures cs[i].chunkOffset == EndOf(cs[..i]) >= HEADER_SIZE && cs[i].outputOffset == SizeOf(cs[..i])
    ensures FileEnd(cs[i]) <= EndOf(cs) && OutputEnd(cs[i]) <= SizeOf(cs)
  {
    TablePrefix(file, bs, cs, i + 1);
    TablePrefix(file, bs, cs, i);
    assert cs[..i + 1][..i] == cs[..i];
  }

  /** Everything in a table lies inside the file. */
  lemma TableInside(file: bytes, bs: nat, cs: seq<Chunk>)
    requires Table(file, bs, cs) && |file| >= HEADER_SIZE
    ensures HEADER_SIZE <= EndOf(cs) <= |file|
  {
    if cs != [] {
      TableAt(file, bs, cs, |cs| - 1);
    }
  }

  // ---------------------------------------------------------------- expansion

  /** The bytes of the image that one chunk stands for. */
  function ChunkBytes(file: bytes, c: Chunk): (r: bytes)
    requires c.Raw? ==> c.inputOffset + c.outputSize <= |file|
    requires c.Fill? ==> |c.fillData| == 4
    ensures |r| == c.outputSize
  {
    match c
    case Raw(_, _, size, input) => file[input..input + size]
    case Fill(_, _, size, data) => seq(size, k requires 0 <= k => data[k % 4])
    case DontCare(_, _, size) => Zeros(size)
  }

  /** The flat image a chunk table stands for. */
  ghost function Expand(file: bytes, bs: nat, cs: seq<Chunk>): (r: bytes)
    requires Table(file, bs, cs)
    ensures |r| == SizeOf(cs)
  {
    if cs == [] then []
    else Expand(file, bs, cs[..|cs| - 1]) + ChunkBytes(file, cs[|cs| - 1])
  }

  /** Dropping chunks from the end of the table cuts the image. */
  lemma {:induction false} ExpandPrefix(file: bytes, bs: nat, cs: seq<Chunk>, k: nat)
    requires Table(file, bs, cs) && k <= |cs|
    ensures Table(file, bs, cs[..k]) && SizeOf(cs[..k]) <= SizeOf(cs)
    ensures Expand(file, bs, cs[..k]) == Expand(file, bs, cs)[..SizeOf(cs[..k])]
    decreases |cs|
  {
    hide Describes, ChunkBytes;
    TablePrefix(file, bs, cs, k);
    if k == |cs| {
      assert cs[..k] == cs;
    } else {
      assert cs[..|cs| - 1][..k] == cs[..k];
      ExpandPrefix(file, bs, cs[..|cs| - 1], k);
    }
  }

  /** Chunk `i` produces exactly its own stretch of the image. */
  lemma ExpandSlice(file: bytes, bs: nat, cs: seq<Chunk>, i: nat)
    requires Table(file, bs, cs) && i < |cs|
    ensures Describes(file, bs, cs[i]) && OutputEnd(cs[i]) <= SizeOf(cs)
    ensures Expand(file, bs, cs)[cs[i].outputOffset..OutputEnd(cs[i])] == ChunkBytes(file, cs[i])
  {
    TableAt(file, bs, cs, i);
    ExpandPrefix(file, bs, cs, i + 1);
    var p := cs[..i + 1];
    assert p[..i] == cs[..i];
    var e := Expand(file, bs, cs);
    assert Expand(file, bs, p)[SizeOf(cs[..i])..] == ChunkBytes(file, cs[i]);
    assert e[..OutputEnd(cs[i])][cs[i].outputOffset..] == e[cs[i].outputOffset..OutputEnd(cs[i])];
  }

  /** A chunk's description and bytes only depend on the chunk's own stretch of the file. */
  lemma DescribesLocal(file: bytes, file': bytes, bs: nat, c: Chunk)
    requires Describes(file, bs, c)
    requires FileEnd(c) <= |file'|
    requires forall k :: c.chunkOffset <= k < FileEnd(c) ==> file'[k] == file[k]
    ensures Describes(file', bs, c)
    ensures ChunkBytes(file', c) == ChunkBytes(file, c)
  {
  }

  /** Files that agree between the header and the end of the last chunk have the same table and image. */
  lemma {:induction false} TableFrame(file: bytes, file': bytes, bs: nat, cs: seq<Chunk>)
    requires Table(file, bs, cs)
    requires HEADER_SIZE <= |file| && EndOf(cs) <= |file'|
    requires EndOf(cs) <= |file| ==> forall k :: HEADER_SIZE <= k < EndOf(cs) ==> file'[k] == file[k]
    ensures Table(file', bs, cs)
    ensures Expand(file', bs, cs) == Expand(file, bs, cs)
  {
    TableInside(file, bs, cs);
    if cs != [] {
      TableAt(file, bs, cs, |cs| - 1);
      TablePrefix(file, bs, cs, |cs| - 1);
      TableFrame(file, file', bs, cs[..|cs| - 1]);
      DescribesLocal(file, file', bs, cs[|cs| - 1]);
    }
  }

  /** Appending one described chunk right after the last one appends its bytes to the image. */
  lemma TableSnoc(file: bytes, bs: nat, cs: seq<Chunk>, c: Chunk)
    requires Table(file, bs, cs) && Describes(file, bs, c)
    requires c.chunkOffset == EndOf(cs) && c.outputOffset == SizeOf(cs)
    ensures Table(file, bs, cs + [c])
    ensures Expand(file, bs, cs + [c]) == Expand(file, bs, cs) + ChunkBytes(file, c)
  {
    assert (cs + [c])[..|cs|] == cs;
  }

  // ---------------------------------------------------------------- parsing

  /** What one round of the chunk loop of `_read_header` finds: CRC32 chunks are not kept. */
  datatype Step = Step(kept: seq<Chunk>, blocks: nat, next: nat)

  function ReadChunk(file: bytes, bs: nat, at: nat, out: nat): (r: Result<Step>) {
    if at + CHUNK_HEADER_SIZE > |file| then Err(StructError)
    else
      var chunkType, chunkSz := U16(file, at), U32(file, at + 4);
      var dataSz := U32(file, at + 8) - CHUNK_HEADER_SIZE;
      var body := at + CHUNK_HEADER_SIZE;
      if chunkType == TYPE_RAW then
        if dataSz != BlockBytes(chunkSz, bs) then Err(ValueError)
        else Ok(Step([Raw(at, out, BlockBytes(chunkSz, bs), body)], chunkSz, body + dataSz))
      else if chunkType == TYPE_FILL then
        if dataSz != 4 then Err(ValueError)
        else
          var fill := Clip(file, body, body + 4);
          Ok(Step([Fill(at, out, BlockBytes(chunkSz, bs), fill)], chunkSz, body + |fill|))
      else if chunkType == TYPE_DONT_CARE then
        if dataSz != 0 then Err(ValueError)
        else Ok(Step([DontCare(at, out, BlockBytes(chunkSz, bs))], chunkSz, body))
      else if chunkType == TYPE_CRC32 then
        if dataSz != 4 then Err(ValueError)
        else Ok(Step([], chunkSz, body + |Clip(file, body, body + 4)|))
      else Err(ValueError)
  }

  datatype Scanned = Scanned(chunks: seq<Chunk>, blocks: nat, end: nat)

  /** The chunk loop of `_read_header`: `n` more chunks, starting at file offset `at`. */
  function Scan(file: bytes, bs: nat, n: nat, at: nat, blocks: nat, out: nat): (r: Result<Scanned>)
    decreases n
  {
    if n == 0 then Ok(Scanned([], blocks, at))
    else
      var s :- ReadChunk(file, bs, at, out);
      var rest :- Scan(file, bs, n - 1, s.next, blocks + s.blocks, out + BlockBytes(s.blocks, bs));
      Ok(rest.(chunks := s.kept + rest.chunks))
  }

  /** A described chunk is read as itself. */
  lemma ReadDescribed(file: bytes, bs: nat, c: Chunk)
    requires Describes(file, bs, c)
    ensures ReadChunk(file, bs, c.chunkOffset, c.outputOffset)
         == Ok(Step([c], U32(file, c.chunkOffset + 4), FileEnd(c)))
  {
  }

  /** One round of the scan, kept apart so that proofs about it stay small. */
  lemma ScanRound(file: bytes, bs: nat, n: nat, at: nat, blocks: nat, out: nat)
    requires n > 0
    ensures ReadChunk(file, bs, at, out).Err? ==> Scan(file, bs, n, at, blocks, out).Err?
    ensures ReadChunk(file, bs, at, out).Ok? ==>
      var s := ReadChunk(file, bs, at, out).value;
      var rest := Scan(file, bs, n - 1, s.next, blocks + s.blocks, out + BlockBytes(s.blocks, bs));
      Scan(file, bs, n, at, blocks, out)
        == if rest.Ok? then Ok(rest.value.(chunks := s.kept + rest.value.chunks)) else Err(rest.error)
  {
    hide ReadChunk;
  }

  lemma ScanDone(file: bytes, bs: nat, at: nat, blocks: nat, out: nat)
    ensures Scan(file, bs, 0, at, blocks, out) == Ok(Scanned([], blocks, at))
  {
  }

  /** A table is found by the scan from any of its chunks on. */
  lemma {:induction false} ScanFindsTable(file: bytes, bs: nat, cs: seq<Chunk>, k: nat, blocks: nat)
    requires Table(file, bs, cs) && k <= |cs| && SizeOf(cs[..k]) == BlockBytes(blocks, bs)
    ensures var r := Scan(file, bs, |cs| - k, EndOf(cs[..k]), blocks, SizeOf(cs[..k]));
      r.Ok? && r.value.chunks == cs[k..] && r.value.end == EndOf(cs) && BlockBytes(r.value.blocks, bs) == SizeOf(cs)
    decreases |cs| - k
  {
    hide ReadChunk, Table, Scan, BlockBytes;
    if k == |cs| {
      assert cs[..k] == cs;
      ScanDone(file, bs, EndOf(cs), blocks, SizeOf(cs));
    } else {
      var c := cs[k];
      TableAt(file, bs, cs, k);
      var sz := U32(file, c.chunkOffset + 4);
      assert cs[..k + 1][k] == c && |cs[..k + 1]| == k + 1;
      assert EndOf(cs[..k + 1]) == FileEnd(c) && SizeOf(cs[..k + 1]) == c.outputOffset + c.outputSize;
      BlocksAdd(blocks, sz, bs);
      ScanFindsTable(file, bs, cs, k + 1, blocks + sz);
      ReadDescribed(file, bs, c);
      ScanRound(file, bs, |cs| - k, c.chunkOffset, blocks, c.outputOffset);
      assert cs[k..] == [c] + cs[k + 1..];
    }
  }

  /** A scan for more chunks than the file holds runs into its end. */
  lemma {:induction false} ScanOverruns(file: bytes, bs: nat, cs: seq<Chunk>, k: nat, blocks: nat)
    requires Table(file, bs, cs) && k <= |cs| && EndOf(cs) == |file|
    ensures Scan(file, bs, |cs| - k + 1, EndOf(cs[..k]), blocks, SizeOf(cs[..k])).Err?
    decreases |cs| - k
  {
    hide ReadChunk, Table, Scan, BlockBytes;
    ScanRound(file, bs, |cs| - k + 1, EndOf(cs[..k]), blocks, SizeOf(cs[..k]));
    if k == |cs| {
      assert cs[..k] == cs;
      NothingToRead(file, bs, |file|, SizeOf(cs));
    } else {
      var c := cs[k];
      TableAt(file, bs, cs, k);
      var sz := U32(file, c.chunkOffset + 4);
      assert cs[..k + 1][k] == c && |cs[..k + 1]| == k + 1;
      assert EndOf(cs[..k + 1]) == FileEnd(c) && SizeOf(cs[..k + 1]) == c.outputOffset + c.outputSize;
      ScanOverruns(file, bs, cs, k + 1, blocks + sz);
      ReadDescribed(file, bs, c);
    }
  }

  lemma NothingToRead(file: bytes, bs: nat, at: nat, out: nat)
    requires at + CHUNK_HEADER_SIZE > |file|
    ensures ReadChunk(file, bs, at, out).Err?
  {
  }

  /** What `_read_header` learns about a file. */
  datatype View =
    | FlatView
    | SparseView(blockSize: nat, totalBlocks: nat, totalChunks: nat, chunks: seq<Chunk>,
                 imageSize: nat, sparseEnd: nat)

  function Parse(file: bytes): (r: Result<View>) {
    if |file| < HEADER_SIZE then Err(StructError)
    else if U32(file, 0) != MAGIC then Ok(FlatView)
    else if U16(file, 4) != 1 || U16(file, 6) != 0 then Err(ValueError)
    else if U16(file, 8) != HEADER_SIZE || U16(file, 10) != CHUNK_HEADER_SIZE then Err(ValueError)
    else
      var bs, blocks, n := U32(file, 12), U32(file, 16), U32(file, 20);
      var s :- Scan(file, bs, n, HEADER_SIZE, 0, 0);
      if blocks != s.blocks || s.end < |file| then Err(ValueError)
      else Ok(SparseView(bs, blocks, n, s.chunks, BlockBytes(s.blocks, bs), s.end))
  }

  ghost predicate HeaderFor(file: bytes, bs: nat) {
    && |file| >= HEADER_SIZE && bs > 0
    && U32(file, 0) == MAGIC
    && U16(file, 4) == 1 && U16(file, 6) == 0
    && U16(file, 8) == HEADER_SIZE && U16(file, 10) == CHUNK_HEADER_SIZE
    && U32(file, 12) == bs
  }

  ghost predicate CountsFor(file: bytes, bs: nat, cs: seq<Chunk>)
    requires |file| >= HEADER_SIZE
  {
    BlockBytes(U32(file, 16), bs) == SizeOf(cs) && U32(file, 20) == |cs|
  }

  /** A whole sparse file: fixed header fields, counts that match the table, nothing after the last chunk. */
  ghost predicate SparseFile(file: bytes, bs: nat, cs: seq<Chunk>) {
    && HeaderFor(file, bs)
    && CountsFor(file, bs, cs)
    && Table(file, bs, cs)
    && EndOf(cs) == |file|
  }

  /** The parser accepts every well-formed sparse file and finds its table. */
  lemma ParseFindsTable(file: bytes, bs: nat, cs: seq<Chunk>)
    requires SparseFile(file, bs, cs)
    ensures Parse(file) == Ok(SparseView(bs, U32(file, 16), |cs|, cs, SizeOf(cs), |file|))
  {
    assert cs[..0] == [] && cs[0..] == cs;
    ScanFindsTable(file, bs, cs, 0, 0);
    var blocks := Scan(file, bs, |cs|, HEADER_SIZE, 0, 0).value.blocks;
    MultipleDivides(U32(file, 16), bs);
    MultipleDivides(blocks, bs);
  }

  /** A file whose header announces one chunk more than there is cannot be opened. */
  lemma OverrunFails(file: bytes, bs: nat, cs: seq<Chunk>)
    requires HeaderFor(file, bs) && Table(file, bs, cs) && EndOf(cs) == |file| && U32(file, 20) == |cs| + 1
    ensures Parse(file).Err?
  {
    hide Table, Scan;
    assert cs[..0] == [];
    ScanOverruns(file, bs, cs, 0, 0);
  }

  /** No CRC32 chunk, no zero block size, and nothing cut off at the end of the file. */
  predicate Complete(file: bytes, v: View) {
    v.SparseView? ==>
      && v.blockSize > 0
      && |v.chunks| == v.totalChunks
      && v.sparseEnd == |file|
      && forall i :: 0 <= i < |v.chunks| && v.chunks[i].Fill? ==> |v.chunks[i].fillData| == 4
  }

  /** One round moves forward and keeps at most one chunk; a kept chunk that is complete is described. */
  lemma ReadAdvances(file: bytes, bs: nat, at: nat, out: nat)
    requires ReadChunk(file, bs, at, out).Ok?
    ensures var s := ReadChunk(file, bs, at, out).value;
      && |s.kept| <= 1 && at <= s.next
      && (|s.kept| == 1 && s.next <= |file| && (s.kept[0].Fill? ==> |s.kept[0].fillData| == 4) ==>
            && Describes(file, bs, s.kept[0])
            && s.kept[0].chunkOffset == at && s.kept[0].outputOffset == out
            && FileEnd(s.kept[0]) == s.next && s.kept[0].outputSize == BlockBytes(s.blocks, bs))
  {
  }

  /** A scan keeps at most one chunk per round. */
  lemma {:induction false} ScanKeeps(file: bytes, bs: nat, n: nat, at: nat, blocks: nat, out: nat)
    requires Scan(file, bs, n, at, blocks, out).Ok?
    ensures |Scan(file, bs, n, at, blocks, out).value.chunks| <= n
    ensures at <= Scan(file, bs, n, at, blocks, out).value.end
    decreases n
  {
    if n > 0 {
      hide ReadChunk;
      var s := ReadChunk(file, bs, at, out).value;
      ReadAdvances(file, bs, at, out);
      ScanKeeps(file, bs, n - 1, s.next, blocks + s.blocks, out + BlockBytes(s.blocks, bs));
    }
  }

  /** The scan after the first `k` chunks of `all` finds the other ones, complete. */
  ghost predicate FindsRest(file: bytes, bs: nat, all: seq<Chunk>, k: nat, blocks: nat, total: nat, end: nat)
    requires k <= |all|
  {
    && Table(file, bs, all[..k]) && SizeOf(all[..k]) == BlockBytes(blocks, bs) && end <= |file|
    && Scan(file, bs, |all| - k, EndOf(all[..k]), blocks, SizeOf(all[..k])) == Ok(Scanned(all[k..], total, end))
    && forall i :: k <= i < |all| && all[i].Fill? ==> |all[i].fillData| == 4
  }

  /** One round of it. */
  lemma FindsOne(file: bytes, bs: nat, all: seq<Chunk>, k: nat, blocks: nat, total: nat, end: nat) returns (next: nat)
    requires k < |all| && FindsRest(file, bs, all, k, blocks, total, end)
    ensures FindsRest(file, bs, all, k + 1, next, total, end)
  {
    hide ReadChunk, Describes, BlockBytes, Scan, Table, EndOf, SizeOf, FileEnd;
    var at, out := EndOf(all[..k]), SizeOf(all[..k]);
    ScanRound(file, bs, |all| - k, at, blocks, out);
    var s := ReadChunk(file, bs, at, out).value;
    ReadAdvances(file, bs, at, out);
    next := blocks + s.blocks;
    var rest := Scan(file, bs, |all| - k - 1, s.next, next, out + BlockBytes(s.blocks, bs)).value;
    ScanKeeps(file, bs, |all| - k - 1, s.next, next, out + BlockBytes(s.blocks, bs));
    FirstOfRest(s.kept, rest.chunks, all, k);
    TableSnoc(file, bs, all[..k], all[k]);
    SnocEnds(all[..k], all[k]);
    assert all[..k] + [all[k]] == all[..k + 1];
    BlocksAdd(blocks, s.blocks, bs);
  }

  lemma SnocEnds(cs: seq<Chunk>, c: Chunk)
    ensures EndOf(cs + [c]) == FileEnd(c) && SizeOf(cs + [c]) == OutputEnd(c)
  {
  }

  lemma FirstOfRest(kept: seq<Chunk>, rest: seq<Chunk>, all: seq<Chunk>, k: nat)
    requires k < |all| && kept + rest == all[k..] && |kept| <= 1 && |rest| <= |all| - k - 1
    ensures kept == [all[k]] && rest == all[k + 1..]
  {
    assert |kept| == 1 && (kept + rest)[0] == kept[0] && (kept + rest)[1..] == rest;
  }

  /** If the scan after the first `k` chunks of `all` finds the other ones complete, `all` is the table. */
  lemma {:induction false} ScanSound(file: bytes, bs: nat, all: seq<Chunk>, k: nat, blocks: nat, total: nat, end: nat)
    requires k <= |all| && FindsRest(file, bs, all, k, blocks, total, end)
    ensures Table(file, bs, all) && EndOf(all) == end && SizeOf(all) == BlockBytes(total, bs)
    decreases |all| - k
  {
    hide ReadChunk, Describes, BlockBytes, Scan, Table;
    if k == |all| {
      ScanDone(file, bs, EndOf(all[..k]), blocks, SizeOf(all[..k]));
      assert all[..k] == all;
    } else {
      var next := FindsOne(file, bs, all, k, blocks, total, end);
      ScanSound(file, bs, all, k + 1, next, total, end);
    }
  }

  /** A file that parses completely is a well-formed sparse file. */
  lemma ParseSound(file: bytes)
    requires Parse(file).Ok? && Parse(file).value.SparseView? && Complete(file, Parse(file).value)
    ensures SparseFile(file, Parse(file).value.blockSize, Parse(file).value.chunks)
  {
    var v := Parse(file).value;
    var s := Scan(file, v.blockSize, v.totalChunks, HEADER_SIZE, 0, 0).value;
    assert v.chunks[..0] == [] && v.chunks[0..] == v.chunks;
    ScanSound(file, v.blockSize, v.chunks, 0, 0, s.blocks, s.end);
  }
}
