/** How the edits of tools/avbtool's ImageHandler change a sparse file: appended chunks, cut chunks, patched counts. */
module SparseEdit {
  import opened Bytes
  import opened SparseFormat

  /** The effect of `_update_chunks_and_blocks` on the file. */
  function PatchCounts(file: bytes, blocks: nat, chunks: nat): (f: bytes)
    requires |file| >= HEADER_SIZE
    ensures |f| == |file|
  {
    WriteAt(file, COUNTS_OFFSET, LE32(blocks) + LE32(chunks))
  }

  function ChunkHeader(chunkType: nat, blocks: nat, total: nat): (h: bytes)
    ensures |h| == CHUNK_HEADER_SIZE
  {
    LE16(chunkType) + LE16(0) + LE32(blocks) + LE32(total)
  }

  /** Patching the counts touches nothing but the two count fields. */
  lemma PatchedCounts(file: bytes, bs: nat, blocks: nat, chunks: nat)
    requires HeaderFor(file, bs) && blocks < TWO_32 && chunks < TWO_32
    ensures var f := PatchCounts(file, blocks, chunks);
      && HeaderFor(f, bs) && U32(f, 16) == blocks && U32(f, 20) == chunks
      && forall k :: HEADER_SIZE <= k < |file| ==> f[k] == file[k]
  {
    var f := PatchCounts(file, blocks, chunks);
    assert f[16..20] == LE32(blocks) && f[20..24] == LE32(chunks);
    U32RoundTrip(f, 16, blocks);
    U32RoundTrip(f, 20, chunks);
    assert forall k :: 0 <= k < 16 ==> f[k] == file[k];
  }

  /** Only the first 28 bytes decide about the header. */
  lemma HeaderFrame(file: bytes, file': bytes, bs: nat)
    requires HeaderFor(file, bs) && |file'| >= HEADER_SIZE
    requires forall k :: 0 <= k < HEADER_SIZE ==> file'[k] == file[k]
    ensures HeaderFor(file', bs) && U32(file', 16) == U32(file, 16) && U32(file', 20) == U32(file, 20)
  {
  }

  /** A chunk header and payload at the chunk's offset describe the chunk. */
  lemma DescribedByHeader(f: bytes, bs: nat, c: Chunk, blocks: nat)
    requires FileEnd(c) <= |f| && blocks < TWO_32 && CHUNK_HEADER_SIZE + PayloadSize(c) < TWO_32
    requires f[c.chunkOffset..c.chunkOffset + CHUNK_HEADER_SIZE]
          == ChunkHeader(TypeOf(c), blocks, CHUNK_HEADER_SIZE + PayloadSize(c))
    requires c.outputSize == BlockBytes(blocks, bs)
    requires c.Raw? ==> c.inputOffset == c.chunkOffset + CHUNK_HEADER_SIZE
    requires c.Fill? ==> c.fillData == f[c.chunkOffset + CHUNK_HEADER_SIZE..FileEnd(c)]
    ensures Describes(f, bs, c)
  {
    hide BlockBytes;
    var o := c.chunkOffset;
    var h := f[o..o + CHUNK_HEADER_SIZE];
    assert h[0..2] == LE16(TypeOf(c)) && h[4..8] == LE32(blocks) && h[8..12] == LE32(CHUNK_HEADER_SIZE + PayloadSize(c));
    SliceOfSlice(f, o, o + CHUNK_HEADER_SIZE, 0, 2);
    SliceOfSlice(f, o, o + CHUNK_HEADER_SIZE, 4, 8);
    SliceOfSlice(f, o, o + CHUNK_HEADER_SIZE, 8, 12);
    U16RoundTrip(f, o, TypeOf(c));
    U32RoundTrip(f, o + 4, blocks);
    U32RoundTrip(f, o + 8, CHUNK_HEADER_SIZE + PayloadSize(c));
  }

  /** The file after patching the counts and appending one chunk. */
  function Appended(file: bytes, c: Chunk, blocks: nat, payload: bytes, totalBlocks: nat, totalChunks: nat): bytes
    requires |file| >= HEADER_SIZE
  {
    PatchCounts(file, totalBlocks, totalChunks)
      + ChunkHeader(TypeOf(c), blocks, CHUNK_HEADER_SIZE + |payload|) + payload
  }

  /** Appending a chunk to a sparse file appends exactly its bytes to the image. */
  lemma AppendChunk(file: bytes, bs: nat, cs: seq<Chunk>, c: Chunk, blocks: nat, payload: bytes, totalBlocks: nat)
    requires HeaderFor(file, bs) && Table(file, bs, cs) && EndOf(cs) == |file|
    requires c.chunkOffset == |file| && c.outputOffset == SizeOf(cs) && c.outputSize == BlockBytes(blocks, bs)
    requires |payload| == PayloadSize(c)
    requires c.Raw? ==> c.inputOffset == |file| + CHUNK_HEADER_SIZE
    requires c.Fill? ==> c.fillData == payload
    requires blocks < TWO_32 && CHUNK_HEADER_SIZE + |payload| < TWO_32
    requires totalBlocks < TWO_32 && |cs| + 1 < TWO_32
    requires BlockBytes(totalBlocks, bs) == SizeOf(cs) + c.outputSize
    ensures var f := Appended(file, c, blocks, payload, totalBlocks, |cs| + 1);
      && SparseFile(f, bs, cs + [c])
      && Describes(f, bs, c) && (c.Raw? ==> ChunkBytes(f, c) == payload)
      && Expand(f, bs, cs + [c]) == Expand(file, bs, cs) + ChunkBytes(f, c)
  {
    hide BlockBytes, Table, Expand, Describes;
    var p := PatchCounts(file, totalBlocks, |cs| + 1);
    var header := ChunkHeader(TypeOf(c), blocks, CHUNK_HEADER_SIZE + |payload|);
    var f := Appended(file, c, blocks, payload, totalBlocks, |cs| + 1);
    PatchedCounts(file, bs, totalBlocks, |cs| + 1);
    assert forall k :: 0 <= k < |p| ==> f[k] == p[k];
    HeaderFrame(p, f, bs);
    TableFrame(file, f, bs, cs);
    assert f[|file|..|file| + CHUNK_HEADER_SIZE] == header;
    assert f[|file| + CHUNK_HEADER_SIZE..] == payload;
    DescribedByHeader(f, bs, c, blocks);
    TableSnoc(f, bs, cs, c);
    assert c.Raw? ==> ChunkBytes(f, c) == f[|file| + CHUNK_HEADER_SIZE..];
  }

  /** Cutting the file at a chunk boundary, with the counts of the chunks that stay. */
  lemma CutAtBoundary(file: bytes, bs: nat, cs: seq<Chunk>, k: nat, totalBlocks: nat)
    requires HeaderFor(file, bs) && Table(file, bs, cs) && k <= |cs| && EndOf(cs) == |file|
    requires totalBlocks < TWO_32 && k < TWO_32 && BlockBytes(totalBlocks, bs) == SizeOf(cs[..k])
    ensures SizeOf(cs[..k]) <= SizeOf(cs) && EndOf(cs[..k]) <= |file|
    ensures var f := PatchCounts(file, totalBlocks, k)[..EndOf(cs[..k])];
      SparseFile(f, bs, cs[..k]) && Expand(f, bs, cs[..k]) == Expand(file, bs, cs)[..SizeOf(cs[..k])]
  {
    hide BlockBytes, Table, Expand, Describes;
    TablePrefix(file, bs, cs, k);
    ExpandPrefix(file, bs, cs, k);
    PatchedCounts(file, bs, totalBlocks, k);
    var p := PatchCounts(file, totalBlocks, k);
    var f := p[..EndOf(cs[..k])];
    HeaderFrame(p, f, bs);
    TableFrame(file, f, bs, cs[..k]);
  }

  /** The chunk that stays when `c` is cut after `keep` bytes. */
  function CutChunk(c: Chunk, keep: nat): Chunk { c.(outputSize := keep) }

  /** Rewriting a chunk header for fewer blocks keeps a prefix of the chunk's bytes. */
  lemma CutInside(file: bytes, bs: nat, c: Chunk, keep: nat, blocks: nat, f: bytes)
    requires Describes(file, bs, c) && keep == BlockBytes(blocks, bs) && keep < c.outputSize
    requires blocks <= U32(file, c.chunkOffset + 4)
    requires FileEnd(CutChunk(c, keep)) <= |f|
    requires f[c.chunkOffset..c.chunkOffset + CHUNK_HEADER_SIZE]
          == ChunkHeader(TypeOf(c), blocks, CHUNK_HEADER_SIZE + PayloadSize(CutChunk(c, keep)))
    requires forall k :: c.chunkOffset + CHUNK_HEADER_SIZE <= k < FileEnd(CutChunk(c, keep)) ==> f[k] == file[k]
    ensures Describes(f, bs, CutChunk(c, keep))
    ensures ChunkBytes(f, CutChunk(c, keep)) == ChunkBytes(file, c)[..keep]
  {
    hide BlockBytes;
    var d := CutChunk(c, keep);
    assert PayloadSize(d) <= PayloadSize(c) && TypeOf(d) == TypeOf(c);
    var body := c.chunkOffset + CHUNK_HEADER_SIZE;
    SlicesAgree(f, file, body, FileEnd(d));
    DescribedByHeader(f, bs, d, blocks);
  }

  /** The file after `truncate` cut chunk `k` down to `keep` bytes. */
  function CutFile(file: bytes, cs: seq<Chunk>, k: nat, keep: nat, blocks: nat, totalBlocks: nat): bytes
    requires k < |cs| && |file| >= HEADER_SIZE && cs[k].chunkOffset + CHUNK_HEADER_SIZE <= |file|
    requires FileEnd(CutChunk(cs[k], keep)) <= |file|
  {
    var d := CutChunk(cs[k], keep);
    var rewritten := WriteAt(file, d.chunkOffset, ChunkHeader(TypeOf(d), blocks, CHUNK_HEADER_SIZE + PayloadSize(d)));
    PatchCounts(rewritten, totalBlocks, k + 1)[..FileEnd(d)]
  }

  /** Which bytes of the file such a cut changes. */
  lemma CutFileFrame(file: bytes, bs: nat, cs: seq<Chunk>, k: nat, keep: nat, blocks: nat, totalBlocks: nat)
    requires HeaderFor(file, bs) && k < |cs| && totalBlocks < TWO_32 && k + 1 < TWO_32
    requires HEADER_SIZE <= cs[k].chunkOffset && FileEnd(CutChunk(cs[k], keep)) <= |file|
    ensures var f, d := CutFile(file, cs, k, keep, blocks, totalBlocks), CutChunk(cs[k], keep);
      && |f| == FileEnd(d) && HeaderFor(f, bs) && U32(f, 16) == totalBlocks && U32(f, 20) == k + 1
      && f[d.chunkOffset..d.chunkOffset + CHUNK_HEADER_SIZE]
         == ChunkHeader(TypeOf(d), blocks, CHUNK_HEADER_SIZE + PayloadSize(d))
      && forall i :: HEADER_SIZE <= i < d.chunkOffset || d.chunkOffset + CHUNK_HEADER_SIZE <= i < FileEnd(d) ==>
           f[i] == file[i]
  {
    hide WriteAt, PatchCounts, ChunkHeader;
    var d := CutChunk(cs[k], keep);
    var header := ChunkHeader(TypeOf(d), blocks, CHUNK_HEADER_SIZE + PayloadSize(d));
    var w := WriteAt(file, d.chunkOffset, header);
    WriteAtFrame(file, d.chunkOffset, header);
    HeaderFrame(file, w, bs);
    PatchedCounts(w, bs, totalBlocks, k + 1);
    var p := PatchCounts(w, totalBlocks, k + 1);
    var f := p[..FileEnd(d)];
    HeaderFrame(p, f, bs);
    SlicesAgree(f, w, d.chunkOffset, d.chunkOffset + CHUNK_HEADER_SIZE);
  }

  lemma CutChunkEnds(c: Chunk, keep: nat)
    requires keep <= c.outputSize
    ensures var d := CutChunk(c, keep);
      && TypeOf(d) == TypeOf(c) && FileEnd(d) <= FileEnd(c) && d.chunkOffset == c.chunkOffset && d.outputOffset == c.outputOffset
      && d.outputSize == keep && OutputEnd(d) == c.outputOffset + keep && FileEnd(d) >= c.chunkOffset + CHUNK_HEADER_SIZE
  {
  }

  /** Cutting in the middle of a chunk keeps the chunks before it and a prefix of the chunk itself. */
  lemma CutInMiddle(file: bytes, bs: nat, cs: seq<Chunk>, k: nat, keep: nat, blocks: nat, totalBlocks: nat)
    requires HeaderFor(file, bs) && Table(file, bs, cs) && k < |cs| && EndOf(cs) == |file|
    requires keep < cs[k].outputSize && keep == BlockBytes(blocks, bs)
    requires cs[k].chunkOffset + 8 <= |file| && blocks <= U32(file, cs[k].chunkOffset + 4)
    requires totalBlocks < TWO_32 && k + 1 < TWO_32 && BlockBytes(totalBlocks, bs) == SizeOf(cs[..k]) + keep
    ensures FileEnd(CutChunk(cs[k], keep)) <= |file| && SizeOf(cs[..k]) + keep <= SizeOf(cs)
    ensures var f := CutFile(file, cs, k, keep, blocks, totalBlocks);
      var t := cs[..k] + [CutChunk(cs[k], keep)];
      SparseFile(f, bs, t) && Expand(f, bs, t) == Expand(file, bs, cs)[..SizeOf(cs[..k]) + keep]
  {
    hide BlockBytes, Table, Expand, Describes, ChunkBytes, CutFile, ChunkHeader, HeaderFor, FileEnd, CutChunk, TypeOf,
      PayloadSize;
    var d := CutChunk(cs[k], keep);
    TableAt(file, bs, cs, k);
    TablePrefix(file, bs, cs, k);
    CutChunkEnds(cs[k], keep);
    CutFileFrame(file, bs, cs, k, keep, blocks, totalBlocks);
    var f := CutFile(file, cs, k, keep, blocks, totalBlocks);
    TableFrame(file, f, bs, cs[..k]);
    CutInside(file, bs, cs[k], keep, blocks, f);
    TableSnoc(f, bs, cs[..k], d);
    CutExpansion(file, bs, cs, k, keep);
  }

  /** A prefix of the image that ends inside chunk `k`. */
  lemma CutExpansion(file: bytes, bs: nat, cs: seq<Chunk>, k: nat, keep: nat)
    requires Table(file, bs, cs) && k < |cs| && keep <= cs[k].outputSize
    ensures Table(file, bs, cs[..k]) && Describes(file, bs, cs[k])
    ensures SizeOf(cs[..k]) + keep <= SizeOf(cs)
    ensures Expand(file, bs, cs)[..SizeOf(cs[..k]) + keep]
         == Expand(file, bs, cs[..k]) + ChunkBytes(file, cs[k])[..keep]
  {
    hide BlockBytes, Describes, Table, Expand;
    TableAt(file, bs, cs, k);
    ExpandPrefix(file, bs, cs, k);
    ExpandSlice(file, bs, cs, k);
    var e := Expand(file, bs, cs);
    var at := cs[k].outputOffset;
    assert e[..at + keep] == e[..at] + e[at..OutputEnd(cs[k])][..keep];
  }

  // ---------------------------------------------------------------- a RAW chunk that is not whole blocks

  /** The file after patching the counts and appending a RAW chunk, whole blocks or not. */
  function WithRaw(file: bytes, bs: nat, data: bytes, totalBlocks: nat, totalChunks: nat): bytes
    requires |file| >= HEADER_SIZE && bs > 0
  {
    PatchCounts(file, totalBlocks, totalChunks) + ChunkHeader(TYPE_RAW, |data| / bs, CHUNK_HEADER_SIZE + |data|) + data
  }

  /** A chunk of `file` in a file that agrees with it as far as that goes: if it can be read, reading goes on behind the
      chunk, or at the end of that file. */
  lemma ReadAgreeing(file: bytes, g: bytes, bs: nat, c: Chunk, out: nat)
    requires Describes(file, bs, c)
    requires forall k :: c.chunkOffset <= k < FileEnd(c) && k < |g| ==> g[k] == file[k]
    ensures var r := ReadChunk(g, bs, c.chunkOffset, out); r.Ok? ==> r.value.next == FileEnd(c) || r.value.next == |g|
  {
    hide BlockBytes;
  }

  /** A RAW chunk that is not whole blocks is refused. */
  lemma OddRefused(g: bytes, bs: nat, at: nat, out: nat)
    requires bs > 0 && at + CHUNK_HEADER_SIZE <= |g| && U16(g, at) == TYPE_RAW
    requires (U32(g, at + 8) - CHUNK_HEADER_SIZE) % bs != 0
    ensures ReadChunk(g, bs, at, out).Err?
  {
    MultipleDivides(U32(g, at + 4), bs);
  }

  /** A scan that is to find such a chunk behind the table fails, also where the file is cut before or inside it. */
  lemma {:induction false} OddScan(file: bytes, g: bytes, bs: nat, cs: seq<Chunk>, k: nat, blocks: nat, out: nat)
    requires Table(file, bs, cs) && bs > 0 && k <= |cs| && EndOf(cs) == |file|
    requires forall j :: HEADER_SIZE <= j < |file| && j < |g| ==> g[j] == file[j]
    requires |file| + CHUNK_HEADER_SIZE <= |g| ==>
      U16(g, |file|) == TYPE_RAW && (U32(g, |file| + 8) - CHUNK_HEADER_SIZE) % bs != 0
    ensures Scan(g, bs, |cs| - k + 1, EndOf(cs[..k]), blocks, out).Err?
    decreases |cs| - k
  {
    hide ReadChunk, Table, Scan, BlockBytes;
    var at := EndOf(cs[..k]);
    ScanRound(g, bs, |cs| - k + 1, at, blocks, out);
    if at + CHUNK_HEADER_SIZE > |g| {
      NothingToRead(g, bs, at, out);
    } else if k == |cs| {
      assert cs[..k] == cs;
      OddRefused(g, bs, at, out);
    } else {
      var c := cs[k];
      TableAt(file, bs, cs, k);
      assert cs[..k + 1][k] == c && |cs[..k + 1]| == k + 1;
      ReadAgreeing(file, g, bs, c, out);
      var r := ReadChunk(g, bs, at, out);
      if r.Ok? {
        var s := r.value;
        if s.next == FileEnd(c) {
          OddScan(file, g, bs, cs, k + 1, blocks + s.blocks, out + BlockBytes(s.blocks, bs));
        } else {
          ScanRound(g, bs, |cs| - k, s.next, blocks + s.blocks, out + BlockBytes(s.blocks, bs));
          NothingToRead(g, bs, s.next, out + BlockBytes(s.blocks, bs));
        }
      }
    }
  }

  /** The file with such a chunk cannot be opened, and neither can anything it is cut or grown to. */
  lemma OddNeverOpens(file: bytes, bs: nat, cs: seq<Chunk>, data: bytes, totalBlocks: nat, n: nat)
    requires HeaderFor(file, bs) && Table(file, bs, cs) && EndOf(cs) == |file|
    requires totalBlocks < TWO_32 && |cs| + 1 < TWO_32 && CHUNK_HEADER_SIZE + |data| < TWO_32 && |data| % bs != 0
    ensures Parse(Resize(WithRaw(file, bs, data, totalBlocks, |cs| + 1), n)).Err?
  {
    hide Table, Scan, Parse, ChunkHeader, PatchCounts, WithRaw, Resize;
    var g := Resize(WithRaw(file, bs, data, totalBlocks, |cs| + 1), n);
    if n < HEADER_SIZE {
      UnreadHeader(g, bs);
    } else {
      var p := PatchCounts(file, totalBlocks, |cs| + 1);
      PatchedCounts(file, bs, totalBlocks, |cs| + 1);
      OddPrefix(file, bs, data, totalBlocks, |cs| + 1, n);
      HeaderFrame(p, g, bs);
      assert cs[..0] == [] && EndOf(cs[..0]) == HEADER_SIZE;
      OddScan(file, g, bs, cs, 0, 0, 0);
      UnreadHeader(g, bs);
    }
  }

  /** Without a header that is long enough, or if the scan fails, there is nothing to open. */
  lemma UnreadHeader(g: bytes, bs: nat)
    requires |g| < HEADER_SIZE || (HeaderFor(g, bs) && Scan(g, bs, U32(g, 20), HEADER_SIZE, 0, 0).Err?)
    ensures Parse(g).Err?
  {
    hide Scan;
  }

  /** How the resized file starts, and the fields of the chunk's header in it. */
  lemma OddPrefix(file: bytes, bs: nat, data: bytes, totalBlocks: nat, totalChunks: nat, n: nat)
    requires |file| >= HEADER_SIZE && bs > 0 && CHUNK_HEADER_SIZE + |data| < TWO_32
    ensures var p, g := PatchCounts(file, totalBlocks, totalChunks), Resize(WithRaw(file, bs, data, totalBlocks, totalChunks), n);
      && (forall k :: 0 <= k < |p| && k < n ==> g[k] == p[k])
      && (|file| + CHUNK_HEADER_SIZE <= n ==> U16(g, |file|) == TYPE_RAW && U32(g, |file| + 8) == CHUNK_HEADER_SIZE + |data|)
  {
    hide PatchCounts, ChunkHeader;
    var f := WithRaw(file, bs, data, totalBlocks, totalChunks);
    if |file| + CHUNK_HEADER_SIZE <= n {
      OddHeader(f, Resize(f, n), |file|, |data| / bs, |data|);
    }
  }

  /** A chunk header's fields, in a file that agrees with the one it was written to. */
  lemma OddHeader(f: bytes, g: bytes, at: nat, blocks: nat, size: nat)
    requires at + CHUNK_HEADER_SIZE <= |f| && at + CHUNK_HEADER_SIZE <= |g| && CHUNK_HEADER_SIZE + size < TWO_32
    requires f[at..at + CHUNK_HEADER_SIZE] == ChunkHeader(TYPE_RAW, blocks, CHUNK_HEADER_SIZE + size)
    requires forall k :: at <= k < at + CHUNK_HEADER_SIZE ==> g[k] == f[k]
    ensures U16(g, at) == TYPE_RAW && U32(g, at + 8) == CHUNK_HEADER_SIZE + size
  {
    var h := f[at..at + CHUNK_HEADER_SIZE];
    assert g[at..at + CHUNK_HEADER_SIZE] == h;
    assert h[0..2] == LE16(TYPE_RAW) && h[8..12] == LE32(CHUNK_HEADER_SIZE + size);
    SliceOfSlice(g, at, at + CHUNK_HEADER_SIZE, 0, 2);
    SliceOfSlice(g, at, at + CHUNK_HEADER_SIZE, 8, 12);
    U16RoundTrip(g, at, TYPE_RAW);
    U32RoundTrip(g, at + 8, CHUNK_HEADER_SIZE + size);
  }
}
