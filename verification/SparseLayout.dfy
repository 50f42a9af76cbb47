/** The sparse file format in bytes at offsets, and the plain file a run of operations is compared with, operation by
    operation: what tools/avbtool and tools/mksparse.py read and write, without the functions that read and write it. */
module SparseLayout {
  import opened Bytes
  import opened Results

  import opened SparseFormat
  import opened SparseEdit
  import opened SparseImage
  import opened SparseRun
  import MkSparse

  // ---------------------------------------------------------------- fields

  /** The least significant byte comes first. */
  lemma LittleEndian(s: bytes, at: nat, v: nat)
    requires at + 4 <= |s|
    ensures U16(s, at) == s[at] as int + 256 * s[at + 1] as int
    ensures U32(s, at) == s[at] as int + 256 * s[at + 1] as int + 65536 * s[at + 2] as int + 16777216 * s[at + 3] as int
    ensures v < 65536 ==> LE16(v) == [v % 256, v / 256]
    ensures v < 0x1_0000_0000 ==>
      U16(LE32(v), 0) + 65536 * U16(LE32(v), 2) == v && LE32(v)[0] as int == v % 256
  {
  }

  /** 28 bytes: magic, version 1.0, header sizes, block size, counts, checksum. */
  lemma FileHeaderIs(blocks: nat, chunks: nat)
    requires blocks < TWO_32 && chunks < TWO_32
    ensures var h := MkSparse.FileHeader(blocks, chunks);
      && |h| == 28 && h[..16] == [0x3a, 0xff, 0x26, 0xed, 1, 0, 0, 0, 28, 0, 12, 0, 0, 16, 0, 0]
      && U32(h, 16) == blocks && U32(h, 20) == chunks && h[24..] == [0, 0, 0, 0]
  {
    var h := MkSparse.FileHeader(blocks, chunks);
    assert h[..28] == h;
    MkSparse.FileHeaderFields(h, blocks, chunks);
    FixedFields(blocks, chunks);
  }

  lemma FixedFields(blocks: nat, chunks: nat)
    ensures var h := MkSparse.FileHeader(blocks, chunks);
      h[..16] == [0x3a, 0xff, 0x26, 0xed, 1, 0, 0, 0, 28, 0, 12, 0, 0, 16, 0, 0] && h[24..] == [0, 0, 0, 0]
  {
    assert LE32(MAGIC) == [0x3a, 0xff, 0x26, 0xed] && LE32(MkSparse.BLOCK) == [0, 16, 0, 0] && LE32(0) == [0, 0, 0, 0];
    assert LE16(1) == [1, 0] && LE16(0) == [0, 0] && LE16(HEADER_SIZE) == [28, 0] && LE16(CHUNK_HEADER_SIZE) == [12, 0];
    hide LE16, LE32;
    var front := LE32(MAGIC) + LE16(1) + LE16(0) + LE16(HEADER_SIZE) + LE16(CHUNK_HEADER_SIZE) + LE32(MkSparse.BLOCK);
    assert |front| == 16 && MkSparse.FileHeader(blocks, chunks)[..16] == front;
  }

  /** 12 bytes: type, two zeros, the number of blocks, the size of the chunk with its header. */
  lemma ChunkHeaderIs(kind: nat, blocks: nat, total: nat)
    requires kind < TWO_16 && blocks < TWO_32 && total < TWO_32
    ensures var h := ChunkHeader(kind, blocks, total);
      && |h| == 12 && U16(h, 0) == kind && h[2] == h[3] == 0 && U32(h, 4) == blocks && U32(h, 8) == total
  {
    hide LE16, LE32;
    var h := ChunkHeader(kind, blocks, total);
    assert h[0..2] == LE16(kind) && h[2..4] == LE16(0) && h[4..8] == LE32(blocks) && h[8..12] == LE32(total);
    U16RoundTrip(h, 0, kind);
    U16RoundTrip(h, 2, 0);
    U32RoundTrip(h, 4, blocks);
    U32RoundTrip(h, 8, total);
  }

  /** Patching writes the two counts at offset 16, and nothing else. */
  lemma PatchCountsIs(file: bytes, blocks: nat, chunks: nat)
    requires |file| >= 28 && blocks < TWO_32 && chunks < TWO_32
    ensures var f := PatchCounts(file, blocks, chunks);
      && |f| == |file| && U32(f, 16) == blocks && U32(f, 20) == chunks && f[..16] == file[..16] && f[24..] == file[24..]
  {
    hide LE32;
    var f := PatchCounts(file, blocks, chunks);
    assert f[16..20] == LE32(blocks) && f[20..24] == LE32(chunks);
    U32RoundTrip(f, 16, blocks);
    U32RoundTrip(f, 20, chunks);
  }

  // ---------------------------------------------------------------- whole files

  /** The header a reader accepts. */
  lemma HeaderIs(file: bytes, bs: nat)
    ensures HeaderFor(file, bs) <==>
      && |file| >= 28 && file[..12] == [0x3a, 0xff, 0x26, 0xed, 1, 0, 0, 0, 28, 0, 12, 0] && U32(file, 12) == bs && bs > 0
  {
    hide U32;
    if |file| >= 28 {
      var h := file[..12];
      MagicIs(file);
      FieldIs(file, 4, 1);
      FieldIs(file, 6, 0);
      FieldIs(file, 8, 28);
      FieldIs(file, 10, 12);
      assert h[0] == file[0] && h[1] == file[1] && h[2] == file[2] && h[3] == file[3] && h[4] == file[4] && h[5] == file[5];
      assert h[6] == file[6] && h[7] == file[7] && h[8] == file[8] && h[9] == file[9] && h[10] == file[10] && h[11] == file[11];
    }
  }

  lemma MagicIs(file: bytes)
    requires |file| >= 4
    ensures U32(file, 0) == MAGIC <==> file[0] == 0x3a && file[1] == 0xff && file[2] == 0x26 && file[3] == 0xed
  {
  }

  lemma FieldIs(file: bytes, at: nat, v: nat)
    requires at + 2 <= |file| && v < 256
    ensures U16(file, at) == v <==> file[at] == v && file[at + 1] == 0
  {
  }

  /** The bytes of one chunk: C1 CA with its blocks behind it, C2 CA with four bytes, or C3 CA with nothing. */
  ghost predicate ChunkIs(file: bytes, bs: nat, c: Chunk) {
    var o := c.chunkOffset;
    && o + 12 <= |file| && file[o + 1] == 0xca && c.outputSize == BlockBytes(U32(file, o + 4), bs)
    && match c
       case Raw(_, _, size, input) =>
         file[o] == 0xc1 && input == o + 12 && input + size <= |file| && U32(file, o + 8) == 12 + size
       case Fill(_, _, _, fill) => file[o] == 0xc2 && o + 16 <= |file| && fill == file[o + 12..o + 16] && U32(file, o + 8) == 16
       case DontCare(_, _, _) => file[o] == 0xc3 && U32(file, o + 8) == 12
  }

  lemma DescribedIs(file: bytes, bs: nat, c: Chunk)
    ensures Describes(file, bs, c) <==> ChunkIs(file, bs, c)
  {
    hide U32, BlockBytes;
    if c.chunkOffset + 12 <= |file| {
      TypeIs(file, c.chunkOffset);
    }
  }

  lemma TypeIs(file: bytes, at: nat)
    requires at + 2 <= |file|
    ensures U16(file, at) == TYPE_RAW <==> file[at] == 0xc1 && file[at + 1] == 0xca
    ensures U16(file, at) == TYPE_FILL <==> file[at] == 0xc2 && file[at + 1] == 0xca
    ensures U16(file, at) == TYPE_DONT_CARE <==> file[at] == 0xc3 && file[at + 1] == 0xca
    ensures U16(file, at) == TYPE_CRC32 <==> file[at] == 0xc4 && file[at + 1] == 0xca
  {
  }

  /** How many bytes of the file a chunk takes. */
  function Taken(c: Chunk): nat {
    match c
    case Raw(_, _, size, _) => 12 + size
    case Fill(_, _, _, _) => 16
    case DontCare(_, _, _) => 12
  }

  /** The chunks stand behind the header without gaps, and so do their stretches of the image. */
  ghost predicate InRow(cs: seq<Chunk>, i: nat)
    requires i < |cs|
  {
    if i == 0 then cs[i].chunkOffset == 28 && cs[i].outputOffset == 0
    else
      && cs[i].chunkOffset == cs[i - 1].chunkOffset + Taken(cs[i - 1])
      && cs[i].outputOffset == cs[i - 1].outputOffset + cs[i - 1].outputSize
  }

  ghost predicate Rows(file: bytes, bs: nat, cs: seq<Chunk>) {
    forall i :: 0 <= i < |cs| ==> InRow(cs, i) && ChunkIs(file, bs, cs[i])
  }

  lemma RowsSnoc(file: bytes, bs: nat, cs: seq<Chunk>)
    requires cs != []
    ensures Rows(file, bs, cs) <==>
      Rows(file, bs, cs[..|cs| - 1]) && InRow(cs, |cs| - 1) && ChunkIs(file, bs, cs[|cs| - 1])
  {
    hide ChunkIs, InRow;
    var rest := cs[..|cs| - 1];
    forall i | 0 <= i < |rest|
      ensures rest[i] == cs[i] && (InRow(rest, i) <==> InRow(cs, i))
    {
      RowOfPrefix(cs, i);
    }
  }

  lemma RowOfPrefix(cs: seq<Chunk>, i: nat)
    requires i < |cs| - 1
    ensures InRow(cs[..|cs| - 1], i) <==> InRow(cs, i)
  {
    hide Taken;
    var rest := cs[..|cs| - 1];
    assert rest[i] == cs[i] && (i > 0 ==> rest[i - 1] == cs[i - 1]);
  }

  lemma LastRow(cs: seq<Chunk>)
    requires cs != []
    ensures var c, rest := cs[|cs| - 1], cs[..|cs| - 1];
      InRow(cs, |cs| - 1) <==> c.chunkOffset == EndOf(rest) && c.outputOffset == SizeOf(rest)
  {
  }

  lemma TableUnfolds(file: bytes, bs: nat, cs: seq<Chunk>)
    requires cs != []
    ensures var c, rest := cs[|cs| - 1], cs[..|cs| - 1];
      Table(file, bs, cs) <==>
        Table(file, bs, rest) && c.chunkOffset == EndOf(rest) && c.outputOffset == SizeOf(rest) && Describes(file, bs, c)
  {
    hide Describes, EndOf, SizeOf;
  }

  lemma {:induction false} TableIs(file: bytes, bs: nat, cs: seq<Chunk>)
    ensures Table(file, bs, cs) <==> forall i :: 0 <= i < |cs| ==> InRow(cs, i) && ChunkIs(file, bs, cs[i])
  {
    hide ChunkIs, InRow, Describes, EndOf, SizeOf;
    if cs != [] {
      TableIs(file, bs, cs[..|cs| - 1]);
      RowsSnoc(file, bs, cs);
      LastRow(cs);
      DescribedIs(file, bs, cs[|cs| - 1]);
      TableUnfolds(file, bs, cs);
    }
  }

  /** Every byte of the image: copied, repeated, or zero. */
  lemma ImageByte(file: bytes, bs: nat, cs: seq<Chunk>, i: nat, k: nat)
    requires Table(file, bs, cs) && i < |cs| && k < cs[i].outputSize
    ensures cs[i].outputOffset + k < |Expand(file, bs, cs)|
    ensures cs[i].Raw? ==> cs[i].chunkOffset + 12 + k < |file|
    ensures cs[i].Fill? ==> cs[i].chunkOffset + 16 <= |file|
    ensures Expand(file, bs, cs)[cs[i].outputOffset + k] ==
      match cs[i]
      case Raw(o, _, _, _) => file[o + 12 + k]
      case Fill(o, _, _, _) => file[o + 12 + k % 4]
      case DontCare(_, _, _) => 0
  {
    hide Table, Expand, BlockBytes, U32;
    TableAt(file, bs, cs, i);
    ExpandSlice(file, bs, cs, i);
    assert Expand(file, bs, cs)[cs[i].outputOffset..OutputEnd(cs[i])][k] == Expand(file, bs, cs)[cs[i].outputOffset + k];
  }

  /** What a read that starts behind the end of the image gets from the last chunk, which it asks for a negative number of
      bytes: nothing from a DONT_CARE chunk; an error from a RAW chunk or, one byte behind, the rest of the file; from a
      FILL chunk a piece of its four bytes if it is less than four bytes behind and the piece is counted from their end. */
  lemma BehindTheEnd(file: bytes, c: Chunk, off: nat, n: int)
    requires n < 0 && (c.Fill? ==> |c.fillData| == 4)
    ensures c.DontCare? ==> ReadPiece(file, c, off, n) == Ok([])
    ensures c.Raw? && n < -1 ==> ReadPiece(file, c, off, n) == Err(ValueError)
    ensures c.Raw? && n == -1 ==>
      ReadPiece(file, c, off, n) == Ok(if c.inputOffset + off <= |file| then file[c.inputOffset + off..] else [])
    ensures c.Fill? ==>
      var o := off % 4;
      ReadPiece(file, c, off, n) == Ok(if n <= -4 || o + n >= 0 then [] else c.fillData[o..4 + o + n])
  {
    match c
    case Raw(_, _, _, input) =>
      if input + off <= |file| {
        assert file[input + off..|file|] == file[input + off..];
      } else {
        assert Clip(file, input + off, |file|) == [];
      }
    case DontCare(_, _, _) =>
    case Fill(_, _, _, data) =>
      var all := Repeat(data, n / 4 + 2);
      if n < -4 {
        assert all == [];
      } else {
        assert all == data;
      }
  }

  /** The image ends with its last chunk. */
  lemma ImageSize(file: bytes, bs: nat, cs: seq<Chunk>)
    requires Table(file, bs, cs)
    ensures |Expand(file, bs, cs)| == if cs == [] then 0 else cs[|cs| - 1].outputOffset + cs[|cs| - 1].outputSize
  {
  }

  /** A whole file: the header, the counts, the chunks, and nothing else. */
  lemma SparseFileIs(file: bytes, bs: nat, cs: seq<Chunk>)
    ensures SparseFile(file, bs, cs) <==>
      && |file| >= 28 && file[..12] == [0x3a, 0xff, 0x26, 0xed, 1, 0, 0, 0, 28, 0, 12, 0] && U32(file, 12) == bs && bs > 0
      && BlockBytes(U32(file, 16), bs) == (if cs == [] then 0 else cs[|cs| - 1].outputOffset + cs[|cs| - 1].outputSize)
      && U32(file, 20) == |cs|
      && (forall i :: 0 <= i < |cs| ==> InRow(cs, i) && ChunkIs(file, bs, cs[i]))
      && |file| == if cs == [] then 28 else cs[|cs| - 1].chunkOffset + Taken(cs[|cs| - 1])
  {
    hide U32, BlockBytes, HeaderFor, Table, ChunkIs, InRow;
    HeaderIs(file, bs);
    TableIs(file, bs, cs);
  }

  // ---------------------------------------------------------------- reading

  /** One round of the reader: the four kinds of chunk by their bytes, each with the size it must have. */
  lemma RoundIs(file: bytes, bs: nat, at: nat, out: nat)
    ensures ReadChunk(file, bs, at, out).Ok? <==>
      && at + 12 <= |file| && file[at + 1] == 0xca
      && match file[at]
         case 0xc1 => U32(file, at + 8) == 12 + BlockBytes(U32(file, at + 4), bs)
         case 0xc2 => U32(file, at + 8) == 16
         case 0xc3 => U32(file, at + 8) == 12
         case 0xc4 => U32(file, at + 8) == 16
         case _ => false
    ensures ReadChunk(file, bs, at, out).Ok? ==>
      var s, size := ReadChunk(file, bs, at, out).value, BlockBytes(U32(file, at + 4), bs);
      && s.blocks == U32(file, at + 4)
      && s.next == at + 12 + (if file[at] == 0xc1 then size else if file[at] == 0xc3 then 0 else Min(4, |file| - at - 12))
      && s.kept == if file[at] == 0xc1 then [Raw(at, out, size, at + 12)]
                   else if file[at] == 0xc2 then [Fill(at, out, size, file[at + 12..Min(at + 16, |file|)])]
                   else if file[at] == 0xc3 then [DontCare(at, out, size)] else []
    ensures ReadChunk(file, bs, at, out).Err? ==>
      ReadChunk(file, bs, at, out).error == if at + 12 > |file| then StructError else ValueError
  {
    hide U32, BlockBytes;
    if at + 12 <= |file| {
      TypeIs(file, at);
    }
  }

  /** The reader as a whole: too short, flat, or the chunks that the header announces and nothing behind them. */
  lemma ParseIs(file: bytes)
    ensures |file| < 28 ==> Parse(file) == Err(StructError)
    ensures |file| >= 28 && file[..4] != [0x3a, 0xff, 0x26, 0xed] ==> Parse(file) == Ok(FlatView)
    ensures |file| >= 28 && file[..4] == [0x3a, 0xff, 0x26, 0xed] && file[4..12] != [1, 0, 0, 0, 28, 0, 12, 0] ==>
      Parse(file) == Err(ValueError)
    ensures |file| >= 28 && file[..4] == [0x3a, 0xff, 0x26, 0xed] && file[4..12] == [1, 0, 0, 0, 28, 0, 12, 0] ==>
      var bs, blocks, n := U32(file, 12), U32(file, 16), U32(file, 20);
      var s := Scan(file, bs, n, 28, 0, 0);
      Parse(file) ==
        if s.Err? then Err(s.error) else if s.value.blocks != blocks || s.value.end < |file| then Err(ValueError)
        else Ok(SparseView(bs, blocks, n, s.value.chunks, BlockBytes(blocks, bs), s.value.end))
  {
    hide U32, BlockBytes, Scan;
    if |file| >= 28 {
      MagicIs(file);
      FieldIs(file, 4, 1);
      FieldIs(file, 6, 0);
      FieldIs(file, 8, 28);
      FieldIs(file, 10, 12);
      var front, h := file[..4], file[4..12];
      assert front[0] == file[0] && front[1] == file[1] && front[2] == file[2] && front[3] == file[3];
      assert h[0] == file[4] && h[1] == file[5] && h[2] == file[6] && h[3] == file[7];
      assert h[4] == file[8] && h[5] == file[9] && h[6] == file[10] && h[7] == file[11];
    }
  }

  /** A small file with blocks of four bytes: a RAW chunk, a FILL chunk of two blocks and a DONT_CARE chunk. */
  const HEAD: bytes := [0x3a, 0xff, 0x26, 0xed, 1, 0, 0, 0, 28, 0, 12, 0, 4, 0, 0, 0, 4, 0, 0, 0, 3, 0, 0, 0, 0, 0, 0, 0]
  const FIRST: bytes := [0xc1, 0xca, 0, 0, 1, 0, 0, 0, 16, 0, 0, 0, 11, 12, 13, 14]
  const SECOND: bytes := [0xc2, 0xca, 0, 0, 2, 0, 0, 0, 16, 0, 0, 0, 21, 22, 23, 24]
  const THIRD: bytes := [0xc3, 0xca, 0, 0, 1, 0, 0, 0, 12, 0, 0, 0]

  function Sample(): (s: bytes)
    ensures |s| == 72 && s[..28] == HEAD && s[28..44] == FIRST && s[44..60] == SECOND && s[60..72] == THIRD
  {
    HEAD + FIRST + SECOND + THIRD
  }

  lemma SliceAt(s: bytes, lo: nat, piece: bytes, k: nat)
    requires lo + |piece| <= |s| && s[lo..lo + |piece|] == piece && k < |piece|
    ensures s[lo + k] == piece[k]
  {
    assert s[lo..lo + |piece|][k] == s[lo + k];
  }

  lemma FieldOfSlice(s: bytes, lo: nat, piece: bytes, k: nat)
    requires lo + |piece| <= |s| && s[lo..lo + |piece|] == piece && k + 4 <= |piece|
    ensures U32(s, lo + k) == U32(piece, k)
  {
    SliceAt(s, lo, piece, k);
    SliceAt(s, lo, piece, k + 1);
    SliceAt(s, lo, piece, k + 2);
    SliceAt(s, lo, piece, k + 3);
  }

  /** It is read as these chunks, with these bytes as its image. */
  lemma SampleParses() returns (cs: seq<Chunk>)
    ensures cs == [Raw(28, 0, 4, 40), Fill(44, 4, 8, [21, 22, 23, 24]), DontCare(60, 12, 4)]
    ensures Parse(Sample()) == Ok(SparseView(4, 4, 3, cs, 16, 72))
    ensures Table(Sample(), 4, cs)
    ensures Expand(Sample(), 4, cs) == [11, 12, 13, 14, 21, 22, 23, 24, 21, 22, 23, 24, 0, 0, 0, 0]
  {
    hide Parse, SparseFile, Table, Expand, Sample, ChunkIs, InRow, U32;
    cs := [Raw(28, 0, 4, 40), Fill(44, 4, 8, [21, 22, 23, 24]), DontCare(60, 12, 4)];
    var s := Sample();
    SampleHead();
    SampleChunks(cs);
    SparseFileIs(s, 4, cs);
    ParseFindsTable(s, 4, cs);
    TableIs(s, 4, cs);
    SampleImage(cs, Expand(s, 4, cs));
  }

  lemma SampleImage(cs: seq<Chunk>, image: bytes)
    requires cs == [Raw(28, 0, 4, 40), Fill(44, 4, 8, [21, 22, 23, 24]), DontCare(60, 12, 4)]
    requires Table(Sample(), 4, cs) && image == Expand(Sample(), 4, cs)
    ensures image == [11, 12, 13, 14, 21, 22, 23, 24, 21, 22, 23, 24, 0, 0, 0, 0]
  {
    hide Table, Expand, Sample;
    ImageSize(Sample(), 4, cs);
    SampleByte(cs, image, 0);
    SampleByte(cs, image, 1);
    SampleByte(cs, image, 2);
    SampleByte(cs, image, 3);
  }

  /** The `k`-th byte of each of the four blocks. */
  lemma SampleByte(cs: seq<Chunk>, image: bytes, k: nat)
    requires cs == [Raw(28, 0, 4, 40), Fill(44, 4, 8, [21, 22, 23, 24]), DontCare(60, 12, 4)] && k < 4
    requires Table(Sample(), 4, cs) && image == Expand(Sample(), 4, cs) && |image| == 16
    ensures image[k] == FIRST[12 + k]
    ensures image[4 + k] == SECOND[12 + k]
    ensures image[8 + k] == SECOND[12 + k]
    ensures image[12 + k] == 0
  {
    hide Table, Expand, Sample;
    ImageByte(Sample(), 4, cs, 0, k);
    ImageByte(Sample(), 4, cs, 1, k);
    ImageByte(Sample(), 4, cs, 1, 4 + k);
    ImageByte(Sample(), 4, cs, 2, k);
    SliceAt(Sample(), 28, FIRST, 12 + k);
    SliceAt(Sample(), 44, SECOND, 12 + k);
  }

  lemma SampleHead()
    ensures Sample()[..12] == [0x3a, 0xff, 0x26, 0xed, 1, 0, 0, 0, 28, 0, 12, 0]
    ensures U32(Sample(), 12) == U32(Sample(), 16) == 4 && U32(Sample(), 20) == 3
  {
    hide Sample;
    var s := Sample();
    assert s[..12] == HEAD[..12] == [0x3a, 0xff, 0x26, 0xed, 1, 0, 0, 0, 28, 0, 12, 0];
    FieldOfSlice(s, 0, HEAD, 12);
    FieldOfSlice(s, 0, HEAD, 16);
    FieldOfSlice(s, 0, HEAD, 20);
  }

  lemma SampleChunks(cs: seq<Chunk>)
    requires cs == [Raw(28, 0, 4, 40), Fill(44, 4, 8, [21, 22, 23, 24]), DontCare(60, 12, 4)]
    ensures forall i :: 0 <= i < 3 ==> InRow(cs, i) && ChunkIs(Sample(), 4, cs[i])
  {
    hide Sample;
    var s := Sample();
    ChunkBytesAt(28, FIRST);
    ChunkBytesAt(44, SECOND);
    ChunkBytesAt(60, THIRD);
    assert s[56..60] == SECOND[12..] == [21, 22, 23, 24];
    assert ChunkIs(s, 4, cs[0]);
    assert ChunkIs(s, 4, cs[1]);
    assert ChunkIs(s, 4, cs[2]);
  }

  lemma ChunkBytesAt(lo: nat, piece: bytes)
    requires 12 <= |piece| && lo + |piece| <= 72 && Sample()[lo..lo + |piece|] == piece
    ensures Sample()[lo] == piece[0] && Sample()[lo + 1] == piece[1]
    ensures U32(Sample(), lo + 4) == U32(piece, 4) && U32(Sample(), lo + 8) == U32(piece, 8)
  {
    hide Sample, U32;
    SliceAt(Sample(), lo, piece, 0);
    SliceAt(Sample(), lo, piece, 1);
    FieldOfSlice(Sample(), lo, piece, 4);
    FieldOfSlice(Sample(), lo, piece, 8);
  }

  // ---------------------------------------------------------------- the plain file

  /** What each operation does to a plain file, byte by byte. */
  lemma PlainStep(f: Flat, op: Op, k: nat)
    ensures var (g, out) := FlatStep(f, op);
      match op
      case AppendRaw(data) =>
        && g.pos == 0 && out == [] && |g.contents| == |f.contents| + |data|
        && (k < |g.contents| ==> g.contents[k] == if k < |f.contents| then f.contents[k] else data[k - |f.contents|])
      case AppendFill(fill, size) =>
        && g.pos == 0 && out == []
        && (|fill| == 4 ==>
              && |g.contents| == |f.contents| + size / 4 * 4
              && (k < |g.contents| ==> g.contents[k] == if k < |f.contents| then f.contents[k] else fill[(k - |f.contents|) % 4]))
      case AppendDontCare(n) => g.pos == 0 && out == [] && IsResized(g.contents, f.contents, Max(|f.contents| + n, 0), k)
      case Truncate(n) => g.pos == 0 && out == [] && IsResized(g.contents, f.contents, n, k)
      case Seek(n) => g == Flat(f.contents, n) && out == []
      case Read(n) =>
        && g == Flat(f.contents, f.pos + |out|) && |out| == Max(Min(n, |f.contents| - f.pos), 0)
        && (k < |out| ==> out[k] == f.contents[f.pos + k])
  {
  }

  /** The first bytes of a file, with zeros behind it if it is too short. */
  predicate IsResized(r: bytes, s: bytes, n: nat, k: nat) {
    |r| == n && (k < n ==> r[k] == if k < |s| then s[k] else 0)
  }

  /** A run is its operations one after the other. */
  lemma PlainRun(f: Flat, ops: seq<Op>, op: Op)
    ensures FlatRun(f, []) == (f, [])
    ensures var (g, outs) := FlatRun(f, ops);
      var (h, out) := FlatStep(g, op);
      FlatRun(f, ops + [op]) == (h, outs + [out])
  {
    hide FlatStep;
    assert (ops + [op])[..|ops|] == ops;
  }

  /** What a handler needs for each operation to behave like that: not read-only; whole blocks, a chunk that fits its
      fields and counts that fit theirs; for a plain file, that a header's worth of bytes is left. */
  lemma AdmissibleIs(h: ImageHandler, op: Op)
    requires h.Valid()
    ensures Admissible(h, op) <==>
      match op
      case AppendRaw(data) => !h.readOnly && |data| % h.blockSize == 0 && Fitting(h, |data|, |data|)
      case AppendFill(fill, size) =>
        !h.readOnly && |fill| == 4 && size % 4 == 0 && size % h.blockSize == 0 && Fitting(h, size, 4)
      case AppendDontCare(n) => !h.readOnly && n % h.blockSize == 0 && Fitting(h, n, 0)
      case Truncate(n) =>
        && !h.readOnly
        && if !h.isSparse then n >= 28
           else
             && n % h.blockSize == 0 && (n == h.imageSize ==> h.filePos == 0)
             && (n > h.imageSize ==> Fitting(h, n - h.imageSize, 0))
      case Seek(_) => true
      case Read(n) => !h.isSparse || n == 0 || (h.chunks != [] && h.filePos <= h.imageSize)
  {
    hide Table, Expand, HeaderFor, BlockBytes;
  }

  ghost predicate Fitting(h: ImageHandler, more: int, payload: nat)
    reads h
  {
    if h.isSparse then
      && more >= 0 && h.imageSize + more < BlockBytes(0x1_0000_0000, h.blockSize) && |h.chunks| + 1 < 0x1_0000_0000
      && 12 + payload < 0x1_0000_0000
    else h.imageSize + more >= 28
  }

  // ---------------------------------------------------------------- mksparse

  /** The input is padded with zeros, to the next multiple of 4096. */
  lemma PaddedIs(raw: bytes, k: nat)
    requires k < |MkSparse.Padded(raw)|
    ensures |raw| <= |MkSparse.Padded(raw)| < |raw| + 4096 && |MkSparse.Padded(raw)| % 4096 == 0
    ensures MkSparse.Padded(raw)[k] == if k < |raw| then raw[k] else 0
  {
  }

  /** A block is left out if all of its bytes are zero. */
  lemma ZeroBlockIs(p: bytes, k: nat)
    requires 4096 * (k + 1) <= |p|
    ensures MkSparse.ZeroMap(p)[k] <==> forall i :: 4096 * k <= i < 4096 * (k + 1) ==> p[i] == 0
  {
    var block := p[k * 4096..(k + 1) * 4096];
    if MkSparse.IsZeroBlock(p, k) {
      forall i | 4096 * k <= i < 4096 * (k + 1)
        ensures p[i] == 0
      {
        assert p[i] == block[i - 4096 * k];
      }
    }
    if forall i :: 4096 * k <= i < 4096 * (k + 1) ==> p[i] == 0 {
      assert block == Zeros(4096);
    }
  }

  /** One round of `verify`: the two kinds it checks, the two it skips, and everything else. */
  lemma WalkIs(f: bytes, at: nat)
    ensures MkSparse.WalkChunk(f, at).Ok? <==>
      && at + 12 <= |f| && f[at + 1] == 0xca
      && match f[at]
         case 0xc1 => U32(f, at + 8) == 12 + U32(f, at + 4) * 4096
         case 0xc2 => true
         case 0xc3 => U32(f, at + 8) == 12
         case 0xc4 => true
         case _ => false
    ensures MkSparse.WalkChunk(f, at).Ok? ==> MkSparse.WalkChunk(f, at).value == (U32(f, at + 4), at + U32(f, at + 8))
  {
    hide U32;
    if at + 12 <= |f| {
      TypeIs(f, at);
    }
  }
}
