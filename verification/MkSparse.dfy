/** tools/mksparse.py: raw disk image to Android sparse image, and its `--verify` check. */
module MkSparse {
  import opened Bytes
  import opened Results
  import opened SparseFormat
  import opened SparseEdit
  import opened SparseImage

  const BLOCK := 4096

  /** The most blocks a RAW chunk can have: its `total_sz` field counts bytes, header included. */
  const MAX_RAW_BLOCKS := 1048575

  /** The raw image, padded with zeros to whole blocks. */
  function Padded(raw: bytes): (p: bytes)
    ensures |p| == RoundUp(|raw|, BLOCK) && p[..|raw|] == raw
  {
    raw + Zeros(RoundUp(|raw|, BLOCK) - |raw|)
  }

  predicate IsZeroBlock(p: bytes, k: nat)
    requires (k + 1) * BLOCK <= |p|
  {
    p[k * BLOCK..(k + 1) * BLOCK] == Zeros(BLOCK)
  }

  /** Which blocks are zero. */
  function ZeroMap(p: bytes): (z: seq<bool>)
    ensures |z| == |p| / BLOCK
    ensures forall k :: 0 <= k < |z| ==> z[k] == IsZeroBlock(p, k)
  {
    seq(|p| / BLOCK, k requires 0 <= k < |p| / BLOCK => IsZeroBlock(p, k))
  }

  // ---------------------------------------------------------------- runs

  /** A run of `blocks` blocks that are all zero, or all not zero. */
  datatype Run = Run(zero: bool, blocks: nat)

  /** Length of the run at the front. */
  function FirstRun(z: seq<bool>): (n: nat)
    ensures n <= |z| && (z != [] ==> n > 0)
    ensures forall k :: 0 <= k < n ==> z[k] == z[0]
    ensures n < |z| ==> z[n] != z[0]
  {
    if |z| <= 1 || z[1] != z[0] then Min(|z|, 1) else 1 + FirstRun(z[1..])
  }

  /** The maximal runs of a block map. */
  function RunsOf(z: seq<bool>): seq<Run> {
    if z == [] then [] else [Run(z[0], FirstRun(z))] + RunsOf(z[FirstRun(z)..])
  }

  function Copies(b: bool, n: nat): (s: seq<bool>)
    ensures |s| == n && forall i :: 0 <= i < n ==> s[i] == b
  {
    seq(n, _ => b)
  }

  /** The block map an encoding stands for, zero-length runs included. */
  function Labels(rs: seq<Run>): seq<bool> {
    if rs == [] then [] else Copies(rs[0].zero, rs[0].blocks) + Labels(rs[1..])
  }

  lemma LabelsCons(r: Run, rs: seq<Run>)
    ensures Labels([r] + rs) == Copies(r.zero, r.blocks) + Labels(rs)
  {
    assert ([r] + rs)[1..] == rs;
  }

  lemma RunsUnfold(z: seq<bool>) returns (n: nat)
    requires z != []
    ensures 0 < n <= |z| && RunsOf(z) == [Run(z[0], n)] + RunsOf(z[n..]) && Copies(z[0], n) == z[..n]
  {
    hide Copies;
    n := FirstRun(z);
  }

  lemma NoLabels()
    ensures Labels(RunsOf([])) == []
  {
  }

  lemma {:induction false} LabelsOfRuns(z: seq<bool>)
    ensures Labels(RunsOf(z)) == z
    decreases |z|
  {
    hide Labels, Copies, RunsOf;
    if z == [] {
      NoLabels();
    } else {
      var n := RunsUnfold(z);
      var r, rest := Run(z[0], n), RunsOf(z[n..]);
      calc {
        Labels(RunsOf(z));
      ==
        Labels([r] + rest);
      ==  { LabelsCons(r, rest); }
        z[..n] + Labels(rest);
      ==  { LabelsOfRuns(z[n..]); }
        z[..n] + z[n..];
      ==
        z;
      }
    }
  }

  /** Runs are maximal: none is empty, and neighbours differ. */
  lemma {:induction false} RunsAlternate(z: seq<bool>, i: nat)
    requires i < |RunsOf(z)|
    ensures RunsOf(z)[i].blocks > 0
    ensures i + 1 < |RunsOf(z)| ==> RunsOf(z)[i].zero != RunsOf(z)[i + 1].zero
    decreases |z|
  {
    var n := FirstRun(z);
    assert RunsOf(z)[1..] == RunsOf(z[n..]);
    if i > 0 {
      RunsAlternate(z[n..], i - 1);
    }
  }

  /** One more block at the front starts at most one new run. */
  lemma RunsCons(b: bool, z: seq<bool>)
    ensures |RunsOf([b] + z)| == if z != [] && z[0] == b then |RunsOf(z)| else 1 + |RunsOf(z)|
  {
    hide RunsOf;
    var y := [b] + z;
    assert y[1..] == z;
    var m := CountRuns(y);
    if z != [] {
      var n := CountRuns(z);
      assert z[0] == b ==> m == 1 + n && y[m..] == z[n..];
    }
  }

  lemma CountRuns(z: seq<bool>) returns (n: nat)
    requires z != []
    ensures n == FirstRun(z) && |RunsOf(z)| == 1 + |RunsOf(z[n..])|
  {
    n := FirstRun(z);
  }

  lemma {:induction false} RunsPrepend(b: bool, n: nat, z: seq<bool>)
    ensures |RunsOf(Copies(b, n) + z)| <= 1 + |RunsOf(z)|
    ensures n > 0 && z != [] && z[0] == b ==> |RunsOf(Copies(b, n) + z)| == |RunsOf(z)|
  {
    hide RunsOf, Copies;
    if n == 0 {
      assert Copies(b, n) + z == z;
    } else {
      var rest := Copies(b, n - 1) + z;
      assert n == 1 ==> rest == z;
      assert Copies(b, n) + z == [b] + rest;
      RunsCons(b, rest);
      RunsPrepend(b, n - 1, z);
    }
  }

  /** No encoding that marks exactly the zero blocks as zero has fewer runs. */
  lemma {:induction false} RunsMinimal(rs: seq<Run>)
    ensures |RunsOf(Labels(rs))| <= |rs|
  {
    if rs != [] {
      RunsMinimal(rs[1..]);
      RunsPrepend(rs[0].zero, rs[0].blocks, Labels(rs[1..]));
    }
  }

  // ---------------------------------------------------------------- conversion

  /** One buffered chunk of `convert`; DONT_CARE chunks have no payload. */
  datatype Piece = Piece(zero: bool, blocks: nat, payload: bytes)

  function RunsIn(pieces: seq<Piece>): (rs: seq<Run>)
    ensures |rs| == |pieces|
  {
    seq(|pieces|, k requires 0 <= k < |pieces| => Run(pieces[k].zero, pieces[k].blocks))
  }

  /** The bytes the pieces stand for. */
  function PieceBytes(pieces: seq<Piece>): bytes {
    if pieces == [] then []
    else
      var p := pieces[|pieces| - 1];
      PieceBytes(pieces[..|pieces| - 1]) + if p.zero then Zeros(p.blocks * BLOCK) else p.payload
  }

  /** Payloads have the size their block count says. */
  ghost predicate WellSized(pieces: seq<Piece>) {
    forall k :: 0 <= k < |pieces| ==>
      && pieces[k].blocks > 0
      && |pieces[k].payload| == if pieces[k].zero then 0 else pieces[k].blocks * BLOCK
  }

  /** All 32-bit fields fit. */
  predicate Encodable(runs: seq<Run>, total: nat) {
    total < TWO_32 && forall k :: 0 <= k < |runs| && !runs[k].zero ==> runs[k].blocks <= MAX_RAW_BLOCKS
  }

  /** The inner loops of `convert`: where the run of (non-)zero blocks from block `i` ends. */
  method RunEnd(raw: bytes, i: nat) returns (zero: bool, j: nat)
    requires |raw| % BLOCK == 0 && i < |raw| / BLOCK
    ensures i < j <= |raw| / BLOCK
    ensures forall k :: i <= k < j ==> ZeroMap(raw)[k] == zero
    ensures j < |raw| / BLOCK ==> ZeroMap(raw)[j] != zero
    ensures zero ==> raw[i * BLOCK..j * BLOCK] == Zeros((j - i) * BLOCK)
  {
    zero := IsZeroBlock(raw, i);
    j := i + 1;
    while j < |raw| / BLOCK && IsZeroBlock(raw, j) == zero
      invariant i < j <= |raw| / BLOCK
      invariant forall k :: i <= k < j ==> IsZeroBlock(raw, k) == zero
      invariant zero ==> raw[i * BLOCK..j * BLOCK] == Zeros((j - i) * BLOCK)
    {
      if zero {
        SlicesJoin(raw, i * BLOCK, j * BLOCK, (j + 1) * BLOCK);
      }
      j := j + 1;
    }
  }

  /** The scanning loop of `convert`: consecutive zero blocks become one piece, so do consecutive others. */
  method Coalesce(raw: bytes) returns (pieces: seq<Piece>)
    requires |raw| % BLOCK == 0
    ensures WellSized(pieces) && PieceBytes(pieces) == raw
    ensures RunsIn(pieces) == RunsOf(ZeroMap(raw))
  {
    hide ZeroMap, RunsOf, PieceBytes, RunsIn, IsZeroBlock, WellSized;
    ghost var z := ZeroMap(raw);
    pieces := [];
    NoPieces();
    var i := 0;
    assert z[0..] == z;
    while i < |raw| / BLOCK
      invariant 0 <= i <= |raw| / BLOCK
      invariant WellSized(pieces) && PieceBytes(pieces) == raw[..i * BLOCK]
      invariant RunsIn(pieces) + RunsOf(z[i..]) == RunsOf(z)
    {
      var zero, j := RunEnd(raw, i);
      var piece := Piece(zero, j - i, if zero then [] else raw[i * BLOCK..j * BLOCK]);
      RunFound(z, i, j);
      SlicesJoin(raw, 0, i * BLOCK, j * BLOCK);
      PiecesSnoc(pieces, piece);
      OneSized(piece);
      SizedSnoc(pieces, piece);
      ghost var later := RunsOf(z[j..]);
      assert RunsIn(pieces) + ([Run(zero, j - i)] + later) == RunsIn(pieces) + [Run(zero, j - i)] + later;
      pieces := pieces + [piece];
      i := j;
    }
    assert z[i..] == [];
    NoRuns();
  }

  lemma PiecesSnoc(pieces: seq<Piece>, p: Piece)
    ensures PieceBytes(pieces + [p]) == PieceBytes(pieces) + if p.zero then Zeros(p.blocks * BLOCK) else p.payload
    ensures RunsIn(pieces + [p]) == RunsIn(pieces) + [Run(p.zero, p.blocks)]
  {
    assert (pieces + [p])[..|pieces|] == pieces;
  }

  lemma SizedSnoc(pieces: seq<Piece>, p: Piece)
    requires WellSized(pieces) && WellSized([p])
    ensures WellSized(pieces + [p])
  {
    assert [p][0] == p;
  }

  lemma OneSized(p: Piece)
    requires p.blocks > 0 && |p.payload| == if p.zero then 0 else p.blocks * BLOCK
    ensures WellSized([p])
  {
  }

  lemma NoPieces()
    ensures PieceBytes([]) == [] && RunsIn([]) == [] && WellSized([])
  {
  }

  lemma NoRuns()
    ensures RunsOf([]) == []
  {
  }

  lemma RunFound(z: seq<bool>, i: nat, j: nat)
    requires i < j <= |z| && (forall k :: i <= k < j ==> z[k] == z[i]) && (j < |z| ==> z[j] != z[i])
    ensures RunsOf(z[i..]) == [Run(z[i], j - i)] + RunsOf(z[j..])
  {
    var y := z[i..];
    var n := FirstRun(y);
    assert n < |y| ==> y[n] == z[i + n];
    assert j < |z| ==> y[j - i] == z[j];
    assert n == j - i;
    assert y[n..] == z[j..];
  }

  /** `file_header`. */
  function FileHeader(totalBlocks: nat, totalChunks: nat): (h: bytes)
    ensures |h| == HEADER_SIZE
  {
    LE32(MAGIC) + LE16(1) + LE16(0) + LE16(HEADER_SIZE) + LE16(CHUNK_HEADER_SIZE)
      + LE32(BLOCK) + LE32(totalBlocks) + LE32(totalChunks) + LE32(0)
  }

  lemma FileHeaderFields(f: bytes, totalBlocks: nat, totalChunks: nat)
    requires totalBlocks < TWO_32 && totalChunks < TWO_32
    requires |f| >= HEADER_SIZE && f[..HEADER_SIZE] == FileHeader(totalBlocks, totalChunks)
    ensures HeaderFor(f, BLOCK) && U32(f, 16) == totalBlocks && U32(f, 20) == totalChunks && U32(f, 24) == 0
  {
    var h := FileHeader(totalBlocks, totalChunks);
    assert h[0..4] == LE32(MAGIC) && h[4..6] == LE16(1) && h[6..8] == LE16(0);
    assert h[8..10] == LE16(HEADER_SIZE) && h[10..12] == LE16(CHUNK_HEADER_SIZE);
    assert h[12..16] == LE32(BLOCK) && h[16..20] == LE32(totalBlocks) && h[20..24] == LE32(totalChunks);
    assert h[24..] == LE32(0) && h[24..28] == h[24..];
    hide LE16, LE32, FileHeader;
    U32RoundTrip(h, 0, MAGIC);
    U16RoundTrip(h, 4, 1);
    U16RoundTrip(h, 6, 0);
    U16RoundTrip(h, 8, HEADER_SIZE);
    U16RoundTrip(h, 10, CHUNK_HEADER_SIZE);
    U32RoundTrip(h, 12, BLOCK);
    U32RoundTrip(h, 16, totalBlocks);
    U32RoundTrip(h, 20, totalChunks);
    U32RoundTrip(h, 24, 0);
    HeaderFrame(h, f, BLOCK);
    assert forall k :: 0 <= k < HEADER_SIZE ==> f[k] == h[k];
  }

  /** The chunk a piece is written as, behind `at` bytes of file and `out` bytes of image. */
  function ChunkFor(p: Piece, at: nat, out: nat): Chunk {
    if p.zero then DontCare(at, out, p.blocks * BLOCK)
    else Raw(at, out, p.blocks * BLOCK, at + CHUNK_HEADER_SIZE)
  }

  /** Writing one piece at the end of the file adds its chunk to the table and its bytes to the image. */
  lemma PieceWritten(f: bytes, cs: seq<Chunk>, p: Piece)
    requires HeaderFor(f, BLOCK) && Table(f, BLOCK, cs) && EndOf(cs) == |f|
    requires |p.payload| == if p.zero then 0 else p.blocks * BLOCK
    requires p.blocks < TWO_32 && CHUNK_HEADER_SIZE + |p.payload| < TWO_32
    ensures var c := ChunkFor(p, |f|, SizeOf(cs));
      var g := f + ChunkHeader(TypeOf(c), p.blocks, CHUNK_HEADER_SIZE + |p.payload|) + p.payload;
      && HeaderFor(g, BLOCK) && U32(g, 16) == U32(f, 16) && U32(g, 20) == U32(f, 20) && U32(g, 24) == U32(f, 24)
      && Table(g, BLOCK, cs + [c]) && EndOf(cs + [c]) == |g|
      && Expand(g, BLOCK, cs + [c])
         == Expand(f, BLOCK, cs) + if p.zero then Zeros(p.blocks * BLOCK) else p.payload
  {
    hide Table, Expand, Describes, ChunkHeader;
    var c := ChunkFor(p, |f|, SizeOf(cs));
    var header := ChunkHeader(TypeOf(c), p.blocks, CHUNK_HEADER_SIZE + |p.payload|);
    var g := f + header + p.payload;
    HeaderFrame(f, g, BLOCK);
    TableFrame(f, g, BLOCK, cs);
    assert g[|f|..|f| + CHUNK_HEADER_SIZE] == header;
    assert g[|f| + CHUNK_HEADER_SIZE..] == p.payload;
    DescribedByHeader(g, BLOCK, c, p.blocks);
    TableSnoc(g, BLOCK, cs, c);
  }

  lemma {:induction false} PieceBounds(pieces: seq<Piece>)
    requires WellSized(pieces)
    ensures |pieces| * BLOCK <= |PieceBytes(pieces)|
    ensures forall k :: 0 <= k < |pieces| ==> pieces[k].blocks * BLOCK <= |PieceBytes(pieces)|
  {
    if pieces != [] {
      PieceBounds(pieces[..|pieces| - 1]);
    }
  }

  /** `convert`: succeeds exactly when the 32-bit fields suffice, and its output is a well-formed sparse
      file whose image is the padded input. The ghost result is its chunk table. */
  method Convert(rawIn: bytes) returns (r: Result<bytes>, ghost table: seq<Chunk>)
    ensures r.Ok? <==> Encodable(RunsOf(ZeroMap(Padded(rawIn))), |Padded(rawIn)| / BLOCK)
    ensures r.Ok? ==>
      && SparseFile(r.value, BLOCK, table)
      && Expand(r.value, BLOCK, table) == Padded(rawIn)
      && |table| == |RunsOf(ZeroMap(Padded(rawIn)))|
      && U32(r.value, 24) == 0
    ensures r.Ok? ==> forall c :: c in table ==> !c.Fill?
    ensures r.Ok? ==> Follow(table, RunsOf(ZeroMap(Padded(rawIn)))) && ReservedClear(r.value, table)
  {
    hide Follow, ReservedClear, RunsIn, Encodable;
    hide Table, Expand, ZeroMap, RunsOf, FileHeader, ChunkHeader, PieceBytes, HeaderFor, Describes, U32, SizeOf,
      EndOf;
    var raw, rawLen := rawIn, |rawIn|;
    if rawLen % BLOCK != 0 {
      raw := raw + Zeros(BLOCK - rawLen % BLOCK);
    }
    assert raw == Padded(rawIn);
    table := [];
    var pieces := Coalesce(raw);
    PieceBounds(pieces);
    if |raw| / BLOCK >= TWO_32 {
      TooManyBlocks(pieces, |raw| / BLOCK);
      return Err(StructError), table;
    }
    var out := FileHeader(|raw| / BLOCK, |pieces|);
    StartTable(out, |raw| / BLOCK, |pieces|);
    NothingFollows(out);
    for k := 0 to |pieces|
      invariant HeaderFor(out, BLOCK) && |out| >= HEADER_SIZE
      invariant U32(out, 16) == |raw| / BLOCK && U32(out, 20) == |pieces| && U32(out, 24) == 0
      invariant Table(out, BLOCK, table) && EndOf(table) == |out| && |table| == k
      invariant Expand(out, BLOCK, table) == PieceBytes(pieces[..k])
      invariant forall i :: 0 <= i < k && !pieces[i].zero ==> pieces[i].blocks <= MAX_RAW_BLOCKS
      invariant forall c :: c in table ==> !c.Fill?
      invariant Follow(table, RunsIn(pieces[..k])) && ReservedClear(out, table)
    {
      var p := pieces[k];
      if p.blocks >= TWO_32 || CHUNK_HEADER_SIZE + |p.payload| >= TWO_32 {
        TooLongRun(pieces, k, |raw| / BLOCK);
        return Err(StructError), table;
      }
      ghost var c := ChunkFor(p, |out|, SizeOf(table));
      PieceWritten(out, table, p);
      FollowSnoc(out, table, p, RunsIn(pieces[..k]));
      PiecesSnoc(pieces[..k], p);
      assert pieces[..k] + [p] == pieces[..k + 1];
      out := out + ChunkHeader(if p.zero then TYPE_DONT_CARE else TYPE_RAW, p.blocks, CHUNK_HEADER_SIZE + |p.payload|);
      out := out + p.payload;
      table := table + [c];
    }
    assert pieces[..|pieces|] == pieces;
    AllRunsFit(pieces, |raw| / BLOCK);
    r := Ok(out);
  }

  lemma TooManyBlocks(pieces: seq<Piece>, total: nat)
    requires total >= TWO_32
    ensures !Encodable(RunsIn(pieces), total)
  {
  }

  lemma TooLongRun(pieces: seq<Piece>, k: nat, total: nat)
    requires k < |pieces| && !pieces[k].zero && pieces[k].blocks > MAX_RAW_BLOCKS
    ensures !Encodable(RunsIn(pieces), total)
  {
    assert !RunsIn(pieces)[k].zero && RunsIn(pieces)[k].blocks > MAX_RAW_BLOCKS;
  }

  lemma AllRunsFit(pieces: seq<Piece>, total: nat)
    requires total < TWO_32 && forall i :: 0 <= i < |pieces| && !pieces[i].zero ==> pieces[i].blocks <= MAX_RAW_BLOCKS
    ensures Encodable(RunsIn(pieces), total)
  {
  }

  lemma NothingFollows(f: bytes)
    ensures Follow([], RunsIn([])) && ReservedClear(f, [])
  {
  }

  /** Zero runs become DONT_CARE chunks, the others RAW chunks, of the same length. */
  ghost predicate Follow(cs: seq<Chunk>, rs: seq<Run>) {
    && |cs| == |rs|
    && forall i :: 0 <= i < |cs| ==> (cs[i].DontCare? <==> rs[i].zero) && cs[i].outputSize == rs[i].blocks * 4096
  }

  /** The two bytes behind the type of each chunk are zero. */
  ghost predicate ReservedClear(f: bytes, cs: seq<Chunk>) {
    forall c :: c in cs ==> c.chunkOffset + 4 <= |f| && f[c.chunkOffset + 2] == f[c.chunkOffset + 3] == 0
  }

  lemma FollowSnoc(f: bytes, cs: seq<Chunk>, p: Piece, rs: seq<Run>)
    requires Follow(cs, rs) && ReservedClear(f, cs)
    ensures var c := ChunkFor(p, |f|, SizeOf(cs));
      && Follow(cs + [c], rs + [Run(p.zero, p.blocks)])
      && ReservedClear(f + ChunkHeader(TypeOf(c), p.blocks, CHUNK_HEADER_SIZE + |p.payload|) + p.payload, cs + [c])
  {
    var c := ChunkFor(p, |f|, SizeOf(cs));
    var header := ChunkHeader(TypeOf(c), p.blocks, CHUNK_HEADER_SIZE + |p.payload|);
    assert header[2] == header[3] == 0;
    hide ChunkHeader;
    var g := f + header + p.payload;
    assert g[|f| + 2] == header[2] && g[|f| + 3] == header[3];
    assert forall k :: 0 <= k < |f| ==> g[k] == f[k];
  }

  lemma StartTable(f: bytes, totalBlocks: nat, totalChunks: nat)
    requires totalBlocks < TWO_32 && totalChunks < TWO_32 && f == FileHeader(totalBlocks, totalChunks)
    ensures HeaderFor(f, BLOCK) && U32(f, 16) == totalBlocks && U32(f, 20) == totalChunks && U32(f, 24) == 0
    ensures Table(f, BLOCK, []) && EndOf([]) == |f|
    ensures Expand(f, BLOCK, []) == PieceBytes([])
  {
    assert f[..HEADER_SIZE] == f;
    FileHeaderFields(f, totalBlocks, totalChunks);
  }

  /** End to end: what `convert` wrote, read back as a whole through an ImageHandler, is the padded input. */
  method ConvertAndRead(rawIn: bytes) returns (r: Result<bytes>)
    requires rawIn != []
    ensures r.Ok? <==> Encodable(RunsOf(ZeroMap(Padded(rawIn))), |Padded(rawIn)| / BLOCK)
    ensures r.Ok? ==> r.value == Padded(rawIn)
  {
    hide Parse, Table, Expand, ZeroMap, RunsOf, HeaderFor;
    ghost var table: seq<Chunk>;
    var converted;
    converted, table := Convert(rawIn);
    if converted.Err? {
      return converted;
    }
    ParseFindsTable(converted.value, BLOCK, table);
    SparseFileIsComplete(converted.value, BLOCK, table);
    var o := ImageHandler.Open(converted.value, true);
    var h := o.value;
    r := h.Read(h.imageSize);
  }

  // ---------------------------------------------------------------- verify

  /** One round of the chunk loop of `verify`: the chunk's block count and the next file position. */
  function WalkChunk(f: bytes, at: nat): Result<(nat, nat)> {
    if at + CHUNK_HEADER_SIZE > |f| then Err(AssertionError)
    else
      var chunkType, blocks, dataLen := U16(f, at), U32(f, at + 4), U32(f, at + 8) - CHUNK_HEADER_SIZE;
      if chunkType == TYPE_RAW && dataLen != blocks * BLOCK then Err(AssertionError)
      else if chunkType == TYPE_DONT_CARE && dataLen != 0 then Err(AssertionError)
      else if chunkType !in {TYPE_RAW, TYPE_DONT_CARE, TYPE_FILL, TYPE_CRC32} then Err(ValueError)
      else Ok((blocks, at + CHUNK_HEADER_SIZE + dataLen))
  }

  /** Number of blocks `n` chunks from file position `at` cover, if `verify` has no objection to them. */
  function Coverage(f: bytes, n: nat, at: nat): Result<nat> {
    if n == 0 then Ok(0)
    else
      var (blocks, next) :- WalkChunk(f, at);
      var rest :- Coverage(f, n - 1, next);
      Ok(blocks + rest)
  }

  /** `verify` of sparse file `simg` against a raw file of `rawSize` bytes. */
  method Verify(simg: bytes, rawSize: nat) returns (r: Result<()>)
    ensures r.Ok? <==>
      && HeaderFor(simg, BLOCK) && U32(simg, 24) == 0
      && Coverage(simg, U32(simg, 20), HEADER_SIZE) == Ok(U32(simg, 16))
      && U32(simg, 16) * BLOCK == RoundUp(rawSize, BLOCK)
  {
    if |simg| < HEADER_SIZE {
      return Err(ValueError);
    }
    if U32(simg, 0) != MAGIC || U16(simg, 4) != 1 || U16(simg, 6) != 0 || U16(simg, 8) != HEADER_SIZE
      || U16(simg, 10) != CHUNK_HEADER_SIZE || U32(simg, 12) != BLOCK || U32(simg, 24) != 0
    {
      return Err(AssertionError);
    }
    var totalBlocks, totalChunks := U32(simg, 16), U32(simg, 20);
    var covered, at: nat := 0, HEADER_SIZE;
    for seen := 0 to totalChunks
      invariant Coverage(simg, totalChunks, HEADER_SIZE) == Ahead(covered, Coverage(simg, totalChunks - seen, at))
    {
      hide WalkChunk;
      CoverageRound(simg, totalChunks - seen, at);
      var step := WalkChunk(simg, at);
      if step.Err? {
        return Err(step.error);
      }
      covered, at := covered + step.value.0, step.value.1;
    }
    if covered != totalBlocks {
      return Err(AssertionError);
    }
    RoundedUp(rawSize);
    if totalBlocks * BLOCK != (rawSize + BLOCK - 1) / BLOCK * BLOCK {
      return Err(AssertionError);
    }
    return Ok(());
  }

  ghost function Ahead(covered: nat, r: Result<nat>): Result<nat> {
    match r
    case Err(e) => Err(e)
    case Ok(n) => Ok(covered + n)
  }

  lemma CoverageRound(f: bytes, n: nat, at: nat)
    requires n > 0
    ensures WalkChunk(f, at).Err? ==> Coverage(f, n, at) == Err(WalkChunk(f, at).error)
    ensures WalkChunk(f, at).Ok? ==>
      Coverage(f, n, at) == Ahead(WalkChunk(f, at).value.0, Coverage(f, n - 1, WalkChunk(f, at).value.1))
  {
    hide WalkChunk;
  }

  lemma RoundedUp(n: nat)
    ensures (n + BLOCK - 1) / BLOCK * BLOCK == RoundUp(n, BLOCK)
  {
  }

  /** Walking the chunks of a table from chunk `k` on covers the rest of the image. */
  lemma {:induction false} TableCoverage(f: bytes, cs: seq<Chunk>, k: nat)
    requires Table(f, BLOCK, cs) && k <= |cs|
    ensures SizeOf(cs[..k]) <= SizeOf(cs)
    ensures var r := Coverage(f, |cs| - k, EndOf(cs[..k]));
      r.Ok? && r.value * BLOCK == SizeOf(cs) - SizeOf(cs[..k])
    decreases |cs| - k
  {
    hide Table, WalkChunk;
    TablePrefix(f, BLOCK, cs, k);
    if k == |cs| {
      assert cs[..k] == cs;
    } else {
      TableAt(f, BLOCK, cs, k);
      assert cs[..k + 1][k] == cs[k];
      CoverageRound(f, |cs| - k, EndOf(cs[..k]));
      WalkDescribed(f, cs[k]);
      hide Describes;
      TableCoverage(f, cs, k + 1);
    }
  }

  lemma WalkDescribed(f: bytes, c: Chunk)
    requires Describes(f, BLOCK, c)
    ensures WalkChunk(f, c.chunkOffset) == Ok((U32(f, c.chunkOffset + 4), FileEnd(c)))
    ensures c.outputSize == U32(f, c.chunkOffset + 4) * BLOCK
  {
  }

  /** On every well-formed sparse file, `verify` accepts exactly when block size, checksum and image size are right. */
  method VerifyWellFormed(simg: bytes, ghost bs: nat, ghost table: seq<Chunk>, rawSize: nat) returns (r: Result<()>)
    requires SparseFile(simg, bs, table)
    ensures r.Ok? <==> bs == BLOCK && U32(simg, 24) == 0 && SizeOf(table) == RoundUp(rawSize, BLOCK)
  {
    hide Table, Coverage;
    if bs == BLOCK {
      assert table[..0] == [];
      TableCoverage(simg, table, 0);
    }
    r := Verify(simg, rawSize);
  }

  /** `verify` accepts what `convert` wrote. */
  method ConvertAndVerify(rawIn: bytes) returns (r: Result<()>)
    ensures r.Ok? <==> Encodable(RunsOf(ZeroMap(Padded(rawIn))), |Padded(rawIn)| / BLOCK)
  {
    hide Table, ZeroMap, RunsOf;
    ghost var table: seq<Chunk>;
    var converted;
    converted, table := Convert(rawIn);
    if converted.Err? {
      return Err(converted.error);
    }
    r := VerifyWellFormed(converted.value, BLOCK, table, |rawIn|);
  }
}
