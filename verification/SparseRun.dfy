/** Whole runs of ImageHandler operations, compared with the same runs on a flat byte array. */
module SparseRun {
  import opened Bytes
  import opened Results
  import opened SparseFormat
  import opened SparseEdit
  import opened SparseImage
  import MkSparse

  datatype Op =
    | AppendRaw(data: bytes)
    | AppendFill(fillData: bytes, size: nat)
    | AppendDontCare(numBytes: int)
    | Truncate(newSize: nat)
    | Seek(offset: nat)
    | Read(count: nat)

  /** A plain file: its bytes and the read cursor. Every change of the contents resets the cursor. */
  datatype Flat = Flat(contents: bytes, pos: nat)

  function FlatStep(f: Flat, op: Op): (Flat, bytes) {
    match op
    case AppendRaw(data) => (Flat(f.contents + data, 0), [])
    case AppendFill(fill, size) =>
      (Flat(if |fill| == 4 then f.contents + Repeat(fill, size / 4) else f.contents, 0), [])
    case AppendDontCare(n) => (Flat(Resize(f.contents, Max(|f.contents| + n, 0)), 0), [])
    case Truncate(n) => (Flat(Resize(f.contents, n), 0), [])
    case Seek(n) => (f.(pos := n), [])
    case Read(n) => var data := Clip(f.contents, f.pos, f.pos + n); (f.(pos := f.pos + |data|), data)
  }

  function FlatRun(f: Flat, ops: seq<Op>): (Flat, seq<bytes>) {
    if ops == [] then (f, [])
    else
      var (g, outs) := FlatRun(f, ops[..|ops| - 1]);
      var (h, out) := FlatStep(g, ops[|ops| - 1]);
      (h, outs + [out])
  }

  /** What an operation must satisfy to behave as on a flat file; all of it can be checked before the call. */
  ghost predicate Admissible(h: ImageHandler, op: Op)
    requires h.Valid()
    reads h
  {
    match op
    case AppendRaw(data) => h.Accepts(|data| % h.blockSize == 0, |data|, |data|)
    case AppendFill(fill, size) => h.Accepts(|fill| == 4 && size % 4 == 0 && size % h.blockSize == 0, size, 4)
    case AppendDontCare(n) => h.Accepts(n % h.blockSize == 0, n, 0)
    case Truncate(n) =>
      && !h.readOnly
      && if !h.isSparse then n >= HEADER_SIZE else
         && n % h.blockSize == 0
         && (n > h.imageSize ==> h.Room(n - h.imageSize, 0))
         && (n == h.imageSize ==> h.filePos == 0)
    case Seek(_) => true
    case Read(n) => !h.isSparse || n == 0 || (|h.chunks| > 0 && h.filePos <= h.imageSize)
  }

  /** Appending to a flat file must not turn it into something that starts like a sparse file. */
  ghost predicate StaysFlat(h: ImageHandler, op: Op)
    requires h.Valid()
    reads h
  {
    !h.isSparse ==>
      match op
      case AppendRaw(data) => !MagicPrefix(h.file + data)
      case AppendFill(fill, size) => |fill| == 4 ==> !MagicPrefix(h.file + Repeat(fill, size / 4))
      case _ => true
  }

  /** The operations that add to the image. */
  method StepAppend(h: ImageHandler, op: Op) returns (r: Result<bytes>)
    requires h.Valid() && StaysFlat(h, op) && (op.AppendRaw? || op.AppendFill? || op.AppendDontCare?)
    modifies h
    ensures h.Sound() && h.isSparse == old(h.isSparse) && h.blockSize == old(h.blockSize)
    ensures var (f, out) := FlatStep(old(Flat(h.Contents(), h.filePos)), op);
      r == Ok(out) && Flat(h.Contents(), h.filePos) == f <==> old(Admissible(h, op))
    ensures old(Admissible(h, op)) ==> h.Valid() && (h.isSparse ==> |h.chunks| <= old(|h.chunks|) + 1)
  {
    hide BlockBytes, Table, Expand, HeaderFor, Repeat, MagicPrefix;
    var o;
    if op.AppendRaw? {
      o := h.AppendRaw(op.data);
    } else if op.AppendFill? {
      o := h.AppendFill(op.fillData, op.size);
    } else {
      o := h.AppendDontCare(op.numBytes);
    }
    r := if o.Err? then Err(o.error) else Ok([]);
  }

  /** The other ones. */
  method StepOther(h: ImageHandler, op: Op) returns (r: Result<bytes>)
    requires h.Valid() && StaysFlat(h, op) && (op.Truncate? || op.Seek? || op.Read?)
    modifies h
    ensures h.Sound() && h.isSparse == old(h.isSparse) && h.blockSize == old(h.blockSize)
    ensures var (f, out) := FlatStep(old(Flat(h.Contents(), h.filePos)), op);
      r == Ok(out) && Flat(h.Contents(), h.filePos) == f <==> old(Admissible(h, op))
    ensures old(Admissible(h, op)) ==> h.Valid() && (h.isSparse ==> |h.chunks| <= old(|h.chunks|) + 1)
  {
    hide BlockBytes, Table, Expand, HeaderFor;
    r := Ok([]);
    match op
    case Truncate(n) =>
      var o := h.Truncate(n);
      if o.Err? { r := Err(o.error); }
    case Seek(n) =>
      var o := h.Seek(n);
    case Read(n) =>
      r := h.Read(n);
  }

  /** One operation behaves as on the flat image exactly when it is admissible. */
  method Step(h: ImageHandler, op: Op) returns (r: Result<bytes>)
    requires h.Valid() && StaysFlat(h, op)
    modifies h
    ensures h.Sound() && h.isSparse == old(h.isSparse) && h.blockSize == old(h.blockSize)
    ensures var (f, out) := FlatStep(old(Flat(h.Contents(), h.filePos)), op);
      r == Ok(out) && Flat(h.Contents(), h.filePos) == f <==> old(Admissible(h, op))
    ensures old(Admissible(h, op)) ==> h.Valid() && (h.isSparse ==> |h.chunks| <= old(|h.chunks|) + 1)
  {
    hide FlatStep, Admissible, StaysFlat, ImageHandler.Sound, ImageHandler.Contents;
    r := Ok([]);
    if op.Truncate? || op.Seek? || op.Read? {
      r := StepOther(h, op);
    } else {
      r := StepAppend(h, op);
    }
  }

  /** Admissibility in terms of the flat file alone, given that the chunk count stays within its field. */
  ghost predicate Allowed(sparse: bool, bs: nat, f: Flat, op: Op)
    requires bs > 0
  {
    match op
    case AppendRaw(data) => |data| % bs == 0 && Fits(sparse, bs, f, |data|, |data|)
      && (!sparse ==> !MagicPrefix(f.contents + data))
    case AppendFill(fill, size) => |fill| == 4 && size % 4 == 0 && size % bs == 0 && Fits(sparse, bs, f, size, 4)
      && (!sparse ==> !MagicPrefix(f.contents + Repeat(fill, size / 4)))
    case AppendDontCare(n) => n % bs == 0 && Fits(sparse, bs, f, n, 0)
    case Truncate(n) =>
      if !sparse then n >= HEADER_SIZE else
      n % bs == 0 && n < BlockBytes(TWO_32, bs) && (n == |f.contents| ==> f.pos == 0)
    case Seek(_) => true
    case Read(n) => !sparse || n == 0 || (f.contents != [] && f.pos <= |f.contents|)
  }

  ghost predicate Fits(sparse: bool, bs: nat, f: Flat, extra: int, payload: nat) {
    if sparse then 0 <= extra && |f.contents| + extra < BlockBytes(TWO_32, bs) && CHUNK_HEADER_SIZE + payload < TWO_32
    else |f.contents| + extra >= HEADER_SIZE
  }

  /** Every operation of the run is allowed in the state the flat file has reached. */
  ghost predicate AllowedRun(sparse: bool, bs: nat, f: Flat, ops: seq<Op>)
    requires bs > 0
  {
    forall i :: 0 <= i < |ops| ==> Allowed(sparse, bs, FlatRun(f, ops[..i]).0, ops[i])
  }

  /** Allowed operations are admissible as long as there is room for another chunk. */
  lemma AllowedIsAdmissible(h: ImageHandler, op: Op)
    requires h.Valid() && !h.readOnly && (h.isSparse ==> |h.chunks| + 1 < TWO_32)
    requires Allowed(h.isSparse, h.blockSize, Flat(h.Contents(), h.filePos), op)
    ensures Admissible(h, op) && StaysFlat(h, op)
  {
    hide BlockBytes, Table, Expand, HeaderFor;
  }

  /** For every run of operations: the handler returns what the flat file returns and ends as the flat file ends. */
  method Run(h: ImageHandler, ops: seq<Op>) returns (outs: seq<bytes>)
    requires h.Valid() && !h.readOnly && (h.isSparse ==> |h.chunks| + |ops| < TWO_32)
    requires AllowedRun(h.isSparse, h.blockSize, Flat(h.Contents(), h.filePos), ops)
    modifies h
    ensures h.Valid()
    ensures (Flat(h.Contents(), h.filePos), outs) == FlatRun(old(Flat(h.Contents(), h.filePos)), ops)
  {
    hide BlockBytes, Table, Expand, HeaderFor, Allowed, Admissible, StaysFlat, FlatStep;
    ghost var start, sparse, bs := Flat(h.Contents(), h.filePos), h.isSparse, h.blockSize;
    ghost var count := |h.chunks|;
    outs := [];
    for i := 0 to |ops|
      invariant h.Valid() && h.isSparse == sparse && h.blockSize == bs
      invariant sparse ==> |h.chunks| <= count + i
      invariant (Flat(h.Contents(), h.filePos), outs) == FlatRun(start, ops[..i])
    {
      AllowedIsAdmissible(h, ops[i]);
      var r := Step(h, ops[i]);
      assert ops[..i + 1][..i] == ops[..i] && ops[..i + 1][i] == ops[i];
      outs := outs + [r.value];
    }
    assert ops[..|ops|] == ops;
  }

  /** A sparse file and its expansion cannot be told apart by a run that is allowed on both. */
  method RunBoth(sparse: ImageHandler, flat: ImageHandler, ops: seq<Op>) returns (a: seq<bytes>, b: seq<bytes>)
    requires sparse != flat && sparse.Valid() && flat.Valid() && sparse.isSparse && !flat.isSparse
    requires !sparse.readOnly && !flat.readOnly && |sparse.chunks| + |ops| < TWO_32
    requires flat.Contents() == sparse.Contents() && flat.filePos == sparse.filePos
    requires AllowedRun(true, sparse.blockSize, Flat(sparse.Contents(), sparse.filePos), ops)
    requires AllowedRun(false, DEFAULT_BLOCK_SIZE, Flat(flat.Contents(), flat.filePos), ops)
    modifies sparse, flat
    ensures a == b && sparse.Valid() && flat.Valid()
    ensures flat.Contents() == sparse.Contents() && flat.filePos == sparse.filePos
  {
    hide BlockBytes, Table, Expand, HeaderFor, AllowedRun, FlatRun;
    a := Run(sparse, ops);
    b := Run(flat, ops);
  }

  // ---------------------------------------------------------------- where sparse and flat files differ

  /** A sparse file of one DONT_CARE block of 4096 bytes. */
  function OneBlock(): (f: bytes)
    ensures |f| == HEADER_SIZE + CHUNK_HEADER_SIZE
  {
    MkSparse.FileHeader(1, 1) + ChunkHeader(TYPE_DONT_CARE, 1, CHUNK_HEADER_SIZE)
  }

  lemma OneBlockIsSparse()
    ensures SparseFile(OneBlock(), 4096, [DontCare(HEADER_SIZE, 0, 4096)])
    ensures Parse(OneBlock()).Ok? && Complete(OneBlock(), Parse(OneBlock()).value) && MagicPrefix(OneBlock())
    ensures Parse(OneBlock()).value.chunks == [DontCare(HEADER_SIZE, 0, 4096)] && Parse(OneBlock()).value.blockSize == 4096
  {
    hide Parse, MkSparse.FileHeader, ChunkHeader;
    var f, c := OneBlock(), DontCare(HEADER_SIZE, 0, 4096);
    MkSparse.FileHeaderFields(f, 1, 1);
    assert f[28..40] == ChunkHeader(TYPE_DONT_CARE, 1, CHUNK_HEADER_SIZE);
    DescribedByHeader(f, 4096, c, 1);
    assert [c][..0] == [] && Table(f, 4096, []);
    SparseFileIsComplete(f, 4096, [c]);
    ParseFindsTable(f, 4096, [c]);
  }

  /** Every handler of such a file: its single chunk and its image. */
  lemma OneBlockHandled(h: ImageHandler)
    requires h.Valid() && h.isSparse && h.file == OneBlock()
    ensures h.blockSize == 4096 && h.imageSize == 4096 && h.chunks == [DontCare(HEADER_SIZE, 0, 4096)]
    ensures h.Contents() == Zeros(4096)
  {
    OneBlockIsSparse();
    SameTable(h, 4096, [DontCare(HEADER_SIZE, 0, 4096)]);
    assert h.chunks[..0] == [];
    assert Expand(h.file, 4096, []) + Zeros(4096) == Zeros(4096);
  }

  /** A handler's table is the one its file has. */
  lemma SameTable(h: ImageHandler, bs: nat, cs: seq<Chunk>)
    requires h.Valid() && h.isSparse && SparseFile(h.file, bs, cs)
    ensures h.blockSize == bs && h.chunks == cs
  {
    hide Parse, Table;
    ParseFindsTable(h.file, h.blockSize, h.chunks);
    ParseFindsTable(h.file, bs, cs);
  }

  /** The condition for behaving like a flat file fails when an image is truncated to its size with the cursor not at
      its start ... */
  lemma SameSizeNotAdmissible(h: ImageHandler)
    requires h.Valid() && h.isSparse && h.file == OneBlock() && h.filePos == 1
    ensures !Admissible(h, Truncate(4096))
    ensures FlatStep(Flat(h.Contents(), 1), Truncate(4096)).0 == Flat(Zeros(4096), 0)
  {
    hide Table, Expand, HeaderFor, OneBlock, ImageHandler.Sound, ImageHandler.Contents, BlockBytes;
    OneBlockHandled(h);
    assert Resize(Zeros(4096), 4096) == Zeros(4096);
  }

  /** ... and when it is read past its end. */
  lemma PastEndNotAdmissible(h: ImageHandler)
    requires h.Valid() && h.isSparse && h.file == OneBlock() && h.filePos == 5000
    ensures !Admissible(h, Read(1))
    ensures FlatStep(Flat(h.Contents(), 5000), Read(1)) == (Flat(Zeros(4096), 5000), [])
  {
    hide Table, Expand, HeaderFor, OneBlock, ImageHandler.Sound, ImageHandler.Contents, BlockBytes;
    OneBlockHandled(h);
  }

  /** Truncating to the current size resets the cursor of a flat file but not that of a sparse one. */
  method SameSizeTruncateDiffers() returns (sparse: ImageHandler, flat: ImageHandler)
    ensures sparse.Valid() && sparse.isSparse && sparse.file == OneBlock() && sparse.filePos == 1
    ensures flat.Valid() && !flat.isSparse && flat.file == sparse.Contents() && flat.filePos == 0
  {
    hide Parse, Table, Expand, HeaderFor;
    sparse := OpenOneBlock();
    OneBlockHandled(sparse);
    flat := new ImageHandler.Unopened(Zeros(4096), false);
    var _ := flat.ReadHeader();
    var _ := sparse.Seek(1);
    var _ := flat.Seek(1);
    SameSizeNotAdmissible(sparse);
    var _ := sparse.Truncate(4096);
    var _ := flat.Truncate(4096);
    assert Resize(Zeros(4096), 4096) == Zeros(4096);
  }

  /** A read past the end leaves the cursor of a flat file alone but moves that of a sparse one back. */
  method ReadPastEndDiffers() returns (sparse: ImageHandler, flat: ImageHandler)
    ensures sparse.Valid() && sparse.isSparse && sparse.file == OneBlock() && sparse.filePos == 4096
    ensures flat.Valid() && !flat.isSparse && flat.file == sparse.Contents() && flat.filePos == 5000
  {
    hide Parse, Table, Expand, HeaderFor;
    sparse := OpenOneBlock();
    OneBlockHandled(sparse);
    flat := new ImageHandler.Unopened(Zeros(4096), false);
    var _ := flat.ReadHeader();
    var _ := sparse.Seek(5000);
    var _ := flat.Seek(5000);
    PastEndNotAdmissible(sparse);
    var a := sparse.Read(1);
    var b := flat.Read(1);
    assert sparse.chunks[0].DontCare?;
  }

  /** A refused append leaves a sparse file that cannot be opened again: the counts were written first. */
  method RefusedAppendBreaksFile() returns (r: Result<()>, file: bytes)
    ensures Parse(OneBlock()).Ok? && r.Err? && file == PatchCounts(OneBlock(), 0, 2) && Parse(file).Err?
  {
    hide Parse, Table, Expand, HeaderFor, PatchCounts;
    OneBlockIsSparse();
    var h := OpenOneBlock();
    BlocksOfNothing(4096);
    OneBlockCounted(h);
    r := h.AppendDontCare(-4096);
    file := h.file;
  }

  lemma OneBlockCounted(h: ImageHandler)
    requires h.Valid() && h.isSparse && h.blockSize == 4096 && h.imageSize == 4096 && |h.chunks| == 1
    ensures h.numTotalBlocks == 1 && h.CountsFit(-4096)
  {
    hide Table, Expand, HeaderFor;
  }

  /** A sparse file of one RAW block of zeros. */
  function OneRaw(): bytes {
    MkSparse.FileHeader(1, 1) + ChunkHeader(TYPE_RAW, 1, CHUNK_HEADER_SIZE + 4096) + Zeros(4096)
  }

  lemma OneRawIsSparse()
    ensures var c := Raw(HEADER_SIZE, 0, 4096, HEADER_SIZE + CHUNK_HEADER_SIZE);
      && SparseFile(OneRaw(), 4096, [c]) && MagicPrefix(OneRaw())
      && Parse(OneRaw()).Ok? && Complete(OneRaw(), Parse(OneRaw()).value) && Parse(OneRaw()).value.chunks == [c]
  {
    hide Parse, MkSparse.FileHeader, ChunkHeader;
    var f, c := OneRaw(), Raw(HEADER_SIZE, 0, 4096, HEADER_SIZE + CHUNK_HEADER_SIZE);
    MkSparse.FileHeaderFields(f, 1, 1);
    assert f[28..40] == ChunkHeader(TYPE_RAW, 1, CHUNK_HEADER_SIZE + 4096);
    DescribedByHeader(f, 4096, c, 1);
    assert [c][..0] == [] && Table(f, 4096, []);
    SparseFileIsComplete(f, 4096, [c]);
    ParseFindsTable(f, 4096, [c]);
  }

  /** Reading past the end fails with a negative count when the last chunk is RAW. */
  lemma ReadPastRawFails(h: ImageHandler)
    requires h.Valid() && h.isSparse && h.file == OneRaw()
    ensures h.ReadResult(5000, 1) == Err(ValueError)
  {
    OneRawIsSparse();
    SameTable(h, 4096, [Raw(HEADER_SIZE, 0, 4096, HEADER_SIZE + CHUNK_HEADER_SIZE)]);
    hide Table, Expand, HeaderFor;
  }

  /** ... and there are such handlers. */
  method OpenOneRaw() returns (h: ImageHandler)
    ensures fresh(h) && h.Valid() && h.isSparse && !h.readOnly && h.file == OneRaw()
  {
    hide Parse, Table, Expand, HeaderFor;
    OneRawIsSparse();
    var o := ImageHandler.Open(OneRaw(), false);
    h := o.value;
  }

  method OpenOneBlock() returns (h: ImageHandler)
    ensures fresh(h) && h.Valid() && h.isSparse && !h.readOnly && h.blockSize == 4096 && h.file == OneBlock()
    ensures h.chunks == [DontCare(HEADER_SIZE, 0, 4096)] && h.imageSize == 4096
  {
    hide Parse, Table, Expand, HeaderFor;
    OneBlockIsSparse();
    var o := ImageHandler.Open(OneBlock(), false);
    h := o.value;
  }
}
