/** tools/avbtool `ImageHandler`: one interface to flat and to Android sparse image files. */
module SparseImage {
  import opened Bytes
  import opened Results
  import opened SparseFormat
  import opened SparseEdit

  /** Python's `bisect.bisect_right`. */
  method BisectRight(a: seq<nat>, x: nat) returns (i: nat)
    requires forall j, k :: 0 <= j < k < |a| ==> a[j] <= a[k]
    ensures i <= |a|
    ensures forall k :: 0 <= k < i ==> a[k] <= x
    ensures forall k :: i <= k < |a| ==> x < a[k]
  {
    var lo, hi := 0, |a|;
    while lo < hi
      invariant 0 <= lo <= hi <= |a|
      invariant forall k :: 0 <= k < lo ==> a[k] <= x
      invariant forall k :: hi <= k < |a| ==> x < a[k]
    {
      var mid := (lo + hi) / 2;
      if x < a[mid] {
        hi := mid;
      } else {
        lo := mid + 1;
      }
    }
    i := lo;
  }

  /** The first four bytes of an Android sparse file. */
  predicate MagicPrefix(file: bytes) { |file| >= 4 && U32(file, 0) == MAGIC }

  /** Growing with zeros or cutting never makes the magic appear. */
  lemma ResizeKeepsMagic(file: bytes, n: nat)
    requires !MagicPrefix(file)
    ensures !MagicPrefix(Resize(file, n))
  {
    var r := Resize(file, n);
    if |r| >= 4 && |file| >= 4 {
      assert r[..4] == file[..4];
      assert r[0] == r[..4][0] && r[1] == r[..4][1] && r[2] == r[..4][2] && r[3] == r[..4][3];
    }
  }

  /** Python's `data * count` and slicing for the one place where both bounds may be negative. */
  function Repeat(data: bytes, count: int): (r: bytes)
    requires |data| == 4
    ensures |r| == 4 * Max(count, 0) && forall k :: 0 <= k < |r| ==> r[k] == data[k % 4]
  {
    if count <= 0 then [] else seq(4 * count, k requires 0 <= k => data[k % 4])
  }

  function Slice(s: bytes, lo: nat, hi: int): bytes {
    Clip(s, lo, if hi < 0 then Max(|s| + hi, 0) else hi)
  }

  /** What one round of `read` adds for `n` bytes from offset `off` of a chunk. */
  function ReadPiece(file: bytes, c: Chunk, off: nat, n: int): (r: Result<bytes>)
    requires c.Fill? ==> |c.fillData| == 4
  {
    match c
    case Raw(_, _, _, input) =>
      if n < -1 then Err(ValueError)
      else if n == -1 then Ok(Clip(file, input + off, |file|))
      else Ok(Clip(file, input + off, input + off + n))
    case Fill(_, _, _, data) =>
      Ok(Slice(Repeat(data, n / 4 + 2), off % 4, off % 4 + n))
    case DontCare(_, _, _) => Ok(Zeros(n))
  }

  /** The phase arithmetic of FILL chunks: four bytes repeated often enough and sliced at the offset modulo 4. */
  lemma FillPhase(data: bytes, size: nat, off: nat, n: nat)
    requires |data| == 4 && off + n <= size
    ensures Slice(Repeat(data, n / 4 + 2), off % 4, off % 4 + n)
         == seq(size, k requires 0 <= k => data[k % 4])[off..off + n]
  {
    hide Repeat;
    var all := Repeat(data, n / 4 + 2);
    assert |all| == 4 * (n / 4 + 2) > off % 4 + n;
    var piece := all[off % 4..off % 4 + n];
    var whole := seq(size, k requires 0 <= k => data[k % 4]);
    forall k | 0 <= k < n
      ensures piece[k] == whole[off + k]
    {
      PhaseShift(off, k);
    }
    assert piece == whole[off..off + n];
  }

  lemma PhaseShift(off: nat, k: nat)
    ensures (off % 4 + k) % 4 == (off + k) % 4
  {
  }

  /** Inside the chunk, a round of `read` returns the chunk's own bytes. */
  lemma ReadPieceInside(file: bytes, c: Chunk, off: nat, n: nat)
    requires c.Raw? ==> c.inputOffset + c.outputSize <= |file|
    requires c.Fill? ==> |c.fillData| == 4
    requires off + n <= c.outputSize
    ensures ReadPiece(file, c, off, n) == Ok(ChunkBytes(file, c)[off..off + n])
  {
    match c
    case Raw(_, _, size, input) =>
      SliceOfSlice(file, input, input + size, off, off + n);
    case Fill(_, _, size, data) =>
      FillPhase(data, size, off, n);
    case DontCare(_, _, size) =>
      assert Zeros(size)[off..off + n] == Zeros(n);
  }

  lemma OnlyRawFails(file: bytes, c: Chunk, off: nat, n: int)
    requires c.Fill? ==> |c.fillData| == 4
    ensures ReadPiece(file, c, off, n).Err? ==> c.Raw?
  {
  }

  class ImageHandler {
    var file: bytes
    const readOnly: bool
    var isSparse: bool
    var blockSize: nat
    var imageSize: nat
    var filePos: nat
    var numTotalBlocks: int
    var numTotalChunks: int
    var chunks: seq<Chunk>
    var chunkOutputOffsets: seq<nat>
    var sparseEnd: nat

    /** The handler's tables describe the file. The two counts in the file's header may be stale. */
    ghost predicate Sound()
      reads this
    {
      && blockSize > 0
      && if isSparse then
        && HeaderFor(file, blockSize)
        && Table(file, blockSize, chunks)
        && sparseEnd == EndOf(chunks) == |file|
        && imageSize == SizeOf(chunks) < BlockBytes(TWO_32, blockSize)
        && |chunks| < TWO_32
        && |chunkOutputOffsets| == |chunks|
        && (forall i :: 0 <= i < |chunks| ==> chunkOutputOffsets[i] == chunks[i].outputOffset)
      else
        blockSize == DEFAULT_BLOCK_SIZE && imageSize == |file| && !MagicPrefix(file)
    }

    /** ... and the header counts are those of the table, in the file and in the handler. */
    ghost predicate Valid()
      reads this
    {
      && Sound()
      && (isSparse ==>
            && numTotalBlocks >= 0 && BlockBytes(numTotalBlocks, blockSize) == imageSize
            && U32(file, 16) == numTotalBlocks && U32(file, 20) == numTotalChunks == |chunks|)
    }

    /** The flat image the file stands for. */
    ghost function Contents(): (r: bytes)
      requires Sound()
      reads this
      ensures |r| == imageSize
    {
      if isSparse then Expand(file, blockSize, chunks) else file
    }

    constructor Unopened(image: bytes, readOnly: bool)
      ensures file == image && this.readOnly == readOnly
    {
      file, this.readOnly := image, readOnly;
      isSparse, blockSize, imageSize, filePos := false, DEFAULT_BLOCK_SIZE, 0, 0;
      numTotalBlocks, numTotalChunks, chunks, chunkOutputOffsets, sparseEnd := 0, 0, [], [], 0;
    }

    /** Opening fails exactly when `_read_header` does. */
    static method Open(image: bytes, readOnly: bool) returns (r: Result<ImageHandler>)
      ensures r.Ok? <==> Parse(image).Ok?
      ensures r.Ok? ==> fresh(r.value) && r.value.file == image && r.value.readOnly == readOnly
      ensures r.Ok? && Complete(image, Parse(image).value) ==>
                r.value.Valid() && r.value.filePos == 0 && r.value.isSparse == MagicPrefix(image)
      ensures r.Ok? && Complete(image, Parse(image).value) && MagicPrefix(image) ==>
                r.value.chunks == Parse(image).value.chunks && r.value.blockSize == Parse(image).value.blockSize
    {
      var h := new ImageHandler.Unopened(image, readOnly);
      var outcome := h.ReadHeader();
      if outcome.Err? {
        return Err(outcome.error);
      }
      return Ok(h);
    }

    /** `_read_header`: on any file it does what the specification `Parse` says. */
    method ReadHeader() returns (r: Result<()>)
      modifies this
      ensures file == old(file)
      ensures r.Ok? <==> Parse(file).Ok?
      ensures r.Err? ==> !isSparse
      ensures !MagicPrefix(file) ==> Valid() && !isSparse && filePos == 0 && (r.Err? ==> r.error == StructError)
      ensures r.Ok? && MagicPrefix(file) && Complete(file, Parse(file).value) ==>
                && Valid() && isSparse && filePos == 0
                && chunks == Parse(file).value.chunks && blockSize == Parse(file).value.blockSize
    {
      isSparse, blockSize, filePos, imageSize := false, DEFAULT_BLOCK_SIZE, 0, |file|;
      if |file| < HEADER_SIZE {
        return Err(StructError);
      }
      numTotalBlocks, numTotalChunks := U32(file, 16), U32(file, 20);
      if U32(file, 0) != MAGIC {
        return Ok(());
      }
      r := ReadTable();
    }

    /** The part of `_read_header` for a file that starts with the sparse magic. */
    method ReadTable() returns (r: Result<()>)
      requires |file| >= HEADER_SIZE && MagicPrefix(file) && filePos == 0
      requires numTotalBlocks == U32(file, 16) && numTotalChunks == U32(file, 20) && !isSparse
      modifies this
      ensures file == old(file)
      ensures r.Ok? <==> Parse(file).Ok?
      ensures r.Err? ==> !isSparse
      ensures r.Ok? && Complete(file, Parse(file).value) ==>
                && Valid() && isSparse && filePos == 0
                && chunks == Parse(file).value.chunks && blockSize == Parse(file).value.blockSize
    {
      hide BlockBytes, Table, Scan, HeaderFor;
      if U16(file, 4) != 1 || U16(file, 6) != 0 || U16(file, 8) != HEADER_SIZE || U16(file, 10) != CHUNK_HEADER_SIZE {
        return Err(ValueError);
      }
      blockSize := U32(file, 12);
      var scanned := ReadChunks(file, blockSize, U32(file, 20));
      if scanned.Err? {
        return Err(scanned.error);
      }
      var Scanned(table, offset, end) := scanned.value;
      chunks, sparseEnd := table, end;
      if numTotalBlocks != offset || sparseEnd < |file| {
        return Err(ValueError);
      }
      imageSize := BlockBytes(offset, blockSize);
      chunkOutputOffsets := seq(|table|, i requires 0 <= i < |table| => table[i].outputOffset);
      isSparse := true;
      if Complete(file, Parse(file).value) {
        ParseComplete(file);
      }
      return Ok(());
    }

    /** The chunk loop of `_read_header`. */
    static method ReadChunks(file: bytes, bs: nat, n: nat) returns (r: Result<Scanned>)
      ensures r == Scan(file, bs, n, HEADER_SIZE, 0, 0)
    {
      hide ReadChunk, BlockBytes;
      var i: nat, at: nat, blocks: nat, out: nat, found: seq<Chunk> := 0, HEADER_SIZE, 0, 0, [];
      BeforeNothing(Scan(file, bs, n, HEADER_SIZE, 0, 0));
      while i < n
        invariant 0 <= i <= n
        invariant Scan(file, bs, n, HEADER_SIZE, 0, 0) == Before(found, Scan(file, bs, n - i, at, blocks, out))
      {
        var step := ReadChunk(file, bs, at, out);
        if step.Err? {
          return Err(step.error);
        }
        var Step(kept, sz, next) := step.value;
        ScanRound(file, bs, n - i, at, blocks, out);
        ghost var rest := Scan(file, bs, n - i - 1, next, blocks + sz, out + BlockBytes(sz, bs));
        assert rest.Ok? ==> found + (kept + rest.value.chunks) == found + kept + rest.value.chunks;
        found := found + kept;
        blocks, out, at, i := blocks + sz, out + BlockBytes(sz, bs), next, i + 1;
      }
      assert found + [] == found;
      return Ok(Scanned(found, blocks, at));
    }

    /** `_update_chunks_and_blocks`: fails when a count is not an unsigned 32-bit number. */
    method UpdateChunksAndBlocks() returns (r: Result<()>)
      requires |file| >= HEADER_SIZE
      modifies this`file
      ensures r.Ok? <==> 0 <= numTotalBlocks < TWO_32 && 0 <= numTotalChunks < TWO_32
      ensures r.Ok? ==> file == PatchCounts(old(file), numTotalBlocks, numTotalChunks)
      ensures r.Err? ==> file == old(file) && r.error == StructError
    {
      if numTotalBlocks < 0 || numTotalBlocks >= TWO_32 || numTotalChunks < 0 || numTotalChunks >= TWO_32 {
        return Err(StructError);
      }
      file := WriteAt(file, COUNTS_OFFSET, LE32(numTotalBlocks) + LE32(numTotalChunks));
      return Ok(());
    }

    /** Enough room in the 32-bit fields for one more chunk of `extra` bytes with `payload` bytes of payload. */
    ghost predicate Room(extra: int, payload: nat)
      reads this
    {
      && 0 <= extra && imageSize + extra < BlockBytes(TWO_32, blockSize)
      && |chunks| + 1 < TWO_32
      && CHUNK_HEADER_SIZE + payload < TWO_32
    }

    /** The header's counts after an append of `size` bytes are unsigned 32-bit numbers. */
    ghost predicate CountsFit(size: int)
      requires blockSize > 0
      reads this
    {
      0 <= numTotalBlocks + size / blockSize < TWO_32 && 0 <= numTotalChunks + 1 < TWO_32
    }

    /** The file a refused append of `size` bytes leaves: the counts are written before anything else is checked. */
    ghost function Refused(size: int): bytes
      requires blockSize > 0 && |file| >= HEADER_SIZE
      reads this
    {
      if CountsFit(size) then PatchCounts(file, numTotalBlocks + size / blockSize, numTotalChunks + 1) else file
    }

    /** The handler's counts have left their fields: every further append will fail. */
    ghost predicate Stuck()
      reads this
    {
      Sound() && isSparse && (numTotalBlocks >= TWO_32 || numTotalChunks >= TWO_32)
    }

    /** What a refused append leaves of a sparse file `before`, `fit` telling whether the counts were written: then,
        and only then, the file differs, and cannot be opened again. */
    ghost predicate LeftBehind(before: bytes, fit: bool)
      reads this
    {
      !Valid() && (file == before <==> !fit) && (Parse(file).Ok? <==> !fit)
    }

    /** The checks an append makes before it touches the file. */
    ghost predicate Permits(aligned: bool)
      reads this
    {
      aligned && !readOnly
    }

    /** When appending `extra` bytes succeeds. */
    ghost predicate Accepts(aligned: bool, extra: int, payload: nat)
      reads this
    {
      Permits(aligned) && if isSparse then Room(extra, payload) else imageSize + extra >= HEADER_SIZE
    }

    /** The common part of the three append operations on a sparse file: one chunk of `size` bytes is added. */
    method AppendChunkOf(kind: nat, size: int, payload: bytes) returns (r: Result<()>)
      requires isSparse && (Valid() || (Stuck() && size >= 0)) && size % blockSize == 0
      requires kind in {TYPE_RAW, TYPE_FILL, TYPE_DONT_CARE}
      requires |payload| == if kind == TYPE_RAW then size else if kind == TYPE_FILL then 4 else 0
      modifies this
      ensures Sound() && isSparse && blockSize == old(blockSize)
      ensures r.Ok? <==> old(Valid() && Room(size, |payload|))
      ensures r.Err? ==> Contents() == old(Contents()) && chunks == old(chunks) && r.error == StructError
      ensures r.Err? && old(Valid()) ==> file == old(Refused(size)) && LeftBehind(old(file), old(CountsFit(size)))
      ensures r.Err? && size >= 0 && !old(CountsFit(size)) ==> Stuck()
      ensures old(Stuck()) ==> Stuck() && file == old(file)
      ensures r.Ok? ==> Valid() && filePos == 0 && |chunks| == old(|chunks|) + 1
      ensures r.Ok? ==> Contents() == old(Contents()) + Stands(kind, size, payload)
    {
      hide Sound, Contents, Announced, LeftBehind, CountsFit, Refused, Stands, BlockBytes;
      ghost var before := file;
      r := BumpCounts(size);
      if r.Ok? {
        r := WriteChunk(kind, size, payload, before);
      }
    }

    /** The header and the handler announce one chunk more than there is; `before` is the file without it. */
    ghost predicate Announced(before: bytes, size: int)
      reads this
    {
      && Sound() && isSparse && 0 <= numTotalBlocks < TWO_32 && numTotalChunks == |chunks| + 1 < TWO_32
      && (size / blockSize >= 0 ==>
            && size == BlockBytes(size / blockSize, blockSize) && BlockBytes(numTotalBlocks, blockSize) == imageSize + size
            && size / blockSize <= numTotalBlocks)
      && HeaderFor(before, blockSize) && Table(before, blockSize, chunks) && EndOf(chunks) == |before|
      && file == PatchCounts(before, numTotalBlocks, numTotalChunks)
      && Expand(before, blockSize, chunks) == Contents()
    }

    /** The first step of an append operation: the counts grow, in the handler and then in the header. */
    method BumpCounts(size: int) returns (r: Result<()>)
      requires isSparse && (Valid() || (Stuck() && size >= 0)) && size % blockSize == 0
      modifies this`file, this`numTotalBlocks, this`numTotalChunks
      ensures Sound() && Contents() == old(Contents())
      ensures r.Ok? <==> old(CountsFit(size))
      ensures r.Ok? ==> Announced(old(file), size)
      ensures old(Valid()) ==> file == old(Refused(size)) && LeftBehind(old(file), old(CountsFit(size)))
      ensures old(Valid()) ==> (forall payload: nat :: old(Room(size, payload)) <==>
                (r.Ok? && size / blockSize >= 0 && CHUNK_HEADER_SIZE + payload < TWO_32))
      ensures r.Err? && size >= 0 ==> Stuck()
      ensures r.Err? ==> r.error == StructError
      ensures old(Stuck()) ==> r.Err? && file == old(file)
    {
      hide PatchCounts, Table, BlockBytes, Parse, Expand;
      ghost var before := file;
      if size >= 0 {
        QuotientSign(size, blockSize);
      }
      if Valid() {
        BlocksFit(imageSize, numTotalBlocks, size, blockSize);
        StillParses(this);
      }
      numTotalChunks := numTotalChunks + 1;
      numTotalBlocks := numTotalBlocks + size / blockSize;
      r := UpdateChunksAndBlocks();
      if r.Ok? {
        CountsWritten(before, blockSize, chunks, numTotalBlocks);
      }
    }

    /** The rest of an append operation, after the header's counts were updated for the new chunk. */
    method WriteChunk(kind: nat, size: int, payload: bytes, ghost before: bytes) returns (r: Result<()>)
      requires isSparse && Announced(before, size) && size % blockSize == 0
      requires kind in {TYPE_RAW, TYPE_FILL, TYPE_DONT_CARE}
      requires |payload| == if kind == TYPE_RAW then size else if kind == TYPE_FILL then 4 else 0
      modifies this
      ensures Sound() && isSparse && blockSize == old(blockSize)
      ensures r.Ok? <==> size / blockSize >= 0 && CHUNK_HEADER_SIZE + |payload| < TWO_32
      ensures r.Err? ==> unchanged(this) && r.error == StructError
      ensures r.Ok? ==> Valid() && filePos == 0 && |chunks| == old(|chunks|) + 1
      ensures r.Ok? ==> Contents() == old(Contents()) + Stands(kind, size, payload)
    {
      hide BlockBytes, Table, Expand, Describes, Parse, WriteAt, PatchCounts, ChunkHeader, Stands;
      var blocks := size / blockSize;
      if blocks < 0 || blocks >= TWO_32 || CHUNK_HEADER_SIZE + |payload| >= TWO_32 {
        return Err(StructError);
      }
      file := WriteAt(file, sparseEnd, ChunkHeader(kind, blocks, CHUNK_HEADER_SIZE + |payload|));
      file := WriteAt(file, sparseEnd + CHUNK_HEADER_SIZE, payload);
      AppendKind(before, blockSize, chunks, kind, size, payload, numTotalBlocks);
      r := ReadHeader();
    }

    /** `append_dont_care`: grows the image with zeros; on a flat file a negative count cuts it. */
    method AppendDontCare(numBytes: int) returns (r: Result<()>)
      requires Valid()
      modifies this
      ensures Sound() && isSparse == old(isSparse) && blockSize == old(blockSize)
      ensures r.Ok? ==> Valid() && filePos == 0
      ensures r.Ok? && isSparse ==> |chunks| == old(|chunks|) + 1
      ensures r.Ok? <==> old(Accepts(numBytes % blockSize == 0, numBytes, 0))
      ensures r.Ok? ==> Contents() == Resize(old(Contents()), old(imageSize) + numBytes)
      ensures !isSparse && old(Permits(numBytes % blockSize == 0)) && old(|file|) + numBytes >= 0 ==>
                file == Resize(old(file), old(|file|) + numBytes)
      ensures !old(Permits(numBytes % blockSize == 0)) || (!isSparse && old(|file|) + numBytes < 0) ==> unchanged(this)
      ensures isSparse && r.Err? ==> Contents() == old(Contents()) && chunks == old(chunks)
      ensures isSparse && r.Err? && old(Permits(numBytes % blockSize == 0)) ==>
                file == old(Refused(numBytes)) && LeftBehind(old(file), old(CountsFit(numBytes))) && r.error == StructError
      ensures isSparse && r.Err? && numBytes >= 0 && old(Permits(numBytes % blockSize == 0) && !CountsFit(numBytes)) ==> Stuck()
    {
      hide BlockBytes, Table, Expand, HeaderFor, Parse;
      if numBytes % blockSize != 0 {
        return Err(AssertionError);
      }
      if readOnly {
        return Err(OSError);
      }
      if !isSparse {
        if |file| + numBytes < 0 {
          return Err(OSError);
        }
        ResizeKeepsMagic(file, |file| + numBytes);
        file := Resize(file, |file| + numBytes);
        r := ReadHeader();
        FlatParses(file);
        return;
      }
      r := AppendChunkOf(TYPE_DONT_CARE, numBytes, []);
    }

    /** `append_raw`: the image grows by `data`. `AppendOdd` is about data that is not whole blocks of a sparse file. */
    method AppendRaw(data: bytes, multipleBlockSize: bool := true) returns (r: Result<()>)
      requires Valid() || Stuck()
      requires isSparse ==> multipleBlockSize || |data| % blockSize == 0
      requires !isSparse ==> !MagicPrefix(file + data)
      modifies this
      ensures Sound() && isSparse == old(isSparse) && blockSize == old(blockSize)
      ensures r.Ok? ==> Valid() && filePos == 0
      ensures r.Ok? && isSparse ==> |chunks| == old(|chunks|) + 1
      ensures r.Ok? <==> old(Valid() && Accepts(multipleBlockSize ==> |data| % blockSize == 0, |data|, |data|))
      ensures r.Ok? || (!isSparse && old(Permits(multipleBlockSize ==> |data| % blockSize == 0))) ==>
                Contents() == old(Contents()) + data
      ensures !old(Permits(multipleBlockSize ==> |data| % blockSize == 0)) ==> unchanged(this)
      ensures isSparse && r.Err? ==> Contents() == old(Contents()) && chunks == old(chunks)
      ensures isSparse && r.Err? && old(Valid() && Permits(multipleBlockSize ==> |data| % blockSize == 0)) ==>
                file == old(Refused(|data|)) && LeftBehind(old(file), old(CountsFit(|data|)))
      ensures isSparse && r.Err? && old(Valid() && Permits(multipleBlockSize ==> |data| % blockSize == 0) && !CountsFit(|data|)) ==> Stuck()
      ensures old(Stuck()) ==> Stuck() && file == old(file)
    {
      hide BlockBytes, Table, Expand, HeaderFor, Parse;
      if multipleBlockSize && |data| % blockSize != 0 {
        return Err(AssertionError);
      }
      if readOnly {
        return Err(OSError);
      }
      if !isSparse {
        file := WriteAt(file, |file|, data);
        assert file == old(file) + data;
        r := ReadHeader();
        FlatParses(file);
        return;
      }
      r := AppendChunkOf(TYPE_RAW, |data|, data);
    }

    /** `append_raw` without the check for whole blocks, for data that is not whole blocks, on a sparse file. It never
        succeeds: if the counts and the length fit their fields, a chunk is written that cannot be read again, and the
        handler is left in the middle of `_read_header`. */
    method AppendOdd(data: bytes) returns (r: Result<()>)
      requires isSparse && (Valid() || Stuck()) && blockSize > 0 && |data| % blockSize != 0
      modifies this
      ensures r.Err?
      ensures readOnly ==> unchanged(this)
      ensures isSparse ==> Sound() && blockSize == old(blockSize) && Contents() == old(Contents()) && chunks == old(chunks)
      ensures isSparse <==> readOnly || old(Stuck() || !CountsFit(|data|)) || CHUNK_HEADER_SIZE + |data| >= TWO_32
      ensures !readOnly && old(Stuck() || !CountsFit(|data|)) ==> Stuck() && file == old(file)
      ensures !readOnly && isSparse && old(Valid() && CountsFit(|data|)) ==>
                file == old(Refused(|data|)) && LeftBehind(old(file), true) && !Stuck()
      ensures !isSparse ==> forall n: nat :: Parse(Resize(file, n)).Err?
      ensures !isSparse ==> file == old(WithRaw(file, blockSize, data, numTotalBlocks + |data| / blockSize, numTotalChunks + 1))
    {
      hide Table, BlockBytes, Parse, Expand, PatchCounts, Contents, WithRaw;
      if readOnly {
        return Err(OSError);
      }
      ghost var before := file;
      QuotientSign(|data|, blockSize);
      r := CountOdd(|data|);
      if r.Err? {
        return;
      }
      if CHUNK_HEADER_SIZE + |data| >= TWO_32 {
        return Err(StructError);
      }
      r := WriteOdd(data, before);
    }

    /** Its first step: the counts grow. */
    method CountOdd(size: nat) returns (r: Result<()>)
      requires isSparse && (Valid() || Stuck()) && blockSize > 0
      modifies this`file, this`numTotalBlocks, this`numTotalChunks
      ensures Sound() && Contents() == old(Contents())
      ensures r.Ok? <==> old(Valid() && CountsFit(size))
      ensures r.Ok? ==> file == old(Refused(size)) && 0 <= numTotalBlocks < TWO_32 && !Stuck() && LeftBehind(old(file), true)
      ensures r.Ok? ==> numTotalBlocks == old(numTotalBlocks) + size / blockSize && |chunks| + 1 == numTotalChunks < TWO_32
      ensures r.Err? ==> Stuck() && file == old(file) && r.error == StructError
    {
      hide PatchCounts, Table, BlockBytes, Parse, Expand;
      ghost var before := file;
      QuotientSign(size, blockSize);
      numTotalChunks := numTotalChunks + 1;
      numTotalBlocks := numTotalBlocks + size / blockSize;
      r := UpdateChunksAndBlocks();
      if r.Ok? {
        CountsWritten(before, blockSize, chunks, numTotalBlocks);
      }
    }

    /** Its last steps: the chunk is written, and the header read again. */
    method WriteOdd(data: bytes, ghost before: bytes) returns (r: Result<()>)
      requires isSparse && blockSize > 0 && |data| % blockSize != 0 && CHUNK_HEADER_SIZE + |data| < TWO_32
      requires HeaderFor(before, blockSize) && Table(before, blockSize, chunks)
      requires sparseEnd == EndOf(chunks) == |before| >= HEADER_SIZE
      requires 0 <= numTotalBlocks < TWO_32 && numTotalChunks == |chunks| + 1 < TWO_32
      requires file == PatchCounts(before, numTotalBlocks, numTotalChunks)
      modifies this
      ensures r.Err? && !isSparse
      ensures file == old(WithRaw(before, blockSize, data, numTotalBlocks, numTotalChunks))
      ensures forall n: nat :: Parse(Resize(file, n)).Err?
    {
      hide Table, Parse, PatchCounts, ChunkHeader, HeaderFor, WithRaw, WriteAt, Resize, EndOf;
      AllUnopened(before, blockSize, chunks, data, numTotalBlocks, numTotalChunks);
      RawWritten(before, blockSize, data, numTotalBlocks, numTotalChunks);
      file := WriteAt(file, sparseEnd, ChunkHeader(TYPE_RAW, |data| / blockSize, CHUNK_HEADER_SIZE + |data|));
      file := WriteAt(file, sparseEnd + CHUNK_HEADER_SIZE, data);
      r := ReadHeader();
    }

    /** `append_fill`: the image grows by the four bytes, repeated. */
    method AppendFill(fillData: bytes, size: int) returns (r: Result<()>)
      requires Valid()
      requires !isSparse && |fillData| == 4 ==> !MagicPrefix(file + Repeat(fillData, size / 4))
      modifies this
      ensures Sound() && isSparse == old(isSparse) && blockSize == old(blockSize)
      ensures r.Ok? ==> Valid() && filePos == 0
      ensures r.Ok? && isSparse ==> |chunks| == old(|chunks|) + 1
      ensures r.Ok? <==> old(Accepts(|fillData| == 4 && size % 4 == 0 && size % blockSize == 0,
                                     if isSparse then size else Max(size, 0), 4))
      ensures r.Ok? ==> |fillData| == 4
      ensures |fillData| == 4 && (r.Ok? || (!isSparse && old(Permits(size % 4 == 0 && size % blockSize == 0)))) ==>
                Contents() == old(Contents()) + Repeat(fillData, size / 4)
      ensures !old(Permits(|fillData| == 4 && size % 4 == 0 && size % blockSize == 0)) ==> unchanged(this)
      ensures isSparse && r.Err? ==> Contents() == old(Contents()) && chunks == old(chunks)
      ensures isSparse && r.Err? && old(Permits(|fillData| == 4 && size % 4 == 0 && size % blockSize == 0)) ==>
                file == old(Refused(size)) && LeftBehind(old(file), old(CountsFit(size)))
    {
      hide BlockBytes, Table, Expand, HeaderFor, Parse, PatchCounts, Repeat;
      if |fillData| != 4 || size % 4 != 0 || size % blockSize != 0 {
        return Err(AssertionError);
      }
      if readOnly {
        return Err(OSError);
      }
      if !isSparse {
        file := WriteAt(file, |file|, Repeat(fillData, size / 4));
        assert file == old(file) + Repeat(fillData, size / 4);
        r := ReadHeader();
        FlatParses(file);
        return;
      }
      r := AppendChunkOf(TYPE_FILL, size, fillData);
      FillStands(size, fillData);
    }

    method Seek(offset: int) returns (r: Result<()>)
      modifies this`filePos
      ensures r.Ok? <==> offset >= 0
      ensures filePos == if offset >= 0 then offset else old(filePos)
    {
      if offset < 0 {
        return Err(RuntimeError);
      }
      filePos := offset;
      return Ok(());
    }

    method Tell() returns (pos: nat)
      ensures pos == filePos
    {
      pos := filePos;
    }

    /** What `seek(offset); read(size)` returns: the stretch of the flat image, except on a sparse file for an offset
        past the end, where the last chunk is asked for a negative number of bytes. */
    ghost function ReadResult(offset: nat, size: nat): Result<bytes>
      requires Sound()
      reads this
    {
      if !isSparse || size == 0 || (|chunks| > 0 && offset <= imageSize) then Ok(Clip(Contents(), offset, offset + size))
      else if |chunks| == 0 then Err(IndexError)
      else PastEnd(file, blockSize, chunks, offset)
    }

    /** `read`. On a sparse file it is the read of the flat image exactly when the cursor is not past the
        end and there is a chunk to read from; otherwise it fails or moves the cursor back. */
    method Read(size: nat) returns (r: Result<bytes>)
      requires Sound()
      modifies this`filePos
      ensures r == Ok(Clip(Contents(), old(filePos), old(filePos) + size)) && filePos == old(filePos) + |r.value|
         <==> !isSparse || size == 0 || (|chunks| > 0 && old(filePos) <= imageSize)
      ensures r == old(ReadResult(filePos, size))
      ensures isSparse && size > 0 && |chunks| > 0 && old(filePos) > imageSize ==>
                if r.Err? then chunks[|chunks| - 1].Raw? else filePos == imageSize
    {
      if !isSparse {
        var data := Clip(file, filePos, filePos + size);
        filePos := filePos + |data|;
        return Ok(data);
      }
      hide BlockBytes, Table, Expand, HeaderFor, Describes;
      r := ReadSparse(size);
    }

    method ReadSparse(size: nat) returns (r: Result<bytes>)
      requires Sound() && isSparse
      modifies this`filePos
      ensures size == 0 || (|chunks| > 0 && old(filePos) <= imageSize) ==>
                && filePos == Max(old(filePos), Min(old(filePos) + size, imageSize))
                && r == Ok(Clip(Contents(), old(filePos), old(filePos) + size))
      ensures size > 0 && |chunks| == 0 ==> r == Err(IndexError)
      ensures size > 0 && |chunks| > 0 && old(filePos) > imageSize ==> r == PastEnd(file, blockSize, chunks, old(filePos))
      ensures size > 0 && |chunks| > 0 && old(filePos) > imageSize ==>
                if r.Err? then chunks[|chunks| - 1].Raw? else filePos == imageSize
    {
      hide BlockBytes, Table, Expand, HeaderFor, Describes;
      OffsetsSorted(file, blockSize, chunks, chunkOutputOffsets);
      var above := BisectRight(chunkOutputOffsets, filePos);
      BisectFinds(file, blockSize, chunks, chunkOutputOffsets, filePos, above);
      if above == 0 && size > 0 {
        return Err(IndexError);
      }
      r, filePos := ReadLoop(file, blockSize, chunks, above as int - 1, filePos, size);
    }

    /** The chunk loop of `read`, from chunk `first` on; returns the new cursor. */
    static method ReadLoop(file: bytes, ghost bs: nat, cs: seq<Chunk>, first: int, start: nat, size: nat)
      returns (r: Result<bytes>, pos: nat)
      requires Table(file, bs, cs)
      requires size > 0 ==> 0 <= first < |cs| && cs[first].outputOffset <= start
      requires size > 0 && start <= SizeOf(cs) ==> start <= OutputEnd(cs[first])
      requires size > 0 && start > SizeOf(cs) ==> first == |cs| - 1
      ensures size == 0 || start <= SizeOf(cs) ==>
                && pos == Max(start, Min(start + size, SizeOf(cs)))
                && r == Ok(Clip(Expand(file, bs, cs), start, start + size))
      ensures size > 0 && start > SizeOf(cs) ==> r == PastEnd(file, bs, cs, start)
      ensures size > 0 && start > SizeOf(cs) ==> if r.Err? then cs[|cs| - 1].Raw? else pos == SizeOf(cs)
    {
      hide BlockBytes, Table, Expand, Describes, ReadPiece;
      var data: bytes := [];
      var idx, toGo: int := first, size;
      pos := start;
      while toGo > 0
        invariant start <= SizeOf(cs) ==>
                    && start <= pos <= SizeOf(cs) && data == Expand(file, bs, cs)[start..pos]
                    && toGo == size - (pos - start) >= 0
        invariant start > SizeOf(cs) ==> pos == start && toGo == size && data == [] && (toGo > 0 ==> idx == |cs| - 1)
        invariant toGo > 0 ==> 0 <= idx < |cs| && cs[idx].outputOffset <= pos
        invariant toGo > 0 && start <= SizeOf(cs) ==> pos <= OutputEnd(cs[idx])
        decreases |cs| - idx
      {
        var chunk := cs[idx];
        ChunkInside(file, bs, cs, idx);
        var off := pos - chunk.outputOffset;
        var n := Min(chunk.outputSize - off, toGo);
        if start <= SizeOf(cs) {
          ReadRound(file, bs, cs, idx, off, n, start);
        }
        var piece := ReadPiece(file, chunk, off, n);
        if piece.Err? {
          OnlyRawFails(file, chunk, off, n);
          return Err(piece.error), pos;
        }
        assert data == [] ==> data + piece.value == piece.value;
        data, toGo, pos, idx := data + piece.value, toGo - n, pos + n, idx + 1;
        if idx >= |cs| {
          break;
        }
        NextChunk(file, bs, cs, idx);
      }
      return Ok(data), pos;
    }

    /** `truncate`: the image is cut, or grown with zeros. Stale header counts are repaired by a cut. */
    method Truncate(size: nat) returns (r: Result<()>)
      requires Sound() && (isSparse && size > imageSize ==> Valid())
      modifies this
      ensures Sound() && isSparse == old(isSparse) && blockSize == old(blockSize)
      ensures r.Ok? <==> !readOnly && if !isSparse then size >= HEADER_SIZE else
        size % blockSize == 0 && (size > old(imageSize) ==> old(Room(size - imageSize, 0)))
      ensures r.Ok? || (!isSparse && !readOnly) ==> Contents() == Resize(old(Contents()), size)
      ensures readOnly || (isSparse && (size % blockSize != 0 || size == old(imageSize))) ==> unchanged(this)
      ensures r.Err? && isSparse ==> file == old(file) && Contents() == old(Contents()) && chunks == old(chunks)
      ensures r.Err? && isSparse && !readOnly && size % blockSize == 0 ==> Stuck()
      ensures r.Err? ==>
        r.error == if readOnly then OSError else if isSparse && size % blockSize != 0 then ValueError else StructError
      ensures !readOnly && !isSparse ==> Valid() && filePos == 0
      ensures r.Ok? && size != old(imageSize) ==> Valid() && filePos == 0
      ensures r.Ok? && isSparse ==> |chunks| <= old(|chunks|) + 1
    {
      hide BlockBytes, Table, Expand, HeaderFor, Parse;
      if readOnly {
        return Err(OSError);
      }
      if !isSparse {
        ResizeKeepsMagic(file, size);
        file := Resize(file, size);
        r := ReadHeader();
        FlatParses(file);
        return;
      }
      if size % blockSize != 0 {
        return Err(ValueError);
      }
      if size == imageSize {
        return Ok(());
      }
      if size < imageSize {
        r := CutSparse(size);
      } else {
        r := GrowSparse(size);
      }
    }

    /** `truncate` after `_read_header` has failed: the file is taken for a flat one. */
    method TruncateUnread(size: nat) returns (r: Result<()>)
      requires !isSparse
      modifies this
      ensures readOnly ==> r.Err? && unchanged(this)
      ensures !readOnly ==> file == Resize(old(file), size) && (r.Ok? <==> Parse(file).Ok?)
      ensures r.Err? ==> !isSparse
    {
      hide Parse;
      if readOnly {
        return Err(OSError);
      }
      file := Resize(file, size);
      r := ReadHeader();
    }

    /** `truncate` of a sparse image to a larger size: a DONT_CARE chunk is added. */
    method GrowSparse(size: nat) returns (r: Result<()>)
      requires Valid() && isSparse && !readOnly && size > imageSize && size % blockSize == 0
      modifies this
      ensures Sound() && isSparse && blockSize == old(blockSize)
      ensures r.Ok? <==> old(Room(size - imageSize, 0))
      ensures r.Ok? ==> Valid() && filePos == 0 && Contents() == Resize(old(Contents()), size) && |chunks| == old(|chunks|) + 1
      ensures r.Err? ==> Stuck() && file == old(file) && Contents() == old(Contents()) && chunks == old(chunks)
      ensures r.Err? ==> r.error == StructError
    {
      hide BlockBytes, Table, Expand, HeaderFor, Parse, PatchCounts;
      MultipleOfBlocks(file, blockSize, chunks);
      MultiplesAdd(size, imageSize, blockSize);
      BlocksFit(imageSize, numTotalBlocks, size - imageSize, blockSize);
      QuotientSign(size - imageSize, blockSize);
      r := AppendDontCare(size - imageSize);
    }

    /** The chunk the new end of the image falls into, or starts. */
    method ChunkToCut(size: nat) returns (idx: nat)
      requires Sound() && isSparse && size < imageSize
      ensures idx < |chunks| && chunks[idx].outputOffset <= size
      ensures idx + 1 < |chunks| ==> size < chunks[idx + 1].outputOffset
    {
      hide BlockBytes, Table, Expand, Describes, HeaderFor;
      OffsetsSorted(file, blockSize, chunks, chunkOutputOffsets);
      var above := BisectRight(chunkOutputOffsets, size);
      BisectFinds(file, blockSize, chunks, chunkOutputOffsets, size, above);
      idx := above - 1;
    }

    /** `truncate` of a sparse image to a smaller size. */
    method CutSparse(size: nat) returns (r: Result<()>)
      requires Sound() && isSparse && size < imageSize && size % blockSize == 0
      modifies this
      ensures Valid() && isSparse && blockSize == old(blockSize) && filePos == 0
      ensures r.Ok? && Contents() == old(Contents())[..size]
      ensures |chunks| <= old(|chunks|)
    {
      hide BlockBytes, Table, Expand, Describes, Parse, WriteAt, PatchCounts, ChunkHeader, IsCut, Blocky;
      var idx := ChunkToCut(size);
      CutArithmetic(file, blockSize, chunks, idx, size);
      var chunk := chunks[idx];
      var numToKeep, forUpdate, truncateAt := size - chunk.outputOffset, idx, chunk.chunkOffset;
      ghost var before, table := file, chunks;
      if chunk.outputOffset != size {
        forUpdate := idx + 1;
        var cut := CutChunk(chunk, numToKeep);
        truncateAt := FileEnd(cut);
        file := WriteAt(file, chunk.chunkOffset,
                        ChunkHeader(TypeOf(cut), numToKeep / blockSize, CHUNK_HEADER_SIZE + PayloadSize(cut)));
        chunks := chunks[idx := cut];
      }
      assert chunks[..forUpdate] == KeptChunks(table, idx, numToKeep);
      ghost var total := Recount(forUpdate, truncateAt);
      if numToKeep == 0 {
        BoundaryCut(before, blockSize, table, idx, total);
      } else {
        MiddleCut(before, blockSize, table, idx, numToKeep, total);
      }
      r := Reread(before, table, size);
    }

    /** The common end of a cut: count what stays, patch the header, drop the rest of the file. */
    method Recount(forUpdate: nat, truncateAt: nat) returns (ghost total: nat)
      requires HEADER_SIZE <= |file| && truncateAt <= |file| && blockSize > 0
      requires forUpdate <= |chunks| && forUpdate < TWO_32 && Blocky(chunks[..forUpdate], blockSize)
      requires SizeOf(chunks[..forUpdate]) < BlockBytes(TWO_32, blockSize)
      modifies this`file, this`numTotalBlocks, this`numTotalChunks
      ensures total < TWO_32 && BlockBytes(total, blockSize) == SizeOf(chunks[..forUpdate])
      ensures file == PatchCounts(old(file), total, forUpdate)[..truncateAt]
    {
      hide BlockBytes, PatchCounts, Blocky;
      var counted := CountBlocks(chunks[..forUpdate], blockSize);
      KeptBlocks(counted, SizeOf(chunks[..forUpdate]), blockSize);
      numTotalChunks, numTotalBlocks := forUpdate, counted;
      var _ := UpdateChunksAndBlocks();
      file := file[..truncateAt];
      total := counted;
    }

    /** Re-reading the header after a cut. */
    method Reread(ghost before: bytes, ghost table: seq<Chunk>, ghost size: nat) returns (r: Result<()>)
      requires Table(before, blockSize, table) && size <= SizeOf(table)
      requires IsCut(file, before, blockSize, table, size)
      modifies this
      ensures Valid() && isSparse && blockSize == old(blockSize) && filePos == 0
      ensures r.Ok? && Contents() == Expand(before, old(blockSize), table)[..size]
      ensures |chunks| <= |table|
    {
      hide Table, Expand, Parse;
      r := ReadHeader();
    }

    /** The loop of `truncate` that recounts the blocks of the chunks that stay. */
    static method CountBlocks(cs: seq<Chunk>, bs: nat) returns (total: nat)
      requires bs > 0
      requires Blocky(cs, bs)
      ensures BlockBytes(total, bs) == SizeOf(cs)
    {
      hide BlockBytes;
      BlocksOfNothing(bs);
      total := 0;
      for i := 0 to |cs|
        invariant BlockBytes(total, bs) == SizeOf(cs[..i])
      {
        WholeBlocks(cs[i].outputSize, bs);
        BlocksAdd(total, cs[i].outputSize / bs, bs);
        assert cs[..i + 1][..i] == cs[..i] && cs[..i + 1][i] == cs[i];
        total := total + cs[i].outputSize / bs;
      }
      assert cs[..|cs|] == cs;
    }
  }

  /** The file with a RAW chunk that is not whole blocks cannot be opened, nor after it was cut or grown. */
  lemma AllUnopened(file: bytes, bs: nat, cs: seq<Chunk>, data: bytes, blocks: nat, count: nat)
    requires HeaderFor(file, bs) && Table(file, bs, cs) && EndOf(cs) == |file|
    requires blocks < TWO_32 && count == |cs| + 1 < TWO_32 && CHUNK_HEADER_SIZE + |data| < TWO_32 && |data| % bs != 0
    ensures Parse(WithRaw(file, bs, data, blocks, count)).Err?
    ensures forall n: nat :: Parse(Resize(WithRaw(file, bs, data, blocks, count), n)).Err?
  {
    hide Table, Parse, WithRaw;
    var f := WithRaw(file, bs, data, blocks, count);
    forall n: nat
      ensures Parse(Resize(f, n)).Err?
    {
      OddNeverOpens(file, bs, cs, data, blocks, n);
    }
    assert Resize(f, |f|) == f;
  }

  /** The two writes that put it there. */
  lemma RawWritten(file: bytes, bs: nat, data: bytes, blocks: nat, chunks: nat)
    requires |file| >= HEADER_SIZE && bs > 0
    ensures var p, h := PatchCounts(file, blocks, chunks), ChunkHeader(TYPE_RAW, |data| / bs, CHUNK_HEADER_SIZE + |data|);
      && |WriteAt(p, |file|, h)| == |file| + CHUNK_HEADER_SIZE
      && WriteAt(WriteAt(p, |file|, h), |file| + CHUNK_HEADER_SIZE, data) == WithRaw(file, bs, data, blocks, chunks)
  {
    hide PatchCounts, ChunkHeader;
  }

  /** `image.seek(offset); image.read(size)` for a stretch that starts inside the image. */
  method ReadAt(image: ImageHandler, offset: nat, size: nat) returns (data: bytes)
    requires image.Sound() && offset <= image.imageSize && 0 < image.imageSize
    modifies image`filePos
    ensures image.Sound() && image.Contents() == old(image.Contents())
    ensures old(image.Valid()) ==> image.Valid()
    ensures data == Clip(image.Contents(), offset, offset + size)
    ensures image.filePos == offset + |data|
  {
    hide BlockBytes, Table, Expand, HeaderFor, SizeOf, EndOf, Clip;
    HasChunks(image);
    var _ := image.Seek(offset);
    var r := image.Read(size);
    data := r.value;
  }

  /** `image.seek(offset); image.read(size)` for any offset. */
  method ReadFrom(image: ImageHandler, offset: nat, size: nat) returns (r: Result<bytes>)
    requires image.Sound()
    modifies image`filePos
    ensures image.Sound() && image.Contents() == old(image.Contents()) && (old(image.Valid()) ==> image.Valid())
    ensures r == old(image.ReadResult(offset, size))
  {
    hide BlockBytes, Table, Expand, HeaderFor, SizeOf, EndOf, Clip, PastEnd;
    var _ := image.Seek(offset);
    r := image.Read(size);
  }

  /** A sparse image that is not empty has a chunk to read from. */
  lemma HasChunks(image: ImageHandler)
    requires image.Sound() && image.imageSize > 0
    ensures image.isSparse ==> |image.chunks| > 0
  {
    hide BlockBytes, Table, Expand, HeaderFor;
  }

  ghost function Before(found: seq<Chunk>, r: Result<Scanned>): Result<Scanned> {
    match r
    case Err(e) => Err(e)
    case Ok(s) => Ok(s.(chunks := found + s.chunks))
  }

  /** The 32-bit check on the block count is a check on the image size. */
  lemma BlocksFit(imageSize: nat, total: nat, size: int, bs: nat)
    requires bs > 0 && BlockBytes(total, bs) == imageSize && size % bs == 0
    ensures 0 <= total + size / bs < TWO_32 && 0 <= size / bs <==> 0 <= size && imageSize + size < BlockBytes(TWO_32, bs)
    ensures 0 <= size / bs ==>
              0 <= size == BlockBytes(size / bs, bs) && BlockBytes(total + size / bs, bs) == imageSize + size
  {
    var blocks := size / bs;
    assert size == blocks * bs;
    Distribute(total, blocks, bs);
    if 0 <= blocks {
      MulMonotone(0, blocks, bs);
      if total + blocks < TWO_32 {
        BlockBytesMonotone(total + blocks, TWO_32, bs);
      } else {
        MulMonotone(TWO_32, total + blocks, bs);
      }
    } else {
      MulMonotone(blocks, -1, bs);
    }
  }

  /** A file whose counts announce one more chunk: the table is undisturbed, but the file cannot be opened. */
  lemma CountsWritten(file: bytes, bs: nat, cs: seq<Chunk>, blocks: nat)
    requires HeaderFor(file, bs) && Table(file, bs, cs) && EndOf(cs) == |file| && U32(file, 20) == |cs|
    requires blocks < TWO_32 && |cs| + 1 < TWO_32
    ensures var f := PatchCounts(file, blocks, |cs| + 1);
      && HeaderFor(f, bs) && Table(f, bs, cs) && Expand(f, bs, cs) == Expand(file, bs, cs)
      && Parse(f).Err? && f != file
  {
    hide Table, Expand, Parse, PatchCounts;
    PatchedKeepsTable(file, bs, cs, blocks, |cs| + 1);
    PatchedCounts(file, bs, blocks, |cs| + 1);
    OverrunFails(PatchCounts(file, blocks, |cs| + 1), bs, cs);
  }

  /** Stale counts do not disturb the table. */
  lemma PatchedKeepsTable(file: bytes, bs: nat, cs: seq<Chunk>, blocks: nat, count: nat)
    requires HeaderFor(file, bs) && Table(file, bs, cs) && EndOf(cs) == |file|
    requires blocks < TWO_32 && count < TWO_32
    ensures var f := PatchCounts(file, blocks, count);
      HeaderFor(f, bs) && Table(f, bs, cs) && Expand(f, bs, cs) == Expand(file, bs, cs)
  {
    hide Table, Expand;
    PatchedCounts(file, bs, blocks, count);
    TableFrame(file, PatchCounts(file, blocks, count), bs, cs);
  }

  lemma FillStands(size: int, fillData: bytes)
    requires |fillData| == 4 && size % 4 == 0
    ensures size >= 0 ==> Stands(TYPE_FILL, size, fillData) == Repeat(fillData, size / 4)
  {
  }

  lemma StillParses(h: ImageHandler)
    requires h.Valid() && h.isSparse
    ensures Parse(h.file).Ok?
  {
    ParseFindsTable(h.file, h.blockSize, h.chunks);
  }

  lemma QuotientSign(n: nat, d: nat)
    requires d > 0
    ensures n / d >= 0
  {
    if n / d < 0 {
      MulMonotone(n / d, -1, d);
    }
  }

  /** A well-formed sparse file counts as complete once parsed. */
  lemma SparseFileIsComplete(file: bytes, bs: nat, cs: seq<Chunk>)
    requires SparseFile(file, bs, cs)
    ensures Parse(file).Ok? && Complete(file, Parse(file).value) && MagicPrefix(file)
  {
    hide Parse, Describes, Table;
    ParseFindsTable(file, bs, cs);
    forall i | 0 <= i < |cs| && cs[i].Fill?
      ensures |cs[i].fillData| == 4
    {
      TableAt(file, bs, cs, i);
      DescribedFill(file, bs, cs[i]);
    }
  }

  lemma DescribedFill(file: bytes, bs: nat, c: Chunk)
    requires Describes(file, bs, c)
    ensures c.Fill? ==> |c.fillData| == 4
    ensures c.Raw? ==> c.inputOffset + c.outputSize <= |file|
  {
  }

  /** A file without the sparse magic is opened as a flat file, if it is long enough for a header. */
  lemma FlatParses(file: bytes)
    requires !MagicPrefix(file)
    ensures Parse(file).Ok? <==> |file| >= HEADER_SIZE
  {
  }

  /** The image bytes a new chunk stands for. */
  function Stands(kind: nat, size: int, payload: bytes): bytes
    requires kind == TYPE_FILL ==> |payload| == 4
  {
    if kind == TYPE_RAW then payload
    else if kind == TYPE_FILL && size >= 0 then seq(size, k requires 0 <= k => payload[k % 4])
    else Zeros(size)
  }

  /** The two writes of an append operation, after the counts were patched. */
  function AppendedFile(file: bytes, kind: nat, blocks: nat, payload: bytes, totalBlocks: nat, totalChunks: nat): bytes
    requires |file| >= HEADER_SIZE
  {
    var p := PatchCounts(file, totalBlocks, totalChunks);
    WriteAt(WriteAt(p, |p|, ChunkHeader(kind, blocks, CHUNK_HEADER_SIZE + |payload|)), |p| + CHUNK_HEADER_SIZE, payload)
  }

  /** What an append operation leaves behind is a well-formed sparse file with one more chunk. */
  lemma AppendKind(file: bytes, bs: nat, cs: seq<Chunk>, kind: nat, size: nat, payload: bytes, totalBlocks: nat)
    requires HeaderFor(file, bs) && Table(file, bs, cs) && EndOf(cs) == |file|
    requires kind in {TYPE_RAW, TYPE_FILL, TYPE_DONT_CARE}
    requires |payload| == if kind == TYPE_RAW then size else if kind == TYPE_FILL then 4 else 0
    requires size % bs == 0 && size / bs < TWO_32 && size == BlockBytes(size / bs, bs)
    requires CHUNK_HEADER_SIZE + |payload| < TWO_32 && totalBlocks < TWO_32 && |cs| + 1 < TWO_32
    requires BlockBytes(totalBlocks, bs) == SizeOf(cs) + size
    ensures var f := AppendedFile(file, kind, size / bs, payload, totalBlocks, |cs| + 1);
      && MagicPrefix(f) && Parse(f).Ok? && Complete(f, Parse(f).value)
      && Parse(f).value.SparseView? && Parse(f).value.blockSize == bs
      && |Parse(f).value.chunks| == |cs| + 1
      && Table(f, bs, Parse(f).value.chunks)
      && Expand(f, bs, Parse(f).value.chunks) == Expand(file, bs, cs) + Stands(kind, size, payload)
  {
    hide BlockBytes, Table, Expand, Describes, Parse, PatchCounts, ChunkHeader;
    var c :=
      if kind == TYPE_RAW then Raw(|file|, SizeOf(cs), size, |file| + CHUNK_HEADER_SIZE)
      else if kind == TYPE_FILL then Fill(|file|, SizeOf(cs), size, payload)
      else DontCare(|file|, SizeOf(cs), size);
    var f := AppendedFile(file, kind, size / bs, payload, totalBlocks, |cs| + 1);
    assert f == Appended(file, c, size / bs, payload, totalBlocks, |cs| + 1);
    AppendChunk(file, bs, cs, c, size / bs, payload, totalBlocks);
    ParseFindsTable(f, bs, cs + [c]);
    SparseFileIsComplete(f, bs, cs + [c]);
  }

  /** Chunk offsets are sorted, as bisection needs. */
  lemma OffsetsSorted(file: bytes, bs: nat, cs: seq<Chunk>, offsets: seq<nat>)
    requires Table(file, bs, cs) && |offsets| == |cs|
    requires forall i :: 0 <= i < |cs| ==> offsets[i] == cs[i].outputOffset
    ensures forall j, k :: 0 <= j < k < |offsets| ==> offsets[j] <= offsets[k]
  {
    hide Table, Describes;
    forall j, k | 0 <= j < k < |offsets|
      ensures offsets[j] <= offsets[k]
    {
      TablePrefix(file, bs, cs, k);
      TableAt(file, bs, cs, k);
      TableAt(file, bs, cs[..k], j);
      assert cs[..k][j] == cs[j];
    }
  }

  /** Chunk `i` starts where its predecessor ends. */
  lemma NextChunk(file: bytes, bs: nat, cs: seq<Chunk>, i: nat)
    requires Table(file, bs, cs) && i < |cs|
    ensures cs[i].outputOffset == if i == 0 then 0 else OutputEnd(cs[i - 1])
  {
    hide Table, Describes;
    TableAt(file, bs, cs, i);
    if i > 0 {
      assert cs[..i][|cs[..i]| - 1] == cs[i - 1];
    }
  }

  /** The chunk bisection finds for a position contains it, unless the position is past the end. */
  lemma BisectFinds(file: bytes, bs: nat, cs: seq<Chunk>, offsets: seq<nat>, pos: nat, above: nat)
    requires Table(file, bs, cs) && |offsets| == |cs| && above <= |cs|
    requires forall i :: 0 <= i < |cs| ==> offsets[i] == cs[i].outputOffset
    requires forall k :: 0 <= k < above ==> offsets[k] <= pos
    requires forall k :: above <= k < |offsets| ==> pos < offsets[k]
    ensures above == 0 <==> cs == []
    ensures above > 0 ==> cs[above - 1].outputOffset <= pos
    ensures above > 0 && pos <= SizeOf(cs) ==> pos <= OutputEnd(cs[above - 1])
    ensures pos > SizeOf(cs) ==> above == |cs|
  {
    hide Table, Describes;
    if cs != [] {
      NextChunk(file, bs, cs, 0);
      assert offsets[0] == 0;
      if above < |cs| {
        TableAt(file, bs, cs, above);
        NextChunk(file, bs, cs, above);
        assert pos < offsets[above];
      }
    }
  }

  /** What a read past the end of a sparse image gets from its last chunk. */
  ghost function PastEnd(file: bytes, bs: nat, cs: seq<Chunk>, offset: nat): Result<bytes>
    requires Table(file, bs, cs) && cs != [] && offset > SizeOf(cs)
  {
    var c := cs[|cs| - 1];
    TableAt(file, bs, cs, |cs| - 1);
    DescribedFill(file, bs, c);
    ReadPiece(file, c, offset - c.outputOffset, OutputEnd(c) - offset)
  }

  /** One round of `read` inside the image extends the data by the next stretch of the flat image. */
  lemma ReadRound(file: bytes, bs: nat, cs: seq<Chunk>, i: nat, off: nat, n: nat, start: nat)
    requires Table(file, bs, cs) && i < |cs| && off + n <= cs[i].outputSize
    requires start <= cs[i].outputOffset + off
    requires cs[i].Raw? ==> cs[i].inputOffset + cs[i].outputSize <= |file|
    requires cs[i].Fill? ==> |cs[i].fillData| == 4
    ensures cs[i].outputOffset + off + n <= SizeOf(cs)
    ensures var at := cs[i].outputOffset + off;
      && ReadPiece(file, cs[i], off, n).Ok?
      && Expand(file, bs, cs)[start..at] + ReadPiece(file, cs[i], off, n).value == Expand(file, bs, cs)[start..at + n]
  {
    hide Table, Describes, Expand, BlockBytes, ReadPiece, ChunkBytes;
    ExpandSlice(file, bs, cs, i);
    ReadPieceInside(file, cs[i], off, n);
    var e, at := Expand(file, bs, cs), cs[i].outputOffset + off;
    SliceOfSlice(e, cs[i].outputOffset, OutputEnd(cs[i]), off, off + n);
    SlicesJoin(e, start, at, at + n);
  }

  /** What reading chunk `i` relies on. */
  lemma ChunkInside(file: bytes, bs: nat, cs: seq<Chunk>, i: nat)
    requires Table(file, bs, cs) && i < |cs|
    ensures OutputEnd(cs[i]) <= SizeOf(cs)
    ensures cs[i].Fill? ==> |cs[i].fillData| == 4
    ensures cs[i].Raw? ==> cs[i].inputOffset + cs[i].outputSize <= |file|
  {
    hide Table, Describes;
    TableAt(file, bs, cs, i);
    DescribedFill(file, bs, cs[i]);
  }

  /** Chunks, and so images, are whole numbers of blocks. */
  lemma {:induction false} MultipleOfBlocks(file: bytes, bs: nat, cs: seq<Chunk>)
    requires Table(file, bs, cs) && bs > 0
    ensures SizeOf(cs) % bs == 0
    ensures forall i :: 0 <= i < |cs| ==> cs[i].outputSize % bs == 0
  {
    if cs != [] {
      var c := cs[|cs| - 1];
      MultipleOfBlocks(file, bs, cs[..|cs| - 1]);
      MultipleDivides(U32(file, c.chunkOffset + 4), bs);
      MultiplesAdd(SizeOf(cs[..|cs| - 1]), c.outputSize, bs);
      assert forall i :: 0 <= i < |cs| - 1 ==> cs[..|cs| - 1][i] == cs[i];
    }
  }

  /** The chunks that stay when the image is cut `keep` bytes into chunk `idx`. */
  function KeptChunks(cs: seq<Chunk>, idx: nat, keep: nat): seq<Chunk>
    requires idx < |cs|
  {
    if keep == 0 then cs[..idx] else cs[..idx] + [CutChunk(cs[idx], keep)]
  }

  /** Whole blocks, one after the other: what recounting relies on. */
  ghost predicate Blocky(cs: seq<Chunk>, bs: nat)
    requires bs > 0
  {
    forall i :: 0 <= i < |cs| ==> cs[i].outputSize % bs == 0 && cs[i].outputOffset == SizeOf(cs[..i])
  }

  lemma KeptBlocky(file: bytes, bs: nat, cs: seq<Chunk>, idx: nat, keep: nat)
    requires Table(file, bs, cs) && bs > 0 && idx < |cs| && keep % bs == 0
    ensures Blocky(KeptChunks(cs, idx, keep), bs)
    ensures SizeOf(KeptChunks(cs, idx, keep)) == cs[idx].outputOffset + keep
  {
    hide Table, Describes;
    var kept := KeptChunks(cs, idx, keep);
    MultipleOfBlocks(file, bs, cs);
    TableAt(file, bs, cs, idx);
    forall i | 0 <= i < |kept|
      ensures kept[i].outputSize % bs == 0 && kept[i].outputOffset == SizeOf(kept[..i])
    {
      TableAt(file, bs, cs, i);
      assert kept[..i] == cs[..i];
    }
  }

  /** What a cut at `size`, inside chunk `idx` or at its start, has to keep. */
  lemma CutArithmetic(file: bytes, bs: nat, cs: seq<Chunk>, idx: nat, size: nat)
    requires Table(file, bs, cs) && bs > 0 && idx < |cs| && size % bs == 0 && |file| >= HEADER_SIZE
    requires cs[idx].outputOffset <= size && size < SizeOf(cs)
    requires idx + 1 < |cs| ==> size < cs[idx + 1].outputOffset
    ensures var keep := size - cs[idx].outputOffset;
      && keep % bs == 0 && keep / bs >= 0 && BlockBytes(keep / bs, bs) == keep < cs[idx].outputSize
      && HEADER_SIZE <= cs[idx].chunkOffset <= FileEnd(cs[idx]) <= |file|
      && keep / bs <= U32(file, cs[idx].chunkOffset + 4)
      && Blocky(KeptChunks(cs, idx, keep), bs)
      && SizeOf(KeptChunks(cs, idx, keep)) == size
  {
    hide Table, Blocky, BlockBytes, KeptChunks;
    TableAt(file, bs, cs, idx);
    DescribedSize(file, bs, cs[idx]);
    hide Describes;
    TablePrefix(file, bs, cs, idx);
    TableInside(file, bs, cs);
    if idx + 1 < |cs| {
      NextChunk(file, bs, cs, idx + 1);
    }
    MultipleOfBlocks(file, bs, cs[..idx]);
    MultiplesAdd(size, cs[idx].outputOffset, bs);
    var keep := size - cs[idx].outputOffset;
    KeepFits(keep, bs, U32(file, cs[idx].chunkOffset + 4));
    KeptBlocky(file, bs, cs, idx, keep);
  }

  lemma DescribedSize(file: bytes, bs: nat, c: Chunk)
    requires Describes(file, bs, c)
    ensures c.chunkOffset + CHUNK_HEADER_SIZE <= FileEnd(c) <= |file|
    ensures c.outputSize == BlockBytes(U32(file, c.chunkOffset + 4), bs)
  {
  }

  lemma KeepFits(keep: nat, bs: nat, blocks: nat)
    requires bs > 0 && keep % bs == 0 && keep < BlockBytes(blocks, bs)
    ensures keep / bs >= 0 && BlockBytes(keep / bs, bs) == keep && keep / bs <= blocks
  {
    WholeBlocks(keep, bs);
    if keep / bs > blocks {
      MulMonotone(blocks, keep / bs, bs);
    }
  }

  lemma BlocksOfNothing(bs: nat)
    ensures BlockBytes(0, bs) == 0
  {
  }

  lemma WholeBlocks(size: nat, bs: nat)
    requires bs > 0 && size % bs == 0
    ensures size / bs >= 0 && BlockBytes(size / bs, bs) == size
  {
  }

  /** File `f` is a complete sparse file whose image is the first `size` bytes of the image of `cs`. */
  ghost predicate IsCut(f: bytes, file: bytes, bs: nat, cs: seq<Chunk>, size: nat)
    requires Table(file, bs, cs) && size <= SizeOf(cs)
  {
    && MagicPrefix(f) && Parse(f).Ok? && Complete(f, Parse(f).value) && Parse(f).value.SparseView?
    && Parse(f).value.blockSize == bs && |Parse(f).value.chunks| <= |cs|
    && Table(f, bs, Parse(f).value.chunks)
    && Expand(f, bs, Parse(f).value.chunks) == Expand(file, bs, cs)[..size]
  }

  /** Cutting at a chunk boundary leaves a well-formed sparse file for the cut image. */
  lemma BoundaryCut(file: bytes, bs: nat, cs: seq<Chunk>, idx: nat, total: nat)
    requires HeaderFor(file, bs) && Table(file, bs, cs) && idx < |cs| < TWO_32 && EndOf(cs) == |file|
    requires total < TWO_32 && BlockBytes(total, bs) == cs[idx].outputOffset
    ensures HEADER_SIZE <= cs[idx].chunkOffset <= |file| && cs[idx].outputOffset <= SizeOf(cs)
    ensures IsCut(PatchCounts(file, total, idx)[..cs[idx].chunkOffset], file, bs, cs, cs[idx].outputOffset)
  {
    hide Table, Expand, Describes, BlockBytes, Parse, PatchCounts, HeaderFor;
    TableAt(file, bs, cs, idx);
    TableInside(file, bs, cs);
    CutAtBoundary(file, bs, cs, idx, total);
    var f := PatchCounts(file, total, idx)[..cs[idx].chunkOffset];
    ParseFindsTable(f, bs, cs[..idx]);
    SparseFileIsComplete(f, bs, cs[..idx]);
  }

  /** ... and so does cutting in the middle of a chunk. */
  lemma MiddleCut(file: bytes, bs: nat, cs: seq<Chunk>, idx: nat, keep: nat, total: nat)
    requires HeaderFor(file, bs) && Table(file, bs, cs) && idx < |cs| < TWO_32 && EndOf(cs) == |file|
    requires 0 < keep < cs[idx].outputSize && keep % bs == 0 && BlockBytes(keep / bs, bs) == keep
    requires cs[idx].chunkOffset + 8 <= |file| && 0 <= keep / bs <= U32(file, cs[idx].chunkOffset + 4)
    requires total < TWO_32 && BlockBytes(total, bs) == cs[idx].outputOffset + keep
    ensures HEADER_SIZE <= cs[idx].chunkOffset && FileEnd(CutChunk(cs[idx], keep)) <= |file|
    ensures cs[idx].outputOffset + keep <= SizeOf(cs)
    ensures IsCut(CutFile(file, cs, idx, keep, keep / bs, total), file, bs, cs, cs[idx].outputOffset + keep)
  {
    hide Table, Expand, Describes, BlockBytes, Parse, CutFile;
    TableAt(file, bs, cs, idx);
    CutInMiddle(file, bs, cs, idx, keep, keep / bs, total);
    var f := CutFile(file, cs, idx, keep, keep / bs, total);
    ParseFindsTable(f, bs, cs[..idx] + [CutChunk(cs[idx], keep)]);
    SparseFileIsComplete(f, bs, cs[..idx] + [CutChunk(cs[idx], keep)]);
  }

  /** The recounted total fits its field when the size before the cut did. */
  lemma KeptBlocks(total: nat, size: nat, bs: nat)
    requires bs > 0 && BlockBytes(total, bs) == size < BlockBytes(TWO_32, bs)
    ensures total < TWO_32
  {
    if total >= TWO_32 {
      MulMonotone(TWO_32, total, bs);
    }
  }

  lemma BeforeNothing(r: Result<Scanned>)
    ensures Before([], r) == r
  {
    assert r.Ok? ==> [] + r.value.chunks == r.value.chunks;
  }

  /** Everything a handler of a completely parsed sparse file knows. */
  lemma ParseComplete(file: bytes)
    requires Parse(file).Ok? && Parse(file).value.SparseView? && Complete(file, Parse(file).value)
    ensures var v := Parse(file).value;
      && HeaderFor(file, v.blockSize) && Table(file, v.blockSize, v.chunks)
      && v.sparseEnd == EndOf(v.chunks) == |file|
      && v.imageSize == SizeOf(v.chunks) == BlockBytes(U32(file, 16), v.blockSize)
      && v.imageSize < BlockBytes(TWO_32, v.blockSize)
      && U32(file, 20) == |v.chunks|
  {
    hide ReadChunk, Table, Scan;
    ParseSound(file);
    BlockBytesMonotone(U32(file, 16), TWO_32, Parse(file).value.blockSize);
  }

  lemma BlockBytesMonotone(a: nat, b: nat, bs: nat)
    requires a < b && bs > 0
    ensures BlockBytes(a, bs) < BlockBytes(b, bs)
  {
    MulMonotone(a + 1, b, bs);
    Distribute(a, 1, bs);
  }
}
