/** tools/avbtool: the AVB descriptors, their encoders and parsers. Text is its UTF-8 encoding. */
module Descriptors {
  import opened Bytes
  import opened Results
  import opened Struct

  /** Python's hashlib as far as it matters: names, digest sizes, and the digests themselves. The shortest digest it
      has is MD5's. */
  datatype Hashlib = Hashlib(
    hashSize: bytes -> Option<nat>, hash: (bytes, bytes) -> bytes,
    treeHashSize: bytes -> Option<nat>, treeHash: (bytes, bytes) -> bytes)
  {
    ghost predicate Valid() {
      && (forall name, data :: hashSize(name).Some? ==> |hash(name, data)| == hashSize(name).value)
      && (forall name, data :: treeHashSize(name).Some? ==> |treeHash(name, data)| == treeHashSize(name).value)
      && (forall name :: treeHashSize(name).Some? ==> treeHashSize(name).value >= 16)
    }
  }

  datatype Descriptor =
    | Property(key: bytes, value: bytes)
    | Hashtree(dmVerityVersion: nat, imageSize: nat, treeOffset: nat, treeSize: nat, dataBlockSize: nat,
               hashBlockSize: nat, fecNumRoots: nat, fecOffset: nat, fecSize: nat, hashAlgorithm: bytes,
               partitionName: bytes, salt: bytes, rootDigest: bytes, flags: nat)
    | Hash(imageSize: nat, hashAlgorithm: bytes, partitionName: bytes, salt: bytes, digest: bytes, flags: nat)
    | KernelCmdline(flags: nat, kernelCmdline: bytes)
    | ChainPartition(rollbackIndexLocation: nat, partitionName: bytes, publicKey: bytes, flags: nat)
    | Unknown(tag: nat, data: bytes)

  const NUM_CLASSES := 5
  const HEADER := 16

  function Tag(d: Descriptor): nat {
    match d
    case Property(_, _) => 0
    case Hashtree(_, _, _, _, _, _, _, _, _, _, _, _, _, _) => 1
    case Hash(_, _, _, _, _, _) => 2
    case KernelCmdline(_, _) => 3
    case ChainPartition(_, _, _, _) => 4
    case Unknown(tag, _) => tag
  }

  /** The class that encodes a descriptor; the generic one encodes any tag. */
  function Class(d: Descriptor): nat { if d.Unknown? then NUM_CLASSES else Tag(d) }

  /** Widths of the fixed fields, by class. */
  function Format(tag: nat): seq<nat> {
    if tag == 0 then [8, 8, 8, 8]
    else if tag == 1 then [8, 8, 4, 8, 8, 8, 4, 4, 4, 8, 8, 32, 4, 4, 4, 4, 60]
    else if tag == 2 then [8, 8, 8, 32, 4, 4, 4, 4, 60]
    else if tag == 3 then [8, 8, 4, 4]
    else if tag == 4 then [8, 8, 4, 4, 4, 4, 60]
    else [8, 8]
  }

  /** `SIZE` of the descriptor classes. */
  function Size(tag: nat): nat {
    if tag == 0 then 32 else if tag == 1 then 180 else if tag == 2 then 132
    else if tag == 3 then 24 else if tag == 4 then 92 else 16
  }

  /** What the classes assert: the format string has the declared size. */
  lemma FormatSize(tag: nat)
    ensures Total(Format(tag)) == Size(tag)
  {
    hide Total;
    if tag == 0 {
      TotalOfFour(8, 8, 8, 8);
    } else if tag == 1 {
      SizeOfHashtreeFormat();
    } else if tag == 2 {
      SizeOfHashFormat();
    } else if tag == 3 {
      TotalOfFour(8, 8, 4, 4);
    } else if tag == 4 {
      TotalOfFour(8, 8, 4, 4);
      TotalOfThree(4, 4, 60);
      TotalConcat([8, 8, 4, 4], [4, 4, 60]);
      assert Format(4) == [8, 8, 4, 4] + [4, 4, 60];
    } else {
      TotalOfTwo(8, 8);
    }
  }

  lemma SizeOfHashtreeFormat()
    ensures Total(Format(1)) == 180
  {
    hide Total;
    var a, b, c, d := [8, 8, 4, 8], [8, 8, 4, 4], [4, 8, 8, 32], [4, 4, 4, 4, 60];
    TotalOfFour(8, 8, 4, 8);
    TotalOfFour(8, 8, 4, 4);
    TotalOfFour(4, 8, 8, 32);
    TotalOfFive(4, 4, 4, 4, 60);
    TotalConcat(a, b);
    TotalConcat(a + b, c);
    TotalConcat(a + b + c, d);
    assert Format(1) == a + b + c + d;
  }

  lemma SizeOfHashFormat()
    ensures Total(Format(2)) == 132
  {
    hide Total;
    TotalOfFour(8, 8, 8, 32);
    TotalOfFive(4, 4, 4, 4, 60);
    TotalConcat([8, 8, 8, 32], [4, 4, 4, 4, 60]);
    assert Format(2) == [8, 8, 8, 32] + [4, 4, 4, 4, 60];
  }

  // ---------------------------------------------------------------- encoding

  /** The variable part behind the fixed fields. */
  function Payload(d: Descriptor): bytes {
    match d
    case Property(key, value) => key + [0] + value + [0]
    case Hashtree(_, _, _, _, _, _, _, _, _, _, name, salt, digest, _) => name + salt + digest
    case Hash(_, _, name, salt, digest, _) => name + salt + digest
    case KernelCmdline(_, cmdline) => cmdline
    case ChainPartition(_, name, key, _) => name + key
    case Unknown(_, data) => data
  }

  /** `num_bytes_following`, before and after padding. */
  function Following(d: Descriptor): nat { Size(Class(d)) - HEADER + |Payload(d)| }

  function PaddedFollowing(d: Descriptor): nat { RoundUp(Following(d), 8) }

  /** The fixed fields. */
  function Fields(d: Descriptor): seq<bytes> {
    var tag, nbf := BE(8, Tag(d)), BE(8, PaddedFollowing(d));
    match d
    case Property(key, value) => [tag, nbf, BE(8, |key|), BE(8, |value|)]
    case Hashtree(version, imageSize, treeOffset, treeSize, dataBs, hashBs, roots, fecOffset, fecSize, alg, name, salt, digest, flags) =>
      [tag, nbf, BE(4, version), BE(8, imageSize), BE(8, treeOffset), BE(8, treeSize), BE(4, dataBs), BE(4, hashBs),
       BE(4, roots), BE(8, fecOffset), BE(8, fecSize), Fixed(alg, 32), BE(4, |name|), BE(4, |salt|), BE(4, |digest|),
       BE(4, flags), Zeros(60)]
    case Hash(imageSize, alg, name, salt, digest, flags) =>
      [tag, nbf, BE(8, imageSize), Fixed(alg, 32), BE(4, |name|), BE(4, |salt|), BE(4, |digest|), BE(4, flags), Zeros(60)]
    case KernelCmdline(flags, cmdline) => [tag, nbf, BE(4, flags), BE(4, |cmdline|)]
    case ChainPartition(location, name, key, flags) =>
      [tag, nbf, BE(4, location), BE(4, |name|), BE(4, |key|), BE(4, flags), Zeros(60)]
    case Unknown(_, _) => [tag, nbf]
  }

  /** What `struct.pack` insists on. */
  predicate InRange(d: Descriptor) {
    && Tag(d) < TWO_64 && PaddedFollowing(d) < TWO_64
    && match d
       case Property(key, value) => |key| < TWO_64 && |value| < TWO_64
       case Hashtree(version, imageSize, treeOffset, treeSize, dataBs, hashBs, roots, fecOffset, fecSize, _, name, salt, digest, flags) =>
         && version < TWO_32 && imageSize < TWO_64 && treeOffset < TWO_64 && treeSize < TWO_64
         && dataBs < TWO_32 && hashBs < TWO_32 && roots < TWO_32 && fecOffset < TWO_64 && fecSize < TWO_64
         && |name| < TWO_32 && |salt| < TWO_32 && |digest| < TWO_32 && flags < TWO_32
       case Hash(imageSize, _, name, salt, digest, flags) =>
         imageSize < TWO_64 && |name| < TWO_32 && |salt| < TWO_32 && |digest| < TWO_32 && flags < TWO_32
       case KernelCmdline(flags, cmdline) => flags < TWO_32 && |cmdline| < TWO_32
       case ChainPartition(location, name, key, flags) =>
         location < TWO_32 && |name| < TWO_32 && |key| < TWO_32 && flags < TWO_32
       case Unknown(_, _) => true
  }

  function Encoded(d: Descriptor): bytes {
    Join(Fields(d)) + Payload(d) + Zeros(PaddedFollowing(d) - Following(d))
  }

  /** The `encode` methods. */
  function Encode(d: Descriptor): (r: Result<bytes>) {
    if (d.Hash? || d.Hashtree?) && !Ascii(d.hashAlgorithm) then Err(ValueError)
    else if !InRange(d) then Err(StructError)
    else Ok(Encoded(d))
  }

  lemma FieldWidths(d: Descriptor)
    ensures Widths(Fields(d)) == Format(Class(d))
  {
    hide BE, Fixed, Following, PaddedFollowing;
  }

  /** Where the parts of an encoding are. */
  lemma EncodedLayout(d: Descriptor)
    ensures |Encoded(d)| == HEADER + PaddedFollowing(d)
    ensures |Encoded(d)| >= Size(Class(d)) + |Payload(d)|
    ensures Total(Format(Class(d))) == Size(Class(d))
    ensures Split(Format(Class(d)), Encoded(d)[..Size(Class(d))]) == Fields(d)
    ensures Encoded(d)[Size(Class(d))..Size(Class(d)) + |Payload(d)|] == Payload(d)
  {
    hide Fields, Payload, Format, Size, Class;
    var e, head := Encoded(d), Join(Fields(d));
    FieldWidths(d);
    FormatSize(Class(d));
    SplitJoin(Fields(d), []);
    assert head + [] == head == e[..|head|];
    SizeBound(Class(d));
  }

  lemma SizeBound(tag: nat)
    ensures Size(tag) >= HEADER
  {
  }

  /** Every encoding is a multiple of 8 long, at least a descriptor header. */
  lemma EncodedAligned(d: Descriptor)
    ensures |Encoded(d)| % 8 == 0 && |Encoded(d)| >= HEADER
  {
    hide Encoded, Following, Fields, Payload, Format, Size, Class;
    EncodedLayout(d);
  }

  // ---------------------------------------------------------------- parsing

  function ParseProperty(data: bytes): Result<Descriptor> {
    FormatSize(0);
    if |data| < Size(0) then Err(StructError)
    else
      var f := Split(Format(0), data[..Size(0)]);
      var keySize, valueSize := FromBE(f[2]), FromBE(f[3]);
      if FromBE(f[0]) != 0 || FromBE(f[1]) != RoundUp(Size(0) - HEADER + keySize + 1 + valueSize + 1, 8) then
        Err(LookupError)
      else
        var key := Clip(data, Size(0), Size(0) + keySize);
        if !Utf8(key) then Err(LookupError)
        else Ok(Property(key, Clip(data, Size(0) + keySize + 1, Size(0) + keySize + 1 + valueSize)))
  }

  function ParseHashtree(lib: Hashlib, data: bytes): Result<Descriptor> {
    FormatSize(1);
    if |data| < Size(1) then Err(StructError) else HashtreeFrom(lib, Split(Format(1), data[..Size(1)]), data)
  }

  /** The rest of the hashtree parser, once the fixed fields are cut. */
  function HashtreeFrom(lib: Hashlib, f: seq<bytes>, data: bytes): Result<Descriptor>
    requires |f| == 17
  {
    var nameLen, saltLen, digestLen := FromBE(f[12]), FromBE(f[13]), FromBE(f[14]);
    if FromBE(f[0]) != 1 || FromBE(f[1]) != RoundUp(Size(1) - HEADER + nameLen + saltLen + digestLen, 8) then
      Err(LookupError)
    else
      var alg := RStrip(f[11]);
      var o := Size(1) + nameLen;
      var name := Clip(data, Size(1), o);
      if !Ascii(alg) then Err(ValueError)
      else if !Utf8(name) then Err(LookupError)
      else if lib.treeHashSize(alg).None? then Err(ValueError)
      else if digestLen != lib.treeHashSize(alg).value && digestLen != 0 then Err(LookupError)
      else Ok(Hashtree(FromBE(f[2]), FromBE(f[3]), FromBE(f[4]), FromBE(f[5]), FromBE(f[6]), FromBE(f[7]),
                       FromBE(f[8]), FromBE(f[9]), FromBE(f[10]), alg, name, Clip(data, o, o + saltLen),
                       Clip(data, o + saltLen, o + saltLen + digestLen), FromBE(f[15])))
  }

  function ParseHash(lib: Hashlib, data: bytes): Result<Descriptor> {
    FormatSize(2);
    if |data| < Size(2) then Err(StructError) else HashFrom(lib, Split(Format(2), data[..Size(2)]), data)
  }

  /** The rest of the hash parser, once the fixed fields are cut. */
  function HashFrom(lib: Hashlib, f: seq<bytes>, data: bytes): Result<Descriptor>
    requires |f| == 9
  {
    var nameLen, saltLen, digestLen := FromBE(f[4]), FromBE(f[5]), FromBE(f[6]);
    if FromBE(f[0]) != 2 || FromBE(f[1]) != RoundUp(Size(2) - HEADER + nameLen + saltLen + digestLen, 8) then
      Err(LookupError)
    else
      var alg := RStrip(f[3]);
      var o := Size(2) + nameLen;
      var name := Clip(data, Size(2), o);
      if !Ascii(alg) then Err(ValueError)
      else if !Utf8(name) then Err(LookupError)
      else if lib.hashSize(alg).None? then Err(ValueError)
      else if digestLen != lib.hashSize(alg).value && digestLen != 0 then Err(LookupError)
      else Ok(Hash(FromBE(f[2]), alg, name, Clip(data, o, o + saltLen),
                   Clip(data, o + saltLen, o + saltLen + digestLen), FromBE(f[7])))
  }

  function ParseKernelCmdline(data: bytes): Result<Descriptor> {
    FormatSize(3);
    if |data| < Size(3) then Err(StructError)
    else
      var f := Split(Format(3), data[..Size(3)]);
      var len := FromBE(f[3]);
      if FromBE(f[0]) != 3 || FromBE(f[1]) != RoundUp(Size(3) - HEADER + len, 8) then Err(LookupError)
      else
        var cmdline := Clip(data, Size(3), Size(3) + len);
        if !Utf8(cmdline) then Err(LookupError) else Ok(KernelCmdline(FromBE(f[2]), cmdline))
  }

  function ParseChainPartition(data: bytes): Result<Descriptor> {
    FormatSize(4);
    if |data| < Size(4) then Err(StructError)
    else
      var f := Split(Format(4), data[..Size(4)]);
      var nameLen, keyLen := FromBE(f[3]), FromBE(f[4]);
      if FromBE(f[0]) != 4 || FromBE(f[1]) != RoundUp(Size(4) - HEADER + nameLen + keyLen, 8) then Err(LookupError)
      else
        var name := Clip(data, Size(4), Size(4) + nameLen);
        if !Utf8(name) then Err(LookupError)
        else Ok(ChainPartition(FromBE(f[2]), name, Clip(data, Size(4) + nameLen, Size(4) + nameLen + keyLen), FromBE(f[5])))
  }

  function ParseUnknown(data: bytes): Result<Descriptor> {
    if |data| < HEADER then Err(StructError)
    else Ok(Unknown(FromBE(data[..8]), Clip(data, HEADER, HEADER + FromBE(data[8..16]))))
  }

  /** Parses one descriptor's own bytes with the class its tag selects. */
  function ParseOne(lib: Hashlib, tag: nat, data: bytes): Result<Descriptor> {
    if tag == 0 then ParseProperty(data)
    else if tag == 1 then ParseHashtree(lib, data)
    else if tag == 2 then ParseHash(lib, data)
    else if tag == 3 then ParseKernelCmdline(data)
    else if tag == 4 then ParseChainPartition(data)
    else ParseUnknown(data)
  }

  /** Descriptors that survive encoding and parsing; the algorithm is known to be ASCII. */
  predicate Canonical(lib: Hashlib, d: Descriptor) {
    match d
    case Property(key, _) => Utf8(key)
    case Hashtree(_, _, _, _, _, _, _, _, _, alg, name, _, digest, _) =>
      Utf8(name) && FitsField(alg) && DigestFits(lib.treeHashSize(alg), digest)
    case Hash(_, alg, name, _, digest, _) =>
      Utf8(name) && FitsField(alg) && DigestFits(lib.hashSize(alg), digest)
    case KernelCmdline(_, cmdline) => Utf8(cmdline)
    case ChainPartition(_, name, _, _) => Utf8(name)
    case Unknown(tag, data) => tag >= NUM_CLASSES && |data| % 8 == 0
  }

  predicate FitsField(alg: bytes) { |alg| <= 32 && (alg != [] ==> alg[|alg| - 1] != 0) }

  predicate DigestFits(size: Option<nat>, digest: bytes) { size.Some? && (digest == [] || |digest| == size.value) }

  // ---------------------------------------------------------------- round trips

  /** Integers survive their fields. */
  lemma Fits4(v: nat)
    requires v < TWO_32
    ensures FromBE(BE(4, v)) == v
  {
    PowersOf256();
    BERoundTrip(4, v);
  }

  lemma Fits8(v: nat)
    requires v < TWO_64
    ensures FromBE(BE(8, v)) == v
  {
    PowersOf256();
    BERoundTrip(8, v);
  }

  /** Two neighbouring parts of the payload, cut at their lengths. */
  lemma PayloadParts(e: bytes, at: nat, a: bytes, b: bytes, c: bytes)
    requires at + |a| + |b| + |c| <= |e| && e[at..at + |a| + |b| + |c|] == a + b + c
    ensures Clip(e, at, at + |a|) == a
    ensures Clip(e, at + |a|, at + |a| + |b|) == b
    ensures Clip(e, at + |a| + |b|, at + |a| + |b| + |c|) == c
  {
    var p := e[at..at + |a| + |b| + |c|];
    SliceOfSlice(e, at, at + |p|, 0, |a|);
    SliceOfSlice(e, at, at + |p|, |a|, |a| + |b|);
    SliceOfSlice(e, at, at + |p|, |a| + |b|, |p|);
    assert p[0..|a|] == a && p[|a|..|a| + |b|] == b && p[|a| + |b|..|p|] == c;
  }

  /** Parsing an encoded descriptor gives it back exactly when it is canonical. */
  lemma ParseEncoded(lib: Hashlib, d: Descriptor)
    requires Encode(d).Ok?
    ensures ParseOne(lib, Tag(d), Encoded(d)) == Ok(d) <==> Canonical(lib, d)
  {
    match d
    case Property(key, value) => PropertyRoundTrip(d);
    case Hashtree(_, _, _, _, _, _, _, _, _, _, _, _, _, _) => HashtreeRoundTrip(lib, d);
    case Hash(_, _, _, _, _, _) => HashRoundTrip(lib, d);
    case KernelCmdline(_, _) => KernelCmdlineRoundTrip(d);
    case ChainPartition(_, _, _, _) => ChainPartitionRoundTrip(d);
    case Unknown(_, _) => UnknownRoundTrip(lib, d);
  }

  lemma PropertyRoundTrip(d: Descriptor)
    requires d.Property? && InRange(d)
    ensures ParseProperty(Encoded(d)) == if Utf8(d.key) then Ok(d) else Err(LookupError)
  {
    hide Encoded, BE, FromBE, Utf8, Fields, Format, Split, InRange, Clip, RoundUp;
    EncodedLayout(d);
    PropertyFieldsBack(d);
    var e := Encoded(d);
    assert Payload(d) == d.key + ([0] + d.value) + [0];
    PayloadParts(e, Size(0), d.key, [0] + d.value, [0]);
    PropertyValue(e, Size(0) + |d.key|, d.value);
    FieldCounts();
  }

  lemma PropertyFieldsBack(d: Descriptor)
    requires d.Property? && InRange(d)
    ensures var f := Fields(d);
      && |f| == 4 && FromBE(f[0]) == 0 && FromBE(f[1]) == PaddedFollowing(d)
      && FromBE(f[2]) == |d.key| && FromBE(f[3]) == |d.value|
  {
    hide BE, FromBE, PaddedFollowing;
    Fits8(0);
    Fits8(PaddedFollowing(d));
    Fits8(|d.key|);
    Fits8(|d.value|);
  }

  lemma PropertyValue(e: bytes, at: nat, value: bytes)
    requires Clip(e, at, at + |[0] + value|) == [0] + value && at + 1 + |value| <= |e|
    ensures Clip(e, at + 1, at + 1 + |value|) == value
  {
    assert e[at..at + 1 + |value|] == [0] + value;
    SliceOfSlice(e, at, at + 1 + |value|, 1, 1 + |value|);
  }

  lemma HashRoundTrip(lib: Hashlib, d: Descriptor)
    requires d.Hash? && Encode(d).Ok?
    ensures ParseHash(lib, Encoded(d)) == Ok(d) <==> Canonical(lib, d)
  {
    hide Encoded, BE, FromBE, Utf8, Fixed, RStrip, Fields, Format, Split, InRange, Clip, RoundUp, Ascii;
    EncodedLayout(d);
    HashFieldsBack(d);
    FixedRoundTrip(d.hashAlgorithm, 32);
    PayloadParts(Encoded(d), Size(2), d.partitionName, d.salt, d.digest);
    FieldCounts();
  }

  lemma FieldCounts()
    ensures |Format(0)| == 4 && |Format(1)| == 17 && |Format(2)| == 9 && |Format(4)| == 7
  {
  }

  lemma HashFieldsBack(d: Descriptor)
    requires d.Hash? && Encode(d).Ok?
    ensures var f := Fields(d);
      && |f| == 9 && FromBE(f[0]) == 2 && FromBE(f[1]) == PaddedFollowing(d) && FromBE(f[2]) == d.imageSize
      && f[3] == Fixed(d.hashAlgorithm, 32) && FromBE(f[4]) == |d.partitionName| && FromBE(f[5]) == |d.salt|
      && FromBE(f[6]) == |d.digest| && FromBE(f[7]) == d.flags
  {
    hide BE, FromBE, Fixed, PaddedFollowing;
    Fits8(2);
    Fits8(PaddedFollowing(d));
    Fits8(d.imageSize);
    Fits4(|d.partitionName|);
    Fits4(|d.salt|);
    Fits4(|d.digest|);
    Fits4(d.flags);
  }

  lemma HashtreeRoundTrip(lib: Hashlib, d: Descriptor)
    requires d.Hashtree? && Encode(d).Ok?
    ensures ParseHashtree(lib, Encoded(d)) == Ok(d) <==> Canonical(lib, d)
  {
    hide Encoded, BE, FromBE, Utf8, Fixed, RStrip, Fields, Format, Split, InRange, Clip, RoundUp, Ascii;
    EncodedLayout(d);
    HashtreeFieldsBack(d);
    FixedRoundTrip(d.hashAlgorithm, 32);
    PayloadParts(Encoded(d), Size(1), d.partitionName, d.salt, d.rootDigest);
    FieldCounts();
  }

  lemma HashtreeFieldsBack(d: Descriptor)
    requires d.Hashtree? && Encode(d).Ok?
    ensures var f := Fields(d);
      && |f| == 17 && FromBE(f[0]) == 1 && FromBE(f[1]) == PaddedFollowing(d)
      && FromBE(f[2]) == d.dmVerityVersion && FromBE(f[3]) == d.imageSize && FromBE(f[4]) == d.treeOffset
      && FromBE(f[5]) == d.treeSize && FromBE(f[6]) == d.dataBlockSize && FromBE(f[7]) == d.hashBlockSize
      && FromBE(f[8]) == d.fecNumRoots && FromBE(f[9]) == d.fecOffset && FromBE(f[10]) == d.fecSize
      && f[11] == Fixed(d.hashAlgorithm, 32) && FromBE(f[12]) == |d.partitionName| && FromBE(f[13]) == |d.salt|
      && FromBE(f[14]) == |d.rootDigest| && FromBE(f[15]) == d.flags
  {
    hide BE, FromBE, Fixed, PaddedFollowing;
    Fits8(1);
    Fits8(PaddedFollowing(d));
    Fits4(d.dmVerityVersion);
    Fits8(d.imageSize);
    Fits8(d.treeOffset);
    Fits8(d.treeSize);
    Fits4(d.dataBlockSize);
    Fits4(d.hashBlockSize);
    Fits4(d.fecNumRoots);
    Fits8(d.fecOffset);
    Fits8(d.fecSize);
    Fits4(|d.partitionName|);
    Fits4(|d.salt|);
    Fits4(|d.rootDigest|);
    Fits4(d.flags);
  }

  lemma KernelCmdlineRoundTrip(d: Descriptor)
    requires d.KernelCmdline? && InRange(d)
    ensures ParseKernelCmdline(Encoded(d)) == if Utf8(d.kernelCmdline) then Ok(d) else Err(LookupError)
  {
    hide Encoded, BE, FromBE, Utf8;
    EncodedLayout(d);
    Fits8(3);
    Fits8(PaddedFollowing(d));
    Fits4(d.flags);
    Fits4(|d.kernelCmdline|);
  }

  lemma ChainPartitionRoundTrip(d: Descriptor)
    requires d.ChainPartition? && InRange(d)
    ensures ParseChainPartition(Encoded(d)) == if Utf8(d.partitionName) then Ok(d) else Err(LookupError)
  {
    hide Encoded, BE, FromBE, Utf8, Fields, Format, Split, InRange, Clip, RoundUp;
    EncodedLayout(d);
    ChainFieldsBack(d);
    assert Payload(d) == d.partitionName + d.publicKey + [];
    PayloadParts(Encoded(d), Size(4), d.partitionName, d.publicKey, []);
    FieldCounts();
  }

  lemma ChainFieldsBack(d: Descriptor)
    requires d.ChainPartition? && InRange(d)
    ensures var f := Fields(d);
      && |f| == 7 && FromBE(f[0]) == 4 && FromBE(f[1]) == PaddedFollowing(d) && FromBE(f[2]) == d.rollbackIndexLocation
      && FromBE(f[3]) == |d.partitionName| && FromBE(f[4]) == |d.publicKey| && FromBE(f[5]) == d.flags
  {
    hide BE, FromBE, PaddedFollowing;
    Fits8(4);
    Fits8(PaddedFollowing(d));
    Fits4(d.rollbackIndexLocation);
    Fits4(|d.partitionName|);
    Fits4(|d.publicKey|);
    Fits4(d.flags);
  }

  lemma UnknownRoundTrip(lib: Hashlib, d: Descriptor)
    requires d.Unknown? && InRange(d)
    ensures ParseOne(lib, d.tag, Encoded(d)) == Ok(d) <==> Canonical(lib, d)
  {
    if d.tag >= NUM_CLASSES {
      hide BE, FromBE;
      Framing(d);
      assert Clip(Encoded(d), HEADER, HEADER + PaddedFollowing(d)) == d.data + Zeros(PaddedFollowing(d) - Following(d));
    } else {
      NeverUnknown(lib, d.tag, Encoded(d));
    }
  }

  /** The first two fields of every encoding: its tag, and how many bytes follow. */
  lemma Framing(d: Descriptor)
    requires InRange(d)
    ensures |Encoded(d)| == HEADER + PaddedFollowing(d)
    ensures FromBE(Encoded(d)[..8]) == Tag(d) && FromBE(Encoded(d)[8..16]) == PaddedFollowing(d)
  {
    hide BE, FromBE, Payload, Fields, PaddedFollowing, Format, Size;
    EncodedLayout(d);
    Fits8(Tag(d));
    PaddedFits(d);
    var f := Fields(d);
    FieldsStart(d);
    JoinFirstTwo(f);
    assert Encoded(d)[..8] == f[0] && Encoded(d)[8..16] == f[1];
  }

  lemma PaddedFits(d: Descriptor)
    requires InRange(d)
    ensures FromBE(BE(8, PaddedFollowing(d))) == PaddedFollowing(d)
  {
    Fits8(PaddedFollowing(d));
  }

  lemma FieldsStart(d: Descriptor)
    ensures |Fields(d)| >= 2 && Fields(d)[0] == BE(8, Tag(d)) && Fields(d)[1] == BE(8, PaddedFollowing(d))
  {
    hide BE, PaddedFollowing, Fixed;
  }

  lemma JoinFirstTwo(f: seq<bytes>)
    requires |f| >= 2
    ensures Join(f) == f[0] + f[1] + Join(f[2..])
  {
    assert f[1..][1..] == f[2..];
  }

  /** The five classes never produce the generic descriptor. */
  lemma NeverUnknown(lib: Hashlib, tag: nat, data: bytes)
    requires tag < NUM_CLASSES
    ensures ParseOne(lib, tag, data).Ok? ==> !ParseOne(lib, tag, data).value.Unknown?
  {
    hide FromBE, Utf8, RStrip, Split, Clip;
  }
}
