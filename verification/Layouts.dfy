/** The layouts of the formats, written out byte by byte at their offsets: what the encoders of the other modules
    produce, without the functions that produce it. */
module Layouts {
  import opened Bytes
  import opened Struct
  import opened Descriptors
  import opened VBMeta

  // ---------------------------------------------------------------- integers and slices

  /** The unsigned big-endian numbers of four and of eight bytes at an offset. */
  function Be32(s: bytes, at: nat): nat
    requires at + 4 <= |s|
  {
    0x100_0000 * s[at] as int + 0x1_0000 * s[at + 1] as int + 0x100 * s[at + 2] as int + s[at + 3] as int
  }

  function Be64(s: bytes, at: nat): nat
    requires at + 8 <= |s|
  {
    0x1_0000_0000 * Be32(s, at) + Be32(s, at + 4)
  }

  lemma NextDigit(s: bytes, k: nat)
    requires k < |s|
    ensures FromBE(s[..k + 1]) == 256 * FromBE(s[..k]) + s[k]
  {
    assert s[..k + 1][..k] == s[..k];
  }

  /** The most significant byte comes first. */
  lemma FourBytes(s: bytes)
    requires |s| >= 4
    ensures FromBE(s[..4]) == Be32(s, 0)
    ensures FromBE(s[..2]) == 256 * s[0] as int + s[1] as int
  {
    hide FromBE;
    NoDigits(s);
    NextDigit(s, 0);
    NextDigit(s, 1);
    NextDigit(s, 2);
    NextDigit(s, 3);
  }

  lemma TwoBytes(s: bytes)
    requires |s| == 2
    ensures FromBE(s) == 256 * s[0] as int + s[1] as int
  {
    hide FromBE;
    NoDigits(s);
    NextDigit(s, 0);
    NextDigit(s, 1);
    assert s[..2] == s;
  }

  lemma NoDigits(s: bytes)
    ensures FromBE(s[..0]) == 0
  {
  }

  lemma EightBytes(s: bytes)
    requires |s| == 8
    ensures FromBE(s) == Be64(s, 0)
  {
    hide FromBE;
    FourBytes(s);
    NextDigit(s, 4);
    NextDigit(s, 5);
    NextDigit(s, 6);
    NextDigit(s, 7);
    assert s[..8] == s;
  }

  lemma FourBytesAt(s: bytes, at: nat)
    requires at + 4 <= |s|
    ensures FromBE(s[at..at + 4]) == Be32(s, at)
  {
    hide FromBE;
    var f := s[at..at + 4];
    FourBytes(f);
    assert f[..4] == f;
    assert f[0] == s[at] && f[1] == s[at + 1] && f[2] == s[at + 2] && f[3] == s[at + 3];
  }

  lemma EightBytesAt(s: bytes, at: nat)
    requires at + 8 <= |s|
    ensures FromBE(s[at..at + 8]) == Be64(s, at)
  {
    hide FromBE;
    var f := s[at..at + 8];
    EightBytes(f);
    assert f[0] == s[at] && f[1] == s[at + 1] && f[2] == s[at + 2] && f[3] == s[at + 3];
    assert f[4] == s[at + 4] && f[5] == s[at + 5] && f[6] == s[at + 6] && f[7] == s[at + 7];
  }

  /** Written numbers, read at their place. */
  lemma Written32(s: bytes, at: nat, v: nat)
    requires at + 4 <= |s| && s[at..at + 4] == BE(4, v) && v < TWO_32
    ensures Be32(s, at) == v
  {
    hide BE, FromBE;
    var f := s[at..at + 4];
    Fits4(v);
    FourBytes(f);
    assert f[..4] == f;
    assert f[0] == s[at] && f[1] == s[at + 1] && f[2] == s[at + 2] && f[3] == s[at + 3];
  }

  lemma Written64(s: bytes, at: nat, v: nat)
    requires at + 8 <= |s| && s[at..at + 8] == BE(8, v) && v < TWO_64
    ensures Be64(s, at) == v
  {
    hide BE, FromBE;
    var f := s[at..at + 8];
    Fits8(v);
    EightBytes(f);
    assert f[0] == s[at] && f[1] == s[at + 1] && f[2] == s[at + 2] && f[3] == s[at + 3];
    assert f[4] == s[at + 4] && f[5] == s[at + 5] && f[6] == s[at + 6] && f[7] == s[at + 7];
  }

  /** Cutting, growing and overwriting, byte by byte. */
  lemma ResizeIs(s: bytes, n: nat, k: nat)
    requires k < n
    ensures Resize(s, n)[k] == if k < |s| then s[k] else 0
  {
  }

  lemma ClipIs(s: bytes, lo: nat, hi: nat)
    ensures |Clip(s, lo, hi)| == Max(Min(hi, |s|) - lo, 0)
    ensures forall k :: 0 <= k < |Clip(s, lo, hi)| ==> Clip(s, lo, hi)[k] == s[lo + k]
  {
  }

  lemma WriteAtIs(s: bytes, at: nat, data: bytes, k: nat)
    requires at <= |s| && k < |WriteAt(s, at, data)|
    ensures WriteAt(s, at, data)[k] == if at <= k < at + |data| then data[k - at] else s[k]
  {
  }

  // ---------------------------------------------------------------- fields one after the other

  /** `all` goes on at `at` with the fields from the `k`-th on. */
  ghost predicate From(all: bytes, at: nat, fields: seq<bytes>, k: nat, rest: bytes) {
    at <= |all| && k <= |fields| && all[at..] == Join(fields[k..]) + rest
  }

  /** The next field. */
  lemma Next(all: bytes, at: nat, fields: seq<bytes>, k: nat, rest: bytes)
    requires From(all, at, fields, k, rest) && k < |fields|
    ensures at + |fields[k]| <= |all| && all[at..at + |fields[k]|] == fields[k]
    ensures From(all, at + |fields[k]|, fields, k + 1, rest)
  {
    var f := fields[k..];
    assert f[0] == fields[k] && f[1..] == fields[k + 1..];
    assert all[at..] == fields[k] + (Join(fields[k + 1..]) + rest);
    assert all[at..][..|fields[k]|] == fields[k];
    assert all[at..][|fields[k]|..] == Join(fields[k + 1..]) + rest;
    assert all[at + |fields[k]|..] == all[at..][|fields[k]|..];
  }

  lemma Next32(all: bytes, at: nat, fields: seq<bytes>, k: nat, rest: bytes, v: nat)
    requires From(all, at, fields, k, rest) && k < |fields| && fields[k] == BE(4, v) && v < TWO_32
    ensures at + 4 <= |all| && Be32(all, at) == v
    ensures From(all, at + 4, fields, k + 1, rest)
  {
    hide BE, From, Be32;
    Next(all, at, fields, k, rest);
    Written32(all, at, v);
  }

  lemma Next64(all: bytes, at: nat, fields: seq<bytes>, k: nat, rest: bytes, v: nat)
    requires From(all, at, fields, k, rest) && k < |fields| && fields[k] == BE(8, v) && v < TWO_64
    ensures at + 8 <= |all| && Be64(all, at) == v
    ensures From(all, at + 8, fields, k + 1, rest)
  {
    hide BE, From, Be64;
    Next(all, at, fields, k, rest);
    Written64(all, at, v);
  }

  /** Two numbers of eight bytes. */
  lemma NextExtent(all: bytes, at: nat, fields: seq<bytes>, k: nat, rest: bytes, e: Extent)
    requires From(all, at, fields, k, rest) && k < |fields| && fields[k] == ExtentField(e) && ExtentInRange(e)
    ensures at + 16 <= |all| && Be64(all, at) == e.offset && Be64(all, at + 8) == e.size
    ensures From(all, at + 16, fields, k + 1, rest)
  {
    hide BE, From, Be64;
    Next(all, at, fields, k, rest);
    var f := fields[k];
    assert f[..8] == BE(8, e.offset) && f[8..] == BE(8, e.size);
    assert all[at..at + 8] == f[..8] && all[at + 8..at + 16] == f[8..];
    Written64(all, at, e.offset);
    Written64(all, at + 8, e.size);
  }

  lemma Start(fields: seq<bytes>, rest: bytes)
    ensures From(Join(fields) + rest, 0, fields, 0, rest)
  {
    assert fields[0..] == fields;
  }

  lemma Rest(all: bytes, at: nat, fields: seq<bytes>, rest: bytes)
    requires From(all, at, fields, |fields|, rest)
    ensures all[at..] == rest
  {
    assert fields[|fields|..] == [];
    assert [] + rest == rest;
  }

  // ---------------------------------------------------------------- footer and header

  /** The footer: "AVBf" and five numbers. */
  lemma FooterLayout(f: Footer)
    requires FooterInRange(f)
    ensures var b := Join(FooterFields(f));
      && |b| == 64 && b[..4] == [0x41, 0x56, 0x42, 0x66]
      && Be32(b, 4) == f.versionMajor && Be32(b, 8) == f.versionMinor && Be64(b, 12) == f.originalImageSize
      && Be64(b, 20) == f.vbmetaOffset && Be64(b, 28) == f.vbmetaSize && b[36..] == Zeros(28)
  {
    hide BE, From, Be32, Be64, Join;
    var fs := FooterFields(f);
    var b := Join(fs);
    Start(fs, []);
    assert b + [] == b;
    Next(b, 0, fs, 0, []);
    Next32(b, 4, fs, 1, [], f.versionMajor);
    Next32(b, 8, fs, 2, [], f.versionMinor);
    Next64(b, 12, fs, 3, [], f.originalImageSize);
    Next64(b, 20, fs, 4, [], f.vbmetaOffset);
    Next64(b, 28, fs, 5, [], f.vbmetaSize);
    Next(b, 36, fs, 6, []);
    Rest(b, 64, fs, []);
  }

  /** The header: "AVB0", its numbers, and the release string in its field of 47 bytes. */
  lemma HeaderLayout(h: Header)
    requires HeaderInRange(h)
    ensures var b := Join(HeaderFields(h));
      && |b| == 256 && b[..4] == [0x41, 0x56, 0x42, 0x30]
      && Be32(b, 4) == h.versionMajor && Be32(b, 8) == h.versionMinor && Be64(b, 12) == h.authSize
      && Be64(b, 20) == h.auxSize && Be32(b, 28) == h.algorithmType
      && Be64(b, 32) == h.hash.offset && Be64(b, 40) == h.hash.size
      && Be64(b, 48) == h.signature.offset && Be64(b, 56) == h.signature.size
      && Be64(b, 64) == h.publicKey.offset && Be64(b, 72) == h.publicKey.size
      && Be64(b, 80) == h.metadata.offset && Be64(b, 88) == h.metadata.size
      && Be64(b, 96) == h.descriptors.offset && Be64(b, 104) == h.descriptors.size
      && Be64(b, 112) == h.rollbackIndex && Be32(b, 120) == h.flags && Be32(b, 124) == h.rollbackIndexLocation
      && b[128..175] == Resize(h.releaseString, 47) && b[175..] == Zeros(81)
  {
    hide BE, From, Be32, Be64, Join, ExtentField, Resize, HeaderFields;
    var fs := HeaderFields(h);
    var b := Join(fs);
    Start(fs, []);
    assert b + [] == b;
    HeaderNumbers(b, h);
    HeaderExtents(b, h);
    HeaderTail(b, h);
  }

  lemma HeaderNumbers(b: bytes, h: Header)
    requires HeaderInRange(h) && From(b, 0, HeaderFields(h), 0, [])
    ensures |b| >= 32 && From(b, 32, HeaderFields(h), 6, [])
    ensures && b[..4] == [0x41, 0x56, 0x42, 0x30]
            && Be32(b, 4) == h.versionMajor && Be32(b, 8) == h.versionMinor && Be64(b, 12) == h.authSize
            && Be64(b, 20) == h.auxSize && Be32(b, 28) == h.algorithmType
  {
    hide BE, From, Be32, Be64, Join, ExtentField, Fixed;
    var fs := HeaderFields(h);
    Next(b, 0, fs, 0, []);
    Next32(b, 4, fs, 1, [], h.versionMajor);
    Next32(b, 8, fs, 2, [], h.versionMinor);
    Next64(b, 12, fs, 3, [], h.authSize);
    Next64(b, 20, fs, 4, [], h.auxSize);
    Next32(b, 28, fs, 5, [], h.algorithmType);
  }

  lemma HeaderExtents(b: bytes, h: Header)
    requires HeaderInRange(h) && From(b, 32, HeaderFields(h), 6, [])
    ensures |b| >= 112 && From(b, 112, HeaderFields(h), 11, [])
    ensures && Be64(b, 32) == h.hash.offset && Be64(b, 40) == h.hash.size
            && Be64(b, 48) == h.signature.offset && Be64(b, 56) == h.signature.size
            && Be64(b, 64) == h.publicKey.offset && Be64(b, 72) == h.publicKey.size
            && Be64(b, 80) == h.metadata.offset && Be64(b, 88) == h.metadata.size
            && Be64(b, 96) == h.descriptors.offset && Be64(b, 104) == h.descriptors.size
  {
    hide BE, From, Be32, Be64, Join, ExtentField, Fixed;
    var fs := HeaderFields(h);
    NextExtent(b, 32, fs, 6, [], h.hash);
    NextExtent(b, 48, fs, 7, [], h.signature);
    NextExtent(b, 64, fs, 8, [], h.publicKey);
    NextExtent(b, 80, fs, 9, [], h.metadata);
    NextExtent(b, 96, fs, 10, [], h.descriptors);
  }

  lemma HeaderTail(b: bytes, h: Header)
    requires HeaderInRange(h) && From(b, 112, HeaderFields(h), 11, [])
    ensures |b| == 256 && Be64(b, 112) == h.rollbackIndex && Be32(b, 120) == h.flags && Be32(b, 124) == h.rollbackIndexLocation
    ensures b[128..175] == Resize(h.releaseString, 47) && b[175..] == Zeros(81)
  {
    hide BE, From, Be32, Be64, Join, ExtentField, Resize;
    var fs := HeaderFields(h);
    Next64(b, 112, fs, 11, [], h.rollbackIndex);
    Next32(b, 120, fs, 12, [], h.flags);
    Next32(b, 124, fs, 13, [], h.rollbackIndexLocation);
    Next(b, 128, fs, 14, []);
    Next(b, 175, fs, 15, []);
    Rest(b, 256, fs, []);
  }

  // ---------------------------------------------------------------- descriptors

  /** The parts of an encoding: fixed fields up to `size`, the variable part, and less than eight zeros. */
  lemma Parts(d: Descriptor)
    requires InRange(d)
    ensures var e, rest := Encoded(d), Payload(d) + Zeros(PaddedFollowing(d) - Following(d));
      && From(e, 0, Fields(d), 0, rest) && |e| % 8 == 0 && |e| == HEADER + PaddedFollowing(d)
  {
    hide Fields, Payload, From, Following;
    EncodedAligned(d);
    EncodedLayout(d);
    var rest := Payload(d) + Zeros(PaddedFollowing(d) - Following(d));
    Start(Fields(d), rest);
    assert Encoded(d) == Join(Fields(d)) + rest;
  }

  /** `parts` stand one after the other in `e` from `at` on, and then there are only zeros, fewer than eight. */
  ghost predicate Behind(e: bytes, at: nat, parts: bytes) {
    at + |parts| <= |e| < at + |parts| + 8 && e[at..at + |parts|] == parts && e[at + |parts|..] == Zeros(|e| - at - |parts|)
  }

  lemma BehindFields(d: Descriptor, at: nat)
    requires InRange(d) && at == Size(Class(d))
    requires From(Encoded(d), at, Fields(d), |Fields(d)|, Payload(d) + Zeros(PaddedFollowing(d) - Following(d)))
    ensures |Encoded(d)| == HEADER + PaddedFollowing(d) && Behind(Encoded(d), at, Payload(d))
  {
    hide Fields, Payload, From, Encoded, Size, Class;
    var e, rest := Encoded(d), Payload(d) + Zeros(PaddedFollowing(d) - Following(d));
    Rest(e, at, Fields(d), rest);
    EncodedLayout(d);
    SizeBound(Class(d));
    assert e[at..][..|Payload(d)|] == Payload(d);
    assert e[at..][|Payload(d)|..] == Zeros(PaddedFollowing(d) - Following(d));
  }

  /** A property: key and value, each with a NUL behind it. */
  lemma PropertyLayout(d: Descriptor)
    requires d.Property? && Encode(d).Ok?
    ensures var e := Encode(d).value;
      && |e| >= 32 && |e| % 8 == 0 && Be64(e, 0) == 0 && Be64(e, 8) == |e| - 16
      && Be64(e, 16) == |d.key| && Be64(e, 24) == |d.value|
      && Behind(e, 32, d.key + [0] + d.value + [0])
  {
    hide BE, From, Be32, Be64, Join, Behind, PaddedFollowing, Following, Encoded;
    var e, fs, rest := Encoded(d), Fields(d), Payload(d) + Zeros(PaddedFollowing(d) - Following(d));
    Parts(d);
    Next64(e, 0, fs, 0, rest, 0);
    Next64(e, 8, fs, 1, rest, PaddedFollowing(d));
    Next64(e, 16, fs, 2, rest, |d.key|);
    Next64(e, 24, fs, 3, rest, |d.value|);
    BehindFields(d, 32);
  }

  /** A hash descriptor: image size, algorithm, three lengths, flags, and what has these lengths. */
  lemma HashLayout(d: Descriptor)
    requires d.Hash? && Encode(d).Ok?
    ensures var e := Encode(d).value;
      && |e| >= 132 && |e| % 8 == 0 && Be64(e, 0) == 2 && Be64(e, 8) == |e| - 16
      && Be64(e, 16) == d.imageSize && e[24..56] == Resize(d.hashAlgorithm, 32)
      && Be32(e, 56) == |d.partitionName| && Be32(e, 60) == |d.salt| && Be32(e, 64) == |d.digest|
      && Be32(e, 68) == d.flags && e[72..132] == Zeros(60)
      && Behind(e, 132, d.partitionName + d.salt + d.digest)
  {
    hide BE, From, Be32, Be64, Join, Behind, PaddedFollowing, Following, Encoded, Resize, Ascii;
    var e, fs, rest := Encoded(d), Fields(d), Payload(d) + Zeros(PaddedFollowing(d) - Following(d));
    Parts(d);
    Next64(e, 0, fs, 0, rest, 2);
    Next64(e, 8, fs, 1, rest, PaddedFollowing(d));
    Next64(e, 16, fs, 2, rest, d.imageSize);
    Next(e, 24, fs, 3, rest);
    Next32(e, 56, fs, 4, rest, |d.partitionName|);
    Next32(e, 60, fs, 5, rest, |d.salt|);
    Next32(e, 64, fs, 6, rest, |d.digest|);
    Next32(e, 68, fs, 7, rest, d.flags);
    Next(e, 72, fs, 8, rest);
    BehindFields(d, 132);
  }

  /** A hashtree descriptor. */
  lemma HashtreeLayout(d: Descriptor)
    requires d.Hashtree? && Encode(d).Ok?
    ensures var e := Encode(d).value;
      && |e| >= 180 && |e| % 8 == 0 && Be64(e, 0) == 1 && Be64(e, 8) == |e| - 16
      && Be32(e, 16) == d.dmVerityVersion && Be64(e, 20) == d.imageSize && Be64(e, 28) == d.treeOffset
      && Be64(e, 36) == d.treeSize && Be32(e, 44) == d.dataBlockSize && Be32(e, 48) == d.hashBlockSize
      && Be32(e, 52) == d.fecNumRoots && Be64(e, 56) == d.fecOffset && Be64(e, 64) == d.fecSize
      && e[72..104] == Resize(d.hashAlgorithm, 32)
      && Be32(e, 104) == |d.partitionName| && Be32(e, 108) == |d.salt| && Be32(e, 112) == |d.rootDigest|
      && Be32(e, 116) == d.flags && e[120..180] == Zeros(60)
      && Behind(e, 180, d.partitionName + d.salt + d.rootDigest)
  {
    hide BE, From, Be32, Be64, Join, Behind, PaddedFollowing, Following, Encoded, Fields, Payload, Resize, Ascii;
    Parts(d);
    HashtreeFront(d);
    HashtreeBack(d);
    BehindFields(d, 180);
    HashtreePayload(d);
  }

  lemma HashtreePayload(d: Descriptor)
    requires d.Hashtree?
    ensures Payload(d) == d.partitionName + d.salt + d.rootDigest
  {
  }

  lemma HashtreeFront(d: Descriptor)
    requires d.Hashtree? && InRange(d)
    requires From(Encoded(d), 0, Fields(d), 0, Payload(d) + Zeros(PaddedFollowing(d) - Following(d)))
    ensures |Encoded(d)| >= 56 && From(Encoded(d), 56, Fields(d), 9, Payload(d) + Zeros(PaddedFollowing(d) - Following(d)))
    ensures var e := Encoded(d);
      && Be64(e, 0) == 1 && Be64(e, 8) == PaddedFollowing(d)
      && Be32(e, 16) == d.dmVerityVersion && Be64(e, 20) == d.imageSize && Be64(e, 28) == d.treeOffset
      && Be64(e, 36) == d.treeSize && Be32(e, 44) == d.dataBlockSize && Be32(e, 48) == d.hashBlockSize
      && Be32(e, 52) == d.fecNumRoots
  {
    hide BE, From, Be32, Be64, Join, PaddedFollowing, Following, Encoded, Payload, Fixed;
    var e, fs, rest := Encoded(d), Fields(d), Payload(d) + Zeros(PaddedFollowing(d) - Following(d));
    Next64(e, 0, fs, 0, rest, 1);
    Next64(e, 8, fs, 1, rest, PaddedFollowing(d));
    Next32(e, 16, fs, 2, rest, d.dmVerityVersion);
    Next64(e, 20, fs, 3, rest, d.imageSize);
    Next64(e, 28, fs, 4, rest, d.treeOffset);
    Next64(e, 36, fs, 5, rest, d.treeSize);
    Next32(e, 44, fs, 6, rest, d.dataBlockSize);
    Next32(e, 48, fs, 7, rest, d.hashBlockSize);
    Next32(e, 52, fs, 8, rest, d.fecNumRoots);
  }

  lemma HashtreeBack(d: Descriptor)
    requires d.Hashtree? && InRange(d)
    requires From(Encoded(d), 56, Fields(d), 9, Payload(d) + Zeros(PaddedFollowing(d) - Following(d)))
    ensures |Fields(d)| == 17
    ensures |Encoded(d)| >= 180 && From(Encoded(d), 180, Fields(d), 17, Payload(d) + Zeros(PaddedFollowing(d) - Following(d)))
    ensures var e := Encoded(d);
      && Be64(e, 56) == d.fecOffset && Be64(e, 64) == d.fecSize && e[72..104] == Resize(d.hashAlgorithm, 32)
      && Be32(e, 104) == |d.partitionName| && Be32(e, 108) == |d.salt| && Be32(e, 112) == |d.rootDigest|
      && Be32(e, 116) == d.flags && e[120..180] == Zeros(60)
  {
    hide BE, From, Be32, Be64, Join, PaddedFollowing, Following, Encoded, Payload, Resize;
    var e, fs, rest := Encoded(d), Fields(d), Payload(d) + Zeros(PaddedFollowing(d) - Following(d));
    Next64(e, 56, fs, 9, rest, d.fecOffset);
    Next64(e, 64, fs, 10, rest, d.fecSize);
    Next(e, 72, fs, 11, rest);
    Next32(e, 104, fs, 12, rest, |d.partitionName|);
    Next32(e, 108, fs, 13, rest, |d.salt|);
    Next32(e, 112, fs, 14, rest, |d.rootDigest|);
    Next32(e, 116, fs, 15, rest, d.flags);
    Next(e, 120, fs, 16, rest);
  }

  /** A kernel command line. */
  lemma KernelCmdlineLayout(d: Descriptor)
    requires d.KernelCmdline? && Encode(d).Ok?
    ensures var e := Encode(d).value;
      && |e| >= 24 && |e| % 8 == 0 && Be64(e, 0) == 3 && Be64(e, 8) == |e| - 16
      && Be32(e, 16) == d.flags && Be32(e, 20) == |d.kernelCmdline| && Behind(e, 24, d.kernelCmdline)
  {
    hide BE, From, Be32, Be64, Join, Behind, PaddedFollowing, Following, Encoded;
    var e, fs, rest := Encoded(d), Fields(d), Payload(d) + Zeros(PaddedFollowing(d) - Following(d));
    Parts(d);
    Next64(e, 0, fs, 0, rest, 3);
    Next64(e, 8, fs, 1, rest, PaddedFollowing(d));
    Next32(e, 16, fs, 2, rest, d.flags);
    Next32(e, 20, fs, 3, rest, |d.kernelCmdline|);
    BehindFields(d, 24);
  }

  /** A chained partition. */
  lemma ChainPartitionLayout(d: Descriptor)
    requires d.ChainPartition? && Encode(d).Ok?
    ensures var e := Encode(d).value;
      && |e| >= 92 && |e| % 8 == 0 && Be64(e, 0) == 4 && Be64(e, 8) == |e| - 16
      && Be32(e, 16) == d.rollbackIndexLocation && Be32(e, 20) == |d.partitionName| && Be32(e, 24) == |d.publicKey|
      && Be32(e, 28) == d.flags && e[32..92] == Zeros(60)
      && Behind(e, 92, d.partitionName + d.publicKey)
  {
    hide BE, From, Be32, Be64, Join, Behind, PaddedFollowing, Following, Encoded;
    var e, fs, rest := Encoded(d), Fields(d), Payload(d) + Zeros(PaddedFollowing(d) - Following(d));
    Parts(d);
    Next64(e, 0, fs, 0, rest, 4);
    Next64(e, 8, fs, 1, rest, PaddedFollowing(d));
    Next32(e, 16, fs, 2, rest, d.rollbackIndexLocation);
    Next32(e, 20, fs, 3, rest, |d.partitionName|);
    Next32(e, 24, fs, 4, rest, |d.publicKey|);
    Next32(e, 28, fs, 5, rest, d.flags);
    Next(e, 32, fs, 6, rest);
    BehindFields(d, 92);
  }

  /** A descriptor of another kind: its tag and its data. */
  lemma UnknownLayout(d: Descriptor)
    requires d.Unknown? && Encode(d).Ok?
    ensures var e := Encode(d).value;
      |e| >= 16 && |e| % 8 == 0 && Be64(e, 0) == d.tag && Be64(e, 8) == |e| - 16 && Behind(e, 16, d.data)
  {
    hide BE, From, Be32, Be64, Join, Behind, PaddedFollowing, Following, Encoded;
    var e, fs, rest := Encoded(d), Fields(d), Payload(d) + Zeros(PaddedFollowing(d) - Following(d));
    Parts(d);
    Next64(e, 0, fs, 0, rest, d.tag);
    Next64(e, 8, fs, 1, rest, PaddedFollowing(d));
    BehindFields(d, 16);
  }

  /** When the encoders refuse: an algorithm name that is not ASCII, or a number that is too large for its field. */
  lemma EncodedIf(d: Descriptor)
    ensures Encode(d).Ok? <==>
      match d
      case Property(key, value) =>
        |key| < TWO_64 && |value| < TWO_64 && RoundUp(16 + |key| + 1 + |value| + 1, 8) < TWO_64
      case Hashtree(version, imageSize, treeOffset, treeSize, dataBs, hashBs, roots, fecOffset, fecSize, alg, name, salt, digest, flags) =>
        && (forall i :: 0 <= i < |alg| ==> alg[i] < 128)
        && version < TWO_32 && imageSize < TWO_64 && treeOffset < TWO_64 && treeSize < TWO_64
        && dataBs < TWO_32 && hashBs < TWO_32 && roots < TWO_32 && fecOffset < TWO_64 && fecSize < TWO_64
        && |name| < TWO_32 && |salt| < TWO_32 && |digest| < TWO_32 && flags < TWO_32
      case Hash(imageSize, alg, name, salt, digest, flags) =>
        && (forall i :: 0 <= i < |alg| ==> alg[i] < 128)
        && imageSize < TWO_64 && |name| < TWO_32 && |salt| < TWO_32 && |digest| < TWO_32 && flags < TWO_32
      case KernelCmdline(flags, cmdline) => flags < TWO_32 && |cmdline| < TWO_32
      case ChainPartition(location, name, key, flags) =>
        location < TWO_32 && |name| < TWO_32 && |key| < TWO_32 && flags < TWO_32
      case Unknown(tag, data) => tag < TWO_64 && RoundUp(|data|, 8) < TWO_64
  {
    hide Encoded;
  }
}
