/** tools/avbtool: descriptor lists, the vbmeta header, the footer, and parsing an image that carries them. */
module VBMeta {
  import opened Bytes
  import opened Results
  import opened Struct
  import opened Descriptors

  // ---------------------------------------------------------------- descriptor lists

  /** The concatenated encodings. */
  function EncodeAll(ds: seq<Descriptor>): bytes {
    if ds == [] then [] else Encoded(ds[0]) + EncodeAll(ds[1..])
  }

  predicate Encodable(ds: seq<Descriptor>) { forall i :: 0 <= i < |ds| ==> Encode(ds[i]).Ok? }

  /** `parse_descriptors`. */
  function ParseList(lib: Hashlib, data: bytes): Result<seq<Descriptor>> {
    if data == [] then Ok([])
    else if |data| < HEADER then Err(StructError)
    else
      var tag, next := FromBE(data[..8]), HEADER + FromBE(data[8..16]);
      var d :- ParseOne(lib, tag, Clip(data, 0, next));
      var rest :- ParseList(lib, data[Min(next, |data|)..]);
      Ok([d] + rest)
  }

  /** One round of `parse_descriptors`, in terms of offsets into the data. */
  lemma ParseRound(lib: Hashlib, data: bytes, o: nat)
    requires o + HEADER <= |data|
    ensures var tag, next := FromBE(data[o..o + 8]), o + HEADER + FromBE(data[o + 8..o + 16]);
      ParseList(lib, data[o..]) ==
        (var d :- ParseOne(lib, tag, Clip(data, o, next));
         var rest :- ParseList(lib, data[Min(next, |data|)..]);
         Ok([d] + rest))
  {
    hide ParseOne, FromBE;
    var tail := data[o..];
    assert tail[..8] == data[o..o + 8] && tail[8..16] == data[o + 8..o + 16];
    var n := HEADER + FromBE(tail[8..16]);
    assert Clip(tail, 0, n) == Clip(data, o, o + n);
    assert tail[Min(n, |tail|)..] == data[Min(o + n, |data|)..];
  }

  lemma ParseShort(lib: Hashlib, tail: bytes)
    requires |tail| < HEADER
    ensures ParseList(lib, tail) == if tail == [] then Ok([]) else Err(StructError)
  {
  }

  /** The loop of `parse_descriptors` over offset `o`; it always moves on by at least a descriptor header. */
  method ParseDescriptors(lib: Hashlib, data: bytes) returns (r: Result<seq<Descriptor>>)
    ensures r == ParseList(lib, data)
  {
    hide ParseOne, FromBE, ParseList, Clip;
    var o: nat, found: seq<Descriptor> := 0, [];
    assert data[0..] == data;
    assert ParseList(lib, data).Ok? ==> [] + ParseList(lib, data).value == ParseList(lib, data).value;
    while o < |data|
      invariant ParseList(lib, data) == Found(found, ParseList(lib, data[Min(o, |data|)..]))
      decreases |data| - o
    {
      if o + HEADER > |data| {
        ParseShort(lib, data[o..]);
        return Err(StructError);
      }
      var tag, nbFollowing := FromBE(data[o..o + 8]), FromBE(data[o + 8..o + 16]);
      ParseRound(lib, data, o);
      var parsed := ParseOne(lib, tag, Clip(data, o, o + HEADER + nbFollowing));
      if parsed.Err? {
        return Err(parsed.error);
      }
      ghost var rest := ParseList(lib, data[Min(o + HEADER + nbFollowing, |data|)..]);
      assert rest.Ok? ==> found + ([parsed.value] + rest.value) == found + [parsed.value] + rest.value;
      found := found + [parsed.value];
      o := o + HEADER + nbFollowing;
    }
    ParseShort(lib, data[Min(o, |data|)..]);
    assert found + [] == found;
    return Ok(found);
  }

  ghost function Found(found: seq<Descriptor>, r: Result<seq<Descriptor>>): Result<seq<Descriptor>> {
    if r.Ok? then Ok(found + r.value) else r
  }

  /** The parse loop cuts a list of encodings exactly where one ends and the next begins. */
  lemma ListCut(d: Descriptor, rest: bytes)
    requires InRange(d)
    ensures var data := Encoded(d) + rest;
      && |data| >= HEADER && FromBE(data[..8]) == Tag(d)
      && Clip(data, 0, HEADER + FromBE(data[8..16])) == Encoded(d)
      && data[Min(HEADER + FromBE(data[8..16]), |data|)..] == rest
  {
    hide Encoded, Tag, FromBE, PaddedFollowing;
    Framing(d);
    var data := Encoded(d) + rest;
    assert data[..8] == Encoded(d)[..8] && data[8..16] == Encoded(d)[8..16];
  }

  /** Parsing concatenated encodings gives the list back exactly when all of its descriptors are canonical. */
  lemma {:induction false} ParseListRoundTrip(lib: Hashlib, ds: seq<Descriptor>)
    requires Encodable(ds)
    ensures ParseList(lib, EncodeAll(ds)) == Ok(ds) <==> forall i :: 0 <= i < |ds| ==> Canonical(lib, ds[i])
    ensures |EncodeAll(ds)| % 8 == 0
  {
    hide Encoded, Canonical, ParseOne, InRange, FromBE, Tag;
    if ds != [] {
      var d, rest := ds[0], ds[1..];
      EncodeInRange(d);
      ListCut(d, EncodeAll(rest));
      ParseEncoded(lib, d);
      ParseListRoundTrip(lib, rest);
      EncodedAligned(d);
      ListUnfold(lib, d, rest);
      assert ds == [d] + rest;
      assert forall i :: 0 < i < |ds| ==> ds[i] == rest[i - 1];
      assert forall i :: 0 <= i < |rest| ==> rest[i] == ds[i + 1];
    } else {
      assert EncodeAll(ds) == [];
    }
  }

  lemma EncodeInRange(d: Descriptor)
    requires Encode(d).Ok?
    ensures InRange(d)
  {
  }

  lemma ListUnfold(lib: Hashlib, d: Descriptor, rest: seq<Descriptor>)
    requires InRange(d)
    ensures ParseList(lib, EncodeAll([d] + rest)) == Ok([d] + rest) <==>
      ParseOne(lib, Tag(d), Encoded(d)) == Ok(d) && ParseList(lib, EncodeAll(rest)) == Ok(rest)
  {
    hide Encoded, ParseOne, InRange, FromBE, Tag;
    assert ([d] + rest)[1..] == rest;
    ListCut(d, EncodeAll(rest));
  }

  // ---------------------------------------------------------------- footer

  const FOOTER_SIZE := 64
  const FOOTER_MAGIC: bytes := [0x41, 0x56, 0x42, 0x66]

  datatype Footer = Footer(versionMajor: nat, versionMinor: nat, originalImageSize: nat, vbmetaOffset: nat, vbmetaSize: nat)

  function NewFooter(originalImageSize: nat, vbmetaOffset: nat, vbmetaSize: nat): Footer {
    Footer(1, 0, originalImageSize, vbmetaOffset, vbmetaSize)
  }

  const FOOTER_FORMAT: seq<nat> := [4, 4, 4, 8, 8, 8, 28]

  function FooterFields(f: Footer): seq<bytes> {
    [FOOTER_MAGIC, BE(4, f.versionMajor), BE(4, f.versionMinor), BE(8, f.originalImageSize), BE(8, f.vbmetaOffset),
     BE(8, f.vbmetaSize), Zeros(28)]
  }

  predicate FooterInRange(f: Footer) {
    && f.versionMajor < TWO_32 && f.versionMinor < TWO_32
    && f.originalImageSize < TWO_64 && f.vbmetaOffset < TWO_64 && f.vbmetaSize < TWO_64
  }

  function EncodeFooter(f: Footer): Result<bytes> {
    if FooterInRange(f) then Ok(Join(FooterFields(f))) else Err(StructError)
  }

  function ParseFooter(data: bytes): Result<Footer> {
    FooterFormatSize();
    if |data| != FOOTER_SIZE then Err(StructError)
    else
      var f := Split(FOOTER_FORMAT, data);
      if f[0] != FOOTER_MAGIC then Err(LookupError)
      else Ok(Footer(FromBE(f[1]), FromBE(f[2]), FromBE(f[3]), FromBE(f[4]), FromBE(f[5])))
  }

  lemma FooterFormatSize()
    ensures Total(FOOTER_FORMAT) == FOOTER_SIZE
  {
    hide Total;
    TotalOfFour(4, 4, 4, 8);
    TotalOfThree(8, 8, 28);
    TotalConcat([4, 4, 4, 8], [8, 8, 28]);
    assert FOOTER_FORMAT == [4, 4, 4, 8] + [8, 8, 28];
  }

  /** A footer is 64 bytes long and read back as written; it starts with its magic. */
  lemma FooterRoundTrip(f: Footer)
    requires FooterInRange(f)
    ensures |Join(FooterFields(f))| == FOOTER_SIZE
    ensures ParseFooter(Join(FooterFields(f))) == Ok(f)
  {
    hide BE, FromBE;
    var fields := FooterFields(f);
    FooterFormatSize();
    assert Widths(fields) == FOOTER_FORMAT;
    SplitJoin(fields, []);
    assert Join(fields) + [] == Join(fields);
    Fits4(f.versionMajor);
    Fits4(f.versionMinor);
    Fits8(f.originalImageSize);
    Fits8(f.vbmetaOffset);
    Fits8(f.vbmetaSize);
  }

  // ---------------------------------------------------------------- header

  const VBMETA_HEADER_SIZE := 256
  const VBMETA_MAGIC: bytes := [0x41, 0x56, 0x42, 0x30]

  /** A part of a block: the `offset, size` pairs of the header. */
  datatype Extent = Extent(offset: nat, size: nat)

  datatype Header = Header(
    versionMajor: nat, versionMinor: nat, authSize: nat, auxSize: nat, algorithmType: nat,
    hash: Extent, signature: Extent, publicKey: Extent, metadata: Extent, descriptors: Extent,
    rollbackIndex: nat, flags: nat, rollbackIndexLocation: nat, releaseString: bytes)

  /** "avbtool 1.3.0" */
  const RELEASE_STRING: bytes := [0x61, 0x76, 0x62, 0x74, 0x6f, 0x6f, 0x6c, 0x20, 0x31, 0x2e, 0x33, 0x2e, 0x30]

  const NOTHING := Extent(0, 0)
  const DEFAULT_HEADER :=
    Header(1, 0, 0, 0, 0, NOTHING, NOTHING, NOTHING, NOTHING, NOTHING, 0, 0, 0, RELEASE_STRING)

  function HeaderFormat(): (ws: seq<nat>)
    ensures |ws| == 16 && ws[6] == ws[7] == ws[8] == ws[9] == ws[10] == 16
  {
    [4, 4, 4, 8, 8, 4, 16, 16, 16, 16, 16, 8, 4, 4, 47, 81]
  }

  function ExtentField(e: Extent): (f: bytes)
    ensures |f| == 16
  {
    BE(8, e.offset) + BE(8, e.size)
  }

  function ExtentFrom(f: bytes): Extent
    requires |f| == 16
  {
    Extent(FromBE(f[..8]), FromBE(f[8..]))
  }

  predicate ExtentInRange(e: Extent) { e.offset < TWO_64 && e.size < TWO_64 }

  lemma ExtentRoundTrip(e: Extent)
    requires ExtentInRange(e)
    ensures ExtentFrom(ExtentField(e)) == e
  {
    hide BE, FromBE;
    Fits8(e.offset);
    Fits8(e.size);
    assert ExtentField(e)[..8] == BE(8, e.offset) && ExtentField(e)[8..] == BE(8, e.size);
  }

  function HeaderFields(h: Header): seq<bytes> {
    [VBMETA_MAGIC, BE(4, h.versionMajor), BE(4, h.versionMinor), BE(8, h.authSize), BE(8, h.auxSize),
     BE(4, h.algorithmType), ExtentField(h.hash), ExtentField(h.signature), ExtentField(h.publicKey),
     ExtentField(h.metadata), ExtentField(h.descriptors), BE(8, h.rollbackIndex), BE(4, h.flags),
     BE(4, h.rollbackIndexLocation), Fixed(h.releaseString, 47), Zeros(81)]
  }

  predicate HeaderInRange(h: Header) {
    && h.versionMajor < TWO_32 && h.versionMinor < TWO_32 && h.authSize < TWO_64 && h.auxSize < TWO_64
    && h.algorithmType < TWO_32 && ExtentInRange(h.hash) && ExtentInRange(h.signature)
    && ExtentInRange(h.publicKey) && ExtentInRange(h.metadata) && ExtentInRange(h.descriptors)
    && h.rollbackIndex < TWO_64 && h.flags < TWO_32 && h.rollbackIndexLocation < TWO_32
  }

  function EncodeHeader(h: Header): Result<bytes> {
    if HeaderInRange(h) then Ok(Join(HeaderFields(h))) else Err(StructError)
  }

  /** `AvbVBMetaHeader(data)`; no data at all gives a default header. */
  function ParseHeader(data: bytes): Result<Header> {
    HeaderFormatSize();
    if data == [] then Ok(DEFAULT_HEADER)
    else if |data| != VBMETA_HEADER_SIZE then Err(StructError)
    else HeaderFrom(Split(HeaderFormat(), data))
  }

  function HeaderFrom(f: seq<bytes>): Result<Header>
    requires |f| == 16 && |f[6]| == |f[7]| == |f[8]| == |f[9]| == |f[10]| == 16
  {
    if f[0] != VBMETA_MAGIC then Err(AvbError)
    else
      var release := RStrip(f[14]);
      if !Utf8(release) then Err(ValueError)
      else Ok(Header(FromBE(f[1]), FromBE(f[2]), FromBE(f[3]), FromBE(f[4]), FromBE(f[5]),
                     ExtentFrom(f[6]), ExtentFrom(f[7]), ExtentFrom(f[8]), ExtentFrom(f[9]), ExtentFrom(f[10]),
                     FromBE(f[11]), FromBE(f[12]), FromBE(f[13]), release))
  }

  /** What does not start with the magic is no header. */
  lemma WrongMagic(data: bytes)
    requires |data| >= 4 && data[..4] != VBMETA_MAGIC
    ensures ParseHeader(data).Err?
  {
    hide HeaderFrom;
    HeaderFormatSize();
    if |data| == VBMETA_HEADER_SIZE {
      assert HeaderFormat()[0] == 4;
      assert Split(HeaderFormat(), data)[0] == data[..4];
      OtherMagic(Split(HeaderFormat(), data));
    }
  }

  lemma OtherMagic(f: seq<bytes>)
    requires |f| == 16 && |f[6]| == |f[7]| == |f[8]| == |f[9]| == |f[10]| == 16 && f[0] != VBMETA_MAGIC
    ensures HeaderFrom(f).Err?
  {
  }

  lemma HeaderFormatSize()
    ensures Total(HeaderFormat()) == VBMETA_HEADER_SIZE
  {
    hide Total;
    var a, b, c, d := [4, 4, 4, 8], [8, 4, 16, 16], [16, 16, 16, 8], [4, 4, 47, 81];
    TotalOfFour(4, 4, 4, 8);
    TotalOfFour(8, 4, 16, 16);
    TotalOfFour(16, 16, 16, 8);
    TotalOfFour(4, 4, 47, 81);
    TotalConcat(a, b);
    TotalConcat(a + b, c);
    TotalConcat(a + b + c, d);
    assert HeaderFormat() == a + b + c + d;
  }

  /** The release string survives: it fits its 47 bytes, is UTF-8 and does not end in NUL. */
  predicate ReleaseFits(s: bytes) { |s| <= 47 && (s != [] ==> s[|s| - 1] != 0) && Utf8(s) }

  /** The fields of a header come back from its encoding. */
  lemma HeaderFieldsBack(h: Header)
    requires HeaderInRange(h)
    ensures var f := HeaderFields(h);
      && |f| == 16 && f[0] == VBMETA_MAGIC && f[14] == Fixed(h.releaseString, 47)
      && FromBE(f[1]) == h.versionMajor && FromBE(f[2]) == h.versionMinor && FromBE(f[3]) == h.authSize
      && FromBE(f[4]) == h.auxSize && FromBE(f[5]) == h.algorithmType
      && |f[6]| == |f[7]| == |f[8]| == |f[9]| == |f[10]| == 16
      && ExtentFrom(f[6]) == h.hash && ExtentFrom(f[7]) == h.signature && ExtentFrom(f[8]) == h.publicKey
      && ExtentFrom(f[9]) == h.metadata && ExtentFrom(f[10]) == h.descriptors
      && FromBE(f[11]) == h.rollbackIndex && FromBE(f[12]) == h.flags && FromBE(f[13]) == h.rollbackIndexLocation
  {
    hide BE, FromBE, Fixed, ExtentFrom, ExtentField;
    Fits4(h.versionMajor);
    Fits4(h.versionMinor);
    Fits8(h.authSize);
    Fits8(h.auxSize);
    Fits4(h.algorithmType);
    ExtentRoundTrip(h.hash);
    ExtentRoundTrip(h.signature);
    ExtentRoundTrip(h.publicKey);
    ExtentRoundTrip(h.metadata);
    ExtentRoundTrip(h.descriptors);
    Fits8(h.rollbackIndex);
    Fits4(h.flags);
    Fits4(h.rollbackIndexLocation);
  }

  lemma HeaderWidths(h: Header)
    ensures Widths(HeaderFields(h)) == HeaderFormat()
  {
    hide BE, Fixed, ExtentField;
  }

  /** A header is 256 bytes long and is read back as written exactly when its release string fits. */
  lemma HeaderRoundTrip(h: Header)
    requires HeaderInRange(h)
    ensures |Join(HeaderFields(h))| == VBMETA_HEADER_SIZE
    ensures ParseHeader(Join(HeaderFields(h))) == Ok(h) <==> ReleaseFits(h.releaseString)
  {
    hide BE, FromBE, Fixed, RStrip, Utf8, HeaderFields, ExtentFrom, HeaderFormat, Split;
    HeaderWidths(h);
    HeaderFormatSize();
    SplitJoin(HeaderFields(h), []);
    assert Join(HeaderFields(h)) + [] == Join(HeaderFields(h));
    HeaderFieldsBack(h);
    FixedRoundTrip(h.releaseString, 47);
  }
}
