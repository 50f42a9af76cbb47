/** What the parsers of tools/avbtool accept and what they make of it, written out at offsets: the counterpart of
    Layouts for reading. */
module Readings {
  import opened Bytes
  import opened Results
  import opened Struct
  import opened Descriptors
  import opened VBMeta
  import opened Blob
  import opened FooterOps
  import opened FooterEdits

  import opened Layouts
  import CpioArchive

  // ---------------------------------------------------------------- text

  /** Characters that UTF-8 can express: no surrogates. */
  predicate Expressible(name: seq<CpioArchive.scalar>) {
    forall i :: 0 <= i < |name| ==> !(0xD800 <= name[i] < 0xE000)
  }

  /** What is accepted as UTF-8 is exactly what encoding a text gives. */
  lemma Utf8Is(s: bytes)
    ensures Utf8(s) <==> exists name :: Expressible(name) && CpioArchive.EncodeName(name) == s
  {
    hide Utf8, CpioArchive.EncodeName, Expressible;
    if Utf8(s) {
      var name := Decoded(s);
    }
    if name :| Expressible(name) && CpioArchive.EncodeName(name) == s {
      EncodedIsUtf8(name);
    }
  }

  lemma {:induction false} EncodedIsUtf8(name: seq<CpioArchive.scalar>)
    requires Expressible(name)
    ensures Utf8(CpioArchive.EncodeName(name))
  {
    if name != [] {
      var rest := CpioArchive.EncodeName(name[1..]);
      hide Utf8, CpioArchive.EncodeChar;
      EncodedIsUtf8(name[1..]);
      OneChar(name[0], rest);
    }
  }

  /** One character in front. */
  lemma OneChar(c: CpioArchive.scalar, rest: bytes)
    requires !(0xD800 <= c < 0xE000) && Utf8(rest)
    ensures Utf8(CpioArchive.EncodeChar(c) + rest)
  {
    hide Utf8;
    var head := CpioArchive.EncodeChar(c);
    var s := head + rest;
    assert s[|head|..] == rest;
    assert s[0] == head[0] && (|head| > 1 ==> s[1] == head[1]) && (|head| > 2 ==> s[2] == head[2]) && (|head| > 3 ==> s[3] == head[3]);
    CharBytes(c);
    hide CpioArchive.EncodeChar;
    Utf8Step(s, |head|);
  }

  /** Whether `s` starts with the encoding of a character in `n` bytes. */
  predicate Starts(s: bytes, n: nat) {
    if n == 1 then |s| >= 1 && s[0] < 0x80
    else if n == 2 then |s| >= 2 && 0xC2 <= s[0] < 0xE0 && Continuation(s[1])
    else if n == 3 then
      |s| >= 3 && 0xE0 <= s[0] < 0xF0 && Continuation(s[1]) && Continuation(s[2])
      && (s[0] == 0xE0 ==> s[1] >= 0xA0) && (s[0] == 0xED ==> s[1] < 0xA0)
    else
      n == 4 && |s| >= 4 && 0xF0 <= s[0] < 0xF5 && Continuation(s[1]) && Continuation(s[2]) && Continuation(s[3])
      && (s[0] == 0xF0 ==> s[1] >= 0x90) && (s[0] == 0xF4 ==> s[1] < 0x90)
  }

  lemma Utf8Step(s: bytes, n: nat)
    requires Starts(s, n)
    ensures n <= |s| && (Utf8(s) <==> Utf8(s[n..]))
  {
  }

  lemma Utf8First(s: bytes) returns (n: nat)
    requires Utf8(s) && s != []
    ensures Starts(s, n)
  {
    n := if s[0] < 0x80 then 1 else if s[0] < 0xE0 then 2 else if s[0] < 0xF0 then 3 else 4;
  }

  lemma CharBytes(c: CpioArchive.scalar)
    requires !(0xD800 <= c < 0xE000)
    ensures Starts(CpioArchive.EncodeChar(c), |CpioArchive.EncodeChar(c)|)
  {
    var a, b := c / 64, c / 4096;
    assert b == a / 64 && c / 262144 == b / 64;
  }

  lemma {:induction false} Decoded(s: bytes) returns (name: seq<CpioArchive.scalar>)
    requires Utf8(s)
    ensures Expressible(name) && CpioArchive.EncodeName(name) == s
  {
    hide Utf8, CpioArchive.EncodeChar;
    name := [];
    if s != [] {
      var n := Utf8First(s);
      Utf8Step(s, n);
      var c := FirstChar(s, n);
      var more := Decoded(s[n..]);
      name := [c] + more;
      assert name[1..] == more && s == s[..n] + s[n..];
    }
  }

  lemma FirstChar(s: bytes, n: nat) returns (c: CpioArchive.scalar)
    requires Starts(s, n)
    ensures n <= |s| && !(0xD800 <= c < 0xE000) && CpioArchive.EncodeChar(c) == s[..n]
  {
    if n == 1 {
      c := s[0];
    } else if n == 2 {
      c := 64 * (s[0] as int - 0xC0) + (s[1] as int - 0x80);
    } else if n == 3 {
      c := ThreeBytes(s);
    } else {
      c := FourBytesOf(s);
    }
  }

  lemma ThreeBytes(s: bytes) returns (c: CpioArchive.scalar)
    requires Starts(s, 3)
    ensures !(0xD800 <= c < 0xE000) && CpioArchive.EncodeChar(c) == s[..3]
  {
    var x, y, z := s[0] as int - 0xE0, s[1] as int - 0x80, s[2] as int - 0x80;
    c := 4096 * x + 64 * y + z;
    Digits64(x, y, z);
    assert CpioArchive.EncodeChar(c) == [0xE0 + x, 0x80 + y, 0x80 + z];
  }

  lemma FourBytesOf(s: bytes) returns (c: CpioArchive.scalar)
    requires Starts(s, 4)
    ensures c >= 0x10000 && CpioArchive.EncodeChar(c) == s[..4]
  {
    var x, y, z, w := s[0] as int - 0xF0, s[1] as int - 0x80, s[2] as int - 0x80, s[3] as int - 0x80;
    c := 262144 * x + 4096 * y + 64 * z + w;
    Digits64(64 * x + y, z, w);
    assert (64 * x + y) / 64 == x && (64 * x + y) % 64 == y;
    assert CpioArchive.EncodeChar(c) == [0xF0 + x, 0x80 + y, 0x80 + z, 0x80 + w];
  }

  lemma Digits64(a: nat, b: nat, c: nat)
    requires b < 64 && c < 64
    ensures var v := 4096 * a + 64 * b + c; v / 4096 == a && v / 64 % 64 == b && v % 64 == c && v / 262144 == a / 64
  {
    var v := 4096 * a + 64 * b + c;
    assert v / 64 == 64 * a + b;
  }

  // ---------------------------------------------------------------- fields one after the other

  /** From `at` on, the bytes up to `end` are cut into the fields from the `k`-th on. */
  ghost predicate Cut(data: bytes, at: nat, end: nat, ws: seq<nat>, k: nat, fields: seq<bytes>) {
    at <= end <= |data| && k <= |ws| == |fields| && Total(ws[k..]) <= end - at && fields[k..] == Split(ws[k..], data[at..end])
  }

  lemma StartCut(data: bytes, end: nat, ws: seq<nat>)
    requires end <= |data| && Total(ws) <= end
    ensures Cut(data, 0, end, ws, 0, Split(ws, data[..end]))
  {
    assert ws[0..] == ws && data[0..end] == data[..end];
    assert Split(ws, data[..end])[0..] == Split(ws, data[..end]);
  }

  lemma NextCut(data: bytes, at: nat, end: nat, ws: seq<nat>, k: nat, fields: seq<bytes>)
    requires Cut(data, at, end, ws, k, fields) && k < |ws|
    ensures at + ws[k] <= end && fields[k] == data[at..at + ws[k]]
    ensures Cut(data, at + ws[k], end, ws, k + 1, fields)
  {
    var w, rest := ws[k..], data[at..end];
    assert w[0] == ws[k] && w[1..] == ws[k + 1..];
    assert fields[k..][0] == fields[k] && fields[k..][1..] == fields[k + 1..];
    assert rest[..w[0]] == data[at..at + ws[k]] && rest[w[0]..] == data[at + ws[k]..end];
  }

  lemma Cut32(data: bytes, at: nat, end: nat, ws: seq<nat>, k: nat, fields: seq<bytes>)
    requires Cut(data, at, end, ws, k, fields) && k < |ws| && ws[k] == 4
    ensures at + 4 <= end && FromBE(fields[k]) == Be32(data, at) && Cut(data, at + 4, end, ws, k + 1, fields)
  {
    hide FromBE, Cut;
    NextCut(data, at, end, ws, k, fields);
    FourBytesAt(data, at);
  }

  lemma Cut64(data: bytes, at: nat, end: nat, ws: seq<nat>, k: nat, fields: seq<bytes>)
    requires Cut(data, at, end, ws, k, fields) && k < |ws| && ws[k] == 8
    ensures at + 8 <= end && FromBE(fields[k]) == Be64(data, at) && Cut(data, at + 8, end, ws, k + 1, fields)
  {
    hide FromBE, Cut, Be64;
    NextCut(data, at, end, ws, k, fields);
    EightBytesAt(data, at);
  }

  lemma CutExtent(data: bytes, at: nat, end: nat, ws: seq<nat>, k: nat, fields: seq<bytes>)
    requires Cut(data, at, end, ws, k, fields) && k < |ws| && ws[k] == 16
    ensures at + 16 <= end && |fields[k]| == 16 && ExtentFrom(fields[k]) == Extent(Be64(data, at), Be64(data, at + 8))
    ensures Cut(data, at + 16, end, ws, k + 1, fields)
  {
    hide FromBE, Cut, Be64;
    NextCut(data, at, end, ws, k, fields);
    assert fields[k][..8] == data[at..at + 8] && fields[k][8..] == data[at + 8..at + 16];
    EightBytesAt(data, at);
    EightBytesAt(data, at + 8);
  }

  // ---------------------------------------------------------------- footer and header

  /** 64 bytes that start with "AVBf". */
  lemma FooterReadIf(data: bytes)
    ensures ParseFooter(data).Ok? <==> |data| == 64 && data[..4] == [0x41, 0x56, 0x42, 0x66]
    ensures ParseFooter(data).Ok? ==>
      ParseFooter(data).value == Footer(Be32(data, 4), Be32(data, 8), Be64(data, 12), Be64(data, 20), Be64(data, 28))
  {
    hide FromBE, Cut, Be32, Be64, Split;
    FooterFormatSize();
    if |data| == 64 {
      var ws := FOOTER_FORMAT;
      var f := Split(ws, data);
      assert data[..64] == data;
      StartCut(data, 64, ws);
      NextCut(data, 0, 64, ws, 0, f);
      Cut32(data, 4, 64, ws, 1, f);
      Cut32(data, 8, 64, ws, 2, f);
      Cut64(data, 12, 64, ws, 3, f);
      Cut64(data, 20, 64, ws, 4, f);
      Cut64(data, 28, 64, ws, 5, f);
    }
  }

  /** 256 bytes that start with "AVB0" and hold a release string in UTF-8; or nothing at all. */
  lemma HeaderReadIf(data: bytes)
    ensures ParseHeader([]) == Ok(Header(1, 0, 0, 0, 0, Extent(0, 0), Extent(0, 0), Extent(0, 0), Extent(0, 0), Extent(0, 0),
                                         0, 0, 0, AsciiBytes("avbtool 1.3.0")))
    ensures ParseHeader(data).Ok? <==>
      data == [] || (|data| == 256 && data[..4] == [0x41, 0x56, 0x42, 0x30] && Utf8(RStrip(data[128..175])))
    ensures ParseHeader(data).Ok? && data != [] ==>
      ParseHeader(data).value ==
        Header(Be32(data, 4), Be32(data, 8), Be64(data, 12), Be64(data, 20), Be32(data, 28),
               Extent(Be64(data, 32), Be64(data, 40)), Extent(Be64(data, 48), Be64(data, 56)),
               Extent(Be64(data, 64), Be64(data, 72)), Extent(Be64(data, 80), Be64(data, 88)),
               Extent(Be64(data, 96), Be64(data, 104)),
               Be64(data, 112), Be32(data, 120), Be32(data, 124), RStrip(data[128..175]))
  {
    hide FromBE, Cut, Be32, Be64, Split, Utf8, RStrip, ExtentFrom, HeaderFrom, HeaderFormat;
    HeaderFormatSize();
    NoHeader();
    if |data| == 256 {
      var f := Split(HeaderFormat(), data);
      assert data[..256] == data;
      StartCut(data, 256, HeaderFormat());
      HeaderCut(data, f);
      ExtentsCut(data, f);
      TailCut(data, f);
      HeaderFromIs(f);
    }
  }

  lemma HeaderFromIs(f: seq<bytes>)
    requires |f| == 16 && |f[6]| == |f[7]| == |f[8]| == |f[9]| == |f[10]| == 16
    ensures HeaderFrom(f).Ok? <==> f[0] == [0x41, 0x56, 0x42, 0x30] && Utf8(RStrip(f[14]))
    ensures HeaderFrom(f).Ok? ==>
      HeaderFrom(f).value ==
        Header(FromBE(f[1]), FromBE(f[2]), FromBE(f[3]), FromBE(f[4]), FromBE(f[5]),
               ExtentFrom(f[6]), ExtentFrom(f[7]), ExtentFrom(f[8]), ExtentFrom(f[9]), ExtentFrom(f[10]),
               FromBE(f[11]), FromBE(f[12]), FromBE(f[13]), RStrip(f[14]))
  {
    hide FromBE, Utf8, RStrip, ExtentFrom;
  }

  lemma NoHeader()
    ensures ParseHeader([]) == Ok(Header(1, 0, 0, 0, 0, Extent(0, 0), Extent(0, 0), Extent(0, 0), Extent(0, 0), Extent(0, 0),
                                         0, 0, 0, AsciiBytes("avbtool 1.3.0")))
  {
    assert RELEASE_STRING == AsciiBytes("avbtool 1.3.0");
  }

  lemma HeaderCut(data: bytes, f: seq<bytes>)
    requires |data| == 256 && |f| == 16 && Cut(data, 0, 256, HeaderFormat(), 0, f)
    ensures f[0] == data[..4] && FromBE(f[1]) == Be32(data, 4) && FromBE(f[2]) == Be32(data, 8)
    ensures FromBE(f[3]) == Be64(data, 12) && FromBE(f[4]) == Be64(data, 20) && FromBE(f[5]) == Be32(data, 28)
    ensures Cut(data, 32, 256, HeaderFormat(), 6, f)
  {
    hide FromBE, Cut, Be32, Be64;
    var ws := HeaderFormat();
    NextCut(data, 0, 256, ws, 0, f);
    Cut32(data, 4, 256, ws, 1, f);
    Cut32(data, 8, 256, ws, 2, f);
    Cut64(data, 12, 256, ws, 3, f);
    Cut64(data, 20, 256, ws, 4, f);
    Cut32(data, 28, 256, ws, 5, f);
  }

  lemma ExtentsCut(data: bytes, f: seq<bytes>)
    requires |data| == 256 && |f| == 16 && Cut(data, 32, 256, HeaderFormat(), 6, f)
    ensures |f[6]| == |f[7]| == |f[8]| == |f[9]| == |f[10]| == 16
    ensures ExtentFrom(f[6]) == Extent(Be64(data, 32), Be64(data, 40))
    ensures ExtentFrom(f[7]) == Extent(Be64(data, 48), Be64(data, 56))
    ensures ExtentFrom(f[8]) == Extent(Be64(data, 64), Be64(data, 72))
    ensures ExtentFrom(f[9]) == Extent(Be64(data, 80), Be64(data, 88))
    ensures ExtentFrom(f[10]) == Extent(Be64(data, 96), Be64(data, 104))
    ensures Cut(data, 112, 256, HeaderFormat(), 11, f)
  {
    hide FromBE, Cut, Be64, ExtentFrom;
    var ws := HeaderFormat();
    CutExtent(data, 32, 256, ws, 6, f);
    CutExtent(data, 48, 256, ws, 7, f);
    CutExtent(data, 64, 256, ws, 8, f);
    CutExtent(data, 80, 256, ws, 9, f);
    CutExtent(data, 96, 256, ws, 10, f);
  }

  lemma TailCut(data: bytes, f: seq<bytes>)
    requires |data| == 256 && |f| == 16 && Cut(data, 112, 256, HeaderFormat(), 11, f)
    ensures FromBE(f[11]) == Be64(data, 112) && FromBE(f[12]) == Be32(data, 120) && FromBE(f[13]) == Be32(data, 124)
    ensures f[14] == data[128..175]
  {
    hide FromBE, Cut, Be32, Be64;
    var ws := HeaderFormat();
    Cut64(data, 112, 256, ws, 11, f);
    Cut32(data, 120, 256, ws, 12, f);
    Cut32(data, 124, 256, ws, 13, f);
    NextCut(data, 128, 256, ws, 14, f);
  }

  // ---------------------------------------------------------------- descriptors

  lemma PropertyReadIf(data: bytes)
    ensures ParseProperty(data).Ok? <==>
      && |data| >= 32 && Be64(data, 0) == 0 && Be64(data, 8) == RoundUp(16 + Be64(data, 16) + 1 + Be64(data, 24) + 1, 8)
      && Utf8(Clip(data, 32, 32 + Be64(data, 16)))
    ensures ParseProperty(data).Ok? ==>
      var k, v := Be64(data, 16), Be64(data, 24);
      ParseProperty(data).value == Property(Clip(data, 32, 32 + k), Clip(data, 33 + k, 33 + k + v))
  {
    hide FromBE, Cut, Be64, Split, Utf8, Clip, RoundUp;
    FormatSize(0);
    if |data| >= 32 {
      var ws := [8, 8, 8, 8];
      var f := Split(ws, data[..32]);
      StartCut(data, 32, ws);
      Cut64(data, 0, 32, ws, 0, f);
      Cut64(data, 8, 32, ws, 1, f);
      Cut64(data, 16, 32, ws, 2, f);
      Cut64(data, 24, 32, ws, 3, f);
    }
  }

  lemma KernelCmdlineReadIf(data: bytes)
    ensures ParseKernelCmdline(data).Ok? <==>
      && |data| >= 24 && Be64(data, 0) == 3 && Be64(data, 8) == RoundUp(8 + Be32(data, 20), 8)
      && Utf8(Clip(data, 24, 24 + Be32(data, 20)))
    ensures ParseKernelCmdline(data).Ok? ==>
      ParseKernelCmdline(data).value == KernelCmdline(Be32(data, 16), Clip(data, 24, 24 + Be32(data, 20)))
  {
    hide FromBE, Cut, Be32, Be64, Split, Utf8, Clip, RoundUp;
    FormatSize(3);
    if |data| >= 24 {
      var ws := [8, 8, 4, 4];
      var f := Split(ws, data[..24]);
      StartCut(data, 24, ws);
      Cut64(data, 0, 24, ws, 0, f);
      Cut64(data, 8, 24, ws, 1, f);
      Cut32(data, 16, 24, ws, 2, f);
      Cut32(data, 20, 24, ws, 3, f);
    }
  }

  lemma ChainPartitionReadIf(data: bytes)
    ensures ParseChainPartition(data).Ok? <==>
      && |data| >= 92 && Be64(data, 0) == 4 && Be64(data, 8) == RoundUp(76 + Be32(data, 20) + Be32(data, 24), 8)
      && Utf8(Clip(data, 92, 92 + Be32(data, 20)))
    ensures ParseChainPartition(data).Ok? ==>
      var n, k := Be32(data, 20), Be32(data, 24);
      ParseChainPartition(data).value ==
        ChainPartition(Be32(data, 16), Clip(data, 92, 92 + n), Clip(data, 92 + n, 92 + n + k), Be32(data, 28))
  {
    hide FromBE, Cut, Be32, Be64, Split, Utf8, Clip, RoundUp;
    FormatSize(4);
    if |data| >= 92 {
      var ws := [8, 8, 4, 4, 4, 4, 60];
      var f := Split(ws, data[..92]);
      StartCut(data, 92, ws);
      Cut64(data, 0, 92, ws, 0, f);
      Cut64(data, 8, 92, ws, 1, f);
      Cut32(data, 16, 92, ws, 2, f);
      Cut32(data, 20, 92, ws, 3, f);
      Cut32(data, 24, 92, ws, 4, f);
      Cut32(data, 28, 92, ws, 5, f);
    }
  }

  lemma HashReadIf(lib: Hashlib, data: bytes)
    ensures ParseHash(lib, data).Ok? <==>
      && |data| >= 132 && Be64(data, 0) == 2
      && Be64(data, 8) == RoundUp(116 + Be32(data, 56) + Be32(data, 60) + Be32(data, 64), 8)
      && Ascii(RStrip(data[24..56])) && Utf8(Clip(data, 132, 132 + Be32(data, 56)))
      && lib.hashSize(RStrip(data[24..56])).Some?
      && (Be32(data, 64) == lib.hashSize(RStrip(data[24..56])).value || Be32(data, 64) == 0)
    ensures ParseHash(lib, data).Ok? ==>
      var n, s, d := Be32(data, 56), Be32(data, 60), Be32(data, 64);
      ParseHash(lib, data).value ==
        Hash(Be64(data, 16), RStrip(data[24..56]), Clip(data, 132, 132 + n), Clip(data, 132 + n, 132 + n + s),
             Clip(data, 132 + n + s, 132 + n + s + d), Be32(data, 68))
  {
    hide FromBE, Cut, Be32, Be64, Split, Utf8, Ascii, Clip, RoundUp, RStrip;
    FormatSize(2);
    if |data| >= 132 {
      var f := Split(Format(2), data[..132]);
      StartCut(data, 132, Format(2));
      HashCut(data, f);
    }
  }

  lemma HashCut(data: bytes, f: seq<bytes>)
    requires |data| >= 132 && |f| == 9 && Cut(data, 0, 132, Format(2), 0, f)
    ensures FromBE(f[0]) == Be64(data, 0) && FromBE(f[1]) == Be64(data, 8) && FromBE(f[2]) == Be64(data, 16)
    ensures f[3] == data[24..56] && FromBE(f[4]) == Be32(data, 56) && FromBE(f[5]) == Be32(data, 60)
    ensures FromBE(f[6]) == Be32(data, 64) && FromBE(f[7]) == Be32(data, 68)
  {
    hide FromBE, Cut, Be32, Be64;
    var ws := Format(2);
    Cut64(data, 0, 132, ws, 0, f);
    Cut64(data, 8, 132, ws, 1, f);
    Cut64(data, 16, 132, ws, 2, f);
    NextCut(data, 24, 132, ws, 3, f);
    Cut32(data, 56, 132, ws, 4, f);
    Cut32(data, 60, 132, ws, 5, f);
    Cut32(data, 64, 132, ws, 6, f);
    Cut32(data, 68, 132, ws, 7, f);
  }

  lemma HashtreeReadIf(lib: Hashlib, data: bytes)
    ensures ParseHashtree(lib, data).Ok? <==>
      && |data| >= 180 && Be64(data, 0) == 1
      && Be64(data, 8) == RoundUp(164 + Be32(data, 104) + Be32(data, 108) + Be32(data, 112), 8)
      && Ascii(RStrip(data[72..104])) && Utf8(Clip(data, 180, 180 + Be32(data, 104)))
      && lib.treeHashSize(RStrip(data[72..104])).Some?
      && (Be32(data, 112) == lib.treeHashSize(RStrip(data[72..104])).value || Be32(data, 112) == 0)
    ensures ParseHashtree(lib, data).Ok? ==>
      var n, s, d := Be32(data, 104), Be32(data, 108), Be32(data, 112);
      ParseHashtree(lib, data).value ==
        Hashtree(Be32(data, 16), Be64(data, 20), Be64(data, 28), Be64(data, 36), Be32(data, 44), Be32(data, 48),
                 Be32(data, 52), Be64(data, 56), Be64(data, 64), RStrip(data[72..104]), Clip(data, 180, 180 + n),
                 Clip(data, 180 + n, 180 + n + s), Clip(data, 180 + n + s, 180 + n + s + d), Be32(data, 116))
  {
    hide FromBE, Cut, Be32, Be64, Split, Utf8, Ascii, Clip, RoundUp, RStrip, HashtreeFrom, ParseHashtree, Format, Size, Total;
    HashtreeCutFirst(lib, data);
    if |data| >= 180 {
      StartCut(data, 180, Format(1));
      HashtreeRead(lib, data, Split(Format(1), data[..180]));
    }
  }

  lemma HashtreeCutFirst(lib: Hashlib, data: bytes)
    ensures Total(Format(1)) == 180 && |Format(1)| == 17
    ensures ParseHashtree(lib, data) ==
      if |data| < 180 then Err(StructError) else HashtreeFrom(lib, Split(Format(1), data[..180]), data)
  {
    hide HashtreeFrom, Split, Total;
    FormatSize(1);
  }

  lemma HashtreeRead(lib: Hashlib, data: bytes, f: seq<bytes>)
    requires |data| >= 180 && |f| == 17 && Cut(data, 0, 180, Format(1), 0, f)
    ensures HashtreeFrom(lib, f, data).Ok? <==>
      && Be64(data, 0) == 1 && Be64(data, 8) == RoundUp(164 + Be32(data, 104) + Be32(data, 108) + Be32(data, 112), 8)
      && Ascii(RStrip(data[72..104])) && Utf8(Clip(data, 180, 180 + Be32(data, 104)))
      && lib.treeHashSize(RStrip(data[72..104])).Some?
      && (Be32(data, 112) == lib.treeHashSize(RStrip(data[72..104])).value || Be32(data, 112) == 0)
    ensures HashtreeFrom(lib, f, data).Ok? ==>
      var n, s, d := Be32(data, 104), Be32(data, 108), Be32(data, 112);
      HashtreeFrom(lib, f, data).value ==
        Hashtree(Be32(data, 16), Be64(data, 20), Be64(data, 28), Be64(data, 36), Be32(data, 44), Be32(data, 48),
                 Be32(data, 52), Be64(data, 56), Be64(data, 64), RStrip(data[72..104]), Clip(data, 180, 180 + n),
                 Clip(data, 180 + n, 180 + n + s), Clip(data, 180 + n + s, 180 + n + s + d), Be32(data, 116))
  {
    hide FromBE, Cut, Be32, Be64, Utf8, Ascii, Clip, RoundUp, RStrip, Format;
    HashtreeCut(data, f);
    HashtreeCutOn(data, f);
    var n, s, d := Be32(data, 104), Be32(data, 108), Be32(data, 112);
    assert 180 - 16 + n + s + d == 164 + n + s + d;
  }

  lemma HashtreeCut(data: bytes, f: seq<bytes>)
    requires |data| >= 180 && |f| == 17 && Cut(data, 0, 180, Format(1), 0, f)
    ensures FromBE(f[0]) == Be64(data, 0) && FromBE(f[1]) == Be64(data, 8) && FromBE(f[2]) == Be32(data, 16)
    ensures FromBE(f[3]) == Be64(data, 20) && FromBE(f[4]) == Be64(data, 28) && FromBE(f[5]) == Be64(data, 36)
    ensures FromBE(f[6]) == Be32(data, 44) && FromBE(f[7]) == Be32(data, 48) && FromBE(f[8]) == Be32(data, 52)
    ensures Cut(data, 56, 180, Format(1), 9, f)
  {
    hide FromBE, Cut, Be32, Be64;
    var ws := Format(1);
    Cut64(data, 0, 180, ws, 0, f);
    Cut64(data, 8, 180, ws, 1, f);
    Cut32(data, 16, 180, ws, 2, f);
    Cut64(data, 20, 180, ws, 3, f);
    Cut64(data, 28, 180, ws, 4, f);
    Cut64(data, 36, 180, ws, 5, f);
    Cut32(data, 44, 180, ws, 6, f);
    Cut32(data, 48, 180, ws, 7, f);
    Cut32(data, 52, 180, ws, 8, f);
  }

  lemma HashtreeCutOn(data: bytes, f: seq<bytes>)
    requires |data| >= 180 && |f| == 17 && Cut(data, 56, 180, Format(1), 9, f)
    ensures FromBE(f[9]) == Be64(data, 56) && FromBE(f[10]) == Be64(data, 64) && f[11] == data[72..104]
    ensures FromBE(f[12]) == Be32(data, 104) && FromBE(f[13]) == Be32(data, 108) && FromBE(f[14]) == Be32(data, 112)
    ensures FromBE(f[15]) == Be32(data, 116)
  {
    hide FromBE, Cut, Be32, Be64;
    var ws := Format(1);
    Cut64(data, 56, 180, ws, 9, f);
    Cut64(data, 64, 180, ws, 10, f);
    NextCut(data, 72, 180, ws, 11, f);
    Cut32(data, 104, 180, ws, 12, f);
    Cut32(data, 108, 180, ws, 13, f);
    Cut32(data, 112, 180, ws, 14, f);
    Cut32(data, 116, 180, ws, 15, f);
  }

  /** Every other tag is kept as it is. */
  lemma UnknownReadIf(data: bytes)
    ensures ParseUnknown(data) ==
      if |data| < 16 then Err(StructError) else Ok(Unknown(Be64(data, 0), Clip(data, 16, 16 + Be64(data, 8))))
  {
    hide FromBE, Be64, Clip;
    if |data| >= 16 {
      EightBytesAt(data, 0);
      EightBytesAt(data, 8);
      assert data[0..8] == data[..8];
    }
  }

  /** The first descriptor of a list: its tag chooses the parser, its size says where the next one starts. */
  lemma ListReadIf(lib: Hashlib, data: bytes)
    ensures data == [] ==> ParseList(lib, data) == Ok([])
    ensures 0 < |data| < 16 ==> ParseList(lib, data) == Err(StructError)
    ensures |data| >= 16 ==>
      var next := 16 + Be64(data, 8);
      var one := Clip(data, 0, next);
      var d := match Be64(data, 0)
        case 0 => ParseProperty(one)
        case 1 => ParseHashtree(lib, one)
        case 2 => ParseHash(lib, one)
        case 3 => ParseKernelCmdline(one)
        case 4 => ParseChainPartition(one)
        case _ => ParseUnknown(one);
      var rest := ParseList(lib, Clip(data, next, |data|));
      && (ParseList(lib, data).Ok? <==> d.Ok? && rest.Ok?)
      && (d.Ok? && rest.Ok? ==> ParseList(lib, data).value == [d.value] + rest.value)
  {
    hide FromBE, Be64, ParseProperty, ParseHashtree, ParseHash, ParseKernelCmdline, ParseChainPartition, ParseUnknown;
    if |data| >= 16 {
      EightBytesAt(data, 0);
      EightBytesAt(data, 8);
      assert data[0..8] == data[..8];
      var next := 16 + Be64(data, 8);
      assert Clip(data, next, |data|) == data[Min(next, |data|)..];
    }
  }

  // ---------------------------------------------------------------- images

  /** An image has a footer if its last 64 bytes are one. */
  lemma FooterFoundIf(img: bytes)
    ensures FooterOf(img).Some? <==> |img| >= 64 && img[|img| - 64..|img| - 60] == [0x41, 0x56, 0x42, 0x66]
    ensures FooterOf(img).Some? ==>
      var n := |img|;
      FooterOf(img).value ==
        Footer(Be32(img, n - 60), Be32(img, n - 56), Be64(img, n - 52), Be64(img, n - 44), Be64(img, n - 36))
  {
    hide ParseFooter, Be32, Be64;
    if |img| >= 64 {
      var n, last := |img|, img[|img| - 64..];
      FooterReadIf(last);
      assert last[..4] == img[n - 64..n - 60];
      TailOf32(img, n - 64, 4, n - 60);
      TailOf32(img, n - 64, 8, n - 56);
      TailOf64(img, n - 64, 12, n - 52);
      TailOf64(img, n - 64, 20, n - 44);
      TailOf64(img, n - 64, 28, n - 36);
    }
  }

  lemma TailOf32(s: bytes, lo: nat, at: nat, sum: nat)
    requires sum == lo + at && sum + 4 <= |s|
    ensures Be32(s[lo..], at) == Be32(s, sum)
  {
  }

  lemma TailOf64(s: bytes, lo: nat, at: nat, sum: nat)
    requires sum == lo + at && sum + 8 <= |s|
    ensures Be64(s[lo..], at) == Be64(s, sum)
  {
    hide Be32;
    TailOf32(s, lo, at, sum);
    TailOf32(s, lo, at + 4, sum + 4);
  }

  /** Parsing an image: the header where the footer says, or at the start; the descriptors behind the authentication
      block, at the offset and of the size that the header says. */
  lemma ImageReadIf(lib: Hashlib, img: bytes)
    ensures |img| < 64 ==> ParseImage(lib, img).Err?
    ensures |img| >= 64 ==>
      var at := if FooterOf(img).Some? then FooterOf(img).value.vbmetaOffset else 0;
      var h := ParseHeader(Clip(img, at, at + 256));
      if h.Err? then ParseImage(lib, img).Err?
      else
        var start := at + 256 + h.value.authSize + h.value.descriptors.offset;
        var ds := ParseList(lib, Clip(img, start, start + h.value.descriptors.size));
        && (ParseImage(lib, img).Ok? <==> ds.Ok?)
        && (ds.Ok? ==> ParseImage(lib, img).value == Parsed(FooterOf(img), h.value, ds.value))
  {
    hide ParseHeader, ParseList, FooterOf, Clip;
  }

  /** Cutting a footer off leaves the original size it names, of an image that has one. */
  lemma StripIs(img: bytes)
    ensures Strip(img) == if FooterOf(img).None? then img else Resize(img, FooterOf(img).value.originalImageSize)
  {
    hide FooterOf, Resize;
  }

  // ---------------------------------------------------------------- erase_footer

  /** What stays when a footer is erased: the original image or, with the tree kept, everything up to the end of the tree
      and of its error correction, of the first hashtree descriptor. */
  lemma EraseSizeIs(p: Parsed, i: nat)
    ensures p.footer.None? ==> EraseSize(p, false).None? && EraseSize(p, true).None?
    ensures p.footer.Some? ==> EraseSize(p, false) == Some(p.footer.value.originalImageSize)
    ensures (forall j :: 0 <= j < |p.descriptors| ==> !p.descriptors[j].Hashtree?) ==> EraseSize(p, true).None?
    ensures i < |p.descriptors| && p.descriptors[i].Hashtree? && p.footer.Some?
            && (forall j :: 0 <= j < i ==> !p.descriptors[j].Hashtree?) ==>
      var d := p.descriptors[i];
      var tree, fec := d.treeOffset + d.treeSize, if d.fecOffset > 0 then d.fecOffset + d.fecSize else 0;
      if tree == 0 && fec == 0 then EraseSize(p, true).None?
      else EraseSize(p, true).Some? && EraseSize(p, true).value == if tree >= fec then tree else fec
  {
    hide FirstHashtree;
    if i < |p.descriptors| {
      FirstIs(p.descriptors, i);
    }
    FirstIs(p.descriptors, |p.descriptors|);
  }

  lemma {:induction false} FirstIs(ds: seq<Descriptor>, i: nat)
    requires i <= |ds|
    ensures (forall j :: 0 <= j < i ==> !ds[j].Hashtree?) ==>
      if i < |ds| then ds[i].Hashtree? ==> FirstHashtree(ds) == Some(ds[i]) else FirstHashtree(ds) == None
  {
    if i > 0 && !ds[0].Hashtree? {
      FirstIs(ds[1..], i - 1);
      assert forall j :: 0 <= j < i - 1 ==> ds[1..][j] == ds[j + 1];
    }
  }
}
