/** tools/mkinitramfs.py: the writer of newc cpio archives, and a reader for the format. */
module CpioArchive {
  import opened Bytes
  import opened Results

  // ---------------------------------------------------------------- hexadecimal fields

  function HexDigit(d: nat): byte
    requires d < 16
  {
    if d < 10 then 0x30 + d else 0x41 + d - 10
  }

  function HexValue(c: byte): Option<nat> {
    if 0x30 <= c <= 0x39 then Some(c - 0x30)
    else if 0x41 <= c <= 0x46 then Some(c - 0x41 + 10)
    else if 0x61 <= c <= 0x66 then Some(c - 0x61 + 10)
    else None
  }

  /** At least `n` digits, as Python's `%0nX`. */
  function Hex(n: nat, v: nat): bytes
    decreases v, n
  {
    if n == 0 && v == 0 then [] else Hex(if n == 0 then 0 else n - 1, v / 16) + [HexDigit(v % 16)]
  }

  function Pow16(n: nat): (p: nat)
    ensures p > 0
  {
    if n == 0 then 1 else 16 * Pow16(n - 1)
  }

  function ParseHex(s: bytes): Option<nat> {
    if s == [] then Some(0)
    else
      var high, low := ParseHex(s[..|s| - 1]), HexValue(s[|s| - 1]);
      if high.None? || low.None? then None else Some(16 * high.value + low.value)
  }

  /** Hexadecimal digits are read back ... */
  lemma {:induction false} HexParses(n: nat, v: nat)
    ensures ParseHex(Hex(n, v)) == Some(v)
    decreases v, n
  {
    if n > 0 || v > 0 {
      var m := if n == 0 then 0 else n - 1;
      HexParses(m, v / 16);
      assert Hex(n, v)[..|Hex(n, v)| - 1] == Hex(m, v / 16);
      assert HexValue(HexDigit(v % 16)) == Some(v % 16);
    }
  }

  /** ... and fill exactly `n` places if the number is small enough. */
  lemma {:induction false} HexSize(n: nat, v: nat)
    ensures |Hex(n, v)| >= n && (|Hex(n, v)| == n <==> v < Pow16(n))
    decreases v, n
  {
    if n > 0 {
      HexSize(n - 1, v / 16);
      var p := Pow16(n - 1);
      assert v < 16 * p <==> v / 16 < p;
    } else if v > 0 {
      HexSize(0, v / 16);
    }
  }

  lemma EightDigits()
    ensures Pow16(8) == TWO_32
  {
    assert Pow16(2) == 256;
    assert Pow16(4) == 256 * Pow16(2);
    assert Pow16(6) == 256 * Pow16(4);
  }

  /** Upper-case digits, the least significant last. */
  lemma HexIs(n: nat, v: nat, d: nat)
    requires d < 16 && n > 0
    ensures Hex(n, 16 * v + d) == Hex(n - 1, v) + [if d < 10 then 48 + d else 65 + (d - 10)]
    ensures Hex(0, 0) == []
  {
  }

  /** 040755 in octal, as it stands in a header. */
  lemma HexSample()
    ensures Hex(8, 0x41ED) == [48, 48, 48, 48, 52, 49, 69, 68]
  {
    hide Hex;
    HexIs(1, 0, 0);
    HexIs(2, 0, 0);
    HexIs(3, 0, 0);
    HexIs(4, 0, 0);
    HexIs(5, 0, 4);
    HexIs(6, 4, 1);
    HexIs(7, 0x41, 14);
    HexIs(8, 0x41E, 13);
  }

  function HexFields(ns: seq<nat>): bytes {
    if ns == [] then [] else Hex(8, ns[0]) + HexFields(ns[1..])
  }

  predicate Narrow(ns: seq<nat>) { forall i :: 0 <= i < |ns| ==> ns[i] < TWO_32 }

  /** Fields below two to the 32 are eight digits each. */
  lemma {:induction false} HexFieldsAt(ns: seq<nat>, rest: bytes)
    requires Narrow(ns)
    ensures |HexFields(ns)| == 8 * |ns|
    ensures forall i :: 0 <= i < |ns| ==> ParseHex((HexFields(ns) + rest)[8 * i..8 * i + 8]) == Some(ns[i])
  {
    if ns != [] {
      EightDigits();
      HexParses(8, ns[0]);
      HexSize(8, ns[0]);
      HexFieldsAt(ns[1..], rest);
      var all, tail := HexFields(ns) + rest, HexFields(ns[1..]) + rest;
      assert all == Hex(8, ns[0]) + tail;
      forall i | 0 <= i < |ns|
        ensures ParseHex(all[8 * i..8 * i + 8]) == Some(ns[i])
      {
        if i == 0 {
          assert all[0..8] == Hex(8, ns[0]);
        } else {
          assert all[8 * i..8 * i + 8] == tail[8 * (i - 1)..8 * (i - 1) + 8];
          assert ns[1..][i - 1] == ns[i];
        }
      }
    }
  }

  // ---------------------------------------------------------------- names

  /** A character, as its Unicode scalar value. */
  type scalar = c: int | 0 <= c < 0x110000

  /** UTF-8. */
  function EncodeChar(c: scalar): (s: bytes)
    ensures 1 <= |s| <= 4 && (|s| == 1 <==> c < 0x80)
  {
    if c < 0x80 then [c]
    else if c < 0x800 then [0xC0 + c / 64, 0x80 + c % 64]
    else if c < 0x10000 then [0xE0 + c / 4096, 0x80 + c / 64 % 64, 0x80 + c % 64]
    else [0xF0 + c / 262144, 0x80 + c / 4096 % 64, 0x80 + c / 64 % 64, 0x80 + c % 64]
  }

  function EncodeName(name: seq<scalar>): (s: bytes)
    ensures |s| >= |name|
  {
    if name == [] then [] else EncodeChar(name[0]) + EncodeName(name[1..])
  }

  predicate IsAscii(name: seq<scalar>) { forall i :: 0 <= i < |name| ==> name[i] < 0x80 }

  /** The size field, which counts characters, is right exactly for ASCII names. */
  lemma {:induction false} NameSizeIsRight(name: seq<scalar>)
    ensures |EncodeName(name)| == |name| <==> IsAscii(name)
    ensures IsAscii(name) ==> EncodeName(name) == name
  {
    if name != [] {
      NameSizeIsRight(name[1..]);
      assert name == [name[0]] + name[1..];
      assert forall i :: 1 <= i < |name| ==> name[i] == name[1..][i - 1];
      assert forall i :: 0 <= i < |name[1..]| ==> name[1..][i] == name[i + 1];
    }
  }

  // ---------------------------------------------------------------- entries

  datatype Entry = Entry(
    ino: nat, mode: nat, nlink: nat, fileSize: nat, rdevMajor: nat, rdevMinor: nat, name: seq<scalar>, data: bytes)

  const CPIO_MAGIC: bytes := [0x30, 0x37, 0x30, 0x37, 0x30, 0x31]
  const HEADER_SIZE := 110
  const FIRST_INODE := 720

  /** `TRAILER!!!` */
  const TRAILER: seq<scalar> := [0x54, 0x52, 0x41, 0x49, 0x4C, 0x45, 0x52, 0x21, 0x21, 0x21]

  function Numbers(e: Entry): seq<nat> {
    [e.ino, e.mode, 0, 0, e.nlink, 0, e.fileSize, 0, 0, e.rdevMajor, e.rdevMinor, |e.name| + 1, 0]
  }

  function Header(e: Entry): bytes { CPIO_MAGIC + HexFields(Numbers(e)) + EncodeName(e.name) + [0] }

  /** Zeros up to a multiple of `m`. */
  function PadTo(n: nat, m: nat): bytes
    requires m > 0
  {
    Zeros(RoundUp(n, m) - n)
  }

  /** The bytes of an entry that starts at a multiple of four. */
  function EntryBytes(e: Entry): bytes {
    var head := Header(e) + PadTo(|Header(e)|, 4);
    head + e.data + PadTo(|e.data|, 4)
  }

  function Archive(entries: seq<Entry>): bytes {
    if entries == [] then [] else Archive(entries[..|entries| - 1]) + EntryBytes(entries[|entries| - 1])
  }

  /** Bitwise or. */
  function Or(a: nat, b: nat): nat {
    if a == 0 then b else 2 * Or(a / 2, b / 2) + if a % 2 == 1 || b % 2 == 1 then 1 else 0
  }

  const S_IFDIR := 0x4000
  const S_IFREG := 0x8000
  const S_IFCHR := 0x2000

  datatype Call = Dir(name: seq<scalar>, mode: nat) | File(name: seq<scalar>, data: bytes, mode: nat)
    | Chardev(name: seq<scalar>, major: nat, minor: nat, mode: nat)

  /** What a call adds, as the archive's entry with inode number `ino`. */
  function EntryOf(c: Call, ino: nat): Entry {
    match c
    case Dir(name, mode) => Entry(ino, Or(S_IFDIR, mode), 2, 0, 0, 0, name, [])
    case File(name, data, mode) => Entry(ino, Or(S_IFREG, mode), 1, |data|, 0, 0, name, data)
    case Chardev(name, major, minor, mode) => Entry(ino, Or(S_IFCHR, mode), 1, 0, major, minor, name, [])
  }

  function TrailerEntry(ino: nat): Entry { Entry(ino, 0, 1, 0, 0, 0, TRAILER, []) }

  class Cpio {
    var blob: bytes
    var ino: nat
    ghost var entries: seq<Entry>

    /** Whole entries, numbered in order. */
    ghost predicate Valid()
      reads this
    {
      && blob == Archive(entries) && |blob| % 4 == 0 && ino == FIRST_INODE + |entries|
      && forall i :: 0 <= i < |entries| ==> entries[i].ino == FIRST_INODE + 1 + i
    }

    constructor ()
      ensures Valid() && entries == []
    {
      blob, ino, entries := [], FIRST_INODE, [];
    }

    /** `_pad4`. */
    method Pad4()
      modifies this`blob
      ensures blob == old(blob) + PadTo(|old(blob)|, 4) && |blob| % 4 == 0
    {
      NegativeMod(|blob|, 4);
      blob := blob + Zeros(-|blob| % 4);
    }

    /** `_entry`. */
    method AddEntry(name: seq<scalar>, mode: nat, fileSize: nat, major: nat, minor: nat, nlink: nat, data: bytes)
      requires Valid()
      modifies this
      ensures Valid() && entries == old(entries) + [Entry(old(ino) + 1, mode, nlink, fileSize, major, minor, name, data)]
    {
      hide Header;
      ino := ino + 1;
      var e := Entry(ino, mode, nlink, fileSize, major, minor, name, data);
      ghost var start := blob;
      blob := blob + Header(e);
      Pad4();
      blob := blob + data;
      Pad4();
      AddedBytes(start, e);
      entries := entries + [e];
      assert entries[..|entries| - 1] == old(entries);
    }

    method Directory(name: seq<scalar>, mode: nat := 0x1ED)
      requires Valid()
      modifies this
      ensures Valid() && entries == old(entries) + [EntryOf(Dir(name, mode), old(ino) + 1)]
    {
      AddEntry(name, Or(S_IFDIR, mode), 0, 0, 0, 2, []);
    }

    method AddFile(name: seq<scalar>, data: bytes, mode: nat := 0x1ED)
      requires Valid()
      modifies this
      ensures Valid() && entries == old(entries) + [EntryOf(File(name, data, mode), old(ino) + 1)]
    {
      AddEntry(name, Or(S_IFREG, mode), |data|, 0, 0, 1, data);
    }

    method AddChardev(name: seq<scalar>, major: nat, minor: nat, mode: nat := 0x180)
      requires Valid()
      modifies this
      ensures Valid() && entries == old(entries) + [EntryOf(Chardev(name, major, minor, mode), old(ino) + 1)]
    {
      AddEntry(name, Or(S_IFCHR, mode), 0, major, minor, 1, []);
    }

    /** `trailer`: the finished archive. */
    method Trailer() returns (archive: bytes)
      requires Valid()
      modifies this
      ensures archive == Finished(old(entries)) && |archive| % 512 == 0
    {
      hide Archive, EntryBytes, RoundUp;
      AddEntry(TRAILER, 0, 0, 0, 0, 1, []);
      NegativeMod(|blob|, 512);
      blob := blob + Zeros(-|blob| % 512);
      archive := blob;
    }
  }

  /** The archive with its trailer, filled up to a multiple of 512. */
  function Finished(entries: seq<Entry>): bytes {
    var all := Archive(entries + [TrailerEntry(FIRST_INODE + |entries| + 1)]);
    all + PadTo(|all|, 512)
  }

  /** Python's `-n % m`. */
  lemma NegativeMod(n: int, m: nat)
    requires n >= 0 && m > 0
    ensures -n % m == RoundUp(n, m) - n
  {
    var r := RoundUp(n, m);
    assert r == (r / m) * m;
    DivModUnique(-n, m, -(r / m), r - n);
  }

  lemma PadFromMultiple(a: nat, n: nat, m: nat)
    requires m > 0 && a % m == 0
    ensures RoundUp(a + n, m) == a + RoundUp(n, m)
  {
    MultiplesAdd(a, RoundUp(n, m), m);
    RoundUpLeast(a + n, m, a + RoundUp(n, m));
    MultiplesAdd(RoundUp(a + n, m), a, m);
    RoundUpLeast(n, m, RoundUp(a + n, m) - a);
  }

  /** Padding depends on the entry alone, as long as it starts at a multiple of four. */
  lemma AddedBytes(start: bytes, e: Entry)
    requires |start| % 4 == 0
    ensures var s := start + Header(e);
      var t := s + PadTo(|s|, 4) + e.data;
      t + PadTo(|t|, 4) == start + EntryBytes(e)
  {
    hide Header, RoundUp;
    var n := |Header(e)|;
    PadFromMultiple(|start|, n, 4);
    var s := start + Header(e);
    assert PadTo(|s|, 4) == PadTo(n, 4);
    MultiplesAdd(|start|, RoundUp(n, 4), 4);
    PadFromMultiple(|start| + RoundUp(n, 4), |e.data|, 4);
    var t := s + PadTo(|s|, 4) + e.data;
    assert PadTo(|t|, 4) == PadTo(|e.data|, 4);
  }

  // ---------------------------------------------------------------- what stands where

  /** The header of an entry: magic, thirteen numbers of eight digits, the name and a NUL. */
  lemma HeaderIs(e: Entry)
    requires Narrow(Numbers(e))
    ensures var h := Header(e);
      && |h| == 110 + |EncodeName(e.name)| + 1 && h[..6] == [48, 55, 48, 55, 48, 49]
      && h[6..14] == Hex(8, e.ino) && h[14..22] == Hex(8, e.mode) && h[22..30] == h[30..38] == Hex(8, 0)
      && h[38..46] == Hex(8, e.nlink) && h[46..54] == Hex(8, 0) && h[54..62] == Hex(8, e.fileSize)
      && h[62..70] == h[70..78] == Hex(8, 0) && h[78..86] == Hex(8, e.rdevMajor) && h[86..94] == Hex(8, e.rdevMinor)
      && h[94..102] == Hex(8, |e.name| + 1) && h[102..110] == Hex(8, 0)
      && h[110..|h| - 1] == EncodeName(e.name) && h[|h| - 1] == 0
  {
    hide Hex, HexFields, EncodeName, Numbers, Header;
    NumbersInOrder(e);
    HeaderEnds(e);
    NumberAt(e, 0, 6);
    NumberAt(e, 1, 14);
    NumberAt(e, 2, 22);
    NumberAt(e, 3, 30);
    NumberAt(e, 4, 38);
    NumberAt(e, 5, 46);
    NumberAt(e, 6, 54);
    NumberAt(e, 7, 62);
    NumberAt(e, 8, 70);
    NumberAt(e, 9, 78);
    NumberAt(e, 10, 86);
    NumberAt(e, 11, 94);
    NumberAt(e, 12, 102);
  }

  lemma HeaderEnds(e: Entry)
    requires Narrow(Numbers(e))
    ensures var h := Header(e);
      && |h| == 110 + |EncodeName(e.name)| + 1 && h[..6] == [48, 55, 48, 55, 48, 49]
      && h[110..|h| - 1] == EncodeName(e.name) && h[|h| - 1] == 0
  {
    hide Hex, HexFields, EncodeName, Numbers;
    ThirteenNumbers(e);
    HexFieldsAt(Numbers(e), []);
    assert Header(e)[..6] == CPIO_MAGIC;
  }

  lemma NumberAt(e: Entry, i: nat, at: nat)
    requires Narrow(Numbers(e)) && i < 13 && at == 6 + 8 * i
    ensures |Numbers(e)| == 13 && at + 8 <= |Header(e)| && Header(e)[at..at + 8] == Hex(8, Numbers(e)[i])
  {
    hide Hex, HexFields, EncodeName, Numbers;
    var ns, tail := Numbers(e), EncodeName(e.name) + [0];
    ThirteenNumbers(e);
    FieldSlice(ns, tail, i);
    assert Header(e) == CPIO_MAGIC + (HexFields(ns) + tail);
    assert Header(e)[at..at + 8] == (HexFields(ns) + tail)[8 * i..8 * i + 8];
  }

  lemma NumbersInOrder(e: Entry)
    ensures Numbers(e) == [e.ino, e.mode, 0, 0, e.nlink, 0, e.fileSize, 0, 0, e.rdevMajor, e.rdevMinor, |e.name| + 1, 0]
  {
  }

  lemma {:induction false} FieldSlice(ns: seq<nat>, rest: bytes, i: nat)
    requires Narrow(ns) && i < |ns|
    ensures 8 * i + 8 <= |HexFields(ns) + rest| && (HexFields(ns) + rest)[8 * i..8 * i + 8] == Hex(8, ns[i])
  {
    EightDigits();
    HexSize(8, ns[0]);
    var tail := HexFields(ns[1..]) + rest;
    assert HexFields(ns) + rest == Hex(8, ns[0]) + tail;
    if i > 0 {
      FieldSlice(ns[1..], rest, i - 1);
      assert (HexFields(ns) + rest)[8 * i..8 * i + 8] == tail[8 * (i - 1)..8 * (i - 1) + 8];
    }
  }

  /** Header and data, each filled with zeros up to a multiple of four. */
  lemma EntryIs(e: Entry)
    ensures var b, h, n := EntryBytes(e), Header(e), |e.data|;
      var at := |h| + (4 - |h| % 4) % 4;
      && at % 4 == 0 && |b| == at + n + (4 - n % 4) % 4
      && b[..|h|] == h && (forall k :: |h| <= k < at ==> b[k] == 0)
      && b[at..at + n] == e.data && forall k :: at + n <= k < |b| ==> b[k] == 0
  {
    hide Header, RoundUp;
    UpToFour(|Header(e)|);
    UpToFour(|e.data|);
  }

  lemma UpToFour(n: nat)
    ensures RoundUp(n, 4) == n + (4 - n % 4) % 4 && RoundUp(n, 4) % 4 == 0
  {
  }

  /** Entries stand one after the other; the trailer is the last, and zeros fill the last 512 bytes. */
  lemma {:induction false} ArchiveIs(a: seq<Entry>, b: seq<Entry>, e: Entry)
    ensures Archive([]) == [] && Archive([e]) == EntryBytes(e) && Archive(a + b) == Archive(a) + Archive(b)
    decreases |b|
  {
    hide EntryBytes;
    assert [e][..0] == [] && [] + EntryBytes(e) == EntryBytes(e);
    if b == [] {
      assert a + b == a;
    } else {
      var n := |b| - 1;
      ArchiveIs(a, b[..n], e);
      assert (a + b)[..|a| + n] == a + b[..n];
    }
  }

  lemma FinishedIs(es: seq<Entry>)
    ensures var last := Entry(720 + |es| + 1, 0, 1, 0, 0, 0, [84, 82, 65, 73, 76, 69, 82, 33, 33, 33], []);
      var all := Archive(es) + EntryBytes(last);
      && all <= Finished(es) && |Finished(es)| % 512 == 0 && |Finished(es)| < |all| + 512
      && forall k :: |all| <= k < |Finished(es)| ==> Finished(es)[k] == 0
  {
    hide EntryBytes, Archive;
    var last := TrailerEntry(FIRST_INODE + |es| + 1);
    ArchiveIs(es, [last], last);
  }

  /** The entry of a call: type and permissions, two links for a directory, the device numbers; nothing else. */
  lemma CallIs(c: Call, ino: nat)
    requires c.mode < 0x1000
    ensures EntryOf(c, ino) ==
      match c
      case Dir(name, mode) => Entry(ino, 0x4000 + mode, 2, 0, 0, 0, name, [])
      case File(name, data, mode) => Entry(ino, 0x8000 + mode, 1, |data|, 0, 0, name, data)
      case Chardev(name, major, minor, mode) => Entry(ino, 0x2000 + mode, 1, 0, major, minor, name, [])
  {
    TwelveBits();
    OrDisjoint(S_IFDIR, c.mode, 12);
    OrDisjoint(S_IFREG, c.mode, 12);
    OrDisjoint(S_IFCHR, c.mode, 12);
  }

  lemma TwelveBits()
    ensures Pow2(12) == 0x1000
  {
    assert Pow2(4) == 16;
    assert Pow2(8) == 16 * Pow2(4);
  }

  /** A bit of the mode is set if it is set in the type or in the permissions. */
  lemma {:induction false} OrIs(a: nat, b: nat)
    ensures Or(a, b) % 2 == (if a % 2 == 1 || b % 2 == 1 then 1 else 0) && Or(a, b) / 2 == Or(a / 2, b / 2)
  {
    if a == 0 {
      assert Or(0, b / 2) == b / 2;
    }
  }

  /** The entries of a run of calls, numbered from 721 on. */
  lemma EntriesAre(calls: seq<Call>, i: nat)
    requires i < |calls|
    ensures |Entries(calls)| == |calls| && Entries(calls)[i] == EntryOf(calls[i], 721 + i)
  {
  }

  /** UTF-8: one to four bytes, the first of which tells how many follow. */
  lemma CharIs(c: scalar)
    ensures var s := EncodeChar(c);
      if c < 0x80 then s == [c]
      else if c < 0x800 then
        && |s| == 2 && 0xC2 <= s[0] < 0xE0 && 0x80 <= s[1] < 0xC0
        && c == 64 * (s[0] as int - 0xC0) + (s[1] as int - 0x80)
      else if c < 0x10000 then
        && |s| == 3 && 0xE0 <= s[0] < 0xF0 && 0x80 <= s[1] < 0xC0 && 0x80 <= s[2] < 0xC0
        && c == 4096 * (s[0] as int - 0xE0) + 64 * (s[1] as int - 0x80) + (s[2] as int - 0x80)
      else
        && |s| == 4 && 0xF0 <= s[0] < 0xF5 && 0x80 <= s[1] < 0xC0 && 0x80 <= s[2] < 0xC0 && 0x80 <= s[3] < 0xC0
        && c == 262144 * (s[0] as int - 0xF0) + 4096 * (s[1] as int - 0x80) + 64 * (s[2] as int - 0x80) + (s[3] as int - 0x80)
  {
    var a := c / 64;
    var b := a / 64;
    assert b == c / 4096 && b / 64 == c / 262144;
  }

  /** A name is encoded character by character. */
  lemma {:induction false} NameIs(a: seq<scalar>, b: seq<scalar>, c: scalar)
    ensures EncodeName([]) == [] && EncodeName([c]) == EncodeChar(c) && EncodeName(a + b) == EncodeName(a) + EncodeName(b)
  {
    hide EncodeChar;
    assert [c][1..] == [] && EncodeChar(c) + [] == EncodeChar(c);
    if a == [] {
      assert a + b == b;
    } else {
      NameIs(a[1..], b, c);
      assert (a + b)[0] == a[0] && (a + b)[1..] == a[1..] + b;
    }
  }

  // ---------------------------------------------------------------- reading

  /** The thirteen numbers of the header at `at`. */
  function ReadNumbers(s: bytes, at: nat): (ns: seq<Option<nat>>)
    requires at + HEADER_SIZE <= |s|
  {
    seq(13, i requires 0 <= i < 13 => ParseHex(s[at + 6 + 8 * i..at + 14 + 8 * i]))
  }

  /** A name ends at its first NUL. */
  function CString(s: bytes): bytes {
    if s == [] || s[0] == 0 then [] else [s[0]] + CString(s[1..])
  }

  /** A reader of the newc format: the entry at `at`, and where the next one starts. */
  function ReadEntry(s: bytes, at: nat): (r: Option<(Entry, nat)>)
    ensures r.Some? ==> r.value.1 > at
  {
    if at + HEADER_SIZE > |s| || s[at..at + 6] != CPIO_MAGIC then None
    else
      var ns := ReadNumbers(s, at);
      if exists i :: 0 <= i < 13 && ns[i].None? then None
      else
        var nameEnd := at + HEADER_SIZE + ns[11].value;
        var dataStart := RoundUp(nameEnd, 4);
        var dataEnd := dataStart + ns[6].value;
        if dataEnd > |s| then None
        else
          var name := CString(s[at + HEADER_SIZE..nameEnd]);
          Some((Entry(ns[0].value, ns[1].value, ns[4].value, ns[6].value, ns[9].value, ns[10].value, name,
                      s[dataStart..dataEnd]), RoundUp(dataEnd, 4)))
  }

  /** All entries up to the trailer. */
  function ReadAll(s: bytes, at: nat): Option<seq<Entry>>
    decreases |s| - at
  {
    var r := ReadEntry(s, at);
    if r.None? then None
    else if r.value.0.name == TRAILER then Some([])
    else if r.value.1 > |s| then None
    else
      var rest := ReadAll(s, r.value.1);
      if rest.None? then None else Some([r.value.0] + rest.value)
  }

  /** What the format can express: 32-bit numbers, an ASCII name without NUL, and the right size. */
  predicate Expressible(e: Entry) {
    Narrow(Numbers(e)) && IsAscii(e.name) && 0 !in e.name && e.fileSize == |e.data|
  }

  lemma {:induction false} CStringOf(name: bytes)
    requires 0 !in name
    ensures CString(name + [0]) == name
  {
    var s := name + [0];
    if name != [] {
      assert s[1..] == name[1..] + [0];
      CStringOf(name[1..]);
    }
  }

  /** The header of an expressible entry, wherever it starts. */
  lemma HeaderRead(s: bytes, at: nat, e: Entry)
    requires Expressible(e)
    requires at + |Header(e)| <= |s| && s[at..at + |Header(e)|] == Header(e)
    ensures |Header(e)| == HEADER_SIZE + |e.name| + 1
    ensures s[at..at + 6] == CPIO_MAGIC
    ensures forall i :: 0 <= i < 13 ==> ReadNumbers(s, at)[i] == Some(Numbers(e)[i])
    ensures CString(s[at + HEADER_SIZE..at + |Header(e)|]) == e.name
  {
    hide ParseHex, EncodeName, Numbers;
    var ns, tail := Numbers(e), EncodeName(e.name) + [0];
    ThirteenNumbers(e);
    NameSizeIsRight(e.name);
    HexFieldsAt(ns, tail);
    var h := Header(e);
    assert h == CPIO_MAGIC + (HexFields(ns) + tail);
    SliceOfSlice(s, at, at + |h|, 0, 6);
    assert h[0..6] == CPIO_MAGIC;
    forall i | 0 <= i < 13
      ensures ReadNumbers(s, at)[i] == Some(ns[i])
    {
      SliceOfSlice(s, at, at + |h|, 6 + 8 * i, 14 + 8 * i);
      assert h[6 + 8 * i..14 + 8 * i] == (HexFields(ns) + tail)[8 * i..8 * i + 8];
    }
    SliceOfSlice(s, at, at + |h|, HEADER_SIZE, |h|);
    assert h[HEADER_SIZE..|h|] == tail;
    CStringOf(EncodeName(e.name));
  }

  lemma ThirteenNumbers(e: Entry)
    ensures |Numbers(e)| == 13
  {
  }

  lemma NumbersAre(e: Entry)
    ensures var ns := Numbers(e);
      ns[0] == e.ino && ns[1] == e.mode && ns[4] == e.nlink && ns[6] == e.fileSize
      && ns[9] == e.rdevMajor && ns[10] == e.rdevMinor && ns[11] == |e.name| + 1
  {
  }

  /** An expressible entry is read back, with its data at a multiple of four. */
  lemma EntryRead(s: bytes, at: nat, e: Entry)
    requires Expressible(e) && at % 4 == 0
    requires at + |EntryBytes(e)| <= |s| && s[at..at + |EntryBytes(e)|] == EntryBytes(e)
    ensures ReadEntry(s, at) == Some((e, at + |EntryBytes(e)|)) && |EntryBytes(e)| % 4 == 0
  {
    hide Header, ReadNumbers, CString, RoundUp, Numbers;
    var b, h := EntryBytes(e), |Header(e)|;
    var d := RoundUp(h, 4);
    assert b[0..h] == Header(e) && b[d..d + |e.data|] == e.data;
    SliceOfSlice(s, at, at + |b|, 0, h);
    HeaderRead(s, at, e);
    NumbersAre(e);
    PadFromMultiple(at, h, 4);
    MultiplesAdd(at, d, 4);
    PadFromMultiple(at + d, |e.data|, 4);
    MultiplesAdd(d, RoundUp(|e.data|, 4), 4);
    SliceOfSlice(s, at, at + |b|, d, d + |e.data|);
  }

  lemma {:induction false} ArchiveParts(all: seq<Entry>, k: nat) returns (rest: bytes)
    requires k < |all|
    ensures Archive(all) == Archive(all[..k]) + EntryBytes(all[k]) + rest
  {
    hide EntryBytes;
    var init := all[..|all| - 1];
    if k == |all| - 1 {
      rest := [];
    } else {
      var r := ArchiveParts(init, k);
      assert init[..k] == all[..k];
      rest := r + EntryBytes(all[|all| - 1]);
    }
  }

  /** Reading from entry `k` on gives the entries from `k` to the trailer. */
  lemma {:induction false} ReadFrom(s: bytes, all: seq<Entry>, k: nat, pad: bytes)
    requires k < |all| && s == Archive(all) + pad
    requires forall i :: 0 <= i < |all| ==> Expressible(all[i]) && (all[i].name == TRAILER <==> i == |all| - 1)
    requires |Archive(all[..k])| % 4 == 0
    ensures ReadAll(s, |Archive(all[..k])|) == Some(all[k..|all| - 1])
    decreases |all| - k
  {
    hide EntryBytes, ReadEntry, Expressible;
    var at := |Archive(all[..k])|;
    var rest := ArchiveParts(all, k);
    assert s[at..at + |EntryBytes(all[k])|] == EntryBytes(all[k]);
    EntryRead(s, at, all[k]);
    if k < |all| - 1 {
      assert all[..k + 1][..k] == all[..k];
      assert |Archive(all[..k + 1])| == at + |EntryBytes(all[k])|;
      MultiplesAdd(at, |EntryBytes(all[k])|, 4);
      ReadFrom(s, all, k + 1, pad);
      assert all[k..|all| - 1] == [all[k]] + all[k + 1..|all| - 1];
    }
  }

  /** A reader finds exactly the entries that were added. */
  lemma ReadsBack(entries: seq<Entry>)
    requires forall i :: 0 <= i < |entries| ==> Expressible(entries[i]) && entries[i].name != TRAILER
    requires FIRST_INODE + |entries| + 1 < TWO_32
    ensures ReadAll(Finished(entries), 0) == Some(entries)
  {
    hide EntryBytes, ReadEntry, ReadAll, Archive;
    var last := TrailerEntry(FIRST_INODE + |entries| + 1);
    var all := entries + [last];
    TrailerExpressible(FIRST_INODE + |entries| + 1);
    NothingArchived();
    assert all[..0] == [] && all[0..|all| - 1] == entries;
    ReadFrom(Finished(entries), all, 0, PadTo(|Archive(all)|, 512));
  }

  lemma NothingArchived()
    ensures Archive([]) == []
  {
  }

  lemma TrailerExpressible(ino: nat)
    requires ino < TWO_32
    ensures Expressible(TrailerEntry(ino)) && TrailerEntry(ino).name == TRAILER
  {
  }

  // ---------------------------------------------------------------- whole runs

  lemma {:induction false} OrBound(a: nat, b: nat, n: nat)
    requires a < Pow2(n) && b < Pow2(n)
    ensures Or(a, b) < Pow2(n)
  {
    if a > 0 && n > 0 {
      OrBound(a / 2, b / 2, n - 1);
    }
  }

  /** The file type and the permissions stand side by side in the mode. */
  lemma {:induction false} OrDisjoint(a: nat, b: nat, n: nat)
    requires a % Pow2(n) == 0 && b < Pow2(n)
    ensures Or(a, b) == a + b
  {
    if n == 0 {
      OrNothing(a);
    } else if a > 0 {
      HalfMultiple(a, Pow2(n - 1));
      OrDisjoint(a / 2, b / 2, n - 1);
    }
  }

  lemma HalfMultiple(a: nat, p: nat)
    requires p > 0 && a % (2 * p) == 0
    ensures a % 2 == 0 && a / 2 % p == 0
  {
    var q := a / (2 * p);
    var half := q * p;
    assert a == 2 * half;
    MultipleDivides(q, p);
  }

  lemma {:induction false} OrNothing(a: nat)
    ensures Or(a, 0) == a
  {
    if a > 0 {
      OrNothing(a / 2);
    }
  }

  function Entries(calls: seq<Call>): (es: seq<Entry>)
    ensures |es| == |calls|
  {
    seq(|calls|, i requires 0 <= i < |calls| => EntryOf(calls[i], FIRST_INODE + 1 + i))
  }

  /** An ASCII name without NUL that is not the trailer's, and sizes below two to the 32. */
  predicate CallOk(c: Call) {
    && IsAscii(c.name) && 0 !in c.name && c.name != TRAILER && |c.name| + 1 < TWO_32 && c.mode < TWO_32
    && (c.File? ==> |c.data| < TWO_32) && (c.Chardev? ==> c.major < TWO_32 && c.minor < TWO_32)
  }

  lemma CallExpressible(c: Call, ino: nat)
    requires CallOk(c) && ino < TWO_32
    ensures Expressible(EntryOf(c, ino)) && EntryOf(c, ino).name != TRAILER
  {
    ThirtyTwoBits();
    OrBound(S_IFDIR, c.mode, 32);
    OrBound(S_IFREG, c.mode, 32);
    OrBound(S_IFCHR, c.mode, 32);
  }

  lemma ThirtyTwoBits()
    ensures Pow2(32) == TWO_32
  {
    assert Pow2(8) == 256 by {
      assert Pow2(4) == 16;
    }
    assert Pow2(12) == 16 * Pow2(8);
    assert Pow2(16) == 16 * Pow2(12);
    assert Pow2(20) == 16 * Pow2(16);
    assert Pow2(24) == 16 * Pow2(20);
    assert Pow2(28) == 16 * Pow2(24);
  }

  /** Any sequence of calls and the trailer: a multiple of 512 bytes, from which a reader gets exactly the entries
      that were added, in order and with distinct inode numbers. */
  method Build(calls: seq<Call>) returns (archive: bytes)
    ensures |archive| % 512 == 0 && archive == Finished(Entries(calls))
    ensures (forall i :: 0 <= i < |calls| ==> CallOk(calls[i])) && FIRST_INODE + |calls| + 1 < TWO_32 ==>
      ReadAll(archive, 0) == Some(Entries(calls))
    ensures forall i, j :: 0 <= i < j < |calls| ==> Entries(calls)[i].ino != Entries(calls)[j].ino
  {
    hide ReadAll, Archive, Finished, Or, CallOk, Expressible;
    var cpio := new Cpio();
    for i := 0 to |calls|
      invariant cpio.Valid() && cpio.entries == Entries(calls[..i])
    {
      match calls[i] {
        case Dir(name, mode) => cpio.Directory(name, mode);
        case File(name, data, mode) => cpio.AddFile(name, data, mode);
        case Chardev(name, major, minor, mode) => cpio.AddChardev(name, major, minor, mode);
      }
      assert cpio.entries == Entries(calls[..i + 1]);
    }
    assert calls[..|calls|] == calls;
    archive := cpio.Trailer();
    if (forall i :: 0 <= i < |calls| ==> CallOk(calls[i])) && FIRST_INODE + |calls| + 1 < TWO_32 {
      forall i | 0 <= i < |calls|
        ensures Expressible(Entries(calls)[i]) && Entries(calls)[i].name != TRAILER
      {
        CallExpressible(calls[i], FIRST_INODE + 1 + i);
      }
      ReadsBack(Entries(calls));
    }
  }
}
