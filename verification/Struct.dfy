/** Fixed layouts in the manner of Python's `struct`: fields of known width, one after the other. */
module Struct {
  import opened Bytes

  function Total(ws: seq<nat>): nat {
    if ws == [] then 0 else ws[0] + Total(ws[1..])
  }

  function Join(fields: seq<bytes>): bytes {
    if fields == [] then [] else fields[0] + Join(fields[1..])
  }

  function Widths(fields: seq<bytes>): (ws: seq<nat>)
    ensures |ws| == |fields|
  {
    seq(|fields|, i requires 0 <= i < |fields| => |fields[i]|)
  }

  /** Cuts `data` into fields of the given widths. */
  function Split(ws: seq<nat>, data: bytes): (fields: seq<bytes>)
    requires Total(ws) <= |data|
    ensures |fields| == |ws|
    ensures forall i :: 0 <= i < |ws| ==> |fields[i]| == ws[i]
  {
    if ws == [] then [] else [data[..ws[0]]] + Split(ws[1..], data[ws[0]..])
  }

  /** Cutting what was joined gives the fields back. */
  lemma {:induction false} SplitJoin(fields: seq<bytes>, rest: bytes)
    ensures |Join(fields)| == Total(Widths(fields))
    ensures Split(Widths(fields), Join(fields) + rest) == fields
  {
    if fields != [] {
      SplitJoin(fields[1..], rest);
      assert Widths(fields)[1..] == Widths(fields[1..]);
      var data := Join(fields) + rest;
      assert data[..|fields[0]|] == fields[0];
      assert data[|fields[0]|..] == Join(fields[1..]) + rest;
    }
  }

  lemma {:induction false} TotalConcat(a: seq<nat>, b: seq<nat>)
    ensures Total(a + b) == Total(a) + Total(b)
  {
    if a == [] {
      assert a + b == b;
    } else {
      TotalConcat(a[1..], b);
      assert (a + b)[1..] == a[1..] + b;
    }
  }

  lemma TotalOfTwo(a: nat, b: nat)
    ensures Total([a, b]) == a + b
  {
    assert [a, b][1..] == [b] && [b][1..] == [];
    assert Total([b]) == b;
  }

  lemma TotalOfThree(a: nat, b: nat, c: nat)
    ensures Total([a, b, c]) == a + b + c
  {
    TotalOfTwo(b, c);
    assert [a, b, c][1..] == [b, c];
  }

  lemma TotalOfFour(a: nat, b: nat, c: nat, d: nat)
    ensures Total([a, b, c, d]) == a + b + c + d
  {
    TotalOfThree(b, c, d);
    assert [a, b, c, d][1..] == [b, c, d];
  }

  lemma TotalOfFive(a: nat, b: nat, c: nat, d: nat, e: nat)
    ensures Total([a, b, c, d, e]) == a + b + c + d + e
  {
    TotalOfFour(b, c, d, e);
    assert [a, b, c, d, e][1..] == [b, c, d, e];
  }

  // ---------------------------------------------------------------- text

  /** `struct.pack('Ns', s)`: cut or padded with NULs to `n` bytes. */
  function Fixed(s: bytes, n: nat): (f: bytes)
    ensures |f| == n
  {
    Resize(s, n)
  }

  /** `s.rstrip(b'\0')`. */
  function RStrip(s: bytes): (t: bytes)
    ensures |t| <= |s| && t == s[..|t|]
    ensures t != [] ==> t[|t| - 1] != 0
    ensures forall i :: |t| <= i < |s| ==> s[i] == 0
  {
    if s == [] || s[|s| - 1] != 0 then s else RStrip(s[..|s| - 1])
  }

  /** Text survives a fixed field exactly when it fits and does not end in NUL. */
  lemma FixedRoundTrip(s: bytes, n: nat)
    ensures RStrip(Fixed(s, n)) == s <==> |s| <= n && (s != [] ==> s[|s| - 1] != 0)
  {
    var f := Fixed(s, n);
    var t := RStrip(f);
    if |s| <= n && (s != [] ==> s[|s| - 1] != 0) {
      assert f[..|s|] == s;
      assert s != [] ==> f[|s| - 1] == s[|s| - 1];
      assert t != [] ==> f[|t| - 1] == t[|t| - 1];
      assert |t| == |s|;
    }
  }

  predicate Ascii(s: bytes) { forall i :: 0 <= i < |s| ==> s[i] < 128 }

  predicate Continuation(b: byte) { 0x80 <= b < 0xC0 }

  /** Well-formed UTF-8 as Python's strict decoder accepts it. */
  predicate Utf8(s: bytes) {
    if s == [] then true
    else if s[0] < 0x80 then Utf8(s[1..])
    else if 0xC2 <= s[0] < 0xE0 then |s| >= 2 && Continuation(s[1]) && Utf8(s[2..])
    else if 0xE0 <= s[0] < 0xF0 then
      |s| >= 3 && Continuation(s[1]) && Continuation(s[2])
      && (s[0] == 0xE0 ==> s[1] >= 0xA0) && (s[0] == 0xED ==> s[1] < 0xA0) && Utf8(s[3..])
    else if 0xF0 <= s[0] < 0xF5 then
      |s| >= 4 && Continuation(s[1]) && Continuation(s[2]) && Continuation(s[3])
      && (s[0] == 0xF0 ==> s[1] >= 0x90) && (s[0] == 0xF4 ==> s[1] < 0x90) && Utf8(s[4..])
    else false
  }
}
