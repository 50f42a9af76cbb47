/** smoke/catch_uboot.py: sending and receiving WebSocket frames (sections 5.2 and 5.3 of RFC 6455). */
module WebSocket {
  import opened Bytes
  import opened Results

  import opened Layouts

  // ---------------------------------------------------------------- masking

  /** Exclusive or of the low `n` bits. */
  function XorBits(a: nat, b: nat, n: nat): (r: nat)
    ensures r < Pow2(n)
  {
    if n == 0 then 0 else 2 * XorBits(a / 2, b / 2, n - 1) + (a + b) % 2
  }

  lemma {:induction false} XorBitsTwice(a: nat, b: nat, n: nat)
    requires a < Pow2(n)
    ensures XorBits(XorBits(a, b, n), b, n) == a
  {
    if n > 0 {
      XorBitsTwice(a / 2, b / 2, n - 1);
      LowBit(XorBits(a / 2, b / 2, n - 1), a, b);
    }
  }

  lemma LowBit(high: nat, a: nat, b: nat)
    ensures (2 * high + (a + b) % 2) / 2 == high && (2 * high + (a + b) % 2 + b) % 2 == a % 2
  {
  }

  function Xor(a: byte, b: byte): byte {
    EightBits();
    XorBits(a, b, 8)
  }

  lemma EightBits()
    ensures Pow2(8) == 256
  {
    assert Pow2(4) == 4 * Pow2(2);
    assert Pow2(6) == 4 * Pow2(4);
  }

  /** The payload with the mask applied. */
  function Masked(payload: bytes, mask: bytes): bytes
    requires |mask| == 4
  {
    seq(|payload|, i requires 0 <= i < |payload| => Xor(payload[i], mask[i % 4]))
  }

  /** Masking twice with the same mask changes nothing. */
  lemma MaskTwice(payload: bytes, mask: bytes)
    requires |mask| == 4
    ensures Masked(Masked(payload, mask), mask) == payload
  {
    EightBits();
    forall i | 0 <= i < |payload|
      ensures Masked(Masked(payload, mask), mask)[i] == payload[i]
    {
      XorBitsTwice(payload[i], mask[i % 4], 8);
    }
  }

  /** Bit `k` of a number, counted from the lowest. */
  function Bit(x: nat, k: nat): nat { if k == 0 then x % 2 else Bit(x / 2, k - 1) }

  /** A bit of the result is set if exactly one of the two bits is. */
  predicate IsXor(r: byte, a: byte, b: byte) {
    forall k: nat :: k < 8 ==> (Bit(r, k) == 1 <==> Bit(a, k) != Bit(b, k))
  }

  lemma {:induction false} BitOfXor(a: nat, b: nat, n: nat, k: nat)
    requires k < n
    ensures Bit(XorBits(a, b, n), k) == 1 <==> Bit(a, k) != Bit(b, k)
  {
    hide XorBits;
    LowestBit(a, b, n);
    if k > 0 {
      BitOfXor(a / 2, b / 2, n - 1, k - 1);
    }
  }

  lemma LowestBit(a: nat, b: nat, n: nat)
    requires n > 0
    ensures XorBits(a, b, n) / 2 == XorBits(a / 2, b / 2, n - 1)
    ensures XorBits(a, b, n) % 2 == 1 <==> a % 2 != b % 2
  {
    assert XorBits(a, b, n) == 2 * XorBits(a / 2, b / 2, n - 1) + (a + b) % 2;
    Appended(XorBits(a / 2, b / 2, n - 1), (a + b) % 2);
    Parity(a, b);
  }

  lemma Appended(high: nat, low: nat)
    requires low < 2
    ensures (2 * high + low) / 2 == high && (2 * high + low) % 2 == low
  {
  }

  lemma Parity(a: nat, b: nat)
    ensures (a + b) % 2 == 1 <==> a % 2 != b % 2
  {
    var x, y := a / 2, b / 2;
    assert a + b == 2 * (x + y) + (a % 2 + b % 2);
  }

  lemma XorIs(a: byte, b: byte)
    ensures IsXor(Xor(a, b), a, b)
  {
    EightBits();
    forall k: nat | k < 8
      ensures Bit(XorBits(a, b, 8), k) == 1 <==> Bit(a, k) != Bit(b, k)
    {
      BitOfXor(a, b, 8, k);
    }
  }

  /** A byte is made of its bits. */
  lemma BitsAre(x: byte)
    ensures x == Bit(x, 0) + 2 * Bit(x, 1) + 4 * Bit(x, 2) + 8 * Bit(x, 3)
                 + 16 * Bit(x, 4) + 32 * Bit(x, 5) + 64 * Bit(x, 6) + 128 * Bit(x, 7)
    ensures forall k: nat :: Bit(x, k) < 2
  {
    forall k: nat
      ensures Bit(x, k) < 2
    {
      BitBound(x, k);
    }
    var a := x / 2;
    var b := a / 2;
    var c := b / 2;
    var d := c / 2;
    var e := d / 2;
    var f := e / 2;
    Halved(x);
    Halved(a);
    Halved(b);
    Halved(c);
    Halved(d);
    Halved(e);
    Halved(f);
    hide Bit;
    assert Bit(f, 1) == f / 2 by { LastBit(f); }
  }

  lemma LastBit(f: nat)
    requires f < 4
    ensures Bit(f, 1) == f / 2
  {
    assert Bit(f / 2, 0) == f / 2;
  }

  lemma Halved(x: nat)
    ensures x == 2 * (x / 2) + Bit(x, 0)
    ensures Bit(x, 1) == Bit(x / 2, 0) && Bit(x, 2) == Bit(x / 2, 1) && Bit(x, 3) == Bit(x / 2, 2) && Bit(x, 4) == Bit(x / 2, 3)
    ensures Bit(x, 5) == Bit(x / 2, 4) && Bit(x, 6) == Bit(x / 2, 5) && Bit(x, 7) == Bit(x / 2, 6)
  {
  }

  lemma {:induction false} BitBound(x: nat, k: nat)
    ensures Bit(x, k) < 2
  {
    if k > 0 {
      BitBound(x / 2, k - 1);
    }
  }

  /** The mask is applied byte by byte, again from its start every four bytes. */
  lemma MaskedIs(payload: bytes, mask: bytes)
    requires |mask| == 4
    ensures |Masked(payload, mask)| == |payload|
    ensures forall i :: 0 <= i < |payload| ==> IsXor(Masked(payload, mask)[i], payload[i], mask[i % 4])
  {
    hide IsXor, Xor;
    forall i | 0 <= i < |payload|
      ensures IsXor(Masked(payload, mask)[i], payload[i], mask[i % 4])
    {
      XorIs(payload[i], mask[i % 4]);
    }
  }

  // ---------------------------------------------------------------- frames

  datatype Frame = Frame(opcode: nat, payload: bytes, size: nat)

  /** Length of the fixed header with its extended length field. */
  function LengthEnd(b2: byte): nat {
    if b2 % 128 == 126 then 4 else if b2 % 128 == 127 then 10 else 2
  }

  function PayloadLength(s: bytes): nat
    requires |s| >= 2 && |s| >= LengthEnd(s[1])
  {
    if s[1] % 128 < 126 then s[1] % 128 else FromBE(s[2..LengthEnd(s[1])])
  }

  /** Where the payload starts: behind the mask, if there is one. */
  function PayloadStart(b2: byte): nat { LengthEnd(b2) + if b2 >= 128 then 4 else 0 }

  /** The frame at the start of `s`, if all of it is there. */
  function ParseFrame(s: bytes): (f: Option<Frame>)
    ensures f.Some? ==> |f.value.payload| + 2 <= f.value.size <= |s|
  {
    if |s| < 2 || |s| < PayloadStart(s[1]) || |s| < PayloadStart(s[1]) + PayloadLength(s) then None
    else
      var start, n := PayloadStart(s[1]), PayloadLength(s);
      var data := s[start..start + n];
      Some(Frame(s[0] % 16, if s[1] >= 128 then Masked(data, s[start - 4..start]) else data, start + n))
  }

  /** More bytes do not change a frame that is complete. */
  lemma FrameStable(s: bytes, more: bytes)
    requires ParseFrame(s).Some?
    ensures ParseFrame(s + more) == ParseFrame(s)
  {
    hide FromBE, Masked;
    var t, end := s + more, LengthEnd(s[1]);
    assert t[0] == s[0] && t[1] == s[1];
    SlicesAgree(t, s, 2, end);
    var start, n := PayloadStart(s[1]), PayloadLength(s);
    SlicesAgree(t, s, start, start + n);
    SlicesAgree(t, s, end, start);
  }

  /** The frame at the start of `s`, part by part. */
  lemma FrameAt(s: bytes)
    requires |s| >= 2
    ensures |s| < PayloadStart(s[1]) ==> ParseFrame(s).None?
    ensures |s| >= PayloadStart(s[1]) ==>
      var start, n := PayloadStart(s[1]), PayloadLength(s);
      ParseFrame(s) ==
        if |s| < start + n then None
        else
          var data := s[start..start + n];
          Some(Frame(s[0] % 16, if s[1] >= 128 then Masked(data, s[start - 4..start]) else data, start + n))
  {
    hide FromBE, Masked;
  }

  /** What a frame looks like: final bit and opcode, mask bit and length, the length in two or eight more bytes, the
      mask, the payload. */
  ghost predicate IsFrame(s: bytes, f: Frame, extended: nat, masked: bool) {
    && |s| >= 2 && f.opcode == s[0] % 16 && (masked <==> s[1] >= 128)
    && extended == (if s[1] % 128 == 126 then 2 else if s[1] % 128 == 127 then 8 else 0) && |s| >= 2 + extended
    && |f.payload| == (if extended == 2 then 256 * s[2] as int + s[3] as int else if extended == 8 then Be64(s, 2) else s[1] % 128)
    && f.size == 2 + extended + (if masked then 4 else 0) + |f.payload| && |s| >= f.size
    && forall k :: 0 <= k < |f.payload| ==>
         if masked then IsXor(f.payload[k], s[f.size - |f.payload| + k], s[2 + extended + k % 4])
         else f.payload[k] == s[f.size - |f.payload| + k]
  }

  /** A frame is found exactly if all of one is there. */
  lemma FrameIs(s: bytes) returns (extended: nat)
    ensures ParseFrame(s).Some? ==> IsFrame(s, ParseFrame(s).value, extended, s[1] >= 128)
    ensures ParseFrame(s).None? ==> forall f, other, masked :: !IsFrame(s, f, other, masked)
  {
    hide ParseFrame, IsFrame;
    extended := 0;
    if ParseFrame(s).Some? {
      extended := FoundFrame(s);
    } else {
      forall f, other, masked
        ensures !IsFrame(s, f, other, masked)
      {
        if IsFrame(s, f, other, masked) {
          FrameThere(s, f, other, masked);
        }
      }
    }
  }

  /** The same without these names. */
  lemma FrameMeans(s: bytes, f: Frame, extended: nat, masked: bool, k: nat, bit: nat)
    requires IsFrame(s, f, extended, masked)
    ensures |s| >= 2 && f.opcode == s[0] % 16 && (masked <==> s[1] >= 128)
    ensures extended == if s[1] % 128 == 126 then 2 else if s[1] % 128 == 127 then 8 else 0
    ensures f.size == 2 + extended + (if masked then 4 else 0) + |f.payload| <= |s|
    ensures extended == 0 ==> |f.payload| == s[1] % 128
    ensures extended == 2 ==> |f.payload| == 256 * s[2] as int + s[3] as int
    ensures extended == 8 ==> |f.payload| == Be64(s, 2)
    ensures k < |f.payload| && !masked ==> f.payload[k] == s[2 + extended + k]
    ensures k < |f.payload| && masked && bit < 8 ==>
      (Bit(f.payload[k], bit) == 1 <==> Bit(s[6 + extended + k], bit) != Bit(s[2 + extended + k % 4], bit))
  {
    hide Bit, Be64;
  }

  lemma FoundFrame(s: bytes) returns (extended: nat)
    requires ParseFrame(s).Some?
    ensures IsFrame(s, ParseFrame(s).value, extended, s[1] >= 128)
  {
    hide IsXor, Masked, FromBE, Be64, PayloadLength;
    extended := LengthEnd(s[1]) - 2;
    LengthIs(s);
    if s[1] >= 128 {
      var start, n := PayloadStart(s[1]), PayloadLength(s);
      var data, mask := s[start..start + n], s[start - 4..start];
      MaskedIs(data, mask);
      assert start - 4 == 2 + extended;
      forall k | 0 <= k < n
        ensures IsXor(Masked(data, mask)[k], s[start + k], s[2 + extended + k % 4])
      {
        SlicedAt(s, start, start + n, k);
        SlicedAt(s, start - 4, start, k % 4);
      }
    }
  }

  lemma SlicedAt(s: bytes, lo: nat, hi: nat, k: nat)
    requires lo <= hi <= |s| && k < hi - lo
    ensures s[lo..hi][k] == s[lo + k]
  {
  }

  lemma FrameThere(s: bytes, f: Frame, extended: nat, masked: bool)
    requires IsFrame(s, f, extended, masked)
    ensures ParseFrame(s).Some?
  {
    hide ParseFrame, IsXor, FromBE, Be64, PayloadLength;
    FrameAt(s);
    LengthIs(s);
  }

  lemma LengthIs(s: bytes)
    requires |s| >= 2 && |s| >= LengthEnd(s[1])
    ensures PayloadLength(s) ==
      if LengthEnd(s[1]) == 4 then 256 * s[2] as int + s[3] as int
      else if LengthEnd(s[1]) == 10 then Be64(s, 2) else s[1] % 128
  {
    hide FromBE;
    if LengthEnd(s[1]) == 4 {
      TwoBytes(s[2..4]);
    } else if LengthEnd(s[1]) == 10 {
      EightBytesAt(s, 2);
    }
  }

  const TEXT := 1
  const BINARY := 2
  const CONTINUATION := 0
  const CLOSE := 8

  predicate IsData(opcode: nat) { opcode in {TEXT, BINARY, CONTINUATION} }

  /** The data of a whole stream, what is left behind its last complete frame, and whether a close frame ended it. */
  datatype Decoded = Decoded(out: bytes, rest: bytes, closed: bool)

  function Decode(s: bytes): Decoded
    decreases |s|
  {
    var f := ParseFrame(s);
    if f.None? then Decoded([], s, false)
    else if f.value.opcode == CLOSE then Decoded([], [], true)
    else Prepend(if IsData(f.value.opcode) then f.value.payload else [], Decode(s[f.value.size..]))
  }

  function Prepend(data: bytes, d: Decoded): Decoded { d.(out := data + d.out) }

  /** What the opcodes do: 8 ends the stream, 0, 1 and 2 bring data, all others are skipped. */
  lemma OpcodesMean(s: bytes)
    requires ParseFrame(s).Some?
    ensures var f := ParseFrame(s).value;
      && (f.opcode == 8 ==> Decode(s) == Decoded([], [], true))
      && (f.opcode in {0, 1, 2} ==>
            Decode(s) == Decode(s[f.size..]).(out := f.payload + Decode(s[f.size..]).out))
      && (f.opcode !in {0, 1, 2, 8} ==> Decode(s) == Decode(s[f.size..]))
  {
    hide ParseFrame;
    var f := ParseFrame(s).value;
    assert [] + Decode(s[f.size..]).out == Decode(s[f.size..]).out;
  }

  lemma PrependTwice(a: bytes, b: bytes, d: Decoded)
    ensures Prepend(a, Prepend(b, d)) == Prepend(a + b, d)
  {
    assert a + (b + d.out) == (a + b) + d.out;
  }

  // ---------------------------------------------------------------- the socket

  /** What one `recv` can bring: some bytes (none at the end of the connection), or nothing yet. */
  datatype Event = Data(chunk: bytes) | WouldBlock

  /** All the bytes that are still to come, over any number of calls. */
  function Unread(events: seq<Event>): bytes {
    if events == [] then []
    else if events[0].Data? then events[0].chunk + Unread(events[1..]) else Unread(events[1..])
  }

  /** The bytes come in the order of the reads. */
  lemma {:induction false} UnreadInOrder(a: seq<Event>, b: seq<Event>, chunk: bytes)
    ensures Unread(a + b) == Unread(a) + Unread(b)
    ensures Unread([Data(chunk)]) == chunk && Unread([WouldBlock]) == [] && Unread([]) == []
  {
    assert [Data(chunk)][1..] == [] && [WouldBlock][1..] == [];
    if a == [] {
      assert a + b == b;
    } else {
      UnreadInOrder(a[1..], b, chunk);
      assert (a + b)[1..] == a[1..] + b;
    }
  }

  /** A non-blocking socket; `room` is the number of bytes it takes before it would block. */
  class Socket {
    var incoming: seq<Event>
    var sent: bytes
    var room: nat

    constructor (events: seq<Event>, room: nat)
      ensures incoming == events && sent == [] && this.room == room
    {
      incoming, sent, this.room := events, [], room;
    }

    method Recv() returns (e: Event)
      modifies this`incoming
      ensures Unread(old(incoming)) == if e.Data? then e.chunk + Unread(incoming) else Unread(incoming)
      ensures if old(incoming) == [] then e == WouldBlock && incoming == [] else old(incoming) == [e] + incoming
    {
      if incoming == [] {
        return WouldBlock;
      }
      e, incoming := incoming[0], incoming[1..];
    }

    /** `sendall`: what there is room for is gone even when it raises. */
    method SendAll(data: bytes) returns (r: Result<()>)
      modifies this`sent, this`room
      ensures r.Ok? <==> |data| <= old(room)
      ensures sent == old(sent) + Clip(data, 0, old(room)) && room == old(room) - |Clip(data, 0, old(room))|
    {
      var taken := Clip(data, 0, room);
      sent, room := sent + taken, room - |taken|;
      return if |taken| == |data| then Ok(()) else Err(BlockingIOError);
    }
  }

  /** An event that brings no bytes: nothing yet, or the end. */
  predicate Stops(e: Event) { e.Data? ==> e.chunk == [] }

  /** Reading stopped because the events ran out or the last one brought nothing. */
  predicate Stalled(before: seq<Event>, after: seq<Event>) {
    after == [] || exists k :: 0 <= k < |before| && Stops(before[k]) && after == before[k + 1..]
  }

  predicate Suffix(after: seq<Event>, before: seq<Event>) {
    |after| <= |before| && after == before[|before| - |after|..]
  }

  lemma StalledLater(a: seq<Event>, b: seq<Event>, c: seq<Event>)
    requires Suffix(b, a) && Stalled(b, c)
    ensures Stalled(a, c)
  {
    if c != [] {
      var k :| 0 <= k < |b| && Stops(b[k]) && c == b[k + 1..];
      var n := |a| - |b| + k;
      assert Stops(a[n]) && c == a[n + 1..];
    }
  }

  /** The inner `need`: reads until `n` bytes are buffered, or the socket has no more for now. */
  method Need(sock: Socket, buf: bytes, n: nat) returns (ok: bool, grown: bytes)
    modifies sock`incoming
    ensures buf <= grown && grown + Unread(sock.incoming) == buf + Unread(old(sock.incoming))
    ensures ok <==> |grown| >= n
    ensures !ok ==> Stalled(old(sock.incoming), sock.incoming)
    ensures |buf| >= n ==> grown == buf
    ensures Suffix(sock.incoming, old(sock.incoming))
  {
    ghost var before, read: nat := sock.incoming, 0;
    grown := buf;
    while |grown| < n
      invariant buf <= grown && grown + Unread(sock.incoming) == buf + Unread(old(sock.incoming))
      invariant |buf| >= n ==> grown == buf
      invariant read <= |before| && sock.incoming == before[read..]
      decreases |sock.incoming|
    {
      var e := sock.Recv();
      assert read < |before| ==> e == before[read] && sock.incoming == before[read + 1..];
      read := if read < |before| then read + 1 else read;
      if !e.Data? || e.chunk == [] {
        assert e.Data? ==> e.chunk + Unread(sock.incoming) == Unread(sock.incoming);
        return false, grown;
      }
      grown := grown + e.chunk;
    }
    return true, grown;
  }

  /** The length field: seven bits, or two or eight more bytes. */
  method ReadLength(sock: Socket, buf: bytes) returns (ok: bool, grown: bytes, plen: nat, idx: nat)
    requires |buf| >= 2
    modifies sock`incoming
    ensures buf <= grown && grown + Unread(sock.incoming) == buf + Unread(old(sock.incoming))
    ensures ok <==> |grown| >= LengthEnd(buf[1])
    ensures ok ==> idx == LengthEnd(buf[1]) && plen == PayloadLength(grown)
    ensures !ok ==> Stalled(old(sock.incoming), sock.incoming)
    ensures Suffix(sock.incoming, old(sock.incoming))
  {
    hide FromBE, Stalled, Unread;
    ok, grown, plen, idx := true, buf, buf[1] % 128, 2;
    if plen == 126 {
      ok, grown := Need(sock, grown, 4);
      if ok {
        plen, idx := FromBE(grown[2..4]), 4;
      }
    } else if plen == 127 {
      ok, grown := Need(sock, grown, 10);
      if ok {
        plen, idx := FromBE(grown[2..10]), 10;
      }
    }
  }

  /** The mask behind the length field, if there is one. */
  method ReadMask(sock: Socket, buf: bytes, lengthEnd: nat) returns (ok: bool, grown: bytes, mask: bytes, idx: nat)
    requires |buf| >= 2 && |buf| >= LengthEnd(buf[1]) == lengthEnd
    modifies sock`incoming
    ensures buf <= grown && grown + Unread(sock.incoming) == buf + Unread(old(sock.incoming))
    ensures ok <==> |grown| >= PayloadStart(buf[1])
    ensures idx == PayloadStart(buf[1]) && PayloadLength(grown) == PayloadLength(buf)
    ensures ok && buf[1] >= 128 ==> mask == grown[idx - 4..idx]
    ensures !ok ==> Stalled(old(sock.incoming), sock.incoming)
    ensures Suffix(sock.incoming, old(sock.incoming))
  {
    hide Stalled, Unread, PayloadLength;
    ok, grown, mask, idx := true, buf, [], PayloadStart(buf[1]);
    if buf[1] >= 128 {
      ok, grown := Need(sock, buf, lengthEnd + 4);
      SameHeader(buf, grown);
      if ok {
        mask := grown[lengthEnd..lengthEnd + 4];
      }
    }
  }

  /** The header logic of the receive loop: the frame at the start of the buffer, reading on as needed. */
  method ReadFrame(sock: Socket, buf: bytes) returns (frame: Option<Frame>, grown: bytes)
    requires |buf| >= 2
    modifies sock`incoming
    ensures buf <= grown && grown + Unread(sock.incoming) == buf + Unread(old(sock.incoming))
    ensures frame == ParseFrame(grown)
    ensures frame.None? ==> Stalled(old(sock.incoming), sock.incoming)
    ensures Suffix(sock.incoming, old(sock.incoming))
  {
    hide ParseFrame, FromBE, Masked, Stalled, Suffix, Unread, PayloadLength;
    ghost var start := sock.incoming;
    var b1, b2 := buf[0], buf[1];
    var ok, plen, idx;
    ok, grown, plen, idx := ReadLength(sock, buf);
    FrameAt(grown);
    if !ok {
      return None, grown;
    }
    var mask;
    ghost var before := sock.incoming;
    ok, grown, mask, idx := ReadMask(sock, grown, idx);
    SuffixOfSuffix(start, before, sock.incoming);
    FrameAt(grown);
    if !ok {
      StalledLater(start, before, sock.incoming);
      return None, grown;
    }
    ghost var had, mid := grown, sock.incoming;
    ok, grown := Need(sock, grown, idx + plen);
    SameHeader(had, grown);
    SuffixOfSuffix(start, mid, sock.incoming);
    FrameAt(grown);
    if !ok {
      StalledLater(start, mid, sock.incoming);
      return None, grown;
    }
    assert b2 >= 128 ==> mask == grown[idx - 4..idx];
    var payload := grown[idx..idx + plen];
    if b2 >= 128 {
      payload := Masked(payload, mask);
    }
    frame := Some(Frame(b1 % 16, payload, idx + plen));
  }

  lemma SuffixOfSuffix(a: seq<Event>, b: seq<Event>, c: seq<Event>)
    requires Suffix(b, a) && Suffix(c, b)
    ensures Suffix(c, a)
  {
  }

  lemma SameHeader(s: bytes, t: bytes)
    requires |s| >= 2 && |s| >= LengthEnd(s[1]) && s <= t
    ensures t[0] == s[0] && t[1] == s[1] && PayloadLength(t) == PayloadLength(s)
  {
    assert t[2..LengthEnd(s[1])] == s[2..LengthEnd(s[1])];
  }

  /** The first step of a round: whatever is queued is taken; without anything buffered the loop stops. */
  method Poll(sock: Socket, buf: bytes) returns (grown: bytes)
    modifies sock`incoming
    ensures grown + Unread(sock.incoming) == buf + Unread(old(sock.incoming)) && buf <= grown
    ensures if old(sock.incoming) == [] then sock.incoming == [] else |sock.incoming| < |old(sock.incoming)|
  {
    grown := buf;
    var e := sock.Recv();
    if e.Data? && e.chunk != [] {
      grown := buf + e.chunk;
    }
  }

  /** What one complete frame contributes to the decoding of the stream. */
  lemma DecodeFrame(buf: bytes, unread: bytes)
    requires ParseFrame(buf).Some?
    ensures var f := ParseFrame(buf).value;
      Decode(buf + unread) ==
        if f.opcode == CLOSE then Decoded([], [], true)
        else Prepend(if IsData(f.opcode) then f.payload else [], Decode(buf[f.size..] + unread))
  {
    hide ParseFrame;
    var f := ParseFrame(buf).value;
    FrameStable(buf, unread);
    assert (buf + unread)[f.size..] == buf[f.size..] + unread;
  }

  /** `left` is the end of `all`. */
  predicate EndOf(left: bytes, all: bytes) { |left| <= |all| && all[|all| - |left|..] == left }

  lemma TrackStarts(available: bytes)
    ensures OnTrack(Decode(available), [], available, available)
  {
    hide Decode;
  }

  /** What the loop's state says, spelled out. */
  lemma Tracked(all: Decoded, out: bytes, left: bytes, available: bytes)
    requires OnTrack(all, out, left, available)
    ensures all == Prepend(out, Decode(left)) && |out| + |left| <= |available| && EndOf(left, available)
  {
  }

  lemma Dropped(buf: bytes, unread: bytes, size: nat, all: bytes)
    requires EndOf(buf + unread, all) && size <= |buf|
    ensures EndOf(buf[size..] + unread, all)
  {
    var left, end := buf[size..] + unread, buf + unread;
    assert end[size..] == left;
    assert all[|all| - |left|..] == all[|all| - |end|..][size..];
  }

  /** Where the receive loop stands: the output so far and the decoding of what is left make up the whole decoding, and
      what is left is the end of what there was. */
  ghost predicate OnTrack(all: Decoded, out: bytes, left: bytes, available: bytes) {
    all == Prepend(out, Decode(left)) && |out| + |left| <= |available| && EndOf(left, available)
  }

  /** One frame is taken off the buffer. */
  lemma FrameTaken(all: Decoded, out: bytes, buf: bytes, unread: bytes, available: bytes)
    requires OnTrack(all, out, buf + unread, available) && ParseFrame(buf).Some?
    ensures var f := ParseFrame(buf).value;
      if f.opcode == CLOSE then all.closed && all.out == out && EndOf([] + unread, available)
      else OnTrack(all, out + (if IsData(f.opcode) then f.payload else []), buf[f.size..] + unread, available)
  {
    hide ParseFrame, Decode, EndOf;
    var f := ParseFrame(buf).value;
    DecodeFrame(buf, unread);
    Dropped(buf, unread, if f.opcode == CLOSE then |buf| else f.size, available);
    assert out + [] == out;
    if f.opcode == CLOSE {
      assert buf[|buf|..] == [];
    } else {
      PrependTwice(out, if IsData(f.opcode) then f.payload else [], Decode(buf[f.size..] + unread));
    }
  }

  /** `ws_recv_all_available`. However the stream is cut into reads, decoding what is left goes on where the
      output stops; without enough output only an incomplete frame is left. After a close frame the rest of the
      buffer is dropped. What is left, read or unread, is always the end of what there was. */
  method RecvAllAvailable(sock: Socket, leftover: bytes, maxBytes: nat := 65536) returns (out: bytes, rest: bytes)
    modifies sock`incoming
    ensures var all := Decode(leftover + Unread(old(sock.incoming)));
      && (!all.closed ==> all == Prepend(out, Decode(rest + Unread(sock.incoming))))
      && (all == Prepend(out, Decode(rest + Unread(sock.incoming))) || (all.closed && out == all.out && rest == []))
    ensures EndOf(rest + Unread(sock.incoming), leftover + Unread(old(sock.incoming)))
    ensures |out| < maxBytes ==> ParseFrame(rest).None?
    ensures |out| + |rest + Unread(sock.incoming)| <= |leftover + Unread(old(sock.incoming))|
    ensures if old(sock.incoming) == [] then sock.incoming == [] else |sock.incoming| < |old(sock.incoming)|
  {
    hide ParseFrame, Decode, Unread, EndOf, OnTrack;
    ghost var available := leftover + Unread(sock.incoming);
    ghost var all := Decode(available);
    TrackStarts(available);
    ghost var before, polled := sock.incoming, false;
    out := [];
    var buf := leftover;
    while true
      invariant OnTrack(all, out, buf + Unread(sock.incoming), available)
      invariant if before == [] || !polled then |sock.incoming| <= |before| else |sock.incoming| < |before|
      decreases |buf + Unread(sock.incoming)|
    {
      buf := Poll(sock, buf);
      polled := true;
      if |buf| < 2 {
        TooShort(buf);
        break;
      }
      var frame, grown := ReadFrame(sock, buf);
      buf := grown;
      if frame.None? {
        break;
      }
      var f := frame.value;
      Tracked(all, out, buf + Unread(sock.incoming), available);
      FrameTaken(all, out, buf, Unread(sock.incoming), available);
      assert out + [] == out;
      if IsData(f.opcode) {
        out := out + f.payload;
      } else if f.opcode == CLOSE {
        return out, [];
      }
      buf := buf[f.size..];
      if |out| >= maxBytes {
        break;
      }
    }
    Tracked(all, out, buf + Unread(sock.incoming), available);
    return out, buf;
  }

  lemma TooShort(s: bytes)
    requires |s| < 2
    ensures ParseFrame(s).None?
  {
  }

  /** A close frame and a frame with one byte of data behind it. */
  const CLOSE_AND_MORE: bytes := [0x88, 0, 0x82, 1, 0x41]

  /** A stream that was closed looks like one on which nothing has come yet, and what follows the close frame is lost. */
  method CloseLooksLikeNothing() returns (closed: (bytes, bytes), quiet: (bytes, bytes))
    ensures Decode(CLOSE_AND_MORE).closed && Decode(CLOSE_AND_MORE[2..]).out == [0x41]
    ensures closed == quiet == ([], [])
  {
    hide Masked, ParseFrame, Unread, EndOf;
    var a := new Socket([Data(CLOSE_AND_MORE)], 0);
    var b := new Socket([WouldBlock], 0);
    CloseDecodes();
    var out, rest := RecvAllAvailable(a, []);
    UnfinishedIsOpen(rest);
    closed := (out, rest);
    assert rest + [] == rest;
    out, rest := RecvAllAvailable(b, []);
    assert rest + [] == rest;
    quiet := (out, rest);
  }

  lemma UnfinishedIsOpen(s: bytes)
    requires ParseFrame(s).None?
    ensures Decode(s) == Decoded([], s, false)
  {
  }

  lemma FramesParse()
    ensures ParseFrame(CLOSE_AND_MORE) == Some(Frame(CLOSE, [], 2))
    ensures ParseFrame([0x82, 1, 0x41]) == Some(Frame(BINARY, [0x41], 3)) && ParseFrame([]) == None
  {
    hide FromBE, Masked;
    assert [0x82, 1, 0x41][2..3] == [0x41];
  }

  lemma CloseDecodes()
    ensures Decode(CLOSE_AND_MORE) == Decoded([], [], true) && Decode(CLOSE_AND_MORE[2..]).out == [0x41]
    ensures Unread([Data(CLOSE_AND_MORE)]) == CLOSE_AND_MORE && Unread([WouldBlock]) == [] && Unread([]) == []
    ensures [] + CLOSE_AND_MORE == CLOSE_AND_MORE && Decode([]) == Decoded([], [], false)
  {
    hide ParseFrame;
    FramesParse();
    var more := CLOSE_AND_MORE[2..];
    assert more == [0x82, 1, 0x41] && more[3..] == [];
    assert [0x41] + Decode(more[3..]).out == [0x41];
    assert [Data(CLOSE_AND_MORE)][1..] == [] && [WouldBlock][1..] == [];
  }

  /** What is still to be done: events to take, and bytes to decode. */
  ghost function Work(events: seq<Event>, rest: bytes): nat { |events| + |rest + Unread(events)| }

  /** All events are taken and no complete frame is left. */
  ghost predicate Drained(events: seq<Event>, rest: bytes) { events == [] && ParseFrame(rest).None? }

  /** Any number of calls with the leftover threaded through: the output is the data of a prefix of the stream, and
      decoding the rest gives the other data. Enough calls get everything. */
  method RecvRepeatedly(sock: Socket, leftover: bytes, calls: nat, maxBytes: nat) returns (out: bytes, rest: bytes)
    requires !Decode(leftover + Unread(sock.incoming)).closed
    modifies sock`incoming
    ensures var all := Decode(leftover + Unread(old(sock.incoming)));
      && all == Prepend(out, Decode(rest + Unread(sock.incoming)))
      && (Drained(sock.incoming, rest) ==> out == all.out && rest == all.rest)
    ensures maxBytes > 0 && calls > old(Work(sock.incoming, leftover)) ==> Drained(sock.incoming, rest)
  {
    hide ParseFrame;
    ghost var all, start := Decode(leftover + Unread(sock.incoming)), Work(sock.incoming, leftover);
    out, rest := [], leftover;
    for i := 0 to calls
      invariant all == Prepend(out, Decode(rest + Unread(sock.incoming)))
      invariant maxBytes > 0 && !Drained(sock.incoming, rest) ==> Work(sock.incoming, rest) + i <= start
    {
      assert sock.incoming == [] ==> rest + Unread(sock.incoming) == rest;
      ghost var now := Decode(rest + Unread(sock.incoming));
      assert Drained(sock.incoming, rest) ==> now == Decoded([], rest, false);
      var piece, left := RecvAllAvailable(sock, rest, maxBytes);
      assert now.out == [] ==> piece == [];
      PrependTwice(out, piece, Decode(left + Unread(sock.incoming)));
      out, rest := out + piece, left;
    }
    assert sock.incoming == [] ==> rest + Unread(sock.incoming) == rest;
  }

  // ---------------------------------------------------------------- sending

  /** Two to four header parts, by the length of the payload. */
  function FrameHeader(n: nat): bytes
    requires n < TWO_64
  {
    if n < 126 then [0x82, 0x80 + n]
    else if n < TWO_16 then [0x82, 0x80 + 126] + BE(2, n)
    else [0x82, 0x80 + 127] + BE(8, n)
  }

  function FrameFor(payload: bytes, mask: bytes): bytes
    requires |payload| < TWO_64 && |mask| == 4
  {
    FrameHeader(|payload|) + mask + Masked(payload, mask)
  }

  /** How many bytes a length takes beside the first one. */
  function Extended(n: nat): nat { if n < 126 then 0 else if n < 65536 then 2 else 8 }

  /** Final, binary, masked, and the length in the shortest of the three forms. */
  lemma HeaderIs(n: nat)
    requires n < TWO_64
    ensures var s := FrameHeader(n);
      && |s| == 2 + Extended(n) && s[0] == 0x82
      && s[1] == 0x80 + (if n < 126 then n else if n < 65536 then 126 else 127)
      && (126 <= n < 65536 ==> 256 * s[2] as int + s[3] as int == n) && (n >= 65536 ==> Be64(s, 2) == n)
  {
    hide BE, FromBE, Be64;
    var s := FrameHeader(n);
    PowersOf256();
    if n >= TWO_16 {
      BERoundTrip(8, n);
      assert s[2..10] == BE(8, n);
      EightBytesAt(s, 2);
    } else if n >= 126 {
      BERoundTrip(2, n);
      assert s[2..4] == BE(2, n);
      TwoBytes(s[2..4]);
    }
  }

  /** The frame that is sent, byte by byte: the header, the mask, the masked payload. */
  lemma SentFrameIs(payload: bytes, mask: bytes, k: nat)
    requires |payload| < TWO_64 && |mask| == 4 && k < |payload|
    ensures var s, e := FrameFor(payload, mask), Extended(|payload|);
      && |s| == 6 + e + |payload| && s[..2 + e] == FrameHeader(|payload|) && s[2 + e..6 + e] == mask
      && IsXor(s[6 + e + k], payload[k], mask[k % 4])
  {
    hide FrameHeader, Masked, IsXor, Extended;
    var s, e, head, data := FrameFor(payload, mask), Extended(|payload|), FrameHeader(|payload|), Masked(payload, mask);
    HeaderIs(|payload|);
    MaskedIs(payload, mask);
    assert s == head + mask + data;
    assert s[6 + e + k] == data[k];
  }

  /** `ws_send_binary`; the mask is drawn at random. When the socket would block, the start of the frame is sent. */
  method SendBinary(sock: Socket, payload: bytes, mask: bytes) returns (r: Result<()>)
    requires |mask| == 4
    modifies sock`sent, sock`room
    ensures r.Ok? <==> |payload| < TWO_64 && |FrameFor(payload, mask)| <= old(sock.room)
    ensures sock.sent == old(sock.sent) + if |payload| < TWO_64 then Clip(FrameFor(payload, mask), 0, old(sock.room)) else []
    ensures r.Ok? ==> sock.sent == old(sock.sent) + FrameFor(payload, mask)
  {
    var masked := Masked(payload, mask);
    var n := |payload|;
    if n >= TWO_64 {
      return Err(StructError);
    }
    var header: bytes;
    if n < 126 {
      header := [0x82, 0x80 + n] + mask;
    } else if n < TWO_16 {
      header := [0x82, 0x80 + 126] + BE(2, n) + mask;
    } else {
      header := [0x82, 0x80 + 127] + BE(8, n) + mask;
    }
    r := sock.SendAll(header + masked);
  }

  /** A frame that was sent is parsed to its payload, for each of the three length forms and any mask. */
  lemma SentFrameParses(payload: bytes, mask: bytes)
    requires |payload| < TWO_64 && |mask| == 4
    ensures ParseFrame(FrameFor(payload, mask)) == Some(Frame(BINARY, payload, |FrameFor(payload, mask)|))
  {
    hide BE, FromBE, Masked, ParseFrame, FrameHeader, PayloadLength;
    var n, f, head := |payload|, FrameFor(payload, mask), FrameHeader(|payload|);
    MaskedSize(payload, mask);
    HeaderRead(f, n);
    FrameAt(f);
    assert f[|head|..|head| + 4] == mask && f[|head| + 4..|head| + 4 + n] == Masked(payload, mask);
    MaskTwice(payload, mask);
  }

  /** The header that is sent is read as a mask bit and the length. */
  lemma HeaderRead(s: bytes, n: nat)
    requires n < TWO_64 && FrameHeader(n) <= s
    ensures |FrameHeader(n)| >= 2 && s[0] == 0x82 && s[1] >= 128
    ensures |FrameHeader(n)| == LengthEnd(s[1]) && PayloadLength(s) == n
  {
    hide FromBE, FrameHeader, Be64;
    var head := FrameHeader(n);
    HeaderIs(n);
    LengthIs(s);
    if n >= 65536 {
      EightBytesAt(s, 2);
      EightBytesAt(head, 2);
      assert s[2..10] == head[2..10];
    }
  }

  /** A frame that was cut off is no frame: its reader waits for the rest. */
  lemma CutFrameWaits(payload: bytes, mask: bytes, k: nat)
    requires |payload| < TWO_64 && |mask| == 4 && k < |FrameFor(payload, mask)|
    ensures ParseFrame(FrameFor(payload, mask)[..k]).None?
  {
    hide ParseFrame, FrameFor;
    var f := FrameFor(payload, mask);
    SentFrameParses(payload, mask);
    assert f[..k] + f[k..] == f;
    if ParseFrame(f[..k]).Some? {
      FrameStable(f[..k], f[k..]);
    }
  }

  lemma MaskedSize(payload: bytes, mask: bytes)
    requires |mask| == 4
    ensures |Masked(payload, mask)| == |payload|
  {
  }

  datatype Message = Message(payload: bytes, mask: bytes)

  ghost predicate Sendable(ms: seq<Message>) {
    forall i :: 0 <= i < |ms| ==> |ms[i].payload| < TWO_64 && |ms[i].mask| == 4
  }

  /** All frames, one after the other. */
  ghost function Stream(ms: seq<Message>): bytes
    requires Sendable(ms)
  {
    if ms == [] then [] else FrameFor(ms[0].payload, ms[0].mask) + Stream(ms[1..])
  }

  function Payloads(ms: seq<Message>): bytes {
    if ms == [] then [] else ms[0].payload + Payloads(ms[1..])
  }

  /** Frames and payloads stand in the order of the messages. */
  lemma {:induction false} InOrder(a: seq<Message>, b: seq<Message>, m: Message)
    requires Sendable(a) && Sendable(b) && |m.payload| < TWO_64 && |m.mask| == 4
    ensures Sendable(a + b) && Stream(a + b) == Stream(a) + Stream(b) && Payloads(a + b) == Payloads(a) + Payloads(b)
    ensures Stream([m]) == FrameFor(m.payload, m.mask) && Payloads([m]) == m.payload && Stream([]) == Payloads([]) == []
  {
    hide FrameFor;
    assert [m][0] == m && [m][1..] == [];
    if a == [] {
      assert a + b == b;
    } else {
      InOrder(a[1..], b, m);
      assert (a + b)[0] == a[0] && (a + b)[1..] == a[1..] + b;
    }
  }

  /** Decoding a stream of sent frames gives the payloads and leaves what follows the last frame. */
  lemma {:induction false} SentStreamDecodes(ms: seq<Message>, more: bytes)
    requires Sendable(ms)
    ensures Decode(Stream(ms) + more) == Prepend(Payloads(ms), Decode(more))
  {
    hide ParseFrame, FrameFor;
    if ms == [] {
      assert Stream(ms) + more == more;
    } else {
      var first := FrameFor(ms[0].payload, ms[0].mask);
      var rest := Stream(ms[1..]) + more;
      SentFrameParses(ms[0].payload, ms[0].mask);
      FrameStable(first, rest);
      assert Stream(ms) + more == first + rest && (first + rest)[|first|..] == rest;
      SentStreamDecodes(ms[1..], more);
      PrependTwice(ms[0].payload, Payloads(ms[1..]), Decode(more));
    }
  }

  /** Receiving what was sent, however the bytes are cut: a prefix of the payloads, and with enough calls exactly
      the payloads. */
  method Loopback(ms: seq<Message>, events: seq<Event>, calls: nat, maxBytes: nat) returns (out: bytes, rest: bytes)
    requires Sendable(ms) && Unread(events) == Stream(ms)
    ensures out <= Payloads(ms)
    ensures maxBytes > 0 && calls > |events| + |Stream(ms)| ==> out == Payloads(ms) && rest == []
  {
    hide ParseFrame;
    SentStreamDecodes(ms, []);
    assert Stream(ms) + [] == [] + Stream(ms) == Stream(ms) && Payloads(ms) + [] == Payloads(ms);
    NothingLeft();
    var sock := new Socket(events, 0);
    out, rest := RecvRepeatedly(sock, [], calls, maxBytes);
  }

  lemma NothingLeft()
    ensures Decode([]) == Decoded([], [], false)
  {
  }
}
