/** Bytes, fixed-width integers and the handful of arithmetic facts every other module needs. */
module Bytes {

  type byte = x: int | 0 <= x < 256
  type bytes = seq<byte>

  const TWO_16 := 0x1_0000
  const TWO_32 := 0x1_0000_0000
  const TWO_64 := 0x1_0000_0000_0000_0000

  /** `n` zero bytes; empty for a negative count, as Python's `b'\0' * n`. */
  function Zeros(n: int): (z: bytes)
    ensures |z| == if n < 0 then 0 else n
    ensures forall i :: 0 <= i < |z| ==> z[i] == 0
  {
    if n < 0 then [] else seq(n, _ => 0)
  }

  function Min(a: int, b: int): int { if a <= b then a else b }

  function Max(a: int, b: int): int { if a >= b then a else b }

  // ---------------------------------------------------------------- division

  /** Quotient and remainder are determined by the division equation. */
  lemma DivModUnique(n: int, d: int, q: int, r: int)
    requires 0 <= r < d && n == q * d + r
    ensures n / d == q && n % d == r
  {
    var q', r' := n / d, n % d;
    assert n == q' * d + r';
    if q' < q {
      assert q * d - q' * d == (q - q') * d;
      MulGrows(q - q', d);
    } else if q' > q {
      assert q' * d - q * d == (q' - q) * d;
      MulGrows(q' - q, d);
    }
  }

  lemma MulGrows(k: int, d: int)
    requires k >= 1 && d >= 0
    ensures k * d >= d
  {
  }

  lemma MulMonotone(a: int, b: int, d: int)
    requires a <= b && d >= 0
    ensures a * d <= b * d
  {
  }

  lemma Distribute(a: int, b: int, d: int)
    ensures (a + b) * d == a * d + b * d
  {
  }

  /** A multiple of `d` is divisible, with the expected quotient. */
  lemma MultipleDivides(q: int, d: int)
    requires d > 0
    ensures (q * d) % d == 0 && (q * d) / d == q
  {
    DivModUnique(q * d, d, q, 0);
  }

  /** Sums and differences of multiples of `d` are multiples of `d`. */
  lemma MultiplesAdd(a: int, b: int, d: int)
    requires d > 0 && a % d == 0 && b % d == 0
    ensures (a + b) % d == 0 && (a - b) % d == 0
    ensures (a + b) / d == a / d + b / d && (a - b) / d == a / d - b / d
  {
    var x, y := a / d, b / d;
    assert a == x * d && b == y * d;
    assert (x + y) * d == a + b && (x - y) * d == a - b;
    MultipleDivides(x + y, d);
    MultipleDivides(x - y, d);
  }

  /** tools/avbtool `round_to_multiple`: the least multiple of `size` that is at least `number`. */
  function RoundUp(number: nat, size: nat): (r: nat)
    requires size > 0
    ensures r % size == 0 && number <= r < number + size
  {
    var remainder := number % size;
    if remainder == 0 then number
    else
      assert number + size - remainder == (number / size + 1) * size;
      MultipleDivides(number / size + 1, size);
      number + size - remainder
  }

  lemma RoundUpLeast(number: nat, size: nat, m: nat)
    requires size > 0 && number <= m && m % size == 0
    ensures RoundUp(number, size) <= m
  {
    var r := RoundUp(number, size);
    if m < r {
      MultiplesAdd(r, m, size);
      assert 0 < r - m < size;
      DivModUnique(r - m, size, 0, r - m);
    }
  }

  lemma RoundUpMonotone(a: nat, b: nat, size: nat)
    requires size > 0 && a <= b
    ensures RoundUp(a, size) <= RoundUp(b, size)
  {
    RoundUpLeast(a, size, RoundUp(b, size));
  }

  // ---------------------------------------------------------------- integers

  function Pow256(n: nat): (p: nat)
    ensures p >= 1
  {
    if n == 0 then 1 else 256 * Pow256(n - 1)
  }

  /** The little-endian 16- and 32-bit fields of the sparse format. */
  function LE16(v: nat): (s: bytes)
    ensures |s| == 2
  {
    [v % 256, v / 256 % 256]
  }

  function LE32(v: nat): (s: bytes)
    ensures |s| == 4
  {
    var a := v / 256;
    var b := a / 256;
    var c := b / 256;
    [v % 256, a % 256, b % 256, c % 256]
  }

  function U16(s: bytes, at: nat): (v: nat)
    requires at + 2 <= |s|
    ensures v < TWO_16
  {
    s[at] as int + 256 * s[at + 1] as int
  }

  function U32(s: bytes, at: nat): (v: nat)
    requires at + 4 <= |s|
    ensures v < TWO_32
  {
    s[at] as int + 256 * s[at + 1] as int + 0x1_0000 * s[at + 2] as int + 0x100_0000 * s[at + 3] as int
  }

  /** A little-endian field is read back wherever its bytes stand. */
  lemma U16RoundTrip(s: bytes, at: nat, v: nat)
    requires at + 2 <= |s| && s[at..at + 2] == LE16(v) && v < TWO_16
    ensures U16(s, at) == v
  {
    assert s[at] == LE16(v)[0] && s[at + 1] == LE16(v)[1];
  }

  lemma U32RoundTrip(s: bytes, at: nat, v: nat)
    requires at + 4 <= |s| && s[at..at + 4] == LE32(v) && v < TWO_32
    ensures U32(s, at) == v
  {
    var f := s[at..at + 4];
    assert s[at] == f[0] && s[at + 1] == f[1] && s[at + 2] == f[2] && s[at + 3] == f[3];
  }

  /** The low `n` bytes of `v`, most significant first. */
  function BE(n: nat, v: nat): (s: bytes)
    ensures |s| == n
  {
    if n == 0 then [] else BE(n - 1, v / 256) + [v % 256]
  }

  function FromBE(s: bytes): nat
  {
    if s == [] then 0 else 256 * FromBE(s[..|s| - 1]) + s[|s| - 1]
  }

  lemma {:induction false} BERoundTrip(n: nat, v: nat)
    requires v < Pow256(n)
    ensures FromBE(BE(n, v)) == v
  {
    if n > 0 {
      assert BE(n, v)[..n - 1] == BE(n - 1, v / 256);
      BERoundTrip(n - 1, v / 256);
    }
  }

  lemma {:induction false} FromBEBound(s: bytes)
    ensures FromBE(s) < Pow256(|s|)
  {
    if s != [] {
      FromBEBound(s[..|s| - 1]);
    }
  }

  lemma PowersOf256()
    ensures Pow256(1) == 256 && Pow256(2) == TWO_16 && Pow256(4) == TWO_32 && Pow256(8) == TWO_64
  {
    assert Pow256(3) == 256 * Pow256(2);
    assert Pow256(5) == 256 * Pow256(4);
    assert Pow256(6) == 256 * Pow256(5);
    assert Pow256(7) == 256 * Pow256(6);
  }

  // ---------------------------------------------------------------- powers of two

  function Pow2(n: nat): (p: nat)
    ensures p > 0
  {
    if n == 0 then 1 else 2 * Pow2(n - 1)
  }

  /** Python's `int.bit_length` for numbers that are not negative. */
  function BitLength(n: nat): nat {
    if n == 0 then 0 else 1 + BitLength(n / 2)
  }

  lemma {:induction false} BitLengthBounds(n: nat)
    ensures n < Pow2(BitLength(n))
    ensures n > 0 ==> Pow2(BitLength(n)) <= 2 * n
  {
    if n > 0 {
      BitLengthBounds(n / 2);
    }
  }

  lemma {:induction false} Pow2Monotone(a: nat, b: nat)
    requires a <= b
    ensures Pow2(a) <= Pow2(b)
  {
    if a < b {
      Pow2Monotone(a, b - 1);
    }
  }

  // ---------------------------------------------------------------- slices

  /** Python's `s[lo:hi]` for non-negative bounds: clipped to the sequence. */
  function Clip<T>(s: seq<T>, lo: nat, hi: nat): (r: seq<T>)
    ensures hi <= |s| && lo <= hi ==> r == s[lo..hi]
  {
    if lo >= |s| || hi <= lo then [] else s[lo..Min(hi, |s|)]
  }

  /** The contents of a file of bytes `s` after `truncate(n)`: cut, or grown with zeros. */
  function Resize(s: bytes, n: nat): (r: bytes)
    ensures |r| == n
  {
    if n <= |s| then s[..n] else s + Zeros(n - |s|)
  }

  /** The contents of a file after `seek(at); write(data)`, for a position inside the file or at its end. */
  function WriteAt(s: bytes, at: nat, data: bytes): (r: bytes)
    requires at <= |s|
    ensures |r| == Max(|s|, at + |data|)
  {
    s[..at] + data + if at + |data| <= |s| then s[at + |data|..] else []
  }

  /** A write changes its own stretch and nothing else. */
  lemma WriteAtFrame(s: bytes, at: nat, data: bytes)
    requires at + |data| <= |s|
    ensures WriteAt(s, at, data)[at..at + |data|] == data
    ensures forall k :: 0 <= k < at || at + |data| <= k < |s| ==> WriteAt(s, at, data)[k] == s[k]
  {
  }

  lemma SliceOfSlice<T>(s: seq<T>, lo: nat, hi: nat, x: nat, y: nat)
    requires lo <= hi <= |s| && x <= y <= hi - lo
    ensures s[lo..hi][x..y] == s[lo + x..lo + y]
  {
    var t := s[lo..hi];
    forall k | 0 <= k < y - x
      ensures t[x..y][k] == s[lo + x..lo + y][k]
    {
      assert t[x..y][k] == t[x + k] == s[lo + x + k];
    }
  }

  lemma SlicesJoin<T>(s: seq<T>, lo: nat, mid: nat, hi: nat)
    requires lo <= mid <= hi <= |s|
    ensures s[lo..mid] + s[mid..hi] == s[lo..hi]
  {
  }

  lemma SlicesAgree(a: bytes, b: bytes, lo: nat, hi: nat)
    requires lo <= hi <= |a| && hi <= |b|
    requires forall k :: lo <= k < hi ==> a[k] == b[k]
    ensures a[lo..hi] == b[lo..hi]
  {
  }
}

module Results {

  /** The exceptions the modelled code can raise. */
  datatype Error =
    | StructError | ValueError | AssertionError | IndexError | OSError
    | LookupError | RuntimeError | UnboundLocalError | ZeroDivisionError | BlockingIOError | AvbError

  datatype Option<+T> = None | Some(value: T)

  datatype Result<+T> = Ok(value: T) | Err(error: Error) {
    predicate IsFailure() { Err? }

    function PropagateFailure<U>(): Result<U>
      requires Err?
    {
      Err(error)
    }

    function Extract(): T
      requires Ok?
    {
      value
    }
  }
}
