/** tools/avbtool: `encode_long`, `decode_long`, `egcd`, `modinv`, and the public key header that uses them. */
module NumberTheory {
  import opened Bytes
  import opened Results

  // ---------------------------------------------------------------- big-endian numbers

  /** Taking off the last octet. */
  lemma OctetStep(v: int, m: nat)
    requires m > 0
    ensures v % (256 * m) == 256 * (v / 256 % m) + v % 256
  {
    var q := v / 256;
    var h := q / m;
    assert q == h * m + q % m;
    assert v == h * (256 * m) + (256 * (q % m) + v % 256) by {
      assert 256 * (h * m) == h * (256 * m);
    }
    DivModUnique(v, 256 * m, h, 256 * (q % m) + v % 256);
  }

  /** `value >> 8 * k`, one octet more. */
  lemma ShiftStep(value: int, k: nat)
    requires k > 0
    ensures value / Pow256(k - 1) / 256 == value / Pow256(k)
  {
    var p := Pow256(k - 1);
    var q := value / p;
    assert value == q * p + value % p;
    var h := q / 256;
    assert q == h * 256 + q % 256;
    assert value == h * (256 * p) + ((q % 256) * p + value % p) by {
      Distribute(h * 256, q % 256, p);
    }
    MulMonotone(0, q % 256, p);
    MulMonotone(q % 256, 255, p);
    DivModUnique(value, 256 * p, h, (q % 256) * p + value % p);
  }

  /** The octets of `value` from bit `8 * k` up. */
  ghost predicate Encodes(ret: bytes, value: int, k: nat) { FromBE(ret) == value / Pow256(k) % Pow256(|ret|) }

  lemma NothingEncoded(value: int, k: nat)
    ensures Encodes([], value, k)
  {
  }

  lemma OctetEncoded(ret: bytes, value: int, k: nat)
    requires k > 0 && Encodes(ret, value, k)
    ensures Encodes(ret + [value / Pow256(k - 1) % 256], value, k - 1)
  {
    ShiftStep(value, k);
    OctetStep(value / Pow256(k - 1), Pow256(|ret|));
    var octet: byte := value / Pow256(k - 1) % 256;
    assert (ret + [octet])[..|ret|] == ret;
  }

  lemma AllEncoded(ret: bytes, value: int)
    requires Encodes(ret, value, 0)
    ensures FromBE(ret) == value % Pow256(|ret|)
  {
    assert Pow256(0) == 1;
  }

  /** `encode_long`: the value modulo two to the number of bits, for any value; a count that is not a multiple
      of eight ends in a negative shift. */
  method EncodeLong(numBits: int, value: int) returns (r: Result<bytes>)
    ensures r.Ok? <==> numBits <= 0 || numBits % 8 == 0
    ensures r.Ok? ==> 8 * |r.value| == Max(numBits, 0) && FromBE(r.value) == value % Pow256(|r.value|)
  {
    hide FromBE, Pow256, Pow2, Encodes;
    var ret: bytes := [];
    var bitPos := numBits;
    NothingEncoded(value, Max(numBits, 0) / 8);
    while bitPos > 0
      invariant bitPos % 8 == numBits % 8 && bitPos <= Max(numBits, 0)
      invariant Max(bitPos, 0) + 8 * |ret| == Max(numBits, 0)
      invariant bitPos > 0 || numBits % 8 == 0 || numBits <= 0
      invariant numBits <= 0 || numBits % 8 == 0 ==> Encodes(ret, value, Max(bitPos, 0) / 8)
    {
      if bitPos < 8 {
        return Err(ValueError);
      }
      var octet: byte := value / Pow2(bitPos - 8) % 256;
      if numBits % 8 == 0 {
        PowersMatch(bitPos / 8 - 1);
        OctetEncoded(ret, value, bitPos / 8);
      }
      ret := ret + [octet];
      bitPos := bitPos - 8;
    }
    AllEncoded(ret, value);
    return Ok(ret);
  }

  lemma {:induction false} PowersMatch(k: nat)
    ensures Pow2(8 * k) == Pow256(k)
  {
    if k > 0 {
      PowersMatch(k - 1);
      var n := 8 * (k - 1);
      assert Pow2(n + 2) == 4 * Pow2(n);
      assert Pow2(n + 4) == 4 * Pow2(n + 2);
      assert Pow2(n + 6) == 4 * Pow2(n + 4);
      assert Pow2(n + 8) == 4 * Pow2(n + 6);
    }
  }

  /** `decode_long`. */
  method DecodeLong(blob: bytes) returns (ret: nat)
    ensures ret == FromBE(blob) < Pow256(|blob|)
  {
    ret := 0;
    for i := 0 to |blob|
      invariant ret == FromBE(blob[..i])
    {
      assert blob[..i + 1][..i] == blob[..i];
      ret := ret * 256;
      ret := ret + blob[i];
    }
    assert blob[..|blob|] == blob;
    FromBEBound(blob);
  }

  /** Decoding undoes encoding modulo two to the number of bits. */
  method EncodeDecode(numBits: nat, value: int) returns (back: nat)
    requires numBits % 8 == 0
    ensures back == value % Pow2(numBits)
  {
    var blob := EncodeLong(numBits, value);
    PowersMatch(numBits / 8);
    back := DecodeLong(blob.value);
  }

  /** ... and encoding undoes decoding: a number has one encoding of each length. */
  lemma {:induction false} FromBEInjective(a: bytes, b: bytes)
    requires |a| == |b| && FromBE(a) == FromBE(b)
    ensures a == b
  {
    if a != [] {
      var n := |a| - 1;
      DivModUnique(FromBE(a), 256, FromBE(a[..n]), a[n]);
      DivModUnique(FromBE(b), 256, FromBE(b[..n]), b[n]);
      FromBEInjective(a[..n], b[..n]);
      assert a == a[..n] + [a[n]] && b == b[..n] + [b[n]];
    }
  }

  // ---------------------------------------------------------------- egcd

  /** Python's floor division and remainder: the remainder has the sign of the divisor. */
  function FloorDiv(n: int, d: int): int
    requires d != 0
  {
    if d > 0 || n % d == 0 then n / d else n / d - 1
  }

  function FloorMod(n: int, d: int): (r: int)
    requires d != 0
    ensures d > 0 ==> 0 <= r < d
    ensures d < 0 ==> d < r <= 0
  {
    if d > 0 || n % d == 0 then n % d else n % d + d
  }

  lemma FloorDivMod(n: int, d: int)
    requires d != 0
    ensures n == d * FloorDiv(n, d) + FloorMod(n, d)
  {
    assert n == d * (n / d) + n % d;
    assert d * (n / d - 1) == d * (n / d) - d;
  }

  function Abs(n: int): nat { if n < 0 then -n else n }

  /** `egcd`; it ends for all integers. */
  function Egcd(a: int, b: int): (int, int, int)
    decreases Abs(a)
  {
    if a == 0 then (b, 0, 1)
    else
      var (g, y, x) := Egcd(FloorMod(b, a), a);
      (g, x - FloorDiv(b, a) * y, y)
  }

  ghost predicate Divides(d: int, n: int) { exists k: int :: n == d * k }

  lemma DividesCombination(d: int, a: int, b: int, x: int, y: int)
    requires Divides(d, a) && Divides(d, b)
    ensures Divides(d, a * x + b * y)
  {
    var k :| a == d * k;
    var l :| b == d * l;
    assert a * x == d * (k * x) && b * y == d * (l * y);
    assert a * x + b * y == d * (k * x + l * y);
  }

  /** The coefficients of `egcd` are Bezout coefficients. */
  lemma {:induction false} Bezout(a: int, b: int)
    ensures var (g, x, y) := Egcd(a, b); a * x + b * y == g
    decreases Abs(a)
  {
    if a != 0 {
      var q, r := FloorDiv(b, a), FloorMod(b, a);
      Bezout(r, a);
      FloorDivMod(b, a);
      var (g, y, x) := Egcd(r, a);
      BezoutStep(a, b, q, r, x, y);
    }
  }

  lemma BezoutStep(a: int, b: int, q: int, r: int, x: int, y: int)
    requires b == a * q + r
    ensures a * (x - q * y) + b * y == r * y + a * x
  {
    assert b * y == (a * q) * y + r * y;
    assert a * (x - q * y) == a * x - a * (q * y);
    assert (a * q) * y == a * (q * y);
  }

  /** ... its first result divides both numbers ... */
  lemma {:induction false} DividesBoth(a: int, b: int)
    ensures Divides(Egcd(a, b).0, a) && Divides(Egcd(a, b).0, b)
    decreases Abs(a)
  {
    if a == 0 {
      assert a == b * 0 && b == b * 1;
    } else {
      DividesBoth(FloorMod(b, a), a);
      FloorDivMod(b, a);
      DividesCombination(Egcd(a, b).0, a, FloorMod(b, a), FloorDiv(b, a), 1);
    }
  }

  /** ... and every common divisor divides it: it is the greatest common divisor, up to its sign. */
  lemma GreatestDivisor(a: int, b: int, d: int)
    requires Divides(d, a) && Divides(d, b)
    ensures Divides(d, Egcd(a, b).0)
    ensures a >= 0 && b >= 0 && (a > 0 || b > 0) ==> Egcd(a, b).0 > 0 && d <= Egcd(a, b).0
  {
    Bezout(a, b);
    var (g, x, y) := Egcd(a, b);
    DividesCombination(d, a, b, x, y);
    if a >= 0 && b >= 0 && (a > 0 || b > 0) {
      GcdSign(a, b);
      var k :| g == d * k;
      if d > g {
        ProductAtLeast(d, k, g);
      }
    }
  }

  lemma ProductAtLeast(d: int, k: int, g: int)
    requires g == d * k && d > g
    ensures g <= 0
  {
    if g > 0 {
      if k >= 1 {
        MulMonotone(1, k, d);
      } else {
        MulMonotone(k, 0, d);
      }
    }
  }

  /** The result takes the sign of the first number, or of the second one if the first is zero. */
  lemma {:induction false} GcdSign(a: int, b: int)
    ensures a > 0 || (a == 0 && b > 0) ==> Egcd(a, b).0 > 0
    ensures a < 0 || (a == 0 && b < 0) ==> Egcd(a, b).0 < 0
    decreases Abs(a)
  {
    if a != 0 {
      GcdSign(FloorMod(b, a), a);
    }
  }

  // ---------------------------------------------------------------- modinv

  /** `modinv`. */
  function Modinv(a: int, m: nat): Option<nat>
    requires m > 0
  {
    var (g, x, _) := Egcd(a, m);
    if g != 1 then None else Some(x % m)
  }

  /** `x` is an inverse of `a` modulo `m`. */
  predicate Inverse(a: int, m: nat, x: int)
    requires m > 0
  {
    a * x % m == 1 % m
  }

  lemma SameRemainder(p: int, q: int, m: nat, k: int)
    requires m > 0 && p == q + k * m
    ensures p % m == q % m
  {
    var d := q / m;
    assert q == d * m + q % m;
    Distribute(d, k, m);
    DivModUnique(p, m, d + k, q % m);
  }

  /** `modinv` finds the inverse exactly if there is one and the number is not negative. */
  lemma ModinvFindsInverse(a: int, m: nat)
    requires m > 0
    ensures Modinv(a, m).Some? ==> Modinv(a, m).value < m && Inverse(a, m, Modinv(a, m).value)
    ensures Modinv(a, m).Some? <==> a >= 0 && exists x :: Inverse(a, m, x)
  {
    hide Egcd, Inverse;
    var (g, x, y) := Egcd(a, m);
    Bezout(a, m);
    GcdSign(a, m);
    if g == 1 {
      CoefficientIsInverse(a, m, x, y);
    } else if a >= 0 {
      DividesBoth(a, m);
      forall z
        ensures !Inverse(a, m, z)
      {
        NoInverse(a, m, z, g);
      }
    }
  }

  /** Minus one has an inverse modulo three, but as the greatest common divisor comes out negative, none is returned. */
  lemma NegativeHasNoModinv()
    ensures Inverse(-1, 3, 2) && Modinv(-1, 3) == None
  {
    assert Egcd(0, -1) == (-1, 0, 1);
    assert FloorMod(3, -1) == 0;
    assert Egcd(-1, 3).0 == -1;
  }

  lemma CoefficientIsInverse(a: int, m: nat, x: int, y: int)
    requires m > 0 && a * x + m * y == 1
    ensures Inverse(a, m, x % m)
  {
    SameRemainder(1, a * x, m, y);
    var q := x / m;
    assert x == q * m + x % m;
    assert a * x == a * (x % m) + (a * q) * m by {
      assert a * (q * m) == (a * q) * m;
      assert a * (q * m + x % m) == a * (q * m) + a * (x % m);
    }
    SameRemainder(a * x, a * (x % m), m, a * q);
  }

  lemma NoInverse(a: int, m: nat, z: int, g: int)
    requires m > 0 && g > 0 && g != 1 && Divides(g, a) && Divides(g, m)
    ensures !Inverse(a, m, z)
  {
    if Inverse(a, m, z) {
      OnlyOne(a, m, z, g);
    }
  }

  /** A positive common divisor of a number that has an inverse and the modulus is one. */
  lemma OnlyOne(a: int, m: nat, z: int, g: int)
    requires m > 0 && Inverse(a, m, z) && g > 0 && Divides(g, a) && Divides(g, m)
    ensures g == 1
  {
    var p := a * z;
    assert p == (p / m) * m + p % m;
    assert 1 == (1 / m) * m + 1 % m;
    var k := 1 / m - p / m;
    assert a * z + m * k == 1 by {
      Distribute(1 / m, -(p / m), m);
    }
    DividesCombination(g, a, m, z, k);
    DividesOne(g);
  }

  /** There is only one inverse below the modulus. */
  lemma InverseUnique(a: int, m: nat, x: nat, y: nat)
    requires m > 0 && x < m && y < m && Inverse(a, m, x) && Inverse(a, m, y)
    ensures x == y
  {
    hide Inverse;
    if m > 1 {
      var p := InverseQuotient(a, m, x);
      var q := InverseQuotient(a, m, y);
      CrossMultiply(a, m, x, y, p, q);
      SmallMultiple(x - y, y * p - x * q, m);
    }
  }

  lemma InverseQuotient(a: int, m: nat, x: int) returns (p: int)
    requires m > 1 && Inverse(a, m, x)
    ensures a * x == p * m + 1
  {
    var n := a * x;
    p := n / m;
    assert n == p * m + n % m;
  }

  lemma SmallMultiple(d: int, k: int, m: nat)
    requires d == k * m && 0 - m < d < m
    ensures d == 0
  {
    if k >= 1 {
      MulMonotone(1, k, m);
    } else if k <= -1 {
      MulMonotone(k, -1, m);
    }
  }

  lemma CrossMultiply(a: int, m: nat, x: nat, y: nat, p: int, q: int)
    requires a * x == p * m + 1 && a * y == q * m + 1
    ensures x - y == (y * p - x * q) * m
  {
    assert x * (a * y) == y * (a * x);
    assert x * (q * m + 1) == (x * q) * m + x;
    assert y * (p * m + 1) == (y * p) * m + y;
    Distribute(y * p, -(x * q), m);
  }

  // ---------------------------------------------------------------- the public key header

  /** `n0inv` of `RSAPublicKey.encode`; for an even modulus subtracting `None` fails. */
  function N0Inv(modulus: nat): Option<nat> {
    var inv := Modinv(modulus, TWO_32);
    if inv.None? then None else Some(TWO_32 - inv.value)
  }

  /** For an odd modulus, and only then, `n0inv` exists, fits its 32-bit field, and is minus the inverse. */
  lemma N0InvIsMinusInverse(modulus: nat)
    ensures N0Inv(modulus).Some? <==> modulus % 2 == 1
    ensures N0Inv(modulus).Some? ==>
      0 < N0Inv(modulus).value < TWO_32 && (modulus * N0Inv(modulus).value + 1) % TWO_32 == 0
  {
    hide Egcd, Modinv, Inverse;
    ModinvFindsInverse(modulus, TWO_32);
    if Modinv(modulus, TWO_32).Some? {
      MinusInverse(modulus, Modinv(modulus, TWO_32).value);
    }
    if modulus % 2 == 1 {
      OddIsCoprime(modulus);
      CoprimeHasInverse(modulus, TWO_32);
    }
  }

  lemma CoprimeHasInverse(a: nat, m: nat)
    requires m > 0
    ensures Modinv(a, m).Some? <==> Egcd(a, m).0 == 1
  {
    hide Egcd;
  }

  lemma MinusInverse(modulus: nat, inv: nat)
    requires Inverse(modulus, TWO_32, inv) && inv < TWO_32
    ensures modulus % 2 == 1 && inv > 0 && (modulus * (TWO_32 - inv) + 1) % TWO_32 == 0
  {
    var p := modulus * inv;
    var q := p / TWO_32;
    assert p == q * TWO_32 + 1;
    assert modulus * (TWO_32 - inv) == modulus * TWO_32 - p;
    assert modulus * (TWO_32 - inv) + 1 == (modulus - q) * TWO_32;
    MultipleDivides(modulus - q, TWO_32);
    EvenTimes(modulus, inv);
  }

  /** An odd number and a power of two have no common divisor but one. */
  lemma OddIsCoprime(n: nat)
    requires n % 2 == 1
    ensures Egcd(n, TWO_32).0 == 1
  {
    hide Egcd;
    DividesBoth(n, TWO_32);
    GcdSign(n, TWO_32);
    PowersMatch(4);
    PowersOf256();
    OddDivisorOfPower(n, Egcd(n, TWO_32).0, 32);
  }

  /** An odd number's divisor that divides a power of two is one. */
  lemma {:induction false} OddDivisorOfPower(n: nat, g: int, k: nat)
    requires n % 2 == 1 && g > 0 && Divides(g, n) && Divides(g, Pow2(k))
    ensures g == 1
  {
    OddDivisor(n, g);
    if k == 0 {
      DividesOne(g);
    } else {
      HalfStillDivided(g, Pow2(k - 1));
      OddDivisorOfPower(n, g, k - 1);
    }
  }

  lemma OddDivisor(n: nat, g: int)
    requires n % 2 == 1 && Divides(g, n)
    ensures g % 2 == 1
  {
    var l :| n == g * l;
    EvenTimes(g, l);
  }

  lemma DividesOne(g: int)
    requires g > 0 && Divides(g, 1)
    ensures g == 1
  {
    var j :| 1 == g * j;
    if g > 1 {
      ProductAtLeast(g, j, 1);
    }
  }

  lemma HalfStillDivided(g: int, p: nat)
    requires g % 2 == 1 && Divides(g, 2 * p)
    ensures Divides(g, p)
  {
    var j :| 2 * p == g * j;
    if j % 2 == 1 {
      OddTimesOdd(g, j);
    }
    var h := j / 2;
    assert g * (2 * h) == 2 * (g * h);
    assert p == g * h;
  }

  lemma EvenTimes(a: int, b: int)
    ensures a % 2 == 0 ==> a * b % 2 == 0
  {
    var x := a / 2;
    assert a % 2 == 0 ==> a * b == 2 * (x * b);
  }

  lemma OddTimesOdd(a: int, b: int)
    requires a % 2 == 1 && b % 2 == 1
    ensures a * b % 2 == 1
  {
    var p := (a - 1) * b;
    assert a * b == p + b by { Distribute(a - 1, 1, b); }
    assert p % 2 == 0 by { EvenTimes(a - 1, b); }
    EvenAndOdd(p, b);
  }

  lemma EvenAndOdd(p: int, q: int)
    requires p % 2 == 0 && q % 2 == 1
    ensures (p + q) % 2 == 1
  {
  }

  /** Two to the modulus' bit length, squared, modulo the modulus. */
  function SquareMod(modulus: nat): (s: nat)
    requires modulus > 0
    ensures s < modulus
  {
    var r := Pow2(BitLength(modulus));
    r * r % modulus
  }

  lemma SquareModIs(modulus: nat)
    requires modulus > 0
    ensures exists bits: nat :: Pow2(bits) <= 2 * modulus < 2 * Pow2(bits) && SquareMod(modulus) == Pow2(bits) * Pow2(bits) % modulus
  {
    BitLengthBounds(modulus);
    var bits := BitLength(modulus);
    hide Pow2;
    assert Pow2(bits) <= 2 * modulus < 2 * Pow2(bits) && SquareMod(modulus) == Pow2(bits) * Pow2(bits) % modulus;
  }

  /** `RSAPublicKey.encode` for the exponent 65537. */
  method EncodeKey(numBits: nat, modulus: nat) returns (r: Result<bytes>)
    requires modulus > 0
    ensures r.Ok? <==> modulus % 2 == 1 && numBits < TWO_32 && numBits % 8 == 0
    ensures r.Ok? ==> |r.value| == 8 + 2 * (numBits / 8)
    ensures r.Ok? ==> FromBE(r.value[..4]) == numBits && (modulus * FromBE(r.value[4..8]) + 1) % TWO_32 == 0
    ensures r.Ok? ==> FromBE(r.value[8..8 + numBits / 8]) == modulus % Pow2(numBits)
    ensures r.Ok? && modulus < Pow2(numBits) ==>
      exists bits: nat :: Pow2(bits) <= 2 * modulus < 2 * Pow2(bits)
        && FromBE(r.value[8 + numBits / 8..]) == Pow2(bits) * Pow2(bits) % modulus
  {
    hide Modinv, N0Inv, BE, FromBE, Pow2, Pow256, SquareMod;
    SquareModIs(modulus);
    N0InvIsMinusInverse(modulus);
    var n0inv := N0Inv(modulus);
    if n0inv.None? {
      return Err(ValueError);
    }
    var rr := SquareMod(modulus);
    if numBits >= TWO_32 {
      return Err(StructError);
    }
    var n :- EncodeLong(numBits, modulus);
    var encodedSquare := EncodeLong(numBits, rr);
    var square := encodedSquare.value;
    PowersOf256();
    BERoundTrip(4, numBits);
    BERoundTrip(4, n0inv.value);
    PowersMatch(numBits / 8);
    if modulus < Pow2(numBits) {
      DivModUnique(rr, Pow2(numBits), 0, rr);
    }
    var key := BE(4, numBits) + BE(4, n0inv.value) + n + square;
    assert key[..4] == BE(4, numBits) && key[4..8] == BE(4, n0inv.value);
    assert key[8..8 + numBits / 8] == n && key[8 + numBits / 8..] == square;
    return Ok(key);
  }
}
