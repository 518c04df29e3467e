/**
 The Android public key blob: crates/transport/src/adb/auth.rs. Inversion modulo 2^32 by
 Newton steps, and the constants for Montgomery arithmetic. Big integers are mathematical.
 */
module AuthCore {
  import opened Wrappers
  import opened Bytes

  // ---- Inversion modulo 2^32

  const W: nat := 0x1_0000_0000

  /** Wrapping 32-bit arithmetic. */
  function Step(a: u32, x: u32): u32 {
    (x * ((2 - a * x % W) % W)) % W
  }

  /** The value of `x` after `k` turns of the loop. */
  function Newton(a: u32, k: nat): u32 {
    if k == 0 then 1 else Step(a, Newton(a, k - 1))
  }

  /** The modulus the value is right for after `k` turns: it is squared each time. */
  function Precision(k: nat): (m: nat)
    ensures m >= 2
  {
    if k == 0 then 2 else Precision(k - 1) * Precision(k - 1)
  }

  /** `n` is 1 modulo `m`. */
  ghost predicate OneModulo(n: int, m: nat) {
    exists q: int :: n == 1 + m * q
  }

  /** One turn squares the error, whatever was cut off by the wrapping. */
  lemma StepSquaresError(a: u32, x: u32, m: nat, c: nat)
    requires OneModulo(a * x, m) && W == m * m * c
    ensures OneModulo(a * Step(a, x), m * m)
  {
    var q: int :| a * x == 1 + m * q;
    var s1 := (2 - a * x % W) / W;
    var y := (2 - a * x % W) % W;
    var s0 := a * x / W;
    assert y == 2 - a * x + W * (s0 - s1);
    var s2 := x * y / W;
    assert Step(a, x) == x * y - W * s2;
    StepAlgebra(a, x, m, q, s0 - s1, s2, c, y);
    assert a * Step(a, x) == 1 + m * m * (-(q * q) + c * (a * x * (s0 - s1) - a * s2));
  }

  lemma StepAlgebra(a: int, x: int, m: int, q: int, s: int, s2: int, c: int, y: int)
    requires a * x == 1 + m * q && y == 2 - a * x + m * m * c * s
    ensures a * (x * y - m * m * c * s2) == 1 + m * m * (-(q * q) + c * (a * x * s - a * s2))
  {
    var p := a * x;
    assert p * (2 - p) == 1 - (m * q) * (m * q);
    assert (m * q) * (m * q) == m * m * (q * q);
    assert a * (x * y) == p * y;
    assert p * y == p * (2 - p) + p * (m * m * c * s);
    assert p * (m * m * c * s) == m * m * (c * (p * s));
    assert a * (m * m * c * s2) == m * m * (c * (a * s2));
    assert m * m * (-(q * q)) == -(m * m * (q * q));
    assert m * m * (c * (p * s - a * s2)) == m * m * (c * (p * s)) - m * m * (c * (a * s2));
  }

  /** `c` times the precision after `k` turns is 2^32. */
  function Cofactor(k: nat): (c: nat)
    requires k <= 5
    ensures Precision(k) * c == W && (k == 5 ==> c == 1)
  {
    assert Precision(1) == 4 && Precision(2) == 16 && Precision(3) == 256;
    assert Precision(4) == 65536 && Precision(5) == W;
    match k
    case 0 => 0x8000_0000
    case 1 => 0x4000_0000
    case 2 => 0x1000_0000
    case 3 => 0x100_0000
    case 4 => 0x1_0000
    case _ => 1
  }

  lemma {:induction false} NewtonPrecision(a: u32, k: nat)
    requires a % 2 == 1 && k <= 5
    ensures OneModulo(a * Newton(a, k), Precision(k))
  {
    if k == 0 {
      assert a * 1 == 1 + 2 * (a / 2);
    } else {
      NewtonPrecision(a, k - 1);
      assert W == Precision(k - 1) * Precision(k - 1) * Cofactor(k);
      hide Step;
      StepSquaresError(a, Newton(a, k - 1), Precision(k - 1), Cofactor(k));
    }
  }

  lemma OneModuloIs(n: nat, m: nat)
    requires m >= 2 && OneModulo(n, m)
    ensures n % m == 1
  {
    var q: int :| n == 1 + m * q;
    Remainder(n, q, 1, m);
  }

  lemma Remainder(n: int, q: int, r: int, m: nat)
    requires m > 0 && n == m * q + r && 0 <= r < m
    ensures n % m == r
  {
    var q', r' := n / m, n % m;
    assert n == m * q' + r';
    assert m * (q' - q) == r - r';
    if q' > q {
      MulAtLeast(m, q' - q);
    } else if q' < q {
      MulAtLeast(m, q - q');
    }
  }

  lemma MulAtLeast(m: nat, d: int)
    requires d >= 1
    ensures m * d >= m
  {
  }

  /** Five turns invert every odd number, and nothing inverts an even one. */
  lemma FiveTurnsInvert(a: u32)
    ensures a % 2 == 1 ==> a * Newton(a, 5) % W == 1
    ensures a % 2 == 0 ==> forall x: nat :: a * x % W != 1
  {
    if a % 2 == 1 {
      OddInverts(a);
    } else {
      forall x: nat
        ensures a * x % W != 1
      {
        EvenProduct(a / 2, x);
      }
    }
  }

  lemma OddInverts(a: u32)
    requires a % 2 == 1
    ensures a * Newton(a, 5) % W == 1
  {
    hide Newton, Precision, OneModulo;
    NewtonPrecision(a, 5);
    assert Precision(5) * Cofactor(5) == W && Cofactor(5) == 1;
    OneModuloIs(a * Newton(a, 5), W);
  }

  lemma EvenProduct(h: nat, x: nat)
    ensures 2 * h * x % W != 1
  {
    var p := h * x;
    assert 2 * h * x == 2 * p;
    EvenRemainder(p);
  }

  lemma EvenRemainder(p: nat)
    ensures 2 * p % W != 1
  {
    assert 2 * p == W * (2 * p / W) + 2 * p % W;
  }

  lemma StepOfThree(d: nat, s: nat, p: nat)
    requires 1 <= d && s == 3 * d + 2 && p == d * s && s < W && 1 <= p < W
    ensures Step(3, W - d) == W - p
  {
    Remainder(3 * (W - d), 2, W - 3 * d, W);
    Remainder(2 - (W - 3 * d), -1, s, W);
    Expand(d, s);
    Remainder((W - d) * s, s - 1, W - p, W);
  }

  lemma Expand(d: nat, s: nat)
    ensures (W - d) * s == W * s - d * s
  {
  }

  /** Four turns are not enough. */
  lemma FourTurnsDoNot()
    ensures 3 * Newton(3, 4) % W != 1
  {
    assert Newton(3, 1) == Step(3, Newton(3, 0)) == W - 1;
    hide Step;
    StepOfThree(1, 5, 5);
    assert Newton(3, 2) == Step(3, Newton(3, 1)) == W - 5;
    StepOfThree(5, 17, 85);
    assert Newton(3, 3) == Step(3, Newton(3, 2)) == W - 85;
    StepOfThree(85, 257, 21845);
    assert Newton(3, 4) == Step(3, Newton(3, 3)) == W - 21845;
  }

  // ---- The blob

  const MODULUS_BYTES: nat := 256
  const BLOB_LENGTH: nat := 524

  datatype AuthError = ModulusTooLong(length: nat) | ModulusEven

  /** `to_bytes_le`: as few bytes as needed, at least one. */
  function MinimalLE(n: nat): (s: bytes)
    ensures |s| >= 1
  {
    if n < 256 then [n as byte] else [(n % 256) as byte] + MinimalLE(n / 256)
  }

  function Zeros(k: nat): (s: bytes)
    ensures |s| == k
  {
    if k == 0 then [] else [0] + Zeros(k - 1)
  }

  /** `resize(k, 0)` on a vector that is not longer. */
  function Padded(s: bytes, k: nat): (r: bytes)
    requires |s| <= k
    ensures |r| == k
  {
    s + Zeros(k - |s|)
  }

  lemma {:induction false} LEOfZero(k: nat)
    ensures LE(0, k) == Zeros(k)
  {
    if k > 0 {
      LEOfZero(k - 1);
    }
  }

  /** The minimal bytes fit `k` exactly when the number is below 256^k, and padded they are its bytes. */
  lemma {:induction false} MinimalFits(n: nat, k: nat)
    requires k > 0
    ensures |MinimalLE(n)| <= k <==> n < Pow256(k)
    ensures |MinimalLE(n)| <= k ==> Padded(MinimalLE(n), k) == LE(n, k)
  {
    if n < 256 {
      LEOfZero(k - 1);
      assert Pow256(k) == 256 * Pow256(k - 1) >= 256;
    } else if k == 1 {
      assert Pow256(1) == 256 * Pow256(0);
    } else {
      MinimalFits(n / 256, k - 1);
      assert n / 256 < Pow256(k - 1) <==> n < 256 * Pow256(k - 1);
      var rest := MinimalLE(n / 256);
      if |rest| <= k - 1 {
        assert [(n % 256) as byte] + rest + Zeros(k - 1 - |rest|)
            == [(n % 256) as byte] + (rest + Zeros(k - 1 - |rest|));
      }
    }
  }

  lemma {:induction false} LEPrefix(n: nat, k: nat, j: nat)
    requires j <= k
    ensures LE(n, k)[..j] == LE(n, j)
  {
    if j > 0 {
      LEPrefix(n / 256, k - 1, j - 1);
      assert LE(n, k)[..j] == [(n % 256) as byte] + LE(n / 256, k - 1)[..j - 1];
    }
  }

  lemma FromLEPeels(n: nat, k: nat)
    requires k > 0
    ensures FromLE(LE(n, k)) == n % 256 + 256 * FromLE(LE(n / 256, k - 1))
  {
    assert LE(n, k)[1..] == LE(n / 256, k - 1);
  }

  lemma LowWord(n: nat, k: nat)
    requires k >= 4
    ensures GetU32(LE(n, k)[0..4]) == n % W
  {
    LEPrefix(n, k, 4);
    assert LE(n, k)[0..4] == LE(n, 4);
    FromLEPeels(n, 4);
    FromLEPeels(n / 256, 3);
    FromLEPeels(n / 256 / 256, 2);
    FromLEPeels(n / 256 / 256 / 256, 1);
    hide LE;
    FourDigits(n);
  }

  lemma FourDigits(n: nat)
    ensures n % 256 + 256 * (n / 256 % 256 + 256 * (n / 256 / 256 % 256 + 256 * (n / 256 / 256 / 256 % 256))) == n % W
  {
    var a, b, c := n / 256, n / 256 / 256, n / 256 / 256 / 256;
    var digits := n % 256 + 256 * (a % 256 + 256 * (b % 256 + 256 * (c % 256)));
    assert n == 256 * a + n % 256 && a == 256 * b + a % 256 && b == 256 * c + b % 256 && c == 256 * (c / 256) + c % 256;
    Remainder(n, c / 256, digits, W);
  }

  function Blob(n0inv: u32, n: nat, rr: nat, e: u32): (b: bytes)
    ensures |b| == BLOB_LENGTH
  {
    PutU32(64) + PutU32(n0inv) + LE(n, 256) + LE(rr, 256) + PutU32(e)
  }

  datatype PublicKey = PublicKey(words: nat, n0inv: nat, n: nat, rr: nat, e: nat)

  /** How the device reads the structure. */
  function ParseBlob(b: bytes): PublicKey
    requires |b| == BLOB_LENGTH
  {
    PublicKey(GetU32(b[0..4]), GetU32(b[4..8]), FromLE(b[8..264]), FromLE(b[264..520]), GetU32(b[520..524]))
  }

  lemma BlobParses(n0inv: u32, n: nat, rr: nat, e: u32)
    requires n < Pow256(MODULUS_BYTES) && rr < Pow256(MODULUS_BYTES)
    ensures ParseBlob(Blob(n0inv, n, rr, e)) == PublicKey(64, n0inv, n, rr, e)
  {
    FromLEInvertsLE(n, MODULUS_BYTES);
    FromLEInvertsLE(rr, MODULUS_BYTES);
    hide Pow256, LE, FromLE, GetU32, PutU32;
    FiveParts(PutU32(64), PutU32(n0inv), LE(n, 256), LE(rr, 256), PutU32(e));
  }

  lemma FiveParts(a: bytes, b: bytes, c: bytes, d: bytes, e: bytes)
    requires |a| == 4 && |b| == 4 && |c| == 256 && |d| == 256 && |e| == 4
    ensures var s := a + b + c + d + e;
            s[0..4] == a && s[4..8] == b && s[8..264] == c && s[264..520] == d && s[520..524] == e
  {
  }

  /** What the source computes for modulus `n` and exponent `e`. */
  function EncodeKey(n: nat, e: nat): Result<bytes, AuthError> {
    if |MinimalLE(n)| > MODULUS_BYTES then Err(ModulusTooLong(|MinimalLE(n)|))
    else if n % 2 == 0 then Err(ModulusEven)
    else
      var inv := Newton(n % W, 5);
      Ok(Blob((W - inv) % W, n, Pow256(MODULUS_BYTES) * Pow256(MODULUS_BYTES) % n, e % W))
  }

  lemma PowSquare(k: nat)
    ensures Pow256(k) * Pow256(k) == Pow256(2 * k)
  {
    PowAdd(k, k);
  }

  lemma Associate(x: nat, y: nat, z: nat)
    ensures x * y * z == x * (y * z)
  {
  }

  lemma {:induction false} PowAdd(a: nat, b: nat)
    ensures Pow256(a) * Pow256(b) == Pow256(a + b)
  {
    if a > 0 {
      PowAdd(a - 1, b);
      Associate(256, Pow256(a - 1), Pow256(b));
    }
  }

  /**
   The blob exists exactly for odd moduli of at most 2048 bits; it parses back to the modulus
   and the exponent's low 32 bits, with n0inv * n = -1 modulo 2^32 and rr = 2^4096 modulo n.
   */
  lemma BlobIsRight(n: nat, e: nat)
    ensures EncodeKey(n, e).Ok? <==> n % 2 == 1 && n < Pow256(MODULUS_BYTES)
    ensures EncodeKey(n, e).Ok? ==>
      |EncodeKey(n, e).value| == BLOB_LENGTH
      && var k := ParseBlob(EncodeKey(n, e).value);
         && k.words == 64 && k.n == n && k.e == e % W
         && (k.n0inv * n + 1) % W == 0
         && k.rr == Pow256(2 * MODULUS_BYTES) % n
  {
    hide Pow256, Blob, ParseBlob;
    MinimalFits(n, MODULUS_BYTES);
    if n % 2 == 1 && n < Pow256(MODULUS_BYTES) {
      var inv := Newton(n % W, 5);
      var rr := Pow256(MODULUS_BYTES) * Pow256(MODULUS_BYTES) % n;
      PowSquare(MODULUS_BYTES);
      BlobParses((W - inv) % W, n, rr, e % W);
      OddLowWord(n);
      FiveTurnsInvert(n % W);
      NegatedInverse(n, inv);
    }
  }

  lemma OddLowWord(n: nat)
    ensures n % W % 2 == n % 2
  {
    assert n == W * (n / W) + n % W;
  }

  lemma NegatedInverse(n: nat, inv: u32)
    requires (n % W) * inv % W == 1
    ensures ((W - inv) % W * n + 1) % W == 0
  {
    var lo, hi, q := n % W, n / W, (n % W) * inv / W;
    assert n == W * hi + lo && lo * inv == W * q + 1;
    assert inv > 0;
    assert (W - inv) % W == W - inv;
    assert (W - inv) * n + 1 == W * (n - inv * hi - q) by {
      assert (W - inv) * n == W * n - inv * n;
      assert inv * n == inv * (W * hi) + inv * lo;
      assert inv * (W * hi) == W * (inv * hi);
    }
    Remainder((W - inv) * n + 1, n - inv * hi - q, 0, W);
  }

  /** What n0inv is for: adding that multiple of the modulus clears the low word. */
  lemma MontgomeryStep(t: nat, n: nat, n0inv: nat)
    requires (n0inv * n + 1) % W == 0
    ensures (t + t * n0inv % W * n) % W == 0
  {
    var u := t * n0inv;
    var m, s, q := u % W, u / W, (n0inv * n + 1) / W;
    assert n0inv * n + 1 == W * q && u == W * s + m;
    assert t + m * n == W * (t * q - s * n) by {
      assert m * n == u * n - W * s * n;
      assert u * n == t * (n0inv * n);
      assert t * (n0inv * n) == t * (W * q - 1) == W * (t * q) - t;
      assert W * s * n == W * (s * n);
    }
    Remainder(t + m * n, t * q - s * n, 0, W);
  }
}
