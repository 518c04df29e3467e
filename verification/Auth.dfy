/** The key blob as the source builds it: crates/transport/src/adb/auth.rs. */
module AuthObject {
  import opened Wrappers
  import opened Bytes
  import opened AuthCore

  method ModInverse(a: u32) returns (r: Option<u32>)
    ensures r.None? <==> a % 2 == 0
    ensures r.Some? ==> a * r.value % W == 1 && r.value == Newton(a, 5)
  {
    if a % 2 == 0 {
      return None;
    }
    var x: u32 := 1;
    for i := 0 to 5
      invariant x == Newton(a, i)
    {
      x := (x * ((2 - a * x % W) % W)) % W;
    }
    FiveTurnsInvert(a);
    return Some(x);
  }

  /** `resize(k, 0)`. */
  method Resize(s: bytes, k: nat) returns (r: bytes)
    requires |s| <= k
    ensures r == Padded(s, k)
  {
    r := s;
    while |r| < k
      invariant |r| <= k
      invariant r + Zeros(k - |r|) == Padded(s, k)
    {
      assert r + ([0] + Zeros(k - |r| - 1)) == r + [0] + Zeros(k - |r| - 1);
      r := r + [0];
    }
  }

  method EncodeAndroidPubkey(n: nat, e: nat) returns (r: Result<bytes, AuthError>)
    ensures r == EncodeKey(n, e)
  {
    hide Pow256, MinimalLE, Newton, Padded, LE, GetU32;
    var modulus := MinimalLE(n);
    if |modulus| > MODULUS_BYTES {
      return Err(ModulusTooLong(|modulus|));
    }
    MinimalFits(n, MODULUS_BYTES);
    modulus := Resize(modulus, MODULUS_BYTES);

    LowWord(n, MODULUS_BYTES);
    var n0 := GetU32(modulus[0..4]);
    var inv := ModInverse(n0);
    OddLowWord(n);
    if inv.None? {
      return Err(ModulusEven);
    }
    var n0inv := (W - inv.value) % W;

    var r2 := Pow256(MODULUS_BYTES);
    var rrMod := r2 * r2 % n;
    var rr := MinimalLE(rrMod);
    MinimalFits(rrMod, MODULUS_BYTES);
    // The source's test that `rr` is not longer than the modulus cannot fire: it is below n.
    rr := Resize(rr, MODULUS_BYTES);

    var exponent := LowWordOf(e);

    var out := PutU32(MODULUS_BYTES / 4);
    out := out + PutU32(n0inv);
    out := out + modulus;
    out := out + rr;
    out := out + PutU32(exponent);
    return Ok(out);
  }

  /** The first four little-endian bytes, copied into a zeroed buffer. */
  method LowWordOf(e: nat) returns (w: u32)
    ensures w == e % W
  {
    var expLe := MinimalLE(e);
    var ncopy := if |expLe| < 4 then |expLe| else 4;
    var expBuf := Resize(expLe[..ncopy], 4);
    LowBytes(e);
    w := GetU32(expBuf);
  }

  /** The first four bytes of a number, padded if there are fewer, are its low word. */
  lemma LowBytes(e: nat)
    ensures var s := MinimalLE(e);
            GetU32(Padded(if |s| < 4 then s[..|s|] else s[..4], 4)) == e % W
  {
    var s := MinimalLE(e);
    var k := if |s| < 4 then 4 else |s|;
    MinimalFits(e, k);
    LowWord(e, k);
    assert LE(e, k)[0..4] == Padded(if |s| < 4 then s[..|s|] else s[..4], 4);
  }
}
