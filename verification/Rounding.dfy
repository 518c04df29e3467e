/** Comparisons, rounding and the two fixed-point encodings of crates/proto/src/lib.rs, over reals. */
module Rounding {
  import opened Bytes

  function Min(a: int, b: int): int { if a <= b then a else b }
  function Max(a: int, b: int): int { if a >= b then a else b }
  function RMax(a: real, b: real): (m: real)
    ensures m >= a && m >= b && (m == a || m == b)
  {
    if a >= b then a else b
  }

  function Clamp01(r: real): (c: real)
    ensures 0.0 <= c <= 1.0
  {
    if r < 0.0 then 0.0 else if r > 1.0 then 1.0 else r
  }

  /** `f32::round`: to the nearest integer, halves away from zero. */
  function Round(r: real): (n: int)
    ensures if r >= 0.0 then -0.5 <= r - n as real < 0.5 else -0.5 < r - n as real <= 0.5
  {
    if r >= 0.0 then (r + 0.5).Floor else -((-r + 0.5).Floor)
  }

  function EncodePressure(pressure: real): (p: u16)
    ensures p == 0 <== pressure <= 0.0
    ensures p == 65535 <== pressure >= 1.0
    ensures 0.0 <= pressure <= 1.0 ==> -0.5 <= pressure * 65535.0 - p as real < 0.5
  {
    Round(Clamp01(pressure) * 65535.0)
  }

  /** 16.16 fixed point; the cast to 32 bits saturates. */
  function EncodeScroll(v: real): (s: i32)
    ensures if v * 65536.0 >= 2147483647.0 then s == 0x7FFF_FFFF
            else if v * 65536.0 <= -2147483648.0 then s == -0x8000_0000
            else if v >= 0.0 then -0.5 <= v * 65536.0 - s as real < 0.5
            else -0.5 < v * 65536.0 - s as real <= 0.5
  {
    Max(-0x8000_0000, Min(Round(v * 65536.0), 0x7FFF_FFFF))
  }
}
