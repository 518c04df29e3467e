/** Bytes, fixed-width integers, and the two byte orders of the wire formats. */
module Bytes {
  newtype byte = x: int | 0 <= x < 0x100
  type u16 = x: int | 0 <= x < 0x1_0000
  type u32 = x: int | 0 <= x < 0x1_0000_0000
  type u64 = x: int | 0 <= x < 0x1_0000_0000_0000_0000
  type i32 = x: int | -0x8000_0000 <= x < 0x8000_0000
  type bytes = seq<byte>

  const U16_MAX: nat := 0xFFFF
  const U32_MOD: nat := 0x1_0000_0000

  /** 256 to the power `k`: how many values `k` bytes can hold. */
  function Pow256(k: nat): (r: nat)
    ensures r >= 1
  {
    if k == 0 then 1 else 256 * Pow256(k - 1)
  }

  /** The `k` low-order bytes of `n`, least significant first. */
  function LE(n: nat, k: nat): (s: bytes)
    ensures |s| == k
  {
    if k == 0 then [] else [(n % 256) as byte] + LE(n / 256, k - 1)
  }

  function FromLE(s: bytes): nat {
    if s == [] then 0 else s[0] as nat + 256 * FromLE(s[1..])
  }

  /** The `k` low-order bytes of `n`, most significant first. */
  function BE(n: nat, k: nat): (s: bytes)
    ensures |s| == k
  {
    if k == 0 then [] else BE(n / 256, k - 1) + [(n % 256) as byte]
  }

  function FromBE(s: bytes): nat {
    if s == [] then 0 else 256 * FromBE(s[..|s| - 1]) + s[|s| - 1] as nat
  }

  lemma {:induction false} FromLEInvertsLE(n: nat, k: nat)
    requires n < Pow256(k)
    ensures FromLE(LE(n, k)) == n
  {
    if k > 0 {
      FromLEInvertsLE(n / 256, k - 1);
      assert LE(n, k)[1..] == LE(n / 256, k - 1);
    }
  }

  lemma {:induction false} LEInvertsFromLE(s: bytes)
    ensures FromLE(s) < Pow256(|s|)
    ensures LE(FromLE(s), |s|) == s
  {
    if s != [] {
      LEInvertsFromLE(s[1..]);
      assert FromLE(s) % 256 == s[0] as nat && FromLE(s) / 256 == FromLE(s[1..]);
      assert s == [s[0]] + s[1..];
    }
  }

  lemma {:induction false} FromBEInvertsBE(n: nat, k: nat)
    requires n < Pow256(k)
    ensures FromBE(BE(n, k)) == n
  {
    if k > 0 {
      FromBEInvertsBE(n / 256, k - 1);
      assert BE(n, k)[..k - 1] == BE(n / 256, k - 1);
    }
  }

  lemma {:induction false} BEInvertsFromBE(s: bytes)
    ensures FromBE(s) < Pow256(|s|)
    ensures BE(FromBE(s), |s|) == s
  {
    if s != [] {
      BEInvertsFromBE(s[..|s| - 1]);
      assert s == s[..|s| - 1] + [s[|s| - 1]];
    }
  }

  lemma SmallPowers()
    ensures Pow256(2) == 0x1_0000
    ensures Pow256(4) == 0x1_0000_0000
    ensures Pow256(8) == 0x1_0000_0000_0000_0000
  {
    assert Pow256(1) == 256 * Pow256(0) == 256;
    assert Pow256(2) == 256 * Pow256(1);
    assert Pow256(3) == 256 * Pow256(2);
    assert Pow256(4) == 256 * Pow256(3);
    assert Pow256(5) == 256 * Pow256(4);
    assert Pow256(6) == 256 * Pow256(5);
    assert Pow256(7) == 256 * Pow256(6);
    assert Pow256(8) == 256 * Pow256(7);
  }

  // ---- Fixed widths. Each writer's contract names its reader, and the other way round.

  function PutU16(x: u16): (s: bytes)
    ensures |s| == 2 && GetU16(s) == x
  {
    SmallPowers();
    FromLEInvertsLE(x, 2);
    LE(x, 2)
  }

  function GetU16(s: bytes): u16
    requires |s| == 2
  {
    SmallPowers();
    LEInvertsFromLE(s);
    FromLE(s)
  }

  function PutU32(x: u32): (s: bytes)
    ensures |s| == 4 && GetU32(s) == x
  {
    SmallPowers();
    FromLEInvertsLE(x, 4);
    LE(x, 4)
  }

  function GetU32(s: bytes): u32
    requires |s| == 4
  {
    SmallPowers();
    LEInvertsFromLE(s);
    FromLE(s)
  }

  function PutU64(x: u64): (s: bytes)
    ensures |s| == 8 && GetU64(s) == x
  {
    SmallPowers();
    FromLEInvertsLE(x, 8);
    LE(x, 8)
  }

  function GetU64(s: bytes): u64
    requires |s| == 8
  {
    SmallPowers();
    LEInvertsFromLE(s);
    FromLE(s)
  }

  /** Two's complement on 32 bits. */
  function PutI32(x: i32): (s: bytes)
    ensures |s| == 4 && GetI32(s) == x
  {
    PutU32(if x < 0 then x + U32_MOD else x)
  }

  function GetI32(s: bytes): i32
    requires |s| == 4
  {
    var u := GetU32(s);
    if u < 0x8000_0000 then u else u - U32_MOD
  }

  function PutU32BE(x: u32): (s: bytes)
    ensures |s| == 4 && GetU32BE(s) == x
  {
    SmallPowers();
    FromBEInvertsBE(x, 4);
    BE(x, 4)
  }

  function GetU32BE(s: bytes): u32
    requires |s| == 4
  {
    SmallPowers();
    BEInvertsFromBE(s);
    FromBE(s)
  }

  lemma PutInvertsGet(s: bytes)
    ensures |s| == 2 ==> PutU16(GetU16(s)) == s
    ensures |s| == 4 ==> PutU32(GetU32(s)) == s && PutI32(GetI32(s)) == s && PutU32BE(GetU32BE(s)) == s
    ensures |s| == 8 ==> PutU64(GetU64(s)) == s
  {
    LEInvertsFromLE(s);
    BEInvertsFromBE(s);
  }

  /** The low-order byte comes first; a signed number is negative when the top bit is set. */
  lemma LittleEndian(s: bytes)
    ensures |s| == 2 ==> GetU16(s) == s[0] as int + 0x100 * s[1] as int
    ensures |s| == 4 ==>
              GetU32(s) == s[0] as int + 0x100 * s[1] as int + 0x1_0000 * s[2] as int + 0x100_0000 * s[3] as int
    ensures |s| == 4 ==> GetI32(s) == if s[3] < 0x80 then GetU32(s) else GetU32(s) - 0x1_0000_0000
    ensures |s| == 8 ==> GetU64(s) == GetU32(s[..4]) + 0x1_0000_0000 * GetU32(s[4..])
  {
    if |s| == 2 {
      Peels(s);
      Peels(s[1..]);
    } else if |s| == 4 {
      FourPeels(s);
    } else if |s| == 8 {
      FourPeels(s[..4]);
      FourPeels(s[4..]);
      var t := s[4..];
      Peels(s);
      Peels(s[1..]);
      Peels(s[2..]);
      Peels(s[3..]);
      assert s[1..][1..] == s[2..] && s[2..][1..] == s[3..] && s[3..][1..] == t;
    }
  }

  lemma Peels(s: bytes)
    requires s != []
    ensures FromLE(s) == s[0] as int + 256 * FromLE(s[1..]) && FromLE([]) == 0
  {
  }

  lemma FourPeels(s: bytes)
    requires |s| == 4
    ensures FromLE(s) == s[0] as int + 0x100 * s[1] as int + 0x1_0000 * s[2] as int + 0x100_0000 * s[3] as int
  {
    Peels(s);
    Peels(s[1..]);
    Peels(s[2..]);
    Peels(s[3..]);
    assert s[1..][1..] == s[2..] && s[2..][1..] == s[3..] && s[3..][1..] == [];
  }

  /** The high-order byte comes first. */
  lemma BigEndian(s: bytes)
    requires |s| == 4
    ensures GetU32BE(s) == 0x100_0000 * s[0] as int + 0x1_0000 * s[1] as int + 0x100 * s[2] as int + s[3] as int
  {
    var s3, s2, s1 := s[..3], s[..2], s[..1];
    assert s3[..2] == s2 && s2[..1] == s1 && s1[..0] == [];
    assert FromBE(s1) == s[0] as int;
    assert FromBE(s2) == 256 * FromBE(s1) + s[1] as int;
    assert FromBE(s3) == 256 * FromBE(s2) + s[2] as int;
  }

  /** All the pieces, one after the other. */
  function Flatten(pieces: seq<bytes>): bytes {
    if pieces == [] then [] else pieces[0] + Flatten(pieces[1..])
  }

  lemma Assoc(a: bytes, b: bytes, c: bytes)
    ensures a + (b + c) == a + b + c
  {
  }

  lemma {:induction false} FlattenAppend(a: seq<bytes>, b: seq<bytes>)
    ensures Flatten(a + b) == Flatten(a) + Flatten(b)
  {
    if a == [] {
      assert a + b == b;
    } else {
      FlattenAppend(a[1..], b);
      assert (a + b)[0] == a[0] && (a + b)[1..] == a[1..] + b;
      Assoc(a[0], Flatten(a[1..]), Flatten(b));
    }
  }

  lemma FlattenSnoc(a: seq<bytes>, x: bytes)
    ensures Flatten(a + [x]) == Flatten(a) + x
  {
    FlattenAppend(a, [x]);
    assert Flatten([x]) == x + Flatten([x][1..]) == x;
  }

  /** `slice::chunks`: pieces of `size` bytes, the last one possibly shorter. */
  function Chunks(data: bytes, size: nat): (r: seq<bytes>)
    requires size > 0
    ensures forall i :: 0 <= i < |r| ==> 0 < |r[i]| <= size
    ensures r == [] <==> data == []
  {
    if data == [] then []
    else if |data| <= size then [data]
    else [data[..size]] + Chunks(data[size..], size)
  }

  lemma {:induction false} ChunksFlatten(data: bytes, size: nat)
    requires size > 0
    ensures Flatten(Chunks(data, size)) == data
    decreases |data|
  {
    if |data| > size {
      ChunksFlatten(data[size..], size);
      assert Chunks(data, size)[1..] == Chunks(data[size..], size);
      assert data == data[..size] + data[size..];
    } else if data != [] {
      assert Flatten([data]) == data + Flatten([data][1..]) == data;
    }
  }

  /** Every piece but the last is full. */
  lemma {:induction false} ChunksFull(data: bytes, size: nat, i: nat)
    requires size > 0
    requires i + 1 < |Chunks(data, size)|
    ensures |Chunks(data, size)[i]| == size
    decreases i
  {
    if i > 0 {
      ChunksFull(data[size..], size, i - 1);
    }
  }

  /** The bytes of a text in ASCII; other characters are question marks. */
  function Ascii(s: string): (b: bytes)
    ensures |b| == |s| && forall i :: 0 <= i < |b| ==> b[i] as int == if s[i] as int < 128 then s[i] as int else 63
  {
    seq(|s|, i requires 0 <= i < |s| => if s[i] as int < 128 then s[i] as int as byte else 63)
  }
}
