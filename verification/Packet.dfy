/** Writing a header in place: `Packet::to_bytes` of crates/transport/src/adb/protocol.rs. */
module PacketLoops {
  import opened Bytes
  import opened PacketCore

  /** `copy_from_slice` at a fixed place. */
  method CopyAt(a: array<byte>, at: nat, s: bytes)
    requires at + |s| <= a.Length
    modifies a
    ensures a[..at + |s|] == old(a[..at]) + s && a[at + |s|..] == old(a[at + |s|..])
  {
    for i := 0 to |s|
      invariant a[..at] == old(a[..at]) && a[at + i..] == old(a[at + i..])
      invariant a[at..at + i] == s[..i]
    {
      a[at + i] := s[i];
    }
    assert a[..at + |s|] == a[..at] + a[at..at + |s|];
  }

  method ToBytes(p: Packet) returns (a: array<byte>)
    ensures fresh(a) && a[..] == Header(p)
  {
    hide PutU32, Code;
    a := new byte[24](_ => 0);
    CopyAt(a, 0, PutU32(Code(p.command)));
    CopyAt(a, 4, PutU32(p.arg0));
    CopyAt(a, 8, PutU32(p.arg1));
    CopyAt(a, 12, PutU32(p.dataLength));
    CopyAt(a, 16, PutU32(p.dataCrc32));
    CopyAt(a, 20, PutU32(p.magic));
    assert a[..] == a[..24];
  }

  /** The checksum fold. */
  method ChecksumOf(data: bytes) returns (acc: u32)
    ensures acc == Checksum(data)
  {
    acc := 0;
    for i := 0 to |data|
      invariant acc == Checksum(data[..i])
    {
      assert data[..i + 1][..i] == data[..i];
      acc := (acc + data[i] as int) % U32_MOD;
    }
    assert data[..|data|] == data;
  }
}
