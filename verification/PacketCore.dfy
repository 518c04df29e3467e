/** The ADB packet codec: crates/transport/src/adb/protocol.rs and the packet I/O of client.rs. */
module PacketCore {
  import opened Wrappers
  import opened Bytes

  const HEADER_BYTES := 24
  /** The largest payload `read_packet` takes. */
  const MAX_PAYLOAD := 4 * 1024 * 1024
  const U32_MAX: u32 := 0xFFFF_FFFF

  datatype Command = Sync | Cnxn | Auth | Open | Okay | Clse | Wrte

  datatype PacketError = HeaderShort | UnknownCommand(code: u32) | MagicMismatch | PayloadTooLong(len: u32)
                       | ChecksumMismatch

  function Code(c: Command): u32 {
    match c
    case Sync => 0x434e5953
    case Cnxn => 0x4e584e43
    case Auth => 0x48545541
    case Open => 0x4e45504f
    case Okay => 0x59414b4f
    case Clse => 0x45534c43
    case Wrte => 0x45545257
  }

  function FromU32(v: u32): (r: Option<Command>)
    ensures forall c :: r == Some(c) <==> Code(c) == v
  {
    if v == 0x434e5953 then Some(Sync)
    else if v == 0x4e584e43 then Some(Cnxn)
    else if v == 0x48545541 then Some(Auth)
    else if v == 0x4e45504f then Some(Open)
    else if v == 0x59414b4f then Some(Okay)
    else if v == 0x45534c43 then Some(Clse)
    else if v == 0x45545257 then Some(Wrte)
    else None
  }

  datatype Packet = Packet(command: Command, arg0: u32, arg1: u32, dataLength: u32, dataCrc32: u32, magic: u32)

  /** All bits flipped: the exclusive or with 0xffff_ffff. */
  function Complement(v: u32): u32 {
    U32_MAX - v
  }

  function XorBit(a: nat, b: nat): nat {
    if a == b then 0 else 1
  }

  /** The exclusive or, bit by bit. */
  function Xor(a: nat, b: nat): nat
    decreases a + b
  {
    if a + b == 0 then 0 else XorBit(a % 2, b % 2) + 2 * Xor(a / 2, b / 2)
  }

  /** A number of `k` ones. */
  function Ones(k: nat): nat {
    if k == 0 then 0 else 2 * Ones(k - 1) + 1
  }

  lemma {:induction false} XorWithOnes(v: nat, k: nat)
    requires v <= Ones(k)
    ensures Xor(v, Ones(k)) == Ones(k) - v
  {
    if k > 0 {
      hide Xor;
      LowBit(v, Ones(k - 1));
      XorWithOnes(v / 2, k - 1);
    }
  }

  lemma LowBit(v: nat, ones: nat)
    ensures Xor(v, 2 * ones + 1) == 1 - v % 2 + 2 * Xor(v / 2, ones)
  {
    XorUnfolds(v, 2 * ones + 1);
    OddHalf(ones);
    hide Xor;
  }

  lemma XorUnfolds(a: nat, b: nat)
    requires a + b > 0
    ensures Xor(a, b) == XorBit(a % 2, b % 2) + 2 * Xor(a / 2, b / 2)
  {
  }

  lemma OddHalf(ones: nat)
    ensures (2 * ones + 1) / 2 == ones && (2 * ones + 1) % 2 == 1
  {
  }

  /** `magic` is the command with every bit flipped. */
  lemma ComplementIsXor(v: u32)
    ensures Complement(v) == Xor(v, U32_MAX)
  {
    assert Ones(4) == 0xF by { assert Ones(2) == 3; }
    assert Ones(8) == 0xFF by { assert Ones(6) == 0x3F; }
    assert Ones(12) == 0xFFF by { assert Ones(10) == 0x3FF; }
    assert Ones(16) == 0xFFFF by { assert Ones(14) == 0x3FFF; }
    assert Ones(20) == 0xF_FFFF by { assert Ones(18) == 0x3_FFFF; }
    assert Ones(24) == 0xFF_FFFF by { assert Ones(22) == 0x3F_FFFF; }
    assert Ones(28) == 0xFFF_FFFF by { assert Ones(26) == 0x3FF_FFFF; }
    assert Ones(32) == U32_MAX by { assert Ones(30) == 0x3FFF_FFFF; }
    XorWithOnes(v, 32);
  }

  /** The byte sum, wrapping at 32 bits. */
  function Checksum(data: bytes): u32 {
    if data == [] then 0 else (Checksum(data[..|data| - 1]) + data[|data| - 1] as int) % U32_MOD
  }

  function NewPacket(command: Command, arg0: u32, arg1: u32, data: bytes): Packet {
    Packet(command, arg0, arg1, |data| % U32_MOD, Checksum(data), Complement(Code(command)))
  }

  /** The 24 bytes of a header. */
  function Header(p: Packet): (s: bytes)
    ensures |s| == HEADER_BYTES
  {
    PutU32(Code(p.command)) + PutU32(p.arg0) + PutU32(p.arg1) + PutU32(p.dataLength) + PutU32(p.dataCrc32)
    + PutU32(p.magic)
  }

  function FromBytes(s: bytes): Result<Packet, PacketError> {
    if |s| < HEADER_BYTES then Err(HeaderShort)
    else
      var code := GetU32(s[0..4]);
      var command := FromU32(code);
      if command.None? then Err(UnknownCommand(code))
      else
        var magic := GetU32(s[20..24]);
        if magic != Complement(Code(command.value)) then Err(MagicMismatch)
        else
          Ok(Packet(command.value, GetU32(s[4..8]), GetU32(s[8..12]), GetU32(s[12..16]), GetU32(s[16..20]), magic))
  }

  // ---- The header round trips

  lemma HeaderFields(p: Packet, rest: bytes)
    ensures var s := Header(p) + rest;
            && s[0..4] == PutU32(Code(p.command)) && s[4..8] == PutU32(p.arg0) && s[8..12] == PutU32(p.arg1)
            && s[12..16] == PutU32(p.dataLength) && s[16..20] == PutU32(p.dataCrc32) && s[20..24] == PutU32(p.magic)
  {
    hide PutU32;
  }

  function Name(c: Command): (s: string)
    ensures |s| == 4 && s[0] < 128 as char && s[1] < 128 as char && s[2] < 128 as char && s[3] < 128 as char
  {
    match c
    case Sync => "SYNC"
    case Cnxn => "CNXN"
    case Auth => "AUTH"
    case Open => "OPEN"
    case Okay => "OKAY"
    case Clse => "CLSE"
    case Wrte => "WRTE"
  }

  /** A command is sent as the four letters of its name. */
  lemma CommandIsItsName(c: Command)
    ensures PutU32(Code(c)) == Ascii(Name(c))
  {
    CodeIsName(c);
    hide PutU32, GetU32, Code, Name;
    LittleEndian(Ascii(Name(c)));
    PutInvertsGet(Ascii(Name(c)));
  }

  lemma CodeIsName(c: Command)
    ensures var s := Name(c);
            Code(c) == s[0] as int + 0x100 * s[1] as int + 0x1_0000 * s[2] as int + 0x100_0000 * s[3] as int
  {
  }

  /** A header reads back exactly when its magic matches its command; trailing bytes do not matter. */
  lemma HeaderRoundTrip(p: Packet, rest: bytes)
    ensures FromBytes(Header(p) + rest) == Ok(p) <==> p.magic == Complement(Code(p.command))
    ensures p.magic != Complement(Code(p.command)) ==> FromBytes(Header(p) + rest) == Err(MagicMismatch)
  {
    HeaderFields(p, rest);
    hide PutU32, GetU32, Header;
  }

  /** A header that reads is the one that was written. */
  lemma ReadHeaderReencodes(s: bytes)
    requires FromBytes(s).Ok?
    ensures Header(FromBytes(s).value) == s[..HEADER_BYTES]
  {
    PutInvertsGet(s[0..4]);
    PutInvertsGet(s[4..8]);
    PutInvertsGet(s[8..12]);
    PutInvertsGet(s[12..16]);
    PutInvertsGet(s[16..20]);
    PutInvertsGet(s[20..24]);
    hide PutU32, GetU32;
    SixFields(s);
  }

  lemma SixFields(s: bytes)
    requires |s| >= 24
    ensures s[0..4] + s[4..8] + s[8..12] + s[12..16] + s[16..20] + s[20..24] == s[..24]
  {
  }

  // ---- The checksum

  function Sum(data: bytes): nat {
    if data == [] then 0 else Sum(data[..|data| - 1]) + data[|data| - 1] as int
  }

  lemma {:induction false} ChecksumIsSum(data: bytes)
    ensures Checksum(data) == Sum(data) % U32_MOD
    ensures Sum(data) <= 255 * |data|
  {
    if data != [] {
      ChecksumIsSum(data[..|data| - 1]);
      ModOfSum(Sum(data[..|data| - 1]), data[|data| - 1] as int);
    }
  }

  lemma ModOfSum(a: nat, b: nat)
    ensures (a % U32_MOD + b) % U32_MOD == (a + b) % U32_MOD
  {
  }

  function Full(n: nat): (s: bytes)
    ensures |s| == n
  {
    if n == 0 then [] else Full(n - 1) + [255]
  }

  lemma {:induction false} FullSum(n: nat)
    ensures Sum(Full(n)) == 255 * n
  {
    if n > 0 {
      FullSum(n - 1);
      assert Full(n)[..n - 1] == Full(n - 1);
    }
  }

  /** Up to this many bytes the sum cannot wrap; one more, all 255, wraps it. */
  const CHECKSUM_LIMIT := 0x0101_0101

  lemma ChecksumDoesNotWrap(n: nat)
    ensures (forall data: bytes :: |data| <= n ==> Checksum(data) == Sum(data)) <==> n <= CHECKSUM_LIMIT
  {
    if n <= CHECKSUM_LIMIT {
      forall data: bytes | |data| <= n
        ensures Checksum(data) == Sum(data)
      {
        ChecksumIsSum(data);
      }
    } else {
      var data := Full(CHECKSUM_LIMIT + 1);
      FullSum(CHECKSUM_LIMIT + 1);
      ChecksumIsSum(data);
      assert |data| <= n && Checksum(data) != Sum(data);
    }
  }

  // ---- Packets on a byte stream

  /** A packet as `write_packet` is asked to send it. */
  datatype Sent = Sent(command: Command, arg0: u32, arg1: u32, data: bytes)

  function WireOf(p: Sent): bytes {
    Header(NewPacket(p.command, p.arg0, p.arg1, p.data)) + p.data
  }

  function WireOfAll(list: seq<Sent>): bytes {
    if list == [] then [] else WireOf(list[0]) + WireOfAll(list[1..])
  }

  /** What `read_packet` finds at the start of a stream: a packet, a fault, or too few bytes yet. */
  datatype Read = Got(packet: Packet, data: bytes) | Faulty(error: PacketError) | Starved

  function PayloadFault(p: Packet, data: bytes): Option<PacketError> {
    if p.dataLength > 0 && p.dataCrc32 != 0 && p.dataCrc32 != Checksum(data) then Some(ChecksumMismatch) else None
  }

  function ReadPacket(s: bytes): Read {
    if |s| < HEADER_BYTES then Starved
    else
      match FromBytes(s[..HEADER_BYTES])
      case Err(e) => Faulty(e)
      case Ok(p) => ReadPayload(p, s[HEADER_BYTES..])
  }

  function ReadPayload(p: Packet, s: bytes): Read {
    if p.dataLength > MAX_PAYLOAD then Faulty(PayloadTooLong(p.dataLength))
    else if |s| < p.dataLength then Starved
    else
      var data := s[..p.dataLength];
      var fault := PayloadFault(p, data);
      if fault.Some? then Faulty(fault.value) else Got(p, data)
  }

  /** What the receiver makes of a sent packet. */
  function Received(p: Sent): Read {
    Got(NewPacket(p.command, p.arg0, p.arg1, p.data), p.data)
  }

  /** Where everything is in a sent packet: six little-endian numbers, then the payload. */
  lemma PacketIsAsDocumented(p: Sent)
    ensures var s := WireOf(p);
            && |s| == 24 + |p.data| && s[0..4] == PutU32(Code(p.command))
            && GetU32(s[4..8]) == p.arg0 && GetU32(s[8..12]) == p.arg1
            && GetU32(s[12..16]) == |p.data| % 0x1_0000_0000 && GetU32(s[16..20]) == Sum(p.data) % 0x1_0000_0000
            && GetU32(s[20..24]) == Xor(Code(p.command), 0xFFFF_FFFF) && s[24..] == p.data
  {
    HeaderFields(NewPacket(p.command, p.arg0, p.arg1, p.data), p.data);
    ChecksumIsSum(p.data);
    ComplementIsXor(Code(p.command));
    hide PutU32, GetU32, Code, Checksum, Sum, Xor, Header;
  }

  /** What happens to a packet whose header is right, whatever length and checksum it announces. */
  lemma PayloadVerdict(p: Packet, body: bytes)
    requires p.magic == Complement(Code(p.command))
    ensures var r, n := ReadPacket(Header(p) + body), p.dataLength;
            if n > 4_194_304 then r == Faulty(PayloadTooLong(n))
            else if |body| < n then r == Starved
            else if n == 0 || p.dataCrc32 == 0 || p.dataCrc32 == Sum(body[..n]) then r == Got(p, body[..n])
            else r == Faulty(ChecksumMismatch)
  {
    HeaderThenPayload(p, body);
    if |body| >= p.dataLength {
      ChecksumIsSum(body[..p.dataLength]);
      if p.dataLength <= MAX_PAYLOAD {
        SmallSum(body[..p.dataLength]);
      }
    }
    hide Header, Checksum, Sum, ReadPacket, Code;
  }

  lemma SmallSum(data: bytes)
    requires |data| <= MAX_PAYLOAD
    ensures Checksum(data) == Sum(data)
  {
    ChecksumIsSum(data);
  }

  /** Why a header is refused. */
  lemma HeaderVerdict(s: bytes)
    requires |s| >= 24 && FromBytes(s).Err?
    ensures if exists c :: Code(c) == GetU32(s[0..4])
            then FromBytes(s).error == MagicMismatch && GetU32(s[20..24]) != Complement(GetU32(s[0..4]))
            else FromBytes(s).error == UnknownCommand(GetU32(s[0..4]))
  {
    hide GetU32, Code;
    if FromU32(GetU32(s[0..4])).Some? {
      var c := FromU32(GetU32(s[0..4])).value;
      assert Code(c) == GetU32(s[0..4]);
    }
  }

  /** A sent packet is read back, and nothing behind it is touched, exactly when it is no longer than 4 MiB. */
  lemma PacketRoundTrip(p: Sent, rest: bytes)
    ensures ReadPacket(WireOf(p) + rest) == Received(p) <==> |p.data| <= 4_194_304
  {
    hide Header, FromBytes, Checksum, ReadPacket;
    var packet := NewPacket(p.command, p.arg0, p.arg1, p.data);
    HeaderThenPayload(packet, p.data + rest);
    Assoc(Header(packet), p.data, rest);
    assert (p.data + rest)[..|p.data|] == p.data;
  }

  lemma HeaderThenPayload(p: Packet, body: bytes)
    requires p.magic == Complement(Code(p.command))
    ensures ReadPacket(Header(p) + body) == ReadPayload(p, body)
  {
    hide Header, FromBytes, ReadPayload, Code;
    HeaderRoundTrip(p, []);
    assert Header(p) + [] == Header(p);
    assert (Header(p) + body)[..HEADER_BYTES] == Header(p) && (Header(p) + body)[HEADER_BYTES..] == body;
  }

  predicate Carried(list: seq<Sent>) {
    forall i :: 0 <= i < |list| ==> |list[i].data| <= MAX_PAYLOAD
  }

  /** Bytes a stream gives to the packet at its start. */
  function Used(r: Read): nat {
    if r.Got? then HEADER_BYTES + |r.data| else 0
  }

  /** The packets of a stream, up to the first fault or shortage. */
  function ReadPackets(s: bytes): seq<Read>
    decreases |s|
  {
    var r := ReadPacket(s);
    if r.Got? then [r] + ReadPackets(s[Used(r)..]) else []
  }

  /** What the packets leave on the stream. */
  function Leftover(s: bytes): bytes
    decreases |s|
  {
    var r := ReadPacket(s);
    if r.Got? then Leftover(s[Used(r)..]) else s
  }

  lemma UsedSome(s: bytes)
    ensures var r := ReadPacket(s); r.Got? ==> 0 < Used(r) <= |s|
  {
  }

  function ReceivedAll(list: seq<Sent>): seq<Read> {
    if list == [] then [] else [Received(list[0])] + ReceivedAll(list[1..])
  }

  /** A stream of sent packets reads as those packets, in order, and then holds nothing more. */
  lemma {:induction false} PacketsRoundTrip(list: seq<Sent>)
    requires Carried(list)
    ensures ReadPackets(WireOfAll(list)) == ReceivedAll(list) && Leftover(WireOfAll(list)) == []
    decreases |list|
  {
    hide ReadPacket, WireOf;
    if list == [] {
      EmptyStream();
    } else {
      var p, rest := list[0], WireOfAll(list[1..]);
      assert |p.data| <= MAX_PAYLOAD;
      PacketRoundTrip(p, rest);
      WireLength(p);
      assert (WireOf(p) + rest)[|WireOf(p)|..] == rest;
      PacketsRoundTrip(list[1..]);
    }
  }

  lemma EmptyStream()
    ensures ReadPacket([]) == Starved
  {
  }

  lemma WireLength(p: Sent)
    ensures |WireOf(p)| == HEADER_BYTES + |p.data|
  {
  }
}
