/** Packets over the USB endpoints: `write_packet` and `read_packet` of crates/transport/src/adb/client.rs. */
module PacketIo {
  import opened Wrappers
  import opened Bytes
  import Core = PacketCore
  import opened PacketLoops
  import opened UsbCore
  import opened UsbObject

  /** What a read yields: a packet, a packet to be refused, or the fate of the read itself. */
  datatype Reading = Arrived(read: Core.Read) | Broken | Blocked

  /** What a stream has to offer, if it ends in a fault or just ends. */
  function ReadingOf(stream: bytes, fault: bool): Reading {
    var r := Core.ReadPacket(stream);
    if !r.Starved? then Arrived(r) else if fault then Broken else Blocked
  }

  method WritePacket(io: UsbIo, command: Core.Command, arg0: u32, arg1: u32, data: bytes) returns (ok: bool)
    modifies io
    ensures ok ==> Flatten(io.sent) == Flatten(old(io.sent)) + Core.WireOf(Core.Sent(command, arg0, arg1, data))
    ensures io.pending == old(io.pending) && io.transfers == old(io.transfers) && io.requests == old(io.requests)
  {
    hide Core.Header, Core.NewPacket, Outgoing, Chunks, Flatten;
    var packet := Core.NewPacket(command, arg0, arg1, data);
    ghost var start := Flatten(io.sent);
    var header := ToBytes(packet);
    ok := WriteBytes(io, header[..]);
    if !ok {
      return;
    }
    if |data| != 0 {
      ok := WriteBytes(io, data);
      Assoc(start, Core.Header(packet), data);
    } else {
      assert Core.Header(packet) + data == Core.Header(packet);
    }
  }

  method WriteBytes(io: UsbIo, data: bytes) returns (ok: bool)
    modifies io
    ensures ok ==> Flatten(io.sent) == Flatten(old(io.sent)) + data
    ensures io.pending == old(io.pending) && io.transfers == old(io.transfers) && io.requests == old(io.requests)
  {
    hide Outgoing, Chunks, Flatten;
    ok := io.WriteAll(data);
    OutgoingIsTheData(data, io.mpsOut);
    FlattenAppend(old(io.sent), Outgoing(data, io.mpsOut));
    FlattenAppend(old(io.sent), Chunks(data, TRANSFER_BYTES));
  }

  method ReadPacket(io: UsbIo) returns (r: Reading)
    requires io.mpsIn > 0 && io.Whole(io.requests)
    modifies io
    ensures io.Whole(io.requests)
    ensures r == ReadingOf(old(io.Stream()), old(EndsInFault(io.transfers)))
    ensures r.Arrived? && r.read.Got? ==> io.Stream() == old(io.Stream())[Core.Used(r.read)..]
                                          && EndsInFault(io.transfers) == EndsInFault(old(io.transfers))
  {
    hide Core.FromBytes, Core.Checksum, io.Stream;
    var hdr := new byte[24];
    var o := io.ReadExact(hdr);
    if o != Done {
      return if o == Failed then Broken else Blocked;
    }
    var parsed := Core.FromBytes(hdr[..]);
    if parsed.Err? {
      return Arrived(Core.Faulty(parsed.error));
    }
    var p := parsed.value;
    if p.dataLength > Core.MAX_PAYLOAD {
      return Arrived(Core.Faulty(Core.PayloadTooLong(p.dataLength)));
    }
    var data := new byte[p.dataLength];
    if p.dataLength > 0 {
      o := io.ReadExact(data);
      if o != Done {
        return if o == Failed then Broken else Blocked;
      }
      if p.dataCrc32 != 0 && p.dataCrc32 != Core.Checksum(data[..]) {
        return Arrived(Core.Faulty(Core.ChecksumMismatch));
      }
    }
    return Arrived(Core.Got(p, data[..]));
  }

  /**
   Reads packets until one is refused or the endpoint fails or waits. However the bytes of
   sent packets were cut into transfers, exactly those packets come out.
   */
  method ReadAll(io: UsbIo, ghost list: seq<Core.Sent>) returns (got: seq<Core.Read>, end: Reading)
    requires io.mpsIn > 0 && io.Whole(io.requests)
    modifies io
    ensures io.Whole(io.requests)
    ensures got == Core.ReadPackets(old(io.Stream()))
    ensures Core.Carried(list) && old(io.Stream()) == Core.WireOfAll(list)
            ==> got == Core.ReceivedAll(list) && end == if old(EndsInFault(io.transfers)) then Broken else Blocked
    ensures !(end.Arrived? && end.read.Got?)
  {
    hide Core.ReadPacket, Core.WireOfAll, EndsInFault, io.Stream, io.Whole, Core.Carried, Core.ReceivedAll;
    got := [];
    while true
      invariant io.Whole(io.requests)
      invariant EndsInFault(io.transfers) == old(EndsInFault(io.transfers))
      invariant got + Core.ReadPackets(io.Stream()) == Core.ReadPackets(old(io.Stream()))
      invariant Core.Leftover(io.Stream()) == Core.Leftover(old(io.Stream()))
      decreases |io.Stream()|
    {
      ghost var stream := io.Stream();
      Core.UsedSome(stream);
      end := ReadPacket(io);
      if !(end.Arrived? && end.read.Got?) {
        if Core.Carried(list) && old(io.Stream()) == Core.WireOfAll(list) {
          Core.PacketsRoundTrip(list);
          Core.EmptyStream();
        }
        assert got + [] == got;
        return;
      }
      assert got + ([end.read] + Core.ReadPackets(io.Stream())) == got + [end.read] + Core.ReadPackets(io.Stream());
      got := got + [end.read];
    }
  }
}
