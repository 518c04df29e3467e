/**
 A run in which the reader task's OKAY comes between the header and the payload of a WRTE, and
 the device receives what was never given to `write`.
 */
module AdbMisreadRun {
  import opened Wrappers
  import opened Bytes
  import opened PacketCore
  import opened AdbHost
  import opened AdbLink
  import opened AdbNet
  import opened AdbMisread
  import opened AdbWire

  const ID: u32 := 1
  const REMOTE: u32 := 9
  const MAX := 4096
  const ENV := Env(ID, MAX)

  /** The first stream's host and device, and the rest of the connection. */
  datatype View = View(host: Host, dev: Dev, toHost: seq<Sent>, reader: Option<u32>, halves: map<u32, Sent>,
                       stream: bytes)

  function ViewOf(w: Wire): View {
    View(HostOf(w.net, ID), DevOf(w.net, ID), w.net.toHost, w.net.reader, w.halves, w.stream)
  }

  lemma Continues(r: seq<WireEvent>, w: Wire, e: WireEvent) returns (v: Wire)
    requires WireRun(r, MAX) == Some(w) && WireEnabled(w, e, MAX)
    ensures WireRun(r + [e], MAX) == Some(v) && v == WireNext(w, e, MAX)
  {
    hide WireNext, WireEnabled;
    assert (r + [e])[..|r|] == r;
    v := WireNext(w, e, MAX);
  }

  lemma Move(r: seq<WireEvent>, w: Wire, m: Event) returns (v: Wire)
    requires WireRun(r, MAX) == Some(w) && Enabled(HostOf(w.net, ID), m, ENV) && Output(HostOf(w.net, ID), m, ENV) == []
    requires !m.OpenBegin? && !m.Take? && m != Finish && !IsSend(m)
    ensures WireRun(r + [Moves(ID, m)], MAX) == Some(v)
    ensures ViewOf(v) == ViewOf(w).(host := Next(HostOf(w.net, ID), m, ENV))
  {
    hide WireRun, Next, Enabled, Output;
    v := Continues(r, w, Moves(ID, m));
    assert w.stream + [] == w.stream && WireOfAll([]) == [];
  }

  lemma WriteHeader(r: seq<WireEvent>, w: Wire) returns (v: Wire)
    requires WireRun(r, MAX) == Some(w) && Sends(HostOf(w.net, ID)) && ID !in w.halves
    requires ToSend(HostOf(w.net, ID), ENV).data != []
    ensures WireRun(r + [WritesHeader(ID)], MAX) == Some(v)
    ensures var p := ToSend(HostOf(w.net, ID), ENV);
            ViewOf(v) == ViewOf(w).(halves := w.halves[ID := p], stream := w.stream + HeaderOf(p))
  {
    hide WireRun, Sends, ToSend, HeaderOf;
    v := Continues(r, w, WritesHeader(ID));
  }

  lemma WritePayload(r: seq<WireEvent>, w: Wire) returns (v: Wire)
    requires WireRun(r, MAX) == Some(w) && Sends(HostOf(w.net, ID)) && ID in w.halves
    ensures WireRun(r + [WritesPayload(ID)], MAX) == Some(v)
    ensures Enabled(HostOf(w.net, ID), SendStep(HostOf(w.net, ID)), ENV)
    ensures var h := HostOf(w.net, ID);
            ViewOf(v) == ViewOf(w).(host := Next(h, SendStep(h), ENV), halves := w.halves - {ID},
                                    stream := w.stream + w.halves[ID].data)
  {
    hide WireRun, Next;
    v := Continues(r, w, WritesPayload(ID));
  }

  lemma TakeOne(r: seq<WireEvent>, w: Wire, p: Sent) returns (v: Wire)
    requires WireRun(r, MAX) == Some(w) && w.net.toHost == [p] && p.arg1 == ID && w.net.reader == None
    requires HostOf(w.net, ID).inbox.half == None && HalfOf(p).Some?
    ensures WireRun(r + [Takes], MAX) == Some(v)
    ensures ViewOf(v) == ViewOf(w).(host := Next(HostOf(w.net, ID), Take(p), ENV), toHost := [], reader := Some(ID),
                                    stream := w.stream + WireOfAll(Output(HostOf(w.net, ID), Take(p), ENV)))
  {
    hide WireRun, Next, Output, HalfOf, WireOfAll;
    assert w.net.toHost[0] == p && w.net.toHost[1..] == [];
    v := Continues(r, w, Takes);
  }

  lemma FinishIt(r: seq<WireEvent>, w: Wire) returns (v: Wire)
    requires WireRun(r, MAX) == Some(w) && w.net.reader == Some(ID) && HostOf(w.net, ID).inbox.half.Some?
    ensures WireRun(r + [Finishes], MAX) == Some(v)
    ensures ViewOf(v) == ViewOf(w).(host := Next(HostOf(w.net, ID), Finish, ENV), reader := None)
  {
    hide WireRun, Next;
    v := Continues(r, w, Finishes);
    assert w.stream + [] == w.stream && WireOfAll([]) == [];
  }

  lemma ReadOne(r: seq<WireEvent>, w: Wire, got: Read) returns (v: Wire)
    requires WireRun(r, MAX) == Some(w) && ReadPacket(w.stream) == got && got.Got? && got.packet.arg0 == ID
    requires Used(got) <= |w.stream|
    ensures WireRun(r + [Reads(REMOTE, true)], MAX) == Some(v)
    ensures var d, p := DevOf(w.net, ID), PacketOf(got);
            ViewOf(v) == ViewOf(w).(dev := DevNext(d, p, REMOTE),
                                    toHost := w.net.toHost + DevReplies(d, p, REMOTE, true, ENV),
                                    stream := w.stream[Used(got)..])
  {
    hide WireRun, ReadPacket, DevNext, DevReplies;
    v := Continues(r, w, Reads(REMOTE, true));
  }

  lemma DeviceSends(r: seq<WireEvent>, w: Wire, data: bytes) returns (v: Wire)
    requires WireRun(r, MAX) == Some(w) && DevOf(w.net, ID).phase == Live
    ensures WireRun(r + [Device(ID, DevSends(data))], MAX) == Some(v)
    ensures ViewOf(v) == ViewOf(w).(toHost := w.net.toHost + [Sent(Wrte, DevOf(w.net, ID).remote, ID, data)])
  {
    hide WireRun;
    v := Continues(r, w, Device(ID, DevSends(data)));
  }

  // ---- The run

  const OPEN_PACKET := Sent(Open, ID, 0, [7, 0])
  const WRTE_PACKET := Sent(Wrte, ID, REMOTE, [0])
  const OKAY_PACKET := Sent(Okay, ID, REMOTE, [])

  predicate HostIs(h: Host, pc: Pc, remote: u32, waiter: Waiter, half: Option<Half>, given: seq<bytes>) {
    && h.own.pc == pc && h.own.given == given && h.slot == Slot(true, remote, true, [])
    && h.waiter == waiter && h.inbox.half == half
  }

  predicate Rest(v: View, dev: Dev, toHost: seq<Sent>, reader: Option<u32>, stream: bytes) {
    v.dev == dev && v.toHost == toHost && v.reader == reader && v.stream == stream
  }

  lemma Begun() returns (r: seq<WireEvent>, w: Wire)
    ensures WireRun(r, MAX) == Some(w) && ViewOf(w).halves == map[]
    ensures HostIs(ViewOf(w).host, OpenRegister([7]), 0, Waiter(false, None), None, [])
    ensures Rest(ViewOf(w), START.dev, [], None, [])
  {
    RunOfNothing();
    hide WireRun, Next;
    w := Continues([], QUIET, Spawns([7]));
    r := [] + [Spawns([7])];
    assert HostOf(w.net, ID) == Next(INITIAL, OpenBegin([7]), ENV);
    BegunHost();
    assert WireOfAll([]) == [];
  }

  lemma BegunHost()
    ensures HostIs(Next(INITIAL, OpenBegin([7]), ENV), OpenRegister([7]), 0, Waiter(false, None), None, [])
  {
  }

  lemma RunOfNothing()
    ensures WireRun([], MAX) == Some(QUIET)
  {
  }

  lemma OpenSent() returns (r: seq<WireEvent>, w: Wire)
    ensures WireRun(r, MAX) == Some(w) && ViewOf(w).halves == map[]
    ensures HostIs(ViewOf(w).host, OpenWait, 0, Waiter(true, None), None, [])
    ensures Rest(ViewOf(w), START.dev, [], None, WireOf(OPEN_PACKET))
  {
    hide WireRun, HeaderOf;
    r, w := Begun();
    w := Move(r, w, DoOpenRegister);
    r := r + [Moves(ID, DoOpenRegister)];
    assert ToSend(HostOf(w.net, ID), ENV) == OPEN_PACKET;
    w := WriteHeader(r, w);
    r := r + [WritesHeader(ID)];
    assert w.stream == [] + HeaderOf(OPEN_PACKET) == HeaderOf(OPEN_PACKET);
    w := WritePayload(r, w);
    r := r + [WritesPayload(ID)];
    assert w.halves == map[];
    WireIs(OPEN_PACKET);
  }

  lemma WireIs(p: Sent)
    ensures WireOf(p) == HeaderOf(p) + p.data
  {
  }

  lemma OpenRead() returns (r: seq<WireEvent>, w: Wire)
    ensures WireRun(r, MAX) == Some(w) && ViewOf(w).halves == map[]
    ensures HostIs(ViewOf(w).host, OpenWait, 0, Waiter(true, None), None, [])
    ensures Rest(ViewOf(w), Dev(Live, REMOTE, [], 0), [Sent(Okay, REMOTE, ID, [])], None, [])
  {
    hide WireRun, ReadPacket, Header, Checksum;
    r, w := OpenSent();
    PacketRoundTrip(OPEN_PACKET, []);
    WireLength(OPEN_PACKET);
    assert WireOf(OPEN_PACKET) + [] == WireOf(OPEN_PACKET);
    w := ReadOne(r, w, Received(OPEN_PACKET));
    r := r + [Reads(REMOTE, true)];
    assert w.stream == [];
  }

  lemma OpenTaken() returns (r: seq<WireEvent>, w: Wire)
    ensures WireRun(r, MAX) == Some(w) && ViewOf(w).halves == map[]
    ensures HostIs(ViewOf(w).host, OpenWait, REMOTE, Waiter(false, Some(AckOkay(REMOTE))), None, [])
    ensures Rest(ViewOf(w), Dev(Live, REMOTE, [], 0), [], None, [])
  {
    hide WireRun;
    r, w := OpenRead();
    w := TakeOne(r, w, Sent(Okay, REMOTE, ID, []));
    r := r + [Takes];
    assert w.stream == [] + WireOfAll([]) == [];
    w := FinishIt(r, w);
    r := r + [Finishes];
  }

  lemma WriteBegun() returns (r: seq<WireEvent>, w: Wire)
    ensures WireRun(r, MAX) == Some(w) && ViewOf(w).halves == map[]
    ensures HostIs(ViewOf(w).host, WriteRegister([[0]]), REMOTE, Waiter(false, None), None, [[0]])
    ensures Rest(ViewOf(w), Dev(Live, REMOTE, [], 0), [], None, [])
  {
    hide WireRun;
    r, w := OpenTaken();
    w := Move(r, w, OpenFinish);
    r := r + [Moves(ID, OpenFinish)];
    assert WriteChunks([0], MAX) == [[0]];
    w := Move(r, w, WriteBegin([0]));
    r := r + [Moves(ID, WriteBegin([0]))];
  }

  lemma HeaderOut() returns (r: seq<WireEvent>, w: Wire)
    ensures WireRun(r, MAX) == Some(w) && ViewOf(w).halves == map[ID := WRTE_PACKET]
    ensures HostIs(ViewOf(w).host, WriteSend([[0]]), REMOTE, Waiter(true, None), None, [[0]])
    ensures Rest(ViewOf(w), Dev(Live, REMOTE, [], 0), [], None, HeaderOf(WRTE_PACKET))
  {
    hide WireRun, HeaderOf;
    r, w := WriteBegun();
    w := Move(r, w, DoWriteRegister);
    r := r + [Moves(ID, DoWriteRegister)];
    assert ToSend(HostOf(w.net, ID), ENV) == WRTE_PACKET;
    w := WriteHeader(r, w);
    r := r + [WritesHeader(ID)];
    assert w.stream == [] + HeaderOf(WRTE_PACKET) == HeaderOf(WRTE_PACKET);
  }

  /** The device sends; the reader answers before the payload is written. */
  lemma OkayOut() returns (r: seq<WireEvent>, w: Wire)
    ensures WireRun(r, MAX) == Some(w) && ViewOf(w).halves == map[ID := WRTE_PACKET]
    ensures ViewOf(w).host.own.pc == WriteSend([[0]]) && ViewOf(w).host.own.given == [[0]]
    ensures ViewOf(w).dev == Dev(Live, REMOTE, [], 0)
    ensures ViewOf(w).stream == HeaderOf(WRTE_PACKET) + HeaderOf(OKAY_PACKET)
  {
    hide WireRun, HeaderOf, Next, Output, WireOfAll;
    r, w := HeaderOut();
    w := DeviceSends(r, w, [5]);
    r := r + [Device(ID, DevSends([5]))];
    OkayWire();
    TakesWrte(HostOf(w.net, ID));
    w := TakeOne(r, w, Sent(Wrte, REMOTE, ID, [5]));
    r := r + [Takes];
  }

  lemma TakesWrte(h: Host)
    requires h.inbox.half == None
    ensures var e := Take(Sent(Wrte, REMOTE, ID, [5]));
            Enabled(h, e, ENV) && Output(h, e, ENV) == [OKAY_PACKET] && Next(h, e, ENV).own == h.own
  {
  }

  lemma OkayWire()
    ensures WireOfAll([OKAY_PACKET]) == HeaderOf(OKAY_PACKET)
  {
    WireOfOne(OKAY_PACKET);
    assert HeaderOf(OKAY_PACKET) + [] == HeaderOf(OKAY_PACKET);
  }

  lemma OkaySlipsIn() returns (r: seq<WireEvent>, w: Wire)
    ensures WireRun(r, MAX) == Some(w)
    ensures ViewOf(w).host.own.given == [[0]] && ViewOf(w).dev == Dev(Live, REMOTE, [], 0)
    ensures ViewOf(w).stream == HeaderOf(WRTE_PACKET) + HeaderOf(OKAY_PACKET) + [0]
  {
    hide WireRun, HeaderOf;
    r, w := OkayOut();
    w := WritePayload(r, w);
    r := r + [WritesPayload(ID)];
  }

  /** One zero byte has the checksum 0, which nobody compares; the OKAY header begins with 'O'. */
  lemma Misread()
    ensures var s := HeaderOf(WRTE_PACKET) + HeaderOf(OKAY_PACKET) + [0];
            ReadPacket(s) == Got(NewPacket(Wrte, ID, REMOTE, [0]), [0x4F])
  {
    var packet := NewPacket(Wrte, ID, REMOTE, [0]);
    var okay := HeaderOf(OKAY_PACKET);
    OkayBegins();
    ZeroChecksum();
    hide Header, ReadPacket, FromBytes;
    HeaderThenPayload(packet, okay + [0]);
    Assoc(Header(packet), okay, [0]);
    assert (okay + [0])[..1] == [okay[0]];
  }

  lemma ZeroChecksum()
    ensures Checksum([0]) == 0
  {
    assert [0 as byte][..0] == [];
  }

  lemma OkayBegins()
    ensures HeaderOf(OKAY_PACKET)[0] == 0x4F
  {
    HeaderBegins(NewPacket(Okay, ID, REMOTE, []));
    hide Header, Checksum;
  }

  /** What the device has then received is no first part of what was given to `write`. */
  lemma DeliveryFails() returns (r: seq<WireEvent>, w: Wire)
    ensures WireRun(r, MAX) == Some(w)
    ensures HostOf(w.net, ID).own.given == [[0]] && DevOf(w.net, ID).received == [[0x4F]]
    ensures !(DevOf(w.net, ID).received <= HostOf(w.net, ID).own.given)
  {
    hide WireRun, ReadPacket, Header, Checksum;
    r, w := OkaySlipsIn();
    Misread();
    w := ReadOne(r, w, Got(NewPacket(Wrte, ID, REMOTE, [0]), [0x4F]));
    r := r + [Reads(REMOTE, true)];
    assert ViewOf(w).dev.received == [] + [[0x4F]];
    assert DevOf(w.net, ID).received[0][0] != HostOf(w.net, ID).own.given[0][0];
  }
}
