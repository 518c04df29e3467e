/**
 The connection as bytes: `write_packet` of crates/transport/src/adb/client.rs writes a header
 and a payload in two calls, and other tasks may write in between. The device reads packets off
 the bytes.
 */
module AdbWire {
  import opened Wrappers
  import opened Bytes
  import opened PacketCore
  import opened AdbHost
  import opened AdbLink
  import opened AdbNet

  /**
   The streams and the packets from the device (`net`, whose queue to the device stays empty),
   the packets whose header is written and whose payload is not, the bytes the device has not
   read; then what has happened: all bytes written, the packets whose header was written, in
   that order, and the packets the device has read.
   */
  datatype Wire = Wire(net: Net, halves: map<u32, Sent>, stream: bytes, written: bytes, sent: seq<Sent>, got: seq<Read>)

  const QUIET := Wire(EMPTY, map[], [], [], [], [])

  datatype WireEvent =
    | Spawns(dest: bytes)
    | Moves(id: u32, e: Event)
    | WritesHeader(id: u32)
    | WritesPayload(id: u32)
    | Takes
    | Finishes
    | Reads(remote: u32, reply: bool)
    | Device(id: u32, d: LinkEvent)

  // ---- The packets that have a payload

  /** The owning task is about to send. */
  predicate Sends(h: Host) {
    h.own.pc.OpenSend? || (h.own.pc.WriteSend? && h.own.pc.todo != [])
  }

  function SendStep(h: Host): Event {
    if h.own.pc.OpenSend? then DoOpenSend else DoWriteSend
  }

  function ToSend(h: Host, env: Env): (p: Sent)
    requires Sends(h)
    ensures Output(h, SendStep(h), env) == [p]
  {
    Output(h, SendStep(h), env)[0]
  }

  predicate IsSend(e: Event) {
    e.DoOpenSend? || e.DoWriteSend?
  }

  function HeaderOf(p: Sent): (s: bytes)
    ensures |s| == HEADER_BYTES
  {
    Header(NewPacket(p.command, p.arg0, p.arg1, p.data))
  }

  // ---- Steps

  predicate WireEnabled(w: Wire, e: WireEvent, max: nat) {
    match e
    case Spawns(dest) => NetEnabled(w.net, Spawn(dest), max)
    case Moves(id, m) =>
      NetEnabled(w.net, TaskMoves(id, m), max) && (IsSend(m) ==> ToSend(HostOf(w.net, id), Env(id, max)).data == [])
    case WritesHeader(id) =>
      Sends(HostOf(w.net, id)) && ToSend(HostOf(w.net, id), Env(id, max)).data != [] && id !in w.halves
    case WritesPayload(id) => id in w.halves && Sends(HostOf(w.net, id))
    case Takes => NetEnabled(w.net, ReaderTakes, max)
    case Finishes => NetEnabled(w.net, ReaderFinishes, max)
    case Reads(_, _) => ReadPacket(w.stream).Got?
    case Device(id, d) => NetEnabled(w.net, DeviceMoves(id, d), max)
  }

  /** One `write_all`. */
  function Writes(w: Wire, data: bytes): Wire {
    w.(stream := w.stream + data, written := w.written + data)
  }

  /** A host step whose packet, if any, has no payload: one write. */
  function Acts(w: Wire, id: u32, m: Event, max: nat): Wire
    requires Enabled(HostOf(w.net, id), m, Env(id, max))
  {
    var out := Output(HostOf(w.net, id), m, Env(id, max));
    Writes(w, WireOfAll(out)).(net := HostActs(w.net, id, m, max).(toDev := []), sent := w.sent + out)
  }

  function PacketOf(r: Read): Sent
    requires r.Got?
  {
    Sent(r.packet.command, r.packet.arg0, r.packet.arg1, r.data)
  }

  function WireNext(w: Wire, e: WireEvent, max: nat): Wire
    requires WireEnabled(w, e, max)
  {
    match e
    case Spawns(dest) =>
      var v := Acts(w, LocalId(w.net.handedOut), OpenBegin(dest), max);
      v.(net := v.net.(handedOut := w.net.handedOut + 1))
    case Moves(id, m) => Acts(w, id, m, max)
    case WritesHeader(id) => HeaderWritten(w, id, ToSend(HostOf(w.net, id), Env(id, max)))
    case WritesPayload(id) => PayloadWritten(w, id, max)
    case Takes => Taken(w, w.net.toHost[0], max)
    case Finishes =>
      var v := Acts(w, w.net.reader.value, Finish, max);
      v.(net := v.net.(reader := None))
    case Reads(remote, reply) => DeviceRead(w, ReadPacket(w.stream), remote, reply, max)
    case Device(id, d) => w.(net := DeviceMoved(w.net, id, d))
  }

  function HeaderWritten(w: Wire, id: u32, p: Sent): Wire {
    Writes(w, HeaderOf(p)).(halves := w.halves[id := p], sent := w.sent + [p])
  }

  function PayloadWritten(w: Wire, id: u32, max: nat): Wire
    requires id in w.halves && Sends(HostOf(w.net, id))
  {
    var h := HostOf(w.net, id);
    Writes(w, w.halves[id].data).(net := HostActs(w.net, id, SendStep(h), max).(toDev := []), halves := w.halves - {id})
  }

  function Taken(w: Wire, p: Sent, max: nat): Wire
    requires w.net.toHost != [] && Enabled(HostOf(w.net, p.arg1), Take(p), Env(p.arg1, max))
  {
    var v := Acts(w, p.arg1, Take(p), max);
    v.(net := v.net.(toHost := w.net.toHost[1..], reader := if HalfOf(p).Some? then Some(p.arg1) else None))
  }

  function DeviceRead(w: Wire, r: Read, remote: u32, reply: bool, max: nat): Wire
    requires r.Got? && Used(r) <= |w.stream|
  {
    var p := PacketOf(r);
    var d := DevOf(w.net, p.arg0);
    w.(net := DevActs(w.net, p.arg0, DevNext(d, p, remote), DevReplies(d, p, remote, reply, Env(p.arg0, max))),
       stream := w.stream[Used(r)..], got := w.got + [r])
  }

  function WireRun(events: seq<WireEvent>, max: nat): Option<Wire> {
    if events == [] then Some(QUIET)
    else
      var w := WireRun(events[..|events| - 1], max);
      var e := events[|events| - 1];
      if w.Some? && WireEnabled(w.value, e, max) then Some(WireNext(w.value, e, max)) else None
  }

  // ---- Runs that keep each packet together

  /** What the step writes. */
  function WrittenBy(w: Wire, e: WireEvent, max: nat): bytes
    requires WireEnabled(w, e, max)
  {
    match e
    case Moves(id, m) => WireOfAll(Output(HostOf(w.net, id), m, Env(id, max)))
    case WritesHeader(id) => HeaderOf(ToSend(HostOf(w.net, id), Env(id, max)))
    case WritesPayload(id) => w.halves[id].data
    case Takes =>
      var p := w.net.toHost[0];
      WireOfAll(Output(HostOf(w.net, p.arg1), Take(p), Env(p.arg1, max)))
    case _ => []
  }

  lemma WrittenIs(w: Wire, e: WireEvent, max: nat)
    requires WireEnabled(w, e, max)
    ensures WireNext(w, e, max).written == w.written + WrittenBy(w, e, max)
  {
    hide Next, DevNext, DevReplies, HeaderOf, HostActs, DevActs, DeviceMoved;
  }

  /** The step does not write between a header and its payload; an OPEN fits a packet. */
  predicate KeepsTogether(w: Wire, e: WireEvent, max: nat)
    requires WireEnabled(w, e, max)
  {
    && (w.halves == map[] || e.WritesPayload? || WrittenBy(w, e, max) == [])
    && (e.Spawns? ==> |OpenPayload(e.dest)| <= MAX_PAYLOAD)
  }

  predicate Together(events: seq<WireEvent>, max: nat)
    requires WireRun(events, max).Some?
  {
    events == []
    || (Together(events[..|events| - 1], max)
        && KeepsTogether(WireRun(events[..|events| - 1], max).value, events[|events| - 1], max))
  }

  // ---- Such a run is a run of whole packets

  /** The packets written to the end. */
  function Complete(w: Wire): seq<Sent> {
    if w.halves == map[] || w.sent == [] then w.sent else w.sent[..|w.sent| - 1]
  }

  /** The same connection with whole packets under way. */
  function Whole(w: Wire): Net {
    w.net.(toDev := if |w.got| <= |Complete(w)| then Complete(w)[|w.got|..] else [])
  }

  /** The unfinished packet, if any: the last one begun. */
  function Unfinished(w: Wire): bytes {
    if w.halves == map[] || w.sent == [] then [] else HeaderOf(w.sent[|w.sent| - 1])
  }

  /** The device has read the first of the packets sent; the bytes are the others. */
  predicate InStep(w: Wire) {
    && |w.got| <= |Complete(w)| && w.got == ReceivedAll(Complete(w)[..|w.got|])
    && w.stream == WireOfAll(Complete(w)[|w.got|..]) + Unfinished(w)
    && Carried(w.sent)
  }

  /** At most one packet is unfinished, the last one begun, and its task is about to finish it. */
  predicate OneHalf(w: Wire, max: nat) {
    && (w.halves != map[] ==> w.sent != [])
    && (forall id :: id in w.halves ==>
          && w.halves[id] == w.sent[|w.sent| - 1] && w.halves[id].data != []
          && Sends(HostOf(w.net, id)) && ToSend(HostOf(w.net, id), Env(id, max)) == w.halves[id])
    && (forall i, j :: i in w.halves && j in w.halves ==> i == j)
  }

  /** Everything a task is about to send fits a packet. */
  predicate Sized(pc: Pc, max: nat) {
    match pc
    case OpenRegister(dest) => |OpenPayload(dest)| <= MAX_PAYLOAD
    case OpenSend(dest) => |OpenPayload(dest)| <= MAX_PAYLOAD
    case WriteRegister(todo) => AllWithin(todo, max)
    case WriteSend(todo) => AllWithin(todo, max)
    case WriteWait(todo) => AllWithin(todo, max)
    case _ => true
  }

  predicate AllWithin(chunks: seq<bytes>, max: nat) {
    forall i :: 0 <= i < |chunks| ==> |chunks[i]| <= max
  }

  predicate AllSized(w: Wire, max: nat) {
    forall id: u32 :: Sized(HostOf(w.net, id).own.pc, max)
  }

  predicate Tidy(w: Wire, max: nat) {
    InStep(w) && OneHalf(w, max) && AllSized(w, max) && w.net.toDev == []
  }

  // ---- Packet sizes

  lemma SizedStep(h: Host, e: Event, env: Env)
    requires Enabled(h, e, env) && Sized(h.own.pc, env.max) && env.max > 0
    requires e.OpenBegin? ==> |OpenPayload(e.dest)| <= MAX_PAYLOAD
    ensures Sized(OwnerNext(h, e, env).pc, env.max)
  {
    hide WriteChunks, OpenPayload;
    if e.WriteBegin? {
      WriteChunksAre(e.data, env.max);
    }
  }

  lemma SentFits(h: Host, e: Event, env: Env)
    requires Enabled(h, e, env) && Sized(h.own.pc, env.max) && env.max <= MAX_PAYLOAD
    ensures Carried(Output(h, e, env)) && |Output(h, e, env)| <= 1
  {
    hide OpenPayload;
  }

  lemma SizedAfter(w: Wire, id: u32, m: Event, max: nat, next: Wire)
    requires AllSized(w, max) && max > 0 && Enabled(HostOf(w.net, id), m, Env(id, max))
    requires m.OpenBegin? ==> |OpenPayload(m.dest)| <= MAX_PAYLOAD
    requires next.net.hosts == w.net.hosts[id := Next(HostOf(w.net, id), m, Env(id, max))]
    ensures AllSized(next, max)
  {
    hide Sized, Enabled, OwnerNext, SlotNext, WaiterNext, AppNext, InboxNext, Output;
    SizedStep(HostOf(w.net, id), m, Env(id, max));
    assert forall i: u32 :: i != id ==> HostOf(next.net, i) == HostOf(w.net, i);
  }

  // ---- The unfinished packet stays as it is

  lemma StillSends(h: Host, e: Event, env: Env)
    requires Enabled(h, e, env) && Sends(h) && !IsSend(e)
    requires h.own.pc.WriteSend? ==> h.slot.remote != 0
    ensures OwnerNext(h, e, env) == h.own
    ensures Sends(Next(h, e, env)) && ToSend(Next(h, e, env), env) == ToSend(h, env)
  {
    hide WaiterNext, AppNext, InboxNext, OpenPayload;
  }

  // ---- Each step, seen as a step of the connection with whole packets

  lemma {:induction false} WireAppend(a: seq<Sent>, b: seq<Sent>)
    ensures WireOfAll(a + b) == WireOfAll(a) + WireOfAll(b)
  {
    hide WireOf;
    if a == [] {
      assert a + b == b;
    } else {
      assert (a + b)[1..] == a[1..] + b;
      WireAppend(a[1..], b);
      Assoc(WireOf(a[0]), WireOfAll(a[1..]), WireOfAll(b));
    }
  }

  lemma WireOfOne(p: Sent)
    ensures WireOfAll([p]) == HeaderOf(p) + p.data
  {
    assert [p][1..] == [];
    assert WireOf(p) + [] == WireOf(p);
  }

  lemma NothingWritten(out: seq<Sent>)
    ensures WireOfAll(out) == [] <==> out == []
  {
    if out != [] {
      WireLength(out[0]);
    }
  }

  /** More packets, written to the end. */
  lemma MoreComplete(w: Wire, v: Wire, out: seq<Sent>)
    requires InStep(w) && Carried(out) && (out == [] || w.halves == map[])
    requires v.halves == w.halves && v.got == w.got && v.sent == w.sent + out && v.stream == w.stream + WireOfAll(out)
    ensures InStep(v) && Complete(v) == Complete(w) + out && Complete(v)[|v.got|..] == Complete(w)[|w.got|..] + out
  {
    hide ReceivedAll, WireOfAll, HeaderOf, Carried;
    var c, n := Complete(w), |w.got|;
    NothingWritten(out);
    BothCarried(w.sent, out);
    if out == [] {
      assert v.sent == w.sent && v.stream == w.stream && c + out == c;
      assert c[n..] + out == c[n..];
    } else {
      assert Complete(v) == c + out && Unfinished(w) == [] == Unfinished(v);
      hide Complete, Unfinished;
      MoreBehind(c, n, out);
    }
  }

  lemma BothCarried(a: seq<Sent>, b: seq<Sent>)
    requires Carried(a) && Carried(b)
    ensures Carried(a + b)
  {
  }

  lemma MoreBehind(c: seq<Sent>, n: nat, out: seq<Sent>)
    requires n <= |c|
    ensures (c + out)[..n] == c[..n] && (c + out)[n..] == c[n..] + out
    ensures WireOfAll(c[n..]) + [] + WireOfAll(out) == WireOfAll((c + out)[n..]) + []
  {
    hide WireOfAll;
    assert (c + out)[n..] == c[n..] + out;
    WireAppend(c[n..], out);
  }

  /** The fields that do not matter to tidiness. */
  lemma TidyFrame(w: Wire, v: Wire, max: nat)
    requires Tidy(w, max) && v == w.(net := v.net) && v.net.hosts == w.net.hosts && v.net.toDev == []
    ensures Tidy(v, max)
  {
    hide InStep, Sized, Sends, ToSend;
    assert forall id: u32 :: HostOf(v.net, id) == HostOf(w.net, id);
    InStepFrame(w, v);
  }

  lemma InStepFrame(w: Wire, v: Wire)
    requires InStep(w) && v == w.(net := v.net)
    ensures InStep(v)
  {
  }

  /** The task with an unfinished packet knows the device's id. */
  predicate KnowsId(w: Wire, id: u32) {
    id in w.halves && HostOf(w.net, id).own.pc.WriteSend? ==> HostOf(w.net, id).slot.remote != 0
  }

  lemma ActsOneHalf(w: Wire, id: u32, m: Event, max: nat)
    requires OneHalf(w, max) && Enabled(HostOf(w.net, id), m, Env(id, max)) && KnowsId(w, id)
    requires Output(HostOf(w.net, id), m, Env(id, max)) == [] || w.halves == map[]
    requires id in w.halves ==> !IsSend(m)
    ensures OneHalf(Acts(w, id, m, max), max)
  {
    hide OwnerNext, SlotNext, WaiterNext, AppNext, InboxNext, Output, Enabled, Sends;
    var v := Acts(w, id, m, max);
    if w.halves != map[] {
      assert v.sent == w.sent;
      if id in w.halves {
        StillSendsHere(HostOf(w.net, id), m, Env(id, max));
      }
      assert forall i: u32 :: i != id ==> HostOf(v.net, i) == HostOf(w.net, i);
    }
  }

  lemma StillSendsHere(h: Host, e: Event, env: Env)
    requires Enabled(h, e, env) && Sends(h) && !IsSend(e)
    requires h.own.pc.WriteSend? ==> h.slot.remote != 0
    ensures Sends(Next(h, e, env)) && ToSend(Next(h, e, env), env) == ToSend(h, env)
  {
    hide Next, Enabled, Output;
    StillSends(h, e, env);
  }

  lemma ActsRefines(w: Wire, id: u32, m: Event, max: nat)
    requires Tidy(w, max) && 0 < max <= MAX_PAYLOAD && Enabled(HostOf(w.net, id), m, Env(id, max)) && KnowsId(w, id)
    requires Output(HostOf(w.net, id), m, Env(id, max)) == [] || w.halves == map[]
    requires id in w.halves ==> !IsSend(m)
    requires m.OpenBegin? ==> |OpenPayload(m.dest)| <= MAX_PAYLOAD
    ensures Tidy(Acts(w, id, m, max), max) && Whole(Acts(w, id, m, max)) == HostActs(Whole(w), id, m, max)
  {
    hide InStep, OneHalf, AllSized, Next, Output, Enabled, Complete, OpenPayload, WireOfAll;
    var h, v, out := HostOf(w.net, id), Acts(w, id, m, max), Output(HostOf(w.net, id), m, Env(id, max));
    ActsOneHalf(w, id, m, max);
    SizedHere(w, id, max);
    SentFits(h, m, Env(id, max));
    SizedAfter(w, id, m, max, v);
    MoreComplete(w, v, out);
    InStepBounds(w);
    InStepBounds(v);
    assert HostOf(Whole(w), id) == h;
  }

  lemma SizedHere(w: Wire, id: u32, max: nat)
    requires AllSized(w, max)
    ensures Sized(HostOf(w.net, id).own.pc, max)
  {
  }

  lemma InStepBounds(w: Wire)
    requires InStep(w)
    ensures |w.got| <= |Complete(w)|
  {
  }

  lemma CarriedSnoc(list: seq<Sent>, p: Sent)
    ensures Carried(list + [p]) <==> Carried(list) && |p.data| <= MAX_PAYLOAD
  {
    assert (list + [p])[|list|] == p && forall i :: 0 <= i < |list| ==> (list + [p])[i] == list[i];
  }

  /** A header alone: nothing is complete that was not before. */
  lemma HeaderRefines(w: Wire, id: u32, max: nat)
    requires Tidy(w, max) && max <= MAX_PAYLOAD && w.halves == map[]
    requires Sends(HostOf(w.net, id)) && ToSend(HostOf(w.net, id), Env(id, max)).data != []
    ensures var v := HeaderWritten(w, id, ToSend(HostOf(w.net, id), Env(id, max)));
            Tidy(v, max) && Whole(v) == Whole(w)
  {
    hide Sends, ToSend, Output, ReceivedAll, WireOfAll, HeaderOf, Carried, Sized;
    var p := ToSend(HostOf(w.net, id), Env(id, max));
    var v := HeaderWritten(w, id, p);
    SizedHere(w, id, max);
    ToSendFits(HostOf(w.net, id), Env(id, max));
    CarriedSnoc(w.sent, p);
    assert v.sent[..|v.sent| - 1] == w.sent;
    assert WireOfAll(w.sent[|w.got|..]) + [] == WireOfAll(w.sent[|w.got|..]);
    assert forall i: u32 :: HostOf(v.net, i) == HostOf(w.net, i);
  }

  lemma ToSendFits(h: Host, env: Env)
    requires Sends(h) && Sized(h.own.pc, env.max) && env.max <= MAX_PAYLOAD
    ensures |ToSend(h, env).data| <= MAX_PAYLOAD
  {
    hide OpenPayload;
  }

  /** The payload completes the packet its header began. */
  lemma PayloadCompletes(w: Wire, v: Wire, p: Sent)
    requires InStep(w) && w.halves != map[] && w.sent != [] && p == w.sent[|w.sent| - 1]
    requires v.halves == map[] && v.got == w.got && v.sent == w.sent && v.stream == w.stream + p.data
    ensures InStep(v) && Complete(v) == Complete(w) + [p] && Complete(v)[|v.got|..] == Complete(w)[|w.got|..] + [p]
  {
    hide ReceivedAll, WireOfAll, HeaderOf, Carried;
    var c, n := Complete(w), |w.got|;
    assert w.sent == c + [p];
    assert (c + [p])[..n] == c[..n] && (c + [p])[n..] == c[n..] + [p];
    WireAppend(c[n..], [p]);
    WireOfOne(p);
    Assoc(WireOfAll(c[n..]), HeaderOf(p), p.data);
    assert WireOfAll((c + [p])[n..]) + [] == WireOfAll((c + [p])[n..]);
  }

  lemma PayloadRefines(w: Wire, id: u32, max: nat)
    requires Tidy(w, max) && 0 < max <= MAX_PAYLOAD && id in w.halves && Sends(HostOf(w.net, id))
    ensures Enabled(HostOf(w.net, id), SendStep(HostOf(w.net, id)), Env(id, max))
    ensures Tidy(PayloadWritten(w, id, max), max)
    ensures Whole(PayloadWritten(w, id, max)) == HostActs(Whole(w), id, SendStep(HostOf(w.net, id)), max)
  {
    hide InStep, AllSized, Next, Output, Complete, ToSend;
    var h, v := HostOf(w.net, id), PayloadWritten(w, id, max);
    var p := w.halves[id];
    assert v.halves == map[];
    PayloadCompletes(w, v, p);
    SizedAfter(w, id, SendStep(h), max, v);
    InStepBounds(w);
    InStepBounds(v);
    assert HostOf(Whole(w), id) == h && Output(h, SendStep(h), Env(id, max)) == [p];
  }

  /** A header without its payload is no packet yet. */
  lemma HeaderAlone(p: Sent)
    requires 0 < |p.data| <= MAX_PAYLOAD
    ensures ReadPacket(HeaderOf(p)) == Starved
  {
    hide Header, FromBytes, Checksum, ReadPacket;
    var packet := NewPacket(p.command, p.arg0, p.arg1, p.data);
    HeaderThenPayload(packet, []);
    assert Header(packet) + [] == Header(packet);
  }

  /** The device reads the first packet it has not read, and no more. */
  lemma NextRead(w: Wire)
    requires InStep(w) && (w.halves != map[] ==> w.sent != [] && w.sent[|w.sent| - 1].data != [])
    requires ReadPacket(w.stream).Got?
    ensures |w.got| < |Complete(w)| && ReadPacket(w.stream) == Received(Complete(w)[|w.got|])
    ensures Used(ReadPacket(w.stream)) <= |w.stream|
    ensures w.stream[Used(ReadPacket(w.stream))..] == WireOfAll(Complete(w)[|w.got| + 1..]) + Unfinished(w)
  {
    hide ReadPacket, HeaderOf, WireOf;
    var c, n := Complete(w), |w.got|;
    if n == |c| {
      assert c[n..] == [] && WireOfAll([]) == [] && w.stream == Unfinished(w);
      EmptyStream();
      if w.halves != map[] {
        assert |w.sent[|w.sent| - 1].data| <= MAX_PAYLOAD;
        HeaderAlone(w.sent[|w.sent| - 1]);
      }
      assert false;
    } else {
      var p, rest := c[n], WireOfAll(c[n + 1..]) + Unfinished(w);
      CompleteIsSent(w, n);
      assert c[n..][1..] == c[n + 1..];
      Assoc(WireOf(p), WireOfAll(c[n + 1..]), Unfinished(w));
      PacketRoundTrip(p, rest);
      WireLength(p);
      assert (WireOf(p) + rest)[|WireOf(p)|..] == rest;
    }
  }

  lemma CompleteIsSent(w: Wire, i: nat)
    requires i < |Complete(w)|
    ensures i < |w.sent| && Complete(w)[i] == w.sent[i]
  {
  }

  lemma {:induction false} ReceivedSnoc(list: seq<Sent>, p: Sent)
    ensures ReceivedAll(list + [p]) == ReceivedAll(list) + [Received(p)]
  {
    hide Received;
    if list == [] {
      assert [p][1..] == [];
    } else {
      assert (list + [p])[1..] == list[1..] + [p];
      ReceivedSnoc(list[1..], p);
    }
  }

  /** One packet read: the device is one packet further on. */
  lemma ReadInStep(w: Wire, v: Wire)
    requires InStep(w) && |w.got| < |Complete(w)|
    requires v.halves == w.halves && v.sent == w.sent && v.got == w.got + [Received(Complete(w)[|w.got|])]
    requires v.stream == WireOfAll(Complete(w)[|w.got| + 1..]) + Unfinished(w)
    ensures InStep(v) && Complete(v) == Complete(w)
    ensures Complete(v)[|v.got|..] == Complete(w)[|w.got|..][1..]
  {
    hide ReceivedAll, WireOfAll, HeaderOf, Received, Carried;
    var c, n := Complete(w), |w.got|;
    ReceivedSnoc(c[..n], c[n]);
    assert c[..n + 1] == c[..n] + [c[n]] && c[n..][1..] == c[n + 1..];
  }

  lemma ReadRefines(w: Wire, remote: u32, reply: bool, max: nat)
    requires Tidy(w, max) && ReadPacket(w.stream).Got?
    ensures Used(ReadPacket(w.stream)) <= |w.stream| && |w.got| < |Complete(w)|
    ensures var v, p := DeviceRead(w, ReadPacket(w.stream), remote, reply, max), Complete(w)[|w.got|];
            Tidy(v, max) && Whole(w).toDev != [] && Whole(w).toDev[0] == p
            && Whole(v) == DeviceTook(Whole(w), p, remote, reply, max)
  {
    hide ReadPacket, InStep, OneHalf, AllSized, DevNext, DevReplies, Received, Complete, Unfinished;
    LastHasPayload(w, max);
    NextRead(w);
    var r, p := ReadPacket(w.stream), Complete(w)[|w.got|];
    var v := DeviceRead(w, r, remote, reply, max);
    IsReceived(p);
    ReadInStep(w, v);
    OneHalfFrame(w, v, max);
    AllSizedFrame(w, v, max);
    InStepBounds(v);
    assert DevOf(Whole(w), p.arg0) == DevOf(w.net, p.arg0);
  }

  lemma IsReceived(p: Sent)
    ensures Received(p).Got? && PacketOf(Received(p)) == p
  {
  }

  lemma LastHasPayload(w: Wire, max: nat)
    requires OneHalf(w, max)
    ensures w.halves != map[] ==> w.sent != [] && w.sent[|w.sent| - 1].data != []
  {
    if w.halves != map[] {
      var id :| id in w.halves;
    }
  }

  lemma OneHalfFrame(w: Wire, v: Wire, max: nat)
    requires OneHalf(w, max) && v.halves == w.halves && v.sent == w.sent && v.net.hosts == w.net.hosts
    ensures OneHalf(v, max)
  {
    hide Sends, ToSend;
    assert forall id: u32 :: HostOf(v.net, id) == HostOf(w.net, id);
  }

  lemma AllSizedFrame(w: Wire, v: Wire, max: nat)
    requires AllSized(w, max) && v.net.hosts == w.net.hosts
    ensures AllSized(v, max)
  {
    hide Sized;
    assert forall id: u32 :: HostOf(v.net, id) == HostOf(w.net, id);
  }

  /** The step of the connection with whole packets; a header alone is none. */
  function ShareOfWire(w: Wire, e: WireEvent): Option<NetEvent> {
    match e
    case Spawns(dest) => Some(Spawn(dest))
    case Moves(id, m) => Some(TaskMoves(id, m))
    case WritesHeader(_) => None
    case WritesPayload(id) => Some(TaskMoves(id, SendStep(HostOf(w.net, id))))
    case Takes => Some(ReaderTakes)
    case Finishes => Some(ReaderFinishes)
    case Reads(remote, reply) => Some(DeviceTakes(remote, reply))
    case Device(id, d) => Some(DeviceMoves(id, d))
  }

  predicate RefinesTo(w: Wire, e: WireEvent, v: Wire, max: nat) {
    match ShareOfWire(w, e)
    case None => Whole(v) == Whole(w)
    case Some(ne) => NetEnabled(Whole(w), ne, max) && NetNext(Whole(w), ne, max) == Whole(v)
  }

  predicate KnowsIds(w: Wire) {
    forall id: u32 :: KnowsId(w, id)
  }

  lemma WholeIs(w: Wire)
    ensures forall id: u32 :: HostOf(Whole(w), id) == HostOf(w.net, id) && DevOf(Whole(w), id) == DevOf(w.net, id)
    ensures Whole(w).toHost == w.net.toHost && Whole(w).reader == w.net.reader && Whole(w).handedOut == w.net.handedOut
  {
  }

  lemma SpawnRefines(w: Wire, dest: bytes, max: nat)
    requires Tidy(w, max) && 0 < max <= MAX_PAYLOAD && KnowsIds(w) && |OpenPayload(dest)| <= MAX_PAYLOAD
    requires NetEnabled(w.net, Spawn(dest), max)
    ensures var v := WireNext(w, Spawns(dest), max); Tidy(v, max) && RefinesTo(w, Spawns(dest), v, max)
  {
    hide Tidy, Next, OpenPayload, KnowsId;
    var id := LocalId(w.net.handedOut);
    assert KnowsId(w, id);
    ActsRefines(w, id, OpenBegin(dest), max);
    var u, v := Acts(w, id, OpenBegin(dest), max), WireNext(w, Spawns(dest), max);
    TidyFrame(u, v, max);
    WholeIs(w);
  }

  lemma WholeFrame(u: Wire, v: Wire)
    requires v == u.(net := v.net)
    ensures Whole(v) == v.net.(toDev := Whole(u).toDev)
  {
  }

  lemma NoOutput(out: seq<Sent>)
    requires WireOfAll(out) == []
    ensures out == []
  {
    NothingWritten(out);
  }

  lemma MoveRefines(w: Wire, id: u32, m: Event, max: nat)
    requires Tidy(w, max) && 0 < max <= MAX_PAYLOAD && KnowsId(w, id)
    requires WireEnabled(w, Moves(id, m), max) && KeepsTogether(w, Moves(id, m), max)
    ensures var v := WireNext(w, Moves(id, m), max); Tidy(v, max) && RefinesTo(w, Moves(id, m), v, max)
  {
    hide InStep, AllSized, Next, OpenPayload, Output, Enabled, ToSend, Sends;
    if w.halves != map[] {
      NoOutput(Output(HostOf(w.net, id), m, Env(id, max)));
    }
    ActsRefines(w, id, m, max);
    WholeIs(w);
  }

  lemma HeaderKeeps(w: Wire, id: u32, max: nat)
    requires Tidy(w, max) && max <= MAX_PAYLOAD
    requires WireEnabled(w, WritesHeader(id), max) && KeepsTogether(w, WritesHeader(id), max)
    ensures var v := WireNext(w, WritesHeader(id), max); Tidy(v, max) && RefinesTo(w, WritesHeader(id), v, max)
  {
    hide Tidy, Sends, ToSend, HeaderOf, Whole;
    HeaderRefines(w, id, max);
  }

  lemma TakeRefines(w: Wire, max: nat)
    requires Tidy(w, max) && 0 < max <= MAX_PAYLOAD && KnowsIds(w)
    requires WireEnabled(w, Takes, max) && KeepsTogether(w, Takes, max)
    ensures var v := WireNext(w, Takes, max); Tidy(v, max) && RefinesTo(w, Takes, v, max)
  {
    hide Tidy, Next, OpenPayload, Output, KnowsId;
    var p := w.net.toHost[0];
    assert KnowsId(w, p.arg1);
    if w.halves != map[] {
      NoOutput(Output(HostOf(w.net, p.arg1), Take(p), Env(p.arg1, max)));
    }
    ActsRefines(w, p.arg1, Take(p), max);
    var u, v := Acts(w, p.arg1, Take(p), max), WireNext(w, Takes, max);
    TidyFrame(u, v, max);
    WholeFrame(u, v);
    WholeIs(w);
  }

  lemma FinishRefines(w: Wire, max: nat)
    requires Tidy(w, max) && 0 < max <= MAX_PAYLOAD && KnowsIds(w)
    requires WireEnabled(w, Finishes, max)
    ensures var v := WireNext(w, Finishes, max); Tidy(v, max) && RefinesTo(w, Finishes, v, max)
  {
    hide Tidy, Next, OpenPayload, KnowsId;
    var id := w.net.reader.value;
    assert KnowsId(w, id);
    ActsRefines(w, id, Finish, max);
    var u, v := Acts(w, id, Finish, max), WireNext(w, Finishes, max);
    TidyFrame(u, v, max);
    WholeFrame(u, v);
    WholeIs(w);
  }

  lemma DeviceRefines(w: Wire, id: u32, d: LinkEvent, max: nat)
    requires Tidy(w, max) && WireEnabled(w, Device(id, d), max)
    ensures var v := WireNext(w, Device(id, d), max); Tidy(v, max) && RefinesTo(w, Device(id, d), v, max)
  {
    hide Tidy;
    var v := WireNext(w, Device(id, d), max);
    TidyIs(w, max);
    TidyFrame(w, v, max);
    WholeFrame(w, v);
    WholeIs(w);
  }

  lemma TidyIs(w: Wire, max: nat)
    requires Tidy(w, max)
    ensures w.net.toDev == []
  {
  }

  lemma StepRefines(w: Wire, e: WireEvent, max: nat)
    requires Tidy(w, max) && KnowsIds(w) && 0 < max <= MAX_PAYLOAD
    requires WireEnabled(w, e, max) && KeepsTogether(w, e, max)
    ensures Tidy(WireNext(w, e, max), max) && RefinesTo(w, e, WireNext(w, e, max), max)
  {
    hide Tidy, Acts, HostActs, DevActs, HeaderWritten, PayloadWritten, DeviceRead, Enabled, Output, ToSend, Sends,
         KnowsId, Whole;
    WholeIs(w);
    match e
    case Spawns(dest) => SpawnRefines(w, dest, max);
    case Moves(id, m) =>
      assert KnowsId(w, id);
      MoveRefines(w, id, m, max);
    case WritesHeader(id) => HeaderKeeps(w, id, max);
    case WritesPayload(id) => PayloadRefines(w, id, max);
    case Takes => TakeRefines(w, max);
    case Finishes => FinishRefines(w, max);
    case Reads(remote, reply) => ReadRefines(w, remote, reply, max);
    case Device(id, d) => DeviceRefines(w, id, d, max);
  }

  // ---- Every run that keeps packets together

  lemma NetSnoc(events: seq<NetEvent>, e: NetEvent, max: nat)
    requires NetRun(events, max).Some? && NetEnabled(NetRun(events, max).value, e, max)
    ensures NetRun(events + [e], max) == Some(NetNext(NetRun(events, max).value, e, max))
  {
    hide NetNext, NetEnabled;
    assert (events + [e])[..|events|] == events;
  }

  lemma IdIsKnown(l: Link, env: Env)
    requires LinkInvariant(l, env)
    ensures l.host.own.pc.WriteSend? ==> l.host.slot.remote != 0
  {
    hide Flow, HostInvariant;
  }

  lemma IdsAreKnown(w: Wire, events: seq<NetEvent>, max: nat)
    requires NetRun(events, max) == Some(Whole(w))
    ensures KnowsIds(w)
  {
    hide NetRun, LinkInvariant, Whole;
    forall id: u32
      ensures KnowsId(w, id)
    {
      NetRuns(events, id, max);
      IdIsKnown(LinkOf(Whole(w), id), Env(id, max));
      WholeIs(w);
    }
  }

  lemma QuietIsTidy(max: nat)
    ensures Tidy(QUIET, max) && Whole(QUIET) == EMPTY
  {
  }

  /** A run that keeps packets together is a run of whole packets. */
  lemma {:induction false} TogetherIsWhole(events: seq<WireEvent>, max: nat) returns (whole: seq<NetEvent>)
    requires WireRun(events, max).Some? && Together(events, max) && 0 < max <= MAX_PAYLOAD
    ensures Tidy(WireRun(events, max).value, max)
    ensures NetRun(whole, max) == Some(Whole(WireRun(events, max).value))
  {
    hide Tidy, WireNext, WireEnabled, KeepsTogether, Whole, NetNext, NetEnabled;
    if events == [] {
      QuietIsTidy(max);
      whole := [];
    } else {
      var front, e := events[..|events| - 1], events[|events| - 1];
      var w := WireRun(front, max).value;
      whole := TogetherIsWhole(front, max);
      IdsAreKnown(w, whole, max);
      StepRefines(w, e, max);
      if ShareOfWire(w, e).Some? {
        NetSnoc(whole, ShareOfWire(w, e).value, max);
        whole := whole + [ShareOfWire(w, e).value];
      }
    }
  }

  /** The device has read the first of the packets sent, each as it was sent. */
  predicate ReadsAsSent(w: Wire) {
    |w.got| <= |w.sent| && w.got == ReceivedAll(w.sent[..|w.got|])
  }

  /**
   On every run that writes nothing between a header and its payload, the device reads exactly
   the packets sent, in order, and every stream keeps its promises in both directions, whatever
   the others do.
   */
  lemma WholePacketsArrive(events: seq<WireEvent>, id: u32, max: nat)
    requires WireRun(events, max).Some? && Together(events, max) && 0 < max <= MAX_PAYLOAD
    ensures var w := WireRun(events, max).value;
            && ReadsAsSent(w)
            && Delivered(HostOf(w.net, id).own, DevOf(w.net, id).received, Env(id, max))
            && InboundAsPromised(HostOf(w.net, id))
  {
    hide WireRun, NetRun, Delivered, InboundAsPromised, Whole, Tidy;
    var whole := TogetherIsWhole(events, max);
    var w := WireRun(events, max).value;
    StreamsDoNotInterfere(whole, id, max);
    WholeIs(w);
    TidyReads(w, max);
  }

  lemma TidyReads(w: Wire, max: nat)
    requires Tidy(w, max)
    ensures ReadsAsSent(w)
  {
    hide ReceivedAll, WireOfAll, HeaderOf;
    assert w.sent[..|w.got|] == Complete(w)[..|w.got|];
  }
}
