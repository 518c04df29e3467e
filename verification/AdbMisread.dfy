/**
 What happens when a write does come between a header and its payload: exactly when the device
 still reads the packets that were sent.
 */
module AdbMisread {
  import opened Wrappers
  import opened Bytes
  import opened PacketCore
  import opened AdbHost
  import opened AdbLink
  import opened AdbNet
  import opened AdbWire

  // ---- What was read, as bytes

  predicate Readable(r: Read) {
    && r.Got? && r.packet.magic == Complement(Code(r.packet.command))
    && r.packet.dataLength == |r.data| <= MAX_PAYLOAD && PayloadFault(r.packet, r.data).None?
  }

  function Raw(r: Read): bytes
    requires r.Got?
  {
    Header(r.packet) + r.data
  }

  predicate AllReadable(got: seq<Read>) {
    forall i :: 0 <= i < |got| ==> Readable(got[i])
  }

  function RawAll(got: seq<Read>): bytes
    requires AllReadable(got)
  {
    if got == [] then [] else Raw(got[0]) + RawAll(got[1..])
  }

  lemma GotIsReadable(s: bytes)
    requires ReadPacket(s).Got?
    ensures var r := ReadPacket(s); Readable(r) && Used(r) <= |s| && s == Raw(r) + s[Used(r)..]
  {
    var r := ReadPacket(s);
    ReadHeaderReencodes(s[..HEADER_BYTES]);
    assert s[..HEADER_BYTES][..HEADER_BYTES] == s[..HEADER_BYTES];
    assert FromBytes(s[..HEADER_BYTES]) == Ok(r.packet);
    HeaderRoundTrip(r.packet, []);
    assert Header(r.packet) + [] == Header(r.packet) == s[..HEADER_BYTES];
    hide Header, FromBytes, Checksum;
    assert r.data == s[HEADER_BYTES..][..|r.data|];
    assert s == s[..HEADER_BYTES] + s[HEADER_BYTES..][..|r.data|] + s[HEADER_BYTES + |r.data|..];
  }

  lemma ReadsBack(r: Read, rest: bytes)
    requires Readable(r)
    ensures ReadPacket(Raw(r) + rest) == r && |Raw(r)| == Used(r)
  {
    hide Header, Checksum, ReadPacket, FromBytes, Code;
    HeaderThenPayload(r.packet, r.data + rest);
    Assoc(Header(r.packet), r.data, rest);
    assert (r.data + rest)[..|r.data|] == r.data;
  }

  lemma ReceivedIsReadable(p: Sent)
    requires |p.data| <= MAX_PAYLOAD
    ensures Readable(Received(p)) && Raw(Received(p)) == WireOf(p)
  {
    hide Header, Checksum;
  }

  lemma {:induction false} RawSnoc(got: seq<Read>, r: Read)
    requires AllReadable(got) && Readable(r)
    ensures AllReadable(got + [r]) && RawAll(got + [r]) == RawAll(got) + Raw(r)
  {
    hide Raw, Checksum, Code;
    AllReadableSnoc(got, r);
    if got == [] {
      assert [] + [r] == [r] && [r][1..] == [];
      assert Raw(r) + [] == Raw(r);
    } else {
      assert (got + [r])[1..] == got[1..] + [r];
      RawSnoc(got[1..], r);
      Assoc(Raw(got[0]), RawAll(got[1..]), Raw(r));
    }
  }

  lemma AllReadableSnoc(got: seq<Read>, r: Read)
    requires AllReadable(got) && Readable(r)
    ensures AllReadable(got + [r])
  {
  }

  /** On every run, the bytes written are those of the packets read and those not read yet. */
  predicate Traced(w: Wire) {
    AllReadable(w.got) && w.written == RawAll(w.got) + w.stream
  }

  lemma TracedStep(w: Wire, e: WireEvent, max: nat)
    requires WireEnabled(w, e, max) && Traced(w)
    ensures Traced(WireNext(w, e, max))
  {
    if e.Reads? {
      ReadTraced(w, e.remote, e.reply, max);
    } else {
      OtherTraced(w, e, max);
    }
  }

  lemma ReadTraced(w: Wire, remote: u32, reply: bool, max: nat)
    requires ReadPacket(w.stream).Got? && Traced(w)
    ensures Used(ReadPacket(w.stream)) <= |w.stream|
    ensures Traced(DeviceRead(w, ReadPacket(w.stream), remote, reply, max))
  {
    GotIsReadable(w.stream);
    hide ReadPacket, Raw, RawAll, Readable, AllReadable, DevNext, DevReplies, DevActs;
    var r := ReadPacket(w.stream);
    RawSnoc(w.got, r);
    Assoc(RawAll(w.got), Raw(r), w.stream[Used(r)..]);
  }

  lemma OtherTraced(w: Wire, e: WireEvent, max: nat)
    requires WireEnabled(w, e, max) && !e.Reads? && Traced(w)
    ensures Traced(WireNext(w, e, max))
  {
    hide RawAll, AllReadable, HostActs, DeviceMoved, Output, HeaderOf, WireOfAll, Enabled, Sends, ToSend;
    var v := WireNext(w, e, max);
    var data := if |v.stream| >= |w.stream| then v.stream[|w.stream|..] else [];
    assert v.got == w.got && v.stream == w.stream + data && v.written == w.written + data;
    Assoc(RawAll(w.got), w.stream, data);
  }

  lemma {:induction false} TracedRuns(events: seq<WireEvent>, max: nat)
    requires WireRun(events, max).Some?
    ensures Traced(WireRun(events, max).value)
  {
    hide WireNext, WireEnabled;
    if events != [] {
      TracedRuns(events[..|events| - 1], max);
      TracedStep(WireRun(events[..|events| - 1], max).value, events[|events| - 1], max);
    }
  }

  // ---- Exactly when the packets read are the packets sent

  lemma {:induction false} RawOfReceived(list: seq<Sent>)
    requires Carried(list)
    ensures AllReadable(ReceivedAll(list)) && RawAll(ReceivedAll(list)) == WireOfAll(list)
    ensures |ReceivedAll(list)| == |list|
  {
    if list != [] {
      assert |list[0].data| <= MAX_PAYLOAD;
      ReceivedIsReadable(list[0]);
      hide Received, Raw, WireOf, Readable;
      RawOfReceived(list[1..]);
      assert ReceivedAll(list)[1..] == ReceivedAll(list[1..]);
      assert forall i :: 0 < i < |ReceivedAll(list)| ==> ReceivedAll(list)[i] == ReceivedAll(list[1..])[i - 1];
    }
  }

  /** The same bytes read as the same packets. */
  lemma {:induction false} SameBytesSameReads(got: seq<Read>, tail: bytes, list: seq<Sent>, rest: bytes)
    requires AllReadable(got) && Carried(list) && |got| == |list|
    requires RawAll(got) + tail == WireOfAll(list) + rest
    ensures got == ReceivedAll(list)
    decreases |list|
  {
    if list != [] {
      var p, r := list[0], got[0];
      assert |p.data| <= MAX_PAYLOAD && Readable(r);
      Assoc(Raw(r), RawAll(got[1..]), tail);
      Assoc(WireOf(p), WireOfAll(list[1..]), rest);
      ReadsBack(r, RawAll(got[1..]) + tail);
      PacketRoundTrip(p, WireOfAll(list[1..]) + rest);
      ReceivedIsReadable(p);
      hide Raw, WireOf, Received, ReadPacket, Readable;
      SameTail(Raw(r), RawAll(got[1..]) + tail, WireOfAll(list[1..]) + rest);
      SameBytesSameReads(got[1..], tail, list[1..], rest);
      assert got == [r] + got[1..];
    }
  }

  lemma SameTail(a: bytes, x: bytes, y: bytes)
    requires a + x == a + y
    ensures x == y
  {
    assert x == (a + x)[|a|..] && y == (a + y)[|a|..];
  }

  lemma PrefixRaw(got: seq<Read>, tail: bytes, list: seq<Sent>)
    requires AllReadable(got) && Carried(list) && |got| == |list|
    ensures got == ReceivedAll(list) <==> WireOfAll(list) <= RawAll(got) + tail
  {
    hide AllReadable, Carried;
    RawOfReceived(list);
    var s := RawAll(got) + tail;
    if WireOfAll(list) <= s {
      assert s == WireOfAll(list) + s[|WireOfAll(list)|..];
      SameBytesSameReads(got, tail, list, s[|WireOfAll(list)|..]);
    }
  }

  /**
   On every run, interrupted or not: the packets the device has read are the ones sent exactly
   when the bytes written begin with those packets, each in one piece.
   */
  lemma ReadsAsSentExactly(events: seq<WireEvent>, max: nat)
    requires WireRun(events, max).Some?
    requires var w := WireRun(events, max).value; |w.got| <= |w.sent| && Carried(w.sent[..|w.got|])
    ensures var w := WireRun(events, max).value;
            ReadsAsSent(w) <==> WireOfAll(w.sent[..|w.got|]) <= w.written
  {
    hide WireRun, WireOfAll, RawAll, ReceivedAll, Carried, AllReadable;
    TracedRuns(events, max);
    var w := WireRun(events, max).value;
    PrefixRaw(w.got, w.stream, w.sent[..|w.got|]);
  }

  // ---- A packet that is interrupted does not arrive

  /** Two byte strings agree as far as both go. */
  predicate Agree(a: bytes, b: bytes) {
    forall i :: 0 <= i < |a| && i < |b| ==> a[i] == b[i]
  }

  /** The step writes while a packet is unfinished, and not the payload. */
  predicate Interrupts(w: Wire, e: WireEvent, max: nat)
    requires WireEnabled(w, e, max)
  {
    w.halves != map[] && w.sent != [] && !e.WritesPayload? && WrittenBy(w, e, max) != []
  }

  lemma StepGrows(w: Wire, e: WireEvent, max: nat)
    requires WireEnabled(w, e, max)
    ensures WireNext(w, e, max).written == w.written + WrittenBy(w, e, max) && w.sent <= WireNext(w, e, max).sent
  {
    WrittenIs(w, e, max);
    hide WrittenBy, Output, Enabled, HostActs, DeviceMoved, HeaderOf, ToSend, Sends, WireOfAll;
  }

  lemma {:induction false} RunGrows(events: seq<WireEvent>, more: seq<WireEvent>, max: nat)
    requires WireRun(events + more, max).Some?
    ensures WireRun(events, max).Some?
    ensures WireRun(events, max).value.written <= WireRun(events + more, max).value.written
    ensures WireRun(events, max).value.sent <= WireRun(events + more, max).value.sent
    decreases |more|
  {
    hide WireNext, WireEnabled;
    if more == [] {
      assert events + more == events;
    } else {
      var n := |more| - 1;
      assert (events + more)[..|events + more| - 1] == events + more[..n];
      RunGrows(events, more[..n], max);
      StepGrows(WireRun(events + more[..n], max).value, more[n], max);
    }
  }

  lemma AgreeAsPrefixes(a: bytes, b: bytes, head: bytes, s: bytes)
    requires head + a <= s && head + b <= s
    ensures Agree(a, b)
  {
    forall i | 0 <= i < |a| && i < |b|
      ensures a[i] == b[i]
    {
      assert (head + a)[|head| + i] == s[|head| + i] == (head + b)[|head| + i];
    }
  }

  lemma {:induction false} ReceivedPrefix(list: seq<Sent>, more: seq<Sent>)
    requires list <= more
    ensures |ReceivedAll(more)| == |more| && ReceivedAll(list) == ReceivedAll(more)[..|list|]
    decreases |more|
  {
    hide Received;
    if list == [] {
      if more != [] {
        ReceivedPrefix([], more[1..]);
      }
    } else {
      assert more == list + more[|list|..] && more[1..] == list[1..] + more[|list|..];
      ReceivedPrefix(list[1..], more[1..]);
      assert ReceivedAll(more)[..|list|] == [Received(more[0])] + ReceivedAll(more[1..])[..|list| - 1];
    }
  }

  /** Reading the packets `list` means that their bytes, each packet in one piece, were written first. */
  lemma ReadMeansWritten(w: Wire, list: seq<Sent>)
    requires Traced(w) && Carried(list) && |list| <= |w.got| && w.got[..|list|] == ReceivedAll(list)
    ensures WireOfAll(list) <= w.written
  {
    hide WireOfAll, RawAll, ReceivedAll, Readable;
    var n := |list|;
    RawSplit(w.got, n);
    RawOfReceived(list);
    Assoc(RawAll(w.got[..n]), RawAll(w.got[n..]), w.stream);
  }

  lemma {:induction false} RawSplit(got: seq<Read>, n: nat)
    requires AllReadable(got) && n <= |got|
    ensures AllReadable(got[..n]) && AllReadable(got[n..]) && RawAll(got) == RawAll(got[..n]) + RawAll(got[n..])
  {
    hide Raw, Checksum, Code, Readable;
    assert forall i :: 0 <= i < n ==> got[..n][i] == got[i];
    assert forall i :: n <= i < |got| ==> got[n..][i - n] == got[i];
    if n > 0 {
      RawSplit(got[1..], n - 1);
      assert got[..n][1..] == got[1..][..n - 1] && got[1..][n - 1..] == got[n..] && got[..n][0] == got[0];
      AssocRaw(got, n);
    } else {
      assert got[0..] == got && got[..0] == [];
    }
  }

  lemma AssocRaw(got: seq<Read>, n: nat)
    requires AllReadable(got) && 0 < n <= |got| && AllReadable(got[1..][..n - 1]) && AllReadable(got[n..])
    ensures Readable(got[0])
    ensures Raw(got[0]) + (RawAll(got[1..][..n - 1]) + RawAll(got[n..]))
        == Raw(got[0]) + RawAll(got[1..][..n - 1]) + RawAll(got[n..])
  {
  }

  /** While packets are kept together, what was written are whole packets and the unfinished header. */
  lemma TidyWritten(w: Wire)
    requires Traced(w) && InStep(w)
    ensures w.written == WireOfAll(Complete(w)) + Unfinished(w)
  {
    hide WireOfAll, RawAll, ReceivedAll, HeaderOf, Readable;
    var c, n := Complete(w), |w.got|;
    CompleteCarried(w);
    RawOfReceived(c[..n]);
    WireAppend(c[..n], c[n..]);
    assert c == c[..n] + c[n..];
    Assoc(WireOfAll(c[..n]), WireOfAll(c[n..]), Unfinished(w));
  }

  lemma CompleteCarried(w: Wire)
    requires InStep(w)
    ensures Carried(Complete(w)[..|w.got|])
  {
    hide ReceivedAll, WireOfAll, HeaderOf;
    assert forall i :: 0 <= i < |w.got| ==> Complete(w)[..|w.got|][i] == w.sent[i];
  }

  /** The last packet, whole, behind the others. */
  lemma LastWhole(w: Wire)
    requires w.halves != map[] && w.sent != []
    ensures WireOfAll(w.sent) == WireOfAll(Complete(w)) + Unfinished(w) + w.sent[|w.sent| - 1].data
  {
    hide WireOfAll, HeaderOf;
    var p := w.sent[|w.sent| - 1];
    assert w.sent == Complete(w) + [p];
    WireAppend(Complete(w), [p]);
    WireOfOne(p);
    Assoc(WireOfAll(Complete(w)), HeaderOf(p), p.data);
  }

  lemma ReadsAsSentPrefix(w: Wire, list: seq<Sent>)
    requires ReadsAsSent(w) && list <= w.sent && |list| <= |w.got|
    ensures w.got[..|list|] == ReceivedAll(list)
  {
    hide ReceivedAll;
    assert list <= w.sent[..|w.got|];
    ReceivedPrefix(list, w.sent[..|w.got|]);
  }

  lemma InterruptedIsMissing(w: Wire, data: bytes, v: Wire)
    requires Traced(w) && InStep(w) && w.halves != map[] && w.sent != []
    requires !Agree(w.sent[|w.sent| - 1].data, data)
    requires Traced(v) && w.written + data <= v.written && w.sent <= v.sent
    ensures |v.got| >= |w.sent| ==> !ReadsAsSent(v)
  {
    TidyWritten(w);
    LastWhole(w);
    InStepCarried(w);
    hide WireOfAll, ReceivedAll, HeaderOf, Traced, InStep, Agree, Carried, Complete, Unfinished;
    if |v.got| >= |w.sent| && ReadsAsSent(v) {
      ReadsAsSentPrefix(v, w.sent);
      ReadMeansWritten(v, w.sent);
      AgreeAsPrefixes(w.sent[|w.sent| - 1].data, data, WireOfAll(Complete(w)) + Unfinished(w), v.written);
    }
  }

  lemma InStepCarried(w: Wire)
    requires InStep(w)
    ensures Carried(w.sent)
  {
  }

  /**
   Let packets be kept together up to a step that writes between a header and its payload. If
   what it writes and the payload do not begin alike, then however the run goes on, the device
   never reads the packets that were sent: the interrupted one never arrives.
   */
  lemma InterruptedNeverArrives(before: seq<WireEvent>, e: WireEvent, after: seq<WireEvent>, max: nat)
    requires WireRun(before, max).Some? && Together(before, max) && 0 < max <= MAX_PAYLOAD
    requires var w := WireRun(before, max).value;
             && WireEnabled(w, e, max) && Interrupts(w, e, max)
             && !Agree(w.sent[|w.sent| - 1].data, WrittenBy(w, e, max))
    requires WireRun(before + [e] + after, max).Some?
    ensures var w, v := WireRun(before, max).value, WireRun(before + [e] + after, max).value;
            |v.got| >= |w.sent| ==> !ReadsAsSent(v)
  {
    hide WireRun, WireEnabled, WireNext, WrittenBy, Tidy, InStep, Traced, ReadsAsSent, Agree;
    var w, v := WireRun(before, max).value, WireRun(before + [e] + after, max).value;
    var whole := TogetherIsWhole(before, max);
    TidyIsInStep(w, max);
    TracedRuns(before, max);
    TracedRuns(before + [e] + after, max);
    RunGrows(before + [e], after, max);
    RunStep(before, e, max);
    InterruptedIsMissing(w, WrittenBy(w, e, max), v);
  }

  lemma RunStep(events: seq<WireEvent>, e: WireEvent, max: nat)
    requires WireRun(events, max).Some? && WireEnabled(WireRun(events, max).value, e, max)
    requires WireRun(events + [e], max).Some?
    ensures var w, v := WireRun(events, max).value, WireRun(events + [e], max).value;
            v.written == w.written + WrittenBy(w, e, max) && w.sent <= v.sent
  {
    hide WireEnabled, WireNext, WrittenBy;
    assert (events + [e])[..|events|] == events;
    StepGrows(WireRun(events, max).value, e, max);
  }

  lemma TidyIsInStep(w: Wire, max: nat)
    requires Tidy(w, max)
    ensures InStep(w)
  {
  }

  // ---- What a header begins with

  lemma PutBegins(x: u32)
    ensures PutU32(x)[0] == (x % 256) as byte
  {
  }

  lemma HeaderBegins(p: Packet)
    ensures Header(p)[0] == (Code(p.command) % 256) as byte
  {
    HeaderFields(p, []);
    PutBegins(Code(p.command));
    hide Header, PutU32, Code;
    assert Header(p) + [] == Header(p);
    assert Header(p)[0] == Header(p)[0..4][0];
  }

  /** The low byte of the command: C, O or W for all that a stream sends. */
  predicate BeginsCommand(b: byte) {
    b == 0x43 || b == 0x4F || b == 0x57
  }

  lemma StreamHeaderBegins(p: Sent)
    requires p.command == Open || p.command == Okay || p.command == Clse || p.command == Wrte
    ensures BeginsCommand(HeaderOf(p)[0])
  {
    HeaderBegins(NewPacket(p.command, p.arg0, p.arg1, p.data));
    hide Header, Checksum;
  }

  lemma OutputBegins(h: Host, m: Event, env: Env)
    requires Enabled(h, m, env) && WireOfAll(Output(h, m, env)) != []
    ensures BeginsCommand(WireOfAll(Output(h, m, env))[0])
  {
    var out := Output(h, m, env);
    assert out != [] && out == [out[0]];
    WireOfOne(out[0]);
    StreamHeaderBegins(out[0]);
    hide HeaderOf, WireOfAll;
  }

  /** Whatever interrupts begins with C, O or W; a payload that does not, never arrives. */
  lemma OtherPayloadsDisagree(w: Wire, e: WireEvent, max: nat)
    requires WireEnabled(w, e, max) && Interrupts(w, e, max)
    requires var data := w.sent[|w.sent| - 1].data; data != [] && !BeginsCommand(data[0])
    ensures !Agree(w.sent[|w.sent| - 1].data, WrittenBy(w, e, max))
  {
    hide WireOfAll, HeaderOf, Output, Enabled, Sends, BeginsCommand;
    InterruptionBegins(w, e, max);
  }

  lemma InterruptionBegins(w: Wire, e: WireEvent, max: nat)
    requires WireEnabled(w, e, max) && !e.WritesPayload? && WrittenBy(w, e, max) != []
    ensures BeginsCommand(WrittenBy(w, e, max)[0])
  {
    hide WireOfAll, HeaderOf, Output;
    match e
    case Moves(id, m) => OutputBegins(HostOf(w.net, id), m, Env(id, max));
    case Takes =>
      var p := w.net.toHost[0];
      OutputBegins(HostOf(w.net, p.arg1), Take(p), Env(p.arg1, max));
    case WritesHeader(id) => SendBegins(HostOf(w.net, id), Env(id, max));
    case _ =>
  }

  lemma SendBegins(h: Host, env: Env)
    requires Sends(h)
    ensures BeginsCommand(HeaderOf(ToSend(h, env))[0])
  {
    hide HeaderOf, OpenPayload;
    StreamHeaderBegins(ToSend(h, env));
  }

  // ---- Exactly when packets must be kept together

  predicate OpensFit(events: seq<WireEvent>) {
    forall i :: 0 <= i < |events| && events[i].Spawns? ==> |OpenPayload(events[i].dest)| <= MAX_PAYLOAD
  }

  /** No payload begins as a packet of a stream does. */
  predicate Unmistakable(sent: seq<Sent>) {
    forall i :: 0 <= i < |sent| && sent[i].data != [] ==> !BeginsCommand(sent[i].data[0])
  }

  /** The first step that does not keep a packet together. */
  lemma {:induction false} FirstInterruption(events: seq<WireEvent>, max: nat) returns (n: nat)
    requires WireRun(events, max).Some? && !Together(events, max)
    ensures n < |events| && WireRun(events[..n], max).Some? && Together(events[..n], max)
    ensures var w := WireRun(events[..n], max).value;
            WireEnabled(w, events[n], max) && !KeepsTogether(w, events[n], max)
  {
    hide WireNext, WireEnabled, KeepsTogether;
    var last := |events| - 1;
    if Together(events[..last], max) {
      n := last;
    } else {
      n := FirstInterruption(events[..last], max);
      assert events[..last][..n] == events[..n];
    }
  }

  lemma HalfIsLast(w: Wire, max: nat)
    requires Tidy(w, max) && w.halves != map[]
    ensures w.sent != [] && w.sent[|w.sent| - 1].data != []
  {
    hide InStep, AllSized, Sends, ToSend;
    var id :| id in w.halves;
  }

  lemma BreaksOff(w: Wire, e: WireEvent, max: nat)
    requires Tidy(w, max) && WireEnabled(w, e, max) && !KeepsTogether(w, e, max)
    requires e.Spawns? ==> |OpenPayload(e.dest)| <= MAX_PAYLOAD
    requires Unmistakable(w.sent)
    ensures Interrupts(w, e, max) && !Agree(w.sent[|w.sent| - 1].data, WrittenBy(w, e, max))
  {
    hide WireEnabled, WrittenBy, Tidy, Agree, OpenPayload;
    HalfIsLast(w, max);
    OtherPayloadsDisagree(w, e, max);
  }

  /**
   On every run whose OPENs fit a packet and whose payloads begin with no C, O or W, once the
   device has read as many packets as were sent: they are the packets sent exactly when nothing
   was ever written between a header and its payload.
   */
  lemma ReadsAsSentWhenTogether(events: seq<WireEvent>, max: nat)
    requires WireRun(events, max).Some? && 0 < max <= MAX_PAYLOAD && OpensFit(events)
    requires var w := WireRun(events, max).value; Unmistakable(w.sent) && |w.got| >= |w.sent|
    ensures ReadsAsSent(WireRun(events, max).value) <==> Together(events, max)
  {
    hide WireRun, WireEnabled, KeepsTogether, Interrupts, Agree, ReadsAsSent, Tidy, WrittenBy, Together;
    if Together(events, max) {
      WholePacketsArrive(events, 0, max);
    } else {
      var n := FirstInterruption(events, max);
      var before, e, after := events[..n], events[n], events[n + 1..];
      var w := WireRun(before, max).value;
      var whole := TogetherIsWhole(before, max);
      assert before + [e] + after == events && before + ([e] + after) == events;
      RunGrows(before, [e] + after, max);
      BreaksOff(w, e, max);
      InterruptedNeverArrives(before, e, after, max);
    }
  }
}
