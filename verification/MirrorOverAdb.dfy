/**
 What runs on top of the multiplexer: the payloads an ADB stream carries are the chunks the
 demuxers see, and a pushed file. Puts together the results of ClientCore, ControlCore,
 AdbPushCore and AdbWire, for runs that keep the header and the payload of a packet together.
 */
module MirrorOverAdb {
  import opened Wrappers
  import opened Bytes
  import opened Rounding
  import opened Proto
  import opened Framing
  import Client = ClientCore
  import Control = ControlCore
  import PacketCore
  import Push = AdbPushCore
  import opened AdbHost
  import opened AdbLink
  import opened AdbNet
  import opened AdbWire
  import opened AdbRoom

  lemma {:induction false} OnChunksAppend(c: Client.Core, a: seq<bytes>, b: seq<bytes>)
    ensures Client.OnChunks(c, a + b)
         == Client.OnChunks(Client.OnChunks(c, a).core, b).After(Client.OnChunks(c, a).outs)
    decreases |a|
  {
    hide Client.OnBytes;
    if a == [] {
      assert a + b == b;
      assert [] + Client.OnChunks(c, b).outs == Client.OnChunks(c, b).outs;
    } else {
      var first := Client.OnBytes(c, a[0]);
      assert (a + b)[1..] == a[1..] + b;
      OnChunksAppend(first.core, a[1..], b);
      var second := Client.OnChunks(first.core, a[1..]);
      Client.OnChunks(second.core, b).AfterAfter(second.outs, first.outs);
    }
  }

  lemma {:induction false} PushAllAppend(buf: bytes, a: seq<bytes>, b: seq<bytes>)
    ensures var first := Control.PushAll(buf, a);
            var second := Control.PushAll(first.buf, b);
            Control.PushAll(buf, a + b) ==
            Control.Pushed(second.buf, first.actions + second.actions,
                           if first.error.Some? then first.error else second.error)
    decreases |a|
  {
    hide Control.Push;
    if a == [] {
      assert a + b == b;
      assert [] + Control.PushAll(buf, b).actions == Control.PushAll(buf, b).actions;
    } else {
      var first := Control.Push(buf, a[0]);
      assert (a + b)[1..] == a[1..] + b;
      PushAllAppend(first.buf, a[1..], b);
      var r := Control.PushAll(first.buf, a[1..]);
      Control.AssocActions(first.actions, r.actions, Control.PushAll(r.buf, b).actions);
    }
  }

  lemma Complete(chunks: seq<bytes>, all: bytes)
    requires Flatten(chunks) <= all
    ensures Flatten(chunks + [all[|Flatten(chunks)|..]]) == all
  {
    FlattenSnoc(chunks, all[|Flatten(chunks)|..]);
  }

  // ---- Host to device

  predicate AllControl(ms: seq<Message>) {
    forall i :: 0 <= i < |ms| ==> Control.IsControl(ms[i])
  }

  /** A first part of the control bytes, in any pieces, leads to a first part of the calls. */
  lemma ControlSoFar(chunks: seq<bytes>, ms: seq<Message>)
    requires AllControl(ms) && Flatten(chunks) <= Control.SentBytes(ms)
    ensures var p := Control.PushAll([], chunks);
            && p.error.None? && p.actions <= Control.ActionsOf(Control.Fitting(ms))
            && |p.actions| <= |Control.Fitting(ms)|
            && (forall i :: 0 <= i < |p.actions| ==> Control.Does(p.actions[i], Control.Fitting(ms)[i]))
  {
    hide Control.PushAll, Control.SentBytes, Control.ActionsOf, Control.Fitting, Control.Does;
    var rest := Control.SentBytes(ms)[|Flatten(chunks)|..];
    Complete(chunks, Control.SentBytes(ms));
    Control.HostToServer(ms, chunks + [rest]);
    PushAllAppend([], chunks, [rest]);
  }

  /**
   At any moment of a run the server has made the first of the calls the control messages ask
   for, without error; and all of them once the last `write` succeeded.
   */
  lemma ControlOverAdb(events: seq<WireEvent>, id: u32, max: nat, ms: seq<Message>)
    requires WireRun(events, max).Some? && Together(events, max) && 0 < max <= PacketCore.MAX_PAYLOAD && AllControl(ms)
    requires HostOf(WireRun(events, max).value.net, id).own.asked <= Control.SentBytes(ms)
    ensures var w := WireRun(events, max).value;
            var o, p := HostOf(w.net, id).own, Control.PushAll([], DevOf(w.net, id).received);
            && p.error.None? && p.actions <= Control.ActionsOf(Control.Fitting(ms))
            && |p.actions| <= |Control.Fitting(ms)|
            && (forall i :: 0 <= i < |p.actions| ==> Control.Does(p.actions[i], Control.Fitting(ms)[i]))
            && (o.pc == Idle && o.ok && o.asked == Control.SentBytes(ms)
                ==> p == Control.Pushed([], Control.ActionsOf(Control.Fitting(ms)), None))
  {
    hide WireRun, Together, Control.PushAll, Control.SentBytes, Control.ActionsOf, Control.Fitting, Control.Does,
         InboundAsPromised, Flatten, ReadsAsSent;
    WholePacketsArrive(events, id, max);
    var w := WireRun(events, max).value;
    var o, received := HostOf(w.net, id).own, DevOf(w.net, id).received;
    assert Flatten(received) <= Control.SentBytes(ms);
    ControlSoFar(received, ms);
    if o.pc == Idle && o.ok && o.asked == Control.SentBytes(ms) {
      Control.HostToServer(ms, received);
    }
  }

  /**
   At any moment of a run in which a stream is given the bytes of a push, the device has
   received a first part of them; once the last `write` succeeded, it reads them as the file.
   */
  lemma PushOverAdb(events: seq<WireEvent>, id: u32, max: nat, data: bytes, remote: bytes, mode: u32, mtime: u32)
    requires WireRun(events, max).Some? && Together(events, max) && 0 < max <= PacketCore.MAX_PAYLOAD
    requires HostOf(WireRun(events, max).value.net, id).own.asked <= Push.Pushed(data, remote, mode, mtime)
    ensures var w := WireRun(events, max).value;
            var o, got, all := HostOf(w.net, id).own, Flatten(DevOf(w.net, id).received),
                Push.Pushed(data, remote, mode, mtime);
            && got <= all
            && (o.pc == Idle && o.ok && o.asked == all && |Push.Spec(remote, mode)| < U32_MOD
                ==> var file := Push.File(remote, mode, Chunks(data, Push.RECORD_BYTES), mtime);
                    Push.ReadFile(got) == Some((file, |all|)))
  {
    hide WireRun, Together, Push.Pushed, Push.ReadFile, Push.Spec, Chunks, Flatten, InboundAsPromised, ReadsAsSent;
    WholePacketsArrive(events, id, max);
    Push.PushRoundTrip(data, remote, mode, mtime, []);
    var all := Push.Pushed(data, remote, mode, mtime);
    assert all + [] == all;
  }

  // ---- Device to host

  /** What the host is told in the end. */
  function Expected(h: Handshake, ms: seq<Message>): seq<Client.Out> {
    [Client.DeviceName(h.deviceName), Client.Reconfigure(h.codec, h.csd, h.width, h.height)] + Client.InterpretAll(ms)
  }

  /** A first part of the server's bytes, in any pieces, leads to a first part of the events. */
  lemma EventsSoFar(chunks: seq<bytes>, h: Handshake, ms: seq<Message>)
    requires EncodeHandshake(h).Ok? && h.version == VERSION && AllSendable(ms)
    requires Flatten(chunks) <= EncodeHandshake(h).value + EncodeAll(ms)
    ensures Client.OnChunks(Client.FRESH, chunks).outs <= Expected(h, ms)
  {
    hide Client.OnChunks, EncodeHandshake, EncodeAll, Client.ApplyHandshake, Client.Settled;
    var all := EncodeHandshake(h).value + EncodeAll(ms);
    var rest := all[|Flatten(chunks)|..];
    Complete(chunks, all);
    Client.EndToEnd(h, ms, chunks + [rest]);
    OnChunksAppend(Client.FRESH, chunks, [rest]);
  }

  /** The payloads read before the first that was turned away. */
  function BeforeLoss(h: Host): seq<bytes> {
    h.app.readLog[..Min(|h.app.readLog|, Leading(h.inbox.fate))]
  }

  lemma BeforeLossIsPrefix(h: Host)
    requires InboundAsPromised(h)
    ensures BeforeLoss(h) <= Payloads(h.inbox.taken)
    ensures AllTrue(h.inbox.fate) ==> BeforeLoss(h) == h.app.readLog
  {
    hide Payloads, OkaysOf, Answers, AllTrue, Leading;
    AdmittedBeforeLoss(Payloads(h.inbox.taken), h.inbox.fate);
    ReadCount(h);
    hide Admitted;
  }

  lemma ReadCount(h: Host)
    requires InboundAsPromised(h)
    ensures AllTrue(h.inbox.fate) ==> |h.app.readLog| <= |h.inbox.fate|
    ensures h.app.readLog <= Admitted(Payloads(h.inbox.taken), h.inbox.fate)
  {
    hide Payloads, OkaysOf, Answers;
    if AllTrue(h.inbox.fate) {
      AdmittedAll(Payloads(h.inbox.taken), h.inbox.fate);
    }
  }

  /**
   At any moment of any run, whatever other tasks write in between, what `read` has returned, up
   to the first payload that was turned away, makes the client report the first of the events
   the server's messages mean. None is turned away from an open stream whose queue always has
   room; then everything read counts, and all events are reported once everything has been read.
   */
  lemma EventsOverAdb(events: seq<WireEvent>, id: u32, max: nat, h: Handshake, ms: seq<Message>)
    requires WireRun(events, max).Some?
    requires EncodeHandshake(h).Ok? && h.version == VERSION && AllSendable(ms)
    requires var host := HostOf(WireRun(events, max).value.net, id);
             Flatten(Payloads(host.inbox.taken)) <= EncodeHandshake(h).value + EncodeAll(ms)
    ensures var host := HostOf(WireRun(events, max).value.net, id);
            && Client.OnChunks(Client.FRESH, BeforeLoss(host)).outs <= Expected(h, ms)
            && (OpenThroughout(events, id, max) && RoomThroughout(events, id, max)
                ==> BeforeLoss(host) == host.app.readLog)
            && (Flatten(BeforeLoss(host)) == EncodeHandshake(h).value + EncodeAll(ms)
                ==> Client.OnChunks(Client.FRESH, BeforeLoss(host)).outs == Expected(h, ms))
  {
    hide WireRun, RoomThroughout, OpenThroughout, Client.OnChunks, EncodeHandshake, EncodeAll, Client.ApplyHandshake,
         Client.Settled, Flatten, Payloads, HostInvariant, InboundAsPromised, BeforeLoss, AllTrue;
    var host := HostOf(WireRun(events, max).value.net, id);
    HostHolds(events, id, max);
    InboundFollows(host, Env(id, max));
    BeforeLossIsPrefix(host);
    if OpenThroughout(events, id, max) {
      NoneLostExactly(events, id, max);
    }
    FlattenPrefix(BeforeLoss(host), Payloads(host.inbox.taken));
    EventsSoFar(BeforeLoss(host), h, ms);
    if Flatten(BeforeLoss(host)) == EncodeHandshake(h).value + EncodeAll(ms) {
      Client.EndToEnd(h, ms, BeforeLoss(host));
    }
  }
}
