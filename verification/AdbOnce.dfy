/**
 The writes of a stream's packets, however the writes of all tasks interleave: each packet the
 stream has sent had one header written, and there is at most one header without its packet.
 Every byte-level run of AdbWire.
 */
module AdbOnce {
  import opened Wrappers
  import opened Bytes
  import opened PacketCore
  import opened AdbHost
  import opened AdbCalls
  import opened AdbLink
  import opened AdbNet
  import opened AdbReader
  import opened AdbWire

  /**
   The headers begun are those of the packets sent, each once, and of the one halfway, which is
   still what the task is about to send.
   */
  predicate Once(h: Host, begun: seq<Sent>, half: Option<Sent>, env: Env) {
    && HasEnd(h.own.pc, h.slot)
    && match half
       case None => multiset(begun) == multiset(h.sent)
       case Some(p) =>
         multiset(begun) == multiset(h.sent) + multiset{p} && Sends(h) && p == ToSend(h, env) && p.data != []
  }

  // ---- One stream

  lemma NextIs(h: Host, m: Event, env: Env)
    requires Enabled(h, m, env)
    ensures Next(h, m, env).sent == h.sent + Output(h, m, env)
    ensures Next(h, m, env).own == OwnerNext(h, m, env) && Next(h, m, env).slot == SlotNext(h, m, env)
  {
    hide OwnerNext, SlotNext, WaiterNext, AppNext, InboxNext, Output, Enabled;
  }

  lemma EndIsKnown(h: Host)
    requires HasEnd(h.own.pc, h.slot)
    ensures h.own.pc.WriteSend? ==> h.slot.remote != 0
  {
  }

  lemma ActsOnce(h: Host, m: Event, begun: seq<Sent>, half: Option<Sent>, env: Env)
    requires Once(h, begun, half, env) && Enabled(h, m, env) && (half.Some? ==> !IsSend(m))
    ensures Once(Next(h, m, env), begun + Output(h, m, env), half, env)
  {
    hide Enabled, Next, Output, HasEnd, Sends, ToSend, IsSend;
    HasEndStep(h, m, env);
    NextIs(h, m, env);
    if half.Some? {
      EndIsKnown(h);
      StillSends(h, m, env);
    }
  }

  lemma HeaderOnce(h: Host, begun: seq<Sent>, env: Env)
    requires Once(h, begun, None, env) && Sends(h) && ToSend(h, env).data != []
    ensures Once(h, begun + [ToSend(h, env)], Some(ToSend(h, env)), env)
  {
    hide HasEnd, Sends, ToSend;
  }

  lemma PayloadOnce(h: Host, begun: seq<Sent>, p: Sent, env: Env)
    requires Once(h, begun, Some(p), env)
    ensures Once(Next(h, SendStep(h), env), begun, None, env)
  {
    SendsItsStep(h, env);
    hide Enabled, Next, HasEnd, Sends, ToSend, SendStep;
    HasEndStep(h, SendStep(h), env);
    NextIs(h, SendStep(h), env);
  }

  lemma SendsItsStep(h: Host, env: Env)
    requires Sends(h)
    ensures Enabled(h, SendStep(h), env) && Output(h, SendStep(h), env) == [ToSend(h, env)]
  {
  }

  /** A packet that is sent in one write has no payload, so none is halfway. */
  lemma NoneHalfway(h: Host, m: Event, begun: seq<Sent>, half: Option<Sent>, env: Env)
    requires Once(h, begun, half, env) && Enabled(h, m, env)
    requires IsSend(m) ==> ToSend(h, env).data == []
    ensures half.Some? ==> !IsSend(m)
  {
    hide HasEnd, ToSend;
  }

  // ---- Among the others

  function Begun(w: Wire, id: u32): seq<Sent> {
    Outgoing(w.sent, id)
  }

  function Halfway(w: Wire, id: u32): Option<Sent> {
    if id in w.halves then Some(w.halves[id]) else None
  }

  predicate OnceIn(w: Wire, id: u32, max: nat) {
    Once(HostOf(w.net, id), Begun(w, id), Halfway(w, id), Env(id, max))
  }

  /** A step of one task or of the reader, its packet, if any, in one write. */
  lemma ActsOnceIn(w: Wire, v: Wire, who: u32, m: Event, id: u32, max: nat)
    requires OnceIn(w, id, max) && Enabled(HostOf(w.net, who), m, Env(who, max))
    requires who == id ==> Halfway(w, id).Some? ==> !IsSend(m)
    requires v.net.hosts == w.net.hosts[who := Next(HostOf(w.net, who), m, Env(who, max))] && v.halves == w.halves
    requires v.sent == w.sent + Output(HostOf(w.net, who), m, Env(who, max))
    ensures OnceIn(v, id, max)
  {
    hide Enabled, Next, Output, Once, Outgoing;
    var h, env := HostOf(w.net, who), Env(who, max);
    OutputIsOwn(h, m, env);
    OutgoingAppend(w.sent, Output(h, m, env), who, id);
    if who == id {
      ActsOnce(h, m, Begun(w, id), Halfway(w, id), env);
    } else {
      assert Outgoing(w.sent, id) + [] == Outgoing(w.sent, id);
    }
  }

  lemma HeaderOnceIn(w: Wire, who: u32, id: u32, max: nat)
    requires OnceIn(w, id, max) && WireEnabled(w, WritesHeader(who), max)
    ensures OnceIn(HeaderWritten(w, who, ToSend(HostOf(w.net, who), Env(who, max))), id, max)
  {
    hide HeaderOf, Outgoing, Once, Sends, ToSend;
    var h, env := HostOf(w.net, who), Env(who, max);
    var p := ToSend(h, env);
    SendsItsStep(h, env);
    OutputIsOwn(h, SendStep(h), env);
    OutgoingAppend(w.sent, [p], who, id);
    if who == id {
      HeaderOnce(h, Begun(w, id), env);
    } else {
      assert Outgoing(w.sent, id) + [] == Outgoing(w.sent, id);
    }
  }

  lemma PayloadOnceIn(w: Wire, who: u32, id: u32, max: nat)
    requires OnceIn(w, id, max) && WireEnabled(w, WritesPayload(who), max)
    ensures OnceIn(PayloadWritten(w, who, max), id, max)
  {
    hide Outgoing, Once, Next, Sends;
    if who == id {
      PayloadOnce(HostOf(w.net, id), Begun(w, id), w.halves[id], Env(id, max));
    }
  }

  lemma MovesOnceIn(w: Wire, who: u32, m: Event, id: u32, max: nat)
    requires OnceIn(w, id, max) && WireEnabled(w, Moves(who, m), max)
    ensures OnceIn(Acts(w, who, m, max), id, max)
  {
    hide Next, Output, Enabled, Once, ToSend;
    if who == id {
      NoneHalfway(HostOf(w.net, id), m, Begun(w, id), Halfway(w, id), Env(id, max));
    }
    ActsOnceIn(w, Acts(w, who, m, max), who, m, id, max);
  }

  lemma TakesOnceIn(w: Wire, id: u32, max: nat)
    requires OnceIn(w, id, max) && WireEnabled(w, Takes, max)
    ensures OnceIn(WireNext(w, Takes, max), id, max)
  {
    ReaderActs(w.net, max);
    hide Next, Output, Enabled, OnceIn;
    ActsOnceIn(w, WireNext(w, Takes, max), w.net.toHost[0].arg1, Take(w.net.toHost[0]), id, max);
  }

  lemma FinishesOnceIn(w: Wire, id: u32, max: nat)
    requires OnceIn(w, id, max) && WireEnabled(w, Finishes, max)
    ensures OnceIn(WireNext(w, Finishes, max), id, max)
  {
    ReaderActs(w.net, max);
    hide Next, Output, Enabled, OnceIn;
    ActsOnceIn(w, WireNext(w, Finishes, max), w.net.reader.value, Finish, id, max);
  }

  lemma SameOnceIn(w: Wire, v: Wire, id: u32, max: nat)
    requires OnceIn(w, id, max) && v.net.hosts == w.net.hosts && v.halves == w.halves && v.sent == w.sent
    ensures OnceIn(v, id, max)
  {
    hide Outgoing, Once;
  }

  lemma OnceStep(w: Wire, e: WireEvent, id: u32, max: nat)
    requires WireEnabled(w, e, max) && OnceIn(w, id, max)
    ensures OnceIn(WireNext(w, e, max), id, max)
  {
    hide Next, Output, Enabled, OnceIn, HeaderWritten, PayloadWritten, DevNext, DevReplies, Sends, ToSend;
    match e
    case Spawns(dest) => ActsOnceIn(w, WireNext(w, e, max), LocalId(w.net.handedOut), OpenBegin(dest), id, max);
    case Moves(i, m) => MovesOnceIn(w, i, m, id, max);
    case WritesHeader(i) => HeaderOnceIn(w, i, id, max);
    case WritesPayload(i) => PayloadOnceIn(w, i, id, max);
    case Takes => TakesOnceIn(w, id, max);
    case Finishes => FinishesOnceIn(w, id, max);
    case _ => SameOnceIn(w, WireNext(w, e, max), id, max);
  }

  lemma OnceAtStart(id: u32, max: nat)
    ensures OnceIn(QUIET, id, max)
  {
  }

  /** On every byte-level run, however the writes interleave, and for every stream. */
  lemma {:induction false} OneHeaderEach(events: seq<WireEvent>, id: u32, max: nat)
    requires WireRun(events, max).Some?
    ensures OnceIn(WireRun(events, max).value, id, max)
  {
    hide WireNext, WireEnabled, OnceIn;
    if events == [] {
      OnceAtStart(id, max);
    } else {
      OneHeaderEach(events[..|events| - 1], id, max);
      OnceStep(WireRun(events[..|events| - 1], max).value, events[|events| - 1], id, max);
    }
  }
}
