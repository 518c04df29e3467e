/**
 The id a stream holds for its remote end: exactly when one that is known is replaced. Runs of
 AdbHost, whatever the device sends.
 */
module AdbRemote {
  import opened Wrappers
  import opened Bytes
  import opened PacketCore
  import opened AdbHost

  predicate TakesOkay(e: Event) {
    e.Take? && e.packet.command == Okay
  }

  // ---- The ids a run has brought

  /** The ids of the OKAYs taken while the table holds the stream. */
  function Heard(events: seq<Event>, env: Env): seq<u32>
    requires Run(events, env).Some?
  {
    if events == [] then []
    else
      var front, e := events[..|events| - 1], events[|events| - 1];
      Heard(front, env) + (if TakesOkay(e) && Run(front, env).value.slot.inStreams then [e.packet.arg0] else [])
  }

  /** The reader's second step for an OKAY, while the OPEN has its waiter. */
  predicate HandsOver(h: Host, e: Event) {
    e == Finish && h.inbox.half.Some? && h.inbox.half.value.HalfOkay? && (h.own.pc.OpenSend? || h.own.pc.OpenWait?)
  }

  /** The ids of the OKAYs handed over to it. */
  function Handed(events: seq<Event>, env: Env): seq<u32>
    requires Run(events, env).Some?
  {
    if events == [] then []
    else
      var front, e := events[..|events| - 1], events[|events| - 1];
      var h := Run(front, env).value;
      Handed(front, env) + (if HandsOver(h, e) then [h.inbox.half.value.remote] else [])
  }

  /** The first id that is not 0. */
  function FirstKnown(ids: seq<u32>): u32 {
    if ids == [] then 0 else if ids[0] != 0 then ids[0] else FirstKnown(ids[1..])
  }

  lemma {:induction false} FirstKnownSnoc(ids: seq<u32>, id: u32)
    ensures FirstKnown(ids + [id]) == if FirstKnown(ids) != 0 then FirstKnown(ids) else id
  {
    if ids == [] {
      assert [id][1..] == [];
    } else {
      assert (ids + [id])[1..] == ids[1..] + [id];
      FirstKnownSnoc(ids[1..], id);
    }
  }

  // ---- Until the OPEN is answered

  /** The slot holds the first known id heard. */
  predicate SlotKnows(pc: Pc, s: Slot, heard: seq<u32>) {
    && (pc.Fresh? ==> s == INITIAL.slot && heard == [])
    && (pc.OpenRegister? || pc.OpenSend? || pc.OpenWait? ==> s.inStreams && s.remote == FirstKnown(heard))
  }

  /** The waiter gets the first id handed over. */
  predicate WaiterKnows(pc: Pc, w: Waiter, handed: seq<u32>) {
    && (pc.Fresh? || pc.OpenRegister? ==> w == INITIAL.waiter && handed == [])
    && (pc.OpenSend? || pc.OpenWait? ==>
          && (w.registered ==> w.ack == None && handed == [])
          && (w.ack.Some? && w.ack.value.AckOkay? ==> handed != [] && handed[0] == w.ack.value.remote))
  }

  predicate Opened(h: Host, heard: seq<u32>, handed: seq<u32>) {
    SlotKnows(h.own.pc, h.slot, heard) && WaiterKnows(h.own.pc, h.waiter, handed)
  }

  lemma SlotKnowsStep(h: Host, e: Event, env: Env, heard: seq<u32>)
    requires Enabled(h, e, env) && SlotKnows(h.own.pc, h.slot, heard)
    ensures SlotKnows(OwnerNext(h, e, env).pc, SlotNext(h, e, env),
                      heard + (if TakesOkay(e) && h.slot.inStreams then [e.packet.arg0] else []))
  {
    assert FirstKnown([]) == 0 && heard + [] == heard;
    if TakesOkay(e) {
      FirstKnownSnoc(heard, e.packet.arg0);
    }
    hide FirstKnown, WriteChunks;
  }

  lemma WaiterKnowsStep(h: Host, e: Event, env: Env, handed: seq<u32>)
    requires Enabled(h, e, env) && WaiterKnows(h.own.pc, h.waiter, handed)
    ensures WaiterKnows(OwnerNext(h, e, env).pc, WaiterNext(h, e, env),
                        handed + (if HandsOver(h, e) then [h.inbox.half.value.remote] else []))
  {
    hide WriteChunks;
    assert handed + [] == handed;
  }

  lemma {:induction false} OpenedRuns(events: seq<Event>, env: Env)
    requires Run(events, env).Some?
    ensures Opened(Run(events, env).value, Heard(events, env), Handed(events, env))
  {
    hide Enabled, OwnerNext, SlotNext, WaiterNext, AppNext, InboxNext, Output, TakesOkay, HandsOver;
    if events != [] {
      hide SlotKnows, WaiterKnows;
      var front, e := events[..|events| - 1], events[|events| - 1];
      OpenedRuns(front, env);
      var h := Run(front, env).value;
      SlotKnowsStep(h, e, env, Heard(front, env));
      WaiterKnowsStep(h, e, env, Handed(front, env));
    }
  }

  /**
   On every run: a known id is replaced exactly at the end of `open_stream`, when the first id
   handed over to its waiter is not the first known id the stream has heard.
   */
  lemma ReplacedExactly(events: seq<Event>, e: Event, env: Env)
    requires Run(events, env).Some? && Enabled(Run(events, env).value, e, env)
    requires Run(events, env).value.slot.remote != 0
    ensures var h := Run(events, env).value;
            SlotNext(h, e, env).remote != h.slot.remote <==>
              && e == OpenFinish && h.waiter.ack.value.AckOkay?
              && Handed(events, env) != [] && Handed(events, env)[0] != FirstKnown(Heard(events, env))
  {
    hide Run, Heard, Handed, FirstKnown;
    OpenedRuns(events, env);
  }

  // ---- When no OKAY comes before the OPEN has been sent

  /** Each OKAY is taken after the OPEN was sent. */
  predicate OkaysAfterOpen(events: seq<Event>) {
    events != [] ==>
      var front, e := events[..|events| - 1], events[|events| - 1];
      OkaysAfterOpen(front) && (TakesOkay(e) ==> DoOpenSend in front)
  }

  predicate OpenIsSent(pc: Pc) {
    !pc.Fresh? && !pc.OpenRegister? && !pc.OpenSend?
  }

  lemma {:induction false} SentIs(events: seq<Event>, env: Env)
    requires Run(events, env).Some?
    ensures OpenIsSent(Run(events, env).value.own.pc) <==> DoOpenSend in events
  {
    if events != [] {
      var front, e := events[..|events| - 1], events[|events| - 1];
      SentIs(front, env);
      SentStep(Run(front, env).value, e, env);
      hide Run;
      assert events == front + [e];
    }
  }

  lemma SentStep(h: Host, e: Event, env: Env)
    requires Enabled(h, e, env)
    ensures OpenIsSent(OwnerNext(h, e, env).pc) <==> OpenIsSent(h.own.pc) || e == DoOpenSend
  {
    hide WriteChunks;
  }

  function Ids(okays: seq<Sent>): (ids: seq<u32>)
    ensures |ids| == |okays| && forall i :: 0 <= i < |ids| ==> ids[i] == okays[i].arg0
  {
    if okays == [] then [] else [okays[0].arg0] + Ids(okays[1..])
  }

  /** The id the reader has taken and not yet handed over. */
  function IdInHand(b: Inbox): seq<u32> {
    if b.half.Some? && b.half.value.HalfOkay? then [b.half.value.remote] else []
  }

  /** Then all that was taken was heard and, but for the one in hand, handed over. */
  predicate AllHeard(h: Host, heard: seq<u32>, handed: seq<u32>) {
    && (!OpenIsSent(h.own.pc) ==>
          OkaysOf(h.inbox.taken) == [] && heard == [] && handed == [] && IdInHand(h.inbox) == [])
    && (h.own.pc.OpenWait? ==>
          heard == Ids(OkaysOf(h.inbox.taken)) && handed + IdInHand(h.inbox) == heard && h.slot.inStreams)
  }

  lemma IdsSnoc(okays: seq<Sent>, p: Sent)
    ensures Ids(okays + [p]) == Ids(okays) + [p.arg0]
  {
  }

  lemma AllHeardStep(h: Host, e: Event, env: Env, heard: seq<u32>, handed: seq<u32>)
    requires Enabled(h, e, env) && AllHeard(h, heard, handed) && Opened(h, heard, handed)
    requires TakesOkay(e) ==> OpenIsSent(h.own.pc)
    ensures AllHeard(Next(h, e, env),
                     heard + (if TakesOkay(e) && h.slot.inStreams then [e.packet.arg0] else []),
                     handed + (if HandsOver(h, e) then [h.inbox.half.value.remote] else []))
  {
    hide Ids, OkaysOf, FirstKnown, AppNext, Output, WriteChunks;
    var okays := OkaysOf(h.inbox.taken);
    assert heard + [] == heard && handed + [] == handed && okays + [] == okays;
    assert Ids([]) == [];
    if e.Take? {
      OkaysSnoc(h.inbox.taken, e.packet);
      IdsSnoc(okays, e.packet);
    }
  }

  lemma {:induction false} AllHeardRuns(events: seq<Event>, env: Env)
    requires Run(events, env).Some? && OkaysAfterOpen(events)
    ensures AllHeard(Run(events, env).value, Heard(events, env), Handed(events, env))
  {
    hide Next, Enabled, TakesOkay, HandsOver;
    if events == [] {
      assert Ids([]) == [];
    } else {
      hide AllHeard, Opened, OpenIsSent;
      var front, e := events[..|events| - 1], events[|events| - 1];
      AllHeardRuns(front, env);
      OpenedRuns(front, env);
      SentIs(front, env);
      AllHeardStep(Run(front, env).value, e, env, Heard(front, env), Handed(front, env));
    }
  }

  /**
   On every run in which the OPEN is sent before any OKAY comes: a known id is replaced, and so
   by the end of `open_stream`, exactly when the first OKAY has the id 0.
   */
  lemma ReplacedByFirstZero(events: seq<Event>, e: Event, env: Env)
    requires Run(events, env).Some? && Enabled(Run(events, env).value, e, env) && OkaysAfterOpen(events)
    requires Run(events, env).value.slot.remote != 0
    ensures var h := Run(events, env).value;
            var okays := OkaysOf(h.inbox.taken);
            SlotNext(h, e, env).remote != h.slot.remote <==>
              e == OpenFinish && h.waiter.ack.value.AckOkay? && okays != [] && okays[0].arg0 == 0
  {
    hide Run, Heard, Handed, OkaysOf;
    ReplacedExactly(events, e, env);
    OpenedRuns(events, env);
    AllHeardRuns(events, env);
  }

  // ---- Both ways to do it

  /** An OKAY before the OPEN is sent. */
  lemma EarlyOkay(env: Env) returns (r: seq<Event>, h: Host)
    ensures Run(r, env) == Some(h) && h.own.pc == OpenRegister([7]) && h.slot.remote == 9 && h.slot.inStreams
    ensures h.waiter == Waiter(false, None) && h.inbox.half == None
  {
    hide Run, Next, AppNext, Output;
    var nine := Sent(Okay, 9, env.local, []);
    RunEmpty(env);
    h := Goes([], OpenBegin([7]), INITIAL, OpenRegister([7]), 0, Waiter(false, None), None, env);
    r := [] + [OpenBegin([7])];
    h := Goes(r, Take(nine), h, OpenRegister([7]), 9, Waiter(false, None), Some(HalfOkay(9)), env);
    h := Goes(r + [Take(nine)], Finish, h, OpenRegister([7]), 9, Waiter(false, None), None, env);
    r := r + [Take(nine)] + [Finish];
  }

  lemma EarlyOkaySent(env: Env) returns (r: seq<Event>, h: Host)
    ensures Run(r, env) == Some(h) && h.own.pc == OpenWait && h.slot.remote == 9 && h.slot.inStreams
    ensures h.waiter == Waiter(true, None) && h.inbox.half == None
  {
    hide Run, Next, AppNext, Output;
    r, h := EarlyOkay(env);
    h := Goes(r, DoOpenRegister, h, OpenSend([7]), 9, Waiter(true, None), None, env);
    h := Goes(r + [DoOpenRegister], DoOpenSend, h, OpenWait, 9, Waiter(true, None), None, env);
    r := r + [DoOpenRegister] + [DoOpenSend];
  }

  /** And another id in the answer. */
  lemma EarlyOkayIsReplaced(env: Env) returns (r: seq<Event>, h: Host)
    ensures Run(r, env) == Some(h) && h.slot.remote == 9
    ensures Enabled(h, OpenFinish, env) && SlotNext(h, OpenFinish, env).remote == 5
  {
    hide Run, Next, AppNext, Output;
    var five := Sent(Okay, 5, env.local, []);
    r, h := EarlyOkaySent(env);
    h := Goes(r, Take(five), h, OpenWait, 9, Waiter(true, None), Some(HalfOkay(5)), env);
    h := Goes(r + [Take(five)], Finish, h, OpenWait, 9, Waiter(false, Some(AckOkay(5))), None, env);
    r := r + [Take(five)] + [Finish];
  }
}
