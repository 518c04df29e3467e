/**
 Multitouch protocol B: the events of `TouchSlots` (crates/server/src/inject.rs) and a
 consumer of them, after "Protocol Example B" of the Linux multi-touch-protocol document.
 */
module TouchCore {
  import opened Wrappers
  import opened Bytes
  import opened Rounding

  const SLOTS: nat := 10

  const EV_SYN: u16 := 0x00
  const EV_KEY: u16 := 0x01
  const EV_ABS: u16 := 0x03
  const SYN_REPORT: u16 := 0x00
  const ABS_MT_SLOT: u16 := 0x2F
  const ABS_MT_TOUCH_MAJOR: u16 := 0x30
  const ABS_MT_POSITION_X: u16 := 0x35
  const ABS_MT_POSITION_Y: u16 := 0x36
  const ABS_MT_TRACKING_ID: u16 := 0x39
  const ABS_MT_PRESSURE: u16 := 0x3A
  const BTN_TOUCH: u16 := 0x14A

  const ACTION_DOWN: byte := 0
  const ACTION_UP: byte := 1
  const ACTION_MOVE: byte := 2
  const ACTION_CANCEL: byte := 3

  datatype Ev = Ev(kind: u16, code: u16, value: i32)

  datatype TouchCall = TouchCall(action: byte, id: byte, x: i32, y: i32, pressure: u16)

  // ---- The emitter

  function SlotOf(id: byte): (s: nat)
    ensures s < SLOTS
  {
    Min(id as int, 9)
  }

  predicate Lifts(action: byte) { action == ACTION_UP || action == ACTION_CANCEL }
  predicate Touches(action: byte) { action == ACTION_DOWN || action == ACTION_MOVE }
  predicate Known(action: byte) { Lifts(action) || Touches(action) }

  function SomeDown(down: seq<bool>): bool {
    exists i :: 0 <= i < |down| && down[i]
  }

  function NextDown(down: seq<bool>, call: TouchCall): (r: seq<bool>)
    requires |down| == SLOTS
    ensures |r| == SLOTS
  {
    if Known(call.action) then down[SlotOf(call.id) := Touches(call.action)] else down
  }

  function Events(down: seq<bool>, call: TouchCall): seq<Ev>
    requires |down| == SLOTS
  {
    if !Known(call.action) then []
    else
      var slot := SlotOf(call.id);
      [Ev(EV_ABS, ABS_MT_SLOT, slot)]
      + (if Lifts(call.action) then [Ev(EV_ABS, ABS_MT_TRACKING_ID, -1)]
         else
           (if call.action == ACTION_DOWN || !down[slot] then [Ev(EV_ABS, ABS_MT_TRACKING_ID, slot)] else [])
           + [Ev(EV_ABS, ABS_MT_POSITION_X, call.x), Ev(EV_ABS, ABS_MT_POSITION_Y, call.y),
              Ev(EV_ABS, ABS_MT_PRESSURE, Min(call.pressure, 255)), Ev(EV_ABS, ABS_MT_TOUCH_MAJOR, 6)])
      + [Ev(EV_KEY, BTN_TOUCH, if SomeDown(NextDown(down, call)) then 1 else 0), Ev(EV_SYN, SYN_REPORT, 0)]
  }

  function EventsOf(down: seq<bool>, calls: seq<TouchCall>): seq<Ev>
    requires |down| == SLOTS
    decreases |calls|
  {
    if calls == [] then [] else Events(down, calls[0]) + EventsOf(NextDown(down, calls[0]), calls[1..])
  }

  // ---- A consumer

  datatype Contact = Contact(tracking: int, x: int, y: int, pressure: int, major: int)

  datatype Consumer = Consumer(slot: nat, contacts: seq<Contact>, button: bool)

  /** What a consumer reports at a SYN: the tracked contacts, slot by slot, and the button. */
  datatype Report = Report(fingers: seq<Option<Contact>>, button: bool)

  predicate WellFormed(c: Consumer) {
    c.slot < SLOTS && |c.contacts| == SLOTS
  }

  function Tracked(k: Contact): Option<Contact> {
    if k.tracking >= 0 then Some(k) else None
  }

  function Fingers(c: Consumer): (f: seq<Option<Contact>>)
    ensures |f| == |c.contacts|
    ensures forall i :: 0 <= i < |f| ==> f[i] == Tracked(c.contacts[i])
  {
    seq(|c.contacts|, i requires 0 <= i < |c.contacts| => Tracked(c.contacts[i]))
  }

  function Put(c: Consumer, k: Contact): Consumer
    requires WellFormed(c)
  {
    c.(contacts := c.contacts[c.slot := k])
  }

  /**
   Values apply to the current slot; a slot number out of range is ignored. The numbers are
   those of Linux's input-event-codes.h.
   */
  function Consume(c: Consumer, e: Ev): (r: Consumer)
    requires WellFormed(c)
    ensures WellFormed(r)
  {
    var k := c.contacts[c.slot];
    if e.kind == 0x01 then (if e.code == 0x14A then c.(button := e.value != 0) else c)
    else if e.kind != 0x03 then c
    else if e.code == 0x2F then (if 0 <= e.value < 10 then c.(slot := e.value) else c)
    else if e.code == 0x39 then Put(c, k.(tracking := e.value))
    else if e.code == 0x35 then Put(c, k.(x := e.value))
    else if e.code == 0x36 then Put(c, k.(y := e.value))
    else if e.code == 0x3A then Put(c, k.(pressure := e.value))
    else if e.code == 0x30 then Put(c, k.(major := e.value))
    else c
  }

  function Replay(c: Consumer, evs: seq<Ev>): (r: Consumer)
    requires WellFormed(c)
    ensures WellFormed(r)
    decreases |evs|
  {
    if evs == [] then c else Replay(Consume(c, evs[0]), evs[1..])
  }

  /** A SYN_REPORT. */
  predicate Ends(e: Ev) {
    e.kind == 0x00 && e.code == 0
  }

  /** What is reported, SYN by SYN. */
  function Reports(c: Consumer, evs: seq<Ev>): seq<Report>
    requires WellFormed(c)
    decreases |evs|
  {
    if evs == [] then []
    else
      var next := Consume(c, evs[0]);
      (if Ends(evs[0]) then [Report(Fingers(next), next.button)] else []) + Reports(next, evs[1..])
  }

  // ---- The intention

  type Hand = seq<Option<Contact>>

  /** Where the fingers are meant to be after a call. */
  function NextHand(h: Hand, call: TouchCall): (r: Hand)
    requires |h| == SLOTS
    ensures |r| == SLOTS
  {
    var slot := SlotOf(call.id);
    if Lifts(call.action) then h[slot := None]
    else if Touches(call.action) then h[slot := Some(Contact(slot, call.x, call.y, Min(call.pressure, 255), 6))]
    else h
  }

  predicate SomeFinger(h: Hand) {
    exists i :: 0 <= i < |h| && h[i].Some?
  }

  /** One report for each call with a known action: the fingers then, and whether any is down. */
  function Intended(h: Hand, calls: seq<TouchCall>): seq<Report>
    requires |h| == SLOTS
    decreases |calls|
  {
    if calls == [] then []
    else
      var next := NextHand(h, calls[0]);
      (if Known(calls[0].action) then [Report(next, SomeFinger(next))] else []) + Intended(next, calls[1..])
  }

  // ---- Agreement

  predicate Agree(down: seq<bool>, c: Consumer, h: Hand) {
    && |down| == SLOTS && |h| == SLOTS && WellFormed(c)
    && (forall i :: 0 <= i < SLOTS ==> (down[i] <==> h[i].Some?))
    && (forall i :: 0 <= i < SLOTS ==> h[i].Some? ==> h[i].value.tracking == i)
    && Fingers(c) == h
  }

  lemma {:induction false} ReplayAppend(c: Consumer, a: seq<Ev>, b: seq<Ev>)
    requires WellFormed(c)
    ensures Replay(c, a + b) == Replay(Replay(c, a), b)
    ensures Reports(c, a + b) == Reports(c, a) + Reports(Replay(c, a), b)
    decreases |a|
  {
    hide Consume;
    if a == [] {
      assert a + b == b;
    } else {
      ReplayAppend(Consume(c, a[0]), a[1..], b);
      assert (a + b)[0] == a[0] && (a + b)[1..] == a[1..] + b;
    }
  }

  lemma ReplayCons(c: Consumer, e: Ev, rest: seq<Ev>)
    requires WellFormed(c)
    ensures Replay(c, [e] + rest) == Replay(Consume(c, e), rest)
    ensures Reports(c, [e] + rest)
         == (if Ends(e) then [Report(Fingers(Consume(c, e)), Consume(c, e).button)] else [])
            + Reports(Consume(c, e), rest)
  {
    hide Consume;
    assert ([e] + rest)[1..] == rest;
  }

  /** The end of every packet: the button, then the one SYN. */
  lemma PacketEnds(c: Consumer, button: i32)
    requires WellFormed(c)
    ensures var evs := [Ev(EV_KEY, BTN_TOUCH, button)] + [Ev(EV_SYN, SYN_REPORT, 0)];
            && Replay(c, evs) == c.(button := button != 0)
            && Reports(c, evs) == [Report(Fingers(c), button != 0)]
  {
    var syn := [Ev(EV_SYN, SYN_REPORT, 0)];
    ReplayCons(c, Ev(EV_KEY, BTN_TOUCH, button), syn);
    var d := c.(button := button != 0);
    ReplayCons(d, syn[0], []);
    assert syn + [] == syn;
  }

  /** A lifted finger: its slot, and tracking id -1. */
  lemma LiftReplays(c: Consumer, slot: nat, rest: seq<Ev>)
    requires WellFormed(c) && slot < SLOTS
    ensures var d := Consumer(slot, c.contacts[slot := c.contacts[slot].(tracking := -1)], c.button);
            var evs := [Ev(EV_ABS, ABS_MT_SLOT, slot)] + ([Ev(EV_ABS, ABS_MT_TRACKING_ID, -1)] + rest);
            Replay(c, evs) == Replay(d, rest) && Reports(c, evs) == Reports(d, rest)
  {
    var e := Ev(EV_ABS, ABS_MT_TRACKING_ID, -1);
    ReplayCons(c, Ev(EV_ABS, ABS_MT_SLOT, slot), [e] + rest);
    ReplayCons(c.(slot := slot), e, rest);
  }

  /** The values of a touching finger, in the current slot. */
  lemma ValuesReplay(c: Consumer, x: i32, y: i32, p: i32, rest: seq<Ev>)
    requires WellFormed(c)
    ensures var d := Put(c, Contact(c.contacts[c.slot].tracking, x, y, p, 6));
            var evs := [Ev(EV_ABS, ABS_MT_POSITION_X, x)] + ([Ev(EV_ABS, ABS_MT_POSITION_Y, y)]
                       + ([Ev(EV_ABS, ABS_MT_PRESSURE, p)] + ([Ev(EV_ABS, ABS_MT_TOUCH_MAJOR, 6)] + rest)));
            Replay(c, evs) == Replay(d, rest) && Reports(c, evs) == Reports(d, rest)
  {
    hide Replay, Reports, Fingers;
    var (ex, ey) := (Ev(EV_ABS, ABS_MT_POSITION_X, x), Ev(EV_ABS, ABS_MT_POSITION_Y, y));
    var (ep, em) := (Ev(EV_ABS, ABS_MT_PRESSURE, p), Ev(EV_ABS, ABS_MT_TOUCH_MAJOR, 6));
    var c1 := Consume(c, ex);
    ReplayCons(c, ex, [ey] + ([ep] + ([em] + rest)));
    var c2 := Consume(c1, ey);
    ReplayCons(c1, ey, [ep] + ([em] + rest));
    var c3 := Consume(c2, ep);
    ReplayCons(c2, ep, [em] + rest);
    ReplayCons(c3, em, rest);
    ValuesConsumed(c, ex, ey, ep, em);
  }

  lemma ValuesConsumed(c: Consumer, ex: Ev, ey: Ev, ep: Ev, em: Ev)
    requires WellFormed(c) && ex.kind == ey.kind == ep.kind == em.kind == EV_ABS
    requires ex.code == ABS_MT_POSITION_X && ey.code == ABS_MT_POSITION_Y
    requires ep.code == ABS_MT_PRESSURE && em.code == ABS_MT_TOUCH_MAJOR
    ensures Consume(Consume(Consume(Consume(c, ex), ey), ep), em)
         == Put(c, Contact(c.contacts[c.slot].tracking, ex.value, ey.value, ep.value, em.value))
  {
  }

  lemma TouchEvents(down: seq<bool>, call: TouchCall, button: i32)
    requires |down| == SLOTS && Touches(call.action)
    requires button == if SomeDown(NextDown(down, call)) then 1 else 0
    ensures var slot := SlotOf(call.id);
            var end := [Ev(EV_KEY, BTN_TOUCH, button)] + [Ev(EV_SYN, SYN_REPORT, 0)];
            var values := [Ev(EV_ABS, ABS_MT_POSITION_X, call.x)] + ([Ev(EV_ABS, ABS_MT_POSITION_Y, call.y)]
                          + ([Ev(EV_ABS, ABS_MT_PRESSURE, Min(call.pressure, 255))]
                             + ([Ev(EV_ABS, ABS_MT_TOUCH_MAJOR, 6)] + end)));
            Events(down, call) == [Ev(EV_ABS, ABS_MT_SLOT, slot)]
              + (if call.action == ACTION_DOWN || !down[slot]
                 then [Ev(EV_ABS, ABS_MT_TRACKING_ID, slot)] + values else values)
  {
    hide SomeDown, NextDown;
  }

  lemma TouchReplays(down: seq<bool>, c: Consumer, h: Hand, call: TouchCall)
    requires Agree(down, c, h) && Touches(call.action)
    ensures var slot, p := SlotOf(call.id), Min(call.pressure, 255);
            var d := Consumer(slot, c.contacts[slot := Contact(slot, call.x, call.y, p, 6)], c.button);
            var button := if SomeDown(NextDown(down, call)) then 1 else 0;
            Replay(c, Events(down, call)) == d.(button := button != 0)
            && Reports(c, Events(down, call)) == [Report(Fingers(d), button != 0)]
  {
    var slot, p := SlotOf(call.id), Min(call.pressure, 255);
    var button := if SomeDown(NextDown(down, call)) then 1 else 0;
    var end := [Ev(EV_KEY, BTN_TOUCH, button)] + [Ev(EV_SYN, SYN_REPORT, 0)];
    var values := [Ev(EV_ABS, ABS_MT_POSITION_X, call.x)] + ([Ev(EV_ABS, ABS_MT_POSITION_Y, call.y)]
                  + ([Ev(EV_ABS, ABS_MT_PRESSURE, p)] + ([Ev(EV_ABS, ABS_MT_TOUCH_MAJOR, 6)] + end)));
    var first, track := Ev(EV_ABS, ABS_MT_SLOT, slot), Ev(EV_ABS, ABS_MT_TRACKING_ID, slot);
    var c1 := c.(slot := slot);
    var c2 := Put(c1, c1.contacts[slot].(tracking := slot));
    hide Replay, Reports, SomeDown, NextDown;
    TouchEvents(down, call, button);
    hide Events;
    if call.action == ACTION_DOWN || !down[slot] {
      ReplayCons(c, first, [track] + values);
      ReplayCons(c1, track, values);
    } else {
      ReplayCons(c, first, values);
      assert Fingers(c)[slot].Some? && Fingers(c)[slot].value.tracking == slot;
      assert c2 == c1;
    }
    ValuesReplay(c2, call.x, call.y, p, end);
    PacketEnds(Put(c2, Contact(slot, call.x, call.y, p, 6)), button);
  }

  lemma LiftedReplays(down: seq<bool>, c: Consumer, call: TouchCall)
    requires WellFormed(c) && |down| == SLOTS && Lifts(call.action)
    ensures var slot := SlotOf(call.id);
            var d := Consumer(slot, c.contacts[slot := c.contacts[slot].(tracking := -1)], c.button);
            var button := if SomeDown(NextDown(down, call)) then 1 else 0;
            Replay(c, Events(down, call)) == d.(button := button != 0)
            && Reports(c, Events(down, call)) == [Report(Fingers(d), button != 0)]
  {
    var slot := SlotOf(call.id);
    var button := if SomeDown(NextDown(down, call)) then 1 else 0;
    var end := [Ev(EV_KEY, BTN_TOUCH, button)] + [Ev(EV_SYN, SYN_REPORT, 0)];
    assert Events(down, call) == [Ev(EV_ABS, ABS_MT_SLOT, slot)] + ([Ev(EV_ABS, ABS_MT_TRACKING_ID, -1)] + end);
    LiftReplays(c, slot, end);
    PacketEnds(Consumer(slot, c.contacts[slot := c.contacts[slot].(tracking := -1)], c.button), button);
  }

  /** One call: the consumer follows, and reports what is intended, once. */
  lemma CallMatches(down: seq<bool>, c: Consumer, h: Hand, call: TouchCall)
    requires Agree(down, c, h)
    ensures Agree(NextDown(down, call), Replay(c, Events(down, call)), NextHand(h, call))
    ensures Reports(c, Events(down, call))
         == (if Known(call.action) then [Report(NextHand(h, call), SomeFinger(NextHand(h, call)))] else [])
  {
    var slot := SlotOf(call.id);
    var down', h' := NextDown(down, call), NextHand(h, call);
    assert SomeDown(down') == SomeFinger(h') by {
      assert forall i :: 0 <= i < SLOTS ==> (down'[i] <==> h'[i].Some?);
    }
    hide Replay, Reports, Events;
    if Lifts(call.action) {
      LiftedReplays(down, c, call);
      FingersUpdate(c, slot, c.contacts[slot].(tracking := -1), SomeDown(down'));
      FingersUpdate(c, slot, c.contacts[slot].(tracking := -1), c.button);
    } else if Touches(call.action) {
      TouchReplays(down, c, h, call);
      FingersUpdate(c, slot, Contact(slot, call.x, call.y, Min(call.pressure, 255), 6), SomeDown(down'));
      FingersUpdate(c, slot, Contact(slot, call.x, call.y, Min(call.pressure, 255), 6), c.button);
    }
  }

  lemma FingersUpdate(c: Consumer, slot: nat, k: Contact, button: bool)
    requires WellFormed(c) && slot < SLOTS
    ensures Fingers(Consumer(slot, c.contacts[slot := k], button)) == Fingers(c)[slot := Tracked(k)]
  {
  }

  /**
   Over every run of touch calls, the consumer reports at each SYN exactly the intended
   fingers, in their slots, and the button while any of them is down.
   */
  lemma {:induction false} RunMatches(down: seq<bool>, c: Consumer, h: Hand, calls: seq<TouchCall>)
    requires Agree(down, c, h)
    ensures Reports(c, EventsOf(down, calls)) == Intended(h, calls)
    decreases |calls|
  {
    if calls != [] {
      CallMatches(down, c, h, calls[0]);
      ReplayAppend(c, Events(down, calls[0]), EventsOf(NextDown(down, calls[0]), calls[1..]));
      RunMatches(NextDown(down, calls[0]), Replay(c, Events(down, calls[0])), NextHand(h, calls[0]), calls[1..]);
    }
  }

  /** The same calls with every id above 9 replaced by 9. */
  function Shared(calls: seq<TouchCall>): seq<TouchCall> {
    if calls == [] then []
    else [calls[0].(id := if calls[0].id > 9 then 9 else calls[0].id)] + Shared(calls[1..])
  }

  /** Fingers with ids above 9 are one finger. */
  lemma {:induction false} HighIdsAreOneFinger(down: seq<bool>, calls: seq<TouchCall>)
    requires |down| == SLOTS
    ensures EventsOf(down, calls) == EventsOf(down, Shared(calls))
    decreases |calls|
  {
    if calls != [] {
      var first := Shared(calls)[0];
      assert SlotOf(first.id) == SlotOf(calls[0].id);
      assert Events(down, first) == Events(down, calls[0]) && NextDown(down, first) == NextDown(down, calls[0]);
      hide Events, NextDown;
      HighIdsAreOneFinger(NextDown(down, calls[0]), calls[1..]);
    }
  }

  // ---- The fingers by id

  /** Ids 0 to 8 are a finger each; all others are the finger of slot 9. */
  predicate IsFinger(id: byte, k: nat) {
    if k < 9 then id as nat == k else id >= 9
  }

  /** Down 0, Up 1, Move 2, Cancel 3. */
  predicate Counts(call: TouchCall) {
    call.action <= 3
  }

  /** A finger is where its last call put it, unless that lifted it. */
  function FingerOf(calls: seq<TouchCall>, k: nat): Option<Contact> {
    if calls == [] then None
    else
      var last := calls[|calls| - 1];
      if !Counts(last) || !IsFinger(last.id, k) then FingerOf(calls[..|calls| - 1], k)
      else if last.action == 0 || last.action == 2 then
        Some(Contact(k, last.x, last.y, if last.pressure > 255 then 255 else last.pressure as int, 6))
      else None
  }

  function HandOf(calls: seq<TouchCall>): (h: Hand)
    ensures |h| == 10 && forall k :: 0 <= k < 10 ==> h[k] == FingerOf(calls, k)
  {
    seq(10, k requires 0 <= k < 10 => FingerOf(calls, k))
  }

  /** After each call that counts: all ten fingers, and whether any is down. */
  function ByFinger(calls: seq<TouchCall>): seq<Report> {
    if calls == [] then []
    else
      ByFinger(calls[..|calls| - 1])
      + (if Counts(calls[|calls| - 1])
         then [Report(HandOf(calls), exists k :: 0 <= k < 10 && FingerOf(calls, k).Some?)] else [])
  }

  lemma HandIsNext(calls: seq<TouchCall>, call: TouchCall)
    ensures HandOf(calls + [call]) == NextHand(HandOf(calls), call)
  {
    var all := calls + [call];
    assert all[..|calls|] == calls && all[|calls|] == call;
    forall k | 0 <= k < 10
      ensures HandOf(all)[k] == NextHand(HandOf(calls), call)[k]
    {
    }
  }

  lemma ByFingerSnoc(calls: seq<TouchCall>, call: TouchCall)
    ensures ByFinger(calls + [call]) == ByFinger(calls)
         + (if Known(call.action)
            then [Report(NextHand(HandOf(calls), call), SomeFinger(NextHand(HandOf(calls), call)))] else [])
  {
    var all := calls + [call];
    HandIsNext(calls, call);
    assert all[..|calls|] == calls && all[|calls|] == call;
    assert SomeFinger(HandOf(all)) <==> exists k :: 0 <= k < 10 && FingerOf(all, k).Some? by {
      if SomeFinger(HandOf(all)) {
        var k :| 0 <= k < 10 && HandOf(all)[k].Some?;
        assert FingerOf(all, k).Some?;
      }
      if exists k :: 0 <= k < 10 && FingerOf(all, k).Some? {
        var k :| 0 <= k < 10 && FingerOf(all, k).Some?;
        assert HandOf(all)[k].Some?;
      }
    }
  }

  lemma {:induction false} IntendedByFinger(done: seq<TouchCall>, calls: seq<TouchCall>)
    ensures ByFinger(done + calls) == ByFinger(done) + Intended(HandOf(done), calls)
    decreases |calls|
  {
    if calls == [] {
      assert done + [] == done;
      assert ByFinger(done) + [] == ByFinger(done);
    } else {
      ByFingerSnoc(done, calls[0]);
      HandIsNext(done, calls[0]);
      IntendedByFinger(done + [calls[0]], calls[1..]);
      assert done + [calls[0]] + calls[1..] == done + calls;
      hide ByFinger, HandOf, NextHand, SomeFinger, Known;
      var h := NextHand(HandOf(done), calls[0]);
      var first := if Known(calls[0].action) then [Report(h, SomeFinger(h))] else [];
      AssocReports(ByFinger(done), first, Intended(h, calls[1..]));
    }
  }

  lemma AssocReports(a: seq<Report>, b: seq<Report>, c: seq<Report>)
    ensures a + (b + c) == a + b + c
  {
  }

  const ALL_UP: seq<bool> := [false, false, false, false, false, false, false, false, false, false]
  const NO_HAND: Hand := [None, None, None, None, None, None, None, None, None, None]

  /**
   From a new device and a consumer that tracks nothing: at each SYN it reports, slot by slot,
   the ten fingers as their own last calls left them.
   */
  lemma EveryRunIsReported(c: Consumer, calls: seq<TouchCall>)
    requires WellFormed(c) && forall i :: 0 <= i < SLOTS ==> c.contacts[i].tracking < 0
    ensures Reports(c, EventsOf(ALL_UP, calls)) == ByFinger(calls)
  {
    assert Fingers(c) == NO_HAND;
    RunMatches(ALL_UP, c, NO_HAND, calls);
    assert HandOf([]) == NO_HAND && ByFinger([]) == [];
    IntendedByFinger([], calls);
    assert [] + calls == calls;
  }
}
