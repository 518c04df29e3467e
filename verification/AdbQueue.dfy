/**
 The inbound queue of one stream: when a payload is turned away although it has been answered,
 and when `read` reports Closed although payloads are queued. Runs of AdbHost, whatever the
 device sends.
 */
module AdbQueue {
  import opened Wrappers
  import opened Bytes
  import opened PacketCore
  import opened AdbHost

  // ---- Reads that find the stream closed

  predicate ReportsClosed(h: Host, e: Event, env: Env)
    requires Enabled(h, e, env)
  {
    |AppNext(h, e, env).closed| > |h.app.closed|
  }

  /**
   With payloads queued, a step reports Closed exactly when it is a `read` that begins after
   the stream has left the table.
   */
  lemma ClosedWithPayloadsQueued(h: Host, e: Event, env: Env)
    requires HostInvariant(h, env) && Enabled(h, e, env) && h.slot.queue != []
    ensures ReportsClosed(h, e, env) <==> e == ReadBegin && !InUse(h.own.pc)
  {
    hide Payloads, Admitted, Answered, Chunked, Attended;
  }

  /** The stream has left the table and nobody is waiting at its queue. */
  predicate Stranded(h: Host) {
    !InUse(h.own.pc) && h.own.pc != Fresh && !h.app.reading
  }

  /** What is queued then is never read. */
  lemma StrandedStays(h: Host, e: Event, env: Env)
    requires HostInvariant(h, env) && Enabled(h, e, env) && Stranded(h)
    ensures Stranded(Next(h, e, env)) && Next(h, e, env).app.readLog == h.app.readLog
  {
    hide Payloads, Admitted, Answered, Chunked, Attended, Output, WriteChunks;
  }

  // ---- When payloads are turned away

  /** The reader decides whether the payload in its hands finds room. */
  predicate Decides(h: Host, e: Event) {
    e == Finish && InHand(h.inbox) != []
  }

  /** Whenever the reader decides, fewer than 128 payloads are queued. */
  predicate RoomAtEach(events: seq<Event>, env: Env) {
    events != [] ==>
      var front, e := events[..|events| - 1], events[|events| - 1];
      RoomAtEach(front, env)
      && (Run(front, env).Some? && Decides(Run(front, env).value, e) ==> |Run(front, env).value.slot.queue| < 128)
  }

  /** Whenever the reader decides, the stream is in use and the device has not closed it. */
  predicate OpenAtEach(events: seq<Event>, env: Env) {
    events != [] ==>
      var front, e := events[..|events| - 1], events[|events| - 1];
      OpenAtEach(front, env)
      && (Run(front, env).Some? && Decides(Run(front, env).value, e)
          ==> InUse(Run(front, env).value.own.pc) && !TookClse(Run(front, env).value.inbox.taken))
  }

  lemma AllTrueSnoc(fate: seq<bool>, found: bool)
    ensures AllTrue(fate + [found]) <==> AllTrue(fate) && found
  {
    assert (fate + [found])[|fate|] == found && forall i :: 0 <= i < |fate| ==> (fate + [found])[i] == fate[i];
  }

  lemma OtherStepsDecideNothing(h: Host, e: Event, env: Env)
    requires Enabled(h, e, env) && !Decides(h, e)
    ensures InboxNext(h, e, env).fate == h.inbox.fate
  {
  }

  lemma DecisionIs(h: Host, e: Event, env: Env)
    requires HostInvariant(h, env) && Enabled(h, e, env) && Decides(h, e)
    requires InUse(h.own.pc) && !TookClse(h.inbox.taken)
    ensures InboxNext(h, e, env).fate == h.inbox.fate + [|h.slot.queue| < 128]
  {
    hide Payloads, Admitted, Answered, Chunked, Attended, HostInvariant;
    TurnedAwayOnlyWhenFull(h, env);
    QueueIsBounded(h, env);
  }

  lemma QueueIsBounded(h: Host, env: Env)
    requires HostInvariant(h, env)
    ensures |h.slot.queue| <= 128
  {
  }

  /** No payload of an open stream is turned away exactly when the queue has room each time. */
  lemma {:induction false} NoneTurnedAwayExactly(events: seq<Event>, env: Env)
    requires Run(events, env).Some? && OpenAtEach(events, env)
    ensures AllTrue(Run(events, env).value.inbox.fate) <==> RoomAtEach(events, env)
  {
    if events != [] {
      var front, e := events[..|events| - 1], events[|events| - 1];
      var h := Run(front, env).value;
      hide HostInvariant, AllTrue, Decides, InUse, TookClse, OwnerNext, SlotNext, WaiterNext, AppNext, InboxNext,
           Output, Enabled;
      HostRuns(front, env);
      NoneTurnedAwayExactly(front, env);
      if Decides(h, e) {
        DecisionIs(h, e, env);
        AllTrueSnoc(h.inbox.fate, |h.slot.queue| < 128);
      } else {
        OtherStepsDecideNothing(h, e, env);
      }
    }
  }

  // ---- A run that loses an answered payload

  function Copies(n: nat, data: bytes): (s: seq<bytes>)
    ensures |s| == n && forall i :: 0 <= i < n ==> s[i] == data
  {
    if n == 0 then [] else Copies(n - 1, data) + [data]
  }

  function Trues(n: nat): (s: seq<bool>)
    ensures |s| == n && AllTrue(s)
  {
    if n == 0 then [] else Trues(n - 1) + [true]
  }

  const USUAL: bytes := [1]
  const LOST: bytes := [2]

  /** An open stream with `n` unread payloads, all of them answered. */
  predicate Holds(h: Host, n: nat) {
    && h.own.pc == Idle && h.slot == Slot(true, 9, true, Copies(n, USUAL)) && h.inbox.half == None
    && h.inbox.fate == Trues(n) && Payloads(h.inbox.taken) == Copies(n, USUAL) && h.app == App(false, [], [])
  }

  lemma OneMore(h: Host, data: bytes, env: Env) returns (h1: Host, h2: Host)
    requires h.own.pc == Idle && h.inbox.half == None
    ensures Enabled(h, Take(Sent(Wrte, 9, env.local, data)), env)
    ensures h1 == Next(h, Take(Sent(Wrte, 9, env.local, data)), env)
    ensures Enabled(h1, Finish, env) && h2 == Next(h1, Finish, env)
    ensures h2.own.pc == Idle && h2.inbox.half == None && h2.app == h.app
    ensures Payloads(h2.inbox.taken) == Payloads(h.inbox.taken) + [data]
    ensures h2.inbox.fate == h.inbox.fate + [HasRoom(h.slot)]
    ensures h2.slot == if HasRoom(h.slot) then h.slot.(queue := h.slot.queue + [data]) else h.slot
    ensures h2.sent == h.sent + [Sent(Okay, env.local, 9, [])]
  {
    hide Payloads;
    var p := Sent(Wrte, 9, env.local, data);
    h1 := Next(h, Take(p), env);
    h2 := Next(h1, Finish, env);
    PayloadsSnoc(h.inbox.taken, p);
    assert h.sent + [Sent(Okay, env.local, 9, [])] + [] == h.sent + [Sent(Okay, env.local, 9, [])];
  }

  lemma RunTwo(r: seq<Event>, h: Host, a: Event, h1: Host, b: Event, h2: Host, env: Env)
    requires Run(r, env) == Some(h) && Enabled(h, a, env) && h1 == Next(h, a, env)
    requires Enabled(h1, b, env) && h2 == Next(h1, b, env)
    ensures Run(r + [a] + [b], env) == Some(h2)
  {
    hide Next, Enabled;
    assert (r + [a])[..|r|] == r && (r + [a] + [b])[..|r| + 1] == r + [a];
  }

  lemma {:induction false} Fills(r: seq<Event>, h: Host, n: nat, env: Env) returns (r': seq<Event>, h': Host)
    requires Run(r, env) == Some(h) && Holds(h, 0) && n <= 128
    ensures Run(r', env) == Some(h') && Holds(h', n)
  {
    hide Run;
    if n == 0 {
      r', h' := r, h;
    } else {
      hide Next, Enabled, Payloads;
      r', h' := Fills(r, h, n - 1, env);
      var h1, h2 := OneMore(h', USUAL, env);
      RunTwo(r', h', Take(Sent(Wrte, 9, env.local, USUAL)), h1, Finish, h2, env);
      r', h' := r' + [Take(Sent(Wrte, 9, env.local, USUAL))] + [Finish], h2;
    }
  }

  /** A device that picks the id 9 has answered the OPEN. */
  lemma OpenAnswered(env: Env) returns (r: seq<Event>, h: Host)
    ensures Run(r, env) == Some(h) && h.own.pc == OpenWait && h.slot == Slot(true, 9, true, [])
    ensures h.waiter == Waiter(false, Some(AckOkay(9))) && h.app == App(false, [], [])
    ensures h.inbox == Inbox(None, [Sent(Okay, 9, env.local, [])], [])
  {
    hide Run, Next, Output;
    var nine := Sent(Okay, 9, env.local, []);
    r, h := OpeningRun(env);
    h := Goes(r, Take(nine), h, OpenWait, 9, Waiter(true, None), Some(HalfOkay(9)), env);
    h := Goes(r + [Take(nine)], Finish, h, OpenWait, 9, Waiter(false, Some(AckOkay(9))), None, env);
    r := r + [Take(nine)] + [Finish];
  }

  lemma Opens(env: Env) returns (r: seq<Event>, h: Host)
    ensures Run(r, env) == Some(h) && Holds(h, 0)
  {
    hide Run, Next, Output, Payloads;
    r, h := OpenAnswered(env);
    NoPayloads(h.inbox.taken[0]);
    h := Goes(r, OpenFinish, h, Idle, 9, Waiter(false, None), None, env);
    r := r + [OpenFinish];
  }

  lemma NoPayloads(p: Sent)
    requires p.command == Okay
    ensures Payloads([p]) == []
  {
    assert Payloads([p]) == PayloadOf(p) + Payloads([p][1..]);
  }

  /**
   129 payloads arrive unread. Every one of them is answered; the last is gone: it was neither
   read nor is it queued.
   */
  lemma AnsweredAndLost(env: Env) returns (r: seq<Event>, h: Host)
    ensures Run(r, env) == Some(h) && InUse(h.own.pc)
    ensures Payloads(h.inbox.taken) == Copies(128, USUAL) + [LOST] && |OkaysOf(h.sent)| == 129
    ensures h.app.readLog + h.slot.queue == Copies(128, USUAL) && LOST !in h.app.readLog + h.slot.queue
  {
    hide Run, Next, Enabled, Payloads;
    r, h := Opens(env);
    r, h := Fills(r, h, 128, env);
    var h1, h2 := OneMore(h, LOST, env);
    RunTwo(r, h, Take(Sent(Wrte, 9, env.local, LOST)), h1, Finish, h2, env);
    r, h := r + [Take(Sent(Wrte, 9, env.local, LOST))] + [Finish], h2;
    hide HostInvariant;
    HostRuns(r, env);
    AnswersCount(h, env);
  }

  lemma AnswersCount(h: Host, env: Env)
    requires HostInvariant(h, env)
    ensures |OkaysOf(h.sent)| == |Payloads(h.inbox.taken)|
  {
    hide Payloads, Answers, OkaysOf, Admitted;
    OneAnswerEach(h.inbox.taken);
  }

  lemma {:induction false} OneAnswerEach(packets: seq<Sent>)
    ensures |Answers(packets)| == |Payloads(packets)|
  {
    if packets != [] {
      OneAnswerEach(packets[1..]);
    }
  }

  /** A payload arrives, the host closes the stream, and a `read` reports Closed with the payload still queued. */
  lemma ClosedAndStranded(env: Env) returns (r: seq<Event>, h: Host)
    ensures Run(r, env) == Some(h) && Stranded(h)
    ensures h.slot.queue == Copies(1, USUAL) && h.app.readLog == [] && h.app.closed == [Closed(Copies(1, USUAL), true)]
  {
    hide Run, Payloads;
    r, h := Opens(env);
    r, h := Fills(r, h, 1, env);
    var h1 := Next(h, CloseBegin, env);
    var h2 := Next(h1, ReadBegin, env);
    RunTwo(r, h, CloseBegin, h1, ReadBegin, h2, env);
    r, h := r + [CloseBegin] + [ReadBegin], h2;
  }
}
