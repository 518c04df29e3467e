/**
 The calls on one stream: which packets they send, when a `write` is refused, when a `read`
 can return, and when the owning task has to wait. Runs of AdbHost, whatever the device sends.
 */
module AdbCalls {
  import opened Wrappers
  import opened Bytes
  import opened PacketCore
  import opened AdbHost

  /**
   A packet of the stream: it carries the stream's own id first. An OPEN has no second id and
   a destination that ends with NUL; a WRTE always knows the id it goes to; CLSE and OKAY are empty.
   */
  predicate OfStream(p: Sent, env: Env) {
    && p.arg0 == env.local
    && match p.command
       case Open => p.arg1 == 0 && p.data != [] && p.data[|p.data| - 1] == 0
       case Wrte => p.arg1 != 0
       case Clse => p.data == []
       case Okay => p.data == []
       case _ => false
  }

  /** A write goes on only to a known id, and with a chunk to send. */
  predicate HasEnd(pc: Pc, s: Slot) {
    && (pc.WriteRegister? || pc.WriteSend? ==> pc.todo != [])
    && (pc.WriteRegister? || pc.WriteSend? || pc.WriteWait? ==> s.remote != 0)
  }

  lemma HasEndStep(h: Host, e: Event, env: Env)
    requires Enabled(h, e, env) && HasEnd(h.own.pc, h.slot)
    ensures HasEnd(OwnerNext(h, e, env).pc, SlotNext(h, e, env))
  {
    if e.WriteBegin? {
      WriteChunksAre(e.data, env.max);
    }
    hide WriteChunks;
  }

  lemma OutputIs(h: Host, e: Event, env: Env)
    requires Enabled(h, e, env) && HasEnd(h.own.pc, h.slot)
    ensures forall p :: p in Output(h, e, env) ==> OfStream(p, env)
  {
    if e.DoOpenSend? {
      OpenPayloadEnds(h.own.pc.dest);
    }
  }

  lemma {:induction false} HasEndRuns(events: seq<Event>, env: Env)
    requires Run(events, env).Some?
    ensures HasEnd(Run(events, env).value.own.pc, Run(events, env).value.slot)
    ensures forall p :: p in Run(events, env).value.sent ==> OfStream(p, env)
  {
    hide Enabled, OwnerNext, SlotNext, WaiterNext, AppNext, InboxNext, Output, OfStream;
    if events != [] {
      hide HasEnd;
      var front, e := events[..|events| - 1], events[|events| - 1];
      HasEndRuns(front, env);
      HasEndStep(Run(front, env).value, e, env);
      OutputIs(Run(front, env).value, e, env);
    }
  }

  /** On every run, whatever the stream sends is one of its packets. */
  lemma PacketsAreOfStream(events: seq<Event>, env: Env, i: nat)
    requires Run(events, env).Some? && i < |Run(events, env).value.sent|
    ensures OfStream(Run(events, env).value.sent[i], env)
  {
    hide Run, OfStream;
    HasEndRuns(events, env);
  }

  /**
   On every run: an open stream takes the data of a `write` exactly when it knows the id of its
   remote end, and else fails without a packet; the stream table is no second reason to fail.
   */
  lemma WriteIsTakenExactly(events: seq<Event>, data: bytes, env: Env)
    requires Run(events, env).Some? && Run(events, env).value.own.pc == Idle
    ensures var h := Run(events, env).value;
            && Enabled(h, WriteBegin(data), env)
            && var o := Next(h, WriteBegin(data), env).own;
               if h.slot.remote != 0 then o.pc.WriteRegister? && o.asked == h.own.asked + data
               else o == h.own.(ok := false)
  {
    hide Run, WriteChunks;
    HostRuns(events, env);
    InUseIsPresent(Run(events, env).value, env);
  }

  lemma InUseIsPresent(h: Host, env: Env)
    requires HostInvariant(h, env)
    ensures InUse(h.own.pc) <==> h.slot.inStreams
  {
    hide Inbound, Settled, Answered, Attended, Chunked, InUse;
  }

  /**
   On every run: a `read` that waits can return when a payload is queued; while the stream is
   in use and the device has not closed it, exactly when more payloads found room than were read.
   */
  lemma ReadReturnsExactly(events: seq<Event>, env: Env)
    requires Run(events, env).Some? && Run(events, env).value.app.reading
    ensures var h := Run(events, env).value;
            && |h.inbox.fate| <= |Payloads(h.inbox.taken)|
            && var admitted := Admitted(Payloads(h.inbox.taken), h.inbox.fate);
               && (|admitted| > |h.app.readLog| ==>
                     && Enabled(h, ReadRecv, env)
                     && AppNext(h, ReadRecv, env).readLog == h.app.readLog + [admitted[|h.app.readLog|]])
               && (InUse(h.own.pc) && !TookClse(h.inbox.taken) && Enabled(h, ReadRecv, env) ==>
                     |admitted| > |h.app.readLog|)
  {
    hide Run, Payloads, Admitted;
    HostRuns(events, env);
    hide Answered, Chunked, Attended, Settled;
    var h := Run(events, env).value;
    assert Inbound(h.slot, h.app, h.inbox) && Present(h.own.pc, h.slot, h.inbox);
  }

  /** What the owning task does next, when no call is to be chosen. */
  function NextOf(pc: Pc): Option<Event> {
    match pc
    case OpenRegister(_) => Some(DoOpenRegister)
    case OpenSend(_) => Some(DoOpenSend)
    case OpenWait => Some(OpenFinish)
    case WriteRegister(_) => Some(DoWriteRegister)
    case WriteSend(_) => Some(DoWriteSend)
    case WriteWait(_) => Some(WriteFinish)
    case CloseRegister => Some(DoCloseRegister)
    case CloseSend => Some(DoCloseSend)
    case CloseWait => Some(CloseFinish)
    case CloseDrop => Some(DoCloseDrop)
    case _ => None
  }

  /** On every run, a call under way can go on exactly when it does not wait for an answer. */
  lemma WaitsForAnswersOnly(events: seq<Event>, env: Env)
    requires Run(events, env).Some? && NextOf(Run(events, env).value.own.pc).Some?
    ensures var h := Run(events, env).value;
            Enabled(h, NextOf(h.own.pc).value, env)
            <==> (h.own.pc.OpenWait? || h.own.pc.WriteWait? ==> h.waiter.ack.Some?)
  {
    hide Run;
    HasEndRuns(events, env);
  }

  /** An answer that says the stream is closed was brought by a CLSE. */
  predicate Honest(w: Waiter, b: Inbox) {
    w.ack == Some(AckClosed) ==> TookClse(b.taken)
  }

  lemma HonestStep(h: Host, e: Event, env: Env)
    requires Enabled(h, e, env) && Honest(h.waiter, h.inbox)
    ensures Honest(WaiterNext(h, e, env), InboxNext(h, e, env))
  {
    hide TookClse;
    if e.Take? {
      TookClseGrows(h.inbox.taken, e.packet);
    }
  }

  lemma {:induction false} HonestRuns(events: seq<Event>, env: Env)
    requires Run(events, env).Some?
    ensures Honest(Run(events, env).value.waiter, Run(events, env).value.inbox)
  {
    hide Enabled, OwnerNext, SlotNext, WaiterNext, AppNext, InboxNext, Output;
    if events != [] {
      hide Honest;
      HonestRuns(events[..|events| - 1], env);
      HonestStep(Run(events[..|events| - 1], env).value, events[|events| - 1], env);
    }
  }

  /**
   On every run: an `open_stream` or `write` that ends with this step returns Ok exactly when
   its last answer was an OKAY, and can fail only if the device has sent a CLSE.
   */
  lemma EndsOkExactly(events: seq<Event>, e: Event, env: Env)
    requires Run(events, env).Some? && Enabled(Run(events, env).value, e, env) && (e.OpenFinish? || e.WriteFinish?)
    ensures var h := Run(events, env).value;
            var o := Next(h, e, env).own;
            o.pc.Idle? || o.pc.Gone? ==>
              && (o.ok <==> h.waiter.ack.value.AckOkay?)
              && (!o.ok ==> TookClse(h.inbox.taken))
              && (o.pc.Gone? <==> e.OpenFinish? && !o.ok)
  {
    hide Run, TookClse;
    HonestRuns(events, env);
  }

  // ---- Every read ends once

  function AbsentIn(c: Closed): nat {
    if c.absent then 1 else 0
  }

  /** The reads that reported Closed because the table did not hold the stream. */
  function Absent(closed: seq<Closed>): nat {
    if closed == [] then 0 else Absent(closed[..|closed| - 1]) + AbsentIn(closed[|closed| - 1])
  }

  /** The reads begun in a run: while the stream was in use, and at other times. */
  function Begun(events: seq<Event>, env: Env): (n: (nat, nat))
    requires Run(events, env).Some?
  {
    if events == [] then (0, 0)
    else
      var front, e := events[..|events| - 1], events[|events| - 1];
      var n := Begun(front, env);
      if e != ReadBegin then n
      else if InUse(Run(front, env).value.own.pc) then (n.0 + 1, n.1)
      else (n.0, n.1 + 1)
  }

  predicate Accounted(a: App, n: (nat, nat)) {
    && n.0 + n.1 == |a.readLog| + |a.closed| + (if a.reading then 1 else 0)
    && n.1 == Absent(a.closed)
  }

  lemma AccountedStep(h: Host, e: Event, env: Env, n: (nat, nat))
    requires Enabled(h, e, env) && (InUse(h.own.pc) <==> h.slot.inStreams) && Accounted(h.app, n)
    ensures Accounted(AppNext(h, e, env),
                      if e != ReadBegin then n else if InUse(h.own.pc) then (n.0 + 1, n.1) else (n.0, n.1 + 1))
  {
    var closed := h.app.closed;
    assert forall c :: (closed + [c])[..|closed|] == closed && (closed + [c])[|closed|] == c;
  }

  /**
   On every run: each read begun has returned one payload or reported Closed, but for the one
   that waits; and those that found no stream in the table are those begun while it was not in use.
   */
  lemma {:induction false} ReadsAreAccounted(events: seq<Event>, env: Env)
    requires Run(events, env).Some?
    ensures Accounted(Run(events, env).value.app, Begun(events, env))
  {
    hide Enabled, OwnerNext, SlotNext, WaiterNext, AppNext, InboxNext, Output, InUse;
    if events != [] {
      hide Accounted;
      var front, e := events[..|events| - 1], events[|events| - 1];
      ReadsAreAccounted(front, env);
      hide HostInvariant;
      HostRuns(front, env);
      InUseIsPresent(Run(front, env).value, env);
      AccountedStep(Run(front, env).value, e, env, Begun(front, env));
    }
  }
}
