/**
 One stream of the ADB multiplexer on the host, as a state machine: `open_stream`, `read`,
 `write`, `close_stream` and `reader_loop` of crates/transport/src/adb/client.rs.

 A step is what a task does between two awaits that another task can observe: one lock
 section, one packet sent, one message taken. One task opens, writes and closes; another
 reads; the reader task handles each packet in two steps. Timeouts are left out, except the
 one of `close_stream`.
 */
module AdbHost {
  import opened Wrappers
  import opened Bytes
  import opened PacketCore

  /** The capacity of a stream's inbound queue. */
  const QUEUE_LEN := 128

  /** A stream's id on this side, and the largest payload the device takes. */
  datatype Env = Env(local: u32, max: nat)

  datatype Ack = AckOkay(remote: u32) | AckClosed

  /** What the reader has still to do for the packet it took. */
  datatype Half = HalfOkay(remote: u32) | HalfWrte(data: bytes) | HalfClse

  /** Where the owning task is; `todo` are the chunks of a write not yet sent. */
  datatype Pc =
    | Fresh
    | OpenRegister(dest: bytes)
    | OpenSend(dest: bytes)
    | OpenWait
    | Idle
    | WriteRegister(todo: seq<bytes>)
    | WriteSend(todo: seq<bytes>)
    | WriteWait(todo: seq<bytes>)
    | CloseRegister
    | CloseSend
    | CloseWait
    | CloseDrop
    | Gone

  /** The owning task: where it is, the chunks and bytes given to `write`, how its last operation ended. */
  datatype Owner = Owner(pc: Pc, given: seq<bytes>, asked: bytes, ok: bool)

  /** The stream's slot, and whether the stream table holds it. */
  datatype Slot = Slot(inStreams: bool, remote: u32, txOpen: bool, queue: seq<bytes>)

  /** The stream's entry in the waiter table, and the answer delivered through it. */
  datatype Waiter = Waiter(registered: bool, ack: Option<Ack>)

  /**
   A `read` that returned the error Closed: what was queued then, and whether the table held the
   stream when it began.
   */
  datatype Closed = Closed(queued: seq<bytes>, absent: bool)

  /** The reading task: the payloads read so far, and the reads that reported Closed. */
  datatype App = App(reading: bool, readLog: seq<bytes>, closed: seq<Closed>)

  /** The reader task: the packets taken and, for each WRTE among them, whether it found room. */
  datatype Inbox = Inbox(half: Option<Half>, taken: seq<Sent>, fate: seq<bool>)

  datatype Host = Host(own: Owner, slot: Slot, waiter: Waiter, app: App, inbox: Inbox, sent: seq<Sent>)

  const INITIAL := Host(Owner(Fresh, [], [], false), Slot(false, 0, false, []), Waiter(false, None),
                        App(false, [], []), Inbox(None, [], []), [])

  datatype Event =
    | OpenBegin(dest: bytes) | DoOpenRegister | DoOpenSend | OpenFinish
    | WriteBegin(data: bytes) | DoWriteRegister | DoWriteSend | WriteFinish
    | CloseBegin | DoCloseRegister | DoCloseSend | CloseFinish | DoCloseDrop
    | ReadBegin | ReadRecv
    | Take(packet: Sent) | Finish

  function OpenPayload(dest: bytes): bytes {
    if dest != [] && dest[|dest| - 1] == 0 then dest else dest + [0]
  }

  /** A destination is sent with a NUL at its end, its own if it has one. */
  lemma OpenPayloadEnds(dest: bytes)
    ensures var p := OpenPayload(dest);
            && p != [] && p[|p| - 1] == 0
            && (p == dest || p[..|p| - 1] == dest)
            && (p == dest <==> dest != [] && dest[|dest| - 1] == 0)
  {
  }

  /** The payloads of one `write`; no data is one empty payload. */
  function WriteChunks(data: bytes, max: nat): seq<bytes> {
    if data == [] then [[]] else Chunks(data, if max < 1 then 1 else max)
  }

  predicate Enabled(h: Host, e: Event, env: Env) {
    var pc := h.own.pc;
    match e
    case OpenBegin(_) => pc == Fresh
    case DoOpenRegister => pc.OpenRegister?
    case DoOpenSend => pc.OpenSend?
    case OpenFinish => pc == OpenWait && h.waiter.ack.Some?
    case WriteBegin(_) => pc == Idle
    case DoWriteRegister => pc.WriteRegister? && pc.todo != []
    case DoWriteSend => pc.WriteSend? && pc.todo != []
    case WriteFinish => pc.WriteWait? && h.waiter.ack.Some?
    case CloseBegin => pc == Idle
    case DoCloseRegister => pc == CloseRegister
    case DoCloseSend => pc == CloseSend
    case CloseFinish => pc == CloseWait
    case DoCloseDrop => pc == CloseDrop
    case ReadBegin => !h.app.reading
    case ReadRecv => h.app.reading && (h.slot.queue != [] || !h.slot.txOpen)
    case Take(p) => h.inbox.half == None && p.arg1 == env.local
    case Finish => h.inbox.half.Some?
  }

  /** What the step sends. */
  function Output(h: Host, e: Event, env: Env): seq<Sent>
    requires Enabled(h, e, env)
  {
    match e
    case DoOpenSend => [Sent(Open, env.local, 0, OpenPayload(h.own.pc.dest))]
    case DoWriteSend => [Sent(Wrte, env.local, h.slot.remote, h.own.pc.todo[0])]
    case DoCloseSend => [Sent(Clse, env.local, h.slot.remote, [])]
    case Take(p) => if p.command == Wrte then [Sent(Okay, env.local, p.arg0, [])] else []
    case _ => []
  }

  function Next(h: Host, e: Event, env: Env): Host
    requires Enabled(h, e, env)
  {
    Host(OwnerNext(h, e, env), SlotNext(h, e, env), WaiterNext(h, e, env), AppNext(h, e, env), InboxNext(h, e, env),
         h.sent + Output(h, e, env))
  }

  /** The owning task's own record. */
  function OwnerNext(h: Host, e: Event, env: Env): Owner
    requires Enabled(h, e, env)
  {
    var o := h.own;
    match e
    case OpenBegin(dest) => o.(pc := OpenRegister(dest))
    case DoOpenRegister => o.(pc := OpenSend(o.pc.dest))
    case DoOpenSend => o.(pc := OpenWait)
    case OpenFinish => if h.waiter.ack.value.AckOkay? then o.(pc := Idle, ok := true) else o.(pc := Gone, ok := false)
    case WriteBegin(data) =>
      if !h.slot.inStreams || h.slot.remote == 0 then o.(ok := false)
      else
        var chunks := WriteChunks(data, env.max);
        Owner(WriteRegister(chunks), o.given + chunks, o.asked + data, false)
    case DoWriteRegister => o.(pc := WriteSend(o.pc.todo))
    case DoWriteSend => o.(pc := WriteWait(o.pc.todo[1..]))
    case WriteFinish =>
      if h.waiter.ack.value.AckClosed? then o.(pc := Idle, ok := false)
      else if o.pc.todo == [] then o.(pc := Idle, ok := true)
      else o.(pc := WriteRegister(o.pc.todo))
    case CloseBegin => o.(pc := CloseRegister)
    case DoCloseRegister => o.(pc := CloseSend)
    case DoCloseSend => o.(pc := CloseWait)
    case CloseFinish => o.(pc := CloseDrop)
    case DoCloseDrop => o.(pc := Gone)
    case _ => o
  }

  function SlotNext(h: Host, e: Event, env: Env): Slot
    requires Enabled(h, e, env)
  {
    var s := h.slot;
    match e
    case OpenBegin(_) => Slot(true, 0, true, [])
    case OpenFinish =>
      if h.waiter.ack.value.AckOkay? then s.(remote := h.waiter.ack.value.remote) else s.(inStreams := false)
    case CloseBegin => s.(inStreams := false)
    case DoCloseDrop => s.(txOpen := false)
    case ReadRecv => if s.queue == [] then s else s.(queue := s.queue[1..])
    case Take(p) => if p.command == Okay && s.inStreams && s.remote == 0 then s.(remote := p.arg0) else s
    case Finish =>
      if h.inbox.half.value.HalfWrte? && HasRoom(s) then s.(queue := s.queue + [h.inbox.half.value.data])
      else if h.inbox.half.value.HalfClse? && s.inStreams then s.(txOpen := false)
      else s
    case _ => s
  }

  predicate HasRoom(s: Slot) {
    s.inStreams && s.txOpen && |s.queue| < QUEUE_LEN
  }

  /** Registering replaces an older waiter; an answer goes to the waiter registered, or nowhere. */
  function WaiterNext(h: Host, e: Event, env: Env): Waiter
    requires Enabled(h, e, env)
  {
    var w := h.waiter;
    match e
    case DoOpenRegister => Waiter(true, None)
    case DoWriteRegister => Waiter(true, None)
    case DoCloseRegister => Waiter(true, None)
    case OpenFinish => w.(ack := None)
    case WriteFinish => w.(ack := None)
    case Take(p) => if p.command == Clse && w.registered then Waiter(false, Some(AckClosed)) else w
    case Finish =>
      if h.inbox.half.value.HalfOkay? && w.registered then Waiter(false, Some(AckOkay(h.inbox.half.value.remote)))
      else w
    case _ => w
  }

  function AppNext(h: Host, e: Event, env: Env): App
    requires Enabled(h, e, env)
  {
    var a := h.app;
    match e
    case ReadBegin =>
      if h.slot.inStreams then a.(reading := true) else a.(closed := a.closed + [Closed(h.slot.queue, true)])
    case ReadRecv =>
      if h.slot.queue == [] then a.(reading := false, closed := a.closed + [Closed([], false)])
      else a.(reading := false, readLog := a.readLog + [h.slot.queue[0]])
    case _ => a
  }

  function InboxNext(h: Host, e: Event, env: Env): Inbox
    requires Enabled(h, e, env)
  {
    var b := h.inbox;
    match e
    case Take(p) => Inbox(HalfOf(p), b.taken + [p], b.fate)
    case Finish => Inbox(None, b.taken, b.fate + (if b.half.value.HalfWrte? then [HasRoom(h.slot)] else []))
    case _ => b
  }

  /** What a packet leaves for the reader's second step. */
  function HalfOf(p: Sent): Option<Half> {
    match p.command
    case Okay => Some(HalfOkay(p.arg0))
    case Wrte => Some(HalfWrte(p.data))
    case Clse => Some(HalfClse)
    case _ => None
  }

  function Run(events: seq<Event>, env: Env): Option<Host> {
    if events == [] then Some(INITIAL)
    else
      var h := Run(events[..|events| - 1], env);
      var e := events[|events| - 1];
      if h.Some? && Enabled(h.value, e, env) then Some(Next(h.value, e, env)) else None
  }

  // ---- Inbound, whatever the device sends

  function PayloadOf(p: Sent): seq<bytes> {
    if p.command == Wrte then [p.data] else []
  }

  function Payloads(packets: seq<Sent>): seq<bytes> {
    if packets == [] then [] else PayloadOf(packets[0]) + Payloads(packets[1..])
  }

  /** The answer a WRTE is owed: an OKAY with the ids swapped. */
  function AnswerTo(p: Sent): seq<Sent> {
    if p.command == Wrte then [Sent(Okay, p.arg1, p.arg0, [])] else []
  }

  function Answers(packets: seq<Sent>): seq<Sent> {
    if packets == [] then [] else AnswerTo(packets[0]) + Answers(packets[1..])
  }

  function OkayIn(p: Sent): seq<Sent> {
    if p.command == Okay then [p] else []
  }

  function OkaysOf(packets: seq<Sent>): seq<Sent> {
    if packets == [] then [] else OkayIn(packets[0]) + OkaysOf(packets[1..])
  }

  /** The payloads that found room. */
  function Admitted(payloads: seq<bytes>, fate: seq<bool>): seq<bytes>
    requires |fate| <= |payloads|
  {
    if fate == [] then []
    else (if fate[0] then [payloads[0]] else []) + Admitted(payloads[1..], fate[1..])
  }

  lemma {:induction false} PayloadsSnoc(packets: seq<Sent>, p: Sent)
    ensures Payloads(packets + [p]) == Payloads(packets) + PayloadOf(p)
  {
    hide PayloadOf;
    if packets == [] {
      assert [p][1..] == [];
    } else {
      assert (packets + [p])[1..] == packets[1..] + [p];
      PayloadsSnoc(packets[1..], p);
    }
  }

  lemma {:induction false} AnswersSnoc(packets: seq<Sent>, p: Sent)
    ensures Answers(packets + [p]) == Answers(packets) + AnswerTo(p)
  {
    hide AnswerTo;
    if packets == [] {
      assert [p][1..] == [];
    } else {
      assert (packets + [p])[1..] == packets[1..] + [p];
      AnswersSnoc(packets[1..], p);
    }
  }

  lemma {:induction false} OkaysSnoc(packets: seq<Sent>, p: Sent)
    ensures OkaysOf(packets + [p]) == OkaysOf(packets) + OkayIn(p)
  {
    hide OkayIn;
    if packets == [] {
      assert [p][1..] == [];
    } else {
      assert (packets + [p])[1..] == packets[1..] + [p];
      OkaysSnoc(packets[1..], p);
    }
  }

  lemma {:induction false} AdmittedSnoc(payloads: seq<bytes>, fate: seq<bool>, found: bool)
    requires |fate| < |payloads|
    ensures Admitted(payloads, fate + [found])
         == Admitted(payloads, fate) + (if found then [payloads[|fate|]] else [])
  {
    if fate == [] {
      assert [found][1..] == [];
    } else {
      assert (fate + [found])[1..] == fate[1..] + [found];
      AdmittedSnoc(payloads[1..], fate[1..], found);
    }
  }

  lemma {:induction false} AdmittedGrows(payloads: seq<bytes>, more: seq<bytes>, fate: seq<bool>)
    requires |fate| <= |payloads|
    ensures Admitted(payloads + more, fate) == Admitted(payloads, fate)
  {
    if fate != [] {
      assert (payloads + more)[1..] == payloads[1..] + more;
      AdmittedGrows(payloads[1..], more, fate[1..]);
    }
  }

  lemma {:induction false} AdmittedAll(payloads: seq<bytes>, fate: seq<bool>)
    requires |fate| <= |payloads| && AllTrue(fate)
    ensures Admitted(payloads, fate) == payloads[..|fate|]
  {
    if fate != [] {
      AdmittedAll(payloads[1..], fate[1..]);
      assert payloads[..|fate|] == [payloads[0]] + payloads[1..][..|fate| - 1];
    }
  }

  /** The payload in the reader's hands, not yet decided upon. */
  function InHand(b: Inbox): seq<bytes> {
    if b.half.Some? && b.half.value.HalfWrte? then [b.half.value.data] else []
  }

  predicate FatesKnown(b: Inbox) {
    && |b.fate| + |InHand(b)| == |Payloads(b.taken)|
    && (InHand(b) != [] ==> Payloads(b.taken)[|b.fate|] == InHand(b)[0])
  }

  predicate Inbound(slot: Slot, app: App, b: Inbox) {
    && FatesKnown(b)
    && app.readLog + slot.queue == Admitted(Payloads(b.taken), b.fate)
    && |slot.queue| <= QUEUE_LEN
    && (forall i :: 0 <= i < |app.closed| && !app.closed[i].absent ==> slot.queue == [] && app.closed[i].queued == [])
  }

  /** Before a stream is opened it has no slot; once the sender is dropped, it stays so. */
  predicate Settled(h: Host) {
    && (h.own.pc == Fresh ==> !h.slot.inStreams && h.slot.queue == [] && h.slot.remote == 0)
    && (forall i :: 0 <= i < |h.app.closed| && !h.app.closed[i].absent ==> !h.slot.txOpen && h.own.pc != Fresh)
    && (h.app.reading ==> h.own.pc != Fresh)
  }

  /** After `open_stream` has begun and before `close_stream` or a failed open has ended it. */
  predicate InUse(pc: Pc) {
    !pc.Fresh? && !pc.CloseRegister? && !pc.CloseSend? && !pc.CloseWait? && !pc.CloseDrop? && !pc.Gone?
  }

  predicate TookClse(taken: seq<Sent>) {
    exists i :: 0 <= i < |taken| && taken[i].command == Clse
  }

  /** A stream in use is in the table, and its queue open until the device closes it. */
  predicate Present(pc: Pc, s: Slot, b: Inbox) {
    && (InUse(pc) <==> s.inStreams)
    && (InUse(pc) && !TookClse(b.taken) ==> s.txOpen)
    && (b.half == Some(HalfClse) ==> TookClse(b.taken))
  }

  predicate Answered(h: Host) {
    OkaysOf(h.sent) == Answers(h.inbox.taken)
  }

  /**
   A task that waits has its waiter registered or an answer waiting, never neither; no waiter
   is left behind by an operation that has ended, but for a closed stream's.
   */
  predicate Attended(o: Owner, w: Waiter) {
    if o.pc.CloseDrop? || o.pc.Gone? then true
    else if Waiting(o.pc) then w.registered != w.ack.Some?
    else !w.registered && w.ack == None
  }

  predicate Waiting(pc: Pc) {
    pc.OpenSend? || pc.OpenWait? || pc.WriteSend? || pc.WriteWait? || pc.CloseSend? || pc.CloseWait?
  }

  /** The bytes given to `write`, in chunks the device accepts. */
  predicate Chunked(o: Owner, env: Env) {
    && Flatten(o.given) == o.asked
    && (env.max > 0 ==> forall i :: 0 <= i < |o.given| ==> |o.given[i]| <= env.max)
  }

  predicate HostInvariant(h: Host, env: Env) {
    && Inbound(h.slot, h.app, h.inbox) && Settled(h) && Present(h.own.pc, h.slot, h.inbox)
    && Answered(h) && Attended(h.own, h.waiter) && Chunked(h.own, env)
  }

  lemma SettledStep(h: Host, e: Event, env: Env)
    requires Enabled(h, e, env) && Settled(h)
    ensures Settled(Next(h, e, env))
  {
    hide Payloads, WaiterNext, Output;
  }

  lemma InboundStep(h: Host, e: Event, env: Env)
    requires Enabled(h, e, env) && Settled(h) && Inbound(h.slot, h.app, h.inbox)
    ensures Inbound(SlotNext(h, e, env), AppNext(h, e, env), InboxNext(h, e, env))
  {
    match e
    case Take(p) => TakeKeepsInbound(h, p, env);
    case Finish => FinishKeepsInbound(h, env);
    case ReadRecv => RecvKeepsInbound(h, env);
    case _ =>
      hide Payloads, Admitted;
  }

  lemma RecvKeepsInbound(h: Host, env: Env)
    requires Enabled(h, ReadRecv, env) && Inbound(h.slot, h.app, h.inbox)
    ensures Inbound(SlotNext(h, ReadRecv, env), AppNext(h, ReadRecv, env), InboxNext(h, ReadRecv, env))
  {
    hide Payloads, Admitted;
    var log, queue := h.app.readLog, h.slot.queue;
    if queue != [] {
      assert log + queue == log + [queue[0]] + queue[1..];
    }
  }

  lemma TakeKeepsInbound(h: Host, p: Sent, env: Env)
    requires Enabled(h, Take(p), env) && Inbound(h.slot, h.app, h.inbox)
    ensures Inbound(SlotNext(h, Take(p), env), AppNext(h, Take(p), env), InboxNext(h, Take(p), env))
  {
    hide Payloads, Admitted;
    PayloadsSnoc(h.inbox.taken, p);
    AdmittedGrows(Payloads(h.inbox.taken), if p.command == Wrte then [p.data] else [], h.inbox.fate);
  }

  lemma FinishKeepsInbound(h: Host, env: Env)
    requires Enabled(h, Finish, env) && Settled(h) && Inbound(h.slot, h.app, h.inbox)
    ensures Inbound(SlotNext(h, Finish, env), AppNext(h, Finish, env), InboxNext(h, Finish, env))
  {
    hide Payloads, Admitted;
    var half := h.inbox.half.value;
    if half.HalfWrte? {
      AdmittedSnoc(Payloads(h.inbox.taken), h.inbox.fate, HasRoom(h.slot));
      assert h.app.readLog + (h.slot.queue + [half.data]) == h.app.readLog + h.slot.queue + [half.data];
      assert h.app.readLog + h.slot.queue + [] == h.app.readLog + h.slot.queue;
    } else {
      assert h.inbox.fate + [] == h.inbox.fate;
    }
  }

  lemma PresentStep(h: Host, e: Event, env: Env)
    requires Enabled(h, e, env) && Present(h.own.pc, h.slot, h.inbox)
    ensures Present(OwnerNext(h, e, env).pc, SlotNext(h, e, env), InboxNext(h, e, env))
  {
    hide WriteChunks, TookClse;
    if e.Take? {
      TookClseGrows(h.inbox.taken, e.packet);
    }
  }

  lemma TookClseGrows(taken: seq<Sent>, p: Sent)
    ensures TookClse(taken + [p]) <==> TookClse(taken) || p.command == Clse
  {
    var more := taken + [p];
    assert more[|taken|] == p && forall i :: 0 <= i < |taken| ==> more[i] == taken[i];
  }

  lemma AnsweredStep(h: Host, e: Event, env: Env)
    requires Enabled(h, e, env) && Answered(h)
    ensures Answered(Next(h, e, env))
  {
    hide OkaysOf, Answers, OwnerNext, SlotNext, WaiterNext, AppNext;
    var out := Output(h, e, env);
    if out == [] {
      assert h.sent + out == h.sent;
    } else {
      OkaysSnoc(h.sent, out[0]);
      assert h.sent + out == h.sent + [out[0]];
      assert OkaysOf(h.sent) + [] == OkaysOf(h.sent);
    }
    if e.Take? {
      AnswersSnoc(h.inbox.taken, e.packet);
      assert Answers(h.inbox.taken) + [] == Answers(h.inbox.taken);
    }
  }

  lemma AttendedStep(h: Host, e: Event, env: Env)
    requires Enabled(h, e, env) && Attended(h.own, h.waiter)
    ensures Attended(OwnerNext(h, e, env), WaiterNext(h, e, env))
  {
    hide WriteChunks;
  }

  lemma ChunkedStep(h: Host, e: Event, env: Env)
    requires Enabled(h, e, env) && Chunked(h.own, env)
    ensures Chunked(OwnerNext(h, e, env), env)
  {
    hide Flatten, WriteChunks;
    if e.WriteBegin? {
      WriteChunksAre(e.data, env.max);
      FlattenAppend(h.own.given, WriteChunks(e.data, env.max));
    }
  }

  lemma WriteChunksAre(data: bytes, max: nat)
    ensures Flatten(WriteChunks(data, max)) == data && WriteChunks(data, max) != []
    ensures max > 0 ==> forall i :: 0 <= i < |WriteChunks(data, max)| ==> |WriteChunks(data, max)[i]| <= max
    ensures max > 0 ==> forall i :: 0 <= i < |WriteChunks(data, max)| - 1 ==> |WriteChunks(data, max)[i]| == max
    ensures data != [] ==> forall i :: 0 <= i < |WriteChunks(data, max)| ==> WriteChunks(data, max)[i] != []
  {
    if data != [] && max > 0 {
      forall i | 0 <= i < |WriteChunks(data, max)| - 1
        ensures |WriteChunks(data, max)[i]| == max
      {
        ChunksFull(data, max, i);
      }
    }
    if data == [] {
      assert Flatten([[]]) == [] + Flatten([[]][1..]);
    } else {
      ChunksFlatten(data, if max < 1 then 1 else max);
    }
  }

  /** Every step keeps the invariant, whatever packets arrive. */
  lemma HostStep(h: Host, e: Event, env: Env)
    requires Enabled(h, e, env) && HostInvariant(h, env)
    ensures HostInvariant(Next(h, e, env), env)
  {
    hide Inbound, Settled, Present, Answered, Attended, Chunked, Enabled, OwnerNext, SlotNext, WaiterNext, AppNext,
         InboxNext, Output;
    InboundStep(h, e, env);
    SettledStep(h, e, env);
    PresentStep(h, e, env);
    AnsweredStep(h, e, env);
    AttendedStep(h, e, env);
    ChunkedStep(h, e, env);
  }

  lemma {:induction false} HostRuns(events: seq<Event>, env: Env)
    requires Run(events, env).Some?
    ensures HostInvariant(Run(events, env).value, env)
  {
    hide Next, Enabled;
    if events == [] {
      Beginning(env);
    } else {
      hide HostInvariant;
      HostRuns(events[..|events| - 1], env);
      HostStep(Run(events[..|events| - 1], env).value, events[|events| - 1], env);
    }
  }

  lemma Beginning(env: Env)
    ensures HostInvariant(INITIAL, env)
  {
  }

  /**
   On every run: what was read, then what is queued, are the WRTE payloads that found room,
   in order, and all of them if none was turned away; each WRTE was answered with one OKAY,
   the ids swapped; and a `read` that reported Closed had nothing left to read, unless the
   stream was not in the table when it began.
   */
  lemma InboundTheorem(events: seq<Event>, env: Env)
    requires Run(events, env).Some?
    ensures InboundAsPromised(Run(events, env).value)
  {
    hide Run, HostInvariant, InboundAsPromised;
    HostRuns(events, env);
    InboundFollows(Run(events, env).value, env);
  }

  lemma InboundFollows(h: Host, env: Env)
    requires HostInvariant(h, env)
    ensures InboundAsPromised(h)
  {
    hide Payloads, Admitted, OkaysOf, Answers, Settled, Attended, Chunked;
    NoneTurnedAway(Payloads(h.inbox.taken), h.inbox.fate, InHand(h.inbox));
    assert h.app.readLog + [] == h.app.readLog;
  }

  lemma NoneTurnedAway(payloads: seq<bytes>, fate: seq<bool>, last: seq<bytes>)
    requires |last| <= 1 && |fate| + |last| == |payloads| && (last != [] ==> payloads[|fate|] == last[0])
    ensures AllTrue(fate) ==> Admitted(payloads, fate) + last == payloads
  {
    hide Admitted;
    if AllTrue(fate) {
      AdmittedAll(payloads, fate);
      hide AllTrue;
      if last == [] {
        assert payloads[..|fate|] + [] == payloads[..|payloads|] == payloads;
      } else {
        assert last == [payloads[|fate|]];
        assert payloads[..|fate|] + [payloads[|fate|]] == payloads;
      }
    }
  }

  /** How many payloads were admitted before the first that was turned away. */
  function Leading(fate: seq<bool>): (n: nat)
    ensures n <= |fate| && (n == |fate| <==> AllTrue(fate))
  {
    if fate == [] || !fate[0] then 0 else 1 + Leading(fate[1..])
  }

  lemma {:induction false} AdmittedBeforeLoss(payloads: seq<bytes>, fate: seq<bool>)
    requires |fate| <= |payloads|
    ensures payloads[..Leading(fate)] <= Admitted(payloads, fate)
  {
    if fate != [] && fate[0] {
      AdmittedBeforeLoss(payloads[1..], fate[1..]);
      assert payloads[..Leading(fate)] == [payloads[0]] + payloads[1..][..Leading(fate[1..])];
    }
  }

  predicate AllTrue(fate: seq<bool>) {
    forall i :: 0 <= i < |fate| ==> fate[i]
  }

  /**
   A payload, though already answered with an OKAY, is dropped if 128 others wait; while the
   stream is in use and the device has not closed it, only then.
   */
  lemma TurnedAwayOnlyWhenFull(h: Host, env: Env)
    requires HostInvariant(h, env) && Enabled(h, Finish, env) && h.inbox.half.value.HalfWrte?
    requires InUse(h.own.pc) && !TookClse(h.inbox.taken)
    ensures InboxNext(h, Finish, env).fate == h.inbox.fate + [|h.slot.queue| != 128]
  {
    hide Payloads, Admitted, Answered, Chunked, Attended;
  }

  predicate InboundAsPromised(h: Host) {
    var payloads, fate := Payloads(h.inbox.taken), h.inbox.fate;
    && |fate| + |InHand(h.inbox)| == |payloads|
    && h.app.readLog + h.slot.queue == Admitted(payloads, fate)
    && (AllTrue(fate) ==> h.app.readLog + h.slot.queue + InHand(h.inbox) == payloads)
    && OkaysOf(h.sent) == Answers(h.inbox.taken)
    && (forall i :: 0 <= i < |h.app.closed| && h.app.closed[i].queued != [] ==> h.app.closed[i].absent)
    && (forall i :: 0 <= i < |h.app.closed| && !h.app.closed[i].absent ==> h.app.readLog == Admitted(payloads, fate))
  }

  // ---- The remote id

  /** Nothing but the end of `open_stream` can replace a remote id that is not zero. */
  lemma RemoteKept(h: Host, e: Event, env: Env)
    requires Enabled(h, e, env) && h.slot.remote != 0 && h.own.pc != Fresh
    ensures SlotNext(h, e, env).remote == h.slot.remote <==> !ReplacesRemote(h, e)
  {
  }

  predicate ReplacesRemote(h: Host, e: Event) {
    e == OpenFinish && h.waiter.ack.Some? && h.waiter.ack.value.AckOkay? && h.waiter.ack.value.remote != h.slot.remote
  }

  /** And it does, if a device answers one OPEN twice, the first time with the id 0. */
  lemma ZeroIdReplacesRemote(env: Env) returns (r: seq<Event>, h: Host)
    ensures Run(r, env) == Some(h) && h.slot.remote == 9
    ensures Enabled(h, OpenFinish, env) && SlotNext(h, OpenFinish, env).remote == 0
  {
    hide Run, Next, AppNext, Output;
    var nine := Sent(Okay, 9, env.local, []);
    r, h := ZeroAnswered(env);
    h := Goes(r, Take(nine), h, OpenWait, 9, Waiter(false, Some(AckOkay(0))), Some(HalfOkay(9)), env);
    h := Goes(r + [Take(nine)], Finish, h, OpenWait, 9, Waiter(false, Some(AckOkay(0))), None, env);
    r := r + [Take(nine)] + [Finish];
  }

  lemma ZeroAnswered(env: Env) returns (r: seq<Event>, h: Host)
    ensures Run(r, env) == Some(h) && h.own.pc == OpenWait && h.slot.remote == 0 && h.slot.inStreams
    ensures h.waiter == Waiter(false, Some(AckOkay(0))) && h.inbox.half == None
  {
    hide Run, Next, AppNext, Output;
    var zero := Sent(Okay, 0, env.local, []);
    r, h := OpeningRun(env);
    h := Goes(r, Take(zero), h, OpenWait, 0, Waiter(true, None), Some(HalfOkay(0)), env);
    h := Goes(r + [Take(zero)], Finish, h, OpenWait, 0, Waiter(false, Some(AckOkay(0))), None, env);
    r := r + [Take(zero)] + [Finish];
  }

  lemma OpeningRun(env: Env) returns (r: seq<Event>, h: Host)
    ensures Run(r, env) == Some(h) && h.own.pc == OpenWait && h.slot == Slot(true, 0, true, [])
    ensures h.waiter == Waiter(true, None) && h.inbox == Inbox(None, [], []) && h.app == INITIAL.app
  {
    hide Run, Next, Output;
    RunEmpty(env);
    h := Goes([], OpenBegin([7]), INITIAL, OpenRegister([7]), 0, Waiter(false, None), None, env);
    r := [] + [OpenBegin([7])];
    h := Goes(r, DoOpenRegister, h, OpenSend([7]), 0, Waiter(true, None), None, env);
    h := Goes(r + [DoOpenRegister], DoOpenSend, h, OpenWait, 0, Waiter(true, None), None, env);
    r := r + [DoOpenRegister] + [DoOpenSend];
  }

  lemma RunEmpty(env: Env)
    ensures Run([], env) == Some(INITIAL)
  {
  }

  lemma Goes(events: seq<Event>, e: Event, h: Host, pc: Pc, remote: u32, w: Waiter, half: Option<Half>, env: Env)
    returns (next: Host)
    requires Run(events, env) == Some(h) && Enabled(h, e, env)
    requires h.slot.inStreams || e.OpenBegin?
    requires OwnerNext(h, e, env).pc == pc && SlotNext(h, e, env).remote == remote && WaiterNext(h, e, env) == w
    requires InboxNext(h, e, env).half == half && SlotNext(h, e, env).inStreams
    ensures Run(events + [e], env) == Some(next) && next == Next(h, e, env)
    ensures next.own.pc == pc && next.slot.remote == remote && next.waiter == w && next.inbox.half == half
        && next.slot.inStreams
    ensures next.slot == SlotNext(h, e, env) && next.inbox == InboxNext(h, e, env) && next.app == AppNext(h, e, env)
  {
    assert (events + [e])[..|events|] == events;
    next := Next(h, e, env);
  }
}
