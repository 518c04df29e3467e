/**
 One stream end to end: the host of AdbHost, two packet queues and a device that follows the
 ADB protocol (protocol.txt, "OPEN", "READY", "WRITE", "CLOSE"): it answers each OPEN and each
 WRTE with one OKAY, may send WRTEs while the stream is open, and closes it at most once,
 after which it ignores the stream.
 */
module AdbLink {
  import opened Wrappers
  import opened Bytes
  import opened PacketCore
  import opened AdbHost

  datatype Phase = Unopened | Live | Dead

  /** The device's end: its id, the payloads received, the OKAYs it has still to send. */
  datatype Dev = Dev(phase: Phase, remote: u32, received: seq<bytes>, owed: nat)

  datatype Link = Link(host: Host, dev: Dev, toDev: seq<Sent>, toHost: seq<Sent>)

  const START := Link(INITIAL, Dev(Unopened, 0, [], 0), [], [])

  /** `remote` is the id the device picks for an OPEN, 0 to refuse; `reply`: answer a CLSE with one. */
  datatype LinkEvent =
    | HostMoves(e: Event)
    | HostTakes
    | DevTakes(remote: u32, reply: bool)
    | DevAcks
    | DevSends(data: bytes)
    | DevCloses

  predicate LinkEnabled(l: Link, e: LinkEvent, env: Env) {
    match e
    case HostMoves(m) => !m.Take? && Enabled(l.host, m, env)
    case HostTakes => l.toHost != [] && Enabled(l.host, Take(l.toHost[0]), env)
    case DevTakes(_, _) => l.toDev != []
    case DevAcks => l.dev.phase == Live && l.dev.owed > 0
    case DevSends(_) => l.dev.phase == Live
    case DevCloses => l.dev.phase == Live
  }

  function LinkNext(l: Link, e: LinkEvent, env: Env): Link
    requires LinkEnabled(l, e, env)
  {
    match e
    case HostMoves(m) => HostMoved(l, m, env)
    case HostTakes => HostMoved(l, Take(l.toHost[0]), env).(toHost := l.toHost[1..])
    case DevTakes(remote, reply) =>
      DevMoved(l, DevNext(l.dev, l.toDev[0], remote), DevReplies(l.dev, l.toDev[0], remote, reply, env))
        .(toDev := l.toDev[1..])
    case DevAcks => DevMoved(l, l.dev.(owed := l.dev.owed - 1), [Sent(Okay, l.dev.remote, env.local, [])])
    case DevSends(data) => DevMoved(l, l.dev, [Sent(Wrte, l.dev.remote, env.local, data)])
    case DevCloses => DevMoved(l, l.dev.(phase := Dead, owed := 0), [Sent(Clse, l.dev.remote, env.local, [])])
  }

  function HostMoved(l: Link, m: Event, env: Env): Link
    requires Enabled(l.host, m, env)
  {
    Link(Next(l.host, m, env), l.dev, l.toDev + Output(l.host, m, env), l.toHost)
  }

  function DevMoved(l: Link, d: Dev, replies: seq<Sent>): Link {
    Link(l.host, d, l.toDev, l.toHost + replies)
  }

  /** The device takes a packet; it heeds only those that name its own id. */
  function DevNext(d: Dev, p: Sent, remote: u32): Dev {
    if p.command == Open && d.phase == Unopened then
      (if remote != 0 then d.(phase := Live, remote := remote) else d.(phase := Dead))
    else if p.command == Wrte && d.phase == Live && p.arg1 == d.remote then
      d.(received := d.received + [p.data], owed := d.owed + 1)
    else if p.command == Clse && d.phase == Live && p.arg1 == d.remote then d.(phase := Dead, owed := 0)
    else d
  }

  function DevReplies(d: Dev, p: Sent, remote: u32, reply: bool, env: Env): seq<Sent> {
    if p.command == Open && d.phase == Unopened then
      (if remote != 0 then [Sent(Okay, remote, env.local, [])] else [Sent(Clse, 0, env.local, [])])
    else if p.command == Clse && d.phase == Live && p.arg1 == d.remote && reply then
      [Sent(Clse, d.remote, env.local, [])]
    else []
  }

  function LinkRun(events: seq<LinkEvent>, env: Env): Option<Link> {
    if events == [] then Some(START)
    else
      var l := LinkRun(events[..|events| - 1], env);
      var e := events[|events| - 1];
      if l.Some? && LinkEnabled(l.value, e, env) then Some(LinkNext(l.value, e, env)) else None
  }

  // ---- Counting

  function Count(packets: seq<Sent>, c: Command): nat {
    if packets == [] then 0 else (if packets[0].command == c then 1 else 0) + Count(packets[1..], c)
  }

  lemma {:induction false} CountSnoc(packets: seq<Sent>, p: Sent, c: Command)
    ensures Count(packets + [p], c) == Count(packets, c) + (if p.command == c then 1 else 0)
  {
    if packets == [] {
      assert [p][1..] == [];
    } else {
      assert (packets + [p])[1..] == packets[1..] + [p];
      CountSnoc(packets[1..], p, c);
    }
  }

  lemma {:induction false} CountWrtes(packets: seq<Sent>)
    ensures Count(packets, Wrte) == |Payloads(packets)|
  {
    if packets != [] {
      CountWrtes(packets[1..]);
    }
  }

  // ---- The invariant

  predicate Opening(pc: Pc) {
    pc.Fresh? || pc.OpenRegister? || pc.OpenSend?
  }

  /** The operations that have sent a packet and await its OKAY. */
  predicate Awaiting(pc: Pc) {
    pc.OpenWait? || pc.WriteWait?
  }

  function Todo(pc: Pc): seq<bytes> {
    if pc.WriteRegister? || pc.WriteSend? || pc.WriteWait? then pc.todo else []
  }

  /** OPENs and WRTEs not yet answered. */
  function Outbound(l: Link): nat {
    Count(l.toDev, Open) + Count(l.toDev, Wrte) + l.dev.owed
  }

  /** OKAYs on their way to whoever awaits them. */
  function Returning(h: Host, toHost: seq<Sent>): nat {
    Count(toHost, Okay)
    + (if h.inbox.half.Some? && h.inbox.half.value.HalfOkay? then 1 else 0)
    + (if h.waiter.ack.Some? && h.waiter.ack.value.AckOkay? then 1 else 0)
  }

  /** Stop and wait: one packet or its answer is under way exactly while it is awaited. */
  predicate StopAndWait(l: Link) {
    l.dev.phase != Dead ==>
      Outbound(l) + Returning(l.host, l.toHost) == (if Awaiting(l.host.own.pc) then 1 else 0)
  }

  /** Every chunk given is received, or in flight, or still to be sent. */
  predicate Conserved(l: Link) {
    l.dev.phase != Dead ==> l.host.own.given == l.dev.received + Payloads(l.toDev) + Todo(l.host.own.pc)
  }

  /** After the device has closed: at most one answer is left, and it does not lie. */
  predicate Truthful(l: Link) {
    l.dev.phase == Dead ==>
      (&& Returning(l.host, l.toHost) <= 1
       && (Returning(l.host, l.toHost) == 1 ==>
             Awaiting(l.host.own.pc) && l.host.own.given == l.dev.received + Todo(l.host.own.pc))
       && l.dev.received <= l.host.own.given
       && (l.host.own.pc == Idle && l.host.own.ok ==> l.dev.received == l.host.own.given))
  }

  /** Before the device has seen the OPEN there is nothing else. */
  predicate Untouched(l: Link) {
    l.dev.phase == Unopened ==>
      (&& l.dev == START.dev && l.toHost == [] && l.host.inbox == INITIAL.inbox && l.host.waiter.ack == None
       && (Opening(l.host.own.pc) || l.host.own.pc == OpenWait)
       && (if Opening(l.host.own.pc) then l.toDev == [] else |l.toDev| == 1 && l.toDev[0].command == Open))
  }

  /** The OPEN is sent once. */
  predicate OpenedOnce(l: Link) {
    l.dev.phase != Unopened ==> Count(l.toDev, Open) == 0 && !Opening(l.host.own.pc)
  }

  /** The device's CLSE is the last packet it sends. */
  predicate ClosesLast(l: Link) {
    && (l.dev.phase != Dead ==> Count(l.toHost, Clse) == 0 && Count(l.host.inbox.taken, Clse) == 0)
    && (l.toHost != [] ==> Count(l.toHost[..|l.toHost| - 1], Clse) == 0)
    && (Count(l.host.inbox.taken, Clse) > 0 ==>
          l.toHost == [] && (l.host.inbox.half == None || l.host.inbox.half == Some(HalfClse)))
  }

  predicate ClosedWasHeard(w: Waiter, b: Inbox) {
    (w.ack == Some(AckClosed) || b.half == Some(HalfClse)) ==> Count(b.taken, Clse) > 0
  }

  predicate IsFrom(d: Dev, p: Sent, env: Env) {
    p.arg1 == env.local && (p.command == Okay || p.command == Wrte ==> d.remote != 0 && p.arg0 == d.remote)
  }

  predicate IsFor(d: Dev, p: Sent, env: Env) {
    p.arg0 == env.local && (p.command == Wrte || p.command == Clse ==> p.arg1 == d.remote)
  }

  /** Packets carry each other's ids; what the host knows of the device's id is right. */
  predicate Addressed(l: Link, env: Env) {
    && (forall i :: 0 <= i < |l.toHost| ==> IsFrom(l.dev, l.toHost[i], env))
    && (forall i :: 0 <= i < |l.toDev| ==> IsFor(l.dev, l.toDev[i], env))
    && KnowsRemote(l.host.own.pc, l.host.slot, l.host.waiter, l.host.inbox, l.dev.remote)
    && (l.dev.phase == Live ==> l.dev.remote != 0)
  }

  predicate KnowsRemote(pc: Pc, s: Slot, w: Waiter, b: Inbox, remote: u32) {
    && (b.half.Some? && b.half.value.HalfOkay? ==> remote != 0 && b.half.value.remote == remote)
    && (w.ack.Some? && w.ack.value.AckOkay? ==> remote != 0 && w.ack.value.remote == remote)
    && (s.remote == 0 || s.remote == remote)
    && (!Opening(pc) && !pc.OpenWait? && !pc.Gone? ==> remote != 0 && s.remote == remote)
  }

  /** Everything but the addresses. */
  predicate Flow(l: Link) {
    && StopAndWait(l) && Conserved(l) && Truthful(l) && Untouched(l) && OpenedOnce(l)
    && ClosesLast(l) && ClosedWasHeard(l.host.waiter, l.host.inbox)
  }

  predicate LinkInvariant(l: Link, env: Env) {
    HostInvariant(l.host, env) && Flow(l) && Addressed(l, env)
  }

  // ---- The steps keep the flow

  /** What one more packet does to the counts. */
  lemma Sending(packets: seq<Sent>, p: Sent)
    ensures Count(packets + [p], Open) == Count(packets, Open) + (if p.command == Open then 1 else 0)
    ensures Count(packets + [p], Okay) == Count(packets, Okay) + (if p.command == Okay then 1 else 0)
    ensures Count(packets + [p], Clse) == Count(packets, Clse) + (if p.command == Clse then 1 else 0)
    ensures Count(packets + [p], Wrte) == Count(packets, Wrte) + (if p.command == Wrte then 1 else 0)
    ensures Payloads(packets + [p]) == Payloads(packets) + (if p.command == Wrte then [p.data] else [])
  {
    CountSnoc(packets, p, Open);
    CountSnoc(packets, p, Okay);
    CountSnoc(packets, p, Clse);
    CountSnoc(packets, p, Wrte);
    PayloadsSnoc(packets, p);
  }

  lemma NoPackets()
    ensures forall c :: Count([], c) == 0
    ensures Payloads([]) == []
  {
  }

  /** Steps of the owning and the reading task that send nothing. */
  predicate Silent(m: Event) {
    !m.Take? && m != Finish && !m.DoOpenSend? && !m.DoWriteSend? && !m.DoCloseSend?
  }

  lemma SilentKeepsCounts(l: Link, m: Event, env: Env)
    requires Enabled(l.host, m, env) && Silent(m) && Attended(l.host.own, l.host.waiter) && Flow(l)
    ensures StopAndWait(HostMoved(l, m, env)) && Untouched(HostMoved(l, m, env)) && OpenedOnce(HostMoved(l, m, env))
  {
    hide Count, Payloads, WriteChunks, SlotNext, AppNext, Conserved, Truthful;
    assert l.toDev + [] == l.toDev;
  }

  lemma SilentKeepsConserved(l: Link, m: Event, env: Env)
    requires Enabled(l.host, m, env) && Silent(m) && Flow(l)
    ensures Conserved(HostMoved(l, m, env))
  {
    hide Count, Payloads, WriteChunks, SlotNext, WaiterNext, AppNext;
    assert l.toDev + [] == l.toDev;
    assert l.dev.received + Payloads(l.toDev) + [] == l.dev.received + Payloads(l.toDev);
  }

  lemma SilentKeepsTruthful(l: Link, m: Event, env: Env)
    requires Enabled(l.host, m, env) && Silent(m) && Flow(l)
    ensures Truthful(HostMoved(l, m, env))
  {
    hide Count, Payloads, WriteChunks, SlotNext, AppNext;
    NoPackets();
    assert l.dev.received + [] == l.dev.received;
  }

  lemma SilentKeepsClosing(l: Link, m: Event, env: Env)
    requires Enabled(l.host, m, env) && Silent(m) && Flow(l)
    ensures var l' := HostMoved(l, m, env); ClosesLast(l') && ClosedWasHeard(l'.host.waiter, l'.host.inbox)
  {
    hide Count, Payloads, OwnerNext, Output, SlotNext, AppNext;
  }

  lemma OpenSendKeepsFlow(l: Link, env: Env)
    requires Enabled(l.host, DoOpenSend, env) && Attended(l.host.own, l.host.waiter) && Flow(l)
    ensures Flow(HostMoved(l, DoOpenSend, env))
  {
    hide Count, Payloads, OpenPayload;
    NoPackets();
    var out := Output(l.host, DoOpenSend, env);
    Sending(l.toDev, out[0]);
    assert out == [out[0]] && l.toDev + out == out;
  }

  lemma WriteSendKeepsFlow(l: Link, env: Env)
    requires Enabled(l.host, DoWriteSend, env) && Attended(l.host.own, l.host.waiter) && Flow(l)
    ensures Flow(HostMoved(l, DoWriteSend, env))
  {
    hide Count, Payloads;
    var out, todo := Output(l.host, DoWriteSend, env), l.host.own.pc.todo;
    Sending(l.toDev, out[0]);
    assert out == [out[0]] && todo == [todo[0]] + todo[1..];
    var r, f := l.dev.received, Payloads(l.toDev);
    assert r + f + ([todo[0]] + todo[1..]) == r + (f + [todo[0]]) + todo[1..];
  }

  lemma CloseSendKeepsFlow(l: Link, env: Env)
    requires Enabled(l.host, DoCloseSend, env) && Flow(l)
    ensures Flow(HostMoved(l, DoCloseSend, env))
  {
    hide Count, Payloads;
    var out := Output(l.host, DoCloseSend, env);
    Sending(l.toDev, out[0]);
    assert out == [out[0]] && Payloads(l.toDev) + [] == Payloads(l.toDev);
  }

  /** The reader wakes the waiter, or queues a payload, or ends the queue. */
  lemma FinishKeepsFlow(l: Link, env: Env)
    requires Enabled(l.host, Finish, env) && Attended(l.host.own, l.host.waiter) && Flow(l)
    ensures Flow(HostMoved(l, Finish, env))
  {
    hide Count, Payloads, SlotNext, AppNext;
    assert l.toDev + [] == l.toDev;
  }

  /** Taking a packet leaves the owning task alone and sends at most an OKAY. */
  lemma TakeIsOther(l: Link, p: Sent, env: Env)
    requires Enabled(l.host, Take(p), env)
    ensures OwnerNext(l.host, Take(p), env) == l.host.own
    ensures var out := Output(l.host, Take(p), env);
            && Payloads(l.toDev + out) == Payloads(l.toDev)
            && Count(l.toDev + out, Open) == Count(l.toDev, Open) && Count(l.toDev + out, Wrte) == Count(l.toDev, Wrte)
  {
    hide Count, Payloads;
    var out := Output(l.host, Take(p), env);
    if out == [] {
      assert l.toDev + out == l.toDev;
    } else {
      assert out == [out[0]];
      Sending(l.toDev, out[0]);
      assert Payloads(l.toDev) + [] == Payloads(l.toDev);
    }
  }

  /** The host takes a packet; a CLSE is the last there is. */
  lemma TakeKeepsFlow(l: Link, p: Sent, rest: seq<Sent>, env: Env)
    requires l.toHost == [p] + rest && Enabled(l.host, Take(p), env)
    requires Attended(l.host.own, l.host.waiter) && Flow(l)
    ensures Flow(HostMoved(l, Take(p), env).(toHost := rest))
  {
    hide Count, Payloads, OwnerNext, SlotNext, AppNext;
    Sending(l.host.inbox.taken, p);
    Taking(p, rest);
    TakingLast(p, rest);
    NoPackets();
    TakeIsOther(l, p, env);
    hide Output;
  }

  /** What one packet less does to the counts. */
  lemma Taking(p: Sent, rest: seq<Sent>)
    ensures Count([p] + rest, Open) == Count(rest, Open) + (if p.command == Open then 1 else 0)
    ensures Count([p] + rest, Okay) == Count(rest, Okay) + (if p.command == Okay then 1 else 0)
    ensures Count([p] + rest, Clse) == Count(rest, Clse) + (if p.command == Clse then 1 else 0)
    ensures Count([p] + rest, Wrte) == Count(rest, Wrte) + (if p.command == Wrte then 1 else 0)
    ensures Payloads([p] + rest) == (if p.command == Wrte then [p.data] else []) + Payloads(rest)
  {
    assert ([p] + rest)[1..] == rest;
  }

  lemma TakingLast(p: Sent, rest: seq<Sent>)
    ensures var all := [p] + rest;
            rest != [] ==>
              Count(all[..|all| - 1], Clse) == Count(rest[..|rest| - 1], Clse) + (if p.command == Clse then 1 else 0)
  {
    var all := [p] + rest;
    if rest != [] {
      var front := rest[..|rest| - 1];
      assert all[..|all| - 1] == [p] + front;
      Taking(p, front);
    }
  }

  /** A device that has not closed sends something: no CLSE has come before it. */
  lemma DevSendsKeepsFlow(l: Link, p: Sent, owed: nat, env: Env)
    requires l.dev.phase == Live && Flow(l)
    requires (p.command == Wrte && owed == l.dev.owed) || (p.command == Okay && owed + 1 == l.dev.owed)
    ensures Flow(DevMoved(l, l.dev.(owed := owed), [p]))
  {
    Sending(l.toHost, p);
    hide Count, Payloads;
    assert (l.toHost + [p])[..|l.toHost|] == l.toHost;
  }

  /** The device closes, with a CLSE or without a word. */
  lemma DevClosesKeepsFlow(l: Link, replies: seq<Sent>)
    requires l.dev.phase == Live && Flow(l)
    requires replies == [] || (|replies| == 1 && replies[0].command == Clse)
    ensures Flow(DevMoved(l, l.dev.(phase := Dead, owed := 0), replies))
  {
    hide Count, Payloads;
    CountWrtes(l.toDev);
    var r, f, todo := l.dev.received, Payloads(l.toDev), Todo(l.host.own.pc);
    assert r + f + todo == r + (f + todo) && r + [] == r;
    if replies == [] {
      assert l.toHost + replies == l.toHost;
      if l.toHost != [] {
        CountFront(l.toHost);
      }
    } else {
      assert replies == [replies[0]];
      Sending(l.toHost, replies[0]);
      assert (l.toHost + replies)[..|l.toHost|] == l.toHost;
    }
  }

  lemma CountFront(packets: seq<Sent>)
    requires packets != []
    ensures Count(packets[..|packets| - 1], Clse) <= Count(packets, Clse)
  {
    var front := packets[..|packets| - 1];
    CountSnoc(front, packets[|packets| - 1], Clse);
    assert packets == front + [packets[|packets| - 1]];
  }

  /** The OPEN is the only packet of an untouched stream. */
  lemma AnswersOpen(l: Link, p: Sent, d: Dev, reply: Sent)
    requires l.toDev == [p] && l.dev.phase == Unopened && Flow(l)
    requires d == Dev(Live, d.remote, [], 0) || d == Dev(Dead, 0, [], 0)
    requires reply.command == if d.phase == Live then Okay else Clse
    ensures Flow(DevMoved(l, d, [reply]).(toDev := []))
  {
    NoPackets();
    Taking(p, []);
    Sending([], reply);
    assert [p] + [] == [p] && [] + [reply] == [reply] && [reply][..0] == [];
    hide Count, Payloads;
  }

  /** A WRTE moves from the queue to what the device has received. */
  lemma ReceivesWrte(l: Link, p: Sent, rest: seq<Sent>)
    requires l.toDev == [p] + rest && l.dev.phase == Live && p.command == Wrte && Flow(l)
    ensures Flow(Link(l.host, l.dev.(received := l.dev.received + [p.data], owed := l.dev.owed + 1), rest, l.toHost))
  {
    Taking(p, rest);
    hide Count, Payloads;
    var r, f := l.dev.received, Payloads(rest);
    assert r + ([p.data] + f) == r + [p.data] + f;
  }

  /** A packet that changes nothing at the device. */
  lemma Ignores(l: Link, p: Sent, rest: seq<Sent>)
    requires l.toDev == [p] + rest && Flow(l)
    requires l.dev.phase == Dead || (l.dev.phase == Live && p.command != Wrte)
    ensures Flow(l.(toDev := rest))
  {
    Taking(p, rest);
    hide Count, Payloads;
    assert [] + Payloads(rest) == Payloads(rest);
  }

  lemma DevTakeKeepsFlow(l: Link, p: Sent, rest: seq<Sent>, remote: u32, reply: bool, env: Env)
    requires l.toDev == [p] + rest && Flow(l) && IsFor(l.dev, p, env)
    ensures Flow(DevMoved(l, DevNext(l.dev, p, remote), DevReplies(l.dev, p, remote, reply, env)).(toDev := rest))
  {
    var d, replies := DevNext(l.dev, p, remote), DevReplies(l.dev, p, remote, reply, env);
    if l.dev.phase == Unopened {
      assert |l.toDev| == 1 && p.command == Open && rest == [];
      AnswersOpen(l, p, d, replies[0]);
    } else {
      hide Flow;
      assert l.toHost + [] == l.toHost;
      if p.command == Clse && l.dev.phase == Live {
        DevClosesKeepsFlow(l, replies);
        Ignores(DevMoved(l, d, replies), p, rest);
      } else if p.command == Wrte && l.dev.phase == Live {
        ReceivesWrte(l, p, rest);
      } else {
        Ignores(l, p, rest);
      }
    }
  }

  // ---- Addresses

  lemma HostKeepsAddresses(l: Link, m: Event, env: Env)
    requires Enabled(l.host, m, env) && !m.Take? && Attended(l.host.own, l.host.waiter) && Addressed(l, env)
    ensures Addressed(HostMoved(l, m, env), env)
  {
    hide WriteChunks, OpenPayload, AppNext;
  }

  lemma TakeKeepsAddresses(l: Link, p: Sent, rest: seq<Sent>, env: Env)
    requires l.toHost == [p] + rest && Enabled(l.host, Take(p), env) && OpenedOnce(l) && Untouched(l)
    requires Addressed(l, env)
    ensures Addressed(HostMoved(l, Take(p), env).(toHost := rest), env)
  {
    hide AppNext;
    assert IsFrom(l.dev, l.toHost[0], env);
    assert forall i :: 0 <= i < |rest| ==> rest[i] == l.toHost[i + 1];
  }

  lemma DevKeepsAddresses(l: Link, d: Dev, replies: seq<Sent>, env: Env)
    requires Addressed(l, env) && d.remote == l.dev.remote && (d.phase == Live ==> l.dev.phase == Live)
    requires forall i :: 0 <= i < |replies| ==> IsFrom(d, replies[i], env)
    ensures Addressed(DevMoved(l, d, replies), env)
  {
    assert forall p :: IsFrom(l.dev, p, env) == IsFrom(d, p, env);
    assert forall p :: IsFor(l.dev, p, env) == IsFor(d, p, env);
  }

  lemma DevTakeKeepsAddresses(l: Link, p: Sent, rest: seq<Sent>, remote: u32, reply: bool, env: Env)
    requires l.toDev == [p] + rest && Addressed(l, env) && Untouched(l)
    ensures Addressed(DevMoved(l, DevNext(l.dev, p, remote),
        DevReplies(l.dev, p, remote, reply, env)).(toDev := rest), env)
  {
    var d, replies := DevNext(l.dev, p, remote), DevReplies(l.dev, p, remote, reply, env);
    assert forall i :: 0 <= i < |rest| ==> rest[i] == l.toDev[i + 1];
    if l.dev.phase == Unopened {
      assert rest == [] && l.toHost == [];
    } else {
      DevKeepsAddresses(l, d, replies, env);
    }
  }

  // ---- Every run

  lemma HostMoveKeepsFlow(l: Link, m: Event, env: Env)
    requires Enabled(l.host, m, env) && !m.Take? && Attended(l.host.own, l.host.waiter) && Flow(l)
    ensures Flow(HostMoved(l, m, env))
  {
    hide Next, Enabled, Output, Attended;
    match m
    case DoOpenSend => OpenSendKeepsFlow(l, env);
    case DoWriteSend => WriteSendKeepsFlow(l, env);
    case DoCloseSend => CloseSendKeepsFlow(l, env);
    case Finish => FinishKeepsFlow(l, env);
    case _ =>
      SilentKeepsCounts(l, m, env);
      SilentKeepsConserved(l, m, env);
      SilentKeepsTruthful(l, m, env);
      SilentKeepsClosing(l, m, env);
  }

  /** Every step keeps the invariant. */
  lemma LinkStep(l: Link, e: LinkEvent, env: Env)
    requires LinkEnabled(l, e, env) && LinkInvariant(l, env)
    ensures LinkInvariant(LinkNext(l, e, env), env)
  {
    hide Next, Output, DevNext, DevReplies, IsFrom, IsFor, Flow, Addressed;
    UntouchedBy(l);
    match e
    case HostMoves(m) =>
      HostStep(l.host, m, env);
      HostMoveKeepsFlow(l, m, env);
      HostKeepsAddresses(l, m, env);
    case HostTakes =>
      var p := l.toHost[0];
      assert l.toHost == [p] + l.toHost[1..];
      HostStep(l.host, Take(p), env);
      TakeKeepsFlow(l, p, l.toHost[1..], env);
      TakeKeepsAddresses(l, p, l.toHost[1..], env);
    case _ => DevStep(l, e, env);
  }

  lemma DevStep(l: Link, e: LinkEvent, env: Env)
    requires LinkEnabled(l, e, env) && !e.HostMoves? && !e.HostTakes? && Flow(l) && Addressed(l, env)
    ensures Flow(LinkNext(l, e, env)) && Addressed(LinkNext(l, e, env), env)
  {
    hide DevNext, DevReplies, Flow, Count, Payloads;
    match e
    case DevTakes(remote, reply) =>
      var p := l.toDev[0];
      assert l.toDev == [p] + l.toDev[1..] && IsFor(l.dev, p, env);
      DevTakeKeepsFlow(l, p, l.toDev[1..], remote, reply, env);
      UntouchedBy(l);
      DevTakeKeepsAddresses(l, p, l.toDev[1..], remote, reply, env);
    case DevAcks =>
      var p := Sent(Okay, l.dev.remote, env.local, []);
      DevSendsKeepsFlow(l, p, l.dev.owed - 1, env);
      DevKeepsAddresses(l, l.dev.(owed := l.dev.owed - 1), [p], env);
    case DevSends(data) =>
      var p := Sent(Wrte, l.dev.remote, env.local, data);
      DevSendsKeepsFlow(l, p, l.dev.owed, env);
      DevKeepsAddresses(l, l.dev, [p], env);
    case DevCloses =>
      var p := Sent(Clse, l.dev.remote, env.local, []);
      DevClosesKeepsFlow(l, [p]);
      DevKeepsAddresses(l, l.dev.(phase := Dead, owed := 0), [p], env);
  }

  lemma UntouchedBy(l: Link)
    requires Flow(l)
    ensures Untouched(l) && OpenedOnce(l)
  {
  }

  lemma {:induction false} LinkRuns(events: seq<LinkEvent>, env: Env)
    requires LinkRun(events, env).Some?
    ensures LinkInvariant(LinkRun(events, env).value, env)
  {
    hide LinkNext, LinkEnabled, LinkInvariant;
    if events == [] {
      StartHolds(env);
    } else {
      LinkRuns(events[..|events| - 1], env);
      LinkStep(LinkRun(events[..|events| - 1], env).value, events[|events| - 1], env);
    }
  }

  lemma StartHolds(env: Env)
    ensures LinkInvariant(START, env)
  {
    Beginning(env);
  }

  // ---- What the invariant says

  lemma FlattenPrefix(a: seq<bytes>, b: seq<bytes>)
    requires a <= b
    ensures Flatten(a) <= Flatten(b)
  {
    assert b == a + b[|a|..];
    FlattenAppend(a, b[|a|..]);
  }

  /**
   The device has received a prefix of what was given to `write`, chunk by chunk and byte by
   byte, no chunk longer than it accepts; and all of it when an operation has just succeeded.
   */
  predicate Delivered(o: Owner, received: seq<bytes>, env: Env) {
    && received <= o.given && Flatten(received) <= o.asked
    && (env.max > 0 ==> forall i :: 0 <= i < |received| ==> |received[i]| <= env.max)
    && (o.pc == Idle && o.ok ==> received == o.given && Flatten(received) == o.asked)
  }

  lemma InvariantDelivers(l: Link, env: Env)
    requires LinkInvariant(l, env)
    ensures Delivered(l.host.own, l.dev.received, env)
  {
    CountWrtes(l.toDev);
    hide Count, Payloads, Inbound, Answered, Addressed, Settled, Flatten;
    var r, f, todo := l.dev.received, Payloads(l.toDev), Todo(l.host.own.pc);
    assert r + f + todo == r + (f + todo) && r + [] == r;
    FlattenPrefix(r, l.host.own.given);
  }

  /** On every run of the stream with its device. */
  lemma DeliveryTheorem(events: seq<LinkEvent>, env: Env)
    requires LinkRun(events, env).Some?
    ensures var l := LinkRun(events, env).value; Delivered(l.host.own, l.dev.received, env)
  {
    hide LinkRun, LinkInvariant, Delivered;
    LinkRuns(events, env);
    InvariantDelivers(LinkRun(events, env).value, env);
  }

  /** WRTEs whose OKAY has not reached the waiting task. */
  function Unacknowledged(l: Link): nat {
    Count(l.toDev, Wrte) + l.dev.owed + Count(l.toHost, Okay)
    + (if l.host.inbox.half.Some? && l.host.inbox.half.value.HalfOkay? then 1 else 0)
  }

  /** While the stream is open, at most one WRTE is unacknowledged, and one exactly while its waiter is registered. */
  lemma OneUnacknowledged(l: Link, env: Env)
    requires LinkInvariant(l, env) && l.dev.phase != Dead
    ensures Unacknowledged(l) <= 1
    ensures !l.host.own.pc.OpenWait? ==>
              (Unacknowledged(l) == 1 <==> l.host.own.pc.WriteWait? && l.host.waiter.registered)
  {
    hide Count, Payloads, Inbound, Answered, Addressed, Settled, Chunked;
  }

  /** A remote id, once known, never changes. */
  lemma RemoteNeverChanges(l: Link, e: LinkEvent, env: Env)
    requires LinkInvariant(l, env) && LinkEnabled(l, e, env) && l.host.slot.remote != 0
    ensures LinkNext(l, e, env).host.slot.remote == l.host.slot.remote
  {
    hide Flow, Inbound, Answered, Attended, Chunked, IsFrom, IsFor, OwnerNext, WaiterNext, AppNext, InboxNext,
         Output, DevNext, DevReplies;
    match e
    case HostMoves(m) => RemoteKept(l.host, m, env);
    case HostTakes => RemoteKept(l.host, Take(l.toHost[0]), env);
    case _ =>
  }
}
