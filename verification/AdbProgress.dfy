/**
 A task that awaits the answer to an OPEN or a WRTE: how far away the answer is, that a step
 that brings it nearer is possible and none takes it away again; and the one case in which no
 answer will ever come, a `write` begun after the device's CLSE was taken.
 */
module AdbProgress {
  import opened Wrappers
  import opened Bytes
  import opened PacketCore
  import opened AdbHost
  import opened AdbLink

  /** What a task awaits from the device, and what the device answers. */
  const ANSWERS: set<Command> := {Okay, Clse}
  const REQUESTS: set<Command> := {Open, Wrte}

  /** Packets in front of the first with one of these commands. */
  function Before(packets: seq<Sent>, want: set<Command>): (n: nat)
    ensures n <= |packets|
  {
    if packets == [] || packets[0].command in want then 0 else 1 + Before(packets[1..], want)
  }

  predicate Contains(packets: seq<Sent>, want: set<Command>) {
    Before(packets, want) < |packets|
  }

  lemma {:induction false} BeforeSnoc(packets: seq<Sent>, p: Sent, want: set<Command>)
    ensures Before(packets + [p], want) ==
            if Contains(packets, want) then Before(packets, want)
            else |packets| + (if p.command in want then 0 else 1)
  {
    if packets == [] {
      assert [p][1..] == [];
    } else {
      assert (packets + [p])[1..] == packets[1..] + [p];
      BeforeSnoc(packets[1..], p, want);
    }
  }

  lemma BeforeHead(p: Sent, rest: seq<Sent>, want: set<Command>)
    ensures Before([p] + rest, want) == if p.command in want then 0 else 1 + Before(rest, want)
  {
    assert ([p] + rest)[1..] == rest;
  }

  lemma {:induction false} ContainsCounted(packets: seq<Sent>, a: Command, b: Command)
    requires a != b
    ensures Contains(packets, {a, b}) <==> Count(packets, a) + Count(packets, b) > 0
  {
    if packets != [] {
      ContainsCounted(packets[1..], a, b);
    }
  }

  predicate HasOkay(half: Option<Half>) {
    half.Some? && half.value.HalfOkay?
  }

  /**
   Where the request or its answer is: 4 on its way to the device, then there, on its way back,
   taken, and delivered. A device that has closed answers nothing more.
   */
  function Stage(l: Link): nat {
    if l.host.waiter.ack.Some? then 0
    else if HasOkay(l.host.inbox.half) then 1
    else if Contains(l.toHost, ANSWERS) then 2
    else if l.dev.phase == Dead then 0
    else if l.dev.owed > 0 then 3
    else if Contains(l.toDev, REQUESTS) then 4
    else 0
  }

  /** Steps left within the stage: the packets in front, and the one the reader is busy with. */
  function Left(l: Link): nat {
    if Stage(l) == 4 then Before(l.toDev, REQUESTS)
    else if Stage(l) == 2 then 2 * Before(l.toHost, ANSWERS) + (if l.host.inbox.half.Some? then 1 else 0)
    else 0
  }

  predicate Nearer(a: Link, b: Link) {
    Stage(a) < Stage(b) || (Stage(a) == Stage(b) && Left(a) < Left(b))
  }

  predicate NoFarther(a: Link, b: Link) {
    Stage(a) < Stage(b) || (Stage(a) == Stage(b) && Left(a) <= Left(b))
  }

  /** The step that brings the answer nearer. */
  predicate Helps(l: Link, e: LinkEvent) {
    match Stage(l)
    case 4 => e.DevTakes?
    case 3 => e.DevAcks?
    case 2 => if l.host.inbox.half.Some? then e == HostMoves(Finish) else e.HostTakes?
    case 1 => e == HostMoves(Finish)
    case _ => false
  }

  predicate Waits(l: Link, env: Env) {
    LinkInvariant(l, env) && Awaiting(l.host.own.pc)
  }

  predicate CanGoOn(l: Link, env: Env) {
    LinkEnabled(l, HostMoves(if l.host.own.pc.OpenWait? then OpenFinish else WriteFinish), env)
  }

  /** The task waits, the device has closed, and no answer is left on the way. */
  predicate Orphaned(l: Link) {
    && Awaiting(l.host.own.pc) && l.dev.phase == Dead
    && l.host.waiter.registered && l.host.waiter.ack == None
    && !Contains(l.toHost, ANSWERS) && !HasOkay(l.host.inbox.half)
  }

  /** While the device has not closed, exactly one request or answer is under way. */
  lemma OneUnderWay(l: Link, env: Env)
    requires Waits(l, env) && l.dev.phase != Dead && l.host.waiter.ack == None
    ensures Contains(l.toDev, REQUESTS) ==>
              l.dev.owed == 0 && !Contains(l.toHost, ANSWERS) && !HasOkay(l.host.inbox.half)
    ensures Contains(l.toDev, REQUESTS) || l.dev.owed > 0 || Contains(l.toHost, ANSWERS) || HasOkay(l.host.inbox.half)
  {
    ContainsCounted(l.toDev, Open, Wrte);
    ContainsCounted(l.toHost, Okay, Clse);
    hide Count, Before, Contains, HostInvariant, Addressed, Payloads;
  }

  lemma WaiterIsThere(l: Link, env: Env)
    requires Waits(l, env)
    ensures l.host.waiter.registered != l.host.waiter.ack.Some?
    ensures l.dev.phase == Unopened ==> l.dev.owed == 0
    ensures l.dev.phase != Dead && l.host.waiter.ack.Some? ==> l.host.waiter.ack.value.AckOkay?
    ensures forall i :: 0 <= i < |l.toHost| ==> l.toHost[i].arg1 == env.local
  {
    hide Count, Payloads, Inbound, Answered, Settled, Present, Chunked;
    assert forall i :: 0 <= i < |l.toHost| ==> IsFrom(l.dev, l.toHost[i], env);
  }

  /** The waiting task can go on, or some step helps, or it is orphaned; and only one of the three. */
  lemma HelpIsNear(l: Link, env: Env)
    requires Waits(l, env)
    ensures Stage(l) == 0 <==> CanGoOn(l, env) || Orphaned(l)
    ensures !(CanGoOn(l, env) && Orphaned(l))
    ensures l.dev.phase != Dead && CanGoOn(l, env) ==> l.host.waiter.ack.value.AckOkay?
    ensures Stage(l) > 0 ==> exists e :: Helps(l, e) && LinkEnabled(l, e, env)
  {
    hide LinkInvariant, Before;
    WaiterIsThere(l, env);
    if l.dev.phase != Dead && l.host.waiter.ack == None {
      OneUnderWay(l, env);
    }
    if Stage(l) == 4 {
      assert Helps(l, DevTakes(1, true)) && LinkEnabled(l, DevTakes(1, true), env);
    } else if Stage(l) == 3 {
      assert Helps(l, DevAcks) && LinkEnabled(l, DevAcks, env);
    } else if Stage(l) == 2 && l.host.inbox.half == None {
      assert Helps(l, HostTakes) && LinkEnabled(l, HostTakes, env);
    } else if Stage(l) > 0 {
      assert Helps(l, HostMoves(Finish)) && LinkEnabled(l, HostMoves(Finish), env);
    }
  }

  // ---- No step leads away

  /** The operation still waits. */
  predicate GoesOn(l: Link, next: Link) {
    next.host.own.pc == l.host.own.pc
  }

  lemma HostMoveProgress(l: Link, m: Event, env: Env)
    requires Waits(l, env) && Enabled(l.host, m, env) && !m.Take? && GoesOn(l, HostMoved(l, m, env))
    ensures NoFarther(HostMoved(l, m, env), l)
    ensures Helps(l, HostMoves(m)) ==> Nearer(HostMoved(l, m, env), l)
  {
    hide LinkInvariant, Before, Contains, SlotNext, AppNext, WriteChunks;
    WaiterIsThere(l, env);
    assert l.toDev + [] == l.toDev;
  }

  /** The answers to WRTEs of the device are no requests. */
  lemma TakeSends(l: Link, p: Sent, env: Env)
    requires Enabled(l.host, Take(p), env)
    ensures var toDev := l.toDev + Output(l.host, Take(p), env);
            && (Contains(toDev, REQUESTS) <==> Contains(l.toDev, REQUESTS))
            && (Contains(toDev, REQUESTS) ==> Before(toDev, REQUESTS) == Before(l.toDev, REQUESTS))
  {
    hide Before;
    var out := Output(l.host, Take(p), env);
    if out == [] {
      assert l.toDev + out == l.toDev;
    } else {
      assert out == [out[0]];
      BeforeSnoc(l.toDev, out[0], REQUESTS);
    }
  }

  lemma HostTakeProgress(l: Link, p: Sent, rest: seq<Sent>, env: Env)
    requires l.toHost == [p] + rest && Waits(l, env) && Enabled(l.host, Take(p), env)
    ensures var next := HostMoved(l, Take(p), env).(toHost := rest);
            NoFarther(next, l) && (Stage(l) == 2 ==> Nearer(next, l))
  {
    hide Waits, Before, OwnerNext, SlotNext, AppNext, Output;
    WaiterIsThere(l, env);
    BeforeHead(p, rest, ANSWERS);
    TakeSends(l, p, env);
  }

  /** What the device puts on the way: an OKAY it owed, a WRTE of its own, or its CLSE. */
  lemma DevSendProgress(l: Link, d: Dev, p: Sent, env: Env)
    requires Waits(l, env) && l.dev.phase == Live
    requires (p.command == Wrte && d == l.dev)
             || (p.command == Okay && d == l.dev.(owed := d.owed) && d.owed + 1 == l.dev.owed)
             || (p.command == Clse && d == l.dev.(phase := Dead, owed := 0))
    ensures var next := DevMoved(l, d, [p]);
            NoFarther(next, l) && (Stage(l) == 3 && p.command == Okay ==> Nearer(next, l))
  {
    hide Waits, Before;
    if l.host.waiter.ack == None {
      OneUnderWay(l, env);
    }
    BeforeSnoc(l.toHost, p, ANSWERS);
  }

  /** The device heeds what the task awaits an answer to. */
  lemma Heeded(l: Link, p: Sent, rest: seq<Sent>, env: Env)
    requires l.toDev == [p] + rest && Waits(l, env)
    ensures p.command == Open ==> l.dev.phase != Live
    ensures p.command == Wrte && l.dev.phase != Dead ==> l.dev.phase == Live && p.arg1 == l.dev.remote
    ensures l.dev.phase == Unopened ==> p.command == Open
  {
    Taking(p, rest);
    assert IsFor(l.dev, l.toDev[0], env);
    hide Count, Payloads, HostInvariant, IsFrom, Truthful, Conserved, StopAndWait, ClosesLast, KnowsRemote;
  }

  lemma DevTakeProgress(l: Link, p: Sent, rest: seq<Sent>, remote: u32, reply: bool, env: Env)
    requires l.toDev == [p] + rest && Waits(l, env)
    ensures var next := DevMoved(l, DevNext(l.dev, p, remote),
        DevReplies(l.dev, p, remote, reply, env)).(toDev := rest);
            NoFarther(next, l) && (Stage(l) == 4 ==> Nearer(next, l))
  {
    hide Waits, Before;
    if l.dev.phase != Dead && l.host.waiter.ack == None {
      OneUnderWay(l, env);
    }
    Heeded(l, p, rest, env);
    BeforeHead(p, rest, REQUESTS);
    var replies := DevReplies(l.dev, p, remote, reply, env);
    if replies == [] {
      assert l.toHost + replies == l.toHost;
    } else {
      assert replies == [replies[0]];
      BeforeSnoc(l.toHost, replies[0], ANSWERS);
    }
  }

  /**
   While an operation waits, no step of host or device puts the answer farther away, and a step
   that helps brings it nearer; also if the device closes the stream, or has closed it.
   */
  lemma AnswerComesNearer(l: Link, e: LinkEvent, env: Env)
    requires Waits(l, env) && LinkEnabled(l, e, env) && GoesOn(l, LinkNext(l, e, env))
    ensures NoFarther(LinkNext(l, e, env), l)
    ensures Helps(l, e) ==> Nearer(LinkNext(l, e, env), l)
  {
    hide Waits, NoFarther, Nearer, HostMoved, DevNext, DevReplies, Stage, Enabled;
    match e
    case HostMoves(m) => HostMoveProgress(l, m, env);
    case HostTakes =>
      assert l.toHost == [l.toHost[0]] + l.toHost[1..];
      HostTakeProgress(l, l.toHost[0], l.toHost[1..], env);
    case DevTakes(remote, reply) =>
      assert l.toDev == [l.toDev[0]] + l.toDev[1..];
      DevTakeProgress(l, l.toDev[0], l.toDev[1..], remote, reply, env);
    case DevAcks => DevSendProgress(l, l.dev.(owed := l.dev.owed - 1), Sent(Okay, l.dev.remote, env.local, []), env);
    case DevSends(data) => DevSendProgress(l, l.dev, Sent(Wrte, l.dev.remote, env.local, data), env);
    case DevCloses =>
      DevSendProgress(l, l.dev.(phase := Dead, owed := 0), Sent(Clse, l.dev.remote, env.local, []), env);
  }

  // ---- No answer will come

  /** Nothing the host or the device can do ends the waiting. */
  lemma OrphanedStays(l: Link, e: LinkEvent, env: Env)
    requires LinkEnabled(l, e, env) && Orphaned(l)
    ensures Orphaned(LinkNext(l, e, env)) && LinkNext(l, e, env).host.own == l.host.own
  {
    hide SlotNext, AppNext, WriteChunks, Before;
    if l.toHost != [] {
      assert l.toHost == [l.toHost[0]] + l.toHost[1..];
      BeforeHead(l.toHost[0], l.toHost[1..], ANSWERS);
    }
    assert l.toHost + [] == l.toHost;
  }

  /** After the host has sent its CLSE. */
  predicate SentClse(pc: Pc) {
    pc.CloseWait? || pc.CloseDrop? || pc.Gone?
  }

  /** Until the host has sent a CLSE, a device that has closed has sent one. */
  predicate ClosedAloud(l: Link) {
    !SentClse(l.host.own.pc) ==>
      && Count(l.toDev, Clse) == 0
      && (l.dev.phase == Dead ==> Count(l.toHost, Clse) + Count(l.host.inbox.taken, Clse) > 0)
  }

  lemma AloudHostMove(l: Link, m: Event, env: Env)
    requires Enabled(l.host, m, env) && !m.Take? && ClosedAloud(l)
    ensures ClosedAloud(HostMoved(l, m, env))
  {
    hide Count, SlotNext, WaiterNext, AppNext, WriteChunks, OpenPayload;
    var out := Output(l.host, m, env);
    if out == [] {
      assert l.toDev + out == l.toDev;
    } else {
      assert out == [out[0]];
      CountSnoc(l.toDev, out[0], Clse);
    }
  }

  lemma AloudHostTake(l: Link, p: Sent, rest: seq<Sent>, env: Env)
    requires l.toHost == [p] + rest && Enabled(l.host, Take(p), env) && ClosedAloud(l)
    ensures ClosedAloud(HostMoved(l, Take(p), env).(toHost := rest))
  {
    hide Count, SlotNext, WaiterNext, AppNext;
    Taking(p, rest);
    CountSnoc(l.host.inbox.taken, p, Clse);
    var out := Output(l.host, Take(p), env);
    if out == [] {
      assert l.toDev + out == l.toDev;
    } else {
      assert out == [out[0]];
      CountSnoc(l.toDev, out[0], Clse);
    }
  }

  lemma AloudDevTake(l: Link, p: Sent, rest: seq<Sent>, remote: u32, reply: bool, env: Env)
    requires l.toDev == [p] + rest && ClosedAloud(l)
    ensures ClosedAloud(DevMoved(l, DevNext(l.dev, p, remote),
        DevReplies(l.dev, p, remote, reply, env)).(toDev := rest))
  {
    hide Count;
    Taking(p, rest);
    var replies := DevReplies(l.dev, p, remote, reply, env);
    if replies == [] {
      assert l.toHost + replies == l.toHost;
    } else {
      assert replies == [replies[0]];
      CountSnoc(l.toHost, replies[0], Clse);
    }
  }

  lemma AloudStep(l: Link, e: LinkEvent, env: Env)
    requires LinkEnabled(l, e, env) && ClosedAloud(l)
    ensures ClosedAloud(LinkNext(l, e, env))
  {
    hide Count, HostMoved, DevNext, DevReplies, Enabled;
    match e
    case HostMoves(m) => AloudHostMove(l, m, env);
    case HostTakes =>
      assert l.toHost == [l.toHost[0]] + l.toHost[1..];
      AloudHostTake(l, l.toHost[0], l.toHost[1..], env);
    case DevTakes(remote, reply) =>
      assert l.toDev == [l.toDev[0]] + l.toDev[1..];
      AloudDevTake(l, l.toDev[0], l.toDev[1..], remote, reply, env);
    case DevAcks => CountSnoc(l.toHost, Sent(Okay, l.dev.remote, env.local, []), Clse);
    case DevSends(data) => CountSnoc(l.toHost, Sent(Wrte, l.dev.remote, env.local, data), Clse);
    case DevCloses => CountSnoc(l.toHost, Sent(Clse, l.dev.remote, env.local, []), Clse);
  }

  lemma {:induction false} AloudRuns(events: seq<LinkEvent>, env: Env)
    requires LinkRun(events, env).Some?
    ensures ClosedAloud(LinkRun(events, env).value)
  {
    hide LinkNext, LinkEnabled;
    if events != [] {
      AloudRuns(events[..|events| - 1], env);
      AloudStep(LinkRun(events[..|events| - 1], env).value, events[|events| - 1], env);
    }
  }

  /** On every run, a task that waits is orphaned exactly when the device's CLSE has been taken and it has no answer. */
  lemma OrphanedExactly(events: seq<LinkEvent>, env: Env)
    requires LinkRun(events, env).Some? && Awaiting(LinkRun(events, env).value.host.own.pc)
    ensures var l := LinkRun(events, env).value;
            Orphaned(l) <==> l.host.waiter.ack == None && Count(l.host.inbox.taken, Clse) > 0
  {
    hide LinkRun;
    var l := LinkRun(events, env).value;
    LinkRuns(events, env);
    AloudRuns(events, env);
    OrphanedIs(l, env);
  }

  lemma OrphanedIs(l: Link, env: Env)
    requires Waits(l, env) && ClosedAloud(l)
    ensures Orphaned(l) <==> l.host.waiter.ack == None && Count(l.host.inbox.taken, Clse) > 0
  {
    hide LinkInvariant, Count, Before, Contains;
    WaiterIsThere(l, env);
    ContainsCounted(l.toHost, Okay, Clse);
    if Count(l.host.inbox.taken, Clse) > 0 {
      ClsesTaken(l, env);
      assert Count([], Okay) == 0 && Count([], Clse) == 0 by {
        NoPackets();
      }
    }
  }

  lemma ClsesTaken(l: Link, env: Env)
    requires LinkInvariant(l, env) && Count(l.host.inbox.taken, Clse) > 0
    ensures l.dev.phase == Dead && !HasOkay(l.host.inbox.half) && l.toHost == []
  {
    hide Count, Payloads, HostInvariant, Addressed;
  }
}
