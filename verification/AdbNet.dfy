/**
 Many streams over one connection: the stream and waiter tables of crates/transport/src/adb/client.rs,
 one reader task, one packet queue each way. Every stream behaves as if it were alone.
 */
module AdbNet {
  import opened Wrappers
  import opened Bytes
  import opened PacketCore
  import opened AdbHost
  import opened AdbLink

  /**
   The streams by local id (an id not in a map is as at the start), the packets under way, the
   stream whose packet the reader is handling, and how many ids have been handed out.
   */
  datatype Net = Net(hosts: map<u32, Host>, devs: map<u32, Dev>, toDev: seq<Sent>, toHost: seq<Sent>,
                     reader: Option<u32>, handedOut: nat)

  const EMPTY := Net(map[], map[], [], [], None, 0)

  datatype NetEvent =
    | Spawn(dest: bytes)
    | TaskMoves(id: u32, e: Event)
    | ReaderTakes
    | ReaderFinishes
    | DeviceTakes(remote: u32, reply: bool)
    | DeviceMoves(id: u32, d: LinkEvent)

  function HostOf(n: Net, id: u32): Host {
    if id in n.hosts then n.hosts[id] else INITIAL
  }

  function DevOf(n: Net, id: u32): Dev {
    if id in n.devs then n.devs[id] else START.dev
  }

  /** The counter starts at 1 and wraps. */
  function LocalId(k: nat): u32 {
    (1 + k) % U32_MOD
  }

  predicate NetEnabled(n: Net, e: NetEvent, max: nat) {
    match e
    case Spawn(dest) => Enabled(HostOf(n, LocalId(n.handedOut)), OpenBegin(dest), Env(LocalId(n.handedOut), max))
    case TaskMoves(id, m) => !m.OpenBegin? && !m.Take? && m != Finish && Enabled(HostOf(n, id), m, Env(id, max))
    case ReaderTakes => n.reader == None && n.toHost != [] && HostOf(n, n.toHost[0].arg1).inbox.half == None
    case ReaderFinishes => n.reader.Some? && HostOf(n, n.reader.value).inbox.half.Some?
    case DeviceTakes(_, _) => n.toDev != []
    case DeviceMoves(id, d) =>
      && (d.DevAcks? || d.DevSends? || d.DevCloses?) && DevOf(n, id).phase == Live
      && (d.DevAcks? ==> DevOf(n, id).owed > 0)
  }

  function NetNext(n: Net, e: NetEvent, max: nat): Net
    requires NetEnabled(n, e, max)
  {
    match e
    case Spawn(dest) => HostActs(n, LocalId(n.handedOut), OpenBegin(dest), max).(handedOut := n.handedOut + 1)
    case TaskMoves(id, m) => HostActs(n, id, m, max)
    case ReaderTakes => ReaderTook(n, n.toHost[0], max)
    case ReaderFinishes => HostActs(n, n.reader.value, Finish, max).(reader := None)
    case DeviceTakes(remote, reply) => DeviceTook(n, n.toDev[0], remote, reply, max)
    case DeviceMoves(id, m) => DeviceMoved(n, id, m)
  }

  function ReaderTook(n: Net, p: Sent, max: nat): Net
    requires n.toHost != [] && Enabled(HostOf(n, p.arg1), Take(p), Env(p.arg1, max))
  {
    HostActs(n, p.arg1, Take(p), max)
      .(toHost := n.toHost[1..], reader := if HalfOf(p).Some? then Some(p.arg1) else None)
  }

  function DeviceTook(n: Net, p: Sent, remote: u32, reply: bool, max: nat): Net
    requires n.toDev != []
  {
    var d := DevOf(n, p.arg0);
    DevActs(n, p.arg0, DevNext(d, p, remote), DevReplies(d, p, remote, reply, Env(p.arg0, max))).(toDev := n.toDev[1..])
  }

  function DeviceMoved(n: Net, id: u32, m: LinkEvent): Net
    requires m.DevAcks? || m.DevSends? || m.DevCloses?
    requires m.DevAcks? ==> DevOf(n, id).owed > 0
  {
    var d := DevOf(n, id);
    if m.DevAcks? then DevActs(n, id, d.(owed := d.owed - 1), [Sent(Okay, d.remote, id, [])])
    else if m.DevSends? then DevActs(n, id, d, [Sent(Wrte, d.remote, id, m.data)])
    else DevActs(n, id, d.(phase := Dead, owed := 0), [Sent(Clse, d.remote, id, [])])
  }

  function HostActs(n: Net, id: u32, m: Event, max: nat): Net
    requires Enabled(HostOf(n, id), m, Env(id, max))
  {
    n.(hosts := n.hosts[id := Next(HostOf(n, id), m, Env(id, max))],
       toDev := n.toDev + Output(HostOf(n, id), m, Env(id, max)))
  }

  function DevActs(n: Net, id: u32, d: Dev, replies: seq<Sent>): Net {
    n.(devs := n.devs[id := d], toHost := n.toHost + replies)
  }

  function NetRun(events: seq<NetEvent>, max: nat): Option<Net> {
    if events == [] then Some(EMPTY)
    else
      var n := NetRun(events[..|events| - 1], max);
      var e := events[|events| - 1];
      if n.Some? && NetEnabled(n.value, e, max) then Some(NetNext(n.value, e, max)) else None
  }

  // ---- One stream's view

  function Keep(p: Sent, yes: bool): seq<Sent> {
    if yes then [p] else []
  }

  /** The packets from the stream of this id. */
  function Outgoing(packets: seq<Sent>, id: u32): seq<Sent> {
    if packets == [] then [] else Keep(packets[0], packets[0].arg0 == id) + Outgoing(packets[1..], id)
  }

  /** The packets to the stream of this id. */
  function Incoming(packets: seq<Sent>, id: u32): seq<Sent> {
    if packets == [] then [] else Keep(packets[0], packets[0].arg1 == id) + Incoming(packets[1..], id)
  }

  function LinkOf(n: Net, id: u32): Link {
    Link(HostOf(n, id), DevOf(n, id), Outgoing(n.toDev, id), Incoming(n.toHost, id))
  }

  /** The stream's own share of a step. */
  function ShareOf(n: Net, e: NetEvent, id: u32): Option<LinkEvent> {
    match e
    case Spawn(dest) => if LocalId(n.handedOut) == id then Some(HostMoves(OpenBegin(dest))) else None
    case TaskMoves(i, m) => if i == id then Some(HostMoves(m)) else None
    case ReaderTakes => if n.toHost != [] && n.toHost[0].arg1 == id then Some(HostTakes) else None
    case ReaderFinishes => if n.reader == Some(id) then Some(HostMoves(Finish)) else None
    case DeviceTakes(remote, reply) =>
      if n.toDev != [] && n.toDev[0].arg0 == id then Some(DevTakes(remote, reply)) else None
    case DeviceMoves(i, d) => if i == id then Some(d) else None
  }

  lemma {:induction false} OutgoingSnoc(packets: seq<Sent>, p: Sent, id: u32)
    ensures Outgoing(packets + [p], id) == Outgoing(packets, id) + Keep(p, p.arg0 == id)
  {
    hide Keep;
    if packets == [] {
      assert [p][1..] == [];
    } else {
      assert (packets + [p])[1..] == packets[1..] + [p];
      OutgoingSnoc(packets[1..], p, id);
    }
  }

  lemma OutgoingAppend(packets: seq<Sent>, more: seq<Sent>, who: u32, id: u32)
    requires |more| <= 1 && forall i :: 0 <= i < |more| ==> more[i].arg0 == who
    ensures Outgoing(packets + more, id) == Outgoing(packets, id) + (if who == id then more else [])
  {
    if more == [] {
      assert packets + more == packets;
    } else {
      assert more == [more[0]];
      OutgoingSnoc(packets, more[0], id);
    }
  }

  lemma {:induction false} IncomingSnoc(packets: seq<Sent>, p: Sent, id: u32)
    ensures Incoming(packets + [p], id) == Incoming(packets, id) + Keep(p, p.arg1 == id)
  {
    hide Keep;
    if packets == [] {
      assert [p][1..] == [];
    } else {
      assert (packets + [p])[1..] == packets[1..] + [p];
      IncomingSnoc(packets[1..], p, id);
    }
  }

  lemma IncomingAppend(packets: seq<Sent>, more: seq<Sent>, who: u32, id: u32)
    requires |more| <= 1 && forall i :: 0 <= i < |more| ==> more[i].arg1 == who
    ensures Incoming(packets + more, id) == Incoming(packets, id) + (if who == id then more else [])
  {
    if more == [] {
      assert packets + more == packets;
    } else {
      assert more == [more[0]];
      IncomingSnoc(packets, more[0], id);
    }
  }

  lemma OutputIsOwn(h: Host, m: Event, env: Env)
    requires Enabled(h, m, env)
    ensures |Output(h, m, env)| <= 1
    ensures forall i :: 0 <= i < |Output(h, m, env)| ==> Output(h, m, env)[i].arg0 == env.local
  {
  }

  /** A host step as one stream sees it: its own, or nothing. */
  lemma HostActsOn(n: Net, who: u32, m: Event, id: u32, max: nat)
    requires Enabled(HostOf(n, who), m, Env(who, max))
    ensures LinkOf(HostActs(n, who, m, max), id)
         == if who == id then HostMoved(LinkOf(n, id), m, Env(id, max)) else LinkOf(n, id)
  {
    hide Outgoing, Incoming, Next, Output, Enabled;
    OutputIsOwn(HostOf(n, who), m, Env(who, max));
    OutgoingAppend(n.toDev, Output(HostOf(n, who), m, Env(who, max)), who, id);
    assert Outgoing(n.toDev, id) + [] == Outgoing(n.toDev, id);
  }

  lemma DevActsKeeps(n: Net, who: u32, d: Dev, replies: seq<Sent>, id: u32)
    ensures var m := DevActs(n, who, d, replies);
            HostOf(m, id) == HostOf(n, id) && DevOf(m, id) == (if who == id then d else DevOf(n, id))
            && m.toDev == n.toDev && m.toHost == n.toHost + replies
  {
  }

  lemma DevActsOn(n: Net, who: u32, d: Dev, replies: seq<Sent>, id: u32)
    requires |replies| <= 1 && forall i :: 0 <= i < |replies| ==> replies[i].arg1 == who
    ensures LinkOf(DevActs(n, who, d, replies), id)
         == if who == id then DevMoved(LinkOf(n, id), d, replies) else LinkOf(n, id)
  {
    hide Outgoing, Incoming, HostOf, DevOf, DevActs;
    DevActsKeeps(n, who, d, replies, id);
    IncomingAppend(n.toHost, replies, who, id);
    assert Incoming(n.toHost, id) + [] == Incoming(n.toHost, id);
  }

  /** What a stream sees of a step is a step of its own, or nothing at all. */
  predicate Projects(n: Net, e: NetEvent, id: u32, max: nat)
    requires NetEnabled(n, e, max)
  {
    match ShareOf(n, e, id)
    case None => LinkOf(NetNext(n, e, max), id) == LinkOf(n, id)
    case Some(le) =>
      LinkEnabled(LinkOf(n, id), le, Env(id, max))
      && LinkNext(LinkOf(n, id), le, Env(id, max)) == LinkOf(NetNext(n, e, max), id)
  }

  lemma StepProjects(n: Net, e: NetEvent, id: u32, max: nat)
    requires NetEnabled(n, e, max)
    ensures Projects(n, e, id, max)
  {
    hide Outgoing, Incoming, Next, Output, HostMoved, DevMoved, DevNext, HostActs, DevActs, ReaderTook, DeviceTook,
         DeviceMoved;
    match e
    case Spawn(dest) => HostActsOn(n, LocalId(n.handedOut), OpenBegin(dest), id, max);
    case TaskMoves(i, m) => HostActsOn(n, i, m, id, max);
    case ReaderTakes => ReaderTookOn(n, n.toHost[0], id, max);
    case ReaderFinishes => HostActsOn(n, n.reader.value, Finish, id, max);
    case DeviceTakes(remote, reply) => DeviceTookOn(n, n.toDev[0], remote, reply, id, max);
    case DeviceMoves(i, m) => DeviceMovedOn(n, i, m, id, max);
  }

  lemma ReaderTookOn(n: Net, p: Sent, id: u32, max: nat)
    requires n.toHost != [] && p == n.toHost[0] && Enabled(HostOf(n, p.arg1), Take(p), Env(p.arg1, max))
    ensures p.arg1 == id ==> LinkOf(n, id).toHost != [] && LinkOf(n, id).toHost[0] == p
    ensures LinkOf(ReaderTook(n, p, max), id)
         == if p.arg1 == id then HostMoved(LinkOf(n, id), Take(p), Env(id, max)).(toHost := LinkOf(n, id).toHost[1..])
            else LinkOf(n, id)
  {
    HostActsOn(n, p.arg1, Take(p), id, max);
    var rest := Incoming(n.toHost[1..], id);
    assert Incoming(n.toHost, id) == Keep(p, p.arg1 == id) + rest;
    hide Outgoing, Incoming, Next, Output;
    assert [] + rest == rest && ([p] + rest)[1..] == rest;
  }

  lemma DeviceTookOn(n: Net, p: Sent, remote: u32, reply: bool, id: u32, max: nat)
    requires n.toDev != [] && p == n.toDev[0]
    ensures p.arg0 == id ==> LinkOf(n, id).toDev != [] && LinkOf(n, id).toDev[0] == p
    ensures LinkOf(DeviceTook(n, p, remote, reply, max), id)
         == if p.arg0 == id
            then DevMoved(LinkOf(n, id), DevNext(DevOf(n, id), p, remote),
                          DevReplies(DevOf(n, id), p, remote, reply, Env(id, max))).(toDev := LinkOf(n, id).toDev[1..])
            else LinkOf(n, id)
  {
    var d := DevOf(n, p.arg0);
    DevActsOn(n, p.arg0, DevNext(d, p, remote), DevReplies(d, p, remote, reply, Env(p.arg0, max)), id);
    var rest := Outgoing(n.toDev[1..], id);
    assert Outgoing(n.toDev, id) == Keep(p, p.arg0 == id) + rest;
    hide Outgoing, Incoming, DevNext, DevReplies;
    assert [] + rest == rest && ([p] + rest)[1..] == rest;
  }

  lemma DeviceMovedOn(n: Net, who: u32, m: LinkEvent, id: u32, max: nat)
    requires NetEnabled(n, DeviceMoves(who, m), max)
    ensures LinkOf(DeviceMoved(n, who, m), id)
         == if who == id then LinkNext(LinkOf(n, id), m, Env(id, max)) else LinkOf(n, id)
  {
    hide Outgoing, Incoming, DevActs;
    var d := DevOf(n, who);
    if m.DevAcks? {
      DevActsOn(n, who, d.(owed := d.owed - 1), [Sent(Okay, d.remote, who, [])], id);
    } else if m.DevSends? {
      DevActsOn(n, who, d, [Sent(Wrte, d.remote, who, m.data)], id);
    } else {
      DevActsOn(n, who, d.(phase := Dead, owed := 0), [Sent(Clse, d.remote, who, [])], id);
    }
  }

  /** Every reachable state looks, to every stream, like a state it can reach alone. */
  lemma {:induction false} NetRuns(events: seq<NetEvent>, id: u32, max: nat)
    requires NetRun(events, max).Some?
    ensures LinkInvariant(LinkOf(NetRun(events, max).value, id), Env(id, max))
  {
    hide NetNext, NetEnabled, LinkInvariant, LinkNext, LinkEnabled;
    if events == [] {
      StartHolds(Env(id, max));
    } else {
      var n, e := NetRun(events[..|events| - 1], max).value, events[|events| - 1];
      NetRuns(events[..|events| - 1], id, max);
      StepProjects(n, e, id, max);
      if ShareOf(n, e, id).Some? {
        LinkStep(LinkOf(n, id), ShareOf(n, e, id).value, Env(id, max));
      }
    }
  }

  /** Each stream of a connection delivers what it promises, in both directions, whatever the others do. */
  lemma StreamsDoNotInterfere(events: seq<NetEvent>, id: u32, max: nat)
    requires NetRun(events, max).Some?
    ensures var n := NetRun(events, max).value; Delivered(HostOf(n, id).own, DevOf(n, id).received, Env(id, max))
    ensures InboundAsPromised(HostOf(NetRun(events, max).value, id))
  {
    hide NetRun, LinkInvariant, Delivered, InboundAsPromised;
    NetRuns(events, id, max);
    var n := NetRun(events, max).value;
    InvariantDelivers(LinkOf(n, id), Env(id, max));
    HostPart(LinkOf(n, id), Env(id, max));
    InboundFollows(HostOf(n, id), Env(id, max));
  }

  lemma HostPart(l: Link, env: Env)
    requires LinkInvariant(l, env)
    ensures HostInvariant(l.host, env)
  {
  }

  // ---- Local ids

  /**
   Local ids count up from 1. They are all different for as long as the counter has not come
   round, and no longer.
   */
  lemma LocalIdsDiffer(n: nat)
    ensures LocalId(0) == 1 && LocalId(n + 1) == (LocalId(n) + 1) % 0x1_0000_0000
    ensures (forall i, j :: 0 <= i < j < n ==> LocalId(i) != LocalId(j)) <==> n <= U32_MOD
  {
    if n > U32_MOD {
      assert LocalId(0) == LocalId(U32_MOD);
    }
  }

  /** Until the counter comes round, an id not handed out yet belongs to no stream: opening never fails for it. */
  lemma {:induction false} NextIdIsFree(events: seq<NetEvent>, k: nat, max: nat)
    requires NetRun(events, max).Some? && NetRun(events, max).value.handedOut <= k < U32_MOD
    ensures HostOf(NetRun(events, max).value, LocalId(k)).own.pc == Fresh
    decreases |events|
  {
    hide NetNext, NetEnabled;
    if events != [] {
      var n, e := NetRun(events[..|events| - 1], max).value, events[|events| - 1];
      StaysFresh(n, e, k, max);
      NextIdIsFree(events[..|events| - 1], k, max);
    }
  }

  lemma StaysFresh(n: Net, e: NetEvent, k: nat, max: nat)
    requires NetEnabled(n, e, max) && NetNext(n, e, max).handedOut <= k < U32_MOD
    ensures n.handedOut <= k
    ensures HostOf(n, LocalId(k)).own.pc == Fresh ==> HostOf(NetNext(n, e, max), LocalId(k)).own.pc == Fresh
  {
    hide Next, Output, DevNext, DevReplies;
    var id := LocalId(k);
    if n.hosts != NetNext(n, e, max).hosts {
      if e.TaskMoves? && e.id == id {
        ActsFresh(n, id, e.e, max);
      } else if e.ReaderTakes? && n.toHost[0].arg1 == id {
        ActsFresh(n, id, Take(n.toHost[0]), max);
      } else if e.ReaderFinishes? && n.reader.value == id {
        ActsFresh(n, id, Finish, max);
      }
    }
  }

  lemma ActsFresh(n: Net, id: u32, m: Event, max: nat)
    requires Enabled(HostOf(n, id), m, Env(id, max)) && !m.OpenBegin?
    ensures HostOf(n, id).own.pc == Fresh ==> HostOf(HostActs(n, id, m, max), id).own.pc == Fresh
  {
    hide Output, SlotNext, WaiterNext, AppNext, InboxNext;
  }
}
