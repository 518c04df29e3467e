/**
 The reader task over many streams: it handles one packet at a time, whatever its stream, and is
 never held up; nor does any stream keep another's task, or the device's share of it, from moving.
 Runs of AdbNet.
 */
module AdbReader {
  import opened Wrappers
  import opened Bytes
  import opened PacketCore
  import opened AdbHost
  import opened AdbLink
  import opened AdbNet

  /** Only the stream whose packet the reader handles has a packet half handled. */
  ghost predicate OneAtATime(n: Net) {
    forall id: u32 :: HostOf(n, id).inbox.half.Some? <==> n.reader == Some(id)
  }

  lemma ActsOnHalf(n: Net, who: u32, m: Event, id: u32, max: nat)
    requires Enabled(HostOf(n, who), m, Env(who, max))
    ensures HostOf(HostActs(n, who, m, max), id).inbox.half
         == if id != who then HostOf(n, id).inbox.half
            else if m.Take? then HalfOf(m.packet)
            else if m == Finish then None
            else HostOf(n, id).inbox.half
  {
    hide OwnerNext, SlotNext, WaiterNext, AppNext, Output, HalfOf;
  }

  lemma ReaderActs(n: Net, max: nat)
    ensures NetEnabled(n, ReaderTakes, max)
            ==> Enabled(HostOf(n, n.toHost[0].arg1), Take(n.toHost[0]), Env(n.toHost[0].arg1, max))
    ensures NetEnabled(n, ReaderFinishes, max) ==> Enabled(HostOf(n, n.reader.value), Finish, Env(n.reader.value, max))
  {
  }

  lemma HalfStep(n: Net, e: NetEvent, id: u32, max: nat)
    requires NetEnabled(n, e, max)
    requires HostOf(n, id).inbox.half.Some? <==> n.reader == Some(id)
    ensures HostOf(NetNext(n, e, max), id).inbox.half.Some? <==> NetNext(n, e, max).reader == Some(id)
  {
    hide Next, Output, DevNext, DevReplies, Enabled, HalfOf;
    ReaderActs(n, max);
    match e
    case Spawn(dest) => ActsOnHalf(n, LocalId(n.handedOut), OpenBegin(dest), id, max);
    case TaskMoves(i, m) => ActsOnHalf(n, i, m, id, max);
    case ReaderTakes => ActsOnHalf(n, n.toHost[0].arg1, Take(n.toHost[0]), id, max);
    case ReaderFinishes => ActsOnHalf(n, n.reader.value, Finish, id, max);
    case _ =>
      hide HostActs;
  }

  lemma OneAtATimeStep(n: Net, e: NetEvent, max: nat)
    requires NetEnabled(n, e, max) && OneAtATime(n)
    ensures OneAtATime(NetNext(n, e, max))
  {
    forall id: u32
      ensures HostOf(NetNext(n, e, max), id).inbox.half.Some? <==> NetNext(n, e, max).reader == Some(id)
    {
      hide NetNext;
      HalfStep(n, e, id, max);
    }
  }

  lemma {:induction false} OneAtATimeRuns(events: seq<NetEvent>, max: nat)
    requires NetRun(events, max).Some?
    ensures OneAtATime(NetRun(events, max).value)
  {
    hide NetNext, NetEnabled;
    if events != [] {
      hide OneAtATime;
      OneAtATimeRuns(events[..|events| - 1], max);
      OneAtATimeStep(NetRun(events[..|events| - 1], max).value, events[|events| - 1], max);
    }
  }

  /**
   On every run: the reader can finish the packet it has, and else take the next, for as long as
   one is under way; it never does both.
   */
  lemma ReaderGoesOn(events: seq<NetEvent>, max: nat)
    requires NetRun(events, max).Some?
    ensures var n := NetRun(events, max).value;
            && (NetEnabled(n, ReaderFinishes, max) <==> n.reader.Some?)
            && (NetEnabled(n, ReaderTakes, max) <==> n.reader == None && n.toHost != [])
  {
    hide NetRun;
    OneAtATimeRuns(events, max);
  }

  /** What a stream's own task, or the device for it, could do if the stream were alone. */
  predicate Own(e: LinkEvent) {
    match e
    case HostMoves(m) => !m.OpenBegin? && m != Finish
    case DevAcks => true
    case DevSends(_) => true
    case DevCloses => true
    case _ => false
  }

  /** It can do among any other streams, and no more. */
  lemma NobodyIsHeldUp(n: Net, id: u32, own: LinkEvent, max: nat)
    requires Own(own)
    ensures var e := if own.HostMoves? then TaskMoves(id, own.e) else DeviceMoves(id, own);
            && (LinkEnabled(LinkOf(n, id), own, Env(id, max)) <==> NetEnabled(n, e, max))
            && ShareOf(n, e, id) == Some(own)
  {
    hide Outgoing, Incoming;
  }
}
