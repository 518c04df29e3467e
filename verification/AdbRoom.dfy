/** On a whole connection: no payload of a stream is lost exactly when its queue always has room. */
module AdbRoom {
  import opened Wrappers
  import opened Bytes
  import opened PacketCore
  import opened AdbHost
  import opened AdbLink
  import opened AdbNet
  import opened AdbWire
  import opened AdbQueue

  /** The stream's own share of a step. */
  function HostShare(w: Wire, e: WireEvent, id: u32): Option<Event> {
    match e
    case Spawns(dest) => if LocalId(w.net.handedOut) == id then Some(OpenBegin(dest)) else None
    case Moves(i, m) => if i == id then Some(m) else None
    case WritesPayload(i) => if i == id then Some(SendStep(HostOf(w.net, id))) else None
    case Takes => if w.net.toHost != [] && w.net.toHost[0].arg1 == id then Some(Take(w.net.toHost[0])) else None
    case Finishes => if w.net.reader == Some(id) then Some(Finish) else None
    case _ => None
  }

  predicate MovesBy(h: Host, share: Option<Event>, next: Host, env: Env) {
    match share
    case None => next == h
    case Some(m) => Enabled(h, m, env) && next == Next(h, m, env)
  }

  lemma HostActed(n: Net, who: u32, m: Event, id: u32, max: nat)
    requires Enabled(HostOf(n, who), m, Env(who, max))
    ensures HostOf(HostActs(n, who, m, max), id)
         == if who == id then Next(HostOf(n, id), m, Env(id, max)) else HostOf(n, id)
  {
    hide Next, Output, Enabled;
  }

  lemma ActsHosts(w: Wire, who: u32, m: Event, id: u32, max: nat)
    requires Enabled(HostOf(w.net, who), m, Env(who, max))
    ensures Acts(w, who, m, max).net.hosts == HostActs(w.net, who, m, max).hosts
    ensures HostOf(HostActs(w.net, who, m, max), id)
         == if who == id then Next(HostOf(w.net, id), m, Env(id, max)) else HostOf(w.net, id)
  {
    hide Next, Output, Enabled, HostActs, WireOfAll;
    HostActed(w.net, who, m, id, max);
  }

  lemma HostMovesBy(w: Wire, e: WireEvent, id: u32, max: nat)
    requires WireEnabled(w, e, max)
    ensures MovesBy(HostOf(w.net, id), HostShare(w, e, id), HostOf(WireNext(w, e, max).net, id), Env(id, max))
  {
    hide Next, Output, DevNext, DevReplies, HeaderOf, WireOfAll, HostActs, LocalId, Acts;
    var n := w.net;
    match e
    case Spawns(dest) => ActsHosts(w, LocalId(n.handedOut), OpenBegin(dest), id, max);
    case Moves(i, m) => ActsHosts(w, i, m, id, max);
    case WritesPayload(i) => HostActed(n, i, SendStep(HostOf(n, i)), id, max);
    case Takes => ActsHosts(w, n.toHost[0].arg1, Take(n.toHost[0]), id, max);
    case Finishes => ActsHosts(w, n.reader.value, Finish, id, max);
    case _ =>
  }

  /** Whenever the reader decides upon a payload of the stream, fewer than 128 are queued. */
  predicate RoomThroughout(events: seq<WireEvent>, id: u32, max: nat)
    requires WireRun(events, max).Some?
  {
    events == []
    || (var front, e := events[..|events| - 1], events[|events| - 1];
        var w := WireRun(front, max).value;
        && RoomThroughout(front, id, max)
        && (HostShare(w, e, id).Some? && Decides(HostOf(w.net, id), HostShare(w, e, id).value)
            ==> |HostOf(w.net, id).slot.queue| < 128))
  }

  /** Whenever it does, the stream is in use and the device has not closed it. */
  predicate OpenThroughout(events: seq<WireEvent>, id: u32, max: nat)
    requires WireRun(events, max).Some?
  {
    events == []
    || (var front, e := events[..|events| - 1], events[|events| - 1];
        var w := WireRun(front, max).value;
        && OpenThroughout(front, id, max)
        && (HostShare(w, e, id).Some? && Decides(HostOf(w.net, id), HostShare(w, e, id).value)
            ==> InUse(HostOf(w.net, id).own.pc) && !TookClse(HostOf(w.net, id).inbox.taken)))
  }

  /** Whatever the other tasks write in between, each stream's tasks keep the host invariant. */
  lemma {:induction false} HostHolds(events: seq<WireEvent>, id: u32, max: nat)
    requires WireRun(events, max).Some?
    ensures HostInvariant(HostOf(WireRun(events, max).value.net, id), Env(id, max))
  {
    hide WireNext, WireEnabled, HostInvariant, HostShare, Next, Enabled;
    if events == [] {
      Beginning(Env(id, max));
    } else {
      var front, e := events[..|events| - 1], events[|events| - 1];
      var w := WireRun(front, max).value;
      HostHolds(front, id, max);
      HostMovesBy(w, e, id, max);
      if HostShare(w, e, id).Some? {
        HostStep(HostOf(w.net, id), HostShare(w, e, id).value, Env(id, max));
      }
    }
  }

  /** So what the device sends is received as promised on every run, interrupted or not. */
  lemma InboundAnyway(events: seq<WireEvent>, id: u32, max: nat)
    requires WireRun(events, max).Some?
    ensures InboundAsPromised(HostOf(WireRun(events, max).value.net, id))
  {
    hide WireRun, HostInvariant, InboundAsPromised;
    HostHolds(events, id, max);
    InboundFollows(HostOf(WireRun(events, max).value.net, id), Env(id, max));
  }

  predicate NotClosedYet(pc: Pc) {
    pc.Fresh? || InUse(pc)
  }

  lemma UseContinues(h: Host, m: Event, env: Env)
    requires Enabled(h, m, env) && NotClosedYet(Next(h, m, env).own.pc)
    ensures NotClosedYet(h.own.pc)
  {
    hide SlotNext, WaiterNext, AppNext, InboxNext, Output, WriteChunks;
  }

  lemma CountsClse(taken: seq<Sent>)
    ensures TookClse(taken) ==> Count(taken, Clse) > 0
  {
    if TookClse(taken) {
      var i :| 0 <= i < |taken| && taken[i].command == Clse;
      CountsAt(taken, i);
    }
  }

  lemma {:induction false} CountsAt(taken: seq<Sent>, i: nat)
    requires i < |taken| && taken[i].command == Clse
    ensures Count(taken, Clse) > 0
  {
    if i > 0 {
      CountsAt(taken[1..], i - 1);
    }
  }

  /** A device that follows the protocol sends nothing before it is asked, and nothing after its CLSE. */
  lemma DecidesInUse(l: Link, env: Env)
    requires LinkInvariant(l, env) && NotClosedYet(l.host.own.pc) && InHand(l.host.inbox) != []
    ensures InUse(l.host.own.pc) && !TookClse(l.host.inbox.taken)
  {
    CountsClse(l.host.inbox.taken);
    hide Count, Payloads, Addressed, HostInvariant, TookClse;
  }

  lemma DecisionStep(h: Host, share: Option<Event>, next: Host, env: Env)
    requires HostInvariant(h, env) && MovesBy(h, share, next, env)
    requires share.Some? && Decides(h, share.value) ==> InUse(h.own.pc) && !TookClse(h.inbox.taken)
    ensures AllTrue(next.inbox.fate) <==>
              AllTrue(h.inbox.fate)
              && (share.Some? && Decides(h, share.value) ==> |h.slot.queue| < 128)
  {
    hide HostInvariant, AllTrue, OwnerNext, SlotNext, WaiterNext, AppNext, InboxNext, Output, Enabled, InHand, InUse,
         TookClse;
    if share.Some? {
      if Decides(h, share.value) {
        DecisionIs(h, share.value, env);
        AllTrueSnoc(h.inbox.fate, |h.slot.queue| < 128);
      } else {
        OtherStepsDecideNothing(h, share.value, env);
      }
    }
  }

  lemma StreamInvariant(events: seq<WireEvent>, id: u32, max: nat) returns (l: Link)
    requires WireRun(events, max).Some? && Together(events, max) && 0 < max <= MAX_PAYLOAD
    ensures LinkInvariant(l, Env(id, max)) && l.host == HostOf(WireRun(events, max).value.net, id)
  {
    hide WireRun, NetRun, Whole, Tidy, LinkInvariant;
    var whole := TogetherIsWhole(events, max);
    var w := WireRun(events, max).value;
    NetRuns(whole, id, max);
    WholeIs(w);
    l := LinkOf(Whole(w), id);
  }

  lemma OpenStep(h: Host, share: Option<Event>, next: Host, l: Link, env: Env)
    requires LinkInvariant(l, env) && l.host == h && MovesBy(h, share, next, env) && NotClosedYet(next.own.pc)
    ensures NotClosedYet(h.own.pc)
    ensures share.Some? && Decides(h, share.value) ==> InUse(h.own.pc) && !TookClse(h.inbox.taken)
  {
    hide LinkInvariant, OwnerNext, SlotNext, WaiterNext, AppNext, InboxNext, Output, Enabled, InHand, InUse, TookClse;
    if share.Some? {
      UseContinues(h, share.value, env);
      if Decides(h, share.value) {
        DecidesInUse(l, env);
      }
    }
  }

  /** That is so on every run that keeps packets together, until the host closes the stream. */
  lemma {:induction false} TogetherIsOpen(events: seq<WireEvent>, id: u32, max: nat)
    requires WireRun(events, max).Some? && Together(events, max) && 0 < max <= MAX_PAYLOAD
    requires NotClosedYet(HostOf(WireRun(events, max).value.net, id).own.pc)
    ensures OpenThroughout(events, id, max)
  {
    hide WireNext, WireEnabled, KeepsTogether, MovesBy, NotClosedYet, HostShare, Decides, LinkInvariant, InUse,
         TookClse;
    if events != [] {
      var front, e := events[..|events| - 1], events[|events| - 1];
      var w, v := WireRun(front, max).value, WireRun(events, max).value;
      HostMovesBy(w, e, id, max);
      var l := StreamInvariant(front, id, max);
      OpenStep(HostOf(w.net, id), HostShare(w, e, id), HostOf(v.net, id), l, Env(id, max));
      TogetherIsOpen(front, id, max);
    }
  }

  /**
   On every run, whatever is written in between: no payload of a stream that is open when
   payloads come was turned away exactly when its queue had room each time.
   */
  lemma {:induction false} NoneLostExactly(events: seq<WireEvent>, id: u32, max: nat)
    requires WireRun(events, max).Some? && OpenThroughout(events, id, max)
    ensures AllTrue(HostOf(WireRun(events, max).value.net, id).inbox.fate) <==> RoomThroughout(events, id, max)
  {
    hide WireNext, WireEnabled, AllTrue, MovesBy, HostShare, Decides, HostInvariant, InUse, TookClse;
    if events == [] {
      NothingLost();
    } else {
      var front, e := events[..|events| - 1], events[|events| - 1];
      var w, v := WireRun(front, max).value, WireRun(events, max).value;
      HostMovesBy(w, e, id, max);
      HostHolds(front, id, max);
      DecisionStep(HostOf(w.net, id), HostShare(w, e, id), HostOf(v.net, id), Env(id, max));
      NoneLostExactly(front, id, max);
    }
  }

  lemma NothingLost()
    ensures AllTrue(INITIAL.inbox.fate)
  {
  }
}
