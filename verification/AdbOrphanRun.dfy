/**
 A run to a `write` that no answer will reach: the device closes an open stream, the reader
 takes its CLSE, and only then the `write` begins. The source ends it by a timeout.
 */
module AdbOrphanRun {
  import opened Wrappers
  import opened Bytes
  import opened PacketCore
  import opened AdbHost
  import opened AdbLink
  import opened AdbProgress

  /** What the steps of the run depend on. */
  datatype View = View(pc: Pc, slot: Slot, waiter: Waiter, half: Option<Half>, dev: Dev, toDev: seq<Sent>,
                       toHost: seq<Sent>)

  function ViewOf(l: Link): View {
    View(l.host.own.pc, l.host.slot, l.host.waiter, l.host.inbox.half, l.dev, l.toDev, l.toHost)
  }

  const ENV := Env(1, 4096)
  const DEST: bytes := [7]
  const OKAY := Sent(Okay, 9, 1, [])
  const CLSE := Sent(Clse, 9, 1, [])
  const LIVE := Dev(Live, 9, [], 0)

  lemma Goes(r: seq<LinkEvent>, l: Link, e: LinkEvent) returns (v: Link)
    requires LinkRun(r, ENV) == Some(l) && LinkEnabled(l, e, ENV)
    ensures LinkRun(r + [e], ENV) == Some(v) && v == LinkNext(l, e, ENV)
  {
    hide LinkNext, LinkEnabled;
    assert (r + [e])[..|r|] == r;
    v := LinkNext(l, e, ENV);
  }

  lemma OpenIsOut() returns (r: seq<LinkEvent>, l: Link)
    ensures LinkRun(r, ENV) == Some(l)
    ensures ViewOf(l) == View(OpenWait, Slot(true, 0, true, []), Waiter(true, None), None, START.dev,
                              [Sent(Open, 1, 0, DEST + [0])], [])
  {
    r, l := [], START;
    assert LinkRun(r, ENV) == Some(l);
    hide LinkRun, AppNext;
    l := Goes(r, l, HostMoves(OpenBegin(DEST)));
    r := r + [HostMoves(OpenBegin(DEST))];
    l := Goes(r, l, HostMoves(DoOpenRegister));
    r := r + [HostMoves(DoOpenRegister)];
    l := Goes(r, l, HostMoves(DoOpenSend));
    r := r + [HostMoves(DoOpenSend)];
  }

  lemma OpenIsAnswered() returns (r: seq<LinkEvent>, l: Link)
    ensures LinkRun(r, ENV) == Some(l)
    ensures ViewOf(l) == View(OpenWait, Slot(true, 9, true, []), Waiter(true, None), Some(HalfOkay(9)), LIVE, [], [])
  {
    r, l := OpenIsOut();
    hide LinkRun, AppNext;
    l := Goes(r, l, DevTakes(9, true));
    r := r + [DevTakes(9, true)];
    assert ViewOf(l) == View(OpenWait, Slot(true, 0, true, []), Waiter(true, None), None, LIVE, [], [OKAY]);
    l := Goes(r, l, HostTakes);
    r := r + [HostTakes];
  }

  lemma IsOpen() returns (r: seq<LinkEvent>, l: Link)
    ensures LinkRun(r, ENV) == Some(l)
    ensures ViewOf(l) == View(Idle, Slot(true, 9, true, []), Waiter(false, None), None, LIVE, [], [])
  {
    r, l := OpenIsAnswered();
    hide LinkRun, AppNext;
    l := Goes(r, l, HostMoves(Finish));
    r := r + [HostMoves(Finish)];
    l := Goes(r, l, HostMoves(OpenFinish));
    r := r + [HostMoves(OpenFinish)];
  }

  lemma ClseIsTaken() returns (r: seq<LinkEvent>, l: Link)
    ensures LinkRun(r, ENV) == Some(l)
    ensures ViewOf(l) == View(Idle, Slot(true, 9, false, []), Waiter(false, None), None, LIVE.(phase := Dead), [], [])
  {
    r, l := IsOpen();
    hide LinkRun, AppNext;
    l := Goes(r, l, DevCloses);
    r := r + [DevCloses];
    assert l.toHost == [CLSE];
    l := Goes(r, l, HostTakes);
    r := r + [HostTakes];
    l := Goes(r, l, HostMoves(Finish));
    r := r + [HostMoves(Finish)];
  }

  /** The table still holds the stream, so the `write` does not fail; it waits. */
  lemma WriteIsOrphaned() returns (r: seq<LinkEvent>, l: Link)
    ensures LinkRun(r, ENV) == Some(l) && l.host.own.pc.WriteWait? && Orphaned(l)
  {
    r, l := ClseIsTaken();
    assert WriteChunks([0], 4096) == [[0]];
    hide LinkRun, AppNext, WriteChunks;
    l := Goes(r, l, HostMoves(WriteBegin([0])));
    r := r + [HostMoves(WriteBegin([0]))];
    l := Goes(r, l, HostMoves(DoWriteRegister));
    r := r + [HostMoves(DoWriteRegister)];
    l := Goes(r, l, HostMoves(DoWriteSend));
    r := r + [HostMoves(DoWriteSend)];
  }
}
