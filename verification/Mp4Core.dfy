/** What the MP4 recorder writes: `Mp4Rec` of crates/native/src/capture.rs. */
module Mp4Core {
  import opened Wrappers
  import opened Bytes
  import Nal = NalCore

  const MIN_MS := 1
  const MAX_MS := 10_000
  const LAST_MS := 33

  /** One call of `push`. */
  datatype Frame = Frame(pts: u64, keyframe: bool, data: bytes)

  /** A sample as handed to the MP4 writer, times in milliseconds. */
  datatype Sample = Sample(start: nat, duration: nat, sync: bool, payload: bytes)

  datatype Pending = Pending(pts: u64, sync: bool, payload: bytes)

  datatype Rec = Rec(waitIdr: bool, pending: Option<Pending>, written: seq<Sample>, loggedWait: bool)

  const INITIAL := Rec(true, None, [], false)

  predicate IsIdr(f: Frame) {
    f.keyframe || 5 in Nal.TypesOf(Nal.NalsOf(f.data))
  }

  function Payload(f: Frame): bytes {
    Nal.AvccSample(f.data)
  }

  function PendingOf(f: Frame): Pending {
    Pending(f.pts, IsIdr(f), Payload(f))
  }

  /** Microseconds from one frame to the next, none if time runs backwards. */
  function Gap(from: u64, to: u64): nat {
    if to < from then 0 else to - from
  }

  function Clamp(ms: nat): nat {
    if ms < MIN_MS then MIN_MS else if ms > MAX_MS then MAX_MS else ms
  }

  function SampleOf(p: Pending, ms: nat): Sample {
    Sample(p.pts / 1000, Clamp(ms), p.sync, p.payload)
  }

  function Push(r: Rec, f: Frame): Rec {
    if r.waitIdr && !IsIdr(f) then r.(loggedWait := true)
    else if Payload(f) == [] then r
    else
      Rec(false, Some(PendingOf(f)),
          r.written + (if r.pending.Some?
                       then [SampleOf(r.pending.value, Gap(r.pending.value.pts, f.pts) / 1000)]
                       else []),
          r.loggedWait)
  }

  function Finish(r: Rec): seq<Sample> {
    r.written + (if r.pending.Some? then [SampleOf(r.pending.value, LAST_MS)] else [])
  }

  function Run(frames: seq<Frame>): Rec {
    if frames == [] then INITIAL else Push(Run(frames[..|frames| - 1]), frames[|frames| - 1])
  }

  // ---- What a recording should hold

  /** A recording can begin here: an IDR picture with something to store. */
  predicate Opens(f: Frame) {
    IsIdr(f) && Payload(f) != []
  }

  function Nonempty(frames: seq<Frame>): seq<Frame> {
    if frames == [] then []
    else (if Payload(frames[0]) != [] then [frames[0]] else []) + Nonempty(frames[1..])
  }

  /** Where a recording begins: at the first frame that can open it, or nowhere. */
  function Opening(frames: seq<Frame>): (k: nat)
    ensures k <= |frames|
  {
    if frames == [] || Opens(frames[0]) then 0 else 1 + Opening(frames[1..])
  }

  /** That frame can open it, and no earlier one can. */
  lemma {:induction false} OpeningIsFirst(frames: seq<Frame>, i: nat)
    requires i < |frames| && i <= Opening(frames)
    ensures Opens(frames[i]) <==> i == Opening(frames)
  {
    hide Opens;
    if i > 0 {
      OpeningIsFirst(frames[1..], i - 1);
    }
  }

  /** The frames with something to store, from the first that can open a recording. */
  function Kept(frames: seq<Frame>): seq<Frame> {
    Nonempty(frames[Opening(frames)..])
  }

  /** Every kept frame once and in order, lasting until the next; the last for a fixed time. */
  function Recording(kept: seq<Frame>): seq<Sample> {
    if kept == [] then []
    else [SampleOf(PendingOf(kept[0]), if |kept| == 1 then LAST_MS else Gap(kept[0].pts, kept[1].pts) / 1000)]
         + Recording(kept[1..])
  }

  // ---- The run

  lemma AssocFrames(a: seq<Frame>, b: seq<Frame>, c: seq<Frame>)
    ensures a + (b + c) == a + b + c
  {
  }

  lemma {:induction false} NonemptySnoc(frames: seq<Frame>, f: Frame)
    ensures Nonempty(frames + [f]) == Nonempty(frames) + (if Payload(f) != [] then [f] else [])
  {
    hide Payload;
    if frames == [] {
      assert [f][1..] == [];
    } else {
      assert (frames + [f])[1..] == frames[1..] + [f];
      NonemptySnoc(frames[1..], f);
      var first, last := if Payload(frames[0]) != [] then [frames[0]] else [], if Payload(f) != [] then [f] else [];
      AssocFrames(first, Nonempty(frames[1..]), last);
    }
  }

  lemma {:induction false} OpeningSnoc(frames: seq<Frame>, f: Frame)
    ensures Opening(frames + [f]) == Opening(frames) + (if Opening(frames) == |frames| && !Opens(f) then 1 else 0)
  {
    hide Opens;
    if frames == [] {
      assert [f][1..] == [];
    } else {
      assert (frames + [f])[1..] == frames[1..] + [f];
      OpeningSnoc(frames[1..], f);
    }
  }

  lemma KeptIsEmpty(frames: seq<Frame>)
    ensures Kept(frames) == [] <==> Opening(frames) == |frames|
    ensures Kept(frames) != [] ==> Kept(frames)[0] == frames[Opening(frames)]
  {
    hide IsIdr, Payload;
    var k := Opening(frames);
    if k < |frames| {
      OpeningIsFirst(frames, k);
      assert Opens(frames[k]) && frames[k..][0] == frames[k];
    }
  }

  lemma KeptSnoc(frames: seq<Frame>, f: Frame)
    ensures Kept(frames + [f])
         == Kept(frames) + (if Payload(f) != [] && (IsIdr(f) || Kept(frames) != []) then [f] else [])
  {
    hide IsIdr, Payload, Opening;
    var k := Opening(frames);
    OpeningSnoc(frames, f);
    KeptIsEmpty(frames);
    if k == |frames| && !Opens(f) {
      assert (frames + [f])[k + 1..] == [];
    } else {
      assert (frames + [f])[k..] == frames[k..] + [f];
      NonemptySnoc(frames[k..], f);
    }
  }

  /** All samples of a recording but the last. */
  function Settled(kept: seq<Frame>): seq<Sample> {
    if |kept| < 2 then []
    else [SampleOf(PendingOf(kept[0]), Gap(kept[0].pts, kept[1].pts) / 1000)] + Settled(kept[1..])
  }

  lemma {:induction false} SettledSnoc(kept: seq<Frame>, f: Frame)
    requires kept != []
    ensures var last := kept[|kept| - 1];
            Settled(kept + [f]) == Settled(kept) + [SampleOf(PendingOf(last), Gap(last.pts, f.pts) / 1000)]
  {
    hide PendingOf, SampleOf;
    assert (kept + [f])[1..] == kept[1..] + [f];
    if |kept| > 1 {
      SettledSnoc(kept[1..], f);
    }
  }

  lemma {:induction false} RecordingIsSettled(kept: seq<Frame>)
    requires kept != []
    ensures Recording(kept) == Settled(kept) + [SampleOf(PendingOf(kept[|kept| - 1]), LAST_MS)]
  {
    hide PendingOf, SampleOf;
    if |kept| > 1 {
      RecordingIsSettled(kept[1..]);
    }
  }

  /** What the recorder knows of the kept frames: the last is not yet written. */
  predicate Knows(r: Rec, kept: seq<Frame>) {
    && r.waitIdr == (kept == [])
    && r.pending == (if kept == [] then None else Some(PendingOf(kept[|kept| - 1])))
    && r.written == Settled(kept)
  }

  lemma PushKnows(r: Rec, kept: seq<Frame>, f: Frame)
    requires Knows(r, kept)
    ensures Knows(Push(r, f), kept + (if Payload(f) != [] && (IsIdr(f) || kept != []) then [f] else []))
  {
    hide Payload, IsIdr, SampleOf, Gap;
    if kept != [] {
      SettledSnoc(kept, f);
    } else {
      assert [] + [f] == [f];
    }
    assert kept + [] == kept;
  }

  lemma {:induction false} RunKnows(frames: seq<Frame>)
    ensures Knows(Run(frames), Kept(frames))
  {
    hide Payload, IsIdr, Push;
    if frames != [] {
      hide Knows, Kept;
      var front, f := frames[..|frames| - 1], frames[|frames| - 1];
      RunKnows(front);
      assert frames == front + [f];
      KeptSnoc(front, f);
      PushKnows(Run(front), Kept(front), f);
    }
  }

  /**
   A finished recording holds the kept frames, each once and in order. It fails, because
   nothing was written, exactly when no frame could open it.
   */
  lemma FinishedRecording(frames: seq<Frame>)
    ensures Finish(Run(frames)) == Recording(Kept(frames))
    ensures Finish(Run(frames)) == [] <==> forall i :: 0 <= i < |frames| ==> !Opens(frames[i])
  {
    hide Run, Opens;
    RunKnows(frames);
    KeptIsEmpty(frames);
    if Kept(frames) != [] {
      RecordingIsSettled(Kept(frames));
      OpeningIsFirst(frames, Opening(frames));
    } else {
      forall i | 0 <= i < |frames|
        ensures !Opens(frames[i])
      {
        OpeningIsFirst(frames, i);
      }
    }
  }

  predicate HasUnit(data: bytes, t: nat) {
    exists k :: 0 <= k < |Nal.NalsOf(data)| && Nal.OfType(Nal.NalsOf(data)[k], t)
  }

  predicate HasPicture(data: bytes) {
    exists k :: 0 <= k < |Nal.NalsOf(data)| && !Nal.NoPicture(Nal.NalsOf(data)[k])
  }

  lemma {:induction false} TypeIsThere(list: Nal.Nals, t: byte)
    requires 0 < t < 32
    ensures t in Nal.TypesOf(list) <==> exists k :: 0 <= k < |list| && Nal.OfType(list[k], t as nat)
  {
    if list != [] {
      TypeIsThere(list[1..], t);
      if exists k :: 0 <= k < |list[1..]| && Nal.OfType(list[1..][k], t as nat) {
        var k :| 0 <= k < |list[1..]| && Nal.OfType(list[1..][k], t as nat);
        assert Nal.OfType(list[k + 1], t as nat);
      }
      if exists k :: 0 <= k < |list| && Nal.OfType(list[k], t as nat) {
        var k :| 0 <= k < |list| && Nal.OfType(list[k], t as nat);
        if k > 0 {
          assert Nal.OfType(list[1..][k - 1], t as nat);
        }
      }
    }
  }

  lemma IdrIs(f: Frame)
    ensures IsIdr(f) <==> f.keyframe || HasUnit(f.data, 5)
  {
    hide Nal.NalsOf;
    TypeIsThere(Nal.NalsOf(f.data), 5);
  }

  /**
   A recording can begin with a frame that is marked as a keyframe, or has a unit of type 5, and
   has something besides parameter sets, delimiters and supplemental information; so with every
   frame that has a unit of type 5.
   */
  lemma OpensExactly(f: Frame)
    ensures Opens(f) <==> (f.keyframe || HasUnit(f.data, 5)) && HasPicture(f.data)
    ensures HasUnit(f.data, 5) ==> Opens(f)
  {
    hide Nal.NalsOf, IsIdr, Nal.AvccSample;
    IdrIs(f);
    Nal.SampleIsEmpty(f.data);
    var list := Nal.NalsOf(f.data);
    if HasUnit(f.data, 5) {
      var k :| 0 <= k < |list| && Nal.OfType(list[k], 5);
      assert !Nal.NoPicture(list[k]);
    }
  }

  /** The sample of each kept frame. */
  lemma {:induction false} RecordingAt(kept: seq<Frame>, i: nat)
    requires i < |kept|
    ensures |Recording(kept)| == |kept|
    ensures var s, f := Recording(kept)[i], kept[i];
            && s.start == f.pts / 1000 && (s.sync <==> f.keyframe || HasUnit(f.data, 5))
            && s.payload == Nal.AvccSample(f.data)
    ensures i + 1 < |kept| ==>
              var d, gap := Recording(kept)[i].duration, kept[i + 1].pts - kept[i].pts;
              if gap < 2_000 then d == 1 else if gap >= 10_000_000 then d == 10_000 else d == gap / 1_000
    ensures i + 1 == |kept| ==> Recording(kept)[i].duration == 33
  {
    hide Nal.AvccSample, HasUnit, SampleOf, PendingOf, Gap;
    IdrIs(kept[i]);
    if i > 0 {
      RecordingAt(kept[1..], i - 1);
    } else {
      if |kept| > 1 {
        RecordingAt(kept[1..], 0);
      }
      SampleIs(kept[0], if |kept| == 1 then LAST_MS else Gap(kept[0].pts, kept[1].pts) / 1000);
      if |kept| > 1 {
        GapIs(kept[0].pts, kept[1].pts);
      }
    }
  }

  lemma SampleIs(f: Frame, ms: nat)
    ensures var s := SampleOf(PendingOf(f), ms);
            && s.start == f.pts / 1000 && s.sync == IsIdr(f) && s.payload == Nal.AvccSample(f.data)
            && s.duration == Clamp(ms)
  {
    hide Nal.AvccSample, IsIdr;
  }

  lemma GapIs(from: u64, to: u64)
    ensures var d, gap := Clamp(Gap(from, to) / 1000), to - from;
            if gap < 2_000 then d == 1 else if gap >= 10_000_000 then d == 10_000 else d == gap / 1_000
  {
  }

  /** A player can start at the first sample. */
  lemma FirstSampleIsSync(frames: seq<Frame>)
    requires Finish(Run(frames)) != []
    ensures Finish(Run(frames))[0].sync
  {
    FinishedRecording(frames);
    KeptIsEmpty(frames);
    hide IsIdr, Run, Finish;
    OpeningIsFirst(frames, Opening(frames));
  }

  // ---- Durations

  function Total(samples: seq<Sample>): nat {
    if samples == [] then 0 else samples[0].duration + Total(samples[1..])
  }

  /** Each kept frame 1 ms to 10 s after the one before. */
  predicate Steady(kept: seq<Frame>) {
    forall i :: 0 <= i < |kept| - 1 ==> 1_000 <= kept[i + 1].pts - kept[i].pts <= 10_000_000
  }

  /** Whole milliseconds are lost, at most one for each gap. */
  lemma {:induction false} DurationsCoverTheSpan(kept: seq<Frame>)
    requires kept != [] && Steady(kept)
    ensures var span := kept[|kept| - 1].pts - kept[0].pts;
            1000 * Total(Settled(kept)) <= span <= 1000 * Total(Settled(kept)) + 999 * (|kept| - 1)
  {
    hide PendingOf;
    if |kept| > 1 {
      DurationsCoverTheSpan(kept[1..]);
      var gap := kept[1].pts - kept[0].pts;
      assert 1_000 <= gap <= 10_000_000;
      assert Settled(kept)[0].duration == gap / 1000 && Settled(kept)[1..] == Settled(kept[1..]);
    }
  }
}
