/** The MP4 recorder as an object: crates/native/src/capture.rs. */
module Mp4Object {
  import opened Wrappers
  import opened Bytes
  import opened Mp4Core
  import Nal = NalCore
  import NalLoops

  datatype StartError = NoParameterSets | NoSize

  datatype FinishError = NoFrames

  /** The sample queue of the MP4 writer. */
  class Writer {
    var samples: seq<Sample>

    constructor ()
      ensures samples == []
    {
      samples := [];
    }

    method Write(sample: Sample)
      modifies this
      ensures samples == old(samples) + [sample]
    {
      samples := samples + [sample];
    }
  }

  class Mp4Rec {
    const writer: Writer
    var samples: nat
    var waitIdr: bool
    var pending: Option<Pending>
    var loggedWait: bool

    constructor (writer: Writer)
      ensures this.writer == writer && samples == 0 && waitIdr && pending == None && !loggedWait
    {
      this.writer := writer;
      samples := 0;
      waitIdr := true;
      pending := None;
      loggedWait := false;
    }

    ghost predicate Valid()
      reads this, writer
    {
      samples == |writer.samples|
    }

    ghost function State(): Rec
      reads this, writer
    {
      Rec(waitIdr, pending, writer.samples, loggedWait)
    }

    method Push(pts: u64, keyframe: bool, nal: bytes)
      requires Valid()
      modifies this, writer
      ensures Valid() && State() == Mp4Core.Push(old(State()), Frame(pts, keyframe, nal))
    {
      hide Nal.AvccSample, Nal.NalsOf, Nal.TypesOf;
      ghost var f := Frame(pts, keyframe, nal);
      var idr := keyframe;
      if !idr {
        idr := AnyIdr(nal);
      }
      if waitIdr && !idr {
        if !loggedWait {
          loggedWait := true;
        }
        return;
      }
      var payload := NalLoops.AvccSample(nal);
      assert payload == Payload(f);
      if |payload| == 0 {
        return;
      }
      waitIdr := false;
      if pending.Some? {
        var prev := pending.value;
        pending := None;
        var ms := (if pts < prev.pts then 0 else pts - prev.pts) / 1000;
        WriteSample(prev, ms);
      }
      pending := Some(Pending(pts, idr, payload));
    }

    /** On success the recording is complete; the source deletes the file of a failed one. */
    method Finish() returns (r: Result<(), FinishError>)
      requires Valid()
      modifies this, writer
      ensures Valid() && writer.samples == Mp4Core.Finish(old(State())) && pending == None
      ensures r == if writer.samples == [] then Err(NoFrames) else Ok(())
    {
      if pending.Some? {
        var prev := pending.value;
        pending := None;
        WriteSample(prev, LAST_MS);
      }
      if samples == 0 {
        return Err(NoFrames);
      }
      return Ok(());
    }

    method WriteSample(p: Pending, ms: nat)
      requires Valid()
      modifies `samples, writer
      ensures Valid() && writer.samples == old(writer.samples) + [SampleOf(p, ms)]
    {
      var sample := Sample(p.pts / 1000, Clamp(ms), p.sync, p.payload);
      writer.Write(sample);
      samples := samples + 1;
    }
  }

  method AnyIdr(data: bytes) returns (found: bool)
    ensures found <==> 5 in Nal.TypesOf(Nal.NalsOf(data))
  {
    var nals := NalLoops.Nals(data);
    for i := 0 to |nals|
      invariant 5 in Nal.TypesOf(nals) <==> 5 in Nal.TypesOf(nals[i..])
    {
      assert nals[i..][1..] == nals[i + 1..];
      if Nal.NalType(nals[i]) == 5 {
        return true;
      }
    }
    return false;
  }

  /** The checks before a recording starts; creating the file and its header is left out. */
  method Start(width: u16, height: u16, csd: bytes) returns (r: Result<(bytes, bytes), StartError>)
    ensures r == match Nal.SpsPps(csd)
                 case None => Err(NoParameterSets)
                 case Some(sets) => if width == 0 || height == 0 then Err(NoSize) else Ok(sets)
  {
    var sets := NalLoops.SpsPps(csd);
    if sets.None? {
      return Err(NoParameterSets);
    }
    if width == 0 || height == 0 {
      return Err(NoSize);
    }
    return Ok(sets.value);
  }

  /** A whole recording: any pushes, then `finish`. */
  method Record(frames: seq<Frame>) returns (samples: seq<Sample>, ok: bool)
    ensures samples == Recording(Kept(frames))
    ensures ok <==> exists i :: 0 <= i < |frames| && Opens(frames[i])
  {
    hide Opens, Kept, Push, Mp4Core.Finish;
    var writer := new Writer();
    var rec := new Mp4Rec(writer);
    assert frames[..0] == [];
    for i := 0 to |frames|
      invariant fresh(writer) && fresh(rec) && rec.writer == writer && rec.Valid()
      invariant rec.State() == Run(frames[..i])
    {
      assert frames[..i + 1][..i] == frames[..i];
      rec.Push(frames[i].pts, frames[i].keyframe, frames[i].data);
    }
    assert frames[..|frames|] == frames;
    FinishedRecording(frames);
    var end := rec.Finish();
    return writer.samples, end.Ok?;
  }
}
