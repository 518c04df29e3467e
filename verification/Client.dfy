/** The mirror client as an object: crates/client/src/lib.rs. */
module ClientObject {
  import opened Wrappers
  import opened Bytes
  import opened Utf8
  import opened Proto
  import opened Framing
  import Spec = ClientCore
  import opened ClientCore

  /** The client as the source writes it: fields updated in place, events pushed as they come. */
  class Client {
    var buf: bytes
    var handshake: bool
    var fatal: bool
    var width: u16
    var height: u16
    var rotation: byte
    var codec: Option<Codec>
    var csd: bytes
    var deviceName: utf8
    var caps: byte
    var skipUntilKey: bool

    function State(): Core
      reads this
    {
      Core(buf, handshake, fatal, width, height, rotation, codec, csd, deviceName, caps, skipUntilKey)
    }

    constructor ()
      ensures State() == FRESH
    {
      buf, handshake, fatal := [], false, false;
      width, height, rotation := 0, 0, 0;
      codec, csd, deviceName, caps, skipUntilKey := None, [], [], 0, false;
    }

    method SetRotation(quarters: byte)
      modifies this`rotation
      ensures State() == old(State()).(rotation := quarters % 4)
    {
      rotation := quarters % 4;
    }

    method RequestKeyframeSkip()
      modifies this`skipUntilKey
      ensures State() == WithSkip(old(State()), true)
    {
      skipUntilKey := true;
    }

    method OnBytes(data: bytes) returns (out: seq<Out>)
      modifies this
      ensures Step(State(), out) == Spec.OnBytes(old(State()), data)
    {
      hide TryDecodeHandshake, ParseAll, Drained, Spec.ApplyHandshake;
      if fatal {
        return [];
      }
      buf := buf + data;
      if handshake {
        out := DrainFrames();
      } else {
        match TryDecodeHandshake(buf)
        case Ok(None) =>
          out := [];
        case Ok(Some((h, n))) =>
          var rest := buf[n..];
          HandshakeKeepsBuffer(State(), h, rest);
          buf := rest;
          out := ApplyHandshake(h);
          var more := DrainFrames();
          out := out + more;
        case Err(e) =>
          out := Fail(e);
      }
    }

    /** The loop over the complete frames in the buffer. */
    method DrainFrames() returns (out: seq<Out>)
      modifies this
      ensures Step(State(), out) == Drained(old(State()), ParseAll(old(buf)))
    {
      hide TryDecodeFrame, ParseAll, Drained, Spec.ApplyMessage;
      out := [];
      ghost var c := State();
      ghost var done := Drained(c, ParseAll(c.buf));
      assert [] + done.outs == done.outs;
      while true
        invariant State() == c
        invariant Drained(c, ParseAll(c.buf)).After(out) == done
        decreases |c.buf|
      {
        Spec.DrainedUnfolds(c);
        match TryDecodeFrame(buf)
        case Ok(None) =>
          assert out + [] == out;
          return;
        case Ok(Some((m, n))) =>
          ghost var first := Spec.ApplyMessage(c.(buf := c.buf[n..]), m);
          Spec.ApplyMessageFrame(c, m, c.buf[n..]);
          Drained(first.core, ParseAll(first.core.buf)).AfterAfter(first.outs, out);
          buf := buf[n..];
          var o := ApplyMessage(m);
          out := out + o;
          c := first.core;
        case Err(e) =>
          var o := Fail(e);
          out := out + o;
          return;
      }
    }

    method Fail(e: ProtoError) returns (out: seq<Out>)
      modifies this`fatal, this`buf
      ensures Step(State(), out) == Spec.Fail(old(State()), e)
    {
      fatal := true;
      buf := [];
      out := [Error(FromProto(e))];
    }

    method ApplyHandshake(h: Handshake) returns (out: seq<Out>)
      modifies this
      ensures Step(State(), out) == Spec.ApplyHandshake(old(State()), h)
    {
      handshake := true;
      width := h.width;
      height := h.height;
      codec := Some(h.codec);
      csd := h.csd;
      deviceName := h.deviceName;
      caps := h.caps;
      out := [DeviceName(h.deviceName), Reconfigure(h.codec, h.csd, h.width, h.height)];
    }

    method ApplyMessage(m: Message) returns (out: seq<Out>)
      modifies this
      ensures Step(State(), out) == Spec.ApplyMessage(old(State()), m)
    {
      match m
      case Configure(c, w, h, newCsd) =>
        codec := Some(c);
        width := w;
        height := h;
        if newCsd != [] {
          csd := newCsd;
        }
        out := [Reconfigure(c, newCsd, w, h)];
      case VideoFrame(pts, keyframe, nal) =>
        if skipUntilKey && !keyframe {
          return [];
        }
        if keyframe {
          skipUntilKey := false;
        }
        out := [Frame(pts, keyframe, nal)];
      case Reserved(_, _) =>
        out := [];
      case other =>
        out := [Error(Unexpected(Tag(other)))];
    }
  }

  /** Whether the handshake's bytes are dropped before or after it is applied is the same. */
  lemma HandshakeKeepsBuffer(c: Core, h: Handshake, rest: bytes)
    ensures var late, early := Spec.ApplyHandshake(c, h), Spec.ApplyHandshake(c.(buf := rest), h);
            && late.outs == early.outs && early.core.buf == rest
            && Drained(late.core, ParseAll(rest)) == Drained(early.core, ParseAll(rest))
  {
    hide ParseAll, Drained;
    Spec.DrainedIgnoresBuffer(Spec.ApplyHandshake(c, h).core, rest, ParseAll(rest));
  }
}
