/** The control demultiplexer as an object: crates/server/src/control.rs. */
module ControlObject {
  import opened Wrappers
  import opened Bytes
  import opened Proto
  import opened Framing
  import Spec = ControlCore
  import opened ControlCore

  /** Stands for the injector and the encoder: it notes what it is told to do. */
  class Device {
    var log: seq<Action>

    constructor ()
      ensures log == []
    {
      log := [];
    }

    method Do(action: Action)
      modifies this
      ensures log == old(log) + [action]
    {
      log := log + [action];
    }
  }

  method ApplyMessage(m: Message, device: Device)
    modifies device
    ensures device.log == old(device.log) + Actions(m)
  {
    match m
    case Touch(action, id, x, y, pressure) => device.Do(TouchCall(action, id, x, y, pressure));
    case Key(action, keycode, meta) => device.Do(KeyCall(action, keycode, meta));
    case KeySyn(keycode, action) => device.Do(KeyCall(action, keycode, 0));
    case Text(s) => device.Do(TextCall(s));
    case Scroll(x, y, h, v) => device.Do(ScrollCall(x, y, Notches(h), Notches(v)));
    case SetEncoding(bitrate, fps, size) => device.Do(SetEncodingCall(bitrate, fps, size));
    case PauseResume(on) => device.Do(PauseCall(on));
    case VideoFrame(_, _, _) =>
    case Configure(_, _, _, _) =>
    case Reserved(_, _) =>
  }

  class ControlDemux {
    var buf: bytes

    constructor ()
      ensures buf == []
    {
      buf := [];
    }

    method Push(data: bytes, device: Device) returns (error: Option<ProtoError>)
      modifies this, device
      ensures var p := Spec.Push(old(buf), data);
              buf == p.buf && device.log == old(device.log) + p.actions && error == p.error
    {
      hide TryDecodeFrame, Actions, ParseAll;
      buf := buf + data;
      ghost var all := ParseAll(buf);
      ghost var done: seq<Message> := [];
      while true
        invariant Parsed(done, [], None).Then(ParseAll(buf)) == all
        invariant device.log == old(device.log) + ActionsOf(done)
        decreases |buf|
      {
        ParseAllTurns(done, buf);
        match TryDecodeFrame(buf)
        case Ok(None) =>
          return None;
        case Ok(Some((m, n))) =>
          buf := buf[n..];
          ApplyMessage(m, device);
          ActionsOfAppend(done, [m]);
          assert ActionsOf([m]) == Actions(m) + ActionsOf([m][1..]) == Actions(m);
          done := done + [m];
        case Err(e) =>
          buf := [];
          return Some(e);
      }
    }
  }
}
