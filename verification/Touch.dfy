/** The touch slots as an object: crates/server/src/inject.rs. */
module TouchObject {
  import opened Bytes
  import opened Rounding
  import Spec = TouchCore
  import opened TouchCore

  class TouchSlots {
    const down: array<bool>

    ghost predicate Valid()
      reads this
    {
      down.Length == SLOTS
    }

    constructor ()
      ensures Valid() && fresh(down) && down[..] == ALL_UP
    {
      down := new bool[SLOTS](_ => false);
    }

    method Apply(action: byte, id: byte, x: i32, y: i32, pressure: u16) returns (out: seq<Ev>)
      requires Valid()
      modifies down
      ensures down[..] == NextDown(old(down[..]), TouchCall(action, id, x, y, pressure))
      ensures out == Events(old(down[..]), TouchCall(action, id, x, y, pressure))
    {
      var slot := Min(id as int, 9);
      out := [Ev(EV_ABS, ABS_MT_SLOT, slot)];
      if action == ACTION_UP || action == ACTION_CANCEL {
        down[slot] := false;
        out := out + [Ev(EV_ABS, ABS_MT_TRACKING_ID, -1)];
      } else if action == ACTION_DOWN || action == ACTION_MOVE {
        if action == ACTION_DOWN || !down[slot] {
          out := out + [Ev(EV_ABS, ABS_MT_TRACKING_ID, slot)];
        }
        down[slot] := true;
        out := out + [Ev(EV_ABS, ABS_MT_POSITION_X, x)];
        out := out + [Ev(EV_ABS, ABS_MT_POSITION_Y, y)];
        out := out + [Ev(EV_ABS, ABS_MT_PRESSURE, Max(0, Min(pressure, 255)))];
        out := out + [Ev(EV_ABS, ABS_MT_TOUCH_MAJOR, 6)];
      } else {
        return [];
      }
      var any := AnyDown();
      out := out + [Ev(EV_KEY, BTN_TOUCH, if any then 1 else 0)];
      out := out + [Ev(EV_SYN, SYN_REPORT, 0)];
      assert down[..] == NextDown(old(down[..]), TouchCall(action, id, x, y, pressure));
    }

    method AnyDown() returns (any: bool)
      requires Valid()
      ensures any == SomeDown(down[..])
    {
      any := false;
      for i := 0 to down.Length
        invariant any == SomeDown(down[..i])
      {
        assert down[..i + 1] == down[..i] + [down[i]];
        assert forall k :: 0 <= k < i ==> down[..i + 1][k] == down[..i][k];
        if down[i] {
          assert down[..i + 1][i];
          any := true;
        }
      }
      assert down[..down.Length] == down[..];
    }
  }
}
