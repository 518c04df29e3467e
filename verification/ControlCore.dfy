/**
 The server's side of the control channel: crates/server/src/control.rs. Injector and
 encoder calls become a log; the functions here specify the class in Control.dfy.
 */
module ControlCore {
  import opened Wrappers
  import opened Bytes
  import opened Utf8
  import opened Proto
  import opened Framing
  import opened ClientCore
  import opened Letterbox
  import Rounding

  // ---- Wheel notches

  /** Distance between neighbouring single-precision numbers around `a`. */
  function Spacing(a: nat): (s: nat)
    ensures s >= 1 && (a < 0x100_0000 ==> s == 1) && s <= a + 1
    ensures a >= 0x100_0000 ==> s * 0x80_0000 <= a
  {
    if a < 0x100_0000 then 1 else 2 * Spacing(a / 2)
  }

  /** Nearest multiple of `s`, ties to the even one. */
  function NearestEven(a: nat, s: nat): (r: nat)
    requires s >= 1
    ensures 2 * (r - a) <= s && 2 * (a - r) <= s
  {
    var m := a % s;
    assert m <= a by { RemainderFits(a, s); }
    if 2 * m < s || (2 * m == s && a / s % 2 == 0) then a - m else a - m + s
  }

  lemma RemainderFits(a: nat, s: nat)
    requires s >= 1
    ensures a % s <= a
  {
    if a >= s {
      assert a % s < s;
    }
  }

  /** `as f32` on an integer. */
  function AsF32(n: int): int {
    if n >= 0 then NearestEven(n, Spacing(n)) else 0 - NearestEven(-n, Spacing(-n))
  }

  // ---- The cast gives the nearest single-precision number

  function Pow2(e: nat): (p: nat)
    ensures p >= 1
  {
    if e == 0 then 1 else 2 * Pow2(e - 1)
  }

  /** What single precision can hold: a number of 24 bits times a power of two. */
  predicate IsSingle(r: nat, m: nat, e: nat) {
    m < 0x100_0000 && r == m * Pow2(e)
  }

  function Distance(a: nat, b: nat): nat {
    if a < b then b - a else a - b
  }

  lemma {:induction false} SpacingIsPower(a: nat) returns (e: nat)
    ensures Spacing(a) == Pow2(e) && a < Spacing(a) * 0x100_0000
  {
    if a < 0x100_0000 {
      e := 0;
    } else {
      var f := SpacingIsPower(a / 2);
      e := f + 1;
    }
  }

  /** A multiple, as a term of its own. */
  function Times(s: nat, k: nat): nat {
    s * k
  }

  lemma Multiples(s: nat, x: nat, y: nat)
    requires s >= 1
    ensures x < y ==> Times(s, x) + s <= Times(s, y)
    ensures x <= y ==> Times(s, x) <= Times(s, y)
    ensures Times(s, x + 1) == Times(s, x) + s
  {
    TimesSum(s, x, 1);
    if x < y {
      TimesSum(s, x, y - x);
      TimesGrows(s, y - x);
    }
    hide Times;
  }

  lemma TimesSum(s: nat, x: nat, d: nat)
    ensures Times(s, x + d) == Times(s, x) + Times(s, d) && Times(s, 1) == s
  {
  }

  lemma TimesGrows(s: nat, d: nat)
    requires d >= 1
    ensures Times(s, d) >= s
  {
  }

  /** A larger power is a multiple of a smaller one. */
  lemma {:induction false} PowersDivide(e: nat, f: nat) returns (k: nat)
    requires e <= f
    ensures Pow2(f) == Times(Pow2(e), k) && (e < f ==> k >= 2) && k >= 1
    decreases f
  {
    if e == f {
      k := 1;
    } else {
      var h := PowersDivide(e, f - 1);
      k := 2 * h;
      Twice(Pow2(e), h);
    }
  }

  lemma Twice(s: nat, h: nat)
    ensures Times(s, 2 * h) == 2 * Times(s, h)
  {
  }

  /** The multiples of `s` around `a`, and which one is taken. */
  lemma NearestIs(a: nat, s: nat) returns (q: nat)
    requires s >= 1
    ensures Times(s, q) <= a < Times(s, q) + s
    ensures NearestEven(a, s) ==
            if 2 * (a - Times(s, q)) < s || (2 * (a - Times(s, q)) == s && q % 2 == 0) then Times(s, q)
            else Times(s, q) + s
  {
    q := a / s;
    assert a == s * q + a % s;
  }

  /** No multiple of the spacing is nearer. */
  lemma NoMultipleNearer(a: nat, s: nat, k: nat)
    requires s >= 1
    ensures Distance(NearestEven(a, s), a) <= Distance(Times(s, k), a)
  {
    var q := NearestIs(a, s);
    hide NearestEven, Times;
    Multiples(s, k, q);
    Multiples(s, q, k);
  }

  /** No single-precision number is nearer to an integer than its cast. */
  lemma CastIsNearest(a: nat, r: nat, m: nat, e: nat)
    requires IsSingle(r, m, e)
    ensures Distance(AsF32(a), a) <= Distance(r, a)
  {
    var s := Spacing(a);
    var f := SpacingIsPower(a);
    hide Spacing, NearestEven, Times, Pow2;
    if f <= e {
      var k := PowersDivide(f, e);
      TimesTimes(s, k, m, r);
      NoMultipleNearer(a, s, m * k);
    } else {
      var k := PowersDivide(e, f);
      SmallSingle(r, m, Pow2(e), s, k);
      var q := NearestIs(a, s);
      Multiples(s, q + 1, 0x80_0000);
      Multiples(s, 0x80_0000, q);
      Multiples(s, q, q);
      NoMultipleNearer(a, s, q);
      assert Times(s, 0x80_0000) <= a by {
        CoarseIsLarge(a);
      }
    }
  }

  lemma CoarseIsLarge(a: nat)
    ensures Spacing(a) > 1 ==> Times(Spacing(a), 0x80_0000) <= a
  {
    hide Spacing;
  }

  lemma TimesTimes(s: nat, k: nat, m: nat, r: nat)
    requires r == m * Times(s, k)
    ensures r == Times(s, m * k)
  {
  }

  /** A number with a finer unit lies below all those with 24 bits of the coarser one. */
  lemma SmallSingle(r: nat, m: nat, p: nat, s: nat, k: nat)
    requires m < 0x100_0000 && r == m * p && s == Times(p, k) && k >= 2 && p >= 1
    ensures r <= Times(s, 0x80_0000) && s > 1
  {
    assert s >= 2 * p;
    assert m * p <= 0x100_0000 * p;
  }

  /** The cast is a single-precision number. */
  lemma CastIsSingle(a: nat) returns (m: nat, e: nat)
    ensures IsSingle(AsF32(a), m, e)
  {
    var s := Spacing(a);
    e := SpacingIsPower(a);
    var q := NearestIs(a, s);
    Multiples(s, 0x100_0000, q);
    m := if AsF32(a) == Times(s, q) then q else q + 1;
    Multiples(s, q, q);
    hide Spacing, NearestEven;
    assert q < 0x100_0000;
    assert AsF32(a) == Times(s, m);
    hide AsF32;
    if m == 0x100_0000 {
      m, e := 0x80_0000, e + 1;
    }
  }

  /** Of two equally near, the one with the even number of units. */
  lemma CastTiesToEven(a: nat, q: nat)
    requires 2 * a == 2 * Times(Spacing(a), q) + Spacing(a)
    ensures AsF32(a) == Times(Spacing(a), if q % 2 == 0 then q else q + 1)
  {
    var s := Spacing(a);
    var p := NearestIs(a, s);
    hide Spacing, NearestEven, Times;
    Multiples(s, p, q);
    Multiples(s, q, p);
    assert p == q;
  }

  /** Fixed point to whole notches: rounded, but never to nothing. */
  function Notches(fixed: i32): int {
    var v := AsF32(fixed);
    if v == 0 then 0
    else
      var n := if v > 0 then (2 * v + 65536) / 131072 else -((-2 * v + 65536) / 131072);
      if n != 0 then n else if v > 0 then 1 else -1
  }

  lemma CastKeepsSign(n: int)
    ensures AsF32(n) > 0 <==> n > 0
    ensures AsF32(n) < 0 <==> n < 0
    ensures -0x100_0000 < n < 0x100_0000 ==> AsF32(n) == n
    ensures AsF32(0 - n) == 0 - AsF32(n)
  {
    var a := if n >= 0 then n else -n;
    var s := Spacing(a);
    assert a > 0 ==> s <= a;
    assert s == 1 ==> NearestEven(a, s) == a;
  }

  /** A scroll that is not zero moves the wheel at least one notch, the same way, symmetrically. */
  lemma NotchesKeepSign(fixed: i32)
    ensures Notches(fixed) == 0 <==> fixed == 0
    ensures Notches(fixed) > 0 <==> fixed > 0
    ensures fixed > -0x8000_0000 ==> Notches(-fixed) == -Notches(fixed)
  {
    hide AsF32;
    CastKeepsSign(fixed);
    CastKeepsSign(0 - fixed);
  }

  /**
   Small scrolls are rounded up to one notch; the others are within half a notch, and for
   amounts of 256 notches and more, which the cast rounds, within a further 128 / 65536.
   */
  lemma NotchesAreNear(fixed: i32)
    ensures var n := Notches(fixed);
            if -32768 < fixed < 32768 then -1 <= n <= 1
            else if -0x100_0000 < fixed < 0x100_0000 then -32768 <= n * 65536 - fixed <= 32768
            else -32768 - 128 <= n * 65536 - fixed <= 32768 + 128
  {
    CastKeepsSign(fixed);
    CastIsNear(fixed);
    hide AsF32;
  }

  /** Half a notch is rounded away from zero; what would be rounded to nothing is one notch. */
  lemma NotchesAre(fixed: i32)
    ensures var n, v := Notches(fixed), AsF32(fixed);
            && (v == 0 ==> n == 0)
            && (0 < v < 32768 ==> n == 1) && (-32768 < v < 0 ==> n == -1)
            && (v >= 32768 ==> -32768 < n * 65536 - v <= 32768)
            && (v <= -32768 ==> -32768 <= n * 65536 - v < 32768)
  {
    hide AsF32;
  }

  lemma CastIsNear(n: i32)
    ensures -128 <= AsF32(n) - n <= 128
  {
    var a: nat := if n >= 0 then n else 0 - n as int;
    assert Spacing(a) * 0x80_0000 <= a || Spacing(a) == 1;
    assert Spacing(a) <= 256;
  }

  // ---- Calls

  datatype Action =
    | TouchCall(action: byte, id: byte, x: i32, y: i32, pressure: u16)
    | KeyCall(action: byte, keycode: u32, meta: u32)
    | TextCall(text: utf8)
    | ScrollCall(x: i32, y: i32, h: int, v: int)
    | SetEncodingCall(bitrate: u32, maxFps: u32, maxSize: u16)
    | PauseCall(on: bool)

  /** What one message makes the injector or the encoder do. */
  function Actions(m: Message): seq<Action> {
    match m
    case Touch(action, id, x, y, pressure) => [TouchCall(action, id, x, y, pressure)]
    case Key(action, keycode, meta) => [KeyCall(action, keycode, meta)]
    case KeySyn(keycode, action) => [KeyCall(action, keycode, 0)]
    case Text(s) => [TextCall(s)]
    case Scroll(x, y, h, v) => [ScrollCall(x, y, Notches(h), Notches(v))]
    case SetEncoding(bitrate, fps, size) => [SetEncodingCall(bitrate, fps, size)]
    case PauseResume(on) => [PauseCall(on)]
    case VideoFrame(_, _, _) => []
    case Configure(_, _, _, _) => []
    case Reserved(_, _) => []
  }

  function ActionsOf(ms: seq<Message>): seq<Action> {
    if ms == [] then [] else Actions(ms[0]) + ActionsOf(ms[1..])
  }

  lemma AssocActions(a: seq<Action>, b: seq<Action>, c: seq<Action>)
    ensures a + (b + c) == a + b + c
  {
  }

  lemma {:induction false} ActionsOfAppend(a: seq<Message>, b: seq<Message>)
    ensures ActionsOf(a + b) == ActionsOf(a) + ActionsOf(b)
  {
    hide Actions;
    if a == [] {
      assert a + b == b;
    } else {
      ActionsOfAppend(a[1..], b);
      assert (a + b)[0] == a[0] && (a + b)[1..] == a[1..] + b;
      AssocActions(Actions(a[0]), ActionsOf(a[1..]), ActionsOf(b));
    }
  }

  // ---- One push, several pushes

  datatype Pushed = Pushed(buf: bytes, actions: seq<Action>, error: Option<ProtoError>)

  /** An error empties the buffer but does not latch. */
  function Push(buf: bytes, data: bytes): Pushed {
    var p := ParseAll(buf + data);
    Pushed(p.rest, ActionsOf(p.msgs), p.error)
  }

  /** Pushing the chunks one by one, whatever the results: what the server's loop does. */
  function PushAll(buf: bytes, chunks: seq<bytes>): (r: Pushed)
    decreases |chunks|
  {
    if chunks == [] then Pushed(buf, [], None)
    else
      var first := Push(buf, chunks[0]);
      var rest := PushAll(first.buf, chunks[1..]);
      Pushed(rest.buf, first.actions + rest.actions, if first.error.Some? then first.error else rest.error)
  }

  /** Pushing only up to the first error, and the chunks then left over. */
  function PushUntilError(buf: bytes, chunks: seq<bytes>): Pushed
    decreases |chunks|
  {
    if chunks == [] then Pushed(buf, [], None)
    else
      var first := Push(buf, chunks[0]);
      if first.error.Some? then first
      else
        var rest := PushUntilError(first.buf, chunks[1..]);
        rest.(actions := first.actions + rest.actions)
  }

  function LeftOver(buf: bytes, chunks: seq<bytes>): seq<bytes>
    decreases |chunks|
  {
    if chunks == [] then []
    else
      var first := Push(buf, chunks[0]);
      if first.error.Some? then chunks[1..] else LeftOver(first.buf, chunks[1..])
  }

  lemma PushTwice(buf: bytes, a: bytes, b: bytes)
    ensures var first := Push(buf, a);
            Push(buf, a + b) ==
            if first.error.Some? then first
            else
              var second := Push(first.buf, b);
              second.(actions := first.actions + second.actions)
  {
    hide ParseAll;
    ParseAllExtends(buf + a, b);
    assert buf + a + b == buf + (a + b);
    var p := ParseAll(buf + a);
    if p.error.None? {
      ActionsOfAppend(p.msgs, ParseAll(p.rest + b).msgs);
    } else {
      ErrorEmpties(buf + a);
    }
  }

  lemma {:induction false} ErrorEmpties(buf: bytes)
    ensures ParseAll(buf).error.Some? ==> ParseAll(buf).rest == []
    decreases |buf|
  {
    hide TryDecodeFrame;
    match TryDecodeFrame(buf)
    case Ok(None) =>
    case Err(e) =>
    case Ok(Some((m, n))) => ErrorEmpties(buf[n..]);
  }

  lemma PushErrorEmpties(buf: bytes, data: bytes)
    ensures Push(buf, data).error.Some? ==> Push(buf, data).buf == []
  {
    ErrorEmpties(buf + data);
  }

  /** Up to the first malformed frame, how the bytes were cut up makes no difference. */
  lemma {:induction false} ChunkIndependentUntilError(buf: bytes, chunks: seq<bytes>)
    requires chunks != []
    ensures PushUntilError(buf, chunks) == Push(buf, Flatten(chunks))
    decreases |chunks|
  {
    hide Push;
    var first := Push(buf, chunks[0]);
    if |chunks| == 1 {
      assert Flatten(chunks) == chunks[0] + Flatten(chunks[1..]) == chunks[0];
      assert first.actions + [] == first.actions;
    } else {
      PushTwice(buf, chunks[0], Flatten(chunks[1..]));
      if first.error.None? {
        ChunkIndependentUntilError(first.buf, chunks[1..]);
      }
    }
  }

  /** After an error the server resynchronises at the next chunk, from an empty buffer. */
  lemma {:induction false} ResumesAfterError(buf: bytes, chunks: seq<bytes>)
    ensures var stop := PushUntilError(buf, chunks);
            && PushAll(buf, chunks).error == stop.error
            && PushAll(buf, chunks).actions == stop.actions + PushAll([], LeftOver(buf, chunks)).actions
    ensures PushUntilError(buf, chunks).error.None? ==> PushAll(buf, chunks) == PushUntilError(buf, chunks)
    decreases |chunks|
  {
    hide Push;
    if chunks != [] {
      PushErrorEmpties(buf, chunks[0]);
      var first := Push(buf, chunks[0]);
      if first.error.None? {
        ResumesAfterError(first.buf, chunks[1..]);
        var stop := PushUntilError(first.buf, chunks[1..]);
        var more := PushAll([], LeftOver(first.buf, chunks[1..])).actions;
        assert first.actions + stop.actions + more == first.actions + (stop.actions + more);
      }
    }
  }

  // ---- When the cutting matters

  /** The first `k` bytes hold a malformed frame. */
  predicate Fails(data: bytes, k: nat)
    requires k <= |data|
  {
    Push([], data[..k]).error.Some?
  }

  /** Wherever a malformed frame has already been seen, what follows makes no call by itself. */
  predicate QuietAfterFailure(data: bytes) {
    forall k :: 0 <= k <= |data| && Fails(data, k) ==> Push([], data[k..]).actions == []
  }

  lemma FailsStays(data: bytes, k: nat, j: nat)
    requires k <= j <= |data| && Fails(data, k)
    ensures Fails(data, j)
  {
    hide Push;
    PushTwice([], data[..k], data[k..j]);
    assert data[..j] == data[..k] + data[k..j];
  }

  /** What the first error leaves over are the chunks behind the one that completed it. */
  lemma {:induction false} LeftOverIs(buf: bytes, chunks: seq<bytes>) returns (n: nat)
    requires PushUntilError(buf, chunks).error.Some?
    ensures 0 < n <= |chunks| && LeftOver(buf, chunks) == chunks[n..]
    ensures Push(buf, Flatten(chunks[..n])).error.Some?
    decreases |chunks|
  {
    hide Push;
    var first := Push(buf, chunks[0]);
    if first.error.Some? {
      n := 1;
      assert chunks[..1] == [chunks[0]];
      FlattenSnoc([], chunks[0]);
      assert [] + chunks[0] == chunks[0] && [] + [chunks[0]] == [chunks[0]];
    } else {
      n := LeftOverIs(first.buf, chunks[1..]);
      PushTwice(buf, chunks[0], Flatten(chunks[1..][..n]));
      n := n + 1;
      assert chunks[..n][1..] == chunks[1..][..n - 1];
    }
  }

  lemma FlattenParts(chunks: seq<bytes>, n: nat)
    requires n <= |chunks|
    ensures var data, k := Flatten(chunks), |Flatten(chunks[..n])|;
            k <= |data| && data[..k] == Flatten(chunks[..n]) && data[k..] == Flatten(chunks[n..])
  {
    FlattenAppend(chunks[..n], chunks[n..]);
    assert chunks == chunks[..n] + chunks[n..];
  }

  predicate SilentSuffixes(data: bytes) {
    forall i :: 0 <= i <= |data| ==> Push([], data[i..]).actions == []
  }

  lemma SilentRest(data: bytes, k: nat)
    requires k <= |data| && SilentSuffixes(data)
    ensures SilentSuffixes(data[k..])
  {
    hide Push;
    forall i | 0 <= i <= |data[k..]|
      ensures Push([], data[k..][i..]).actions == []
    {
      assert data[k..][i..] == data[k + i..];
    }
  }

  lemma {:induction false} SilentUnderAnyCut(chunks: seq<bytes>)
    requires SilentSuffixes(Flatten(chunks))
    ensures PushAll([], chunks).actions == []
    decreases |chunks|
  {
    hide Push, PushUntilError, LeftOver, SilentSuffixes;
    if chunks != [] {
      hide PushAll;
      ChunkIndependentUntilError([], chunks);
      ResumesAfterError([], chunks);
      SilentAtStart(Flatten(chunks));
      if PushUntilError([], chunks).error.Some? {
        var n := LeftOverIs([], chunks);
        FlattenParts(chunks, n);
        SilentRest(Flatten(chunks), |Flatten(chunks[..n])|);
        SilentUnderAnyCut(chunks[n..]);
      }
    }
  }

  lemma SilentAtStart(data: bytes)
    requires SilentSuffixes(data)
    ensures Push([], data).actions == []
  {
    assert data[0..] == data;
  }

  lemma QuietMeansSilent(data: bytes, k: nat)
    requires k <= |data| && Fails(data, k) && QuietAfterFailure(data)
    ensures SilentSuffixes(data[k..])
  {
    hide Push, Fails;
    forall i | 0 <= i <= |data[k..]|
      ensures Push([], data[k..][i..]).actions == []
    {
      FailsStays(data, k, k + i);
      assert data[k..][i..] == data[k + i..];
    }
  }

  lemma NothingToPush()
    ensures Push([], []).actions == []
  {
    var none: bytes := [];
    assert none + none == none;
  }

  lemma QuietAgrees(chunks: seq<bytes>)
    requires QuietAfterFailure(Flatten(chunks))
    ensures PushAll([], chunks).actions == Push([], Flatten(chunks)).actions
  {
    hide Push, PushUntilError, LeftOver, QuietAfterFailure;
    if chunks == [] {
      NothingToPush();
    } else {
      hide PushAll;
      ChunkIndependentUntilError([], chunks);
      ResumesAfterError([], chunks);
      if PushUntilError([], chunks).error.Some? {
        var n := LeftOverIs([], chunks);
        FlattenParts(chunks, n);
        QuietMeansSilent(Flatten(chunks), |Flatten(chunks[..n])|);
        SilentUnderAnyCut(chunks[n..]);
        assert Push([], Flatten(chunks)).actions + [] == Push([], Flatten(chunks)).actions;
      }
    }
  }

  /** A call that only the rest makes is made when the bytes are cut there, and not otherwise. */
  lemma CutAtFailure(data: bytes, k: nat)
    requires k <= |data| && Fails(data, k)
    ensures Flatten([data[..k], data[k..]]) == data
    ensures PushAll([], [data[..k], data[k..]]).actions == Push([], data).actions + Push([], data[k..]).actions
  {
    hide Push;
    var a, b := data[..k], data[k..];
    assert data == a + b && [a, b][1..] == [b] && [b][1..] == [];
    assert Flatten([b]) == b + Flatten([]) == b;
    PushTwice([], a, b);
    PushErrorEmpties([], a);
    assert PushAll([], [b]).actions == Push([], b).actions + [] == Push([], b).actions;
  }

  ghost predicate AnyCutAgrees(data: bytes) {
    forall chunks :: Flatten(chunks) == data ==> PushAll([], chunks).actions == Push([], data).actions
  }

  /**
   Every way of cutting the bytes makes the same calls exactly when, wherever a malformed frame
   has already been seen, the rest makes no call by itself.
   */
  lemma ChunkIndependentExactly(data: bytes)
    ensures AnyCutAgrees(data) <==> QuietAfterFailure(data)
  {
    hide Push, PushAll;
    if QuietAfterFailure(data) {
      forall chunks | Flatten(chunks) == data
        ensures PushAll([], chunks).actions == Push([], data).actions
      {
        QuietAgrees(chunks);
      }
    } else {
      var k :| 0 <= k <= |data| && Fails(data, k) && Push([], data[k..]).actions != [];
      CutAtFailure(data, k);
      assert |PushAll([], [data[..k], data[k..]]).actions| > |Push([], data).actions|;
    }
  }

  const BAD_FRAME: bytes := [0, 0, 0, 0]
  const PAUSE_FRAME: bytes := [2, 0, 0, 0, TAG_PAUSE, 1]

  lemma BadFrameFails(rest: bytes)
    ensures Push([], BAD_FRAME + rest) == Pushed([], [], Some(BadLength(0)))
  {
    assert BAD_FRAME[1..] == [0, 0, 0] && BAD_FRAME[1..][1..] == [0, 0] && BAD_FRAME[1..][1..][1..] == [0];
    assert GetU32(BAD_FRAME) == 0;
    assert ([] + (BAD_FRAME + rest))[..4] == BAD_FRAME;
  }

  lemma PauseFrameActs()
    ensures Push([], PAUSE_FRAME) == Pushed([], [PauseCall(true)], None)
  {
    var head: bytes := [2, 0, 0, 0];
    assert head[1..] == [0, 0, 0] && head[1..][1..] == [0, 0] && head[1..][1..][1..] == [0];
    assert GetU32(head) == 2;
    PutInvertsGet(head);
    var m := PauseResume(true);
    FrameOf(m, [1]);
    FrameRoundTrip(m, []);
    hide Encode, ParseAll;
    assert EncodeAll([m]) == Encode(m).value + EncodeAll([m][1..]) == PAUSE_FRAME;
    ParseAllInvertsEncodeAll([m]);
    assert [] + PAUSE_FRAME == PAUSE_FRAME;
    assert ActionsOf([m]) == Actions(m) + ActionsOf([m][1..]) == [PauseCall(true)];
  }

  /** And it does matter: a bad length, then a pause, in one chunk and in two. */
  lemma CuttingMattersAfterError()
    ensures Push([], BAD_FRAME + PAUSE_FRAME).actions == []
    ensures PushAll([], [BAD_FRAME, PAUSE_FRAME]).actions == [PauseCall(true)]
  {
    BadFrameFails(PAUSE_FRAME);
    BadFrameFails([]);
    PauseFrameActs();
    hide Push;
    assert BAD_FRAME + [] == BAD_FRAME;
    var chunks := [BAD_FRAME, PAUSE_FRAME];
    assert chunks[1..] == [PAUSE_FRAME] && [PAUSE_FRAME][1..] == [];
    assert PushAll([], [PAUSE_FRAME]).actions == [PauseCall(true)];
  }

  // ---- From the client's encoders to the calls

  predicate IsControl(m: Message) {
    !m.VideoFrame? && !m.Configure? && !m.Reserved?
  }

  /** What the client's encoders return for the messages, one after the other. */
  function SentBytes(ms: seq<Message>): bytes {
    if ms == [] then [] else EncodeOrNothing(ms[0]) + SentBytes(ms[1..])
  }

  /** A control message is lost only if it is a text that a 16-bit length cannot count. */
  function Fitting(ms: seq<Message>): (r: seq<Message>)
    ensures (forall i :: 0 <= i < |ms| ==> !(ms[i].Text? && |ms[i].text| > U16_MAX)) ==> r == ms
  {
    if ms == [] then []
    else if ms[0].Text? && |ms[0].text| > U16_MAX then Fitting(ms[1..])
    else [ms[0]] + Fitting(ms[1..])
  }

  lemma ControlEncodes(m: Message)
    requires IsControl(m)
    ensures Faithful(m)
    ensures Encode(m).Ok? <==> !(m.Text? && |m.text| > U16_MAX)
  {
    hide PutU16, PutU32, PutU64, PutI32;
  }

  lemma {:induction false} SentIsEncoded(ms: seq<Message>)
    requires forall i :: 0 <= i < |ms| ==> IsControl(ms[i])
    ensures AllSendable(Fitting(ms)) && SentBytes(ms) == EncodeAll(Fitting(ms))
  {
    if ms != [] {
      ControlEncodes(ms[0]);
      SentIsEncoded(ms[1..]);
      hide Encode, Faithful;
      var f := Fitting(ms);
      if Encode(ms[0]).Ok? {
        assert f[0] == ms[0] && f[1..] == Fitting(ms[1..]);
      } else {
        assert [] + SentBytes(ms[1..]) == SentBytes(ms[1..]);
      }
    }
  }

  /** What a call must say about the message it comes from, field by field. */
  predicate Does(a: Action, m: Message) {
    match m
    case Touch(_, _, _, _, _) =>
      && a.TouchCall? && a.action == m.action && a.id == m.pointerId && a.x == m.x && a.y == m.y
      && a.pressure == m.pressure
    case Key(_, _, _) => a.KeyCall? && a.action == m.action && a.keycode == m.keycode && a.meta == m.meta
    case KeySyn(_, _) => a.KeyCall? && a.action == m.action && a.keycode == m.keycode && a.meta == 0
    case Text(_) => a.TextCall? && a.text == m.text
    case Scroll(_, _, _, _) =>
      a.ScrollCall? && a.x == m.x && a.y == m.y && a.h == Notches(m.h) && a.v == Notches(m.v)
    case SetEncoding(_, _, _) =>
      a.SetEncodingCall? && a.bitrate == m.bitrate && a.maxFps == m.maxFps && a.maxSize == m.maxSize
    case PauseResume(_) => a.PauseCall? && a.on == m.on
    case _ => false
  }

  /** One call for each control message, in order; messages for the client are passed over. */
  predicate Done(actions: seq<Action>, ms: seq<Message>)
    decreases |ms|
  {
    if ms == [] then actions == []
    else if IsControl(ms[0]) then actions != [] && Does(actions[0], ms[0]) && Done(actions[1..], ms[1..])
    else Done(actions, ms[1..])
  }

  lemma {:induction false} ActionsAreDone(ms: seq<Message>)
    ensures Done(ActionsOf(ms), ms)
  {
    if ms != [] {
      ActionsAreDone(ms[1..]);
      var rest := ActionsOf(ms[1..]);
      if IsControl(ms[0]) {
        assert ([Actions(ms[0])[0]] + rest)[1..] == rest;
      } else {
        assert [] + rest == rest;
      }
    }
  }

  /** Without messages for the client, the calls and the messages go side by side. */
  lemma {:induction false} DoneInStep(actions: seq<Action>, ms: seq<Message>)
    requires Done(actions, ms) && forall i :: 0 <= i < |ms| ==> IsControl(ms[i])
    ensures |actions| == |ms| && forall i :: 0 <= i < |ms| ==> Does(actions[i], ms[i])
    decreases |ms|
  {
    hide Does;
    if ms != [] {
      DoneInStep(actions[1..], ms[1..]);
      forall i | 0 <= i < |ms|
        ensures Does(actions[i], ms[i])
      {
        if i > 0 {
          assert Does(actions[1..][i - 1], ms[1..][i - 1]);
        }
      }
    }
  }

  lemma FittingIsControl(ms: seq<Message>)
    requires forall i :: 0 <= i < |ms| ==> IsControl(ms[i])
    ensures forall i :: 0 <= i < |Fitting(ms)| ==> IsControl(Fitting(ms)[i])
  {
  }

  /** However the bytes of any messages are cut up, the calls are those the messages ask for. */
  lemma ServerDoes(ms: seq<Message>, chunks: seq<bytes>)
    requires AllSendable(ms) && Flatten(chunks) == EncodeAll(ms)
    ensures PushAll([], chunks) == Pushed([], ActionsOf(ms), None) && Done(ActionsOf(ms), ms)
  {
    ParseAllInvertsEncodeAll(ms);
    ActionsAreDone(ms);
    assert [] + Flatten(chunks) == Flatten(chunks);
    assert Push([], Flatten(chunks)) == Pushed([], ActionsOf(ms), None);
    assert chunks == [] ==> ParseAll([]) == Parsed([], [], None);
    hide Push, ParseAll, EncodeAll, Done;
    if chunks != [] {
      ChunkIndependentUntilError([], chunks);
      ResumesAfterError([], chunks);
    }
  }

  /** A malformed frame is reported as what it is, behind the calls of what came before it. */
  lemma FaultIsReported(ms: seq<Message>, bad: bytes, e: ProtoError)
    requires AllSendable(ms) && TryDecodeFrame(bad) == Err(e)
    ensures var p := Push([], EncodeAll(ms) + bad); p.error == Some(e) && p.buf == [] && Done(p.actions, ms)
  {
    hide TryDecodeFrame, EncodeAll, ParseAll, AllSendable;
    ParseAllStops(ms, bad, e);
    ActionsAreDone(ms);
    assert [] + (EncodeAll(ms) + bad) == EncodeAll(ms) + bad;
  }

  /**
   Host to server: whatever control messages the client encodes and however their bytes are
   cut up, the injector and the encoder see exactly the corresponding calls, in order, and
   no byte is left in the buffer.
   */
  lemma HostToServer(ms: seq<Message>, chunks: seq<bytes>)
    requires forall i :: 0 <= i < |ms| ==> IsControl(ms[i])
    requires Flatten(chunks) == SentBytes(ms)
    ensures var p := PushAll([], chunks);
            && p == Pushed([], ActionsOf(Fitting(ms)), None) && |p.actions| == |Fitting(ms)|
            && forall i :: 0 <= i < |p.actions| ==> Does(p.actions[i], Fitting(ms)[i])
  {
    SentIsEncoded(ms);
    hide PushAll, SentBytes, Fitting, ActionsOf, EncodeAll, AllSendable, Does;
    ServerDoes(Fitting(ms), chunks);
    FittingIsControl(ms);
    DoneInStep(ActionsOf(Fitting(ms)), Fitting(ms));
  }

  /**
   A touch of the view, in any pieces, reaches the injector as one call with the action and the
   finger, at the pixel of the frame and with the pressure; or not at all without a view or frame.
   */
  lemma TouchReachesInjector(c: Core, action: byte, id: byte, css: Point, viewW: real, viewH: real, pressure: real,
                             chunks: seq<bytes>)
    requires Flatten(chunks) == TouchBytes(c, action, id, css, viewW, viewH, pressure)
    ensures var p := PushAll([], chunks);
            p.buf == [] && p.error == None
            && match MapToDevice(css, viewW, viewH, c.width, c.height, c.rotation as nat)
               case None => p.actions == []
               case Some((x, y)) =>
                 |p.actions| == 1 && var a := p.actions[0];
                 && a.TouchCall? && a.action == action && a.id == id && a.x == x && a.y == y
                 && a.pressure == Rounding.EncodePressure(pressure)
  {
    hide MapToDevice, PushAll, Encode, Flatten, Rounding.EncodePressure, Fitting;
    match MapToDevice(css, viewW, viewH, c.width, c.height, c.rotation as nat)
    case None =>
      assert SentBytes([]) == [];
      FittingOne([]);
      HostToServer([], chunks);
    case Some((x, y)) =>
      var m := Touch(action, id, x, y, Rounding.EncodePressure(pressure));
      SentOne(m);
      FittingOne([m]);
      HostToServer([m], chunks);
  }

  /** So does a scroll, its two amounts in notches. */
  lemma ScrollReachesInjector(c: Core, css: Point, viewW: real, viewH: real, h: real, v: real, chunks: seq<bytes>)
    requires Flatten(chunks) == ScrollBytes(c, css, viewW, viewH, h, v)
    ensures var p := PushAll([], chunks);
            p.buf == [] && p.error == None
            && match MapToDevice(css, viewW, viewH, c.width, c.height, c.rotation as nat)
               case None => p.actions == []
               case Some((x, y)) =>
                 |p.actions| == 1 && var a := p.actions[0];
                 && a.ScrollCall? && a.x == x && a.y == y
                 && a.h == Notches(Rounding.EncodeScroll(h)) && a.v == Notches(Rounding.EncodeScroll(v))
  {
    hide MapToDevice, PushAll, Encode, Flatten, Rounding.EncodeScroll, Fitting, Notches;
    match MapToDevice(css, viewW, viewH, c.width, c.height, c.rotation as nat)
    case None =>
      assert SentBytes([]) == [];
      FittingOne([]);
      HostToServer([], chunks);
    case Some((x, y)) =>
      var m := Scroll(x, y, Rounding.EncodeScroll(h), Rounding.EncodeScroll(v));
      SentOne(m);
      FittingOne([m]);
      HostToServer([m], chunks);
  }

  lemma SentOne(m: Message)
    ensures SentBytes([m]) == EncodeOrNothing(m)
  {
    hide EncodeOrNothing;
    assert [m][1..] == [];
    assert SentBytes([m]) == EncodeOrNothing(m) + SentBytes([m][1..]);
    assert EncodeOrNothing(m) + [] == EncodeOrNothing(m);
  }

  lemma FittingOne(ms: seq<Message>)
    requires |ms| <= 1 && forall i :: 0 <= i < |ms| ==> !ms[i].Text?
    ensures Fitting(ms) == ms
  {
  }
}
