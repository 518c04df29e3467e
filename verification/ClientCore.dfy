/**
 The sans-IO mirror client of crates/client/src/lib.rs: bytes in, events out.
 `Core` and its functions specify the mutable class in Client.dfy.
 */
module ClientCore {
  import opened Wrappers
  import opened Bytes
  import opened Utf8
  import opened Rounding
  import opened Proto
  import opened Framing
  import opened Letterbox

  datatype ErrorText = FromProto(error: ProtoError) | Unexpected(tag: byte)

  datatype Out =
    | Reconfigure(codec: Codec, csd: bytes, width: u16, height: u16)
    | Frame(ptsUs: u64, keyframe: bool, nal: bytes)
    | DeviceName(name: utf8)
    | Error(text: ErrorText)

  datatype Core = Core(
    buf: bytes, handshake: bool, fatal: bool, width: u16, height: u16, rotation: byte,
    codec: Option<Codec>, csd: bytes, deviceName: utf8, caps: byte, skip: bool)

  const FRESH: Core := Core([], false, false, 0, 0, 0, None, [], [], 0, false)

  /** A new state and the events emitted on the way. */
  datatype Step = Step(core: Core, outs: seq<Out>) {
    /** The same, with earlier events in front. */
    function After(earlier: seq<Out>): Step {
      Step(core, earlier + outs)
    }

    /** The same, with a later call's bytes handled as well. */
    function Then(more: bytes): Step {
      OnBytes(core, more).After(outs)
    }

    lemma AfterAfter(middle: seq<Out>, earlier: seq<Out>)
      ensures After(middle).After(earlier) == After(earlier + middle)
    {
      assert earlier + (middle + outs) == earlier + middle + outs;
    }

    lemma AfterThen(earlier: seq<Out>, more: bytes)
      ensures After(earlier).Then(more) == Then(more).After(earlier)
    {
      hide OnBytes;
      assert earlier + (outs + OnBytes(core, more).outs) == earlier + outs + OnBytes(core, more).outs;
    }
  }

  // ---- What one message does

  function ApplyHandshake(c: Core, h: Handshake): Step {
    Step(c.(handshake := true, width := h.width, height := h.height, codec := Some(h.codec),
            csd := h.csd, deviceName := h.deviceName, caps := h.caps),
         [DeviceName(h.deviceName), Reconfigure(h.codec, h.csd, h.width, h.height)])
  }

  function ApplyMessage(c: Core, m: Message): Step {
    match m
    case Configure(codec, width, height, csd) =>
      Step(c.(codec := Some(codec), width := width, height := height, csd := if csd == [] then c.csd else csd),
           [Reconfigure(codec, csd, width, height)])
    case VideoFrame(pts, keyframe, nal) =>
      if c.skip && !keyframe then Step(c, [])
      else Step(c.(skip := if keyframe then false else c.skip), [Frame(pts, keyframe, nal)])
    case Reserved(_, _) => Step(c, [])
    case other => Step(c, [Error(Unexpected(Tag(other)))])
  }

  function Fail(c: Core, e: ProtoError): Step {
    Step(c.(fatal := true, buf := []), [Error(FromProto(e))])
  }

  // ---- What a call does

  function ApplyAll(c: Core, ms: seq<Message>): Step
    decreases |ms|
  {
    if ms == [] then Step(c, [])
    else
      var first := ApplyMessage(c, ms[0]);
      ApplyAll(first.core, ms[1..]).After(first.outs)
  }

  /** The state after the frame loop, given what there was to parse in the buffer. */
  function Drained(c: Core, p: Parsed): Step {
    var s := ApplyAll(c.(buf := p.rest), p.msgs);
    if p.error.Some? then Fail(s.core, p.error.value).After(s.outs) else s
  }

  /** Everything after the new bytes were appended. */
  function Parse(c: Core): Step {
    if c.handshake then Drained(c, ParseAll(c.buf))
    else
      match TryDecodeHandshake(c.buf)
      case Ok(None) => Step(c, [])
      case Err(e) => Fail(c, e)
      case Ok(Some((h, n))) => Opened(c, h, c.buf[n..])
  }

  function OnBytes(c: Core, data: bytes): Step {
    if c.fatal then Step(c, []) else Parse(c.(buf := c.buf + data))
  }

  function OnChunks(c: Core, chunks: seq<bytes>): Step
    decreases |chunks|
  {
    if chunks == [] then Step(c, [])
    else
      var first := OnBytes(c, chunks[0]);
      OnChunks(first.core, chunks[1..]).After(first.outs)
  }

  // ---- Chunk independence

  lemma {:induction false} ApplyAllAppend(c: Core, a: seq<Message>, b: seq<Message>)
    ensures ApplyAll(c, a + b) == ApplyAll(ApplyAll(c, a).core, b).After(ApplyAll(c, a).outs)
    decreases |a|
  {
    hide ApplyMessage;
    if a == [] {
      assert a + b == b;
    } else {
      assert (a + b)[1..] == a[1..] + b;
      var first := ApplyMessage(c, a[0]);
      ApplyAllAppend(first.core, a[1..], b);
      var r, t := ApplyAll(first.core, a[1..]), ApplyAll(ApplyAll(first.core, a[1..]).core, b);
      assert first.outs + (r.outs + t.outs) == first.outs + r.outs + t.outs;
    }
  }

  lemma ApplyMessageFrame(c: Core, m: Message, buf: bytes)
    ensures var s := ApplyMessage(c, m);
            && s.core.handshake == c.handshake && s.core.fatal == c.fatal && s.core.buf == c.buf
            && ApplyMessage(c.(buf := buf), m) == s.(core := s.core.(buf := buf))
  {
  }

  /** Applying messages leaves the connection flags alone and never looks at the buffer. */
  lemma {:induction false} ApplyAllFrame(c: Core, ms: seq<Message>, buf: bytes)
    ensures var s := ApplyAll(c, ms);
            && s.core.handshake == c.handshake && s.core.fatal == c.fatal && s.core.buf == c.buf
            && ApplyAll(c.(buf := buf), ms) == s.(core := s.core.(buf := buf))
    decreases |ms|
  {
    if ms != [] {
      ApplyMessageFrame(c, ms[0], buf);
      hide ApplyMessage;
      ApplyAllFrame(ApplyMessage(c, ms[0]).core, ms[1..], buf);
    }
  }

  lemma DrainedIgnoresBuffer(c: Core, buf: bytes, p: Parsed)
    ensures Drained(c.(buf := buf), p) == Drained(c, p)
  {
  }

  /** Draining in two goes: the second starts from the state the first left. */
  lemma DrainedThen(c: Core, p: Parsed, q: Parsed)
    requires p.error.None?
    ensures Drained(c, p.Then(q)) == Drained(Drained(c, p).core, q).After(Drained(c, p).outs)
  {
    ApplyAllFrame(c, p.msgs, p.rest);
    ApplyAllFrame(c, p.msgs, q.rest);
    ApplyAllAppend(c.(buf := q.rest), p.msgs, q.msgs);
    var a := ApplyAll(c.(buf := q.rest), p.msgs);
    var b := ApplyAll(a.core, q.msgs);
    if q.error.Some? {
      assert a.outs + b.outs + [Error(FromProto(q.error.value))]
          == a.outs + (b.outs + [Error(FromProto(q.error.value))]);
    }
  }

  /** More bytes in the buffer come to the same as a later call with those bytes. */
  lemma DrainExtends(c: Core, buf: bytes, more: bytes)
    requires !c.fatal && c.handshake
    ensures Drained(c, ParseAll(buf + more)) == Drained(c, ParseAll(buf)).Then(more)
  {
    var p := ParseAll(buf);
    ParseAllExtends(buf, more);
    var d := Drained(c, p);
    ApplyAllFrame(c.(buf := p.rest), p.msgs, []);
    if p.error.None? {
      var q := ParseAll(p.rest + more);
      DrainedThen(c, p, q);
      ApplyAllFrame(d.core, q.msgs, q.rest);
      assert OnBytes(d.core, more) == Drained(d.core, q);
    } else {
      assert d.outs + [] == d.outs;
    }
  }

  /** What a complete handshake leads to, with the bytes after it still to be parsed. */
  function Opened(c: Core, h: Handshake, rest: bytes): Step {
    var first := ApplyHandshake(c, h);
    Drained(first.core, ParseAll(rest)).After(first.outs)
  }

  lemma OpenedExtends(c: Core, h: Handshake, rest: bytes, buf: bytes, more: bytes)
    requires !c.fatal
    ensures Opened(c.(buf := buf), h, rest + more) == Opened(c, h, rest).Then(more)
  {
    var first := ApplyHandshake(c, h);
    hide Drained, ParseAll, OnBytes;
    DrainExtends(first.core, rest, more);
    DrainedIgnoresBuffer(first.core, buf, ParseAll(rest + more));
    Drained(first.core, ParseAll(rest)).AfterThen(first.outs, more);
  }

  lemma ParseExtends(c: Core, more: bytes)
    requires !c.fatal
    ensures Parse(c.(buf := c.buf + more)) == Parse(c).Then(more)
  {
    hide TryDecodeHandshake, Drained, ParseAll, Opened;
    if c.handshake {
      DrainExtends(c, c.buf, more);
      DrainedIgnoresBuffer(c, c.buf + more, ParseAll(c.buf + more));
    } else {
      HandshakeStable(c.buf, more);
      match TryDecodeHandshake(c.buf)
      case Ok(None) =>
        assert [] + OnBytes(c, more).outs == OnBytes(c, more).outs;
      case Err(e) =>
        assert Fail(c, e).outs + [] == Fail(c, e).outs;
      case Ok(Some((h, n))) =>
        assert (c.buf + more)[n..] == c.buf[n..] + more;
        OpenedExtends(c, h, c.buf[n..], c.buf + more, more);
    }
  }

  /**
   Two calls or one with the bytes joined: the same state and the same events, from any
   state and for any bytes, whether or not either part is malformed.
   */
  lemma ChunkIndependent(c: Core, a: bytes, b: bytes)
    ensures OnBytes(c, a + b) == OnBytes(c, a).Then(b)
  {
    hide Parse;
    if c.fatal {
      assert [] + OnBytes(c, b).outs == OnBytes(c, b).outs;
    } else {
      ParseExtends(c.(buf := c.buf + a), b);
      assert c.buf + a + b == c.buf + (a + b);
    }
  }

  /** However a byte string is cut into calls, the outcome is that of a single call. */
  lemma {:induction false} AnyChunking(c: Core, chunks: seq<bytes>)
    requires chunks != []
    ensures OnChunks(c, chunks) == OnBytes(c, Flatten(chunks))
    decreases |chunks|
  {
    var first := OnBytes(c, chunks[0]);
    if |chunks| == 1 {
      assert Flatten(chunks) == chunks[0] + Flatten(chunks[1..]) == chunks[0];
      assert first.outs + [] == first.outs;
    } else {
      AnyChunking(first.core, chunks[1..]);
      ChunkIndependent(c, chunks[0], Flatten(chunks[1..]));
    }
  }

  // ---- From the server's messages to the events

  /** What a host that never skips is told about one message. */
  function Interpret(m: Message): seq<Out> {
    match m
    case Configure(codec, width, height, csd) => [Reconfigure(codec, csd, width, height)]
    case VideoFrame(pts, keyframe, nal) => [Frame(pts, keyframe, nal)]
    case Reserved(_, _) => []
    case other => [Error(Unexpected(Tag(other)))]
  }

  function InterpretAll(ms: seq<Message>): seq<Out> {
    if ms == [] then [] else Interpret(ms[0]) + InterpretAll(ms[1..])
  }

  lemma {:induction false} ApplyAllInterprets(c: Core, ms: seq<Message>)
    requires !c.skip
    ensures ApplyAll(c, ms).outs == InterpretAll(ms) && !ApplyAll(c, ms).core.skip
    decreases |ms|
  {
    if ms != [] {
      var first := ApplyMessage(c, ms[0]);
      assert first.outs == Interpret(ms[0]) && !first.core.skip;
      ApplyAllInterprets(first.core, ms[1..]);
    }
  }

  /** The last configuration among the messages, and the last one that carried parameter sets. */
  function LastConfig(ms: seq<Message>): (r: Option<Message>)
    ensures r.Some? ==> r.value.Configure? && r.value in ms
  {
    if ms == [] then None
    else if ms[|ms| - 1].Configure? then Some(ms[|ms| - 1])
    else LastConfig(ms[..|ms| - 1])
  }

  function LastCsd(ms: seq<Message>): (r: Option<Message>)
    ensures r.Some? ==> r.value.Configure? && r.value.csd != [] && r.value in ms
  {
    if ms == [] then None
    else if ms[|ms| - 1].Configure? && ms[|ms| - 1].csd != [] then Some(ms[|ms| - 1])
    else LastCsd(ms[..|ms| - 1])
  }

  predicate Settled(before: Core, ms: seq<Message>, after: Core) {
    && (match LastConfig(ms)
        case None => after.codec == before.codec && after.width == before.width && after.height == before.height
        case Some(m) => after.codec == Some(m.codec) && after.width == m.width && after.height == m.height)
    && after.csd == (match LastCsd(ms) case None => before.csd case Some(m) => m.csd)
    && after.deviceName == before.deviceName && after.caps == before.caps && after.rotation == before.rotation
  }

  lemma SettlesSnoc(before: Core, ms: seq<Message>, c: Core, m: Message)
    requires Settled(before, ms, c)
    ensures Settled(before, ms + [m], ApplyMessage(c, m).core)
  {
    assert (ms + [m])[..|ms|] == ms;
  }

  lemma {:induction false} ApplyAllSettles(c: Core, ms: seq<Message>)
    ensures Settled(c, ms, ApplyAll(c, ms).core)
    decreases |ms|
  {
    if ms != [] {
      var n := |ms| - 1;
      ApplyAllSettles(c, ms[..n]);
      var k := ApplyAll(c, ms[..n]).core;
      SettlesSnoc(c, ms[..n], k, ms[n]);
      hide Settled, ApplyMessage;
      ApplyAllAppend(c, ms[..n], [ms[n]]);
      assert ms == ms[..n] + [ms[n]];
      assert ApplyAll(k, [ms[n]]).core == ApplyMessage(k, ms[n]).core;
    }
  }

  // ---- The same, field by field

  /** What an event must say about the message it comes from. */
  predicate Tells(o: Out, m: Message) {
    if m.Configure? then
      o.Reconfigure? && o.codec == m.codec && o.width == m.width && o.height == m.height && o.csd == m.csd
    else if m.VideoFrame? then
      o.Frame? && o.ptsUs == m.ptsUs && o.keyframe == m.keyframe && o.nal == m.nal
    else
      o.Error? && o.text.Unexpected? && o.text.tag == Tag(m)
  }

  /** One event for each message, in order; messages of unknown type are passed over. */
  predicate Told(outs: seq<Out>, ms: seq<Message>)
    decreases |ms|
  {
    if ms == [] then outs == []
    else if ms[0].Reserved? then Told(outs, ms[1..])
    else outs != [] && Tells(outs[0], ms[0]) && Told(outs[1..], ms[1..])
  }

  lemma {:induction false} InterpretationTells(ms: seq<Message>)
    ensures Told(InterpretAll(ms), ms)
  {
    if ms != [] {
      InterpretationTells(ms[1..]);
      var rest := InterpretAll(ms[1..]);
      if ms[0].Reserved? {
        assert [] + rest == rest;
      } else {
        assert ([Interpret(ms[0])[0]] + rest)[1..] == rest;
      }
    }
  }

  /** The name and the first configuration. */
  predicate Introduces(outs: seq<Out>, h: Handshake) {
    && |outs| >= 2 && outs[0].DeviceName? && outs[0].name == h.deviceName
    && outs[1].Reconfigure? && outs[1].codec == h.codec && outs[1].csd == h.csd
    && outs[1].width == h.width && outs[1].height == h.height
  }

  predicate IsLastConfig(ms: seq<Message>, k: nat) {
    k < |ms| && ms[k].Configure? && forall j :: k < j < |ms| ==> !ms[j].Configure?
  }

  predicate IsLastCsd(ms: seq<Message>, k: nat) {
    k < |ms| && ms[k].Configure? && ms[k].csd != [] && forall j :: k < j < |ms| && ms[j].Configure? ==> ms[j].csd == []
  }

  /** The settings after a handshake and some messages. */
  predicate Remembers(after: Core, h: Handshake, ms: seq<Message>) {
    && after.handshake && !after.fatal && !after.skip && after.rotation == 0
    && after.deviceName == h.deviceName && after.caps == h.caps
    && ((forall k :: 0 <= k < |ms| ==> !ms[k].Configure?) ==>
          after.codec == Some(h.codec) && after.width == h.width && after.height == h.height)
    && (forall k :: 0 <= k < |ms| && IsLastConfig(ms, k) ==>
          after.codec == Some(ms[k].codec) && after.width == ms[k].width && after.height == ms[k].height)
    && ((forall k :: 0 <= k < |ms| && ms[k].Configure? ==> ms[k].csd == []) ==> after.csd == h.csd)
    && (forall k :: 0 <= k < |ms| && IsLastCsd(ms, k) ==> after.csd == ms[k].csd)
  }

  lemma {:induction false} LastConfigIs(ms: seq<Message>)
    ensures LastConfig(ms).None? <==> forall k :: 0 <= k < |ms| ==> !ms[k].Configure?
    ensures forall k :: 0 <= k < |ms| && IsLastConfig(ms, k) ==> LastConfig(ms) == Some(ms[k])
  {
    if ms != [] {
      var front := ms[..|ms| - 1];
      LastConfigIs(front);
      assert forall k :: 0 <= k < |front| ==> front[k] == ms[k];
      if !ms[|ms| - 1].Configure? {
        assert forall k :: 0 <= k < |front| && IsLastConfig(ms, k) ==> IsLastConfig(front, k);
      }
    }
  }

  lemma {:induction false} LastCsdIs(ms: seq<Message>)
    ensures LastCsd(ms).None? <==> forall k :: 0 <= k < |ms| && ms[k].Configure? ==> ms[k].csd == []
    ensures forall k :: 0 <= k < |ms| && IsLastCsd(ms, k) ==> LastCsd(ms) == Some(ms[k])
  {
    if ms != [] {
      var front := ms[..|ms| - 1];
      LastCsdIs(front);
      assert forall k :: 0 <= k < |front| ==> front[k] == ms[k];
      var last := ms[|ms| - 1];
      forall k | 0 <= k < |ms| && IsLastCsd(ms, k)
        ensures LastCsd(ms) == Some(ms[k])
      {
        if !(last.Configure? && last.csd != []) {
          assert IsLastCsd(front, k);
        }
      }
    }
  }

  lemma SettledRemembers(h: Handshake, ms: seq<Message>, after: Core)
    requires Settled(ApplyHandshake(FRESH, h).core, ms, after) && after.handshake && !after.fatal && !after.skip
    ensures Remembers(after, h, ms)
  {
    LastConfigIs(ms);
    LastCsdIs(ms);
    hide LastConfig, LastCsd, IsLastConfig, IsLastCsd;
  }

  /** A client that has just been told of a device and whose buffer is empty. */
  function Greeted(h: Handshake): Core {
    ApplyHandshake(FRESH, h).core
  }

  /** Handshake and messages in one piece. */
  lemma WholeStream(h: Handshake, ms: seq<Message>, all: bytes)
    requires EncodeHandshake(h).Ok? && h.version == VERSION && AllSendable(ms)
    requires all == EncodeHandshake(h).value + EncodeAll(ms)
    ensures OnBytes(FRESH, all) == ApplyAll(Greeted(h), ms).After(ApplyHandshake(FRESH, h).outs)
  {
    hide EncodeHandshake, EncodeAll, TryDecodeHandshake, ParseAll, ApplyAll, AllSendable;
    var e := EncodeHandshake(h).value;
    HandshakeRoundTrip(h, EncodeAll(ms));
    assert all[|e|..] == EncodeAll(ms);
    assert [] + all == all;
    ParseAllInvertsEncodeAll(ms);
    var first := ApplyHandshake(FRESH.(buf := all), h);
    assert Drained(first.core, Parsed(ms, [], None)) == ApplyAll(Greeted(h), ms);
  }

  /** What the events and the settings are after the messages. */
  lemma GreetedAndTold(h: Handshake, ms: seq<Message>)
    ensures var s := ApplyAll(Greeted(h), ms).After(ApplyHandshake(FRESH, h).outs);
            && s.outs == [DeviceName(h.deviceName), Reconfigure(h.codec, h.csd, h.width, h.height)] + InterpretAll(ms)
            && Introduces(s.outs, h) && Told(s.outs[2..], ms)
            && s.core.buf == [] && Remembers(s.core, h, ms)
  {
    hide InterpretAll, ApplyAll, Settled, Remembers, Told;
    var c := Greeted(h);
    ApplyAllInterprets(c, ms);
    ApplyAllSettles(c, ms);
    ApplyAllFrame(c, ms, []);
    SettledRemembers(h, ms, ApplyAll(c, ms).core);
    InterpretationTells(ms);
    assert (ApplyHandshake(FRESH, h).outs + InterpretAll(ms))[2..] == InterpretAll(ms);
  }

  /**
   Server to host: however the bytes of a handshake and any sendable messages are cut up, the
   events are the name, the first configuration, and each message's meaning in order; the
   settings are those of the last configuration, with an empty csd keeping the one before.
   */
  lemma EndToEnd(h: Handshake, ms: seq<Message>, chunks: seq<bytes>)
    requires EncodeHandshake(h).Ok? && h.version == VERSION && AllSendable(ms)
    requires Flatten(chunks) == EncodeHandshake(h).value + EncodeAll(ms)
    ensures var s := OnChunks(FRESH, chunks);
            && s.outs == [DeviceName(h.deviceName), Reconfigure(h.codec, h.csd, h.width, h.height)] + InterpretAll(ms)
            && Introduces(s.outs, h) && Told(s.outs[2..], ms)
            && s.core.buf == [] && Remembers(s.core, h, ms)
  {
    hide EncodeAll, TryDecodeHandshake, Flatten, OnChunks, OnBytes, ApplyAll, Greeted, ApplyHandshake, InterpretAll,
         Introduces, Told, Remembers, AllSendable;
    assert |EncodeHandshake(h).value| > 0;
    hide EncodeHandshake;
    assert Flatten([]) == [] by {
      NoPieces();
    }
    AnyChunking(FRESH, chunks);
    WholeStream(h, ms, Flatten(chunks));
    GreetedAndTold(h, ms);
  }

  /** Until a handshake has arrived there is nothing to tell and nothing to send. */
  lemma NothingBeforeHandshake(chunks: seq<bytes>, action: byte, id: byte, css: Point, viewW: real, viewH: real,
                               x: real, y: real)
    requires TryDecodeHandshake(Flatten(chunks)) == Ok(None)
    ensures var s := OnChunks(FRESH, chunks);
            && s.outs == [] && !s.core.handshake && !s.core.fatal && s.core.buf == Flatten(chunks)
            && s.core.codec == None && s.core.csd == [] && s.core.deviceName == [] && s.core.caps == 0
            && TouchBytes(s.core, action, id, css, viewW, viewH, x) == []
            && ScrollBytes(s.core, css, viewW, viewH, x, y) == []
  {
    hide TryDecodeHandshake, ParseAll, Flatten;
    assert Flatten([]) == [] by {
      NoPieces();
    }
    assert [] + Flatten(chunks) == Flatten(chunks);
    if chunks != [] {
      AnyChunking(FRESH, chunks);
    }
    hide OnChunks;
  }

  // ---- Malformed bytes

  lemma ParseAllStops(ms: seq<Message>, bad: bytes, e: ProtoError)
    requires AllSendable(ms) && TryDecodeFrame(bad) == Err(e)
    ensures ParseAll(EncodeAll(ms) + bad) == Parsed(ms, [], Some(e))
  {
    hide TryDecodeFrame, EncodeAll, AllSendable;
    ParseAllInvertsEncodeAll(ms);
    ParseAllExtends(EncodeAll(ms), bad);
    assert [] + bad == bad && ms + [] == ms;
  }

  predicate Faults(o: Out, e: ProtoError) {
    o.Error? && o.text.FromProto? && o.text.error == e
  }

  /** Name and configuration, the events of the messages, the fault. */
  predicate EndsInFault(outs: seq<Out>, h: Handshake, ms: seq<Message>, e: ProtoError) {
    |outs| >= 3 && Introduces(outs, h) && Told(outs[2..|outs| - 1], ms) && Faults(outs[|outs| - 1], e)
  }

  lemma FaultIsLast(h: Handshake, ms: seq<Message>, e: ProtoError)
    ensures EndsInFault(ApplyHandshake(FRESH, h).outs + (InterpretAll(ms) + [Error(FromProto(e))]), h, ms, e)
  {
    InterpretationTells(ms);
    hide InterpretAll, Told;
    var two, outs := ApplyHandshake(FRESH, h).outs, InterpretAll(ms);
    var whole := two + (outs + [Error(FromProto(e))]);
    assert whole[2..|whole| - 1] == outs;
  }

  lemma FailsDrained(c: Core, ms: seq<Message>, e: ProtoError)
    requires !c.skip
    ensures var s := Drained(c, Parsed(ms, [], Some(e)));
            && s.outs == InterpretAll(ms) + [Error(FromProto(e))] && s.core.fatal && s.core.buf == []
  {
    hide ApplyAll, InterpretAll;
    ApplyAllInterprets(c.(buf := []), ms);
  }

  lemma NoPieces()
    ensures Flatten([]) == []
  {
  }

  /**
   The first malformed frame is reported once, behind the events of what came before it; then
   the client is deaf.
   */
  lemma FirstFaultEnds(h: Handshake, ms: seq<Message>, bad: bytes, e: ProtoError, chunks: seq<bytes>, later: bytes)
    requires EncodeHandshake(h).Ok? && h.version == VERSION && AllSendable(ms) && TryDecodeFrame(bad) == Err(e)
    requires Flatten(chunks) == EncodeHandshake(h).value + (EncodeAll(ms) + bad)
    ensures var s := OnChunks(FRESH, chunks);
            EndsInFault(s.outs, h, ms, e) && s.core.buf == [] && OnBytes(s.core, later) == Step(s.core, [])
  {
    hide EncodeHandshake, EncodeAll, TryDecodeHandshake, TryDecodeFrame, ParseAll, Flatten, OnChunks, InterpretAll,
         AllSendable, Drained, EndsInFault;
    assert chunks == [] ==> Flatten(chunks) == [] by {
      NoPieces();
    }
    var k, all := EncodeHandshake(h).value, Flatten(chunks);
    HandshakeRoundTrip(h, EncodeAll(ms) + bad);
    assert all[|k|..] == EncodeAll(ms) + bad;
    assert [] + all == all;
    ParseAllStops(ms, bad, e);
    AnyChunking(FRESH, chunks);
    FailsDrained(ApplyHandshake(FRESH.(buf := all), h).core, ms, e);
    FaultIsLast(h, ms, e);
  }

  /** A malformed handshake is all there is to report. */
  lemma BadHandshakeEnds(e: ProtoError, chunks: seq<bytes>, later: bytes)
    requires chunks != [] && TryDecodeHandshake(Flatten(chunks)) == Err(e)
    ensures var s := OnChunks(FRESH, chunks);
            |s.outs| == 1 && Faults(s.outs[0], e) && OnBytes(s.core, later) == Step(s.core, [])
  {
    hide TryDecodeHandshake, ParseAll, Flatten, OnChunks;
    AnyChunking(FRESH, chunks);
    assert [] + Flatten(chunks) == Flatten(chunks);
  }

  // ---- Keyframe skip

  /** The two calls that change a client: bytes from the server, and the host falling behind. */
  datatype Call = Data(data: bytes) | RequestSkip

  function WithSkip(c: Core, skip: bool): Core {
    c.(skip := skip)
  }

  function Run(c: Core, calls: seq<Call>): Step
    decreases |calls|
  {
    if calls == [] then Step(c, [])
    else
      match calls[0]
      case Data(d) =>
        var first := OnBytes(c, d);
        Run(first.core, calls[1..]).After(first.outs)
      case RequestSkip => Run(WithSkip(c, true), calls[1..])
  }

  /** What a client that ignores skip requests does, with the requests noted in between. */
  datatype Item = Asked | Emitted(out: Out)

  type Trace = seq<Item>

  function Items(outs: seq<Out>): (t: Trace)
    ensures |t| == |outs|
    ensures forall i :: 0 <= i < |outs| ==> t[i] == Emitted(outs[i])
  {
    seq(|outs|, i requires 0 <= i < |outs| => Emitted(outs[i]))
  }

  function Reference(c: Core, calls: seq<Call>): Trace
    decreases |calls|
  {
    if calls == [] then []
    else
      match calls[0]
      case Data(d) => Items(OnBytes(c, d).outs) + Reference(OnBytes(c, d).core, calls[1..])
      case RequestSkip => [Asked] + Reference(c, calls[1..])
  }

  predicate Keyframe(i: Item) {
    i.Emitted? && i.out.Frame? && i.out.keyframe
  }

  predicate Delta(i: Item) {
    i.Emitted? && i.out.Frame? && !i.out.keyframe
  }

  /** A skip was requested before position `i` and no keyframe came in between. */
  predicate Skipping(t: Trace, i: nat)
    requires i <= |t|
  {
    exists j :: 0 <= j < i && t[j] == Asked && forall k :: j < k < i ==> !Keyframe(t[k])
  }

  /** The skip requested last is still waiting for its keyframe. */
  predicate Pending(t: Trace) {
    Skipping(t, |t|)
  }

  /** The events of a trace without the delta frames that fall into a skip. */
  function Kept(t: Trace): seq<Out> {
    if t == [] then []
    else
      var n := |t| - 1;
      Kept(t[..n]) + (if t[n].Asked? || (Delta(t[n]) && Skipping(t, n)) then [] else [t[n].out])
  }

  /** One more item: what is kept, and whether the trace is still skipping afterwards. */
  lemma KeptSnoc(t: Trace, i: Item)
    ensures Kept(t + [i]) == Kept(t) + (if i.Asked? || (Delta(i) && Pending(t)) then [] else [i.out])
    ensures Pending(t + [i]) == (i.Asked? || (!Keyframe(i) && Pending(t)))
  {
    var u := t + [i];
    assert u[..|t|] == t;
    assert Skipping(u, |t|) == Skipping(t, |t|) by {
      assert forall j :: 0 <= j < |t| ==> u[j] == t[j];
    }
    if i.Asked? {
      assert u[|t|] == Asked;
    } else if !Keyframe(i) && Skipping(t, |t|) {
      var j :| 0 <= j < |t| && t[j] == Asked && forall k :: j < k < |t| ==> !Keyframe(t[k]);
      assert u[j] == Asked && forall k :: j < k < |t| + 1 ==> !Keyframe(u[k]);
    }
  }

  /** Events that are not video frames pass through and leave the skip as it was. */
  lemma {:induction false} KeptOthers(t: Trace, outs: seq<Out>)
    requires forall i :: 0 <= i < |outs| ==> !outs[i].Frame?
    ensures Kept(t + Items(outs)) == Kept(t) + outs
    ensures Pending(t + Items(outs)) == Pending(t)
    decreases |outs|
  {
    hide Kept, Pending, Skipping;
    if outs == [] {
      assert t + Items(outs) == t;
    } else {
      var n := |outs| - 1;
      KeptOthers(t, outs[..n]);
      KeptSnoc(t + Items(outs[..n]), Emitted(outs[n]));
      assert t + Items(outs) == t + Items(outs[..n]) + [Emitted(outs[n])];
      assert outs == outs[..n] + [outs[n]];
    }
  }

  /** The skipping client `act` is the reference client, up to the flag and what it left out. */
  predicate Lockstep(t: Trace, ref: Step, act: Step) {
    && act.core == WithSkip(ref.core, Pending(t + Items(ref.outs)))
    && Kept(t + Items(ref.outs)) == Kept(t) + act.outs
    && !ref.core.skip
  }

  lemma ItemsAppend(a: seq<Out>, b: seq<Out>)
    ensures Items(a + b) == Items(a) + Items(b)
  {
  }

  lemma LockstepChain(t: Trace, ref1: Step, act1: Step, ref2: Step, act2: Step)
    requires Lockstep(t, ref1, act1) && Lockstep(t + Items(ref1.outs), ref2, act2)
    ensures Lockstep(t, ref2.After(ref1.outs), act2.After(act1.outs))
  {
    ItemsAppend(ref1.outs, ref2.outs);
    hide Kept, Pending, Items, WithSkip;
    assert t + Items(ref1.outs + ref2.outs) == t + Items(ref1.outs) + Items(ref2.outs);
    assert Kept(t) + act1.outs + act2.outs == Kept(t) + (act1.outs + act2.outs);
  }

  lemma LockstepMessage(t: Trace, c: Core, m: Message)
    requires !c.skip
    ensures Lockstep(t, ApplyMessage(c, m), ApplyMessage(WithSkip(c, Pending(t)), m))
  {
    var ref := ApplyMessage(c, m);
    if m.VideoFrame? {
      KeptSnoc(t, Emitted(ref.outs[0]));
      assert Items(ref.outs) == [Emitted(ref.outs[0])];
    } else {
      KeptOthers(t, ref.outs);
    }
  }

  lemma {:induction false} LockstepAll(t: Trace, c: Core, ms: seq<Message>)
    requires !c.skip
    ensures Lockstep(t, ApplyAll(c, ms), ApplyAll(WithSkip(c, Pending(t)), ms))
    decreases |ms|
  {
    if ms == [] {
      KeptOthers(t, []);
    } else {
      LockstepMessage(t, c, ms[0]);
      var s := Pending(t);
      hide Pending, Kept, ApplyMessage;
      var ref, act := ApplyMessage(c, ms[0]), ApplyMessage(WithSkip(c, s), ms[0]);
      var u := t + Items(ref.outs);
      LockstepAll(u, ref.core, ms[1..]);
      LockstepChain(t, ref, act, ApplyAll(ref.core, ms[1..]), ApplyAll(act.core, ms[1..]));
    }
  }

  lemma LockstepDrained(t: Trace, c: Core, p: Parsed)
    requires !c.skip
    ensures Lockstep(t, Drained(c, p), Drained(WithSkip(c, Pending(t)), p))
  {
    var r := c.(buf := p.rest);
    LockstepAll(t, r, p.msgs);
    var s := Pending(t);
    hide Pending, Kept, ApplyAll;
    if p.error.Some? {
      var ref, act := ApplyAll(r, p.msgs), ApplyAll(WithSkip(r, s), p.msgs);
      var e := p.error.value;
      KeptOthers(t + Items(ref.outs), [Error(FromProto(e))]);
      LockstepChain(t, ref, act, Fail(ref.core, e), Fail(act.core, e));
    }
  }

  lemma LockstepBytes(t: Trace, c: Core, data: bytes)
    requires !c.skip
    ensures Lockstep(t, OnBytes(c, data), OnBytes(WithSkip(c, Pending(t)), data))
  {
    var s := Pending(t);
    hide Pending, Kept, TryDecodeHandshake, ParseAll, Drained;
    var d := c.(buf := c.buf + data);
    if c.fatal {
      KeptOthers(t, []);
    } else if c.handshake {
      LockstepDrained(t, d, ParseAll(d.buf));
    } else {
      match TryDecodeHandshake(d.buf)
      case Ok(None) => KeptOthers(t, []);
      case Err(e) => KeptOthers(t, [Error(FromProto(e))]);
      case Ok(Some((h, n))) =>
        var ref, act := ApplyHandshake(d, h), ApplyHandshake(WithSkip(d, s), h);
        KeptOthers(t, ref.outs);
        var p := ParseAll(d.buf[n..]);
        LockstepDrained(t + Items(ref.outs), ref.core, p);
        LockstepChain(t, ref, act, Drained(ref.core, p), Drained(act.core, p));
    }
  }

  lemma RunData(c: Core, d: bytes, calls: seq<Call>)
    ensures Run(c, [Data(d)] + calls) == Run(OnBytes(c, d).core, calls).After(OnBytes(c, d).outs)
    ensures Reference(c, [Data(d)] + calls) == Items(OnBytes(c, d).outs) + Reference(OnBytes(c, d).core, calls)
    ensures Run(c, [RequestSkip] + calls) == Run(WithSkip(c, true), calls)
    ensures Reference(c, [RequestSkip] + calls) == [Asked] + Reference(c, calls)
  {
    hide OnBytes;
    assert ([Data(d)] + calls)[1..] == calls && ([RequestSkip] + calls)[1..] == calls;
  }

  /** After the trace `t`, the rest of the run yields what is kept of the rest of the trace. */
  predicate SkipsFrom(t: Trace, c: Core, calls: seq<Call>) {
    Kept(t + Reference(c, calls)) == Kept(t) + Run(WithSkip(c, Pending(t)), calls).outs
  }

  lemma {:induction false} SkipFrom(t: Trace, c: Core, calls: seq<Call>)
    requires !c.skip
    ensures SkipsFrom(t, c, calls)
    decreases |calls|
  {
    if calls == [] {
      assert t + [] == t;
    } else {
      var rest := calls[1..];
      assert calls == [calls[0]] + rest;
      hide SkipsFrom;
      if calls[0].Data? {
        var ref := OnBytes(c, calls[0].data);
        LockstepBytes(t, c, calls[0].data);
        SkipFrom(t + Items(ref.outs), ref.core, rest);
        SkipFromData(t, c, calls[0].data, rest);
      } else {
        SkipFrom(t + [Asked], c, rest);
        SkipFromRequest(t, c, rest);
      }
    }
  }

  lemma SkipFromRequest(t: Trace, c: Core, rest: seq<Call>)
    requires SkipsFrom(t + [Asked], c, rest)
    ensures SkipsFrom(t, c, [RequestSkip] + rest)
  {
    hide Pending, Kept, Run, Reference, OnBytes;
    KeptSnoc(t, Asked);
    var s := Pending(t);
    assert WithSkip(WithSkip(c, s), true) == WithSkip(c, true);
    hide WithSkip;
    RunData(c, [], rest);
    RunData(WithSkip(c, s), [], rest);
    assert t + ([Asked] + Reference(c, rest)) == t + [Asked] + Reference(c, rest);
  }

  lemma SkipFromData(t: Trace, c: Core, d: bytes, rest: seq<Call>)
    requires Lockstep(t, OnBytes(c, d), OnBytes(WithSkip(c, Pending(t)), d))
    requires SkipsFrom(t + Items(OnBytes(c, d).outs), OnBytes(c, d).core, rest)
    ensures SkipsFrom(t, c, [Data(d)] + rest)
  {
    hide Pending, Kept, OnBytes, Run, Reference, WithSkip, Items;
    var s := Pending(t);
    RunData(c, d, rest);
    RunData(WithSkip(c, s), d, rest);
    var ref, act := OnBytes(c, d), OnBytes(WithSkip(c, s), d);
    var u := t + Items(ref.outs);
    assert t + (Items(ref.outs) + Reference(ref.core, rest)) == u + Reference(ref.core, rest);
    var later := Run(act.core, rest);
    assert Kept(t) + act.outs + later.outs == Kept(t) + (act.outs + later.outs);
  }

  /**
   For any interleaving of incoming bytes and skip requests, the events are those of a client
   that never skips, in order, minus exactly the delta frames that come after a request and
   before the next keyframe.
   */
  lemma SkipDropsExactlyTheDeltas(c: Core, calls: seq<Call>)
    requires !c.skip
    ensures Run(c, calls).outs == Kept(Reference(c, calls))
  {
    hide Run, Reference;
    SkipFrom([], c, calls);
    assert WithSkip(c, Pending([])) == c;
    assert [] + Reference(c, calls) == Reference(c, calls);
    assert [] + Run(c, calls).outs == Run(c, calls).outs;
  }

  // ---- Control messages

  /** `encode`: a message that does not fit the wire becomes no bytes at all. */
  function EncodeOrNothing(m: Message): bytes {
    match Encode(m)
    case Ok(b) => b
    case Err(_) => []
  }

  function TouchBytes(c: Core, action: byte, id: byte, css: Point, viewW: real, viewH: real, pressure: real): bytes {
    match MapToDevice(css, viewW, viewH, c.width, c.height, c.rotation as nat)
    case None => []
    case Some((x, y)) => EncodeOrNothing(Touch(action, id, x, y, EncodePressure(pressure)))
  }

  function ScrollBytes(c: Core, css: Point, viewW: real, viewH: real, h: real, v: real): bytes {
    match MapToDevice(css, viewW, viewH, c.width, c.height, c.rotation as nat)
    case None => []
    case Some((x, y)) => EncodeOrNothing(Scroll(x, y, EncodeScroll(h), EncodeScroll(v)))
  }

  lemma TouchEncodes(m: Message)
    requires m.Touch? || m.Scroll?
    ensures Encode(m).Ok? && Faithful(m)
  {
  }

  /** A touch is one frame that parses to a pixel of the current picture, or nothing at all. */
  lemma TouchIsOneFrame(c: Core, action: byte, id: byte, css: Point, viewW: real, viewH: real, pressure: real)
    ensures var b := TouchBytes(c, action, id, css, viewW, viewH, pressure);
            match MapToDevice(css, viewW, viewH, c.width, c.height, c.rotation as nat)
            case None => b == []
            case Some((x, y)) => TryDecodeFrame(b) == Ok(Some((Touch(action, id, x, y, EncodePressure(pressure)), |b|)))
  {
    hide TryDecodeFrame, Encode, Faithful, MapToDevice;
    match MapToDevice(css, viewW, viewH, c.width, c.height, c.rotation as nat)
    case None =>
    case Some((x, y)) =>
      var m := Touch(action, id, x, y, EncodePressure(pressure));
      TouchEncodes(m);
      FrameRoundTrip(m, []);
      assert Encode(m).value + [] == Encode(m).value;
  }

  /** So is a scroll; its amounts are fixed-point numbers. */
  lemma ScrollIsOneFrame(c: Core, css: Point, viewW: real, viewH: real, h: real, v: real)
    ensures var b := ScrollBytes(c, css, viewW, viewH, h, v);
            match MapToDevice(css, viewW, viewH, c.width, c.height, c.rotation as nat)
            case None => b == []
            case Some((x, y)) => TryDecodeFrame(b) == Ok(Some((Scroll(x, y, EncodeScroll(h), EncodeScroll(v)), |b|)))
  {
    hide TryDecodeFrame, Encode, Faithful, MapToDevice;
    match MapToDevice(css, viewW, viewH, c.width, c.height, c.rotation as nat)
    case None =>
    case Some((x, y)) =>
      var m := Scroll(x, y, EncodeScroll(h), EncodeScroll(v));
      TouchEncodes(m);
      FrameRoundTrip(m, []);
      assert Encode(m).value + [] == Encode(m).value;
  }

  /** One turn of the frame loop. */
  lemma DrainedUnfolds(c: Core)
    ensures Drained(c, ParseAll(c.buf)) ==
            match TryDecodeFrame(c.buf)
            case Ok(None) => Step(c, [])
            case Err(e) => Fail(c, e)
            case Ok(Some((m, n))) =>
              var first := ApplyMessage(c.(buf := c.buf[n..]), m);
              Drained(first.core, ParseAll(first.core.buf)).After(first.outs)
  {
    match TryDecodeFrame(c.buf)
    case Ok(None) =>
    case Err(e) =>
      assert [] + Fail(c, e).outs == Fail(c, e).outs;
    case Ok(Some((m, n))) =>
      var rest, p := c.buf[n..], ParseAll(c.buf[n..]);
      assert ParseAll(c.buf) == Parsed([m], [], None).Then(p);
      hide TryDecodeFrame, ParseAll;
      ApplyMessageFrame(c, m, rest);
      ApplyMessageFrame(c, m, p.rest);
      DrainedThen(c.(buf := rest), Parsed([m], rest, None), p);
      assert Parsed([m], rest, None).Then(p) == Parsed([m], [], None).Then(p);
      var first := ApplyMessage(c.(buf := rest), m);
      assert first.outs + [] == first.outs;
      assert ApplyAll(c.(buf := rest), [m]) == first;
  }
}
