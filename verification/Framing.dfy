/**
 The drain loop shared by both ends: all the frames a buffer holds, what is left of it,
 and the error that stopped it, if any. Also the byte stream of a list of messages.
 */
module Framing {
  import opened Wrappers
  import opened Bytes
  import opened Proto

  datatype Parsed = Parsed(msgs: seq<Message>, rest: bytes, error: Option<ProtoError>) {
    /** What is known after more input, when `later` parses the leftover and that input. */
    function Then(later: Parsed): Parsed {
      if error.Some? then this else Parsed(msgs + later.msgs, later.rest, later.error)
    }
  }

  function ParseAll(buf: bytes): Parsed
    decreases |buf|
  {
    match TryDecodeFrame(buf)
    case Ok(None) => Parsed([], buf, None)
    case Err(e) => Parsed([], [], Some(e))
    case Ok(Some((m, n))) => Parsed([m], [], None).Then(ParseAll(buf[n..]))
  }

  /** One turn of the loop, with `done` already parsed. */
  function Turn(done: seq<Message>, buf: bytes): Parsed {
    match TryDecodeFrame(buf)
    case Ok(None) => Parsed(done, buf, None)
    case Err(e) => Parsed(done, [], Some(e))
    case Ok(Some((m, n))) => Parsed(done + [m], [], None).Then(ParseAll(buf[n..]))
  }

  lemma ParseAllTurns(done: seq<Message>, buf: bytes)
    ensures Parsed(done, [], None).Then(ParseAll(buf)) == Turn(done, buf)
  {
    hide TryDecodeFrame;
    assert done + [] == done;
    if TryDecodeFrame(buf).Ok? && TryDecodeFrame(buf).value.Some? {
      var (m, n) := TryDecodeFrame(buf).value.value;
      var rest := ParseAll(buf[n..]).msgs;
      assert done + ([m] + rest) == done + [m] + rest;
    }
  }

  /** Parsing resumes where it stopped: more bytes never change what was already found. */
  lemma {:induction false} ParseAllExtends(buf: bytes, more: bytes)
    ensures ParseAll(buf + more) == ParseAll(buf).Then(ParseAll(ParseAll(buf).rest + more))
    decreases |buf|
  {
    FrameStable(buf, more);
    hide TryDecodeFrame;
    match TryDecodeFrame(buf)
    case Ok(None) =>
    case Err(e) =>
    case Ok(Some((m, n))) =>
      assert (buf + more)[n..] == buf[n..] + more;
      ParseAllExtends(buf[n..], more);
  }

  /** The leftover holds no whole frame and no error. */
  lemma {:induction false} RestIsQuiet(buf: bytes)
    ensures ParseAll(ParseAll(buf).rest) == Parsed([], ParseAll(buf).rest, None)
    decreases |buf|
  {
    match TryDecodeFrame(buf)
    case Ok(None) =>
    case Err(e) =>
    case Ok(Some((_, n))) => RestIsQuiet(buf[n..]);
  }

  // ---- Printing

  /** The messages that encode and come back as themselves. */
  predicate Sendable(m: Message) {
    Encode(m).Ok? && Faithful(m)
  }

  predicate AllSendable(ms: seq<Message>) {
    forall i :: 0 <= i < |ms| ==> Sendable(ms[i])
  }

  function EncodeAll(ms: seq<Message>): bytes
    requires AllSendable(ms)
  {
    if ms == [] then [] else Encode(ms[0]).value + EncodeAll(ms[1..])
  }

  lemma ParseAllPeels(m: Message, rest: bytes)
    requires Sendable(m)
    ensures ParseAll(Encode(m).value + rest) == Parsed([m], [], None).Then(ParseAll(rest))
  {
    FrameRoundTrip(m, rest);
    hide TryDecodeFrame, Encode, Faithful;
    var e := Encode(m).value;
    assert (e + rest)[|e|..] == rest;
  }

  lemma {:induction false} ParseAllInvertsEncodeAll(ms: seq<Message>)
    requires AllSendable(ms)
    ensures ParseAll(EncodeAll(ms)) == Parsed(ms, [], None)
  {
    hide Encode, Faithful;
    if ms != [] {
      ParseAllPeels(ms[0], EncodeAll(ms[1..]));
      ParseAllInvertsEncodeAll(ms[1..]);
      hide ParseAll;
      assert ms == [ms[0]] + ms[1..];
    }
  }
}
