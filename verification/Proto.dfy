/**
 The mirror wire protocol: an unframed handshake, then length-prefixed frames.
 Encoders and parsers of crates/proto/src/lib.rs, and how they undo each other.
 */
module Proto {
  import opened Wrappers
  import opened Bytes
  import opened Utf8

  const MAGIC: bytes := [0x44, 0x4D, 0x49, 0x52]
  const VERSION: byte := 1
  const MAX_FRAME_LEN: nat := 8 * 1024 * 1024
  const MAX_CSD_LEN: nat := 64 * 1024
  const MAX_NAME_LEN: nat := 256
  const FLAG_KEYFRAME: byte := 1

  const TAG_VIDEO_FRAME: byte := 0x01
  const TAG_CONFIGURE: byte := 0x02
  const TAG_TOUCH: byte := 0x10
  const TAG_KEY: byte := 0x11
  const TAG_TEXT: byte := 0x12
  const TAG_SCROLL: byte := 0x13
  const TAG_SET_ENCODING: byte := 0x14
  const TAG_KEY_SYN: byte := 0x15
  const TAG_PAUSE: byte := 0x7F

  datatype Codec = H264 | H265

  function CodecByte(c: Codec): byte {
    match c
    case H264 => 1
    case H265 => 2
  }

  function CodecFromByte(b: byte): (c: Option<Codec>)
    ensures c.Some? ==> CodecByte(c.value) == b
    ensures c.None? <==> b != 1 && b != 2
  {
    if b == 1 then Some(H264) else if b == 2 then Some(H265) else None
  }

  datatype Handshake = Handshake(
    version: byte, codec: Codec, width: u16, height: u16, csd: bytes, deviceName: utf8, caps: byte)

  datatype Message =
    | VideoFrame(ptsUs: u64, keyframe: bool, nal: bytes)
    | Configure(codec: Codec, width: u16, height: u16, csd: bytes)
    | Touch(action: byte, pointerId: byte, x: i32, y: i32, pressure: u16)
    | Key(action: byte, keycode: u32, meta: u32)
    | Text(text: utf8)
    | Scroll(x: i32, y: i32, h: i32, v: i32)
    | SetEncoding(bitrate: u32, maxFps: u32, maxSize: u16)
    | KeySyn(keycode: u32, action: byte)
    | PauseResume(on: bool)
    | Reserved(tag: byte, payload: bytes)

  datatype ProtoError =
    | BadMagic
    | BadVersion(version: byte)
    | BadCodec(codec: byte)
    | BadLength(length: u32)
    | Malformed(tag: byte)
    | BadUtf8

  function Tag(m: Message): byte {
    match m
    case VideoFrame(_, _, _) => TAG_VIDEO_FRAME
    case Configure(_, _, _, _) => TAG_CONFIGURE
    case Touch(_, _, _, _, _) => TAG_TOUCH
    case Key(_, _, _) => TAG_KEY
    case Text(_) => TAG_TEXT
    case Scroll(_, _, _, _) => TAG_SCROLL
    case SetEncoding(_, _, _) => TAG_SET_ENCODING
    case KeySyn(_, _) => TAG_KEY_SYN
    case PauseResume(_) => TAG_PAUSE
    case Reserved(tag, _) => tag
  }

  /** The tags `DecodePayload` gives a meaning to. */
  predicate Interpreted(tag: byte) {
    tag in {TAG_VIDEO_FRAME, TAG_CONFIGURE, TAG_TOUCH, TAG_KEY, TAG_TEXT,
            TAG_SCROLL, TAG_SET_ENCODING, TAG_KEY_SYN, TAG_PAUSE}
  }

  // ---- Encoding

  function EncodeConfig(codec: Codec, width: u16, height: u16, csd: bytes): Result<bytes, ProtoError> {
    if |csd| > MAX_CSD_LEN || |csd| > U16_MAX then Err(BadLength(|csd| % U32_MOD))
    else Ok([CodecByte(codec)] + PutU16(width) + PutU16(height) + PutU16(|csd|) + csd)
  }

  function EncodePayload(m: Message): Result<bytes, ProtoError> {
    match m
    case VideoFrame(pts, keyframe, nal) =>
      if |nal| > MAX_FRAME_LEN then Err(BadLength(|nal| % U32_MOD))
      else Ok(PutU64(pts) + [if keyframe then FLAG_KEYFRAME else 0] + PutU32(|nal|) + nal)
    case Configure(codec, width, height, csd) => EncodeConfig(codec, width, height, csd)
    case Touch(action, id, x, y, pressure) => Ok([action, id] + PutI32(x) + PutI32(y) + PutU16(pressure))
    case Key(action, keycode, meta) => Ok([action] + PutU32(keycode) + PutU32(meta))
    case Text(s) =>
      if |s| > U16_MAX then Err(BadLength(|s| % U32_MOD))
      else Ok(PutU16(|s|) + s)
    case Scroll(x, y, h, v) => Ok(PutI32(x) + PutI32(y) + PutI32(h) + PutI32(v))
    case SetEncoding(bitrate, fps, size) => Ok(PutU32(bitrate) + PutU32(fps) + PutU16(size))
    case KeySyn(keycode, action) => Ok(PutU32(keycode) + [action])
    case PauseResume(on) => Ok([if on then 1 else 0])
    case Reserved(_, payload) => Ok(payload)
  }

  /** The length is cast to 32 bits before it is checked, as in the source. */
  function EncodeFrame(tag: byte, payload: bytes): Result<bytes, ProtoError> {
    var total := 1 + |payload| % U32_MOD;
    if total >= U32_MOD then Err(BadLength(U32_MOD - 1))
    else if total > MAX_FRAME_LEN then Err(BadLength(total))
    else Ok(PutU32(total) + [tag] + payload)
  }

  function Encode(m: Message): Result<bytes, ProtoError> {
    match EncodePayload(m)
    case Err(e) => Err(e)
    case Ok(p) => EncodeFrame(Tag(m), p)
  }

  function HandshakeHead(h: Handshake): (s: bytes)
    requires |h.csd| <= U16_MAX
    ensures |s| == 12
  {
    MAGIC + [h.version, CodecByte(h.codec)] + PutU16(h.width) + PutU16(h.height) + PutU16(|h.csd|)
  }

  function EncodeHandshake(h: Handshake): Result<bytes, ProtoError> {
    if |h.csd| > MAX_CSD_LEN || |h.csd| > U16_MAX then Err(BadLength(|h.csd| % U32_MOD))
    else if |h.deviceName| > MAX_NAME_LEN || |h.deviceName| > U16_MAX then Err(BadLength(|h.deviceName| % U32_MOD))
    else Ok(HandshakeHead(h) + h.csd + PutU16(|h.deviceName|) + h.deviceName + [h.caps])
  }

  // ---- Decoding

  /** `Ok(None)` means that the buffer does not hold a whole handshake yet. */
  function TryDecodeHandshake(buf: bytes): (r: Result<Option<(Handshake, nat)>, ProtoError>)
    ensures r.Ok? && r.value.Some? ==> 0 < r.value.value.1 <= |buf|
  {
    if |buf| >= 4 && buf[..4] != MAGIC then Err(BadMagic)
    else if |buf| < 12 then Ok(None)
    else if buf[4] != VERSION then Err(BadVersion(buf[4]))
    else match CodecFromByte(buf[5])
      case None => Err(BadCodec(buf[5]))
      case Some(codec) =>
        // The source also refuses a csd length above MAX_CSD_LEN, which 16 bits cannot hold.
        var nameAt := 12 + GetU16(buf[10..12]);
        if |buf| < nameAt + 2 then Ok(None)
        else
          var nameLen := GetU16(buf[nameAt..nameAt + 2]);
          if nameLen > MAX_NAME_LEN then Err(BadLength(nameLen))
          else
            var total := nameAt + 2 + nameLen + 1;
            if |buf| < total then Ok(None)
            else
              var name := buf[nameAt + 2..nameAt + 2 + nameLen];
              if !ValidUtf8(name) then Err(BadUtf8)
              else Ok(Some((Handshake(buf[4], codec, GetU16(buf[6..8]), GetU16(buf[8..10]),
                                      buf[12..nameAt], name, buf[total - 1]), total)))
  }

  function DecodePayload(tag: byte, p: bytes): Result<Message, ProtoError> {
    if tag == TAG_VIDEO_FRAME then
      if |p| < 13 || |p| != 13 + GetU32(p[9..13]) then Err(Malformed(tag))
      else Ok(VideoFrame(GetU64(p[0..8]), p[8] % 2 == 1, p[13..]))
    else if tag == TAG_CONFIGURE then
      if |p| < 7 then Err(Malformed(tag))
      else match CodecFromByte(p[0])
        case None => Err(BadCodec(p[0]))
        case Some(codec) =>
          var csdLen := GetU16(p[5..7]);
          if csdLen > MAX_CSD_LEN || |p| != 7 + csdLen then Err(Malformed(tag))
          else Ok(Configure(codec, GetU16(p[1..3]), GetU16(p[3..5]), p[7..]))
    else if tag == TAG_TOUCH then
      if |p| != 12 then Err(Malformed(tag))
      else Ok(Touch(p[0], p[1], GetI32(p[2..6]), GetI32(p[6..10]), GetU16(p[10..12])))
    else if tag == TAG_KEY then
      if |p| != 9 then Err(Malformed(tag))
      else Ok(Key(p[0], GetU32(p[1..5]), GetU32(p[5..9])))
    else if tag == TAG_TEXT then
      if |p| < 2 || |p| != 2 + GetU16(p[0..2]) then Err(Malformed(tag))
      else if !ValidUtf8(p[2..]) then Err(BadUtf8)
      else Ok(Text(p[2..]))
    else if tag == TAG_SCROLL then
      if |p| != 16 then Err(Malformed(tag))
      else Ok(Scroll(GetI32(p[0..4]), GetI32(p[4..8]), GetI32(p[8..12]), GetI32(p[12..16])))
    else if tag == TAG_SET_ENCODING then
      if |p| != 10 then Err(Malformed(tag))
      else Ok(SetEncoding(GetU32(p[0..4]), GetU32(p[4..8]), GetU16(p[8..10])))
    else if tag == TAG_KEY_SYN then
      if |p| != 5 then Err(Malformed(tag))
      else Ok(KeySyn(GetU32(p[0..4]), p[4]))
    else if tag == TAG_PAUSE then
      if |p| != 1 then Err(Malformed(tag))
      else Ok(PauseResume(p[0] != 0))
    else Ok(Reserved(tag, p))
  }

  function TryDecodeFrame(buf: bytes): (r: Result<Option<(Message, nat)>, ProtoError>)
    ensures r.Ok? && r.value.Some? ==> 5 <= r.value.value.1 <= |buf|
  {
    if |buf| < 4 then Ok(None)
    else
      var total := GetU32(buf[..4]);
      if total < 1 || total > MAX_FRAME_LEN then Err(BadLength(total))
      else if |buf| < 4 + total then Ok(None)
      else match DecodePayload(buf[4], buf[5..4 + total])
        case Err(e) => Err(e)
        case Ok(m) => Ok(Some((m, 4 + total)))
  }

  // ---- Frames: what is printed is parsed back, and the other way round

  /** Exactly the messages that survive the wire, among those that encode at all. */
  predicate Faithful(m: Message) {
    m.Reserved? ==> !Interpreted(m.tag) && |m.payload| < U32_MOD
  }

  lemma VideoRoundTrip(pts: u64, keyframe: bool, nal: bytes)
    requires |nal| <= MAX_FRAME_LEN
    ensures var m := VideoFrame(pts, keyframe, nal);
            DecodePayload(TAG_VIDEO_FRAME, EncodePayload(m).value) == Ok(m)
  {
    var p := EncodePayload(VideoFrame(pts, keyframe, nal)).value;
    assert p[0..8] == PutU64(pts) && p[9..13] == PutU32(|nal|) && p[13..] == nal;
  }

  lemma ConfigRoundTrip(codec: Codec, width: u16, height: u16, csd: bytes)
    requires |csd| <= U16_MAX
    ensures var m := Configure(codec, width, height, csd);
            DecodePayload(TAG_CONFIGURE, EncodePayload(m).value) == Ok(m)
  {
    var p := EncodePayload(Configure(codec, width, height, csd)).value;
    assert p[1..3] == PutU16(width) && p[3..5] == PutU16(height) && p[5..7] == PutU16(|csd|) && p[7..] == csd;
  }

  lemma TouchRoundTrip(action: byte, id: byte, x: i32, y: i32, pressure: u16)
    ensures var m := Touch(action, id, x, y, pressure);
            DecodePayload(TAG_TOUCH, EncodePayload(m).value) == Ok(m)
  {
    var p := EncodePayload(Touch(action, id, x, y, pressure)).value;
    assert p[2..6] == PutI32(x) && p[6..10] == PutI32(y) && p[10..12] == PutU16(pressure);
  }

  lemma ScrollRoundTrip(x: i32, y: i32, h: i32, v: i32)
    ensures var m := Scroll(x, y, h, v);
            DecodePayload(TAG_SCROLL, EncodePayload(m).value) == Ok(m)
  {
    var p := EncodePayload(Scroll(x, y, h, v)).value;
    assert p[0..4] == PutI32(x) && p[4..8] == PutI32(y) && p[8..12] == PutI32(h) && p[12..16] == PutI32(v);
  }

  lemma KeyRoundTrip(action: byte, keycode: u32, meta: u32)
    ensures DecodePayload(TAG_KEY, EncodePayload(Key(action, keycode, meta)).value) == Ok(Key(action, keycode, meta))
    ensures DecodePayload(TAG_KEY_SYN, EncodePayload(KeySyn(keycode, action)).value) == Ok(KeySyn(keycode, action))
  {
    var p := EncodePayload(Key(action, keycode, meta)).value;
    assert p[1..5] == PutU32(keycode) && p[5..9] == PutU32(meta);
    var q := EncodePayload(KeySyn(keycode, action)).value;
    assert q[0..4] == PutU32(keycode);
  }

  lemma TextRoundTrip(s: utf8)
    requires |s| <= U16_MAX
    ensures DecodePayload(TAG_TEXT, EncodePayload(Text(s)).value) == Ok(Text(s))
  {
    var p := EncodePayload(Text(s)).value;
    assert p[0..2] == PutU16(|s|) && p[2..] == s;
  }

  lemma EncodingRoundTrip(bitrate: u32, fps: u32, size: u16)
    ensures var m := SetEncoding(bitrate, fps, size);
            DecodePayload(TAG_SET_ENCODING, EncodePayload(m).value) == Ok(m)
  {
    var p := EncodePayload(SetEncoding(bitrate, fps, size)).value;
    assert p[0..4] == PutU32(bitrate) && p[4..8] == PutU32(fps) && p[8..10] == PutU16(size);
  }

  lemma PayloadRoundTrip(m: Message)
    requires !m.Reserved? && EncodePayload(m).Ok?
    ensures DecodePayload(Tag(m), EncodePayload(m).value) == Ok(m)
  {
    match m
    case VideoFrame(pts, keyframe, nal) => VideoRoundTrip(pts, keyframe, nal);
    case Configure(codec, width, height, csd) => ConfigRoundTrip(codec, width, height, csd);
    case Touch(action, id, x, y, pressure) => TouchRoundTrip(action, id, x, y, pressure);
    case Scroll(x, y, h, v) => ScrollRoundTrip(x, y, h, v);
    case Key(action, keycode, meta) => KeyRoundTrip(action, keycode, meta);
    case Text(s) => TextRoundTrip(s);
    case SetEncoding(bitrate, fps, size) => EncodingRoundTrip(bitrate, fps, size);
    case KeySyn(keycode, action) => KeyRoundTrip(action, keycode, 0);
    case PauseResume(on) =>
  }

  /** The header of an encoded frame, whatever follows it in the buffer. */
  lemma FrameLayout(m: Message, rest: bytes)
    requires Encode(m).Ok?
    ensures var e, p := Encode(m).value, EncodePayload(m).value;
            && |e| == 5 + |p|
            && GetU32((e + rest)[..4]) == 1 + |p| % U32_MOD <= MAX_FRAME_LEN
            && (e + rest)[4] == Tag(m)
            && (e + rest)[5..5 + |p|] == p
  {
    var e, p := Encode(m).value, EncodePayload(m).value;
    var total := 1 + |p| % U32_MOD;
    assert (e + rest)[..4] == PutU32(total);
  }

  /** The payloads no branch of the parser interprets. */
  lemma ReservedDecodes(tag: byte, p: bytes)
    ensures DecodePayload(tag, p) == Ok(Reserved(tag, p)) <==> !Interpreted(tag)
    ensures forall m :: DecodePayload(tag, p) == Ok(m) && m.Reserved? ==> m == Reserved(tag, p)
  {
  }

  /** A frame followed by anything is parsed back exactly when the message is faithful. */
  lemma FrameRoundTrip(m: Message, rest: bytes)
    requires Encode(m).Ok?
    ensures TryDecodeFrame(Encode(m).value + rest) == Ok(Some((m, |Encode(m).value|))) <==> Faithful(m)
  {
    if m.Reserved? {
      ReservedRoundTrip(m, rest);
    } else {
      OrdinaryRoundTrip(m, rest);
    }
  }

  lemma OrdinaryRoundTrip(m: Message, rest: bytes)
    requires Encode(m).Ok? && !m.Reserved?
    ensures TryDecodeFrame(Encode(m).value + rest) == Ok(Some((m, |Encode(m).value|)))
  {
    EncodedPayload(m);
    hide EncodePayload, DecodePayload, Encode, GetU32;
    FrameLayout(m, rest);
    PayloadRoundTrip(m);
    PayloadIsShort(m);
    var b, p := Encode(m).value + rest, EncodePayload(m).value;
    assert GetU32(b[..4]) == 1 + |p| && b[5..4 + GetU32(b[..4])] == p;
  }

  lemma EncodedPayload(m: Message)
    requires Encode(m).Ok?
    ensures EncodePayload(m).Ok?
  {
  }

  lemma ReservedRoundTrip(m: Message, rest: bytes)
    requires Encode(m).Ok? && m.Reserved?
    ensures TryDecodeFrame(Encode(m).value + rest) == Ok(Some((m, |Encode(m).value|))) <==> Faithful(m)
  {
    FrameLayout(m, rest);
    assert EncodePayload(m) == Ok(m.payload);
    hide EncodePayload, DecodePayload, Encode;
    var b := Encode(m).value + rest;
    var total := GetU32(b[..4]);
    if |m.payload| < U32_MOD {
      assert b[5..4 + total] == m.payload;
      ReservedDecodes(m.tag, m.payload);
    }
  }

  lemma PayloadIsShort(m: Message)
    requires !m.Reserved? && EncodePayload(m).Ok?
    ensures |EncodePayload(m).value| < U32_MOD
  {
  }

  /** A frame cut short is never parsed, only waited for. */
  lemma FrameTruncated(m: Message, k: nat)
    requires Encode(m).Ok? && Faithful(m) && k < |Encode(m).value|
    ensures TryDecodeFrame(Encode(m).value[..k]) == Ok(None)
  {
    var e := Encode(m).value;
    if !m.Reserved? {
      PayloadIsShort(m);
    }
    FrameLayout(m, []);
    assert e + [] == e;
    assert |EncodePayload(m).value| < U32_MOD;
    hide EncodePayload, DecodePayload, Encode, Faithful;
    if k >= 4 {
      assert e[..k][..4] == e[..4];
      assert GetU32(e[..k][..4]) == |e| - 4;
    }
  }

  /** The parser never takes back an answer when the buffer grows. */
  lemma FrameStable(buf: bytes, more: bytes)
    ensures TryDecodeFrame(buf) != Ok(None) ==> TryDecodeFrame(buf + more) == TryDecodeFrame(buf)
  {
    hide DecodePayload;
    if TryDecodeFrame(buf) != Ok(None) {
      assert (buf + more)[..4] == buf[..4];
      var total := GetU32(buf[..4]);
      if 1 <= total <= MAX_FRAME_LEN {
        assert (buf + more)[5..4 + total] == buf[5..4 + total];
      }
    }
  }

  /** The bits the parser ignores are zero: video flags other than bit 0, pause bytes above 1. */
  predicate CanonicalBits(tag: byte, p: bytes) {
    && (tag == TAG_VIDEO_FRAME && |p| >= 13 ==> p[8] <= 1)
    && (tag == TAG_PAUSE && |p| == 1 ==> p[0] <= 1)
  }

  /** Encoding what was parsed gives back as many bytes, and the same ones up to the ignored bits. */
  predicate Reencodes(tag: byte, p: bytes) {
    DecodePayload(tag, p).Ok? ==>
      var m := DecodePayload(tag, p).value;
      && Tag(m) == tag
      && EncodePayload(m).Ok? && |EncodePayload(m).value| == |p|
      && (EncodePayload(m).value == p <==> CanonicalBits(tag, p))
  }

  lemma VideoReencodes(p: bytes)
    requires |p| < MAX_FRAME_LEN
    ensures Reencodes(TAG_VIDEO_FRAME, p)
  {
    if |p| >= 13 && |p| == 13 + GetU32(p[9..13]) {
      PutInvertsGet(p[0..8]);
      PutInvertsGet(p[9..13]);
      var q := p[0..8] + [p[8] % 2] + p[9..13] + p[13..];
      assert EncodePayload(DecodePayload(TAG_VIDEO_FRAME, p).value).value == q;
      assert q[8] == p[8] % 2;
      if p[8] <= 1 {
        assert q == p;
      }
    }
  }

  lemma ConfigReencodes(p: bytes)
    ensures Reencodes(TAG_CONFIGURE, p)
  {
    if |p| >= 7 {
      PutInvertsGet(p[1..3]);
      PutInvertsGet(p[3..5]);
      PutInvertsGet(p[5..7]);
      assert p == [p[0]] + p[1..3] + p[3..5] + p[5..7] + p[7..];
    }
  }

  lemma TouchReencodes(p: bytes)
    ensures Reencodes(TAG_TOUCH, p)
  {
    if |p| == 12 {
      PutInvertsGet(p[2..6]);
      PutInvertsGet(p[6..10]);
      PutInvertsGet(p[10..12]);
      assert p == [p[0], p[1]] + p[2..6] + p[6..10] + p[10..12];
    }
  }

  lemma KeysReencode(p: bytes)
    ensures Reencodes(TAG_KEY, p) && Reencodes(TAG_KEY_SYN, p)
  {
    if |p| == 9 {
      PutInvertsGet(p[1..5]);
      PutInvertsGet(p[5..9]);
      assert p == [p[0]] + p[1..5] + p[5..9];
    } else if |p| == 5 {
      PutInvertsGet(p[0..4]);
      assert p == p[0..4] + [p[4]];
    }
  }

  lemma TextReencodes(p: bytes)
    ensures Reencodes(TAG_TEXT, p)
  {
    if |p| >= 2 {
      PutInvertsGet(p[0..2]);
      assert p == p[0..2] + p[2..];
    }
  }

  lemma ScrollReencodes(p: bytes)
    ensures Reencodes(TAG_SCROLL, p)
  {
    if |p| == 16 {
      PutInvertsGet(p[0..4]);
      PutInvertsGet(p[4..8]);
      PutInvertsGet(p[8..12]);
      PutInvertsGet(p[12..16]);
      assert p == p[0..4] + p[4..8] + p[8..12] + p[12..16];
    }
  }

  lemma EncodingReencodes(p: bytes)
    ensures Reencodes(TAG_SET_ENCODING, p)
  {
    if |p| == 10 {
      PutInvertsGet(p[0..4]);
      PutInvertsGet(p[4..8]);
      PutInvertsGet(p[8..10]);
      assert p == p[0..4] + p[4..8] + p[8..10];
    }
  }

  lemma PauseReencodes(p: bytes)
    ensures Reencodes(TAG_PAUSE, p)
  {
    if |p| == 1 {
      assert p == [p[0]];
    }
  }

  lemma OtherReencodes(tag: byte, p: bytes)
    requires !Interpreted(tag)
    ensures Reencodes(tag, p)
  {
  }

  lemma PayloadReencodes(tag: byte, p: bytes)
    requires |p| < MAX_FRAME_LEN
    ensures Reencodes(tag, p)
  {
    if !Interpreted(tag) {
      OtherReencodes(tag, p);
    } else {
      VideoReencodes(p);
      ConfigReencodes(p);
      TouchReencodes(p);
      KeysReencode(p);
      TextReencodes(p);
      ScrollReencodes(p);
      EncodingReencodes(p);
      PauseReencodes(p);
    }
  }

  /**
   Whatever the parser accepts, encoding it again gives a frame of the same size that parses
   the same, and gives the very bytes consumed exactly when the ignored bits were zero.
   */
  lemma ParsedFrameReencodes(buf: bytes)
    requires TryDecodeFrame(buf).Ok? && TryDecodeFrame(buf).value.Some?
    ensures var (m, n) := TryDecodeFrame(buf).value.value;
            && Encode(m).Ok? && Faithful(m)
            && |Encode(m).value| == n
            && (Encode(m).value == buf[..n] <==> CanonicalBits(buf[4], buf[5..n]))
  {
    var (m, n) := TryDecodeFrame(buf).value.value;
    var p := buf[5..n];
    PayloadReencodes(buf[4], p);
    FaithfulWhenParsed(buf[4], p);
    FrameOf(m, EncodePayload(m).value);
    PutInvertsGet(buf[..4]);
    FramesEqual(buf[..4], buf[4], EncodePayload(m).value, p);
    FrameSplit(buf, n);
  }

  lemma FrameOf(m: Message, p: bytes)
    requires EncodePayload(m) == Ok(p) && |p| < MAX_FRAME_LEN
    ensures Encode(m) == Ok(PutU32(1 + |p|) + [Tag(m)] + p)
  {
    hide EncodePayload;
    assert EncodeFrame(Tag(m), p) == Ok(PutU32(1 + |p|) + [Tag(m)] + p);
  }

  lemma FrameSplit(buf: bytes, n: nat)
    requires 5 <= n <= |buf|
    ensures buf[..n] == buf[..4] + [buf[4]] + buf[5..n]
  {
  }

  lemma FramesEqual(head: bytes, tag: byte, p: bytes, q: bytes)
    ensures head + [tag] + p == head + [tag] + q <==> p == q
  {
    assert (head + [tag] + p)[|head| + 1..] == p;
    assert (head + [tag] + q)[|head| + 1..] == q;
  }

  lemma FaithfulWhenParsed(tag: byte, p: bytes)
    requires DecodePayload(tag, p).Ok? && |p| < MAX_FRAME_LEN
    ensures Faithful(DecodePayload(tag, p).value)
  {
  }

  // ---- Handshake

  lemma HeadLayout(h: Handshake, rest: bytes)
    requires |h.csd| <= U16_MAX
    ensures var b := HandshakeHead(h) + rest;
            && b[..4] == MAGIC && b[4] == h.version && b[5] == CodecByte(h.codec)
            && b[6..8] == PutU16(h.width) && b[8..10] == PutU16(h.height) && b[10..12] == PutU16(|h.csd|)
  {
    var s := HandshakeHead(h);
    assert s[..4] == MAGIC && s[6..8] == PutU16(h.width) && s[8..10] == PutU16(h.height)
        && s[10..12] == PutU16(|h.csd|);
    var b := s + rest;
    assert b[..4] == s[..4] && b[6..8] == s[6..8] && b[8..10] == s[8..10] && b[10..12] == s[10..12];
  }

  lemma TailLayout(head: bytes, csd: bytes, len: bytes, name: bytes, caps: byte, rest: bytes)
    requires |head| == 12 && |len| == 2
    ensures var b, c, n := head + csd + len + name + [caps] + rest, |csd|, |name|;
            && b[12..12 + c] == csd && b[12 + c..14 + c] == len
            && b[14 + c..14 + c + n] == name && b[14 + c + n] == caps
            && b == head + b[12..]
  {
  }

  /** Where each field of an encoded handshake lies, whatever follows it. */
  lemma HandshakeLayout(h: Handshake, rest: bytes)
    requires EncodeHandshake(h).Ok?
    ensures var b, c, n := EncodeHandshake(h).value + rest, |h.csd|, |h.deviceName|;
            && |EncodeHandshake(h).value| == 15 + c + n
            && b[..4] == MAGIC && b[4] == h.version && b[5] == CodecByte(h.codec)
            && b[6..8] == PutU16(h.width) && b[8..10] == PutU16(h.height) && b[10..12] == PutU16(c)
            && b[12..12 + c] == h.csd && b[12 + c..14 + c] == PutU16(n)
            && b[14 + c..14 + c + n] == h.deviceName && b[14 + c + n] == h.caps
  {
    TailLayout(HandshakeHead(h), h.csd, PutU16(|h.deviceName|), h.deviceName, h.caps, rest);
    HeadLayout(h, (EncodeHandshake(h).value + rest)[12..]);
  }

  lemma HandshakeRoundTrip(h: Handshake, rest: bytes)
    requires EncodeHandshake(h).Ok?
    ensures TryDecodeHandshake(EncodeHandshake(h).value + rest) == Ok(Some((h, |EncodeHandshake(h).value|)))
       <==> h.version == VERSION
  {
    HandshakeLayout(h, rest);
  }

  lemma HandshakeTruncated(h: Handshake, k: nat)
    requires EncodeHandshake(h).Ok? && h.version == VERSION && k < |EncodeHandshake(h).value|
    ensures TryDecodeHandshake(EncodeHandshake(h).value[..k]) == Ok(None)
  {
    hide GetU16, PutU16, ValidUtf8;
    var e := EncodeHandshake(h).value;
    HandshakeLayout(h, []);
    assert e + [] == e;
    if k >= 4 {
      SliceOfPrefix(e, k, 0, 4);
    }
    if k >= 12 {
      SliceOfPrefix(e, k, 10, 12);
      var nameAt := 12 + |h.csd|;
      if k >= nameAt + 2 {
        SliceOfPrefix(e, k, nameAt, nameAt + 2);
      }
    }
  }

  lemma SliceOfPrefix(s: bytes, k: nat, i: nat, j: nat)
    requires i <= j <= k <= |s|
    ensures s[..k][i..j] == s[i..j]
  {
  }

  lemma HandshakeStable(buf: bytes, more: bytes)
    ensures TryDecodeHandshake(buf) != Ok(None) ==> TryDecodeHandshake(buf + more) == TryDecodeHandshake(buf)
  {
    hide ValidUtf8, GetU16, CodecFromByte;
    if TryDecodeHandshake(buf) != Ok(None) {
      var all := buf + more;
      assert all[..4] == buf[..4];
      if |buf| >= 12 {
        assert all[6..8] == buf[6..8] && all[8..10] == buf[8..10] && all[10..12] == buf[10..12];
        var nameAt := 12 + GetU16(buf[10..12]);
        if |buf| >= nameAt + 2 {
          assert all[12..nameAt] == buf[12..nameAt];
          assert all[nameAt..nameAt + 2] == buf[nameAt..nameAt + 2];
          var nameLen := GetU16(buf[nameAt..nameAt + 2]);
          if |buf| >= nameAt + 2 + nameLen + 1 {
            assert all[nameAt + 2..nameAt + 2 + nameLen] == buf[nameAt + 2..nameAt + 2 + nameLen];
          }
        }
      }
    }
  }

  lemma HandshakeBytes(buf: bytes, c: nat, n: nat)
    requires 15 + c <= n <= |buf|
    ensures buf[..n] == buf[..4] + [buf[4], buf[5]] + PutU16(GetU16(buf[6..8])) + PutU16(GetU16(buf[8..10]))
                        + PutU16(GetU16(buf[10..12])) + buf[12..12 + c] + PutU16(GetU16(buf[12 + c..14 + c]))
                        + buf[14 + c..n - 1] + [buf[n - 1]]
  {
    PutInvertsGet(buf[6..8]);
    PutInvertsGet(buf[8..10]);
    PutInvertsGet(buf[10..12]);
    PutInvertsGet(buf[12 + c..14 + c]);
  }

  /** An accepted handshake encodes to the very bytes consumed. */
  lemma ParsedHandshakeReencodes(buf: bytes)
    requires TryDecodeHandshake(buf).Ok? && TryDecodeHandshake(buf).value.Some?
    ensures var (h, n) := TryDecodeHandshake(buf).value.value;
            EncodeHandshake(h) == Ok(buf[..n])
  {
    var (h, n) := TryDecodeHandshake(buf).value.value;
    var c := GetU16(buf[10..12]);
    assert |h.csd| == c && |h.deviceName| == GetU16(buf[12 + c..14 + c]);
    HandshakeBytes(buf, c, n);
  }
}
