/**
 The wire in the terms of its documentation (README.md, "Wire format"): which byte says what,
 and exactly which bytes the parser takes for which message.
 */
module ProtoWire {
  import opened Wrappers
  import opened Bytes
  import opened Utf8
  import opened Proto

  // ---- Frames

  /** The table of message types: the type byte, then the payload. */
  predicate Documented(m: Message, f: bytes)
    requires |f| >= 5
  {
    match m
    case VideoFrame(_, _, _) =>
      && |f| == 18 + |m.nal| && f[4] == 0x01 && GetU64(f[5..13]) == m.ptsUs
      && f[13] == (if m.keyframe then 1 else 0) && GetU32(f[14..18]) == |m.nal| && f[18..] == m.nal
    case Configure(_, _, _, _) =>
      && |f| == 12 + |m.csd| && f[4] == 0x02 && f[5] == (if m.codec == H264 then 1 else 2)
      && GetU16(f[6..8]) == m.width && GetU16(f[8..10]) == m.height
      && GetU16(f[10..12]) == |m.csd| && f[12..] == m.csd
    case Touch(_, _, _, _, _) =>
      && |f| == 17 && f[4] == 0x10 && f[5] == m.action && f[6] == m.pointerId
      && GetI32(f[7..11]) == m.x && GetI32(f[11..15]) == m.y && GetU16(f[15..17]) == m.pressure
    case Key(_, _, _) =>
      |f| == 14 && f[4] == 0x11 && f[5] == m.action && GetU32(f[6..10]) == m.keycode && GetU32(f[10..14]) == m.meta
    case Text(_) => |f| == 7 + |m.text| && f[4] == 0x12 && GetU16(f[5..7]) == |m.text| && f[7..] == m.text
    case Scroll(_, _, _, _) =>
      && |f| == 21 && f[4] == 0x13 && GetI32(f[5..9]) == m.x && GetI32(f[9..13]) == m.y
      && GetI32(f[13..17]) == m.h && GetI32(f[17..21]) == m.v
    case SetEncoding(_, _, _) =>
      && |f| == 15 && f[4] == 0x14 && GetU32(f[5..9]) == m.bitrate && GetU32(f[9..13]) == m.maxFps
      && GetU16(f[13..15]) == m.maxSize
    case KeySyn(_, _) => |f| == 10 && f[4] == 0x15 && GetU32(f[5..9]) == m.keycode && f[9] == m.action
    case PauseResume(_) => |f| == 6 && f[4] == 0x7F && f[5] == (if m.on then 1 else 0)
    case Reserved(_, _) => f[4] == m.tag && f[5..] == m.payload
  }

  /** The length of the payload, and what the 16-bit lengths in it can count. */
  predicate Fits(m: Message) {
    match m
    case VideoFrame(_, _, nal) => |nal| <= 0x80_0000 - 14
    case Configure(_, _, _, csd) => |csd| <= 0xFFFF
    case Text(s) => |s| <= 0xFFFF
    case Reserved(_, payload) => |payload| % 0x1_0000_0000 <= 0x80_0000 - 1
    case _ => true
  }

  lemma EncodesWhenItFits(m: Message)
    ensures Encode(m).Ok? <==> Fits(m)
  {
    hide PutU16, PutU32, PutU64, PutI32;
  }

  /** What does not fit is refused with its length, on 32 bits. */
  lemma RefusedWithLength(m: Message)
    requires !Fits(m)
    ensures Encode(m) == Err(BadLength(
              match m
              case VideoFrame(_, _, nal) =>
                (if |nal| > 0x80_0000 then |nal| % 0x1_0000_0000 else 14 + |nal|)
              case Configure(_, _, _, csd) => |csd| % 0x1_0000_0000
              case Text(s) => |s| % 0x1_0000_0000
              case Reserved(_, payload) =>
                (if |payload| % 0x1_0000_0000 == 0xFFFF_FFFF then 0xFFFF_FFFF else 1 + |payload| % 0x1_0000_0000)
              case _ => 0))
  {
    hide PutU16, PutU32, PutU64, PutI32;
  }

  lemma FrameIs(m: Message)
    requires Encode(m).Ok?
    ensures EncodePayload(m).Ok?
    ensures var p := EncodePayload(m).value;
            Encode(m).value == PutU32(1 + |p| % U32_MOD) + [Tag(m)] + p && 1 + |p| % U32_MOD <= 0x80_0000
  {
  }

  /** Where the payload's bytes are in the frame. */
  predicate Behind(f: bytes, p: bytes) {
    && |f| == 5 + |p| && f[5..] == p
    && (forall i :: 0 <= i < |p| ==> f[5 + i] == p[i])
    && (forall i, j :: 0 <= i <= j <= |p| ==> f[5 + i..5 + j] == p[i..j])
  }

  lemma Shifted(len: bytes, tag: byte, p: bytes)
    requires |len| == 4
    ensures var f := len + [tag] + p; Behind(f, p) && f[..4] == len && f[4] == tag
  {
    var f := len + [tag] + p;
    assert f[5..] == p;
    forall i, j | 0 <= i <= j <= |p|
      ensures f[5 + i..5 + j] == p[i..j]
    {
      assert f[5 + i..5 + j] == f[5..][i..j];
    }
  }

  /** Every frame starts with the number of bytes that follow, and is laid out as documented. */
  lemma FramesAreAsDocumented(m: Message)
    requires Encode(m).Ok?
    ensures var f := Encode(m).value;
            && |f| >= 5 && (|f| <= 0x80_0004 || m.Reserved?)
            && (|f| <= 0x80_0004 ==> GetU32(f[..4]) == |f| - 4)
            && Documented(m, f)
  {
    hide Encode, EncodePayload, Documented, Fits;
    FrameIs(m);
    var p := EncodePayload(m).value;
    Shifted(PutU32(1 + |p| % U32_MOD), Tag(m), p);
    PayloadAsDocumented(m, p, Encode(m).value);
    if !m.Reserved? {
      PayloadIsShort(m);
    }
  }

  lemma PayloadAsDocumented(m: Message, p: bytes, f: bytes)
    requires EncodePayload(m) == Ok(p) && Behind(f, p) && f[4] == Tag(m)
    ensures Documented(m, f)
  {
    hide PutU16, PutU32, PutU64, PutI32, GetU16, GetU32, GetU64, GetI32;
    match m
    case VideoFrame(pts, keyframe, nal) =>
      assert p[0..8] == PutU64(pts) && p[9..13] == PutU32(|nal|) && p[13..] == nal;
      assert f[5..13] == p[0..8] && f[14..18] == p[9..13] && f[18..] == f[5..][13..];
    case Configure(codec, width, height, csd) =>
      assert p[1..3] == PutU16(width) && p[3..5] == PutU16(height) && p[5..7] == PutU16(|csd|) && p[7..] == csd;
      assert f[6..8] == p[1..3] && f[8..10] == p[3..5] && f[10..12] == p[5..7] && f[12..] == f[5..][7..];
    case Touch(action, id, x, y, pressure) =>
      assert p[2..6] == PutI32(x) && p[6..10] == PutI32(y) && p[10..12] == PutU16(pressure);
      assert f[7..11] == p[2..6] && f[11..15] == p[6..10] && f[15..17] == p[10..12];
    case Key(action, keycode, meta) =>
      assert p[1..5] == PutU32(keycode) && p[5..9] == PutU32(meta);
      assert f[6..10] == p[1..5] && f[10..14] == p[5..9];
    case Text(s) =>
      assert p[0..2] == PutU16(|s|) && p[2..] == s;
      assert f[5..7] == p[0..2] && f[7..] == f[5..][2..];
    case Scroll(x, y, h, v) =>
      assert p[0..4] == PutI32(x) && p[4..8] == PutI32(y) && p[8..12] == PutI32(h) && p[12..16] == PutI32(v);
      assert f[5..9] == p[0..4] && f[9..13] == p[4..8] && f[13..17] == p[8..12] && f[17..21] == p[12..16];
    case SetEncoding(bitrate, fps, size) =>
      assert p[0..4] == PutU32(bitrate) && p[4..8] == PutU32(fps) && p[8..10] == PutU16(size);
      assert f[5..9] == p[0..4] && f[9..13] == p[4..8] && f[13..15] == p[8..10];
    case KeySyn(keycode, action) =>
      assert p[0..4] == PutU32(keycode);
      assert f[5..9] == p[0..4];
    case _ =>
  }

  // ---- What the parser takes

  /** Equal but for the bits the parser ignores: video flags other than bit 0, which nonzero byte says pause. */
  predicate SameButIgnored(tag: byte, p: bytes, q: bytes) {
    && |p| == |q|
    && (forall i :: 0 <= i < |p| && !(tag == 0x01 && i == 8) && !(tag == 0x7F && i == 0) ==> p[i] == q[i])
    && (tag == 0x01 && |p| > 8 ==> p[8] % 2 == q[8] % 2)
    && (tag == 0x7F && |p| > 0 ==> (p[0] == 0 <==> q[0] == 0))
  }

  lemma IgnoredMakesNoDifference(tag: byte, p: bytes, q: bytes)
    requires SameButIgnored(tag, p, q)
    ensures DecodePayload(tag, p) == DecodePayload(tag, q)
  {
    hide GetU16, GetU32, GetU64, GetI32, ValidUtf8;
    if tag == 0x01 {
      if |p| >= 13 {
        assert p[0..8] == q[0..8] && p[9..13] == q[9..13] && p[13..] == q[13..];
      }
    } else if tag == 0x7F {
      assert |p| == 1 ==> (p[0] == 0 <==> q[0] == 0);
    } else {
      assert p == q;
    }
  }

  /** The bytes as an encoder would have written them. */
  function Canonical(tag: byte, p: bytes): (q: bytes)
    ensures SameButIgnored(tag, p, q) && CanonicalBits(tag, q)
  {
    if tag == 0x01 && |p| > 8 then p[8 := p[8] % 2]
    else if tag == 0x7F && |p| > 0 then p[0 := if p[0] == 0 then 0 else 1]
    else p
  }

  /**
   A payload is taken for a message exactly if it is that message's encoding, give or take the
   ignored bits.
   */
  lemma DecodesExactlyEncodings(tag: byte, p: bytes, m: Message)
    requires |p| < MAX_FRAME_LEN
    ensures DecodePayload(tag, p) == Ok(m)
       <==> Faithful(m) && Tag(m) == tag && EncodePayload(m).Ok? && SameButIgnored(tag, p, EncodePayload(m).value)
  {
    hide DecodePayload, EncodePayload, Faithful, CanonicalBits, SameButIgnored;
    var q := Canonical(tag, p);
    IgnoredMakesNoDifference(tag, p, q);
    if DecodePayload(tag, p) == Ok(m) {
      SameLength(tag, p, q);
      PayloadReencodes(tag, q);
      FaithfulWhenParsed(tag, q);
    } else if Faithful(m) && Tag(m) == tag && EncodePayload(m).Ok? && SameButIgnored(tag, p, EncodePayload(m).value) {
      IgnoredMakesNoDifference(tag, p, EncodePayload(m).value);
      FaithfulDecodes(m);
    }
  }

  lemma SameLength(tag: byte, p: bytes, q: bytes)
    requires SameButIgnored(tag, p, q)
    ensures |p| == |q|
  {
  }

  lemma FaithfulDecodes(m: Message)
    requires Faithful(m) && EncodePayload(m).Ok?
    ensures DecodePayload(Tag(m), EncodePayload(m).value) == Ok(m)
  {
    if m.Reserved? {
      ReservedDecodes(m.tag, m.payload);
    } else {
      PayloadRoundTrip(m);
    }
  }

  /** And why it is refused otherwise. */
  lemma RefusalSaysWhy(tag: byte, p: bytes)
    requires DecodePayload(tag, p).Err?
    ensures var e := DecodePayload(tag, p).error;
            if tag == 0x02 && |p| >= 7 && p[0] != 1 && p[0] != 2 then e == BadCodec(p[0])
            else if tag == 0x12 && |p| >= 2 && |p| == 2 + GetU16(p[0..2]) then e == BadUtf8 && !ValidUtf8(p[2..])
            else e == Malformed(tag)
  {
    hide GetU16, GetU32, GetU64, GetI32, ValidUtf8;
  }

  /** A frame is waited for until it is whole; its length must be 1 to 8 MiB; then its payload decides. */
  lemma FrameVerdict(buf: bytes)
    ensures |buf| < 4 ==> TryDecodeFrame(buf) == Ok(None)
    ensures |buf| >= 4 ==>
              var n := GetU32(buf[..4]);
              if n == 0 || n > 0x80_0000 then TryDecodeFrame(buf) == Err(BadLength(n))
              else if |buf| < n + 4 then TryDecodeFrame(buf) == Ok(None)
              else var d := DecodePayload(buf[4], buf[5..n + 4]);
                   TryDecodeFrame(buf) == if d.Ok? then Ok(Some((d.value, n + 4))) else Err(d.error)
  {
    hide DecodePayload, GetU32;
  }

  // ---- The handshake

  /** The layout of the handshake, "DMIR" first. */
  lemma HandshakeIsAsDocumented(h: Handshake)
    ensures EncodeHandshake(h).Ok? <==> |h.csd| <= 0xFFFF && |h.deviceName| <= 256
    ensures EncodeHandshake(h).Ok? ==>
              var s, c, n := EncodeHandshake(h).value, |h.csd|, |h.deviceName|;
              && |s| == 15 + c + n && s[..4] == [0x44, 0x4D, 0x49, 0x52] && s[4] == h.version
              && s[5] == (if h.codec == H264 then 1 else 2)
              && GetU16(s[6..8]) == h.width && GetU16(s[8..10]) == h.height
              && GetU16(s[10..12]) == c && s[12..12 + c] == h.csd
              && GetU16(s[12 + c..14 + c]) == n && s[14 + c..14 + c + n] == h.deviceName
              && s[14 + c + n] == h.caps
  {
    if EncodeHandshake(h).Ok? {
      HandshakeLayout(h, []);
      assert EncodeHandshake(h).value + [] == EncodeHandshake(h).value;
    }
    hide GetU16, PutU16;
  }

  /** The handshake so far is that of a known version and codec. */
  predicate GoodSoFar(buf: bytes) {
    |buf| >= 12 && buf[..4] == [0x44, 0x4D, 0x49, 0x52] && buf[4] == 1 && 1 <= buf[5] <= 2
  }

  /** What is wrong with a handshake is said as soon as it is there, the magic with four bytes. */
  lemma HandshakeVerdict(buf: bytes)
    ensures TryDecodeHandshake(buf) == Err(BadMagic) <==> |buf| >= 4 && buf[..4] != [0x44, 0x4D, 0x49, 0x52]
    ensures |buf| < 12 ==> TryDecodeHandshake(buf) == Ok(None) || TryDecodeHandshake(buf) == Err(BadMagic)
    ensures |buf| >= 12 && buf[..4] == [0x44, 0x4D, 0x49, 0x52] ==>
              && (buf[4] != 1 ==> TryDecodeHandshake(buf) == Err(BadVersion(buf[4])))
              && (buf[4] == 1 && buf[5] != 1 && buf[5] != 2 ==> TryDecodeHandshake(buf) == Err(BadCodec(buf[5])))
    ensures GoodSoFar(buf) ==>
              var at, d := 12 + GetU16(buf[10..12]), TryDecodeHandshake(buf);
              if |buf| < at + 2 then d == Ok(None)
              else
                var n := GetU16(buf[at..at + 2]);
                if n > 256 then d == Err(BadLength(n))
                else if |buf| < at + 3 + n then d == Ok(None)
                else if !ValidUtf8(buf[at + 2..at + 2 + n]) then d == Err(BadUtf8)
                else d.Ok? && d.value.Some? && d.value.value.1 == at + 3 + n
  {
    hide GetU16, ValidUtf8;
  }
}
