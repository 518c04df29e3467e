/** The connect handshake as a loop: crates/transport/src/adb/client.rs. */
module AdbConnect {
  import opened Wrappers
  import opened Bytes
  import opened PacketCore
  import opened AdbConnectCore

  const FEATURES: seq<bytes> :=
    [Ascii("shell_v2"), Ascii("cmd"), Ascii("stat_v2"), Ascii("ls_v2"), Ascii("fixed_push_mkdir"), Ascii("apex"),
     Ascii("abb")]

  const CNXN_BANNER: bytes := Ascii("host::features=") + Joined(FEATURES) + [0]

  lemma JoinedStep(f: seq<bytes>)
    requires f != []
    ensures |Joined(f)| == |f[0]| + if |f| == 1 then 0 else 1 + |Joined(f[1..])|
  {
  }

  lemma FeaturesArePlain()
    ensures forall i :: 0 <= i < |FEATURES| ==> Plain(FEATURES[i])
  {
    hide Ascii;
  }

  lemma FeaturesHave52()
    ensures |Joined(FEATURES)| == 52
  {
    hide Ascii, Joined;
    var f := FEATURES;
    assert f[1..][1..] == f[2..] && f[2..][1..] == f[3..] && f[3..][1..] == f[4..] && f[4..][1..] == f[5..];
    assert f[5..][1..] == f[6..];
    JoinedStep(f);
    JoinedStep(f[1..]);
    JoinedStep(f[2..]);
    JoinedStep(f[3..]);
    JoinedStep(f[4..]);
    JoinedStep(f[5..]);
    JoinedStep(f[6..]);
  }

  /** The banner: 68 bytes, "host::features=", then seven names between commas, then the only NUL. */
  lemma BannerIs()
    ensures |CNXN_BANNER| == 68 && CNXN_BANNER[..15] == Ascii("host::features=")
    ensures AtCommas(CNXN_BANNER[15..67])
         == [Ascii("shell_v2"), Ascii("cmd"), Ascii("stat_v2"), Ascii("ls_v2"), Ascii("fixed_push_mkdir"),
             Ascii("apex"), Ascii("abb")]
    ensures forall i :: 0 <= i < 68 ==> (CNXN_BANNER[i] == 0 <==> i == 67)
  {
    hide Ascii, Joined, AtCommas, Plain;
    FeaturesArePlain();
    FeaturesHave52();
    JoinedDivides(FEATURES);
    var head, middle := Ascii("host::features="), Joined(FEATURES);
    assert forall i :: 0 <= i < 15 ==> head[i] != 0;
    Parts(head, middle);
  }

  lemma Parts(head: bytes, middle: bytes)
    requires |head| == 15 && |middle| == 52
    requires (forall i :: 0 <= i < 15 ==> head[i] != 0) && (forall i :: 0 <= i < 52 ==> middle[i] != 0)
    ensures var s := head + middle + [0];
            && |s| == 68 && s[..15] == head && s[15..67] == middle
            && (forall i :: 0 <= i < 68 ==> (s[i] == 0 <==> i == 67))
  {
  }

  /** A connection: packets still to arrive, packets sent. */
  class Io {
    var incoming: seq<Sent>
    var sent: seq<Sent>

    constructor (incoming: seq<Sent>)
      ensures this.incoming == incoming && sent == []
    {
      this.incoming := incoming;
      sent := [];
    }

    method Write(p: Sent)
      modifies this
      ensures sent == old(sent) + [p] && incoming == old(incoming)
    {
      sent := sent + [p];
    }

    method Read() returns (p: Option<Sent>)
      modifies this
      ensures sent == old(sent)
      ensures if old(incoming) == [] then p == None && incoming == []
              else p == Some(old(incoming)[0]) && incoming == old(incoming)[1..]
    {
      if incoming == [] {
        return None;
      }
      p := Some(incoming[0]);
      incoming := incoming[1..];
    }
  }

  method Handshake(io: Io, key: Key) returns (end: End)
    modifies io
    ensures end == Shake(old(io.incoming), false, key).end
    ensures io.sent == old(io.sent) + [Sent(Cnxn, 0x0100_0001, 1_048_576, CNXN_BANNER)]
                       + Shake(old(io.incoming), false, key).sent
  {
    hide Banner, Clamp;
    io.Write(Sent(Cnxn, ADB_VERSION, ADB_MAXDATA, CNXN_BANNER));
    var sentSignature := false;
    ghost var all := Shake(io.incoming, false, key);
    ghost var first := io.sent;
    while true
      invariant Shake(io.incoming, sentSignature, key).end == all.end
      invariant io.sent + Shake(io.incoming, sentSignature, key).sent == first + all.sent
      decreases |io.incoming|
    {
      ghost var sofar := io.sent;
      var reply := io.Read();
      if reply.None? {
        assert io.sent + [] == io.sent;
        return Waits;
      }
      var p := reply.value;
      if p.command == Cnxn {
        assert io.sent + [] == io.sent;
        return Connected(Banner(p.data), Clamp(p.arg1));
      } else if p.command == Auth && p.arg0 == AUTH_TOKEN && !sentSignature {
        var sig := key.sign(p.data);
        if sig.None? {
          assert io.sent + [] == io.sent;
          return NoSignature;
        }
        io.Write(Sent(Auth, AUTH_SIGNATURE, 0, sig.value));
        sentSignature := true;
        Move(sofar, Sent(Auth, AUTH_SIGNATURE, 0, sig.value), Shake(io.incoming, true, key).sent);
      } else if p.command == Auth && p.arg0 == AUTH_TOKEN {
        io.Write(Sent(Auth, AUTH_RSAPUBLICKEY, 0, key.public));
        Move(sofar, Sent(Auth, AUTH_RSAPUBLICKEY, 0, key.public), Shake(io.incoming, sentSignature, key).sent);
      } else {
        assert io.sent + [] == io.sent;
        return Unexpected(p.command);
      }
    }
  }

  lemma Move(a: seq<Sent>, p: Sent, b: seq<Sent>)
    ensures a + ([p] + b) == a + [p] + b
  {
  }
}
