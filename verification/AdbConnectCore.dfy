/** The connect handshake: `handshake` of crates/transport/src/adb/client.rs, the 60-second limit left out. */
module AdbConnectCore {
  import opened Wrappers
  import opened Bytes
  import opened PacketCore

  const ADB_VERSION: u32 := 0x0100_0001
  const ADB_MAXDATA: u32 := 1024 * 1024
  const MIN_PAYLOAD: u32 := 4096
  const AUTH_TOKEN: u32 := 1
  const AUTH_SIGNATURE: u32 := 2
  const AUTH_RSAPUBLICKEY: u32 := 3

  /** The key pair: signing may fail; the public key is ready made. */
  datatype Key = Key(sign: bytes -> Option<bytes>, public: bytes)

  /** How the handshake ends: connected, refused, no signature, or still waiting for a packet. */
  datatype End = Connected(banner: bytes, max: u32) | Unexpected(command: Command) | NoSignature | Waits

  datatype Outcome = Outcome(end: End, sent: seq<Sent>)

  function Clamp(x: u32): u32 {
    if x < MIN_PAYLOAD then MIN_PAYLOAD else if x > ADB_MAXDATA then ADB_MAXDATA else x
  }

  function TrimFront(s: bytes): bytes {
    if s != [] && s[0] == 0 then TrimFront(s[1..]) else s
  }

  function TrimBack(s: bytes): bytes {
    if s != [] && s[|s| - 1] == 0 then TrimBack(s[..|s| - 1]) else s
  }

  function Banner(data: bytes): bytes {
    TrimBack(TrimFront(data))
  }

  predicate IsToken(p: Sent) {
    p.command == Auth && p.arg0 == AUTH_TOKEN
  }

  /** The loop, from the next packet on. */
  function Shake(replies: seq<Sent>, signed: bool, key: Key): Outcome {
    if replies == [] then Outcome(Waits, [])
    else
      var p := replies[0];
      if p.command == Cnxn then Outcome(Connected(Banner(p.data), Clamp(p.arg1)), [])
      else if IsToken(p) && !signed then
        var sig := key.sign(p.data);
        if sig.None? then Outcome(NoSignature, [])
        else
          var rest := Shake(replies[1..], true, key);
          rest.(sent := [Sent(Auth, AUTH_SIGNATURE, 0, sig.value)] + rest.sent)
      else if IsToken(p) then
        var rest := Shake(replies[1..], signed, key);
        rest.(sent := [Sent(Auth, AUTH_RSAPUBLICKEY, 0, key.public)] + rest.sent)
      else Outcome(Unexpected(p.command), [])
  }

  // ---- What it comes to

  /** The tokens the device sends before anything else. */
  function Tokens(replies: seq<Sent>): (k: nat)
    ensures k <= |replies|
    ensures forall i :: 0 <= i < k ==> replies[i].command == Auth && replies[i].arg0 == 1
    ensures k < |replies| ==> !(replies[k].command == Auth && replies[k].arg0 == 1)
  {
    if replies == [] || !IsToken(replies[0]) then 0 else 1 + Tokens(replies[1..])
  }

  /** The answers to `k` tokens: the first is signed, every later one gets the public key. */
  function AuthAnswers(k: nat, signature: bytes, public: bytes): seq<Sent> {
    if k == 0 then []
    else if k == 1 then [Sent(Auth, 2, 0, signature)]
    else AuthAnswers(k - 1, signature, public) + [Sent(Auth, 3, 0, public)]
  }

  function PublicKeys(k: nat, public: bytes): seq<Sent> {
    if k == 0 then [] else [Sent(Auth, 3, 0, public)] + PublicKeys(k - 1, public)
  }

  lemma {:induction false} PublicKeysSnoc(k: nat, public: bytes)
    ensures PublicKeys(k + 1, public) == PublicKeys(k, public) + [Sent(Auth, 3, 0, public)]
  {
    if k > 0 {
      PublicKeysSnoc(k - 1, public);
    }
  }

  lemma {:induction false} AnswersAre(k: nat, signature: bytes, public: bytes)
    requires k > 0
    ensures AuthAnswers(k, signature, public)
         == [Sent(Auth, 2, 0, signature)] + PublicKeys(k - 1, public)
  {
    if k > 1 {
      AnswersAre(k - 1, signature, public);
      PublicKeysSnoc(k - 2, public);
    }
  }

  /** The verdict is the first packet that is not a token. */
  function Verdict(replies: seq<Sent>): End {
    var k := Tokens(replies);
    if k == |replies| then Waits
    else if replies[k].command == Cnxn then Connected(Banner(replies[k].data), Clamp(replies[k].arg1))
    else Unexpected(replies[k].command)
  }

  lemma {:induction false} AfterSigning(replies: seq<Sent>, key: Key)
    ensures Shake(replies, true, key) == Outcome(Verdict(replies), PublicKeys(Tokens(replies), key.public))
  {
    hide Banner, Clamp;
    if replies != [] && IsToken(replies[0]) {
      AfterSigning(replies[1..], key);
    }
  }

  /**
   The handshake answers each token once, the first with a signature and the others with the
   public key, and ends with the first packet that is not a token: connected exactly if that
   is a CNXN and any first token could be signed.
   */
  lemma HandshakeOutcome(replies: seq<Sent>, key: Key)
    ensures var k, o := Tokens(replies), Shake(replies, false, key);
            var sig := if k == 0 then None else key.sign(replies[0].data);
            o == if k > 0 && sig.None? then Outcome(NoSignature, [])
                 else Outcome(Verdict(replies), AuthAnswers(k, if k == 0 then [] else sig.value, key.public))
  {
    hide Banner, Clamp;
    var k := Tokens(replies);
    if k > 0 {
      AfterSigning(replies[1..], key);
      if key.sign(replies[0].data).Some? {
        AnswersAre(k, key.sign(replies[0].data).value, key.public);
      }
    }
  }

  /** Without the zero bytes at either end. */
  lemma {:induction false} TrimmedIs(data: bytes) returns (i: nat, j: nat)
    ensures i <= j <= |data| && Banner(data) == data[i..j]
    ensures (forall k :: 0 <= k < |data| && !(i <= k < j) ==> data[k] == 0)
    ensures i < j ==> data[i] != 0 && data[j - 1] != 0
  {
    i := TrimmedFront(data);
    var n := TrimmedBack(data[i..]);
    j := i + n;
    assert data[i..][..n] == data[i..j];
    assert forall k :: j <= k < |data| ==> data[k] == data[i..][k - i];
    if i < j {
      assert data[i] == data[i..][0] && data[j - 1] == data[i..][n - 1];
    }
  }

  lemma {:induction false} TrimmedFront(s: bytes) returns (i: nat)
    ensures i <= |s| && TrimFront(s) == s[i..] && (i < |s| ==> s[i] != 0) && forall k :: 0 <= k < i ==> s[k] == 0
  {
    if s != [] && s[0] == 0 {
      var n := TrimmedFront(s[1..]);
      i := n + 1;
      assert forall k :: 0 < k < i ==> s[k] == s[1..][k - 1];
    } else {
      i := 0;
    }
  }

  lemma {:induction false} TrimmedBack(s: bytes) returns (n: nat)
    ensures n <= |s| && TrimBack(s) == s[..n] && (n > 0 ==> s[n - 1] != 0) && forall k :: n <= k < |s| ==> s[k] == 0
    ensures s != [] && s[0] != 0 ==> n > 0
  {
    if s != [] && s[|s| - 1] == 0 {
      var front := s[..|s| - 1];
      n := TrimmedBack(front);
      assert forall k :: 0 <= k < |front| ==> s[k] == front[k];
      assert front[..n] == s[..n];
    } else {
      n := |s|;
      assert s[..n] == s;
    }
  }

  /** The device's limit, but no less than 4096 and no more than 1 MiB. */
  lemma ConnectsExactlyOnCnxn(replies: seq<Sent>, key: Key)
    ensures var k, end := Tokens(replies), Shake(replies, false, key).end;
            && (end.Connected? <==> k < |replies| && replies[k].command == Cnxn
                                    && (k > 0 ==> key.sign(replies[0].data).Some?))
            && (end.Connected? ==>
                  && end.banner == Banner(replies[k].data)
                  && end.max == if replies[k].arg1 < 4096 then 4096
                                else if replies[k].arg1 > 1_048_576 then 1_048_576 else replies[k].arg1)
  {
    HandshakeOutcome(replies, key);
    hide Shake, Banner, AuthAnswers;
  }

  // ---- The first packet

  function Joined(names: seq<bytes>): bytes {
    if names == [] then []
    else if |names| == 1 then names[0]
    else names[0] + [0x2C] + Joined(names[1..])
  }

  /** The pieces between the commas. */
  function AtCommas(s: bytes): (r: seq<bytes>)
    ensures r != []
  {
    if s == [] then [[]]
    else
      var rest := AtCommas(s[1..]);
      if s[0] == 0x2C then [[]] + rest else [[s[0]] + rest[0]] + rest[1..]
  }

  predicate Plain(name: bytes) {
    forall i :: 0 <= i < |name| ==> name[i] != 0x2C && name[i] != 0
  }

  lemma {:induction false} AtCommasPlain(name: bytes, rest: bytes)
    requires Plain(name)
    ensures AtCommas(name) == [name] && AtCommas(name + [0x2C] + rest) == [name] + AtCommas(rest)
    decreases |name|
  {
    var s := name + [0x2C] + rest;
    if name == [] {
      assert s[1..] == rest && s[0] == 0x2C;
    } else {
      AtCommasPlain(name[1..], rest);
      assert s[1..] == name[1..] + [0x2C] + rest && s[0] == name[0];
      assert [name[0]] + name[1..] == name;
    }
  }

  lemma {:induction false} JoinedDivides(names: seq<bytes>)
    requires names != [] && forall i :: 0 <= i < |names| ==> Plain(names[i])
    ensures AtCommas(Joined(names)) == names
    ensures forall i :: 0 <= i < |Joined(names)| ==> Joined(names)[i] != 0
  {
    if |names| == 1 {
      AtCommasPlain(names[0], []);
    } else {
      JoinedDivides(names[1..]);
      AtCommasPlain(names[0], Joined(names[1..]));
      assert names == [names[0]] + names[1..];
    }
  }
}
