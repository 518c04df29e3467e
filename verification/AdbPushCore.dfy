/**
 Pushing a file: what `push` of crates/transport/src/adb/client.rs writes, and how a device
 reads it (SYNC.TXT, "SEND"): `SEND`, a length and "path,mode"; `DATA` records; `DONE` and a time.
 */
module AdbPushCore {
  import opened Wrappers
  import opened Bytes

  const SEND: bytes := [0x53, 0x45, 0x4E, 0x44]
  const DATA: bytes := [0x44, 0x41, 0x54, 0x41]
  const DONE: bytes := [0x44, 0x4F, 0x4E, 0x45]
  const COMMA: byte := 0x2C
  /** The most a DATA record may hold. */
  const RECORD_BYTES := 64 * 1024

  // ---- Decimal numbers

  function Digit(d: nat): byte
    requires d < 10
  {
    (48 + d) as byte
  }

  predicate IsDigit(b: byte) {
    48 <= b <= 57
  }

  /** As `format!` writes it: no leading zero. */
  function Decimal(n: nat): (s: bytes)
    ensures s != [] && forall i :: 0 <= i < |s| ==> IsDigit(s[i])
    ensures |s| > 1 ==> s[0] != 48
  {
    if n < 10 then [Digit(n)] else Decimal(n / 10) + [Digit(n % 10)]
  }

  function FromDecimal(s: bytes): (r: Option<nat>) {
    if s == [] || !IsDigit(s[|s| - 1]) then None
    else if |s| == 1 then Some(s[0] as int - 48)
    else
      var front := FromDecimal(s[..|s| - 1]);
      if front.None? then None else Some(10 * front.value + (s[|s| - 1] as int - 48))
  }

  lemma {:induction false} DecimalRoundTrip(n: nat)
    ensures FromDecimal(Decimal(n)) == Some(n)
  {
    if n >= 10 {
      DecimalRoundTrip(n / 10);
      assert Decimal(n)[..|Decimal(n)| - 1] == Decimal(n / 10);
    }
  }

  /** A path and a mode, divided at the last comma. */
  function Split(spec: bytes): Option<(bytes, nat)> {
    var comma := LastComma(spec);
    if comma < 0 then None
    else
      var mode := FromDecimal(spec[comma + 1..]);
      if mode.None? then None else Some((spec[..comma], mode.value))
  }

  function LastComma(s: bytes): (k: int)
    ensures -1 <= k < |s|
    ensures k >= 0 ==> s[k] == 0x2C
    ensures forall i :: k < i < |s| ==> s[i] != 0x2C
  {
    if s == [] then -1
    else if s[|s| - 1] == 0x2C then |s| - 1
    else LastComma(s[..|s| - 1])
  }

  function Spec(remote: bytes, mode: u32): bytes {
    remote + [COMMA] + Decimal(mode)
  }

  /** Whatever commas the path has, the device divides where the host joined. */
  lemma SpecSplits(remote: bytes, mode: u32)
    ensures Split(Spec(remote, mode)) == Some((remote, mode as nat))
  {
    var s, digits := Spec(remote, mode), Decimal(mode);
    DecimalRoundTrip(mode);
    assert forall i :: |remote| < i < |s| ==> s[i] == digits[i - |remote| - 1];
    assert s[|remote|] == COMMA;
    assert forall i :: |remote| < i < |s| ==> IsDigit(s[i]) && s[i] != COMMA;
    assert LastComma(s) == |remote|;
    assert s[..|remote|] == remote && s[|remote| + 1..] == digits;
  }

  // ---- The messages

  function Message(id: bytes, payload: bytes): bytes {
    id + PutU32(|payload| % U32_MOD) + payload
  }

  function Records(chunks: seq<bytes>): seq<bytes> {
    if chunks == [] then [] else [Message(DATA, chunks[0])] + Records(chunks[1..])
  }

  /** The arguments of the calls to `write`, in order. */
  function Writes(data: bytes, remote: bytes, mode: u32, mtime: u32): seq<bytes> {
    [Message(SEND, Spec(remote, mode))] + Records(Chunks(data, RECORD_BYTES)) + [DONE + PutU32(mtime)]
  }

  // ---- How a device reads them

  /** A file as a device receives it. */
  datatype File = File(path: bytes, mode: nat, records: seq<bytes>, mtime: u32)

  /** DATA records up to DONE: the records, the time, the bytes used. */
  function ReadRecords(s: bytes): Option<(seq<bytes>, u32, nat)>
    decreases |s|
  {
    if |s| < 8 then None
    else
      var n := GetU32(s[4..8]);
      if s[..4] == Ascii("DONE") then Some(([], n, 8))
      else if s[..4] != Ascii("DATA") || n > 0x1_0000 || |s| < 8 + n then None
      else
        var rest := ReadRecords(s[8 + n..]);
        if rest.None? then None
        else Some(([s[8..8 + n]] + rest.value.0, rest.value.1, 8 + n + rest.value.2))
  }

  /** One pushed file at the start of a stream, and the bytes used. */
  function ReadFile(s: bytes): Option<(File, nat)> {
    if |s| < 8 || s[..4] != Ascii("SEND") then None
    else
      var n := GetU32(s[4..8]);
      if |s| < 8 + n then None
      else
        var spec := Split(s[8..8 + n]);
        var body := ReadRecords(s[8 + n..]);
        if spec.None? || body.None? then None
        else Some((File(spec.value.0, spec.value.1, body.value.0, body.value.1), 8 + n + body.value.2))
  }

  lemma MessageParts(id: bytes, payload: bytes, rest: bytes)
    requires |id| == 4 && |payload| < U32_MOD
    ensures var (s, n) := (Message(id, payload) + rest, |payload|);
            && |s| >= 8 + n && s[..4] == id && GetU32(s[4..8]) == n && s[8..8 + n] == payload && s[8 + n..] == rest
  {
    hide PutU32, GetU32;
    var s := Message(id, payload) + rest;
    assert s[4..8] == PutU32(|payload|);
  }

  lemma IdsAreNames()
    ensures SEND == Ascii("SEND") && DATA == Ascii("DATA") && DONE == Ascii("DONE") && DATA != DONE
  {
  }

  /** A record, then whatever the rest reads as. */
  lemma RecordReads(chunk: bytes, after: bytes)
    requires |chunk| <= RECORD_BYTES && ReadRecords(after).Some?
    ensures var r := ReadRecords(after).value;
            ReadRecords(Message(DATA, chunk) + after) == Some(([chunk] + r.0, r.1, 8 + |chunk| + r.2))
  {
    hide PutU32, GetU32, Message;
    IdsAreNames();
    MessageParts(DATA, chunk, after);
  }

  lemma DoneReads(mtime: u32, rest: bytes)
    ensures ReadRecords(DONE + PutU32(mtime) + rest) == Some(([], mtime, 8))
  {
    hide PutU32, GetU32;
    IdsAreNames();
    var tail := DONE + PutU32(mtime) + rest;
    assert tail[..4] == DONE && tail[4..8] == PutU32(mtime);
  }

  lemma {:induction false} RecordsRead(chunks: seq<bytes>, tail: bytes, mtime: u32)
    requires forall i :: 0 <= i < |chunks| ==> |chunks[i]| <= RECORD_BYTES
    requires ReadRecords(tail) == Some(([], mtime, 8))
    ensures ReadRecords(Flatten(Records(chunks)) + tail) == Some((chunks, mtime, |Flatten(Records(chunks))| + 8))
    decreases |chunks|
  {
    hide PutU32, Message, ReadRecords;
    if chunks == [] {
      assert Flatten(Records(chunks)) + tail == tail;
    } else {
      var all := Flatten(Records(chunks[1..]));
      RecordsRead(chunks[1..], tail, mtime);
      assert |chunks[0]| <= RECORD_BYTES;
      RecordReads(chunks[0], all + tail);
      FlattenRecords(chunks);
      hide Flatten, Records;
      Assoc(Message(DATA, chunks[0]), all, tail);
      assert [chunks[0]] + chunks[1..] == chunks;
    }
  }

  lemma FlattenRecords(chunks: seq<bytes>)
    requires chunks != [] && |chunks[0]| <= RECORD_BYTES
    ensures Flatten(Records(chunks)) == Message(DATA, chunks[0]) + Flatten(Records(chunks[1..]))
    ensures |Message(DATA, chunks[0])| == 8 + |chunks[0]|
  {
    assert Records(chunks)[1..] == Records(chunks[1..]);
  }

  /** The bytes of a push. */
  function Pushed(data: bytes, remote: bytes, mode: u32, mtime: u32): bytes {
    Flatten(Writes(data, remote, mode, mtime))
  }

  lemma PushedIs(data: bytes, remote: bytes, mode: u32, mtime: u32)
    ensures Pushed(data, remote, mode, mtime)
         == Message(SEND, Spec(remote, mode))
            + (Flatten(Records(Chunks(data, RECORD_BYTES))) + (DONE + PutU32(mtime)))
  {
    hide PutU32, Message, Spec, Chunks, Records;
    var head, records, tail := Message(SEND, Spec(remote, mode)), Records(Chunks(data, RECORD_BYTES)),
        DONE + PutU32(mtime);
    FlattenSnoc([head] + records, tail);
    assert ([head] + records)[1..] == records;
    Assoc(head, Flatten(records), tail);
  }

  lemma ShortSpecReads(data: bytes, remote: bytes, mode: u32, mtime: u32, rest: bytes)
    requires |Spec(remote, mode)| < U32_MOD
    ensures ReadFile(Pushed(data, remote, mode, mtime) + rest)
         == Some((File(remote, mode, Chunks(data, RECORD_BYTES), mtime), |Pushed(data, remote, mode, mtime)|))
  {
    hide PutU32, GetU32, Message, Spec, Chunks, Records, Flatten, ReadRecords, Split, Pushed;
    IdsAreNames();
    var spec, chunks := Spec(remote, mode), Chunks(data, RECORD_BYTES);
    var records, tail := Flatten(Records(chunks)), DONE + PutU32(mtime);
    PushedIs(data, remote, mode, mtime);
    Assoc(Message(SEND, spec), records + tail, rest);
    Assoc(records, tail, rest);
    MessageParts(SEND, spec, records + (tail + rest));
    SpecSplits(remote, mode);
    DoneReads(mtime, rest);
    RecordsRead(chunks, tail + rest, mtime);
    MessageLength(SEND, spec);
  }

  lemma MessageLength(id: bytes, payload: bytes)
    requires |id| == 4
    ensures |Message(id, payload)| == 8 + |payload|
  {
  }

  lemma {:induction false} DecimalIsShort(n: nat)
    ensures |Decimal(n)| <= n / 2 + 1
  {
    if n >= 10 {
      DecimalIsShort(n / 10);
    }
  }

  lemma SplitShortens(spec: bytes)
    ensures Split(spec).Some? ==> |Split(spec).value.0| < |spec|
  {
  }

  /** A length that does not fit its field makes the device take a piece of the path for it. */
  lemma LongSpecIsMisread(data: bytes, remote: bytes, mode: u32, mtime: u32, rest: bytes)
    requires |Spec(remote, mode)| >= U32_MOD
    ensures var r := ReadFile(Pushed(data, remote, mode, mtime) + rest); r.Some? ==> r.value.0.path != remote
  {
    hide PutU32, GetU32, Chunks, Records, Flatten, ReadRecords, Split, Pushed;
    var spec := Spec(remote, mode);
    var n := |spec| % U32_MOD;
    PushedIs(data, remote, mode, mtime);
    DecimalIsShort(mode);
    var s := Pushed(data, remote, mode, mtime) + rest;
    assert s[4..8] == PutU32(n);
    SplitShortens(s[8..8 + n]);
  }

  /**
   A device reads what a push writes as one file: the path and mode it was given, records of
   at most 64 KiB that make up the data, and the time; and uses exactly the bytes of the push.
   It does so exactly when the length of "path,mode" fits its field.
   */
  lemma PushRoundTrip(data: bytes, remote: bytes, mode: u32, mtime: u32, rest: bytes)
    ensures ReadFile(Pushed(data, remote, mode, mtime) + rest)
            == Some((File(remote, mode, Chunks(data, 0x1_0000), mtime), |Pushed(data, remote, mode, mtime)|))
       <==> |Spec(remote, mode)| < 0x1_0000_0000
    ensures Flatten(Chunks(data, 0x1_0000)) == data
  {
    hide Pushed, ReadFile, Chunks, Spec, Flatten;
    ChunksFlatten(data, RECORD_BYTES);
    if |Spec(remote, mode)| < U32_MOD {
      ShortSpecReads(data, remote, mode, mtime, rest);
    } else {
      LongSpecIsMisread(data, remote, mode, mtime, rest);
    }
  }
}
