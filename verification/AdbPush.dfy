/** `push` as the source writes it: crates/transport/src/adb/client.rs. */
module AdbPush {
  import opened Bytes
  import opened AdbPushCore

  /** A stream's `write`: what it has been given, and which of the coming calls will fail. */
  class SyncStream {
    var written: seq<bytes>
    var failures: seq<bool>

    constructor (failures: seq<bool>)
      ensures written == [] && this.failures == failures
    {
      written := [];
      this.failures := failures;
    }

    method Write(data: bytes) returns (ok: bool)
      modifies this
      ensures ok == !(old(failures) != [] && old(failures)[0])
      ensures written == if ok then old(written) + [data] else old(written)
      ensures failures == if old(failures) == [] then [] else old(failures)[1..]
    {
      ok := !(failures != [] && failures[0]);
      if failures != [] {
        failures := failures[1..];
      }
      if ok {
        written := written + [data];
      }
    }

    /** On success all messages are written; otherwise some first part of them. */
    method Push(data: bytes, remote: bytes, mode: u32, mtime: u32) returns (ok: bool)
      modifies this
      ensures ok ==> written == old(written) + Writes(data, remote, mode, mtime)
      ensures !ok ==> PartWritten(old(written), Writes(data, remote, mode, mtime), written)
      ensures old(failures) == [] ==> ok
    {
      hide Message, Spec, Chunks, PutU32, Writes, Records, PartWritten;
      ghost var was, all := written, Writes(data, remote, mode, mtime);
      var spec := Spec(remote, mode);
      var send := SEND;
      send := send + PutU32(|spec| % U32_MOD);
      send := send + spec;
      MessageIs(SEND, spec);
      WritesAt(data, remote, mode, mtime);
      NothingWritten(was, all);
      ok := Write(send);
      if !ok {
        return;
      }
      OneMore(was, all, 0);
      var chunks := Chunks(data, RECORD_BYTES);
      for i := 0 to |chunks|
        invariant written == was + all[..1 + i] && PartWritten(was, all, written)
        invariant old(failures) == [] ==> failures == []
      {
        var pkt := DATA;
        pkt := pkt + PutU32(|chunks[i]| % U32_MOD);
        pkt := pkt + chunks[i];
        MessageIs(DATA, chunks[i]);
        assert all[1 + i] == pkt;
        ok := Write(pkt);
        if !ok {
          return;
        }
        OneMore(was, all, 1 + i);
      }
      var done := DONE;
      done := done + PutU32(mtime);
      ok := Write(done);
      if !ok {
        return;
      }
      OneMore(was, all, |chunks| + 1);
    }
  }

  /** What was there, and a first part of the messages that leaves some out. */
  ghost predicate PartWritten(was: seq<bytes>, all: seq<bytes>, now: seq<bytes>) {
    exists k :: 0 <= k < |all| && now == was + all[..k]
  }

  lemma NothingWritten(was: seq<bytes>, all: seq<bytes>)
    requires all != []
    ensures was + all[..0] == was && PartWritten(was, all, was)
  {
    assert was == was + all[..0];
  }

  lemma OneMore(was: seq<bytes>, all: seq<bytes>, k: nat)
    requires k < |all|
    ensures was + all[..k] + [all[k]] == was + all[..k + 1]
    ensures if k + 1 < |all| then PartWritten(was, all, was + all[..k + 1]) else all[..k + 1] == all
  {
    assert all[..k] + [all[k]] == all[..k + 1];
    if k + 1 < |all| {
      assert was + all[..k + 1] == was + all[..k + 1];
    }
  }

  lemma MessageIs(id: bytes, payload: bytes)
    ensures Message(id, payload) == id + PutU32(|payload| % U32_MOD) + payload
  {
  }

  /** SEND first, then a record for each chunk, then DONE. */
  lemma WritesAt(data: bytes, remote: bytes, mode: u32, mtime: u32)
    ensures var all, chunks := Writes(data, remote, mode, mtime), Chunks(data, RECORD_BYTES);
            && |all| == |chunks| + 2
            && all[0] == Message(SEND, Spec(remote, mode))
            && (forall i :: 0 <= i < |chunks| ==> all[1 + i] == Message(DATA, chunks[i]))
            && all[|chunks| + 1] == DONE + PutU32(mtime)
  {
    hide Message, Spec, Chunks, PutU32;
    RecordsAt(Chunks(data, RECORD_BYTES));
  }

  lemma {:induction false} RecordsAt(chunks: seq<bytes>)
    ensures |Records(chunks)| == |chunks|
    ensures forall i :: 0 <= i < |chunks| ==> Records(chunks)[i] == Message(DATA, chunks[i])
  {
    hide Message;
    if chunks != [] {
      RecordsAt(chunks[1..]);
    }
  }
}
