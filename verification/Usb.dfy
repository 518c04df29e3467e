/** Reading and writing over bulk endpoints: crates/transport/src/adb/usb.rs. */
module UsbObject {
  import opened Wrappers
  import opened Bytes
  import opened Rounding
  import opened UsbCore

  datatype Outcome = Done | Failed | Waiting

  class UsbIo {
    const mpsIn: nat
    const mpsOut: nat
    var pending: bytes
    /** What the device will answer, one bulk read after the other. */
    var transfers: seq<Transfer>
    /** The sizes asked for so far. */
    var requests: seq<nat>
    /** The transfers sent so far, and which of the coming ones will fail. */
    var sent: seq<bytes>
    var faults: seq<bool>

    constructor (mpsIn: nat, mpsOut: nat, transfers: seq<Transfer>, faults: seq<bool>)
      requires mpsIn > 0 && mpsOut > 0
      ensures this.mpsIn == mpsIn && this.mpsOut == mpsOut && pending == [] && requests == [] && sent == []
      ensures this.transfers == transfers && this.faults == faults
    {
      this.mpsIn := mpsIn;
      this.mpsOut := mpsOut;
      this.transfers := transfers;
      this.faults := faults;
      pending := [];
      requests := [];
      sent := [];
    }

    /** Every byte that can still be read. */
    function Stream(): bytes
      reads this
    {
      pending + Supply(transfers)
    }

    predicate Whole(requests: seq<nat>) {
      mpsIn > 0 && forall i :: 0 <= i < |requests| ==> requests[i] > 0 && requests[i] % mpsIn == 0
    }

    method BulkIn(want: nat) returns (t: Option<Transfer>)
      modifies `transfers, `requests
      ensures requests == old(requests) + [want]
      ensures if old(transfers) == [] then t == None && transfers == []
              else t == Some(old(transfers)[0]) && transfers == old(transfers)[1..]
    {
      requests := requests + [want];
      if transfers == [] {
        return None;
      }
      t := Some(transfers[0]);
      transfers := transfers[1..];
    }

    /** One bulk read, when nothing is pending. */
    method Refill(left: nat) returns (r: Outcome)
      requires left > 0 && mpsIn > 0 && Whole(requests) && pending == []
      modifies `pending, `transfers, `requests
      ensures Whole(requests) && requests == old(requests) + [Want(left, mpsIn)]
      ensures r == Done ==> pending != [] && Stream() == old(Stream()) && |transfers| == |old(transfers)| - 1
      ensures r == Done ==> EndsInFault(transfers) == EndsInFault(old(transfers))
      ensures r == Failed ==> old(Stream()) == [] && EndsInFault(old(transfers)) && |transfers| == |old(transfers)| - 1
      ensures r == Waiting ==> old(Stream()) == [] && !EndsInFault(old(transfers)) && transfers == old(transfers)
    {
      hide Want, Supply;
      RequestsAreWholePackets(left, mpsIn, 1);
      SupplyOf(transfers);
      var data := BulkIn(Want(left, mpsIn));
      if data.None? {
        return Waiting;
      }
      if !Usable(data.value) {
        return Failed;
      }
      pending := pending + data.value.data;
      return Done;
    }

    /**
     The buffer is filled with the next bytes of the stream, whatever the transfers are; it
     fails or waits only when the stream is too short. One request goes out for each transfer.
     */
    method ReadExact(buf: array<byte>) returns (r: Outcome)
      requires mpsIn > 0 && Whole(requests)
      modifies buf, `pending, `transfers, `requests
      ensures Whole(requests)
      ensures |requests| - |old(requests)| == |old(transfers)| - |transfers| + (if r == Waiting then 1 else 0)
      ensures r == Done <==> |old(Stream())| >= buf.Length
      ensures r == Done ==> buf[..] + Stream() == old(Stream())
      ensures r == Done ==> EndsInFault(transfers) == EndsInFault(old(transfers))
      ensures r == Failed ==> EndsInFault(old(transfers))
      ensures r == Waiting ==> !EndsInFault(old(transfers))
    {
      hide Supply, EndsInFault, Whole;
      var filled := 0;
      assert buf[..0] + Stream() == Stream();
      while filled < buf.Length
        invariant filled <= buf.Length
        invariant buf[..filled] + Stream() == old(Stream())
        invariant EndsInFault(transfers) == EndsInFault(old(transfers))
        invariant Whole(requests) && |requests| - |old(requests)| == |old(transfers)| - |transfers|
      {
        if pending == [] {
          r := Refill(buf.Length - filled);
          if r != Done {
            return;
          }
        }
        var n := Drain(buf, filled);
        filled := filled + n;
      }
      assert buf[..filled] == buf[..];
      return Done;
    }

    /** Moves bytes already received into the buffer. */
    method Drain(buf: array<byte>, filled: nat) returns (n: nat)
      requires filled < buf.Length && pending != []
      modifies buf, `pending
      ensures 0 < n <= buf.Length - filled
      ensures buf[..filled + n] + Stream() == old(buf[..filled] + Stream())
    {
      hide Supply;
      n := Min(buf.Length - filled, |pending|);
      Take(buf[..filled], pending, Supply(transfers), n);
      Fill(buf, filled, pending[..n]);
      pending := pending[n..];
    }

    /** `copy_from_slice` into the part not yet filled. */
    method Fill(buf: array<byte>, at: nat, s: bytes)
      requires at + |s| <= buf.Length
      modifies buf
      ensures buf[..at + |s|] == old(buf[..at]) + s
    {
      for i := 0 to |s|
        invariant buf[..at] == old(buf[..at]) && buf[at..at + i] == s[..i]
      {
        buf[at + i] := s[i];
      }
      assert buf[..at + |s|] == buf[..at] + buf[at..at + |s|];
    }

    method BulkOut(chunk: bytes) returns (ok: bool)
      modifies `sent, `faults
      ensures ok == !(old(faults) != [] && old(faults)[0])
      ensures sent == if ok then old(sent) + [chunk] else old(sent)
      ensures faults == if old(faults) == [] then [] else old(faults)[1..]
    {
      ok := !(faults != [] && faults[0]);
      if faults != [] {
        faults := faults[1..];
      }
      if ok {
        sent := sent + [chunk];
      }
    }

    /**
     On success every transfer has been sent, but perhaps the closing empty one; on failure,
     the transfers before the one that failed.
     */
    method WriteAll(buf: bytes) returns (ok: bool)
      modifies `sent, `faults
      ensures ok ==> sent == old(sent) + Outgoing(buf, mpsOut) || sent == old(sent) + Chunks(buf, TRANSFER_BYTES)
      ensures !ok ==>
              exists k :: 0 <= k < |Chunks(buf, TRANSFER_BYTES)| && sent == old(sent) + Chunks(buf, TRANSFER_BYTES)[..k]
      ensures old(faults) == [] ==> ok && faults == [] && sent == old(sent) + Outgoing(buf, mpsOut)
    {
      hide Chunks;
      var chunks := Chunks(buf, TRANSFER_BYTES);
      for i := 0 to |chunks|
        invariant sent == old(sent) + chunks[..i]
        invariant old(faults) == [] ==> faults == []
      {
        ok := BulkOut(chunks[i]);
        if !ok {
          return false;
        }
        assert chunks[..i + 1] == chunks[..i] + [chunks[i]];
      }
      assert chunks[..|chunks|] == chunks && chunks + [] == chunks;
      if |buf| != 0 && mpsOut > 0 && |buf| % mpsOut == 0 {
        var accepted := BulkOut([]);
        assert old(sent) + chunks + [[]] == old(sent) + (chunks + [[]]);
      }
      return true;
    }
  }

  lemma SupplyOf(transfers: seq<Transfer>)
    ensures transfers == [] || !Usable(transfers[0]) ==> Supply(transfers) == []
    ensures transfers != [] && Usable(transfers[0])
            ==> Supply(transfers) == transfers[0].data + Supply(transfers[1..])
  {
  }
}
