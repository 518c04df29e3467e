/** Bulk transfers as a byte stream: specifies `UsbIo` of crates/transport/src/adb/usb.rs. */
module UsbCore {
  import opened Bytes
  import opened Rounding

  /** The longest transfer asked for or sent. */
  const TRANSFER_BYTES := 16 * 1024

  /** One answer of the device to a bulk read. */
  datatype Transfer = Data(data: bytes) | Fault

  predicate Usable(t: Transfer) {
    t.Data? && t.data != []
  }

  /** The bytes that arrive before the first fault or empty transfer. */
  function Supply(transfers: seq<Transfer>): bytes {
    if transfers == [] || !Usable(transfers[0]) then [] else transfers[0].data + Supply(transfers[1..])
  }

  /** Whether that stretch ends in a fault; if not, the reader waits. */
  predicate EndsInFault(transfers: seq<Transfer>) {
    transfers != [] && (!Usable(transfers[0]) || EndsInFault(transfers[1..]))
  }

  function RoundUp(n: nat, m: nat): nat {
    if m == 0 then n else (n + m - 1) / m * m
  }

  /** The size of the next request with `left` bytes still to fill. */
  function Want(left: nat, mps: nat): nat {
    var want := Max(RoundUp(Max(left, mps), mps), mps);
    RoundUp(Max(Min(want, TRANSFER_BYTES), mps), mps)
  }

  /** The least multiple of `m` that is no smaller. */
  lemma RoundUpIsLeast(n: nat, m: nat)
    requires m > 0
    ensures n <= RoundUp(n, m) < n + m && RoundUp(n, m) % m == 0
  {
    var t := n + m - 1;
    var q := t / m;
    assert t == m * q + t % m;
    assert RoundUp(n, m) == m * q;
    RemainderIs(m * q, m, q, 0);
  }

  lemma MultipleIsLarge(m: nat, k: int)
    requires k != 0
    ensures m * k >= m || -(m * k) >= m
  {
    if k > 0 {
      assert m * k >= m * 1;
    } else {
      assert m * k <= m * -1;
    }
  }

  lemma Distribute(m: int, x: int, y: int)
    ensures m * (x - y) == m * x - m * y
  {
  }

  /** Division with remainder is unique. */
  lemma RemainderIs(a: nat, m: nat, q: int, r: nat)
    requires r < m && a == m * q + r
    ensures a % m == r
  {
    var d, e := a / m, a % m;
    assert a == m * d + e;
    Distribute(m, q, d);
    if q != d {
      MultipleIsLarge(m, q - d);
    }
  }

  /** No multiple of `m` lies between a number and the next one that `RoundUp` gives. */
  lemma LeastMultiple(n: nat, m: nat, k: nat)
    requires m > 0 && m * k >= n
    ensures m * k >= RoundUp(n, m)
  {
    RoundUpIsLeast(n, m);
    var q := (n + m - 1) / m;
    assert RoundUp(n, m) == m * q;
    if k < q {
      Distribute(m, q, k);
      MultipleIsLarge(m, q - k);
    }
  }

  /**
   A device may answer with any whole number of packets: each request is the least positive
   multiple of the packet size that covers what is left, or 16 KiB of it.
   */
  lemma RequestsAreWholePackets(left: nat, mps: nat, k: nat)
    requires left > 0 && mps > 0
    ensures var w := Want(left, mps);
            && w > 0 && w % mps == 0 && w >= (if left < 16384 then left else 16384)
            && (k > 0 && mps * k >= (if left < 16384 then left else 16384) ==> mps * k >= w)
  {
    var a := Max(left, mps);
    var want := Max(RoundUp(a, mps), mps);
    var b := Max(Min(want, TRANSFER_BYTES), mps);
    RoundUpIsLeast(a, mps);
    RoundUpIsLeast(b, mps);
    hide RoundUp;
    if k > 0 && mps * k >= (if left < 16384 then left else 16384) {
      MultipleIsLarge(mps, k);
      if mps * k >= a {
        LeastMultiple(a, mps, k);
        assert mps * k >= b;
      }
      LeastMultiple(b, mps, k);
    }
  }

  /** Taking the next bytes of a stream moves them from one side to the other. */
  lemma Take(got: bytes, pending: bytes, supply: bytes, n: nat)
    requires n <= |pending|
    ensures got + pending[..n] + (pending[n..] + supply) == got + (pending + supply)
  {
    assert pending == pending[..n] + pending[n..];
  }

  // ---- Sending

  /** A transfer of whole packets does not show its end by itself. */
  predicate NeedsEmptyTransfer(buf: bytes, mps: nat) {
    buf != [] && mps > 0 && |buf| % mps == 0
  }

  function Outgoing(buf: bytes, mps: nat): seq<bytes> {
    Chunks(buf, TRANSFER_BYTES) + (if NeedsEmptyTransfer(buf, mps) then [[]] else [])
  }

  /** The transfers carry the bytes, whether or not the empty one is among them. */
  lemma OutgoingIsTheData(buf: bytes, mps: nat)
    ensures Flatten(Outgoing(buf, mps)) == buf && Flatten(Chunks(buf, TRANSFER_BYTES)) == buf
  {
    hide Chunks;
    ChunksFlatten(buf, TRANSFER_BYTES);
    FlattenSnoc(Chunks(buf, TRANSFER_BYTES), []);
    assert buf + [] == buf;
    assert Chunks(buf, TRANSFER_BYTES) + [] == Chunks(buf, TRANSFER_BYTES);
  }

  /** The device sees the end of a write: its last transfer is not made of whole packets, or is empty. */
  predicate ShowsEnd(buf: bytes, mps: nat)
    requires buf != [] && mps > 0
  {
    var out := Outgoing(buf, mps);
    out != [] && (out[|out| - 1] == [] || |out[|out| - 1]| % mps != 0)
  }

  /** The length of the last piece when `n` bytes are cut into full transfers. */
  function LastPiece(n: nat): nat
    requires n > 0
  {
    (n - 1) % 16384 + 1
  }

  /**
   The end shows unless the last piece is whole packets and the whole write is not; so always
   if a full transfer is whole packets.
   */
  lemma LastTransferIsShort(buf: bytes, mps: nat)
    requires buf != [] && mps > 0
    ensures ShowsEnd(buf, mps) <==> |buf| % mps == 0 || LastPiece(|buf|) % mps != 0
    ensures 16384 % mps == 0 ==> ShowsEnd(buf, mps)
  {
    LastChunk(buf);
    hide Chunks;
    if TRANSFER_BYTES % mps == 0 {
      LastPieceKeepsRemainder(|buf|, mps);
    }
  }

  /** With packets of 3 bytes a write of 16387 ends in a transfer of 3, and no empty one follows. */
  lemma EndDoesNotShow(buf: bytes)
    requires |buf| == 16387
    ensures !ShowsEnd(buf, 3)
  {
    LastTransferIsShort(buf, 3);
  }

  lemma {:induction false} LastChunk(buf: bytes)
    requires buf != []
    ensures var c := Chunks(buf, TRANSFER_BYTES); c != [] && |c[|c| - 1]| == LastPiece(|buf|)
    decreases |buf|
  {
    if |buf| > TRANSFER_BYTES {
      LastChunk(buf[TRANSFER_BYTES..]);
    }
  }

  lemma LastPieceStep(n: nat)
    requires n > TRANSFER_BYTES
    ensures LastPiece(n) == LastPiece(n - TRANSFER_BYTES)
  {
  }

  lemma LastPieceKeepsRemainder(n: nat, mps: nat)
    requires n > 0 && mps > 0 && TRANSFER_BYTES % mps == 0
    ensures LastPiece(n) % mps == n % mps
    decreases n
  {
    if n > TRANSFER_BYTES {
      LastPieceStep(n);
      hide LastPiece;
      LastPieceKeepsRemainder(n - TRANSFER_BYTES, mps);
      RemoveMultiple(n, TRANSFER_BYTES, mps);
    }
  }

  lemma RemoveMultiple(a: nat, b: nat, m: nat)
    requires m > 0 && b <= a && b % m == 0
    ensures (a - b) % m == a % m
  {
    var x, y := a / m, b / m;
    assert a == m * x + a % m && b == m * y;
    Distribute(m, x, y);
    RemainderIs(a - b, m, x - y, a % m);
  }
}
