/**
 H.264 byte streams: start codes and NAL units (Annex B of ITU-T H.264) and length-prefixed
 samples (ISO/IEC 14496-15). Specifies the loops of crates/proto/src/lib.rs,
 crates/native/src/capture.rs, crates/native/src/decode.rs and crates/server/src/annexb.rs.
 */
module NalCore {
  import opened Wrappers
  import opened Bytes

  const START_CODE: bytes := [0, 0, 0, 1]

  type Nals = seq<bytes>

  predicate At3(data: bytes, i: nat) {
    i + 3 <= |data| && data[i] == 0 && data[i + 1] == 0 && data[i + 2] == 1
  }

  predicate At4(data: bytes, i: nat) {
    i + 4 <= |data| && data[i] == 0 && data[i + 1] == 0 && data[i + 2] == 0 && data[i + 3] == 1
  }

  // ---- The splitting scanner of capture.rs

  /** A start code of `sc` bytes that ends, and its NAL unit begins, at `at`. */
  datatype Start = Start(at: nat, sc: nat)

  function Scan(data: bytes, i: nat): (s: seq<Start>)
    ensures forall k :: 0 <= k < |s| ==> i <= s[k].at - s[k].sc && s[k].at <= |data| && 3 <= s[k].sc <= 4
    ensures forall k :: 0 <= k < |s| - 1 ==> s[k].at <= s[k + 1].at - s[k + 1].sc
    decreases |data| - i
  {
    if i + 3 >= |data| then []
    else if At4(data, i) then [Start(i + 4, 4)] + Scan(data, i + 4)
    else if At3(data, i) then [Start(i + 3, 3)] + Scan(data, i + 3)
    else Scan(data, i + 1)
  }

  function StartCodes(data: bytes): seq<Start> {
    if data == [] then []
    else if Scan(data, 0) == [] then [Start(0, 0)]
    else Scan(data, 0)
  }

  /** Three bytes 0, 0, 1 end here; at the very end of the data they count only behind another 0. */
  predicate CodeEnds(data: bytes, a: nat) {
    && 3 <= a <= |data| && data[a - 3] == 0 && data[a - 2] == 0 && data[a - 1] == 1
    && (a < |data| || (a >= 4 && data[a - 4] == 0))
  }

  predicate IsStart(starts: seq<Start>, a: nat) {
    exists k :: 0 <= k < |starts| && starts[k].at == a
  }

  /** The starts behind position `i`: every code that ends there, with the 0 in front of it. */
  ghost predicate FindsFrom(data: bytes, i: nat, starts: seq<Start>) {
    && (forall a :: a >= i + 3 ==> (IsStart(starts, a) <==> CodeEnds(data, a)))
    && (forall k :: 0 <= k < |starts| ==> starts[k].at >= i + 3 && starts[k].sc == CodeLength(data, starts[k].at))
  }

  function CodeLength(data: bytes, a: nat): nat {
    if 4 <= a <= |data| && data[a - 4] == 0 then 4 else 3
  }

  /** The scan finds every start code, with the 0 in front of it as part of it, and nothing else. */
  lemma {:induction false} ScanFindsAll(data: bytes, i: nat)
    requires i == 0 || i > |data| || data[i - 1] != 0 || !At3(data, i)
    ensures FindsFrom(data, i, Scan(data, i))
    decreases |data| - i
  {
    hide FindsFrom;
    if i + 3 >= |data| {
      NothingAtTheEnd(data, i);
    } else if At4(data, i) {
      ScanFindsAll(data, i + 4);
      FoundOne(data, i, Start(i + 4, 4), Scan(data, i + 4));
    } else if At3(data, i) {
      ScanFindsAll(data, i + 3);
      FoundOne(data, i, Start(i + 3, 3), Scan(data, i + 3));
    } else {
      ScanFindsAll(data, i + 1);
      FoundNone(data, i, Scan(data, i + 1));
    }
  }

  lemma NothingAtTheEnd(data: bytes, i: nat)
    requires i + 3 >= |data| && (i == 0 || i > |data| || data[i - 1] != 0 || !At3(data, i))
    ensures FindsFrom(data, i, [])
  {
  }

  lemma FoundNone(data: bytes, i: nat, rest: seq<Start>)
    requires i + 3 < |data| && !At4(data, i) && !At3(data, i) && FindsFrom(data, i + 1, rest)
    ensures FindsFrom(data, i, rest)
  {
    assert !CodeEnds(data, i + 3) && !IsStart(rest, i + 3);
    hide CodeEnds;
  }

  lemma FoundOne(data: bytes, i: nat, first: Start, rest: seq<Start>)
    requires i + 3 < |data| && (i == 0 || data[i - 1] != 0 || !At3(data, i))
    requires if At4(data, i) then first == Start(i + 4, 4) else At3(data, i) && first == Start(i + 3, 3)
    requires FindsFrom(data, first.at, rest)
    ensures FindsFrom(data, i, [first] + rest)
  {
    assert CodeEnds(data, first.at) && first.sc == CodeLength(data, first.at);
    forall a | a >= i + 3
      ensures IsStart([first] + rest, a) <==> CodeEnds(data, a)
    {
      StartOrLater(first, rest, a);
      if a < first.at + 3 {
        assert !IsStart(rest, a);
      }
    }
  }

  lemma StartOrLater(first: Start, rest: seq<Start>, a: nat)
    ensures IsStart([first] + rest, a) <==> first.at == a || IsStart(rest, a)
  {
    var all := [first] + rest;
    if IsStart(rest, a) {
      var k :| 0 <= k < |rest| && rest[k].at == a;
      assert all[k + 1].at == a;
    }
    assert all[0] == first;
  }

  /** Starts in order, within the data, each start code after the start before it. */
  predicate InOrder(data: bytes, starts: seq<Start>) {
    && (forall k :: 0 <= k < |starts| ==> starts[k].sc <= starts[k].at <= |data|)
    && (forall k :: 0 <= k < |starts| - 1 ==> starts[k].at <= starts[k + 1].at - starts[k + 1].sc)
  }

  /** Where the unit of the first start ends: at the next start code, or with the data. */
  function UnitEnd(data: bytes, starts: seq<Start>): (e: nat)
    requires InOrder(data, starts) && starts != []
    ensures starts[0].at <= e <= |data|
  {
    if |starts| > 1 then starts[1].at - starts[1].sc else |data|
  }

  function Units(data: bytes, starts: seq<Start>): Nals
    requires InOrder(data, starts)
  {
    if starts == [] then []
    else
      var e := UnitEnd(data, starts);
      (if e > starts[0].at then [data[starts[0].at..e]] else []) + Units(data, starts[1..])
  }

  /** The NAL units of a stream; all of it when there is no start code. */
  function NalsOf(data: bytes): Nals {
    Units(data, StartCodes(data))
  }

  function NalType(nal: bytes): byte {
    (if nal == [] then 0 else nal[0]) % 32
  }

  // ---- The two formats

  function AnnexB(list: Nals): bytes {
    if list == [] then [] else START_CODE + list[0] + AnnexB(list[1..])
  }

  function Avcc(list: Nals): bytes {
    if list == [] then [] else PutU32BE(|list[0]| % U32_MOD) + list[0] + Avcc(list[1..])
  }

  /** No start code can be mistaken for part of the unit: emulation prevention's guarantee. */
  predicate Clean(nal: bytes) {
    nal != [] && forall k :: 0 <= k < |nal| - 2 ==> !At3(nal, k)
  }

  predicate AllClean(list: Nals) {
    forall i :: 0 <= i < |list| ==> Clean(list[i])
  }

  // ---- Splitting a stream of clean units gives the units

  lemma {:induction false} NothingBetween(data: bytes, i: nat, j: nat)
    requires i <= j <= |data|
    requires forall p :: i <= p < j ==> !At3(data, p) && !At4(data, p)
    ensures Scan(data, i) == Scan(data, j)
    decreases j - i
  {
    if i < j {
      if i + 3 < |data| {
        NothingBetween(data, i + 1, j);
      }
    }
  }

  /** Inside a clean unit, and across its end into a four-byte start code, nothing matches. */
  lemma CleanHasNoStart(pre: bytes, nal: bytes, rest: bytes, p: nat)
    requires Clean(nal) && (rest == [] || START_CODE <= rest)
    requires |pre| <= p < |pre| + |nal|
    ensures var data := pre + nal + rest; !At3(data, p) && !At4(data, p)
  {
    var data := pre + nal + rest;
    var k := p - |pre|;
    assert forall m :: 0 <= m < |nal| ==> data[|pre| + m] == nal[m];
    assert forall m :: 0 <= m < |rest| ==> data[|pre| + |nal| + m] == rest[m];
    if rest != [] {
      assert rest[0] == 0 && rest[1] == 0 && rest[2] == 0;
    }
    if k < |nal| - 2 {
      assert !At3(nal, k);
    }
    if k + 1 < |nal| - 2 {
      assert !At3(nal, k + 1);
    }
  }

  lemma StartCodeMatches(pre: bytes, nal: bytes, rest: bytes)
    ensures var data := pre + (START_CODE + nal + rest);
            At4(data, |pre|) && data == pre + START_CODE + nal + rest
  {
    var data := pre + (START_CODE + nal + rest);
    assert data == pre + START_CODE + nal + rest;
    assert forall k :: 0 <= k < 4 ==> data[|pre| + k] == START_CODE[k];
    assert data[|pre| + 0] == 0 && data[|pre| + 1] == 0 && data[|pre| + 2] == 0 && data[|pre| + 3] == 1;
  }

  function StartsOf(p: nat, list: Nals): seq<Start>
    decreases |list|
  {
    if list == [] then [] else [Start(p + 4, 4)] + StartsOf(p + 4 + |list[0]|, list[1..])
  }

  lemma ScanAtStart(data: bytes, i: nat)
    requires At4(data, i)
    ensures Scan(data, i) == [Start(i + 4, 4)] + Scan(data, i + 4)
  {
  }

  predicate NoStart(data: bytes, i: nat, j: nat) {
    forall p :: i <= p < j ==> !At3(data, p) && !At4(data, p)
  }

  lemma CleanHasNoStarts(pre: bytes, nal: bytes, rest: bytes)
    requires Clean(nal) && (rest == [] || START_CODE <= rest)
    ensures NoStart(pre + nal + rest, |pre|, |pre| + |nal|)
  {
    hide Clean, At3, At4;
    forall p | |pre| <= p < |pre| + |nal|
      ensures !At3(pre + nal + rest, p) && !At4(pre + nal + rest, p)
    {
      CleanHasNoStart(pre, nal, rest, p);
    }
  }

  /** One unit: the scan records its start code and goes on at its end. */
  lemma ScanOneUnit(data: bytes, i: nat, j: nat)
    requires i + 4 <= j <= |data| && At4(data, i) && NoStart(data, i + 4, j)
    ensures Scan(data, i) == [Start(i + 4, 4)] + Scan(data, j)
  {
    hide At3, At4, Scan;
    ScanAtStart(data, i);
    NothingBetween(data, i + 4, j);
  }

  lemma {:induction false} ScanFindsUnits(pre: bytes, list: Nals)
    requires AllClean(list)
    ensures Scan(pre + AnnexB(list), |pre|) == StartsOf(|pre|, list)
    decreases |list|
  {
    hide Clean, At3, At4, NoStart;
    if list != [] {
      var nal, rest := list[0], AnnexB(list[1..]);
      assert rest == [] || START_CODE <= rest;
      assert Clean(list[0]);
      StartCodeMatches(pre, nal, rest);
      CleanHasNoStarts(pre + START_CODE, nal, rest);
      hide Scan;
      ScanOneUnit(pre + AnnexB(list), |pre|, |pre| + 4 + |nal|);
      ScanFindsUnits(pre + START_CODE + nal, list[1..]);
    }
  }

  lemma UnitsStep(data: bytes, starts: seq<Start>, nal: bytes)
    requires InOrder(data, starts) && starts != [] && nal != []
    requires data[starts[0].at..UnitEnd(data, starts)] == nal
    ensures InOrder(data, starts[1..]) && Units(data, starts) == [nal] + Units(data, starts[1..])
  {
  }

  lemma StartsPeel(p: nat, list: Nals)
    requires list != []
    ensures var starts := StartsOf(p, list);
            && starts != [] && starts[0] == Start(p + 4, 4)
            && starts[1..] == StartsOf(p + 4 + |list[0]|, list[1..])
            && (if |list| > 1 then |starts| > 1 && starts[1].at - starts[1].sc == p + 4 + |list[0]| else |starts| == 1)
  {
    if |list| > 1 {
      assert StartsOf(p + 4 + |list[0]|, list[1..])[0] == Start(p + 4 + |list[0]| + 4, 4);
    }
  }

  lemma MiddleSlice(a: bytes, b: bytes, c: bytes)
    ensures (a + b + c)[|a|..|a| + |b|] == b && |a + b + c| == |a| + |b| + |c|
  {
  }

  /** The unit in front ends where the next one's start code begins, or with the data. */
  lemma FirstUnitEnds(data: bytes, pre: bytes, list: Nals, rest: bytes)
    requires list != [] && data == pre + START_CODE + list[0] + rest && (|list| == 1 ==> rest == [])
    requires InOrder(data, StartsOf(|pre|, list)) && StartsOf(|pre|, list) != []
    ensures UnitEnd(data, StartsOf(|pre|, list)) == |pre| + 4 + |list[0]|
  {
    hide InOrder, StartsOf;
    StartsPeel(|pre|, list);
  }

  /** The first unit is what lies between its start code and the next. */
  lemma FirstOfStarts(data: bytes, pre: bytes, list: Nals, rest: bytes)
    requires list != [] && list[0] != [] && data == pre + START_CODE + list[0] + rest && (|list| == 1 ==> rest == [])
    requires InOrder(data, StartsOf(|pre|, list))
    ensures InOrder(data, StartsOf(|pre| + 4 + |list[0]|, list[1..]))
    ensures Units(data, StartsOf(|pre|, list))
         == [list[0]] + Units(data, StartsOf(|pre| + 4 + |list[0]|, list[1..]))
  {
    hide InOrder, UnitEnd, StartsOf, Units;
    StartsPeel(|pre|, list);
    FirstUnitEnds(data, pre, list, rest);
    MiddleSlice(pre + START_CODE, list[0], rest);
    UnitsStep(data, StartsOf(|pre|, list), list[0]);
  }

  lemma {:induction false} UnitsOfStarts(pre: bytes, list: Nals)
    requires AllClean(list) && InOrder(pre + AnnexB(list), StartsOf(|pre|, list))
    ensures Units(pre + AnnexB(list), StartsOf(|pre|, list)) == list
    decreases |list|
  {
    if list == [] {
      NoStarts(pre);
    } else {
      HeadClean(list);
      HeadFirst(pre, list);
      hide InOrder, AnnexB, StartsOf, Units, AllClean;
      FirstOfStarts(pre + AnnexB(list), pre, list, AnnexB(list[1..]));
      UnitsOfStarts(pre + START_CODE + list[0], list[1..]);
    }
  }

  lemma CleanIsSome(nal: bytes)
    requires Clean(nal)
    ensures nal != []
  {
  }

  lemma HeadClean(list: Nals)
    requires AllClean(list) && list != []
    ensures list[0] != [] && AllClean(list[1..])
  {
    hide Clean;
    CleanIsSome(list[0]);
  }

  lemma HeadFirst(pre: bytes, list: Nals)
    requires list != []
    ensures |list| == 1 ==> AnnexB(list[1..]) == []
    ensures pre + AnnexB(list) == pre + START_CODE + list[0] + AnnexB(list[1..])
  {
    hide At3, At4;
    StartCodeMatches(pre, list[0], AnnexB(list[1..]));
  }

  lemma NoStarts(pre: bytes)
    ensures StartsOf(|pre|, []) == []
  {
  }

  lemma NalsInvertAnnexB(list: Nals)
    requires AllClean(list)
    ensures NalsOf(AnnexB(list)) == list
  {
    ScanFindsUnits([], list);
    assert [] + AnnexB(list) == AnnexB(list);
    if list != [] {
      UnitsOfStarts([], list);
    }
  }

  // ---- to_annex_b

  predicate HasStartCode(data: bytes) {
    At4(data, 0) || At3(data, 0)
  }

  predicate LooksLikeAvcc(data: bytes) {
    |data| >= 5 && 0 < GetU32BE(data[0..4]) && 4 + GetU32BE(data[0..4]) <= |data|
  }

  /** The conversion loop from position `i`: the units read, and where it stopped. */
  function ReadAvcc(data: bytes, i: nat): (r: (Nals, nat))
    ensures i <= |data| ==> r.1 <= |data|
    decreases |data| - i
  {
    if i + 4 > |data| then ([], i)
    else
      var n := GetU32BE(data[i..i + 4]);
      if n == 0 || i + 4 + n > |data| then ([], i + 4)
      else
        var (rest, e) := ReadAvcc(data, i + 4 + n);
        ([data[i + 4..i + 4 + n]] + rest, e)
  }

  function ToAnnexB(data: bytes): bytes {
    if data == [] || HasStartCode(data) then data
    else
      var (units, e) := ReadAvcc(data, 0);
      if LooksLikeAvcc(data) && e == |data| && AnnexB(units) != [] then AnnexB(units)
      else START_CODE + data
  }

  lemma AnnexBStarts(list: Nals)
    ensures list != [] ==> At4(AnnexB(list), 0)
  {
    if list != [] {
      var rest := list[0] + AnnexB(list[1..]);
      assert AnnexB(list) == START_CODE + rest;
    }
  }

  /** Converting twice is converting once, for any bytes. */
  lemma ToAnnexBIdempotent(data: bytes)
    ensures ToAnnexB(ToAnnexB(data)) == ToAnnexB(data)
    ensures data != [] ==> HasStartCode(ToAnnexB(data))
  {
    AnnexBStarts(ReadAvcc(data, 0).0);
    hide ReadAvcc, LooksLikeAvcc;
    assert At4(START_CODE + data, 0);
  }

  /** Units a length-prefixed stream can carry. */
  predicate AllSized(list: Nals) {
    forall i :: 0 <= i < |list| ==> 0 < |list[i]| < U32_MOD
  }

  /** One record of a length-prefixed stream, in the middle of the data. */
  lemma RecordReads(pre: bytes, nal: bytes, rest: bytes)
    requires 0 < |nal| < U32_MOD
    ensures var (data, i) := (pre + (PutU32BE(|nal|) + nal + rest), |pre|);
            i + 4 + |nal| <= |data| && data[i..i + 4] == PutU32BE(|nal|) && data[i + 4..i + 4 + |nal|] == nal
    ensures pre + (PutU32BE(|nal|) + nal + rest) == pre + PutU32BE(|nal|) + nal + rest
  {
    hide PutU32BE;
  }

  lemma ReadAvccStep(data: bytes, i: nat, nal: bytes)
    requires 0 < |nal| < U32_MOD && i + 4 + |nal| <= |data|
    requires data[i..i + 4] == PutU32BE(|nal|) && data[i + 4..i + 4 + |nal|] == nal
    ensures var (rest, e) := ReadAvcc(data, i + 4 + |nal|); ReadAvcc(data, i) == ([nal] + rest, e)
  {
    hide PutU32BE, GetU32BE;
  }

  /** Bytes that begin with a length field and the unit it announces. */
  predicate BeginsField(tail: bytes) {
    |tail| >= 4 && 0 < GetU32BE(tail[0..4]) && 4 + GetU32BE(tail[0..4]) <= |tail|
  }

  /** Where the reader stops on other bytes: behind the length field, or in front of less than one. */
  function StopsAt(tail: bytes): nat {
    if |tail| < 4 then 0 else 4
  }

  lemma ReadAvccEnd(pre: bytes, tail: bytes)
    requires !BeginsField(tail)
    ensures ReadAvcc(pre + tail, |pre|) == ([], |pre| + StopsAt(tail))
  {
    if |tail| >= 4 {
      assert (pre + tail)[|pre|..|pre| + 4] == tail[0..4];
    }
    hide GetU32BE;
  }

  /** The reader returns the units written, and stops where there is no more. */
  lemma {:induction false} ReadAvccInvertsAvcc(pre: bytes, list: Nals, tail: bytes)
    requires AllSized(list) && !BeginsField(tail)
    ensures ReadAvcc(pre + (Avcc(list) + tail), |pre|) == (list, |pre| + |Avcc(list)| + StopsAt(tail))
    decreases |list|
  {
    hide PutU32BE, ReadAvcc, BeginsField, StopsAt;
    if list == [] {
      assert Avcc(list) + tail == tail;
      ReadAvccEnd(pre, tail);
    } else {
      var nal := list[0];
      assert 0 < |nal| < U32_MOD && AllSized(list[1..]);
      hide AllSized;
      AvccPeels(pre, list, tail);
      hide Avcc;
      ReadAvccInvertsAvcc(pre + PutU32BE(|nal|) + nal, list[1..], tail);
      ReadAvccStep(pre + (Avcc(list) + tail), |pre|, nal);
      assert list == [nal] + list[1..];
    }
  }

  lemma AvccPeels(pre: bytes, list: Nals, tail: bytes)
    requires list != [] && 0 < |list[0]| < U32_MOD
    ensures var (data, i, nal) := (pre + (Avcc(list) + tail), |pre|, list[0]);
            && i + 4 + |nal| <= |data| && data[i..i + 4] == PutU32BE(|nal|) && data[i + 4..i + 4 + |nal|] == nal
            && data == pre + PutU32BE(|nal|) + nal + (Avcc(list[1..]) + tail)
    ensures |Avcc(list)| == 4 + |list[0]| + |Avcc(list[1..])|
  {
    hide PutU32BE;
    var nal := list[0];
    Assoc(PutU32BE(|nal|) + nal, Avcc(list[1..]), tail);
    assert Avcc(list) + tail == PutU32BE(|nal|) + nal + (Avcc(list[1..]) + tail);
    hide Avcc;
    RecordReads(pre, nal, Avcc(list[1..]) + tail);
  }

  /** How the first length field reads as the start of a byte stream. */
  lemma LengthAsStartCode(n: u32, rest: bytes)
    ensures At4(PutU32BE(n) + rest, 0) <==> n == 1
    ensures At3(PutU32BE(n) + rest, 0) <==> 256 <= n < 512
  {
    var s := PutU32BE(n);
    FourBytesBE(s);
    assert (s + rest)[0] == s[0] && (s + rest)[1] == s[1] && (s + rest)[2] == s[2] && (s + rest)[3] == s[3];
  }

  lemma FourBytesBE(s: bytes)
    requires |s| == 4
    ensures GetU32BE(s) == ((s[0] as int * 256 + s[1] as int) * 256 + s[2] as int) * 256 + s[3] as int
  {
    var s3, s2, s1 := s[..3], s[..2], s[..1];
    assert s[..3] == s3 && s3[..2] == s2 && s2[..1] == s1 && s1[..0] == [];
    assert FromBE(s1) == s[0] as int;
    assert FromBE(s2) == 256 * FromBE(s1) + s[1] as int;
    assert FromBE(s3) == 256 * FromBE(s2) + s[2] as int;
  }

  predicate AllOnes(list: Nals) {
    forall i :: 0 <= i < |list| ==> |list[i]| == 1
  }

  lemma EqualParts(x: bytes, y: bytes, a: bytes, b: bytes, nal: bytes, c: bytes, d: bytes)
    requires |a| == |b| && x == a + nal + c && y == b + nal + d
    ensures x == y <==> a == b && c == d
  {
    assert a == x[..|a|] && b == y[..|a|];
    assert c == x[|a| + |nal|..] && d == y[|a| + |nal|..];
  }

  lemma LengthIsStartCode(n: u32)
    ensures PutU32BE(n) == START_CODE <==> n == 1
  {
    var s := PutU32BE(n);
    FourBytesBE(s);
    hide PutU32BE;
    if n == 1 {
      assert s[0] == 0 && s[1] == 0 && s[2] == 0 && s[3] == 1;
    }
  }

  lemma AllOnesPeels(list: Nals)
    requires list != []
    ensures AllOnes(list) <==> |list[0]| == 1 && AllOnes(list[1..])
  {
    assert list == [list[0]] + list[1..];
  }

  lemma FormatsPeel(list: Nals)
    requires list != [] && 0 < |list[0]| < U32_MOD
    ensures Avcc(list) == AnnexB(list) <==> |list[0]| == 1 && Avcc(list[1..]) == AnnexB(list[1..])
  {
    hide PutU32BE;
    LengthIsStartCode(|list[0]|);
    EqualParts(Avcc(list), AnnexB(list), PutU32BE(|list[0]|), START_CODE,
               list[0], Avcc(list[1..]), AnnexB(list[1..]));
  }

  lemma {:induction false} AvccIsAnnexB(list: Nals)
    requires AllSized(list)
    ensures Avcc(list) == AnnexB(list) <==> AllOnes(list)
  {
    hide Avcc, AnnexB;
    if list == [] {
      EmptyFormats();
    } else {
      AvccIsAnnexB(list[1..]);
      AllOnesPeels(list);
      FormatsPeel(list);
    }
  }

  lemma EmptyFormats()
    ensures Avcc([]) == AnnexB([])
  {
  }

  /** When a length-prefixed stream is recognised as one. */
  predicate Recognised(list: Nals) {
    list == [] || (if |list[0]| == 1 then AllOnes(list) else !(256 <= |list[0]| < 512))
  }

  /**
   The conversion of a length-prefixed stream is the byte stream of the same units, exactly
   when the first length field does not look like a start code (or all of them are one).
   */
  lemma ToAnnexBExactly(list: Nals)
    requires AllSized(list)
    ensures ToAnnexB(Avcc(list)) == AnnexB(list) <==> Recognised(list)
  {
    hide ReadAvcc, AnnexB, HasStartCode, LooksLikeAvcc;
    AvccIsAnnexB(list);
    if list != [] {
      AvccConverts(list, []);
      assert Avcc(list) + [] == Avcc(list);
    }
  }

  /**
   What the conversion makes of a length-prefixed stream with any bytes behind it, by its first
   length and by how many there are.
   */
  lemma AvccConverts(list: Nals, tail: bytes)
    requires AllSized(list) && list != [] && !BeginsField(tail)
    ensures var data, n := Avcc(list) + tail, |list[0]|;
            ToAnnexB(data) == if n == 1 || 256 <= n < 512 then data
                              else if |tail| == 0 || |tail| == 4 then AnnexB(list)
                              else START_CODE + data
  {
    hide PutU32BE, GetU32BE, ReadAvcc, AnnexB, BeginsField;
    var n, nal, rest := |list[0]|, list[0], Avcc(list[1..]) + tail;
    assert 0 < n < U32_MOD;
    var data := Avcc(list) + tail;
    assert data == PutU32BE(n) + (nal + rest) by {
      Assoc(PutU32BE(n), nal, Avcc(list[1..]));
      Assoc(PutU32BE(n), nal + Avcc(list[1..]), tail);
      Assoc(nal, Avcc(list[1..]), tail);
    }
    LengthAsStartCode(n, nal + rest);
    AnnexBStarts(list);
    ReadAvccInvertsAvcc([], list, tail);
    assert [] + data == data;
    assert data[0..4] == PutU32BE(n);
  }

  /** Length-prefixed to byte stream and back gives the units, in order. */
  lemma NalsSurviveConversion(list: Nals)
    requires AllClean(list) && AllSized(list) && Recognised(list)
    ensures NalsOf(ToAnnexB(Avcc(list))) == list
  {
    ToAnnexBExactly(list);
    NalsInvertAnnexB(list);
  }

  /** And otherwise they need not survive: a unit of one byte, then one of two. */
  lemma ShortFirstUnitIsMisread()
    ensures var list: Nals := [[0x65], [0x41, 0x9A]];
            NalsOf(ToAnnexB(Avcc(list))) == [[0x65, 0, 0, 0, 2, 0x41, 0x9A]]
  {
    hide NalsOf, ToAnnexB;
    var list: Nals := [[0x65], [0x41, 0x9A]];
    var one: Nals := [[0x65, 0, 0, 0, 2, 0x41, 0x9A]];
    MisreadBytes();
    AvccConverts(list, []);
    assert Avcc(list) + [] == Avcc(list);
    NalsInvertAnnexB(one);
  }

  lemma MisreadBytes()
    ensures Avcc([[0x65], [0x41, 0x9A]]) == AnnexB([[0x65, 0, 0, 0, 2, 0x41, 0x9A]])
  {
    hide PutU32BE;
    var list: Nals := [[0x65], [0x41, 0x9A]];
    var one: Nals := [[0x65, 0, 0, 0, 2, 0x41, 0x9A]];
    SmallLengths();
    assert list[1..] == [[0x41, 0x9A]];
    assert Avcc(list[1..]) == [0, 0, 0, 2, 0x41, 0x9A] by {
      assert list[1..][1..] == [];
    }
    assert Avcc(list) == [0, 0, 0, 1] + [0x65] + [0, 0, 0, 2, 0x41, 0x9A];
    assert AnnexB(one) == START_CODE + one[0] by {
      assert one[1..] == [];
    }
  }

  lemma SmallLengths()
    ensures PutU32BE(1) == [0, 0, 0, 1] && PutU32BE(2) == [0, 0, 0, 2]
  {
    FourBytesBE(PutU32BE(1));
    FourBytesBE(PutU32BE(2));
  }

  lemma {:induction false} AnnexBIsAsLong(list: Nals)
    requires AllSized(list)
    ensures |AnnexB(list)| == |Avcc(list)|
  {
    hide PutU32BE;
    if list != [] {
      assert 0 < |list[0]| < U32_MOD;
      AnnexBIsAsLong(list[1..]);
    }
  }

  /**
   Bytes behind the last unit, four of them, are dropped without complaint, whatever length they
   spell; any other number of them stops the conversion.
   */
  lemma TrailingBytes(list: Nals, tail: bytes)
    requires AllSized(list) && list != [] && !BeginsField(tail)
    requires |list[0]| != 1 && !(256 <= |list[0]| < 512)
    ensures ToAnnexB(Avcc(list) + tail) == AnnexB(list) <==> |tail| == 0 || |tail| == 4
    ensures |tail| != 0 && |tail| != 4 ==> ToAnnexB(Avcc(list) + tail) == START_CODE + (Avcc(list) + tail)
  {
    AvccConverts(list, tail);
    AnnexBIsAsLong(list);
    hide ToAnnexB, Avcc, AnnexB, BeginsField;
  }

  /** Every byte string is some units with their lengths, then bytes that begin no further one. */
  lemma {:induction false} EveryStreamIsSuch(data: bytes, i: nat)
    requires i <= |data|
    ensures var list := ReadAvcc(data, i).0;
            && AllSized(list) && |Avcc(list)| <= |data| - i
            && data[i..] == Avcc(list) + data[i + |Avcc(list)|..] && !BeginsField(data[i + |Avcc(list)|..])
    decreases |data| - i
  {
    hide Avcc, AllSized;
    if BeginsField(data[i..]) {
      FieldIsRead(data, i);
      hide ReadAvcc, BeginsField, PutU32BE, GetU32BE;
      var n := GetU32BE(data[i..i + 4]);
      EveryStreamIsSuch(data, i + 4 + n);
      FirstField(data, i, n, ReadAvcc(data, i + 4 + n).0);
    } else {
      NoFieldIsRead(data, i);
    }
  }

  lemma NoFieldIsRead(data: bytes, i: nat)
    requires i <= |data| && !BeginsField(data[i..])
    ensures ReadAvcc(data, i).0 == [] && AllSized([]) && Avcc([]) == [] && data[i..] == [] + data[i + 0..]
  {
    if i + 4 <= |data| {
      assert data[i..][0..4] == data[i..i + 4];
    }
    hide GetU32BE;
  }

  lemma FieldIsRead(data: bytes, i: nat)
    requires i <= |data| && BeginsField(data[i..])
    ensures var n := GetU32BE(data[i..i + 4]);
            && 0 < n < U32_MOD && i + 4 + n <= |data|
            && ReadAvcc(data, i).0 == [data[i + 4..i + 4 + n]] + ReadAvcc(data, i + 4 + n).0
  {
    assert data[i..][0..4] == data[i..i + 4];
    hide GetU32BE;
  }

  lemma FirstField(data: bytes, i: nat, n: nat, rest: Nals)
    requires 0 < n < U32_MOD && i + 4 + n <= |data| && n == GetU32BE(data[i..i + 4])
    requires AllSized(rest) && |Avcc(rest)| <= |data| - (i + 4 + n)
    requires data[i + 4 + n..] == Avcc(rest) + data[i + 4 + n + |Avcc(rest)|..]
    ensures var list := [data[i + 4..i + 4 + n]] + rest;
            && AllSized(list) && |Avcc(list)| == 4 + n + |Avcc(rest)|
            && data[i..] == Avcc(list) + data[i + |Avcc(list)|..]
  {
    hide Avcc, PutU32BE, GetU32BE, AllSized;
    var nal, k := data[i + 4..i + 4 + n], i + 4 + n;
    AvccCons(nal, rest);
    LengthIsPut(data[i..i + 4]);
    FieldAndRest(data, i, n);
    Assoc(PutU32BE(n) + nal, Avcc(rest), data[k + |Avcc(rest)|..]);
  }

  lemma AvccCons(nal: bytes, rest: Nals)
    requires 0 < |nal| < U32_MOD && AllSized(rest)
    ensures AllSized([nal] + rest) && Avcc([nal] + rest) == PutU32BE(|nal|) + nal + Avcc(rest)
  {
    hide PutU32BE;
    assert ([nal] + rest)[1..] == rest;
  }

  lemma LengthIsPut(s: bytes)
    requires |s| == 4
    ensures GetU32BE(s) < U32_MOD && PutU32BE(GetU32BE(s)) == s
  {
    BEInvertsFromBE(s);
    SmallPowers();
  }

  lemma FieldAndRest(data: bytes, i: nat, n: nat)
    requires i + 4 + n <= |data|
    ensures data[i..] == data[i..i + 4] + data[i + 4..i + 4 + n] + data[i + 4 + n..]
  {
  }

  // ---- Samples and parameter sets

  /** Types 6 to 9: supplemental information, parameter sets, delimiters. */
  predicate Dropped(nal: bytes) {
    6 <= NalType(nal) <= 9
  }

  function Samples(list: Nals): Nals {
    if list == [] then []
    else if Dropped(list[0]) then Samples(list[1..])
    else [list[0]] + Samples(list[1..])
  }

  function AvccSample(data: bytes): bytes {
    Avcc(Samples(NalsOf(data)))
  }

  /** The first five bits that a unit's header spends on its type. */
  predicate OfType(nal: bytes, t: nat) {
    nal != [] && nal[0] as nat % 32 == t
  }

  /** Supplemental information 6, parameter sets 7 and 8, access unit delimiters 9. */
  predicate NoPicture(nal: bytes) {
    OfType(nal, 6) || OfType(nal, 7) || OfType(nal, 8) || OfType(nal, 9)
  }

  predicate Increasing(at: seq<nat>, below: nat) {
    && (forall i :: 0 <= i < |at| ==> at[i] < below)
    && (forall i, j :: 0 <= i < j < |at| ==> at[i] < at[j])
  }

  /** The places of the units that stay: all but those four types, in order. */
  lemma {:induction false} SamplesAre(list: Nals) returns (at: seq<nat>)
    ensures Increasing(at, |list|) && |Samples(list)| == |at|
    ensures forall i :: 0 <= i < |at| ==> Samples(list)[i] == list[at[i]]
    ensures forall k :: 0 <= k < |list| ==> (k in at <==> !NoPicture(list[k]))
  {
    if list == [] {
      at := [];
    } else {
      var last := |list| - 1;
      at := SamplesAre(list[..last]);
      SamplesSnoc(list[..last], list[last]);
      assert list == list[..last] + [list[last]];
      assert Dropped(list[last]) <==> NoPicture(list[last]);
      if !Dropped(list[last]) {
        at := at + [last];
      }
    }
  }

  lemma {:induction false} SamplesSnoc(list: Nals, nal: bytes)
    ensures Samples(list + [nal]) == Samples(list) + (if Dropped(nal) then [] else [nal])
  {
    hide Dropped;
    if list == [] {
      assert [nal][1..] == [];
    } else {
      assert (list + [nal])[1..] == list[1..] + [nal];
      SamplesSnoc(list[1..], nal);
    }
  }

  lemma {:induction false} UnitsAreSized(data: bytes, starts: seq<Start>)
    requires InOrder(data, starts) && |data| < U32_MOD
    ensures AllSized(Units(data, starts))
    decreases |starts|
  {
    if starts != [] {
      UnitsAreSized(data, starts[1..]);
    }
  }

  lemma {:induction false} SamplesAreSized(list: Nals)
    requires AllSized(list)
    ensures AllSized(Samples(list))
  {
    if list != [] {
      SamplesAreSized(list[1..]);
    }
  }

  /**
   Read back, a sample holds the units of the stream in their order, exactly those that are
   neither supplemental information nor parameter set nor delimiter.
   */
  lemma SampleHolds(data: bytes) returns (at: seq<nat>)
    requires |data| < U32_MOD
    ensures var list, sample := NalsOf(data), AvccSample(data);
            && Increasing(at, |list|)
            && (forall k :: 0 <= k < |list| ==> (k in at <==> !NoPicture(list[k])))
            && ReadAvcc(sample, 0).1 == |sample| && |ReadAvcc(sample, 0).0| == |at|
            && (forall i :: 0 <= i < |at| ==> ReadAvcc(sample, 0).0[i] == list[at[i]])
  {
    hide ReadAvcc, Samples, Units, Avcc, NoPicture, AllSized;
    var list := NalsOf(data);
    at := SamplesAre(list);
    UnitsAreSized(data, StartCodes(data));
    SamplesAreSized(list);
    ReadAvccInvertsAvcc([], Samples(list), []);
    assert [] + (Avcc(Samples(list)) + []) == Avcc(Samples(list));
  }

  /** A sample is empty exactly when no unit stays. */
  lemma SampleIsEmpty(data: bytes)
    ensures AvccSample(data) == [] <==> forall k :: 0 <= k < |NalsOf(data)| ==> NoPicture(NalsOf(data)[k])
  {
    hide NalsOf, NoPicture;
    var list := NalsOf(data);
    var at := SamplesAre(list);
    if Samples(list) != [] {
      var first := Samples(list)[0];
      assert Avcc(Samples(list)) == PutU32BE(|first| % U32_MOD) + first + Avcc(Samples(list)[1..]);
      assert at[0] in at;
    }
  }

  /** The recorded sample of a converted stream is the stream without the dropped types. */
  lemma SampleSurvivesConversion(list: Nals)
    requires AllClean(list) && AllSized(list) && Recognised(list)
    ensures AvccSample(ToAnnexB(Avcc(list))) == Avcc(Samples(list))
  {
    NalsSurviveConversion(list);
  }

  function FirstOfType(list: Nals, t: byte): Option<bytes> {
    if list == [] then None
    else if NalType(list[0]) == t then Some(list[0])
    else FirstOfType(list[1..], t)
  }

  /** The first of them, and none only if there is none. */
  lemma {:induction false} FirstOfTypeIs(list: Nals, t: byte)
    requires 0 < t < 32
    ensures match FirstOfType(list, t)
            case None => forall k :: 0 <= k < |list| ==> !OfType(list[k], t as nat)
            case Some(nal) => exists k :: 0 <= k < |list| && list[k] == nal && OfType(nal, t as nat)
                                          && forall j :: 0 <= j < k ==> !OfType(list[j], t as nat)
  {
    if list != [] {
      if NalType(list[0]) == t {
        assert list[0] == list[0] && OfType(list[0], t as nat);
      } else {
        FirstOfTypeIs(list[1..], t);
        if FirstOfType(list[1..], t).Some? {
          var nal := FirstOfType(list[1..], t).value;
          var k :| 0 <= k < |list[1..]| && list[1..][k] == nal && OfType(nal, t as nat)
                   && forall j :: 0 <= j < k ==> !OfType(list[1..][j], t as nat);
          assert list[k + 1] == nal;
          assert forall j :: 0 < j < k + 1 ==> list[j] == list[1..][j - 1];
        }
      }
    }
  }

  function SpsPps(csd: bytes): Option<(bytes, bytes)> {
    var (sps, pps) := (FirstOfType(NalsOf(csd), 7), FirstOfType(NalsOf(csd), 8));
    if sps.Some? && pps.Some? then Some((sps.value, pps.value)) else None
  }

  function CsdAnnexB(parts: seq<bytes>): bytes {
    if parts == [] then []
    else (if parts[0] == [] then [] else ToAnnexB(parts[0])) + CsdAnnexB(parts[1..])
  }

  /** A codec-config buffer holding one unit: as such, or behind a four-byte start code. */
  predicate Carries(part: bytes, nal: bytes) {
    (part == nal && nal != [] && nal[0] != 0 && |nal| <= nal[0] as int * 0x100_0000) || part == START_CODE + nal
  }

  lemma CarriedConverts(part: bytes, nal: bytes)
    requires Carries(part, nal)
    ensures part != [] && ToAnnexB(part) == START_CODE + nal
  {
    if part == START_CODE + nal {
      assert At4(part, 0);
    } else {
      if |nal| >= 5 {
        FourBytesBE(nal[0..4]);
      }
      assert !LooksLikeAvcc(nal);
    }
  }

  lemma {:induction false} CsdIsAnnexB(parts: seq<bytes>, list: Nals)
    requires |parts| == |list| && forall i :: 0 <= i < |parts| ==> Carries(parts[i], list[i])
    ensures CsdAnnexB(parts) == AnnexB(list)
    decreases |parts|
  {
    if parts != [] {
      CarriedConverts(parts[0], list[0]);
      hide ToAnnexB;
      CsdIsAnnexB(parts[1..], list[1..]);
    }
  }

  /** The parameter sets a device reports are the ones the recorder finds. */
  lemma ParameterSetsArrive(part1: bytes, part2: bytes, sps: bytes, pps: bytes)
    requires Clean(sps) && NalType(sps) == 7 && Carries(part1, sps)
    requires Clean(pps) && NalType(pps) == 8 && Carries(part2, pps)
    ensures SpsPps(CsdAnnexB([part1, part2])) == Some((sps, pps))
    ensures SpsPps(CsdAnnexB([part2, part1])) == Some((sps, pps))
  {
    hide NalsOf, CsdAnnexB, AnnexB, Carries, Clean;
    CsdIsAnnexB([part1, part2], [sps, pps]);
    CsdIsAnnexB([part2, part1], [pps, sps]);
    NalsInvertAnnexB([sps, pps]);
    NalsInvertAnnexB([pps, sps]);
    assert [sps, pps][1..] == [pps] && [pps, sps][1..] == [sps];
    assert FirstOfType([pps], 8) == Some(pps) && FirstOfType([sps], 7) == Some(sps);
    assert FirstOfType([sps, pps], 7) == Some(sps) && FirstOfType([sps, pps], 8) == Some(pps);
    assert FirstOfType([pps, sps], 7) == Some(sps) && FirstOfType([pps, sps], 8) == Some(pps);
  }

  /** Raw parameter sets are well below the length that would be taken for a length field. */
  lemma SmallParameterSetsCarry(nal: bytes)
    requires nal != [] && (NalType(nal) == 7 || NalType(nal) == 8) && |nal| < 0x1_0000
    ensures Carries(nal, nal) && Carries(START_CODE + nal, nal)
  {
  }

  // ---- The scanner of decode.rs

  /** Every position is tried, so a four-byte start code is met twice. */
  function TypesFrom(data: bytes, i: nat): seq<byte>
    decreases |data| - i
  {
    if i + 3 >= |data| then []
    else
      (if At4(data, i) then TypeAt(data, i + 4) else if At3(data, i) then TypeAt(data, i + 3) else [])
      + TypesFrom(data, i + 1)
  }

  function TypeAt(data: bytes, at: nat): seq<byte> {
    if at < |data| then [data[at] % 32] else []
  }

  predicate ContainsType(data: bytes, t: byte) {
    t in TypesFrom(data, 0)
  }

  function TypesOf(list: Nals): seq<byte> {
    if list == [] then [] else [NalType(list[0])] + TypesOf(list[1..])
  }

  function TypesAfter(data: bytes, starts: seq<Start>): seq<byte> {
    if starts == [] then [] else TypeAt(data, starts[0].at) + TypesAfter(data, starts[1..])
  }

  lemma {:induction false} ScannersMeetTheSameStarts(data: bytes, i: nat, t: byte)
    ensures t in TypesFrom(data, i) <==> t in TypesAfter(data, Scan(data, i))
    decreases |data| - i
  {
    if i + 3 < |data| {
      if At4(data, i) {
        ScannersMeetTheSameStarts(data, i + 4, t);
        SkipTypes(data, i + 1);
        assert Scan(data, i)[1..] == Scan(data, i + 4);
      } else if At3(data, i) {
        ScannersMeetTheSameStarts(data, i + 3, t);
        SkipTypes(data, i);
        assert Scan(data, i)[1..] == Scan(data, i + 3);
      } else {
        ScannersMeetTheSameStarts(data, i + 1, t);
      }
    }
  }

  /** Nothing is met inside a three-byte start code; one at the very end of the data leads nowhere. */
  lemma SkipTypes(data: bytes, i: nat)
    requires At3(data, i)
    ensures TypesFrom(data, i) == TypeAt(data, i + 3) + TypesFrom(data, i + 3)
  {
    if i + 3 < |data| {
      assert !At4(data, i) && !At3(data, i + 1) && !At4(data, i + 1) && !At3(data, i + 2) && !At4(data, i + 2);
      assert TypesFrom(data, i + 2) == TypesFrom(data, i + 3);
      assert TypesFrom(data, i + 1) == TypesFrom(data, i + 2);
    }
  }

  /** An empty unit shows up only as the type of the zero that starts the next start code. */
  predicate Separated(data: bytes, starts: seq<Start>) {
    forall k :: 1 <= k < |starts| ==> BeginsWithZero(data, starts[k])
  }

  predicate BeginsWithZero(data: bytes, s: Start) {
    3 <= s.sc <= s.at <= |data| && data[s.at - s.sc] == 0
  }

  lemma {:induction false} ScanSeparated(data: bytes, i: nat)
    ensures forall k :: 0 <= k < |Scan(data, i)| ==> BeginsWithZero(data, Scan(data, i)[k])
    decreases |data| - i
  {
    if i + 3 < |data| {
      if At4(data, i) {
        ScanSeparated(data, i + 4);
      } else if At3(data, i) {
        ScanSeparated(data, i + 3);
      } else {
        ScanSeparated(data, i + 1);
      }
    }
  }

  lemma TypesOfCons(nal: bytes, rest: Nals)
    ensures TypesOf([nal] + rest) == [NalType(nal)] + TypesOf(rest)
  {
    assert ([nal] + rest)[1..] == rest;
  }

  lemma FirstUnitHasTheType(data: bytes, starts: seq<Start>, rest: Nals, t: byte)
    requires InOrder(data, starts) && Separated(data, starts) && starts != [] && t != 0
    ensures var (at, e) := (starts[0].at, UnitEnd(data, starts));
            t in TypeAt(data, at) || t in TypesOf(rest) <==>
            t in TypesOf((if e > at then [data[at..e]] else []) + rest)
  {
    hide TypesOf;
    var at, e := starts[0].at, UnitEnd(data, starts);
    if e > at {
      TypesOfCons(data[at..e], rest);
    } else {
      assert [] + rest == rest;
      if |starts| > 1 {
        assert BeginsWithZero(data, starts[1]);
      }
    }
  }

  lemma {:induction false} UnitsHaveTheTypes(data: bytes, starts: seq<Start>, t: byte)
    requires InOrder(data, starts) && Separated(data, starts) && t != 0
    ensures t in TypesAfter(data, starts) <==> t in TypesOf(Units(data, starts))
    decreases |starts|
  {
    if starts != [] {
      UnitsHaveTheTypes(data, starts[1..], t);
      FirstUnitHasTheType(data, starts, Units(data, starts[1..]), t);
    }
  }

  /**
   The two scanners agree on every type but 0 exactly when the stream has a start code, or
   has none and is not itself a unit of that type.
   */
  lemma ScannersAgree(data: bytes, t: byte)
    requires t != 0
    ensures (ContainsType(data, t) <==> t in TypesOf(NalsOf(data)))
       <==> Scan(data, 0) != [] || data == [] || NalType(data) != t
  {
    ScannersMeetTheSameStarts(data, 0, t);
    if Scan(data, 0) != [] {
      ScanSeparated(data, 0);
      UnitsHaveTheTypes(data, Scan(data, 0), t);
    } else if data != [] {
      assert data[0..|data|] == data;
      assert Units(data, [Start(0, 0)]) == [data] + Units(data, [Start(0, 0)][1..]) == [data];
      assert [data][1..] == [];
      assert TypesOf([data]) == [NalType(data)] + TypesOf([data][1..]);
    }
  }

  /** They do disagree: on a raw parameter set. */
  lemma ScannersDisagree()
    ensures var raw: bytes := [0x67, 0x42];
            !ContainsType(raw, 7) && 7 in TypesOf(NalsOf(raw))
  {
    var raw: bytes := [0x67, 0x42];
    ScannersAgree(raw, 7);
    assert TypesFrom(raw, 0) == [] && NalType(raw) == 7;
  }
}
