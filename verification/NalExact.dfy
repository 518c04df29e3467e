/**
 When a length-prefixed stream survives the conversion of `to_annex_b`, exactly: the other
 half of `NalCore.NalsSurviveConversion`. A stream taken for a byte stream is split a byte or
 two before or behind its units, and never finds its way back.
 */
module NalExact {
  import opened Bytes
  import opened NalCore

  /** Twice what a frame of the wire may hold. */
  const UNIT_LIMIT := 0x100_0000

  /** Units free of start codes and below 16 MiB. */
  predicate Ordinary(nal: bytes) {
    Clean(nal) && |nal| < UNIT_LIMIT
  }

  predicate AllOrdinary(list: Nals) {
    forall i :: 0 <= i < |list| ==> Ordinary(list[i])
  }

  predicate CodeAt(data: bytes, i: nat, sc: nat) {
    (sc == 4 && At4(data, i)) || (sc == 3 && At3(data, i))
  }

  /** The first start found is a start code, and the scan goes on behind it. */
  lemma {:induction false} ScanHead(data: bytes, i: nat)
    requires Scan(data, i) != []
    ensures var s := Scan(data, i)[0];
            s.sc <= s.at <= |data| && CodeAt(data, s.at - s.sc, s.sc) && Scan(data, i)[1..] == Scan(data, s.at)
    decreases |data| - i
  {
    if !At4(data, i) && !At3(data, i) {
      ScanHead(data, i + 1);
    }
  }

  /** A field of a length-prefixed stream, and the unit behind it. */
  predicate FieldAt(data: bytes, q: nat, nal: bytes) {
    && 0 < |nal| < UNIT_LIMIT
    && q + 4 + |nal| <= |data|
    && data[q..q + 4] == PutU32BE(|nal|) && data[q + 4..q + 4 + |nal|] == nal
  }

  lemma FieldBytes(data: bytes, q: nat, nal: bytes)
    requires FieldAt(data, q, nal)
    ensures data[q] == 0 && data[q + 4] == nal[0]
    ensures |nal| == (data[q + 1] as int * 256 + data[q + 2] as int) * 256 + data[q + 3] as int
  {
    var s := data[q..q + 4];
    FourBytesBE(s);
    hide PutU32BE, GetU32BE;
    assert s[0] == data[q] && s[1] == data[q + 1] && s[2] == data[q + 2] && s[3] == data[q + 3];
    assert data[q + 4..q + 4 + |nal|][0] == data[q + 4];
  }

  lemma UnitByte(data: bytes, q: nat, nal: bytes, i: nat)
    requires FieldAt(data, q, nal) && i < |nal|
    ensures data[q + 4 + i] == nal[i]
  {
    hide PutU32BE;
    assert data[q + 4..q + 4 + |nal|][i] == data[q + 4 + i];
  }

  /** A start code at a field: the length is 1, or 256 to 511. */
  lemma CodeAtField(data: bytes, q: nat, nal: bytes, sc: nat)
    requires FieldAt(data, q, nal) && CodeAt(data, q, sc)
    ensures if sc == 4 then |nal| == 1 else 256 <= |nal| < 512
  {
    FieldBytes(data, q, nal);
    hide PutU32BE;
  }

  /** No start code lies inside a unit. */
  lemma NoCodeInside(data: bytes, q: nat, nal: bytes, i: nat, sc: nat)
    requires FieldAt(data, q, nal) && Ordinary(nal) && i + 4 <= |nal|
    ensures !CodeAt(data, q + 4 + i, sc)
  {
    UnitByte(data, q, nal, i);
    UnitByte(data, q, nal, i + 1);
    UnitByte(data, q, nal, i + 2);
    UnitByte(data, q, nal, i + 3);
    hide FieldAt;
    assert !At3(nal, i) && (i + 1 < |nal| - 2 ==> !At3(nal, i + 1));
  }

  /** A start code one or two bytes before a unit ends one or two bytes behind its beginning; the unit is long. */
  lemma CodeBeforeUnit(data: bytes, q: nat, nal: bytes, s: nat, sc: nat)
    requires FieldAt(data, q, nal) && Ordinary(nal) && 1 <= s <= 2 && CodeAt(data, q + 4 - s, sc)
    ensures |nal| >= 256 && 1 <= sc - s <= 2
    ensures sc - s == 1 ==> nal[0] == 1
    ensures s == 1 ==> data[q + 3] == 0 && nal[0] == 0 && nal[1] == 1
  {
    FieldBytes(data, q, nal);
    hide PutU32BE;
    assert data[q + 3] == 0;
    assert |nal| % 256 == 0;
    UnitByte(data, q, nal, 1);
    UnitByte(data, q, nal, 2);
    assert !At3(nal, 0);
  }

  /** A start code one or two bytes before a field ends one or two bytes before its unit. */
  lemma CodeBeforeField(data: bytes, q: nat, nal: bytes, s: nat, sc: nat)
    requires FieldAt(data, q, nal) && 1 <= s <= 2 && s <= q && CodeAt(data, q - s, sc)
    ensures 1 <= 4 + s - sc <= 2
  {
    FieldBytes(data, q, nal);
    hide PutU32BE;
  }

  /** The scan has just recorded a start that ends at `at`. */
  predicate StartsAt(data: bytes, at: nat, starts: seq<Start>) {
    starts != [] && starts[0].at == at <= |data| && starts[0].sc <= at && starts[1..] == Scan(data, at)
  }

  lemma StartsFrom(data: bytes, at: nat, starts: seq<Start>)
    requires StartsAt(data, at, starts)
    ensures InOrder(data, starts)
    ensures |starts| > 1 ==> starts[1].at - starts[1].sc >= at
                             && CodeAt(data, starts[1].at - starts[1].sc, starts[1].sc)
                             && StartsAt(data, starts[1].at, starts[1..])
  {
    assert forall k :: 1 <= k < |starts| ==> starts[k] == starts[1..][k - 1];
    if |starts| > 1 {
      ScanHead(data, at);
    }
  }

  /** The unit at `at` reaches to `e`, and is dropped if empty. */
  predicate Begins(data: bytes, at: nat, e: nat, starts: seq<Start>) {
    && starts != [] && InOrder(data, starts) && InOrder(data, starts[1..])
    && at <= e <= |data|
    && Units(data, starts) == (if e > at then [data[at..e]] else []) + Units(data, starts[1..])
    && (if |starts| == 1 then e == |data|
        else
          var sc := starts[1].sc;
          3 <= sc <= 4 && e + sc <= |data| && CodeAt(data, e, sc) && StartsAt(data, e + sc, starts[1..]))
  }

  lemma FirstUnit(data: bytes, at: nat, starts: seq<Start>) returns (e: nat)
    requires StartsAt(data, at, starts)
    ensures Begins(data, at, e, starts)
  {
    hide InOrder, Units, Scan, CodeAt;
    StartsFrom(data, at, starts);
    e := UnitEnd(data, starts);
    if |starts| > 1 {
      CodeFits(data, e, starts[1].sc);
    }
    UnitsPeel(data, starts);
  }

  lemma UnitsPeel(data: bytes, starts: seq<Start>)
    requires InOrder(data, starts) && starts != []
    ensures InOrder(data, starts[1..]) && UnitEnd(data, starts) <= |data|
    ensures var e := UnitEnd(data, starts);
            Units(data, starts) == (if e > starts[0].at then [data[starts[0].at..e]] else []) + Units(data, starts[1..])
  {
  }

  lemma CodeFits(data: bytes, i: nat, sc: nat)
    requires CodeAt(data, i, sc)
    ensures 3 <= sc <= 4 && i + sc <= |data|
  {
  }

  /** The data from `q` on is the length-prefixed list. */
  predicate Fields(data: bytes, q: nat, list: Nals)
    decreases |list|
  {
    if list == [] then q == |data|
    else FieldAt(data, q, list[0]) && Fields(data, q + 4 + |list[0]|, list[1..])
  }

  lemma {:induction false} AvccHasFields(pre: bytes, list: Nals)
    requires AllOrdinary(list)
    ensures Fields(pre + Avcc(list), |pre|, list)
    decreases |list|
  {
    hide PutU32BE, GetU32BE;
    if list == [] {
      assert Avcc(list) == [];
    } else {
      var nal := list[0];
      assert Ordinary(nal);
      AvccPeels(pre, list, []);
      assert Avcc(list) + [] == Avcc(list) && Avcc(list[1..]) + [] == Avcc(list[1..]);
      hide Avcc;
      AvccHasFields(pre + PutU32BE(|nal|) + nal, list[1..]);
    }
  }

  lemma FieldFits(data: bytes, q: nat, nal: bytes)
    requires FieldAt(data, q, nal)
    ensures q + 4 + |nal| <= |data| && nal != []
  {
  }

  lemma FieldsPeel(data: bytes, q: nat, list: Nals)
    requires list != [] && AllOrdinary(list) && Fields(data, q, list)
    ensures FieldAt(data, q, list[0]) && Ordinary(list[0]) && AllOrdinary(list[1..])
    ensures Fields(data, q + 4 + |list[0]|, list[1..])
    ensures |list| == 1 ==> q + 4 + |list[0]| == |data|
    ensures |list| > 1 ==> FieldAt(data, q + 4 + |list[0]|, list[1])
  {
  }

  /** The first unit is right only if it ends where its length says. */
  lemma FirstMustFit(data: bytes, at: nat, e: nat, starts: seq<Start>, list: Nals)
    requires Begins(data, at, e, starts) && e > at && list != []
    ensures Units(data, starts) == list ==> data[at..e] == list[0] && Units(data, starts[1..]) == list[1..]
  {
    hide InOrder, Scan, CodeAt, StartsAt;
    var rest := Units(data, starts[1..]);
    hide Units;
    assert ([data[at..e]] + rest)[1..] == rest;
  }

  lemma NothingDropped(data: bytes, at: nat, starts: seq<Start>)
    requires Begins(data, at, at, starts)
    ensures Units(data, starts) == Units(data, starts[1..])
  {
    hide InOrder, Units, Scan, CodeAt, StartsAt;
    assert [] + Units(data, starts[1..]) == Units(data, starts[1..]);
  }

  lemma {:induction false} Constant(nal: bytes, i: nat)
    requires i < |nal| && forall k :: 0 <= k < |nal| - 1 ==> nal[k] == nal[k + 1]
    ensures nal[i] == nal[0]
  {
    if i > 0 {
      Constant(nal, i - 1);
    }
  }

  /** A unit found one byte late repeats one byte, down to the next field's first. */
  lemma OneLateRepeats(data: bytes, q: nat, nal: bytes, e: nat)
    requires FieldAt(data, q, nal) && e == q + 5 + |nal| <= |data| && data[q + 5..e] == nal
    ensures data[q + 4 + |nal|] == nal[0]
  {
    hide PutU32BE;
    forall k | 0 <= k < |nal| - 1
      ensures nal[k] == nal[k + 1]
    {
      UnitByte(data, q, nal, k + 1);
      assert data[q + 5..e][k] == data[q + 5 + k];
    }
    Constant(nal, |nal| - 1);
    assert data[q + 5..e][|nal| - 1] == data[q + 4 + |nal|];
  }

  /** A long unit that begins a byte or two behind its place is never right, nor is anything behind it. */
  lemma {:induction false} LateNever(data: bytes, q: nat, list: Nals, t: nat, starts: seq<Start>)
    requires list != [] && AllOrdinary(list) && Fields(data, q, list) && 1 <= t <= 2
    requires |list[0]| >= 256 && (t == 1 ==> list[0][0] == 1) && StartsAt(data, q + 4 + t, starts)
    ensures InOrder(data, starts) && Units(data, starts) != list
    decreases |list|
  {
    hide FieldAt, CodeAt, InOrder, Units, Scan, StartsAt, Ordinary, AllOrdinary, Fields;
    FieldsPeel(data, q, list);
    FieldFits(data, q, list[0]);
    var at, next := q + 4 + t, q + 4 + |list[0]|;
    var e := FirstUnit(data, at, starts);
    if |starts| > 1 {
      NoCodeInside(data, q, list[0], t, starts[1].sc);
    }
    FirstMustFit(data, at, e, starts, list);
    if e == next + t {
      FieldFits(data, next, list[1]);
      FieldBytes(data, next, list[1]);
      if t == 1 {
        if data[at..e] == list[0] {
          OneLateRepeats(data, q, list[0], e);
        }
      } else {
        CodeBeforeUnit(data, next, list[1], 2, starts[1].sc);
        LateNever(data, next, list[1..], starts[1].sc - 2, starts[1..]);
      }
    }
  }

  /** A unit that begins a byte or two before its place is never right, nor is anything behind it. */
  lemma {:induction false} EarlyNever(data: bytes, q: nat, list: Nals, s: nat, starts: seq<Start>)
    requires list != [] && AllOrdinary(list) && Fields(data, q, list) && 1 <= s <= 2
        && StartsAt(data, q + 4 - s, starts)
    ensures InOrder(data, starts) && Units(data, starts) != list
    decreases |list|
  {
    hide FieldAt, CodeAt, InOrder, Units, Scan, StartsAt, Ordinary, AllOrdinary, Fields;
    FieldsPeel(data, q, list);
    FieldFits(data, q, list[0]);
    var at, next := q + 4 - s, q + 4 + |list[0]|;
    var e := FirstUnit(data, at, starts);
    if e == at {
      CodeBeforeUnit(data, q, list[0], s, starts[1].sc);
      NothingDropped(data, at, starts);
      LateNever(data, q, list, starts[1].sc - s, starts[1..]);
    } else {
      FirstMustFit(data, at, e, starts, list);
      if e == next - s && |list| > 1 {
        FieldFits(data, next, list[1]);
        CodeBeforeField(data, next, list[1], s, starts[1].sc);
        EarlyNever(data, next, list[1..], 4 + s - starts[1].sc, starts[1..]);
      }
    }
  }

  /** Inside a long unit there is no unit of one byte. */
  lemma InsideNever(data: bytes, q: nat, nal: bytes, i: nat, list: Nals, starts: seq<Start>)
    requires FieldAt(data, q, nal) && Ordinary(nal) && |nal| >= 256 && i <= 2
    requires list != [] && |list[0]| == 1 && StartsAt(data, q + 4 + i, starts)
    ensures InOrder(data, starts) && Units(data, starts) != list
  {
    hide FieldAt, CodeAt, InOrder, Units, Scan, StartsAt, Ordinary;
    FieldFits(data, q, nal);
    var at := q + 4 + i;
    var e := FirstUnit(data, at, starts);
    if |starts| > 1 {
      NoCodeInside(data, q, nal, i, starts[1].sc);
      NoCodeInside(data, q, nal, i + 1, starts[1].sc);
    }
    FirstMustFit(data, at, e, starts, list);
  }

  /** A unit of one zero byte, taken for the beginning of a start code, is not found again in the next field. */
  lemma ZeroNever(data: bytes, q: nat, nal: bytes, s: nat, list: Nals, starts: seq<Start>)
    requires FieldAt(data, q, nal) && Ordinary(nal) && |nal| >= 256 && 1 <= s <= 2
    requires list != [] && list[0] == [0] && StartsAt(data, q + 4 - s, starts)
    ensures InOrder(data, starts) && Units(data, starts) != list
  {
    hide FieldAt, CodeAt, InOrder, Units, Scan, StartsAt, Ordinary;
    FieldFits(data, q, nal);
    var at := q + 4 - s;
    var e := FirstUnit(data, at, starts);
    if e == at {
      CodeBeforeUnit(data, q, nal, s, starts[1].sc);
      NothingDropped(data, at, starts);
      InsideNever(data, q, nal, starts[1].sc - s, list, starts[1..]);
    } else {
      FirstMustFit(data, at, e, starts, list);
      if e == at + 1 {
        if s == 1 {
          NoCodeInside(data, q, nal, 0, starts[1].sc);
        } else {
          CodeBeforeUnit(data, q, nal, 1, starts[1].sc);
          SecondStart(data, at, e, starts);
          if data[at..e] == [0] {
            assert data[at] == data[at..e][0];
            ZeroIsCode(data, q, nal, starts);
          }
        }
      }
    }
  }

  /** With a zero before it, the start code is met a byte earlier. */
  lemma ZeroIsCode(data: bytes, q: nat, nal: bytes, starts: seq<Start>)
    requires FieldAt(data, q, nal) && |nal| >= 256 && nal[0] == 0 && nal[1] == 1
    requires data[q + 2] == 0 && data[q + 3] == 0 && StartsAt(data, q + 2, starts)
    ensures |starts| > 1 && starts[1] == Start(q + 6, 4)
  {
    UnitByte(data, q, nal, 0);
    UnitByte(data, q, nal, 1);
    hide PutU32BE, FieldAt;
    assert At4(data, q + 2);
    assert starts[1..][0] == Start(q + 6, 4);
  }

  lemma SecondStart(data: bytes, at: nat, e: nat, starts: seq<Start>)
    requires Begins(data, at, e, starts) && |starts| > 1
    ensures starts[1].at == e + starts[1].sc
  {
  }

  /** A unit that begins at its place is right only if it and all after it have one byte. */
  lemma {:induction false} AlignedOnly(data: bytes, q: nat, list: Nals, starts: seq<Start>)
    requires list != [] && |list[0]| == 1 && AllOrdinary(list) && Fields(data, q, list) && StartsAt(data, q + 4, starts)
    ensures InOrder(data, starts) && (Units(data, starts) == list ==> AllOnes(list))
    decreases |list|
  {
    hide FieldAt, CodeAt, InOrder, Units, Scan, StartsAt, Ordinary, AllOrdinary, Fields, AllOnes;
    FieldsPeel(data, q, list);
    FieldFits(data, q, list[0]);
    var at, next := q + 4, q + 5;
    var e := FirstUnit(data, at, starts);
    AllOnesPeels(list);
    if |list| == 1 {
      NoUnits();
    } else if e == at {
      FieldFits(data, next, list[1]);
      CodeAtZero(data, q, list[0], list[1], starts[1].sc);
      NothingDropped(data, at, starts);
      OrdinarySecond(list);
      ZeroNever(data, next, list[1], 5 - starts[1].sc, list, starts[1..]);
    } else {
      FirstMustFit(data, at, e, starts, list);
      if e == next {
        FieldFits(data, next, list[1]);
        CodeAtField(data, next, list[1], starts[1].sc);
        if starts[1].sc == 4 {
          AlignedOnly(data, next, list[1..], starts[1..]);
        } else {
          EarlyNever(data, next, list[1..], 1, starts[1..]);
        }
      }
    }
  }

  lemma OrdinarySecond(list: Nals)
    requires AllOrdinary(list) && |list| > 1
    ensures Ordinary(list[1])
  {
  }

  /** A start code at a unit of one byte: the byte is zero, and the next length long. */
  lemma CodeAtZero(data: bytes, q: nat, nal: bytes, next: bytes, sc: nat)
    requires FieldAt(data, q, nal) && |nal| == 1 && FieldAt(data, q + 5, next) && CodeAt(data, q + 4, sc)
    ensures nal == [0] && |next| >= 256
  {
    FieldBytes(data, q, nal);
    FieldBytes(data, q + 5, next);
    hide PutU32BE;
  }

  lemma NoUnits()
    ensures AllOnes([])
  {
  }

  /** A stream that begins like a byte stream is split as one. */
  lemma MisreadFromTheStart(list: Nals)
    requires AllOrdinary(list) && list != [] && (|list[0]| == 1 || 256 <= |list[0]| < 512)
    ensures NalsOf(Avcc(list)) == list ==> AllOnes(list)
  {
    hide AllOrdinary, AllOnes, InOrder, Units, Avcc, FieldAt, Ordinary, Scan;
    var data := Avcc(list);
    AvccHasFields([], list);
    assert [] + data == data;
    FieldsPeel(data, 0, list);
    hide Fields;
    CodeInFront(data, list[0]);
    var starts := Scan(data, 0);
    if |list[0]| == 1 {
      AlignedOnly(data, 0, list, starts);
    } else {
      EarlyNever(data, 0, list, 1, starts);
    }
  }

  lemma CodeInFront(data: bytes, nal: bytes)
    requires FieldAt(data, 0, nal)
    ensures |nal| == 1 ==> Scan(data, 0) == [Start(4, 4)] + Scan(data, 4)
    ensures 256 <= |nal| < 512 ==> Scan(data, 0) == [Start(3, 3)] + Scan(data, 3)
    ensures data != []
  {
    FieldBytes(data, 0, nal);
    hide PutU32BE;
  }

  /**
   Length-prefixed to byte stream and back gives the units exactly when the first length does
   not look like a start code, or all of them are one.
   */
  lemma NalsSurviveExactly(list: Nals)
    requires AllOrdinary(list)
    ensures NalsOf(ToAnnexB(Avcc(list))) == list <==> Recognised(list)
  {
    AllAreClean(list);
    hide NalsOf, ToAnnexB, AllClean, AllOrdinary;
    if Recognised(list) {
      NalsSurviveConversion(list);
    } else {
      AvccConverts(list, []);
      assert Avcc(list) + [] == Avcc(list);
      MisreadFromTheStart(list);
    }
  }

  lemma AllAreClean(list: Nals)
    requires AllOrdinary(list)
    ensures AllClean(list) && AllSized(list)
  {
    assert forall i :: 0 <= i < |list| ==> Ordinary(list[i]);
  }

  // ---- From 16 MiB on, a misread stream can fall into step again

  const PAIRS: nat := 256
  const ONES: nat := 0x1_0000
  const TWOS: nat := 0x100_0001

  function Alternating(): (s: bytes)
    ensures |s| == PAIRS && forall i :: 0 <= i < PAIRS ==> s[i] == if i % 2 == 0 then 0 else 1
  {
    seq(PAIRS, i => if i % 2 == 0 then 0 else 1)
  }

  function Same(n: nat, b: byte): (s: bytes)
    ensures |s| == n && forall i :: 0 <= i < n ==> s[i] == b
  {
    seq(n, i => b)
  }

  function Unlucky(): Nals {
    [Alternating(), Same(ONES, 1), Same(TWOS, 2)]
  }

  /** The bytes of the length-prefixed stream of `Unlucky`. */
  predicate UnluckyBytes(data: bytes) {
    && |data| == 12 + PAIRS + ONES + TWOS
    && data[0] == 0 && data[1] == 0 && data[2] == 1 && data[3] == 0
    && (forall i :: 4 <= i < 260 ==> data[i] == if i % 2 == 0 then 0 else 1)
    && data[260] == 0 && data[261] == 1 && data[262] == 0 && data[263] == 0
    && (forall i :: 264 <= i < 65800 ==> data[i] == 1)
    && data[65800] == 1 && data[65801] == 0 && data[65802] == 0 && data[65803] == 1
    && (forall i :: 65804 <= i < |data| ==> data[i] == 2)
  }

  lemma Lengths()
    ensures PutU32BE(PAIRS) == [0, 0, 1, 0] && PutU32BE(ONES) == [0, 1, 0, 0] && PutU32BE(TWOS) == [1, 0, 0, 1]
  {
    LengthIs(PAIRS, 0, 0, 1, 0);
    LengthIs(ONES, 0, 1, 0, 0);
    LengthIs(TWOS, 1, 0, 0, 1);
  }

  lemma LengthIs(n: u32, a: byte, b: byte, c: byte, d: byte)
    requires n == ((a as int * 256 + b as int) * 256 + c as int) * 256 + d as int
    ensures PutU32BE(n) == [a, b, c, d]
  {
    FourBytesBE(PutU32BE(n));
    hide PutU32BE;
  }

  lemma SixParts(a: bytes, b: bytes, c: bytes, d: bytes, e: bytes, f: bytes)
    requires a == [0, 0, 1, 0] && b == Alternating() && c == [0, 1, 0, 0] && d == Same(ONES, 1) && e == [1, 0, 0, 1]
        && f == Same(TWOS, 2)
    ensures UnluckyBytes(a + b + (c + d + (e + f)))
  {
    var tail := e + f;
    var middle := c + d + tail;
    var data := a + b + middle;
    hide Alternating, Same;
    assert |tail| == 4 + TWOS && |middle| == 4 + ONES + |tail|;
    assert forall i :: 0 <= i < 4 ==> data[i] == a[i];
    assert forall i :: 4 <= i < 260 ==> data[i] == b[i - 4];
    assert forall i :: 260 <= i < |data| ==> data[i] == middle[i - 260];
    assert forall i :: 0 <= i < 4 ==> middle[i] == c[i];
    assert forall i :: 4 <= i < 4 + ONES ==> middle[i] == d[i - 4];
    assert forall i :: 4 + ONES <= i < |middle| ==> middle[i] == tail[i - 4 - ONES];
    assert forall i :: 0 <= i < 4 ==> tail[i] == e[i];
    assert forall i :: 4 <= i < |tail| ==> tail[i] == f[i - 4];
  }

  lemma UnluckyStream()
    ensures UnluckyBytes(Avcc(Unlucky()))
  {
    hide PutU32BE, Alternating, Same;
    Lengths();
    var a, b, c := Alternating(), Same(ONES, 1), Same(TWOS, 2);
    var list: Nals := [a, b, c];
    assert list[1..] == [b, c] && [b, c][1..] == [c] && [c][1..] == [];
    assert Avcc([c]) == PutU32BE(TWOS) + c + Avcc([c][1..]) == PutU32BE(TWOS) + c;
    assert Avcc([b, c]) == PutU32BE(ONES) + b + Avcc([b, c][1..]);
    assert Avcc(list) == PutU32BE(PAIRS) + a + Avcc(list[1..]);
    SixParts([0, 0, 1, 0], a, [0, 1, 0, 0], b, [1, 0, 0, 1], c);
  }

  /** A three-byte start code with nothing before it. */
  lemma NextCode(data: bytes, i: nat, j: nat)
    requires i <= j && j + 3 < |data| && At3(data, j) && !At4(data, j)
    requires forall p :: i <= p < j ==> !At3(data, p) && !At4(data, p)
    ensures Scan(data, i) == [Start(j + 3, 3)] + Scan(data, j + 3)
  {
    hide At3, At4;
    NothingBetween(data, i, j);
  }

  lemma UnluckyFront(data: bytes)
    requires UnluckyBytes(data)
    ensures Scan(data, 0) == [Start(3, 3)] + Scan(data, 3) && Scan(data, 3) == [Start(6, 3)] + Scan(data, 6)
  {
    hide Scan;
    NextCode(data, 0, 0);
    NextCode(data, 3, 3);
  }

  lemma UnluckyPairs(data: bytes)
    requires UnluckyBytes(data)
    ensures Scan(data, 6) == [Start(265, 3)] + Scan(data, 265)
  {
    hide Scan;
    NextCode(data, 6, 262);
  }

  lemma UnluckyOnes(data: bytes)
    requires UnluckyBytes(data)
    ensures Scan(data, 265) == [Start(65804, 3)] + Scan(data, 65804)
  {
    hide Scan;
    NextCode(data, 265, 65801);
  }

  lemma UnluckyTwos(data: bytes)
    requires UnluckyBytes(data)
    ensures Scan(data, 65804) == []
  {
    hide Scan;
    NothingBetween(data, 65804, |data|);
    NoScanAtEnd(data);
  }

  lemma UnluckyStarts(data: bytes)
    requires UnluckyBytes(data)
    ensures Scan(data, 0) == [Start(3, 3), Start(6, 3), Start(265, 3), Start(65804, 3)]
  {
    hide Scan, UnluckyBytes;
    UnluckyFront(data);
    UnluckyPairs(data);
    UnluckyOnes(data);
    UnluckyTwos(data);
  }

  lemma NoScanAtEnd(data: bytes)
    ensures Scan(data, |data|) == []
  {
  }

  lemma UnluckyUnits(data: bytes)
    requires UnluckyBytes(data)
    ensures NalsOf(data) == Unlucky()
  {
    UnluckyStarts(data);
    var starts := Scan(data, 0);
    assert data[6..262] == Alternating();
    assert data[265..65801] == Same(ONES, 1);
    assert data[65804..|data|] == Same(TWOS, 2);
    hide Alternating, Same, UnluckyBytes, Scan;
    UnitsPeel(data, starts);
    UnitsPeel(data, starts[1..]);
    UnitsPeel(data, starts[2..]);
    UnitsPeel(data, starts[3..]);
    assert starts[1..][1..] == starts[2..] && starts[2..][1..] == starts[3..] && starts[3..][1..] == [];
  }

  lemma UnluckyIsClean()
    ensures AllClean(Unlucky()) && AllSized(Unlucky())
  {
    var a, b, c := Alternating(), Same(ONES, 1), Same(TWOS, 2);
    assert Clean(a) && Clean(b) && Clean(c);
  }

  /** A list of clean units, the last longer than 16 MiB, that is misread and comes out right all the same. */
  lemma UnluckyComesOutRight()
    ensures AllClean(Unlucky()) && AllSized(Unlucky()) && !Recognised(Unlucky())
    ensures NalsOf(ToAnnexB(Avcc(Unlucky()))) == Unlucky()
  {
    hide NalsOf, ToAnnexB, Avcc, Alternating, Same;
    UnluckyIsClean();
    AvccConverts(Unlucky(), []);
    assert Avcc(Unlucky()) + [] == Avcc(Unlucky());
    UnluckyStream();
    UnluckyUnits(Avcc(Unlucky()));
  }
}
