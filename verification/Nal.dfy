/** The loops over H.264 data, each against its specification in NalCore. */
module NalLoops {
  import opened Wrappers
  import opened Bytes
  import Spec = NalCore

  /** `start_codes` of crates/native/src/capture.rs. */
  method StartCodes(data: bytes) returns (starts: seq<Spec.Start>)
    ensures starts == Spec.StartCodes(data)
  {
    if |data| == 0 {
      return [];
    }
    starts := [];
    var i := 0;
    while i + 3 < |data|
      invariant starts + Spec.Scan(data, i) == Spec.Scan(data, 0)
    {
      ghost var found := starts;
      if Spec.At4(data, i) {
        starts := starts + [Spec.Start(i + 4, 4)];
        SnocScan(found, starts, Spec.Scan(data, i), Spec.Scan(data, i + 4));
        i := i + 4;
      } else if Spec.At3(data, i) {
        starts := starts + [Spec.Start(i + 3, 3)];
        SnocScan(found, starts, Spec.Scan(data, i), Spec.Scan(data, i + 3));
        i := i + 3;
      } else {
        i := i + 1;
      }
    }
    assert starts + [] == starts;
    if |starts| == 0 {
      starts := [Spec.Start(0, 0)];
    }
  }

  lemma SnocScan(before: seq<Spec.Start>, after: seq<Spec.Start>, scan: seq<Spec.Start>, rest: seq<Spec.Start>)
    requires scan != [] && after == before + [scan[0]] && scan[1..] == rest
    ensures after + rest == before + scan
  {
  }

  /** `nals` of crates/native/src/capture.rs. */
  method Nals(data: bytes) returns (out: Spec.Nals)
    ensures out == Spec.NalsOf(data)
  {
    hide Spec.InOrder, Spec.UnitEnd;
    var starts := StartCodes(data);
    WholeInOrder(data, starts);
    out := [];
    for i := 0 to |starts|
      invariant Spec.InOrder(data, starts[i..])
      invariant out + Spec.Units(data, starts[i..]) == Spec.NalsOf(data)
    {
      Later(data, starts, i);
      var to := if i + 1 < |starts| then starts[i + 1].at - starts[i + 1].sc else |data|;
      if to > starts[i].at {
        Concat(out, data[starts[i].at..to], Spec.Units(data, starts[i + 1..]));
        out := out + [data[starts[i].at..to]];
      }
    }
  }

  lemma WholeInOrder(data: bytes, starts: seq<Spec.Start>)
    requires starts == Spec.StartCodes(data)
    ensures Spec.InOrder(data, starts) && starts[0..] == starts
  {
  }

  lemma Later(data: bytes, starts: seq<Spec.Start>, i: nat)
    requires i < |starts| && Spec.InOrder(data, starts[i..])
    ensures Spec.InOrder(data, starts[i + 1..]) && starts[i..][1..] == starts[i + 1..]
    ensures Spec.UnitEnd(data, starts[i..])
         == if i + 1 < |starts| then starts[i + 1].at - starts[i + 1].sc else |data|
  {
    assert forall k :: i < k < |starts| ==> starts[k] == starts[i..][k - i] == starts[i + 1..][k - i - 1];
  }

  lemma Concat(a: Spec.Nals, x: bytes, b: Spec.Nals)
    ensures a + ([x] + b) == a + [x] + b
  {
  }

  /** `avcc_sample` of crates/native/src/capture.rs. */
  method AvccSample(annexb: bytes) returns (out: bytes)
    ensures out == Spec.AvccSample(annexb)
  {
    var nals := Nals(annexb);
    out := [];
    for i := 0 to |nals|
      invariant out + Spec.Avcc(Spec.Samples(nals[i..])) == Spec.AvccSample(annexb)
    {
      assert nals[i..][1..] == nals[i + 1..];
      var nal := nals[i];
      if Spec.NalType(nal) in {6, 7, 8, 9} {
        continue;
      }
      var len := |nal| % U32_MOD;
      ghost var rest := Spec.Samples(nals[i + 1..]);
      assert Spec.Avcc([nal] + rest) == PutU32BE(len) + nal + Spec.Avcc(rest) by {
        assert ([nal] + rest)[1..] == rest;
      }
      Assoc(out, PutU32BE(len) + nal, Spec.Avcc(rest));
      Assoc(out, PutU32BE(len), nal);
      out := out + PutU32BE(len);
      out := out + nal;
    }
  }

  /** `sps_pps` of crates/native/src/capture.rs. */
  method SpsPps(csd: bytes) returns (r: Option<(bytes, bytes)>)
    ensures r == Spec.SpsPps(csd)
  {
    var sps: Option<bytes> := None;
    var pps: Option<bytes> := None;
    var nals := Nals(csd);
    for i := 0 to |nals|
      invariant Spec.FirstOfType(nals, 7) == if sps.Some? then sps else Spec.FirstOfType(nals[i..], 7)
      invariant Spec.FirstOfType(nals, 8) == if pps.Some? then pps else Spec.FirstOfType(nals[i..], 8)
    {
      assert nals[i..][1..] == nals[i + 1..];
      var t := Spec.NalType(nals[i]);
      if t == 7 && sps.None? {
        sps := Some(nals[i]);
      } else if t == 8 && pps.None? {
        pps := Some(nals[i]);
      }
    }
    if sps.None? || pps.None? {
      return None;
    }
    return Some((sps.value, pps.value));
  }

  /** `to_annex_b` of crates/proto/src/lib.rs. */
  method ToAnnexB(data: bytes) returns (r: bytes)
    ensures r == Spec.ToAnnexB(data)
  {
    hide GetU32BE, Spec.HasStartCode, Spec.LooksLikeAvcc;
    if |data| == 0 || Spec.HasStartCode(data) {
      return data;
    }
    if Spec.LooksLikeAvcc(data) {
      var out: bytes := [];
      var i := 0;
      ghost var units: Spec.Nals := [];
      while i + 4 <= |data|
        invariant i <= |data| && out == Spec.AnnexB(units)
        invariant Spec.ReadAvcc(data, 0).0 == units + Spec.ReadAvcc(data, i).0
        invariant Spec.ReadAvcc(data, 0).1 == Spec.ReadAvcc(data, i).1
        decreases |data| - i
      {
        var n := GetU32BE(data[i..i + 4]);
        i := i + 4;
        if n == 0 || i + n > |data| {
          break;
        }
        AnnexBSnoc(units, data[i..i + n]);
        Concat(units, data[i..i + n], Spec.ReadAvcc(data, i + n).0);
        units := units + [data[i..i + n]];
        out := out + Spec.START_CODE;
        out := out + data[i..i + n];
        i := i + n;
      }
      assert units + [] == units;
      if i == |data| && |out| != 0 {
        return out;
      }
    }
    r := Spec.START_CODE + data;
  }

  lemma {:induction false} AnnexBSnoc(list: Spec.Nals, nal: bytes)
    ensures Spec.AnnexB(list + [nal]) == Spec.AnnexB(list) + Spec.START_CODE + nal
  {
    if list == [] {
      assert Spec.AnnexB([nal]) == Spec.START_CODE + nal + Spec.AnnexB([nal][1..]);
    } else {
      assert (list + [nal])[1..] == list[1..] + [nal];
      AnnexBSnoc(list[1..], nal);
    }
  }

  /** `csd_annex_b` of crates/server/src/annexb.rs. */
  method CsdAnnexB(parts: seq<bytes>) returns (out: bytes)
    ensures out == Spec.CsdAnnexB(parts)
  {
    hide Spec.ToAnnexB, Spec.CsdAnnexB;
    out := [];
    for i := 0 to |parts|
      invariant out + Spec.CsdAnnexB(parts[i..]) == Spec.CsdAnnexB(parts)
    {
      CsdPeels(parts, i);
      if |parts[i]| == 0 {
        continue;
      }
      var b := ToAnnexB(parts[i]);
      Assoc(out, b, Spec.CsdAnnexB(parts[i + 1..]));
      out := out + b;
    }
    CsdEnds(parts);
  }

  lemma CsdPeels(parts: seq<bytes>, i: nat)
    requires i < |parts|
    ensures Spec.CsdAnnexB(parts[i..])
         == (if parts[i] == [] then [] else Spec.ToAnnexB(parts[i])) + Spec.CsdAnnexB(parts[i + 1..])
  {
    hide Spec.ToAnnexB;
    assert parts[i..][1..] == parts[i + 1..];
  }

  lemma CsdEnds(parts: seq<bytes>)
    ensures Spec.CsdAnnexB(parts[|parts|..]) == []
  {
  }
}
