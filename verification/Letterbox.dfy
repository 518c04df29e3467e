/**
 Where the picture sits in the view, twice: as `map_to_device` uses it for touch
 (crates/client/src/lib.rs) and as `quad` draws it (crates/native/src/render.rs).
 Single-precision numbers are modelled as reals.
 */
module Letterbox {
  import opened Wrappers
  import opened Bytes
  import opened Rounding

  datatype Point = Point(x: real, y: real)

  datatype Box = Box(x: real, y: real, w: real, h: real)

  // ---- The box

  /** Aspect ratio kept, centred, as large as the view allows: the contract has one solution. */
  function FrameBox(viewW: real, viewH: real, dispW: real, dispH: real): (b: Box)
    requires viewW > 0.0 && viewH > 0.0 && dispW > 0.0 && dispH > 0.0
    ensures 0.0 < b.w <= viewW && 0.0 < b.h <= viewH
    ensures b.w == viewW || b.h == viewH
    ensures b.w * dispH == b.h * dispW
    ensures b.x + b.w + b.x == viewW && b.y + b.h + b.y == viewH
  {
    var frameAspect := dispW / dispH;
    Quotient(dispW, dispH);
    Quotient(viewW, viewH);
    if viewW / viewH > frameAspect then
      ScaledLess(viewH, frameAspect, viewW / viewH);
      Scaled(viewH, frameAspect, dispH);
      var w := viewH * frameAspect;
      Box((viewW - w) * 0.5, 0.0, w, viewH)
    else
      var h := viewW / frameAspect;
      Quotient(viewW, frameAspect);
      FitsHeight(viewW, viewH, frameAspect);
      Scaled(h, frameAspect, dispH);
      Box(0.0, (viewH - h) * 0.5, viewW, h)
  }

  lemma Quotient(a: real, b: real)
    requires a > 0.0 && b > 0.0
    ensures a / b > 0.0 && a / b * b == a && b * (a / b) == a
  {
  }

  lemma Scaled(a: real, q: real, d: real)
    ensures a * q * d == a * (q * d)
  {
  }

  lemma ScaledLess(a: real, p: real, q: real)
    requires a > 0.0 && 0.0 < p < q
    ensures 0.0 < a * p < a * q
  {
  }

  lemma FitsHeight(w: real, h: real, q: real)
    requires w > 0.0 && h > 0.0 && q > 0.0 && w / h <= q
    ensures w / q <= h
  {
    Quotient(w, h);
    Quotient(w, q);
    if w / h < q {
      ScaledLess(h, w / h, q);
    }
    if w / q > h {
      ScaledLess(q, h, w / q);
      assert false;
    }
  }

  // ---- Rotation

  function ApplyRotation(p: Point, quarters: nat): Point {
    match quarters % 4
    case 0 => p
    case 1 => Point(p.y, 1.0 - p.x)
    case 2 => Point(1.0 - p.x, 1.0 - p.y)
    case _ => Point(1.0 - p.y, p.x)
  }

  /** Where a point of the unit square goes when the picture is turned clockwise `quarters` times. */
  function Turned(p: Point, quarters: nat): Point {
    if quarters == 0 then p
    else var q := Turned(p, quarters - 1); Point(1.0 - q.y, q.x)
  }

  lemma RotationsCompose(p: Point, a: nat, b: nat)
    ensures ApplyRotation(ApplyRotation(p, a), b) == ApplyRotation(p, a + b)
    ensures a <= 4 && b == 4 - a ==> ApplyRotation(ApplyRotation(p, a), b) == p
  {
    assert (a + b) % 4 == (a % 4 + b % 4) % 4;
  }

  /** `ApplyRotation` undoes the turning of the picture, for any number of quarters. */
  lemma {:induction false} RotationUndoesTurning(p: Point, quarters: nat)
    ensures ApplyRotation(Turned(p, quarters), quarters) == p
  {
    if quarters > 0 {
      RotationUndoesTurning(p, quarters - 1);
      var q := Turned(p, quarters - 1);
      assert ApplyRotation(Point(1.0 - q.y, q.x), 1) == q;
      RotationsCompose(Turned(p, quarters), 1, quarters - 1);
    }
  }

  lemma {:induction false} TurningStaysInSquare(p: Point, quarters: nat)
    requires 0.0 <= p.x <= 1.0 && 0.0 <= p.y <= 1.0
    ensures var q := Turned(p, quarters); 0.0 <= q.x <= 1.0 && 0.0 <= q.y <= 1.0
  {
    if quarters > 0 {
      TurningStaysInSquare(p, quarters - 1);
    }
  }

  // ---- Touch to pixel

  /** The box the frame occupies in the view: width and height swap on odd quarter turns. */
  function DisplayBox(viewW: real, viewH: real, fw: u16, fh: u16, rotation: nat): Box
    requires viewW > 0.0 && viewH > 0.0 && fw > 0 && fh > 0
  {
    if rotation % 2 == 1 then FrameBox(viewW, viewH, fh as real, fw as real)
    else FrameBox(viewW, viewH, fw as real, fh as real)
  }

  /** Position within the interval of width `w` from `o`, 0 to 1, clamped. */
  function NormAxis(r: real, o: real, w: real): real
    requires w > 0.0
  {
    Clamp01((r - o) / w)
  }

  function Norm(b: Box, css: Point): Point
    requires b.w > 0.0 && b.h > 0.0
  {
    Point(NormAxis(css.x, b.x, b.w), NormAxis(css.y, b.y, b.h))
  }

  function Pixel(f: real, size: u16): (p: i32)
    requires size > 0
    ensures 0 <= p < size
  {
    Max(0, Min(Round(f * size as real), size - 1))
  }

  /** The frame pixel for a point of the view, when the frame fills the box `b`. */
  function PixelIn(b: Box, css: Point, fw: u16, fh: u16, rotation: nat): (i32, i32)
    requires b.w > 0.0 && b.h > 0.0 && fw > 0 && fh > 0
  {
    var f := ApplyRotation(Norm(b, css), rotation);
    (Pixel(f.x, fw), Pixel(f.y, fh))
  }

  /** The source's last test, that the box is not empty, cannot fire over reals. */
  function MapToDevice(css: Point, viewW: real, viewH: real, fw: u16, fh: u16, rotation: nat): (r: Option<(i32, i32)>)
    ensures r.None? <==> viewW <= 0.0 || viewH <= 0.0 || fw == 0 || fh == 0
    ensures r.Some? ==> 0 <= r.value.0 < fw && 0 <= r.value.1 < fh
  {
    if viewW <= 0.0 || viewH <= 0.0 || fw == 0 || fh == 0 then None
    else Some(PixelIn(DisplayBox(viewW, viewH, fw, fh, rotation), css, fw, fh, rotation))
  }

  function PlaceAxis(t: real, o: real, w: real): real {
    o + t * w
  }

  function Place(b: Box, t: Point): Point {
    Point(PlaceAxis(t.x, b.x, b.w), PlaceAxis(t.y, b.y, b.h))
  }

  /** Where the frame position (fx, fy) is drawn when the frame fills the box `b`. */
  function DrawnIn(b: Box, fx: real, fy: real, fw: u16, fh: u16, rotation: nat): Point
    requires fw > 0 && fh > 0
  {
    Place(b, Turned(Point(fx / fw as real, fy / fh as real), rotation))
  }

  // ---- Where the picture must be

  function Abs(r: real): real {
    if r < 0.0 then -r else r
  }

  /** The way from one point to another along the axes. */
  function Span(p: Point, q: Point): real {
    Abs(p.x - q.x) + Abs(p.y - q.y)
  }

  /** Within the view, centred, and touching it on one axis. */
  predicate Sits(b: Box, viewW: real, viewH: real) {
    && 0.0 < b.w <= viewW && 0.0 < b.h <= viewH && (b.w == viewW || b.h == viewH)
    && b.x + b.w + b.x == viewW && b.y + b.h + b.y == viewH
  }

  /** One pixel of the frame across and one down are drawn equally far apart. */
  predicate Undistorted(b: Box, fw: u16, fh: u16, rotation: nat)
    requires fw > 0 && fh > 0
  {
    var origin := DrawnIn(b, 0.0, 0.0, fw, fh, rotation);
    Span(origin, DrawnIn(b, 1.0, 0.0, fw, fh, rotation)) == Span(origin, DrawnIn(b, 0.0, 1.0, fw, fh, rotation))
  }

  /** Where the picture belongs: these conditions leave one box. */
  predicate Pictured(b: Box, viewW: real, viewH: real, fw: u16, fh: u16, rotation: nat) {
    viewW > 0.0 && viewH > 0.0 && fw > 0 && fh > 0 && Sits(b, viewW, viewH) && Undistorted(b, fw, fh, rotation)
  }

  /** Turning keeps distances, and swaps the axes each time. */
  lemma {:induction false} TurningSwaps(p: Point, q: Point, quarters: nat)
    ensures var a, b := Turned(p, quarters), Turned(q, quarters);
            if quarters % 2 == 0 then Abs(a.x - b.x) == Abs(p.x - q.x) && Abs(a.y - b.y) == Abs(p.y - q.y)
            else Abs(a.x - b.x) == Abs(p.y - q.y) && Abs(a.y - b.y) == Abs(p.x - q.x)
  {
    if quarters > 0 {
      TurningSwaps(p, q, quarters - 1);
    }
  }

  lemma PlacedApart(b: Box, s: Point, t: Point)
    requires b.w > 0.0 && b.h > 0.0
    ensures Span(Place(b, s), Place(b, t)) == Abs(s.x - t.x) * b.w + Abs(s.y - t.y) * b.h
  {
    AxisApart(s.x, t.x, b.x, b.w);
    AxisApart(s.y, t.y, b.y, b.h);
  }

  lemma AxisApart(s: real, t: real, o: real, w: real)
    requires w > 0.0
    ensures Abs(PlaceAxis(s, o, w) - PlaceAxis(t, o, w)) == Abs(s - t) * w
  {
    assert PlaceAxis(s, o, w) - PlaceAxis(t, o, w) == (s - t) * w;
    if s < t {
      assert (s - t) * w < 0.0;
      assert -((s - t) * w) == -(s - t) * w;
    } else {
      assert (s - t) * w >= 0.0;
    }
  }

  lemma NoWay(w: real)
    ensures 0.0 * w == 0.0
  {
  }

  lemma UnitStep(size: real)
    requires size > 0.0
    ensures 0.0 / size == 0.0 && 1.0 / size > 0.0
  {
  }

  /** A way along one axis of the frame, turned and placed. */
  lemma PlacedWay(b: Box, p: Point, q: Point, rotation: nat)
    requires b.w > 0.0 && b.h > 0.0
    ensures var way := Span(Place(b, Turned(p, rotation)), Place(b, Turned(q, rotation)));
            && (p.y == q.y ==> way == Abs(p.x - q.x) * (if rotation % 2 == 1 then b.h else b.w))
            && (p.x == q.x ==> way == Abs(p.y - q.y) * (if rotation % 2 == 1 then b.w else b.h))
  {
    hide Turned, Place, Span;
    TurningSwaps(p, q, rotation);
    PlacedApart(b, Turned(p, rotation), Turned(q, rotation));
    NoWay(b.w);
    NoWay(b.h);
  }

  /** How far apart the neighbouring pixels across and down are drawn. */
  lemma PixelSteps(b: Box, fw: u16, fh: u16, rotation: nat)
    requires b.w > 0.0 && b.h > 0.0 && fw > 0 && fh > 0
    ensures var origin := DrawnIn(b, 0.0, 0.0, fw, fh, rotation);
            && Span(origin, DrawnIn(b, 1.0, 0.0, fw, fh, rotation))
               == 1.0 / fw as real * (if rotation % 2 == 1 then b.h else b.w)
            && Span(origin, DrawnIn(b, 0.0, 1.0, fw, fh, rotation))
               == 1.0 / fh as real * (if rotation % 2 == 1 then b.w else b.h)
  {
    hide Turned, Place, Span;
    UnitStep(fw as real);
    UnitStep(fh as real);
    var o := Point(0.0, 0.0);
    PlacedWay(b, o, Point(1.0 / fw as real, 0.0), rotation);
    PlacedWay(b, o, Point(0.0, 1.0 / fh as real), rotation);
  }

  /** Undistorted means the aspect of the frame, its sides swapped on odd quarter turns. */
  lemma UndistortedIs(b: Box, fw: u16, fh: u16, rotation: nat)
    requires b.w > 0.0 && b.h > 0.0 && fw > 0 && fh > 0
    ensures Undistorted(b, fw, fh, rotation) <==>
              if rotation % 2 == 1 then b.w * fw as real == b.h * fh as real
              else b.w * fh as real == b.h * fw as real
  {
    hide DrawnIn, Span;
    PixelSteps(b, fw, fh, rotation);
    if rotation % 2 == 1 {
      EqualRatios(b.h, fw as real, b.w, fh as real);
    } else {
      EqualRatios(b.w, fw as real, b.h, fh as real);
    }
  }

  lemma EqualRatios(a: real, m: real, b: real, n: real)
    requires m > 0.0 && n > 0.0
    ensures 1.0 / m * a == 1.0 / n * b <==> a * n == b * m
  {
    var u, v := 1.0 / m, 1.0 / n;
    assert u * m == 1.0 && v * n == 1.0;
    if u * a == v * b {
      assert a * n == (u * m) * a * n == (u * a) * (m * n) == (v * b) * (m * n) == (v * n) * b * m;
    }
    if a * n == b * m {
      assert u * a == (u * a) * (v * n) == u * v * (a * n) == u * v * (b * m) == (u * m) * (v * b);
    }
  }

  lemma OneBoxSits(b: Box, c: Box, viewW: real, viewH: real, dw: real, dh: real)
    requires Sits(b, viewW, viewH) && Sits(c, viewW, viewH) && dw > 0.0 && dh > 0.0
    requires b.w * dh == b.h * dw && c.w * dh == c.h * dw
    ensures b == c
  {
    if b.w < c.w {
      ScaledLess(dh, b.w, c.w);
      Larger(dw, b.h, c.h);
      assert false;
    } else if c.w < b.w {
      ScaledLess(dh, c.w, b.w);
      Larger(dw, c.h, b.h);
      assert false;
    } else {
      Cancel(dw, b.h, c.h);
    }
  }

  lemma Larger(a: real, x: real, y: real)
    requires a > 0.0 && x * a < y * a
    ensures x < y
  {
  }

  lemma DisplayBoxSits(viewW: real, viewH: real, fw: u16, fh: u16, rotation: nat)
    requires viewW > 0.0 && viewH > 0.0 && fw > 0 && fh > 0
    ensures var c := DisplayBox(viewW, viewH, fw, fh, rotation);
            && Sits(c, viewW, viewH)
            && (if rotation % 2 == 1 then c.w * fw as real == c.h * fh as real
                else c.w * fh as real == c.h * fw as real)
  {
    hide FrameBox;
  }

  /** The box the mapping uses is that one. */
  lemma PicturedIs(b: Box, viewW: real, viewH: real, fw: u16, fh: u16, rotation: nat)
    requires viewW > 0.0 && viewH > 0.0 && fw > 0 && fh > 0
    ensures Pictured(b, viewW, viewH, fw, fh, rotation) <==> b == DisplayBox(viewW, viewH, fw, fh, rotation)
  {
    hide DisplayBox, Undistorted;
    var c := DisplayBox(viewW, viewH, fw, fh, rotation);
    DisplayBoxSits(viewW, viewH, fw, fh, rotation);
    UndistortedIs(c, fw, fh, rotation);
    if Pictured(b, viewW, viewH, fw, fh, rotation) {
      UndistortedIs(b, fw, fh, rotation);
      if rotation % 2 == 1 {
        OneBoxSits(b, c, viewW, viewH, fh as real, fw as real);
      } else {
        OneBoxSits(b, c, viewW, viewH, fw as real, fh as real);
      }
    }
  }

  /** The pixel reported for the position `f` on an axis of `size` pixels. */
  function Reported(f: real, size: u16): (p: int)
    requires size > 0 && 0.0 <= f <= size as real
    ensures 0 <= p < size
    ensures p == Min(f.Floor, size - 1) || p == f.Floor + 1
  {
    var drawn := f.Floor;
    if drawn >= size - 1 then size - 1
    else if f - drawn as real < 0.5 then drawn
    else drawn + 1
  }

  lemma PixelInvertsDrawing(b: Box, fx: real, fy: real, fw: u16, fh: u16, rotation: nat)
    requires b.w > 0.0 && b.h > 0.0 && fw > 0 && fh > 0
    requires 0.0 <= fx <= fw as real && 0.0 <= fy <= fh as real
    ensures PixelIn(b, DrawnIn(b, fx, fy, fw, fh, rotation), fw, fh, rotation) == (Reported(fx, fw), Reported(fy, fh))
  {
    var n := Point(fx / fw as real, fy / fh as real);
    Ratio(fx, fw as real);
    Ratio(fy, fh as real);
    TurningStaysInSquare(n, rotation);
    NormOfPlace(b, Turned(n, rotation));
    RotationUndoesTurning(n, rotation);
    PixelIsReported(fx, fw);
    PixelIsReported(fy, fh);
  }

  /**
   Touching the view where a frame position is drawn reports the pixel drawn there, or the
   next one when the touch falls in its second half: never further, for all four rotations.
   */
  lemma MapInvertsDrawing(b: Box, fx: real, fy: real, viewW: real, viewH: real, fw: u16, fh: u16, rotation: nat)
    requires Pictured(b, viewW, viewH, fw, fh, rotation)
    requires 0.0 <= fx <= fw as real && 0.0 <= fy <= fh as real
    ensures MapToDevice(DrawnIn(b, fx, fy, fw, fh, rotation), viewW, viewH, fw, fh, rotation)
         == Some((Reported(fx, fw), Reported(fy, fh)))
  {
    PicturedIs(b, viewW, viewH, fw, fh, rotation);
    PixelInvertsDrawing(b, fx, fy, fw, fh, rotation);
  }

  lemma Ratio(a: real, b: real)
    requires 0.0 <= a <= b && b > 0.0
    ensures 0.0 <= a / b <= 1.0 && a / b * b == a
  {
  }

  lemma NormOfPlace(b: Box, t: Point)
    requires b.w > 0.0 && b.h > 0.0 && 0.0 <= t.x <= 1.0 && 0.0 <= t.y <= 1.0
    ensures Norm(b, Place(b, t)) == t
  {
    NormOfPlaceAxis(t.x, b.x, b.w);
    NormOfPlaceAxis(t.y, b.y, b.h);
  }

  lemma NormOfPlaceAxis(t: real, o: real, w: real)
    requires w > 0.0 && 0.0 <= t <= 1.0
    ensures NormAxis(PlaceAxis(t, o, w), o, w) == t
  {
    var p := PlaceAxis(t, o, w);
    assert p - o == t * w;
    assert (p - o) / w == t;
  }

  lemma PixelIsReported(f: real, size: u16)
    requires size > 0 && 0.0 <= f <= size as real
    ensures Pixel(f / size as real, size) == Reported(f, size)
  {
    Ratio(f, size as real);
    PixelOf(f / size as real, f, size);
    RoundIsReported(f, size);
  }

  lemma PixelOf(n: real, f: real, size: u16)
    requires size > 0 && 0.0 <= n <= 1.0 && n * size as real == f
    ensures Pixel(n, size) == Max(0, Min(Round(f), size - 1))
  {
    hide Round;
  }

  lemma RoundIsReported(f: real, size: u16)
    requires size > 0 && 0.0 <= f <= size as real
    ensures Max(0, Min(Round(f), size - 1)) == Reported(f, size)
  {
    var d := f.Floor;
    assert d as real <= f < (d + 1) as real;
    if f - d as real < 0.5 {
      assert d as real <= f + 0.5 < (d + 1) as real;
    } else {
      assert (d + 1) as real <= f + 0.5 < (d + 2) as real;
    }
  }

  /** Every frame coordinate, drawn and touched, comes back as itself. */
  lemma FrameCoordinatesReturn(b: Box, x: int, y: int, viewW: real, viewH: real, fw: u16, fh: u16, rotation: nat)
    requires Pictured(b, viewW, viewH, fw, fh, rotation) && 0 <= x < fw && 0 <= y < fh
    ensures MapToDevice(DrawnIn(b, x as real, y as real, fw, fh, rotation), viewW, viewH, fw, fh, rotation)
         == Some((x, y))
  {
    MapInvertsDrawing(b, x as real, y as real, viewW, viewH, fw, fh, rotation);
    assert (x as real).Floor == x && (y as real).Floor == y;
  }

  /** The frame position drawn at a point of the picture. */
  function PositionIn(b: Box, css: Point, fw: u16, fh: u16, rotation: nat): Point
    requires b.w > 0.0 && b.h > 0.0
  {
    var f := ApplyRotation(Norm(b, css), rotation);
    Point(PlaceAxis(f.x, 0.0, fw as real), PlaceAxis(f.y, 0.0, fh as real))
  }

  predicate InBox(p: Point, b: Box) {
    b.x <= p.x <= b.x + b.w && b.y <= p.y <= b.y + b.h
  }

  lemma {:induction false} TurningUndoesRotation(p: Point, quarters: nat)
    ensures Turned(ApplyRotation(p, quarters), quarters) == p
    decreases quarters
  {
    if quarters > 0 {
      RotationsCompose(p, 1, quarters - 1);
      TurningUndoesRotation(ApplyRotation(p, 1), quarters - 1);
    }
  }

  /** Inside the picture every point shows a frame position, so the drawing covers the box. */
  lemma BoxIsCovered(b: Box, css: Point, fw: u16, fh: u16, rotation: nat)
    requires b.w > 0.0 && b.h > 0.0 && fw > 0 && fh > 0 && InBox(css, b)
    ensures var f := PositionIn(b, css, fw, fh, rotation);
            && 0.0 <= f.x <= fw as real && 0.0 <= f.y <= fh as real
            && DrawnIn(b, f.x, f.y, fw, fh, rotation) == css
  {
    var t := Norm(b, css);
    PlaceOfNormAxis(css.x, b.x, b.w);
    PlaceOfNormAxis(css.y, b.y, b.h);
    var n := ApplyRotation(t, rotation);
    TurningUndoesRotation(t, rotation);
    Scale(n.x, fw as real);
    Scale(n.y, fh as real);
    var f := PositionIn(b, css, fw, fh, rotation);
    assert Point(f.x / fw as real, f.y / fh as real) == n;
  }

  lemma PlaceOfNormAxis(r: real, o: real, w: real)
    requires w > 0.0 && o <= r <= o + w
    ensures PlaceAxis(NormAxis(r, o, w), o, w) == r
  {
    Ratio(r - o, w);
  }

  lemma Scale(n: real, s: real)
    requires 0.0 <= n <= 1.0 && s > 0.0
    ensures 0.0 <= PlaceAxis(n, 0.0, s) <= s && PlaceAxis(n, 0.0, s) / s == n
  {
  }

  /** Touching inside the picture reports the pixel drawn there, give or take the rounding. */
  lemma TouchReportsDrawnPixel(b: Box, css: Point, viewW: real, viewH: real, fw: u16, fh: u16, rotation: nat)
    requires Pictured(b, viewW, viewH, fw, fh, rotation) && InBox(css, b)
    ensures var f := PositionIn(b, css, fw, fh, rotation);
            && 0.0 <= f.x <= fw as real && 0.0 <= f.y <= fh as real
            && DrawnIn(b, f.x, f.y, fw, fh, rotation) == css
            && MapToDevice(css, viewW, viewH, fw, fh, rotation) == Some((Reported(f.x, fw), Reported(f.y, fh)))
  {
    BoxIsCovered(b, css, fw, fh, rotation);
    var f := PositionIn(b, css, fw, fh, rotation);
    MapInvertsDrawing(b, f.x, f.y, viewW, viewH, fw, fh, rotation);
  }

  function Nearest(r: real, lo: real, hi: real): real {
    if r < lo then lo else if r > hi then hi else r
  }

  /** A point in the black bars is not dropped: it counts as the nearest point of the picture. */
  lemma BarsClampToPicture(b: Box, css: Point, viewW: real, viewH: real, fw: u16, fh: u16, rotation: nat)
    requires Pictured(b, viewW, viewH, fw, fh, rotation)
    ensures var near := Point(Nearest(css.x, b.x, b.x + b.w), Nearest(css.y, b.y, b.y + b.h));
            InBox(near, b)
            && MapToDevice(css, viewW, viewH, fw, fh, rotation) == MapToDevice(near, viewW, viewH, fw, fh, rotation)
  {
    PicturedIs(b, viewW, viewH, fw, fh, rotation);
    ClampNearest(css.x, b.x, b.w);
    ClampNearest(css.y, b.y, b.h);
    assert Norm(b, css) == Norm(b, Point(Nearest(css.x, b.x, b.x + b.w), Nearest(css.y, b.y, b.y + b.h)));
  }

  lemma ClampNearest(r: real, o: real, w: real)
    requires w > 0.0
    ensures NormAxis(r, o, w) == NormAxis(Nearest(r, o, o + w), o, w)
  {
    if r < o {
      assert (r - o) / w < 0.0;
    } else if r > o + w {
      assert (r - o) / w > 1.0;
    }
  }

  // ---- The drawn quad

  datatype Vert = Vert(pos: Point, uv: Point)

  /** How much of the video region the picture fills, across and down. */
  function Fill(va: real, ia: real): (real, real)
    requires va > 0.0 && ia > 0.0
  {
    if va > ia then (ia / va, 1.0) else (1.0, va / ia)
  }

  function Corners(sx: real, sy: real, bottom: real): seq<Vert> {
    var top := 1.0;
    var midY := (top + bottom) * 0.5;
    var halfY := (top - bottom) * 0.5 * sy;
    var (y0, y1, x0, x1) := (midY - halfY, midY + halfY, -sx, sx);
    [Vert(Point(x0, y0), Point(0.0, 1.0)), Vert(Point(x0, y1), Point(0.0, 0.0)),
     Vert(Point(x1, y0), Point(1.0, 1.0)), Vert(Point(x1, y1), Point(1.0, 0.0))]
  }

  function Quad(texW: real, texH: real, viewW: real, viewH: real, toolbar: real, fullH: real): seq<Vert>
    requires viewW > 0.0 && (texH > 0.0 ==> texW > 0.0)
  {
    var videoH := RMax(viewH - toolbar, 1.0);
    var ia := if texH <= 0.0 then 1.0 else texW / texH;
    Quotient(viewW, videoH);
    var (sx, sy) := Fill(viewW / videoH, ia);
    Corners(sx, sy, -1.0 + 2.0 * (toolbar / RMax(fullH, 1.0)))
  }

  /** Normalised device coordinates to window pixels, y downwards. */
  function PixelX(x: real, winW: real): real { (x + 1.0) * 0.5 * winW }
  function PixelY(y: real, winH: real): real { (1.0 - y) * 0.5 * winH }

  /** Each corner of the quad shows the texture corner that `b` puts there. */
  predicate Draws(q: seq<Vert>, b: Box, winW: real, winH: real) {
    forall i :: 0 <= i < |q| ==>
      Point(PixelX(q[i].pos.x, winW), PixelY(q[i].pos.y, winH)) == Place(b, q[i].uv)
  }

  /** The filled part of the region is the letterbox of the same region. */
  lemma FillIsFrameBox(viewW: real, videoH: real, texW: real, texH: real)
    requires viewW > 0.0 && videoH > 0.0 && texW > 0.0 && texH > 0.0
    ensures viewW / videoH > 0.0 && texW / texH > 0.0
    ensures var (sx, sy) := Fill(viewW / videoH, texW / texH);
            var b := FrameBox(viewW, videoH, texW, texH);
            b.w == sx * viewW && b.h == sy * videoH
  {
    Quotient(viewW, videoH);
    Quotient(texW, texH);
    FillWide(viewW, videoH, viewW / videoH, texW / texH);
    FillTall(viewW, videoH, viewW / videoH, texW / texH);
  }

  lemma FillWide(viewW: real, videoH: real, va: real, ia: real)
    requires va > 0.0 && ia > 0.0 && va * videoH == viewW
    ensures ia / va * viewW == videoH * ia
  {
    Quotient(ia, va);
    Scaled(ia / va, va, videoH);
  }

  lemma FillTall(viewW: real, videoH: real, va: real, ia: real)
    requires viewW > 0.0 && va > 0.0 && ia > 0.0 && va * videoH == viewW
    ensures va / ia * videoH == viewW / ia
  {
    Quotient(viewW, ia);
    Quotient(va, ia);
    Scaled(ia, va / ia, videoH);
    Cancel(ia, va / ia * videoH, viewW / ia);
  }

  lemma Cancel(a: real, x: real, y: real)
    requires a > 0.0 && a * x == a * y
    ensures x == y
  {
  }

  lemma CornersDraw(sx: real, sy: real, bottom: real, b: Box, viewW: real, winH: real, s: real)
    requires winH > 0.0 && (bottom + 1.0) * winH == 2.0 * (winH - s)
    requires b.w == sx * viewW && b.x + b.w + b.x == viewW
    ensures Draws(Corners(sx, sy, bottom), b, viewW, winH)
       <==> b.h == sy * s && b.y + b.h + b.y == s
  {
    var midY, halfY := (1.0 + bottom) * 0.5, (1.0 - bottom) * 0.5 * sy;
    CornerX(sx, b, viewW);
    CornerY(sy, bottom, winH, s);
    var q := Corners(sx, sy, bottom);
    var (l, r, t, m) := (PixelX(-sx, viewW), PixelX(sx, viewW), PixelY(midY + halfY, winH), PixelY(midY - halfY, winH));
    assert Draws(q, b, viewW, winH) <==> t == b.y && m == b.y + b.h by {
      UnitPlaces(b);
      assert q[0].pos == Point(-sx, midY - halfY) && q[1].pos == Point(-sx, midY + halfY);
      assert q[2].pos == Point(sx, midY - halfY) && q[3].pos == Point(sx, midY + halfY);
    }
  }

  lemma UnitPlaces(b: Box)
    ensures Place(b, Point(0.0, 0.0)) == Point(b.x, b.y)
    ensures Place(b, Point(1.0, 0.0)) == Point(b.x + b.w, b.y)
    ensures Place(b, Point(0.0, 1.0)) == Point(b.x, b.y + b.h)
    ensures Place(b, Point(1.0, 1.0)) == Point(b.x + b.w, b.y + b.h)
  {
  }

  lemma CornerX(sx: real, b: Box, viewW: real)
    requires b.w == sx * viewW && b.x + b.w + b.x == viewW
    ensures PixelX(-sx, viewW) == b.x && PixelX(sx, viewW) == b.x + b.w
  {
  }

  lemma CornerY(sy: real, bottom: real, winH: real, s: real)
    requires (bottom + 1.0) * winH == 2.0 * (winH - s)
    ensures var midY, halfY := (1.0 + bottom) * 0.5, (1.0 - bottom) * 0.5 * sy;
            && PixelY(midY - halfY, winH) == s * 0.5 + 0.5 * (sy * s)
            && PixelY(midY + halfY, winH) == s * 0.5 - 0.5 * (sy * s)
  {
    var k := (1.0 - bottom) * winH;
    assert k == 2.0 * s;
    assert (1.0 - bottom) * 0.5 * sy * 0.5 * winH == k * sy * 0.25;
    assert (1.0 - (1.0 + bottom) * 0.5) * 0.5 * winH == k * 0.25;
  }

  lemma Rearranged(bottom: real, toolbar: real, winH: real)
    requires winH > 0.0 && bottom == -1.0 + 2.0 * (toolbar / winH)
    ensures (bottom + 1.0) * winH == 2.0 * (winH - (winH - toolbar))
  {
    assert toolbar / winH * winH == toolbar;
  }

  /** The corners draw the box of the region touches use when that region is all of `s`. */
  lemma CornersDrawRegion(sx: real, sy: real, bottom: real, b: Box, viewW: real, winH: real, s: real)
    requires winH > 0.0 && (bottom + 1.0) * winH == 2.0 * (winH - s)
    requires b.w == sx * viewW && b.x + b.w + b.x == viewW
    requires b.h == sy * RMax(s, 1.0) && b.y + b.h + b.y == RMax(s, 1.0)
    ensures Draws(Corners(sx, sy, bottom), b, viewW, winH) <==> s >= 1.0
  {
    CornersDraw(sx, sy, bottom, b, viewW, winH, s);
    hide Draws, Corners;
  }

  lemma QuadIsCorners(texW: real, texH: real, viewW: real, winH: real, toolbar: real)
    requires texW > 0.0 && texH > 0.0 && viewW > 0.0 && winH >= 1.0
    ensures var videoH := RMax(winH - toolbar, 1.0);
            && viewW / videoH > 0.0 && texW / texH > 0.0
            && var (sx, sy) := Fill(viewW / videoH, texW / texH);
               Quad(texW, texH, viewW, winH, toolbar, winH) == Corners(sx, sy, -1.0 + 2.0 * (toolbar / winH))
  {
    Quotient(viewW, RMax(winH - toolbar, 1.0));
    Quotient(texW, texH);
    hide Fill, Corners;
  }

  /**
   The drawn picture is the picture touches are mapped with, in window pixels, corner by
   corner, exactly when the window leaves the video at least one pixel of height.
   */
  lemma QuadMatchesTouch(texW: real, texH: real, viewW: real, winH: real, toolbar: real)
    requires texW > 0.0 && texH > 0.0 && viewW > 0.0 && winH >= 1.0
    ensures Draws(Quad(texW, texH, viewW, winH, toolbar, winH),
                  FrameBox(viewW, RMax(winH - toolbar, 1.0), texW, texH), viewW, winH)
       <==> winH - toolbar >= 1.0
  {
    hide FrameBox, Draws, Corners, Fill, RMax, Quad;
    QuadIsCorners(texW, texH, viewW, winH, toolbar);
    var videoH := RMax(winH - toolbar, 1.0);
    FillIsFrameBox(viewW, videoH, texW, texH);
    var (sx, sy) := Fill(viewW / videoH, texW / texH);
    var bottom := -1.0 + 2.0 * (toolbar / winH);
    Rearranged(bottom, toolbar, winH);
    CornersDrawRegion(sx, sy, bottom, FrameBox(viewW, videoH, texW, texH), viewW, winH, winH - toolbar);
  }

  /** Before there is a texture the quad is that of a square one. */
  lemma QuadWithoutTexture(texW: real, texH: real, viewW: real, viewH: real, toolbar: real, fullH: real)
    requires viewW > 0.0 && texH <= 0.0
    ensures Quad(texW, texH, viewW, viewH, toolbar, fullH) == Quad(1.0, 1.0, viewW, viewH, toolbar, fullH)
  {
    hide Corners, Fill, RMax;
  }

  // ---- Touching what is drawn

  function Share(w: real, x: real): real {
    w * x
  }

  /** A point between four others, by weights: how a drawn surface is filled in. */
  function Mix(w: seq<real>, p: seq<Point>): Point
    requires |w| == 4 && |p| == 4
  {
    Point(Share(w[0], p[0].x) + Share(w[1], p[1].x) + Share(w[2], p[2].x) + Share(w[3], p[3].x),
          Share(w[0], p[0].y) + Share(w[1], p[1].y) + Share(w[2], p[2].y) + Share(w[3], p[3].y))
  }

  predicate Weights(w: seq<real>) {
    |w| == 4 && (forall i :: 0 <= i < 4 ==> w[i] >= 0.0) && w[0] + w[1] + w[2] + w[3] == 1.0
  }

  function WindowPoint(p: Point, winW: real, winH: real): Point {
    Point(PixelX(p.x, winW), PixelY(p.y, winH))
  }

  function WindowPoints(q: seq<Vert>, winW: real, winH: real): (p: seq<Point>)
    requires |q| == 4
    ensures |p| == 4
  {
    [WindowPoint(q[0].pos, winW, winH), WindowPoint(q[1].pos, winW, winH), WindowPoint(q[2].pos, winW, winH),
     WindowPoint(q[3].pos, winW, winH)]
  }

  function TexturePoints(q: seq<Vert>): (p: seq<Point>)
    requires |q| == 4
    ensures |p| == 4
  {
    [q[0].uv, q[1].uv, q[2].uv, q[3].uv]
  }

  lemma MixIsPlaced(b: Box, w: seq<real>, t: seq<Point>, p: seq<Point>)
    requires Weights(w) && |t| == 4 && |p| == 4 && forall i :: 0 <= i < 4 ==> p[i] == Place(b, t[i])
    ensures Mix(w, p) == Place(b, Mix(w, t))
  {
    MixAxis(w, t[0].x, t[1].x, t[2].x, t[3].x, b.x, b.w);
    MixAxis(w, t[0].y, t[1].y, t[2].y, t[3].y, b.y, b.h);
  }

  lemma MixAxis(w: seq<real>, t0: real, t1: real, t2: real, t3: real, o: real, s: real)
    requires Weights(w)
    ensures Share(w[0], PlaceAxis(t0, o, s)) + Share(w[1], PlaceAxis(t1, o, s))
            + Share(w[2], PlaceAxis(t2, o, s)) + Share(w[3], PlaceAxis(t3, o, s))
         == PlaceAxis(Share(w[0], t0) + Share(w[1], t1) + Share(w[2], t2) + Share(w[3], t3), o, s)
  {
    var (a, b, c, d) := (w[0], w[1], w[2], w[3]);
    Term(a, t0, o, s);
    Term(b, t1, o, s);
    Term(c, t2, o, s);
    Term(d, t3, o, s);
    hide Share;
    FourTimes(a, b, c, d, o);
    FourTimes(Share(a, t0), Share(b, t1), Share(c, t2), Share(d, t3), s);
  }

  lemma FourTimes(p: real, q: real, r: real, t: real, s: real)
    ensures p * s + q * s + r * s + t * s == (p + q + r + t) * s
  {
  }

  lemma Term(a: real, t: real, o: real, s: real)
    ensures Share(a, PlaceAxis(t, o, s)) == a * o + Share(a, t) * s
  {
  }

  predicate InUnit(uv: Point) {
    0.0 <= uv.x <= 1.0 && 0.0 <= uv.y <= 1.0
  }

  /** The pixel of the frame at a texture coordinate, rounded as a touch is. */
  function PixelShown(uv: Point, fw: u16, fh: u16): (i32, i32)
    requires InUnit(uv) && fw > 0 && fh > 0
  {
    Scale(uv.x, fw as real);
    Scale(uv.y, fh as real);
    hide PlaceAxis;
    (Reported(PlaceAxis(uv.x, 0.0, fw as real), fw), Reported(PlaceAxis(uv.y, 0.0, fh as real), fh))
  }

  lemma DrawnUnturned(b: Box, uv: Point, fw: u16, fh: u16)
    requires InUnit(uv) && fw > 0 && fh > 0
    ensures DrawnIn(b, PlaceAxis(uv.x, 0.0, fw as real), PlaceAxis(uv.y, 0.0, fh as real), fw, fh, 0) == Place(b, uv)
  {
    hide PlaceAxis, Place;
    Scale(uv.x, fw as real);
    Scale(uv.y, fh as real);
  }

  lemma TouchHitsBox(b: Box, css: Point, uv: Point, viewW: real, viewH: real, fw: u16, fh: u16)
    requires Pictured(b, viewW, viewH, fw, fh, 0) && InUnit(uv) && css == Place(b, uv)
    ensures MapToDevice(css, viewW, viewH, fw, fh, 0) == Some(PixelShown(uv, fw, fh))
  {
    assert fw > 0 && fh > 0;
    hide MapToDevice, Pictured, PlaceAxis, Reported, DrawnIn, Place;
    DrawnUnturned(b, uv, fw, fh);
    Scale(uv.x, fw as real);
    Scale(uv.y, fh as real);
    MapInvertsDrawing(b, PlaceAxis(uv.x, 0.0, fw as real), PlaceAxis(uv.y, 0.0, fh as real), viewW, viewH, fw, fh, 0);
  }

  /**
   Without a rotation, touching the window where the quad shows a texture coordinate reports the
   pixel of the frame that is there.
   */
  lemma TouchHitsTexture(q: seq<Vert>, fw: u16, fh: u16, viewW: real, winH: real, toolbar: real, w: seq<real>)
    requires fw > 0 && fh > 0 && viewW > 0.0 && winH >= 1.0 && winH - toolbar >= 1.0 && Weights(w)
    requires q == Quad(fw as real, fh as real, viewW, winH, toolbar, winH) && |q| == 4
    ensures var css, uv := Mix(w, WindowPoints(q, viewW, winH)), Mix(w, TexturePoints(q));
            InUnit(uv) && MapToDevice(css, viewW, winH - toolbar, fw, fh, 0) == Some(PixelShown(uv, fw, fh))
  {
    hide Quad, FrameBox, MapToDevice, Undistorted, RMax, PixelShown;
    var b := FrameBox(viewW, winH - toolbar, fw as real, fh as real);
    assert RMax(winH - toolbar, 1.0) == winH - toolbar;
    QuadMatchesTouch(fw as real, fh as real, viewW, winH, toolbar);
    TextureCorners(fw as real, fh as real, viewW, winH, toolbar);
    var uv := Mix(w, TexturePoints(q));
    WithinOne(w, uv, q);
    MixIsPlaced(b, w, TexturePoints(q), WindowPoints(q, viewW, winH));
    UndistortedIs(b, fw, fh, 0);
    hide Mix, Place, Weights;
    TouchHitsBox(b, Mix(w, WindowPoints(q, viewW, winH)), uv, viewW, winH - toolbar, fw, fh);
  }

  predicate CornersOfUnit(q: seq<Vert>) {
    |q| == 4 && forall i :: 0 <= i < 4 ==> 0.0 <= q[i].uv.x <= 1.0 && 0.0 <= q[i].uv.y <= 1.0
  }

  lemma TextureCorners(texW: real, texH: real, viewW: real, winH: real, toolbar: real)
    requires texW > 0.0 && texH > 0.0 && viewW > 0.0
    ensures CornersOfUnit(Quad(texW, texH, viewW, winH, toolbar, winH))
  {
    hide Fill, RMax;
  }

  lemma WithinOne(w: seq<real>, uv: Point, q: seq<Vert>)
    requires Weights(w) && CornersOfUnit(q) && uv == Mix(w, TexturePoints(q))
    ensures 0.0 <= uv.x <= 1.0 && 0.0 <= uv.y <= 1.0
  {
    Weighted(w, q[0].uv.x, q[1].uv.x, q[2].uv.x, q[3].uv.x);
    Weighted(w, q[0].uv.y, q[1].uv.y, q[2].uv.y, q[3].uv.y);
  }

  lemma Weighted(w: seq<real>, t0: real, t1: real, t2: real, t3: real)
    requires Weights(w) && 0.0 <= t0 <= 1.0 && 0.0 <= t1 <= 1.0 && 0.0 <= t2 <= 1.0 && 0.0 <= t3 <= 1.0
    ensures 0.0 <= Share(w[0], t0) + Share(w[1], t1) + Share(w[2], t2) + Share(w[3], t3) <= 1.0
  {
    hide Share;
    Part(w[0], t0);
    Part(w[1], t1);
    Part(w[2], t2);
    Part(w[3], t3);
  }

  lemma Part(a: real, t: real)
    requires a >= 0.0 && 0.0 <= t <= 1.0
    ensures 0.0 <= Share(a, t) <= a
  {
  }
}
