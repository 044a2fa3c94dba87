/**
 * Model of freetype/truetype/glyph.go, the later GlyphBuf: glyph points are
 * int32 and scaled to 26.6 units as they are loaded, every simple glyph
 * gets four phantom points (its horizontal and vertical metrics) while it
 * is scaled, compound components may carry an F2Dot14 transform, and a
 * component's error is returned. The model follows the path without a
 * Hinter.
 *
 * The font's scale function and its unscaled metrics are not part of this
 * file; they are the fields scale, hmetric and vmetric of GlyphFont.
 */
module TrueTypeGlyph {
  import opened Ints
  import opened TrueTypeFont
  import Outline = TrueTypeOutline

  /** A point in 26.6 units; bit 0 of flags says whether it is on the curve. */
  datatype Point = Point(x: int32, y: int32, flags: uint32)

  datatype Bounds = Bounds(xMin: int32, yMin: int32, xMax: int32, yMax: int32)

  /** A glyph's unscaled horizontal metrics. */
  datatype HMetric = HMetric(advanceWidth: int32, leftSideBearing: int32)

  /** A glyph's unscaled vertical metrics. */
  datatype VMetric = VMetric(advanceHeight: int32, topSideBearing: int32)

  /**
   * What the loader reads from a Font: loca, glyf and loca's format, the
   * font's scale of a value in font units times the scale (rounded to
   * units per em), and its unscaled metrics of glyph i.
   */
  datatype GlyphFont = GlyphFont(
    loca: seq<byte>, format: int, glyf: seq<byte>,
    scale: int32 -> int32,
    hmetric: uint16 -> HMetric,
    vmetric: (uint16, int32) -> VMetric)

  function TablesOf(font: GlyphFont): Outline.GlyphTables
  {
    Outline.GlyphTables(font.loca, font.format, font.glyf)
  }

  const RecursionLimit: nat := 32

  // Flags of a compound glyph's components.
  const FlagArgsAreXYValues: nat := 0x0002
  const FlagRoundXYToGrid: nat := 0x0004
  const FlagWeHaveAScale: nat := 0x0008
  const FlagMoreComponents: nat := 0x0020
  const FlagWeHaveAnXAndYScale: nat := 0x0040
  const FlagWeHaveATwoByTwo: nat := 0x0080
  const FlagUseMyMetrics: nat := 0x0200

  // ---------------------------------------------------------------------------
  // Fixed-point helpers
  // ---------------------------------------------------------------------------

  /** A value in font units times the 26.6 scale, as the font scales it. */
  function Scaled(font: GlyphFont, gscale: int32, v: int32): int32
  {
    font.scale(Int32(gscale * v))
  }

  /** Go's (v + 32) &^ 63 on int32: v rounded to the nearest multiple of 64, halves up. */
  function RoundToGrid(v: int32): (r: int32)
    ensures r % 64 == 0
    ensures -0x8000_0000 <= v < 0x7fff_ffe0 ==> v - 32 < r <= v + 32
  {
    FloorTo(Int32(v + 32), 64)
  }

  function ScalePoint(font: GlyphFont, gscale: int32, p: Point): Point
  {
    Point(Scaled(font, gscale, p.x), Scaled(font, gscale, p.y), p.flags)
  }

  function ScaleBounds(font: GlyphFont, gscale: int32, b: Bounds): Bounds
  {
    Bounds.Bounds(Scaled(font, gscale, b.xMin), Scaled(font, gscale, b.yMin), Scaled(font, gscale, b.xMax), Scaled(font, gscale, b.yMax))
  }

  /** An F2Dot14 product: (v*t + 2^13) >> 14 in 64 bits, then truncated to int32. */
  function F2Dot14Mul(v: int32, t: int32): int32
  {
    Int32((v * t + 0x2000) / 0x4000)
  }

  /** A 2x2 transform in F2Dot14: x' = x*t0 + y*t2, y' = x*t1 + y*t3. */
  datatype Transform = Transform(t0: int32, t1: int32, t2: int32, t3: int32)

  const Identity: Transform := Transform(0x4000, 0, 0, 0x4000)

  function TransformPoint(p: Point, t: Transform): Point
  {
    Point(Int32(F2Dot14Mul(p.x, t.t0) + F2Dot14Mul(p.y, t.t2)),
          Int32(F2Dot14Mul(p.x, t.t1) + F2Dot14Mul(p.y, t.t3)), p.flags)
  }

  /** Multiplying by 1.0 (0x4000) keeps a value; multiplying by 0 gives 0. */
  lemma F2Dot14Unit(v: int32)
    ensures F2Dot14Mul(v, 0x4000) == v && F2Dot14Mul(v, 0) == 0
  {
    assert (v * 0x4000 + 0x2000) / 0x4000 == v;
  }

  /** The identity transform leaves every point unchanged. */
  lemma IdentityKeepsPoints(p: Point)
    ensures TransformPoint(p, Identity) == p
  {
    F2Dot14Unit(p.x);
    F2Dot14Unit(p.y);
  }

  /** The points from np0 on, transformed; those before are kept. */
  function TransformFrom(ps: seq<Point>, np0: nat, t: Transform): (r: seq<Point>)
    ensures |r| == |ps|
    ensures np0 <= |ps| ==> r[..np0] == ps[..np0]
  {
    seq(|ps|, k requires 0 <= k < |ps| => if k < np0 then ps[k] else TransformPoint(ps[k], t))
  }

  /** The points from np0 on, moved by (dx, dy) with int32 wrap-around; those before are kept. */
  function TranslateFrom(ps: seq<Point>, np0: nat, dx: int32, dy: int32): (r: seq<Point>)
    ensures |r| == |ps|
    ensures np0 <= |ps| ==> r[..np0] == ps[..np0]
    ensures forall k :: np0 <= k < |ps| ==> r[k].flags == ps[k].flags
  {
    seq(|ps|, k requires 0 <= k < |ps| => if k < np0 then ps[k] else Point(Int32(ps[k].x + dx), Int32(ps[k].y + dy), ps[k].flags))
  }

  // ---------------------------------------------------------------------------
  // Phantom points
  // ---------------------------------------------------------------------------

  /**
   * The four phantom points of a glyph, in font units: the left side bearing
   * point, the advance point, and the top and bottom of the vertical advance.
   */
  function Phantoms(b: Bounds, uhm: HMetric, uvm: VMetric): (r: seq<Point>)
    ensures |r| == 4
  {
    var left := Int32(b.xMin - uhm.leftSideBearing);
    var top := Int32(b.yMax + uvm.topSideBearing);
    [Point(left, 0, 0), Point(Int32(left + uhm.advanceWidth), 0, 0),
     Point(Quot(uhm.advanceWidth, 2), top, 0), Point(Quot(uhm.advanceWidth, 2), Int32(top - uvm.advanceHeight), 0)]
  }

  /**
   * addPhantomsAndScale without a Hinter: the phantoms appended, every point
   * from np0 on scaled, then the advance phantom's x and the bottom phantom's
   * y rounded to the grid.
   */
  function WithPhantoms(font: GlyphFont, gscale: int32, ps: seq<Point>, np0: nat, b: Bounds, uhm: HMetric, uvm: VMetric): (r: seq<Point>)
    requires np0 <= |ps|
    ensures |r| == |ps| + 4 && r[..np0] == ps[..np0]
    ensures r[|r| - 3].x % 64 == 0 && r[|r| - 1].y % 64 == 0
  {
    var all := ps + Phantoms(b, uhm, uvm);
    var scaled := seq(|all|, k requires 0 <= k < |all| => if k < np0 then all[k] else ScalePoint(font, gscale, all[k]));
    var n := |scaled|;
    scaled[n - 3 := scaled[n - 3].(x := RoundToGrid(scaled[n - 3].x))][n - 1 := scaled[n - 1].(y := RoundToGrid(scaled[n - 1].y))]
  }

  // ---------------------------------------------------------------------------
  // A simple glyph
  // ---------------------------------------------------------------------------

  /** The new contour ends (relative to the glyph), its instructions and its decoded points, in font units. */
  datatype SimpleGlyph = SimpleGlyph(ends: seq<int>, program: seq<byte>, points: seq<Point>) | SimplePanic

  /** Decoded points, their int16 coordinates and byte flags widened to a GlyphBuf's types. */
  function WidenAll(ps: seq<Outline.Point>): (r: seq<Point>)
    ensures |r| == |ps|
    ensures forall k :: 0 <= k < |ps| ==> r[k] == Point(ps[k].x, ps[k].y, ps[k].flags)
  {
    seq(|ps|, k requires 0 <= k < |ps| => Point(ps[k].x, ps[k].y, ps[k].flags))
  }

  /**
   * The number of points a simple glyph's new contours hold: its last end
   * point plus one, and none when it has no contours.
   */
  function NewPointCount(rel: seq<int>): int
  {
    if rel == [] then 0 else rel[|rel| - 1]
  }

  /**
   * loadSimple as written takes the count from the buffer's last end
   * whatever glyph it belongs to: with no new contours, an end of an
   * earlier glyph, already offset by where that glyph started, or a panic
   * when there is none.
   */
  function NewPointCountAsWritten(ends0: seq<int>, rel: seq<int>): Option<int>
  {
    var all := ends0 + rel;
    if all == [] then None else Some(all[|all| - 1])
  }

  /** With new contours the two counts agree. */
  lemma PointCountsAgree(ends0: seq<int>, rel: seq<int>)
    requires rel != []
    ensures NewPointCountAsWritten(ends0, rel) == Some(NewPointCount(rel))
  {
  }

  /**
   * A glyph without contours loaded after a component of 3 points is told
   * to decode 3 more; loaded first, it panics.
   */
  lemma ZeroContoursAsWritten()
    ensures NewPointCountAsWritten([3], []) == Some(3) && NewPointCount([]) == 0
    ensures NewPointCountAsWritten([], []) == None
  {
  }

  /**
   * The flags of n points as glyph.go's loop appends them: a repeat run is
   * appended whole, even past the n-th point.
   */
  function ExpandFlagsAsWritten(d: seq<byte>, n: int): (r: Outline.FlagRun)
    ensures r.FlagRun? ==> |r.flags| >= n
    decreases if n < 0 then 0 else n
  {
    if n <= 0 then Outline.FlagRun([], d)
    else if |d| < 1 then Outline.FlagPanic
    else
      var c := d[0];
      if !HasBit(c, Outline.FlagRepeat) then Outline.PrependFlags([c], ExpandFlagsAsWritten(d[1..], n - 1))
      else if |d| < 2 then Outline.FlagPanic
      else Outline.PrependFlags(seq(d[1] + 1, _ => c), ExpandFlagsAsWritten(d[2..], n - 1 - d[1]))
  }

  /**
   * One point whose flag repeats twice more yields three flags, and so
   * three points, two of them outside every contour; the earlier decoder
   * stops there with a panic.
   */
  lemma RepeatRunOvershoots()
    ensures |ExpandFlagsAsWritten([0x09, 0x02], 1).flags| == 3
    ensures Outline.ExpandFlags([0x09, 0x02], 1) == Outline.FlagPanic
  {
    assert ExpandFlagsAsWritten([0x09, 0x02][2..], 1 - 1 - 2) == Outline.FlagRun([], []);
  }

  /** The contour ends of a simple glyph relative to the glyph: each stored end point + 1. */
  function SimpleEndsSpec(body: seq<byte>, ne: nat): (r: seq<int>)
    requires |body| >= 2 * ne
    ensures |r| == ne && forall k :: 0 <= k < ne ==> r[k] == 1 + BE16(body, 2 * k)
  {
    seq(ne, k requires 0 <= k < ne => 1 + BE16(body, 2 * k))
  }

  /**
   * loadSimple: ne contour ends (stored end point + 1), the instruction
   * bytes, then the flags and coordinates of the points, decoded as by the
   * earlier decoder and widened to int32.
   */
  function SimpleSpec(body: seq<byte>, ne: nat): (r: SimpleGlyph)
    ensures r.SimpleGlyph? ==> |r.ends| == ne && |r.points| == NewPointCount(r.ends)
    ensures r.SimpleGlyph? ==> |body| >= 2 * ne + 2 + |r.program| && r.program == body[2 * ne + 2..2 * ne + 2 + |r.program|]
    ensures r.SimpleGlyph? ==> forall k :: 0 <= k < ne ==> r.ends[k] == 1 + BE16(body, 2 * k)
    ensures r.SimpleGlyph? ==> |r.program| == BE16(body, 2 * ne)
  {
    if |body| < 2 * ne + 2 then SimplePanic
    else
      var rel := SimpleEndsSpec(body, ne);
      var start := 2 * ne + 2;
      var instrLen := BE16(body, 2 * ne);
      if |body| < start + instrLen then SimplePanic
      else
        match Outline.PointsFrom(body[start + instrLen..], NewPointCount(rel))
        case None => SimplePanic
        case Some(ps) => SimpleGlyph(rel, body[start..start + instrLen], WidenAll(ps))
  }

  // ---------------------------------------------------------------------------
  // Loading, as a function of the buffer
  // ---------------------------------------------------------------------------

  /** A GlyphBuf's state: bounds, points, contour ends, the first phantom's x and whether metrics are set. */
  datatype Buf = Buf(b: Bounds, points: seq<Point>, ends: seq<int>, pp1x: int32, metricsSet: bool)

  const EmptyBuf: Buf := Buf(Bounds.Bounds(0, 0, 0, 0), [], [], 0, false)

  datatype Loaded = Loaded(buf: Buf, err: Option<Error>)

  predicate ValidBuf(g: Buf)
  {
    (g.ends == [] ==> g.points == []) && (g.ends != [] ==> g.ends[|g.ends| - 1] == |g.points|)
  }

  function WidenBounds(b: TrueTypeFont.Bounds): Bounds
  {
    Bounds.Bounds(b.xMin, b.yMin, b.xMax, b.yMax)
  }

  /** The first glyph asked to use its metrics sets the bounds and the first phantom's x; later ones do not. */
  function SetMetrics(font: GlyphFont, gscale: int32, g: Buf, useMyMetrics: bool, b: Bounds, pp1x: int32): (r: Buf)
    ensures r.points == g.points && r.ends == g.ends
    ensures g.metricsSet ==> r == g
  {
    if useMyMetrics && !g.metricsSet then g.(metricsSet := true, b := ScaleBounds(font, gscale, b), pp1x := pp1x)
    else g
  }

  /** The contour ends moved on by np0, the number of points before the glyph. */
  function ShiftEnds(rel: seq<int>, np0: nat): (r: seq<int>)
    ensures |r| == |rel|
  {
    seq(|rel|, k requires 0 <= k < |rel| => rel[k] + np0)
  }

  /**
   * A simple glyph appended: its points and phantoms scaled, the phantoms
   * dropped again, its ends offset by np0, then its metrics set when asked
   * for and not set yet.
   */
  function AppendSimple(font: GlyphFont, gscale: int32, g: Buf, i: uint16, useMyMetrics: bool, b: Bounds, s: SimpleGlyph): (r: Buf)
    requires s.SimpleGlyph? && |s.points| == NewPointCount(s.ends)
    ensures |r.points| == |g.points| + |s.points| && g.points <= r.points
    ensures r.ends == g.ends + ShiftEnds(s.ends, |g.points|) && g.ends <= r.ends
    ensures ValidBuf(g) ==> ValidBuf(r)
    ensures g.metricsSet ==> r.metricsSet && r.b == g.b && r.pp1x == g.pp1x
  {
    var np0 := |g.points|;
    var all := WithPhantoms(font, gscale, g.points + s.points, np0, b, font.hmetric(i), font.vmetric(i, b.yMax));
    assert (g.points + s.points)[..np0] == g.points;
    assert all[..|all| - 4][..np0] == g.points;
    SetMetrics(font, gscale, g.(points := all[..|all| - 4], ends := g.ends + ShiftEnds(s.ends, np0)), useMyMetrics, b, all[|all| - 4].x)
  }

  /** A simple glyph loaded: appended when it decodes, a panic otherwise. */
  function SimpleLoaded(font: GlyphFont, gscale: int32, g: Buf, i: uint16, useMyMetrics: bool, b: Bounds, body: seq<byte>, ne: nat): (r: Loaded)
    ensures r.err.None? <==> SimpleSpec(body, ne).SimpleGlyph?
    ensures r.err.Some? ==> r == Loaded(g, Some(OutOfRange))
    ensures g.points <= r.buf.points && g.ends <= r.buf.ends
    ensures ValidBuf(g) ==> ValidBuf(r.buf)
    ensures g.metricsSet ==> r.buf.metricsSet && r.buf.b == g.b && r.buf.pp1x == g.pp1x
  {
    var s := SimpleSpec(body, ne);
    if s.SimplePanic? then Loaded(g, Some(OutOfRange))
    else Loaded(AppendSimple(font, gscale, g, i, useMyMetrics, b, s), None)
  }

  /**
   * load: glyph i appended to g at the given compound nesting depth; the
   * nesting is cut off at depth 32.
   */
  function LoadSpec(font: GlyphFont, gscale: int32, recursion: nat, i: uint16, useMyMetrics: bool, g: Buf): (r: Loaded)
    decreases RecursionLimit - recursion, 1, 2
  {
    if recursion >= RecursionLimit then Loaded(g, Some(UnsupportedError("excessive compound glyph recursion")))
    else
      match Outline.Classify(TablesOf(font), i)
      case NoGlyph => Loaded(g, None)
      case Unreadable => Loaded(g, Some(OutOfRange))
      case Reserved(_) => Loaded(g, Some(UnsupportedError("negative number of contours")))
      case Simple(b16, body, ne) => SimpleLoaded(font, gscale, g, i, useMyMetrics, WidenBounds(b16), body, ne)
      case Compound(b16, body) => CompoundLoaded(font, gscale, recursion, i, useMyMetrics, WidenBounds(b16), body, g)
  }

  /**
   * A compound glyph loaded: its components, then its own metrics when
   * asked for and not set yet, the first phantom's x being its scaled
   * xMin - lsb.
   */
  function CompoundLoaded(font: GlyphFont, gscale: int32, recursion: nat, i: uint16, useMyMetrics: bool, b: Bounds, body: seq<byte>, g: Buf): (r: Loaded)
    requires recursion < RecursionLimit
    decreases RecursionLimit - recursion, 1, 1
  {
    var r := CompoundSpec(font, gscale, recursion, useMyMetrics, body, g);
    if r.err.Some? then r else Loaded(SetMetrics(font, gscale, r.buf, useMyMetrics, b, FirstPhantomX(font, gscale, i, b)), None)
  }

  /** The first phantom point's x of glyph i: its scaled xMin - lsb. */
  function FirstPhantomX(font: GlyphFont, gscale: int32, i: uint16, b: Bounds): int32
  {
    Scaled(font, gscale, Int32(b.xMin - font.hmetric(i).leftSideBearing))
  }

  /** A component's optional transform and the data after it, or a read past the data. */
  datatype TransformRead = TransformRead(t: Option<Transform>, rest: seq<byte>) | TransformPanic

  /** The transform after a component's offset: one scale, separate x and y scales, or a 2x2 matrix, in that order of precedence. */
  function ReadTransformSpec(flags: uint16, d: seq<byte>): (r: TransformRead)
    ensures r.TransformRead? && r.t.Some? && HasBit(flags, FlagWeHaveAScale) ==> r.t.value.t0 == r.t.value.t3
    ensures r.TransformRead? ==> (r.t.Some? <==> Scaling(flags)) && |r.rest| <= |d|
  {
    if HasBit(flags, FlagWeHaveAScale) then
      if |d| < 2 then TransformPanic
      else var s := Int16(BE16(d, 0)); TransformRead(Some(Transform(s, 0, 0, s)), d[2..])
    else if HasBit(flags, FlagWeHaveAnXAndYScale) then
      if |d| < 4 then TransformPanic
      else TransformRead(Some(Transform(Int16(BE16(d, 0)), 0, 0, Int16(BE16(d, 2)))), d[4..])
    else if HasBit(flags, FlagWeHaveATwoByTwo) then
      if |d| < 8 then TransformPanic
      else TransformRead(Some(Transform(Int16(BE16(d, 0)), Int16(BE16(d, 2)), Int16(BE16(d, 4)), Int16(BE16(d, 6)))), d[8..])
    else TransformRead(None, d)
  }

  predicate Scaling(flags: uint16)
  {
    HasBit(flags, FlagWeHaveAScale) || HasBit(flags, FlagWeHaveAnXAndYScale) || HasBit(flags, FlagWeHaveATwoByTwo)
  }

  /** A component's offset in 26.6 units: scaled, then rounded to the grid when the component asks. */
  function ComponentOffset(font: GlyphFont, gscale: int32, flags: uint16, v: int32): (r: int32)
    ensures HasBit(flags, FlagRoundXYToGrid) ==> r % 64 == 0
  {
    var s := Scaled(font, gscale, v);
    if HasBit(flags, FlagRoundXYToGrid) then RoundToGrid(s) else s
  }

  /** The points a component appended after np0, transformed and then moved by its offset. */
  function PlaceComponent(font: GlyphFont, gscale: int32, ps: seq<Point>, np0: nat, c: Outline.Component, t: Option<Transform>): (r: seq<Point>)
    requires c.Component?
    ensures |r| == |ps| && (np0 <= |ps| ==> r[..np0] == ps[..np0])
  {
    var transformed := if t.Some? then TransformFrom(ps, np0, t.value) else ps;
    TranslateFrom(transformed, np0, ComponentOffset(font, gscale, c.flags, c.dx), ComponentOffset(font, gscale, c.flags, c.dy))
  }

  /** The buffer after a component loaded at np0 is placed; only the component's points change. */
  function PlaceSub(font: GlyphFont, gscale: int32, np0: nat, sub: Buf, c: Outline.Component, t: Option<Transform>): (r: Buf)
    requires c.Component?
    ensures r.ends == sub.ends && r.b == sub.b && r.pp1x == sub.pp1x && r.metricsSet == sub.metricsSet
    ensures |r.points| == |sub.points| && (np0 <= |sub.points| ==> r.points[..np0] == sub.points[..np0])
    ensures ValidBuf(sub) ==> ValidBuf(r)
  {
    sub.(points := PlaceComponent(font, gscale, sub.points, np0, c, t))
  }

  /**
   * loadCompound without a Hinter: each component is loaded one level
   * deeper, asked to use its metrics only when the compound is and the
   * component says so; its error is returned.
   */
  function CompoundSpec(font: GlyphFont, gscale: int32, recursion: nat, useMyMetrics: bool, d: seq<byte>, g: Buf): (r: Loaded)
    requires recursion < RecursionLimit
    decreases RecursionLimit - recursion, 0, |d|
  {
    match Outline.ReadComponentSpec(d)
    case ComponentPanic => Loaded(g, Some(OutOfRange))
    case Component(flags, glyph, dx, dy, rest) =>
      if !HasBit(flags, FlagArgsAreXYValues) then Loaded(g, Some(UnsupportedError("compound glyph transform vector")))
      else
        match ReadTransformSpec(flags, rest)
        case TransformPanic => Loaded(g, Some(OutOfRange))
        case TransformRead(t, rest') =>
          var sub := LoadSpec(font, gscale, recursion + 1, glyph, useMyMetrics && HasBit(flags, FlagUseMyMetrics), g);
          if sub.err.Some? then sub
          else
            var next := PlaceSub(font, gscale, |g.points|, sub.buf, Outline.ReadComponentSpec(d), t);
            if !HasBit(flags, FlagMoreComponents) then Loaded(next, None)
            else CompoundSpec(font, gscale, recursion, useMyMetrics, rest', next)
  }

  /** Load: the buffer reset, glyph i loaded, then every x moved left by the first phantom's x when that is not zero. */
  function LoadTopSpec(font: GlyphFont, gscale: int32, i: uint16): (r: Loaded)
  {
    var l := LoadSpec(font, gscale, 0, i, true, EmptyBuf);
    if l.err.Some? || l.buf.pp1x == 0 then l
    else Loaded(l.buf.(points := MovedLeft(l.buf.points, l.buf.pp1x)), None)
  }

  /** Every point's x moved left by dx, wrapping to int32; nothing else changes. */
  function MovedLeft(ps: seq<Point>, dx: int32): (r: seq<Point>)
    ensures |r| == |ps|
    ensures forall k :: 0 <= k < |ps| ==> r[k].y == ps[k].y && r[k].flags == ps[k].flags && r[k].x == Int32(ps[k].x - dx)
  {
    seq(|ps|, k requires 0 <= k < |ps| => ps[k].(x := Int32(ps[k].x - dx)))
  }

  // ---------------------------------------------------------------------------
  // Properties of loading
  // ---------------------------------------------------------------------------

  /** One component of a compound glyph that reads and is accepted: its glyph is loaded, then placed, then the next one follows. */
  lemma CompoundStep(font: GlyphFont, gscale: int32, recursion: nat, umm: bool, d: seq<byte>, g: Buf)
    requires recursion < RecursionLimit
    requires Outline.ReadComponentSpec(d).Component? && HasBit(Outline.ReadComponentSpec(d).flags, FlagArgsAreXYValues)
    requires ReadTransformSpec(Outline.ReadComponentSpec(d).flags, Outline.ReadComponentSpec(d).rest).TransformRead?
    ensures var c := Outline.ReadComponentSpec(d);
      var tr := ReadTransformSpec(c.flags, c.rest);
      var sub := LoadSpec(font, gscale, recursion + 1, c.glyph, umm && HasBit(c.flags, FlagUseMyMetrics), g);
      var next := PlaceSub(font, gscale, |g.points|, sub.buf, c, tr.t);
      CompoundSpec(font, gscale, recursion, umm, d, g) ==
        if sub.err.Some? then sub
        else if HasBit(c.flags, FlagMoreComponents) then CompoundSpec(font, gscale, recursion, umm, tr.rest, next)
        else Loaded(next, None)
  {
  }

  /** A prefix of b is a prefix of every c that starts as b does. */
  lemma KeptPrefix<T>(a: seq<T>, b: seq<T>, c: seq<T>)
    requires a <= b && |a| <= |b| <= |c| && c[..|a|] == b[..|a|]
    ensures a <= c
  {
    assert b[..|a|] == a;
  }

  /** Loading keeps a buffer's contours consistent with its points. */
  lemma {:induction false} LoadKeepsValid(font: GlyphFont, gscale: int32, recursion: nat, i: uint16, umm: bool, g: Buf)
    requires ValidBuf(g)
    ensures ValidBuf(LoadSpec(font, gscale, recursion, i, umm, g).buf)
    decreases RecursionLimit - recursion, 1, 0
  {
    if recursion < RecursionLimit {
      match Outline.Classify(TablesOf(font), i)
      case Compound(_, body) =>
        CompoundKeepsValid(font, gscale, recursion, umm, body, g);
      case _ =>
    }
  }

  lemma {:induction false} CompoundKeepsValid(font: GlyphFont, gscale: int32, recursion: nat, umm: bool, d: seq<byte>, g: Buf)
    requires recursion < RecursionLimit && ValidBuf(g)
    ensures ValidBuf(CompoundSpec(font, gscale, recursion, umm, d, g).buf)
    decreases RecursionLimit - recursion, 0, |d|
  {
    var c := Outline.ReadComponentSpec(d);
    if c.Component? && HasBit(c.flags, FlagArgsAreXYValues) {
      var tr := ReadTransformSpec(c.flags, c.rest);
      if tr.TransformRead? {
        var sub := LoadSpec(font, gscale, recursion + 1, c.glyph, umm && HasBit(c.flags, FlagUseMyMetrics), g);
        LoadKeepsValid(font, gscale, recursion + 1, c.glyph, umm && HasBit(c.flags, FlagUseMyMetrics), g);
        CompoundStep(font, gscale, recursion, umm, d, g);
        if sub.err.None? {
          var next := PlaceSub(font, gscale, |g.points|, sub.buf, c, tr.t);
          if HasBit(c.flags, FlagMoreComponents) {
            CompoundKeepsValid(font, gscale, recursion, umm, tr.rest, next);
          }
        }
      }
    }
  }

  /** Loading only appends to a buffer's points and contour ends. */
  lemma {:induction false} LoadAppends(font: GlyphFont, gscale: int32, recursion: nat, i: uint16, umm: bool, g: Buf)
    ensures g.points <= LoadSpec(font, gscale, recursion, i, umm, g).buf.points
    ensures g.ends <= LoadSpec(font, gscale, recursion, i, umm, g).buf.ends
    decreases RecursionLimit - recursion, 1, 0
  {
    if recursion < RecursionLimit {
      match Outline.Classify(TablesOf(font), i)
      case Compound(_, body) =>
        CompoundAppends(font, gscale, recursion, umm, body, g);
      case _ =>
    }
  }

  lemma {:induction false} CompoundAppends(font: GlyphFont, gscale: int32, recursion: nat, umm: bool, d: seq<byte>, g: Buf)
    requires recursion < RecursionLimit
    ensures g.points <= CompoundSpec(font, gscale, recursion, umm, d, g).buf.points
    ensures g.ends <= CompoundSpec(font, gscale, recursion, umm, d, g).buf.ends
    decreases RecursionLimit - recursion, 0, |d|
  {
    var r := CompoundSpec(font, gscale, recursion, umm, d, g);
    var c := Outline.ReadComponentSpec(d);
    if c.Component? && HasBit(c.flags, FlagArgsAreXYValues) && ReadTransformSpec(c.flags, c.rest).TransformRead? {
      var tr := ReadTransformSpec(c.flags, c.rest);
      var sub := LoadSpec(font, gscale, recursion + 1, c.glyph, umm && HasBit(c.flags, FlagUseMyMetrics), g);
      LoadAppends(font, gscale, recursion + 1, c.glyph, umm && HasBit(c.flags, FlagUseMyMetrics), g);
      CompoundStep(font, gscale, recursion, umm, d, g);
      if sub.err.None? {
        var next := PlaceSub(font, gscale, |g.points|, sub.buf, c, tr.t);
        KeptPrefix(g.points, sub.buf.points, next.points);
        if HasBit(c.flags, FlagMoreComponents) {
          assert r == CompoundSpec(font, gscale, recursion, umm, tr.rest, next);
          CompoundAppends(font, gscale, recursion, umm, tr.rest, next);
        } else {
          assert r.buf == next;
        }
      } else {
        assert r == sub;
      }
    } else {
      assert r.buf == g;
    }
  }

  /** Once a glyph's metrics are set, loading more never changes the bounds or the first phantom's x. */
  lemma {:induction false} MetricsSetOnce(font: GlyphFont, gscale: int32, recursion: nat, i: uint16, umm: bool, g: Buf)
    requires g.metricsSet
    ensures var r := LoadSpec(font, gscale, recursion, i, umm, g);
      r.buf.metricsSet && r.buf.b == g.b && r.buf.pp1x == g.pp1x
    decreases RecursionLimit - recursion, 1, 0
  {
    if recursion < RecursionLimit {
      match Outline.Classify(TablesOf(font), i)
      case Compound(b16, body) => CompoundMetricsSetOnce(font, gscale, recursion, umm, body, g);
      case _ =>
    }
  }

  lemma {:induction false} CompoundMetricsSetOnce(font: GlyphFont, gscale: int32, recursion: nat, umm: bool, d: seq<byte>, g: Buf)
    requires recursion < RecursionLimit && g.metricsSet
    ensures var r := CompoundSpec(font, gscale, recursion, umm, d, g);
      r.buf.metricsSet && r.buf.b == g.b && r.buf.pp1x == g.pp1x
    decreases RecursionLimit - recursion, 0, |d|
  {
    var c := Outline.ReadComponentSpec(d);
    if c.Component? && HasBit(c.flags, FlagArgsAreXYValues) {
      var tr := ReadTransformSpec(c.flags, c.rest);
      if tr.TransformRead? {
        var umm' := umm && HasBit(c.flags, FlagUseMyMetrics);
        MetricsSetOnce(font, gscale, recursion + 1, c.glyph, umm', g);
        CompoundStep(font, gscale, recursion, umm, d, g);
        var sub := LoadSpec(font, gscale, recursion + 1, c.glyph, umm', g);
        if sub.err.None? && HasBit(c.flags, FlagMoreComponents) {
          var next := PlaceSub(font, gscale, |g.points|, sub.buf, c, tr.t);
          CompoundMetricsSetOnce(font, gscale, recursion, umm, tr.rest, next);
        }
      }
    }
  }

  /**
   * A compound glyph whose one component is the glyph itself fails: the
   * nesting limit is reached and, unlike the earlier loader, its error is
   * returned through every level.
   */
  lemma {:induction false} SelfReferenceFails(font: GlyphFont, gscale: int32, recursion: nat, i: uint16, umm: bool, g: Buf, bounds: TrueTypeFont.Bounds, body: seq<byte>)
    requires Outline.Classify(TablesOf(font), i) == Outline.Compound(bounds, body)
    requires var c := Outline.ReadComponentSpec(body);
      c.Component? && c.glyph == i && HasBit(c.flags, FlagArgsAreXYValues) && ReadTransformSpec(c.flags, c.rest).TransformRead?
    ensures LoadSpec(font, gscale, recursion, i, umm, g).err == Some(UnsupportedError("excessive compound glyph recursion"))
    decreases RecursionLimit - recursion
  {
    if recursion < RecursionLimit {
      var c := Outline.ReadComponentSpec(body);
      SelfReferenceFails(font, gscale, recursion + 1, i, umm && HasBit(c.flags, FlagUseMyMetrics), g, bounds, body);
      CompoundStep(font, gscale, recursion, umm, body, g);
      assert LoadSpec(font, gscale, recursion, i, umm, g) == CompoundLoaded(font, gscale, recursion, i, umm, WidenBounds(bounds), body, g);
    }
  }

  /**
   * A simple glyph grows the points by exactly its decoded point count (the
   * phantoms are gone), and its ends are its stored end points + 1 + np0.
   */
  lemma SimpleGlyphAppends(font: GlyphFont, gscale: int32, recursion: nat, i: uint16, umm: bool, g: Buf)
    requires recursion < RecursionLimit && Outline.Classify(TablesOf(font), i).Simple?
    requires var k := Outline.Classify(TablesOf(font), i); SimpleSpec(k.body, k.contours).SimpleGlyph?
    ensures var k := Outline.Classify(TablesOf(font), i);
      var s := SimpleSpec(k.body, k.contours);
      var r := LoadSpec(font, gscale, recursion, i, umm, g);
      r.err == None && |r.buf.points| == |g.points| + NewPointCount(s.ends) &&
      r.buf.ends == g.ends + ShiftEnds(s.ends, |g.points|) &&
      (forall j :: 0 <= j < |s.ends| ==> r.buf.ends[|g.ends| + j] == 1 + BE16(k.body, 2 * j) + |g.points|)
  {
    var k := Outline.Classify(TablesOf(font), i);
    var s := SimpleSpec(k.body, k.contours);
    assert LoadSpec(font, gscale, recursion, i, umm, g) == SimpleLoaded(font, gscale, g, i, umm, WidenBounds(k.bounds), k.body, k.contours);
  }

  // ---------------------------------------------------------------------------
  // Reading a compound glyph's transform
  // ---------------------------------------------------------------------------

  /** The optional transform after a component's offset, read the way loadCompound reads it. */
  method ReadTransform(cur: Data, flags: uint16) returns (r: TransformRead)
    modifies cur
    ensures r == ReadTransformSpec(flags, old(cur.rest))
    ensures r.TransformRead? ==> cur.rest == r.rest
  {
    ghost var d := cur.rest;
    if HasBit(flags, FlagWeHaveAScale) {
      if |cur.rest| < 2 {
        return TransformPanic;
      }
      var s := cur.U16();
      return TransformRead(Some(Transform(Int16(s), 0, 0, Int16(s))), cur.rest);
    } else if HasBit(flags, FlagWeHaveAnXAndYScale) {
      if |cur.rest| < 4 {
        return TransformPanic;
      }
      var sx := cur.U16();
      var sy := cur.U16();
      assert cur.rest == d[4..];
      return TransformRead(Some(Transform(Int16(sx), 0, 0, Int16(sy))), cur.rest);
    } else if HasBit(flags, FlagWeHaveATwoByTwo) {
      if |cur.rest| < 8 {
        return TransformPanic;
      }
      var t0 := cur.U16();
      var t1 := cur.U16();
      var t2 := cur.U16();
      var t3 := cur.U16();
      assert cur.rest == d[8..];
      return TransformRead(Some(Transform(Int16(t0), Int16(t1), Int16(t2), Int16(t3))), cur.rest);
    }
    return TransformRead(None, cur.rest);
  }

  // ---------------------------------------------------------------------------
  // GlyphBuf
  // ---------------------------------------------------------------------------

  /** A glyph's contours in 26.6 units, with its bounds and the metrics state of a load. */
  class GlyphBuf {
    var b: Bounds
    var points: seq<Point>
    var ends: seq<int>
    var pp1x: int32
    var metricsSet: bool

    function State(): Buf
      reads this
    {
      Buf(b, points, ends, pp1x, metricsSet)
    }

    predicate Valid()
      reads this
    {
      ValidBuf(State())
    }

    /** NewGlyphBuf: an empty buffer. */
    constructor ()
      ensures State() == EmptyBuf && Valid()
    {
      b := Bounds.Bounds(0, 0, 0, 0);
      points := [];
      ends := [];
      pp1x := 0;
      metricsSet := false;
    }

    /**
     * Load: glyph i of the font at the given scale, replacing whatever the
     * buffer held, then moved left by its first phantom point's x.
     */
    method Load(font: GlyphFont, gscale: int32, i: uint16) returns (err: Option<Error>)
      modifies this
      ensures err == LoadTopSpec(font, gscale, i).err
      ensures !Outline.IsPanic(err) ==> State() == LoadTopSpec(font, gscale, i).buf
    {
      b := Bounds.Bounds(0, 0, 0, 0);
      points := [];
      ends := [];
      pp1x := 0;
      metricsSet := false;
      err := LoadGlyph(font, gscale, 0, i, true);
      if err.Some? || pp1x == 0 {
        return;
      }
      MoveLeft(pp1x);
    }

    /** Every point's x moved left by dx, wrapping to int32. */
    method MoveLeft(dx: int32)
      modifies this
      ensures points == MovedLeft(old(points), dx)
      ensures b == old(b) && ends == old(ends) && pp1x == old(pp1x) && metricsSet == old(metricsSet)
    {
      var k := 0;
      while k < |points|
        invariant 0 <= k <= |points| == |old(points)|
        invariant forall j :: 0 <= j < |points| ==> points[j] == if j < k then old(points)[j].(x := Int32(old(points)[j].x - dx)) else old(points)[j]
        invariant b == old(b) && ends == old(ends) && pp1x == old(pp1x) && metricsSet == old(metricsSet)
      {
        points := points[k := points[k].(x := Int32(points[k].x - dx))];
        k := k + 1;
      }
    }

    /** load: glyph i appended to the buffer, at the given compound nesting depth. */
    method LoadGlyph(font: GlyphFont, gscale: int32, recursion: nat, i: uint16, useMyMetrics: bool) returns (err: Option<Error>)
      requires Valid()
      modifies this
      ensures err == LoadSpec(font, gscale, recursion, i, useMyMetrics, old(State())).err
      ensures !Outline.IsPanic(err) ==> State() == LoadSpec(font, gscale, recursion, i, useMyMetrics, old(State())).buf && Valid()
      decreases RecursionLimit - recursion, 1, 0
    {
      if recursion >= RecursionLimit {
        return Some(UnsupportedError("excessive compound glyph recursion"));
      }
      ghost var g := State();
      match Outline.Classify(TablesOf(font), i) {
        case NoGlyph =>
          return None;
        case Unreadable =>
          return Some(OutOfRange);
        case Reserved(_) =>
          return Some(UnsupportedError("negative number of contours"));
        case Simple(b16, body, ne) =>
          assert LoadSpec(font, gscale, recursion, i, useMyMetrics, g) == SimpleLoaded(font, gscale, g, i, useMyMetrics, WidenBounds(b16), body, ne);
          err := LoadSimple(font, gscale, i, useMyMetrics, WidenBounds(b16), body, ne);
        case Compound(b16, body) =>
          assert LoadSpec(font, gscale, recursion, i, useMyMetrics, g) == CompoundLoaded(font, gscale, recursion, i, useMyMetrics, WidenBounds(b16), body, g);
          err := LoadCompoundGlyph(font, gscale, recursion, i, useMyMetrics, WidenBounds(b16), body);
      }
    }

    /** The compound-glyph half of load: the components, then the glyph's own metrics. */
    method LoadCompoundGlyph(font: GlyphFont, gscale: int32, recursion: nat, i: uint16, useMyMetrics: bool, bounds: Bounds, body: seq<byte>)
      returns (err: Option<Error>)
      requires Valid() && recursion < RecursionLimit
      modifies this
      ensures err == CompoundLoaded(font, gscale, recursion, i, useMyMetrics, bounds, body, old(State())).err
      ensures !Outline.IsPanic(err) ==> State() == CompoundLoaded(font, gscale, recursion, i, useMyMetrics, bounds, body, old(State())).buf && Valid()
      decreases RecursionLimit - recursion, 0, 1
    {
      var p := FirstPhantomX(font, gscale, i, bounds);
      err := LoadCompound(font, gscale, recursion, useMyMetrics, body);
      if err.Some? {
        return;
      }
      UseMetrics(font, gscale, useMyMetrics, bounds, p);
    }

    /** The metrics of a glyph asked to use its own, when none are set yet: its scaled bounds and first phantom's x. */
    method UseMetrics(font: GlyphFont, gscale: int32, useMyMetrics: bool, bounds: Bounds, p: int32)
      modifies this
      ensures State() == SetMetrics(font, gscale, old(State()), useMyMetrics, bounds, p)
    {
      if useMyMetrics && !metricsSet {
        metricsSet := true;
        b := ScaleBounds(font, gscale, bounds);
        pp1x := p;
      }
    }

    /**
     * The simple-glyph half of load: contour ends, instructions and points
     * decoded, then phantoms and scaling, then the ends offset by the points
     * before.
     */
    method LoadSimple(font: GlyphFont, gscale: int32, i: uint16, useMyMetrics: bool, bounds: Bounds, body: seq<byte>, ne: nat)
      returns (err: Option<Error>)
      requires Valid()
      modifies this
      ensures err == SimpleLoaded(font, gscale, old(State()), i, useMyMetrics, bounds, body, ne).err
      ensures !Outline.IsPanic(err) ==> State() == SimpleLoaded(font, gscale, old(State()), i, useMyMetrics, bounds, body, ne).buf && Valid()
    {
      ghost var g := State();
      var np0, ne0 := |points|, |ends|;
      var program, ok := DecodeSimple(body, ne);
      if !ok {
        return Some(OutOfRange);
      }
      FinishSimple(font, gscale, i, useMyMetrics, bounds, np0, ne0, g, SimpleSpec(body, ne));
      return None;
    }

    /** loadSimple: the contour ends, the instructions (returned) and the points of a simple glyph; false when the data runs out. */
    method DecodeSimple(body: seq<byte>, ne: nat) returns (program: seq<byte>, ok: bool)
      modifies this
      ensures b == old(b) && pp1x == old(pp1x) && metricsSet == old(metricsSet)
      ensures ok <==> SimpleSpec(body, ne).SimpleGlyph?
      ensures ok ==> program == SimpleSpec(body, ne).program
      ensures ok ==> points == old(points) + SimpleSpec(body, ne).points && ends == old(ends) + SimpleSpec(body, ne).ends
    {
      var ne0 := |ends|;
      program := [];
      ok := AppendEnds(body, ne);
      if !ok {
        return;
      }
      var instrLen := BE16(body, 2 * ne);
      var start := 2 * ne + 2;
      if |body| < start + instrLen {
        return [], false;
      }
      program := body[start..start + instrLen];
      assert ends[ne0..] == SimpleEndsSpec(body, ne);
      var n := NewPointCount(ends[ne0..]);
      ok := DecodePoints(body[start + instrLen..], n);
    }

    /** The rest of load for a decoded simple glyph s appended to g: phantoms, scaling, ends and metrics. */
    method FinishSimple(font: GlyphFont, gscale: int32, i: uint16, useMyMetrics: bool, bounds: Bounds, np0: nat, ne0: nat, ghost g: Buf, ghost s: SimpleGlyph)
      requires s.SimpleGlyph? && |s.points| == NewPointCount(s.ends)
      requires State() == g.(points := g.points + s.points, ends := g.ends + s.ends)
      requires np0 == |g.points| && ne0 == |g.ends|
      modifies this
      ensures State() == AppendSimple(font, gscale, g, i, useMyMetrics, bounds, s)
    {
      AddPhantomsAndScale(font, gscale, i, np0, bounds);
      var p := points[|points| - 4].x;
      points := points[..|points| - 4];
      assert ends[ne0..] == s.ends;
      OffsetEnds(ne0, np0);
      UseMetrics(font, gscale, useMyMetrics, bounds, p);
    }

    /** The contour ends of a simple glyph, each its stored end point + 1, appended; false when the data runs out. */
    method AppendEnds(body: seq<byte>, ne: nat) returns (ok: bool)
      modifies this
      ensures b == old(b) && points == old(points) && pp1x == old(pp1x) && metricsSet == old(metricsSet)
      ensures ok <==> |body| >= 2 * ne + 2
      ensures ok ==> ends == old(ends) + SimpleEndsSpec(body, ne)
    {
      var d := new Data(body);
      var k := 0;
      while k < ne
        invariant 0 <= k <= ne && 2 * k <= |body| && d.rest == body[2 * k..]
        invariant |ends| == |old(ends)| + k && ends[..|old(ends)|] == old(ends)
        invariant forall j :: 0 <= j < k ==> ends[|old(ends)| + j] == 1 + BE16(body, 2 * j)
        invariant b == old(b) && points == old(points) && pp1x == old(pp1x) && metricsSet == old(metricsSet)
      {
        if |d.rest| < 2 {
          return false;
        }
        var e := d.U16();
        assert body[2 * k..][2..] == body[2 * (k + 1)..];
        ends := ends + [1 + (e as int)];
        k := k + 1;
      }
      if |d.rest| < 2 {
        return false;
      }
      assert ends == old(ends) + SimpleEndsSpec(body, ne);
      return true;
    }

    /** The flags, then the x and then the y coordinates, of n new points; false when the data runs out. */
    method DecodePoints(d: seq<byte>, n: nat) returns (ok: bool)
      modifies this
      ensures b == old(b) && ends == old(ends) && pp1x == old(pp1x) && metricsSet == old(metricsSet)
      ensures ok <==> Outline.PointsFrom(d, n).Some?
      ensures ok ==> points == old(points) + WidenAll(Outline.PointsFrom(d, n).value)
    {
      var np0 := |points|;
      var cur := new Data(d);
      var flags, okF := Outline.ReadFlags(cur, n);
      if !okF {
        return false;
      }
      ghost var p0 := points;
      AppendFlags(flags);
      ghost var p1 := points;
      var xs, okX := Outline.ReadAxis(cur, flags, Outline.FlagXShortVector, Outline.FlagPositiveXShortVector);
      if !okX {
        return false;
      }
      SetXs(np0, xs);
      ghost var p2 := points;
      var ys, okY := Outline.ReadAxis(cur, flags, Outline.FlagYShortVector, Outline.FlagPositiveYShortVector);
      if !okY {
        return false;
      }
      SetYs(np0, ys);
      AssembledPoints(p0, p1, p2, points, flags, xs, ys);
      return true;
    }

    /** Points appended at the origin, then given their x, then their y coordinates, are the decoded points widened. */
    static lemma AssembledPoints(p0: seq<Point>, p1: seq<Point>, p2: seq<Point>, p3: seq<Point>, flags: seq<byte>, xs: seq<int16>, ys: seq<int16>)
      requires |xs| == |flags| && |ys| == |flags|
      requires |p1| == |p0| + |flags| && p1[..|p0|] == p0
      requires forall k :: 0 <= k < |flags| ==> p1[|p0| + k] == Point(0, 0, flags[k])
      requires |p2| == |p1| && p2[..|p0|] == p1[..|p0|]
      requires forall k :: 0 <= k < |xs| ==> p2[|p0| + k] == p1[|p0| + k].(x := xs[k])
      requires |p3| == |p2| && p3[..|p0|] == p2[..|p0|]
      requires forall k :: 0 <= k < |ys| ==> p3[|p0| + k] == p2[|p0| + k].(y := ys[k])
      ensures p3 == p0 + WidenAll(Outline.OutlinePoints(flags, xs, ys))
    {
      var w := WidenAll(Outline.OutlinePoints(flags, xs, ys));
      forall k | 0 <= k < |p3|
        ensures p3[k] == (p0 + w)[k]
      {
        if k < |p0| {
          assert p3[k] == p3[..|p0|][k];
        } else {
          var j := k - |p0|;
          assert p3[k] == Point(xs[j], ys[j], flags[j]);
        }
      }
    }

    /** One point at the origin per flag, appended. */
    method AppendFlags(flags: seq<byte>)
      modifies this
      ensures b == old(b) && ends == old(ends) && pp1x == old(pp1x) && metricsSet == old(metricsSet)
      ensures |points| == |old(points)| + |flags| && points[..|old(points)|] == old(points)
      ensures forall k :: 0 <= k < |flags| ==> points[|old(points)| + k] == Point(0, 0, flags[k])
    {
      var k := 0;
      while k < |flags|
        invariant 0 <= k <= |flags| && |points| == |old(points)| + k && points[..|old(points)|] == old(points)
        invariant forall j :: 0 <= j < k ==> points[|old(points)| + j] == Point(0, 0, flags[j])
        invariant b == old(b) && ends == old(ends) && pp1x == old(pp1x) && metricsSet == old(metricsSet)
      {
        points := points + [Point(0, 0, flags[k])];
        k := k + 1;
      }
    }

    /** The x coordinates of the points from np0 on, set. */
    method SetXs(np0: nat, xs: seq<int16>)
      requires np0 + |xs| == |points|
      modifies this
      ensures b == old(b) && ends == old(ends) && pp1x == old(pp1x) && metricsSet == old(metricsSet)
      ensures |points| == |old(points)| && points[..np0] == old(points)[..np0]
      ensures forall k :: 0 <= k < |xs| ==> points[np0 + k] == old(points)[np0 + k].(x := xs[k])
    {
      var k := 0;
      while k < |xs|
        invariant 0 <= k <= |xs| && |points| == |old(points)| && points[..np0] == old(points)[..np0]
        invariant forall j :: np0 <= j < |points| ==> points[j] == if j < np0 + k then old(points)[j].(x := xs[j - np0]) else old(points)[j]
        invariant b == old(b) && ends == old(ends) && pp1x == old(pp1x) && metricsSet == old(metricsSet)
      {
        points := points[np0 + k := points[np0 + k].(x := xs[k])];
        k := k + 1;
      }
    }

    /** The y coordinates of the points from np0 on, set. */
    method SetYs(np0: nat, ys: seq<int16>)
      requires np0 + |ys| == |points|
      modifies this
      ensures b == old(b) && ends == old(ends) && pp1x == old(pp1x) && metricsSet == old(metricsSet)
      ensures |points| == |old(points)| && points[..np0] == old(points)[..np0]
      ensures forall k :: 0 <= k < |ys| ==> points[np0 + k] == old(points)[np0 + k].(y := ys[k])
    {
      var k := 0;
      while k < |ys|
        invariant 0 <= k <= |ys| && |points| == |old(points)| && points[..np0] == old(points)[..np0]
        invariant forall j :: np0 <= j < |points| ==> points[j] == if j < np0 + k then old(points)[j].(y := ys[j - np0]) else old(points)[j]
        invariant b == old(b) && ends == old(ends) && pp1x == old(pp1x) && metricsSet == old(metricsSet)
      {
        points := points[np0 + k := points[np0 + k].(y := ys[k])];
        k := k + 1;
      }
    }

    /** addPhantomsAndScale without a Hinter: four phantom points appended, the points from np0 on scaled, two phantoms rounded. */
    method AddPhantomsAndScale(font: GlyphFont, gscale: int32, i: uint16, np0: nat, bounds: Bounds)
      requires np0 <= |points|
      modifies this
      ensures b == old(b) && ends == old(ends) && pp1x == old(pp1x) && metricsSet == old(metricsSet)
      ensures points == WithPhantoms(font, gscale, old(points), np0, bounds, font.hmetric(i), font.vmetric(i, bounds.yMax))
    {
      var uvm := font.vmetric(i, bounds.yMax);
      points := points + Phantoms(bounds, font.hmetric(i), uvm);
      ghost var all := points;
      var k := np0;
      while k < |points|
        invariant np0 <= k <= |points| == |all|
        invariant forall j :: 0 <= j < |all| ==> points[j] == if np0 <= j < k then ScalePoint(font, gscale, all[j]) else all[j]
        invariant b == old(b) && ends == old(ends) && pp1x == old(pp1x) && metricsSet == old(metricsSet)
      {
        points := points[k := ScalePoint(font, gscale, points[k])];
        k := k + 1;
      }
      var n := |points|;
      points := points[n - 3 := points[n - 3].(x := RoundToGrid(points[n - 3].x))];
      points := points[n - 1 := points[n - 1].(y := RoundToGrid(points[n - 1].y))];
    }

    /** The contour ends from ne0 on moved on by np0. */
    method OffsetEnds(ne0: nat, np0: nat)
      requires ne0 <= |ends|
      modifies this
      ensures b == old(b) && points == old(points) && pp1x == old(pp1x) && metricsSet == old(metricsSet)
      ensures ends == old(ends)[..ne0] + ShiftEnds(old(ends)[ne0..], np0)
    {
      if np0 == 0 {
        assert ShiftEnds(ends[ne0..], 0) == ends[ne0..];
        assert ends == ends[..ne0] + ends[ne0..];
        return;
      }
      var k := ne0;
      while k < |ends|
        invariant ne0 <= k <= |ends| == |old(ends)|
        invariant forall j :: 0 <= j < |ends| ==> ends[j] == if ne0 <= j < k then old(ends)[j] + np0 else old(ends)[j]
        invariant b == old(b) && points == old(points) && pp1x == old(pp1x) && metricsSet == old(metricsSet)
      {
        ends := ends[k := ends[k] + np0];
        k := k + 1;
      }
      assert ends == old(ends)[..ne0] + ShiftEnds(old(ends)[ne0..], np0);
    }

    /**
     * loadCompound without a Hinter: the components of a compound glyph,
     * each loaded one level deeper, transformed and moved by its offset.
     */
    method LoadCompound(font: GlyphFont, gscale: int32, recursion: nat, useMyMetrics: bool, d: seq<byte>) returns (err: Option<Error>)
      requires Valid() && recursion < RecursionLimit
      modifies this
      ensures err == CompoundSpec(font, gscale, recursion, useMyMetrics, d, old(State())).err
      ensures !Outline.IsPanic(err) ==> State() == CompoundSpec(font, gscale, recursion, useMyMetrics, d, old(State())).buf && Valid()
      decreases RecursionLimit - recursion, 0, 0
    {
      var cur := new Data(d);
      while true
        invariant Valid()
        invariant CompoundSpec(font, gscale, recursion, useMyMetrics, d, old(State())) == CompoundSpec(font, gscale, recursion, useMyMetrics, cur.rest, State())
        decreases |cur.rest|
      {
        ghost var g := State();
        ghost var before := cur.rest;
        var c := Outline.ReadComponent(cur);
        if c.ComponentPanic? {
          return Some(OutOfRange);
        }
        if !HasBit(c.flags, FlagArgsAreXYValues) {
          return Some(UnsupportedError("compound glyph transform vector"));
        }
        var t := ReadTransform(cur, c.flags);
        if t.TransformPanic? {
          return Some(OutOfRange);
        }
        var np0 := |points|;
        var e := LoadGlyph(font, gscale, recursion + 1, c.glyph, useMyMetrics && HasBit(c.flags, FlagUseMyMetrics));
        CompoundStep(font, gscale, recursion, useMyMetrics, before, g);
        if e.Some? {
          return e;
        }
        LoadAppends(font, gscale, recursion + 1, c.glyph, useMyMetrics && HasBit(c.flags, FlagUseMyMetrics), g);
        ghost var sub := State();
        if t.t.Some? {
          TransformPoints(np0, t.t.value);
        }
        TranslatePoints(np0, ComponentOffset(font, gscale, c.flags, c.dx), ComponentOffset(font, gscale, c.flags, c.dy));
        assert State() == PlaceSub(font, gscale, np0, sub, c, t.t);
        if !HasBit(c.flags, FlagMoreComponents) {
          break;
        }
      }
      return None;
    }

    /** The points from np0 on, put through an F2Dot14 transform. */
    method TransformPoints(np0: nat, t: Transform)
      requires np0 <= |points|
      modifies this
      ensures points == TransformFrom(old(points), np0, t)
      ensures b == old(b) && ends == old(ends) && pp1x == old(pp1x) && metricsSet == old(metricsSet)
    {
      var k := np0;
      while k < |points|
        invariant np0 <= k <= |points| == |old(points)|
        invariant forall j :: 0 <= j < |points| ==> points[j] == if np0 <= j < k then TransformPoint(old(points)[j], t) else old(points)[j]
        invariant b == old(b) && ends == old(ends) && pp1x == old(pp1x) && metricsSet == old(metricsSet)
      {
        points := points[k := TransformPoint(points[k], t)];
        k := k + 1;
      }
    }

    /** The points from np0 on, moved by (dx, dy). */
    method TranslatePoints(np0: nat, dx: int32, dy: int32)
      requires np0 <= |points|
      modifies this
      ensures points == TranslateFrom(old(points), np0, dx, dy)
      ensures b == old(b) && ends == old(ends) && pp1x == old(pp1x) && metricsSet == old(metricsSet)
    {
      var k := np0;
      while k < |points|
        invariant np0 <= k <= |points| == |old(points)|
        invariant forall j :: 0 <= j < |points| ==> points[j] == if np0 <= j < k then Point(Int32(old(points)[j].x + dx), Int32(old(points)[j].y + dy), old(points)[j].flags) else old(points)[j]
        invariant b == old(b) && ends == old(ends) && pp1x == old(pp1x) && metricsSet == old(metricsSet)
      {
        points := points[k := Point(Int32(points[k].x + dx), Int32(points[k].y + dy), points[k].flags)];
        k := k + 1;
      }
    }
  }
}
