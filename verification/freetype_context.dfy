/**
 * Model of freetype/freetype.go: a drawing Context with its FUnit to 24.8
 * fixed-point conversions, the contour-to-rasterizer conversion, the
 * direct-mapped glyph cache, the setters that recompute the scale and
 * invalidate the cache, and DrawString's pen advance.
 *
 * raster.Fix32 is an int32 in 24.8 fixed point; Go's `int` is 64 bits wide
 * and is modelled as an unbounded integer. The rasterizer is the call log
 * `adder`; the font's Index, Kerning and HMetric, and the glyph rasterizer,
 * enter as function parameters. The float64 scale computation is done on
 * real numbers.
 */
module FreeTypeContext {
  import opened Ints
  import opened RasterGeom

  /** The sizes of the glyph cache: glyph index modulo 256, then 4 x fractions and 1 y fraction. */
  const NGlyphs: int := 256
  const NXFractions: int := 4
  const NYFractions: int := 1
  const CacheSize: int := NGlyphs * NXFractions * NYFractions

  /** A point of a glyph in FUnits, Y going up; bit 0 of flags says whether it is on the curve. */
  datatype GlyphPoint = GlyphPoint(x: int16, y: int16, flags: byte)

  /** A glyph mask image, by its size; its pixels are the rasterizer's business. */
  datatype Mask = Mask(w: int, h: int)

  /** An integer-pixel offset. */
  datatype Offset = Offset(x: int, y: int)

  /** A cache entry: whether it is valid, the glyph it holds, the mask and its offset. */
  datatype CacheEntry = CacheEntry(valid: bool, glyph: uint16, mask: Option<Mask>, offset: Offset)

  /** The zero cacheEntry{}. */
  const EmptyEntry: CacheEntry := CacheEntry(false, 0, None, Offset(0, 0))

  /** A font as the context sees it: an identity, its units per em and its bounds. */
  datatype FontRef = FontRef(id: nat, unitsPerEm: int, xMin: int16, yMin: int16, xMax: int16, yMax: int16)

  // ---------------------------------------------------------------------------
  // Unit conversions

  /** FUnitToFix32: x FUnits to 24.8 fixed point, (x·scale + 128) >> 8, rounding to nearest. */
  function FUnitToFix32(scale: int, x: int): int32
  {
    Int32((x * scale + 128) / 256)
  }

  /** Without wrap-around, FUnitToFix32 is x·scale/256 rounded to the nearest 24.8 unit, halves rounding up. */
  lemma FUnitToFix32Nearest(scale: int, x: int)
    requires IsInt32((x * scale + 128) / 256)
    ensures var r := FUnitToFix32(scale, x);
      256 * r - 128 <= x * scale < 256 * r + 128
  {
    var v := x * scale;
    assert FUnitToFix32(scale, x) == (v + 128) / 256;
  }

  /** FUnitToPixelRD: x FUnits to whole pixels, x·scale >> 16, rounding down. */
  function FUnitToPixelRD(scale: int, x: int): (r: int)
    ensures r * 0x1_0000 <= x * scale < r * 0x1_0000 + 0x1_0000
  {
    (x * scale) / 0x1_0000
  }

  /** FUnitToPixelRU: x FUnits to whole pixels, (x·scale + 0xffff) >> 16, rounding up. */
  function FUnitToPixelRU(scale: int, x: int): (r: int)
    ensures r * 0x1_0000 - 0x1_0000 < x * scale <= r * 0x1_0000
  {
    (x * scale + 0xffff) / 0x1_0000
  }

  /** Rounding down never exceeds rounding up, they differ by at most one pixel, and agree exactly on whole pixels. */
  lemma RoundDownUp(scale: int, x: int)
    ensures FUnitToPixelRD(scale, x) <= FUnitToPixelRU(scale, x) <= FUnitToPixelRD(scale, x) + 1
    ensures FUnitToPixelRD(scale, x) == FUnitToPixelRU(scale, x) <==> (x * scale) % 0x1_0000 == 0
  {
    var v := x * scale;
    var rd, ru := FUnitToPixelRD(scale, x), FUnitToPixelRU(scale, x);
    assert rd == v / 0x1_0000 && ru == (v + 0xffff) / 0x1_0000;
  }

  /** Go's int(f) for a float: truncation toward zero. */
  function Trunc(r: real): (i: int)
    ensures Abs(i) as real <= (if r < 0.0 then -r else r) < Abs(i) as real + 1.0
    ensures i == 0 || (i < 0) == (r < 0.0)
  {
    if r >= 0.0 then r.Floor else -((-r).Floor)
  }

  /** recalc's scale: fontSize·dpi·256·256 / (upe·72), truncated. */
  function ScaleOf(fontSize: real, dpi: int, upe: int): int
    requires upe != 0
  {
    Trunc((fontSize * (dpi as real) * 256.0 * 256.0) / ((upe as real) * 72.0))
  }

  /** At 12 points, 72 DPI and 2048 units per em, the scale is 384 24.8 units per 256 FUnits, as NewContext sets it. */
  lemma DefaultScale()
    ensures ScaleOf(12.0, 72, 2048) == (12 * 72 * 256 * 256) / (2048 * 72) == 384
  {
    assert (12.0 * (72 as real) * 256.0 * 256.0) / ((2048 as real) * 72.0) == 384.0;
  }

  // ---------------------------------------------------------------------------
  // drawContour

  predicate OnCurve(p: GlyphPoint)
  {
    p.flags % 2 == 1
  }

  /** A glyph point in 24.8 rasterizer space: scaled, Y flipped, offset by (dx, dy), the sums wrapping. */
  function Place(scale: int, p: GlyphPoint, dx: int32, dy: int32): Point
  {
    Point(Int32(dx + FUnitToFix32(scale, p.x)), Int32(dy + FUnitToFix32(scale, -(p.y as int))))
  }

  /** The calls for point q after the previous point q0. */
  function StepCalls(q0: Point, on0: bool, q: Point, on: bool): seq<AdderCall>
  {
    if on then
      if on0 then [Add1(q)] else [Add2(q0, q)]
    else
      if on0 then [] else [Add2(q0, Midpoint(q0, q))]
  }

  /** The calls for the remaining points, then the call that closes the contour at start. */
  function Walk(scale: int, q0: Point, on0: bool, rest: seq<GlyphPoint>, dx: int32, dy: int32, start: Point): seq<AdderCall>
    decreases |rest|
  {
    if rest == [] then
      [if on0 then Add1(start) else Add2(q0, start)]
    else
      var q := Place(scale, rest[0], dx, dy);
      StepCalls(q0, on0, q, OnCurve(rest[0])) + Walk(scale, q, OnCurve(rest[0]), rest[1..], dx, dy, start)
  }

  /**
   * The calls drawContour makes: Start at the first point, taken as on the
   * curve whatever its flag, then the walk over the other points.
   */
  function ContourCalls(scale: int, ps: seq<GlyphPoint>, dx: int32, dy: int32): seq<AdderCall>
  {
    if ps == [] then []
    else
      var start := Place(scale, ps[0], dx, dy);
      [Start(start)] + Walk(scale, start, true, ps[1..], dx, dy, start)
  }

  /** One more point walked: its calls move from the pending walk to the calls made. */
  lemma WalkAdvance(scale: int, calls: seq<AdderCall>, q0: Point, on0: bool, rest: seq<GlyphPoint>, i: nat, dx: int32, dy: int32, start: Point)
    requires i < |rest|
    ensures var q := Place(scale, rest[i], dx, dy);
            calls + Walk(scale, q0, on0, rest[i..], dx, dy, start) ==
            (calls + StepCalls(q0, on0, q, OnCurve(rest[i]))) + Walk(scale, q, OnCurve(rest[i]), rest[i + 1..], dx, dy, start)
  {
    WalkUnfold(scale, q0, on0, rest, i, dx, dy, start);
  }

  lemma WalkUnfold(scale: int, q0: Point, on0: bool, rest: seq<GlyphPoint>, i: nat, dx: int32, dy: int32, start: Point)
    requires i < |rest|
    ensures Walk(scale, q0, on0, rest[i..], dx, dy, start) ==
      StepCalls(q0, on0, Place(scale, rest[i], dx, dy), OnCurve(rest[i])) +
      Walk(scale, Place(scale, rest[i], dx, dy), OnCurve(rest[i]), rest[i + 1..], dx, dy, start)
  {
    assert rest[i..][1..] == rest[i + 1..];
  }

  /** A walk never starts a contour, and its last call brings the pen back to start. */
  lemma {:induction false} WalkShape(scale: int, q0: Point, on0: bool, rest: seq<GlyphPoint>, dx: int32, dy: int32, start: Point)
    ensures var w := Walk(scale, q0, on0, rest, dx, dy, start);
      |w| > 0 && PenAfter(w[|w| - 1]) == start && forall k :: 0 <= k < |w| ==> !w[k].Start?
    decreases |rest|
  {
    if rest != [] {
      WalkShape(scale, Place(scale, rest[0], dx, dy), OnCurve(rest[0]), rest[1..], dx, dy, start);
    }
  }

  /**
   * The calls of a non-empty contour: Start at ps[0] first and nowhere else,
   * and the last call returns the pen to ps[0].
   */
  lemma ContourShape(scale: int, ps: seq<GlyphPoint>, dx: int32, dy: int32)
    requires ps != []
    ensures var calls := ContourCalls(scale, ps, dx, dy);
      |calls| >= 2 &&
      calls[0] == Start(Place(scale, ps[0], dx, dy)) &&
      (forall k :: 1 <= k < |calls| ==> !calls[k].Start?) &&
      PenAfter(calls[|calls| - 1]) == Place(scale, ps[0], dx, dy)
  {
    var start := Place(scale, ps[0], dx, dy);
    var w := Walk(scale, start, true, ps[1..], dx, dy, start);
    WalkShape(scale, start, true, ps[1..], dx, dy, start);
    assert ContourCalls(scale, ps, dx, dy) == [Start(start)] + w;
    StartThenWalk(start, w);
  }

  /**
   * An on-curve point followed by two off-curve points: the first
   * off-curve point is the control of a spline to the midpoint of the two,
   * and the second is the control of the spline that closes the contour.
   */
  lemma OffOffGivesMidpoint(scale: int, a: GlyphPoint, b: GlyphPoint, c: GlyphPoint, dx: int32, dy: int32)
    requires OnCurve(a) && !OnCurve(b) && !OnCurve(c)
    ensures var pa, pb, pc := Place(scale, a, dx, dy), Place(scale, b, dx, dy), Place(scale, c, dx, dy);
      ContourCalls(scale, [a, b, c], dx, dy) == [Start(pa), Add2(pb, Midpoint(pb, pc)), Add2(pc, pa)]
  {
    var pa, pb, pc := Place(scale, a, dx, dy), Place(scale, b, dx, dy), Place(scale, c, dx, dy);
    var w2 := Walk(scale, pc, false, [], dx, dy, pa);
    assert w2 == [Add2(pc, pa)];
    var w1 := Walk(scale, pb, false, [c], dx, dy, pa);
    assert [c][1..] == [];
    assert w1 == [Add2(pb, Midpoint(pb, pc))] + w2;
    var w0 := Walk(scale, pa, true, [b, c], dx, dy, pa);
    assert [b, c][1..] == [c];
    assert w0 == [] + w1;
    assert [a, b, c][1..] == [b, c];
  }

  /** The midpoint's halving truncates toward zero: between −1 and 0 it is 0, not −1. */
  lemma MidpointTruncates()
    ensures Midpoint(Point(1, -1), Point(2, 0)) == Point(1, 0)
  {
  }

  /** drawContour's loop: the calls made for a contour, in order. */
  method DrawContourCalls(scale: int, ps: seq<GlyphPoint>, dx: int32, dy: int32) returns (calls: seq<AdderCall>)
    ensures calls == ContourCalls(scale, ps, dx, dy)
  {
    calls := [];
    if |ps| == 0 {
      return;
    }
    var start := Place(scale, ps[0], dx, dy);
    var rest := ps[1..];
    ghost var target := ContourCalls(scale, ps, dx, dy);
    calls := [Start(start)];
    var q0, on0 := start, true;
    var i := 0;
    assert rest[i..] == rest;
    while i < |rest|
      invariant 0 <= i <= |rest|
      invariant calls + Walk(scale, q0, on0, rest[i..], dx, dy, start) == target
    {
      var q, on, emitted := ContourStep(scale, q0, on0, rest[i], dx, dy);
      WalkAdvance(scale, calls, q0, on0, rest, i, dx, dy, start);
      calls := calls + emitted;
      q0, on0 := q, on;
      i := i + 1;
    }
    assert rest[i..] == [];
    assert Walk(scale, q0, on0, rest[i..], dx, dy, start) == [if on0 then Add1(start) else Add2(q0, start)];
    if on0 {
      calls := calls + [Add1(start)];
    } else {
      calls := calls + [Add2(q0, start)];
    }
  }

  /** One iteration of drawContour's loop: the point in rasterizer space, its flag and the calls it makes. */
  method ContourStep(scale: int, q0: Point, on0: bool, p: GlyphPoint, dx: int32, dy: int32) returns (q: Point, on: bool, emitted: seq<AdderCall>)
    ensures q == Place(scale, p, dx, dy) && on == OnCurve(p)
    ensures emitted == StepCalls(q0, on0, q, on)
  {
    q := Place(scale, p, dx, dy);
    on := p.flags % 2 != 0;
    emitted := [];
    if on {
      if on0 {
        emitted := [Add1(q)];
      } else {
        emitted := [Add2(q0, q)];
      }
    } else if !on0 {
      emitted := [Add2(q0, Midpoint(q0, q))];
    }
  }

  // ---------------------------------------------------------------------------
  // The glyph cache slot

  /** glyph's cache index: ((glyph mod 256)·4 + fx/64)·1 + fy/256. */
  function CacheSlot(glyph: uint16, fx: int, fy: int): (t: int)
    requires 0 <= fx < 256 && 0 <= fy < 256
    ensures 0 <= t < CacheSize
  {
    var tg := glyph % NGlyphs;
    var tx := fx / (256 / NXFractions);
    var ty := fy / (256 / NYFractions);
    ((tg * NXFractions) + tx) * NYFractions + ty
  }

  /** Two lookups share a slot exactly when their glyphs agree modulo 256 and their x fractions fall in the same quarter. */
  lemma CacheSlotShared(g0: uint16, fx0: int, fy0: int, g1: uint16, fx1: int, fy1: int)
    requires 0 <= fx0 < 256 && 0 <= fy0 < 256 && 0 <= fx1 < 256 && 0 <= fy1 < 256
    ensures CacheSlot(g0, fx0, fy0) == CacheSlot(g1, fx1, fy1) <==> g0 % 256 == g1 % 256 && fx0 / 64 == fx1 / 64
  {
    assert fy0 / 256 == 0 && fy1 / 256 == 0;
  }

  /** The rasterizer of a glyph at a sub-pixel fraction: its mask and offset, or an error. */
  type RasterFn = (uint16, int, int) -> Option<(Mask, Offset)>

  /** Moves an offset by (ix, iy): image.Point.Add. */
  function Shift(o: Offset, ix: int, iy: int): Offset
  {
    Offset(o.x + ix, o.y + iy)
  }

  // ---------------------------------------------------------------------------
  // The pen advance of DrawString

  /** The font functions DrawString uses: rune to glyph index, pair kerning and advance width, in FUnits. */
  datatype Metrics = Metrics(index: int -> uint16, kerning: (uint16, uint16) -> int16, advance: uint16 -> uint16)

  /** The pen after the runes: before each rune but the first, the kerning with the previous glyph; after each, its advance. */
  function PenAt(scale: int, m: Metrics, p: Point, runes: seq<int>): (r: Point)
    ensures r.y == p.y
    decreases |runes|
  {
    if runes == [] then p
    else
      var q := PenAt(scale, m, p, runes[..|runes| - 1]);
      var idx := m.index(runes[|runes| - 1]);
      var prev := if |runes| >= 2 then Some(m.index(runes[|runes| - 2])) else None;
      Advanced(scale, m, Kerned(scale, m, q, prev, idx), idx)
  }

  /** The pen moved by the kerning between the previous glyph, if any, and this one. */
  function Kerned(scale: int, m: Metrics, p: Point, prev: Option<uint16>, idx: uint16): (r: Point)
    ensures r.y == p.y
  {
    if prev.Some? then Point(Int32(p.x + FUnitToFix32(scale, m.kerning(prev.value, idx))), p.y) else p
  }

  /** The pen moved by the glyph's advance width. */
  function Advanced(scale: int, m: Metrics, p: Point, idx: uint16): (r: Point)
    ensures r.y == p.y
  {
    Point(Int32(p.x + FUnitToFix32(scale, m.advance(idx))), p.y)
  }

  /** The first rune is not kerned: the pen only moves by its advance. */
  lemma PenFirstRune(scale: int, m: Metrics, p: Point, c: int)
    ensures PenAt(scale, m, p, [c]) == Point(Int32(p.x + FUnitToFix32(scale, m.advance(m.index(c)))), p.y)
  {
    assert [c][..0] == [];
  }

  /** PenAt after one more rune, as DrawString's loop computes it. */
  lemma PenAtStep(scale: int, m: Metrics, p: Point, runes: seq<int>, i: nat)
    requires i < |runes|
    ensures var prev := if i > 0 then Some(m.index(runes[i - 1])) else None;
      var idx := m.index(runes[i]);
      PenAt(scale, m, p, runes[..i + 1]) == Advanced(scale, m, Kerned(scale, m, PenAt(scale, m, p, runes[..i]), prev, idx), idx)
  {
    assert runes[..i + 1][..i] == runes[..i];
    assert runes[..i + 1][i] == runes[i];
    if i > 0 {
      assert runes[..i + 1][i - 1] == runes[i - 1];
    }
  }

  /** The pen at which DrawString looks up the k-th rune's glyph: after the earlier runes and this one's kerning. */
  function GlyphPen(scale: int, m: Metrics, p: Point, runes: seq<int>, k: nat): (r: Point)
    requires k < |runes|
    ensures r.y == p.y
  {
    var prev := if k > 0 then Some(m.index(runes[k - 1])) else None;
    Kerned(scale, m, PenAt(scale, m, p, runes[..k]), prev, m.index(runes[k]))
  }

  /** A valid cache entry in slot t that rasterize produced for its glyph at a fraction mapping to t. */
  ghost predicate RasterizedEntry(e: CacheEntry, t: int, rasterize: RasterFn)
  {
    e.valid && e.mask.Some? &&
    exists fx, fy :: 0 <= fx < 256 && 0 <= fy < 256 && CacheSlot(e.glyph, fx, fy) == t &&
      rasterize(e.glyph, fx, fy) == Some((e.mask.value, e.offset))
  }

  /** Go's int32 wrap-around depends only on the value modulo 2^32. */
  lemma Int32Congruent(a: int, b: int)
    requires (a - b) % 0x1_0000_0000 == 0
    ensures Int32(a) == Int32(b)
  {
    var k := (a - b) / 0x1_0000_0000;
    assert a == b + 0x1_0000_0000 * k;
    assert a % 0x1_0000_0000 == b % 0x1_0000_0000;
  }

  /** Wrapping after each of two additions is wrapping once after both. */
  lemma WrappedSum(x: int, s: int, adv: int, q: int, r: int, total: int)
    requires q == Int32(x + s) && r == Int32(q + adv) && total == s + adv
    ensures r == Int32(x + total)
  {
    Int32AddWrap(x + s, adv);
    assert x + s + adv == x + (s + adv);
  }

  /** Wrapping an intermediate sum to int32 does not change the wrapped total. */
  lemma Int32AddWrap(a: int, b: int)
    ensures Int32(Int32(a) + b) == Int32(a + b)
  {
    var w := Int32(a);
    assert (a - w) % 0x1_0000_0000 == 0;
    assert (w + b) - (a + b) == w - a;
    Int32Congruent(w + b, a + b);
  }

  /** The sum of the runes' advances, in 24.8 units. */
  function AdvanceSum(scale: int, m: Metrics, runes: seq<int>): int
    decreases |runes|
  {
    if runes == [] then 0
    else AdvanceSum(scale, m, runes[..|runes| - 1]) + FUnitToFix32(scale, m.advance(m.index(runes[|runes| - 1])))
  }

  /** Without kerning, the pen ends at the start plus the sum of the advances, modulo 2^32. */
  lemma PenWithoutKerning(scale: int, m: Metrics, p: Point, runes: seq<int>)
    requires forall a, b :: m.kerning(a, b) == 0
    ensures PenAt(scale, m, p, runes).x == Int32(p.x + AdvanceSum(scale, m, runes))
  {
    PenIsUnkerned(scale, m, p, runes);
    UnkernedPenSum(scale, m, p, runes);
  }

  /** The pen moved by each rune's advance alone. */
  function UnkernedPen(scale: int, m: Metrics, p: Point, runes: seq<int>): Point
    decreases |runes|
  {
    if runes == [] then p
    else Advanced(scale, m, UnkernedPen(scale, m, p, runes[..|runes| - 1]), m.index(runes[|runes| - 1]))
  }

  /** With no kerning the pen moves by the advances alone. */
  lemma {:induction false} PenIsUnkerned(scale: int, m: Metrics, p: Point, runes: seq<int>)
    requires forall a, b :: m.kerning(a, b) == 0
    ensures PenAt(scale, m, p, runes) == UnkernedPen(scale, m, p, runes)
    decreases |runes|
  {
    if runes != [] {
      var init := runes[..|runes| - 1];
      PenIsUnkerned(scale, m, p, init);
      var q := PenAt(scale, m, p, init);
      var idx := m.index(runes[|runes| - 1]);
      var prev := if |runes| >= 2 then Some(m.index(runes[|runes| - 2])) else None;
      assert Kerned(scale, m, q, prev, idx) == q by {
        if prev.Some? {
          assert m.kerning(prev.value, idx) == 0;
          assert FUnitToFix32(scale, 0) == 0;
        }
      }
    }
  }

  /** The unkerned pen's x is the start plus the sum of the advances, wrapped once. */
  lemma {:induction false} UnkernedPenSum(scale: int, m: Metrics, p: Point, runes: seq<int>)
    ensures UnkernedPen(scale, m, p, runes).x == Int32(p.x + AdvanceSum(scale, m, runes))
    decreases |runes|
  {
    if runes != [] {
      var init := runes[..|runes| - 1];
      var adv := FUnitToFix32(scale, m.advance(m.index(runes[|runes| - 1])));
      var q := UnkernedPen(scale, m, p, init);
      UnkernedPenSum(scale, m, p, init);
      WrappedSum(p.x, AdvanceSum(scale, m, init), adv, q.x, UnkernedPen(scale, m, p, runes).x, AdvanceSum(scale, m, runes));
    }
  }

  // ---------------------------------------------------------------------------
  // The context

  /** recalc's loop: every cache entry becomes the zero entry. */
  method InvalidateAll(cache: array<CacheEntry>)
    modifies cache
    ensures forall i :: 0 <= i < cache.Length ==> cache[i] == EmptyEntry
  {
    var i := 0;
    while i < cache.Length
      invariant 0 <= i <= cache.Length
      invariant forall k :: 0 <= k < i ==> cache[k] == EmptyEntry
    {
      cache[i] := EmptyEntry;
      i := i + 1;
    }
  }

  class Context {
    var fontSize: real
    var dpi: int
    var upe: int
    var scale: int
    var font: Option<FontRef>
    /** The rasterizer's bounds, as SetBounds last set them. */
    var boundsW: int
    var boundsH: int
    /** The calls the rasterizer has received. */
    var adder: seq<AdderCall>
    var cache: array<CacheEntry>

    /** The cache has its fixed size, units per em are positive, and every valid entry holds a mask. */
    ghost predicate Valid()
      reads this, cache
    {
      cache.Length == CacheSize && upe >= 1 &&
      forall i :: 0 <= i < cache.Length && cache[i].valid ==> cache[i].mask.Some?
    }

    /** NewContext: 12 points at 72 DPI, 2048 units per em, scale 384, no font, an empty cache. */
    constructor ()
      ensures Valid() && fresh(cache)
      ensures fontSize == 12.0 && dpi == 72 && upe == 2048 && scale == 384 && font == None
      ensures boundsW == 0 && boundsH == 0 && adder == []
      ensures forall i :: 0 <= i < cache.Length ==> cache[i] == EmptyEntry
    {
      fontSize := 12.0;
      dpi := 72;
      upe := 2048;
      scale := (12 * 72 * 256 * 256) / (2048 * 72);
      font := None;
      boundsW, boundsH := 0, 0;
      adder := [];
      cache := new CacheEntry[CacheSize](_ => EmptyEntry);
    }

    /**
     * The rasterizer bounds recalc sets: none without a font, otherwise
     * wide and tall enough for the font's largest glyph at the current scale.
     */
    ghost predicate RecalcBounds()
      reads this
    {
      if font.None? then boundsW == 0 && boundsH == 0
      else
        boundsW == FUnitToPixelRU(scale, font.value.xMax) - FUnitToPixelRD(scale, font.value.xMin) &&
        boundsH == FUnitToPixelRU(scale, -(font.value.yMin as int)) - FUnitToPixelRD(scale, -(font.value.yMax as int))
    }

    /**
     * recalc: the scale from the size, resolution and units per em; the
     * rasterizer bounds from the font's bounds (none without a font); every
     * cache entry invalidated.
     */
    method Recalc()
      requires Valid()
      modifies this, cache
      ensures Valid() && cache == old(cache)
      ensures fontSize == old(fontSize) && dpi == old(dpi) && upe == old(upe) && font == old(font) && adder == old(adder)
      ensures scale == ScaleOf(fontSize, dpi, upe)
      ensures font.None? ==> boundsW == 0 && boundsH == 0
      ensures font.Some? ==>
        boundsW == FUnitToPixelRU(scale, font.value.xMax) - FUnitToPixelRD(scale, font.value.xMin) &&
        boundsH == FUnitToPixelRU(scale, -(font.value.yMin as int)) - FUnitToPixelRD(scale, -(font.value.yMax as int))
      ensures forall i :: 0 <= i < cache.Length ==> cache[i] == EmptyEntry
    {
      scale := ScaleOf(fontSize, dpi, upe);
      if font.None? {
        boundsW, boundsH := 0, 0;
      } else {
        var b := font.value;
        var xmin := FUnitToPixelRD(scale, b.xMin);
        var ymin := FUnitToPixelRD(scale, -(b.yMax as int));
        var xmax := FUnitToPixelRU(scale, b.xMax);
        var ymax := FUnitToPixelRU(scale, -(b.yMin as int));
        boundsW, boundsH := xmax - xmin, ymax - ymin;
      }
      InvalidateAll(cache);
    }

    /** SetDPI: nothing when the resolution is unchanged; otherwise set it and recalc. */
    method SetDPI(newDpi: int)
      requires Valid()
      modifies this, cache
      ensures Valid() && cache == old(cache) && dpi == newDpi
      ensures old(dpi) == newDpi ==> unchanged(this) && unchanged(cache)
      ensures old(dpi) != newDpi ==>
        scale == ScaleOf(fontSize, newDpi, upe) && fontSize == old(fontSize) && upe == old(upe) && font == old(font) &&
        adder == old(adder) && RecalcBounds() &&
        forall i :: 0 <= i < cache.Length ==> cache[i] == EmptyEntry
    {
      if dpi == newDpi {
        return;
      }
      dpi := newDpi;
      Recalc();
    }

    /**
     * SetFont: nothing for the same font; otherwise take its units per em,
     * at least 1, and recalc. A nil font (None) replacing a font is stored
     * and then panics in UnitsPerEm, leaving everything else as it was.
     */
    method SetFont(f: Option<FontRef>) returns (ok: bool)
      requires Valid()
      modifies this, cache
      ensures Valid() && cache == old(cache) && font == f
      ensures ok <==> old(font) == f || f.Some?
      ensures old(font) == f ==> unchanged(this) && unchanged(cache)
      ensures old(font) != f && f.None? ==>
        unchanged(cache) && fontSize == old(fontSize) && dpi == old(dpi) && upe == old(upe) && scale == old(scale) &&
        boundsW == old(boundsW) && boundsH == old(boundsH) && adder == old(adder)
      ensures old(font) != f && f.Some? ==>
        upe == (if f.value.unitsPerEm <= 0 then 1 else f.value.unitsPerEm) &&
        scale == ScaleOf(fontSize, dpi, upe) && fontSize == old(fontSize) && dpi == old(dpi) &&
        adder == old(adder) && RecalcBounds() &&
        forall i :: 0 <= i < cache.Length ==> cache[i] == EmptyEntry
    {
      if font == f {
        return true;
      }
      font := f;
      if f.None? {
        return false;
      }
      upe := f.value.unitsPerEm;
      if upe <= 0 {
        upe := 1;
      }
      Recalc();
      return true;
    }

    /** SetFontSize: nothing when the size is unchanged; otherwise set it and recalc. */
    method SetFontSize(size: real)
      requires Valid()
      modifies this, cache
      ensures Valid() && cache == old(cache) && fontSize == size
      ensures old(fontSize) == size ==> unchanged(this) && unchanged(cache)
      ensures old(fontSize) != size ==>
        scale == ScaleOf(size, dpi, upe) && dpi == old(dpi) && upe == old(upe) && font == old(font) &&
        adder == old(adder) && RecalcBounds() &&
        forall i :: 0 <= i < cache.Length ==> cache[i] == EmptyEntry
    {
      if fontSize == size {
        return;
      }
      fontSize := size;
      Recalc();
    }

    /** drawContour: the rasterizer receives the calls of ContourCalls, after those it had. */
    method DrawContour(ps: seq<GlyphPoint>, dx: int32, dy: int32)
      modifies this
      ensures adder == old(adder) + ContourCalls(scale, ps, dx, dy)
      ensures fontSize == old(fontSize) && dpi == old(dpi) && upe == old(upe) && scale == old(scale)
      ensures font == old(font) && boundsW == old(boundsW) && boundsH == old(boundsH) && cache == old(cache)
    {
      var calls := DrawContourCalls(scale, ps, dx, dy);
      adder := adder + calls;
    }

    /**
     * glyph: split the pen into whole pixels and a fraction; on a hit (a
     * valid entry for the same glyph in the slot) return the cached mask
     * with its offset moved by the whole pixels; on a miss rasterize, store
     * a valid entry on success, and return the same.
     */
    method Glyph(g: uint16, p: Point, rasterize: RasterFn) returns (r: Option<(Mask, Offset)>)
      requires Valid()
      modifies cache
      ensures Valid()
      ensures var ix, fx, iy, fy := p.x / 256, p.x % 256, p.y / 256, p.y % 256;
        var t := CacheSlot(g, fx, fy);
        var e := old(cache[t]);
        (forall i :: 0 <= i < cache.Length && i != t ==> cache[i] == old(cache[i])) &&
        (if e.valid && e.glyph == g then
           e.mask.Some? && cache[t] == e && r == Some((e.mask.value, Shift(e.offset, ix, iy)))
         else match rasterize(g, fx, fy)
           case None => r == None && cache[t] == e
           case Some((mask, offset)) =>
             r == Some((mask, Shift(offset, ix, iy))) && cache[t] == CacheEntry(true, g, Some(mask), offset))
    {
      var ix, fx := p.x / 256, p.x % 256;
      var iy, fy := p.y / 256, p.y % 256;
      var tg := g % NGlyphs;
      var tx := fx / (256 / NXFractions);
      var ty := fy / (256 / NYFractions);
      var t := ((tg * NXFractions) + tx) * NYFractions + ty;
      assert t == CacheSlot(g, fx, fy);
      if cache[t].valid && cache[t].glyph == g {
        return Some((cache[t].mask.value, Shift(cache[t].offset, ix, iy)));
      }
      var res := rasterize(g, fx, fy);
      if res.None? {
        return None;
      }
      var (mask, offset) := res.value;
      cache[t] := CacheEntry(true, g, Some(mask), offset);
      return Some((mask, Shift(offset, ix, iy)));
    }

    /**
     * DrawString: an error without a font or when a glyph missing from the
     * cache fails to rasterize; otherwise the pen advanced over the runes as
     * PenAt says. Every cache slot keeps its entry or receives one rasterize
     * produced for that slot. Drawing the masks onto the destination is not
     * part of this model.
     */
    method DrawString(runes: seq<int>, p: Point, m: Metrics, rasterize: RasterFn) returns (r: Option<Point>)
      requires Valid()
      modifies cache
      ensures Valid()
      ensures font.None? ==> r.None? && unchanged(cache)
      ensures r.Some? ==> r.value == PenAt(scale, m, p, runes)
      ensures font.Some? && (forall g, fx, fy :: rasterize(g, fx, fy).Some?) ==> r.Some?
      ensures r.None? && font.Some? ==>
        exists k :: 0 <= k < |runes| &&
          var q := GlyphPen(scale, m, p, runes, k);
          rasterize(m.index(runes[k]), q.x % 256, q.y % 256).None?
      ensures forall t :: 0 <= t < cache.Length ==> cache[t] == old(cache[t]) || RasterizedEntry(cache[t], t, rasterize)
    {
      if font.None? {
        return None;
      }
      var pen := p;
      var prev: Option<uint16> := None;
      var i := 0;
      while i < |runes|
        invariant 0 <= i <= |runes|
        invariant Valid()
        invariant pen == PenAt(scale, m, p, runes[..i])
        invariant prev == if i > 0 then Some(m.index(runes[i - 1])) else None
        invariant forall t :: 0 <= t < cache.Length ==> cache[t] == old(cache[t]) || RasterizedEntry(cache[t], t, rasterize)
      {
        PenAtStep(scale, m, p, runes, i);
        var index := m.index(runes[i]);
        pen := Kerned(scale, m, pen, prev, index);
        assert pen == GlyphPen(scale, m, p, runes, i);
        ghost var before := cache[..];
        ghost var fx, fy := pen.x % 256, pen.y % 256;
        var res := Glyph(index, pen, rasterize);
        if res.None? {
          assert rasterize(index, fx, fy).None?;
          return None;
        }
        forall t | 0 <= t < cache.Length && cache[t] != before[t]
          ensures RasterizedEntry(cache[t], t, rasterize)
        {
          assert CacheSlot(index, fx, fy) == t;
        }
        pen := Advanced(scale, m, pen, index);
        prev := Some(index);
        i := i + 1;
      }
      assert runes[..i] == runes;
      return Some(pen);
    }
  }
}
