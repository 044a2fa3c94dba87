/**
 * Model of truetype/face.go: the options of a font face, the sub-pixel
 * quantization of a glyph's dot, kerning rounding, the pixel bounds of a
 * glyph, and the conversion of a glyph's contours (26.6 fixed point, Y going
 * up) into rasterizer calls (Y going down, offset by the sub-pixel dot).
 *
 * fixed.Int26_6 is an int32, so every sum and negation on it wraps. Go's `int`
 * is 64 bits wide; it is modelled as an unbounded integer. The rasterizer is
 * the abstract call log of RasterGeom; loading a glyph (GlyphBuf.Load, the
 * font's Index and Kern) happens outside this file and enters as values.
 */
module Face {
  import opened Ints
  import opened RasterGeom

  // ---------------------------------------------------------------------------
  // Options

  /** font.Hinting values. */
  const HintingNone: int := 0
  const HintingVertical: int := 1
  const HintingFull: int := 2

  /** The options of a face; size and dpi are real numbers (float64 in Go). */
  datatype Options = Options(size: real, dpi: real, hinting: int, subPixelsX: int, subPixelsY: int)

  /** size(): the point size, 12 when the options are missing or the size is not positive. */
  function Size(o: Option<Options>): (r: real)
    ensures r > 0.0
    ensures o.Some? && o.value.size > 0.0 ==> r == o.value.size
    ensures !(o.Some? && o.value.size > 0.0) ==> r == 12.0
  {
    if o.Some? && o.value.size > 0.0 then o.value.size else 12.0
  }

  /** dpi(): the resolution, 72 when the options are missing or the resolution is not positive. */
  function Dpi(o: Option<Options>): (r: real)
    ensures r > 0.0
    ensures o.Some? && o.value.dpi > 0.0 ==> r == o.value.dpi
    ensures !(o.Some? && o.value.dpi > 0.0) ==> r == 72.0
  {
    if o.Some? && o.value.dpi > 0.0 then o.value.dpi else 72.0
  }

  /** hinting(): vertical and full hinting both mean full hinting; anything else means none. */
  function HintingOf(o: Option<Options>): (r: int)
    ensures r == HintingFull || r == HintingNone
    ensures r == HintingFull <==> o.Some? && (o.value.hinting == HintingVertical || o.value.hinting == HintingFull)
  {
    if o.Some? && (o.value.hinting == HintingVertical || o.value.hinting == HintingFull) then HintingFull
    else HintingNone
  }

  /** The accepted numbers of sub-pixel positions: the powers of two from 1 to 64. */
  predicate ValidQuantum(q: int)
  {
    q == 1 || q == 2 || q == 4 || q == 8 || q == 16 || q == 32 || q == 64
  }

  /** subPixels(q): the bias 32/q and the mask −64/q that round a 26.6 value to one of q positions per pixel. */
  function SubPixels(q: int): (r: (int32, int32))
    requires ValidQuantum(q)
    ensures r.0 == Quot(32, q) && r.1 == Quot(-64, q)
    ensures IsMask(r.1) && r.0 == Step(r.1) / 2
  {
    (Quot(32, q), Quot(-64, q))
  }

  /** The masks subPixels makes: −1, −2, −4, …, −64, each the two's complement of a power of two. */
  predicate IsMask(m: int)
  {
    m == -1 || m == -2 || m == -4 || m == -8 || m == -16 || m == -32 || m == -64
  }

  /** The distance between two neighbouring quantized positions, 64/q. */
  function Step(m: int): (r: nat)
    requires IsMask(m)
    ensures r > 0 && r + m == 0
  {
    -m
  }

  /** The bias and mask for the examples in the comment of subPixels. */
  lemma SubPixelsExamples()
    ensures SubPixels(1) == (32, -64)
    ensures SubPixels(2) == (16, -32)
    ensures SubPixels(4) == (8, -16)
    ensures SubPixels(64) == (0, -1)
  {
  }

  /** subPixelsX(): the horizontal quantization, 4 positions when the field is not an accepted value. */
  function SubPixelsX(o: Option<Options>): (r: (int32, int32))
    ensures o.Some? && ValidQuantum(o.value.subPixelsX) ==> r == SubPixels(o.value.subPixelsX)
    ensures !(o.Some? && ValidQuantum(o.value.subPixelsX)) ==> r == (8, -16)
  {
    if o.Some? && ValidQuantum(o.value.subPixelsX) then SubPixels(o.value.subPixelsX) else SubPixels(4)
  }

  /** subPixelsY() as written: it reads the SubPixelsX field, falling back to 1 position. */
  function SubPixelsYAsWritten(o: Option<Options>): (r: (int32, int32))
    ensures o.Some? && ValidQuantum(o.value.subPixelsX) ==> r == SubPixels(o.value.subPixelsX)
    ensures !(o.Some? && ValidQuantum(o.value.subPixelsX)) ==> r == (32, -64)
  {
    if o.Some? && ValidQuantum(o.value.subPixelsX) then SubPixels(o.value.subPixelsX) else SubPixels(1)
  }

  /** The SubPixelsY field has no effect on subPixelsY as written: 8 vertical positions are asked for, 4 are used. */
  lemma SubPixelsYIgnoresItsField()
    ensures var o := Some(Options(12.0, 72.0, HintingNone, 4, 8));
      SubPixelsYAsWritten(o) == (8, -16) && SubPixels(8) == (4, -8)
  {
  }

  /** subPixelsY() as documented: the vertical quantization from the SubPixelsY field, 1 position by default. */
  function SubPixelsY(o: Option<Options>): (r: (int32, int32))
    ensures o.Some? && ValidQuantum(o.value.subPixelsY) ==> r == SubPixels(o.value.subPixelsY)
    ensures !(o.Some? && ValidQuantum(o.value.subPixelsY)) ==> r == (32, -64)
  {
    if o.Some? && ValidQuantum(o.value.subPixelsY) then SubPixels(o.value.subPixelsY) else SubPixels(1)
  }

  /** The quantization settings of a face, chosen once from its options. */
  datatype Quantization = Quantization(hinting: int, biasX: int32, maskX: int32, biasY: int32, maskY: int32)

  /**
   * The integer settings NewFace takes from its options. The vertical ones
   * come from the corrected SubPixelsY; face.go:141 calls the as-written
   * subPixelsY, which reads the SubPixelsX field (SubPixelsYAsWritten).
   */
  function NewQuantization(o: Option<Options>): (r: Quantization)
    ensures IsMask(r.maskX) && IsMask(r.maskY)
    ensures r.biasX == Step(r.maskX) / 2 && r.biasY == Step(r.maskY) / 2
    ensures o.Some? && ValidQuantum(o.value.subPixelsY) ==> Step(r.maskY) * o.value.subPixelsY == 64
  {
    var (biasX, maskX) := SubPixelsX(o);
    var (biasY, maskY) := SubPixelsY(o);
    Quantization(HintingOf(o), biasX, maskX, biasY, maskY)
  }

  // ---------------------------------------------------------------------------
  // Kern and Glyph arithmetic

  /** Go's x &^ 63 and x & m for a mask m = −2^k, on int32 values: clear the low bits. */
  function AndMask(x: int32, m: int): (r: int32)
    requires IsMask(m)
    ensures r == FloorTo(x, Step(m))
  {
    FloorTo(x, Step(m))
  }

  /** Kern: the font's kerning, rounded to the nearest whole pixel when the face hints. */
  function Kern(hinting: int, kern: int32): (r: int32)
    ensures hinting == HintingNone ==> r == kern
    ensures hinting != HintingNone ==> r % 64 == 0
    ensures hinting != HintingNone && kern + 32 <= MaxInt32 ==> kern - 32 < r <= kern + 32
  {
    if hinting != HintingNone then AndMask(Int32(kern + 32), -64) else kern
  }

  /** The dot coordinate rounded to the nearest of the face's sub-pixel positions: (x + bias) & mask. */
  function Quantize(x: int32, bias: int32, mask: int): (r: int32)
    requires IsMask(mask)
    ensures r % Step(mask) == 0
    ensures MinInt32 <= x + bias <= MaxInt32 ==> r <= x + bias < r + Step(mask)
  {
    var y := Int32(x + bias);
    MultipleMod(Step(mask), y / Step(mask));
    AndMask(y, mask)
  }

  /** Go's x >> 6 and x & 0x3f on a 26.6 value: the whole pixels and the fraction in [0, 64). */
  function SplitDot(x: int32): (r: (int, int))
    ensures 0 <= r.1 < 64 && r.0 * 64 + r.1 == x
  {
    (x / 64, x % 64)
  }

  /** The pixel bounds of a loaded glyph's box, in 26.6 units with Y going up. */
  datatype Bounds = Bounds(xMin: int32, yMin: int32, xMax: int32, yMax: int32)

  /** What GlyphBuf.Load leaves behind: the box, the advance, the points and the contour ends. */
  datatype LoadedGlyph = LoadedGlyph(b: Bounds, advance: int32, points: seq<GlyphPoint>, ends: seq<int>)

  /** A glyph point: 26.6 coordinates and flags whose bit 0 says whether it is on the curve. */
  datatype GlyphPoint = GlyphPoint(x: int32, y: int32, flags: uint32)

  /** A 26.6 rectangle, Y going down. */
  datatype Rect26 = Rect26(minX: int32, minY: int32, maxX: int32, maxY: int32)

  /**
   * GlyphBounds: the glyph's box flipped to Y going down, with its advance;
   * not ok when loading failed or the flipped box is empty.
   */
  function GlyphBounds(load: Option<LoadedGlyph>): (r: Option<(Rect26, int32)>)
    ensures load.None? ==> r.None?
    ensures r.Some? ==> r.value.0.minX <= r.value.0.maxX && r.value.0.minY <= r.value.0.maxY
    ensures r.Some? ==> r.value.1 == load.value.advance
    ensures load.Some? && load.value.b.yMin != MinInt32 && load.value.b.yMax != MinInt32 ==>
      (r.Some? <==> load.value.b.xMin <= load.value.b.xMax && load.value.b.yMin <= load.value.b.yMax)
    ensures r.Some? && load.value.b.yMin != MinInt32 && load.value.b.yMax != MinInt32 ==>
      r.value.0 == Rect26(load.value.b.xMin, -load.value.b.yMax, load.value.b.xMax, -load.value.b.yMin)
  {
    if load.None? then None
    else
      var b := load.value.b;
      var xmin, ymin, xmax, ymax := b.xMin, Int32(-(b.yMax as int)), b.xMax, Int32(-(b.yMin as int));
      if xmin > xmax || ymin > ymax then None
      else Some((Rect26(xmin, ymin, xmax, ymax), load.value.advance))
  }

  /** The whole-pixel box rasterize computes: (xmin, ymin, xmax, ymax), or nothing when it is empty. */
  function PixelBox(b: Bounds, fx: int32, fy: int32): (r: Option<(int, int, int, int)>)
    ensures r.Some? ==> r.value.0 <= r.value.2 && r.value.1 <= r.value.3
  {
    var xmin := Int32(fx + b.xMin) / 64;
    var ymin := Int32(fy - b.yMax) / 64;
    var xmax := Int32(fx + b.xMax + 0x3f) / 64;
    var ymax := Int32(fy - b.yMin + 0x3f) / 64;
    if xmin > xmax || ymin > ymax then None else Some((xmin, ymin, xmax, ymax))
  }

  /**
   * When no sum wraps, the pixel box holds the glyph's box moved by the
   * fraction (fx, fy): its edges are the floor and ceiling pixels.
   */
  lemma PixelBoxCovers(b: Bounds, fx: int32, fy: int32)
    requires b.xMin <= b.xMax && b.yMin <= b.yMax
    requires 0 <= fx < 64 && 0 <= fy < 64
    requires fx + b.xMax + 0x3f <= MaxInt32 && fx + b.xMin >= MinInt32
    requires fy - b.yMin + 0x3f <= MaxInt32 && fy - b.yMax >= MinInt32
    ensures PixelBox(b, fx, fy).Some?
    ensures var (xmin, ymin, xmax, ymax) := PixelBox(b, fx, fy).value;
      xmin * 64 <= fx + b.xMin && fx + b.xMax <= xmax * 64 &&
      ymin * 64 <= fy - b.yMax && fy - b.yMin <= ymax * 64 &&
      xmax * 64 < fx + b.xMax + 64 && ymax * 64 < fy - b.yMin + 64
  {
  }

  /** How rasterize ends: the glyph did not load or has an empty box, a contour slice was out of range, or the glyph's metrics. */
  datatype Rasterized = NotOk | SlicePanic | Rasterized(advance: int32, offsetX: int, offsetY: int, gw: int, gh: int)

  /** The result of Glyph: the next dot and the destination rectangle, in whole pixels. */
  datatype GlyphResult = GlyphResult(newDotX: int32, newDotY: int32, minX: int, minY: int, maxX: int, maxY: int)

  /**
   * Glyph's arithmetic: quantize the dot, split it into whole pixels and a
   * fraction, rasterize at the fraction, then advance the unquantized dot and
   * place the destination rectangle at the whole pixels plus the rasterizer's
   * offset. The caller supplies rasterize's outcome r for the fractions
   * GlyphFractions gives; Rasterize states what that outcome is.
   */
  function GlyphFrom(q: Quantization, dotX: int32, dotY: int32, r: Rasterized): (g: Option<GlyphResult>)
    requires IsMask(q.maskX) && IsMask(q.maskY)
    ensures r.Rasterized? <==> g.Some?
    ensures g.Some? ==> g.value.newDotY == dotY
    ensures g.Some? && MinInt32 <= dotX + r.advance <= MaxInt32 ==> g.value.newDotX == dotX + r.advance
    ensures g.Some? ==> g.value.minX - r.offsetX == SplitDot(Quantize(dotX, q.biasX, q.maskX)).0
    ensures g.Some? ==> g.value.minY - r.offsetY == SplitDot(Quantize(dotY, q.biasY, q.maskY)).0
    ensures g.Some? ==> g.value.maxX - g.value.minX == r.gw && g.value.maxY - g.value.minY == r.gh
  {
    if !r.Rasterized? then None
    else
      var (ix, _) := SplitDot(Quantize(dotX, q.biasX, q.maskX));
      var (iy, _) := SplitDot(Quantize(dotY, q.biasY, q.maskY));
      var minX, minY := ix + r.offsetX, iy + r.offsetY;
      Some(GlyphResult(Int32(dotX + r.advance), dotY, minX, minY, minX + r.gw, minY + r.gh))
  }

  /**
   * The rectangle's whole pixels are those of the biased dot: quantizing never
   * crosses a pixel boundary, so when x + bias does not wrap, the pixel Glyph
   * places the mask at is the floor of (x + bias) / 64.
   */
  lemma GlyphCornerPixel(q: Quantization, dotX: int32, dotY: int32, r: Rasterized)
    requires IsMask(q.maskX) && IsMask(q.maskY) && r.Rasterized?
    ensures MinInt32 <= dotX + q.biasX <= MaxInt32 ==>
      GlyphFrom(q, dotX, dotY, r).value.minX - r.offsetX == (dotX + q.biasX) / 64
    ensures MinInt32 <= dotY + q.biasY <= MaxInt32 ==>
      GlyphFrom(q, dotX, dotY, r).value.minY - r.offsetY == (dotY + q.biasY) / 64
  {
    if MinInt32 <= dotX + q.biasX <= MaxInt32 {
      QuantizeKeepsPixel(dotX, q.biasX, q.maskX);
    }
    if MinInt32 <= dotY + q.biasY <= MaxInt32 {
      QuantizeKeepsPixel(dotY, q.biasY, q.maskY);
    }
  }

  /** Quantizing x + bias to a divisor of 64 stays in the pixel of x + bias. */
  lemma QuantizeKeepsPixel(x: int32, bias: int32, mask: int)
    requires IsMask(mask) && MinInt32 <= x + bias <= MaxInt32
    ensures SplitDot(Quantize(x, bias, mask)).0 == (x + bias) / 64
  {
    var v := Quantize(x, bias, mask);
    var s := Step(mask);
    var (i, f) := SplitDot(v);
    assert f % s == 0 by {
      FractionOnGrid(v, s);
    }
    assert f + s <= 64 by {
      var t, n := f / s, 64 / s;
      assert f == s * t && s * n == 64;
      if t >= n {
        MulMono(s, n, t);
      }
      MulMono(s, t + 1, n);
    }
    DivModUnique(x + bias, 64, i, x + bias - 64 * i);
  }

  /** The sub-pixel fractions Glyph passes to rasterize are in [0, 64) and on the face's quantization grid. */
  lemma GlyphFractions(q: Quantization, dotX: int32, dotY: int32)
    requires IsMask(q.maskX) && IsMask(q.maskY)
    ensures var fx := SplitDot(Quantize(dotX, q.biasX, q.maskX)).1;
      var fy := SplitDot(Quantize(dotY, q.biasY, q.maskY)).1;
      0 <= fx < 64 && 0 <= fy < 64 && fx % Step(q.maskX) == 0 && fy % Step(q.maskY) == 0
  {
    var x := Quantize(dotX, q.biasX, q.maskX);
    var y := Quantize(dotY, q.biasY, q.maskY);
    FractionOnGrid(x, Step(q.maskX));
    FractionOnGrid(y, Step(q.maskY));
  }

  /** A multiple of a divisor of 64 leaves a fraction mod 64 that is a multiple of the same divisor. */
  lemma FractionOnGrid(x: int, s: nat)
    requires s == 1 || s == 2 || s == 4 || s == 8 || s == 16 || s == 32 || s == 64
    requires x % s == 0
    ensures (x % 64) % s == 0
  {
    // x % 64 is x less a multiple of 64, itself a multiple of s.
    var t, a, q := 64 / s, x / s, x / 64;
    assert s * t == 64 && x == s * a;
    assert 64 * q == s * (t * q);
    assert x % 64 == s * (a - t * q);
    MultipleMod(s, a - t * q);
  }

  // ---------------------------------------------------------------------------
  // clear

  /** clear: every byte of the mask becomes 0. */
  method Clear(pix: array<byte>)
    modifies pix
    ensures forall i :: 0 <= i < pix.Length ==> pix[i] == 0
  {
    var i := 0;
    while i < pix.Length
      invariant 0 <= i <= pix.Length
      invariant forall k :: 0 <= k < i ==> pix[k] == 0
    {
      pix[i] := 0;
      i := i + 1;
    }
  }

  // ---------------------------------------------------------------------------
  // drawContour

  predicate OnCurve(p: GlyphPoint)
  {
    p.flags % 2 == 1
  }

  /** A glyph point in rasterizer space: offset by (dx, dy) with Y flipped, each sum wrapping. */
  function Place(p: GlyphPoint, dx: int32, dy: int32): Point
  {
    Point(Int32(dx + p.x), Int32(dy - p.y))
  }

  /** The start of the contour: the first point if on the curve, else the last if on the curve, else their midpoint. */
  function StartPoint(ps: seq<GlyphPoint>, dx: int32, dy: int32): Point
    requires |ps| > 0
  {
    if OnCurve(ps[0]) then Place(ps[0], dx, dy)
    else if OnCurve(ps[|ps| - 1]) then Place(ps[|ps| - 1], dx, dy)
    else Midpoint(Place(ps[0], dx, dy), Place(ps[|ps| - 1], dx, dy))
  }

  /** The points walked after the start; an on-curve last point used as the start is left out. */
  function Others(ps: seq<GlyphPoint>): (r: seq<GlyphPoint>)
    requires |ps| > 0
    ensures forall p :: p in r ==> p in ps
    ensures !OnCurve(ps[0]) && OnCurve(ps[|ps| - 1]) ==> r == ps[..|ps| - 1]
  {
    if OnCurve(ps[0]) then ps[1..]
    else if OnCurve(ps[|ps| - 1]) then ps[..|ps| - 1]
    else ps
  }

  /** The calls for point q after the previous point q0. */
  function StepCalls(q0: Point, on0: bool, q: Point, on: bool): seq<AdderCall>
  {
    if on then
      if on0 then [Add1(q)] else [Add2(q0, q)]
    else
      if on0 then [] else [Add2(q0, Midpoint(q0, q))]
  }

  /** The calls for the remaining points, then the call that closes the contour at start. */
  function Walk(q0: Point, on0: bool, rest: seq<GlyphPoint>, dx: int32, dy: int32, start: Point): seq<AdderCall>
    decreases |rest|
  {
    if rest == [] then
      [if on0 then Add1(start) else Add2(q0, start)]
    else
      var q := Place(rest[0], dx, dy);
      StepCalls(q0, on0, q, OnCurve(rest[0])) + Walk(q, OnCurve(rest[0]), rest[1..], dx, dy, start)
  }

  /** The calls drawContour makes for a contour. */
  function ContourCalls(ps: seq<GlyphPoint>, dx: int32, dy: int32): seq<AdderCall>
  {
    if ps == [] then []
    else
      var start := StartPoint(ps, dx, dy);
      [Start(start)] + Walk(start, true, Others(ps), dx, dy, start)
  }

  /** drawContour: the rasterizer receives exactly the calls of ContourCalls, in order. */
  method DrawContour(ps: seq<GlyphPoint>, dx: int32, dy: int32) returns (calls: seq<AdderCall>)
    ensures calls == ContourCalls(ps, dx, dy)
    ensures ps == [] ==> calls == []
  {
    calls := [];
    if |ps| == 0 {
      return;
    }
    var start, others := StartAndOthers(ps, dx, dy);
    ghost var target := ContourCalls(ps, dx, dy);
    calls := [Start(start)];
    var q0, on0 := start, true;
    var i := 0;
    assert others[i..] == others;
    while i < |others|
      invariant 0 <= i <= |others|
      invariant calls + Walk(q0, on0, others[i..], dx, dy, start) == target
    {
      var q, on, emitted := ContourStep(q0, on0, others[i], dx, dy);
      WalkAdvance(calls, q0, on0, others, i, dx, dy, start);
      calls := calls + emitted;
      q0, on0 := q, on;
      i := i + 1;
    }
    assert others[i..] == [];
    assert Walk(q0, on0, others[i..], dx, dy, start) == [if on0 then Add1(start) else Add2(q0, start)];
    if on0 {
      calls := calls + [Add1(start)];
    } else {
      calls := calls + [Add2(q0, start)];
    }
  }

  /** The start point and the points walked after it, as drawContour chooses them. */
  method StartAndOthers(ps: seq<GlyphPoint>, dx: int32, dy: int32) returns (start: Point, others: seq<GlyphPoint>)
    requires |ps| > 0
    ensures start == StartPoint(ps, dx, dy) && others == Others(ps)
  {
    start := Place(ps[0], dx, dy);
    if ps[0].flags % 2 != 0 {
      others := ps[1..];
    } else {
      var last := Place(ps[|ps| - 1], dx, dy);
      if ps[|ps| - 1].flags % 2 != 0 {
        start := last;
        others := ps[..|ps| - 1];
      } else {
        start := Midpoint(start, last);
        others := ps;
      }
    }
  }

  /** One iteration of drawContour's loop. */
  method ContourStep(q0: Point, on0: bool, p: GlyphPoint, dx: int32, dy: int32) returns (q: Point, on: bool, emitted: seq<AdderCall>)
    ensures q == Place(p, dx, dy) && on == OnCurve(p)
    ensures emitted == StepCalls(q0, on0, q, on)
  {
    q := Place(p, dx, dy);
    on := p.flags % 2 != 0;
    emitted := [];
    if on {
      if on0 {
        emitted := [Add1(q)];
      } else {
        emitted := [Add2(q0, q)];
      }
    } else {
      if on0 {
        // No call: the point is the control of the next spline.
      } else {
        emitted := [Add2(q0, Midpoint(q0, q))];
      }
    }
  }

  /** One more point walked: its calls move from the pending walk to the calls made. */
  lemma WalkAdvance(calls: seq<AdderCall>, q0: Point, on0: bool, others: seq<GlyphPoint>, i: nat, dx: int32, dy: int32, start: Point)
    requires i < |others|
    ensures var q := Place(others[i], dx, dy);
            calls + Walk(q0, on0, others[i..], dx, dy, start) ==
            (calls + StepCalls(q0, on0, q, OnCurve(others[i]))) + Walk(q, OnCurve(others[i]), others[i + 1..], dx, dy, start)
  {
    WalkUnfold(q0, on0, others, i, dx, dy, start);
  }

  lemma WalkUnfold(q0: Point, on0: bool, others: seq<GlyphPoint>, i: nat, dx: int32, dy: int32, start: Point)
    requires i < |others|
    ensures Walk(q0, on0, others[i..], dx, dy, start) ==
      StepCalls(q0, on0, Place(others[i], dx, dy), OnCurve(others[i])) +
      Walk(Place(others[i], dx, dy), OnCurve(others[i]), others[i + 1..], dx, dy, start)
  {
    assert others[i..][1..] == others[i + 1..];
  }

  /** A walk never starts a new contour, and its last call brings the pen back to start. */
  lemma {:induction false} WalkShape(q0: Point, on0: bool, rest: seq<GlyphPoint>, dx: int32, dy: int32, start: Point)
    ensures var w := Walk(q0, on0, rest, dx, dy, start);
      |w| > 0 && PenAfter(w[|w| - 1]) == start && forall k :: 0 <= k < |w| ==> !w[k].Start?
    decreases |rest|
  {
    if rest != [] {
      WalkShape(Place(rest[0], dx, dy), OnCurve(rest[0]), rest[1..], dx, dy, start);
    }
  }

  /** Every Add2 in the calls has its control point in the set. */
  predicate ControlsIn(calls: seq<AdderCall>, off: set<Point>)
  {
    forall k :: 0 <= k < |calls| && calls[k].Add2? ==> calls[k].b in off
  }

  lemma ControlsInAppend(head: seq<AdderCall>, tail: seq<AdderCall>, off: set<Point>)
    requires ControlsIn(head, off) && ControlsIn(tail, off)
    ensures ControlsIn(head + tail, off)
  {
    var w := head + tail;
    forall k | 0 <= k < |w| && w[k].Add2?
      ensures w[k].b in off
    {
      if k >= |head| {
        assert w[k] == tail[k - |head|];
      }
    }
  }

  /** Every Add2's control point is an off-curve point of the contour, placed. */
  lemma {:induction false} WalkControlsOffCurve(q0: Point, on0: bool, rest: seq<GlyphPoint>, dx: int32, dy: int32, start: Point, off: set<Point>)
    requires !on0 ==> q0 in off
    requires forall k :: 0 <= k < |rest| && !OnCurve(rest[k]) ==> Place(rest[k], dx, dy) in off
    ensures ControlsIn(Walk(q0, on0, rest, dx, dy, start), off)
    decreases |rest|
  {
    if rest != [] {
      var q, on := Place(rest[0], dx, dy), OnCurve(rest[0]);
      assert forall k :: 0 <= k < |rest[1..]| ==> rest[1..][k] == rest[k + 1];
      WalkControlsOffCurve(q, on, rest[1..], dx, dy, start, off);
      ControlsInAppend(StepCalls(q0, on0, q, on), Walk(q, on, rest[1..], dx, dy, start), off);
    }
  }

  /** The off-curve points of a contour, placed in rasterizer space. */
  function OffCurvePlaced(ps: seq<GlyphPoint>, dx: int32, dy: int32): set<Point>
  {
    set p | p in ps && !OnCurve(p) :: Place(p, dx, dy)
  }

  /**
   * The calls of a non-empty contour: one Start, first, at the start point,
   * and the last call returns the pen to the start.
   */
  lemma ContourShape(ps: seq<GlyphPoint>, dx: int32, dy: int32)
    requires ps != []
    ensures var calls := ContourCalls(ps, dx, dy);
      |calls| >= 2 &&
      calls[0] == Start(StartPoint(ps, dx, dy)) &&
      (forall k :: 1 <= k < |calls| ==> !calls[k].Start?) &&
      PenAfter(calls[|calls| - 1]) == StartPoint(ps, dx, dy)
  {
    var start := StartPoint(ps, dx, dy);
    var w := Walk(start, true, Others(ps), dx, dy, start);
    WalkShape(start, true, Others(ps), dx, dy, start);
    assert ContourCalls(ps, dx, dy) == [Start(start)] + w;
    StartThenWalk(start, w);
  }

  /** Every spline's control point is an off-curve point of the contour. */
  lemma ContourControlsOffCurve(ps: seq<GlyphPoint>, dx: int32, dy: int32)
    ensures ControlsIn(ContourCalls(ps, dx, dy), OffCurvePlaced(ps, dx, dy))
  {
    if ps != [] {
      var start := StartPoint(ps, dx, dy);
      var os := Others(ps);
      var off := OffCurvePlaced(ps, dx, dy);
      forall k | 0 <= k < |os| && !OnCurve(os[k])
        ensures Place(os[k], dx, dy) in off
      {
        assert os[k] in ps;
      }
      WalkControlsOffCurve(start, true, os, dx, dy, start, off);
      ControlsInAppend([Start(start)], Walk(start, true, os, dx, dy, start), off);
    }
  }

  // ---------------------------------------------------------------------------
  // rasterize

  /**
   * The calls for the contours Point[e0:End[0]], Point[End[0]:End[1]], …;
   * None when a slice bound is out of order or past the points.
   */
  function ContoursCalls(points: seq<GlyphPoint>, ends: seq<int>, e0: int, dx: int32, dy: int32): Option<seq<AdderCall>>
    decreases |ends|
  {
    if ends == [] then Some([])
    else if !(0 <= e0 <= ends[0] <= |points|) then None
    else
      var rest := ContoursCalls(points, ends[1..], ends[0], dx, dy);
      if rest.None? then None else Some(ContourCalls(points[e0..ends[0]], dx, dy) + rest.value)
  }

  /** The contours of a glyph whose ends are increasing cover exactly its points, each point once. */
  lemma {:induction false} ContoursSplitAll(points: seq<GlyphPoint>, ends: seq<int>, e0: int, dx: int32, dy: int32)
    requires 0 <= e0 && (|ends| > 0 ==> e0 <= ends[0])
    requires forall k :: 0 < k < |ends| ==> ends[k - 1] <= ends[k]
    requires forall k :: 0 <= k < |ends| ==> ends[k] <= |points|
    ensures ContoursCalls(points, ends, e0, dx, dy).Some?
    decreases |ends|
  {
    if ends != [] {
      assert ends[0] <= |points|;
      assert forall k :: 0 <= k < |ends[1..]| ==> ends[1..][k] == ends[k + 1];
      ContoursSplitAll(points, ends[1..], ends[0], dx, dy);
    }
  }

  /**
   * rasterize: not ok when the glyph did not load or its pixel box is empty;
   * otherwise the mask is cleared and every contour is drawn at the fraction
   * moved into the box.
   */
  method Rasterize(mask: array<byte>, load: Option<LoadedGlyph>, fx: int32, fy: int32)
    returns (r: Rasterized, calls: seq<AdderCall>)
    modifies mask
    ensures load.None? || PixelBox(load.value.b, fx, fy).None? ==> r == NotOk && calls == [] && unchanged(mask)
    ensures load.Some? && PixelBox(load.value.b, fx, fy).Some? ==>
      forall i :: 0 <= i < mask.Length ==> mask[i] == 0
    ensures load.Some? && PixelBox(load.value.b, fx, fy).Some? ==>
      (r == SlicePanic <==> BoxCalls(load.value, PixelBox(load.value.b, fx, fy).value, fx, fy).None?)
    ensures r.Rasterized? ==>
      var box := PixelBox(load.value.b, fx, fy).value;
      calls == BoxCalls(load.value, box, fx, fy).value &&
      r == Rasterized(load.value.advance, box.0, box.1, box.2 - box.0, box.3 - box.1)
  {
    calls := [];
    if load.None? {
      return NotOk, calls;
    }
    var g := load.value;
    var box := PixelBox(g.b, fx, fy);
    if box.None? {
      return NotOk, calls;
    }
    Clear(mask);
    var drawn := DrawContours(g.points, g.ends, BoxOffset(fx, box.value.0), BoxOffset(fy, box.value.1));
    if drawn.None? {
      return SlicePanic, calls;
    }
    r := Rasterized(g.advance, box.value.0, box.value.1, box.value.2 - box.value.0, box.value.3 - box.value.1);
    calls := drawn.value;
  }

  /** The offset of a glyph's outline inside its pixel box: the dot minus the box's corner in 26.6. */
  function BoxOffset(f: int32, corner: int): (r: int32)
    ensures MinInt32 <= f - corner * 64 <= MaxInt32 && IsInt32(corner * 64) ==> r == f - corner * 64
  {
    Int32(f - Int32(corner * 64))
  }

  /** The rasterizer calls for a glyph drawn into the pixel box `box`. */
  function BoxCalls(g: LoadedGlyph, box: (int, int, int, int), fx: int32, fy: int32): Option<seq<AdderCall>>
  {
    ContoursCalls(g.points, g.ends, 0, BoxOffset(fx, box.0), BoxOffset(fy, box.1))
  }

  /** The calls c followed by those of r, when r has any. */
  function Prefixed(c: seq<AdderCall>, r: Option<seq<AdderCall>>): (p: Option<seq<AdderCall>>)
    ensures c == [] ==> p == r
    ensures p.Some? <==> r.Some?
  {
    if r.None? then None
    else
      assert c == [] ==> c + r.value == r.value;
      Some(c + r.value)
  }

  lemma PrefixedAppend(c: seq<AdderCall>, cs: seq<AdderCall>, r: Option<seq<AdderCall>>)
    ensures Prefixed(c, Prefixed(cs, r)) == Prefixed(c + cs, r)
  {
    if r.Some? {
      assert c + (cs + r.value) == (c + cs) + r.value;
    }
  }

  /** The calls from contour end i on: contour i's calls, then those of the contours after it. */
  lemma ContoursCallsStep(points: seq<GlyphPoint>, ends: seq<int>, i: nat, e0: int, dx: int32, dy: int32)
    requires i < |ends|
    ensures !(0 <= e0 <= ends[i] <= |points|) ==> ContoursCalls(points, ends[i..], e0, dx, dy) == None
    ensures 0 <= e0 <= ends[i] <= |points| ==>
      ContoursCalls(points, ends[i..], e0, dx, dy) ==
        Prefixed(ContourCalls(points[e0..ends[i]], dx, dy), ContoursCalls(points, ends[i + 1..], ends[i], dx, dy))
  {
    assert ends[i..][1..] == ends[i + 1..];
  }

  /** rasterize's loop over the contour ends: the calls of every contour in order, or None at a bad slice. */
  method DrawContours(points: seq<GlyphPoint>, ends: seq<int>, dx: int32, dy: int32) returns (r: Option<seq<AdderCall>>)
    ensures r == ContoursCalls(points, ends, 0, dx, dy)
  {
    var calls := [];
    var e0 := 0;
    var i := 0;
    assert ends[0..] == ends;
    while i < |ends|
      invariant 0 <= i <= |ends|
      invariant ContoursCalls(points, ends, 0, dx, dy) == Prefixed(calls, ContoursCalls(points, ends[i..], e0, dx, dy))
    {
      var e1 := ends[i];
      ContoursCallsStep(points, ends, i, e0, dx, dy);
      if !(0 <= e0 <= e1 <= |points|) {
        return None;
      }
      var cs := DrawContour(points[e0..e1], dx, dy);
      ghost var tail := ContoursCalls(points, ends[i + 1..], e1, dx, dy);
      assert ContoursCalls(points, ends[i..], e0, dx, dy) == Prefixed(cs, tail);
      PrefixedAppend(calls, cs, tail);
      assert ContoursCalls(points, ends, 0, dx, dy) == Prefixed(calls + cs, tail);
      calls := calls + cs;
      e0 := e1;
      i := i + 1;
    }
    assert ends[i..] == [];
    assert calls + [] == calls;
    return Some(calls);
  }
}
