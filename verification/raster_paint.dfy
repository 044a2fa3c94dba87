/**
 * Model of freetype/raster/paint.go: the Painters that receive the
 * rasterizer's output, batches of horizontal Spans with constant alpha.
 * Images are rectangular two-dimensional arrays; a Painter that wraps
 * another one records the batches it forwards, in order, as a log.
 */
module RasterPaint {
  import opened Ints

  /** A horizontal run of pixels [x0, x1) on row y, with 32-bit alpha a (fully opaque is 2^32 - 1). */
  datatype Span = Span(y: int, x0: int, x1: int, a: uint32)

  const Opaque: uint32 := 0xffff_ffff

  /** Porter-Duff composition operator. */
  datatype Op = Over | Src

  /** One call on a wrapped Painter: the batch of Spans it received and the done flag. */
  datatype Batch = Batch(spans: seq<Span>, done: bool)

  // ---------------------------------------------------------------------------
  // Painting onto an image: the clipping common to AlphaPainter and RGBAPainter.

  /** A row with the pixels of [x0, x1), clipped to the row, painted with alpha a. */
  function ClipRow<P>(row: seq<P>, x0: int, x1: int, pixel: (P, uint32) -> P, a: uint32): (r: seq<P>)
    ensures |r| == |row|
    ensures forall x :: 0 <= x < |row| ==> r[x] == if x0 <= x < x1 then pixel(row[x], a) else row[x]
  {
    seq(|row|, x requires 0 <= x < |row| => if x0 <= x < x1 then pixel(row[x], a) else row[x])
  }

  /**
   * The image after painting the spans in order, each offset by (dx, dy): a
   * span above the image is skipped, the first span at or below its bottom
   * ends the batch, and the columns are clipped to the row.
   */
  function PaintSpans<P>(g: seq<seq<P>>, ss: seq<Span>, dx: int, dy: int, pixel: (P, uint32) -> P): (r: seq<seq<P>>)
    ensures |r| == |g| && forall y :: 0 <= y < |g| ==> |r[y]| == |g[y]|
    decreases |ss|
  {
    if ss == [] then g
    else
      var s := ss[0];
      var y := dy + s.y;
      if y < 0 then PaintSpans(g, ss[1..], dx, dy, pixel)
      else if y >= |g| then g
      else PaintSpans(g[y := ClipRow(g[y], dx + s.x0, dx + s.x1, pixel, s.a)], ss[1..], dx, dy, pixel)
  }

  /** Does some span of the batch, offset by (dx, dy), cover pixel (x, y)? */
  predicate Covered(ss: seq<Span>, dx: int, dy: int, x: int, y: int)
  {
    exists k :: 0 <= k < |ss| && dy + ss[k].y == y && dx + ss[k].x0 <= x < dx + ss[k].x1
  }

  /** Pixels that no span covers keep their value. */
  lemma {:induction false} PaintSpansUncovered<P>(g: seq<seq<P>>, ss: seq<Span>, dx: int, dy: int,
                                                  pixel: (P, uint32) -> P, x: int, y: int)
    requires 0 <= y < |g| && 0 <= x < |g[y]|
    requires !Covered(ss, dx, dy, x, y)
    ensures PaintSpans(g, ss, dx, dy, pixel)[y][x] == g[y][x]
    decreases |ss|
  {
    if ss != [] {
      var s := ss[0];
      var row := dy + s.y;
      forall k | 0 <= k < |ss[1..]|
        ensures !(dy + ss[1..][k].y == y && dx + ss[1..][k].x0 <= x < dx + ss[1..][k].x1)
      {
        assert ss[1..][k] == ss[k + 1];
      }
      if row < 0 {
        PaintSpansUncovered(g, ss[1..], dx, dy, pixel, x, y);
      } else if row < |g| {
        var g' := g[row := ClipRow(g[row], dx + s.x0, dx + s.x1, pixel, s.a)];
        assert g'[y][x] == g[y][x] by {
          if row == y {
            assert !(dx + s.x0 <= x < dx + s.x1) by {
              assert dy + ss[0].y == y;
            }
          }
        }
        PaintSpansUncovered(g', ss[1..], dx, dy, pixel, x, y);
      }
    }
  }

  /** If the pixel function never lowers a value, painting never lowers any pixel. */
  lemma {:induction false} PaintSpansMonotone(g: seq<seq<byte>>, ss: seq<Span>, dx: int, dy: int,
                                              pixel: (byte, uint32) -> byte, x: int, y: int)
    requires forall p: byte, a: uint32 :: pixel(p, a) >= p
    requires 0 <= y < |g| && 0 <= x < |g[y]|
    ensures PaintSpans(g, ss, dx, dy, pixel)[y][x] >= g[y][x]
    decreases |ss|
  {
    if ss != [] {
      var s := ss[0];
      var row := dy + s.y;
      if row < 0 {
        PaintSpansMonotone(g, ss[1..], dx, dy, pixel, x, y);
      } else if row < |g| {
        var g' := g[row := ClipRow(g[row], dx + s.x0, dx + s.x1, pixel, s.a)];
        assert g'[y][x] >= g[y][x];
        PaintSpansMonotone(g', ss[1..], dx, dy, pixel, x, y);
      }
    }
  }

  /** The pixels of an image, row by row. */
  ghost function GridOf<P>(m: array2<P>): (g: seq<seq<P>>)
    reads m
    ensures |g| == m.Length0 && forall y :: 0 <= y < m.Length0 ==> |g[y]| == m.Length1
  {
    seq(m.Length0, y requires 0 <= y < m.Length0 reads m =>
      seq(m.Length1, x requires 0 <= x < m.Length1 reads m => m[y, x]))
  }

  /**
   * The loop shared by AlphaPainter.Paint and RGBAPainter.Paint: the image
   * becomes the batch painted onto it with the painter's pixel function.
   */
  method PaintImage<P>(image: array2<P>, ss: seq<Span>, dx: int, dy: int, pixel: (P, uint32) -> P)
    modifies image
    ensures GridOf(image) == PaintSpans(old(GridOf(image)), ss, dx, dy, pixel)
  {
    ghost var g0 := GridOf(image);
    var i := 0;
    while i < |ss|
      invariant 0 <= i <= |ss|
      invariant PaintSpans(g0, ss, dx, dy, pixel) == PaintSpans(GridOf(image), ss[i..], dx, dy, pixel)
    {
      var s := ss[i];
      var y := dy + s.y;
      assert ss[i..][1..] == ss[i + 1..];
      if y < 0 {
        i := i + 1;
        continue;
      }
      if y >= image.Length0 {
        return;
      }
      PaintSpanRow(image, y, dx + s.x0, dx + s.x1, pixel, s.a);
      i := i + 1;
    }
  }

  /** Paints [x0, x1) of row y, clipped to the image: only that row changes. */
  method PaintSpanRow<P>(image: array2<P>, y: int, x0: int, x1: int, pixel: (P, uint32) -> P, a: uint32)
    requires 0 <= y < image.Length0
    modifies image
    ensures GridOf(image) == old(GridOf(image))[y := ClipRow(old(GridOf(image))[y], x0, x1, pixel, a)]
  {
    var lo := if x0 < 0 then 0 else x0;
    var hi := if x1 > image.Length1 then image.Length1 else x1;
    ghost var before := GridOf(image);
    var x := lo;
    while x < hi
      invariant lo <= x <= (if lo <= hi then hi else lo)
      invariant forall r, c :: 0 <= r < image.Length0 && 0 <= c < image.Length1 ==>
        image[r, c] == if r == y && lo <= c < x then pixel(before[r][c], a) else before[r][c]
    {
      image[y, x] := pixel(image[y, x], a);
      x := x + 1;
    }
    ghost var after := before[y := ClipRow(before[y], x0, x1, pixel, a)];
    forall r, c | 0 <= r < image.Length0 && 0 <= c < image.Length1
      ensures GridOf(image)[r][c] == after[r][c]
    {
      assert GridOf(image)[r][c] == image[r, c];
      if r == y {
        assert after[r][c] == if x0 <= c < x1 then pixel(before[r][c], a) else before[r][c];
        assert (lo <= c < x) == (x0 <= c < x1);
      }
    }
    GridExt(GridOf(image), after);
  }

  // ---------------------------------------------------------------------------
  // AlphaPainter

  /** The new alpha of one pixel: Src writes the span's top byte, Over composes it over the pixel. */
  function AlphaPixel(op: Op, px: byte, a: uint32): (r: byte)
    ensures op == Src ==> r == a / 0x100_0000
    ensures op == Over ==> px <= r
    ensures op == Over && a / 0x100_0000 == 0 ==> r == px
    ensures op == Over && a / 0x100_0000 == 255 ==> r == 255
  {
    var sa := a / 0x100_0000;
    if op == Over then OverAlpha(px, sa) else sa
  }

  /** (ax·255 + (255 − ax)·a) / 255 stays between the old alpha and 255. */
  function OverAlpha(ax: byte, a: byte): (r: byte)
    ensures ax <= r
    ensures a == 0 ==> r == ax
    ensures a == 255 ==> r == 255
  {
    var t := (255 - ax) * a;
    assert 0 <= t <= (255 - ax) * 255 by {
      MulLe(a, 255, 255 - ax);
    }
    (ax * 255 + t) / 255
  }

  lemma MulLe(a: nat, b: nat, c: nat)
    requires a <= b
    ensures a * c <= b * c
  {
  }

  /** Pixel functions of the two painters, as values. */
  function AlphaPixelFn(op: Op): (byte, uint32) -> byte
  {
    (p, a) => AlphaPixel(op, p, a)
  }

  /** Over never lowers the alpha already in the image. */
  lemma AlphaOverNeverLowers(g: seq<seq<byte>>, ss: seq<Span>, dx: int, dy: int, x: int, y: int)
    requires 0 <= y < |g| && 0 <= x < |g[y]|
    ensures PaintSpans(g, ss, dx, dy, AlphaPixelFn(Over))[y][x] >= g[y][x]
  {
    PaintSpansMonotone(g, ss, dx, dy, AlphaPixelFn(Over), x, y);
  }

  /** Two grids of the same shape that agree at every pixel are equal. */
  lemma GridExt<P>(a: seq<seq<P>>, b: seq<seq<P>>)
    requires |a| == |b|
    requires forall y :: 0 <= y < |a| ==> |a[y]| == |b[y]|
    requires forall y, x :: 0 <= y < |a| && 0 <= x < |a[y]| ==> a[y][x] == b[y][x]
    ensures a == b
  {
    forall y | 0 <= y < |a|
      ensures a[y] == b[y]
    {
      assert forall x :: 0 <= x < |a[y]| ==> a[y][x] == b[y][x];
    }
  }

  /** Paints spans onto an alpha image, offsetting them by (dx, dy). */
  class AlphaPainter {
    var image: array2<byte>
    var op: Op
    var dx: int
    var dy: int

    /** The image as rows of pixels. */
    ghost function Grid(): seq<seq<byte>>
      reads this, image
    {
      GridOf(image)
    }

    /** NewAlphaPainter: the composition operator defaults to Over and the offset to zero. */
    constructor (m: array2<byte>)
      ensures image == m && op == Over && dx == 0 && dy == 0
    {
      image := m;
      op := Over;
      dx := 0;
      dy := 0;
    }

    /** Paint: the image becomes the batch painted onto it, and nothing else changes. */
    method Paint(ss: seq<Span>, done: bool)
      modifies image
      ensures Grid() == PaintSpans(old(Grid()), ss, dx, dy, AlphaPixelFn(op))
    {
      PaintImage(image, ss, dx, dy, AlphaPixelFn(op));
    }
  }

  // ---------------------------------------------------------------------------
  // RGBAPainter

  datatype RGBA = RGBA(r: byte, g: byte, b: byte, a: byte)

  const M: int := 0xffff

  /** The premultiplied 16-bit colour: no channel exceeds the alpha. */
  predicate Premultiplied(cr: int, cg: int, cb: int, ca: int)
  {
    0 <= cr <= ca && 0 <= cg <= ca && 0 <= cb <= ca && ca <= M
  }

  /** One channel under Over, in uint32 arithmetic that wraps: (d·a + c·ma) / M, then the high byte. */
  function OverChannel(d: byte, a: uint32, c: uint32, ma: uint32): byte
  {
    Uint8(Uint32(Uint32(Uint32(d * a) + Uint32(c * ma)) / M) / 0x100)
  }

  /** One channel under Src: c·ma / M, then the high byte. */
  function SrcChannel(c: uint32, ma: uint32): byte
  {
    Uint8(Uint32(c * ma) / M / 0x100)
  }

  /** The new colour of one pixel under the painter's colour (cr, cg, cb, ca) and the span's alpha. */
  function RGBAPixel(op: Op, cr: uint32, cg: uint32, cb: uint32, ca: uint32, px: RGBA, alpha: uint32): (r: RGBA)
    ensures op == Src && alpha / 0x1_0000 == 0 ==> r == RGBA(0, 0, 0, 0)
  {
    var ma := alpha / 0x1_0000;
    if op == Over then
      var a := DestFactor(ca, ma);
      RGBA(OverChannel(px.r, a, cr, ma), OverChannel(px.g, a, cg, ma),
           OverChannel(px.b, a, cb, ma), OverChannel(px.a, a, ca, ma))
    else
      RGBA(SrcChannel(cr, ma), SrcChannel(cg, ma), SrcChannel(cb, ma), SrcChannel(ca, ma))
  }

  function RGBAPixelFn(op: Op, cr: uint32, cg: uint32, cb: uint32, ca: uint32): (RGBA, uint32) -> RGBA
  {
    (p: RGBA, a: uint32) => RGBAPixel(op, cr, cg, cb, ca, p, a)
  }

  /**
   * For a premultiplied colour no uint32 product or sum wraps under Over, and
   * each channel's 16-bit result fits before its high byte is taken.
   */
  /** The weight of the destination under Over, M − ca·ma/M scaled by 0x101, in uint32 arithmetic. */
  function DestFactor(ca: uint32, ma: uint32): uint32
  {
    Uint32(Uint32(M - Uint32(ca * ma) / M) * 0x101)
  }

  /** One channel under Over in exact arithmetic. */
  function ExactOverChannel(d: byte, c: nat, ca: nat, ma: nat): int
  {
    (d * ((M - ca * ma / M) * 0x101) + c * ma) / M / 0x100
  }

  lemma DestFactorNoWrap(ca: uint32, ma: uint32)
    requires ca <= M && ma <= M
    ensures DestFactor(ca, ma) == (M - ca * ma / M) * 0x101
  {
    MulLe(ca, M, ma);
    MulLe(ma, M, M);
    var q := ca * ma / M;
    assert Uint32(ca * ma) == ca * ma;
    assert Uint32(M - q) == M - q;
    assert Uint32((M - q) * 0x101) == (M - q) * 0x101;
  }

  lemma OverChannelNoWrap(d: byte, c: uint32, ca: uint32, ma: uint32)
    requires c <= ca <= M && ma <= M
    ensures OverChannel(d, DestFactor(ca, ma), c, ma) == ExactOverChannel(d, c, ca, ma)
  {
    DestFactorNoWrap(ca, ma);
    var p := ca * ma;
    var q := p / M;
    assert q <= M && p < M * q + M by {
      MulLe(ca, M, ma);
      MulLe(ma, M, M);
    }
    var a := (M - q) * 0x101;
    var da := d * a;
    assert 0 <= da <= M * (M - q) by {
      MulLe(d, 255, a);
    }
    var cm := c * ma;
    assert cm <= p by {
      MulLe(c, ca, ma);
    }
    SumBound(da, cm, p, q);
    var sum := da + cm;
    assert sum / M <= M;
    assert Uint32(da) == da;
    assert Uint32(cm) == cm;
    assert Uint32(sum) == sum;
  }

  /** The linear core of the bound above: M·(M − q) + M·(q + 1) = M·(M + 1). */
  lemma SumBound(da: nat, cm: nat, p: nat, q: nat)
    requires q <= M && da <= M * (M - q) && cm <= p && p < M * q + M
    ensures da + cm < M * M + M
  {
  }

  /**
   * For a premultiplied colour no uint32 product or sum wraps under Over: every
   * channel is the exact (d·a + c·ma) / M, whose high byte is then taken.
   */
  lemma RGBAOverNoWrap(cr: uint32, cg: uint32, cb: uint32, ca: uint32, px: RGBA, alpha: uint32)
    requires Premultiplied(cr, cg, cb, ca)
    ensures var r := RGBAPixel(Over, cr, cg, cb, ca, px, alpha);
      var ma := alpha / 0x1_0000;
      r.r == ExactOverChannel(px.r, cr, ca, ma) && r.g == ExactOverChannel(px.g, cg, ca, ma) &&
      r.b == ExactOverChannel(px.b, cb, ca, ma) && r.a == ExactOverChannel(px.a, ca, ca, ma)
  {
    var ma := alpha / 0x1_0000;
    OverChannelNoWrap(px.r, cr, ca, ma);
    OverChannelNoWrap(px.g, cg, ca, ma);
    OverChannelNoWrap(px.b, cb, ca, ma);
    OverChannelNoWrap(px.a, ca, ca, ma);
  }

  /** Paints spans in a single colour onto an RGBA image. */
  class RGBAPainter {
    var image: array2<RGBA>
    var op: Op
    var dx: int
    var dy: int
    var cr: uint32
    var cg: uint32
    var cb: uint32
    var ca: uint32

    ghost function Grid(): seq<seq<RGBA>>
      reads this, image
    {
      GridOf(image)
    }

    /** NewRGBAPainter: Over, no offset, the zero colour. */
    constructor (m: array2<RGBA>)
      ensures image == m && op == Over && dx == 0 && dy == 0
      ensures cr == 0 && cg == 0 && cb == 0 && ca == 0
    {
      image := m;
      op := Over;
      dx, dy := 0, 0;
      cr, cg, cb, ca := 0, 0, 0, 0;
    }

    /** SetColor: keeps the high 16 bits of each 32-bit channel of the colour. */
    method SetColor(r: uint32, g: uint32, b: uint32, a: uint32)
      modifies this
      ensures cr == r / 0x1_0000 && cg == g / 0x1_0000 && cb == b / 0x1_0000 && ca == a / 0x1_0000
      ensures cr <= M && cg <= M && cb <= M && ca <= M
      ensures r <= a && g <= a && b <= a ==> Premultiplied(cr, cg, cb, ca)
      ensures image == old(image) && op == old(op) && dx == old(dx) && dy == old(dy)
    {
      cr, cg, cb, ca := r / 0x1_0000, g / 0x1_0000, b / 0x1_0000, a / 0x1_0000;
    }

    /** Paint: the same clipping as AlphaPainter, each covered pixel given RGBAPixel. */
    method Paint(ss: seq<Span>, done: bool)
      modifies image
      ensures Grid() == PaintSpans(old(Grid()), ss, dx, dy, RGBAPixelFn(op, cr, cg, cb, ca))
    {
      PaintImage(image, ss, dx, dy, RGBAPixelFn(op, cr, cg, cb, ca));
    }
  }

  // ---------------------------------------------------------------------------
  // MonochromePainter

  /** The MonochromePainter's accumulated span: row y, columns [x0, x1). */
  datatype Acc = Acc(y: int, x0: int, x1: int)

  /** Spans at least half opaque are kept; the rest quantize to transparent. */
  predicate Kept(s: Span)
  {
    s.a >= 0x8000_0000
  }

  /** The accumulated span as a fully opaque Span. */
  function Flush(acc: Acc): (s: Span)
    ensures s.a == Opaque && s.y == acc.y && s.x0 == acc.x0 && s.x1 == acc.x1
  {
    Span(acc.y, acc.x0, acc.x1, Opaque)
  }

  /**
   * The accumulator after a run of spans, and the spans flushed on the way: a
   * kept span that continues the accumulator on its row extends it, any other
   * kept span flushes the accumulator and replaces it.
   */
  function MonoScan(acc: Acc, ss: seq<Span>): (Acc, seq<Span>)
    decreases |ss|
  {
    if ss == [] then (acc, [])
    else
      var (a, out) := MonoScan(acc, ss[..|ss| - 1]);
      var s := ss[|ss| - 1];
      if !Kept(s) then (a, out)
      else if a.y == s.y && a.x1 == s.x0 then (Acc(a.y, a.x0, s.x1), out)
      else (Acc(s.y, s.x0, s.x1), out + [Flush(a)])
  }

  /** The number of kept spans. */
  function CountKept(ss: seq<Span>): (n: nat)
    ensures n <= |ss|
  {
    if ss == [] then 0 else CountKept(ss[..|ss| - 1]) + (if Kept(ss[|ss| - 1]) then 1 else 0)
  }

  /** No more spans are flushed than were kept, so the compaction index never passes the batch's end. */
  lemma {:induction false} MonoScanBound(acc: Acc, ss: seq<Span>)
    ensures |MonoScan(acc, ss).1| <= CountKept(ss) <= |ss|
    decreases |ss|
  {
    if ss != [] {
      MonoScanBound(acc, ss[..|ss| - 1]);
    }
  }

  /** Every flushed span is fully opaque. */
  lemma {:induction false} MonoScanOpaque(acc: Acc, ss: seq<Span>)
    ensures forall k :: 0 <= k < |MonoScan(acc, ss).1| ==> MonoScan(acc, ss).1[k].a == Opaque
    decreases |ss|
  {
    if ss != [] {
      MonoScanOpaque(acc, ss[..|ss| - 1]);
    }
  }

  /** A batch with no kept span flushes nothing and leaves the accumulator as it was. */
  lemma {:induction false} MonoScanTransparent(acc: Acc, ss: seq<Span>)
    requires forall k :: 0 <= k < |ss| ==> !Kept(ss[k])
    ensures MonoScan(acc, ss) == (acc, [])
    decreases |ss|
  {
    if ss != [] {
      MonoScanTransparent(acc, ss[..|ss| - 1]);
    }
  }

  /** The pixels of row y in [x0, x1). */
  function RowPixels(y: int, x0: int, x1: int): set<(int, int)>
  {
    set x | x0 <= x < x1 :: (y, x)
  }

  /** The pixels covered by a run of spans. */
  function Coverage(ss: seq<Span>): set<(int, int)>
  {
    if ss == [] then {} else Coverage(ss[..|ss| - 1]) + RowPixels(ss[|ss| - 1].y, ss[|ss| - 1].x0, ss[|ss| - 1].x1)
  }

  /** The kept spans of a run, in order. */
  function KeptSpans(ss: seq<Span>): seq<Span>
  {
    if ss == [] then []
    else KeptSpans(ss[..|ss| - 1]) + (if Kept(ss[|ss| - 1]) then [ss[|ss| - 1]] else [])
  }

  lemma RowPixelsJoin(y: int, a: int, b: int, c: int)
    requires a <= b <= c
    ensures RowPixels(y, a, b) + RowPixels(y, b, c) == RowPixels(y, a, c)
  {
    forall p | p in RowPixels(y, a, c)
      ensures p in RowPixels(y, a, b) + RowPixels(y, b, c)
    {
      var x := p.1;
      if x < b {
        assert p in RowPixels(y, a, b);
      } else {
        assert p in RowPixels(y, b, c);
      }
    }
  }

  lemma CoverageAppend(ss: seq<Span>, t: seq<Span>)
    ensures Coverage(ss + t) == Coverage(ss) + Coverage(t)
    decreases |t|
  {
    if t == [] {
      assert ss + t == ss;
    } else {
      assert (ss + t)[..|ss + t| - 1] == ss + t[..|t| - 1];
      CoverageAppend(ss, t[..|t| - 1]);
    }
  }

  /**
   * Merging loses and invents no pixel: for spans that are not reversed, the
   * flushed spans and the final accumulator together cover exactly the pixels
   * of the initial accumulator and of the kept spans.
   */
  lemma {:induction false} MonoScanCoverage(acc: Acc, ss: seq<Span>)
    requires acc.x0 <= acc.x1
    requires forall k :: 0 <= k < |ss| ==> ss[k].x0 <= ss[k].x1
    ensures var (a, out) := MonoScan(acc, ss);
      a.x0 <= a.x1 &&
      Coverage(out) + Coverage([Flush(a)]) == Coverage([Flush(acc)]) + Coverage(KeptSpans(ss))
    decreases |ss|
  {
    if ss != [] {
      var init := ss[..|ss| - 1];
      var s := ss[|ss| - 1];
      MonoScanCoverage(acc, init);
      var (a, out) := MonoScan(acc, init);
      assert Coverage([Flush(a)]) == RowPixels(a.y, a.x0, a.x1);
      assert Coverage([s]) == RowPixels(s.y, s.x0, s.x1);
      assert KeptSpans(ss) == KeptSpans(init) + (if Kept(s) then [s] else []);
      if Kept(s) {
        CoverageAppend(KeptSpans(init), [s]);
        if a.y == s.y && a.x1 == s.x0 {
          assert MonoScan(acc, ss) == (Acc(a.y, a.x0, s.x1), out);
          RowPixelsJoin(a.y, a.x0, a.x1, s.x1);
          assert Coverage([Flush(Acc(a.y, a.x0, s.x1))]) == RowPixels(a.y, a.x0, s.x1);
        } else {
          assert MonoScan(acc, ss) == (Acc(s.y, s.x0, s.x1), out + [Flush(a)]);
          CoverageAppend(out, [Flush(a)]);
          assert Coverage([Flush(Acc(s.y, s.x0, s.x1))]) == RowPixels(s.y, s.x0, s.x1);
        }
      } else {
        assert MonoScan(acc, ss) == (a, out);
        assert KeptSpans(ss) == KeptSpans(init);
      }
    }
  }

  /** Two touching opaque spans on one row merge; the first call flushes the initial empty accumulator. */
  lemma MonoScanMergesTouching()
    ensures MonoScan(Acc(0, 0, 0), [Span(3, 10, 20, Opaque), Span(3, 20, 30, Opaque)]) ==
      (Acc(3, 10, 30), [Span(0, 0, 0, Opaque)])
  {
    var ss := [Span(3, 10, 20, Opaque), Span(3, 20, 30, Opaque)];
    assert ss[..1] == [Span(3, 10, 20, Opaque)];
    assert ss[..1][..0] == [];
    assert MonoScan(Acc(0, 0, 0), ss[..1][..0]) == (Acc(0, 0, 0), []);
    assert Kept(ss[0]) && Kept(ss[1]);
    assert [] + [Flush(Acc(0, 0, 0))] == [Span(0, 0, 0, Opaque)];
    assert MonoScan(Acc(0, 0, 0), ss[..1]) == (Acc(3, 10, 20), [Span(0, 0, 0, Opaque)]);
  }

  /**
   * Quantizes each span to fully opaque or fully transparent, merges touching
   * opaque spans on a row, and forwards the result to the wrapped Painter,
   * whose calls are recorded in `forwarded`.
   */
  class MonochromePainter {
    var acc: Acc
    var forwarded: seq<Batch>

    /** NewMonochromePainter: the accumulator starts at (0, 0, 0). */
    constructor ()
      ensures acc == Acc(0, 0, 0) && forwarded == []
    {
      acc := Acc(0, 0, 0);
      forwarded := [];
    }

    /**
     * Paint compacts the kept spans into the front of ss. Unless done, the
     * flushed spans are forwarded and the accumulator carries over to the next
     * batch. When done, the accumulator is flushed too: into the same batch if
     * there is room, otherwise as a second, one-span batch; then it is reset.
     */
    method Paint(ss: array<Span>, done: bool)
      modifies this, ss
      ensures var (a, out) := MonoScan(old(acc), old(ss[..]));
        |out| <= ss.Length &&
        (!done ==>
           acc == a && forwarded == old(forwarded) + [Batch(out, false)] &&
           ss[..] == out + old(ss[|out|..])) &&
        (done && |out| < ss.Length ==>
           acc == Acc(0, 0, 0) && forwarded == old(forwarded) + [Batch(out + [Flush(a)], true)] &&
           ss[..] == out + [Flush(a)] + old(ss[|out| + 1..])) &&
        (done && |out| == ss.Length ==>
           acc == Acc(0, 0, 0) && forwarded == old(forwarded) + [Batch(out, false), Batch([Flush(a)], true)] &&
           (ss.Length > 0 ==> ss[..] == [Flush(a)] + out[1..]))
    {
      ghost var s0 := ss[..];
      ghost var acc0 := acc;
      var j := Compact(ss);
      ghost var out := ss[..j];
      assert (acc, out) == MonoScan(acc0, s0) && |out| == j;
      assert ss[j..] == s0[j..];
      assert ss[..] == out + s0[j..];
      if done {
        if j < ss.Length {
          assert ss[j + 1..] == s0[j + 1..];
        }
        FlushLast(ss, j);
      } else {
        forwarded := forwarded + [Batch(ss[..j], false)];
      }
    }

    /**
     * The end of Paint when done: the accumulator's span follows the j
     * compacted spans in the same batch if there is room, or else is a batch
     * of its own written at the front of ss; then the accumulator is reset.
     */
    method FlushLast(ss: array<Span>, j: nat)
      requires j <= ss.Length
      modifies this, ss
      ensures var out, final := old(ss[..j]), Flush(old(acc));
        acc == Acc(0, 0, 0) &&
        (j < ss.Length ==>
           forwarded == old(forwarded) + [Batch(out + [final], true)] &&
           ss[..] == out + [final] + old(ss[j + 1..])) &&
        (j == ss.Length ==>
           forwarded == old(forwarded) + [Batch(out, false), Batch([final], true)] &&
           (ss.Length > 0 ==> ss[..] == [final] + out[1..]))
    {
      ghost var s0 := ss[..];
      ghost var out := ss[..j];
      var final := Flush(acc);
      if j < ss.Length {
        ss[j] := final;
        assert ss[..j + 1] == out + [final];
        assert ss[..] == out + [final] + s0[j + 1..];
        forwarded := forwarded + [Batch(ss[..j + 1], true)];
      } else {
        assert ss[..] == out;
        forwarded := forwarded + [Batch(ss[..], false)];
        if ss.Length > 0 {
          ss[0] := final;
          assert ss[..] == [final] + out[1..];
        }
        forwarded := forwarded + [Batch([final], true)];
      }
      acc := Acc(0, 0, 0);
    }

    /** The scan loop: the kept spans are merged and the flushed ones written to the front of ss. */
    method Compact(ss: array<Span>) returns (j: nat)
      modifies this`acc, ss
      ensures j <= ss.Length
      ensures (acc, ss[..j]) == MonoScan(old(acc), old(ss[..]))
      ensures forall k :: j <= k < ss.Length ==> ss[k] == old(ss[k])
    {
      ghost var s0 := ss[..];
      ghost var acc0 := acc;
      j := 0;
      var i := 0;
      while i < ss.Length
        invariant 0 <= j <= i <= ss.Length
        invariant (acc, ss[..j]) == MonoScan(acc0, s0[..i])
        invariant forall k :: j <= k < ss.Length ==> ss[k] == s0[k]
      {
        MonoScanBound(acc0, s0[..i + 1]);
        assert s0[..i + 1][..i] == s0[..i];
        assert s0[..i + 1][i] == s0[i];
        var s := ss[i];
        if s.a >= 0x8000_0000 {
          if acc.y == s.y && acc.x1 == s.x0 {
            acc := acc.(x1 := s.x1);
          } else {
            ghost var prefix := ss[..j];
            ss[j] := Flush(acc);
            assert ss[..j + 1] == prefix + [Flush(acc)];
            j := j + 1;
            acc := Acc(s.y, s.x0, s.x1);
          }
        }
        i := i + 1;
      }
      assert s0[..ss.Length] == s0;
    }
  }

  // ---------------------------------------------------------------------------
  // GammaCorrectionPainter

  /** The 256 precomputed 16-bit alphas, fully opaque being 2^16 - 1. */
  type GammaTable = t: seq<uint16> | |t| == 256 witness seq(256, i => 0)

  const GammaM: int := 0x1010101
  const GammaN: int := 0x8080

  /**
   * The gamma-corrected alpha of a span: fully transparent and fully opaque are
   * kept; any other alpha is the linear interpolation of two neighbouring
   * table entries, widened from 16 to 32 bits by repeating it in the high half
   * (a | a << 16, whose operands share no bit, is a · 0x10001).
   */
  function GammaAlpha(t: GammaTable, alpha: uint32): (r: uint32)
    ensures alpha == 0 || alpha == Opaque ==> r == alpha
    ensures alpha != 0 && alpha != Opaque ==> r / 0x1_0000 == r % 0x1_0000
    ensures alpha != 0 && alpha != Opaque && t[alpha / GammaM] <= t[alpha / GammaM + 1] ==>
      t[alpha / GammaM] <= r % 0x1_0000 <= t[alpha / GammaM + 1]
  {
    if alpha == 0 || alpha == Opaque then alpha
    else
      GammaIndex(alpha);
      var p := alpha / GammaM;
      var q := alpha % GammaM / 0x200;
      var a := Interpolate(t[p], t[p + 1], q);
      Widen16(a);
      a * 0x1_0001
  }

  /** A non-opaque alpha picks a pair of neighbouring table entries and a weight in [0, N]. */
  lemma GammaIndex(alpha: uint32)
    requires alpha != Opaque
    ensures alpha / GammaM + 1 < 256 && 0 <= alpha % GammaM / 0x200 <= GammaN
  {
  }

  /** A 16-bit value repeated in both halves of a 32-bit one. */
  lemma Widen16(a: uint16)
    ensures 0 <= a * 0x1_0001 < 0x1_0000_0000
    ensures (a * 0x1_0001) / 0x1_0000 == a && (a * 0x1_0001) % 0x1_0000 == a
  {
    assert a * 0x1_0001 == a * 0x1_0000 + a;
  }

  /** (lo·(N − q) + hi·q + N/2) / N, rounded to nearest, for q in [0, N]. */
  function Interpolate(lo: uint16, hi: uint16, q: int): (a: uint16)
    requires 0 <= q <= GammaN
    ensures lo <= hi ==> lo <= a <= hi
    ensures q == 0 ==> a == lo
  {
    var w := lo * (GammaN - q) + hi * q;
    InterpolateBounds(lo, hi, q);
    (w + GammaN / 2) / GammaN
  }

  lemma InterpolateBounds(lo: uint16, hi: uint16, q: int)
    requires 0 <= q <= GammaN
    ensures var w := lo * (GammaN - q) + hi * q;
      0 <= w <= 0xffff * GammaN &&
      (lo <= hi ==> lo * GammaN <= w <= hi * GammaN) &&
      (q == 0 ==> w == lo * GammaN)
  {
    InterpolateRange(lo, hi, q);
    if lo <= hi {
      InterpolateBetween(lo, hi, q);
    }
  }

  lemma InterpolateRange(lo: uint16, hi: uint16, q: int)
    requires 0 <= q <= GammaN
    ensures 0 <= lo * (GammaN - q) + hi * q <= 0xffff * GammaN
  {
    var u := lo * (GammaN - q);
    var v := hi * q;
    MulLe(lo, 0xffff, GammaN - q);
    MulLe(hi, 0xffff, q);
    MulLe(0, lo, GammaN - q);
    MulLe(0, hi, q);
    assert u <= 0xffff * (GammaN - q);
    assert v <= 0xffff * q;
    assert 0xffff * (GammaN - q) + 0xffff * q == 0xffff * GammaN;
  }

  lemma InterpolateBetween(lo: uint16, hi: uint16, q: int)
    requires lo <= hi && 0 <= q <= GammaN
    ensures lo * GammaN <= lo * (GammaN - q) + hi * q <= hi * GammaN
  {
    MulLe(lo, hi, q);
    MulLe(lo, hi, GammaN - q);
    Distribute(lo, GammaN, q);
    Distribute(hi, GammaN, q);
  }

  lemma Distribute(a: int, b: int, c: int)
    ensures a * (b - c) + a * c == a * b
  {
  }

  /** Spans of a batch after gamma correction. */
  function GammaSpans(t: GammaTable, ss: seq<Span>): (r: seq<Span>)
    ensures |r| == |ss|
    ensures forall k :: 0 <= k < |ss| ==> r[k] == ss[k].(a := GammaAlpha(t, ss[k].a))
  {
    seq(|ss|, k requires 0 <= k < |ss| => ss[k].(a := GammaAlpha(t, ss[k].a)))
  }

  /** Corrects the alpha of each span with a gamma table, then forwards the batch. */
  class GammaCorrectionPainter {
    var table: GammaTable
    var gammaIsOne: bool
    var forwarded: seq<Batch>

    /** Paint rewrites the alphas in place (unless gamma is one) and forwards the same slice and done flag. */
    method Paint(ss: array<Span>, done: bool)
      modifies this`forwarded, ss
      ensures ss[..] == if gammaIsOne then old(ss[..]) else GammaSpans(table, old(ss[..]))
      ensures forwarded == old(forwarded) + [Batch(ss[..], done)]
    {
      if !gammaIsOne {
        var i := 0;
        while i < ss.Length
          invariant 0 <= i <= ss.Length
          invariant forall k :: 0 <= k < i ==> ss[k] == old(ss[k]).(a := GammaAlpha(table, old(ss[k]).a))
          invariant forall k :: i <= k < ss.Length ==> ss[k] == old(ss[k])
          invariant forwarded == old(forwarded)
        {
          var a := ss[i].a;
          if a != 0 && a != Opaque {
            ss[i] := ss[i].(a := GammaAlpha(table, a));
          }
          i := i + 1;
        }
        assert ss[..] == GammaSpans(table, old(ss[..]));
      }
      forwarded := forwarded + [Batch(ss[..], done)];
    }
  }
}
