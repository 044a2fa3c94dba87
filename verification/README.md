# freetype-go in Dafny

A verified model of the integer core of the Go port of FreeType
(golang/freetype): the TrueType font parser and glyph loaders, the TrueType
bytecode interpreter (the Hinter), the conversion of glyph contours into
rasterizer calls, and the raster package's path buffer and span painters.

Each Go source file is one Dafny module. Code that mutates state in Go is a
class or a method with `modifies` clauses and loop invariants, proved
against a pure specification function; the properties the code promises
are stated as lemmas about those functions.

- `Ints`: Go's fixed-width conversions (int8, int16, int32,
  uint8, uint16, uint32) with explicit wrap-around, Go's truncating `/` and
  `%`, and big-endian reads.
- `TrueTypeFont`: the font half of freetype/truetype/truetype.go. It covers the `data` cursor, readTable,
  Parse, the head, maxp, hhea, kern and cmap checks, and the lookups Index
  (cmap format 4), HMetric and Kerning (binary search).
- `TrueTypeOutline`: the older GlyphBuf of freetype/truetype/truetype.go. It has int16 points, run-length flags, delta-coded
  coordinates, compound glyphs moved by offsets, and a recursion limit
  of 4.
- `TrueTypeGlyph` (freetype/truetype/glyph.go): the later GlyphBuf. Its
  points are int32 scaled to 26.6 as they load, with four phantom points,
  F2Dot14 component transforms, grid-rounded offsets, and a recursion
  limit of 32.
- The Hinter of freetype/truetype/hint.go is split into seven modules:
  - `HintArith`: the 26.6 and 2.14 arithmetic, round and its super-rounding states, and skipInstructionPayload.
  - `HintState`: the graphics state, zones and points, point lookup, move and cvt.
  - `HintSpec`: one instruction as a function from a machine to the next machine or an error, and run as its iteration under the step limit.
  - `HintIup`: IUP, iupInterp and iupShift.
  - `HintInit`: init on values.
  - `HintRun`: the Hinter as a class whose methods are proved to do what HintSpec says.
  - `HintProps`: the properties, including the programs of hint_test.go.
- `FreeTypeContext` (freetype/freetype.go): the FUnit conversions,
  drawContour, the direct-mapped glyph cache, the setters and their cache
  invalidation, and DrawString's advance loop.
- `Face` (truetype/face.go): the Options defaults, sub-pixel quantization,
  kerning rounding, Glyph's dot arithmetic, the bounds checks, clear and
  drawContour.
- `RasterGeom` (freetype/raster/geom.go): maxAbs, the rotations,
  Fixed.String, the tagged Path buffer, and Stroke's split into
  single-curve subpaths.
- `RasterPaint` (freetype/raster/paint.go): the Alpha, RGBA, Monochrome
  and GammaCorrection painters.
- `Text2Svg` (example/text2svg/main.go): drawContour's commands.
- `RasterExample` (example/raster/main.go): the node tables of the letter
  A, the contour walk and showNodes.

A Go run-time panic on malformed data (an index out of range, a nil
pointer, a division by zero) is an explicit `Panic` outcome, so every
input has an outcome. Go's `int` is 64 bits wide and is modelled as an
unbounded integer.

## Model

| member | source | states |
|---|---|---|
| RasterGeom.MaxAbs | freetype/raster/geom.go:26-39 | the larger magnitude of two Fixed values, exact unless an argument is the int32 minimum, where the negation wraps |
| RasterGeom.RotateCW | freetype/raster/geom.go:64-68 | (x, y) becomes (y, -x) with int32 negation |
| RasterGeom.RotateCCW | freetype/raster/geom.go:69-73 | (x, y) becomes (-y, x) with int32 negation |
| RasterGeom.NegateTwice | freetype/raster/geom.go:29-36 | int32 negation undoes itself, the wrapping minimum included |
| RasterGeom.RotateInverse | freetype/raster/geom.go:64-73 | the two rotations are each other's inverse for every point |
| RasterGeom.Pad3 | freetype/raster/geom.go:23 | the %03d form is exactly three characters |
| RasterGeom.FixedString | freetype/raster/geom.go:16-24 | for a non-negative value: integer part, ':', and the three-digit remainder out of 256 |
| RasterGeom.FixedStringOneAndAQuarter | freetype/raster/geom.go:16-17 | one and a quarter prints as "1:064", as the doc comment says |
| RasterGeom.FixedStringDropsSign | freetype/raster/geom.go:18-24 | -64 and 64 print the same (see Findings) |
| RasterGeom.FixedStringSigned | freetype/raster/geom.go:16-24 | the corrected form: starts with '-' exactly for negative values and equals the as-written form on non-negative ones |
| RasterGeom.FixedStringAgrees | freetype/raster/geom.go:18-24 | as-written and corrected forms agree outside (-1, 0) |
| RasterGeom.DigitsValue | freetype/raster/geom.go:23 | the %d digits read back as the value |
| RasterGeom.Pad3Value | freetype/raster/geom.go:23 | the %03d digits read back as the value |
| RasterGeom.UnsignedRoundTrip | freetype/raster/geom.go:19-23 | an unsigned text form is well formed and parses back to its value |
| RasterGeom.FixedStringSignedRoundTrip | freetype/raster/geom.go:16-24 | the corrected text form parses back to the value it was made from |
| RasterGeom.FixedStringSignedInjective | freetype/raster/geom.go:16-24 | distinct values have distinct corrected text forms |
| RasterGeom.SegmentLength | freetype/raster/geom.go:87-89 | a segment occupies 3, 5 or 7 elements, tag included |
| RasterGeom.WellTaggedAppend | freetype/raster/geom.go:87-89 | concatenating well-tagged paths gives a well-tagged path |
| RasterGeom.Encode | freetype/raster/geom.go:134-175 | one Adder call's encoding is a single well-tagged segment of the length its tag says |
| RasterGeom.EncodeAll | freetype/raster/geom.go:134-175 | a log of Adder calls encodes to a well-tagged path |
| RasterGeom.Path.constructor | freetype/raster/geom.go:87-89 | a new Path is empty |
| RasterGeom.Path.Grow | freetype/raster/geom.go:117-128 | the length grows by exactly n and the old elements are kept |
| RasterGeom.Path.Clear | freetype/raster/geom.go:129-133 | the Path becomes empty and keeps its backing array |
| RasterGeom.Path.AppendSegment | freetype/raster/geom.go:117-175 | the elements become the old ones followed by the segment |
| RasterGeom.Path.StartCurve | freetype/raster/geom.go:134-142 | appends exactly [0, x, y] and keeps the path well tagged |
| RasterGeom.Path.AddLinear | freetype/raster/geom.go:143-151 | appends exactly [1, x, y] and keeps the path well tagged |
| RasterGeom.Path.AddQuadratic | freetype/raster/geom.go:152-162 | appends exactly [2, b, c] and keeps the path well tagged |
| RasterGeom.Path.AddCubic | freetype/raster/geom.go:163-175 | appends exactly [3, b, c, d] and keeps the path well tagged |
| RasterGeom.Path.AddPath | freetype/raster/geom.go:176-182 | the elements become the old ones followed by q, well tagged when both were |
| RasterGeom.ReachesStep | freetype/raster/geom.go:214-226 | one step of Stroke's scan over a segment tag 1..3 advances by that segment's length |
| RasterGeom.ReachesCurveBody | freetype/raster/geom.go:214-228 | the elements the scan passes over form one curve's segments |
| RasterGeom.StrokeScanStalls | freetype/raster/geom.go:213-226 | a tag outside 0..3 leaves the scan position unchanged, so the loop never ends (see Findings) |
| RasterGeom.StrokeSplitPath | freetype/raster/geom.go:206-229 | empty q gives nothing; a panic exactly when q does not start with tag 0 or the scan meets a tag outside 0..3; otherwise the subpaths concatenate back to q and each is exactly one curve |
| RasterGeom.WellTaggedScans | freetype/raster/geom.go:215-227 | the scan over a well-tagged suffix meets only the tags 0..3 |
| RasterGeom.WellTaggedSplits | freetype/raster/geom.go:207-228 | a well-tagged path starting with a move, as the Path methods build it, is split without a panic |
| RasterPaint.ClipRow | freetype/raster/paint.go:57-76 | only the pixels of [x0, x1) clipped to the row change, each to the pixel function's value |
| RasterPaint.PaintSpans | freetype/raster/paint.go:47-78 | painting a batch keeps the image's shape |
| RasterPaint.PaintSpansUncovered | freetype/raster/paint.go:47-78 | a pixel no span covers keeps its value |
| RasterPaint.PaintSpansMonotone | freetype/raster/paint.go:47-78 | a pixel function that never lowers a value never lowers a pixel |
| RasterPaint.PaintImage | freetype/raster/paint.go:48-77 | the image becomes the batch painted onto its old contents |
| RasterPaint.PaintSpanRow | freetype/raster/paint.go:56-76 | only row y changes, to its clipped repaint |
| RasterPaint.AlphaPixel | freetype/raster/paint.go:64-75 | Src writes the span's top alpha byte; Over never lowers the pixel, keeps it for alpha 0 and makes it 255 for alpha 255 |
| RasterPaint.OverAlpha | freetype/raster/paint.go:65-69 | the Over blend lies between the old alpha and 255 |
| RasterPaint.AlphaOverNeverLowers | freetype/raster/paint.go:64-70 | painting with Over never lowers any alpha in the image |
| RasterPaint.AlphaPainter.constructor | freetype/raster/paint.go:80-83 | a new painter composes with Over at offset zero |
| RasterPaint.AlphaPainter.Paint | freetype/raster/paint.go:46-78 | the image becomes the batch painted onto its old contents with the painter's operator |
| RasterPaint.RGBAPixel | freetype/raster/paint.go:118-139 | under Src a span of zero alpha paints the transparent colour |
| RasterPaint.DestFactorNoWrap | freetype/raster/paint.go:126-127 | the destination factor does not wrap for 16-bit colour and alpha |
| RasterPaint.OverChannelNoWrap | freetype/raster/paint.go:128-131 | a premultiplied channel's Over blend equals the exact (d·a + c·ma) / M |
| RasterPaint.RGBAOverNoWrap | freetype/raster/paint.go:118-132 | for a premultiplied colour no uint32 product or sum in Over wraps: each channel is the exact blend's high byte |
| RasterPaint.RGBAPainter.constructor | freetype/raster/paint.go:153-156 | Over, offset zero, zero colour |
| RasterPaint.RGBAPainter.SetColor | freetype/raster/paint.go:144-151 | each channel keeps the high 16 bits; a premultiplied colour stays premultiplied; nothing else changes |
| RasterPaint.RGBAPainter.Paint | freetype/raster/paint.go:96-142 | the image becomes the batch painted with RGBAPixel under the same clipping as AlphaPainter |
| RasterPaint.Flush | freetype/raster/paint.go:183 | the accumulated span is emitted fully opaque at its row and columns |
| RasterPaint.MonoScanBound | freetype/raster/paint.go:169-180 | no more spans are flushed than were kept, so the compaction index stays in the batch |
| RasterPaint.MonoScanOpaque | freetype/raster/paint.go:171-179 | every flushed span is fully opaque |
| RasterPaint.MonoScanTransparent | freetype/raster/paint.go:170-171 | a batch with no span at least half opaque flushes nothing and keeps the accumulator |
| RasterPaint.RowPixelsJoin | freetype/raster/paint.go:172-173 | pixels of [a, b) and [b, c) make the pixels of [a, c) |
| RasterPaint.CoverageAppend | freetype/raster/paint.go:170-180 | coverage of a concatenation is the concatenation of coverages |
| RasterPaint.MonoScanCoverage | freetype/raster/paint.go:167-180 | merging loses and invents no pixel: flushed spans plus the final accumulator cover exactly the initial accumulator and the kept spans |
| RasterPaint.MonoScanMergesTouching | freetype/raster/paint.go:172-173 | two touching opaque spans on one row merge into one |
| RasterPaint.MonochromePainter.constructor | freetype/raster/paint.go:207-211 | the accumulator starts at (0, 0, 0) |
| RasterPaint.MonochromePainter.Paint | freetype/raster/paint.go:165-205 | the wrapped painter receives the merged opaque spans; when done the accumulator is flushed, in the same batch if there is room or else as a one-span batch, and reset |
| RasterPaint.MonochromePainter.FlushLast | freetype/raster/paint.go:181-201 | the done branch: where the final span goes and which batches are forwarded |
| RasterPaint.MonochromePainter.Compact | freetype/raster/paint.go:168-180 | the front of ss and the accumulator become MonoScan's result; the rest of ss is untouched |
| RasterPaint.GammaAlpha | freetype/raster/paint.go:232-242 | alpha 0 and fully opaque are kept; other alphas are widened by repeating the 16-bit value in both halves and lie between the two neighbouring table entries |
| RasterPaint.GammaIndex | freetype/raster/paint.go:236-238 | a non-opaque alpha indexes two table entries inside the table and a weight in [0, N] |
| RasterPaint.Widen16 | freetype/raster/paint.go:241 | a \| a << 16 holds a in both halves without overflow |
| RasterPaint.Interpolate | freetype/raster/paint.go:238-239 | the rounded interpolation lies between its two entries and is the first at weight 0 |
| RasterPaint.GammaSpans | freetype/raster/paint.go:232-243 | the batch keeps its length and every span only has its alpha corrected |
| RasterPaint.GammaCorrectionPainter.Paint | freetype/raster/paint.go:224-246 | alphas are corrected in place unless gamma is one, and the same slice and done flag are forwarded |
| RasterExample.ToPoint | example/raster/main.go:84-87 | the node becomes ((20 + x/4)·256, (380 - y/4)·256), divisions truncating |
| RasterExample.Contour | example/raster/main.go:89-110 | the rasterizer receives the calls of the contour walk, starting at the first node |
| RasterExample.TraceEnds | example/raster/main.go:95-109 | the walk's outcome is the one the degrees lead to |
| RasterExample.OutsideWalksToEnd | example/raster/main.go:27-76 | the outer table is walked to its end node without running off the table or hitting a bad degree |
| RasterExample.OutsideMiddleEnds | example/raster/main.go:27-76 | the outer walk from node 9 ends cleanly |
| RasterExample.OutsideTailEnds | example/raster/main.go:27-76 | the outer walk from node 25 ends cleanly |
| RasterExample.OutsideLastEnds | example/raster/main.go:27-76 | the outer walk from node 40 ends cleanly |
| RasterExample.InsideWalksToEnd | example/raster/main.go:77-82 | the inner table is walked to its end node |
| RasterExample.Mark | example/raster/main.go:119-127 | a node is marked exactly when its degree is 0, 1 or 2 |
| RasterExample.MarkOne | example/raster/main.go:113-130 | marking one node keeps the image's shape |
| RasterExample.Marked | example/raster/main.go:112-132 | marking all nodes keeps the image's shape |
| RasterExample.MarkedUntouched | example/raster/main.go:112-132 | a pixel that is no marked node's position keeps its colour |
| RasterExample.MarkedColours | example/raster/main.go:112-132 | every pixel that changes becomes cyan or red |
| RasterExample.ShowNodes | example/raster/main.go:112-132 | the image becomes Marked of its old contents |
| RasterExample.ShowNode | example/raster/main.go:113-131 | one iteration: the image becomes MarkOne of its old contents |
| Text2Svg.Others | example/text2svg/main.go:122-140 | the points walked after the start are points of the contour |
| Text2Svg.SplitStart | example/text2svg/main.go:118-140 | the start point and the rest are those of the start rule |
| Text2Svg.DrawContour | example/text2svg/main.go:103-174 | the callback receives exactly ContourCalls, nothing for an empty contour |
| Text2Svg.WalkAdvance | example/text2svg/main.go:143-167 | one more point walked moves its calls from the pending walk to the calls made |
| Text2Svg.EmitStep | example/text2svg/main.go:144-166 | one loop iteration emits the calls of one step |
| Text2Svg.WalkHasNoMove | example/text2svg/main.go:142-173 | no call of the walk is an 'M' |
| Text2Svg.WalkCloses | example/text2svg/main.go:168-173 | the walk's last call ends at the start point |
| Text2Svg.WalkControlsOffCurve | example/text2svg/main.go:149-172 | every 'Q' control point is an off-curve point |
| Text2Svg.ContourShape | example/text2svg/main.go:103-174 | exactly one 'M', first and at the start point; the last call returns to the start; every control point is off-curve |
| Text2Svg.ContourControlsOffCurve | example/text2svg/main.go:103-174 | every spline's control point is one of the contour's off-curve points |
| Text2Svg.ContourCallsSplit | example/text2svg/main.go:141-143 | the calls are the move to the start followed by the walk |
| Text2Svg.OffOffGivesMidpoint | example/text2svg/main.go:155-164 | two consecutive off-curve points give a spline to their midpoint |
| Face.Size | truetype/face.go:58-63 | positive; the option's size when given and positive, else 12 |
| Face.Dpi | truetype/face.go:65-70 | positive; the option's resolution when given and positive, else 72 |
| Face.HintingOf | truetype/face.go:72-81 | full hinting exactly when the option asks for vertical or full hinting, none otherwise |
| Face.SubPixels | truetype/face.go:110-131 | (32/q, -64/q) with truncating division; the mask clears the low bits and the bias is half a step |
| Face.Step | truetype/face.go:129-131 | the distance between quantized positions is positive and the mask's negation |
| Face.SubPixelsExamples | truetype/face.go:123-127 | q = 1, 2, 4, 64 give (32, -64), (16, -32), (8, -16), (0, -1), as the doc comment lists |
| Face.SubPixelsX | truetype/face.go:83-94 | the option's quantum when it is 1, 2, 4, ..., 64, otherwise 4 positions |
| Face.SubPixelsYAsWritten | truetype/face.go:96-108 | as written: the SubPixelsX field decides, falling back to 1 position (see Findings) |
| Face.SubPixelsYIgnoresItsField | truetype/face.go:96-101 | asking for 8 vertical and 4 horizontal positions gives 4 vertical ones |
| Face.SubPixelsY | truetype/face.go:96-108 | the corrected vertical quantum: the SubPixelsY field decides, falling back to 1 position |
| Face.NewQuantization | truetype/face.go:140-141 | both masks are quantization masks with their half-step biases; the vertical step divides a pixel into SubPixelsY positions, read with the corrected SubPixelsY (face.go:141 reads SubPixelsX, see SubPixelsYAsWritten) |
| Face.AndMask | truetype/face.go:195-196 | x & mask is x rounded down to a multiple of the step |
| Face.Kern | truetype/face.go:180-188 | unchanged without hinting; with hinting a multiple of 64 within half a pixel of the font's kerning |
| Face.Quantize | truetype/face.go:195-196 | the quantized dot is on the grid and the greatest grid point at or below x + bias |
| Face.SplitDot | truetype/face.go:199-200 | whole pixels and a fraction in [0, 64) that recombine to the value |
| Face.GlyphBounds | truetype/face.go:221-242 | not ok when loading fails or the flipped box is empty; otherwise an ordered box, Y flipped, with the glyph's advance |
| Face.PixelBox | truetype/face.go:262-268 | the pixel box, when there is one, is ordered |
| Face.PixelBoxCovers | truetype/face.go:262-265 | without wrap-around the box exists and its edges are the floor and ceiling pixels of the moved glyph box |
| Face.GlyphFrom | truetype/face.go:191-219 | ok exactly when rasterizing succeeds; the new dot is the unquantized dot advanced in X only; the rectangle's corner is the whole pixels of the quantized dot plus the rasterizer's offset, and it is gw by gh |
| Face.GlyphCornerPixel | truetype/face.go:194-215 | when dot + bias does not wrap, the rectangle's corner pixel is floor((dot + bias) / 64) plus the offset: quantizing never leaves the biased dot's pixel |
| Face.QuantizeKeepsPixel | truetype/face.go:194-199 | the quantized dot's whole pixels are those of dot + bias |
| Face.GlyphFractions | truetype/face.go:195-202 | the fractions handed to rasterize are in [0, 64) and on the face's quantization grid |
| Face.FractionOnGrid | truetype/face.go:199-200 | a fraction of a grid multiple stays on the grid |
| Face.Clear | truetype/face.go:288-292 | every byte of the mask is zero |
| Face.Others | truetype/face.go:314-332 | the points walked after the start are contour points; an on-curve last point used as start is left out |
| Face.DrawContour | truetype/face.go:294-366 | the rasterizer receives exactly ContourCalls, nothing for an empty contour |
| Face.StartAndOthers | truetype/face.go:310-332 | the start point and the rest are those of the three-way start rule |
| Face.ContourStep | truetype/face.go:336-358 | one loop iteration places the point with Y flipped and emits the calls of one step |
| Face.WalkAdvance | truetype/face.go:335-358 | one more point walked moves its calls from the pending walk to the calls made |
| Face.WalkShape | truetype/face.go:335-365 | a walk never starts a contour and its last call returns to the start |
| Face.WalkControlsOffCurve | truetype/face.go:341-365 | every Add2 control point is a placed off-curve point |
| Face.ContourShape | truetype/face.go:294-366 | one Start, first, at the start point; the last call returns the pen to the start |
| Face.ContourControlsOffCurve | truetype/face.go:294-366 | every spline's control point is an off-curve point of the contour |
| Face.ContoursSplitAll | truetype/face.go:279-283 | non-decreasing ends within the points give a contour slice for every end |
| Face.Rasterize | truetype/face.go:255-286 | not ok, with nothing drawn and the mask untouched, when loading fails or the box is empty; otherwise the mask is cleared and every contour is drawn at the fraction moved into the box |
| Face.BoxOffset | truetype/face.go:274-275 | the fraction minus the box corner in 26.6, when nothing wraps |
| Face.Prefixed | truetype/face.go:279-283 | calls prefixed to a result; nothing when there is no result |
| Face.ContoursCallsStep | truetype/face.go:279-283 | the calls from end i on are contour i's calls followed by the later contours', or nothing at a bad slice |
| Face.DrawContours | truetype/face.go:279-283 | the loop over contour ends makes exactly the calls of ContoursCalls |
| FreeTypeContext.FUnitToFix32Nearest | freetype/freetype.go:81-85 | without wrap-around, x·scale/256 rounded to nearest, halves up |
| FreeTypeContext.FUnitToPixelRD | freetype/freetype.go:87-91 | the floor of x·scale / 65536 |
| FreeTypeContext.FUnitToPixelRU | freetype/freetype.go:93-97 | the ceiling of x·scale / 65536 |
| FreeTypeContext.RoundDownUp | freetype/freetype.go:87-97 | RD <= RU <= RD + 1, equal exactly on whole pixels |
| FreeTypeContext.DefaultScale | freetype/freetype.go:314-322 | 12 points at 72 DPI with 2048 units per em give scale 384 |
| FreeTypeContext.WalkShape | freetype/freetype.go:106-150 | a walk never starts a contour and its last call returns to the start |
| FreeTypeContext.ContourShape | freetype/freetype.go:106-150 | Start at ps[0] first and nowhere else; the last call returns to ps[0] |
| FreeTypeContext.OffOffGivesMidpoint | freetype/freetype.go:106-150 | two off-curve points after an on-curve one give a spline to their midpoint, then a closing spline |
| FreeTypeContext.MidpointTruncates | freetype/freetype.go:106-150 | the midpoint's halving truncates toward zero |
| FreeTypeContext.DrawContourCalls | freetype/freetype.go:106-150 | the loop makes exactly ContourCalls |
| FreeTypeContext.WalkAdvance | freetype/freetype.go:119-143 | one more point walked moves its calls from the pending walk to the calls made |
| FreeTypeContext.ContourStep | freetype/freetype.go:106-150 | one iteration scales and places the point and emits the calls of one step |
| FreeTypeContext.CacheSlot | freetype/freetype.go:193-197 | the slot is inside the 1024-entry cache |
| FreeTypeContext.CacheSlotShared | freetype/freetype.go:193-197 | two lookups share a slot exactly when their glyphs agree modulo 256 and their x fractions are in the same quarter |
| FreeTypeContext.PenAt | freetype/freetype.go:222-241 | the pen's y never changes |
| FreeTypeContext.PenFirstRune | freetype/freetype.go:225-232 | the first rune is not kerned, only advanced |
| FreeTypeContext.PenAtStep | freetype/freetype.go:223-239 | one more rune: kerning with the previous glyph, if any, then its advance |
| FreeTypeContext.Int32AddWrap | freetype/freetype.go:226-232 | wrapping an intermediate sum to int32 does not change the wrapped total |
| FreeTypeContext.PenWithoutKerning | freetype/freetype.go:218-242 | with no kerning the pen ends at the start plus the advances, modulo 2^32 |
| FreeTypeContext.PenIsUnkerned | freetype/freetype.go:218-242 | with no kerning the pen moves by the advances alone |
| FreeTypeContext.UnkernedPenSum | freetype/freetype.go:232 | the unkerned pen is the start plus the sum of the advances, wrapped once |
| FreeTypeContext.InvalidateAll | freetype/freetype.go:259-261 | every cache entry becomes the empty entry |
| FreeTypeContext.Context.constructor | freetype/freetype.go:313-323 | 12 points, 72 DPI, 2048 units per em, scale 384, no font, empty cache |
| FreeTypeContext.Context.Recalc | freetype/freetype.go:244-262 | the scale from size, resolution and units per em; bounds from the font's box by RD/RU (none without a font); every cache entry invalidated; nothing else changes |
| FreeTypeContext.Context.SetDPI | freetype/freetype.go:264-271 | nothing changes when the resolution is the same; otherwise set it, the scale recomputed, the rasterizer bounds recalc sets (RecalcBounds), the cache emptied, the adder calls kept |
| FreeTypeContext.Context.SetFont | freetype/freetype.go:273-284 | nothing changes for the same font; a nil font replacing one is stored and panics, nothing else changing; otherwise its units per em, clamped to at least 1, the scale, the new font's rasterizer bounds (RecalcBounds), the cache emptied, the adder calls kept |
| FreeTypeContext.Context.SetFontSize | freetype/freetype.go:286-293 | nothing changes when the size is the same; otherwise set it, the scale recomputed, the rasterizer bounds recalc sets (RecalcBounds), the cache emptied, the adder calls kept |
| FreeTypeContext.Context.DrawContour | freetype/freetype.go:105-150 | the rasterizer's calls grow by exactly ContourCalls; nothing else changes |
| FreeTypeContext.Context.Glyph | freetype/freetype.go:186-209 | a hit needs a valid entry for the same glyph and returns its offset plus the whole pixels; a miss rasterizes and on success stores a valid entry; other slots are untouched |
| FreeTypeContext.Context.DrawString | freetype/freetype.go:211-242 | the context stays valid; an error without a font (cache untouched); an error only when some rune's glyph fails to rasterize at its kerned pen; otherwise the pen as PenAt says, and success whenever every glyph rasterizes; every cache slot keeps its entry or holds one rasterize produced for that slot |
| Ints.BE16 | freetype/truetype/truetype.go:60-65 | a big-endian 16-bit value is in [0, 2^16) |
| Ints.BE32 | freetype/truetype/truetype.go:53-58 | a big-endian 32-bit value is in [0, 2^32) |
| Ints.BEDigits | freetype/truetype/truetype.go:53-65 | the bytes of a big-endian value are its base-256 digits, most significant first |
| TrueTypeFont.Data.constructor | freetype/truetype/truetype.go:50-51 | the cursor stands at the start of the bytes |
| TrueTypeFont.Data.U32 | freetype/truetype/truetype.go:53-58 | returns the next big-endian uint32 and advances by exactly 4 bytes |
| TrueTypeFont.Data.U16 | freetype/truetype/truetype.go:60-65 | returns the next big-endian uint16 and advances by exactly 2 bytes |
| TrueTypeFont.Data.U8 | freetype/truetype/truetype.go:67-72 | returns the next byte and advances by exactly 1 byte |
| TrueTypeFont.Data.Skip | freetype/truetype/truetype.go:74-77 | advances by exactly n bytes |
| TrueTypeFont.ReadTable | freetype/truetype/truetype.go:79-95 | succeeds exactly when offset + length fits the file, and then is exactly ttf[offset:offset+length] |
| TrueTypeFont.WithTable | freetype/truetype/truetype.go:373-390 | one switch case sets its table and keeps the others |
| TrueTypeFont.UnknownTagsIgnored | freetype/truetype/truetype.go:371-394 | entries whose tag is none of the eight known ones change nothing |
| TrueTypeFont.LastEntryWins | freetype/truetype/truetype.go:371-394 | when the walk succeeds, a table is the one the last entry with its tag designates |
| TrueTypeFont.EntryWins | freetype/truetype/truetype.go:371-394 | an entry sets its table, and later entries naming other tables keep it |
| TrueTypeFont.KeepsField | freetype/truetype/truetype.go:371-394 | entries that name other tables leave a table as it is |
| TrueTypeFont.UnicodePreferred | freetype/truetype/truetype.go:142-156 | the first Unicode record wins over every Microsoft record, before or after it |
| TrueTypeFont.MicrosoftFallback | freetype/truetype/truetype.go:142-156 | without a Unicode record the last Microsoft record is used |
| TrueTypeFont.NoEncodingKeepsPick | freetype/truetype/truetype.go:142-156 | records of neither encoding leave the pick as it was |
| TrueTypeFont.SegmentsOf | freetype/truetype/truetype.go:178-193 | n segments whose end, start, delta and offset are read from the four parallel arrays |
| TrueTypeFont.ChooseEncoding | freetype/truetype/truetype.go:142-156 | found exactly when an encoding is preferred, and then its offset |
| TrueTypeFont.ReadCmap | freetype/truetype/truetype.go:123-196 | the reads of parseCmap give exactly CmapSpec |
| TrueTypeFont.ReadU16s | freetype/truetype/truetype.go:181-193 | n consecutive big-endian values, the cursor advanced by 2n |
| TrueTypeFont.ReadSegments | freetype/truetype/truetype.go:179-193 | the four arrays after segCountX2 are the subtable's segments; the cursor ends after them |
| TrueTypeFont.ReadU16sAt | freetype/truetype/truetype.go:181-193 | n big-endian values read at offset a, the cursor advanced by 2n |
| TrueTypeFont.ReadSubtable | freetype/truetype/truetype.go:164-195 | the reads of the chosen subtable give exactly SubtableSpec |
| TrueTypeFont.IndexFirstSegment | freetype/truetype/truetype.go:294-309 | only the first segment holding c counts; with offset 0 the glyph is (c + delta) mod 2^16 |
| TrueTypeFont.IndexNoSegment | freetype/truetype/truetype.go:308 | a character no segment holds maps to glyph 0 |
| TrueTypeFont.HMetricInBounds | freetype/truetype/truetype.go:311-329 | with the hmtx length parseHhea checks and at least one full record, every glyph's metrics are in bounds; a glyph with a full record gets it |
| TrueTypeFont.HMetricWithoutRecords | freetype/truetype/truetype.go:317-320 | with no full metric record the last record's offset is negative, so every glyph below nGlyph is out of range |
| TrueTypeFont.KeyUnique | freetype/truetype/truetype.go:338-349 | in a sorted kerning table a key occurs once |
| TrueTypeFont.SortedBelow | freetype/truetype/truetype.go:342-343 | every key up to one below the target is below it, so moving lo up loses nothing |
| TrueTypeFont.SortedAbove | freetype/truetype/truetype.go:344-345 | every key from one above the target on is above it, so moving hi down loses nothing |
| TrueTypeFont.DecodeHead | freetype/truetype/truetype.go:202-210 | unitsPerEm at byte 18, the int16 bounds at 36..43 and indexToLocFormat at 50 |
| TrueTypeFont.KernHeader | freetype/truetype/truetype.go:252-268 | version, nTables, length, coverage and nPairs at their byte offsets |
| TrueTypeFont.Font.constructor | freetype/truetype/truetype.go:369 | no tables and zero metrics |
| TrueTypeFont.Font.SetTable | freetype/truetype/truetype.go:373-390 | one table installed, everything else kept |
| TrueTypeFont.Font.ParseHead | freetype/truetype/truetype.go:198-219 | a head that is not 54 bytes is a FormatError; otherwise unitsPerEm and the bounds are read and indexToLocFormat 0 or 1 gives short or long loca, anything else a FormatError |
| TrueTypeFont.Font.ParseMaxp | freetype/truetype/truetype.go:275-282 | a maxp that is not 32 bytes is a FormatError; otherwise nGlyph is the value at byte 4 |
| TrueTypeFont.Font.ParseHhea | freetype/truetype/truetype.go:221-231 | an hhea that is not 36 bytes is a FormatError; otherwise nHMetric is read, and success exactly when hmtx is 4·nHMetric + 2·(nGlyph - nHMetric) bytes |
| TrueTypeFont.Font.ParseKern | freetype/truetype/truetype.go:233-273 | no kern table needs nKern == 0; a short one is a FormatError; version, nTables and coverage other than 0, 1, 1 are UnsupportedErrors; the length must hold 6 bytes per pair |
| TrueTypeFont.Font.ReadDirectory | freetype/truetype/truetype.go:371-394 | the loop installs exactly the tables DirectoryFrom designates, or stops at its first failing readTable |
| TrueTypeFont.Font.ParseTables | freetype/truetype/truetype.go:395-410 | the checks head, maxp, cmap, kern, hhea in order: success exactly when all pass, and then the derived fields hold |
| TrueTypeFont.Font.ParseCmap | freetype/truetype/truetype.go:123-196 | the error CmapSpec gives, or the preferred format-4 subtable's segments and glyph index array |
| TrueTypeFont.Font.Index | freetype/truetype/truetype.go:294-309 | the rune truncated to 16 bits, looked up by the first segment holding it |
| TrueTypeFont.Font.HMetric | freetype/truetype/truetype.go:311-329 | zero past nGlyph; a full record below nHMetric; otherwise the last advance and the glyph's own bearing |
| TrueTypeFont.Font.Kerning | freetype/truetype/truetype.go:331-351 | 0 without pairs; a failure only when the table is shorter than its pair count says; a non-zero result is the value of a pair with the key; in a sorted table, the stored value for a listed pair and 0 for an unlisted one |
| TrueTypeFont.Parse | freetype/truetype/truetype.go:353-413 | a font exactly when there is no error; short input, a bad version or a directory past the end are FormatErrors; otherwise success exactly when every known entry fits and the tables pass their checks, the font then holding those tables |
| TrueTypeOutline.ResizedAsWritten | freetype/truetype/truetype.go:600-619 | load's resize as written has the requested length (see Findings) |
| TrueTypeOutline.ResizeAsWrittenForgets | freetype/truetype/truetype.go:602-606 | growing past the capacity zeroes every element already held |
| TrueTypeOutline.ResizeDropsLoadedPoints | freetype/truetype/truetype.go:615-619 | a compound's first component's points are wiped when the second needs more room than the buffer has |
| TrueTypeOutline.Resized | freetype/truetype/truetype.go:600-619 | the corrected resize: length n, everything held below n kept, new elements zero |
| TrueTypeOutline.ExpandFlags | freetype/truetype/truetype.go:457-471 | a decoded run has exactly n flags |
| TrueTypeOutline.RepeatedFlag | freetype/truetype/truetype.go:462-467 | a flag with the repeat bit and count k sets the next k+1 points and consumes two bytes |
| TrueTypeOutline.RepeatPastEnd | freetype/truetype/truetype.go:462-467 | a repeat count past the last point is an out-of-range write |
| TrueTypeOutline.FlagStep | freetype/truetype/truetype.go:458-468 | one flag or one repeated run at the head of the data, or a panic when the data runs out |
| TrueTypeOutline.ReadFlags | freetype/truetype/truetype.go:457-471 | the loop yields exactly the expanded flags and remaining data, failing exactly when the data runs out |
| TrueTypeOutline.ReadStep | freetype/truetype/truetype.go:459-468 | one iteration reads exactly the next step of the expanded flags, and fails exactly when the expansion panics |
| TrueTypeOutline.RepeatRun | freetype/truetype/truetype.go:463-467 | the repeats are count copies of the flag, failing exactly when more than the remaining points |
| TrueTypeOutline.FlagsAdvance | freetype/truetype/truetype.go:458-469 | the flags read so far and the pending expansion always make up the whole expansion |
| TrueTypeOutline.StepDelta | freetype/truetype/truetype.go:478-487 | a short vector is one byte signed by the positive bit; without the short bit the same bit means a zero delta, otherwise a 16-bit word follows |
| TrueTypeOutline.AxisDeltas | freetype/truetype/truetype.go:476-489 | one delta per point |
| TrueTypeOutline.Running | freetype/truetype/truetype.go:475-503 | one running coordinate per delta |
| TrueTypeOutline.RunningIsWrappedSum | freetype/truetype/truetype.go:475-488 | each coordinate is the int16-wrapped sum of the deltas up to it |
| TrueTypeOutline.Int16AddWrap | freetype/truetype/truetype.go:481-486 | wrapping after every addition equals wrapping once at the end |
| TrueTypeOutline.SameKeepsCoordinate | freetype/truetype/truetype.go:485-488 | a point with the short bit clear and the same bit set keeps the previous coordinate |
| TrueTypeOutline.CoordsSpec | freetype/truetype/truetype.go:474-505 | decoded coordinates have one x and one y per flag |
| TrueTypeOutline.ReadDelta | freetype/truetype/truetype.go:477-488 | one point of one axis reads exactly StepDelta's delta and bytes |
| TrueTypeOutline.ReadAxis | freetype/truetype/truetype.go:475-489 | one axis of the loop gives the running coordinates of AxisDeltas, failing exactly when the data runs out |
| TrueTypeOutline.GlyphRange | freetype/truetype/truetype.go:573-582 | loca offsets are even in the short format; an out-of-range read panics |
| TrueTypeOutline.GlyphData | freetype/truetype/truetype.go:583-586 | equal offsets give an empty glyph; otherwise glyf[g0:g1] |
| TrueTypeOutline.Classify | freetype/truetype/truetype.go:586-599 | a glyph is compound exactly when its contour count is -1; simple and compound bodies start after the 10-byte header |
| TrueTypeOutline.LocateGlyph | freetype/truetype/truetype.go:573-586 | the cursor reads locate exactly GlyphData |
| TrueTypeOutline.ClassifyGlyph | freetype/truetype/truetype.go:572-599 | the reads of load classify the glyph exactly as Classify |
| TrueTypeOutline.EndsOf | freetype/truetype/truetype.go:607-609 | End[i] = 1 + np0 + endPt, so every new end is above np0 |
| TrueTypeOutline.PointsFrom | freetype/truetype/truetype.go:620-621 | n decoded points |
| TrueTypeOutline.SimpleOutline | freetype/truetype/truetype.go:600-622 | as many ends as contours, ends above np0, and the last end is the new point count |
| TrueTypeOutline.Shift | freetype/truetype/truetype.go:553-556 | points before i0 are kept and the length is unchanged |
| TrueTypeOutline.ReadComponentSpec | freetype/truetype/truetype.go:535-544 | a component header consumes data |
| TrueTypeOutline.AfterComponent | freetype/truetype/truetype.go:551-559 | the component's points are appended and moved, the earlier ones kept, the ends as loaded, and the bounds restored unless USE_MY_METRICS |
| TrueTypeOutline.CompoundStep | freetype/truetype/truetype.go:534-563 | an accepted component is loaded one level deeper, placed, and followed by the next one |
| TrueTypeOutline.LoadKeepsValid | freetype/truetype/truetype.go:568-623 | loading keeps the contour ends consistent with the points |
| TrueTypeOutline.SimpleKeepsValid | freetype/truetype/truetype.go:600-622 | appending a simple outline keeps the buffer consistent |
| TrueTypeOutline.CompoundKeepsValid | freetype/truetype/truetype.go:518-565 | loading components keeps the buffer consistent |
| TrueTypeOutline.LoadAppends | freetype/truetype/truetype.go:568-623 | the corrected load only appends: points and ends already held stay, even on a panic |
| TrueTypeOutline.CompoundAppends | freetype/truetype/truetype.go:518-565 | with the corrected resize, loading components only appends (corrected resize, see TrueTypeOutline.GlyphBuf.AppendPoints under Left out) |
| TrueTypeOutline.SelfReferenceLoadsNothing | freetype/truetype/truetype.go:548-571 | a compound whose only component is itself loads no points: the recursion limit stops it and the discarded error leaves just the compound's bounds |
| TrueTypeOutline.ReadComponent | freetype/truetype/truetype.go:535-544 | the cursor reads give exactly ReadComponentSpec |
| TrueTypeOutline.GlyphBuf.constructor | freetype/truetype/truetype.go:625-631 | an empty, consistent buffer |
| TrueTypeOutline.GlyphBuf.Load | freetype/truetype/truetype.go:507-515 | the error of loading glyph i into an empty buffer, and unless it panics the buffer LoadSpec gives (corrected resize, see TrueTypeOutline.GlyphBuf.AppendPoints under Left out) |
| TrueTypeOutline.GlyphBuf.LoadGlyph | freetype/truetype/truetype.go:567-623 | load's error and, unless it panics, the buffer LoadSpec gives; with the corrected resize, points and ends only grow (corrected resize, see TrueTypeOutline.GlyphBuf.AppendPoints under Left out) |
| TrueTypeOutline.GlyphBuf.LoadSimple | freetype/truetype/truetype.go:600-622 | a simple glyph's outline is appended exactly as SimpleOutline says, or an out-of-range error when it does not decode (corrected resize, see TrueTypeOutline.GlyphBuf.AppendPoints under Left out) |
| TrueTypeOutline.GlyphBuf.AppendPoints | freetype/truetype/truetype.go:614-621 | the buffer grown to np points with the corrected Resized, earlier points kept, the new ones decoded, ok exactly when the data holds them |
| TrueTypeOutline.GlyphBuf.AppendEnds | freetype/truetype/truetype.go:600-612 | the new contour ends appended with the corrected Resized, earlier ends kept, ok exactly when the data holds them and the instruction length |
| TrueTypeOutline.GlyphBuf.DecodePoints | freetype/truetype/truetype.go:620-621 | the points from np0 on become the decoded points, ok exactly when the data holds them |
| TrueTypeOutline.GlyphBuf.DecodeFlags | freetype/truetype/truetype.go:457-471 | the flags of the points from np0 on become ExpandFlags', the earlier points untouched |
| TrueTypeOutline.GlyphBuf.DecodeCoords | freetype/truetype/truetype.go:473-505 | the points from np0 on get the decoded coordinates, ok exactly when the data holds them |
| TrueTypeOutline.GlyphBuf.LoadCompound | freetype/truetype/truetype.go:517-565 | the error and, unless it panics, the buffer CompoundSpec gives (corrected resize, see TrueTypeOutline.GlyphBuf.AppendPoints under Left out) |
| TrueTypeOutline.GlyphBuf.ShiftPoints | freetype/truetype/truetype.go:553-556 | the points from i0 on are moved by (dx, dy), nothing else changes |
| TrueTypeGlyph.RoundToGrid | freetype/truetype/glyph.go:327-330 | a multiple of 64 within half a pixel of v, halves up |
| TrueTypeGlyph.F2Dot14Unit | freetype/truetype/glyph.go:318-321 | a factor of 1.0 keeps a value and 0 gives 0 |
| TrueTypeGlyph.IdentityKeepsPoints | freetype/truetype/glyph.go:315-323 | the identity transform leaves a point unchanged |
| TrueTypeGlyph.TransformFrom | freetype/truetype/glyph.go:315-324 | only points from np0 on are transformed |
| TrueTypeGlyph.TranslateFrom | freetype/truetype/glyph.go:331-335 | only points from np0 on move, and flags are kept |
| TrueTypeGlyph.Phantoms | freetype/truetype/glyph.go:379-386 | exactly four phantom points |
| TrueTypeGlyph.WithPhantoms | freetype/truetype/glyph.go:378-411 | four points appended, the earlier ones kept, the 2nd phantom's x and the 4th's y multiples of 64 |
| TrueTypeGlyph.WidenAll | freetype/truetype/glyph.go:217-250 | each decoded point keeps its coordinates and flags, widened to int32 |
| TrueTypeGlyph.PointCountsAgree | freetype/truetype/glyph.go:197-198 | with new contours the as-written and corrected point counts agree |
| TrueTypeGlyph.ZeroContoursAsWritten | freetype/truetype/glyph.go:197-198 | with no contours the as-written count takes the previous glyph's end, or panics on an empty buffer (see Findings) |
| TrueTypeGlyph.ExpandFlagsAsWritten | freetype/truetype/glyph.go:200-214 | the as-written loop yields at least n flags (see Findings) |
| TrueTypeGlyph.RepeatRunOvershoots | freetype/truetype/glyph.go:201-214 | one point whose flag repeats twice yields three points, where the earlier decoder panics |
| TrueTypeGlyph.SimpleEndsSpec | freetype/truetype/glyph.go:185-189 | End[i] = 1 + endPtsOfContours[i] |
| TrueTypeGlyph.SimpleSpec | freetype/truetype/glyph.go:184-253 | ne ends of stored end + 1; the program is exactly the instrLen bytes after them; corrected (point count and flag expansion): the count is taken from the new ends and a repeat run past the last point is out of range |
| TrueTypeGlyph.SetMetrics | freetype/truetype/glyph.go:169-176 | points and ends untouched; once metrics are set nothing changes |
| TrueTypeGlyph.ShiftEnds | freetype/truetype/glyph.go:160-167 | one shifted end per end |
| TrueTypeGlyph.AppendSimple | freetype/truetype/glyph.go:138-176 | the points grow by exactly the decoded count (phantoms dropped) with the earlier ones kept; ends are offset by np0; set metrics stay |
| TrueTypeGlyph.SimpleLoaded | freetype/truetype/glyph.go:137-176 | success exactly when the simple glyph decodes, then appended; otherwise an out-of-range panic with the buffer unchanged (corrected point count and flag expansion, see TrueTypeGlyph.SimpleSpec under Left out) |
| TrueTypeGlyph.ReadTransformSpec | freetype/truetype/glyph.go:291-309 | a transform is read exactly when a scale flag is set; WE_HAVE_A_SCALE gives t0 == t3 |
| TrueTypeGlyph.ComponentOffset | freetype/truetype/glyph.go:325-330 | ROUND_XY_TO_GRID gives a multiple of 64 |
| TrueTypeGlyph.PlaceComponent | freetype/truetype/glyph.go:315-335 | only the component's points, from np0 on, change |
| TrueTypeGlyph.PlaceSub | freetype/truetype/glyph.go:315-335 | placing a component changes only its points and keeps the buffer consistent |
| TrueTypeGlyph.MovedLeft | freetype/truetype/glyph.go:91-94 | every x moves left by pp1x, wrapping to int32; nothing else changes |
| TrueTypeGlyph.CompoundStep | freetype/truetype/glyph.go:275-340 | an accepted component is loaded one level deeper with its use-my-metrics flag, placed, and followed by the next |
| TrueTypeGlyph.LoadKeepsValid | freetype/truetype/glyph.go:100-178 | loading keeps the contour ends consistent with the points |
| TrueTypeGlyph.CompoundKeepsValid | freetype/truetype/glyph.go:255-340 | loading components keeps the buffer consistent |
| TrueTypeGlyph.LoadAppends | freetype/truetype/glyph.go:100-178 | loading only appends to points and ends (simple glyphs decoded with the corrected point count and flag expansion) |
| TrueTypeGlyph.CompoundAppends | freetype/truetype/glyph.go:255-340 | loading components only appends (simple components decoded with the corrected point count and flag expansion) |
| TrueTypeGlyph.MetricsSetOnce | freetype/truetype/glyph.go:169-176 | once metrics are set, further loading never changes the bounds or pp1x |
| TrueTypeGlyph.CompoundMetricsSetOnce | freetype/truetype/glyph.go:169-176 | the same through the components of a compound |
| TrueTypeGlyph.SelfReferenceFails | freetype/truetype/glyph.go:100-104 | a compound whose only component is itself fails with the recursion error, propagated through every level |
| TrueTypeGlyph.SimpleGlyphAppends | freetype/truetype/glyph.go:137-168 | a simple glyph grows the points by exactly its decoded count and its ends are stored end + 1 + np0 |
| TrueTypeGlyph.ReadTransform | freetype/truetype/glyph.go:291-309 | the reads give exactly ReadTransformSpec |
| TrueTypeGlyph.GlyphBuf.constructor | freetype/truetype/glyph.go:415-421 | an empty, consistent buffer |
| TrueTypeGlyph.GlyphBuf.Load | freetype/truetype/glyph.go:67-98 | the error of loading from an empty buffer, and unless it panics the buffer LoadTopSpec gives: reset, loaded, moved left by pp1x (corrected point count and flag expansion, see TrueTypeGlyph.SimpleSpec under Left out) |
| TrueTypeGlyph.GlyphBuf.MoveLeft | freetype/truetype/glyph.go:91-96 | the points become MovedLeft; nothing else changes |
| TrueTypeGlyph.GlyphBuf.LoadGlyph | freetype/truetype/glyph.go:100-178 | load's error and, unless it panics, the buffer LoadSpec gives (corrected point count and flag expansion, see TrueTypeGlyph.SimpleSpec under Left out) |
| TrueTypeGlyph.GlyphBuf.LoadCompoundGlyph | freetype/truetype/glyph.go:127-136 | the compound half of load: CompoundLoaded's error and buffer (corrected point count and flag expansion, see TrueTypeGlyph.SimpleSpec under Left out) |
| TrueTypeGlyph.GlyphBuf.UseMetrics | freetype/truetype/glyph.go:169-176 | the state becomes SetMetrics of the old one |
| TrueTypeGlyph.GlyphBuf.LoadSimple | freetype/truetype/glyph.go:137-176 | the simple half of load: SimpleLoaded's error and buffer (corrected point count and flag expansion, see TrueTypeGlyph.SimpleSpec under Left out) |
| TrueTypeGlyph.GlyphBuf.DecodeSimple | freetype/truetype/glyph.go:184-253 | ok exactly when SimpleSpec decodes; then its program is returned and its points and ends appended (corrected point count and flag expansion, see TrueTypeGlyph.SimpleSpec under Left out) |
| TrueTypeGlyph.GlyphBuf.FinishSimple | freetype/truetype/glyph.go:140-176 | the state becomes AppendSimple of the buffer before decoding |
| TrueTypeGlyph.GlyphBuf.AppendEnds | freetype/truetype/glyph.go:185-195 | the ends of SimpleEndsSpec appended, ok exactly when the data holds them and the instruction length |
| TrueTypeGlyph.GlyphBuf.DecodePoints | freetype/truetype/glyph.go:200-250 | n decoded points appended, widened; ok exactly when the data holds them; corrected flag expansion, so a repeat run past n is out of range (see TrueTypeGlyph.SimpleSpec under Left out) |
| TrueTypeGlyph.GlyphBuf.AssembledPoints | freetype/truetype/glyph.go:200-250 | flags, then x, then y written in turn give the decoded points |
| TrueTypeGlyph.GlyphBuf.AppendFlags | freetype/truetype/glyph.go:204-211 | one point at the origin per flag appended, the old points kept |
| TrueTypeGlyph.GlyphBuf.SetXs | freetype/truetype/glyph.go:217-233 | the x of each point from np0 on is set; nothing else changes |
| TrueTypeGlyph.GlyphBuf.SetYs | freetype/truetype/glyph.go:234-250 | the y of each point from np0 on is set; nothing else changes |
| TrueTypeGlyph.GlyphBuf.AddPhantomsAndScale | freetype/truetype/glyph.go:378-411 | the points become WithPhantoms of the old ones |
| TrueTypeGlyph.GlyphBuf.OffsetEnds | freetype/truetype/glyph.go:160-167 | ends from ne0 on are moved on by np0 |
| TrueTypeGlyph.GlyphBuf.LoadCompound | freetype/truetype/glyph.go:255-341 | the error and, unless it panics, the buffer CompoundSpec gives (corrected point count and flag expansion, see TrueTypeGlyph.SimpleSpec under Left out) |
| TrueTypeGlyph.GlyphBuf.TransformPoints | freetype/truetype/glyph.go:315-324 | the points become TransformFrom of the old ones |
| TrueTypeGlyph.GlyphBuf.TranslatePoints | freetype/truetype/glyph.go:331-335 | the points become TranslateFrom of the old ones |
| HintArith.PushPayload | freetype/truetype/hint.go:1193-1198 | PUSHB[n] carries 1 to 8 data bytes and PUSHW[n] an even 2 to 16 |
| HintArith.SkipInstructionPayload | freetype/truetype/hint.go:1179-1201 | fails exactly for an NPUSHB/NPUSHW with no count byte; otherwise the position of the last payload byte: count bytes for NPUSHB, twice that for NPUSHW, the fixed payload for PUSHB/PUSHW, pc itself for any other opcode |
| HintArith.F2Dot14 | freetype/truetype/hint.go:222-234 | a stack value that fits in 16 bits is kept |
| HintArith.Abs26 | freetype/truetype/hint.go:1210-1215 | the absolute value, except that the most negative int32 is its own |
| HintArith.Mul26 | freetype/truetype/hint.go:1223-1225 | without overflow, the floor of x·y/64; multiplying by 1.0 keeps x |
| HintArith.Div26 | freetype/truetype/hint.go:1218-1220 | without overflow, 64x/y truncated toward zero; dividing by 1.0 keeps x |
| HintArith.DotProduct | freetype/truetype/hint.go:1227-1233 | projecting on the x axis gives x and on the y axis gives y |
| HintArith.Bool2Int32 | freetype/truetype/hint.go:1256-1261 | 1 exactly when true, 0 exactly when false |
| HintArith.Int64 | freetype/truetype/hint.go:1047-1049 | the result is in int64 range and any value already in range is kept |
| HintArith.Unsigned32 | freetype/truetype/hint.go:1243 | the 32-bit pattern: non-negative values kept, negative ones plus 2^32 |
| HintArith.AndNegPow2 | freetype/truetype/hint.go:1243 | x & -2^k, on 32-bit two's-complement bits, floors x to a multiple of 2^k |
| HintArith.Round | freetype/truetype/hint.go:1237-1254 | with period 0 rounding is off and x comes back |
| HintArith.RoundMagnitudeFloor | freetype/truetype/hint.go:1243 | the core of round floors x - phase + threshold to the period |
| HintArith.RoundKeepsSign | freetype/truetype/hint.go:1242-1253 | with a power-of-two period, every positive input rounds to at least +phase, and every negative one (except -2^31) whose shifted magnitude fits in an int32 rounds to at most -phase; each result lies on the period grid shifted by the phase |
| HintArith.RoundPositive | freetype/truetype/hint.go:1242-1247 | the positive branch for every positive int32, wrap-around included: at least the phase, on the shifted grid |
| HintArith.RoundNegative | freetype/truetype/hint.go:1249-1253 | the negative branch while the shifted magnitude fits: at most minus the phase, on the shifted grid |
| HintArith.RoundPositiveWraps | freetype/truetype/hint.go:1243-1247 | when x - phase + threshold passes 2^31 - 1, the AND is negative and the positive branch clamps to exactly the phase |
| HintArith.RoundPositiveFits | freetype/truetype/hint.go:1243-1247 | otherwise the positive branch gives the clamped floor plus the phase: at least the phase, on the shifted grid |
| HintArith.AndHighBits | freetype/truetype/hint.go:1243 | when two n-bit numbers both have every bit from j up set, so does their AND |
| HintArith.And32NonNegative | freetype/truetype/hint.go:1243 | ANDing a non-negative int32 with any mask gives a value between 0 and it |
| HintArith.And32HighBits | freetype/truetype/hint.go:1243 | ANDing two negative int32 values at or above -2^j gives a negative value at or above -2^j |
| HintArith.FloorBelowTop | freetype/truetype/hint.go:1243-1247 | a value floored to a power-of-two period within int32 leaves room below 2^31 for a phase smaller than the period |
| HintArith.RoundKeepsSignAnyPeriod | freetype/truetype/hint.go:1242-1253 | for any period from 1 to 4096 (the S45ROUND periods 22, 45 and 90 included), a positive x with x + threshold in int32 rounds to at least +phase, and a negative x (except -2^31) with -x + threshold in int32 to at most -phase |
| HintArith.AnyPeriodPositive | freetype/truetype/hint.go:1242-1247 | the positive half of the any-period statement |
| HintArith.AnyPeriodNegative | freetype/truetype/hint.go:1249-1253 | the negative half of the any-period statement |
| HintArith.RoundHalfGridAtMinimum | freetype/truetype/hint.go:1249-1253 | under RTHG, -2^31 negates to itself and subtracting the phase wraps: the result is 2^31 - 32, positive |
| HintArith.NearMinimumShift | freetype/truetype/hint.go:1249 | within 32 of -2^31, negating and adding 32 wraps to within 64 of -2^31 |
| HintArith.AndNearMinimum | freetype/truetype/hint.go:1249 | clearing the six low bits of a value within 64 of -2^31 gives -2^31 |
| HintArith.RoundToGridIsNearest | freetype/truetype/hint.go:275-278 | under RTG every result is a multiple of 64, and away from the int32 limits a nearest one |
| HintArith.GridNearMaximum | freetype/truetype/hint.go:1243-1246 | just below 2^31 the shifted value wraps negative and RTG gives 0 |
| HintArith.GridNearMinimum | freetype/truetype/hint.go:1249 | just above -2^31 RTG gives -2^31, through two wrap-arounds |
| HintArith.RoundNonNegative | freetype/truetype/hint.go:1242-1247 | without wrap-around, a non-negative x rounds to floor(x - phase + threshold) + phase |
| HintArith.RoundRTGExample | freetype/truetype/hint_test.go:407-414 | 90 rounds to 64 under RTG |
| HintArith.RoundRTHGExample | freetype/truetype/hint_test.go:415-418 | 90 rounds to 96 under RTHG |
| HintArith.RoundDownToGridTowardZero | freetype/truetype/hint.go:725-728 | RDTG rounds toward zero to a multiple of 64 (90 gives 64) |
| HintArith.RoundRUTGExample | freetype/truetype/hint_test.go:423-426 | 90 rounds to 128 under RUTG |
| HintArith.RoundRTDGExample | freetype/truetype/hint_test.go:427-430 | 90 rounds to 96 under RTDG |
| HintArith.SroundPeriod | freetype/truetype/hint.go:680-692 | bits 6-7 give a period of 32, 64 or 128, or 22, 45 or 90 for S45ROUND |
| HintArith.SroundPhase | freetype/truetype/hint.go:693 | the phase is below the period |
| HintArith.SroundThreshold | freetype/truetype/hint.go:694-698 | the threshold lies between minus the period and twice the period |
| HintArith.SroundExample | freetype/truetype/hint_test.go:441-446 | SROUND 0x58 selects period 64, phase 16, threshold 32 |
| HintArith.SroundIsPow2Rounding | freetype/truetype/hint.go:678-698 | SROUND always yields a power-of-two rounding state, so RoundKeepsSign covers it |
| HintArith.S45roundIsCovered | freetype/truetype/hint.go:677-697 | S45ROUND always sets a period from 1 to 4096, a phase below it and a threshold between -period and 2 x period, as RoundKeepsSignAnyPeriod requires |
| HintState.GlobalDefaultValues | freetype/truetype/hint.go:83-96 | the global default graphics state: control value cut-in 17/16, RTG rounding, minimum distance 1, loop 1 |
| HintState.Write | freetype/truetype/hint.go:1024-1030 | writing through one point's reference changes that point only and no zone's length |
| HintState.PointLookup | freetype/truetype/hint.go:1024-1030 | a zone pointer other than 0 or 1 is an error; an index out of range is nil; otherwise the point at that zone, type and index |
| HintState.SetFlag | freetype/truetype/hint.go:1035 | the touched bit is set |
| HintState.SetBitAdds | freetype/truetype/hint.go:1035 | OR-ing in a clear bit is adding it |
| HintState.MovedPoint | freetype/truetype/hint.go:1032-1051 | with fv along y only y moves and is touched; with fv along x only x moves and is touched |
| HintState.Move | freetype/truetype/hint.go:1032-1051 | moving a point writes exactly the moved point; None exactly for a zero fv·pv |
| HintState.CvtAsWritten | freetype/truetype/hint.go:1015-1022 | cvt as written reads entry i when the int32-doubled index is inside the table (see Findings) |
| HintState.Cvt | freetype/truetype/hint.go:1015-1022 | the corrected cvt: entry i when the table holds it, 0 otherwise |
| HintState.CvtAgrees | freetype/truetype/hint.go:1015-1022 | on every entry the table holds both agree |
| HintState.CvtPastEndPanics | freetype/truetype/hint.go:1017 | with a one-entry table, index 1 passes the test and the read panics |
| HintState.CvtNegativeIndexWraps | freetype/truetype/hint.go:1016-1017 | index -0x7fff_ffff doubles to 2 and reads entry 1 |
| HintState.RoundGs | freetype/truetype/hint.go:1237-1241 | rounding with the graphics state; period 0 is off |
| HintSpec.VectorStep | freetype/truetype/hint.go:198-253 | the vector setters and getters keep the machine invariant: top within the stack, call depth at most 32, buffers and step count unchanged |
| HintSpec.StateStep | freetype/truetype/hint.go:254-273 | the graphics-state setters keep the machine invariant |
| HintSpec.StackStep | freetype/truetype/hint.go:310-343 | DUP, POP, CLEAR, SWAP, DEPTH, CINDEX, MINDEX, ROLL, WS, RS, MPPEM and GETINFO keep the machine invariant |
| HintSpec.FloorTo32 | freetype/truetype/hint.go:659-664 | x &^ 63 is the largest multiple of 64 not above x |
| HintSpec.UnaryStep | freetype/truetype/hint.go:651-670 | the one-operand arithmetic keeps the machine invariant |
| HintSpec.BinaryStep | freetype/truetype/hint.go:575-650 | comparisons, logic and two-operand arithmetic keep the machine invariant |
| HintSpec.IfElseEnd | freetype/truetype/hint.go:939-972 | a found end lies after pc and is an EIF, or an ELSE when coming from an IF |
| HintSpec.SkipBranch | freetype/truetype/hint.go:939-972 | skipping a branch keeps the machine invariant |
| HintSpec.FdefEnd | freetype/truetype/hint.go:365-388 | a found end lies after pc and is an ENDF |
| HintSpec.FlowStep | freetype/truetype/hint.go:289-297 | IF, ELSE, EIF, the jumps, FDEF and the calls keep the machine invariant |
| HintSpec.CallStep | freetype/truetype/hint.go:344-363 | a call keeps the machine invariant, the call depth within 32 |
| HintSpec.EndfStep | freetype/truetype/hint.go:390-401 | ENDF keeps the machine invariant |
| HintSpec.PushCount | freetype/truetype/hint.go:777-788 | PUSHB[n] and PUSHW[n] push 1 to 8 values |
| HintSpec.PushedValues | freetype/truetype/hint.go:1000-1009 | exactly count values are read |
| HintSpec.PushData | freetype/truetype/hint.go:979-1011 | the push block keeps the machine invariant |
| HintSpec.PushStep | freetype/truetype/hint.go:538-545 | the push opcodes keep the machine invariant |
| HintSpec.Lookup | freetype/truetype/hint.go:1024-1030 | h.point in the machine is PointLookup on its zone pointers and points |
| HintSpec.MoveIn | freetype/truetype/hint.go:1032-1051 | a move goes on exactly when Move succeeds, with the moved points; otherwise a panic |
| HintSpec.MoveThen | freetype/truetype/hint.go:1032-1051 | moving and going on keeps the machine invariant |
| HintSpec.MoveDirectAbsStep | freetype/truetype/hint.go:403-418 | MDAP keeps the machine invariant |
| HintSpec.MiapTwilight | freetype/truetype/hint.go:517-523 | the twilight placement keeps every point reference valid, and happens only when zp0 is the twilight zone |
| HintSpec.MiapStep | freetype/truetype/hint.go:514-536 | MIAP, reading the corrected cvt, keeps the machine invariant |
| HintSpec.MiapStepPops | freetype/truetype/hint.go:515-517 | MIAP pops the point and the cvt index; its distance is the corrected cvt entry (0 past the table), not the as-written read |
| HintSpec.MiapAt | freetype/truetype/hint.go:518-536 | MIAP after its pops keeps the machine invariant |
| HintSpec.MiapAnchor | freetype/truetype/hint.go:524-536 | the move and rp0/rp1 keep the machine invariant |
| HintSpec.MoveDirectRelStep | freetype/truetype/hint.go:790-857 | MDRP keeps the machine invariant |
| HintSpec.MoveDirectRelStepPops | freetype/truetype/hint.go:798-799 | MDRP pops its point and continues as MoveDirectRelAt |
| HintSpec.MoveDirectRelAt | freetype/truetype/hint.go:800-857 | MDRP after its pop keeps the machine invariant |
| HintSpec.MirpStep | freetype/truetype/hint.go:859-931 | MIRP keeps the machine invariant |
| HintSpec.MirpStepPops | freetype/truetype/hint.go:867-869 | MIRP pops the cvt index and its point and continues as MirpAt |
| HintSpec.MirpAt | freetype/truetype/hint.go:877-931 | MIRP after its pops keeps the machine invariant |
| HintSpec.LoopMove | freetype/truetype/hint.go:486-487 | a loop round changes only the points and counts gs.loop down by one, keeping every point reference valid |
| HintSpec.IpOne | freetype/truetype/hint.go:471-487 | one IP round pops a point and counts gs.loop down, program, pc and calls unchanged |
| HintSpec.IpOnePops | freetype/truetype/hint.go:472-473 | an IP round pops its point and continues as IpAt |
| HintSpec.IpAt | freetype/truetype/hint.go:474-487 | an IP round after its pop counts gs.loop down and keeps the references valid |
| HintSpec.IpLoop | freetype/truetype/hint.go:471-488 | IP's loop ends with gs.loop at 0 and program, pc and calls unchanged |
| HintSpec.IpSetup | freetype/truetype/hint.go:458-469 | IP's references are valid, read in the original form chosen by the zone pointers and in the current form |
| HintSpec.IpStep | freetype/truetype/hint.go:454-489 | IP keeps the machine invariant |
| HintSpec.AlignOne | freetype/truetype/hint.go:499-504 | one ALIGNRP round pops a point and counts gs.loop down |
| HintSpec.AlignOnePops | freetype/truetype/hint.go:500-501 | an ALIGNRP round pops its point and continues as AlignAt |
| HintSpec.AlignAt | freetype/truetype/hint.go:501-504 | an ALIGNRP round after its pop counts gs.loop down |
| HintSpec.AlignLoop | freetype/truetype/hint.go:499-505 | ALIGNRP's loop ends with gs.loop at 0 and program, pc and calls unchanged |
| HintSpec.AlignrpStep | freetype/truetype/hint.go:491-506 | ALIGNRP keeps the machine invariant |
| HintSpec.IupStep | freetype/truetype/hint.go:420-452 | IUP keeps the machine invariant |
| HintSpec.PointStep | freetype/truetype/hint.go:403-536 | the point instructions keep the machine invariant |
| HintSpec.Step | freetype/truetype/hint.go:190-196 | one instruction keeps the machine invariant |
| HintSpec.RunFrom | freetype/truetype/hint.go:185-935 | a finished run has pc outside the program and the buffers' lengths unchanged |
| HintSpec.Begin | freetype/truetype/hint.go:166-184 | run starts at pc 0 with an empty stack, no calls and the default graphics state |
| HintSpec.Run | freetype/truetype/hint.go:173-175 | a program over 50000 bytes fails with too many instructions; a finished run keeps the buffers' lengths |
| HintIup.WithCoord | freetype/truetype/hint.go:1103-1107 | only the chosen coordinate is set |
| HintIup.OnlyCoordChangedTrans | freetype/truetype/hint.go:1053-1175 | changing only one coordinate twice changes only that coordinate |
| HintIup.ShiftFromMoves | freetype/truetype/hint.go:1165-1174 | the shift loop fails exactly when its range leaves the points, and otherwise moves every point of [i, p2) but p by delta and no other |
| HintIup.IupShiftMoves | freetype/truetype/hint.go:1155-1175 | iupShift moves the points of [p1, p2) other than p by p's displacement, and leaves every other point alone |
| HintIup.RefsOf | freetype/truetype/hint.go:1057-1086 | the references are ordered by font-unit coordinate |
| HintIup.SameFromFrame | freetype/truetype/hint.go:1089-1110 | with equal font-unit references only the chosen coordinate of [i, p2] changes |
| HintIup.InterpFromFrame | freetype/truetype/hint.go:1112-1152 | with distinct references only the chosen coordinate of [i, p2] changes |
| HintIup.IupInterpFrame | freetype/truetype/hint.go:1053-1153 | iupInterp changes only the chosen coordinate, and only for points in [p1, p2] |
| HintIup.InterpolatedOutside | freetype/truetype/hint.go:1122-1125 | a point below the lower reference moves with it and one above the upper reference moves with that one |
| HintIup.InterpolatedAtLowerReference | freetype/truetype/hint.go:1126-1144 | a point at the lower reference's font-unit coordinate lands on the lower reference's hinted position |
| HintIup.FirstTouched | freetype/truetype/hint.go:426-431 | the found point lies in [i, end) and has the touched bit |
| HintIup.ShiftIsCoordStep | freetype/truetype/hint.go:441-442 | the shift keeps the other coordinate, the flags, the point count and the unhinted and font-unit points |
| HintIup.InterpRunsStep | freetype/truetype/hint.go:434-439 | the walk between touched points does the same |
| HintIup.CloseContourStep | freetype/truetype/hint.go:441-448 | closing a contour does the same |
| HintIup.IupContourStep | freetype/truetype/hint.go:425-449 | one contour does the same |
| HintIup.IupKeepsOtherAxis | freetype/truetype/hint.go:420-452 | IUP[y] keeps every point's other coordinate and flags, the point count, and the unhinted and font-unit points |
| HintInit.TwilightReset | freetype/truetype/hint.go:98-107 | maxTwilightPoints + 4 points in each of the three forms |
| HintInit.CapacitiesRoundUp | freetype/truetype/hint.go:125-134 | the buffer sizes round up to the next multiple of 256 and 16 |
| HintInit.RunOn | freetype/truetype/hint.go:166-175 | a run keeps the buffers' sizes, the font, the scale and the default state; a program over 50000 bytes is refused |
| HintInit.InitFont | freetype/truetype/hint.go:110-140 | after the first half the Hinter holds f at the old scale; the same font only resets the twilight zone |
| HintInit.InitScale | freetype/truetype/hint.go:142-162 | the second half sets the scale when it runs and changes nothing otherwise |
| HintInit.InitHoldsFontAndScale | freetype/truetype/hint.go:110-164 | after init the Hinter holds f at the requested scale |
| HintInit.InitCapacity | freetype/truetype/hint.go:125-134 | a new font's buffers hold its maxp limits, grown ones rounded up |
| HintInit.InitDefaultGS | freetype/truetype/hint.go:145-161 | after a new font or scale the default state's vectors, reference points, zone pointers and loop are the global defaults |
| HintInit.InitSameFontAndScale | freetype/truetype/hint.go:110-164 | the same font at the same scale only resets the twilight zone |
| HintInit.InitNoFpgmNoFunctions | freetype/truetype/hint.go:116-139 | a new font without programs ends with no function definitions |
| HintRun.Hinter.constructor | freetype/truetype/hint.go:39-61 | the zero Hinter: empty buffers, no functions, no font, zero graphics state |
| HintRun.Hinter.ExecVector | freetype/truetype/hint.go:198-253 | the Hinter and run's locals end where HintSpec.VectorStep says |
| HintRun.Hinter.ExecState | freetype/truetype/hint.go:254-273 | they end where HintSpec.StateStep says |
| HintRun.Hinter.ExecMode | freetype/truetype/hint.go:715-729 | only the graphics state changes, as the rounding-mode, flip and no-op instructions set it |
| HintRun.Hinter.ExecUnary | freetype/truetype/hint.go:651-670 | they end where HintSpec.UnaryStep says |
| HintRun.Hinter.ExecBinary | freetype/truetype/hint.go:575-650 | they end where HintSpec.BinaryStep says |
| HintRun.Hinter.MindexShift | freetype/truetype/hint.go:339-341 | the stack becomes HintSpec.Mindexed of the old one: the chosen element on top, the ones above it moved down |
| HintRun.Hinter.ExecIndex | freetype/truetype/hint.go:333-342 | CINDEX and MINDEX end where HintSpec.StackStep says |
| HintRun.Hinter.ExecStore | freetype/truetype/hint.go:546-560 | WS and RS end where HintSpec.StackStep says |
| HintRun.Hinter.ExecStack | freetype/truetype/hint.go:310-343 | the stack instructions end where HintSpec.StackStep says |
| HintRun.Hinter.SkipIfElse | freetype/truetype/hint.go:939-972 | the ifelse loop finds exactly HintSpec.IfElseEnd |
| HintRun.Hinter.ScanFdef | freetype/truetype/hint.go:365-388 | FDEF's loop finds exactly HintSpec.FdefEnd |
| HintRun.Hinter.ExecCall | freetype/truetype/hint.go:344-363 | they end where HintSpec.CallStep says |
| HintRun.Hinter.ExecEndf | freetype/truetype/hint.go:390-401 | they end where HintSpec.EndfStep says |
| HintRun.Hinter.ExecIf | freetype/truetype/hint.go:603-609 | IF and ELSE end where HintSpec.FlowStep says |
| HintRun.Hinter.ExecJump | freetype/truetype/hint.go:701-713 | the jumps end where HintSpec.FlowStep says |
| HintRun.Hinter.ExecFdef | freetype/truetype/hint.go:365-388 | FDEF ends where HintSpec.FlowStep says |
| HintRun.Hinter.ExecFlow | freetype/truetype/hint.go:289-297 | the flow instructions end where HintSpec.FlowStep says |
| HintRun.Hinter.PushValues | freetype/truetype/hint.go:979-1011 | the push block ends where HintSpec.PushData says |
| HintRun.Hinter.WriteValues | freetype/truetype/hint.go:1000-1009 | the stack from top holds the pushed values and nothing else changes |
| HintRun.Hinter.ExecPush | freetype/truetype/hint.go:538-545 | the push opcodes end where HintSpec.PushStep says |
| HintRun.Hinter.MovePoint | freetype/truetype/hint.go:1032-1051 | ok exactly when HintState.Move succeeds, and then the points are its result |
| HintRun.Hinter.ExecMdap | freetype/truetype/hint.go:403-418 | they end where HintSpec.MoveDirectAbsStep says |
| HintRun.Hinter.PlaceTwilight | freetype/truetype/hint.go:517-523 | ok exactly when HintSpec.MiapTwilight succeeds, and then the points are its result |
| HintRun.Hinter.ExecMiap | freetype/truetype/hint.go:514-536 | they end where HintSpec.MiapStep says, with its corrected cvt read |
| HintRun.Hinter.MiapPopped | freetype/truetype/hint.go:518-536 | they end where HintSpec.MiapAt says |
| HintRun.Hinter.AnchorPoint | freetype/truetype/hint.go:524-536 | they end where HintSpec.MiapAnchor says |
| HintRun.Hinter.ExecMdrp | freetype/truetype/hint.go:790-857 | they end where HintSpec.MoveDirectRelStep says |
| HintRun.Hinter.MoveDirectRelPopped | freetype/truetype/hint.go:800-857 | they end where HintSpec.MoveDirectRelAt says |
| HintRun.Hinter.MoveRelative | freetype/truetype/hint.go:846-857 | the reference points are set from bit 0x10 and the point moves, as HintSpec.MoveThen says |
| HintRun.Hinter.ExecMirp | freetype/truetype/hint.go:859-931 | they end where HintSpec.MirpStep says |
| HintRun.Hinter.MirpPopped | freetype/truetype/hint.go:877-931 | they end where HintSpec.MirpAt says |
| HintRun.Hinter.ExecIp | freetype/truetype/hint.go:454-489 | they end where HintSpec.IpStep says |
| HintRun.Hinter.IpLoopRun | freetype/truetype/hint.go:471-488 | they end where HintSpec.IpLoop says |
| HintRun.Hinter.IpPoint | freetype/truetype/hint.go:471-487 | they end where HintSpec.IpOne says |
| HintRun.Hinter.IpPointAt | freetype/truetype/hint.go:474-487 | they end where HintSpec.IpAt says |
| HintRun.Hinter.ExecAlignrp | freetype/truetype/hint.go:491-506 | they end where HintSpec.AlignrpStep says |
| HintRun.Hinter.AlignLoopRun | freetype/truetype/hint.go:499-505 | they end where HintSpec.AlignLoop says |
| HintRun.Hinter.AlignPoint | freetype/truetype/hint.go:499-504 | they end where HintSpec.AlignOne says |
| HintRun.Hinter.AlignPointAt | freetype/truetype/hint.go:501-504 | they end where HintSpec.AlignAt says |
| HintRun.Hinter.MoveCountDown | freetype/truetype/hint.go:486-487 | they end where HintSpec.LoopMove says |
| HintRun.Hinter.ExecPoint | freetype/truetype/hint.go:403-536 | they end where HintSpec.PointStep says |
| HintRun.Hinter.ExecStep | freetype/truetype/hint.go:190-934 | one instruction ends where HintSpec.Step says |
| HintRun.Hinter.Run | freetype/truetype/hint.go:166-1012 | the error and the new state are those of HintInit.RunOn |
| HintRun.Hinter.RunLoop | freetype/truetype/hint.go:183-937 | the loop ends as HintSpec.RunFrom says: its error, or the finished machine |
| HintRun.Hinter.RunStep | freetype/truetype/hint.go:184-937 | an iteration fails at the step limit, and otherwise ends where HintSpec.Step says |
| HintRun.Hinter.RunIteration | freetype/truetype/hint.go:184-937 | after an iteration the rest of the run is the same as before it, or the run fails with the iteration's error |
| HintRun.Hinter.Init | freetype/truetype/hint.go:110-164 | the error and the new state are those of HintInit.InitSpec |
| HintRun.Hinter.LoadFont | freetype/truetype/hint.go:111-140 | the error and the new state are those of HintInit.InitFont |
| HintRun.Hinter.Load | freetype/truetype/hint.go:116-134 | the new state is HintInit.LoadFont's, with fresh buffers only where they grew |
| HintRun.Hinter.Rescale | freetype/truetype/hint.go:142-162 | the error and the new state are those of HintInit.InitScale |
| HintRun.Hinter.ExecIup | freetype/truetype/hint.go:420-452 | they end where HintSpec.IupStep says |
| HintRun.Hinter.IupContour | freetype/truetype/hint.go:425-449 | ok exactly when HintIup.IupContour succeeds, and then the glyph zone is its result |
| HintRun.Hinter.ScanTouched | freetype/truetype/hint.go:426-431 | the scan finds exactly HintIup.FirstTouched |
| HintRun.Hinter.WalkRuns | freetype/truetype/hint.go:432-439 | ok exactly when HintIup.InterpRuns walks to the end, and then the glyph zone and the last touched point are its result |
| HintRun.Hinter.CloseContour | freetype/truetype/hint.go:440-448 | ok exactly when HintIup.CloseContour succeeds, and then the glyph zone is its result |
| HintRun.Hinter.IupShift | freetype/truetype/hint.go:1155-1175 | ok exactly when HintIup.IupShift succeeds, and then the current points are its result |
| HintRun.Hinter.IupInterp | freetype/truetype/hint.go:1053-1153 | ok exactly when HintIup.IupInterp succeeds, and then the current points are its result |
| HintRun.Hinter.InterpSame | freetype/truetype/hint.go:1089-1110 | the loop gives exactly HintIup.SameFrom |
| HintRun.Hinter.InterpPoint | freetype/truetype/hint.go:1114-1145 | one point's value is HintIup.Interpolated, the cached scale once computed being InterpScale |
| HintRun.Hinter.InterpScaled | freetype/truetype/hint.go:1112-1152 | the loop gives exactly HintIup.InterpFrom |
| HintProps.StepChecksPopCount | freetype/truetype/hint.go:190-196 | an opcode without a pop count is unimplemented and a stack with fewer values is an underflow, before the instruction runs |
| HintProps.Int16Unique | freetype/truetype/hint.go:1004 | an int16 congruent to x modulo 2^16 is int16(x) |
| HintProps.PushedValuesExtend | freetype/truetype/hint.go:1000-1009 | PUSHB values are zero-extended bytes and PUSHW values sign-extended big-endian words |
| HintProps.PushSemantics | freetype/truetype/hint.go:979-1011 | a stack overflow when the stack cannot take the values, then insufficient data when the program ends inside the payload; otherwise the values above the old ones, nothing else changed, pc past the payload |
| HintProps.NpushNeedsCount | freetype/truetype/hint.go:985-991 | NPUSHB and NPUSHW at the end of the program are insufficient data |
| HintProps.MindexedPermutes | freetype/truetype/hint.go:338-341 | MINDEX moves the chosen element to the top, keeps the others' order, and permutes the stack |
| HintProps.IndexRange | freetype/truetype/hint.go:334-337 | CINDEX and MINDEX refuse an index outside 0 < x < top |
| HintProps.CindexCopies | freetype/truetype/hint.go:333-338 | CINDEX replaces the index by a copy of the x-th element below it |
| HintProps.MindexMoves | freetype/truetype/hint.go:333-342 | MINDEX pops the index and moves the x-th element below it to the top |
| HintProps.RollSemantics | freetype/truetype/hint.go:757-759 | ROLL rotates the top three elements |
| HintProps.CallSemantics | freetype/truetype/hint.go:344-363 | call depth 32 and an undefined function fail; otherwise CALL, and LOOPCALL with a non-zero count, pop their operands and run the function from its start with one more frame that returns to the call and repeats it count times |
| HintProps.FdefSemantics | freetype/truetype/hint.go:365-388 | FDEF fails as nested exactly when the scan meets another FDEF and as unbalanced exactly when it runs off the program; otherwise it pops the function number, which must be there, and stores the body from after FDEF through the ENDF under it, going on after the ENDF |
| HintProps.LoopcallZero | freetype/truetype/hint.go:355-359 | LOOPCALL with count 0 calls nothing and goes on |
| HintProps.EndfSemantics | freetype/truetype/hint.go:390-401 | ENDF without a call fails; otherwise the loop count goes down by one, wrapping as an int32; the body reruns from its start while the new count is non-zero, and the call returns after the CALL or LOOPCALL when it is zero; a count of 2 or more goes down by exactly one, and a negative count always reruns |
| HintProps.DivSemantics | freetype/truetype/hint.go:640-645 | DIV by zero fails; otherwise the two top elements become their 26.6 quotient |
| HintProps.FloorCeiling | freetype/truetype/hint.go:659-664 | FLOOR gives the largest multiple of 64 not above x and CEILING the smallest not below it |
| HintProps.UnderflowProgram | freetype/truetype/hint_test.go:21-28 | DUP on an empty stack fails with a stack underflow |
| HintProps.UnbalancedPushStep | freetype/truetype/hint_test.go:41-50 | the first step of the unbalanced program pushes 0 |
| HintProps.UnbalancedIfStep | freetype/truetype/hint_test.go:41-50 | its false IF finds no ELSE or EIF |
| HintProps.UnbalancedIfProgram | freetype/truetype/hint_test.go:41-50 | the run fails as unbalanced |
| HintProps.LoopPushStep | freetype/truetype/hint_test.go:29-40 | PUSHW[0] 0xff 0xff pushes -1 |
| HintProps.LoopDupStep | freetype/truetype/hint_test.go:29-40 | DUP copies the -1 |
| HintProps.LoopJumpStep | freetype/truetype/hint_test.go:29-40 | JMPR pops the -1 and goes back to the DUP |
| HintSpec.RunFromUnfold | freetype/truetype/hint.go:185-196 | a run not yet ended takes one step and continues from its outcome |
| HintSpec.RunGoesOn | freetype/truetype/hint.go:185-196 | a step that goes on leaves the rest of the run to the next machine |
| HintProps.LoopRunsOut | freetype/truetype/hint.go:186-189 | from the DUP of the loop every run ends at the step limit |
| HintProps.InfiniteLoopProgram | freetype/truetype/hint_test.go:29-40 | the infinite loop ends with too many steps |
| HintProps.NestedIfSkipsData | freetype/truetype/hint_test.go:274-313 | a false IF skips push data that reads as IF opcodes |
| HintProps.NestedElseSkipsNested | freetype/truetype/hint_test.go:274-313 | an ELSE skips a nested IF/ELSE/EIF and the NPUSHB and NPUSHW data inside it |
| HintProps.IfElseNests | freetype/truetype/hint.go:939-972 | searching at depth d + 1 is searching at depth 0 for the end of the inner block, then going on from there at depth d |
| HintProps.NestedBlockSkipped | freetype/truetype/hint.go:939-972 | an IF/ELSE/EIF block nested right after pc is skipped whole: the search goes on from its EIF, so no ELSE or EIF inside it is ever returned |
| HintProps.NestedFdefPushStep | freetype/truetype/hint.go:979-1011 | the first step of the nested FDEF program pushes the function number 0 |
| HintProps.NestedFdefStep | freetype/truetype/hint.go:365-376 | its FDEF meets a second FDEF before any ENDF and fails as nested |
| HintProps.NestedFdefProgramFails | freetype/truetype/hint.go:365-376 | the whole run of the nested FDEF program fails as nested |

## Left out

- The opcode numbers and hint.go's `popCount` table are not part of this model. The opcode numbers are those of the TrueType instruction set. `popCount` is a parameter of the interpreter's environment, so "unimplemented instruction" and "stack underflow" are stated for any table.
- `Font.scale`, `unscaledHMetric` and `unscaledVMetric` are not part of this model. They are function parameters: the fields of `TrueTypeGlyph.GlyphFont` and `HintInit.HintFont`. glyph.go's `u16` and `u32` are the big-endian reads of `Ints`.
- After a Go panic, the state of a GlyphBuf or Hinter is not specified. Go abandons the call, so the model only says that the outcome is `Panic`.
- The glyph.go path with a Hinter is not modelled: init, running the glyph and compound programs, the Unhinted and InFontUnits copies, and rounding the first phantom point to the grid. `TrueTypeGlyph.GlyphBuf` loads without a Hinter. The Hinter itself is modelled on its own in the Hint modules. Aliasing the GlyphBuf's slices with the slices run receives would need a shared-array footprint that the model does not have.
- Aliasing between slices is not modelled. GlyphBuf and the Hinter hold sequences, so writes through another slice of the same backing array are not represented.
- `HintInit.NewFont` compares fonts by an identity number, which stands for Go's pointer comparison `h.font != f`.
- TrueTypeOutline.GlyphData (and `TrueTypeOutline.LocateGlyph`, which TrueTypeGlyph's loader also goes through): glyf[g0:g1] is bounded by the glyf table's length. In Go the reslice at truetype.go:586 and glyph.go:117 is bounded by the slice's capacity. readTable returns ttf[offset:end] (truetype.go:94), whose capacity runs to the end of the font data. So a loca entry with len(glyf) < g1 <= cap(glyf) makes Go decode bytes of the tables that follow glyf, where the model reports `OutOfRange`. A table's capacity would mean carrying the rest of the font file with every table, which the model does not do.
- TrueTypeOutline.GlyphBuf.AppendPoints (and `TrueTypeOutline.GlyphBuf.AppendEnds`): both grow their buffer with the corrected `TrueTypeOutline.Resized`, which keeps every element already held. truetype.go:602-606 and 615-619 instead `make` a fresh slice once the new length passes the capacity, which zeroes the points and ends that earlier compound components loaded (`TrueTypeOutline.ResizeDropsLoadedPoints`). The members built on them inherit the corrected growth: `TrueTypeOutline.GlyphBuf.LoadSimple`, `LoadCompound`, `LoadGlyph` and `Load`, and the lemmas `TrueTypeOutline.LoadAppends` and `CompoundAppends`. So for a compound whose later component outgrows the capacity, the model keeps the earlier components' points where Go loses them.
- TrueTypeGlyph.SimpleSpec: the simple-glyph decoder is the corrected one on two counts. The point count is np0 plus the last new end, where glyph.go:197-198 reads the buffer's last End, which for a glyph with no contours is the previous glyph's end or a panic (`TrueTypeGlyph.ZeroContoursAsWritten`). The flags are expanded with the bounded `TrueTypeOutline.ExpandFlags`, so a repeat run past the last point is out of range, where glyph.go:201-214 appends the whole run and goes on (`TrueTypeGlyph.RepeatRunOvershoots`: flags [0x09, 0x02] for one point). Every member that decodes a simple glyph inherits both: `TrueTypeGlyph.SimpleLoaded`, `TrueTypeGlyph.GlyphBuf.DecodePoints`, `DecodeSimple`, `LoadSimple`, `LoadGlyph`, `LoadCompoundGlyph`, `LoadCompound` and `Load`, and the lemmas `TrueTypeGlyph.LoadAppends`, `CompoundAppends` and `SimpleGlyphAppends`.
- Face.NewQuantization: the vertical quantization uses the corrected `Face.SubPixelsY`, which reads the SubPixelsY option. NewFace (face.go:141) calls the as-written subPixelsY, which reads SubPixelsX (`Face.SubPixelsYAsWritten`), so SubPixelsX 4 and SubPixelsY 8 give 4 vertical positions in Go and 8 in the model.
- FreeTypeContext.Context.DrawString takes the string as a sequence of already-decoded runes. Go's `for _, rune := range s` (freetype.go:222) decodes UTF-8 and turns each invalid byte into U+FFFD; that decoding is not modelled.
- HintSpec.MiapStep: MIAP (and `HintSpec.MiapStepPops`, `HintRun.Hinter.ExecMiap`) reads the corrected `HintState.Cvt`, as the rest of the model does. So a cvt index at the table's end gives distance 0 where hint.go:517 panics, and -0x7fff_ffff gives 0 where hint.go reads entry 1. The same holds for MIRP's cvt read at hint.go:870, which can panic in hint.go but not in the model. The as-written read and both discrepancies are in the cvt rows of "## Findings".
- `HintSpec.MirpAt` does not model the cvt distance MIRP reads, its single-width cut-in or its auto-flip. hint.go never uses that value after computing it. A cvt read that would panic is covered by the cvt finding.
- `HintRun.Hinter.Run` requires a font to be set (`font.Some?`). hint.go dereferences `h.font` only in the instructions that read the cvt or scale, so a run without a font would panic there.
- Floating point is not modelled:
  - `Point.Len` and `Point.Norm`, and therefore the geometry of `stroke`;
  - `SetGamma` (the gamma table is given);
  - `recalc`'s scale (freetype.go:247) is computed on exact reals and then truncated (`FreeTypeContext.ScaleOf`), with no float64 rounding of the product or the quotient; `PointToFix32` is not modelled;
  - `NewFace`'s scale and bounds;
  - text2svg's `p2svg`.
- The rasterizer itself, `draw.DrawMask` and image allocation are not modelled. The Adder is an abstract log of Start, Add1 and Add2 calls. Images are two-dimensional arrays.
- `FreeTypeContext.Context.Glyph` takes Context.rasterize (freetype.go:152-184) as a parameter: loading the glyph, sizing its mask and drawing it. The same goes for the font's Index, Kerning and HMetric in DrawString. DrawString's mask drawing onto the destination image is left out.
- `Path.String` (fmt formatting of every segment), `AddStroke` and `stroke` are not modelled. Their geometry is floating point; Stroke's split into single-curve subpaths is modelled.
- Trivial or image-only members are not modelled: `ParseFont`, `Pt`, `SetDst`, `SetSrc`, `SetClip`, `Font.Bounds`, `Font.UnitsPerEm`, `face.Close`, `face.GlyphAdvance`, and the painters' `New*` constructors beyond their fields.
- Go's `&^` on a non-negative value is modelled as subtracting the remainder. Go's `&` with a negative power of two goes through `HintArith.AndNegPow2`.
- HintArith.RoundKeepsSign: the negative half is promised only for inputs other than -2^31 whose shifted magnitude -x - phase + threshold fits in an int32, because outside that range round can lose the sign: RoundHalfGridAtMinimum shows that -2^31 under RTHG rounds to 2^31 - 32. For periods that are not powers of two (S45ROUND), RoundKeepsSignAnyPeriod states only the sign, and only while x + threshold (or -x + threshold) fits in an int32. The grid property is not stated for those periods, because the AND with -period is then not a floor.
- `HintArith.Round` follows hint.go. The super-rounding case of hint_test.go expects different results from hint.go's `round`. For example, -81 under SROUND 0x58 gives -80 by hint.go's arithmetic, but the test expects -112. The test file comes from another revision.
- hint_test.go calls `init` and `run` with other arities than hint.go. Its programs are stated about `HintSpec`: whole runs for the error cases, and instruction by instruction for the stack results.

## Findings

| source | as written | input that shows it | evidently intended | confidence | as-written member | corrected member |
|---|---|---|---|---|---|---|
| freetype/raster/geom.go:18-24 | the quotient and remainder are truncated toward zero and the remainder's sign dropped, so every value strictly between -1 and 0 prints like its magnitude | Fixed(-64) prints "0:064", like Fixed(64) | a sign for negative values, so that the text reads back as the number | not executed | RasterGeom.FixedStringDropsSign | RasterGeom.FixedStringSignedRoundTrip |
| freetype/raster/geom.go:215-227 | the scan's switch has no default case, so a tag outside 0..3 leaves j unchanged | path [0, 0, 0, 7] loops forever at j = 3 | a panic on a bad tag, as for a bad first tag | not executed | RasterGeom.StrokeScanStalls | RasterGeom.StrokeSplitPath |
| truetype/face.go:96-108 | subPixelsY switches on the SubPixelsX field | SubPixelsX 4 and SubPixelsY 8 quantize Y to 4 positions | the SubPixelsY field, falling back to 1 | not executed | Face.SubPixelsYIgnoresItsField | Face.SubPixelsY |
| freetype/truetype/truetype.go:600-619 | End and Point are reallocated with make when the new length passes the capacity, which zeroes what earlier compound components loaded | a compound whose second component needs more points than the buffer's capacity | growing while keeping the elements already held | not executed | TrueTypeOutline.ResizeDropsLoadedPoints | TrueTypeOutline.Resized |
| freetype/truetype/glyph.go:197-198 | the new point count is np0 plus the buffer's last End, which for a glyph with no contours is the previous glyph's absolute end (or a panic on an empty buffer) | a zero-contour glyph after a glyph with End [3] decodes 3 spurious points | np0 plus the last new relative end, or np0 with no contours | not executed | TrueTypeGlyph.ZeroContoursAsWritten | TrueTypeGlyph.SimpleGlyphAppends |
| freetype/truetype/glyph.go:201-214 | a repeated flag appends its whole run even past the point count | one point whose flag 0x09 repeats 2 more times gives 3 flags | a run past the last point is malformed, as in truetype.go's decoder | not executed | TrueTypeGlyph.RepeatRunOvershoots | TrueTypeOutline.ExpandFlags |
| freetype/truetype/hint.go:1015-1022 | the bound test is len < i instead of len < i + 2, so an index at the end of the table passes, and the read then panics | a one-entry cvt and index 1 | entry i when the table holds it, 0 otherwise | not executed | HintState.CvtPastEndPanics | HintState.CvtAgrees |
| freetype/truetype/hint.go:1016-1017 | the index is doubled in int32 before the test, so a large negative index wraps to a small positive one | index -0x7fff_ffff reads entry 1 | 0 for every negative index | not executed | HintState.CvtNegativeIndexWraps | HintState.Cvt |
