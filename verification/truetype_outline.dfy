/**
 * Model of the glyph half of freetype/truetype/truetype.go: GlyphBuf, which
 * loads a glyph's contours from the glyf table. A simple glyph stores its
 * contour end points, its hinting instructions (skipped), run-length
 * encoded flags and delta-encoded coordinates; a compound glyph lists
 * components, each another glyph moved by an offset.
 */
module TrueTypeOutline {
  import opened Ints
  import opened TrueTypeFont

  /** A point of a contour; bit 0 of flags says whether it is on the curve. */
  datatype Point = Point(x: int16, y: int16, flags: byte)

  const ZeroPoint: Point := Point(0, 0, 0)

  // Flags of a simple glyph's points.
  const FlagOnCurve: nat := 0x01
  const FlagXShortVector: nat := 0x02
  const FlagYShortVector: nat := 0x04
  const FlagRepeat: nat := 0x08
  const FlagPositiveXShortVector: nat := 0x10  // also "this X is same" when the X short bit is clear
  const FlagPositiveYShortVector: nat := 0x20  // also "this Y is same" when the Y short bit is clear

  // Flags of a compound glyph's components.
  const FlagArg1And2AreWords: nat := 0x0001
  const FlagArgsAreXYValues: nat := 0x0002
  const FlagWeHaveAScale: nat := 0x0008
  const FlagMoreComponents: nat := 0x0020
  const FlagWeHaveAnXAndYScale: nat := 0x0040
  const FlagWeHaveATwoByTwo: nat := 0x0080
  const FlagUseMyMetrics: nat := 0x0200

  // ---------------------------------------------------------------------------
  // Growing the point and end buffers
  // ---------------------------------------------------------------------------

  /** A Go slice: its elements and its capacity. */
  datatype Slice<T> = Slice(elems: seq<T>, cap: nat)

  /**
   * The resize of load as written: s[0:n] when n fits in the capacity
   * (elements past the old length are overwritten before they are read, so
   * they are shown as zero), and otherwise make([]T, n, 2n), a fresh slice
   * of zeros that does not carry over what s held.
   */
  function ResizedAsWritten<T>(s: Slice<T>, n: nat, zero: T): (r: Slice<T>)
    ensures |r.elems| == n
  {
    if n <= s.cap then
      Slice(if n <= |s.elems| then s.elems[..n] else s.elems + seq(n - |s.elems|, _ => zero), s.cap)
    else Slice(seq(n, _ => zero), 2 * n)
  }

  /** Growing past the capacity loses every element already in the slice. */
  lemma ResizeAsWrittenForgets<T>(s: Slice<T>, n: nat, zero: T)
    requires n > s.cap && n >= |s.elems|
    ensures forall k :: 0 <= k < |s.elems| ==> ResizedAsWritten(s, n, zero).elems[k] == zero
  {
  }

  /**
   * The points a compound glyph's first component loaded are wiped when
   * the second one needs more room than the buffer has.
   */
  lemma ResizeDropsLoadedPoints()
    ensures var loaded := Slice([Point(5, 7, 1)], 1);
      ResizedAsWritten(loaded, 2, ZeroPoint).elems[0] == ZeroPoint != loaded.elems[0]
  {
  }

  /** The resize load needs: length n, keeping what the buffer held below n; new elements are zero. */
  function Resized<T>(s: seq<T>, n: nat, zero: T): (r: seq<T>)
    ensures |r| == n
    ensures forall k :: 0 <= k < n && k < |s| ==> r[k] == s[k]
    ensures forall k :: |s| <= k < n ==> r[k] == zero
  {
    if n <= |s| then s[..n] else s + seq(n - |s|, _ => zero)
  }

  // ---------------------------------------------------------------------------
  // Flags
  // ---------------------------------------------------------------------------

  /** Decoded flags and the data after them, or a read past the data or past the points. */
  datatype FlagRun = FlagRun(flags: seq<byte>, rest: seq<byte>) | FlagPanic

  function PrependFlags(f: seq<byte>, r: FlagRun): FlagRun
  {
    match r
    case FlagPanic => FlagPanic
    case FlagRun(g, rest) => FlagRun(f + g, rest)
  }

  /**
   * The flags of n points: each flag byte with the repeat bit is followed
   * by a count, and then stands for count+1 consecutive points.
   */
  function ExpandFlags(d: seq<byte>, n: nat): (r: FlagRun)
    ensures r.FlagRun? ==> |r.flags| == n
    decreases n
  {
    if n == 0 then FlagRun([], d)
    else if |d| < 1 then FlagPanic
    else
      var c := d[0];
      if !HasBit(c, FlagRepeat) then PrependFlags([c], ExpandFlags(d[1..], n - 1))
      else if |d| < 2 then FlagPanic
      else
        var count := d[1];
        if count > n - 1 then FlagPanic
        else PrependFlags(seq(count + 1, _ => c), ExpandFlags(d[2..], n - 1 - count))
  }

  /** A flag with the repeat bit and count k sets the next k+1 points to that flag, consuming two bytes. */
  lemma RepeatedFlag(d: seq<byte>, n: nat)
    requires n > 0 && |d| >= 2 && HasBit(d[0], FlagRepeat) && d[1] <= n - 1
    requires ExpandFlags(d, n).FlagRun?
    ensures ExpandFlags(d, n).flags[..d[1] + 1] == seq(d[1] + 1, _ => d[0])
    ensures ExpandFlags(d, n) == PrependFlags(seq(d[1] + 1, _ => d[0]), ExpandFlags(d[2..], n - 1 - d[1]))
  {
    var tail := ExpandFlags(d[2..], n - 1 - d[1]);
    assert ExpandFlags(d, n) == PrependFlags(seq(d[1] + 1, _ => d[0]), tail);
  }

  /** A repeat count that runs past the last point is a read out of bounds. */
  lemma RepeatPastEnd(d: seq<byte>, n: nat)
    requires n > 0 && |d| >= 2 && HasBit(d[0], FlagRepeat) && d[1] > n - 1
    ensures ExpandFlags(d, n) == FlagPanic
  {
  }

  lemma PrependFlagsAssoc(a: seq<byte>, b: seq<byte>, r: FlagRun)
    ensures PrependFlags(a, PrependFlags(b, r)) == PrependFlags(a + b, r)
  {
    if r.FlagRun? {
      assert a + (b + r.flags) == (a + b) + r.flags;
    }
  }

  // ---------------------------------------------------------------------------
  // Coordinates
  // ---------------------------------------------------------------------------

  /** Per-point coordinate deltas and the data after them, or a read past the data. */
  datatype DeltaRun = DeltaRun(deltas: seq<int>, rest: seq<byte>) | DeltaPanic

  function PrependDelta(x: int, r: DeltaRun): DeltaRun
  {
    match r
    case DeltaPanic => DeltaPanic
    case DeltaRun(ds, rest) => DeltaRun([x] + ds, rest)
  }

  /** One point's delta on one axis and the data after it, or a read past the data. */
  datatype DeltaStep = DeltaStep(delta: int, rest: seq<byte>) | StepPanic

  /**
   * A short vector is one unsigned byte whose sign is the positive bit;
   * without the short bit, the same bit means a zero delta that reads
   * nothing, and otherwise a signed 16-bit word follows.
   */
  function StepDelta(f: byte, d: seq<byte>, short: nat, same: nat): (r: DeltaStep)
    requires short > 0 && same > 0
    ensures r.DeltaStep? ==> -0x8000 <= r.delta < 0x8000 && |r.rest| <= |d|
  {
    if HasBit(f, short) then
      if |d| < 1 then StepPanic
      else DeltaStep(if HasBit(f, same) then d[0] as int else -(d[0] as int), d[1..])
    else if HasBit(f, same) then DeltaStep(0, d)
    else if |d| < 2 then StepPanic
    else DeltaStep(Int16(BE16(d, 0)), d[2..])
  }

  /** The deltas of one axis, point by point. */
  function AxisDeltas(flags: seq<byte>, d: seq<byte>, short: nat, same: nat): (r: DeltaRun)
    requires short > 0 && same > 0
    ensures r.DeltaRun? ==> |r.deltas| == |flags|
    decreases |flags|
  {
    if flags == [] then DeltaRun([], d)
    else
      match StepDelta(flags[0], d, short, same)
      case StepPanic => DeltaPanic
      case DeltaStep(x, rest) => PrependDelta(x, AxisDeltas(flags[1..], rest, short, same))
  }

  /** The coordinates after each delta, starting from x, each sum wrapping to int16. */
  function Running(x: int, deltas: seq<int>): (r: seq<int16>)
    ensures |r| == |deltas|
    decreases |deltas|
  {
    if deltas == [] then []
    else
      var y := Int16(x + deltas[0]);
      [y] + Running(y, deltas[1..])
  }

  function Sum(s: seq<int>): int
    decreases |s|
  {
    if s == [] then 0 else Sum(s[..|s| - 1]) + s[|s| - 1]
  }

  lemma RunningAppend(x: int, ds: seq<int>, e: int)
    ensures Running(x, ds + [e]) == Running(x, ds) + [Int16((if ds == [] then x else Running(x, ds)[|ds| - 1]) + e)]
    decreases |ds|
  {
    if ds != [] {
      assert (ds + [e])[1..] == ds[1..] + [e];
      RunningAppend(Int16(x + ds[0]), ds[1..], e);
    }
  }

  /** Each coordinate is the wrapped sum of all deltas up to and including its own. */
  lemma {:induction false} RunningIsWrappedSum(ds: seq<int>, k: nat)
    requires k < |ds|
    ensures Running(0, ds)[k] == Int16(Sum(ds[..k + 1]))
    decreases |ds|
  {
    var init := ds[..|ds| - 1];
    var e := ds[|ds| - 1];
    assert ds == init + [e];
    RunningAppend(0, init, e);
    if k < |ds| - 1 {
      RunningIsWrappedSum(init, k);
      assert init[..k + 1] == ds[..k + 1];
    } else {
      assert ds[..k + 1] == ds;
      if init != [] {
        RunningIsWrappedSum(init, k - 1);
        assert init[..k] == init;
        Int16AddWrap(Sum(init), e);
      }
    }
  }

  /** Wrapping a sum once at the end or after its first term gives the same int16. */
  lemma Int16AddWrap(a: int, b: int)
    ensures Int16(Int16(a) + b) == Int16(a + b)
  {
    var m := (a - Int16(a)) / 0x1_0000;
    assert a - Int16(a) == 0x1_0000 * m;
    assert (Int16(a) + b) - Int16(Int16(a) + b) == (a + b) - Int16(Int16(a) + b) - 0x1_0000 * m;
  }

  /** A point whose flag has the short bit clear and the same bit set keeps the previous coordinate. */
  lemma SameKeepsCoordinate(flags: seq<byte>, d: seq<byte>, short: nat, same: nat, x: int)
    requires short > 0 && same > 0 && flags != []
    requires !HasBit(flags[0], short) && HasBit(flags[0], same)
    requires AxisDeltas(flags, d, short, same).DeltaRun?
    ensures AxisDeltas(flags, d, short, same).deltas[0] == 0
    ensures Running(x, AxisDeltas(flags, d, short, same).deltas)[0] == Int16(x)
  {
  }

  /** Both axes' coordinates, x first, then y from where x stopped. */
  datatype Coords = Coords(xs: seq<int16>, ys: seq<int16>) | CoordsPanic

  function CoordsSpec(flags: seq<byte>, d: seq<byte>): (r: Coords)
    ensures r.Coords? ==> |r.xs| == |flags| && |r.ys| == |flags|
  {
    match AxisDeltas(flags, d, FlagXShortVector, FlagPositiveXShortVector)
    case DeltaPanic => CoordsPanic
    case DeltaRun(dx, rest) =>
      match AxisDeltas(flags, rest, FlagYShortVector, FlagPositiveYShortVector)
      case DeltaPanic => CoordsPanic
      case DeltaRun(dy, _) => Coords(Running(0, dx), Running(0, dy))
  }

  function FlagsOf(ps: seq<Point>): (r: seq<byte>)
    ensures |r| == |ps|
  {
    seq(|ps|, k requires 0 <= k < |ps| => ps[k].flags)
  }

  /** One point of decodeCoords' loop on one axis. */
  method ReadDelta(cur: Data, f: byte, short: nat, same: nat) returns (delta: int, ok: bool)
    requires short > 0 && same > 0
    modifies cur
    ensures ok <==> StepDelta(f, old(cur.rest), short, same).DeltaStep?
    ensures ok ==> StepDelta(f, old(cur.rest), short, same) == DeltaStep(delta, cur.rest)
  {
    delta := 0;
    if HasBit(f, short) {
      if |cur.rest| < 1 {
        return 0, false;
      }
      var dx := cur.U8();
      if !HasBit(f, same) {
        delta := -(dx as int);
      } else {
        delta := dx;
      }
    } else if !HasBit(f, same) {
      if |cur.rest| < 2 {
        return 0, false;
      }
      var w := cur.U16();
      delta := Int16(w);
    }
    return delta, true;
  }

  /** One axis of decodeCoords: the running coordinate after each point's delta. */
  method ReadAxis(cur: Data, flags: seq<byte>, short: nat, same: nat) returns (vals: seq<int16>, ok: bool)
    requires short > 0 && same > 0
    modifies cur
    ensures ok <==> AxisDeltas(flags, old(cur.rest), short, same).DeltaRun?
    ensures ok ==> vals == Running(0, AxisDeltas(flags, old(cur.rest), short, same).deltas)
    ensures ok ==> cur.rest == AxisDeltas(flags, old(cur.rest), short, same).rest
  {
    ghost var d0 := cur.rest;
    ghost var deltas: seq<int> := [];
    var x: int16 := 0;
    vals := [];
    var i := 0;
    while i < |flags|
      invariant 0 <= i <= |flags|
      invariant |deltas| == i && vals == Running(0, deltas)
      invariant x == if i == 0 then 0 else vals[i - 1]
      invariant AxisDeltas(flags, d0, short, same) == PrependDeltas(deltas, AxisDeltas(flags[i..], cur.rest, short, same))
    {
      ghost var before := cur.rest;
      var delta, stepOk := ReadDelta(cur, flags[i], short, same);
      AxisUnfold(flags, i, before, short, same);
      if !stepOk {
        return vals, false;
      }
      PrependDeltasAssoc(deltas, delta, AxisDeltas(flags[i + 1..], cur.rest, short, same));
      RunningAppend(0, deltas, delta);
      deltas := deltas + [delta];
      x := Int16(x + delta);
      vals := vals + [x];
      i := i + 1;
    }
    assert flags[i..] == [];
    assert AxisDeltas(flags[i..], cur.rest, short, same) == DeltaRun([], cur.rest);
    assert deltas + [] == deltas;
    assert AxisDeltas(flags, d0, short, same) == DeltaRun(deltas, cur.rest);
    return vals, true;
  }

  lemma AxisUnfold(flags: seq<byte>, i: nat, d: seq<byte>, short: nat, same: nat)
    requires i < |flags| && short > 0 && same > 0
    ensures AxisDeltas(flags[i..], d, short, same) ==
      match StepDelta(flags[i], d, short, same)
      case StepPanic => DeltaPanic
      case DeltaStep(x, rest) => PrependDelta(x, AxisDeltas(flags[i + 1..], rest, short, same))
  {
    assert flags[i..][1..] == flags[i + 1..];
  }

  function PrependDeltas(ds: seq<int>, r: DeltaRun): DeltaRun
  {
    match r
    case DeltaPanic => DeltaPanic
    case DeltaRun(es, rest) => DeltaRun(ds + es, rest)
  }

  lemma PrependDeltasAssoc(ds: seq<int>, e: int, r: DeltaRun)
    ensures PrependDeltas(ds, PrependDelta(e, r)) == PrependDeltas(ds + [e], r)
  {
    if r.DeltaRun? {
      assert ds + ([e] + r.deltas) == (ds + [e]) + r.deltas;
    }
  }

  // ---------------------------------------------------------------------------
  // Flags, imperatively
  // ---------------------------------------------------------------------------

  /** The flag of one point, or of a run of points, at the head of the data. */
  lemma FlagStep(d: seq<byte>, n: nat)
    requires n > 0 && |d| >= 1
    ensures !HasBit(d[0], FlagRepeat) ==> ExpandFlags(d, n) == PrependFlags([d[0]], ExpandFlags(d[1..], n - 1))
    ensures HasBit(d[0], FlagRepeat) && |d| < 2 ==> ExpandFlags(d, n) == FlagPanic
    ensures HasBit(d[0], FlagRepeat) && |d| >= 2 && d[1] > n - 1 ==> ExpandFlags(d, n) == FlagPanic
    ensures HasBit(d[0], FlagRepeat) && |d| >= 2 && d[1] <= n - 1 ==>
      ExpandFlags(d, n) == PrependFlags(seq(d[1] + 1, _ => d[0]), ExpandFlags(d[2..], n - 1 - d[1]))
  {
  }

  /** decodeFlags' loop: the flags of n points, in order, and whether the data held them. */
  method ReadFlags(cur: Data, n: nat) returns (flags: seq<byte>, ok: bool)
    modifies cur
    ensures ok <==> ExpandFlags(old(cur.rest), n).FlagRun?
    ensures ok ==> flags == ExpandFlags(old(cur.rest), n).flags && cur.rest == ExpandFlags(old(cur.rest), n).rest
  {
    ghost var d0 := cur.rest;
    flags := [];
    var i := 0;
    while i < n
      invariant 0 <= i <= n && |flags| == i
      invariant ExpandFlags(d0, n) == PrependFlags(flags, ExpandFlags(cur.rest, n - i))
    {
      ghost var before := cur.rest;
      var step;
      step, ok := ReadStep(cur, n - i);
      if !ok {
        return flags, false;
      }
      FlagsAdvance(ExpandFlags(d0, n), flags, ExpandFlags(before, n - i), step, ExpandFlags(cur.rest, n - i - |step|));
      flags := flags + step;
      i := i + |step|;
    }
    assert ExpandFlags(cur.rest, 0) == FlagRun([], cur.rest);
    assert flags + [] == flags;
    return flags, true;
  }

  /**
   * One iteration of decodeFlags' loop with room points left: a flag, and
   * its repeats when it has the repeat bit, or a failure when the data runs
   * out or the repeats pass the last point.
   */
  method ReadStep(cur: Data, room: nat) returns (step: seq<byte>, ok: bool)
    requires room > 0
    modifies cur
    ensures ok ==> 0 < |step| <= room
    ensures ok ==> ExpandFlags(old(cur.rest), room) == PrependFlags(step, ExpandFlags(cur.rest, room - |step|))
    ensures !ok ==> ExpandFlags(old(cur.rest), room) == FlagPanic
  {
    if |cur.rest| < 1 {
      return [], false;
    }
    FlagStep(cur.rest, room);
    var c := cur.U8();
    if !HasBit(c, FlagRepeat) {
      return [c], true;
    }
    if |cur.rest| < 1 {
      return [], false;
    }
    var count := cur.U8();
    var run;
    run, ok := RepeatRun(c, count, room - 1);
    if !ok {
      return [], false;
    }
    assert [c] + run == seq(count + 1, _ => c);
    return [c] + run, true;
  }

  /** The flags read so far grow by those of one more step. */
  lemma FlagsAdvance(whole: FlagRun, prev: seq<byte>, pending: FlagRun, step: seq<byte>, later: FlagRun)
    requires whole == PrependFlags(prev, pending) && pending == PrependFlags(step, later)
    ensures whole == PrependFlags(prev + step, later)
  {
    PrependFlagsAssoc(prev, step, later);
  }

  /**
   * The inner loop of decodeFlags: count more copies of the flag c, each
   * written to the next point; it fails, as the write past the last point
   * panics, when fewer than count points remain.
   */
  method RepeatRun(c: byte, count: byte, room: nat) returns (run: seq<byte>, ok: bool)
    ensures ok <==> count as int <= room
    ensures ok ==> run == seq(count, _ => c)
  {
    run := [];
    var k := count;
    while k > 0
      invariant 0 <= k <= count && |run| <= room
      invariant run == seq(count - k, _ => c)
    {
      if |run| >= room {
        return run, false;
      }
      run := run + [c];
      k := k - 1;
    }
    return run, true;
  }

  // ---------------------------------------------------------------------------
  // Finding a glyph
  // ---------------------------------------------------------------------------

  /** What load reads from a Font: the loca and glyf tables and loca's offset format. */
  datatype GlyphTables = GlyphTables(loca: seq<byte>, format: int, glyf: seq<byte>)

  function GlyfOf(f: Font): GlyphTables
    reads f
  {
    GlyphTables(f.loca, f.locaOffsetFormat, f.glyf)
  }

  /** The glyf offsets of glyph i and of glyph i+1: 16-bit halved offsets in the short format, 32-bit otherwise. */
  function GlyphRange(src: GlyphTables, i: uint16): (r: Outcome<(nat, nat)>)
    ensures r.Fail? ==> r.err == OutOfRange
    ensures src.format == LocaFormatShort && r.Ok? ==> r.value.0 % 2 == 0 && r.value.1 % 2 == 0
  {
    if src.format == LocaFormatShort then
      if 2 * i + 4 > |src.loca| then Fail(OutOfRange)
      else Ok((2 * BE16(src.loca, 2 * i), 2 * BE16(src.loca, 2 * i + 2)))
    else if 4 * i + 8 > |src.loca| then Fail(OutOfRange)
    else Ok((BE32(src.loca, 4 * i), BE32(src.loca, 4 * i + 4)))
  }

  /** The bytes of glyph i; equal offsets mean an empty glyph, read before the slice is taken. */
  function GlyphData(src: GlyphTables, i: uint16): (r: Outcome<seq<byte>>)
    ensures r.Fail? ==> r.err == OutOfRange
    ensures r.Ok? ==> GlyphRange(src, i).Ok? && (r.value == [] <==> GlyphRange(src, i).value.0 == GlyphRange(src, i).value.1)
    ensures r.Ok? && r.value != [] ==>
      GlyphRange(src, i).value.0 < GlyphRange(src, i).value.1 <= |src.glyf| &&
      r.value == src.glyf[GlyphRange(src, i).value.0..GlyphRange(src, i).value.1]
  {
    match GlyphRange(src, i)
    case Fail(e) => Fail(e)
    case Ok((g0, g1)) =>
      if g0 == g1 then Ok([])
      else if g0 > g1 || g1 > |src.glyf| then Fail(OutOfRange)
      else Ok(src.glyf[g0..g1])
  }

  /** The kind of glyph i, from its contour count: -1 is a compound glyph, below -1 is reserved. */
  datatype GlyphKind =
    | NoGlyph
    | Unreadable
    | Reserved(bounds: Bounds)
    | Simple(bounds: Bounds, body: seq<byte>, contours: nat)
    | Compound(bounds: Bounds, body: seq<byte>)

  function HeaderBounds(data: seq<byte>): Bounds
    requires |data| >= 10
  {
    Bounds(Int16(BE16(data, 2)), Int16(BE16(data, 4)), Int16(BE16(data, 6)), Int16(BE16(data, 8)))
  }

  function Classify(src: GlyphTables, i: uint16): (k: GlyphKind)
    ensures k.Simple? || k.Compound? || k.Reserved? ==>
      GlyphData(src, i).Ok? && |GlyphData(src, i).value| >= 10 && k.bounds == HeaderBounds(GlyphData(src, i).value)
    ensures k.Simple? || k.Compound? ==> k.body == GlyphData(src, i).value[10..]
    ensures k.Simple? ==> k.contours == Int16(BE16(GlyphData(src, i).value, 0))
    ensures k.Compound? <==> GlyphData(src, i).Ok? && |GlyphData(src, i).value| >= 10 && Int16(BE16(GlyphData(src, i).value, 0)) == -1
  {
    match GlyphData(src, i)
    case Fail(_) => Unreadable
    case Ok(data) =>
      if data == [] then NoGlyph
      else if |data| < 10 then Unreadable
      else
        var ne := Int16(BE16(data, 0));
        if ne == -1 then Compound(HeaderBounds(data), data[10..])
        else if ne < 0 then Reserved(HeaderBounds(data))
        else Simple(HeaderBounds(data), data[10..], ne)
  }

  /** Locating glyph i the way load does, through a cursor on loca. */
  method LocateGlyph(f: Font, i: uint16) returns (r: Outcome<seq<byte>>)
    ensures r == GlyphData(GlyfOf(f), i)
  {
    var g0: nat, g1: nat;
    if f.locaOffsetFormat == LocaFormatShort {
      if 2 * i + 4 > |f.loca| {
        return Fail(OutOfRange);
      }
      var d := new Data(f.loca[2 * i..]);
      var a := d.U16();
      var c := d.U16();
      g0, g1 := 2 * (a as int), 2 * (c as int);
    } else {
      if 4 * i + 8 > |f.loca| {
        return Fail(OutOfRange);
      }
      var d := new Data(f.loca[4 * i..]);
      g0 := d.U32();
      g1 := d.U32();
    }
    if g0 == g1 {
      return Ok([]);
    }
    if g0 > g1 || g1 > |f.glyf| {
      return Fail(OutOfRange);
    }
    return Ok(f.glyf[g0..g1]);
  }

  /** The glyph's data and header, read the way load reads them. */
  method ClassifyGlyph(f: Font, i: uint16) returns (kind: GlyphKind)
    ensures kind == Classify(GlyfOf(f), i)
  {
    var located := LocateGlyph(f, i);
    if located.Fail? {
      return Unreadable;
    }
    if located.value == [] {
      return NoGlyph;
    }
    var d := new Data(located.value);
    if |d.rest| < 10 {
      return Unreadable;
    }
    var ne := d.U16();
    var xMin := d.U16();
    var yMin := d.U16();
    var xMax := d.U16();
    var yMax := d.U16();
    var bounds := Bounds(Int16(xMin), Int16(yMin), Int16(xMax), Int16(yMax));
    assert d.rest == located.value[10..];
    var contours := Int16(ne);
    if contours == -1 {
      return Compound(bounds, d.rest);
    } else if contours < 0 {
      return Reserved(bounds);
    }
    return Simple(bounds, d.rest, contours);
  }

  // ---------------------------------------------------------------------------
  // A simple glyph
  // ---------------------------------------------------------------------------

  /** The contour ends and points a simple glyph appends, or a read past its data. */
  datatype Outline = Outline(ends: seq<int>, points: seq<Point>) | OutlinePanic

  function OutlinePoints(flags: seq<byte>, xs: seq<int16>, ys: seq<int16>): (r: seq<Point>)
    requires |xs| == |flags| && |ys| == |flags|
    ensures |r| == |flags|
  {
    seq(|flags|, k requires 0 <= k < |flags| => Point(xs[k], ys[k], flags[k]))
  }

  /** Contour end k of a simple glyph: 1 + np0 + the stored end point. */
  function EndsOf(body: seq<byte>, contours: nat, np0: nat): (es: seq<int>)
    requires |body| >= 2 * contours
    ensures |es| == contours
    ensures forall k :: 0 <= k < contours ==> np0 < es[k] <= np0 + 0x1_0000
  {
    seq(contours, k requires 0 <= k < contours => 1 + np0 + BE16(body, 2 * k))
  }

  /** Where the flags start: after the ends, the instruction length and the instructions. */
  function FlagsStart(body: seq<byte>, contours: nat): nat
    requires |body| >= 2 * contours + 2
  {
    2 * contours + 2 + BE16(body, 2 * contours)
  }

  /** The n points decoded from flags and coordinates at the head of d. */
  function PointsFrom(d: seq<byte>, n: nat): (r: Option<seq<Point>>)
    ensures r.Some? ==> |r.value| == n
  {
    match ExpandFlags(d, n)
    case FlagPanic => None
    case FlagRun(fl, rest) =>
      match CoordsSpec(fl, rest)
      case CoordsPanic => None
      case Coords(xs, ys) => Some(OutlinePoints(fl, xs, ys))
  }

  /**
   * A simple glyph's body after its header, appended to a buffer holding np0
   * points: the contour ends, then the hinting instructions, skipped, then
   * the points; the last end gives the new point count, and with no new
   * contours that is the last end already in the buffer, which must exist
   * (hasEnds).
   */
  function SimpleOutline(body: seq<byte>, contours: nat, np0: nat, hasEnds: bool): (r: Outline)
    ensures r.Outline? ==> |r.ends| == contours && (contours == 0 ==> r.points == [])
    ensures r.Outline? && contours > 0 ==> r.ends[contours - 1] == np0 + |r.points|
    ensures r.Outline? ==> forall k :: 0 <= k < contours ==> np0 < r.ends[k] <= np0 + 0x1_0000
  {
    if |body| < 2 * contours + 2 || |body| < FlagsStart(body, contours) || (contours == 0 && !hasEnds) then OutlinePanic
    else
      var es := EndsOf(body, contours, np0);
      var np := if contours == 0 then np0 else es[contours - 1];
      match PointsFrom(body[FlagsStart(body, contours)..], np - np0)
      case None => OutlinePanic
      case Some(ps) => Outline(es, ps)
  }

  // ---------------------------------------------------------------------------
  // Loading, as a function of the buffer
  // ---------------------------------------------------------------------------

  /** A GlyphBuf's state: bounds, points and contour ends. */
  datatype Buf = Buf(b: Bounds, points: seq<Point>, ends: seq<int>)

  const EmptyBuf: Buf := Buf(Bounds(0, 0, 0, 0), [], [])

  /** The state after a load and its error. */
  datatype Loaded = Loaded(buf: Buf, err: Option<Error>)

  /** The contours of a buffer: the last end is the number of points, and no ends means no points. */
  predicate ValidBuf(g: Buf)
  {
    (g.ends == [] ==> g.points == []) && (g.ends != [] ==> g.ends[|g.ends| - 1] == |g.points|)
  }

  predicate IsPanic(e: Option<Error>)
  {
    e.Some? && e.value.Panic?
  }

  /** One point moved by (dx, dy), each coordinate wrapping to int16. */
  function Moved(p: Point, dx: int16, dy: int16): Point
  {
    Point(Int16(p.x + dx), Int16(p.y + dy), p.flags)
  }

  /** The points from i0 on moved by (dx, dy); those before i0 are kept. */
  function Shift(ps: seq<Point>, i0: nat, dx: int16, dy: int16): (r: seq<Point>)
    ensures |r| == |ps|
    ensures i0 <= |ps| ==> r[..i0] == ps[..i0]
    ensures i0 >= |ps| ==> r == ps
  {
    seq(|ps|, k requires 0 <= k < |ps| => if k < i0 then ps[k] else Moved(ps[k], dx, dy))
  }

  /** The header of one component of a compound glyph: flags, glyph index and offset. */
  datatype Component = Component(flags: uint16, glyph: uint16, dx: int16, dy: int16, rest: seq<byte>) | ComponentPanic

  function ReadComponentSpec(d: seq<byte>): (c: Component)
    ensures c.Component? ==> |c.rest| < |d|
  {
    if |d| < 4 then ComponentPanic
    else
      var flags := BE16(d, 0);
      var glyph := BE16(d, 2);
      if HasBit(flags, FlagArg1And2AreWords) then
        if |d| < 8 then ComponentPanic
        else Component(flags, glyph, Int16(BE16(d, 4)), Int16(BE16(d, 6)), d[8..])
      else if |d| < 6 then ComponentPanic
      else Component(flags, glyph, Int8(d[4]), Int8(d[5]), d[6..])
  }

  predicate Scaled(flags: uint16)
  {
    HasBit(flags, FlagWeHaveAScale) || HasBit(flags, FlagWeHaveAnXAndYScale) || HasBit(flags, FlagWeHaveATwoByTwo)
  }

  /**
   * load: glyph i appended to g at the given compound nesting depth. The
   * nesting is cut off at depth 4.
   */
  function LoadSpec(src: GlyphTables, i: uint16, recursion: nat, g: Buf): (r: Loaded)
    decreases 4 - recursion, 1, 0
  {
    if recursion >= 4 then Loaded(g, Some(UnsupportedError("excessive compound glyph recursion")))
    else
      match Classify(src, i)
      case NoGlyph => Loaded(g, None)
      case Unreadable => Loaded(g, Some(OutOfRange))
      case Reserved(bounds) => Loaded(g.(b := bounds), Some(UnsupportedError("negative number of contours")))
      case Simple(bounds, body, contours) =>
        (match SimpleOutline(body, contours, |g.points|, g.ends != [])
         case OutlinePanic => Loaded(g.(b := bounds), Some(OutOfRange))
         case Outline(es, ps) => Loaded(Buf(bounds, g.points + ps, g.ends + es), None))
      case Compound(bounds, body) => CompoundSpec(src, body, recursion, g.(b := bounds))
  }

  /**
   * loadCompound: each component is loaded one level deeper and its points
   * moved by the component's offset. A component's own error is dropped
   * (a panic is not); the compound's bounds are kept unless the component
   * says to use its metrics.
   */
  function CompoundSpec(src: GlyphTables, d: seq<byte>, recursion: nat, g: Buf): (r: Loaded)
    requires recursion < 4
    decreases 4 - recursion, 0, |d|
  {
    match ReadComponentSpec(d)
    case ComponentPanic => Loaded(g, Some(OutOfRange))
    case Component(flags, glyph, dx, dy, rest) =>
      if !HasBit(flags, FlagArgsAreXYValues) then Loaded(g, Some(UnsupportedError("compound glyph transform vector")))
      else if Scaled(flags) then Loaded(g, Some(UnsupportedError("compound glyph scale/transform")))
      else
        var sub := LoadSpec(src, glyph, recursion + 1, g);
        if IsPanic(sub.err) then sub
        else
          var next := AfterComponent(g, sub.buf, ReadComponentSpec(d));
          if !HasBit(flags, FlagMoreComponents) then Loaded(next, None)
          else CompoundSpec(src, rest, recursion, next)
  }

  /**
   * The buffer after one component: the component's points, appended to
   * those g held, moved by its offset, and g's bounds back unless the
   * component says to use its metrics.
   */
  function AfterComponent(g: Buf, sub: Buf, c: Component): (r: Buf)
    requires c.Component?
    ensures r.ends == sub.ends && |r.points| == |sub.points|
    ensures g.points <= sub.points ==> g.points <= r.points
    ensures ValidBuf(sub) ==> ValidBuf(r)
  {
    var moved := sub.(points := Shift(sub.points, |g.points|, c.dx, c.dy));
    if HasBit(c.flags, FlagUseMyMetrics) then moved else moved.(b := g.b)
  }

  /** One component of a compound glyph, when it reads, is accepted and its glyph does not panic. */
  lemma CompoundStep(src: GlyphTables, d: seq<byte>, recursion: nat, g: Buf)
    requires recursion < 4
    requires ReadComponentSpec(d).Component?
    requires HasBit(ReadComponentSpec(d).flags, FlagArgsAreXYValues) && !Scaled(ReadComponentSpec(d).flags)
    requires !IsPanic(LoadSpec(src, ReadComponentSpec(d).glyph, recursion + 1, g).err)
    ensures var c := ReadComponentSpec(d);
      var next := AfterComponent(g, LoadSpec(src, c.glyph, recursion + 1, g).buf, c);
      CompoundSpec(src, d, recursion, g) ==
        if HasBit(c.flags, FlagMoreComponents) then CompoundSpec(src, c.rest, recursion, next) else Loaded(next, None)
  {
  }

  /** Loading keeps a buffer's contours consistent with its points. */
  lemma {:induction false} LoadKeepsValid(src: GlyphTables, i: uint16, recursion: nat, g: Buf)
    requires ValidBuf(g)
    ensures ValidBuf(LoadSpec(src, i, recursion, g).buf)
    decreases 4 - recursion, 1, 0
  {
    if recursion < 4 {
      match Classify(src, i)
      case Compound(bounds, body) => CompoundKeepsValid(src, body, recursion, g.(b := bounds));
      case Simple(bounds, body, contours) => SimpleKeepsValid(g, bounds, body, contours);
      case _ =>
    }
  }

  /** A simple glyph's outline appended to a consistent buffer leaves it consistent. */
  lemma SimpleKeepsValid(g: Buf, bounds: Bounds, body: seq<byte>, contours: nat)
    requires ValidBuf(g)
    ensures match SimpleOutline(body, contours, |g.points|, g.ends != [])
      case OutlinePanic => true
      case Outline(es, ps) => ValidBuf(Buf(bounds, g.points + ps, g.ends + es))
  {
    match SimpleOutline(body, contours, |g.points|, g.ends != [])
    case OutlinePanic =>
    case Outline(es, ps) =>
      if contours == 0 {
        assert g.ends != [] && g.ends + es == g.ends && g.points + ps == g.points;
      } else {
        assert (g.ends + es)[|g.ends + es| - 1] == es[contours - 1];
      }
  }

  lemma {:induction false} CompoundKeepsValid(src: GlyphTables, d: seq<byte>, recursion: nat, g: Buf)
    requires recursion < 4 && ValidBuf(g)
    ensures ValidBuf(CompoundSpec(src, d, recursion, g).buf)
    decreases 4 - recursion, 0, |d|
  {
    match ReadComponentSpec(d)
    case ComponentPanic =>
    case Component(flags, glyph, dx, dy, rest) =>
      if HasBit(flags, FlagArgsAreXYValues) && !Scaled(flags) {
        LoadKeepsValid(src, glyph, recursion + 1, g);
        var sub := LoadSpec(src, glyph, recursion + 1, g);
        if !IsPanic(sub.err) {
          var next := AfterComponent(g, sub.buf, ReadComponentSpec(d));
          assert ValidBuf(next);
          if HasBit(flags, FlagMoreComponents) {
            CompoundKeepsValid(src, rest, recursion, next);
          }
        }
      }
  }

  /**
   * Loading only appends: the points and contour ends already in the buffer
   * stay as they were, whatever is loaded, even when it panics.
   */
  lemma {:induction false} LoadAppends(src: GlyphTables, i: uint16, recursion: nat, g: Buf)
    ensures g.points <= LoadSpec(src, i, recursion, g).buf.points
    ensures g.ends <= LoadSpec(src, i, recursion, g).buf.ends
    decreases 4 - recursion, 1, 0
  {
    if recursion < 4 {
      match Classify(src, i)
      case Compound(bounds, body) => CompoundAppends(src, body, recursion, g.(b := bounds));
      case _ =>
    }
  }

  lemma {:induction false} CompoundAppends(src: GlyphTables, d: seq<byte>, recursion: nat, g: Buf)
    requires recursion < 4
    ensures g.points <= CompoundSpec(src, d, recursion, g).buf.points
    ensures g.ends <= CompoundSpec(src, d, recursion, g).buf.ends
    decreases 4 - recursion, 0, |d|
  {
    match ReadComponentSpec(d)
    case ComponentPanic =>
    case Component(flags, glyph, dx, dy, rest) =>
      if HasBit(flags, FlagArgsAreXYValues) && !Scaled(flags) {
        LoadAppends(src, glyph, recursion + 1, g);
        var sub := LoadSpec(src, glyph, recursion + 1, g);
        if !IsPanic(sub.err) {
          var next := AfterComponent(g, sub.buf, ReadComponentSpec(d));
          if HasBit(flags, FlagMoreComponents) {
            CompoundAppends(src, rest, recursion, next);
          }
        }
      }
  }

  /**
   * A compound glyph whose one component is the glyph itself loads no
   * points: the nesting limit ends the recursion, the innermost error is
   * dropped, and the buffer keeps only the compound's bounds.
   */
  lemma {:induction false} SelfReferenceLoadsNothing(src: GlyphTables, i: uint16, recursion: nat, g: Buf, bounds: Bounds, body: seq<byte>)
    requires recursion < 4
    requires Classify(src, i) == Compound(bounds, body)
    requires var c := ReadComponentSpec(body);
      c.Component? && c.glyph == i && HasBit(c.flags, FlagArgsAreXYValues) && !Scaled(c.flags) &&
      !HasBit(c.flags, FlagUseMyMetrics) && !HasBit(c.flags, FlagMoreComponents)
    ensures LoadSpec(src, i, recursion, g) == Loaded(g.(b := bounds), None)
    decreases 4 - recursion
  {
    var c := ReadComponentSpec(body);
    var g' := g.(b := bounds);
    if recursion + 1 < 4 {
      SelfReferenceLoadsNothing(src, i, recursion + 1, g', bounds, body);
    }
    var sub := LoadSpec(src, i, recursion + 1, g');
    assert sub.buf == g';
    assert AfterComponent(g', sub.buf, c) == g';
  }

  // ---------------------------------------------------------------------------
  // Compound components, imperatively
  // ---------------------------------------------------------------------------

  /** The header of one component, read the way loadCompound reads it. */
  method ReadComponent(cur: Data) returns (c: Component)
    modifies cur
    ensures c == ReadComponentSpec(old(cur.rest))
    ensures c.Component? ==> cur.rest == c.rest
  {
    ghost var d := cur.rest;
    if |cur.rest| < 4 {
      return ComponentPanic;
    }
    var flags := cur.U16();
    var glyph := cur.U16();
    var dx: int16, dy: int16;
    if HasBit(flags, FlagArg1And2AreWords) {
      if |cur.rest| < 4 {
        return ComponentPanic;
      }
      var a := cur.U16();
      var b := cur.U16();
      dx, dy := Int16(a), Int16(b);
      assert cur.rest == d[8..];
    } else {
      if |cur.rest| < 2 {
        return ComponentPanic;
      }
      var a := cur.U8();
      var b := cur.U8();
      dx, dy := Int8(a), Int8(b);
      assert cur.rest == d[6..];
    }
    return Component(flags, glyph, dx, dy, cur.rest);
  }

  // ---------------------------------------------------------------------------
  // GlyphBuf
  // ---------------------------------------------------------------------------

  /** A glyph's contours: contour k is points[ends[k-1]..ends[k]], with ends[-1] read as zero. */
  class GlyphBuf {
    var b: Bounds
    var points: seq<Point>
    var ends: seq<int>

    function State(): Buf
      reads this
    {
      Buf(b, points, ends)
    }

    predicate Valid()
      reads this
    {
      ValidBuf(State())
    }

    /** NewGlyphBuf: an empty buffer. */
    constructor ()
      ensures State() == EmptyBuf && Valid()
    {
      b := Bounds(0, 0, 0, 0);
      points := [];
      ends := [];
    }

    /** Load: glyph i of f, replacing whatever the buffer held. */
    method Load(f: Font, i: uint16) returns (err: Option<Error>)
      modifies this
      ensures err == LoadSpec(GlyfOf(f), i, 0, EmptyBuf).err
      ensures !IsPanic(err) ==> State() == LoadSpec(GlyfOf(f), i, 0, EmptyBuf).buf && Valid()
    {
      b := Bounds(0, 0, 0, 0);
      points := [];
      ends := [];
      err := LoadGlyph(f, i, 0);
    }

    /** load: glyph i of f appended to the buffer, at the given compound nesting depth. */
    method LoadGlyph(f: Font, i: uint16, recursion: nat) returns (err: Option<Error>)
      requires Valid()
      modifies this
      ensures err == LoadSpec(GlyfOf(f), i, recursion, old(State())).err
      ensures !IsPanic(err) ==> State() == LoadSpec(GlyfOf(f), i, recursion, old(State())).buf && Valid()
      ensures old(points) <= points && old(ends) <= ends
      decreases 4 - recursion, 1, 0
    {
      if recursion >= 4 {
        return Some(UnsupportedError("excessive compound glyph recursion"));
      }
      ghost var g := State();
      var kind := ClassifyGlyph(f, i);
      match kind {
        case NoGlyph =>
          return None;
        case Unreadable =>
          return Some(OutOfRange);
        case Reserved(bounds) =>
          b := bounds;
          return Some(UnsupportedError("negative number of contours"));
        case Simple(bounds, body, contours) =>
          b := bounds;
          err := LoadSimple(body, contours);
          LoadKeepsValid(GlyfOf(f), i, recursion, g);
        case Compound(bounds, body) =>
          b := bounds;
          err := LoadCompound(f, body, recursion);
      }
    }

    /** The rest of load for a simple glyph: contour ends, skipped instructions, flags and coordinates. */
    method LoadSimple(body: seq<byte>, contours: nat) returns (err: Option<Error>)
      requires Valid()
      modifies this
      ensures b == old(b) && old(points) <= points && old(ends) <= ends
      ensures SimpleOutline(body, contours, |old(points)|, old(ends) != []).OutlinePanic? ==> err == Some(OutOfRange)
      ensures SimpleOutline(body, contours, |old(points)|, old(ends) != []).Outline? ==> err == None
      ensures SimpleOutline(body, contours, |old(points)|, old(ends) != []).Outline? ==>
        points == old(points) + SimpleOutline(body, contours, |old(points)|, old(ends) != []).points
      ensures SimpleOutline(body, contours, |old(points)|, old(ends) != []).Outline? ==>
        ends == old(ends) + SimpleOutline(body, contours, |old(points)|, old(ends) != []).ends
    {
      var ne0, np0 := |ends|, |points|;
      ghost var spec := SimpleOutline(body, contours, np0, ends != []);
      var ok := AppendEnds(body, contours, np0);
      if !ok {
        return Some(OutOfRange);
      }
      var ne := ne0 + contours;
      var start := FlagsStart(body, contours);
      if |body| < start {
        return Some(OutOfRange);
      }
      var d := body[start..];
      if ne == 0 {
        return Some(OutOfRange);
      }
      var np := ends[ne - 1];
      assert np >= np0 && (contours == 0 ==> np == np0) && (contours > 0 ==> np == EndsOf(body, contours, np0)[contours - 1]);
      ok := AppendPoints(d, np);
      if !ok {
        return Some(OutOfRange);
      }
      return None;
    }

    /** The points of a simple glyph: the buffer grown to np points, the new ones decoded from d. */
    method AppendPoints(d: seq<byte>, np: nat) returns (ok: bool)
      requires |points| <= np
      modifies this
      ensures b == old(b) && ends == old(ends) && old(points) <= points
      ensures ok <==> PointsFrom(d, np - |old(points)|).Some?
      ensures ok ==> points == old(points) + PointsFrom(d, np - |old(points)|).value
    {
      var np0 := |points|;
      ghost var ps0 := points;
      points := Resized(points, np, ZeroPoint);
      assert points[..np0] == ps0;
      ok := DecodePoints(d, np0);
    }

    /** The ends of a simple glyph's new contours, appended; false when the data runs out. */
    method AppendEnds(body: seq<byte>, contours: nat, np0: nat) returns (ok: bool)
      modifies this
      ensures b == old(b) && points == old(points) && old(ends) <= ends
      ensures ok <==> |body| >= 2 * contours + 2
      ensures ok ==> ends == old(ends) + EndsOf(body, contours, np0)
    {
      var ne0 := |ends|;
      var ne := ne0 + contours;
      ends := Resized(ends, ne, 0);
      var d := new Data(body);
      var k := ne0;
      while k < ne
        invariant ne0 <= k <= ne && |ends| == ne && ends[..ne0] == old(ends)
        invariant 2 * (k - ne0) <= |body| && d.rest == body[2 * (k - ne0)..]
        invariant forall j :: ne0 <= j < k ==> ends[j] == 1 + np0 + BE16(body, 2 * (j - ne0))
        invariant b == old(b) && points == old(points)
      {
        if |d.rest| < 2 {
          return false;
        }
        var e := d.U16();
        assert body[2 * (k - ne0)..][2..] == body[2 * (k + 1 - ne0)..];
        ends := ends[k := 1 + np0 + e];
        k := k + 1;
      }
      if |d.rest| < 2 {
        return false;
      }
      assert ends == old(ends) + EndsOf(body, contours, np0);
      return true;
    }

    /** decodeFlags then decodeCoords over the points from np0 on; false when the data runs out. */
    method DecodePoints(d: seq<byte>, np0: nat) returns (ok: bool)
      requires np0 <= |points|
      modifies this
      ensures b == old(b) && ends == old(ends) && old(points)[..np0] <= points
      ensures ok <==> PointsFrom(d, |old(points)| - np0).Some?
      ensures ok ==> points == old(points)[..np0] + PointsFrom(d, |old(points)| - np0).value
    {
      var rest := DecodeFlags(d, np0);
      if rest.None? {
        return false;
      }
      assert points[..np0] == old(points)[..np0];
      ok := DecodeCoords(rest.value, np0);
      assert old(points)[..np0] <= points[..np0] <= points;
    }

    /** decodeFlags: the flags of the points from np0 on; None when the data runs out. */
    method DecodeFlags(d: seq<byte>, np0: nat) returns (rest: Option<seq<byte>>)
      requires np0 <= |points|
      modifies this
      ensures b == old(b) && ends == old(ends) && |points| == |old(points)| && points[..np0] == old(points)[..np0]
      ensures rest.None? <==> ExpandFlags(d, |points| - np0).FlagPanic?
      ensures rest.None? ==> points == old(points)
      ensures rest.Some? ==> rest.value == ExpandFlags(d, |points| - np0).rest
      ensures rest.Some? ==> FlagsOf(points[np0..]) == ExpandFlags(d, |points| - np0).flags
    {
      var cur := new Data(d);
      var flags, ok := ReadFlags(cur, |points| - np0);
      if !ok {
        return None;
      }
      var ps := points;
      points := ps[..np0] + seq(|flags|, k requires 0 <= k < |flags| => ps[np0 + k].(flags := flags[k]));
      return Some(cur.rest);
    }

    /** decodeCoords: the x coordinates of the points from np0 on, then their y coordinates; false when the data runs out. */
    method DecodeCoords(d: seq<byte>, np0: nat) returns (ok: bool)
      requires np0 <= |points|
      modifies this
      ensures b == old(b) && ends == old(ends)
      ensures ok <==> CoordsSpec(FlagsOf(old(points)[np0..]), d).Coords?
      ensures !ok ==> points == old(points)
      ensures ok ==> points == old(points)[..np0] + OutlinePoints(FlagsOf(old(points)[np0..]),
        CoordsSpec(FlagsOf(old(points)[np0..]), d).xs, CoordsSpec(FlagsOf(old(points)[np0..]), d).ys)
    {
      var flags := FlagsOf(points[np0..]);
      var cur := new Data(d);
      var xs, okX := ReadAxis(cur, flags, FlagXShortVector, FlagPositiveXShortVector);
      if !okX {
        return false;
      }
      var ys, okY := ReadAxis(cur, flags, FlagYShortVector, FlagPositiveYShortVector);
      if !okY {
        return false;
      }
      points := points[..np0] + OutlinePoints(flags, xs, ys);
      return true;
    }

    /** loadCompound: the components of a compound glyph, each appended and moved by its offset. */
    method LoadCompound(f: Font, d: seq<byte>, recursion: nat) returns (err: Option<Error>)
      requires Valid() && recursion < 4
      modifies this
      ensures err == CompoundSpec(GlyfOf(f), d, recursion, old(State())).err
      ensures !IsPanic(err) ==> State() == CompoundSpec(GlyfOf(f), d, recursion, old(State())).buf && Valid()
      ensures old(points) <= points && old(ends) <= ends
      decreases 4 - recursion, 0, 0
    {
      ghost var src := GlyfOf(f);
      var cur := new Data(d);
      while true
        invariant Valid() && old(points) <= points && old(ends) <= ends && GlyfOf(f) == src
        invariant CompoundSpec(src, d, recursion, old(State())) == CompoundSpec(src, cur.rest, recursion, State())
        decreases |cur.rest|
      {
        ghost var g := State();
        ghost var before := cur.rest;
        var c := ReadComponent(cur);
        if c.ComponentPanic? {
          return Some(OutOfRange);
        }
        if !HasBit(c.flags, FlagArgsAreXYValues) {
          return Some(UnsupportedError("compound glyph transform vector"));
        }
        if HasBit(c.flags, FlagWeHaveAScale) || HasBit(c.flags, FlagWeHaveAnXAndYScale) || HasBit(c.flags, FlagWeHaveATwoByTwo) {
          return Some(UnsupportedError("compound glyph scale/transform"));
        }
        var b0, i0 := b, |points|;
        var e := LoadGlyph(f, c.glyph, recursion + 1);
        if IsPanic(e) {
          return e;
        }
        ghost var sub := State();
        ShiftPoints(i0, c.dx, c.dy);
        if !HasBit(c.flags, FlagUseMyMetrics) {
          b := b0;
        }
        assert State() == AfterComponent(g, sub, c);
        CompoundStep(src, before, recursion, g);
        if !HasBit(c.flags, FlagMoreComponents) {
          break;
        }
      }
      return None;
    }

    /** The points from i0 on moved by (dx, dy). */
    method ShiftPoints(i0: nat, dx: int16, dy: int16)
      requires i0 <= |points|
      modifies this
      ensures points == Shift(old(points), i0, dx, dy) && b == old(b) && ends == old(ends)
    {
      var i := i0;
      while i < |points|
        invariant i0 <= i <= |points| && |points| == |old(points)| && b == old(b) && ends == old(ends)
        invariant forall k :: 0 <= k < |points| ==> points[k] == if i0 <= k < i then Moved(old(points)[k], dx, dy) else old(points)[k]
      {
        points := points[i := Moved(points[i], dx, dy)];
        i := i + 1;
      }
    }
  }
}
