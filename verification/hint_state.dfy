/**
 * The state of the TrueType bytecode interpreter (freetype/truetype/hint.go):
 * the graphics state and its global default, the twilight and glyph zones
 * with their three point types, the read-only environment a program runs
 * in, and the helpers the instructions share — point lookup, move, the
 * control value table and round.
 */
module HintState {
  import opened Ints
  import opened HintArith
  import TrueTypeGlyph

  /** A glyph point (glyph.go's Point): 26.6 coordinates and flags. */
  type Point = TrueTypeGlyph.Point

  /** The internal flags move sets (glyph.go:55-57). */
  const FlagTouchedX: nat := 0x40
  const FlagTouchedY: nat := 0x80

  /** Go's [3]int32, the reference points rp and zone pointers zp. */
  datatype Trio = Trio(e0: int32, e1: int32, e2: int32)
  {
    function At(k: nat): int32
      requires k < 3
    {
      if k == 0 then e0 else if k == 1 then e1 else e2
    }

    function With(k: nat, v: int32): (r: Trio)
      requires k < 3
      ensures r.At(k) == v
      ensures forall j :: 0 <= j < 3 && j != k ==> r.At(j) == At(j)
    {
      if k == 0 then this.(e0 := v) else if k == 1 then this.(e1 := v) else this.(e2 := v)
    }
  }

  /** graphicsState: vectors, reference points, zone pointers, cut-ins, loop count, rounding, auto-flip. */
  datatype GraphicsState = GraphicsState(
    pv: Vec, fv: Vec, dv: Vec,
    rp: Trio, zp: Trio,
    controlValueCutIn: int32, singleWidthCutIn: int32, singleWidth: int32,
    deltaBase: int32, deltaShift: int32,
    minDist: int32,
    loop: int32,
    roundPeriod: int32, roundPhase: int32, roundThreshold: int32,
    autoFlip: bool)

  /**
   * globalDefaultGS: all vectors along x, zone pointers on the glyph zone,
   * cut-in 17/16, delta base 9 and shift 3, minimum distance 1, loop 1,
   * round to grid, auto-flip on.
   */
  const GlobalDefaultGS: GraphicsState :=
    GraphicsState(XAxis, XAxis, XAxis, Trio(0, 0, 0), Trio(1, 1, 1), 68, 0, 0, 9, 3, 64, 1, 64, 0, 32, true)

  /** Go's zero graphicsState, which a new Hinter's defaultGS holds until a prep program has run. */
  const ZeroGS: GraphicsState :=
    GraphicsState(Vec(0, 0), Vec(0, 0), Vec(0, 0), Trio(0, 0, 0), Trio(0, 0, 0), 0, 0, 0, 0, 0, 0, 0, 0, 0, 0, false)

  lemma GlobalDefaultValues()
    ensures GlobalDefaultGS.controlValueCutIn == 17 * 64 / 16
    ensures GlobalDefaultGS.roundPeriod == 64 && GlobalDefaultGS.roundThreshold == 32 && GlobalDefaultGS.roundPhase == 0
    ensures GlobalDefaultGS.minDist == 64 && GlobalDefaultGS.loop == 1
  {
  }

  // ---------------------------------------------------------------------------
  // Zones

  datatype PointType = Current | Unhinted | InFontUnits

  /** One zone's points of the three types. */
  datatype Zone = Zone(current: seq<Point>, unhinted: seq<Point>, inFontUnits: seq<Point>)
  {
    function Get(pt: PointType): seq<Point>
    {
      match pt
      case Current => current
      case Unhinted => unhinted
      case InFontUnits => inFontUnits
    }

    function With(pt: PointType, ps: seq<Point>): (r: Zone)
      ensures r.Get(pt) == ps
      ensures forall q: PointType :: q != pt ==> r.Get(q) == Get(q)
    {
      match pt
      case Current => this.(current := ps)
      case Unhinted => this.(unhinted := ps)
      case InFontUnits => this.(inFontUnits := ps)
    }
  }

  const TwilightZone: nat := 0
  const GlyphZone: nat := 1

  /** The Hinter's points: the twilight zone and the glyph zone, Go's [2][3][]Point. */
  datatype Points = Points(twilight: Zone, glyph: Zone)
  {
    function Get(z: nat): Zone
      requires z < 2
    {
      if z == TwilightZone then twilight else glyph
    }

    function With(z: nat, zone: Zone): (r: Points)
      requires z < 2
      ensures r.Get(z) == zone && r.Get(1 - z) == Get(1 - z)
    {
      if z == TwilightZone then this.(twilight := zone) else this.(glyph := zone)
    }
  }

  /** A point's place: zone 0 (twilight) or 1 (glyph), its type and its index; Go's *Point. */
  datatype PointRef = PointRef(zone: nat, pt: PointType, index: nat)

  predicate ValidRef(ps: Points, r: PointRef)
  {
    r.zone < 2 && r.index < |ps.Get(r.zone).Get(r.pt)|
  }

  function Read(ps: Points, r: PointRef): Point
    requires ValidRef(ps, r)
  {
    ps.Get(r.zone).Get(r.pt)[r.index]
  }

  /** Writing one point: every other point, and every length, stays as it was. */
  function Write(ps: Points, r: PointRef, p: Point): (ps': Points)
    requires ValidRef(ps, r)
    ensures forall q :: ValidRef(ps, q) <==> ValidRef(ps', q)
    ensures Read(ps', r) == p
    ensures forall q :: ValidRef(ps, q) && q != r ==> Read(ps', q) == Read(ps, q)
  {
    var zone := ps.Get(r.zone);
    ps.With(r.zone, zone.With(r.pt, zone.Get(r.pt)[r.index := p]))
  }

  /** point(zonePointer, pt, i): the zone named by zp[zonePointer] must exist; a missing point is nil. */
  datatype Lookup = Found(ref: PointRef) | Missing | BadZone

  function PointLookup(zp: Trio, ps: Points, zonePointer: nat, pt: PointType, i: int): (r: Lookup)
    requires zonePointer < 3
    ensures r.BadZone? <==> !(zp.At(zonePointer) == 0 || zp.At(zonePointer) == 1)
    ensures r.Found? ==> ValidRef(ps, r.ref) && r.ref.pt == pt && r.ref.index == i && r.ref.zone == zp.At(zonePointer)
    ensures r.Missing? ==> var z := zp.At(zonePointer); !(0 <= i < |ps.Get(z).Get(pt)|)
  {
    var z := zp.At(zonePointer);
    if !(z == 0 || z == 1) then BadZone
    else if i < 0 || |ps.Get(z).Get(pt)| <= i then Missing
    else Found(PointRef(z, pt, i))
  }

  // ---------------------------------------------------------------------------
  // The environment and the machine

  /** popCount[op]: how many values op pops, or q for an instruction that is not implemented. */
  datatype PopCount = Pops(n: nat) | Unimplemented

  /**
   * What a program reads but never changes: the popCount table, the
   * Hinter's scale, the font's scale function (Font.scale) and its cvt table.
   */
  datatype Env = Env(popCount: byte -> PopCount, scale: int32, fontScale: int32 -> int32, cvt: seq<byte>)

  /** callStackEntry: the caller's program and pc, and the loop count of a LOOPCALL. */
  datatype Frame = Frame(program: seq<byte>, pc: int, loopCount: int32)

  /** The fixed capacity of run's call stack. */
  const MaxCallDepth: nat := 32

  /** The 100000th step of run fails. */
  const StepLimit: nat := 100000

  /** Programs longer than this are refused. */
  const MaxProgramLength: nat := 50000

  /**
   * Everything run reads and writes: the stack buffer and its top, the
   * store, the function table, the graphics state, the points, the glyph's
   * contour ends, the program being run with its pc, the call stack and the
   * number of steps taken.
   */
  datatype Machine = Machine(
    stack: seq<int32>, top: nat, store: seq<int32>, functions: map<int32, seq<byte>>,
    gs: GraphicsState, points: Points, ends: seq<int>,
    program: seq<byte>, pc: int, calls: seq<Frame>, steps: nat)

  predicate Inv(m: Machine)
  {
    m.top <= |m.stack| && |m.calls| <= MaxCallDepth
  }

  /** The errors run returns, and Panic for a Go run-time panic (index out of range, nil pointer, division by zero). */
  datatype HintError =
    | TooManyInstructions | TooManySteps | UnimplementedInstruction | StackUnderflow | StackOverflow
    | InvalidData | CallStackOverflow | UndefinedFunction | UnbalancedFdef | NestedFdef | CallStackUnderflow
    | PointOutOfRange | DivisionByZero | UnsupportedIdef | UnimplementedTwilight | UnrecognizedInstruction
    | UnbalancedIfElse | InsufficientData
    | Panic

  /** The result of one instruction, or of part of one. */
  datatype Outcome = Next(m: Machine) | Halt(e: HintError)

  // ---------------------------------------------------------------------------
  // move

  /** Go's flags | bit for one of the touched bits. */
  function SetFlag(f: uint32, bit: nat): (r: uint32)
    requires bit == FlagTouchedX || bit == FlagTouchedY
    ensures HasBit(r, bit)
  {
    if HasBit(f, bit) then f
    else
      SetBitAdds(f, bit);
      f + bit
  }

  /** Adding a clear bit sets it and stays within 32 bits. */
  lemma SetBitAdds(f: uint32, bit: nat)
    requires bit == FlagTouchedX || bit == FlagTouchedY
    requires !HasBit(f, bit)
    ensures f + bit < 0x1_0000_0000 && HasBit(f + bit, bit)
  {
    var q := f / bit;
    assert f == q * bit + f % bit;
    assert (f + bit) / bit == q + 1 by {
      assert f + bit == (q + 1) * bit + f % bit;
    }
    assert q % 2 == 0;
    assert q < 0x1_0000_0000 / bit by {
      assert q * bit <= f;
    }
  }

  /**
   * move: along y when fv's x is zero, along x when fv's y is zero, and
   * otherwise along fv scaled by distance / (fv·pv) — None when that dot
   * product is zero, a division by zero.
   */
  function MovedPoint(gs: GraphicsState, p: Point, distance: int32): (r: Option<Point>)
    ensures gs.fv.x == 0 ==> r == Some(p.(y := Int32(p.y + distance), flags := SetFlag(p.flags, FlagTouchedY)))
    ensures gs.fv.x != 0 && gs.fv.y == 0 ==> r == Some(p.(x := Int32(p.x + distance), flags := SetFlag(p.flags, FlagTouchedX)))
  {
    if gs.fv.x == 0 then Some(p.(y := Int32(p.y + distance), flags := SetFlag(p.flags, FlagTouchedY)))
    else if gs.fv.y == 0 then Some(p.(x := Int32(p.x + distance), flags := SetFlag(p.flags, FlagTouchedX)))
    else
      var fvDotPv := FvDotPv(gs);
      if fvDotPv == 0 then None
      else
        var dx := Int32(Quot(distance * gs.fv.x, fvDotPv));
        var dy := Int32(Quot(distance * gs.fv.y, fvDotPv));
        Some(TrueTypeGlyph.Point(Int32(p.x + dx), Int32(p.y + dy), SetFlag(SetFlag(p.flags, FlagTouchedX), FlagTouchedY)))
  }

  /** (fv·pv) >> 14 in 64 bits. */
  function FvDotPv(gs: GraphicsState): int
  {
    (gs.fv.x * gs.pv.x + gs.fv.y * gs.pv.y) / 0x4000
  }

  /** h.move(p, distance) on the point r; None for the division by zero. */
  function Move(gs: GraphicsState, ps: Points, r: PointRef, distance: int32): (o: Option<Points>)
    requires ValidRef(ps, r)
    ensures o.Some? <==> MovedPoint(gs, Read(ps, r), distance).Some?
    ensures o.Some? ==> o.value == Write(ps, r, MovedPoint(gs, Read(ps, r), distance).value)
  {
    match MovedPoint(gs, Read(ps, r), distance)
    case None => None
    case Some(p) => Some(Write(ps, r, p))
  }

  // ---------------------------------------------------------------------------
  // cvt and round

  /** The scaled 26.6 value of the cvt entry whose bytes start at j. */
  function CvtEntry(env: Env, j: nat): int32
    requires j + 2 <= |env.cvt|
  {
    env.fontScale(Int32(env.scale * Int16(BE16(env.cvt, j))))
  }

  /**
   * cvt as written: the index is doubled in int32 before the range test,
   * and the test lets through an index at (or one byte before) the end of
   * the table, whose read then panics (None).
   */
  function CvtAsWritten(env: Env, i: int32): (r: Option<int32>)
    ensures var j := Int32(i * 2); 0 <= j && j + 2 <= |env.cvt| ==> r == Some(CvtEntry(env, j))
  {
    var j := Int32(i * 2);
    if j < 0 || |env.cvt| < j then Some(0)
    else if j + 2 > |env.cvt| then None
    else Some(CvtEntry(env, j))
  }

  /** cvt as intended: entry i when the table holds it, 0 for any other index. */
  function Cvt(env: Env, i: int32): (r: int32)
    ensures 0 <= i && 2 * i + 2 <= |env.cvt| ==> r == CvtEntry(env, 2 * i)
    ensures !(0 <= i && 2 * i + 2 <= |env.cvt|) ==> r == 0
  {
    if i < 0 || |env.cvt| < 2 * i + 2 then 0 else CvtEntry(env, 2 * i)
  }

  /** Every entry the table holds (below index 2^30, where doubling cannot wrap) reads the same through both. */
  lemma CvtAgrees(env: Env, i: int32)
    requires 0 <= i < 0x4000_0000 && 2 * i + 2 <= |env.cvt|
    ensures CvtAsWritten(env, i) == Some(Cvt(env, i))
  {
    assert Int32(i * 2) == 2 * i;
  }

  /** A one-entry table: index 1 passes cvt's test and its read panics; the intended cvt gives 0. */
  lemma CvtPastEndPanics(env: Env)
    requires |env.cvt| == 2
    ensures CvtAsWritten(env, 1).None?
    ensures Cvt(env, 1) == 0
  {
  }

  /** Index −0x7fff_ffff doubles to 2 in int32, so cvt as written reads entry 1 for it; the intended cvt gives 0. */
  lemma CvtNegativeIndexWraps(env: Env)
    requires |env.cvt| >= 4
    ensures CvtAsWritten(env, -0x7fff_ffff) == Some(CvtEntry(env, 2))
    ensures Cvt(env, -0x7fff_ffff) == 0
  {
    assert Int32(-0x7fff_ffff * 2) == 2;
  }

  /** round with the graphics state's rounding period, phase and threshold. */
  function RoundGs(gs: GraphicsState, x: int32): (r: int32)
    ensures gs.roundPeriod == 0 ==> r == x
  {
    Round(gs.roundPeriod, gs.roundPhase, gs.roundThreshold, x)
  }
}
