/**
 * Hinter.init of freetype/truetype/hint.go on values: the twilight zone is
 * reset, a new font gets empty function definitions, buffers large enough
 * for its maxp limits and a run of its font program, and a new font or
 * scale gets the default graphics state and a run of the control value
 * program, whose graphics state becomes the default for glyph programs.
 */
module HintInit {
  import opened Ints
  import opened TrueTypeGlyph
  import opened HintArith
  import opened HintState
  import opened HintSpec

  /**
   * What the Hinter uses of a Font: its identity, the maxp limits, the
   * fpgm, prep and cvt tables, and Font.scale, which is not part of this
   * model and is a parameter.
   */
  datatype HintFont = HintFont(id: nat, maxTwilightPoints: uint16, maxStackElements: uint16, maxStorage: uint16,
                               fpgm: seq<byte>, prep: seq<byte>, cvt: seq<byte>, fontScale: int32 -> int32)

  /** The fields of a Hinter, with its stack and store buffers as sequences. */
  datatype HinterState = HinterState(stack: seq<int32>, store: seq<int32>, functions: map<int32, seq<byte>>,
                                     font: Option<HintFont>, scale: int32, gs: GraphicsState, defaultGS: GraphicsState,
                                     points: Points, ends: seq<int>)

  /** What run and init end with: the new state, or the error (after which the state is not specified). */
  datatype StateResult = Done(h: HinterState) | Error(e: HintError)

  /** resetTwilightPoints: maxTwilightPoints + 4 zero points, in each of the three forms. */
  function TwilightReset(f: HintFont): (z: Zone)
    ensures |z.current| == |z.unhinted| == |z.inFontUnits| == f.maxTwilightPoints + 4
  {
    var zeros := seq(f.maxTwilightPoints + 4, _ => Point(0, 0, 0));
    Zone(zeros, zeros, zeros)
  }

  /** Go's (x + 255) &^ 255: x rounded up to a multiple of 256, clearing the low eight bits of a non-negative int. */
  function StackCapacity(x: nat): nat
  {
    (x + 255) - (x + 255) % 256
  }

  /** Go's (x + 15) &^ 15: x rounded up to a multiple of 16. */
  function StoreCapacity(x: nat): nat
  {
    (x + 15) - (x + 15) % 16
  }

  lemma CapacitiesRoundUp(x: nat)
    ensures x <= StackCapacity(x) < x + 256 && StackCapacity(x) % 256 == 0
    ensures x <= StoreCapacity(x) < x + 16 && StoreCapacity(x) % 16 == 0
  {
  }

  /** A Hinter holding a different font (by identity) than f, or none. */
  predicate NewFont(h: HinterState, f: HintFont)
  {
    h.font.None? || h.font.value.id != f.id
  }

  /** The Env a run of the Hinter works in. */
  function EnvOf(popCount: byte -> PopCount, h: HinterState): Env
    requires h.font.Some?
  {
    Env(popCount, h.scale, h.font.value.fontScale, h.font.value.cvt)
  }

  /**
   * run(program, current, unhinted, inFontUnits, ends) on a Hinter: the
   * glyph zone and contour ends are installed and the program runs as
   * HintSpec.Run says; what it finishes with is the Hinter's new state.
   */
  function RunOn(popCount: byte -> PopCount, h: HinterState, program: seq<byte>, glyph: Zone, ends: seq<int>): (r: StateResult)
    requires h.font.Some?
    ensures r.Done? ==> |r.h.stack| == |h.stack| && |r.h.store| == |h.store|
    ensures r.Done? ==> r.h.font == h.font && r.h.scale == h.scale && r.h.defaultGS == h.defaultGS
    ensures |program| > MaxProgramLength ==> r == Error(TooManyInstructions)
  {
    var m := Begin(h.stack, h.store, h.functions, h.defaultGS, h.points.(glyph := glyph), ends, program);
    match HintSpec.Run(EnvOf(popCount, h), m)
    case Failed(e) => Error(e)
    case Finished(m') =>
      Done(h.(stack := m'.stack, store := m'.store, functions := m'.functions, gs := m'.gs, points := m'.points, ends := m'.ends))
  }

  /** init runs the fpgm and prep programs as run(program, nil, nil, nil, nil): no glyph points and no contours. */
  function RunProgram(popCount: byte -> PopCount, h: HinterState, program: seq<byte>): (r: StateResult)
    requires h.font.Some?
  {
    RunOn(popCount, h, program, Zone([], [], []), [])
  }

  /** A new font: its identity, no function definitions, and buffers grown (never shrunk) to its maxp limits. */
  function LoadFont(h: HinterState, f: HintFont): (h': HinterState)
  {
    h.(font := Some(f), functions := map[],
       stack := if f.maxStackElements > |h.stack| then seq(StackCapacity(f.maxStackElements), _ => 0) else h.stack,
       store := if f.maxStorage > |h.store| then seq(StoreCapacity(f.maxStorage), _ => 0) else h.store)
  }

  /**
   * The default graphics state the prep program leaves: its graphics state,
   * except that the vectors, reference points, zone pointers and loop count
   * are the global defaults.
   */
  function PrepDefault(gs: GraphicsState): GraphicsState
  {
    var g := GlobalDefaultGS;
    gs.(pv := g.pv, fv := g.fv, dv := g.dv, rp := g.rp, zp := g.zp, loop := g.loop)
  }

  /**
   * init's first half: the twilight zone is reset, and a new font is loaded
   * and its font program, if any, run at the old scale.
   */
  function InitFont(popCount: byte -> PopCount, h: HinterState, f: HintFont): (r: StateResult)
    ensures r.Done? ==> r.h.font.Some? && r.h.font.value.id == f.id && r.h.scale == h.scale
    ensures !NewFont(h, f) ==> r == Done(h.(points := h.points.(twilight := TwilightReset(f))))
  {
    var h1 := h.(points := h.points.(twilight := TwilightReset(f)));
    if !NewFont(h, f) then Done(h1)
    else
      var h2 := LoadFont(h1, f);
      if |f.fpgm| == 0 then Done(h2) else RunProgram(popCount, h2, f.fpgm)
  }

  /**
   * init's second half, when the font or the scale changed: the new scale,
   * the global default graphics state, and a run of the control value
   * program, whose graphics state becomes the default.
   */
  function InitScale(popCount: byte -> PopCount, h: HinterState, f: HintFont, scale: int32, rescale: bool): (r: StateResult)
    requires h.font.Some?
    ensures r.Done? ==> r.h.font == h.font && r.h.scale == (if rescale then scale else h.scale)
    ensures !rescale ==> r == Done(h)
  {
    if !rescale then Done(h)
    else
      var h4 := h.(scale := scale, defaultGS := GlobalDefaultGS);
      if |f.prep| == 0 then Done(h4)
      else
        match RunProgram(popCount, h4, f.prep)
        case Error(e) => Error(e)
        case Done(h5) => Done(h5.(defaultGS := PrepDefault(h5.gs)))
  }

  /** init(f, scale). */
  function InitSpec(popCount: byte -> PopCount, h: HinterState, f: HintFont, scale: int32): StateResult
  {
    match InitFont(popCount, h, f)
    case Error(e) => Error(e)
    case Done(h3) => InitScale(popCount, h3, f, scale, NewFont(h, f) || h.scale != scale)
  }

  /** After init the Hinter holds f (by identity) at the requested scale. */
  lemma InitHoldsFontAndScale(popCount: byte -> PopCount, h: HinterState, f: HintFont, scale: int32)
    requires InitSpec(popCount, h, f, scale).Done?
    ensures var h' := InitSpec(popCount, h, f, scale).h;
            h'.font.Some? && h'.font.value.id == f.id && h'.scale == scale
  {
  }

  /**
   * A new font's buffers hold at least its maxp limits: grown ones are
   * rounded up to a multiple of 256 (stack) or 16 (store), and smaller
   * limits keep the old buffers.
   */
  lemma InitCapacity(popCount: byte -> PopCount, h: HinterState, f: HintFont, scale: int32)
    requires NewFont(h, f) && InitSpec(popCount, h, f, scale).Done?
    ensures var h' := InitSpec(popCount, h, f, scale).h;
            f.maxStackElements <= |h'.stack| && f.maxStorage <= |h'.store| &&
            (|h'.stack| == |h.stack| || |h'.stack| % 256 == 0) &&
            (|h'.store| == |h.store| || |h'.store| % 16 == 0)
  {
    CapacitiesRoundUp(f.maxStackElements);
    CapacitiesRoundUp(f.maxStorage);
  }

  /**
   * Whenever init sets the default graphics state (a new font or scale),
   * the control value program cannot change its vectors, reference
   * points, zone pointers or loop count.
   */
  lemma InitDefaultGS(popCount: byte -> PopCount, h: HinterState, f: HintFont, scale: int32)
    requires NewFont(h, f) || h.scale != scale
    requires InitSpec(popCount, h, f, scale).Done?
    ensures var d := InitSpec(popCount, h, f, scale).h.defaultGS;
            d.pv == XAxis && d.fv == XAxis && d.dv == XAxis && d.rp == Trio(0, 0, 0) && d.zp == Trio(1, 1, 1) && d.loop == 1
  {
  }

  /** The same font at the same scale: only the twilight zone is reset, and no program runs. */
  lemma InitSameFontAndScale(popCount: byte -> PopCount, h: HinterState, f: HintFont, scale: int32)
    requires !NewFont(h, f) && h.scale == scale
    ensures InitSpec(popCount, h, f, scale) == Done(h.(points := h.points.(twilight := TwilightReset(f))))
  {
  }

  /** A new font without a font program starts with no function definitions. */
  lemma InitNoFpgmNoFunctions(popCount: byte -> PopCount, h: HinterState, f: HintFont, scale: int32)
    requires NewFont(h, f) && |f.fpgm| == 0 && |f.prep| == 0
    ensures InitSpec(popCount, h, f, scale).Done? && InitSpec(popCount, h, f, scale).h.functions == map[]
  {
  }
}
