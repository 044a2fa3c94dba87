/**
 * What one instruction of the TrueType bytecode interpreter does
 * (freetype/truetype/hint.go, run), as a function from a machine to the
 * next machine or an error, and the run of a whole program as the
 * iteration of that function under the step limit.
 *
 * The instructions are grouped as the Hinter's methods group them: the
 * vector setters, the graphics-state setters that pop one value, the
 * rounding-mode and other setters that pop nothing, the stack
 * instructions, the unary and binary arithmetic, the flow of control, the
 * pushes and the point instructions.
 */
module HintSpec {
  import opened Ints
  import opened HintArith
  import opened HintState
  import opened HintIup

  predicate IsRound(op: byte) { OpROUND00 <= op <= OpROUND11 }
  predicate IsNround(op: byte) { OpNROUND00 <= op <= OpNROUND11 }
  predicate IsMdrp(op: byte) { OpMDRP00000 <= op <= OpMDRP11111 }
  predicate IsMirp(op: byte) { OpMIRP00000 <= op }

  datatype OpGroup =
    | VectorGroup | StateGroup | ModeGroup | StackGroup | UnaryGroup | BinaryGroup
    | FlowGroup | PushGroup | PointGroup | NoGroup

  /** The instruction families of run's switch; NoGroup for the opcodes it does not recognise. */
  function GroupOf(op: byte): OpGroup
  {
    if op <= OpSFVTCA1 || OpSPVFS <= op <= OpSFVTPV then VectorGroup
    else if OpSRP0 <= op <= OpSLOOP || op == OpSMD || OpSCVTCI <= op <= OpSSW || op == OpPOP
         || op == OpSDB || op == OpSDS || op == OpSROUND || op == OpS45ROUND
         || op == OpSANGW || op == OpAA || op == OpSCANCTRL || op == OpSCANTYPE then StateGroup
    else if op == OpRTG || op == OpRTHG || op == OpRTDG || op == OpROFF || op == OpRUTG || op == OpRDTG
         || op == OpFLIPON || op == OpFLIPOFF || op == OpDEBUG || op == OpEIF || IsNround(op) then ModeGroup
    else if op == OpDUP || op == OpCLEAR || op == OpSWAP || op == OpDEPTH || op == OpCINDEX || op == OpMINDEX
         || op == OpROLL || op == OpMPPEM || op == OpMPS || op == OpWS || op == OpRS then StackGroup
    else if op == OpNOT || op == OpABS || op == OpNEG || op == OpFLOOR || op == OpCEILING || IsRound(op)
         || op == OpODD || op == OpEVEN || op == OpGETINFO then UnaryGroup
    else if OpLT <= op <= OpNEQ || op == OpAND || op == OpOR || OpADD <= op <= OpMUL
         || op == OpMAX || op == OpMIN then BinaryGroup
    else if op == OpELSE || op == OpJMPR || op == OpJROT || op == OpJROF || op == OpIF || op == OpLOOPCALL
         || op == OpCALL || op == OpFDEF || op == OpENDF || op == OpIDEF then FlowGroup
    else if op == OpNPUSHB || op == OpNPUSHW || IsPushB(op) || IsPushW(op) then PushGroup
    else if op == OpMDAP0 || op == OpMDAP1 || op == OpIUP0 || op == OpIUP1 || op == OpIP || op == OpALIGNRP
         || op == OpMIAP0 || op == OpMIAP1 || IsMdrp(op) || IsMirp(op) then PointGroup
    else NoGroup
  }

  /**
   * What every instruction keeps: the machine invariant, the capacity of
   * the stack and of the store, and the step count.
   */
  predicate Keeps(m: Machine, o: Outcome)
  {
    o.Next? ==> Inv(o.m) && |o.m.stack| == |m.stack| && |o.m.store| == |m.store| && o.m.steps == m.steps
  }

  /** The instruction is done: go on with the next one. */
  function Advance(m: Machine): Outcome
  {
    Next(m.(pc := m.pc + 1))
  }

  // ---------------------------------------------------------------------------
  // Vectors

  function VectorStep(m: Machine, op: byte): (o: Outcome)
    requires Inv(m) && GroupOf(op) == VectorGroup
    ensures Keeps(m, o)
  {
    var gs := m.gs;
    if op == OpSVTCA0 then Advance(m.(gs := gs.(pv := YAxis, fv := YAxis, dv := YAxis)))
    else if op == OpSVTCA1 then Advance(m.(gs := gs.(pv := XAxis, fv := XAxis, dv := XAxis)))
    else if op == OpSPVTCA0 then Advance(m.(gs := gs.(pv := YAxis, dv := YAxis)))
    else if op == OpSPVTCA1 then Advance(m.(gs := gs.(pv := XAxis, dv := XAxis)))
    else if op == OpSFVTCA0 then Advance(m.(gs := gs.(fv := YAxis)))
    else if op == OpSFVTCA1 then Advance(m.(gs := gs.(fv := XAxis)))
    else if op == OpSPVFS || op == OpSFVFS then
      if m.top < 2 then Halt(Panic)
      else
        var t := m.top - 2;
        var v := Vec(F2Dot14(m.stack[t]), F2Dot14(m.stack[t + 1]));
        Advance(m.(top := t, gs := if op == OpSPVFS then gs.(pv := v) else gs.(fv := v)))
    else if op == OpSFVTPV then Advance(m.(gs := gs.(fv := gs.pv)))
    else
      // GPV, GFV
      if m.top + 1 >= |m.stack| then Halt(StackOverflow)
      else
        var v := if op == OpGPV then gs.pv else gs.fv;
        Advance(m.(stack := m.stack[m.top := v.x][m.top + 1 := v.y], top := m.top + 2))
  }

  // ---------------------------------------------------------------------------
  // Graphics-state setters

  /**
   * The graphics state after a setter that pops v; None when SLOOP's count
   * is not positive. POP and the instructions the interpreter ignores
   * (SANGW, AA, SCANCTRL, SCANTYPE) keep it.
   */
  function SetState(env: Env, gs: GraphicsState, op: byte, v: int32): Option<GraphicsState>
    requires GroupOf(op) == StateGroup
  {
    if OpSRP0 <= op <= OpSRP2 then Some(gs.(rp := gs.rp.With(op - OpSRP0, v)))
    else if OpSZP0 <= op <= OpSZP2 then Some(gs.(zp := gs.zp.With(op - OpSZP0, v)))
    else if op == OpSZPS then Some(gs.(zp := Trio(v, v, v)))
    else if op == OpSLOOP then (if v <= 0 then None else Some(gs.(loop := v)))
    else if op == OpSMD then Some(gs.(minDist := v))
    else if op == OpSCVTCI then Some(gs.(controlValueCutIn := v))
    else if op == OpSSWCI then Some(gs.(singleWidthCutIn := v))
    else if op == OpSSW then Some(gs.(singleWidth := env.fontScale(Int32(env.scale * v))))
    else if op == OpSDB then Some(gs.(deltaBase := v))
    else if op == OpSDS then Some(gs.(deltaShift := v))
    else if op == OpSROUND || op == OpS45ROUND then
      var p := SroundPeriod(v, op == OpS45ROUND);
      Some(gs.(roundPeriod := p, roundPhase := SroundPhase(p, v), roundThreshold := SroundThreshold(p, v)))
    else Some(gs)
  }

  function StateStep(env: Env, m: Machine, op: byte): (o: Outcome)
    requires Inv(m) && GroupOf(op) == StateGroup
    ensures Keeps(m, o)
  {
    if m.top < 1 then Halt(Panic)
    else
      match SetState(env, m.gs, op, m.stack[m.top - 1])
      case None => Halt(InvalidData)
      case Some(gs) => Advance(m.(top := m.top - 1, gs := gs))
  }

  /** The rounding modes (grid, half grid, double grid, off, up, down) and auto-flip; the rest pop nothing and change nothing. */
  function ModeState(gs: GraphicsState, op: byte): GraphicsState
    requires GroupOf(op) == ModeGroup
  {
    if op == OpRTG then gs.(roundPeriod := 64, roundPhase := 0, roundThreshold := 32)
    else if op == OpRTHG then gs.(roundPeriod := 64, roundPhase := 32, roundThreshold := 32)
    else if op == OpRTDG then gs.(roundPeriod := 32, roundPhase := 0, roundThreshold := 16)
    else if op == OpROFF then gs.(roundPeriod := 0, roundPhase := 0, roundThreshold := 0)
    else if op == OpRUTG then gs.(roundPeriod := 64, roundPhase := 0, roundThreshold := 63)
    else if op == OpRDTG then gs.(roundPeriod := 64, roundPhase := 0, roundThreshold := 0)
    else if op == OpFLIPON || op == OpFLIPOFF then gs.(autoFlip := op == OpFLIPON)
    else gs
  }

  // ---------------------------------------------------------------------------
  // The stack

  /** MINDEX: the element x below the top is removed from its place and pushed, and the index is popped. */
  function Mindexed(s: seq<int32>, top: nat, x: nat): seq<int32>
    requires 0 < x < top <= |s|
  {
    s[..top - 1 - x] + s[top - x..top - 1] + [s[top - 1 - x], s[top - 1 - x]] + s[top..]
  }

  /** ROLL: the third element from the top moves to the top. */
  function Rolled(s: seq<int32>, top: nat): seq<int32>
    requires 3 <= top <= |s|
  {
    s[top - 3 := s[top - 2]][top - 2 := s[top - 1]][top - 1 := s[top - 3]]
  }

  function StackStep(env: Env, m: Machine, op: byte): (o: Outcome)
    requires Inv(m) && GroupOf(op) == StackGroup
    ensures Keeps(m, o)
  {
    var top := m.top;
    if op == OpDUP then
      if top >= |m.stack| then Halt(StackOverflow)
      else if top < 1 then Halt(Panic)
      else Advance(m.(stack := m.stack[top := m.stack[top - 1]], top := top + 1))
    else if op == OpCLEAR then Advance(m.(top := 0))
    else if op == OpSWAP then
      if top < 2 then Halt(Panic)
      else Advance(m.(stack := m.stack[top - 1 := m.stack[top - 2]][top - 2 := m.stack[top - 1]]))
    else if op == OpDEPTH then
      if top >= |m.stack| then Halt(StackOverflow)
      else Advance(m.(stack := m.stack[top := Int32(top)], top := top + 1))
    else if op == OpCINDEX || op == OpMINDEX then
      if top < 1 then Halt(Panic)
      else
        var x := m.stack[top - 1];
        if x <= 0 || x >= top then Halt(InvalidData)
        else if op == OpCINDEX then Advance(m.(stack := m.stack[top - 1 := m.stack[top - 1 - x]]))
        else Advance(m.(stack := Mindexed(m.stack, top, x), top := top - 1))
    else if op == OpROLL then
      if top < 3 then Halt(Panic) else Advance(m.(stack := Rolled(m.stack, top)))
    else if op == OpMPPEM || op == OpMPS then
      if top >= |m.stack| then Halt(StackOverflow)
      else Advance(m.(stack := m.stack[top := env.scale / 64], top := top + 1))
    else if op == OpWS then
      if top < 2 then Halt(Panic)
      else
        var i := m.stack[top - 2];
        if i < 0 || |m.store| <= i then Halt(InvalidData)
        else Advance(m.(store := m.store[i := m.stack[top - 1]], top := top - 2))
    else
      // RS
      if top < 1 then Halt(Panic)
      else
        var i := m.stack[top - 1];
        if i < 0 || |m.store| <= i then Halt(InvalidData)
        else Advance(m.(stack := m.stack[top - 1 := m.store[i]]))
  }

  // ---------------------------------------------------------------------------
  // Arithmetic

  /** The value that replaces the top of the stack x. */
  function UnaryValue(gs: GraphicsState, op: byte, x: int32): int32
    requires GroupOf(op) == UnaryGroup
  {
    if op == OpNOT then Bool2Int32(x == 0)
    else if op == OpABS then Abs26(x)
    else if op == OpNEG then Int32(-(x as int))
    else if op == OpFLOOR then FloorTo32(x)
    else if op == OpCEILING then FloorTo32(Int32(x + 63))
    else if IsRound(op) then RoundGs(gs, x)
    else if op == OpODD || op == OpEVEN then
      var parity := (RoundGs(gs, x) / 64) % 2;
      if op == OpODD then parity else 1 - parity
    else
      // GETINFO: engine version 35, and grayscale support
      (if HasBit(x, 1) then 35 else 0) + (if HasBit(x, 32) then 0x1000 else 0)
  }

  /** x &^ 63 on an int32, which stays an int32. */
  function FloorTo32(x: int32): (r: int32)
    ensures r == FloorTo(x, 64)
  {
    FloorStaysInt32(x, 64, 0x200_0000);
    FloorTo(x, 64)
  }

  /** The value that replaces the two top elements a (below) and b (on top); None for a division by zero. */
  function BinaryValue(op: byte, a: int32, b: int32): Option<int32>
    requires GroupOf(op) == BinaryGroup
  {
    if op == OpLT then Some(Bool2Int32(a < b))
    else if op == OpLTEQ then Some(Bool2Int32(a <= b))
    else if op == OpGT then Some(Bool2Int32(a > b))
    else if op == OpGTEQ then Some(Bool2Int32(a >= b))
    else if op == OpEQ then Some(Bool2Int32(a == b))
    else if op == OpNEQ then Some(Bool2Int32(a != b))
    else if op == OpAND then Some(Bool2Int32(a != 0 && b != 0))
    else if op == OpOR then Some(Bool2Int32(a != 0 || b != 0))
    else if op == OpADD then Some(Int32(a + b))
    else if op == OpSUB then Some(Int32(a - b))
    else if op == OpDIV then (if b == 0 then None else Some(Div26(a, b)))
    else if op == OpMUL then Some(Mul26(a, b))
    else if op == OpMAX then Some(if a < b then b else a)
    else Some(if a > b then b else a)
  }

  function UnaryStep(m: Machine, op: byte): (o: Outcome)
    requires Inv(m) && GroupOf(op) == UnaryGroup
    ensures Keeps(m, o)
  {
    if m.top < 1 then Halt(Panic)
    else Advance(m.(stack := m.stack[m.top - 1 := UnaryValue(m.gs, op, m.stack[m.top - 1])]))
  }

  function BinaryStep(m: Machine, op: byte): (o: Outcome)
    requires Inv(m) && GroupOf(op) == BinaryGroup
    ensures Keeps(m, o)
  {
    if m.top < 2 then Halt(Panic)
    else
      match BinaryValue(op, m.stack[m.top - 2], m.stack[m.top - 1])
      case None => Halt(DivisionByZero)
      case Some(v) => Advance(m.(stack := m.stack[m.top - 2 := v], top := m.top - 1))
  }

  // ---------------------------------------------------------------------------
  // Flow of control

  /**
   * The skip after a false IF (fromIf) or an ELSE: the position of the ELSE
   * (from an IF only) or EIF that closes the construct, with nested IFs
   * counted by depth and push payloads skipped; None when the program ends
   * first or a push has no count byte.
   */
  function IfElseEnd(program: seq<byte>, pc: nat, depth: int, fromIf: bool): (r: Option<nat>)
    ensures r.Some? ==> pc < r.value < |program|
    ensures r.Some? ==> program[r.value] == OpEIF || (fromIf && program[r.value] == OpELSE)
    decreases |program| - pc
  {
    var p := pc + 1;
    if p >= |program| then None
    else
      var op := program[p];
      if op == OpIF then IfElseEnd(program, p, depth + 1, fromIf)
      else if op == OpELSE then (if depth == 0 && fromIf then Some(p) else IfElseEnd(program, p, depth, fromIf))
      else if op == OpEIF then (if depth - 1 < 0 then Some(p) else IfElseEnd(program, p, depth - 1, fromIf))
      else
        var (np, ok) := SkipInstructionPayload(program, p);
        if !ok then None else IfElseEnd(program, np, depth, fromIf)
  }

  function SkipBranch(m: Machine, fromIf: bool): (o: Outcome)
    requires Inv(m) && 0 <= m.pc
    ensures Keeps(m, o)
  {
    match IfElseEnd(m.program, m.pc, 0, fromIf)
    case None => Halt(UnbalancedIfElse)
    case Some(q) => Next(m.(pc := q + 1))
  }

  /** Where FDEF's scan for ENDF stopped. */
  datatype FdefScan = EndfAt(q: nat) | NestedDef | Unbalanced

  /** The ENDF that closes the FDEF at pc, skipping push payloads; a nested FDEF is refused. */
  function FdefEnd(program: seq<byte>, pc: nat): (r: FdefScan)
    ensures r.EndfAt? ==> pc < r.q < |program| && program[r.q] == OpENDF
    decreases |program| - pc
  {
    var p := pc + 1;
    if p >= |program| then Unbalanced
    else if program[p] == OpFDEF then NestedDef
    else if program[p] == OpENDF then EndfAt(p)
    else
      var (np, ok) := SkipInstructionPayload(program, p);
      if !ok then Unbalanced else FdefEnd(program, np)
  }

  function FlowStep(m: Machine, op: byte): (o: Outcome)
    requires Inv(m) && 0 <= m.pc < |m.program| && GroupOf(op) == FlowGroup
    ensures Keeps(m, o)
  {
    var top := m.top;
    if op == OpELSE then SkipBranch(m, false)
    else if op == OpIF then
      if top < 1 then Halt(Panic)
      else if m.stack[top - 1] == 0 then SkipBranch(m.(top := top - 1), true)
      else Advance(m.(top := top - 1))
    else if op == OpJMPR then
      if top < 1 then Halt(Panic) else Next(m.(top := top - 1, pc := m.pc + m.stack[top - 1]))
    else if op == OpJROT || op == OpJROF then
      if top < 2 then Halt(Panic)
      else
        var jump := if op == OpJROT then m.stack[top - 1] != 0 else m.stack[top - 1] == 0;
        if jump then Next(m.(top := top - 2, pc := m.pc + m.stack[top - 2])) else Advance(m.(top := top - 2))
    else if op == OpCALL || op == OpLOOPCALL then CallStep(m, op)
    else if op == OpFDEF then
      match FdefEnd(m.program, m.pc)
      case Unbalanced => Halt(UnbalancedFdef)
      case NestedDef => Halt(NestedFdef)
      case EndfAt(q) =>
        if top < 1 then Halt(Panic)
        else Advance(m.(top := top - 1, functions := m.functions[m.stack[top - 1] := m.program[m.pc + 1..q + 1]], pc := q))
    else if op == OpENDF then EndfStep(m)
    else Halt(UnsupportedIdef)
  }

  /** CALL and LOOPCALL: push a frame returning here and run the function from its start; a loop count of 0 calls nothing. */
  function CallStep(m: Machine, op: byte): (o: Outcome)
    requires Inv(m) && (op == OpCALL || op == OpLOOPCALL)
    ensures Keeps(m, o)
  {
    if |m.calls| >= MaxCallDepth then Halt(CallStackOverflow)
    else if m.top < 1 then Halt(Panic)
    else
      var t := m.top - 1;
      var fn := m.stack[t];
      if fn !in m.functions then Halt(UndefinedFunction)
      else if op == OpLOOPCALL then
        if t < 1 then Halt(Panic)
        else
          var count := m.stack[t - 1];
          if count == 0 then Advance(m.(top := t - 1))
          else Next(m.(top := t - 1, calls := m.calls + [Frame(m.program, m.pc, count)], program := m.functions[fn], pc := 0))
      else Next(m.(top := t, calls := m.calls + [Frame(m.program, m.pc, 1)], program := m.functions[fn], pc := 0))
  }

  /** ENDF: run the function again while the frame's loop count lasts, and then return after the call. */
  function EndfStep(m: Machine): (o: Outcome)
    requires Inv(m)
    ensures Keeps(m, o)
  {
    if |m.calls| == 0 then Halt(CallStackUnderflow)
    else
      var f := m.calls[|m.calls| - 1];
      var rest := m.calls[..|m.calls| - 1];
      var count := Int32(f.loopCount - 1);
      if count != 0 then Next(m.(calls := rest + [f.(loopCount := count)], pc := 0))
      else Advance(m.(calls := rest, program := f.program, pc := f.pc))
  }

  // ---------------------------------------------------------------------------
  // Pushes

  /** The count of values a one-byte PUSHB[n] or PUSHW[n] pushes: n + 1. */
  function PushCount(op: byte): (r: nat)
    requires IsPushB(op) || IsPushW(op)
    ensures 1 <= r <= 8
  {
    if IsPushB(op) then op - OpPUSHB000 + 1 else op - OpPUSHW000 + 1
  }

  /** The count values starting at program[start]: zero-extended bytes, or sign-extended big-endian words. */
  function PushedValues(program: seq<byte>, start: nat, wide: bool, count: nat): (r: seq<int32>)
    requires start + (if wide then 2 else 1) * count <= |program|
    ensures |r| == count
  {
    if wide then seq(count, k requires 0 <= k < count => Int8(program[start + 2 * k]) * 256 + program[start + 2 * k + 1])
    else seq(count, k requires 0 <= k < count => program[start + k] as int32)
  }

  /** Push count values of the given width from start: the stack must hold them and the program must contain them. */
  function PushData(m: Machine, wide: bool, count: nat, start: nat): (o: Outcome)
    requires Inv(m)
    ensures Keeps(m, o)
  {
    var width := if wide then 2 else 1;
    if m.top + count > |m.stack| then Halt(StackOverflow)
    else if start + width * count > |m.program| then Halt(InsufficientData)
    else
      Next(m.(stack := m.stack[..m.top] + PushedValues(m.program, start, wide, count) + m.stack[m.top + count..],
              top := m.top + count, pc := start + width * count))
  }

  function PushStep(m: Machine, op: byte): (o: Outcome)
    requires Inv(m) && 0 <= m.pc < |m.program| && GroupOf(op) == PushGroup
    ensures Keeps(m, o)
  {
    var wide := op == OpNPUSHW || IsPushW(op);
    if op == OpNPUSHB || op == OpNPUSHW then
      if m.pc + 1 >= |m.program| then Halt(InsufficientData)
      else PushData(m, wide, m.program[m.pc + 1], m.pc + 2)
    else PushData(m, wide, PushCount(op), m.pc + 1)
  }

  // ---------------------------------------------------------------------------
  // Points

  /** The distance from q to p, both differences taken in int32, projected on v. */
  function Dist(p: Point, q: Point, v: Vec): int32
  {
    DotProduct(Int32(p.x - q.x), Int32(p.y - q.y), v)
  }

  /** h.point(zonePointer, pt, i) in the machine's graphics state and points. */
  function Lookup(m: Machine, zonePointer: nat, pt: PointType, i: int): (r: Lookup)
    requires zonePointer < 3
    ensures r == PointLookup(m.gs.zp, m.points, zonePointer, pt, i)
  {
    PointLookup(m.gs.zp, m.points, zonePointer, pt, i)
  }

  /** h.move(p, distance) in the machine: a panic when the freedom and projection vectors are perpendicular. */
  function MoveIn(m: Machine, r: PointRef, distance: int32): (o: Outcome)
    requires Inv(m) && ValidRef(m.points, r)
    ensures o.Next? <==> Move(m.gs, m.points, r, distance).Some?
    ensures o.Next? ==> o.m == m.(points := Move(m.gs, m.points, r, distance).value)
    ensures o.Halt? ==> o.e == Panic
  {
    match Move(m.gs, m.points, r, distance)
    case None => Halt(Panic)
    case Some(ps) => Next(m.(points := ps))
  }

  /** Move and then go on to the next instruction. */
  function MoveThen(m: Machine, r: PointRef, distance: int32): (o: Outcome)
    requires Inv(m) && ValidRef(m.points, r)
    ensures Keeps(m, o)
  {
    match MoveIn(m, r, distance)
    case Halt(e) => Halt(e)
    case Next(m2) => Advance(m2)
  }

  /** The rp0/rp1 update of MDAP and MIAP. */
  function SetRp01(m: Machine, i: int32): Machine
  {
    m.(gs := m.gs.(rp := Trio(i, i, m.gs.rp.e2)))
  }

  /** MDAP[1]'s move: from the point's projection to its rounded projection; MDAP[0] does not move it. */
  function MoveDirectAbsDistance(gs: GraphicsState, op: byte, p: Point): int32
  {
    if op == OpMDAP1 then
      var d := DotProduct(p.x, p.y, gs.pv);
      Int32(RoundGs(gs, d) - d)
    else 0
  }

  /** MDAP[0] touches point i; MDAP[1] also moves it onto its rounded projection. */
  function MoveDirectAbsStep(m: Machine, op: byte): (o: Outcome)
    requires Inv(m) && (op == OpMDAP0 || op == OpMDAP1)
    ensures Keeps(m, o)
  {
    if m.top < 1 then Halt(Panic)
    else
      var i := m.stack[m.top - 1];
      var m1 := m.(top := m.top - 1);
      match Lookup(m1, 0, Current, i)
      case BadZone => Halt(Panic)
      case Missing => Halt(PointOutOfRange)
      case Found(r) =>
        match MoveIn(m1, r, MoveDirectAbsDistance(m.gs, op, Read(m1.points, r)))
        case Halt(e) => Halt(e)
        case Next(m2) => Advance(SetRp01(m2, i))
  }

  /** The twilight point MIAP creates: the cvt distance along the freedom vector, keeping the unhinted point's flags. */
  function TwilightPoint(gs: GraphicsState, p: Point, distance: int32): Point
  {
    p.(x := Int32(distance * gs.fv.x / 0x4000), y := Int32(distance * gs.fv.y / 0x4000))
  }

  /**
   * MIAP in the twilight zone first places point i at the cvt distance
   * along the freedom vector, in both its unhinted and current forms.
   */
  function MiapTwilight(gs: GraphicsState, ps: Points, i: int32, distance: int32): (r: Option<Points>)
    ensures r.Some? ==> forall q :: ValidRef(ps, q) <==> ValidRef(r.value, q)
    ensures gs.zp.e0 != 0 ==> r == Some(ps)
  {
    if gs.zp.e0 != 0 then Some(ps)
    else
      var lu := PointLookup(gs.zp, ps, 0, Unhinted, i);
      var lc := PointLookup(gs.zp, ps, 0, Current, i);
      if !(lu.Found? && lc.Found?) then None
      else
        var np := TwilightPoint(gs, Read(ps, lu.ref), distance);
        Some(Write(Write(ps, lu.ref, np), lc.ref, np))
  }

  /** MIAP[1] keeps the point where it is when the cvt distance is beyond the cut-in, and rounds. */
  function MiapDistance(gs: GraphicsState, op: byte, distance: int32, oldDist: int32): int32
  {
    if op == OpMIAP1 then
      RoundGs(gs, if Abs26(Int32(distance - oldDist)) > gs.controlValueCutIn then oldDist else distance)
    else distance
  }

  /** How far MIAP moves point p: from its projection to the distance MiapDistance chooses. */
  function MiapMove(gs: GraphicsState, op: byte, distance: int32, p: Point): int32
  {
    var oldDist := DotProduct(p.x, p.y, gs.pv);
    Int32(MiapDistance(gs, op, distance, oldDist) - oldDist)
  }

  /** MIAP: move point i to the cvt distance (rounded and cut in for MIAP[1]) along the projection vector. */
  function MiapStep(env: Env, m: Machine, op: byte): (o: Outcome)
    requires Inv(m) && (op == OpMIAP0 || op == OpMIAP1)
    ensures Keeps(m, o)
  {
    if m.top < 2 then Halt(Panic)
    else
      MiapAt(m.(top := m.top - 2), op, m.stack[m.top - 2], Cvt(env, m.stack[m.top - 1]))
  }

  /** MIAP pops the cvt index and then point i; the rest of it is MiapAt. */
  lemma MiapStepPops(env: Env, m: Machine, op: byte, t: nat, i: int32, distance: int32)
    requires Inv(m) && (op == OpMIAP0 || op == OpMIAP1) && m.top >= 2 && t == m.top - 2
    requires i == m.stack[t] && distance == Cvt(env, m.stack[t + 1])
    ensures MiapStep(env, m, op) == MiapAt(m.(top := t), op, i, distance)
  {
  }

  /** MIAP with its operands popped: point i and the cvt distance. */
  function MiapAt(m: Machine, op: byte, i: int32, distance: int32): (o: Outcome)
    requires Inv(m)
    ensures Keeps(m, o)
  {
    match MiapTwilight(m.gs, m.points, i, distance)
    case None => Halt(Panic)
    case Some(ps) => MiapAnchor(m.(points := ps), op, i, distance)
  }

  /** The rest of MIAP once the twilight point is placed: the move, and rp0 and rp1 set to i. */
  function MiapAnchor(m: Machine, op: byte, i: int32, distance: int32): (o: Outcome)
    requires Inv(m)
    ensures Keeps(m, o)
  {
    var l := Lookup(m, 0, Current, i);
    if !l.Found? then Halt(Panic)
    else
      match MoveIn(m, l.ref, MiapMove(m.gs, op, distance, Read(m.points, l.ref)))
      case Halt(e) => Halt(e)
      case Next(m3) => Advance(SetRp01(m3, i))
  }

  /** The single-width cut-in: a distance close enough to the single width becomes it, with the distance's sign. */
  function SingleWidthCut(gs: GraphicsState, d: int32): int32
  {
    if Abs26(Int32(d - gs.singleWidth)) < gs.singleWidthCutIn then
      (if d >= 0 then gs.singleWidth else Int32(-(gs.singleWidth as int)))
    else d
  }

  /** The minimum-distance bit (0x08) of MDRP and MIRP: keep at least minDist, on the side of oldDist. */
  function MinDistance(gs: GraphicsState, op: byte, oldDist: int32, distance: int32): int32
  {
    if HasBit(op, 8) then
      if oldDist >= 0 then (if distance < gs.minDist then gs.minDist else distance)
      else
        var neg := Int32(-(gs.minDist as int));
        if distance > neg then neg else distance
    else distance
  }

  /** The rounding bit (0x04) of MDRP and MIRP followed by the minimum-distance bit. */
  function RelativeDistance(gs: GraphicsState, op: byte, oldDist: int32): int32
  {
    MinDistance(gs, op, oldDist, if HasBit(op, 4) then RoundGs(gs, oldDist) else oldDist)
  }

  /** The reference-point update of MDRP and MIRP: rp0 becomes i when bit 0x10 is set, rp1 follows rp0, rp2 is i. */
  function SetRelativeRps(gs: GraphicsState, op: byte, i: int32): GraphicsState
  {
    var rp0 := if HasBit(op, 0x10) then i else gs.rp.e0;
    gs.(rp := Trio(rp0, rp0, i))
  }

  /** MDRP's original distance from rp0 to point i: unhinted in the twilight zone, otherwise scaled font units; None is a panic. */
  function MoveDirectRelOldDist(env: Env, gs: GraphicsState, ps: Points, i: int32): Option<int32>
  {
    var pt := if gs.zp.e0 == 0 || gs.zp.e1 == 0 then Unhinted else InFontUnits;
    var a := PointLookup(gs.zp, ps, 1, pt, i);
    var b := PointLookup(gs.zp, ps, 0, pt, gs.rp.e0);
    if !(a.Found? && b.Found?) then None
    else
      var d := Dist(Read(ps, a.ref), Read(ps, b.ref), gs.dv);
      Some(if pt == Unhinted then d else env.fontScale(Int32(env.scale * d)))
  }

  /** How far MDRP moves point p: from its projected distance to ref to the cut-in, rounded, minimum-kept original distance od. */
  function MoveDirectRelMove(gs: GraphicsState, op: byte, od: int32, p: Point, ref: Point): int32
  {
    Int32(RelativeDistance(gs, op, SingleWidthCut(gs, od)) - Dist(p, ref, gs.pv))
  }

  /** How far MIRP moves its point: from the current distance to the rounded, minimum-kept unhinted one. */
  function MirpMove(gs: GraphicsState, op: byte, oldDist: int32, curDist: int32): int32
  {
    Int32(RelativeDistance(gs, op, oldDist) - curDist)
  }

  /** MDRP: move the popped point i so that its distance from rp0 is the original one, cut in, rounded and kept to the minimum as the opcode's bits say. */
  function MoveDirectRelStep(env: Env, m: Machine, op: byte): (o: Outcome)
    requires Inv(m)
    ensures Keeps(m, o)
  {
    if m.top < 1 then Halt(Panic) else MoveDirectRelAt(env, m.(top := m.top - 1), op, m.stack[m.top - 1])
  }

  /** MDRP pops point i; the rest of it is MoveDirectRelAt. */
  lemma MoveDirectRelStepPops(env: Env, m: Machine, op: byte, t: nat, i: int32)
    requires Inv(m) && m.top >= 1 && t == m.top - 1 && i == m.stack[t]
    ensures MoveDirectRelStep(env, m, op) == MoveDirectRelAt(env, m.(top := t), op, i)
  {
  }

  /** MDRP with point i popped. */
  function MoveDirectRelAt(env: Env, m: Machine, op: byte, i: int32): (o: Outcome)
    requires Inv(m)
    ensures Keeps(m, o)
  {
    var gs := m.gs;
    var lref := Lookup(m, 0, Current, gs.rp.e0);
    var lp := Lookup(m, 1, Current, i);
    if lref.BadZone? || lp.BadZone? then Halt(Panic)
    else if lref.Missing? || lp.Missing? then Halt(PointOutOfRange)
    else
      match MoveDirectRelOldDist(env, gs, m.points, i)
      case None => Halt(Panic)
      case Some(od) =>
        MoveThen(m.(gs := SetRelativeRps(gs, op, i)), lp.ref, MoveDirectRelMove(gs, op, od, Read(m.points, lp.ref), Read(m.points, lref.ref)))
  }

  /**
   * MIRP: move the point i popped below the cvt index so that its distance
   * from rp0 is the unhinted one, rounded and kept to the minimum as the
   * opcode's bits say. The cvt distance it reads and cuts in is never used
   * afterwards, so it is not modelled; MIRP in the twilight zone is not
   * implemented.
   */
  function MirpStep(m: Machine, op: byte): (o: Outcome)
    requires Inv(m)
    ensures Keeps(m, o)
  {
    if m.top < 2 then Halt(Panic) else MirpAt(m.(top := m.top - 2), op, m.stack[m.top - 2])
  }

  /** MIRP pops the cvt index and point i; the rest of it is MirpAt. */
  lemma MirpStepPops(m: Machine, op: byte, t: nat, i: int32)
    requires Inv(m) && m.top >= 2 && t == m.top - 2 && i == m.stack[t]
    ensures MirpStep(m, op) == MirpAt(m.(top := t), op, i)
  {
  }

  /** MIRP with its operands popped. */
  function MirpAt(m: Machine, op: byte, i: int32): (o: Outcome)
    requires Inv(m)
    ensures Keeps(m, o)
  {
    var gs := m.gs;
    if gs.zp.e1 == 0 then Halt(UnimplementedTwilight)
    else
      var uref := Lookup(m, 0, Unhinted, gs.rp.e0);
      var up := Lookup(m, 1, Unhinted, i);
      if uref.BadZone? || up.BadZone? then Halt(Panic)
      else if uref.Missing? || up.Missing? then Halt(PointOutOfRange)
      else
        var cref := Lookup(m, 0, Current, gs.rp.e0);
        var cp := Lookup(m, 1, Current, i);
        if !(cref.Found? && cp.Found?) then Halt(PointOutOfRange)
        else
          var oldDist := Dist(Read(m.points, up.ref), Read(m.points, uref.ref), gs.dv);
          var curDist := Dist(Read(m.points, cp.ref), Read(m.points, cref.ref), gs.dv);
          MoveThen(m.(gs := SetRelativeRps(gs, op, i)), cp.ref, MirpMove(gs, op, oldDist, curDist))
  }

  /**
   * IP's new distance of a point from rp1: its original distance scaled by
   * curRange / oldRange with rounding, or mirrored when the original range
   * is empty.
   */
  function IpDistance(oldDist: int32, oldRange: int32, curRange: int32): int32
  {
    if oldDist == 0 then 0
    else if oldRange != 0 then Int32(Quot(oldDist * curRange + Quot(oldRange, 2), oldRange))
    else Int32(-(oldDist as int))
  }

  /** How far IP moves point q: from its current distance to curP to the interpolated one. */
  function IpMove(gs: GraphicsState, p: Point, oldP: Point, q: Point, curP: Point, oldRange: int32, curRange: int32): int32
  {
    Int32(IpDistance(Dist(p, oldP, gs.dv), oldRange, curRange) - Dist(q, curP, gs.pv))
  }

  /** The end of a round of IP's or ALIGNRP's loop: move point r, then count gs.loop down. */
  function LoopMove(m: Machine, r: PointRef, distance: int32): (o: Outcome)
    requires Inv(m) && ValidRef(m.points, r)
    ensures Keeps(m, o)
    ensures o.Next? ==> o.m == m.(points := o.m.points, gs := m.gs.(loop := Int32(m.gs.loop - 1)))
    ensures o.Next? ==> forall q :: ValidRef(m.points, q) ==> ValidRef(o.m.points, q)
  {
    match MoveIn(m, r, distance)
    case Halt(e) => Halt(e)
    case Next(m2) => Next(m2.(gs := m2.gs.(loop := Int32(m2.gs.loop - 1))))
  }

  /** One round of IP's loop: pop a point, move it to its interpolated distance, count gs.loop down. */
  function IpOne(m: Machine, pt: PointType, oldRef: PointRef, curRef: PointRef, oldRange: int32, curRange: int32): (o: Outcome)
    requires Inv(m) && ValidRef(m.points, oldRef) && ValidRef(m.points, curRef)
    ensures Keeps(m, o)
    ensures o.Next? ==> o.m.top < m.top && o.m.gs.loop == Int32(m.gs.loop - 1)
    ensures o.Next? ==> o.m.program == m.program && o.m.pc == m.pc && o.m.calls == m.calls
    ensures o.Next? ==> ValidRef(o.m.points, oldRef) && ValidRef(o.m.points, curRef)
  {
    if m.top < 1 then Halt(Panic) else IpAt(m.(top := m.top - 1), m.stack[m.top - 1], pt, oldRef, curRef, oldRange, curRange)
  }

  /** A round of IP's loop pops point i; the rest of it is IpAt. */
  lemma IpOnePops(m: Machine, pt: PointType, oldRef: PointRef, curRef: PointRef, oldRange: int32, curRange: int32, t: nat, i: int32)
    requires Inv(m) && ValidRef(m.points, oldRef) && ValidRef(m.points, curRef)
    requires m.top >= 1 && t == m.top - 1 && i == m.stack[t]
    ensures IpOne(m, pt, oldRef, curRef, oldRange, curRange) == IpAt(m.(top := t), i, pt, oldRef, curRef, oldRange, curRange)
  {
  }

  /** A round of IP's loop with point i popped. */
  function IpAt(m: Machine, i: int32, pt: PointType, oldRef: PointRef, curRef: PointRef, oldRange: int32, curRange: int32): (o: Outcome)
    requires Inv(m) && ValidRef(m.points, oldRef) && ValidRef(m.points, curRef)
    ensures Keeps(m, o)
    ensures o.Next? ==> o.m.top == m.top && o.m.gs.loop == Int32(m.gs.loop - 1)
    ensures o.Next? ==> o.m.program == m.program && o.m.pc == m.pc && o.m.calls == m.calls
    ensures o.Next? ==> ValidRef(o.m.points, oldRef) && ValidRef(o.m.points, curRef)
  {
    var p := Lookup(m, 2, pt, i);
    var q := Lookup(m, 2, Current, i);
    if !(p.Found? && q.Found?) then Halt(Panic)
    else
      var ps := m.points;
      LoopMove(m, q.ref, IpMove(m.gs, Read(ps, p.ref), Read(ps, oldRef), Read(ps, q.ref), Read(ps, curRef), oldRange, curRange))
  }

  /**
   * The loop of IP: one popped point per remaining count in gs.loop. The
   * references to rp1 are read afresh each round, so a point moved earlier
   * in the loop is seen where it now is.
   */
  function IpLoop(m: Machine, pt: PointType, oldRef: PointRef, curRef: PointRef, oldRange: int32, curRange: int32): (o: Outcome)
    requires Inv(m) && ValidRef(m.points, oldRef) && ValidRef(m.points, curRef)
    ensures Keeps(m, o)
    ensures o.Next? ==> o.m.gs.loop == 0 && o.m.program == m.program && o.m.pc == m.pc && o.m.calls == m.calls
    decreases m.top
  {
    if m.gs.loop == 0 then Next(m)
    else
      match IpOne(m, pt, oldRef, curRef, oldRange, curRange)
      case Halt(e) => Halt(e)
      case Next(m2) => IpLoop(m2, pt, oldRef, curRef, oldRange, curRange)
  }

  /** What IP's loop works from: the point type, rp1 unhinted (or in font units) and current, and the two ranges to rp2. */
  datatype IpFrame = IpFrame(pt: PointType, oldRef: PointRef, curRef: PointRef, oldRange: int32, curRange: int32)

  /** IP's setup: rp2 and rp1 looked up in both forms, or None (a nil point: a panic). */
  function IpSetup(gs: GraphicsState, ps: Points): (r: Option<IpFrame>)
    ensures r.Some? ==> ValidRef(ps, r.value.oldRef) && ValidRef(ps, r.value.curRef)
    ensures r.Some? ==> r.value.pt == IpPointType(gs) && r.value.curRef.pt == Current
  {
    var pt := IpPointType(gs);
    var p := PointLookup(gs.zp, ps, 1, pt, gs.rp.e2);
    var oldP := PointLookup(gs.zp, ps, 0, pt, gs.rp.e1);
    var q := PointLookup(gs.zp, ps, 1, Current, gs.rp.e2);
    var curP := PointLookup(gs.zp, ps, 0, Current, gs.rp.e1);
    if !(p.Found? && oldP.Found? && q.Found? && curP.Found?) then None
    else
      var oldRange := Dist(Read(ps, p.ref), Read(ps, oldP.ref), gs.dv);
      var curRange := Dist(Read(ps, q.ref), Read(ps, curP.ref), gs.pv);
      Some(IpFrame(pt, oldP.ref, curP.ref, oldRange, curRange))
  }

  /** IP: interpolate gs.loop points between rp1 and rp2, keeping their relative positions; then loop is 1 again. */
  function IpStep(m: Machine): (o: Outcome)
    requires Inv(m)
    ensures Keeps(m, o)
  {
    if m.top < m.gs.loop then Halt(StackUnderflow)
    else
      match IpSetup(m.gs, m.points)
      case None => Halt(Panic)
      case Some(f) =>
        match IpLoop(m, f.pt, f.oldRef, f.curRef, f.oldRange, f.curRange)
        case Halt(e) => Halt(e)
        case Next(m2) => Advance(m2.(gs := m2.gs.(loop := 1)))
  }

  /** IP reads unhinted points when any zone pointer names the twilight zone, and font units otherwise. */
  function IpPointType(gs: GraphicsState): PointType
  {
    if gs.zp.e0 == 0 || gs.zp.e1 == 0 || gs.zp.e2 == 0 then Unhinted else InFontUnits
  }

  /** One round of ALIGNRP's loop: pop a point, move it onto rp0's projection, count gs.loop down. */
  function AlignOne(m: Machine, ref: PointRef): (o: Outcome)
    requires Inv(m) && ValidRef(m.points, ref)
    ensures Keeps(m, o)
    ensures o.Next? ==> o.m.top < m.top && o.m.gs.loop == Int32(m.gs.loop - 1)
    ensures o.Next? ==> o.m.program == m.program && o.m.pc == m.pc && o.m.calls == m.calls
    ensures o.Next? ==> ValidRef(o.m.points, ref)
  {
    if m.top < 1 then Halt(Panic) else AlignAt(m.(top := m.top - 1), m.stack[m.top - 1], ref)
  }

  /** A round of ALIGNRP's loop pops point i; the rest of it is AlignAt. */
  lemma AlignOnePops(m: Machine, ref: PointRef, t: nat, i: int32)
    requires Inv(m) && ValidRef(m.points, ref) && m.top >= 1 && t == m.top - 1 && i == m.stack[t]
    ensures AlignOne(m, ref) == AlignAt(m.(top := t), i, ref)
  {
  }

  /** A round of ALIGNRP's loop with point i popped. */
  function AlignAt(m: Machine, i: int32, ref: PointRef): (o: Outcome)
    requires Inv(m) && ValidRef(m.points, ref)
    ensures Keeps(m, o)
    ensures o.Next? ==> o.m.top == m.top && o.m.gs.loop == Int32(m.gs.loop - 1)
    ensures o.Next? ==> o.m.program == m.program && o.m.pc == m.pc && o.m.calls == m.calls
    ensures o.Next? ==> ValidRef(o.m.points, ref)
  {
    match Lookup(m, 1, Current, i)
    case BadZone => Halt(Panic)
    case Missing => Halt(PointOutOfRange)
    case Found(r) => LoopMove(m, r, AlignMove(m.gs, Read(m.points, r), Read(m.points, ref)))
  }

  /** How far ALIGNRP moves point p: minus its projected distance from ref. */
  function AlignMove(gs: GraphicsState, p: Point, ref: Point): int32
  {
    Int32(-(Dist(p, ref, gs.pv) as int))
  }

  /** The loop of ALIGNRP: move each popped point onto rp0 along the projection vector. */
  function AlignLoop(m: Machine, ref: PointRef): (o: Outcome)
    requires Inv(m) && ValidRef(m.points, ref)
    ensures Keeps(m, o)
    ensures o.Next? ==> o.m.gs.loop == 0 && o.m.program == m.program && o.m.pc == m.pc && o.m.calls == m.calls
    decreases m.top
  {
    if m.gs.loop == 0 then Next(m)
    else
      match AlignOne(m, ref)
      case Halt(e) => Halt(e)
      case Next(m2) => AlignLoop(m2, ref)
  }

  function AlignrpStep(m: Machine): (o: Outcome)
    requires Inv(m)
    ensures Keeps(m, o)
  {
    if m.top < m.gs.loop then Halt(StackUnderflow)
    else
      match Lookup(m, 0, Current, m.gs.rp.e0)
      case BadZone => Halt(Panic)
      case Missing => Halt(PointOutOfRange)
      case Found(ref) =>
        match AlignLoop(m, ref)
        case Halt(e) => Halt(e)
        case Next(m2) => Advance(m2.(gs := m2.gs.(loop := 1)))
  }

  /** IUP[0] interpolates y and IUP[1] x over the glyph zone's contours. */
  function IupStep(m: Machine, op: byte): (o: Outcome)
    requires Inv(m)
    ensures Keeps(m, o)
  {
    match IupContours(m.points.glyph, op == OpIUP0, m.ends, 0, 0)
    case None => Halt(Panic)
    case Some(z) => Advance(m.(points := m.points.(glyph := z)))
  }

  function PointStep(env: Env, m: Machine, op: byte): (o: Outcome)
    requires Inv(m) && GroupOf(op) == PointGroup
    ensures Keeps(m, o)
  {
    if op == OpMDAP0 || op == OpMDAP1 then MoveDirectAbsStep(m, op)
    else if op == OpIUP0 || op == OpIUP1 then IupStep(m, op)
    else if op == OpIP then IpStep(m)
    else if op == OpALIGNRP then AlignrpStep(m)
    else if op == OpMIAP0 || op == OpMIAP1 then MiapStep(env, m, op)
    else if IsMdrp(op) then MoveDirectRelStep(env, m, op)
    else MirpStep(m, op)
  }

  // ---------------------------------------------------------------------------
  // One step and the run

  /**
   * One instruction: refused when the popCount table marks it as not
   * implemented or the stack holds fewer values than it pops, and otherwise
   * done by its family.
   */
  function Step(env: Env, m: Machine): (o: Outcome)
    requires Inv(m) && 0 <= m.pc < |m.program|
    ensures Keeps(m, o)
  {
    var op := m.program[m.pc];
    match env.popCount(op)
    case Unimplemented => Halt(UnimplementedInstruction)
    case Pops(n) =>
      if m.top < n then Halt(StackUnderflow)
      else
        match GroupOf(op)
        case VectorGroup => VectorStep(m, op)
        case StateGroup => StateStep(env, m, op)
        case ModeGroup => Advance(m.(gs := ModeState(m.gs, op)))
        case StackGroup => StackStep(env, m, op)
        case UnaryGroup => UnaryStep(m, op)
        case BinaryGroup => BinaryStep(m, op)
        case FlowGroup => FlowStep(m, op)
        case PushGroup => PushStep(m, op)
        case PointGroup => PointStep(env, m, op)
        case NoGroup => Halt(UnrecognizedInstruction)
  }

  /** How a run ends: with pc past the end of the current program (calls may still be outstanding), or with an error. */
  datatype RunResult = Finished(m: Machine) | Failed(e: HintError)

  /**
   * run's loop: stop when pc leaves the program; otherwise count the step,
   * fail on the 100000th, and execute the instruction at pc.
   */
  function RunFrom(env: Env, m: Machine): (r: RunResult)
    requires Inv(m) && m.steps < StepLimit
    ensures r.Finished? ==> Inv(r.m) && !(0 <= r.m.pc < |r.m.program|)
    ensures r.Finished? ==> |r.m.stack| == |m.stack| && |r.m.store| == |m.store|
    decreases StepLimit - m.steps
  {
    if !(0 <= m.pc < |m.program|) then Finished(m)
    else if m.steps + 1 == StepLimit then Failed(TooManySteps)
    else
      match Step(env, m.(steps := m.steps + 1))
      case Halt(e) => Failed(e)
      case Next(m') => RunFrom(env, m')
  }

  /** The run continued after an outcome: the error it halts with, or the rest of the run. */
  function Continue(env: Env, o: Outcome): RunResult
    requires o.Next? ==> Inv(o.m) && o.m.steps < StepLimit
  {
    match o
    case Halt(e) => Failed(e)
    case Next(m') => RunFrom(env, m')
  }

  /** A run that has not ended takes one step and continues from its outcome. */
  lemma RunFromUnfold(env: Env, m: Machine)
    requires Inv(m) && m.steps + 1 < StepLimit && 0 <= m.pc < |m.program|
    ensures RunFrom(env, m) == Continue(env, Step(env, m.(steps := m.steps + 1)))
  {
    var o := Step(env, m.(steps := m.steps + 1));
    if o.Halt? {
      assert RunFrom(env, m) == Failed(o.e);
    } else {
      assert RunFrom(env, m) == RunFrom(env, o.m);
    }
  }

  /** A step that goes on to m' leaves the rest of the run to m'. */
  lemma RunGoesOn(env: Env, m: Machine, m': Machine)
    requires Inv(m) && m.steps + 1 < StepLimit && 0 <= m.pc < |m.program|
    requires Inv(m') && m'.steps == m.steps + 1 && Step(env, m.(steps := m.steps + 1)) == Next(m')
    ensures RunFrom(env, m) == RunFrom(env, m')
  {
    RunFromUnfold(env, m);
  }

  /** The machine run starts from: the default graphics state, the glyph's points and contour ends, pc and top 0, no calls. */
  function Begin(stack: seq<int32>, store: seq<int32>, functions: map<int32, seq<byte>>, defaultGS: GraphicsState,
                 points: Points, ends: seq<int>, program: seq<byte>): (m: Machine)
    ensures Inv(m) && m.steps == 0 && m.pc == 0 && m.top == 0 && m.calls == [] && m.gs == defaultGS
  {
    Machine(stack, 0, store, functions, defaultGS, points, ends, program, 0, [], 0)
  }

  /** run: a program longer than 50000 bytes is refused before anything runs. */
  function Run(env: Env, m: Machine): (r: RunResult)
    requires Inv(m) && m.steps == 0
    ensures |m.program| > MaxProgramLength ==> r == Failed(TooManyInstructions)
    ensures r.Finished? ==> Inv(r.m) && |r.m.stack| == |m.stack| && |r.m.store| == |m.store|
  {
    if |m.program| > MaxProgramLength then Failed(TooManyInstructions) else RunFrom(env, m)
  }
}
