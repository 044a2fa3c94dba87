/**
 * The Hinter of freetype/truetype/hint.go as an object: its stack and
 * store buffers, function table, font and scale, graphics states, points
 * and contour ends are fields, and init and run update them in place. run's
 * locals (the program, pc, the stack top, the call stack and the step
 * count) stay locals. Every method is proved to do what the step functions
 * of HintSpec say one instruction does, and run what RunFrom says.
 */
module HintRun {
  import opened Ints
  import opened HintArith
  import opened HintState
  import opened HintIup
  import opened HintSpec
  import opened HintInit

  /** Where an instruction leaves run's locals, or the error run returns. */
  datatype Control = Continue(top: nat, program: seq<byte>, pc: int, calls: seq<Frame>) | Stop(e: HintError)

  class Hinter {
    var stack: array<int32>
    var store: array<int32>
    var functions: map<int32, seq<byte>>
    var font: Option<HintFont>
    var scale: int32
    var gs: GraphicsState
    var defaultGS: GraphicsState
    var points: Points
    var ends: seq<int>

    /** The stack and the store are separate buffers. */
    predicate Valid()
      reads this
    {
      stack != store
    }

    /** The zero Hinter: no buffers, no functions, no font and a zero graphics state. */
    constructor ()
      ensures Valid() && stack.Length == 0 && store.Length == 0 && functions == map[] && font == None
      ensures scale == 0 && gs == ZeroGS && defaultGS == ZeroGS && ends == []
      ensures points == Points(Zone([], [], []), Zone([], [], []))
    {
      stack := new int32[0];
      store := new int32[0];
      functions := map[];
      font := None;
      scale := 0;
      gs := ZeroGS;
      defaultGS := ZeroGS;
      points := Points(Zone([], [], []), Zone([], [], []));
      ends := [];
    }

    /** The machine of HintSpec that this Hinter and run's locals stand for. */
    function Abs(program: seq<byte>, pc: int, top: nat, calls: seq<Frame>, steps: nat): Machine
      reads this, stack, store
    {
      Machine(stack[..], top, store[..], functions, gs, points, ends, program, pc, calls, steps)
    }

    /** The Hinter and the locals in c are where the outcome o says: the next machine, or the same error. */
    predicate Reached(o: Outcome, c: Control, steps: nat)
      reads this, stack, store
    {
      match o
      case Halt(e) => c == Stop(e)
      case Next(m) => c.Continue? && m == Abs(c.program, c.pc, c.top, c.calls, steps)
    }

    /** The buffers, the font, the scale and the default graphics state are those of the old state. */
    twostate predicate Kept()
      reads this
    {
      stack == old(stack) && store == old(store) && font == old(font) && scale == old(scale) && defaultGS == old(defaultGS)
    }

    /** Only the points changed. */
    twostate predicate OnlyPoints()
      reads this
    {
      Kept() && functions == old(functions) && gs == old(gs) && ends == old(ends)
    }

    /** Only the graphics state changed. */
    twostate predicate OnlyGs()
      reads this
    {
      Kept() && functions == old(functions) && points == old(points) && ends == old(ends)
    }

    // -------------------------------------------------------------------------
    // The simple families of run's switch

    /** The vector setters and getters. */
    method ExecVector(op: byte, program: seq<byte>, pc: int, top: nat, calls: seq<Frame>, steps: nat) returns (c: Control)
      requires Valid() && Inv(Abs(program, pc, top, calls, steps)) && GroupOf(op) == VectorGroup
      modifies this, stack
      ensures Valid() && Kept() && functions == old(functions) && points == old(points) && ends == old(ends)
      ensures Reached(VectorStep(old(Abs(program, pc, top, calls, steps)), op), c, steps)
    {
      var t := top;
      if op == OpSVTCA0 {
        gs := gs.(pv := YAxis, fv := YAxis, dv := YAxis);
      } else if op == OpSVTCA1 {
        gs := gs.(pv := XAxis, fv := XAxis, dv := XAxis);
      } else if op == OpSPVTCA0 {
        gs := gs.(pv := YAxis, dv := YAxis);
      } else if op == OpSPVTCA1 {
        gs := gs.(pv := XAxis, dv := XAxis);
      } else if op == OpSFVTCA0 {
        gs := gs.(fv := YAxis);
      } else if op == OpSFVTCA1 {
        gs := gs.(fv := XAxis);
      } else if op == OpSPVFS || op == OpSFVFS {
        if t < 2 {
          return Stop(Panic);
        }
        t := t - 2;
        var v := Vec(F2Dot14(stack[t]), F2Dot14(stack[t + 1]));
        if op == OpSPVFS {
          gs := gs.(pv := v);
        } else {
          gs := gs.(fv := v);
        }
      } else if op == OpSFVTPV {
        gs := gs.(fv := gs.pv);
      } else {
        if t + 1 >= stack.Length {
          return Stop(StackOverflow);
        }
        var v := if op == OpGPV then gs.pv else gs.fv;
        stack[t] := v.x;
        stack[t + 1] := v.y;
        t := t + 2;
      }
      c := Continue(t, program, pc + 1, calls);
    }

    /** The setters that pop one value into the graphics state. */
    method ExecState(env: Env, op: byte, program: seq<byte>, pc: int, top: nat, calls: seq<Frame>, steps: nat) returns (c: Control)
      requires Valid() && Inv(Abs(program, pc, top, calls, steps)) && GroupOf(op) == StateGroup
      modifies this
      ensures Valid() && OnlyGs()
      ensures Reached(StateStep(env, old(Abs(program, pc, top, calls, steps)), op), c, steps)
    {
      if top < 1 {
        return Stop(Panic);
      }
      var t := top - 1;
      match SetState(env, gs, op, stack[t])
      case None =>
        return Stop(InvalidData);
      case Some(g) =>
        gs := g;
        c := Continue(t, program, pc + 1, calls);
    }

    /** The instructions that pop nothing: rounding modes, auto-flip and the no-ops. */
    method ExecMode(op: byte, program: seq<byte>, pc: int, top: nat, calls: seq<Frame>, steps: nat) returns (c: Control)
      requires Valid() && Inv(Abs(program, pc, top, calls, steps)) && GroupOf(op) == ModeGroup
      modifies this
      ensures Valid() && OnlyGs()
      ensures Reached(Advance(old(Abs(program, pc, top, calls, steps)).(gs := ModeState(old(gs), op))), c, steps)
    {
      gs := ModeState(gs, op);
      c := Continue(top, program, pc + 1, calls);
    }

    /** Unary arithmetic: the top of the stack is replaced. */
    method ExecUnary(op: byte, program: seq<byte>, pc: int, top: nat, calls: seq<Frame>, steps: nat) returns (c: Control)
      requires Valid() && Inv(Abs(program, pc, top, calls, steps)) && GroupOf(op) == UnaryGroup
      modifies stack
      ensures Reached(UnaryStep(old(Abs(program, pc, top, calls, steps)), op), c, steps)
    {
      if top < 1 {
        return Stop(Panic);
      }
      stack[top - 1] := UnaryValue(gs, op, stack[top - 1]);
      c := Continue(top, program, pc + 1, calls);
    }

    /** Binary arithmetic and comparisons: the two top elements are replaced by one. */
    method ExecBinary(op: byte, program: seq<byte>, pc: int, top: nat, calls: seq<Frame>, steps: nat) returns (c: Control)
      requires Valid() && Inv(Abs(program, pc, top, calls, steps)) && GroupOf(op) == BinaryGroup
      modifies stack
      ensures Reached(BinaryStep(old(Abs(program, pc, top, calls, steps)), op), c, steps)
    {
      if top < 2 {
        return Stop(Panic);
      }
      var t := top - 1;
      match BinaryValue(op, stack[t - 1], stack[t])
      case None =>
        return Stop(DivisionByZero);
      case Some(v) =>
        stack[t - 1] := v;
        c := Continue(t, program, pc + 1, calls);
    }

    /** MINDEX's copy: the element x below the top moves to the top, the ones above it move down, and the index is popped. */
    method MindexShift(top: nat, x: nat)
      requires 0 < x < top <= stack.Length
      modifies stack
      ensures stack[..] == Mindexed(old(stack[..]), top, x)
    {
      var lo := top - 1 - x;
      stack[top - 1] := stack[lo];
      ghost var s1 := stack[..];
      var k := lo;
      while k < top - 1
        invariant lo <= k <= top - 1
        invariant forall j :: 0 <= j < lo ==> stack[j] == s1[j]
        invariant forall j :: lo <= j < k ==> stack[j] == s1[j + 1]
        invariant forall j :: k <= j < stack.Length ==> stack[j] == s1[j]
      {
        stack[k] := stack[k + 1];
        k := k + 1;
      }
      ghost var s := old(stack[..]);
      assert forall j :: 0 <= j < stack.Length ==> stack[j] == Mindexed(s, top, x)[j];
    }

    /** CINDEX copies and MINDEX moves the element x below the top to the top, for 0 < x < top. */
    method ExecIndex(op: byte, program: seq<byte>, pc: int, top: nat, calls: seq<Frame>, steps: nat, ghost env: Env) returns (c: Control)
      requires Valid() && Inv(Abs(program, pc, top, calls, steps)) && (op == OpCINDEX || op == OpMINDEX)
      modifies stack
      ensures Reached(StackStep(env, old(Abs(program, pc, top, calls, steps)), op), c, steps)
    {
      if top < 1 {
        return Stop(Panic);
      }
      var x := stack[top - 1];
      if x <= 0 || x >= top {
        return Stop(InvalidData);
      }
      if op == OpCINDEX {
        stack[top - 1] := stack[top - 1 - x];
        c := Continue(top, program, pc + 1, calls);
      } else {
        MindexShift(top, x);
        c := Continue(top - 1, program, pc + 1, calls);
      }
    }

    /** WS writes the top of the stack to the store and RS reads the store; an index outside the store is invalid data. */
    method ExecStore(op: byte, program: seq<byte>, pc: int, top: nat, calls: seq<Frame>, steps: nat, ghost env: Env) returns (c: Control)
      requires Valid() && Inv(Abs(program, pc, top, calls, steps)) && (op == OpWS || op == OpRS)
      modifies stack, store
      ensures Reached(StackStep(env, old(Abs(program, pc, top, calls, steps)), op), c, steps)
    {
      if op == OpWS {
        if top < 2 {
          return Stop(Panic);
        }
        var t := top - 2;
        var i := stack[t];
        if i < 0 || store.Length <= i {
          return Stop(InvalidData);
        }
        store[i] := stack[t + 1];
        c := Continue(t, program, pc + 1, calls);
      } else {
        if top < 1 {
          return Stop(Panic);
        }
        var i := stack[top - 1];
        if i < 0 || store.Length <= i {
          return Stop(InvalidData);
        }
        stack[top - 1] := store[i];
        c := Continue(top, program, pc + 1, calls);
      }
    }

    /** The stack instructions and the store. */
    method ExecStack(op: byte, program: seq<byte>, pc: int, top: nat, calls: seq<Frame>, steps: nat, ghost env: Env) returns (c: Control)
      requires Valid() && Inv(Abs(program, pc, top, calls, steps)) && GroupOf(op) == StackGroup && env.scale == scale
      modifies stack, store
      ensures Reached(StackStep(env, old(Abs(program, pc, top, calls, steps)), op), c, steps)
    {
      if op == OpCINDEX || op == OpMINDEX {
        c := ExecIndex(op, program, pc, top, calls, steps, env);
        return;
      } else if op == OpWS || op == OpRS {
        c := ExecStore(op, program, pc, top, calls, steps, env);
        return;
      }
      var t := top;
      if op == OpDUP {
        if t >= stack.Length {
          return Stop(StackOverflow);
        } else if t < 1 {
          return Stop(Panic);
        }
        stack[t] := stack[t - 1];
        t := t + 1;
      } else if op == OpCLEAR {
        t := 0;
      } else if op == OpSWAP {
        if t < 2 {
          return Stop(Panic);
        }
        stack[t - 1], stack[t - 2] := stack[t - 2], stack[t - 1];
      } else if op == OpDEPTH {
        if t >= stack.Length {
          return Stop(StackOverflow);
        }
        stack[t] := Int32(t);
        t := t + 1;
      } else if op == OpROLL {
        if t < 3 {
          return Stop(Panic);
        }
        stack[t - 1], stack[t - 3], stack[t - 2] := stack[t - 3], stack[t - 2], stack[t - 1];
      } else {
        if t >= stack.Length {
          return Stop(StackOverflow);
        }
        stack[t] := scale / 64;
        t := t + 1;
      }
      c := Continue(t, program, pc + 1, calls);
    }

    // -------------------------------------------------------------------------
    // Flow of control

    /**
     * run's ifelse block: from the IF (fromIf) or ELSE at pc, the position of
     * the ELSE or EIF that closes it, counting nested IFs and skipping push
     * payloads; None is an unbalanced IF or ELSE.
     */
    static method SkipIfElse(program: seq<byte>, pc: nat, fromIf: bool) returns (r: Option<nat>)
      ensures r == IfElseEnd(program, pc, 0, fromIf)
    {
      var p := pc;
      var depth := 0;
      while true
        invariant IfElseEnd(program, p, depth, fromIf) == IfElseEnd(program, pc, 0, fromIf)
        decreases |program| - p
      {
        p := p + 1;
        if p >= |program| {
          return None;
        }
        var op := program[p];
        if op == OpIF {
          depth := depth + 1;
        } else if op == OpELSE {
          if depth == 0 && fromIf {
            return Some(p);
          }
        } else if op == OpEIF {
          depth := depth - 1;
          if depth < 0 {
            return Some(p);
          }
        } else {
          var (np, ok) := SkipInstructionPayload(program, p);
          if !ok {
            return None;
          }
          p := np;
        }
      }
    }

    /** FDEF's scan for the ENDF that closes the definition at pc, skipping push payloads. */
    static method ScanFdef(program: seq<byte>, pc: nat) returns (r: FdefScan)
      ensures r == FdefEnd(program, pc)
    {
      var p := pc;
      while true
        invariant FdefEnd(program, p) == FdefEnd(program, pc)
        decreases |program| - p
      {
        p := p + 1;
        if p >= |program| {
          return Unbalanced;
        }
        if program[p] == OpFDEF {
          return NestedDef;
        } else if program[p] == OpENDF {
          return EndfAt(p);
        }
        var (np, ok) := SkipInstructionPayload(program, p);
        if !ok {
          return Unbalanced;
        }
        p := np;
      }
    }

    /** CALL and LOOPCALL push a frame and run the function from its start. */
    method ExecCall(op: byte, program: seq<byte>, pc: int, top: nat, calls: seq<Frame>, steps: nat) returns (c: Control)
      requires Valid() && Inv(Abs(program, pc, top, calls, steps)) && (op == OpCALL || op == OpLOOPCALL)
      ensures Reached(CallStep(Abs(program, pc, top, calls, steps), op), c, steps)
    {
      if |calls| >= MaxCallDepth {
        return Stop(CallStackOverflow);
      } else if top < 1 {
        return Stop(Panic);
      }
      var t := top - 1;
      var fn := stack[t];
      if fn !in functions {
        return Stop(UndefinedFunction);
      }
      var f := functions[fn];
      var count: int32 := 1;
      if op == OpLOOPCALL {
        if t < 1 {
          return Stop(Panic);
        }
        t := t - 1;
        if stack[t] == 0 {
          return Continue(t, program, pc + 1, calls);
        }
        count := stack[t];
      }
      c := Continue(t, f, 0, calls + [Frame(program, pc, count)]);
    }

    /** ENDF runs the function again while the loop count lasts, and then returns after the call. */
    method ExecEndf(program: seq<byte>, pc: int, top: nat, calls: seq<Frame>, steps: nat) returns (c: Control)
      requires Valid() && Inv(Abs(program, pc, top, calls, steps))
      ensures Reached(EndfStep(Abs(program, pc, top, calls, steps)), c, steps)
    {
      if |calls| == 0 {
        return Stop(CallStackUnderflow);
      }
      var f := calls[|calls| - 1];
      var rest := calls[..|calls| - 1];
      var count := Int32(f.loopCount - 1);
      if count != 0 {
        c := Continue(top, program, 0, rest + [f.(loopCount := count)]);
      } else {
        c := Continue(top, f.program, f.pc + 1, rest);
      }
    }

    /** IF pops its condition and skips to its ELSE or EIF when it is zero; ELSE skips to its EIF. */
    method ExecIf(op: byte, program: seq<byte>, pc: int, top: nat, calls: seq<Frame>, steps: nat) returns (c: Control)
      requires Valid() && Inv(Abs(program, pc, top, calls, steps)) && 0 <= pc < |program| && (op == OpIF || op == OpELSE)
      ensures Reached(FlowStep(Abs(program, pc, top, calls, steps), op), c, steps)
    {
      var t := top;
      if op == OpIF {
        if t < 1 {
          return Stop(Panic);
        }
        t := t - 1;
        if stack[t] != 0 {
          return Continue(t, program, pc + 1, calls);
        }
      }
      var r := SkipIfElse(program, pc, op == OpIF);
      match r
      case None =>
        return Stop(UnbalancedIfElse);
      case Some(q) =>
        return Continue(t, program, q + 1, calls);
    }

    /** JMPR jumps by the popped offset; JROT and JROF jump when the popped condition is true, or false. */
    method ExecJump(op: byte, program: seq<byte>, pc: int, top: nat, calls: seq<Frame>, steps: nat) returns (c: Control)
      requires Valid() && Inv(Abs(program, pc, top, calls, steps)) && 0 <= pc < |program|
      requires op == OpJMPR || op == OpJROT || op == OpJROF
      ensures Reached(FlowStep(Abs(program, pc, top, calls, steps), op), c, steps)
    {
      if op == OpJMPR {
        if top < 1 {
          return Stop(Panic);
        }
        return Continue(top - 1, program, pc + stack[top - 1], calls);
      }
      if top < 2 {
        return Stop(Panic);
      }
      var t := top - 2;
      var jump := if op == OpJROT then stack[t + 1] != 0 else stack[t + 1] == 0;
      if jump {
        c := Continue(t, program, pc + stack[t], calls);
      } else {
        c := Continue(t, program, pc + 1, calls);
      }
    }

    /** FDEF stores the bytes up to and including its ENDF as the function numbered by the popped value. */
    method ExecFdef(program: seq<byte>, pc: int, top: nat, calls: seq<Frame>, steps: nat) returns (c: Control)
      requires Valid() && Inv(Abs(program, pc, top, calls, steps)) && 0 <= pc < |program|
      modifies this
      ensures Valid() && Kept() && gs == old(gs) && points == old(points) && ends == old(ends)
      ensures Reached(FlowStep(old(Abs(program, pc, top, calls, steps)), OpFDEF), c, steps)
    {
      var r := ScanFdef(program, pc);
      match r
      case Unbalanced =>
        return Stop(UnbalancedFdef);
      case NestedDef =>
        return Stop(NestedFdef);
      case EndfAt(q) =>
        if top < 1 {
          return Stop(Panic);
        }
        functions := functions[stack[top - 1] := program[pc + 1..q + 1]];
        c := Continue(top - 1, program, q + 1, calls);
    }

    /** The flow-of-control instructions: IF, ELSE, the jumps, calls and function definitions. */
    method ExecFlow(op: byte, program: seq<byte>, pc: int, top: nat, calls: seq<Frame>, steps: nat) returns (c: Control)
      requires Valid() && Inv(Abs(program, pc, top, calls, steps)) && 0 <= pc < |program| && GroupOf(op) == FlowGroup
      modifies this
      ensures Valid() && Kept() && gs == old(gs) && points == old(points) && ends == old(ends)
      ensures Reached(FlowStep(old(Abs(program, pc, top, calls, steps)), op), c, steps)
    {
      if op == OpELSE || op == OpIF {
        c := ExecIf(op, program, pc, top, calls, steps);
      } else if op == OpJMPR || op == OpJROT || op == OpJROF {
        c := ExecJump(op, program, pc, top, calls, steps);
      } else if op == OpCALL || op == OpLOOPCALL {
        c := ExecCall(op, program, pc, top, calls, steps);
      } else if op == OpFDEF {
        c := ExecFdef(program, pc, top, calls, steps);
      } else if op == OpENDF {
        c := ExecEndf(program, pc, top, calls, steps);
      } else {
        c := Stop(UnsupportedIdef);
      }
    }

    // -------------------------------------------------------------------------
    // Pushes

    /** run's push block: count values of the given width, read from start, go onto the stack. */
    method PushValues(wide: bool, count: nat, start: nat, program: seq<byte>, pc: int, top: nat, calls: seq<Frame>, steps: nat)
      returns (c: Control)
      requires Valid() && Inv(Abs(program, pc, top, calls, steps))
      modifies stack
      ensures Reached(PushData(old(Abs(program, pc, top, calls, steps)), wide, count, start), c, steps)
    {
      var width := if wide then 2 else 1;
      if top + count > stack.Length {
        return Stop(StackOverflow);
      } else if start + width * count > |program| {
        return Stop(InsufficientData);
      }
      WriteValues(wide, count, start, program, top);
      c := Continue(top + count, program, start + width * count, calls);
    }

    /** The loop of push: the count values from start are written to the stack from top, and nothing else changes. */
    method WriteValues(wide: bool, count: nat, start: nat, program: seq<byte>, top: nat)
      requires top + count <= stack.Length && start + (if wide then 2 else 1) * count <= |program|
      modifies stack
      ensures stack[..] == old(stack[..top]) + PushedValues(program, start, wide, count) + old(stack[top + count..])
    {
      var width := if wide then 2 else 1;
      ghost var values := PushedValues(program, start, wide, count);
      var k := 0;
      var p := start;
      while k < count
        invariant 0 <= k <= count && p == start + width * k
        invariant forall j :: 0 <= j < top ==> stack[j] == old(stack[j])
        invariant forall j :: 0 <= j < k ==> stack[top + j] == values[j]
        invariant forall j :: top + k <= j < stack.Length ==> stack[j] == old(stack[j])
      {
        if wide {
          stack[top + k] := Int8(program[p]) * 256 + program[p + 1];
        } else {
          stack[top + k] := program[p] as int32;
        }
        k := k + 1;
        p := p + width;
      }
      assert stack[..] == old(stack[..top]) + values + old(stack[top + count..]);
    }

    /** NPUSHB and NPUSHW read their count from the next byte; PUSHB[n] and PUSHW[n] push n + 1 values. */
    method ExecPush(op: byte, program: seq<byte>, pc: int, top: nat, calls: seq<Frame>, steps: nat) returns (c: Control)
      requires Valid() && Inv(Abs(program, pc, top, calls, steps)) && 0 <= pc < |program| && GroupOf(op) == PushGroup
      modifies stack
      ensures Reached(PushStep(old(Abs(program, pc, top, calls, steps)), op), c, steps)
    {
      var wide := op == OpNPUSHW || IsPushW(op);
      if op == OpNPUSHB || op == OpNPUSHW {
        if pc + 1 >= |program| {
          return Stop(InsufficientData);
        }
        c := PushValues(wide, program[pc + 1], pc + 2, program, pc, top, calls, steps);
      } else {
        c := PushValues(wide, PushCount(op), pc + 1, program, pc, top, calls, steps);
      }
    }

    // -------------------------------------------------------------------------
    // Points

    /**
     * move: the point moves by distance along the freedom vector and is
     * marked touched on the axes it moved along; false is the division by
     * zero of perpendicular freedom and projection vectors.
     */
    method MovePoint(r: PointRef, distance: int32) returns (ok: bool)
      requires ValidRef(points, r)
      modifies this
      ensures OnlyPoints()
      ensures ok <==> Move(old(gs), old(points), r, distance).Some?
      ensures ok ==> points == Move(old(gs), old(points), r, distance).value
    {
      var p := Read(points, r);
      if gs.fv.x == 0 {
        p := p.(y := Int32(p.y + distance), flags := SetFlag(p.flags, FlagTouchedY));
      } else if gs.fv.y == 0 {
        p := p.(x := Int32(p.x + distance), flags := SetFlag(p.flags, FlagTouchedX));
      } else {
        var fvDotPv := FvDotPv(gs);
        if fvDotPv == 0 {
          return false;
        }
        var dx := Int32(Quot(distance * gs.fv.x, fvDotPv));
        var dy := Int32(Quot(distance * gs.fv.y, fvDotPv));
        p := p.(x := Int32(p.x + dx), y := Int32(p.y + dy), flags := SetFlag(SetFlag(p.flags, FlagTouchedX), FlagTouchedY));
      }
      points := Write(points, r, p);
      ok := true;
    }

    /** MDAP[0] touches the popped point; MDAP[1] also rounds its projection; both make it rp0 and rp1. */
    method ExecMdap(op: byte, program: seq<byte>, pc: int, top: nat, calls: seq<Frame>, steps: nat) returns (c: Control)
      requires Valid() && Inv(Abs(program, pc, top, calls, steps)) && (op == OpMDAP0 || op == OpMDAP1)
      modifies this
      ensures Valid() && Kept() && functions == old(functions) && ends == old(ends)
      ensures Reached(MoveDirectAbsStep(old(Abs(program, pc, top, calls, steps)), op), c, steps)
    {
      if top < 1 {
        return Stop(Panic);
      }
      var t := top - 1;
      var i := stack[t];
      ghost var m1 := Abs(program, pc, t, calls, steps);
      var l := PointLookup(gs.zp, points, 0, Current, i);
      if l.BadZone? {
        return Stop(Panic);
      } else if l.Missing? {
        return Stop(PointOutOfRange);
      }
      var distance := MoveDirectAbsDistance(gs, op, Read(points, l.ref));
      var ok := MovePoint(l.ref, distance);
      if !ok {
        return Stop(Panic);
      }
      ghost var m2 := Abs(program, pc, t, calls, steps);
      assert MoveIn(m1, l.ref, distance) == Next(m2);
      gs := gs.(rp := Trio(i, i, gs.rp.e2));
      c := Continue(t, program, pc + 1, calls);
      assert Abs(program, pc + 1, t, calls, steps) == SetRp01(m2, i).(pc := pc + 1);
    }

    /** MIAP's twilight case: point i is placed at distance along the freedom vector, unhinted and current. */
    method PlaceTwilight(i: int32, distance: int32) returns (ok: bool)
      modifies this
      ensures OnlyPoints()
      ensures ok <==> MiapTwilight(old(gs), old(points), i, distance).Some?
      ensures ok ==> points == MiapTwilight(old(gs), old(points), i, distance).value
    {
      if gs.zp.e0 == 0 {
        var lu := PointLookup(gs.zp, points, 0, Unhinted, i);
        var lc := PointLookup(gs.zp, points, 0, Current, i);
        if !(lu.Found? && lc.Found?) {
          return false;
        }
        var np := TwilightPoint(gs, Read(points, lu.ref), distance);
        points := Write(points, lu.ref, np);
        points := Write(points, lc.ref, np);
      }
      ok := true;
    }

    /**
     * MIAP moves the popped point to the popped cvt entry's distance
     * (MIAP[1]: unless beyond the cut-in, and rounded), after placing it
     * there first in the twilight zone; the point becomes rp0 and rp1.
     */
    method ExecMiap(env: Env, op: byte, program: seq<byte>, pc: int, top: nat, calls: seq<Frame>, steps: nat) returns (c: Control)
      requires Valid() && Inv(Abs(program, pc, top, calls, steps)) && (op == OpMIAP0 || op == OpMIAP1)
      modifies this
      ensures Valid() && Kept() && functions == old(functions) && ends == old(ends)
      ensures Reached(MiapStep(env, old(Abs(program, pc, top, calls, steps)), op), c, steps)
    {
      if top < 2 {
        return Stop(Panic);
      }
      ghost var m0 := Abs(program, pc, top, calls, steps);
      var t := top - 2;
      var i := stack[t];
      var distance := Cvt(env, stack[t + 1]);
      assert Abs(program, pc, t, calls, steps) == m0.(top := t);
      MiapStepPops(env, m0, op, t, i, distance);
      c := MiapPopped(op, i, distance, program, pc, t, calls, steps);
    }

    /** MIAP once point i and the cvt distance are popped: the twilight placement, then the move. */
    method MiapPopped(op: byte, i: int32, distance: int32, program: seq<byte>, pc: int, top: nat, calls: seq<Frame>, steps: nat)
      returns (c: Control)
      requires Valid() && Inv(Abs(program, pc, top, calls, steps))
      modifies this
      ensures Valid() && Kept() && functions == old(functions) && ends == old(ends)
      ensures Reached(MiapAt(old(Abs(program, pc, top, calls, steps)), op, i, distance), c, steps)
    {
      ghost var m1 := Abs(program, pc, top, calls, steps);
      var placed := PlaceTwilight(i, distance);
      if !placed {
        return Stop(Panic);
      }
      assert Abs(program, pc, top, calls, steps) == m1.(points := points);
      c := AnchorPoint(op, i, distance, program, pc, top, calls, steps);
    }

    /** MIAP's move of the point at its anchor distance, once any twilight point is placed. */
    method AnchorPoint(op: byte, i: int32, distance: int32, program: seq<byte>, pc: int, top: nat, calls: seq<Frame>, steps: nat)
      returns (c: Control)
      requires Valid() && Inv(Abs(program, pc, top, calls, steps))
      modifies this
      ensures Valid() && Kept() && functions == old(functions) && ends == old(ends)
      ensures Reached(MiapAnchor(old(Abs(program, pc, top, calls, steps)), op, i, distance), c, steps)
    {
      var l := PointLookup(gs.zp, points, 0, Current, i);
      if !l.Found? {
        return Stop(Panic);
      }
      var delta := MiapMove(gs, op, distance, Read(points, l.ref));
      var ok := MovePoint(l.ref, delta);
      if !ok {
        return Stop(Panic);
      }
      gs := gs.(rp := Trio(i, i, gs.rp.e2));
      c := Continue(top, program, pc + 1, calls);
    }

    /**
     * MDRP moves the popped point so that its distance from rp0 is the
     * original one, cut in to the single width, then rounded and kept to
     * the minimum distance as the opcode's bits say.
     */
    method ExecMdrp(env: Env, op: byte, program: seq<byte>, pc: int, top: nat, calls: seq<Frame>, steps: nat) returns (c: Control)
      requires Valid() && Inv(Abs(program, pc, top, calls, steps))
      modifies this
      ensures Valid() && Kept() && functions == old(functions) && ends == old(ends)
      ensures Reached(MoveDirectRelStep(env, old(Abs(program, pc, top, calls, steps)), op), c, steps)
    {
      if top < 1 {
        return Stop(Panic);
      }
      ghost var m0 := Abs(program, pc, top, calls, steps);
      var t := top - 1;
      var i := stack[t];
      assert Abs(program, pc, t, calls, steps) == m0.(top := t);
      MoveDirectRelStepPops(env, m0, op, t, i);
      c := MoveDirectRelPopped(env, op, i, program, pc, t, calls, steps);
    }

    /** MDRP once point i is popped. */
    method MoveDirectRelPopped(env: Env, op: byte, i: int32, program: seq<byte>, pc: int, top: nat, calls: seq<Frame>, steps: nat)
      returns (c: Control)
      requires Valid() && Inv(Abs(program, pc, top, calls, steps))
      modifies this
      ensures Valid() && Kept() && functions == old(functions) && ends == old(ends)
      ensures Reached(MoveDirectRelAt(env, old(Abs(program, pc, top, calls, steps)), op, i), c, steps)
    {
      var lref := PointLookup(gs.zp, points, 0, Current, gs.rp.e0);
      var lp := PointLookup(gs.zp, points, 1, Current, i);
      if lref.BadZone? || lp.BadZone? {
        return Stop(Panic);
      } else if lref.Missing? || lp.Missing? {
        return Stop(PointOutOfRange);
      }
      var od := MoveDirectRelOldDist(env, gs, points, i);
      if od.None? {
        return Stop(Panic);
      }
      var delta := MoveDirectRelMove(gs, op, od.value, Read(points, lp.ref), Read(points, lref.ref));
      c := MoveRelative(op, i, lp.ref, delta, program, pc, top, calls, steps);
    }

    /** The end of MDRP and MIRP: the reference points are set from the opcode's bit 0x10, then point r moves by delta. */
    method MoveRelative(op: byte, i: int32, r: PointRef, delta: int32, program: seq<byte>, pc: int, top: nat, calls: seq<Frame>, steps: nat)
      returns (c: Control)
      requires Valid() && Inv(Abs(program, pc, top, calls, steps)) && ValidRef(points, r)
      modifies this
      ensures Valid() && Kept() && functions == old(functions) && ends == old(ends)
      ensures Reached(MoveThen(old(Abs(program, pc, top, calls, steps)).(gs := SetRelativeRps(old(gs), op, i)), r, delta), c, steps)
    {
      gs := SetRelativeRps(gs, op, i);
      var ok := MovePoint(r, delta);
      if !ok {
        return Stop(Panic);
      }
      c := Continue(top, program, pc + 1, calls);
    }

    /**
     * MIRP moves the second popped point so that its distance from rp0 is
     * the unhinted one, rounded and kept to the minimum distance as the
     * opcode's bits say; it is not implemented in the twilight zone.
     */
    method ExecMirp(op: byte, program: seq<byte>, pc: int, top: nat, calls: seq<Frame>, steps: nat) returns (c: Control)
      requires Valid() && Inv(Abs(program, pc, top, calls, steps))
      modifies this
      ensures Valid() && Kept() && functions == old(functions) && ends == old(ends)
      ensures Reached(MirpStep(old(Abs(program, pc, top, calls, steps)), op), c, steps)
    {
      if top < 2 {
        return Stop(Panic);
      }
      ghost var m0 := Abs(program, pc, top, calls, steps);
      var t := top - 2;
      var i := stack[t];
      assert Abs(program, pc, t, calls, steps) == m0.(top := t);
      MirpStepPops(m0, op, t, i);
      c := MirpPopped(op, i, program, pc, t, calls, steps);
    }

    /** MIRP once its operands are popped. */
    method MirpPopped(op: byte, i: int32, program: seq<byte>, pc: int, top: nat, calls: seq<Frame>, steps: nat) returns (c: Control)
      requires Valid() && Inv(Abs(program, pc, top, calls, steps))
      modifies this
      ensures Valid() && Kept() && functions == old(functions) && ends == old(ends)
      ensures Reached(MirpAt(old(Abs(program, pc, top, calls, steps)), op, i), c, steps)
    {
      if gs.zp.e1 == 0 {
        return Stop(UnimplementedTwilight);
      }
      var uref := PointLookup(gs.zp, points, 0, Unhinted, gs.rp.e0);
      var up := PointLookup(gs.zp, points, 1, Unhinted, i);
      if uref.BadZone? || up.BadZone? {
        return Stop(Panic);
      } else if uref.Missing? || up.Missing? {
        return Stop(PointOutOfRange);
      }
      var cref := PointLookup(gs.zp, points, 0, Current, gs.rp.e0);
      var cp := PointLookup(gs.zp, points, 1, Current, i);
      if !(cref.Found? && cp.Found?) {
        return Stop(PointOutOfRange);
      }
      var oldDist := Dist(Read(points, up.ref), Read(points, uref.ref), gs.dv);
      var curDist := Dist(Read(points, cp.ref), Read(points, cref.ref), gs.dv);
      var delta := MirpMove(gs, op, oldDist, curDist);
      c := MoveRelative(op, i, cp.ref, delta, program, pc, top, calls, steps);
    }

    /** IP interpolates gs.loop popped points between rp1 and rp2; loop is 1 afterwards. */
    method ExecIp(program: seq<byte>, pc: int, top: nat, calls: seq<Frame>, steps: nat) returns (c: Control)
      requires Valid() && Inv(Abs(program, pc, top, calls, steps))
      modifies this
      ensures Valid() && Kept() && functions == old(functions) && ends == old(ends)
      ensures Reached(IpStep(old(Abs(program, pc, top, calls, steps))), c, steps)
    {
      if top < gs.loop {
        return Stop(StackUnderflow);
      }
      var f := IpSetup(gs, points);
      if f.None? {
        return Stop(Panic);
      }
      c := IpLoopRun(f.value.pt, f.value.oldRef, f.value.curRef, f.value.oldRange, f.value.curRange, program, pc, top, calls, steps);
      if c.Stop? {
        return;
      }
      gs := gs.(loop := 1);
      c := Continue(c.top, program, pc + 1, calls);
    }

    /** IP's loop, one IpPoint per remaining count in gs.loop. */
    method IpLoopRun(pt: PointType, oldRef: PointRef, curRef: PointRef, oldRange: int32, curRange: int32,
                     program: seq<byte>, pc: int, top: nat, calls: seq<Frame>, steps: nat) returns (c: Control)
      requires Valid() && Inv(Abs(program, pc, top, calls, steps)) && ValidRef(points, oldRef) && ValidRef(points, curRef)
      modifies this
      ensures Valid() && Kept() && functions == old(functions) && ends == old(ends)
      ensures Reached(IpLoop(old(Abs(program, pc, top, calls, steps)), pt, oldRef, curRef, oldRange, curRange), c, steps)
    {
      var t := top;
      while gs.loop != 0
        invariant Valid() && Kept() && functions == old(functions) && ends == old(ends)
        invariant Inv(Abs(program, pc, t, calls, steps)) && ValidRef(points, oldRef) && ValidRef(points, curRef)
        invariant IpLoop(Abs(program, pc, t, calls, steps), pt, oldRef, curRef, oldRange, curRange)
               == IpLoop(old(Abs(program, pc, top, calls, steps)), pt, oldRef, curRef, oldRange, curRange)
        decreases t
      {
        c := IpPoint(pt, oldRef, curRef, oldRange, curRange, program, pc, t, calls, steps);
        if c.Stop? {
          return;
        }
        t := c.top;
      }
      c := Continue(t, program, pc, calls);
    }

    /** One round of IP: the popped point moves to its distance from rp1 scaled from the original range to the current one. */
    method IpPoint(pt: PointType, oldRef: PointRef, curRef: PointRef, oldRange: int32, curRange: int32,
                   program: seq<byte>, pc: int, top: nat, calls: seq<Frame>, steps: nat) returns (c: Control)
      requires Valid() && Inv(Abs(program, pc, top, calls, steps)) && ValidRef(points, oldRef) && ValidRef(points, curRef)
      modifies this
      ensures Valid() && Kept() && functions == old(functions) && ends == old(ends)
      ensures Reached(IpOne(old(Abs(program, pc, top, calls, steps)), pt, oldRef, curRef, oldRange, curRange), c, steps)
    {
      if top < 1 {
        return Stop(Panic);
      }
      ghost var m0 := Abs(program, pc, top, calls, steps);
      var t := top - 1;
      var i := stack[t];
      assert Abs(program, pc, t, calls, steps) == m0.(top := t);
      IpOnePops(m0, pt, oldRef, curRef, oldRange, curRange, t, i);
      c := IpPointAt(i, pt, oldRef, curRef, oldRange, curRange, program, pc, t, calls, steps);
    }

    /** IpPoint once point i is popped. */
    method IpPointAt(i: int32, pt: PointType, oldRef: PointRef, curRef: PointRef, oldRange: int32, curRange: int32,
                     program: seq<byte>, pc: int, top: nat, calls: seq<Frame>, steps: nat) returns (c: Control)
      requires Valid() && Inv(Abs(program, pc, top, calls, steps)) && ValidRef(points, oldRef) && ValidRef(points, curRef)
      modifies this
      ensures Valid() && Kept() && functions == old(functions) && ends == old(ends)
      ensures Reached(IpAt(old(Abs(program, pc, top, calls, steps)), i, pt, oldRef, curRef, oldRange, curRange), c, steps)
    {
      var p := PointLookup(gs.zp, points, 2, pt, i);
      var q := PointLookup(gs.zp, points, 2, Current, i);
      if !(p.Found? && q.Found?) {
        return Stop(Panic);
      }
      var delta := IpMove(gs, Read(points, p.ref), Read(points, oldRef), Read(points, q.ref), Read(points, curRef), oldRange, curRange);
      c := MoveCountDown(q.ref, delta, program, pc, top, calls, steps);
    }

    /** ALIGNRP moves gs.loop popped points onto rp0's projection; loop is 1 afterwards. */
    method ExecAlignrp(program: seq<byte>, pc: int, top: nat, calls: seq<Frame>, steps: nat) returns (c: Control)
      requires Valid() && Inv(Abs(program, pc, top, calls, steps))
      modifies this
      ensures Valid() && Kept() && functions == old(functions) && ends == old(ends)
      ensures Reached(AlignrpStep(old(Abs(program, pc, top, calls, steps))), c, steps)
    {
      if top < gs.loop {
        return Stop(StackUnderflow);
      }
      var l := PointLookup(gs.zp, points, 0, Current, gs.rp.e0);
      if l.BadZone? {
        return Stop(Panic);
      } else if l.Missing? {
        return Stop(PointOutOfRange);
      }
      c := AlignLoopRun(l.ref, program, pc, top, calls, steps);
      if c.Stop? {
        return;
      }
      gs := gs.(loop := 1);
      c := Continue(c.top, program, pc + 1, calls);
    }

    /** ALIGNRP's loop, one AlignPoint per remaining count in gs.loop. */
    method AlignLoopRun(ref: PointRef, program: seq<byte>, pc: int, top: nat, calls: seq<Frame>, steps: nat) returns (c: Control)
      requires Valid() && Inv(Abs(program, pc, top, calls, steps)) && ValidRef(points, ref)
      modifies this
      ensures Valid() && Kept() && functions == old(functions) && ends == old(ends)
      ensures Reached(AlignLoop(old(Abs(program, pc, top, calls, steps)), ref), c, steps)
    {
      var t := top;
      while gs.loop != 0
        invariant Valid() && Kept() && functions == old(functions) && ends == old(ends)
        invariant Inv(Abs(program, pc, t, calls, steps)) && ValidRef(points, ref)
        invariant AlignLoop(Abs(program, pc, t, calls, steps), ref) == AlignLoop(old(Abs(program, pc, top, calls, steps)), ref)
        decreases t
      {
        c := AlignPoint(ref, program, pc, t, calls, steps);
        if c.Stop? {
          return;
        }
        t := c.top;
      }
      c := Continue(t, program, pc, calls);
    }

    /** One round of ALIGNRP: the popped point moves along the freedom vector until its projection is rp0's. */
    method AlignPoint(ref: PointRef, program: seq<byte>, pc: int, top: nat, calls: seq<Frame>, steps: nat) returns (c: Control)
      requires Valid() && Inv(Abs(program, pc, top, calls, steps)) && ValidRef(points, ref)
      modifies this
      ensures Valid() && Kept() && functions == old(functions) && ends == old(ends)
      ensures Reached(AlignOne(old(Abs(program, pc, top, calls, steps)), ref), c, steps)
    {
      if top < 1 {
        return Stop(Panic);
      }
      ghost var m0 := Abs(program, pc, top, calls, steps);
      var t := top - 1;
      var i := stack[t];
      assert Abs(program, pc, t, calls, steps) == m0.(top := t);
      AlignOnePops(m0, ref, t, i);
      c := AlignPointAt(i, ref, program, pc, t, calls, steps);
    }

    /** AlignPoint once point i is popped. */
    method AlignPointAt(i: int32, ref: PointRef, program: seq<byte>, pc: int, top: nat, calls: seq<Frame>, steps: nat) returns (c: Control)
      requires Valid() && Inv(Abs(program, pc, top, calls, steps)) && ValidRef(points, ref)
      modifies this
      ensures Valid() && Kept() && functions == old(functions) && ends == old(ends)
      ensures Reached(AlignAt(old(Abs(program, pc, top, calls, steps)), i, ref), c, steps)
    {
      var l := PointLookup(gs.zp, points, 1, Current, i);
      if l.BadZone? {
        return Stop(Panic);
      } else if l.Missing? {
        return Stop(PointOutOfRange);
      }
      c := MoveCountDown(l.ref, AlignMove(gs, Read(points, l.ref), Read(points, ref)), program, pc, top, calls, steps);
    }

    /** The end of a round of IP or ALIGNRP: point r moves by distance and gs.loop counts down. */
    method MoveCountDown(r: PointRef, distance: int32, program: seq<byte>, pc: int, top: nat, calls: seq<Frame>, steps: nat)
      returns (c: Control)
      requires Valid() && Inv(Abs(program, pc, top, calls, steps)) && ValidRef(points, r)
      modifies this
      ensures Valid() && Kept() && functions == old(functions) && ends == old(ends)
      ensures Reached(LoopMove(old(Abs(program, pc, top, calls, steps)), r, distance), c, steps)
    {
      var ok := MovePoint(r, distance);
      if !ok {
        return Stop(Panic);
      }
      gs := gs.(loop := Int32(gs.loop - 1));
      c := Continue(top, program, pc, calls);
    }

    /** The point instructions. */
    method ExecPoint(env: Env, op: byte, program: seq<byte>, pc: int, top: nat, calls: seq<Frame>, steps: nat) returns (c: Control)
      requires Valid() && Inv(Abs(program, pc, top, calls, steps)) && GroupOf(op) == PointGroup
      modifies this
      ensures Valid() && Kept() && functions == old(functions) && ends == old(ends)
      ensures Reached(PointStep(env, old(Abs(program, pc, top, calls, steps)), op), c, steps)
    {
      if op == OpMDAP0 || op == OpMDAP1 {
        c := ExecMdap(op, program, pc, top, calls, steps);
      } else if op == OpIUP0 || op == OpIUP1 {
        c := ExecIup(op, program, pc, top, calls, steps);
      } else if op == OpIP {
        c := ExecIp(program, pc, top, calls, steps);
      } else if op == OpALIGNRP {
        c := ExecAlignrp(program, pc, top, calls, steps);
      } else if op == OpMIAP0 || op == OpMIAP1 {
        c := ExecMiap(env, op, program, pc, top, calls, steps);
      } else if IsMdrp(op) {
        c := ExecMdrp(env, op, program, pc, top, calls, steps);
      } else {
        c := ExecMirp(op, program, pc, top, calls, steps);
      }
    }

    // -------------------------------------------------------------------------
    // One step and the run

    /**
     * One pass of run's loop after the step count: the instruction at pc is
     * refused when popCount marks it unimplemented or the stack holds fewer
     * values than it pops, and is otherwise executed by its family.
     */
    method ExecStep(env: Env, program: seq<byte>, pc: int, top: nat, calls: seq<Frame>, steps: nat) returns (c: Control)
      requires Valid() && Inv(Abs(program, pc, top, calls, steps)) && 0 <= pc < |program| && env.scale == scale
      modifies this, stack, store
      ensures Valid() && Kept() && ends == old(ends)
      ensures Reached(Step(env, old(Abs(program, pc, top, calls, steps))), c, steps)
    {
      var op := program[pc];
      match env.popCount(op)
      case Unimplemented =>
        return Stop(UnimplementedInstruction);
      case Pops(n) =>
        if top < n {
          return Stop(StackUnderflow);
        }
        match GroupOf(op)
        case VectorGroup =>
          c := ExecVector(op, program, pc, top, calls, steps);
        case StateGroup =>
          c := ExecState(env, op, program, pc, top, calls, steps);
        case ModeGroup =>
          c := ExecMode(op, program, pc, top, calls, steps);
        case StackGroup =>
          c := ExecStack(op, program, pc, top, calls, steps, env);
        case UnaryGroup =>
          c := ExecUnary(op, program, pc, top, calls, steps);
        case BinaryGroup =>
          c := ExecBinary(op, program, pc, top, calls, steps);
        case FlowGroup =>
          c := ExecFlow(op, program, pc, top, calls, steps);
        case PushGroup =>
          c := ExecPush(op, program, pc, top, calls, steps);
        case PointGroup =>
          c := ExecPoint(env, op, program, pc, top, calls, steps);
        case NoGroup =>
          c := Stop(UnrecognizedInstruction);
    }

    /** The Hinter's fields as a value. */
    function State(): HinterState
      reads this, stack, store
    {
      HinterState(stack[..], store[..], functions, font, scale, gs, defaultGS, points, ends)
    }

    /**
     * run: the glyph's points and contour ends are installed and the graphics
     * state reset to the default; then the program runs instruction by
     * instruction, as HintSpec.Run says, until pc leaves it or an error stops
     * it.
     */
    method Run(popCount: byte -> PopCount, program: seq<byte>, current: seq<Point>, unhinted: seq<Point>, inFontUnits: seq<Point>,
               glyphEnds: seq<int>) returns (err: Option<HintError>)
      requires Valid() && font.Some?
      modifies this, stack, store
      ensures Valid() && Kept()
      ensures var r := RunOn(popCount, old(State()), program, Zone(current, unhinted, inFontUnits), glyphEnds);
              (r.Error? ==> err == Some(r.e)) && (r.Done? ==> err.None? && State() == r.h)
    {
      ghost var h0 := State();
      gs := defaultGS;
      points := points.(glyph := Zone(current, unhinted, inFontUnits));
      ends := glyphEnds;
      if |program| > MaxProgramLength {
        return Some(TooManyInstructions);
      }
      var env := EnvOf(popCount, State());
      assert Abs(program, 0, 0, [], 0) == Begin(h0.stack, h0.store, h0.functions, h0.defaultGS, h0.points.(glyph := Zone(current, unhinted, inFontUnits)), glyphEnds, program);
      err := RunLoop(env, program);
    }

    /** run's loop, from pc 0 with an empty stack and no calls, as HintSpec.RunFrom says. */
    method RunLoop(env: Env, program: seq<byte>) returns (err: Option<HintError>)
      requires Valid() && env.scale == scale
      modifies this, stack, store
      ensures Valid() && Kept()
      ensures var r := RunFrom(env, old(Abs(program, 0, 0, [], 0)));
              (r.Failed? ==> err == Some(r.e)) &&
              (r.Finished? ==> err.None? && stack[..] == r.m.stack && store[..] == r.m.store && functions == r.m.functions &&
                               gs == r.m.gs && points == r.m.points && ends == r.m.ends)
    {
      var prog, pc, top, calls, steps := program, 0, 0, [], 0;
      ghost var m0 := Abs(prog, pc, top, calls, steps);
      while 0 <= pc < |prog|
        invariant Valid() && Kept() && steps < StepLimit && Inv(Abs(prog, pc, top, calls, steps))
        invariant RunFrom(env, Abs(prog, pc, top, calls, steps)) == RunFrom(env, m0)
        decreases StepLimit - steps
      {
        var c := RunIteration(env, prog, pc, top, calls, steps);
        if c.Stop? {
          return Some(c.e);
        }
        prog, pc, top, calls, steps := c.program, c.pc, c.top, c.calls, steps + 1;
      }
      assert RunFrom(env, m0) == Finished(Abs(prog, pc, top, calls, steps));
      err := None;
    }

    /**
     * One iteration of run's loop, seen from the whole run: what is left of
     * the run is the same from the new locals as from the old ones, or the
     * run fails with the error the iteration stopped with.
     */
    method RunIteration(env: Env, program: seq<byte>, pc: int, top: nat, calls: seq<Frame>, steps: nat) returns (c: Control)
      requires Valid() && env.scale == scale && steps < StepLimit && Inv(Abs(program, pc, top, calls, steps)) && 0 <= pc < |program|
      modifies this, stack, store
      ensures Valid() && Kept()
      ensures c.Stop? ==> old(RunFrom(env, Abs(program, pc, top, calls, steps))) == Failed(c.e)
      ensures c.Continue? ==> steps + 1 < StepLimit && Inv(Abs(c.program, c.pc, c.top, c.calls, steps + 1))
      ensures c.Continue? ==> RunFrom(env, Abs(c.program, c.pc, c.top, c.calls, steps + 1)) == old(RunFrom(env, Abs(program, pc, top, calls, steps)))
    {
      ghost var m := Abs(program, pc, top, calls, steps);
      assert Abs(program, pc, top, calls, steps + 1) == m.(steps := steps + 1);
      c := RunStep(env, program, pc, top, calls, steps);
      if c.Stop? {
        if steps + 1 < StepLimit {
          RunFromUnfold(env, m);
        }
      } else {
        RunGoesOn(env, m, Abs(c.program, c.pc, c.top, c.calls, steps + 1));
      }
    }

    /**
     * One iteration of run's loop: count the step, fail on the 100000th,
     * and execute the instruction at pc, as HintSpec.Step says.
     */
    method RunStep(env: Env, program: seq<byte>, pc: int, top: nat, calls: seq<Frame>, steps: nat) returns (c: Control)
      requires Valid() && env.scale == scale && steps < StepLimit && Inv(Abs(program, pc, top, calls, steps)) && 0 <= pc < |program|
      modifies this, stack, store
      ensures Valid() && Kept()
      ensures steps + 1 == StepLimit ==> c == Stop(TooManySteps)
      ensures steps + 1 < StepLimit ==> Reached(Step(env, old(Abs(program, pc, top, calls, steps + 1))), c, steps + 1)
    {
      if steps + 1 == StepLimit {
        return Stop(TooManySteps);
      }
      c := ExecStep(env, program, pc, top, calls, steps + 1);
    }

    /**
     * init(f, scale): the twilight zone is reset; a new font (by identity)
     * clears the function definitions, grows the buffers to its maxp limits
     * and runs its font program at the old scale; a new font or scale then
     * resets the default graphics state and runs the control value program.
     */
    method Init(popCount: byte -> PopCount, f: HintFont, newScale: int32) returns (err: Option<HintError>)
      requires Valid()
      modifies this, stack, store
      ensures Valid()
      ensures var r := InitSpec(popCount, old(State()), f, newScale);
              (r.Error? ==> err == Some(r.e)) && (r.Done? ==> err.None? && State() == r.h)
    {
      var rescale := font.None? || font.value.id != f.id || scale != newScale;
      err := LoadFont(popCount, f);
      if err.None? {
        err := Rescale(popCount, f, newScale, rescale);
      }
    }

    /** init's first half, as HintInit.InitFont says. */
    method LoadFont(popCount: byte -> PopCount, f: HintFont) returns (err: Option<HintError>)
      requires Valid()
      modifies this, stack, store
      ensures Valid() && (stack == old(stack) || fresh(stack)) && (store == old(store) || fresh(store))
      ensures var r := InitFont(popCount, old(State()), f);
              (r.Error? ==> err == Some(r.e)) && (r.Done? ==> err.None? && State() == r.h)
    {
      ghost var h := State();
      points := points.(twilight := TwilightReset(f));
      ghost var h1 := h.(points := h.points.(twilight := TwilightReset(f)));
      assert State() == h1;
      if font.None? || font.value.id != f.id {
        Load(f);
        if |f.fpgm| != 0 {
          err := Run(popCount, f.fpgm, [], [], [], []);
          return;
        }
      }
      err := None;
    }

    /** A new font: as HintInit.LoadFont says, with new zeroed buffers where the old ones are too small. */
    method Load(f: HintFont)
      requires Valid()
      modifies this
      ensures Valid() && State() == HintInit.LoadFont(old(State()), f)
      ensures (stack == old(stack) || fresh(stack)) && (store == old(store) || fresh(store))
    {
      font := Some(f);
      functions := map[];
      if f.maxStackElements as int > stack.Length {
        stack := new int32[StackCapacity(f.maxStackElements)](_ => 0);
        assert stack[..] == seq(StackCapacity(f.maxStackElements), _ => 0);
      }
      if f.maxStorage as int > store.Length {
        store := new int32[StoreCapacity(f.maxStorage)](_ => 0);
        assert store[..] == seq(StoreCapacity(f.maxStorage), _ => 0);
      }
    }

    /** init's second half, as HintInit.InitScale says. */
    method Rescale(popCount: byte -> PopCount, f: HintFont, newScale: int32, rescale: bool) returns (err: Option<HintError>)
      requires Valid() && font.Some?
      modifies this, stack, store
      ensures Valid()
      ensures var r := InitScale(popCount, old(State()), f, newScale, rescale);
              (r.Error? ==> err == Some(r.e)) && (r.Done? ==> err.None? && State() == r.h)
    {
      if rescale {
        scale := newScale;
        defaultGS := GlobalDefaultGS;
        if |f.prep| != 0 {
          err := Run(popCount, f.prep, [], [], [], []);
          if err.Some? {
            return;
          }
          defaultGS := PrepDefault(gs);
        }
      }
      err := None;
    }

    // -------------------------------------------------------------------------
    // IUP

    /** IUP[0] interpolates the y coordinates of the glyph's untouched points and IUP[1] the x coordinates, contour by contour. */
    method ExecIup(op: byte, program: seq<byte>, pc: int, top: nat, calls: seq<Frame>, steps: nat) returns (c: Control)
      requires Valid() && Inv(Abs(program, pc, top, calls, steps))
      modifies this
      ensures Valid() && Kept() && functions == old(functions) && ends == old(ends)
      ensures Reached(IupStep(old(Abs(program, pc, top, calls, steps)), op), c, steps)
    {
      var y := op == OpIUP0;
      var prevEnd := 0;
      var k := 0;
      while k < |ends|
        invariant k <= |ends| && OnlyPoints() && points.twilight == old(points.twilight)
        invariant HintIup.IupContours(points.glyph, y, ends, k, prevEnd) == HintIup.IupContours(old(points.glyph), y, ends, 0, 0)
      {
        var ok := IupContour(y, prevEnd, ends[k]);
        if !ok {
          return Stop(Panic);
        }
        prevEnd := ends[k];
        k := k + 1;
      }
      c := Continue(top, program, pc + 1, calls);
    }

    /**
     * One contour, the points [prevEnd, end): find its first touched point,
     * interpolate each run between consecutive touched points, then close
     * the contour with a shift or the wrap-around runs.
     */
    method IupContour(y: bool, prevEnd: int, end: int) returns (ok: bool)
      modifies this
      ensures OnlyPoints()
      ensures ok <==> HintIup.IupContour(old(points.glyph), y, prevEnd, end).Some?
      ensures ok ==> points == old(points).(glyph := HintIup.IupContour(old(points.glyph), y, prevEnd, end).value)
    {
      var mask := TouchMask(y);
      if prevEnd >= end {
        return true;
      }
      var scan := ScanTouched(prevEnd, end, mask);
      if scan.ScanPanic? {
        return false;
      } else if scan.NoneTouched? {
        return true;
      }
      var walked, last := WalkRuns(y, mask, scan.i, end);
      if !walked {
        return false;
      }
      ok := CloseContour(y, prevEnd, end, scan.i, last);
    }

    /** The scan of a contour for its first touched point, from i up to end. */
    method ScanTouched(i: int, end: int, mask: nat) returns (s: Scan)
      requires mask == FlagTouchedX || mask == FlagTouchedY
      ensures s == FirstTouched(points.glyph.current, i, end, mask)
    {
      var cur := points.glyph.current;
      var k := i;
      while k < end && 0 <= k < |cur| && !HasBit(cur[k].flags, mask)
        invariant i <= k && (i <= end ==> k <= end)
        invariant FirstTouched(cur, k, end, mask) == FirstTouched(cur, i, end, mask)
        decreases end - k
      {
        k := k + 1;
      }
      if k >= end {
        s := NoneTouched;
      } else if !(0 <= k < |cur|) {
        s := ScanPanic;
      } else {
        s := TouchedAt(k);
      }
    }

    /**
     * The walk along a contour after its first touched point: each run of
     * untouched points between two touched ones is interpolated; last is the
     * last touched point.
     */
    method WalkRuns(y: bool, mask: nat, first: int, end: int) returns (ok: bool, last: int)
      requires mask == FlagTouchedX || mask == FlagTouchedY
      modifies this
      ensures OnlyPoints()
      ensures ok <==> InterpRuns(old(points.glyph), y, mask, first + 1, end, first).WalkedTo?
      ensures ok ==> points == old(points).(glyph := InterpRuns(old(points.glyph), y, mask, first + 1, end, first).z)
      ensures ok ==> last == InterpRuns(old(points.glyph), y, mask, first + 1, end, first).last
    {
      ghost var z0 := points.glyph;
      last := first;
      var i := first + 1;
      while i < end
        invariant OnlyPoints() && points == old(points).(glyph := points.glyph)
        invariant InterpRuns(points.glyph, y, mask, i, end, last) == InterpRuns(z0, y, mask, first + 1, end, first)
        decreases end - i
      {
        if !(0 <= i < |points.glyph.current|) {
          return false, last;
        }
        if HasBit(points.glyph.current[i].flags, mask) {
          var interpolated := IupInterp(y, last + 1, i - 1, last, i);
          if !interpolated {
            return false, last;
          }
          last := i;
        }
        i := i + 1;
      }
      ok := true;
    }

    /** The end of a contour: a shift when first is its only touched point, otherwise the runs from last round to first. */
    method CloseContour(y: bool, prevEnd: int, end: int, first: int, last: int) returns (ok: bool)
      modifies this
      ensures OnlyPoints()
      ensures ok <==> HintIup.CloseContour(old(points.glyph), y, prevEnd, end, first, last).Some?
      ensures ok ==> points == old(points).(glyph := HintIup.CloseContour(old(points.glyph), y, prevEnd, end, first, last).value)
    {
      if last == first {
        ok := IupShift(y, prevEnd, end, last);
      } else {
        ok := IupInterp(y, last + 1, end - 1, last, first);
        if ok && first > 0 {
          ok := IupInterp(y, prevEnd, first - 1, last, first);
        }
      }
    }

    /** iupShift: the points of [p1, p2) other than p move by p's displacement from its unhinted position. */
    method IupShift(y: bool, p1: int, p2: int, p: int) returns (ok: bool)
      modifies this
      ensures OnlyPoints()
      ensures ok <==> HintIup.IupShift(old(points.glyph), y, p1, p2, p).Some?
      ensures ok ==> points == old(points).(glyph := old(points.glyph).(current := HintIup.IupShift(old(points.glyph), y, p1, p2, p).value))
    {
      var z := points.glyph;
      if !(0 <= p < |z.current| && p < |z.unhinted|) {
        return false;
      }
      var delta := Int32(Coord(z.current[p], y) - Coord(z.unhinted[p], y));
      if delta == 0 {
        return true;
      }
      var i := p1;
      while i < p2
        invariant OnlyPoints() && points == old(points).(glyph := z.(current := points.glyph.current))
        invariant ShiftFrom(points.glyph.current, y, i, p2, p, delta) == ShiftFrom(z.current, y, p1, p2, p, delta)
        decreases p2 - i
      {
        if i != p {
          var cur := points.glyph.current;
          if !(0 <= i < |cur|) {
            return false;
          }
          points := points.(glyph := points.glyph.(current := cur[i := Shifted(cur[i], y, delta)]));
        }
        i := i + 1;
      }
      ok := true;
    }

    /**
     * iupInterp: the points of [p1, p2] move with the lower reference below
     * it, with the upper one above it, and in proportion (in font units) in
     * between.
     */
    method IupInterp(y: bool, p1: int, p2: int, ref1: int, ref2: int) returns (ok: bool)
      modifies this
      ensures OnlyPoints()
      ensures ok <==> HintIup.IupInterp(old(points.glyph), y, p1, p2, ref1, ref2).Some?
      ensures ok ==> points == old(points).(glyph := old(points.glyph).(current := HintIup.IupInterp(old(points.glyph), y, p1, p2, ref1, ref2).value))
    {
      var z := points.glyph;
      if p1 > p2 || ref1 >= |z.current| || ref2 >= |z.current| {
        return true;
      }
      var r := RefsOf(z, y, ref1, ref2);
      if r.None? {
        return false;
      }
      if r.value.ifu1 == r.value.ifu2 {
        ok := InterpSame(y, p1, p2, r.value);
      } else {
        ok := InterpScaled(y, p1, p2, r.value);
      }
    }

    /** iupInterp's loop when both references sit at the same font-unit coordinate. */
    method InterpSame(y: bool, p1: int, p2: int, refs: Refs) returns (ok: bool)
      modifies this
      ensures OnlyPoints()
      ensures ok <==> SameFrom(old(points.glyph), y, p1, p2, refs, old(points.glyph.current)).Some?
      ensures ok ==> points == old(points).(glyph := old(points.glyph).(current := SameFrom(old(points.glyph), y, p1, p2, refs, old(points.glyph.current)).value))
    {
      var z := points.glyph;
      var i := p1;
      while i <= p2
        invariant OnlyPoints() && points == old(points).(glyph := z.(current := points.glyph.current))
        invariant SameFrom(z, y, i, p2, refs, points.glyph.current) == SameFrom(z, y, p1, p2, refs, z.current)
        decreases p2 - i
      {
        var cur := points.glyph.current;
        if !(0 <= i < |z.unhinted| && i < |cur|) {
          return false;
        }
        var xy := Coord(z.unhinted[i], y);
        xy := if xy <= refs.unh1 then Int32(xy + refs.delta1) else Int32(xy + refs.delta2);
        points := points.(glyph := points.glyph.(current := cur[i := WithCoord(cur[i], y, xy)]));
        i := i + 1;
      }
      ok := true;
    }

    /**
     * One point of iupInterp's loop: shifted by a reference's displacement
     * outside the references, interpolated between them, the scale being
     * computed the first time it is needed.
     */
    method InterpPoint(refs: Refs, xy: int32, ifuXY: int32, scale0: int, scaleOK0: bool) returns (v: int32, scale: int, scaleOK: bool)
      requires refs.ifu1 < refs.ifu2 && (scaleOK0 ==> scale0 == InterpScale(refs))
      ensures v == Interpolated(refs, xy, ifuXY) && (scaleOK ==> scale == InterpScale(refs))
    {
      scale, scaleOK := scale0, scaleOK0;
      if xy <= refs.unh1 {
        v := Int32(xy + refs.delta1);
      } else if xy >= refs.unh2 {
        v := Int32(xy + refs.delta2);
      } else {
        if !scaleOK {
          scaleOK := true;
          scale := InterpScale(refs);
        }
        v := InterpValue(refs, scale, ifuXY);
      }
    }

    /**
     * iupInterp's loop when the references differ in font units. The 16.16
     * scale is computed the first time a point strictly between them needs it.
     */
    method InterpScaled(y: bool, p1: int, p2: int, refs: Refs) returns (ok: bool)
      requires refs.ifu1 < refs.ifu2
      modifies this
      ensures OnlyPoints()
      ensures ok <==> InterpFrom(old(points.glyph), y, p1, p2, refs, old(points.glyph.current)).Some?
      ensures ok ==> points == old(points).(glyph := old(points.glyph).(current := InterpFrom(old(points.glyph), y, p1, p2, refs, old(points.glyph.current)).value))
    {
      var z := points.glyph;
      var scale, scaleOK := 0, false;
      var i := p1;
      while i <= p2
        invariant OnlyPoints() && points == old(points).(glyph := z.(current := points.glyph.current))
        invariant InterpFrom(z, y, i, p2, refs, points.glyph.current) == InterpFrom(z, y, p1, p2, refs, z.current)
        invariant scaleOK ==> scale == InterpScale(refs)
        decreases p2 - i
      {
        var cur := points.glyph.current;
        if !(0 <= i < |z.unhinted| && i < |z.inFontUnits| && i < |cur|) {
          return false;
        }
        var xy;
        xy, scale, scaleOK := InterpPoint(refs, Coord(z.unhinted[i], y), Coord(z.inFontUnits[i], y), scale, scaleOK);
        assert InterpFrom(z, y, i, p2, refs, cur) == InterpFrom(z, y, i + 1, p2, refs, cur[i := WithCoord(cur[i], y, xy)]);
        points := points.(glyph := points.glyph.(current := cur[i := WithCoord(cur[i], y, xy)]));
        i := i + 1;
      }
      ok := true;
    }
  }
}
