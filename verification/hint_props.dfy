/**
 * Properties of the TrueType bytecode interpreter of
 * freetype/truetype/hint.go, stated about HintSpec: what every step checks
 * first, the pushes, the stack instructions, calls and returns, the
 * arithmetic errors, and whole programs of freetype/truetype/hint_test.go
 * (IF/ELSE skipping, the step limit).
 */
module HintProps {
  import opened Ints
  import opened HintArith
  import opened HintState
  import opened HintSpec

  // ---------------------------------------------------------------------------
  // Every step

  /**
   * Before an instruction runs, its pop count is checked: an opcode without
   * one is unimplemented, and a stack holding fewer values is an underflow.
   */
  lemma StepChecksPopCount(env: Env, m: Machine)
    requires Inv(m) && 0 <= m.pc < |m.program|
    ensures env.popCount(m.program[m.pc]).Unimplemented? ==> Step(env, m) == Halt(UnimplementedInstruction)
    ensures env.popCount(m.program[m.pc]).Pops? && m.top < env.popCount(m.program[m.pc]).n ==>
            Step(env, m) == Halt(StackUnderflow)
  {
  }

  // ---------------------------------------------------------------------------
  // Pushes

  /** Two's-complement reading is unique: an int16 congruent to x modulo 2^16 is int16(x). */
  lemma Int16Unique(x: int, v: int)
    requires IsInt16(v) && (x - v) % 0x1_0000 == 0
    ensures Int16(x) == v
  {
    var r := Int16(x);
    assert (r - v) % 0x1_0000 == 0 by {
      assert r - v == (x - v) - (x - r);
    }
    assert -0x1_0000 < r - v < 0x1_0000;
  }

  /** PUSHB values are bytes zero-extended; PUSHW values are big-endian words sign-extended from 16 bits. */
  lemma PushedValuesExtend(program: seq<byte>, start: nat, wide: bool, count: nat)
    requires start + (if wide then 2 else 1) * count <= |program|
    ensures var r := PushedValues(program, start, wide, count);
            forall k :: 0 <= k < count ==>
              if wide then r[k] == Int16(program[start + 2 * k] as int * 0x100 + program[start + 2 * k + 1])
              else r[k] == program[start + k] && 0 <= r[k] < 0x100
  {
    var r := PushedValues(program, start, wide, count);
    if wide {
      forall k | 0 <= k < count
        ensures r[k] == Int16(program[start + 2 * k] as int * 0x100 + program[start + 2 * k + 1])
      {
        var b, c := program[start + 2 * k] as int, program[start + 2 * k + 1] as int;
        var v := Int8(b) * 0x100 + c;
        assert r[k] == v;
        assert (b * 0x100 + c - v) == (b - Int8(b)) * 0x100;
        assert (b - Int8(b)) % 0x100 == 0;
        assert ((b - Int8(b)) * 0x100) % 0x1_0000 == 0;
        Int16Unique(b * 0x100 + c, v);
      }
    }
  }

  /**
   * A one-byte push of n values: it fails with a stack overflow when the
   * stack cannot take them, then with insufficient data when the program
   * ends inside its payload; otherwise the values are on the stack above
   * the old ones, nothing else on the stack changes, and pc is past the
   * payload.
   */
  lemma PushSemantics(m: Machine, op: byte)
    requires Inv(m) && 0 <= m.pc < |m.program| && (IsPushB(op) || IsPushW(op))
    ensures var n, w := PushCount(op), if IsPushW(op) then 2 else 1;
            var o := PushStep(m, op);
            (m.top + n > |m.stack| ==> o == Halt(StackOverflow)) &&
            (m.top + n <= |m.stack| && m.pc + 1 + w * n > |m.program| ==> o == Halt(InsufficientData)) &&
            (o.Next? <==> m.top + n <= |m.stack| && m.pc + 1 + w * n <= |m.program|) &&
            (o.Next? ==>
               o.m.top == m.top + n && o.m.pc == m.pc + 1 + w * n &&
               o.m.stack[..m.top] == m.stack[..m.top] &&
               o.m.stack[m.top..o.m.top] == PushedValues(m.program, m.pc + 1, IsPushW(op), n) &&
               o.m.stack[o.m.top..] == m.stack[o.m.top..])
  {
    var n, w := PushCount(op), if IsPushW(op) then 2 else 1;
    var o := PushStep(m, op);
    assert o == PushData(m, IsPushW(op), n, m.pc + 1);
    if o.Next? {
      var vs := PushedValues(m.program, m.pc + 1, IsPushW(op), n);
      var s := m.stack[..m.top] + vs + m.stack[m.top + n..];
      assert o.m.stack == s;
      assert s[..m.top] == m.stack[..m.top];
      assert s[m.top..m.top + n] == vs;
      assert s[m.top + n..] == m.stack[m.top + n..];
    }
  }

  /** NPUSHB and NPUSHW need their count byte: a program ending at the opcode gives insufficient data. */
  lemma NpushNeedsCount(m: Machine, op: byte)
    requires Inv(m) && 0 <= m.pc == |m.program| - 1 && (op == OpNPUSHB || op == OpNPUSHW)
    ensures PushStep(m, op) == Halt(InsufficientData)
  {
  }

  // ---------------------------------------------------------------------------
  // The stack

  /**
   * MINDEX's stack: the element x below the top (the index itself having
   * been popped) is moved to the top and the others keep their order, so
   * the stack is a permutation of the old one.
   */
  lemma MindexedPermutes(s: seq<int32>, top: nat, x: nat)
    requires 0 < x < top <= |s|
    ensures var r := Mindexed(s, top, x);
            |r| == |s| && r[top - 2] == s[top - 1 - x] &&
            r[..top - 1] == s[..top - 1 - x] + s[top - x..top - 1] + [s[top - 1 - x]] &&
            multiset(r[..top - 1]) == multiset(s[..top - 1])
  {
    var r := Mindexed(s, top, x);
    var a, b, c := s[..top - 1 - x], s[top - x..top - 1], s[top - 1 - x];
    assert r[..top - 1] == a + b + [c];
    assert s[..top - 1] == a + [c] + b;
    calc {
      multiset(a + b + [c]);
      multiset(a) + multiset(b) + multiset([c]);
      multiset(a + [c] + b);
    }
  }

  /** CINDEX and MINDEX refuse an index x outside 0 < x < top. */
  lemma IndexRange(env: Env, m: Machine, op: byte)
    requires Inv(m) && 1 <= m.top && (op == OpCINDEX || op == OpMINDEX)
    ensures var x, o := m.stack[m.top - 1], StackStep(env, m, op);
            (o.Halt? <==> x <= 0 || m.top <= x) && (o.Halt? ==> o.e == InvalidData)
  {
  }

  /** CINDEX replaces the index x on top by a copy of the x-th element below it. */
  lemma CindexCopies(env: Env, m: Machine)
    requires Inv(m) && 1 <= m.top && 0 < m.stack[m.top - 1] < m.top
    ensures var o := StackStep(env, m, OpCINDEX);
            o.Next? && o.m.top == m.top && o.m.stack == m.stack[m.top - 1 := m.stack[m.top - 1 - m.stack[m.top - 1]]]
  {
  }

  /** MINDEX pops the index x and moves the element x below it to the top. */
  lemma MindexMoves(env: Env, m: Machine)
    requires Inv(m) && 1 <= m.top && 0 < m.stack[m.top - 1] < m.top
    ensures var o := StackStep(env, m, OpMINDEX);
            o.Next? && o.m.top == m.top - 1 && o.m.stack == Mindexed(m.stack, m.top, m.stack[m.top - 1])
  {
  }

  /** ROLL moves the third element to the top and the two above it down, a rotation of the three. */
  lemma RollSemantics(env: Env, m: Machine)
    requires Inv(m) && 3 <= m.top
    ensures var o, s, t := StackStep(env, m, OpROLL), m.stack, m.top;
            o.Next? && o.m.top == t &&
            o.m.stack[t - 3..t] == [s[t - 2], s[t - 1], s[t - 3]] &&
            o.m.stack[..t - 3] == s[..t - 3] && o.m.stack[t..] == s[t..] &&
            multiset(o.m.stack[..t]) == multiset(s[..t])
  {
    var o, s, t := StackStep(env, m, OpROLL), m.stack, m.top;
    var r := Rolled(s, t);
    assert o.m.stack == r;
    assert r[..t] == s[..t - 3] + [s[t - 2], s[t - 1], s[t - 3]];
    assert s[..t] == s[..t - 3] + [s[t - 3], s[t - 2], s[t - 1]];
    calc {
      multiset(r[..t]);
      multiset(s[..t - 3]) + multiset([s[t - 2], s[t - 1], s[t - 3]]);
      { assert multiset([s[t - 2], s[t - 1], s[t - 3]]) == multiset([s[t - 3], s[t - 2], s[t - 1]]); }
      multiset(s[..t - 3]) + multiset([s[t - 3], s[t - 2], s[t - 1]]);
      multiset(s[..t]);
    }
  }

  // ---------------------------------------------------------------------------
  // Calls

  /**
   * CALL and LOOPCALL fail at call depth 32 and on an undefined function;
   * below that depth a defined function is called (for LOOPCALL, when its
   * count is not 0): its body runs from its start with one more frame, which
   * returns to the call and holds the loop count.
   */
  lemma CallSemantics(m: Machine, op: byte)
    requires Inv(m) && 1 <= m.top && (op == OpCALL || op == OpLOOPCALL)
    ensures var o, fn := CallStep(m, op), m.stack[m.top - 1];
            (|m.calls| >= MaxCallDepth ==> o == Halt(CallStackOverflow)) &&
            (|m.calls| < MaxCallDepth && fn !in m.functions ==> o == Halt(UndefinedFunction)) &&
            (o.Next? && o.m.calls != m.calls ==>
               fn in m.functions && o.m.program == m.functions[fn] && o.m.pc == 0 &&
               o.m.calls == m.calls + [Frame(m.program, m.pc, o.m.calls[|m.calls|].loopCount)]) &&
            (op == OpCALL && o.Next? ==> o.m.calls[|m.calls|].loopCount == 1)
    ensures var o, fn := CallStep(m, op), m.stack[m.top - 1];
            |m.calls| < MaxCallDepth && fn in m.functions && op == OpCALL ==>
              o == Next(m.(top := m.top - 1, calls := m.calls + [Frame(m.program, m.pc, 1)], program := m.functions[fn], pc := 0))
    ensures var o, fn := CallStep(m, op), m.stack[m.top - 1];
            |m.calls| < MaxCallDepth && fn in m.functions && op == OpLOOPCALL && 2 <= m.top && m.stack[m.top - 2] != 0 ==>
              o == Next(m.(top := m.top - 2, calls := m.calls + [Frame(m.program, m.pc, m.stack[m.top - 2])], program := m.functions[fn], pc := 0))
  {
  }

  /**
   * FDEF: a nested FDEF before the ENDF and a program ending before it are
   * errors; otherwise the top of the stack names the function, whose body is
   * everything after the FDEF up to and including the ENDF, and execution goes
   * on after the ENDF with nothing else changed.
   */
  lemma FdefSemantics(m: Machine)
    requires Inv(m) && 0 <= m.pc < |m.program|
    ensures var o, s := FlowStep(m, OpFDEF), FdefEnd(m.program, m.pc);
            (o == Halt(NestedFdef) <==> s.NestedDef?) &&
            (o == Halt(UnbalancedFdef) <==> s.Unbalanced?) &&
            (s.EndfAt? && m.top < 1 ==> o == Halt(Panic))
    ensures var o, s := FlowStep(m, OpFDEF), FdefEnd(m.program, m.pc);
            s.EndfAt? && 1 <= m.top ==>
              var body := m.program[m.pc + 1..s.q + 1];
              |body| > 0 && body[|body| - 1] == OpENDF &&
              o == Next(m.(top := m.top - 1, functions := m.functions[m.stack[m.top - 1] := body], pc := s.q + 1))
  {
    assert GroupOf(OpFDEF) == FlowGroup;
  }

  /** LOOPCALL with a count of 0 calls nothing and goes on after it. */
  lemma LoopcallZero(m: Machine)
    requires Inv(m) && 2 <= m.top && |m.calls| < MaxCallDepth && m.stack[m.top - 1] in m.functions && m.stack[m.top - 2] == 0
    ensures CallStep(m, OpLOOPCALL) == Next(m.(top := m.top - 2, pc := m.pc + 1))
  {
  }

  /**
   * ENDF with no call to return from fails; otherwise it counts the frame's
   * loop down, wrapping as an int32: the body runs again from its start while
   * the count stays non-zero, and the call returns (to after the CALL or
   * LOOPCALL) when it reaches zero. A LOOPCALL with count c >= 1 thus runs its
   * body c times; a negative count, which LOOPCALL also accepts, never
   * reaches zero in one step and reruns the body.
   */
  lemma EndfSemantics(m: Machine)
    requires Inv(m)
    ensures var o := EndfStep(m);
            (|m.calls| == 0 <==> o == Halt(CallStackUnderflow)) &&
            (|m.calls| > 0 ==>
               var f := m.calls[|m.calls| - 1];
               var count := Int32(f.loopCount - 1);
               o.Next? && o.m.top == m.top &&
               (count != 0 ==> o.m.program == m.program && o.m.pc == 0 &&
                               o.m.calls == m.calls[..|m.calls| - 1] + [f.(loopCount := count)]) &&
               (count == 0 ==> o.m.program == f.program && o.m.pc == f.pc + 1 &&
                               o.m.calls == m.calls[..|m.calls| - 1]) &&
               (2 <= f.loopCount ==> count == f.loopCount - 1) &&
               (f.loopCount < 0 ==> count != 0 && o.m.pc == 0))
  {
  }

  // ---------------------------------------------------------------------------
  // Arithmetic

  /** DIV by zero is an error; any other division replaces the two top elements by their 26.6 quotient. */
  lemma DivSemantics(m: Machine)
    requires Inv(m) && 2 <= m.top
    ensures var o, a, b := BinaryStep(m, OpDIV), m.stack[m.top - 2], m.stack[m.top - 1];
            (b == 0 <==> o == Halt(DivisionByZero)) &&
            (b != 0 ==> o.Next? && o.m.top == m.top - 1 && o.m.stack[m.top - 2] == Div26(a, b))
  {
  }

  /** FLOOR gives the largest multiple of 64 not above x; CEILING the smallest not below it, when x + 63 stays an int32. */
  lemma FloorCeiling(gs: GraphicsState, x: int32)
    ensures var f := UnaryValue(gs, OpFLOOR, x);
            f % 64 == 0 && f <= x < f + 64
    ensures var c := UnaryValue(gs, OpCEILING, x);
            x <= MaxInt32 - 63 ==> c % 64 == 0 && c - 64 < x <= c
  {
  }

  // ---------------------------------------------------------------------------
  // Programs of freetype/truetype/hint_test.go

  /**
   * The pop counts of the opcodes these programs and the nested FDEF one use, as the TrueType
   * instruction set defines them (the popCount table is a parameter of
   * this model).
   */
  predicate StandardPops(popCount: byte -> PopCount)
  {
    popCount(OpDUP) == Pops(1) && popCount(OpPOP) == Pops(1) && popCount(OpCLEAR) == Pops(0) &&
    popCount(OpSWAP) == Pops(2) && popCount(OpDEPTH) == Pops(0) && popCount(OpCINDEX) == Pops(1) &&
    popCount(OpMINDEX) == Pops(1) && popCount(OpJMPR) == Pops(1) && popCount(OpIF) == Pops(1) &&
    popCount(OpELSE) == Pops(0) && popCount(OpEIF) == Pops(0) && popCount(OpFDEF) == Pops(1) &&
    popCount(OpNPUSHB) == Pops(0) && popCount(OpNPUSHW) == Pops(0) &&
    popCount(OpPUSHB000) == Pops(0) && popCount(OpPUSHB000 + 1) == Pops(0) && popCount(OpPUSHB000 + 2) == Pops(0) &&
    popCount(OpPUSHW000) == Pops(0) && popCount(OpPUSHW000 + 1) == Pops(0)
  }

  /** "underflow": DUP on an empty stack. */
  lemma UnderflowProgram(env: Env, stack: seq<int32>, store: seq<int32>, gs: GraphicsState, points: Points)
    requires StandardPops(env.popCount)
    ensures Run(env, Begin(stack, store, map[], gs, points, [], [OpDUP])) == Failed(StackUnderflow)
  {
  }

  /** The "unbalanced if/else" program: a false IF with no EIF after it. */
  const UnbalancedProgram: seq<byte> := [OpPUSHB000, 0, OpIF]

  /** PUSHB[0] 0 at its start pushes 0. */
  lemma UnbalancedPushStep(env: Env, m: Machine)
    requires StandardPops(env.popCount) && Inv(m) && m.program == UnbalancedProgram && m.pc == 0 && m.top == 0 && 1 <= |m.stack|
    ensures Step(env, m) == Next(m.(stack := m.stack[0 := 0], top := 1, pc := 2))
  {
    assert m.program[m.pc] == OpPUSHB000 && GroupOf(OpPUSHB000) == PushGroup;
    assert PushedValues(m.program, 1, false, 1) == [0];
    assert m.stack[..0] + [0] + m.stack[1..] == m.stack[0 := 0];
    assert PushStep(m, OpPUSHB000) == Next(m.(stack := m.stack[0 := 0], top := 1, pc := 2));
  }

  /** The false IF at 2 finds no ELSE or EIF before the program ends. */
  lemma UnbalancedIfStep(env: Env, m: Machine)
    requires StandardPops(env.popCount) && Inv(m) && m.program == UnbalancedProgram && m.pc == 2 && m.top == 1
    requires m.stack[0] == 0
    ensures Step(env, m) == Halt(UnbalancedIfElse)
  {
    assert m.program[m.pc] == OpIF && GroupOf(OpIF) == FlowGroup;
    assert IfElseEnd(m.program, 2, 0, true) == None;
    assert FlowStep(m, OpIF) == Halt(UnbalancedIfElse);
  }

  /** "unbalanced if/else": the run fails when the skip of a false IF reaches the end of the program. */
  lemma UnbalancedIfProgram(env: Env, stack: seq<int32>, store: seq<int32>, gs: GraphicsState, points: Points)
    requires StandardPops(env.popCount) && 1 <= |stack|
    ensures Run(env, Begin(stack, store, map[], gs, points, [], UnbalancedProgram)) == Failed(UnbalancedIfElse)
  {
    var m0 := Begin(stack, store, map[], gs, points, [], UnbalancedProgram);
    var m1 := m0.(stack := stack[0 := 0], top := 1, pc := 2, steps := 1);
    UnbalancedPushStep(env, m0.(steps := 1));
    RunGoesOn(env, m0, m1);
    UnbalancedIfStep(env, m1.(steps := 2));
  }

  /** A program whose function definition holds another FDEF. */
  const NestedFdefProgram: seq<byte> := [OpPUSHB000, 0, OpFDEF, OpFDEF, OpENDF, OpENDF]

  /** PUSHB[0] 0 at its start pushes the function number 0. */
  lemma NestedFdefPushStep(env: Env, m: Machine)
    requires StandardPops(env.popCount) && Inv(m) && m.program == NestedFdefProgram && m.pc == 0 && m.top == 0 && 1 <= |m.stack|
    ensures Step(env, m) == Next(m.(stack := m.stack[0 := 0], top := 1, pc := 2))
  {
    assert m.program[m.pc] == OpPUSHB000 && GroupOf(OpPUSHB000) == PushGroup;
    assert PushedValues(m.program, 1, false, 1) == [0];
    assert m.stack[..0] + [0] + m.stack[1..] == m.stack[0 := 0];
    assert PushStep(m, OpPUSHB000) == Next(m.(stack := m.stack[0 := 0], top := 1, pc := 2));
  }

  /** The FDEF at 2 meets another FDEF before its ENDF. */
  lemma NestedFdefStep(env: Env, m: Machine)
    requires StandardPops(env.popCount) && Inv(m) && m.program == NestedFdefProgram && m.pc == 2 && m.top == 1
    ensures Step(env, m) == Halt(NestedFdef)
  {
    assert m.program[m.pc] == OpFDEF && GroupOf(OpFDEF) == FlowGroup;
    assert FdefEnd(m.program, 2) == NestedDef;
    assert FlowStep(m, OpFDEF) == Halt(NestedFdef);
  }

  /** A nested FDEF makes the run fail with that error. */
  lemma NestedFdefProgramFails(env: Env, stack: seq<int32>, store: seq<int32>, gs: GraphicsState, points: Points)
    requires StandardPops(env.popCount) && 1 <= |stack|
    ensures Run(env, Begin(stack, store, map[], gs, points, [], NestedFdefProgram)) == Failed(NestedFdef)
  {
    var m0 := Begin(stack, store, map[], gs, points, [], NestedFdefProgram);
    var m1 := m0.(stack := stack[0 := 0], top := 1, pc := 2, steps := 1);
    NestedFdefPushStep(env, m0.(steps := 1));
    RunGoesOn(env, m0, m1);
    NestedFdefStep(env, m1.(steps := 2));
  }

  /** The "infinite loop" program: push -1, then DUP and JMPR -1 back to the DUP, forever. */
  const LoopProgram: seq<byte> := [OpPUSHW000, 0xff, 0xff, OpDUP, OpJMPR]

  /** PUSHW[0] 0xff 0xff at the start of the loop program pushes -1. */
  lemma LoopPushStep(env: Env, m: Machine)
    requires StandardPops(env.popCount) && Inv(m) && m.program == LoopProgram && m.pc == 0 && m.top == 0 && 1 <= |m.stack|
    ensures Step(env, m) == Next(m.(stack := m.stack[0 := -1], top := 1, pc := 3))
  {
    assert m.program[m.pc] == OpPUSHW000 && GroupOf(OpPUSHW000) == PushGroup;
    assert PushedValues(m.program, 1, true, 1) == [-1];
    assert m.stack[..0] + [-1] + m.stack[1..] == m.stack[0 := -1];
    assert PushStep(m, OpPUSHW000) == Next(m.(stack := m.stack[0 := -1], top := 1, pc := 3));
  }

  /** DUP at pc 3 of the loop: -1 is copied above the -1 on the stack. */
  lemma LoopDupStep(env: Env, m: Machine)
    requires StandardPops(env.popCount) && Inv(m) && m.program == LoopProgram && m.pc == 3 && m.top == 1 && 2 <= |m.stack|
    requires m.stack[0] == -1
    ensures Step(env, m) == Next(m.(stack := m.stack[1 := -1], top := 2, pc := 4))
  {
    assert m.program[m.pc] == OpDUP && GroupOf(OpDUP) == StackGroup;
    assert StackStep(env, m, OpDUP) == Next(m.(stack := m.stack[1 := -1], top := 2, pc := 4));
  }

  /** JMPR at pc 4 of the loop: the -1 on top is popped and pc goes back to 3. */
  lemma LoopJumpStep(env: Env, m: Machine)
    requires StandardPops(env.popCount) && Inv(m) && m.program == LoopProgram && m.pc == 4 && m.top == 2 && 2 <= |m.stack|
    requires m.stack[1] == -1
    ensures Step(env, m) == Next(m.(top := 1, pc := 3))
  {
    assert m.program[m.pc] == OpJMPR && GroupOf(OpJMPR) == FlowGroup;
    assert FlowStep(m, OpJMPR) == Next(m.(top := 1, pc := 3));
  }



  /** From the DUP of the loop, every run ends at the step limit. */
  lemma {:induction false} LoopRunsOut(env: Env, m: Machine)
    requires StandardPops(env.popCount) && Inv(m) && m.program == LoopProgram && m.pc == 3 && m.top == 1 && 2 <= |m.stack|
    requires m.stack[0] == -1 && m.steps < StepLimit
    ensures RunFrom(env, m) == Failed(TooManySteps)
    decreases StepLimit - m.steps
  {
    if m.steps + 1 < StepLimit {
      var m1 := m.(stack := m.stack[1 := -1], top := 2, pc := 4, steps := m.steps + 1);
      LoopDupStep(env, m.(steps := m.steps + 1));
      RunGoesOn(env, m, m1);
      if m1.steps + 1 < StepLimit {
        var m2 := m1.(top := 1, pc := 3, steps := m1.steps + 1);
        LoopJumpStep(env, m1.(steps := m1.steps + 1));
        RunGoesOn(env, m1, m2);
        LoopRunsOut(env, m2);
      }
    }
  }

  /** "infinite loop": run always ends, here with the error of its 100000th step. */
  lemma InfiniteLoopProgram(env: Env, stack: seq<int32>, store: seq<int32>, gs: GraphicsState, points: Points)
    requires StandardPops(env.popCount) && 2 <= |stack|
    ensures Run(env, Begin(stack, store, map[], gs, points, [], LoopProgram)) == Failed(TooManySteps)
  {
    var m0 := Begin(stack, store, map[], gs, points, [], LoopProgram);
    var m1 := m0.(stack := stack[0 := -1], top := 1, pc := 3, steps := 1);
    LoopPushStep(env, m0.(steps := 1));
    RunGoesOn(env, m0, m1);
    LoopRunsOut(env, m1);
  }

  /**
   * The depth count of the ifelse loop nests: scanning one level deep first
   * finds the EIF closing the inner block, ignoring every ELSE in it, and then
   * goes on from there at the outer depth.
   */
  lemma {:induction false} IfElseNests(program: seq<byte>, q: nat, d: nat, f: bool)
    ensures IfElseEnd(program, q, d + 1, f) ==
      match IfElseEnd(program, q, 0, false)
      case None => None
      case Some(e) => IfElseEnd(program, e, d, f)
    decreases |program| - q
  {
    var p := q + 1;
    if p < |program| {
      var op := program[p];
      if op == OpIF {
        IfElseNests(program, p, d + 1, f);
        IfElseNests(program, p, 0, false);
        match IfElseEnd(program, p, 0, false)
        case None =>
        case Some(e1) =>
          IfElseNests(program, e1, d, f);
          IfElseNests(program, e1, 0, false);
      } else if op == OpELSE {
        IfElseNests(program, p, d, f);
      } else if op != OpEIF {
        var (np, ok) := SkipInstructionPayload(program, p);
        if ok {
          IfElseNests(program, np, d, f);
        }
      }
    }
  }

  /**
   * A nested IF block is skipped whole: when the IF right after q is closed by
   * the EIF at e, the scan from q ends where the scan from e ends, beyond e,
   * so no ELSE or EIF inside the nested block is ever taken.
   */
  lemma NestedBlockSkipped(program: seq<byte>, q: nat, d: nat, f: bool, e: nat)
    requires q + 1 < |program| && program[q + 1] == OpIF
    requires IfElseEnd(program, q + 1, 0, false) == Some(e)
    ensures IfElseEnd(program, q, d, f) == IfElseEnd(program, e, d, f)
    ensures IfElseEnd(program, q, d, f).Some? ==> e < IfElseEnd(program, q, d, f).value
  {
    IfElseNests(program, q + 1, d, f);
  }

  /**
   * The "if/else true if/else false" program: the 0x58 bytes are pushed
   * data that would read as IF opcodes.
   */
  const NestedIfProgram: seq<byte> := [
    OpPUSHB000 + 2, 255, 0, 1, OpIF, OpIF, OpPUSHB000 + 1, 0x58, 0x58, OpELSE, OpPUSHW000, 0x58, 0x58, OpEIF,
    OpELSE, OpIF, OpNPUSHB, 3, 0x58, 0x58, 0x58, OpELSE, OpNPUSHW, 2, 0x58, 0x58, 0x58, 0x58, OpEIF, OpEIF,
    OpPUSHB000, 254]

  /** A false IF skips push data: the IF at 5 goes on after its ELSE at 9, not at the 0x58 bytes pushed at 7 and 8. */
  lemma NestedIfSkipsData()
    ensures IfElseEnd(NestedIfProgram, 5, 0, true) == Some(9)
  {
    var p := NestedIfProgram;
    assert SkipInstructionPayload(p, 6) == (8, true);
    assert IfElseEnd(p, 8, 0, true) == Some(9);
  }

  /**
   * An ELSE skips a nested IF/ELSE/EIF and the NPUSHB and NPUSHW data
   * inside it: the ELSE at 14 goes on after the EIF at 29.
   */
  lemma NestedElseSkipsNested()
    ensures IfElseEnd(NestedIfProgram, 14, 0, false) == Some(29)
  {
    var p := NestedIfProgram;
    assert IfElseEnd(p, 28, 0, false) == Some(29);
    assert IfElseEnd(p, 27, 1, false) == Some(29);
    assert SkipInstructionPayload(p, 22) == (27, true);
    assert IfElseEnd(p, 21, 1, false) == Some(29);
    assert IfElseEnd(p, 20, 1, false) == Some(29);
    assert SkipInstructionPayload(p, 16) == (20, true);
    assert IfElseEnd(p, 15, 1, false) == Some(29);
  }
}
