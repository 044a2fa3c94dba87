/**
 * The pure arithmetic of the TrueType bytecode interpreter
 * (freetype/truetype/hint.go): 26.6 and 2.14 fixed-point helpers, the
 * rounding state machine, two's-complement AND, and the skipping of push
 * payloads. Opcode numbers are those of the TrueType instruction set
 * (Apple TrueType Reference Manual, chapter 5).
 */
module HintArith {
  import opened Ints

  // ---------------------------------------------------------------------------
  // Opcodes (TrueType Reference Manual, chapter 5)
  // ---------------------------------------------------------------------------

  const OpSVTCA0: byte := 0x00
  const OpSVTCA1: byte := 0x01
  const OpSPVTCA0: byte := 0x02
  const OpSPVTCA1: byte := 0x03
  const OpSFVTCA0: byte := 0x04
  const OpSFVTCA1: byte := 0x05
  const OpSPVFS: byte := 0x0A
  const OpSFVFS: byte := 0x0B
  const OpGPV: byte := 0x0C
  const OpGFV: byte := 0x0D
  const OpSFVTPV: byte := 0x0E
  const OpSRP0: byte := 0x10
  const OpSRP1: byte := 0x11
  const OpSRP2: byte := 0x12
  const OpSZP0: byte := 0x13
  const OpSZP1: byte := 0x14
  const OpSZP2: byte := 0x15
  const OpSZPS: byte := 0x16
  const OpSLOOP: byte := 0x17
  const OpRTG: byte := 0x18
  const OpRTHG: byte := 0x19
  const OpSMD: byte := 0x1A
  const OpELSE: byte := 0x1B
  const OpJMPR: byte := 0x1C
  const OpSCVTCI: byte := 0x1D
  const OpSSWCI: byte := 0x1E
  const OpSSW: byte := 0x1F
  const OpDUP: byte := 0x20
  const OpPOP: byte := 0x21
  const OpCLEAR: byte := 0x22
  const OpSWAP: byte := 0x23
  const OpDEPTH: byte := 0x24
  const OpCINDEX: byte := 0x25
  const OpMINDEX: byte := 0x26
  const OpLOOPCALL: byte := 0x2A
  const OpCALL: byte := 0x2B
  const OpFDEF: byte := 0x2C
  const OpENDF: byte := 0x2D
  const OpMDAP0: byte := 0x2E
  const OpMDAP1: byte := 0x2F
  const OpIUP0: byte := 0x30
  const OpIUP1: byte := 0x31
  const OpIP: byte := 0x39
  const OpALIGNRP: byte := 0x3C
  const OpRTDG: byte := 0x3D
  const OpMIAP0: byte := 0x3E
  const OpMIAP1: byte := 0x3F
  const OpNPUSHB: byte := 0x40
  const OpNPUSHW: byte := 0x41
  const OpWS: byte := 0x42
  const OpRS: byte := 0x43
  const OpMPPEM: byte := 0x4B
  const OpMPS: byte := 0x4C
  const OpFLIPON: byte := 0x4D
  const OpFLIPOFF: byte := 0x4E
  const OpDEBUG: byte := 0x4F
  const OpLT: byte := 0x50
  const OpLTEQ: byte := 0x51
  const OpGT: byte := 0x52
  const OpGTEQ: byte := 0x53
  const OpEQ: byte := 0x54
  const OpNEQ: byte := 0x55
  const OpODD: byte := 0x56
  const OpEVEN: byte := 0x57
  const OpIF: byte := 0x58
  const OpEIF: byte := 0x59
  const OpAND: byte := 0x5A
  const OpOR: byte := 0x5B
  const OpNOT: byte := 0x5C
  const OpSDB: byte := 0x5E
  const OpSDS: byte := 0x5F
  const OpADD: byte := 0x60
  const OpSUB: byte := 0x61
  const OpDIV: byte := 0x62
  const OpMUL: byte := 0x63
  const OpABS: byte := 0x64
  const OpNEG: byte := 0x65
  const OpFLOOR: byte := 0x66
  const OpCEILING: byte := 0x67
  const OpROUND00: byte := 0x68
  const OpROUND11: byte := 0x6B
  const OpNROUND00: byte := 0x6C
  const OpNROUND11: byte := 0x6F
  const OpSROUND: byte := 0x76
  const OpS45ROUND: byte := 0x77
  const OpJROT: byte := 0x78
  const OpJROF: byte := 0x79
  const OpROFF: byte := 0x7A
  const OpRUTG: byte := 0x7C
  const OpRDTG: byte := 0x7D
  const OpSANGW: byte := 0x7E
  const OpAA: byte := 0x7F
  const OpSCANCTRL: byte := 0x85
  const OpGETINFO: byte := 0x88
  const OpIDEF: byte := 0x89
  const OpROLL: byte := 0x8A
  const OpMAX: byte := 0x8B
  const OpMIN: byte := 0x8C
  const OpSCANTYPE: byte := 0x8D
  const OpPUSHB000: byte := 0xB0
  const OpPUSHB111: byte := 0xB7
  const OpPUSHW000: byte := 0xB8
  const OpPUSHW111: byte := 0xBF
  const OpMDRP00000: byte := 0xC0
  const OpMDRP11111: byte := 0xDF
  const OpMIRP00000: byte := 0xE0

  predicate IsPushB(op: byte) { OpPUSHB000 <= op <= OpPUSHB111 }
  predicate IsPushW(op: byte) { OpPUSHW000 <= op <= OpPUSHW111 }

  /** The number of data bytes that follow a one-byte-count push (PUSHB[n] or PUSHW[n]). */
  function PushPayload(op: byte): (r: nat)
    requires IsPushB(op) || IsPushW(op)
    ensures IsPushB(op) ==> 1 <= r <= 8
    ensures IsPushW(op) ==> 2 <= r <= 16 && r % 2 == 0
  {
    if IsPushB(op) then (op as int) - (OpPUSHB000 - 1) else 2 * ((op as int) - (OpPUSHW000 - 1))
  }

  // ---------------------------------------------------------------------------
  // skipInstructionPayload
  // ---------------------------------------------------------------------------

  /**
   * The position of the last payload byte of the instruction at pc (pc itself
   * when it has none), and false when an NPUSHB/NPUSHW has no count byte.
   */
  function SkipInstructionPayload(program: seq<byte>, pc: nat): (r: (int, bool))
    requires pc < |program|
    ensures !r.1 <==> (program[pc] == OpNPUSHB || program[pc] == OpNPUSHW) && pc + 1 >= |program|
    ensures r.1 ==> pc <= r.0
    ensures r.1 && program[pc] == OpNPUSHB ==> r.0 == pc + 1 + (program[pc + 1] as int)
    ensures r.1 && program[pc] == OpNPUSHW ==> r.0 == pc + 1 + 2 * (program[pc + 1] as int)
    ensures IsPushB(program[pc]) || IsPushW(program[pc]) ==> r.0 == pc + PushPayload(program[pc])
    ensures program[pc] != OpNPUSHB && program[pc] != OpNPUSHW && !IsPushB(program[pc]) && !IsPushW(program[pc])
            ==> r == (pc, true)
  {
    var op := program[pc];
    if op == OpNPUSHB then
      if pc + 1 >= |program| then (0, false) else (pc + 1 + (program[pc + 1] as int), true)
    else if op == OpNPUSHW then
      if pc + 1 >= |program| then (0, false) else (pc + 1 + 2 * (program[pc + 1] as int), true)
    else if IsPushB(op) then
      (pc + ((op as int) - (OpPUSHB000 - 1)), true)
    else if IsPushW(op) then
      (pc + 2 * ((op as int) - (OpPUSHW000 - 1)), true)
    else
      (pc, true)
  }

  // ---------------------------------------------------------------------------
  // Fixed-point arithmetic
  // ---------------------------------------------------------------------------

  /** Go's f2dot14(x): the low 16 bits of an int32 stack value. */
  function F2Dot14(x: int32): (r: int16)
    ensures IsInt16(x) ==> r == x
  {
    Int16(x)
  }

  /** f26dot6.abs: negation wraps, so the most negative value is its own absolute value. */
  function Abs26(x: int32): (r: int32)
    ensures x != MinInt32 ==> r == Abs(x)
    ensures x == MinInt32 ==> r == x
  {
    if x < 0 then Int32(-(x as int)) else x
  }

  /** f26dot6.mul: the 64-bit product shifted right by 6 (rounding toward minus infinity), truncated to 32 bits. */
  function Mul26(x: int32, y: int32): (r: int32)
    ensures IsInt32(x * y / 64) ==> 64 * r <= x * y < 64 * r + 64
    ensures y == 64 ==> r == x
  {
    Int32(x * y / 64)
  }

  /** f26dot6.div: x shifted left by 6 and divided by y with Go's truncating division, truncated to 32 bits. */
  function Div26(x: int32, y: int32): (r: int32)
    requires y != 0
    ensures IsInt32(Quot(x * 64, y)) ==> r == Quot(x * 64, y)
    ensures y == 64 ==> r == x
  {
    Int32(Quot(x * 64, y))
  }

  /** A 2.14 vector, Go's [2]f2dot14. */
  datatype Vec = Vec(x: int16, y: int16)

  const XAxis: Vec := Vec(0x4000, 0)
  const YAxis: Vec := Vec(0, 0x4000)

  /** dotProduct: (x·qx + y·qy) >> 14 in 64 bits, truncated to 26.6. */
  function DotProduct(x: int32, y: int32, q: Vec): (r: int32)
    ensures q == XAxis ==> r == x
    ensures q == YAxis ==> r == y
  {
    Int32((x * q.x + y * q.y) / 0x4000)
  }

  function Bool2Int32(b: bool): (r: int32)
    ensures r == 1 <==> b
    ensures r == 0 <==> !b
  {
    if b then 1 else 0
  }

  /** Go's int64(x): the low 64 bits read as a two's-complement number. */
  function Int64(x: int): (r: int)
    ensures -0x8000_0000_0000_0000 <= r < 0x8000_0000_0000_0000
    ensures -0x8000_0000_0000_0000 <= x < 0x8000_0000_0000_0000 ==> r == x
  {
    var m := x % 0x1_0000_0000_0000_0000;
    if m >= 0x8000_0000_0000_0000 then m - 0x1_0000_0000_0000_0000 else m
  }

  // ---------------------------------------------------------------------------
  // Two's-complement AND
  // ---------------------------------------------------------------------------

  function Pow2(k: nat): (r: nat)
    ensures r > 0
  {
    if k == 0 then 1 else 2 * Pow2(k - 1)
  }

  /**
   * The bitwise AND of two naturals, one bit at a time from the lowest;
   * the result is no larger than either operand.
   */
  function AndNat(a: nat, b: nat): (r: nat)
    ensures r <= a && r <= b
    decreases a
  {
    if a == 0 || b == 0 then 0
    else (if a % 2 == 1 && b % 2 == 1 then 1 else 0) + 2 * AndNat(a / 2, b / 2)
  }

  /** Go's uint32(x) for an int32 x. */
  function Unsigned32(x: int32): (r: nat)
    ensures r < 0x1_0000_0000
    ensures x >= 0 ==> r == x
    ensures x < 0 ==> r == x + 0x1_0000_0000
  {
    if x < 0 then x + 0x1_0000_0000 else x
  }

  /** Go's x & y on int32 values: the AND of the two's-complement bit patterns. */
  function And32(x: int32, y: int32): int32
  {
    Int32(AndNat(Unsigned32(x), Unsigned32(y)))
  }

  lemma Pow2Values()
    ensures Pow2(4) == 16 && Pow2(5) == 32 && Pow2(6) == 64 && Pow2(7) == 128
    ensures Pow2(31) == 0x8000_0000 && Pow2(32) == 0x1_0000_0000
  {
    assert Pow2(1) == 2;
    assert Pow2(2) == 4;
    assert Pow2(3) == 8;
    assert Pow2(4) == 16;
    assert Pow2(5) == 32;
    assert Pow2(6) == 64;
    assert Pow2(7) == 128;
    assert Pow2(8) == 0x100;
    assert Pow2(9) == 0x200;
    assert Pow2(10) == 0x400;
    assert Pow2(11) == 0x800;
    assert Pow2(12) == 0x1000;
    assert Pow2(13) == 0x2000;
    assert Pow2(14) == 0x4000;
    assert Pow2(15) == 0x8000;
    assert Pow2(16) == 0x1_0000;
    assert Pow2(17) == 0x2_0000;
    assert Pow2(18) == 0x4_0000;
    assert Pow2(19) == 0x8_0000;
    assert Pow2(20) == 0x10_0000;
    assert Pow2(21) == 0x20_0000;
    assert Pow2(22) == 0x40_0000;
    assert Pow2(23) == 0x80_0000;
    assert Pow2(24) == 0x100_0000;
    assert Pow2(25) == 0x200_0000;
    assert Pow2(26) == 0x400_0000;
    assert Pow2(27) == 0x800_0000;
    assert Pow2(28) == 0x1000_0000;
    assert Pow2(29) == 0x2000_0000;
    assert Pow2(30) == 0x4000_0000;
    assert Pow2(31) == 0x8000_0000;
  }

  /** Peeling the lowest bit off a remainder modulo a power of two. */
  lemma ModPow2Step(a: int, n: nat)
    requires n >= 1
    ensures a % Pow2(n) == a % 2 + 2 * ((a / 2) % Pow2(n - 1))
  {
    var P := Pow2(n - 1);
    var q, r := a / 2, a % 2;
    var t, u := q / P, q % P;
    assert q == P * t + u;
    assert (2 * P) * t == 2 * (P * t);
    assert a == (2 * P) * t + (2 * u + r);
    DivModUnique(a, 2 * P, t, 2 * u + r);
  }

  /** The low k bits of a, read as an unsigned number. */
  function LowBits(a: int, k: nat): (r: nat)
    decreases k
  {
    if k == 0 then 0 else a % 2 + 2 * LowBits(a / 2, k - 1)
  }

  /** The low k bits of a are its remainder modulo 2^k. */
  lemma {:induction false} LowBitsMod(a: int, k: nat)
    ensures LowBits(a, k) == a % Pow2(k)
    decreases k
  {
    if k > 0 {
      LowBitsMod(a / 2, k - 1);
      ModPow2Step(a, k);
    }
  }

  /** A number below 2^n is its own low n bits. */
  lemma LowBitsOfSmall(a: nat, n: nat)
    requires a < Pow2(n)
    ensures LowBits(a, n) == a
  {
    LowBitsMod(a, n);
    DivModUnique(a, Pow2(n), 0, a);
  }

  /** Halving a mask of bits k..n-1 gives the mask of bits k-1..n-2. */
  lemma HalveMask(n: nat, k: nat)
    requires 1 <= k <= n
    ensures (Pow2(n) - Pow2(k)) % 2 == 0
    ensures (Pow2(n) - Pow2(k)) / 2 == Pow2(n - 1) - Pow2(k - 1)
  {
    assert Pow2(n) == 2 * Pow2(n - 1);
    assert Pow2(k) == 2 * Pow2(k - 1);
  }

  /** AND with an all-ones mask of n bits keeps a number below 2^n. */
  lemma {:induction false} AndAllOnes(a: nat, n: nat)
    requires a < Pow2(n)
    ensures AndNat(a, Pow2(n) - 1) == a
    decreases n
  {
    if a > 0 {
      var c := Pow2(n - 1);
      var b := Pow2(n) - 1;
      assert b == 2 * (c - 1) + 1;
      assert b % 2 == 1 && b / 2 == c - 1;
      AndAllOnes(a / 2, n - 1);
    }
  }

  /** AND with the mask of bits k..n-1 clears the low k bits of a number below 2^n. */
  lemma {:induction false} AndClearsLow(a: nat, n: nat, k: nat)
    requires a < Pow2(n) && k <= n && Pow2(k) <= Pow2(n)
    ensures AndNat(a, Pow2(n) - Pow2(k)) == a - LowBits(a, k)
    decreases n
  {
    if k == 0 {
      AndAllOnes(a, n);
    } else if a == 0 {
      LowBitsMod(0, k);
    } else if k == n {
      LowBitsOfSmall(a, n);
    } else {
      HalveMask(n, k);
      AndClearsLow(a / 2, n - 1, k - 1);
    }
  }

  lemma {:induction false} PowSplit(a: nat, b: nat)
    ensures Pow2(a + b) == Pow2(b) * Pow2(a)
  {
    if a > 0 {
      PowSplit(a - 1, b);
      assert Pow2(a + b) == 2 * Pow2(a - 1 + b);
      assert Pow2(a) == 2 * Pow2(a - 1);
    }
  }

  /** The floor multiple of p of an int32 is an int32 when p divides 2^31. */
  lemma FloorStaysInt32(x: int32, p: nat, c: nat)
    requires p > 0 && p * c == 0x8000_0000
    ensures IsInt32(FloorTo(x, p))
  {
    var m := -(c as int);
    assert p * m == -0x8000_0000;
    if x / p < m {
      MulMono(p, x / p, m - 1);
    }
    MulMono(p, m, x / p);
  }

  lemma {:induction false} PowMono(j: nat, k: nat)
    requires j <= k
    ensures Pow2(j) <= Pow2(k)
    decreases k
  {
    if j < k {
      PowMono(j, k - 1);
    }
  }

  /** The two's-complement bits of -2^k are bits k..31. */
  lemma NegPow2Bits(k: nat)
    requires 1 <= k <= 30
    ensures Pow2(k) <= 0x4000_0000
    ensures Int32(-(Pow2(k) as int)) == -(Pow2(k) as int)
    ensures Pow2(32) == 0x1_0000_0000
    ensures Unsigned32(-(Pow2(k) as int)) == Pow2(32) - Pow2(k)
  {
    Pow2Values();
    PowMono(k, 30);
  }

  /**
   * For a power-of-two p, x & -p rounds x down to a multiple of p: the
   * identity behind round's `& -roundPeriod`.
   */
  lemma AndNegPow2(x: int32, k: nat)
    requires 1 <= k <= 30
    ensures And32(x, Int32(-(Pow2(k) as int))) == FloorTo(x, Pow2(k))
  {
    AndMaskClears(x, k);
    ClearedIsFloor(x, k);
  }

  /** Subtracting the unsigned remainder modulo 2^k, then reading back as int32, floors x to a multiple of 2^k. */
  lemma ClearedIsFloor(x: int32, k: nat)
    requires k <= 31
    ensures Int32(Unsigned32(x) - LowBits(Unsigned32(x), k)) == FloorTo(x, Pow2(k))
  {
    LowBitsMod(Unsigned32(x), k);
    var c := PowComplement(k);
    var p := Pow2(k);
    var u: int := Unsigned32(x);
    var a := u - u % p;
    FloorStaysInt32(x, p, c);
    if x < 0 {
      AndNegative(x, p, c, a);
    } else {
      assert u == x;
      AndNonNegative(x, p, a);
    }
  }

  /** x & -2^k, computed on the unsigned bits, clears the low k bits. */
  lemma AndMaskClears(x: int32, k: nat)
    requires 1 <= k <= 30
    ensures And32(x, Int32(-(Pow2(k) as int))) == Int32(Unsigned32(x) - LowBits(Unsigned32(x), k))
  {
    NegPow2Bits(k);
    var pk := Pow2(k);
    var mask := Int32(-(pk as int));
    var mu := 0x1_0000_0000 - pk;
    assert Unsigned32(mask) == mu;
    var u := Unsigned32(x);
    AndClearsLow(u, 32, k);
    assert AndNat(u, mu) == u - LowBits(u, k);
  }

  lemma AndNonNegative(x: int32, p: nat, a: int)
    requires x >= 0 && p > 0
    requires a == x - x % p
    ensures Int32(a) == FloorTo(x, p)
  {
    var q := x / p;
    assert x == p * q + x % p;
    assert q >= 0;
    MulMono(p, 0, q);
    assert 0 <= a <= x;
  }

  /** 2^k · 2^(31−k) = 2^31. */
  lemma PowComplement(k: nat) returns (c: nat)
    requires k <= 31
    ensures Pow2(k) * c == 0x8000_0000
  {
    PowSplit(31 - k, k);
    c := Pow2(31 - k);
    Pow2Values();
  }

  lemma AndNegative(x: int32, p: nat, c: nat, a: int)
    requires x < 0 && p > 0 && p * c == 0x8000_0000
    requires a == Unsigned32(x) - Unsigned32(x) % p
    requires IsInt32(FloorTo(x, p))
    ensures Int32(a) == FloorTo(x, p)
  {
    var f := FloorTo(x, p);
    assert Unsigned32(x) == x + p * (2 * c);
    ModShift(x, p, 2 * c);
    assert a == f + 0x1_0000_0000;
    DivModUnique(a, 0x1_0000_0000, 0, a);
  }

  lemma ModShift(x: int, p: int, c: int)
    requires p > 0
    ensures (x + p * c) % p == x % p
  {
    var q, m := x / p, x % p;
    assert p * (q + c) == p * q + p * c;
    assert x + p * c == p * (q + c) + m;
    DivModUnique(x + p * c, p, q + c, m);
  }

  // ---------------------------------------------------------------------------
  // Rounding (TrueType Reference Manual, chapter 2, "Rounding")
  // ---------------------------------------------------------------------------

  /**
   * round: with period 0 rounding is off. Otherwise the magnitude is shifted by
   * threshold − phase, its low bits are cleared with `& −period`, and the phase is
   * added back; a non-zero input never changes sign before the phase is added.
   * All arithmetic is int32 with wrap-around.
   */
  function Round(period: int32, phase: int32, threshold: int32, x: int32): (r: int32)
    ensures period == 0 ==> r == x
  {
    if period == 0 then x
    else if x >= 0 then
      var ret := RoundMagnitude(period, phase, threshold, x);
      Int32((if x != 0 && ret < 0 then 0 else ret) + phase)
    else
      var ret := Int32(-(RoundMagnitude(period, phase, threshold, Int32(-(x as int))) as int));
      Int32((if ret > 0 then 0 else ret) - phase)
  }

  /** The shared core of both branches of round: (m − phase + threshold) & −period. */
  function RoundMagnitude(period: int32, phase: int32, threshold: int32, m: int32): int32
  {
    And32(Int32(m - phase + threshold), Int32(-(period as int)))
  }

  /** With a power-of-two period and no wrap-around, the core of round floors to a multiple of the period. */
  lemma RoundMagnitudeFloor(p: int32, k: nat, phase: int32, threshold: int32, m: int32)
    requires 1 <= k <= 30 && p == Pow2(k)
    requires IsInt32(m - phase + threshold)
    ensures RoundMagnitude(p, phase, threshold, m) == FloorTo(m - phase + threshold, p)
  {
    AndNegPow2(m - phase + threshold, k);
  }

  /** Just above the int32 range, int32(t) wraps by 2^32. */
  lemma Int32Above(t: int)
    requires MaxInt32 < t < MaxInt32 + 0x1_0000_0000
    ensures Int32(t) == t - 0x1_0000_0000
  {
    if t < 0x1_0000_0000 {
      DivModUnique(t, 0x1_0000_0000, 0, t);
    } else {
      DivModUnique(t, 0x1_0000_0000, 1, t - 0x1_0000_0000);
    }
  }

  /** A floored value, and its negation, are multiples of the period. */
  lemma FloorIsMultiple(v: int, p: nat)
    requires p > 0
    ensures FloorTo(v, p) % p == 0
    ensures (-FloorTo(v, p)) % p == 0
  {
    var q := v / p;
    MultipleMod(p, q);
    assert p * (-q) == -FloorTo(v, p);
    MultipleMod(p, -q);
  }

  /** When the top bits of two n-bit numbers, from bit j up, are all set, so are those of their AND. */
  lemma {:induction false} AndHighBits(u: nat, v: nat, n: nat, j: nat)
    requires j <= n
    requires Pow2(n) - Pow2(j) <= u < Pow2(n) && Pow2(n) - Pow2(j) <= v < Pow2(n)
    ensures AndNat(u, v) >= Pow2(n) - Pow2(j)
    decreases n
  {
    if j < n {
      PowMono(j, n - 1);
      var j' := if j == 0 then 0 else j - 1;
      if j == 0 {
        assert u == v == Pow2(n) - 1;
        assert u % 2 == 1 && v % 2 == 1;
      }
      AndHighBits(u / 2, v / 2, n - 1, j');
    }
  }

  /** The AND of a non-negative int32 with any int32 lies between 0 and the first. */
  lemma And32NonNegative(x: int32, y: int32)
    requires x >= 0
    ensures 0 <= And32(x, y) <= x
  {
    assert AndNat(Unsigned32(x), Unsigned32(y)) <= x;
  }

  /** Two negative int32 values at or above -2^j AND to a negative value at or above -2^j. */
  lemma And32HighBits(x: int32, y: int32, j: nat)
    requires j <= 31 && -(Pow2(j) as int) <= x < 0 && -(Pow2(j) as int) <= y < 0
    ensures -(Pow2(j) as int) <= And32(x, y) < 0
  {
    Pow2Values();
    PowMono(j, 31);
    PowMono(31, 32);
    var a := AndNat(Unsigned32(x), Unsigned32(y));
    AndHighBits(Unsigned32(x), Unsigned32(y), 32, j);
    Int32Above(a);
  }

  /** A multiple of a power-of-two period that fits in an int32 leaves room for one period below 2^31. */
  lemma FloorBelowTop(t: int, p: nat, k: nat)
    requires 1 <= k <= 30 && p == Pow2(k) && t <= MaxInt32
    ensures FloorTo(t, p) <= 0x8000_0000 - p
  {
    var c := PowComplement(k);
    var q := t / p;
    if q >= c {
      MulMono(p, c, q);
    }
    MulMono(p, q, c - 1);
  }

  /** A rounding state with a power-of-two period, as RTG, RTHG, RTDG, RUTG, RDTG and SROUND set. */
  predicate Pow2Rounding(k: nat, phase: int32, threshold: int32)
  {
    5 <= k <= 7 && 0 <= phase < Pow2(k) && threshold + Pow2(k) >= 0 && threshold <= 2 * Pow2(k)
  }

  /**
   * Sign preservation: with a power-of-two period, every positive input rounds
   * to at least the phase, and a negative one whose shifted magnitude fits in an
   * int32 to at most minus the phase; the result lies on the grid of multiples
   * of the period shifted by the phase.
   */
  lemma RoundKeepsSign(p: int32, k: nat, phase: int32, threshold: int32, x: int32)
    requires p == Pow2(k) && Pow2Rounding(k, phase, threshold)
    ensures x > 0 ==> Round(p, phase, threshold, x) >= phase
    ensures x > 0 ==> (Round(p, phase, threshold, x) - phase) % p == 0
    ensures MinInt32 < x < 0 && -x - phase + threshold <= MaxInt32 ==> Round(p, phase, threshold, x) <= -phase
    ensures MinInt32 < x < 0 && -x - phase + threshold <= MaxInt32 ==> (Round(p, phase, threshold, x) + phase) % p == 0
  {
    PowMono(k, 7);
    Pow2Values();
    if x > 0 {
      RoundPositive(p, k, phase, threshold, x);
    } else if MinInt32 < x < 0 && -x - phase + threshold <= MaxInt32 {
      RoundNegative(p, k, phase, threshold, x);
    }
  }

  /** The x > 0 branch of round: the shifted value floored to the period, clamped at zero, plus the phase. */
  lemma RoundPositive(p: int32, k: nat, phase: int32, threshold: int32, x: int32)
    requires 1 <= k <= 30 && p == Pow2(k) && p <= 0x1000
    requires 0 <= phase < p && -p <= threshold <= 2 * p
    requires x > 0
    ensures Round(p, phase, threshold, x) >= phase
    ensures (Round(p, phase, threshold, x) - phase) % p == 0
  {
    if x - phase + threshold > MaxInt32 {
      RoundPositiveWraps(p, k, phase, threshold, x);
    } else {
      RoundPositiveFits(p, k, phase, threshold, x);
    }
  }

  /** When x − phase + threshold passes 2^31 − 1 it wraps negative, and round clamps to the phase. */
  lemma RoundPositiveWraps(p: int32, k: nat, phase: int32, threshold: int32, x: int32)
    requires 1 <= k <= 30 && p == Pow2(k) && p <= 0x1000
    requires 0 <= phase < p && -p <= threshold <= 2 * p
    requires x > 0 && x - phase + threshold > MaxInt32
    ensures Round(p, phase, threshold, x) == phase
    ensures (Round(p, phase, threshold, x) - phase) % p == 0
  {
    var t := x - phase + threshold;
    NegPow2Bits(k);
    Int32Above(t);
    PowMono(k, 31);
    And32HighBits(Int32(t), Int32(-(p as int)), 31);
    assert RoundMagnitude(p, phase, threshold, x) < 0;
  }

  /** Otherwise round is the shifted value floored to the period, clamped at zero, plus the phase. */
  lemma RoundPositiveFits(p: int32, k: nat, phase: int32, threshold: int32, x: int32)
    requires 1 <= k <= 30 && p == Pow2(k) && p <= 0x1000
    requires 0 <= phase < p && -p <= threshold <= 2 * p
    requires x > 0 && x - phase + threshold <= MaxInt32
    ensures Round(p, phase, threshold, x) >= phase
    ensures (Round(p, phase, threshold, x) - phase) % p == 0
  {
    var t := x - phase + threshold;
    var f := FloorTo(t, p);
    var g := if f < 0 then 0 else f;
    assert g % p == 0 by {
      FloorIsMultiple(t, p);
    }
    assert RoundMagnitude(p, phase, threshold, x) == f by {
      RoundMagnitudeFloor(p, k, phase, threshold, x);
    }
    FloorBelowTop(t, p, k);
    assert Round(p, phase, threshold, x) == g + phase;
  }

  /** The x < 0 branch of round: the same on the magnitude, negated, clamped at zero, minus the phase. */
  lemma RoundNegative(p: int32, k: nat, phase: int32, threshold: int32, x: int32)
    requires 1 <= k <= 30 && p == Pow2(k) && p <= 0x1000
    requires 0 <= phase < p && -p <= threshold <= 2 * p
    requires MinInt32 < x < 0 && -x - phase + threshold <= MaxInt32
    ensures Round(p, phase, threshold, x) <= -phase
    ensures (Round(p, phase, threshold, x) + phase) % p == 0
  {
    var m: int32 := -(x as int);
    var t := m - phase + threshold;
    var f := FloorTo(t, p);
    var g := if -f > 0 then 0 else -f;
    assert g % p == 0 by {
      if -f > 0 {
        MultipleMod(p, 0);
      } else {
        FloorIsMultiple(t, p);
      }
    }
    FloorBelowTop(t, p, k);
    assert RoundMagnitude(p, phase, threshold, m) == f by {
      RoundMagnitudeFloor(p, k, phase, threshold, m);
    }
    assert Int32(-(x as int)) == m;
    assert Int32(-(f as int)) == -f;
    assert Round(p, phase, threshold, x) + phase == g;
  }

  /**
   * Sign preservation for any positive period, the S45ROUND periods 22, 45
   * and 90 included: while x plus the threshold stays an int32, a positive
   * input rounds to at least the phase and a negative one to at most minus
   * the phase.
   */
  lemma RoundKeepsSignAnyPeriod(p: int32, phase: int32, threshold: int32, x: int32)
    requires 1 <= p <= 0x1000 && 0 <= phase < p && -p <= threshold <= 2 * p
    ensures x > 0 && x + threshold <= MaxInt32 ==> Round(p, phase, threshold, x) >= phase
    ensures MinInt32 < x < 0 && -x + threshold <= MaxInt32 ==> Round(p, phase, threshold, x) <= -phase
  {
    if x > 0 && x + threshold <= MaxInt32 {
      AnyPeriodPositive(p, phase, threshold, x);
    } else if MinInt32 < x < 0 && -x + threshold <= MaxInt32 {
      AnyPeriodNegative(p, phase, threshold, x);
    }
  }

  lemma Pow2Of13()
    ensures Pow2(13) == 0x2000
  {
    Pow2Values();
    assert Pow2(8) == 256;
  }

  /** The x > 0 branch for any period: the AND is at most the shifted value, or negative and clamped. */
  lemma AnyPeriodPositive(p: int32, phase: int32, threshold: int32, x: int32)
    requires 1 <= p <= 0x1000 && 0 <= phase < p && -p <= threshold <= 2 * p
    requires x > 0 && x + threshold <= MaxInt32
    ensures Round(p, phase, threshold, x) >= phase
  {
    var mask := Int32(-(p as int));
    assert mask == -p;
    var a := x - phase + threshold;
    assert Int32(a) == a;
    var r := And32(a, mask);
    assert RoundMagnitude(p, phase, threshold, x) == r;
    if a >= 0 {
      And32NonNegative(a, mask);
      assert Round(p, phase, threshold, x) == r + phase;
    } else {
      Pow2Of13();
      And32HighBits(a, mask, 13);
      assert Round(p, phase, threshold, x) == phase;
    }
  }

  /** The x < 0 branch for any period: the same on the magnitude, negated. */
  lemma AnyPeriodNegative(p: int32, phase: int32, threshold: int32, x: int32)
    requires 1 <= p <= 0x1000 && 0 <= phase < p && -p <= threshold <= 2 * p
    requires MinInt32 < x < 0 && -x + threshold <= MaxInt32
    ensures Round(p, phase, threshold, x) <= -phase
  {
    var mask := Int32(-(p as int));
    assert mask == -p;
    var m: int32 := -(x as int);
    assert Int32(-(x as int)) == m;
    var b := m - phase + threshold;
    assert Int32(b) == b;
    var r := And32(b, mask);
    assert RoundMagnitude(p, phase, threshold, m) == r;
    if b >= 0 {
      And32NonNegative(b, mask);
      assert Int32(-(r as int)) == -r;
      assert Round(p, phase, threshold, x) == -r - phase;
    } else {
      Pow2Of13();
      And32HighBits(b, mask, 13);
      assert Int32(-(r as int)) == -r;
      assert Round(p, phase, threshold, x) == -phase;
    }
  }

  /**
   * Near the int32 minimum the negation in round wraps: under RTHG (period 64,
   * phase 32, threshold 32), -2^31 negates to itself, and subtracting the
   * phase then wraps to a positive result.
   */
  lemma RoundHalfGridAtMinimum()
    ensures Round(64, 32, 32, MinInt32) == MaxInt32 - 31
  {
    var m := Int32(-(MinInt32 as int));
    assert m == MinInt32 by {
      Int32Above(0x8000_0000);
    }
    var v := Int32(m - 32 + 32);
    assert v == MinInt32;
    var mag := RoundMagnitude(64, 32, 32, m);
    assert mag == MinInt32 by {
      assert Pow2(6) == 64 by {
        Pow2Values();
      }
      DivModUnique(MinInt32, 64, -0x200_0000, 0);
      AndNegPow2(v, 6);
    }
    var ret := Int32(-(mag as int));
    assert ret == MinInt32;
    assert Int32(ret - 32) == MaxInt32 - 31 by {
      DivModUnique(MinInt32 - 32, 0x1_0000_0000, -1, MaxInt32 - 31);
    }
  }

  /**
   * Under RTG (period 64, phase 0, threshold 32) every result is a multiple
   * of 64, and away from the int32 limits it is a nearest one.
   */
  lemma RoundToGridIsNearest(x: int32)
    ensures Round(64, 0, 32, x) % 64 == 0
    ensures MinInt32 + 64 <= x <= MaxInt32 - 64 ==> -32 <= Round(64, 0, 32, x) - x <= 32
  {
    Pow2Values();
    if x >= 0 {
      GridNonNegative(x);
    } else if x <= MinInt32 + 32 {
      GridNearMinimum(x);
    } else {
      GridNegative(x);
    }
  }

  lemma GridNonNegative(x: int32)
    requires x >= 0 && Pow2(6) == 64
    ensures Round(64, 0, 32, x) % 64 == 0
    ensures x <= MaxInt32 - 64 ==> -32 <= Round(64, 0, 32, x) - x <= 32
  {
    if x <= MaxInt32 - 32 {
      var f := FloorTo(x - 0 + 32, 64);
      assert f % 64 == 0 by {
        FloorIsMultiple(x - 0 + 32, 64);
      }
      assert RoundMagnitude(64, 0, 32, x) == f by {
        RoundMagnitudeFloor(64, 6, 0, 32, x);
      }
      assert 0 <= f <= MaxInt32;
      assert Round(64, 0, 32, x) == f;
    } else {
      GridNearMaximum(x);
    }
  }

  /** Within 32 of 2^31 − 1 the shifted value wraps negative, and round clamps to 0. */
  lemma GridNearMaximum(x: int32)
    requires x > MaxInt32 - 32 && Pow2(6) == 64
    ensures Round(64, 0, 32, x) == 0
  {
    var v := x - 0 + 32 - 0x1_0000_0000;
    assert Int32(x - 0 + 32) == v by {
      Int32Above(x - 0 + 32);
    }
    assert And32(v, Int32(-(Pow2(6) as int))) == FloorTo(v, Pow2(6)) by {
      AndNegPow2(v, 6);
    }
    assert RoundMagnitude(64, 0, 32, x) == FloorTo(v, 64);
    assert FloorTo(v, 64) < 0;
  }

  lemma GridNegative(x: int32)
    requires MinInt32 + 32 < x < 0 && Pow2(6) == 64
    ensures Round(64, 0, 32, x) % 64 == 0
    ensures -32 <= Round(64, 0, 32, x) - x <= 32
  {
    var m: int32 := -(x as int);
    var f := FloorTo(m - 0 + 32, 64);
    assert (-f) % 64 == 0 by {
      FloorIsMultiple(m - 0 + 32, 64);
    }
    assert RoundMagnitude(64, 0, 32, m) == f by {
      RoundMagnitudeFloor(64, 6, 0, 32, m);
    }
    assert Int32(-(x as int)) == m;
    assert 0 <= f <= MaxInt32 && m - 31 <= f <= m + 32;
    assert Int32(-f) == -f;
    assert Round(64, 0, 32, x) == -f;
  }

  /**
   * Within 32 of −2^31 the shifted magnitude wraps to a negative value, its
   * floor is −2^31, and negating that wraps back: round gives −2^31.
   */
  lemma GridNearMinimum(x: int32)
    requires MinInt32 <= x <= MinInt32 + 32 && Pow2(6) == 64
    ensures Round(64, 0, 32, x) == MinInt32
  {
    var m := Int32(-(x as int));
    var v := Int32(m - 0 + 32);
    NearMinimumShift(x);
    var mag := RoundMagnitude(64, 0, 32, m);
    assert mag == MinInt32 by {
      AndNearMinimum(v);
    }
    var ret := Int32(-(mag as int));
    assert ret == MinInt32 by {
      Int32Above(0x8000_0000);
    }
    assert Int32(ret - 0) == MinInt32;
  }

  /** Within 32 of −2^31, the negation and the added 32 wrap to within 64 of −2^31. */
  lemma NearMinimumShift(x: int32)
    requires MinInt32 <= x <= MinInt32 + 32
    ensures MinInt32 <= Int32(Int32(-(x as int)) + 32) < MinInt32 + 64
  {
    var m := Int32(-(x as int));
    if x == MinInt32 {
      Int32Above(-(x as int));
      assert m == MinInt32;
    } else {
      assert m == -x;
      Int32Above(m + 32);
    }
  }

  /** Clearing the six low bits of a value within 64 of −2^31 leaves −2^31. */
  lemma AndNearMinimum(v: int32)
    requires MinInt32 <= v < MinInt32 + 64 && Pow2(6) == 64
    ensures And32(v, Int32(-64)) == MinInt32
  {
    DivModUnique(v, 64, -0x200_0000, v - MinInt32);
    AndNegPow2(v, 6);
  }

  /**
   * round on a non-negative input whose shifted value neither wraps nor floors
   * below zero: the floor of x − phase + threshold to the period, plus the phase.
   */
  lemma RoundNonNegative(p: int32, k: nat, phase: int32, threshold: int32, x: int32)
    requires 1 <= k <= 30 && p == Pow2(k) && x >= 0
    requires IsInt32(x - phase + threshold)
    requires FloorTo(x - phase + threshold, p) >= 0
    requires IsInt32(FloorTo(x - phase + threshold, p) + phase)
    ensures Round(p, phase, threshold, x) == FloorTo(x - phase + threshold, p) + phase
  {
    RoundMagnitudeFloor(p, k, phase, threshold, x);
  }

  // The rounding cases of the interpreter's own test: 90 (1.40625 pixels)
  // under each of the five fixed rounding modes.

  /** RTG (round to grid): 90 rounds to 64. */
  lemma RoundRTGExample()
    ensures Round(64, 0, 32, 90) == 64
  {
    assert FloorTo(122, 64) == 64;
    assert Pow2(6) == 64 by {
      Pow2Values();
    }
    RoundMagnitudeFloor(64, 6, 0, 32, 90);
  }

  /** RTHG (round to half grid): 90 rounds to 96. */
  lemma RoundRTHGExample()
    ensures Round(64, 32, 32, 90) == 96
  {
    assert FloorTo(90, 64) == 64;
    assert Pow2(6) == 64 by {
      Pow2Values();
    }
    RoundMagnitudeFloor(64, 6, 32, 32, 90);
  }

  /**
   * RDTG (round down to grid) rounds toward zero: a non-negative value to the
   * multiple of 64 at or below it, a negative one to minus that of its magnitude.
   * The test's case, 90 to 64, is FloorTo(90, 64).
   */
  lemma RoundDownToGridTowardZero(x: int32)
    requires x > MinInt32
    ensures x >= 0 ==> Round(64, 0, 0, x) == FloorTo(x, 64)
    ensures x < 0 ==> Round(64, 0, 0, x) == -FloorTo(-(x as int), 64)
  {
    assert Pow2(6) == 64 by {
      Pow2Values();
    }
    if x >= 0 {
      RoundMagnitudeFloor(64, 6, 0, 0, x);
    } else {
      var m: int32 := -(x as int);
      RoundMagnitudeFloor(64, 6, 0, 0, m);
      assert Int32(-(x as int)) == m;
      assert 0 <= FloorTo(m - 0 + 0, 64) <= m;
    }
  }

  /** RUTG (round up to grid): 90 rounds to 128. */
  lemma RoundRUTGExample()
    ensures Round(64, 0, 63, 90) == 128
  {
    assert FloorTo(153, 64) == 128;
    assert Pow2(6) == 64 by {
      Pow2Values();
    }
    RoundMagnitudeFloor(64, 6, 0, 63, 90);
  }

  /** RTDG (round to double grid): 90 rounds to 96. */
  lemma RoundRTDGExample()
    ensures Round(32, 0, 16, 90) == 96
  {
    assert FloorTo(106, 32) == 96;
    assert Pow2(5) == 32 by {
      Pow2Values();
    }
    RoundMagnitudeFloor(32, 5, 0, 16, 90);
  }

  /** SROUND/S45ROUND's period: bits 6-7 choose 1/2, 1 or 2 pixels; S45ROUND scales by 1/√2. */
  function SroundPeriod(v: int32, diagonal: bool): (r: int32)
    ensures !diagonal ==> r == 32 || r == 64 || r == 128
    ensures diagonal ==> r == 22 || r == 45 || r == 90
  {
    var sel := (v / 64) % 4;
    var p := if sel == 0 then 32 else if sel == 2 then 128 else 64;
    if diagonal then Quot(p * 46341, 65536) else p
  }

  /** SROUND/S45ROUND's phase: bits 4-5 choose 0, 1/4, 1/2 or 3/4 of the period. */
  function SroundPhase(period: int32, v: int32): (r: int32)
    requires 0 < period <= 128
    ensures 0 <= r < period
  {
    var sel := (v / 16) % 4;
    MulMono(period, 0, sel);
    MulMono(period, sel, 3);
    Quot(period * sel, 4)
  }

  /** SROUND/S45ROUND's threshold: bits 0-3 choose (n−4)/8 of the period, or period − 1 for 0. */
  function SroundThreshold(period: int32, v: int32): (r: int32)
    requires 0 < period <= 128
    ensures -period < r <= 2 * period
  {
    var x := v % 16;
    if x != 0 then
      MulMono(period, -3, x - 4);
      MulMono(period, x - 4, 11);
      Quot(period * (x - 4), 8)
    else period - 1
  }

  /** SROUND 0x58 (the interpreter test's super-rounding setting) selects period 64, phase 16, threshold 32. */
  lemma SroundExample()
    ensures SroundPeriod(0x58, false) == 64
    ensures SroundPhase(64, 0x58) == 16
    ensures SroundThreshold(64, 0x58) == 32
  {
  }

  /** SROUND (not S45ROUND) always yields a rounding state covered by RoundKeepsSign. */
  lemma SroundIsPow2Rounding(v: int32)
    ensures var p := SroundPeriod(v, false);
            var k := if p == 32 then 5 else if p == 64 then 6 else 7;
            p == Pow2(k) && Pow2Rounding(k, SroundPhase(p, v), SroundThreshold(p, v))
  {
    Pow2Values();
  }

  /** S45ROUND yields a rounding state covered by RoundKeepsSignAnyPeriod. */
  lemma S45roundIsCovered(v: int32)
    ensures var p := SroundPeriod(v, true);
            var phase, threshold := SroundPhase(p, v), SroundThreshold(p, v);
            1 <= p <= 0x1000 && 0 <= phase < p && -p <= threshold <= 2 * p
  {
  }
}
