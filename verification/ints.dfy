/**
 * Fixed-width integer helpers shared by the other modules.
 *
 * Go's integer conversions (int8(x), int16(x), uint16(x), int32(x), uint32(x))
 * keep the low bits of a value and reinterpret them, so arithmetic on those
 * types wraps around. Dafny's `int` is unbounded, so every such conversion is
 * written out here. Go's `/` and `%` on signed integers truncate toward zero,
 * while Dafny's are Euclidean; `Quot` and `Rem` give Go's meaning. Font data
 * is big-endian.
 */
module Ints {

  type byte = x: int | 0 <= x < 0x100
  type uint16 = x: int | 0 <= x < 0x1_0000
  type uint32 = x: int | 0 <= x < 0x1_0000_0000
  type int16 = x: int | -0x8000 <= x < 0x8000
  type int32 = x: int | -0x8000_0000 <= x < 0x8000_0000

  const MinInt32: int := -0x8000_0000
  const MaxInt32: int := 0x7fff_ffff

  /** A value that may be absent: Go's nil, or a result with ok == false. */
  datatype Option<T> = None | Some(value: T)

  predicate IsInt16(x: int) { -0x8000 <= x < 0x8000 }
  predicate IsInt32(x: int) { MinInt32 <= x <= MaxInt32 }

  /** Go's int8(x): the low 8 bits of x read as a two's-complement number. */
  function Int8(x: int): (r: int)
    ensures -0x80 <= r < 0x80
    ensures (x - r) % 0x100 == 0
    ensures -0x80 <= x < 0x80 ==> r == x
  {
    var m := x % 0x100;
    if m >= 0x80 then m - 0x100 else m
  }

  /** Go's int16(x). */
  function Int16(x: int): (r: int)
    ensures IsInt16(r)
    ensures (x - r) % 0x1_0000 == 0
    ensures IsInt16(x) ==> r == x
  {
    var m := x % 0x1_0000;
    if m >= 0x8000 then m - 0x1_0000 else m
  }

  /** Go's int32(x). */
  function Int32(x: int): (r: int)
    ensures IsInt32(r)
    ensures IsInt32(x) ==> r == x
  {
    var m := x % 0x1_0000_0000;
    if m >= 0x8000_0000 then m - 0x1_0000_0000 else m
  }

  /** The midpoint (a + b) / 2 of two int32 values, the sum wrapping and the halving truncating. */
  function Mid32(a: int32, b: int32): (r: int32)
    ensures MinInt32 <= a + b <= MaxInt32 ==> r == Quot(a + b, 2)
  {
    var s := Int32(a + b);
    Quot(s, 2)
  }

  /** Go's uint8(x). */
  function Uint8(x: int): (r: byte)
    ensures (x - r) % 0x100 == 0
    ensures 0 <= x < 0x100 ==> r == x
  {
    x % 0x100
  }

  /** Go's uint16(x). */
  function Uint16(x: int): (r: int)
    ensures 0 <= r < 0x1_0000
    ensures (x - r) % 0x1_0000 == 0
    ensures 0 <= x < 0x1_0000 ==> r == x
  {
    x % 0x1_0000
  }

  /** Go's uint32(x). */
  function Uint32(x: int): (r: int)
    ensures 0 <= r < 0x1_0000_0000
    ensures (x - r) % 0x1_0000_0000 == 0
    ensures 0 <= x < 0x1_0000_0000 ==> r == x
  {
    x % 0x1_0000_0000
  }

  /** Go's x / y on signed integers: the quotient truncated toward zero. */
  function Quot(x: int, y: int): (r: int)
    requires y != 0
    ensures Abs(r) == Abs(x) / Abs(y)
    ensures r == 0 || (r < 0) == ((x < 0) != (y < 0))
  {
    var q := NatQuot(Abs(x), Abs(y));
    if (x < 0) == (y < 0) then q else -(q as int)
  }

  /** Division of naturals: the quotient of a non-negative by a positive number is non-negative. */
  function NatQuot(a: nat, b: nat): (q: nat)
    requires b > 0
    ensures q == a / b
  {
    a / b
  }

  /** Go's x % y for a positive y: the remainder takes the sign of x. */
  function Rem(x: int, y: int): (r: int)
    requires y > 0
    ensures Abs(r) < y
    ensures r == 0 || (r < 0) == (x < 0)
    ensures x == Quot(x, y) * y + r
  {
    if x >= 0 then x % y else -((-x) % y)
  }

  function Abs(x: int): (r: nat)
    ensures r == x || r == -x
  {
    if x < 0 then -x else x
  }

  function Max(a: int, b: int): (r: int)
    ensures r >= a && r >= b && (r == a || r == b)
  {
    if a < b then b else a
  }

  /** Bit `b` (a power of two) of the two's-complement value x: Go's x&b != 0. */
  predicate HasBit(x: int, b: nat)
    requires b > 0
  {
    (x / b) % 2 == 1
  }

  /** Go's x &^ (m-1) for a power of two m: clear the low bits, rounding toward minus infinity. */
  function FloorTo(x: int, m: nat): (r: int)
    requires m > 0
    ensures r <= x < r + m
    ensures r == m * (x / m)
  {
    m * (x / m)
  }

  /** The unsigned big-endian 16-bit value at s[off..off+2]. */
  function BE16(s: seq<byte>, off: nat): (r: int)
    requires off + 2 <= |s|
    ensures 0 <= r < 0x1_0000
  {
    (s[off] as int) * 0x100 + s[off + 1]
  }

  /** The unsigned big-endian 32-bit value at s[off..off+4]. */
  function BE32(s: seq<byte>, off: nat): (r: int)
    requires off + 4 <= |s|
    ensures 0 <= r < 0x1_0000_0000
  {
    BE16(s, off) * 0x1_0000 + BE16(s, off + 2)
  }

  /** The bytes of a big-endian value are its base-256 digits, most significant first. */
  lemma BEDigits(s: seq<byte>, off: nat)
    requires off + 4 <= |s|
    ensures BE16(s, off) / 0x100 == s[off] && BE16(s, off) % 0x100 == s[off + 1]
    ensures BE32(s, off) / 0x1_0000 == BE16(s, off) && BE32(s, off) % 0x1_0000 == BE16(s, off + 2)
  {
  }

  // ---------------------------------------------------------------------------
  // Division facts

  /** Multiplying by a positive factor keeps the order. */
  lemma MulMono(p: int, a: int, b: int)
    requires p > 0 && a <= b
    ensures p * a <= p * b
  {
    var e := b - a;
    assert p * b == p * a + p * e;
    assert p * e >= 0;
  }

  /** Division with remainder is unique. */
  lemma DivModUnique(a: int, d: int, t: int, s: int)
    requires d > 0 && a == d * t + s && 0 <= s < d
    ensures a / d == t && a % d == s
  {
    var q := a / d;
    var m := a % d;
    assert d * q + m == d * t + s;
    if q > t {
      MulMono(d, t + 1, q);
    } else if q < t {
      MulMono(d, q + 1, t);
    }
  }

  /** A multiple of p leaves no remainder. */
  lemma MultipleMod(p: int, t: int)
    requires p > 0
    ensures (p * t) % p == 0
  {
    DivModUnique(p * t, p, t, 0);
  }
}
