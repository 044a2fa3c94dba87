/**
 * Model of freetype/raster/geom.go: 24.8 fixed-point numbers and their text
 * form, 90-degree rotations, the tagged flat Path buffer that the rasterizer
 * is fed through, and the split of a Path into single-curve subpaths that
 * Stroke performs before fattening each curve.
 */
module RasterGeom {
  import opened Ints

  /** A 24.8 fixed-point number, Go's `Fixed` (an int32). */
  type Fixed = int32

  /** A two-dimensional point or vector in 24.8 fixed point. */
  datatype Point = Point(x: Fixed, y: Fixed)

  /** One call on an Adder: the abstract log that stands for a rasterizer or a Path being fed. */
  datatype AdderCall =
    | Start(a: Point)
    | Add1(b: Point)
    | Add2(b: Point, c: Point)
    | Add3(b: Point, c: Point, d: Point)

  /** Where the pen ends after a call. */
  function PenAfter(c: AdderCall): Point
  {
    match c
    case Start(a) => a
    case Add1(b) => b
    case Add2(_, c) => c
    case Add3(_, _, d) => d
  }

  /** The midpoint of two 24.8 points, each sum wrapping and each halving truncating. */
  function Midpoint(a: Point, b: Point): Point
  {
    Point(Mid32(a.x, b.x), Mid32(a.y, b.y))
  }

  /**
   * A contour's calls: Start at s, then a walk that never starts a contour
   * and ends the pen at s. Start is the first call and no other, and the
   * pen ends where the contour began.
   */
  lemma StartThenWalk(s: Point, w: seq<AdderCall>)
    requires |w| > 0 && PenAfter(w[|w| - 1]) == s && forall k :: 0 <= k < |w| ==> !w[k].Start?
    ensures var calls := [Start(s)] + w;
      |calls| >= 2 && calls[0] == Start(s) &&
      (forall k :: 1 <= k < |calls| ==> !calls[k].Start?) &&
      PenAfter(calls[|calls| - 1]) == s
  {
    var calls := [Start(s)] + w;
    assert forall k :: 1 <= k < |calls| ==> calls[k] == w[k - 1];
  }

  // ---------------------------------------------------------------------------
  // Scalar helpers

  /** maxAbs: the larger magnitude, computed with int32 negation. */
  function MaxAbs(a: Fixed, b: Fixed): (r: Fixed)
    ensures a != MinInt32 && b != MinInt32 ==> r == Max(Abs(a), Abs(b))
    ensures r == (if a < 0 then Int32(-(a as int)) else a) || r == (if b < 0 then Int32(-(b as int)) else b)
  {
    var a' := if a < 0 then Int32(-(a as int)) else a;
    var b' := if b < 0 then Int32(-(b as int)) else b;
    if a' < b' then b' else a'
  }

  /** RotateCW: (x, y) becomes (y, -x), the negation wrapping as int32. */
  function RotateCW(p: Point): (r: Point)
    ensures r.x == p.y
    ensures p.x != MinInt32 ==> r.y == -p.x
  {
    Point(p.y, Int32(-(p.x as int)))
  }

  /** RotateCCW: (x, y) becomes (-y, x), the negation wrapping as int32. */
  function RotateCCW(p: Point): (r: Point)
    ensures r.y == p.x
    ensures p.y != MinInt32 ==> r.x == -p.y
  {
    Point(Int32(-(p.y as int)), p.x)
  }

  /** int32 negation is its own inverse, including at the minimum value where it wraps. */
  lemma NegateTwice(x: Fixed)
    ensures Int32(-Int32(-(x as int))) == x
  {
    if x == MinInt32 {
      assert Int32(-(x as int)) == MinInt32;
    }
  }

  /** The two rotations undo each other, for every int32 point. */
  lemma {:induction false} RotateInverse(p: Point)
    ensures RotateCCW(RotateCW(p)) == p
    ensures RotateCW(RotateCCW(p)) == p
  {
    NegateTwice(p.x);
    NegateTwice(p.y);
  }

  // ---------------------------------------------------------------------------
  // Fixed.String

  /** Decimal digits of n, most significant first (no sign, no padding). */
  function Digits(n: nat): (s: string)
    ensures |s| >= 1
    ensures forall k :: 0 <= k < |s| ==> '0' <= s[k] <= '9'
    decreases n
  {
    if n < 10 then [DigitChar(n)] else Digits(n / 10) + [DigitChar(n % 10)]
  }

  function DigitChar(d: nat): (c: char)
    requires d < 10
    ensures '0' <= c <= '9' && c as int - '0' as int == d
  {
    ('0' as int + d) as char
  }

  /** Go's "%d". */
  function DecimalInt(i: int): string
  {
    if i < 0 then "-" + Digits(-i) else Digits(i)
  }

  /** Go's "%03d" for a value in [0, 1000). */
  function Pad3(f: nat): (s: string)
    requires f < 1000
    ensures |s| == 3
  {
    [DigitChar(f / 100), DigitChar(f / 10 % 10), DigitChar(f % 10)]
  }

  /**
   * Fixed.String as written: the quotient and remainder of x by 256 are
   * truncated toward zero, and the remainder's sign is dropped.
   */
  function FixedString(x: Fixed): (s: string)
    ensures x >= 0 ==> s == Digits(x / 256) + ":" + Pad3(x % 256)
  {
    var i := Quot(x, 256);
    var f := Rem(x, 256);
    DecimalInt(i) + ":" + Pad3(Abs(f))
  }

  /** The form written in the comment above Fixed.String: one and a quarter is "1:064". */
  lemma FixedStringOneAndAQuarter()
    ensures FixedString(320) == "1:064"
  {
    assert Digits(1) == "1";
    assert Pad3(64) == "064";
  }

  /** The text form loses the sign of every value strictly between -1 and 0. */
  lemma FixedStringDropsSign()
    ensures FixedString(-64) == FixedString(64) == "0:064"
  {
    assert Quot(-64, 256) == 0;
    assert Rem(-64, 256) == -64;
    assert Digits(0) == "0";
    assert Pad3(64) == "064";
  }

  /**
   * The text form with the sign kept: a leading '-' for every negative value,
   * followed by the form of its magnitude.
   */
  function FixedStringSigned(x: Fixed): (s: string)
    ensures x >= 0 ==> s == FixedString(x)
    ensures x < 0 <==> (|s| > 0 && s[0] == '-')
  {
    var m := Abs(x);
    (if x < 0 then "-" else "") + Digits(m / 256) + ":" + Pad3(m % 256)
  }

  /** As written and signed agree except strictly between -1 and 0. */
  lemma FixedStringAgrees(x: Fixed)
    requires !(-256 < x < 0)
    ensures FixedString(x) == FixedStringSigned(x)
  {
    if x < 0 {
      assert Quot(x, 256) == -(Abs(x) / 256);
      assert Abs(Rem(x, 256)) == Abs(x) % 256;
    }
  }

  /** The decimal value of a string of digits. */
  function DecimalValue(s: string): nat
    requires forall k :: 0 <= k < |s| ==> '0' <= s[k] <= '9'
  {
    if s == [] then 0 else DecimalValue(s[..|s| - 1]) * 10 + (s[|s| - 1] as int - '0' as int)
  }

  lemma {:induction false} DigitsValue(n: nat)
    ensures DecimalValue(Digits(n)) == n
    decreases n
  {
    if n >= 10 {
      var s := Digits(n);
      assert s[..|s| - 1] == Digits(n / 10);
      DigitsValue(n / 10);
    }
  }

  lemma Pad3Value(f: nat)
    requires f < 1000
    ensures DecimalValue(Pad3(f)) == f
  {
    var a, b, c := f / 100, f / 10 % 10, f % 10;
    var p := Pad3(f);
    assert p == [DigitChar(a), DigitChar(b), DigitChar(c)];
    assert p[..2] == [DigitChar(a), DigitChar(b)];
    assert p[..2][..1] == [DigitChar(a)];
    assert [DigitChar(a)][..0] == [];
    assert DecimalValue([DigitChar(a)]) == a;
    assert DecimalValue(p[..2]) == a * 10 + b;
    assert DecimalValue(p) == (a * 10 + b) * 10 + c;
    assert (a * 10 + b) * 10 + c == f by { ThreeDigits(f); }
  }

  lemma ThreeDigits(f: nat)
    requires f < 1000
    ensures (f / 100 * 10 + f / 10 % 10) * 10 + f % 10 == f
  {
  }

  predicate AllDigits(s: string)
  {
    forall k :: 0 <= k < |s| ==> '0' <= s[k] <= '9'
  }

  /** The shape "<digits>:<three digits>". */
  predicate UnsignedText(s: string)
  {
    |s| >= 5 && s[|s| - 4] == ':' && AllDigits(s[..|s| - 4]) && AllDigits(s[|s| - 3..])
  }

  /** The shape of the signed text form: an optional '-' before an unsigned text. */
  predicate FixedText(s: string)
  {
    UnsignedText(s) || (|s| > 0 && s[0] == '-' && UnsignedText(s[1..]))
  }

  function ParseUnsigned(s: string): nat
    requires UnsignedText(s)
  {
    DecimalValue(s[..|s| - 4]) * 256 + DecimalValue(s[|s| - 3..])
  }

  /** Reads back the signed text form. */
  function ParseFixed(s: string): int
    requires FixedText(s)
  {
    if UnsignedText(s) then ParseUnsigned(s) else -(ParseUnsigned(s[1..]) as int)
  }

  lemma UnsignedRoundTrip(m: nat)
    ensures UnsignedText(Digits(m / 256) + ":" + Pad3(m % 256))
    ensures ParseUnsigned(Digits(m / 256) + ":" + Pad3(m % 256)) == m
  {
    var d := Digits(m / 256);
    var p := Pad3(m % 256);
    var body := d + ":" + p;
    assert body[..|body| - 4] == d;
    assert body[|body| - 3..] == p;
    DigitsValue(m / 256);
    Pad3Value(m % 256);
  }

  /** The signed text form is faithful: reading it back gives the value it was made from. */
  lemma FixedStringSignedRoundTrip(x: Fixed)
    ensures FixedText(FixedStringSigned(x))
    ensures ParseFixed(FixedStringSigned(x)) == x
  {
    var m := Abs(x);
    var body := Digits(m / 256) + ":" + Pad3(m % 256);
    UnsignedRoundTrip(m);
    var s := FixedStringSigned(x);
    if x < 0 {
      assert s == "-" + body;
      assert s[1..] == body;
      assert !UnsignedText(s);
    } else {
      assert s == body;
    }
  }

  /** Hence distinct values have distinct signed text forms. */
  lemma FixedStringSignedInjective(x: Fixed, y: Fixed)
    requires FixedStringSigned(x) == FixedStringSigned(y)
    ensures x == y
  {
    FixedStringSignedRoundTrip(x);
    FixedStringSignedRoundTrip(y);
  }

  // ---------------------------------------------------------------------------
  // Path: a tagged flat buffer. Tag 0 starts a curve, tags 1, 2 and 3 add a
  // linear, quadratic or cubic segment; each tag is followed by 2, 2, 4 or 6
  // coordinates.

  /** The number of elements a segment with the given tag occupies, tag included. */
  function SegmentLength(tag: int): (n: nat)
    requires 0 <= tag <= 3
    ensures n == 3 || n == 5 || n == 7
  {
    if tag <= 1 then 3 else if tag == 2 then 5 else 7
  }

  /** The elements decode as a sequence of whole tagged segments. */
  ghost predicate WellTagged(s: seq<Fixed>)
    decreases |s|
  {
    s == [] || (0 <= s[0] <= 3 && SegmentLength(s[0]) <= |s| && WellTagged(s[SegmentLength(s[0])..]))
  }

  /** Appending whole segments keeps a path well tagged. */
  lemma {:induction false} WellTaggedAppend(s: seq<Fixed>, t: seq<Fixed>)
    requires WellTagged(s) && WellTagged(t)
    ensures WellTagged(s + t)
    decreases |s|
  {
    if s != [] {
      var n := SegmentLength(s[0]);
      assert (s + t)[n..] == s[n..] + t;
      WellTaggedAppend(s[n..], t);
    } else {
      assert s + t == t;
    }
  }

  /** The encoding of one Adder call as Path elements. */
  function Encode(c: AdderCall): (s: seq<Fixed>)
    ensures WellTagged(s)
    ensures |s| >= 3 && 0 <= s[0] <= 3 && |s| == SegmentLength(s[0])
  {
    var s := match c
      case Start(a) => [0, a.x, a.y]
      case Add1(b) => [1, b.x, b.y]
      case Add2(b, d) => [2, b.x, b.y, d.x, d.y]
      case Add3(b, d, e) => [3, b.x, b.y, d.x, d.y, e.x, e.y];
    assert s[SegmentLength(s[0])..] == [];
    s
  }

  /** The path elements for a log of Adder calls. */
  function EncodeAll(cs: seq<AdderCall>): (s: seq<Fixed>)
    ensures WellTagged(s)
  {
    if cs == [] then [] else
      var s := Encode(cs[0]) + EncodeAll(cs[1..]);
      WellTaggedAppend(Encode(cs[0]), EncodeAll(cs[1..]));
      s
  }

  /**
   * A Path is a growable slice: `buf` is its backing array (the capacity) and
   * `len` its length. Growing within the capacity exposes whatever the backing
   * array held; growing beyond it allocates a larger zeroed array.
   */
  class Path {
    var buf: array<Fixed>
    var len: nat

    ghost predicate Valid()
      reads this
    {
      len <= buf.Length
    }

    /** The Path's elements, the slice's visible part. */
    ghost function Elements(): seq<Fixed>
      reads this, buf
      requires Valid()
    {
      buf[..len]
    }

    constructor ()
      ensures Valid() && Elements() == []
    {
      buf := new Fixed[0];
      len := 0;
    }

    /** grow: the length increases by exactly n and the existing elements are kept. */
    method Grow(n: nat)
      requires Valid()
      modifies this
      ensures Valid()
      ensures len == old(len) + n
      ensures buf[..old(len)] == old(buf[..len])
      ensures buf == old(buf) || fresh(buf)
    {
      var m := n + len;
      if m > buf.Length {
        var old' := buf;
        var nb := new Fixed[2 * m + 8];
        forall k | 0 <= k < len {
          nb[k] := old'[k];
        }
        buf := nb;
        len := m;
        return;
      }
      len := m;
    }

    /** Clear: the length becomes zero, the backing array is kept. */
    method Clear()
      requires Valid()
      modifies this
      ensures Valid() && Elements() == [] && buf == old(buf)
    {
      len := 0;
    }

    /** Writes one encoded segment after growing by its length. */
    method AppendSegment(seg: seq<Fixed>)
      requires Valid()
      modifies this, buf
      ensures Valid()
      ensures Elements() == old(Elements()) + seg
      ensures buf == old(buf) || fresh(buf)
    {
      var n := len;
      Grow(|seg|);
      var k := 0;
      while k < |seg|
        invariant 0 <= k <= |seg| && Valid() && len == n + |seg|
        invariant buf[..n] == old(buf[..len])
        invariant buf[n..n + k] == seg[..k]
        modifies buf
      {
        buf[n + k] := seg[k];
        k := k + 1;
      }
      assert buf[..len] == buf[..n] + buf[n..n + k];
    }

    /** Start appends tag 0 and the point: exactly 3 elements after the unchanged prefix. */
    method StartCurve(a: Point)
      requires Valid()
      modifies this, buf
      ensures Valid() && Elements() == old(Elements()) + [0, a.x, a.y]
      ensures WellTagged(old(Elements())) ==> WellTagged(Elements())
    {
      ghost var e := Elements();
      AppendSegment(Encode(Start(a)));
      if WellTagged(e) {
        WellTaggedAppend(e, Encode(Start(a)));
      }
    }

    /** Add1 appends tag 1 and the point: 3 elements. */
    method AddLinear(b: Point)
      requires Valid()
      modifies this, buf
      ensures Valid() && Elements() == old(Elements()) + [1, b.x, b.y]
      ensures WellTagged(old(Elements())) ==> WellTagged(Elements())
    {
      ghost var e := Elements();
      AppendSegment(Encode(Add1(b)));
      if WellTagged(e) {
        WellTaggedAppend(e, Encode(Add1(b)));
      }
    }

    /** Add2 appends tag 2 and two points: 5 elements. */
    method AddQuadratic(b: Point, c: Point)
      requires Valid()
      modifies this, buf
      ensures Valid() && Elements() == old(Elements()) + [2, b.x, b.y, c.x, c.y]
      ensures WellTagged(old(Elements())) ==> WellTagged(Elements())
    {
      ghost var e := Elements();
      AppendSegment(Encode(Add2(b, c)));
      if WellTagged(e) {
        WellTaggedAppend(e, Encode(Add2(b, c)));
      }
    }

    /** Add3 appends tag 3 and three points: 7 elements. */
    method AddCubic(b: Point, c: Point, d: Point)
      requires Valid()
      modifies this, buf
      ensures Valid() && Elements() == old(Elements()) + [3, b.x, b.y, c.x, c.y, d.x, d.y]
      ensures WellTagged(old(Elements())) ==> WellTagged(Elements())
    {
      ghost var e := Elements();
      AppendSegment(Encode(Add3(b, c, d)));
      if WellTagged(e) {
        WellTaggedAppend(e, Encode(Add3(b, c, d)));
      }
    }

    /** AddPath: the elements become the old elements followed by q. */
    method AddPath(q: seq<Fixed>)
      requires Valid()
      modifies this, buf
      ensures Valid() && Elements() == old(Elements()) + q
      ensures WellTagged(old(Elements())) && WellTagged(q) ==> WellTagged(Elements())
    {
      ghost var e := Elements();
      AppendSegment(q);
      if WellTagged(e) && WellTagged(q) {
        WellTaggedAppend(e, q);
      }
    }
  }

  // ---------------------------------------------------------------------------
  // Stroke's split of a path into single-curve subpaths.

  /** From position j on, the segment starts of s carry only the tags 1, 2 and 3: no second curve begins. */
  ghost predicate CurveBody(s: seq<Fixed>, j: nat)
    decreases |s| - j
  {
    j >= |s| || (1 <= s[j] <= 3 && CurveBody(s, j + SegmentLength(s[j])))
  }

  /** Scanning q by segment lengths from a, every segment start before b has tag 1, 2 or 3, and the scan lands on b. */
  ghost predicate Reaches(q: seq<Fixed>, a: nat, b: nat)
    decreases b - a
  {
    a == b || (a < b && a < |q| && 1 <= q[a] <= 3 && Reaches(q, a + SegmentLength(q[a]), b))
  }

  lemma {:induction false} ReachesStep(q: seq<Fixed>, a: nat, b: nat)
    requires Reaches(q, a, b) && b < |q| && 1 <= q[b] <= 3
    ensures Reaches(q, a, b + SegmentLength(q[b]))
    decreases b - a
  {
    if a < b {
      ReachesStep(q, a + SegmentLength(q[a]), b);
    }
  }

  /** A scan that stays inside [i, b] is a curve body of the slice q[i..b]; one that runs off the end is one of q[i..]. */
  lemma {:induction false} ReachesCurveBody(q: seq<Fixed>, i: nat, a: nat, b: nat)
    requires i <= a && Reaches(q, a, b)
    ensures b <= |q| ==> CurveBody(q[i..b], a - i)
    ensures b >= |q| && i <= |q| ==> CurveBody(q[i..], a - i)
    decreases b - a
  {
    if a < b {
      ReachesCurveBody(q, i, a + SegmentLength(q[a]), b);
    }
  }

  function Concat(ss: seq<seq<Fixed>>): seq<Fixed>
  {
    if ss == [] then [] else Concat(ss[..|ss| - 1]) + ss[|ss| - 1]
  }

  datatype StrokeSplit = Subpaths(parts: seq<seq<Fixed>>) | StrokePanic(msg: string)

  /** Stroke's scan from position j on meets only the segment tags 0..3 until it passes the end of s. */
  ghost predicate ScanTags(s: seq<Fixed>, j: nat)
    decreases |s| - j
  {
    j >= |s| || (0 <= s[j] <= 3 && ScanTags(s, j + SegmentLength(s[j])))
  }

  /** The scan over a well-tagged suffix meets no bad tag. */
  lemma {:induction false} WellTaggedScans(s: seq<Fixed>, j: nat)
    requires j <= |s| && WellTagged(s[j..])
    ensures ScanTags(s, j)
    decreases |s| - j
  {
    if j < |s| {
      var n := SegmentLength(s[j]);
      assert s[j..][n..] == s[j + n..];
      WellTaggedScans(s, j + n);
    }
  }

  /** A well-tagged path that starts with a move is split by Stroke without a panic. */
  lemma WellTaggedSplits(q: seq<Fixed>)
    requires q != [] && q[0] == 0 && WellTagged(q)
    ensures ScanTags(q, 3)
  {
    assert q[0..] == q;
    WellTaggedScans(q, 0);
  }

  /**
   * One step of Stroke's scan loop as written: the next segment start after
   * position j. A tag outside 0..3 matches no case of the switch, so j stays.
   */
  function ScanNextAsWritten(q: seq<Fixed>, j: nat): int
    requires j < |q|
  {
    if q[j] == 0 || q[j] == 1 then j + 3
    else if q[j] == 2 then j + 5
    else if q[j] == 3 then j + 7
    else j
  }

  /** A path whose second segment has tag 7: the scan loop's position is a fixed point, so the loop never ends. */
  lemma StrokeScanStalls()
    ensures var q: seq<Fixed> := [0, 0, 0, 7];
      3 < |q| && ScanNextAsWritten(q, 3) == 3
  {
  }

  /**
   * Stroke's split of q into the subpaths handed to stroke, one per curve. An
   * empty q gives nothing; a q not starting with tag 0 panics; a segment tag
   * outside 0..3 panics (where the loop as written spins forever). It
   * panics for no other reason: every other path is split.
   */
  method StrokeSplitPath(q: seq<Fixed>) returns (r: StrokeSplit)
    ensures q == [] ==> r == Subpaths([])
    ensures q != [] && q[0] != 0 ==> r == StrokePanic("freetype/raster: bad path")
    ensures r.StrokePanic? <==> q != [] && (q[0] != 0 || !ScanTags(q, 3))
    ensures r.Subpaths? ==> Concat(r.parts) == q
    ensures r.Subpaths? ==> forall k :: 0 <= k < |r.parts| ==>
      |r.parts[k]| > 0 && r.parts[k][0] == 0 && CurveBody(r.parts[k], 3)
  {
    if |q| == 0 {
      return Subpaths([]);
    }
    if q[0] != 0 {
      return StrokePanic("freetype/raster: bad path");
    }
    var parts: seq<seq<Fixed>> := [];
    var i: nat := 0;
    var j: nat := 3;
    while j < |q|
      invariant i < |q| && q[i] == 0 && i + 3 <= j
      invariant Concat(parts) == q[..i]
      invariant Reaches(q, i + 3, j)
      invariant ScanTags(q, 3) == ScanTags(q, j)
      invariant forall k :: 0 <= k < |parts| ==> |parts[k]| > 0 && parts[k][0] == 0 && CurveBody(parts[k], 3)
      decreases |q| - j
    {
      var tag := q[j];
      if tag == 0 {
        ReachesCurveBody(q, i, i + 3, j);
        assert q[..j] == q[..i] + q[i..j];
        parts := parts + [q[i..j]];
        i, j := j, j + 3;
      } else if 1 <= tag <= 3 {
        ReachesStep(q, i + 3, j);
        j := j + SegmentLength(tag);
      } else {
        return StrokePanic("freetype/raster: bad path");
      }
    }
    ReachesCurveBody(q, i, i + 3, j);
    assert q == q[..i] + q[i..];
    parts := parts + [q[i..]];
    return Subpaths(parts);
  }
}
