/**
 * IUP, the interpolation of untouched points (freetype/truetype/hint.go:
 * the IUP case of run, iupInterp and iupShift). Every function here reads
 * and writes the glyph zone only, and None stands for a Go run-time panic
 * (an index out of range).
 */
module HintIup {
  import opened Ints
  import opened HintArith
  import opened HintState

  /** The coordinate IUP works on: y for IUP[0], x for IUP[1]. */
  function Coord(p: Point, y: bool): int32
  {
    if y then p.y else p.x
  }

  function WithCoord(p: Point, y: bool, v: int32): (r: Point)
    ensures Coord(r, y) == v && Coord(r, !y) == Coord(p, !y) && r.flags == p.flags
  {
    if y then p.(y := v) else p.(x := v)
  }

  /** Two points agree except, possibly, in the coordinate IUP works on. */
  predicate SameButCoord(p: Point, q: Point, y: bool)
  {
    Coord(p, !y) == Coord(q, !y) && p.flags == q.flags
  }

  /** Two point sequences have the same length and agree off the coordinate IUP works on. */
  predicate OnlyCoordChanged(a: seq<Point>, b: seq<Point>, y: bool)
  {
    |a| == |b| && forall k :: 0 <= k < |a| ==> SameButCoord(a[k], b[k], y)
  }

  lemma OnlyCoordChangedTrans(a: seq<Point>, b: seq<Point>, c: seq<Point>, y: bool)
    requires OnlyCoordChanged(a, b, y) && OnlyCoordChanged(b, c, y)
    ensures OnlyCoordChanged(a, c, y)
  {
  }

  // ---------------------------------------------------------------------------
  // iupShift

  /**
   * iupShift: every point of [p1, p2) but p moves by p's own displacement
   * from its unhinted position (nothing moves when that is zero).
   */
  function IupShift(z: Zone, y: bool, p1: int, p2: int, p: int): Option<seq<Point>>
  {
    if !(0 <= p < |z.current| && p < |z.unhinted|) then None
    else
      var delta := Int32(Coord(z.current[p], y) - Coord(z.unhinted[p], y));
      if delta == 0 then Some(z.current) else ShiftFrom(z.current, y, p1, p2, p, delta)
  }

  /** The shift loop from i on. */
  function ShiftFrom(cur: seq<Point>, y: bool, i: int, p2: int, p: int, delta: int32): Option<seq<Point>>
    decreases p2 - i
  {
    if i >= p2 then Some(cur)
    else if i == p then ShiftFrom(cur, y, i + 1, p2, p, delta)
    else if !(0 <= i < |cur|) then None
    else ShiftFrom(cur[i := Shifted(cur[i], y, delta)], y, i + 1, p2, p, delta)
  }

  function Shifted(q: Point, y: bool, delta: int32): Point
  {
    WithCoord(q, y, Int32(Coord(q, y) + delta))
  }

  /**
   * The shift loop fails exactly when its range pokes outside the points,
   * and otherwise moves every point of [i, p2) but p by delta, and no other.
   */
  lemma {:induction false} ShiftFromMoves(cur: seq<Point>, y: bool, i: int, p2: int, p: int, delta: int32)
    requires 0 <= p < |cur|
    ensures ShiftFrom(cur, y, i, p2, p, delta).Some? <==> (p2 <= i || (0 <= i && p2 <= |cur|))
    ensures ShiftFrom(cur, y, i, p2, p, delta).Some? ==>
              var r := ShiftFrom(cur, y, i, p2, p, delta).value;
              |r| == |cur| &&
              forall k :: 0 <= k < |r| ==> r[k] == (if i <= k < p2 && k != p then Shifted(cur[k], y, delta) else cur[k])
    decreases p2 - i
  {
    if i >= p2 {
    } else if i == p {
      ShiftFromMoves(cur, y, i + 1, p2, p, delta);
    } else if 0 <= i < |cur| {
      ShiftFromMoves(cur[i := Shifted(cur[i], y, delta)], y, i + 1, p2, p, delta);
    }
  }

  /** iupShift moves the points of [p1, p2) other than p by p's displacement and leaves every other point alone. */
  lemma IupShiftMoves(z: Zone, y: bool, p1: int, p2: int, p: int)
    requires IupShift(z, y, p1, p2, p).Some?
    ensures 0 <= p < |z.current| && p < |z.unhinted|
    ensures var r := IupShift(z, y, p1, p2, p).value;
            var delta := Int32(Coord(z.current[p], y) - Coord(z.unhinted[p], y));
            |r| == |z.current| &&
            forall k :: 0 <= k < |r| ==>
              r[k] == (if p1 <= k < p2 && k != p then Shifted(z.current[k], y, delta) else z.current[k])
  {
    var delta := Int32(Coord(z.current[p], y) - Coord(z.unhinted[p], y));
    if delta != 0 {
      ShiftFromMoves(z.current, y, p1, p2, p, delta);
    } else {
      forall k | 0 <= k < |z.current|
        ensures Shifted(z.current[k], y, 0) == z.current[k]
      {
      }
    }
  }

  // ---------------------------------------------------------------------------
  // iupInterp

  /**
   * The two reference points of an interpolation, ordered by their
   * original (font unit) coordinate: unhinted coordinates, how far each has
   * moved, and the font-unit coordinates.
   */
  datatype Refs = Refs(unh1: int32, unh2: int32, delta1: int32, delta2: int32, ifu1: int32, ifu2: int32)

  /**
   * iupInterp: the points of [p1, p2] are moved by the lower reference's
   * displacement below it, by the upper's above it, and linearly in between
   * (in font units). Nothing happens when the range is empty or a reference
   * is not a current point.
   */
  function IupInterp(z: Zone, y: bool, p1: int, p2: int, ref1: int, ref2: int): Option<seq<Point>>
  {
    if p1 > p2 || ref1 >= |z.current| || ref2 >= |z.current| then Some(z.current)
    else match RefsOf(z, y, ref1, ref2)
      case None => None
      case Some(refs) =>
        if refs.ifu1 == refs.ifu2 then SameFrom(z, y, p1, p2, refs, z.current)
        else InterpFrom(z, y, p1, p2, refs, z.current)
  }

  /** The two references, the one with the smaller font-unit coordinate first. */
  function RefsOf(z: Zone, y: bool, ref1: int, ref2: int): (r: Option<Refs>)
    requires ref1 < |z.current| && ref2 < |z.current|
    ensures r.Some? ==> r.value.ifu1 <= r.value.ifu2
  {
    if !(0 <= ref1 < |z.inFontUnits| && 0 <= ref2 < |z.inFontUnits|) then None
    else
      var a := Coord(z.inFontUnits[ref1], y);
      var b := Coord(z.inFontUnits[ref2], y);
      var lo := if a > b then ref2 else ref1;
      var hi := if a > b then ref1 else ref2;
      if !(lo < |z.unhinted| && hi < |z.unhinted|) then None
      else
        var unh1 := Coord(z.unhinted[lo], y);
        var unh2 := Coord(z.unhinted[hi], y);
        Some(Refs(unh1, unh2, Int32(Coord(z.current[lo], y) - unh1), Int32(Coord(z.current[hi], y) - unh2),
                  if a > b then b else a, if a > b then a else b))
  }

  /** The new coordinate of a point when both references sit at the same font-unit coordinate. */
  function SameValue(refs: Refs, xy: int32): int32
  {
    if xy <= refs.unh1 then Int32(xy + refs.delta1) else Int32(xy + refs.delta2)
  }

  /** The loop for references at the same font-unit coordinate, from i on. */
  function SameFrom(z: Zone, y: bool, i: int, p2: int, refs: Refs, cur: seq<Point>): Option<seq<Point>>
    decreases p2 - i
  {
    if i > p2 then Some(cur)
    else if !(0 <= i < |z.unhinted| && i < |cur|) then None
    else SameFrom(z, y, i + 1, p2, refs, cur[i := WithCoord(cur[i], y, SameValue(refs, Coord(z.unhinted[i], y)))])
  }

  /**
   * The 16.16 ratio of the references' hinted distance to their font-unit
   * distance, rounded half away from zero; the font-unit difference is taken
   * in int32, where it cannot wrap to zero.
   */
  function InterpScale(refs: Refs): int
    requires refs.ifu1 < refs.ifu2
  {
    var numer := Int32(refs.unh2 + refs.delta2 - refs.unh1 - refs.delta1) * 0x10000;
    var denom := Int32(refs.ifu2 - refs.ifu1);
    assert denom != 0;
    var n := if numer >= 0 then numer + Quot(denom, 2) else numer - Quot(denom, 2);
    Quot(n, denom)
  }

  /** A point strictly between the references: the lower reference's hinted position plus its scaled font-unit offset. */
  function InterpValue(refs: Refs, scale: int, ifuXY: int32): int32
  {
    var numer := Int64(Int32(ifuXY - refs.ifu1) * scale);
    var n := if numer >= 0 then Int64(numer + 0x8000) else Int64(numer - 0x8000);
    Int32(refs.unh1 + refs.delta1 + Int32(Quot(n, 0x10000)))
  }

  /** The new coordinate of a point whose unhinted coordinate is xy and font-unit coordinate ifuXY. */
  function Interpolated(refs: Refs, xy: int32, ifuXY: int32): int32
    requires refs.ifu1 < refs.ifu2
  {
    if xy <= refs.unh1 then Int32(xy + refs.delta1)
    else if xy >= refs.unh2 then Int32(xy + refs.delta2)
    else InterpValue(refs, InterpScale(refs), ifuXY)
  }

  /** The interpolation loop from i on. */
  function InterpFrom(z: Zone, y: bool, i: int, p2: int, refs: Refs, cur: seq<Point>): Option<seq<Point>>
    requires refs.ifu1 < refs.ifu2
    decreases p2 - i
  {
    if i > p2 then Some(cur)
    else if !(0 <= i < |z.unhinted| && i < |z.inFontUnits| && i < |cur|) then None
    else
      var v := Interpolated(refs, Coord(z.unhinted[i], y), Coord(z.inFontUnits[i], y));
      InterpFrom(z, y, i + 1, p2, refs, cur[i := WithCoord(cur[i], y, v)])
  }

  /** Both interpolation loops write only the coordinate IUP works on, and only inside [i, p2]. */
  lemma {:induction false} SameFromFrame(z: Zone, y: bool, i: int, p2: int, refs: Refs, cur: seq<Point>)
    requires SameFrom(z, y, i, p2, refs, cur).Some?
    ensures var r := SameFrom(z, y, i, p2, refs, cur).value;
            OnlyCoordChanged(cur, r, y) && forall k :: 0 <= k < |r| && !(i <= k <= p2) ==> r[k] == cur[k]
    decreases p2 - i
  {
    if i <= p2 {
      var next := cur[i := WithCoord(cur[i], y, SameValue(refs, Coord(z.unhinted[i], y)))];
      SameFromFrame(z, y, i + 1, p2, refs, next);
    }
  }

  lemma {:induction false} InterpFromFrame(z: Zone, y: bool, i: int, p2: int, refs: Refs, cur: seq<Point>)
    requires refs.ifu1 < refs.ifu2
    requires InterpFrom(z, y, i, p2, refs, cur).Some?
    ensures var r := InterpFrom(z, y, i, p2, refs, cur).value;
            OnlyCoordChanged(cur, r, y) && forall k :: 0 <= k < |r| && !(i <= k <= p2) ==> r[k] == cur[k]
    decreases p2 - i
  {
    if i <= p2 {
      var v := Interpolated(refs, Coord(z.unhinted[i], y), Coord(z.inFontUnits[i], y));
      InterpFromFrame(z, y, i + 1, p2, refs, cur[i := WithCoord(cur[i], y, v)]);
    }
  }

  /** iupInterp changes only the coordinate it works on, and only for points in [p1, p2]. */
  lemma IupInterpFrame(z: Zone, y: bool, p1: int, p2: int, ref1: int, ref2: int)
    requires IupInterp(z, y, p1, p2, ref1, ref2).Some?
    ensures var r := IupInterp(z, y, p1, p2, ref1, ref2).value;
            OnlyCoordChanged(z.current, r, y) && forall k :: 0 <= k < |r| && !(p1 <= k <= p2) ==> r[k] == z.current[k]
  {
    if !(p1 > p2 || ref1 >= |z.current| || ref2 >= |z.current|) {
      var refs := RefsOf(z, y, ref1, ref2).value;
      if refs.ifu1 == refs.ifu2 {
        SameFromFrame(z, y, p1, p2, refs, z.current);
      } else {
        InterpFromFrame(z, y, p1, p2, refs, z.current);
      }
    }
  }

  /**
   * A point at or below the lower reference moves exactly as that reference
   * did, and one at or above the upper reference as that one did; in
   * particular the references themselves land on their hinted positions.
   */
  lemma InterpolatedOutside(refs: Refs, xy: int32, ifuXY: int32)
    requires refs.ifu1 < refs.ifu2
    ensures xy <= refs.unh1 ==> Interpolated(refs, xy, ifuXY) == Int32(xy + refs.delta1)
    ensures refs.unh1 < xy && refs.unh2 <= xy ==> Interpolated(refs, xy, ifuXY) == Int32(xy + refs.delta2)
  {
  }

  /** A point at the lower reference's font-unit coordinate, strictly between the references, lands on the lower reference's hinted position. */
  lemma InterpolatedAtLowerReference(refs: Refs, xy: int32)
    requires refs.ifu1 < refs.ifu2 && refs.unh1 < xy < refs.unh2
    requires MinInt32 <= refs.unh1 + refs.delta1 <= MaxInt32
    ensures Interpolated(refs, xy, refs.ifu1) == refs.unh1 + refs.delta1
  {
    var scale := InterpScale(refs);
    assert Int32(refs.ifu1 - refs.ifu1) == 0;
    assert Int64(0 * scale) == 0;
    assert Quot(0x8000, 0x10000) == 0;
  }

  // ---------------------------------------------------------------------------
  // IUP over the contours

  /** Where the scan for a touched point stopped. */
  datatype Scan = TouchedAt(i: int) | NoneTouched | ScanPanic

  /** The first point of [i, end) whose touched bit is set. */
  function FirstTouched(cur: seq<Point>, i: int, end: int, mask: nat): (r: Scan)
    requires mask == FlagTouchedX || mask == FlagTouchedY
    ensures r.TouchedAt? ==> i <= r.i < end && 0 <= r.i < |cur| && HasBit(cur[r.i].flags, mask)
    decreases end - i
  {
    if i >= end then NoneTouched
    else if !(0 <= i < |cur|) then ScanPanic
    else if HasBit(cur[i].flags, mask) then TouchedAt(i)
    else FirstTouched(cur, i + 1, end, mask)
  }

  /** The state of the walk along one contour: the zone and the last touched point seen. */
  datatype Walk = WalkedTo(z: Zone, last: int) | WalkPanic

  /**
   * From i to the contour's end, interpolate each run of untouched points
   * between two consecutive touched points.
   */
  function InterpRuns(z: Zone, y: bool, mask: nat, i: int, end: int, last: int): Walk
    requires mask == FlagTouchedX || mask == FlagTouchedY
    decreases end - i
  {
    if i >= end then WalkedTo(z, last)
    else if !(0 <= i < |z.current|) then WalkPanic
    else if HasBit(z.current[i].flags, mask) then
      match IupInterp(z, y, last + 1, i - 1, last, i)
      case None => WalkPanic
      case Some(c) => InterpRuns(z.(current := c), y, mask, i + 1, end, i)
    else InterpRuns(z, y, mask, i + 1, end, last)
  }

  function TouchMask(y: bool): nat
  {
    if y then FlagTouchedY else FlagTouchedX
  }

  /**
   * One contour, the points [prevEnd, end): nothing when no point is
   * touched; a shift when one is; otherwise the runs between touched points
   * and the wrap-around run from the last touched point to the first.
   */
  function IupContour(z: Zone, y: bool, prevEnd: int, end: int): Option<Zone>
  {
    var mask := TouchMask(y);
    if prevEnd >= end then Some(z)
    else match FirstTouched(z.current, prevEnd, end, mask)
      case ScanPanic => None
      case NoneTouched => Some(z)
      case TouchedAt(first) =>
        match InterpRuns(z, y, mask, first + 1, end, first)
        case WalkPanic => None
        case WalkedTo(z1, last) => CloseContour(z1, y, prevEnd, end, first, last)
  }

  /**
   * The end of one contour: a shift when first is its only touched point,
   * and otherwise the run from the last touched point round to the first.
   */
  function CloseContour(z: Zone, y: bool, prevEnd: int, end: int, first: int, last: int): Option<Zone>
  {
    if last == first then
      match IupShift(z, y, prevEnd, end, last)
      case None => None
      case Some(c) => Some(z.(current := c))
    else
      match IupInterp(z, y, last + 1, end - 1, last, first)
      case None => None
      case Some(c) =>
        var z2 := z.(current := c);
        if first > 0 then
          match IupInterp(z2, y, prevEnd, first - 1, last, first)
          case None => None
          case Some(c2) => Some(z2.(current := c2))
        else Some(z2)
  }

  /** IUP: every contour in turn, each starting where the previous one ended. */
  function IupContours(z: Zone, y: bool, ends: seq<int>, k: nat, prevEnd: int): Option<Zone>
    requires k <= |ends|
    decreases |ends| - k
  {
    if k == |ends| then Some(z)
    else match IupContour(z, y, prevEnd, ends[k])
      case None => None
      case Some(z1) => IupContours(z1, y, ends, k + 1, ends[k])
  }

  // ---------------------------------------------------------------------------
  // IUP changes one coordinate of the current points only

  /** A zone step that keeps the unhinted and font-unit points and changes only one coordinate of the current points. */
  predicate CoordStep(z: Zone, z': Zone, y: bool)
  {
    z'.unhinted == z.unhinted && z'.inFontUnits == z.inFontUnits && OnlyCoordChanged(z.current, z'.current, y)
  }

  lemma ShiftIsCoordStep(z: Zone, y: bool, p1: int, p2: int, p: int)
    requires IupShift(z, y, p1, p2, p).Some?
    ensures CoordStep(z, z.(current := IupShift(z, y, p1, p2, p).value), y)
  {
    IupShiftMoves(z, y, p1, p2, p);
  }

  lemma {:induction false} InterpRunsStep(z: Zone, y: bool, mask: nat, i: int, end: int, last: int)
    requires mask == FlagTouchedX || mask == FlagTouchedY
    requires InterpRuns(z, y, mask, i, end, last).WalkedTo?
    ensures CoordStep(z, InterpRuns(z, y, mask, i, end, last).z, y)
    decreases end - i
  {
    if i < end {
      if HasBit(z.current[i].flags, mask) {
        var c := IupInterp(z, y, last + 1, i - 1, last, i).value;
        IupInterpFrame(z, y, last + 1, i - 1, last, i);
        InterpRunsStep(z.(current := c), y, mask, i + 1, end, i);
        OnlyCoordChangedTrans(z.current, c, InterpRuns(z, y, mask, i, end, last).z.current, y);
      } else {
        InterpRunsStep(z, y, mask, i + 1, end, last);
      }
    }
  }

  lemma CloseContourStep(z: Zone, y: bool, prevEnd: int, end: int, first: int, last: int)
    requires CloseContour(z, y, prevEnd, end, first, last).Some?
    ensures CoordStep(z, CloseContour(z, y, prevEnd, end, first, last).value, y)
  {
    if last == first {
      ShiftIsCoordStep(z, y, prevEnd, end, last);
    } else {
      var c := IupInterp(z, y, last + 1, end - 1, last, first).value;
      IupInterpFrame(z, y, last + 1, end - 1, last, first);
      if first > 0 {
        var z2 := z.(current := c);
        IupInterpFrame(z2, y, prevEnd, first - 1, last, first);
        OnlyCoordChangedTrans(z.current, c, IupInterp(z2, y, prevEnd, first - 1, last, first).value, y);
      }
    }
  }

  lemma IupContourStep(z: Zone, y: bool, prevEnd: int, end: int)
    requires IupContour(z, y, prevEnd, end).Some?
    ensures CoordStep(z, IupContour(z, y, prevEnd, end).value, y)
  {
    var mask := TouchMask(y);
    if prevEnd < end {
      var s := FirstTouched(z.current, prevEnd, end, mask);
      if s.TouchedAt? {
        var w := InterpRuns(z, y, mask, s.i + 1, end, s.i);
        InterpRunsStep(z, y, mask, s.i + 1, end, s.i);
        CloseContourStep(w.z, y, prevEnd, end, s.i, w.last);
        OnlyCoordChangedTrans(z.current, w.z.current, CloseContour(w.z, y, prevEnd, end, s.i, w.last).value.current, y);
      }
    }
  }

  /**
   * IUP[y] keeps every point's other coordinate and flags, keeps the number
   * of points, and never touches the unhinted or font-unit points.
   */
  lemma {:induction false} IupKeepsOtherAxis(z: Zone, y: bool, ends: seq<int>, k: nat, prevEnd: int)
    requires k <= |ends|
    requires IupContours(z, y, ends, k, prevEnd).Some?
    ensures CoordStep(z, IupContours(z, y, ends, k, prevEnd).value, y)
    decreases |ends| - k
  {
    if k < |ends| {
      var z1 := IupContour(z, y, prevEnd, ends[k]).value;
      IupContourStep(z, y, prevEnd, ends[k]);
      IupKeepsOtherAxis(z1, y, ends, k + 1, ends[k]);
    }
  }
}
