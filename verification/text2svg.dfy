/**
 * Model of drawContour in example/text2svg/main.go: one TrueType contour,
 * a closed loop of on-curve and off-curve points, becomes the calls on a
 * draw callback: one moveto, then linetos and quadratic splines, with an
 * implied on-curve point between two consecutive off-curve points.
 */
module Text2Svg {
  import opened Ints

  /** A glyph point in 26.6 fixed point; bit 0 of flags says whether it is on the curve. */
  datatype GlyphPoint = GlyphPoint(x: int32, y: int32, flags: uint32)

  /** A 26.6 fixed-point point. */
  datatype Pt = Pt(x: int32, y: int32)

  /** One call of the draw callback: 'M' and 'L' use p0 (p1 is the zero point), 'Q' has control p0 and end p1. */
  datatype DrawCall = DrawCall(cmd: char, p0: Pt, p1: Pt)

  const Dummy: Pt := Pt(0, 0)

  predicate OnCurve(p: GlyphPoint)
  {
    p.flags % 2 == 1
  }

  function At(p: GlyphPoint): Pt
  {
    Pt(p.x, p.y)
  }

  function Midpoint(a: Pt, b: Pt): Pt
  {
    Pt(Mid32(a.x, b.x), Mid32(a.y, b.y))
  }

  /** Where the pen ends after a call. */
  function EndPoint(c: DrawCall): Pt
  {
    if c.cmd == 'Q' then c.p1 else c.p0
  }

  /**
   * The start of the contour: the first point if it is on the curve, else the
   * last point if that one is, else the midpoint of the two.
   */
  function StartPoint(ps: seq<GlyphPoint>): Pt
    requires |ps| > 0
  {
    if OnCurve(ps[0]) then At(ps[0])
    else if OnCurve(ps[|ps| - 1]) then At(ps[|ps| - 1])
    else Midpoint(At(ps[0]), At(ps[|ps| - 1]))
  }

  /** The points walked after the start: all but the start point when that is an input point. */
  function Others(ps: seq<GlyphPoint>): (r: seq<GlyphPoint>)
    requires |ps| > 0
    ensures forall p :: p in r ==> p in ps
  {
    if OnCurve(ps[0]) then ps[1..]
    else if OnCurve(ps[|ps| - 1]) then ps[..|ps| - 1]
    else ps
  }

  /** The calls for one point q after the previous point q0. */
  function Step(q0: Pt, on0: bool, q: Pt, on: bool): seq<DrawCall>
  {
    if on then
      if on0 then [DrawCall('L', q, Dummy)] else [DrawCall('Q', q0, q)]
    else
      if on0 then [] else [DrawCall('Q', q0, Midpoint(q0, q))]
  }

  /** The calls for the remaining points, then the call that closes the contour at start. */
  function Walk(q0: Pt, on0: bool, rest: seq<GlyphPoint>, start: Pt): seq<DrawCall>
    decreases |rest|
  {
    if rest == [] then
      [if on0 then DrawCall('L', start, Dummy) else DrawCall('Q', q0, start)]
    else
      Step(q0, on0, At(rest[0]), OnCurve(rest[0])) + Walk(At(rest[0]), OnCurve(rest[0]), rest[1..], start)
  }

  /** The whole sequence of calls for a contour. */
  function ContourCalls(ps: seq<GlyphPoint>): seq<DrawCall>
  {
    if ps == [] then []
    else
      var start := StartPoint(ps);
      [DrawCall('M', start, Dummy)] + Walk(start, true, Others(ps), start)
  }

  /** The start point and the points walked after it. */
  method SplitStart(ps: seq<GlyphPoint>) returns (start: Pt, others: seq<GlyphPoint>)
    requires |ps| > 0
    ensures start == StartPoint(ps) && others == Others(ps)
  {
    start := At(ps[0]);
    if ps[0].flags % 2 != 0 {
      others := ps[1..];
    } else {
      var last := At(ps[|ps| - 1]);
      if ps[|ps| - 1].flags % 2 != 0 {
        start := last;
        others := ps[..|ps| - 1];
      } else {
        start := Pt(Mid32(start.x, last.x), Mid32(start.y, last.y));
        others := ps;
      }
    }
  }

  /** drawContour: the callback receives exactly the calls of ContourCalls, in order. */
  method DrawContour(ps: seq<GlyphPoint>) returns (calls: seq<DrawCall>)
    ensures calls == ContourCalls(ps)
    ensures ps == [] ==> calls == []
  {
    calls := [];
    if |ps| == 0 {
      return;
    }
    var start, others := SplitStart(ps);
    ghost var target := ContourCalls(ps);
    calls := calls + [DrawCall('M', start, Dummy)];
    var q0, on0 := start, true;
    var i := 0;
    assert others[i..] == others;
    while i < |others|
      invariant 0 <= i <= |others|
      invariant calls + Walk(q0, on0, others[i..], start) == target
    {
      var p := others[i];
      var q, on, emitted := EmitStep(q0, on0, p);
      WalkAdvance(calls, q0, on0, others, i, start);
      calls := calls + emitted;
      q0, on0 := q, on;
      i := i + 1;
    }
    assert others[i..] == [];
    assert Walk(q0, on0, others[i..], start) == [if on0 then DrawCall('L', start, Dummy) else DrawCall('Q', q0, start)];
    if on0 {
      calls := calls + [DrawCall('L', start, Dummy)];
    } else {
      calls := calls + [DrawCall('Q', q0, start)];
    }
  }

  /** The calls for one point p after the previous point q0, as the loop of drawContour makes them. */
  method EmitStep(q0: Pt, on0: bool, p: GlyphPoint) returns (q: Pt, on: bool, emitted: seq<DrawCall>)
    ensures q == At(p) && on == OnCurve(p)
    ensures emitted == Step(q0, on0, q, on)
  {
    q := Pt(p.x, p.y);
    on := p.flags % 2 != 0;
    emitted := [];
    if on {
      if on0 {
        emitted := [DrawCall('L', q, Dummy)];
      } else {
        emitted := [DrawCall('Q', q0, q)];
      }
    } else {
      if on0 {
        // No call: the point is the control of the next spline.
      } else {
        var mid := Pt(Mid32(q0.x, q.x), Mid32(q0.y, q.y));
        emitted := [DrawCall('Q', q0, mid)];
      }
    }
  }

  /** One more point walked: its calls move from the pending walk to the calls made. */
  lemma WalkAdvance(calls: seq<DrawCall>, q0: Pt, on0: bool, others: seq<GlyphPoint>, i: nat, start: Pt)
    requires i < |others|
    ensures calls + Walk(q0, on0, others[i..], start) ==
            (calls + Step(q0, on0, At(others[i]), OnCurve(others[i]))) + Walk(At(others[i]), OnCurve(others[i]), others[i + 1..], start)
  {
    WalkUnfold(q0, on0, others, i, start);
  }

  lemma WalkUnfold(q0: Pt, on0: bool, others: seq<GlyphPoint>, i: nat, start: Pt)
    requires i < |others|
    ensures Walk(q0, on0, others[i..], start) ==
      Step(q0, on0, At(others[i]), OnCurve(others[i])) + Walk(At(others[i]), OnCurve(others[i]), others[i + 1..], start)
  {
    assert others[i..][1..] == others[i + 1..];
  }

  /** Walking never moves the pen without drawing: no call after the first is an 'M'. */
  lemma {:induction false} WalkHasNoMove(q0: Pt, on0: bool, rest: seq<GlyphPoint>, start: Pt)
    ensures forall k :: 0 <= k < |Walk(q0, on0, rest, start)| ==> Walk(q0, on0, rest, start)[k].cmd != 'M'
    decreases |rest|
  {
    if rest != [] {
      WalkHasNoMove(At(rest[0]), OnCurve(rest[0]), rest[1..], start);
    }
  }

  /** The last call of a walk ends the pen at the start point. */
  lemma {:induction false} WalkCloses(q0: Pt, on0: bool, rest: seq<GlyphPoint>, start: Pt)
    ensures |Walk(q0, on0, rest, start)| > 0
    ensures EndPoint(Walk(q0, on0, rest, start)[|Walk(q0, on0, rest, start)| - 1]) == start
    decreases |rest|
  {
    if rest != [] {
      WalkCloses(At(rest[0]), OnCurve(rest[0]), rest[1..], start);
    }
  }

  /** The control point of every spline is an off-curve point of the contour. */
  lemma {:induction false} WalkControlsOffCurve(q0: Pt, on0: bool, rest: seq<GlyphPoint>, start: Pt, off: set<Pt>)
    requires !on0 ==> q0 in off
    requires forall k :: 0 <= k < |rest| && !OnCurve(rest[k]) ==> At(rest[k]) in off
    ensures forall k :: 0 <= k < |Walk(q0, on0, rest, start)| && Walk(q0, on0, rest, start)[k].cmd == 'Q' ==>
      Walk(q0, on0, rest, start)[k].p0 in off
    decreases |rest|
  {
    if rest != [] {
      assert forall k :: 0 <= k < |rest[1..]| ==> rest[1..][k] == rest[k + 1];
      WalkControlsOffCurve(At(rest[0]), OnCurve(rest[0]), rest[1..], start, off);
    }
  }

  /** The off-curve points of a contour. */
  function OffCurvePoints(ps: seq<GlyphPoint>): set<Pt>
  {
    set p | p in ps && !OnCurve(p) :: At(p)
  }

  /**
   * The calls of a non-empty contour: exactly one 'M', and it comes first
   * at the start point; the last call returns the pen to the start; every
   * spline's control point is an off-curve point of the contour.
   */
  lemma ContourShape(ps: seq<GlyphPoint>)
    requires ps != []
    ensures |ContourCalls(ps)| >= 2
    ensures ContourCalls(ps)[0] == DrawCall('M', StartPoint(ps), Dummy)
    ensures forall k :: 1 <= k < |ContourCalls(ps)| ==> ContourCalls(ps)[k].cmd != 'M'
    ensures EndPoint(ContourCalls(ps)[|ContourCalls(ps)| - 1]) == StartPoint(ps)
    ensures forall k :: 0 <= k < |ContourCalls(ps)| && ContourCalls(ps)[k].cmd == 'Q' ==> ContourCalls(ps)[k].p0 in OffCurvePoints(ps)
  {
    var start := StartPoint(ps);
    WalkHasNoMove(start, true, Others(ps), start);
    WalkCloses(start, true, Others(ps), start);
    ContourCallsSplit(ps);
    ContourControlsOffCurve(ps);
  }

  /** Every spline's control point in the calls for a contour is one of its off-curve points. */
  lemma ContourControlsOffCurve(ps: seq<GlyphPoint>)
    ensures forall k :: 0 <= k < |ContourCalls(ps)| && ContourCalls(ps)[k].cmd == 'Q' ==> ContourCalls(ps)[k].p0 in OffCurvePoints(ps)
  {
    if ps != [] {
      var start := StartPoint(ps);
      var os := Others(ps);
      forall k | 0 <= k < |os| && !OnCurve(os[k])
        ensures At(os[k]) in OffCurvePoints(ps)
      {
        assert os[k] in ps;
      }
      WalkControlsOffCurve(start, true, os, start, OffCurvePoints(ps));
      ContourCallsSplit(ps);
    }
  }

  /** The calls for a contour: the move to its start, then call k + 1 is call k of the walk. */
  lemma ContourCallsSplit(ps: seq<GlyphPoint>)
    requires ps != []
    ensures var w := Walk(StartPoint(ps), true, Others(ps), StartPoint(ps));
      |ContourCalls(ps)| == |w| + 1 && ContourCalls(ps)[0] == DrawCall('M', StartPoint(ps), Dummy) &&
      forall k :: 1 <= k < |ContourCalls(ps)| ==> ContourCalls(ps)[k] == w[k - 1]
  {
  }

  /** Two consecutive off-curve points give a spline to their midpoint. */
  lemma OffOffGivesMidpoint()
    ensures var a := GlyphPoint(0, 0, 1);
      var b := GlyphPoint(64, 64, 0);
      var c := GlyphPoint(128, 0, 0);
      ContourCalls([a, b, c]) ==
        [DrawCall('M', Pt(0, 0), Dummy), DrawCall('Q', Pt(64, 64), Pt(96, 32)),
         DrawCall('Q', Pt(128, 0), Pt(0, 0))]
  {
    var a := GlyphPoint(0, 0, 1);
    var b := GlyphPoint(64, 64, 0);
    var c := GlyphPoint(128, 0, 0);
    var ps := [a, b, c];
    assert Others(ps) == [b, c];
    assert [b, c][1..] == [c];
    assert [c][1..] == [];
    assert Mid32(64, 128) == 96 && Mid32(64, 0) == 32;
  }
}
