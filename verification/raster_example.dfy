/**
 * Model of example/raster/main.go: two contours of the glyph 'A' given as
 * node tables, the walk that feeds them to a rasterizer, and the marking of
 * the nodes on an RGBA image. The rasterizer is an abstract log of the
 * Start/Add1/Add2 calls it receives.
 */
module RasterExample {
  import opened Ints
  import opened RasterGeom
  import opened RasterPaint

  /** A node of a contour: a point in font units and the degree of the segment it starts. */
  datatype Node = Node(x: int, y: int, degree: int)

  /** How a walk ended: at the end-of-contour node, or with a run-time panic. */
  datatype Outcome = Done | Panic(msg: string)

  /** The calls a walk makes, and how it ends. */
  datatype Run = Run(calls: seq<AdderCall>, outcome: Outcome)

  /** The run r preceded by the call c. */
  function Prepend(c: AdderCall, r: Run): Run
  {
    Run([c] + r.calls, r.outcome)
  }

  /** p: node coordinates to the 24.8 image point ((20 + x/4)·256, (380 − y/4)·256), divisions truncating. */
  function ToPoint(n: Node): (r: Point)
    ensures IsInt32((20 + Quot(n.x, 4)) * 256) ==> r.x == (20 + Quot(n.x, 4)) * 256
    ensures IsInt32((380 - Quot(n.y, 4)) * 256) ==> r.y == (380 - Quot(n.y, 4)) * 256
  {
    var x := 20 + Quot(n.x, 4);
    var y := 380 - Quot(n.y, 4);
    Point(Int32(x * 256), Int32(y * 256))
  }

  /**
   * The calls made from node i on, and how the walk ends: degree −1 ends the
   * contour, degree 1 adds a line to the next node, degree 2 a quadratic
   * through the next node to the one after it, any other degree panics, and
   * stepping past the end of the table panics.
   */
  function Trace(ns: seq<Node>, i: nat): Run
    requires i < |ns|
    decreases |ns| - i
  {
    var d := ns[i].degree;
    if d == -1 then Run([], Done)
    else if d == 1 then
      if i + 1 >= |ns| then Run([], Panic("index out of range"))
      else Prepend(Add1(ToPoint(ns[i + 1])), Trace(ns, i + 1))
    else if d == 2 then
      if i + 2 >= |ns| then Run([], Panic("index out of range"))
      else Prepend(Add2(ToPoint(ns[i + 1]), ToPoint(ns[i + 2])), Trace(ns, i + 2))
    else Run([], Panic("bad degree"))
  }

  /** The calls for a whole contour: nothing for an empty table, else Start at the first node, then the walk. */
  function ContourTrace(ns: seq<Node>): Run
  {
    if ns == [] then Run([], Done)
    else Prepend(Start(ToPoint(ns[0])), Trace(ns, 0))
  }

  /** contour: the rasterizer receives the calls of ContourTrace, and the walk ends as it says. */
  method Contour(ns: seq<Node>) returns (calls: seq<AdderCall>, outcome: Outcome)
    ensures Run(calls, outcome) == ContourTrace(ns)
    ensures ns != [] ==> |calls| > 0 && calls[0] == Start(ToPoint(ns[0]))
  {
    calls := [];
    if |ns| == 0 {
      return calls, Done;
    }
    var i := 0;
    calls := calls + [Start(ToPoint(ns[i]))];
    while true
      invariant 0 <= i < |ns|
      invariant |calls| > 0 && calls[0] == Start(ToPoint(ns[0]))
      invariant ContourTrace(ns) == Run(calls + Trace(ns, i).calls, Trace(ns, i).outcome)
      decreases |ns| - i
    {
      var d := ns[i].degree;
      if d == -1 {
        return calls, Done;
      } else if d == 1 {
        i := i + 1;
        if i >= |ns| {
          return calls, Panic("index out of range");
        }
        assert calls + [Add1(ToPoint(ns[i]))] + Trace(ns, i).calls == calls + ([Add1(ToPoint(ns[i]))] + Trace(ns, i).calls);
        calls := calls + [Add1(ToPoint(ns[i]))];
      } else if d == 2 {
        i := i + 2;
        if i >= |ns| {
          return calls, Panic("index out of range");
        }
        var c := Add2(ToPoint(ns[i - 1]), ToPoint(ns[i]));
        assert calls + [c] + Trace(ns, i).calls == calls + ([c] + Trace(ns, i).calls);
        calls := calls + [c];
      } else {
        return calls, Panic("bad degree");
      }
    }
  }

  /** The outer contour of the 'A' glyph of Droid Serif Regular. */
  const Outside: seq<Node> := OutsidePart0 + OutsidePart1 + OutsidePart2 + OutsidePart3 + OutsidePart4 + OutsidePart5
  const OutsidePart0: seq<Node> := [
    Node(414, 489, 1), Node(336, 274, 2), Node(327, 250, 0), Node(322, 226, 2),
    Node(317, 203, 0), Node(317, 186, 2), Node(317, 134, 0), Node(350, 110, 2)]
  const OutsidePart1: seq<Node> := [
    Node(384, 86, 0), Node(453, 86, 1), Node(500, 86, 1), Node(500, 0, 1),
    Node(0, 0, 1), Node(0, 86, 1), Node(39, 86, 2), Node(69, 86, 0)]
  const OutsidePart2: seq<Node> := [
    Node(90, 92, 2), Node(111, 99, 0), Node(128, 117, 2), Node(145, 135, 0),
    Node(160, 166, 2), Node(176, 197, 0), Node(195, 246, 1), Node(649, 1462, 1)]
  const OutsidePart3: seq<Node> := [
    Node(809, 1462, 1), Node(1272, 195, 2), Node(1284, 163, 0), Node(1296, 142, 2),
    Node(1309, 121, 0), Node(1326, 108, 2), Node(1343, 96, 0), Node(1365, 91, 2)]
  const OutsidePart4: seq<Node> := [
    Node(1387, 86, 0), Node(1417, 86, 1), Node(1444, 86, 1), Node(1444, 0, 1),
    Node(881, 0, 1), Node(881, 86, 1), Node(928, 86, 2), Node(1051, 86, 0)]
  const OutsidePart5: seq<Node> := [
    Node(1051, 184, 2), Node(1051, 201, 0), Node(1046, 219, 2), Node(1042, 237, 0),
    Node(1034, 260, 1), Node(952, 489, 1), Node(414, 489, -1)]

  /** The inner contour (the counter) of the same glyph. */
  const Inside: seq<Node> := [
    Node(686, 1274, 1), Node(453, 592, 1), Node(915, 592, 1), Node(686, 1274, -1)]

  /** How the walk from node i ends, without the calls. */
  function Ends(ns: seq<Node>, i: nat): Outcome
    requires i < |ns|
    decreases |ns| - i
  {
    var d := ns[i].degree;
    if d == -1 then Done
    else if d == 1 then
      if i + 1 >= |ns| then Panic("index out of range") else Ends(ns, i + 1)
    else if d == 2 then
      if i + 2 >= |ns| then Panic("index out of range") else Ends(ns, i + 2)
    else Panic("bad degree")
  }

  lemma {:induction false} TraceEnds(ns: seq<Node>, i: nat)
    requires i < |ns|
    ensures Trace(ns, i).outcome == Ends(ns, i)
    decreases |ns| - i
  {
    var d := ns[i].degree;
    if d == 1 && i + 1 < |ns| {
      TraceEnds(ns, i + 1);
    } else if d == 2 && i + 2 < |ns| {
      TraceEnds(ns, i + 2);
    }
  }

  /** The outer table is walked to its end-of-contour node without stepping past the end. */
  lemma OutsideWalksToEnd()
    ensures ContourTrace(Outside).outcome == Done
  {
    OutsideMiddleEnds();
    assert Outside[7].degree == 2 && Ends(Outside, 7) == Done;
    assert Outside[5].degree == 2 && Ends(Outside, 5) == Done;
    assert Outside[3].degree == 2 && Ends(Outside, 3) == Done;
    assert Outside[1].degree == 2 && Ends(Outside, 1) == Done;
    assert Outside[0].degree == 1 && Ends(Outside, 0) == Done;
    TraceEnds(Outside, 0);
  }

  /** The walk of the outer table from node 9 on. */
  lemma OutsideMiddleEnds()
    ensures Ends(Outside, 9) == Done
  {
    OutsideTailEnds();
    assert Outside[24].degree == 1 && Ends(Outside, 24) == Done;
    assert Outside[23].degree == 1 && Ends(Outside, 23) == Done;
    assert Outside[22].degree == 1 && Ends(Outside, 22) == Done;
    assert Outside[20].degree == 2 && Ends(Outside, 20) == Done;
    assert Outside[18].degree == 2 && Ends(Outside, 18) == Done;
    assert Outside[16].degree == 2 && Ends(Outside, 16) == Done;
    assert Outside[14].degree == 2 && Ends(Outside, 14) == Done;
    assert Outside[13].degree == 1 && Ends(Outside, 13) == Done;
    assert Outside[12].degree == 1 && Ends(Outside, 12) == Done;
    assert Outside[11].degree == 1 && Ends(Outside, 11) == Done;
    assert Outside[10].degree == 1 && Ends(Outside, 10) == Done;
    assert Outside[9].degree == 1 && Ends(Outside, 9) == Done;
  }

  /** The walk of the outer table from node 25 on, the second half of the glyph's outline. */
  lemma OutsideTailEnds()
    ensures Ends(Outside, 25) == Done
  {
    OutsideLastEnds();
    assert Outside[38].degree == 2 && Ends(Outside, 38) == Done;
    assert Outside[37].degree == 1 && Ends(Outside, 37) == Done;
    assert Outside[36].degree == 1 && Ends(Outside, 36) == Done;
    assert Outside[35].degree == 1 && Ends(Outside, 35) == Done;
    assert Outside[34].degree == 1 && Ends(Outside, 34) == Done;
    assert Outside[33].degree == 1 && Ends(Outside, 33) == Done;
    assert Outside[31].degree == 2 && Ends(Outside, 31) == Done;
    assert Outside[29].degree == 2 && Ends(Outside, 29) == Done;
    assert Outside[27].degree == 2 && Ends(Outside, 27) == Done;
    assert Outside[25].degree == 2 && Ends(Outside, 25) == Done;
  }

  /** The walk of the outer table from node 40 to its end-of-contour node 46. */
  lemma OutsideLastEnds()
    ensures Ends(Outside, 40) == Done
  {
    assert Outside[46].degree == -1 && Ends(Outside, 46) == Done;
    assert Outside[45].degree == 1 && Ends(Outside, 45) == Done;
    assert Outside[44].degree == 1 && Ends(Outside, 44) == Done;
    assert Outside[42].degree == 2 && Ends(Outside, 42) == Done;
    assert Outside[40].degree == 2 && Ends(Outside, 40) == Done;
  }

  /** The inner table is walked to its end-of-contour node without stepping past the end. */
  lemma InsideWalksToEnd()
    ensures ContourTrace(Inside).outcome == Done
  {
    assert Ends(Inside, 3) == Done;
    assert Ends(Inside, 2) == Done;
    assert Ends(Inside, 1) == Done;
    assert Ends(Inside, 0) == Done;
    TraceEnds(Inside, 0);
  }

  // ---------------------------------------------------------------------------
  // showNodes

  const Cyan: RGBA := RGBA(0, 255, 255, 255)
  const Red: RGBA := RGBA(255, 0, 0, 255)

  /** The pixel column and row of a node: its 24.8 point divided by 256, truncating. */
  function PixelOf(n: Node): (int, int)
  {
    var pt := ToPoint(n);
    (Quot(pt.x, 256), Quot(pt.y, 256))
  }

  /** The mark of a node: cyan for degree 0, red for degrees 1 and 2, none otherwise. */
  function Mark(n: Node): (c: Option<RGBA>)
    ensures c.Some? <==> 0 <= n.degree <= 2
  {
    if n.degree == 0 then Some(Cyan)
    else if n.degree == 1 || n.degree == 2 then Some(Red)
    else None
  }

  /** The image after marking one node; a node outside the image is skipped. */
  function MarkOne(g: seq<seq<RGBA>>, w: nat, h: nat, n: Node): (r: seq<seq<RGBA>>)
    requires |g| == h && forall y :: 0 <= y < h ==> |g[y]| == w
    ensures |r| == h && forall y :: 0 <= y < h ==> |r[y]| == w
  {
    var (x, y) := PixelOf(n);
    if x < 0 || x >= w || y < 0 || y >= h || Mark(n).None? then g
    else g[y := g[y][x := Mark(n).value]]
  }

  /** The image after marking the nodes in order. */
  function Marked(g: seq<seq<RGBA>>, w: nat, h: nat, ns: seq<Node>): (r: seq<seq<RGBA>>)
    requires |g| == h && forall y :: 0 <= y < h ==> |g[y]| == w
    ensures |r| == h && forall y :: 0 <= y < h ==> |r[y]| == w
  {
    if ns == [] then g
    else MarkOne(Marked(g, w, h, ns[..|ns| - 1]), w, h, ns[|ns| - 1])
  }

  /** A pixel that is the position of no marked node keeps its colour. */
  lemma {:induction false} MarkedUntouched(g: seq<seq<RGBA>>, w: nat, h: nat, ns: seq<Node>, x: int, y: int)
    requires |g| == h && forall r :: 0 <= r < h ==> |g[r]| == w
    requires 0 <= x < w && 0 <= y < h
    requires forall k :: 0 <= k < |ns| && Mark(ns[k]).Some? ==> PixelOf(ns[k]) != (x, y)
    ensures Marked(g, w, h, ns)[y][x] == g[y][x]
  {
    if ns != [] {
      MarkedUntouched(g, w, h, ns[..|ns| - 1], x, y);
    }
  }

  /** Every pixel that changes is painted cyan or red. */
  lemma {:induction false} MarkedColours(g: seq<seq<RGBA>>, w: nat, h: nat, ns: seq<Node>, x: int, y: int)
    requires |g| == h && forall r :: 0 <= r < h ==> |g[r]| == w
    requires 0 <= x < w && 0 <= y < h
    ensures Marked(g, w, h, ns)[y][x] in {g[y][x], Cyan, Red}
  {
    if ns != [] {
      MarkedColours(g, w, h, ns[..|ns| - 1], x, y);
    }
  }

  /** showNodes: the image becomes Marked of its old contents. */
  method ShowNodes(m: array2<RGBA>, ns: seq<Node>)
    modifies m
    ensures GridOf(m) == Marked(old(GridOf(m)), m.Length1, m.Length0, ns)
  {
    ghost var g0 := GridOf(m);
    var i := 0;
    while i < |ns|
      invariant 0 <= i <= |ns|
      invariant GridOf(m) == Marked(g0, m.Length1, m.Length0, ns[..i])
    {
      assert ns[..i + 1][..i] == ns[..i];
      assert ns[..i + 1][i] == ns[i];
      ShowNode(m, ns[i]);
      i := i + 1;
    }
    assert ns[..|ns|] == ns;
  }

  /** One iteration of showNodes: the image becomes MarkOne of its old contents. */
  method ShowNode(m: array2<RGBA>, n: Node)
    modifies m
    ensures GridOf(m) == MarkOne(old(GridOf(m)), m.Length1, m.Length0, n)
  {
    var pt := ToPoint(n);
    var x, y := Quot(pt.x, 256), Quot(pt.y, 256);
    if x < 0 || x >= m.Length1 || y < 0 || y >= m.Length0 {
      return;
    }
    var c: Option<RGBA> := None;
    if n.degree == 0 {
      c := Some(Cyan);
    } else if n.degree == 1 {
      c := Some(Red);
    } else if n.degree == 2 {
      c := Some(Red);
    }
    if c.Some? {
      ghost var before := GridOf(m);
      m[y, x] := c.value;
      ghost var after := before[y := before[y][x := c.value]];
      forall r, col | 0 <= r < m.Length0 && 0 <= col < m.Length1
        ensures GridOf(m)[r][col] == after[r][col]
      {
        assert GridOf(m)[r][col] == m[r, col];
      }
      GridExt(GridOf(m), after);
    }
  }
}
