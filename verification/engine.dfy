/**
 * The incremental engine: the point and triangle sequences, the insertion
 * cursor, the 1-to-3 split of the triangle containing the next point, and
 * the Lawson flip pass driven by the worklist.
 */
module Engine {
  import opened Mesh
  import opened Adjacency
  import opened Flip
  import opened Worklist

  /** Half the extent of the super-triangle. */
  const BIG: real := 2000.0

  /** The three synthetic points that occupy indices 0, 1 and 2. */
  const SUPER_POINTS: seq<Point> := [Point(BIG / 2.0, -BIG), Point(BIG, BIG), Point(-BIG, BIG)]

  /** What one insertion step did. */
  datatype StepOutcome =
    | NoStepsLeft
    | NotInAnyTriangle
    | Inserted(target: nat, drained: bool)

  /**
   * Which pair of triangles one worklist pass flipped, if any: the popped
   * triangle and the neighbour recorded in its slot `slot`.
   */
  datatype FlipRecord = NoFlip | Flipped(neighbour: nat, popped: nat, slot: nat)

  /** A triangle of a mesh with `count` triangles whose vertices lie below `bound`. */
  predicate WellFormed(t: Triangle, bound: int, count: int)
  {
    Distinct(t) && Below(t, bound)
    && forall k :: 0 <= k < 3 ==> NONE <= t.neighbours[k] < count
  }

  predicate MeshOk(tris: seq<Triangle>, bound: int)
  {
    forall j :: 0 <= j < |tris| ==> WellFormed(tris[j], bound, |tris|)
  }

  /** Every entry of s is an index into a sequence of length n. */
  predicate IndicesBelow(s: seq<int>, n: int)
  {
    forall x :: x in s ==> 0 <= x < n
  }

  /** Pushing -1 or indices keeps the worklist a list of indices. */
  lemma PushAllIndicesBelow(s: seq<int>, vs: seq<int>, n: int)
    requires WellFormedStack(s) && IndicesBelow(s, n)
    requires forall k :: 0 <= k < |vs| ==> NONE <= vs[k] < n
    ensures IndicesBelow(PushAll(s, vs), n)
    ensures WellFormedStack(PushAll(s, vs))
    ensures s <= PushAll(s, vs) && |PushAll(s, vs)| <= |s| + |vs|
  {
    PushAllKeepsWellFormed(s, vs);
    assert forall x :: x in PushAll(s, vs) ==> x in s || x in vs;
    forall x | x in PushAll(s, vs) && x !in s ensures 0 <= x < n {
      assert x in vs;
      assert Pushed(s, NONE) == s;
      PushAllDropsNone(s, vs, x);
    }
  }

  /** Only values other than -1 can enter the stack. */
  lemma {:induction false} PushAllDropsNone(s: seq<int>, vs: seq<int>, x: int)
    requires x in PushAll(s, vs) && x !in s
    ensures x != NONE
    decreases |vs|
  {
    if vs != [] {
      if x in Pushed(s, vs[0]) {
        assert x == vs[0] && vs[0] != NONE;
      } else {
        PushAllDropsNone(Pushed(s, vs[0]), vs[1..], x);
      }
    }
  }

  /** calculate_circle applied to a triangle. */
  function CircleOf(geo: Geometry, pts: seq<Point>, t: Triangle): Circle
    requires Below(t, |pts|)
  {
    geo.circleFromTriangle(pts[t.ix1], pts[t.ix2], pts[t.ix3])
  }

  /** Triangle j with its neighbour slots and its circle recomputed. */
  function Refreshed(geo: Geometry, pts: seq<Point>, tris: seq<Triangle>, j: nat): Triangle
    requires j < |tris| && Below(tris[j], |pts|)
  {
    tris[j].(neighbours := Neighbours(tris, j), circle := CircleOf(geo, pts, tris[j]))
  }

  /** Whether point p lies in triangle j according to the geometry. */
  predicate Contains(geo: Geometry, pts: seq<Point>, tris: seq<Triangle>, p: nat, j: nat)
    requires p < |pts| && j < |tris| && Below(tris[j], |pts|)
  {
    geo.pointInTriangle(pts[p], pts[tris[j].ix1], pts[tris[j].ix2], pts[tris[j].ix3])
  }

  /** What process_stack finds at one neighbour slot of the popped triangle. */
  datatype SlotVerdict = NoNeighbour | NoOpposite | OutsideCircle | InsideCircle

  /**
   * The test process_stack applies to slot k of the popped triangle p: skip
   * a -1 slot, give up when the neighbour has no vertex outside p, and
   * otherwise test that opposite vertex against p's cached circle.
   */
  function Verdict(geo: Geometry, pts: seq<Point>, tris: seq<Triangle>, bound: int, p: nat, k: nat): SlotVerdict
    requires MeshOk(tris, bound) && bound <= |pts| && p < |tris| && k < 3
  {
    var nb := tris[p].neighbours[k];
    if nb == NONE then NoNeighbour
    else
      var pix := NotCommonPoint(tris[p], tris[nb]);
      if pix == NONE then NoOpposite
      else if geo.pointInCircle(pts[pix], tris[p].circle) then InsideCircle
      else OutsideCircle
  }

  /** A slot process_stack moves past without flipping and without giving up. */
  predicate Passed(v: SlotVerdict)
  {
    v.NoNeighbour? || v.OutsideCircle?
  }

  /** Every triangle's neighbour slots and circle are what a recomputation would give. */
  ghost predicate UpToDate(geo: Geometry, pts: seq<Point>, tris: seq<Triangle>)
  {
    forall j :: 0 <= j < |tris| ==>
      Fresh(tris, j)
      && (Below(tris[j], |pts|) ==> tris[j].circle == CircleOf(geo, pts, tris[j]))
  }

  /** The mesh and the worklist contents between two calls of process_stack. */
  datatype PassState = PassState(tris: seq<Triangle>, work: seq<int>)

  /** The mesh with triangles nb and p replaced by the pair swap_triangles computes. */
  function Swapped(tris: seq<Triangle>, nb: nat, p: nat): (r: seq<Triangle>)
    requires nb < |tris| && p < |tris|
    ensures |r| == |tris|
    ensures nb != p ==> r[nb] == SwapTriangles(tris[nb], tris[p]).0 && r[p] == SwapTriangles(tris[nb], tris[p]).1
    ensures forall j :: 0 <= j < |tris| && j != nb && j != p ==> r[j] == tris[j]
  {
    var pair := SwapTriangles(tris[nb], tris[p]);
    tris[nb := pair.0][p := pair.1]
  }

  /** Slot k of the popped triangle p is the first one process_stack stops at, with verdict v. */
  ghost predicate StopsAt(geo: Geometry, pts: seq<Point>, tris: seq<Triangle>, bound: int, p: nat, k: nat, v: SlotVerdict)
    requires MeshOk(tris, bound) && bound <= |pts| && p < |tris|
  {
    k < 3 && Verdict(geo, pts, tris, bound, p, k) == v
    && forall k' :: 0 <= k' < k ==> Passed(Verdict(geo, pts, tris, bound, p, k'))
  }

  /**
   * The flip branch of one pass: the popped triangle p stops at slot k on a
   * neighbour whose opposite vertex lies in its circle; the pair is swapped,
   * every triangle recomputed, and both triangles' new slots pushed onto the
   * rest of the worklist.
   */
  ghost predicate FlipsAt(geo: Geometry, pts: seq<Point>, bound: int, tris: seq<Triangle>, s': PassState,
                          rest: seq<int>, p: nat, k: nat)
    requires MeshOk(tris, bound) && bound <= |pts| && p < |tris|
  {
    StopsAt(geo, pts, tris, bound, p, k, InsideCircle)
    && FlipOutcome(tris, s', rest, tris[p].neighbours[k], p)
  }

  /**
   * The mesh and worklist after triangles nb and p are swapped and every
   * triangle is recomputed: the corners are those of the swapped pair, and
   * the new slots of p and then of nb are pushed onto `work`.
   */
  ghost predicate FlipOutcome(tris: seq<Triangle>, s': PassState, work: seq<int>, nb: int, p: nat)
  {
    && p < |tris| && 0 <= nb < |tris| && nb != p
    && SameShape(s'.tris, Swapped(tris, nb, p))
    && s'.work == PushAll(PushAll(work, s'.tris[p].neighbours), s'.tris[nb].neighbours)
  }

  /**
   * What process_stack does after popping p off the worklist, leaving `rest`,
   * with `flip` recording the pair it flipped: either it gives up at a slot
   * with no opposite vertex and changes nothing more, or it passes every slot
   * and recomputes the mesh, or it flips at the first slot whose opposite
   * vertex lies in p's circle.
   */
  ghost predicate PassFrom(geo: Geometry, pts: seq<Point>, bound: int, tris: seq<Triangle>, p: nat, rest: seq<int>,
                           s': PassState, more: bool, flip: FlipRecord)
  {
    bound <= |pts| && MeshOk(tris, bound) && p < |tris|
    && if !more then
         flip == NoFlip && s' == PassState(tris, rest)
         && exists k :: StopsAt(geo, pts, tris, bound, p, k, NoOpposite)
       else
         UpToDate(geo, pts, s'.tris)
         && match flip
            case NoFlip =>
              && (forall k :: 0 <= k < 3 ==> Passed(Verdict(geo, pts, tris, bound, p, k)))
              && SameShape(s'.tris, tris) && s'.work == rest
            case Flipped(nb, popped, k) =>
              && popped == p && k < 3 && tris[p].neighbours[k] == nb
              && FlipsAt(geo, pts, bound, tris, s', rest, p, k)
  }

  /**
   * One call of process_stack taking mesh and worklist from s to s' and
   * returning `more`: false on an empty worklist, otherwise the pop of the
   * top entry followed by `PassFrom`.
   */
  ghost predicate Pass(geo: Geometry, pts: seq<Point>, bound: int, s: PassState, s': PassState, more: bool,
                       flip: FlipRecord)
  {
    if |s.work| == 0 then !more && flip == NoFlip && s' == s
    else 0 <= s.work[|s.work| - 1]
         && PassFrom(geo, pts, bound, s.tris, s.work[|s.work| - 1], s.work[..|s.work| - 1], s', more, flip)
  }

  /** A pass over a non-empty worklist is the pop of its top entry followed by `PassFrom`. */
  lemma PopThenPass(geo: Geometry, pts: seq<Point>, bound: int, s: PassState, p: int, rest: seq<int>,
                    s': PassState, more: bool, flip: FlipRecord)
    requires s.work == rest + [p] && 0 <= p
    requires PassFrom(geo, pts, bound, s.tris, p, rest, s', more, flip)
    ensures Pass(geo, pts, bound, s, s', more, flip)
  {
    assert s.work[..|s.work| - 1] == rest;
  }

  /**
   * A run of calls of process_stack: call i takes trace[i] to trace[i + 1]
   * and flips the pair flips[i] records; every call but the last returned
   * true, and the last returned `last`.
   */
  ghost predicate Chain(geo: Geometry, pts: seq<Point>, bound: int, trace: seq<PassState>, flips: seq<FlipRecord>,
                        last: bool)
  {
    && |trace| == |flips| + 1
    && forall i {:trigger flips[i]} :: 0 <= i < |flips| ==>
         Pass(geo, pts, bound, trace[i], trace[i + 1], i + 1 < |flips| || last, flips[i])
  }

  /** A call after a run whose calls all returned true extends the run. */
  lemma ChainExtend(geo: Geometry, pts: seq<Point>, bound: int, trace: seq<PassState>, flips: seq<FlipRecord>,
                    s': PassState, more: bool, flip: FlipRecord)
    requires Chain(geo, pts, bound, trace, flips, true)
    requires Pass(geo, pts, bound, trace[|trace| - 1], s', more, flip)
    ensures Chain(geo, pts, bound, trace + [s'], flips + [flip], more)
  {
    var trace', flips' := trace + [s'], flips + [flip];
    forall i | 0 <= i < |flips'|
      ensures Pass(geo, pts, bound, trace'[i], trace'[i + 1], i + 1 < |flips'| || more, flips'[i])
    {
      if i < |flips| {
        assert flips'[i] == flips[i];
        assert trace'[i] == trace[i] && trace'[i + 1] == trace[i + 1];
      }
    }
  }

  /**
   * After a run of calls of process_stack whose first call returned true,
   * every triangle is up to date: a call that returns true ends with every
   * triangle up to date, and one that returns false changes no triangle.
   */
  lemma ChainEndsUpToDate(geo: Geometry, pts: seq<Point>, bound: int, trace: seq<PassState>,
                          flips: seq<FlipRecord>, last: bool)
    requires Chain(geo, pts, bound, trace, flips, last)
    requires |flips| >= 2 || (|flips| == 1 && last)
    ensures UpToDate(geo, pts, trace[|flips|].tris)
  {
    var n := |flips|;
    assert Pass(geo, pts, bound, trace[n - 1], trace[n], last, flips[n - 1]);
    if !last {
      assert Pass(geo, pts, bound, trace[n - 2], trace[n - 1], true, flips[n - 2]);
      assert trace[n].tris == trace[n - 1].tris;
    }
  }

  /**
   * A triangle whose slots are up to date has, across every recorded edge, a
   * neighbour vertex outside itself: process_stack's "no non-common point"
   * exit is never taken for it.
   */
  lemma FreshSlotHasOpposite(tris: seq<Triangle>, bound: int, p: nat, k: nat)
    requires MeshOk(tris, bound) && p < |tris| && k < 3
    requires Fresh(tris, p) && tris[p].neighbours[k] != NONE
    ensures NotCommonPoint(tris[p], tris[tris[p].neighbours[k]]) != NONE
  {
    var nb := tris[p].neighbours[k];
    NeighboursSound(tris, p);
    Has2PointsInCommonSymmetric(tris[p], tris[nb]);
  }

  /** Two triangles with distinct vertices: one vertex set inside the other means equal sets. */
  lemma SubsetOfTriangle(a: Triangle, b: Triangle)
    requires Distinct(a) && Distinct(b)
    ensures Vertices(a) <= Vertices(b) ==> Vertices(b) <= Vertices(a)
  {
  }

  /** Replacing a vertex of t by t's opposite vertex in `other` keeps t proper. */
  lemma ReplaceByOpposite(t: Triangle, other: Triangle, from: int, bound: int)
    requires Distinct(t) && Below(t, bound) && Below(other, bound)
    requires NotCommonPoint(t, other) != NONE
    ensures Distinct(ReplacePoint(t, from, NotCommonPoint(t, other)))
    ensures Below(ReplacePoint(t, from, NotCommonPoint(t, other)), bound)
  {
    if from in Vertices(t) {
      ReplaceByNewVertex(t, from, NotCommonPoint(t, other));
    }
  }

  /** A flip changes the corners of two triangles and keeps them proper. */
  lemma SwapKeepsTrianglesProper(t1: Triangle, t2: Triangle, bound: int)
    requires Distinct(t1) && Distinct(t2) && Below(t1, bound) && Below(t2, bound)
    requires NotCommonPoint(t2, t1) != NONE
    ensures var (r1, r2) := SwapTriangles(t1, t2);
      && Distinct(r1) && Distinct(r2) && Below(r1, bound) && Below(r2, bound)
      && r1.neighbours == t1.neighbours && r2.neighbours == t2.neighbours
  {
    SubsetOfTriangle(t2, t1);
    assert NotCommonPoint(t1, t2) != NONE;
    var (c1, c2) := CommonPoints(t1, t2);
    ReplaceByOpposite(t1, t2, c1, bound);
    ReplaceByOpposite(t2, t1, c2, bound);
  }

  /**
   * The 1-to-3 split of triangle t by point p: t keeps its slot as (i1, p, i3)
   * with its neighbour slots, and (i1, i2, p) and (i2, i3, p) are appended
   * with no neighbours; each of the three gets the circle through its points.
   */
  function SplitMesh(geo: Geometry, pts: seq<Point>, tris: seq<Triangle>, t: nat, p: nat): (r: seq<Triangle>)
    requires t < |tris| && Below(tris[t], |pts|) && p < |pts|
    ensures |r| == |tris| + 2
    ensures var o := tris[t];
      && HasCorners(r[t], o.ix1, p, o.ix3) && r[t].neighbours == o.neighbours
      && HasCorners(r[|tris|], o.ix1, o.ix2, p) && r[|tris|].neighbours == EMPTY_SLOTS
      && HasCorners(r[|tris| + 1], o.ix2, o.ix3, p) && r[|tris| + 1].neighbours == EMPTY_SLOTS
      && r[t].circle == geo.circleFromTriangle(pts[o.ix1], pts[p], pts[o.ix3])
      && r[|tris|].circle == geo.circleFromTriangle(pts[o.ix1], pts[o.ix2], pts[p])
      && r[|tris| + 1].circle == geo.circleFromTriangle(pts[o.ix2], pts[o.ix3], pts[p])
    ensures forall j :: 0 <= j < |tris| && j != t ==> r[j] == tris[j]
  {
    var o := tris[t];
    var a, b, c := pts[o.ix1], pts[o.ix2], pts[o.ix3];
    tris[t := o.(ix2 := p, circle := geo.circleFromTriangle(a, pts[p], c))]
      + [Triangle(o.ix1, o.ix2, p, geo.circleFromTriangle(a, b, pts[p]), EMPTY_SLOTS),
         Triangle(o.ix2, o.ix3, p, geo.circleFromTriangle(b, c, pts[p]), EMPTY_SLOTS)]
  }

  /**
   * The mesh and worklist after triangle t of `tris` is split by point p and
   * the worklist `work` is seeded: t, the two new triangles and t's slots are
   * pushed, and each worklist entry of the split mesh gets recomputed slots.
   */
  ghost predicate Seeded(geo: Geometry, pts: seq<Point>, tris: seq<Triangle>, t: nat, p: nat, work: seq<int>,
                         s: PassState)
  {
    && t < |tris| && Below(tris[t], |pts|) && p < |pts|
    && var split, n := SplitMesh(geo, pts, tris, t, p), |tris|;
    && s.work == PushAll(work, [t, n + 1, n] + tris[t].neighbours)
    && Recomputed(split, s)
  }

  /**
   * The triangles of s are those of `tris`, with the neighbour slots of the
   * worklist entries of s recomputed and nothing else changed.
   */
  ghost predicate Recomputed(tris: seq<Triangle>, s: PassState)
  {
    && |s.tris| == |tris|
    && forall j :: 0 <= j < |tris| ==>
         s.tris[j] == if j in s.work then tris[j].(neighbours := Neighbours(tris, j)) else tris[j]
  }

  /** The mesh state of delaunay.h's Delaunay struct. */
  class Delaunay {
    var points: seq<Point>
    var triangles: seq<Triangle>
    var currentpoint: int
    /** The number of points that were found in a triangle and split it. */
    ghost var inserted: nat

    ghost predicate Valid()
      reads this
    {
      && 3 <= currentpoint <= |points|
      && |triangles| == 1 + 2 * inserted
      && inserted <= currentpoint - 3
      && MeshOk(triangles, currentpoint)
    }

    /** Every worklist entry is a triangle index. */
    ghost predicate InRange(ws: Stack)
      reads this, ws, ws.data
    {
      0 <= ws.top <= ws.data.Length && IndicesBelow(ws.Contents(), |triangles|)
    }

    /** Every worklist entry is a triangle whose neighbour slots are up to date. */
    ghost predicate Tracked(ws: Stack)
      reads this, ws, ws.data
    {
      0 <= ws.top <= ws.data.Length
      && forall x :: x in ws.Contents() ==> Fresh(triangles, x)
    }

    /** Every triangle's neighbour slots and circle are up to date. */
    ghost predicate AllRefreshed(geo: Geometry)
      reads this
    {
      UpToDate(geo, points, triangles)
    }

    /**
     * delaunay_init: the super-triangle points, then the input points in the
     * order given, one triangle (0, 1, 2) with no neighbours, and the cursor
     * on the first input point.
     */
    constructor Init(geo: Geometry, input: seq<Point>)
      ensures Valid()
      ensures points == SUPER_POINTS + input && |points| == |input| + 3
      ensures triangles == [Triangle(0, 1, 2,
        geo.circleFromTriangle(SUPER_POINTS[0], SUPER_POINTS[1], SUPER_POINTS[2]), EMPTY_SLOTS)]
      ensures currentpoint == 3 && inserted == 0
    {
      var b0, b1, b2 := SUPER_POINTS[0], SUPER_POINTS[1], SUPER_POINTS[2];
      var big := Triangle(0, 1, 2, geo.circleFromTriangle(b0, b1, b2), EMPTY_SLOTS);
      var pts := [b0, b1, b2];
      triangles := [big];
      currentpoint := 3;
      inserted := 0;
      var i := 0;
      while i < |input|
        invariant 0 <= i <= |input|
        invariant pts == SUPER_POINTS + input[..i]
      {
        pts := pts + [input[i]];
        i := i + 1;
      }
      assert input[..|input|] == input;
      points := pts;
    }

    /**
     * calculate_neighbours: clear the slots of triangle i, then add every other
     * triangle sharing exactly two vertices with it, in index order.
     */
    method CalculateNeighbours(i: int)
      requires 0 <= i < |triangles|
      modifies this`triangles
      ensures triangles == old(triangles)[i := old(triangles)[i].(neighbours := Neighbours(old(triangles), i))]
    {
      ghost var before := triangles;
      triangles := triangles[i := triangles[i].(neighbours := EMPTY_SLOTS)];
      var t := 0;
      while t < |triangles|
        invariant 0 <= t <= |triangles| == |before|
        invariant triangles == before[i := before[i].(neighbours := Padded(Matches(before, i, t)))]
      {
        if t != i && Has2PointsInCommon(triangles[i], triangles[t]) {
          MatchesSpec(before, i, t);
          AddNeighbourToPadded(Matches(before, i, t), t);
          triangles := triangles[i := triangles[i].(neighbours := AddNeighbour(triangles[i].neighbours, t))];
        }
        t := t + 1;
      }
    }

    /** calculate_circle: the circle of triangle i through its three points. */
    method CalculateCircle(geo: Geometry, i: int)
      requires 0 <= i < |triangles| && Below(triangles[i], |points|)
      modifies this`triangles
      ensures triangles == old(triangles)[i := old(triangles)[i].(circle := CircleOf(geo, points, old(triangles)[i]))]
    {
      var tr := triangles[i];
      triangles := triangles[i := tr.(circle := geo.circleFromTriangle(points[tr.ix1], points[tr.ix2], points[tr.ix3]))];
    }

    /** The loop that recomputes the neighbours and the circle of every triangle. */
    method RefreshAll(geo: Geometry)
      requires forall j :: 0 <= j < |triangles| ==> Below(triangles[j], |points|)
      modifies this`triangles
      ensures |triangles| == |old(triangles)|
      ensures forall j :: 0 <= j < |triangles| ==> triangles[j] == Refreshed(geo, points, old(triangles), j)
      ensures AllRefreshed(geo)
      ensures old(AllRefreshed(geo)) ==> triangles == old(triangles)
    {
      ghost var before := triangles;
      var i := 0;
      while i < |triangles|
        invariant 0 <= i <= |triangles| == |before|
        invariant SameShape(triangles, before)
        invariant forall j :: 0 <= j < i ==> triangles[j] == Refreshed(geo, points, before, j)
        invariant forall j :: i <= j < |triangles| ==> triangles[j] == before[j]
      {
        NeighboursReadCornersOnly(triangles, before, i);
        CalculateNeighbours(i);
        CalculateCircle(geo, i);
        i := i + 1;
      }
      forall j | 0 <= j < |triangles| ensures Fresh(triangles, j) {
        NeighboursReadCornersOnly(triangles, before, j);
      }
      if old(AllRefreshed(geo)) {
        assert forall j :: 0 <= j < |triangles| ==> triangles[j] == before[j];
      }
    }

    /**
     * The triangle search of delaunay_step: the first triangle, in storage
     * order, that contains the point under the cursor, or -1.
     */
    method Locate(geo: Geometry) returns (t: int)
      requires 0 <= currentpoint < |points|
      requires forall j :: 0 <= j < |triangles| ==> Below(triangles[j], |points|)
      ensures -1 <= t < |triangles|
      ensures t >= 0 ==> Contains(geo, points, triangles, currentpoint, t)
      ensures forall j :: 0 <= j < |triangles| && (t < 0 || j < t) ==>
        !Contains(geo, points, triangles, currentpoint, j)
    {
      t := 0;
      while t < |triangles|
        invariant 0 <= t <= |triangles|
        invariant forall j :: 0 <= j < t ==> !Contains(geo, points, triangles, currentpoint, j)
      {
        var tr := triangles[t];
        var p := points[currentpoint];
        var a, b, c := points[tr.ix1], points[tr.ix2], points[tr.ix3];
        if geo.pointInTriangle(p, a, b, c) {
          return;
        }
        t := t + 1;
      }
      t := -1;
    }

    /**
     * swap_triangles(&TRIA(i1), &TRIA(i2)): the two writes through the two
     * pointers into the triangle array.
     */
    method SwapTrianglesAt(i1: int, i2: int, ghost bound: int)
      requires 0 <= i1 < |triangles| && 0 <= i2 < |triangles| && i1 != i2
      requires MeshOk(triangles, bound)
      requires NotCommonPoint(triangles[i2], triangles[i1]) != NONE
      modifies this`triangles
      ensures MeshOk(triangles, bound)
      ensures var (r1, r2) := SwapTriangles(old(triangles)[i1], old(triangles)[i2]);
        triangles == old(triangles)[i1 := r1][i2 := r2]
    {
      SwapKeepsTrianglesProper(triangles[i1], triangles[i2], bound);
      var nc1 := NotCommonPoint(triangles[i1], triangles[i2]);
      var nc2 := NotCommonPoint(triangles[i2], triangles[i1]);
      var (c1, c2) := CommonPoints(triangles[i1], triangles[i2]);
      triangles := triangles[i1 := ReplacePoint(triangles[i1], c1, nc1)];
      triangles := triangles[i2 := ReplacePoint(triangles[i2], c2, nc2)];
    }

    /** Three stack_push calls in a row. */
    method PushThree(ws: Stack, vs: seq<int>)
      requires |vs| == 3
      requires ws.Valid() && InRange(ws)
      requires forall k :: 0 <= k < 3 ==> NONE <= vs[k] < |triangles|
      modifies ws, ws.data
      ensures ws.Valid() && InRange(ws)
      ensures ws.Contents() == PushAll(old(ws.Contents()), vs)
      ensures old(ws.Contents()) <= ws.Contents() && |ws.Contents()| <= |old(ws.Contents())| + 3
    {
      PushAllIndicesBelow(ws.Contents(), vs, |triangles|);
      PushAllThree(ws.Contents(), vs);
      ws.Push(vs[0]);
      ws.Push(vs[1]);
      ws.Push(vs[2]);
    }

    /**
     * The flip branch of process_stack: swap the pair, recompute every
     * triangle, then push the new neighbours of the popped triangle and of
     * its neighbour.
     */
    method FlipAndRequeue(geo: Geometry, ws: Stack, nb: int, tix: int, ghost bound: int)
      requires bound <= |points| && MeshOk(triangles, bound)
      requires 0 <= nb < |triangles| && 0 <= tix < |triangles| && nb != tix
      requires NotCommonPoint(triangles[tix], triangles[nb]) != NONE
      requires ws.Valid() && InRange(ws)
      modifies this`triangles, ws, ws.data
      ensures MeshOk(triangles, bound) && ws.Valid() && InRange(ws)
      ensures |triangles| == |old(triangles)|
      ensures ws.Contents() == PushAll(PushAll(old(ws.Contents()), triangles[tix].neighbours), triangles[nb].neighbours)
      ensures old(ws.Contents()) <= ws.Contents() && |ws.Contents()| <= |old(ws.Contents())| + 6
      ensures AllRefreshed(geo)
      ensures var (r1, r2) := SwapTriangles(old(triangles)[nb], old(triangles)[tix]);
        SameShape(triangles, old(triangles)[nb := r1][tix := r2])
    {
      FlipPair(geo, nb, tix, bound);
      assert WellFormed(triangles[tix], bound, |triangles|) && WellFormed(triangles[nb], bound, |triangles|);
      PushThree(ws, triangles[tix].neighbours);
      PushThree(ws, triangles[nb].neighbours);
    }

    /** The swap of the pair followed by the recomputation of every triangle. */
    method FlipPair(geo: Geometry, nb: int, tix: int, ghost bound: int)
      requires bound <= |points| && MeshOk(triangles, bound)
      requires 0 <= nb < |triangles| && 0 <= tix < |triangles| && nb != tix
      requires NotCommonPoint(triangles[tix], triangles[nb]) != NONE
      modifies this`triangles
      ensures MeshOk(triangles, bound) && AllRefreshed(geo)
      ensures |triangles| == |old(triangles)|
      ensures var (r1, r2) := SwapTriangles(old(triangles)[nb], old(triangles)[tix]);
        SameShape(triangles, old(triangles)[nb := r1][tix := r2])
    {
      SwapTrianglesAt(nb, tix, bound);
      ghost var swapped := triangles;
      RefreshAll(geo);
      MeshAfterRefresh(triangles, bound);
      assert SameShape(triangles, swapped);
    }

    /**
     * The slot loop of process_stack up to its decision: the first slot of
     * triangle p that is neither -1 nor a neighbour whose opposite vertex lies
     * outside p's circle, or 3 when every slot is passed over.
     */
    method ScanSlots(geo: Geometry, p: int, ghost bound: int) returns (k: int)
      requires bound <= |points| && MeshOk(triangles, bound) && 0 <= p < |triangles|
      ensures 0 <= k <= 3
      ensures forall j :: 0 <= j < k ==> Passed(Verdict(geo, points, triangles, bound, p, j))
      ensures k < 3 ==> !Passed(Verdict(geo, points, triangles, bound, p, k))
    {
      k := 0;
      while k < 3
        invariant 0 <= k <= 3
        invariant forall j :: 0 <= j < k ==> Passed(Verdict(geo, points, triangles, bound, p, j))
      {
        var nb := triangles[p].neighbours[k];
        if nb != NONE {
          var pix := NotCommonPoint(triangles[p], triangles[nb]);
          if pix == NONE || geo.pointInCircle(points[pix], triangles[p].circle) {
            return;
          }
        }
        k := k + 1;
      }
    }

    /**
     * process_stack after the pop of triangle p: the slot loop, then at its
     * decision either the error exit, or the flip with the recomputation and
     * the pushes; then the closing recomputation of every triangle.
     * `tracked` says whether p's slots were up to date.
     */
    method ProcessPopped(geo: Geometry, ws: Stack, p: int, ghost bound: int, ghost tracked: bool)
      returns (more: bool, ghost flip: FlipRecord)
      requires bound <= |points| && MeshOk(triangles, bound) && 0 <= p < |triangles|
      requires ws.Valid() && InRange(ws)
      requires tracked ==> Fresh(triangles, p)
      modifies this`triangles, ws, ws.data
      ensures MeshOk(triangles, bound) && ws.Valid() && InRange(ws)
      ensures |triangles| == |old(triangles)|
      ensures old(ws.Contents()) <= ws.Contents() && |ws.Contents()| <= |old(ws.Contents())| + 6
      ensures tracked ==> more
      ensures more ==> AllRefreshed(geo)
      ensures PassFrom(geo, points, bound, old(triangles), p, old(ws.Contents()), PassState(triangles, ws.Contents()),
                       more, flip)
      ensures tracked && flip.Flipped? ==>
        flip.neighbour < |old(triangles)| && Has2PointsInCommon(old(triangles)[flip.neighbour], old(triangles)[p])
    {
      var n := ScanSlots(geo, p, bound);
      if n == 3 {
        RefreshAll(geo);
        MeshAfterRefresh(triangles, bound);
        more, flip := true, NoFlip;
        return;
      }
      var nb := triangles[p].neighbours[n];
      var pix := NotCommonPoint(triangles[p], triangles[nb]);
      if tracked {
        FreshSlotHasOpposite(triangles, bound, p, n);
        NeighboursSound(triangles, p);
        Has2PointsInCommonSymmetric(triangles[p], triangles[nb]);
      }
      if pix == NONE {
        more, flip := false, NoFlip;
        assert StopsAt(geo, points, triangles, bound, p, n, NoOpposite);
        return;
      }
      FlipThenRefresh(geo, ws, nb, p, bound);
      more, flip := true, Flipped(nb, p, n);
      assert FlipsAt(geo, points, bound, old(triangles), PassState(triangles, ws.Contents()), old(ws.Contents()), p, n);
    }

    /**
     * The flip branch of process_stack followed by the closing recomputation
     * of every triangle, which changes nothing more.
     */
    method FlipThenRefresh(geo: Geometry, ws: Stack, nb: int, tix: int, ghost bound: int)
      requires bound <= |points| && MeshOk(triangles, bound)
      requires 0 <= nb < |triangles| && 0 <= tix < |triangles| && nb != tix
      requires NotCommonPoint(triangles[tix], triangles[nb]) != NONE
      requires ws.Valid() && InRange(ws)
      modifies this`triangles, ws, ws.data
      ensures MeshOk(triangles, bound) && ws.Valid() && InRange(ws)
      ensures |triangles| == |old(triangles)|
      ensures old(ws.Contents()) <= ws.Contents() && |ws.Contents()| <= |old(ws.Contents())| + 6
      ensures AllRefreshed(geo)
      ensures FlipOutcome(old(triangles), PassState(triangles, ws.Contents()), old(ws.Contents()), nb, tix)
    {
      FlipAndRequeue(geo, ws, nb, tix, bound);
      RefreshAll(geo);
    }

    /**
     * process_stack: pop one triangle and look at its neighbours in slot order;
     * at the first neighbour whose opposite vertex lies in the popped
     * triangle's circle, flip the pair, recompute everything and push both
     * triangles' new neighbours. Then recompute everything again.
     * `bound` is the vertex bound the mesh keeps (the cursor plus one inside a
     * step).
     */
    method ProcessStack(geo: Geometry, ws: Stack, ghost bound: int) returns (more: bool, ghost flip: FlipRecord)
      requires bound <= |points| && MeshOk(triangles, bound)
      requires ws.Valid() && InRange(ws)
      modifies this`triangles, ws, ws.data
      ensures MeshOk(triangles, bound) && ws.Valid() && InRange(ws)
      ensures |triangles| == |old(triangles)|
      ensures |ws.Contents()| <= old(ws.top) + 5
      ensures old(Tracked(ws)) ==> more == (old(ws.top) > 0)
      ensures more ==> AllRefreshed(geo) && Tracked(ws)
      ensures Pass(geo, points, bound, PassState(old(triangles), old(ws.Contents())), PassState(triangles, ws.Contents()),
                   more, flip)
      ensures old(Tracked(ws)) && flip.Flipped? ==>
        && flip.neighbour < |old(triangles)| && flip.popped < |old(triangles)|
        && Has2PointsInCommon(old(triangles)[flip.neighbour], old(triangles)[flip.popped])
    {
      if ws.top == 0 {
        more, flip := false, NoFlip;
        return;
      }
      ghost var tracked := Tracked(ws);
      ghost var before := PassState(triangles, ws.Contents());
      var tix := ws.Pop();
      assert tix in old(ws.Contents());
      assert forall x :: x in ws.Contents() ==> x in old(ws.Contents());
      ghost var rest := ws.Contents();
      assert before.work == rest + [tix];
      more, flip := ProcessPopped(geo, ws, tix, bound, tracked);
      PopThenPass(geo, points, bound, before, tix, rest, PassState(triangles, ws.Contents()), more, flip);
    }

    /**
     * The seeding loop of delaunay_step: calculate_neighbours for every
     * triangle on the worklist, which leaves each of them up to date.
     */
    method RecomputeWorklist(ws: Stack, ghost bound: int)
      requires MeshOk(triangles, bound)
      requires ws.Valid() && InRange(ws)
      modifies this`triangles
      ensures MeshOk(triangles, bound) && Tracked(ws)
      ensures SameShape(triangles, old(triangles))
      ensures forall j :: 0 <= j < |triangles| ==>
        triangles[j] == if j in ws.Contents() then old(triangles)[j].(neighbours := Neighbours(old(triangles), j))
                        else old(triangles)[j]
    {
      ghost var before := triangles;
      var s := 0;
      while s < ws.top
        invariant 0 <= s <= ws.top && |triangles| == |before|
        invariant forall j :: 0 <= j < |triangles| ==>
          triangles[j] == if j in ws.data[..s] then before[j].(neighbours := Neighbours(before, j)) else before[j]
      {
        var e := ws.data[s];
        assert e in ws.Contents();
        assert ws.data[..s + 1] == ws.data[..s] + [e];
        ghost var cur := triangles;
        assert SameShape(cur, before);
        NeighboursReadCornersOnly(cur, before, e);
        CalculateNeighbours(e);
        s := s + 1;
      }
      assert ws.data[..ws.top] == ws.Contents();
      assert SameShape(triangles, before);
      forall j | 0 <= j < |triangles|
        ensures WellFormed(triangles[j], bound, |triangles|)
        ensures j in ws.Contents() ==> Fresh(triangles, j)
      {
        NeighboursReadCornersOnly(triangles, before, j);
        NeighboursSound(before, j);
      }
    }

    /**
     * The 1-to-3 split of triangle t by the point under the cursor: t keeps
     * its slot as (i1, p, i3), and (i1, i2, p) and (i2, i3, p) are appended
     * with no neighbours. Each gets the circle through its three points.
     */
    method Split(geo: Geometry, t: int)
      requires Valid() && currentpoint < |points| && 0 <= t < |triangles|
      modifies this`triangles
      ensures MeshOk(triangles, currentpoint + 1)
      ensures |triangles| == |old(triangles)| + 2
      ensures triangles == SplitMesh(geo, points, old(triangles), t, currentpoint)
      ensures var o, p := old(triangles)[t], currentpoint;
        var i1, i2, i3 := o.ix1, o.ix2, o.ix3;
        && HasCorners(triangles[t], i1, p, i3)
        && triangles[t].neighbours == old(triangles)[t].neighbours
        && HasCorners(triangles[|triangles| - 2], i1, i2, p)
        && HasCorners(triangles[|triangles| - 1], i2, i3, p)
        && triangles[|triangles| - 2].neighbours == EMPTY_SLOTS
        && triangles[|triangles| - 1].neighbours == EMPTY_SLOTS
        && triangles[t].circle == geo.circleFromTriangle(points[i1], points[p], points[i3])
        && triangles[|triangles| - 2].circle == geo.circleFromTriangle(points[i1], points[i2], points[p])
        && triangles[|triangles| - 1].circle == geo.circleFromTriangle(points[i2], points[i3], points[p])
        && forall j :: 0 <= j < |old(triangles)| && j != t ==> triangles[j] == old(triangles)[j]
    {
      var tr := triangles[t];
      var p := currentpoint;
      var a, b, c := points[tr.ix1], points[tr.ix2], points[tr.ix3];
      var n1 := Triangle(tr.ix1, tr.ix2, p, geo.circleFromTriangle(a, b, points[p]), EMPTY_SLOTS);
      var n2 := Triangle(tr.ix2, tr.ix3, p, geo.circleFromTriangle(b, c, points[p]), EMPTY_SLOTS);
      triangles := triangles[t := tr.(ix2 := p, circle := geo.circleFromTriangle(a, points[p], c))];
      triangles := triangles + [n1];
      triangles := triangles + [n2];
      assert forall j :: 0 <= j < |triangles| - 2 ==> WellFormed(old(triangles)[j], currentpoint, |old(triangles)|);
    }

    /**
     * `while (process_stack(delaunay));` with at most `rounds` calls: true
     * when a call returned false, which with an up-to-date worklist happens
     * exactly when the worklist is empty.
     */
    method Drain(geo: Geometry, ws: Stack, rounds: nat, ghost bound: int)
      returns (drained: bool, calls: nat, ghost trace: seq<PassState>, ghost flips: seq<FlipRecord>)
      requires bound <= |points| && MeshOk(triangles, bound)
      requires ws.Valid() && Tracked(ws)
      modifies this`triangles, ws, ws.data
      ensures MeshOk(triangles, bound) && ws.Valid() && Tracked(ws)
      ensures |triangles| == |old(triangles)|
      ensures calls <= rounds && (!drained ==> calls == rounds) && (drained ==> calls >= 1)
      ensures drained ==> ws.top == 0
      ensures rounds > 0 && old(ws.top) == 0 ==>
        drained && calls == 1 && triangles == old(triangles) && ws.Contents() == old(ws.Contents())
      ensures |trace| == calls + 1
      ensures trace[0] == PassState(old(triangles), old(ws.Contents()))
      ensures trace[calls] == PassState(triangles, ws.Contents())
      ensures |flips| == calls
      ensures Chain(geo, points, bound, trace, flips, !drained)
      ensures old(ws.top) > 0 && calls >= 1 ==> AllRefreshed(geo)
    {
      var more := true;
      calls := 0;
      trace := [PassState(triangles, ws.Contents())];
      ghost var pts := points;
      flips := [];
      while more && calls < rounds
        invariant 0 <= calls <= rounds
        invariant |triangles| == |old(triangles)|
        invariant MeshOk(triangles, bound) && ws.Valid() && Tracked(ws)
        invariant !more ==> ws.top == 0 && calls >= 1
        invariant old(ws.top) == 0 && calls >= 1 ==>
          !more && calls == 1 && triangles == old(triangles) && ws.Contents() == old(ws.Contents())
        invariant calls == 0 ==> triangles == old(triangles) && ws.Contents() == old(ws.Contents()) && ws.top == old(ws.top)
        invariant |trace| == calls + 1 && trace[0] == PassState(old(triangles), old(ws.Contents()))
        invariant trace[calls] == PassState(triangles, ws.Contents())
        invariant points == pts && |flips| == calls
        invariant Chain(geo, pts, bound, trace, flips, more)
        invariant old(ws.top) > 0 && calls == 1 ==> more
      {
        assert InRange(ws);
        ghost var flip;
        more, flip := ProcessStack(geo, ws, bound);
        ChainExtend(geo, pts, bound, trace, flips, PassState(triangles, ws.Contents()), more, flip);
        calls := calls + 1;
        trace, flips := trace + [PassState(triangles, ws.Contents())], flips + [flip];
      }
      drained := !more;
      if old(ws.top) > 0 && calls >= 1 {
        ChainEndsUpToDate(geo, pts, bound, trace, flips, more);
      }
    }

    /**
     * delaunay_step once triangle t was found, up to the flip passes: split
     * it, push t, the two new triangles and t's neighbour slots, and
     * recompute the neighbours of every worklist entry.
     */
    method SplitAndSeed(geo: Geometry, ws: Stack, t: int)
      requires Valid() && currentpoint < |points| && 0 <= t < |triangles|
      requires ws.Valid() && Tracked(ws)
      modifies this`triangles, ws, ws.data
      ensures MeshOk(triangles, currentpoint + 1) && ws.Valid() && Tracked(ws)
      ensures |triangles| == |old(triangles)| + 2
      ensures Seeded(geo, points, old(triangles), t, currentpoint, old(ws.Contents()), PassState(triangles, ws.Contents()))
      ensures ws.top > 0
      ensures var o, p := old(triangles)[t], currentpoint;
        var i1, i2, i3 := o.ix1, o.ix2, o.ix3;
        && HasCorners(triangles[t], i1, p, i3)
        && HasCorners(triangles[|triangles| - 2], i1, i2, p)
        && HasCorners(triangles[|triangles| - 1], i2, i3, p)
        && forall j :: 0 <= j < |old(triangles)| && j != t ==> SameCorners(triangles[j], old(triangles)[j])
    {
      ghost var bound := currentpoint + 1;
      ghost var i1, i2, i3, p := triangles[t].ix1, triangles[t].ix2, triangles[t].ix3, currentpoint;
      ghost var n := |triangles| + 2;
      assert InRange(ws);
      Split(geo, t);
      ghost var split := triangles;
      assert HasCorners(split[t], i1, p, i3);
      assert HasCorners(split[n - 2], i1, i2, p) && HasCorners(split[n - 1], i2, i3, p);
      Seed(ws, t, bound);
      assert SameCorners(triangles[t], split[t]);
      assert SameCorners(triangles[n - 2], split[n - 2]);
      assert SameCorners(triangles[n - 1], split[n - 1]);
    }

    /**
     * The seeding of delaunay_step after the split of t: push t, the two
     * newest triangles and t's neighbour slots, then recompute the neighbours
     * of every worklist entry.
     */
    method Seed(ws: Stack, t: int, ghost bound: int)
      requires MeshOk(triangles, bound) && 0 <= t < |triangles|
      requires ws.Valid() && InRange(ws)
      modifies this`triangles, ws, ws.data
      ensures MeshOk(triangles, bound) && ws.Valid() && Tracked(ws)
      ensures SameShape(triangles, old(triangles))
      ensures ws.Contents() ==
        PushAll(old(ws.Contents()), [t, |triangles| - 1, |triangles| - 2] + old(triangles)[t].neighbours)
      ensures Recomputed(old(triangles), PassState(triangles, ws.Contents()))
      ensures ws.top > 0
    {
      PushSeeds(ws, t, bound);
      RecomputeWorklist(ws, bound);
    }

    /** The six stack_push calls of delaunay_step after the split of t. */
    method PushSeeds(ws: Stack, t: int, ghost bound: int)
      requires MeshOk(triangles, bound) && 0 <= t < |triangles|
      requires ws.Valid() && InRange(ws)
      modifies ws, ws.data
      ensures ws.Valid() && InRange(ws)
      ensures ws.Contents() ==
        PushAll(old(ws.Contents()), [t, |triangles| - 1, |triangles| - 2] + triangles[t].neighbours)
      ensures ws.top > 0
    {
      var count := |triangles|;
      ghost var w0 := ws.Contents();
      assert WellFormed(triangles[t], bound, count);
      PushThree(ws, [t, count - 1, count - 2]);
      PushThree(ws, triangles[t].neighbours);
      PushAllConcat(w0, [t, count - 1, count - 2], triangles[t].neighbours);
      PushAllNonEmpty(w0, [t, count - 1, count - 2] + triangles[t].neighbours);
    }

    /**
     * The body of delaunay_step once triangle t was found: the split and the
     * seeding, then the flip passes.
     */
    method SplitAndLegalise(geo: Geometry, ws: Stack, t: int, rounds: nat) returns (drained: bool)
      requires Valid() && currentpoint < |points| && 0 <= t < |triangles|
      requires ws.Valid() && Tracked(ws)
      modifies this`triangles, ws, ws.data
      ensures MeshOk(triangles, currentpoint + 1) && ws.Valid() && Tracked(ws)
      ensures |triangles| == |old(triangles)| + 2
      ensures drained ==> ws.top == 0
      ensures rounds > 0 ==> AllRefreshed(geo)
    {
      SplitAndSeed(geo, ws, t);
      var calls;
      ghost var trace, flips;
      drained, calls, trace, flips := Drain(geo, ws, rounds, currentpoint + 1);
    }

    /**
     * delaunay_step: when a point is pending, split the first triangle that
     * contains it, seed the worklist with the three resulting triangles and
     * the old neighbours of the split one, recompute the neighbours of every
     * worklist entry, and call process_stack until it returns false (at most
     * `rounds` times). The cursor advances by one whether or not a triangle
     * contained the point.
     */
    method Step(geo: Geometry, ws: Stack, rounds: nat) returns (outcome: StepOutcome)
      requires Valid() && ws.Valid() && Tracked(ws)
      modifies this, ws, ws.data
      ensures Valid() && ws.Valid() && Tracked(ws)
      ensures points == old(points)
      ensures old(currentpoint) >= |points| ==>
        && outcome == NoStepsLeft && triangles == old(triangles) && currentpoint == old(currentpoint)
        && ws.Contents() == old(ws.Contents())
      ensures old(currentpoint) < |points| ==> currentpoint == old(currentpoint) + 1 && !outcome.NoStepsLeft?
      ensures outcome.NotInAnyTriangle? ==>
        && triangles == old(triangles) && inserted == old(inserted)
        && ws.Contents() == old(ws.Contents())
        && forall j :: 0 <= j < |triangles| ==> !Contains(geo, points, triangles, old(currentpoint), j)
      ensures outcome.Inserted? ==>
        && |triangles| == |old(triangles)| + 2 && inserted == old(inserted) + 1
        && outcome.target < |old(triangles)|
        && Contains(geo, points, old(triangles), old(currentpoint), outcome.target)
        && (forall j :: 0 <= j < outcome.target ==> !Contains(geo, points, old(triangles), old(currentpoint), j))
        && (outcome.drained ==> ws.top == 0)
        && (rounds > 0 ==> AllRefreshed(geo))
    {
      if currentpoint >= |points| {
        return NoStepsLeft;
      }
      var t := Locate(geo);
      if t < 0 {
        outcome := NotInAnyTriangle;
        currentpoint := currentpoint + 1;
        return;
      }
      var drained := SplitAndLegalise(geo, ws, t, rounds);
      inserted := inserted + 1;
      outcome := Inserted(t, drained);
      currentpoint := currentpoint + 1;
    }
  }

  /** Recomputed neighbour slots keep a mesh well formed. */
  lemma MeshAfterRefresh(tris: seq<Triangle>, bound: int)
    requires forall j :: 0 <= j < |tris| ==> Distinct(tris[j]) && Below(tris[j], bound) && Fresh(tris, j)
    ensures MeshOk(tris, bound)
  {
    forall j | 0 <= j < |tris| ensures WellFormed(tris[j], bound, |tris|) {
      NeighboursSound(tris, j);
    }
  }
}
