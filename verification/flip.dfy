/**
 * The index surgery of an edge flip. Two triangles sharing the edge (c1, c2)
 * with opposite vertices o1 and o2 become (o2, c2, o1) and (c1, o1, o2): the
 * shared diagonal c1-c2 of the quadrilateral is replaced by o1-o2.
 */
module Flip {
  import opened Mesh
  import opened Adjacency

  /**
   * common_points: the vertices of t1 that are also vertices of t2, in t1's
   * slot order; -1 where there is none. The first out-parameter is set by ix1,
   * or by ix2 when ix1 did not set it; the second by ix2 otherwise, and ix3
   * always overwrites it.
   */
  function CommonPoints(t1: Triangle, t2: Triangle): (r: (int, int))
    ensures r.0 == NONE || r.0 in Shared(t1, t2)
    ensures r.1 == NONE || r.1 in Shared(t1, t2)
  {
    var v := Vertices(t2);
    var c1 := if t1.ix1 in v then t1.ix1 else NONE;
    var (c1', c2) := if t1.ix2 in v then (if c1 == NONE then (t1.ix2, NONE) else (c1, t1.ix2)) else (c1, NONE);
    var c2' := if t1.ix3 in v then t1.ix3 else c2;
    (c1', c2')
  }

  /**
   * On a shared edge common_points returns both of its endpoints, different,
   * the first earlier than the second in t1's slot order.
   */
  lemma CommonPointsOfEdge(t1: Triangle, t2: Triangle)
    requires Distinct(t1) && NONE !in Vertices(t1)
    requires Has2PointsInCommon(t1, t2)
    ensures var (c1, c2) := CommonPoints(t1, t2);
      && c1 != c2
      && Shared(t1, t2) == {c1, c2}
      && exists p, q :: 0 <= p < q < 3 && Corners(t1)[p] == c1 && Corners(t1)[q] == c2
  {
    InCommonIsSharedSize(t1, t2);
    var (c1, c2) := CommonPoints(t1, t2);
    var v := Vertices(t2);
    if t1.ix1 in v && t1.ix2 in v {
      assert Corners(t1)[0] == c1 && Corners(t1)[1] == c2;
    } else if t1.ix1 in v {
      assert Corners(t1)[0] == c1 && Corners(t1)[2] == c2;
    } else {
      assert Corners(t1)[1] == c1 && Corners(t1)[2] == c2;
    }
  }

  /**
   * not_common_point: the first vertex of t2, in slot order, that is not a
   * vertex of t1, or -1 when every vertex of t2 is a vertex of t1.
   */
  function NotCommonPoint(t1: Triangle, t2: Triangle): (r: int)
    ensures r != NONE ==> r in Vertices(t2) && r !in Vertices(t1)
    ensures r != NONE ==>
      exists k :: 0 <= k < 3 && Corners(t2)[k] == r
        && forall j :: 0 <= j < k ==> Corners(t2)[j] in Vertices(t1)
    ensures NONE !in Vertices(t2) ==> (r == NONE <==> Vertices(t2) <= Vertices(t1))
  {
    var v := Vertices(t1);
    var c := Corners(t2);
    if t2.ix1 !in v then assert c[0] == t2.ix1; t2.ix1
    else if t2.ix2 !in v then assert c[1] == t2.ix2; t2.ix2
    else if t2.ix3 !in v then assert c[2] == t2.ix3; t2.ix3
    else NONE
  }

  /**
   * replace_point: only the first vertex slot holding `from` becomes `to`;
   * when `from` is not a vertex nothing changes.
   */
  function ReplacePoint(t: Triangle, from: int, to: int): (r: Triangle)
    ensures r.circle == t.circle && r.neighbours == t.neighbours
    ensures forall j :: 0 <= j < 3 ==>
      Corners(r)[j] == if Corners(t)[j] == from && from !in Corners(t)[..j] then to else Corners(t)[j]
    ensures from !in Vertices(t) ==> r == t
  {
    var c := Corners(t);
    if t.ix1 == from then assert c[..1] == [from] && c[..2] == [from, t.ix2]; t.(ix1 := to)
    else if t.ix2 == from then assert c[..1] == [t.ix1] && c[..2] == [t.ix1, from]; t.(ix2 := to)
    else if t.ix3 == from then assert c[..2] == [t.ix1, t.ix2]; t.(ix3 := to)
    else assert from !in c; t
  }

  /** Replacing a vertex by a fresh index keeps the vertices distinct. */
  lemma ReplaceByNewVertex(t: Triangle, from: int, to: int)
    requires Distinct(t) && from in Vertices(t) && to !in Vertices(t)
    ensures Distinct(ReplacePoint(t, from, to))
    ensures Vertices(ReplacePoint(t, from, to)) == Vertices(t) - {from} + {to}
  {
  }

  /**
   * swap_triangles: t1's first shared vertex becomes t2's opposite vertex and
   * t2's copy of the second shared vertex becomes t1's opposite vertex.
   * Only vertex slots change, and only to vertices of the pair or to -1 (when
   * one triangle has no vertex outside the other).
   */
  function SwapTriangles(t1: Triangle, t2: Triangle): (r: (Triangle, Triangle))
    ensures r.0.circle == t1.circle && r.0.neighbours == t1.neighbours
    ensures r.1.circle == t2.circle && r.1.neighbours == t2.neighbours
    ensures Vertices(r.0) <= Vertices(t1) + Vertices(t2) + {NONE}
    ensures Vertices(r.1) <= Vertices(t1) + Vertices(t2) + {NONE}
  {
    var nc1 := NotCommonPoint(t1, t2);
    var nc2 := NotCommonPoint(t2, t1);
    var (c1, c2) := CommonPoints(t1, t2);
    (ReplacePoint(t1, c1, nc1), ReplacePoint(t2, c2, nc2))
  }

  /**
   * The flip of two triangles with distinct vertices sharing an edge yields
   * two triangles with distinct vertices over the same four vertices, which
   * now share exactly the two formerly unshared vertices. Circles and
   * neighbour slots are left to be recomputed.
   */
  lemma SwapFlipsDiagonal(t1: Triangle, t2: Triangle)
    requires Distinct(t1) && Distinct(t2)
    requires NONE !in Vertices(t1) && NONE !in Vertices(t2)
    requires Has2PointsInCommon(t1, t2)
    ensures var (r1, r2) := SwapTriangles(t1, t2);
      && Distinct(r1) && Distinct(r2)
      && Vertices(r1) + Vertices(r2) == Vertices(t1) + Vertices(t2)
      && Shared(r1, r2) == (Vertices(t1) + Vertices(t2)) - Shared(t1, t2)
      && Has2PointsInCommon(r1, r2)
      && r1.circle == t1.circle && r1.neighbours == t1.neighbours
      && r2.circle == t2.circle && r2.neighbours == t2.neighbours
  {
    Has2PointsInCommonSymmetric(t1, t2);
    CommonPointsOfEdge(t1, t2);
    var (c1, c2) := CommonPoints(t1, t2);
    var o2 := NotCommonPoint(t1, t2);
    var o1 := NotCommonPoint(t2, t1);
    assert !(Vertices(t2) <= Vertices(t1));
    assert !(Vertices(t1) <= Vertices(t2));
    assert Vertices(t1) == {c1, c2, o1};
    assert Vertices(t2) == {c1, c2, o2};
    ReplaceByNewVertex(t1, c1, o2);
    ReplaceByNewVertex(t2, c2, o1);
    var (r1, r2) := SwapTriangles(t1, t2);
    assert Vertices(r1) == {c2, o1, o2};
    assert Vertices(r2) == {c1, o1, o2};
    assert Shared(r1, r2) == {o1, o2};
    InCommonIsSharedSize(r1, r2);
  }
}
