/**
 * The data layout of the triangulation engine: points, circles, triangles
 * with three vertex indices and three neighbour slots (-1 meaning "none"),
 * and the three floating-point predicates, which this model does not
 * interpret and takes as parameters instead.
 */
module Mesh {

  /** A point of the plane; the coordinates are never inspected by the model. */
  datatype Point = Point(x: real, y: real)

  /** The cached circumcircle of a triangle. */
  datatype Circle = Circle(center: Point, radius: real)

  /** The fixed-size `int neighbours[3]` of a triangle. */
  type Slots = s: seq<int> | |s| == 3 witness [-1, -1, -1]

  /** The value written into a slot that holds no neighbour. */
  const NONE: int := -1

  const EMPTY_SLOTS: Slots := [NONE, NONE, NONE]

  /** A triangle: three indices into the point sequence, its circle and its neighbours. */
  datatype Triangle = Triangle(ix1: int, ix2: int, ix3: int, circle: Circle, neighbours: Slots)

  /**
   * The floating-point geometry the engine calls: point_in_triangle(p, a, b, c),
   * point_in_circle(p, circle) and circle_from_triangle(a, b, c). Any three
   * functions may be supplied; every result of the model holds for all of them.
   */
  datatype Geometry = Geometry(
    pointInTriangle: (Point, Point, Point, Point) -> bool,
    pointInCircle: (Point, Circle) -> bool,
    circleFromTriangle: (Point, Point, Point) -> Circle)

  /** The vertex slots of a triangle in storage order ix1, ix2, ix3. */
  function Corners(t: Triangle): (r: seq<int>)
    ensures |r| == 3
  {
    [t.ix1, t.ix2, t.ix3]
  }

  /** The set of vertex indices of a triangle. */
  function Vertices(t: Triangle): set<int>
  {
    {t.ix1, t.ix2, t.ix3}
  }

  /** The three vertex indices are pairwise different. */
  predicate Distinct(t: Triangle)
  {
    t.ix1 != t.ix2 && t.ix1 != t.ix3 && t.ix2 != t.ix3
  }

  /** Every vertex index lies in 0 .. bound-1. */
  predicate Below(t: Triangle, bound: int)
  {
    0 <= t.ix1 < bound && 0 <= t.ix2 < bound && 0 <= t.ix3 < bound
  }

  /** The vertex slots of t hold a, b and c, in that order. */
  predicate HasCorners(t: Triangle, a: int, b: int, c: int)
  {
    t.ix1 == a && t.ix2 == b && t.ix3 == c
  }

  /** Two triangles have the same vertex indices in the same slots. */
  predicate SameCorners(a: Triangle, b: Triangle)
  {
    a.ix1 == b.ix1 && a.ix2 == b.ix2 && a.ix3 == b.ix3
  }

  /** Two triangle sequences of the same length whose triangles have the same corners. */
  predicate SameShape(s: seq<Triangle>, s': seq<Triangle>)
  {
    |s| == |s'| && forall j :: 0 <= j < |s| ==> SameCorners(s[j], s'[j])
  }
}
