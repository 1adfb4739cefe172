/**
 * Adjacency between triangles: two triangles are neighbours when exactly two
 * vertex indices of one occur among the vertices of the other. A triangle
 * records at most three neighbours, filling its slots left to right.
 */
module Adjacency {
  import opened Mesh

  /** How many of a's vertex slots hold an index that is a vertex of b. */
  function InCommon(a: Triangle, b: Triangle): (n: nat)
    ensures n <= 3
  {
    (if a.ix1 == b.ix1 || a.ix1 == b.ix2 || a.ix1 == b.ix3 then 1 else 0)
    + (if a.ix2 == b.ix1 || a.ix2 == b.ix2 || a.ix2 == b.ix3 then 1 else 0)
    + (if a.ix3 == b.ix1 || a.ix3 == b.ix2 || a.ix3 == b.ix3 then 1 else 0)
  }

  /**
   * has_2_points_in_common: exactly two of a's vertex slots hold vertices of
   * b. Such a pair shares a vertex, and a has a vertex outside b, so a
   * triangle never passes the test against a copy of itself.
   */
  predicate Has2PointsInCommon(a: Triangle, b: Triangle): (r: bool)
    ensures r ==> Shared(a, b) != {} && !(Vertices(a) <= Vertices(b))
  {
    InCommon(a, b) == 2
  }

  /** The vertex indices the two triangles share. */
  function Shared(a: Triangle, b: Triangle): set<int>
  {
    Vertices(a) * Vertices(b)
  }

  /**
   * For a triangle with distinct vertices, the slot count of
   * has_2_points_in_common is the size of the shared vertex set, so the test
   * holds exactly when the two triangles share an edge.
   */
  lemma InCommonIsSharedSize(a: Triangle, b: Triangle)
    requires Distinct(a)
    ensures InCommon(a, b) == |Shared(a, b)|
    ensures Has2PointsInCommon(a, b) <==> |Shared(a, b)| == 2
  {
    var v := Vertices(b);
    var in1, in2, in3 := a.ix1 in v, a.ix2 in v, a.ix3 in v;
    if in1 && in2 && in3 {
      assert Shared(a, b) == {a.ix1, a.ix2, a.ix3};
    } else if in1 && in2 {
      assert Shared(a, b) == {a.ix1, a.ix2};
    } else if in1 && in3 {
      assert Shared(a, b) == {a.ix1, a.ix3};
    } else if in2 && in3 {
      assert Shared(a, b) == {a.ix2, a.ix3};
    } else if in1 {
      assert Shared(a, b) == {a.ix1};
    } else if in2 {
      assert Shared(a, b) == {a.ix2};
    } else if in3 {
      assert Shared(a, b) == {a.ix3};
    } else {
      assert Shared(a, b) == {};
    }
  }

  /** For triangles with distinct vertices has_2_points_in_common is symmetric. */
  lemma Has2PointsInCommonSymmetric(a: Triangle, b: Triangle)
    requires Distinct(a) && Distinct(b)
    ensures Has2PointsInCommon(a, b) == Has2PointsInCommon(b, a)
  {
    InCommonIsSharedSize(a, b);
    InCommonIsSharedSize(b, a);
    assert Shared(a, b) == Shared(b, a);
  }

  /**
   * add_neightbour: n goes into the first slot that holds -1; every other slot
   * keeps its value, and with no free slot nothing changes.
   */
  function AddNeighbour(s: Slots, n: int): (r: Slots)
    ensures forall j :: 0 <= j < 3 ==>
      r[j] == if s[j] == NONE && NONE !in s[..j] then n else s[j]
    ensures NONE !in s ==> r == s
  {
    if s[0] == NONE then s[0 := n]
    else if s[1] == NONE then s[1 := n]
    else if s[2] == NONE then s[2 := n]
    else s
  }

  /** Slot j of the padded list m: its j-th element, or -1 past its end. */
  function SlotOf(m: seq<int>, j: nat): int
  {
    if j < |m| then m[j] else NONE
  }

  /** The first three entries of m, padded with -1. */
  function Padded(m: seq<int>): Slots
  {
    [SlotOf(m, 0), SlotOf(m, 1), SlotOf(m, 2)]
  }

  /**
   * Reference definition of what calculate_neighbours finds: the indices
   * t < k, t != i, of triangles sharing exactly two vertices with triangle i,
   * in increasing order.
   */
  function Matches(tris: seq<Triangle>, i: nat, k: nat): seq<int>
    requires i < |tris| && k <= |tris|
  {
    if k == 0 then []
    else
      var m := Matches(tris, i, k - 1);
      if k - 1 != i && Has2PointsInCommon(tris[i], tris[k - 1]) then m + [k - 1] else m
  }

  /** The slots calculate_neighbours leaves in triangle i. */
  function Neighbours(tris: seq<Triangle>, i: nat): Slots
    requires i < |tris|
  {
    Padded(Matches(tris, i, |tris|))
  }

  /** A triangle whose slots are what calculate_neighbours would compute now. */
  predicate Fresh(tris: seq<Triangle>, i: int)
  {
    0 <= i < |tris| && tris[i].neighbours == Neighbours(tris, i)
  }

  /**
   * Matches lists exactly the matching indices below k, strictly increasing.
   */
  lemma {:induction false} MatchesSpec(tris: seq<Triangle>, i: nat, k: nat)
    requires i < |tris| && k <= |tris|
    ensures var m := Matches(tris, i, k);
      && (forall p :: 0 <= p < |m| ==>
            0 <= m[p] < k && m[p] != i && Has2PointsInCommon(tris[i], tris[m[p]]))
      && (forall p, q :: 0 <= p < q < |m| ==> m[p] < m[q])
      && (forall t :: 0 <= t < k && t != i && Has2PointsInCommon(tris[i], tris[t]) ==> t in m)
  {
    if k > 0 {
      MatchesSpec(tris, i, k - 1);
    }
  }

  /** Matches reads only the vertex indices of the triangles. */
  lemma {:induction false} MatchesReadCornersOnly(tris: seq<Triangle>, tris': seq<Triangle>, i: nat, k: nat)
    requires SameShape(tris, tris')
    requires i < |tris| && k <= |tris|
    ensures Matches(tris, i, k) == Matches(tris', i, k)
  {
    if k > 0 {
      MatchesReadCornersOnly(tris, tris', i, k - 1);
      assert SameCorners(tris[i], tris'[i]) && SameCorners(tris[k - 1], tris'[k - 1]);
    }
  }

  /** So the neighbour slots of a triangle depend only on the vertex indices. */
  lemma NeighboursReadCornersOnly(tris: seq<Triangle>, tris': seq<Triangle>, i: nat)
    requires SameShape(tris, tris') && i < |tris|
    ensures Neighbours(tris, i) == Neighbours(tris', i)
  {
    MatchesReadCornersOnly(tris, tris', i, |tris|);
  }

  /** Adding a non-negative index to the padded slots of m pads m + [n]. */
  lemma AddNeighbourToPadded(m: seq<int>, n: int)
    requires forall p :: 0 <= p < |m| ==> m[p] >= 0
    requires n >= 0
    ensures AddNeighbour(Padded(m), n) == Padded(m + [n])
  {
    var s := Padded(m);
    if |m| >= 3 {
      assert NONE !in s;
    } else if |m| == 2 {
      assert s[..2] == [m[0], m[1]];
    } else if |m| == 1 {
      assert s[..1] == [m[0]];
    }
  }

  /**
   * Soundness of calculate_neighbours: every slot that is not -1 holds the
   * index of another triangle that shares exactly two vertices with i, and
   * filled slots come before the -1 slots.
   */
  lemma NeighboursSound(tris: seq<Triangle>, i: nat)
    requires i < |tris|
    ensures var s := Neighbours(tris, i);
      && (forall j :: 0 <= j < 3 && s[j] != NONE ==>
            0 <= s[j] < |tris| && s[j] != i && Has2PointsInCommon(tris[i], tris[s[j]]))
      && (forall j, j' :: 0 <= j < j' < 3 && s[j] == NONE ==> s[j'] == NONE)
  {
    MatchesSpec(tris, i, |tris|);
  }

  /**
   * The recorded neighbours are the first matching triangles in increasing
   * index order: filled slots increase, and every matching triangle with a
   * smaller index than a recorded one is recorded in an earlier slot.
   */
  lemma NeighboursAreFirstMatches(tris: seq<Triangle>, i: nat)
    requires i < |tris|
    ensures var s := Neighbours(tris, i);
      && (forall j, j' :: 0 <= j < j' < 3 && s[j'] != NONE ==> s[j] < s[j'])
      && (forall j, t ::
            0 <= j < 3 && s[j] != NONE && 0 <= t < s[j] && t < |tris| && t != i
            && Has2PointsInCommon(tris[i], tris[t])
            ==> t in s[..j])
  {
    var m := Matches(tris, i, |tris|);
    var s := Neighbours(tris, i);
    MatchesSpec(tris, i, |tris|);
    forall j, t | 0 <= j < 3 && s[j] != NONE && 0 <= t < s[j] && t < |tris| && t != i
      && Has2PointsInCommon(tris[i], tris[t])
      ensures t in s[..j]
    {
      var p :| 0 <= p < |m| && m[p] == t;
      assert j < |m| && s[j] == m[j];
      assert p < j;
      assert s[p] == t;
    }
  }

  /**
   * Completeness: a triangle sharing exactly two vertices with i that is not
   * recorded comes after three recorded ones, so when at most three such
   * triangles exist all of them are recorded.
   */
  lemma NeighboursComplete(tris: seq<Triangle>, i: nat)
    requires i < |tris|
    ensures var s := Neighbours(tris, i);
      forall t :: 0 <= t < |tris| && t != i && Has2PointsInCommon(tris[i], tris[t]) && t !in s
        ==> NONE !in s && s[0] < t && s[1] < t && s[2] < t
  {
    var m := Matches(tris, i, |tris|);
    var s := Neighbours(tris, i);
    MatchesSpec(tris, i, |tris|);
    forall t | 0 <= t < |tris| && t != i && Has2PointsInCommon(tris[i], tris[t]) && t !in s
      ensures NONE !in s && s[0] < t && s[1] < t && s[2] < t
    {
      var p :| 0 <= p < |m| && m[p] == t;
      assert forall q :: 0 <= q < 3 && q < |m| ==> s[q] == m[q];
      assert 3 <= p;
    }
  }

  /**
   * Symmetry of the recomputed adjacency: if triangle a records b, and b has
   * a free slot, then b records a (both with distinct vertices).
   */
  lemma NeighboursSymmetric(tris: seq<Triangle>, a: nat, b: nat)
    requires a < |tris| && b < |tris|
    requires Distinct(tris[a]) && Distinct(tris[b])
    requires b in Neighbours(tris, a) && NONE in Neighbours(tris, b)
    ensures a in Neighbours(tris, b)
  {
    NeighboursSound(tris, a);
    var j :| 0 <= j < 3 && Neighbours(tris, a)[j] == b;
    Has2PointsInCommonSymmetric(tris[a], tris[b]);
    NeighboursComplete(tris, b);
  }
}
