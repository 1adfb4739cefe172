# Incremental Delaunay engine: the combinatorial core in Dafny

This project models the index-level half of an incremental planar Delaunay
triangulator. The engine keeps an append-only sequence of points and an
append-only sequence of triangles. Each triangle stores three point indices, a
cached circumcircle and three neighbour slots, where -1 means "no neighbour".
A super-triangle occupies points 0, 1 and 2. A cursor names the next point to
insert.

Each step does four things:

- It finds the first triangle that contains the pending point.
- It splits that triangle into three.
- It seeds a deduplicating worklist (a fixed array of 100 triangle indices).
- It runs Lawson flip passes. Each pass pops one triangle and flips at most one
  of its edges.

The floating-point geometry is not interpreted. The three predicates
`point_in_triangle`, `point_in_circle` and `circle_from_triangle` are fields of
a `Geometry` value passed in by the caller, so every result holds for any
geometry.

Files, one module each:

- `mesh.dfy` (`Mesh`): points, circles, triangles and neighbour slots, as laid
  out in `delaunay.h`, plus the `Geometry` parameter.
- `worklist.dfy` (`Worklist`): the global `stack`/`stack_pointer` pair, as a
  class `Stack` over an `array<int>` of 100 entries.
- `adjacency.dfy` (`Adjacency`): `has_2_points_in_common` and
  `add_neightbour`. It also holds `Neighbours`, a reference definition of the
  slots that `calculate_neighbours` fills: the first three triangles, in index
  order, that share exactly two vertices.
- `flip.dfy` (`Flip`): `common_points`, `not_common_point`, `replace_point` and
  `swap_triangles`, as functions on triangle values.
- `engine.dfy` (`Engine`): the class `Delaunay` with the point and triangle
  sequences and the cursor. Its methods are `delaunay_init`,
  `calculate_neighbours`, `calculate_circle`, `process_stack` and
  `delaunay_step`.

The main invariants are:

- `Delaunay.Valid`: every triangle has three distinct vertex indices, all below
  the cursor. Every neighbour slot is -1 or a triangle index. The triangle
  count is `1 + 2k` after `k` points were found in a triangle.
- `Stack.Valid`: worklist entries are pairwise distinct, never -1, and at most
  100.
- `Delaunay.Tracked`: every worklist entry is a triangle whose neighbour slots
  match what `calculate_neighbours` would compute now. Under this invariant,
  `process_stack` never takes its "no non-common point" error exit. It returns
  false exactly when the worklist is empty.

Three details of the C code shape the model:

- After a split, `delaunay_step` recomputes the neighbours of the worklist
  entries only (delaunay.c:428-431). `process_stack` recomputes the whole
  mesh after each flip and at the end of each pass.
- The worklist is a fixed array of 100 entries. A push to a full array is
  dropped.
- A point found in no triangle is skipped, and the cursor still advances.

The flip does not keep the multiset union of the two triangles' vertices. The
two shared vertices (counted twice before) become the two formerly unshared
ones. What is kept is the set union, the four corners of the quadrilateral,
and that is what `Flip.SwapFlipsDiagonal` proves.

In `delaunay_step`, the pointer `tr` is taken before the two `da_append` calls
and read after them (delaunay.c:389, 418-426). The model reads those three
slots as the neighbour slots of the split triangle, which the split leaves
unchanged.

## Model

| member | source | states |
|---|---|---|
| `Worklist.Pushed` | delaunay.c:32-54 | one push leaves the contents unchanged or appends exactly the value; when each case happens is stated by `PushedKeepsWellFormed` |
| `Worklist.Stack.constructor` | delaunay.c:28-30 | the zero-initialised global: an array of 100 entries with stack pointer 0, so the worklist is empty and well formed |
| `Worklist.Stack.Push` | delaunay.c:32-54 | the worklist afterwards is the old one with the value appended, unless the value is -1, is already present or 100 entries are present; entries stay distinct, never -1, at most 100 |
| `Worklist.Stack.Pop` | delaunay.c:56-59 | returns the last entry and removes exactly that entry |
| `Worklist.PushedKeepsWellFormed` | delaunay.c:32-54 | a push keeps entries distinct, never -1 and within capacity; it only appends, adds at most one entry, and the value is present afterwards iff it was, or it is not -1 and there was room |
| `Worklist.PushAllThree` | delaunay.c:360-365 | bridge lemma: unrolls a run of three pushes into three single pushes, so that three `stack_push` calls can be matched against `PushAll` |
| `Worklist.PushAllConcat` | delaunay.c:421-426 | bridge lemma: two runs of pushes in a row are one run over the concatenated values |
| `Worklist.PushAllAppends` | delaunay.c:32-54 | a run of pushes only appends to the worklist |
| `Worklist.PushAllNonEmpty` | delaunay.c:421 | a run of pushes that starts with a value other than -1 leaves the worklist non-empty: the value is appended, was already there, or the array was full |
| `Worklist.PushAllKeepsWellFormed` | delaunay.c:421-426 | a run of pushes keeps the worklist well formed, only appends, adds at most one entry per value and nothing but the pushed values |
| `Adjacency.InCommon` | delaunay.c:154-178 | the number of a's vertex slots holding a vertex of b, at most 3 |
| `Adjacency.Has2PointsInCommon` | delaunay.c:154-178 | when the test holds the two triangles share a vertex and the first has a vertex outside the second, so no triangle passes it against a copy of itself |
| `Adjacency.InCommonIsSharedSize` | delaunay.c:154-178 | for a triangle with distinct vertices, the count of has_2_points_in_common is the size of the shared vertex set, so the test holds iff exactly two vertices are shared |
| `Adjacency.Has2PointsInCommonSymmetric` | delaunay.c:154-178 | for triangles with distinct vertices the test is symmetric |
| `Adjacency.AddNeighbour` | delaunay.c:131-152 | the value goes into the first -1 slot; every other slot is unchanged; with no -1 slot nothing changes |
| `Adjacency.AddNeighbourToPadded` | delaunay.c:205-208 | adding a found triangle to the padded list of the triangles found so far gives the padded list with it appended |
| `Adjacency.MatchesSpec` | delaunay.c:198-209 | the reference list holds exactly the indices t < k, t != i, sharing exactly two vertices with triangle i, strictly increasing |
| `Adjacency.NeighboursReadCornersOnly` | delaunay.c:190-214 | the recomputed slots depend only on the vertex indices of the triangles, not on their circles or slots |
| `Adjacency.NeighboursSound` | delaunay.c:190-214 | every filled slot holds another triangle's index sharing exactly two vertices; filled slots come before -1 slots |
| `Adjacency.NeighboursAreFirstMatches` | delaunay.c:198-209 | filled slots are increasing, and every sharing triangle with a smaller index than a recorded one is recorded earlier |
| `Adjacency.NeighboursComplete` | delaunay.c:190-214 | a sharing triangle that is not recorded has a larger index than three recorded ones, so with at most three all are recorded |
| `Adjacency.NeighboursSymmetric` | delaunay.c:190-214 | if a records b and b has a free slot then b records a |
| `Flip.CommonPoints` | delaunay.c:216-241 | both results are -1 or shared vertices |
| `Flip.CommonPointsOfEdge` | delaunay.c:216-241 | on a shared edge the two results are its two distinct endpoints, in the first triangle's slot order |
| `Flip.NotCommonPoint` | delaunay.c:243-261 | the result is the first vertex of t2 in slot order that is not a vertex of t1; with non-negative vertices it is -1 iff every vertex of t2 is a vertex of t1 |
| `Flip.ReplacePoint` | delaunay.c:263-282 | only the first slot equal to `from` becomes `to`; nothing changes when `from` is absent; circle and slots untouched |
| `Flip.ReplaceByNewVertex` | delaunay.c:263-282 | replacing a vertex by a new index keeps the vertices distinct and swaps one element of the vertex set |
| `Flip.SwapTriangles` | delaunay.c:284-299 | only vertex slots change; circles and neighbour slots of both triangles are kept; each new vertex is a vertex of the pair or -1 |
| `Flip.SwapFlipsDiagonal` | delaunay.c:284-299 | for two triangles with distinct vertices sharing an edge, both results have distinct vertices, the set union is unchanged, and they share exactly the two formerly unshared vertices |
| `Engine.SwapKeepsTrianglesProper` | delaunay.c:328-348 | once process_stack has found an opposite vertex, the flip keeps both triangles' vertices distinct and within the vertex bound, and keeps their slots |
| `Engine.SubsetOfTriangle` | delaunay.c:243-261 | for two triangles with distinct vertices, one vertex set inside the other means the sets are equal, so an opposite vertex exists in both directions or in neither |
| `Engine.ReplaceByOpposite` | delaunay.c:263-299 | replacing a vertex of a triangle by its opposite vertex in the other triangle keeps its vertices distinct and within the vertex bound |
| `Engine.Delaunay.Init` | delaunay.c:75-123 | points are the three super-triangle points followed by the input; one triangle (0,1,2) with its circle and no neighbours; cursor 3; the mesh invariant holds |
| `Engine.Delaunay.CalculateNeighbours` | delaunay.c:190-214 | only triangle i changes, and only its slots, which become the reference `Neighbours` value |
| `Engine.Delaunay.CalculateCircle` | delaunay.c:180-188 | only triangle i's circle changes, to the geometry's circle through its three points |
| `Engine.Delaunay.RefreshAll` | delaunay.c:355-359 | every triangle keeps its vertices and gets the recomputed slots and circle; on a mesh that is already up to date it changes nothing |
| `Engine.Delaunay.Locate` | delaunay.c:386-395 | returns the first triangle in storage order containing the pending point, or -1 when none does |
| `Engine.Delaunay.SwapTrianglesAt` | delaunay.c:284-299 | the two stored triangles become the two results of swap_triangles and the mesh stays well formed |
| `Engine.Delaunay.PushThree` | delaunay.c:360-365 | the worklist becomes the three successive pushes of the given values and stays a list of triangle indices |
| `Engine.FreshSlotHasOpposite` | delaunay.c:326-333 | a triangle whose slots are up to date has, across each recorded edge, a neighbour vertex outside itself, so the error exit is never taken for it |
| `Engine.Delaunay.ScanSlots` | delaunay.c:317-338 | returns the first slot of the popped triangle that is neither -1 nor a neighbour whose opposite vertex fails `point_in_circle` against the popped triangle's circle, or 3; every earlier slot is one of those two |
| `Engine.Delaunay.FlipPair` | delaunay.c:348-359 | the pair is swapped, then every triangle gets its recomputed slots and circle; the mesh stays well formed |
| `Engine.Delaunay.FlipAndRequeue` | delaunay.c:340-366 | the pair is flipped, every triangle is recomputed, and the worklist becomes the pushes of the popped triangle's new slots followed by the pushes of the neighbour's new slots |
| `Engine.Swapped` | delaunay.c:348 | the mesh with the two stored triangles replaced by the two results of swap_triangles; every other triangle and the length unchanged |
| `Engine.Delaunay.FlipThenRefresh` | delaunay.c:340-373 | `FlipOutcome`: the corners are those of the swapped pair, every triangle is up to date, and the worklist is the pushes of the popped triangle's new slots followed by the neighbour's, since the closing recomputation changes nothing more |
| `Engine.Delaunay.ProcessPopped` | delaunay.c:317-375 | `PassFrom`: after the pop, a false result means nothing changed and the first slot not passed over had no opposite vertex; with no flip every slot was passed over, the corners are kept and the worklist is untouched; a flip is recorded at the first slot whose opposite vertex is in the circle, with the swapped corners and the pushes of both new slot triples; with up-to-date slots it never returns false |
| `Engine.Delaunay.ProcessStack` | delaunay.c:302-376 | `Pass`: returns false with nothing changed on an empty worklist. Otherwise it pops the top entry p. With no flip, the worklist is exactly the remaining entries, and every slot of p was -1 or had its opposite vertex outside p's circle. A false result means the first undecided slot had no opposite vertex. A flip happens at the first slot whose opposite vertex is in p's circle, after which the worklist is the remaining entries plus the pushes of p's and the neighbour's new slots. With an up-to-date worklist it returns false iff the worklist was empty, and a flipped pair shares an edge. Triangle count unchanged |
| `Engine.PopThenPass` | delaunay.c:302-312 | a call on a non-empty worklist is the pop of its top entry followed by the rest of process_stack on the remaining entries |
| `Engine.SplitMesh` | delaunay.c:401-419 | t becomes (i1,p,i3) with its own slots, (i1,i2,p) and (i2,i3,p) are appended with no neighbours, each of the three has the geometry's circle through its corners, and all other triangles are unchanged |
| `Engine.Delaunay.Split` | delaunay.c:401-419 | the mesh becomes `SplitMesh` of the old one, and stays well formed with vertices below the cursor plus one |
| `Engine.Delaunay.RecomputeWorklist` | delaunay.c:428-431 | each worklist entry gets its recomputed slots; every other triangle, and every circle and vertex, is unchanged |
| `Engine.Delaunay.Drain` | delaunay.c:433 | calls process_stack until it returns false, at most `rounds` times, and returns the number of calls with a ghost trace of the states between them: `Chain` says each call is a `Pass` from one state to the next, every call but the last returned true, and the last returned false iff it stopped early; stopping early means the worklist is empty; on an empty worklist one call ends it with nothing changed; on a non-empty up-to-date worklist, after at least one call every triangle's slots and circle are up to date |
| `Engine.ChainExtend` | delaunay.c:433 | one more call of process_stack after a run of calls that all returned true extends the run |
| `Engine.ChainEndsUpToDate` | delaunay.c:433 | after a run of calls whose first returned true, every triangle's slots and circle are up to date, since a call returning true refreshes all of them and one returning false changes none |
| `Engine.Delaunay.Seed` | delaunay.c:421-431 | the worklist becomes the pushes of t, the two newest triangles and t's slots, in that order; `Recomputed`: each entry gets its recomputed slots and every other triangle, every circle and every vertex is unchanged; the worklist is non-empty |
| `Engine.Delaunay.PushSeeds` | delaunay.c:421-426 | the worklist becomes the pushes of t, the last triangle, the one before it, and t's three slots, in that order, so it is non-empty |
| `Engine.Delaunay.SplitAndSeed` | delaunay.c:396-431 | `Seeded`: the worklist is the six pushes, and the mesh is `SplitMesh` of the old one with the slots of exactly the worklist entries recomputed, so triangles off the worklist keep their slots and every triangle keeps the circle the split gave it; t becomes (i1,p,i3), and (i1,i2,p), (i2,i3,p) are appended; the worklist is non-empty |
| `Engine.Delaunay.SplitAndLegalise` | delaunay.c:396-434 | the triangle count grows by exactly two and the invariants hold, with vertices below the cursor plus one; with at least one flip pass allowed, every triangle's neighbour slots and circle are up to date afterwards, as the next step's seeding at delaunay.c:424-426 relies on |
| `Engine.Delaunay.Step` | delaunay.c:378-446 | does nothing when no point is pending (mesh, worklist and cursor unchanged); otherwise the cursor advances by one and the outcome is a miss or a hit, never "no steps left"; on a miss the mesh and the worklist are unchanged and no triangle contains the point; on a hit in the first containing triangle the count grows by two and the invariants, including the 1 + 2k count law, hold, and with `rounds > 0` every triangle's neighbour slots and circle are up to date |

## Left out

- Floating-point geometry (`point_in_triangle`, `point_in_circle`, `linear_eq`, `perp_line`, `crossing_point`, `points_lerp`, `circle_from_triangle`, `distance`) is a parameter of type `Geometry`. Coordinates are `real` and never inspected. The empty-circumcircle and coverage properties depend on the geometry and are not stated.
- The presort (`qsort` with `sort_by_region` and `block_index`) is not modelled. `Engine.Delaunay.Init` receives the points already in insertion order.
- `da_append` growth and `delaunay_free` are not modelled: the dynamic arrays are sequences that grow by appending, and freeing is a no-op.
- All `printf` diagnostics and `stack_print` are left out. Only their control-flow effect is kept, such as the early `return false` of `process_stack`.
- main.c (window, input, drawing, random points) is not part of this model.
- The global `stack` is a `Worklist.Stack` object passed to the engine. Like the global, it is not reset between meshes.
- Engine.Delaunay.Step: `while (process_stack(delaunay));` is bounded by a `rounds` parameter. Its termination depends on the geometry, so it cannot be proved for an arbitrary one. `Engine.Delaunay.Drain` states each call it makes as a `Pass`, so up to `rounds` calls the model follows the unbounded loop call by call.
- Engine.Delaunay.SplitAndLegalise: states the triangle count, the invariants and that every triangle is up to date after the flip passes, but not which triangles the split, the seeding and the flips produce. `Seeded` (from `Engine.Delaunay.SplitAndSeed`) and the trace of `Engine.Delaunay.Drain` state those, in terms of `point_in_circle`, but neither is passed on, because carrying them through this method runs over the verifier's resource limit.
- Engine.Delaunay.Step: for the same reason, does not state which triangles the split and the flip passes produce, only their count, the invariants and that every triangle is up to date.
- Adjacency.NeighboursSymmetric: only the conditional form (b records a when b has a free slot) is stated. Unconditional symmetry needs every triangle to have at most three edge-sharing triangles, which holds only for a proper triangulation. With an arbitrary `point_in_circle` the mesh need not stay one: splitting (0,1,2) by point 3 and then flipping (0,3,2) with (0,1,3) leaves the edge {1,2} in three triangles. When a triangle has four edge-sharing triangles, add_neightbour drops the fourth, which can still record it.
- Engine.Delaunay.ProcessStack: takes a ghost `bound` for the vertex indices, because inside a step the new point equals the cursor until the cursor advances.
- C `int` width is not modelled. Indices are unbounded integers, since no index reaches the 32-bit range.
- The use-after-reallocation of `tr` in `delaunay_step` (delaunay.c:389, 418-426) is not modelled: memory addresses are not part of the model.
