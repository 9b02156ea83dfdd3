# Water mesh growth, modelled in Dafny

`Test.py` is a Blender script that grows a "water" mesh from the selected vertices of a source
mesh. It offsets each admitted vertex along its normal, joins admitted vertices with edges, and
copies over every source polygon whose vertices were all admitted. With the host calls stripped
away, what remains is a graph algorithm over integer data:

- **Seeding.** Every selected vertex, in source order, gets an output vertex and a `vertex_map`
  entry, and is pushed on the `process` stack with its own output vertex as anchor.
- **Depth-first walk.** Pop an entry, mark its vertex visited and enumerate its neighbours from the
  edge list.
  - An unprocessed neighbour that faces upward is admitted: it gets an output vertex, a map entry
    and a stack entry, plus an edge from the anchor when there is one.
  - Any other unprocessed neighbour is pushed with anchor `-1`.
  - A processed neighbour that is mapped gets a cycle-closing edge back to the anchor, unless that
    unordered pair is already an edge.
- **Face closure.** For each key of `vertex_map` in insertion order, and each source polygon
  containing it, a polygon whose vertices are all mapped is translated into the output.

The model represents the source mesh as `MeshModel.SourceMesh`. It has the per-vertex flags
`selected` and `upward`, the edge list and the polygons. `upward[v]` stands for "the normal of `v`
has a positive dot product with the vertical axis". An output vertex is named by the source vertex
it was offset from.

The dict `vertex_map` is `MeshModel.Dict`: its entries plus its keys in insertion order, which is
the order `keys()` yields them and so the order of the output faces.

Modules:
- `MeshModel`: the data.
- `Scans`: the linear-scan helpers, as pure functions.
- `Traversal`: the seeding and walk loops as methods, each proved against the step functions
  `Visit`, `VisitAll` and `Step`.
- `Reach`: which vertices the walk reaches.
- `Faces`: the face loop as a method, proved against the spec function `EmittedPolys`.
- `Water`: one object's whole pass.
- `Examples`: a concrete run.

Two behaviours of the code are modelled as written and stated as lemmas.

- **`is_processed` never recognises a pending vertex.** It compares the bare index with the tuples
  on the stack (Test.py:131-133), and a tuple never equals an int. So a neighbour that is queued
  but not yet visited is queued again.
  - If it faces upward, it is admitted again: it gets a second output vertex, and its map entry is
    overwritten. The first output vertex becomes an orphan that no key maps to, although edges
    may still end at it.
  - The same holds for seeds.
  - A vertex can therefore be popped, and expanded, more than once.
  - `Traversal.PendingVertexReadmitted` states this in general. `Examples.TwoSeedsLeaveOrphan`
    exhibits it on two selected vertices joined by one edge.
- **`old_poly_index_processed` is never appended to** (Test.py:79, 84). A fully mapped polygon is
  therefore emitted once per distinct vertex it has (`Faces.FaceMultiplicity`).

The code's own names suggest more than it does, and the model follows the code. `is_processed`
scans the `process` stack (Test.py:131-133), as if queued vertices counted as processed, and
`old_poly_index_processed` (Test.py:79, 84) reads as a record of emitted polygons. A reader would
therefore expect three things that do not hold:
- that every edge endpoint is the image of some key;
- that the map is a bijection onto a prefix of the output vertices;
- that each qualifying polygon is emitted exactly once.

What the model does prove:
- Every edge endpoint is a valid output vertex and never the `-1` sentinel.
- Every edge joins the output vertices of two source vertices that an edge of the source mesh joins.
- No two edges join the same unordered pair.
- Every key maps to an output vertex made from that key, so distinct keys have distinct outputs.

Because `is_processed` only reports visited vertices, the `is_visited` test on line 72 always
holds where it is evaluated.

## Model

| member | source | states |
|---|---|---|
| MeshModel.Dict.Put | Test.py:62 | `d[k] = v`: the entries gain or overwrite `k`, and a new key goes to the end of the insertion order while an existing key keeps its place; distinct, consistent key order is preserved |
| Scans.Contains | Test.py:103-119 | the three membership scans (`poly_contains_vert_index`, `index_processed`, `is_visited`) return true exactly when the item occurs in the list |
| Scans.Boxed | Test.py:131-133 | the stack as Python sees it holds no bare int, only tuples, and reading each tuple back gives the entry it came from; this is why the comparison with a bare index on line 132 never matches |
| Scans.IsProcessed | Test.py:127-134 | `is_processed` is true exactly when the index is in `visited`; a queued-but-unvisited index is never reported |
| Scans.InEdges | Test.py:121-125 | `in_edges` is true exactly when some edge has both endpoints in `{index1, index2}` |
| Scans.InEdgesUnordered | Test.py:121-125 | `in_edges` is symmetric in its two indices, finds every edge on the same unordered pair, and when false no edge joins that pair |
| Scans.SelectedVerts | Test.py:136-141 | `get_selected_verts` holds exactly the selected vertex indices |
| Scans.SelectedVertsIncreasing | Test.py:136-141 | `get_selected_verts` lists them in source order: its indices strictly increase, so none repeats |
| Scans.ConnectedVerts | Test.py:147-159 | `get_connected_verts(v)` holds exactly the vertices joined to `v` by some edge |
| Scans.ConnectedVertsConcat | Test.py:149-153 | the enumeration follows the edge list: the neighbours from two runs of edges are those of the first run followed by those of the second |
| Scans.ConnectedVertsSingle | Test.py:150-153 | one edge contributes its far end for each end equal to `v`, first end first, so a loop edge on `v` yields `v` twice |
| Scans.Translate | Test.py:97-101 | `create_new_polygon` has the polygon's length and its i-th index is the map's value for the polygon's i-th vertex |
| Traversal.Visit | Test.py:55-76 | one neighbour: `visited` unchanged; an unvisited neighbour is pushed, anchored at a fresh output vertex exactly when it faces upward, and only then mapped; a visited one leaves stack, vertices and map alone; edges grow by at most one, and only with an anchor |
| Traversal.VisitEdges | Test.py:64-76 | the only edges added are anchor-to-fresh-vertex for an admitted neighbour, and mapped-vertex-to-anchor for a visited neighbour whose pair `in_edges` does not find |
| Traversal.PendingVertexReadmitted | Test.py:56-63 | a queued but unvisited neighbour is queued again; if it faces upward it gets a new output vertex, its key now maps there, and its previous output vertex is no longer the value of any key |
| Traversal.VisitAll | Test.py:54-76 | the neighbour loop, as the fold of `Visit` over the neighbours in order; `visited` is unchanged, and each neighbour pushes at most one entry and adds at most one output vertex and one edge |
| Traversal.NeighboursInRange | Test.py:53-54 | every neighbour the walk enumerates is a vertex of the mesh |
| Traversal.NeighboursAdjacent | Test.py:147-159 | every neighbour the walk enumerates is joined to the popped vertex by a mesh edge |
| Traversal.Step | Test.py:50-76 | one iteration of the `while` loop: the popped vertex joins `visited`, and the stack loses its top and gains at most one entry per neighbour |
| Traversal.AdmitKeepsMap | Test.py:59-62 | mapping a key to a freshly appended output vertex made from it keeps the map valid and every value an output vertex made from its key |
| Traversal.AdmitKeepsStack | Test.py:59-63 | appending an output vertex and pushing an entry anchored at it, or at `-1`, keeps every entry anchored |
| Traversal.AdmitKeepsEdges | Test.py:64-65 | the edge from a valid anchor to the fresh vertex joins valid vertices and duplicates no pair, since no earlier edge touches the fresh vertex |
| Traversal.AdmitFollowsMesh | Test.py:59-65 | the edge from the anchor to the fresh output vertex of a neighbour of the anchor's source vertex joins the outputs of two adjacent source vertices, and earlier edges keep that property |
| Traversal.RevisitFollowsMesh | Test.py:69-76 | the cycle-closing edge joins the outputs of two adjacent source vertices |
| Traversal.AdmitKeepsOutput | Test.py:56-65 | admitting an unvisited upward neighbour of the anchor's source vertex keeps the output well formed (including every edge following a mesh edge) and gated |
| Traversal.RevisitKeepsOutput | Test.py:69-76 | meeting a visited neighbour keeps the output well formed and gated; the cycle-closing edge never duplicates a pair and follows a mesh edge |
| Traversal.VisitKeepsOutput | Test.py:56-76 | one neighbour keeps the output well formed (valid map into the output vertices, valid anchors, edge endpoints valid, no two edges on the same pair, every edge joining the outputs of two adjacent source vertices) and gated (seeds first, every later output vertex upward) |
| Traversal.VisitAllKeepsOutput | Test.py:54-76 | the whole neighbour loop keeps the output well formed and gated |
| Traversal.VisitAllGrows | Test.py:54-76 | the neighbour loop leaves `visited` alone and only appends to the stack, the output vertices and the map's keys |
| Traversal.VisitAllPushes | Test.py:54-67 | every entry pushed is an unvisited neighbour; every neighbour ends visited or pushed; if all were visited nothing is pushed |
| Traversal.VisitAllMaps | Test.py:59-63 | every new key belongs to a pushed entry, and every pushed upward vertex is mapped |
| Traversal.StepPopsStack | Test.py:49-67 | one iteration appends the popped vertex to `visited`, keeps the entries below it, pushes only unvisited neighbours of it, leaves every neighbour visited or pushed, and pushes nothing when all are visited |
| Traversal.StepPopsKeys | Test.py:59-63 | one iteration only adds keys, each new key is pushed, and every pushed upward vertex is mapped |
| Traversal.StepPops | Test.py:49-76 | one iteration appends the popped vertex to `visited`, keeps the entries below it, pushes only unvisited neighbours of it, and pushes nothing when all its neighbours are visited |
| Traversal.StackPrefix | Test.py:50 | dropping entries from the top of the stack keeps the rest anchored |
| Traversal.PopKeepsOutput | Test.py:50-51 | popping the top entry and marking its vertex visited keeps the output well formed and gated, and the popped entry is anchored at `-1` or at an output vertex made from its own vertex |
| Traversal.ExpandKeepsOutput | Test.py:53-76 | the neighbour loop of a vertex, anchored at `-1` or at an output vertex made from that vertex, keeps the output well formed and gated |
| Traversal.StepKeepsOutput | Test.py:49-76 | one iteration keeps the output well formed and gated |
| Traversal.PendingSurvives | Test.py:50-51 | a vertex queued before an iteration is afterwards visited or still queued at the same place |
| Traversal.StepKeepsDiscipline | Test.py:49-67 | one iteration keeps the stack discipline: an entry whose vertex is visited has every neighbour visited or queued above it |
| Traversal.StepKeepsClosed | Test.py:49-67 | one iteration keeps every neighbour of a visited vertex visited or queued |
| Traversal.StepKeepsAdmission | Test.py:56-67 | one iteration keeps the admission gate: seeds stay mapped; every key is visited or queued; every upward vertex that is visited or queued is mapped |
| Traversal.StepKeepsDiscovered | Test.py:50-67 | one iteration keeps every visited vertex a seed or a neighbour of an earlier visited vertex |
| Traversal.StepMeasure | Test.py:49-51 | each iteration shrinks the set of unvisited vertices, or keeps it and shrinks the stack: the walk terminates |
| Traversal.StepKeepsFrontier | Test.py:49-67 | one iteration keeps the stack discipline, closure, the admission gate and discovery, and every visited vertex stays a mesh vertex |
| Traversal.StepKeepsInvariant | Test.py:49-76 | one iteration keeps the whole loop invariant and lowers the termination measure |
| Traversal.SeedMapStep | Test.py:44-47 | seeding the next selected vertex adds a new key at the end of the dict order, mapped to its position |
| Traversal.SeedFrontier | Test.py:43-47 | seeding: the output vertices are the selected vertices in source order, the k-th is pushed with anchor k, maps to k, and the keys are in the same order |
| Traversal.VisitNeighbour | Test.py:55-76 | the body of the neighbour loop computes `Visit` |
| Traversal.ExpandNeighbours | Test.py:54-76 | the neighbour loop computes `VisitAll`, the fold of `Visit` over the neighbours |
| Traversal.PopAndExpand | Test.py:50-76 | one iteration of the `while` loop computes `Step` |
| Traversal.Traverse | Test.py:43-76 | the walk ends with an empty stack and well-formed, gated output; every edge joins the output vertices of two source vertices joined by a mesh edge; every seed is visited; the visited vertices are closed under adjacency; a vertex is mapped exactly when visited and selected or upward |
| Traversal.SeededInvariant | Test.py:43-47 | the seeded state satisfies the loop invariant |
| Traversal.SeededOutput | Test.py:43-47 | the seeded state is well formed and gated |
| Traversal.SeededMap | Test.py:44-47 | after seeding every key maps to the output vertex made from it |
| Traversal.SeededBounds | Test.py:44-46 | after seeding every output vertex and stack entry names a mesh vertex and each entry is anchored at its own output vertex |
| Traversal.SeedsQueued | Test.py:43-46 | after seeding every seed is queued |
| Traversal.SeededAreSeeds | Test.py:43-47 | after seeding every queued vertex and every key is a seed |
| Traversal.SeededAdmission | Test.py:43-47 | after seeding every seed is mapped and queued, and every key and every queued vertex is a seed |
| Traversal.Finished | Test.py:49-76 | with the stack empty, a vertex is mapped exactly when it was visited and is selected or upward, and the visited set is closed under adjacency |
| Reach.ClosedHoldsReachable | Test.py:49-67 | a set holding the seeds and closed under adjacency holds every vertex reachable from a seed |
| Reach.DiscoveredIsReachable | Test.py:49-67 | a vertex visited after a seed or a neighbour of an earlier one is reachable from a seed |
| Reach.VisitedIsReachable | Test.py:49-76 | the walk visits exactly the vertices reachable from a selected vertex |
| Faces.MatchingPolys | Test.py:81-86 | the polygon indices one key's pass emits, in order: at most one per polygon scanned, each among the polygons scanned |
| Faces.EmittedPolys | Test.py:80-86 | the polygon indices the whole face loop emits, the keys' passes in dict order; each is a polygon of the mesh |
| Faces.MatchingPolysSound | Test.py:81-86 | for one key, every emitted polygon index is among the polygons scanned, contains the key and is fully mapped |
| Faces.EmittedPolysSound | Test.py:80-86 | over all keys, every emitted polygon index is a polygon of the mesh and fully mapped |
| Faces.CloseFaces | Test.py:78-86 | the face loop emits, in order, the translation of every polygon index `EmittedPolys` lists, one face per index |
| Faces.MatchingCount | Test.py:81-86 | within one key's pass a polygon is emitted once if it contains the key and is fully mapped, otherwise not at all |
| Faces.EmittedCount | Test.py:80-86 | over distinct keys a polygon is emitted once per key whose pass it qualifies in |
| Faces.FaceMultiplicity | Test.py:79-86 | a fully mapped polygon is emitted once per distinct vertex it has; a polygon with an unmapped vertex never is |
| Faces.FaceEmitted | Test.py:80-86 | every non-empty fully mapped polygon is emitted |
| Faces.FacesRoundTrip | Test.py:97-101 | each index in an output face is an output vertex made from the source vertex at the same position of its polygon |
| Water.GrowWater | Test.py:29-86 | an object with no selected vertex is skipped. Otherwise: seeds come first in source order, and later output vertices face upward. The map is valid and injective. The keys are exactly the reachable vertices that are selected or upward. Edge endpoints are valid, with no duplicate pairs, and every edge joins the output vertices of two source vertices that a mesh edge joins. Faces are the translated emitted polygons, refer back to their source vertices, and have the stated multiplicity |
| Examples.ExampleScans | Test.py:136-159 | on the two-vertex mesh the seeds are `[0, 1]` and each vertex's only neighbour is the other |
| Examples.ExampleSeeded | Test.py:43-47 | seeding the two-vertex mesh gives output vertices `[0, 1]`, stack `[(0,0), (1,1)]` and map `{0: 0, 1: 1}` |
| Examples.ExamplePop1 | Test.py:49-54 | the first iteration pops seed 1, marks it visited and visits its only neighbour 0 with anchor 1 |
| Examples.ExamplePop2 | Test.py:49-54 | the second iteration pops the re-pushed 0 and visits its only neighbour 1 with anchor 2 |
| Examples.ExamplePop3 | Test.py:49-54 | the third iteration pops seed 0's original entry and visits its only neighbour 1 with the stale anchor 0 |
| Examples.ExampleFirstPop | Test.py:56-65 | visiting 0 after popping seed 1 re-admits the pending seed 0 as output vertex 2, moves its key to 2 and adds edge `(1, 2)` |
| Examples.ExampleSecondPop | Test.py:69-76 | visiting 1 after popping the re-pushed 0 adds nothing, since `(2, 1)` is already an edge |
| Examples.ExampleThirdPop | Test.py:69-76 | visiting 1 after popping the original entry of 0 adds edge `(1, 0)` from the stale anchor |
| Examples.TwoSeedsLeaveOrphan | Test.py:43-76 | seeding and three iterations produce the listed states; the run ends with an empty stack, output vertex 0 the value of no key, an edge ending at it, and source vertex 0 owning two output vertices |

## Left out

- Blender object and mesh plumbing is host I/O: creating the output mesh and object (Test.py:23-24), iterating scenes and objects (Test.py:25-26), the mesh-type test (Test.py:29), setting the location (Test.py:30) and linking to the collection (Test.py:95). One source mesh is a parameter of `Water.GrowWater`.
- The bmesh copy and the BVH tree (Test.py:32-35): they are built but never queried.
- Edit-mode toggles (Test.py:37, 93) and the `select = True` write-back on each neighbour (Test.py:55) are UI side effects that do not change the output.
- `translate_z` and the dot product with the vertical axis (Test.py:57-58, 143-145) are floating-point vector arithmetic. They are replaced by the per-vertex `upward` flag, and an output vertex is named by the source vertex it was offset from.
- `from_pydata` and `calc_normals` (Test.py:88-89) are library mesh construction and float normal recomputation. `Water.GrowWater` returns the vertex, edge and face lists that would be handed to them.
- Sharing one output mesh across several source objects (Test.py:23, 88) is host-level behaviour; one invocation is modelled.
- `get_connected_verts` returns vertex objects. The model returns their indices, which is all the walk uses apart from the normal.
- The linear-scan helpers are written as recursive functions rather than `for` loops. Each returns the value its loop returns, and none of them changes state.
