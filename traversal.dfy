/** Seeding and the depth-first traversal of the generator (`main`, lines 43-76 of Test.py). */
module Traversal {
  import opened MeshModel
  import opened Scans

  /** The local variables of one run: `visited`, the `process` stack (top at the end), `new_verts`
      (each output vertex named by the source vertex it is offset from), `new_edges` and `vertex_map`. */
  datatype Walk = Walk(
    visited: seq<nat>,
    process: seq<WorkItem>,
    verts: seq<nat>,
    edges: seq<(int, int)>,
    vmap: Dict)

  /** The seed vertices, in source order. */
  function Seeds(mesh: SourceMesh): seq<nat> {
    SelectedVerts(mesh.selected)
  }

  /** `m` is queued at some position `lo` or above. */
  ghost predicate PendingFrom(process: seq<WorkItem>, m: nat, lo: nat) {
    exists j :: lo <= j < |process| && process[j].0 == m
  }

  // ---------------------------------------------------------------------------------------------
  // One neighbour (lines 55-76), and all neighbours of one popped vertex (the `for` of line 54)
  // ---------------------------------------------------------------------------------------------

  /** The body of the neighbour loop for neighbour `m` of a vertex popped with anchor `b`. Because
      `is_processed` only sees `visited`, a neighbour that is merely pending is queued again, and an
      upward one is given a fresh output vertex again. */
  function Visit(mesh: SourceMesh, w: Walk, b: int, m: nat): (w': Walk)
    requires m < |mesh.upward|
    ensures w'.visited == w.visited
    ensures w'.process == if m in w.visited then w.process
                          else w.process + [(m, if mesh.upward[m] then |w.verts| else NoAnchor)]
    ensures w'.verts == if m !in w.visited && mesh.upward[m] then w.verts + [m] else w.verts
    ensures w'.vmap == if m !in w.visited && mesh.upward[m] then w.vmap.Put(m, |w.verts|) else w.vmap
    ensures w'.edges == w.edges || (b > NoAnchor && |w'.edges| == |w.edges| + 1 && w'.edges[..|w.edges|] == w.edges)
  {
    if !IsProcessed(w.visited, w.process, m) then
      if mesh.upward[m] then
        var newIndex := |w.verts|;
        w.(verts := w.verts + [m],
           vmap := w.vmap.Put(m, newIndex),
           process := w.process + [(m, newIndex)],
           edges := if b > NoAnchor then w.edges + [(b, newIndex)] else w.edges)
      else
        w.(process := w.process + [(m, NoAnchor)])
    else if m in w.vmap.entries then
      var target := w.vmap.entries[m];
      if Contains(w.visited, m) && b > NoAnchor && !InEdges(w.edges, target, b) then
        w.(edges := w.edges + [(target, b)])
      else
        w
    else
      w
  }

  /** The two places an edge is added: from the anchor to a freshly admitted neighbour, and, for a
      visited and mapped neighbour, from its output vertex back to the anchor when no edge joins
      that pair yet. Nothing else adds an edge, and neither happens without an anchor. */
  lemma VisitEdges(mesh: SourceMesh, w: Walk, b: int, m: nat)
    requires m < |mesh.upward|
    ensures var w' := Visit(mesh, w, b, m);
      w'.edges ==
        if m !in w.visited && mesh.upward[m] && b > NoAnchor then w.edges + [(b, |w.verts|)]
        else if m in w.visited && m in w.vmap.entries && b > NoAnchor && !InEdges(w.edges, w.vmap.entries[m], b)
        then w.edges + [(w.vmap.entries[m], b)]
        else w.edges
  {
  }

  /** The pending-entry quirk: a neighbour that is queued but not yet visited is queued again, and
      if it faces upward it is admitted again: it gets another output vertex, its map entry is
      overwritten, and the output vertex it had before is left as an orphan that no key maps to. */
  lemma PendingVertexReadmitted(mesh: SourceMesh, w: Walk, b: int, m: nat)
    requires OutputOk(mesh, w) && m < |mesh.selected|
    requires m !in w.visited && PendingFrom(w.process, m, 0)
    ensures |Visit(mesh, w, b, m).process| == |w.process| + 1
    ensures mesh.upward[m] ==>
      && |Visit(mesh, w, b, m).verts| == |w.verts| + 1
      && Visit(mesh, w, b, m).vmap.entries[m] == |w.verts|
    ensures mesh.upward[m] && m in w.vmap.entries ==>
      forall k :: k in Visit(mesh, w, b, m).vmap.entries ==> Visit(mesh, w, b, m).vmap.entries[k] != w.vmap.entries[m]
  {
    var w' := Visit(mesh, w, b, m);
    if mesh.upward[m] && m in w.vmap.entries {
      forall k | k in w'.vmap.entries ensures w'.vmap.entries[k] != w.vmap.entries[m] {
        if k != m {
          assert w'.vmap.entries[k] == w.vmap.entries[k];
          assert w.verts[w.vmap.entries[k]] == k && w.verts[w.vmap.entries[m]] == m;
        }
      }
    }
  }

  /** The neighbour loop: `Visit` applied to each neighbour in turn. Each neighbour pushes at most
      one entry and adds at most one output vertex and one edge. */
  function VisitAll(mesh: SourceMesh, w: Walk, b: int, nbrs: seq<nat>): (r: Walk)
    requires forall k :: 0 <= k < |nbrs| ==> nbrs[k] < |mesh.upward|
    ensures r.visited == w.visited
    ensures |w.process| <= |r.process| <= |w.process| + |nbrs|
    ensures |w.verts| <= |r.verts| <= |w.verts| + |nbrs|
    ensures |w.edges| <= |r.edges| <= |w.edges| + |nbrs|
    decreases |nbrs|
  {
    if nbrs == [] then w else VisitAll(mesh, Visit(mesh, w, b, nbrs[0]), b, nbrs[1..])
  }

  /** Every neighbour of a vertex is a vertex of the mesh. */
  lemma NeighboursInRange(mesh: SourceMesh, v: nat)
    requires mesh.Valid()
    ensures forall k :: 0 <= k < |ConnectedVerts(mesh.edges, v)| ==> ConnectedVerts(mesh.edges, v)[k] < |mesh.selected|
  {
    var nbrs := ConnectedVerts(mesh.edges, v);
    forall k | 0 <= k < |nbrs| ensures nbrs[k] < |mesh.selected| {
      assert nbrs[k] in nbrs;
      assert Adjacent(mesh.edges, v, nbrs[k]);
    }
  }

  /** Every neighbour `get_connected_verts` enumerates is joined to the vertex by a mesh edge. */
  lemma NeighboursAdjacent(mesh: SourceMesh, v: nat)
    ensures forall k :: 0 <= k < |ConnectedVerts(mesh.edges, v)| ==> Adjacent(mesh.edges, v, ConnectedVerts(mesh.edges, v)[k])
  {
    var nbrs := ConnectedVerts(mesh.edges, v);
    forall k | 0 <= k < |nbrs| ensures Adjacent(mesh.edges, v, nbrs[k]) {
      assert nbrs[k] in nbrs;
    }
  }

  /** One iteration of the `while` loop: pop, mark visited, visit every neighbour. The popped
      vertex joins `visited`, and the stack loses its top and gains at most one entry per neighbour. */
  function Step(mesh: SourceMesh, w: Walk): (r: Walk)
    requires mesh.Valid() && |w.process| > 0 && w.process[|w.process| - 1].0 < |mesh.selected|
    ensures r.visited == w.visited + [w.process[|w.process| - 1].0]
    ensures |r.process| + 1 <= |w.process| + |ConnectedVerts(mesh.edges, w.process[|w.process| - 1].0)|
  {
    var top := w.process[|w.process| - 1];
    var popped := w.(process := w.process[..|w.process| - 1], visited := w.visited + [top.0]);
    NeighboursInRange(mesh, top.0);
    VisitAll(mesh, popped, top.1, ConnectedVerts(mesh.edges, top.0))
  }

  // ---------------------------------------------------------------------------------------------
  // Invariants
  // ---------------------------------------------------------------------------------------------

  /** The anchor of a queued entry is `-1` or the entry's own output vertex. */
  predicate Anchored(item: WorkItem, verts: seq<nat>) {
    item.1 == NoAnchor || (0 <= item.1 < |verts| && verts[item.1] == item.0)
  }

  /** Every output vertex names a vertex of the mesh. */
  ghost predicate VertsOk(verts: seq<nat>, n: nat) {
    forall i :: 0 <= i < |verts| ==> verts[i] < n
  }

  /** Every map value is an output vertex offset from its key, so distinct keys have distinct
      values. */
  ghost predicate MapOk(verts: seq<nat>, vmap: Dict) {
    && vmap.Valid()
    && forall k :: k in vmap.entries ==> vmap.entries[k] < |verts| && verts[vmap.entries[k]] == k
  }

  /** Every queued entry names a vertex of the mesh and is anchored. */
  ghost predicate StackOk(process: seq<WorkItem>, verts: seq<nat>, n: nat) {
    forall j :: 0 <= j < |process| ==> process[j].0 < n && Anchored(process[j], verts)
  }

  /** Every edge joins two of the first `count` output vertices, and no unordered pair is joined
      twice. */
  ghost predicate EdgesOk(edges: seq<(int, int)>, count: nat) {
    && (forall i :: 0 <= i < |edges| ==> 0 <= edges[i].0 < count && 0 <= edges[i].1 < count)
    && (forall i, j :: 0 <= i < j < |edges| ==> !SameEdge(edges[i], edges[j]))
  }

  /** Every edge joins the output vertices of two source vertices that an edge of the mesh joins. */
  ghost predicate EdgesFollowMesh(meshEdges: seq<(nat, nat)>, edges: seq<(int, int)>, verts: seq<nat>) {
    forall i :: 0 <= i < |edges| ==>
      && 0 <= edges[i].0 < |verts| && 0 <= edges[i].1 < |verts|
      && Adjacent(meshEdges, verts[edges[i].0], verts[edges[i].1])
  }

  /** The output built so far is well formed. */
  ghost predicate OutputOk(mesh: SourceMesh, w: Walk) {
    var n := |mesh.selected|;
    && |mesh.upward| == n
    && VertsOk(w.verts, n)
    && MapOk(w.verts, w.vmap)
    && StackOk(w.process, w.verts, n)
    && EdgesOk(w.edges, |w.verts|)
    && EdgesFollowMesh(mesh.edges, w.edges, w.verts)
  }

  /** The admission gate: the first output vertices are the seeds in source order, and every later
      one is offset from an upward-facing vertex. */
  ghost predicate Gated(mesh: SourceMesh, w: Walk) {
    var seeds := Seeds(mesh);
    && |seeds| <= |w.verts|
    && w.verts[..|seeds|] == seeds
    && (forall i :: |seeds| <= i < |w.verts| ==> w.verts[i] < |mesh.upward| && mesh.upward[w.verts[i]])
  }

  /** Why the loop ends: a queued entry whose vertex was already visited has every neighbour visited
      or queued above it, so popping it queues nothing. */
  ghost predicate Discipline(mesh: SourceMesh, w: Walk) {
    forall i, m :: 0 <= i < |w.process| && w.process[i].0 in w.visited && Adjacent(mesh.edges, w.process[i].0, m)
      ==> m in w.visited || PendingFrom(w.process, m, i + 1)
  }

  /** Every neighbour of a visited vertex is visited or queued. */
  ghost predicate Closed(mesh: SourceMesh, w: Walk) {
    forall c, m :: c in w.visited && Adjacent(mesh.edges, c, m) ==> m in w.visited || PendingFrom(w.process, m, 0)
  }

  /** Which vertices are mapped: every seed is, every mapped vertex is visited or queued, and every
      upward-facing vertex that is visited or queued is mapped. */
  ghost predicate Admission(mesh: SourceMesh, w: Walk) {
    && (forall s :: s in Seeds(mesh) ==> s in w.vmap.entries && (s in w.visited || PendingFrom(w.process, s, 0)))
    && (forall k :: k in w.vmap.entries ==> k in w.visited || PendingFrom(w.process, k, 0))
    && (forall v: nat :: v < |mesh.upward| && mesh.upward[v] && (v in w.visited || PendingFrom(w.process, v, 0))
          ==> v in w.vmap.entries)
  }

  /** Every visited or queued vertex is a seed or a neighbour of an earlier visited vertex. */
  ghost predicate Discovered(mesh: SourceMesh, w: Walk) {
    && (forall i :: 0 <= i < |w.visited| ==>
          w.visited[i] in Seeds(mesh) || exists j :: 0 <= j < i && Adjacent(mesh.edges, w.visited[j], w.visited[i]))
    && (forall k :: 0 <= k < |w.process| ==>
          w.process[k].0 in Seeds(mesh) || exists j :: 0 <= j < |w.visited| && Adjacent(mesh.edges, w.visited[j], w.process[k].0))
  }

  /** The loop invariant of the traversal. */
  ghost predicate Invariant(mesh: SourceMesh, w: Walk) {
    && mesh.Valid()
    && OutputOk(mesh, w)
    && Gated(mesh, w)
    && (forall i :: 0 <= i < |w.visited| ==> w.visited[i] < |mesh.selected|)
    && Discipline(mesh, w)
    && Closed(mesh, w)
    && Admission(mesh, w)
    && Discovered(mesh, w)
  }

  /** The vertices not visited yet: the first component of the loop's termination measure. */
  function Unvisited(n: nat, visited: seq<nat>): set<nat> {
    set v: nat | v < n && v !in visited
  }

  // ---------------------------------------------------------------------------------------------
  // Lemmas about one neighbour and about the neighbour loop
  // ---------------------------------------------------------------------------------------------

  /** Mapping a key to a freshly appended output vertex made from it keeps the map valid; the
      key's previous value, if any, is simply no longer used. */
  lemma AdmitKeepsMap(verts: seq<nat>, vmap: Dict, m: nat)
    requires MapOk(verts, vmap)
    ensures MapOk(verts + [m], vmap.Put(m, |verts|))
  {
    var verts' := verts + [m];
    var d := vmap.Put(m, |verts|);
    forall k | k in d.entries ensures d.entries[k] < |verts'| && verts'[d.entries[k]] == k {
      if k != m {
        assert verts'[vmap.entries[k]] == verts[vmap.entries[k]];
      }
    }
  }

  /** Appending an output vertex and pushing an anchored entry keeps the stack anchored. */
  lemma AdmitKeepsStack(process: seq<WorkItem>, verts: seq<nat>, n: nat, m: nat, anchor: int)
    requires StackOk(process, verts, n) && m < n
    requires anchor == NoAnchor || anchor == |verts|
    ensures StackOk(process + [(m, anchor)], verts + [m], n)
  {
    var verts' := verts + [m];
    forall j | 0 <= j < |process| ensures Anchored(process[j], verts') {
      if process[j].1 != NoAnchor {
        assert verts'[process[j].1] == verts[process[j].1];
      }
    }
  }

  /** An edge from a valid anchor to the freshly appended vertex `count` is new: no earlier edge
      touches `count`. */
  lemma AdmitKeepsEdges(edges: seq<(int, int)>, count: nat, b: int)
    requires EdgesOk(edges, count)
    requires b == NoAnchor || 0 <= b < count
    ensures EdgesOk(if b > NoAnchor then edges + [(b, count)] else edges, count + 1)
  {
    if b > NoAnchor {
      var edges' := edges + [(b, count)];
      forall i, j | 0 <= i < j < |edges'| ensures !SameEdge(edges'[i], edges'[j]) {
        if j == |edges| {
          assert edges'[j] == (b, count);
        }
      }
    }
  }

  /** The edge from the anchor to a fresh output vertex made from a neighbour of the anchor's source
      vertex follows a mesh edge, and appending the vertex leaves the earlier edges' ends alone. */
  lemma AdmitFollowsMesh(meshEdges: seq<(nat, nat)>, edges: seq<(int, int)>, verts: seq<nat>, m: nat, b: int)
    requires EdgesFollowMesh(meshEdges, edges, verts)
    requires b == NoAnchor || (0 <= b < |verts| && Adjacent(meshEdges, verts[b], m))
    ensures EdgesFollowMesh(meshEdges, if b > NoAnchor then edges + [(b, |verts|)] else edges, verts + [m])
  {
    var verts' := verts + [m];
    var edges' := if b > NoAnchor then edges + [(b, |verts|)] else edges;
    forall i | 0 <= i < |edges'|
      ensures 0 <= edges'[i].0 < |verts'| && 0 <= edges'[i].1 < |verts'|
      ensures Adjacent(meshEdges, verts'[edges'[i].0], verts'[edges'[i].1])
    {
      if i < |edges| {
        assert edges'[i] == edges[i];
        assert verts'[edges[i].0] == verts[edges[i].0] && verts'[edges[i].1] == verts[edges[i].1];
      } else {
        assert verts'[b] == verts[b] && verts'[|verts|] == m;
      }
    }
  }

  /** A cycle-closing edge between the output vertices of two adjacent source vertices follows a
      mesh edge. */
  lemma RevisitFollowsMesh(meshEdges: seq<(nat, nat)>, edges: seq<(int, int)>, verts: seq<nat>, t: nat, b: nat)
    requires EdgesFollowMesh(meshEdges, edges, verts)
    requires t < |verts| && b < |verts| && Adjacent(meshEdges, verts[b], verts[t])
    ensures EdgesFollowMesh(meshEdges, edges + [(t, b)], verts)
  {
    var i :| 0 <= i < |meshEdges| && ((meshEdges[i].0 == verts[b] && meshEdges[i].1 == verts[t]) ||
                                      (meshEdges[i].1 == verts[b] && meshEdges[i].0 == verts[t]));
    assert Adjacent(meshEdges, verts[t], verts[b]);
    var edges' := edges + [(t, b)];
    forall j | 0 <= j < |edges'|
      ensures 0 <= edges'[j].0 < |verts| && 0 <= edges'[j].1 < |verts|
      ensures Adjacent(meshEdges, verts[edges'[j].0], verts[edges'[j].1])
    {
      if j < |edges| {
        assert edges'[j] == edges[j];
      }
    }
  }

  /** Admitting an unvisited upward-facing neighbour keeps the output well formed and gated: its
      fresh vertex is appended after the seeds, and the edge from the anchor ends at that fresh
      vertex, which no earlier edge touches. */
  lemma AdmitKeepsOutput(mesh: SourceMesh, w: Walk, b: int, m: nat)
    requires OutputOk(mesh, w) && Gated(mesh, w) && m < |mesh.selected|
    requires m !in w.visited && mesh.upward[m]
    requires b == NoAnchor || (0 <= b < |w.verts| && Adjacent(mesh.edges, w.verts[b], m))
    ensures OutputOk(mesh, Visit(mesh, w, b, m)) && Gated(mesh, Visit(mesh, w, b, m))
  {
    var w' := Visit(mesh, w, b, m);
    var n := |mesh.selected|;
    assert w' == w.(verts := w.verts + [m], vmap := w.vmap.Put(m, |w.verts|),
                    process := w.process + [(m, |w.verts|)],
                    edges := if b > NoAnchor then w.edges + [(b, |w.verts|)] else w.edges);
    AdmitKeepsMap(w.verts, w.vmap, m);
    AdmitKeepsStack(w.process, w.verts, n, m, |w.verts|);
    AdmitKeepsEdges(w.edges, |w.verts|, b);
    AdmitFollowsMesh(mesh.edges, w.edges, w.verts, m, b);
    assert VertsOk(w'.verts, n);
    assert w'.verts[..|Seeds(mesh)|] == w.verts[..|Seeds(mesh)|];
  }

  /** Meeting a visited neighbour keeps the output well formed and gated: the cycle-closing edge
      is only added when `in_edges` finds no edge on the same pair. */
  lemma RevisitKeepsOutput(mesh: SourceMesh, w: Walk, b: int, m: nat)
    requires OutputOk(mesh, w) && Gated(mesh, w) && m < |mesh.selected|
    requires m in w.visited
    requires b == NoAnchor || (0 <= b < |w.verts| && Adjacent(mesh.edges, w.verts[b], m))
    ensures OutputOk(mesh, Visit(mesh, w, b, m)) && Gated(mesh, Visit(mesh, w, b, m))
  {
    if m in w.vmap.entries && b > NoAnchor && !InEdges(w.edges, w.vmap.entries[m], b) {
      InEdgesUnordered(w.edges, w.vmap.entries[m], b);
      RevisitFollowsMesh(mesh.edges, w.edges, w.verts, w.vmap.entries[m], b);
    }
  }

  /** Visiting one neighbour keeps the output well formed and gated. */
  lemma VisitKeepsOutput(mesh: SourceMesh, w: Walk, b: int, m: nat)
    requires OutputOk(mesh, w) && Gated(mesh, w) && m < |mesh.selected|
    requires b == NoAnchor || (0 <= b < |w.verts| && Adjacent(mesh.edges, w.verts[b], m))
    ensures OutputOk(mesh, Visit(mesh, w, b, m)) && Gated(mesh, Visit(mesh, w, b, m))
  {
    if m in w.visited {
      RevisitKeepsOutput(mesh, w, b, m);
    } else if mesh.upward[m] {
      AdmitKeepsOutput(mesh, w, b, m);
    }
  }

  /** The neighbour loop keeps the output well formed and gated. */
  lemma {:induction false} VisitAllKeepsOutput(mesh: SourceMesh, w: Walk, b: int, nbrs: seq<nat>)
    requires OutputOk(mesh, w) && Gated(mesh, w)
    requires forall k :: 0 <= k < |nbrs| ==> nbrs[k] < |mesh.selected|
    requires b == NoAnchor || (0 <= b < |w.verts| && forall k :: 0 <= k < |nbrs| ==> Adjacent(mesh.edges, w.verts[b], nbrs[k]))
    ensures OutputOk(mesh, VisitAll(mesh, w, b, nbrs)) && Gated(mesh, VisitAll(mesh, w, b, nbrs))
    decreases |nbrs|
  {
    if nbrs != [] {
      var w1 := Visit(mesh, w, b, nbrs[0]);
      VisitKeepsOutput(mesh, w, b, nbrs[0]);
      if b > NoAnchor {
        assert w1.verts[b] == w.verts[b];
        forall k | 0 <= k < |nbrs[1..]| ensures Adjacent(mesh.edges, w1.verts[b], nbrs[1..][k]) {
          assert nbrs[1..][k] == nbrs[k + 1];
        }
      }
      VisitAllKeepsOutput(mesh, w1, b, nbrs[1..]);
    }
  }

  /** The neighbour loop leaves `visited` alone and only appends: to the stack, to the output
      vertices, and to the keys of the map. */
  lemma {:induction false} VisitAllGrows(mesh: SourceMesh, w: Walk, b: int, nbrs: seq<nat>)
    requires forall k :: 0 <= k < |nbrs| ==> nbrs[k] < |mesh.upward|
    ensures var w' := VisitAll(mesh, w, b, nbrs);
      && w'.visited == w.visited
      && |w.process| <= |w'.process| && w'.process[..|w.process|] == w.process
      && |w.verts| <= |w'.verts| && w'.verts[..|w.verts|] == w.verts
      && (forall k :: k in w.vmap.entries ==> k in w'.vmap.entries)
    decreases |nbrs|
  {
    if nbrs != [] {
      var w1 := Visit(mesh, w, b, nbrs[0]);
      VisitAllGrows(mesh, w1, b, nbrs[1..]);
      var w' := VisitAll(mesh, w1, b, nbrs[1..]);
      assert w'.process[..|w.process|] == w'.process[..|w1.process|][..|w.process|];
      assert w'.verts[..|w.verts|] == w'.verts[..|w1.verts|][..|w.verts|];
    }
  }

  /** Every entry the neighbour loop pushes is an unvisited neighbour, and every neighbour ends up
      visited or pushed. A neighbour listed twice and not yet visited is pushed twice. */
  lemma {:induction false} VisitAllPushes(mesh: SourceMesh, w: Walk, b: int, nbrs: seq<nat>)
    requires forall k :: 0 <= k < |nbrs| ==> nbrs[k] < |mesh.upward|
    ensures var w' := VisitAll(mesh, w, b, nbrs);
      && (forall j :: |w.process| <= j < |w'.process| ==> w'.process[j].0 in nbrs && w'.process[j].0 !in w.visited)
      && (forall k :: 0 <= k < |nbrs| ==> nbrs[k] in w.visited || PendingFrom(w'.process, nbrs[k], |w.process|))
      && ((forall k :: 0 <= k < |nbrs| ==> nbrs[k] in w.visited) ==> w'.process == w.process)
    decreases |nbrs|
  {
    if nbrs != [] {
      var m := nbrs[0];
      var w1 := Visit(mesh, w, b, m);
      var rest := nbrs[1..];
      VisitAllPushes(mesh, w1, b, rest);
      VisitAllGrows(mesh, w1, b, rest);
      var w' := VisitAll(mesh, w1, b, rest);
      var p0, p1 := |w.process|, |w1.process|;
      if p1 > p0 {
        assert w'.process[p0] == w'.process[..p1][p0] == w1.process[p0];
      }
      forall j | p0 <= j < |w'.process| ensures w'.process[j].0 in nbrs && w'.process[j].0 !in w.visited {
        if j >= p1 {
          assert w'.process[j].0 in rest;
        } else {
          assert w'.process[j] == w'.process[..p1][j];
        }
      }
      forall k | 0 <= k < |nbrs| ensures nbrs[k] in w.visited || PendingFrom(w'.process, nbrs[k], p0) {
        if k > 0 {
          assert nbrs[k] == rest[k - 1];
        }
      }
    }
  }

  /** A key the neighbour loop adds belongs to a pushed entry, and every pushed upward-facing vertex
      is mapped afterwards. */
  lemma {:induction false} VisitAllMaps(mesh: SourceMesh, w: Walk, b: int, nbrs: seq<nat>)
    requires forall k :: 0 <= k < |nbrs| ==> nbrs[k] < |mesh.upward|
    ensures var w' := VisitAll(mesh, w, b, nbrs);
      && (forall k :: k in w'.vmap.entries && k !in w.vmap.entries ==> PendingFrom(w'.process, k, |w.process|))
      && (forall j :: |w.process| <= j < |w'.process| && w'.process[j].0 < |mesh.upward| && mesh.upward[w'.process[j].0]
            ==> w'.process[j].0 in w'.vmap.entries)
    decreases |nbrs|
  {
    if nbrs != [] {
      var m := nbrs[0];
      var w1 := Visit(mesh, w, b, m);
      var rest := nbrs[1..];
      VisitAllMaps(mesh, w1, b, rest);
      VisitAllGrows(mesh, w1, b, rest);
      var w' := VisitAll(mesh, w1, b, rest);
      var p0, p1 := |w.process|, |w1.process|;
      if p1 > p0 {
        assert w'.process[p0] == w'.process[..p1][p0] == w1.process[p0];
      }
      forall k | k in w'.vmap.entries && k !in w.vmap.entries ensures PendingFrom(w'.process, k, p0) {
        if k in w1.vmap.entries {
          assert k == m;
        }
      }
      forall j | p0 <= j < |w'.process| && w'.process[j].0 < |mesh.upward| && mesh.upward[w'.process[j].0]
        ensures w'.process[j].0 in w'.vmap.entries
      {
        if j < p1 {
          assert w'.process[j] == w'.process[..p1][j];
        }
      }
    }
  }

  // ---------------------------------------------------------------------------------------------
  // Lemmas about one iteration of the traversal loop
  // ---------------------------------------------------------------------------------------------

  /** What one iteration that popped `c` did to the stack: `c` joined `visited`, the entries below
      the popped one stayed in place, every entry pushed is an unvisited neighbour of `c`, every
      neighbour of `c` is visited or pushed, and nothing is pushed when all of them are visited. */
  ghost predicate PoppedStack(mesh: SourceMesh, w: Walk, c: nat, w': Walk) {
    var t := |w.process| - 1;
    && |w.process| > 0 && w.process[t].0 == c
    && w'.visited == w.visited + [c]
    && t <= |w'.process|
    && (forall j :: 0 <= j < t ==> w'.process[j] == w.process[j])
    && (forall j :: t <= j < |w'.process| ==> Adjacent(mesh.edges, c, w'.process[j].0) && w'.process[j].0 !in w'.visited)
    && (forall m :: Adjacent(mesh.edges, c, m) ==> m in w'.visited || PendingFrom(w'.process, m, t))
    && ((forall m :: Adjacent(mesh.edges, c, m) ==> m in w'.visited) ==> |w'.process| == t)
  }

  /** What one iteration did to the map: keys were only added, each new key was pushed, and every
      pushed upward-facing vertex is mapped. */
  ghost predicate PoppedKeys(mesh: SourceMesh, w: Walk, w': Walk) {
    var t := |w.process| - 1;
    && |w.process| > 0
    && (forall k :: k in w.vmap.entries ==> k in w'.vmap.entries)
    && (forall k :: k in w'.vmap.entries && k !in w.vmap.entries ==> PendingFrom(w'.process, k, t))
    && (forall j :: t <= j < |w'.process| && w'.process[j].0 < |mesh.upward| && mesh.upward[w'.process[j].0]
          ==> w'.process[j].0 in w'.vmap.entries)
  }

  /** What one iteration that popped `c` did, as far as the frontier invariants need. */
  ghost predicate Popped(mesh: SourceMesh, w: Walk, c: nat, w': Walk) {
    PoppedStack(mesh, w, c, w') && PoppedKeys(mesh, w, w')
  }

  /** One iteration does to the stack what `PoppedStack` says. */
  lemma StepPopsStack(mesh: SourceMesh, w: Walk)
    requires mesh.Valid() && |w.process| > 0 && w.process[|w.process| - 1].0 < |mesh.selected|
    ensures PoppedStack(mesh, w, w.process[|w.process| - 1].0, Step(mesh, w))
  {
    var t := |w.process| - 1;
    var (c, b) := w.process[t];
    var popped := w.(process := w.process[..t], visited := w.visited + [c]);
    var nbrs := ConnectedVerts(mesh.edges, c);
    NeighboursInRange(mesh, c);
    var w' := VisitAll(mesh, popped, b, nbrs);
    assert w' == Step(mesh, w);
    VisitAllGrows(mesh, popped, b, nbrs);
    VisitAllPushes(mesh, popped, b, nbrs);
    forall j | 0 <= j < t ensures w'.process[j] == w.process[j] {
      assert w'.process[..t][j] == w'.process[j];
    }
    forall j | t <= j < |w'.process| ensures Adjacent(mesh.edges, c, w'.process[j].0) {
      assert w'.process[j].0 in nbrs;
    }
    forall m | Adjacent(mesh.edges, c, m) ensures m in w'.visited || PendingFrom(w'.process, m, t) {
      assert m in nbrs;
      var k :| 0 <= k < |nbrs| && nbrs[k] == m;
    }
    if forall m :: Adjacent(mesh.edges, c, m) ==> m in w'.visited {
      forall k | 0 <= k < |nbrs| ensures nbrs[k] in popped.visited {
        assert nbrs[k] in nbrs;
      }
    }
  }

  /** One iteration does to the map what `PoppedKeys` says. */
  lemma StepPopsKeys(mesh: SourceMesh, w: Walk)
    requires mesh.Valid() && |w.process| > 0 && w.process[|w.process| - 1].0 < |mesh.selected|
    ensures PoppedKeys(mesh, w, Step(mesh, w))
  {
    var t := |w.process| - 1;
    var (c, b) := w.process[t];
    var popped := w.(process := w.process[..t], visited := w.visited + [c]);
    var nbrs := ConnectedVerts(mesh.edges, c);
    NeighboursInRange(mesh, c);
    assert VisitAll(mesh, popped, b, nbrs) == Step(mesh, w);
    VisitAllGrows(mesh, popped, b, nbrs);
    VisitAllMaps(mesh, popped, b, nbrs);
  }

  /** One iteration does what `Popped` says. */
  lemma StepPops(mesh: SourceMesh, w: Walk)
    requires mesh.Valid() && |w.process| > 0 && w.process[|w.process| - 1].0 < |mesh.selected|
    ensures Popped(mesh, w, w.process[|w.process| - 1].0, Step(mesh, w))
  {
    StepPopsStack(mesh, w);
    StepPopsKeys(mesh, w);
  }

  /** Dropping entries from the top of the stack keeps it anchored. */
  lemma StackPrefix(process: seq<WorkItem>, verts: seq<nat>, n: nat, t: nat)
    requires StackOk(process, verts, n) && t <= |process|
    ensures StackOk(process[..t], verts, n)
  {
    forall j | 0 <= j < t ensures process[..t][j].0 < n && Anchored(process[..t][j], verts) {
      assert process[..t][j] == process[j];
    }
  }

  /** Popping the top entry and marking its vertex visited keeps the output well formed and gated,
      and the popped anchor is `-1` or an output vertex. */
  lemma PopKeepsOutput(mesh: SourceMesh, w: Walk)
    requires OutputOk(mesh, w) && Gated(mesh, w) && |w.process| > 0
    ensures var t := |w.process| - 1;
      var popped := w.(process := w.process[..t], visited := w.visited + [w.process[t].0]);
      && OutputOk(mesh, popped) && Gated(mesh, popped)
      && Anchored(w.process[t], w.verts)
  {
    var t := |w.process| - 1;
    StackPrefix(w.process, w.verts, |mesh.selected|, t);
    assert Anchored(w.process[t], w.verts);
  }

  /** Running the neighbour loop of `c`, anchored at an output vertex made from `c` or at `-1`,
      keeps the output well formed and gated. */
  lemma ExpandKeepsOutput(mesh: SourceMesh, p: Walk, c: nat, b: int, nbrs: seq<nat>)
    requires OutputOk(mesh, p) && Gated(mesh, p)
    requires nbrs == ConnectedVerts(mesh.edges, c) && forall k :: 0 <= k < |nbrs| ==> nbrs[k] < |mesh.selected|
    requires b == NoAnchor || (0 <= b < |p.verts| && p.verts[b] == c)
    ensures OutputOk(mesh, VisitAll(mesh, p, b, nbrs)) && Gated(mesh, VisitAll(mesh, p, b, nbrs))
  {
    NeighboursAdjacent(mesh, c);
    VisitAllKeepsOutput(mesh, p, b, nbrs);
  }

  /** One iteration keeps the output well formed and gated. */
  lemma StepKeepsOutput(mesh: SourceMesh, w: Walk)
    requires mesh.Valid() && OutputOk(mesh, w) && Gated(mesh, w) && |w.process| > 0
    ensures OutputOk(mesh, Step(mesh, w)) && Gated(mesh, Step(mesh, w))
  {
    var t := |w.process| - 1;
    var (c, b) := w.process[t];
    var popped := w.(process := w.process[..t], visited := w.visited + [c]);
    PopKeepsOutput(mesh, w);
    var nbrs := ConnectedVerts(mesh.edges, c);
    NeighboursInRange(mesh, c);
    ExpandKeepsOutput(mesh, popped, c, b, nbrs);
    assert Step(mesh, w) == VisitAll(mesh, popped, b, nbrs);
  }

  /** A vertex queued before the iteration is afterwards visited (it was the popped one) or still
      queued at the same position. */
  lemma PendingSurvives(mesh: SourceMesh, w: Walk, c: nat, w': Walk, m: nat, lo: nat)
    requires Popped(mesh, w, c, w') && PendingFrom(w.process, m, lo)
    ensures m in w'.visited || PendingFrom(w'.process, m, lo)
  {
    var t := |w.process| - 1;
    var j :| lo <= j < |w.process| && w.process[j].0 == m;
    if j < t {
      assert w'.process[j] == w.process[j];
    }
  }

  /** One iteration keeps the stack discipline that makes the loop terminate. */
  lemma StepKeepsDiscipline(mesh: SourceMesh, w: Walk, c: nat, w': Walk)
    requires Discipline(mesh, w) && Popped(mesh, w, c, w')
    ensures Discipline(mesh, w')
  {
    var t := |w.process| - 1;
    forall i, m | 0 <= i < |w'.process| && w'.process[i].0 in w'.visited && Adjacent(mesh.edges, w'.process[i].0, m)
      ensures m in w'.visited || PendingFrom(w'.process, m, i + 1)
    {
      if i >= t {
        assert false;
      }
      var d := w.process[i].0;
      assert w'.process[i] == w.process[i];
      if d in w.visited {
        if m !in w.visited {
          PendingSurvives(mesh, w, c, w', m, i + 1);
        }
      } else if m !in w'.visited {
        var j :| t <= j < |w'.process| && w'.process[j].0 == m;
      }
    }
  }

  /** One iteration keeps the visited set closed up to the queued vertices. */
  lemma StepKeepsClosed(mesh: SourceMesh, w: Walk, c: nat, w': Walk)
    requires Closed(mesh, w) && Popped(mesh, w, c, w')
    ensures Closed(mesh, w')
  {
    var t := |w.process| - 1;
    forall c', m | c' in w'.visited && Adjacent(mesh.edges, c', m) ensures m in w'.visited || PendingFrom(w'.process, m, 0) {
      if c' in w.visited {
        if m !in w.visited {
          PendingSurvives(mesh, w, c, w', m, 0);
        }
      } else if m !in w'.visited {
        var j :| t <= j < |w'.process| && w'.process[j].0 == m;
      }
    }
  }

  /** One iteration keeps the admission invariant. */
  lemma StepKeepsAdmission(mesh: SourceMesh, w: Walk, c: nat, w': Walk)
    requires Admission(mesh, w) && Popped(mesh, w, c, w')
    ensures Admission(mesh, w')
  {
    var t := |w.process| - 1;
    forall s | s in Seeds(mesh) ensures s in w'.vmap.entries && (s in w'.visited || PendingFrom(w'.process, s, 0)) {
      if s !in w.visited {
        PendingSurvives(mesh, w, c, w', s, 0);
      }
    }
    forall k | k in w'.vmap.entries ensures k in w'.visited || PendingFrom(w'.process, k, 0) {
      if k !in w.vmap.entries {
        var j :| t <= j < |w'.process| && w'.process[j].0 == k;
      } else if k !in w.visited {
        PendingSurvives(mesh, w, c, w', k, 0);
      }
    }
    forall v: nat | v < |mesh.upward| && mesh.upward[v] && (v in w'.visited || PendingFrom(w'.process, v, 0))
      ensures v in w'.vmap.entries
    {
      if v in w'.visited {
        if v !in w.visited {
          assert v == c;
          assert PendingFrom(w.process, c, 0) by { assert w.process[t].0 == c; }
        }
      } else {
        var j :| 0 <= j < |w'.process| && w'.process[j].0 == v;
        if j < t {
          assert PendingFrom(w.process, v, 0) by { assert w.process[j] == w'.process[j]; }
        }
      }
    }
  }

  /** One iteration keeps the record of how each vertex was discovered. */
  lemma StepKeepsDiscovered(mesh: SourceMesh, w: Walk, c: nat, w': Walk)
    requires Discovered(mesh, w) && Popped(mesh, w, c, w')
    ensures Discovered(mesh, w')
  {
    var t := |w.process| - 1;
    forall i | 0 <= i < |w'.visited|
      ensures w'.visited[i] in Seeds(mesh) || exists j :: 0 <= j < i && Adjacent(mesh.edges, w'.visited[j], w'.visited[i])
    {
      if i < |w.visited| {
        assert w'.visited[i] == w.visited[i];
        if w.visited[i] !in Seeds(mesh) {
          var j :| 0 <= j < i && Adjacent(mesh.edges, w.visited[j], w.visited[i]);
          assert w'.visited[j] == w.visited[j];
        }
      } else {
        assert w'.visited[i] == c == w.process[t].0;
        if c !in Seeds(mesh) {
          var j :| 0 <= j < |w.visited| && Adjacent(mesh.edges, w.visited[j], c);
          assert w'.visited[j] == w.visited[j];
        }
      }
    }
    forall k | 0 <= k < |w'.process|
      ensures w'.process[k].0 in Seeds(mesh) || exists j :: 0 <= j < |w'.visited| && Adjacent(mesh.edges, w'.visited[j], w'.process[k].0)
    {
      if k < t {
        assert w'.process[k] == w.process[k];
        if w.process[k].0 !in Seeds(mesh) {
          var j :| 0 <= j < |w.visited| && Adjacent(mesh.edges, w.visited[j], w.process[k].0);
          assert w'.visited[j] == w.visited[j];
        }
      } else {
        assert w'.visited[|w.visited|] == c;
      }
    }
  }

  /** The termination measure goes down: an iteration that pops an unvisited vertex shrinks the set
      of unvisited vertices; one that pops an already visited vertex queues nothing, by the stack
      discipline, so the stack shrinks. */
  lemma StepMeasure(mesh: SourceMesh, w: Walk, c: nat, w': Walk)
    requires Discipline(mesh, w) && Popped(mesh, w, c, w') && c < |mesh.selected|
    ensures var n := |mesh.selected|;
      || Unvisited(n, w'.visited) < Unvisited(n, w.visited)
      || (Unvisited(n, w'.visited) == Unvisited(n, w.visited) && |w'.process| < |w.process|)
  {
    var n := |mesh.selected|;
    var t := |w.process| - 1;
    if c in w.visited {
      assert forall m :: Adjacent(mesh.edges, c, m) ==> m in w.visited by {
        assert w.process[t].0 == c;
      }
      assert |w'.process| == t;
      assert Unvisited(n, w'.visited) == Unvisited(n, w.visited);
    } else {
      assert c in Unvisited(n, w.visited) && c !in Unvisited(n, w'.visited);
      assert Unvisited(n, w'.visited) <= Unvisited(n, w.visited);
    }
  }

  /** One iteration keeps the frontier invariants, and every visited vertex stays a mesh vertex. */
  lemma StepKeepsFrontier(mesh: SourceMesh, w: Walk)
    requires Invariant(mesh, w) && |w.process| > 0
    ensures var w' := Step(mesh, w);
      && Discipline(mesh, w') && Closed(mesh, w') && Admission(mesh, w') && Discovered(mesh, w')
      && (forall i :: 0 <= i < |w'.visited| ==> w'.visited[i] < |mesh.selected|)
  {
    var c := w.process[|w.process| - 1].0;
    var w' := Step(mesh, w);
    StepPops(mesh, w);
    StepKeepsDiscipline(mesh, w, c, w');
    StepKeepsClosed(mesh, w, c, w');
    StepKeepsAdmission(mesh, w, c, w');
    StepKeepsDiscovered(mesh, w, c, w');
    assert forall i :: 0 <= i < |w'.visited| ==> w'.visited[i] < |mesh.selected| by {
      assert w'.visited == w.visited + [c];
    }
  }

  /** One iteration keeps the invariant and lowers the termination measure. */
  lemma StepKeepsInvariant(mesh: SourceMesh, w: Walk)
    requires Invariant(mesh, w) && |w.process| > 0
    ensures Invariant(mesh, Step(mesh, w))
    ensures var n := |mesh.selected|;
      || Unvisited(n, Step(mesh, w).visited) < Unvisited(n, w.visited)
      || (Unvisited(n, Step(mesh, w).visited) == Unvisited(n, w.visited) && |Step(mesh, w).process| < |w.process|)
  {
    var c := w.process[|w.process| - 1].0;
    StepKeepsOutput(mesh, w);
    StepKeepsFrontier(mesh, w);
    StepPops(mesh, w);
    StepMeasure(mesh, w, c, Step(mesh, w));
  }

  // ---------------------------------------------------------------------------------------------
  // The imperative code
  // ---------------------------------------------------------------------------------------------

  /** The map after seeding the first `i` of `verts`: they are its keys in order, the k-th mapped
      to `k`. */
  ghost predicate SeedMap(verts: seq<nat>, i: nat, vertexMap: Dict)
    requires i <= |verts|
  {
    && vertexMap.Valid() && vertexMap.order == verts[..i]
    && forall k :: 0 <= k < i ==> verts[k] in vertexMap.entries && vertexMap.entries[verts[k]] == k
  }

  /** Seeding one more vertex of a strictly increasing list adds a new key at the end. */
  lemma SeedMapStep(selected: seq<bool>, verts: seq<nat>, i: nat, vertexMap: Dict)
    requires verts == SelectedVerts(selected)
    requires i < |verts| && SeedMap(verts, i, vertexMap)
    ensures SeedMap(verts, i + 1, vertexMap.Put(verts[i], i))
  {
    SelectedVertsIncreasing(selected);
    var v := verts[i];
    assert v !in vertexMap.entries by {
      forall k | 0 <= k < i ensures verts[k] != v {
        assert verts[k] < v;
      }
    }
    assert verts[..i + 1] == verts[..i] + [v];
  }

  /** Lines 43-47: every selected vertex, in source order, gets the next output vertex, a map entry
      and a frontier entry anchored at that vertex. */
  method SeedFrontier(mesh: SourceMesh) returns (w: Walk)
    ensures var seeds := Seeds(mesh);
      && w.visited == [] && w.edges == []
      && w.verts == seeds
      && |w.process| == |seeds| && (forall k :: 0 <= k < |seeds| ==> w.process[k] == (seeds[k], k))
      && w.vmap.Valid() && w.vmap.order == seeds
      && (forall k :: 0 <= k < |seeds| ==> seeds[k] in w.vmap.entries && w.vmap.entries[seeds[k]] == k)
  {
    var verts := SelectedVerts(mesh.selected);
    var newVerts: seq<nat> := [];
    var process: seq<WorkItem> := [];
    var vertexMap := EmptyDict;
    for i := 0 to |verts|
      invariant newVerts == verts[..i]
      invariant |process| == i && forall k :: 0 <= k < i ==> process[k] == (verts[k], k)
      invariant SeedMap(verts, i, vertexMap)
    {
      var v := verts[i];
      SeedMapStep(mesh.selected, verts, i, vertexMap);
      newVerts := newVerts + [v];
      var newVertIndex := |newVerts| - 1;
      process := process + [(v, |newVerts| - 1)];
      vertexMap := vertexMap.Put(v, newVertIndex);
      assert verts[..i + 1] == verts[..i] + [v];
    }
    assert verts[..|verts|] == verts;
    w := Walk([], process, newVerts, [], vertexMap);
  }

  /** Lines 55-76: the body of the neighbour loop for one neighbour. */
  method VisitNeighbour(mesh: SourceMesh, w: Walk, b: int, checkVert: nat) returns (w': Walk)
    requires checkVert < |mesh.upward|
    ensures w' == Visit(mesh, w, b, checkVert)
  {
    w' := w;
    if !IsProcessed(w'.visited, w'.process, checkVert) {
      if mesh.upward[checkVert] {
        w' := w'.(verts := w'.verts + [checkVert]);
        var newVertIndex := |w'.verts| - 1;
        w' := w'.(vmap := w'.vmap.Put(checkVert, newVertIndex));
        w' := w'.(process := w'.process + [(checkVert, newVertIndex)]);
        if b > NoAnchor {
          w' := w'.(edges := w'.edges + [(b, newVertIndex)]);
        }
      } else {
        w' := w'.(process := w'.process + [(checkVert, NoAnchor)]);
      }
    } else if checkVert in w'.vmap.entries {
      var waterMeshVertIndex := w'.vmap.entries[checkVert];
      if Contains(w'.visited, checkVert) && b > NoAnchor && !InEdges(w'.edges, waterMeshVertIndex, b) {
        w' := w'.(edges := w'.edges + [(waterMeshVertIndex, b)]);
      }
    }
  }

  /** Lines 54-76: the neighbour loop, run over the neighbours of the popped vertex. */
  method ExpandNeighbours(mesh: SourceMesh, w: Walk, b: int, nbrs: seq<nat>) returns (w': Walk)
    requires forall k :: 0 <= k < |nbrs| ==> nbrs[k] < |mesh.upward|
    ensures w' == VisitAll(mesh, w, b, nbrs)
  {
    w' := w;
    for k := 0 to |nbrs|
      invariant VisitAll(mesh, w', b, nbrs[k..]) == VisitAll(mesh, w, b, nbrs)
    {
      assert nbrs[k..][1..] == nbrs[k + 1..];
      w' := VisitNeighbour(mesh, w', b, nbrs[k]);
    }
  }

  /** Lines 43-76: seed the frontier, then pop entries until it is empty. On return the frontier is
      empty, the output is well formed and gated, every output edge joins the output vertices of two
      adjacent source vertices, every seed is visited, the visited vertices are closed under
      adjacency, and a vertex is mapped exactly when it was visited and is selected or faces upward. */
  method Traverse(mesh: SourceMesh) returns (w: Walk)
    requires mesh.Valid()
    ensures w.process == []
    ensures OutputOk(mesh, w) && Gated(mesh, w)
    ensures EdgesFollowMesh(mesh.edges, w.edges, w.verts)
    ensures Discovered(mesh, w)
    ensures forall s :: s in Seeds(mesh) ==> s in w.visited
    ensures forall c, m :: c in w.visited && Adjacent(mesh.edges, c, m) ==> m in w.visited
    ensures forall v :: v in w.visited ==> v < |mesh.selected|
    ensures forall v: nat :: v in w.vmap.entries <==>
              v in w.visited && v < |mesh.selected| && (mesh.selected[v] || mesh.upward[v])
  {
    w := SeedFrontier(mesh);
    assert SeedState(mesh, w);
    SeededInvariant(mesh, w);
    while |w.process| > 0
      invariant Invariant(mesh, w)
      decreases Unvisited(|mesh.selected|, w.visited), |w.process|
    {
      ghost var before := w;
      assert w.process[|w.process| - 1].0 < |mesh.selected|;
      w := PopAndExpand(mesh, w);
      StepKeepsInvariant(mesh, before);
    }
    Finished(mesh, w);
  }

  /** Lines 50-76: pop the top entry, mark its vertex visited and run the neighbour loop. */
  method PopAndExpand(mesh: SourceMesh, w: Walk) returns (w': Walk)
    requires mesh.Valid() && |w.process| > 0 && w.process[|w.process| - 1].0 < |mesh.selected|
    ensures w' == Step(mesh, w)
  {
    var (checkIndex, baseIndex) := w.process[|w.process| - 1];
    w' := w.(process := w.process[..|w.process| - 1]);
    w' := w'.(visited := w'.visited + [checkIndex]);
    var connectedVerts := ConnectedVerts(mesh.edges, checkIndex);
    NeighboursInRange(mesh, checkIndex);
    w' := ExpandNeighbours(mesh, w', baseIndex, connectedVerts);
  }

  /** The state `SeedFrontier` leaves. */
  ghost predicate SeedState(mesh: SourceMesh, w: Walk) {
    var seeds := Seeds(mesh);
    && w.visited == [] && w.edges == []
    && w.verts == seeds
    && |w.process| == |seeds| && (forall k :: 0 <= k < |seeds| ==> w.process[k] == (seeds[k], k))
    && w.vmap.Valid() && w.vmap.order == seeds
    && (forall k :: 0 <= k < |seeds| ==> seeds[k] in w.vmap.entries && w.vmap.entries[seeds[k]] == k)
  }

  /** The state after seeding satisfies the loop invariant. */
  lemma SeededInvariant(mesh: SourceMesh, w: Walk)
    requires mesh.Valid() && SeedState(mesh, w)
    ensures Invariant(mesh, w)
  {
    SeededOutput(mesh, w);
    SeededAdmission(mesh, w);
  }

  /** The seeded state is well formed and gated. */
  lemma SeededOutput(mesh: SourceMesh, w: Walk)
    requires mesh.Valid() && SeedState(mesh, w)
    ensures OutputOk(mesh, w) && Gated(mesh, w)
  {
    SeededMap(mesh, w);
    SeededBounds(mesh, w);
    assert w.verts[..|Seeds(mesh)|] == Seeds(mesh);
  }

  /** After seeding, each key maps to the output vertex made from it. */
  lemma SeededMap(mesh: SourceMesh, w: Walk)
    requires SeedState(mesh, w)
    ensures forall k :: k in w.vmap.entries ==> w.vmap.entries[k] < |w.verts| && w.verts[w.vmap.entries[k]] == k
  {
    var seeds := Seeds(mesh);
    forall k | k in w.vmap.entries ensures w.vmap.entries[k] < |w.verts| && w.verts[w.vmap.entries[k]] == k {
      var i :| 0 <= i < |seeds| && seeds[i] == k;
    }
  }

  /** After seeding, every output vertex and every queued entry names a vertex of the mesh, and each entry is anchored at its own output vertex. */
  lemma SeededBounds(mesh: SourceMesh, w: Walk)
    requires SeedState(mesh, w)
    ensures forall i :: 0 <= i < |w.verts| ==> w.verts[i] < |mesh.selected|
    ensures forall j :: 0 <= j < |w.process| ==> w.process[j].0 < |mesh.selected| && Anchored(w.process[j], w.verts)
  {
    var seeds := Seeds(mesh);
    forall i | 0 <= i < |w.verts| ensures w.verts[i] < |mesh.selected| {
      assert seeds[i] in seeds;
    }
  }

  /** After seeding, every seed is queued. */
  lemma SeedsQueued(mesh: SourceMesh, w: Walk)
    requires SeedState(mesh, w)
    ensures forall s :: s in Seeds(mesh) ==> PendingFrom(w.process, s, 0)
  {
    var seeds := Seeds(mesh);
    forall s | s in seeds ensures PendingFrom(w.process, s, 0) {
      var i :| 0 <= i < |seeds| && seeds[i] == s;
      assert w.process[i].0 == s;
    }
  }

  /** After seeding, every key and every queued vertex is a seed. */
  lemma SeededAreSeeds(mesh: SourceMesh, w: Walk)
    requires SeedState(mesh, w)
    ensures forall j :: 0 <= j < |w.process| ==> w.process[j].0 in Seeds(mesh)
    ensures forall k :: k in w.vmap.entries ==> k in Seeds(mesh)
  {
    var seeds := Seeds(mesh);
    forall j | 0 <= j < |w.process| ensures w.process[j].0 in seeds {
      assert w.process[j].0 == seeds[j];
    }
    assert forall k :: k in w.vmap.entries ==> k in w.vmap.order;
  }

  /** After seeding, every seed is mapped and queued, and every key and every queued vertex is a seed. */
  lemma SeededAdmission(mesh: SourceMesh, w: Walk)
    requires mesh.Valid() && SeedState(mesh, w)
    ensures Admission(mesh, w) && Discovered(mesh, w)
  {
    SeedsQueued(mesh, w);
    SeededAreSeeds(mesh, w);
    forall v: nat | v < |mesh.upward| && mesh.upward[v] && (v in w.visited || PendingFrom(w.process, v, 0))
      ensures v in w.vmap.entries
    {
      var j :| 0 <= j < |w.process| && w.process[j].0 == v;
      assert v in Seeds(mesh);
    }
  }

  /** With the frontier empty, a vertex is mapped exactly when it was visited and is selected or
      faces upward. */
  lemma Finished(mesh: SourceMesh, w: Walk)
    requires Invariant(mesh, w) && w.process == []
    ensures OutputOk(mesh, w) && Gated(mesh, w)
    ensures Discovered(mesh, w)
    ensures forall s :: s in Seeds(mesh) ==> s in w.visited
    ensures forall c, m :: c in w.visited && Adjacent(mesh.edges, c, m) ==> m in w.visited
    ensures forall v :: v in w.visited ==> v < |mesh.selected|
    ensures forall v: nat :: v in w.vmap.entries <==>
              v in w.visited && v < |mesh.selected| && (mesh.selected[v] || mesh.upward[v])
  {
    var seeds := Seeds(mesh);
    forall v: nat | v in w.vmap.entries ensures v in w.visited && v < |mesh.selected| && (mesh.selected[v] || mesh.upward[v]) {
      var i := w.vmap.entries[v];
      assert w.verts[i] == v;
      if i < |seeds| {
        assert w.verts[..|seeds|][i] == seeds[i];
        assert v in seeds;
      }
    }
  }
}
