/** Which source vertices the traversal reaches: exactly those joined to a selected vertex by a path
    of edges. */
module Reach {
  import opened MeshModel
  import opened Scans
  import opened Traversal

  /** `v` is joined to a selected vertex by a path of at most `steps` edges. */
  ghost predicate ReachableIn(mesh: SourceMesh, v: nat, steps: nat)
    decreases steps
  {
    if steps == 0 then v in Seeds(mesh)
    else ReachableIn(mesh, v, steps - 1) || exists u: nat :: ReachableIn(mesh, u, steps - 1) && Adjacent(mesh.edges, u, v)
  }

  /** `v` lies in the connected part of the mesh around some selected vertex. */
  ghost predicate Reachable(mesh: SourceMesh, v: nat) {
    exists steps: nat :: ReachableIn(mesh, v, steps)
  }

  /** A set of vertices that holds every seed and every neighbour of its members holds every
      reachable vertex. */
  lemma {:induction false} ClosedHoldsReachable(mesh: SourceMesh, visited: seq<nat>, v: nat, steps: nat)
    requires forall s :: s in Seeds(mesh) ==> s in visited
    requires forall c, m :: c in visited && Adjacent(mesh.edges, c, m) ==> m in visited
    requires ReachableIn(mesh, v, steps)
    ensures v in visited
    decreases steps
  {
    if steps > 0 {
      if ReachableIn(mesh, v, steps - 1) {
        ClosedHoldsReachable(mesh, visited, v, steps - 1);
      } else {
        var u: nat :| ReachableIn(mesh, u, steps - 1) && Adjacent(mesh.edges, u, v);
        ClosedHoldsReachable(mesh, visited, u, steps - 1);
      }
    }
  }

  /** A visiting order in which each vertex is a seed or a neighbour of an earlier one holds only
      reachable vertices. */
  lemma {:induction false} DiscoveredIsReachable(mesh: SourceMesh, visited: seq<nat>, i: nat)
    requires forall k :: 0 <= k < |visited| ==>
      visited[k] in Seeds(mesh) || exists j :: 0 <= j < k && Adjacent(mesh.edges, visited[j], visited[k])
    requires i < |visited|
    ensures Reachable(mesh, visited[i])
    decreases i
  {
    if visited[i] in Seeds(mesh) {
      assert ReachableIn(mesh, visited[i], 0);
    } else {
      var j :| 0 <= j < i && Adjacent(mesh.edges, visited[j], visited[i]);
      DiscoveredIsReachable(mesh, visited, j);
      var steps: nat :| ReachableIn(mesh, visited[j], steps);
      assert ReachableIn(mesh, visited[i], steps + 1);
    }
  }

  /** The traversal visits exactly the reachable vertices. */
  lemma VisitedIsReachable(mesh: SourceMesh, w: Walk)
    requires Discovered(mesh, w)
    requires forall s :: s in Seeds(mesh) ==> s in w.visited
    requires forall c, m :: c in w.visited && Adjacent(mesh.edges, c, m) ==> m in w.visited
    ensures forall v: nat :: v in w.visited <==> Reachable(mesh, v)
  {
    forall v: nat ensures v in w.visited <==> Reachable(mesh, v) {
      if v in w.visited {
        var i :| 0 <= i < |w.visited| && w.visited[i] == v;
        DiscoveredIsReachable(mesh, w.visited, i);
      }
      if Reachable(mesh, v) {
        var steps: nat :| ReachableIn(mesh, v, steps);
        ClosedHoldsReachable(mesh, w.visited, v, steps);
      }
    }
  }
}
