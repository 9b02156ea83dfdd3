/** The read-only linear-scan helpers of the generator script. */
module Scans {
  import opened MeshModel

  /** The scan `for check in s: if check == x: return True` followed by `return False`.
      `is_visited`, `index_processed` and `poly_contains_vert_index` are three copies of it. */
  function Contains<T(==)>(s: seq<T>, x: T): (r: bool)
    ensures r <==> x in s
    decreases |s|
  {
    if s == [] then false
    else if s[0] == x then true
    else Contains(s[1..], x)
  }

  /** A Python value as far as the `==` tests of `is_processed` need one: an int or a 2-tuple.
      Python compares a tuple with an int as unequal, which is what datatype equality gives here. */
  datatype PyValue = PyInt(n: int) | PyPair(first: int, second: int)

  /** The frontier as the list of tuples Python holds: no bare int is ever on it, and reading each
      tuple back gives the entry it came from. */
  function Boxed(process: seq<WorkItem>): (r: seq<PyValue>)
    ensures forall x :: PyInt(x) !in r
    ensures |r| == |process|
    ensures forall i :: 0 <= i < |r| ==> r[i].PyPair? && (r[i].first, r[i].second) == process[i]
  {
    seq(|process|, i requires 0 <= i < |process| => PyPair(process[i].0, process[i].1))
  }

  /** `is_processed(visited, process, index)`: scans `visited`, then compares every queued tuple with
      the bare index. No tuple equals an int, so a vertex that is only pending is never reported. */
  function IsProcessed(visited: seq<nat>, process: seq<WorkItem>, index: nat): (r: bool)
    ensures r <==> index in visited
  {
    Contains(visited, index) || Contains(Boxed(process), PyInt(index))
  }

  /** Both endpoints of `e` lie in `{a, b}`: the test `in_edges` applies to each edge. */
  predicate WithinPair(e: (int, int), a: int, b: int) {
    (e.0 == a || e.0 == b) && (e.1 == a || e.1 == b)
  }

  /** `in_edges(edges, a, b)`: some edge has both of its endpoints in `{a, b}`. */
  function InEdges(edges: seq<(int, int)>, a: int, b: int): (r: bool)
    ensures r <==> exists i :: 0 <= i < |edges| && WithinPair(edges[i], a, b)
    decreases |edges|
  {
    if edges == [] then false
    else if WithinPair(edges[0], a, b) then true
    else InEdges(edges[1..], a, b)
  }

  /** `in_edges` does not depend on the order of its two indices, and it finds every edge that joins
      the same unordered pair; it also matches a loop edge on `a` or on `b`. */
  lemma InEdgesUnordered(edges: seq<(int, int)>, a: int, b: int)
    ensures InEdges(edges, a, b) == InEdges(edges, b, a)
    ensures (exists i :: 0 <= i < |edges| && SameEdge(edges[i], (a, b))) ==> InEdges(edges, a, b)
    ensures !InEdges(edges, a, b) ==> forall i :: 0 <= i < |edges| ==> !SameEdge(edges[i], (a, b))
  {
    if exists i :: 0 <= i < |edges| && SameEdge(edges[i], (a, b)) {
      var i :| 0 <= i < |edges| && SameEdge(edges[i], (a, b));
      assert WithinPair(edges[i], a, b);
    }
    if InEdges(edges, a, b) {
      var i :| 0 <= i < |edges| && WithinPair(edges[i], a, b);
      assert WithinPair(edges[i], b, a);
    }
    if InEdges(edges, b, a) {
      var i :| 0 <= i < |edges| && WithinPair(edges[i], b, a);
      assert WithinPair(edges[i], a, b);
    }
  }

  /** `get_selected_verts`: the indices of the selected vertices, in source order. */
  function SelectedVerts(selected: seq<bool>): (r: seq<nat>)
    ensures forall v: nat :: v in r <==> v < |selected| && selected[v]
    decreases |selected|
  {
    if selected == [] then []
    else
      var last := |selected| - 1;
      SelectedVerts(selected[..last]) + (if selected[last] then [last] else [])
  }

  /** `get_selected_verts` keeps source order: its indices strictly increase, so none repeats. */
  lemma {:induction false} SelectedVertsIncreasing(selected: seq<bool>)
    ensures forall i, j :: 0 <= i < j < |SelectedVerts(selected)| ==> SelectedVerts(selected)[i] < SelectedVerts(selected)[j]
    decreases |selected|
  {
    if selected != [] {
      var last := |selected| - 1;
      var init := SelectedVerts(selected[..last]);
      SelectedVertsIncreasing(selected[..last]);
      assert forall i :: 0 <= i < |init| ==> init[i] in init;
    }
  }

  /** The contribution of one edge to the neighbours of `v`: its far end when its first end is `v`,
      then its near end when its second end is `v`. */
  function EdgeNeighbours(e: (nat, nat), v: nat): seq<nat> {
    (if e.0 == v then [e.1] else []) + (if e.1 == v then [e.0] else [])
  }

  /** `get_connected_verts(mesh, v)`: for each edge in order, the opposite end of every end equal to
      `v`. Parallel edges repeat a neighbour, and a loop edge on `v` yields `v` twice. */
  function ConnectedVerts(edges: seq<(nat, nat)>, v: nat): (r: seq<nat>)
    ensures forall u :: u in r <==> Adjacent(edges, v, u)
    decreases |edges|
  {
    if edges == [] then []
    else
      var last := |edges| - 1;
      var r := ConnectedVerts(edges[..last], v) + EdgeNeighbours(edges[last], v);
      assert forall u :: Adjacent(edges, v, u) <==> Adjacent(edges[..last], v, u) || u in EdgeNeighbours(edges[last], v) by {
        forall u ensures Adjacent(edges, v, u) ==> Adjacent(edges[..last], v, u) || u in EdgeNeighbours(edges[last], v) {
          if Adjacent(edges, v, u) {
            var i :| 0 <= i < |edges| && ((edges[i].0 == v && edges[i].1 == u) || (edges[i].1 == v && edges[i].0 == u));
            if i < last {
              assert edges[..last][i] == edges[i];
            }
          }
        }
        forall u ensures Adjacent(edges[..last], v, u) ==> Adjacent(edges, v, u) {
          if Adjacent(edges[..last], v, u) {
            var i :| 0 <= i < last && ((edges[..last][i].0 == v && edges[..last][i].1 == u) || (edges[..last][i].1 == v && edges[..last][i].0 == u));
            assert edges[i] == edges[..last][i];
          }
        }
      }
      r
  }

  /** Neighbour enumeration follows the edge list: the neighbours found in two consecutive runs of
      edges are those of the first run followed by those of the second. */
  lemma {:induction false} ConnectedVertsConcat(a: seq<(nat, nat)>, b: seq<(nat, nat)>, v: nat)
    ensures ConnectedVerts(a + b, v) == ConnectedVerts(a, v) + ConnectedVerts(b, v)
    decreases |b|
  {
    if b == [] {
      assert a + b == a;
    } else {
      var last := |b| - 1;
      assert (a + b)[..|a + b| - 1] == a + b[..last];
      assert (a + b)[|a + b| - 1] == b[last];
      ConnectedVertsConcat(a, b[..last], v);
    }
  }

  /** A single edge contributes exactly its own neighbours of `v`; with `ConnectedVertsConcat` this
      fixes the order and the multiplicity of the whole enumeration. */
  lemma ConnectedVertsSingle(e: (nat, nat), v: nat)
    ensures ConnectedVerts([e], v) == EdgeNeighbours(e, v)
    ensures e == (v, v) ==> ConnectedVerts([e], v) == [v, v]
  {
    assert [e][..0] == [];
  }

  /** Every vertex of the polygon is a key of the map. */
  predicate AllMapped(poly: seq<nat>, vmap: map<nat, nat>) {
    forall a :: a in poly ==> a in vmap
  }

  /** `create_new_polygon(poly, old_to_new)`: the polygon's vertex indices, each looked up in the map. */
  function Translate(poly: seq<nat>, vmap: map<nat, nat>): (r: seq<nat>)
    requires AllMapped(poly, vmap)
    ensures |r| == |poly|
    ensures forall i :: 0 <= i < |poly| ==> r[i] == vmap[poly[i]]
    decreases |poly|
  {
    if poly == [] then []
    else
      var last := |poly| - 1;
      Translate(poly[..last], vmap) + [vmap[poly[last]]]
  }
}
