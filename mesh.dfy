/** The data the water-mesh generator reads and accumulates, stripped of its host-document plumbing. */
module MeshModel {

  /** A frontier entry `(source vertex index, anchor)`: the anchor is the entry's own output vertex,
      or `NoAnchor` when the vertex was not admitted. */
  type WorkItem = (nat, int)

  /** The `-1` sentinel used for "no output vertex to draw an edge from". */
  const NoAnchor: int := -1

  /** One source mesh. Vertex `v` is selected when `selected[v]` holds and faces upward when
      `upward[v]` holds (its normal has a positive dot product with the vertical axis). */
  datatype SourceMesh = SourceMesh(
    selected: seq<bool>,
    upward: seq<bool>,
    edges: seq<(nat, nat)>,
    polys: seq<seq<nat>>)
  {
    /** Every vertex carries both flags and every edge and polygon refers to an existing vertex. */
    predicate Valid() {
      && |upward| == |selected|
      && (forall i :: 0 <= i < |edges| ==> edges[i].0 < |selected| && edges[i].1 < |selected|)
      && (forall p, j :: 0 <= p < |polys| && 0 <= j < |polys[p]| ==> polys[p][j] < |selected|)
    }
  }

  /** `u` and `v` are the two ends of some edge, in either orientation. */
  ghost predicate Adjacent(edges: seq<(nat, nat)>, v: nat, u: nat) {
    exists i :: 0 <= i < |edges| && ((edges[i].0 == v && edges[i].1 == u) || (edges[i].1 == v && edges[i].0 == u))
  }

  /** Two output edges join the same unordered pair of vertices. */
  predicate SameEdge(e: (int, int), f: (int, int)) {
    (e.0 == f.0 && e.1 == f.1) || (e.0 == f.1 && e.1 == f.0)
  }

  /** A Python dict from source to output indices: its entries, and its keys in insertion order,
      which is the order in which `keys()` yields them. */
  datatype Dict = Dict(entries: map<nat, nat>, order: seq<nat>)
  {
    ghost predicate Valid() {
      && (forall i, j :: 0 <= i < j < |order| ==> order[i] != order[j])
      && (forall k :: k in entries <==> k in order)
    }

    /** `d[k] = v`: a new key goes to the end of the order, an existing key keeps its place. */
    function Put(k: nat, v: nat): (d: Dict)
      ensures Valid() ==> d.Valid()
      ensures d.entries == entries[k := v]
      ensures k in entries ==> d.order == order
      ensures k !in entries ==> d.order == order + [k]
    {
      Dict(entries[k := v], if k in entries then order else order + [k])
    }
  }

  datatype Option<T> = None | Some(value: T)

  /** The empty dict `{}`. */
  const EmptyDict: Dict := Dict(map[], [])
}
