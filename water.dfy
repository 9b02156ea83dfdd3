/** One source object's pass of the generator: skip it unless a vertex is selected, otherwise grow
    the water mesh from the selection and close its faces. */
module Water {
  import opened MeshModel
  import opened Scans
  import opened Traversal
  import opened Faces
  import opened Reach

  /** What the pass hands to the output mesh: output vertex `i` is the offset copy of source vertex
      `verts[i]`; edges and faces are over output vertex indices. */
  datatype WaterMesh = WaterMesh(verts: seq<nat>, edges: seq<(int, int)>, faces: seq<seq<nat>>, vertexMap: Dict)

  /** The pass over one object: seeding, the depth-first walk and the face loop. */
  method GrowWater(mesh: SourceMesh) returns (water: Option<WaterMesh>)
    requires mesh.Valid()
    ensures water.None? <==> forall v :: 0 <= v < |mesh.selected| ==> !mesh.selected[v]
    ensures water.Some? ==>
      var out := water.value;
      var seeds := Seeds(mesh);
      var vm := out.vertexMap.entries;
      && |seeds| <= |out.verts| && out.verts[..|seeds|] == seeds
      && (forall i :: |seeds| <= i < |out.verts| ==> out.verts[i] < |mesh.upward| && mesh.upward[out.verts[i]])
      && (forall k :: k in vm ==> vm[k] < |out.verts| && out.verts[vm[k]] == k)
      && (forall k1, k2 :: k1 in vm && k2 in vm && k1 != k2 ==> vm[k1] != vm[k2])
      && (forall v: nat :: v in vm <==>
            v < |mesh.selected| && Reachable(mesh, v) && (mesh.selected[v] || mesh.upward[v]))
      && (forall i :: 0 <= i < |out.edges| ==>
            && 0 <= out.edges[i].0 < |out.verts| && 0 <= out.edges[i].1 < |out.verts|
            && Adjacent(mesh.edges, out.verts[out.edges[i].0], out.verts[out.edges[i].1]))
      && (forall i, j :: 0 <= i < j < |out.edges| ==> !SameEdge(out.edges[i], out.edges[j]))
      && Translates(out.faces, EmittedPolys(out.vertexMap.order, mesh.polys, vm), mesh.polys, vm)
      && (forall i, j :: 0 <= i < |out.faces| && 0 <= j < |out.faces[i]| ==>
            out.faces[i][j] < |out.verts| &&
            out.verts[out.faces[i][j]] == mesh.polys[EmittedPolys(out.vertexMap.order, mesh.polys, vm)[i]][j])
      && (forall p :: 0 <= p < |mesh.polys| ==>
            multiset(EmittedPolys(out.vertexMap.order, mesh.polys, vm))[p] ==
              if AllMapped(mesh.polys[p], vm) then |set v | v in mesh.polys[p]| else 0)
  {
    if Contains(mesh.selected, true) {
      var w := Traverse(mesh);
      VisitedIsReachable(mesh, w);
      var newFaces := CloseFaces(mesh, w.vmap);
      FacesRoundTrip(newFaces, EmittedPolys(w.vmap.order, mesh.polys, w.vmap.entries), mesh.polys, w.vmap.entries, w.verts);
      forall p | 0 <= p < |mesh.polys|
        ensures multiset(EmittedPolys(w.vmap.order, mesh.polys, w.vmap.entries))[p] ==
          if AllMapped(mesh.polys[p], w.vmap.entries) then |set v | v in mesh.polys[p]| else 0
      {
        FaceMultiplicity(w.vmap, mesh.polys, p);
      }
      water := Some(WaterMesh(w.verts, w.edges, newFaces, w.vmap));
    } else {
      water := None;
    }
  }
}
