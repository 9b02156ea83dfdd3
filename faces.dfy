/** The face pass: every source polygon whose vertices were all admitted is translated into the
    output mesh, once per admitted vertex it contains. */
module Faces {
  import opened MeshModel
  import opened Scans

  /** Polygon `poly` passes both tests of the inner loop for key `key`: it contains the key, and
      every one of its vertices is a key of the map. */
  predicate Qualifies(poly: seq<nat>, key: nat, vmap: map<nat, nat>) {
    key in poly && AllMapped(poly, vmap)
  }

  /** The inner loop for one key, run over the first `count` polygons: the indices of the polygons
      it emits, in order. */
  function MatchingPolys(polys: seq<seq<nat>>, key: nat, vmap: map<nat, nat>, count: nat): (r: seq<nat>)
    requires count <= |polys|
    ensures |r| <= count
    ensures forall p :: p in r ==> p < count
    decreases count
  {
    if count == 0 then []
    else
      var init := MatchingPolys(polys, key, vmap, count - 1);
      init + (if Qualifies(polys[count - 1], key, vmap) then [count - 1] else [])
  }

  /** The outer loop over the keys in dict order: the indices of all emitted polygons, in order. */
  function EmittedPolys(keys: seq<nat>, polys: seq<seq<nat>>, vmap: map<nat, nat>): (r: seq<nat>)
    ensures forall p :: p in r ==> p < |polys|
    decreases |keys|
  {
    if keys == [] then []
    else
      var last := |keys| - 1;
      EmittedPolys(keys[..last], polys, vmap) + MatchingPolys(polys, keys[last], vmap, |polys|)
  }

  /** Every polygon one key's pass emits lies among the first `count`, contains the key and is fully
      mapped. */
  lemma {:induction false} MatchingPolysSound(polys: seq<seq<nat>>, key: nat, vmap: map<nat, nat>, count: nat)
    requires count <= |polys|
    ensures forall i :: 0 <= i < |MatchingPolys(polys, key, vmap, count)| ==>
      MatchingPolys(polys, key, vmap, count)[i] < count &&
      Qualifies(polys[MatchingPolys(polys, key, vmap, count)[i]], key, vmap)
    decreases count
  {
    if count > 0 {
      var init := MatchingPolys(polys, key, vmap, count - 1);
      var r := MatchingPolys(polys, key, vmap, count);
      MatchingPolysSound(polys, key, vmap, count - 1);
      assert r == init + (if Qualifies(polys[count - 1], key, vmap) then [count - 1] else []);
      forall i | 0 <= i < |r| ensures r[i] < count && Qualifies(polys[r[i]], key, vmap) {
        if i < |init| {
          assert r[i] == init[i];
        }
      }
    }
  }

  /** Every polygon the face loop emits is a polygon of the mesh whose vertices are all mapped. */
  lemma {:induction false} EmittedPolysSound(keys: seq<nat>, polys: seq<seq<nat>>, vmap: map<nat, nat>)
    ensures forall i :: 0 <= i < |EmittedPolys(keys, polys, vmap)| ==>
      EmittedPolys(keys, polys, vmap)[i] < |polys| && AllMapped(polys[EmittedPolys(keys, polys, vmap)[i]], vmap)
    decreases |keys|
  {
    if keys != [] {
      var last := |keys| - 1;
      var a := EmittedPolys(keys[..last], polys, vmap);
      var b := MatchingPolys(polys, keys[last], vmap, |polys|);
      var r := EmittedPolys(keys, polys, vmap);
      EmittedPolysSound(keys[..last], polys, vmap);
      MatchingPolysSound(polys, keys[last], vmap, |polys|);
      assert r == a + b;
      forall i | 0 <= i < |r| ensures r[i] < |polys| && AllMapped(polys[r[i]], vmap) {
        if i < |a| {
          assert r[i] == a[i];
        } else {
          assert r[i] == b[i - |a|];
        }
      }
    }
  }

  /** `faces` are the translations of the polygons indexed by `emitted`, in the same order. */
  ghost predicate Translates(faces: seq<seq<nat>>, emitted: seq<nat>, polys: seq<seq<nat>>, vmap: map<nat, nat>) {
    && |faces| == |emitted|
    && forall i :: 0 <= i < |emitted| ==>
         emitted[i] < |polys| && AllMapped(polys[emitted[i]], vmap) && faces[i] == Translate(polys[emitted[i]], vmap)
  }

  /** Emitting one more fully mapped polygon keeps the correspondence. */
  lemma TranslatesSnoc(faces: seq<seq<nat>>, emitted: seq<nat>, polys: seq<seq<nat>>, vmap: map<nat, nat>, p: nat)
    requires Translates(faces, emitted, polys, vmap)
    requires p < |polys| && AllMapped(polys[p], vmap)
    ensures Translates(faces + [Translate(polys[p], vmap)], emitted + [p], polys, vmap)
  {
  }

  /** The face loop of the generator: for each key of the map in insertion order, for each source
      polygon in order, emit the translated polygon when it contains the key and is fully mapped.
      The list of already emitted polygon indices is never appended to, so its test never fires. */
  method CloseFaces(mesh: SourceMesh, vertexMap: Dict) returns (newFaces: seq<seq<nat>>)
    ensures Translates(newFaces, EmittedPolys(vertexMap.order, mesh.polys, vertexMap.entries), mesh.polys, vertexMap.entries)
  {
    var polys := mesh.polys;
    var vm := vertexMap.entries;
    var keys := vertexMap.order;
    newFaces := [];
    var oldPolyIndexProcessed: seq<nat> := [];
    for k := 0 to |keys|
      invariant oldPolyIndexProcessed == []
      invariant Translates(newFaces, EmittedPolys(keys[..k], polys, vm), polys, vm)
    {
      var oldIndex := keys[k];
      ghost var before := EmittedPolys(keys[..k], polys, vm);
      for p := 0 to |polys|
        invariant Translates(newFaces, before + MatchingPolys(polys, oldIndex, vm, p), polys, vm)
      {
        var poly := polys[p];
        ghost var sofar := before + MatchingPolys(polys, oldIndex, vm, p);
        assert before + MatchingPolys(polys, oldIndex, vm, p + 1) ==
          sofar + (if Qualifies(poly, oldIndex, vm) then [p] else []);
        if Contains(poly, oldIndex) {
          var polyOk := forall a :: a in poly ==> a in vm;
          if polyOk && !Contains(oldPolyIndexProcessed, p) {
            var newPoly := Translate(poly, vm);
            TranslatesSnoc(newFaces, sofar, polys, vm, p);
            newFaces := newFaces + [newPoly];
          }
        }
      }
      assert keys[..k + 1][..k] == keys[..k];
    }
    assert keys[..|keys|] == keys;
  }

  /** Within one key's pass, polygon `p` is emitted once if it qualifies and not at all otherwise. */
  lemma {:induction false} MatchingCount(polys: seq<seq<nat>>, key: nat, vmap: map<nat, nat>, count: nat, p: nat)
    requires count <= |polys|
    ensures multiset(MatchingPolys(polys, key, vmap, count))[p] ==
              if p < count && Qualifies(polys[p], key, vmap) then 1 else 0
    decreases count
  {
    if count > 0 {
      var init := MatchingPolys(polys, key, vmap, count - 1);
      var q := Qualifies(polys[count - 1], key, vmap);
      var tail: seq<nat> := if q then [count - 1] else [];
      MatchingCount(polys, key, vmap, count - 1, p);
      assert MatchingPolys(polys, key, vmap, count) == init + tail;
      assert multiset(tail)[p] == if q && p == count - 1 then 1 else 0;
      assert multiset(init + tail) == multiset(init) + multiset(tail);
    }
  }

  /** The keys whose pass emits polygon `p`. */
  ghost function KeysEmitting(keys: seq<nat>, poly: seq<nat>, vmap: map<nat, nat>): set<nat> {
    set k | k in keys && Qualifies(poly, k, vmap)
  }

  /** Adding one key to the end adds it to the emitting keys exactly when it qualifies, so over
      distinct keys the count goes up by one exactly then. */
  lemma KeysEmittingSnoc(keys: seq<nat>, k: nat, poly: seq<nat>, vmap: map<nat, nat>)
    requires k !in keys
    ensures |KeysEmitting(keys + [k], poly, vmap)| ==
      |KeysEmitting(keys, poly, vmap)| + (if Qualifies(poly, k, vmap) then 1 else 0)
  {
    var before := KeysEmitting(keys, poly, vmap);
    var extra: set<nat> := if Qualifies(poly, k, vmap) then {k} else {};
    assert KeysEmitting(keys + [k], poly, vmap) == before + extra;
    assert before !! extra;
  }

  /** The emitted indices for a key list ending in `k`: those for the rest, then `k`'s pass. */
  lemma EmittedSnoc(keys: seq<nat>, polys: seq<seq<nat>>, vmap: map<nat, nat>, p: nat)
    requires keys != []
    ensures multiset(EmittedPolys(keys, polys, vmap))[p] ==
      multiset(EmittedPolys(keys[..|keys| - 1], polys, vmap))[p] +
      multiset(MatchingPolys(polys, keys[|keys| - 1], vmap, |polys|))[p]
  {
    var a := EmittedPolys(keys[..|keys| - 1], polys, vmap);
    var b := MatchingPolys(polys, keys[|keys| - 1], vmap, |polys|);
    assert EmittedPolys(keys, polys, vmap) == a + b;
    assert multiset(a + b) == multiset(a) + multiset(b);
  }

  /** Over distinct keys, polygon `p` is emitted once for each key whose pass it qualifies in. */
  lemma {:induction false} EmittedCount(keys: seq<nat>, polys: seq<seq<nat>>, vmap: map<nat, nat>, p: nat)
    requires forall i, j :: 0 <= i < j < |keys| ==> keys[i] != keys[j]
    requires p < |polys|
    ensures multiset(EmittedPolys(keys, polys, vmap))[p] == |KeysEmitting(keys, polys[p], vmap)|
    decreases |keys|
  {
    if keys == [] {
      assert KeysEmitting(keys, polys[p], vmap) == {};
    } else {
      var last := |keys| - 1;
      var init := keys[..last];
      var k := keys[last];
      EmittedCount(init, polys, vmap, p);
      MatchingCount(polys, k, vmap, |polys|, p);
      EmittedSnoc(keys, polys, vmap, p);
      assert k !in init by {
        forall i | 0 <= i < last ensures init[i] != k { }
      }
      KeysEmittingSnoc(init, k, polys[p], vmap);
      assert init + [k] == keys;
    }
  }

  /** The duplicate-face quirk: a fully mapped polygon is emitted once per distinct vertex it has,
      and a polygon with an unmapped vertex is never emitted. */
  lemma FaceMultiplicity(vertexMap: Dict, polys: seq<seq<nat>>, p: nat)
    requires vertexMap.Valid() && p < |polys|
    ensures multiset(EmittedPolys(vertexMap.order, polys, vertexMap.entries))[p] ==
              if AllMapped(polys[p], vertexMap.entries) then |set v | v in polys[p]| else 0
  {
    EmittedCount(vertexMap.order, polys, vertexMap.entries, p);
    if AllMapped(polys[p], vertexMap.entries) {
      assert KeysEmitting(vertexMap.order, polys[p], vertexMap.entries) == set v | v in polys[p];
    } else {
      assert KeysEmitting(vertexMap.order, polys[p], vertexMap.entries) == {};
    }
  }

  /** So every fully mapped polygon with at least one vertex is emitted, and a triangle on three
      admitted vertices yields three identical faces. */
  lemma FaceEmitted(vertexMap: Dict, polys: seq<seq<nat>>, p: nat)
    requires vertexMap.Valid() && p < |polys|
    requires AllMapped(polys[p], vertexMap.entries) && |polys[p]| > 0
    ensures p in EmittedPolys(vertexMap.order, polys, vertexMap.entries)
  {
    FaceMultiplicity(vertexMap, polys, p);
    var vs := set v | v in polys[p];
    assert polys[p][0] in vs;
    assert |vs| > 0;
    assert p in multiset(EmittedPolys(vertexMap.order, polys, vertexMap.entries));
  }

  /** Output faces point back at their source polygons: every index in a face is an output vertex
      made from the source vertex at the same position of the polygon it was translated from. */
  lemma FacesRoundTrip(faces: seq<seq<nat>>, emitted: seq<nat>, polys: seq<seq<nat>>, vmap: map<nat, nat>, verts: seq<nat>)
    requires Translates(faces, emitted, polys, vmap)
    requires forall k :: k in vmap ==> vmap[k] < |verts| && verts[vmap[k]] == k
    ensures forall i, j :: 0 <= i < |faces| && 0 <= j < |faces[i]| ==>
      faces[i][j] < |verts| && verts[faces[i][j]] == polys[emitted[i]][j]
  {
    forall i, j | 0 <= i < |faces| && 0 <= j < |faces[i]|
      ensures faces[i][j] < |verts| && verts[faces[i][j]] == polys[emitted[i]][j]
    {
      assert polys[emitted[i]][j] in polys[emitted[i]];
    }
  }
}
