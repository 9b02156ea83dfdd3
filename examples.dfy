/** A concrete run of the traversal showing the re-admission quirk: two selected, upward-facing
    vertices joined by one edge. Both are seeded; popping vertex 1 finds vertex 0 only pending,
    so vertex 0 is admitted a second time and its seeded output vertex is left without a key. */
module Examples {
  import opened MeshModel
  import opened Scans
  import opened Traversal

  const TwoSeeds := SourceMesh([true, true], [true, true], [(0, 1)], [])

  /** The states of the run: after seeding, and after each of the three iterations. */
  const Seeded := Walk([], [(0, 0), (1, 1)], [0, 1], [], Dict(map[0 := 0, 1 := 1], [0, 1]))
  const AfterPop1 := Walk([1], [(0, 0), (0, 2)], [0, 1, 0], [(1, 2)], Dict(map[0 := 2, 1 := 1], [0, 1]))
  const AfterPop2 := Walk([1, 0], [(0, 0)], [0, 1, 0], [(1, 2)], Dict(map[0 := 2, 1 := 1], [0, 1]))
  const AfterPop3 := Walk([1, 0, 0], [], [0, 1, 0], [(1, 2), (1, 0)], Dict(map[0 := 2, 1 := 1], [0, 1]))

  /** The states just after each pop, before the neighbour loop runs. */
  const Popped1 := Walk([1], [(0, 0)], [0, 1], [], Dict(map[0 := 0, 1 := 1], [0, 1]))
  const Popped2 := Walk([1, 0], [(0, 0)], [0, 1, 0], [(1, 2)], Dict(map[0 := 2, 1 := 1], [0, 1]))
  const Popped3 := Walk([1, 0, 0], [], [0, 1, 0], [(1, 2)], Dict(map[0 := 2, 1 := 1], [0, 1]))

  /** The seeds of the two-vertex mesh and the neighbours of each vertex. */
  lemma ExampleScans()
    ensures Seeds(TwoSeeds) == [0, 1]
    ensures ConnectedVerts(TwoSeeds.edges, 1) == [0]
    ensures ConnectedVerts(TwoSeeds.edges, 0) == [1]
  {
    assert [true, true][..1] == [true] && [true][..0] == [];
    assert [(0, 1)][..0] == [];
  }

  /** Seeding produces `Seeded`. */
  lemma ExampleSeeded()
    ensures SeedState(TwoSeeds, Seeded)
  {
    ExampleScans();
  }

  /** The neighbour loop over a single neighbour is one `Visit`. */
  lemma VisitAllSingle(mesh: SourceMesh, w: Walk, b: int, m: nat)
    requires m < |mesh.upward|
    ensures VisitAll(mesh, w, b, [m]) == Visit(mesh, w, b, m)
  {
    assert [m][1..] == [];
  }

  /** The first iteration pops seed 1 and visits its one neighbour, 0. */
  lemma ExamplePop1()
    ensures Step(TwoSeeds, Seeded) == Visit(TwoSeeds, Popped1, 1, 0)
  {
    ExampleScans();
    assert Seeded.process[..1] == [(0, 0)];
    assert Seeded.(process := Seeded.process[..1], visited := Seeded.visited + [1]) == Popped1;
    VisitAllSingle(TwoSeeds, Popped1, 1, 0);
  }

  /** The second iteration pops the re-pushed 0 and visits its one neighbour, 1. */
  lemma ExamplePop2()
    ensures Step(TwoSeeds, AfterPop1) == Visit(TwoSeeds, Popped2, 2, 1)
  {
    ExampleScans();
    assert AfterPop1.process[..1] == [(0, 0)];
    assert AfterPop1.(process := AfterPop1.process[..1], visited := AfterPop1.visited + [0]) == Popped2;
    VisitAllSingle(TwoSeeds, Popped2, 2, 1);
  }

  /** The third iteration pops seed 0's original entry and visits its one neighbour, 1. */
  lemma ExamplePop3()
    ensures Step(TwoSeeds, AfterPop2) == Visit(TwoSeeds, Popped3, 0, 1)
  {
    ExampleScans();
    assert AfterPop2.process[..0] == [];
    assert AfterPop2.(process := AfterPop2.process[..0], visited := AfterPop2.visited + [0]) == Popped3;
    VisitAllSingle(TwoSeeds, Popped3, 0, 1);
  }

  /** Popping seed 1: seed 0 is still pending, so it is pushed again with a fresh output vertex 2,
      and the map entry for 0 moves from 0 to 2. */
  lemma ExampleFirstPop()
    ensures Visit(TwoSeeds, Popped1, 1, 0) == AfterPop1
  {
    assert !IsProcessed([1], [(0, 0)], 0);
    assert map[0 := 0, 1 := 1][0 := 2] == map[0 := 2, 1 := 1];
  }

  /** Popping the re-pushed 0: its neighbour 1 is visited and the pair (2, 1) is already an edge. */
  lemma ExampleSecondPop()
    ensures Visit(TwoSeeds, Popped2, 2, 1) == AfterPop2
  {
    assert IsProcessed([1, 0], [(0, 0)], 1);
    assert InEdges([(1, 2)], 1, 2) by {
      assert WithinPair((1, 2), 1, 2);
    }
  }

  /** Popping the original seed entry of 0: the cycle-closing edge joins 1 to the stale anchor 0. */
  lemma ExampleThirdPop()
    ensures Visit(TwoSeeds, Popped3, 0, 1) == AfterPop3
  {
    assert IsProcessed([1, 0, 0], [], 1);
    assert !InEdges([(1, 2)], 1, 0) by {
      assert !WithinPair((1, 2), 1, 0);
    }
  }

  /** The run ends with an orphan: output vertex 0 is the value of no key, yet an edge ends at it,
      and source vertex 0 has two output vertices. */
  lemma TwoSeedsLeaveOrphan()
    ensures SeedState(TwoSeeds, Seeded)
    ensures Step(TwoSeeds, Seeded) == AfterPop1
    ensures Step(TwoSeeds, AfterPop1) == AfterPop2
    ensures Step(TwoSeeds, AfterPop2) == AfterPop3
    ensures AfterPop3.process == []
    ensures forall k :: k in AfterPop3.vmap.entries ==> AfterPop3.vmap.entries[k] != 0
    ensures AfterPop3.edges[1].1 == 0
    ensures AfterPop3.verts[0] == AfterPop3.verts[2] == 0
  {
    ExampleSeeded();
    ExamplePop1();
    ExamplePop2();
    ExamplePop3();
    ExampleFirstPop();
    ExampleSecondPop();
    ExampleThirdPop();
  }
}
