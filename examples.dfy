/**
 The concrete graphs exercised by test.py, stated as facts about the
 specification: which orderings are valid, and which graphs have a cycle.
 Together with the contracts of TopologicalSort, IsAcyclicDFS and
 IsAcyclicTopological they determine what each call returns on these inputs.
 */
module Examples {
  import opened Graphs

  /** The empty graph is acyclic and its only valid ordering is empty. */
  lemma EmptyGraph(s: seq<int>)
    ensures !HasCycle<int>(map[])
    ensures ValidOrder(map[], s) <==> s == []
  {
    var g: Graph<int> := map[];
    assert Nodes(g) == {};
    if ValidOrder(g, s) {
      DistinctElemsCard(s);
    }
    assert Elems<int>([]) == {};
    OrderForbidsCycle(g, []);
  }

  /** A self-loop is a cycle of length one. */
  lemma SelfLoopIsCyclic()
    ensures HasCycle(map[0 := {0}])
  {
    var g := map[0 := {0}];
    assert IsCycle(g, [0, 0]);
  }

  /** {0: {1}, 1: {2}}: the chain has exactly one valid ordering, [2, 1, 0]. */
  lemma ChainOrderIsUnique(s: seq<int>)
    ensures ValidOrder(map[0 := {1}, 1 := {2}], s) <==> s == [2, 1, 0]
  {
    var g := map[0 := {1}, 1 := {2}];
    ChainNodes();
    if ValidOrder(g, s) {
      ChainOrderForced(s);
    } else {
      ChainOrderValid();
    }
  }

  lemma ChainNodes()
    ensures Nodes(map[0 := {1}, 1 := {2}]) == {0, 1, 2}
  {
    var g := map[0 := {1}, 1 := {2}];
    assert 2 in g[1];
  }

  lemma ChainOrderValid()
    ensures ValidOrder(map[0 := {1}, 1 := {2}], [2, 1, 0])
  {
    var g := map[0 := {1}, 1 := {2}];
    var t := [2, 1, 0];
    ChainNodes();
    assert Elems(t) == {0, 1, 2} by {
      assert t[0] == 2 && t[1] == 1 && t[2] == 0;
    }
    assert Deps(g, 2) == {};
  }

  lemma ChainOrderForced(s: seq<int>)
    requires ValidOrder(map[0 := {1}, 1 := {2}], s)
    ensures s == [2, 1, 0]
  {
    var g := map[0 := {1}, 1 := {2}];
    ChainNodes();
    DistinctElemsCard(s);
    assert |s| == 3;
    assert 0 in Elems(s) && 1 in Elems(s) && 2 in Elems(s);
    var i0 :| 0 <= i0 < |s| && s[i0] == 0;
    var i1 :| 0 <= i1 < |s| && s[i1] == 1;
    var i2 :| 0 <= i2 < |s| && s[i2] == 2;
    assert s[i1] in Deps(g, s[i0]);
    assert s[i2] in Deps(g, s[i1]);
    assert i2 == 0 && i1 == 1 && i0 == 2;
  }

  /** The cyclic graphs of the tests: a 2-cycle, one with extra edges, one beside a disjoint acyclic part, a 4-cycle, and one with tails. */
  lemma TestCyclesAreCyclic()
    ensures HasCycle(map[0 := {1}, 1 := {0}])
    ensures HasCycle(map[0 := {1, 2}, 1 := {0, 3}])
    ensures HasCycle(map[0 := {1}, 1 := {0}, 3 := {4, 5}])
    ensures HasCycle(map[0 := {1}, 1 := {2}, 2 := {3}, 3 := {0}])
    ensures HasCycle(map[-1 := {0}, 0 := {1}, 1 := {2}, 2 := {3}, 3 := {0, 4}])
  {
    assert IsCycle(map[0 := {1}, 1 := {0}], [0, 1, 0]);
    assert IsCycle(map[0 := {1, 2}, 1 := {0, 3}], [0, 1, 0]);
    assert IsCycle(map[0 := {1}, 1 := {0}, 3 := {4, 5}], [0, 1, 0]);
    assert IsCycle(map[0 := {1}, 1 := {2}, 2 := {3}, 3 := {0}], [0, 1, 2, 3, 0]);
    assert IsCycle(map[-1 := {0}, 0 := {1}, 1 := {2}, 2 := {3}, 3 := {0, 4}], [0, 1, 2, 3, 0]);
  }

  /** {0: {1}, 1: {2, 3}, 2: {4}, 3: {4}}: the only valid orderings are [4, 3, 2, 1, 0] and [4, 2, 3, 1, 0]. */
  lemma MergeOrders(s: seq<int>)
    ensures ValidOrder(map[0 := {1}, 1 := {2, 3}, 2 := {4}, 3 := {4}], s) <==> s == [4, 3, 2, 1, 0] || s == [4, 2, 3, 1, 0]
  {
    MergeNodes();
    if ValidOrder(map[0 := {1}, 1 := {2, 3}, 2 := {4}, 3 := {4}], s) {
      MergeOrderForced(s);
    } else {
      MergeOrderValid(3, 2);
      MergeOrderValid(2, 3);
    }
  }

  lemma MergeDeps()
    ensures var g := map[0 := {1}, 1 := {2, 3}, 2 := {4}, 3 := {4}];
      Deps(g, 0) == {1} && Deps(g, 1) == {2, 3} && Deps(g, 2) == {4} && Deps(g, 3) == {4} && Deps(g, 4) == {}
  {
  }

  lemma MergeNodes()
    ensures Nodes(map[0 := {1}, 1 := {2, 3}, 2 := {4}, 3 := {4}]) == {0, 1, 2, 3, 4}
  {
    var g := map[0 := {1}, 1 := {2, 3}, 2 := {4}, 3 := {4}];
    assert 4 in g[2];
  }

  /** [4, x, y, 1, 0] with x, y being 2 and 3 in either order is valid for the merge. */
  lemma MergeOrderValid(x: int, y: int)
    requires (x == 2 && y == 3) || (x == 3 && y == 2)
    ensures ValidOrder(map[0 := {1}, 1 := {2, 3}, 2 := {4}, 3 := {4}], [4, x, y, 1, 0])
  {
    var g := map[0 := {1}, 1 := {2, 3}, 2 := {4}, 3 := {4}];
    var t := [4, x, y, 1, 0];
    MergeNodes();
    MergeDeps();
    assert Elems(t) == {0, 1, 2, 3, 4} by {
      assert t[0] == 4 && t[1] == x && t[2] == y && t[3] == 1 && t[4] == 0;
    }
    assert Deps(g, x) == {4} && Deps(g, y) == {4};
    forall i, j | 0 <= i < |t| && 0 <= j < |t| && t[j] in Deps(g, t[i]) ensures j < i {
      assert i != 0;
    }
  }

  lemma MergeOrderForced(s: seq<int>)
    requires ValidOrder(map[0 := {1}, 1 := {2, 3}, 2 := {4}, 3 := {4}], s)
    ensures s == [4, 3, 2, 1, 0] || s == [4, 2, 3, 1, 0]
  {
    var g := map[0 := {1}, 1 := {2, 3}, 2 := {4}, 3 := {4}];
    MergeNodes();
    MergeDeps();
    DistinctElemsCard(s);
    assert |s| == 5;
    assert 0 in Elems(s) && 1 in Elems(s) && 2 in Elems(s) && 3 in Elems(s) && 4 in Elems(s);
    var i0 :| 0 <= i0 < |s| && s[i0] == 0;
    var i1 :| 0 <= i1 < |s| && s[i1] == 1;
    var i2 :| 0 <= i2 < |s| && s[i2] == 2;
    var i3 :| 0 <= i3 < |s| && s[i3] == 3;
    var i4 :| 0 <= i4 < |s| && s[i4] == 4;
    assert s[i1] in Deps(g, s[i0]);
    assert s[i2] in Deps(g, s[i1]) && s[i3] in Deps(g, s[i1]);
    assert s[i4] in Deps(g, s[i2]) && s[i4] in Deps(g, s[i3]);
    MergePositions(s, i0, i1, i2, i3, i4);
  }

  /** Five distinct positions ordered as the merge's edges demand leave only two sequences. */
  lemma MergePositions(s: seq<int>, i0: int, i1: int, i2: int, i3: int, i4: int)
    requires |s| == 5
    requires 0 <= i0 < 5 && 0 <= i1 < 5 && 0 <= i2 < 5 && 0 <= i3 < 5 && 0 <= i4 < 5
    requires s[i0] == 0 && s[i1] == 1 && s[i2] == 2 && s[i3] == 3 && s[i4] == 4
    requires i1 < i0 && i2 < i1 && i3 < i1 && i4 < i2 && i4 < i3
    ensures s == [4, 3, 2, 1, 0] || s == [4, 2, 3, 1, 0]
  {
    assert i4 == 0 && i1 == 3 && i0 == 4;
    if i2 == 1 {
      assert s == [4, 2, 3, 1, 0];
    } else {
      assert s == [4, 3, 2, 1, 0];
    }
  }

  /** The acyclic graphs of the tests have no cycle: each one has a valid ordering. */
  lemma TestAcyclicGraphsAreAcyclic()
    ensures !HasCycle(map[0 := {1}])
    ensures !HasCycle(map[0 := {1}, 1 := {2}])
    ensures !HasCycle(map[0 := {1}, 2 := {1}, 1 := {3}])
    ensures !HasCycle(map[0 := {1}, 1 := {2, 3}, 2 := {4}, 3 := {4}])
    ensures !HasCycle(map[0 := {1}, 1 := {2, 3}, 2 := {4}, 3 := {4}, 5 := {6}])
  {
    EdgeOrderValid();
    OrderForbidsCycle(map[0 := {1}], [1, 0]);
    ChainOrderValid();
    OrderForbidsCycle(map[0 := {1}, 1 := {2}], [2, 1, 0]);
    JoinRank();
    MergeOrderValid(3, 2);
    OrderForbidsCycle(map[0 := {1}, 1 := {2, 3}, 2 := {4}, 3 := {4}], [4, 3, 2, 1, 0]);
    DisjointRank();
  }

  /** In {0: {1}, 2: {1}, 1: {3}} every edge lowers the rank 3 -> 0, 1 -> 1, 0 and 2 -> 2. */
  lemma JoinRank()
    ensures !HasCycle(map[0 := {1}, 2 := {1}, 1 := {3}])
  {
    var g := map[0 := {1}, 2 := {1}, 1 := {3}];
    var rank := (n: int) => if n == 3 then 0 else if n == 1 then 1 else 2;
    assert forall a, b :: b in Deps(g, a) ==> rank(b) < rank(a);
    RankForbidsCycle(g, rank);
  }

  /** In the merge beside the disjoint edge 5 -> 6 every edge goes to a larger node. */
  lemma DisjointRank()
    ensures !HasCycle(map[0 := {1}, 1 := {2, 3}, 2 := {4}, 3 := {4}, 5 := {6}])
  {
    var g := map[0 := {1}, 1 := {2, 3}, 2 := {4}, 3 := {4}, 5 := {6}];
    var rank := (n: int) => -n;
    assert forall a, b :: b in Deps(g, a) ==> rank(b) < rank(a);
    RankForbidsCycle(g, rank);
  }

  lemma EdgeOrderValid()
    ensures ValidOrder(map[0 := {1}], [1, 0])
  {
    var g := map[0 := {1}];
    var t := [1, 0];
    assert Nodes(g) == {0, 1} by {
      assert 1 in g[0];
    }
    assert Elems(t) == {0, 1} by {
      assert t[0] == 1 && t[1] == 0;
    }
  }

  /** {0: {1}}: the only valid ordering is [1, 0]. */
  lemma EdgeOrderIsUnique(s: seq<int>)
    ensures ValidOrder(map[0 := {1}], s) <==> s == [1, 0]
  {
    var g := map[0 := {1}];
    if ValidOrder(g, s) {
      assert Nodes(g) == {0, 1} by {
        assert 1 in g[0];
      }
      DistinctElemsCard(s);
      assert 0 in Elems(s) && 1 in Elems(s);
      var i0 :| 0 <= i0 < |s| && s[i0] == 0;
      var i1 :| 0 <= i1 < |s| && s[i1] == 1;
      assert s[i1] in Deps(g, s[i0]);
      assert i1 == 0 && i0 == 1;
    } else {
      EdgeOrderValid();
    }
  }

  /** {0: {1}, 1: {2, 3}}: the valid orderings are exactly [3, 2, 1, 0] and [2, 3, 1, 0]. */
  lemma ForkOrders(s: seq<int>)
    ensures ValidOrder(map[0 := {1}, 1 := {2, 3}], s) <==> s == [3, 2, 1, 0] || s == [2, 3, 1, 0]
  {
    if ValidOrder(map[0 := {1}, 1 := {2, 3}], s) {
      ForkOrderForced(s);
    } else {
      ForkOrderValid(3, 2);
      ForkOrderValid(2, 3);
    }
  }

  lemma ForkNodes()
    ensures Nodes(map[0 := {1}, 1 := {2, 3}]) == {0, 1, 2, 3}
  {
    var g := map[0 := {1}, 1 := {2, 3}];
    assert 2 in g[1] && 3 in g[1];
  }

  lemma ForkOrderValid(x: int, y: int)
    requires (x == 2 && y == 3) || (x == 3 && y == 2)
    ensures ValidOrder(map[0 := {1}, 1 := {2, 3}], [x, y, 1, 0])
  {
    var g := map[0 := {1}, 1 := {2, 3}];
    var t := [x, y, 1, 0];
    ForkNodes();
    assert Elems(t) == {0, 1, 2, 3} by {
      assert t[0] == x && t[1] == y && t[2] == 1 && t[3] == 0;
    }
    assert Deps(g, x) == {} && Deps(g, y) == {} && Deps(g, 1) == {2, 3} && Deps(g, 0) == {1};
    forall i, j | 0 <= i < |t| && 0 <= j < |t| && t[j] in Deps(g, t[i]) ensures j < i {
      assert i >= 2;
    }
  }

  lemma ForkOrderForced(s: seq<int>)
    requires ValidOrder(map[0 := {1}, 1 := {2, 3}], s)
    ensures s == [3, 2, 1, 0] || s == [2, 3, 1, 0]
  {
    var g := map[0 := {1}, 1 := {2, 3}];
    ForkNodes();
    DistinctElemsCard(s);
    assert |s| == 4;
    assert 0 in Elems(s) && 1 in Elems(s) && 2 in Elems(s) && 3 in Elems(s);
    var i0 :| 0 <= i0 < |s| && s[i0] == 0;
    var i1 :| 0 <= i1 < |s| && s[i1] == 1;
    var i2 :| 0 <= i2 < |s| && s[i2] == 2;
    var i3 :| 0 <= i3 < |s| && s[i3] == 3;
    assert s[i1] in Deps(g, s[i0]);
    assert s[i2] in Deps(g, s[i1]) && s[i3] in Deps(g, s[i1]);
    ForkPositions(s, i0, i1, i2, i3);
  }

  /** Four distinct positions ordered as the fork's edges demand leave only two sequences. */
  lemma ForkPositions(s: seq<int>, i0: int, i1: int, i2: int, i3: int)
    requires |s| == 4
    requires 0 <= i0 < 4 && 0 <= i1 < 4 && 0 <= i2 < 4 && 0 <= i3 < 4
    requires s[i0] == 0 && s[i1] == 1 && s[i2] == 2 && s[i3] == 3
    requires i1 < i0 && i2 < i1 && i3 < i1
    ensures s == [3, 2, 1, 0] || s == [2, 3, 1, 0]
  {
    assert i1 == 2 && i0 == 3;
    if i2 == 0 {
      assert s == [2, 3, 1, 0];
    } else {
      assert s == [3, 2, 1, 0];
    }
  }
}
