/**
 The graph-ordering engine of DAG_utils.py: node-set extraction, edge
 inversion, the frontier/counting topological sort, the recursive
 depth-first cycle check, and the two acyclicity predicates built on them.
 Each operation is proved against the specification vocabulary of module Graphs.
 */
module DagUtils {
  import opened Graphs
  import opened Wrappers

  /** Every key together with every member of every dependency set. */
  method EdgeDictToNodeSet<T(==)>(g: Graph<T>) returns (allNodes: set<T>)
    ensures forall n :: n in allNodes <==> n in g || exists a :: a in g && n in g[a]
    ensures allNodes == Nodes(g)
  {
    allNodes := {};
    var rest := g.Keys;
    while rest != {}
      invariant rest <= g.Keys
      invariant forall n :: n in allNodes <==> (n in g && n !in rest) || exists a :: a in g && a !in rest && n in g[a]
      decreases rest
    {
      var fromNode :| fromNode in rest;
      allNodes := allNodes + ({fromNode} + g[fromNode]);
      rest := rest - {fromNode};
    }
  }

  /**
   The reverse-dependency map: a is in the set of b exactly when b is a
   dependency of a. A node nothing depends on is not a key, so it looks up
   as the empty set.
   */
  method InvertEdgeDict<T(==)>(g: Graph<T>) returns (inv: Graph<T>)
    ensures forall a, b :: a in Deps(inv, b) <==> b in Deps(g, a)
    ensures forall b :: b in inv ==> inv[b] != {}
  {
    inv := map[];
    var rest := g.Keys;
    assert forall b :: Deps(inv, b) == {};
    while rest != {}
      invariant rest <= g.Keys
      invariant forall a, b :: a in Deps(inv, b) <==> a in g && a !in rest && b in g[a]
      invariant forall b :: b in inv ==> inv[b] != {}
      decreases rest
    {
      var fromNode :| fromNode in rest;
      var toNodes := g[fromNode];
      while toNodes != {}
        invariant toNodes <= g[fromNode]
        invariant forall a, b :: a in Deps(inv, b) <==>
          (a in g && a !in rest && b in g[a]) || (a == fromNode && b in g[fromNode] && b !in toNodes)
        invariant forall b :: b in inv ==> inv[b] != {}
        decreases toNodes
      {
        var toNode :| toNode in toNodes;
        ghost var old_inv := inv;
        if toNode in inv {
          inv := inv[toNode := inv[toNode] + {fromNode}];
        } else {
          inv := inv[toNode := {fromNode}];
        }
        assert forall b :: Deps(inv, b) == if b == toNode then Deps(old_inv, b) + {fromNode} else Deps(old_inv, b);
        toNodes := toNodes - {toNode};
      }
      rest := rest - {fromNode};
    }
  }

  /** The nodes with no dependencies: where the sort starts. */
  method TerminalNodes<T(==)>(g: Graph<T>, nodes: set<T>) returns (terminal: set<T>)
    ensures forall n :: n in terminal <==> n in nodes && Deps(g, n) == {}
  {
    terminal := {};
    var rest := nodes;
    while rest != {}
      invariant rest <= nodes
      invariant forall n :: n in terminal <==> n in nodes && n !in rest && Deps(g, n) == {}
      decreases rest
    {
      var n :| n in rest;
      if Deps(g, n) == {} {
        terminal := terminal + {n};
      }
      rest := rest - {n};
    }
  }

  /** Every node starts unplaced, with no dependency met. */
  method InitialMarks<T(==)>(nodes: set<T>) returns (added: map<T, bool>, met: map<T, nat>)
    ensures added.Keys == nodes && met.Keys == nodes
    ensures forall n :: n in nodes ==> !added[n] && met[n] == 0
  {
    added, met := map[], map[];
    var rest := nodes;
    while rest != {}
      invariant rest <= nodes
      invariant added.Keys == nodes - rest && met.Keys == nodes - rest
      invariant forall n :: n in added ==> !added[n] && met[n] == 0
      decreases rest
    {
      var n :| n in rest;
      added := added[n := false];
      met := met[n := 0];
      rest := rest - {n};
    }
  }

  /** Every dependant of the node just placed joins the frontier and has one more dependency met. */
  method PushDependants<T(==)>(dependants: set<T>, frontier: set<T>, met: map<T, nat>)
    returns (frontier': set<T>, met': map<T, nat>)
    requires dependants <= met.Keys
    ensures frontier' == frontier + dependants
    ensures met'.Keys == met.Keys
    ensures forall n :: n in met ==> met'[n] == met[n] + (if n in dependants then 1 else 0)
  {
    frontier', met' := frontier, met;
    var rest := dependants;
    while rest != {}
      invariant rest <= dependants
      invariant frontier' == frontier + (dependants - rest)
      invariant met'.Keys == met.Keys
      invariant forall n :: n in met ==> met'[n] == met[n] + (if n in dependants - rest then 1 else 0)
      decreases rest
    {
      var dependant :| dependant in rest;
      frontier' := frontier' + {dependant};
      met' := met'[dependant := met'[dependant] + 1];
      rest := rest - {dependant};
    }
  }

  /**
   Kahn-style sort. The frontier starts as the nodes without dependencies; a
   popped node is appended once the count of its placed dependencies reaches
   the size of its dependency set, and is skipped otherwise. The result is
   None exactly when the graph has a cycle.
   */
  method TopologicalSort<T(==,!new)>(g: Graph<T>) returns (r: Option<seq<T>>)
    ensures r.Some? ==> ValidOrder(g, r.value)
    ensures r.None? <==> HasCycle(g)
  {
    var order: seq<T> := [];
    var inv := InvertEdgeDict(g);
    var nodes := EdgeDictToNodeSet(g);
    var terminal := TerminalNodes(g, nodes);
    var added: map<T, bool>, met: map<T, nat> := InitialMarks(nodes);

    var frontier := terminal;
    SortingStarts(g, nodes, terminal, added, met);
    while frontier != {}
      invariant Sorting(g, nodes, order, added, met, frontier)
      decreases nodes - Elems(order), frontier
    {
      var current :| current in frontier;
      ReadyIffCountReached(g, nodes, order, added, met, frontier, current);
      if met[current] < |Deps(g, current)| {
        SkippingKeepsSorting(g, nodes, order, added, met, frontier, current);
        frontier := frontier - {current};
        continue;
      }
      ghost var order0, added0, met0, frontier0 := order, added, met, frontier;
      frontier := frontier - {current};
      order := order + [current];
      DependantsUnplaced(g, inv, nodes, order0, current);
      frontier, met := PushDependants(Deps(inv, current), frontier, met);
      added := added[current := true];
      PlacingKeepsSorting(g, inv, nodes, order0, added0, met0, frontier0, current, frontier, met);
    }

    SortingEnds(g, nodes, order, added, met);
    if !(forall n | n in added :: added[n]) {
      return None;
    }
    OrderForbidsCycle(g, order);
    return Some(order);
  }

  /** Every dependency of an element of s is itself an element of s. */
  ghost predicate DepsPlaced<T>(g: Graph<T>, s: seq<T>)
  {
    forall i :: 0 <= i < |s| ==> Deps(g, s[i]) <= Elems(s)
  }

  /** `order` is a duplicate-free prefix of a topological order of the nodes. */
  ghost predicate OrderPrefix<T>(g: Graph<T>, nodes: set<T>, order: seq<T>)
  {
    Distinct(order) && Elems(order) <= nodes && RespectsEdges(g, order) && DepsPlaced(g, order)
  }

  /** Node n is marked added exactly when it is placed, and its count is the number of its placed dependencies. */
  ghost predicate MarkedAndCounted<T>(g: Graph<T>, order: seq<T>, added: map<T, bool>, met: map<T, nat>, n: T)
  {
    n in added && n in met && (added[n] <==> n in Elems(order)) && met[n] == |Deps(g, n) * Elems(order)|
  }

  ghost predicate MarksAgree<T>(g: Graph<T>, nodes: set<T>, order: seq<T>, added: map<T, bool>, met: map<T, nat>)
  {
    && added.Keys == nodes && met.Keys == nodes
    && forall n {:trigger MarkedAndCounted(g, order, added, met, n)} ::
         n in nodes ==> MarkedAndCounted(g, order, added, met, n)
  }

  /** An unplaced node whose dependencies are all placed is waiting in the frontier. */
  ghost predicate ReadyIsWaiting<T>(g: Graph<T>, order: seq<T>, frontier: set<T>, n: T)
  {
    n !in Elems(order) && Deps(g, n) <= Elems(order) ==> n in frontier
  }

  /** The frontier holds only unplaced nodes, and every unplaced node whose dependencies are all placed. */
  ghost predicate FrontierComplete<T>(g: Graph<T>, nodes: set<T>, order: seq<T>, frontier: set<T>)
  {
    && frontier <= nodes && frontier !! Elems(order)
    && forall n {:trigger ReadyIsWaiting(g, order, frontier, n)} ::
         n in nodes ==> ReadyIsWaiting(g, order, frontier, n)
  }

  /** The invariant of the sort loop. */
  ghost predicate Sorting<T>(g: Graph<T>, nodes: set<T>, order: seq<T>, added: map<T, bool>,
                             met: map<T, nat>, frontier: set<T>)
  {
    && nodes == Nodes(g)
    && OrderPrefix(g, nodes, order)
    && MarksAgree(g, nodes, order, added, met)
    && FrontierComplete(g, nodes, order, frontier)
  }

  lemma SortingStarts<T>(g: Graph<T>, nodes: set<T>, terminal: set<T>, added: map<T, bool>, met: map<T, nat>)
    requires nodes == Nodes(g)
    requires forall n :: n in terminal <==> n in nodes && Deps(g, n) == {}
    requires added.Keys == nodes && met.Keys == nodes
    requires forall n :: n in nodes ==> !added[n] && met[n] == 0
    ensures Sorting(g, nodes, [], added, met, terminal)
  {
    var empty: seq<T> := [];
    assert Elems(empty) == {};
    forall n | n in nodes ensures MarkedAndCounted(g, empty, added, met, n) {
      assert Deps(g, n) * Elems(empty) == {};
    }
    forall n | n in nodes ensures ReadyIsWaiting(g, empty, terminal, n) {
    }
  }

  /** A popped node is ready exactly when its count has reached the size of its dependency set. */
  lemma ReadyIffCountReached<T>(g: Graph<T>, nodes: set<T>, order: seq<T>, added: map<T, bool>,
                                met: map<T, nat>, frontier: set<T>, x: T)
    requires Sorting(g, nodes, order, added, met, frontier) && x in frontier
    ensures x in met && x in nodes && x !in Elems(order)
    ensures met[x] < |Deps(g, x)| <==> !(Deps(g, x) <= Elems(order))
  {
    assert MarkedAndCounted(g, order, added, met, x);
    CountReachesAll(Deps(g, x), Elems(order));
  }

  /** Dropping a node that is not ready from the frontier keeps the invariant. */
  lemma SkippingKeepsSorting<T>(g: Graph<T>, nodes: set<T>, order: seq<T>, added: map<T, bool>,
                                met: map<T, nat>, frontier: set<T>, x: T)
    requires Sorting(g, nodes, order, added, met, frontier) && x in frontier
    requires !(Deps(g, x) <= Elems(order))
    ensures Sorting(g, nodes, order, added, met, frontier - {x})
  {
    forall n | n in nodes ensures ReadyIsWaiting(g, order, frontier - {x}, n) {
      assert ReadyIsWaiting(g, order, frontier, n);
    }
  }

  /** Appending a ready node, pushing its dependants and marking it added keeps the invariant. */
  lemma PlacingKeepsSorting<T>(g: Graph<T>, inv: Graph<T>, nodes: set<T>, order: seq<T>, added: map<T, bool>,
                               met: map<T, nat>, frontier: set<T>, x: T, frontier': set<T>, met': map<T, nat>)
    requires Sorting(g, nodes, order, added, met, frontier) && x in frontier
    requires forall a, b :: a in Deps(inv, b) <==> b in Deps(g, a)
    requires Deps(g, x) <= Elems(order)
    requires frontier' == (frontier - {x}) + Deps(inv, x)
    requires met'.Keys == met.Keys
    requires forall n :: n in met ==> met'[n] == met[n] + (if n in Deps(inv, x) then 1 else 0)
    ensures Sorting(g, nodes, order + [x], added[x := true], met', frontier')
    ensures Elems(order + [x]) == Elems(order) + {x} && x in nodes && x !in Elems(order)
  {
    ElemsAppend(order, x);
    DependantsUnplaced(g, inv, nodes, order, x);
    PlacingKeepsPrefix(g, nodes, order, x);
    PlacingKeepsFrontier(g, inv, nodes, order, frontier, x, frontier');
    PlacingKeepsMarks(g, inv, nodes, order, added, met, x, met');
  }

  /** When the frontier is empty, either every node is marked added and the ordering is valid, or there is a cycle. */
  lemma SortingEnds<T(!new)>(g: Graph<T>, nodes: set<T>, order: seq<T>, added: map<T, bool>, met: map<T, nat>)
    requires Sorting(g, nodes, order, added, met, {})
    ensures (forall n :: n in added ==> added[n]) ==> ValidOrder(g, order)
    ensures !(forall n :: n in added ==> added[n]) ==> HasCycle(g)
  {
    if forall n :: n in added ==> added[n] {
      forall n | n in nodes ensures n in Elems(order) {
        assert MarkedAndCounted(g, order, added, met, n);
      }
    } else {
      var n :| n in added && !added[n];
      assert MarkedAndCounted(g, order, added, met, n);
      forall m | m in Nodes(g) && m !in Elems(order) ensures !(Deps(g, m) <= Elems(order)) {
        assert ReadyIsWaiting(g, order, {}, m);
      }
      StuckImpliesCycle(g, Elems(order), n);
    }
  }

  /** The nodes that depend on a ready, unplaced x are nodes of the graph and are themselves unplaced. */
  lemma DependantsUnplaced<T>(g: Graph<T>, inv: Graph<T>, nodes: set<T>, order: seq<T>, x: T)
    requires nodes == Nodes(g) && DepsPlaced(g, order)
    requires forall a, b :: a in Deps(inv, b) <==> b in Deps(g, a)
    requires x !in Elems(order) && Deps(g, x) <= Elems(order)
    ensures Deps(inv, x) <= nodes && Deps(inv, x) !! Elems(order + [x])
  {
    ElemsAppend(order, x);
    forall d | d in Deps(inv, x) ensures d in nodes && d !in Elems(order + [x]) {
      assert x in Deps(g, d);
      DepsInNodes(g, d);
    }
  }

  /** Appending a node that is unplaced and whose dependencies are all placed extends the prefix. */
  lemma PlacingKeepsPrefix<T>(g: Graph<T>, nodes: set<T>, order: seq<T>, x: T)
    requires OrderPrefix(g, nodes, order)
    requires x in nodes && x !in Elems(order) && Deps(g, x) <= Elems(order)
    ensures OrderPrefix(g, nodes, order + [x])
  {
    var order' := order + [x];
    ElemsAppend(order, x);
    forall i, j | 0 <= i < |order'| && 0 <= j < |order'| && order'[j] in Deps(g, order'[i])
      ensures j < i
    {
      if i < |order| && j < |order| {
        assert order[j] in Deps(g, order[i]);
      }
    }
  }

  /** After placing x and pushing its dependants, the frontier again holds exactly what it must. */
  lemma PlacingKeepsFrontier<T>(g: Graph<T>, inv: Graph<T>, nodes: set<T>, order: seq<T>, frontier: set<T>,
                                x: T, frontier': set<T>)
    requires FrontierComplete(g, nodes, order, frontier) && x in frontier
    requires forall a, b :: a in Deps(inv, b) <==> b in Deps(g, a)
    requires Deps(inv, x) <= nodes && Deps(inv, x) !! Elems(order + [x])
    requires frontier' == (frontier - {x}) + Deps(inv, x)
    ensures FrontierComplete(g, nodes, order + [x], frontier')
  {
    ElemsAppend(order, x);
    forall n | n in nodes ensures ReadyIsWaiting(g, order + [x], frontier', n) {
      assert ReadyIsWaiting(g, order, frontier, n);
      if n !in Elems(order + [x]) && Deps(g, n) <= Elems(order + [x]) && x !in Deps(g, n) {
        assert Deps(g, n) <= Elems(order);
      }
    }
  }

  /** After placing x, the marks follow the new ordering and the counts have gone up exactly for the dependants of x. */
  lemma PlacingKeepsMarks<T>(g: Graph<T>, inv: Graph<T>, nodes: set<T>, order: seq<T>, added: map<T, bool>,
                             met: map<T, nat>, x: T, met': map<T, nat>)
    requires MarksAgree(g, nodes, order, added, met)
    requires forall a, b :: a in Deps(inv, b) <==> b in Deps(g, a)
    requires x in nodes && x !in Elems(order)
    requires met'.Keys == met.Keys
    requires forall n :: n in met ==> met'[n] == met[n] + (if n in Deps(inv, x) then 1 else 0)
    ensures MarksAgree(g, nodes, order + [x], added[x := true], met')
  {
    ElemsAppend(order, x);
    forall n | n in nodes ensures MarkedAndCounted(g, order + [x], added[x := true], met', n) {
      assert MarkedAndCounted(g, order, added, met, n);
      CountAfterPlacing(Deps(g, n), Elems(order), x);
    }
  }

  /**
   The closure of the recursive helper: the graph and the set of nodes on the
   path being explored, which every recursive call shares and updates in place.
   */
  class PathSearch<T(==,!new)> {
    const g: Graph<T>
    var seen: set<T>

    constructor (g: Graph<T>)
      ensures this.g == g && seen == {}
    {
      this.g := g;
      seen := {};
    }

    /**
     Depth-first search from `current` with `seen` on the path: false exactly
     when some walk from `current` revisits a node on the path or on the walk
     itself. On success the path set is restored to its value on entry.
     */
    method Visit(current: T) returns (ok: bool)
      modifies this
      ensures ok <==> !Revisits(g, old(seen), current)
      ensures ok ==> seen == old(seen)
      ensures old(seen) <= seen
      decreases Nodes(g) - seen
    {
      if current in seen {
        RevisitsSeen(g, seen, current);
        return false;
      }
      seen := seen + {current};
      DepsInNodes(g, current);
      var rest := Deps(g, current);
      while rest != {}
        invariant rest <= Deps(g, current)
        invariant seen == old(seen) + {current}
        invariant forall n :: n in Deps(g, current) && n !in rest ==> !Revisits(g, old(seen) + {current}, n)
        decreases rest
      {
        var next :| next in rest;
        ok := Visit(next);
        if !ok {
          RevisitsStep(g, old(seen), current, next);
          return false;
        }
        rest := rest - {next};
      }
      seen := seen - {current};
      NoRevisitsStep(g, old(seen), current);
      return true;
    }
  }

  /** The graph is acyclic iff the search from every node, with an empty path, finds no revisit. */
  method IsAcyclicDFS<T(==,!new)>(g: Graph<T>) returns (ok: bool)
    ensures ok <==> !HasCycle(g)
  {
    var allNodes := EdgeDictToNodeSet(g);
    var rest := allNodes;
    while rest != {}
      invariant rest <= allNodes
      invariant forall n :: n in allNodes && n !in rest ==> !Revisits(g, {}, n)
      decreases rest
    {
      var start :| start in rest;
      var search := new PathSearch(g);
      ok := search.Visit(start);
      if !ok {
        CycleIffRevisit(g);
        return false;
      }
      rest := rest - {start};
    }
    CycleIffRevisit(g);
    return true;
  }

  /** Acyclic exactly when the topological sort succeeds. */
  method IsAcyclicTopological<T(==,!new)>(g: Graph<T>) returns (ok: bool)
    ensures ok <==> !HasCycle(g)
  {
    var r := TopologicalSort(g);
    ok := r.Some?;
  }

  /** The two acyclicity checks give the same answer on every graph. */
  method CheckersAgree<T(==,!new)>(g: Graph<T>) returns (viaSearch: bool, viaSort: bool)
    ensures viaSearch == viaSort
  {
    viaSearch := IsAcyclicDFS(g);
    viaSort := IsAcyclicTopological(g);
  }
}
