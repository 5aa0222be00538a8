/**
 A dependency graph maps each node to the set of nodes it depends on: an edge
 a -> b (b in g[a]) means "a depends on b", so b must be ordered before a.
 This module holds the specification vocabulary (total lookup, the node set,
 walks, cycles, valid orderings) and the facts about it that the algorithms use.
 */
module Graphs {

  type Graph<T> = map<T, set<T>>

  /** Total lookup: a node that is not a key has no dependencies. */
  function Deps<T>(g: Graph<T>, n: T): set<T>
  {
    if n in g then g[n] else {}
  }

  /** Every node of the graph: the keys together with every dependency target. */
  ghost function Nodes<T>(g: Graph<T>): set<T>
  {
    g.Keys + (set a, b | a in g && b in g[a] :: b)
  }

  /** The set of elements of a sequence. */
  ghost function Elems<T>(s: seq<T>): set<T>
  {
    set x | x in s
  }

  ghost predicate Distinct<T>(s: seq<T>)
  {
    forall i, j :: 0 <= i < j < |s| ==> s[i] != s[j]
  }

  /** p follows edges of g: each element depends on the one before it. */
  ghost predicate IsWalk<T>(g: Graph<T>, p: seq<T>)
  {
    |p| >= 1 && forall i :: 0 <= i < |p| - 1 ==> p[i + 1] in Deps(g, p[i])
  }

  /** A non-empty walk that returns to the node it started from. */
  ghost predicate IsCycle<T>(g: Graph<T>, p: seq<T>)
  {
    IsWalk(g, p) && |p| >= 2 && p[0] == p[|p| - 1]
  }

  ghost predicate HasCycle<T(!new)>(g: Graph<T>)
  {
    exists p :: IsCycle(g, p)
  }

  /** Every edge a -> b between elements of s has b at a strictly smaller index than a. */
  ghost predicate RespectsEdges<T>(g: Graph<T>, s: seq<T>)
  {
    forall i, j :: 0 <= i < |s| && 0 <= j < |s| && s[j] in Deps(g, s[i]) ==> j < i
  }

  /** A topological order: every node exactly once, dependencies first. */
  ghost predicate ValidOrder<T>(g: Graph<T>, s: seq<T>)
  {
    Distinct(s) && Elems(s) == Nodes(g) && RespectsEdges(g, s)
  }

  /**
   Some walk from x ends at a node that is either in `seen` or already earlier
   on the walk: what the depth-first search reports as a revisit.
   */
  ghost predicate Revisits<T(!new)>(g: Graph<T>, seen: set<T>, x: T)
  {
    exists p :: IsWalk(g, p) && p[0] == x && (p[|p| - 1] in seen || p[|p| - 1] in p[..|p| - 1])
  }

  // ---------------------------------------------------------------------
  // Basic facts
  // ---------------------------------------------------------------------

  /** The dependencies of any node are nodes of the graph. */
  lemma DepsInNodes<T>(g: Graph<T>, n: T)
    ensures Deps(g, n) <= Nodes(g)
    ensures Deps(g, n) != {} ==> n in Nodes(g)
  {
    if n in g {
      forall b | b in g[n] ensures b in Nodes(g) {
        assert b in (set a, c | a in g && c in g[a] :: c);
      }
    }
  }

  lemma ElemsAppend<T>(s: seq<T>, x: T)
    ensures Elems(s + [x]) == Elems(s) + {x}
  {
    assert forall y :: y in s + [x] <==> y in s || y == x;
  }

  /** A sequence without duplicates has as many elements as its set of elements. */
  lemma {:induction false} DistinctElemsCard<T>(s: seq<T>)
    requires Distinct(s)
    ensures |Elems(s)| == |s|
  {
    if s != [] {
      var init := s[..|s| - 1];
      assert s == init + [s[|s| - 1]];
      assert Distinct(init);
      DistinctElemsCard(init);
      ElemsAppend(init, s[|s| - 1]);
      assert s[|s| - 1] !in Elems(init);
    }
  }

  /** A proper subset has fewer elements. */
  lemma ProperSubsetCard<T>(a: set<T>, b: set<T>)
    requires a < b
    ensures |a| < |b|
  {
    assert !(b <= a);
    var x :| x in b && x !in a;
    assert a <= b - {x};
    assert |b - {x}| == |b| - 1;
    SubsetCard(a, b - {x});
  }

  lemma SubsetCard<T>(a: set<T>, b: set<T>)
    requires a <= b
    ensures |a| <= |b|
  {
    assert b == a + (b - a);
  }

  /** |D * E| reaches |D| exactly when every element of D is in E. */
  lemma CountReachesAll<T>(d: set<T>, e: set<T>)
    ensures |d * e| <= |d|
    ensures |d * e| == |d| <==> d <= e
  {
    SubsetCard(d * e, d);
    if !(d <= e) {
      ProperSubsetCard(d * e, d);
    } else {
      assert d * e == d;
    }
  }

  /** Placing one more node x raises the count of placed dependencies of n by one iff x is a dependency of n. */
  lemma CountAfterPlacing<T>(d: set<T>, e: set<T>, x: T)
    requires x !in e
    ensures |d * (e + {x})| == |d * e| + (if x in d then 1 else 0)
  {
    if x in d {
      assert d * (e + {x}) == (d * e) + {x};
    } else {
      assert d * (e + {x}) == d * e;
    }
  }

  // ---------------------------------------------------------------------
  // Cycles and orders
  // ---------------------------------------------------------------------

  /** Along a walk whose nodes all occur in an order that respects edges, indices strictly decrease. */
  lemma {:induction false} WalkDescends<T>(g: Graph<T>, s: seq<T>, p: seq<T>, i: int, j: int)
    requires RespectsEdges(g, s) && IsWalk(g, p) && |p| >= 2
    requires forall k :: 0 <= k < |p| ==> p[k] in s
    requires 0 <= i < |s| && s[i] == p[0]
    requires 0 <= j < |s| && s[j] == p[|p| - 1]
    ensures j < i
  {
    var m :| 0 <= m < |s| && s[m] == p[1];
    assert s[m] in Deps(g, s[i]);
    if |p| > 2 {
      WalkDescends(g, s, p[1..], m, j);
    }
  }

  /** A graph that has a valid order has no cycle. */
  lemma OrderForbidsCycle<T(!new)>(g: Graph<T>, s: seq<T>)
    requires ValidOrder(g, s)
    ensures !HasCycle(g)
  {
    if HasCycle(g) {
      var p :| IsCycle(g, p);
      forall k | 0 <= k < |p| ensures p[k] in s {
        if k < |p| - 1 {
          assert p[k + 1] in Deps(g, p[k]);
          DepsInNodes(g, p[k]);
          assert p[k] in Elems(s);
        } else {
          assert p[k] in Deps(g, p[k - 1]);
          DepsInNodes(g, p[k - 1]);
          assert p[k] in Elems(s);
        }
      }
      var i :| 0 <= i < |s| && s[i] == p[0];
      WalkDescends(g, s, p, i, i);
    }
  }

  /** Along a walk of length two or more, a rank that every edge strictly lowers ends below where it started. */
  lemma {:induction false} WalkLowersRank<T>(g: Graph<T>, rank: T -> int, p: seq<T>)
    requires forall a, b :: b in Deps(g, a) ==> rank(b) < rank(a)
    requires IsWalk(g, p) && |p| >= 2
    ensures rank(p[|p| - 1]) < rank(p[0])
  {
    assert p[1] in Deps(g, p[0]);
    if |p| > 2 {
      WalkSuffix(g, p, 1);
      WalkLowersRank(g, rank, p[1..]);
    }
  }

  /** A graph with a rank that every edge strictly lowers has no cycle. */
  lemma RankForbidsCycle<T(!new)>(g: Graph<T>, rank: T -> int)
    requires forall a, b :: b in Deps(g, a) ==> rank(b) < rank(a)
    ensures !HasCycle(g)
  {
    if HasCycle(g) {
      var p :| IsCycle(g, p);
      WalkLowersRank(g, rank, p);
    }
  }

  /**
   Extends a walk inside the unplaced nodes until it meets itself: if every
   unplaced node has an unplaced dependency, the walk can always go on, and
   since the nodes are finitely many it closes into a cycle.
   */
  lemma {:induction false} ExtendToCycle<T(!new)>(g: Graph<T>, placed: set<T>, p: seq<T>)
    requires forall n :: n in Nodes(g) && n !in placed ==> !(Deps(g, n) <= placed)
    requires IsWalk(g, p)
    requires forall k :: 0 <= k < |p| ==> p[k] in Nodes(g) && p[k] !in placed
    ensures HasCycle(g)
    decreases Nodes(g) - Elems(p)
  {
    var last := p[|p| - 1];
    assert last in Nodes(g) && last !in placed;
    assert !(Deps(g, last) <= placed);
    var m :| m in Deps(g, last) && m !in placed;
    if m in p {
      WalkCloses(g, p, m);
    } else {
      DepsInNodes(g, last);
      WalkExtendsOutside(g, placed, p, m);
      ElemsAppend(p, m);
      ExtendToCycle(g, placed, p + [m]);
    }
  }

  /** A walk whose last node depends on a node already on the walk contains a cycle. */
  lemma WalkCloses<T(!new)>(g: Graph<T>, p: seq<T>, m: T)
    requires IsWalk(g, p) && m in Deps(g, p[|p| - 1]) && m in p
    ensures HasCycle(g)
  {
    WalkExtends(g, p, m);
    var k :| 0 <= k < |p| && p[k] == m;
    WalkSuffix(g, p + [m], k);
    assert (p + [m])[k..][0] == m;
    assert IsCycle(g, (p + [m])[k..]);
  }

  /** Extending a walk of unplaced nodes by an unplaced node of the graph gives such a walk. */
  lemma WalkExtendsOutside<T>(g: Graph<T>, placed: set<T>, p: seq<T>, m: T)
    requires IsWalk(g, p) && m in Deps(g, p[|p| - 1])
    requires forall k :: 0 <= k < |p| ==> p[k] in Nodes(g) && p[k] !in placed
    requires m in Nodes(g) && m !in placed
    ensures IsWalk(g, p + [m])
    ensures forall k :: 0 <= k < |p + [m]| ==> (p + [m])[k] in Nodes(g) && (p + [m])[k] !in placed
  {
    WalkExtends(g, p, m);
    var q := p + [m];
    forall i | 0 <= i < |q| ensures q[i] in Nodes(g) && q[i] !in placed {
      if i < |p| {
        assert q[i] == p[i];
      }
    }
  }

  /** A walk extended by a dependency of its last node is a walk. */
  lemma WalkExtends<T>(g: Graph<T>, p: seq<T>, m: T)
    requires IsWalk(g, p) && m in Deps(g, p[|p| - 1])
    ensures IsWalk(g, p + [m])
  {
    var q := p + [m];
    forall i | 0 <= i < |q| - 1 ensures q[i + 1] in Deps(g, q[i]) {
      if i < |p| - 1 {
        assert q[i] == p[i] && q[i + 1] == p[i + 1];
      }
    }
  }

  /** Every non-empty suffix of a walk is a walk. */
  lemma WalkSuffix<T>(g: Graph<T>, p: seq<T>, k: int)
    requires IsWalk(g, p) && 0 <= k < |p|
    ensures IsWalk(g, p[k..])
  {
    var c := p[k..];
    forall i | 0 <= i < |c| - 1 ensures c[i + 1] in Deps(g, c[i]) {
      assert c[i] == p[k + i] && c[i + 1] == p[k + i + 1];
    }
  }

  /** If some node is unplaced and no unplaced node has all its dependencies placed, the graph has a cycle. */
  lemma StuckImpliesCycle<T(!new)>(g: Graph<T>, placed: set<T>, n: T)
    requires n in Nodes(g) && n !in placed
    requires forall n :: n in Nodes(g) && n !in placed ==> !(Deps(g, n) <= placed)
    ensures HasCycle(g)
  {
    ExtendToCycle(g, placed, [n]);
  }

  // ---------------------------------------------------------------------
  // Revisits: the depth-first search's notion of failure
  // ---------------------------------------------------------------------

  /** A node already on the path is a revisit by itself. */
  lemma RevisitsSeen<T(!new)>(g: Graph<T>, seen: set<T>, x: T)
    requires x in seen
    ensures Revisits(g, seen, x)
  {
    assert IsWalk(g, [x]);
  }

  /** A revisit found below a dependency of x, with x on the path, is a revisit from x. */
  lemma RevisitsStep<T(!new)>(g: Graph<T>, seen: set<T>, x: T, next: T)
    requires next in Deps(g, x)
    requires Revisits(g, seen + {x}, next)
    ensures Revisits(g, seen, x)
  {
    var q :| IsWalk(g, q) && q[0] == next && (q[|q| - 1] in seen + {x} || q[|q| - 1] in q[..|q| - 1]);
    var p := [x] + q;
    assert IsWalk(g, p);
    assert p[|p| - 1] == q[|q| - 1];
    assert p[..|p| - 1] == [x] + q[..|q| - 1];
  }

  /** x is not on the path and no dependency of x revisits the path extended by x: then x does not revisit. */
  lemma NoRevisitsStep<T(!new)>(g: Graph<T>, seen: set<T>, x: T)
    requires x !in seen
    requires forall n :: n in Deps(g, x) ==> !Revisits(g, seen + {x}, n)
    ensures !Revisits(g, seen, x)
  {
    if Revisits(g, seen, x) {
      var p :| IsWalk(g, p) && p[0] == x && (p[|p| - 1] in seen || p[|p| - 1] in p[..|p| - 1]);
      assert |p| >= 2;
      var q := p[1..];
      assert IsWalk(g, q);
      assert q[|q| - 1] == p[|p| - 1];
      assert p[..|p| - 1] == [x] + q[..|q| - 1];
      assert q[|q| - 1] in seen + {x} || q[|q| - 1] in q[..|q| - 1];
      assert Revisits(g, seen + {x}, q[0]);
      assert false;
    }
  }

  /** Starting from an empty path, the graph has a cycle iff some start node revisits. */
  lemma CycleIffRevisit<T(!new)>(g: Graph<T>)
    ensures HasCycle(g) <==> exists n :: n in Nodes(g) && Revisits(g, {}, n)
  {
    if HasCycle(g) {
      var p :| IsCycle(g, p);
      assert p[1] in Deps(g, p[0]);
      DepsInNodes(g, p[0]);
      assert p[|p| - 1] in p[..|p| - 1];
      assert Revisits(g, {}, p[0]);
    }
    if n :| n in Nodes(g) && Revisits(g, {}, n) {
      var p :| IsWalk(g, p) && p[0] == n && (p[|p| - 1] in {} || p[|p| - 1] in p[..|p| - 1]);
      var last := p[|p| - 1];
      assert last in p[..|p| - 1];
      var k :| 0 <= k < |p| - 1 && p[k] == last;
      var c := p[k..];
      assert c[0] == last && c[|c| - 1] == last;
      forall i | 0 <= i < |c| - 1 ensures c[i + 1] in Deps(g, c[i]) {
        assert c[i] == p[k + i] && c[i + 1] == p[k + i + 1];
      }
      assert IsCycle(g, c);
    }
  }
}
