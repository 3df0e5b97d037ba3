/**
 * Depth-bounded neighbour expansion over a graph, as `get_node_neighbors` does it:
 * expand level by level from a start node, collect every node reached, and drop
 * the start node at the end.
 *
 * A graph is an adjacency map from each node to the set of its neighbours (its
 * successors, for a directed graph). The nodes of the graph are the keys of the map.
 */
module GraphUtils {

  type Graph = map<string, set<string>>

  /** `graph.neighbors(n)`; a name that is not a key has no neighbours. */
  function Adj(g: Graph, n: string): set<string> {
    if n in g then g[n] else {}
  }

  /** Every neighbour of some node of `level`. */
  function Step(g: Graph, level: set<string>): set<string> {
    set u, v | u in level && u in g && v in g[u] :: v
  }

  /** The nodes reached from `start` by exactly `k` steps. */
  function Level(g: Graph, start: string, k: nat): set<string> {
    if k == 0 then {start} else Step(g, Level(g, start, k - 1))
  }

  /** The union of levels 1..k. */
  function UpTo(g: Graph, start: string, k: nat): set<string> {
    if k == 0 then {} else UpTo(g, start, k - 1) + Level(g, start, k)
  }

  /** What `get_node_neighbors` returns: levels 1..depth without the start node. */
  function NeighborsWithin(g: Graph, start: string, depth: int): set<string> {
    if start !in g || depth <= 0 then {} else UpTo(g, start, depth) - {start}
  }

  /** Adding one node to a level adds exactly its neighbours to the next one. */
  lemma StepAddOne(g: Graph, done: set<string>, n: string)
    ensures Step(g, done + {n}) == Step(g, done) + Adj(g, n)
  {
    forall v | v in Step(g, done + {n}) ensures v in Step(g, done) + Adj(g, n) {
      var u :| u in done + {n} && u in g && v in g[u];
      if u != n {
        assert u in done;
      }
    }
  }

  /** Taking one more node of the current level off the pending set. */
  lemma ExpandOne(g: Graph, level: set<string>, pending: set<string>, n: string)
    requires n in pending && pending <= level
    ensures Step(g, level - (pending - {n})) == Step(g, level - pending) + Adj(g, n)
  {
    assert level - (pending - {n}) == (level - pending) + {n};
    StepAddOne(g, level - pending, n);
  }

  /** `get_node_neighbors`. */
  method GetNodeNeighbors(g: Graph, node: string, depth: int) returns (neighbors: set<string>)
    ensures neighbors == NeighborsWithin(g, node, depth)
  {
    neighbors := {};
    if node !in g {
      return;
    }
    var currentLevel := {node};
    var rounds := if depth < 0 then 0 else depth;
    for i := 0 to rounds
      invariant currentLevel == Level(g, node, i)
      invariant neighbors == UpTo(g, node, i)
    {
      var nextLevel := {};
      var pending := currentLevel;
      while pending != {}
        invariant pending <= currentLevel
        invariant nextLevel == Step(g, currentLevel - pending)
        decreases |pending|
      {
        var n :| n in pending;
        ExpandOne(g, currentLevel, pending, n);
        nextLevel := nextLevel + Adj(g, n);
        pending := pending - {n};
      }
      assert currentLevel - {} == currentLevel;
      neighbors := neighbors + nextLevel;
      currentLevel := nextLevel;
    }
    neighbors := neighbors - {node};
  }

  // ---------------------------------------------------------------------------
  // Properties of the result
  // ---------------------------------------------------------------------------

  /** A start node that is not in the graph has no neighbours at any depth. */
  lemma MissingNodeHasNoNeighbors(g: Graph, start: string, depth: int)
    requires start !in g
    ensures NeighborsWithin(g, start, depth) == {}
  {
  }

  /** No depth is reached without a round of expansion. */
  lemma NonPositiveDepthIsEmpty(g: Graph, start: string, depth: int)
    requires depth <= 0
    ensures NeighborsWithin(g, start, depth) == {}
  {
  }

  /** The start node is never among its own neighbours, even on a cycle or a self-loop. */
  lemma StartNeverIncluded(g: Graph, start: string, depth: int)
    ensures start !in NeighborsWithin(g, start, depth)
  {
  }

  /** At depth 1 the result is the adjacency set of the start node, minus the start node. */
  lemma DepthOneIsAdjacency(g: Graph, start: string)
    requires start in g
    ensures NeighborsWithin(g, start, 1) == g[start] - {start}
  {
    assert Level(g, start, 1) == Step(g, {start});
    assert Step(g, {} + {start}) == Step(g, {}) + Adj(g, start) by {
      StepAddOne(g, {}, start);
    }
    assert {} + {start} == {start};
    assert UpTo(g, start, 1) == {} + Level(g, start, 1);
  }

  lemma {:induction false} UpToMonotone(g: Graph, start: string, k1: nat, k2: nat)
    requires k1 <= k2
    ensures UpTo(g, start, k1) <= UpTo(g, start, k2)
    decreases k2
  {
    if k1 < k2 {
      UpToMonotone(g, start, k1, k2 - 1);
    }
  }

  /** Searching deeper never loses a node. */
  lemma NeighborsMonotone(g: Graph, start: string, d1: int, d2: int)
    requires d1 <= d2
    ensures NeighborsWithin(g, start, d1) <= NeighborsWithin(g, start, d2)
  {
    if start in g && d1 > 0 {
      UpToMonotone(g, start, d1, d2);
    }
  }

  // ---------------------------------------------------------------------------
  // Walks
  // ---------------------------------------------------------------------------

  /** `w` is a walk from `s` to `v`: each node is followed by one of its neighbours. */
  ghost predicate IsWalk(g: Graph, w: seq<string>, s: string, v: string) {
    |w| >= 1 && w[0] == s && w[|w| - 1] == v
    && forall i | 0 <= i < |w| - 1 :: w[i] in g && w[i + 1] in g[w[i]]
  }

  /** Every node of level `k` ends a walk with `k` steps. */
  lemma {:induction false} LevelHasWalk(g: Graph, s: string, k: nat, v: string) returns (w: seq<string>)
    requires v in Level(g, s, k)
    ensures IsWalk(g, w, s, v) && |w| == k + 1
    decreases k
  {
    if k == 0 {
      w := [s];
    } else {
      var u :| u in Level(g, s, k - 1) && u in g && v in g[u];
      var prefix := LevelHasWalk(g, s, k - 1, u);
      w := prefix + [v];
      forall i | 0 <= i < |w| - 1 ensures w[i] in g && w[i + 1] in g[w[i]] {
        assert w[i] == prefix[i];
        if i < |w| - 2 {
          assert w[i + 1] == prefix[i + 1];
        }
      }
    }
  }

  /** The end of a walk with `k` steps is in level `k`. */
  lemma {:induction false} WalkEndsInLevel(g: Graph, w: seq<string>, s: string, v: string)
    requires IsWalk(g, w, s, v)
    ensures v in Level(g, s, |w| - 1)
    decreases |w|
  {
    if |w| > 1 {
      var prefix := w[..|w| - 1];
      var u := prefix[|prefix| - 1];
      assert IsWalk(g, prefix, s, u);
      WalkEndsInLevel(g, prefix, s, u);
      assert w[|w| - 2] == u;
    }
  }

  lemma {:induction false} UpToLevels(g: Graph, s: string, k: nat, v: string)
    ensures v in UpTo(g, s, k) <==> exists j | 1 <= j <= k :: v in Level(g, s, j)
    decreases k
  {
    if k > 0 {
      UpToLevels(g, s, k - 1, v);
      if v in Level(g, s, k) {
        assert 1 <= k <= k && v in Level(g, s, k);
      } else if v in UpTo(g, s, k - 1) {
        var j :| 1 <= j <= k - 1 && v in Level(g, s, j);
        assert 1 <= j <= k && v in Level(g, s, j);
      }
      if exists j | 1 <= j <= k :: v in Level(g, s, j) {
        var j :| 1 <= j <= k && v in Level(g, s, j);
        if j < k {
          assert exists i | 1 <= i <= k - 1 :: v in Level(g, s, i);
        }
      }
    }
  }

  /** A walk of one step or more starts at a node of the graph. */
  lemma WalkOfOneStepStartsInGraph(g: Graph, w: seq<string>, s: string, v: string)
    requires IsWalk(g, w, s, v)
    ensures |w| >= 2 ==> s in g
  {
    if |w| >= 2 {
      assert w[0] in g;
    }
  }

  /**
   * A node is returned exactly when it is not the start node and some walk of
   * 1..depth steps leads to it from the start node. A start node outside the
   * graph begins no walk of one step or more.
   */
  lemma NeighborsAreWalkEnds(g: Graph, s: string, depth: int, v: string)
    ensures v in NeighborsWithin(g, s, depth) <==>
      v != s && exists w :: IsWalk(g, w, s, v) && 2 <= |w| <= depth + 1
  {
    if s !in g {
      forall w | IsWalk(g, w, s, v) ensures |w| < 2 {
        WalkOfOneStepStartsInGraph(g, w, s, v);
      }
    } else if depth > 0 {
      UpToLevels(g, s, depth, v);
      if v in NeighborsWithin(g, s, depth) {
        var j :| 1 <= j <= depth && v in Level(g, s, j);
        var w := LevelHasWalk(g, s, j, v);
      }
      if v != s && exists w :: IsWalk(g, w, s, v) && 2 <= |w| <= depth + 1 {
        var w :| IsWalk(g, w, s, v) && 2 <= |w| <= depth + 1;
        WalkEndsInLevel(g, w, s, v);
      }
    } else {
      forall w | IsWalk(g, w, s, v) ensures !(2 <= |w| <= depth + 1) {
      }
    }
  }
}
