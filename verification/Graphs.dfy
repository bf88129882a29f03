/** Directed graphs as successor sets: paths, cycles, and ranks that witness their absence. */
module Graphs {

  type Graph = seq<set<nat>>

  predicate InRange(g: Graph) {
    forall v, w :: 0 <= v < |g| && w in g[v] ==> w < |g|
  }

  /** A path of at least one edge. */
  ghost predicate IsPath(g: Graph, p: seq<nat>) {
    && |p| >= 2
    && (forall i :: 0 <= i < |p| ==> p[i] < |g|)
    && (forall i :: 0 <= i < |p| - 1 ==> p[i + 1] in g[p[i]])
  }

  ghost predicate Reaches(g: Graph, a: nat, b: nat) {
    exists p :: IsPath(g, p) && p[0] == a && p[|p| - 1] == b
  }

  ghost predicate HasCycle(g: Graph) {
    exists v: nat :: Reaches(g, v, v)
  }

  ghost predicate LeadsToCycle(g: Graph, x: nat) {
    exists y: nat :: Reaches(g, x, y) && Reaches(g, y, y)
  }

  lemma EdgeReaches(g: Graph, a: nat, b: nat)
    requires a < |g| && b < |g| && b in g[a]
    ensures Reaches(g, a, b)
  {
    assert IsPath(g, [a, b]);
  }

  lemma ReachesTrans(g: Graph, a: nat, b: nat, c: nat)
    requires Reaches(g, a, b) && Reaches(g, b, c)
    ensures Reaches(g, a, c)
  {
    var p :| IsPath(g, p) && p[0] == a && p[|p| - 1] == b;
    var q :| IsPath(g, q) && q[0] == b && q[|q| - 1] == c;
    var r := p + q[1..];
    forall i | 0 <= i < |r| - 1 ensures r[i + 1] in g[r[i]] {
      if i >= |p| - 1 {
        assert r[i] == q[i - |p| + 1] && r[i + 1] == q[i - |p| + 2];
      }
    }
    assert IsPath(g, r);
  }

  /** A rank below the number of nodes that falls along every edge. */
  ghost predicate Ranked(g: Graph, rank: seq<nat>) {
    && |rank| == |g|
    && (forall v :: 0 <= v < |g| ==> rank[v] < |g|)
    && (forall v, w :: 0 <= v < |g| && w in g[v] && w < |g| ==> rank[w] < rank[v])
  }

  lemma {:induction false} RankFallsAlongPath(g: Graph, rank: seq<nat>, p: seq<nat>)
    requires Ranked(g, rank) && IsPath(g, p)
    ensures rank[p[|p| - 1]] < rank[p[0]]
    decreases |p|
  {
    if |p| > 2 {
      assert IsPath(g, p[1..]);
      RankFallsAlongPath(g, rank, p[1..]);
    }
    assert p[1] in g[p[0]];
  }

  lemma RankedAcyclic(g: Graph, rank: seq<nat>)
    requires Ranked(g, rank)
    ensures !HasCycle(g)
  {
    if HasCycle(g) {
      var v: nat :| Reaches(g, v, v);
      var p :| IsPath(g, p) && p[0] == v && p[|p| - 1] == v;
      RankFallsAlongPath(g, rank, p);
    }
  }

  ghost predicate Inductive(g: Graph, holds: (nat, nat) -> bool, v: nat, d: nat)
    requires v < |g|
  {
    (forall w :: w in g[v] ==> holds(w, d)) ==> holds(v, d + 1)
  }

  /** Induction along a rank: what one more level of `depth` establishes from the successors holds of
      every node at depth `|g|`. */
  lemma {:induction false} RankInduction(g: Graph, rank: seq<nat>, holds: (nat, nat) -> bool, depth: nat)
    requires Ranked(g, rank) && InRange(g)
    requires forall v: nat, d: nat :: v < |g| ==> Inductive(g, holds, v, d)
    ensures forall v: nat :: v < |g| && rank[v] < depth ==> holds(v, depth)
  {
    if depth > 0 {
      RankInduction(g, rank, holds, depth - 1);
      forall v: nat | v < |g| && rank[v] < depth ensures holds(v, depth) {
        assert Inductive(g, holds, v, depth - 1);
      }
    }
  }

  // ---- completion orders ----------------------------------------------------------------------

  /** Every successor of an element occurs strictly earlier. */
  ghost predicate SuccessorsFirst(g: Graph, order: seq<nat>) {
    && (forall i :: 0 <= i < |order| ==> order[i] < |g|)
    && (forall i, j :: 0 <= i < j < |order| ==> order[i] != order[j])
    && (forall i, w :: 0 <= i < |order| && w in g[order[i]] ==> w in order[..i])
  }

  function Position(order: seq<nat>, v: nat): (i: nat)
    requires v in order
    ensures i < |order| && order[i] == v
  {
    if order[0] == v then 0 else 1 + Position(order[1..], v)
  }

  lemma {:induction false} DistinctBound(order: seq<nat>, n: nat)
    requires forall i :: 0 <= i < |order| ==> order[i] < n
    requires forall i, j :: 0 <= i < j < |order| ==> order[i] != order[j]
    ensures |order| <= n
    decreases n
  {
    if n == 0 {
      assert forall v :: v in order ==> v < 0;
      assert order == [];
    } else if n - 1 in order {
      var k := Position(order, n - 1);
      var rest := order[..k] + order[k + 1..];
      DistinctBound(rest, n - 1);
    } else {
      forall i | 0 <= i < |order| ensures order[i] < n - 1 { assert order[i] in order; }
      DistinctBound(order, n - 1);
    }
  }

  lemma OrderGivesRank(g: Graph, order: seq<nat>) returns (rank: seq<nat>)
    requires SuccessorsFirst(g, order) && forall v: nat :: v < |g| ==> v in order
    ensures Ranked(g, rank)
  {
    DistinctBound(order, |g|);
    rank := seq(|g|, v requires 0 <= v < |g| => Position(order, v));
    forall v, w | 0 <= v < |g| && w in g[v] && w < |g| ensures rank[w] < rank[v] {
      assert w in order[..rank[v]];
      var j :| 0 <= j < rank[v] && order[j] == w;
      assert order[rank[w]] == w;
    }
  }
}
