/** When a cycle error is the same in every run (`eval/locals.rs`): the detector's report against the order
    in which each node's edges are drawn from a hash set. */
module Stability {
  import opened Graphs
  import opened Tarjan
  import opened CycleReports
  import opened Participants

  /** The edge lists as some draining of the successor sets fills them: every successor once. */
  ghost predicate Draws(edges: Edges, g: Graph) {
    && EdgesInRange(edges) && GraphOf(edges) == g
    && forall v, k, m :: 0 <= v < |edges| && 0 <= k < m < |edges[v]| ==> edges[v][k] != edges[v][m]
  }

  /** The nodes that lie on cycles. */
  ghost function Cyclic(g: Graph): set<nat> {
    set x: nat | x < |g| && Reaches(g, x, x)
  }

  /** All cycles lie in one component. */
  ghost predicate OneComponent(g: Graph) {
    forall x: nat, y: nat :: Reaches(g, x, x) && Reaches(g, y, y) ==> Reaches(g, x, y)
  }

  /** `x` lies on a cycle or below one. */
  ghost predicate BelowCycle(g: Graph, x: nat) {
    exists y: nat :: Reaches(g, y, y) && Reaches(g, y, x)
  }

  ghost predicate TwoWays(g: Graph, x: nat, u: nat, w: nat) {
    x < |g| && u in g[x] && w in g[x] && u != w && LeadsToCycle(g, u) && !BelowCycle(g, w)
  }

  /** Below node 0, and on no cycle itself, `x` has one successor on the way to a cycle and another that no
      cycle leads to: whichever is drawn first, the other may still be unvisited at the first find. */
  ghost predicate Forks(g: Graph, x: nat) {
    x != 0 && Reaches(g, 0, x) && !Reaches(g, x, x) && exists u: nat, w: nat :: TwoWays(g, x, u, w)
  }

  // ---- without a fork every order reports the cycle -------------------------------------------

  lemma ComponentIsCyclic(edges: Edges, nodes: seq<nat>)
    requires Component(edges, nodes) && OneComponent(GraphOf(edges))
    ensures NodesOf(nodes) == Cyclic(GraphOf(edges))
  {
    var g := GraphOf(edges);
    forall x: nat | x in Cyclic(g) ensures x in nodes {
      ComponentReaches(edges, nodes, nodes[0]);
      assert Reach(edges, nodes[0], x) && Reach(edges, x, nodes[0]);
    }
    forall x: nat | x in nodes ensures x in Cyclic(g) {
      ComponentReaches(edges, nodes, x);
      ReachInRange(edges, x, x);
    }
  }

  lemma CycleReachesBelow(g: Graph, f: nat, x: nat)
    requires OneComponent(g) && Reaches(g, f, f) && BelowCycle(g, x)
    ensures Reaches(g, f, x)
  {
    hide Reaches;
    var c: nat :| Reaches(g, c, c) && Reaches(g, c, x);
    ReachesTrans(g, f, c, x);
  }

  lemma FirstIsOff(edges: Edges, h: State)
    requires FirstFind(edges, h)
    ensures var f := h.found.value[0]; Reach(edges, f, f) && Off(h, f)
  {
    ComponentReaches(edges, h.found.value, h.found.value[0]);
  }

  /** Whatever the cycle leads to has been visited and closed at the first find. */
  lemma BelowIsOff(edges: Edges, h: State, x: nat)
    requires FirstFind(edges, h) && OneComponent(GraphOf(edges)) && BelowCycle(GraphOf(edges), x)
    ensures Off(h, x)
  {
    FirstIsOff(edges, h);
    CycleReachesBelow(GraphOf(edges), h.found.value[0], x);
    hide Leads, Stacked, Component, Reaches, OneComponent, BelowCycle;
    OffIsNotOn(edges, h, h.found.value[0], x);
  }

  lemma OpenIsAcyclic(edges: Edges, h: State, x: nat)
    requires FirstFind(edges, h) && OneComponent(GraphOf(edges)) && x in h.stack
    ensures !Reach(edges, x, x)
  {
    if Reach(edges, x, x) { BelowIsOff(edges, h, x); }
  }

  /** On a walk from an open node to an unvisited one, an open node has an unvisited successor. */
  lemma {:induction false} LastOpen(edges: Edges, h: State, p: seq<nat>) returns (k: nat)
    requires Stacked(edges, h) && Closed(edges, h) && IsPath(GraphOf(edges), p) && p[0] in h.stack && Idx(h, p[|p| - 1]) < 0
    ensures k < |p| - 1 && p[k] in h.stack && Idx(h, p[k + 1]) < 0
    decreases |p|
  {
    if Idx(h, p[1]) < 0 {
      k := 0;
    } else {
      assert IsPath(GraphOf(edges), p[1..]);
      if On(h, p[1]) {
        k := LastOpen(edges, h, p[1..]);
        k := k + 1;
      } else {
        assert Reach(edges, p[1], p[|p| - 1]) by { assert p[1..][0] == p[1]; }
        OffIsNotOn(edges, h, p[1], p[|p| - 1]);
        assert false;
      }
    }
  }

  lemma PathPrefix(g: Graph, p: seq<nat>, k: nat)
    requires IsPath(g, p) && k < |p|
    ensures k > 0 ==> Reaches(g, p[0], p[k])
    ensures k < |p| - 1 ==> Reaches(g, p[k], p[|p| - 1])
  {
    if k > 0 { assert IsPath(g, p[..k + 1]); }
    if k < |p| - 1 { assert IsPath(g, p[k..]); }
  }

  /** An open node with an unvisited successor forks. */
  lemma OpenForks(edges: Edges, h: State, y: nat, w: nat)
    requires FirstFind(edges, h) && OneComponent(GraphOf(edges))
    requires y in h.stack && y != 0 && Reach(edges, 0, y) && y < |edges| && w in GraphOf(edges)[y] && Idx(h, w) < 0
    ensures Forks(GraphOf(edges), y)
  {
    var g, f := GraphOf(edges), h.found.value[0];
    OpenIsAcyclic(edges, h, y);
    ComponentReaches(edges, h.found.value, f);
    var i :| 0 <= i < |h.stack| && h.stack[i] == y;
    assert Entered(edges, h, h.stack[i]);
    var m :| 0 <= m < |edges[y]| && OnTheWay(edges, h, edges[y][m]);
    var d := edges[y][m];
    if On(h, d) {
      var j := StackPosition(edges, h, d);
      OpenLeadsToFirst(edges, h, j);
    }
    assert LeadsToCycle(g, d);
    if BelowCycle(g, w) { BelowIsOff(edges, h, w); }
    assert TwoWays(g, y, d, w);
  }

  /** An overrun comes from a fork. */
  lemma OverrunForks(edges: Edges, h: State, nodes: seq<nat>) returns (y: nat)
    requires Report(edges, h, nodes) && Overrun(edges, h) && OneComponent(GraphOf(edges))
    ensures Forks(GraphOf(edges), y)
  {
    OverrunFacts(edges, h, nodes);
    OpenIsAcyclic(edges, h, 0);
    if 0 in edges[0] {
      var k :| 0 <= k < |edges[0]| && edges[0][k] == 0;
      EdgeReach(edges, 0, k);
    }
    var i :| 0 < i < |h.stack| && Strands(edges, h, h.stack[i]);
    var x := h.stack[i];
    assert x in nodes && Reach(edges, 0, x);
    var u: nat :| u < |edges| && Idx(h, u) < 0 && Reach(edges, x, u);
    var p :| IsPath(GraphOf(edges), p) && p[0] == x && p[|p| - 1] == u;
    var k := LastOpen(edges, h, p);
    y := p[k];
    PathPrefix(GraphOf(edges), p, k);
    if k > 0 { ReachTrans(edges, 0, x, y); }
    assert y != 0;
    OpenForks(edges, h, y, p[k + 1]);
  }

  lemma NoForkReportsTheCycle(edges: Edges)
    requires EdgesInRange(edges) && HasCycle(GraphOf(edges)) && OneComponent(GraphOf(edges))
    requires forall x: nat :: !Forks(GraphOf(edges), x)
    ensures FirstCycle(edges).Some? && NodesOf(FirstCycle(edges).value) == Cyclic(GraphOf(edges))
    ensures Component(edges, FirstCycle(edges).value)
  {
    var rank := DetectionIsExact(edges);
    ReportIsExact(edges);
    var h, nodes := AtFind(edges), FirstCycle(edges).value;
    if Overrun(edges, h) {
      var y := OverrunForks(edges, h, nodes);
      assert false;
    } else {
      ComponentIsCyclic(edges, nodes);
    }
  }

  // ---- a fork is missed by some order: the chain of first edges -------------------------------

  ghost predicate IsChain(g: Graph, c: seq<nat>) {
    && c != [] && (forall i :: 0 <= i < |c| ==> c[i] < |g|)
    && (forall i :: 0 <= i < |c| - 1 ==> c[i + 1] in g[c[i]])
  }

  lemma ChainReaches(g: Graph, c: seq<nat>, i: nat, j: nat)
    requires IsChain(g, c) && i < j < |c|
    ensures Reaches(g, c[i], c[j])
  {
    assert IsPath(g, c[i..j + 1]);
  }

  /** A chain that meets the cyclic nodes at its end only. */
  ghost predicate EndsAtCycle(g: Graph, c: seq<nat>) {
    && IsChain(g, c) && Reaches(g, c[|c| - 1], c[|c| - 1])
    && forall i :: 0 <= i < |c| - 1 ==> !Reaches(g, c[i], c[i])
  }

  lemma ChainDistinct(g: Graph, c: seq<nat>)
    requires EndsAtCycle(g, c)
    ensures forall i, j :: 0 <= i < j < |c| ==> c[i] != c[j]
  {
    forall i, j | 0 <= i < j < |c| ensures c[i] != c[j] { ChainReaches(g, c, i, j); }
  }

  lemma {:induction false} CutAtCycle(g: Graph, c: seq<nat>) returns (cut: seq<nat>)
    requires IsChain(g, c) && Reaches(g, c[|c| - 1], c[|c| - 1])
    ensures EndsAtCycle(g, cut) && cut[0] == c[0]
    decreases |c|
  {
    if i :| 0 <= i < |c| - 1 && Reaches(g, c[i], c[i]) {
      cut := CutAtCycle(g, c[..i + 1]);
    } else {
      cut := c;
    }
  }

  lemma ChainToCycle(g: Graph, u: nat) returns (c: seq<nat>)
    requires LeadsToCycle(g, u)
    ensures EndsAtCycle(g, c) && c[0] == u
  {
    var y: nat :| Reaches(g, u, y) && Reaches(g, y, y);
    var p :| IsPath(g, p) && p[0] == u && p[|p| - 1] == y;
    c := CutAtCycle(g, p);
  }

  /** What reaches a node that leads to the cycle is on it only if that node is. */
  lemma AboveAcyclic(g: Graph, z: nat, x: nat)
    requires OneComponent(g) && LeadsToCycle(g, x) && !Reaches(g, x, x) && Reaches(g, z, x)
    ensures !Reaches(g, z, z)
  {
    if Reaches(g, z, z) {
      var y: nat :| Reaches(g, x, y) && Reaches(g, y, y);
      ReachesTrans(g, x, y, z);
      ReachesTrans(g, x, z, x);
    }
  }

  /** The two successors of a fork, so chosen that a chain through the first misses the second. */
  lemma Choose(g: Graph, x: nat) returns (u: nat, w: nat)
    requires Forks(g, x)
    ensures TwoWays(g, x, u, w) && !(Reaches(g, u, w) && LeadsToCycle(g, w))
  {
    u, w :| TwoWays(g, x, u, w);
    if Reaches(g, u, w) && LeadsToCycle(g, w) {
      if BelowCycle(g, u) {
        var y: nat :| Reaches(g, y, y) && Reaches(g, y, u);
        ReachesTrans(g, y, u, w);
      }
      if Reaches(g, w, u) { ReachesTrans(g, w, u, w); }
      u, w := w, u;
    }
  }

  /** From 0 through the fork `x` to the cycle, missing `x`'s successor `w`. */
  ghost predicate Route(g: Graph, c: seq<nat>, m: nat, w: nat) {
    && EndsAtCycle(g, c) && c[0] == 0 && 0 < m < |c| - 1
    && w in g[c[m]] && w !in c && !BelowCycle(g, w)
  }

  lemma FindRoute(g: Graph, x: nat) returns (c: seq<nat>, w: nat, m: nat)
    requires InRange(g) && OneComponent(g) && Forks(g, x)
    ensures Route(g, c, m, w)
  {
    var u;
    u, w := Choose(g, x);
    EdgeReaches(g, x, u);
    EdgeReaches(g, x, w);
    var p :| IsPath(g, p) && p[0] == 0 && p[|p| - 1] == x;
    var tail := ChainToCycle(g, u);
    m := |p| - 1;
    c := p + tail;
    var y: nat :| Reaches(g, u, y) && Reaches(g, y, y);
    ReachesTrans(g, x, u, y);
    forall i | 0 <= i < |p| ensures !Reaches(g, p[i], p[i]) && p[i] != w {
      PathPrefix(g, p, i);
      if i < m {
        AboveAcyclic(g, p[i], x);
        if p[i] == w { ReachesTrans(g, x, w, x); }
      }
    }
    forall i | 0 <= i < |tail| ensures tail[i] != w {
      if tail[i] == w { TailMisses(g, tail, i, w); }
    }
    assert forall i :: 0 <= i < |c| - 1 && i >= |p| ==> c[i] == tail[i - |p|];
    RouteChain(g, p, tail);
  }

  lemma TailMisses(g: Graph, tail: seq<nat>, i: nat, w: nat)
    requires EndsAtCycle(g, tail) && i < |tail| && tail[i] == w && tail[0] != w && !BelowCycle(g, w)
    ensures Reaches(g, tail[0], w) && LeadsToCycle(g, w)
  {
    var last := |tail| - 1;
    ChainReaches(g, tail, 0, i);
    if i < last { ChainReaches(g, tail, i, last); }
  }

  lemma RouteChain(g: Graph, p: seq<nat>, tail: seq<nat>)
    requires IsPath(g, p) && IsChain(g, tail) && tail[0] in g[p[|p| - 1]]
    ensures IsChain(g, p + tail)
  {
    var c := p + tail;
    forall i | 0 <= i < |c| - 1 ensures c[i + 1] in g[c[i]] {
      if i >= |p| { assert c[i] == tail[i - |p|] && c[i + 1] == tail[i - |p| + 1]; }
    }
  }

  // ---- an order that draws the chain first ----------------------------------------------------

  ghost function Listed(s: set<nat>): (r: seq<nat>)
    ensures forall x :: x in r <==> x in s
    ensures forall i, j :: 0 <= i < j < |r| ==> r[i] != r[j]
  {
    if s == {} then [] else var x :| x in s; [x] + Listed(s - {x})
  }

  ghost function ListedAt(g: Graph, c: seq<nat>, v: nat): (r: seq<nat>)
    requires v < |g|
    ensures forall x :: x in r <==> x in g[v]
    ensures forall i, j :: 0 <= i < j < |r| ==> r[i] != r[j]
  {
    if i :| 0 <= i < |c| - 1 && c[i] == v && c[i + 1] in g[v] then [c[i + 1]] + Listed(g[v] - {c[i + 1]})
    else Listed(g[v])
  }

  ghost function ChainFirst(g: Graph, c: seq<nat>): Edges {
    seq(|g|, v requires 0 <= v < |g| => ListedAt(g, c, v))
  }

  lemma ChainFirstDraws(g: Graph, c: seq<nat>)
    requires InRange(g)
    ensures Draws(ChainFirst(g, c), g)
  {
    var edges := ChainFirst(g, c);
    forall v, k | 0 <= v < |edges| && 0 <= k < |edges[v]| ensures edges[v][k] < |edges| {
      assert edges[v][k] in ListedAt(g, c, v);
    }
    forall v | 0 <= v < |g| ensures GraphOf(edges)[v] == g[v] {
      assert edges[v] == ListedAt(g, c, v);
    }
    assert GraphOf(edges) == g;
  }

  /** Every node of the chain but the last has the next one as its first edge. */
  ghost predicate Leading(edges: Edges, c: seq<nat>) {
    && c != [] && (forall i :: 0 <= i < |c| ==> c[i] < |edges|)
    && (forall i, j :: 0 <= i < j < |c| ==> c[i] != c[j])
    && (forall i :: 0 <= i < |c| - 1 ==> edges[c[i]] != [] && edges[c[i]][0] == c[i + 1])
  }

  lemma ChainFirstLeads(g: Graph, c: seq<nat>)
    requires EndsAtCycle(g, c)
    ensures Leading(ChainFirst(g, c), c)
  {
    ChainDistinct(g, c);
    var edges := ChainFirst(g, c);
    forall i | 0 <= i < |c| - 1 ensures edges[c[i]] != [] && edges[c[i]][0] == c[i + 1] {
      assert edges[c[i]] == ListedAt(g, c, c[i]);
    }
  }

  // ---- the run along the chain ----------------------------------------------------------------

  /** The state in which exactly the nodes of `c` have been entered, one below the other. */
  function Entering(n: nat, c: seq<nat>): (st: State)
    requires forall i :: 0 <= i < |c| ==> c[i] < n
    ensures |st.indices| == |st.lowlinks| == |st.onStack| == n && st.stack == c && st.found.None?
    ensures forall w: nat :: 0 <= Idx(st, w) <==> w in c
  {
    if c == [] then Initial(n) else Push(c[|c| - 1], Entering(n, c[..|c| - 1]))
  }

  lemma {:induction false} EnteringIsSound(edges: Edges, c: seq<nat>)
    requires EdgesInRange(edges) && (forall i :: 0 <= i < |c| ==> c[i] < |edges|)
    requires forall i, j :: 0 <= i < j < |c| ==> c[i] != c[j]
    ensures var st := Entering(|edges|, c); Stacked(edges, st) && Completed(edges, st, []) && Fresh(edges, st)
    decreases |c|
  {
    if c != [] {
      var front, v := c[..|c| - 1], c[|c| - 1];
      EnteringIsSound(edges, front);
      var st := Entering(|edges|, front);
      assert v !in front;
      PushActive(v, edges, st, []);
      PushFresh(v, edges, st);
    }
  }

  /** The state just before the `i`-th node of the chain is entered. */
  function Before(edges: Edges, c: seq<nat>, i: nat): (st: State)
    requires EdgesInRange(edges) && Leading(edges, c) && i < |c|
    ensures Shaped(edges, st) && st.indices[c[i]].None?
  {
    var st := Entering(|edges|, c[..i]);
    assert c[i] !in c[..i] && Idx(st, c[i]) < 0;
    st
  }

  lemma PushBefore(edges: Edges, c: seq<nat>, i: nat)
    requires EdgesInRange(edges) && Leading(edges, c) && i < |c| - 1
    ensures Push(c[i], Before(edges, c, i)) == Before(edges, c, i + 1)
  {
    assert c[..i + 1][..i] == c[..i];
  }

  /** As long as the chain lasts, each call goes straight on to the next node. */
  lemma {:induction false} ChainRuns(edges: Edges, c: seq<nat>, i: nat)
    requires EdgesInRange(edges) && Leading(edges, c) && i < |c|
    requires UntilConnect(c[|c| - 1], edges, Before(edges, c, |c| - 1)).found.Some?
    ensures UntilConnect(c[i], edges, Before(edges, c, i)) == UntilConnect(c[|c| - 1], edges, Before(edges, c, |c| - 1))
    decreases |c| - i
  {
    if i < |c| - 1 {
      var v, pushed := c[i], Before(edges, c, i + 1);
      ChainRuns(edges, c, i + 1);
      PushBefore(edges, c, i);
      hide Before, Leading, Push, Finish;
      assert edges[v][0] == c[i + 1];
      assert UntilVisit(v, 0, edges, pushed) == UntilConnect(c[i + 1], edges, pushed);
    }
  }

  /** Only what is reached gets visited. */
  ghost predicate VisitsReached(v: nat, edges: Edges, st: State, r: State) {
    forall w: nat :: 0 <= Idx(r, w) ==> 0 <= Idx(st, w) || w == v || Reach(edges, v, w)
  }

  lemma {:induction false} ConnectVisits(v: nat, edges: Edges, st: State)
    requires Shaped(edges, st) && v < |edges| && st.indices[v].None?
    ensures VisitsReached(v, edges, st, UntilConnect(v, edges, st))
    decreases Unvisited(st), 0, 0
  {
    if st.found.None? {
      var pushed := Push(v, st);
      assert v in Unvisited(st) && v !in Unvisited(pushed);
      VisitVisits(v, 0, edges, pushed);
      hide UntilVisit, Finish;
    }
  }

  lemma VisitsBelow(v: nat, w: nat, edges: Edges, st: State, r: State)
    requires Reach(edges, v, w) && VisitsReached(w, edges, st, r)
    ensures VisitsReached(v, edges, st, r)
  {
    hide Reach;
    forall x: nat | Reach(edges, w, x) ensures Reach(edges, v, x) { ReachTrans(edges, v, w, x); }
  }

  lemma VisitsCompose(v: nat, edges: Edges, st: State, mid: State, next: State, r: State)
    requires VisitsReached(v, edges, st, mid) && next.indices == mid.indices && VisitsReached(v, edges, next, r)
    ensures VisitsReached(v, edges, st, r)
  {
    hide Reach;
    assert forall w: nat :: Idx(next, w) == Idx(mid, w);
  }

  /** How the `k`-th edge is taken. */
  lemma EdgeTaken(v: nat, k: nat, edges: Edges, st: State)
    requires Shaped(edges, st) && v < |edges| && k <= |edges[v]|
    ensures k == |edges[v]| || st.found.Some? ==> UntilVisit(v, k, edges, st) == st
    ensures k < |edges[v]| && st.found.None? ==>
              var w := edges[v][k];
              UntilVisit(v, k, edges, st) ==
              if st.indices[w].None? then
                var child := UntilConnect(w, edges, st);
                if child.found.Some? then child else UntilVisit(v, k + 1, edges, Lower(v, child.lowlinks[w], child))
              else UntilVisit(v, k + 1, edges, if st.onStack[w] then Lower(v, st.indices[w].value, st) else st)
  {
    hide UntilConnect;
  }

  lemma {:induction false} VisitVisits(v: nat, k: nat, edges: Edges, st: State)
    requires Shaped(edges, st) && v < |edges| && k <= |edges[v]|
    ensures VisitsReached(v, edges, st, UntilVisit(v, k, edges, st))
    decreases Unvisited(st), |edges[v]| - k, 1
  {
    EdgeTaken(v, k, edges, st);
    assert VisitsReached(v, edges, st, st);
    hide VisitsReached, Reach, UntilConnect, UntilVisit, Lower;
    if k < |edges[v]| && st.found.None? {
      var w := edges[v][k];
      if st.indices[w].None? {
        VisitEnters(v, k, edges, st);
      } else if st.onStack[w] {
        VisitsOn(v, k + 1, edges, st, st, st.indices[w].value);
      } else {
        VisitVisits(v, k + 1, edges, st);
      }
    }
  }

  lemma {:induction false} VisitEnters(v: nat, k: nat, edges: Edges, st: State)
    requires Shaped(edges, st) && v < |edges| && k < |edges[v]| && st.found.None? && st.indices[edges[v][k]].None?
    ensures VisitsReached(v, edges, st, UntilVisit(v, k, edges, st))
    decreases Unvisited(st), |edges[v]| - k, 0
  {
    EdgeTaken(v, k, edges, st);
    EdgeReach(edges, v, k);
    hide VisitsReached, Reach, UntilConnect, UntilVisit, Lower;
    var w := edges[v][k];
    ConnectVisits(w, edges, st);
    var child := UntilConnect(w, edges, st);
    VisitsBelow(v, w, edges, st, child);
    if child.found.None? { VisitsOn(v, k + 1, edges, st, child, child.lowlinks[w]); }
  }

  /** The remaining edges, after `v`'s lowlink has been lowered. */
  lemma {:induction false} VisitsOn(v: nat, k: nat, edges: Edges, st: State, mid: State, low: nat)
    requires Shaped(edges, st) && Shaped(edges, mid) && v < |edges| && k <= |edges[v]|
    requires VisitsReached(v, edges, st, mid) && Unvisited(mid) <= Unvisited(st)
    ensures VisitsReached(v, edges, st, UntilVisit(v, k, edges, Lower(v, low, mid)))
    decreases Unvisited(mid), |edges[v]| - k, 2
  {
    var next := Lower(v, low, mid);
    hide VisitsReached, UntilVisit;
    assert Unvisited(next) == Unvisited(mid);
    VisitVisits(v, k, edges, next);
    VisitsCompose(v, edges, st, mid, next, UntilVisit(v, k, edges, next));
  }

  /** A completed node leads to nodes completed earlier only. */
  lemma {:induction false} CompletedFalls(g: Graph, order: seq<nat>, p: seq<nat>, i: nat)
    requires SuccessorsFirst(g, order) && IsPath(g, p) && i < |order| && order[i] == p[0]
    ensures p[|p| - 1] in order[..i]
    decreases |p|
  {
    assert p[1] in order[..i];
    if |p| > 2 {
      var j :| 0 <= j < i && order[j] == p[1];
      assert IsPath(g, p[1..]);
      CompletedFalls(g, order, p[1..], j);
    }
  }

  /** A call on a cyclic node under open nodes that lie on no cycle finds something. */
  lemma CyclicIsFound(v: nat, edges: Edges, st: State)
    requires Stacked(edges, st) && st.found.None? && Completed(edges, st, []) && v < |edges| && Idx(st, v) < 0
    requires Reach(edges, v, v) && forall i :: 0 <= i < |st.stack| ==> !Reach(edges, v, st.stack[i])
    ensures Connect(v, edges, st).found.Some?
  {
    var order := ConnectCorrect(v, edges, st, []);
    var r := Connect(v, edges, st);
    if r.found.None? {
      if |r.stack| == |st.stack| {
        var i :| 0 <= i < |order| && order[i] == v;
        var p :| IsPath(GraphOf(edges), p) && p[0] == v && p[|p| - 1] == v;
        CompletedFalls(GraphOf(edges), order, p, i);
        assert false;
      }
    }
  }

  lemma EndIsFound(edges: Edges, c: seq<nat>)
    requires EdgesInRange(edges) && EndsAtCycle(GraphOf(edges), c) && Leading(edges, c)
    ensures var v, st := c[|c| - 1], Before(edges, c, |c| - 1);
            var h := UntilConnect(v, edges, st);
            h.found.Some? && st.stack <= h.stack && VisitsReached(v, edges, st, h)
  {
    var last := |c| - 1;
    var v, front, st := c[last], c[..last], Before(edges, c, last);
    EnteringIsSound(edges, front);
    forall i | 0 <= i < last ensures !Reach(edges, v, front[i]) {
      if Reach(edges, v, front[i]) {
        ChainReaches(GraphOf(edges), c, i, last);
        ReachTrans(edges, front[i], v, front[i]);
      }
    }
    hide Stacked, Completed, Fresh, VisitsReached, EndsAtCycle;
    CyclicIsFound(v, edges, st);
    ConnectReport(v, edges, st, []);
    ConnectVisits(v, edges, st);
  }

  /** What the first find looks like on a run that follows the chain. */
  lemma ChainIsOpen(edges: Edges, c: seq<nat>)
    requires EdgesInRange(edges) && EndsAtCycle(GraphOf(edges), c) && Leading(edges, c) && c[0] == 0
    ensures var h := AtFind(edges);
            && c[..|c| - 1] <= h.stack
            && forall w: nat :: 0 <= Idx(h, w) ==> w in c || Reach(edges, c[|c| - 1], w)
  {
    var last := |c| - 1;
    EndIsFound(edges, c);
    ChainRuns(edges, c, 0);
    var h := UntilConnect(c[last], edges, Before(edges, c, last));
    hide UntilConnect, EndsAtCycle, Leading;
    assert c[..0] == [];
    assert UntilSearch(1, edges, h) == h;
    assert AtFind(edges) == h;
  }

  /** On such a run node 0 is reported, although it lies on no cycle. */
  lemma RouteMissesCycle(edges: Edges, c: seq<nat>, m: nat, w: nat)
    requires EdgesInRange(edges) && Route(GraphOf(edges), c, m, w) && Leading(edges, c)
    ensures FirstCycle(edges).Some? && 0 in FirstCycle(edges).value && !Reach(edges, 0, 0)
  {
    var g, h, last := GraphOf(edges), AtFind(edges), |c| - 1;
    assert HasCycle(g);
    var rank := DetectionIsExact(edges);
    ReportIsExact(edges);
    ChainIsOpen(edges, c);
    assert h.stack[0] == c[..last][0] == 0 && h.stack[m] == c[..last][m] == c[m];
    EdgeReaches(g, c[m], w);
    assert Strands(edges, h, c[m]);
    ChainReaches(g, c, 0, m);
    StrandsBack(edges, h, 0, c[m]);
    assert Overrun(edges, h);
    assert 0 in h.stack;
  }

  lemma ForkIsMissed(g: Graph, x: nat) returns (edges: Edges)
    requires InRange(g) && OneComponent(g) && Forks(g, x)
    ensures Draws(edges, g) && FirstCycle(edges).Some? && 0 in FirstCycle(edges).value
    ensures 0 !in Cyclic(g) && !Reach(edges, 0, 0)
  {
    var c, w, m := FindRoute(g, x);
    edges := ChainFirst(g, c);
    ChainFirstDraws(g, c);
    ChainFirstLeads(g, c);
    RouteMissesCycle(edges, c, m, w);
  }

  // ---- the promise and its condition ----------------------------------------------------------

  /** The edge lists make the detector report exactly the nodes on cycles. */
  ghost predicate ReportsTheCycle(edges: Edges, g: Graph)
    requires EdgesInRange(edges)
  {
    FirstCycle(edges).Some? && NodesOf(FirstCycle(edges).value) == Cyclic(g)
  }

  /** They make it report one cycle: every two reported nodes lie on a common one. */
  ghost predicate ReportsOneCycle(edges: Edges)
    requires EdgesInRange(edges)
  {
    FirstCycle(edges).Some? && Mutual(edges, FirstCycle(edges).value)
  }

  lemma OverrunMissesFirst(edges: Edges, h: State, nodes: seq<nat>) returns (f: nat)
    requires Report(edges, h, nodes) && Overrun(edges, h)
    ensures f in Cyclic(GraphOf(edges)) && f !in nodes
  {
    f := h.found.value[0];
    FirstIsOff(edges, h);
    ReachInRange(edges, f, f);
    assert f in nodes ==> On(h, f);
  }

  /** A report never spans two components. */
  lemma WholeReportIsOneComponent(edges: Edges)
    requires EdgesInRange(edges) && ReportsTheCycle(edges, GraphOf(edges))
    ensures OneComponent(GraphOf(edges))
  {
    ReportIsExact(edges);
    var h, nodes, g := AtFind(edges), FirstCycle(edges).value, GraphOf(edges);
    if Overrun(edges, h) {
      hide Overrun, Report, Cyclic, Component, Reaches;
      var f := OverrunMissesFirst(edges, h, nodes);
    } else {
      hide Overrun, FirstFind;
      forall x: nat, y: nat | Reaches(g, x, x) && Reaches(g, y, y) ensures Reaches(g, x, y) {
        ReachInRange(edges, x, x);
        ReachInRange(edges, y, y);
        assert x in Cyclic(g) && y in Cyclic(g);
        assert Reach(edges, x, y);
      }
    }
  }

  /** Every drawing order makes the report exactly the nodes on cycles if and only if these form one
      component and the graph has no fork. */
  lemma EveryOrderReportsTheCycle(g: Graph)
    requires InRange(g) && HasCycle(g)
    ensures (forall edges :: Draws(edges, g) ==> ReportsTheCycle(edges, g)) <==>
            OneComponent(g) && forall x: nat :: !Forks(g, x)
  {
    hide Forks, Cyclic, OneComponent, Reaches;
    if !OneComponent(g) {
      var edges := ChainFirst(g, []);
      ChainFirstDraws(g, []);
      if ReportsTheCycle(edges, g) { WholeReportIsOneComponent(edges); }
    } else if x: nat :| Forks(g, x) {
      var edges := ForkIsMissed(g, x);
      assert 0 in NodesOf(FirstCycle(edges).value);
      assert !ReportsTheCycle(edges, g);
    } else {
      forall edges | Draws(edges, g) ensures ReportsTheCycle(edges, g) { NoForkReportsTheCycle(edges); }
    }
  }

  /** Nor does anything less keep the report one cycle: where all cycles lie in one component, every order
      reports nodes that lie on common cycles only if it reports all of them. */
  lemma EveryOrderReportsOneCycle(g: Graph)
    requires InRange(g) && HasCycle(g) && OneComponent(g)
    ensures (forall edges :: Draws(edges, g) ==> ReportsOneCycle(edges)) <==> forall x: nat :: !Forks(g, x)
  {
    hide Forks, Cyclic, OneComponent, Reaches;
    if x: nat :| Forks(g, x) {
      var edges := ForkIsMissed(g, x);
      assert !ReportsOneCycle(edges);
    } else {
      forall edges | Draws(edges, g) ensures ReportsOneCycle(edges) { NoForkReportsTheCycle(edges); }
    }
  }

  /** So without a fork two runs report the same nodes. */
  lemma OneComponentIsStable(one: Edges, two: Edges)
    requires EdgesInRange(one) && EdgesInRange(two) && GraphOf(one) == GraphOf(two)
    requires HasCycle(GraphOf(one)) && OneComponent(GraphOf(one)) && forall x: nat :: !Forks(GraphOf(one), x)
    ensures FirstCycle(one).Some? && FirstCycle(two).Some?
    ensures NodesOf(FirstCycle(one).value) == NodesOf(FirstCycle(two).value)
  {
    NoForkReportsTheCycle(one);
    NoForkReportsTheCycle(two);
  }
}
