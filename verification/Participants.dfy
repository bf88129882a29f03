/** The cycle detector's final report (`eval/locals.rs`): what it is on every graph, when it is one cycle,
    a component, or the first component found. */
module Participants {
  import opened Ir
  import opened Graphs
  import opened Tarjan
  import opened CycleReports

  /** Node 0, still open at the first find, goes on to pop whatever is left: it leads to something
      unvisited, and it has a self-loop or is not alone in that. */
  ghost predicate Overrun(edges: Edges, h: State) {
    && h.stack != [] && h.stack[0] == 0 && 0 < |edges| && Strands(edges, h, 0)
    && (0 in edges[0] || exists i :: 0 < i < |h.stack| && Strands(edges, h, h.stack[i]))
  }

  /** The state of the first find: a component has just been popped, and every open node leads to it. */
  ghost predicate FirstFind(edges: Edges, h: State) {
    && Stacked(edges, h) && Closed(edges, h)
    && h.found.Some? && Component(edges, h.found.value) && Leads(edges, h, 0)
    && (forall w: nat :: w in h.found.value ==> Off(h, w))
  }

  /** What is reported, given the state `h` of the first find. */
  ghost predicate Report(edges: Edges, h: State, nodes: seq<nat>) {
    && FirstFind(edges, h)
    && if Overrun(edges, h) then
         && (forall x: nat :: x in nodes <==> x in h.stack && Strands(edges, h, x))
         && (forall x: nat :: x in nodes ==> x == 0 || Reach(edges, 0, x))
       else
         && Component(edges, nodes)
         && (nodes == h.found.value <==> forall x: nat :: x in h.stack ==> Strands(edges, h, x) || !Reach(edges, x, x))
  }

  // ---- from the last root test to the report --------------------------------------------------

  lemma NotOnStack(edges: Edges, h: State, r: State, i: nat)
    requires Stacked(edges, h) && Stacked(edges, r) && SameVisits(h, r) && |r.stack| <= i < |h.stack|
    ensures Off(r, h.stack[i])
  {
    assert 0 <= Idx(h, h.stack[i]) == Idx(r, h.stack[i]);
    if On(r, h.stack[i]) {
      var j := StackPosition(edges, r, h.stack[i]);
      PositionOrder(edges, h, i, j);
    }
  }

  lemma PoppedNeverStrands(edges: Edges, h: State, r: State, i: nat)
    requires Stacked(edges, h) && Stacked(edges, r) && SameVisits(h, r) && Closed(edges, r) && |r.stack| <= i < |h.stack|
    ensures !Strands(edges, h, h.stack[i])
  {
    NotOnStack(edges, h, r, i);
    OffNeverStrands(edges, r, h.stack[i]);
    StrandsAlike(edges, h, r, h.stack[i]);
  }

  /** Under a root that leads to something unvisited, so does every node left on the stack. */
  lemma {:induction false} LeftOversStrand(v: nat, edges: Edges, h: State, r: State, i: nat)
    requires i < |r.stack| && r.stack[0] == v && SameVisits(h, r) && Strands(edges, r, v) && Hangs(edges, r, v, 0)
    ensures Strands(edges, h, r.stack[i])
    decreases i
  {
    StrandsAlike(edges, h, r, r.stack[i]);
    if i > 0 && ReachesBelow(edges, r, i) {
      var j :| 0 <= j < i && Reach(edges, r.stack[i], r.stack[j]);
      LeftOversStrand(v, edges, h, r, j);
      StrandsBack(edges, h, r.stack[i], r.stack[j]);
    }
  }

  lemma AllPopped(edges: Edges, h: State, r: State)
    requires FirstFind(edges, h) && SameVisits(h, r) && Stacked(edges, r) && Closed(edges, r) && Tops(edges, h, r) && r.stack == []
    ensures Report(edges, h, r.found.value)
  {
    forall i | 0 <= i < |h.stack| ensures !Strands(edges, h, h.stack[i]) { PoppedNeverStrands(edges, h, r, i); }
    hide Stacked, Closed, Component, Leads, Strands, Reach;
    forall x: nat | x in h.stack ensures !Strands(edges, h, x) {
      var i :| 0 <= i < |h.stack| && h.stack[i] == x;
    }
    CycleOnStack(edges, h, 0);
  }

  /** Positions and members say the same about cycles. */
  lemma CycleOnStack(edges: Edges, h: State, from: nat)
    requires from <= |h.stack|
    requires forall i :: 0 <= i < from ==> Strands(edges, h, h.stack[i])
    requires forall i :: from <= i < |h.stack| ==> !Strands(edges, h, h.stack[i])
    ensures (forall i :: from <= i < |h.stack| ==> !Reach(edges, h.stack[i], h.stack[i])) <==>
            (forall x: nat :: x in h.stack ==> Strands(edges, h, x) || !Reach(edges, x, x))
  {
    hide Strands, Reach;
    if forall i :: from <= i < |h.stack| ==> !Reach(edges, h.stack[i], h.stack[i]) {
      forall x: nat | x in h.stack ensures Strands(edges, h, x) || !Reach(edges, x, x) {
        var i :| 0 <= i < |h.stack| && h.stack[i] == x;
      }
    }
    if forall x: nat :: x in h.stack ==> Strands(edges, h, x) || !Reach(edges, x, x) {
      forall i | from <= i < |h.stack| ensures !Reach(edges, h.stack[i], h.stack[i]) {
        assert h.stack[i] in h.stack;
      }
    }
  }

  lemma LeftBehind(v: nat, edges: Edges, h: State, r: State)
    requires FirstFind(edges, h) && SameVisits(h, r) && Stacked(edges, r) && Closed(edges, r) && Tops(edges, h, r)
    requires r.stack != [] && r.stack[0] == v && Strands(edges, r, v) && Hangs(edges, r, v, 0)
    requires v != 0 || (|r.stack| == 1 && 0 < |edges| && 0 !in edges[0])
    ensures Report(edges, h, r.found.value)
  {
    forall i | 0 <= i < |r.stack| ensures Strands(edges, h, h.stack[i]) { LeftOversStrand(v, edges, h, r, i); }
    forall i | |r.stack| <= i < |h.stack| ensures !Strands(edges, h, h.stack[i]) { PoppedNeverStrands(edges, h, r, i); }
    hide Stacked, Closed, Component, Leads, Strands, Reach;
    CycleOnStack(edges, h, |r.stack|);
  }

  /** Membership by position: the first `n` positions strand, the others do not. */
  lemma StrandedMembers(edges: Edges, h: State, n: nat, nodes: seq<nat>)
    requires n <= |h.stack| && NodesOf(nodes) == NodesOf(h.stack[..n])
    requires forall i :: 0 <= i < n ==> Strands(edges, h, h.stack[i])
    requires forall i :: n <= i < |h.stack| ==> !Strands(edges, h, h.stack[i])
    ensures forall x: nat :: x in nodes <==> x in h.stack && Strands(edges, h, x)
  {
    hide Strands;
    forall x: nat ensures x in nodes <==> x in h.stack && Strands(edges, h, x) {
      assert x in nodes <==> x in NodesOf(nodes);
      assert x in h.stack[..n] <==> x in NodesOf(h.stack[..n]);
      if x in h.stack[..n] {
        var i :| 0 <= i < n && h.stack[..n][i] == x;
        assert h.stack[i] == x;
      }
      if x in h.stack && Strands(edges, h, x) {
        var i :| 0 <= i < |h.stack| && h.stack[i] == x;
        assert h.stack[..n][i] == x;
      }
    }
  }

  lemma HangingMembers(edges: Edges, st: State, nodes: seq<nat>)
    requires st.stack != [] && st.stack[0] == 0 && Hangs(edges, st, 0, 0) && NodesOf(nodes) == NodesOf(st.stack)
    ensures forall x: nat :: x in nodes ==> x == 0 || Reach(edges, 0, x)
  {
    hide Reach;
    forall x: nat | x in nodes ensures x == 0 || Reach(edges, 0, x) {
      assert x in NodesOf(nodes) && x in NodesOf(st.stack);
      var i :| 0 <= i < |st.stack| && st.stack[i] == x;
    }
  }

  /** Node 0 takes everything that is left. */
  lemma TakesAll(edges: Edges, h: State, st: State, nodes: seq<nat>)
    requires FirstFind(edges, h) && SameVisits(h, st) && Stacked(edges, st) && Closed(edges, st)
    requires st.stack != [] && st.stack[0] == 0 && Strands(edges, st, 0) && Hangs(edges, st, 0, 0)
    requires 0 < |edges| && (|st.stack| > 1 || 0 in edges[0]) && NodesOf(nodes) == NodesOf(st.stack)
    ensures Report(edges, h, nodes)
  {
    forall i | 0 <= i < |st.stack| ensures Strands(edges, h, h.stack[i]) { LeftOversStrand(0, edges, h, st, i); }
    forall i | |st.stack| <= i < |h.stack| ensures !Strands(edges, h, h.stack[i]) { PoppedNeverStrands(edges, h, st, i); }
    hide Stacked, Closed, Component, Leads, Strands, Reach;
    assert st.stack == h.stack[..|st.stack|];
    if |st.stack| > 1 { assert Strands(edges, h, h.stack[1]); }
    assert h.stack[0] == 0 && Overrun(edges, h);
    StrandedMembers(edges, h, |st.stack|, nodes);
    HangingMembers(edges, st, nodes);
    hide Overrun, FirstFind;
  }

  // ---- the two kinds of search roots ----------------------------------------------------------

  /** The call on a node visited after others: its lowlink can reach 0, its index cannot. */
  lemma LaterRoot(v: nat, edges: Edges, st: State, order: seq<nat>)
    requires Stacked(edges, st) && st.found.None? && Completed(edges, st, order) && Fresh(edges, st)
    requires v < |edges| && Idx(st, v) < 0 && st.stack == [] && st.index > 0 && v != 0
    ensures var r, h := Connect(v, edges, st), UntilConnect(v, edges, st);
            if r.found.None? then h == r else h.found.Some? && Report(edges, h, r.found.value)
  {
    ConnectReport(v, edges, st, order);
    var r, h := Connect(v, edges, st), UntilConnect(v, edges, st);
    if r.found.Some? {
      if Returned(v, 0, st.index, edges, r) {
        AllPopped(edges, h, r);
      } else {
        LeftBehind(v, edges, h, r);
      }
    }
  }

  /** The call on node 0, visited first: its index is 0, so it is a root whatever its lowlink. */
  lemma FirstRoot(edges: Edges, st: State, order: seq<nat>)
    requires Stacked(edges, st) && st.found.None? && Completed(edges, st, order) && Fresh(edges, st)
    requires 0 < |edges| && Idx(st, 0) < 0 && st.stack == [] && st.index == 0
    ensures var r, h := Connect(0, edges, st), UntilConnect(0, edges, st);
            if r.found.None? then h == r else h.found.Some? && Report(edges, h, r.found.value)
  {
    ConnectReport(0, edges, st, order);
    var pushed := Push(0, st);
    assert 0 in Unvisited(st) && 0 !in Unvisited(pushed);
    PushActive(0, edges, st, order);
    PushFresh(0, edges, st);
    VisitReported(0, 0, 0, edges, pushed, order);
    var done, h := Visit(0, 0, edges, pushed), UntilConnect(0, edges, st);
    hide Caught, Aftermath, Active, Completed, Post, Visit, UntilVisit, Finish, Report;
    if done.found.None? {
      var d, order' := VisitCorrect(0, 0, 0, edges, pushed, order);
      FinishFinds(0, 0, edges, st, done, order');
      if Finish(0, edges, done).found.Some? { FoundAtRoot(edges, st, h); }
    } else {
      assert UntilVisit(0, 0, edges, pushed) == h;
      CaughtSincePush(0, 0, edges, st, h);
      FrameSincePush(0, st, done);
      FirstRootFinish(edges, st, h, done);
    }
  }

  lemma FoundAtRoot(edges: Edges, st: State, r: State)
    requires Caught(0, edges, st, r) && Aftermath(0, 0, edges, st, r, r) && r.stack == []
    ensures Report(edges, r, r.found.value)
  {
    AllPopped(edges, r, r);
  }

  lemma FirstRootFinish(edges: Edges, st: State, h: State, done: State)
    requires 0 < |edges| && Caught(0, edges, st, h) && Post(0, |edges[0]|, 0, edges, h, done) && Idx(done, 0) == 0
    ensures var r := Finish(0, edges, done); r.found.Some? && Report(edges, h, r.found.value)
  {
    var r := Finish(0, edges, done);
    if Active(0, |edges[0]|, 0, edges, done) {
      assert Low(done, 0) == 0;
      GroupPopped(0, 0, edges, done);
      TopsPopped(0, 0, edges, h, done);
      AllPopped(edges, h, r);
    } else {
      forall i | 0 < i < |done.stack| ensures done.stack[i] != 0 { PositionOrder(edges, done, 0, i); }
      PopToSuffix(done.stack, 0);
      PoppedAreGroup(done.stack, 0);
      assert done.stack[0..] == done.stack;
      if |done.stack| > 1 || 0 in edges[0] {
        TakesAll(edges, h, done, r.found.value);
      } else {
        LeftBehind(0, edges, h, done);
      }
    }
  }

  // ---- the search -----------------------------------------------------------------------------

  lemma {:induction false} SearchReport(v: nat, edges: Edges, st: State, order: seq<nat>)
    requires Stacked(edges, st) && st.found.None? && st.stack == [] && Completed(edges, st, order) && Fresh(edges, st)
    requires v <= |edges| && (st.index == 0 <==> v == 0)
    requires v == 0 ==> forall w: nat :: Idx(st, w) < 0
    ensures var r, h := Search(v, edges, st), UntilSearch(v, edges, st);
            r.found.Some? ==> h.found.Some? && Report(edges, h, r.found.value)
    decreases |edges| - v
  {
    if v < |edges| {
      if 0 <= Idx(st, v) {
        SearchReport(v + 1, edges, st, order);
      } else {
        hide Report;
        if v == 0 { FirstRoot(edges, st, order); } else { LaterRoot(v, edges, st, order); }
        var o := ConnectCorrect(v, edges, st, order);
        var r := Connect(v, edges, st);
        if r.found.None? {
          assert r.stack == [] && r.index > 0;
          ConnectFresh(v, edges, st);
          SearchReport(v + 1, edges, r, o);
        }
      }
    }
  }

  /** What the detector reports on a cyclic graph. Let `h` be the state of the first find. Normally the
      report is a component, still the first one found exactly when no node open at the find lies on a
      cycle of visited nodes. But if node 0 is open then and leads to something unvisited, as does another
      open node (or 0 has a self-loop), the report is the open nodes that lead to something unvisited. */
  lemma ReportIsExact(edges: Edges)
    requires EdgesInRange(edges) && FirstCycle(edges).Some?
    ensures AtFind(edges).found.Some? && Report(edges, AtFind(edges), FirstCycle(edges).value)
  {
    SearchReport(0, edges, Initial(|edges|), []);
  }

  /** The first vector assigned is a strongly connected component with a cycle. */
  lemma FirstFindIsComponent(edges: Edges)
    requires EdgesInRange(edges) && HasCycle(GraphOf(edges))
    ensures AtFind(edges).found.Some? && Component(edges, AtFind(edges).found.value)
  {
    var rank := DetectionIsExact(edges);
    ReportIsExact(edges);
  }

  lemma {:induction false} OpenLeadsToFirst(edges: Edges, h: State, i: nat)
    requires h.found.Some? && h.found.value != [] && Leads(edges, h, 0) && i < |h.stack|
    ensures Reach(edges, h.stack[i], h.found.value[0])
    decreases i
  {
    if !Reach(edges, h.stack[i], h.found.value[0]) {
      var j :| 0 <= j < i && Reach(edges, h.stack[i], h.stack[j]);
      OpenLeadsToFirst(edges, h, j);
      ReachTrans(edges, h.stack[i], h.stack[j], h.found.value[0]);
    }
  }

  /** On every graph, every reported node leads to a cycle. */
  lemma ReportedNodesLeadToCycles(edges: Edges)
    requires EdgesInRange(edges) && FirstCycle(edges).Some?
    ensures forall x: nat :: x in FirstCycle(edges).value ==> LeadsToCycle(GraphOf(edges), x)
  {
    ReportIsExact(edges);
    var h, nodes := AtFind(edges), FirstCycle(edges).value;
    ComponentReaches(edges, h.found.value, h.found.value[0]);
    forall x: nat | x in nodes ensures LeadsToCycle(GraphOf(edges), x) {
      if Overrun(edges, h) {
        var i :| 0 <= i < |h.stack| && h.stack[i] == x;
        OpenLeadsToFirst(edges, h, i);
      } else {
        ComponentReaches(edges, nodes, x);
      }
    }
  }

  /** Every two reported nodes lie on one cycle exactly when, in the overrun case, every open node that
      leads to something unvisited also leads back to node 0. */
  lemma ReportIsOneCycle(edges: Edges)
    requires EdgesInRange(edges) && FirstCycle(edges).Some?
    ensures var h := AtFind(edges);
            Mutual(edges, FirstCycle(edges).value) <==>
            (Overrun(edges, h) ==> forall i :: 0 < i < |h.stack| && Strands(edges, h, h.stack[i]) ==> Reach(edges, h.stack[i], 0))
  {
    ReportIsExact(edges);
    var h, nodes := AtFind(edges), FirstCycle(edges).value;
    if Overrun(edges, h) {
      hide Overrun, Report, Strands, Reach, Stacked, Closed, Leads;
      OverrunFacts(edges, h, nodes);
      if Mutual(edges, nodes) {
        forall i | 0 < i < |h.stack| && Strands(edges, h, h.stack[i]) ensures Reach(edges, h.stack[i], 0) {
          assert h.stack[i] in nodes && 0 in nodes;
        }
      }
      if forall i :: 0 < i < |h.stack| && Strands(edges, h, h.stack[i]) ==> Reach(edges, h.stack[i], 0) {
        OverrunMutual(edges, h, nodes);
      }
    }
  }

  lemma OverrunFacts(edges: Edges, h: State, nodes: seq<nat>)
    requires Report(edges, h, nodes) && Overrun(edges, h)
    ensures 0 in nodes && h.stack != [] && h.stack[0] == 0 && 0 < |edges|
    ensures 0 in edges[0] || exists i :: 0 < i < |h.stack| && Strands(edges, h, h.stack[i])
    ensures forall x: nat :: x in nodes <==> x in h.stack && Strands(edges, h, x)
    ensures forall x: nat :: x in nodes ==> x == 0 || Reach(edges, 0, x)
    ensures forall i :: 0 < i < |h.stack| ==> h.stack[i] != 0
  {
    forall i | 0 < i < |h.stack| ensures h.stack[i] != 0 { PositionOrder(edges, h, 0, i); }
    assert 0 in h.stack;
  }

  lemma OverrunMutual(edges: Edges, h: State, nodes: seq<nat>)
    requires Report(edges, h, nodes) && Overrun(edges, h)
    requires forall i :: 0 < i < |h.stack| && Strands(edges, h, h.stack[i]) ==> Reach(edges, h.stack[i], 0)
    ensures Mutual(edges, nodes)
  {
    OverrunFacts(edges, h, nodes);
    assert Reach(edges, 0, 0) by {
      if 0 in edges[0] {
        var k :| 0 <= k < |edges[0]| && edges[0][k] == 0;
        EdgeReach(edges, 0, k);
      } else {
        var i :| 0 < i < |h.stack| && Strands(edges, h, h.stack[i]);
        assert h.stack[i] in nodes;
        ReachTrans(edges, 0, h.stack[i], 0);
      }
    }
    forall x: nat | x in nodes ensures Reach(edges, x, 0) && Reach(edges, 0, x) {
      var i :| 0 <= i < |h.stack| && h.stack[i] == x;
    }
    forall x: nat, y: nat | x in nodes && y in nodes ensures Reach(edges, x, y) { ReachTrans(edges, x, 0, y); }
  }

  /** The report is a whole component exactly when, in the overrun case, it is one cycle and nothing
      unvisited belongs to it. */
  lemma ReportIsComponent(edges: Edges)
    requires EdgesInRange(edges) && FirstCycle(edges).Some?
    ensures var h := AtFind(edges);
            Component(edges, FirstCycle(edges).value) <==>
            (Overrun(edges, h) ==>
               && (forall i :: 0 < i < |h.stack| && Strands(edges, h, h.stack[i]) ==> Reach(edges, h.stack[i], 0))
               && !exists u: nat :: u < |edges| && Idx(h, u) < 0 && Reach(edges, 0, u) && Reach(edges, u, 0))
  {
    ReportIsExact(edges);
    ReportIsOneCycle(edges);
    var h, nodes := AtFind(edges), FirstCycle(edges).value;
    if Overrun(edges, h) {
      OverrunFacts(edges, h, nodes);
      if Component(edges, nodes) {
        forall u: nat | u < |edges| && Reach(edges, 0, u) && Reach(edges, u, 0) ensures 0 <= Idx(h, u) {
          assert u in nodes && u in h.stack;
        }
      } else if Mutual(edges, nodes) {
        var x: nat, y: nat :| x in nodes && Reach(edges, x, y) && Reach(edges, y, x) && y !in nodes;
        OutsideIsUnvisited(edges, h, nodes, x, y);
      }
    }
  }

  lemma ReachInRange(edges: Edges, x: nat, y: nat)
    requires Reach(edges, x, y)
    ensures x < |edges| && y < |edges|
  {
  }

  /** A node outside the overrun report that shares a cycle with a member has not been visited. */
  lemma OutsideIsUnvisited(edges: Edges, h: State, nodes: seq<nat>, x: nat, y: nat)
    requires Report(edges, h, nodes) && Overrun(edges, h) && Mutual(edges, nodes)
    requires x in nodes && Reach(edges, x, y) && Reach(edges, y, x) && y !in nodes
    ensures y < |edges| && Idx(h, y) < 0 && Reach(edges, 0, y) && Reach(edges, y, 0)
  {
    OverrunFacts(edges, h, nodes);
    ReachInRange(edges, x, y);
    ReachTrans(edges, 0, x, y);
    ReachTrans(edges, y, x, 0);
    StrandsBack(edges, h, y, x);
    if 0 <= Idx(h, y) {
      if On(h, y) {
        var i := StackPosition(edges, h, y);
        assert false;
      } else {
        OffNeverStrands(edges, h, y);
        assert false;
      }
    }
  }

  /** The report is the first component found exactly when there is no overrun and no open node that
      leads only to visited ones lies on a cycle. */
  lemma ReportIsFirstFind(edges: Edges)
    requires EdgesInRange(edges) && FirstCycle(edges).Some?
    ensures var h := AtFind(edges);
            FirstCycle(edges) == h.found <==>
            !Overrun(edges, h) && forall x: nat :: x in h.stack ==> Strands(edges, h, x) || !Reach(edges, x, x)
  {
    ReportIsExact(edges);
    var h, nodes := AtFind(edges), FirstCycle(edges).value;
    if Overrun(edges, h) {
      OverrunFacts(edges, h, nodes);
      assert On(h, 0) && 0 !in h.found.value;
    }
  }

  ghost predicate SingleSuccessors(edges: Edges) {
    forall v :: 0 <= v < |edges| ==> |edges[v]| <= 1
  }

  /** In particular it is when no node has two outgoing edges. */
  lemma SingleSuccessorsReportFirstFind(edges: Edges)
    requires EdgesInRange(edges) && FirstCycle(edges).Some? && SingleSuccessors(edges)
    ensures FirstCycle(edges) == AtFind(edges).found && Component(edges, FirstCycle(edges).value)
  {
    ReportIsExact(edges);
    ReportIsFirstFind(edges);
    var h := AtFind(edges);
    forall x: nat | x in h.stack ensures !Strands(edges, h, x) && !Reach(edges, x, x) {
      var i :| 0 <= i < |h.stack| && h.stack[i] == x;
      OpenLeadsToFirst(edges, h, i);
      NothingUnvisited(edges, h, x);
      if Reach(edges, x, x) {
        WalkComesBack(edges, x, h.found.value[0]);
        OffIsNotOn(edges, h, h.found.value[0], x);
        assert false;
      }
    }
  }

  lemma NothingUnvisited(edges: Edges, h: State, x: nat)
    requires FirstFind(edges, h) && SingleSuccessors(edges) && x in h.stack
    ensures !Strands(edges, h, x)
  {
    var visited := NodesOf(h.stack) + OffNodes(h);
    forall w: nat, m | w in visited && w < |edges| && 0 <= m < |edges[w]| ensures edges[w][m] in visited {
      var d := edges[w][m];
      if w in h.stack {
        var i :| 0 <= i < |h.stack| && h.stack[i] == w;
        assert Entered(edges, h, w);
        var e :| 0 <= e < |edges[w]| && OnTheWay(edges, h, edges[w][e]);
        assert e == m;
        assert On(h, d) ==> d in h.stack;
      }
    }
    if Strands(edges, h, x) {
      var u: nat :| u < |edges| && Idx(h, u) < 0 && Reach(edges, x, u);
      ReachStaysIn(edges, visited, x, u);
    }
  }

  /** Where every node has one way to go, a walk around a cycle passes everything it can reach. */
  lemma WalkComesBack(edges: Edges, x: nat, y: nat)
    requires SingleSuccessors(edges) && EdgesInRange(edges) && Reach(edges, x, x) && Reach(edges, x, y)
    ensures Reach(edges, y, x)
  {
    ReachInRange(edges, x, y);
    var back := set w: nat | w < |edges| && Reach(edges, w, x);
    forall w: nat, m | w in back && w < |edges| && 0 <= m < |edges[w]| ensures edges[w][m] in back {
      var p :| IsPath(GraphOf(edges), p) && p[0] == w && p[|p| - 1] == x;
      assert p[1] in GraphOf(edges)[w] && p[1] == edges[w][m];
      if |p| > 2 { assert IsPath(GraphOf(edges), p[1..]); }
    }
    ReachStaysIn(edges, back, x, y);
  }

  // ---- the order of the edges -----------------------------------------------------------------

  /** A node whose only edge is a self-loop is found at once and alone. */
  lemma SelfLoopFinds(a: nat, edges: Edges, before: State)
    requires Shaped(edges, before) && a < |edges| && edges[a] == [a] && before.found.None? && before.indices[a].None?
    ensures var r := Connect(a, edges, before);
            && r.found == Some([a]) && r.stack == before.stack
            && r.indices == before.indices[a := Some(before.index)] && r.lowlinks == before.lowlinks[a := before.index]
  {
    var pushed := Push(a, before);
    assert Lower(a, before.index, pushed) == pushed by {
      assert pushed.lowlinks[a := before.index] == pushed.lowlinks;
    }
    assert Visit(a, 1, edges, pushed) == pushed;
    assert Visit(a, 0, edges, pushed) == pushed;
    var n := |before.stack|;
    assert pushed.stack[n] == a && pushed.stack[..n] == before.stack;
    assert PopTo(pushed.stack, a) == ([a], before.stack);
  }

  lemma NothingLower(w: nat, st: State)
    requires w < |st.lowlinks| && st.lowlinks[0] == 0
    ensures Lower(0, st.lowlinks[w], st) == st
  {
    assert st.lowlinks[0 := 0] == st.lowlinks;
  }

  lemma PassesSecond(a: nat, b: nat, edges: Edges, pushed: State, child: State)
    requires |edges| == 3 && edges[0] == [a, b] && {a, b} == {1, 2}
    requires Shaped(edges, pushed) && pushed.indices[a].None? && pushed.found.None?
    requires child == Connect(a, edges, pushed) && child.found.Some? && child.lowlinks[0] == 0
    requires child.indices[b].None? && Connect(b, edges, child) == child
    ensures Visit(0, 0, edges, pushed) == child
  {
    hide Connect, Lower;
    NothingLower(a, child);
    NothingLower(b, child);
    assert Visit(0, 2, edges, child) == child;
  }

  /** Node 0 passes over its second successor and reports nothing itself. */
  lemma FirstEdgeIsReported(a: nat, b: nat, edges: Edges)
    requires edges == [[a, b], [1], [2]] && {a, b} == {1, 2}
    ensures EdgesInRange(edges) && FirstCycle(edges) == Some([a])
  {
    var start := Initial(3);
    var pushed := Push(0, start);
    assert pushed.indices == [Some(0), None, None] && pushed.lowlinks == [0, 0, 0] && pushed.stack == [0];
    assert edges[a] == [a] && a < 3 && b < 3;
    SelfLoopFinds(a, edges, pushed);
    var child := Connect(a, edges, pushed);
    hide Finish, PopTo, Visit;
    assert Connect(b, edges, child) == child;
    PassesSecond(a, b, edges, pushed, child);
    PopsAlone(edges, child);
    assert Connect(0, edges, start).found == Some([a]);
    assert Search(0, edges, start) == Search(1, edges, Connect(0, edges, start));
  }

  lemma PopsAlone(edges: Edges, st: State)
    requires Shaped(edges, st) && 0 < |edges| && st.stack == [0] && 0 !in edges[0]
    ensures Finish(0, edges, st).found == st.found
  {
    assert st.stack[..0] == [];
    assert PopTo(st.stack, 0) == ([0], []);
  }

  /** The report depends on the order in which the edges of a node are listed, which the caller draws from
      a hash set. */
  lemma EdgeOrderDecides()
    ensures var one: Edges, two: Edges := [[1, 2], [1], [2]], [[2, 1], [1], [2]];
            && EdgesInRange(one) && EdgesInRange(two) && GraphOf(one) == GraphOf(two)
            && FirstCycle(one) == Some([1]) && FirstCycle(two) == Some([2])
  {
    var one: Edges, two: Edges := [[1, 2], [1], [2]], [[2, 1], [1], [2]];
    FirstEdgeIsReported(1, 2, one);
    FirstEdgeIsReported(2, 1, two);
    assert GraphOf(one)[0] == {1, 2} == GraphOf(two)[0];
    assert forall v :: 0 < v < 3 ==> one[v] == two[v];
    assert GraphOf(one) == GraphOf(two);
  }
}
