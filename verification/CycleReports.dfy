/** Which nodes the cycle detector reports (`eval/locals.rs`). The first component it finds is one; but
    the calls still open at that moment run on, skip what is unvisited and may report again. */
module CycleReports {
  import opened Graphs
  import opened Tarjan

  // ---- the run up to the first find -----------------------------------------------------------

  /** `Connect`, left as soon as something is found. */
  function UntilConnect(v: nat, edges: Edges, st: State): (r: State)
    requires Shaped(edges, st) && v < |edges| && st.indices[v].None?
    ensures Shaped(edges, r) && Unvisited(r) <= Unvisited(st)
    decreases Unvisited(st), 0
  {
    if st.found.Some? then st
    else
      var pushed := Push(v, st);
      assert v in Unvisited(st) && v !in Unvisited(pushed);
      var done := UntilVisit(v, 0, edges, pushed);
      if done.found.Some? then done else Finish(v, edges, done)
  }

  function UntilVisit(v: nat, k: nat, edges: Edges, st: State): (r: State)
    requires Shaped(edges, st) && v < |edges| && k <= |edges[v]|
    ensures Shaped(edges, r) && Unvisited(r) <= Unvisited(st)
    decreases Unvisited(st), |edges[v]| - k
  {
    if k == |edges[v]| || st.found.Some? then st
    else
      var w := edges[v][k];
      if st.indices[w].None? then
        var child := UntilConnect(w, edges, st);
        if child.found.Some? then child else UntilVisit(v, k + 1, edges, Lower(v, child.lowlinks[w], child))
      else UntilVisit(v, k + 1, edges, if st.onStack[w] then Lower(v, st.indices[w].value, st) else st)
  }

  function UntilSearch(v: nat, edges: Edges, st: State): (r: State)
    requires Shaped(edges, st) && v <= |edges|
    decreases |edges| - v
  {
    if v == |edges| || st.found.Some? then st
    else UntilSearch(v + 1, edges, if st.indices[v].None? then UntilConnect(v, edges, st) else st)
  }

  /** The state in which `found` is assigned for the first time. */
  function AtFind(edges: Edges): State
    requires EdgesInRange(edges)
  {
    UntilSearch(0, edges, Initial(|edges|))
  }

  // ---- what holds at the first find -----------------------------------------------------------

  /** `x` leads to a node that has not been visited. */
  ghost predicate Strands(edges: Edges, st: State, x: nat) {
    exists u: nat :: u < |edges| && Idx(st, u) < 0 && Reach(edges, x, u)
  }

  ghost predicate ReachesBelow(edges: Edges, st: State, i: nat) {
    i < |st.stack| && exists j :: 0 <= j < i && Reach(edges, st.stack[i], st.stack[j])
  }

  /** From position `b` up, every stack node leads to the component found, directly or by way of a lower
      position, and has entered a successor on the way there. */
  ghost predicate Leads(edges: Edges, h: State, b: nat)
    requires h.found.Some? && h.found.value != []
  {
    forall i :: b <= i < |h.stack| ==>
      (Reach(edges, h.stack[i], h.found.value[0]) || ReachesBelow(edges, h, i)) && Entered(edges, h, h.stack[i])
  }

  /** `x` has a visited successor that is still open or leads to the component found. */
  ghost predicate Entered(edges: Edges, h: State, x: nat)
    requires h.found.Some? && h.found.value != []
  {
    x < |edges| && exists m :: 0 <= m < |edges[x]| && OnTheWay(edges, h, edges[x][m])
  }

  ghost predicate OnTheWay(edges: Edges, h: State, d: nat)
    requires h.found.Some? && h.found.value != []
  {
    0 <= Idx(h, d) && (On(h, d) || Reach(edges, d, h.found.value[0]))
  }

  /** `h` is the state of the first find, reached from `before`, whose stack ended at position `b`. */
  ghost predicate Caught(b: nat, edges: Edges, before: State, h: State) {
    && Stacked(edges, h) && Closed(edges, h) && Framed(before, h)
    && h.found.Some? && Component(edges, h.found.value) && Leads(edges, h, b)
    && (forall w: nat :: w in h.found.value ==> Off(h, w))
  }

  // ---- what holds afterwards ------------------------------------------------------------------

  /** An unvisited node still has the lowlink it was born with. */
  ghost predicate Fresh(edges: Edges, st: State) {
    forall u: nat :: u < |edges| && Idx(st, u) < 0 ==> Low(st, u) == 0
  }

  /** Nothing is visited after the first find. */
  ghost predicate SameVisits(h: State, st: State) {
    st.index == h.index && st.indices == h.indices && st.stack <= h.stack
  }

  /** What is reported now is a component, and still the first one exactly when nothing popped since then
      lies on a cycle. */
  ghost predicate Tops(edges: Edges, h: State, st: State) {
    && h.found.Some? && st.found.Some? && Component(edges, st.found.value)
    && (forall w: nat :: w in h.found.value ==> Off(st, w))
    && (st.found == h.found <==> forall i :: |st.stack| <= i < |h.stack| ==> !Reach(edges, h.stack[i], h.stack[i]))
  }

  /** The nodes above position `b` hang on `v`, and each leads below itself or to something unvisited. */
  ghost predicate Hangs(edges: Edges, st: State, v: nat, b: nat) {
    forall i :: b < i < |st.stack| ==>
      Reach(edges, v, st.stack[i]) && (ReachesBelow(edges, st, i) || Strands(edges, st, st.stack[i]))
  }

  ghost predicate Stuck(edges: Edges, st: State, v: nat) {
    Low(st, v) == 0 && Strands(edges, st, v)
  }

  /** `v`, at position `b`, goes on after the find with its `k`-th edge: either its bookkeeping is still
      right, or it has met something unvisited and its lowlink is 0. */
  ghost predicate Post(v: nat, k: nat, b: nat, edges: Edges, h: State, st: State) {
    && v < |edges| && k <= |edges[v]| && b < |st.stack| && st.stack[b] == v
    && SameVisits(h, st) && Stacked(edges, st) && Closed(edges, st) && Tops(edges, h, st) && Hangs(edges, st, v, b)
    && (Active(v, k, b, edges, st) || Stuck(edges, st, v))
  }

  /** How the call on `v`, below which something was found, leaves the state. */
  ghost predicate Aftermath(v: nat, b: nat, edges: Edges, before: State, h: State, r: State) {
    && SameVisits(h, r) && Stacked(edges, r) && Closed(edges, r) && Tops(edges, h, r)
    && Framed(before, r) && SameLow(before, r)
    && (Returned(v, b, before.index, edges, r)
        || (b < |r.stack| && r.stack[b] == v && Stuck(edges, r, v) && Hangs(edges, r, v, b)))
  }

  // ---- small steps ----------------------------------------------------------------------------

  lemma PushFresh(v: nat, edges: Edges, st: State)
    requires Shaped(edges, st) && v < |edges| && Fresh(edges, st)
    ensures Fresh(edges, Push(v, st)) && Idx(Push(v, st), v) == st.index
  {
    var next := Push(v, st);
    forall u: nat | u < |edges| && Idx(next, u) < 0 ensures Low(next, u) == 0 { assert u != v && Idx(st, u) < 0; }
  }

  lemma LowerFresh(v: nat, low: nat, edges: Edges, st: State)
    requires Shaped(edges, st) && v < |edges| && Fresh(edges, st)
    ensures Fresh(edges, Lower(v, low, st))
  {
    var next := Lower(v, low, st);
    forall u: nat | u < |edges| && Idx(next, u) < 0 ensures Low(next, u) == 0 { assert Idx(st, u) < 0; }
  }

  lemma FinishFresh(v: nat, edges: Edges, st: State)
    requires Shaped(edges, st) && v < |edges| && Fresh(edges, st)
    ensures Fresh(edges, Finish(v, edges, st))
  {
    var next := Finish(v, edges, st);
    forall u: nat | u < |edges| && Idx(next, u) < 0 ensures Low(next, u) == 0 { assert Idx(st, u) < 0; }
  }

  lemma {:induction false} ConnectFresh(v: nat, edges: Edges, st: State)
    requires Shaped(edges, st) && v < |edges| && st.indices[v].None? && Fresh(edges, st)
    ensures Fresh(edges, Connect(v, edges, st))
    decreases Unvisited(st), 0
  {
    if st.found.None? {
      var pushed := Push(v, st);
      assert v in Unvisited(st) && v !in Unvisited(pushed);
      PushFresh(v, edges, st);
      VisitFresh(v, 0, edges, pushed);
      FinishFresh(v, edges, Visit(v, 0, edges, pushed));
    }
  }

  lemma {:induction false} VisitFresh(v: nat, k: nat, edges: Edges, st: State)
    requires Shaped(edges, st) && v < |edges| && k <= |edges[v]| && Fresh(edges, st)
    ensures Fresh(edges, Visit(v, k, edges, st))
    decreases Unvisited(st), |edges[v]| - k
  {
    if k < |edges[v]| {
      var w := edges[v][k];
      var next := st;
      if st.indices[w].None? {
        ConnectFresh(w, edges, st);
        var child := Connect(w, edges, st);
        next := Lower(v, child.lowlinks[w], child);
        LowerFresh(v, child.lowlinks[w], edges, child);
      } else if st.onStack[w] {
        next := Lower(v, st.indices[w].value, st);
        LowerFresh(v, st.indices[w].value, edges, st);
      }
      VisitFresh(v, k + 1, edges, next);
    }
  }

  lemma LowerClosed(v: nat, low: nat, edges: Edges, st: State)
    requires v < |st.lowlinks| && Closed(edges, st)
    ensures Closed(edges, Lower(v, low, st))
  {
    assert OffNodes(Lower(v, low, st)) == OffNodes(st);
  }

  lemma LinkedReachesBelow(edges: Edges, st: State, i: nat)
    requires Linked(edges, st, i)
    ensures ReachesBelow(edges, st, i)
  {
    var j :| 0 <= j < i && Idx(st, st.stack[j]) == Low(st, st.stack[i]) && Reach(edges, st.stack[i], st.stack[j]);
  }

  lemma AboveHangs(edges: Edges, st: State, v: nat, b: nat)
    requires Above(edges, st, v, b)
    ensures Hangs(edges, st, v, b)
  {
    forall i | b < i < |st.stack| ensures ReachesBelow(edges, st, i) { LinkedReachesBelow(edges, st, i); }
  }

  /** A walk starts with an edge. */
  lemma FirstEdge(edges: Edges, x: nat, y: nat) returns (m: nat)
    requires EdgesInRange(edges) && Reach(edges, x, y)
    ensures x < |edges| && m < |edges[x]| && (edges[x][m] == y || Reach(edges, edges[x][m], y))
  {
    var p :| IsPath(GraphOf(edges), p) && p[0] == x && p[|p| - 1] == y;
    assert p[1] in GraphOf(edges)[p[0]];
    m :| 0 <= m < |edges[x]| && edges[x][m] == p[1];
    if |p| > 2 { assert IsPath(GraphOf(edges), p[1..]); }
  }

  lemma StrandsAlike(edges: Edges, h: State, st: State, x: nat)
    requires st.indices == h.indices
    ensures Strands(edges, st, x) <==> Strands(edges, h, x)
  {
    if Strands(edges, st, x) {
      var u: nat :| u < |edges| && Idx(st, u) < 0 && Reach(edges, x, u);
      assert Idx(h, u) < 0;
    }
    if Strands(edges, h, x) {
      var u: nat :| u < |edges| && Idx(h, u) < 0 && Reach(edges, x, u);
      assert Idx(st, u) < 0;
    }
  }

  lemma StrandsBack(edges: Edges, st: State, x: nat, y: nat)
    requires Reach(edges, x, y) && Strands(edges, st, y)
    ensures Strands(edges, st, x)
  {
    var u: nat :| u < |edges| && Idx(st, u) < 0 && Reach(edges, y, u);
    ReachTrans(edges, x, y, u);
  }

  /** Off the stack nothing unvisited is in reach. */
  lemma OffNeverStrands(edges: Edges, st: State, x: nat)
    requires Closed(edges, st) && Off(st, x)
    ensures !Strands(edges, st, x)
  {
    if Strands(edges, st, x) {
      var u: nat :| u < |edges| && Idx(st, u) < 0 && Reach(edges, x, u);
      OffIsNotOn(edges, st, x, u);
    }
  }

  // ---- the edges left after the find ----------------------------------------------------------

  lemma StuckLowers(v: nat, low: nat, b: nat, edges: Edges, h: State, st: State)
    requires v < |edges| && b < |st.stack| && st.stack[b] == v && SameVisits(h, st)
    requires Stacked(edges, st) && Closed(edges, st) && Tops(edges, h, st) && Hangs(edges, st, v, b)
    ensures var next := Lower(v, low, st);
            && SameVisits(h, next) && Stacked(edges, next) && Closed(edges, next) && Tops(edges, h, next) && Hangs(edges, next, v, b)
            && Framed(st, next) && SameLowExcept(v, st, next)
            && (Strands(edges, st, v) && (low == 0 || Low(st, v) == 0) ==> Stuck(edges, next, v))
  {
    var next := Lower(v, low, st);
    LowerKeeps(v, low, b, edges, st);
    LowerClosed(v, low, edges, st);
    StrandsAlike(edges, st, next, v);
    hide Stacked, Closed, Tops;
    forall i | b < i < |next.stack|
      ensures Reach(edges, v, next.stack[i]) && (ReachesBelow(edges, next, i) || Strands(edges, next, next.stack[i]))
    {
      StrandsAlike(edges, st, next, st.stack[i]);
      if ReachesBelow(edges, st, i) {
        var j :| 0 <= j < i && Reach(edges, st.stack[i], st.stack[j]);
        assert Reach(edges, next.stack[i], next.stack[j]);
      }
    }
  }

  /** The state after `v`'s `k`-th edge, once something has been found: a call on an unvisited node
      returns at once. */
  function PostNext(v: nat, k: nat, edges: Edges, st: State): State
    requires Shaped(edges, st) && v < |edges| && k < |edges[v]|
  {
    var w := edges[v][k];
    if st.indices[w].None? then Lower(v, st.lowlinks[w], st)
    else if st.onStack[w] then Lower(v, st.indices[w].value, st)
    else st
  }

  lemma PostStep(v: nat, k: nat, b: nat, edges: Edges, h: State, st: State)
    requires v < |edges| && k < |edges[v]| && Post(v, k, b, edges, h, st) && Fresh(edges, st)
    ensures var next := PostNext(v, k, edges, st);
            && Post(v, k + 1, b, edges, h, next) && Fresh(edges, next) && Framed(st, next) && SameLowExcept(v, st, next)
    ensures Visit(v, k, edges, st) == Visit(v, k + 1, edges, PostNext(v, k, edges, st))
  {
    var w := edges[v][k];
    var next := PostNext(v, k, edges, st);
    EdgeReach(edges, v, k);
    hide Reach, Tops, Hangs, Closed, Above, OwnLink, Linked;
    if Idx(st, w) < 0 {
      assert Connect(w, edges, st) == st;
      assert Strands(edges, st, v);
      LowerFresh(v, st.lowlinks[w], edges, st);
      StuckLowers(v, st.lowlinks[w], b, edges, h, st);
    } else if On(st, w) {
      LowerFresh(v, st.indices[w].value, edges, st);
      StuckLowers(v, st.indices[w].value, b, edges, h, st);
      if Active(v, k, b, edges, st) {
        AfterBackEdge(v, k, b, edges, st);
      }
    }
  }

  lemma {:induction false} PostVisit(v: nat, k: nat, b: nat, edges: Edges, h: State, st: State)
    requires Post(v, k, b, edges, h, st) && Fresh(edges, st)
    ensures Shaped(edges, st) && v < |edges| && k <= |edges[v]|
    ensures var r := Visit(v, k, edges, st);
            Post(v, |edges[v]|, b, edges, h, r) && Framed(st, r) && SameLowExcept(v, st, r)
    decreases |edges[v]| - k
  {
    if k < |edges[v]| {
      hide Post, Fresh, Visit, PostNext, Framed, SameLowExcept;
      PostShaped(v, k, b, edges, h, st);
      var next := PostNext(v, k, edges, st);
      PostStep(v, k, b, edges, h, st);
      PostVisit(v, k + 1, b, edges, h, next);
      FramesCompose(v, st, next, Visit(v, k, edges, st));
    } else {
      FramedRefl(v, st);
    }
  }

  lemma FramesCompose(v: nat, a: State, b: State, c: State)
    requires Framed(a, b) && SameLowExcept(v, a, b) && Framed(b, c) && SameLowExcept(v, b, c)
    ensures Framed(a, c) && SameLowExcept(v, a, c)
  {
  }

  lemma FramedRefl(v: nat, a: State)
    ensures Framed(a, a) && SameLowExcept(v, a, a)
  {
  }

  lemma PostShaped(v: nat, k: nat, b: nat, edges: Edges, h: State, st: State)
    requires Post(v, k, b, edges, h, st)
    ensures Shaped(edges, st) && v < |edges| && k <= |edges[v]|
  {
  }

  // ---- returning from a call below which something was found ----------------------------------

  lemma ReachesBelowIn(edges: Edges, st: State, r: State, i: nat)
    requires ReachesBelow(edges, st, i) && st.stack <= r.stack
    ensures ReachesBelow(edges, r, i)
  {
    var j :| 0 <= j < i && Reach(edges, st.stack[i], st.stack[j]);
    assert Reach(edges, r.stack[i], r.stack[j]);
  }

  lemma ChildHangs(v: nat, k: nat, b: nat, edges: Edges, st: State, child: State)
    requires Active(v, k, b, edges, st) && k < |edges[v]| && Framed(st, child) && SameLow(st, child)
    requires var w, top := edges[v][k], |st.stack|;
             top < |child.stack| && child.stack[top] == w && Strands(edges, child, w) && Hangs(edges, child, w, top)
    ensures Hangs(edges, child, v, b) && Strands(edges, child, v)
  {
    var w, top := edges[v][k], |st.stack|;
    EdgeReach(edges, v, k);
    StrandsBack(edges, child, v, w);
    forall i | b < i < |child.stack|
      ensures Reach(edges, v, child.stack[i]) && (ReachesBelow(edges, child, i) || Strands(edges, child, child.stack[i]))
    {
      if i < top {
        assert Linked(edges, st, i) && Reach(edges, v, st.stack[i]);
        LinkedReachesBelow(edges, st, i);
        ReachesBelowIn(edges, st, child, i);
      } else if i > top {
        ReachTrans(edges, v, w, child.stack[i]);
      }
    }
  }

  lemma LowerPost(v: nat, low: nat, edges: Edges, h: State, st: State)
    requires v < |st.lowlinks| && SameVisits(h, st) && Closed(edges, st) && Tops(edges, h, st)
    ensures var next := Lower(v, low, st); SameVisits(h, next) && Closed(edges, next) && Tops(edges, h, next)
  {
    hide Component, Closed;
    LowerClosed(v, low, edges, st);
    var next := Lower(v, low, st);
    assert forall w: nat :: Off(next, w) == Off(st, w);
  }

  lemma AfterSoundChild(v: nat, k: nat, b: nat, edges: Edges, st: State, h: State, child: State)
    requires Active(v, k, b, edges, st) && k < |edges[v]| && Idx(st, edges[v][k]) < 0
    requires Framed(st, child) && SameLow(st, child) && Returned(edges[v][k], |st.stack|, st.index, edges, child)
    requires SameVisits(h, child) && Closed(edges, child) && Tops(edges, h, child)
    ensures Post(v, k + 1, b, edges, h, Lower(v, child.lowlinks[edges[v][k]], child))
  {
    AfterChild(v, k, b, edges, st, child);
    var next := Lower(v, child.lowlinks[edges[v][k]], child);
    assert v < |edges| && k + 1 <= |edges[v]| && b < |next.stack| && next.stack[b] == v && Stacked(edges, next) && Above(edges, next, v, b);
    hide Active, Tops, Closed, Stacked, Above, Returned, Hangs, Framed, SameLow;
    AboveHangs(edges, next, v, b);
    LowerPost(v, child.lowlinks[edges[v][k]], edges, h, child);
  }

  lemma AfterFoundChild(v: nat, k: nat, b: nat, edges: Edges, st: State, h: State, child: State)
    requires Active(v, k, b, edges, st) && k < |edges[v]| && Idx(st, edges[v][k]) < 0
    requires Aftermath(edges[v][k], |st.stack|, edges, st, h, child)
    ensures var next := Lower(v, child.lowlinks[edges[v][k]], child);
            Post(v, k + 1, b, edges, h, next) && Framed(st, next) && SameLowExcept(v, st, next)
  {
    var w := edges[v][k];
    var low := child.lowlinks[w];
    var next := Lower(v, low, child);
    ChildFramed(v, low, st, child);
    assert b < |child.stack| && child.stack[b] == v;
    hide Active, Returned, Tops, Closed, Hangs, Stacked, SameLow, Framed, SameLowExcept, Strands;
    if Returned(w, |st.stack|, st.index, edges, child) {
      AfterSoundChild(v, k, b, edges, st, h, child);
    } else {
      ChildHangs(v, k, b, edges, st, child);
      StuckLowers(v, low, b, edges, h, child);
    }
  }

  // ---- finishing ------------------------------------------------------------------------------

  /** Popping a further component is what makes the report differ from the first one. */
  lemma TopsPopped(v: nat, b: nat, edges: Edges, h: State, st: State)
    requires Root(v, b, edges, st) && SameVisits(h, st) && Tops(edges, h, st)
    ensures Tops(edges, h, Finish(v, edges, st))
  {
    var r := Finish(v, edges, st);
    GroupPopped(v, b, edges, st);
    hide Root, Stacked, Closed, Component;
    assert st.stack[b] == h.stack[b] == v;
    if |st.stack| > b + 1 || v in edges[v] {
      assert st.stack[b..][0] == v && v in NodesOf(r.found.value);
      ComponentReaches(edges, r.found.value, v);
      assert Reach(edges, h.stack[b], h.stack[b]);
      assert On(st, v);
      assert r.found != h.found;
    } else {
      forall i | b <= i < |st.stack| ensures !Reach(edges, h.stack[i], h.stack[i]) { assert i == b; }
    }
  }

  lemma ComponentReaches(edges: Edges, nodes: seq<nat>, v: nat)
    requires Component(edges, nodes) && v in nodes
    ensures Reach(edges, v, v)
  {
  }

  lemma FinishFrames(v: nat, b: nat, edges: Edges, before: State, st: State)
    requires Root(v, b, edges, st) && before.stack == st.stack[..b] && Idx(before, v) < 0
    requires Stacked(edges, before) && Framed(before, st) && SameLow(before, st)
    ensures var r := Finish(v, edges, st);
            && Framed(before, r) && SameLow(before, r) && Returned(v, b, Idx(st, v), edges, r)
  {
    var r := Finish(v, edges, st);
    GroupPopped(v, b, edges, st);
    var group := st.stack[b..];
    assert group[0] == v;
    forall w: nat | 0 <= Idx(before, w) ensures On(r, w) == On(before, w) {
      if On(before, w) {
        var i := StackPosition(edges, before, w);
        forall j | 0 <= j < |group| ensures group[j] != w { PositionOrder(edges, st, i, b + j); }
      }
    }
  }

  /** The root test of a call below which something was found earlier. */
  lemma FinishAftermath(v: nat, b: nat, edges: Edges, before: State, h: State, st: State)
    requires Stacked(edges, before) && v < |edges| && Idx(before, v) < 0 && b == |before.stack| && before.index > 0
    requires Post(v, |edges[v]|, b, edges, h, st)
    requires Framed(Push(v, before), st) && SameLowExcept(v, Push(v, before), st)
    ensures Aftermath(v, b, edges, before, h, Finish(v, edges, st))
  {
    FrameSincePush(v, before, st);
    if Low(st, v) == Idx(st, v) {
      GroupPopped(v, b, edges, st);
      TopsPopped(v, b, edges, h, st);
      FinishFrames(v, b, edges, before, st);
    } else if Active(v, |edges[v]|, b, edges, st) {
      OwnLinkBelow(v, b, edges, st);
    }
  }

  /** The root test that finds something for the first time. */
  lemma FinishFinds(v: nat, b: nat, edges: Edges, before: State, st: State, order: seq<nat>)
    requires Stacked(edges, before) && v < |edges| && Idx(before, v) < 0 && b == |before.stack|
    requires Active(v, |edges[v]|, b, edges, st) && st.found.None? && Completed(edges, st, order)
    requires Framed(Push(v, before), st) && SameLowExcept(v, Push(v, before), st)
    ensures var r := Finish(v, edges, st);
            r.found.Some? ==>
              && Caught(b, edges, before, r) && Reach(edges, v, r.found.value[0]) && 0 <= Idx(r, v)
              && Aftermath(v, b, edges, before, r, r) && r.stack == before.stack
  {
    var r := Finish(v, edges, st);
    FrameSincePush(v, before, st);
    if r.found.Some? {
      CompletedIsClosed(edges, st, order);
      GroupPopped(v, b, edges, st);
      FinishFrames(v, b, edges, before, st);
      assert st.stack[b..][0] == v && v in NodesOf(r.found.value);
      FoundOff(b, edges, st, r);
    }
  }

  lemma FoundOff(b: nat, edges: Edges, st: State, r: State)
    requires Stacked(edges, st) && CutAt(b, st, r) && r.found.Some? && NodesOf(r.found.value) == NodesOf(st.stack[b..])
    ensures forall w: nat :: w in r.found.value ==> Off(r, w)
  {
    forall w: nat | w in r.found.value ensures Off(r, w) {
      assert w in NodesOf(st.stack[b..]);
      var j :| 0 <= j < |st.stack[b..]| && st.stack[b..][j] == w;
      assert 0 <= Idx(st, st.stack[b + j]);
    }
  }

  // ---- the whole call -------------------------------------------------------------------------

  /** A node between `v` and the top of the stack leads on, by way of a node that is still open. */
  lemma LeadsBetween(v: nat, k: nat, b: nat, edges: Edges, st: State, h: State, i: nat)
    requires Active(v, k, b, edges, st) && Stacked(edges, h) && Closed(edges, h) && Framed(st, h) && b < i < |st.stack|
    requires h.found.Some? && h.found.value != []
    ensures ReachesBelow(edges, h, i) && Entered(edges, h, h.stack[i])
  {
    var x := st.stack[i];
    assert Linked(edges, st, i) && h.stack[i] == x;
    var j :| 0 <= j < i && Idx(st, st.stack[j]) == Low(st, x) && Reach(edges, x, st.stack[j]);
    assert h.stack[j] == st.stack[j] && On(h, h.stack[j]);
    var m := FirstEdge(edges, x, h.stack[j]);
    var d := edges[x][m];
    assert 0 <= Idx(st, d) && 0 <= Idx(h, d);
    if !On(h, d) { OffIsNotOn(edges, h, d, h.stack[j]); }
    assert OnTheWay(edges, h, d);
  }

  lemma CaughtChild(v: nat, k: nat, b: nat, edges: Edges, st: State, h: State)
    requires Active(v, k, b, edges, st) && k < |edges[v]|
    requires Caught(|st.stack|, edges, st, h) && Reach(edges, edges[v][k], h.found.value[0]) && 0 <= Idx(h, edges[v][k])
    ensures Caught(b, edges, st, h) && Reach(edges, v, h.found.value[0])
  {
    var w, top := edges[v][k], |st.stack|;
    EdgeReach(edges, v, k);
    ReachTrans(edges, v, w, h.found.value[0]);
    assert OnTheWay(edges, h, w);
    assert b < top && h.stack[b] == v;
    hide Active, Stacked, Closed, Component, Reach, ReachesBelow, Entered;
    forall i | b <= i < |h.stack|
      ensures (Reach(edges, h.stack[i], h.found.value[0]) || ReachesBelow(edges, h, i)) && Entered(edges, h, h.stack[i])
    {
      if b < i < top { LeadsBetween(v, k, b, edges, st, h, i); }
    }
  }

  lemma CaughtEarlier(v: nat, b: nat, edges: Edges, st: State, next: State, h: State)
    requires Framed(st, next) && Caught(b, edges, next, h)
    ensures Caught(b, edges, st, h)
  {
    hide Leads, Closed, Stacked, Component;
  }

  /** What processing `v`'s edges from the `k`-th on may lead to. */
  ghost predicate VisitReport(v: nat, k: nat, b: nat, edges: Edges, st: State)
    requires Shaped(edges, st) && v < |edges| && k <= |edges[v]|
  {
    var r, h := Visit(v, k, edges, st), UntilVisit(v, k, edges, st);
    if r.found.None? then h == r
    else
      && Caught(b, edges, st, h) && Reach(edges, v, h.found.value[0]) && 0 <= Idx(h, v)
      && Post(v, |edges[v]|, b, edges, h, r) && Framed(st, r) && SameLowExcept(v, st, r)
  }

  lemma {:induction false} ConnectReport(v: nat, edges: Edges, st: State, order: seq<nat>)
    requires Stacked(edges, st) && st.found.None? && Completed(edges, st, order) && Fresh(edges, st)
    requires v < |edges| && Idx(st, v) < 0
    ensures var r, h := Connect(v, edges, st), UntilConnect(v, edges, st);
            if r.found.None? then h == r
            else
              && Caught(|st.stack|, edges, st, h) && Reach(edges, v, h.found.value[0]) && 0 <= Idx(h, v)
              && (st.index > 0 ==> Aftermath(v, |st.stack|, edges, st, h, r))
    decreases Unvisited(st), 0
  {
    var b := |st.stack|;
    var pushed := Push(v, st);
    assert v in Unvisited(st) && v !in Unvisited(pushed);
    PushActive(v, edges, st, order);
    PushFresh(v, edges, st);
    VisitReported(v, 0, b, edges, pushed, order);
    var done := Visit(v, 0, edges, pushed);
    hide Caught, Aftermath, Active, Completed, Post, Visit, UntilVisit, Finish;
    if done.found.None? {
      var d, order' := VisitCorrect(v, 0, b, edges, pushed, order);
      FinishFinds(v, b, edges, st, done, order');
    } else {
      CaughtSincePush(v, b, edges, st, UntilVisit(v, 0, edges, pushed));
      if st.index > 0 {
        FinishAftermath(v, b, edges, st, UntilVisit(v, 0, edges, pushed), done);
      }
    }
  }

  lemma CaughtSincePush(v: nat, b: nat, edges: Edges, before: State, h: State)
    requires v < |before.indices| == |before.lowlinks| == |before.onStack| && Idx(before, v) < 0
    requires Caught(b, edges, Push(v, before), h)
    ensures Caught(b, edges, before, h)
  {
    var pushed := Push(v, before);
    forall w: nat | 0 <= Idx(before, w) ensures Idx(h, w) == Idx(before, w) && On(h, w) == On(before, w) {
      assert Idx(pushed, w) == Idx(before, w) && On(pushed, w) == On(before, w);
    }
  }

  lemma UntilStep(v: nat, k: nat, edges: Edges, st: State, next: State)
    requires Shaped(edges, st) && v < |edges| && k < |edges[v]| && st.found.None? && Fresh(edges, st)
    requires var w := edges[v][k];
             if Idx(st, w) < 0 then
               var child := Connect(w, edges, st);
               UntilConnect(w, edges, st) == child && child.found.None? && next == Lower(v, child.lowlinks[w], child)
             else next == if On(st, w) then Lower(v, st.indices[w].value, st) else st
    ensures Shaped(edges, next) && UntilVisit(v, k, edges, st) == UntilVisit(v, k + 1, edges, next) && Fresh(edges, next)
  {
    hide Fresh;
    var w := edges[v][k];
    if Idx(st, w) < 0 {
      ConnectFresh(w, edges, st);
      var child := Connect(w, edges, st);
      LowerFresh(v, child.lowlinks[w], edges, child);
    } else if On(st, w) {
      LowerFresh(v, st.indices[w].value, edges, st);
    }
  }

  lemma LaterReport(v: nat, k: nat, b: nat, edges: Edges, st: State, next: State)
    requires Shaped(edges, st) && Shaped(edges, next) && v < |edges| && k < |edges[v]|
    requires VisitReport(v, k + 1, b, edges, next) && Framed(st, next) && SameLowExcept(v, st, next)
    requires Visit(v, k, edges, st) == Visit(v, k + 1, edges, next)
    requires UntilVisit(v, k, edges, st) == UntilVisit(v, k + 1, edges, next)
    ensures VisitReport(v, k, b, edges, st)
  {
    hide Caught, Post, Visit, UntilVisit, Framed, SameLowExcept;
    var r, h := Visit(v, k, edges, st), UntilVisit(v, k, edges, st);
    if r.found.Some? {
      CaughtEarlier(v, b, edges, st, next, h);
      FramesCompose(v, st, next, r);
    }
  }

  /** The find happens below `v`'s `k`-th edge. */
  lemma FoundHere(v: nat, k: nat, b: nat, edges: Edges, st: State)
    requires Active(v, k, b, edges, st) && k < |edges[v]| && st.found.None? && Fresh(edges, st) && Idx(st, edges[v][k]) < 0
    requires var w := edges[v][k];
             var r, h := Connect(w, edges, st), UntilConnect(w, edges, st);
             && r.found.Some? && Caught(|st.stack|, edges, st, h) && Reach(edges, w, h.found.value[0]) && 0 <= Idx(h, w)
             && (st.index > 0 ==> Aftermath(w, |st.stack|, edges, st, h, r))
    ensures VisitReport(v, k, b, edges, st)
  {
    var w := edges[v][k];
    var child, h := Connect(w, edges, st), UntilConnect(w, edges, st);
    var next := Lower(v, child.lowlinks[w], child);
    assert st.stack[b] == v && 0 <= Idx(st, v) < st.index;
    assert Visit(v, k, edges, st) == Visit(v, k + 1, edges, next);
    assert UntilVisit(v, k, edges, st) == h by { assert h.found.Some?; }
    assert 0 <= Idx(h, v);
    ConnectFresh(w, edges, st);
    LowerFresh(v, child.lowlinks[w], edges, child);
    hide Active, Caught, Aftermath, Post, Visit, UntilVisit, Fresh, Framed, SameLowExcept;
    CaughtChild(v, k, b, edges, st, h);
    AfterFoundChild(v, k, b, edges, st, h, child);
    PostVisit(v, k + 1, b, edges, h, next);
    FramesCompose(v, st, next, Visit(v, k, edges, st));
  }

  lemma {:induction false} VisitReported(v: nat, k: nat, b: nat, edges: Edges, st: State, order: seq<nat>)
    requires Active(v, k, b, edges, st) && st.found.None? && Completed(edges, st, order) && Fresh(edges, st)
    ensures VisitReport(v, k, b, edges, st)
    decreases Unvisited(st), |edges[v]| - k, 1
  {
    if k < |edges[v]| {
      var w := edges[v][k];
      var next, order' := VisitStep(v, k, b, edges, st, order);
      hide Active, Completed, Fresh, Visit, UntilVisit, VisitReport, Caught, Aftermath;
      if Idx(st, w) < 0 { ConnectReport(w, edges, st, order); }
      if next.found.None? {
        UntilStep(v, k, edges, st, next);
        VisitReported(v, k + 1, b, edges, next, order');
        LaterReport(v, k, b, edges, st, next);
      } else {
        FoundHere(v, k, b, edges, st);
      }
    }
  }
}
