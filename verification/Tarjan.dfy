/** The cycle detector of the locals solver (`eval/locals.rs`): Tarjan's algorithm, stopped at the
    first component that contains a cycle. */
module Tarjan {
  import opened Ir
  import opened Graphs
  import opened Seqs

  type Edges = seq<seq<nat>>

  function GraphOf(edges: Edges): Graph {
    seq(|edges|, v requires 0 <= v < |edges| => set w | w in edges[v])
  }

  predicate EdgesInRange(edges: Edges) {
    forall v, k :: 0 <= v < |edges| && 0 <= k < |edges[v]| ==> edges[v][k] < |edges|
  }

  datatype State = State(
    index: nat,
    stack: seq<nat>,
    onStack: seq<bool>,
    indices: seq<Option<nat>>,
    lowlinks: seq<nat>,
    found: Option<seq<nat>>)

  predicate Shaped(edges: Edges, st: State) {
    && EdgesInRange(edges)
    && |st.onStack| == |st.indices| == |st.lowlinks| == |edges|
    && (forall i :: 0 <= i < |st.stack| ==> st.stack[i] < |edges|)
  }

  function Initial(n: nat): State {
    State(0, [], seq(n, _ => false), seq(n, _ => None), seq(n, _ => 0), None)
  }

  function Unvisited(st: State): set<nat> {
    set w | 0 <= w < |st.indices| && st.indices[w].None?
  }

  function Min(a: nat, b: nat): nat {
    if a < b then a else b
  }

  /** Pops until `v` has come off (or the stack is empty): the popped nodes in order, and the rest. */
  function PopTo(stack: seq<nat>, v: nat): (r: (seq<nat>, seq<nat>))
    ensures r.1 <= stack && |r.0| + |r.1| == |stack|
    ensures forall i :: 0 <= i < |r.0| ==> r.0[i] == stack[|stack| - 1 - i]
  {
    if stack == [] then ([], [])
    else
      var w := stack[|stack| - 1];
      var front := stack[..|stack| - 1];
      if w == v then ([w], front)
      else
        var (more, rest) := PopTo(front, v);
        ([w] + more, rest)
  }

  function Unmark(onStack: seq<bool>, popped: seq<nat>): (r: seq<bool>)
    requires forall i :: 0 <= i < |popped| ==> popped[i] < |onStack|
    ensures |r| == |onStack|
    ensures forall w :: 0 <= w < |r| ==> r[w] == (onStack[w] && w !in popped)
  {
    seq(|onStack|, w requires 0 <= w < |onStack| => onStack[w] && w !in popped)
  }

  function Push(v: nat, st: State): State
    requires v < |st.indices| && v < |st.lowlinks| && v < |st.onStack|
  {
    st.(indices := st.indices[v := Some(st.index)], lowlinks := st.lowlinks[v := st.index],
        index := st.index + 1, stack := st.stack + [v], onStack := st.onStack[v := true])
  }

  function Lower(v: nat, low: nat, st: State): State
    requires v < |st.lowlinks|
  {
    st.(lowlinks := st.lowlinks[v := Min(st.lowlinks[v], low)])
  }

  /** The root test: pops `v`'s component and reports it when it holds a cycle. */
  function Finish(v: nat, edges: Edges, st: State): (r: State)
    requires Shaped(edges, st) && v < |edges|
    ensures Shaped(edges, r) && r.indices == st.indices && r.lowlinks == st.lowlinks
    ensures st.found.Some? ==> r.found.Some?
  {
    if Some(st.lowlinks[v]) != st.indices[v] then st
    else
      var (scc, rest) := PopTo(st.stack, v);
      var popped := st.(stack := rest, onStack := Unmark(st.onStack, scc));
      if |scc| > 1 || (|scc| == 1 && v in edges[v]) then popped.(found := Some(scc)) else popped
  }

  function Connect(v: nat, edges: Edges, st: State): (r: State)
    requires Shaped(edges, st) && v < |edges| && st.indices[v].None?
    ensures Shaped(edges, r) && Unvisited(r) <= Unvisited(st)
    ensures st.found.Some? ==> r.found.Some?
    decreases Unvisited(st), 0
  {
    if st.found.Some? then st
    else
      var pushed := Push(v, st);
      assert v in Unvisited(st) && v !in Unvisited(pushed);
      Finish(v, edges, Visit(v, 0, edges, pushed))
  }

  /** The outgoing edges of `v` from the `k`-th on. */
  function Visit(v: nat, k: nat, edges: Edges, st: State): (r: State)
    requires Shaped(edges, st) && v < |edges| && k <= |edges[v]|
    ensures Shaped(edges, r) && Unvisited(r) <= Unvisited(st)
    ensures st.found.Some? ==> r.found.Some?
    decreases Unvisited(st), |edges[v]| - k
  {
    if k == |edges[v]| then st
    else
      var w := edges[v][k];
      var next :=
        if st.indices[w].None? then
          // A call cut short by an earlier find leaves `w` unvisited with lowlink 0.
          var child := Connect(w, edges, st);
          Lower(v, child.lowlinks[w], child)
        else if st.onStack[w] then Lower(v, st.indices[w].value, st)
        else st;
      Visit(v, k + 1, edges, next)
  }

  /** The driver, from node `v` on. */
  function Search(v: nat, edges: Edges, st: State): (r: State)
    requires Shaped(edges, st) && v <= |edges|
    decreases |edges| - v
  {
    if v == |edges| || st.found.Some? then st
    else Search(v + 1, edges, if st.indices[v].None? then Connect(v, edges, st) else st)
  }

  function FirstCycle(edges: Edges): Option<seq<nat>>
    requires EdgesInRange(edges)
  {
    Search(0, edges, Initial(|edges|)).found
  }

  // ---- the imperative algorithm ---------------------------------------------------------------

  class Detector {
    const edges: Edges
    var index: nat
    var stack: seq<nat>
    var onStack: seq<bool>
    var indices: seq<Option<nat>>
    var lowlinks: seq<nat>
    var found: Option<seq<nat>>

    ghost function View(): State
      reads this
    {
      State(index, stack, onStack, indices, lowlinks, found)
    }

    constructor (edges: Edges)
      ensures this.edges == edges && View() == Initial(|edges|)
    {
      this.edges := edges;
      index, stack, found := 0, [], None;
      onStack, indices, lowlinks := seq(|edges|, _ => false), seq(|edges|, _ => None), seq(|edges|, _ => 0);
    }

    method StrongConnect(v: nat)
      requires Shaped(edges, View()) && v < |edges| && indices[v].None?
      modifies this
      ensures View() == Connect(v, edges, old(View()))
      decreases Unvisited(View()), 0
    {
      if found.Some? {
        return;
      }
      indices, lowlinks := indices[v := Some(index)], lowlinks[v := index];
      index := index + 1;
      stack, onStack := stack + [v], onStack[v := true];
      ghost var pushed := View();
      assert pushed == Push(v, old(View()));
      assert v in Unvisited(old(View())) && v !in Unvisited(pushed);
      assert Unvisited(pushed) < Unvisited(old(View()));

      var k := 0;
      while k < |edges[v]|
        invariant 0 <= k <= |edges[v]|
        invariant Shaped(edges, View()) && Unvisited(View()) <= Unvisited(pushed)
        invariant Visit(v, 0, edges, pushed) == Visit(v, k, edges, View())
      {
        var w := edges[v][k];
        if indices[w].None? {
          StrongConnect(w);
          lowlinks := lowlinks[v := Min(lowlinks[v], lowlinks[w])];
        } else if onStack[w] {
          lowlinks := lowlinks[v := Min(lowlinks[v], indices[w].value)];
        }
        k := k + 1;
      }

      if Some(lowlinks[v]) == indices[v] {
        var scc := PopComponent(v);
        var isSelfCycle := |scc| == 1 && v in edges[v];
        if |scc| > 1 || isSelfCycle {
          found := Some(scc);
        }
      }
    }

    method PopComponent(v: nat) returns (scc: seq<nat>)
      requires Shaped(edges, View())
      modifies this
      ensures (scc, stack) == PopTo(old(stack), v)
      ensures View() == old(View()).(stack := stack, onStack := Unmark(old(onStack), scc))
    {
      ghost var before := View();
      scc := [];
      var done := false;
      assert scc + PopTo(stack, v).0 == PopTo(stack, v).0;
      while stack != [] && !done
        invariant forall i :: 0 <= i < |stack| ==> stack[i] < |edges|
        invariant |onStack| == |edges|
        invariant PopTo(before.stack, v) ==
                  if done then (scc, stack) else (scc + PopTo(stack, v).0, PopTo(stack, v).1)
        invariant forall w :: 0 <= w < |edges| ==> onStack[w] == (before.onStack[w] && w !in scc)
        invariant View() == before.(stack := stack, onStack := onStack)
        decreases |stack|
      {
        var w := stack[|stack| - 1];
        ConcatAssoc(scc, [w], PopTo(stack[..|stack| - 1], v).0);
        stack := stack[..|stack| - 1];
        onStack := onStack[w := false];
        scc := scc + [w];
        done := w == v;
      }
      assert scc + [] == scc;
      assert onStack == Unmark(before.onStack, scc);
    }
  }

  /** `tarjan_first_cycle` */
  method TarjanFirstCycle(edges: Edges) returns (cycle: Option<seq<nat>>)
    requires EdgesInRange(edges)
    ensures cycle == FirstCycle(edges)
    ensures cycle.Some? <==> HasCycle(GraphOf(edges))
  {
    var st := new Detector(edges);
    var v := 0;
    while v < |edges|
      invariant 0 <= v <= |edges| && st.edges == edges
      invariant Shaped(edges, st.View())
      invariant Search(0, edges, Initial(|edges|)) == Search(v, edges, st.View())
    {
      if st.indices[v].None? {
        st.StrongConnect(v);
        if st.found.Some? {
          v := v + 1;
          break;
        }
      }
      v := v + 1;
    }
    cycle := st.found;
    ghost var rank := DetectionIsExact(edges);
  }

  // ---- correctness ----------------------------------------------------------------------------

  function Idx(st: State, w: nat): int {
    if w < |st.indices| && st.indices[w].Some? then st.indices[w].value else -1
  }

  function Low(st: State, w: nat): int {
    if w < |st.lowlinks| then st.lowlinks[w] else -1
  }

  predicate On(st: State, w: nat) {
    w < |st.onStack| && st.onStack[w]
  }

  ghost predicate Reach(edges: Edges, a: nat, b: nat) {
    Reaches(GraphOf(edges), a, b)
  }

  /** Stack discipline: indices rise along the stack, and the flags describe exactly its members. */
  ghost predicate Stacked(edges: Edges, st: State) {
    && Shaped(edges, st)
    && (forall w: nat :: Idx(st, w) < st.index)
    && (forall i :: 0 <= i < |st.stack| ==> 0 <= Idx(st, st.stack[i]) && On(st, st.stack[i]))
    && (forall i, j :: 0 <= i < j < |st.stack| ==> Idx(st, st.stack[i]) < Idx(st, st.stack[j]))
    && (forall w: nat :: On(st, w) ==> w in st.stack)
  }

  /** The nodes already taken off the stack, in completion order. */
  ghost predicate Completed(edges: Edges, st: State, order: seq<nat>) {
    && SuccessorsFirst(GraphOf(edges), order)
    && (forall w: nat :: w in order <==> 0 <= Idx(st, w) && !On(st, w))
  }

  /** Position `i` holds a finished node that reaches a strictly lower stack position, the one its
      lowlink names. */
  ghost predicate Linked(edges: Edges, st: State, i: nat) {
    && i < |st.stack| && st.stack[i] < |edges| && Scanned(edges, st, st.stack[i], |edges[st.stack[i]]|)
    && exists j :: 0 <= j < i && Idx(st, st.stack[j]) == Low(st, st.stack[i]) && Reach(edges, st.stack[i], st.stack[j])
  }

  ghost predicate OwnLink(edges: Edges, st: State, b: nat) {
    && b < |st.stack|
    && exists j :: 0 <= j <= b && Idx(st, st.stack[j]) == Low(st, st.stack[b]) &&
                   (j == b || Reach(edges, st.stack[b], st.stack[j]))
  }

  /** The nodes above position `b`: finished, linked downwards, reachable from `v`, and with
      lowlinks no smaller than `v`'s. */
  ghost predicate Above(edges: Edges, st: State, v: nat, b: nat) {
    forall i :: b < i < |st.stack| ==>
      Linked(edges, st, i) && Low(st, v) <= Low(st, st.stack[i]) && Reach(edges, v, st.stack[i])
  }

  ghost predicate Scanned(edges: Edges, st: State, v: nat, k: nat)
    requires v < |edges| && k <= |edges[v]|
  {
    forall m :: 0 <= m < k ==> 0 <= Idx(st, edges[v][m]) && (On(st, edges[v][m]) ==> Low(st, v) <= Idx(st, edges[v][m]))
  }

  /** What holds while `v`, at stack position `b`, is being processed and `k` edges are done. */
  ghost predicate Active(v: nat, k: nat, b: nat, edges: Edges, st: State) {
    && Stacked(edges, st)
    && v < |edges| && k <= |edges[v]| && b < |st.stack| && st.stack[b] == v
    && OwnLink(edges, st, b) && Above(edges, st, v, b) && Scanned(edges, st, v, k)
  }

  /** Nothing a recursive call may not touch has changed. */
  ghost predicate Framed(before: State, after: State) {
    && before.index <= after.index
    && before.stack <= after.stack
    && (forall w: nat :: 0 <= Idx(before, w) ==> Idx(after, w) == Idx(before, w) && On(after, w) == On(before, w))
  }

  ghost predicate SameLow(before: State, after: State) {
    forall w: nat :: 0 <= Idx(before, w) ==> Low(after, w) == Low(before, w)
  }

  ghost predicate SameLowExcept(v: nat, before: State, after: State) {
    forall w: nat :: 0 <= Idx(before, w) && w != v ==> Low(after, w) == Low(before, w)
  }

  /** How a call on `v`, made with `b` nodes on the stack, may leave the state if nothing was found:
      either `v` came off again, or it stays, linked below `b` with everything above it. */
  ghost predicate Returned(v: nat, b: nat, index: nat, edges: Edges, after: State) {
    && Stacked(edges, after)
    && Idx(after, v) == index
    && if |after.stack| == b then !On(after, v) && Low(after, v) == index
       else
         && b < |after.stack| && after.stack[b] == v && Low(after, v) < index
         && Linked(edges, after, b) && Above(edges, after, v, b)
  }

  lemma StackPosition(edges: Edges, st: State, w: nat) returns (i: nat)
    requires Stacked(edges, st) && On(st, w)
    ensures i < |st.stack| && st.stack[i] == w
  {
    i :| 0 <= i < |st.stack| && st.stack[i] == w;
  }

  lemma EdgeReach(edges: Edges, v: nat, k: nat)
    requires EdgesInRange(edges) && v < |edges| && k < |edges[v]|
    ensures Reach(edges, v, edges[v][k])
  {
    assert edges[v][k] in GraphOf(edges)[v];
    EdgeReaches(GraphOf(edges), v, edges[v][k]);
  }

  lemma ReachTrans(edges: Edges, a: nat, b: nat, c: nat)
    requires Reach(edges, a, b) && Reach(edges, b, c)
    ensures Reach(edges, a, c)
  {
    ReachesTrans(GraphOf(edges), a, b, c);
  }

  /** Lower positions carry smaller indices, also when read backwards. */
  lemma PositionOrder(edges: Edges, st: State, i: nat, j: nat)
    requires Stacked(edges, st) && i < |st.stack| && j < |st.stack|
    ensures Idx(st, st.stack[i]) < Idx(st, st.stack[j]) <==> i < j
    ensures st.stack[i] == st.stack[j] <==> i == j
  {
  }

  lemma PushActive(v: nat, edges: Edges, st: State, order: seq<nat>)
    requires Stacked(edges, st) && st.found.None? && Completed(edges, st, order)
    requires v < |edges| && Idx(st, v) < 0
    ensures Active(v, 0, |st.stack|, edges, Push(v, st)) && Completed(edges, Push(v, st), order)
    ensures Framed(st, Push(v, st)) && SameLow(st, Push(v, st))
  {
    var pushed := Push(v, st);
    var b := |st.stack|;
    assert !On(st, v) by {
      if On(st, v) { var i := StackPosition(edges, st, v); assert false; }
    }
    assert pushed.stack[b] == v && Idx(pushed, v) == st.index && Low(pushed, v) == st.index;
    forall w: nat | w != v ensures Idx(pushed, w) == Idx(st, w) && On(pushed, w) == On(st, w) && Low(pushed, w) == Low(st, w) {
    }
    forall w: nat | On(pushed, w) ensures w in pushed.stack {
      assert w == v || w in st.stack;
    }
  }

  lemma {:induction false} ConnectCorrect(v: nat, edges: Edges, st: State, order: seq<nat>) returns (order': seq<nat>)
    requires Stacked(edges, st) && st.found.None? && Completed(edges, st, order)
    requires v < |edges| && Idx(st, v) < 0
    ensures var r := Connect(v, edges, st);
            if r.found.Some? then HasCycle(GraphOf(edges))
            else
              && Returned(v, |st.stack|, st.index, edges, r) && Framed(st, r) && SameLow(st, r)
              && Completed(edges, r, order')
    decreases Unvisited(st), 0
  {
    var b := |st.stack|;
    var pushed := Push(v, st);
    assert v in Unvisited(st) && v !in Unvisited(pushed);
    PushActive(v, edges, st, order);
    var done;
    done, order' := VisitCorrect(v, 0, b, edges, pushed, order);
    if done.found.None? {
      order' := FinishCorrect(v, b, edges, st, done, order');
    }
  }

  lemma {:induction false} VisitCorrect(v: nat, k: nat, b: nat, edges: Edges, st: State, order: seq<nat>)
    returns (r: State, order': seq<nat>)
    requires Active(v, k, b, edges, st) && st.found.None? && Completed(edges, st, order)
    ensures r == Visit(v, k, edges, st)
    ensures VisitOutcome(v, b, edges, st, r, order')
    decreases Unvisited(st), |edges[v]| - k, 1
  {
    hide Completed, Framed, SameLowExcept;
    if k == |edges[v]| {
      r, order' := st, order;
      OutcomeRefl(v, b, edges, st, order);
    } else {
      var next;
      next, order' := VisitStep(v, k, b, edges, st, order);
      if next.found.None? {
        r, order' := VisitCorrect(v, k + 1, b, edges, next, order');
        OutcomeTrans(v, b, edges, st, next, r, order');
      } else {
        r := Visit(v, k + 1, edges, next);
      }
    }
  }

  /** What processing all of `v`'s edges from state `st` on may lead to. */
  ghost predicate VisitOutcome(v: nat, b: nat, edges: Edges, st: State, r: State, order: seq<nat>) {
    if r.found.Some? then HasCycle(GraphOf(edges))
    else
      && v < |edges| && Active(v, |edges[v]|, b, edges, r) && Completed(edges, r, order)
      && Framed(st, r) && SameLowExcept(v, st, r)
  }

  lemma OutcomeRefl(v: nat, b: nat, edges: Edges, st: State, order: seq<nat>)
    requires v < |edges| && Active(v, |edges[v]|, b, edges, st) && st.found.None? && Completed(edges, st, order)
    ensures VisitOutcome(v, b, edges, st, st, order)
  {
  }

  lemma OutcomeTrans(v: nat, b: nat, edges: Edges, st: State, next: State, r: State, order: seq<nat>)
    requires Framed(st, next) && SameLowExcept(v, st, next) && VisitOutcome(v, b, edges, next, r, order)
    ensures VisitOutcome(v, b, edges, st, r, order)
  {
  }

  /** One outgoing edge. */
  lemma {:induction false} VisitStep(v: nat, k: nat, b: nat, edges: Edges, st: State, order: seq<nat>)
    returns (next: State, order': seq<nat>)
    requires v < |edges| && k < |edges[v]| && Active(v, k, b, edges, st) && st.found.None? && Completed(edges, st, order)
    ensures Shaped(edges, next) && Unvisited(next) <= Unvisited(st)
    ensures Visit(v, k, edges, st) == Visit(v, k + 1, edges, next)
    ensures var w := edges[v][k];
            next == if Idx(st, w) < 0 then Lower(v, Connect(w, edges, st).lowlinks[w], Connect(w, edges, st))
                    else if On(st, w) then Lower(v, st.indices[w].value, st)
                    else st
    ensures if next.found.Some? then HasCycle(GraphOf(edges)) && Visit(v, k + 1, edges, next).found.Some?
            else
              && Active(v, k + 1, b, edges, next) && Completed(edges, next, order')
              && Framed(st, next) && SameLowExcept(v, st, next)
    decreases Unvisited(st), |edges[v]| - k, 0
  {
    var w := edges[v][k];
    next, order' := st, order;
    if Idx(st, w) < 0 {
      order' := ConnectCorrect(w, edges, st, order);
      var child := Connect(w, edges, st);
      next := Lower(v, child.lowlinks[w], child);
      if child.found.None? {
        AfterChild(v, k, b, edges, st, child);
        ChildFramed(v, child.lowlinks[w], st, child);
        LowerCompleted(v, child.lowlinks[w], edges, child, order');
      }
    } else if On(st, w) {
      next := Lower(v, st.indices[w].value, st);
      AfterBackEdge(v, k, b, edges, st);
      LowerCompleted(v, st.indices[w].value, edges, st, order);
    }
  }

  lemma LowerCompleted(v: nat, low: nat, edges: Edges, st: State, order: seq<nat>)
    requires v < |st.lowlinks| && Completed(edges, st, order)
    ensures Completed(edges, Lower(v, low, st), order)
  {
    var next := Lower(v, low, st);
    assert forall w: nat :: Idx(next, w) == Idx(st, w) && On(next, w) == On(st, w);
  }

  /** Lowering `v`'s own lowlink disturbs neither the stack nor the links of the nodes above it. */
  lemma LowerKeeps(v: nat, low: nat, b: nat, edges: Edges, st: State)
    requires Stacked(edges, st) && v < |edges| && b < |st.stack| && st.stack[b] == v
    ensures var next := Lower(v, low, st);
            && Stacked(edges, next) && Low(next, v) <= Low(st, v) && Low(next, v) <= low
            && Framed(st, next) && SameLowExcept(v, st, next)
            && forall i :: b < i < |st.stack| && Linked(edges, st, i) ==> Linked(edges, next, i)
  {
    var next := Lower(v, low, st);
    forall w: nat ensures Idx(next, w) == Idx(st, w) && On(next, w) == On(st, w) && (w != v ==> Low(next, w) == Low(st, w)) {
    }
    forall i | b < i < |st.stack| && Linked(edges, st, i) ensures Linked(edges, next, i) {
      PositionOrder(edges, st, b, i);
      var j :| 0 <= j < i && Idx(st, st.stack[j]) == Low(st, st.stack[i]) && Reach(edges, st.stack[i], st.stack[j]);
      assert Idx(next, next.stack[j]) == Low(next, next.stack[i]);
    }
  }

  lemma LowerAbove(v: nat, low: nat, b: nat, edges: Edges, st: State)
    requires Stacked(edges, st) && v < |edges| && b < |st.stack| && st.stack[b] == v && Above(edges, st, v, b)
    ensures Above(edges, Lower(v, low, st), v, b)
  {
    var next := Lower(v, low, st);
    LowerKeeps(v, low, b, edges, st);
    forall i | b < i < |next.stack|
      ensures Linked(edges, next, i) && Low(next, v) <= Low(next, next.stack[i]) && Reach(edges, v, next.stack[i])
    {
      PositionOrder(edges, st, b, i);
    }
  }

  /** After lowering to the index of position `j`, which `v` reaches, `v` still names a position it
      reaches. */
  lemma LowerOwnLink(v: nat, j: nat, b: nat, edges: Edges, st: State)
    requires Stacked(edges, st) && v < |edges| && b < |st.stack| && st.stack[b] == v && OwnLink(edges, st, b)
    requires j < |st.stack| && Reach(edges, v, st.stack[j])
    ensures OwnLink(edges, Lower(v, st.indices[st.stack[j]].value, st), b)
  {
    var low := Idx(st, st.stack[j]);
    var next := Lower(v, low, st);
    var own :| 0 <= own <= b && Idx(st, st.stack[own]) == Low(st, v) && (own == b || Reach(edges, v, st.stack[own]));
    var pick := if low < Low(st, v) then j else own;
    PositionOrder(edges, st, j, own);
    assert Idx(next, next.stack[pick]) == Low(next, v);
  }

  lemma AfterBackEdge(v: nat, k: nat, b: nat, edges: Edges, st: State)
    requires Active(v, k, b, edges, st) && k < |edges[v]|
    requires 0 <= Idx(st, edges[v][k]) && On(st, edges[v][k])
    ensures Active(v, k + 1, b, edges, Lower(v, st.indices[edges[v][k]].value, st))
    ensures Framed(st, Lower(v, st.indices[edges[v][k]].value, st))
    ensures SameLowExcept(v, st, Lower(v, st.indices[edges[v][k]].value, st))
  {
    hide Linked, OwnLink, Above, Scanned, Reach;
    var w := edges[v][k];
    var low := st.indices[w].value;
    var next := Lower(v, low, st);
    EdgeReach(edges, v, k);
    var j := StackPosition(edges, st, w);
    LowerKeeps(v, low, b, edges, st);
    LowerAbove(v, low, b, edges, st);
    LowerOwnLink(v, j, b, edges, st);
    LowerScanned(v, low, k, edges, st);
  }

  lemma LowerScanned(v: nat, low: nat, k: nat, edges: Edges, st: State)
    requires Shaped(edges, st) && v < |edges| && k < |edges[v]| && Scanned(edges, st, v, k)
    requires 0 <= Idx(st, edges[v][k]) && (On(st, edges[v][k]) ==> low <= Idx(st, edges[v][k]))
    ensures Scanned(edges, Lower(v, low, st), v, k + 1)
  {
    var next := Lower(v, low, st);
    assert forall w: nat :: Idx(next, w) == Idx(st, w) && On(next, w) == On(st, w);
    assert Low(next, v) <= Low(st, v) && Low(next, v) <= low;
  }

  /** A call on an unvisited successor leaves what `v` knows about its own stretch intact. */
  lemma FrameActive(v: nat, k: nat, b: nat, edges: Edges, st: State, child: State)
    requires EdgesInRange(edges) && v < |edges| && k <= |edges[v]| && b < |st.stack| && st.stack[b] == v
    requires OwnLink(edges, st, b) && Scanned(edges, st, v, k) && forall i :: b < i < |st.stack| ==> Linked(edges, st, i)
    requires forall i :: 0 <= i < |st.stack| ==> 0 <= Idx(st, st.stack[i])
    requires Framed(st, child) && SameLow(st, child)
    ensures OwnLink(edges, child, b) && Scanned(edges, child, v, k)
    ensures forall i :: b < i < |st.stack| ==> Linked(edges, child, i)
    ensures forall i :: 0 <= i < |st.stack| ==>
              child.stack[i] == st.stack[i] && Low(child, st.stack[i]) == Low(st, st.stack[i]) &&
              Idx(child, st.stack[i]) == Idx(st, st.stack[i])
  {
    assert forall i :: 0 <= i < |st.stack| ==> child.stack[i] == st.stack[i];
    var own :| 0 <= own <= b && Idx(st, st.stack[own]) == Low(st, v) && (own == b || Reach(edges, v, st.stack[own]));
    assert Idx(child, child.stack[own]) == Low(child, v);
    forall i | b < i < |st.stack| ensures Linked(edges, child, i) {
      assert Linked(edges, st, i);
      var j :| 0 <= j < i && Idx(st, st.stack[j]) == Low(st, st.stack[i]) && Reach(edges, st.stack[i], st.stack[j]);
      assert Idx(child, child.stack[j]) == Low(child, child.stack[i]);
    }
    forall m | 0 <= m < k
      ensures 0 <= Idx(child, edges[v][m]) && (On(child, edges[v][m]) ==> Low(child, v) <= Idx(child, edges[v][m]))
    {
      assert 0 <= Idx(st, edges[v][m]);
    }
  }

  lemma AfterChild(v: nat, k: nat, b: nat, edges: Edges, st: State, child: State)
    requires Active(v, k, b, edges, st) && k < |edges[v]| && Idx(st, edges[v][k]) < 0
    requires Returned(edges[v][k], |st.stack|, st.index, edges, child)
    requires Framed(st, child) && SameLow(st, child)
    ensures Active(v, k + 1, b, edges, Lower(v, child.lowlinks[edges[v][k]], child))
  {
    hide Linked, OwnLink, Scanned, Reach;
    var w := edges[v][k];
    var low := child.lowlinks[w];
    EdgeReach(edges, v, k);
    FrameActive(v, k, b, edges, st, child);
    LowerKeeps(v, low, b, edges, child);
    assert forall i :: 0 <= i < |st.stack| ==> Idx(child, child.stack[i]) == Idx(st, st.stack[i]) < st.index;
    ChildOwnLink(v, w, b, |st.stack|, edges, child);
    ChildAbove(v, w, b, |st.stack|, edges, child);
    LowerScanned(v, low, k, edges, child);
  }

  lemma ChildFramed(v: nat, low: nat, st: State, child: State)
    requires v < |child.lowlinks| && Framed(st, child) && SameLow(st, child)
    ensures Framed(st, Lower(v, low, child)) && SameLowExcept(v, st, Lower(v, low, child))
  {
    var next := Lower(v, low, child);
    assert forall w: nat :: Idx(next, w) == Idx(child, w) && On(next, w) == On(child, w);
  }

  lemma ChildOwnLink(v: nat, w: nat, b: nat, top: nat, edges: Edges, child: State)
    requires Stacked(edges, child) && v < |edges| && w < |edges| && b < top <= |child.stack|
    requires child.stack[b] == v && OwnLink(edges, child, b) && Reach(edges, v, w)
    requires if |child.stack| == top then forall i :: 0 <= i < top ==> Idx(child, child.stack[i]) < Low(child, w)
             else child.stack[top] == w && Linked(edges, child, top)
    ensures OwnLink(edges, Lower(v, child.lowlinks[w], child), b)
  {
    hide Reach;
    if |child.stack| == top {
      var next := Lower(v, child.lowlinks[w], child);
      var own :| 0 <= own <= b && Idx(child, child.stack[own]) == Low(child, v) &&
                 (own == b || Reach(edges, v, child.stack[own]));
      assert Low(next, v) == Low(child, v);
      assert Idx(next, next.stack[own]) == Low(next, v);
    } else {
      var j :| 0 <= j < top && Idx(child, child.stack[j]) == Low(child, w) && Reach(edges, w, child.stack[j]);
      ReachTrans(edges, v, w, child.stack[j]);
      LowerOwnLink(v, j, b, edges, child);
    }
  }

  lemma ChildAbove(v: nat, w: nat, b: nat, top: nat, edges: Edges, child: State)
    requires Stacked(edges, child) && v < |edges| && w < |edges| && b < top <= |child.stack|
    requires child.stack[b] == v && Reach(edges, v, w)
    requires forall i :: b < i < top ==>
               Linked(edges, child, i) && Low(child, v) <= Low(child, child.stack[i]) && Reach(edges, v, child.stack[i])
    requires |child.stack| > top ==> child.stack[top] == w && Linked(edges, child, top) && Above(edges, child, w, top)
    ensures Above(edges, Lower(v, child.lowlinks[w], child), v, b)
  {
    var low := child.lowlinks[w];
    var next := Lower(v, low, child);
    LowerKeeps(v, low, b, edges, child);
    forall i | b < i < |child.stack|
      ensures Linked(edges, child, i) && Min(child.lowlinks[v], low) <= Low(child, child.stack[i]) && Reach(edges, v, child.stack[i])
    {
      ChildAboveAt(v, w, b, top, edges, child, i);
    }
    forall i | b < i < |next.stack|
      ensures Linked(edges, next, i) && Low(next, v) <= Low(next, next.stack[i]) && Reach(edges, v, next.stack[i])
    {
      PositionOrder(edges, child, b, i);
    }
  }

  lemma ChildAboveAt(v: nat, w: nat, b: nat, top: nat, edges: Edges, child: State, i: nat)
    requires v < |child.lowlinks| && w < |child.lowlinks| && b < top && b < i < |child.stack| && Reach(edges, v, w)
    requires i < top ==>
               Linked(edges, child, i) && Low(child, v) <= Low(child, child.stack[i]) && Reach(edges, v, child.stack[i])
    requires i >= top ==> child.stack[top] == w && Linked(edges, child, top) && Above(edges, child, w, top)
    ensures Linked(edges, child, i) && Min(child.lowlinks[v], child.lowlinks[w]) <= Low(child, child.stack[i])
    ensures Reach(edges, v, child.stack[i])
  {
    if i > top {
      assert Linked(edges, child, i) && Low(child, w) <= Low(child, child.stack[i]);
      ReachTrans(edges, v, w, child.stack[i]);
    }
  }

  /** Popping to the node at position `b` removes exactly the positions from `b` up. */
  lemma {:induction false} PopToSuffix(stack: seq<nat>, b: nat)
    requires b < |stack| && forall i :: b < i < |stack| ==> stack[i] != stack[b]
    ensures PopTo(stack, stack[b]).1 == stack[..b]
    decreases |stack|
  {
    var front := stack[..|stack| - 1];
    if b < |stack| - 1 {
      PopToSuffix(front, b);
      assert front[..b] == stack[..b];
    }
  }

  // ---- what a popped group is -----------------------------------------------------------------

  /** `w` has been taken off the stack. */
  predicate Off(st: State, w: nat) {
    0 <= Idx(st, w) && !On(st, w)
  }

  function OffNodes(st: State): (r: set<nat>)
    ensures forall w: nat :: w in r <==> Off(st, w)
  {
    set w: nat | w < |st.indices| && Off(st, w)
  }

  /** No edge leads out of the set. */
  ghost predicate ClosedSet(edges: Edges, keep: set<nat>) {
    forall w: nat, m :: w in keep && w < |edges| && 0 <= m < |edges[w]| ==> edges[w][m] in keep
  }

  /** Everything a node off the stack leads to is off the stack. */
  ghost predicate Closed(edges: Edges, st: State) {
    ClosedSet(edges, OffNodes(st))
  }

  lemma {:induction false} PathStaysIn(edges: Edges, keep: set<nat>, p: seq<nat>)
    requires ClosedSet(edges, keep) && IsPath(GraphOf(edges), p) && p[0] in keep
    ensures p[|p| - 1] in keep
    decreases |p|
  {
    assert p[1] in GraphOf(edges)[p[0]];
    var m :| 0 <= m < |edges[p[0]]| && edges[p[0]][m] == p[1];
    if |p| > 2 {
      assert IsPath(GraphOf(edges), p[1..]);
      PathStaysIn(edges, keep, p[1..]);
    }
  }

  lemma ReachStaysIn(edges: Edges, keep: set<nat>, x: nat, y: nat)
    requires ClosedSet(edges, keep) && x in keep && Reach(edges, x, y)
    ensures y in keep
  {
    var p :| IsPath(GraphOf(edges), p) && p[0] == x && p[|p| - 1] == y;
    PathStaysIn(edges, keep, p);
  }

  lemma CompletedIsClosed(edges: Edges, st: State, order: seq<nat>)
    requires EdgesInRange(edges) && Completed(edges, st, order)
    ensures Closed(edges, st)
  {
    forall w: nat, m | Off(st, w) && w < |edges| && 0 <= m < |edges[w]| ensures Off(st, edges[w][m]) {
      var i :| 0 <= i < |order| && order[i] == w;
      assert edges[w][m] in GraphOf(edges)[w];
      assert edges[w][m] in order[..i];
      assert edges[w][m] in order;
    }
  }

  /** Every two nodes lie on a common cycle. */
  ghost predicate Mutual(edges: Edges, nodes: seq<nat>) {
    forall x, y :: x in nodes && y in nodes ==> Reach(edges, x, y)
  }

  /** A strongly connected component that carries a cycle. */
  ghost predicate Component(edges: Edges, nodes: seq<nat>) {
    && nodes != [] && Mutual(edges, nodes)
    && forall x: nat, y: nat :: x in nodes && Reach(edges, x, y) && Reach(edges, y, x) ==> y in nodes
  }

  /** `v` has scanned everything and is the root of what lies from position `b` up. */
  ghost predicate Root(v: nat, b: nat, edges: Edges, st: State) {
    && v < |edges| && Active(v, |edges[v]|, b, edges, st) && Low(st, v) == Idx(st, v) && Closed(edges, st)
  }

  function NodesOf(s: seq<nat>): (r: set<nat>)
    ensures forall w: nat :: w in r <==> w in s
  {
    set w | w in s
  }

  lemma GroupMember(v: nat, b: nat, edges: Edges, st: State, i: nat)
    requires Root(v, b, edges, st) && b <= i < |st.stack|
    ensures st.stack[i] < |edges| && Scanned(edges, st, st.stack[i], |edges[st.stack[i]]|)
    ensures Low(st, v) <= Low(st, st.stack[i])
    ensures i > b ==> Linked(edges, st, i) && Reach(edges, v, st.stack[i])
  {
  }

  /** The edges of the group lead into it or off the stack. */
  lemma GroupClosed(v: nat, b: nat, edges: Edges, st: State)
    requires Root(v, b, edges, st)
    ensures ClosedSet(edges, NodesOf(st.stack[b..]) + OffNodes(st))
  {
    var keep := NodesOf(st.stack[b..]) + OffNodes(st);
    forall w: nat, m | w in keep && w < |edges| && 0 <= m < |edges[w]| ensures edges[w][m] in keep {
      if w in st.stack[b..] {
        var i :| 0 <= i < |st.stack[b..]| && st.stack[b..][i] == w;
        assert st.stack[b + i] == w;
        GroupMember(v, b, edges, st, b + i);
        GroupEdge(v, b, edges, st, w, m);
      }
    }
  }

  lemma GroupEdge(v: nat, b: nat, edges: Edges, st: State, w: nat, m: nat)
    requires Root(v, b, edges, st) && w < |edges| && m < |edges[w]|
    requires Scanned(edges, st, w, |edges[w]|) && Low(st, v) <= Low(st, w)
    ensures edges[w][m] in NodesOf(st.stack[b..]) + OffNodes(st)
  {
    var d := edges[w][m];
    assert 0 <= Idx(st, d) && (On(st, d) ==> Low(st, w) <= Idx(st, d));
    if On(st, d) {
      var j := StackPosition(edges, st, d);
      PositionOrder(edges, st, j, b);
      assert st.stack[b..][j - b] == d;
    }
  }

  lemma {:induction false} GroupReachesRoot(v: nat, b: nat, edges: Edges, st: State, i: nat)
    requires Root(v, b, edges, st) && b < i < |st.stack|
    ensures Reach(edges, st.stack[i], v)
    decreases i
  {
    GroupMember(v, b, edges, st, i);
    var j :| 0 <= j < i && Idx(st, st.stack[j]) == Low(st, st.stack[i]) && Reach(edges, st.stack[i], st.stack[j]);
    PositionOrder(edges, st, j, b);
    if j > b {
      GroupReachesRoot(v, b, edges, st, j);
      ReachTrans(edges, st.stack[i], st.stack[j], v);
    }
  }

  /** The group is a component when it has two members or its root a self-loop. */
  lemma GroupIsComponent(v: nat, b: nat, edges: Edges, st: State, nodes: seq<nat>)
    requires Root(v, b, edges, st) && (|st.stack| > b + 1 || v in edges[v])
    requires NodesOf(nodes) == NodesOf(st.stack[b..])
    ensures Component(edges, nodes)
  {
    var group := st.stack[b..];
    assert group[0] == v && v in NodesOf(nodes);
    if v in edges[v] {
      var k :| 0 <= k < |edges[v]| && edges[v][k] == v;
      EdgeReach(edges, v, k);
    } else {
      GroupMember(v, b, edges, st, b + 1);
      GroupReachesRoot(v, b, edges, st, b + 1);
      ReachTrans(edges, v, st.stack[b + 1], v);
    }
    forall x | x in group ensures Reach(edges, v, x) && Reach(edges, x, v) {
      var i :| 0 <= i < |group| && group[i] == x;
      GroupMember(v, b, edges, st, b + i);
      if i > 0 { GroupReachesRoot(v, b, edges, st, b + i); }
    }
    assert forall x :: x in nodes <==> x in NodesOf(nodes);
    forall x, y | x in nodes && y in nodes ensures Reach(edges, x, y) {
      ReachTrans(edges, x, v, y);
    }
    GroupClosed(v, b, edges, st);
    forall x: nat, y: nat | x in nodes && Reach(edges, x, y) && Reach(edges, y, x) ensures y in nodes {
      ReachStaysIn(edges, NodesOf(group) + OffNodes(st), x, y);
      if y in OffNodes(st) { OffIsNotOn(edges, st, y, x); }
    }
  }

  lemma OffIsNotOn(edges: Edges, st: State, y: nat, x: nat)
    requires Closed(edges, st) && Off(st, y) && Reach(edges, y, x)
    ensures Off(st, x)
  {
    ReachStaysIn(edges, OffNodes(st), y, x);
  }

  /** A root alone without a self-loop lies on no cycle. */
  lemma LoneRootIsAcyclic(v: nat, b: nat, edges: Edges, st: State)
    requires Root(v, b, edges, st) && |st.stack| == b + 1 && v !in edges[v]
    ensures !Reach(edges, v, v)
  {
    if Reach(edges, v, v) {
      var p :| IsPath(GraphOf(edges), p) && p[0] == v && p[|p| - 1] == v;
      var d := p[1];
      assert d in GraphOf(edges)[v] && d in edges[v];
      var m :| 0 <= m < |edges[v]| && edges[v][m] == d;
      GroupEdge(v, b, edges, st, v, m);
      assert st.stack[b..] == [v];
      assert Off(st, d) && On(st, st.stack[b]);
      assert IsPath(GraphOf(edges), p[1..]) || |p| == 2;
      if |p| > 2 { PathStaysIn(edges, OffNodes(st), p[1..]); }
    }
  }

  /** Popping at a root: the group goes off the stack, and is reported exactly when it holds a cycle. */
  lemma GroupPopped(v: nat, b: nat, edges: Edges, st: State)
    requires Root(v, b, edges, st)
    ensures var r := Finish(v, edges, st);
            && CutAt(b, st, r) && Stacked(edges, r) && Closed(edges, r)
    ensures var r := Finish(v, edges, st);
            if |st.stack| > b + 1 || v in edges[v]
            then r.found.Some? && NodesOf(r.found.value) == NodesOf(st.stack[b..]) && Component(edges, r.found.value)
            else r.found == st.found && !Reach(edges, v, v)
  {
    var r := Finish(v, edges, st);
    var group := st.stack[b..];
    var (scc, rest) := PopTo(st.stack, v);
    forall i | b < i < |st.stack| ensures st.stack[i] != v { PositionOrder(edges, st, b, i); }
    PopToSuffix(st.stack, b);
    PoppedAreGroup(st.stack, b);
    FinishCuts(v, b, edges, st);
    CutStacked(b, edges, st, r);
    GroupClosed(v, b, edges, st);
    CutClosed(b, edges, st, r);
    if |st.stack| > b + 1 || v in edges[v] {
      GroupIsComponent(v, b, edges, st, scc);
    } else {
      LoneRootIsAcyclic(v, b, edges, st);
    }
  }

  lemma PoppedAreGroup(stack: seq<nat>, b: nat)
    requires b < |stack| && PopTo(stack, stack[b]).1 == stack[..b]
    ensures |PopTo(stack, stack[b]).0| == |stack| - b
    ensures NodesOf(PopTo(stack, stack[b]).0) == NodesOf(stack[b..])
  {
    var scc, group := PopTo(stack, stack[b]).0, stack[b..];
    assert |scc| == |group|;
    forall w | w in group ensures w in scc {
      var i :| 0 <= i < |group| && group[i] == w;
      assert scc[|group| - 1 - i] == stack[|stack| - 1 - (|group| - 1 - i)] == w;
    }
    forall w | w in scc ensures w in group {
      var i :| 0 <= i < |scc| && scc[i] == w;
      assert group[|group| - 1 - i] == stack[|stack| - 1 - i] == w;
    }
  }

  /** `r` is `st` with the stack cut at position `b`. */
  ghost predicate CutAt(b: nat, st: State, r: State) {
    && b <= |st.stack| && r.stack == st.stack[..b] && r.index == st.index
    && (forall w: nat :: Idx(r, w) == Idx(st, w) && Low(r, w) == Low(st, w))
    && (forall w: nat :: On(r, w) <==> On(st, w) && w !in st.stack[b..])
  }

  lemma FinishCuts(v: nat, b: nat, edges: Edges, st: State)
    requires Shaped(edges, st) && v < |edges| && b <= |st.stack| && Some(st.lowlinks[v]) == st.indices[v]
    requires PopTo(st.stack, v).1 == st.stack[..b] && NodesOf(PopTo(st.stack, v).0) == NodesOf(st.stack[b..])
    ensures CutAt(b, st, Finish(v, edges, st))
  {
    var r := Finish(v, edges, st);
    forall w: nat ensures On(r, w) <==> On(st, w) && w !in st.stack[b..] {
      assert w in st.stack[b..] <==> w in NodesOf(st.stack[b..]);
      assert w in PopTo(st.stack, v).0 <==> w in NodesOf(PopTo(st.stack, v).0);
    }
  }

  lemma CutStacked(b: nat, edges: Edges, st: State, r: State)
    requires Stacked(edges, st) && Shaped(edges, r) && CutAt(b, st, r)
    ensures Stacked(edges, r)
  {
    assert forall i :: b <= i < |st.stack| ==> st.stack[b..][i - b] == st.stack[i];
    forall i | 0 <= i < b ensures On(r, st.stack[i]) {
      forall j | 0 <= j < |st.stack[b..]| ensures st.stack[b..][j] != st.stack[i] { PositionOrder(edges, st, i, b + j); }
    }
    forall w: nat | On(r, w) ensures w in r.stack {
      var i := StackPosition(edges, st, w);
      assert r.stack[i] == w;
    }
  }

  lemma CutClosed(b: nat, edges: Edges, st: State, r: State)
    requires b <= |st.stack| && forall i :: b <= i < |st.stack| ==> On(st, st.stack[i]) && 0 <= Idx(st, st.stack[i])
    requires ClosedSet(edges, NodesOf(st.stack[b..]) + OffNodes(st)) && CutAt(b, st, r)
    ensures Closed(edges, r)
  {
    hide ClosedSet;
    var group := st.stack[b..];
    forall w: nat ensures w in OffNodes(r) <==> w in NodesOf(group) + OffNodes(st) {
      if w in group {
        var j :| 0 <= j < |group| && group[j] == w;
        assert st.stack[b + j] == w;
      }
    }
    assert OffNodes(r) == NodesOf(group) + OffNodes(st);
  }

  /** What the cut at `v` proves: a cycle through `v`, or that `v` completes alone. */
  lemma FinishCorrect(v: nat, b: nat, edges: Edges, before: State, st: State, order: seq<nat>) returns (order': seq<nat>)
    requires Stacked(edges, before) && v < |edges| && Idx(before, v) < 0 && b == |before.stack|
    requires Active(v, |edges[v]|, b, edges, st) && st.found.None? && Completed(edges, st, order)
    requires Framed(Push(v, before), st) && SameLowExcept(v, Push(v, before), st)
    ensures var r := Finish(v, edges, st);
            if r.found.Some? then HasCycle(GraphOf(edges))
            else
              && Returned(v, b, before.index, edges, r) && Framed(before, r) && SameLow(before, r)
              && Completed(edges, r, order')
  {
    order' := order;
    FrameSincePush(v, before, st);
    hide Finish, Completed, Above, OwnLink, Linked, Component, CutAt, Closed;
    if Low(st, v) == before.index {
      CompletedIsClosed(edges, st, order);
      GroupPopped(v, b, edges, st);
      var r := Finish(v, edges, st);
      if r.found.None? {
        order' := order + [v];
        SingletonCompletes(v, b, edges, st, order);
        SingletonReturned(v, b, edges, before, st, order);
      } else {
        ComponentHasCycle(edges, r.found.value);
      }
    } else {
      OwnLinkBelow(v, b, edges, st);
    }
  }

  lemma FrameSincePush(v: nat, before: State, st: State)
    requires v < |before.indices| == |before.lowlinks| == |before.onStack| && Idx(before, v) < 0
    requires Framed(Push(v, before), st) && SameLowExcept(v, Push(v, before), st)
    ensures Framed(before, st) && SameLow(before, st) && Idx(st, v) == before.index
    ensures |before.stack| < |st.stack| && before.stack == st.stack[..|before.stack|]
  {
    var pushed := Push(v, before);
    assert Idx(pushed, v) == before.index && pushed.stack[..|before.stack|] == before.stack;
    forall w: nat | 0 <= Idx(before, w)
      ensures Idx(st, w) == Idx(before, w) && On(st, w) == On(before, w) && Low(st, w) == Low(before, w)
    {
      assert w != v && Idx(pushed, w) == Idx(before, w) && On(pushed, w) == On(before, w) && Low(pushed, w) == Low(before, w);
    }
  }

  lemma SingletonReturned(v: nat, b: nat, edges: Edges, before: State, st: State, order: seq<nat>)
    requires Shaped(edges, st) && v < |edges| && b == |before.stack| && Idx(before, v) < 0 <= Idx(st, v) == before.index
    requires before.index <= st.index && Low(st, v) == Idx(st, v)
    requires Framed(before, st) && SameLow(before, st) && Completed(edges, st, order)
    requires SuccessorsFirst(GraphOf(edges), order + [v]) && st.stack == before.stack + [v]
    requires Stacked(edges, Finish(v, edges, st)) && CutAt(b, st, Finish(v, edges, st))
    ensures var r := Finish(v, edges, st);
            && Returned(v, b, before.index, edges, r) && Framed(before, r) && SameLow(before, r)
            && Completed(edges, r, order + [v])
  {
    assert st.stack[b..] == [v] && st.stack[..b] == before.stack;
  }

  lemma ComponentHasCycle(edges: Edges, nodes: seq<nat>)
    requires Component(edges, nodes)
    ensures HasCycle(GraphOf(edges))
  {
    assert Reach(edges, nodes[0], nodes[0]);
  }

  lemma OwnLinkBelow(v: nat, b: nat, edges: Edges, st: State)
    requires Stacked(edges, st) && b < |st.stack| && st.stack[b] == v && OwnLink(edges, st, b)
    requires v < |edges| && Scanned(edges, st, v, |edges[v]|) && Low(st, v) != Idx(st, v)
    ensures Linked(edges, st, b) && Low(st, v) < Idx(st, v)
  {
    var j :| 0 <= j <= b && Idx(st, st.stack[j]) == Low(st, v) && (j == b || Reach(edges, v, st.stack[j]));
    PositionOrder(edges, st, j, b);
  }

  lemma SingletonCompletes(v: nat, b: nat, edges: Edges, st: State, order: seq<nat>)
    requires v < |edges| && Active(v, |edges[v]|, b, edges, st) && |st.stack| == b + 1 && Completed(edges, st, order)
    requires Low(st, v) == Idx(st, v) && v !in edges[v]
    ensures SuccessorsFirst(GraphOf(edges), order + [v])
  {
    var g := GraphOf(edges);
    var order' := order + [v];
    assert v !in order by { assert On(st, st.stack[b]); }
    forall w | w in g[v] ensures w in order {
      var m :| 0 <= m < |edges[v]| && edges[v][m] == w;
      if On(st, w) {
        var j := StackPosition(edges, st, w);
        PositionOrder(edges, st, j, b);
      }
    }
    forall i, w | 0 <= i < |order'| && w in g[order'[i]] ensures w in order'[..i] {
      if i < |order| {
        assert order'[..i] == order[..i];
      } else {
        assert order'[..i] == order;
      }
    }
  }

  lemma {:induction false} SearchCorrect(v: nat, edges: Edges, st: State, order: seq<nat>) returns (rank: seq<nat>)
    requires Stacked(edges, st) && st.found.None? && st.stack == [] && Completed(edges, st, order)
    requires v <= |edges| && forall w: nat :: w < v ==> 0 <= Idx(st, w)
    ensures var r := Search(v, edges, st);
            if r.found.Some? then HasCycle(GraphOf(edges)) else Ranked(GraphOf(edges), rank)
    decreases |edges| - v
  {
    rank := [];
    if v == |edges| {
      forall w: nat | w < |edges| ensures w in order {
        assert 0 <= Idx(st, w);
        assert On(st, w) ==> w in st.stack;
      }
      rank := OrderGivesRank(GraphOf(edges), order);
    } else if 0 <= Idx(st, v) {
      rank := SearchCorrect(v + 1, edges, st, order);
    } else {
      var o := ConnectCorrect(v, edges, st, order);
      var r := Connect(v, edges, st);
      if r.found.None? {
        assert r.stack == [];
        rank := SearchCorrect(v + 1, edges, r, o);
      }
    }
  }

  /** The detector answers `Some` exactly on the graphs with a cycle, self-loops included; a `None`
      comes with a rank that orders the nodes. */
  lemma DetectionIsExact(edges: Edges) returns (rank: seq<nat>)
    requires EdgesInRange(edges)
    ensures FirstCycle(edges).Some? <==> HasCycle(GraphOf(edges))
    ensures FirstCycle(edges).None? ==> Ranked(GraphOf(edges), rank)
  {
    rank := SearchCorrect(0, edges, Initial(|edges|), []);
    if FirstCycle(edges).None? {
      RankedAcyclic(GraphOf(edges), rank);
    }
  }

  predicate IsExample(edges: Edges) {
    edges == [[1], [2, 3], [2], []]
  }

  /** Node 2 finds its self-loop. */
  lemma ExampleNode2(edges: Edges, before: State)
    requires IsExample(edges) && before.index == 2 && before.found.None?
    requires before.stack == [0, 1] && before.onStack == [true, true, false, false]
    requires before.indices == [Some(0), Some(1), None, None] && before.lowlinks == [0, 1, 0, 0]
    ensures EdgesInRange(edges) && Connect(2, edges, before).found == Some([2])
    ensures Connect(2, edges, before).stack == [0, 1] && Connect(2, edges, before).lowlinks == [0, 1, 2, 0]
    ensures Connect(2, edges, before).indices == [Some(0), Some(1), Some(2), None]
  {
    var pushed := Push(2, before);
    assert Lower(2, 2, pushed) == pushed;
    assert Visit(2, 0, edges, pushed) == Visit(2, 1, edges, pushed) == pushed;
    assert pushed.stack[..2] == [0, 1];
    assert PopTo(pushed.stack, 2) == ([2], [0, 1]);
  }

  /** Node 1 then skips node 3 and inherits its lowlink 0. */
  lemma ExampleNode1(edges: Edges, before: State)
    requires IsExample(edges) && before.index == 1 && before.found.None?
    requires before.stack == [0] && before.onStack == [true, false, false, false]
    requires before.indices == [Some(0), None, None, None] && before.lowlinks == [0, 0, 0, 0]
    ensures EdgesInRange(edges) && Connect(1, edges, before).found.Some?
    ensures Connect(1, edges, before).stack == [0, 1] && Connect(1, edges, before).lowlinks == [0, 0, 2, 0]
    ensures Connect(1, edges, before).indices == [Some(0), Some(1), Some(2), None]
  {
    var pushed := Push(1, before);
    ExampleNode2(edges, pushed);
    var found := Connect(2, edges, pushed);
    assert Lower(1, 2, found) == found;
    assert Visit(1, 0, edges, pushed) == Visit(1, 1, edges, found);
    assert Connect(3, edges, found) == found;
    var lowered := Lower(1, 0, found);
    assert Visit(1, 1, edges, found) == Visit(1, 2, edges, lowered) == lowered;
  }

  /** The reported vector need not be a component: after the find at node 2, node 1 meets its second
      successor unvisited and stays on the stack; the root then overwrites the find with two nodes
      that lie on no cycle. */
  lemma ReportedNodesMayLieOnNoCycle(edges: Edges)
    requires IsExample(edges)
    ensures EdgesInRange(edges) && FirstCycle(edges) == Some([1, 0])
    ensures !Reach(edges, 0, 0) && !Reach(edges, 1, 1) && Reach(edges, 2, 2)
  {
    var start := Initial(|edges|);
    var pushed := Push(0, start);
    assert pushed.lowlinks == [0, 0, 0, 0] && pushed.indices == [Some(0), None, None, None];
    ExampleNode1(edges, pushed);
    var child := Connect(1, edges, pushed);
    assert Lower(0, 0, child) == child;
    assert Visit(0, 0, edges, pushed) == Visit(0, 1, edges, child) == child;
    assert child.stack[..1] == [0];
    PopBoth(child.stack);
    assert Connect(0, edges, start).found == Some([1, 0]);
    assert Search(0, edges, start) == Search(1, edges, Connect(0, edges, start));
    NoWayBack(edges);
    EdgeReach(edges, 2, 0);
  }

  lemma PopBoth(stack: seq<nat>)
    requires stack == [0, 1]
    ensures PopTo(stack, 0) == ([1, 0], [])
  {
    var front := stack[..1];
    assert front == [0] && front[..0] == [];
    assert PopTo(front, 0) == ([0], []);
    var one: nat := 1;
    assert [one] + PopTo(front, 0).0 == [1, 0];
  }

  lemma NoWayBack(edges: Edges)
    requires edges == [[1], [2, 3], [2], []]
    ensures !Reach(edges, 0, 0) && !Reach(edges, 1, 1)
  {
    var g := GraphOf(edges);
    forall p | IsPath(g, p) ensures p[|p| - 1] >= 2 || p[|p| - 1] > p[0] {
      NodesClimb(edges, p);
    }
  }

  lemma {:induction false} NodesClimb(edges: Edges, p: seq<nat>)
    requires edges == [[1], [2, 3], [2], []] && IsPath(GraphOf(edges), p)
    ensures p[|p| - 1] >= 2 || p[|p| - 1] > p[0]
    decreases |p|
  {
    assert p[1] in GraphOf(edges)[p[0]] && p[1] in edges[p[0]];
    if |p| > 2 {
      assert IsPath(GraphOf(edges), p[1..]);
      NodesClimb(edges, p[1..]);
    }
  }
}
