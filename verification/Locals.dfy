/** The `locals` fixpoint solver and its cycle check (`eval/locals.rs`). */
module Locals {
  import opened Ir
  import opened Text
  import opened Reducer
  import opened Semantics
  import opened References
  import opened Graphs
  import opened Tarjan
  import opened Participants
  import opened CycleReports
  import opened Stability
  import opened Addresses

  /** A declared local: its name and its expression. */
  type Local = Entry<Expr>

  // ---- references -----------------------------------------------------------------------------

  function UnionAll(sets: seq<set<string>>): set<string> {
    set i, x | 0 <= i < |sets| && x in sets[i] :: x
  }

  lemma InUnion(sets: seq<set<string>>, i: nat)
    requires i < |sets|
    ensures sets[i] <= UnionAll(sets)
  {
  }

  lemma UnionAllSnoc(sets: seq<set<string>>, last: set<string>)
    ensures UnionAll(sets + [last]) == UnionAll(sets) + last
  {
    var more := sets + [last];
    forall x | x in UnionAll(sets) + last ensures x in UnionAll(more) {
      if x in last {
        assert x in more[|sets|];
      } else {
        var i :| 0 <= i < |sets| && x in sets[i];
        assert x in more[i];
      }
    }
  }

  function SymbolRefs(sym: Symbolic): set<string> {
    var name := Head(StripPrefix(sym.source, "local."));
    if sym.kind == SymbolKind.Local && name != "" then {name} else {}
  }

  /** The names of the `local.<name>` references in an expression. */
  function LocalRefs(e: Expr): set<string>
    decreases e
  {
    match e
    case Literal(_) => {}
    case Unresolved(sym) => SymbolRefs(sym)
    case Binary(_, l, r) => LocalRefs(l) + LocalRefs(r)
    case Unary(_, x) => LocalRefs(x)
    case Template(ps) => RefsOfAll(ps)
    case Array(xs) => RefsOfAll(xs)
    case Object(fs) => UnionAll(seq(|fs|, i requires 0 <= i < |fs| => RefsOfField(fs[i])))
    case Call(_, args) => RefsOfAll(args)
    case Conditional(c, t, f) => LocalRefs(c) + LocalRefs(t) + LocalRefs(f)
    case For(_, coll, key, y, filter, _) =>
      LocalRefs(coll) + LocalRefs(y)
      + (if key.Some? then LocalRefs(key.value) else {})
      + (if filter.Some? then LocalRefs(filter.value) else {})
  }

  function RefsOfAll(es: seq<Expr>): set<string>
    decreases es
  {
    UnionAll(seq(|es|, i requires 0 <= i < |es| => LocalRefs(es[i])))
  }

  function RefsOfField(f: Field): set<string>
    decreases f
  {
    LocalRefs(f.k) + LocalRefs(f.v)
  }

  /** `collect_local_refs`: adds to the accumulated set. */
  method CollectLocalRefs(e: Expr, out: set<string>) returns (r: set<string>)
    ensures r == out + LocalRefs(e)
    decreases e, 1
  {
    r := out;
    match e {
      case Literal(_) =>
      case Unresolved(sym) =>
        if sym.kind == SymbolKind.Local {
          var name := Head(StripPrefix(sym.source, "local."));
          if name != "" {
            r := r + {name};
          }
        }
      case Binary(_, l, rhs) =>
        r := CollectLocalRefs(l, r);
        r := CollectLocalRefs(rhs, r);
      case Unary(_, x) =>
        r := CollectLocalRefs(x, r);
      case Template(ps) =>
        r := CollectFromAll(ps, r);
      case Array(xs) =>
        r := CollectFromAll(xs, r);
      case Object(fs) =>
        ghost var parts: seq<set<string>> := [];
        for i := 0 to |fs|
          invariant parts == seq(i, k requires 0 <= k < i => RefsOfField(fs[k]))
          invariant r == out + UnionAll(parts)
        {
          var f := fs[i];
          r := CollectLocalRefs(f.k, r);
          r := CollectLocalRefs(f.v, r);
          UnionAllSnoc(parts, RefsOfField(f));
          parts := parts + [RefsOfField(f)];
        }
      case Call(_, args) =>
        r := CollectFromAll(args, r);
      case Conditional(c, t, f) =>
        r := CollectLocalRefs(c, r);
        r := CollectLocalRefs(t, r);
        r := CollectLocalRefs(f, r);
      case For(_, coll, key, y, filter, _) =>
        r := CollectLocalRefs(coll, r);
        r := CollectLocalRefs(y, r);
        if key.Some? {
          r := CollectLocalRefs(key.value, r);
        }
        if filter.Some? {
          r := CollectLocalRefs(filter.value, r);
        }
    }
  }

  method CollectFromAll(es: seq<Expr>, out: set<string>) returns (r: set<string>)
    ensures r == out + RefsOfAll(es)
    decreases es, 0
  {
    r := out;
    ghost var parts: seq<set<string>> := [];
    for i := 0 to |es|
      invariant parts == seq(i, k requires 0 <= k < i => LocalRefs(es[k]))
      invariant r == out + UnionAll(parts)
    {
      r := CollectLocalRefs(es[i], r);
      UnionAllSnoc(parts, LocalRefs(es[i]));
      parts := parts + [LocalRefs(es[i])];
    }
  }

  lemma SymbolMentions(sym: Symbolic, x: string)
    ensures x in SymbolRefs(sym) <==> sym.kind == SymbolKind.Local && NamesLocal(sym.source, x)
  {
    HeadIs(StripPrefix(sym.source, "local."), x);
  }

  /** The collected names are exactly those of the `Local` symbols that occur. */
  lemma {:induction false} RefsAreMentions(e: Expr, x: string)
    ensures x in LocalRefs(e) <==> Mentions(e, x)
    decreases e
  {
    hide NamesLocal, SymbolRefs;
    match e
    case Literal(_) =>
    case Unresolved(sym) =>
      SymbolMentions(sym, x);
    case Binary(_, l, r) => RefsAreMentions(l, x); RefsAreMentions(r, x);
    case Unary(_, y) => RefsAreMentions(y, x);
    case Template(ps) => RefsAreMentionsAll(ps, x);
    case Array(xs) => RefsAreMentionsAll(xs, x);
    case Object(fs) =>
      var parts := seq(|fs|, i requires 0 <= i < |fs| => RefsOfField(fs[i]));
      forall i | 0 <= i < |fs| ensures x in parts[i] <==> SomeMentions(SymbolsField(fs[i]), x) {
        var f := fs[i];
        RefsAreMentions(f.k, x); RefsAreMentions(f.v, x);
      }
      if x in LocalRefs(e) {
        var i :| 0 <= i < |fs| && x in parts[i];
        var sym :| sym in SymbolsField(fs[i]) && sym.kind == SymbolKind.Local && NamesLocal(sym.source, x);
        assert sym in Symbols(e);
      }
      if Mentions(e, x) {
        var sym :| sym in Symbols(e) && sym.kind == SymbolKind.Local && NamesLocal(sym.source, x);
        var i :| 0 <= i < |fs| && sym in SymbolsField(fs[i]);
        assert x in parts[i];
      }
    case Call(_, args) => RefsAreMentionsAll(args, x);
    case Conditional(c, t, f) => RefsAreMentions(c, x); RefsAreMentions(t, x); RefsAreMentions(f, x);
    case For(_, coll, key, y, filter, _) =>
      RefsAreMentions(coll, x); RefsAreMentions(y, x);
      if key.Some? { RefsAreMentions(key.value, x); }
      if filter.Some? { RefsAreMentions(filter.value, x); }
  }

  ghost predicate SomeMentions(syms: set<Symbolic>, x: string) {
    exists sym :: sym in syms && sym.kind == SymbolKind.Local && NamesLocal(sym.source, x)
  }

  lemma {:induction false} RefsAreMentionsAll(es: seq<Expr>, x: string)
    ensures x in RefsOfAll(es) <==> SomeMentions(SymbolsAll(es), x)
    decreases es
  {
    hide NamesLocal;
    var parts := seq(|es|, i requires 0 <= i < |es| => LocalRefs(es[i]));
    forall i | 0 <= i < |es| ensures x in parts[i] <==> SomeMentions(Symbols(es[i]), x) {
      RefsAreMentions(es[i], x);
    }
    if x in RefsOfAll(es) {
      var i :| 0 <= i < |es| && x in parts[i];
      var sym :| sym in Symbols(es[i]) && sym.kind == SymbolKind.Local && NamesLocal(sym.source, x);
      assert sym in SymbolsAll(es);
    }
    if SomeMentions(SymbolsAll(es), x) {
      var sym :| sym in SymbolsAll(es) && sym.kind == SymbolKind.Local && NamesLocal(sym.source, x);
      var i :| 0 <= i < |es| && sym in Symbols(es[i]);
      assert x in parts[i];
    }
  }

  // ---- the declared dependency graph ----------------------------------------------------------

  /** The index a name resolves to: the last local declared under it. */
  predicate Declares(locals: seq<Local>, j: nat, name: string) {
    && j < |locals| && locals[j].key == name
    && forall k :: j < k < |locals| ==> locals[k].key != name
  }

  /** The source text refers to the local `x`: it is `local.x`, or goes on with a dot. */
  ghost predicate NamesLocal(source: string, x: string) {
    var rest := if "local." <= source then source[6..] else source;
    x != "" && '.' !in x && (rest == x || x + "." <= rest)
  }

  /** A `local.<x>` reference occurs in the expression. */
  ghost predicate Mentions(e: Expr, x: string) {
    SomeMentions(Symbols(e), x)
  }

  /** The dependencies as declared: an edge to every local that is mentioned, the last one of its name. */
  ghost function DepGraph(locals: seq<Local>): Graph {
    seq(|locals|, i requires 0 <= i < |locals| =>
      set j: nat | j < |locals| && Declares(locals, j, locals[j].key) && Mentions(locals[i].val, locals[j].key))
  }

  /** The collected references make the declared graph. */
  lemma DependsExactly(locals: seq<Local>, i: nat)
    requires i < |locals|
    ensures DepGraph(locals)[i] ==
            set j: nat | j < |locals| && Declares(locals, j, locals[j].key) && locals[j].key in LocalRefs(locals[i].val)
  {
    hide Declares, LocalRefs, Mentions;
    forall j: nat | j < |locals| ensures locals[j].key in LocalRefs(locals[i].val) <==> Mentions(locals[i].val, locals[j].key) {
      RefsAreMentions(locals[i].val, locals[j].key);
    }
  }

  /** An expression in which no `Local` symbol occurs depends on nothing, binders of that name included. */
  lemma NoLocalsNoEdges(locals: seq<Local>, i: nat)
    requires i < |locals| && forall sym :: sym in Symbols(locals[i].val) ==> sym.kind != SymbolKind.Local
    ensures DepGraph(locals)[i] == {}
  {
  }

  datatype CycleError = Cycle(participants: set<string>)

  function LocalAddress(l: Local): string {
    "local." + l.key
  }

  /** The addresses of the reported locals; a name that makes no valid address is dropped. */
  function ParticipantsOf(locals: seq<Local>, nodes: seq<nat>): set<string> {
    set i | 0 <= i < |nodes| && nodes[i] < |locals| && ValidAddress(LocalAddress(locals[nodes[i]])) :: LocalAddress(locals[nodes[i]])
  }

  /** The edge lists as some draining of the hash sets fills them: every dependency once, in any order. */
  ghost predicate DrawnFrom(locals: seq<Local>, edges: Edges) {
    Draws(edges, DepGraph(locals))
  }

  /** One local's edge list. A hash set is drained in no particular order. */
  method EdgeList(locals: seq<Local>, refs: set<string>, nameToIdx: map<string, nat>) returns (edgeList: seq<nat>)
    requires forall name :: name in nameToIdx ==> Declares(locals, nameToIdx[name], name)
    requires forall k :: 0 <= k < |locals| ==> locals[k].key in nameToIdx
    ensures forall m :: 0 <= m < |edgeList| ==> edgeList[m] < |locals|
    ensures forall k, m :: 0 <= k < m < |edgeList| ==> edgeList[k] != edgeList[m]
    ensures (set w | w in edgeList) ==
            set j: nat | j < |locals| && Declares(locals, j, locals[j].key) && locals[j].key in refs
  {
    edgeList := [];
    var deps := refs;
    while deps != {}
      invariant deps <= refs
      invariant forall m :: 0 <= m < |edgeList| ==> edgeList[m] < |locals| && locals[edgeList[m]].key !in deps
      invariant forall k, m :: 0 <= k < m < |edgeList| ==> edgeList[k] != edgeList[m]
      invariant forall j: nat :: j in edgeList <==>
                  j < |locals| && Declares(locals, j, locals[j].key) && locals[j].key in refs - deps
      decreases deps
    {
      var dep :| dep in deps;
      deps := deps - {dep};
      if dep in nameToIdx {
        assert forall j: nat :: j < |locals| && Declares(locals, j, dep) ==> j == nameToIdx[dep];
        edgeList := edgeList + [nameToIdx[dep]];
      }
    }
  }

  /** The addresses named in the error, sorted and without repetition as the set is here. */
  method NameParticipants(locals: seq<Local>, nodes: seq<nat>) returns (participants: set<string>)
    ensures participants == ParticipantsOf(locals, nodes)
  {
    participants := {};
    for i := 0 to |nodes|
      invariant participants == ParticipantsOf(locals, nodes[..i])
    {
      assert nodes[..i + 1] == nodes[..i] + [nodes[i]];
      ParticipantsSnoc(locals, nodes[..i], nodes[i]);
      if nodes[i] < |locals| {
        var address := LocalAddress(locals[nodes[i]]);
        if ValidAddress(address) {
          participants := participants + {address};
        }
      }
    }
    assert nodes[..|nodes|] == nodes;
  }

  /** Each local's references as edges; a repeated name stands for its last declaration. */
  method EdgeLists(locals: seq<Local>) returns (lists: Edges)
    ensures DrawnFrom(locals, lists)
  {
    var nameToIdx: map<string, nat> := map[];
    for i := 0 to |locals|
      invariant forall name :: name in nameToIdx ==> Declares(locals[..i], nameToIdx[name], name)
      invariant forall k :: 0 <= k < i ==> locals[k].key in nameToIdx
    {
      assert locals[..i + 1] == locals[..i] + [locals[i]];
      nameToIdx := nameToIdx[locals[i].key := i];
    }
    assert locals[..|locals|] == locals;

    hide Declares, LocalRefs, SomeMentions;
    lists := [];
    for i := 0 to |locals|
      invariant |lists| == i
      invariant forall k, m :: 0 <= k < i && 0 <= m < |lists[k]| ==> lists[k][m] < |locals|
      invariant forall k :: 0 <= k < i ==> (set w | w in lists[k]) == DepGraph(locals)[k]
      invariant forall v, k, m :: 0 <= v < i && 0 <= k < m < |lists[v]| ==> lists[v][k] != lists[v][m]
    {
      var deps := CollectLocalRefs(locals[i].val, {});
      assert deps == LocalRefs(locals[i].val);
      DependsExactly(locals, i);
      var edgeList := EdgeList(locals, deps, nameToIdx);
      lists := lists + [edgeList];
    }
    assert forall k :: 0 <= k < |locals| ==> GraphOf(lists)[k] == DepGraph(locals)[k];
    assert GraphOf(lists) == DepGraph(locals);
  }

  /** `check_cycle`: fails exactly on a cyclic graph, naming the locals the detector reports on the edge
      lists as they were drawn; otherwise it ranks the locals. Each participant leads to a cycle. */
  method CheckCycle(locals: seq<Local>) returns (err: Option<CycleError>, ghost edges: Edges, ghost rank: seq<nat>)
    ensures err.Some? <==> HasCycle(DepGraph(locals))
    ensures err.None? ==> Ranked(DepGraph(locals), rank)
    ensures DrawnFrom(locals, edges) && (err.Some? <==> FirstCycle(edges).Some?)
    ensures err.Some? ==> err.value.participants == ParticipantsOf(locals, FirstCycle(edges).value)
    ensures err.Some? ==> forall a :: a in err.value.participants ==> NamesCyclicLocal(locals, a)
  {
    var lists := EdgeLists(locals);
    edges := lists;
    assert EdgesInRange(lists) && GraphOf(lists) == DepGraph(locals);
    hide DrawnFrom, DepGraph, GraphOf, HasCycle, Ranked, ParticipantsOf, NamesCyclicLocal;
    var scc := TarjanFirstCycle(lists);
    rank := DetectionIsExact(lists);
    if scc.None? {
      return None, edges, rank;
    }
    ParticipantsLeadToCycles(locals, lists);
    var participants := NameParticipants(locals, scc.value);
    return Some(Cycle(participants)), edges, rank;
  }

  lemma ParticipantsSnoc(locals: seq<Local>, nodes: seq<nat>, n: nat)
    ensures ParticipantsOf(locals, nodes + [n]) ==
            ParticipantsOf(locals, nodes)
            + if n < |locals| && ValidAddress(LocalAddress(locals[n])) then {LocalAddress(locals[n])} else {}
  {
    hide ValidAddress;
    var more := nodes + [n];
    assert more[|nodes|] == n;
    forall a | a in ParticipantsOf(locals, nodes) ensures a in ParticipantsOf(locals, more) {
      var i :| 0 <= i < |nodes| && nodes[i] < |locals| && ValidAddress(LocalAddress(locals[nodes[i]])) &&
               a == LocalAddress(locals[nodes[i]]);
      assert more[i] == nodes[i];
    }
  }

  // ---- who is named in the error --------------------------------------------------------------

  /** The address is that of a local whose references lead to a cycle. */
  ghost predicate NamesCyclicLocal(locals: seq<Local>, address: string) {
    exists i: nat :: i < |locals| && address == "local." + locals[i].key && LeadsToCycle(DepGraph(locals), i)
  }

  lemma ParticipantsLeadToCycles(locals: seq<Local>, edges: Edges)
    requires DrawnFrom(locals, edges) && FirstCycle(edges).Some?
    ensures forall a :: a in ParticipantsOf(locals, FirstCycle(edges).value) ==> NamesCyclicLocal(locals, a)
  {
    hide ValidAddress;
    var nodes := FirstCycle(edges).value;
    ReportedNodesLeadToCycles(edges);
    forall a | a in ParticipantsOf(locals, nodes) ensures NamesCyclicLocal(locals, a) {
      var i :| 0 <= i < |nodes| && nodes[i] < |locals| && ValidAddress(LocalAddress(locals[nodes[i]])) &&
               a == LocalAddress(locals[nodes[i]]);
      assert nodes[i] in nodes && LeadsToCycle(GraphOf(edges), nodes[i]);
    }
  }

  /** The named locals are one cycle: every two of them depend on each other. */
  ghost predicate OneCycle(locals: seq<Local>, addresses: set<string>) {
    forall i: nat, j: nat ::
      i < |locals| && j < |locals| && LocalAddress(locals[i]) in addresses && LocalAddress(locals[j]) in addresses ==>
        Reaches(DepGraph(locals), i, j)
  }

  lemma NamedAre(locals: seq<Local>, edges: Edges, i: nat)
    requires DistinctKeys(locals) && DrawnFrom(locals, edges) && FirstCycle(edges).Some? && i < |locals|
    requires forall k :: 0 <= k < |locals| ==> ValidAddress(LocalAddress(locals[k]))
    ensures LocalAddress(locals[i]) in ParticipantsOf(locals, FirstCycle(edges).value) <==> i in FirstCycle(edges).value
  {
    hide ValidAddress;
    var nodes := FirstCycle(edges).value;
    if i in nodes {
      var k :| 0 <= k < |nodes| && nodes[k] == i;
      assert ValidAddress(LocalAddress(locals[nodes[k]]));
    }
    if LocalAddress(locals[i]) in ParticipantsOf(locals, nodes) {
      var k :| 0 <= k < |nodes| && nodes[k] < |locals| && ValidAddress(LocalAddress(locals[nodes[k]])) &&
               LocalAddress(locals[i]) == LocalAddress(locals[nodes[k]]);
      assert LocalAddress(locals[i])[6..] == locals[i].key && LocalAddress(locals[nodes[k]])[6..] == locals[nodes[k]].key;
      assert Keys(locals)[i] == Keys(locals)[nodes[k]];
    }
  }

  /** What the error promises, and exactly when: the participants are one cycle unless the first local is
      still open at the first find, leads to something unvisited, and some other such local does not lead
      back to it. */
  lemma ParticipantsAreOneCycle(locals: seq<Local>, edges: Edges)
    requires DistinctKeys(locals) && DrawnFrom(locals, edges) && FirstCycle(edges).Some?
    requires forall k :: 0 <= k < |locals| ==> ValidAddress(LocalAddress(locals[k]))
    ensures var h := AtFind(edges);
            OneCycle(locals, ParticipantsOf(locals, FirstCycle(edges).value)) <==>
            (Overrun(edges, h) ==> forall i :: 0 < i < |h.stack| && Strands(edges, h, h.stack[i]) ==> Reach(edges, h.stack[i], 0))
  {
    ReportIsOneCycle(edges);
    var nodes := FirstCycle(edges).value;
    hide ValidAddress, ParticipantsOf, Overrun, Strands, LocalAddress, Reaches;
    forall i: nat | i < |locals|
      ensures LocalAddress(locals[i]) in ParticipantsOf(locals, nodes) <==> i in nodes
    {
      NamedAre(locals, edges, i);
    }
    ReportedInRange(edges);
    assert |DepGraph(locals)| == |edges| == |locals|;
    if OneCycle(locals, ParticipantsOf(locals, nodes)) {
      forall x: nat, y: nat | x in nodes && y in nodes ensures Reach(edges, x, y) {
        assert LocalAddress(locals[x]) in ParticipantsOf(locals, nodes) && LocalAddress(locals[y]) in ParticipantsOf(locals, nodes);
        assert Reaches(DepGraph(locals), x, y);
      }
    }
    if Mutual(edges, nodes) {
      forall i: nat, j: nat | i < |locals| && j < |locals| && i in nodes && j in nodes ensures Reaches(DepGraph(locals), i, j) {
        assert Reach(edges, i, j);
      }
    }
  }

  lemma ReportedInRange(edges: Edges)
    requires EdgesInRange(edges) && FirstCycle(edges).Some?
    ensures forall x: nat :: x in FirstCycle(edges).value ==> x < |edges|
  {
    ReportedNodesLeadToCycles(edges);
    forall x: nat | x in FirstCycle(edges).value ensures x < |edges| {
      assert LeadsToCycle(GraphOf(edges), x);
    }
  }

  /** The addresses of the locals that depend on themselves. */
  ghost function CyclicLocals(locals: seq<Local>): set<string> {
    set i | 0 <= i < |locals| && i in Cyclic(DepGraph(locals)) :: "local." + locals[i].key
  }

  ghost predicate NamesTheCycle(locals: seq<Local>, edges: Edges)
    requires EdgesInRange(edges)
  {
    FirstCycle(edges).Some? && ParticipantsOf(locals, FirstCycle(edges).value) == CyclicLocals(locals)
  }

  lemma NamesAsReported(locals: seq<Local>, edges: Edges)
    requires DistinctKeys(locals) && DrawnFrom(locals, edges) && FirstCycle(edges).Some?
    requires forall k :: 0 <= k < |locals| ==> ValidAddress(LocalAddress(locals[k]))
    ensures NamesTheCycle(locals, edges) <==> ReportsTheCycle(edges, DepGraph(locals))
  {
    var nodes, g := FirstCycle(edges).value, DepGraph(locals);
    ReportedInRange(edges);
    assert |g| == |edges| == |locals|;
    hide ValidAddress, DrawnFrom, DepGraph;
    forall i: nat | i < |locals|
      ensures LocalAddress(locals[i]) in ParticipantsOf(locals, nodes) <==> i in nodes
      ensures LocalAddress(locals[i]) in CyclicLocals(locals) <==> i in Cyclic(g)
    {
      NamedAre(locals, edges, i);
      AddressInjective(locals, i);
    }
    if NamesTheCycle(locals, edges) {
      forall i: nat ensures i in nodes <==> i in Cyclic(g) {}
    }
    if ReportsTheCycle(edges, g) {
      forall a ensures a in ParticipantsOf(locals, nodes) <==> a in CyclicLocals(locals) {}
    }
  }

  lemma AddressInjective(locals: seq<Local>, i: nat)
    requires DistinctKeys(locals) && i < |locals|
    ensures forall k :: 0 <= k < |locals| && LocalAddress(locals[k]) == LocalAddress(locals[i]) ==> k == i
  {
    forall k | 0 <= k < |locals| && LocalAddress(locals[k]) == LocalAddress(locals[i]) ensures k == i {
      assert LocalAddress(locals[k])[6..] == locals[k].key && LocalAddress(locals[i])[6..] == locals[i].key;
      assert Keys(locals)[k] == Keys(locals)[i];
    }
  }

  /** When the error is the same in every run: the participants are exactly the locals that depend on
      themselves, however the hash sets are drained, if and only if these all depend on each other and no
      local forks. */
  lemma EveryRunNamesTheCycle(locals: seq<Local>)
    requires DistinctKeys(locals) && HasCycle(DepGraph(locals))
    requires forall k :: 0 <= k < |locals| ==> ValidAddress(LocalAddress(locals[k]))
    ensures (forall edges :: DrawnFrom(locals, edges) ==> NamesTheCycle(locals, edges)) <==>
            OneComponent(DepGraph(locals)) && forall x: nat :: !Forks(DepGraph(locals), x)
  {
    var g := DepGraph(locals);
    assert InRange(g);
    EveryOrderReportsTheCycle(g);
    hide ValidAddress, DepGraph, Forks, NamesTheCycle, ReportsTheCycle, OneComponent, HasCycle, GraphOf;
    forall edges | DrawnFrom(locals, edges) ensures Draws(edges, g) && (NamesTheCycle(locals, edges) <==> ReportsTheCycle(edges, g)) {
      var rank := DetectionIsExact(edges);
      NamesAsReported(locals, edges);
    }
  }

  /** Where every local refers to at most one other, the participants are the first cycle found. */
  lemma SingleReferencesReportTheCycle(locals: seq<Local>, edges: Edges)
    requires DrawnFrom(locals, edges) && FirstCycle(edges).Some?
    requires forall i :: 0 <= i < |locals| ==> |DepGraph(locals)[i]| <= 1
    ensures FirstCycle(edges) == AtFind(edges).found && Component(edges, FirstCycle(edges).value)
  {
    forall v | 0 <= v < |edges| ensures |edges[v]| <= 1 {
      if |edges[v]| > 1 {
        var two := {edges[v][0], edges[v][1]};
        assert two <= GraphOf(edges)[v];
        SubsetSize(two, GraphOf(edges)[v]);
      }
    }
    SingleSuccessorsReportFirstFind(edges);
  }

  // ---- dependency-order evaluation ------------------------------------------------------------

  /** The value of local `name`, evaluating its original expression after its dependencies, at most
      `depth` declarations deep. Names the initial scope already binds keep that binding. */
  ghost function TopoEval(decls: map<string, Expr>, s: Scope, h: Host, lexical: bool, name: string, depth: nat): Option<Value>
    requires name in decls
    decreases depth, 0
  {
    if depth == 0 then None else Eval(decls[name], TopoEnv(decls, s, h, lexical, depth - 1), h)
  }

  ghost function TopoEnv(decls: map<string, Expr>, s: Scope, h: Host, lexical: bool, depth: nat): Env
    decreases depth, 1
  {
    EnvOf(s).(lexical := lexical, locals :=
      (map x | x in decls && TopoEval(decls, s, h, lexical, x, depth).Some? :: TopoEval(decls, s, h, lexical, x, depth).value)
      + AsMap(s.locals))
  }

  /** HCL's own demands on a `locals` block. */
  predicate WellNamed(locals: seq<Local>) {
    DistinctKeys(locals) && forall i :: 0 <= i < |locals| ==> locals[i].key != ""
  }

  /** Two expressions mean the same in every environment that extends the scope. */
  ghost predicate SameMeaning(a: Expr, b: Expr, s: Scope, h: Host) {
    forall env: Env :: Extends(s, env) && !env.lexical ==> Eval(a, env, h) == Eval(b, env, h)
  }

  /** The solver's result: every local is a fixpoint of reduction under the final scope, means what
      it meant, and is a literal exactly when dependency-order evaluation gives it that value; the
      final scope binds exactly those. */
  ghost predicate Solved(locals: seq<Local>, s0: Scope, out: seq<Local>, s: Scope, h: Host) {
    && Keys(out) == Keys(locals)
    && s == s0.(locals := s.locals)
    && (forall i :: 0 <= i < |locals| ==>
          && Reduce(out[i].val, s, h) == out[i].val
          && SameMeaning(locals[i].val, out[i].val, s, h)
          && AsLiteral(out[i].val) == TopoEval(AsMap(locals), s0, h, false, locals[i].key, |locals|))
    && (forall name ::
          Find(s.locals, name) ==
            if Find(s0.locals, name).Some? then Find(s0.locals, name)
            else if name in AsMap(locals) then TopoEval(AsMap(locals), s0, h, false, name, |locals|)
            else None)
  }

  // ---- loop invariants ------------------------------------------------------------------------

  ghost predicate Sound(locals: seq<Local>, s0: Scope, out: seq<Local>, s: Scope, converged: set<string>, h: Host) {
    && Keys(out) == Keys(locals)
    && s == s0.(locals := s.locals) && s0.locals <= s.locals
    && converged == Names(s.locals[|s0.locals|..])
    && converged <= Names(locals)
    && (forall i :: 0 <= i < |locals| ==> SameMeaning(locals[i].val, out[i].val, s, h))
    && (forall i :: 0 <= i < |locals| && locals[i].key in converged ==>
          out[i].val.Literal? && Find(s.locals[|s0.locals|..], locals[i].key) == AsLiteral(out[i].val))
  }

  ghost predicate Settled(l: Local, s: Scope, converged: set<string>, h: Host) {
    l.key in converged || (!l.val.Literal? && Reduce(l.val, s, h) == l.val)
  }

  ghost predicate Quiescent(out: seq<Local>, s: Scope, converged: set<string>, h: Host) {
    forall i :: 0 <= i < |out| ==> Settled(out[i], s, converged, h)
  }

  lemma NamesBound(m: seq<Local>)
    ensures |Names(m)| <= |m|
  {
    SetOfSeqBound(Keys(m));
  }

  lemma {:induction false} SetOfSeqBound(s: seq<string>)
    ensures |set k | k in s| <= |s|
  {
    if s != [] {
      SetOfSeqBound(s[1..]);
      assert (set k | k in s) == {s[0]} + set k | k in s[1..];
    } else {
      assert (set k | k in s) == {};
    }
  }

  lemma ExtendsEnvOf(s: Scope)
    ensures Extends(s, EnvOf(s))
  {
  }

  lemma GrownScope(s: Scope, more: ValueMap, env: Env)
    requires Extends(s.(locals := s.locals + more), env)
    ensures Extends(s, env)
  {
    forall k | Find(s.locals, k).Some? ensures k in env.locals && Find(s.locals, k) == Some(env.locals[k]) {
      FindAppend(s.locals, more, k);
    }
  }

  lemma MeaningGrows(a: Expr, b: Expr, s: Scope, more: ValueMap, h: Host)
    requires SameMeaning(a, b, s, h)
    ensures SameMeaning(a, b, s.(locals := s.locals + more), h)
  {
    forall env: Env | Extends(s.(locals := s.locals + more), env) && !env.lexical ensures Eval(a, env, h) == Eval(b, env, h) {
      GrownScope(s, more, env);
    }
  }

  lemma MeaningReduces(a: Expr, b: Expr, s: Scope, h: Host)
    requires SameMeaning(a, b, s, h)
    ensures SameMeaning(a, Reduce(b, s, h), s, h)
  {
    forall env: Env | Extends(s, env) && !env.lexical ensures Eval(a, env, h) == Eval(Reduce(b, s, h), env, h) {
      ReducePreserves(b, s, env, h);
    }
  }

  lemma StoreReduced(locals: seq<Local>, s0: Scope, out: seq<Local>, s: Scope, converged: set<string>, i: nat, h: Host)
    requires Sound(locals, s0, out, s, converged, h) && i < |locals| && locals[i].key !in converged
    ensures Sound(locals, s0, out[i := Entry(out[i].key, Reduce(out[i].val, s, h))], s, converged, h)
  {
    var out' := out[i := Entry(out[i].key, Reduce(out[i].val, s, h))];
    assert Keys(out') == Keys(out);
    MeaningReduces(locals[i].val, out[i].val, s, h);
  }

  lemma BindLiteral(locals: seq<Local>, s0: Scope, out: seq<Local>, s: Scope, converged: set<string>, i: nat, h: Host)
    requires Sound(locals, s0, out, s, converged, h) && i < |locals| && locals[i].key !in converged
    requires out[i].val.Literal? && DistinctKeys(locals)
    ensures Sound(locals, s0, out, s.(locals := s.locals + [Entry(out[i].key, out[i].val.v)]), converged + {out[i].key}, h)
  {
    var name, v := out[i].key, out[i].val.v;
    var pushed := s.locals[|s0.locals|..];
    var s' := s.(locals := s.locals + [Entry(name, v)]);
    assert Keys(out)[i] == Keys(locals)[i] == name;
    assert s'.locals[|s0.locals|..] == pushed + [Entry(name, v)];
    assert Keys(pushed + [Entry(name, v)]) == Keys(pushed) + [name];
    forall k | 0 <= k < |locals| ensures SameMeaning(locals[k].val, out[k].val, s', h) {
      MeaningGrows(locals[k].val, out[k].val, s, [Entry(name, v)], h);
    }
    forall k | 0 <= k < |locals| && locals[k].key in converged + {name}
      ensures out[k].val.Literal? && Find(pushed + [Entry(name, v)], locals[k].key) == AsLiteral(out[k].val)
    {
      FindAppend(pushed, [Entry(name, v)], locals[k].key);
      if k == i {
        FindIsFirst(pushed, name);
      } else {
        assert Keys(locals)[k] != Keys(locals)[i];
      }
    }
  }

  // ---- the solver -----------------------------------------------------------------------------

  /** `solve_locals` */
  method SolveLocals(locals: seq<Local>, scope: Scope, h: Host)
    returns (err: Option<CycleError>, out: seq<Local>, scope': Scope)
    ensures err.Some? <==> HasCycle(DepGraph(locals))
    ensures err.Some? ==> scope' == scope
    ensures err.None? && WellNamed(locals) ==> Solved(locals, scope, out, scope', h)
  {
    ghost var rank;
    ghost var edges;
    err, edges, rank := CheckCycle(locals);
    out, scope' := locals, scope;
    if err.Some? {
      return;
    }
    var converged: set<string> := {};
    ghost var good := WellNamed(locals);
    assert scope.locals[|scope.locals|..] == [];
    var maxIters := |locals| + 1;
    var round := 0;
    ghost var quiet := false;
    while round < maxIters
      invariant 0 <= round <= maxIters
      invariant good ==> Sound(locals, scope, out, scope', converged, h)
      invariant good && quiet ==> Quiescent(out, scope', converged, h)
      invariant good ==> quiet || round <= |converged|
    {
      var madeProgress;
      ghost var before := converged;
      out, scope', converged, madeProgress := Sweep(locals, scope, out, scope', converged, h);
      quiet := converged == before;
      round := round + 1;
      if !madeProgress {
        break;
      }
    }
    if good {
      NamesBound(locals);
      SubsetSize(converged, Names(locals));
      FixpointIsTopological(locals, scope, out, scope', converged, rank, h);
    }
  }

  /** One pass over the locals. A pass that binds nothing leaves every local settled; from a settled
      state a pass binds nothing. */
  method Sweep(ghost locals: seq<Local>, ghost s0: Scope, locals': seq<Local>, scope: Scope, done: set<string>, h: Host)
    returns (out: seq<Local>, scope': Scope, converged: set<string>, madeProgress: bool)
    ensures WellNamed(locals) && Sound(locals, s0, locals', scope, done, h) ==>
              && Sound(locals, s0, out, scope', converged, h)
              && (converged == done ==> Quiescent(out, scope', converged, h))
              && (converged != done ==> madeProgress && |done| < |converged|)
              && (Quiescent(locals', scope, done, h) ==> converged == done)
  {
    hide Reduce, SameMeaning, DistinctStrings;
    ghost var good := WellNamed(locals) && Sound(locals, s0, locals', scope, done, h);
    ghost var quiet := good && Quiescent(locals', scope, done, h);
    out, scope', converged, madeProgress := locals', scope, done, false;
    var i := 0;
    while i < |out|
      invariant 0 <= i <= |out| == |locals'|
      invariant good ==> Sound(locals, s0, out, scope', converged, h)
      invariant done <= converged
      invariant converged == done ==> scope' == scope && forall k :: 0 <= k < i ==> Settled(out[k], scope, done, h)
      invariant converged != done ==> madeProgress && |done| < |converged|
      invariant forall k :: i <= k < |out| ==> out[k] == locals'[k]
      invariant quiet ==> converged == done
    {
      if out[i].key in converged {
        i := i + 1;
        continue;
      }
      var reduced := Reduce(out[i].val, scope', h);
      // A NaN inside the tree compares unequal to itself, so progress may also be reported falsely.
      var unequal: bool := *;
      var progressed := unequal || reduced != out[i].val;
      assert quiet ==> Settled(locals'[i], scope, done, h);
      if good {
        assert Keys(out)[i] == Keys(locals)[i];
        StoreReduced(locals, s0, out, scope', converged, i, h);
      }
      ReduceIdempotent(out[i].val, scope', h);
      out := out[i := Entry(out[i].key, reduced)];
      if reduced.Literal? {
        if good { BindLiteral(locals, s0, out, scope', converged, i, h); }
        scope' := scope'.(locals := scope'.locals + [Entry(out[i].key, reduced.v)]);
        SubsetSize(done, converged);
        converged := converged + {out[i].key};
        madeProgress := true;
      } else if progressed {
        madeProgress := true;
      }
      i := i + 1;
    }
  }

  lemma SubsetSize<T>(a: set<T>, b: set<T>)
    requires a <= b
    ensures |a| <= |b|
  {
    assert b == a + (b - a);
  }

  // ---- the fixpoint is dependency-order evaluation --------------------------------------------

  /** Evaluation depends on the locals an expression mentions and on no others. */
  lemma {:induction false} EvalReadsRefs(e: Expr, env: Env, other: Env, h: Host)
    requires other == env.(locals := other.locals)
    requires forall x | x in LocalRefs(e) + {""} :: Get(env.locals, x) == Get(other.locals, x)
    ensures Eval(e, env, h) == Eval(e, other, h)
    decreases e, 1, 0
  {
    match e
    case Literal(_) =>
    case Unresolved(sym) =>
      var name := Head(StripPrefix(sym.source, "local."));
      assert sym.kind == SymbolKind.Local ==> Get(env.locals, name) == Get(other.locals, name);
    case Binary(_, l, r) => EvalReadsRefs(l, env, other, h); EvalReadsRefs(r, env, other, h);
    case Unary(_, x) => EvalReadsRefs(x, env, other, h);
    case Template(ps) => EvalReadsRefsAll(ps, env, other, h);
    case Array(xs) => EvalReadsRefsAll(xs, env, other, h);
    case Object(fs) =>
      var parts := seq(|fs|, i requires 0 <= i < |fs| => RefsOfField(fs[i]));
      forall i | 0 <= i < |fs| ensures EvalField(fs[i], env, h) == EvalField(fs[i], other, h) {
        var f := fs[i];
        assert parts[i] == RefsOfField(f);
        InUnion(parts, i);
        EvalReadsRefs(f.k, env, other, h); EvalReadsRefs(f.v, env, other, h);
      }
      assert seq(|fs|, i requires 0 <= i < |fs| => EvalField(fs[i], env, h))
          == seq(|fs|, i requires 0 <= i < |fs| => EvalField(fs[i], other, h));
    case Call(_, args) => EvalReadsRefsAll(args, env, other, h);
    case Conditional(c, t, f) =>
      EvalReadsRefs(c, env, other, h); EvalReadsRefs(t, env, other, h); EvalReadsRefs(f, env, other, h);
    case For(_, coll, _, _, _, _) =>
      EvalReadsRefs(coll, env, other, h);
      if Eval(coll, env, h).Some? && Pairs(Eval(coll, env, h).value).Some? {
        EvalReadsRefsRows(e, Pairs(Eval(coll, env, h).value).value, env, other, h);
      }
  }

  /** The empty name has to be listed apart: `local.` reads it, but is collected as no reference. */
  lemma EmptyNameIsRead(v: Value, env: Env, h: Host)
    ensures var e := Unresolved(Symbolic(SymbolKind.Local, "local."));
            LocalRefs(e) == {} && Eval(e, env.(locals := map["" := v]), h) == Some(v) && Eval(e, env.(locals := map[]), h) == None
  {
    assert StripPrefix("local.", "local.") == "";
    HeadUndotted("");
    assert Descend(v, "") == Some(v);
  }

  lemma {:induction false} EvalReadsRefsAll(es: seq<Expr>, env: Env, other: Env, h: Host)
    requires other == env.(locals := other.locals)
    requires forall x | x in RefsOfAll(es) + {""} :: Get(env.locals, x) == Get(other.locals, x)
    ensures EvalAll(es, env, h) == EvalAll(es, other, h)
    decreases es, 0, 0
  {
    var parts := seq(|es|, i requires 0 <= i < |es| => LocalRefs(es[i]));
    forall i | 0 <= i < |es| ensures Eval(es[i], env, h) == Eval(es[i], other, h) {
      InUnion(parts, i);
      EvalReadsRefs(es[i], env, other, h);
    }
    assert seq(|es|, i requires 0 <= i < |es| => Eval(es[i], env, h))
        == seq(|es|, i requires 0 <= i < |es| => Eval(es[i], other, h));
  }

  lemma {:induction false} EvalReadsRefsRows(f: Expr, pairs: seq<(Value, Value)>, env: Env, other: Env, h: Host)
    requires f.For? && other == env.(locals := other.locals)
    requires forall x | x in LocalRefs(f) + {""} :: Get(env.locals, x) == Get(other.locals, x)
    ensures EvalRows(f, pairs, env, h) == EvalRows(f, pairs, other, h)
    decreases f, 0, |pairs|
  {
    if pairs != [] && BindPair(f.binders, pairs[0]).Some? {
      var bs := BindPair(f.binders, pairs[0]).value;
      var inner, innerOther := env.(binders := env.binders + bs), other.(binders := other.binders + bs);
      if f.filter.Some? { EvalReadsRefs(f.filter.value, inner, innerOther, h); }
      if f.key.Some? { EvalReadsRefs(f.key.value, inner, innerOther, h); }
      EvalReadsRefs(f.yield_, inner, innerOther, h);
      EvalReadsRefsRows(f, pairs[1..], env, other, h);
    }
  }

  /** The final state as a system of equations: each local's outcome is the meaning of its original
      expression in the scope all the outcomes make up. */
  ghost predicate Solution(locals: seq<Local>, s0: Scope, out: seq<Local>, s: Scope, h: Host) {
    && s == s0.(locals := s.locals)
    && |out| == |locals|
    && (forall i :: 0 <= i < |locals| ==> AsLiteral(out[i].val) == Eval(locals[i].val, EnvOf(s), h))
    && (forall i :: 0 <= i < |locals| && Find(s0.locals, locals[i].key).None? ==>
          Find(s.locals, locals[i].key) == AsLiteral(out[i].val))
    && (forall name :: Find(s0.locals, name).Some? || name !in Keys(locals) ==> Find(s.locals, name) == Find(s0.locals, name))
  }

  lemma QuiescentIsSolution(locals: seq<Local>, s0: Scope, out: seq<Local>, s: Scope, converged: set<string>, h: Host)
    requires WellNamed(locals) && Sound(locals, s0, out, s, converged, h) && Quiescent(out, s, converged, h)
    ensures Solution(locals, s0, out, s, h)
    ensures forall i :: 0 <= i < |locals| ==> Reduce(out[i].val, s, h) == out[i].val
  {
    var pushed := s.locals[|s0.locals|..];
    assert s.locals == s0.locals + pushed;
    forall name
      ensures Find(s.locals, name) == if Find(s0.locals, name).Some? then Find(s0.locals, name) else Find(pushed, name)
      ensures Find(pushed, name).Some? <==> name in converged
    {
      FindAppend(s0.locals, pushed, name);
      FindIsFirst(pushed, name);
    }
    forall i | 0 <= i < |locals|
      ensures Find(pushed, locals[i].key) == AsLiteral(out[i].val) && Reduce(out[i].val, s, h) == out[i].val
      ensures AsLiteral(out[i].val) == Eval(locals[i].val, EnvOf(s), h)
    {
      assert Keys(out)[i] == Keys(locals)[i];
      assert Settled(out[i], s, converged, h);
      ExtendsEnvOf(s);
      ReduceIsEval(out[i].val, s, h);
    }
  }

  ghost predicate Matches(locals: seq<Local>, s0: Scope, out: seq<Local>, h: Host, i: nat, depth: nat) {
    && i < |locals| == |out| && locals[i].key in AsMap(locals)
    && AsLiteral(out[i].val) == TopoEval(AsMap(locals), s0, h, false, locals[i].key, depth)
  }

  lemma SolutionIsTopological(locals: seq<Local>, s0: Scope, out: seq<Local>, s: Scope, rank: seq<nat>, h: Host)
    requires WellNamed(locals) && Solution(locals, s0, out, s, h) && Ranked(DepGraph(locals), rank)
    ensures forall i: nat :: i < |locals| ==> Matches(locals, s0, out, h, i, |locals|)
  {
    var g := DepGraph(locals);
    var holds := (i: nat, depth: nat) => Matches(locals, s0, out, h, i, depth);
    forall i: nat, depth: nat | i < |g| ensures Inductive(g, holds, i, depth) {
      if forall j :: j in g[i] ==> holds(j, depth) {
        assert forall j :: j in g[i] ==> holds(j, depth) == Matches(locals, s0, out, h, j, depth);
        SolutionStep(locals, s0, out, s, h, i, depth);
      }
    }
    RankInduction(g, rank, holds, |g|);
    assert forall i: nat :: i < |g| ==> holds(i, |g|) == Matches(locals, s0, out, h, i, |g|);
  }

  lemma SolutionStep(locals: seq<Local>, s0: Scope, out: seq<Local>, s: Scope, h: Host, i: nat, depth: nat)
    requires WellNamed(locals) && Solution(locals, s0, out, s, h) && i < |locals|
    requires forall j :: j in DepGraph(locals)[i] ==> Matches(locals, s0, out, h, j, depth)
    ensures Matches(locals, s0, out, h, i, depth + 1)
  {
    DependenciesAgree(locals, s0, out, s, h, i, depth);
    FindOnly(locals, i);
    EvalReadsRefs(locals[i].val, TopoEnv(AsMap(locals), s0, h, false, depth), EnvOf(s), h);
  }

  lemma DependenciesAgree(locals: seq<Local>, s0: Scope, out: seq<Local>, s: Scope, h: Host, i: nat, depth: nat)
    requires WellNamed(locals) && Solution(locals, s0, out, s, h) && i < |locals|
    requires forall j :: j in DepGraph(locals)[i] ==> Matches(locals, s0, out, h, j, depth)
    ensures var env := TopoEnv(AsMap(locals), s0, h, false, depth);
            && EnvOf(s) == env.(locals := EnvOf(s).locals)
            && forall x | x in LocalRefs(locals[i].val) + {""} :: Get(env.locals, x) == Get(EnvOf(s).locals, x)
  {
    var env := TopoEnv(AsMap(locals), s0, h, false, depth);
    hide DepGraph, LocalRefs;
    forall x | x in LocalRefs(locals[i].val) + {""} ensures Get(env.locals, x) == Get(EnvOf(s).locals, x) {
      FindIsFirst(locals, x);
      if Find(s0.locals, x).None? && x in Keys(locals) {
        var j := DependencyOf(locals, i, x);
        assert Matches(locals, s0, out, h, j, depth);
      }
    }
  }

  lemma DependencyOf(locals: seq<Local>, i: nat, x: string) returns (j: nat)
    requires WellNamed(locals) && i < |locals| && x in LocalRefs(locals[i].val) + {""} && x in Keys(locals)
    ensures j < |locals| && locals[j].key == x && j in DepGraph(locals)[i]
  {
    j :| 0 <= j < |locals| && Keys(locals)[j] == x;
    forall k | j < k < |locals| ensures locals[k].key != x { assert Keys(locals)[k] != Keys(locals)[j]; }
    DependsExactly(locals, i);
  }

  lemma FixpointIsTopological(locals: seq<Local>, s0: Scope, out: seq<Local>, s: Scope, converged: set<string>, rank: seq<nat>, h: Host)
    requires WellNamed(locals) && Sound(locals, s0, out, s, converged, h) && Quiescent(out, s, converged, h)
    requires Ranked(DepGraph(locals), rank)
    ensures Solved(locals, s0, out, s, h)
  {
    QuiescentIsSolution(locals, s0, out, s, converged, h);
    SolutionIsTopological(locals, s0, out, s, rank, h);
    MatchesSolve(locals, s0, out, s, h);
  }

  lemma MatchesSolve(locals: seq<Local>, s0: Scope, out: seq<Local>, s: Scope, h: Host)
    requires WellNamed(locals) && Solution(locals, s0, out, s, h) && Keys(out) == Keys(locals)
    requires forall i :: 0 <= i < |locals| ==> Reduce(out[i].val, s, h) == out[i].val && SameMeaning(locals[i].val, out[i].val, s, h)
    requires forall i: nat :: i < |locals| ==> Matches(locals, s0, out, h, i, |locals|)
    ensures Solved(locals, s0, out, s, h)
  {
    forall i | 0 <= i < |locals|
      ensures AsLiteral(out[i].val) == TopoEval(AsMap(locals), s0, h, false, locals[i].key, |locals|)
    {
      assert Matches(locals, s0, out, h, i, |locals|);
    }
    forall name
      ensures Find(s.locals, name) ==
              if Find(s0.locals, name).Some? then Find(s0.locals, name)
              else if name in AsMap(locals) then TopoEval(AsMap(locals), s0, h, false, name, |locals|)
              else None
    {
      FindIsFirst(locals, name);
      if name in Keys(locals) {
        var j :| 0 <= j < |locals| && Keys(locals)[j] == name;
        assert Matches(locals, s0, out, h, j, |locals|);
      }
    }
  }

  // ---- consequences ---------------------------------------------------------------------------

  /** When no declaration shadows a binder, dependency-order evaluation under the evaluator's
      first-match lookup is dependency-order evaluation under lexical scoping. */
  lemma {:induction false} TopoEvalIsLexical(decls: map<string, Expr>, s: Scope, h: Host, depth: nat)
    requires DistinctKeys(s.binders) && forall x | x in decls :: NoShadow(decls[x], Names(s.binders))
    ensures forall x | x in decls :: TopoEval(decls, s, h, true, x, depth) == TopoEval(decls, s, h, false, x, depth)
    decreases depth
  {
    hide Eval, NoShadow;
    if depth > 0 {
      TopoEvalIsLexical(decls, s, h, depth - 1);
      var inn, out := TopoEnv(decls, s, h, true, depth - 1), TopoEnv(decls, s, h, false, depth - 1);
      assert inn == out.(lexical := true) && out == out.(lexical := false);
      forall x | x in decls ensures TopoEval(decls, s, h, true, x, depth) == TopoEval(decls, s, h, false, x, depth) {
        LexicalAgrees(decls[x], out, h);
      }
    }
  }

  lemma FindMember<V>(m: seq<Entry<V>>, k: string, v: V)
    requires DistinctKeys(m)
    ensures Find(m, k) == Some(v) <==> Entry(k, v) in m
  {
    FindIsFirst(m, k);
    if Entry(k, v) in m {
      var i :| 0 <= i < |m| && m[i] == Entry(k, v);
      FindOnly(m, i);
    }
  }

  lemma PermutedMaps(a: seq<Local>, b: seq<Local>)
    requires multiset(a) == multiset(b) && DistinctKeys(a) && DistinctKeys(b)
    ensures AsMap(a) == AsMap(b) && |a| == |b| && forall e :: e in a <==> e in b
  {
    assert |multiset(a)| == |a| && |multiset(b)| == |b|;
    forall e ensures e in a <==> e in b {
      assert e in a <==> e in multiset(a);
      assert e in b <==> e in multiset(b);
    }
    forall k ensures Find(a, k) == Find(b, k) {
      if Find(a, k).Some? {
        FindMember(a, k, Find(a, k).value);
        FindMember(b, k, Find(a, k).value);
      } else if Find(b, k).Some? {
        FindMember(a, k, Find(b, k).value);
        FindMember(b, k, Find(b, k).value);
      }
    }
  }

  /** The resolved names and values do not depend on the order of declaration. */
  lemma OrderIndependent(a: seq<Local>, b: seq<Local>, s0: Scope, outA: seq<Local>, sA: Scope, outB: seq<Local>, sB: Scope, h: Host)
    requires multiset(a) == multiset(b) && WellNamed(a) && WellNamed(b)
    requires Solved(a, s0, outA, sA, h) && Solved(b, s0, outB, sB, h)
    ensures AsMap(sA.locals) == AsMap(sB.locals)
    ensures forall i, j :: 0 <= i < |a| && 0 <= j < |b| && a[i].key == b[j].key ==>
              AsLiteral(outA[i].val) == AsLiteral(outB[j].val)
  {
    PermutedMaps(a, b);
    assert forall name :: Find(sA.locals, name) == Find(sB.locals, name);
  }

  ghost function IndexIn(b: seq<Local>, e: Local): (j: nat)
    requires e in b
    ensures j < |b| && b[j] == e
  {
    var j :| 0 <= j < |b| && b[j] == e;
    j
  }

  /** Nor does the verdict of the cycle check. */
  lemma CyclePermutes(a: seq<Local>, b: seq<Local>)
    requires multiset(a) == multiset(b) && DistinctKeys(a) && DistinctKeys(b)
    requires HasCycle(DepGraph(a))
    ensures HasCycle(DepGraph(b))
  {
    PermutedMaps(a, b);
    var v: nat :| Reaches(DepGraph(a), v, v);
    var p :| IsPath(DepGraph(a), p) && p[0] == v && p[|p| - 1] == v;
    var q := seq(|p|, t requires 0 <= t < |p| => IndexIn(b, a[p[t]]));
    hide DepGraph, AsMap, DistinctKeys;
    GraphSize(a);
    GraphSize(b);
    forall t | 0 <= t < |q| - 1 ensures q[t + 1] in DepGraph(b)[q[t]] {
      assert p[t + 1] in DepGraph(a)[p[t]];
      EdgePermutes(a, b, p[t], p[t + 1], q[t], q[t + 1]);
    }
    assert IsPath(DepGraph(b), q);
    assert Reaches(DepGraph(b), q[0], q[0]);
  }

  lemma GraphSize(locals: seq<Local>)
    ensures |DepGraph(locals)| == |locals|
  {
  }

  lemma EdgePermutes(a: seq<Local>, b: seq<Local>, x: nat, y: nat, u: nat, w: nat)
    requires x < |a| && y < |a| && u < |b| && w < |b| && a[x] == b[u] && a[y] == b[w]
    requires y in DepGraph(a)[x] && DistinctKeys(b)
    ensures w in DepGraph(b)[u]
  {
    hide LocalRefs;
    assert Declares(b, w, b[w].key) by {
      forall k | w < k < |b| ensures b[k].key != b[w].key {
        assert Keys(b)[k] != Keys(b)[w];
      }
    }
  }
}
