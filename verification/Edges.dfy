/** Dependency-edge inference (`graph/edges.rs`). */
module Edges {
  import opened Ir
  import opened Seqs
  import opened Text
  import opened Addresses
  import opened Reducer
  import opened References
  import opened Sorting

  datatype EdgeKind = ExplicitDependsOn | AttrRef | ModuleInput | TerragruntDependency

  function KindName(k: EdgeKind): string {
    match k
    case ExplicitDependsOn => "explicit_depends_on"
    case AttrRef => "attr_ref"
    case ModuleInput => "module_input"
    case TerragruntDependency => "terragrunt_dependency"
  }

  datatype Edge = Edge(from: string, to: string, kind: EdgeKind, attr: Option<string>)

  type EdgeKey = (string, string, EdgeKind)

  function KeyOf(e: Edge): EdgeKey {
    (e.from, e.to, e.kind)
  }

  function EdgeOrder(e: Edge): SortKey {
    [e.from, e.to, KindName(e.kind)]
  }

  /** A path as its components. */
  type Path = seq<string>

  /** What edge collection reads of a component; `terragrunt` holds the `config_path` of each
      dependency block. */
  datatype Component = Component(path: Path, resources: seq<Resource>, modules: seq<ModuleCall>, terragrunt: Option<seq<Path>>)

  // ---- targets --------------------------------------------------------------------------------

  function HasDot(s: string): bool {
    IndexOf(s, '.') < |s|
  }

  /** The first two dot-separated parts, when there are two. */
  function TwoParts(s: string): Option<string> {
    if HasDot(s) then Some(Head(s) + "." + Head(Tail(s))) else None
  }

  /** `head_resource_address` */
  function HeadAddress(source: string): Option<string> {
    var head :=
      if StartsWith(source, "data.") then
        (match TwoParts(source[5..]) case Some(two) => Some("data." + two) case None => None)
      else if StartsWith(source, "module.") then Some("module." + Head(source[7..]))
      else TwoParts(source);
    if head.Some? && ValidAddress(head.value) then head else None
  }

  /** The address a symbol makes an edge to: only resources, data sources and modules do. */
  function Target(sym: Symbolic): Option<string> {
    match sym.kind
    case Resource => HeadAddress(sym.source)
    case Data => HeadAddress(sym.source)
    case Module => HeadAddress(sym.source)
    case _ => None
  }

  function Valid(address: string): Option<string> {
    if ValidAddress(address) then Some(address) else None
  }

  lemma PrefixIsHead(first: string, rest: string, word: string)
    requires '.' !in first && '.' !in word
    ensures StartsWith(first + "." + rest, word + ".") ==> first == word
  {
    var s, p := first + "." + rest, word + ".";
    var tail := if |p| <= |s| then s[|p|..] else "";
    SplitDotted(first, rest);
    SplitDotted(word, tail);
    assert p <= s ==> s == word + "." + tail;
  }

  /** What follows a head part: nothing, or a dot and whatever is read of it. */
  predicate Opens(rest: string, part: string) {
    rest == part || StartsWith(rest, part + ".")
  }

  lemma OpensHead(rest: string, part: string)
    requires '.' !in part && Opens(rest, part)
    ensures Head(rest) == part
  {
    if rest == part {
      HeadUndotted(part);
    } else {
      var tail := rest[|part| + 1..];
      assert rest == part + "." + tail;
      SplitDotted(part, tail);
    }
  }

  lemma DottedParts(first: string, second: string, rest: string)
    requires '.' !in first && '.' !in second && Opens(rest, second)
    ensures TwoParts(first + "." + rest) == Some(first + "." + second)
  {
    SplitDotted(first, rest);
    OpensHead(rest, second);
    IndexOfFirst(first + "." + rest, '.', |first|);
  }

  lemma OnePart(s: string)
    requires '.' !in s
    ensures TwoParts(s) == None && !StartsWith(s, "data.") && !StartsWith(s, "module.")
  {
    assert "data."[4] == '.' && "module."[6] == '.';
  }

  /** What is read of a resource does not matter: `type.name` and everything below it point at
      `type.name`, and likewise for data sources and module outputs. A single part points nowhere. */
  lemma ReferencePointsAtHead(first: string, second: string, rest: string)
    requires '.' !in first && '.' !in second && first != "data" && first != "module" && Opens(rest, second)
    ensures HeadAddress(first + "." + rest) == Valid(first + "." + second)
    ensures HeadAddress("data." + (first + "." + rest)) == Valid("data." + (first + "." + second))
    ensures HeadAddress("module." + rest) == Valid("module." + second)
    ensures HeadAddress(first) == None && HeadAddress("data." + first) == None
  {
    hide ValidAddress, TwoParts, Opens;
    var plain := first + "." + rest;
    DottedParts(first, second, rest);
    OpensHead(rest, second);
    OnePart(first);
    assert "data" + "." == "data." && "module" + "." == "module.";
    PrefixIsHead(first, rest, "data");
    PrefixIsHead(first, rest, "module");
    assert ("data." + plain)[5..] == plain && ("data." + first)[5..] == first;
    assert ("module." + rest)[7..] == rest;
    assert !StartsWith("module." + rest, "data.") by { assert ("module." + rest)[0] == 'm'; }
  }

  // ---- the candidates, in walk order ----------------------------------------------------------

  function SymbolEdges(sym: Symbolic, path: seq<string>, from: string, kind: EdgeKind): seq<Edge> {
    match Target(sym)
    case Some(to) => [Edge(from, to, kind, Some(Join(path, ".")))]
    case None => []
  }

  function FieldPath(k: Expr, path: seq<string>): seq<string> {
    if k.Literal? && k.v.Str? then path + [k.v.s] else path
  }

  function Walk(e: Expr, path: seq<string>, from: string, kind: EdgeKind): seq<Edge>
    decreases e
  {
    match e
    case Literal(_) => []
    case Unresolved(sym) => SymbolEdges(sym, path, from, kind)
    case Binary(_, l, r) => Walk(l, path, from, kind) + Walk(r, path, from, kind)
    case Unary(_, x) => Walk(x, path, from, kind)
    case Template(ps) => WalkAll(ps, path, from, kind)
    case Array(xs) => WalkAll(xs, path, from, kind)
    case Object(fs) => WalkFields(fs, path, from, kind)
    case Call(_, args) => WalkAll(args, path, from, kind)
    case Conditional(c, t, f) => Walk(c, path, from, kind) + Walk(t, path, from, kind) + Walk(f, path, from, kind)
    case For(_, coll, key, y, filter, _) =>
      Walk(coll, path, from, kind) + Walk(y, path, from, kind)
      + (if key.Some? then Walk(key.value, path, from, kind) else [])
      + (if filter.Some? then Walk(filter.value, path, from, kind) else [])
  }

  function WalkAll(es: seq<Expr>, path: seq<string>, from: string, kind: EdgeKind): seq<Edge>
    decreases es
  {
    if es == [] then [] else Walk(es[0], path, from, kind) + WalkAll(es[1..], path, from, kind)
  }

  function WalkFields(fs: seq<Field>, path: seq<string>, from: string, kind: EdgeKind): seq<Edge>
    decreases fs
  {
    if fs == [] then []
    else WalkField(fs[0], path, from, kind) + WalkFields(fs[1..], path, from, kind)
  }

  function WalkField(f: Field, path: seq<string>, from: string, kind: EdgeKind): seq<Edge>
    decreases f
  {
    Walk(f.k, path, from, kind) + Walk(f.v, FieldPath(f.k, path), from, kind)
  }

  function WalkAttrs(attrs: AttributeMap, from: string, kind: EdgeKind): seq<Edge> {
    if attrs == [] then []
    else Walk(attrs[0].val, [attrs[0].key], from, kind) + WalkAttrs(attrs[1..], from, kind)
  }

  function ExplicitEdges(from: string, targets: seq<string>): seq<Edge> {
    seq(|targets|, i requires 0 <= i < |targets| => Edge(from, targets[i], ExplicitDependsOn, None))
  }

  function ResourceEdges(r: Resource): seq<Edge> {
    ExplicitEdges(r.address, r.dependsOn) + WalkAttrs(r.attributes, r.address, AttrRef)
  }

  function ComponentAddress(path: Path): Option<string> {
    var address := "component." + Join(path, "/");
    if ValidAddress(address) then Some(address) else None
  }

  function RelativeTo(path: Path, root: Path): Path {
    if root <= path then path[|root|..] else path
  }

  function DependencyEdges(from: string, deps: seq<Path>, root: Path): seq<Edge> {
    if deps == [] then []
    else
      (match ComponentAddress(RelativeTo(deps[0], root))
       case Some(to) => [Edge(from, to, EdgeKind.TerragruntDependency, None)]
       case None => [])
      + DependencyEdges(from, deps[1..], root)
  }

  function TerragruntEdges(c: Component, root: Path): seq<Edge> {
    match (c.terragrunt, ComponentAddress(c.path))
    case (Some(deps), Some(from)) => DependencyEdges(from, deps, root)
    case _ => []
  }

  function ResourcesEdges(rs: seq<Resource>): seq<Edge> {
    if rs == [] then [] else ResourceEdges(rs[0]) + ResourcesEdges(rs[1..])
  }

  function ModulesEdges(ms: seq<ModuleCall>): seq<Edge> {
    if ms == [] then [] else WalkAttrs(ms[0].inputs, ms[0].address, ModuleInput) + ModulesEdges(ms[1..])
  }

  function Candidates(cs: seq<Component>, root: Path): seq<Edge> {
    if cs == [] then []
    else ResourcesEdges(cs[0].resources) + ModulesEdges(cs[0].modules) + TerragruntEdges(cs[0], root) + Candidates(cs[1..], root)
  }

  // ---- pushing with de-duplication ------------------------------------------------------------

  type Sink = (seq<Edge>, set<EdgeKey>)

  function PushOne(sink: Sink, e: Edge): Sink {
    if KeyOf(e) in sink.1 then sink else (sink.0 + [e], sink.1 + {KeyOf(e)})
  }

  function PushAll(sink: Sink, es: seq<Edge>): Sink
    decreases |es|
  {
    if es == [] then sink else PushAll(PushOne(sink, es[0]), es[1..])
  }

  lemma {:induction false} PushAllConcat(sink: Sink, a: seq<Edge>, b: seq<Edge>)
    ensures PushAll(sink, a + b) == PushAll(PushAll(sink, a), b)
    decreases |a|
  {
    if a == [] {
      assert a + b == b;
    } else {
      assert (a + b)[0] == a[0] && (a + b)[1..] == a[1..] + b;
      PushAllConcat(PushOne(sink, a[0]), a[1..], b);
    }
  }

  function KeysOf(es: seq<Edge>): set<EdgeKey> {
    set i | 0 <= i < |es| :: KeyOf(es[i])
  }

  /** The result: existing edges first, then the first candidate of every new key, stably sorted. */
  function Collected(cs: seq<Component>, root: Path, existing: seq<Edge>): seq<Edge> {
    SortBy(PushAll((existing, KeysOf(existing)), Candidates(cs, root)).0, EdgeOrder)
  }

  // ---- the imperative collector ---------------------------------------------------------------

  class Collector {
    var out: seq<Edge>
    var seen: set<EdgeKey>
    var path: seq<string>

    ghost function State(): Sink
      reads this
    {
      (out, seen)
    }

    constructor (existing: seq<Edge>)
      ensures out == existing && seen == KeysOf(existing) && path == []
    {
      out, path := existing, [];
      seen := set i | 0 <= i < |existing| :: KeyOf(existing[i]);
    }

    method PushEdge(e: Edge)
      modifies this`out, this`seen
      ensures State() == PushOne(old(State()), e)
    {
      if KeyOf(e) !in seen {
        seen := seen + {KeyOf(e)};
        out := out + [e];
      }
    }

    method EmitSymbolEdge(sym: Symbolic, from: string, kind: EdgeKind)
      modifies this`out, this`seen
      ensures State() == PushAll(old(State()), SymbolEdges(sym, path, from, kind))
    {
      var to := Target(sym);
      if to.Some? {
        var e := Edge(from, to.value, kind, Some(Join(path, ".")));
        assert [e][1..] == [];
        PushEdge(e);
      }
    }

    /** `walk_expression`: the shared path is back where it was on return. */
    method WalkExpression(e: Expr, from: string, kind: EdgeKind)
      modifies this
      ensures State() == PushAll(old(State()), Walk(e, old(path), from, kind)) && path == old(path)
      decreases e, 1
    {
      hide PushAll;
      ghost var start := State();
      match e {
        case Literal(_) => PushNothing(start);
        case Unresolved(sym) => EmitSymbolEdge(sym, from, kind);
        case Binary(_, l, r) =>
          WalkExpression(l, from, kind);
          WalkExpression(r, from, kind);
          PushAllConcat(start, Walk(l, path, from, kind), Walk(r, path, from, kind));
        case Unary(_, x) => WalkExpression(x, from, kind);
        case Template(ps) => WalkList(ps, from, kind);
        case Array(xs) => WalkList(xs, from, kind);
        case Object(fs) => WalkObject(fs, from, kind);
        case Call(_, args) => WalkList(args, from, kind);
        case Conditional(c, t, f) =>
          WalkExpression(c, from, kind);
          WalkExpression(t, from, kind);
          WalkExpression(f, from, kind);
          PushAllConcat(start, Walk(c, path, from, kind), Walk(t, path, from, kind));
          PushAllConcat(start, Walk(c, path, from, kind) + Walk(t, path, from, kind), Walk(f, path, from, kind));
        case For(_, coll, key, y, filter, _) =>
          WalkExpression(coll, from, kind);
          WalkExpression(y, from, kind);
          ghost var done := Walk(coll, path, from, kind) + Walk(y, path, from, kind);
          PushAllConcat(start, Walk(coll, path, from, kind), Walk(y, path, from, kind));
          WalkOptional(key, from, kind);
          PushAllConcat(start, done, OptionalEdges(key, path, from, kind));
          done := done + OptionalEdges(key, path, from, kind);
          WalkOptional(filter, from, kind);
          PushAllConcat(start, done, OptionalEdges(filter, path, from, kind));
      }
    }

    method WalkOptional(e: Option<Expr>, from: string, kind: EdgeKind)
      modifies this
      ensures State() == PushAll(old(State()), OptionalEdges(e, old(path), from, kind)) && path == old(path)
      decreases e, 0
    {
      if e.Some? {
        WalkExpression(e.value, from, kind);
      }
    }

    method WalkList(es: seq<Expr>, from: string, kind: EdgeKind)
      modifies this
      ensures State() == PushAll(old(State()), WalkAll(es, old(path), from, kind)) && path == old(path)
      decreases es, 0
    {
      hide PushAll;
      ghost var start := State();
      var i := 0;
      assert es[0..] == es;
      while i < |es|
        invariant 0 <= i <= |es| && path == old(path)
        invariant PushAll(start, WalkAll(es, path, from, kind)) == PushAll(State(), WalkAll(es[i..], path, from, kind))
      {
        assert es[i..][1..] == es[i + 1..];
        PushAllConcat(State(), Walk(es[i], path, from, kind), WalkAll(es[i + 1..], path, from, kind));
        WalkExpression(es[i], from, kind);
        i := i + 1;
      }
      PushNothing(State());
    }

    method WalkObject(fs: seq<Field>, from: string, kind: EdgeKind)
      modifies this
      ensures State() == PushAll(old(State()), WalkFields(fs, old(path), from, kind)) && path == old(path)
      decreases fs, 0
    {
      hide PushAll;
      ghost var start, outer := State(), path;
      var i := 0;
      assert fs[0..] == fs;
      while i < |fs|
        invariant 0 <= i <= |fs| && path == outer
        invariant PushAll(start, WalkFields(fs, path, from, kind)) == PushAll(State(), WalkFields(fs[i..], path, from, kind))
      {
        assert fs[i..][1..] == fs[i + 1..];
        PushAllConcat(State(), WalkField(fs[i], path, from, kind), WalkFields(fs[i + 1..], path, from, kind));
        WalkObjectField(fs[i], from, kind);
        i := i + 1;
      }
      PushNothing(State());
    }

    /** A literal string key is on the path while its value is walked. */
    method WalkObjectField(f: Field, from: string, kind: EdgeKind)
      modifies this
      ensures State() == PushAll(old(State()), WalkField(f, old(path), from, kind)) && path == old(path)
      decreases f, 0
    {
      hide PushAll;
      PushAllConcat(State(), Walk(f.k, path, from, kind), Walk(f.v, FieldPath(f.k, path), from, kind));
      WalkExpression(f.k, from, kind);
      var pushed := f.k.Literal? && f.k.v.Str?;
      if pushed {
        path := path + [f.k.v.s];
      }
      WalkExpression(f.v, from, kind);
      if pushed {
        path := path[..|path| - 1];
      }
    }

    method CollectAttrs(attrs: AttributeMap, from: string, kind: EdgeKind)
      modifies this
      ensures State() == PushAll(old(State()), WalkAttrs(attrs, from, kind))
    {
      hide PushAll;
      ghost var start := State();
      var i := 0;
      assert attrs[0..] == attrs;
      while i < |attrs|
        invariant 0 <= i <= |attrs|
        invariant PushAll(start, WalkAttrs(attrs, from, kind)) == PushAll(State(), WalkAttrs(attrs[i..], from, kind))
      {
        assert attrs[i..][1..] == attrs[i + 1..];
        path := [attrs[i].key];
        PushAllConcat(State(), Walk(attrs[i].val, path, from, kind), WalkAttrs(attrs[i + 1..], from, kind));
        WalkExpression(attrs[i].val, from, kind);
        i := i + 1;
      }
      PushNothing(State());
    }

    method CollectResource(r: Resource)
      modifies this
      ensures State() == PushAll(old(State()), ResourceEdges(r))
    {
      ghost var start := State();
      ghost var explicit := ExplicitEdges(r.address, r.dependsOn);
      var i := 0;
      assert explicit[0..] == explicit;
      while i < |r.dependsOn|
        invariant 0 <= i <= |r.dependsOn|
        invariant PushAll(start, explicit) == PushAll(State(), explicit[i..])
      {
        assert explicit[i..][1..] == explicit[i + 1..];
        PushEdge(Edge(r.address, r.dependsOn[i], ExplicitDependsOn, None));
        i := i + 1;
      }
      PushAllConcat(start, explicit, WalkAttrs(r.attributes, r.address, AttrRef));
      CollectAttrs(r.attributes, r.address, AttrRef);
    }

    method CollectTerragrunt(c: Component, root: Path)
      modifies this
      ensures State() == PushAll(old(State()), TerragruntEdges(c, root))
    {
      var from := ComponentAddress(c.path);
      if c.terragrunt.None? || from.None? {
        return;
      }
      var deps := c.terragrunt.value;
      ghost var start := State();
      var i := 0;
      assert deps[0..] == deps;
      while i < |deps|
        invariant 0 <= i <= |deps|
        invariant PushAll(start, DependencyEdges(from.value, deps, root)) == PushAll(State(), DependencyEdges(from.value, deps[i..], root))
      {
        assert deps[i..][1..] == deps[i + 1..];
        var to := ComponentAddress(RelativeTo(deps[i], root));
        if to.Some? {
          var e := Edge(from.value, to.value, EdgeKind.TerragruntDependency, None);
          assert ([e] + DependencyEdges(from.value, deps[i + 1..], root))[1..] == DependencyEdges(from.value, deps[i + 1..], root);
          PushEdge(e);
        } else {
          assert [] + DependencyEdges(from.value, deps[i + 1..], root) == DependencyEdges(from.value, deps[i + 1..], root);
        }
        i := i + 1;
      }
    }

    method CollectComponent(c: Component, root: Path)
      modifies this
      ensures State() == PushAll(old(State()), ResourcesEdges(c.resources) + ModulesEdges(c.modules) + TerragruntEdges(c, root))
    {
      hide PushAll;
      ghost var start := State();
      var i := 0;
      assert c.resources[0..] == c.resources;
      while i < |c.resources|
        invariant 0 <= i <= |c.resources|
        invariant PushAll(start, ResourcesEdges(c.resources)) == PushAll(State(), ResourcesEdges(c.resources[i..]))
      {
        assert c.resources[i..][1..] == c.resources[i + 1..];
        PushAllConcat(State(), ResourceEdges(c.resources[i]), ResourcesEdges(c.resources[i + 1..]));
        CollectResource(c.resources[i]);
        i := i + 1;
      }
      PushNothing(State());
      ghost var afterResources := State();
      i := 0;
      assert c.modules[0..] == c.modules;
      while i < |c.modules|
        invariant 0 <= i <= |c.modules|
        invariant PushAll(afterResources, ModulesEdges(c.modules)) == PushAll(State(), ModulesEdges(c.modules[i..]))
      {
        var m := c.modules[i];
        assert c.modules[i..][1..] == c.modules[i + 1..];
        PushAllConcat(State(), WalkAttrs(m.inputs, m.address, ModuleInput), ModulesEdges(c.modules[i + 1..]));
        CollectAttrs(m.inputs, m.address, ModuleInput);
        i := i + 1;
      }
      PushNothing(State());
      PushAllConcat(start, ResourcesEdges(c.resources), ModulesEdges(c.modules));
      PushAllConcat(start, ResourcesEdges(c.resources) + ModulesEdges(c.modules), TerragruntEdges(c, root));
      CollectTerragrunt(c, root);
    }
  }

  ghost function OptionalEdges(e: Option<Expr>, path: seq<string>, from: string, kind: EdgeKind): seq<Edge> {
    if e.Some? then Walk(e.value, path, from, kind) else []
  }

  lemma PushNothing(sink: Sink)
    ensures PushAll(sink, []) == sink
  {
  }

  /** `collect_edges_in_place` */
  method CollectEdges(components: seq<Component>, root: Path, existing: seq<Edge>) returns (edges: seq<Edge>)
    ensures edges == Collected(components, root, existing)
  {
    hide PushAll;
    var collector := new Collector(existing);
    ghost var start := collector.State();
    var i := 0;
    assert components[0..] == components;
    while i < |components|
      invariant 0 <= i <= |components|
      invariant PushAll(start, Candidates(components, root)) == PushAll(collector.State(), Candidates(components[i..], root))
    {
      var c := components[i];
      assert components[i..][1..] == components[i + 1..];
      PushAllConcat(collector.State(), ResourcesEdges(c.resources) + ModulesEdges(c.modules) + TerragruntEdges(c, root),
                    Candidates(components[i + 1..], root));
      collector.CollectComponent(c, root);
      i := i + 1;
    }
    PushNothing(collector.State());
    edges := SortBy(collector.out, EdgeOrder);
  }

  // ---- soundness and completeness -------------------------------------------------------------

  /** The keys the walk of an expression can produce: one per symbol with a target. */
  lemma {:induction false} WalkKeys(e: Expr, path: seq<string>, from: string, kind: EdgeKind, key: EdgeKey)
    ensures key in KeysOf(Walk(e, path, from, kind)) <==> SymbolKey(Symbols(e), from, kind, key)
    decreases e
  {
    match e
    case Literal(_) =>
    case Unresolved(sym) =>
      if Target(sym).Some? { KeysSingle(SymbolEdges(sym, path, from, kind)[0]); }
    case Binary(_, l, r) =>
      WalkKeys(l, path, from, kind, key); WalkKeys(r, path, from, kind, key);
      KeysConcat(Walk(l, path, from, kind), Walk(r, path, from, kind));
      SymbolKeyUnion(Symbols(l), Symbols(r), from, kind, key);
    case Unary(_, x) => WalkKeys(x, path, from, kind, key);
    case Template(ps) => WalkAllKeys(ps, path, from, kind, key);
    case Array(xs) => WalkAllKeys(xs, path, from, kind, key);
    case Object(fs) => WalkFieldsKeys(fs, path, from, kind, key);
    case Call(_, args) => WalkAllKeys(args, path, from, kind, key);
    case Conditional(c, t, f) =>
      WalkKeys(c, path, from, kind, key); WalkKeys(t, path, from, kind, key); WalkKeys(f, path, from, kind, key);
      KeysConcat(Walk(c, path, from, kind), Walk(t, path, from, kind));
      KeysConcat(Walk(c, path, from, kind) + Walk(t, path, from, kind), Walk(f, path, from, kind));
      SymbolKeyUnion(Symbols(c), Symbols(t), from, kind, key);
      SymbolKeyUnion(Symbols(c) + Symbols(t), Symbols(f), from, kind, key);
    case For(_, coll, k, y, filter, _) =>
      WalkKeys(coll, path, from, kind, key); WalkKeys(y, path, from, kind, key);
      if k.Some? { WalkKeys(k.value, path, from, kind, key); }
      if filter.Some? { WalkKeys(filter.value, path, from, kind, key); }
      var a, b := OptionalEdges(k, path, from, kind), OptionalEdges(filter, path, from, kind);
      var front := Walk(coll, path, from, kind) + Walk(y, path, from, kind);
      KeysConcat(Walk(coll, path, from, kind), Walk(y, path, from, kind));
      KeysConcat(front, a);
      KeysConcat(front + a, b);
      var sa: set<Symbolic> := if k.Some? then Symbols(k.value) else {};
      var sb: set<Symbolic> := if filter.Some? then Symbols(filter.value) else {};
      SymbolKeyUnion(Symbols(coll), Symbols(y), from, kind, key);
      SymbolKeyUnion(Symbols(coll) + Symbols(y), sa, from, kind, key);
      SymbolKeyUnion(Symbols(coll) + Symbols(y) + sa, sb, from, kind, key);
  }

  lemma KeysSingle(e: Edge)
    ensures KeysOf([e]) == {KeyOf(e)}
  {
    assert [e][0] == e;
  }

  lemma KeysConcat(a: seq<Edge>, b: seq<Edge>)
    ensures KeysOf(a + b) == KeysOf(a) + KeysOf(b)
  {
    forall k | k in KeysOf(a) + KeysOf(b) ensures k in KeysOf(a + b) {
      if k in KeysOf(a) {
        var i :| 0 <= i < |a| && KeyOf(a[i]) == k;
        assert (a + b)[i] == a[i];
      } else {
        var i :| 0 <= i < |b| && KeyOf(b[i]) == k;
        assert (a + b)[|a| + i] == b[i];
      }
    }
  }

  ghost predicate SymbolKey(syms: set<Symbolic>, from: string, kind: EdgeKind, key: EdgeKey) {
    exists sym :: sym in syms && Target(sym).Some? && key == (from, Target(sym).value, kind)
  }

  lemma SymbolKeyUnion(a: set<Symbolic>, b: set<Symbolic>, from: string, kind: EdgeKind, key: EdgeKey)
    ensures SymbolKey(a + b, from, kind, key) <==> SymbolKey(a, from, kind, key) || SymbolKey(b, from, kind, key)
  {
  }

  lemma {:induction false} WalkAllKeys(es: seq<Expr>, path: seq<string>, from: string, kind: EdgeKind, key: EdgeKey)
    ensures key in KeysOf(WalkAll(es, path, from, kind)) <==> SymbolKey(SymbolsAll(es), from, kind, key)
    decreases es
  {
    if es != [] {
      WalkKeys(es[0], path, from, kind, key);
      WalkAllKeys(es[1..], path, from, kind, key);
      KeysConcat(Walk(es[0], path, from, kind), WalkAll(es[1..], path, from, kind));
      assert SymbolsAll(es) == Symbols(es[0]) + SymbolsAll(es[1..]) by {
        assert forall i :: 0 < i < |es| ==> es[i] == es[1..][i - 1];
      }
      SymbolKeyUnion(Symbols(es[0]), SymbolsAll(es[1..]), from, kind, key);
    }
  }

  lemma {:induction false} WalkFieldKeys(f: Field, path: seq<string>, from: string, kind: EdgeKind, key: EdgeKey)
    ensures key in KeysOf(WalkField(f, path, from, kind)) <==> SymbolKey(SymbolsField(f), from, kind, key)
    decreases f
  {
    WalkKeys(f.k, path, from, kind, key);
    WalkKeys(f.v, FieldPath(f.k, path), from, kind, key);
    KeysConcat(Walk(f.k, path, from, kind), Walk(f.v, FieldPath(f.k, path), from, kind));
    SymbolKeyUnion(Symbols(f.k), Symbols(f.v), from, kind, key);
  }

  lemma {:induction false} WalkFieldsKeys(fs: seq<Field>, path: seq<string>, from: string, kind: EdgeKind, key: EdgeKey)
    ensures key in KeysOf(WalkFields(fs, path, from, kind)) <==> SymbolKey(Symbols(Object(fs)), from, kind, key)
    decreases fs
  {
    if fs != [] {
      var f := fs[0];
      WalkFieldKeys(f, path, from, kind, key);
      WalkFieldsKeys(fs[1..], path, from, kind, key);
      KeysConcat(WalkField(f, path, from, kind), WalkFields(fs[1..], path, from, kind));
      assert Symbols(Object(fs)) == SymbolsField(f) + Symbols(Object(fs[1..])) by {
        assert forall i :: 0 < i < |fs| ==> fs[i] == fs[1..][i - 1];
      }
      SymbolKeyUnion(SymbolsField(f), Symbols(Object(fs[1..])), from, kind, key);
    }
  }

  ghost function AttrSymbols(attrs: AttributeMap): set<Symbolic> {
    set i, s | 0 <= i < |attrs| && s in Symbols(attrs[i].val) :: s
  }

  lemma {:induction false} WalkAttrsKeys(attrs: AttributeMap, from: string, kind: EdgeKind, key: EdgeKey)
    ensures key in KeysOf(WalkAttrs(attrs, from, kind)) <==> SymbolKey(AttrSymbols(attrs), from, kind, key)
    decreases |attrs|
  {
    if attrs != [] {
      WalkKeys(attrs[0].val, [attrs[0].key], from, kind, key);
      WalkAttrsKeys(attrs[1..], from, kind, key);
      KeysConcat(Walk(attrs[0].val, [attrs[0].key], from, kind), WalkAttrs(attrs[1..], from, kind));
      assert AttrSymbols(attrs) == Symbols(attrs[0].val) + AttrSymbols(attrs[1..]) by {
        assert forall i :: 0 < i < |attrs| ==> attrs[i] == attrs[1..][i - 1];
      }
      SymbolKeyUnion(Symbols(attrs[0].val), AttrSymbols(attrs[1..]), from, kind, key);
    }
  }

  /** An edge of a resource: written in `depends_on`, or a reference inside an attribute. */
  ghost predicate ResourceKey(r: Resource, key: EdgeKey) {
    || (key.0 == r.address && key.1 in r.dependsOn && key.2 == ExplicitDependsOn)
    || SymbolKey(AttrSymbols(r.attributes), r.address, AttrRef, key)
  }

  ghost predicate ModuleKey(m: ModuleCall, key: EdgeKey) {
    SymbolKey(AttrSymbols(m.inputs), m.address, ModuleInput, key)
  }

  ghost predicate TerragruntKey(c: Component, root: Path, key: EdgeKey) {
    && c.terragrunt.Some? && ComponentAddress(c.path) == Some(key.0) && key.2 == EdgeKind.TerragruntDependency
    && exists dep :: dep in c.terragrunt.value && ComponentAddress(RelativeTo(dep, root)) == Some(key.1)
  }

  ghost predicate ComponentKey(c: Component, root: Path, key: EdgeKey) {
    || (exists r :: r in c.resources && ResourceKey(r, key))
    || (exists m :: m in c.modules && ModuleKey(m, key))
    || TerragruntKey(c, root, key)
  }

  lemma ResourceKeys(r: Resource, key: EdgeKey)
    ensures key in KeysOf(ResourceEdges(r)) <==> ResourceKey(r, key)
  {
    var explicit := ExplicitEdges(r.address, r.dependsOn);
    WalkAttrsKeys(r.attributes, r.address, AttrRef, key);
    KeysConcat(explicit, WalkAttrs(r.attributes, r.address, AttrRef));
    if key.0 == r.address && key.1 in r.dependsOn && key.2 == ExplicitDependsOn {
      var i :| 0 <= i < |r.dependsOn| && r.dependsOn[i] == key.1;
      assert KeyOf(explicit[i]) == key;
    }
  }

  lemma {:induction false} ResourcesKeys(rs: seq<Resource>, key: EdgeKey)
    ensures key in KeysOf(ResourcesEdges(rs)) <==> exists r :: r in rs && ResourceKey(r, key)
    decreases |rs|
  {
    if rs != [] {
      ResourceKeys(rs[0], key);
      ResourcesKeys(rs[1..], key);
      KeysConcat(ResourceEdges(rs[0]), ResourcesEdges(rs[1..]));
      assert rs == [rs[0]] + rs[1..];
    }
  }

  lemma {:induction false} ModulesKeys(ms: seq<ModuleCall>, key: EdgeKey)
    ensures key in KeysOf(ModulesEdges(ms)) <==> exists m :: m in ms && ModuleKey(m, key)
    decreases |ms|
  {
    if ms != [] {
      WalkAttrsKeys(ms[0].inputs, ms[0].address, ModuleInput, key);
      ModulesKeys(ms[1..], key);
      KeysConcat(WalkAttrs(ms[0].inputs, ms[0].address, ModuleInput), ModulesEdges(ms[1..]));
      hide SymbolKey;
      if m :| m in ms && ModuleKey(m, key) { assert m == ms[0] || m in ms[1..]; }
      if m :| m in ms[1..] && ModuleKey(m, key) { assert m in ms; }
      assert ModuleKey(ms[0], key) ==> ms[0] in ms;
    }
  }

  lemma {:induction false} DependencyKeys(from: string, deps: seq<Path>, root: Path, key: EdgeKey)
    ensures key in KeysOf(DependencyEdges(from, deps, root)) <==>
            && key.0 == from && key.2 == EdgeKind.TerragruntDependency
            && exists dep :: dep in deps && ComponentAddress(RelativeTo(dep, root)) == Some(key.1)
    decreases |deps|
  {
    if deps != [] {
      DependencyKeys(from, deps[1..], root, key);
      var to := ComponentAddress(RelativeTo(deps[0], root));
      var first: seq<Edge> := if to.Some? then [Edge(from, to.value, EdgeKind.TerragruntDependency, None)] else [];
      KeysConcat(first, DependencyEdges(from, deps[1..], root));
      if to.Some? { KeysSingle(first[0]); }
      assert deps == [deps[0]] + deps[1..];
    }
  }

  lemma ComponentKeys(c: Component, root: Path, key: EdgeKey)
    ensures key in KeysOf(ResourcesEdges(c.resources) + ModulesEdges(c.modules) + TerragruntEdges(c, root)) <==>
            ComponentKey(c, root, key)
  {
    hide ResourceKey, ModuleKey, ResourcesEdges, ModulesEdges, DependencyEdges;
    var rs, ms, ts := ResourcesEdges(c.resources), ModulesEdges(c.modules), TerragruntEdges(c, root);
    ResourcesKeys(c.resources, key);
    ModulesKeys(c.modules, key);
    if c.terragrunt.Some? && ComponentAddress(c.path).Some? {
      DependencyKeys(ComponentAddress(c.path).value, c.terragrunt.value, root, key);
    }
    KeysConcat(rs, ms);
    KeysConcat(rs + ms, ts);
  }

  lemma {:induction false} CandidateKeys(cs: seq<Component>, root: Path, key: EdgeKey)
    ensures key in KeysOf(Candidates(cs, root)) <==> exists c :: c in cs && ComponentKey(c, root, key)
    decreases |cs|
  {
    hide ComponentKey, ResourcesEdges, ModulesEdges, TerragruntEdges;
    if cs != [] {
      var c := cs[0];
      ComponentKeys(c, root, key);
      KeysConcat(ResourcesEdges(c.resources) + ModulesEdges(c.modules) + TerragruntEdges(c, root), Candidates(cs[1..], root));
      CandidateKeys(cs[1..], root, key);
      if d :| d in cs && ComponentKey(d, root, key) { assert d == c || d in cs[1..]; }
      if d :| d in cs[1..] && ComponentKey(d, root, key) { assert d in cs; }
      assert ComponentKey(c, root, key) ==> c in cs;
    }
  }

  // ---- the collected list ---------------------------------------------------------------------

  ghost predicate DistinctEdgeKeys(es: seq<Edge>) {
    forall i, j :: 0 <= i < j < |es| ==> KeyOf(es[i]) != KeyOf(es[j])
  }

  lemma {:induction false} PushAllFacts(sink: Sink, es: seq<Edge>)
    requires sink.1 == KeysOf(sink.0)
    ensures var r := PushAll(sink, es);
            && r.1 == KeysOf(r.0) == KeysOf(sink.0) + KeysOf(es)
            && sink.0 <= r.0
            && (DistinctEdgeKeys(sink.0) ==> DistinctEdgeKeys(r.0))
            && (KeysOf(es) <= sink.1 ==> r == sink)
    decreases |es|
  {
    if es != [] {
      var e := es[0];
      var next := PushOne(sink, e);
      KeysSingle(e);
      KeysConcat(sink.0, [e]);
      KeysConcat([e], es[1..]);
      assert es == [e] + es[1..];
      if DistinctEdgeKeys(sink.0) && KeyOf(e) !in sink.1 {
        forall i, j | 0 <= i < j < |next.0| ensures KeyOf(next.0[i]) != KeyOf(next.0[j]) {
          assert KeyOf(sink.0[i]) in KeysOf(sink.0);
        }
      }
      PushAllFacts(next, es[1..]);
    }
  }

  lemma SortKeepsKeys(es: seq<Edge>)
    ensures KeysOf(SortBy(es, EdgeOrder)) == KeysOf(es)
    ensures DistinctEdgeKeys(es) ==> DistinctEdgeKeys(SortBy(es, EdgeOrder))
  {
    var sorted := SortBy(es, EdgeOrder);
    SortByMembers(es, EdgeOrder);
    SortBySorts(es, EdgeOrder);
    forall i | 0 <= i < |es| ensures KeyOf(es[i]) in KeysOf(sorted) {
      assert es[i] in es && es[i] in sorted;
    }
    forall i | 0 <= i < |sorted| ensures KeyOf(sorted[i]) in KeysOf(es) {
      assert sorted[i] in sorted && sorted[i] in es;
    }
    if DistinctEdgeKeys(es) {
      forall i, j | 0 <= i < j < |sorted| ensures KeyOf(sorted[i]) != KeyOf(sorted[j]) {
        var x, y := sorted[i], sorted[j];
        assert x in es && y in es;
        if KeyOf(x) == KeyOf(y) {
          assert x == y;
          TwiceIn(sorted, i, j);
          DistinctMultiset(es, x);
        }
      }
    }
  }

  /** Starting from no edges, the collected keys are exactly the declared edges of the components,
      without repetition and in (from, to, kind) order. */
  lemma CollectionIsExact(cs: seq<Component>, root: Path)
    ensures var edges := Collected(cs, root, []);
            && (forall key :: key in KeysOf(edges) <==> exists c :: c in cs && ComponentKey(c, root, key))
            && DistinctEdgeKeys(edges)
            && Sorted(edges, EdgeOrder)
  {
    var pushed := PushAll(([], KeysOf([])), Candidates(cs, root)).0;
    PushAllFacts(([], KeysOf([])), Candidates(cs, root));
    SortKeepsKeys(pushed);
    SortBySorts(pushed, EdgeOrder);
    forall key ensures key in KeysOf(Candidates(cs, root)) <==> exists c :: c in cs && ComponentKey(c, root, key) {
      CandidateKeys(cs, root, key);
    }
  }

  /** Collecting again changes nothing, whatever edges were there at first. */
  lemma CollectionIsIdempotent(cs: seq<Component>, root: Path, existing: seq<Edge>)
    ensures Collected(cs, root, Collected(cs, root, existing)) == Collected(cs, root, existing)
  {
    var edges := Collected(cs, root, existing);
    var pushed := PushAll((existing, KeysOf(existing)), Candidates(cs, root)).0;
    PushAllFacts((existing, KeysOf(existing)), Candidates(cs, root));
    SortKeepsKeys(pushed);
    SortBySorts(pushed, EdgeOrder);
    PushAllFacts((edges, KeysOf(edges)), Candidates(cs, root));
    SortedIsFixed(edges, EdgeOrder);
  }

  /** Of several references with one key, the first in walk order gives the edge its attribute. */
  lemma {:induction false} FirstReferenceWins(sink: Sink, front: seq<Edge>, e: Edge, back: seq<Edge>)
    requires sink.1 == KeysOf(sink.0) && KeyOf(e) !in KeysOf(sink.0) + KeysOf(front)
    ensures e in PushAll(sink, front + [e] + back).0
    ensures forall other :: other in PushAll(sink, front + [e] + back).0 && KeyOf(other) == KeyOf(e) && DistinctEdgeKeys(sink.0) ==> other == e
  {
    PushAllFacts(sink, front);
    var mid := PushAll(sink, front);
    PushAllConcat(sink, front + [e], back);
    PushAllConcat(sink, front, [e]);
    assert [e][1..] == [];
    var next := PushOne(mid, e);
    assert next.0[|mid.0|] == e;
    KeysSingle(e);
    KeysConcat(mid.0, [e]);
    PushAllFacts(next, back);
    var all := PushAll(sink, front + [e] + back);
    assert all == PushAll(next, back);
    assert all.0[|mid.0|] == e;
    PushAllFacts(sink, front + [e] + back);
  }

  /** Evaluation never adds an edge. */
  lemma ReductionAddsNoEdge(e: Expr, s: Scope, h: Host, path: seq<string>, from: string, kind: EdgeKind)
    ensures KeysOf(Walk(Reduce(e, s, h), path, from, kind)) <= KeysOf(Walk(e, path, from, kind))
  {
    ReduceAddsNothing(e, s, h);
    forall key | key in KeysOf(Walk(Reduce(e, s, h), path, from, kind)) ensures key in KeysOf(Walk(e, path, from, kind)) {
      WalkKeys(Reduce(e, s, h), path, from, kind, key);
      WalkKeys(e, path, from, kind, key);
    }
  }
}
