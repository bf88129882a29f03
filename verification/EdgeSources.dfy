/** The collected edges, said of the configuration as it was written (`graph/edges.rs`): which references make
    an edge, to what, and under which attribute. */
module EdgeSources {
  import opened Ir
  import opened Text
  import opened References
  import opened Addresses
  import opened Sorting
  import opened Edges

  // ---- what a reference points at -------------------------------------------------------------

  /** `s` is two dotless parts and whatever is read of them, and `address` the two parts. */
  ghost predicate StartsWithParts(s: string, address: string) {
    exists first, second, rest ::
      '.' !in first && '.' !in second && Opens(rest, second) && s == first + "." + rest && address == first + "." + second
  }

  /** The text before whatever is read of the resource, data source or module. */
  ghost predicate HeadText(source: string, address: string) {
    if "data." <= source then "data." <= address && StartsWithParts(source[5..], address[5..])
    else if "module." <= source then "module." <= address && '.' !in address[7..] && Opens(source[7..], address[7..])
    else StartsWithParts(source, address)
  }

  /** Only references to resources, data sources and modules point at something, if its address validates. */
  ghost predicate PointsAt(sym: Symbolic, address: string) {
    && (sym.kind == SymbolKind.Resource || sym.kind == SymbolKind.Data || sym.kind == SymbolKind.Module)
    && HeadText(sym.source, address) && ValidAddress(address)
  }

  lemma TwoPartsAre(s: string, address: string)
    ensures TwoParts(s) == Some(address) <==> StartsWithParts(s, address)
  {
    if TwoParts(s) == Some(address) {
      var i := IndexOf(s, '.');
      var first, rest := Head(s), Tail(s);
      var second := Head(rest);
      assert s == first + "." + rest;
      HeadIs(s, first);
      HeadIs(rest, second);
      assert Opens(rest, second);
    }
    if first, second, rest :| '.' !in first && '.' !in second && Opens(rest, second) && s == first + "." + rest && address == first + "." + second {
      DottedParts(first, second, rest);
    }
  }

  lemma TargetIs(sym: Symbolic, address: string)
    ensures Target(sym) == Some(address) <==> PointsAt(sym, address)
  {
    var source := sym.source;
    hide ValidAddress, TwoParts, StartsWithParts, Opens;
    if StartsWith(source, "data.") {
      TwoPartsAre(source[5..], if "data." <= address then address[5..] else "");
      assert "data." <= address ==> address == "data." + address[5..];
      if TwoParts(source[5..]).Some? { assert ("data." + TwoParts(source[5..]).value)[5..] == TwoParts(source[5..]).value; }
    } else if StartsWith(source, "module.") {
      var name := source[7..];
      HeadOpens(name, if "module." <= address then address[7..] else "");
      assert "module." <= address ==> address == "module." + address[7..];
      assert ("module." + Head(name))[7..] == Head(name);
    } else {
      TwoPartsAre(source, address);
    }
  }

  lemma HeadOpens(s: string, x: string)
    ensures Head(s) == x <==> '.' !in x && Opens(s, x)
  {
    HeadIs(s, x);
  }

  // ---- the declared keys ----------------------------------------------------------------------

  /** A reference to `address` occurs in some attribute. */
  ghost predicate Refers(attrs: AttributeMap, address: string) {
    exists i, sym :: 0 <= i < |attrs| && sym in Symbols(attrs[i].val) && PointsAt(sym, address)
  }

  lemma AttributesRefer(attrs: AttributeMap, from: string, kind: EdgeKind, key: EdgeKey)
    ensures SymbolKey(AttrSymbols(attrs), from, kind, key) <==> key.0 == from && key.2 == kind && Refers(attrs, key.1)
  {
    hide Target, PointsAt;
    forall sym ensures Target(sym) == Some(key.1) <==> PointsAt(sym, key.1) { TargetIs(sym, key.1); }
    if SymbolKey(AttrSymbols(attrs), from, kind, key) {
      var sym :| sym in AttrSymbols(attrs) && Target(sym).Some? && key == (from, Target(sym).value, kind);
      var i :| 0 <= i < |attrs| && sym in Symbols(attrs[i].val);
      assert PointsAt(sym, key.1);
    }
    if key.0 == from && key.2 == kind && Refers(attrs, key.1) {
      var i, sym :| 0 <= i < |attrs| && sym in Symbols(attrs[i].val) && PointsAt(sym, key.1);
      assert sym in AttrSymbols(attrs) && Target(sym) == Some(key.1);
    }
  }

  /** The parts of a path, separated. */
  function Separated(parts: seq<string>, sep: string): string {
    if parts == [] then ""
    else if |parts| == 1 then parts[0]
    else Separated(parts[..|parts| - 1], sep) + sep + parts[|parts| - 1]
  }

  lemma {:induction false} JoinIs(parts: seq<string>, sep: string)
    ensures Join(parts, sep) == Separated(parts, sep)
    decreases |parts|
  {
    if |parts| > 1 {
      var front, last := parts[..|parts| - 1], parts[|parts| - 1];
      assert parts == front + [last];
      JoinIs(front, sep);
      JoinSnoc(front, last, sep);
    }
  }

  /** A component's address: its path behind `component.`. */
  ghost predicate Names(path: Path, address: string) {
    address == "component." + Separated(path, "/") && ValidAddress(address)
  }

  /** The path below the workspace root, or the path itself when it lies elsewhere. */
  ghost predicate Below(path: Path, root: Path, rel: Path) {
    path == root + rel || (rel == path && !(root <= path))
  }

  lemma NamesIs(path: Path, address: string)
    ensures ComponentAddress(path) == Some(address) <==> Names(path, address)
  {
    JoinIs(path, "/");
  }

  lemma BelowIs(path: Path, root: Path, rel: Path)
    ensures RelativeTo(path, root) == rel <==> Below(path, root, rel)
  {
    if root <= path { assert path == root + path[|root|..]; }
    if path == root + rel { assert path[|root|..] == rel; }
  }

  ghost predicate DeclaredByResource(r: Resource, key: EdgeKey) {
    key.0 == r.address && ((key.2 == ExplicitDependsOn && key.1 in r.dependsOn) || (key.2 == AttrRef && Refers(r.attributes, key.1)))
  }

  ghost predicate DeclaredByCall(m: ModuleCall, key: EdgeKey) {
    key.0 == m.address && key.2 == ModuleInput && Refers(m.inputs, key.1)
  }

  ghost predicate DeclaredByTerragrunt(c: Component, root: Path, key: EdgeKey) {
    && c.terragrunt.Some? && key.2 == EdgeKind.TerragruntDependency && Names(c.path, key.0)
    && exists dep, rel :: dep in c.terragrunt.value && Below(dep, root, rel) && Names(rel, key.1)
  }

  ghost predicate Declared(c: Component, root: Path, key: EdgeKey) {
    || (exists r :: r in c.resources && DeclaredByResource(r, key))
    || (exists m :: m in c.modules && DeclaredByCall(m, key))
    || DeclaredByTerragrunt(c, root, key)
  }

  lemma TerragruntDeclares(c: Component, root: Path, key: EdgeKey)
    ensures TerragruntKey(c, root, key) <==> DeclaredByTerragrunt(c, root, key)
  {
    hide Names, Below, ComponentAddress, RelativeTo;
    NamesIs(c.path, key.0);
    forall rel ensures ComponentAddress(rel) == Some(key.1) <==> Names(rel, key.1) { NamesIs(rel, key.1); }
    forall dep, rel ensures RelativeTo(dep, root) == rel <==> Below(dep, root, rel) { BelowIs(dep, root, rel); }
    if TerragruntKey(c, root, key) {
      var dep :| dep in c.terragrunt.value && ComponentAddress(RelativeTo(dep, root)) == Some(key.1);
      assert Below(dep, root, RelativeTo(dep, root)) && Names(RelativeTo(dep, root), key.1);
    }
  }

  lemma ComponentDeclares(c: Component, root: Path, key: EdgeKey)
    ensures ComponentKey(c, root, key) <==> Declared(c, root, key)
  {
    TerragruntDeclares(c, root, key);
    forall r | r in c.resources ensures ResourceKey(r, key) <==> DeclaredByResource(r, key) {
      AttributesRefer(r.attributes, r.address, AttrRef, key);
    }
    forall m | m in c.modules ensures ModuleKey(m, key) <==> DeclaredByCall(m, key) {
      AttributesRefer(m.inputs, m.address, ModuleInput, key);
    }
    hide ResourceKey, ModuleKey, DeclaredByResource, DeclaredByCall, TerragruntKey, DeclaredByTerragrunt;
  }

  /** After collection the keys are those of the edges that were there and those declared: by `depends_on`, by
      a reference inside an attribute or an input, or by a Terragrunt dependency. */
  lemma CollectedKeys(cs: seq<Component>, root: Path, existing: seq<Edge>, key: EdgeKey)
    ensures key in KeysOf(Collected(cs, root, existing)) <==>
            key in KeysOf(existing) || exists c :: c in cs && Declared(c, root, key)
  {
    var sink := (existing, KeysOf(existing));
    PushAllFacts(sink, Candidates(cs, root));
    SortKeepsKeys(PushAll(sink, Candidates(cs, root)).0);
    CandidateKeys(cs, root, key);
    hide ComponentKey, Declared, PushAll, Candidates;
    forall c ensures ComponentKey(c, root, key) <==> Declared(c, root, key) { ComponentDeclares(c, root, key); }
  }

  /** So a reference in an attribute makes an edge to the resource, data source or module it reads from. */
  lemma ReferenceMakesEdge(cs: seq<Component>, root: Path, c: Component, r: Resource, i: nat, sym: Symbolic,
                           first: string, second: string, rest: string)
    requires c in cs && r in c.resources && i < |r.attributes| && sym in Symbols(r.attributes[i].val)
    requires '.' !in first && '.' !in second && Opens(rest, second) && first != "data" && first != "module"
    ensures sym == Symbolic(SymbolKind.Resource, first + "." + rest) && ValidAddress(first + "." + second) ==>
              (r.address, first + "." + second, AttrRef) in KeysOf(Collected(cs, root, []))
    ensures sym == Symbolic(SymbolKind.Data, "data." + (first + "." + rest)) && ValidAddress("data." + (first + "." + second)) ==>
              (r.address, "data." + (first + "." + second), AttrRef) in KeysOf(Collected(cs, root, []))
    ensures sym == Symbolic(SymbolKind.Module, "module." + rest) && ValidAddress("module." + second) ==>
              (r.address, "module." + second, AttrRef) in KeysOf(Collected(cs, root, []))
  {
    ReferencePointsAtHead(first, second, rest);
    forall to | Target(sym) == Some(to) ensures (r.address, to, AttrRef) in KeysOf(Collected(cs, root, [])) {
      TargetIs(sym, to);
      assert Refers(r.attributes, to);
      assert DeclaredByResource(r, (r.address, to, AttrRef));
      assert Declared(c, root, (r.address, to, AttrRef));
      CollectedKeys(cs, root, [], (r.address, to, AttrRef));
    }
    hide HeadAddress, ValidAddress, Collected, Opens;
  }

  // ---- under which attribute ------------------------------------------------------------------

  /** The references of an expression, each with the literal object keys on the way to it. */
  ghost function Sites(e: Expr): set<(seq<string>, Symbolic)>
    decreases e
  {
    match e
    case Literal(_) => {}
    case Unresolved(sym) => {([], sym)}
    case Binary(_, l, r) => Sites(l) + Sites(r)
    case Unary(_, x) => Sites(x)
    case Template(ps) => set i, s | 0 <= i < |ps| && s in Sites(ps[i]) :: s
    case Array(xs) => set i, s | 0 <= i < |xs| && s in Sites(xs[i]) :: s
    case Object(fs) => set i, s | 0 <= i < |fs| && s in FieldSites(fs[i]) :: s
    case Call(_, args) => set i, s | 0 <= i < |args| && s in Sites(args[i]) :: s
    case Conditional(c, t, f) => Sites(c) + Sites(t) + Sites(f)
    case For(_, coll, key, y, filter, _) =>
      Sites(coll) + Sites(y)
      + (if key.Some? then Sites(key.value) else {})
      + (if filter.Some? then Sites(filter.value) else {})
  }

  ghost function FieldSites(f: Field): set<(seq<string>, Symbolic)>
    decreases f
  {
    Sites(f.k) + if f.k.Literal? && f.k.v.Str? then set s | s in Sites(f.v) :: ([f.k.v.s] + s.0, s.1) else Sites(f.v)
  }

  /** The edge comes from one of the sites, under the attribute path that leads there. */
  ghost predicate FromSite(sites: set<(seq<string>, Symbolic)>, path: seq<string>, from: string, kind: EdgeKind, e: Edge) {
    exists s :: s in sites && PointsAt(s.1, e.to) && e == Edge(from, e.to, kind, Some(Separated(path + s.0, ".")))
  }

  lemma SymbolFromSite(sym: Symbolic, path: seq<string>, from: string, kind: EdgeKind, e: Edge)
    requires e in SymbolEdges(sym, path, from, kind)
    ensures FromSite({([], sym)}, path, from, kind, e)
  {
    TargetIs(sym, e.to);
    JoinIs(path, ".");
    var s: (seq<string>, Symbolic) := ([], sym);
    assert path + s.0 == path;
    assert s in {s};
  }

  lemma MoreSites(sites: set<(seq<string>, Symbolic)>, more: set<(seq<string>, Symbolic)>, path: seq<string>, from: string, kind: EdgeKind, e: Edge)
    requires FromSite(sites, path, from, kind, e) && sites <= more
    ensures FromSite(more, path, from, kind, e)
  {
    hide PointsAt;
  }

  /** Every edge of an expression comes from a reference inside it. */
  lemma {:induction false} WalkFromSites(x: Expr, path: seq<string>, from: string, kind: EdgeKind, e: Edge)
    requires e in Walk(x, path, from, kind)
    ensures FromSite(Sites(x), path, from, kind, e)
    decreases x, 0
  {
    hide FromSite;
    match x
    case Literal(_) =>
    case Unresolved(sym) => SymbolFromSite(sym, path, from, kind, e);
    case Binary(_, l, r) =>
      if e in Walk(l, path, from, kind) { PartFromSites(l, Sites(x), path, from, kind, e); } else { PartFromSites(r, Sites(x), path, from, kind, e); }
    case Unary(_, y) => WalkFromSites(y, path, from, kind, e);
    case Template(ps) =>
      var i := WalkAllFrom(ps, path, from, kind, e);
      PartFromSites(ps[i], Sites(x), path, from, kind, e);
    case Array(xs) =>
      var i := WalkAllFrom(xs, path, from, kind, e);
      PartFromSites(xs[i], Sites(x), path, from, kind, e);
    case Object(fs) =>
      var i := WalkFieldsFrom(fs, path, from, kind, e);
      FieldFromSites(fs[i], path, from, kind, e);
      MoreSites(FieldSites(fs[i]), Sites(x), path, from, kind, e);
    case Call(_, args) =>
      var i := WalkAllFrom(args, path, from, kind, e);
      PartFromSites(args[i], Sites(x), path, from, kind, e);
    case Conditional(c, t, f) =>
      if e in Walk(c, path, from, kind) { PartFromSites(c, Sites(x), path, from, kind, e); }
      else if e in Walk(t, path, from, kind) { PartFromSites(t, Sites(x), path, from, kind, e); }
      else { PartFromSites(f, Sites(x), path, from, kind, e); }
    case For(_, coll, key, y, filter, _) =>
      if e in Walk(coll, path, from, kind) { PartFromSites(coll, Sites(x), path, from, kind, e); }
      else if e in Walk(y, path, from, kind) { PartFromSites(y, Sites(x), path, from, kind, e); }
      else if key.Some? && e in Walk(key.value, path, from, kind) { PartFromSites(key.value, Sites(x), path, from, kind, e); }
      else { PartFromSites(filter.value, Sites(x), path, from, kind, e); }
  }

  lemma {:induction false} PartFromSites(part: Expr, sites: set<(seq<string>, Symbolic)>, path: seq<string>, from: string, kind: EdgeKind, e: Edge)
    requires e in Walk(part, path, from, kind) && Sites(part) <= sites
    ensures FromSite(sites, path, from, kind, e)
    decreases part, 1
  {
    WalkFromSites(part, path, from, kind, e);
    MoreSites(Sites(part), sites, path, from, kind, e);
  }

  lemma {:induction false} WalkAllFrom(es: seq<Expr>, path: seq<string>, from: string, kind: EdgeKind, e: Edge) returns (i: nat)
    requires e in WalkAll(es, path, from, kind)
    ensures i < |es| && e in Walk(es[i], path, from, kind)
    decreases |es|
  {
    if e in Walk(es[0], path, from, kind) {
      i := 0;
    } else {
      i := WalkAllFrom(es[1..], path, from, kind, e);
      i := i + 1;
    }
  }

  lemma {:induction false} WalkFieldsFrom(fs: seq<Field>, path: seq<string>, from: string, kind: EdgeKind, e: Edge) returns (i: nat)
    requires e in WalkFields(fs, path, from, kind)
    ensures i < |fs| && e in WalkField(fs[i], path, from, kind)
    decreases |fs|
  {
    if e in WalkField(fs[0], path, from, kind) {
      i := 0;
    } else {
      i := WalkFieldsFrom(fs[1..], path, from, kind, e);
      i := i + 1;
    }
  }

  lemma {:induction false} FieldFromSites(f: Field, path: seq<string>, from: string, kind: EdgeKind, e: Edge)
    requires e in WalkField(f, path, from, kind)
    ensures FromSite(FieldSites(f), path, from, kind, e)
    decreases f, 2
  {
    hide PointsAt, Separated;
    if e in Walk(f.k, path, from, kind) {
      PartFromSites(f.k, FieldSites(f), path, from, kind, e);
    } else if f.k.Literal? && f.k.v.Str? {
      var name := f.k.v.s;
      WalkFromSites(f.v, path + [name], from, kind, e);
      var s :| s in Sites(f.v) && PointsAt(s.1, e.to) && e == Edge(from, e.to, kind, Some(Separated(path + [name] + s.0, ".")));
      var there := ([name] + s.0, s.1);
      assert there in FieldSites(f) && path + there.0 == path + [name] + s.0;
    } else {
      PartFromSites(f.v, FieldSites(f), path, from, kind, e);
    }
  }

  /** A reference in one of the attributes, under that attribute. */
  ghost predicate FromAttributes(attrs: AttributeMap, from: string, kind: EdgeKind, e: Edge) {
    exists i :: 0 <= i < |attrs| && FromSite(Sites(attrs[i].val), [attrs[i].key], from, kind, e)
  }

  lemma {:induction false} AttributesFrom(attrs: AttributeMap, from: string, kind: EdgeKind, e: Edge)
    requires e in WalkAttrs(attrs, from, kind)
    ensures FromAttributes(attrs, from, kind, e) && e.kind == kind
    decreases |attrs|
  {
    if e in Walk(attrs[0].val, [attrs[0].key], from, kind) {
      WalkFromSites(attrs[0].val, [attrs[0].key], from, kind, e);
    } else {
      AttributesFrom(attrs[1..], from, kind, e);
      var i :| 0 <= i < |attrs| - 1 && FromSite(Sites(attrs[1..][i].val), [attrs[1..][i].key], from, kind, e);
      assert attrs[i + 1] == attrs[1..][i];
    }
  }

  /** What an edge says of the configuration it was declared in. */
  ghost predicate Explained(c: Component, e: Edge) {
    match e.kind
    case ExplicitDependsOn => e.attr == None
    case TerragruntDependency => e.attr == None
    case AttrRef => exists r :: r in c.resources && FromAttributes(r.attributes, r.address, AttrRef, e)
    case ModuleInput => exists m :: m in c.modules && FromAttributes(m.inputs, m.address, ModuleInput, e)
  }

  lemma {:induction false} ResourcesExplain(rs: seq<Resource>, e: Edge)
    requires e in ResourcesEdges(rs)
    ensures (e.kind == ExplicitDependsOn && e.attr == None) || (e.kind == AttrRef && exists r :: r in rs && FromAttributes(r.attributes, r.address, AttrRef, e))
    decreases |rs|
  {
    hide FromSite;
    if e in ResourceEdges(rs[0]) {
      if e in WalkAttrs(rs[0].attributes, rs[0].address, AttrRef) {
        AttributesFrom(rs[0].attributes, rs[0].address, AttrRef, e);
        assert rs[0] in rs && e.kind == AttrRef;
      }
    } else {
      ResourcesExplain(rs[1..], e);
    }
  }

  lemma {:induction false} ModulesExplain(ms: seq<ModuleCall>, e: Edge)
    requires e in ModulesEdges(ms)
    ensures e.kind == ModuleInput && exists m :: m in ms && FromAttributes(m.inputs, m.address, ModuleInput, e)
    decreases |ms|
  {
    hide FromSite;
    if e in WalkAttrs(ms[0].inputs, ms[0].address, ModuleInput) {
      AttributesFrom(ms[0].inputs, ms[0].address, ModuleInput, e);
      assert ms[0] in ms;
    } else {
      ModulesExplain(ms[1..], e);
    }
  }

  lemma {:induction false} DependenciesExplain(from: string, deps: seq<Path>, root: Path, e: Edge)
    requires e in DependencyEdges(from, deps, root)
    ensures e.kind == EdgeKind.TerragruntDependency && e.attr == None
    decreases |deps|
  {
    if e in DependencyEdges(from, deps[1..], root) { DependenciesExplain(from, deps[1..], root, e); }
  }

  lemma {:induction false} CandidatesExplained(cs: seq<Component>, root: Path, e: Edge)
    requires e in Candidates(cs, root)
    ensures exists c :: c in cs && Explained(c, e)
    decreases |cs|
  {
    hide FromAttributes, ComponentAddress;
    var c := cs[0];
    if e in ResourcesEdges(c.resources) {
      ResourcesExplain(c.resources, e);
      assert c in cs && Explained(c, e);
    } else if e in ModulesEdges(c.modules) {
      ModulesExplain(c.modules, e);
      assert c in cs && Explained(c, e);
    } else if e in TerragruntEdges(c, root) {
      DependenciesExplain(ComponentAddress(c.path).value, c.terragrunt.value, root, e);
      assert c in cs && Explained(c, e);
    } else {
      CandidatesExplained(cs[1..], root, e);
    }
  }

  lemma {:induction false} PushedFrom(sink: Sink, es: seq<Edge>, e: Edge)
    requires e in PushAll(sink, es).0
    ensures e in sink.0 || e in es
    decreases |es|
  {
    if es != [] { PushedFrom(PushOne(sink, es[0]), es[1..], e); }
  }

  /** A collected edge was there before, or its attribute is the dotted path of attribute and object keys under
      which a reference to its target is written; explicit and Terragrunt edges have none. */
  lemma CollectedEdges(cs: seq<Component>, root: Path, existing: seq<Edge>, e: Edge)
    requires e in Collected(cs, root, existing)
    ensures e in existing || exists c :: c in cs && Explained(c, e)
  {
    var pushed := PushAll((existing, KeysOf(existing)), Candidates(cs, root)).0;
    SortByMembers(pushed, EdgeOrder);
    PushedFrom((existing, KeysOf(existing)), Candidates(cs, root), e);
    if e in Candidates(cs, root) { CandidatesExplained(cs, root, e); }
  }

  // ---- the order ------------------------------------------------------------------------------

  predicate KindNamed(kind: EdgeKind, name: string) {
    match kind
    case ExplicitDependsOn => name == "explicit_depends_on"
    case AttrRef => name == "attr_ref"
    case ModuleInput => name == "module_input"
    case TerragruntDependency => name == "terragrunt_dependency"
  }

  /** By source, then target, then the name of the kind. */
  ghost predicate NotAfter(a: Edge, b: Edge) {
    || ComesBefore(a.from, b.from)
    || (a.from == b.from && ComesBefore(a.to, b.to))
    || (a.from == b.from && a.to == b.to &&
        exists p, q :: KindNamed(a.kind, p) && KindNamed(b.kind, q) && (p == q || ComesBefore(p, q)))
  }

  lemma KeyMeansOrder(a: Edge, b: Edge)
    requires KeyLe(EdgeOrder(a), EdgeOrder(b))
    ensures NotAfter(a, b)
  {
    var p, q := KindName(a.kind), KindName(b.kind);
    var x, y := EdgeOrder(a), EdgeOrder(b);
    assert x[1..] == [a.to, p] && y[1..] == [b.to, q] && x[1..][1..] == [p] && y[1..][1..] == [q];
    assert [p][1..] == [] && [q][1..] == [];
    KeyOrder(x, y);
    KeyOrder(x[1..], y[1..]);
    KeyOrder([p], [q]);
    assert KindNamed(a.kind, p) && KindNamed(b.kind, q);
    hide ComesBefore, KindName;
  }

  /** The collected edges are in this order. */
  lemma EdgesInOrder(cs: seq<Component>, root: Path, existing: seq<Edge>)
    ensures var edges := Collected(cs, root, existing); forall i, j :: 0 <= i < j < |edges| ==> NotAfter(edges[i], edges[j])
  {
    var edges := Collected(cs, root, existing);
    SortBySorts(PushAll((existing, KeysOf(existing)), Candidates(cs, root)).0, EdgeOrder);
    forall i, j | 0 <= i < j < |edges| ensures NotAfter(edges[i], edges[j]) { KeyMeansOrder(edges[i], edges[j]); }
  }
}
