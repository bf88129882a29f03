/** Which expressions print alike: how far the sentinel objects of the canonical printer identify what was
    left symbolic (`exporter/json.rs`). */
module Sentinels {
  import opened Ir
  import opened Json
  import opened Sorting
  import opened Canonical

  /** The expressions printed as a sentinel object. */
  predicate IsSentinel(e: Expr) {
    !e.Literal? && !e.Array? && !e.Object?
  }

  /** The first key of a sentinel object. */
  function Tag(e: Expr): string
    requires IsSentinel(e)
  {
    match e
    case Unresolved(_) => "__kind__"
    case Call(_, _) => "__unresolved_func__"
    case Binary(_, _, _) => "__binary_op__"
    case Unary(_, _) => "__unary_op__"
    case Template(_) => "__template_concat__"
    case Conditional(_, _, _) => "__conditional__"
    case For(_, _, _, _, _, _) => "__for__"
  }

  predicate SameConstructor(a: Expr, b: Expr) {
    match (a, b)
    case (Unresolved(_), Unresolved(_)) => true
    case (Call(_, _), Call(_, _)) => true
    case (Binary(_, _, _), Binary(_, _, _)) => true
    case (Unary(_, _), Unary(_, _)) => true
    case (Template(_), Template(_)) => true
    case (Conditional(_, _, _), Conditional(_, _, _)) => true
    case (For(_, _, _, _, _, _), For(_, _, _, _, _, _)) => true
    case _ => false
  }

  lemma TagsDiffer(a: Expr, b: Expr)
    requires IsSentinel(a) && IsSentinel(b)
    ensures Tag(a) == Tag(b) <==> SameConstructor(a, b)
  {
    assert "__unresolved_func__"[2] == 'u' && "__template_concat__"[2] == 't';
    if a.Call? && b.Template? { assert Tag(a)[2] != Tag(b)[2]; }
    if a.Template? && b.Call? { assert Tag(a)[2] != Tag(b)[2]; }
    assert |"__kind__"| == 8 && |"__unresolved_func__"| == 19 && |"__binary_op__"| == 13 && |"__unary_op__"| == 12;
    assert |"__template_concat__"| == 19 && |"__conditional__"| == 15 && |"__for__"| == 7;
  }

  /** What the text of a sentinel tells: its own data and the trees of its printed parts. Of a `for` these
      are the binders, the collection, the form and the body. */
  predicate SameData(a: Expr, b: Expr, ryu: FloatText) {
    match (a, b)
    case (Unresolved(s), Unresolved(t)) => s == t
    case (Call(m, xs), Call(n, ys)) => m == n && ExprItems(xs, ryu) == ExprItems(ys, ryu)
    case (Binary(o, l, r), Binary(p, m, s)) => o == p && ExprJson(l, ryu) == ExprJson(m, ryu) && ExprJson(r, ryu) == ExprJson(s, ryu)
    case (Unary(o, x), Unary(p, y)) => o == p && ExprJson(x, ryu) == ExprJson(y, ryu)
    case (Template(xs), Template(ys)) => ExprItems(xs, ryu) == ExprItems(ys, ryu)
    case (Conditional(c, t, f), Conditional(d, u, g)) =>
      ExprJson(c, ryu) == ExprJson(d, ryu) && ExprJson(t, ryu) == ExprJson(u, ryu) && ExprJson(f, ryu) == ExprJson(g, ryu)
    case (For(bs, c, _, y, _, o), For(cs, d, _, z, _, p)) =>
      bs == cs && ExprJson(c, ryu) == ExprJson(d, ryu) && ExprJson(y, ryu) == ExprJson(z, ryu) && o == p
    case _ => false
  }

  lemma NamesTell()
    ensures forall o, p :: OpName(o) == OpName(p) ==> o == p
    ensures forall o, p :: UnaryName(o) == UnaryName(p) ==> o == p
  {
    forall o, p | OpName(o) == OpName(p) ensures o == p {
      assert OpName(o)[0] == OpName(p)[0] && OpName(o)[1] == OpName(p)[1];
    }
    forall o, p | UnaryName(o) == UnaryName(p) ensures o == p {
      assert UnaryName(o)[1] == UnaryName(p)[1];
    }
  }

  lemma KindsTell(k: SymbolKind, l: SymbolKind)
    ensures KindName(k) == KindName(l) <==> k == l
  {
    if KindName(k) == KindName(l) {
      assert KindName(k)[0] == KindName(l)[0] && |KindName(k)| == |KindName(l)|;
    }
  }

  lemma StringsTell(a: seq<string>, b: seq<string>)
    ensures Strings(a) == Strings(b) <==> a == b
  {
    if Strings(a) == Strings(b) {
      forall i | 0 <= i < |a| ensures a[i] == b[i] { assert Strings(a)[i] == Strings(b)[i]; }
    }
  }

  lemma TagIsFirst(e: Expr, ryu: FloatText)
    requires IsSentinel(e)
    ensures ExprJson(e, ryu).JObject? && ExprJson(e, ryu).members != [] && ExprJson(e, ryu).members[0].key == Tag(e)
  {
  }

  lemma SameTrees(a: Expr, b: Expr, ryu: FloatText)
    requires SameConstructor(a, b)
    ensures ExprJson(a, ryu) == ExprJson(b, ryu) <==> SameData(a, b, ryu)
  {
    var m, n := ExprJson(a, ryu).members, ExprJson(b, ryu).members;
    NamesTell();
    match (a, b)
    case (Unresolved(s), Unresolved(t)) => KindsTell(s.kind, t.kind); MembersTell(m, n);
    case (For(_, _, _, _, _, _), For(_, _, _, _, _, _)) =>
      StringsTell(a.binders, b.binders);
      MembersTell(m, n);
      MembersTell(m[0].val.members, n[0].val.members);
    case (Conditional(_, _, _), Conditional(_, _, _)) =>
      MembersTell(m, n);
      MembersTell(m[0].val.members, n[0].val.members);
    case _ => MembersTell(m, n);
  }

  lemma MembersTell(m: seq<Entry<Json>>, n: seq<Entry<Json>>)
    ensures m == n <==> |m| == |n| && forall i :: 0 <= i < |m| ==> m[i].key == n[i].key && m[i].val == n[i].val
  {
  }

  /** Two sentinels print alike exactly when they have the same constructor and data. */
  lemma SentinelsPrintAlike(a: Expr, b: Expr, ryu: FloatText)
    requires NumberTokens(ryu) && IsSentinel(a) && IsSentinel(b)
    ensures Render(ExprJson(a, ryu)) == Render(ExprJson(b, ryu)) <==> SameData(a, b, ryu)
  {
    ExprGood(a, ryu);
    ExprGood(b, ryu);
    RenderInjective(ExprJson(a, ryu), ExprJson(b, ryu));
    TagIsFirst(a, ryu);
    TagIsFirst(b, ryu);
    TagsDiffer(a, b);
    if SameConstructor(a, b) { SameTrees(a, b, ryu); }
  }

  /** A `for` is printed without its key and its filter: two of them print alike exactly when everything
      else prints alike. */
  lemma ForTextOmitsKeyAndFilter(a: Expr, b: Expr, ryu: FloatText)
    requires NumberTokens(ryu) && a.For? && b.For?
    ensures Render(ExprJson(a, ryu)) == Render(ExprJson(b, ryu)) <==>
            && a.binders == b.binders && a.objectForm == b.objectForm
            && Render(ExprJson(a.collection, ryu)) == Render(ExprJson(b.collection, ryu))
            && Render(ExprJson(a.yield_, ryu)) == Render(ExprJson(b.yield_, ryu))
  {
    SentinelsPrintAlike(a, b, ryu);
    TextsTell(a.collection, b.collection, ryu);
    TextsTell(a.yield_, b.yield_, ryu);
  }

  lemma TextsTell(a: Expr, b: Expr, ryu: FloatText)
    requires NumberTokens(ryu)
    ensures Render(ExprJson(a, ryu)) == Render(ExprJson(b, ryu)) <==> ExprJson(a, ryu) == ExprJson(b, ryu)
  {
    ExprGood(a, ryu);
    ExprGood(b, ryu);
    RenderInjective(ExprJson(a, ryu), ExprJson(b, ryu));
  }

  /** So two that differ only there are told apart by nothing. */
  lemma KeyAndFilterAreLost(f: Expr, k: Option<Expr>, c: Option<Expr>, ryu: FloatText)
    requires NumberTokens(ryu) && f.For?
    ensures Render(ExprJson(f.(key := k, filter := c), ryu)) == Render(ExprJson(f, ryu))
  {
    ForTextOmitsKeyAndFilter(f.(key := k, filter := c), f, ryu);
  }

  // ---- references and literals ----------------------------------------------------------------

  /** A literal map that looks like an unresolved reference. */
  predicate Impersonates(v: Value, s: Symbolic) {
    && v.Map? && |v.entries| == 2
    && (v.entries == [Entry("__kind__", Str(KindName(s.kind))), Entry("__unresolved__", Str(s.source))] ||
        v.entries == [Entry("__unresolved__", Str(s.source)), Entry("__kind__", Str(KindName(s.kind)))])
  }

  function Reference(s: Symbolic): seq<Entry<Json>> {
    [Entry("__kind__", JString(KindName(s.kind))), Entry("__unresolved__", JString(s.source))]
  }

  /** Sorting two members. */
  lemma SortTwo<V>(a: Entry<V>, b: Entry<V>)
    ensures SortBy([a, b], EntryKey) == if KeyLe(EntryKey(a), EntryKey(b)) then [a, b] else [b, a]
  {
    assert [a, b][1..] == [b];
    assert [b][1..] == [];
    assert SortBy([b], EntryKey) == [b];
    assert SortBy([a, b], EntryKey) == Insert(a, [b], EntryKey);
    assert Insert(a, [], EntryKey) == [a];
  }

  lemma KeysInOrder<V>(a: Entry<V>, b: Entry<V>)
    requires a.key == "__kind__" && b.key == "__unresolved__"
    ensures KeyLe(EntryKey(a), EntryKey(b)) && !KeyLe(EntryKey(b), EntryKey(a))
  {
    SentinelOrder();
    StringsFlip(a.key, b.key);
  }

  /** Which literal values print as the reference `s`: exactly the maps that spell out its sentinel. */
  lemma LiteralReference(v: Value, s: Symbolic, ryu: FloatText)
    ensures ToJson(v, ryu) == JObject(Reference(s)) <==> Impersonates(v, s)
  {
    if v.Map? && |v.entries| == 2 {
      var x, y := v.entries[0], v.entries[1];
      var m, n := Member(x, ryu), Member(y, ryu);
      assert Members(v.entries, ryu) == [m, n];
      assert v.entries == [x, y];
      SortTwo(m, n);
      StringTree(x.val, KindName(s.kind), ryu);
      StringTree(x.val, s.source, ryu);
      StringTree(y.val, KindName(s.kind), ryu);
      StringTree(y.val, s.source, ryu);
      PairIsReference(x, y, s, ryu);
    } else if v.Map? {
      assert |SortBy(Members(v.entries, ryu), EntryKey)| == |v.entries|;
    }
  }

  lemma StringTree(v: Value, t: string, ryu: FloatText)
    ensures ToJson(v, ryu) == JString(t) <==> v == Str(t)
  {
  }

  lemma PairIsReference(x: Entry<Value>, y: Entry<Value>, s: Symbolic, ryu: FloatText)
    ensures SortBy([Member(x, ryu), Member(y, ryu)], EntryKey) == Reference(s) <==> Impersonates(Map([x, y]), s)
  {
    var m, n := Member(x, ryu), Member(y, ryu);
    SortTwo(m, n);
    hide SortBy, KeyLe, ToJson;
    StringTree(x.val, KindName(s.kind), ryu);
    StringTree(x.val, s.source, ryu);
    StringTree(y.val, KindName(s.kind), ryu);
    StringTree(y.val, s.source, ryu);
    MembersTell([m, n], Reference(s));
    MembersTell([n, m], Reference(s));
    if x.key == "__kind__" && y.key == "__unresolved__" { KeysInOrder(m, n); }
    if y.key == "__kind__" && x.key == "__unresolved__" { KeysInOrder(n, m); }
    assert "__kind__"[2] != "__unresolved__"[2];
  }

  /** No canonical text starts with an underscore, so no object key can pass for a sentinel's. */
  lemma KeyTextIsNoTag(e: Expr, ryu: FloatText)
    requires NumberTokens(ryu)
    ensures Render(ExprJson(e, ryu)) != [] && Render(ExprJson(e, ryu))[0] != '_'
  {
    ExprGood(e, ryu);
    var j := ExprJson(e, ryu);
    if j.JNumber? { NumberStart(j.token); }
  }

  lemma ObjectIsNoReference(fields: seq<Field>, s: Symbolic, ryu: FloatText)
    requires NumberTokens(ryu)
    ensures ExprJson(Object(fields), ryu) != JObject(Reference(s))
  {
    var ms := FieldMembers(fields, ryu);
    forall m | m in ms ensures m.key != "__kind__" {
      var i :| 0 <= i < |ms| && ms[i] == m;
      var f := fields[i];
      KeyTextIsNoTag(f.k, ryu);
      assert "__kind__"[0] == '_';
    }
    SortByFrom(ms, EntryKey<Json>);
    hide SortBy;
    assert Reference(s)[0].key == "__kind__";
  }

  /** The `__unresolved__` sentinel tells a reference from everything else, except from a literal map that
      spells the sentinel out. */
  lemma ReferenceIsRecognised(e: Expr, s: Symbolic, ryu: FloatText)
    requires NumberTokens(ryu)
    ensures Render(ExprJson(e, ryu)) == Render(ExprJson(Unresolved(s), ryu)) <==>
            e == Unresolved(s) || (e.Literal? && Impersonates(e.v, s))
  {
    TextsTell(e, Unresolved(s), ryu);
    assert ExprJson(Unresolved(s), ryu) == JObject(Reference(s));
    if IsSentinel(e) {
      SentinelsPrintAlike(e, Unresolved(s), ryu);
    } else if e.Literal? {
      LiteralReference(e.v, s, ryu);
    } else if e.Object? {
      ObjectIsNoReference(e.fields, s, ryu);
    }
  }

  /** Such a map, in either order of its entries, prints the very text of the reference. */
  lemma LiteralPassesForReference(s: Symbolic, ryu: FloatText)
    requires NumberTokens(ryu)
    ensures var kind, source := Entry("__kind__", Str(KindName(s.kind))), Entry("__unresolved__", Str(s.source));
            && Render(ExprJson(Literal(Map([kind, source])), ryu)) == Render(ExprJson(Unresolved(s), ryu))
            && Render(ExprJson(Literal(Map([source, kind])), ryu)) == Render(ExprJson(Unresolved(s), ryu))
  {
    var kind, source := Entry("__kind__", Str(KindName(s.kind))), Entry("__unresolved__", Str(s.source));
    ReferenceIsRecognised(Literal(Map([kind, source])), s, ryu);
    ReferenceIsRecognised(Literal(Map([source, kind])), s, ryu);
  }

  // ---- object keys ----------------------------------------------------------------------------

  lemma {:induction false} EscapeGrows(s: string)
    ensures |Escape(s)| >= |s|
    decreases |s|
  {
    if s != [] { EscapeGrows(s[1..]); }
  }

  lemma LiteralKeyMember(f: Field, name: string, ryu: FloatText)
    requires f.k == Literal(Str(name))
    ensures FieldMember(f, ryu) == Entry(Quote(name), ExprJson(f.v, ryu)) && Quote(name) != name
  {
    assert ExprJson(f.k, ryu) == JString(name);
    EscapeGrows(name);
  }

  /** The value of a literal key `name` sits under `name` quoted once more. */
  ghost predicate KeyedByText(f: Field, members: seq<Entry<Json>>, ryu: FloatText) {
    f.k.Literal? && f.k.v.Str? ==> Quote(f.k.v.s) != f.k.v.s && Entry(Quote(f.k.v.s), ExprJson(f.v, ryu)) in members
  }

  /** Reading an object back gives one member per field, and the field of a literal key is found under that
      key quoted once more, never under the key that was written. */
  lemma ObjectKeyIsQuotedTwice(fields: seq<Field>, ryu: FloatText)
    requires NumberTokens(ryu)
    ensures var read := ParseText(Render(ExprJson(Object(fields), ryu)));
            && read.Some? && read.value.JObject? && multiset(read.value.members) == multiset(FieldMembers(fields, ryu))
            && forall i :: 0 <= i < |fields| ==> KeyedByText(fields[i], read.value.members, ryu)
  {
    hide *;
    ExpressionIsOneText(Object(fields), ryu);
    var members := ObjectTree(fields, ryu);
    forall i | 0 <= i < |fields| ensures KeyedByText(fields[i], members, ryu) {
      MemberKeyed(fields, i, members, ryu);
    }
  }

  lemma ObjectTree(fields: seq<Field>, ryu: FloatText) returns (members: seq<Entry<Json>>)
    ensures ExprJson(Object(fields), ryu) == JObject(members) && multiset(members) == multiset(FieldMembers(fields, ryu))
  {
    members := SortBy(FieldMembers(fields, ryu), EntryKey);
    SortBySorts(FieldMembers(fields, ryu), EntryKey<Json>);
  }

  lemma MemberKeyed(fields: seq<Field>, i: nat, members: seq<Entry<Json>>, ryu: FloatText)
    requires i < |fields| && multiset(members) == multiset(FieldMembers(fields, ryu))
    ensures KeyedByText(fields[i], members, ryu)
  {
    var f := fields[i];
    if f.k.Literal? && f.k.v.Str? {
      LiteralKeyMember(f, f.k.v.s, ryu);
      hide ExprJson, Quote;
      assert FieldMembers(fields, ryu)[i] in multiset(members);
    }
  }

  // ---- what a sentinel says -------------------------------------------------------------------

  /** The names the operators are written under. */
  lemma OperatorNames()
    ensures [OpName(Add), OpName(Sub), OpName(Mul), OpName(Div), OpName(Mod)] == ["Add", "Sub", "Mul", "Div", "Mod"]
    ensures [OpName(Eq), OpName(Ne), OpName(Lt), OpName(Le), OpName(Gt), OpName(Ge)] == ["Eq", "Ne", "Lt", "Le", "Gt", "Ge"]
    ensures [OpName(And), OpName(Or)] == ["And", "Or"]
  {
  }

  /** What reading an expression's text back gives. */
  function Reading(e: Expr, ryu: FloatText): Option<Json> {
    ParseText(Render(ExprJson(e, ryu)))
  }

  /** A float reads back as the number the host wrote, or as null when it wrote none. */
  lemma FloatsRead(f: Float, ryu: FloatText)
    requires NumberTokens(ryu)
    ensures Reading(Literal(Number(f)), ryu) == Some(match ryu(f) case Some(t) => JNumber(t) case None => JNull)
  {
    ReadsTree(Literal(Number(f)), ryu);
  }

  /** Several expressions read back, each from its own text. */
  ghost predicate Readings(es: seq<Expr>, trees: seq<Json>, ryu: FloatText) {
    |trees| == |es| && forall i :: 0 <= i < |es| ==> Reading(es[i], ryu) == Some(trees[i])
  }

  lemma ReadsTree(e: Expr, ryu: FloatText)
    requires NumberTokens(ryu)
    ensures Reading(e, ryu) == Some(ExprJson(e, ryu))
  {
    ExpressionIsOneText(e, ryu);
  }

  lemma ReadsTrees(es: seq<Expr>, ryu: FloatText)
    requires NumberTokens(ryu)
    ensures Readings(es, ExprItems(es, ryu), ryu)
  {
    forall i | 0 <= i < |es| ensures Reading(es[i], ryu) == Some(ExprItems(es, ryu)[i]) { ReadsTree(es[i], ryu); }
  }

  /** Operators, with their operands in place. */
  lemma OperatorsRead(op: BinaryOp, l: Expr, r: Expr, u: UnaryOp, ryu: FloatText)
    requires NumberTokens(ryu)
    ensures Reading(l, ryu).Some? && Reading(r, ryu).Some?
    ensures Reading(Binary(op, l, r), ryu) ==
            Some(JObject([Entry("__binary_op__", JString(OpName(op))),
                          Entry("lhs", Reading(l, ryu).value), Entry("rhs", Reading(r, ryu).value)]))
    ensures Reading(Unary(u, l), ryu) ==
            Some(JObject([Entry("__unary_op__", JString(if u == Neg then "Neg" else "Not")), Entry("operand", Reading(l, ryu).value)]))
  {
    ReadsTree(l, ryu); ReadsTree(r, ryu);
    ReadsTree(Binary(op, l, r), ryu); ReadsTree(Unary(u, l), ryu);
  }

  /** A conditional, each branch under its own name. */
  lemma BranchesRead(c: Expr, t: Expr, f: Expr, ryu: FloatText)
    requires NumberTokens(ryu)
    ensures Reading(c, ryu).Some? && Reading(t, ryu).Some? && Reading(f, ryu).Some?
    ensures Reading(Conditional(c, t, f), ryu) ==
            Some(JObject([Entry("__conditional__",
                                JObject([Entry("cond", Reading(c, ryu).value), Entry("else", Reading(f, ryu).value),
                                         Entry("then", Reading(t, ryu).value)]))]))
  {
    ReadsTree(c, ryu); ReadsTree(t, ryu); ReadsTree(f, ryu);
    ReadsTree(Conditional(c, t, f), ryu);
    hide Reading;
  }

  /** The texts of binder names. */
  predicate NamesRead(binders: seq<string>, names: seq<Json>) {
    |names| == |binders| && forall i :: 0 <= i < |names| ==> names[i] == JString(binders[i])
  }

  /** A comprehension: its binders, collection, form and body. */
  lemma ForReads(loop: Expr, ryu: FloatText)
    requires NumberTokens(ryu) && loop.For?
    ensures Reading(loop.collection, ryu).Some? && Reading(loop.yield_, ryu).Some?
    ensures exists names ::
              && NamesRead(loop.binders, names)
              && Reading(loop, ryu) ==
                 Some(JObject([Entry("__for__",
                                     JObject([Entry("binders", JArray(names)), Entry("collection", Reading(loop.collection, ryu).value),
                                              Entry("object_form", JBool(loop.objectForm)), Entry("value", Reading(loop.yield_, ryu).value)]))]))
  {
    ReadsTree(loop.collection, ryu); ReadsTree(loop.yield_, ryu); ReadsTree(loop, ryu);
    hide Reading;
    assert NamesRead(loop.binders, Strings(loop.binders));
  }

  /** Arrays, templates and calls list their parts in order. */
  lemma ListsRead(es: seq<Expr>, name: string, ryu: FloatText)
    requires NumberTokens(ryu)
    ensures exists trees ::
              && Readings(es, trees, ryu)
              && Reading(Array(es), ryu) == Some(JArray(trees))
              && Reading(Template(es), ryu) == Some(JObject([Entry("__template_concat__", JArray(trees))]))
              && Reading(Call(name, es), ryu) ==
                 Some(JObject([Entry("__unresolved_func__", JString(name)), Entry("args", JArray(trees))]))
  {
    ReadsTrees(es, ryu);
    ReadsTree(Array(es), ryu); ReadsTree(Template(es), ryu); ReadsTree(Call(name, es), ryu);
    var trees := ExprItems(es, ryu);
    hide Reading, Readings, ExprItems;
    assert Readings(es, trees, ryu);
  }

  /** A reference is its kind and its source. */
  lemma ReferenceReads(sym: Symbolic, ryu: FloatText)
    requires NumberTokens(ryu)
    ensures exists kind :: KindIs(kind, sym.kind) &&
              Reading(Unresolved(sym), ryu) ==
              Some(JObject([Entry("__kind__", JString(kind)), Entry("__unresolved__", JString(sym.source))]))
  {
    ReadsTree(Unresolved(sym), ryu);
    KindNames(sym.kind);
    hide Reading, KindIs, KindName;
  }

  lemma KindNames(k: SymbolKind)
    ensures KindIs(KindName(k), k)
  {
    forall l ensures KindName(k) == KindName(l) <==> k == l { KindsTell(k, l); }
    assert KindName(SymbolKind.Resource) == "Resource" && KindName(Data) == "Data" && KindName(Module) == "Module";
    assert KindName(Var) == "Var" && KindName(Local) == "Local" && KindName(Path) == "Path";
    assert KindName(Iteration) == "Iteration" && KindName(Terraform) == "Terraform";
    assert KindName(TerragruntDependency) == "TerragruntDependency" && KindName(Other) == "Other";
  }

  /** The name a kind is written under is its own. */
  predicate KindIs(kind: string, k: SymbolKind) {
    && (kind == "Resource" <==> k == SymbolKind.Resource) && (kind == "Data" <==> k == Data) && (kind == "Module" <==> k == Module)
    && (kind == "Var" <==> k == Var) && (kind == "Local" <==> k == Local) && (kind == "Path" <==> k == Path)
    && (kind == "Iteration" <==> k == Iteration) && (kind == "Terraform" <==> k == Terraform)
    && (kind == "TerragruntDependency" <==> k == TerragruntDependency) && (kind == "Other" <==> k == Other)
  }

  /** An attribute map reads back as one member per attribute, under the attribute's name. */
  lemma AttributesRead(m: AttributeMap, ryu: FloatText)
    requires NumberTokens(ryu)
    ensures exists members :: ParseText(Render(AttributesJson(m, ryu))) == Some(JObject(members)) && |members| == |m| &&
              multiset(members) == multiset(Attributes(m, ryu)) && Sorted(members, EntryKey) &&
              forall i :: 0 <= i < |m| ==> Attributes(m, ryu)[i].key == m[i].key && Reading(m[i].val, ryu) == Some(Attributes(m, ryu)[i].val)
  {
    AttributesAreOneText(m, ryu);
    SortBySorts(Attributes(m, ryu), EntryKey<Json>);
    var members := SortBy(Attributes(m, ryu), EntryKey);
    forall i | 0 <= i < |m| ensures Attributes(m, ryu)[i].key == m[i].key && Reading(m[i].val, ryu) == Some(Attributes(m, ryu)[i].val) {
      ReadsTree(m[i].val, ryu);
    }
    assert ParseText(Render(AttributesJson(m, ryu))) == Some(JObject(members));
  }

  /** An object reads back as one member per field, under the text of its key. */
  lemma ObjectFieldsRead(fields: seq<Field>, ryu: FloatText)
    requires NumberTokens(ryu)
    ensures exists members, inOrder ::
              && Reading(Object(fields), ryu) == Some(JObject(members)) && multiset(members) == multiset(inOrder)
              && FieldsRead(fields, inOrder, ryu) && Sorted(members, EntryKey)
  {
    ReadsTree(Object(fields), ryu);
    var inOrder := FieldMembers(fields, ryu);
    SortBySorts(inOrder, EntryKey<Json>);
    forall i | 0 <= i < |fields| ensures Reading(fields[i].v, ryu) == Some(inOrder[i].val) { ReadsTree(fields[i].v, ryu); }
    assert FieldsRead(fields, inOrder, ryu);
    hide Reading, FieldsRead;
    assert multiset(SortBy(inOrder, EntryKey)) == multiset(inOrder);
  }

  ghost predicate FieldsRead(fields: seq<Field>, members: seq<Entry<Json>>, ryu: FloatText) {
    |members| == |fields| && forall i :: 0 <= i < |fields| ==>
      members[i].key == Render(ExprJson(fields[i].k, ryu)) && Reading(fields[i].v, ryu) == Some(members[i].val)
  }
}
