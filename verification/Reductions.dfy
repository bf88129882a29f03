/** What reduction gives, construct by construct, said of `Reduce` on concrete operands
    (`eval/reduce.rs`): references, operators, templates, collections and the index of a comprehension. */
module Reductions {
  import opened Ir
  import opened Seqs
  import opened Text
  import opened Reducer
  import opened Semantics
  import opened Comprehensions
  import opened Sorting
  import opened Readback

  // ---- references -----------------------------------------------------------------------------

  /** Following attribute names from a value into nested maps. */
  function Along(v: Value, names: seq<string>): Option<Value>
    decreases |names|
  {
    if names == [] then Some(v)
    else if !v.Map? then None
    else match Find(v.entries, names[0]) case Some(w) => Along(w, names[1..]) case None => None
  }

  /** A dotted path: every name preceded by its dot. */
  function Dotted(names: seq<string>): string {
    if names == [] then "" else "." + (names[0] + Dotted(names[1..]))
  }

  predicate AttributeNames(names: seq<string>) {
    forall i :: 0 <= i < |names| ==> names[i] != "" && '.' !in names[i]
  }

  lemma SplitPath(x: string, names: seq<string>)
    requires '.' !in x
    ensures Head(x + Dotted(names)) == x
    ensures Tail(x + Dotted(names)) == if names == [] then "" else names[0] + Dotted(names[1..])
  {
    if names == [] {
      assert x + Dotted(names) == x;
      HeadUndotted(x);
    } else {
      var rest := names[0] + Dotted(names[1..]);
      ConcatAssoc(x, ".", rest);
      hide Dotted, Head, Tail;
      SplitDotted(x, rest);
    }
  }

  lemma {:induction false} DescendsAlong(v: Value, names: seq<string>)
    requires AttributeNames(names)
    ensures Descend(v, if names == [] then "" else names[0] + Dotted(names[1..])) == Along(v, names)
    decreases |names|
  {
    if names != [] {
      SplitPath(names[0], names[1..]);
      if v.Map? && Find(v.entries, names[0]).Some? { DescendsAlong(Find(v.entries, names[0]).value, names[1..]); }
    }
  }

  /** `var.x.a.b` reads attribute `b` of attribute `a` of the variable `x`, `local.x.a.b` of the local; it
      is left as it is when the name is not bound or the path leads nowhere. */
  lemma ReferenceReads(x: string, names: seq<string>, s: Scope, h: Host)
    requires '.' !in x && AttributeNames(names)
    ensures var e := Unresolved(Symbolic(SymbolKind.Var, "var." + (x + Dotted(names))));
            Reduce(e, s, h) == OrLiteral(if Find(s.vars, x).Some? then Along(Find(s.vars, x).value, names) else None, e)
    ensures var e := Unresolved(Symbolic(SymbolKind.Local, "local." + (x + Dotted(names))));
            Reduce(e, s, h) == OrLiteral(if Find(s.locals, x).Some? then Along(Find(s.locals, x).value, names) else None, e)
  {
    PathReads(Unresolved(Symbolic(SymbolKind.Var, "var." + (x + Dotted(names)))), s.vars, "var.", x, names);
    PathReads(Unresolved(Symbolic(SymbolKind.Local, "local." + (x + Dotted(names)))), s.locals, "local.", x, names);
    hide ReducePath, Along, Dotted, OrLiteral;
  }

  lemma PathReads(e: Expr, bindings: ValueMap, prefix: string, x: string, names: seq<string>)
    requires '.' !in x && AttributeNames(names)
    ensures ReducePath(e, bindings, prefix, prefix + (x + Dotted(names))) ==
            OrLiteral(if Find(bindings, x).Some? then Along(Find(bindings, x).value, names) else None, e)
  {
    var rest := x + Dotted(names);
    SplitPath(x, names);
    assert (prefix + rest)[|prefix|..] == rest && StripPrefix(prefix + rest, prefix) == rest;
    if Find(bindings, x).Some? { DescendsAlong(Find(bindings, x).value, names); }
    hide Dotted, Descend, Along, StripPrefix, Find;
  }

  /** The workspace name and bare identifiers are the only other references that reduction resolves. */
  lemma OtherReferences(sym: Symbolic, s: Scope, h: Host)
    requires sym.kind != SymbolKind.Var && sym.kind != SymbolKind.Local
    ensures Reduce(Unresolved(sym), s, h) ==
            if sym == Symbolic(SymbolKind.Terraform, "terraform.workspace") && s.workspace.Some? then Literal(Str(s.workspace.value))
            else if sym.kind == Other && Find(s.binders, sym.source).Some? then Literal(Find(s.binders, sym.source).value)
            else Unresolved(sym)
  {
  }

  // ---- operators ------------------------------------------------------------------------------

  /** The value a binary operator gives on two literals. */
  function Result(op: BinaryOp, a: Value, b: Value, s: Scope, h: Host): Option<Value> {
    AsLiteral(Reduce(Binary(op, Literal(a), Literal(b)), s, h))
  }

  lemma ResultFolds(op: BinaryOp, a: Value, b: Value, s: Scope, h: Host)
    ensures Result(op, a, b, s, h) == EvalBinary(op, a, b, h.floats)
  {
    hide EvalBinary;
    assert Reduce(Literal(a), s, h) == Literal(a) && Reduce(Literal(b), s, h) == Literal(b);
  }

  /** Only the reduced operands count, the left one first. */
  lemma OperandsReduceFirst(op: BinaryOp, l: Expr, r: Expr, s: Scope, h: Host)
    ensures Reduce(Binary(op, l, r), s, h) == Reduce(Binary(op, Reduce(l, s, h), Reduce(r, s, h)), s, h)
    ensures Reduce(Binary(op, l, r), s, h).Literal? <==>
              Reduce(l, s, h).Literal? && Reduce(r, s, h).Literal? && Result(op, Reduce(l, s, h).v, Reduce(r, s, h).v, s, h).Some?
    ensures !Reduce(Binary(op, l, r), s, h).Literal? ==>
              Reduce(Binary(op, l, r), s, h) == Binary(op, Reduce(l, s, h), Reduce(r, s, h))
  {
    ReduceIdempotent(l, s, h);
    ReduceIdempotent(r, s, h);
  }

  /** Integer arithmetic and comparison, with the operands in place. */
  lemma IntegersCompute(a: i64, b: i64, s: Scope, h: Host)
    ensures Result(Add, Int(a), Int(b), s, h) == (if InI64(a + b) then Some(Int(a + b)) else None)
    ensures Result(Sub, Int(a), Int(b), s, h) == (if InI64(a - b) then Some(Int(a - b)) else None)
    ensures Result(Mul, Int(a), Int(b), s, h) == (if InI64(a * b) then Some(Int(a * b)) else None)
    ensures Result(Lt, Int(a), Int(b), s, h) == Some(Bool(a < b)) && Result(Ge, Int(a), Int(b), s, h) == Some(Bool(a >= b))
    ensures Result(Gt, Int(a), Int(b), s, h) == Some(Bool(a > b)) && Result(Le, Int(a), Int(b), s, h) == Some(Bool(a <= b))
  {
    forall op | op in {Add, Sub, Mul, Lt, Le, Gt, Ge} ensures Result(op, Int(a), Int(b), s, h) == EvalBinary(op, Int(a), Int(b), h.floats) {
      ResultFolds(op, Int(a), Int(b), s, h);
    }
    hide Result;
  }

  /** Strings are appended in this order and compared character by character; logic is the truth table. */
  lemma StringsAndLogicCompute(p: string, q: string, c: bool, d: bool, s: Scope, h: Host)
    ensures Result(Add, Str(p), Str(q), s, h) == Some(Str(p + q))
    ensures Result(Lt, Str(p), Str(q), s, h) == Some(Bool(ComesBefore(p, q)))
    ensures Result(And, Bool(c), Bool(d), s, h) == Some(Bool(c && d)) && Result(Or, Bool(c), Bool(d), s, h) == Some(Bool(c || d))
  {
    ResultFolds(Add, Str(p), Str(q), s, h);
    ResultFolds(Lt, Str(p), Str(q), s, h);
    ResultFolds(And, Bool(c), Bool(d), s, h);
    ResultFolds(Or, Bool(c), Bool(d), s, h);
    StringOrder(p, q);
    hide Result, ComesBefore, CompareStrings;
  }

  /** Floats, and integers among them, go to the host in this order. */
  lemma FloatsCompute(op: BinaryOp, a: Value, b: Value, s: Scope, h: Host)
    requires (a.Number? && (b.Number? || b.Int?)) || (a.Int? && b.Number?)
    ensures var fl := h.floats;
            var x, y := if a.Int? then fl.ofInt(a.n) else a.f, if b.Int? then fl.ofInt(b.n) else b.f;
            && (op in {Add, Sub, Mul, Mod} ==> Result(op, a, b, s, h) == Some(Number(fl.arith(op, x, y))))
            && (op == Div ==> Result(op, a, b, s, h) == if fl.isZero(y) then None else Some(Number(fl.arith(Div, x, y))))
            && (op == Lt ==> Result(op, a, b, s, h) == match fl.cmp(x, y) case Some(o) => Some(Bool(o == Less)) case None => None)
  {
    ResultFolds(op, a, b, s, h);
  }

  lemma {:induction false} SameIsEqual(a: Value, b: Value, fl: Floats)
    requires FloatFree(a) && FloatFree(b)
    ensures SameValue(a, b, fl) <==> a == b
    decreases a
  {
    match (a, b)
    case (List(xs), List(ys)) =>
      if |xs| == |ys| {
        forall i | 0 <= i < |xs| ensures SameValue(xs[i], ys[i], fl) <==> xs[i] == ys[i] { SameIsEqual(xs[i], ys[i], fl); }
        assert xs == ys <==> forall i :: 0 <= i < |xs| ==> xs[i] == ys[i];
      }
    case (Map(xs), Map(ys)) =>
      if |xs| == |ys| {
        forall i | 0 <= i < |xs|
          ensures xs[i].key == ys[i].key && SameValue(xs[i].val, ys[i].val, fl) <==> xs[i] == ys[i]
        {
          assert FloatFreeEntry(xs[i]) && FloatFreeEntry(ys[i]);
          SameIsEqual(xs[i].val, ys[i].val, fl);
        }
        assert xs == ys <==> forall i :: 0 <= i < |xs| ==> xs[i] == ys[i];
      }
    case _ =>
  }

  /** `==` on float-free values is equality, entry order of maps included; `!=` is its opposite. */
  lemma EqualityIsStructural(a: Value, b: Value, s: Scope, h: Host)
    requires FloatFree(a) && FloatFree(b)
    ensures Result(Eq, a, b, s, h) == Some(Bool(a == b)) && Result(Ne, a, b, s, h) == Some(Bool(a != b))
  {
    SameIsEqual(a, b, h.floats);
    ResultFolds(Eq, a, b, s, h);
    ResultFolds(Ne, a, b, s, h);
  }

  lemma UnaryComputes(n: i64, b: bool, f: Float, s: Scope, h: Host)
    ensures AsLiteral(Reduce(Unary(Neg, Literal(Int(n))), s, h)) == if InI64(0 - n) then Some(Int(0 - n)) else None
    ensures Reduce(Unary(Neg, Literal(Number(f))), s, h) == Literal(Number(h.floats.neg(f)))
    ensures Reduce(Unary(Not, Literal(Bool(b))), s, h) == Literal(Bool(!b))
  {
  }

  // ---- templates ------------------------------------------------------------------------------

  function Lits(vs: seq<Value>): seq<Expr> {
    seq(|vs|, i requires 0 <= i < |vs| => Literal(vs[i]))
  }

  /** The text of a template whose parts are these literals. */
  function TextOf(vs: seq<Value>, s: Scope, h: Host): string {
    match Reduce(Template(Lits(vs)), s, h)
    case Literal(Str(text)) => text
    case _ => ""
  }

  /** The text a single value contributes. */
  function Piece(v: Value, s: Scope, h: Host): string {
    TextOf([v], s, h)
  }

  lemma LitsReduce(vs: seq<Value>, s: Scope, h: Host)
    ensures ReduceAll(Lits(vs), s, h) == Lits(vs) && Literals(Lits(vs)) == Some(vs)
  {
    var es := Lits(vs);
    assert ReduceAll(es, s, h) == es;
    var opts := seq(|es|, i requires 0 <= i < |es| => AsLiteral(es[i]));
    assert forall i :: 0 <= i < |es| ==> opts[i] == Some(vs[i]);
    assert AllSome(opts).value == vs;
  }

  lemma TemplateShows(vs: seq<Value>, s: Scope, h: Host)
    ensures Reduce(Template(Lits(vs)), s, h) == Literal(Str(ShowAll(vs, h.floats)))
    ensures TextOf(vs, s, h) == ShowAll(vs, h.floats)
  {
    LitsReduce(vs, s, h);
  }

  lemma {:induction false} ConcatSplits(a: seq<string>, b: seq<string>)
    ensures Concat(a + b) == Concat(a) + Concat(b)
    decreases |a|
  {
    if a == [] {
      assert a + b == b;
    } else {
      assert (a + b)[1..] == a[1..] + b;
      ConcatSplits(a[1..], b);
    }
  }

  lemma ShowSplits(a: seq<Value>, b: seq<Value>, fl: Floats)
    ensures ShowAll(a + b, fl) == ShowAll(a, fl) + ShowAll(b, fl)
  {
    var p, q := seq(|a|, i requires 0 <= i < |a| => Show(a[i], fl)), seq(|b|, i requires 0 <= i < |b| => Show(b[i], fl));
    assert seq(|a + b|, i requires 0 <= i < |a + b| => Show((a + b)[i], fl)) == p + q;
    ConcatSplits(p, q);
  }

  lemma PieceShows(v: Value, s: Scope, h: Host)
    ensures Piece(v, s, h) == Show(v, h.floats)
  {
    TemplateShows([v], s, h);
    hide Show;
    var one := seq(|[v]|, i requires 0 <= i < |[v]| => Show([v][i], h.floats));
    assert one == [Show(v, h.floats)];
    assert one[1..] == [] && Concat(one) == one[0] + "";
  }

  /** A template of literals becomes the texts of its parts, one after the other. */
  lemma TemplateConcatenates(a: seq<Value>, b: seq<Value>, s: Scope, h: Host)
    ensures Reduce(Template(Lits(a)), s, h) == Literal(Str(TextOf(a, s, h)))
    ensures TextOf([], s, h) == ""
    ensures TextOf(a + b, s, h) == TextOf(a, s, h) + TextOf(b, s, h)
  {
    TemplateShows(a, s, h);
    TemplateShows(b, s, h);
    TemplateShows([], s, h);
    TemplateShows(a + b, s, h);
    ShowSplits(a, b, h.floats);
  }

  /** Scalars: a string is itself, an integer its decimal text, null nothing. */
  lemma ScalarPieces(t: string, b: bool, n: i64, f: Float, s: Scope, h: Host)
    ensures Piece(Str(t), s, h) == t
    ensures Piece(Bool(b), s, h) == (if b then "true" else "false")
    ensures Piece(Null, s, h) == ""
    ensures Piece(Number(f), s, h) == h.floats.show(f)
    ensures var text := Piece(Int(n), s, h);
            IntOf(text) == Some(n as int) && text != [] && (n >= 0 ==> text[0] != '-') && (text[0] == '0' ==> text == "0")
  {
    PieceShows(Str(t), s, h);
    PieceShows(Bool(b), s, h);
    PieceShows(Null, s, h);
    PieceShows(Number(f), s, h);
    PieceShows(Int(n), s, h);
    IntReads(n);
    if n >= 0 { NoLeadingZero(n); }
  }

  /** Between brackets or braces the texts of the elements, separated by a comma and a blank; a map entry
      is its key, an equals sign between blanks, and its value's text. */
  lemma CollectionPieces(items: seq<Value>, x: Value, es: ValueMap, e: Entry<Value>, s: Scope, h: Host)
    ensures Piece(List([]), s, h) == "[]" && Piece(Map([]), s, h) == "{  }"
    ensures exists inner :: Piece(List(items), s, h) == "[" + inner + "]" &&
              Piece(List(items + [x]), s, h) == "[" + inner + (if items == [] then "" else ", ") + Piece(x, s, h) + "]"
    ensures exists inner :: Piece(Map(es), s, h) == "{ " + inner + " }" &&
              Piece(Map(es + [e]), s, h) == "{ " + inner + (if es == [] then "" else ", ") + (e.key + " = " + Piece(e.val, s, h)) + " }"
  {
    hide Piece;
    ListPiece(items, x, s, h);
    MapPiece(es, e, s, h);
    ListPiece([], x, s, h);
    MapPiece([], e, s, h);
  }

  function ShownItems(items: seq<Value>, fl: Floats): seq<string> {
    seq(|items|, i requires 0 <= i < |items| => Show(items[i], fl))
  }

  function ShownEntries(es: ValueMap, fl: Floats): seq<string> {
    seq(|es|, i requires 0 <= i < |es| => es[i].key + " = " + Show(es[i].val, fl))
  }

  lemma ShowList(items: seq<Value>, x: Value, fl: Floats)
    ensures Show(List(items), fl) == "[" + Join(ShownItems(items, fl), ", ") + "]"
    ensures ShownItems(items + [x], fl) == ShownItems(items, fl) + [Show(x, fl)]
  {
  }

  lemma ShowMap(es: ValueMap, e: Entry<Value>, fl: Floats)
    ensures Show(Map(es), fl) == "{ " + Join(ShownEntries(es, fl), ", ") + " }"
    ensures ShownEntries(es + [e], fl) == ShownEntries(es, fl) + [e.key + " = " + Show(e.val, fl)]
  {
  }

  lemma Around(before: string, inner: string, sep: string, last: string, after: string)
    ensures before + (inner + sep + last) + after == before + inner + sep + last + after
  {
  }

  lemma ListPiece(items: seq<Value>, x: Value, s: Scope, h: Host)
    ensures var inner := Join(ShownItems(items, h.floats), ", ");
            && Piece(List(items), s, h) == "[" + inner + "]"
            && Piece(List(items + [x]), s, h) == "[" + inner + (if items == [] then "" else ", ") + Piece(x, s, h) + "]"
            && (items == [] ==> inner == "")
  {
    assert Join([], ", ") == "";
    PieceShows(x, s, h);
    PieceShows(List(items), s, h);
    PieceShows(List(items + [x]), s, h);
    ShowList(items, x, h.floats);
    ShowList(items + [x], x, h.floats);
    var parts := ShownItems(items, h.floats);
    assert items == [] <==> parts == [];
    hide Show, Piece, ShownItems, Join;
    JoinSnoc(parts, Show(x, h.floats), ", ");
    Around("[", Join(parts, ", "), if items == [] then "" else ", ", Show(x, h.floats), "]");
  }

  lemma MapPiece(es: ValueMap, e: Entry<Value>, s: Scope, h: Host)
    ensures var inner := Join(ShownEntries(es, h.floats), ", ");
            && Piece(Map(es), s, h) == "{ " + inner + " }"
            && Piece(Map(es + [e]), s, h) ==
               "{ " + inner + (if es == [] then "" else ", ") + (e.key + " = " + Piece(e.val, s, h)) + " }"
            && (es == [] ==> inner == "")
  {
    assert Join([], ", ") == "";
    PieceShows(e.val, s, h);
    PieceShows(Map(es), s, h);
    PieceShows(Map(es + [e]), s, h);
    ShowMap(es, e, h.floats);
    ShowMap(es + [e], e, h.floats);
    var parts := ShownEntries(es, h.floats);
    assert es == [] <==> parts == [];
    hide Show, Piece, ShownEntries, Join;
    JoinSnoc(parts, e.key + " = " + Show(e.val, h.floats), ", ");
    Around("{ ", Join(parts, ", "), if es == [] then "" else ", ", e.key + " = " + Show(e.val, h.floats), " }");
  }

  /** A template in which some part stays symbolic keeps its reduced parts; otherwise it is the template of
      their values. */
  lemma TemplateReducesParts(parts: seq<Expr>, vs: seq<Value>, s: Scope, h: Host)
    ensures (exists i :: 0 <= i < |parts| && !Reduce(parts[i], s, h).Literal?) ==>
              Reduce(Template(parts), s, h) == Template(ReduceAll(parts, s, h))
    ensures ReduceAll(parts, s, h) == Lits(vs) ==> Reduce(Template(parts), s, h) == Literal(Str(TextOf(vs, s, h)))
  {
    if i :| 0 <= i < |parts| && !Reduce(parts[i], s, h).Literal? {
      NoLiterals(ReduceAll(parts, s, h), i);
    }
    if ReduceAll(parts, s, h) == Lits(vs) {
      LitsReduce(vs, s, h);
      TemplateShows(vs, s, h);
    }
  }

  lemma NoLiterals(es: seq<Expr>, i: nat)
    requires i < |es| && !es[i].Literal?
    ensures Literals(es).None?
  {
    assert seq(|es|, k requires 0 <= k < |es| => AsLiteral(es[k]))[i] == None;
  }

  /** `"<text>${var.x}"` with a string in `x` is the text followed by that string. */
  lemma TextAndVariable(text: string, x: string, t: string, s: Scope, h: Host)
    requires '.' !in x && Find(s.vars, x) == Some(Str(t))
    ensures Reduce(Template([Literal(Str(text)), Unresolved(Symbolic(SymbolKind.Var, "var." + x))]), s, h) == Literal(Str(text + t))
  {
    var use := Unresolved(Symbolic(SymbolKind.Var, "var." + x));
    ReferenceReads(x, [], s, h);
    assert x + Dotted([]) == x;
    var parts, vs := [Literal(Str(text)), use], [Str(text), Str(t)];
    assert ReduceAll(parts, s, h) == Lits(vs);
    TemplateReducesParts(parts, vs, s, h);
    assert vs == [Str(text)] + [Str(t)];
    TemplateConcatenates([Str(text)], [Str(t)], s, h);
    ScalarPieces(text, true, 0, Float(0), s, h);
    ScalarPieces(t, true, 0, Float(0), s, h);
  }

  // ---- collections, calls, conditionals -------------------------------------------------------

  function FieldsOf(m: ValueMap): seq<Field> {
    seq(|m|, i requires 0 <= i < |m| => Field(Literal(Str(m[i].key)), Literal(m[i].val)))
  }

  /** Literal elements make a list and literal fields a map, in the order written; a call on literals asks
      the registry and is kept when it has no answer. */
  lemma CollectionsCompute(vs: seq<Value>, m: ValueMap, name: string, s: Scope, h: Host)
    ensures Reduce(Array(Lits(vs)), s, h) == Literal(List(vs))
    ensures Reduce(Object(FieldsOf(m)), s, h) == Literal(Map(m))
    ensures Reduce(Call(name, Lits(vs)), s, h) == OrLiteral(h.funcs(name, vs), Call(name, Lits(vs)))
  {
    LitsReduce(vs, s, h);
    var fs := FieldsOf(m);
    forall i | 0 <= i < |fs| ensures ReduceField(fs[i], s, h) == fs[i] {}
    assert ReduceFields(fs, s, h) == fs;
    var opts := seq(|fs|, i requires 0 <= i < |fs| => ObjectEntry(AsLiteral(fs[i].k), AsLiteral(fs[i].v)));
    assert forall i :: 0 <= i < |fs| ==> opts[i] == Some(m[i]);
    assert AllSome(opts).value == m;
  }

  /** A key that is no string keeps the object symbolic. */
  lemma OddKeyStays(fs: seq<Field>, i: nat, s: Scope, h: Host)
    requires i < |fs| && !(Reduce(fs[i].k, s, h).Literal? && Reduce(fs[i].k, s, h).v.Str? && Reduce(fs[i].v, s, h).Literal?)
    ensures Reduce(Object(fs), s, h) == Object(ReduceFields(fs, s, h))
  {
    var fs' := ReduceFields(fs, s, h);
    assert fs'[i] == ReduceField(fs[i], s, h);
    assert seq(|fs'|, k requires 0 <= k < |fs'| => ObjectEntry(AsLiteral(fs'[k].k), AsLiteral(fs'[k].v)))[i] == None;
  }

  /** The test picks the branch; unless it is a boolean both are kept. */
  lemma ConditionalPicks(c: Expr, t: Expr, f: Expr, s: Scope, h: Host)
    ensures Reduce(c, s, h) == Literal(Bool(true)) ==> Reduce(Conditional(c, t, f), s, h) == Reduce(t, s, h)
    ensures Reduce(c, s, h) == Literal(Bool(false)) ==> Reduce(Conditional(c, t, f), s, h) == Reduce(f, s, h)
    ensures (forall b :: Reduce(c, s, h) != Literal(Bool(b))) ==>
              Reduce(Conditional(c, t, f), s, h) == Conditional(Reduce(c, s, h), Reduce(t, s, h), Reduce(f, s, h))
  {
    if Reduce(c, s, h).Literal? && Reduce(c, s, h).v.Bool? {
      assert Reduce(c, s, h) == Literal(Bool(Reduce(c, s, h).v.b));
    }
  }

  // ---- the index of a comprehension over a list -----------------------------------------------

  /** `[for i, x in items : use]` */
  function Indexing(i: string, x: string, items: seq<Value>, use: string): Expr {
    For([i, x], Literal(List(items)), None, Name(use), None, false)
  }

  function Indices(n: nat): seq<Value> {
    seq(n, k requires 0 <= k < n => Int(if k <= I64_MAX then k else I64_MAX))
  }

  function Picked(pairs: seq<(Value, Value)>, first: bool): seq<Value> {
    seq(|pairs|, k requires 0 <= k < |pairs| => if first then pairs[k].0 else pairs[k].1)
  }

  /** The rows of a comprehension that yields one of its two binders. */
  lemma {:induction false} IndexRows(f: Expr, i: string, x: string, pairs: seq<(Value, Value)>, first: bool, s: Scope, h: Host)
    requires f.For? && f.binders == [i, x] && f.key.None? && f.filter.None? && !f.objectForm
    requires i != x && i !in Keys(s.binders) && x !in Keys(s.binders) && f.yield_ == Name(if first then i else x)
    ensures ReduceRows(f, pairs, s, h) == Some(Unkeyed(Picked(pairs, first)))
    decreases |pairs|
  {
    var vs := Picked(pairs, first);
    hide Reduce, ReduceRow, ReduceRows;
    if pairs == [] {
      assert Unkeyed(vs) == [];
      NoRows(f, s, h);
    } else {
      var rest := Picked(pairs[1..], first);
      assert vs == [vs[0]] + rest;
      IndexRows(f, i, x, pairs[1..], first, s, h);
      PairStep(f, i, x, pairs, s, h);
      IndexRow(f, i, x, pairs[0], first, s, h);
      assert Unkeyed(vs) == [Entry("", vs[0])] + Unkeyed(rest);
    }
  }

  lemma NoRows(f: Expr, s: Scope, h: Host)
    requires f.For?
    ensures ReduceRows(f, [], s, h) == Some([])
  {
  }

  lemma IndexRow(f: Expr, i: string, x: string, pair: (Value, Value), first: bool, s: Scope, h: Host)
    requires f.For? && f.key.None? && f.filter.None? && !f.objectForm && f.yield_ == Name(if first then i else x)
    requires i != x && i !in Keys(s.binders) && x !in Keys(s.binders)
    ensures ReduceRow(f, BindTwo(s, i, x, pair), h) == Yield("", if first then pair.0 else pair.1)
  {
    var a, b := Entry(i, pair.0), Entry(x, pair.1);
    FindIsFirst(s.binders, i);
    FindIsFirst(s.binders, x);
    FindAppend(s.binders, [a, b], i);
    FindAppend(s.binders, [a, b], x);
    assert [a, b][1..] == [b];
  }

  /** Over a list the first of two binders is the index, from 0, and the second the item. */
  lemma ListsIndex(i: string, x: string, items: seq<Value>, s: Scope, h: Host)
    requires i != x && i !in Keys(s.binders) && x !in Keys(s.binders) && |items| <= s.maxIterations
    ensures Reduce(Indexing(i, x, items, i), s, h) == Literal(List(Indices(|items|)))
    ensures Reduce(Indexing(i, x, items, x), s, h) == Literal(List(items))
  {
    var pairs := Pairs(List(items)).value;
    IndexRows(Indexing(i, x, items, i), i, x, pairs, true, s, h);
    IndexRows(Indexing(i, x, items, x), i, x, pairs, false, s, h);
    assert Picked(pairs, true) == Indices(|items|) && Picked(pairs, false) == items;
    hide ReduceRows;
    assert Collect(false, Unkeyed(Indices(|items|))).items == Indices(|items|);
    assert Collect(false, Unkeyed(items)).items == items;
  }

  /** A comprehension with another number of binders, over anything but a collection, or past the limit is
      left as it is. */
  lemma OddComprehensionStays(e: Expr, s: Scope, h: Host)
    requires e.For? && Reduce(e.collection, s, h).Literal?
    requires var v := Reduce(e.collection, s, h).v;
             || !(v.List? || v.Map?)
             || (v.List? && |v.items| > s.maxIterations) || (v.Map? && |v.entries| > s.maxIterations)
             || (|e.binders| != 1 && |e.binders| != 2 && v != List([]) && v != Map([]))
    ensures Reduce(e, s, h) == e
  {
    var v := Reduce(e.collection, s, h).v;
    if v.List? { assert v.items != [] ==> Pairs(v).value != []; }
    if v.Map? { assert v.entries != [] ==> Pairs(v).value != []; }
  }

  /** A filter that is not decided on some item leaves the comprehension as it is. */
  lemma UndecidedFilterStays(x: string, items: seq<Value>, keep: Expr, k: nat, s: Scope, h: Host)
    requires k < |items| && Reduce(keep, Bind(s, x, items[k]), h) !in {Literal(Bool(true)), Literal(Bool(false))}
    ensures Reduce(Filtering(x, items, Some(keep)), s, h) == Filtering(x, items, Some(keep))
  {
    var f, pairs := Filtering(x, items, Some(keep)), Pairs(List(items)).value;
    assert pairs[k].1 == items[k];
    UndecidedRows(f, x, keep, pairs, k, s, h);
    hide ReduceRows;
  }

  lemma {:induction false} UndecidedRows(f: Expr, x: string, keep: Expr, pairs: seq<(Value, Value)>, k: nat, s: Scope, h: Host)
    requires f.For? && f.binders == [x] && f.filter == Some(keep) && k < |pairs|
    requires Reduce(keep, Bind(s, x, pairs[k].1), h) !in {Literal(Bool(true)), Literal(Bool(false))}
    ensures ReduceRows(f, pairs, s, h) == None
    decreases k
  {
    hide ReduceRows, Reduce;
    RowsStep(f, x, pairs, s, h);
    if k > 0 {
      UndecidedRows(f, x, keep, pairs[1..], k - 1, s, h);
    } else {
      UndecidedRow(f, keep, Bind(s, x, pairs[0].1), h);
    }
  }

  lemma UndecidedRow(f: Expr, keep: Expr, inner: Scope, h: Host)
    requires f.For? && f.filter == Some(keep) && Reduce(keep, inner, h) !in {Literal(Bool(true)), Literal(Bool(false))}
    ensures ReduceRow(f, inner, h) == Stuck
  {
  }

  // ---- what stays symbolic --------------------------------------------------------------------

  /** Where some part stays symbolic, the construct stays with its parts reduced; a comprehension only
      reduces its collection. */
  lemma PartsStayReduced(es: seq<Expr>, i: nat, op: UnaryOp, x: Expr, name: string, loop: Expr, s: Scope, h: Host)
    requires i < |es| && !Reduce(es[i], s, h).Literal? && !Reduce(x, s, h).Literal?
    requires loop.For? && !Reduce(loop.collection, s, h).Literal?
    ensures Reduce(Array(es), s, h) == Array(ReduceAll(es, s, h))
    ensures Reduce(Call(name, es), s, h) == Call(name, ReduceAll(es, s, h))
    ensures Reduce(Unary(op, x), s, h) == Unary(op, Reduce(x, s, h))
    ensures Reduce(loop, s, h) == loop.(collection := Reduce(loop.collection, s, h))
  {
    NoLiterals(ReduceAll(es, s, h), i);
  }
}
