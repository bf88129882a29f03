/** Input substitution of module expansion (`graph/expand.rs`): how it composes, and what it means. */
module Substitution {
  import opened Ir
  import opened Text
  import opened Reducer
  import opened Semantics

  /** The expression that replaces a symbol, when it is the root of a bound variable. */
  function Bound(sym: Symbolic, inputs: AttributeMap): Option<Expr> {
    var rest := StripPrefix(sym.source, "var.");
    if sym.kind == SymbolKind.Var && Tail(rest) == "" then Find(inputs, Head(rest)) else None
  }

  /** `substitute_inputs_in_expr` */
  function Subst(e: Expr, inputs: AttributeMap): Expr
    decreases e
  {
    match e
    case Literal(_) => e
    case Unresolved(sym) => (match Bound(sym, inputs) case Some(b) => b case None => e)
    case Binary(op, l, r) => Binary(op, Subst(l, inputs), Subst(r, inputs))
    case Unary(op, x) => Unary(op, Subst(x, inputs))
    case Template(ps) => Template(SubstAll(ps, inputs))
    case Array(xs) => Array(SubstAll(xs, inputs))
    case Object(fs) => Object(SubstFields(fs, inputs))
    case Call(name, args) => Call(name, SubstAll(args, inputs))
    case Conditional(c, t, f) => Conditional(Subst(c, inputs), Subst(t, inputs), Subst(f, inputs))
    case For(bs, coll, key, y, filter, form) =>
      For(bs, Subst(coll, inputs),
          if key.Some? then Some(Subst(key.value, inputs)) else None,
          Subst(y, inputs),
          if filter.Some? then Some(Subst(filter.value, inputs)) else None,
          form)
  }

  function SubstAll(es: seq<Expr>, inputs: AttributeMap): (r: seq<Expr>)
    ensures |r| == |es|
    decreases es
  {
    seq(|es|, i requires 0 <= i < |es| => Subst(es[i], inputs))
  }

  function SubstFields(fs: seq<Field>, inputs: AttributeMap): (r: seq<Field>)
    ensures |r| == |fs|
    decreases fs
  {
    seq(|fs|, i requires 0 <= i < |fs| => SubstField(fs[i], inputs))
  }

  function SubstField(f: Field, inputs: AttributeMap): Field
    decreases f
  {
    Field(Subst(f.k, inputs), Subst(f.v, inputs))
  }

  /** `substitute_inputs_in_attrs` */
  function SubstAttrs(attrs: AttributeMap, inputs: AttributeMap): AttributeMap {
    seq(|attrs|, i requires 0 <= i < |attrs| => Entry(attrs[i].key, Subst(attrs[i].val, inputs)))
  }

  // ---- composition ----------------------------------------------------------------------------

  lemma {:induction false} FindSubst(attrs: AttributeMap, inputs: AttributeMap, key: string)
    ensures Find(SubstAttrs(attrs, inputs), key) ==
            match Find(attrs, key) case Some(e) => Some(Subst(e, inputs)) case None => None
  {
    if attrs != [] {
      assert SubstAttrs(attrs, inputs)[1..] == SubstAttrs(attrs[1..], inputs);
      FindSubst(attrs[1..], inputs, key);
    }
  }

  /** Every variable root of `e` is bound by `inner`, or left alone by `outer`. */
  ghost predicate Closed(e: Expr, inner: AttributeMap, outer: AttributeMap)
    decreases e
  {
    match e
    case Literal(_) => true
    case Unresolved(sym) => Bound(sym, inner).Some? || Bound(sym, outer) == None || Bound(sym, outer) == Some(e)
    case Binary(_, l, r) => Closed(l, inner, outer) && Closed(r, inner, outer)
    case Unary(_, x) => Closed(x, inner, outer)
    case Template(ps) => ClosedAll(ps, inner, outer)
    case Array(xs) => ClosedAll(xs, inner, outer)
    case Object(fs) => forall i :: 0 <= i < |fs| ==> ClosedField(fs[i], inner, outer)
    case Call(_, args) => ClosedAll(args, inner, outer)
    case Conditional(c, t, f) => Closed(c, inner, outer) && Closed(t, inner, outer) && Closed(f, inner, outer)
    case For(_, coll, key, y, filter, _) =>
      && Closed(coll, inner, outer) && Closed(y, inner, outer)
      && (key.Some? ==> Closed(key.value, inner, outer)) && (filter.Some? ==> Closed(filter.value, inner, outer))
  }

  ghost predicate ClosedAll(es: seq<Expr>, inner: AttributeMap, outer: AttributeMap)
    decreases es
  {
    forall i :: 0 <= i < |es| ==> Closed(es[i], inner, outer)
  }

  ghost predicate ClosedField(f: Field, inner: AttributeMap, outer: AttributeMap)
    decreases f
  {
    Closed(f.k, inner, outer) && Closed(f.v, inner, outer)
  }

  /** Substituting a nested call's inputs first is the same as substituting twice, exactly when no
      variable slips past the inner call and is caught by the outer one. */
  lemma {:induction false} SubstComposes(e: Expr, inner: AttributeMap, outer: AttributeMap)
    ensures Subst(e, SubstAttrs(inner, outer)) == Subst(Subst(e, inner), outer) <==> Closed(e, inner, outer)
    decreases e
  {
    var both := SubstAttrs(inner, outer);
    match e
    case Literal(_) =>
    case Unresolved(sym) => FindSubst(inner, outer, Head(StripPrefix(sym.source, "var.")));
    case Binary(_, l, r) => SubstComposes(l, inner, outer); SubstComposes(r, inner, outer);
    case Unary(_, x) => SubstComposes(x, inner, outer);
    case Template(ps) => SubstComposesAll(ps, inner, outer);
    case Array(xs) => SubstComposesAll(xs, inner, outer);
    case Object(fs) =>
      var a, b := SubstFields(fs, both), SubstFields(SubstFields(fs, inner), outer);
      forall i | 0 <= i < |fs| ensures a[i] == b[i] <==> ClosedField(fs[i], inner, outer) {
        var f := fs[i];
        assert a[i] == SubstField(f, both) && b[i] == SubstField(SubstField(f, inner), outer);
        SubstComposes(f.k, inner, outer); SubstComposes(f.v, inner, outer);
      }
      assert a == b <==> forall i :: 0 <= i < |fs| ==> a[i] == b[i];
    case Call(_, args) => SubstComposesAll(args, inner, outer);
    case Conditional(c, t, f) =>
      SubstComposes(c, inner, outer); SubstComposes(t, inner, outer); SubstComposes(f, inner, outer);
    case For(_, coll, key, y, filter, _) =>
      SubstComposes(coll, inner, outer); SubstComposes(y, inner, outer);
      if key.Some? { SubstComposes(key.value, inner, outer); }
      if filter.Some? { SubstComposes(filter.value, inner, outer); }
  }

  /** A variable the inner call does not bind is caught by the outer call's input of that name. */
  lemma UnboundVariableEscapes(x: string, input: Expr)
    requires '.' !in x && !StartsWith(x, "var.")
    requires input != Unresolved(Symbolic(SymbolKind.Var, "var." + x))
    ensures var e := Unresolved(Symbolic(SymbolKind.Var, "var." + x));
            && Subst(e, SubstAttrs([], [Entry(x, input)])) == e
            && Subst(Subst(e, []), [Entry(x, input)]) == input
  {
    assert StripPrefix("var." + x, "var.") == x;
    HeadUndotted(x);
    assert SubstAttrs([], [Entry(x, input)]) == [];
  }

  lemma {:induction false} SubstComposesAll(es: seq<Expr>, inner: AttributeMap, outer: AttributeMap)
    ensures SubstAll(es, SubstAttrs(inner, outer)) == SubstAll(SubstAll(es, inner), outer) <==> ClosedAll(es, inner, outer)
    decreases es
  {
    var a, b := SubstAll(es, SubstAttrs(inner, outer)), SubstAll(SubstAll(es, inner), outer);
    forall i | 0 <= i < |es| ensures a[i] == b[i] <==> Closed(es[i], inner, outer) {
      SubstComposes(es[i], inner, outer);
    }
    assert a == b <==> forall i :: 0 <= i < |es| ==> a[i] == b[i];
  }

  /** The inputs that reach the innermost of nested calls, given outermost first. */
  function ComposedInputs(levels: seq<AttributeMap>): AttributeMap {
    if levels == [] then []
    else SubstAttrs(levels[|levels| - 1], ComposedInputs(levels[..|levels| - 1]))
  }

  /** The declarative form: one substitution per call, from the innermost outwards. */
  function SubstOutwards(e: Expr, levels: seq<AttributeMap>): Expr
    decreases |levels|
  {
    if levels == [] then e
    else SubstOutwards(Subst(e, levels[|levels| - 1]), levels[..|levels| - 1])
  }

  ghost predicate ClosedOutwards(e: Expr, levels: seq<AttributeMap>)
    decreases |levels|
  {
    levels == [] ||
    var front, last := levels[..|levels| - 1], levels[|levels| - 1];
    Closed(e, last, ComposedInputs(front)) && ClosedOutwards(Subst(e, last), front)
  }

  lemma {:induction false} SubstNothing(e: Expr)
    ensures Subst(e, []) == e
    decreases e
  {
    match e
    case Literal(_) =>
    case Unresolved(_) =>
    case Binary(_, l, r) => SubstNothing(l); SubstNothing(r);
    case Unary(_, x) => SubstNothing(x);
    case Template(ps) => forall i | 0 <= i < |ps| { SubstNothing(ps[i]); } assert SubstAll(ps, []) == ps;
    case Array(xs) => forall i | 0 <= i < |xs| { SubstNothing(xs[i]); } assert SubstAll(xs, []) == xs;
    case Object(fs) =>
      forall i | 0 <= i < |fs| ensures SubstField(fs[i], []) == fs[i] {
        var f := fs[i];
        SubstNothing(f.k); SubstNothing(f.v);
      }
      assert SubstFields(fs, []) == fs;
    case Call(_, args) => forall i | 0 <= i < |args| { SubstNothing(args[i]); } assert SubstAll(args, []) == args;
    case Conditional(c, t, f) => SubstNothing(c); SubstNothing(t); SubstNothing(f);
    case For(_, coll, key, y, filter, _) =>
      SubstNothing(coll); SubstNothing(y);
      if key.Some? { SubstNothing(key.value); }
      if filter.Some? { SubstNothing(filter.value); }
  }

  /** At any nesting depth, the composed inputs act as the calls one after the other. */
  lemma {:induction false} NestedInputsCompose(e: Expr, levels: seq<AttributeMap>)
    requires ClosedOutwards(e, levels)
    ensures Subst(e, ComposedInputs(levels)) == SubstOutwards(e, levels)
    decreases |levels|
  {
    if levels == [] {
      SubstNothing(e);
    } else {
      var front, last := levels[..|levels| - 1], levels[|levels| - 1];
      SubstComposes(e, last, ComposedInputs(front));
      NestedInputsCompose(Subst(e, last), front);
    }
  }

  // ---- meaning --------------------------------------------------------------------------------

  /** The bare identifiers of `e` that no enclosing comprehension inside `e` binds. */
  ghost function FreeNames(e: Expr): set<string>
    decreases e
  {
    match e
    case Literal(_) => {}
    case Unresolved(sym) => if sym.kind == Other then {sym.source} else {}
    case Binary(_, l, r) => FreeNames(l) + FreeNames(r)
    case Unary(_, x) => FreeNames(x)
    case Template(ps) => set i, n | 0 <= i < |ps| && n in FreeNames(ps[i]) :: n
    case Array(xs) => set i, n | 0 <= i < |xs| && n in FreeNames(xs[i]) :: n
    case Object(fs) => set i, n | 0 <= i < |fs| && n in FreeNamesField(fs[i]) :: n
    case Call(_, args) => set i, n | 0 <= i < |args| && n in FreeNames(args[i]) :: n
    case Conditional(c, t, f) => FreeNames(c) + FreeNames(t) + FreeNames(f)
    case For(bs, coll, key, y, filter, _) =>
      FreeNames(coll)
      + ((FreeNames(y) + (if key.Some? then FreeNames(key.value) else {})
          + (if filter.Some? then FreeNames(filter.value) else {}))
         - set b | b in bs)
  }

  ghost function FreeNamesField(f: Field): set<string>
    decreases f
  {
    FreeNames(f.k) + FreeNames(f.v)
  }

  ghost predicate SameBinders(names: set<string>, env: Env, other: Env) {
    && env.lexical
    && other == env.(binders := other.binders)
    && forall n | n in names :: FindLast(env.binders, n) == FindLast(other.binders, n)
  }

  /** Under lexical scoping, evaluation reads only the binders of the free names. */
  lemma {:induction false} EvalReadsFreeNames(e: Expr, env: Env, other: Env, h: Host)
    requires SameBinders(FreeNames(e), env, other)
    ensures Eval(e, env, h) == Eval(e, other, h)
    decreases e, 1, 0
  {
    match e
    case Literal(_) =>
    case Unresolved(_) =>
    case Binary(_, l, r) => EvalReadsFreeNames(l, env, other, h); EvalReadsFreeNames(r, env, other, h);
    case Unary(_, x) => EvalReadsFreeNames(x, env, other, h);
    case Template(ps) => EvalReadsFreeNamesAll(ps, env, other, h);
    case Array(xs) => EvalReadsFreeNamesAll(xs, env, other, h);
    case Object(fs) =>
      forall i | 0 <= i < |fs| ensures EvalField(fs[i], env, h) == EvalField(fs[i], other, h) {
        var f := fs[i];
        assert forall n | n in FreeNamesField(f) :: n in FreeNames(e);
        EvalReadsFreeNames(f.k, env, other, h); EvalReadsFreeNames(f.v, env, other, h);
      }
      assert seq(|fs|, i requires 0 <= i < |fs| => EvalField(fs[i], env, h))
          == seq(|fs|, i requires 0 <= i < |fs| => EvalField(fs[i], other, h));
    case Call(_, args) => EvalReadsFreeNamesAll(args, env, other, h);
    case Conditional(c, t, f) =>
      EvalReadsFreeNames(c, env, other, h); EvalReadsFreeNames(t, env, other, h); EvalReadsFreeNames(f, env, other, h);
    case For(_, coll, _, _, _, _) =>
      EvalReadsFreeNames(coll, env, other, h);
      if Eval(coll, env, h).Some? && Pairs(Eval(coll, env, h).value).Some? {
        EvalReadsFreeNamesRows(e, Pairs(Eval(coll, env, h).value).value, env, other, h);
      }
  }

  lemma {:induction false} EvalReadsFreeNamesAll(es: seq<Expr>, env: Env, other: Env, h: Host)
    requires SameBinders(set i, n | 0 <= i < |es| && n in FreeNames(es[i]) :: n, env, other)
    ensures EvalAll(es, env, h) == EvalAll(es, other, h)
    decreases es, 0, 0
  {
    forall i | 0 <= i < |es| ensures Eval(es[i], env, h) == Eval(es[i], other, h) {
      EvalReadsFreeNames(es[i], env, other, h);
    }
    assert seq(|es|, i requires 0 <= i < |es| => Eval(es[i], env, h))
        == seq(|es|, i requires 0 <= i < |es| => Eval(es[i], other, h));
  }

  /** Under a `for` the bodies see the same binders, if the `for` itself does. */
  lemma SameUnderFor(f: Expr, bs: ValueMap, env: Env, other: Env)
    requires f.For? && SameBinders(FreeNames(f), env, other) && Keys(bs) == f.binders && |f.binders| <= 2
    ensures var inner, innerOther := env.(binders := env.binders + bs), other.(binders := other.binders + bs);
            && SameBinders(FreeNames(f.yield_), inner, innerOther)
            && (f.key.Some? ==> SameBinders(FreeNames(f.key.value), inner, innerOther))
            && (f.filter.Some? ==> SameBinders(FreeNames(f.filter.value), inner, innerOther))
  {
    forall n | n in FreeNames(f) || n in f.binders
      ensures FindLast(env.binders + bs, n) == FindLast(other.binders + bs, n)
    {
      FindLastAppend(env.binders, bs, n);
      FindLastAppend(other.binders, bs, n);
      BoundNames(f.binders, bs, n);
    }
    hide FindLast;
  }

  lemma {:induction false} EvalReadsFreeNamesRows(f: Expr, pairs: seq<(Value, Value)>, env: Env, other: Env, h: Host)
    requires f.For? && SameBinders(FreeNames(f), env, other)
    ensures EvalRows(f, pairs, env, h) == EvalRows(f, pairs, other, h)
    decreases f, 0, |pairs|
  {
    if pairs != [] && BindPair(f.binders, pairs[0]).Some? {
      var bs := BindPair(f.binders, pairs[0]).value;
      var inner, innerOther := env.(binders := env.binders + bs), other.(binders := other.binders + bs);
      SameUnderFor(f, bs, env, other);
      assert env.maxIterations == other.maxIterations;
      hide SameBinders, FreeNames, Eval;
      if f.filter.Some? { EvalReadsFreeNames(f.filter.value, inner, innerOther, h); }
      if f.key.Some? { EvalReadsFreeNames(f.key.value, inner, innerOther, h); }
      EvalReadsFreeNames(f.yield_, inner, innerOther, h);
      EvalReadsFreeNamesRows(f, pairs[1..], env, other, h);
    }
  }

  lemma BoundNames(names: seq<string>, bs: ValueMap, n: string)
    requires Keys(bs) == names && |names| <= 2
    ensures n in names ==> FindLast(bs, n).Some?
  {
    if |names| == 2 { assert bs[..1][0] == bs[0] && Keys(bs)[0] == names[0] && Keys(bs)[1] == names[1]; }
    if |names| == 1 { assert Keys(bs)[0] == names[0]; }
  }

  /** Bound variables occur in `e` only as roots, never as `var.x.tail`. */
  ghost predicate RootsOnly(e: Expr, inputs: AttributeMap)
    decreases e
  {
    match e
    case Literal(_) => true
    case Unresolved(sym) =>
      var rest := StripPrefix(sym.source, "var.");
      sym.kind == SymbolKind.Var && Tail(rest) != "" ==> Find(inputs, Head(rest)).None?
    case Binary(_, l, r) => RootsOnly(l, inputs) && RootsOnly(r, inputs)
    case Unary(_, x) => RootsOnly(x, inputs)
    case Template(ps) => forall i :: 0 <= i < |ps| ==> RootsOnly(ps[i], inputs)
    case Array(xs) => forall i :: 0 <= i < |xs| ==> RootsOnly(xs[i], inputs)
    case Object(fs) => forall i :: 0 <= i < |fs| ==> RootsOnlyField(fs[i], inputs)
    case Call(_, args) => forall i :: 0 <= i < |args| ==> RootsOnly(args[i], inputs)
    case Conditional(c, t, f) => RootsOnly(c, inputs) && RootsOnly(t, inputs) && RootsOnly(f, inputs)
    case For(_, coll, key, y, filter, _) =>
      && RootsOnly(coll, inputs) && RootsOnly(y, inputs)
      && (key.Some? ==> RootsOnly(key.value, inputs)) && (filter.Some? ==> RootsOnly(filter.value, inputs))
  }

  ghost predicate RootsOnlyField(f: Field, inputs: AttributeMap)
    decreases f
  {
    RootsOnly(f.k, inputs) && RootsOnly(f.v, inputs)
  }

  /** No input of `e` lands under a `for` of `e` that binds one of its free names; `bound` holds the names
      bound on the way down. */
  ghost predicate Uncaptured(e: Expr, inputs: AttributeMap, bound: set<string>)
    decreases e
  {
    match e
    case Literal(_) => true
    case Unresolved(sym) => Bound(sym, inputs).Some? ==> FreeNames(Bound(sym, inputs).value) !! bound
    case Binary(_, l, r) => Uncaptured(l, inputs, bound) && Uncaptured(r, inputs, bound)
    case Unary(_, x) => Uncaptured(x, inputs, bound)
    case Template(ps) => forall i :: 0 <= i < |ps| ==> Uncaptured(ps[i], inputs, bound)
    case Array(xs) => forall i :: 0 <= i < |xs| ==> Uncaptured(xs[i], inputs, bound)
    case Object(fs) => forall i :: 0 <= i < |fs| ==> UncapturedField(fs[i], inputs, bound)
    case Call(_, args) => forall i :: 0 <= i < |args| ==> Uncaptured(args[i], inputs, bound)
    case Conditional(c, t, f) => Uncaptured(c, inputs, bound) && Uncaptured(t, inputs, bound) && Uncaptured(f, inputs, bound)
    case For(bs, coll, key, y, filter, _) =>
      var inner := bound + set b | b in bs;
      && Uncaptured(coll, inputs, bound) && Uncaptured(y, inputs, inner)
      && (key.Some? ==> Uncaptured(key.value, inputs, inner)) && (filter.Some? ==> Uncaptured(filter.value, inputs, inner))
  }

  ghost predicate UncapturedField(f: Field, inputs: AttributeMap, bound: set<string>)
    decreases f
  {
    Uncaptured(f.k, inputs, bound) && Uncaptured(f.v, inputs, bound)
  }

  /** The environment in which each input variable has its input's value, and none if it has none. */
  ghost function Rebind(env: Env, inputs: AttributeMap, h: Host): Env {
    env.(vars :=
      (env.vars - Names(inputs))
      + map x | x in Names(inputs) && Find(inputs, x).Some? && Eval(Find(inputs, x).value, env, h).Some?
          :: Eval(Find(inputs, x).value, env, h).value)
  }

  /** `env` is `outer` inside `for`s that bind the names in `bound`. */
  ghost predicate Inside(outer: Env, env: Env, bound: set<string>) {
    && outer.lexical && env == outer.(binders := env.binders)
    && forall n | n !in bound :: FindLast(env.binders, n) == FindLast(outer.binders, n)
  }

  /** The environment of an expression whose inputs are evaluated further out. */
  ghost function Rebound(outer: Env, env: Env, inputs: AttributeMap, h: Host): Env {
    Rebind(outer, inputs, h).(binders := env.binders)
  }

  /** The substitution lemma: replacing variables by their inputs and evaluating is evaluating with
      the variables bound to their inputs' values. */
  lemma SubstMeaning(e: Expr, inputs: AttributeMap, env: Env, h: Host)
    requires env.lexical && Uncaptured(e, inputs, {}) && RootsOnly(e, inputs)
    ensures Eval(Subst(e, inputs), env, h) == Eval(e, Rebind(env, inputs, h), h)
  {
    SubstInside(e, inputs, {}, env, env, h);
    hide Eval, Subst;
    assert Rebound(env, env, inputs, h) == Rebind(env, inputs, h);
  }

  lemma {:induction false} SubstInside(e: Expr, inputs: AttributeMap, bound: set<string>, outer: Env, env: Env, h: Host)
    requires Inside(outer, env, bound) && Uncaptured(e, inputs, bound) && RootsOnly(e, inputs)
    ensures Eval(Subst(e, inputs), env, h) == Eval(e, Rebound(outer, env, inputs, h), h)
    decreases e, 1, 0
  {
    var re := Rebound(outer, env, inputs, h);
    assert re.maxIterations == env.maxIterations;
    hide Rebound, Inside, FreeNames, Bound, EvalSymbol;
    match e
    case Literal(_) =>
    case Unresolved(sym) => SubstSymbolInside(sym, inputs, bound, outer, env, h);
    case Binary(_, l, r) => SubstInside(l, inputs, bound, outer, env, h); SubstInside(r, inputs, bound, outer, env, h);
    case Unary(_, x) => SubstInside(x, inputs, bound, outer, env, h);
    case Template(ps) => SubstAllInside(ps, inputs, bound, outer, env, h);
    case Array(xs) => SubstAllInside(xs, inputs, bound, outer, env, h);
    case Object(fs) =>
      forall i | 0 <= i < |fs| ensures EvalField(SubstField(fs[i], inputs), env, h) == EvalField(fs[i], re, h) {
        var f := fs[i];
        assert RootsOnlyField(f, inputs) && UncapturedField(f, inputs, bound);
        SubstInside(f.k, inputs, bound, outer, env, h); SubstInside(f.v, inputs, bound, outer, env, h);
      }
      SameFields(fs, inputs, env, re, h);
    case Call(_, args) => SubstAllInside(args, inputs, bound, outer, env, h);
    case Conditional(c, t, f) =>
      SubstInside(c, inputs, bound, outer, env, h); SubstInside(t, inputs, bound, outer, env, h);
      SubstInside(f, inputs, bound, outer, env, h);
    case For(_, coll, _, _, _, _) =>
      SubstInside(coll, inputs, bound, outer, env, h);
      if Eval(coll, re, h).Some? && Pairs(Eval(coll, re, h).value).Some? {
        SubstRowsInside(e, Pairs(Eval(coll, re, h).value).value, inputs, bound, outer, env, h);
      }
  }

  lemma SameFields(fs: seq<Field>, inputs: AttributeMap, env: Env, re: Env, h: Host)
    requires forall i :: 0 <= i < |fs| ==> EvalField(SubstField(fs[i], inputs), env, h) == EvalField(fs[i], re, h)
    ensures EvalFields(SubstFields(fs, inputs), env, h) == EvalFields(fs, re, h)
  {
    hide EvalField, SubstField;
    var fs' := SubstFields(fs, inputs);
    assert seq(|fs'|, i requires 0 <= i < |fs'| => EvalField(fs'[i], env, h))
        == seq(|fs|, i requires 0 <= i < |fs| => EvalField(fs[i], re, h));
  }

  lemma SubstSymbolInside(sym: Symbolic, inputs: AttributeMap, bound: set<string>, outer: Env, env: Env, h: Host)
    requires Inside(outer, env, bound) && Uncaptured(Unresolved(sym), inputs, bound) && RootsOnly(Unresolved(sym), inputs)
    ensures Eval(Subst(Unresolved(sym), inputs), env, h) == EvalSymbol(sym, Rebound(outer, env, inputs, h))
  {
    var name := Head(StripPrefix(sym.source, "var."));
    FindIsFirst(inputs, name);
    if Bound(sym, inputs).Some? {
      assert name in Names(inputs);
      var b := Bound(sym, inputs).value;
      assert Subst(Unresolved(sym), inputs) == b;
      EvalReadsFreeNames(b, outer, env, h);
      hide Eval, Subst, FreeNames, Inside;
    }
  }

  lemma {:induction false} SubstAllInside(es: seq<Expr>, inputs: AttributeMap, bound: set<string>, outer: Env, env: Env, h: Host)
    requires Inside(outer, env, bound)
    requires forall i :: 0 <= i < |es| ==> RootsOnly(es[i], inputs) && Uncaptured(es[i], inputs, bound)
    ensures EvalAll(SubstAll(es, inputs), env, h) == EvalAll(es, Rebound(outer, env, inputs, h), h)
    decreases es, 0, 0
  {
    var es', re := SubstAll(es, inputs), Rebound(outer, env, inputs, h);
    hide Rebound, Inside;
    forall i | 0 <= i < |es| ensures Eval(es'[i], env, h) == Eval(es[i], re, h) {
      SubstInside(es[i], inputs, bound, outer, env, h);
    }
    assert seq(|es'|, i requires 0 <= i < |es'| => Eval(es'[i], env, h))
        == seq(|es|, i requires 0 <= i < |es| => Eval(es[i], re, h));
  }

  lemma InsideFor(names: seq<string>, bs: ValueMap, bound: set<string>, outer: Env, env: Env, inputs: AttributeMap, h: Host)
    requires Inside(outer, env, bound) && Keys(bs) == names
    ensures var inner := env.(binders := env.binders + bs);
            && Inside(outer, inner, bound + set b | b in names)
            && Rebound(outer, inner, inputs, h) ==
               Rebound(outer, env, inputs, h).(binders := Rebound(outer, env, inputs, h).binders + bs)
  {
    forall n | n !in names ensures FindLast(env.binders + bs, n) == FindLast(env.binders, n) {
      FindLastAppend(env.binders, bs, n);
      NotFoundLast(bs, n);
    }
  }

  lemma {:induction false} NotFoundLast(bs: ValueMap, n: string)
    requires n !in Keys(bs)
    ensures FindLast(bs, n).None?
    decreases |bs|
  {
    if bs != [] {
      var front := bs[..|bs| - 1];
      assert Keys(bs)[|bs| - 1] == bs[|bs| - 1].key;
      forall i | 0 <= i < |front| ensures Keys(front)[i] != n { assert Keys(bs)[i] == Keys(front)[i]; }
      NotFoundLast(front, n);
    }
  }

  lemma {:induction false} SubstRowsInside(f: Expr, pairs: seq<(Value, Value)>, inputs: AttributeMap, bound: set<string>, outer: Env, env: Env, h: Host)
    requires f.For? && Inside(outer, env, bound) && Uncaptured(f, inputs, bound) && RootsOnly(f, inputs)
    ensures EvalRows(Subst(f, inputs), pairs, env, h) == EvalRows(f, pairs, Rebound(outer, env, inputs, h), h)
    decreases f, 0, |pairs|
  {
    if pairs != [] && BindPair(f.binders, pairs[0]).Some? {
      var bs := BindPair(f.binders, pairs[0]).value;
      var inner := env.(binders := env.binders + bs);
      var names := bound + set b | b in f.binders;
      InsideFor(f.binders, bs, bound, outer, env, inputs, h);
      hide Rebound, Inside;
      if f.filter.Some? { SubstInside(f.filter.value, inputs, names, outer, inner, h); }
      if f.key.Some? { SubstInside(f.key.value, inputs, names, outer, inner, h); }
      SubstInside(f.yield_, inputs, names, outer, inner, h);
      SubstRowsInside(f, pairs[1..], inputs, bound, outer, env, h);
    }
  }

  /** Why roots only: `var.x.attr` is left as it is, although the input supplies the attribute. */
  lemma TailIsNotSubstituted(x: string, attr: string, v: Value, env: Env, h: Host)
    requires '.' !in x && '.' !in attr && attr != "" && x !in env.vars
    ensures var inputs := [Entry(x, Literal(Map([Entry(attr, v)])))];
            var e := Unresolved(Symbolic(SymbolKind.Var, "var." + (x + "." + attr)));
            && Subst(e, inputs) == e
            && Eval(Subst(e, inputs), env, h) == None
            && Eval(e, Rebind(env, inputs, h), h) == Some(v)
  {
    var whole := Map([Entry(attr, v)]);
    var inputs := [Entry(x, Literal(whole))];
    var e := Unresolved(Symbolic(SymbolKind.Var, "var." + (x + "." + attr)));
    assert StripPrefix(e.sym.source, "var.") == x + "." + attr;
    SplitDotted(x, attr);
    HeadUndotted(attr);
    assert Descend(whole, attr) == Descend(v, "");
    assert Keys(inputs)[0] == x;
  }

  /** The input variable reads the outer `x`; the substituted body reads the binder. */
  lemma CapturedUse(x: string, a: string, v: Value, w: Value, env: Env, h: Host)
    requires '.' !in a && env.lexical && env.binders == [Entry(x, w)]
    ensures var inputs := [Entry(a, Unresolved(Symbolic(Other, x)))];
            var use := Unresolved(Symbolic(SymbolKind.Var, "var." + a));
            var re := Rebind(env, inputs, h);
            && Subst(use, inputs) == inputs[0].val
            && Eval(inputs[0].val, env.(binders := env.binders + [Entry(x, v)]), h) == Some(v)
            && Eval(use, re.(binders := re.binders + [Entry(x, v)]), h) == Some(w)
  {
    var input := Unresolved(Symbolic(Other, x));
    var inputs := [Entry(a, input)];
    assert StripPrefix("var." + a, "var.") == a;
    HeadUndotted(a);
    assert Keys(inputs)[0] == a;
    assert Eval(input, env, h) == Some(w);
  }

  /** Why uncaptured: an input that mentions `x` is captured when it lands under a `for` that binds `x`; the result is right only when the two values of `x` coincide. */
  lemma InputIsCaptured(x: string, a: string, v: Value, w: Value, env: Env, h: Host)
    requires '.' !in a && env.lexical && env.binders == [Entry(x, w)] && env.maxIterations >= 1
    ensures var inputs := [Entry(a, Unresolved(Symbolic(Other, x)))];
            var e := For([x], Literal(List([v])), None, Unresolved(Symbolic(SymbolKind.Var, "var." + a)), None, false);
            && Eval(Subst(e, inputs), env, h) == Some(List([v]))
            && Eval(e, Rebind(env, inputs, h), h) == Some(List([w]))
            && (Eval(Subst(e, inputs), env, h) == Eval(e, Rebind(env, inputs, h), h) <==> v == w)
  {
    var input := Unresolved(Symbolic(Other, x));
    var inputs := [Entry(a, input)];
    var use := Unresolved(Symbolic(SymbolKind.Var, "var." + a));
    var e := For([x], Literal(List([v])), None, use, None, false);
    CapturedUse(x, a, v, w, env, h);
    assert Subst(e, inputs) == e.(yield_ := input);
    var s := Scope([], [], [], None, 1);
    var rebound := Rebind(env, inputs, h);
    assert rebound.maxIterations == env.maxIterations;
    hide Eval, Subst, Rebind, Bound;
    Singleton(e.(yield_ := input), v, s, env, h);
    Singleton(e, v, s, rebound, h);
    assert List([v]) == List([w]) <==> v == w by {
      assert List([v]).items[0] == v && List([w]).items[0] == w;
    }
  }
}
