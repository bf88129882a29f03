/** Big-step meaning of expressions at apply time, and what partial evaluation keeps of it. */
module Semantics {
  import opened Ir
  import opened Text
  import opened Reducer

  /** An apply-time environment. `world` gives the references only the provider can answer;
      `lexical` says which of two equally named binders is seen: the innermost one (the language)
      or the outermost one (the evaluator's first-match list). */
  datatype Env = Env(
    vars: map<string, Value>,
    locals: map<string, Value>,
    binders: ValueMap,
    workspace: Option<string>,
    world: map<Symbolic, Value>,
    maxIterations: nat,
    lexical: bool)

  function Get<K, V>(m: map<K, V>, k: K): Option<V> {
    if k in m then Some(m[k]) else None
  }

  function EvalPath(bindings: map<string, Value>, prefix: string, source: string): Option<Value> {
    var rest := StripPrefix(source, prefix);
    if Head(rest) in bindings then Descend(bindings[Head(rest)], Tail(rest)) else None
  }

  function LookupBinder(env: Env, name: string): Option<Value> {
    if env.lexical then FindLast(env.binders, name) else Find(env.binders, name)
  }

  function EvalSymbol(sym: Symbolic, env: Env): Option<Value> {
    match sym.kind
    case Var => EvalPath(env.vars, "var.", sym.source)
    case Local => EvalPath(env.locals, "local.", sym.source)
    case Terraform =>
      if sym.source == "terraform.workspace" && env.workspace.Some? then Some(Str(env.workspace.value))
      else Get(env.world, sym)
    case Other =>
      var bound := LookupBinder(env, sym.source);
      if bound.Some? then bound else Get(env.world, sym)
    case _ => Get(env.world, sym)
  }

  ghost function Eval(e: Expr, env: Env, h: Host): Option<Value>
    decreases e, 1, 0
  {
    match e
    case Literal(v) => Some(v)
    case Unresolved(sym) => EvalSymbol(sym, env)
    case Binary(op, l, r) =>
      (match (Eval(l, env, h), Eval(r, env, h))
       case (Some(a), Some(b)) => EvalBinary(op, a, b, h.floats)
       case _ => None)
    case Unary(op, x) =>
      (match Eval(x, env, h) case Some(a) => EvalUnary(op, a, h.floats) case None => None)
    case Template(ps) =>
      (match EvalAll(ps, env, h) case Some(vs) => Some(Str(ShowAll(vs, h.floats))) case None => None)
    case Array(xs) =>
      (match EvalAll(xs, env, h) case Some(vs) => Some(List(vs)) case None => None)
    case Object(fs) =>
      (match EvalFields(fs, env, h) case Some(m) => Some(Map(m)) case None => None)
    case Call(name, args) =>
      (match EvalAll(args, env, h) case Some(vs) => h.funcs(name, vs) case None => None)
    case Conditional(c, t, f) =>
      (match Eval(c, env, h)
       case Some(Bool(b)) => Eval(if b then t else f, env, h)
       case _ => None)
    case For(_, coll, _, _, _, _) =>
      match Eval(coll, env, h)
      case None => None
      case Some(v) =>
        match Pairs(v)
        case None => None
        case Some(pairs) =>
          if |pairs| > env.maxIterations then None
          else
            match EvalRows(e, pairs, env, h)
            case Some(rows) => Some(Collect(e.objectForm, rows))
            case None => None
  }

  ghost function EvalAll(es: seq<Expr>, env: Env, h: Host): Option<seq<Value>>
    decreases es, 0, 0
  {
    AllSome(seq(|es|, i requires 0 <= i < |es| => Eval(es[i], env, h)))
  }

  ghost function EvalFields(fs: seq<Field>, env: Env, h: Host): Option<ValueMap>
    decreases fs, 0, 0
  {
    AllSome(seq(|fs|, i requires 0 <= i < |fs| => EvalField(fs[i], env, h)))
  }

  ghost function EvalField(f: Field, env: Env, h: Host): Option<Entry<Value>>
    decreases f, 0, 0
  {
    ObjectEntry(Eval(f.k, env, h), Eval(f.v, env, h))
  }

  ghost function EvalRows(f: Expr, pairs: seq<(Value, Value)>, env: Env, h: Host): Option<ValueMap>
    requires f.For?
    decreases f, 0, |pairs|
  {
    if pairs == [] then Some([])
    else
      match BindPair(f.binders, pairs[0])
      case None => None
      case Some(bs) => ConsRow(EvalRow(f, env.(binders := env.binders + bs), h), EvalRows(f, pairs[1..], env, h))
  }

  ghost function EvalRow(f: Expr, inner: Env, h: Host): Row
    requires f.For?
    decreases f, 0, 0
  {
    RowOf(f.objectForm,
          if f.filter.Some? then Some(Eval(f.filter.value, inner, h)) else None,
          if f.key.Some? then Some(Eval(f.key.value, inner, h)) else None,
          Eval(f.yield_, inner, h))
  }

  // ---- scopes and environments ----------------------------------------------------------------

  /** The environment that knows exactly what the scope knows. */
  function EnvOf(s: Scope): Env {
    Env(AsMap(s.vars), AsMap(s.locals), s.binders, s.workspace, map[], s.maxIterations, false)
  }

  ghost predicate Agrees(bindings: ValueMap, m: map<string, Value>) {
    forall k :: Find(bindings, k).Some? ==> k in m && Find(bindings, k) == Some(m[k])
  }

  /** `env` answers at least what `s` answers, and has the same binders. */
  ghost predicate Extends(s: Scope, env: Env) {
    && Agrees(s.vars, env.vars)
    && Agrees(s.locals, env.locals)
    && env.binders == s.binders
    && (s.workspace.Some? ==> env.workspace == s.workspace)
    && s.maxIterations <= env.maxIterations
  }

  // ---- exactness: reduction computes the meaning in the scope alone --------------------------

  lemma {:induction false} ReduceIsEval(e: Expr, s: Scope, h: Host)
    ensures AsLiteral(Reduce(e, s, h)) == Eval(e, EnvOf(s), h)
    decreases e, 1, 0
  {
    match e
    case Literal(_) =>
    case Unresolved(_) =>
    case Binary(_, l, r) => ReduceIsEval(l, s, h); ReduceIsEval(r, s, h);
    case Unary(_, x) => ReduceIsEval(x, s, h);
    case Template(ps) => ReduceAllIsEval(ps, s, h);
    case Array(xs) => ReduceAllIsEval(xs, s, h);
    case Object(fs) =>
      forall i | 0 <= i < |fs|
        ensures ObjectEntry(AsLiteral(ReduceField(fs[i], s, h).k), AsLiteral(ReduceField(fs[i], s, h).v))
                == EvalField(fs[i], EnvOf(s), h)
      {
        var f := fs[i];
        ReduceIsEval(f.k, s, h); ReduceIsEval(f.v, s, h);
      }
      var fs' := ReduceFields(fs, s, h);
      assert seq(|fs'|, i requires 0 <= i < |fs'| => ObjectEntry(AsLiteral(fs'[i].k), AsLiteral(fs'[i].v)))
          == seq(|fs|, i requires 0 <= i < |fs| => EvalField(fs[i], EnvOf(s), h));
    case Call(_, args) => ReduceAllIsEval(args, s, h);
    case Conditional(c, t, f) => ReduceIsEval(c, s, h); ReduceIsEval(t, s, h); ReduceIsEval(f, s, h);
    case For(_, coll, _, _, _, _) =>
      ReduceIsEval(coll, s, h);
      var coll' := Reduce(coll, s, h);
      if coll'.Literal? && Pairs(coll'.v).Some? {
        ReduceRowsIsEval(e, Pairs(coll'.v).value, s, h);
      }
  }

  lemma {:induction false} ReduceAllIsEval(es: seq<Expr>, s: Scope, h: Host)
    ensures Literals(ReduceAll(es, s, h)) == EvalAll(es, EnvOf(s), h)
    decreases es, 0, 0
  {
    forall i | 0 <= i < |es| ensures AsLiteral(Reduce(es[i], s, h)) == Eval(es[i], EnvOf(s), h) {
      ReduceIsEval(es[i], s, h);
    }
    var es' := ReduceAll(es, s, h);
    assert seq(|es'|, i requires 0 <= i < |es'| => AsLiteral(es'[i]))
        == seq(|es|, i requires 0 <= i < |es| => Eval(es[i], EnvOf(s), h));
  }

  lemma {:induction false} ReduceRowsIsEval(f: Expr, pairs: seq<(Value, Value)>, s: Scope, h: Host)
    requires f.For?
    ensures ReduceRows(f, pairs, s, h) == EvalRows(f, pairs, EnvOf(s), h)
    decreases f, 0, |pairs|
  {
    if pairs != [] && BindPair(f.binders, pairs[0]).Some? {
      var inner := s.(binders := s.binders + BindPair(f.binders, pairs[0]).value);
      assert EnvOf(inner) == EnvOf(s).(binders := inner.binders);
      if f.filter.Some? { ReduceIsEval(f.filter.value, inner, h); }
      if f.key.Some? { ReduceIsEval(f.key.value, inner, h); }
      ReduceIsEval(f.yield_, inner, h);
      ReduceRowsIsEval(f, pairs[1..], s, h);
    }
  }

  // ---- preservation: under every extension, under the code's own binder order -----------------

  lemma {:induction false} ReducePreserves(e: Expr, s: Scope, env: Env, h: Host)
    requires Extends(s, env) && !env.lexical
    ensures Eval(Reduce(e, s, h), env, h) == Eval(e, env, h)
    decreases e, 1, 0
  {
    match e
    case Literal(_) =>
    case Unresolved(_) =>
    case Binary(_, l, r) => ReducePreserves(l, s, env, h); ReducePreserves(r, s, env, h);
    case Unary(_, x) => ReducePreserves(x, s, env, h);
    case Template(ps) => ReduceAllPreserves(ps, s, env, h);
    case Array(xs) => ReduceAllPreserves(xs, s, env, h);
    case Object(fs) =>
      forall i | 0 <= i < |fs| ensures EvalField(ReduceField(fs[i], s, h), env, h) == EvalField(fs[i], env, h) {
        var f := fs[i];
        ReducePreserves(f.k, s, env, h); ReducePreserves(f.v, s, env, h);
      }
      ReduceFieldsPreserve(fs, s, env, h);
    case Call(_, args) => ReduceAllPreserves(args, s, env, h);
    case Conditional(c, t, f) =>
      ReducePreserves(c, s, env, h); ReducePreserves(t, s, env, h); ReducePreserves(f, s, env, h);
    case For(_, coll, _, _, _, _) =>
      ReducePreserves(coll, s, env, h);
      var coll' := Reduce(coll, s, h);
      if !coll'.Literal? {
        ForCollection(e, coll', env, h);
      } else if Pairs(coll'.v).Some? {
        ReduceRowsPreserve(e, Pairs(coll'.v).value, s, env, h);
      }
  }

  lemma {:induction false} ReduceAllPreserves(es: seq<Expr>, s: Scope, env: Env, h: Host)
    requires Extends(s, env) && !env.lexical
    ensures EvalAll(ReduceAll(es, s, h), env, h) == EvalAll(es, env, h)
    ensures Literals(ReduceAll(es, s, h)).Some? ==> EvalAll(es, env, h) == Literals(ReduceAll(es, s, h))
    decreases es, 0, 0
  {
    var es' := ReduceAll(es, s, h);
    forall i | 0 <= i < |es| ensures Eval(es'[i], env, h) == Eval(es[i], env, h) {
      ReducePreserves(es[i], s, env, h);
    }
    assert seq(|es'|, i requires 0 <= i < |es'| => Eval(es'[i], env, h))
        == seq(|es|, i requires 0 <= i < |es| => Eval(es[i], env, h));
    LiteralsEval(es', env, h);
  }

  lemma ReduceFieldsPreserve(fs: seq<Field>, s: Scope, env: Env, h: Host)
    requires forall i :: 0 <= i < |fs| ==> EvalField(ReduceField(fs[i], s, h), env, h) == EvalField(fs[i], env, h)
    ensures var fs' := ReduceFields(fs, s, h);
            && EvalFields(fs', env, h) == EvalFields(fs, env, h)
            && (LiteralFields(fs').Some? ==> EvalFields(fs', env, h) == LiteralFields(fs'))
  {
    hide EvalField, ReduceField, LiteralFields;
    var fs' := ReduceFields(fs, s, h);
    assert seq(|fs'|, i requires 0 <= i < |fs'| => EvalField(fs'[i], env, h))
        == seq(|fs|, i requires 0 <= i < |fs| => EvalField(fs[i], env, h));
    LiteralFieldsEval(fs', env, h);
  }

  lemma LiteralsEval(es: seq<Expr>, env: Env, h: Host)
    ensures Literals(es).Some? ==> EvalAll(es, env, h) == Literals(es)
  {
    if Literals(es).Some? {
      assert forall i :: 0 <= i < |es| ==> AsLiteral(es[i]).Some? by {
        forall i | 0 <= i < |es| ensures AsLiteral(es[i]).Some? {
          assert seq(|es|, k requires 0 <= k < |es| => AsLiteral(es[k]))[i] == AsLiteral(es[i]);
        }
      }
      assert seq(|es|, i requires 0 <= i < |es| => AsLiteral(es[i]))
          == seq(|es|, i requires 0 <= i < |es| => Eval(es[i], env, h));
    }
  }

  lemma LiteralFieldsEval(fs: seq<Field>, env: Env, h: Host)
    ensures LiteralFields(fs).Some? ==> EvalFields(fs, env, h) == LiteralFields(fs)
  {
    if LiteralFields(fs).Some? {
      var parts := seq(|fs|, i requires 0 <= i < |fs| => ObjectEntry(AsLiteral(fs[i].k), AsLiteral(fs[i].v)));
      forall i | 0 <= i < |fs| ensures parts[i] == EvalField(fs[i], env, h) {
        assert parts[i].Some?;
      }
      assert parts == seq(|fs|, i requires 0 <= i < |fs| => EvalField(fs[i], env, h));
    }
  }

  /** Replacing the collection by one of equal meaning keeps a comprehension's meaning. */
  lemma {:induction false} ForCollection(e: Expr, coll: Expr, env: Env, h: Host)
    requires e.For? && Eval(coll, env, h) == Eval(e.collection, env, h)
    ensures Eval(e.(collection := coll), env, h) == Eval(e, env, h)
  {
    forall pairs { RowsIgnoreCollection(e, coll, pairs, env, h); }
  }

  lemma {:induction false} RowsIgnoreCollection(e: Expr, coll: Expr, pairs: seq<(Value, Value)>, env: Env, h: Host)
    requires e.For?
    ensures EvalRows(e.(collection := coll), pairs, env, h) == EvalRows(e, pairs, env, h)
    decreases |pairs|
  {
    if pairs != [] { RowsIgnoreCollection(e, coll, pairs[1..], env, h); }
  }

  lemma {:induction false} ReduceRowsPreserve(f: Expr, pairs: seq<(Value, Value)>, s: Scope, env: Env, h: Host)
    requires f.For? && Extends(s, env) && !env.lexical
    ensures ReduceRows(f, pairs, s, h).Some? ==> EvalRows(f, pairs, env, h) == ReduceRows(f, pairs, s, h)
    decreases f, 0, |pairs|
  {
    if pairs != [] && BindPair(f.binders, pairs[0]).Some? {
      var bs := BindPair(f.binders, pairs[0]).value;
      var inner, innerEnv := s.(binders := s.binders + bs), env.(binders := env.binders + bs);
      if f.filter.Some? { ReducePreserves(f.filter.value, inner, innerEnv, h); }
      if f.key.Some? { ReducePreserves(f.key.value, inner, innerEnv, h); }
      ReducePreserves(f.yield_, inner, innerEnv, h);
      ReduceRowsPreserve(f, pairs[1..], s, env, h);
    }
  }

  // ---- idempotence ----------------------------------------------------------------------------

  lemma {:induction false} ReduceIdempotent(e: Expr, s: Scope, h: Host)
    ensures Reduce(Reduce(e, s, h), s, h) == Reduce(e, s, h)
    decreases e, 1, 0
  {
    match e
    case Literal(_) =>
    case Unresolved(_) =>
    case Binary(_, l, r) => ReduceIdempotent(l, s, h); ReduceIdempotent(r, s, h);
    case Unary(_, x) => ReduceIdempotent(x, s, h);
    case Template(ps) => ReduceAllIdempotent(ps, s, h);
    case Array(xs) => ReduceAllIdempotent(xs, s, h);
    case Object(fs) =>
      var fs' := ReduceFields(fs, s, h);
      forall i | 0 <= i < |fs| ensures ReduceField(fs'[i], s, h) == fs'[i] {
        var f := fs[i];
        assert fs'[i] == ReduceField(f, s, h);
        ReduceIdempotent(f.k, s, h); ReduceIdempotent(f.v, s, h);
      }
      assert ReduceFields(fs', s, h) == fs';
    case Call(_, args) => ReduceAllIdempotent(args, s, h);
    case Conditional(c, t, f) =>
      ReduceIdempotent(c, s, h); ReduceIdempotent(t, s, h); ReduceIdempotent(f, s, h);
    case For(_, coll, _, _, _, _) =>
      ReduceIdempotent(coll, s, h);
  }

  lemma {:induction false} ReduceAllIdempotent(es: seq<Expr>, s: Scope, h: Host)
    ensures ReduceAll(ReduceAll(es, s, h), s, h) == ReduceAll(es, s, h)
    decreases es, 0, 0
  {
    var es' := ReduceAll(es, s, h);
    forall i | 0 <= i < |es| ensures Reduce(es'[i], s, h) == es'[i] {
      ReduceIdempotent(es[i], s, h);
    }
  }

  /** Staged evaluation reaches the same literals as evaluating once with everything known. */
  lemma StagingLosesNothing(e: Expr, s: Scope, later: Scope, h: Host)
    requires Extends(s, EnvOf(later))
    ensures AsLiteral(Reduce(Reduce(e, s, h), later, h)) == AsLiteral(Reduce(e, later, h))
  {
    ReduceIsEval(Reduce(e, s, h), later, h);
    ReduceIsEval(e, later, h);
    ReducePreserves(e, s, EnvOf(later), h);
  }

  // ---- lexical scoping ------------------------------------------------------------------------

  /** No comprehension in `e` re-uses a name of `bound` or of an enclosing comprehension. */
  ghost predicate NoShadow(e: Expr, bound: set<string>)
    decreases e
  {
    match e
    case Literal(_) => true
    case Unresolved(_) => true
    case Binary(_, l, r) => NoShadow(l, bound) && NoShadow(r, bound)
    case Unary(_, x) => NoShadow(x, bound)
    case Template(ps) => forall i :: 0 <= i < |ps| ==> NoShadow(ps[i], bound)
    case Array(xs) => forall i :: 0 <= i < |xs| ==> NoShadow(xs[i], bound)
    case Object(fs) => forall i :: 0 <= i < |fs| ==> NoShadowField(fs[i], bound)
    case Call(_, args) => forall i :: 0 <= i < |args| ==> NoShadow(args[i], bound)
    case Conditional(c, t, f) => NoShadow(c, bound) && NoShadow(t, bound) && NoShadow(f, bound)
    case For(bs, coll, key, y, filter, _) =>
      var inner := bound + set b | b in bs;
      && DistinctStrings(bs) && (forall b | b in bs :: b !in bound)
      && NoShadow(coll, bound) && NoShadow(y, inner)
      && (key.Some? ==> NoShadow(key.value, inner)) && (filter.Some? ==> NoShadow(filter.value, inner))
  }

  ghost predicate NoShadowField(f: Field, bound: set<string>)
    decreases f
  {
    NoShadow(f.k, bound) && NoShadow(f.v, bound)
  }

  lemma {:induction false} DistinctLookups(m: ValueMap, key: string)
    requires DistinctKeys(m)
    ensures Find(m, key) == FindLast(m, key)
  {
    if m != [] {
      var front, last := m[..|m| - 1], [m[|m| - 1]];
      assert m == front + last;
      assert forall i :: 0 <= i < |front| ==> Keys(front)[i] == Keys(m)[i];
      DistinctLookups(front, key);
      FindAppend(front, last, key);
      FindIsFirst(front, key);
      if last[0].key == key {
        assert Keys(m)[|m| - 1] == key;
      }
    }
  }

  lemma LexicalSymbol(sym: Symbolic, env: Env)
    requires DistinctKeys(env.binders)
    ensures EvalSymbol(sym, env.(lexical := true)) == EvalSymbol(sym, env.(lexical := false))
  {
    DistinctLookups(env.binders, sym.source);
  }

  lemma {:induction false} LexicalAgrees(e: Expr, env: Env, h: Host)
    requires DistinctKeys(env.binders) && NoShadow(e, Names(env.binders))
    ensures Eval(e, env.(lexical := true), h) == Eval(e, env.(lexical := false), h)
    decreases e, 1, 0
  {
    hide EvalSymbol, Names, DistinctKeys;
    var bound := Names(env.binders);
    var inn, out := env.(lexical := true), env.(lexical := false);
    match e
    case Literal(_) =>
    case Unresolved(sym) => LexicalSymbol(sym, env);
    case Binary(_, l, r) => LexicalAgrees(l, env, h); LexicalAgrees(r, env, h);
    case Unary(_, x) => LexicalAgrees(x, env, h);
    case Template(ps) => LexicalAgreesAll(ps, env, h);
    case Array(xs) => LexicalAgreesAll(xs, env, h);
    case Object(fs) =>
      forall i | 0 <= i < |fs| ensures EvalField(fs[i], inn, h) == EvalField(fs[i], out, h) {
        var f := fs[i];
        assert NoShadowField(f, bound);
        LexicalAgrees(f.k, env, h); LexicalAgrees(f.v, env, h);
      }
      assert seq(|fs|, i requires 0 <= i < |fs| => EvalField(fs[i], inn, h))
          == seq(|fs|, i requires 0 <= i < |fs| => EvalField(fs[i], out, h));
    case Call(_, args) => LexicalAgreesAll(args, env, h);
    case Conditional(c, t, f) => LexicalAgrees(c, env, h); LexicalAgrees(t, env, h); LexicalAgrees(f, env, h);
    case For(_, coll, _, _, _, _) =>
      LexicalAgrees(coll, env, h);
      if Eval(coll, inn, h).Some? && Pairs(Eval(coll, inn, h).value).Some? {
        LexicalAgreesRows(e, Pairs(Eval(coll, inn, h).value).value, env, h);
      }
  }

  lemma {:induction false} LexicalAgreesAll(es: seq<Expr>, env: Env, h: Host)
    requires DistinctKeys(env.binders)
    requires forall i :: 0 <= i < |es| ==> NoShadow(es[i], Names(env.binders))
    ensures EvalAll(es, env.(lexical := true), h) == EvalAll(es, env.(lexical := false), h)
    decreases es, 0, 0
  {
    var inn, out := env.(lexical := true), env.(lexical := false);
    forall i | 0 <= i < |es| ensures Eval(es[i], inn, h) == Eval(es[i], out, h) {
      LexicalAgrees(es[i], env, h);
    }
    assert seq(|es|, i requires 0 <= i < |es| => Eval(es[i], inn, h))
        == seq(|es|, i requires 0 <= i < |es| => Eval(es[i], out, h));
  }

  lemma {:induction false} LexicalAgreesRows(f: Expr, pairs: seq<(Value, Value)>, env: Env, h: Host)
    requires f.For? && DistinctKeys(env.binders) && NoShadow(f, Names(env.binders))
    ensures EvalRows(f, pairs, env.(lexical := true), h) == EvalRows(f, pairs, env.(lexical := false), h)
    decreases f, 0, |pairs|
  {
    if pairs != [] && BindPair(f.binders, pairs[0]).Some? {
      var bs := BindPair(f.binders, pairs[0]).value;
      var inner := env.(binders := env.binders + bs);
      BindKeys(env.binders, f.binders, bs);
      assert env.(lexical := true).(binders := inner.binders) == inner.(lexical := true);
      assert env.(lexical := false).(binders := inner.binders) == inner.(lexical := false);
      if f.filter.Some? { LexicalAgrees(f.filter.value, inner, h); }
      if f.key.Some? { LexicalAgrees(f.key.value, inner, h); }
      LexicalAgrees(f.yield_, inner, h);
      LexicalAgreesRows(f, pairs[1..], env, h);
    }
  }

  lemma BindKeys(outer: ValueMap, names: seq<string>, bs: ValueMap)
    requires DistinctKeys(outer) && Keys(bs) == names && DistinctStrings(names)
    requires forall b | b in names :: b !in Keys(outer)
    ensures DistinctKeys(outer + bs)
    ensures Names(outer + bs) == Names(outer) + set b | b in names
  {
    assert Keys(outer + bs) == Keys(outer) + names;
    forall i, j | 0 <= i < j < |outer + bs| ensures Keys(outer + bs)[i] != Keys(outer + bs)[j] {
      if i < |outer| <= j {
        assert names[j - |outer|] in names && Keys(outer)[i] in Keys(outer);
      }
    }
  }

  lemma {:induction false} NoShadowSurvives(e: Expr, bound: set<string>, s: Scope, h: Host)
    requires NoShadow(e, bound)
    ensures NoShadow(Reduce(e, s, h), bound)
    decreases e
  {
    match e
    case Literal(_) =>
    case Unresolved(_) =>
    case Binary(_, l, r) => NoShadowSurvives(l, bound, s, h); NoShadowSurvives(r, bound, s, h);
    case Unary(_, x) => NoShadowSurvives(x, bound, s, h);
    case Template(ps) => forall i | 0 <= i < |ps| { NoShadowSurvives(ps[i], bound, s, h); }
    case Array(xs) => forall i | 0 <= i < |xs| { NoShadowSurvives(xs[i], bound, s, h); }
    case Object(fs) =>
      forall i | 0 <= i < |fs| ensures NoShadowField(ReduceField(fs[i], s, h), bound) {
        var f := fs[i];
        assert NoShadowField(f, bound);
        NoShadowSurvives(f.k, bound, s, h); NoShadowSurvives(f.v, bound, s, h);
      }
    case Call(_, args) => forall i | 0 <= i < |args| { NoShadowSurvives(args[i], bound, s, h); }
    case Conditional(c, t, f) =>
      NoShadowSurvives(c, bound, s, h); NoShadowSurvives(t, bound, s, h); NoShadowSurvives(f, bound, s, h);
    case For(_, coll, _, _, _, _) => NoShadowSurvives(coll, bound, s, h);
  }

  /** The main theorem. At apply time, in every environment that extends the scope, a reduced
      expression means what the original meant, under the language's own scoping. */
  lemma ReductionPreservesMeaning(e: Expr, s: Scope, env: Env, h: Host)
    requires Extends(s, env) && env.lexical
    requires DistinctKeys(s.binders) && NoShadow(e, Names(s.binders))
    ensures Eval(Reduce(e, s, h), env, h) == Eval(e, env, h)
  {
    var first := env.(lexical := false);
    NoShadowSurvives(e, Names(s.binders), s, h);
    LexicalAgrees(e, first, h);
    LexicalAgrees(Reduce(e, s, h), first, h);
    ReducePreserves(e, s, first, h);
    assert first.(lexical := true) == env;
  }

  /** Reduction yields a literal exactly when the scope alone determines the value. */
  lemma ReductionIsExact(e: Expr, s: Scope, h: Host)
    requires DistinctKeys(s.binders) && NoShadow(e, Names(s.binders))
    ensures AsLiteral(Reduce(e, s, h)) == Eval(e, EnvOf(s).(lexical := true), h)
  {
    ReduceIsEval(e, s, h);
    LexicalAgrees(e, EnvOf(s), h);
  }

  /** Why the names must differ: `[for x in [a] : [for x in [b] : x]]` means `[[b]]`, and the
      evaluator answers with the outermost binding of `x`, `[[a]]` if the scope has none; it is right only
      when that value and `b` coincide. */
  lemma ShadowedBinder(x: string, a: Value, b: Value, s: Scope, h: Host)
    requires s.maxIterations >= 1
    ensures var inner := For([x], Literal(List([b])), None, Unresolved(Symbolic(Other, x)), None, false);
            var e := For([x], Literal(List([a])), None, inner, None, false);
            && Reduce(e, s, h) == Literal(List([List([Seen(s.binders, x, a)])]))
            && Eval(e, EnvOf(s).(lexical := true), h) == Some(List([List([b])]))
            && (AsLiteral(Reduce(e, s, h)) == Eval(e, EnvOf(s).(lexical := true), h) <==> Seen(s.binders, x, a) == b)
  {
    var use := Unresolved(Symbolic(Other, x));
    var inner := For([x], Literal(List([b])), None, use, None, false);
    var e := For([x], Literal(List([a])), None, inner, None, false);
    var env := EnvOf(s).(lexical := true);
    var s1 := s.(binders := s.binders + [Entry(x, a)]);
    var e1 := env.(binders := s1.binders);
    var seen := Seen(s.binders, x, a);
    FindAppend(s.binders, [Entry(x, a)], x);
    FindAppend(s1.binders, [Entry(x, b)], x);
    FindLastAppend(s1.binders, [Entry(x, b)], x);
    Singleton(inner, b, s1, e1, h);
    Singleton(e, a, s, env, h);
    assert List([List([seen])]).items[0].items[0] == seen && List([List([b])]).items[0].items[0] == b;
  }

  /** A plain list comprehension over a one-element list evaluates its body once. */
  lemma Singleton(f: Expr, v: Value, s: Scope, env: Env, h: Host)
    requires f.For? && |f.binders| == 1 && f.key.None? && f.filter.None? && !f.objectForm
    requires f.collection == Literal(List([v])) && s.maxIterations >= 1 && env.maxIterations >= 1
    ensures var inner := s.(binders := s.binders + [Entry(f.binders[0], v)]);
            AsLiteral(Reduce(f.yield_, inner, h)).Some? ==>
              Reduce(f, s, h) == Literal(List([Reduce(f.yield_, inner, h).v]))
    ensures var inner := env.(binders := env.binders + [Entry(f.binders[0], v)]);
            Eval(f.yield_, inner, h).Some? ==> Eval(f, env, h) == Some(List([Eval(f.yield_, inner, h).value]))
  {
    var pair: (Value, Value) := (Int(0), v);
    var pairs := [pair];
    assert Pairs(List([v])).value == pairs;
    assert pairs[1..] == [];
    var inner := s.(binders := s.binders + [Entry(f.binders[0], v)]);
    var innerEnv := env.(binders := env.binders + [Entry(f.binders[0], v)]);
    assert ReduceRows(f, pairs[1..], s, h) == Some([]) && EvalRows(f, pairs[1..], env, h) == Some([]);
    assert ReduceRows(f, pairs, s, h) == ConsRow(ReduceRow(f, inner, h), Some([]));
    assert EvalRows(f, pairs, env, h) == ConsRow(EvalRow(f, innerEnv, h), Some([]));
    forall w: Value ensures Collect(false, [Entry("", w)] + []) == List([w]) {
      assert Collect(false, [Entry("", w)] + []).items == [w];
    }
  }
}
