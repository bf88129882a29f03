/** Best-effort partial evaluation of expressions (`eval/reduce.rs`). */
module Reducer {
  import opened Ir
  import opened Text

  /** IEEE binary64 operations, kept abstract: every theorem holds for all choices. */
  datatype Floats = Floats(
    ofInt: int -> Float,
    arith: (BinaryOp, Float, Float) -> Float,
    isZero: Float -> bool,
    neg: Float -> Float,
    cmp: (Float, Float) -> Option<Ordering>,
    eq: (Float, Float) -> bool,
    show: Float -> string)

  /** What the evaluator calls out to: the function registry (`None` for an unbound name or a
      failing call) and float arithmetic. */
  datatype Host = Host(funcs: (string, seq<Value>) -> Option<Value>, floats: Floats)

  datatype Scope = Scope(
    vars: ValueMap,
    locals: ValueMap,
    binders: ValueMap,
    workspace: Option<string>,
    maxIterations: nat)

  // ---- values ---------------------------------------------------------------------------------

  /** Attribute access through nested maps, written recursively. */
  function Descend(root: Value, tail: string): Option<Value>
    decreases |tail|
  {
    if tail == "" then Some(root)
    else if !root.Map? then None
    else
      match Find(root.entries, Head(tail))
      case None => None
      case Some(next) => Descend(next, Tail(tail))
  }

  method DescendAttributes(root: Value, tail: string) returns (r: Option<Value>)
    ensures r == Descend(root, tail)
  {
    var current, rest := root, tail;
    while rest != ""
      invariant Descend(root, tail) == Descend(current, rest)
      decreases |rest|
    {
      if !current.Map? {
        return None;
      }
      var next := Find(current.entries, Head(rest));
      if next.None? {
        return None;
      }
      current, rest := next.value, Tail(rest);
    }
    return Some(current);
  }

  function ToFloat(v: Value, fl: Floats): Option<Float> {
    match v
    case Int(n) => Some(fl.ofInt(n))
    case Number(f) => Some(f)
    case _ => None
  }

  function Checked(n: int): Option<Value> {
    if InI64(n) then Some(Int(n)) else None
  }

  function FloatArith(op: BinaryOp, a: Value, b: Value, fl: Floats): Option<Value> {
    match (ToFloat(a, fl), ToFloat(b, fl))
    case (Some(x), Some(y)) => Some(Number(fl.arith(op, x, y)))
    case _ => None
  }

  /** Rust integer division truncates toward zero; Dafny's rounds the remainder non-negative. */
  function TruncDiv(a: int, b: int): int
    requires b != 0
  {
    if a >= 0 then a / b else -((-a) / b)
  }

  /** Derived structural equality of values, with floats compared by the host. */
  predicate SameValue(a: Value, b: Value, fl: Floats) {
    match (a, b)
    case (Number(x), Number(y)) => fl.eq(x, y)
    case (List(xs), List(ys)) =>
      |xs| == |ys| && forall i :: 0 <= i < |xs| ==> SameValue(xs[i], ys[i], fl)
    case (Map(xs), Map(ys)) =>
      |xs| == |ys| && forall i :: 0 <= i < |xs| ==> xs[i].key == ys[i].key && SameValue(xs[i].val, ys[i].val, fl)
    case _ => a == b
  }

  predicate ValuesEqual(a: Value, b: Value, fl: Floats) {
    match (a, b)
    case (Int(x), Number(y)) => fl.eq(y, fl.ofInt(x))
    case (Number(y), Int(x)) => fl.eq(y, fl.ofInt(x))
    case _ => SameValue(a, b, fl)
  }

  function Compare(a: Value, b: Value, fl: Floats): Option<Ordering> {
    match (a, b)
    case (Int(x), Int(y)) => Some(if x < y then Less else if x == y then Equal else Greater)
    case (Str(x), Str(y)) => Some(CompareStrings(x, y))
    case _ =>
      match (ToFloat(a, fl), ToFloat(b, fl))
      case (Some(x), Some(y)) => fl.cmp(x, y)
      case _ => None
  }

  function EvalBinary(op: BinaryOp, a: Value, b: Value, fl: Floats): Option<Value> {
    match op
    case Add =>
      if a.Int? && b.Int? then Checked(a.n + b.n)
      else if a.Str? && b.Str? then Some(Str(a.s + b.s))
      else FloatArith(op, a, b, fl)
    case Sub => if a.Int? && b.Int? then Checked(a.n - b.n) else FloatArith(op, a, b, fl)
    case Mul => if a.Int? && b.Int? then Checked(a.n * b.n) else FloatArith(op, a, b, fl)
    case Div =>
      if a.Int? && b.Int? && b.n == 0 then None
      else if a.Int? && b.Int? && InI64(TruncDiv(a.n, b.n)) then Some(Int(TruncDiv(a.n, b.n)))
      else
        (match ToFloat(b, fl)
         case Some(y) => if fl.isZero(y) then None else FloatArith(op, a, b, fl)
         case None => None)
    case Mod =>
      if a.Int? && b.Int? then
        // The quotient of the smallest integer by -1 overflows: no value is produced there.
        if b.n == 0 || (a.n == I64_MIN && b.n == -1) then None else EuclidRem(a.n, b.n)
      else FloatArith(op, a, b, fl)
    case Eq => Some(Bool(ValuesEqual(a, b, fl)))
    case Ne => Some(Bool(!ValuesEqual(a, b, fl)))
    case Lt => (match Compare(a, b, fl) case Some(o) => Some(Bool(o == Less)) case None => None)
    case Le => (match Compare(a, b, fl) case Some(o) => Some(Bool(o != Greater)) case None => None)
    case Gt => (match Compare(a, b, fl) case Some(o) => Some(Bool(o == Greater)) case None => None)
    case Ge => (match Compare(a, b, fl) case Some(o) => Some(Bool(o != Less)) case None => None)
    case And => if a.Bool? && b.Bool? then Some(Bool(a.b && b.b)) else None
    case Or => if a.Bool? && b.Bool? then Some(Bool(a.b || b.b)) else None
  }

  function EuclidRem(a: i64, b: i64): Option<Value>
    requires b != 0
  {
    Checked(a % b)
  }

  function EvalUnary(op: UnaryOp, v: Value, fl: Floats): Option<Value> {
    match (op, v)
    case (Neg, Int(n)) => Checked(0 - n as int)
    case (Neg, Number(f)) => Some(Number(fl.neg(f)))
    case (Not, Bool(b)) => Some(Bool(!b))
    case _ => None
  }

  /** `render_value_as_str`: how a value appears inside a string template. */
  function Show(v: Value, fl: Floats): string {
    match v
    case Str(s) => s
    case Bool(b) => if b then "true" else "false"
    case Int(n) => Dec(n)
    case Number(f) => fl.show(f)
    case Null => ""
    case List(items) => "[" + Join(seq(|items|, i requires 0 <= i < |items| => Show(items[i], fl)), ", ") + "]"
    case Map(es) =>
      "{ " + Join(seq(|es|, i requires 0 <= i < |es| => es[i].key + " = " + Show(es[i].val, fl)), ", ") + " }"
  }

  function ShowAll(vs: seq<Value>, fl: Floats): string {
    Concat(seq(|vs|, i requires 0 <= i < |vs| => Show(vs[i], fl)))
  }

  // ---- literals -------------------------------------------------------------------------------

  function AsLiteral(e: Expr): Option<Value> {
    if e.Literal? then Some(e.v) else None
  }

  /** All the values, if every element is there. */
  function AllSome<T>(xs: seq<Option<T>>): (r: Option<seq<T>>)
    ensures r.Some? <==> forall i :: 0 <= i < |xs| ==> xs[i].Some?
    ensures r.Some? ==> |r.value| == |xs| && forall i :: 0 <= i < |xs| ==> xs[i] == Some(r.value[i])
  {
    if forall i :: 0 <= i < |xs| ==> xs[i].Some? then
      Some(seq(|xs|, i requires 0 <= i < |xs| => xs[i].value))
    else None
  }

  function Literals(es: seq<Expr>): Option<seq<Value>> {
    AllSome(seq(|es|, i requires 0 <= i < |es| => AsLiteral(es[i])))
  }

  /** An object collapses only when every key is a string and every value is present. */
  function ObjectEntry(k: Option<Value>, v: Option<Value>): Option<Entry<Value>> {
    match (k, v)
    case (Some(Str(s)), Some(x)) => Some(Entry(s, x))
    case _ => None
  }

  function LiteralFields(fs: seq<Field>): Option<ValueMap> {
    AllSome(seq(|fs|, i requires 0 <= i < |fs| => ObjectEntry(AsLiteral(fs[i].k), AsLiteral(fs[i].v))))
  }

  // ---- for comprehensions ---------------------------------------------------------------------

  /** The `(key, value)` pairs a comprehension iterates over. */
  function Pairs(v: Value): Option<seq<(Value, Value)>> {
    match v
    case List(items) =>
      Some(seq(|items|, i requires 0 <= i < |items| => (Int(if i <= I64_MAX then i else I64_MAX), items[i])))
    case Map(es) => Some(seq(|es|, i requires 0 <= i < |es| => (Str(es[i].key), es[i].val)))
    case _ => None
  }

  function BindPair(binders: seq<string>, pair: (Value, Value)): Option<ValueMap> {
    if |binders| == 1 then Some([Entry(binders[0], pair.1)])
    else if |binders| == 2 then Some([Entry(binders[0], pair.0), Entry(binders[1], pair.1)])
    else None
  }

  /** What one iteration contributes. */
  datatype Row = Skip | Stuck | Yield(key: string, val: Value)

  /** `filter` and `key` are `None` when the clause is absent, `Some(None)` when it is present but
      has no value. */
  function RowOf(objectForm: bool, filter: Option<Option<Value>>, key: Option<Option<Value>>, val: Option<Value>): Row {
    if filter == Some(Some(Bool(false))) then Skip
    else if filter.Some? && filter != Some(Some(Bool(true))) then Stuck
    else if val.None? then Stuck
    else if !objectForm then Yield("", val.value)
    else if key.Some? && key.value.Some? && key.value.value.Str? then Yield(key.value.value.s, val.value)
    else Stuck
  }

  function ConsRow(row: Row, rest: Option<ValueMap>): Option<ValueMap> {
    match row
    case Stuck => None
    case Skip => rest
    case Yield(k, v) => (match rest case Some(rs) => Some([Entry(k, v)] + rs) case None => None)
  }

  function Collect(objectForm: bool, rows: ValueMap): Value {
    if objectForm then Map(rows) else List(seq(|rows|, i requires 0 <= i < |rows| => rows[i].val))
  }

  // ---- the reducer ----------------------------------------------------------------------------

  function ReducePath(e: Expr, bindings: ValueMap, prefix: string, source: string): Expr {
    var rest := StripPrefix(source, prefix);
    match Find(bindings, Head(rest))
    case None => e
    case Some(v) => (match Descend(v, Tail(rest)) case Some(x) => Literal(x) case None => e)
  }

  function ReduceSymbol(sym: Symbolic, s: Scope): Expr {
    var e := Unresolved(sym);
    match sym.kind
    case Var => ReducePath(e, s.vars, "var.", sym.source)
    case Local => ReducePath(e, s.locals, "local.", sym.source)
    case Terraform =>
      if sym.source == "terraform.workspace" && s.workspace.Some? then Literal(Str(s.workspace.value)) else e
    case Other => (match Find(s.binders, sym.source) case Some(v) => Literal(v) case None => e)
    case _ => e
  }

  function OrLiteral(v: Option<Value>, e: Expr): Expr {
    match v
    case Some(x) => Literal(x)
    case None => e
  }

  function FoldBinary(op: BinaryOp, l: Expr, r: Expr, fl: Floats): Option<Value> {
    if l.Literal? && r.Literal? then EvalBinary(op, l.v, r.v, fl) else None
  }

  function Reduce(e: Expr, s: Scope, h: Host): Expr
    decreases e, 1, 0
  {
    match e
    case Literal(_) => e
    case Unresolved(sym) => ReduceSymbol(sym, s)
    case Binary(op, l, r) =>
      var l', r' := Reduce(l, s, h), Reduce(r, s, h);
      OrLiteral(FoldBinary(op, l', r', h.floats), Binary(op, l', r'))
    case Unary(op, x) =>
      var x' := Reduce(x, s, h);
      OrLiteral(if x'.Literal? then EvalUnary(op, x'.v, h.floats) else None, Unary(op, x'))
    case Template(ps) =>
      var ps' := ReduceAll(ps, s, h);
      (match Literals(ps') case Some(vs) => Literal(Str(ShowAll(vs, h.floats))) case None => Template(ps'))
    case Array(xs) =>
      var xs' := ReduceAll(xs, s, h);
      (match Literals(xs') case Some(vs) => Literal(List(vs)) case None => Array(xs'))
    case Object(fs) =>
      var fs' := ReduceFields(fs, s, h);
      (match LiteralFields(fs') case Some(m) => Literal(Map(m)) case None => Object(fs'))
    case Call(name, args) =>
      var args' := ReduceAll(args, s, h);
      (match Literals(args') case Some(vs) => OrLiteral(h.funcs(name, vs), Call(name, args')) case None => Call(name, args'))
    case Conditional(c, t, f) =>
      var c' := Reduce(c, s, h);
      if c'.Literal? && c'.v.Bool? then Reduce(if c'.v.b then t else f, s, h)
      else Conditional(c', Reduce(t, s, h), Reduce(f, s, h))
    case For(_, coll, _, _, _, _) =>
      var coll' := Reduce(coll, s, h);
      if !coll'.Literal? then e.(collection := coll')
      else
        // A comprehension whose body resists is returned whole, original collection included.
        match Pairs(coll'.v)
        case None => e
        case Some(pairs) =>
          if |pairs| > s.maxIterations then e
          else
            match ReduceRows(e, pairs, s, h)
            case Some(rows) => Literal(Collect(e.objectForm, rows))
            case None => e
  }

  function ReduceAll(es: seq<Expr>, s: Scope, h: Host): (r: seq<Expr>)
    ensures |r| == |es|
    decreases es, 0, 0
  {
    seq(|es|, i requires 0 <= i < |es| => Reduce(es[i], s, h))
  }

  function ReduceFields(fs: seq<Field>, s: Scope, h: Host): (r: seq<Field>)
    ensures |r| == |fs|
    decreases fs, 0, 0
  {
    seq(|fs|, i requires 0 <= i < |fs| => ReduceField(fs[i], s, h))
  }

  function ReduceField(f: Field, s: Scope, h: Host): Field
    decreases f, 0, 0
  {
    Field(Reduce(f.k, s, h), Reduce(f.v, s, h))
  }

  /** The rows of comprehension `f` over `pairs`; `None` as soon as one iteration is stuck. */
  function ReduceRows(f: Expr, pairs: seq<(Value, Value)>, s: Scope, h: Host): Option<ValueMap>
    requires f.For?
    decreases f, 0, |pairs|
  {
    if pairs == [] then Some([])
    else
      match BindPair(f.binders, pairs[0])
      case None => None
      case Some(bs) => ConsRow(ReduceRow(f, s.(binders := s.binders + bs), h), ReduceRows(f, pairs[1..], s, h))
  }

  function ReduceRow(f: Expr, inner: Scope, h: Host): Row
    requires f.For?
    decreases f, 0, 0
  {
    RowOf(f.objectForm,
          if f.filter.Some? then Some(AsLiteral(Reduce(f.filter.value, inner, h))) else None,
          if f.key.Some? then Some(AsLiteral(Reduce(f.key.value, inner, h))) else None,
          AsLiteral(Reduce(f.yield_, inner, h)))
  }

  /** `reduce_for`: the iteration loop, with its two accumulators. */
  method ReduceFor(f: Expr, collection: Value, s: Scope, h: Host) returns (r: Expr)
    requires f.For?
    ensures r == match Pairs(collection)
                 case None => f
                 case Some(pairs) =>
                   if |pairs| > s.maxIterations then f
                   else OrLiteral(match ReduceRows(f, pairs, s, h)
                                  case Some(rows) => Some(Collect(f.objectForm, rows))
                                  case None => None, f)
  {
    hide Reduce, Pairs, BindPair;
    var materialised := Pairs(collection);
    if materialised.None? {
      return f;
    }
    var pairs := materialised.value;
    if |pairs| > s.maxIterations {
      return f;
    }
    var outList: seq<Value> := [];
    var outMap: ValueMap := [];
    ghost var rows: ValueMap := [];
    var i := 0;
    assert pairs[0..] == pairs;
    ghost var all := ReduceRows(f, pairs, s, h);
    assert all.Some? ==> [] + all.value == all.value;
    while i < |pairs|
      invariant 0 <= i <= |pairs|
      invariant if f.objectForm then outMap == rows else outList == Collect(false, rows).items
      invariant all ==
                match ReduceRows(f, pairs[i..], s, h) case Some(rest) => Some(rows + rest) case None => None
    {
      var rest := pairs[i + 1..];
      assert pairs[i..][0] == pairs[i] && pairs[i..][1..] == rest;
      var bs := BindPair(f.binders, pairs[i]);
      if bs.None? {
        return f;
      }
      var inner := s.(binders := s.binders + bs.value);
      i := i + 1;
      if f.filter.Some? {
        var test := Reduce(f.filter.value, inner, h);
        if test == Literal(Bool(false)) {
          continue;
        }
        if test != Literal(Bool(true)) {
          return f;
        }
      }
      var value := Reduce(f.yield_, inner, h);
      if !value.Literal? {
        return f;
      }
      var key := "";
      if f.objectForm {
        if f.key.None? {
          return f;
        }
        var k := Reduce(f.key.value, inner, h);
        if !k.Literal? || !k.v.Str? {
          return f;
        }
        key := k.v.s;
        outMap := outMap + [Entry(key, value.v)];
      } else {
        outList := outList + [value.v];
      }
      ghost var more := ReduceRows(f, rest, s, h);
      assert more.Some? ==> rows + ([Entry(key, value.v)] + more.value) == (rows + [Entry(key, value.v)]) + more.value;
      rows := rows + [Entry(key, value.v)];
    }
    assert pairs[i..] == [] && rows + [] == rows;
    r := Literal(if f.objectForm then Map(outMap) else List(outList));
  }
}
