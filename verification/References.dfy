/** The symbolic references inside an expression: which there are, how many, and that evaluation never
    adds one (`ir/expression.rs`, `exporter/secondary.rs`). */
module References {
  import opened Ir
  import opened Reducer

  /** All symbols occurring in an expression. */
  ghost function Symbols(e: Expr): set<Symbolic>
    decreases e
  {
    match e
    case Literal(_) => {}
    case Unresolved(sym) => {sym}
    case Binary(_, l, r) => Symbols(l) + Symbols(r)
    case Unary(_, x) => Symbols(x)
    case Template(ps) => SymbolsAll(ps)
    case Array(xs) => SymbolsAll(xs)
    case Object(fs) => set i, s | 0 <= i < |fs| && s in SymbolsField(fs[i]) :: s
    case Call(_, args) => SymbolsAll(args)
    case Conditional(c, t, f) => Symbols(c) + Symbols(t) + Symbols(f)
    case For(_, coll, key, y, filter, _) =>
      Symbols(coll) + Symbols(y)
      + (if key.Some? then Symbols(key.value) else {})
      + (if filter.Some? then Symbols(filter.value) else {})
  }

  ghost function SymbolsAll(es: seq<Expr>): set<Symbolic>
    decreases es
  {
    set i, s | 0 <= i < |es| && s in Symbols(es[i]) :: s
  }

  ghost function SymbolsField(f: Field): set<Symbolic>
    decreases f
  {
    Symbols(f.k) + Symbols(f.v)
  }

  predicate IsFullyResolved(e: Expr)
    decreases e
  {
    match e
    case Literal(_) => true
    case Unresolved(_) => false
    case Binary(_, l, r) => IsFullyResolved(l) && IsFullyResolved(r)
    case Unary(_, x) => IsFullyResolved(x)
    case Template(ps) => forall i :: 0 <= i < |ps| ==> IsFullyResolved(ps[i])
    case Array(xs) => forall i :: 0 <= i < |xs| ==> IsFullyResolved(xs[i])
    case Object(fs) => forall i :: 0 <= i < |fs| ==> FieldResolved(fs[i])
    case Call(_, args) => forall i :: 0 <= i < |args| ==> IsFullyResolved(args[i])
    case Conditional(c, t, f) => IsFullyResolved(c) && IsFullyResolved(t) && IsFullyResolved(f)
    case For(_, coll, key, y, filter, _) =>
      && IsFullyResolved(coll) && IsFullyResolved(y)
      && (key.Some? ==> IsFullyResolved(key.value)) && (filter.Some? ==> IsFullyResolved(filter.value))
  }

  predicate FieldResolved(f: Field)
    decreases f
  {
    IsFullyResolved(f.k) && IsFullyResolved(f.v)
  }

  // ---- counting -------------------------------------------------------------------------------

  function Sum(ns: seq<nat>): nat {
    if ns == [] then 0 else Sum(ns[..|ns| - 1]) + ns[|ns| - 1]
  }

  lemma {:induction false} SumMonotone(a: seq<nat>, b: seq<nat>)
    requires |a| == |b| && forall i :: 0 <= i < |a| ==> a[i] <= b[i]
    ensures Sum(a) <= Sum(b)
    decreases |a|
  {
    if a != [] { SumMonotone(a[..|a| - 1], b[..|b| - 1]); }
  }

  lemma {:induction false} SumZero(a: seq<nat>)
    ensures Sum(a) == 0 <==> forall i :: 0 <= i < |a| ==> a[i] == 0
    decreases |a|
  {
    if a != [] {
      SumZero(a[..|a| - 1]);
      assert forall i :: 0 <= i < |a| - 1 ==> a[..|a| - 1][i] == a[i];
    }
  }

  function Count(e: Expr): nat
    decreases e
  {
    match e
    case Literal(_) => 0
    case Unresolved(_) => 1
    case Binary(_, l, r) => Count(l) + Count(r)
    case Unary(_, x) => Count(x)
    case Template(ps) => CountAll(ps)
    case Array(xs) => CountAll(xs)
    case Object(fs) => Sum(seq(|fs|, i requires 0 <= i < |fs| => CountField(fs[i])))
    case Call(_, args) => CountAll(args)
    case Conditional(c, t, f) => Count(c) + Count(t) + Count(f)
    case For(_, coll, key, y, filter, _) =>
      Count(coll) + Count(y)
      + (if key.Some? then Count(key.value) else 0)
      + (if filter.Some? then Count(filter.value) else 0)
  }

  function CountAll(es: seq<Expr>): nat
    decreases es
  {
    Sum(seq(|es|, i requires 0 <= i < |es| => Count(es[i])))
  }

  function CountField(f: Field): nat
    decreases f
  {
    Count(f.k) + Count(f.v)
  }

  /** `count_unresolved`'s walk: a saturating counter threaded through the tree. */
  method CountUnresolved(e: Expr, n: u64) returns (r: u64)
    ensures r == Saturate(n + Count(e))
    decreases e, 1
  {
    hide CountAll, CountField;
    r := n;
    match e {
      case Literal(_) =>
      case Unresolved(_) =>
        if r < U64_MAX {
          r := r + 1;
        }
      case Binary(_, lhs, rhs) =>
        r := CountUnresolved(lhs, r);
        r := CountUnresolved(rhs, r);
      case Unary(_, x) =>
        r := CountUnresolved(x, r);
      case Template(ps) =>
        r := CountUnresolvedAll(ps, r);
      case Array(xs) =>
        r := CountUnresolvedAll(xs, r);
      case Object(fs) =>
        r := CountUnresolvedFields(fs, r);
      case Call(_, args) =>
        r := CountUnresolvedAll(args, r);
      case Conditional(c, t, f) =>
        r := CountUnresolved(c, r);
        r := CountUnresolved(t, r);
        r := CountUnresolved(f, r);
      case For(_, coll, key, y, filter, _) =>
        r := CountUnresolved(coll, r);
        r := CountUnresolved(y, r);
        if key.Some? {
          r := CountUnresolved(key.value, r);
        }
        if filter.Some? {
          r := CountUnresolved(filter.value, r);
        }
    }
  }

  lemma SumOne(ns: seq<nat>, n: nat)
    ensures Sum(ns + [n]) == Sum(ns) + n
  {
    assert (ns + [n])[..|ns|] == ns;
  }

  lemma NothingCounted(n: u64)
    ensures Saturate(n + Sum([])) == n
  {
  }

  lemma SaturateTwice(n: nat, m: nat)
    ensures Saturate(Saturate(n) + m) == Saturate(n + m)
  {
  }

  lemma NextCount(es: seq<Expr>, i: nat)
    requires i < |es|
    ensures seq(i + 1, k requires 0 <= k < i + 1 => Count(es[k])) ==
            seq(i, k requires 0 <= k < i => Count(es[k])) + [Count(es[i])]
  {
    hide Count;
  }

  lemma NextFieldCount(fs: seq<Field>, i: nat)
    requires i < |fs|
    ensures seq(i + 1, k requires 0 <= k < i + 1 => CountField(fs[k])) ==
            seq(i, k requires 0 <= k < i => CountField(fs[k])) + [CountField(fs[i])]
  {
    hide CountField;
  }

  method CountUnresolvedFields(fs: seq<Field>, n: u64) returns (r: u64)
    ensures r == Saturate(n + Count(Object(fs)))
    decreases fs, 0
  {
    hide CountField, Sum, Saturate;
    r := n;
    NothingCounted(n);
    ghost var counts: seq<nat> := [];
    for i := 0 to |fs|
      invariant counts == seq(i, k requires 0 <= k < i => CountField(fs[k]))
      invariant r == Saturate(n + Sum(counts))
    {
      r := CountUnresolvedField(fs[i], r);
      SumOne(counts, CountField(fs[i]));
      SaturateTwice(n + Sum(counts), CountField(fs[i]));
      NextFieldCount(fs, i);
      counts := counts + [CountField(fs[i])];
    }
  }

  method CountUnresolvedField(f: Field, n: u64) returns (r: u64)
    ensures r == Saturate(n + CountField(f))
    decreases f, 0
  {
    r := CountUnresolved(f.k, n);
    r := CountUnresolved(f.v, r);
  }

  method CountUnresolvedAll(es: seq<Expr>, n: u64) returns (r: u64)
    ensures r == Saturate(n + CountAll(es))
    decreases es, 0
  {
    hide Count, CountField, Sum, Saturate;
    r := n;
    NothingCounted(n);
    ghost var counts: seq<nat> := [];
    for i := 0 to |es|
      invariant counts == seq(i, k requires 0 <= k < i => Count(es[k]))
      invariant r == Saturate(n + Sum(counts))
    {
      r := CountUnresolved(es[i], r);
      SumOne(counts, Count(es[i]));
      SaturateTwice(n + Sum(counts), Count(es[i]));
      NextCount(es, i);
      counts := counts + [Count(es[i])];
    }
  }

  // ---- the three views agree ------------------------------------------------------------------

  lemma {:induction false} ResolvedMeansNoSymbols(e: Expr)
    ensures IsFullyResolved(e) <==> Count(e) == 0
    ensures IsFullyResolved(e) <==> Symbols(e) == {}
    decreases e
  {
    match e
    case Literal(_) =>
    case Unresolved(_) =>
    case Binary(_, l, r) => ResolvedMeansNoSymbols(l); ResolvedMeansNoSymbols(r);
    case Unary(_, x) => ResolvedMeansNoSymbols(x);
    case Template(ps) => AllResolvedMeansNoSymbols(ps);
    case Array(xs) => AllResolvedMeansNoSymbols(xs);
    case Object(fs) =>
      var counts := seq(|fs|, i requires 0 <= i < |fs| => CountField(fs[i]));
      forall i | 0 <= i < |fs|
        ensures FieldResolved(fs[i]) <==> counts[i] == 0
        ensures FieldResolved(fs[i]) <==> SymbolsField(fs[i]) == {}
      {
        var f := fs[i];
        ResolvedMeansNoSymbols(f.k); ResolvedMeansNoSymbols(f.v);
      }
      SumZero(counts);
      if !IsFullyResolved(e) {
        var i :| 0 <= i < |fs| && !FieldResolved(fs[i]);
        var s :| s in SymbolsField(fs[i]);
        assert s in Symbols(e);
      }
    case Call(_, args) => AllResolvedMeansNoSymbols(args);
    case Conditional(c, t, f) => ResolvedMeansNoSymbols(c); ResolvedMeansNoSymbols(t); ResolvedMeansNoSymbols(f);
    case For(_, coll, key, y, filter, _) =>
      ResolvedMeansNoSymbols(coll); ResolvedMeansNoSymbols(y);
      if key.Some? { ResolvedMeansNoSymbols(key.value); }
      if filter.Some? { ResolvedMeansNoSymbols(filter.value); }
  }

  lemma {:induction false} AllResolvedMeansNoSymbols(es: seq<Expr>)
    ensures (forall i :: 0 <= i < |es| ==> IsFullyResolved(es[i])) <==> CountAll(es) == 0
    ensures (forall i :: 0 <= i < |es| ==> IsFullyResolved(es[i])) <==> SymbolsAll(es) == {}
    decreases es
  {
    var counts := seq(|es|, i requires 0 <= i < |es| => Count(es[i]));
    forall i | 0 <= i < |es|
      ensures IsFullyResolved(es[i]) <==> counts[i] == 0
      ensures IsFullyResolved(es[i]) <==> Symbols(es[i]) == {}
    {
      ResolvedMeansNoSymbols(es[i]);
    }
    SumZero(counts);
    if i :| 0 <= i < |es| && !IsFullyResolved(es[i]) {
      var s :| s in Symbols(es[i]);
      assert s in SymbolsAll(es);
    }
  }

  /** Evaluation never invents a reference: the reduced expression mentions no new symbol, and no more
      of them. */
  lemma {:induction false} ReduceAddsNothing(e: Expr, s: Scope, h: Host)
    ensures Symbols(Reduce(e, s, h)) <= Symbols(e)
    ensures Count(Reduce(e, s, h)) <= Count(e)
    decreases e
  {
    match e
    case Literal(_) =>
    case Unresolved(_) =>
    case Binary(_, l, r) => ReduceAddsNothing(l, s, h); ReduceAddsNothing(r, s, h);
    case Unary(_, x) => ReduceAddsNothing(x, s, h);
    case Template(ps) => ReduceAllAddsNothing(ps, s, h);
    case Array(xs) => ReduceAllAddsNothing(xs, s, h);
    case Object(fs) =>
      var fs' := ReduceFields(fs, s, h);
      forall i | 0 <= i < |fs|
        ensures SymbolsField(fs'[i]) <= SymbolsField(fs[i]) && CountField(fs'[i]) <= CountField(fs[i])
      {
        var f := fs[i];
        assert fs'[i] == ReduceField(f, s, h);
        ReduceAddsNothing(f.k, s, h); ReduceAddsNothing(f.v, s, h);
      }
      SumMonotone(seq(|fs'|, i requires 0 <= i < |fs'| => CountField(fs'[i])),
                  seq(|fs|, i requires 0 <= i < |fs| => CountField(fs[i])));
    case Call(_, args) => ReduceAllAddsNothing(args, s, h);
    case Conditional(c, t, f) => ReduceAddsNothing(c, s, h); ReduceAddsNothing(t, s, h); ReduceAddsNothing(f, s, h);
    case For(_, coll, _, _, _, _) => ReduceAddsNothing(coll, s, h);
  }

  lemma {:induction false} ReduceAllAddsNothing(es: seq<Expr>, s: Scope, h: Host)
    ensures SymbolsAll(ReduceAll(es, s, h)) <= SymbolsAll(es)
    ensures CountAll(ReduceAll(es, s, h)) <= CountAll(es)
    decreases es
  {
    var es' := ReduceAll(es, s, h);
    forall i | 0 <= i < |es| ensures Symbols(es'[i]) <= Symbols(es[i]) && Count(es'[i]) <= Count(es[i]) {
      ReduceAddsNothing(es[i], s, h);
    }
    SumMonotone(seq(|es'|, i requires 0 <= i < |es'| => Count(es'[i])), seq(|es|, i requires 0 <= i < |es| => Count(es[i])));
  }
}
