/** What the reducer makes of `for` comprehensions over a known collection (`eval/reduce.rs`): which value
    each binder gets, what a filter keeps, and what the two forms build. */
module Comprehensions {
  import opened Ir
  import opened Reducer

  function Name(x: string): Expr {
    Unresolved(Symbolic(Other, x))
  }

  /** `[for x in items : x if keep]` */
  function Filtering(x: string, items: seq<Value>, keep: Option<Expr>): Expr {
    For([x], Literal(List(items)), None, Name(x), keep, false)
  }

  /** The scope of one iteration with a single binder. */
  function Bind(s: Scope, x: string, v: Value): Scope {
    s.(binders := s.binders + [Entry(x, v)])
  }

  predicate Passes(x: string, v: Value, keep: Option<Expr>, s: Scope, h: Host) {
    keep.None? || Reduce(keep.value, Bind(s, x, v), h) == Literal(Bool(true))
  }

  /** The filter comes out true or false for every item. */
  ghost predicate Decided(x: string, items: seq<Value>, keep: Option<Expr>, s: Scope, h: Host) {
    keep.Some? ==> forall v :: v in items ==> Reduce(keep.value, Bind(s, x, v), h) in {Literal(Bool(true)), Literal(Bool(false))}
  }

  /** The items that pass the filter, in order. */
  function Kept(x: string, items: seq<Value>, keep: Option<Expr>, s: Scope, h: Host): seq<Value> {
    if items == [] then []
    else (if Passes(x, items[0], keep, s, h) then [items[0]] else []) + Kept(x, items[1..], keep, s, h)
  }

  function Values(pairs: seq<(Value, Value)>): (r: seq<Value>)
    ensures |r| == |pairs|
  {
    seq(|pairs|, i requires 0 <= i < |pairs| => pairs[i].1)
  }

  function Unkeyed(vs: seq<Value>): ValueMap {
    seq(|vs|, i requires 0 <= i < |vs| => Entry("", vs[i]))
  }

  /** A binder hides an outer one of its name exactly when there is none, or the first one agrees. */
  lemma BinderHidesOuter(s: Scope, x: string, v: Value, h: Host)
    ensures Reduce(Name(x), Bind(s, x, v), h) == Literal(Seen(s.binders, x, v))
    ensures Reduce(Name(x), Bind(s, x, v), h) == Literal(v) <==> Find(s.binders, x).None? || Find(s.binders, x) == Some(v)
  {
    FindAppend(s.binders, [Entry(x, v)], x);
  }

  lemma FilterRow(x: string, items: seq<Value>, keep: Option<Expr>, v: Value, s: Scope, h: Host)
    requires x !in Keys(s.binders)
    requires keep.Some? ==> Reduce(keep.value, Bind(s, x, v), h) in {Literal(Bool(true)), Literal(Bool(false))}
    ensures ReduceRow(Filtering(x, items, keep), Bind(s, x, v), h) == if Passes(x, v, keep, s, h) then Yield("", v) else Skip
  {
    BinderHidesOuter(s, x, v, h);
    FindIsFirst(s.binders, x);
  }

  lemma RowsStep(f: Expr, x: string, pairs: seq<(Value, Value)>, s: Scope, h: Host)
    requires f.For? && f.binders == [x] && pairs != []
    ensures ReduceRows(f, pairs, s, h) == ConsRow(ReduceRow(f, Bind(s, x, pairs[0].1), h), ReduceRows(f, pairs[1..], s, h))
  {
    hide ReduceRow;
    assert BindPair([x], pairs[0]) == Some([Entry(x, pairs[0].1)]);
  }

  lemma ConsKept(passes: bool, v: Value, rest: seq<Value>)
    ensures ConsRow(if passes then Yield("", v) else Skip, Some(Unkeyed(rest))) ==
            Some(Unkeyed((if passes then [v] else []) + rest))
  {
    assert Unkeyed([v] + rest) == [Entry("", v)] + Unkeyed(rest);
    assert [] + rest == rest;
  }

  lemma NothingKept(f: Expr, x: string, keep: Option<Expr>, s: Scope, h: Host)
    requires f.For?
    ensures ReduceRows(f, [], s, h) == Some([]) && Unkeyed(Kept(x, [], keep, s, h)) == []
  {
  }

  lemma KeptStep(x: string, items: seq<Value>, keep: Option<Expr>, s: Scope, h: Host)
    requires items != []
    ensures Kept(x, items, keep, s, h) ==
            (if Passes(x, items[0], keep, s, h) then [items[0]] else []) + Kept(x, items[1..], keep, s, h)
  {
  }

  lemma {:induction false} FilterRows(x: string, items: seq<Value>, keep: Option<Expr>, pairs: seq<(Value, Value)>, s: Scope, h: Host)
    requires x !in Keys(s.binders) && Decided(x, Values(pairs), keep, s, h)
    ensures ReduceRows(Filtering(x, items, keep), pairs, s, h) == Some(Unkeyed(Kept(x, Values(pairs), keep, s, h)))
    decreases |pairs|
  {
    hide Reduce, ReduceRow, ReduceRows, Bind, Passes, Kept, Unkeyed;
    if pairs == [] {
      NothingKept(Filtering(x, items, keep), x, keep, s, h);
      assert Values(pairs) == [];
    } else {
      var v := pairs[0].1;
      assert Values(pairs)[0] == v && Values(pairs)[1..] == Values(pairs[1..]);
      assert forall w :: w in Values(pairs[1..]) ==> w in Values(pairs);
      FilterRows(x, items, keep, pairs[1..], s, h);
      assert v in Values(pairs);
      FilterRow(x, items, keep, v, s, h);
      RowsStep(Filtering(x, items, keep), x, pairs, s, h);
      KeptStep(x, Values(pairs), keep, s, h);
      ConsKept(Passes(x, v, keep, s, h), v, Kept(x, Values(pairs[1..]), keep, s, h));
    }
  }

  /** A filtering comprehension over a list becomes exactly the items that pass, in order; without a filter
      it is the identity. The binder must not be in scope already. */
  lemma FilterKeeps(x: string, items: seq<Value>, keep: Option<Expr>, s: Scope, h: Host)
    requires x !in Keys(s.binders) && |items| <= s.maxIterations && Decided(x, items, keep, s, h)
    ensures Reduce(Filtering(x, items, keep), s, h) == Literal(List(Kept(x, items, keep, s, h)))
    ensures keep.None? ==> Reduce(Filtering(x, items, keep), s, h) == Literal(List(items))
  {
    var pairs := Pairs(List(items)).value;
    assert Values(pairs) == items;
    FilterRows(x, items, keep, pairs, s, h);
    var kept := Kept(x, items, keep, s, h);
    assert Collect(false, Unkeyed(kept)).items == kept;
    if keep.None? { KeptAll(x, items, s, h); }
  }

  lemma {:induction false} KeptAll(x: string, items: seq<Value>, s: Scope, h: Host)
    ensures Kept(x, items, None, s, h) == items
    decreases |items|
  {
    if items != [] { KeptAll(x, items[1..], s, h); }
  }

  /** `{for k, v in m : k => v}` */
  function Rebuilding(k: string, v: string, m: ValueMap): Expr {
    For([k, v], Literal(Map(m)), Some(Name(k)), Name(v), None, true)
  }

  function BindTwo(s: Scope, k: string, v: string, pair: (Value, Value)): Scope {
    s.(binders := s.binders + [Entry(k, pair.0), Entry(v, pair.1)])
  }

  lemma PairStep(f: Expr, k: string, v: string, pairs: seq<(Value, Value)>, s: Scope, h: Host)
    requires f.For? && f.binders == [k, v] && pairs != []
    ensures ReduceRows(f, pairs, s, h) == ConsRow(ReduceRow(f, BindTwo(s, k, v, pairs[0]), h), ReduceRows(f, pairs[1..], s, h))
  {
    hide ReduceRow;
    assert BindPair([k, v], pairs[0]) == Some([Entry(k, pairs[0].0), Entry(v, pairs[0].1)]);
  }

  lemma MapPairs(part: ValueMap)
    requires part != []
    ensures var pairs := Pairs(Map(part)).value;
            |pairs| == |part| && pairs[0] == (Str(part[0].key), part[0].val) && pairs[1..] == Pairs(Map(part[1..])).value
  {
  }

  /** What the two binders read on entry `e`; the key's own binder comes before the value's. */
  function KeySeen(s: Scope, k: string, e: Entry<Value>): Value {
    Seen(s.binders, k, Str(e.key))
  }

  function ValueSeen(s: Scope, k: string, v: string, e: Entry<Value>): Value {
    Seen(s.binders + [Entry(k, Str(e.key))], v, e.val)
  }

  lemma PairSeen(s: Scope, k: string, v: string, e: Entry<Value>, h: Host)
    ensures var inner := BindTwo(s, k, v, (Str(e.key), e.val));
            && Reduce(Name(k), inner, h) == Literal(KeySeen(s, k, e))
            && Reduce(Name(v), inner, h) == Literal(ValueSeen(s, k, v, e))
  {
    var key, val := Entry(k, Str(e.key)), Entry(v, e.val);
    ConcatTwo(s.binders, key, val);
    FindAppend(s.binders, [key, val], k);
    FindAppend(s.binders + [key], [val], v);
  }

  lemma ConcatTwo<T>(s: seq<T>, a: T, b: T)
    ensures s + [a, b] == s + [a] + [b]
  {
  }

  lemma SeenRow(k: string, v: string, m: ValueMap, e: Entry<Value>, s: Scope, h: Host)
    ensures ReduceRow(Rebuilding(k, v, m), BindTwo(s, k, v, (Str(e.key), e.val)), h) ==
            if KeySeen(s, k, e).Str? then Yield(KeySeen(s, k, e).s, ValueSeen(s, k, v, e)) else Stuck
  {
    PairSeen(s, k, v, e, h);
    hide KeySeen, ValueSeen, BindTwo;
  }

  /** Every key is seen as a string, which an object needs. */
  ghost predicate StringKeys(s: Scope, k: string, m: ValueMap) {
    forall i :: 0 <= i < |m| ==> KeySeen(s, k, m[i]).Str?
  }

  function Rebuilt(s: Scope, k: string, v: string, m: ValueMap): ValueMap
    requires StringKeys(s, k, m)
  {
    seq(|m|, i requires 0 <= i < |m| => Entry(KeySeen(s, k, m[i]).s, ValueSeen(s, k, v, m[i])))
  }

  ghost function RowsSeen(s: Scope, k: string, v: string, m: ValueMap): Option<ValueMap> {
    if StringKeys(s, k, m) then Some(Rebuilt(s, k, v, m)) else None
  }

  lemma RowsSeenStep(s: Scope, k: string, v: string, m: ValueMap)
    requires m != []
    ensures RowsSeen(s, k, v, m) ==
            ConsRow(if KeySeen(s, k, m[0]).Str? then Yield(KeySeen(s, k, m[0]).s, ValueSeen(s, k, v, m[0])) else Stuck,
                    RowsSeen(s, k, v, m[1..]))
  {
    hide KeySeen, ValueSeen;
    assert forall i :: 0 < i < |m| ==> m[i] == m[1..][i - 1];
    if StringKeys(s, k, m) {
      assert StringKeys(s, k, m[1..]);
      assert Rebuilt(s, k, v, m) ==
             [Entry(KeySeen(s, k, m[0]).s, ValueSeen(s, k, v, m[0]))] + Rebuilt(s, k, v, m[1..]);
    }
  }

  lemma NothingRebuilt(f: Expr, s: Scope, k: string, v: string, h: Host)
    requires f.For?
    ensures ReduceRows(f, Pairs(Map([])).value, s, h) == Some([]) == RowsSeen(s, k, v, [])
  {
    assert Pairs(Map([])).value == [];
    assert StringKeys(s, k, []) && Rebuilt(s, k, v, []) == [];
  }

  lemma {:induction false} SeenRows(k: string, v: string, m: ValueMap, part: ValueMap, s: Scope, h: Host)
    ensures ReduceRows(Rebuilding(k, v, m), Pairs(Map(part)).value, s, h) == RowsSeen(s, k, v, part)
    decreases |part|
  {
    var pairs := Pairs(Map(part)).value;
    hide Reduce, ReduceRow, ReduceRows, Pairs, RowsSeen, BindTwo, KeySeen, ValueSeen, ConsRow;
    if part == [] {
      NothingRebuilt(Rebuilding(k, v, m), s, k, v, h);
    } else {
      MapPairs(part);
      SeenRows(k, v, m, part[1..], s, h);
      PairStep(Rebuilding(k, v, m), k, v, pairs, s, h);
      SeenRow(k, v, m, part[0], s, h);
      RowsSeenStep(s, k, v, part);
    }
  }

  lemma RebuildingGives(k: string, v: string, m: ValueMap, s: Scope, h: Host)
    ensures Reduce(Rebuilding(k, v, m), s, h) ==
            if |m| <= s.maxIterations && StringKeys(s, k, m) then Literal(Map(Rebuilt(s, k, v, m))) else Rebuilding(k, v, m)
  {
    SeenRows(k, v, m, m, s, h);
    hide KeySeen, ValueSeen, ReduceRows, Rebuilt, StringKeys;
    assert Reduce(Literal(Map(m)), s, h) == Literal(Map(m));
    assert |Pairs(Map(m)).value| == |m|;
  }

  lemma RebuiltIs(s: Scope, k: string, v: string, m: ValueMap)
    requires StringKeys(s, k, m)
    ensures Rebuilt(s, k, v, m) == m <==>
            forall i :: 0 <= i < |m| ==> KeySeen(s, k, m[i]) == Str(m[i].key) && ValueSeen(s, k, v, m[i]) == m[i].val
  {
    hide KeySeen, ValueSeen;
    var out := Rebuilt(s, k, v, m);
    assert out == m <==> forall i :: 0 <= i < |m| ==> out[i] == m[i];
  }

  /** Over a map the first binder is the key and the second the value. What taking a map apart and putting
      it together gives in any scope: nothing new beyond the iteration limit or when an outer binder makes
      a key no string, else the entries as the binders read them. It is the map exactly when every outer
      binding of either name agrees with what it stands in for. */
  lemma RebuildingIsExact(k: string, v: string, m: ValueMap, s: Scope, h: Host)
    ensures Reduce(Rebuilding(k, v, m), s, h) ==
            if |m| <= s.maxIterations && StringKeys(s, k, m) then Literal(Map(Rebuilt(s, k, v, m))) else Rebuilding(k, v, m)
    ensures Reduce(Rebuilding(k, v, m), s, h) == Literal(Map(m)) <==>
            && |m| <= s.maxIterations
            && forall i :: 0 <= i < |m| ==> KeySeen(s, k, m[i]) == Str(m[i].key) && ValueSeen(s, k, v, m[i]) == m[i].val
  {
    RebuildingGives(k, v, m, s, h);
    hide KeySeen, ValueSeen, Reduce, Rebuilt;
    if StringKeys(s, k, m) { RebuiltIs(s, k, v, m); }
  }

  /** With two names that are new in scope it is always the map. */
  lemma MapsRebuild(k: string, v: string, m: ValueMap, s: Scope, h: Host)
    requires k != v && k !in Keys(s.binders) && v !in Keys(s.binders) && |m| <= s.maxIterations
    ensures Reduce(Rebuilding(k, v, m), s, h) == Literal(Map(m))
  {
    RebuildingIsExact(k, v, m, s, h);
    FindIsFirst(s.binders, k);
    FindIsFirst(s.binders, v);
    forall i | 0 <= i < |m| ensures KeySeen(s, k, m[i]) == Str(m[i].key) && ValueSeen(s, k, v, m[i]) == m[i].val {
      FindAppend(s.binders, [Entry(k, Str(m[i].key))], v);
    }
  }

  /** Under an enclosing binder of the key's name every key becomes that binder's value. */
  lemma OuterKeyWins(k: string, v: string, outer: string, m: ValueMap, s: Scope, h: Host)
    requires k != v && s.binders == [Entry(k, Str(outer))] && |m| <= s.maxIterations
    ensures Reduce(Rebuilding(k, v, m), s, h) == Literal(Map(Renamed(m, outer)))
    ensures Reduce(Rebuilding(k, v, m), s, h) == Literal(Map(m)) <==> forall i :: 0 <= i < |m| ==> m[i].key == outer
  {
    RebuildingIsExact(k, v, m, s, h);
    forall i | 0 <= i < |m| ensures KeySeen(s, k, m[i]) == Str(outer) && ValueSeen(s, k, v, m[i]) == m[i].val {
      FindAppend(s.binders, [Entry(k, Str(m[i].key))], v);
    }
    assert Rebuilt(s, k, v, m) == Renamed(m, outer);
  }

  function Renamed(m: ValueMap, key: string): ValueMap {
    seq(|m|, i requires 0 <= i < |m| => Entry(key, m[i].val))
  }
}
