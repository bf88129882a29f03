/** Merging the locals of an included Terragrunt configuration into those of its child. */
module Merges {
  import opened Ir
  import opened Text
  import opened Reducer

  datatype Strategy = DeepMapOnly | Deep | Shallow | NoMerge

  // ---- specification --------------------------------------------------------------------------

  /** What a slot holds when both sides define it. */
  function Combine(st: Strategy, parent: Value, child: Value): Value
    decreases child
  {
    if !st.Shallow? && parent.Map? && child.Map? then Map(Merge(st, parent.entries, child.entries))
    else if st.Deep? && parent.List? && child.List? then List(parent.items + child.items)
    else child
  }

  /** Merges one entry of the child into its slot, or appends it. */
  function MergeEntry(st: Strategy, out: ValueMap, e: Entry<Value>): ValueMap
    decreases e
  {
    var i := SlotOf(out, e.key);
    if i < |out| then out[i := Entry(e.key, Combine(st, out[i].val, e.val))] else out + [e]
  }

  /** The child's entries merged one after another. */
  function Merge(st: Strategy, parent: ValueMap, child: ValueMap): ValueMap
    decreases child
  {
    if child == [] then parent
    else MergeEntry(st, Merge(st, parent, child[..|child| - 1]), child[|child| - 1])
  }

  lemma MergeNext(st: Strategy, parent: ValueMap, child: ValueMap, i: nat)
    requires i < |child|
    ensures Merge(st, parent, child[..i + 1]) == MergeEntry(st, Merge(st, parent, child[..i]), child[i])
  {
    assert child[..i + 1][..i] == child[..i];
  }

  // ---- the three loops ------------------------------------------------------------------------

  method MergeShallow(parent: ValueMap, child: ValueMap) returns (out: ValueMap)
    ensures out == Merge(Shallow, parent, child)
  {
    out := parent;
    for i := 0 to |child|
      invariant out == Merge(Shallow, parent, child[..i])
    {
      MergeNext(Shallow, parent, child, i);
      var e := child[i];
      var slot := SlotOf(out, e.key);
      if slot < |out| {
        out := out[slot := Entry(e.key, e.val)];
      } else {
        out := out + [e];
      }
    }
    assert child[..|child|] == child;
  }

  method MergeDeepMapOnly(parent: ValueMap, child: ValueMap) returns (out: ValueMap)
    ensures out == Merge(DeepMapOnly, parent, child)
    decreases child
  {
    out := parent;
    for i := 0 to |child|
      invariant out == Merge(DeepMapOnly, parent, child[..i])
    {
      MergeNext(DeepMapOnly, parent, child, i);
      var e := child[i];
      var slot := SlotOf(out, e.key);
      if slot < |out| {
        if out[slot].val.Map? && e.val.Map? {
          var inner := MergeDeepMapOnly(out[slot].val.entries, e.val.entries);
          out := out[slot := Entry(e.key, Map(inner))];
        } else {
          out := out[slot := Entry(e.key, e.val)];
        }
      } else {
        out := out + [e];
      }
    }
    assert child[..|child|] == child;
  }

  method MergeDeep(parent: ValueMap, child: ValueMap) returns (out: ValueMap)
    ensures out == Merge(Deep, parent, child)
    decreases child
  {
    out := parent;
    for i := 0 to |child|
      invariant out == Merge(Deep, parent, child[..i])
    {
      MergeNext(Deep, parent, child, i);
      var e := child[i];
      var slot := SlotOf(out, e.key);
      if slot < |out| {
        if out[slot].val.Map? && e.val.Map? {
          var inner := MergeDeep(out[slot].val.entries, e.val.entries);
          out := out[slot := Entry(e.key, Map(inner))];
        } else if out[slot].val.List? && e.val.List? {
          out := out[slot := Entry(e.key, List(out[slot].val.items + e.val.items))];
        } else {
          out := out[slot := Entry(e.key, e.val)];
        }
      } else {
        out := out + [e];
      }
    }
    assert child[..|child|] == child;
  }

  method MergeLocals(parent: ValueMap, child: ValueMap, st: Strategy) returns (out: ValueMap)
    ensures out == if st.NoMerge? then child else Merge(st, parent, child)
  {
    match st
    case NoMerge => out := child;
    case Shallow => out := MergeShallow(parent, child);
    case DeepMapOnly => out := MergeDeepMapOnly(parent, child);
    case Deep => out := MergeDeep(parent, child);
  }

  // ---- keys and lookups of a merge ------------------------------------------------------------

  /** The strings of `ks` that are not in `known`, in order. */
  function Missing(ks: seq<string>, known: seq<string>): seq<string> {
    if ks == [] then []
    else Missing(ks[..|ks| - 1], known) + (if ks[|ks| - 1] in known then [] else [ks[|ks| - 1]])
  }

  lemma {:induction false} MissingMembers(ks: seq<string>, known: seq<string>, x: string)
    ensures x in Missing(ks, known) <==> x in ks && x !in known
    decreases |ks|
  {
    if ks != [] {
      MissingMembers(ks[..|ks| - 1], known, x);
      assert ks == ks[..|ks| - 1] + [ks[|ks| - 1]];
    }
  }

  lemma {:induction false} MissingAppend(a: seq<string>, b: seq<string>, known: seq<string>)
    ensures Missing(a + b, known) == Missing(a, known) + Missing(b, known)
    decreases |b|
  {
    if b == [] {
      assert a + b == a;
    } else {
      assert (a + b)[..|a + b| - 1] == a + b[..|b| - 1];
      MissingAppend(a, b[..|b| - 1], known);
    }
  }

  lemma {:induction false} MissingTwice(ks: seq<string>, a: seq<string>, b: seq<string>, both: seq<string>)
    requires forall x :: x in both <==> x in a || x in b
    ensures Missing(Missing(ks, b), a) == Missing(ks, both)
    decreases |ks|
  {
    if ks != [] {
      var front, last := ks[..|ks| - 1], ks[|ks| - 1];
      MissingTwice(front, a, b, both);
      MissingAppend(Missing(front, b), if last in b then [] else [last], a);
      assert Missing([last], a) == if last in a then [] else [last];
    }
  }

  lemma {:induction false} MissingNone(ks: seq<string>, known: seq<string>)
    requires forall x :: x in ks ==> x in known
    ensures Missing(ks, known) == []
    decreases |ks|
  {
    if ks != [] { MissingNone(ks[..|ks| - 1], known); }
  }

  lemma {:induction false} MissingAll(ks: seq<string>, known: seq<string>)
    requires forall x :: x in ks ==> x !in known
    ensures Missing(ks, known) == ks
    decreases |ks|
  {
    if ks != [] { MissingAll(ks[..|ks| - 1], known); }
  }

  lemma KeysOfUpdate(m: ValueMap, i: nat, v: Value)
    requires i < |m|
    ensures Keys(m[i := Entry(m[i].key, v)]) == Keys(m)
  {
  }

  lemma KeysOfAppend(m: ValueMap, e: Entry<Value>)
    ensures Keys(m + [e]) == Keys(m) + [e.key]
  {
  }

  lemma SlotMeansKey(m: ValueMap, key: string)
    ensures SlotOf(m, key) < |m| <==> key in Keys(m)
  {
    assert SlotOf(m, key) < |m| ==> Keys(m)[SlotOf(m, key)] == key;
    if key in Keys(m) {
      var j :| 0 <= j < |m| && Keys(m)[j] == key;
    }
  }

  lemma FrontKeys(m: ValueMap)
    requires m != []
    ensures Keys(m) == Keys(m[..|m| - 1]) + [m[|m| - 1].key]
    ensures DistinctKeys(m) ==> DistinctKeys(m[..|m| - 1]) && m[|m| - 1].key !in Keys(m[..|m| - 1])
  {
    var front := m[..|m| - 1];
    assert Keys(m)[..|m| - 1] == Keys(front);
  }

  /** The parent's keys stay where they are and the child's new keys follow in their order. */
  lemma {:induction false} MergedKeys(st: Strategy, parent: ValueMap, child: ValueMap)
    ensures DistinctKeys(child) ==> Keys(Merge(st, parent, child)) == Keys(parent) + Missing(Keys(child), Keys(parent))
    ensures forall x :: x in Keys(Merge(st, parent, child)) <==> x in Keys(parent) || x in Keys(child)
    decreases |child|
  {
    if child != [] {
      var front, e := child[..|child| - 1], child[|child| - 1];
      var out := Merge(st, parent, front);
      MergedKeys(st, parent, front);
      FrontKeys(child);
      MergedEntryKeys(st, out, e);
      hide MergeEntry, DistinctKeys;
    }
  }

  lemma MergedEntryKeys(st: Strategy, out: ValueMap, e: Entry<Value>)
    ensures Keys(MergeEntry(st, out, e)) == Keys(out) + (if e.key in Keys(out) then [] else [e.key])
  {
    SlotMeansKey(out, e.key);
    if e.key in Keys(out) {
      KeysOfUpdate(out, SlotOf(out, e.key), Combine(st, out[SlotOf(out, e.key)].val, e.val));
    } else {
      KeysOfAppend(out, e);
    }
  }

  function CombineFound(st: Strategy, parent: Option<Value>, child: Option<Value>): Option<Value> {
    if parent.None? then child
    else if child.None? then parent
    else Some(Combine(st, parent.value, child.value))
  }

  lemma FindEntry(st: Strategy, out: ValueMap, e: Entry<Value>, x: string)
    ensures Find(MergeEntry(st, out, e), x) == if x == e.key then CombineFound(st, Find(out, x), Some(e.val)) else Find(out, x)
  {
    SlotIsFind(out, e.key);
    var i := SlotOf(out, e.key);
    var v := if i < |out| then Combine(st, out[i].val, e.val) else e.val;
    assert MergeEntry(st, out, e) == Put(out, e.key, v);
    FindPut(out, e.key, v, x);
  }

  /** Looking a key up in a merge combines the two lookups. */
  lemma {:induction false} MergedLookup(st: Strategy, parent: ValueMap, child: ValueMap, x: string)
    requires DistinctKeys(child)
    ensures Find(Merge(st, parent, child), x) == CombineFound(st, Find(parent, x), Find(child, x))
    decreases |child|
  {
    if child != [] {
      var front, e := child[..|child| - 1], child[|child| - 1];
      FrontKeys(child);
      MergedLookup(st, parent, front, x);
      FindEntry(st, Merge(st, parent, front), e, x);
      assert child == front + [e];
      FindAppend(front, [e], x);
      FindIsFirst(front, x);
      assert Find([e], x) == if x == e.key then Some(e.val) else None;
    }
  }

  /** A list without repeated keys is determined by its keys and its lookups. */
  lemma Extensional(m: ValueMap, n: ValueMap)
    requires DistinctKeys(m) && Keys(m) == Keys(n) && forall i :: 0 <= i < |m| ==> Find(m, m[i].key) == Find(n, m[i].key)
    ensures m == n
  {
    assert |m| == |Keys(m)| == |n|;
    forall i | 0 <= i < |m| ensures m[i] == n[i] {
      assert Keys(m)[i] == Keys(n)[i];
      FindOnly(m, i);
      FindOnly(n, i);
    }
  }

  // ---- when the child comes out unchanged -----------------------------------------------------

  /** The parent's keys open the child's key list and no parent value would show through. */
  predicate Subsumed(st: Strategy, parent: ValueMap, child: ValueMap)
    decreases child
  {
    Keys(parent) <= Keys(child) && forall i :: 0 <= i < |parent| && i < |child| ==> SubsumedBy(st, parent[i].val, child[i])
  }

  predicate SubsumedBy(st: Strategy, parent: Value, child: Entry<Value>)
    decreases child
  {
    if !st.Shallow? && parent.Map? && child.val.Map? then Subsumed(st, parent.entries, child.val.entries)
    else if st.Deep? && parent.List? && child.val.List? then parent.items == []
    else true
  }

  lemma PrefixKeys(parent: ValueMap, child: ValueMap)
    requires DistinctKeys(child) && Keys(parent) <= Keys(child)
    ensures Keys(parent) + Missing(Keys(child), Keys(parent)) == Keys(child)
  {
    var rest := Keys(child)[|Keys(parent)|..];
    assert Keys(child) == Keys(parent) + rest;
    PrefixStrings(Keys(parent), rest);
  }

  lemma PrefixStrings(a: seq<string>, rest: seq<string>)
    requires DistinctStrings(a + rest)
    ensures a + Missing(a + rest, a) == a + rest
  {
    hide Missing;
    MissingAppend(a, rest, a);
    MissingNone(a, a);
    forall j | 0 <= j < |rest| ensures rest[j] !in a {
      assert (a + rest)[|a| + j] == rest[j];
      assert forall i :: 0 <= i < |a| ==> (a + rest)[i] == a[i];
    }
    MissingAll(rest, a);
  }

  /** A merge returns the child exactly when the parent is subsumed by it. */
  lemma {:induction false} MergeIsChild(st: Strategy, parent: ValueMap, child: ValueMap)
    requires DistinctDeep(Map(parent)) && DistinctDeep(Map(child))
    ensures Merge(st, parent, child) == child <==> Subsumed(st, parent, child)
    decreases child, 1
  {
    hide Merge;
    MergedKeys(st, parent, child);
    forall i | 0 <= i < |parent| && i < |child| && Keys(parent) <= Keys(child)
      ensures Find(Merge(st, parent, child), child[i].key) == Some(child[i].val) <==> SubsumedBy(st, parent[i].val, child[i])
    {
      assert Keys(parent)[i] == Keys(child)[i];
      MergedLookup(st, parent, child, child[i].key);
      FindOnly(parent, i);
      FindOnly(child, i);
      CombineIsChild(st, parent[i].val, child[i]);
    }
    if Keys(parent) <= Keys(child) {
      PrefixKeys(parent, child);
      if Subsumed(st, parent, child) { SubsumedMerge(st, parent, child); }
      if Merge(st, parent, child) == child {
        forall i | 0 <= i < |parent| ensures SubsumedBy(st, parent[i].val, child[i]) {
          assert |parent| == |Keys(parent)| <= |Keys(child)| == |child|;
          FindOnly(child, i);
        }
      }
    } else {
      assert Keys(parent) <= Keys(Merge(st, parent, child));
    }
  }

  lemma SubsumedMerge(st: Strategy, parent: ValueMap, child: ValueMap)
    requires DistinctKeys(parent) && DistinctKeys(child) && Keys(Merge(st, parent, child)) == Keys(child)
    requires Keys(parent) <= Keys(child)
    requires forall i :: 0 <= i < |parent| && i < |child| ==>
               Find(Merge(st, parent, child), child[i].key) == Some(child[i].val)
    ensures Merge(st, parent, child) == child
  {
    hide Merge;
    forall i | 0 <= i < |child| ensures Find(child, child[i].key) == Find(Merge(st, parent, child), child[i].key) {
      FindOnly(child, i);
      if i >= |parent| {
        MergedLookup(st, parent, child, child[i].key);
        FindIsFirst(parent, child[i].key);
        assert Keys(child)[i] == child[i].key;
      }
    }
    Extensional(child, Merge(st, parent, child));
  }

  lemma {:induction false} CombineIsChild(st: Strategy, parent: Value, e: Entry<Value>)
    requires DistinctDeep(parent) && DistinctDeepEntry(e)
    ensures Combine(st, parent, e.val) == e.val <==> SubsumedBy(st, parent, e)
    decreases e, 0
  {
    if !st.Shallow? && parent.Map? && e.val.Map? {
      MergeIsChild(st, parent.entries, e.val.entries);
    } else if st.Deep? && parent.List? && e.val.List? {
      assert parent.items + e.val.items == e.val.items ==> |parent.items| == 0;
    }
  }

  // ---- associativity --------------------------------------------------------------------------

  /** No key held by all three maps carries a kind of value that stops a merge half-way: a map (under
      `deep`, also a list) on both outer sides with something else between them. There the outer value
      must be one that leaves no trace. */
  predicate Associates(st: Strategy, a: ValueMap, b: ValueMap, c: ValueMap)
    decreases c
  {
    forall i :: 0 <= i < |c| ==> AssociatesAt(st, Find(a, c[i].key), Find(b, c[i].key), c[i])
  }

  predicate AssociatesAt(st: Strategy, x: Option<Value>, y: Option<Value>, e: Entry<Value>)
    decreases e
  {
    if x.None? || y.None? || st.Shallow? then true
    else if x.value.Map? && e.val.Map? then
      if y.value.Map? then Associates(st, x.value.entries, y.value.entries, e.val.entries)
      else Subsumed(st, x.value.entries, e.val.entries)
    else if st.Deep? && x.value.List? && e.val.List? && !y.value.List? then x.value.items == []
    else true
  }

  lemma DistinctMerge(st: Strategy, a: ValueMap, b: ValueMap)
    requires DistinctKeys(a) && DistinctKeys(b)
    ensures DistinctKeys(Merge(st, a, b))
  {
    MergedKeys(st, a, b);
    DistinctAppend(Keys(a), Keys(b));
  }

  lemma {:induction false} DistinctAppend(known: seq<string>, ks: seq<string>)
    requires DistinctStrings(known) && DistinctStrings(ks)
    ensures DistinctStrings(known + Missing(ks, known))
    decreases |ks|
  {
    if ks != [] {
      var front, last := ks[..|ks| - 1], ks[|ks| - 1];
      DistinctAppend(known, front);
      MissingMembers(front, known, last);
      var r := known + Missing(front, known);
      if last in known {
        assert known + Missing(ks, known) == r;
      } else {
        assert known + Missing(ks, known) == r + [last];
        forall i | 0 <= i < |r| ensures r[i] != last { assert r[i] in known || r[i] in Missing(front, known); }
      }
    }
  }

  /** Both groupings list the same keys in the same order. */
  lemma AssociativeKeys(st: Strategy, a: ValueMap, b: ValueMap, c: ValueMap)
    requires DistinctKeys(a) && DistinctKeys(b) && DistinctKeys(c)
    ensures Keys(Merge(st, Merge(st, a, b), c)) == Keys(Merge(st, a, Merge(st, b, c)))
  {
    hide Merge, Missing, DistinctKeys;
    var ab, bc := Merge(st, a, b), Merge(st, b, c);
    DistinctMerge(st, b, c);
    MergedKeys(st, a, b);
    MergedKeys(st, b, c);
    MergedKeys(st, ab, c);
    MergedKeys(st, a, bc);
    RegroupedStrings(Keys(a), Keys(b), Keys(c));
  }

  lemma RegroupedStrings(a: seq<string>, b: seq<string>, c: seq<string>)
    ensures (a + Missing(b, a)) + Missing(c, a + Missing(b, a)) == a + Missing(b + Missing(c, b), a)
  {
    hide Missing;
    var ab := a + Missing(b, a);
    forall x ensures x in ab <==> x in a || x in b { MissingMembers(b, a, x); }
    MissingTwice(c, a, b, ab);
    MissingAppend(b, Missing(c, b), a);
  }

  lemma {:induction false} CombineAssociates(st: Strategy, x: Option<Value>, y: Option<Value>, e: Entry<Value>)
    requires x.Some? ==> DistinctDeep(x.value)
    requires y.Some? ==> DistinctDeep(y.value)
    requires DistinctDeepEntry(e)
    ensures CombineFound(st, CombineFound(st, x, y), Some(e.val)) == CombineFound(st, x, CombineFound(st, y, Some(e.val))) <==>
            AssociatesAt(st, x, y, e)
    decreases e, 0
  {
    if x.Some? && y.Some? && !st.Shallow? {
      if x.value.Map? && e.val.Map? {
        if y.value.Map? {
          MergeAssociative(st, x.value.entries, y.value.entries, e.val.entries);
        } else {
          MergeIsChild(st, x.value.entries, e.val.entries);
        }
      } else if st.Deep? && x.value.List? && e.val.List? {
        if y.value.List? {
          assert x.value.items + y.value.items + e.val.items == x.value.items + (y.value.items + e.val.items);
        } else {
          assert x.value.items + e.val.items == e.val.items ==> |x.value.items| == 0;
        }
      }
    }
  }

  lemma {:induction false} DistinctFound(m: ValueMap, key: string)
    requires DistinctDeep(Map(m))
    ensures Find(m, key).Some? ==> DistinctDeep(Find(m, key).value)
  {
    FindIsFirst(m, key);
    if Find(m, key).Some? {
      var i :| 0 <= i < |m| && m[i].key == key && Find(m, key) == Some(m[i].val);
      assert DistinctDeepEntry(m[i]);
    }
  }

  lemma RegroupedLookups(st: Strategy, a: ValueMap, b: ValueMap, c: ValueMap, x: string)
    requires DistinctKeys(a) && DistinctKeys(b) && DistinctKeys(c)
    ensures Find(Merge(st, Merge(st, a, b), c), x) ==
            CombineFound(st, CombineFound(st, Find(a, x), Find(b, x)), Find(c, x))
    ensures Find(Merge(st, a, Merge(st, b, c)), x) ==
            CombineFound(st, Find(a, x), CombineFound(st, Find(b, x), Find(c, x)))
  {
    hide Merge, CombineFound;
    DistinctMerge(st, b, c);
    MergedLookup(st, a, b, x);
    MergedLookup(st, b, c, x);
    MergedLookup(st, Merge(st, a, b), c, x);
    MergedLookup(st, a, Merge(st, b, c), x);
  }

  /** Merging three configurations does not depend on the grouping exactly when `Associates` holds. */
  lemma {:induction false} MergeAssociative(st: Strategy, a: ValueMap, b: ValueMap, c: ValueMap)
    requires DistinctDeep(Map(a)) && DistinctDeep(Map(b)) && DistinctDeep(Map(c))
    ensures Merge(st, Merge(st, a, b), c) == Merge(st, a, Merge(st, b, c)) <==> Associates(st, a, b, c)
    decreases c, 1
  {
    hide Merge, CombineFound, AssociatesAt, DistinctKeys;
    assert DistinctKeys(a) && DistinctKeys(b) && DistinctKeys(c);
    var l, r := Merge(st, Merge(st, a, b), c), Merge(st, a, Merge(st, b, c));
    forall i | 0 <= i < |c| ensures Find(l, c[i].key) == Find(r, c[i].key) <==> AssociatesAt(st, Find(a, c[i].key), Find(b, c[i].key), c[i]) {
      var x := c[i].key;
      FindOnly(c, i);
      RegroupedLookups(st, a, b, c, x);
      DistinctFound(a, x);
      DistinctFound(b, x);
      assert DistinctDeepEntry(c[i]);
      CombineAssociates(st, Find(a, x), Find(b, x), c[i]);
    }
    if Associates(st, a, b, c) {
      Regrouped(st, a, b, c);
    }
  }

  lemma Regrouped(st: Strategy, a: ValueMap, b: ValueMap, c: ValueMap)
    requires DistinctKeys(a) && DistinctKeys(b) && DistinctKeys(c)
    requires forall i :: 0 <= i < |c| ==>
               Find(Merge(st, Merge(st, a, b), c), c[i].key) == Find(Merge(st, a, Merge(st, b, c)), c[i].key)
    ensures Merge(st, Merge(st, a, b), c) == Merge(st, a, Merge(st, b, c))
  {
    hide Merge, DistinctKeys;
    var l, r := Merge(st, Merge(st, a, b), c), Merge(st, a, Merge(st, b, c));
    AssociativeKeys(st, a, b, c);
    DistinctMerge(st, a, b);
    DistinctMerge(st, Merge(st, a, b), c);
    forall i | 0 <= i < |l| ensures Find(l, l[i].key) == Find(r, l[i].key) {
      var x := l[i].key;
      RegroupedLookups(st, a, b, c, x);
      FindIsFirst(c, x);
      if x in Keys(c) {
        var j :| 0 <= j < |c| && Keys(c)[j] == x;
        assert c[j].key == x;
      }
    }
    Extensional(l, r);
  }

  /** Shallow merging is associative. */
  lemma ShallowAssociative(a: ValueMap, b: ValueMap, c: ValueMap)
    requires DistinctDeep(Map(a)) && DistinctDeep(Map(b)) && DistinctDeep(Map(c))
    ensures Merge(Shallow, Merge(Shallow, a, b), c) == Merge(Shallow, a, Merge(Shallow, b, c))
  {
    MergeAssociative(Shallow, a, b, c);
  }

  /** The two deep strategies are not: a scalar between two maps hides the outer one or not. */
  lemma DeepMergeIsNotAssociative(st: Strategy)
    requires st.DeepMapOnly? || st.Deep?
    ensures var a := [Entry("k", Map([Entry("x", Null)]))];
            var b := [Entry("k", Null)];
            var c := [Entry("k", Map([Entry("y", Null)]))];
            Merge(st, Merge(st, a, b), c) != Merge(st, a, Merge(st, b, c))
  {
    var m, n := [Entry("x", Null)], [Entry("y", Null)];
    var a, b, c := [Entry("k", Map(m))], [Entry("k", Null)], [Entry("k", Map(n))];
    assert DistinctKeys(a) && DistinctKeys(b) && DistinctKeys(c) && DistinctKeys(m) && DistinctKeys(n);
    assert DistinctDeepEntry(a[0]) && DistinctDeepEntry(c[0]);
    MergeAssociative(st, a, b, c);
    assert Keys(m)[0] == "x" && Keys(n)[0] == "y";
    assert "x"[0] != "y"[0];
    assert !Subsumed(st, m, n);
    assert !AssociatesAt(st, Find(a, "k"), Find(b, "k"), c[0]);
  }

  // ---- absorbing a repeated child -------------------------------------------------------------

  /** No non-empty list sits under the child's maps. */
  predicate ListFree(child: ValueMap)
    decreases child
  {
    forall i :: 0 <= i < |child| ==> ListFreeEntry(child[i])
  }

  predicate ListFreeEntry(e: Entry<Value>)
    decreases e
  {
    if e.val.Map? then ListFree(e.val.entries) else e.val.List? ==> e.val.items == []
  }

  lemma MergeNewEntry(st: Strategy, out: ValueMap, e: Entry<Value>)
    requires e.key !in Keys(out)
    ensures MergeEntry(st, out, e) == out + [e]
  {
    SlotMeansKey(out, e.key);
  }

  lemma {:induction false} MergeNothing(st: Strategy, child: ValueMap)
    requires DistinctKeys(child)
    ensures Merge(st, [], child) == child
    decreases |child|
  {
    if child != [] {
      var front, e := child[..|child| - 1], child[|child| - 1];
      FrontKeys(child);
      MergeNothing(st, front);
      MergeNewEntry(st, front, e);
      assert child == front + [e];
      hide MergeEntry, DistinctKeys;
    }
  }

  lemma {:induction false} CombineAgain(st: Strategy, x: Option<Value>, e: Entry<Value>)
    requires x.Some? ==> DistinctDeep(x.value)
    requires DistinctDeepEntry(e)
    ensures var once := CombineFound(st, x, Some(e.val));
            CombineFound(st, once, Some(e.val)) == once <==> !st.Deep? || ListFreeEntry(e)
    decreases e, 0
  {
    if !st.Shallow? && e.val.Map? {
      var p := if x.Some? && x.value.Map? then x.value.entries else [];
      MergeNothing(st, e.val.entries);
      MergeAgain(st, p, e.val.entries);
    } else if st.Deep? && e.val.List? {
      var p := if x.Some? && x.value.List? then x.value.items else [];
      assert p + e.val.items + e.val.items == p + e.val.items <==> |e.val.items| == 0;
      assert [] + e.val.items == e.val.items;
    }
  }

  /** Merging the same child again changes nothing, except that `deep` appends its lists once more:
      it absorbs the repetition exactly when the child holds no non-empty list. */
  lemma {:induction false} MergeAgain(st: Strategy, parent: ValueMap, child: ValueMap)
    requires DistinctDeep(Map(parent)) && DistinctDeep(Map(child))
    ensures Merge(st, Merge(st, parent, child), child) == Merge(st, parent, child) <==> !st.Deep? || ListFree(child)
    decreases child, 1
  {
    hide Merge, CombineFound, ListFreeEntry, DistinctKeys;
    assert DistinctKeys(parent) && DistinctKeys(child);
    var once := Merge(st, parent, child);
    var twice := Merge(st, once, child);
    forall i | 0 <= i < |child| ensures Find(twice, child[i].key) == Find(once, child[i].key) <==> !st.Deep? || ListFreeEntry(child[i]) {
      var x := child[i].key;
      FindOnly(child, i);
      MergedLookup(st, parent, child, x);
      MergedLookup(st, once, child, x);
      DistinctFound(parent, x);
      assert DistinctDeepEntry(child[i]);
      CombineAgain(st, Find(parent, x), child[i]);
    }
    if !st.Deep? || ListFree(child) { Repeated(st, parent, child); }
  }

  /** Under `deep` a child that sets a list appends it once more at every repetition. */
  lemma RepeatedListGrows(k: string, v: Value)
    requires DistinctDeep(v)
    ensures var child := [Entry(k, List([v]))];
            && Merge(Deep, [], child) == child
            && Merge(Deep, Merge(Deep, [], child), child) != child
            && Find(Merge(Deep, child, child), k) == Some(List([v, v]))
  {
    var child := [Entry(k, List([v]))];
    assert DistinctKeys(child) && DistinctDeepEntry(child[0]);
    MergeNothing(Deep, child);
    MergedLookup(Deep, child, child, k);
    assert [v] + [v] == [v, v];
    assert List([v, v]).items != List([v]).items;
  }

  lemma Repeated(st: Strategy, parent: ValueMap, child: ValueMap)
    requires DistinctKeys(parent) && DistinctKeys(child)
    requires forall i :: 0 <= i < |child| ==>
               Find(Merge(st, Merge(st, parent, child), child), child[i].key) == Find(Merge(st, parent, child), child[i].key)
    ensures Merge(st, Merge(st, parent, child), child) == Merge(st, parent, child)
  {
    hide Merge, DistinctKeys;
    var once := Merge(st, parent, child);
    var twice := Merge(st, once, child);
    DistinctMerge(st, parent, child);
    MergedKeys(st, parent, child);
    MergedKeys(st, once, child);
    MissingNone(Keys(child), Keys(once));
    assert Keys(twice) == Keys(once);
    forall i | 0 <= i < |once| ensures Find(once, once[i].key) == Find(twice, once[i].key) {
      var x := once[i].key;
      MergedLookup(st, once, child, x);
      FindIsFirst(child, x);
      if x in Keys(child) {
        var j :| 0 <= j < |child| && Keys(child)[j] == x;
        assert child[j].key == x;
      } else {
        assert CombineFound(st, Find(once, x), None) == Find(once, x);
      }
    }
    Extensional(once, twice);
  }

  // ---- descending into a merge ----------------------------------------------------------------

  /** The child has nothing to say about a path: some map on the way lacks the key. */
  predicate Silent(child: ValueMap, tail: string)
    decreases |tail|
  {
    match Find(child, Head(tail))
    case None => true
    case Some(v) => tail != "" && Tail(tail) != "" && v.Map? && Silent(v.entries, Tail(tail))
  }

  lemma {:induction false} SilentDescends(child: ValueMap, tail: string)
    requires tail != "" && Silent(child, tail)
    ensures Descend(Map(child), tail) == None
    decreases |tail|
  {
    var v := Find(child, Head(tail));
    if v.Some? { SilentDescends(v.value.entries, Tail(tail)); }
  }

  /** A path into a deep merge reads the parent where the child is silent, nothing where a child scalar
      cuts the path short, and the two ends combined otherwise. */
  lemma {:induction false} DescendIntoMerge(st: Strategy, parent: ValueMap, child: ValueMap, tail: string)
    requires st.DeepMapOnly? || st.Deep?
    requires DistinctDeep(Map(child)) && tail != ""
    ensures Descend(Map(Merge(st, parent, child)), tail) ==
            if Silent(child, tail) then Descend(Map(parent), tail)
            else if Descend(Map(child), tail).None? then None
            else CombineFound(st, Descend(Map(parent), tail), Descend(Map(child), tail))
    decreases |tail|
  {
    var h, rest := Head(tail), Tail(tail);
    MergedLookup(st, parent, child, h);
    var u, v := Find(parent, h), Find(child, h);
    if v.Some? && rest != "" {
      if v.value.Map? {
        DistinctFound(child, h);
        if u.Some? && u.value.Map? {
          DescendIntoMerge(st, u.value.entries, v.value.entries, rest);
        } else if Silent(child, tail) {
          SilentDescends(v.value.entries, rest);
        }
      }
    }
  }

  /** In a map-only merge a path the child ends in anything but a map reads the child. */
  lemma ChildLeafWins(parent: ValueMap, child: ValueMap, tail: string)
    requires DistinctDeep(Map(child)) && tail != ""
    requires Descend(Map(child), tail).Some? && !Descend(Map(child), tail).value.Map?
    ensures Descend(Map(Merge(DeepMapOnly, parent, child)), tail) == Descend(Map(child), tail)
  {
    DescendIntoMerge(DeepMapOnly, parent, child, tail);
    if Silent(child, tail) { SilentDescends(child, tail); }
  }

  /** What a key holds after merging: the only value there is; of two maps, outside `shallow`, their merge; of
      two lists, under `deep`, the parent's items followed by the child's; otherwise the child's value. */
  lemma MergedValue(st: Strategy, parent: ValueMap, child: ValueMap, x: string)
    requires DistinctKeys(child)
    ensures var p, c, m := Find(parent, x), Find(child, x), Find(Merge(st, parent, child), x);
            if p.None? then m == c
            else if c.None? then m == p
            else if !st.Shallow? && p.value.Map? && c.value.Map? then m == Some(Map(Merge(st, p.value.entries, c.value.entries)))
            else if st.Deep? && p.value.List? && c.value.List? then m == Some(List(p.value.items + c.value.items))
            else m == c
  {
    MergedLookup(st, parent, child, x);
  }

  /** On any path where both sides hold lists, `deep` reads the parent's items followed by the child's, and
      the map-only merge the child's alone. */
  lemma MergedLists(parent: ValueMap, child: ValueMap, tail: string, p: seq<Value>, c: seq<Value>)
    requires DistinctDeep(Map(child)) && tail != ""
    requires Descend(Map(parent), tail) == Some(List(p)) && Descend(Map(child), tail) == Some(List(c))
    ensures Descend(Map(Merge(Deep, parent, child)), tail) == Some(List(p + c))
    ensures Descend(Map(Merge(DeepMapOnly, parent, child)), tail) == Some(List(c))
  {
    DescendIntoMerge(Deep, parent, child, tail);
    DescendIntoMerge(DeepMapOnly, parent, child, tail);
    if Silent(child, tail) { SilentDescends(child, tail); }
  }
}
