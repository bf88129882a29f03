/** What `count` and `for_each` put behind an address (`graph/expand.rs`): which text stands for which
    instance, and what the expanded rows are. */
module Indices {
  import opened Ir
  import opened Seqs
  import opened Text
  import opened Addresses
  import opened Expand
  import opened Builder
  import opened Readback

  // ---- what is present, in order --------------------------------------------------------------

  function One<T>(x: Option<T>): seq<T> {
    match x case Some(v) => [v] case None => []
  }

  function Present<T>(xs: seq<Option<T>>): seq<T> {
    if xs == [] then [] else Present(xs[..|xs| - 1]) + One(xs[|xs| - 1])
  }

  lemma {:induction false} PresentCons<T>(xs: seq<Option<T>>)
    requires xs != []
    ensures Present(xs) == One(xs[0]) + Present(xs[1..])
    decreases |xs|
  {
    var front, last := xs[..|xs| - 1], xs[|xs| - 1];
    if |xs| == 1 {
      assert front == [] && xs[1..] == [];
    } else {
      PresentCons(front);
      assert xs[1..][..|xs| - 2] == front[1..];
      ConcatAssoc(One(xs[0]), Present(front[1..]), One(last));
    }
  }

  predicate Ascends(kept: seq<nat>) {
    forall k, l :: 0 <= k < l < |kept| ==> kept[k] < kept[l]
  }

  /** `kept` holds the positions of what is present, and `out` what is there. */
  ghost predicate Chosen<T>(xs: seq<Option<T>>, out: seq<T>, kept: seq<nat>) {
    && Ascends(kept) && |kept| == |out|
    && (forall i: nat :: i in kept <==> i < |xs| && xs[i].Some?)
    && (forall k :: 0 <= k < |kept| ==> kept[k] < |xs| && xs[kept[k]] == Some(out[k]))
  }

  lemma ChosenSnoc<T>(xs: seq<Option<T>>, x: Option<T>, out: seq<T>, kept: seq<nat>)
    requires Chosen(xs, out, kept)
    ensures Chosen(xs + [x], out + One(x), kept + if x.Some? then [|xs|] else [])
  {
    var more, kept' := xs + [x], kept + if x.Some? then [|xs|] else [];
    forall i: nat ensures i in kept' <==> i < |more| && more[i].Some? {
      assert i in kept' <==> i in kept || (x.Some? && i == |xs|);
      if i < |xs| { assert more[i] == xs[i]; }
    }
    forall k | 0 <= k < |kept'| ensures kept'[k] < |more| && more[kept'[k]] == Some((out + One(x))[k]) {
      if k < |kept| { assert kept'[k] == kept[k] && more[kept[k]] == xs[kept[k]]; }
    }
  }

  lemma {:induction false} PresentAre<T>(xs: seq<Option<T>>) returns (kept: seq<nat>)
    ensures Chosen(xs, Present(xs), kept)
    decreases |xs|
  {
    kept := [];
    if xs != [] {
      var n := |xs| - 1;
      hide Chosen;
      kept := PresentAre(xs[..n]);
      assert xs == xs[..n] + [xs[n]];
      ChosenSnoc(xs[..n], xs[n], Present(xs[..n]), kept);
      kept := kept + if xs[n].Some? then [n] else [];
    }
  }

  // ---- the texts ------------------------------------------------------------------------------

  /** The number `i` in decimal digits, without leading zeros. */
  predicate Decimal(d: string, i: nat) {
    NatOf(d) == Some(i) && (d[0] == '0' ==> d == "0")
  }

  /** `[<i>]` */
  ghost predicate NumberIndex(text: string, i: nat) {
    exists d :: text == "[" + d + "]" && Decimal(d, i)
  }

  /** A key less its quotation marks and backslashes. */
  function Stripped(key: string): string {
    if key == [] then []
    else
      var last := key[|key| - 1];
      Stripped(key[..|key| - 1]) + (if last == '"' || last == '\\' then [] else [last])
  }

  /** `["<key>"]` */
  predicate TextIndex(text: string, key: string) {
    text == "[\"" + Stripped(key) + "\"]"
  }

  lemma {:induction false} DecimalIs(d: string, i: nat)
    requires Decimal(d, i)
    ensures d == DecNat(i)
    decreases |d|
  {
    var front, last := d[..|d| - 1], d[|d| - 1];
    var digit := last as int - '0' as int;
    assert 0 <= digit < 10;
    DigitIs(digit);
    assert d == front + [last];
    if front == [] {
      assert d == [last];
    } else {
      var n := NatOf(front).value;
      assert i == 10 * n + digit;
      assert front[0] == d[0];
      DecimalIs(front, n);
      TenTimes(n, digit, i);
    }
  }

  lemma DigitIs(d: nat)
    requires d < 10
    ensures Digit(d) as int == '0' as int + d
  {
  }

  lemma TenTimes(n: nat, digit: nat, i: nat)
    requires i == 10 * n + digit && digit < 10 && n > 0
    ensures i >= 10 && i / 10 == n && i % 10 == digit && DecNat(i) == DecNat(n) + [Digit(digit)]
  {
  }

  lemma CountIndexIs(i: nat)
    ensures Decimal(DecNat(i), i) && NumberIndex(CountIndex(i), i)
  {
    NatReads(i);
    NoLeadingZeros(i);
  }

  lemma NoLeadingZeros(i: nat)
    ensures DecNat(i)[0] == '0' ==> DecNat(i) == "0"
  {
    NoLeadingZero(i);
  }

  /** There is one such text per number, and a different one for each. */
  lemma NumberIndexIs(text: string, i: nat)
    ensures NumberIndex(text, i) <==> text == CountIndex(i)
  {
    CountIndexIs(i);
    if d :| text == "[" + d + "]" && Decimal(d, i) { DecimalIs(d, i); }
  }

  lemma {:induction false} EscapeSnoc(s: string, c: char)
    ensures EscapeKey(s + [c]) == EscapeKey(s) + (if c == '"' || c == '\\' then [] else [c])
    decreases |s|
  {
    if s == [] {
      assert s + [c] == [c];
    } else {
      assert (s + [c])[1..] == s[1..] + [c];
      EscapeSnoc(s[1..], c);
    }
  }

  lemma {:induction false} StrippedIs(key: string)
    ensures Stripped(key) == EscapeKey(key)
    decreases |key|
  {
    if key != [] {
      var front, last := key[..|key| - 1], key[|key| - 1];
      assert key == front + [last];
      StrippedIs(front);
      EscapeSnoc(front, last);
    }
  }

  lemma KeyIndexIs(text: string, key: string)
    ensures TextIndex(text, key) <==> text == KeyIndex(key)
  {
    StrippedIs(key);
  }

  // ---- the strings of a list ------------------------------------------------------------------

  function StringsBefore(items: seq<Value>, p: nat): nat
    requires p <= |items|
  {
    |StringPositions(items, p)|
  }

  /** `key` is the `k`-th string among the items. */
  ghost predicate NthString(items: seq<Value>, k: nat, key: string) {
    exists p :: 0 <= p < |items| && items[p] == Str(key) && StringsBefore(items, p) == k
  }

  lemma {:induction false} StringItemsSnoc(items: seq<Value>, x: Value)
    ensures StringItems(items + [x]) == StringItems(items) + (if x.Str? then [x.s] else [])
    decreases |items|
  {
    if items == [] {
      assert items + [x] == [x] && [x][1..] == [];
    } else {
      var first: seq<string> := if items[0].Str? then [items[0].s] else [];
      var last: seq<string> := if x.Str? then [x.s] else [];
      assert (items + [x])[0] == items[0] && (items + [x])[1..] == items[1..] + [x];
      StringItemsSnoc(items[1..], x);
      assert StringItems(items) == first + StringItems(items[1..]);
      assert StringItems(items + [x]) == first + (StringItems(items[1..]) + last);
      hide StringItems;
      ConcatAssoc(first, StringItems(items[1..]), last);
    }
  }

  function StringPositions(items: seq<Value>, p: nat): set<nat>
    requires p <= |items|
  {
    set q: nat | q < p && items[q].Str?
  }

  lemma PositionsSnoc(items: seq<Value>, p: nat)
    requires p < |items|
    ensures StringsBefore(items, p + 1) == StringsBefore(items, p) + (if items[p].Str? then 1 else 0)
  {
    var before := StringPositions(items, p);
    assert StringPositions(items, p + 1) == before + (if items[p].Str? then {p} else {});
    assert p !in before;
  }

  lemma {:induction false} StringsCounted(items: seq<Value>, p: nat)
    requires p <= |items|
    ensures |StringItems(items[..p])| == StringsBefore(items, p)
    decreases p
  {
    if p == 0 {
      assert items[..0] == [] && StringPositions(items, 0) == {};
    } else {
      StringsCounted(items, p - 1);
      assert items[..p] == items[..p - 1] + [items[p - 1]];
      hide StringsBefore, StringItems;
      StringItemsSnoc(items[..p - 1], items[p - 1]);
      PositionsSnoc(items, p - 1);
    }
  }

  lemma {:induction false} StringItemsAre(items: seq<Value>, k: nat, key: string)
    ensures k < |StringItems(items)| && StringItems(items)[k] == key <==> NthString(items, k, key)
    decreases |items|
  {
    if items != [] {
      var front, x := items[..|items| - 1], items[|items| - 1];
      assert items == front + [x];
      StringItemsAre(front, k, key);
      StringItemsSnoc(front, x);
      StringsCounted(items, |items| - 1);
      forall p | 0 <= p <= |front| ensures StringsBefore(items, p) == StringsBefore(front, p) {
        assert StringPositions(items, p) == StringPositions(front, p);
      }
      if NthString(front, k, key) {
        var p :| 0 <= p < |front| && front[p] == Str(key) && StringsBefore(front, p) == k;
        assert items[p] == Str(key) && StringsBefore(items, p) == k;
      }
      if NthString(items, k, key) {
        var p :| 0 <= p < |items| && items[p] == Str(key) && StringsBefore(items, p) == k;
        if p < |front| { assert front[p] == Str(key) && StringsBefore(front, p) == k; }
      }
      if k == |StringItems(front)| && x == Str(key) {
        assert items[|front|] == Str(key) && StringsBefore(items, |front|) == k;
      }
    } else {
      assert StringItems(items) == [];
    }
  }

  // ---- the instances of a module call ---------------------------------------------------------

  /** The `k`-th key of a literal map, or the `k`-th string of a literal list. */
  ghost predicate NthKey(e: Expr, k: nat, key: string) {
    e.Literal? && ((e.v.Map? && k < |e.v.entries| && e.v.entries[k].key == key) || (e.v.List? && NthString(e.v.items, k, key)))
  }

  predicate Countable(e: Expr, cap: nat) {
    e.Literal? && e.v.Int? && e.v.n <= cap
  }

  /** Instance number `i` of a call with these expressions exists and is written `index`: a literal count
      gives numbers, a literal map or list gives keys, and anything else, or more than the cap, gives one
      instance without an index. */
  ghost predicate InstanceIndex(count: Option<Expr>, forEach: Option<Expr>, cap: nat, i: nat, index: Option<string>) {
    if count.Some? then
      if Countable(count.value, cap) then i < count.value.v.n && index.Some? && NumberIndex(index.value, i)
      else i == 0 && index == None
    else if forEach.Some? && Unrolls(forEach.value, cap) then
      index.Some? && exists key :: NthKey(forEach.value, i, key) && TextIndex(index.value, key)
    else i == 0 && index == None
  }

  lemma KeysAre(e: Expr, cap: nat, k: nat, key: string)
    requires Unrolls(e, cap)
    ensures k < |ForEachKeys(e)| && ForEachKeys(e)[k] == key <==> NthKey(e, k, key)
  {
    if e.v.List? { StringItemsAre(e.v.items, k, key); }
  }

  /** Which index each instance of a module call carries. */
  lemma InstancesAre(call: ModuleCall, cap: nat, i: nat, index: Option<string>)
    ensures i < |Instances(call, cap).0| && Instances(call, cap).0[i] == index <==>
            InstanceIndex(call.countExpr, call.forEachExpr, cap, i, index)
  {
    hide NumberIndex, TextIndex, NthKey, CountIndex, KeyIndex;
    if call.countExpr.Some? {
      if index.Some? { NumberIndexIs(index.value, i); }
    } else if call.forEachExpr.Some? && Unrolls(call.forEachExpr.value, cap) {
      var e := call.forEachExpr.value;
      var keys := ForEachKeys(e);
      assert Instances(call, cap).0 == KeyInstances(keys);
      forall key ensures i < |keys| && keys[i] == key <==> NthKey(e, i, key) { KeysAre(e, cap, i, key); }
      if index.Some? {
        forall key ensures TextIndex(index.value, key) <==> index.value == KeyIndex(key) { KeyIndexIs(index.value, key); }
      }
      if i < |keys| { assert NthKey(e, i, keys[i]); }
    }
  }

  /** A call complains about nothing but a literal count, map or list beyond the cap. */
  lemma InstancesComplain(call: ModuleCall, cap: nat)
    ensures Instances(call, cap).1 ==
            if BeyondCap(call.countExpr, call.forEachExpr, cap) then [TF1505] else []
  {
  }

  predicate BeyondCap(count: Option<Expr>, forEach: Option<Expr>, cap: nat) {
    if count.Some? then count.value.Literal? && count.value.v.Int? && count.value.v.n > cap
    else
      && forEach.Some? && forEach.value.Literal?
      && ((forEach.value.v.Map? && |forEach.value.v.entries| > cap) || (forEach.value.v.List? && |forEach.value.v.items| > cap))
  }

  // ---- the rows of an expanded resource -------------------------------------------------------

  /** `r` under a longer address, without `count` and `for_each`; nothing else differs. */
  predicate Copy(row: Resource, r: Resource, text: string) {
    row == r.(address := r.address + text, countExpr := None, forEachExpr := None)
  }

  /** Positions that increase and are exactly those of the suffixes that validate, with a row for each. */
  ghost predicate Picks(r: Resource, suffixes: seq<string>, rows: seq<Resource>, kept: seq<nat>) {
    && Ascends(kept) && |kept| == |rows|
    && (forall i: nat :: i in kept <==> i < |suffixes| && ValidAddress(r.address + suffixes[i]))
    && (forall k :: 0 <= k < |kept| ==> kept[k] < |suffixes| && Copy(rows[k], r, suffixes[kept[k]]))
  }

  lemma SuffixRow(r: Resource, suffix: string)
    ensures WithIndex(r, suffix).Some? <==> ValidAddress(r.address + suffix)
    ensures WithIndex(r, suffix).Some? ==> Copy(WithIndex(r, suffix).value, r, suffix)
  {
  }

  function Indexed(r: Resource, suffixes: seq<string>): seq<Option<Resource>> {
    seq(|suffixes|, i requires 0 <= i < |suffixes| => WithIndex(r, suffixes[i]))
  }

  lemma {:induction false} IndexAllIs(r: Resource, suffixes: seq<string>)
    ensures IndexAll(r, suffixes).0 == Present(Indexed(r, suffixes))
    decreases |suffixes|
  {
    hide WithIndex;
    if suffixes == [] {
      assert Indexed(r, suffixes) == [];
    } else {
      IndexAllIs(r, suffixes[1..]);
      PresentCons(Indexed(r, suffixes));
      assert Indexed(r, suffixes)[1..] == Indexed(r, suffixes[1..]);
    }
  }

  lemma RowsPicked(r: Resource, suffixes: seq<string>) returns (kept: seq<nat>)
    ensures Picks(r, suffixes, IndexAll(r, suffixes).0, kept)
  {
    IndexAllIs(r, suffixes);
    var opts := Indexed(r, suffixes);
    kept := PresentAre(opts);
    hide WithIndex, ValidAddress, Copy, Present, IndexAll, Ascends;
    forall i | 0 <= i < |suffixes|
      ensures opts[i].Some? <==> ValidAddress(r.address + suffixes[i])
      ensures opts[i].Some? ==> Copy(opts[i].value, r, suffixes[i])
    {
      SuffixRow(r, suffixes[i]);
    }
    forall k | 0 <= k < |kept| ensures kept[k] < |suffixes| { assert kept[k] in kept; }
  }

  /** When every address validates nothing is left out. */
  lemma {:induction false} AllPicked(r: Resource, suffixes: seq<string>)
    requires forall i :: 0 <= i < |suffixes| ==> ValidAddress(r.address + suffixes[i])
    ensures var rows := IndexAll(r, suffixes).0;
            |rows| == |suffixes| && forall i :: 0 <= i < |rows| ==> Copy(rows[i], r, suffixes[i])
    decreases |suffixes|
  {
    if suffixes != [] {
      hide ValidAddress;
      var tail := suffixes[1..];
      assert forall i :: 0 <= i < |tail| ==> tail[i] == suffixes[i + 1];
      AllPicked(r, tail);
    }
  }

  /** A literal count n within the cap: copies of the resource numbered 0 to n - 1, in order, those left
      out whose address does not validate. */
  lemma CountRows(r: Resource, n: i64, cap: nat) returns (texts: seq<string>, kept: seq<nat>)
    requires r.countExpr == Some(Literal(Int(n))) && 0 < n <= cap
    ensures |texts| == n && forall i :: 0 <= i < n ==> NumberIndex(texts[i], i)
    ensures Picks(r, texts, ExpandResource(r, cap).0, kept)
    ensures var rows := ExpandResource(r, cap).0;
            (forall i :: 0 <= i < n ==> ValidAddress(r.address + texts[i])) ==>
              |rows| == n && forall i :: 0 <= i < n ==> Copy(rows[i], r, texts[i])
  {
    texts := CountSuffixes(n);
    assert ExpandResource(r, cap) == IndexAll(r, texts);
    hide NumberIndex, ValidAddress, IndexAll, Copy, CountIndex, ExpandResource;
    kept := RowsPicked(r, texts);
    forall i | 0 <= i < n ensures NumberIndex(texts[i], i) { CountIndexIs(i); }
    if forall i :: 0 <= i < n ==> ValidAddress(r.address + texts[i]) { AllPicked(r, texts); }
  }

  /** A literal map or list within the cap: one copy per key or string, in order, under that key. */
  lemma ForEachRows(r: Resource, cap: nat) returns (keys: seq<string>, texts: seq<string>, kept: seq<nat>)
    requires r.countExpr.None? && r.forEachExpr.Some? && Unrolls(r.forEachExpr.value, cap)
    ensures forall k: nat, key :: k < |keys| && keys[k] == key <==> NthKey(r.forEachExpr.value, k, key)
    ensures |texts| == |keys| && forall i :: 0 <= i < |keys| ==> TextIndex(texts[i], keys[i])
    ensures Picks(r, texts, ExpandResource(r, cap).0, kept)
    ensures var rows := ExpandResource(r, cap).0;
            (forall i :: 0 <= i < |keys| ==> ValidAddress(r.address + texts[i])) ==>
              |rows| == |keys| && forall i :: 0 <= i < |keys| ==> Copy(rows[i], r, texts[i])
  {
    keys := ForEachKeys(r.forEachExpr.value);
    texts := KeySuffixes(keys);
    assert ExpandResource(r, cap) == IndexAll(r, texts);
    hide NthKey, TextIndex, ValidAddress, IndexAll, Copy, KeyIndex, ExpandResource, ForEachKeys;
    kept := RowsPicked(r, texts);
    forall k: nat, key ensures k < |keys| && keys[k] == key <==> NthKey(r.forEachExpr.value, k, key) {
      KeysAre(r.forEachExpr.value, cap, k, key);
    }
    forall i | 0 <= i < |keys| ensures TextIndex(texts[i], keys[i]) { KeyIndexIs(texts[i], keys[i]); }
    if forall i :: 0 <= i < |keys| ==> ValidAddress(r.address + texts[i]) { AllPicked(r, texts); }
  }

  /** Everything else: no rows for a literal count that is not positive, and otherwise the resource as it
      is, with a TF1505 if its literal is beyond the cap. */
  lemma OtherRows(r: Resource, cap: nat)
    requires r.countExpr.Some? ==> !(Countable(r.countExpr.value, cap) && r.countExpr.value.v.n > 0)
    requires r.countExpr.None? && r.forEachExpr.Some? ==> !Unrolls(r.forEachExpr.value, cap)
    ensures ExpandResource(r, cap) ==
            if r.countExpr.Some? && Countable(r.countExpr.value, cap) then ([], [])
            else ([r], if BeyondCap(r.countExpr, r.forEachExpr, cap) then [TF1505] else [])
  {
  }

  // ---- several resources ----------------------------------------------------------------------

  /** Resources are expanded one after the other, into one list. */
  lemma {:induction false} ExpansionSplits(a: seq<Resource>, b: seq<Resource>, cap: nat)
    ensures ExpandAll(a + b, cap) ==
            (ExpandAll(a, cap).0 + ExpandAll(b, cap).0, ExpandAll(a, cap).1 + ExpandAll(b, cap).1)
    decreases |b|
  {
    hide ExpandResource;
    if b == [] {
      assert a + b == a;
      var whole := ExpandAll(a, cap);
      assert whole.0 + [] == whole.0 && whole.1 + [] == whole.1;
    } else {
      var front, last := b[..|b| - 1], b[|b| - 1];
      assert (a + b)[..|a + b| - 1] == a + front;
      ExpansionSplits(a, front, cap);
      var x, y, z := ExpandAll(a, cap), ExpandAll(front, cap), ExpandResource(last, cap);
      assert (x.0 + y.0) + z.0 == x.0 + (y.0 + z.0);
      assert (x.1 + y.1) + z.1 == x.1 + (y.1 + z.1);
    }
  }

  lemma OneExpansion(r: Resource, cap: nat)
    ensures ExpandAll([], cap) == ([], []) && ExpandAll([r], cap) == ExpandResource(r, cap)
  {
    assert [r][..0] == [];
    var one := ExpandResource(r, cap);
    assert [] + one.0 == one.0 && [] + one.1 == one.1;
  }

  /** A component's rows are those of its own resources and then those of its flattened modules. */
  lemma OwnRowsFirst(c: Body, repo: Repo)
    ensures Combined(c, repo).0 ==
            ExpandAll(c.resources, repo.cap).0 + ExpandAll(RowsOf(BodyTrace(RootCtx(c), [], 0, repo)), repo.cap).0
  {
    hide ExpandAll, ExpandResource, BodyTrace;
    ExpansionSplits(c.resources, RowsOf(BodyTrace(RootCtx(c), [], 0, repo)), repo.cap);
  }
}
