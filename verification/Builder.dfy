/** `count` / `for_each` expansion of resources and the per-component build (`graph/expand.rs`,
    `graph/builder.rs`). */
module Builder {
  import opened Ir
  import opened Seqs
  import opened Text
  import opened Addresses
  import opened Expand

  // ---- expansion of one resource --------------------------------------------------------------

  /** `with_indexed_address`: the copy carries no `count` or `for_each` any more. */
  function WithIndex(r: Resource, suffix: string): Option<Resource> {
    if ValidAddress(r.address + suffix) then
      Some(r.(address := r.address + suffix, countExpr := None, forEachExpr := None))
    else None
  }

  /** One row per suffix whose address validates, one TF1507 per suffix whose address does not. */
  function IndexAll(r: Resource, suffixes: seq<string>): (seq<Resource>, seq<Code>) {
    if suffixes == [] then ([], [])
    else
      var (rows, codes) := IndexAll(r, suffixes[1..]);
      match WithIndex(r, suffixes[0])
      case Some(row) => ([row] + rows, codes)
      case None => (rows, [TF1507] + codes)
  }

  function CountSuffixes(n: nat): seq<string> {
    seq(n, i requires 0 <= i < n => CountIndex(i))
  }

  function KeySuffixes(keys: seq<string>): seq<string> {
    seq(|keys|, i requires 0 <= i < |keys| => KeyIndex(keys[i]))
  }

  /** `expand_resource` */
  function ExpandResource(r: Resource, cap: nat): (seq<Resource>, seq<Code>) {
    if r.countExpr.Some? then
      match r.countExpr.value
      case Literal(Int(n)) =>
        if n <= 0 then ([], [])
        else if n > cap then ([r], [TF1505])
        else IndexAll(r, CountSuffixes(n))
      case _ => ([r], [])
    else if r.forEachExpr.Some? then
      match r.forEachExpr.value
      case Literal(Map(entries)) =>
        if |entries| > cap then ([r], [TF1505]) else IndexAll(r, KeySuffixes(Keys(entries)))
      case Literal(List(items)) =>
        if |items| > cap then ([r], [TF1505]) else IndexAll(r, KeySuffixes(StringItems(items)))
      case _ => ([r], [])
    else ([r], [])
  }

  // ---- facts about it -------------------------------------------------------------------------

  lemma {:induction false} IndexAllFacts(r: Resource, suffixes: seq<string>)
    ensures var (rows, codes) := IndexAll(r, suffixes);
            && |rows| + |codes| == |suffixes|
            && (forall c :: c in codes ==> c == TF1507)
            && (forall row :: row in rows ==> exists x :: x in suffixes && WithIndex(r, x) == Some(row))
            && (forall x :: x in suffixes && WithIndex(r, x).Some? ==> WithIndex(r, x).value in rows)
    decreases |suffixes|
  {
    if suffixes != [] {
      IndexAllFacts(r, suffixes[1..]);
      var (rows, codes) := IndexAll(r, suffixes[1..]);
      assert suffixes == [suffixes[0]] + suffixes[1..];
      forall row | row in IndexAll(r, suffixes).0 ensures exists x :: x in suffixes && WithIndex(r, x) == Some(row) {
        if row in rows {
          var x :| x in suffixes[1..] && WithIndex(r, x) == Some(row);
          assert x in suffixes;
        } else {
          assert suffixes[0] in suffixes && WithIndex(r, suffixes[0]) == Some(row);
        }
      }
    }
  }

  ghost predicate DistinctAddresses(rows: seq<Resource>) {
    forall i, j :: 0 <= i < j < |rows| ==> rows[i].address != rows[j].address
  }

  /** Suffixes whose addresses validate do not repeat. */
  ghost predicate ValidSuffixesDistinct(r: Resource, suffixes: seq<string>) {
    forall i, j :: 0 <= i < j < |suffixes| && WithIndex(r, suffixes[i]).Some? && WithIndex(r, suffixes[j]).Some? ==>
      suffixes[i] != suffixes[j]
  }

  ghost predicate Repeats(r: Resource, x: string, tail: seq<string>) {
    exists j :: 0 <= j < |tail| && WithIndex(r, tail[j]).Some? && tail[j] == x
  }

  lemma SuffixesStep(r: Resource, suffixes: seq<string>)
    requires suffixes != []
    ensures ValidSuffixesDistinct(r, suffixes) <==>
            ValidSuffixesDistinct(r, suffixes[1..]) &&
            (WithIndex(r, suffixes[0]).Some? ==> !Repeats(r, suffixes[0], suffixes[1..]))
  {
    hide WithIndex;
    var tail := suffixes[1..];
    assert forall i :: 0 < i < |suffixes| ==> suffixes[i] == tail[i - 1];
    assert forall i :: 0 <= i < |tail| ==> tail[i] == suffixes[i + 1];
  }

  lemma AddressesStep(row: Resource, rows: seq<Resource>)
    ensures DistinctAddresses([row] + rows) <==> DistinctAddresses(rows) && !Occurs(rows, row.address)
  {
    var all := [row] + rows;
    assert forall i :: 0 < i < |all| ==> all[i] == rows[i - 1];
    if DistinctAddresses(all) {
      forall i, j | 0 <= i < j < |rows| ensures rows[i].address != rows[j].address {
        assert all[i + 1].address != all[j + 1].address;
      }
      forall j | 0 <= j < |rows| ensures rows[j].address != row.address {
        assert all[0].address != all[j + 1].address;
      }
    }
    if DistinctAddresses(rows) && !Occurs(rows, row.address) {
      forall i, j | 0 <= i < j < |all| ensures all[i].address != all[j].address {
        assert rows[j - 1].address != row.address;
      }
    }
  }

  /** The rows have different addresses exactly when the suffixes that survive validation differ. */
  lemma {:induction false} IndexAllDistinct(r: Resource, suffixes: seq<string>)
    ensures DistinctAddresses(IndexAll(r, suffixes).0) <==> ValidSuffixesDistinct(r, suffixes)
    decreases |suffixes|
  {
    if suffixes != [] {
      hide WithIndex, ValidSuffixesDistinct, DistinctAddresses, Repeats, Occurs;
      var tail := suffixes[1..];
      IndexAllDistinct(r, tail);
      SuffixesStep(r, suffixes);
      if WithIndex(r, suffixes[0]).Some? {
        HeadAddress(r, suffixes[0], tail);
        AddressesStep(WithIndex(r, suffixes[0]).value, IndexAll(r, tail).0);
      }
    } else {
      assert IndexAll(r, suffixes).0 == [];
    }
  }

  /** The head's address occurs again exactly when its suffix does. */
  lemma HeadAddress(r: Resource, x: string, tail: seq<string>)
    requires WithIndex(r, x).Some?
    ensures Occurs(IndexAll(r, tail).0, WithIndex(r, x).value.address) <==> Repeats(r, x, tail)
  {
    IndexAllFacts(r, tail);
    var rows := IndexAll(r, tail).0;
    if j :| 0 <= j < |rows| && rows[j].address == WithIndex(r, x).value.address {
      assert rows[j] in rows;
      var y :| y in tail && WithIndex(r, y) == Some(rows[j]);
      SuffixCancels(r.address, x, y);
      var k :| 0 <= k < |tail| && tail[k] == y;
    }
    if k :| 0 <= k < |tail| && WithIndex(r, tail[k]).Some? && tail[k] == x {
      assert tail[k] in tail && WithIndex(r, x).value in rows;
      var j :| 0 <= j < |rows| && rows[j] == WithIndex(r, x).value;
    }
  }

  lemma SuffixCancels(front: string, a: string, b: string)
    ensures front + a == front + b <==> a == b
  {
    assert (front + a)[|front|..] == a && (front + b)[|front|..] == b;
  }

  lemma CountSuffixesDistinct(n: nat)
    ensures DistinctStrings(CountSuffixes(n))
  {
    forall i, j | 0 <= i < j < n ensures CountIndex(i) != CountIndex(j) {
      if CountIndex(i) == CountIndex(j) {
        assert CountIndex(i)[1..|CountIndex(i)| - 1] == DecNat(i);
        assert CountIndex(j)[1..|CountIndex(j)| - 1] == DecNat(j);
        DecNatInjective(i, j);
      }
    }
  }

  /** A literal count within the cap conserves rows: rows and TF1507 diagnostics add up to the count,
      and no two rows share an address. */
  lemma CountConserves(r: Resource, n: i64, cap: nat)
    requires r.countExpr == Some(Literal(Int(n))) && n <= cap
    ensures var (rows, codes) := ExpandResource(r, cap);
            && |rows| + |codes| == (if n > 0 then n else 0)
            && (forall c :: c in codes ==> c == TF1507)
            && DistinctAddresses(rows)
  {
    if n > 0 {
      IndexAllFacts(r, CountSuffixes(n));
      CountSuffixesDistinct(n);
      IndexAllDistinct(r, CountSuffixes(n));
    }
  }

  /** The keys a literal `for_each` iterates over; list items that are not strings are skipped. */
  function ForEachKeys(e: Expr): seq<string> {
    if e.Literal? && e.v.Map? then Keys(e.v.entries)
    else if e.Literal? && e.v.List? then StringItems(e.v.items)
    else []
  }

  /** A literal map or list of no more than `cap` members, which is what `for_each` unrolls. */
  predicate Unrolls(e: Expr, cap: nat) {
    e.Literal? && ((e.v.Map? && |e.v.entries| <= cap) || (e.v.List? && |e.v.items| <= cap))
  }

  /** A `for_each` map or list within the cap conserves rows too: one row or one TF1507 per key. Addresses
      are distinct exactly when the keys whose address validates still differ after escaping. */
  lemma ForEachConserves(r: Resource, cap: nat)
    requires r.countExpr.None? && r.forEachExpr.Some? && Unrolls(r.forEachExpr.value, cap)
    ensures var (rows, codes), keys := ExpandResource(r, cap), ForEachKeys(r.forEachExpr.value);
            && |rows| + |codes| == |keys|
            && (forall c :: c in codes ==> c == TF1507)
            && (DistinctAddresses(rows) <==>
                forall i, j :: 0 <= i < j < |keys| && WithIndex(r, KeyIndex(keys[i])).Some? && WithIndex(r, KeyIndex(keys[j])).Some? ==>
                  EscapeKey(keys[i]) != EscapeKey(keys[j]))
  {
    var keys := ForEachKeys(r.forEachExpr.value);
    var suffixes := KeySuffixes(keys);
    assert ExpandResource(r, cap) == IndexAll(r, suffixes);
    IndexAllFacts(r, suffixes);
    IndexAllDistinct(r, suffixes);
    forall i, j | 0 <= i < j < |keys| ensures suffixes[i] == suffixes[j] <==> EscapeKey(keys[i]) == EscapeKey(keys[j]) {
      KeyIndexInjective(keys[i], keys[j]);
    }
    hide WithIndex, EscapeKey, KeyIndex;
    assert forall i :: 0 <= i < |keys| ==> suffixes[i] == KeyIndex(keys[i]);
  }

  lemma KeyIndexInjective(a: string, b: string)
    ensures KeyIndex(a) == KeyIndex(b) <==> EscapeKey(a) == EscapeKey(b)
  {
    assert KeyIndex(a)[2..|KeyIndex(a)| - 2] == EscapeKey(a);
    assert KeyIndex(b)[2..|KeyIndex(b)| - 2] == EscapeKey(b);
  }

  /** The instance indices of a module call. */
  ghost predicate DistinctIndices(indices: seq<Option<string>>) {
    forall i, j :: 0 <= i < j < |indices| ==> indices[i] != indices[j]
  }

  /** The instances of a module call carry different indices, except when a `for_each` is unrolled and two
      of its keys become the same by escaping. */
  lemma CallInstancesDistinct(call: ModuleCall, cap: nat)
    ensures DistinctIndices(Instances(call, cap).0) <==>
            call.countExpr.Some? || call.forEachExpr.None? ||
            (Unrolls(call.forEachExpr.value, cap) ==> EscapedKeysDistinct(ForEachKeys(call.forEachExpr.value)))
  {
    if call.countExpr.Some? {
      var e := call.countExpr.value;
      if e.Literal? && e.v.Int? && 0 < e.v.n <= cap {
        CountSuffixesDistinct(e.v.n);
        assert forall i :: 0 <= i < e.v.n ==> Instances(call, cap).0[i] == Some(CountSuffixes(e.v.n)[i]);
      }
    } else if call.forEachExpr.Some? && Unrolls(call.forEachExpr.value, cap) {
      var keys := ForEachKeys(call.forEachExpr.value);
      assert Instances(call, cap).0 == KeyInstances(keys);
      forall i, j | 0 <= i < j < |keys| ensures KeyInstances(keys)[i] == KeyInstances(keys)[j] <==> EscapeKey(keys[i]) == EscapeKey(keys[j]) {
        KeyIndexInjective(keys[i], keys[j]);
      }
    }
  }

  /** They do for the keys `a` and `a"`. */
  lemma QuoteInKeyCollides(call: ModuleCall, u: Value, v: Value, cap: nat)
    requires call.countExpr.None? && cap >= 2
    requires call.forEachExpr == Some(Literal(Map([Entry("a", u), Entry("a\"", v)])))
    ensures Instances(call, cap).0 == [Some("[\"a\"]"), Some("[\"a\"]")] && !DistinctIndices(Instances(call, cap).0)
  {
    var keys := ["a", "a\""];
    assert Keys([Entry("a", u), Entry("a\"", v)]) == keys;
    assert EscapeKey("a") == "a" by { assert "a"[1..] == ""; }
    assert EscapeKey("a\"") == "a" by { assert "a\""[1..] == "\"" && "\""[1..] == ""; }
    assert Instances(call, cap).0 == KeyInstances(keys);
    assert KeyIndex("a") == "[\"a\"]" == KeyIndex("a\"");
    assert Instances(call, cap).0[0] == Instances(call, cap).0[1];
  }

  ghost predicate EscapedKeysDistinct(keys: seq<string>) {
    forall i, j :: 0 <= i < j < |keys| ==> EscapeKey(keys[i]) != EscapeKey(keys[j])
  }

  /** Expanding the rows of an expansion again changes nothing. */
  lemma ReExpansionIsIdentity(r: Resource, cap: nat, row: Resource)
    requires row in ExpandResource(r, cap).0
    ensures ExpandResource(row, cap).0 == [row]
  {
    if row != r {
      var suffixes :| row in IndexAll(r, suffixes).0;
      IndexAllFacts(r, suffixes);
    } else if r.countExpr.Some? || r.forEachExpr.Some? {
      // Only a template row keeps its expression, and it is its own expansion.
      if r.countExpr.Some? && r.countExpr.value.Literal? && r.countExpr.value.v.Int? && 0 < r.countExpr.value.v.n <= cap {
        IndexAllFacts(r, CountSuffixes(r.countExpr.value.v.n));
      } else if r.countExpr.None? && r.forEachExpr.value.Literal? {
        var v := r.forEachExpr.value.v;
        if v.Map? && |v.entries| <= cap { IndexAllFacts(r, KeySuffixes(Keys(v.entries))); }
        if v.List? && |v.items| <= cap { IndexAllFacts(r, KeySuffixes(StringItems(v.items))); }
      }
    }
  }

  // ---- de-duplication -------------------------------------------------------------------------

  /** First occurrences, in order, given the addresses seen so far. */
  function FirstOccurrences(rows: seq<Resource>, seen: set<string>): seq<Resource> {
    if rows == [] then []
    else if rows[0].address in seen then FirstOccurrences(rows[1..], seen)
    else [rows[0]] + FirstOccurrences(rows[1..], seen + {rows[0].address})
  }

  /** No earlier row, and nothing seen before, has this row's address. */
  predicate IsFirst(rows: seq<Resource>, seen: set<string>, i: nat) {
    i < |rows| && rows[i].address !in seen && forall j :: 0 <= j < i ==> rows[j].address != rows[i].address
  }

  lemma IsFirstTail(rows: seq<Resource>, seen: set<string>, i: nat)
    requires rows != []
    ensures IsFirst(rows, seen, 0) <==> rows[0].address !in seen
    ensures i > 0 ==> (IsFirst(rows, seen, i) <==> IsFirst(rows[1..], seen + {rows[0].address}, i - 1))
  {
    if i == 0 || i >= |rows| { return; }
    assert rows[1..][i - 1] == rows[i];
    if IsFirst(rows, seen, i) {
      forall j | 0 <= j < i - 1 ensures rows[1..][j].address != rows[i].address { assert rows[1..][j] == rows[j + 1]; }
    }
    if IsFirst(rows[1..], seen + {rows[0].address}, i - 1) {
      forall j | 0 <= j < i ensures rows[j].address != rows[i].address {
        if j > 0 { assert rows[1..][j - 1] == rows[j]; }
      }
    }
  }

  lemma NoneIsFirst(seen: set<string>, i: nat)
    ensures !IsFirst([], seen, i)
  {
  }

  lemma FirstStep(rows: seq<Resource>, seen: set<string>)
    requires rows != []
    ensures FirstOccurrences(rows, seen) ==
            (if rows[0].address in seen then [] else [rows[0]]) + FirstOccurrences(rows[1..], seen + {rows[0].address})
  {
    assert rows[0].address in seen ==> seen + {rows[0].address} == seen;
  }

  /** What de-duplication keeps: an increasing choice of positions, namely exactly those whose
      address has not occurred before. */
  lemma {:induction false} FirstOccurrencesExact(rows: seq<Resource>, seen: set<string>) returns (kept: seq<nat>)
    ensures |kept| == |FirstOccurrences(rows, seen)|
    ensures forall k :: 0 <= k < |kept| ==> kept[k] < |rows| && FirstOccurrences(rows, seen)[k] == rows[kept[k]]
    ensures forall k, l :: 0 <= k < l < |kept| ==> kept[k] < kept[l]
    ensures forall i: nat :: i in kept <==> IsFirst(rows, seen, i)
    decreases |rows|
  {
    hide IsFirst;
    kept := [];
    if rows == [] {
      forall i: nat ensures !IsFirst(rows, seen, i) { NoneIsFirst(seen, i); }
    } else {
      hide FirstOccurrences;
      FirstStep(rows, seen);
      var isNew := rows[0].address !in seen;
      var rest := FirstOccurrencesExact(rows[1..], seen + {rows[0].address});
      var shifted: seq<nat> := seq(|rest|, k requires 0 <= k < |rest| => rest[k] + 1);
      var head: seq<nat> := if isNew then [0] else [];
      kept := head + shifted;
      forall i: nat ensures i in kept <==> IsFirst(rows, seen, i) {
        ShiftedMembers(rest, shifted, i);
        IsFirstTail(rows, seen, i);
        assert i in kept <==> i in head || i in shifted;
      }
    }
  }

  lemma ShiftedMembers(rest: seq<nat>, shifted: seq<nat>, i: nat)
    requires |shifted| == |rest| && forall k :: 0 <= k < |rest| ==> shifted[k] == rest[k] + 1
    ensures i in shifted <==> i > 0 && i - 1 in rest
  {
    if i > 0 && i - 1 in rest {
      var k :| 0 <= k < |rest| && rest[k] == i - 1;
      assert shifted[k] == i;
    }
  }

  ghost predicate Occurs(rows: seq<Resource>, address: string) {
    exists k :: 0 <= k < |rows| && rows[k].address == address
  }

  lemma OccursAppend(a: seq<Resource>, b: seq<Resource>, address: string)
    ensures Occurs(a + b, address) <==> Occurs(a, address) || Occurs(b, address)
  {
    if Occurs(a, address) {
      var k :| 0 <= k < |a| && a[k].address == address;
      assert (a + b)[k] == a[k];
    }
    if Occurs(b, address) {
      var k :| 0 <= k < |b| && b[k].address == address;
      assert (a + b)[|a| + k] == b[k];
    }
  }

  lemma {:induction false} FirstOccurrencesDistinct(rows: seq<Resource>, seen: set<string>)
    ensures DistinctAddresses(FirstOccurrences(rows, seen))
    ensures forall r :: r in FirstOccurrences(rows, seen) ==> r.address !in seen
    ensures forall i :: 0 <= i < |rows| ==> rows[i].address in seen || Occurs(FirstOccurrences(rows, seen), rows[i].address)
    decreases |rows|
  {
    if rows != [] {
      hide FirstOccurrences, Occurs;
      FirstStep(rows, seen);
      var first := rows[0].address;
      var head: seq<Resource> := if first in seen then [] else [rows[0]];
      var tail := FirstOccurrences(rows[1..], seen + {first});
      FirstOccurrencesDistinct(rows[1..], seen + {first});
      assert forall k :: 0 <= k < |tail| ==> tail[k] in tail;
      OccursOnce(rows[0]);
      forall i | 0 <= i < |rows| ensures rows[i].address in seen || Occurs(head + tail, rows[i].address) {
        OccursAppend(head, tail, rows[i].address);
        if i > 0 { assert rows[1..][i - 1] == rows[i]; }
      }
    }
  }

  lemma OccursOnce(r: Resource)
    ensures Occurs([r], r.address)
  {
    assert [r][0].address == r.address;
  }

  // ---- the build ------------------------------------------------------------------------------

  function ExpandAll(rs: seq<Resource>, cap: nat): (seq<Resource>, seq<Code>) {
    if rs == [] then ([], [])
    else
      var (front, codes) := ExpandAll(rs[..|rs| - 1], cap);
      var (rows, more) := ExpandResource(rs[|rs| - 1], cap);
      (front + rows, codes + more)
  }

  function Repeat(c: Code, n: nat): seq<Code> {
    seq(n, _ => c)
  }

  /** Everything one component contributes: its own resources, then the flattened module resources. */
  function Combined(c: Body, repo: Repo): (seq<Resource>, seq<Code>) {
    ExpandAll(c.resources + RowsOf(BodyTrace(RootCtx(c), [], 0, repo)), repo.cap)
  }

  /** The rows and diagnostics of one built component. */
  function Built(c: Body, repo: Repo): (seq<Resource>, seq<Code>) {
    var (rows, codes) := Combined(c, repo);
    var kept := FirstOccurrences(rows, {});
    (kept, CodesOf(BodyTrace(RootCtx(c), [], 0, repo)) + codes
           + Repeat(TF1506, if |kept| <= |rows| then |rows| - |kept| else 0))
  }

  method ExpandCombined(all: seq<Resource>, cap: nat) returns (combined: seq<Resource>, diagnostics: seq<Code>)
    ensures (combined, diagnostics) == ExpandAll(all, cap)
  {
    combined, diagnostics := [], [];
    var i := 0;
    assert all[..0] == [];
    while i < |all|
      invariant 0 <= i <= |all|
      invariant (combined, diagnostics) == ExpandAll(all[..i], cap)
    {
      assert all[..i + 1][..i] == all[..i];
      var (rows, codes) := ExpandResource(all[i], cap);
      combined, diagnostics := combined + rows, diagnostics + codes;
      i := i + 1;
    }
    assert all[..i] == all;
  }

  method Deduplicate(combined: seq<Resource>) returns (deduped: seq<Resource>, diagnostics: seq<Code>)
    ensures deduped == FirstOccurrences(combined, {}) && |deduped| <= |combined|
    ensures diagnostics == Repeat(TF1506, |combined| - |deduped|)
  {
    var seen: set<string> := {};
    deduped, diagnostics := [], [];
    var k := 0;
    assert combined[0..] == combined;
    while k < |combined|
      invariant 0 <= k <= |combined| && |deduped| <= k
      invariant FirstOccurrences(combined, {}) == deduped + FirstOccurrences(combined[k..], seen)
      invariant diagnostics == Repeat(TF1506, k - |deduped|)
    {
      var r := combined[k];
      assert combined[k..][1..] == combined[k + 1..];
      if r.address !in seen {
        ConcatAssoc(deduped, [r], FirstOccurrences(combined[k + 1..], seen + {r.address}));
        seen := seen + {r.address};
        deduped := deduped + [r];
      } else {
        diagnostics := diagnostics + [TF1506];
      }
      k := k + 1;
    }
    assert combined[k..] == [] && deduped + [] == deduped;
  }

  /** The body of `DefaultGraphBuilder::build` for one component. */
  method BuildComponent(c: Body, repo: Repo) returns (deduped: seq<Resource>, diagnostics: seq<Code>)
    ensures (deduped, diagnostics) == Built(c, repo)
  {
    hide ExpandAll, FirstOccurrences, BodyTrace;
    var state := new Expansion(repo);
    state.FlattenModules(c);
    ghost var trace := BodyTrace(RootCtx(c), [], 0, repo);
    assert [] + CodesOf(trace) == CodesOf(trace);
    assert Combined(c, repo) == ExpandAll(c.resources + state.out, repo.cap);
    var combined, expanded := ExpandCombined(c.resources + state.out, repo.cap);
    var collisions;
    deduped, collisions := Deduplicate(combined);
    diagnostics := state.diagnostics + expanded + collisions;
  }

  lemma KeptRows(rows: seq<Resource>) returns (kept: seq<nat>)
    ensures var out := FirstOccurrences(rows, {});
            && DistinctAddresses(out)
            && |kept| == |out| <= |rows|
            && (forall k :: 0 <= k < |out| ==> kept[k] < |rows| && out[k] == rows[kept[k]])
            && (forall k, l :: 0 <= k < l < |kept| ==> kept[k] < kept[l])
            && (forall i: nat :: i < |rows| ==> (i in kept <==> IsFirst(rows, {}, i)))
            && (forall i :: 0 <= i < |rows| ==> Occurs(out, rows[i].address))
  {
    hide FirstOccurrences, IsFirst, DistinctAddresses, Occurs;
    kept := FirstOccurrencesExact(rows, {});
    FirstOccurrencesDistinct(rows, {});
    IncreasingBound(kept, |rows|);
  }

  /** The built component: addresses are pairwise distinct, the kept rows are the first occurrences in
      order, every address that occurred survives, and kept rows plus TF1506 diagnostics make up the
      combined list. */
  lemma BuiltIsCanonical(c: Body, repo: Repo) returns (kept: seq<nat>)
    ensures var rows, out := Combined(c, repo).0, Built(c, repo).0;
            && DistinctAddresses(out)
            && |kept| == |out| <= |rows|
            && (forall k :: 0 <= k < |out| ==> kept[k] < |rows| && out[k] == rows[kept[k]])
            && (forall k, l :: 0 <= k < l < |kept| ==> kept[k] < kept[l])
            && (forall i: nat :: i < |rows| ==> (i in kept <==> IsFirst(rows, {}, i)))
            && (forall i :: 0 <= i < |rows| ==> Occurs(out, rows[i].address))
            && |out| + CountCode(Built(c, repo).1, TF1506) == |rows|
  {
    hide FirstOccurrences, IsFirst, Combined, CountCode, Repeat, DistinctAddresses, Occurs;
    kept := KeptRows(Combined(c, repo).0);
    CollisionsCounted(c, repo);
  }

  /** Neither the traversal nor the expansion raises TF1506, so the component's diagnostics hold one for
      every row dropped. */
  lemma CollisionsCounted(c: Body, repo: Repo)
    requires |Built(c, repo).0| <= |Combined(c, repo).0|
    ensures CountCode(Built(c, repo).1, TF1506) == |Combined(c, repo).0| - |Built(c, repo).0|
  {
    hide CountCode, ExpandAll, BodyTrace, FirstOccurrences, CodesOf, RowsOf, Repeat;
    var trace := BodyTrace(RootCtx(c), [], 0, repo);
    var (rows, codes) := Combined(c, repo);
    BodyNotes(RootCtx(c), [], 0, repo);
    TraceCodes(trace);
    ExpansionCodes(c.resources + RowsOf(trace), repo.cap);
    NoneCounted(CodesOf(trace), TF1506);
    NoneCounted(codes, TF1506);
    var n := |rows| - |Built(c, repo).0|;
    RepeatCount(TF1506, n);
    CountConcat(CodesOf(trace), codes, TF1506);
    CountConcat(CodesOf(trace) + codes, Repeat(TF1506, n), TF1506);
  }

  lemma {:induction false} CountConcat(a: seq<Code>, b: seq<Code>, c: Code)
    ensures CountCode(a + b, c) == CountCode(a, c) + CountCode(b, c)
    decreases |a|
  {
    if a == [] {
      assert a + b == b;
    } else {
      assert (a + b)[1..] == a[1..] + b;
      CountConcat(a[1..], b, c);
    }
  }

  lemma {:induction false} NoneCounted(codes: seq<Code>, c: Code)
    requires c !in codes
    ensures CountCode(codes, c) == 0
    decreases |codes|
  {
    if codes != [] { NoneCounted(codes[1..], c); }
  }

  /** What the traversal notes is never a collision. */
  ghost predicate NoCollisions(trace: seq<Event>) {
    Note(TF1506) !in trace
  }

  lemma {:induction false} TraceCodes(trace: seq<Event>)
    requires NoCollisions(trace)
    ensures TF1506 !in CodesOf(trace)
    decreases |trace|
  {
    if trace != [] {
      assert trace[0] in trace;
      TraceCodes(trace[1..]);
    }
  }

  lemma {:induction false} BodyNotes(ctx: Ctx, chain: Chain, ci: nat, repo: Repo)
    requires ci <= |ctx.body.modules|
    ensures NoCollisions(BodyTrace(ctx, chain, ci, repo))
    decreases Room(ctx.caller, repo), 2, |ctx.body.modules| - ci
  {
    if ci < |ctx.body.modules| {
      CallNotes(CallAt(ctx, ci), ctx.caller, chain, ci, repo);
      BodyNotes(ctx, chain, ci + 1, repo);
    }
  }

  lemma {:induction false} CallNotes(call: ModuleCall, caller: Caller, chain: Chain, ci: nat, repo: Repo)
    ensures NoCollisions(CallTrace(call, caller, chain, ci, repo))
    decreases Room(caller, repo), 1, 0
  {
    match Resolve(call, caller, repo)
    case Miss(notes) =>
    case Hit(path, body) =>
      InstanceNotes(call, caller, path, body, chain, ci, 0, repo);
  }

  lemma {:induction false} InstanceNotes(call: ModuleCall, caller: Caller, path: string, body: Body, chain: Chain, ci: nat, ii: nat, repo: Repo)
    requires ii <= |Instances(call, repo.cap).0| && |caller.stack| < repo.maxDepth
    ensures NoCollisions(InstanceTrace(call, caller, path, body, chain, ci, ii, repo))
    decreases Room(caller, repo), 0, |Instances(call, repo.cap).0| - ii
  {
    hide Instances, Emits, BodyTrace;
    if ii < |Instances(call, repo.cap).0| {
      var ctx := Enter(call, caller, path, body, Instances(call, repo.cap).0[ii]);
      EmitsNotes(ctx, chain + [(ci, ii)]);
      BodyNotes(ctx, chain + [(ci, ii)], 0, repo);
      InstanceNotes(call, caller, path, body, chain, ci, ii + 1, repo);
    }
  }

  lemma EmitsNotes(ctx: Ctx, chain: Chain)
    ensures NoCollisions(Emits(ctx, chain))
  {
  }

  lemma {:induction false} IndexCodes(r: Resource, suffixes: seq<string>)
    ensures forall c :: c in IndexAll(r, suffixes).1 ==> c == TF1507
  {
    IndexAllFacts(r, suffixes);
  }

  lemma {:induction false} ExpansionCodes(rs: seq<Resource>, cap: nat)
    ensures TF1506 !in ExpandAll(rs, cap).1
    decreases |rs|
  {
    if rs != [] {
      ExpansionCodes(rs[..|rs| - 1], cap);
      var r := rs[|rs| - 1];
      forall suffixes ensures TF1506 !in IndexAll(r, suffixes).1 { IndexCodes(r, suffixes); }
      hide IndexAll;
      assert TF1506 !in ExpandResource(r, cap).1;
    }
  }

  function CountCode(codes: seq<Code>, c: Code): nat {
    if codes == [] then 0 else (if codes[0] == c then 1 else 0) + CountCode(codes[1..], c)
  }

  lemma {:induction false} RepeatCount(c: Code, n: nat)
    ensures CountCode(Repeat(c, n), c) == n
  {
    if n > 0 {
      assert Repeat(c, n)[1..] == Repeat(c, n - 1);
      RepeatCount(c, n - 1);
    }
  }

  lemma {:induction false} IncreasingBound(kept: seq<nat>, n: nat)
    requires forall k :: 0 <= k < |kept| ==> kept[k] < n
    requires forall k, l :: 0 <= k < l < |kept| ==> kept[k] < kept[l]
    ensures |kept| <= n
    decreases |kept|
  {
    if kept != [] { IncreasingBound(kept[..|kept| - 1], kept[|kept| - 1]); }
  }
}
