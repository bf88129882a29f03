/** Reading a printed value back, and which values print alike. */
module Readback {
  import opened Ir
  import opened Seqs
  import opened Text
  import opened Json
  import opened Sorting
  import opened Canonical

  // ---- from text to value ---------------------------------------------------------------------

  function NatOf(s: string): Option<nat> {
    if s == [] || !IsDigit(s[|s| - 1]) then None
    else
      var d := s[|s| - 1] as int - '0' as int;
      if |s| == 1 then Some(d)
      else match NatOf(s[..|s| - 1]) case Some(n) => Some(10 * n + d) case None => None
  }

  function IntOf(t: string): Option<int> {
    var minus := t != [] && t[0] == '-';
    var n := NatOf(if minus then t[1..] else t);
    if n.None? then None else Some(if minus then 0 - n.value else n.value)
  }

  /** The value a tree without fractional numbers stands for. */
  function FromJson(j: Json): Option<Value>
    decreases j
  {
    match j
    case JNull => Some(Null)
    case JBool(b) => Some(Bool(b))
    case JNumber(t) => (match IntOf(t) case Some(n) => if InI64(n) then Some(Int(n)) else None case None => None)
    case JString(s) => Some(Str(s))
    case JArray(items) => (match ItemsFrom(items) case Some(vs) => Some(List(vs)) case None => None)
    case JObject(members) => (match MembersFrom(members) case Some(es) => Some(Map(es)) case None => None)
  }

  function ItemsFrom(items: seq<Json>): Option<seq<Value>>
    decreases items
  {
    if items == [] then Some([])
    else
      match (FromJson(items[0]), ItemsFrom(items[1..]))
      case (Some(v), Some(vs)) => Some([v] + vs)
      case _ => None
  }

  function MemberFrom(m: Entry<Json>): Option<Entry<Value>>
    decreases m
  {
    match FromJson(m.val) case Some(v) => Some(Entry(m.key, v)) case None => None
  }

  function MembersFrom(members: seq<Entry<Json>>): Option<ValueMap>
    decreases members
  {
    if members == [] then Some([])
    else
      match (MemberFrom(members[0]), MembersFrom(members[1..]))
      case (Some(e), Some(es)) => Some([e] + es)
      case _ => None
  }

  /** A reader of JSON texts into values. */
  function Read(text: string): Option<Value> {
    match ParseText(text) case Some(j) => FromJson(j) case None => None
  }

  // ---- values with their keys sorted ----------------------------------------------------------

  predicate FloatFree(v: Value)
    decreases v
  {
    match v
    case Number(_) => false
    case List(items) => forall i :: 0 <= i < |items| ==> FloatFree(items[i])
    case Map(entries) => forall i :: 0 <= i < |entries| ==> FloatFreeEntry(entries[i])
    case _ => true
  }

  predicate FloatFreeEntry(e: Entry<Value>)
    decreases e
  {
    FloatFree(e.val)
  }

  function SortKeys(v: Value): Value
    decreases v
  {
    match v
    case List(items) => List(SortItems(items))
    case Map(entries) => Map(SortBy(SortEntries(entries), EntryKey))
    case _ => v
  }

  function SortItems(items: seq<Value>): (r: seq<Value>)
    ensures |r| == |items| && forall i :: 0 <= i < |r| ==> r[i] == SortKeys(items[i])
    decreases items
  {
    if items == [] then [] else [SortKeys(items[0])] + SortItems(items[1..])
  }

  function SortEntry(e: Entry<Value>): Entry<Value>
    decreases e
  {
    Entry(e.key, SortKeys(e.val))
  }

  function SortEntries(entries: ValueMap): (r: ValueMap)
    ensures |r| == |entries| && forall i :: 0 <= i < |r| ==> r[i] == SortEntry(entries[i])
    decreases entries
  {
    if entries == [] then [] else [SortEntry(entries[0])] + SortEntries(entries[1..])
  }

  // ---- the round trip -------------------------------------------------------------------------

  lemma NatStep(s: string, d: nat)
    requires d < 10
    ensures NatOf(s + [Digit(d)]) ==
            if s == [] then Some(d) else match NatOf(s) case Some(n) => Some(10 * n + d) case None => None
  {
    var t := s + [Digit(d)];
    assert t[|t| - 1] == Digit(d) && t[..|t| - 1] == s;
  }

  lemma {:induction false} NatReads(n: nat)
    ensures NatOf(DecNat(n)) == Some(n)
    decreases n
  {
    hide NatOf;
    if n < 10 {
      NatStep("", n);
      assert DecNat(n) == "" + [Digit(n)];
    } else {
      NatReads(n / 10);
      NatStep(DecNat(n / 10), n % 10);
    }
  }

  lemma {:induction false} NoLeadingZero(n: nat)
    ensures DecNat(n)[0] == '0' ==> n == 0 && DecNat(n) == "0"
    decreases n
  {
    if n >= 10 { NoLeadingZero(n / 10); }
  }

  lemma IntReads(n: int)
    ensures IntOf(Dec(n)) == Some(n)
  {
    hide NatOf, DecNat;
    if n < 0 {
      NatReads(-n);
      assert Dec(n)[1..] == DecNat(-n);
    } else {
      NatReads(n);
    }
  }

  /** Pointwise images are sorted alike when the map keeps the keys. */
  lemma {:induction false} SortCommutes<A, B>(a: seq<A>, b: seq<B>, f: A -> B, ka: A -> SortKey, kb: B -> SortKey)
    requires |a| == |b| && forall i :: 0 <= i < |a| ==> b[i] == f(a[i])
    requires forall x :: kb(f(x)) == ka(x)
    ensures forall i :: 0 <= i < |a| ==> SortBy(b, kb)[i] == f(SortBy(a, ka)[i])
    decreases |a|
  {
    if a != [] {
      SortCommutes(a[1..], b[1..], f, ka, kb);
      InsertCommutes(a[0], SortBy(a[1..], ka), SortBy(b[1..], kb), f, ka, kb);
    }
  }

  lemma {:induction false} InsertCommutes<A, B>(x: A, a: seq<A>, b: seq<B>, f: A -> B, ka: A -> SortKey, kb: B -> SortKey)
    requires |a| == |b| && forall i :: 0 <= i < |a| ==> b[i] == f(a[i])
    requires forall x :: kb(f(x)) == ka(x)
    ensures forall i :: 0 <= i <= |a| ==> Insert(f(x), b, kb)[i] == f(Insert(x, a, ka)[i])
    decreases |a|
  {
    if a != [] && !KeyLe(ka(x), ka(a[0])) { InsertCommutes(x, a[1..], b[1..], f, ka, kb); }
  }

  lemma {:induction false} ItemsReadBack(items: seq<Value>, ryu: FloatText)
    requires forall i :: 0 <= i < |items| ==> FloatFree(items[i])
    ensures ItemsFrom(Items(items, ryu)) == Some(SortItems(items))
    decreases items, 0
  {
    if items != [] {
      ReadsBack(items[0], ryu);
      ItemsReadBack(items[1..], ryu);
      assert Items(items, ryu)[1..] == Items(items[1..], ryu);
    }
  }

  lemma {:induction false} MembersReadBack(entries: ValueMap, ryu: FloatText)
    requires forall i :: 0 <= i < |entries| ==> FloatFreeEntry(entries[i])
    ensures forall i :: 0 <= i < |entries| ==> MemberFrom(Member(entries[i], ryu)) == Some(SortEntry(entries[i]))
    decreases entries, 0
  {
    forall i | 0 <= i < |entries| ensures MemberFrom(Member(entries[i], ryu)) == Some(SortEntry(entries[i])) {
      ReadsBack(entries[i].val, ryu);
    }
  }

  lemma {:induction false} MembersPointwise(members: seq<Entry<Json>>, entries: ValueMap)
    requires |members| == |entries|
    requires forall i :: 0 <= i < |members| ==> MemberFrom(members[i]) == Some(entries[i])
    ensures MembersFrom(members) == Some(entries)
    decreases |members|
  {
    if members != [] {
      MembersPointwise(members[1..], entries[1..]);
      assert entries == [entries[0]] + entries[1..];
    }
  }

  lemma SortMembers(entries: ValueMap, ryu: FloatText)
    ensures |SortBy(Members(entries, ryu), EntryKey)| == |entries|
    ensures forall i :: 0 <= i < |entries| ==>
              SortBy(Members(entries, ryu), EntryKey)[i] == Member(SortBy(entries, EntryKey)[i], ryu)
  {
    var f := (e: Entry<Value>) => Member(e, ryu);
    assert forall e :: EntryKey(f(e)) == EntryKey(e);
    hide SortBy;
    SortCommutes(entries, Members(entries, ryu), f, EntryKey, EntryKey);
  }

  lemma SortSortedEntries(entries: ValueMap)
    ensures forall i :: 0 <= i < |entries| ==>
              SortBy(SortEntries(entries), EntryKey)[i] == SortEntry(SortBy(entries, EntryKey)[i])
  {
    var f := (e: Entry<Value>) => SortEntry(e);
    assert forall e :: EntryKey(f(e)) == EntryKey(e);
    hide SortBy;
    SortCommutes(entries, SortEntries(entries), f, EntryKey, EntryKey);
  }

  lemma PermutedMembersReadBack(entries: ValueMap, perm: ValueMap, ms: seq<Entry<Json>>, es: ValueMap, ryu: FloatText)
    requires forall i :: 0 <= i < |entries| ==> MemberFrom(Member(entries[i], ryu)) == Some(SortEntry(entries[i]))
    requires |perm| == |ms| == |es| && forall i :: 0 <= i < |perm| ==> perm[i] in entries
    requires forall i :: 0 <= i < |perm| ==> ms[i] == Member(perm[i], ryu) && es[i] == SortEntry(perm[i])
    ensures MembersFrom(ms) == Some(es)
  {
    hide MemberFrom, Member, SortEntry, MembersFrom;
    forall i | 0 <= i < |perm| ensures MemberFrom(ms[i]) == Some(es[i]) {
      var k :| 0 <= k < |entries| && entries[k] == perm[i];
    }
    MembersPointwise(ms, es);
  }

  lemma SortedMembersReadBack(entries: ValueMap, ryu: FloatText)
    requires forall i :: 0 <= i < |entries| ==> MemberFrom(Member(entries[i], ryu)) == Some(SortEntry(entries[i]))
    ensures MembersFrom(SortBy(Members(entries, ryu), EntryKey)) == Some(SortBy(SortEntries(entries), EntryKey))
  {
    hide SortBy, MemberFrom, Member, SortEntry, MembersFrom;
    var perm := SortBy(entries, EntryKey);
    SortByFrom(entries, EntryKey<Value>);
    SortMembers(entries, ryu);
    SortSortedEntries(entries);
    PermutedMembersReadBack(entries, perm, SortBy(Members(entries, ryu), EntryKey), SortBy(SortEntries(entries), EntryKey), ryu);
  }

  lemma {:induction false} ReadsBack(v: Value, ryu: FloatText)
    requires FloatFree(v)
    ensures FromJson(ToJson(v, ryu)) == Some(SortKeys(v))
    decreases v, 1
  {
    match v
    case Int(n) => IntReads(n);
    case List(items) => ItemsReadBack(items, ryu);
    case Map(entries) =>
      MembersReadBack(entries, ryu);
      SortedMembersReadBack(entries, ryu);
    case _ =>
  }

  /** Reading what was printed gives the value back with its keys sorted at every level. */
  lemma PrintedValueReadsBack(v: Value, ryu: FloatText)
    requires FloatFree(v) && NumberTokens(ryu)
    ensures Read(Render(ToJson(v, ryu))) == Some(SortKeys(v))
  {
    ValueGood(v, ryu);
    RoundTrip(ToJson(v, ryu));
    ReadsBack(v, ryu);
  }

  // ---- which values print alike ---------------------------------------------------------------

  /** Equal up to the order of map entries at every level. */
  ghost predicate Same(a: Value, b: Value)
    decreases a
  {
    match (a, b)
    case (List(xs), List(ys)) => |xs| == |ys| && forall i :: 0 <= i < |xs| ==> Same(xs[i], ys[i])
    case (Map(xs), Map(ys)) =>
      && (forall i :: 0 <= i < |xs| ==> Within(xs[i], ys))
      && KeysWithin(ys, xs)
    case _ => a == b
  }

  ghost predicate KeysWithin(ys: ValueMap, xs: ValueMap) {
    forall j :: 0 <= j < |ys| ==> ys[j].key in Keys(xs)
  }

  /** One of the entries has this key and the same value. */
  ghost predicate Within(e: Entry<Value>, ys: ValueMap)
    decreases e
  {
    exists j :: 0 <= j < |ys| && ys[j].key == e.key && Same(e.val, ys[j].val)
  }

  /** Two lists of members with the same elements and no repeated key sort to the same list. */
  lemma SameMembersSortAlike<V>(a: seq<Entry<V>>, b: seq<Entry<V>>)
    requires DistinctKeys(a) && DistinctKeys(b) && forall x :: x in a <==> x in b
    ensures SortBy(a, EntryKey) == SortBy(b, EntryKey)
  {
    assert forall i, j :: 0 <= i < j < |a| ==> Keys(a)[i] != Keys(a)[j];
    assert forall i, j :: 0 <= i < j < |b| ==> Keys(b)[i] != Keys(b)[j];
    forall x ensures multiset(a)[x] == multiset(b)[x] {
      DistinctMultiset(a, x);
      DistinctMultiset(b, x);
    }
    assert multiset(a) == multiset(b);
    SortBySorts(a, EntryKey<V>);
    SortBySorts(b, EntryKey<V>);
    SortByMembers(a, EntryKey<V>);
    forall x, y | x in SortBy(a, EntryKey) && y in SortBy(a, EntryKey) && EntryKey(x) == EntryKey(y) ensures x == y {
      assert x in a && y in a && [x.key] == [y.key] && [x.key][0] == [y.key][0];
      var i :| 0 <= i < |a| && a[i] == x;
      var j :| 0 <= j < |a| && a[j] == y;
    }
    SortedUnique(SortBy(a, EntryKey), SortBy(b, EntryKey), EntryKey<V>);
  }

  lemma {:induction false} SamePrints(a: Value, b: Value, ryu: FloatText)
    requires DistinctDeep(a) && DistinctDeep(b) && Same(a, b)
    ensures ToJson(a, ryu) == ToJson(b, ryu)
    decreases a, 1
  {
    match (a, b)
    case (List(xs), List(ys)) =>
      forall i | 0 <= i < |xs| ensures Items(xs, ryu)[i] == Items(ys, ryu)[i] { SamePrints(xs[i], ys[i], ryu); }
      assert Items(xs, ryu) == Items(ys, ryu);
    case (Map(xs), Map(ys)) =>
      var ms, ns := Members(xs, ryu), Members(ys, ryu);
      forall i | 0 <= i < |xs| ensures ms[i] in ns {
        assert Within(xs[i], ys) && DistinctDeepEntry(xs[i]);
        WithinPrints(xs[i], ys, ryu);
      }
      SameMaps(xs, ys, ryu);
    case _ =>
  }

  lemma {:induction false} WithinPrints(e: Entry<Value>, ys: ValueMap, ryu: FloatText)
    requires DistinctDeepEntry(e) && Within(e, ys) && forall j :: 0 <= j < |ys| ==> DistinctDeepEntry(ys[j])
    ensures Member(e, ryu) in Members(ys, ryu)
    decreases e, 0
  {
    var j :| 0 <= j < |ys| && ys[j].key == e.key && Same(e.val, ys[j].val);
    assert DistinctDeepEntry(ys[j]);
    SamePrints(e.val, ys[j].val, ryu);
    assert Members(ys, ryu)[j] == Member(e, ryu);
  }

  /** Maps with the same keys, every entry of one printed among those of the other. */
  lemma SameMaps(xs: ValueMap, ys: ValueMap, ryu: FloatText)
    requires DistinctKeys(xs) && DistinctKeys(ys)
    requires forall i :: 0 <= i < |xs| ==> Members(xs, ryu)[i] in Members(ys, ryu)
    requires KeysWithin(ys, xs)
    ensures SortBy(Members(xs, ryu), EntryKey) == SortBy(Members(ys, ryu), EntryKey)
  {
    hide SortBy, KeysWithin, DistinctKeys;
    var ms, ns := Members(xs, ryu), Members(ys, ryu);
    MembersKeepKeys(xs, ryu);
    MembersKeepKeys(ys, ryu);
    forall j | 0 <= j < |ys| ensures ns[j] in ms { MatchedBack(xs, ys, j, ryu); }
    SameMembersSortAlike(ms, ns);
  }

  lemma MembersKeepKeys(xs: ValueMap, ryu: FloatText)
    requires DistinctKeys(xs)
    ensures DistinctKeys(Members(xs, ryu))
  {
    assert Keys(Members(xs, ryu)) == Keys(xs);
  }

  lemma MatchedBack(xs: ValueMap, ys: ValueMap, j: nat, ryu: FloatText)
    requires DistinctKeys(ys) && j < |ys| && KeysWithin(ys, xs)
    requires forall i :: 0 <= i < |xs| ==> Members(xs, ryu)[i] in Members(ys, ryu)
    ensures Members(ys, ryu)[j] in Members(xs, ryu)
  {
    hide KeysWithin, Members, Member, DistinctKeys;
    var i := KeyAt(xs, ys, j);
    OnlyMember(ys, j, xs[i], ryu) by { assert Members(xs, ryu)[i] == Member(xs[i], ryu); }
    assert Members(xs, ryu)[i] in Members(xs, ryu);
  }

  lemma KeyAt(xs: ValueMap, ys: ValueMap, j: nat) returns (i: nat)
    requires j < |ys| && KeysWithin(ys, xs)
    ensures i < |xs| && xs[i].key == ys[j].key
  {
    assert ys[j].key in Keys(xs);
    i :| 0 <= i < |xs| && Keys(xs)[i] == ys[j].key;
  }

  lemma OnlyMember(ys: ValueMap, j: nat, e: Entry<Value>, ryu: FloatText)
    requires DistinctKeys(ys) && j < |ys| && e.key == ys[j].key && Member(e, ryu) in Members(ys, ryu)
    ensures Members(ys, ryu)[j] == Member(e, ryu)
  {
    hide DistinctKeys, ToJson;
    var k :| 0 <= k < |ys| && Members(ys, ryu)[k] == Member(e, ryu);
    assert ys[k].key == e.key;
    OneIndex(ys, k, j);
  }

  lemma OneIndex(ys: ValueMap, k: nat, j: nat)
    requires DistinctKeys(ys) && k < |ys| && j < |ys| && ys[k].key == ys[j].key
    ensures k == j
  {
    assert Keys(ys)[k] == Keys(ys)[j];
  }

  lemma {:induction false} PrintedAlikeIsSame(a: Value, b: Value, ryu: FloatText)
    requires FloatFree(a) && FloatFree(b) && ToJson(a, ryu) == ToJson(b, ryu)
    ensures Same(a, b)
    decreases a, 1
  {
    match (a, b)
    case (Int(m), Int(n)) => IntReads(m); IntReads(n);
    case (List(xs), List(ys)) =>
      forall i | 0 <= i < |xs| ensures Same(xs[i], ys[i]) {
        assert Items(xs, ryu)[i] == Items(ys, ryu)[i];
        PrintedAlikeIsSame(xs[i], ys[i], ryu);
      }
    case (Map(xs), Map(ys)) =>
      SameElements(Members(xs, ryu), Members(ys, ryu));
      forall i | 0 <= i < |xs| ensures Within(xs[i], ys) {
        assert FloatFreeEntry(xs[i]) && Members(xs, ryu)[i] in Members(ys, ryu);
        PrintedWithin(xs[i], ys, ryu);
      }
      forall j | 0 <= j < |ys| ensures ys[j].key in Keys(xs) {
        assert Members(ys, ryu)[j] in Members(xs, ryu);
        var i :| 0 <= i < |xs| && Members(xs, ryu)[i] == Members(ys, ryu)[j];
        assert Keys(xs)[i] == ys[j].key;
      }
    case _ =>
  }

  lemma SameElements(ms: seq<Entry<Json>>, ns: seq<Entry<Json>>)
    requires SortBy(ms, EntryKey) == SortBy(ns, EntryKey)
    ensures forall x :: x in ms <==> x in ns
  {
    SortByMembers(ms, EntryKey<Json>);
    SortByMembers(ns, EntryKey<Json>);
  }

  lemma {:induction false} PrintedWithin(e: Entry<Value>, ys: ValueMap, ryu: FloatText)
    requires FloatFreeEntry(e) && forall j :: 0 <= j < |ys| ==> FloatFreeEntry(ys[j])
    requires Member(e, ryu) in Members(ys, ryu)
    ensures Within(e, ys)
    decreases e, 0
  {
    var j :| 0 <= j < |ys| && Members(ys, ryu)[j] == Member(e, ryu);
    assert FloatFreeEntry(ys[j]);
    PrintedAlikeIsSame(e.val, ys[j].val, ryu);
    assert ys[j].key == e.key && Same(e.val, ys[j].val);
  }

  /** The printed text is canonical: two values print alike exactly when they differ only in the order
      of map entries. */
  lemma TextIsCanonical(a: Value, b: Value, ryu: FloatText)
    requires FloatFree(a) && FloatFree(b) && DistinctDeep(a) && DistinctDeep(b) && NumberTokens(ryu)
    ensures Render(ToJson(a, ryu)) == Render(ToJson(b, ryu)) <==> Same(a, b)
  {
    ValueGood(a, ryu);
    ValueGood(b, ryu);
    RenderInjective(ToJson(a, ryu), ToJson(b, ryu));
    if ToJson(a, ryu) == ToJson(b, ryu) { PrintedAlikeIsSame(a, b, ryu); }
    if Same(a, b) { SamePrints(a, b, ryu); }
  }

  /** The order in which attributes were written does not show in the column. */
  lemma AttributeOrderIsInvisible(a: AttributeMap, b: AttributeMap, ryu: FloatText)
    requires DistinctKeys(a) && multiset(a) == multiset(b)
    ensures Render(AttributesJson(a, ryu)) == Render(AttributesJson(b, ryu))
  {
    var ms, ns := Attributes(a, ryu), Attributes(b, ryu);
    PermutedAttributes(a, b);
    assert Keys(ms) == Keys(a) && Keys(ns) == Keys(b);
    forall x ensures x in ms <==> x in ns {
      if x in ms { AttributeCarries(a, b, ryu, x); }
      if x in ns { AttributeCarries(b, a, ryu, x); }
    }
    SameMembersSortAlike(ms, ns);
  }

  lemma AttributeCarries(a: AttributeMap, b: AttributeMap, ryu: FloatText, x: Entry<Json>)
    requires multiset(a) == multiset(b) && x in Attributes(a, ryu)
    ensures x in Attributes(b, ryu)
  {
    var i :| 0 <= i < |a| && Attributes(a, ryu)[i] == x;
    assert a[i] in multiset(b);
    var j :| 0 <= j < |b| && b[j] == a[i];
    assert Attributes(b, ryu)[j] == x;
  }

  lemma PermutedAttributes(a: AttributeMap, b: AttributeMap)
    requires DistinctKeys(a) && multiset(a) == multiset(b)
    ensures DistinctKeys(b)
  {
    assert forall i, j :: 0 <= i < j < |a| ==> Keys(a)[i] != Keys(a)[j];
    PermutedDistinct(a, b, (e: Entry<Expr>) => e.key);
  }
}
