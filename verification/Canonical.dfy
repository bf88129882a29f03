/** The tree the canonical printer writes for a value or an expression, what a reader gets back, and
    which inputs print alike. */
module Canonical {
  import opened Ir
  import opened Text
  import opened Json
  import opened Sorting

  /** `ryu` on a finite float; `None` for NaN and the infinities. */
  type FloatText = Float -> Option<string>

  function EntryKey<V>(e: Entry<V>): SortKey {
    [e.key]
  }

  // ---- trees ----------------------------------------------------------------------------------

  function ToJson(v: Value, ryu: FloatText): Json
    decreases v
  {
    match v
    case Null => JNull
    case Bool(b) => JBool(b)
    case Int(n) => JNumber(Dec(n))
    case Number(f) => (match ryu(f) case Some(t) => JNumber(t) case None => JNull)
    case Str(s) => JString(s)
    case List(items) => JArray(Items(items, ryu))
    case Map(entries) => JObject(SortBy(Members(entries, ryu), EntryKey))
  }

  function Items(items: seq<Value>, ryu: FloatText): (r: seq<Json>)
    ensures |r| == |items| && forall i :: 0 <= i < |r| ==> r[i] == ToJson(items[i], ryu)
    decreases items
  {
    if items == [] then [] else [ToJson(items[0], ryu)] + Items(items[1..], ryu)
  }

  function Member(e: Entry<Value>, ryu: FloatText): Entry<Json>
    decreases e
  {
    Entry(e.key, ToJson(e.val, ryu))
  }

  function Members(entries: ValueMap, ryu: FloatText): (r: seq<Entry<Json>>)
    ensures |r| == |entries| && forall i :: 0 <= i < |r| ==> r[i] == Member(entries[i], ryu)
    decreases entries
  {
    if entries == [] then [] else [Member(entries[0], ryu)] + Members(entries[1..], ryu)
  }

  function OpName(op: BinaryOp): string {
    match op
    case Add => "Add" case Sub => "Sub" case Mul => "Mul" case Div => "Div" case Mod => "Mod"
    case Eq => "Eq" case Ne => "Ne" case Lt => "Lt" case Le => "Le" case Gt => "Gt" case Ge => "Ge"
    case And => "And" case Or => "Or"
  }

  function UnaryName(op: UnaryOp): string {
    match op case Neg => "Neg" case Not => "Not"
  }

  function KindName(kind: SymbolKind): string {
    match kind
    case Var => "Var" case Local => "Local" case Resource => "Resource" case Data => "Data"
    case Module => "Module" case Path => "Path" case Iteration => "Iteration" case Terraform => "Terraform"
    case TerragruntDependency => "TerragruntDependency" case Other => "Other"
  }

  /** Sentinel objects for what the evaluator left symbolic. A `for` is written without its key and its
      filter; an object key is the canonical text of the key expression. */
  function ExprJson(e: Expr, ryu: FloatText): Json
    decreases e
  {
    match e
    case Literal(v) => ToJson(v, ryu)
    case Unresolved(s) =>
      JObject([Entry("__kind__", JString(KindName(s.kind))), Entry("__unresolved__", JString(s.source))])
    case Call(name, args) =>
      JObject([Entry("__unresolved_func__", JString(name)), Entry("args", JArray(ExprItems(args, ryu)))])
    case Binary(op, l, r) =>
      JObject([Entry("__binary_op__", JString(OpName(op))), Entry("lhs", ExprJson(l, ryu)), Entry("rhs", ExprJson(r, ryu))])
    case Unary(op, x) =>
      JObject([Entry("__unary_op__", JString(UnaryName(op))), Entry("operand", ExprJson(x, ryu))])
    case Template(parts) => JObject([Entry("__template_concat__", JArray(ExprItems(parts, ryu)))])
    case Array(items) => JArray(ExprItems(items, ryu))
    case Object(fields) => JObject(SortBy(FieldMembers(fields, ryu), EntryKey))
    case Conditional(c, t, f) =>
      JObject([Entry("__conditional__",
                     JObject([Entry("cond", ExprJson(c, ryu)), Entry("else", ExprJson(f, ryu)), Entry("then", ExprJson(t, ryu))]))])
    case For(binders, coll, _, body, _, objectForm) =>
      JObject([Entry("__for__",
                     JObject([Entry("binders", JArray(Strings(binders))), Entry("collection", ExprJson(coll, ryu)),
                              Entry("object_form", JBool(objectForm)), Entry("value", ExprJson(body, ryu))]))])
  }

  function ExprItems(es: seq<Expr>, ryu: FloatText): (r: seq<Json>)
    ensures |r| == |es| && forall i :: 0 <= i < |r| ==> r[i] == ExprJson(es[i], ryu)
    decreases es
  {
    if es == [] then [] else [ExprJson(es[0], ryu)] + ExprItems(es[1..], ryu)
  }

  function FieldMember(f: Field, ryu: FloatText): Entry<Json>
    decreases f
  {
    Entry(Render(ExprJson(f.k, ryu)), ExprJson(f.v, ryu))
  }

  function FieldMembers(fs: seq<Field>, ryu: FloatText): (r: seq<Entry<Json>>)
    ensures |r| == |fs| && forall i :: 0 <= i < |r| ==> r[i] == FieldMember(fs[i], ryu)
    decreases fs
  {
    if fs == [] then []
    else
      var f := fs[0];
      [FieldMember(f, ryu)] + FieldMembers(fs[1..], ryu)
  }

  function Strings(names: seq<string>): (r: seq<Json>)
    ensures |r| == |names| && forall i :: 0 <= i < |r| ==> r[i] == JString(names[i])
  {
    seq(|names|, i requires 0 <= i < |names| => JString(names[i]))
  }

  function Attribute(e: Entry<Expr>, ryu: FloatText): Entry<Json> {
    Entry(e.key, ExprJson(e.val, ryu))
  }

  function Attributes(m: AttributeMap, ryu: FloatText): (r: seq<Entry<Json>>)
    ensures |r| == |m| && forall i :: 0 <= i < |r| ==> r[i] == Attribute(m[i], ryu)
  {
    seq(|m|, i requires 0 <= i < |m| => Attribute(m[i], ryu))
  }

  /** The `attributes_json` column. */
  function AttributesJson(m: AttributeMap, ryu: FloatText): Json {
    JObject(SortBy(Attributes(m, ryu), EntryKey))
  }

  // ---- every text is well formed and canonical ------------------------------------------------

  /** The tokens `ryu` produces are JSON numbers. */
  ghost predicate NumberTokens(ryu: FloatText) {
    forall f :: ryu(f).Some? ==> IsNumber(ryu(f).value)
  }

  /** At every level the keys of an object are in order. */
  ghost predicate KeysSorted(j: Json)
    decreases j
  {
    match j
    case JArray(items) => forall i :: 0 <= i < |items| ==> KeysSorted(items[i])
    case JObject(members) =>
      Sorted(members, EntryKey) && forall i :: 0 <= i < |members| ==> MemberKeysSorted(members[i])
    case _ => true
  }

  ghost predicate MemberKeysSorted(m: Entry<Json>)
    decreases m
  {
    KeysSorted(m.val)
  }

  ghost predicate Good(j: Json) {
    WellFormed(j) && KeysSorted(j)
  }

  lemma {:induction false} DecNatIsDigits(n: nat, rest: string)
    ensures Digits(DecNat(n) + rest) == |DecNat(n)| + Digits(rest)
    ensures n > 0 ==> DecNat(n)[0] != '0'
    decreases n
  {
    if n < 10 {
      assert (DecNat(n) + rest)[1..] == rest;
    } else {
      var last := [Digit(n % 10)];
      assert DecNat(n) + rest == DecNat(n / 10) + (last + rest);
      DecNatIsDigits(n / 10, last + rest);
      assert (last + rest)[1..] == rest;
    }
  }

  lemma DecIsNumber(n: int)
    ensures IsNumber(Dec(n))
  {
    var digits := DecNat(if n < 0 then -n else n);
    DecNatIsDigits(if n < 0 then -n else n, "");
    assert digits + "" == digits;
    if n < 0 {
      assert Dec(n)[1..] == digits && Dec(n)[1 + |digits|..] == "";
    } else {
      assert Dec(n)[0..] == digits && Dec(n)[|digits|..] == "";
    }
  }

  lemma SortedObject(members: seq<Entry<Json>>)
    requires Sorted(members, EntryKey) && forall i :: 0 <= i < |members| ==> Good(members[i].val)
    ensures Good(JObject(members))
  {
    hide Sorted;
    forall i | 0 <= i < |members| ensures WellFormedMember(members[i]) && MemberKeysSorted(members[i]) {
      assert Good(members[i].val);
    }
  }

  lemma GoodObject(members: seq<Entry<Json>>)
    requires forall i :: 0 <= i < |members| ==> Good(members[i].val)
    ensures Good(JObject(SortBy(members, EntryKey)))
  {
    hide Good, Sorted, SortBy;
    var sorted := SortBy(members, EntryKey);
    SortBySorts(members, EntryKey<Json>);
    SortByFrom(members, EntryKey<Json>);
    forall i | 0 <= i < |sorted| ensures Good(sorted[i].val) {
      var k :| 0 <= k < |members| && members[k] == sorted[i];
    }
    SortedObject(sorted);
  }

  lemma {:induction false} ValueGood(v: Value, ryu: FloatText)
    requires NumberTokens(ryu)
    ensures Good(ToJson(v, ryu))
    decreases v
  {
    match v
    case Int(n) => DecIsNumber(n);
    case List(items) =>
      forall i | 0 <= i < |items| ensures Good(ToJson(items[i], ryu)) { ValueGood(items[i], ryu); }
    case Map(entries) =>
      forall i | 0 <= i < |entries| ensures Good(Members(entries, ryu)[i].val) { ValueGood(entries[i].val, ryu); }
      GoodObject(Members(entries, ryu));
    case _ =>
  }

  /** A sentinel object whose keys were written in order. */
  lemma GoodSentinel(members: seq<Entry<Json>>)
    requires forall i :: 0 <= i < |members| ==> Good(members[i].val)
    requires forall i :: 0 < i < |members| ==> CompareStrings(members[i - 1].key, members[i].key) == Less
    ensures Good(JObject(members))
  {
    forall i, j | 0 <= i < j < |members| ensures KeyLe(EntryKey(members[i]), EntryKey(members[j])) {
      Ascending(members, i, j);
    }
  }

  lemma {:induction false} Ascending(members: seq<Entry<Json>>, i: nat, j: nat)
    requires i < j < |members|
    requires forall i :: 0 < i < |members| ==> CompareStrings(members[i - 1].key, members[i].key) == Less
    ensures CompareStrings(members[i].key, members[j].key) == Less
    decreases j
  {
    if i + 1 < j {
      Ascending(members, i, j - 1);
      StringsTransitive(members[i].key, members[j - 1].key, members[j].key);
    }
  }

  /** Two strings with a common prefix compare by the first difference. */
  lemma {:induction false} FirstDifference(prefix: string, a: string, b: string)
    requires a != [] && b != [] && a[0] < b[0]
    ensures CompareStrings(prefix + a, prefix + b) == Less
  {
    if prefix == [] {
      assert prefix + a == a && prefix + b == b;
    } else {
      assert (prefix + a)[1..] == prefix[1..] + a && (prefix + b)[1..] == prefix[1..] + b;
      FirstDifference(prefix[1..], a, b);
    }
  }

  lemma {:induction false} ItemsGood(es: seq<Expr>, ryu: FloatText)
    requires NumberTokens(ryu)
    ensures Good(JArray(ExprItems(es, ryu)))
    decreases es, 0
  {
    forall i | 0 <= i < |es| ensures Good(ExprJson(es[i], ryu)) { ExprGood(es[i], ryu); }
  }

  lemma {:induction false} FieldGood(f: Field, ryu: FloatText)
    requires NumberTokens(ryu)
    ensures Good(FieldMember(f, ryu).val)
    decreases f, 0
  {
    ExprGood(f.v, ryu);
  }

  lemma {:induction false} FieldsGood(fs: seq<Field>, ryu: FloatText)
    requires NumberTokens(ryu)
    ensures forall i :: 0 <= i < |fs| ==> Good(FieldMember(fs[i], ryu).val)
    decreases fs, 0
  {
    if fs != [] {
      var f := fs[0];
      FieldGood(f, ryu);
      FieldsGood(fs[1..], ryu);
      forall i | 0 <= i < |fs| ensures Good(FieldMember(fs[i], ryu).val) {
        if i > 0 { assert fs[i] == fs[1..][i - 1]; }
      }
    }
  }

  /** Every expression prints as a tree of valid tokens whose objects are sorted at every level. */
  lemma {:induction false} ExprGood(e: Expr, ryu: FloatText)
    requires NumberTokens(ryu)
    ensures Good(ExprJson(e, ryu))
    decreases e, 1
  {
    hide CompareStrings, WellFormed, KeysSorted, NumberTokens;
    match e
    case Literal(v) => ValueGood(v, ryu);
    case Unresolved(s) =>
      GoodLeaf(JString(KindName(s.kind)));
      GoodLeaf(JString(s.source));
      SentinelOrder();
      GoodSentinel(ExprJson(e, ryu).members);
    case Call(name, args) =>
      GoodLeaf(JString(name));
      ItemsGood(args, ryu);
      SentinelOrder();
      GoodSentinel(ExprJson(e, ryu).members);
    case Binary(op, l, r) =>
      GoodLeaf(JString(OpName(op)));
      ExprGood(l, ryu);
      ExprGood(r, ryu);
      SentinelOrder();
      GoodSentinel(ExprJson(e, ryu).members);
    case Unary(op, x) =>
      GoodLeaf(JString(UnaryName(op)));
      ExprGood(x, ryu);
      SentinelOrder();
      GoodSentinel(ExprJson(e, ryu).members);
    case Template(parts) =>
      ItemsGood(parts, ryu);
      GoodSentinel(ExprJson(e, ryu).members);
    case Array(items) => ItemsGood(items, ryu);
    case Object(fields) =>
      FieldsGood(fields, ryu);
      GoodObject(FieldMembers(fields, ryu));
    case Conditional(c, t, f) =>
      ExprGood(c, ryu);
      ExprGood(t, ryu);
      ExprGood(f, ryu);
      SentinelOrder();
      GoodSentinel(ExprJson(e, ryu).members[0].val.members);
      GoodSentinel(ExprJson(e, ryu).members);
    case For(binders, coll, _, body, _, objectForm) =>
      ExprGood(coll, ryu);
      ExprGood(body, ryu);
      GoodStrings(binders);
      GoodLeaf(JBool(objectForm));
      SentinelOrder();
      GoodSentinel(ExprJson(e, ryu).members[0].val.members);
      GoodSentinel(ExprJson(e, ryu).members);
  }

  lemma GoodLeaf(j: Json)
    requires j.JString? || j.JBool?
    ensures Good(j)
  {
  }

  lemma GoodStrings(names: seq<string>)
    ensures Good(JArray(Strings(names)))
  {
  }

  /** The sentinel keys are written in byte order. */
  lemma SentinelOrder()
    ensures CompareStrings("__kind__", "__unresolved__") == Less
    ensures CompareStrings("__unresolved_func__", "args") == Less
    ensures CompareStrings("__binary_op__", "lhs") == Less
    ensures CompareStrings("lhs", "rhs") == Less
    ensures CompareStrings("__unary_op__", "operand") == Less
    ensures CompareStrings("cond", "else") == Less && CompareStrings("else", "then") == Less
    ensures CompareStrings("binders", "collection") == Less && CompareStrings("collection", "object_form") == Less
    ensures CompareStrings("object_form", "value") == Less
  {
    assert "__kind__" == "__" + "kind__" && "__unresolved__" == "__" + "unresolved__";
    FirstDifference("__", "kind__", "unresolved__");
  }

  /** Every expression prints as one well-formed JSON text, which reads back as its tree. */
  lemma ExpressionIsOneText(e: Expr, ryu: FloatText)
    requires NumberTokens(ryu)
    ensures ParseText(Render(ExprJson(e, ryu))) == Some(ExprJson(e, ryu))
    ensures KeysSorted(ExprJson(e, ryu))
  {
    ExprGood(e, ryu);
    RoundTrip(ExprJson(e, ryu));
  }

  /** So does the whole attribute column. */
  lemma AttributesAreOneText(m: AttributeMap, ryu: FloatText)
    requires NumberTokens(ryu)
    ensures ParseText(Render(AttributesJson(m, ryu))) == Some(AttributesJson(m, ryu))
    ensures KeysSorted(AttributesJson(m, ryu))
  {
    forall i | 0 <= i < |m| ensures Good(Attributes(m, ryu)[i].val) { ExprGood(m[i].val, ryu); }
    GoodObject(Attributes(m, ryu));
    RoundTrip(AttributesJson(m, ryu));
  }
}
