/** The writers of canonical JSON: each appends to a shared buffer exactly the text of its tree. */
module Printers {
  import opened Ir
  import opened Text
  import opened Seqs
  import opened Json
  import opened Sorting
  import opened Canonical
  import opened Readback

  // ---- texts piece by piece -------------------------------------------------------------------

  lemma {:induction false} EscapeAppend(s: string, c: char)
    ensures Escape(s + [c]) == Escape(s) + EscapeChar(c)
    decreases |s|
  {
    if s == [] {
      assert s + [c] == [c];
    } else {
      assert (s + [c])[1..] == s[1..] + [c];
      EscapeAppend(s[1..], c);
    }
  }

  lemma {:induction false} ItemsAppend(js: seq<Json>, j: Json)
    ensures RenderItems(js + [j]) == RenderItems(js) + (if js == [] then "" else ",") + Render(j)
    decreases |js|
  {
    if js == [] {
      assert js + [j] == [j];
    } else {
      assert (js + [j])[1..] == js[1..] + [j];
      ItemsAppend(js[1..], j);
    }
  }

  lemma {:induction false} MembersAppend(ms: seq<Entry<Json>>, m: Entry<Json>)
    ensures RenderMembers(ms + [m]) == RenderMembers(ms) + (if ms == [] then "" else ",") + RenderMember(m)
    decreases |ms|
  {
    if ms == [] {
      assert ms + [m] == [m];
    } else {
      assert (ms + [m])[1..] == ms[1..] + [m];
      MembersAppend(ms[1..], m);
    }
  }

  /** A key written verbatim between quotation marks, with its colon. */
  function Label(name: string): string {
    "\"" + name + "\":"
  }

  /** Lower-case letters and underscores, which need no escape. */
  predicate Plain(s: string) {
    forall i :: 0 <= i < |s| ==> 'a' <= s[i] <= 'z' || s[i] == '_'
  }

  lemma PlainChar(c: char)
    requires 'a' <= c <= 'z' || c == '_'
    ensures EscapeChar(c) == [c]
  {
  }

  lemma {:induction false} PlainEscape(s: string)
    requires Plain(s)
    ensures Escape(s) == s
    decreases |s|
  {
    if s != [] {
      PlainEscape(s[1..]);
      PlainChar(s[0]);
      hide EscapeChar;
      assert s == [s[0]] + s[1..];
    }
  }

  /** One more labelled member inside an open object. */
  lemma Labelled(o: string, ms: seq<Entry<Json>>, name: string, j: Json)
    requires Plain(name)
    ensures o + RenderMembers(ms) + (if ms == [] then "" else ",") + Label(name) + Render(j) ==
            o + RenderMembers(ms + [Entry(name, j)])
  {
    PlainEscape(name);
    assert Label(name) == Quote(name) + ":";
    hide RenderMembers, Label, Quote;
    var before := o + RenderMembers(ms) + (if ms == [] then "" else ",");
    ConcatAssoc(before, Label(name), Render(j));
    NextMember(o, ms, Entry(name, j));
  }

  /** Appending one member after another closes to the whole object. */
  lemma ClosedObject(o: string, ms: seq<Entry<Json>>)
    ensures o + "{" + RenderMembers(ms) + "}" == o + Render(JObject(ms))
  {
    var inner := RenderMembers(ms);
    ConcatAssoc(o, "{", inner);
    ConcatAssoc(o, "{" + inner, "}");
  }

  lemma ClosedArray(o: string, js: seq<Json>)
    ensures o + "[" + RenderItems(js) + "]" == o + Render(JArray(js))
  {
    var inner := RenderItems(js);
    ConcatAssoc(o, "[", inner);
    ConcatAssoc(o, "[" + inner, "]");
  }

  lemma NoItems()
    ensures RenderItems([]) == ""
  {
  }

  lemma NoMembers()
    ensures RenderMembers([]) == ""
  {
  }

  lemma NextMember(o: string, ms: seq<Entry<Json>>, m: Entry<Json>)
    ensures o + RenderMembers(ms) + (if ms == [] then "" else ",") + RenderMember(m) == o + RenderMembers(ms + [m])
  {
    MembersAppend(ms, m);
    var sep := if ms == [] then "" else ",";
    ConcatAssoc(o, RenderMembers(ms), sep);
    ConcatAssoc(o, RenderMembers(ms) + sep, RenderMember(m));
  }

  lemma NextItem(o: string, js: seq<Json>, j: Json)
    ensures o + RenderItems(js) + (if js == [] then "" else ",") + Render(j) == o + RenderItems(js + [j])
  {
    ItemsAppend(js, j);
    var sep := if js == [] then "" else ",";
    ConcatAssoc(o, RenderItems(js), sep);
    ConcatAssoc(o, RenderItems(js) + sep, Render(j));
  }

  /** The index-and-text pairs an object literal sorts, against the members it stands for. */
  lemma SortedFields(fields: seq<Field>, pairs: seq<(nat, string)>, ryu: FloatText)
    requires |pairs| == |fields|
    requires forall i :: 0 <= i < |pairs| ==> pairs[i] == (i, Render(ExprJson(fields[i].k, ryu)))
    ensures |SortBy(FieldMembers(fields, ryu), EntryKey)| == |pairs|
    ensures forall i :: 0 <= i < |pairs| ==>
              var p := SortBy(pairs, PairKey)[i];
              p.0 < |fields| && SortBy(FieldMembers(fields, ryu), EntryKey)[i] == Entry(p.1, ExprJson(fields[p.0].v, ryu))
  {
    var f := (p: (nat, string)) => if p.0 < |fields| then Entry(p.1, ExprJson(fields[p.0].v, ryu)) else Entry(p.1, JNull);
    assert forall p :: EntryKey(f(p)) == PairKey(p);
    SortByFrom(pairs, PairKey);
    hide SortBy;
    SortCommutes(pairs, FieldMembers(fields, ryu), f, PairKey, EntryKey);
  }

  function PairKey(p: (nat, string)): SortKey {
    [p.1]
  }

  lemma SortAttributes(m: AttributeMap, ryu: FloatText)
    ensures forall i :: 0 <= i < |m| ==>
              SortBy(Attributes(m, ryu), EntryKey)[i] == Attribute(SortBy(m, EntryKey)[i], ryu)
  {
    var f := (e: Entry<Expr>) => Attribute(e, ryu);
    assert forall e :: EntryKey(f(e)) == EntryKey(e);
    hide SortBy;
    SortCommutes(m, Attributes(m, ryu), f, EntryKey, EntryKey);
  }

  lemma Object1(o: string, n1: string, j1: Json)
    requires Plain(n1)
    ensures o + "{" + Label(n1) + Render(j1) + "}" == o + Render(JObject([Entry(n1, j1)]))
  {
    hide Render, RenderMembers, Label, Plain;
    NoMembers();
    assert [] + [Entry(n1, j1)] == [Entry(n1, j1)];
    Labelled(o + "{", [], n1, j1);
    ClosedObject(o, [Entry(n1, j1)]);
  }

  lemma Object2(o: string, n1: string, j1: Json, n2: string, j2: Json)
    requires Plain(n1) && Plain(n2)
    ensures o + "{" + Label(n1) + Render(j1) + "," + Label(n2) + Render(j2) + "}" ==
            o + Render(JObject([Entry(n1, j1), Entry(n2, j2)]))
  {
    hide Render, RenderMembers, Label, Plain;
    NoMembers();
    var a, b := Entry(n1, j1), Entry(n2, j2);
    assert [] + [a] == [a] && [a] + [b] == [a, b];
    Labelled(o + "{", [], n1, j1);
    Labelled(o + "{", [a], n2, j2);
    ClosedObject(o, [a, b]);
  }

  lemma Object3(o: string, n1: string, j1: Json, n2: string, j2: Json, n3: string, j3: Json)
    requires Plain(n1) && Plain(n2) && Plain(n3)
    ensures o + "{" + Label(n1) + Render(j1) + "," + Label(n2) + Render(j2) + "," + Label(n3) + Render(j3) + "}" ==
            o + Render(JObject([Entry(n1, j1), Entry(n2, j2), Entry(n3, j3)]))
  {
    hide Render, RenderMembers, Label, Plain;
    NoMembers();
    var a, b, c := Entry(n1, j1), Entry(n2, j2), Entry(n3, j3);
    assert [] + [a] == [a] && [a] + [b] == [a, b] && [a, b] + [c] == [a, b, c];
    Labelled(o + "{", [], n1, j1);
    Labelled(o + "{", [a], n2, j2);
    Labelled(o + "{", [a, b], n3, j3);
    ClosedObject(o, [a, b, c]);
  }

  lemma Snoc4<T>(a: T, b: T, c: T, d: T)
    ensures [] + [a] == [a] && [a] + [b] == [a, b] && [a, b] + [c] == [a, b, c] && [a, b, c] + [d] == [a, b, c, d]
  {
  }

  lemma Object4(o: string, n1: string, j1: Json, n2: string, j2: Json, n3: string, j3: Json, n4: string, j4: Json)
    requires Plain(n1) && Plain(n2) && Plain(n3) && Plain(n4)
    ensures o + "{" + Label(n1) + Render(j1) + "," + Label(n2) + Render(j2) + "," + Label(n3) + Render(j3) +
            "," + Label(n4) + Render(j4) + "}" ==
            o + Render(JObject([Entry(n1, j1), Entry(n2, j2), Entry(n3, j3), Entry(n4, j4)]))
  {
    hide Render, RenderMembers, Label, Plain;
    NoMembers();
    var a, b, c, d := Entry(n1, j1), Entry(n2, j2), Entry(n3, j3), Entry(n4, j4);
    Snoc4(a, b, c, d);
    Labelled(o + "{", [], n1, j1);
    Labelled(o + "{", [a], n2, j2);
    Labelled(o + "{", [a, b], n3, j3);
    Labelled(o + "{", [a, b, c], n4, j4);
    ClosedObject(o, [a, b, c, d]);
  }

  lemma ConditionalText(o: string, e: Expr, ryu: FloatText)
    requires e.Conditional?
    ensures o + "{" + Label("__conditional__") +
            "{" + Label("cond") + Render(ExprJson(e.test, ryu)) +
            "," + Label("else") + Render(ExprJson(e.elseBranch, ryu)) +
            "," + Label("then") + Render(ExprJson(e.thenBranch, ryu)) + "}" + "}" ==
            o + Render(ExprJson(e, ryu))
  {
    var c, t, f := ExprJson(e.test, ryu), ExprJson(e.thenBranch, ryu), ExprJson(e.elseBranch, ryu);
    var inner := JObject([Entry("cond", c), Entry("else", f), Entry("then", t)]);
    assert ExprJson(e, ryu) == JObject([Entry("__conditional__", inner)]);
    hide ExprJson, Render, Label;
    Object3(o + "{" + Label("__conditional__"), "cond", c, "else", f, "then", t);
    Object1(o, "__conditional__", inner);
  }

  lemma ForText(o: string, e: Expr, ryu: FloatText)
    requires e.For?
    ensures o + "{" + Label("__for__") +
            "{" + Label("binders") + Render(JArray(Strings(e.binders))) +
            "," + Label("collection") + Render(ExprJson(e.collection, ryu)) +
            "," + Label("object_form") + (if e.objectForm then "true" else "false") +
            "," + Label("value") + Render(ExprJson(e.yield_, ryu)) + "}" + "}" ==
            o + Render(ExprJson(e, ryu))
  {
    var binders, coll, body := JArray(Strings(e.binders)), ExprJson(e.collection, ryu), ExprJson(e.yield_, ryu);
    var form := JBool(e.objectForm);
    var inner := JObject([Entry("binders", binders), Entry("collection", coll), Entry("object_form", form), Entry("value", body)]);
    assert ExprJson(e, ryu) == JObject([Entry("__for__", inner)]);
    assert Render(form) == if e.objectForm then "true" else "false";
    hide ExprJson, Render, Label;
    Object4(o + "{" + Label("__for__"), "binders", binders, "collection", coll, "object_form", form, "value", body);
    Object1(o, "__for__", inner);
  }

  // ---- the writers ----------------------------------------------------------------------------

  class Printer {
    var out: string
    const ryu: FloatText

    constructor (ryu: FloatText)
      ensures out == "" && this.ryu == ryu
    {
      this.out := "";
      this.ryu := ryu;
    }

    method WriteJsonString(s: string)
      modifies this
      ensures out == old(out) + Quote(s)
    {
      out := out + "\"";
      ghost var start := out;
      for i := 0 to |s|
        invariant out == start + Escape(s[..i])
      {
        assert s[..i + 1] == s[..i] + [s[i]];
        EscapeAppend(s[..i], s[i]);
        ConcatAssoc(start, Escape(s[..i]), EscapeChar(s[i]));
        out := out + EscapeChar(s[i]);
      }
      assert s[..|s|] == s;
      out := out + "\"";
    }

    method WriteValue(v: Value)
      modifies this
      ensures out == old(out) + Render(ToJson(v, ryu))
      decreases v, 0
    {
      match v
      case Null => out := out + "null";
      case Bool(b) => out := out + (if b then "true" else "false");
      case Int(n) => out := out + Dec(n);
      case Number(f) =>
        var token := ryu(f);
        if token.Some? {
          out := out + token.value;
        } else {
          out := out + "null";
        }
      case Str(s) => WriteJsonString(s);
      case List(items) => WriteList(items);
      case Map(entries) => WriteMap(entries);
    }

    method WriteList(items: seq<Value>)
      modifies this
      ensures out == old(out) + Render(JArray(Items(items, ryu)))
      decreases items
    {
      hide Render, RenderItems, ToJson, Items;
      ghost var o := out;
      ghost var js := Items(items, ryu);
      out := out + "[";
      NoItems();
      for i := 0 to |items|
        invariant out == o + "[" + RenderItems(js[..i])
      {
        NextItem(o + "[", js[..i], js[i]);
        assert js[..i + 1] == js[..i] + [js[i]];
        WriteItem(items[i], i > 0);
      }
      assert js[..|items|] == js;
      ClosedArray(o, js);
      out := out + "]";
    }

    method WriteItem(v: Value, comma: bool)
      modifies this
      ensures out == old(out) + (if comma then "," else "") + Render(ToJson(v, ryu))
      decreases v, 1
    {
      if comma { out := out + ","; }
      WriteValue(v);
    }

    method WriteMap(entries: ValueMap)
      modifies this
      ensures out == old(out) + Render(JObject(SortBy(Members(entries, ryu), EntryKey)))
      decreases entries
    {
      hide Render, RenderMembers, RenderMember, Members, Member, SortBy;
      ghost var o := out;
      ghost var ms := SortBy(Members(entries, ryu), EntryKey);
      var sorted := SortBy(entries, EntryKey);
      SortMembers(entries, ryu);
      SortByFrom(entries, EntryKey<Value>);
      out := out + "{";
      NoMembers();
      for i := 0 to |sorted|
        invariant out == o + "{" + RenderMembers(ms[..i])
      {
        ghost var k :| 0 <= k < |entries| && entries[k] == sorted[i];
        NextMember(o + "{", ms[..i], ms[i]);
        assert ms[..i + 1] == ms[..i] + [ms[i]];
        WriteMember(sorted[i], i > 0);
      }
      assert ms[..|sorted|] == ms;
      ClosedObject(o, ms);
      out := out + "}";
    }

    /** One entry of a map, after a comma unless it is the first. */
    method WriteMember(e: Entry<Value>, comma: bool)
      modifies this
      ensures out == old(out) + (if comma then "," else "") + RenderMember(Member(e, ryu))
      decreases e
    {
      if comma { out := out + ","; }
      ghost var o := out;
      WriteJsonString(e.key);
      out := out + ":";
      WriteValue(e.val);
      MemberWritten(o, Member(e, ryu));
    }

    method WriteExpression(e: Expr)
      modifies this
      ensures out == old(out) + Render(ExprJson(e, ryu))
      decreases e, 1
    {
      hide Render, ToJson;
      match e
      case Literal(v) => WriteValue(v);
      case Unresolved(s) => WriteUnresolved(s);
      case Call(_, _) => WriteCall(e);
      case Binary(_, _, _) => WriteBinary(e);
      case Unary(_, _) => WriteUnary(e);
      case Template(_) => WriteTemplate(e);
      case Array(items) => WriteExpressionList(items);
      case Object(fields) => WriteObject(fields);
      case Conditional(_, _, _) => WriteConditional(e);
      case For(_, _, _, _, _, _) => WriteFor(e);
    }

    method WriteUnresolved(s: Symbolic)
      modifies this
      ensures out == old(out) + Render(ExprJson(Unresolved(s), ryu))
    {
      Object2(out, "__kind__", JString(KindName(s.kind)), "__unresolved__", JString(s.source));
      hide Label, Quote;
      out := out + "{" + Label("__kind__");
      WriteJsonString(KindName(s.kind));
      out := out + "," + Label("__unresolved__");
      WriteJsonString(s.source);
      out := out + "}";
    }

    method WriteCall(e: Expr)
      requires e.Call?
      modifies this
      ensures out == old(out) + Render(ExprJson(e, ryu))
      decreases e, 0
    {
      Object2(out, "__unresolved_func__", JString(e.name), "args", JArray(ExprItems(e.args, ryu)));
      hide Label, Quote, RenderItems;
      out := out + "{" + Label("__unresolved_func__");
      WriteJsonString(e.name);
      out := out + "," + Label("args");
      WriteExpressionList(e.args);
      out := out + "}";
    }

    method WriteBinary(e: Expr)
      requires e.Binary?
      modifies this
      ensures out == old(out) + Render(ExprJson(e, ryu))
      decreases e, 0
    {
      Object3(out, "__binary_op__", JString(OpName(e.bop)), "lhs", ExprJson(e.lhs, ryu), "rhs", ExprJson(e.rhs, ryu));
      hide Label, Quote;
      out := out + "{" + Label("__binary_op__");
      WriteJsonString(OpName(e.bop));
      out := out + "," + Label("lhs");
      WriteExpression(e.lhs);
      out := out + "," + Label("rhs");
      WriteExpression(e.rhs);
      out := out + "}";
    }

    method WriteUnary(e: Expr)
      requires e.Unary?
      modifies this
      ensures out == old(out) + Render(ExprJson(e, ryu))
      decreases e, 0
    {
      Object2(out, "__unary_op__", JString(UnaryName(e.uop)), "operand", ExprJson(e.operand, ryu));
      hide Label, Quote;
      out := out + "{" + Label("__unary_op__");
      WriteJsonString(UnaryName(e.uop));
      out := out + "," + Label("operand");
      WriteExpression(e.operand);
      out := out + "}";
    }

    method WriteTemplate(e: Expr)
      requires e.Template?
      modifies this
      ensures out == old(out) + Render(ExprJson(e, ryu))
      decreases e, 0
    {
      Object1(out, "__template_concat__", JArray(ExprItems(e.parts, ryu)));
      hide Label, Render;
      out := out + "{" + Label("__template_concat__");
      WriteExpressionList(e.parts);
      out := out + "}";
    }

    method WriteConditional(e: Expr)
      requires e.Conditional?
      modifies this
      ensures out == old(out) + Render(ExprJson(e, ryu))
      decreases e, 0
    {
      ConditionalText(out, e, ryu);
      hide Label, Render, ExprJson;
      out := out + "{" + Label("__conditional__");
      out := out + "{" + Label("cond");
      WriteExpression(e.test);
      out := out + "," + Label("else");
      WriteExpression(e.elseBranch);
      out := out + "," + Label("then");
      WriteExpression(e.thenBranch);
      out := out + "}";
      out := out + "}";
    }

    /** The binders, the collection and the body; the key and the filter are not written. */
    method WriteFor(e: Expr)
      requires e.For?
      modifies this
      ensures out == old(out) + Render(ExprJson(e, ryu))
      decreases e, 0
    {
      ForText(out, e, ryu);
      hide Label, Render, ExprJson;
      out := out + "{" + Label("__for__");
      out := out + "{" + Label("binders");
      WriteBinders(e.binders);
      out := out + "," + Label("collection");
      WriteExpression(e.collection);
      out := out + "," + Label("object_form");
      out := out + (if e.objectForm then "true" else "false");
      out := out + "," + Label("value");
      WriteExpression(e.yield_);
      out := out + "}";
      out := out + "}";
    }

    method WriteBinders(names: seq<string>)
      modifies this
      ensures out == old(out) + Render(JArray(Strings(names)))
    {
      hide RenderItems, Quote;
      ghost var o := out;
      ghost var js := Strings(names);
      out := out + "[";
      NoItems();
      for i := 0 to |names|
        invariant out == o + "[" + RenderItems(js[..i])
      {
        NextItem(o + "[", js[..i], js[i]);
        assert js[..i + 1] == js[..i] + [js[i]];
        if i > 0 { out := out + ","; }
        WriteJsonString(names[i]);
      }
      assert js[..|names|] == js;
      ClosedArray(o, js);
      out := out + "]";
    }

    method WriteExpressionList(items: seq<Expr>)
      modifies this
      ensures out == old(out) + Render(JArray(ExprItems(items, ryu)))
      decreases items
    {
      hide Render, RenderItems, ExprJson, ExprItems;
      ghost var o := out;
      ghost var js := ExprItems(items, ryu);
      out := out + "[";
      NoItems();
      for i := 0 to |items|
        invariant out == o + "[" + RenderItems(js[..i])
      {
        NextItem(o + "[", js[..i], js[i]);
        assert js[..i + 1] == js[..i] + [js[i]];
        if i > 0 { out := out + ","; }
        WriteExpression(items[i]);
      }
      assert js[..|items|] == js;
      ClosedArray(o, js);
      out := out + "]";
    }

    /** Sorts the fields by the canonical text of their keys, then writes key text and value. */
    method WriteObject(fields: seq<Field>)
      modifies this
      ensures out == old(out) + Render(JObject(SortBy(FieldMembers(fields, ryu), EntryKey)))
      decreases fields
    {
      hide Render, RenderMembers, RenderMember, ExprJson, FieldMembers, SortBy, Quote;
      var pairs: seq<(nat, string)> := [];
      for i := 0 to |fields|
        invariant out == old(out) && |pairs| == i
        invariant forall j :: 0 <= j < i ==> pairs[j] == (j, Render(ExprJson(fields[j].k, ryu)))
      {
        var text := KeyText(fields[i]);
        pairs := pairs + [(i, text)];
      }
      var sorted := SortBy(pairs, PairKey);
      ghost var o := out;
      ghost var ms := SortBy(FieldMembers(fields, ryu), EntryKey);
      SortedFields(fields, pairs, ryu);
      out := out + "{";
      NoMembers();
      for i := 0 to |sorted|
        invariant out == o + "{" + RenderMembers(ms[..i])
      {
        NextMember(o + "{", ms[..i], ms[i]);
        assert ms[..i + 1] == ms[..i] + [ms[i]];
        if i > 0 { out := out + ","; }
        var (index, text) := sorted[i];
        WriteField(text, fields[index]);
      }
      assert ms[..|sorted|] == ms;
      ClosedObject(o, ms);
      out := out + "}";
    }

    /** The key expression's text, written into a buffer of its own. */
    method KeyText(f: Field) returns (text: string)
      ensures text == Render(ExprJson(f.k, ryu))
      decreases f
    {
      var scratch := new Printer(ryu);
      scratch.WriteExpression(f.k);
      text := scratch.out;
    }

    method WriteField(text: string, f: Field)
      modifies this
      ensures out == old(out) + RenderMember(Entry(text, ExprJson(f.v, ryu)))
      decreases f
    {
      MemberWritten(out, Entry(text, ExprJson(f.v, ryu)));
      hide Render, Quote, RenderMember;
      WriteJsonString(text);
      out := out + ":";
      WriteExpression(f.v);
    }

    /** The attribute column: the entries sorted by name. */
    method RenderAttributeMap(m: AttributeMap)
      modifies this
      ensures out == old(out) + Render(AttributesJson(m, ryu))
    {
      hide Render, RenderMembers, RenderMember, ExprJson, SortBy, Quote;
      ghost var o := out;
      ghost var ms := SortBy(Attributes(m, ryu), EntryKey);
      var sorted := SortBy(m, EntryKey);
      SortAttributes(m, ryu);
      out := out + "{";
      NoMembers();
      for i := 0 to |sorted|
        invariant out == o + "{" + RenderMembers(ms[..i])
      {
        NextMember(o + "{", ms[..i], ms[i]);
        assert ms[..i + 1] == ms[..i] + [ms[i]];
        if i > 0 { out := out + ","; }
        MemberWritten(out, ms[i]);
        WriteJsonString(sorted[i].key);
        out := out + ":";
        WriteExpression(sorted[i].val);
      }
      assert ms[..|sorted|] == ms;
      ClosedObject(o, ms);
      out := out + "}";
    }
  }

  /** A fresh string holding the attribute column. */
  method AttributeMapToString(m: AttributeMap, ryu: FloatText) returns (text: string)
    ensures text == Render(AttributesJson(m, ryu))
  {
    var printer := new Printer(ryu);
    printer.RenderAttributeMap(m);
    text := printer.out;
    assert "" + Render(AttributesJson(m, ryu)) == Render(AttributesJson(m, ryu));
  }

  lemma MemberWritten(o: string, m: Entry<Json>)
    ensures o + Quote(m.key) + ":" + Render(m.val) == o + RenderMember(m)
  {
    ConcatAssoc(o, Quote(m.key), ":");
    ConcatAssoc(o, Quote(m.key) + ":", Render(m.val));
  }

  // ---- the text, character by character -------------------------------------------------------

  /** The short escapes, lower-case hexadecimal for the other control characters, and everything else as it
      is. */
  predicate CharacterText(c: char, t: string) {
    var n := c as int;
    if c == '"' then t == "\\\""
    else if c == '\\' then t == "\\\\"
    else if n == 8 then t == "\\b"
    else if n == 9 then t == "\\t"
    else if n == 10 then t == "\\n"
    else if n == 12 then t == "\\f"
    else if n == 13 then t == "\\r"
    else if n < 16 then t == "\\u000" + ["0123456789abcdef"[n]]
    else if n < 32 then t == "\\u001" + ["0123456789abcdef"[n - 16]]
    else t == [c]
  }

  lemma CharacterTextIs(c: char)
    ensures CharacterText(c, EscapeChar(c))
  {
    var n := c as int;
    if n < 32 && n != 8 && n != 9 && n != 10 && n != 12 && n != 13 {
      assert EscapeChar(c) == "\\u00" + [HexDigit(n / 16), HexDigit(n % 16)];
      if n < 16 {
        assert "\\u000" + ["0123456789abcdef"[n]] == "\\u00" + ['0', HexDigit(n)];
      } else {
        assert "\\u001" + ["0123456789abcdef"[n - 16]] == "\\u00" + ['1', HexDigit(n - 16)];
      }
    }
  }

  /** A string's text grows by each character's. */
  lemma StringText(s: string, c: char)
    ensures Render(JString("")) == "\"\""
    ensures exists inner, t ::
              CharacterText(c, t) && Render(JString(s)) == "\"" + inner + "\"" && Render(JString(s + [c])) == "\"" + inner + t + "\""
  {
    EscapeAppend(s, c);
    CharacterTextIs(c);
    var inner, t := Escape(s), EscapeChar(c);
    assert Render(JString(s)) == "\"" + inner + "\"";
    assert Render(JString(s + [c])) == "\"" + (inner + t) + "\"";
    ConcatAssoc("\"", inner, t);
  }

  /** Nothing stands between the parts but commas and colons. */
  lemma CompactText(js: seq<Json>, j: Json, ms: seq<Entry<Json>>, m: Entry<Json>, b: bool, t: string)
    ensures Render(JNull) == "null" && Render(JBool(b)) == (if b then "true" else "false") && Render(JNumber(t)) == t
    ensures Render(JArray([])) == "[]" && Render(JObject([])) == "{}"
    ensures exists inner :: Render(JArray(js)) == "[" + inner + "]" &&
              Render(JArray(js + [j])) == "[" + (inner + (if js == [] then "" else ",") + Render(j)) + "]"
    ensures exists inner :: Render(JObject(ms)) == "{" + inner + "}" &&
              Render(JObject(ms + [m])) ==
              "{" + (inner + (if ms == [] then "" else ",") + (Render(JString(m.key)) + ":" + Render(m.val))) + "}"
  {
    ItemsAppend(js, j);
    MembersAppend(ms, m);
    NoItems();
    NoMembers();
    assert RenderMember(m) == Render(JString(m.key)) + ":" + Render(m.val);
    assert Render(JArray(js)) == "[" + RenderItems(js) + "]" && Render(JObject(ms)) == "{" + RenderMembers(ms) + "}";
    assert Render(JArray(js + [j])) == "[" + RenderItems(js + [j]) + "]";
    assert Render(JObject(ms + [m])) == "{" + RenderMembers(ms + [m]) + "}";
  }
}
