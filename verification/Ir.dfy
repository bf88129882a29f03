/** The intermediate representation shared by every pass: resolved values, possibly unresolved
    expressions, and the association lists that hold attributes and bindings. */
module Ir {

  datatype Option<+T> = None | Some(value: T)

  const I64_MIN: int := -0x8000_0000_0000_0000
  const I64_MAX: int := 0x7fff_ffff_ffff_ffff

  predicate InI64(n: int) {
    I64_MIN <= n <= I64_MAX
  }

  type i64 = n: int | InI64(n) witness 0

  const U64_MAX: nat := 0xffff_ffff_ffff_ffff

  type u64 = n: nat | n <= U64_MAX

  /** A `u64` that stops counting at its maximum. */
  function Saturate(n: nat): u64 {
    if n < U64_MAX then n else U64_MAX
  }

  /** An opaque binary64 bit pattern; every operation on it is a field of `Floats`. */
  datatype Float = Float(bits: nat)

  datatype Ordering = Less | Equal | Greater

  /** One slot of an insertion-ordered association list. */
  datatype Entry<+V> = Entry(key: string, val: V)

  datatype Value =
    | Null
    | Bool(b: bool)
    | Int(n: i64)
    | Number(f: Float)
    | Str(s: string)
    | List(items: seq<Value>)
    | Map(entries: seq<Entry<Value>>)

  type ValueMap = seq<Entry<Value>>

  datatype BinaryOp = Add | Sub | Mul | Div | Mod | Eq | Ne | Lt | Le | Gt | Ge | And | Or

  datatype UnaryOp = Neg | Not

  datatype SymbolKind =
    | Var | Local | Resource | Data | Module | Path | Iteration | Terraform
    | TerragruntDependency | Other

  /** A reference the evaluator could not resolve, with its verbatim source text. */
  datatype Symbolic = Symbolic(kind: SymbolKind, source: string)

  /** One `key = value` item of an object literal; keys may themselves be expressions. */
  datatype Field = Field(k: Expr, v: Expr)

  datatype Expr =
    | Literal(v: Value)
    | Unresolved(sym: Symbolic)
    | Binary(bop: BinaryOp, lhs: Expr, rhs: Expr)
    | Unary(uop: UnaryOp, operand: Expr)
    | Template(parts: seq<Expr>)
    | Array(elems: seq<Expr>)
    | Object(fields: seq<Field>)
    | Call(name: string, args: seq<Expr>)
    | Conditional(test: Expr, thenBranch: Expr, elseBranch: Expr)
    | For(binders: seq<string>, collection: Expr, key: Option<Expr>, yield_: Expr,
          filter: Option<Expr>, objectForm: bool)

  type AttributeMap = seq<Entry<Expr>>

  /** First match in insertion order. */
  function Find<V>(m: seq<Entry<V>>, key: string): Option<V> {
    if m == [] then None
    else if m[0].key == key then Some(m[0].val)
    else Find(m[1..], key)
  }

  /** What a name bound to `v` inside the scope `outer` reads: the outermost binding counts. */
  function Seen(outer: ValueMap, x: string, v: Value): Value {
    match Find(outer, x)
    case Some(w) => w
    case None => v
  }

  /** Last match in insertion order. */
  function FindLast<V>(m: seq<Entry<V>>, key: string): Option<V> {
    if m == [] then None
    else if m[|m| - 1].key == key then Some(m[|m| - 1].val)
    else FindLast(m[..|m| - 1], key)
  }

  function Keys<V>(m: seq<Entry<V>>): (r: seq<string>)
    ensures |r| == |m| && forall i :: 0 <= i < |m| ==> r[i] == m[i].key
  {
    seq(|m|, i requires 0 <= i < |m| => m[i].key)
  }

  function Names<V>(m: seq<Entry<V>>): set<string> {
    set k | k in Keys(m)
  }

  predicate DistinctStrings(s: seq<string>) {
    forall i, j :: 0 <= i < j < |s| ==> s[i] != s[j]
  }

  predicate DistinctKeys<V>(m: seq<Entry<V>>) {
    DistinctStrings(Keys(m))
  }

  /** No map repeats a key, at any depth. */
  predicate DistinctDeep(v: Value)
    decreases v
  {
    match v
    case List(items) => forall i :: 0 <= i < |items| ==> DistinctDeep(items[i])
    case Map(entries) => DistinctKeys(entries) && forall i :: 0 <= i < |entries| ==> DistinctDeepEntry(entries[i])
    case _ => true
  }

  predicate DistinctDeepEntry(e: Entry<Value>)
    decreases e
  {
    DistinctDeep(e.val)
  }

  lemma {:induction false} FindIsFirst<V>(m: seq<Entry<V>>, key: string)
    ensures Find(m, key).None? <==> key !in Keys(m)
    ensures Find(m, key).Some? ==>
              exists i :: 0 <= i < |m| && m[i].key == key && Find(m, key) == Some(m[i].val) &&
                          forall j :: 0 <= j < i ==> m[j].key != key
  {
    if m != [] {
      FindIsFirst(m[1..], key);
      if m[0].key == key {
        assert Keys(m)[0] == key;
      } else {
        assert forall j :: 0 <= j < |m| - 1 ==> m[1..][j] == m[j + 1] && Keys(m[1..])[j] == Keys(m)[j + 1];
        if Find(m, key).Some? {
          var i :| 0 <= i < |m| - 1 && m[1..][i].key == key && Find(m, key) == Some(m[1..][i].val) &&
                   forall j :: 0 <= j < i ==> m[1..][j].key != key;
          assert forall j :: 0 <= j < i + 1 ==> m[j].key != key by {
            forall j | 0 < j < i + 1 ensures m[j].key != key { assert m[1..][j - 1].key != key; }
          }
          assert m[i + 1].key == key;
        } else {
          forall j | 0 <= j < |m| ensures Keys(m)[j] != key {
            if j > 0 { assert Keys(m[1..])[j - 1] != key; }
          }
        }
      }
    }
  }

  lemma {:induction false} FindAppend<V>(a: seq<Entry<V>>, b: seq<Entry<V>>, key: string)
    ensures Find(a + b, key) == if Find(a, key).Some? then Find(a, key) else Find(b, key)
  {
    if a == [] {
      assert a + b == b;
    } else {
      assert (a + b)[1..] == a[1..] + b;
      FindAppend(a[1..], b, key);
    }
  }

  lemma {:induction false} FindLastAppend<V>(a: seq<Entry<V>>, b: seq<Entry<V>>, key: string)
    ensures FindLast(a + b, key) == if FindLast(b, key).Some? then FindLast(b, key) else FindLast(a, key)
  {
    if b == [] {
      assert a + b == a;
    } else {
      assert (a + b)[..|a + b| - 1] == a + b[..|b| - 1];
      FindLastAppend(a, b[..|b| - 1], key);
    }
  }

  /** In a list without repeated keys the two lookup orders agree. */
  lemma {:induction false} FindOnly<V>(m: seq<Entry<V>>, i: nat)
    requires DistinctKeys(m) && i < |m|
    ensures Find(m, m[i].key) == Some(m[i].val)
  {
    FindIsFirst(m, m[i].key);
    assert Keys(m)[i] == m[i].key;
  }

  /** The map a first-match list denotes. */
  function AsMap<V>(m: seq<Entry<V>>): (r: map<string, V>)
    ensures forall k :: k in r <==> Find(m, k).Some?
    ensures forall k :: k in r ==> Find(m, k) == Some(r[k])
  {
    FindKeys(m);
    map k | k in Keys(m) :: Find(m, k).value
  }

  lemma FindKeys<V>(m: seq<Entry<V>>)
    ensures forall k :: k in Keys(m) <==> Find(m, k).Some?
  {
    forall k ensures k in Keys(m) <==> Find(m, k).Some? {
      FindIsFirst(m, k);
    }
  }

  // ---- workspace entities ---------------------------------------------------------------------

  datatype ProviderRef = ProviderRef(localName: string, alias: Option<string>)

  type ProviderMap = seq<Entry<ProviderRef>>

  datatype ResourceKind = Managed | DataSource

  datatype Resource = Resource(
    address: string,
    kind: ResourceKind,
    typeName: string,
    name: string,
    providerRef: Option<ProviderRef>,
    countExpr: Option<Expr>,
    forEachExpr: Option<Expr>,
    dependsOn: seq<string>,
    attributes: AttributeMap)

  datatype ModuleSource = LocalSource(rel: string) | RegistrySource(raw: string) | GitSource(raw: string) | ExternalSource(raw: string)

  datatype ModuleCall = ModuleCall(
    address: string,
    source: ModuleSource,
    providers: ProviderMap,
    inputs: AttributeMap,
    countExpr: Option<Expr>,
    forEachExpr: Option<Expr>)

  /** A component or module body: its directory, its resources and its module calls. */
  datatype Body = Body(dir: string, resources: seq<Resource>, modules: seq<ModuleCall>)

  /** Diagnostic codes; their message text is not part of the model. */
  datatype Code = TF1501 | TF1502 | TF1503 | TF1504 | TF1505 | TF1506 | TF1507

  // ---- overriding one slot --------------------------------------------------------------------

  /** Index of the first slot with this key, or the length. */
  function SlotOf<V>(m: seq<Entry<V>>, key: string): (i: nat)
    ensures i <= |m|
    ensures i < |m| ==> m[i].key == key
    ensures forall j :: 0 <= j < i ==> m[j].key != key
  {
    if m == [] || m[0].key == key then 0
    else
      var i := SlotOf(m[1..], key);
      assert forall j :: 0 < j < i + 1 ==> m[j] == m[1..][j - 1];
      i + 1
  }

  /** Overwrites the first slot with this key, or appends. */
  function Put<V>(m: seq<Entry<V>>, key: string, val: V): seq<Entry<V>> {
    var i := SlotOf(m, key);
    if i < |m| then m[i := Entry(key, val)] else m + [Entry(key, val)]
  }

  lemma {:induction false} SlotIsFind<V>(m: seq<Entry<V>>, key: string)
    ensures Find(m, key) == if SlotOf(m, key) < |m| then Some(m[SlotOf(m, key)].val) else None
  {
    if m != [] && m[0].key != key { SlotIsFind(m[1..], key); }
  }

  lemma {:induction false} FindPut<V>(m: seq<Entry<V>>, key: string, val: V, x: string)
    ensures Find(Put(m, key, val), x) == if x == key then Some(val) else Find(m, x)
  {
    if m == [] {
      assert Put(m, key, val) == [Entry(key, val)];
    } else if m[0].key == key {
      assert Put(m, key, val)[1..] == m[1..];
    } else {
      assert Put(m, key, val)[0] == m[0] && Put(m, key, val)[1..] == Put(m[1..], key, val);
      FindPut(m[1..], key, val, x);
    }
  }
}
