/** Module flattening (`graph/expand.rs`): every module call is replaced by the rewritten resources
    of the module it resolves to, recursively. */
module Expand {
  import opened Ir
  import opened Seqs
  import opened Text
  import opened Addresses
  import opened Substitution

  /** What expansion reads: the registry of module bodies, path resolution (joining and
      canonicalising, `None` when that fails), and the two limits. */
  datatype Repo = Repo(
    registry: map<string, Body>,
    resolve: (string, string) -> Option<string>,
    maxDepth: nat,
    cap: nat)

  // ---- resources ------------------------------------------------------------------------------

  /** `substitute_provider_ref`: matched by local name, the module's own alias is ignored. */
  function RewriteProvider(inner: ProviderRef, providers: ProviderMap): ProviderRef {
    match Find(providers, inner.localName)
    case Some(outer) => outer
    case None => inner
  }

  /** `rewrite_resource` */
  function Rewrite(src: Resource, prefix: Prefix, inputs: AttributeMap, providers: ProviderMap): Option<Resource> {
    match PrefixAddress(src.address, prefix)
    case None => None
    case Some(address) =>
      Some(src.(
        address := address,
        countExpr := if src.countExpr.Some? then Some(Subst(src.countExpr.value, inputs)) else None,
        forEachExpr := if src.forEachExpr.Some? then Some(Subst(src.forEachExpr.value, inputs)) else None,
        attributes := SubstAttrs(src.attributes, inputs),
        providerRef := if src.providerRef.Some? then Some(RewriteProvider(src.providerRef.value, providers)) else None))
  }

  /** `merge_provider_maps` */
  function MergeProviders(parent: ProviderMap, current: ProviderMap): ProviderMap {
    if parent == [] then current else PutAll(parent, current)
  }

  function PutAll(m: ProviderMap, current: ProviderMap): ProviderMap
    decreases |current|
  {
    if current == [] then m else PutAll(Put(m, current[0].key, current[0].val), current[1..])
  }

  method MergeProviderMaps(parent: ProviderMap, current: ProviderMap) returns (out: ProviderMap)
    ensures out == MergeProviders(parent, current)
  {
    if parent == [] {
      return current;
    }
    if current == [] {
      return parent;
    }
    out := parent;
    var i := 0;
    assert current[0..] == current;
    while i < |current|
      invariant 0 <= i <= |current|
      invariant PutAll(parent, current) == PutAll(out, current[i..])
    {
      assert current[i..][1..] == current[i + 1..];
      var slot := SlotOf(out, current[i].key);
      if slot < |out| {
        out := out[slot := Entry(out[slot].key, current[i].val)];
      } else {
        out := out + [current[i]];
      }
      i := i + 1;
    }
  }

  /** The current call overrides; what it does not mention is inherited. */
  lemma {:induction false} MergedProvider(parent: ProviderMap, current: ProviderMap, key: string)
    requires DistinctKeys(current)
    ensures Find(MergeProviders(parent, current), key) ==
            if Find(current, key).Some? then Find(current, key) else Find(parent, key)
  {
    if parent != [] { PutAllFinds(parent, current, key); }
  }

  lemma {:induction false} PutAllFinds(m: ProviderMap, current: ProviderMap, key: string)
    requires DistinctKeys(current)
    ensures Find(PutAll(m, current), key) == if Find(current, key).Some? then Find(current, key) else Find(m, key)
    decreases |current|
  {
    if current != [] {
      var k, v := current[0].key, current[0].val;
      assert forall i :: 0 <= i < |current| - 1 ==> Keys(current[1..])[i] == Keys(current)[i + 1];
      PutAllFinds(Put(m, k, v), current[1..], key);
      FindPut(m, k, v, key);
      FindIsFirst(current[1..], k);
      assert forall j :: 0 < j < |current| ==> Keys(current)[0] != Keys(current)[j];
    }
  }

  // ---- call instances -------------------------------------------------------------------------

  function CallName(call: ModuleCall): string {
    StripPrefix(call.address, MODULE)
  }

  function KeyInstances(keys: seq<string>): (r: seq<Option<string>>)
    ensures |r| == |keys|
  {
    seq(|keys|, i requires 0 <= i < |keys| => Some(KeyIndex(keys[i])))
  }

  /** The string elements of a list, in order; anything else is skipped. */
  function StringItems(items: seq<Value>): (r: seq<string>)
    ensures |r| <= |items|
  {
    if items == [] then []
    else (if items[0].Str? then [items[0].s] else []) + StringItems(items[1..])
  }

  lemma KeyInstancesCons(key: string, keys: seq<string>)
    ensures KeyInstances([key] + keys) == [Some(KeyIndex(key))] + KeyInstances(keys)
  {
  }

  function CountInstances(e: Expr, cap: nat): (seq<Option<string>>, seq<Code>) {
    if e.Literal? && e.v.Int? then
      if e.v.n <= 0 then ([], [])
      else if e.v.n > cap then ([None], [TF1505])
      else (seq(e.v.n, i requires 0 <= i < e.v.n => Some(CountIndex(i))), [])
    else ([None], [])
  }

  function ForEachInstances(e: Expr, cap: nat): (seq<Option<string>>, seq<Code>) {
    if e.Literal? && e.v.Map? then
      if |e.v.entries| > cap then ([None], [TF1505]) else (KeyInstances(Keys(e.v.entries)), [])
    else if e.Literal? && e.v.List? then
      if |e.v.items| > cap then ([None], [TF1505]) else (KeyInstances(StringItems(e.v.items)), [])
    else ([None], [])
  }

  /** `call_instances`: one index per instance, and the diagnostics raised on the way. */
  function Instances(call: ModuleCall, cap: nat): (seq<Option<string>>, seq<Code>) {
    if call.countExpr.Some? then CountInstances(call.countExpr.value, cap)
    else if call.forEachExpr.Some? then ForEachInstances(call.forEachExpr.value, cap)
    else ([None], [])
  }

  // ---- resolution -----------------------------------------------------------------------------

  /** Where a call is made from. */
  datatype Caller = Caller(dir: string, prefix: Prefix, providers: ProviderMap, stack: seq<string>)

  datatype Resolution = Hit(path: string, body: Body) | Miss(notes: seq<Code>)

  /** `resolve_module_call` */
  function Resolve(call: ModuleCall, caller: Caller, repo: Repo): Resolution {
    if |caller.stack| >= repo.maxDepth then Miss([TF1501])
    else if !call.source.LocalSource? then Miss([])
    else
      match repo.resolve(caller.dir, call.source.rel)
      case None => Miss([TF1502])
      case Some(path) =>
        if path in caller.stack then Miss([TF1504])
        else if path in repo.registry then Hit(path, repo.registry[path])
        else Miss([TF1503])
  }

  /** The body being expanded, the inputs it was called with, and its position as a caller. */
  datatype Ctx = Ctx(body: Body, inputs: AttributeMap, caller: Caller)

  function RootCtx(parent: Body): Ctx {
    Ctx(parent, [], Caller(parent.dir, Root, [], []))
  }

  /** The `ci`-th call of a body, its inputs rewritten through the body's own inputs. */
  function CallAt(ctx: Ctx, ci: nat): ModuleCall
    requires ci < |ctx.body.modules|
  {
    var call := ctx.body.modules[ci];
    call.(inputs := SubstAttrs(call.inputs, ctx.inputs))
  }

  function Enter(call: ModuleCall, caller: Caller, path: string, body: Body, index: Option<string>): Ctx {
    Ctx(body, call.inputs,
        Caller(body.dir, Step(caller.prefix, CallName(call), index),
               MergeProviders(caller.providers, call.providers), caller.stack + [path]))
  }

  // ---- the declarative unfolding --------------------------------------------------------------

  /** A call chain: for every level, which call and which of its instances. */
  type Chain = seq<(nat, nat)>

  /** One level down: a registered, non-repeating call within the depth limit, and an instance of it. */
  function StepInto(ctx: Ctx, step: (nat, nat), repo: Repo): Option<Ctx> {
    if step.0 >= |ctx.body.modules| then None
    else
      var call := CallAt(ctx, step.0);
      match Resolve(call, ctx.caller, repo)
      case Miss(_) => None
      case Hit(path, body) =>
        var indices := Instances(call, repo.cap).0;
        if step.1 < |indices| then Some(Enter(call, ctx.caller, path, body, indices[step.1])) else None
  }

  /** Following a chain from a context; `None` when the chain is not a valid one. */
  function Walk(ctx: Ctx, chain: Chain, repo: Repo): Option<Ctx>
    decreases |chain|
  {
    if chain == [] then Some(ctx)
    else
      match StepInto(ctx, chain[0], repo)
      case None => None
      case Some(next) => Walk(next, chain[1..], repo)
  }

  function RowAt(ctx: Ctx, ri: nat): Option<Resource>
    requires ri < |ctx.body.resources|
  {
    Rewrite(ctx.body.resources[ri], ctx.caller.prefix, ctx.inputs, ctx.caller.providers)
  }

  // ---- the traversal --------------------------------------------------------------------------

  /** What expansion does, in order: raise a diagnostic, or reach a resource of a chain. */
  datatype Event = Note(code: Code) | Emit(chain: Chain, ri: nat, row: Option<Resource>)

  function Notes(codes: seq<Code>): seq<Event> {
    seq(|codes|, i requires 0 <= i < |codes| => Note(codes[i]))
  }

  function Emits(ctx: Ctx, chain: Chain): seq<Event> {
    seq(|ctx.body.resources|, i requires 0 <= i < |ctx.body.resources| => Emit(chain, i, RowAt(ctx, i)))
  }

  function Room(caller: Caller, repo: Repo): nat {
    if |caller.stack| < repo.maxDepth then repo.maxDepth - |caller.stack| else 0
  }

  function BodyTrace(ctx: Ctx, chain: Chain, ci: nat, repo: Repo): seq<Event>
    requires ci <= |ctx.body.modules|
    decreases Room(ctx.caller, repo), 2, |ctx.body.modules| - ci
  {
    if ci == |ctx.body.modules| then []
    else CallTrace(CallAt(ctx, ci), ctx.caller, chain, ci, repo) + BodyTrace(ctx, chain, ci + 1, repo)
  }

  function CallTrace(call: ModuleCall, caller: Caller, chain: Chain, ci: nat, repo: Repo): seq<Event>
    decreases Room(caller, repo), 1, 0
  {
    match Resolve(call, caller, repo)
    case Miss(notes) => Notes(notes)
    case Hit(path, body) =>
      Notes(Instances(call, repo.cap).1) + InstanceTrace(call, caller, path, body, chain, ci, 0, repo)
  }

  function InstanceTrace(call: ModuleCall, caller: Caller, path: string, body: Body, chain: Chain, ci: nat, ii: nat, repo: Repo): seq<Event>
    requires ii <= |Instances(call, repo.cap).0| && |caller.stack| < repo.maxDepth
    decreases Room(caller, repo), 0, |Instances(call, repo.cap).0| - ii
  {
    var indices := Instances(call, repo.cap).0;
    if ii == |indices| then []
    else
      var ctx := Enter(call, caller, path, body, indices[ii]);
      var here := chain + [(ci, ii)];
      Emits(ctx, here) + BodyTrace(ctx, here, 0, repo)
      + InstanceTrace(call, caller, path, body, chain, ci, ii + 1, repo)
  }

  /** The row or the diagnostics of an event; a row that fails validation becomes TF1507. */
  function RowOf(e: Event): seq<Resource> {
    if e.Emit? && e.row.Some? then [e.row.value] else []
  }

  function CodeOf(e: Event): seq<Code> {
    match e
    case Note(code) => [code]
    case Emit(_, _, row) => if row.None? then [TF1507] else []
  }

  function RowsOf(trace: seq<Event>): seq<Resource> {
    if trace == [] then [] else RowOf(trace[0]) + RowsOf(trace[1..])
  }

  function CodesOf(trace: seq<Event>): seq<Code> {
    if trace == [] then [] else CodeOf(trace[0]) + CodesOf(trace[1..])
  }

  lemma {:induction false} TraceConcat(a: seq<Event>, b: seq<Event>)
    ensures RowsOf(a + b) == RowsOf(a) + RowsOf(b) && CodesOf(a + b) == CodesOf(a) + CodesOf(b)
    decreases |a|
  {
    hide RowOf, CodeOf;
    if a == [] {
      assert a + b == b;
    } else {
      assert (a + b)[0] == a[0] && (a + b)[1..] == a[1..] + b;
      TraceConcat(a[1..], b);
      ConcatAssoc(RowOf(a[0]), RowsOf(a[1..]), RowsOf(b));
      ConcatAssoc(CodeOf(a[0]), CodesOf(a[1..]), CodesOf(b));
    }
  }

  lemma {:induction false} NotesTrace(codes: seq<Code>)
    ensures RowsOf(Notes(codes)) == [] && CodesOf(Notes(codes)) == codes
    decreases |codes|
  {
    if codes != [] {
      assert Notes(codes)[0] == Note(codes[0]) && Notes(codes)[1..] == Notes(codes[1..]);
      NotesTrace(codes[1..]);
    }
  }

  // ---- the imperative expander ----------------------------------------------------------------

  /** Walk-time state: the modules being expanded, the diagnostics, and the emitted resources. */
  class Expansion {
    const repo: Repo
    var stack: seq<string>
    var diagnostics: seq<Code>
    var out: seq<Resource>

    constructor (repo: Repo)
      ensures this.repo == repo && stack == [] && diagnostics == [] && out == []
    {
      this.repo := repo;
      stack, diagnostics, out := [], [], [];
    }

    method ResolveModuleCall(call: ModuleCall, callerDir: string, ghost caller: Caller, depth: nat) returns (hit: Option<(string, Body)>)
      requires caller.dir == callerDir && caller.stack == stack && depth == |stack|
      modifies this`diagnostics
      ensures match Resolve(call, caller, repo)
              case Hit(path, body) => hit == Some((path, body)) && diagnostics == old(diagnostics)
              case Miss(notes) => hit == None && diagnostics == old(diagnostics) + notes
    {
      if depth >= repo.maxDepth {
        diagnostics := diagnostics + [TF1501];
        return None;
      }
      if !call.source.LocalSource? {
        return None;
      }
      var canonical := repo.resolve(callerDir, call.source.rel);
      if canonical.None? {
        diagnostics := diagnostics + [TF1502];
        return None;
      }
      var path := canonical.value;
      if path in stack {
        diagnostics := diagnostics + [TF1504];
        return None;
      }
      if path !in repo.registry {
        diagnostics := diagnostics + [TF1503];
        return None;
      }
      return Some((path, repo.registry[path]));
    }

    method CallInstances(call: ModuleCall) returns (indices: seq<Option<string>>)
      modifies this`diagnostics
      ensures indices == Instances(call, repo.cap).0 && diagnostics == old(diagnostics) + Instances(call, repo.cap).1
    {
      if call.countExpr.Some? {
        indices := InstancesForCount(call.countExpr.value);
      } else if call.forEachExpr.Some? {
        indices := InstancesForForEach(call.forEachExpr.value);
      } else {
        indices := [None];
      }
    }

    /** `instances_for_count`: the index range, unless it is empty, too long or unknown. */
    method InstancesForCount(e: Expr) returns (indices: seq<Option<string>>)
      modifies this`diagnostics
      ensures indices == CountInstances(e, repo.cap).0 && diagnostics == old(diagnostics) + CountInstances(e, repo.cap).1
    {
      if !e.Literal? || !e.v.Int? {
        return [None];
      }
      var n := e.v.n;
      if n <= 0 {
        return [];
      }
      if n > repo.cap {
        diagnostics := diagnostics + [TF1505];
        return [None];
      }
      indices := [];
      for i := 0 to n as int
        invariant indices == seq(i, k requires 0 <= k < i => Some(CountIndex(k)))
        invariant diagnostics == old(diagnostics)
      {
        indices := indices + [Some(CountIndex(i))];
      }
    }

    /** `instances_for_for_each`: one index per map key, or per string among the list items. */
    method InstancesForForEach(e: Expr) returns (indices: seq<Option<string>>)
      modifies this`diagnostics
      ensures indices == ForEachInstances(e, repo.cap).0 && diagnostics == old(diagnostics) + ForEachInstances(e, repo.cap).1
    {
      if !e.Literal? {
        return [None];
      }
      indices := [];
      match e.v {
        case Map(entries) =>
          if |entries| > repo.cap {
            diagnostics := diagnostics + [TF1505];
            return [None];
          }
          for i := 0 to |entries|
            invariant indices == KeyInstances(Keys(entries)[..i])
            invariant diagnostics == old(diagnostics)
          {
            indices := indices + [Some(KeyIndex(entries[i].key))];
          }
          assert Keys(entries)[..|entries|] == Keys(entries);
        case List(items) =>
          if |items| > repo.cap {
            diagnostics := diagnostics + [TF1505];
            return [None];
          }
          assert items[0..] == items;
          for i := 0 to |items|
            invariant indices + KeyInstances(StringItems(items[i..])) == KeyInstances(StringItems(items))
            invariant diagnostics == old(diagnostics)
          {
            assert items[i..][1..] == items[i + 1..];
            if items[i].Str? {
              KeyInstancesCons(items[i].s, StringItems(items[i + 1..]));
              ConcatAssoc(indices, [Some(KeyIndex(items[i].s))], KeyInstances(StringItems(items[i + 1..])));
              indices := indices + [Some(KeyIndex(items[i].s))];
            } else {
              assert [] + StringItems(items[i + 1..]) == StringItems(items[i + 1..]);
            }
          }
          assert indices + [] == indices;
        case _ =>
          indices := [None];
      }
    }

    /** The resources of one entered module body, each rewritten or dropped. */
    method EmitResources(ctx: Ctx, ghost chain: Chain)
      modifies this`out, this`diagnostics
      ensures out == old(out) + RowsOf(Emits(ctx, chain))
      ensures diagnostics == old(diagnostics) + CodesOf(Emits(ctx, chain))
    {
      var i := 0;
      ghost var all := Emits(ctx, chain);
      EmitsCount(ctx, chain);
      assert all[..0] == [] && RowsOf([]) == [] && CodesOf([]) == [];
      assert old(out) + [] == old(out) && old(diagnostics) + [] == old(diagnostics);
      hide RowsOf, CodesOf, Rewrite, Emits;
      while i < |ctx.body.resources|
        invariant 0 <= i <= |ctx.body.resources| == |all|
        invariant out == old(out) + RowsOf(all[..i])
        invariant diagnostics == old(diagnostics) + CodesOf(all[..i])
      {
        var row := Rewrite(ctx.body.resources[i], ctx.caller.prefix, ctx.inputs, ctx.caller.providers);
        EmitsNext(ctx, chain, i);
        ConcatAssoc(old(out), RowsOf(all[..i]), RowOf(all[i]));
        ConcatAssoc(old(diagnostics), CodesOf(all[..i]), CodeOf(all[i]));
        assert all[i] == Emit(chain, i, row);
        if row.Some? {
          out := out + [row.value];
        } else {
          diagnostics := diagnostics + [TF1507];
        }
        i := i + 1;
      }
      assert all[..i] == all;
    }

    /** `expand_module_call`: appends the flattened resources, leaves the stack as it was. */
    method ExpandModuleCall(call: ModuleCall, callerDir: string, parentPrefix: Prefix, parentProviders: ProviderMap,
                            depth: nat, ghost chain: Chain, ghost ci: nat)
      requires depth == |stack| && DistinctStrings(stack)
      modifies this
      ensures stack == old(stack)
      ensures var trace := CallTrace(call, Caller(callerDir, parentPrefix, parentProviders, stack), chain, ci, repo);
              out == old(out) + RowsOf(trace) && diagnostics == old(diagnostics) + CodesOf(trace)
      decreases if depth < repo.maxDepth then repo.maxDepth - depth else 0, 1
    {
      hide RowsOf, CodesOf, Notes, Emits, BodyTrace, Instances;
      ghost var caller := Caller(callerDir, parentPrefix, parentProviders, stack);
      ghost var out0, codes0 := out, diagnostics;
      var hit := ResolveModuleCall(call, callerDir, caller, depth);
      if hit.None? {
        NotesTrace(Resolve(call, caller, repo).notes);
        return;
      }
      var (path, body) := hit.value;
      var providers := MergeProviderMaps(parentProviders, call.providers);
      var indices := CallInstances(call);
      ghost var trace := Notes(Instances(call, repo.cap).1);
      NotesTrace(Instances(call, repo.cap).1);
      var ii := 0;
      while ii < |indices|
        invariant 0 <= ii <= |indices| && stack == old(stack)
        invariant CallTrace(call, caller, chain, ci, repo) == trace + InstanceTrace(call, caller, path, body, chain, ci, ii, repo)
        invariant out == out0 + RowsOf(trace) && diagnostics == codes0 + CodesOf(trace)
      {
        var ctx := Ctx(body, call.inputs,
                       Caller(body.dir, Step(parentPrefix, CallName(call), indices[ii]), providers, stack + [path]));
        assert ctx == Enter(call, caller, path, body, indices[ii]);
        ghost var here := chain + [(ci, ii)];
        ExpandInstance(ctx, path, depth, here);
        TraceConcat(trace, Emits(ctx, here) + BodyTrace(ctx, here, 0, repo));
        InstanceUnfolds(call, caller, path, body, chain, ci, ii, repo, trace);
        trace := trace + (Emits(ctx, here) + BodyTrace(ctx, here, 0, repo));
        ii := ii + 1;
      }
      assert trace + [] == trace;
    }

    /** One instance: the module is on the stack while its resources and nested calls are expanded. */
    method ExpandInstance(ctx: Ctx, path: string, depth: nat, ghost here: Chain)
      requires depth == |stack| < repo.maxDepth && DistinctStrings(stack + [path])
      requires ctx.caller.stack == stack + [path] && ctx.caller.dir == ctx.body.dir
      modifies this
      ensures stack == old(stack)
      ensures out == old(out) + RowsOf(Emits(ctx, here) + BodyTrace(ctx, here, 0, repo))
      ensures diagnostics == old(diagnostics) + CodesOf(Emits(ctx, here) + BodyTrace(ctx, here, 0, repo))
      decreases if depth < repo.maxDepth then repo.maxDepth - depth else 0, 0
    {
      hide RowsOf, CodesOf, Emits, CallTrace;
      stack := stack + [path];
      EmitResources(ctx, here);
      ghost var trace := Emits(ctx, here);
      ghost var out0, codes0 := old(out), old(diagnostics);
      var k := 0;
      while k < |ctx.body.modules|
        invariant 0 <= k <= |ctx.body.modules| && stack == ctx.caller.stack
        invariant Emits(ctx, here) + BodyTrace(ctx, here, 0, repo) == trace + BodyTrace(ctx, here, k, repo)
        invariant out == out0 + RowsOf(trace) && diagnostics == codes0 + CodesOf(trace)
      {
        var nested := ctx.body.modules[k];
        var substituted := nested.(inputs := SubstAttrs(nested.inputs, ctx.inputs));
        ghost var one := CallTrace(CallAt(ctx, k), ctx.caller, here, k, repo);
        ExpandModuleCall(substituted, ctx.body.dir, ctx.caller.prefix, ctx.caller.providers, depth + 1, here, k);
        TraceConcat(trace, one);
        ConcatAssoc(trace, one, BodyTrace(ctx, here, k + 1, repo));
        ConcatAssoc(out0, RowsOf(trace), RowsOf(one));
        ConcatAssoc(codes0, CodesOf(trace), CodesOf(one));
        trace := trace + one;
        k := k + 1;
      }
      assert trace + [] == trace;
      stack := stack[..|stack| - 1];
    }

    /** `flatten_modules` */
    method FlattenModules(parent: Body)
      requires stack == [] && out == []
      modifies this
      ensures stack == []
      ensures out == RowsOf(BodyTrace(RootCtx(parent), [], 0, repo))
      ensures diagnostics == old(diagnostics) + CodesOf(BodyTrace(RootCtx(parent), [], 0, repo))
    {
      hide CallTrace;
      ghost var ctx := RootCtx(parent);
      ghost var trace: seq<Event> := [];
      ghost var codes0 := diagnostics;
      var k := 0;
      while k < |parent.modules|
        invariant 0 <= k <= |parent.modules| && stack == []
        invariant BodyTrace(ctx, [], 0, repo) == trace + BodyTrace(ctx, [], k, repo)
        invariant out == RowsOf(trace) && diagnostics == codes0 + CodesOf(trace)
      {
        ghost var one := CallTrace(CallAt(ctx, k), ctx.caller, [], k, repo);
        SubstAttrsNothing(parent.modules[k].inputs);
        ExpandModuleCall(parent.modules[k], parent.dir, Root, [], 0, [], k);
        TraceConcat(trace, one);
        ConcatAssoc(trace, one, BodyTrace(ctx, [], k + 1, repo));
        ConcatAssoc(codes0, CodesOf(trace), CodesOf(one));
        trace := trace + one;
        k := k + 1;
      }
      assert trace + [] == trace;
    }
  }

  lemma OneEvent(e: Event)
    ensures RowsOf([e]) == RowOf(e) && CodesOf([e]) == CodeOf(e)
  {
    assert [e][1..] == [];
  }

  lemma EmitsCount(ctx: Ctx, chain: Chain)
    ensures |Emits(ctx, chain)| == |ctx.body.resources|
  {
  }

  lemma EmitsNext(ctx: Ctx, chain: Chain, i: nat)
    requires i < |ctx.body.resources|
    ensures var all := Emits(ctx, chain);
            && all[i] == Emit(chain, i, Rewrite(ctx.body.resources[i], ctx.caller.prefix, ctx.inputs, ctx.caller.providers))
            && RowsOf(all[..i + 1]) == RowsOf(all[..i]) + RowOf(all[i])
            && CodesOf(all[..i + 1]) == CodesOf(all[..i]) + CodeOf(all[i])
  {
    var all := Emits(ctx, chain);
    assert all[..i + 1] == all[..i] + [all[i]];
    TraceConcat(all[..i], [all[i]]);
    OneEvent(all[i]);
  }

  lemma InstanceUnfolds(call: ModuleCall, caller: Caller, path: string, body: Body, chain: Chain, ci: nat, ii: nat, repo: Repo,
                        before: seq<Event>)
    requires ii < |Instances(call, repo.cap).0| && |caller.stack| < repo.maxDepth
    ensures var ctx := Enter(call, caller, path, body, Instances(call, repo.cap).0[ii]);
            var here := chain + [(ci, ii)];
            (before + InstanceTrace(call, caller, path, body, chain, ci, ii, repo)
             == (before + (Emits(ctx, here) + BodyTrace(ctx, here, 0, repo)))
                + InstanceTrace(call, caller, path, body, chain, ci, ii + 1, repo))
  {
    var ctx := Enter(call, caller, path, body, Instances(call, repo.cap).0[ii]);
    var here := chain + [(ci, ii)];
    ConcatAssoc(before, Emits(ctx, here) + BodyTrace(ctx, here, 0, repo),
                InstanceTrace(call, caller, path, body, chain, ci, ii + 1, repo));
  }

  lemma SubstAttrsNothing(attrs: AttributeMap)
    ensures SubstAttrs(attrs, []) == attrs
  {
    forall i | 0 <= i < |attrs| { SubstNothing(attrs[i].val); }
  }
}
