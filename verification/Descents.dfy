/** The flattened rows, said of the bodies as they were written (`graph/expand.rs`): which calls a chain goes
    through, what each row has become on the way, and which complaints are raised. */
module Descents {
  import opened Ir
  import opened Addresses
  import opened Substitution
  import opened Expand
  import opened Unfolding
  import opened Indices

  // ---- chains of calls as written -------------------------------------------------------------

  /** The bodies a chain passes, the calls between them, the paths these resolve to, and the indices of the
      instances chosen. */
  datatype Descent = Descent(bodies: seq<Body>, calls: seq<ModuleCall>, paths: seq<string>, indices: seq<Option<string>>)

  /** One step down: a call of the body to a registered local module, and an instance of it. */
  ghost predicate Enters(body: Body, step: (nat, nat), call: ModuleCall, path: string, index: Option<string>, next: Body, repo: Repo) {
    && step.0 < |body.modules| && call == body.modules[step.0]
    && call.source.LocalSource? && repo.resolve(body.dir, call.source.rel) == Some(path)
    && path in repo.registry && next == repo.registry[path]
    && InstanceIndex(call.countExpr, call.forEachExpr, repo.cap, step.1, index)
  }

  /** The chain leads down from `start`, not deeper than allowed and into no module that is open already. */
  ghost predicate Follows(start: Body, open_: seq<string>, chain: Chain, d: Descent, repo: Repo) {
    && |d.calls| == |d.paths| == |d.indices| == |chain| && |d.bodies| == |chain| + 1 && d.bodies[0] == start
    && (chain == [] || |open_| + |chain| <= repo.maxDepth)
    && (forall k :: 0 <= k < |chain| ==> d.paths[k] !in open_ + d.paths[..k])
    && (forall k :: 0 <= k < |chain| ==>
          Enters(d.bodies[k], chain[k], d.calls[k], d.paths[k], d.indices[k], d.bodies[k + 1], repo))
  }

  function End(d: Descent): Body
    requires d.bodies != []
  {
    d.bodies[|d.bodies| - 1]
  }

  /** A call's name: its address without the leading `module.`. */
  function NameOf(call: ModuleCall): string {
    if "module." <= call.address then call.address[7..] else call.address
  }

  /** One `module.<name><index>.` per call, outermost first. */
  function Segments(calls: seq<ModuleCall>, indices: seq<Option<string>>): string
    requires |indices| == |calls|
    decreases |calls|
  {
    if calls == [] then ""
    else
      "module." + (NameOf(calls[0]) + (if indices[0].Some? then indices[0].value else "")
                   + ("." + Segments(calls[1..], indices[1..])))
  }

  /** What the innermost call that maps a provider's local name maps it to. */
  function Mapping(calls: seq<ModuleCall>, name: string): Option<ProviderRef>
    decreases |calls|
  {
    if calls == [] then None
    else
      match Mapping(calls[1..], name)
      case Some(p) => Some(p)
      case None => Find(calls[0].providers, name)
  }

  function Written(calls: seq<ModuleCall>): seq<AttributeMap> {
    seq(|calls|, k requires 0 <= k < |calls| => calls[k].inputs)
  }

  // ---- following a chain ----------------------------------------------------------------------

  function PrefixAfter(p: Prefix, calls: seq<ModuleCall>, indices: seq<Option<string>>): Prefix
    requires |indices| == |calls|
    decreases |calls|
  {
    if calls == [] then p else PrefixAfter(Step(p, CallName(calls[0]), indices[0]), calls[1..], indices[1..])
  }

  function ProvidersAfter(ps: ProviderMap, calls: seq<ModuleCall>): ProviderMap
    decreases |calls|
  {
    if calls == [] then ps else ProvidersAfter(MergeProviders(ps, calls[0].providers), calls[1..])
  }

  /** The context at the end of a chain, in terms of the calls on the way. */
  ghost predicate Arrives(ctx: Ctx, d: Descent, end: Ctx)
    requires |d.calls| == |d.indices| && d.bodies != []
  {
    && end.body == End(d) && end.caller.dir == end.body.dir
    && end.caller.stack == ctx.caller.stack + d.paths
    && end.caller.prefix == PrefixAfter(ctx.caller.prefix, d.calls, d.indices)
    && end.caller.providers == ProvidersAfter(ctx.caller.providers, d.calls)
  }

  function Rest(d: Descent): Descent
    requires d.bodies != [] && d.calls != [] && d.paths != [] && d.indices != []
  {
    Descent(d.bodies[1..], d.calls[1..], d.paths[1..], d.indices[1..])
  }

  /** A single step is taken exactly as written. */
  lemma StepEnters(ctx: Ctx, step: (nat, nat), call: ModuleCall, path: string, index: Option<string>, next: Body, repo: Repo)
    requires ctx.caller.dir == ctx.body.dir
    ensures |ctx.caller.stack| < repo.maxDepth && path !in ctx.caller.stack && Enters(ctx.body, step, call, path, index, next, repo)
            <==> && StepInto(ctx, step, repo).Some? && step.0 < |ctx.body.modules| && call == ctx.body.modules[step.0]
                 && Resolve(CallAt(ctx, step.0), ctx.caller, repo) == Hit(path, next)
                 && StepInto(ctx, step, repo) == Some(Enter(CallAt(ctx, step.0), ctx.caller, path, next, index))
  {
    hide InstanceIndex, Instances;
    if step.0 < |ctx.body.modules| {
      var at := CallAt(ctx, step.0);
      InstancesAre(at, repo.cap, step.1, index);
      assert Enter(at, ctx.caller, path, next, index).caller.prefix.index == index;
    }
  }

  lemma FirstStep(ctx: Ctx, chain: Chain, d: Descent, repo: Repo) returns (next: Ctx)
    requires chain != [] && ctx.caller.dir == ctx.body.dir && Follows(ctx.body, ctx.caller.stack, chain, d, repo)
    ensures StepInto(ctx, chain[0], repo) == Some(next) && chain[0].0 < |ctx.body.modules|
    ensures next.body == d.bodies[1] && next.caller.dir == next.body.dir
    ensures next.caller == Caller(next.body.dir, Step(ctx.caller.prefix, CallName(d.calls[0]), d.indices[0]),
                                  MergeProviders(ctx.caller.providers, d.calls[0].providers), ctx.caller.stack + [d.paths[0]])
    ensures d.calls[0] == ctx.body.modules[chain[0].0]
  {
    var call, path, index := d.calls[0], d.paths[0], d.indices[0];
    assert Enters(d.bodies[0], chain[0], call, path, index, d.bodies[1], repo);
    assert d.paths[0] !in ctx.caller.stack + d.paths[..0];
    hide StepInto, Resolve;
    StepEnters(ctx, chain[0], call, path, index, d.bodies[1], repo);
    next := StepInto(ctx, chain[0], repo).value;
  }

  lemma ArrivesFirst(ctx: Ctx, d: Descent, next: Ctx, end: Ctx)
    requires |d.calls| == |d.indices| == |d.paths| && d.calls != [] && |d.bodies| > 1
    requires next.caller == Caller(next.body.dir, Step(ctx.caller.prefix, CallName(d.calls[0]), d.indices[0]),
                                   MergeProviders(ctx.caller.providers, d.calls[0].providers), ctx.caller.stack + [d.paths[0]])
    requires Arrives(next, Rest(d), end)
    ensures Arrives(ctx, d, end)
  {
    assert ctx.caller.stack + [d.paths[0]] + d.paths[1..] == ctx.caller.stack + d.paths;
    hide MergeProviders, CallName;
  }

  lemma {:induction false} FollowsWalks(ctx: Ctx, chain: Chain, d: Descent, repo: Repo)
    requires ctx.caller.dir == ctx.body.dir && Follows(ctx.body, ctx.caller.stack, chain, d, repo)
    ensures Walk(ctx, chain, repo).Some? && Arrives(ctx, d, Walk(ctx, chain, repo).value)
    ensures LevelInputs(ctx, chain, repo) == Written(d.calls)
    decreases |chain|
  {
    if chain == [] {
      assert ctx.caller.stack + d.paths == ctx.caller.stack;
    } else {
      var next := FirstStep(ctx, chain, d, repo);
      FollowsRest(ctx.body, ctx.caller.stack, chain, d, repo);
      assert Written(d.calls) == [d.calls[0].inputs] + Written(d.calls[1..]);
      hide StepInto, Enters, Arrives, MergeProviders;
      FollowsWalks(next, chain[1..], Rest(d), repo);
      ArrivesFirst(ctx, d, next, Walk(ctx, chain, repo).value);
    }
  }

  lemma FollowsRest(start: Body, open_: seq<string>, chain: Chain, d: Descent, repo: Repo)
    requires chain != [] && Follows(start, open_, chain, d, repo)
    ensures Follows(d.bodies[1], open_ + [d.paths[0]], chain[1..], Rest(d), repo)
  {
    hide Enters;
    var r := Rest(d);
    forall k | 0 <= k < |chain| - 1
      ensures r.paths[k] !in (open_ + [d.paths[0]]) + r.paths[..k]
      ensures Enters(r.bodies[k], chain[1..][k], r.calls[k], r.paths[k], r.indices[k], r.bodies[k + 1], repo)
    {
      assert d.paths[k + 1] !in open_ + d.paths[..k + 1];
      assert d.paths[..k + 1] == [d.paths[0]] + r.paths[..k];
      assert Enters(d.bodies[k + 1], chain[k + 1], d.calls[k + 1], d.paths[k + 1], d.indices[k + 1], d.bodies[k + 2], repo);
    }
  }

  lemma FollowsFirst(start: Body, open_: seq<string>, chain: Chain, d: Descent, rest: Descent, repo: Repo)
    requires chain != [] && d.bodies != [] && d.calls != [] && d.paths != [] && d.indices != [] && rest == Rest(d)
    requires d.bodies[0] == start && |open_| < repo.maxDepth && d.paths[0] !in open_ && |d.bodies| > 1
    requires Enters(start, chain[0], d.calls[0], d.paths[0], d.indices[0], d.bodies[1], repo)
    requires Follows(d.bodies[1], open_ + [d.paths[0]], chain[1..], rest, repo)
    ensures Follows(start, open_, chain, d, repo)
  {
    hide Enters;
    forall k | 0 <= k < |chain|
      ensures d.paths[k] !in open_ + d.paths[..k]
      ensures Enters(d.bodies[k], chain[k], d.calls[k], d.paths[k], d.indices[k], d.bodies[k + 1], repo)
    {
      if k > 0 {
        assert rest.paths[k - 1] !in (open_ + [d.paths[0]]) + rest.paths[..k - 1];
        assert d.paths[..k] == [d.paths[0]] + rest.paths[..k - 1];
        assert Enters(rest.bodies[k - 1], chain[1..][k - 1], rest.calls[k - 1], rest.paths[k - 1], rest.indices[k - 1], rest.bodies[k], repo);
      }
    }
  }

  /** Every valid chain is such a descent. */
  lemma {:induction false} WalkFollows(ctx: Ctx, chain: Chain, repo: Repo) returns (d: Descent)
    requires ctx.caller.dir == ctx.body.dir && Walk(ctx, chain, repo).Some?
    ensures Follows(ctx.body, ctx.caller.stack, chain, d, repo)
    decreases |chain|
  {
    if chain == [] {
      d := Descent([ctx.body], [], [], []);
    } else {
      var next := StepInto(ctx, chain[0], repo).value;
      var call := ctx.body.modules[chain[0].0];
      var hit := Resolve(CallAt(ctx, chain[0].0), ctx.caller, repo);
      var index := next.caller.prefix.index;
      StepEnters(ctx, chain[0], call, hit.path, index, hit.body, repo);
      hide StepInto, Enters, Resolve;
      var rest := WalkFollows(next, chain[1..], repo);
      d := Descent([ctx.body] + rest.bodies, [call] + rest.calls, [hit.path] + rest.paths, [index] + rest.indices);
      FollowsFirst(ctx.body, ctx.caller.stack, chain, d, rest, repo);
    }
  }

  // ---- the row at the end ---------------------------------------------------------------------

  lemma {:induction false} PrefixedAfter(address: string, p: Prefix, calls: seq<ModuleCall>, indices: seq<Option<string>>)
    requires |indices| == |calls|
    ensures Prefixed(address, PrefixAfter(p, calls, indices)) == Prefixed(Segments(calls, indices) + address, p)
    ensures calls != [] ==> PrefixAfter(p, calls, indices).Step?
    decreases |calls|
  {
    if calls == [] {
      assert Segments(calls, indices) + address == address;
    } else {
      var step := Step(p, CallName(calls[0]), indices[0]);
      PrefixedAfter(address, step, calls[1..], indices[1..]);
      var below := Segments(calls[1..], indices[1..]) + address;
      PrefixedStep(below, step);
      var seg := NameOf(calls[0]) + (if indices[0].Some? then indices[0].value else "");
      assert StepSegment(step) == seg;
      hide Prefixed;
      SegmentsCons(calls, indices, address, seg);
    }
  }

  lemma SegmentsCons(calls: seq<ModuleCall>, indices: seq<Option<string>>, address: string, seg: string)
    requires |indices| == |calls| && calls != [] && seg == NameOf(calls[0]) + (if indices[0].Some? then indices[0].value else "")
    ensures Segments(calls, indices) + address == MODULE + (seg + ("." + (Segments(calls[1..], indices[1..]) + address)))
  {
    var tail := Segments(calls[1..], indices[1..]);
    assert Segments(calls, indices) == "module." + (seg + ("." + tail));
    ThreeParts("module.", seg, tail, address);
  }

  lemma ThreeParts(a: string, b: string, c: string, d: string)
    ensures (a + (b + ("." + c))) + d == a + (b + ("." + (c + d)))
  {
  }

  lemma {:induction false} MappingAfter(ps: ProviderMap, calls: seq<ModuleCall>, name: string)
    requires forall k :: 0 <= k < |calls| ==> DistinctKeys(calls[k].providers)
    ensures Find(ProvidersAfter(ps, calls), name) ==
            match Mapping(calls, name) case Some(p) => Some(p) case None => Find(ps, name)
    decreases |calls|
  {
    if calls != [] {
      forall k | 0 <= k < |calls| - 1 ensures DistinctKeys(calls[1..][k].providers) {}
      MappingAfter(MergeProviders(ps, calls[0].providers), calls[1..], name);
      MergedProvider(ps, calls[0].providers, name);
    }
  }

  /** An expression has been substituted by the inputs of every call on the way, innermost first. */
  ghost predicate Inherited(e: Expr, out: Expr, levels: seq<AttributeMap>) {
    && out == Subst(e, ComposedInputs(levels))
    && (ClosedOutwards(e, levels) ==> out == SubstOutwards(e, levels))
  }

  ghost predicate InheritedOption(e: Option<Expr>, out: Option<Expr>, levels: seq<AttributeMap>) {
    if e.Some? then out.Some? && Inherited(e.value, out.value, levels) else out.None?
  }

  ghost predicate InheritedAttributes(attrs: AttributeMap, out: AttributeMap, levels: seq<AttributeMap>) {
    |out| == |attrs| && forall i :: 0 <= i < |attrs| ==> out[i].key == attrs[i].key && Inherited(attrs[i].val, out[i].val, levels)
  }

  /** The provider the innermost call dictates, if one does. */
  ghost predicate Provided(src: Option<ProviderRef>, out: Option<ProviderRef>, calls: seq<ModuleCall>) {
    if src.None? then out.None?
    else
      out.Some? && ((forall k :: 0 <= k < |calls| ==> DistinctKeys(calls[k].providers)) ==>
                      out.value == match Mapping(calls, src.value.localName) case Some(p) => p case None => src.value)
  }

  /** What a resource has become at the end of a descent: behind one segment per call, its expressions
      substituted, its provider rewritten, everything else as it was; or nothing, if the address does not
      validate. */
  ghost predicate Becomes(src: Resource, d: Descent, row: Option<Resource>)
    requires |d.calls| == |d.indices|
  {
    var address := Segments(d.calls, d.indices) + src.address;
    && (row.Some? <==> d.calls == [] || ValidAddress(address))
    && (row.Some? ==>
          var levels, out := Written(d.calls), row.value;
          && out.address == address
          && out.kind == src.kind && out.typeName == src.typeName && out.name == src.name && out.dependsOn == src.dependsOn
          && InheritedAttributes(src.attributes, out.attributes, levels)
          && InheritedOption(src.countExpr, out.countExpr, levels)
          && InheritedOption(src.forEachExpr, out.forEachExpr, levels)
          && Provided(src.providerRef, out.providerRef, d.calls))
  }

  lemma ExpressionInherits(e: Expr, levels: seq<AttributeMap>)
    ensures Inherited(e, Subst(e, ComposedInputs(levels)), levels)
  {
    if ClosedOutwards(e, levels) { NestedInputsCompose(e, levels); }
  }

  lemma ProviderInherits(ref: ProviderRef, calls: seq<ModuleCall>)
    ensures Provided(Some(ref), Some(RewriteProvider(ref, ProvidersAfter([], calls))), calls)
  {
    if forall k :: 0 <= k < |calls| ==> DistinctKeys(calls[k].providers) { MappingAfter([], calls, ref.localName); }
  }

  lemma AttributesInherit(attrs: AttributeMap, levels: seq<AttributeMap>)
    ensures InheritedAttributes(attrs, SubstAttrs(attrs, ComposedInputs(levels)), levels)
  {
    hide Inherited;
    forall i | 0 <= i < |attrs| ensures Inherited(attrs[i].val, Subst(attrs[i].val, ComposedInputs(levels)), levels) {
      ExpressionInherits(attrs[i].val, levels);
    }
  }

  lemma RowBecomes(src: Resource, d: Descent, end: Ctx)
    requires |d.calls| == |d.indices| && end.inputs == ComposedInputs(Written(d.calls))
    requires end.caller.prefix == PrefixAfter(Root, d.calls, d.indices) && end.caller.providers == ProvidersAfter([], d.calls)
    ensures Becomes(src, d, Rewrite(src, end.caller.prefix, end.inputs, end.caller.providers))
  {
    var levels := Written(d.calls);
    PrefixedAfter(src.address, Root, d.calls, d.indices);
    assert d.calls == [] ==> Segments(d.calls, d.indices) + src.address == src.address;
    hide Inherited, InheritedAttributes, Provided, ValidAddress, Prefixed, Segments, ComposedInputs, ProvidersAfter, RewriteProvider, SubstAttrs;
    if src.providerRef.Some? { ProviderInherits(src.providerRef.value, d.calls); }
    if src.countExpr.Some? { ExpressionInherits(src.countExpr.value, levels); }
    if src.forEachExpr.Some? { ExpressionInherits(src.forEachExpr.value, levels); }
    AttributesInherit(src.attributes, levels);
    assert src.providerRef.None? ==> Provided(None, None, d.calls) by { NothingProvided(d.calls); }
  }

  lemma NothingProvided(calls: seq<ModuleCall>)
    ensures Provided(None, None, calls)
  {
  }

  /** Whatever is emitted comes from a descent and has become what the calls on it say. */
  lemma EmittedRow(parent: Body, repo: Repo, e: Event) returns (d: Descent)
    requires e in BodyTrace(RootCtx(parent), [], 0, repo) && e.Emit?
    ensures e.chain != [] && Follows(parent, [], e.chain, d, repo)
    ensures e.ri < |End(d).resources| && Becomes(End(d).resources[e.ri], d, e.row)
  {
    var root := RootCtx(parent);
    FlattenIsUnfolding(parent, repo, e.chain, e.ri, e.row);
    hide BodyTrace, Follows, Becomes;
    d := WalkFollows(root, e.chain, repo);
    RowAtEnd(parent, e.chain, d, e.ri, repo);
  }

  lemma RowAtEnd(parent: Body, chain: Chain, d: Descent, ri: nat, repo: Repo)
    requires Follows(parent, [], chain, d, repo)
    ensures Walk(RootCtx(parent), chain, repo).Some?
    ensures var end := Walk(RootCtx(parent), chain, repo).value;
            end.body == End(d) && (ri < |End(d).resources| ==> Becomes(End(d).resources[ri], d, RowAt(end, ri)))
  {
    var root := RootCtx(parent);
    FollowsWalks(root, chain, d, repo);
    ChainInputs(root, [], chain, repo);
    assert [] + Written(d.calls) == Written(d.calls);
    var end := Walk(root, chain, repo).value;
    hide Walk, Becomes, Follows;
    if ri < |End(d).resources| { RowBecomes(End(d).resources[ri], d, end); }
  }

  /** And every resource at the end of a descent is emitted. */
  lemma DescentIsEmitted(parent: Body, chain: Chain, d: Descent, ri: nat, repo: Repo) returns (row: Option<Resource>)
    requires chain != [] && Follows(parent, [], chain, d, repo) && ri < |End(d).resources|
    ensures Emit(chain, ri, row) in BodyTrace(RootCtx(parent), [], 0, repo)
    ensures Becomes(End(d).resources[ri], d, row)
  {
    RowAtEnd(parent, chain, d, ri, repo);
    row := RowAt(Walk(RootCtx(parent), chain, repo).value, ri);
    FlattenIsUnfolding(parent, repo, chain, ri, row);
  }

  // ---- what is handed over --------------------------------------------------------------------

  function RowIn(e: Event): Option<Resource> {
    match e case Note(_) => None case Emit(_, _, row) => row
  }

  /** A note, or the TF1507 of a row that was dropped. */
  function CodeIn(e: Event): Option<Code> {
    match e
    case Note(c) => Some(c)
    case Emit(_, _, row) => if row.None? then Some(TF1507) else None
  }

  function RowsIn(trace: seq<Event>): seq<Option<Resource>> {
    seq(|trace|, i requires 0 <= i < |trace| => RowIn(trace[i]))
  }

  function CodesIn(trace: seq<Event>): seq<Option<Code>> {
    seq(|trace|, i requires 0 <= i < |trace| => CodeIn(trace[i]))
  }

  lemma {:induction false} RowsOutput(trace: seq<Event>)
    ensures RowsOf(trace) == Present(RowsIn(trace))
    decreases |trace|
  {
    if trace == [] {
      assert RowsIn(trace) == [];
    } else {
      RowsOutput(trace[1..]);
      PresentCons(RowsIn(trace));
      hide Present;
      assert RowsIn(trace)[1..] == RowsIn(trace[1..]);
      assert One(RowsIn(trace)[0]) == RowOf(trace[0]);
    }
  }

  lemma {:induction false} CodesOutput(trace: seq<Event>)
    ensures CodesOf(trace) == Present(CodesIn(trace))
    decreases |trace|
  {
    if trace == [] {
      assert CodesIn(trace) == [];
    } else {
      CodesOutput(trace[1..]);
      PresentCons(CodesIn(trace));
      hide Present;
      assert CodesIn(trace)[1..] == CodesIn(trace[1..]);
      assert One(CodesIn(trace)[0]) == CodeOf(trace[0]);
    }
  }

  /** The output is the rows of the events that have one, in their order; the diagnostics are the notes, and a
      TF1507 for every row that was dropped, in theirs. */
  lemma OutputInOrder(trace: seq<Event>) returns (rows: seq<nat>, codes: seq<nat>)
    ensures Ascends(rows) && |rows| == |RowsOf(trace)|
    ensures forall i: nat :: i in rows <==> i < |trace| && RowIn(trace[i]).Some?
    ensures forall k :: 0 <= k < |rows| ==> rows[k] < |trace| && Some(RowsOf(trace)[k]) == RowIn(trace[rows[k]])
    ensures Ascends(codes) && |codes| == |CodesOf(trace)|
    ensures forall i: nat :: i in codes <==> i < |trace| && CodeIn(trace[i]).Some?
    ensures forall k :: 0 <= k < |codes| ==> codes[k] < |trace| && Some(CodesOf(trace)[k]) == CodeIn(trace[codes[k]])
  {
    RowsOutput(trace);
    CodesOutput(trace);
    rows := PresentAre(RowsIn(trace));
    codes := PresentAre(CodesIn(trace));
    hide RowIn, CodeIn, Present, RowsOf, CodesOf, Ascends;
  }

  // ---- complaints -----------------------------------------------------------------------------

  /** What is wrong with a call made from directory `dir` while the modules at `open_` are being expanded: too
      deep, unknown path, already open, not registered, or too many instances. A module from elsewhere is
      passed over. */
  function Complaint(call: ModuleCall, dir: string, open_: seq<string>, repo: Repo): Option<Code> {
    if |open_| >= repo.maxDepth then Some(TF1501)
    else if !call.source.LocalSource? then None
    else
      match repo.resolve(dir, call.source.rel)
      case None => Some(TF1502)
      case Some(path) =>
        if path in open_ then Some(TF1504)
        else if path !in repo.registry then Some(TF1503)
        else if BeyondCap(call.countExpr, call.forEachExpr, repo.cap) then Some(TF1505)
        else None
  }

  function CallCodes(call: ModuleCall, caller: Caller, repo: Repo): seq<Code> {
    match Resolve(call, caller, repo)
    case Miss(notes) => notes
    case Hit(_, _) => Instances(call, repo.cap).1
  }

  lemma CallComplains(call: ModuleCall, caller: Caller, repo: Repo)
    ensures CallCodes(call, caller, repo) ==
            match Complaint(call, caller.dir, caller.stack, repo) case Some(c) => [c] case None => []
  {
    InstancesComplain(call, repo.cap);
    hide Instances, BeyondCap;
  }

  /** The `k`-th call of the body at the end of the walk raises `c`. */
  ghost predicate Noted(ctx: Ctx, suffix: Chain, k: nat, c: Code, repo: Repo) {
    && Walk(ctx, suffix, repo).Some?
    && var end := Walk(ctx, suffix, repo).value;
       k < |end.body.modules| && c in CallCodes(CallAt(end, k), end.caller, repo)
  }

  lemma NotesMember(codes: seq<Code>, c: Code)
    ensures Note(c) in Notes(codes) <==> c in codes
  {
    if c in codes {
      var i :| 0 <= i < |codes| && codes[i] == c;
      assert Notes(codes)[i] == Note(c);
    }
  }

  lemma NotedBelow(ctx: Ctx, step: (nat, nat), next: Ctx, rest: Chain, k: nat, c: Code, repo: Repo)
    requires StepInto(ctx, step, repo) == Some(next)
    ensures Noted(next, rest, k, c, repo) <==> Noted(ctx, [step] + rest, k, c, repo)
  {
    hide StepInto, CallCodes, CallAt;
    WalkStep(ctx, step, rest, repo);
  }

  lemma {:induction false} BodyNote(ctx: Ctx, chain: Chain, ci: nat, repo: Repo, c: Code) returns (suffix: Chain, k: nat)
    requires ci <= |ctx.body.modules| && Note(c) in BodyTrace(ctx, chain, ci, repo)
    ensures Noted(ctx, suffix, k, c, repo)
    decreases Room(ctx.caller, repo), 2, |ctx.body.modules| - ci
  {
    var call := CallAt(ctx, ci);
    if Note(c) in CallTrace(call, ctx.caller, chain, ci, repo) {
      suffix, k := [], ci;
      match Resolve(call, ctx.caller, repo)
      case Miss(notes) =>
        NotesMember(notes, c);
      case Hit(path, body) =>
        NotesMember(Instances(call, repo.cap).1, c);
        if c !in Instances(call, repo.cap).1 {
          suffix, k := InstanceNote(ctx, path, body, chain, ci, 0, repo, c);
        }
    } else {
      suffix, k := BodyNote(ctx, chain, ci + 1, repo, c);
    }
  }

  lemma {:induction false} InstanceNote(ctx: Ctx, path: string, body: Body, chain: Chain, ci: nat, ii: nat, repo: Repo, c: Code)
    returns (suffix: Chain, k: nat)
    requires ci < |ctx.body.modules| && Resolve(CallAt(ctx, ci), ctx.caller, repo) == Hit(path, body)
    requires ii <= |Instances(CallAt(ctx, ci), repo.cap).0|
    requires Note(c) in InstanceTrace(CallAt(ctx, ci), ctx.caller, path, body, chain, ci, ii, repo)
    ensures Noted(ctx, suffix, k, c, repo)
    decreases Room(ctx.caller, repo), 0, |Instances(CallAt(ctx, ci), repo.cap).0| - ii
  {
    hide BodyTrace, CallAt, Instances, RowAt, Walk, Noted;
    var call := CallAt(ctx, ci);
    var here := chain + [(ci, ii)];
    var next := Enter(call, ctx.caller, path, body, Instances(call, repo.cap).0[ii]);
    assert StepInto(ctx, (ci, ii), repo) == Some(next);
    assert Note(c) !in Emits(next, here);
    if Note(c) in BodyTrace(next, here, 0, repo) {
      EnterShrinks(call, ctx.caller, path, body, Instances(call, repo.cap).0[ii], repo);
      var rest;
      rest, k := BodyNote(next, here, 0, repo, c);
      suffix := [(ci, ii)] + rest;
      NotedBelow(ctx, (ci, ii), next, rest, k, c, repo);
    } else {
      suffix, k := InstanceNote(ctx, path, body, chain, ci, ii + 1, repo, c);
    }
  }

  lemma {:induction false} BodyRaises(ctx: Ctx, chain: Chain, ci: nat, suffix: Chain, k: nat, c: Code, repo: Repo)
    requires Noted(ctx, suffix, k, c, repo) && ci <= (if suffix == [] then k else suffix[0].0)
    ensures ci <= |ctx.body.modules| && Note(c) in BodyTrace(ctx, chain, ci, repo)
    decreases Room(ctx.caller, repo), 2, |ctx.body.modules| - ci
  {
    var at := if suffix == [] then k else suffix[0].0;
    if suffix != [] { assert StepInto(ctx, suffix[0], repo).Some?; }
    assert at < |ctx.body.modules|;
    if ci < at {
      BodyRaises(ctx, chain, ci + 1, suffix, k, c, repo);
    } else {
      var call := CallAt(ctx, ci);
      if suffix == [] {
        NotesMember(CallCodes(call, ctx.caller, repo), c);
      } else {
        var hit := Resolve(call, ctx.caller, repo);
        InstanceRaises(ctx, hit.path, hit.body, chain, ci, 0, suffix, k, c, repo);
      }
    }
  }

  lemma {:induction false} InstanceRaises(ctx: Ctx, path: string, body: Body, chain: Chain, ci: nat, ii: nat, suffix: Chain, k: nat, c: Code, repo: Repo)
    requires ci < |ctx.body.modules| && Resolve(CallAt(ctx, ci), ctx.caller, repo) == Hit(path, body)
    requires suffix != [] && suffix[0].0 == ci && ii <= suffix[0].1 && Noted(ctx, suffix, k, c, repo)
    ensures ii <= |Instances(CallAt(ctx, ci), repo.cap).0|
    ensures Note(c) in InstanceTrace(CallAt(ctx, ci), ctx.caller, path, body, chain, ci, ii, repo)
    decreases Room(ctx.caller, repo), 0, |Instances(CallAt(ctx, ci), repo.cap).0| - ii
  {
    assert StepInto(ctx, suffix[0], repo).Some?;
    hide Emits, BodyTrace, Enter, CallAt, Instances, RowAt, Noted, Walk;
    var call := CallAt(ctx, ci);
    if ii < suffix[0].1 {
      InstanceRaises(ctx, path, body, chain, ci, ii + 1, suffix, k, c, repo);
    } else {
      var next := Enter(call, ctx.caller, path, body, Instances(call, repo.cap).0[ii]);
      assert suffix[0] == (ci, ii) && suffix == [suffix[0]] + suffix[1..];
      assert StepInto(ctx, suffix[0], repo) == Some(next);
      NotedBelow(ctx, suffix[0], next, suffix[1..], k, c, repo);
      EnterShrinks(call, ctx.caller, path, body, Instances(call, repo.cap).0[ii], repo);
      BodyRaises(next, chain + [(ci, ii)], 0, suffix[1..], k, c, repo);
    }
  }

  /** The `k`-th call of the body at the end of a descent is complained about. */
  ghost predicate Raises(parent: Body, chain: Chain, d: Descent, k: nat, c: Code, repo: Repo) {
    && Follows(parent, [], chain, d, repo) && k < |End(d).modules|
    && Complaint(End(d).modules[k], End(d).dir, d.paths, repo) == Some(c)
  }

  lemma NotedIsRaised(parent: Body, chain: Chain, d: Descent, k: nat, c: Code, repo: Repo)
    requires Follows(parent, [], chain, d, repo)
    ensures Noted(RootCtx(parent), chain, k, c, repo) <==> Raises(parent, chain, d, k, c, repo)
  {
    var root := RootCtx(parent);
    FollowsWalks(root, chain, d, repo);
    var end := Walk(root, chain, repo).value;
    assert [] + d.paths == d.paths;
    assert end.body == End(d) && end.caller.dir == End(d).dir && end.caller.stack == d.paths;
    hide Walk, Follows, CallCodes, Arrives, PrefixAfter, ProvidersAfter, Complaint;
    if k < |end.body.modules| {
      CallComplains(CallAt(end, k), end.caller, repo);
      SameComplaint(end.body.modules[k], CallAt(end, k), end.caller, repo);
    }
  }

  /** Inputs have no say in it. */
  lemma SameComplaint(a: ModuleCall, b: ModuleCall, caller: Caller, repo: Repo)
    requires b == a.(inputs := b.inputs)
    ensures Complaint(a, caller.dir, caller.stack, repo) == Complaint(b, caller.dir, caller.stack, repo)
  {
  }

  /** A code is noted exactly when it is the complaint about a call at the end of some descent, the component's
      own calls included. */
  lemma NotedExactly(parent: Body, c: Code, repo: Repo)
    ensures Note(c) in BodyTrace(RootCtx(parent), [], 0, repo) <==>
            exists chain, d, k :: Raises(parent, chain, d, k, c, repo)
  {
    var root := RootCtx(parent);
    if Note(c) in BodyTrace(root, [], 0, repo) {
      var chain, k := BodyNote(root, [], 0, repo, c);
      var d := WalkFollows(root, chain, repo);
      hide Noted, Raises, Follows;
      NotedIsRaised(parent, chain, d, k, c, repo);
    }
    if chain, d, k :| Raises(parent, chain, d, k, c, repo) {
      NotedIsRaised(parent, chain, d, k, c, repo);
      hide Noted, Raises, Follows;
      BodyRaises(root, [], 0, chain, k, c, repo);
    }
  }
}
