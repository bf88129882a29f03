/** What module flattening produces, said without reference to the traversal: one row per resource of
    every valid call chain, in depth-first order, and never more than the limits allow. */
module Unfolding {
  import opened Ir
  import opened Seqs
  import opened Addresses
  import opened Substitution
  import opened Expand

  // ---- soundness and completeness -------------------------------------------------------------

  /** The rows below a context along a chain suffix. */
  ghost predicate RowAlong(ctx: Ctx, suffix: Chain, ri: nat, row: Option<Resource>, repo: Repo) {
    && Walk(ctx, suffix, repo).Some?
    && ri < |Walk(ctx, suffix, repo).value.body.resources|
    && row == RowAt(Walk(ctx, suffix, repo).value, ri)
  }

  lemma WalkStep(ctx: Ctx, step: (nat, nat), rest: Chain, repo: Repo)
    ensures Walk(ctx, [step] + rest, repo) ==
            match StepInto(ctx, step, repo) case None => None case Some(next) => Walk(next, rest, repo)
  {
    assert ([step] + rest)[1..] == rest;
  }

  /** Every emitted row sits at the end of a valid chain through call `ci` or a later one. */
  lemma {:induction false} BodySound(ctx: Ctx, chain: Chain, ci: nat, repo: Repo, e: Event)
    requires ci <= |ctx.body.modules| && e in BodyTrace(ctx, chain, ci, repo) && e.Emit?
    ensures |chain| < |e.chain| && chain == e.chain[..|chain|] && e.chain[|chain|].0 >= ci
    ensures RowAlong(ctx, e.chain[|chain|..], e.ri, e.row, repo)
    decreases Room(ctx.caller, repo), 2, |ctx.body.modules| - ci
  {
    var call := CallAt(ctx, ci);
    if e in CallTrace(call, ctx.caller, chain, ci, repo) {
      match Resolve(call, ctx.caller, repo)
      case Miss(notes) =>
      case Hit(path, body) =>
        assert e in InstanceTrace(call, ctx.caller, path, body, chain, ci, 0, repo);
        InstanceSound(ctx, path, body, chain, ci, 0, repo, e);
    } else {
      BodySound(ctx, chain, ci + 1, repo, e);
    }
  }

  lemma {:induction false} InstanceSound(ctx: Ctx, path: string, body: Body, chain: Chain, ci: nat, ii: nat, repo: Repo, e: Event)
    requires ci < |ctx.body.modules| && Resolve(CallAt(ctx, ci), ctx.caller, repo) == Hit(path, body)
    requires ii <= |Instances(CallAt(ctx, ci), repo.cap).0|
    requires e in InstanceTrace(CallAt(ctx, ci), ctx.caller, path, body, chain, ci, ii, repo) && e.Emit?
    ensures |chain| < |e.chain| && chain == e.chain[..|chain|] && e.chain[|chain|].0 == ci && e.chain[|chain|].1 >= ii
    ensures RowAlong(ctx, e.chain[|chain|..], e.ri, e.row, repo)
    decreases Room(ctx.caller, repo), 0, |Instances(CallAt(ctx, ci), repo.cap).0| - ii
  {
    hide Emits, BodyTrace, Enter, CallAt, Instances, RowAt, Walk;
    var call := CallAt(ctx, ci);
    var here := chain + [(ci, ii)];
    var next := Enter(call, ctx.caller, path, body, Instances(call, repo.cap).0[ii]);
    var rest := InstanceTrace(call, ctx.caller, path, body, chain, ci, ii + 1, repo);
    assert StepInto(ctx, (ci, ii), repo) == Some(next);
    if e in Emits(next, here) + BodyTrace(next, here, 0, repo) {
      EnterShrinks(call, ctx.caller, path, body, Instances(call, repo.cap).0[ii], repo);
      EnteredSound(next, here, repo, e);
      FrontAndStep(chain, (ci, ii), e.chain);
      WalkStep(ctx, (ci, ii), e.chain[|here|..], repo);
    } else {
      assert e in rest;
      InstanceSound(ctx, path, body, chain, ci, ii + 1, repo, e);
    }
  }

  lemma {:induction false} EnteredSound(next: Ctx, here: Chain, repo: Repo, e: Event)
    requires e in Emits(next, here) + BodyTrace(next, here, 0, repo) && e.Emit?
    ensures |here| <= |e.chain| && here == e.chain[..|here|]
    ensures RowAlong(next, e.chain[|here|..], e.ri, e.row, repo)
    decreases Room(next.caller, repo), 3, 0
  {
    if e in Emits(next, here) {
      assert e.chain == here && here[|here|..] == [];
    } else {
      BodySound(next, here, 0, repo, e);
    }
  }

  lemma FrontAndStep(chain: Chain, step: (nat, nat), full: Chain)
    requires |chain| < |full| && full[..|chain| + 1] == chain + [step]
    ensures full[..|chain|] == chain && full[|chain|] == step && full[|chain|..] == [step] + full[|chain| + 1..]
  {
    assert full[..|chain|] == full[..|chain| + 1][..|chain|];
    assert full[|chain|] == full[..|chain| + 1][|chain|];
  }

  /** Every resource at the end of a valid non-empty chain is emitted. */
  lemma {:induction false} BodyComplete(ctx: Ctx, chain: Chain, ci: nat, suffix: Chain, ri: nat, row: Option<Resource>, repo: Repo)
    requires suffix != [] && ci <= suffix[0].0 < |ctx.body.modules| && RowAlong(ctx, suffix, ri, row, repo)
    ensures Emit(chain + suffix, ri, row) in BodyTrace(ctx, chain, ci, repo)
    decreases Room(ctx.caller, repo), 2, |ctx.body.modules| - ci
  {
    if ci < suffix[0].0 {
      BodyComplete(ctx, chain, ci + 1, suffix, ri, row, repo);
    } else {
      var call := CallAt(ctx, ci);
      var hit := Resolve(call, ctx.caller, repo);
      InstanceComplete(ctx, hit.path, hit.body, chain, ci, 0, suffix, ri, row, repo);
    }
  }

  lemma {:induction false} InstanceComplete(ctx: Ctx, path: string, body: Body, chain: Chain, ci: nat, ii: nat, suffix: Chain, ri: nat, row: Option<Resource>, repo: Repo)
    requires ci < |ctx.body.modules| && Resolve(CallAt(ctx, ci), ctx.caller, repo) == Hit(path, body)
    requires suffix != [] && suffix[0].0 == ci && ii <= suffix[0].1 && RowAlong(ctx, suffix, ri, row, repo)
    ensures ii <= |Instances(CallAt(ctx, ci), repo.cap).0|
    ensures Emit(chain + suffix, ri, row) in InstanceTrace(CallAt(ctx, ci), ctx.caller, path, body, chain, ci, ii, repo)
    decreases Room(ctx.caller, repo), 0, |Instances(CallAt(ctx, ci), repo.cap).0| - ii
  {
    hide Emits, BodyTrace, Enter, CallAt, Instances, RowAt;
    var call := CallAt(ctx, ci);
    assert StepInto(ctx, suffix[0], repo).Some?;
    if ii < suffix[0].1 {
      InstanceComplete(ctx, path, body, chain, ci, ii + 1, suffix, ri, row, repo);
    } else {
      var next := Enter(call, ctx.caller, path, body, Instances(call, repo.cap).0[ii]);
      assert suffix[0] == (ci, ii) && suffix == [suffix[0]] + suffix[1..];
      WalkStep(ctx, suffix[0], suffix[1..], repo);
      assert StepInto(ctx, suffix[0], repo) == Some(next);
      assert chain + suffix == chain + [(ci, ii)] + suffix[1..];
      EnterShrinks(call, ctx.caller, path, body, Instances(call, repo.cap).0[ii], repo);
      EnteredComplete(next, chain + [(ci, ii)], suffix[1..], ri, row, repo);
    }
  }

  lemma EnterShrinks(call: ModuleCall, caller: Caller, path: string, body: Body, index: Option<string>, repo: Repo)
    requires Resolve(call, caller, repo) == Hit(path, body)
    ensures Room(Enter(call, caller, path, body, index).caller, repo) < Room(caller, repo)
  {
  }

  lemma {:induction false} EnteredComplete(next: Ctx, here: Chain, rest: Chain, ri: nat, row: Option<Resource>, repo: Repo)
    requires RowAlong(next, rest, ri, row, repo)
    ensures Emit(here + rest, ri, row) in Emits(next, here) + BodyTrace(next, here, 0, repo)
    decreases Room(next.caller, repo), 3, 0
  {
    if rest == [] {
      assert here + rest == here;
      assert Emits(next, here)[ri] == Emit(here, ri, row);
    } else {
      assert StepInto(next, rest[0], repo).Some?;
      BodyComplete(next, here, 0, rest, ri, row, repo);
    }
  }

  /** The flattened output is exactly the resources at the ends of the valid chains, each rewritten
      by the context its chain leads to. */
  lemma FlattenIsUnfolding(parent: Body, repo: Repo, chain: Chain, ri: nat, row: Option<Resource>)
    ensures Emit(chain, ri, row) in BodyTrace(RootCtx(parent), [], 0, repo) <==>
            chain != [] && RowAlong(RootCtx(parent), chain, ri, row, repo)
  {
    var root := RootCtx(parent);
    if Emit(chain, ri, row) in BodyTrace(root, [], 0, repo) {
      BodySound(root, [], 0, repo, Emit(chain, ri, row));
      assert chain[0..] == chain;
    }
    if chain != [] && RowAlong(root, chain, ri, row, repo) {
      assert StepInto(root, chain[0], repo).Some?;
      BodyComplete(root, [], 0, chain, ri, row, repo);
      assert [] + chain == chain;
    }
  }

  // ---- depth-first order ----------------------------------------------------------------------

  predicate StepLess(a: (nat, nat), b: (nat, nat)) {
    a.0 < b.0 || (a.0 == b.0 && a.1 < b.1)
  }

  /** Depth-first order on chains: a chain precedes its extensions, otherwise the first difference
      decides. */
  predicate ChainLess(a: Chain, b: Chain) {
    if b == [] then false
    else if a == [] then true
    else StepLess(a[0], b[0]) || (a[0] == b[0] && ChainLess(a[1..], b[1..]))
  }

  ghost predicate EventLess(a: Event, b: Event) {
    a.Emit? && b.Emit? ==> ChainLess(a.chain, b.chain) || (a.chain == b.chain && a.ri < b.ri)
  }

  ghost predicate InOrder(trace: seq<Event>) {
    forall i, j :: 0 <= i < j < |trace| ==> EventLess(trace[i], trace[j])
  }

  lemma InOrderConcat(a: seq<Event>, b: seq<Event>)
    requires InOrder(a) && InOrder(b) && forall x, y :: x in a && y in b ==> EventLess(x, y)
    ensures InOrder(a + b)
  {
    forall i, j | 0 <= i < j < |a + b| ensures EventLess((a + b)[i], (a + b)[j]) {
      if i < |a| <= j { assert a[i] in a && b[j - |a|] in b; }
    }
  }

  /** Chains with a common front compare by what follows it. */
  lemma {:induction false} ChainLessAfter(front: Chain, a: Chain, b: Chain)
    requires front <= a && front <= b && |front| < |b|
    requires |a| == |front| || StepLess(a[|front|], b[|front|])
    ensures ChainLess(a, b)
    decreases |front|
  {
    if front != [] { ChainLessAfter(front[1..], a[1..], b[1..]); }
  }

  lemma NotesInOrder(codes: seq<Code>, rest: seq<Event>)
    requires InOrder(rest)
    ensures InOrder(Notes(codes) + rest)
  {
    InOrderConcat(Notes(codes), rest);
  }

  lemma {:induction false} BodyInOrder(ctx: Ctx, chain: Chain, ci: nat, repo: Repo)
    requires ci <= |ctx.body.modules|
    ensures InOrder(BodyTrace(ctx, chain, ci, repo))
    decreases Room(ctx.caller, repo), 2, |ctx.body.modules| - ci
  {
    hide Emits, InstanceTrace, CallAt, Instances, EventLess;
    if ci < |ctx.body.modules| {
      var call := CallAt(ctx, ci);
      var first, rest := CallTrace(call, ctx.caller, chain, ci, repo), BodyTrace(ctx, chain, ci + 1, repo);
      BodyInOrder(ctx, chain, ci + 1, repo);
      match Resolve(call, ctx.caller, repo)
      case Miss(notes) =>
        NotesInOrder(notes, rest);
      case Hit(path, body) =>
        var notes := Notes(Instances(call, repo.cap).1);
        var inner := InstanceTrace(call, ctx.caller, path, body, chain, ci, 0, repo);
        InstancesInOrder(ctx, path, body, chain, ci, 0, repo);
        NotesInOrder(Instances(call, repo.cap).1, inner);
        forall x, y | x in first && y in rest ensures EventLess(x, y) {
          CallBeforeRest(ctx, path, body, chain, ci, repo, x, y);
        }
        InOrderConcat(first, rest);
    }
  }

  lemma CallBeforeRest(ctx: Ctx, path: string, body: Body, chain: Chain, ci: nat, repo: Repo, x: Event, y: Event)
    requires ci < |ctx.body.modules| && Resolve(CallAt(ctx, ci), ctx.caller, repo) == Hit(path, body)
    requires x in CallTrace(CallAt(ctx, ci), ctx.caller, chain, ci, repo) && y in BodyTrace(ctx, chain, ci + 1, repo)
    ensures EventLess(x, y)
  {
    hide Emits, BodyTrace, InstanceTrace, CallAt, Instances, RowAlong, ChainLess;
    if x.Emit? && y.Emit? {
      assert x in InstanceTrace(CallAt(ctx, ci), ctx.caller, path, body, chain, ci, 0, repo);
      InstanceSound(ctx, path, body, chain, ci, 0, repo, x);
      BodySound(ctx, chain, ci + 1, repo, y);
      ChainLessAfter(chain, x.chain, y.chain);
    }
  }

  lemma {:induction false} InstancesInOrder(ctx: Ctx, path: string, body: Body, chain: Chain, ci: nat, ii: nat, repo: Repo)
    requires ci < |ctx.body.modules| && Resolve(CallAt(ctx, ci), ctx.caller, repo) == Hit(path, body)
    requires ii <= |Instances(CallAt(ctx, ci), repo.cap).0|
    ensures InOrder(InstanceTrace(CallAt(ctx, ci), ctx.caller, path, body, chain, ci, ii, repo))
    decreases Room(ctx.caller, repo), 0, |Instances(CallAt(ctx, ci), repo.cap).0| - ii
  {
    var call := CallAt(ctx, ci);
    if ii < |Instances(call, repo.cap).0| {
      var here := chain + [(ci, ii)];
      var next := Enter(call, ctx.caller, path, body, Instances(call, repo.cap).0[ii]);
      var emits, nested := Emits(next, here), BodyTrace(next, here, 0, repo);
      var rest := InstanceTrace(call, ctx.caller, path, body, chain, ci, ii + 1, repo);
      BodyInOrder(next, here, 0, repo);
      InstancesInOrder(ctx, path, body, chain, ci, ii + 1, repo);
      forall x, y | x in emits && y in nested ensures EventLess(x, y) {
        if y.Emit? {
          BodySound(next, here, 0, repo, y);
          ChainLessAfter(here, x.chain, y.chain);
        }
      }
      InOrderConcat(emits, nested);
      forall x, y | x in emits + nested && y in rest ensures EventLess(x, y) {
        if x.Emit? && y.Emit? {
          InstanceSound(ctx, path, body, chain, ci, ii + 1, repo, y);
          if x in nested {
            BodySound(next, here, 0, repo, x);
          }
          assert here <= x.chain && x.chain[|chain|] == (ci, ii);
          assert chain <= x.chain && chain <= y.chain;
          ChainLessAfter(chain, x.chain, y.chain);
        }
      }
      InOrderConcat(emits + nested, rest);
    }
  }

  lemma {:induction false} ChainLessIrreflexive(c: Chain)
    ensures !ChainLess(c, c)
  {
    if c != [] { ChainLessIrreflexive(c[1..]); }
  }

  /** No resource of a chain is emitted twice. */
  ghost predicate EmittedOnce(trace: seq<Event>) {
    forall i, j :: 0 <= i < j < |trace| && trace[i].Emit? && trace[j].Emit? ==>
      trace[i].chain != trace[j].chain || trace[i].ri != trace[j].ri
  }

  lemma OrderedOnce(trace: seq<Event>)
    requires InOrder(trace)
    ensures EmittedOnce(trace)
  {
    hide ChainLess;
    forall i, j | 0 <= i < j < |trace| && trace[i].Emit? && trace[j].Emit?
      ensures trace[i].chain != trace[j].chain || trace[i].ri != trace[j].ri
    {
      assert EventLess(trace[i], trace[j]);
      ChainLessIrreflexive(trace[i].chain);
    }
  }

  /** Rows come out in depth-first order of their chains, and within a module in source order; so no
      resource of a chain is emitted twice. */
  lemma FlattenInOrder(parent: Body, repo: Repo)
    ensures InOrder(BodyTrace(RootCtx(parent), [], 0, repo))
    ensures EmittedOnce(BodyTrace(RootCtx(parent), [], 0, repo))
  {
    BodyInOrder(RootCtx(parent), [], 0, repo);
    OrderedOnce(BodyTrace(RootCtx(parent), [], 0, repo));
  }

  // ---- the chains themselves ------------------------------------------------------------------

  /** A valid chain repeats no module, stays among the registered ones, and is as long as the stack
      it builds; it is no longer than the depth limit or the registry. */
  lemma {:induction false} ChainDiscipline(ctx: Ctx, chain: Chain, repo: Repo)
    requires DistinctStrings(ctx.caller.stack) && (forall p :: p in ctx.caller.stack ==> p in repo.registry)
    requires |ctx.caller.stack| <= repo.maxDepth && Walk(ctx, chain, repo).Some?
    ensures var stack := Walk(ctx, chain, repo).value.caller.stack;
            && DistinctStrings(stack) && (forall p :: p in stack ==> p in repo.registry)
            && ctx.caller.stack <= stack && |stack| == |ctx.caller.stack| + |chain| <= repo.maxDepth
            && |stack| <= |repo.registry|
    decreases |chain|
  {
    if chain == [] {
      DistinctInSet(ctx.caller.stack, repo.registry.Keys);
    } else {
      var next := StepInto(ctx, chain[0], repo).value;
      ChainDiscipline(next, chain[1..], repo);
    }
  }

  lemma {:induction false} DistinctInSet(s: seq<string>, bound: set<string>)
    requires DistinctStrings(s) && forall p :: p in s ==> p in bound
    ensures |s| <= |bound|
    decreases |s|
  {
    if s != [] {
      var front, last := s[..|s| - 1], s[|s| - 1];
      DistinctInSet(front, bound - {last});
    }
  }

  /** The inputs that reach a chain's end are the composition of the inputs written at its calls,
      so nested calls act as successive substitutions. */
  function LevelInputs(ctx: Ctx, chain: Chain, repo: Repo): seq<AttributeMap>
    requires Walk(ctx, chain, repo).Some?
    decreases |chain|
  {
    if chain == [] then []
    else [ctx.body.modules[chain[0].0].inputs] + LevelInputs(StepInto(ctx, chain[0], repo).value, chain[1..], repo)
  }

  lemma SteppedInputs(ctx: Ctx, step: (nat, nat), repo: Repo)
    requires StepInto(ctx, step, repo).Some?
    ensures step.0 < |ctx.body.modules|
    ensures StepInto(ctx, step, repo).value.inputs == SubstAttrs(ctx.body.modules[step.0].inputs, ctx.inputs)
  {
  }

  lemma {:induction false} ChainInputs(ctx: Ctx, levels: seq<AttributeMap>, chain: Chain, repo: Repo)
    requires Walk(ctx, chain, repo).Some? && ctx.inputs == ComposedInputs(levels)
    ensures Walk(ctx, chain, repo).value.inputs == ComposedInputs(levels + LevelInputs(ctx, chain, repo))
    decreases |chain|
  {
    if chain == [] {
      assert levels + [] == levels;
    } else {
      hide StepInto, SubstAttrs;
      SteppedInputs(ctx, chain[0], repo);
      var written := ctx.body.modules[chain[0].0].inputs;
      var next := StepInto(ctx, chain[0], repo).value;
      assert (levels + [written])[..|levels|] == levels;
      ChainInputs(next, levels + [written], chain[1..], repo);
      ConcatAssoc(levels, [written], LevelInputs(next, chain[1..], repo));
    }
  }

  lemma FlattenedInputs(parent: Body, chain: Chain, repo: Repo, e: Expr)
    requires Walk(RootCtx(parent), chain, repo).Some?
    requires ClosedOutwards(e, LevelInputs(RootCtx(parent), chain, repo))
    ensures Subst(e, Walk(RootCtx(parent), chain, repo).value.inputs) == SubstOutwards(e, LevelInputs(RootCtx(parent), chain, repo))
  {
    var written := LevelInputs(RootCtx(parent), chain, repo);
    ChainInputs(RootCtx(parent), [], chain, repo);
    assert [] + written == written;
    NestedInputsCompose(e, written);
  }

  // ---- which rows are dropped -----------------------------------------------------------------

  /** Addresses that were validated when the body was read. */
  ghost predicate Validated(body: Body) {
    && (forall i :: 0 <= i < |body.resources| ==> ValidAddress(body.resources[i].address))
    && (forall i :: 0 <= i < |body.modules| ==> ValidAddress(body.modules[i].address))
  }

  ghost predicate AllValidated(repo: Repo) {
    forall path :: path in repo.registry ==> Validated(repo.registry[path])
  }

  /** A prefix built from validated call addresses: names balanced and within the allowlist, indices
      balanced. */
  ghost predicate SoundPrefix(p: Prefix) {
    BalancedPrefix(p) && AllowedNames(p)
  }

  lemma CallNameIsSound(call: ModuleCall)
    requires ValidAddress(call.address)
    ensures Balanced(CallName(call)) && Allowed(CallName(call))
  {
    BalancedName(call.address);
  }

  lemma InstancesBalanced(call: ModuleCall, cap: nat)
    ensures forall i :: 0 <= i < |Instances(call, cap).0| && Instances(call, cap).0[i].Some? ==>
              Balanced(Instances(call, cap).0[i].value)
  {
    hide Balanced, CountIndex, KeyIndex;
    forall i: nat ensures Balanced(CountIndex(i)) { IndicesBalanced(i, ""); }
    forall key ensures Balanced(KeyIndex(key)) { IndicesBalanced(0, key); }
    forall keys: seq<string>, i | 0 <= i < |keys| ensures KeyInstances(keys)[i] == Some(KeyIndex(keys[i])) {}
  }

  lemma StepIsSound(ctx: Ctx, step: (nat, nat), repo: Repo)
    requires Validated(ctx.body) && AllValidated(repo) && SoundPrefix(ctx.caller.prefix) && StepInto(ctx, step, repo).Some?
    ensures var next := StepInto(ctx, step, repo).value;
            Validated(next.body) && SoundPrefix(next.caller.prefix) && next.caller.prefix.Step?
  {
    hide Balanced, Allowed, Instances, ValidAddress, CallName;
    var call := CallAt(ctx, step.0);
    CallNameIsSound(call);
    InstancesBalanced(call, repo.cap);
  }

  /** The prefix at the end of every valid chain is sound. */
  lemma {:induction false} WalkIsSound(ctx: Ctx, chain: Chain, repo: Repo)
    requires Validated(ctx.body) && AllValidated(repo) && SoundPrefix(ctx.caller.prefix) && Walk(ctx, chain, repo).Some?
    ensures var end := Walk(ctx, chain, repo).value;
            && Validated(end.body) && SoundPrefix(end.caller.prefix)
            && (chain != [] ==> end.caller.prefix.Step?)
    decreases |chain|
  {
    if chain != [] {
      hide SoundPrefix, Validated, StepInto;
      StepIsSound(ctx, chain[0], repo);
      WalkIsSound(StepInto(ctx, chain[0], repo).value, chain[1..], repo);
      if chain[1..] == [] { assert Walk(ctx, chain, repo) == StepInto(ctx, chain[0], repo); }
    }
  }

  /** A resource at the end of a valid chain is dropped exactly when its address gets too long, or a
      `for_each` key on the way holds a character outside the allowlist. */
  lemma DroppedExactly(parent: Body, chain: Chain, ri: nat, repo: Repo)
    requires Validated(parent) && AllValidated(repo) && Walk(RootCtx(parent), chain, repo).Some?
    requires ri < |Walk(RootCtx(parent), chain, repo).value.body.resources|
    ensures var end := Walk(RootCtx(parent), chain, repo).value;
            RowAt(end, ri).None? <==>
              && chain != []
              && (|Prefixed(end.body.resources[ri].address, end.caller.prefix)| > ADDRESS_MAX_BYTES || !AllowedIndices(end.caller.prefix))
  {
    var root := RootCtx(parent);
    var end := Walk(root, chain, repo).value;
    var address, p := end.body.resources[ri].address, end.caller.prefix;
    WalkIsSound(root, chain, repo);
    assert ValidAddress(address);
    assert chain == [] ==> p == Root;
    hide Prefixed, Walk, BalancedPrefix, Balanced, IsAddressChar;
    PrefixFails(address, p);
  }

  // ---- the size bound -------------------------------------------------------------------------

  function EmitCount(trace: seq<Event>): nat {
    if trace == [] then 0 else (if trace[0].Emit? then 1 else 0) + EmitCount(trace[1..])
  }

  lemma {:induction false} EmitCountConcat(a: seq<Event>, b: seq<Event>)
    ensures EmitCount(a + b) == EmitCount(a) + EmitCount(b)
    decreases |a|
  {
    if a == [] {
      assert a + b == b;
    } else {
      assert (a + b)[0] == a[0] && (a + b)[1..] == a[1..] + b;
      EmitCountConcat(a[1..], b);
    }
  }

  lemma {:induction false} RowsBelowEmits(trace: seq<Event>)
    ensures |RowsOf(trace)| <= EmitCount(trace)
    decreases |trace|
  {
    if trace != [] { RowsBelowEmits(trace[1..]); }
  }

  lemma {:induction false} EmitCountBounds(trace: seq<Event>)
    ensures EmitCount(trace) <= |trace|
    ensures (forall e :: e in trace ==> e.Note?) ==> EmitCount(trace) == 0
    decreases |trace|
  {
    if trace != [] {
      assert trace[0] in trace && forall e :: e in trace[1..] ==> e in trace;
      EmitCountBounds(trace[1..]);
    }
  }

  /** At most `max(1, cap)` instances per call. */
  lemma InstanceLimit(call: ModuleCall, repo: Repo)
    ensures |Instances(call, repo.cap).0| <= if repo.cap > 1 then repo.cap else 1
  {
  }

  /** `1 + ck + ck^2 + ...`, `d` terms. */
  function Geometric(ck: nat, d: nat): nat {
    if d == 0 then 0 else 1 + ck * Geometric(ck, d - 1)
  }

  ghost predicate Sized(body: Body, r: nat, c: nat) {
    |body.resources| <= r && |body.modules| <= c
  }

  /** One call emits at most `k` bodies of `r` resources each, and what their `c` calls emit. */
  lemma {:induction false} CallSize(call: ModuleCall, caller: Caller, chain: Chain, ci: nat, repo: Repo, r: nat, c: nat, k: nat)
    requires forall p :: p in repo.registry ==> Sized(repo.registry[p], r, c)
    requires k == (if repo.cap > 1 then repo.cap else 1)
    ensures EmitCount(CallTrace(call, caller, chain, ci, repo)) <= k * (r * Geometric(c * k, Room(caller, repo)))
    decreases Room(caller, repo), 1, 0
  {
    hide Geometric, Instances, InstanceTrace, EmitCount;
    match Resolve(call, caller, repo)
    case Miss(notes) =>
      EmitCountBounds(Notes(notes));
    case Hit(path, body) =>
      var notes := Notes(Instances(call, repo.cap).1);
      EmitCountBounds(notes);
      EmitCountConcat(notes, InstanceTrace(call, caller, path, body, chain, ci, 0, repo));
      InstanceLimit(call, repo);
      InstanceSize(call, caller, path, body, chain, ci, 0, repo, r, c, k);
      MulMonotone(|Instances(call, repo.cap).0|, k, r * Geometric(c * k, Room(caller, repo)));
  }

  lemma {:induction false} InstanceSize(call: ModuleCall, caller: Caller, path: string, body: Body, chain: Chain, ci: nat, ii: nat, repo: Repo, r: nat, c: nat, k: nat)
    requires forall p :: p in repo.registry ==> Sized(repo.registry[p], r, c)
    requires k == (if repo.cap > 1 then repo.cap else 1)
    requires Resolve(call, caller, repo) == Hit(path, body) && ii <= |Instances(call, repo.cap).0|
    ensures EmitCount(InstanceTrace(call, caller, path, body, chain, ci, ii, repo))
         <= (|Instances(call, repo.cap).0| - ii) * (r * Geometric(c * k, Room(caller, repo)))
    decreases Room(caller, repo), 0, |Instances(call, repo.cap).0| - ii
  {
    hide Geometric, Emits, BodyTrace, Instances, Enter, EmitCount;
    var n := |Instances(call, repo.cap).0|;
    var each := r * Geometric(c * k, Room(caller, repo));
    if ii < n {
      var here := chain + [(ci, ii)];
      var next := Enter(call, caller, path, body, Instances(call, repo.cap).0[ii]);
      var rest := InstanceTrace(call, caller, path, body, chain, ci, ii + 1, repo);
      EmitCountConcat(Emits(next, here) + BodyTrace(next, here, 0, repo), rest);
      EnterRoom(call, caller, path, body, Instances(call, repo.cap).0[ii], repo);
      EnteredSize(next, here, repo, r, c, k);
      InstanceSize(call, caller, path, body, chain, ci, ii + 1, repo, r, c, k);
      MulStep(n - ii, each);
    } else {
      EmitCountBounds([]);
    }
  }

  lemma EnterRoom(call: ModuleCall, caller: Caller, path: string, body: Body, index: Option<string>, repo: Repo)
    requires Resolve(call, caller, repo) == Hit(path, body)
    ensures var next := Enter(call, caller, path, body, index);
            Room(next.caller, repo) + 1 == Room(caller, repo) && next.body == body && path in repo.registry && body == repo.registry[path]
  {
  }

  /** An entered body of a registered module, one level below where the room is one larger. */
  lemma {:induction false} EnteredSize(next: Ctx, here: Chain, repo: Repo, r: nat, c: nat, k: nat)
    requires forall p :: p in repo.registry ==> Sized(repo.registry[p], r, c)
    requires k == (if repo.cap > 1 then repo.cap else 1) && Sized(next.body, r, c)
    ensures EmitCount(Emits(next, here) + BodyTrace(next, here, 0, repo)) <= r * Geometric(c * k, Room(next.caller, repo) + 1)
    decreases Room(next.caller, repo), 3, 0
  {
    hide Geometric, BodyTrace, EmitCount;
    EmitCountConcat(Emits(next, here), BodyTrace(next, here, 0, repo));
    EmitCountBounds(Emits(next, here));
    BodySize(next, here, 0, repo, r, c, k);
    OneBody(r, c, k, |next.body.modules|, Room(next.caller, repo) + 1);
  }

  lemma MulStep(n: nat, x: nat)
    requires n > 0
    ensures n * x == x + (n - 1) * x
  {
  }

  lemma {:induction false} BodySize(ctx: Ctx, chain: Chain, ci: nat, repo: Repo, r: nat, c: nat, k: nat)
    requires forall p :: p in repo.registry ==> Sized(repo.registry[p], r, c)
    requires k == (if repo.cap > 1 then repo.cap else 1)
    requires ci <= |ctx.body.modules|
    ensures EmitCount(BodyTrace(ctx, chain, ci, repo))
         <= (|ctx.body.modules| - ci) * (k * (r * Geometric(c * k, Room(ctx.caller, repo))))
    decreases Room(ctx.caller, repo), 2, |ctx.body.modules| - ci
  {
    hide Geometric, CallTrace, CallAt, EmitCount;
    if ci == |ctx.body.modules| {
      EmitCountBounds([]);
    } else {
      var call := CallAt(ctx, ci);
      var each := k * (r * Geometric(c * k, Room(ctx.caller, repo)));
      EmitCountConcat(CallTrace(call, ctx.caller, chain, ci, repo), BodyTrace(ctx, chain, ci + 1, repo));
      CallSize(call, ctx.caller, chain, ci, repo, r, c, k);
      BodySize(ctx, chain, ci + 1, repo, r, c, k);
      MulStep(|ctx.body.modules| - ci, each);
    }
  }

  lemma MulMonotone(a: nat, b: nat, x: nat)
    requires a <= b
    ensures a * x <= b * x
  {
  }

  /** `r` resources plus `m <= c` calls of the next level stay within the next geometric term. */
  lemma OneBody(r: nat, c: nat, k: nat, m: nat, room: nat)
    requires m <= c && room > 0
    ensures r + m * (k * (r * Geometric(c * k, room - 1))) <= r * Geometric(c * k, room)
  {
    var g := Geometric(c * k, room - 1);
    MulMonotone(m, c, k * (r * g));
    MulSwap(c, k, r, g);
    MulDistribute(r, (c * k) * g);
  }

  lemma MulSwap(c: nat, k: nat, r: nat, g: nat)
    ensures c * (k * (r * g)) == r * ((c * k) * g)
  {
    MulAssoc(c, k, r * g);
    MulAssoc(r, c * k, g);
    MulAssoc(c * k, r, g);
  }

  lemma MulAssoc(a: nat, b: nat, x: nat)
    ensures a * (b * x) == (a * b) * x
  {
  }

  lemma MulDistribute(r: nat, x: nat)
    ensures r * (1 + x) == r + r * x
  {
  }

  /** The output is bounded by the limits: with `t` top-level calls, `r` resources and `c` calls per
      registered module, depth limit `d` and `k = max(1, cap)`, at most `t*k*r*(1 + ck + ... )` rows,
      `d` terms. */
  lemma FlattenedSize(parent: Body, repo: Repo, r: nat, c: nat)
    requires forall p :: p in repo.registry ==> Sized(repo.registry[p], r, c)
    ensures var k := if repo.cap > 1 then repo.cap else 1;
            |RowsOf(BodyTrace(RootCtx(parent), [], 0, repo))|
            <= |parent.modules| * (k * (r * Geometric(c * k, repo.maxDepth)))
  {
    RowsBelowEmits(BodyTrace(RootCtx(parent), [], 0, repo));
    BodySize(RootCtx(parent), [], 0, repo, r, c, if repo.cap > 1 then repo.cap else 1);
  }
}
