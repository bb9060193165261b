/** The shared type store and its views as a state machine. */
module TypeStore {
  import opened Common
  import opened ClosedTypes
  import opened TypeTable
  import opened TypeImport

  const COUNT_LIMIT: nat := 0x1_0000_0000

  /** Both lengths in one word: types in the high half. */
  function Packed(types: nat, envs: nat): nat {
    types * COUNT_LIMIT + envs
  }

  lemma PackedInjective(a: nat, b: nat, c: nat, d: nat)
    requires b < COUNT_LIMIT && d < COUNT_LIMIT
    ensures Packed(a, b) == Packed(c, d) <==> a == c && b == d
  {
  }

  /** The caps of a store; there is always room for the empty environment. */
  ghost predicate LimitsOk(l: Limits) {
    l.types < COUNT_LIMIT && 1 <= l.envs < COUNT_LIMIT
  }

  // ------------------------------------------------------ the locked sections

  /** The records of a table past the given lengths. */
  datatype Delta = Delta(types: seq<ClosedType>, depths: seq<nat>, envs: seq<TypeEnv>)

  function DeltaOf(store: Table, types: nat, envs: nat): (d: Delta)
    requires types <= |store.types| == |store.depths| && envs <= |store.envs|
    ensures |d.types| == |d.depths|
  {
    Delta(store.types[types..], store.depths[types..], store.envs[envs..])
  }

  function ApplyDelta(view: Table, d: Delta): Table
    requires |d.types| == |d.depths|
  {
    AppendEnvs(AppendTypes(view, d.types, d.depths), d.envs)
  }

  /** The locked part of interning a type: found, full, or appended. */
  function LockedType(store: Table, limits: Limits, node: ClosedType, depth: nat): (Result<nat>, Table) {
    if node in store.typeIndex then (Ok(store.typeIndex[node]), store)
    else if |store.types| >= limits.types then (Err(TypeEnvFull(true)), store)
    else (Ok(|store.types|), PushType(store, node, depth))
  }

  /** The locked part of interning an environment. */
  function LockedEnv(store: Table, limits: Limits, env: TypeEnv): (Result<nat>, Table) {
    if env in store.envIndex then (Ok(store.envIndex[env]), store)
    else if |store.envs| >= limits.envs then (Err(TypeEnvFull(false)), store)
    else (Ok(|store.envs|), PushEnv(store, env))
  }

  /** A plan no longer matches a table. */
  predicate Stale(t: Table, p: Plan) {
    |t.types| != p.baseTypes || |t.envs| != p.baseEnvs
  }

  // ------------------------------------------------------------- the machine

  /** One store, its published count word, the views by name, and the plans
      that were prepared and not yet used. */
  datatype System = System(store: Table, counts: nat, views: map<nat, Table>, plans: map<nat, Plan>)

  /** One atomic step of one view. A public operation is a few of these, and
      steps of other views may come in between. */
  datatype Action =
    | Sync(view: nat)
    | Clone(view: nat, name: nat)
    | InternType(view: nat, node: ClosedType)
    | InternEnv(view: nat, env: TypeEnv)
    | Prepare(view: nat, name: nat, types: seq<ClosedType>, envs: seq<TypeEnv>)
    | Commit(view: nat, name: nat)

  ghost function Start(view: nat): System {
    System(EMPTY_TABLE, Packed(0, 1), map[view := EMPTY_TABLE], map[])
  }

  /** The store has at least the records of the view, in number. */
  ghost predicate Longer(v: Table, store: Table) {
    |v.types| <= |store.types| == |store.depths| && |v.envs| <= |store.envs|
  }

  /** Leave the locked section: publish the counts and catch the view up. */
  ghost function Leave(s: System, view: nat, store: Table): System
    requires view in s.views
  {
    var v := s.views[view];
    var caught := if Longer(v, store) then ApplyDelta(v, DeltaOf(store, |v.types|, |v.envs|)) else v;
    System(store, Packed(|store.types|, |store.envs|), s.views[view := caught], s.plans)
  }

  ghost predicate Enabled(s: System, a: Action) {
    && a.view in s.views
    && match a
       case Sync(_) => true
       case Clone(_, name) => name !in s.views
       case InternType(_, node) => DepthOf(node, s.views[a.view].depths).Some?
       case InternEnv(_, env) => AllBelow(env.types, |s.views[a.view].types|)
       case Prepare(_, name, types, envs) => name !in s.plans && BottomUp(types) && SourceNamed(types, envs)
       case Commit(_, name) => name in s.plans
  }

  /** The step itself; a step that is not enabled does nothing. */
  ghost function Step(limits: Limits, s: System, a: Action): System {
    if !Enabled(s, a) then s
    else
      var v := s.views[a.view];
      match a
      case Sync(_) =>
        if s.counts == Packed(|v.types|, |v.envs|) then s else Leave(s, a.view, s.store)
      case Clone(_, name) => s.(views := s.views[name := v])
      case InternType(_, node) =>
        var depth := DepthOf(node, v.depths).value;
        if depth > MAX_CLOSED_DEPTH then s else
        var (r, store) := LockedType(s.store, limits, node, depth);
        if r.Err? then s else Leave(s, a.view, store)
      case InternEnv(_, env) =>
        if env == EMPTY_ENV then s else
        var (r, store) := LockedEnv(s.store, limits, env);
        if r.Err? then s else Leave(s, a.view, store)
      case Prepare(_, name, types, envs) =>
        var r := PrepareSpec(v, limits, types, envs);
        if r.Err? then s else s.(plans := s.plans[name := r.value])
      case Commit(_, name) =>
        var p := s.plans[name];
        var used := s.(plans := s.plans - {name});
        if Stale(v, p) || Stale(s.store, p) then used
        else Leave(used, a.view, Imported(s.store, p))
  }

  ghost function Run(limits: Limits, s: System, actions: seq<Action>): System {
    if actions == [] then s
    else
      var last := |actions| - 1;
      Step(limits, Run(limits, s, actions[..last]), actions[last])
  }

  // ------------------------------------------------------------ the invariant

  ghost predicate ViewOk(v: Table, store: Table) {
    Sound(v) && Prefix(v, store)
  }

  /** The plan was made against the first records of the store. */
  ghost predicate PlanOk(p: Plan, store: Table, limits: Limits)
    requires WellFormed(store)
  {
    && p.baseTypes <= |store.types| == |store.depths| && 1 <= p.baseEnvs <= |store.envs|
    && PlanSound(Take(store, p.baseTypes, p.baseEnvs), limits, p) && PlanNamed(p)
  }

  ghost predicate StoreOk(s: System, limits: Limits) {
    Sound(s.store) && Capped(s.store, limits) && s.counts == Packed(|s.store.types|, |s.store.envs|)
  }

  ghost predicate Inv(s: System, limits: Limits) {
    && StoreOk(s, limits)
    && (forall v :: v in s.views ==> ViewOk(s.views[v], s.store))
    && (forall p :: p in s.plans ==> PlanOk(s.plans[p], s.store, limits))
  }

  lemma StartInv(limits: Limits, view: nat)
    requires LimitsOk(limits)
    ensures Inv(Start(view), limits)
    ensures Start(view).views == map[view := Table([], map[], [], [TypeEnv([], [])], map[TypeEnv([], []) := 0])]
    ensures Start(view).store == Start(view).views[view] && Start(view).plans == map[]
  {
    hide WellFormed;
    EmptyWellFormed();
  }

  lemma ViewFits(v: Table, store: Table)
    requires WellFormed(store) && ViewOk(v, store)
    ensures Longer(v, store)
    ensures ApplyDelta(v, DeltaOf(store, |v.types|, |v.envs|)) == store
  {
    hide DepthsOk, IsIndex, AppendTypes, AppendEnvs;
    TableParts(store);
    CatchUp(v, store);
  }

  /** The first records of a growing store do not change. */
  lemma TakeStable(store: Table, store': Table, types: nat, envs: nat)
    requires WellFormed(store) && WellFormed(store') && Prefix(store, store')
    requires types <= |store.types| == |store.depths| && 1 <= envs <= |store.envs| && |store.depths| <= |store'.depths|
    ensures Take(store', types, envs) == Take(store, types, envs)
  {
    hide WellFormed, Restrict;
    TakeKeeps(store, types, envs);
    TakeKeeps(store', types, envs);
    SameLengths(Take(store, types, envs), Take(store', types, envs));
  }

  /** A store that grows validly keeps every view and every plan. */
  lemma LeaveKeeps(s: System, limits: Limits, view: nat, store: Table)
    requires Inv(s, limits) && view in s.views
    requires Sound(store) && Capped(store, limits) && Prefix(s.store, store)
    ensures Longer(s.views[view], store) && Leave(s, view, store).views[view] == store
    ensures Inv(Leave(s, view, store), limits)
  {
    hide WellFormed, EnvsNamed, Take, PlanSound, PlanNamed, ApplyDelta, Packed;
    TableParts(s.store);
    TableParts(store);
    GrownView(s.views[view], s.store, store);
    ViewFits(s.views[view], store);
    var s' := Leave(s, view, store);
    forall v | v in s'.views ensures ViewOk(s'.views[v], store) {
      if v != view { GrownView(s.views[v], s.store, store); }
    }
    forall p | p in s'.plans ensures PlanOk(s'.plans[p], store, limits) {
      TakeStable(s.store, store, s.plans[p].baseTypes, s.plans[p].baseEnvs);
    }
  }

  lemma GrownView(v: Table, store: Table, store': Table)
    requires ViewOk(v, store) && Prefix(store, store')
    ensures ViewOk(v, store')
  {
    hide Sound;
  }

  // ------------------------------------------------------------ each step

  lemma ViewDepth(v: Table, store: Table, node: ClosedType)
    requires WellFormed(v) && WellFormed(store) && Prefix(v, store) && DepthOf(node, v.depths).Some?
    ensures AllBelow(Children(node), |store.types|) && |store.types| == |store.depths|
    ensures DepthOf(node, v.depths).value == Deepest(Children(node), store.depths)
  {
    DeepestGrows(Children(node), v.depths, store.depths);
  }

  lemma LockedTypeKeeps(v: Table, store: Table, limits: Limits, node: ClosedType)
    requires ViewOk(v, store) && Sound(store) && Capped(store, limits)
    requires DepthOf(node, v.depths).Some? && DepthOf(node, v.depths).value <= MAX_CLOSED_DEPTH
    ensures var (r, store') := LockedType(store, limits, node, DepthOf(node, v.depths).value);
      && Sound(store') && Capped(store', limits) && Prefix(store, store')
      && (r.Ok? ==> r.value < |store'.types| && store'.types[r.value] == node)
      && (r.Err? ==> r.error.types && store' == store && node !in store.typeIndex && |store.types| == limits.types)
  {
    hide WellFormed, EnvsNamed, Deepest;
    TableParts(store);
    ViewDepth(v, store, node);
    if node !in store.typeIndex { PushTypeKeeps(store, node); }
    NamedGrows(store, LockedType(store, limits, node, DepthOf(node, v.depths).value).1);
  }

  lemma LockedEnvKeeps(store: Table, limits: Limits, env: TypeEnv)
    requires Sound(store) && Capped(store, limits) && AllBelow(env.types, |store.types|)
    ensures var (r, store') := LockedEnv(store, limits, env);
      && Sound(store') && Capped(store', limits) && Prefix(store, store')
      && (r.Ok? ==> r.value < |store'.envs| && store'.envs[r.value] == env)
      && (r.Err? ==> !r.error.types && store' == store && env !in store.envIndex && |store.envs| == limits.envs)
  {
    hide DepthsOk, EnvsNamed;
    if env !in store.envIndex {
      PushEnvKeeps(store, env);
      NamedAppend(store, PushEnv(store, env), [env]);
    }
  }

  /** For a plan made against the same store, matching lengths alone mean that
      the contents it was made against are still the contents. */
  lemma LengthsDecide(p: Plan, store: Table, limits: Limits)
    requires Sound(store) && PlanOk(p, store, limits) && !Stale(store, p)
    ensures PlanSound(store, limits, p) && Prefix(store, Imported(store, p)) && EnvsNamed(Imported(store, p))
  {
    hide WellFormed, EnvsNamed, PlanNamed, Restrict;
    ImportedNamed(store, p);
    TakeKeeps(store, p.baseTypes, p.baseEnvs);
    SameLengths(Take(store, p.baseTypes, p.baseEnvs), store);
  }

  lemma PlanAgainstView(v: Table, store: Table, limits: Limits, types: seq<ClosedType>, envs: seq<TypeEnv>)
    requires ViewOk(v, store) && WellFormed(store) && Capped(store, limits) && BottomUp(types)
    requires SourceNamed(types, envs)
    requires PrepareSpec(v, limits, types, envs).Ok?
    ensures PlanOk(PrepareSpec(v, limits, types, envs).value, store, limits)
  {
    hide DepthsOk, IsIndex, EnvsNamed, Restrict, PrepareSpec, PlanNamed, SourceNamed;
    TableParts(v);
    TableParts(store);
    PrepareNamed(v, limits, types, envs);
    ImportPreserves(v, limits, types, envs);
    TakeKeeps(store, |v.types|, |v.envs|);
    SameLengths(Take(store, |v.types|, |v.envs|), v);
  }

  /** One step of any view keeps the invariant, and the store only grows. */
  lemma StepKeeps(limits: Limits, s: System, a: Action)
    requires Inv(s, limits) && LimitsOk(limits)
    ensures Inv(Step(limits, s, a), limits) && Prefix(s.store, Step(limits, s, a).store)
    ensures forall v :: v in s.views ==>
              v in Step(limits, s, a).views && Prefix(s.views[v], Step(limits, s, a).views[v])
  {
    hide WellFormed, EnvsNamed, PlanSound, PlanNamed, SourceNamed, Leave, LockedType, LockedEnv, PrepareSpec, Packed,
      Imported, BottomUp, DepthOf;
    if Enabled(s, a) {
      var v := s.views[a.view];
      match a {
        case Sync(_) =>
          LeaveGrows(s, limits, a.view, s.store);
        case Clone(_, _) =>
        case InternType(_, node) =>
          if DepthOf(node, v.depths).value <= MAX_CLOSED_DEPTH {
            LockedTypeKeeps(v, s.store, limits, node);
            LeaveGrows(s, limits, a.view, LockedType(s.store, limits, node, DepthOf(node, v.depths).value).1);
          }
        case InternEnv(_, env) =>
          LockedEnvKeeps(s.store, limits, env);
          LeaveGrows(s, limits, a.view, LockedEnv(s.store, limits, env).1);
        case Prepare(_, _, types, envs) =>
          if PrepareSpec(v, limits, types, envs).Ok? { PlanAgainstView(v, s.store, limits, types, envs); }
        case Commit(_, name) =>
          CommitKeeps(limits, s, a.view, name);
      }
    }
  }

  lemma LeaveGrows(s: System, limits: Limits, view: nat, store: Table)
    requires Inv(s, limits) && view in s.views
    requires Sound(store) && Capped(store, limits) && Prefix(s.store, store)
    ensures var s' := Leave(s, view, store);
      && Inv(s', limits) && Prefix(s.store, s'.store) && s'.views.Keys == s.views.Keys
      && forall v :: v in s.views ==> Prefix(s.views[v], s'.views[v])
  {
    hide WellFormed, EnvsNamed, ApplyDelta, PlanOk, Packed;
    LeaveKeeps(s, limits, view, store);
    PrefixTransitive(s.views[view], s.store, store);
  }

  lemma CommitKeeps(limits: Limits, s: System, view: nat, name: nat)
    requires Inv(s, limits) && view in s.views && name in s.plans
    ensures var used, p := s.(plans := s.plans - {name}), s.plans[name];
      && Inv(used, limits)
      && (!Stale(s.store, p) ==>
           && WellFormed(Imported(s.store, p))
           && var s' := Leave(used, view, Imported(s.store, p));
           && Inv(s', limits) && Prefix(s.store, s'.store) && s'.views.Keys == s.views.Keys
           && forall v :: v in s.views ==> Prefix(s.views[v], s'.views[v]))
  {
    hide WellFormed, EnvsNamed, Leave, Imported, Packed;
    var used, p := s.(plans := s.plans - {name}), s.plans[name];
    if !Stale(s.store, p) {
      LengthsDecide(p, s.store, limits);
      LeaveGrows(used, limits, view, Imported(s.store, p));
    }
  }

  // ------------------------------------------------- what a step achieves

  /** Nothing but the store, its counts and view `v` has changed. */
  ghost predicate OnlyView(s: System, s': System, v: nat) {
    && s'.plans == s.plans && s'.views.Keys == s.views.Keys
    && (forall w :: w in s.views && w != v ==> s'.views[w] == s.views[w])
    && s'.counts == |s'.store.types| * 0x1_0000_0000 + |s'.store.envs|
  }

  /** A node over the view: its children are there and it is at most 128 deep. */
  ghost predicate Internable(view: Table, node: ClosedType)
    requires BottomUp(view.types)
  {
    Below(node, |view.types|) && Height(NodeTree(view.types, node)) <= 128
  }

  lemma InternableDepth(view: Table, node: ClosedType)
    requires WellFormed(view)
    ensures BottomUp(view.types)
    ensures Internable(view, node) <==>
              DepthOf(node, view.depths).Some? && DepthOf(node, view.depths).value <= MAX_CLOSED_DEPTH
  {
    hide IsIndex, Height, NodeTree, Deepest;
    TableParts(view);
    if Below(node, |view.types|) { NodeDepth(view.types, view.depths, node); }
  }

  /** Interning a type: a node that can be interned, and that the store holds
      or has room for, is in the store afterwards, and the view is the store.
      Exactly that node was appended if it was not there. Otherwise nothing
      changes. */
  lemma InternTypeMeans(limits: Limits, s: System, v: nat, node: ClosedType)
    requires Inv(s, limits) && v in s.views
    ensures var s' := Step(limits, s, InternType(v, node));
      && BottomUp(s.views[v].types)
      && if Internable(s.views[v], node) && (node in s.store.types || |s.store.types| < limits.types) then
           && OnlyView(s, s', v) && s'.views[v] == s'.store && node in s'.store.types
           && s'.store.envs == s.store.envs
           && s'.store.types == (if node in s.store.types then s.store.types else s.store.types + [node])
         else s' == s
  {
    hide WellFormed, EnvsNamed, PlanOk, ApplyDelta, DepthOf, Internable, Packed;
    var view := s.views[v];
    InternableDepth(view, node);
    TableParts(s.store);
    StoredNode(s.store, node);
    if Internable(view, node) {
      var store := LockedType(s.store, limits, node, DepthOf(node, view.depths).value).1;
      LockedTypeKeeps(view, s.store, limits, node);
      LeaveKeeps(s, limits, v, store);
      PackedIs(|store.types|, |store.envs|);
    }
  }

  lemma StoredNode(t: Table, node: ClosedType)
    requires WellFormed(t)
    ensures node in t.typeIndex <==> node in t.types
  {
    hide DepthsOk;
  }

  lemma StoredEnv(t: Table, env: TypeEnv)
    requires WellFormed(t)
    ensures env in t.envIndex <==> env in t.envs
  {
    hide DepthsOk;
  }

  lemma PackedIs(types: nat, envs: nat)
    ensures Packed(types, envs) == types * 0x1_0000_0000 + envs
  {
  }

  /** Interning an environment likewise; the empty one is always there and
      needs no step. */
  lemma InternEnvMeans(limits: Limits, s: System, v: nat, env: TypeEnv)
    requires Inv(s, limits) && v in s.views
    ensures var s' := Step(limits, s, InternEnv(v, env));
      if AllBelow(env.types, |s.views[v].types|) && env != TypeEnv([], [])
         && (env in s.store.envs || |s.store.envs| < limits.envs) then
        && OnlyView(s, s', v) && s'.views[v] == s'.store && env in s'.store.envs
        && s'.store.types == s.store.types
        && s'.store.envs == (if env in s.store.envs then s.store.envs else s.store.envs + [env])
      else s' == s
  {
    hide WellFormed, EnvsNamed, PlanOk, ApplyDelta, Packed;
    StoredEnv(s.store, env);
    if AllBelow(env.types, |s.views[v].types|) {
      var store := LockedEnv(s.store, limits, env).1;
      LockedEnvKeeps(s.store, limits, env);
      LeaveKeeps(s, limits, v, store);
      PackedIs(|store.types|, |store.envs|);
    }
  }

  /** Synchronising makes the view the store and changes nothing else; a clone
      is a copy under a free name; a plan appears under a free name exactly when
      the source fits under the caps. */
  lemma OtherStepsMean(limits: Limits, s: System, v: nat, name: nat, types: seq<ClosedType>, envs: seq<TypeEnv>)
    requires Inv(s, limits) && LimitsOk(limits) && v in s.views
    ensures Step(limits, s, Sync(v)) == s.(views := s.views[v := s.store])
    ensures Step(limits, s, Clone(v, name)) == if name in s.views then s else s.(views := s.views[name := s.views[v]])
    ensures var s' := Step(limits, s, Prepare(v, name, types, envs));
      && s' == s.(plans := s'.plans)
      && (name !in s.plans && BottomUp(types) && SourceNamed(types, envs) ==>
            var r := PrepareSpec(s.views[v], limits, types, envs);
            (name in s'.plans <==> r.Ok?) && (r.Ok? ==> s'.plans[name] == r.value))
      && (forall p :: p in s.plans ==> p in s'.plans && s'.plans[p] == s.plans[p])
      && (name in s.plans || !BottomUp(types) || !SourceNamed(types, envs) ==> s' == s)
  {
    hide WellFormed, EnvsNamed, PlanOk, ApplyDelta, Packed, PrepareSpec, BottomUp, SourceNamed;
    var view := s.views[v];
    PackedInjective(|s.store.types|, |s.store.envs|, |view.types|, |view.envs|);
    if s.counts == Packed(|view.types|, |view.envs|) {
      SameLengths(view, s.store);
      assert s.views[v := s.store] == s.views;
    } else {
      LeaveKeeps(s, limits, v, s.store);
    }
  }

  /** The store after each locked section is the store after the step. */
  lemma LockedSteps(limits: Limits, s: System, v: nat)
    requires v in s.views
    ensures forall node :: DepthOf(node, s.views[v].depths).Some? ==>
              var depth := DepthOf(node, s.views[v].depths).value;
              Step(limits, s, InternType(v, node)).store ==
                if depth > MAX_CLOSED_DEPTH then s.store else LockedType(s.store, limits, node, depth).1
    ensures forall env: TypeEnv :: AllBelow(env.types, |s.views[v].types|) ==>
              Step(limits, s, InternEnv(v, env)).store ==
                if env == EMPTY_ENV then s.store else LockedEnv(s.store, limits, env).1
    ensures forall name :: name in s.plans && !Stale(s.views[v], s.plans[name]) ==>
              Step(limits, s, Commit(v, name)).store ==
                if Stale(s.store, s.plans[name]) then s.store else Imported(s.store, s.plans[name])
  {
    hide DepthOf, PushType, PushEnv, Imported;
  }

  // ------------------------------------------------------------ whole runs

  /** Over every interleaving, the invariant holds. */
  lemma {:induction false} RunKeeps(limits: Limits, view: nat, actions: seq<Action>)
    requires LimitsOk(limits)
    ensures Inv(Run(limits, Start(view), actions), limits)
    decreases |actions|
  {
    hide Inv, Step;
    if actions == [] {
      StartInv(limits, view);
    } else {
      var last := |actions| - 1;
      RunKeeps(limits, view, actions[..last]);
      StepKeeps(limits, Run(limits, Start(view), actions[..last]), actions[last]);
    }
  }

  /** The store and every view only ever grow at the end. */
  lemma {:induction false} RunGrows(limits: Limits, view: nat, actions: seq<Action>, k: nat)
    requires LimitsOk(limits) && k <= |actions|
    ensures var s, s' := Run(limits, Start(view), actions[..k]), Run(limits, Start(view), actions);
      && Prefix(s.store, s'.store)
      && forall v :: v in s.views ==> v in s'.views && Prefix(s.views[v], s'.views[v])
    decreases |actions|
  {
    hide Inv, Step;
    if k == |actions| {
      assert actions[..k] == actions;
    } else {
      var last := |actions| - 1;
      var before := actions[..last];
      assert before[..k] == actions[..k];
      RunGrows(limits, view, before, k);
      RunKeeps(limits, view, before);
      StepKeeps(limits, Run(limits, Start(view), before), actions[last]);
    }
  }

  /** The fast path skips a sync exactly when the view is complete. */
  lemma FastPathExact(limits: Limits, start: nat, actions: seq<Action>, v: nat)
    requires LimitsOk(limits) && v in Run(limits, Start(start), actions).views
    ensures var s := Run(limits, Start(start), actions);
      s.counts == Packed(|s.views[v].types|, |s.views[v].envs|) <==> s.views[v] == s.store
  {
    hide WellFormed, Run, Packed;
    RunKeeps(limits, start, actions);
    var s := Run(limits, Start(start), actions);
    var t := s.views[v];
    PackedInjective(|s.store.types|, |s.store.envs|, |t.types|, |t.envs|);
    if s.counts == Packed(|t.types|, |t.envs|) { SameLengths(t, s.store); }
  }

  /** An id once in the store names the same type in every view that holds it,
      at every later time; and its unfolding never changes. */
  lemma TypeIdsForever(limits: Limits, start: nat, actions: seq<Action>, k: nat, v: nat, id: nat)
    requires LimitsOk(limits) && k <= |actions|
    requires id < |Run(limits, Start(start), actions[..k]).store.types|
    requires v in Run(limits, Start(start), actions).views
    ensures var was, now := Run(limits, Start(start), actions[..k]).store, Run(limits, Start(start), actions);
      && BottomUp(was.types) && BottomUp(now.views[v].types)
      && (id < |now.views[v].types| ==>
            now.views[v].types[id] == was.types[id] && Unfold(now.views[v].types, id) == Unfold(was.types, id))
      && (now.views[v] == now.store ==> id < |now.views[v].types|)
  {
    hide WellFormed, Run;
    RunKeeps(limits, start, actions);
    RunKeeps(limits, start, actions[..k]);
    RunGrows(limits, start, actions, k);
    var was, now := Run(limits, Start(start), actions[..k]).store, Run(limits, Start(start), actions);
    var t := now.views[v];
    TableParts(was);
    TableParts(t);
    TableParts(now.store);
    if id < |t.types| {
      UnfoldGrows(was.types, now.store.types, id);
      UnfoldGrows(t.types, now.store.types, id);
    }
  }

  lemma EnvIdsForever(limits: Limits, start: nat, actions: seq<Action>, k: nat, v: nat, id: nat)
    requires LimitsOk(limits) && k <= |actions|
    requires id < |Run(limits, Start(start), actions[..k]).store.envs|
    requires v in Run(limits, Start(start), actions).views
    ensures var was, now := Run(limits, Start(start), actions[..k]).store, Run(limits, Start(start), actions);
      && (id < |now.views[v].envs| ==> now.views[v].envs[id] == was.envs[id])
      && (now.views[v] == now.store ==> id < |now.views[v].envs|)
  {
    hide WellFormed, Run;
    RunKeeps(limits, start, actions);
    RunGrows(limits, start, actions, k);
  }

  /** Two views that both hold an id agree on it, and two views that hold equal
      types hold them under equal ids. */
  lemma ViewsAgree(limits: Limits, start: nat, actions: seq<Action>, v: nat, w: nat, a: nat, b: nat)
    requires LimitsOk(limits)
    requires var s := Run(limits, Start(start), actions);
      v in s.views && w in s.views && a < |s.views[v].types| && b < |s.views[w].types|
    ensures var s := Run(limits, Start(start), actions);
      && BottomUp(s.views[v].types) && BottomUp(s.views[w].types)
      && (Unfold(s.views[v].types, a) == Unfold(s.views[w].types, b) <==> a == b)
  {
    hide WellFormed, Run;
    RunKeeps(limits, start, actions);
    var s := Run(limits, Start(start), actions);
    var x, y, store := s.views[v], s.views[w], s.store;
    TableParts(x);
    TableParts(y);
    TableParts(store);
    UnfoldGrows(x.types, store.types, a);
    UnfoldGrows(y.types, store.types, b);
    CanonicalForm(store, a, b);
  }

  /** The `k`-th action of a run prepares a plan, and nobody commits a plan of
      that name before the end. */
  ghost predicate Prepares(limits: Limits, start: nat, actions: seq<Action>, k: nat) {
    && k < |actions| && actions[k].Prepare?
    && var s := Run(limits, Start(start), actions[..k]);
    && Enabled(s, actions[k])
    && PrepareSpec(s.views[actions[k].view], limits, actions[k].types, actions[k].envs).Ok?
    && forall i :: k < i < |actions| ==> !(actions[i].Commit? && actions[i].name == actions[k].name)
  }

  ghost function PreparedPlan(limits: Limits, start: nat, actions: seq<Action>, k: nat): Plan
    requires Prepares(limits, start, actions, k)
  {
    var s := Run(limits, Start(start), actions[..k]);
    PrepareSpec(s.views[actions[k].view], limits, actions[k].types, actions[k].envs).value
  }

  /** A prepared plan waits unchanged until it is committed. */
  lemma {:induction false} PreparedStays(limits: Limits, start: nat, actions: seq<Action>, k: nat)
    requires Prepares(limits, start, actions, k)
    ensures var s := Run(limits, Start(start), actions);
      actions[k].name in s.plans && s.plans[actions[k].name] == PreparedPlan(limits, start, actions, k)
    decreases |actions|
  {
    hide PrepareSpec, LockedType, LockedEnv, DepthOf;
    var last := |actions| - 1;
    if k < last {
      var before := actions[..last];
      assert before[..k] == actions[..k] && before[k] == actions[k];
      assert forall i :: k < i < |before| ==> before[i] == actions[i];
      PreparedStays(limits, start, before, k);
    }
  }

  /** Committing a prepared plan at any later time of a run, whatever happened
      in between. If the store has grown, nothing changes but that the plan is
      gone. Otherwise the view is the store, exactly the plan is appended to
      both, every source type unfolds as in the source, every source environment
      maps pointwise, and no record that was there has moved. */
  lemma CommitMeans(limits: Limits, start: nat, actions: seq<Action>, k: nat, w: nat)
    requires LimitsOk(limits) && Prepares(limits, start, actions, k)
    requires w in Run(limits, Start(start), actions).views
    ensures var s, p := Run(limits, Start(start), actions), PreparedPlan(limits, start, actions, k);
      var types, envs := actions[k].types, actions[k].envs;
      var s' := Step(limits, s, Commit(w, actions[k].name));
      && actions[k].name in s.plans && BottomUp(types)
      && if Stale(s.views[w], p) || Stale(s.store, p) then s' == s.(plans := s.plans - {actions[k].name})
         else
           && s.views[w] == s.store && s'.store == s'.views[w] == Imported(s.store, p)
           && Sound(s'.store) && Capped(s'.store, limits) && Prefix(s.store, s'.store)
           && |p.types.mapping| == |types| && SameTypes(types, p.types.mapping, s'.store.types)
           && EnvsMean(types, envs, p.envs.mapping, s'.store)
  {
    hide Inv, Step, Run, PrepareSpec, SameTypes, EnvsMean, Sound, Prefix;
    PreparedStays(limits, start, actions, k);
    var s, p := Run(limits, Start(start), actions), PreparedPlan(limits, start, actions, k);
    CommitStep(limits, s, w, actions[k].name);
    RunKeeps(limits, start, actions);
    if !Stale(s.views[w], p) && !Stale(s.store, p) {
      PreparedMeans(limits, start, actions, k);
      CommitDone(limits, s, w, actions[k].name);
    }
  }

  lemma CommitStep(limits: Limits, s: System, w: nat, name: nat)
    requires w in s.views && name in s.plans
    ensures var p, used := s.plans[name], s.(plans := s.plans - {name});
      Step(limits, s, Commit(w, name)) ==
        if Stale(s.views[w], p) || Stale(s.store, p) then used else Leave(used, w, Imported(s.store, p))
  {
    hide Leave, Imported;
  }

  /** A plan that is not stale finds a complete view, and leaves it complete. */
  lemma CommitDone(limits: Limits, s: System, w: nat, name: nat)
    requires Inv(s, limits) && w in s.views && name in s.plans
    requires !Stale(s.views[w], s.plans[name]) && !Stale(s.store, s.plans[name])
    ensures var p, used := s.plans[name], s.(plans := s.plans - {name});
      && s.views[w] == s.store && Inv(used, limits)
      && var s' := Leave(used, w, Imported(s.store, p));
      && s'.store == s'.views[w] == Imported(s.store, p)
      && Sound(s'.store) && Capped(s'.store, limits) && Prefix(s.store, s'.store)
  {
    hide WellFormed, EnvsNamed, PlanNamed, Packed, ApplyDelta, Imported;
    SameLengths(s.views[w], s.store);
    LengthsDecide(s.plans[name], s.store, limits);
    CommitKeeps(limits, s, w, name);
    LeaveKeeps(s.(plans := s.plans - {name}), limits, w, Imported(s.store, s.plans[name]));
  }

  /** What the plan means on the store as it is at the end of the run. */
  lemma PreparedMeans(limits: Limits, start: nat, actions: seq<Action>, k: nat)
    requires LimitsOk(limits) && Prepares(limits, start, actions, k)
    requires !Stale(Run(limits, Start(start), actions).store, PreparedPlan(limits, start, actions, k))
    ensures var p, types, envs := PreparedPlan(limits, start, actions, k), actions[k].types, actions[k].envs;
      var t := Imported(Run(limits, Start(start), actions).store, p);
      && BottomUp(types) && BottomUp(t.types)
      && |p.types.mapping| == |types| && SameTypes(types, p.types.mapping, t.types)
      && EnvsMean(types, envs, p.envs.mapping, t)
  {
    hide WellFormed, EnvsNamed, Run, PrepareSpec, SameTypes, SameEnvs, EnvsMean, BottomUp;
    RunKeeps(limits, start, actions);
    RunKeeps(limits, start, actions[..k]);
    RunGrows(limits, start, actions, k);
    var earlier, now := Run(limits, Start(start), actions[..k]), Run(limits, Start(start), actions);
    var view := earlier.views[actions[k].view];
    GrownView(view, earlier.store, now.store);
    CappedView(view, earlier.store, limits);
    ImportPreserves(view, limits, actions[k].types, actions[k].envs);
    TableParts(Imported(view, PreparedPlan(limits, start, actions, k)));
    SameLengths(view, now.store);
  }

  lemma CappedView(v: Table, store: Table, limits: Limits)
    requires Prefix(v, store) && Capped(store, limits)
    ensures Capped(v, limits)
  {
  }
}
