/** The shared store and its access views as objects. */
module TypeViews {
  import opened Common
  import opened ClosedTypes
  import opened EffectRows
  import opened TypeTable
  import opened TypeImport
  import opened TypeStore
  import opened Substitution
  import opened ClosedForms
  import opened ClosedCaches
  import opened CloseWalk
  import M = ModuleTypes

  // --------------------------------------------------------------- the store

  /** The canonical records behind the lock, and the published count word. */
  class SharedStore {
    var types: seq<ClosedType>
    var typeIndex: map<ClosedType, nat>
    var depths: seq<nat>
    var envs: seq<TypeEnv>
    var envIndex: map<TypeEnv, nat>
    var counts: nat
    const limits: Limits

    ghost function Contents(): Table
      reads this
    {
      Table(types, typeIndex, depths, envs, envIndex)
    }

    ghost predicate Valid()
      reads this
    {
      && Sound(Contents()) && Capped(Contents(), limits) && LimitsOk(limits)
      && counts == Packed(|types|, |envs|)
    }

    constructor (maxTypes: nat, maxEnvs: nat)
      requires maxTypes < COUNT_LIMIT && maxEnvs < COUNT_LIMIT
      ensures Valid() && Contents() == EMPTY_TABLE
      ensures limits == Limits(maxTypes, if maxEnvs < 1 then 1 else maxEnvs)
    {
      types, typeIndex, depths := [], map[], [];
      envs, envIndex := [EMPTY_ENV], map[EMPTY_ENV := 0];
      counts := Packed(0, 1);
      limits := Limits(maxTypes, if maxEnvs < 1 then 1 else maxEnvs);
      new;
      EmptyWellFormed();
    }

    /** Other views may run here. A caller learns only what the steps of other
        views guarantee: the store stays valid and grows at its end. */
    method Yield()
      requires Valid()
      modifies this
      ensures Valid() && Later(old(Contents()), Contents())
    {
    }

    /** The locked section of interning a type. */
    method LockedIntern(node: ClosedType, depth: nat) returns (r: Result<nat>)
      requires Valid()
      requires node !in typeIndex && |types| < limits.types ==>
                 AllBelow(Children(node), |types|) && depth == Deepest(Children(node), depths) <= MAX_CLOSED_DEPTH
      modifies this
      ensures (r, Contents()) == LockedType(old(Contents()), limits, node, depth)
      ensures Valid() && Later(old(Contents()), Contents())
      ensures r.Ok? ==> r.value < |types| && types[r.value] == node
      ensures types == (if r.Err? || node in old(types) then old(types) else old(types) + [node]) && envs == old(envs)
      ensures r.Err? <==> node !in old(types) && |old(types)| == limits.types
      ensures forall s: System, v ::
                v in s.views && s.store == old(Contents()) && DepthOf(node, s.views[v].depths) == Some(depth) ==>
                  Step(limits, s, InternType(v, node)).store == Contents()
    {
      hide Packed, WellFormed, Deepest, Step, DepthOf;
      StoredNode(Contents(), node);
      forall s: System, v | v in s.views { LockedSteps(limits, s, v); }
      TableParts(Contents());
      if node in typeIndex { return Ok(typeIndex[node]); }
      if |types| >= limits.types { return Err(TypeEnvFull(true)); }
      TableParts(Contents());
      PushTypeKeeps(Contents(), node);
      NamedGrows(Contents(), PushType(Contents(), node, depth));
      r := Ok(|types|);
      typeIndex := typeIndex[node := |types|];
      types := types + [node];
      depths := depths + [depth];
      counts := Packed(|types|, |envs|);
    }

    /** The locked section of interning an environment. */
    method LockedInternEnv(env: TypeEnv) returns (r: Result<nat>)
      requires Valid() && AllBelow(env.types, |types|)
      modifies this
      ensures (r, Contents()) == LockedEnv(old(Contents()), limits, env)
      ensures Valid() && Later(old(Contents()), Contents())
      ensures r.Ok? ==> r.value < |envs| && envs[r.value] == env
      ensures envs == (if r.Err? || env in old(envs) then old(envs) else old(envs) + [env]) && types == old(types)
      ensures r.Err? <==> env !in old(envs) && |old(envs)| == limits.envs
      ensures forall s: System, v ::
                v in s.views && s.store == old(Contents()) && AllBelow(env.types, |s.views[v].types|) ==>
                  Step(limits, s, InternEnv(v, env)).store == Contents()
    {
      hide Packed, WellFormed, Step;
      StoredEnv(Contents(), env);
      IndexedEnvs(Contents());
      forall s: System, v | v in s.views { LockedSteps(limits, s, v); }
      if env in envIndex { return Ok(envIndex[env]); }
      if |envs| >= limits.envs { return Err(TypeEnvFull(false)); }
      PushEnvKeeps(Contents(), env);
      NamedAppend(Contents(), PushEnv(Contents(), env), [env]);
      r := Ok(|envs|);
      envIndex := envIndex[env := |envs|];
      envs := envs + [env];
      counts := Packed(|types|, |envs|);
    }

    /** The locked section of committing an import. */
    method LockedCommit(p: Plan) returns (ok: bool)
      requires Valid() && PlanOk(p, Contents(), limits)
      modifies this
      ensures ok == !Stale(old(Contents()), p)
      ensures Contents() == if ok then Imported(old(Contents()), p) else old(Contents())
      ensures Valid() && Later(old(Contents()), Contents())
      ensures forall s: System, v, name ::
                v in s.views && s.store == old(Contents()) && name in s.plans && s.plans[name] == p
                    && !Stale(s.views[v], p)
                ==> Step(limits, s, Commit(v, name)).store == Contents()
    {
      hide Packed, WellFormed, PlanOk, Step;
      forall s: System, v | v in s.views { LockedSteps(limits, s, v); }
      if |types| != p.baseTypes || |envs| != p.baseEnvs { return false; }
      LengthsDecide(p, Contents(), limits);
      types, depths, typeIndex := types + p.types.types, depths + p.types.depths, typeIndex + p.types.index;
      envs, envIndex := envs + p.envs.envs, envIndex + p.envs.index;
      counts := Packed(|types|, |envs|);
      ok := true;
    }
  }

  // ------------------------------------------------------------- depth loops

  /** The depth loop of `intern`: one past the deepest child. */
  method FindDepth(node: ClosedType, depths: seq<nat>) returns (r: Option<nat>)
    ensures r == DepthOf(node, depths)
  {
    hide Deepest;
    var kids := Children(node);
    var depth := 1;
    DeepestNone(depths);
    for k := 0 to |kids|
      invariant AllBelow(kids[..k], |depths|) && depth == Deepest(kids[..k], depths)
    {
      var child := kids[k];
      if child >= |depths| { return None; }
      DeepestNext(kids, k, depths);
      depth := Max(depth, depths[child] + 1);
    }
    assert kids[..|kids|] == kids;
    r := Some(depth);
  }

  lemma DeepestNone(depths: seq<nat>)
    ensures Deepest([], depths) == 1
  {
  }

  lemma DeepestNext(ids: seq<nat>, k: nat, depths: seq<nat>)
    requires k < |ids| && AllBelow(ids[..k], |depths|) && ids[k] < |depths|
    ensures AllBelow(ids[..k + 1], |depths|)
    ensures Deepest(ids[..k + 1], depths) == Max(Deepest(ids[..k], depths), depths[ids[k]] + 1)
  {
    assert ids[..k + 1][..k] == ids[..k];
  }

  /** The depth loop of `prepare_import`: children are in the view or planned. */
  method FindPlanDepth(node: ClosedType, depths: seq<nat>, planned: seq<nat>) returns (r: Option<nat>)
    ensures r == DepthOf(node, depths + planned)
  {
    hide Deepest;
    var kids := Children(node);
    var depth := 1;
    ghost var all := depths + planned;
    DeepestNone(all);
    for k := 0 to |kids|
      invariant AllBelow(kids[..k], |all|) && depth == Deepest(kids[..k], all)
    {
      var child := kids[k];
      var below: nat;
      if child < |depths| {
        below := depths[child];
      } else if child - |depths| < |planned| {
        below := planned[child - |depths|];
      } else {
        return None;
      }
      DeepestNext(kids, k, all);
      depth := Max(depth, below + 1);
    }
    assert kids[..|kids|] == kids;
    r := Some(depth);
  }

  // ----------------------------------------------------------- the import loops

  method PlanTypesLoop(view: Table, max: nat, source: seq<ClosedType>) returns (r: Result<TypePlan>)
    ensures r == PlanTypes(view, max, source)
  {
    hide Remap, DepthOf;
    var p := TypePlan([], [], map[], []);
    for k := 0 to |source|
      invariant PlanTypes(view, max, source[..k]) == Ok(p)
    {
      assert source[..k + 1][..k] == source[..k];
      var mapped := Remap(source[k], Lookup(p.mapping));
      if mapped in view.typeIndex {
        p := p.(mapping := p.mapping + [view.typeIndex[mapped]]);
      } else if mapped in p.index {
        p := p.(mapping := p.mapping + [p.index[mapped]]);
      } else {
        var next := |view.types| + |p.types|;
        if next >= max {
          PlanTypesStop(view, max, source, k + 1);
          return Err(TypeEnvFull(true));
        }
        var depth := FindPlanDepth(mapped, view.depths, p.depths);
        if depth.None? || depth.value > MAX_CLOSED_DEPTH {
          PlanTypesStop(view, max, source, k + 1);
          return Err(TypeEnvFull(true));
        }
        p := TypePlan(p.types + [mapped], p.depths + [depth.value], p.index[mapped := next], p.mapping + [next]);
      }
    }
    assert source[..|source|] == source;
    r := Ok(p);
  }

  lemma {:induction false} PlanTypesStop(view: Table, max: nat, source: seq<ClosedType>, k: nat)
    requires k <= |source| && PlanTypes(view, max, source[..k]).Err?
    ensures PlanTypes(view, max, source) == PlanTypes(view, max, source[..k])
    decreases |source|
  {
    hide PlanType;
    if k < |source| {
      assert source[..|source| - 1][..k] == source[..k];
      PlanTypesStop(view, max, source[..|source| - 1], k);
    } else {
      assert source[..k] == source;
    }
  }

  method PlanEnvsLoop(view: Table, max: nat, ids: seq<nat>, source: seq<TypeEnv>) returns (r: Result<EnvPlan>)
    ensures r == PlanEnvs(view, max, ids, source)
  {
    hide MapEnv;
    var p := EnvPlan([], map[], []);
    for k := 0 to |source|
      invariant PlanEnvs(view, max, ids, source[..k]) == Ok(p)
    {
      assert source[..k + 1][..k] == source[..k];
      var env := MapEnv(source[k], ids);
      if env == EMPTY_ENV {
        p := p.(mapping := p.mapping + [0]);
      } else if env in view.envIndex {
        p := p.(mapping := p.mapping + [view.envIndex[env]]);
      } else if env in p.index {
        p := p.(mapping := p.mapping + [p.index[env]]);
      } else {
        var next := |view.envs| + |p.envs|;
        if next >= max {
          PlanEnvsStop(view, max, ids, source, k + 1);
          return Err(TypeEnvFull(false));
        }
        p := EnvPlan(p.envs + [env], p.index[env := next], p.mapping + [next]);
      }
    }
    assert source[..|source|] == source;
    r := Ok(p);
  }

  lemma {:induction false} PlanEnvsStop(view: Table, max: nat, ids: seq<nat>, source: seq<TypeEnv>, k: nat)
    requires k <= |source| && PlanEnvs(view, max, ids, source[..k]).Err?
    ensures PlanEnvs(view, max, ids, source) == PlanEnvs(view, max, ids, source[..k])
    decreases |source|
  {
    hide PlanEnv;
    if k < |source| {
      assert source[..|source| - 1][..k] == source[..k];
      PlanEnvsStop(view, max, ids, source[..|source| - 1], k);
    } else {
      assert source[..k] == source;
    }
  }

  // ------------------------------------------------------------- synchronising

  /** What a delta adds to a view. */
  lemma SyncedView(v: Table, store: Table)
    requires Later(v, store)
    ensures |v.types| <= |store.types| == |store.depths| && |v.envs| <= |store.envs|
    ensures ApplyDelta(v, DeltaOf(store, |v.types|, |v.envs|)) == store
  {
    hide WellFormed, EnvsNamed, ApplyDelta;
    ViewFits(v, store);
  }

  lemma CountsDecide(v: Table, store: Table, limits: Limits)
    requires Later(v, store) && Capped(store, limits) && LimitsOk(limits)
    requires Packed(|store.types|, |store.envs|) == Packed(|v.types|, |v.envs|)
    ensures v == store
  {
    hide WellFormed, EnvsNamed, Packed;
    PackedInjective(|store.types|, |store.envs|, |v.types|, |v.envs|);
    SameLengths(v, store);
  }

  // --------------------------------------------------------------- one view

  /** One access view of the store, with its machine-local caches. */
  class TypeEnvs {
    const store: SharedStore
    const m: M.Module
    const groups: seq<seq<bool>>
    var types: seq<ClosedType>
    var typeIndex: map<ClosedType, nat>
    var depths: seq<nat>
    var envs: seq<TypeEnv>
    var envIndex: map<TypeEnv, nat>
    var closed: Memo
    var lastClosed: Option<(nat, nat, nat)>
    var derived: Memo
    var cacheEntries: nat
    /** The memo keys that were closed before this view held the environment,
        and the derivations that were cached though the parent arrived only
        while they were made. */
    ghost var early: Keys
    ghost var earlyApps: Keys

    ghost function View(): Table
      reads this
    {
      Table(types, typeIndex, depths, envs, envIndex)
    }

    ghost predicate Valid()
      reads this, store
    {
      && store.Valid() && Later(View(), store.Contents()) && M.Ordered(m)
      && CachesOk(m, groups, View(), early, earlyApps, closed, lastClosed, derived)
      && cacheEntries == |derived| <= store.limits.envs
    }

    /** The first view of a new store. */
    constructor (store: SharedStore, m: M.Module, groups: seq<seq<bool>>)
      requires store.Valid() && M.Ordered(m)
      ensures Valid() && View() == EMPTY_TABLE
      ensures this.store == store && this.m == m && this.groups == groups
      ensures closed == map[] && lastClosed == None && derived == map[] && early == {} && earlyApps == {}
    {
      hide IsIndex, DepthsOk;
      this.store, this.m, this.groups := store, m, groups;
      types, typeIndex, depths := [], map[], [];
      envs, envIndex := [EMPTY_ENV], map[EMPTY_ENV := 0];
      closed, lastClosed, derived, cacheEntries := map[], None, map[], 0;
      early, earlyApps := {}, {};
      new;
      EmptyWellFormed();
      assert Prefix(View(), store.Contents());
    }

    /** Append the records of a delta, one at a time. */
    method Apply(d: Delta)
      requires |d.types| == |d.depths|
      modifies `types, `typeIndex, `depths, `envs, `envIndex
      ensures View() == ApplyDelta(old(View()), d)
    {
      ghost var v := View();
      for k := 0 to |d.types|
        invariant View() == AppendTypes(v, d.types[..k], d.depths[..k])
      {
        assert d.types[..k + 1][..k] == d.types[..k] && d.depths[..k + 1][..k] == d.depths[..k];
        typeIndex := typeIndex[d.types[k] := |types|];
        types := types + [d.types[k]];
        depths := depths + [d.depths[k]];
      }
      assert d.types[..|d.types|] == d.types && d.depths[..|d.types|] == d.depths;
      ghost var t := View();
      for k := 0 to |d.envs|
        invariant View() == AppendEnvs(t, d.envs[..k])
      {
        assert d.envs[..k + 1][..k] == d.envs[..k];
        envIndex := envIndex[d.envs[k] := |envs|];
        envs := envs + [d.envs[k]];
      }
      assert d.envs[..|d.envs|] == d.envs;
    }

    /** Read the delta under the lock and append it: the view is complete. */
    method CatchUpView()
      requires Valid()
      modifies `types, `typeIndex, `depths, `envs, `envIndex
      ensures Valid() && View() == store.Contents() && Later(old(View()), View())
    {
      hide WellFormed, EnvsNamed, ApplyDelta, CachesOk, Packed;
      ghost var v := View();
      SyncedView(v, store.Contents());
      var d := Delta(store.types[|types|..], store.depths[|types|..], store.envs[|envs|..]);
      Apply(d);
      CachesGrow(m, groups, v, View(), early, earlyApps, closed, lastClosed, derived);
    }

    /** Copy the records that other views added. */
    method SyncShared()
      requires Valid()
      modifies `types, `typeIndex, `depths, `envs, `envIndex, store
      ensures Valid() && View() == store.Contents()
      ensures Later(old(View()), View()) && Later(old(store.Contents()), View())
    {
      hide WellFormed, EnvsNamed, CachesOk, Packed;
      store.Yield();
      LaterTransitive(View(), old(store.Contents()), store.Contents());
      if store.counts == Packed(|types|, |envs|) {
        CountsDecide(View(), store.Contents(), store.limits);
        return;
      }
      label B:
      store.Yield();
      LaterTransitive(View(), old@B(store.Contents()), store.Contents());
      LaterTransitive(old(store.Contents()), old@B(store.Contents()), store.Contents());
      CatchUpView();
    }

    /** Another view of the same store, with empty caches. */
    constructor Fork(other: TypeEnvs)
      requires other.Valid()
      ensures Valid() && View() == other.View() && store == other.store && m == other.m && groups == other.groups
      ensures closed == map[] && lastClosed == None && derived == map[] && early == {} && earlyApps == {}
    {
      hide WellFormed, EnvsNamed;
      store, m, groups := other.store, other.m, other.groups;
      types, typeIndex, depths := other.types, other.typeIndex, other.depths;
      envs, envIndex := other.envs, other.envIndex;
      closed, lastClosed, derived, cacheEntries := map[], None, map[], 0;
      early, earlyApps := {}, {};
    }

    /** Synchronise, then create another view. */
    method ForkShared() returns (f: TypeEnvs)
      requires Valid()
      modifies `types, `typeIndex, `depths, `envs, `envIndex, store
      ensures Valid() && Later(old(View()), View()) && Later(old(store.Contents()), View())
      ensures fresh(f) && f.Valid() && f.store == store && f.View() == View() == store.Contents()
      ensures f.m == m && f.groups == groups
      ensures f.closed == map[] && f.lastClosed == None && f.derived == map[]
      ensures f.early == {} && f.earlyApps == {}
    {
      hide WellFormed, EnvsNamed, CachesOk;
      SyncShared();
      f := new TypeEnvs.Fork(this);
    }

    /** Intern one closed type node. It fails exactly for a node that is not in
        the store and cannot be added: a child is missing, the type is more
        than 128 deep, or the store is at its cap. */
    method Intern(node: ClosedType) returns (r: Result<nat>)
      requires Valid()
      modifies `types, `typeIndex, `depths, `envs, `envIndex, store
      ensures Valid() && Later(old(View()), View()) && Later(old(store.Contents()), store.Contents())
      ensures r.Ok? ==> r.value < |types| && types[r.value] == node
      ensures r.Err? <==> Refused(View(), store.Contents(), store.limits, node)
      ensures r.Err? ==> r.error.types
    {
      hide WellFormed, EnvsNamed, CachesOk, Packed, Deepest, DepthOf, Refused;
      IndexedNodes(View());
      Held(View(), store.Contents(), store.limits, node);
      if node in typeIndex { return Ok(typeIndex[node]); }
      SyncShared();
      IndexedNodes(View());
      Held(View(), store.Contents(), store.limits, node);
      if node in typeIndex { return Ok(typeIndex[node]); }
      var depth := FindDepth(node, depths);
      RefusedDepth(View(), store.Contents(), store.limits, node);
      if depth.None? || depth.value > MAX_CLOSED_DEPTH { return Err(TypeEnvFull(true)); }
      r := InternLocked(node, depth.value);
    }

    /** The locked section of `intern` and the delta that follows it. */
    method InternLocked(node: ClosedType, depth: nat) returns (r: Result<nat>)
      requires Valid() && node !in typeIndex && DepthOf(node, depths) == Some(depth) && depth <= MAX_CLOSED_DEPTH
      modifies `types, `typeIndex, `depths, `envs, `envIndex, store
      ensures Valid() && Later(old(View()), View()) && Later(old(store.Contents()), store.Contents())
      ensures r.Ok? ==> r.value < |types| && types[r.value] == node
      ensures r.Err? <==> Refused(View(), store.Contents(), store.limits, node)
      ensures r.Err? ==> r.error.types
    {
      hide WellFormed, EnvsNamed, CachesOk, Packed, Deepest, DepthOf, Refused;
      store.Yield();
      label B:
      LaterTransitive(View(), old(store.Contents()), store.Contents());
      ViewDepthNow(View(), store.Contents(), node);
      LockedTypeKeeps(View(), store.Contents(), store.limits, node);
      r := store.LockedIntern(node, depth);
      LaterTransitive(old(store.Contents()), old@B(store.Contents()), store.Contents());
      LaterTransitive(View(), old@B(store.Contents()), store.Contents());
      if r.Err? {
        RefusedFull(View(), store.Contents(), store.limits, node);
        return;
      }
      CatchUpView();
      Held(View(), store.Contents(), store.limits, node);
    }

    /** Intern one environment; the empty one is always environment zero. It
        fails exactly when the store does not hold it and is at its cap. */
    method InternEnv(env: TypeEnv) returns (r: Result<nat>)
      requires Valid() && AllBelow(env.types, |types|)
      modifies `types, `typeIndex, `depths, `envs, `envIndex, store
      ensures Valid() && Later(old(View()), View()) && Later(old(store.Contents()), store.Contents())
      ensures r.Ok? ==> r.value < |envs| && envs[r.value] == env
      ensures r.Err? <==> env !in store.envs && |store.envs| == store.limits.envs
      ensures r.Err? ==> !r.error.types
    {
      hide WellFormed, EnvsNamed, CachesOk, Packed;
      IndexedEnvs(View());
      if env == EMPTY_ENV { return Ok(0); }
      if env in envIndex { return Ok(envIndex[env]); }
      SyncShared();
      IndexedEnvs(View());
      if env in envIndex { return Ok(envIndex[env]); }
      label B:
      store.Yield();
      label C:
      LaterTransitive(View(), old@B(store.Contents()), store.Contents());
      LockedEnvKeeps(store.Contents(), store.limits, env);
      IndexedEnvs(store.Contents());
      r := store.LockedInternEnv(env);
      LaterTransitive(old(store.Contents()), old@B(store.Contents()), old@C(store.Contents()));
      LaterTransitive(old(store.Contents()), old@C(store.Contents()), store.Contents());
      LaterTransitive(View(), old@C(store.Contents()), store.Contents());
      if r.Err? { return; }
      label D:
      CatchUpView();
      LaterTransitive(old(View()), old@D(View()), View());
    }

    /** Close one module type node whose children are closed. */
    method CloseFlat(ty: nat, env: nat) returns (r: Result<nat>)
      requires Valid()
      requires forall c :: c in Kids(m, ty) ==> (c, env) in closed
      modifies `types, `typeIndex, `depths, `envs, `envIndex, store
      ensures Valid() && Later(old(View()), View()) && Later(old(store.Contents()), store.Contents())
      ensures r.Ok? ==> EntryOk(m, groups, View(), Noted(early, old(View()), ty, env), ty, env, r.value)
      ensures r.Err? ==> r.error.types
      ensures r.Err? && Fixed(m, old(View()), View(), ty, env) && Clean(m, View(), early, ty, env) ==>
                NodeTooMuch(m, groups, View(), store.Contents(), store.limits, ty, env)
    {
      hide WellFormed, EnvsNamed, Packed, Refused, EntryOk, Clean, NodeTooMuch, DerivedOk, LastOk, Build, ClosedRow;
      ghost var t := View();
      var node := M.NodeAt(m, ty);
      if node.Var? {
        VarEntry(m, groups, t, early, ty, env);
        if env < |envs| && node.index < |envs[env].types| {
          LaterSame(t);
          LaterSame(store.Contents());
          return Ok(envs[env].types[node.index]);
        }
        r := Intern(Unit);
        UnitDone(m, groups, t, View(), store.Contents(), store.limits, early, ty, env, r);
        return;
      }
      var row := CloseRow(M.RowOf(node), if env < |envs| then envs[env].rows else [], groups);
      var memo := closed;
      var child := (c: nat) => if (c, env) in memo then memo[(c, env)] else 0;
      ChildEntries(m, groups, t, early, memo, ty, env, child);
      var built := Build(node, child, row);
      r := Intern(built);
      BuiltDone(m, groups, t, View(), store.Contents(), store.limits, early, ty, env, child, r);
    }

    /** The stack walk of `close`: every type it opens is closed, children
        first, without repeating a closed one. */
    method CloseLoop(ty: nat, env: nat) returns (r: Result<nat>)
      requires Valid()
      modifies `types, `typeIndex, `depths, `envs, `envIndex, `closed, `early, store
      ensures Valid() && Later(old(View()), View()) && Later(old(store.Contents()), store.Contents())
      ensures EarlyGrew(m, old(early), early, env < |old(envs)|, ty, env) && Kept(old(closed), closed)
      ensures r.Ok? ==> (ty, env) in closed && closed[(ty, env)] == r.value
      ensures r.Err? ==> r.error.types
      ensures r.Err? && Fixed(m, old(View()), View(), ty, env) && Clean(m, View(), early, ty, env) ==>
                TooMuch(m, groups, View(), store.Contents(), store.limits, ty, env)
    {
      hide WellFormed, EnvsNamed, Packed, EntryOk, Clean, TooMuch, NodeTooMuch, CachesOk, StackOk, Wanted, StackWeight,
        Kids, AllBelowType, EarlyGrew, Kept, Fixed;
      var stack := [Frame(ty, false)];
      FirstFrame(m, closed, ty, env);
      LaterSame(View());
      LaterSame(store.Contents());
      NothingNoted(m, early, closed, env < |envs|, ty, env);
      while stack != []
        invariant Valid() && Later(old(View()), View()) && Later(old(store.Contents()), store.Contents())
        invariant EarlyGrew(m, old(early), early, env < |old(envs)|, ty, env) && Kept(old(closed), closed)
        invariant StackOk(m, stack, closed, env) && Wanted(stack, closed, env, ty) && AllBelowType(m, stack, ty)
        decreases StackWeight(m, stack)
      {
        var last := |stack| - 1;
        var cur, expanded, rest := stack[last].item, stack[last].expanded, stack[..last];
        PopLighter(m, stack, ty);
        if (cur, env) in closed {
          PopTop(m, stack, closed, closed, env, ty);
          stack := rest;
        } else if !expanded {
          OpenTop(m, stack, closed, env, ty);
          OpenLighter(m, stack);
          OpenBelow(m, stack, ty);
          stack := rest + [Frame(cur, true)] + Opened(Kids(m, cur));
        } else {
          forall c | c in Kids(m, cur) ensures (c, env) in closed { KidsClosed(m, stack, closed, env, c); }
          label B:
          var one := CloseFlat(cur, env);
          LaterTransitive(old(View()), old@B(View()), View());
          LaterTransitive(old(store.Contents()), old@B(store.Contents()), store.Contents());
          if one.Err? {
            PartFails(m, groups, old(View()), old@B(View()), View(), store.Contents(), store.limits, early, ty, cur,
                      env);
            return one;
          }
          ghost var noted := Noted(early, old@B(View()), cur, env);
          CachesAdd(m, groups, View(), early, noted, earlyApps, closed, lastClosed, derived, cur, env, one.value);
          PopTop(m, stack, closed, closed[(cur, env) := one.value], env, ty);
          OneNoted(m, old(early), early, old(View()), old@B(View()), old(closed), closed, ty, cur, env, one.value);
          closed, early := closed[(cur, env) := one.value], noted;
          stack := rest;
        }
      }
      assert (ty, env) in closed by { NothingWanted(closed, env, ty); }
      r := Ok(closed[(ty, env)]);
    }

    /** Close one module type under any environment. The answer comes from the
        last answer, from the memo, or from a walk. It is the entry that unfolds
        to the substituted type, unless the environment was not held at first,
        is now, and a part of the type that depends on it was memoised before.
        It fails exactly when the type cannot be closed, unless the environment
        arrives meanwhile. A memoised type is answered from the memo. */
    method Close(ty: nat, env: nat) returns (r: Result<nat>)
      requires Valid()
      modifies `types, `typeIndex, `depths, `envs, `envIndex, `closed, `lastClosed, `early, store
      ensures Valid() && Later(old(View()), View()) && Later(old(store.Contents()), store.Contents())
      ensures EarlyGrew(m, old(early), early, env < |old(envs)|, ty, env) && Kept(old(closed), closed)
      ensures (ty, env) in old(closed) ==>
                && r == Ok(old(closed)[(ty, env)]) && closed == old(closed) && early == old(early)
                && View() == old(View()) && store.Contents() == old(store.Contents())
      ensures r.Ok? ==> (ty, env) in closed && closed[(ty, env)] == r.value
      ensures r.Ok? ==> EntryOk(m, groups, View(), early, ty, env, r.value)
      ensures Clean(m, View(), early, ty, env) && Fixed(m, old(View()), View(), ty, env) ==>
                && (r.Ok? ==> Closes(m, groups, View(), ty, env, r.value))
                && (r.Err? <==> TooMuch(m, groups, View(), store.Contents(), store.limits, ty, env))
      ensures r.Err? ==> r.error.types
    {
      hide WellFormed, EnvsNamed, Packed, EntryOk, Clean, TooMuch, Closes, DerivedOk, EarlyGrew, Kept, Fixed;
      LaterSame(View());
      LaterSame(store.Contents());
      NothingNoted(m, early, closed, env < |envs|, ty, env);
      if lastClosed.Some? && lastClosed.value.0 == ty && lastClosed.value.1 == env {
        r := Ok(lastClosed.value.2);
      } else if (ty, env) in closed {
        r := Ok(closed[(ty, env)]);
        lastClosed := Some((ty, env, r.value));
      } else {
        r := CloseLoop(ty, env);
        if r.Err? { return; }
        lastClosed := Some((ty, env, r.value));
      }
      assert EntryOk(m, groups, View(), early, (ty, env).0, (ty, env).1, closed[(ty, env)]);
      EntryAnswers(m, groups, View(), store.Contents(), store.limits, early, ty, env, r.value);
    }

    /** Close the type arguments of an application, in order. */
    method CloseEach(tys: seq<nat>, parent: nat) returns (r: Result<seq<nat>>)
      requires Valid()
      modifies `types, `typeIndex, `depths, `envs, `envIndex, `closed, `lastClosed, `early, store
      ensures Valid() && Later(old(View()), View()) && Later(old(store.Contents()), store.Contents())
      ensures GrewUnder(old(early), early, parent < |old(envs)|, parent) && Kept(old(closed), closed)
      ensures r.Ok? ==> |r.value| == |tys| && ClosedSoFar(m, groups, View(), early, parent, tys, r.value)
      ensures r.Err? ==> r.error.types
      ensures r.Err? ==>
                ArgumentFails(m, groups, old(View()), View(), store.Contents(), store.limits, early, parent, tys)
    {
      hide WellFormed, EnvsNamed, Packed, Closes, EntryOk, Clean, TooMuch, CachesOk, ClosedSoFar, ArgumentFails, Fixed,
        EarlyGrew, GrewUnder, Kept;
      var ids: seq<nat> := [];
      NoneClosed(m, groups, View(), early, parent, tys);
      LaterSame(View());
      LaterSame(store.Contents());
      NothingNoted(m, early, closed, parent < |envs|, 0, parent);
      for k := 0 to |tys|
        invariant Valid() && Later(old(View()), View()) && Later(old(store.Contents()), store.Contents())
        invariant GrewUnder(old(early), early, parent < |old(envs)|, parent) && Kept(old(closed), closed)
        invariant |ids| == k && ClosedSoFar(m, groups, View(), early, parent, tys, ids)
      {
        label B:
        var one := Close(tys[k], parent);
        LaterTransitive(old(View()), old@B(View()), View());
        LaterTransitive(old(store.Contents()), old@B(store.Contents()), store.Contents());
        MoreNoted(m, old(early), old@B(early), early, old(View()), old@B(View()), old(closed), old@B(closed), closed,
                  tys[k], parent);
        if one.Err? {
          ThisFails(m, groups, old(View()), old@B(View()), View(), store.Contents(), store.limits, early, parent, tys,
                    k);
          return Err(one.error);
        }
        ClosedMore(m, groups, old@B(View()), View(), old@B(early), early, parent, tys, ids, one.value);
        ids := ids + [one.value];
      }
      r := Ok(ids);
    }

    method CloseRows(rows: seq<seq<RowElem>>, bound: seq<Row>) returns (r: seq<Row>)
      ensures |r| == |rows| && forall k :: 0 <= k < |rows| ==> r[k] == ClosedRow(rows[k], bound, groups)
    {
      hide ClosedRow;
      r := [];
      for k := 0 to |rows|
        invariant |r| == k && forall j :: 0 <= j < k ==> r[j] == ClosedRow(rows[j], bound, groups)
      {
        var row := CloseRow(rows[k], bound, groups);
        r := r + [row];
      }
    }

    /** Derive the environment of a type application under any parent, from the
        cache or by closing its arguments. It is the environment of the closed
        arguments, and it fails exactly when there is none, with the exceptions
        of closing. A cached derivation is answered from the cache. */
    method Derive(parent: nat, app: nat) returns (r: Result<nat>)
      requires Valid()
      modifies this, store
      ensures Valid() && Later(old(View()), View()) && Later(old(store.Contents()), store.Contents())
      ensures GrewUnder(old(early), early, parent < |old(envs)|, parent) && Kept(old(closed), closed)
      ensures old(earlyApps) <= earlyApps <= NotedApp(old(earlyApps), old(View()), parent, app)
      ensures Kept(old(derived), derived)
      ensures (parent, app) in old(derived) ==>
                && r == Ok(old(derived)[(parent, app)]) && derived == old(derived) && closed == old(closed)
                && View() == old(View()) && store.Contents() == old(store.Contents())
      ensures r.Ok? ==> r.value < |envs|
      ensures CleanApp(m, View(), early, earlyApps, parent, app) && FixedApp(m, old(View()), View(), parent, app) ==>
                && (r.Ok? ==> Derives(m, groups, View(), parent, app, r.value))
                && (r.Err? <==> Underivable(m, groups, View(), store.Contents(), store.limits, parent, app))
      ensures r.Err? ==>
                CannotDerive(m, groups, old(View()), View(), store.Contents(), store.limits, early, parent, app,
                             r.error.types)
    {
      hide WellFormed, EnvsNamed, Packed, Closes, MemoOk, LastOk, Derives, CleanArgs, FixedApp, CannotDerive,
        Underivable, AppGround, GrewUnder, EarlyGrew;
      LaterSame(View());
      LaterSame(store.Contents());
      NothingNoted(m, early, closed, parent < |envs|, 0, parent);
      if (parent, app) in derived {
        r := Ok(derived[(parent, app)]);
        assert DerivationOk(m, groups, View(), early, earlyApps, (parent, app).0, (parent, app).1, r.value);
        DerivedAnswers(m, groups, View(), store.Contents(), store.limits, parent, app, r.value);
        return;
      }
      if app >= |m.apps| {
        DerivesNothing(m, groups, View(), parent, app);
        DerivedAnswers(m, groups, View(), store.Contents(), store.limits, parent, app, 0);
        return Ok(0);
      }
      r := DeriveMiss(parent, app);
      if r.Ok? {
        DerivedAnswers(m, groups, View(), store.Contents(), store.limits, parent, app, r.value);
        CacheDerived(parent, app, r.value, old(View()));
      }
    }

    /** Cache a derivation under a held parent while there is room. */
    method CacheDerived(parent: nat, app: nat, id: nat, ghost was: Table)
      requires Valid() && (parent, app) !in derived && id < |envs|
      requires FixedApp(m, was, View(), parent, app) && CleanArgs(m, View(), early, parent, app) ==>
                 Derives(m, groups, View(), parent, app, id)
      modifies `derived, `cacheEntries, `earlyApps
      ensures Valid() && Kept(old(derived), derived)
      ensures derived ==
                if old(cacheEntries) < store.limits.envs && parent < |envs| then old(derived)[(parent, app) := id]
                else old(derived)
      ensures old(earlyApps) <= earlyApps <= NotedApp(old(earlyApps), was, parent, app)
    {
      hide WellFormed, EnvsNamed, Packed, MemoOk, LastOk, DerivedOk, Derives, CleanArgs, FixedApp;
      if cacheEntries < store.limits.envs && parent < |envs| {
        DerivedAdd(m, groups, was, View(), early, earlyApps, derived, parent, app, id);
        earlyApps := NotedApp(earlyApps, was, parent, app);
        derived := derived[(parent, app) := id];
        cacheEntries := cacheEntries + 1;
      }
    }

    method DeriveMiss(parent: nat, app: nat) returns (r: Result<nat>)
      requires Valid() && app < |m.apps|
      modifies `types, `typeIndex, `depths, `envs, `envIndex, `closed, `lastClosed, `early, store
      ensures Valid() && Later(old(View()), View()) && Later(old(store.Contents()), store.Contents())
      ensures GrewUnder(old(early), early, parent < |old(envs)|, parent) && Kept(old(closed), closed)
      ensures r.Ok? ==> r.value < |envs|
      ensures FixedApp(m, old(View()), View(), parent, app) && CleanArgs(m, View(), early, parent, app) ==>
                && (r.Ok? ==> Derives(m, groups, View(), parent, app, r.value))
                && (r.Err? ==> Underivable(m, groups, View(), store.Contents(), store.limits, parent, app))
      ensures r.Err? ==>
                CannotDerive(m, groups, old(View()), View(), store.Contents(), store.limits, early, parent, app,
                             r.error.types)
    {
      hide WellFormed, EnvsNamed, Packed, Closes, CachesOk, ClosedSoFar, ClosedRow, ArgumentFails, CleanArgs, FixedApp,
        Underivable, Applied, GrewUnder, Kept;
      var entry := m.apps[app];
      var tys := CloseEach(entry.types, parent);
      if tys.Err? {
        ArgumentUnderivable(m, groups, old(View()), View(), store.Contents(), store.limits, early, parent, app);
        return Err(tys.error);
      }
      var rows := CloseRows(entry.rows, if parent < |envs| then envs[parent].rows else []);
      SoFarBelow(m, groups, View(), early, parent, entry.types, tys.value);
      label B:
      r := InternEnv(TypeEnv(tys.value, rows));
      LaterTransitive(old(View()), old@B(View()), View());
      LaterTransitive(old(store.Contents()), old@B(store.Contents()), store.Contents());
      AppliedNow(m, groups, old(View()), old@B(View()), View(), early, parent, app, TypeEnv(tys.value, rows));
      if r.Err? && FixedApp(m, old(View()), View(), parent, app) && CleanArgs(m, View(), early, parent, app) {
        FullUnderivable(m, groups, View(), store.Contents(), store.limits, parent, app, TypeEnv(tys.value, rows));
      }
    }

    /** Prepare an import against the synchronised view; no record is added. */
    method PrepareImport(sourceTypes: seq<ClosedType>, sourceEnvs: seq<TypeEnv>) returns (r: Result<Plan>)
      requires Valid() && BottomUp(sourceTypes)
      requires SourceNamed(sourceTypes, sourceEnvs)
      modifies `types, `typeIndex, `depths, `envs, `envIndex, store
      ensures Valid() && Later(old(View()), View()) && Later(old(store.Contents()), store.Contents())
      ensures View() == store.Contents() && r == PrepareSpec(View(), store.limits, sourceTypes, sourceEnvs)
      ensures r.Ok? ==> PlanOk(r.value, store.Contents(), store.limits)
    {
      hide WellFormed, EnvsNamed, CachesOk, PlanTypes, PlanEnvs, PlanOk, Packed;
      SyncShared();
      var view := Table(types, typeIndex, depths, envs, envIndex);
      var tp := PlanTypesLoop(view, store.limits.types, sourceTypes);
      if tp.Err? { return Err(tp.error); }
      var ep := PlanEnvsLoop(view, store.limits.envs, tp.value.mapping, sourceEnvs);
      if ep.Err? { return Err(ep.error); }
      r := Ok(Plan(tp.value, ep.value, |types|, |envs|));
      PlanAgainstView(View(), store.Contents(), store.limits, sourceTypes, sourceEnvs);
    }

    /** Commit a plan that a view of the same store prepared. `seen` is the
        store at the moment the section is entered. A stale plan changes
        nothing; otherwise exactly the plan is appended, to store and view. */
    method CommitImport(p: Plan) returns (ok: bool, ghost seen: Table)
      requires Valid() && PlanOk(p, store.Contents(), store.limits)
      modifies `types, `typeIndex, `depths, `envs, `envIndex, store
      ensures Valid() && Later(old(View()), View())
      ensures Later(old(store.Contents()), seen)
      ensures ok == !(Stale(old(View()), p) || Stale(seen, p))
      ensures !ok ==> View() == old(View()) && store.Contents() == seen
      ensures ok ==> old(View()) == seen && View() == store.Contents() == Imported(seen, p)
    {
      hide WellFormed, EnvsNamed, CachesOk, Packed, PlanSound, Take, Imported;
      seen := store.Contents();
      if |types| != p.baseTypes || |envs| != p.baseEnvs { return false, seen; }
      store.Yield();
      seen := store.Contents();
      LaterTransitive(View(), old(store.Contents()), seen);
      PlanKept(p, old(store.Contents()), seen, store.limits);
      ok := store.LockedCommit(p);
      if !ok { return; }
      LaterTransitive(View(), seen, store.Contents());
      SameLengths(View(), seen);
      CatchUpView();
    }
  }

  /** Why interning a node fails. */
  ghost predicate Refused(view: Table, store: Table, limits: Limits, node: ClosedType) {
    && WellFormed(view) && node !in view.types
    && (!Below(node, |view.types|) || Height(NodeTree(view.types, node)) > MAX_CLOSED_DEPTH
        || (node !in store.types && |store.types| == limits.types))
  }

  lemma Held(view: Table, store: Table, limits: Limits, node: ClosedType)
    ensures node in view.types ==> !Refused(view, store, limits, node)
  {
  }

  lemma IndexedNodes(t: Table)
    requires WellFormed(t)
    ensures forall node :: node in t.typeIndex ==> t.typeIndex[node] < |t.types| && t.types[t.typeIndex[node]] == node
    ensures forall node :: node in t.typeIndex <==> node in t.types
  {
    hide DepthsOk;
  }

  lemma IndexedEnvs(t: Table)
    requires WellFormed(t)
    ensures |t.envs| > 0 && t.envs[0] == EMPTY_ENV
    ensures forall env :: env in t.envIndex ==> t.envIndex[env] < |t.envs| && t.envs[t.envIndex[env]] == env
    ensures forall env :: env in t.envIndex <==> env in t.envs
  {
    hide DepthsOk;
  }

  lemma RefusedDepth(view: Table, store: Table, limits: Limits, node: ClosedType)
    requires WellFormed(view) && node !in view.typeIndex
    ensures DepthOf(node, view.depths).None? ==> Refused(view, store, limits, node)
    ensures DepthOf(node, view.depths).Some? ==>
              DepthOf(node, view.depths).value > MAX_CLOSED_DEPTH ==> Refused(view, store, limits, node)
  {
    hide WellFormed, EnvsNamed, Deepest, Height, NodeTree;
    TableParts(view);
    IndexedNodes(view);
    if DepthOf(node, view.depths).Some? {
      NodeOver(view, node);
    }
  }

  lemma NodeOver(t: Table, node: ClosedType)
    requires WellFormed(t) && DepthOf(node, t.depths).Some?
    ensures BottomUp(t.types) && Below(node, |t.types|)
    ensures DepthOf(node, t.depths).value == Height(NodeTree(t.types, node))
  {
    NodeDepth(t.types, t.depths, node);
  }

  lemma RefusedFull(view: Table, store: Table, limits: Limits, node: ClosedType)
    requires WellFormed(view) && WellFormed(store) && node !in view.typeIndex && node !in store.typeIndex
    requires |store.types| == limits.types
    ensures Refused(view, store, limits, node)
  {
    hide WellFormed, EnvsNamed, Below, Height, NodeTree;
    IndexedNodes(view);
    IndexedNodes(store);
  }

  lemma ViewDepthNow(v: Table, store: Table, node: ClosedType)
    requires Later(v, store) && DepthOf(node, v.depths).Some?
    ensures AllBelow(Children(node), |store.types|) && |store.types| == |store.depths|
    ensures DepthOf(node, v.depths).value == Deepest(Children(node), store.depths)
    ensures ViewOk(v, store)
  {
    hide WellFormed, EnvsNamed, Deepest;
    ViewDepth(v, store, node);
  }

  /** A plan stays good while the store grows. */
  lemma PlanKept(p: Plan, store: Table, store': Table, limits: Limits)
    requires Later(store, store') && PlanOk(p, store, limits)
    ensures PlanOk(p, store', limits)
  {
    hide WellFormed, EnvsNamed, PlanSound, Take;
    TableParts(store);
    TableParts(store');
    TakeStable(store, store', p.baseTypes, p.baseEnvs);
  }

  // ----------------------------------------------------- closing one node

  /** This node cannot be added: too deep, or no room and not there. */
  ghost predicate NodeTooMuch(m: M.Module, groups: seq<seq<bool>>, view: Table, store: Table, limits: Limits, ty: nat,
                              env: nat)
    requires M.Ordered(m) && Later(view, store)
  {
    || Height(Meaning(m, groups, view, ty, env)) > MAX_CLOSED_DEPTH
    || (|store.types| == limits.types && !Holds(store, Meaning(m, groups, view, ty, env)))
  }

  /** A refused node whose children are there. */
  lemma RefusedTree(view: Table, store: Table, limits: Limits, node: ClosedType)
    requires Later(view, store) && BottomUp(view.types) && Below(node, |view.types|)
    requires Refused(view, store, limits, node)
    ensures || Height(NodeTree(view.types, node)) > MAX_CLOSED_DEPTH
            || (|store.types| == limits.types && !Holds(store, NodeTree(view.types, node)))
  {
    hide WellFormed, EnvsNamed, NodeTree, Holds, Height;
    IndexedNodes(store);
    if node !in store.types { NotHeld(view, store, node); }
  }

  lemma VarEntry(m: M.Module, groups: seq<seq<bool>>, t: Table, early: Keys, ty: nat, env: nat)
    requires M.Ordered(m) && Sound(t) && M.NodeAt(m, ty).Var?
    ensures var i := M.NodeAt(m, ty).index;
      if env < |t.envs| && i < |t.envs[env].types| then EntryOk(m, groups, t, early, ty, env, t.envs[env].types[i])
      else Meaning(m, groups, t, ty, env) == UNIT_TREE
  {
    hide Sound, Meaning, Unfold;
    VarMeans(m, groups, t, ty, env);
  }

  lemma UnitDone(m: M.Module, groups: seq<seq<bool>>, t: Table, t': Table, store: Table, limits: Limits, early: Keys,
                 ty: nat, env: nat, r: Result<nat>)
    requires M.Ordered(m) && Later(t, t') && Later(t', store)
    requires M.NodeAt(m, ty).Var? && Meaning(m, groups, t, ty, env) == UNIT_TREE
    requires r.Ok? ==> r.value < |t'.types| && t'.types[r.value] == Unit
    requires r.Err? ==> Refused(t', store, limits, Unit)
    ensures r.Ok? ==> EntryOk(m, groups, t', Noted(early, t, ty, env), ty, env, r.value)
    ensures r.Err? && Fixed(m, t, t', ty, env) ==> NodeTooMuch(m, groups, t', store, limits, ty, env)
  {
    hide Sound, Meaning, NodeTree, Refused, Holds, Height, Unfold, Clean, Fixed;
    if r.Ok? {
      if Clean(m, t', Noted(early, t, ty, env), ty, env) {
        NotedReady(m, t, t', early, ty, env);
        UnitEntry(m, groups, t, t', ty, env);
        IdCloses(m, groups, t', ty, env, r.value);
      }
    } else if Fixed(m, t, t', ty, env) {
      UnitEntry(m, groups, t, t', ty, env);
      RefusedTree(t', store, limits, Unit);
    }
  }

  lemma ChildEntries(m: M.Module, groups: seq<seq<bool>>, t: Table, early: Keys, memo: Memo, ty: nat, env: nat,
                     child: nat -> nat)
    requires M.Ordered(m) && Sound(t) && MemoOk(m, groups, t, early, memo)
    requires forall c :: c in Kids(m, ty) ==> (c, env) in memo && child(c) == memo[(c, env)]
    ensures forall c :: c in M.ModuleChildren(M.NodeAt(m, ty)) ==> EntryOk(m, groups, t, early, c, env, child(c))
  {
    hide Sound, EntryOk;
    forall c | c in Kids(m, ty) ensures EntryOk(m, groups, t, early, c, env, child(c)) {
      assert (c, env) in memo;
    }
  }

  lemma BuiltDone(m: M.Module, groups: seq<seq<bool>>, t: Table, t': Table, store: Table, limits: Limits, early: Keys,
                  ty: nat, env: nat, child: nat -> nat, r: Result<nat>)
    requires M.Ordered(m) && Later(t, t') && Later(t', store) && !M.NodeAt(m, ty).Var?
    requires forall c :: c in M.ModuleChildren(M.NodeAt(m, ty)) ==> EntryOk(m, groups, t, early, c, env, child(c))
    requires var node := M.NodeAt(m, ty);
      var built := Build(node, child, ClosedRow(M.RowOf(node), Rows(t, env), groups));
      && (r.Ok? ==> r.value < |t'.types| && t'.types[r.value] == built)
      && (r.Err? ==> Refused(t', store, limits, built))
    ensures r.Ok? ==> EntryOk(m, groups, t', Noted(early, t, ty, env), ty, env, r.value)
    ensures r.Err? && Fixed(m, t, t', ty, env) && Clean(m, t', early, ty, env) ==>
              NodeTooMuch(m, groups, t', store, limits, ty, env)
  {
    hide Sound, Meaning, NodeTree, Refused, Holds, Height, EntryOk, Clean, Build, ClosedRow, Rows, Below, BottomUp,
      Fixed;
    if r.Ok? {
      BuiltEntry(m, groups, t, t', early, ty, env, child, r.value);
    } else if Fixed(m, t, t', ty, env) && Clean(m, t', early, ty, env) {
      var node := M.NodeAt(m, ty);
      BuiltTree(m, groups, t, t', early, ty, env, child);
      RefusedTree(t', store, limits, Build(node, child, ClosedRow(M.RowOf(node), Rows(t, env), groups)));
    }
  }

  // ------------------------------------------------ how the caches move on

  /** Entries of a memo never change. */
  ghost predicate Kept(memo: Memo, memo': Memo) {
    forall k :: k in memo ==> k in memo' && memo'[k] == memo[k]
  }

  /** Keys are noted only under an environment that was not held. */
  ghost predicate GrewUnder(early: Keys, early': Keys, held: bool, env: nat) {
    early <= early' && forall k :: k in early' && k !in early ==> !held && k.1 == env
  }

  /** Only parts of the closed type are noted. */
  ghost predicate EarlyGrew(m: M.Module, early: Keys, early': Keys, held: bool, ty: nat, env: nat)
    requires M.Ordered(m)
  {
    GrewUnder(early, early', held, env) && forall k :: k in early' && k !in early ==> M.SubType(m, ty, k.0)
  }

  lemma NothingNoted(m: M.Module, early: Keys, memo: Memo, held: bool, ty: nat, env: nat)
    requires M.Ordered(m)
    ensures GrewUnder(early, early, held, env) && EarlyGrew(m, early, early, held, ty, env) && Kept(memo, memo)
  {
  }

  lemma OneNoted(m: M.Module, was: Keys, early: Keys, start: Table, t: Table, memo: Memo, memo': Memo, ty: nat,
                 sub: nat, env: nat, id: nat)
    requires M.Ordered(m) && M.SubType(m, ty, sub) && |start.envs| <= |t.envs| && (sub, env) !in memo'
    requires EarlyGrew(m, was, early, env < |start.envs|, ty, env) && Kept(memo, memo')
    ensures EarlyGrew(m, was, Noted(early, t, sub, env), env < |start.envs|, ty, env)
    ensures Kept(memo, memo'[(sub, env) := id])
  {
    hide M.SubType;
  }

  lemma MoreNoted(m: M.Module, was: Keys, early: Keys, early': Keys, start: Table, t: Table, memo: Memo, memo': Memo,
                  memo'': Memo, ty: nat, env: nat)
    requires M.Ordered(m) && |start.envs| <= |t.envs|
    requires GrewUnder(was, early, env < |start.envs|, env) && EarlyGrew(m, early, early', env < |t.envs|, ty, env)
    requires Kept(memo, memo') && Kept(memo', memo'')
    ensures GrewUnder(was, early', env < |start.envs|, env) && Kept(memo, memo'') && early <= early'
  {
    hide M.SubType;
  }

  // ------------------------------------------------------- the closing walk

  /** Every type on the stack is the wanted one or below it. */
  ghost predicate AllBelowType(m: M.Module, stack: seq<Frame>, ty: nat)
    requires M.Ordered(m)
  {
    forall p :: 0 <= p < |stack| ==> M.SubType(m, ty, stack[p].item)
  }

  lemma FirstFrame(m: M.Module, memo: Memo, ty: nat, env: nat)
    requires M.Ordered(m)
    ensures var stack := [Frame(ty, false)];
      StackOk(m, stack, memo, env) && Wanted(stack, memo, env, ty) && AllBelowType(m, stack, ty)
  {
    assert [Frame(ty, false)][0].item == ty;
  }

  lemma PopLighter(m: M.Module, stack: seq<Frame>, ty: nat)
    requires M.Ordered(m) && stack != [] && AllBelowType(m, stack, ty)
    ensures StackWeight(m, stack[..|stack| - 1]) < StackWeight(m, stack)
    ensures AllBelowType(m, stack[..|stack| - 1], ty) && M.SubType(m, ty, stack[|stack| - 1].item)
  {
    hide M.SubType;
  }

  lemma OpenBelow(m: M.Module, stack: seq<Frame>, ty: nat)
    requires M.Ordered(m) && stack != [] && AllBelowType(m, stack, ty)
    ensures var last := |stack| - 1; var cur := stack[last].item;
      AllBelowType(m, stack[..last] + [Frame(cur, true)] + Opened(Kids(m, cur)), ty)
  {
    hide M.SubType;
    var cur := stack[|stack| - 1].item;
    var kids := Kids(m, cur);
    forall k | 0 <= k < |kids| ensures M.SubType(m, ty, kids[k]) { M.SubTypeChild(m, ty, cur, kids[k]); }
  }

  /** A part that fails makes the whole fail. */
  lemma PartFails(m: M.Module, groups: seq<seq<bool>>, was: Table, t: Table, view: Table, store: Table, limits: Limits,
                  early: Keys, ty: nat, sub: nat, env: nat)
    requires M.Ordered(m) && |was.envs| <= |t.envs| && Later(view, store) && M.SubType(m, ty, sub)
    requires Fixed(m, t, view, sub, env) && Clean(m, view, early, sub, env) ==>
               NodeTooMuch(m, groups, view, store, limits, sub, env)
    ensures Fixed(m, was, view, ty, env) && Clean(m, view, early, ty, env) ==>
              TooMuch(m, groups, view, store, limits, ty, env)
  {
    hide Sound, Meaning, Holds, Height, TooMuch, M.Ground, M.SubType, Clean;
    if Fixed(m, was, view, ty, env) && Clean(m, view, early, ty, env) {
      if M.Ground(m, ty) { M.GroundBelow(m, ty, sub); }
      CleanPart(m, view, early, ty, sub, env);
      PartTooMuch(m, groups, view, store, limits, ty, sub, env);
    }
  }

  /** When the stack is empty the wanted type is in the memo. */
  lemma NothingWanted(memo: Memo, env: nat, ty: nat)
    requires Wanted([], memo, env, ty)
    ensures (ty, env) in memo
  {
  }

  /** A clean entry is the closed form, and shows that the type could be
      closed. */
  lemma EntryAnswers(m: M.Module, groups: seq<seq<bool>>, view: Table, store: Table, limits: Limits, early: Keys,
                     ty: nat, env: nat, id: nat)
    requires M.Ordered(m) && Later(view, store) && EntryOk(m, groups, view, early, ty, env, id)
    ensures Clean(m, view, early, ty, env) ==>
              Closes(m, groups, view, ty, env, id) && !TooMuch(m, groups, view, store, limits, ty, env)
  {
    hide Sound, Closes, TooMuch, Clean;
    if Clean(m, view, early, ty, env) { ClosedNotTooMuch(m, groups, view, store, limits, ty, env, id); }
  }

  // ------------------------------------------------------------- deriving

  /** The first arguments of an application are closed. */
  ghost predicate ClosedSoFar(m: M.Module, groups: seq<seq<bool>>, t: Table, early: Keys, parent: nat, tys: seq<nat>,
                              ids: seq<nat>)
    requires M.Ordered(m) && Sound(t)
  {
    |ids| <= |tys| && forall k :: 0 <= k < |ids| ==> EntryOk(m, groups, t, early, tys[k], parent, ids[k])
  }

  lemma NoneClosed(m: M.Module, groups: seq<seq<bool>>, t: Table, early: Keys, parent: nat, tys: seq<nat>)
    requires M.Ordered(m) && Sound(t)
    ensures ClosedSoFar(m, groups, t, early, parent, tys, [])
  {
    hide Sound;
  }

  lemma ClosedMore(m: M.Module, groups: seq<seq<bool>>, t: Table, t': Table, early: Keys, early': Keys, parent: nat,
                   tys: seq<nat>, ids: seq<nat>, id: nat)
    requires M.Ordered(m) && Later(t, t') && ClosedSoFar(m, groups, t, early, parent, tys, ids) && early <= early'
    requires |ids| < |tys| && EntryOk(m, groups, t', early', tys[|ids|], parent, id)
    ensures ClosedSoFar(m, groups, t', early', parent, tys, ids + [id])
  {
    hide Sound, EntryOk;
    forall k | 0 <= k < |ids| ensures EntryOk(m, groups, t', early', tys[k], parent, ids[k]) {
      EntryGrows(m, groups, t, t', early, tys[k], parent, ids[k]);
      EntryMore(m, groups, t', early, early', tys[k], parent, ids[k]);
    }
  }

  lemma SoFarBelow(m: M.Module, groups: seq<seq<bool>>, t: Table, early: Keys, parent: nat, tys: seq<nat>,
                   ids: seq<nat>)
    requires M.Ordered(m) && Sound(t) && ClosedSoFar(m, groups, t, early, parent, tys, ids)
    ensures AllBelow(ids, |t.types|)
  {
    hide Sound, Closes, Clean;
  }

  /** Some argument cannot be closed, unless it is not clean or the parent
      arrived meanwhile. */
  ghost predicate ArgumentFails(m: M.Module, groups: seq<seq<bool>>, was: Table, view: Table, store: Table,
                                limits: Limits, early: Keys, parent: nat, tys: seq<nat>)
    requires M.Ordered(m) && Later(view, store)
  {
    exists ty :: ty in tys &&
      (Fixed(m, was, view, ty, parent) && Clean(m, view, early, ty, parent) ==>
         TooMuch(m, groups, view, store, limits, ty, parent))
  }

  lemma ThisFails(m: M.Module, groups: seq<seq<bool>>, was: Table, t: Table, view: Table, store: Table, limits: Limits,
                  early: Keys, parent: nat, tys: seq<nat>, k: nat)
    requires M.Ordered(m) && |was.envs| <= |t.envs| && Later(view, store) && k < |tys|
    requires Fixed(m, t, view, tys[k], parent) && Clean(m, view, early, tys[k], parent) ==>
               TooMuch(m, groups, view, store, limits, tys[k], parent)
    ensures ArgumentFails(m, groups, was, view, store, limits, early, parent, tys)
  {
    hide Sound, Clean, TooMuch, M.Ground;
    assert tys[k] in tys;
  }

  /** Why deriving fails: a type argument cannot be closed, or the store holds
      no more environments. */
  ghost predicate CannotDerive(m: M.Module, groups: seq<seq<bool>>, was: Table, view: Table, store: Table,
                               limits: Limits, early: Keys, parent: nat, app: nat, types: bool)
    requires M.Ordered(m) && Later(view, store)
  {
    && app < |m.apps|
    && if types then ArgumentFails(m, groups, was, view, store, limits, early, parent, m.apps[app].types)
       else |store.envs| == limits.envs
  }

  /** Exactly when deriving fails: a type argument is too much, or the store is
      at its cap and holds no environment of the closed arguments. */
  ghost predicate Underivable(m: M.Module, groups: seq<seq<bool>>, view: Table, store: Table, limits: Limits,
                              parent: nat, app: nat)
    requires M.Ordered(m) && Later(view, store)
  {
    && app < |m.apps|
    && var a := m.apps[app];
    || (exists ty :: ty in a.types && TooMuch(m, groups, view, store, limits, ty, parent))
    || (|store.envs| == limits.envs && forall e :: e in store.envs ==> !Applied(m, groups, view, parent, a, e))
  }

  lemma ArgumentUnderivable(m: M.Module, groups: seq<seq<bool>>, was: Table, view: Table, store: Table, limits: Limits,
                            early: Keys, parent: nat, app: nat)
    requires M.Ordered(m) && Later(view, store) && app < |m.apps|
    requires ArgumentFails(m, groups, was, view, store, limits, early, parent, m.apps[app].types)
    ensures FixedApp(m, was, view, parent, app) && CleanArgs(m, view, early, parent, app) ==>
              Underivable(m, groups, view, store, limits, parent, app)
  {
    hide Sound, TooMuch, Applied, M.Ground, Clean;
  }

  lemma FullUnderivable(m: M.Module, groups: seq<seq<bool>>, view: Table, store: Table, limits: Limits, parent: nat,
                        app: nat, env: TypeEnv)
    requires M.Ordered(m) && Later(view, store) && app < |m.apps|
    requires Applied(m, groups, view, parent, m.apps[app], env)
    requires env !in store.envs && |store.envs| == limits.envs
    ensures Underivable(m, groups, view, store, limits, parent, app)
  {
    hide Sound, TooMuch, Applied;
    forall e | e in store.envs && Applied(m, groups, view, parent, m.apps[app], e) ensures false {
      AppliedUnique(m, groups, view, parent, m.apps[app], env, e);
    }
  }

  /** A derived environment is held by the store, and its arguments fit. */
  lemma DerivedAnswers(m: M.Module, groups: seq<seq<bool>>, view: Table, store: Table, limits: Limits, parent: nat,
                       app: nat, id: nat)
    requires M.Ordered(m) && Later(view, store)
    ensures Derives(m, groups, view, parent, app, id) ==> !Underivable(m, groups, view, store, limits, parent, app)
  {
    hide WellFormed, EnvsNamed, TooMuch, Closes;
    if Derives(m, groups, view, parent, app, id) && app < |m.apps| {
      var a, env := m.apps[app], view.envs[id];
      forall ty | ty in a.types ensures !TooMuch(m, groups, view, store, limits, ty, parent) {
        var k :| 0 <= k < |a.types| && a.types[k] == ty;
        ClosedNotTooMuch(m, groups, view, store, limits, ty, parent, env.types[k]);
      }
      assert env == store.envs[id];
    }
  }

  /** Arguments closed from `was` on and rows closed over `t` are the applied
      environment over `t'`. */
  lemma AppliedNow(m: M.Module, groups: seq<seq<bool>>, was: Table, t: Table, t': Table, early: Keys, parent: nat,
                   app: nat, env: TypeEnv)
    requires M.Ordered(m) && |was.envs| <= |t.envs| && Later(t, t') && app < |m.apps|
    requires var a := m.apps[app];
      && |env.types| == |a.types| && ClosedSoFar(m, groups, t, early, parent, a.types, env.types)
      && |env.rows| == |a.rows|
      && forall k :: 0 <= k < |a.rows| ==> env.rows[k] == ClosedRow(a.rows[k], Rows(t, parent), groups)
    ensures FixedApp(m, was, t', parent, app) && CleanArgs(m, t', early, parent, app) ==>
              Applied(m, groups, t', parent, m.apps[app], env)
  {
    hide Sound, Closes, ClosedRow, AppGround, Rows, Clean;
    if FixedApp(m, was, t', parent, app) && CleanArgs(m, t', early, parent, app) {
      var a := m.apps[app];
      forall k | 0 <= k < |env.types| ensures Closes(m, groups, t', a.types[k], parent, env.types[k]) {
        EntryGrows(m, groups, t, t', early, a.types[k], parent, env.types[k]);
      }
      forall k | 0 <= k < |env.rows| ensures env.rows[k] == ClosedRow(a.rows[k], Rows(t', parent), groups) {
        RowFixed(m, groups, t, t', parent, app, k);
      }
    }
  }

  /** The derivations cached too early once this one is cached. */
  ghost function NotedApp(apps: Keys, was: Table, parent: nat, app: nat): Keys {
    if parent < |was.envs| then apps else apps + {(parent, app)}
  }

  lemma DerivedAdd(m: M.Module, groups: seq<seq<bool>>, was: Table, t: Table, early: Keys, apps: Keys, derived: Memo,
                   parent: nat, app: nat, id: nat)
    requires M.Ordered(m) && Sound(t) && DerivedOk(m, groups, t, early, apps, derived) && parent < |t.envs|
    requires FixedApp(m, was, t, parent, app) && CleanArgs(m, t, early, parent, app) ==>
               Derives(m, groups, t, parent, app, id)
    requires id < |t.envs| && (parent, app) !in derived
    ensures DerivedOk(m, groups, t, early, NotedApp(apps, was, parent, app), derived[(parent, app) := id])
    ensures |derived[(parent, app) := id]| == |derived| + 1
  {
    hide Sound, Derives, CleanArgs, AppGround;
    var apps' := NotedApp(apps, was, parent, app);
    forall k | k in derived ensures DerivationOk(m, groups, t, early, apps', k.0, k.1, derived[k]) {
      if CleanApp(m, t, early, apps', k.0, k.1) { CleanAppFewer(m, t, early, early, apps, apps', k.0, k.1); }
    }
    assert derived[(parent, app) := id].Keys == derived.Keys + {(parent, app)};
  }

  lemma DerivesNothing(m: M.Module, groups: seq<seq<bool>>, t: Table, parent: nat, app: nat)
    requires M.Ordered(m) && Sound(t) && app >= |m.apps|
    ensures |t.envs| > 0 && Derives(m, groups, t, parent, app, 0)
  {
    hide DepthsOk, IsIndex, EnvsNamed;
  }

  // ---------------------------------------------------------- asking again

  /** Asked again after it has caught up, a view answers what it answered
      first, whatever has arrived: also when the first answer was the closed
      form over `seen`, for want of the environment, and is not any more. */
  method CloseTwice(v: TypeEnvs, ty: nat, env: nat) returns (first: Result<nat>, second: Result<nat>, ghost seen: Table)
    requires v.Valid()
    modifies v, v.store
    ensures v.Valid() && Later(seen, v.View())
    ensures first.Ok? && env >= |seen.envs| ==> Closes(v.m, v.groups, seen, ty, env, first.value)
    ensures first.Ok? ==> second == first
  {
    hide WellFormed, EnvsNamed, Packed, CachesOk, Closes, TooMuch, EntryOk, EarlyGrew, M.SubType, M.Ground;
    first := v.Close(ty, env);
    seen := v.View();
    v.SyncShared();
    label B:
    second := v.Close(ty, env);
    LaterTransitive(seen, old@B(v.View()), v.View());
  }
}
