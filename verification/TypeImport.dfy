/** Importing the type records of an image into a table: prepare and commit. */
module TypeImport {
  import opened Common
  import opened ClosedTypes
  import opened TypeTable

  /** The cap that was reached: types or environments. */
  datatype TypeEnvFull = TypeEnvFull(types: bool)

  type Result<T> = Outcome<T, TypeEnvFull>

  datatype Limits = Limits(types: nat, envs: nat)

  function Lookup(ids: seq<nat>): nat -> nat {
    (i: nat) => if i < |ids| then ids[i] else 0
  }

  /** The depth of a node over a depth column, if its children are there. */
  ghost function DepthOf(node: ClosedType, depths: seq<nat>): Option<nat> {
    if AllBelow(Children(node), |depths|) then Some(Deepest(Children(node), depths)) else None
  }

  // ------------------------------------------------------------ the plan

  /** The part of a plan about types. */
  datatype TypePlan = TypePlan(types: seq<ClosedType>, depths: seq<nat>, index: map<ClosedType, nat>, mapping: seq<nat>)

  /** The part of a plan about environments. */
  datatype EnvPlan = EnvPlan(envs: seq<TypeEnv>, index: map<TypeEnv, nat>, mapping: seq<nat>)

  datatype Plan = Plan(types: TypePlan, envs: EnvPlan, baseTypes: nat, baseEnvs: nat)

  /** One source type: found in the view, found in the plan, or planned. */
  ghost function PlanType(view: Table, max: nat, p: TypePlan, source: ClosedType): Result<TypePlan> {
    var mapped := Remap(source, Lookup(p.mapping));
    if mapped in view.typeIndex then Ok(p.(mapping := p.mapping + [view.typeIndex[mapped]]))
    else if mapped in p.index then Ok(p.(mapping := p.mapping + [p.index[mapped]]))
    else
      var next := |view.types| + |p.types|;
      if next >= max then Err(TypeEnvFull(true))
      else
        match DepthOf(mapped, view.depths + p.depths)
        case None => Err(TypeEnvFull(true))
        case Some(depth) =>
          if depth > MAX_CLOSED_DEPTH then Err(TypeEnvFull(true))
          else Ok(TypePlan(p.types + [mapped], p.depths + [depth], p.index[mapped := next], p.mapping + [next]))
  }

  ghost function PlanTypes(view: Table, max: nat, source: seq<ClosedType>): Result<TypePlan> {
    if source == [] then Ok(TypePlan([], [], map[], []))
    else
      var last := |source| - 1;
      match PlanTypes(view, max, source[..last])
      case Err(e) => Err(e)
      case Ok(p) => PlanType(view, max, p, source[last])
  }

  /** A source environment over the destination table. */
  function MapEnv(env: TypeEnv, ids: seq<nat>): TypeEnv {
    TypeEnv(Each(env.types, Lookup(ids)), env.rows)
  }

  ghost function PlanEnv(view: Table, max: nat, ids: seq<nat>, p: EnvPlan, source: TypeEnv): Result<EnvPlan> {
    var env := MapEnv(source, ids);
    if env == EMPTY_ENV then Ok(p.(mapping := p.mapping + [0]))
    else if env in view.envIndex then Ok(p.(mapping := p.mapping + [view.envIndex[env]]))
    else if env in p.index then Ok(p.(mapping := p.mapping + [p.index[env]]))
    else
      var next := |view.envs| + |p.envs|;
      if next >= max then Err(TypeEnvFull(false))
      else Ok(EnvPlan(p.envs + [env], p.index[env := next], p.mapping + [next]))
  }

  ghost function PlanEnvs(view: Table, max: nat, ids: seq<nat>, source: seq<TypeEnv>): Result<EnvPlan> {
    if source == [] then Ok(EnvPlan([], map[], []))
    else
      var last := |source| - 1;
      match PlanEnvs(view, max, ids, source[..last])
      case Err(e) => Err(e)
      case Ok(p) => PlanEnv(view, max, ids, p, source[last])
  }

  /** What preparing an import against a view answers. */
  ghost function PrepareSpec(view: Table, limits: Limits, types: seq<ClosedType>, envs: seq<TypeEnv>): Result<Plan> {
    match PlanTypes(view, limits.types, types)
    case Err(e) => Err(e)
    case Ok(tp) =>
      match PlanEnvs(view, limits.envs, tp.mapping, envs)
      case Err(e) => Err(e)
      case Ok(ep) => Ok(Plan(tp, ep, |view.types|, |view.envs|))
  }

  /** The table with the planned records appended. */
  function ImportTypes(t: Table, p: TypePlan): Table {
    t.(types := t.types + p.types, depths := t.depths + p.depths, typeIndex := t.typeIndex + p.index)
  }

  function ImportEnvs(t: Table, p: EnvPlan): Table {
    t.(envs := t.envs + p.envs, envIndex := t.envIndex + p.index)
  }

  function Imported(t: Table, p: Plan): Table {
    ImportEnvs(ImportTypes(t, p.types), p.envs)
  }

  // ------------------------------------------------------- types keep meaning

  /** Every source type so far unfolds to the same tree as its mapped id. */
  ghost predicate SameTypes(source: seq<ClosedType>, ids: seq<nat>, types: seq<ClosedType>)
    requires BottomUp(source) && BottomUp(types)
  {
    && |ids| <= |source|
    && forall i :: 0 <= i < |ids| ==> ids[i] < |types| && Unfold(types, ids[i]) == Unfold(source, i)
  }

  ghost predicate TypesOk(view: Table, max: nat, source: seq<ClosedType>, p: TypePlan) {
    && BottomUp(source)
    && WellFormed(ImportTypes(view, p))
    && SameTypes(source, p.mapping, ImportTypes(view, p).types)
    && |view.types| + |p.types| <= max
  }

  /** The remapped node of the next source type has its tree. */
  lemma MappedTree(source: seq<ClosedType>, ids: seq<nat>, types: seq<ClosedType>, k: nat)
    requires BottomUp(source) && BottomUp(types) && SameTypes(source, ids, types) && k == |ids| < |source|
    ensures var mapped := Remap(source[k], Lookup(ids));
              Below(mapped, |types|) && NodeTree(types, mapped) == Unfold(source, k)
  {
    var mapped := Remap(source[k], Lookup(ids));
    RemapChildren(source[k], Lookup(ids));
    assert Below(source[k], k);
    var was, now := Children(source[k]), Children(mapped);
    forall i | 0 <= i < |now| ensures now[i] < |types| && Unfold(types, now[i]) == Unfold(source, was[i]) {
      assert now[i] == ids[was[i]];
    }
    assert Below(mapped, |types|);
    assert NodeTree(types, mapped).kids == Unfold(source, k).kids;
  }

  lemma FoundKeeps(source: seq<ClosedType>, ids: seq<nat>, types: seq<ClosedType>, id: nat)
    requires BottomUp(source) && BottomUp(types) && SameTypes(source, ids, types) && |ids| < |source|
    requires id < |types| && types[id] == Remap(source[|ids|], Lookup(ids))
    ensures SameTypes(source, ids + [id], types)
  {
    hide Remap, Unfold, NodeTree, BottomUp, Below;
    MappedTree(source, ids, types, |ids|);
    UnfoldNode(types, id);
  }

  lemma PushedKeeps(source: seq<ClosedType>, ids: seq<nat>, types: seq<ClosedType>, types': seq<ClosedType>)
    requires BottomUp(source) && BottomUp(types) && BottomUp(types') && SameTypes(source, ids, types)
    requires |ids| < |source|
    requires types' == types + [Remap(source[|ids|], Lookup(ids))]
    ensures SameTypes(source, ids + [|types|], types')
  {
    hide Remap, Unfold, BottomUp;
    forall i | 0 <= i < |ids| ensures ids[i] < |types'| && Unfold(types', ids[i]) == Unfold(source, i) {
      UnfoldGrows(types, types', ids[i]);
    }
    FoundKeeps(source, ids, types', |types|);
  }

  /** One more source type keeps the plan sound. */
  lemma PlanTypeKeeps(view: Table, max: nat, source: seq<ClosedType>, p: TypePlan)
    requires WellFormed(view) && TypesOk(view, max, source, p) && |p.mapping| < |source|
    requires PlanType(view, max, p, source[|p.mapping|]).Ok?
    ensures var p' := PlanType(view, max, p, source[|p.mapping|]).value;
      TypesOk(view, max, source, p') && |p'.mapping| == |p.mapping| + 1
  {
    hide Remap, WellFormed, SameTypes, BottomUp, AllBelow, Deepest;
    var t := ImportTypes(view, p);
    var mapped := Remap(source[|p.mapping|], Lookup(p.mapping));
    TableParts(t);
    IndexMerged(view, p);
    if mapped in view.typeIndex || mapped in p.index {
      FoundKeeps(source, p.mapping, t.types, t.typeIndex[mapped]);
    } else {
      PlanPushed(view, max, source, p);
    }
  }

  lemma PlanPushed(view: Table, max: nat, source: seq<ClosedType>, p: TypePlan)
    requires WellFormed(view) && TypesOk(view, max, source, p) && |p.mapping| < |source|
    requires var node := Remap(source[|p.mapping|], Lookup(p.mapping));
      && node !in view.typeIndex && node !in p.index && AllBelow(Children(node), |view.types| + |p.types|)
      && |view.depths + p.depths| == |view.types| + |p.types| < max
      && Deepest(Children(node), view.depths + p.depths) <= MAX_CLOSED_DEPTH
    ensures var node, next := Remap(source[|p.mapping|], Lookup(p.mapping)), |view.types| + |p.types|;
      var depth := Deepest(Children(node), view.depths + p.depths);
      TypesOk(view, max, source,
              TypePlan(p.types + [node], p.depths + [depth], p.index[node := next], p.mapping + [next]))
  {
    hide Remap, WellFormed, SameTypes, BottomUp, AllBelow, Deepest;
    var t, node := ImportTypes(view, p), Remap(source[|p.mapping|], Lookup(p.mapping));
    var depth := Deepest(Children(node), t.depths);
    PushTypeKeeps(t, node);
    PushedIs(view, p, node, depth);
    TableParts(t);
    TableParts(PushType(t, node, depth));
    PushedKeeps(source, p.mapping, t.types, t.types + [node]);
  }

  /** The view and the plan index disjoint records. */
  lemma IndexMerged(view: Table, p: TypePlan)
    requires WellFormed(view) && WellFormed(ImportTypes(view, p))
    ensures var t := ImportTypes(view, p);
      && (forall x :: x in view.typeIndex ==> x in t.typeIndex && t.typeIndex[x] == view.typeIndex[x])
      && (forall x :: x in p.index ==> x in t.typeIndex && t.typeIndex[x] == p.index[x])
  {
    hide DepthsOk;
    var t := ImportTypes(view, p);
    forall x | x in view.typeIndex ensures x in t.typeIndex && t.typeIndex[x] == view.typeIndex[x] {
      assert t.types[view.typeIndex[x]] == x;
    }
  }

  lemma PushedIs(view: Table, p: TypePlan, node: ClosedType, depth: nat)
    ensures var next := |view.types| + |p.types|;
      ImportTypes(view, TypePlan(p.types + [node], p.depths + [depth], p.index[node := next], p.mapping + [next]))
        == PushType(ImportTypes(view, p), node, depth)
  {
    assert view.types + (p.types + [node]) == (view.types + p.types) + [node];
    assert view.depths + (p.depths + [depth]) == (view.depths + p.depths) + [depth];
    var next := |view.types| + |p.types|;
    assert view.typeIndex + p.index[node := next] == (view.typeIndex + p.index)[node := next];
  }

  lemma {:induction false} PlanTypesSound(view: Table, max: nat, source: seq<ClosedType>, k: nat)
    requires WellFormed(view) && BottomUp(source) && |view.types| <= max && k <= |source|
    requires PlanTypes(view, max, source[..k]).Ok?
    ensures var p := PlanTypes(view, max, source[..k]).value; TypesOk(view, max, source, p) && |p.mapping| == k
    decreases k
  {
    hide DepthsOk, PlanType, IsIndex;
    if k == 0 {
      NothingPlanned(view);
      TableParts(view);
    } else {
      assert source[..k][..k - 1] == source[..k - 1];
      PlanTypesSound(view, max, source, k - 1);
      PlanTypeKeeps(view, max, source, PlanTypes(view, max, source[..k - 1]).value);
    }
  }

  lemma NothingPlanned(view: Table)
    ensures ImportTypes(view, TypePlan([], [], map[], [])) == view && ImportEnvs(view, EnvPlan([], map[], [])) == view
  {
    assert view.types + [] == view.types && view.depths + [] == view.depths && view.typeIndex + map[] == view.typeIndex;
    assert view.envs + [] == view.envs && view.envIndex + map[] == view.envIndex;
  }

  // ------------------------------------------------ environments keep meaning

  /** Every source environment so far maps pointwise. */
  ghost predicate SameEnvs(source: seq<TypeEnv>, ids: seq<nat>, mapping: seq<nat>, envs: seq<TypeEnv>) {
    && |mapping| <= |source|
    && forall i :: 0 <= i < |mapping| ==> mapping[i] < |envs| && envs[mapping[i]] == MapEnv(source[i], ids)
  }

  /** The environment `e` over `types` says what `source` says over `from`: the
      same rows, and type by type the same trees. */
  ghost predicate SameEnv(from: seq<ClosedType>, source: TypeEnv, types: seq<ClosedType>, e: TypeEnv)
    requires BottomUp(from) && BottomUp(types)
  {
    && e.rows == source.rows && |e.types| == |source.types|
    && forall k :: 0 <= k < |e.types| ==>
         source.types[k] < |from| ==>
           e.types[k] < |types| && Unfold(types, e.types[k]) == Unfold(from, source.types[k])
  }

  /** Every source environment keeps its meaning under the mapping. */
  ghost predicate EnvsMean(from: seq<ClosedType>, source: seq<TypeEnv>, mapping: seq<nat>, t: Table)
    requires BottomUp(from) && BottomUp(t.types)
  {
    && |mapping| == |source|
    && forall i :: 0 <= i < |source| ==> mapping[i] < |t.envs| && SameEnv(from, source[i], t.types, t.envs[mapping[i]])
  }

  lemma MappedMeans(from: seq<ClosedType>, source: seq<TypeEnv>, ids: seq<nat>, mapping: seq<nat>, t: Table)
    requires BottomUp(from) && BottomUp(t.types) && |ids| == |from| && SameTypes(from, ids, t.types)
    requires |mapping| == |source| && SameEnvs(source, ids, mapping, t.envs)
    ensures EnvsMean(from, source, mapping, t)
  {
    hide Unfold, BottomUp;
  }

  ghost predicate EnvsOk(view: Table, max: nat, ids: seq<nat>, source: seq<TypeEnv>, p: EnvPlan) {
    && WellFormed(ImportEnvs(view, p))
    && SameEnvs(source, ids, p.mapping, ImportEnvs(view, p).envs)
    && |view.envs| + |p.envs| <= max
  }

  lemma PlanEnvKeeps(view: Table, max: nat, ids: seq<nat>, source: seq<TypeEnv>, p: EnvPlan)
    requires WellFormed(view) && EnvsOk(view, max, ids, source, p) && |p.mapping| < |source|
    requires PlanEnv(view, max, ids, p, source[|p.mapping|]).Ok?
    ensures var p' := PlanEnv(view, max, ids, p, source[|p.mapping|]).value;
      EnvsOk(view, max, ids, source, p') && |p'.mapping| == |p.mapping| + 1
  {
    hide WellFormed, MapEnv, SameEnvs;
    var t := ImportEnvs(view, p);
    var env := MapEnv(source[|p.mapping|], ids);
    EnvIndexMerged(view, p);
    if env != EMPTY_ENV && env !in view.envIndex && env !in p.index {
      PushEnvKeeps(t, env);
      EnvPushedIs(view, p, env);
      SameEnvsNext(source, ids, p.mapping, t.envs, t.envs + [env], |t.envs|);
    } else {
      var id := if env == EMPTY_ENV then 0 else if env in view.envIndex then view.envIndex[env] else p.index[env];
      SameEnvsNext(source, ids, p.mapping, t.envs, t.envs, id);
    }
  }

  lemma SameEnvsNext(source: seq<TypeEnv>, ids: seq<nat>, mapping: seq<nat>, envs: seq<TypeEnv>, envs': seq<TypeEnv>,
                     id: nat)
    requires SameEnvs(source, ids, mapping, envs) && envs <= envs' && |mapping| < |source|
    requires id < |envs'| && envs'[id] == MapEnv(source[|mapping|], ids)
    ensures SameEnvs(source, ids, mapping + [id], envs')
  {
    hide MapEnv;
  }

  lemma EnvIndexMerged(view: Table, p: EnvPlan)
    requires WellFormed(view) && WellFormed(ImportEnvs(view, p))
    ensures var t := ImportEnvs(view, p);
      && |t.envs| > 0 && t.envs[0] == EMPTY_ENV
      && (forall x :: x in view.envIndex ==> view.envIndex[x] < |t.envs| && t.envs[view.envIndex[x]] == x)
      && (forall x :: x in p.index ==> p.index[x] < |t.envs| && t.envs[p.index[x]] == x)
  {
    hide DepthsOk;
    var t := ImportEnvs(view, p);
    forall x | x in p.index
      ensures p.index[x] < |t.envs| && t.envs[p.index[x]] == x
    {
      assert t.envIndex[x] == p.index[x];
    }
  }

  lemma EnvPushedIs(view: Table, p: EnvPlan, env: TypeEnv)
    ensures var next := |view.envs| + |p.envs|;
      ImportEnvs(view, EnvPlan(p.envs + [env], p.index[env := next], p.mapping + [next]))
          == PushEnv(ImportEnvs(view, p), env)
  {
    assert view.envs + (p.envs + [env]) == (view.envs + p.envs) + [env];
    assert view.envIndex + p.index[env := |view.envs| + |p.envs|]
        == (view.envIndex + p.index)[env := |view.envs| + |p.envs|];
  }

  lemma {:induction false} PlanEnvsSound(view: Table, max: nat, ids: seq<nat>, source: seq<TypeEnv>, k: nat)
    requires WellFormed(view) && |view.envs| <= max && k <= |source|
    requires PlanEnvs(view, max, ids, source[..k]).Ok?
    ensures var p := PlanEnvs(view, max, ids, source[..k]).value; EnvsOk(view, max, ids, source, p) && |p.mapping| == k
    decreases k
  {
    hide DepthsOk, PlanEnv, IsIndex;
    if k == 0 {
      NothingPlanned(view);
    } else {
      assert source[..k][..k - 1] == source[..k - 1];
      PlanEnvsSound(view, max, ids, source, k - 1);
      PlanEnvKeeps(view, max, ids, source, PlanEnvs(view, max, ids, source[..k - 1]).value);
    }
  }

  // -------------------------------------------------------------- the law

  ghost predicate Capped(t: Table, limits: Limits) {
    |t.types| <= limits.types && |t.envs| <= limits.envs
  }

  /** A plan extends a table of its base lengths to a well-formed one. */
  ghost predicate PlanSound(base: Table, limits: Limits, p: Plan) {
    && p.baseTypes == |base.types| && p.baseEnvs == |base.envs|
    && WellFormed(Imported(base, p)) && Capped(Imported(base, p), limits)
  }

  /** The planned environments name types of the extended table. */
  ghost predicate PlanNamed(p: Plan) {
    forall e :: 0 <= e < |p.envs.envs| ==> AllBelow(p.envs.envs[e].types, p.baseTypes + |p.types.types|)
  }

  /** Source environments over the source types. */
  ghost predicate SourceNamed(types: seq<ClosedType>, envs: seq<TypeEnv>) {
    forall e :: 0 <= e < |envs| ==> AllBelow(envs[e].types, |types|)
  }

  lemma {:induction false} PlanEnvsNamed(view: Table, max: nat, ids: seq<nat>, source: seq<TypeEnv>, n: nat, k: nat)
    requires k <= |source| && PlanEnvs(view, max, ids, source[..k]).Ok? && AllBelow(ids, n)
    requires forall e :: 0 <= e < |source| ==> AllBelow(source[e].types, |ids|)
    ensures var p := PlanEnvs(view, max, ids, source[..k]).value;
              forall e :: 0 <= e < |p.envs| ==> AllBelow(p.envs[e].types, n)
    decreases k
  {
    if k > 0 {
      assert source[..k][..k - 1] == source[..k - 1];
      PlanEnvsNamed(view, max, ids, source, n, k - 1);
    }
  }

  lemma PrepareNamed(view: Table, limits: Limits, types: seq<ClosedType>, envs: seq<TypeEnv>)
    requires WellFormed(view) && Capped(view, limits) && BottomUp(types) && SourceNamed(types, envs)
    requires PrepareSpec(view, limits, types, envs).Ok?
    ensures PlanNamed(PrepareSpec(view, limits, types, envs).value)
  {
    hide WellFormed, PlanTypes, PlanEnvs;
    ImportPreserves(view, limits, types, envs);
    var p := PrepareSpec(view, limits, types, envs).value;
    assert envs[..|envs|] == envs;
    PlanEnvsNamed(view, limits.envs, p.types.mapping, envs, |view.types| + |p.types.types|, |envs|);
  }

  lemma ImportedNamed(t: Table, p: Plan)
    requires EnvsNamed(t) && PlanNamed(p) && p.baseTypes == |t.types|
    ensures EnvsNamed(Imported(t, p))
  {
    NamedAppend(t, Imported(t, p), p.envs.envs);
  }

  lemma ImportedParts(view: Table, p: Plan)
    requires WellFormed(ImportTypes(view, p.types)) && WellFormed(ImportEnvs(view, p.envs))
    ensures WellFormed(Imported(view, p))
  {
    hide DepthsOk, IsIndex;
  }

  /** A committed import preserves meaning: every source type unfolds to the
      same tree as its mapped id, every source environment maps pointwise,
      and nothing the table held before moves. */
  lemma ImportPreserves(view: Table, limits: Limits, types: seq<ClosedType>, envs: seq<TypeEnv>)
    requires WellFormed(view) && Capped(view, limits) && BottomUp(types)
    requires PrepareSpec(view, limits, types, envs).Ok?
    ensures var p := PrepareSpec(view, limits, types, envs).value;
      && PlanSound(view, limits, p) && Prefix(view, Imported(view, p))
      && |p.types.mapping| == |types| && SameTypes(types, p.types.mapping, Imported(view, p).types)
      && |p.envs.mapping| == |envs| && SameEnvs(envs, p.types.mapping, p.envs.mapping, Imported(view, p).envs)
      && EnvsMean(types, envs, p.envs.mapping, Imported(view, p))
  {
    hide DepthsOk, IsIndex, PlanTypes, PlanEnvs, EnvsMean;
    assert types[..|types|] == types && envs[..|envs|] == envs;
    var p := PrepareSpec(view, limits, types, envs).value;
    PlanTypesSound(view, limits.types, types, |types|);
    PlanEnvsSound(view, limits.envs, p.types.mapping, envs, |envs|);
    ImportedParts(view, p);
    TableParts(Imported(view, p));
    MappedMeans(types, envs, p.types.mapping, p.envs.mapping, Imported(view, p));
  }

  /** The empty environment is always environment zero. */
  lemma EmptyMapsToZero(view: Table, limits: Limits, types: seq<ClosedType>, envs: seq<TypeEnv>, i: nat)
    requires WellFormed(view) && Capped(view, limits) && BottomUp(types)
    requires PrepareSpec(view, limits, types, envs).Ok? && i < |envs|
    ensures var p := PrepareSpec(view, limits, types, envs).value;
      |p.envs.mapping| == |envs| && (p.envs.mapping[i] == 0 <==> envs[i] == EMPTY_ENV)
  {
    hide DepthsOk;
    ImportPreserves(view, limits, types, envs);
    var p := PrepareSpec(view, limits, types, envs).value;
    var t := Imported(view, p);
    assert t.envs[p.envs.mapping[i]] == MapEnv(envs[i], p.types.mapping);
    assert t.envIndex[EMPTY_ENV] == 0;
    assert MapEnv(envs[i], p.types.mapping) == EMPTY_ENV <==> envs[i] == EMPTY_ENV;
  }

  // --------------------------------------------- when preparing succeeds

  /** The trees of the entries from `lo` on. */
  ghost function TreesFrom(types: seq<ClosedType>, lo: nat): set<Tree>
    requires BottomUp(types)
  {
    set j | lo <= j < |types| :: Unfold(types, j)
  }

  /** The distinct trees among the first `k` source types that the table does
      not hold. */
  ghost function NewTrees(types: seq<ClosedType>, source: seq<ClosedType>, k: nat): set<Tree>
    requires BottomUp(types) && BottomUp(source) && k <= |source|
  {
    if k == 0 then {}
    else
      var t := Unfold(source, k - 1);
      if t in TreesFrom(types, 0) then NewTrees(types, source, k - 1) else NewTrees(types, source, k - 1) + {t}
  }

  lemma TreesPush(types: seq<ClosedType>, node: ClosedType, lo: nat)
    requires BottomUp(types) && BottomUp(types + [node]) && lo <= |types| && Below(node, |types|)
    ensures TreesFrom(types + [node], lo) == TreesFrom(types, lo) + {NodeTree(types, node)}
  {
    hide TreesFrom, NodeTree, BottomUp, Below;
    forall t ensures t in TreesFrom(types + [node], lo) <==> t in TreesFrom(types, lo) || t == NodeTree(types, node) {
      TreesPushAt(types, node, lo, t);
    }
  }

  lemma TreesPushAt(types: seq<ClosedType>, node: ClosedType, lo: nat, t: Tree)
    requires BottomUp(types) && BottomUp(types + [node]) && lo <= |types| && Below(node, |types|)
    ensures t in TreesFrom(types + [node], lo) <==> t in TreesFrom(types, lo) || t == NodeTree(types, node)
  {
    hide Unfold, NodeTree, BottomUp, Below;
    var more, n := types + [node], |types|;
    UnfoldNode(more, n);
    NodeTreeGrows(types, more, node);
    assert Unfold(more, n) == NodeTree(types, node);
    if t in TreesFrom(types, lo) {
      var j :| lo <= j < n && Unfold(types, j) == t;
      UnfoldGrows(types, more, j);
      assert Unfold(more, j) == t;
    }
    if t in TreesFrom(more, lo) {
      var j :| lo <= j < |more| && Unfold(more, j) == t;
      if j < n {
        UnfoldGrows(types, more, j);
        assert Unfold(types, j) == t;
      }
    }
  }

  lemma TreesPrefix(types: seq<ClosedType>, more: seq<ClosedType>, t: Tree)
    requires BottomUp(types) && BottomUp(more) && types <= more && t in TreesFrom(types, 0)
    ensures exists j :: 0 <= j < |types| && Unfold(more, j) == t
  {
    hide Unfold;
    var j :| 0 <= j < |types| && Unfold(types, j) == t;
    UnfoldGrows(types, more, j);
  }

  /** A node is indexed below `n` exactly when its tree is among the first. */
  lemma IndexedBelow(t: Table, n: nat, node: ClosedType)
    requires WellFormed(t) && n <= |t.types| && Below(node, |t.types|) && BottomUp(t.types[..n])
    ensures NodeTree(t.types, node) in TreesFrom(t.types[..n], 0) <==> node in t.typeIndex && t.typeIndex[node] < n
    ensures NodeTree(t.types, node) in TreesFrom(t.types, n) <==> node in t.typeIndex && t.typeIndex[node] >= n
  {
    hide Unfold, NodeTree, DepthsOk;
    TableParts(t);
    if node in t.typeIndex {
      NodePresent(t, node, t.typeIndex[node]);
      if t.typeIndex[node] < n { UnfoldGrows(t.types[..n], t.types, t.typeIndex[node]); }
    }
    if NodeTree(t.types, node) in TreesFrom(t.types[..n], 0) {
      TreesPrefix(t.types[..n], t.types, NodeTree(t.types, node));
      var j :| 0 <= j < n && Unfold(t.types, j) == NodeTree(t.types, node);
      NodePresent(t, node, j);
    }
    if NodeTree(t.types, node) in TreesFrom(t.types, n) {
      var j :| n <= j < |t.types| && Unfold(t.types, j) == NodeTree(t.types, node);
      NodePresent(t, node, j);
    }
  }

  /** The plan holds one new entry per new tree. */
  ghost predicate Counted(view: Table, source: seq<ClosedType>, p: TypePlan)
    requires WellFormed(view) && BottomUp(source) && |p.mapping| <= |source| && WellFormed(ImportTypes(view, p))
  {
    && |p.types| == |NewTrees(view.types, source, |p.mapping|)|
    && NewTrees(view.types, source, |p.mapping|) == TreesFrom(ImportTypes(view, p).types, |view.types|)
  }

  /** The next source type fits: it is not too deep, and there is room if its
      tree is new. */
  ghost predicate NextFits(view: Table, max: nat, source: seq<ClosedType>, k: nat)
    requires WellFormed(view) && BottomUp(source) && k < |source|
  {
    Height(Unfold(source, k)) <= MAX_CLOSED_DEPTH && |view.types| + |NewTrees(view.types, source, k + 1)| <= max
  }

  /** Where the mapped node of the next source type is, and what that says
      about its tree. */
  lemma NextTree(view: Table, source: seq<ClosedType>, p: TypePlan)
    requires WellFormed(view) && BottomUp(source) && WellFormed(ImportTypes(view, p)) && |p.mapping| < |source|
    requires SameTypes(source, p.mapping, ImportTypes(view, p).types)
    ensures var t, mapped := ImportTypes(view, p), Remap(source[|p.mapping|], Lookup(p.mapping));
      var tree := Unfold(source, |p.mapping|);
      && Below(mapped, |t.types|) && NodeTree(t.types, mapped) == tree
      && (tree in TreesFrom(view.types, 0) <==> mapped in view.typeIndex)
      && (tree in TreesFrom(t.types, |view.types|) <==> mapped !in view.typeIndex && mapped in p.index)
      && DepthOf(mapped, t.depths) == Some(Height(tree))
      && (mapped in t.typeIndex ==> Height(tree) <= MAX_CLOSED_DEPTH)
      && (mapped in t.typeIndex <==> mapped in view.typeIndex || mapped in p.index)
  {
    hide WellFormed, Remap, SameTypes, BottomUp, Below, Unfold, NodeTree, Deepest, TreesFrom, Height;
    var t, k := ImportTypes(view, p), |p.mapping|;
    var mapped := Remap(source[k], Lookup(p.mapping));
    TableParts(t);
    TableParts(view);
    IndexMerged(view, p);
    IndexSplit(view, p);
    MappedTree(source, p.mapping, t.types, k);
    assert t.types[..|view.types|] == view.types;
    IndexedBelow(t, |view.types|, mapped);
    NodeHeight(t, mapped);
  }

  lemma CountStep(view: Table, max: nat, source: seq<ClosedType>, p: TypePlan)
    requires WellFormed(view) && TypesOk(view, max, source, p) && |p.mapping| < |source| && Counted(view, source, p)
    ensures var r := PlanType(view, max, p, source[|p.mapping|]);
      && (r.Ok? <==> NextFits(view, max, source, |p.mapping|))
      && (r.Err? ==> r.error.types)
      && (r.Ok? ==>
            TypesOk(view, max, source, r.value) && |r.value.mapping| == |p.mapping| + 1 &&
            Counted(view, source, r.value))
  {
    hide WellFormed, Remap, SameTypes, BottomUp, Below, Unfold, NodeTree, DepthOf, TreesFrom, Height, NewTrees;
    var t, k := ImportTypes(view, p), |p.mapping|;
    TableParts(view);
    NextTree(view, source, p);
    NewTreesNext(view.types, source, k);
    if PlanType(view, max, p, source[k]).Ok? {
      PlanTypeKeeps(view, max, source, p);
      var mapped := Remap(source[k], Lookup(p.mapping));
      if mapped !in t.typeIndex {
        PushedTrees(t, mapped, |view.types|, ImportTypes(view, PlanType(view, max, p, source[k]).value));
      }
    }
  }

  lemma PushedTrees(t: Table, node: ClosedType, lo: nat, t': Table)
    requires WellFormed(t) && WellFormed(t') && t'.types == t.types + [node] && lo <= |t.types|
    requires Below(node, |t.types|)
    ensures TreesFrom(t'.types, lo) == TreesFrom(t.types, lo) + {NodeTree(t.types, node)}
  {
    hide WellFormed, TreesFrom, NodeTree;
    TableParts(t);
    TableParts(t');
    TreesPush(t.types, node, lo);
  }

  lemma NewTreesNext(types: seq<ClosedType>, source: seq<ClosedType>, k: nat)
    requires BottomUp(types) && BottomUp(source) && k < |source|
    ensures NewTrees(types, source, k + 1) ==
            if Unfold(source, k) in TreesFrom(types, 0) then NewTrees(types, source, k)
            else NewTrees(types, source, k) + {Unfold(source, k)}
  {
    hide Unfold, TreesFrom;
  }

  lemma IndexSplit(view: Table, p: TypePlan)
    requires WellFormed(view) && WellFormed(ImportTypes(view, p))
    ensures var t := ImportTypes(view, p);
      && (forall x :: x in view.typeIndex <==> x in t.typeIndex && t.typeIndex[x] < |view.types|)
      && (forall x :: x in t.typeIndex ==> x in view.typeIndex || x in p.index)
  {
    hide DepthsOk;
    var t := ImportTypes(view, p);
    IndexMerged(view, p);
    forall x | x in t.typeIndex && t.typeIndex[x] < |view.types| ensures x in view.typeIndex {
      assert view.types[t.typeIndex[x]] == x;
    }
  }

  lemma NodeHeight(t: Table, node: ClosedType)
    requires WellFormed(t) && Below(node, |t.types|)
    ensures AllBelow(Children(node), |t.depths|) && Deepest(Children(node), t.depths) == Height(NodeTree(t.types, node))
    ensures node in t.typeIndex ==> Height(NodeTree(t.types, node)) <= MAX_CLOSED_DEPTH
  {
    hide Unfold, NodeTree, Height;
    NodeDepth(t.types, t.depths, node);
    if node in t.typeIndex {
      UnfoldNode(t.types, t.typeIndex[node]);
      DepthIsHeight(t.types, t.depths, t.typeIndex[node]);
    }
  }

  /** The first `k` source types fit: none is too deep, and there is room for
      the distinct new ones. */
  ghost predicate TypesFit(types: seq<ClosedType>, max: nat, source: seq<ClosedType>, k: nat)
    requires BottomUp(types) && BottomUp(source) && k <= |source|
  {
    && (forall i :: 0 <= i < k ==> Height(Unfold(source, i)) <= MAX_CLOSED_DEPTH)
    && |types| + |NewTrees(types, source, k)| <= max
  }

  lemma AddOne<T>(s: set<T>, x: T)
    ensures |s| <= |s + {x}|
  {
    if x in s { assert s + {x} == s; }
  }

  lemma TypesFitNext(types: seq<ClosedType>, max: nat, source: seq<ClosedType>, k: nat)
    requires BottomUp(types) && BottomUp(source) && k < |source|
    ensures TypesFit(types, max, source, k + 1) <==>
      && TypesFit(types, max, source, k)
      && Height(Unfold(source, k)) <= MAX_CLOSED_DEPTH && |types| + |NewTrees(types, source, k + 1)| <= max
  {
    hide Unfold, NewTrees, Height, TreesFrom;
    NewTreesNext(types, source, k);
    AddOne(NewTrees(types, source, k), Unfold(source, k));
  }

  lemma {:induction false} PlanTypesExact(view: Table, max: nat, source: seq<ClosedType>, k: nat)
    requires WellFormed(view) && BottomUp(source) && |view.types| <= max && k <= |source|
    ensures var r := PlanTypes(view, max, source[..k]);
      && (r.Ok? <==> TypesFit(view.types, max, source, k))
      && (r.Err? ==> r.error.types)
      && (r.Ok? ==> TypesOk(view, max, source, r.value) && |r.value.mapping| == k && Counted(view, source, r.value))
    decreases k
  {
    hide DepthsOk, IsIndex, PlanType, TypesFit, NewTrees, Unfold, TreesFrom, Height, SameTypes;
    TableParts(view);
    if k == 0 {
      NothingPlanned(view);
      NothingNew(view, max, source);
    } else {
      assert source[..k][..k - 1] == source[..k - 1];
      PlanTypesExact(view, max, source, k - 1);
      TypesFitNext(view.types, max, source, k - 1);
      var before := PlanTypes(view, max, source[..k - 1]);
      if before.Ok? { CountStep(view, max, source, before.value); }
    }
  }

  lemma NothingNew(view: Table, max: nat, source: seq<ClosedType>)
    requires WellFormed(view) && BottomUp(source) && |view.types| <= max
    ensures TypesFit(view.types, max, source, 0) && SameTypes(source, [], view.types)
    ensures NewTrees(view.types, source, 0) == TreesFrom(view.types, |view.types|) == {}
  {
    hide IsIndex, Unfold;
  }

  /** The distinct mapped environments that the table does not hold. */
  ghost function NewEnvs(view: Table, ids: seq<nat>, source: seq<TypeEnv>, k: nat): set<TypeEnv>
    requires k <= |source|
  {
    if k == 0 then {}
    else
      var env := MapEnv(source[k - 1], ids);
      if env in view.envs then NewEnvs(view, ids, source, k - 1) else NewEnvs(view, ids, source, k - 1) + {env}
  }

  lemma EnvIndexed(view: Table)
    requires WellFormed(view)
    ensures EMPTY_ENV in view.envIndex && forall env :: env in view.envIndex <==> env in view.envs
  {
    hide DepthsOk;
    forall env | env in view.envIndex ensures env in view.envs { assert view.envs[view.envIndex[env]] == env; }
    assert view.envs[0] == EMPTY_ENV;
  }

  lemma {:induction false} PlanEnvsExact(view: Table, max: nat, ids: seq<nat>, source: seq<TypeEnv>, k: nat)
    requires WellFormed(view) && |view.envs| <= max && k <= |source|
    ensures var r := PlanEnvs(view, max, ids, source[..k]);
      && (r.Ok? <==> |view.envs| + |NewEnvs(view, ids, source, k)| <= max)
      && (r.Err? ==> !r.error.types)
      && (r.Ok? ==>
            r.value.index.Keys == NewEnvs(view, ids, source, k) &&
            |r.value.envs| == |NewEnvs(view, ids, source, k)|)
    decreases k
  {
    hide WellFormed, MapEnv;
    if k > 0 {
      assert source[..k][..k - 1] == source[..k - 1];
      PlanEnvsExact(view, max, ids, source, k - 1);
      EnvIndexed(view);
      AddOne(NewEnvs(view, ids, source, k - 1), MapEnv(source[k - 1], ids));
    }
  }

  /** Preparing succeeds exactly when no source type is more than 128 deep and
      the distinct new types and environments fit under the caps; otherwise it
      reports the cap of the types first. */
  lemma PrepareExact(view: Table, limits: Limits, types: seq<ClosedType>, envs: seq<TypeEnv>)
    requires WellFormed(view) && Capped(view, limits) && BottomUp(types)
    ensures var r := PrepareSpec(view, limits, types, envs);
      && (r == Err(TypeEnvFull(true)) <==> !TypesFit(view.types, limits.types, types, |types|))
      && (PlanTypes(view, limits.types, types).Ok? <==> TypesFit(view.types, limits.types, types, |types|))
      && (r == Err(TypeEnvFull(false)) <==>
            && PlanTypes(view, limits.types, types).Ok?
            && var ids := PlanTypes(view, limits.types, types).value.mapping;
               |view.envs| + |NewEnvs(view, ids, envs, |envs|)| > limits.envs)
  {
    hide WellFormed, PlanTypes, PlanEnvs, NewEnvs, TypesFit, Counted, TypesOk;
    assert types[..|types|] == types && envs[..|envs|] == envs;
    PlanTypesExact(view, limits.types, types, |types|);
    if PlanTypes(view, limits.types, types).Ok? {
      PlanEnvsExact(view, limits.envs, PlanTypes(view, limits.types, types).value.mapping, envs, |envs|);
    }
  }
}
