/** Closed forms of module types over a table: what they mean, and exactly when
    they stay. */
module ClosedForms {
  import opened Common
  import opened ClosedTypes
  import opened TypeTable
  import opened TypeImport
  import opened Substitution
  import M = ModuleTypes

  // --------------------------------------------------- meaning over a table

  /** The type arguments of an environment; one the table does not hold has
      none. */
  ghost function Args(t: Table, env: nat): seq<Tree>
    requires Sound(t)
  {
    if env < |t.envs| then UnfoldEach(t.types, t.envs[env].types, |t.types|) else []
  }

  function Rows(t: Table, env: nat): seq<Row> {
    if env < |t.envs| then t.envs[env].rows else []
  }

  /** What closing `ty` under environment `env` of the table means. */
  ghost function Meaning(m: M.Module, groups: seq<seq<bool>>, t: Table, ty: nat, env: nat): Tree
    requires M.Ordered(m) && Sound(t)
  {
    Subst(m, groups, ty, Args(t, env), Rows(t, env))
  }

  /** `id` is the closed form of `ty` under `env`. */
  ghost predicate Closes(m: M.Module, groups: seq<seq<bool>>, t: Table, ty: nat, env: nat, id: nat)
    requires M.Ordered(m) && Sound(t)
  {
    id < |t.types| && Unfold(t.types, id) == Meaning(m, groups, t, ty, env)
  }

  /** Held arguments do not change, and neither do missing ones while they are
      missing. */
  lemma ArgsGrow(t: Table, t': Table, env: nat)
    requires Later(t, t') && (env < |t.envs| || env >= |t'.envs|)
    ensures Args(t', env) == Args(t, env) && Rows(t', env) == Rows(t, env)
  {
    hide WellFormed;
    SoundParts(t);
    SoundParts(t');
    if env < |t.envs| {
      var ids := t.envs[env].types;
      assert AllBelow(ids, |t.types|);
      forall k | 0 <= k < |ids| ensures Unfold(t'.types, ids[k]) == Unfold(t.types, ids[k]) {
        UnfoldGrows(t.types, t'.types, ids[k]);
      }
    }
  }

  /** The meaning cannot change from `t` to `t'`: the environment was held, or
      is missing still, or the type does not depend on it. */
  ghost predicate Fixed(m: M.Module, t: Table, t': Table, ty: nat, env: nat)
    requires M.Ordered(m)
  {
    env < |t.envs| || env >= |t'.envs| || M.Ground(m, ty)
  }

  lemma MeaningGrows(m: M.Module, groups: seq<seq<bool>>, t: Table, t': Table, ty: nat, env: nat)
    requires M.Ordered(m) && Later(t, t') && Fixed(m, t, t', ty, env)
    ensures Meaning(m, groups, t', ty, env) == Meaning(m, groups, t, ty, env)
  {
    hide Sound, Subst, M.Ground;
    if M.Ground(m, ty) {
      GroundSubst(m, groups, ty, Args(t, env), Rows(t, env), Args(t', env), Rows(t', env));
    } else {
      ArgsGrow(t, t', env);
    }
  }

  /** A growing table changes no closed form that is fixed. */
  lemma ClosesGrows(m: M.Module, groups: seq<seq<bool>>, t: Table, t': Table, ty: nat, env: nat, id: nat)
    requires M.Ordered(m) && Later(t, t') && Fixed(m, t, t', ty, env) && Closes(m, groups, t, ty, env, id)
    ensures Closes(m, groups, t', ty, env, id)
  {
    hide Sound, Meaning, Unfold, Fixed;
    SoundParts(t);
    SoundParts(t');
    MeaningGrows(m, groups, t, t', ty, env);
    UnfoldGrows(t.types, t'.types, id);
  }

  /** A fixed closed form is one id, whenever it is asked for and however the
      table has grown since. */
  lemma ClosesUnique(m: M.Module, groups: seq<seq<bool>>, t: Table, t': Table, ty: nat, env: nat, id: nat, id': nat)
    requires M.Ordered(m) && Later(t, t') && Fixed(m, t, t', ty, env)
    requires Closes(m, groups, t, ty, env, id) && Closes(m, groups, t', ty, env, id')
    ensures id == id'
  {
    hide WellFormed, EnvsNamed, Meaning, Unfold, Fixed;
    SoundParts(t');
    ClosesGrows(m, groups, t, t', ty, env, id);
    CanonicalForm(t', id, id');
  }

  // ----------------------------------------------- a closed form that does not stay

  /** Every environment of the table has fewer rows than `r`. */
  ghost predicate FewRows(t: Table, r: nat) {
    forall e :: 0 <= e < |t.envs| ==> |t.envs[e].rows| < r
  }

  ghost function RowBound(envs: seq<TypeEnv>): (r: nat)
    ensures forall e :: 0 <= e < |envs| ==> |envs[e].rows| < r
  {
    if envs == [] then 0 else Max(RowBound(envs[..|envs| - 1]), |envs[|envs| - 1].rows| + 1)
  }

  lemma NewEnv(t: Table, env: TypeEnv)
    requires WellFormed(t) && FewRows(t, |env.rows|)
    ensures env !in t.envIndex
  {
    hide DepthsOk;
    assert forall x :: x in t.envIndex ==> t.envs[t.envIndex[x]] == x;
  }

  /** A later table that holds `env`, with `n` arguments `b` and at least `r`
      rows of one slot. */
  lemma {:induction false} EnvArrives(t: Table, env: nat, b: nat, n: nat, slot: nat, r: nat)
    returns (t': Table, got: nat)
    requires Sound(t) && |t.envs| <= env && b < |t.types| && FewRows(t, r)
    ensures Later(t, t') && t'.types == t.types && got >= r
    ensures |t'.envs| == env + 1 && t'.envs[env] == TypeEnv(Copies(n, b), Copies(got, [slot]))
    decreases env - |t.envs|
  {
    hide DepthsOk, EnvsNamed;
    var more := TypeEnv(Copies(n, b), Copies(r, [slot]));
    NewEnv(t, more);
    PushEnvKeeps(t, more);
    NamedAppend(t, PushEnv(t, more), [more]);
    var next := PushEnv(t, more);
    if |t.envs| == env {
      t', got := next, r;
    } else {
      t', got := EnvArrives(next, env, b, n, slot, r + 1);
    }
  }

  lemma BoolEntry(t: Table, limits: Limits) returns (t': Table, b: nat)
    requires Sound(t) && Capped(t, limits) && (Bool in t.typeIndex || |t.types| < limits.types)
    ensures Later(t, t') && Capped(t', limits) && t'.envs == t.envs && b < |t'.types| && t'.types[b] == Bool
  {
    hide DepthsOk, EnvsNamed;
    if Bool in t.typeIndex {
      t', b := t, t.typeIndex[Bool];
    } else {
      SoundParts(t);
      assert Deepest(Children(Bool), t.depths) == 1;
      PushTypeKeeps(t, Bool);
      t', b := PushType(t, Bool, 1), |t.types|;
      NamedGrows(t, t');
    }
  }

  /** No type but `Unit` can ever be an argument: the table holds no other and
      has no room. */
  ghost predicate OnlyUnit(t: Table, limits: Limits) {
    |t.types| == limits.types && forall i :: 0 <= i < |t.types| ==> t.types[i] == Unit
  }

  /** An entry to use as argument, one that is not `Unit` where there can be. */
  lemma SomeEntry(t: Table, limits: Limits) returns (t': Table, b: nat)
    requires Sound(t) && Capped(t, limits) && |t.types| > 0
    ensures Later(t, t') && Capped(t', limits) && t'.envs == t.envs && b < |t'.types|
    ensures !OnlyUnit(t, limits) ==> t'.types[b] != Unit
  {
    hide Sound;
    LaterSame(t);
    if exists i :: 0 <= i < |t.types| && t.types[i] != Unit {
      b :| 0 <= b < |t.types| && t.types[b] != Unit;
      t' := t;
    } else if |t.types| < limits.types {
      t', b := BoolEntry(t, limits);
    } else {
      t', b := t, 0;
    }
  }

  lemma UnitAlone(t: Table, b: nat)
    requires Sound(t) && b < |t.types|
    ensures BottomUp(t.types) && (Unfold(t.types, b) == UNIT_TREE <==> t.types[b] == Unit)
  {
    hide WellFormed, EnvsNamed;
    SoundParts(t);
    var tree := Unfold(t.types, b);
    assert tree.shape == Shape(t.types[b]);
    if t.types[b] == Unit { assert tree.kids == []; }
  }

  lemma ArgsOf(t: Table, env: nat, b: nat, n: nat, slot: nat, r: nat)
    requires Sound(t) && env < |t.envs| && b < |t.types|
    requires t.envs[env] == TypeEnv(Copies(n, b), Copies(r, [slot]))
    ensures BottomUp(t.types) && Args(t, env) == Copies(n, Unfold(t.types, b)) && Rows(t, env) == Copies(r, [slot])
  {
    hide WellFormed, Unfold;
    SoundParts(t);
    assert AllBelow(t.envs[env].types, |t.types|);
  }

  /** No later table within the caps gives the type another meaning: it
      depends on no argument, or the environment cannot arrive, or can bring
      nothing that matters. */
  ghost predicate Settled(m: M.Module, t: Table, limits: Limits, ty: nat, env: nat)
    requires M.Ordered(m)
  {
    || env < |t.envs| || env >= limits.envs || M.Ground(m, ty)
    || (OnlyUnit(t, limits) && M.RowGround(m, ty))
  }

  /** A closed form that is not settled is wrong in some later table within
      the caps. */
  lemma ClosedTooEarly(m: M.Module, groups: seq<seq<bool>>, t: Table, limits: Limits, ty: nat, env: nat, id: nat)
    returns (t': Table)
    requires M.Ordered(m) && Sound(t) && Capped(t, limits) && Closes(m, groups, t, ty, env, id)
    requires !Settled(m, t, limits, ty, env)
    ensures Later(t, t') && Capped(t', limits) && env < |t'.envs| && !Closes(m, groups, t', ty, env, id)
  {
    hide Sound, Unfold, Subst, Prefix, M.Ground, M.RowGround, OnlyUnit;
    var mid, b := SomeEntry(t, limits);
    UnitAlone(mid, b);
    var n, slot := NotGround(m, groups, ty, Unfold(mid.types, b));
    var bound := Max(RowBound(mid.envs), n);
    var got;
    t', got := EnvArrives(mid, env, b, n, slot, bound);
    LaterTransitive(t, mid, t');
    ArgsOf(t', env, b, n, slot, got);
    StaysUnfolded(t, t', id);
  }

  lemma StaysUnfolded(t: Table, t': Table, id: nat)
    requires Later(t, t') && id < |t.types|
    ensures BottomUp(t.types) && BottomUp(t'.types) && id < |t'.types| && Unfold(t'.types, id) == Unfold(t.types, id)
  {
    hide WellFormed, EnvsNamed, Unfold;
    SoundParts(t);
    SoundParts(t');
    UnfoldGrows(t.types, t'.types, id);
  }

  lemma UnitsOnly(t: Table, t': Table, limits: Limits, env: nat)
    requires Later(t, t') && Capped(t', limits) && OnlyUnit(t, limits)
    ensures forall i :: 0 <= i < |Args(t', env)| ==> Args(t', env)[i] == UNIT_TREE
  {
    hide WellFormed, Unfold;
    SoundParts(t');
    if env < |t'.envs| {
      var ids := t'.envs[env].types;
      assert AllBelow(ids, |t'.types|);
      forall i | 0 <= i < |ids| ensures Unfold(t'.types, ids[i]) == UNIT_TREE { UnitAlone(t', ids[i]); }
    }
  }

  lemma SettledGrows(m: M.Module, groups: seq<seq<bool>>, t: Table, t': Table, limits: Limits, ty: nat, env: nat,
                     id: nat)
    requires M.Ordered(m) && Later(t, t') && Capped(t', limits) && Closes(m, groups, t, ty, env, id)
    requires Settled(m, t, limits, ty, env)
    ensures Closes(m, groups, t', ty, env, id)
  {
    hide Sound, M.Ground, M.RowGround, Unfold, Subst, OnlyUnit, Args;
    if Fixed(m, t, t', ty, env) {
      ClosesGrows(m, groups, t, t', ty, env, id);
    } else {
      LaterSame(t);
      UnitsOnly(t, t, limits, env);
      UnitsOnly(t, t', limits, env);
      UnitSubst(m, groups, ty, Args(t, env), Rows(t, env));
      UnitSubst(m, groups, ty, Args(t', env), Rows(t', env));
      StaysUnfolded(t, t', id);
    }
  }

  /** A closed form stays the closed form in every later table within the caps
      exactly when it is settled, which can be looked at before closing: the
      environment is held or past the cap, or the type reaches no variable, or
      only `Unit` can ever be bound and no row variable is reached. */
  lemma StaysClosed(m: M.Module, groups: seq<seq<bool>>, t: Table, limits: Limits, ty: nat, env: nat, id: nat)
    requires M.Ordered(m) && Sound(t) && Capped(t, limits) && Closes(m, groups, t, ty, env, id)
    ensures (forall t' :: Later(t, t') && Capped(t', limits) ==> Closes(m, groups, t', ty, env, id))
            <==> Settled(m, t, limits, ty, env)
  {
    hide Sound, Closes, Settled, Prefix;
    if Settled(m, t, limits, ty, env) {
      forall t' | Later(t, t') && Capped(t', limits)
        ensures Closes(m, groups, t', ty, env, id)
      {
        SettledGrows(m, groups, t, t', limits, ty, env, id);
      }
    } else {
      var t' := ClosedTooEarly(m, groups, t, limits, ty, env, id);
    }
  }

  const ONE_VAR := M.Module([M.Var(0)], [])
  const BOUND_VAR := TypeEnv([1], [])

  /** A table that holds `Unit`; then `Bool` as well; then an environment that
      binds the first variable to it. */
  const ONE_UNIT := PushType(EMPTY_TABLE, Unit, 1)
  const UNIT_AND_BOOL := PushType(ONE_UNIT, Bool, 1)
  const VAR_ARRIVES := PushEnv(UNIT_AND_BOOL, BOUND_VAR)

  lemma PushLeaf(t: Table, node: ClosedType)
    requires Sound(t) && Children(node) == [] && node !in t.typeIndex
    ensures Later(t, PushType(t, node, 1))
  {
    hide DepthsOk, EnvsNamed;
    SoundParts(t);
    assert Deepest([], t.depths) == 1;
    PushTypeKeeps(t, node);
    NamedGrows(t, PushType(t, node, 1));
  }

  lemma LeafTree(t: Table, id: nat)
    requires Sound(t) && id < |t.types| && Children(t.types[id]) == []
    ensures BottomUp(t.types) && Unfold(t.types, id) == Tree(Shape(t.types[id]), [])
  {
    hide WellFormed, EnvsNamed;
    SoundParts(t);
  }

  /** The environment that arrives: the tables in between are sound. */
  lemma VarArrives()
    ensures Sound(ONE_UNIT) && Later(ONE_UNIT, VAR_ARRIVES)
  {
    hide WellFormed, EnvsNamed;
    EmptyWellFormed();
    PushLeaf(EMPTY_TABLE, Unit);
    PushLeaf(ONE_UNIT, Bool);
    PushEnvKeeps(UNIT_AND_BOOL, BOUND_VAR);
    NamedAppend(UNIT_AND_BOOL, VAR_ARRIVES, [BOUND_VAR]);
  }

  /** The smallest such case: the first variable, closed under environment 1
      before the view holds it, is `Unit`; environment 1 then arrives and binds
      the variable to `Bool`. */
  lemma UnitTooEarly()
    ensures M.Ordered(ONE_VAR) && Later(ONE_UNIT, VAR_ARRIVES)
    ensures Closes(ONE_VAR, [], ONE_UNIT, 0, 1, 0)
    ensures Closes(ONE_VAR, [], VAR_ARRIVES, 0, 1, 1) && !Closes(ONE_VAR, [], VAR_ARRIVES, 0, 1, 0)
  {
    hide Sound, Unfold, Prefix;
    VarArrives();
    LeafTree(ONE_UNIT, 0);
    LeafTree(VAR_ARRIVES, 0);
    LeafTree(VAR_ARRIVES, 1);
    ArgsOf(VAR_ARRIVES, 1, 1, 1, 0, 0);
  }
}
