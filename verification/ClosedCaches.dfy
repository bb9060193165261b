/** Closing a node, why it fails, and what the caches of a view promise. */
module ClosedCaches {
  import opened Common
  import opened ClosedTypes
  import opened EffectRows
  import opened TypeTable
  import opened TypeImport
  import opened Substitution
  import opened ClosedForms
  import M = ModuleTypes

  // ------------------------------------------------------ closing one node

  /** A node built from closed children closes its type. */
  lemma BuiltMeans(m: M.Module, groups: seq<seq<bool>>, t: Table, ty: nat, env: nat, child: nat -> nat)
    requires M.Ordered(m) && Sound(t) && !M.NodeAt(m, ty).Var?
    requires forall c :: c in M.ModuleChildren(M.NodeAt(m, ty)) ==> Closes(m, groups, t, c, env, child(c))
    ensures var node := M.NodeAt(m, ty);
      var built := Build(node, child, ClosedRow(M.RowOf(node), Rows(t, env), groups));
      BottomUp(t.types) && Below(built, |t.types|) && NodeTree(t.types, built) == Meaning(m, groups, t, ty, env)
  {
    hide Sound, Build, ClosedRow, Unfold;
    SoundParts(t);
    var node := M.NodeAt(m, ty);
    var row := ClosedRow(M.RowOf(node), Rows(t, env), groups);
    var built, tys := Build(node, child, row), M.ModuleChildren(node);
    BuildParts(node, child, row);
    forall k | 0 <= k < |tys|
      ensures Children(built)[k] < |t.types|
      ensures Unfold(t.types, Children(built)[k]) == Subst(m, groups, tys[k], Args(t, env), Rows(t, env))
    {
      assert tys[k] in tys && Closes(m, groups, t, tys[k], env, child(tys[k]));
    }
    assert Below(built, |t.types|);
    SubstNode(m, groups, ty, Args(t, env), Rows(t, env));
    assert NodeTree(t.types, built).kids == Meaning(m, groups, t, ty, env).kids;
  }

  lemma VarMeans(m: M.Module, groups: seq<seq<bool>>, t: Table, ty: nat, env: nat)
    requires M.Ordered(m) && Sound(t) && M.NodeAt(m, ty).Var?
    ensures var i := M.NodeAt(m, ty).index;
      if env < |t.envs| && i < |t.envs[env].types| then Closes(m, groups, t, ty, env, t.envs[env].types[i])
      else Meaning(m, groups, t, ty, env) == UNIT_TREE
  {
    hide WellFormed, Unfold;
    if env < |t.envs| { assert AllBelow(t.envs[env].types, |t.types|); }
  }

  // --------------------------------------------------------- why closing fails

  /** Some entry of the table unfolds to the tree. */
  ghost predicate Holds(t: Table, tree: Tree)
    requires WellFormed(t)
  {
    exists id :: 0 <= id < |t.types| && Unfold(t.types, id) == tree
  }

  /** The type cannot be closed: it is more than 128 deep, or the store is at
      its cap and lacks the tree of the type or of something below it. */
  ghost predicate TooMuch(m: M.Module, groups: seq<seq<bool>>, view: Table, store: Table, limits: Limits, ty: nat,
                          env: nat)
    requires M.Ordered(m) && Later(view, store)
  {
    || Height(Meaning(m, groups, view, ty, env)) > MAX_CLOSED_DEPTH
    || (|store.types| == limits.types && Lacks(m, groups, view, store, ty, env))
  }

  ghost predicate Lacks(m: M.Module, groups: seq<seq<bool>>, view: Table, store: Table, ty: nat, env: nat)
    requires M.Ordered(m) && Later(view, store)
  {
    exists sub :: M.SubType(m, ty, sub) && !Holds(store, Meaning(m, groups, view, sub, env))
  }

  /** A closed type is held with everything below it. */
  lemma {:induction false} ClosedHeld(m: M.Module, groups: seq<seq<bool>>, t: Table, ty: nat, env: nat, id: nat,
                                      sub: nat)
    requires M.Ordered(m) && Sound(t) && Closes(m, groups, t, ty, env, id) && M.SubType(m, ty, sub)
    ensures Holds(t, Meaning(m, groups, t, sub, env))
    decreases ty
  {
    hide WellFormed, EnvsNamed, Meaning, Unfold;
    SoundParts(t);
    if sub != ty {
      var kids := M.ModuleChildren(M.NodeAt(m, ty));
      var k :| 0 <= k < |kids| && M.SubType(m, kids[k], sub);
      var child := ClosedChild(m, groups, t, ty, env, id, k);
      ClosedHeld(m, groups, t, kids[k], env, child, sub);
    }
  }

  /** The children of a closed type are closed. */
  lemma ClosedChild(m: M.Module, groups: seq<seq<bool>>, t: Table, ty: nat, env: nat, id: nat, k: nat)
    returns (child: nat)
    requires M.Ordered(m) && Sound(t) && Closes(m, groups, t, ty, env, id)
    requires k < |M.ModuleChildren(M.NodeAt(m, ty))|
    ensures Closes(m, groups, t, M.ModuleChildren(M.NodeAt(m, ty))[k], env, child)
  {
    hide WellFormed, EnvsNamed, Subst, Build, ClosedRow, M.ModuleChildren, Children;
    SoundParts(t);
    NotVarWithChild(m, ty, k);
    SubstNode(m, groups, ty, Args(t, env), Rows(t, env));
    assert Below(t.types[id], id);
    child := Children(t.types[id])[k];
    assert Unfold(t.types, child) == Unfold(t.types, id).kids[k];
  }

  lemma NotVarWithChild(m: M.Module, ty: nat, k: nat)
    requires k < |M.ModuleChildren(M.NodeAt(m, ty))|
    ensures !M.NodeAt(m, ty).Var?
  {
  }

  lemma HeldGrows(t: Table, t': Table, tree: Tree)
    requires Later(t, t') && Holds(t, tree)
    ensures Holds(t', tree)
  {
    hide Sound, Unfold;
    SoundParts(t);
    SoundParts(t');
    var id :| 0 <= id < |t.types| && Unfold(t.types, id) == tree;
    StaysUnfolded(t, t', id);
  }

  lemma HeldLow(t: Table, id: nat)
    requires Sound(t) && id < |t.types|
    ensures BottomUp(t.types) && Height(Unfold(t.types, id)) <= MAX_CLOSED_DEPTH
  {
    hide IsIndex, EnvsNamed;
    DepthIsHeight(t.types, t.depths, id);
  }

  /** What is closed was not too much. */
  lemma ClosedNotTooMuch(m: M.Module, groups: seq<seq<bool>>, view: Table, store: Table, limits: Limits, ty: nat,
                         env: nat, id: nat)
    requires M.Ordered(m) && Later(view, store) && Closes(m, groups, view, ty, env, id)
    ensures !TooMuch(m, groups, view, store, limits, ty, env)
  {
    hide Sound, Unfold, Subst, Height, Holds, Prefix;
    HeldLow(view, id);
    SoundParts(store);
    SoundParts(view);
    forall sub | M.SubType(m, ty, sub) ensures Holds(store, Meaning(m, groups, view, sub, env)) {
      ClosedHeld(m, groups, view, ty, env, id, sub);
      HeldGrows(view, store, Meaning(m, groups, view, sub, env));
    }
  }

  /** A part that is too much makes the whole too much. */
  lemma PartTooMuch(m: M.Module, groups: seq<seq<bool>>, view: Table, store: Table, limits: Limits, ty: nat, sub: nat,
                    env: nat)
    requires M.Ordered(m) && Later(view, store) && M.SubType(m, ty, sub)
    requires || Height(Meaning(m, groups, view, sub, env)) > MAX_CLOSED_DEPTH
             || (|store.types| == limits.types && !Holds(store, Meaning(m, groups, view, sub, env)))
    ensures TooMuch(m, groups, view, store, limits, ty, env)
  {
    hide Sound, Subst, Height, Holds, Prefix;
    SubTypeLower(m, groups, ty, sub, Args(view, env), Rows(view, env));
  }

  /** A node over the view that the store does not hold has a tree that the
      store does not hold. */
  lemma NotHeld(view: Table, store: Table, node: ClosedType)
    requires Later(view, store) && BottomUp(view.types) && Below(node, |view.types|) && node !in store.typeIndex
    ensures !Holds(store, NodeTree(view.types, node))
  {
    hide WellFormed, EnvsNamed, Unfold, NodeTree;
    SoundParts(store);
    NodeTreeGrows(view.types, store.types, node);
    forall id | 0 <= id < |store.types| ensures Unfold(store.types, id) != NodeTree(view.types, node) {
      NodePresent(store, node, id);
    }
  }

  // --------------------------------------------------------------- the memo

  /** Nothing spoils this closed form: its environment is not held yet, or no
      part of it that depends on the environment was memoised before it was. */
  ghost predicate Clean(m: M.Module, t: Table, early: Keys, ty: nat, env: nat)
    requires M.Ordered(m)
  {
    env >= |t.envs| || forall sub: nat :: M.SubType(m, ty, sub) && (sub, env) in early ==> M.Ground(m, sub)
  }

  lemma CleanPart(m: M.Module, t: Table, early: Keys, ty: nat, sub: nat, env: nat)
    requires M.Ordered(m) && Clean(m, t, early, ty, env) && M.SubType(m, ty, sub)
    ensures Clean(m, t, early, sub, env)
  {
    hide M.SubType, M.Ground;
    forall part | M.SubType(m, sub, part) ensures M.SubType(m, ty, part) {
      M.SubTypeTransitive(m, ty, sub, part);
    }
  }

  lemma CleanSelf(m: M.Module, t: Table, early: Keys, ty: nat, env: nat)
    requires M.Ordered(m) && Clean(m, t, early, ty, env) && env < |t.envs| && (ty, env) in early
    ensures M.Ground(m, ty)
  {
    hide M.Ground;
    assert M.SubType(m, ty, ty);
  }

  /** The keys closed too early once `ty` is closed under `env` over `t`. */
  ghost function Noted(early: Keys, t: Table, ty: nat, env: nat): Keys {
    if env < |t.envs| then early else early + {(ty, env)}
  }

  /** What was noted now leaves the meaning fixed when the form is clean. */
  lemma NotedReady(m: M.Module, t: Table, t': Table, early: Keys, ty: nat, env: nat)
    requires M.Ordered(m) && Clean(m, t', Noted(early, t, ty, env), ty, env)
    ensures Fixed(m, t, t', ty, env) && Clean(m, t', early, ty, env)
  {
    hide M.Ground, M.SubType;
    if |t.envs| <= env < |t'.envs| { CleanSelf(m, t', Noted(early, t, ty, env), ty, env); }
  }

  /** One memo entry: an id of the table, the closed form when it is clean. */
  ghost predicate EntryOk(m: M.Module, groups: seq<seq<bool>>, t: Table, early: Keys, ty: nat, env: nat, id: nat)
    requires M.Ordered(m) && Sound(t)
  {
    && id < |t.types| && (env < |t.envs| || (ty, env) in early)
    && (Clean(m, t, early, ty, env) ==> Closes(m, groups, t, ty, env, id))
  }

  lemma EntryGrows(m: M.Module, groups: seq<seq<bool>>, t: Table, t': Table, early: Keys, ty: nat, env: nat, id: nat)
    requires M.Ordered(m) && Later(t, t') && EntryOk(m, groups, t, early, ty, env, id)
    ensures EntryOk(m, groups, t', early, ty, env, id)
  {
    hide Sound, Closes, M.Ground, M.SubType;
    if Clean(m, t', early, ty, env) {
      if |t.envs| <= env < |t'.envs| { CleanSelf(m, t', early, ty, env); }
      ClosesGrows(m, groups, t, t', ty, env, id);
    }
  }

  lemma EntryMore(m: M.Module, groups: seq<seq<bool>>, t: Table, early: Keys, early': Keys, ty: nat, env: nat, id: nat)
    requires M.Ordered(m) && Sound(t) && EntryOk(m, groups, t, early, ty, env, id) && early <= early'
    ensures EntryOk(m, groups, t, early', ty, env, id)
  {
    hide Sound, Closes, M.Ground, M.SubType;
  }

  ghost predicate MemoOk(m: M.Module, groups: seq<seq<bool>>, t: Table, early: Keys, memo: Memo)
    requires M.Ordered(m) && Sound(t)
  {
    early <= memo.Keys && forall k :: k in memo ==> EntryOk(m, groups, t, early, k.0, k.1, memo[k])
  }

  /** The last answer is one of the memo. */
  ghost predicate LastOk(memo: Memo, last: Option<(nat, nat, nat)>) {
    last.Some? ==>
      var key := (last.value.0, last.value.1);
      key in memo && memo[key] == last.value.2
  }

  /** A new memo entry, noted when it comes too early, spoils no other. */
  lemma MemoAdd(m: M.Module, groups: seq<seq<bool>>, t: Table, early: Keys, early': Keys, memo: Memo, ty: nat,
                env: nat, id: nat)
    requires M.Ordered(m) && Sound(t) && MemoOk(m, groups, t, early, memo) && (ty, env) !in memo
    requires early <= early' <= early + {(ty, env)} && EntryOk(m, groups, t, early', ty, env, id)
    ensures MemoOk(m, groups, t, early', memo[(ty, env) := id])
  {
    hide Sound, EntryOk;
    forall k | k in memo ensures EntryOk(m, groups, t, early', k.0, k.1, memo[k]) {
      EntryMore(m, groups, t, early, early', k.0, k.1, memo[k]);
    }
  }

  /** What closing one node from its memoised children gives, at the end. */
  lemma BuiltEntry(m: M.Module, groups: seq<seq<bool>>, t: Table, t': Table, early: Keys, ty: nat, env: nat,
                   child: nat -> nat, id: nat)
    requires M.Ordered(m) && Later(t, t') && !M.NodeAt(m, ty).Var?
    requires forall c :: c in M.ModuleChildren(M.NodeAt(m, ty)) ==> EntryOk(m, groups, t, early, c, env, child(c))
    requires var node := M.NodeAt(m, ty);
      id < |t'.types| && t'.types[id] == Build(node, child, ClosedRow(M.RowOf(node), Rows(t, env), groups))
    ensures EntryOk(m, groups, t', Noted(early, t, ty, env), ty, env, id)
  {
    hide Sound, Closes, Build, ClosedRow, Unfold, Subst, Clean, Fixed;
    if Clean(m, t', Noted(early, t, ty, env), ty, env) {
      NotedReady(m, t, t', early, ty, env);
      BuiltTree(m, groups, t, t', early, ty, env, child);
      IdCloses(m, groups, t', ty, env, id);
    }
  }

  lemma IdCloses(m: M.Module, groups: seq<seq<bool>>, t: Table, ty: nat, env: nat, id: nat)
    requires M.Ordered(m) && Sound(t) && BottomUp(t.types) && id < |t.types|
    requires Below(t.types[id], |t.types|) && NodeTree(t.types, t.types[id]) == Meaning(m, groups, t, ty, env)
    ensures Closes(m, groups, t, ty, env, id)
  {
    hide Sound, NodeTree, Meaning, Unfold;
    UnfoldNode(t.types, id);
  }

  /** The node built from memoised children over `t` means, over the later
      table `t'`, what its type means there. */
  lemma BuiltTree(m: M.Module, groups: seq<seq<bool>>, t: Table, t': Table, early: Keys, ty: nat, env: nat,
                  child: nat -> nat)
    requires M.Ordered(m) && Later(t, t') && !M.NodeAt(m, ty).Var?
    requires Fixed(m, t, t', ty, env) && Clean(m, t', early, ty, env)
    requires forall c :: c in M.ModuleChildren(M.NodeAt(m, ty)) ==> EntryOk(m, groups, t, early, c, env, child(c))
    ensures var node := M.NodeAt(m, ty);
      var built := Build(node, child, ClosedRow(M.RowOf(node), Rows(t, env), groups));
      && BottomUp(t.types) && BottomUp(t'.types) && Below(built, |t.types|) && Below(built, |t'.types|)
      && NodeTree(t.types, built) == NodeTree(t'.types, built) == Meaning(m, groups, t', ty, env)
  {
    hide Sound, Closes, Build, ClosedRow, NodeTree, Meaning, Below, BottomUp, Clean, Fixed;
    var tys := M.ModuleChildren(M.NodeAt(m, ty));
    forall c | c in tys ensures Closes(m, groups, t, c, env, child(c)) {
      CleanChild(m, t, t', early, ty, env, c);
    }
    BuiltMeans(m, groups, t, ty, env, child);
    MeaningGrows(m, groups, t, t', ty, env);
    SoundParts(t');
    var node := M.NodeAt(m, ty);
    NodeTreeGrows(t.types, t'.types, Build(node, child, ClosedRow(M.RowOf(node), Rows(t, env), groups)));
  }

  lemma CleanChild(m: M.Module, t: Table, t': Table, early: Keys, ty: nat, env: nat, c: nat)
    requires M.Ordered(m) && |t.envs| <= |t'.envs| && Clean(m, t', early, ty, env)
    requires c in M.ModuleChildren(M.NodeAt(m, ty))
    ensures Clean(m, t, early, c, env)
  {
    hide M.Ground;
    var kids := M.ModuleChildren(M.NodeAt(m, ty));
    var k :| 0 <= k < |kids| && kids[k] == c;
    assert M.SubType(m, kids[k], c);
    CleanPart(m, t', early, ty, c, env);
  }

  /** An unbound variable closes to `Unit`. */
  lemma UnitEntry(m: M.Module, groups: seq<seq<bool>>, t: Table, t': Table, ty: nat, env: nat)
    requires M.Ordered(m) && Later(t, t') && Fixed(m, t, t', ty, env)
    requires M.NodeAt(m, ty).Var? && Meaning(m, groups, t, ty, env) == UNIT_TREE
    ensures Meaning(m, groups, t', ty, env) == UNIT_TREE
    ensures BottomUp(t'.types) && Below(Unit, |t'.types|) && NodeTree(t'.types, Unit) == UNIT_TREE
  {
    hide Sound, Meaning;
    MeaningGrows(m, groups, t, t', ty, env);
    SoundParts(t');
  }

  // ------------------------------------------------ derived environments

  /** `env` holds the arguments of `app` closed under `parent`. */
  ghost predicate Applied(m: M.Module, groups: seq<seq<bool>>, t: Table, parent: nat, app: M.TypeApp, env: TypeEnv)
    requires M.Ordered(m) && Sound(t)
  {
    && |env.types| == |app.types| && |env.rows| == |app.rows|
    && (forall k :: 0 <= k < |env.types| ==> Closes(m, groups, t, app.types[k], parent, env.types[k]))
    && (forall k :: 0 <= k < |env.rows| ==> env.rows[k] == ClosedRow(app.rows[k], Rows(t, parent), groups))
  }

  /** `id` is the environment that `app` derives from `parent`; an application
      out of range derives the empty environment. */
  ghost predicate Derives(m: M.Module, groups: seq<seq<bool>>, t: Table, parent: nat, app: nat, id: nat)
    requires M.Ordered(m) && Sound(t)
  {
    id < |t.envs| && if app < |m.apps| then Applied(m, groups, t, parent, m.apps[app], t.envs[id]) else id == 0
  }

  /** The application names no variable of its parent. */
  ghost predicate AppGround(m: M.Module, app: nat)
    requires M.Ordered(m)
  {
    app < |m.apps| ==>
      && (forall k :: 0 <= k < |m.apps[app].types| ==> M.Ground(m, m.apps[app].types[k]))
      && (forall k :: 0 <= k < |m.apps[app].rows| ==> M.NoRowVars(m.apps[app].rows[k]))
  }

  ghost predicate FixedApp(m: M.Module, t: Table, t': Table, parent: nat, app: nat)
    requires M.Ordered(m)
  {
    parent < |t.envs| || parent >= |t'.envs| || AppGround(m, app)
  }

  lemma RowFixed(m: M.Module, groups: seq<seq<bool>>, t: Table, t': Table, parent: nat, app: nat, k: nat)
    requires M.Ordered(m) && Later(t, t') && FixedApp(m, t, t', parent, app) && app < |m.apps| && k < |m.apps[app].rows|
    ensures ClosedRow(m.apps[app].rows[k], Rows(t', parent), groups)
              == ClosedRow(m.apps[app].rows[k], Rows(t, parent), groups)
  {
    hide Sound, ClosedRow, M.Ground;
    if parent < |t.envs| || parent >= |t'.envs| {
      ArgsGrow(t, t', parent);
    } else {
      SameRow(m.apps[app].rows[k], Rows(t, parent), Rows(t', parent), groups);
    }
  }

  lemma DerivesGrows(m: M.Module, groups: seq<seq<bool>>, t: Table, t': Table, parent: nat, app: nat, id: nat)
    requires M.Ordered(m) && Later(t, t') && FixedApp(m, t, t', parent, app) && Derives(m, groups, t, parent, app, id)
    ensures Derives(m, groups, t', parent, app, id)
  {
    hide Sound, Closes, ClosedRow, M.Ground;
    if app < |m.apps| {
      var a, env := m.apps[app], t.envs[id];
      forall k | 0 <= k < |env.types| ensures Closes(m, groups, t', a.types[k], parent, env.types[k]) {
        ClosesGrows(m, groups, t, t', a.types[k], parent, env.types[k]);
      }
      forall k | 0 <= k < |env.rows| ensures env.rows[k] == ClosedRow(a.rows[k], Rows(t', parent), groups) {
        RowFixed(m, groups, t, t', parent, app, k);
      }
    }
  }

  /** The closed arguments of an application are one environment. */
  lemma AppliedUnique(m: M.Module, groups: seq<seq<bool>>, t: Table, parent: nat, app: M.TypeApp, a: TypeEnv,
                      b: TypeEnv)
    requires M.Ordered(m) && Sound(t)
    requires Applied(m, groups, t, parent, app, a) && Applied(m, groups, t, parent, app, b)
    ensures a == b
  {
    hide WellFormed, EnvsNamed, Closes, ClosedRow, Fixed;
    LaterSame(t);
    forall k | 0 <= k < |a.types| ensures a.types[k] == b.types[k] {
      FixedSame(m, t, app.types[k], parent);
      ClosesUnique(m, groups, t, t, app.types[k], parent, a.types[k], b.types[k]);
    }
    assert a.types == b.types && a.rows == b.rows;
  }

  lemma FixedSame(m: M.Module, t: Table, ty: nat, env: nat)
    requires M.Ordered(m)
    ensures Fixed(m, t, t, ty, env)
  {
  }

  /** Deriving gives one id, whether a cache answers or not, and however the
      table has grown since. */
  lemma DerivesUnique(m: M.Module, groups: seq<seq<bool>>, t: Table, t': Table, parent: nat, app: nat, id: nat,
                      id': nat)
    requires M.Ordered(m) && Later(t, t') && FixedApp(m, t, t', parent, app)
    requires Derives(m, groups, t, parent, app, id) && Derives(m, groups, t', parent, app, id')
    ensures id == id'
  {
    hide DepthsOk, EnvsNamed, Applied, FixedApp;
    DerivesGrows(m, groups, t, t', parent, app, id);
    if app < |m.apps| {
      var a, b := t'.envs[id], t'.envs[id'];
      AppliedUnique(m, groups, t', parent, m.apps[app], a, b);
      assert t'.envIndex[a] == id && t'.envIndex[b] == id';
    }
  }

  /** The type arguments of the application close cleanly. */
  ghost predicate CleanArgs(m: M.Module, t: Table, early: Keys, parent: nat, app: nat)
    requires M.Ordered(m)
  {
    app < |m.apps| ==>
      forall k :: 0 <= k < |m.apps[app].types| ==> Clean(m, t, early, m.apps[app].types[k], parent)
  }

  /** Nothing spoils this derivation: its arguments close cleanly, and it was
      not cached on the way from a parent that arrived meanwhile, unless the
      parent does not matter. */
  ghost predicate CleanApp(m: M.Module, t: Table, early: Keys, apps: Keys, parent: nat, app: nat)
    requires M.Ordered(m)
  {
    CleanArgs(m, t, early, parent, app) && ((parent, app) in apps ==> AppGround(m, app))
  }

  /** Cached derivations have a held parent, and are right when clean. */
  ghost predicate DerivedOk(m: M.Module, groups: seq<seq<bool>>, t: Table, early: Keys, apps: Keys, derived: Memo)
    requires M.Ordered(m) && Sound(t)
  {
    && apps <= derived.Keys
    && forall k :: k in derived ==> DerivationOk(m, groups, t, early, apps, k.0, k.1, derived[k]) && k.0 < |t.envs|
  }

  ghost predicate DerivationOk(m: M.Module, groups: seq<seq<bool>>, t: Table, early: Keys, apps: Keys, parent: nat,
                               app: nat, id: nat)
    requires M.Ordered(m) && Sound(t)
  {
    id < |t.envs| && (CleanApp(m, t, early, apps, parent, app) ==> Derives(m, groups, t, parent, app, id))
  }

  lemma CleanAppEarlier(m: M.Module, t: Table, t': Table, early: Keys, apps: Keys, parent: nat, app: nat)
    requires M.Ordered(m) && |t.envs| <= |t'.envs| && CleanApp(m, t', early, apps, parent, app)
    ensures CleanApp(m, t, early, apps, parent, app)
  {
    hide AppGround, M.Ground, M.SubType;
  }

  lemma DerivedGrows(m: M.Module, groups: seq<seq<bool>>, t: Table, t': Table, early: Keys, apps: Keys, derived: Memo)
    requires M.Ordered(m) && Later(t, t') && DerivedOk(m, groups, t, early, apps, derived)
    ensures DerivedOk(m, groups, t', early, apps, derived)
  {
    hide Sound, Derives, AppGround, CleanApp;
    forall k | k in derived ensures DerivationOk(m, groups, t', early, apps, k.0, k.1, derived[k]) {
      if CleanApp(m, t', early, apps, k.0, k.1) {
        CleanAppEarlier(m, t, t', early, apps, k.0, k.1);
        DerivesGrows(m, groups, t, t', k.0, k.1, derived[k]);
      }
    }
  }

  /** Noting more keys leaves fewer derivations clean. */
  lemma CleanAppFewer(m: M.Module, t: Table, early: Keys, early': Keys, apps: Keys, apps': Keys, parent: nat, app: nat)
    requires M.Ordered(m) && early <= early' && apps <= apps' && CleanApp(m, t, early', apps', parent, app)
    ensures CleanApp(m, t, early, apps, parent, app)
  {
    hide AppGround, M.Ground, M.SubType;
  }

  lemma DerivedMore(m: M.Module, groups: seq<seq<bool>>, t: Table, early: Keys, early': Keys, apps: Keys, derived: Memo)
    requires M.Ordered(m) && Sound(t) && DerivedOk(m, groups, t, early, apps, derived) && early <= early'
    ensures DerivedOk(m, groups, t, early', apps, derived)
  {
    hide Sound, Derives, CleanApp;
    forall k | k in derived ensures DerivationOk(m, groups, t, early', apps, k.0, k.1, derived[k]) {
      if CleanApp(m, t, early', apps, k.0, k.1) { CleanAppFewer(m, t, early, early', apps, apps, k.0, k.1); }
    }
  }

  // ---------------------------------------------------------- all the caches

  /** The machine-local caches of a view. */
  ghost predicate CachesOk(m: M.Module, groups: seq<seq<bool>>, t: Table, early: Keys, apps: Keys, closed: Memo,
                           last: Option<(nat, nat, nat)>, derived: Memo)
    requires M.Ordered(m) && Sound(t)
  {
    MemoOk(m, groups, t, early, closed) && LastOk(closed, last) && DerivedOk(m, groups, t, early, apps, derived)
  }

  lemma CachesGrow(m: M.Module, groups: seq<seq<bool>>, t: Table, t': Table, early: Keys, apps: Keys, closed: Memo,
                   last: Option<(nat, nat, nat)>, derived: Memo)
    requires M.Ordered(m) && Later(t, t') && CachesOk(m, groups, t, early, apps, closed, last, derived)
    ensures CachesOk(m, groups, t', early, apps, closed, last, derived)
  {
    hide Sound, EntryOk, DerivedOk;
    forall k | k in closed ensures EntryOk(m, groups, t', early, k.0, k.1, closed[k]) {
      EntryGrows(m, groups, t, t', early, k.0, k.1, closed[k]);
    }
    DerivedGrows(m, groups, t, t', early, apps, derived);
  }

  /** The caches with one more memo entry, noted when it comes too early. */
  lemma CachesAdd(m: M.Module, groups: seq<seq<bool>>, t: Table, early: Keys, early': Keys, apps: Keys, closed: Memo,
                  last: Option<(nat, nat, nat)>, derived: Memo, ty: nat, env: nat, id: nat)
    requires M.Ordered(m) && Sound(t) && CachesOk(m, groups, t, early, apps, closed, last, derived)
    requires (ty, env) !in closed && early <= early' <= early + {(ty, env)}
    requires EntryOk(m, groups, t, early', ty, env, id)
    ensures CachesOk(m, groups, t, early', apps, closed[(ty, env) := id], last, derived)
  {
    hide Sound, EntryOk, DerivedOk, MemoOk;
    MemoAdd(m, groups, t, early, early', closed, ty, env, id);
    DerivedMore(m, groups, t, early, early', apps, derived);
  }
}
