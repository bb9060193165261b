/** The interning table of closed types and type environments. */
module TypeTable {
  import opened Common
  import opened ClosedTypes

  const MAX_CLOSED_DEPTH: nat := 128

  datatype TypeEnv = TypeEnv(types: seq<nat>, rows: seq<Row>)

  const EMPTY_ENV := TypeEnv([], [])

  /** The records that the store and every view of it hold. */
  datatype Table = Table(
    types: seq<ClosedType>, typeIndex: map<ClosedType, nat>, depths: seq<nat>,
    envs: seq<TypeEnv>, envIndex: map<TypeEnv, nat>)

  const EMPTY_TABLE := Table([], map[], [], [EMPTY_ENV], map[EMPTY_ENV := 0])

  // ------------------------------------------------------------- indices

  /** `index` is the exact inverse of `items`. */
  ghost predicate IsIndex<T(!new)>(items: seq<T>, index: map<T, nat>) {
    && (forall i :: 0 <= i < |items| ==> items[i] in index && index[items[i]] == i)
    && (forall x :: x in index ==> index[x] < |items| && items[index[x]] == x)
  }

  lemma IndexUnique<T(!new)>(items: seq<T>, a: map<T, nat>, b: map<T, nat>)
    requires IsIndex(items, a) && IsIndex(items, b)
    ensures a == b
  {
    forall x | x in a ensures x in b && a[x] == b[x] { assert items[a[x]] == x; }
    forall x | x in b ensures x in a { assert items[b[x]] == x; }
  }

  lemma IndexPush<T(!new)>(items: seq<T>, index: map<T, nat>, x: T)
    requires IsIndex(items, index) && x !in index
    ensures IsIndex(items + [x], index[x := |items|])
  {
  }

  /** A table without repeats grows by items that its index does not hold. */
  lemma IndexFresh<T(!new)>(items: seq<T>, index: map<T, nat>, more: seq<T>, moreIndex: map<T, nat>)
    requires IsIndex(items, index) && IsIndex(more, moreIndex) && items <= more && |items| < |more|
    ensures more[|items|] !in index
  {
    assert moreIndex[more[|items|]] == |items|;
    assert forall x :: x in index ==> more[index[x]] == x;
  }

  ghost function Restrict<T(!new)>(index: map<T, nat>, n: nat): map<T, nat> {
    map x | x in index && index[x] < n :: index[x]
  }

  lemma IndexPrefix<T(!new)>(items: seq<T>, index: map<T, nat>, n: nat)
    requires IsIndex(items, index) && n <= |items|
    ensures IsIndex(items[..n], Restrict(index, n))
  {
  }

  // -------------------------------------------------------------- depths

  /** One more than the deepest child; a leaf has depth one. */
  ghost function Deepest(ids: seq<nat>, depths: seq<nat>): (d: nat)
    requires AllBelow(ids, |depths|)
    ensures d >= 1
  {
    if ids == [] then 1
    else
      var last := |ids| - 1;
      Max(Deepest(ids[..last], depths), depths[ids[last]] + 1)
  }

  lemma {:induction false} DeepestGrows(ids: seq<nat>, depths: seq<nat>, more: seq<nat>)
    requires AllBelow(ids, |depths|) && depths <= more
    ensures Deepest(ids, more) == Deepest(ids, depths)
    decreases |ids|
  {
    if ids != [] { DeepestGrows(ids[..|ids| - 1], depths, more); }
  }

  // ------------------------------------------------------------ the table

  /** The depth column is what interning computes, within the bound. */
  ghost predicate DepthsOk(types: seq<ClosedType>, depths: seq<nat>) {
    && |depths| == |types| && BottomUp(types)
    && forall i :: 0 <= i < |types| ==>
         AllBelow(Children(types[i]), |depths|) && depths[i] == Deepest(Children(types[i]), depths)
             && depths[i] <= MAX_CLOSED_DEPTH
  }

  /** What every reachable table keeps. */
  ghost predicate WellFormed(t: Table) {
    && DepthsOk(t.types, t.depths)
    && IsIndex(t.types, t.typeIndex)
    && |t.envs| >= 1 && t.envs[0] == EMPTY_ENV
    && IsIndex(t.envs, t.envIndex)
  }

  /** Every environment names types of the table. */
  ghost predicate EnvsNamed(t: Table) {
    forall e :: 0 <= e < |t.envs| ==> AllBelow(t.envs[e].types, |t.types|)
  }

  ghost predicate Sound(t: Table) {
    WellFormed(t) && EnvsNamed(t)
  }

  function PushType(t: Table, node: ClosedType, depth: nat): Table {
    t.(types := t.types + [node], typeIndex := t.typeIndex[node := |t.types|], depths := t.depths + [depth])
  }

  function PushEnv(t: Table, env: TypeEnv): Table {
    t.(envs := t.envs + [env], envIndex := t.envIndex[env := |t.envs|])
  }

  lemma EmptyWellFormed()
    ensures Sound(EMPTY_TABLE)
  {
  }

  /** More types keep the environments named, and so does one that is. */
  lemma NamedGrows(t: Table, t': Table)
    requires EnvsNamed(t) && t'.envs == t.envs && |t.types| <= |t'.types|
    ensures EnvsNamed(t')
  {
  }

  lemma NamedAppend(t: Table, t': Table, more: seq<TypeEnv>)
    requires EnvsNamed(t) && t'.envs == t.envs + more && |t.types| <= |t'.types|
    requires forall e :: 0 <= e < |more| ==> AllBelow(more[e].types, |t'.types|)
    ensures EnvsNamed(t')
  {
  }

  lemma DepthsPush(types: seq<ClosedType>, depths: seq<nat>, node: ClosedType)
    requires DepthsOk(types, depths) && AllBelow(Children(node), |types|)
    requires Deepest(Children(node), depths) <= MAX_CLOSED_DEPTH
    ensures DepthsOk(types + [node], depths + [Deepest(Children(node), depths)])
  {
    var types', depths' := types + [node], depths + [Deepest(Children(node), depths)];
    forall i | 0 <= i < |types'|
      ensures Below(types'[i], i) && AllBelow(Children(types'[i]), |depths'|)
      ensures depths'[i] == Deepest(Children(types'[i]), depths') && depths'[i] <= MAX_CLOSED_DEPTH
    {
      if i < |types| {
        assert Below(types[i], i);
        DeepestGrows(Children(types[i]), depths, depths');
      } else {
        DeepestGrows(Children(node), depths, depths');
      }
    }
  }

  lemma PushTypeKeeps(t: Table, node: ClosedType)
    requires WellFormed(t) && node !in t.typeIndex
    requires AllBelow(Children(node), |t.types|) && Deepest(Children(node), t.depths) <= MAX_CLOSED_DEPTH
    ensures WellFormed(PushType(t, node, Deepest(Children(node), t.depths)))
  {
    DepthsPush(t.types, t.depths, node);
    IndexPush(t.types, t.typeIndex, node);
  }

  lemma PushEnvKeeps(t: Table, env: TypeEnv)
    requires WellFormed(t) && env !in t.envIndex
    ensures WellFormed(PushEnv(t, env))
  {
    hide DepthsOk;
    IndexPush(t.envs, t.envIndex, env);
  }

  // ------------------------------------------------------------ prefixes

  /** `a` holds the first records of `b`. */
  ghost predicate Prefix(a: Table, b: Table) {
    a.types <= b.types && a.depths <= b.depths && a.envs <= b.envs
  }

  lemma PrefixTransitive(a: Table, b: Table, c: Table)
    requires Prefix(a, b) && Prefix(b, c)
    ensures Prefix(a, c)
  {
  }

  /** `t'` is a later state of the table `t`. */
  ghost predicate Later(t: Table, t': Table) {
    Sound(t) && Sound(t') && Prefix(t, t')
  }

  /** What a table says of its columns, for proofs that hide the rest. */
  lemma TableParts(t: Table)
    requires WellFormed(t)
    ensures BottomUp(t.types) && |t.depths| == |t.types|
    ensures IsIndex(t.types, t.typeIndex) && IsIndex(t.envs, t.envIndex)
    ensures forall x :: x in t.typeIndex ==> t.typeIndex[x] < |t.types| && t.types[t.typeIndex[x]] == x
  {
  }

  lemma SoundParts(t: Table)
    requires Sound(t)
    ensures WellFormed(t) && EnvsNamed(t) && BottomUp(t.types) && |t.depths| == |t.types|
  {
  }

  lemma LaterSame(t: Table)
    requires Sound(t)
    ensures Later(t, t)
  {
    hide Sound;
  }

  lemma LaterTransitive(a: Table, b: Table, c: Table)
    requires Later(a, b) && Later(b, c)
    ensures Later(a, c)
  {
    hide Sound;
  }

  /** Among well-formed tables, a prefix of the same lengths is the table:
      the lengths alone decide the contents, indices included. */
  lemma SameLengths(a: Table, b: Table)
    requires WellFormed(a) && WellFormed(b) && Prefix(a, b)
    requires |a.types| == |b.types| && |a.envs| == |b.envs|
    ensures a == b
  {
    hide IsIndex;
    assert a.types == b.types && a.depths == b.depths && a.envs == b.envs;
    IndexUnique(a.types, a.typeIndex, b.typeIndex);
    IndexUnique(a.envs, a.envIndex, b.envIndex);
  }

  /** The first records of a table. */
  ghost function Take(t: Table, types: nat, envs: nat): Table
    requires types <= |t.types| && types <= |t.depths| && envs <= |t.envs|
  {
    Table(t.types[..types], Restrict(t.typeIndex, types), t.depths[..types], t.envs[..envs], Restrict(t.envIndex, envs))
  }

  lemma DepthsPrefix(types: seq<ClosedType>, depths: seq<nat>, n: nat)
    requires DepthsOk(types, depths) && n <= |types|
    ensures DepthsOk(types[..n], depths[..n])
  {
    forall i | 0 <= i < n
      ensures Below(types[..n][i], i) && AllBelow(Children(types[..n][i]), n)
      ensures depths[..n][i] == Deepest(Children(types[..n][i]), depths[..n])
    {
      assert Below(types[i], i);
      DeepestGrows(Children(types[i]), depths[..n], depths);
    }
  }

  lemma TakeKeeps(t: Table, types: nat, envs: nat)
    requires WellFormed(t) && types <= |t.types| && 1 <= envs <= |t.envs|
    ensures WellFormed(Take(t, types, envs)) && Prefix(Take(t, types, envs), t)
  {
    hide IsIndex, Restrict;
    DepthsPrefix(t.types, t.depths, types);
    IndexPrefix(t.types, t.typeIndex, types);
    IndexPrefix(t.envs, t.envIndex, envs);
  }

  // --------------------------------------------------------- appending records

  function AppendTypes(t: Table, nodes: seq<ClosedType>, depths: seq<nat>): Table
    requires |nodes| == |depths|
    decreases |nodes|
  {
    if nodes == [] then t
    else
      var last := |nodes| - 1;
      PushType(AppendTypes(t, nodes[..last], depths[..last]), nodes[last], depths[last])
  }

  function AppendEnvs(t: Table, envs: seq<TypeEnv>): Table
    decreases |envs|
  {
    if envs == [] then t
    else
      var last := |envs| - 1;
      PushEnv(AppendEnvs(t, envs[..last]), envs[last])
  }

  ghost predicate IndexesAppended(a: Table, b: Table, k: nat)
    requires |a.types| <= |b.types| == |b.depths| && k <= |b.types| - |a.types|
  {
    var n := |a.types| + k;
    var r := AppendTypes(a, b.types[|a.types|..n], b.depths[|a.types|..n]);
    && r.types == b.types[..n] && r.depths == b.depths[..n] && r.envs == a.envs && r.envIndex == a.envIndex
    && IsIndex(r.types, r.typeIndex)
  }

  lemma SliceSnoc<T>(s: seq<T>, n: nat, m: nat)
    requires n <= m < |s|
    ensures s[n..m + 1] == s[n..m] + [s[m]] && s[..m + 1] == s[..m] + [s[m]]
  {
  }

  lemma AppendTypesSnoc(t: Table, nodes: seq<ClosedType>, depths: seq<nat>, node: ClosedType, depth: nat)
    requires |nodes| == |depths|
    ensures AppendTypes(t, nodes + [node], depths + [depth]) == PushType(AppendTypes(t, nodes, depths), node, depth)
  {
    hide PushType;
    assert (nodes + [node])[..|nodes|] == nodes && (depths + [depth])[..|nodes|] == depths;
  }

  lemma {:induction false} CatchUpTypes(a: Table, b: Table, k: nat)
    requires WellFormed(a) && WellFormed(b) && Prefix(a, b) && k <= |b.types| - |a.types|
    ensures IndexesAppended(a, b, k)
    decreases k
  {
    hide WellFormed, IsIndex, AppendTypes;
    TableParts(a);
    TableParts(b);
    var n := |a.types|;
    if k == 0 {
      AppendNothing(a);
      assert b.types[n..n] == [] && b.depths[n..n] == [] && b.types[..n] == a.types && b.depths[..n] == a.depths;
    } else {
      CatchUpTypes(a, b, k - 1);
      var m := n + k - 1;
      SliceSnoc(b.types, n, m);
      SliceSnoc(b.depths, n, m);
      AppendTypesSnoc(a, b.types[n..m], b.depths[n..m], b.types[m], b.depths[m]);
      var before := AppendTypes(a, b.types[n..m], b.depths[n..m]);
      IndexFresh(before.types, before.typeIndex, b.types, b.typeIndex);
      IndexPush(before.types, before.typeIndex, b.types[m]);
    }
  }

  lemma AppendNothing(t: Table)
    ensures AppendTypes(t, [], []) == t
  {
  }

  lemma {:induction false} CatchUpEnvs(a: Table, envs: seq<TypeEnv>, index: map<TypeEnv, nat>, k: nat)
    requires IsIndex(a.envs, a.envIndex) && IsIndex(envs, index) && a.envs <= envs && k <= |envs| - |a.envs|
    ensures var n := |a.envs| + k; var r := AppendEnvs(a, envs[|a.envs|..n]);
      && r.envs == envs[..n] && IsIndex(r.envs, r.envIndex)
      && r.types == a.types && r.depths == a.depths && r.typeIndex == a.typeIndex
  {
    hide IsIndex;
    var n := |a.envs|;
    if k == 0 {
      assert envs[n..n] == [] && envs[..n] == a.envs;
    } else {
      CatchUpEnvs(a, envs, index, k - 1);
      var m := n + k - 1;
      assert envs[n..m + 1][..k - 1] == envs[n..m];
      var before := AppendEnvs(a, envs[n..m]);
      assert envs[..m] + [envs[m]] == envs[..m + 1];
      IndexFresh(before.envs, before.envIndex, envs, index);
      IndexPush(before.envs, before.envIndex, envs[m]);
    }
  }

  /** Appending the records a prefix lacks gives the whole table. */
  lemma CatchUp(a: Table, b: Table)
    requires WellFormed(a) && WellFormed(b) && Prefix(a, b)
    ensures |b.types| == |b.depths|
    ensures AppendEnvs(AppendTypes(a, b.types[|a.types|..], b.depths[|a.types|..]), b.envs[|a.envs|..]) == b
  {
    hide DepthsOk, IsIndex, AppendTypes, AppendEnvs;
    TableParts(a);
    TableParts(b);
    var nt, ne := |b.types|, |b.envs|;
    CatchUpTypes(a, b, nt - |a.types|);
    assert b.types[|a.types|..nt] == b.types[|a.types|..] && b.depths[|a.types|..nt] == b.depths[|a.types|..];
    var t := AppendTypes(a, b.types[|a.types|..], b.depths[|a.types|..]);
    assert b.types[..nt] == b.types && b.depths[..nt] == b.depths;
    CatchUpEnvs(t, b.envs, b.envIndex, ne - |t.envs|);
    assert b.envs[|a.envs|..ne] == b.envs[|a.envs|..] && b.envs[..ne] == b.envs;
    var r := AppendEnvs(t, b.envs[|a.envs|..]);
    IndexUnique(b.types, t.typeIndex, b.typeIndex);
    IndexUnique(b.envs, r.envIndex, b.envIndex);
  }

  // -------------------------------------------------------------- meaning

  lemma {:induction false} DepthIsHeight(types: seq<ClosedType>, depths: seq<nat>, id: nat)
    requires DepthsOk(types, depths) && id < |types|
    ensures depths[id] == Height(Unfold(types, id))
    decreases id
  {
    var ids := Children(types[id]);
    forall k | 0 <= k < |ids| ensures depths[ids[k]] == Height(Unfold(types, ids[k])) {
      assert Below(types[id], id);
      DepthIsHeight(types, depths, ids[k]);
    }
    DeepestIsHighest(types, depths, ids, Unfold(types, id).kids);
  }

  lemma {:induction false} DeepestIsHighest(types: seq<ClosedType>, depths: seq<nat>, ids: seq<nat>, ts: seq<Tree>)
    requires AllBelow(ids, |depths|) && |ts| == |ids|
    requires forall k :: 0 <= k < |ids| ==> depths[ids[k]] == Height(ts[k])
    ensures Deepest(ids, depths) == 1 + Highest(ts)
    decreases |ids|
  {
    if ids != [] {
      var last := |ids| - 1;
      DeepestIsHighest(types, depths, ids[..last], ts[..last]);
    }
  }

  /** The depth a node would get is the height of its tree. */
  lemma NodeDepth(types: seq<ClosedType>, depths: seq<nat>, node: ClosedType)
    requires DepthsOk(types, depths) && Below(node, |types|)
    ensures AllBelow(Children(node), |depths|) && Deepest(Children(node), depths) == Height(NodeTree(types, node))
  {
    var ids := Children(node);
    forall k | 0 <= k < |ids|
      ensures depths[ids[k]] == Height(Unfold(types, ids[k]))
    {
      DepthIsHeight(types, depths, ids[k]);
    }
    DeepestIsHighest(types, depths, ids, NodeTree(types, node).kids);
  }

  /** In every well-formed table, children precede parents, ids are equal
      exactly when the types they unfold to are equal, the index is the exact
      inverse of the table, and the stored depth is the height of the
      unfolded type, at most 128. */
  lemma CanonicalForm(t: Table, a: nat, b: nat)
    requires WellFormed(t) && a < |t.types| && b < |t.types|
    ensures forall k :: 0 <= k < |Children(t.types[a])| ==> Children(t.types[a])[k] < a
    ensures a == b <==> Unfold(t.types, a) == Unfold(t.types, b)
    ensures t.depths[a] == Height(Unfold(t.types, a)) <= MAX_CLOSED_DEPTH
    ensures forall node :: node in t.typeIndex <==> node in t.types
    ensures t.types[a] in t.typeIndex && t.typeIndex[t.types[a]] == a
  {
    assert Below(t.types[a], a);
    DepthIsHeight(t.types, t.depths, a);
    if Unfold(t.types, a) == Unfold(t.types, b) {
      assert Injective(t.types);
      UnfoldInjective(t.types, a, b);
    }
    forall node | node in t.typeIndex ensures node in t.types { assert t.types[t.typeIndex[node]] == node; }
  }

  /** A node is in the table exactly when some entry unfolds to its tree. */
  lemma NodePresent(t: Table, node: ClosedType, id: nat)
    requires WellFormed(t) && Below(node, |t.types|) && id < |t.types|
    ensures Unfold(t.types, id) == NodeTree(t.types, node) <==> node in t.typeIndex && t.typeIndex[node] == id
  {
    UnfoldNode(t.types, id);
    if Unfold(t.types, id) == NodeTree(t.types, node) {
      SameNode(t, t.types[id], node);
    }
  }

  /** Over one table, nodes with equal trees are equal. */
  lemma SameNode(t: Table, a: ClosedType, b: ClosedType)
    requires WellFormed(t) && Below(a, |t.types|) && Below(b, |t.types|) && NodeTree(t.types, a) == NodeTree(t.types, b)
    ensures a == b
  {
    hide WellFormed, NodeTree, Unfold, BottomUp, Below, Shape, Children;
    EntriesDiffer(t);
    TreeParts(t.types, a);
    TreeParts(t.types, b);
    var x, y := Children(a), Children(b);
    forall k | 0 <= k < |x| ensures x[k] == y[k] {
      assert NodeTree(t.types, a).kids[k] == Unfold(t.types, x[k])
          && NodeTree(t.types, b).kids[k] == Unfold(t.types, y[k]);
      UnfoldInjective(t.types, x[k], y[k]);
    }
    NodeDetermined(a, b);
  }

  lemma EntriesDiffer(t: Table)
    requires WellFormed(t)
    ensures BottomUp(t.types) && Injective(t.types)
  {
    hide DepthsOk;
    TableParts(t);
  }

  lemma TreeParts(types: seq<ClosedType>, node: ClosedType)
    requires BottomUp(types) && Below(node, |types|)
    ensures NodeTree(types, node).shape == Shape(node) && |NodeTree(types, node).kids| == |Children(node)|
    ensures forall k :: 0 <= k < |Children(node)| ==> Children(node)[k] < |types|
    ensures forall k :: 0 <= k < |Children(node)| ==> NodeTree(types, node).kids[k] == Unfold(types, Children(node)[k])
  {
    hide Shape, Children, Unfold;
  }
}
