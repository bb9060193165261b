/** The closed type grammar, and the tree an entry of a type table unfolds to. */
module ClosedTypes {
  import opened Common

  /** One closed effect row: exact operation slots. */
  type Row = seq<nat>

  /** One node of the closed type grammar; children are table indices. */
  datatype ClosedType =
    | Unit | Bool | Int | Float | Str | Fault | Request | PolicyTable | Vm | Digest | VmSnapshot
    | Bytes | FileHandle | ResourceHandle | HostResource
    | Class(cls: nat)
    | Inst(cls: nat, args: seq<nat>)
    | List(elem: nat)
    | Map(key: nat, value: nat)
    | Tuple(elems: seq<nat>)
    | Fn(params: seq<nat>, muts: seq<bool>, ret: nat, row: Row)
    | Callback(params: seq<nat>, muts: seq<bool>, ret: nat, row: Row)
    | Run(result: nat)
    | Wait(result: nat)
    | PendingCall(arg: nat, reply: nat)
    | Handle(message: nat, terminal: nat)
    | Op(slot: nat, callable: nat)
    | RunSnapshot(result: nat)

  function Each(ids: seq<nat>, f: nat -> nat): (r: seq<nat>)
    ensures |r| == |ids| && forall i :: 0 <= i < |ids| ==> r[i] == f(ids[i])
  {
    seq(|ids|, i requires 0 <= i < |ids| => f(ids[i]))
  }

  /** Every child index of a node, in canonical order. */
  function Children(node: ClosedType): seq<nat> {
    match node
    case Inst(_, args) => args
    case Tuple(elems) => elems
    case List(e) => [e]
    case Run(e) => [e]
    case Wait(e) => [e]
    case RunSnapshot(e) => [e]
    case Op(_, e) => [e]
    case Map(a, b) => [a, b]
    case PendingCall(a, b) => [a, b]
    case Handle(a, b) => [a, b]
    case Fn(params, _, ret, _) => params + [ret]
    case Callback(params, _, ret, _) => params + [ret]
    case _ => []
  }

  /** The same node with every child index remapped. */
  function Remap(node: ClosedType, f: nat -> nat): ClosedType {
    match node
    case Inst(c, args) => Inst(c, Each(args, f))
    case Tuple(elems) => Tuple(Each(elems, f))
    case List(e) => List(f(e))
    case Run(e) => Run(f(e))
    case Wait(e) => Wait(f(e))
    case RunSnapshot(e) => RunSnapshot(f(e))
    case Op(op, e) => Op(op, f(e))
    case Map(a, b) => Map(f(a), f(b))
    case PendingCall(a, b) => PendingCall(f(a), f(b))
    case Handle(a, b) => Handle(f(a), f(b))
    case Fn(params, muts, ret, row) => Fn(Each(params, f), muts, f(ret), row)
    case Callback(params, muts, ret, row) => Callback(Each(params, f), muts, f(ret), row)
    case other => other
  }

  /** Everything about a node except which entries its children are. */
  ghost function Shape(node: ClosedType): ClosedType {
    Remap(node, _ => 0)
  }

  lemma RemapChildren(node: ClosedType, f: nat -> nat)
    ensures Children(Remap(node, f)) == Each(Children(node), f)
    ensures Shape(Remap(node, f)) == Shape(node)
  {
  }

  /** A node is its shape and its children. */
  lemma NodeDetermined(a: ClosedType, b: ClosedType)
    requires Shape(a) == Shape(b) && Children(a) == Children(b)
    ensures a == b
  {
    if a.Fn? || a.Callback? {
      var pa, pb := a.params, b.params;
      assert Children(a)[..|Children(a)| - 1] == pa && Children(b)[..|Children(b)| - 1] == pb;
    }
  }

  // ---------------------------------------------------------------- unfolding

  /** A closed type with its children written out. */
  datatype Tree = Tree(shape: ClosedType, kids: seq<Tree>)

  /** Every child names an earlier entry. */
  ghost predicate BottomUp(types: seq<ClosedType>) {
    forall i :: 0 <= i < |types| ==> Below(types[i], i)
  }

  ghost predicate Below(node: ClosedType, n: nat) {
    forall k :: 0 <= k < |Children(node)| ==> Children(node)[k] < n
  }

  ghost function Unfold(types: seq<ClosedType>, id: nat): (t: Tree)
    requires BottomUp(types) && id < |types|
    ensures t.shape == Shape(types[id]) && |t.kids| == |Children(types[id])|
    decreases id, 1
  {
    Tree(Shape(types[id]), UnfoldEach(types, Children(types[id]), id))
  }

  ghost function UnfoldEach(types: seq<ClosedType>, ids: seq<nat>, bound: nat): (ts: seq<Tree>)
    requires BottomUp(types) && bound <= |types| && forall k :: 0 <= k < |ids| ==> ids[k] < bound
    ensures |ts| == |ids| && forall k :: 0 <= k < |ids| ==> ts[k] == Unfold(types, ids[k])
    decreases bound, 0
  {
    seq(|ids|, k requires 0 <= k < |ids| => Unfold(types, ids[k]))
  }

  /** The tree a node over a table stands for. */
  ghost function NodeTree(types: seq<ClosedType>, node: ClosedType): Tree
    requires BottomUp(types) && Below(node, |types|)
  {
    Tree(Shape(node), UnfoldEach(types, Children(node), |types|))
  }

  lemma UnfoldNode(types: seq<ClosedType>, id: nat)
    requires BottomUp(types) && id < |types|
    ensures Below(types[id], |types|) && Unfold(types, id) == NodeTree(types, types[id])
  {
    var ids := Children(types[id]);
    assert UnfoldEach(types, ids, id) == UnfoldEach(types, ids, |types|);
  }

  /** Growing a table changes no unfolding. */
  lemma {:induction false} UnfoldGrows(types: seq<ClosedType>, more: seq<ClosedType>, id: nat)
    requires BottomUp(types) && BottomUp(more) && types <= more && id < |types|
    ensures Unfold(more, id) == Unfold(types, id)
    decreases id
  {
    var ids := Children(types[id]);
    forall k | 0 <= k < |ids|
      ensures Unfold(more, ids[k]) == Unfold(types, ids[k])
    {
      UnfoldGrows(types, more, ids[k]);
    }
    assert UnfoldEach(types, ids, id) == UnfoldEach(more, ids, id);
  }

  lemma NodeTreeGrows(types: seq<ClosedType>, more: seq<ClosedType>, node: ClosedType)
    requires BottomUp(types) && BottomUp(more) && types <= more && Below(node, |types|)
    ensures Below(node, |more|) && NodeTree(more, node) == NodeTree(types, node)
  {
    var ids := Children(node);
    forall k | 0 <= k < |ids|
      ensures Unfold(more, ids[k]) == Unfold(types, ids[k])
    {
      UnfoldGrows(types, more, ids[k]);
    }
    assert UnfoldEach(types, ids, |types|) == UnfoldEach(more, ids, |more|);
  }

  ghost predicate Injective(types: seq<ClosedType>) {
    forall i, j :: 0 <= i < |types| && 0 <= j < |types| && types[i] == types[j] ==> i == j
  }

  /** In a table without repeated nodes, equal trees have equal indices. */
  lemma {:induction false} UnfoldInjective(types: seq<ClosedType>, a: nat, b: nat)
    requires BottomUp(types) && Injective(types) && a < |types| && b < |types|
    requires Unfold(types, a) == Unfold(types, b)
    ensures a == b
    decreases a
  {
    var xs, ys := Children(types[a]), Children(types[b]);
    assert |xs| == |Unfold(types, a).kids| == |Unfold(types, b).kids| == |ys|;
    forall k | 0 <= k < |xs| ensures xs[k] == ys[k] {
      assert Unfold(types, xs[k]) == Unfold(types, a).kids[k] == Unfold(types, b).kids[k] == Unfold(types, ys[k]);
      UnfoldInjective(types, xs[k], ys[k]);
    }
    NodeDetermined(types[a], types[b]);
  }

  /** The height of a tree; a leaf has height one. */
  ghost function Height(t: Tree): (h: nat)
    ensures h >= 1
  {
    1 + Highest(t.kids)
  }

  ghost function Highest(ts: seq<Tree>): nat {
    if ts == [] then 0
    else
      var last := |ts| - 1;
      Max(Highest(ts[..last]), Height(ts[last]))
  }
}
