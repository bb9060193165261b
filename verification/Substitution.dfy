/** Substituting type and row arguments into module types. */
module Substitution {
  import opened Common
  import opened ClosedTypes
  import opened EffectRows
  import M = ModuleTypes

  const UNIT_TREE := Tree(Unit, [])

  /** The closed node of a module node, given its closed children and row. */
  function Build(node: M.ModuleType, child: nat -> nat, row: Row): ClosedType {
    match node
    case Unit => Unit
    case Never => Unit
    case Bool => Bool
    case Int => Int
    case Float => Float
    case Str => Str
    case Fault => Fault
    case Request => Request
    case PolicyTable => PolicyTable
    case Vm => Vm
    case Digest => Digest
    case VmSnapshot => VmSnapshot
    case Bytes => Bytes
    case FileHandle => FileHandle
    case ResourceHandle => ResourceHandle
    case HostResource => HostResource
    case Class(c) => Class(c)
    case Var(_) => Unit
    case Inst(c, args) => Inst(c, Each(args, child))
    case List(e) => List(child(e))
    case Map(k, v) => Map(child(k), child(v))
    case Tuple(elems) => Tuple(Each(elems, child))
    case Fn(params, muts, ret, _) => Fn(Each(params, child), muts, child(ret), row)
    case Callback(params, muts, ret, _) => Callback(Each(params, child), muts, child(ret), row)
    case Run(t) => Run(child(t))
    case Wait(t) => Wait(child(t))
    case RunSnapshot(t) => RunSnapshot(child(t))
    case PendingCall(a, r) => PendingCall(child(a), child(r))
    case Handle(a, r) => Handle(child(a), child(r))
    case Op(op, f) => Op(op, child(f))
  }

  /** The recursive substitution: what closing a type under arguments means.
      `Never`, unbound variables and unknown types become `Unit`; rows become
      exact operation sets. */
  ghost function Subst(m: M.Module, groups: seq<seq<bool>>, ty: nat, args: seq<Tree>, rows: seq<Row>): Tree
    requires M.Ordered(m)
    decreases ty, 1
  {
    var node := M.NodeAt(m, ty);
    match node
    case Var(i) => if i < |args| then args[i] else UNIT_TREE
    case _ =>
      Tree(Shape(Build(node, x => x, ClosedRow(M.RowOf(node), rows, groups))),
           SubstEach(m, groups, M.ModuleChildren(node), ty, args, rows))
  }

  ghost function SubstEach(m: M.Module, groups: seq<seq<bool>>, tys: seq<nat>, bound: nat, args: seq<Tree>,
                           rows: seq<Row>): (ts: seq<Tree>)
    requires M.Ordered(m) && AllBelow(tys, bound)
    ensures |ts| == |tys| && forall k :: 0 <= k < |tys| ==> ts[k] == Subst(m, groups, tys[k], args, rows)
    decreases bound, 0
  {
    seq(|tys|, k requires 0 <= k < |tys| => Subst(m, groups, tys[k], args, rows))
  }

  lemma BuildParts(node: M.ModuleType, child: nat -> nat, row: Row)
    ensures Children(Build(node, child, row)) == Each(M.ModuleChildren(node), child)
    ensures Shape(Build(node, child, row)) == Shape(Build(node, x => x, row))
  {
    hide Build, Shape, Children;
    BuildChildren(node, child, row);
    BuildShape(node, child, row);
  }

  lemma BuildChildren(node: M.ModuleType, child: nat -> nat, row: Row)
    ensures Children(Build(node, child, row)) == Each(M.ModuleChildren(node), child)
  {
  }

  lemma BuildShape(node: M.ModuleType, child: nat -> nat, row: Row)
    ensures Shape(Build(node, child, row)) == Shape(Build(node, x => x, row))
  {
    hide Build, Remap;
    BuildRemap(node, child, row);
    RemapChildren(Build(node, x => x, row), child);
  }

  /** Building with closed children is remapping the module's own indices. */
  lemma BuildRemap(node: M.ModuleType, child: nat -> nat, row: Row)
    ensures Build(node, child, row) == Remap(Build(node, x => x, row), child)
  {
    if node.Inst? || node.Tuple? || node.Fn? || node.Callback? {
      ListRemap(node, child, row);
    } else {
      hide Each;
    }
  }

  lemma ListRemap(node: M.ModuleType, child: nat -> nat, row: Row)
    requires node.Inst? || node.Tuple? || node.Fn? || node.Callback?
    ensures Build(node, child, row) == Remap(Build(node, x => x, row), child)
  {
    EachSame(if node.Inst? then node.args else if node.Tuple? then node.elems else node.params);
  }

  lemma EachSame(ids: seq<nat>)
    ensures Each(ids, x => x) == ids
  {
  }

  // ------------------------------------------------------- parts and heights

  lemma SubstNode(m: M.Module, groups: seq<seq<bool>>, ty: nat, args: seq<Tree>, rows: seq<Row>)
    requires M.Ordered(m) && !M.NodeAt(m, ty).Var?
    ensures var node, s := M.NodeAt(m, ty), Subst(m, groups, ty, args, rows);
      && s.shape == Shape(Build(node, x => x, ClosedRow(M.RowOf(node), rows, groups)))
      && |s.kids| == |M.ModuleChildren(node)|
      && forall k :: 0 <= k < |s.kids| ==> s.kids[k] == Subst(m, groups, M.ModuleChildren(node)[k], args, rows)
  {
    hide Build, ClosedRow, Shape;
  }

  lemma {:induction false} HighestOf(ts: seq<Tree>, k: nat)
    requires k < |ts|
    ensures Height(ts[k]) <= Highest(ts)
    decreases |ts|
  {
    if k < |ts| - 1 { HighestOf(ts[..|ts| - 1], k); }
  }

  /** The meaning of a child is lower than the meaning of its parent. */
  lemma ChildLower(m: M.Module, groups: seq<seq<bool>>, ty: nat, child: nat, args: seq<Tree>, rows: seq<Row>)
    requires M.Ordered(m) && child in M.ModuleChildren(M.NodeAt(m, ty))
    ensures Height(Subst(m, groups, child, args, rows)) < Height(Subst(m, groups, ty, args, rows))
  {
    hide Build, ClosedRow, Highest, Subst;
    var tys := M.ModuleChildren(M.NodeAt(m, ty));
    var k :| 0 <= k < |tys| && tys[k] == child;
    SubstNode(m, groups, ty, args, rows);
    HighestOf(Subst(m, groups, ty, args, rows).kids, k);
  }

  /** What is below a type is no higher than the type. */
  lemma {:induction false} SubTypeLower(m: M.Module, groups: seq<seq<bool>>, ty: nat, sub: nat, args: seq<Tree>,
                                        rows: seq<Row>)
    requires M.Ordered(m) && M.SubType(m, ty, sub)
    ensures Height(Subst(m, groups, sub, args, rows)) <= Height(Subst(m, groups, ty, args, rows))
    decreases ty
  {
    hide Subst, Height;
    if sub != ty {
      var kids := M.ModuleChildren(M.NodeAt(m, ty));
      var k :| 0 <= k < |kids| && M.SubType(m, kids[k], sub);
      SubTypeLower(m, groups, kids[k], sub, args, rows);
      ChildLower(m, groups, ty, kids[k], args, rows);
    }
  }

  // --------------------------------------------------- when arguments matter

  lemma {:induction false} FlatGround(row: seq<RowElem>, rows: seq<Row>, rows': seq<Row>, groups: seq<seq<bool>>)
    requires M.NoRowVars(row)
    ensures Flat(row, rows, groups) == Flat(row, rows', groups)
    decreases |row|
  {
    if row != [] { FlatGround(row[..|row| - 1], rows, rows', groups); }
  }

  /** A ground type means the same under all arguments. */
  lemma {:induction false} GroundSubst(m: M.Module, groups: seq<seq<bool>>, ty: nat, args: seq<Tree>, rows: seq<Row>,
                                       args': seq<Tree>, rows': seq<Row>)
    requires M.Ordered(m) && M.Ground(m, ty)
    ensures Subst(m, groups, ty, args, rows) == Subst(m, groups, ty, args', rows')
    decreases ty
  {
    hide Subst, Build, ClosedRow;
    var node := M.NodeAt(m, ty);
    var kids := M.ModuleChildren(node);
    SubstNode(m, groups, ty, args, rows);
    SubstNode(m, groups, ty, args', rows');
    SameRow(M.RowOf(node), rows, rows', groups);
    forall k | 0 <= k < |kids|
      ensures Subst(m, groups, kids[k], args, rows) == Subst(m, groups, kids[k], args', rows')
    {
      GroundSubst(m, groups, kids[k], args, rows, args', rows');
    }
    assert Subst(m, groups, ty, args, rows).kids == Subst(m, groups, ty, args', rows').kids;
  }

  lemma SameRow(row: seq<RowElem>, rows: seq<Row>, rows': seq<Row>, groups: seq<seq<bool>>)
    requires M.NoRowVars(row)
    ensures ClosedRow(row, rows, groups) == ClosedRow(row, rows', groups)
  {
    FlatGround(row, rows, rows', groups);
  }

  /** Without row variables, arguments that are all `Unit` are as good as none. */
  lemma {:induction false} UnitSubst(m: M.Module, groups: seq<seq<bool>>, ty: nat, args: seq<Tree>, rows: seq<Row>)
    requires M.Ordered(m) && M.RowGround(m, ty) && forall i :: 0 <= i < |args| ==> args[i] == UNIT_TREE
    ensures Subst(m, groups, ty, args, rows) == Subst(m, groups, ty, [], [])
    decreases ty
  {
    hide Build, ClosedRow;
    var node := M.NodeAt(m, ty);
    if !node.Var? {
      hide Subst;
      var kids := M.ModuleChildren(node);
      SubstNode(m, groups, ty, args, rows);
      SubstNode(m, groups, ty, [], []);
      SameRow(M.RowOf(node), rows, [], groups);
      forall k | 0 <= k < |kids| ensures Subst(m, groups, kids[k], args, rows) == Subst(m, groups, kids[k], [], []) {
        UnitSubst(m, groups, kids[k], args, rows);
      }
      assert Subst(m, groups, ty, args, rows).kids == Subst(m, groups, ty, [], []).kids;
    }
  }

  ghost function Copies<T>(n: nat, x: T): (s: seq<T>)
    ensures |s| == n && forall i :: 0 <= i < n ==> s[i] == x
  {
    seq(n, _ => x)
  }

  /** The tree changes when `n` arguments `x` and at least `n` rows arrive. */
  ghost predicate Changes(m: M.Module, groups: seq<seq<bool>>, ty: nat, x: Tree, n: nat, slot: nat)
    requires M.Ordered(m)
  {
    forall r: nat :: r >= n ==>
      Subst(m, groups, ty, Copies(n, x), Copies(r, [slot])) != Subst(m, groups, ty, [], [])
  }

  /** A type that is not ground means something else once arguments arrive,
      unless they are all `Unit` and it reaches no row variable. */
  lemma {:induction false} NotGround(m: M.Module, groups: seq<seq<bool>>, ty: nat, x: Tree) returns (n: nat, slot: nat)
    requires M.Ordered(m) && !(if x == UNIT_TREE then M.RowGround(m, ty) else M.Ground(m, ty))
    ensures Changes(m, groups, ty, x, n, slot)
    decreases ty
  {
    hide Build, ClosedRow, M.NoRowVars;
    var node := M.NodeAt(m, ty);
    var kids := M.ModuleChildren(node);
    if !M.NoRowVars(M.RowOf(node)) {
      n, slot := RowChanges(m, groups, ty, x);
    } else if node.Var? {
      n, slot := node.index + 1, 0;
    } else {
      var k :| 0 <= k < |kids| && !(if x == UNIT_TREE then M.RowGround(m, kids[k]) else M.Ground(m, kids[k]));
      n, slot := NotGround(m, groups, kids[k], x);
      KidChanges(m, groups, ty, k, x, n, slot);
    }
  }

  lemma KidChanges(m: M.Module, groups: seq<seq<bool>>, ty: nat, k: nat, x: Tree, n: nat, slot: nat)
    requires M.Ordered(m) && !M.NodeAt(m, ty).Var? && k < |M.ModuleChildren(M.NodeAt(m, ty))|
    requires Changes(m, groups, M.ModuleChildren(M.NodeAt(m, ty))[k], x, n, slot)
    ensures Changes(m, groups, ty, x, n, slot)
  {
    hide Subst, Build, ClosedRow;
    SubstNode(m, groups, ty, [], []);
    forall r: nat | r >= n
      ensures Subst(m, groups, ty, Copies(n, x), Copies(r, [slot])) != Subst(m, groups, ty, [], [])
    {
      SubstNode(m, groups, ty, Copies(n, x), Copies(r, [slot]));
      var kid := M.ModuleChildren(M.NodeAt(m, ty))[k];
      assert Subst(m, groups, kid, Copies(n, x), Copies(r, [slot])) != Subst(m, groups, kid, [], []);
    }
  }

  /** A slot above every slot of a row. */
  ghost function Above(row: Row): (s: nat)
    ensures s !in row
    ensures forall x :: x in row ==> x < s
  {
    if row == [] then 0
    else
      var last := |row| - 1;
      var before := Above(row[..last]);
      assert row == row[..last] + [row[last]];
      Max(before, row[last] + 1)
  }

  lemma RowChanges(m: M.Module, groups: seq<seq<bool>>, ty: nat, x: Tree) returns (n: nat, slot: nat)
    requires M.Ordered(m) && !M.NoRowVars(M.RowOf(M.NodeAt(m, ty)))
    ensures Changes(m, groups, ty, x, n, slot)
  {
    hide Subst, Build, ClosedRow;
    var node := M.NodeAt(m, ty);
    var row := M.RowOf(node);
    var k :| 0 <= k < |row| && row[k].RowVar?;
    n, slot := row[k].index + 1, Above(ClosedRow(row, [], groups));
    SubstNode(m, groups, ty, [], []);
    forall r: nat | r >= n
      ensures Subst(m, groups, ty, Copies(n, x), Copies(r, [slot])) != Subst(m, groups, ty, [], [])
    {
      SubstNode(m, groups, ty, Copies(n, x), Copies(r, [slot]));
      RowHolds(row, k, Copies(r, [slot]), groups, slot);
      RowShows(node, ClosedRow(row, Copies(r, [slot]), groups), ClosedRow(row, [], groups));
    }
  }

  lemma RowHolds(row: seq<RowElem>, k: nat, rows: seq<Row>, groups: seq<seq<bool>>, slot: nat)
    requires k < |row| && Stands(row[k], rows, groups, slot)
    ensures slot in ClosedRow(row, rows, groups)
  {
    hide ClosedRow, Stands;
    ClosedRowExact(row, rows, groups);
    assert Covers(row, rows, groups, slot);
  }

  /** The row of a function type is part of its shape. */
  lemma RowShows(node: M.ModuleType, a: Row, b: Row)
    requires (node.Fn? || node.Callback?) && a != b
    ensures Shape(Build(node, x => x, a)) != Shape(Build(node, x => x, b))
  {
  }
}
