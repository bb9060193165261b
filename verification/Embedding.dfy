/** Closing what is already closed: every closed type, read as a module type
    without variables, closes to itself. */
module Embedding {
  import opened Common
  import opened ClosedTypes
  import opened EffectRows
  import opened Substitution
  import M = ModuleTypes

  function OpSlots(row: Row): (elems: seq<RowElem>)
    ensures |elems| == |row| && forall i :: 0 <= i < |row| ==> elems[i] == OpSlot(row[i])
  {
    seq(|row|, i requires 0 <= i < |row| => OpSlot(row[i]))
  }

  /** The module type that spells out a closed type. */
  function Embed(node: ClosedType): M.ModuleType {
    match node
    case Unit => M.Unit
    case Bool => M.Bool
    case Int => M.Int
    case Float => M.Float
    case Str => M.Str
    case Fault => M.Fault
    case Request => M.Request
    case PolicyTable => M.PolicyTable
    case Vm => M.Vm
    case Digest => M.Digest
    case VmSnapshot => M.VmSnapshot
    case Bytes => M.Bytes
    case FileHandle => M.FileHandle
    case ResourceHandle => M.ResourceHandle
    case HostResource => M.HostResource
    case Class(c) => M.Class(c)
    case Inst(c, args) => M.Inst(c, args)
    case List(e) => M.List(e)
    case Map(k, v) => M.Map(k, v)
    case Tuple(elems) => M.Tuple(elems)
    case Fn(params, muts, ret, row) => M.Fn(params, muts, ret, OpSlots(row))
    case Callback(params, muts, ret, row) => M.Callback(params, muts, ret, OpSlots(row))
    case Run(t) => M.Run(t)
    case Wait(t) => M.Wait(t)
    case PendingCall(a, r) => M.PendingCall(a, r)
    case Handle(a, r) => M.Handle(a, r)
    case Op(op, f) => M.Op(op, f)
    case RunSnapshot(t) => M.RunSnapshot(t)
  }

  /** A closed type table as the type table of a module. */
  function EmbedAll(types: seq<ClosedType>): (m: M.Module)
    ensures |m.types| == |types| && forall i :: 0 <= i < |types| ==> m.types[i] == Embed(types[i])
  {
    M.Module(seq(|types|, i requires 0 <= i < |types| => Embed(types[i])), [])
  }

  /** The effect row of a closed type; only function types have one. */
  function RowIn(node: ClosedType): Row {
    if node.Fn? || node.Callback? then node.row else []
  }

  ghost predicate StrictRows(types: seq<ClosedType>) {
    forall i :: 0 <= i < |types| ==> Strict(RowIn(types[i]))
  }

  lemma EmbedChildren(node: ClosedType)
    ensures M.ModuleChildren(Embed(node)) == Children(node) && M.RowOf(Embed(node)) == OpSlots(RowIn(node))
    ensures !Embed(node).Var?
  {
  }

  lemma EmbedOrdered(types: seq<ClosedType>)
    requires BottomUp(types)
    ensures M.Ordered(EmbedAll(types))
  {
    hide Embed, Children, M.ModuleChildren;
    forall i | 0 <= i < |types| ensures AllBelow(M.ModuleChildren(EmbedAll(types).types[i]), i) {
      EmbedChildren(types[i]);
      assert Below(types[i], i);
    }
  }

  /** A strict row of operations closes to itself. */
  lemma OpSlotsClose(row: Row, rows: seq<Row>, groups: seq<seq<bool>>)
    requires Strict(row)
    ensures ClosedRow(OpSlots(row), rows, groups) == row
  {
    hide Strict, ClosedRow;
    ClosedRowExact(OpSlots(row), rows, groups);
    forall x ensures x in ClosedRow(OpSlots(row), rows, groups) <==> x in row {
      if x in row {
        var k :| 0 <= k < |row| && row[k] == x;
        assert Stands(OpSlots(row)[k], rows, groups, x);
      }
      if Covers(OpSlots(row), rows, groups, x) {
        var k :| 0 <= k < |row| && Stands(OpSlots(row)[k], rows, groups, x);
        assert row[k] == x;
      }
    }
    StrictUnique(ClosedRow(OpSlots(row), rows, groups), row);
  }

  /** Building the embedded node with its own children gives the node back. */
  lemma EmbedBuilds(node: ClosedType)
    ensures Build(Embed(node), x => x, RowIn(node)) == node
  {
    if node.Inst? || node.Tuple? {
      EmbedList(node);
    } else if node.Fn? || node.Callback? {
      EmbedFunction(node);
    } else {
      hide Each, OpSlots;
    }
  }

  lemma EmbedList(node: ClosedType)
    requires node.Inst? || node.Tuple?
    ensures Build(Embed(node), x => x, RowIn(node)) == node
  {
    hide OpSlots;
    EachSame(if node.Inst? then node.args else node.elems);
  }

  lemma EmbedFunction(node: ClosedType)
    requires node.Fn? || node.Callback?
    ensures Build(Embed(node), x => x, RowIn(node)) == node
  {
    hide OpSlots;
    EachSame(node.params);
  }

  /** Closing an already closed type gives the type, whatever the arguments. */
  lemma {:induction false} ClosingClosed(types: seq<ClosedType>, groups: seq<seq<bool>>, id: nat, args: seq<Tree>,
                                         rows: seq<Row>)
    requires BottomUp(types) && StrictRows(types) && id < |types|
    ensures M.Ordered(EmbedAll(types)) && Subst(EmbedAll(types), groups, id, args, rows) == Unfold(types, id)
    decreases id
  {
    hide Subst, Build, ClosedRow, Embed, Strict, M.ModuleChildren, M.RowOf, Shape, Children, RowIn;
    EmbedOrdered(types);
    var m, node := EmbedAll(types), types[id];
    EmbedChildren(node);
    EmbedBuilds(node);
    OpSlotsClose(RowIn(node), rows, groups);
    SubstNode(m, groups, id, args, rows);
    forall k | 0 <= k < |Children(node)|
      ensures Subst(m, groups, Children(node)[k], args, rows) == Unfold(types, Children(node)[k])
    {
      assert Below(node, id);
      ClosingClosed(types, groups, Children(node)[k], args, rows);
    }
    assert Subst(m, groups, id, args, rows).kids == Unfold(types, id).kids;
  }

  /** What has no closed form of its own: a bound variable is its argument; an
      unbound one, `Never` and an unknown type are `Unit`. */
  lemma ClosingOpen(m: M.Module, groups: seq<seq<bool>>, ty: nat, args: seq<Tree>, rows: seq<Row>)
    requires M.Ordered(m)
    ensures ty < |m.types| && m.types[ty].Var? && m.types[ty].index < |args| ==>
              Subst(m, groups, ty, args, rows) == args[m.types[ty].index]
    ensures ty < |m.types| && m.types[ty].Var? && m.types[ty].index >= |args| ==>
              Subst(m, groups, ty, args, rows) == Tree(Unit, [])
    ensures ty < |m.types| && m.types[ty].Never? ==> Subst(m, groups, ty, args, rows) == Tree(Unit, [])
    ensures ty >= |m.types| ==> Subst(m, groups, ty, args, rows) == Tree(Unit, [])
  {
    hide ClosedRow;
  }
}
