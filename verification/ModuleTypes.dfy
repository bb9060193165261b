/** The type table of a module: types may name type parameters. */
module ModuleTypes {
  import opened Common
  import opened EffectRows

  /** One module type; children are earlier entries of the module table. */
  datatype ModuleType =
    | Unit | Never | Bool | Int | Float | Str | Fault | Request | PolicyTable | Vm | Digest | VmSnapshot
    | Bytes | FileHandle | ResourceHandle | HostResource
    | Class(cls: nat)
    | Inst(cls: nat, args: seq<nat>)
    | List(elem: nat)
    | Map(key: nat, value: nat)
    | Tuple(elems: seq<nat>)
    | Fn(params: seq<nat>, muts: seq<bool>, ret: nat, row: seq<RowElem>)
    | Callback(params: seq<nat>, muts: seq<bool>, ret: nat, row: seq<RowElem>)
    | Var(index: nat)
    | Run(result: nat)
    | Wait(result: nat)
    | PendingCall(arg: nat, reply: nat)
    | Handle(message: nat, terminal: nat)
    | Op(slot: nat, callable: nat)
    | RunSnapshot(result: nat)

  /** The generic arguments of a call site. */
  datatype TypeApp = TypeApp(types: seq<nat>, rows: seq<seq<RowElem>>)

  datatype Module = Module(types: seq<ModuleType>, apps: seq<TypeApp>)

  /** The child types of a module type, in declaration order. */
  function ModuleChildren(node: ModuleType): seq<nat> {
    match node
    case Inst(_, args) => args
    case Tuple(elems) => elems
    case List(e) => [e]
    case Run(e) => [e]
    case Wait(e) => [e]
    case RunSnapshot(e) => [e]
    case Op(_, e) => [e]
    case Map(a, b) => [a, b]
    case PendingCall(a, b) => [a, b]
    case Handle(a, b) => [a, b]
    case Fn(params, _, ret, _) => params + [ret]
    case Callback(params, _, ret, _) => params + [ret]
    case _ => []
  }

  /** The node of a type index; an index out of range reads as `Unit`. */
  function NodeAt(m: Module, ty: nat): ModuleType {
    if ty < |m.types| then m.types[ty] else Unit
  }

  function RowOf(node: ModuleType): seq<RowElem> {
    match node
    case Fn(_, _, _, row) => row
    case Callback(_, _, _, row) => row
    case _ => []
  }

  /** Every type names earlier types only. */
  ghost predicate Ordered(m: Module) {
    forall i :: 0 <= i < |m.types| ==> AllBelow(ModuleChildren(m.types[i]), i)
  }

  /** The steps of a walk that opens a type: enter, leave, and its children. */
  ghost function Weight(m: Module, ty: nat): (w: nat)
    requires Ordered(m)
    ensures w >= 2
    decreases ty, 1, 0
  {
    if ty < |m.types| then 2 + WeightAll(m, ModuleChildren(m.types[ty]), ty) else 2
  }

  ghost function WeightAll(m: Module, ids: seq<nat>, bound: nat): nat
    requires Ordered(m) && AllBelow(ids, bound)
    decreases bound, 0, |ids|
  {
    if ids == [] then 0
    else
      var last := |ids| - 1;
      WeightAll(m, ids[..last], bound) + Weight(m, ids[last])
  }

  predicate NoRowVars(row: seq<RowElem>) {
    forall k :: 0 <= k < |row| ==> !row[k].RowVar?
  }

  /** The type reaches no type variable and no row variable. */
  predicate Ground(m: Module, ty: nat)
    requires Ordered(m)
    decreases ty
  {
    var node := NodeAt(m, ty);
    && !node.Var? && NoRowVars(RowOf(node))
    && forall k :: 0 <= k < |ModuleChildren(node)| ==> Ground(m, ModuleChildren(node)[k])
  }

  /** The type reaches no row variable. */
  predicate RowGround(m: Module, ty: nat)
    requires Ordered(m)
    decreases ty
  {
    var node := NodeAt(m, ty);
    && NoRowVars(RowOf(node))
    && forall k :: 0 <= k < |ModuleChildren(node)| ==> RowGround(m, ModuleChildren(node)[k])
  }

  /** `sub` is the type itself or below it. */
  ghost predicate SubType(m: Module, ty: nat, sub: nat)
    requires Ordered(m)
    decreases ty
  {
    sub == ty
    || exists k :: 0 <= k < |ModuleChildren(NodeAt(m, ty))| && SubType(m, ModuleChildren(NodeAt(m, ty))[k], sub)
  }

  lemma {:induction false} SubTypeTransitive(m: Module, ty: nat, sub: nat, part: nat)
    requires Ordered(m) && SubType(m, ty, sub) && SubType(m, sub, part)
    ensures SubType(m, ty, part)
    decreases ty
  {
    if sub != ty {
      var kids := ModuleChildren(NodeAt(m, ty));
      var k :| 0 <= k < |kids| && SubType(m, kids[k], sub);
      SubTypeTransitive(m, kids[k], sub, part);
    }
  }

  lemma {:induction false} SubTypeChild(m: Module, ty: nat, sub: nat, child: nat)
    requires Ordered(m) && SubType(m, ty, sub) && child in ModuleChildren(NodeAt(m, sub))
    ensures SubType(m, ty, child)
    decreases ty
  {
    var kids := ModuleChildren(NodeAt(m, ty));
    if sub == ty {
      var k :| 0 <= k < |kids| && kids[k] == child;
      assert SubType(m, kids[k], child);
    } else {
      var k :| 0 <= k < |kids| && SubType(m, kids[k], sub);
      SubTypeChild(m, kids[k], sub, child);
    }
  }

  lemma {:induction false} GroundBelow(m: Module, ty: nat, sub: nat)
    requires Ordered(m) && Ground(m, ty) && SubType(m, ty, sub)
    ensures Ground(m, sub)
    decreases ty
  {
    var kids := ModuleChildren(NodeAt(m, ty));
    if sub != ty {
      var k :| 0 <= k < |kids| && SubType(m, kids[k], sub);
      GroundBelow(m, kids[k], sub);
    }
  }
}
