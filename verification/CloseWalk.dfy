/** The work stack of closing a type: what it keeps and why it ends. */
module CloseWalk {
  import opened Common
  import M = ModuleTypes

  ghost predicate Above(stack: seq<Frame>, p: nat, ty: nat) {
    exists q :: p <= q < |stack| && stack[q].item == ty
  }

  ghost predicate Ready(stack: seq<Frame>, p: nat, memo: Memo, env: nat, ty: nat) {
    (ty, env) in memo || Above(stack, p + 1, ty)
  }

  /** Every child of an expanded frame is closed or waits above it. */
  ghost predicate StackOk(m: M.Module, stack: seq<Frame>, memo: Memo, env: nat) {
    forall p, c :: 0 <= p < |stack| && stack[p].expanded && c in Kids(m, stack[p].item) ==>
      Ready(stack, p, memo, env, c)
  }

  function Kids(m: M.Module, ty: nat): seq<nat> {
    M.ModuleChildren(M.NodeAt(m, ty))
  }

  /** The wanted type is closed or still on the stack. */
  ghost predicate Wanted(stack: seq<Frame>, memo: Memo, env: nat, ty: nat) {
    (ty, env) in memo || Above(stack, 0, ty)
  }

  /** The frame on top is done: closed now, or closed before. */
  lemma PopTop(m: M.Module, stack: seq<Frame>, memo: Memo, memo': Memo, env: nat, ty: nat)
    requires stack != [] && StackOk(m, stack, memo, env) && Wanted(stack, memo, env, ty)
    requires memo.Keys <= memo'.Keys && (stack[|stack| - 1].item, env) in memo'
    ensures StackOk(m, stack[..|stack| - 1], memo', env) && Wanted(stack[..|stack| - 1], memo', env, ty)
  {
    hide Kids;
    var last := |stack| - 1;
    var rest := stack[..last];
    forall p, c | 0 <= p < last && rest[p].expanded && c in Kids(m, rest[p].item)
      ensures Ready(rest, p, memo', env, c)
    {
      assert Ready(stack, p, memo, env, c);
      PopAbove(stack, p + 1, c);
    }
    PopAbove(stack, 0, ty);
  }

  lemma PopAbove(stack: seq<Frame>, p: nat, c: nat)
    requires stack != []
    ensures Above(stack, p, c) ==> stack[|stack| - 1].item == c || Above(stack[..|stack| - 1], p, c)
  {
    var rest := stack[..|stack| - 1];
    if Above(stack, p, c) {
      var q :| p <= q < |stack| && stack[q].item == c;
      if q < |rest| { assert rest[q].item == c; }
    }
  }

  /** The frame on top is opened: its children go above it. */
  lemma OpenTop(m: M.Module, stack: seq<Frame>, memo: Memo, env: nat, ty: nat)
    requires stack != [] && StackOk(m, stack, memo, env) && Wanted(stack, memo, env, ty)
    ensures var last := |stack| - 1; var cur := stack[last].item;
      var next := stack[..last] + [Frame(cur, true)] + Opened(Kids(m, cur));
      StackOk(m, next, memo, env) && Wanted(next, memo, env, ty)
  {
    hide Kids;
    var last := |stack| - 1;
    var cur := stack[last].item;
    var kids := Kids(m, cur);
    var next := stack[..last] + [Frame(cur, true)] + Opened(kids);
    forall p, c | 0 <= p < |next| && next[p].expanded && c in Kids(m, next[p].item)
      ensures Ready(next, p, memo, env, c)
    {
      if p < last {
        assert next[p] == stack[p] && Ready(stack, p, memo, env, c);
        KeepAbove(stack, next, p + 1, c);
      } else {
        assert p == last;
        var k :| 0 <= k < |kids| && kids[k] == c;
        assert next[last + 1 + k].item == c;
      }
    }
    KeepAbove(stack, next, 0, ty);
  }

  lemma KeepAbove(stack: seq<Frame>, next: seq<Frame>, p: nat, c: nat)
    requires |stack| <= |next| && forall q :: 0 <= q < |stack| ==> next[q].item == stack[q].item
    ensures Above(stack, p, c) ==> Above(next, p, c)
  {
    if Above(stack, p, c) {
      var q :| p <= q < |stack| && stack[q].item == c;
      assert next[q].item == c;
    }
  }

  /** When an expanded frame comes back to the top, its children are closed. */
  lemma KidsClosed(m: M.Module, stack: seq<Frame>, memo: Memo, env: nat, c: nat)
    requires stack != [] && StackOk(m, stack, memo, env)
    requires stack[|stack| - 1].expanded && c in Kids(m, stack[|stack| - 1].item)
    ensures (c, env) in memo
  {
    hide Kids;
    assert Ready(stack, |stack| - 1, memo, env, c);
  }

  // ------------------------------------------------------------ termination

  ghost function FrameWeight(m: M.Module, f: Frame): (w: nat)
    requires M.Ordered(m)
    ensures w >= 1
  {
    if f.expanded then 1 else M.Weight(m, f.item)
  }

  ghost function StackWeight(m: M.Module, stack: seq<Frame>): nat
    requires M.Ordered(m)
  {
    if stack == [] then 0
    else
      var last := |stack| - 1;
      StackWeight(m, stack[..last]) + FrameWeight(m, stack[last])
  }

  lemma PushWeight(m: M.Module, stack: seq<Frame>, f: Frame)
    requires M.Ordered(m)
    ensures StackWeight(m, stack + [f]) == StackWeight(m, stack) + FrameWeight(m, f)
  {
    hide FrameWeight;
    assert (stack + [f])[..|stack|] == stack;
  }

  lemma {:induction false} OpenedWeight(m: M.Module, stack: seq<Frame>, tys: seq<nat>, bound: nat)
    requires M.Ordered(m) && AllBelow(tys, bound)
    ensures StackWeight(m, stack + Opened(tys)) == StackWeight(m, stack) + M.WeightAll(m, tys, bound)
    decreases |tys|
  {
    hide StackWeight, M.Weight, M.Ordered;
    if tys == [] {
      assert stack + Opened(tys) == stack;
    } else {
      var last := |tys| - 1;
      var before := stack + Opened(tys[..last]);
      OpenedWeight(m, stack, tys[..last], bound);
      assert stack + Opened(tys) == before + [Frame(tys[last], false)];
      PushWeight(m, before, Frame(tys[last], false));
    }
  }

  /** Opening the frame on top makes the stack lighter. */
  lemma OpenLighter(m: M.Module, stack: seq<Frame>)
    requires M.Ordered(m) && stack != [] && !stack[|stack| - 1].expanded
    ensures var last := |stack| - 1; var cur := stack[last].item;
      StackWeight(m, stack[..last] + [Frame(cur, true)] + Opened(Kids(m, cur))) < StackWeight(m, stack)
  {
    var last := |stack| - 1;
    var cur := stack[last].item;
    PushWeight(m, stack[..last], Frame(cur, true));
    OpenedWeight(m, stack[..last] + [Frame(cur, true)], Kids(m, cur), cur);
  }
}
