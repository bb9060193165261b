/** Small notions that several parts share. */
module Common {

  datatype Option<T> = None | Some(value: T)

  /** A value, or the error that kept it from being computed. */
  datatype Outcome<T, E> = Ok(value: T) | Err(error: E) {
    predicate IsFailure() { Err? }
    function PropagateFailure<U>(): Outcome<U, E>
      requires Err?
    {
      Err(error)
    }
    function Extract(): T
      requires Ok?
    {
      value
    }
  }

  /** Keys of the closing caches: a module type and an environment, or a parent
      environment and an application; a memo gives each an id. */
  type Keys = set<(nat, nat)>
  type Memo = map<(nat, nat), nat>

  /** An item on a work stack, and whether its children were pushed. */
  datatype Frame = Frame(item: nat, expanded: bool)

  function Max(a: nat, b: nat): nat {
    if a < b then b else a
  }

  /** Frames of items not yet expanded. */
  function Opened(items: seq<nat>): (f: seq<Frame>)
    ensures |f| == |items| && forall k :: 0 <= k < |items| ==> f[k] == Frame(items[k], false)
  {
    seq(|items|, k requires 0 <= k < |items| => Frame(items[k], false))
  }

  lemma MultiplyMonotone(a: nat, b: nat, c: nat)
    requires a <= b
    ensures a * c <= b * c
  {
  }

  /** Every index is below `n`. */
  ghost predicate AllBelow(ids: seq<nat>, n: nat) {
    forall k :: 0 <= k < |ids| ==> ids[k] < n
  }

  ghost predicate NoRepeats(s: seq<nat>) {
    forall i, j :: 0 <= i < j < |s| ==> s[i] != s[j]
  }

  /** The numbers below `n`. */
  ghost function Under(n: nat): (s: set<nat>)
    ensures |s| == n && forall i :: i in s <==> 0 <= i < n
  {
    if n == 0 then {} else Under(n - 1) + {n - 1}
  }

  ghost function Elements(s: seq<nat>): set<nat> {
    set x | x in s
  }

  lemma ElementsSnoc(s: seq<nat>, x: nat)
    ensures Elements(s + [x]) == Elements(s) + {x}
  {
  }

  lemma {:induction false} ElementsSize(s: seq<nat>)
    requires NoRepeats(s)
    ensures |Elements(s)| == |s|
  {
    if s != [] {
      var last := |s| - 1;
      ElementsSize(s[..last]);
      assert s == s[..last] + [s[last]];
      ElementsSnoc(s[..last], s[last]);
    }
  }

  lemma {:induction false} SubsetSize<T>(a: set<T>, b: set<T>)
    requires a <= b
    ensures |a| <= |b| && (|a| == |b| ==> a == b)
    decreases a
  {
    if a != {} {
      var x :| x in a;
      SubsetSize(a - {x}, b - {x});
    }
  }

  /** The items of a stack, next one to pop first. */
  ghost function Pending<T>(stack: seq<T>): (p: seq<T>)
    ensures |p| == |stack| && forall i :: 0 <= i < |p| ==> p[i] == stack[|stack| - 1 - i]
  {
    seq(|stack|, i requires 0 <= i < |stack| => stack[|stack| - 1 - i])
  }

  lemma PendingPush<T>(stack: seq<T>, x: T)
    ensures Pending(stack + [x]) == [x] + Pending(stack)
  {
  }
}
