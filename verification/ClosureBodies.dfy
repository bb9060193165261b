/** Closure body digests: an explicit-stack post-order over a closure graph
    that may contain cycles. */
module ClosureBodies {
  import opened Common

  /** Per function: the closures it makes, in instruction order, and whether
      it is itself only ever a closure body. */
  datatype Graph = Graph(targets: seq<seq<nat>>, closureBody: seq<bool>)

  ghost predicate ValidGraph(g: Graph) {
    && |g.closureBody| == |g.targets|
    && forall f, k :: 0 <= f < |g.targets| && 0 <= k < |g.targets[f]| ==> g.targets[f][k] < |g.targets|
  }

  /** How the bytes of a body name one closure body: the cycle marker with a
      list position, or a digest. */
  datatype Ref<D> = Marker(position: nat) | Digest(digest: D)

  const NO_POSITION: nat := 0xFFFF_FFFF

  function Position(closures: seq<nat>, f: nat): nat {
    if closures == [] then NO_POSITION
    else if closures[0] == f then 0
    else
      var rest := Position(closures[1..], f);
      if rest == NO_POSITION then NO_POSITION else rest + 1
  }

  /** A marker is the first position of the closure in the list, or the
      reserved word when it is not there. */
  lemma {:induction false} PositionFirst(closures: seq<nat>, f: nat)
    requires |closures| < NO_POSITION
    ensures f in closures ==> Position(closures, f) < |closures| && closures[Position(closures, f)] == f
    ensures f in closures ==> f !in closures[..Position(closures, f)]
    ensures f !in closures ==> Position(closures, f) == 0xFFFF_FFFF
    decreases |closures|
  {
    if closures != [] {
      PositionFirst(closures[1..], f);
      assert closures == [closures[0]] + closures[1..];
      if f in closures && closures[0] != f {
        var p := Position(closures[1..], f);
        assert closures[..p + 1] == [closures[0]] + closures[1..][..p];
      }
    }
  }

  /** Different closures on the list get different markers. */
  lemma MarkersDiffer(closures: seq<nat>, f: nat, g: nat)
    requires |closures| < NO_POSITION && f in closures && Position(closures, f) == Position(closures, g)
    ensures f == g
  {
    PositionFirst(closures, f);
    PositionFirst(closures, g);
  }

  /** The digest of `t` is at hand: final, done, or replaced by the marker. */
  predicate Known<D>(final: seq<Option<D>>, done: map<nat, D>, path: seq<nat>, t: nat) {
    t in path || t in done || (t < |final| && final[t].Some?)
  }

  /** Everything the body of `f` names is at hand. */
  ghost predicate Resolved<D>(g: Graph, final: seq<Option<D>>, done: map<nat, D>, path: seq<nat>, f: nat)
    requires ValidGraph(g) && f < |g.targets|
  {
    forall k :: 0 <= k < |g.targets[f]| && g.closureBody[g.targets[f][k]] ==> Known(final, done, path, g.targets[f][k])
  }

  /** The reference to one target. `Known` makes the missing-digest case
      impossible. */
  function RefTo<D>(final: seq<Option<D>>, done: map<nat, D>, path: seq<nat>, closures: seq<nat>, t: nat): Ref<D>
    requires Known(final, done, path, t)
  {
    if t in path then Marker(Position(closures, t))
    else if t in done then Digest(done[t])
    else Digest(final[t].value)
  }

  /** The references of a body, in instruction order. */
  function RefList<D>(g: Graph, final: seq<Option<D>>, done: map<nat, D>, path: seq<nat>, closures: seq<nat>,
                      ts: seq<nat>)
      : (refs: seq<Ref<D>>)
    requires forall k :: 0 <= k < |ts| ==> ts[k] < |g.closureBody|
    requires forall k :: 0 <= k < |ts| && g.closureBody[ts[k]] ==> Known(final, done, path, ts[k])
  {
    if ts == [] then []
    else
      var rest := RefList(g, final, done, path, closures, ts[1..]);
      if g.closureBody[ts[0]] then [RefTo(final, done, path, closures, ts[0])] + rest else rest
  }

  /** What a body says of each closure body it makes, in instruction order: the
      first list position of one on the path, the digest of any other. */
  lemma {:induction false} RefsSay<D>(g: Graph, final: seq<Option<D>>, done: map<nat, D>, path: seq<nat>,
                                      closures: seq<nat>, ts: seq<nat>)
    requires |closures| < NO_POSITION && forall k :: 0 <= k < |ts| ==> ts[k] < |g.closureBody|
    requires forall k :: 0 <= k < |ts| && g.closureBody[ts[k]] ==> Known(final, done, path, ts[k])
    ensures var named, refs := Named(g, ts), RefList(g, final, done, path, closures, ts);
      && |refs| == |named|
      && forall i :: 0 <= i < |refs| ==>
           && Known(final, done, path, named[i])
           && match refs[i]
              case Marker(p) =>
                && named[i] in path
                && if p < |closures| then closures[p] == named[i] && named[i] !in closures[..p]
                   else p == 0xFFFF_FFFF && named[i] !in closures
              case Digest(d) =>
                && named[i] !in path
                && if named[i] in done then d == done[named[i]] else final[named[i]] == Some(d)
    decreases |ts|
  {
    if ts != [] {
      RefsSay(g, final, done, path, closures, ts[1..]);
      PositionFirst(closures, ts[0]);
    }
  }

  /** The closure bodies among the targets, in order. */
  ghost function Named(g: Graph, ts: seq<nat>): (named: seq<nat>)
    requires forall k :: 0 <= k < |ts| ==> ts[k] < |g.closureBody|
    ensures forall x :: x in named <==> x in ts && x < |g.closureBody| && g.closureBody[x]
  {
    if ts == [] then []
    else if g.closureBody[ts[0]] then [ts[0]] + Named(g, ts[1..])
    else Named(g, ts[1..])
  }

  // ------------------------------------------------------------- the stack

  /** The active path: the expanded frames, bottom first. */
  ghost function Expanded(stack: seq<Frame>): (s: seq<nat>)
    ensures |s| <= |stack|
  {
    if stack == [] then []
    else
      var init := Expanded(stack[..|stack| - 1]);
      var top := stack[|stack| - 1];
      if top.expanded then init + [top.item] else init
  }

  lemma {:induction false} ExpandedMember(stack: seq<Frame>, x: nat)
    ensures x in Expanded(stack) <==> Frame(x, true) in stack
  {
    if stack != [] {
      var last := |stack| - 1;
      ExpandedMember(stack[..last], x);
      assert stack == stack[..last] + [stack[last]];
    }
  }

  lemma ExpandedSnoc(stack: seq<Frame>, top: Frame)
    ensures Expanded(stack + [top]) == if top.expanded then Expanded(stack) + [top.item] else Expanded(stack)
  {
    assert (stack + [top])[..|stack|] == stack;
  }

  lemma {:induction false} ExpandedPushes(stack: seq<Frame>, more: seq<Frame>)
    requires forall k :: 0 <= k < |more| ==> !more[k].expanded
    ensures Expanded(stack + more) == Expanded(stack)
  {
    if more == [] {
      assert stack + more == stack;
    } else {
      var last := |more| - 1;
      ExpandedPushes(stack, more[..last]);
      assert stack + more == (stack + more[..last]) + [more[last]];
      ExpandedSnoc(stack + more[..last], more[last]);
    }
  }

  /** An unresolved closure body that `f` makes. */
  ghost predicate Needs<D>(g: Graph, final: seq<Option<D>>, f: nat, t: nat)
    requires ValidGraph(g) && |final| == |g.targets|
  {
    f < |g.targets| && t in g.targets[f] && t < |g.targets| && g.closureBody[t] && final[t].None?
  }

  /** A need of an expanded frame at `q` is done, on the path, or above it. */
  ghost predicate Covered<D>(done: map<nat, D>, path: seq<nat>, stack: seq<Frame>, q: nat, t: nat) {
    t in done || t in path || exists r :: q < r < |stack| && stack[r].item == t
  }

  /** No waiting frame repeats a body expanded below it. */
  ghost predicate Unmarked(stack: seq<Frame>) {
    if stack == [] then true
    else
      var rest, top := stack[..|stack| - 1], stack[|stack| - 1];
      Unmarked(rest) && (top.expanded || top.item !in Expanded(rest))
  }

  lemma {:induction false} UnmarkedPushes(stack: seq<Frame>, more: seq<Frame>)
    requires Unmarked(stack) && forall k :: 0 <= k < |more| ==> !more[k].expanded && more[k].item !in Expanded(stack)
    ensures Unmarked(stack + more)
  {
    if more == [] {
      assert stack + more == stack;
    } else {
      var last := |more| - 1;
      UnmarkedPushes(stack, more[..last]);
      ExpandedPushes(stack, more[..last]);
      var longer := stack + more;
      assert longer[..|longer| - 1] == stack + more[..last] && longer[|longer| - 1] == more[last];
    }
  }

  ghost predicate Shape<D>(g: Graph, stack: seq<Frame>, path: seq<nat>, done: map<nat, D>) {
    && path == Expanded(stack) && NoRepeats(path)
    && (forall p :: 0 <= p < |stack| ==> stack[p].item < |g.targets|)
    && Unmarked(stack)
    && (forall x :: x in path ==> x !in done)
  }

  ghost predicate NeedsCovered<D>(g: Graph, final: seq<Option<D>>, stack: seq<Frame>, path: seq<nat>, done: map<nat, D>)
    requires ValidGraph(g) && |final| == |g.targets|
  {
    forall q, t :: 0 <= q < |stack| && stack[q].expanded && Needs(g, final, stack[q].item, t) ==>
      Covered(done, path, stack, q, t)
  }

  ghost predicate Walking<D>(g: Graph, final: seq<Option<D>>, stack: seq<Frame>, path: seq<nat>, done: map<nat, D>)
    requires ValidGraph(g) && |final| == |g.targets|
  {
    Shape(g, stack, path, done) && NeedsCovered(g, final, stack, path, done)
  }

  /** The top expanded frame serialises with everything at hand. */
  lemma TopResolved<D>(g: Graph, final: seq<Option<D>>, stack: seq<Frame>, path: seq<nat>, done: map<nat, D>)
    requires ValidGraph(g) && |final| == |g.targets| && Walking(g, final, stack, path, done)
    requires stack != [] && stack[|stack| - 1].expanded
    ensures Resolved(g, final, done, path, stack[|stack| - 1].item)
  {
    var top := |stack| - 1;
    var f := stack[top].item;
    forall k | 0 <= k < |g.targets[f]| && g.closureBody[g.targets[f][k]]
      ensures Known(final, done, path, g.targets[f][k])
    {
      var t := g.targets[f][k];
      if final[t].None? {
        assert Needs(g, final, f, t);
        assert Covered(done, path, stack, top, t);
      }
    }
  }

  lemma PopDone<D>(g: Graph, final: seq<Option<D>>, stack: seq<Frame>, path: seq<nat>, done: map<nat, D>)
    requires ValidGraph(g) && |final| == |g.targets| && Walking(g, final, stack, path, done)
    requires stack != [] && stack[|stack| - 1].item in done
    ensures Walking(g, final, stack[..|stack| - 1], path, done)
  {
    var last := |stack| - 1;
    ExpandedMember(stack, stack[last].item);
    var rest := stack[..last];
    assert stack == rest + [stack[last]];
    ExpandedSnoc(rest, stack[last]);
    forall q, t | 0 <= q < |rest| && rest[q].expanded && Needs(g, final, rest[q].item, t)
      ensures Covered(done, path, rest, q, t)
    {
      assert Covered(done, path, stack, q, t);
      if t !in done && t !in path {
        var r :| q < r < |stack| && stack[r].item == t;
        assert rest[r].item == t;
      }
    }
  }

  /** Finishing the top body takes it off the path. */
  lemma PopExpanded<D>(g: Graph, final: seq<Option<D>>, stack: seq<Frame>, path: seq<nat>, done: map<nat, D>, d: D)
    requires ValidGraph(g) && |final| == |g.targets| && Walking(g, final, stack, path, done)
    requires stack != [] && stack[|stack| - 1].expanded
    ensures path != [] && path[|path| - 1] == stack[|stack| - 1].item
    ensures Walking(g, final, stack[..|stack| - 1], path[..|path| - 1], done[stack[|stack| - 1].item := d])
  {
    var last := |stack| - 1;
    var rest, f := stack[..last], stack[last].item;
    assert stack == rest + [stack[last]];
    ExpandedSnoc(rest, stack[last]);
    var path', done' := path[..|path| - 1], done[f := d];
    assert path == path' + [f];
    forall q, t | 0 <= q < |rest| && rest[q].expanded && Needs(g, final, rest[q].item, t)
      ensures Covered(done', path', rest, q, t)
    {
      assert Covered(done, path, stack, q, t);
      if t !in done' && t !in path' {
        var r :| q < r < |stack| && stack[r].item == t;
        assert rest[r].item == t;
      }
    }
  }

  /** What expanding `f` pushes: its targets that are neither final, done
      nor on the path, repeats kept. */
  ghost predicate Pushed<D>(g: Graph, final: seq<Option<D>>, done: map<nat, D>, path: seq<nat>, ts: seq<nat>,
                            more: seq<Frame>)
    requires ValidGraph(g) && |final| == |g.targets|
    requires forall k :: 0 <= k < |ts| ==> ts[k] < |g.targets|
  {
    && (forall k :: 0 <= k < |more| ==>
          !more[k].expanded && more[k].item in ts && more[k].item !in path && more[k].item !in done)
    && (forall k :: 0 <= k < |more| ==>
          more[k].item < |g.targets| && g.closureBody[more[k].item] && final[more[k].item].None?)
    && (forall t :: t in ts && g.closureBody[t] && final[t].None? && t !in path && t !in done ==>
          Frame(t, false) in more)
  }

  lemma ExpandTop<D>(g: Graph, final: seq<Option<D>>, stack: seq<Frame>, path: seq<nat>, done: map<nat, D>,
                     more: seq<Frame>)
    requires ValidGraph(g) && |final| == |g.targets| && Walking(g, final, stack, path, done)
    requires stack != [] && !stack[|stack| - 1].expanded && stack[|stack| - 1].item !in done
    requires Pushed(g, final, done, path + [stack[|stack| - 1].item], g.targets[stack[|stack| - 1].item], more)
    ensures stack[|stack| - 1].item !in path
    ensures var f := stack[|stack| - 1].item;
            Walking(g, final, stack[..|stack| - 1] + [Frame(f, true)] + more, path + [f], done)
  {
    var last := |stack| - 1;
    var rest, f := stack[..last], stack[last].item;
    assert stack == rest + [stack[last]];
    ExpandedSnoc(rest, stack[last]);
    ExpandShape(g, rest, path, done, f, more);
    ExpandCovers(g, final, stack, path, done, more);
  }

  lemma ExpandShape<D>(g: Graph, rest: seq<Frame>, path: seq<nat>, done: map<nat, D>, f: nat, more: seq<Frame>)
    requires path == Expanded(rest) && NoRepeats(path) && f !in path && f !in done && f < |g.targets|
    requires forall p :: 0 <= p < |rest| ==> rest[p].item < |g.targets|
    requires Unmarked(rest) && forall x :: x in path ==> x !in done
    requires forall k :: 0 <= k < |more| ==>
              !more[k].expanded && more[k].item !in path + [f] && more[k].item < |g.targets|
    ensures Shape(g, rest + [Frame(f, true)] + more, path + [f], done)
  {
    hide Expanded, Unmarked, NoRepeats;
    RepeatsSnoc(path, f);
    ExpandUnmarked(rest, f, more);
  }

  lemma RepeatsSnoc(path: seq<nat>, f: nat)
    requires NoRepeats(path) && f !in path
    ensures NoRepeats(path + [f])
  {
  }

  lemma ExpandUnmarked(rest: seq<Frame>, f: nat, more: seq<Frame>)
    requires Unmarked(rest)
    requires forall k :: 0 <= k < |more| ==> !more[k].expanded && more[k].item !in Expanded(rest) + [f]
    ensures Unmarked(rest + [Frame(f, true)] + more)
    ensures Expanded(rest + [Frame(f, true)] + more) == Expanded(rest) + [f]
  {
    var mid := rest + [Frame(f, true)];
    ExpandedSnoc(rest, Frame(f, true));
    assert mid[..|mid| - 1] == rest;
    ExpandedPushes(mid, more);
    UnmarkedPushes(mid, more);
  }

  lemma ExpandCovers<D>(g: Graph, final: seq<Option<D>>, stack: seq<Frame>, path: seq<nat>, done: map<nat, D>,
                        more: seq<Frame>)
    requires ValidGraph(g) && |final| == |g.targets| && NeedsCovered(g, final, stack, path, done)
    requires stack != [] && !stack[|stack| - 1].expanded && stack[|stack| - 1].item < |g.targets|
    requires Pushed(g, final, done, path + [stack[|stack| - 1].item], g.targets[stack[|stack| - 1].item], more)
    ensures var f := stack[|stack| - 1].item;
            NeedsCovered(g, final, stack[..|stack| - 1] + [Frame(f, true)] + more, path + [f], done)
  {
    var last := |stack| - 1;
    var f := stack[last].item;
    var path' := path + [f];
    var stack' := stack[..last] + [Frame(f, true)] + more;
    forall q, t | 0 <= q < |stack'| && stack'[q].expanded && Needs(g, final, stack'[q].item, t)
      ensures Covered(done, path', stack', q, t)
    {
      if q < last {
        assert Covered(done, path, stack, q, t);
        if t !in done && t !in path' {
          var r :| q < r < |stack| && stack[r].item == t;
          assert stack'[r].item == t;
        }
      } else if q == last {
        if t !in done && t !in path' {
          assert Frame(t, false) in more;
          var k :| 0 <= k < |more| && more[k] == Frame(t, false);
          assert stack'[last + 1 + k].item == t;
        }
      }
    }
  }

  // -------------------------------------------------- agreement with recursion

  /** `rank` falls along every unresolved need: the graph has no cycle. */
  ghost predicate Ranked<D(!new)>(g: Graph, final: seq<Option<D>>, rank: nat -> nat)
    requires ValidGraph(g) && |final| == |g.targets|
  {
    forall f, t :: Needs(g, final, f, t) ==> rank(t) < rank(f)
  }

  /** The recursive digest: no stack, no marker. */
  ghost function BodyDigest<D(!new)>(g: Graph, final: seq<Option<D>>, hash: (nat, seq<Ref<D>>) -> D, rank: nat -> nat,
                              f: nat): D
    requires ValidGraph(g) && |final| == |g.targets| && Ranked(g, final, rank) && f < |g.targets|
    decreases rank(f), 1, 0
  {
    hash(f, BodyRefs(g, final, hash, rank, f, 0))
  }

  ghost function BodyRefs<D(!new)>(g: Graph, final: seq<Option<D>>, hash: (nat, seq<Ref<D>>) -> D, rank: nat -> nat,
                            f: nat, k: nat)
      : seq<Ref<D>>
    requires ValidGraph(g) && |final| == |g.targets| && Ranked(g, final, rank) && f < |g.targets| && k <= |g.targets[f]|
    decreases rank(f), 0, |g.targets[f]| - k
  {
    if k == |g.targets[f]| then []
    else
      var t := g.targets[f][k];
      var rest := BodyRefs(g, final, hash, rank, f, k + 1);
      if !g.closureBody[t] then rest
      else if final[t].Some? then [Digest(final[t].value)] + rest
      else
        assert Needs(g, final, f, t);
        [Digest(BodyDigest(g, final, hash, rank, t))] + rest
  }

  /** Done digests are the recursive ones, and no final body is redone. */
  ghost predicate Agrees<D(!new)>(g: Graph, final: seq<Option<D>>, hash: (nat, seq<Ref<D>>) -> D, rank: nat -> nat,
                           done: map<nat, D>)
    requires ValidGraph(g) && |final| == |g.targets| && Ranked(g, final, rank)
  {
    forall f :: f in done ==> f < |g.targets| && final[f].None? && done[f] == BodyDigest(g, final, hash, rank, f)
  }

  /** Frames hold unresolved bodies, and each lower path member outranks. */
  ghost predicate Descending<D>(g: Graph, final: seq<Option<D>>, rank: nat -> nat, stack: seq<Frame>)
    requires ValidGraph(g) && |final| == |g.targets|
  {
    && (forall p :: 0 <= p < |stack| ==> stack[p].item < |g.targets| && final[stack[p].item].None?)
    && (forall p, q :: 0 <= q < p < |stack| && stack[q].expanded ==> rank(stack[p].item) < rank(stack[q].item))
  }

  lemma {:induction false} RefsAgree<D(!new)>(g: Graph, final: seq<Option<D>>, hash: (nat, seq<Ref<D>>) -> D,
                                       rank: nat -> nat,
                                      done: map<nat, D>, path: seq<nat>, closures: seq<nat>, f: nat, k: nat)
    requires ValidGraph(g) && |final| == |g.targets| && Ranked(g, final, rank) && f < |g.targets| && k <= |g.targets[f]|
    requires Agrees(g, final, hash, rank, done) && Resolved(g, final, done, path, f)
    requires forall x :: x in path ==> rank(x) >= rank(f) && x < |g.targets| && final[x].None?
    ensures forall l :: 0 <= l < |g.targets[f][k..]| && g.closureBody[g.targets[f][k..][l]] ==>
              Known(final, done, path, g.targets[f][k..][l])
    ensures RefList(g, final, done, path, closures, g.targets[f][k..]) == BodyRefs(g, final, hash, rank, f, k)
    decreases |g.targets[f]| - k
  {
    var ts := g.targets[f][k..];
    forall l | 0 <= l < |ts| && g.closureBody[ts[l]] ensures Known(final, done, path, ts[l]) {
      assert ts[l] == g.targets[f][k + l];
    }
    if k < |g.targets[f]| {
      RefsAgree(g, final, hash, rank, done, path, closures, f, k + 1);
      var t := g.targets[f][k];
      assert ts[0] == t && ts[1..] == g.targets[f][k + 1..];
      if g.closureBody[t] {
        if final[t].None? { assert Needs(g, final, f, t); }
      }
    }
  }

  lemma DescendingExpand<D(!new)>(g: Graph, final: seq<Option<D>>, rank: nat -> nat, stack: seq<Frame>, path: seq<nat>,
                                  done: map<nat, D>, more: seq<Frame>)
    requires ValidGraph(g) && |final| == |g.targets| && Ranked(g, final, rank) && Descending(g, final, rank, stack)
    requires stack != [] && !stack[|stack| - 1].expanded
    requires Pushed(g, final, done, path, g.targets[stack[|stack| - 1].item], more)
    ensures Descending(g, final, rank, stack[..|stack| - 1] + [Frame(stack[|stack| - 1].item, true)] + more)
  {
    var last := |stack| - 1;
    var f := stack[last].item;
    var stack' := stack[..last] + [Frame(f, true)] + more;
    forall k | 0 <= k < |more| ensures rank(more[k].item) < rank(f) { assert Needs(g, final, f, more[k].item); }
    forall p, q | 0 <= q < p < |stack'| && stack'[q].expanded ensures rank(stack'[p].item) < rank(stack'[q].item) {
      if p > last {
        assert stack'[p] == more[p - last - 1];
        if q < last { assert rank(stack[last].item) < rank(stack[q].item); }
      }
    }
  }

  /** Under a rank the top body meets no marker, so its digest is the
      recursive one. */
  lemma SerialiseAgrees<D(!new)>(g: Graph, final: seq<Option<D>>, hash: (nat, seq<Ref<D>>) -> D, rank: nat -> nat,
                                 stack: seq<Frame>, path: seq<nat>, done: map<nat, D>, closures: seq<nat>)
    requires ValidGraph(g) && |final| == |g.targets| && Ranked(g, final, rank) && Descending(g, final, rank, stack)
    requires Walking(g, final, stack, path, done) && Agrees(g, final, hash, rank, done)
    requires stack != [] && stack[|stack| - 1].expanded
    ensures var f := stack[|stack| - 1].item;
            Resolved(g, final, done, path, f) &&
            hash(f, RefList(g, final, done, path, closures, g.targets[f])) == BodyDigest(g, final, hash, rank, f)
  {
    TopResolved(g, final, stack, path, done);
    var top := |stack| - 1;
    var f := stack[top].item;
    forall x | x in path ensures rank(x) >= rank(f) && x < |g.targets| && final[x].None? {
      ExpandedMember(stack, x);
      var q :| 0 <= q < |stack| && stack[q] == Frame(x, true);
    }
    RefsAgree(g, final, hash, rank, done, path, closures, f, 0);
    assert g.targets[f][0..] == g.targets[f];
  }

  /** The recursion-agreement part of the loop state, when it applies. */
  ghost predicate Ideal<D(!new)>(g: Graph, final: seq<Option<D>>, hash: (nat, seq<Ref<D>>) -> D, rank: nat -> nat,
                                 stack: seq<Frame>, done: map<nat, D>)
    requires ValidGraph(g) && |final| == |g.targets|
  {
    Ranked(g, final, rank) && Descending(g, final, rank, stack) && Agrees(g, final, hash, rank, done)
  }

  // ------------------------------------------------- recursion with a path

  /** The bodies neither done nor on the path. */
  ghost function Fresh<D>(g: Graph, done: map<nat, D>, path: seq<nat>): set<nat> {
    set x | x in Under(|g.targets|) && x !in done && x !in path
  }

  /** The targets that expanding a body pushes: closure bodies that are neither
      final, done nor on the path, repeats kept. */
  ghost function Unresolved<D>(g: Graph, final: seq<Option<D>>, done: map<nat, D>, path: seq<nat>,
                               ts: seq<nat>): (ws: seq<nat>)
    requires ValidGraph(g) && |final| == |g.targets| && AllBelow(ts, |g.targets|)
    ensures AllBelow(ws, |g.targets|) && forall k :: 0 <= k < |ws| ==> ws[k] !in path && ws[k] !in done
    ensures forall k :: 0 <= k < |ws| ==> ws[k] in ts && g.closureBody[ws[k]] && final[ws[k]].None?
    ensures forall t :: t in ts && g.closureBody[t] && final[t].None? && t !in path && t !in done ==> t in ws
  {
    if ts == [] then []
    else
      var last := |ts| - 1;
      var before := Unresolved(g, final, done, path, ts[..last]);
      assert ts == ts[..last] + [ts[last]];
      if g.closureBody[ts[last]] && final[ts[last]].None? && ts[last] !in path && ts[last] !in done
          then before + [ts[last]]
      else before
  }

  /** `out` holds what `done` held, unchanged, and more off the path. */
  ghost predicate Extends<D>(g: Graph, path: seq<nat>, done: map<nat, D>, out: map<nat, D>) {
    && (forall x :: x in done ==> x in out && out[x] == done[x])
    && (forall x :: x in out && x !in done ==> x < |g.targets| && x !in path)
  }

  lemma FreshShrinks<D>(g: Graph, path: seq<nat>, done: map<nat, D>, out: map<nat, D>)
    requires Extends(g, path, done, out)
    ensures Fresh(g, out, path) <= Fresh(g, done, path)
  {
  }

  lemma ExtendsAll<D>(g: Graph, path: seq<nat>, done: map<nat, D>, next: map<nat, D>, out: map<nat, D>,
                      rest: seq<nat>, f: nat)
    requires Extends(g, path, done, next) && Extends(g, path, next, out) && f in next
    requires forall k :: 0 <= k < |rest| ==> rest[k] in out
    ensures Extends(g, path, done, out) && forall x :: x in rest + [f] ==> x in out
  {
  }

  /** The digests once `f` is digested under the active `path`: its unresolved
      targets first, then `f` itself, with a marker for every target that is
      on the path. No stack; each call takes one body off `Fresh`. */
  ghost function Digested<D>(g: Graph, final: seq<Option<D>>, hash: (nat, seq<Ref<D>>) -> D, closures: seq<nat>,
                             path: seq<nat>, done: map<nat, D>, f: nat): (out: map<nat, D>)
    requires ValidGraph(g) && |final| == |g.targets| && f < |g.targets| && f !in path
    ensures f in out && Extends(g, path, done, out)
    decreases Fresh(g, done, path), 0, 0
  {
    if f in done then done
    else
      assert f in Fresh(g, done, path) && f !in Fresh(g, done, path + [f]);
      var inner := DigestedAll(g, final, hash, closures, path + [f], done,
                               Unresolved(g, final, done, path + [f], g.targets[f]));
      assert Resolved(g, final, inner, path + [f], f);
      inner[f := hash(f, RefList(g, final, inner, path + [f], closures, g.targets[f]))]
  }

  /** The same for a list, its last member first. */
  ghost function DigestedAll<D>(g: Graph, final: seq<Option<D>>, hash: (nat, seq<Ref<D>>) -> D, closures: seq<nat>,
                                path: seq<nat>, done: map<nat, D>, fs: seq<nat>): (out: map<nat, D>)
    requires ValidGraph(g) && |final| == |g.targets| && AllBelow(fs, |g.targets|)
    requires forall k :: 0 <= k < |fs| ==> fs[k] !in path
    ensures Extends(g, path, done, out) && forall k :: 0 <= k < |fs| ==> fs[k] in out
    decreases Fresh(g, done, path), 1, |fs|
  {
    if fs == [] then done
    else
      var last := |fs| - 1;
      var next := Digested(g, final, hash, closures, path, done, fs[last]);
      FreshShrinks(g, path, done, next);
      var out := DigestedAll(g, final, hash, closures, path, next, fs[..last]);
      ExtendsAll(g, path, done, next, out, fs[..last], fs[last]);
      assert fs == fs[..last] + [fs[last]];
      out
  }

  /** The digests of the first `k` closures, each from an empty path. */
  ghost function DigestsOf<D>(g: Graph, final: seq<Option<D>>, hash: (nat, seq<Ref<D>>) -> D, closures: seq<nat>,
                              k: nat)
      : map<nat, D>
    requires ValidGraph(g) && |final| == |g.targets| && AllBelow(closures, |g.targets|) && k <= |closures|
  {
    if k == 0 then map[]
    else Digested(g, final, hash, closures, [], DigestsOf(g, final, hash, closures, k - 1), closures[k - 1])
  }

  ghost predicate Sits(g: Graph, stack: seq<Frame>) {
    forall p :: 0 <= p < |stack| ==> stack[p].item < |g.targets|
  }

  /** What the frames of a stack still add to the digests, the top one first. */
  ghost function Drained<D>(g: Graph, final: seq<Option<D>>, hash: (nat, seq<Ref<D>>) -> D, closures: seq<nat>,
                            stack: seq<Frame>, path: seq<nat>, done: map<nat, D>): map<nat, D>
    requires ValidGraph(g) && |final| == |g.targets| && Sits(g, stack)
    decreases |stack|
  {
    if stack == [] then done
    else
      var rest, top := stack[..|stack| - 1], stack[|stack| - 1];
      if top.item in done then Drained(g, final, hash, closures, rest, path, done)
      else if !top.expanded then
        if top.item in path then done
        else Drained(g, final, hash, closures, rest, path, Digested(g, final, hash, closures, path, done, top.item))
      else if path == [] || !Resolved(g, final, done, path, top.item) then done
      else
        var digest := hash(top.item, RefList(g, final, done, path, closures, g.targets[top.item]));
        Drained(g, final, hash, closures, rest, path[..|path| - 1], done[top.item := digest])
  }

  lemma DrainedTop<D>(g: Graph, final: seq<Option<D>>, hash: (nat, seq<Ref<D>>) -> D, closures: seq<nat>,
                      rest: seq<Frame>, f: nat, path: seq<nat>, done: map<nat, D>)
    requires ValidGraph(g) && |final| == |g.targets| && Sits(g, rest) && f < |g.targets| && f !in path
    ensures Sits(g, rest + [Frame(f, false)])
    ensures Drained(g, final, hash, closures, rest + [Frame(f, false)], path, done)
         == Drained(g, final, hash, closures, rest, path, Digested(g, final, hash, closures, path, done, f))
  {
    hide Digested, RefList;
    assert (rest + [Frame(f, false)])[..|rest|] == rest;
    if f in done { DigestedDone(g, final, hash, closures, path, done, f); }
  }

  lemma DigestedDone<D>(g: Graph, final: seq<Option<D>>, hash: (nat, seq<Ref<D>>) -> D, closures: seq<nat>,
                        path: seq<nat>, done: map<nat, D>, f: nat)
    requires ValidGraph(g) && |final| == |g.targets| && f < |g.targets| && f !in path && f in done
    ensures Digested(g, final, hash, closures, path, done, f) == done
  {
    hide RefList, DigestedAll;
  }

  /** Waiting frames drain to the list recursion. */
  lemma {:induction false} DrainedPushes<D>(g: Graph, final: seq<Option<D>>, hash: (nat, seq<Ref<D>>) -> D,
                                            closures: seq<nat>,
                                            rest: seq<Frame>, fs: seq<nat>, path: seq<nat>, done: map<nat, D>)
    requires ValidGraph(g) && |final| == |g.targets| && Sits(g, rest) && AllBelow(fs, |g.targets|)
    requires forall k :: 0 <= k < |fs| ==> fs[k] !in path
    ensures Sits(g, rest + Opened(fs))
    ensures Drained(g, final, hash, closures, rest + Opened(fs), path, done)
         == Drained(g, final, hash, closures, rest, path, DigestedAll(g, final, hash, closures, path, done, fs))
    decreases |fs|
  {
    hide Drained, Digested;
    if fs == [] {
      assert rest + Opened(fs) == rest;
    } else {
      var last := |fs| - 1;
      var lower := rest + Opened(fs[..last]);
      assert rest + Opened(fs) == lower + [Frame(fs[last], false)];
      DrainedTop(g, final, hash, closures, lower, fs[last], path, done);
      DrainedPushes(g, final, hash, closures, rest, fs[..last], path,
                    Digested(g, final, hash, closures, path, done, fs[last]));
    }
  }

  /** Expanding the top body changes nothing of what is to come. */
  lemma DrainedExpand<D>(g: Graph, final: seq<Option<D>>, hash: (nat, seq<Ref<D>>) -> D, closures: seq<nat>,
                         rest: seq<Frame>, f: nat, path: seq<nat>, done: map<nat, D>)
    requires ValidGraph(g) && |final| == |g.targets| && Sits(g, rest) && f < |g.targets| && f !in path && f !in done
    ensures var ws := Unresolved(g, final, done, path + [f], g.targets[f]);
      && Sits(g, rest + [Frame(f, true)] + Opened(ws)) && Sits(g, rest + [Frame(f, false)])
      && Drained(g, final, hash, closures, rest + [Frame(f, true)] + Opened(ws), path + [f], done)
           == Drained(g, final, hash, closures, rest + [Frame(f, false)], path, done)
  {
    hide Unresolved, DigestedAll, RefList, Drained, Digested;
    var ws := Unresolved(g, final, done, path + [f], g.targets[f]);
    var marked := rest + [Frame(f, true)];
    DrainedPushes(g, final, hash, closures, marked, ws, path + [f], done);
    DrainedTop(g, final, hash, closures, rest, f, path, done);
    var inner := DigestedAll(g, final, hash, closures, path + [f], done, ws);
    assert f in path + [f];
    DigestedOpens(g, final, hash, closures, path, done, f);
    DrainedMarked(g, final, hash, closures, rest, f, path, inner);
  }

  lemma DigestedOpens<D>(g: Graph, final: seq<Option<D>>, hash: (nat, seq<Ref<D>>) -> D, closures: seq<nat>,
                         path: seq<nat>, done: map<nat, D>, f: nat)
    requires ValidGraph(g) && |final| == |g.targets| && f < |g.targets| && f !in path && f !in done
    ensures var inner := DigestedAll(g, final, hash, closures, path + [f], done,
                                     Unresolved(g, final, done, path + [f], g.targets[f]));
      && Resolved(g, final, inner, path + [f], f)
      && Digested(g, final, hash, closures, path, done, f)
           == inner[f := hash(f, RefList(g, final, inner, path + [f], closures, g.targets[f]))]
  {
    hide DigestedAll, RefList, Unresolved;
  }

  lemma DrainedMarked<D>(g: Graph, final: seq<Option<D>>, hash: (nat, seq<Ref<D>>) -> D, closures: seq<nat>,
                         rest: seq<Frame>, f: nat, path: seq<nat>, done: map<nat, D>)
    requires ValidGraph(g) && |final| == |g.targets| && Sits(g, rest) && f < |g.targets| && f !in done
    requires Resolved(g, final, done, path + [f], f)
    ensures Sits(g, rest + [Frame(f, true)])
    ensures Drained(g, final, hash, closures, rest + [Frame(f, true)], path + [f], done)
         == Drained(g, final, hash, closures, rest, path,
                    done[f := hash(f, RefList(g, final, done, path + [f], closures, g.targets[f]))])
  {
    hide Digested, RefList, Resolved;
    assert (rest + [Frame(f, true)])[..|rest|] == rest && (path + [f])[..|path|] == path;
  }

  // ------------------------------------------------------------ the walk

  method PushTargets<D>(g: Graph, final: seq<Option<D>>, done: map<nat, D>, path: seq<nat>, ts: seq<nat>)
    returns (more: seq<Frame>)
    requires ValidGraph(g) && |final| == |g.targets| && forall k :: 0 <= k < |ts| ==> ts[k] < |g.targets|
    ensures Pushed(g, final, done, path, ts, more) && more == Opened(Unresolved(g, final, done, path, ts))
  {
    hide Pushed, Unresolved;
    more := [];
    UnresolvedNone(g, final, done, path, ts);
    for k := 0 to |ts|
      invariant AllBelow(ts[..k], |g.targets|) && more == Opened(Unresolved(g, final, done, path, ts[..k]))
    {
      UnresolvedNext(g, final, done, path, ts, k);
      var t := ts[k];
      if g.closureBody[t] && final[t].None? && t !in path && t !in done { more := more + [Frame(t, false)]; }
    }
    assert ts[..|ts|] == ts;
    UnresolvedPushed(g, final, done, path, ts);
  }

  lemma UnresolvedNone<D>(g: Graph, final: seq<Option<D>>, done: map<nat, D>, path: seq<nat>, ts: seq<nat>)
    requires ValidGraph(g) && |final| == |g.targets|
    ensures AllBelow(ts[..0], |g.targets|) && Unresolved(g, final, done, path, ts[..0]) == []
  {
  }

  lemma UnresolvedNext<D>(g: Graph, final: seq<Option<D>>, done: map<nat, D>, path: seq<nat>, ts: seq<nat>, k: nat)
    requires ValidGraph(g) && |final| == |g.targets| && AllBelow(ts, |g.targets|) && k < |ts|
    ensures AllBelow(ts[..k], |g.targets|) && AllBelow(ts[..k + 1], |g.targets|)
    ensures Unresolved(g, final, done, path, ts[..k + 1]) ==
            Unresolved(g, final, done, path, ts[..k]) +
              (if g.closureBody[ts[k]] && final[ts[k]].None? && ts[k] !in path && ts[k] !in done then [ts[k]] else [])
  {
    assert ts[..k + 1][..k] == ts[..k];
    var before := Unresolved(g, final, done, path, ts[..k]);
    assert before + [] == before;
  }

  lemma UnresolvedPushed<D>(g: Graph, final: seq<Option<D>>, done: map<nat, D>, path: seq<nat>, ts: seq<nat>)
    requires ValidGraph(g) && |final| == |g.targets| && AllBelow(ts, |g.targets|)
    ensures Pushed(g, final, done, path, ts, Opened(Unresolved(g, final, done, path, ts)))
  {
    hide Unresolved;
    var ws := Unresolved(g, final, done, path, ts);
    forall t | t in ws ensures Frame(t, false) in Opened(ws) {
      var k :| 0 <= k < |ws| && ws[k] == t;
      assert Opened(ws)[k] == Frame(t, false);
    }
  }

  lemma TopKnown<D>(g: Graph, final: seq<Option<D>>, stack: seq<Frame>, path: seq<nat>, done: map<nat, D>)
    requires ValidGraph(g) && |final| == |g.targets| && Walking(g, final, stack, path, done) && stack != []
    ensures stack[|stack| - 1].item < |g.targets|
  {
  }

  lemma IdealPop<D(!new)>(g: Graph, final: seq<Option<D>>, hash: (nat, seq<Ref<D>>) -> D, rank: nat -> nat,
                          stack: seq<Frame>, done: map<nat, D>, d: D)
    requires ValidGraph(g) && |final| == |g.targets| && stack != [] && stack[|stack| - 1].item < |g.targets|
    requires Ideal(g, final, hash, rank, stack, done) && d == BodyDigest(g, final, hash, rank, stack[|stack| - 1].item)
    ensures Ideal(g, final, hash, rank, stack[..|stack| - 1], done[stack[|stack| - 1].item := d])
  {
    hide BodyDigest;
  }

  lemma FreshMoves<D>(g: Graph, done: map<nat, D>, path: seq<nat>, f: nat, d: D)
    ensures Fresh(g, done[f := d], path) == Fresh(g, done, path + [f])
  {
  }

  /** Serialise the top body, which is on the path of its own serialisation,
      and move it from the path to `done`. */
  method FinishTop<D(!new)>(g: Graph, final: seq<Option<D>>, hash: (nat, seq<Ref<D>>) -> D, ghost rank: nat -> nat,
                      closures: seq<nat>, stack: seq<Frame>, path: seq<nat>, done: map<nat, D>)
    returns (path': seq<nat>, done': map<nat, D>)
    requires ValidGraph(g) && |final| == |g.targets| && Walking(g, final, stack, path, done)
    requires stack != [] && stack[|stack| - 1].expanded
    ensures var f, rest := stack[|stack| - 1].item, stack[..|stack| - 1];
            && Resolved(g, final, done, path, f)
            && done' == done[f := hash(f, RefList(g, final, done, path, closures, g.targets[f]))]
            && Walking(g, final, rest, path', done') && path != [] && path' == path[..|path| - 1]
            && Fresh(g, done', path') == Fresh(g, done, path)
            && (Ideal(g, final, hash, rank, stack, done) ==> Ideal(g, final, hash, rank, rest, done'))
  {
    hide Walking, RefList, Fresh, Ranked, Descending, Agrees, BodyDigest;
    var f := stack[|stack| - 1].item;
    TopKnown(g, final, stack, path, done);
    TopResolved(g, final, stack, path, done);
    if Ideal(g, final, hash, rank, stack, done) {
      SerialiseAgrees(g, final, hash, rank, stack, path, done, closures);
    }
    var digest := hash(f, RefList(g, final, done, path, closures, g.targets[f]));
    PopExpanded(g, final, stack, path, done, digest);
    path' := path[..|path| - 1];
    done' := done[f := digest];
    assert path == path' + [f];
    FreshMoves(g, done, path', f, digest);
    if Ideal(g, final, hash, rank, stack, done) { IdealPop(g, final, hash, rank, stack, done, digest); }
  }

  method ExpandBody<D(!new)>(g: Graph, final: seq<Option<D>>, ghost hash: (nat, seq<Ref<D>>) -> D,
                      ghost rank: nat -> nat,
                       stack: seq<Frame>, path: seq<nat>, done: map<nat, D>)
    returns (stack': seq<Frame>, path': seq<nat>)
    requires ValidGraph(g) && |final| == |g.targets| && Walking(g, final, stack, path, done)
    requires stack != [] && !stack[|stack| - 1].expanded && stack[|stack| - 1].item !in done
    ensures Walking(g, final, stack', path', done)
    ensures Fresh(g, done, path') < Fresh(g, done, path)
    ensures |stack'| > 0 && stack'[0].item == stack[0].item
    ensures var f := stack[|stack| - 1].item;
            && f < |g.targets| && f !in path && path' == path + [f]
            && stack' == stack[..|stack| - 1] + [Frame(f, true)]
                + Opened(Unresolved(g, final, done, path', g.targets[f]))
    ensures Ideal(g, final, hash, rank, stack, done) ==> Ideal(g, final, hash, rank, stack', done)
  {
    var f := stack[|stack| - 1].item;
    path' := path + [f];
    var more := PushTargets(g, final, done, path', g.targets[f]);
    ExpandTop(g, final, stack, path, done, more);
    stack' := stack[..|stack| - 1] + [Frame(f, true)] + more;
    assert f in Fresh(g, done, path) && f !in Fresh(g, done, path');
    if Ideal(g, final, hash, rank, stack, done) { DescendingExpand(g, final, rank, stack, path', done, more); }
  }

  /** The post-order from one closure. The path is empty again at the end. */
  method WalkFrom<D(!new)>(g: Graph, final: seq<Option<D>>, hash: (nat, seq<Ref<D>>) -> D, ghost rank: nat -> nat,
                     closures: seq<nat>, start: nat, done0: map<nat, D>)
    returns (done: map<nat, D>)
    requires ValidGraph(g) && |final| == |g.targets| && start < |g.targets|
    ensures done == Digested(g, final, hash, closures, [], done0, start)
    ensures Ranked(g, final, rank) && Agrees(g, final, hash, rank, done0) && final[start].None? ==>
              Agrees(g, final, hash, rank, done)
  {
    hide NeedsCovered, Ideal, Drained, Digested, Unresolved, RefList;
    done := done0;
    var stack, path := [Frame(start, false)], [];
    ghost var ideal := Ideal(g, final, hash, rank, stack, done);
    FirstBody(g, final, hash, closures, done, start);
    while |stack| > 0
      invariant Walking(g, final, stack, path, done)
      invariant Drained(g, final, hash, closures, stack, path, done)
                == Digested(g, final, hash, closures, [], done0, start)
      invariant ideal ==> Ideal(g, final, hash, rank, stack, done)
      decreases Fresh(g, done, path), |stack|
    {
      var top, rest := stack[|stack| - 1], stack[..|stack| - 1];
      assert stack == rest + [top];
      if top.item in done {
        PopDone(g, final, stack, path, done);
        DrainedSkip(g, final, hash, closures, stack, path, done);
        IdealSkip(g, final, hash, rank, stack, done);
        stack := rest;
      } else if top.expanded {
        ghost var was, before := path, done;
        path, done := FinishTop(g, final, hash, rank, closures, stack, path, done);
        DrainedFinish(g, final, hash, closures, stack, was, before);
        stack := rest;
      } else {
        ghost var before := path;
        stack, path := ExpandBody(g, final, hash, rank, stack, path, done);
        DrainedExpand(g, final, hash, closures, rest, top.item, before, done);
      }
    }
    DrainedNone(g, final, hash, closures, path, done);
    if ideal { IdealAgrees(g, final, hash, rank, stack, done); }
    StartsIdeal(g, final, hash, rank, start, done0);
  }

  lemma FirstBody<D>(g: Graph, final: seq<Option<D>>, hash: (nat, seq<Ref<D>>) -> D, closures: seq<nat>,
                     done: map<nat, D>, start: nat)
    requires ValidGraph(g) && |final| == |g.targets| && start < |g.targets|
    ensures Walking(g, final, [Frame(start, false)], [], done)
    ensures Drained(g, final, hash, closures, [Frame(start, false)], [], done)
              == Digested(g, final, hash, closures, [], done, start)
  {
    hide Drained, Digested;
    var stack := [Frame(start, false)];
    assert stack == [] + [Frame(start, false)];
    assert stack[..|stack| - 1] == [];
    assert Expanded(stack) == [] && Unmarked(stack);
    assert Shape(g, stack, [], done) && NeedsCovered(g, final, stack, [], done);
    DrainedTop(g, final, hash, closures, [], start, [], done);
    DrainedNone(g, final, hash, closures, [], Digested(g, final, hash, closures, [], done, start));
  }

  lemma DrainedNone<D>(g: Graph, final: seq<Option<D>>, hash: (nat, seq<Ref<D>>) -> D, closures: seq<nat>,
                       path: seq<nat>, done: map<nat, D>)
    requires ValidGraph(g) && |final| == |g.targets|
    ensures Drained(g, final, hash, closures, [], path, done) == done
  {
  }

  lemma DrainedSkip<D>(g: Graph, final: seq<Option<D>>, hash: (nat, seq<Ref<D>>) -> D, closures: seq<nat>,
                       stack: seq<Frame>, path: seq<nat>, done: map<nat, D>)
    requires ValidGraph(g) && |final| == |g.targets| && Sits(g, stack) && stack != [] && stack[|stack| - 1].item in done
    ensures Drained(g, final, hash, closures, stack, path, done)
         == Drained(g, final, hash, closures, stack[..|stack| - 1], path, done)
  {
    hide Digested, RefList;
  }

  lemma DrainedFinish<D>(g: Graph, final: seq<Option<D>>, hash: (nat, seq<Ref<D>>) -> D, closures: seq<nat>,
                         stack: seq<Frame>, path: seq<nat>, done: map<nat, D>)
    requires ValidGraph(g) && |final| == |g.targets| && Sits(g, stack) && stack != [] && stack[|stack| - 1].expanded
    requires stack[|stack| - 1].item !in done && path != [] && Resolved(g, final, done, path, stack[|stack| - 1].item)
    ensures var f := stack[|stack| - 1].item;
      Drained(g, final, hash, closures, stack, path, done)
        == Drained(g, final, hash, closures, stack[..|stack| - 1], path[..|path| - 1],
                   done[f := hash(f, RefList(g, final, done, path, closures, g.targets[f]))])
  {
    hide Digested, RefList, Resolved;
  }

  lemma IdealSkip<D(!new)>(g: Graph, final: seq<Option<D>>, hash: (nat, seq<Ref<D>>) -> D, rank: nat -> nat,
                           stack: seq<Frame>, done: map<nat, D>)
    requires ValidGraph(g) && |final| == |g.targets| && stack != []
    ensures Ideal(g, final, hash, rank, stack, done) ==> Ideal(g, final, hash, rank, stack[..|stack| - 1], done)
  {
    hide Agrees, Ranked;
  }

  lemma IdealAgrees<D(!new)>(g: Graph, final: seq<Option<D>>, hash: (nat, seq<Ref<D>>) -> D, rank: nat -> nat,
                             stack: seq<Frame>, done: map<nat, D>)
    requires ValidGraph(g) && |final| == |g.targets| && Ideal(g, final, hash, rank, stack, done)
    ensures Ranked(g, final, rank) && Agrees(g, final, hash, rank, done)
  {
    hide Agrees, Ranked;
  }

  lemma StartsIdeal<D(!new)>(g: Graph, final: seq<Option<D>>, hash: (nat, seq<Ref<D>>) -> D, rank: nat -> nat,
                             start: nat, done: map<nat, D>)
    requires ValidGraph(g) && |final| == |g.targets| && start < |g.targets|
    ensures Ranked(g, final, rank) && Agrees(g, final, hash, rank, done) && final[start].None? ==>
              Ideal(g, final, hash, rank, [Frame(start, false)], done)
  {
    hide Agrees, Ranked;
  }

  /** Digest the given closures over any closure graph, cyclic or not: the
      digests are those of the recursion with a path, and on a graph without
      cycles those of plain recursion. */
  method ClosureBodyDigests<D(!new)>(g: Graph, final: seq<Option<D>>, hash: (nat, seq<Ref<D>>) -> D,
                              ghost rank: nat -> nat,
                               closures: seq<nat>)
    returns (done: map<nat, D>)
    requires ValidGraph(g) && |final| == |g.targets| && AllBelow(closures, |g.targets|)
    ensures done == DigestsOf(g, final, hash, closures, |closures|)
    ensures Ranked(g, final, rank) && (forall k :: 0 <= k < |closures| ==> final[closures[k]].None?) ==>
              Agrees(g, final, hash, rank, done)
  {
    hide Digested;
    done := map[];
    for i := 0 to |closures|
      invariant done == DigestsOf(g, final, hash, closures, i)
      invariant Ranked(g, final, rank) && (forall k :: 0 <= k < |closures| ==> final[closures[k]].None?) ==>
                  Agrees(g, final, hash, rank, done)
    {
      if closures[i] !in done {
        done := WalkFrom(g, final, hash, rank, closures, closures[i], done);
      } else {
        DigestedDone(g, final, hash, closures, [], done, closures[i]);
      }
    }
  }

  /** Every listed closure is digested, and nothing else than bodies of the
      graph. */
  lemma {:induction false} DigestsCover<D>(g: Graph, final: seq<Option<D>>, hash: (nat, seq<Ref<D>>) -> D,
                                           closures: seq<nat>, k: nat)
    requires ValidGraph(g) && |final| == |g.targets| && AllBelow(closures, |g.targets|) && k <= |closures|
    ensures forall i :: 0 <= i < k ==> closures[i] in DigestsOf(g, final, hash, closures, k)
    ensures forall f :: f in DigestsOf(g, final, hash, closures, k) ==> f < |g.targets|
  {
    hide Digested;
    if k > 0 { DigestsCover(g, final, hash, closures, k - 1); }
  }
}
