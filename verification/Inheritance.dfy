/** The interface inheritance check: a queue-driven topological pass with a
    depth bound. */
module Inheritance {
  import opened Common

  const MAX_LEVELS: nat := 128

  /** `parents[i]` lists the parent interfaces of interface `i`, repeats kept. */
  ghost predicate InRange(parents: seq<seq<nat>>) {
    forall c, k :: 0 <= c < |parents| && 0 <= k < |parents[c]| ==> parents[c][k] < |parents|
  }

  /** A chain climbs from each interface to one of its parents. */
  ghost predicate Chain(parents: seq<seq<nat>>, chain: seq<nat>) {
    && chain != []
    && (forall i :: 0 <= i < |chain| ==> chain[i] < |parents|)
    && forall i :: 0 <= i < |chain| - 1 ==> chain[i + 1] in parents[chain[i]]
  }

  ghost predicate HasChain(parents: seq<seq<nat>>, c: nat, edges: nat) {
    exists chain :: Chain(parents, chain) && chain[0] == c && |chain| == edges + 1
  }

  /** What the check promises: no chain has more than 128 edges. A cycle
      gives chains of every length, so this excludes cycles as well. */
  ghost predicate Bounded(parents: seq<seq<nat>>) {
    forall chain :: Chain(parents, chain) ==> |chain| - 1 <= 128
  }

  ghost predicate HasCycle(parents: seq<seq<nat>>) {
    exists chain :: Chain(parents, chain) && |chain| > 1 && chain[0] == chain[|chain| - 1]
  }

  lemma ChainHere(parents: seq<seq<nat>>, c: nat)
    requires c < |parents|
    ensures HasChain(parents, c, 0)
  {
    assert Chain(parents, [c]);
  }

  lemma ChainUp(parents: seq<seq<nat>>, c: nat, p: nat, edges: nat)
    requires c < |parents| && p in parents[c] && HasChain(parents, p, edges)
    ensures HasChain(parents, c, edges + 1)
  {
    var chain :| Chain(parents, chain) && chain[0] == p && |chain| == edges + 1;
    var longer := [c] + chain;
    forall i | 0 <= i < |longer| - 1 ensures longer[i + 1] in parents[longer[i]] {
      if i > 0 { assert longer[i] == chain[i - 1] && longer[i + 1] == chain[i - 1 + 1]; }
    }
    assert Chain(parents, longer);
  }

  // ------------------------------------------------------ pending counts

  /** The parent entries that are not in `done`, repeats counted. */
  function Open(ps: seq<nat>, done: set<nat>): nat {
    if ps == [] then 0 else (if ps[0] in done then 0 else 1) + Open(ps[1..], done)
  }

  lemma {:induction false} OpenNone(ps: seq<nat>)
    ensures Open(ps, {}) == |ps|
  {
    if ps != [] { OpenNone(ps[1..]); }
  }

  lemma {:induction false} OpenExact(ps: seq<nat>, done: set<nat>)
    ensures Open(ps, done) == 0 <==> forall k :: 0 <= k < |ps| ==> ps[k] in done
  {
    if ps != [] {
      OpenExact(ps[1..], done);
      assert forall k :: 1 <= k < |ps| ==> ps[k] == ps[1..][k - 1];
    }
  }

  /** Finishing `p` discharges every occurrence of it at once. */
  lemma {:induction false} OpenFinish(ps: seq<nat>, done: set<nat>, p: nat)
    requires p !in done
    ensures Open(ps, done) == Open(ps, done + {p}) + multiset(ps)[p]
  {
    if ps != [] {
      OpenFinish(ps[1..], done, p);
      assert ps == [ps[0]] + ps[1..];
      assert multiset(ps) == multiset{ps[0]} + multiset(ps[1..]);
    }
  }

  // ------------------------------------------------------- child lists

  /** `children[p]` holds `c` once per occurrence of `p` among its parents. */
  ghost predicate Transposed(parents: seq<seq<nat>>, children: seq<seq<nat>>) {
    && |children| == |parents|
    && forall p, c :: 0 <= p < |parents| && 0 <= c < |parents| ==> multiset(children[p])[c] == multiset(parents[c])[p]
  }

  ghost predicate ChildrenInRange(children: seq<seq<nat>>) {
    forall p, k :: 0 <= p < |children| && 0 <= k < |children[p]| ==> children[p][k] < |children|
  }

  /** The child lists after `c` whole interfaces and `k` entries of the next. */
  ghost predicate PartlyTransposed(parents: seq<seq<nat>>, children: seq<seq<nat>>, c: nat, k: nat)
    requires c <= |parents| && (c < |parents| ==> k <= |parents[c]|)
  {
    && |children| == |parents| && ChildrenInRange(children)
    && (forall p, d :: 0 <= p < |parents| && 0 <= d < c ==> multiset(children[p])[d] == multiset(parents[d])[p])
    && (forall p :: 0 <= p < |parents| && c < |parents| ==> multiset(children[p])[c] == multiset(parents[c][..k])[p])
    && (forall p, d :: 0 <= p < |parents| && c < d < |parents| ==> multiset(children[p])[d] == 0)
  }

  lemma AddChild(parents: seq<seq<nat>>, children: seq<seq<nat>>, c: nat, k: nat)
    requires InRange(parents) && c < |parents| && k < |parents[c]| && PartlyTransposed(parents, children, c, k)
    ensures var p := parents[c][k]; PartlyTransposed(parents, children[p := children[p] + [c]], c, k + 1)
  {
    var p := parents[c][k];
    var next := children[p := children[p] + [c]];
    assert parents[c][..k + 1] == parents[c][..k] + [p];
    forall q, d | 0 <= q < |parents| && 0 <= d < |parents|
      ensures multiset(next[q])[d] == multiset(children[q])[d] + if q == p && d == c then 1 else 0
    {
      if q == p { assert multiset(next[q]) == multiset(children[q]) + multiset{c}; }
    }
  }

  method ChildLists(parents: seq<seq<nat>>) returns (children: seq<seq<nat>>)
    requires InRange(parents)
    ensures Transposed(parents, children) && ChildrenInRange(children)
  {
    children := seq(|parents|, _ => []);
    for c := 0 to |parents|
      invariant PartlyTransposed(parents, children, c, 0)
    {
      for k := 0 to |parents[c]|
        invariant PartlyTransposed(parents, children, c, k)
      {
        AddChild(parents, children, c, k);
        var p := parents[c][k];
        children := children[p := children[p] + [c]];
      }
      assert parents[c][..|parents[c]|] == parents[c];
    }
  }

  // ------------------------------------------------------------ the pass

  /** Finished and queued interfaces, apart and each once. */
  ghost predicate Lines(n: nat, done: set<nat>, queue: seq<nat>) {
    && (forall c :: c in done ==> 0 <= c < n)
    && (forall i :: 0 <= i < |queue| ==> queue[i] < n && queue[i] !in done)
    && NoRepeats(queue)
  }

  /** The pending counts: `owed` counts discharges still to be made for the
      interface being finished. An interface leaves the wait exactly when
      its count reaches zero. */
  ghost predicate Counts(parents: seq<seq<nat>>, done: set<nat>, queue: seq<nat>, pending: seq<nat>,
                         owed: multiset<nat>) {
    && |pending| == |parents|
    && (forall c :: 0 <= c < |parents| ==> pending[c] == Open(parents[c], done) + owed[c])
    && (forall c :: 0 <= c < |parents| ==> (pending[c] == 0 <==> c in done || c in queue))
  }

  /** Every depth is the length of a real chain within the bound. */
  ghost predicate Depths(parents: seq<seq<nat>>, depth: seq<nat>) {
    && |depth| == |parents|
    && forall c :: 0 <= c < |parents| ==> depth[c] <= MAX_LEVELS && HasChain(parents, c, depth[c])
  }

  /** Interfaces lie deeper than their finished parents. */
  ghost predicate Deeper(parents: seq<seq<nat>>, done: set<nat>, depth: seq<nat>) {
    && |depth| == |parents|
    && forall c, p :: 0 <= c < |parents| && p in parents[c] && p in done && 0 <= p < |parents| ==>
        depth[c] >= depth[p] + 1
  }

  method InitialQueue(pending: seq<nat>) returns (queue: seq<nat>)
    ensures forall c :: c in queue <==> 0 <= c < |pending| && pending[c] == 0
    ensures NoRepeats(queue)
  {
    queue := [];
    for i := 0 to |pending|
      invariant forall c :: c in queue <==> 0 <= c < i && pending[c] == 0
      invariant forall k :: 0 <= k < |queue| ==> queue[k] < i
      invariant NoRepeats(queue)
    {
      if pending[i] == 0 { queue := queue + [i]; }
    }
  }

  lemma StartCounts(parents: seq<seq<nat>>, pending: seq<nat>, queue: seq<nat>)
    requires |pending| == |parents| && forall c :: 0 <= c < |parents| ==> pending[c] == |parents[c]|
    requires forall c :: c in queue <==> 0 <= c < |pending| && pending[c] == 0
    ensures Counts(parents, {}, queue, pending, multiset{})
  {
    forall c | 0 <= c < |parents| ensures pending[c] == Open(parents[c], {}) { OpenNone(parents[c]); }
  }

  /** Taking `p` off the queue makes all its occurrences owed. */
  lemma FinishCounts(parents: seq<seq<nat>>, children: seq<seq<nat>>, done: set<nat>, queue: seq<nat>,
                     pending: seq<nat>)
    requires Transposed(parents, children) && queue != [] && Lines(|parents|, done, queue)
    requires Counts(parents, done, queue, pending, multiset{})
    ensures Counts(parents, done + {queue[0]}, queue[1..], pending, multiset(children[queue[0]]))
    ensures Lines(|parents|, done + {queue[0]}, queue[1..])
  {
    var p := queue[0];
    forall c | 0 <= c < |parents| ensures pending[c] == Open(parents[c], done + {p}) + multiset(children[p])[c] {
      OpenFinish(parents[c], done, p);
    }
    assert queue == [p] + queue[1..];
    assert forall c :: c in queue <==> c == p || c in queue[1..];
  }

  /** Discharging one occurrence of the finished interface. */
  lemma DischargeCounts(parents: seq<seq<nat>>, done: set<nat>, queue: seq<nat>, pending: seq<nat>,
                        owed: multiset<nat>, c: nat)
    requires Counts(parents, done, queue, pending, owed) && Lines(|parents|, done, queue)
    requires c < |parents| && owed[c] > 0
    ensures pending[c] > 0 && c !in done && c !in queue
    ensures var pending' := pending[c := pending[c] - 1];
            var queue' := if pending'[c] == 0 then queue + [c] else queue;
            Counts(parents, done, queue', pending', owed - multiset{c}) && Lines(|parents|, done, queue')
  {
    var pending' := pending[c := pending[c] - 1];
    var queue' := if pending'[c] == 0 then queue + [c] else queue;
    assert forall d :: d in queue' <==> d in queue || (pending'[c] == 0 && d == c);
  }

  lemma RaiseDepth(parents: seq<seq<nat>>, depth: seq<nat>, p: nat, c: nat)
    requires Depths(parents, depth) && c < |parents| && p < |parents| && p in parents[c]
    ensures depth[p] + 1 > MAX_LEVELS ==> !Bounded(parents)
    ensures depth[p] + 1 <= MAX_LEVELS ==>
              Depths(parents, depth[c := if depth[c] < depth[p] + 1 then depth[p] + 1 else depth[c]])
  {
    ChainUp(parents, c, p, depth[p]);
    if depth[p] + 1 > MAX_LEVELS {
      var chain :| Chain(parents, chain) && chain[0] == c && |chain| == depth[p] + 2;
    }
  }

  ghost predicate PassState(parents: seq<seq<nat>>, done: set<nat>, queue: seq<nat>, pending: seq<nat>,
                            depth: seq<nat>) {
    && Lines(|parents|, done, queue) && Counts(parents, done, queue, pending, multiset{})
    && Depths(parents, depth) && Deeper(parents, done, depth)
  }

  /** Interface `p` is being finished: its first `k` children are released. */
  ghost predicate Midway(parents: seq<seq<nat>>, children: seq<seq<nat>>, done: set<nat>, p: nat, k: nat,
                         queue: seq<nat>, pending: seq<nat>, depth: seq<nat>)
    requires p < |children| == |parents| && k <= |children[p]| && ChildrenInRange(children)
  {
    && Counts(parents, done + {p}, queue, pending, multiset(children[p][k..])) && Lines(|parents|, done + {p}, queue)
    && Depths(parents, depth) && Deeper(parents, done, depth)
    && forall l :: 0 <= l < k ==> depth[children[p][l]] >= depth[p] + 1
  }

  /** Deepen child `k` of `p`, and queue it when nothing else is pending. */
  method Release(parents: seq<seq<nat>>, children: seq<seq<nat>>, ghost done: set<nat>, p: nat, k: nat,
                 queue: seq<nat>, pending: seq<nat>, depth: seq<nat>)
    returns (ok: bool, queue': seq<nat>, pending': seq<nat>, depth': seq<nat>)
    requires Transposed(parents, children) && ChildrenInRange(children)
    requires p < |children| == |parents| && k < |children[p]|
    requires Midway(parents, children, done, p, k, queue, pending, depth)
    ensures !ok ==> !Bounded(parents)
    ensures ok ==> Midway(parents, children, done, p, k + 1, queue', pending', depth')
  {
    hide Bounded, Transposed, HasChain;
    var c := children[p][k];
    ghost var owed := multiset(children[p][k..]);
    assert children[p][k..] == [c] + children[p][k + 1..];
    assert owed - multiset{c} == multiset(children[p][k + 1..]);
    ParentOfChild(parents, children, p, k);
    RaiseDepth(parents, depth, p, c);
    DischargeCounts(parents, done + {p}, queue, pending, owed, c);
    var level := if depth[c] < depth[p] + 1 then depth[p] + 1 else depth[c];
    ok, depth', queue', pending' := level <= MAX_LEVELS, depth[c := level], queue, pending[c := pending[c] - 1];
    if pending'[c] == 0 { queue' := queue + [c]; }
    if ok {
      hide Depths, Counts, Lines;
      KeepDeeper(parents, done, depth, c, level);
    }
  }

  /** Finish one interface: deepen and release its children. */
  method Finish(parents: seq<seq<nat>>, children: seq<seq<nat>>, ghost done: set<nat>,
                queue: seq<nat>, pending: seq<nat>, depth: seq<nat>)
    returns (ok: bool, queue': seq<nat>, pending': seq<nat>, depth': seq<nat>)
    requires Transposed(parents, children) && ChildrenInRange(children)
    requires PassState(parents, done, queue, pending, depth) && queue != []
    ensures !ok ==> !Bounded(parents)
    ensures ok ==> PassState(parents, done + {queue[0]}, queue', pending', depth')
  {
    var p := queue[0];
    FinishCounts(parents, children, done, queue, pending);
    queue', pending', depth', ok := queue[1..], pending, depth, true;
    assert children[p][0..] == children[p];
    for k := 0 to |children[p]|
      invariant Midway(parents, children, done, p, k, queue', pending', depth')
    {
      hide Midway, Bounded, Transposed, ChildrenInRange, PassState;
      ok, queue', pending', depth' := Release(parents, children, done, p, k, queue', pending', depth');
      if !ok { return; }
    }
    assert children[p][|children[p]|..] == [];
    ExtendDeeper(parents, children, done, depth', p);
  }

  lemma ParentOfChild(parents: seq<seq<nat>>, children: seq<seq<nat>>, p: nat, k: nat)
    requires Transposed(parents, children) && ChildrenInRange(children) && p < |parents| && k < |children[p]|
    ensures children[p][k] < |parents| && p in parents[children[p][k]]
  {
    var c := children[p][k];
    assert c in multiset(children[p]);
    assert p in multiset(parents[c]);
  }

  lemma KeepDeeper(parents: seq<seq<nat>>, done: set<nat>, depth: seq<nat>, c: nat, level: nat)
    requires Deeper(parents, done, depth) && c < |parents| && c !in done && level >= depth[c]
    ensures Deeper(parents, done, depth[c := level])
  {
  }

  lemma ExtendDeeper(parents: seq<seq<nat>>, children: seq<seq<nat>>, done: set<nat>, depth: seq<nat>, p: nat)
    requires Transposed(parents, children) && Deeper(parents, done, depth) && p < |parents|
    requires ChildrenInRange(children)
    requires forall l :: 0 <= l < |children[p]| ==> depth[children[p][l]] >= depth[p] + 1
    ensures Deeper(parents, done + {p}, depth)
  {
    forall c | 0 <= c < |parents| && p in parents[c] ensures depth[c] >= depth[p] + 1 {
      assert p in multiset(parents[c]);
      assert c in multiset(children[p]);
      var l :| 0 <= l < |children[p]| && children[p][l] == c;
    }
  }

  /** A chain longer than the interface count repeats an interface. */
  lemma LongChainCycles(parents: seq<seq<nat>>, chain: seq<nat>)
    requires Chain(parents, chain) && |chain| > |parents|
    ensures HasCycle(parents)
  {
    var i, j := Repeat(chain, |parents|);
    var cycle := chain[i..j + 1];
    forall k | 0 <= k < |cycle| - 1 ensures cycle[k + 1] in parents[cycle[k]] {
      assert cycle[k] == chain[i + k] && cycle[k + 1] == chain[i + k + 1];
    }
    assert Chain(parents, cycle) && |cycle| > 1 && cycle[0] == cycle[|cycle| - 1];
  }

  lemma {:induction false} Repeat(s: seq<nat>, n: nat) returns (i: nat, j: nat)
    requires |s| > n && forall k :: 0 <= k < |s| ==> s[k] < n
    ensures i < j < |s| && s[i] == s[j]
  {
    if forall k, l :: 0 <= k < l < |s| ==> s[k] != s[l] {
      ElementsSize(s);
      SubsetSize(Elements(s), Under(n));
      assert false;
    } else {
      i, j :| 0 <= i < j < |s| && s[i] == s[j];
    }
  }

  /** An interface that never finished has chains of every length. */
  lemma {:induction false} StuckChain(parents: seq<seq<nat>>, done: set<nat>, pending: seq<nat>, c: nat, edges: nat)
    requires InRange(parents) && Counts(parents, done, [], pending, multiset{}) && c < |parents| && c !in done
    ensures HasChain(parents, c, edges)
    decreases edges
  {
    if edges == 0 {
      ChainHere(parents, c);
    } else {
      hide HasChain;
      OpenExact(parents[c], done);
      var k :| 0 <= k < |parents[c]| && parents[c][k] !in done;
      StuckChain(parents, done, pending, parents[c][k], edges - 1);
      ChainUp(parents, c, parents[c][k], edges - 1);
    }
  }

  /** Once every interface is finished, depths bound every chain. */
  lemma {:induction false} FinishedChain(parents: seq<seq<nat>>, done: set<nat>, depth: seq<nat>, chain: seq<nat>,
                                         k: nat)
    requires Deeper(parents, done, depth) && (forall c :: 0 <= c < |parents| ==> c in done)
    requires Chain(parents, chain) && k < |chain|
    ensures depth[chain[0]] >= depth[chain[k]] + k
  {
    if k > 0 {
      FinishedChain(parents, done, depth, chain, k - 1);
      assert chain[k - 1 + 1] in parents[chain[k - 1]];
    }
  }

  lemma AcceptedBounded(parents: seq<seq<nat>>, done: set<nat>, depth: seq<nat>)
    requires Deeper(parents, done, depth) && (forall c :: 0 <= c < |parents| ==> c in done) && Depths(parents, depth)
    ensures Bounded(parents)
  {
    forall chain | Chain(parents, chain) ensures |chain| - 1 <= MAX_LEVELS {
      FinishedChain(parents, done, depth, chain, |chain| - 1);
      assert depth[chain[0]] <= MAX_LEVELS;
    }
  }

  lemma StuckCyclic(parents: seq<seq<nat>>, done: set<nat>, pending: seq<nat>)
    requires InRange(parents) && Counts(parents, done, [], pending, multiset{}) && Lines(|parents|, done, [])
    requires |done| != |parents|
    ensures HasCycle(parents)
  {
    if forall c :: c in Under(|parents|) ==> c in done {
      SubsetSize(done, Under(|parents|));
      SubsetSize(Under(|parents|), done);
      assert false;
    } else {
      var c :| c in Under(|parents|) && c !in done;
      StuckChain(parents, done, pending, c, |parents|);
      var chain :| Chain(parents, chain) && chain[0] == c && |chain| == |parents| + 1;
      LongChainCycles(parents, chain);
    }
  }

  method Start(parents: seq<seq<nat>>)
    returns (children: seq<seq<nat>>, queue: seq<nat>, pending: seq<nat>, depth: seq<nat>)
    requires InRange(parents)
    ensures Transposed(parents, children) && ChildrenInRange(children)
    ensures PassState(parents, {}, queue, pending, depth)
  {
    pending := seq(|parents|, i requires 0 <= i < |parents| => |parents[i]|);
    children := ChildLists(parents);
    queue := InitialQueue(pending);
    StartCounts(parents, pending, queue);
    assert forall i :: 0 <= i < |queue| ==> queue[i] in queue;
    depth := seq(|parents|, _ => 0);
    forall c | 0 <= c < |parents| ensures HasChain(parents, c, 0) { ChainHere(parents, c); }
  }

  datatype Verdict = Accepted | TooDeep | Cyclic

  /** The check accepts exactly the parent graphs with no chain of more than
      128 edges, and reports a cycle only when there is one. */
  method CheckInheritance(parents: seq<seq<nat>>) returns (v: Verdict)
    requires InRange(parents)
    ensures v == Accepted <==> Bounded(parents)
    ensures v == Cyclic ==> HasCycle(parents)
  {
    var children, queue, pending, depth := Start(parents);
    var finished := 0;
    ghost var done: set<nat> := {};
    hide Bounded, Transposed, InRange, Depths, Deeper, Counts;
    while queue != []
      invariant PassState(parents, done, queue, pending, depth) && finished == |done|
      decreases Under(|parents|) - done
    {
      ghost var p := queue[0];
      assert p in Under(|parents|) - done;
      finished := finished + 1;
      var fine;
      fine, queue, pending, depth := Finish(parents, children, done, queue, pending, depth);
      if !fine { return TooDeep; }
      done := done + {p};
    }
    if finished != |parents| {
      StuckCyclic(parents, done, pending);
      CycleUnbounded(parents);
      return Cyclic;
    }
    SubsetSize(done, Under(|parents|));
    AcceptedBounded(parents, done, depth);
    v := Accepted;
  }

  /** A cycle gives a chain past any bound, so it is never accepted. */
  lemma {:induction false} CycleUnrolls(parents: seq<seq<nat>>, cycle: seq<nat>, times: nat)
    requires Chain(parents, cycle) && |cycle| > 1 && cycle[0] == cycle[|cycle| - 1]
    ensures exists chain :: Chain(parents, chain) && chain[0] == cycle[0] && |chain| > times
    decreases times
  {
    if times == 0 {
      assert Chain(parents, cycle);
    } else {
      CycleUnrolls(parents, cycle, times - 1);
      var chain :| Chain(parents, chain) && chain[0] == cycle[0] && |chain| > times - 1;
      var longer := cycle[..|cycle| - 1] + chain;
      forall i | 0 <= i < |longer| - 1 ensures longer[i + 1] in parents[longer[i]] {
        if i < |cycle| - 1 {
          assert longer[i] == cycle[i] && longer[i + 1] == cycle[i + 1];
        } else {
          var j := i - (|cycle| - 1);
          assert longer[i] == chain[j] && longer[i + 1] == chain[j + 1];
        }
      }
      assert Chain(parents, longer) && longer[0] == cycle[0];
    }
  }

  /** Bounded inheritance is acyclic. */
  lemma CycleUnbounded(parents: seq<seq<nat>>)
    requires HasCycle(parents)
    ensures !Bounded(parents)
  {
    var cycle :| Chain(parents, cycle) && |cycle| > 1 && cycle[0] == cycle[|cycle| - 1];
    CycleUnrolls(parents, cycle, MAX_LEVELS + 1);
  }
}
