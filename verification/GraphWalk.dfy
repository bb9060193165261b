/** The explicit-stack graph walk over a heap of shaped objects. */
module GraphWalk {
  import opened Common

  /** `isText` is the tag bit that sends a reference to the text-view table. */
  datatype ObjRef = ObjRef(slot: nat, generation: nat, isText: bool)

  datatype Object = Object(children: seq<ObjRef>, cost: nat)

  datatype Entry = Entry(generation: nat, obj: Object)

  datatype Heap = Heap(normalSlots: nat, textSlots: nat, objects: map<nat, Entry>, texts: map<nat, Entry>)

  predicate InBounds(h: Heap, r: ObjRef) {
    if r.isText then r.slot < h.textSlots else r.slot < h.normalSlots
  }

  predicate AllInBounds(h: Heap, rs: seq<ObjRef>) {
    forall i :: 0 <= i < |rs| ==> InBounds(h, rs[i])
  }

  ghost predicate WellFormed(h: Heap) {
    && (forall s :: s in h.objects ==> AllInBounds(h, h.objects[s].obj.children))
    && (forall s :: s in h.texts ==> AllInBounds(h, h.texts[s].obj.children))
  }

  /** The live object a reference names, if its generation is current. */
  function Lookup(h: Heap, r: ObjRef): Option<Object> {
    var table := if r.isText then h.texts else h.objects;
    if r.slot in table && table[r.slot].generation == r.generation then Some(table[r.slot].obj) else None
  }

  /** The work-table index: text views follow the ordinary slots. */
  function Index(h: Heap, r: ObjRef): nat {
    if r.isText then h.normalSlots + r.slot else r.slot
  }

  lemma IndexExact(h: Heap, a: ObjRef, b: ObjRef)
    requires InBounds(h, a) && InBounds(h, b) && Index(h, a) == Index(h, b)
    ensures a.slot == b.slot && a.isText == b.isText
    ensures Lookup(h, a).Some? && Lookup(h, b).Some? ==> a == b
  {
  }

  ghost function Universe(h: Heap): set<nat> {
    Under(h.normalSlots + h.textSlots)
  }

  // ------------------------------------------------ recursive preorder

  ghost function Indices(h: Heap, rs: seq<ObjRef>): set<nat> {
    set i | 0 <= i < |rs| :: Index(h, rs[i])
  }

  lemma IndicesAppend(h: Heap, a: seq<ObjRef>, b: seq<ObjRef>)
    ensures Indices(h, a + b) == Indices(h, a) + Indices(h, b)
  {
    forall x | x in Indices(h, a) + Indices(h, b) ensures x in Indices(h, a + b) {
      if x in Indices(h, a) {
        var i :| 0 <= i < |a| && Index(h, a[i]) == x;
        assert (a + b)[i] == a[i];
      } else {
        var i :| 0 <= i < |b| && Index(h, b[i]) == x;
        assert (a + b)[|a| + i] == b[i];
      }
    }
  }

  /** The recursive preorder: each object at its first encounter, its
      children in declared order before its later siblings. `None` when a
      first encounter is not live. */
  ghost function Preorder(h: Heap, rs: seq<ObjRef>, seen: set<nat>): (out: Option<seq<ObjRef>>)
    requires WellFormed(h) && AllInBounds(h, rs)
    decreases Universe(h) - seen, |rs|
  {
    if rs == [] then Some([])
    else if Index(h, rs[0]) in seen then Preorder(h, rs[1..], seen)
    else
      match Lookup(h, rs[0])
      case None => None
      case Some(obj) =>
        var at := seen + {Index(h, rs[0])};
        assert Index(h, rs[0]) in Universe(h) - seen;
        var inner := Preorder(h, obj.children, at);
        if inner.None? then None
        else
          var outer := Preorder(h, rs[1..], at + Indices(h, inner.value));
          if outer.None? then None else Some([rs[0]] + inner.value + outer.value)
  }

  /** The three ways the preorder treats its first reference. */
  lemma PreorderFirst(h: Heap, rs: seq<ObjRef>, seen: set<nat>)
    requires WellFormed(h) && AllInBounds(h, rs) && rs != []
    ensures AllInBounds(h, rs[1..])
    ensures Index(h, rs[0]) in seen ==> Preorder(h, rs, seen) == Preorder(h, rs[1..], seen)
    ensures Index(h, rs[0]) !in seen && Lookup(h, rs[0]).None? ==> Preorder(h, rs, seen).None?
    ensures Index(h, rs[0]) !in seen && Lookup(h, rs[0]).Some? ==>
              var at, kids := seen + {Index(h, rs[0])}, Lookup(h, rs[0]).value.children;
              && AllInBounds(h, kids) && Index(h, rs[0]) in Universe(h)
              && var inner := Preorder(h, kids, at);
              && (inner.None? ==> Preorder(h, rs, seen).None?)
              && (inner.Some? ==>
                    var outer := Preorder(h, rs[1..], at + Indices(h, inner.value));
                    Preorder(h, rs, seen) == if outer.None? then None else Some([rs[0]] + inner.value + outer.value))
  {
    hide Indices;
  }

  /** The preorder of two lists is the preorder of the first followed by
      the preorder of the second over what the first has not reached. */
  lemma {:induction false} PreorderAppend(h: Heap, a: seq<ObjRef>, b: seq<ObjRef>, seen: set<nat>)
    requires WellFormed(h) && AllInBounds(h, a) && AllInBounds(h, b)
    ensures AllInBounds(h, a + b)
    ensures Preorder(h, a, seen).None? ==> Preorder(h, a + b, seen).None?
    ensures Preorder(h, a, seen).Some? ==>
              var first := Preorder(h, a, seen).value;
              var second := Preorder(h, b, seen + Indices(h, first));
              Preorder(h, a + b, seen) == if second.None? then None else Some(first + second.value)
    decreases Universe(h) - seen, |a|
  {
    hide Preorder, Indices, Universe;
    if a == [] {
      PreorderNone(h, seen);
      assert a + b == b;
      if Preorder(h, b, seen).Some? { assert [] + Preorder(h, b, seen).value == Preorder(h, b, seen).value; }
    } else {
      assert (a + b)[0] == a[0] && (a + b)[1..] == a[1..] + b;
      PreorderFirst(h, a, seen);
      PreorderFirst(h, a + b, seen);
      if Index(h, a[0]) in seen {
        PreorderAppend(h, a[1..], b, seen);
      } else if Lookup(h, a[0]).Some? {
        var at := seen + {Index(h, a[0])};
        var inner := Preorder(h, Lookup(h, a[0]).value.children, at);
        if inner.Some? {
          assert Index(h, a[0]) in Universe(h) - seen;
          var past := at + Indices(h, inner.value);
          PreorderAppend(h, a[1..], b, past);
          var outer := Preorder(h, a[1..], past);
          if outer.Some? {
            AppendSeen(h, seen, a[0], inner.value, outer.value);
            var second := Preorder(h, b, past + Indices(h, outer.value));
            if second.Some? {
              assert [a[0]] + inner.value + (outer.value + second.value)
                  == ([a[0]] + inner.value + outer.value) + second.value;
            }
          }
        }
      }
    }
  }

  lemma PreorderNone(h: Heap, seen: set<nat>)
    requires WellFormed(h)
    ensures Preorder(h, [], seen) == Some([]) && seen + Indices(h, []) == seen
  {
  }

  lemma AppendSeen(h: Heap, seen: set<nat>, r: ObjRef, inner: seq<ObjRef>, outer: seq<ObjRef>)
    ensures seen + {Index(h, r)} + Indices(h, inner) + Indices(h, outer) == seen + Indices(h, [r] + inner + outer)
  {
    IndicesAppend(h, [r], inner);
    IndicesAppend(h, [r] + inner, outer);
    assert Indices(h, [r]) == {Index(h, [r][0])};
  }

  /** One pop of an unseen live reference: emit it and continue with its
      children in front of what was pending. */
  lemma PreorderStep(h: Heap, r: ObjRef, rest: seq<ObjRef>, seen: set<nat>)
    requires WellFormed(h) && InBounds(h, r) && AllInBounds(h, rest)
    requires Index(h, r) !in seen && Lookup(h, r).Some?
    ensures AllInBounds(h, Lookup(h, r).value.children + rest)
    ensures var tail := Preorder(h, Lookup(h, r).value.children + rest, seen + {Index(h, r)});
            Preorder(h, [r] + rest, seen) == if tail.None? then None else Some([r] + tail.value)
  {
    var kids := Lookup(h, r).value.children;
    PreorderAppend(h, kids, rest, seen + {Index(h, r)});
    assert ([r] + rest)[1..] == rest;
    var inner := Preorder(h, kids, seen + {Index(h, r)});
    if inner.Some? {
      var outer := Preorder(h, rest, seen + {Index(h, r)} + Indices(h, inner.value));
      if outer.Some? { assert [r] + inner.value + outer.value == [r] + (inner.value + outer.value); }
    }
  }

  // ----------------------------------------------------- reachability

  ghost predicate ChildOf(h: Heap, parent: ObjRef, child: ObjRef) {
    Lookup(h, parent).Some? && child in Lookup(h, parent).value.children
  }

  /** `steps` child edges lead from a root to `r`. */
  ghost predicate ReachableIn(h: Heap, roots: seq<ObjRef>, r: ObjRef, steps: nat)
    decreases steps
  {
    if steps == 0 then r in roots
    else exists q :: ReachableIn(h, roots, q, steps - 1) && ChildOf(h, q, r)
  }

  ghost predicate Reachable(h: Heap, roots: seq<ObjRef>, r: ObjRef) {
    exists steps: nat :: ReachableIn(h, roots, r, steps)
  }

  lemma ReachableChild(h: Heap, roots: seq<ObjRef>, q: ObjRef, r: ObjRef)
    requires Reachable(h, roots, q) && ChildOf(h, q, r)
    ensures Reachable(h, roots, r)
  {
    var steps: nat :| ReachableIn(h, roots, q, steps);
    assert ReachableIn(h, roots, r, steps + 1);
  }

  /** Everything the preorder lists is live, in bounds and reachable. */
  lemma {:induction false} PreorderSound(h: Heap, roots: seq<ObjRef>, rs: seq<ObjRef>, seen: set<nat>, k: nat)
    requires WellFormed(h) && AllInBounds(h, rs)
    requires forall i :: 0 <= i < |rs| ==> Reachable(h, roots, rs[i])
    requires Preorder(h, rs, seen).Some? && k < |Preorder(h, rs, seen).value|
    ensures var r := Preorder(h, rs, seen).value[k];
            Reachable(h, roots, r) && InBounds(h, r) && Lookup(h, r).Some? && Index(h, r) !in seen
    decreases Universe(h) - seen, |rs|
  {
    if Index(h, rs[0]) in seen {
      PreorderSound(h, roots, rs[1..], seen, k);
    } else {
      hide Reachable;
      var kids, at := Lookup(h, rs[0]).value.children, seen + {Index(h, rs[0])};
      assert Index(h, rs[0]) in Universe(h) - seen;
      var inner := Preorder(h, kids, at).value;
      if 1 <= k < 1 + |inner| {
        forall i | 0 <= i < |kids| ensures Reachable(h, roots, kids[i]) { ReachableChild(h, roots, rs[0], kids[i]); }
        PreorderSound(h, roots, kids, at, k - 1);
      } else if k > 0 {
        PreorderSound(h, roots, rs[1..], at + Indices(h, inner), k - 1 - |inner|);
      }
    }
  }

  ghost predicate Distinct(h: Heap, order: seq<ObjRef>) {
    forall i, j :: 0 <= i < j < |order| ==> Index(h, order[i]) != Index(h, order[j])
  }

  lemma DistinctAppend(h: Heap, a: seq<ObjRef>, b: seq<ObjRef>)
    requires Distinct(h, a) && Distinct(h, b)
    requires forall j :: 0 <= j < |b| ==> Index(h, b[j]) !in Indices(h, a)
    ensures Distinct(h, a + b)
  {
    forall i, j | 0 <= i < |a| && 0 <= j < |b| ensures Index(h, a[i]) != Index(h, b[j]) {
      assert Index(h, a[i]) in Indices(h, a);
    }
  }

  /** Fresh: no listed index was seen before. */
  lemma {:induction false} PreorderFresh(h: Heap, rs: seq<ObjRef>, seen: set<nat>)
    requires WellFormed(h) && AllInBounds(h, rs) && Preorder(h, rs, seen).Some?
    ensures forall k :: 0 <= k < |Preorder(h, rs, seen).value| ==> Index(h, Preorder(h, rs, seen).value[k]) !in seen
  {
    forall i | 0 <= i < |rs| ensures Reachable(h, rs, rs[i]) { assert ReachableIn(h, rs, rs[i], 0); }
    forall k | 0 <= k < |Preorder(h, rs, seen).value| ensures Index(h, Preorder(h, rs, seen).value[k]) !in seen {
      PreorderSound(h, rs, rs, seen, k);
    }
  }

  /** No object is listed twice. */
  lemma {:induction false} PreorderDistinct(h: Heap, rs: seq<ObjRef>, seen: set<nat>)
    requires WellFormed(h) && AllInBounds(h, rs) && Preorder(h, rs, seen).Some?
    ensures Distinct(h, Preorder(h, rs, seen).value)
    decreases Universe(h) - seen, |rs|
  {
    if rs != [] {
      if Index(h, rs[0]) in seen {
        PreorderDistinct(h, rs[1..], seen);
      } else {
        var kids, at := Lookup(h, rs[0]).value.children, seen + {Index(h, rs[0])};
        assert Index(h, rs[0]) in Universe(h) - seen;
        var inner := Preorder(h, kids, at).value;
        var past := at + Indices(h, inner);
        PreorderDistinct(h, kids, at);
        PreorderFresh(h, kids, at);
        DistinctAppend(h, [rs[0]], inner);
        PreorderDistinct(h, rs[1..], past);
        PreorderFresh(h, rs[1..], past);
        AppendSeen(h, seen, rs[0], inner, []);
        assert [rs[0]] + inner + [] == [rs[0]] + inner;
        DistinctAppend(h, [rs[0]] + inner, Preorder(h, rs[1..], past).value);
      }
    }
  }

  /** `order` and `seen` together hold the children of everything listed. */
  ghost predicate ClosedIn(h: Heap, order: seq<ObjRef>, within: set<nat>) {
    forall k, c :: 0 <= k < |order| && ChildOf(h, order[k], c) ==> Index(h, c) in within
  }

  /** The preorder leaves nothing out: its inputs and all children of its
      output are covered. */
  lemma {:induction false} PreorderCovers(h: Heap, rs: seq<ObjRef>, seen: set<nat>)
    requires WellFormed(h) && AllInBounds(h, rs) && Preorder(h, rs, seen).Some?
    ensures var all := seen + Indices(h, Preorder(h, rs, seen).value);
            (forall i :: 0 <= i < |rs| ==> Index(h, rs[i]) in all) && ClosedIn(h, Preorder(h, rs, seen).value, all)
    decreases Universe(h) - seen, |rs|
  {
    if rs != [] {
      if Index(h, rs[0]) in seen {
        PreorderCovers(h, rs[1..], seen);
        assert forall i :: 1 <= i < |rs| ==> rs[i] == rs[1..][i - 1];
      } else {
        var kids, at := Lookup(h, rs[0]).value.children, seen + {Index(h, rs[0])};
        assert Index(h, rs[0]) in Universe(h) - seen;
        var inner := Preorder(h, kids, at).value;
        var outer := Preorder(h, rs[1..], at + Indices(h, inner)).value;
        PreorderCovers(h, kids, at);
        PreorderCovers(h, rs[1..], at + Indices(h, inner));
        AppendSeen(h, seen, rs[0], inner, outer);
        CoverJoin(h, rs, seen, inner, outer);
      }
    }
  }

  lemma CoverJoin(h: Heap, rs: seq<ObjRef>, seen: set<nat>, inner: seq<ObjRef>, outer: seq<ObjRef>)
    requires rs != [] && Lookup(h, rs[0]).Some?
    requires var at := seen + {Index(h, rs[0])};
      && (forall i :: 0 <= i < |Lookup(h, rs[0]).value.children| ==>
            Index(h, Lookup(h, rs[0]).value.children[i]) in at + Indices(h, inner))
      && ClosedIn(h, inner, at + Indices(h, inner))
      && (forall i :: 0 <= i < |rs[1..]| ==> Index(h, rs[1..][i]) in at + Indices(h, inner) + Indices(h, outer))
      && ClosedIn(h, outer, at + Indices(h, inner) + Indices(h, outer))
    ensures var all := seen + Indices(h, [rs[0]] + inner + outer);
      (forall i :: 0 <= i < |rs| ==> Index(h, rs[i]) in all) && ClosedIn(h, [rs[0]] + inner + outer, all)
  {
    var at := seen + {Index(h, rs[0])};
    var all := at + Indices(h, inner) + Indices(h, outer);
    AppendSeen(h, seen, rs[0], inner, outer);
    var order := [rs[0]] + inner + outer;
    forall i | 0 <= i < |rs| ensures Index(h, rs[i]) in all {
      if i > 0 { assert rs[i] == rs[1..][i - 1]; }
    }
    forall k, c | 0 <= k < |order| && ChildOf(h, order[k], c) ensures Index(h, c) in all {
      if k == 0 {
        var i :| 0 <= i < |Lookup(h, rs[0]).value.children| && Lookup(h, rs[0]).value.children[i] == c;
      } else if k < 1 + |inner| {
        assert order[k] == inner[k - 1];
      } else {
        assert order[k] == outer[k - 1 - |inner|];
      }
    }
  }

  /** Whatever is reachable has its slot listed, and is listed itself when it
      is live. */
  lemma {:induction false} ReachableInOrder(h: Heap, roots: seq<ObjRef>, order: seq<ObjRef>, r: ObjRef, steps: nat)
    requires WellFormed(h) && AllInBounds(h, roots) && Preorder(h, roots, {}) == Some(order)
    requires ReachableIn(h, roots, r, steps)
    ensures InBounds(h, r) && Index(h, r) in Indices(h, order) && (Lookup(h, r).Some? ==> r in order)
    decreases steps
  {
    PreorderCovers(h, roots, {});
    if steps == 0 {
      assert {} + Indices(h, order) == Indices(h, order);
    } else {
      var q :| ReachableIn(h, roots, q, steps - 1) && ChildOf(h, q, r);
      ReachableInOrder(h, roots, order, q, steps - 1);
    }
    assert Index(h, r) in Indices(h, order);
    var k :| 0 <= k < |order| && Index(h, order[k]) == Index(h, r);
    PreorderReaches(h, roots, order, k);
    IndexExact(h, order[k], r);
  }

  lemma PreorderReaches(h: Heap, roots: seq<ObjRef>, order: seq<ObjRef>, k: nat)
    requires WellFormed(h) && AllInBounds(h, roots) && Preorder(h, roots, {}) == Some(order) && k < |order|
    ensures Reachable(h, roots, order[k]) && InBounds(h, order[k]) && Lookup(h, order[k]).Some?
  {
    forall i | 0 <= i < |roots| ensures Reachable(h, roots, roots[i]) { assert ReachableIn(h, roots, roots[i], 0); }
    PreorderSound(h, roots, roots, {}, k);
  }

  /** What a preorder lists: each live reachable reference once, and with it
      the slot of every reachable reference. */
  ghost predicate ListsReachable(h: Heap, roots: seq<ObjRef>, order: seq<ObjRef>) {
    && Distinct(h, order)
    && (forall r :: r in order <==> Reachable(h, roots, r) && Lookup(h, r).Some?)
    && (forall r :: Reachable(h, roots, r) ==> InBounds(h, r) && Index(h, r) in Indices(h, order))
  }

  /** A preorder lists exactly the live reachable references. A dead one is
      reachable only in the slot of a listed one. */
  lemma PreorderIsReachableSet(h: Heap, roots: seq<ObjRef>, order: seq<ObjRef>)
    requires WellFormed(h) && AllInBounds(h, roots) && Preorder(h, roots, {}) == Some(order)
    ensures ListsReachable(h, roots, order)
  {
    PreorderDistinct(h, roots, {});
    forall r | r in order ensures Reachable(h, roots, r) && Lookup(h, r).Some? {
      var k :| 0 <= k < |order| && order[k] == r;
      PreorderReaches(h, roots, order, k);
    }
    forall r | Reachable(h, roots, r)
      ensures InBounds(h, r) && Index(h, r) in Indices(h, order) && (Lookup(h, r).Some? ==> r in order)
    {
      var steps: nat :| ReachableIn(h, roots, r, steps);
      ReachableInOrder(h, roots, order, r, steps);
    }
  }

  ghost predicate AllLive(h: Heap, roots: seq<ObjRef>) {
    forall r :: Reachable(h, roots, r) ==> Lookup(h, r).Some?
  }

  /** No two reachable references share a slot. */
  ghost predicate OneNameEach(h: Heap, roots: seq<ObjRef>) {
    forall a, b :: Reachable(h, roots, a) && Reachable(h, roots, b) && Index(h, a) == Index(h, b) ==> a == b
  }

  /** A listed graph is all live exactly when no slot is reached under two
      names: the dead reference that a walk passes over has a live namesake. */
  lemma ListedAllLive(h: Heap, roots: seq<ObjRef>, order: seq<ObjRef>)
    requires ListsReachable(h, roots, order)
    ensures AllLive(h, roots) <==> OneNameEach(h, roots)
  {
    hide Reachable;
    if AllLive(h, roots) {
      forall a, b | Reachable(h, roots, a) && Reachable(h, roots, b) && Index(h, a) == Index(h, b) ensures a == b {
        IndexExact(h, a, b);
      }
    }
    if OneNameEach(h, roots) {
      forall r | Reachable(h, roots, r) ensures Lookup(h, r).Some? {
        var k :| 0 <= k < |order| && Index(h, order[k]) == Index(h, r);
        assert order[k] in order;
      }
    }
  }

  /** Live references never make the preorder fail. */
  lemma {:induction false} LivePreorder(h: Heap, roots: seq<ObjRef>, rs: seq<ObjRef>, seen: set<nat>)
    requires WellFormed(h) && AllInBounds(h, rs) && AllLive(h, roots)
    requires forall i :: 0 <= i < |rs| ==> Reachable(h, roots, rs[i])
    ensures Preorder(h, rs, seen).Some?
    decreases Universe(h) - seen, |rs|
  {
    if rs != [] {
      if Index(h, rs[0]) in seen {
        LivePreorder(h, roots, rs[1..], seen);
      } else {
        assert Lookup(h, rs[0]).Some?;
        hide Reachable;
        var kids, at := Lookup(h, rs[0]).value.children, seen + {Index(h, rs[0])};
        assert Index(h, rs[0]) in Universe(h) - seen;
        forall i | 0 <= i < |kids| ensures Reachable(h, roots, kids[i]) { ReachableChild(h, roots, rs[0], kids[i]); }
        LivePreorder(h, roots, kids, at);
        LivePreorder(h, roots, rs[1..], at + Indices(h, Preorder(h, kids, at).value));
      }
    }
  }

  // ------------------------------------------------------------ totals

  datatype GraphLimits = GraphLimits(maxObjects: nat, maxEdges: nat, maxBytes: nat, maxWork: nat)

  datatype GraphCost = GraphCost(objects: nat, edges: nat, bytes: nat, work: nat)

  datatype Fault = BoundaryLimit | BoundaryViolation | Rejected(code: nat)

  datatype WalkResult = Done(cost: GraphCost) | Failed(fault: Fault)

  function EdgesOf(h: Heap, r: ObjRef): nat {
    match Lookup(h, r) case None => 0 case Some(o) => |o.children|
  }

  function BytesOf(h: Heap, r: ObjRef): nat {
    match Lookup(h, r) case None => 0 case Some(o) => o.cost
  }

  ghost function Edges(h: Heap, order: seq<ObjRef>): nat {
    if order == [] then 0 else Edges(h, order[..|order| - 1]) + EdgesOf(h, order[|order| - 1])
  }

  ghost function Bytes(h: Heap, order: seq<ObjRef>): nat {
    if order == [] then 0 else Bytes(h, order[..|order| - 1]) + BytesOf(h, order[|order| - 1])
  }

  lemma {:induction false} TotalsAppend(h: Heap, a: seq<ObjRef>, b: seq<ObjRef>)
    ensures Edges(h, a + b) >= Edges(h, a) && Bytes(h, a + b) >= Bytes(h, a)
    decreases |b|
  {
    if b == [] {
      assert a + b == a;
    } else {
      var last := |b| - 1;
      TotalsAppend(h, a, b[..last]);
      assert (a + b)[..|a + b| - 1] == a + b[..last];
    }
  }

  lemma TotalsSnoc(h: Heap, a: seq<ObjRef>, r: ObjRef)
    ensures Edges(h, a + [r]) == Edges(h, a) + EdgesOf(h, r)
    ensures Bytes(h, a + [r]) == Bytes(h, a) + BytesOf(h, r)
  {
    assert (a + [r])[..|a|] == a;
  }

  /** The cost of the whole reachable graph. */
  ghost function TotalCost(h: Heap, roots: seq<ObjRef>, order: seq<ObjRef>): GraphCost {
    GraphCost(|order|, Edges(h, order), Bytes(h, order), |roots| + Edges(h, order))
  }

  ghost predicate Within(cost: GraphCost, limits: GraphLimits) {
    && cost.objects <= limits.maxObjects && cost.edges <= limits.maxEdges
    && cost.bytes <= limits.maxBytes && cost.work <= limits.maxWork
  }

  /** A visitor answers from the objects it has entered and the next one. */
  type Visitor = (seq<ObjRef>, ObjRef) -> Option<Fault>

  ghost predicate Accepts(visit: Visitor, order: seq<ObjRef>) {
    forall k :: 0 <= k < |order| ==> visit(order[..k], order[k]).None?
  }

  // ------------------------------------------------------------ scratch

  /** The reusable identity table: a slot is seen when its stamp is the
      current epoch. */
  class GraphScratch {
    var epoch: nat
    var normalSlots: nat
    var seen: seq<nat>
    var ordinal: seq<nat>
    var order: seq<ObjRef>

    ghost predicate Valid()
      reads this
    {
      && epoch < 0x1_0000_0000
      && |seen| == |ordinal|
      && forall i :: 0 <= i < |seen| ==> seen[i] <= epoch
    }

    /** The stamped slots are those of `order`, numbered by position. */
    ghost predicate Tracks(h: Heap)
      reads this
    {
      && Valid() && normalSlots == h.normalSlots && |seen| >= h.normalSlots + h.textSlots
      && (forall k :: 0 <= k < |order| ==> InBounds(h, order[k]))
      && (forall i :: 0 <= i < |seen| ==> (seen[i] == epoch <==> i in Indices(h, order)))
      && (forall k :: 0 <= k < |order| ==> Index(h, order[k]) < |ordinal| && ordinal[Index(h, order[k])] == k)
    }

    constructor ()
      ensures Valid()
    {
      epoch, normalSlots, seen, ordinal, order := 0, 0, [], [], [];
    }

    /** Start one walk: the epoch step forgets every earlier stamp, also
        when the 32-bit epoch wraps. */
    method Begin(h: Heap)
      requires Valid()
      modifies this
      ensures Tracks(h) && order == []
    {
      var slots := h.normalSlots + h.textSlots;
      if |seen| < slots {
        seen := seen + seq(slots - |seen|, _ => 0);
        ordinal := ordinal + seq(slots - |ordinal|, _ => 0);
      }
      normalSlots := h.normalSlots;
      epoch := (epoch + 1) % 0x1_0000_0000;
      if epoch == 0 {
        seen := seq(|seen|, _ => 0);
        epoch := 1;
      }
      order := [];
    }

    method Seen(h: Heap, r: ObjRef) returns (b: bool)
      requires Tracks(h) && InBounds(h, r)
      ensures b <==> Index(h, r) in Indices(h, order)
    {
      var index := if r.isText then normalSlots + r.slot else r.slot;
      b := seen[index] == epoch;
    }

    /** Record a first encounter and return its canonical ordinal. */
    method Record(h: Heap, r: ObjRef) returns (at: nat)
      requires Tracks(h) && InBounds(h, r) && Index(h, r) !in Indices(h, order)
      modifies this
      ensures Tracks(h) && order == old(order) + [r] && at == |old(order)|
    {
      at := |order|;
      var index := if r.isText then normalSlots + r.slot else r.slot;
      IndicesAppend(h, order, [r]);
      assert Indices(h, [r]) == {Index(h, [r][0])};
      forall k | 0 <= k < |order| ensures Index(h, order[k]) != index {
        assert Index(h, order[k]) in Indices(h, order);
      }
      seen := seen[index := epoch];
      ordinal := ordinal[index := at];
      order := order + [r];
    }
  }

  // --------------------------------------------------------------- walk

  /** Push a list so that its first member pops first. */
  method PushReversed(stack: seq<ObjRef>, rs: seq<ObjRef>) returns (out: seq<ObjRef>)
    ensures Pending(out) == rs + Pending(stack)
    ensures |out| == |rs| + |stack|
  {
    out := stack;
    var i := |rs|;
    while i > 0
      invariant 0 <= i <= |rs|
      invariant Pending(out) == rs[i..] + Pending(stack)
    {
      i := i - 1;
      PendingPush(out, rs[i]);
      out := out + [rs[i]];
      assert rs[i..] == [rs[i]] + rs[i + 1..];
    }
    assert |Pending(out)| == |rs| + |stack|;
  }

  /** What remains to be listed, joined to what is already listed. */
  ghost predicate Splits(h: Heap, roots: seq<ObjRef>, order: seq<ObjRef>, pending: seq<ObjRef>)
    requires WellFormed(h) && AllInBounds(h, roots) && AllInBounds(h, pending)
  {
    var rest := Preorder(h, pending, Indices(h, order));
    Preorder(h, roots, {}) == if rest.None? then None else Some(order + rest.value)
  }

  lemma SplitsSkip(h: Heap, roots: seq<ObjRef>, order: seq<ObjRef>, pending: seq<ObjRef>)
    requires WellFormed(h) && AllInBounds(h, roots) && AllInBounds(h, pending) && pending != []
    requires Splits(h, roots, order, pending) && Index(h, pending[0]) in Indices(h, order)
    ensures Splits(h, roots, order, pending[1..])
  {
  }

  lemma SplitsStep(h: Heap, roots: seq<ObjRef>, order: seq<ObjRef>, r: ObjRef, rest: seq<ObjRef>)
    requires WellFormed(h) && AllInBounds(h, roots) && InBounds(h, r) && AllInBounds(h, rest)
    requires AllInBounds(h, [r] + rest) && Splits(h, roots, order, [r] + rest)
    requires Index(h, r) !in Indices(h, order) && Lookup(h, r).Some?
    ensures AllInBounds(h, Lookup(h, r).value.children + rest)
    ensures Splits(h, roots, order + [r], Lookup(h, r).value.children + rest)
  {
    PreorderStep(h, r, rest, Indices(h, order));
    IndicesAppend(h, order, [r]);
    assert Indices(h, [r]) == {Index(h, [r][0])};
    var tail := Preorder(h, Lookup(h, r).value.children + rest, Indices(h, order) + {Index(h, r)});
    if tail.Some? { assert order + ([r] + tail.value) == (order + [r]) + tail.value; }
  }

  lemma SplitsDead(h: Heap, roots: seq<ObjRef>, order: seq<ObjRef>, pending: seq<ObjRef>)
    requires WellFormed(h) && AllInBounds(h, roots) && AllInBounds(h, pending) && pending != []
    requires Splits(h, roots, order, pending)
    requires Index(h, pending[0]) !in Indices(h, order) && Lookup(h, pending[0]).None?
    ensures Preorder(h, roots, {}).None?
    ensures forall limits, visit :: !Admissible(h, roots, limits, visit)
  {
  }

  /** The charge of a partial walk never exceeds the final charge. */
  lemma PartialWithin(h: Heap, roots: seq<ObjRef>, order: seq<ObjRef>, pending: seq<ObjRef>)
    requires WellFormed(h) && AllInBounds(h, roots) && AllInBounds(h, pending)
    requires Splits(h, roots, order, pending) && Preorder(h, roots, {}).Some?
    ensures var all := Preorder(h, roots, {}).value;
            order <= all && |order| <= |all| && Edges(h, order) <= Edges(h, all) && Bytes(h, order) <= Bytes(h, all)
  {
    TotalsAppend(h, order, Preorder(h, pending, Indices(h, order)).value);
  }

  /** The condition for success, in terms of the recursive preorder. */
  ghost predicate Admissible(h: Heap, roots: seq<ObjRef>, limits: GraphLimits, visit: Visitor)
    requires WellFormed(h) && AllInBounds(h, roots)
  {
    var all := Preorder(h, roots, {});
    all.Some? && Accepts(visit, all.value) && Within(TotalCost(h, roots, all.value), limits)
  }

  lemma RefusedByLimit(h: Heap, roots: seq<ObjRef>, limits: GraphLimits, visit: Visitor,
                       order: seq<ObjRef>, pending: seq<ObjRef>, work: nat)
    requires WellFormed(h) && AllInBounds(h, roots) && AllInBounds(h, pending)
    requires Splits(h, roots, order, pending)
    requires work <= |roots| + Edges(h, order)
    requires |order| > limits.maxObjects || Edges(h, order) > limits.maxEdges || Bytes(h, order) > limits.maxBytes
             || work > limits.maxWork
    ensures !Admissible(h, roots, limits, visit)
  {
    if Preorder(h, roots, {}).Some? { PartialWithin(h, roots, order, pending); }
  }

  lemma RefusedByVisitor(h: Heap, roots: seq<ObjRef>, visit: Visitor,
                         order: seq<ObjRef>, r: ObjRef, pending: seq<ObjRef>)
    requires WellFormed(h) && AllInBounds(h, roots) && AllInBounds(h, pending)
    requires Splits(h, roots, order + [r], pending) && visit(order, r).Some?
    ensures Preorder(h, roots, {}).Some? ==> !Accepts(visit, Preorder(h, roots, {}).value)
    ensures forall limits :: !Admissible(h, roots, limits, visit)
  {
    if Preorder(h, roots, {}).Some? {
      var all := Preorder(h, roots, {}).value;
      assert all[..|order|] == order && all[|order|] == r;
    }
  }

  lemma AcceptsSnoc(visit: Visitor, order: seq<ObjRef>, r: ObjRef)
    requires Accepts(visit, order) && visit(order, r).None?
    ensures Accepts(visit, order + [r])
  {
    var all := order + [r];
    forall k | 0 <= k < |all| ensures visit(all[..k], all[k]).None? {
      assert all[..k] == order[..k];
      assert order[..|order|] == order;
    }
  }

  /** The running charge after `order`, with `waiting` references pushed
      and not yet popped. */
  ghost predicate Charged(h: Heap, roots: seq<ObjRef>, limits: GraphLimits, order: seq<ObjRef>, waiting: nat,
                          cost: GraphCost) {
    && cost.objects == |order| && cost.edges == Edges(h, order) && cost.bytes == Bytes(h, order)
    && cost.work + waiting == |roots| + cost.edges
    && Within(cost, limits)
  }

  lemma WalkFinished(h: Heap, roots: seq<ObjRef>, limits: GraphLimits, visit: Visitor, order: seq<ObjRef>,
                     cost: GraphCost)
    requires WellFormed(h) && AllInBounds(h, roots) && Splits(h, roots, order, [])
    requires Accepts(visit, order) && Charged(h, roots, limits, order, 0, cost)
    ensures Preorder(h, roots, {}) == Some(order) && Admissible(h, roots, limits, visit)
    ensures cost == TotalCost(h, roots, order)
  {
    assert order + [] == order;
  }

  lemma SplitsStart(h: Heap, roots: seq<ObjRef>)
    requires WellFormed(h) && AllInBounds(h, roots)
    ensures Splits(h, roots, [], roots)
  {
    assert Indices(h, []) == {};
    if Preorder(h, roots, {}).Some? { assert [] + Preorder(h, roots, {}).value == Preorder(h, roots, {}).value; }
  }

  lemma MeasureDrops(h: Heap, order: seq<ObjRef>, r: ObjRef)
    requires InBounds(h, r) && Index(h, r) !in Indices(h, order)
    ensures Universe(h) - Indices(h, order + [r]) < Universe(h) - Indices(h, order)
  {
    IndicesAppend(h, order, [r]);
    assert Index(h, r) == Index(h, [r][0]);
    assert Index(h, r) in Indices(h, [r]);
    assert Index(h, r) in Universe(h);
  }

  /** What one pop does: stop with an answer, or go on. `order` is what the
      scratch lists then. */
  datatype Turn =
    | Stop(order: seq<ObjRef>, result: WalkResult)
    | Go(order: seq<ObjRef>, pending: seq<ObjRef>, cost: GraphCost)

  const NO_COST := GraphCost(0, 0, 0, 0)

  /** The first encounter of a live object: objects and bytes are charged, then
      the visitor is asked, then edges are charged. */
  ghost function EnterTurn(limits: GraphLimits, visit: Visitor, order: seq<ObjRef>, r: ObjRef, obj: Object,
                           rest: seq<ObjRef>, cost: GraphCost): Turn {
    var entered := cost.(objects := cost.objects + 1, bytes := cost.bytes + obj.cost);
    if entered.objects > limits.maxObjects || entered.bytes > limits.maxBytes then Stop(order, Failed(BoundaryLimit))
    else
      var verdict := visit(order, r);
      if verdict.Some? then Stop(order + [r], Failed(verdict.value))
      else
        var linked := entered.(edges := entered.edges + |obj.children|);
        if linked.edges > limits.maxEdges then Stop(order + [r], Failed(BoundaryLimit))
        else Go(order + [r], obj.children + rest, linked)
  }

  /** One pop: work is charged first; a seen slot is skipped; a dead reference
      is a violation. */
  ghost function PopTurn(h: Heap, limits: GraphLimits, visit: Visitor, order: seq<ObjRef>, pending: seq<ObjRef>,
                         cost: GraphCost): Turn
    requires pending != []
  {
    var r, rest, worked := pending[0], pending[1..], cost.(work := cost.work + 1);
    if worked.work > limits.maxWork then Stop(order, Failed(BoundaryLimit))
    else if Index(h, r) in Indices(h, order) then Go(order, rest, worked)
    else
      match Lookup(h, r)
      case None => Stop(order, Failed(BoundaryViolation))
      case Some(obj) => EnterTurn(limits, visit, order, r, obj, rest, worked)
  }

  datatype Answer = Answer(order: seq<ObjRef>, result: WalkResult)

  /** The answer of a walk: the listed objects with the total charge, or the
      first fault in traversal order with what was listed before it. */
  ghost function Traverse(h: Heap, limits: GraphLimits, visit: Visitor, order: seq<ObjRef>, pending: seq<ObjRef>,
                          cost: GraphCost): Answer
    requires WellFormed(h) && AllInBounds(h, pending)
    decreases Universe(h) - Indices(h, order), |pending|
  {
    if pending == [] then Answer(order, Done(cost))
    else
      TurnLower(h, limits, visit, order, pending, cost);
      match PopTurn(h, limits, visit, order, pending, cost)
      case Stop(listed, result) => Answer(listed, result)
      case Go(listed, next, charged) => Traverse(h, limits, visit, listed, next, charged)
  }

  /** Going on lists a new slot, or leaves fewer references waiting. */
  lemma TurnLower(h: Heap, limits: GraphLimits, visit: Visitor, order: seq<ObjRef>, pending: seq<ObjRef>,
                  cost: GraphCost)
    requires WellFormed(h) && AllInBounds(h, pending) && pending != []
    ensures var turn := PopTurn(h, limits, visit, order, pending, cost);
      turn.Go? ==>
        && AllInBounds(h, turn.pending)
        && (|| Universe(h) - Indices(h, turn.order) < Universe(h) - Indices(h, order)
            || (turn.order == order && |turn.pending| < |pending|))
  {
    hide Indices, Universe;
    var turn := PopTurn(h, limits, visit, order, pending, cost);
    if turn.Go? && turn.order != order { MeasureDrops(h, order, pending[0]); }
  }

  /** What one walk promises about its answer and its scratch order. */
  ghost predicate WalkSpec(h: Heap, roots: seq<ObjRef>, limits: GraphLimits, visit: Visitor,
                           order: seq<ObjRef>, result: WalkResult)
    requires WellFormed(h) && AllInBounds(h, roots)
  {
    && (result.Done? <==> Admissible(h, roots, limits, visit))
    && (result.Done? ==> Preorder(h, roots, {}) == Some(order) && result.cost == TotalCost(h, roots, order))
    && (Preorder(h, roots, {}).Some? && Accepts(visit, Preorder(h, roots, {}).value) && result.Failed? ==>
          result.fault == BoundaryLimit)
  }

  /** The loop state between two pops. */
  ghost predicate Walking(h: Heap, roots: seq<ObjRef>, limits: GraphLimits, visit: Visitor,
                          order: seq<ObjRef>, pending: seq<ObjRef>, cost: GraphCost)
    requires WellFormed(h) && AllInBounds(h, roots)
  {
    && AllInBounds(h, pending) && Splits(h, roots, order, pending)
    && Charged(h, roots, limits, order, |pending|, cost) && Accepts(visit, order)
  }

  /** The first encounter of one live object. */
  method Enter(h: Heap, scratch: GraphScratch, limits: GraphLimits, visit: Visitor, r: ObjRef, obj: Object,
               ghost rest: seq<ObjRef>, cost: GraphCost)
    returns (fault: Option<Fault>, charged: GraphCost)
    requires scratch.Tracks(h) && InBounds(h, r) && Index(h, r) !in Indices(h, scratch.order)
    modifies scratch
    ensures scratch.Tracks(h)
    ensures match EnterTurn(limits, visit, old(scratch.order), r, obj, rest, cost)
            case Stop(listed, result) => fault.Some? && scratch.order == listed && result == Failed(fault.value)
            case Go(listed, next, total) =>
              fault.None? && scratch.order == listed && next == obj.children + rest && charged == total
  {
    hide GraphScratch.Tracks, Indices;
    var before := scratch.order;
    charged := cost.(objects := cost.objects + 1, bytes := cost.bytes + obj.cost);
    if charged.objects > limits.maxObjects || charged.bytes > limits.maxBytes { return Some(BoundaryLimit), charged; }
    var ordinal := scratch.Record(h, r);
    var verdict := visit(before, r);
    if verdict.Some? { return verdict, charged; }
    charged := charged.(edges := charged.edges + |obj.children|);
    if charged.edges > limits.maxEdges { return Some(BoundaryLimit), charged; }
    fault := None;
  }

  /** Walk the graph under `roots` in canonical order. */
  method Walk(h: Heap, scratch: GraphScratch, roots: seq<ObjRef>, limits: GraphLimits, visit: Visitor)
    returns (result: WalkResult)
    requires WellFormed(h) && AllInBounds(h, roots) && scratch.Valid()
    modifies scratch
    ensures Traverse(h, limits, visit, [], roots, NO_COST) == Answer(scratch.order, result)
    ensures scratch.Tracks(h)
  {
    hide WellFormed, Traverse, EnterTurn, Indices, Universe, AllInBounds, GraphScratch.Tracks, GraphScratch.Valid;
    scratch.Begin(h);
    var cost := NO_COST;
    var stack := PushReversed([], roots);
    assert Pending(stack) == roots;
    ghost var answer := Traverse(h, limits, visit, [], roots, NO_COST);
    while |stack| > 0
      invariant scratch.Tracks(h) && AllInBounds(h, Pending(stack))
      invariant Traverse(h, limits, visit, scratch.order, Pending(stack), cost) == answer
      decreases Universe(h) - Indices(h, scratch.order), |stack|
    {
      var r := stack[|stack| - 1];
      ghost var pending, order := Pending(stack), scratch.order;
      stack := stack[..|stack| - 1];
      assert pending[0] == r && pending[1..] == Pending(stack);
      TraverseOpens(h, limits, visit, order, pending, cost);
      TurnLower(h, limits, visit, order, pending, cost);
      HeadInBounds(h, pending);
      cost := cost.(work := cost.work + 1);
      if cost.work > limits.maxWork { return Failed(BoundaryLimit); }
      var seen := scratch.Seen(h, r);
      if seen { continue; }
      var found := Lookup(h, r);
      if found.None? { return Failed(BoundaryViolation); }
      var fault;
      fault, cost := Enter(h, scratch, limits, visit, r, found.value, Pending(stack), cost);
      if fault.Some? { return Failed(fault.value); }
      MeasureDrops(h, order, r);
      stack := PushReversed(stack, found.value.children);
    }
    assert Pending(stack) == [];
    TraverseEnds(h, limits, visit, scratch.order, cost);
    result := Done(cost);
  }

  lemma TraverseEnds(h: Heap, limits: GraphLimits, visit: Visitor, order: seq<ObjRef>, cost: GraphCost)
    requires WellFormed(h)
    ensures AllInBounds(h, []) && Traverse(h, limits, visit, order, [], cost) == Answer(order, Done(cost))
  {
    hide Indices, Universe;
  }

  /** One unfolding of the answer. */
  lemma TraverseOpens(h: Heap, limits: GraphLimits, visit: Visitor, order: seq<ObjRef>, pending: seq<ObjRef>,
                      cost: GraphCost)
    requires WellFormed(h) && AllInBounds(h, pending) && pending != []
    ensures match PopTurn(h, limits, visit, order, pending, cost)
            case Stop(listed, result) => Traverse(h, limits, visit, order, pending, cost) == Answer(listed, result)
            case Go(listed, next, charged) =>
              && AllInBounds(h, next)
              && Traverse(h, limits, visit, order, pending, cost) == Traverse(h, limits, visit, listed, next, charged)
  {
    hide Indices, Universe, PopTurn;
    TurnLower(h, limits, visit, order, pending, cost);
  }

  lemma HeadInBounds(h: Heap, pending: seq<ObjRef>)
    requires AllInBounds(h, pending) && pending != []
    ensures InBounds(h, pending[0]) && AllInBounds(h, pending[1..])
  {
  }

  // --------------------------------------------------- what the answer means

  /** Entering one live object stops with a refused graph, or keeps the loop
      state. */
  lemma EnterMeets(h: Heap, roots: seq<ObjRef>, limits: GraphLimits, visit: Visitor, order: seq<ObjRef>, r: ObjRef,
                   rest: seq<ObjRef>, cost: GraphCost)
    requires WellFormed(h) && AllInBounds(h, roots) && InBounds(h, r) && AllInBounds(h, rest)
    requires AllInBounds(h, [r] + rest)
    requires Splits(h, roots, order, [r] + rest) && Accepts(visit, order)
    requires Index(h, r) !in Indices(h, order) && Lookup(h, r).Some?
    requires Charged(h, roots, limits, order, |rest|, cost)
    ensures match EnterTurn(limits, visit, order, r, Lookup(h, r).value, rest, cost)
            case Stop(listed, result) => WalkSpec(h, roots, limits, visit, listed, result)
            case Go(listed, next, charged) => Walking(h, roots, limits, visit, listed, next, charged)
  {
    hide WellFormed, Preorder, Splits, Edges, Bytes, Admissible, Accepts, Indices;
    var obj := Lookup(h, r).value;
    var next := obj.children + rest;
    SplitsStep(h, roots, order, r, rest);
    TotalsSnoc(h, order, r);
    var entered := cost.(objects := cost.objects + 1, bytes := cost.bytes + obj.cost);
    if entered.objects > limits.maxObjects || entered.bytes > limits.maxBytes {
      RefusedByLimit(h, roots, limits, visit, order + [r], next, 0);
    } else if visit(order, r).Some? {
      RefusedByVisitor(h, roots, visit, order, r, next);
    } else {
      AcceptsSnoc(visit, order, r);
      if entered.edges + |obj.children| > limits.maxEdges {
        RefusedByLimit(h, roots, limits, visit, order + [r], next, 0);
      }
    }
  }

  /** One pop keeps the loop state, or stops with a refused graph. */
  lemma PopMeets(h: Heap, roots: seq<ObjRef>, limits: GraphLimits, visit: Visitor, order: seq<ObjRef>,
                 pending: seq<ObjRef>, cost: GraphCost)
    requires WellFormed(h) && AllInBounds(h, roots) && pending != []
    requires Walking(h, roots, limits, visit, order, pending, cost)
    ensures match PopTurn(h, limits, visit, order, pending, cost)
            case Stop(listed, result) => WalkSpec(h, roots, limits, visit, listed, result)
            case Go(listed, next, charged) => Walking(h, roots, limits, visit, listed, next, charged)
  {
    hide WellFormed, Preorder, Splits, Edges, Bytes, Admissible, Accepts, Indices, EnterTurn;
    var r, rest := pending[0], pending[1..];
    assert pending == [r] + rest;
    HeadInBounds(h, pending);
    if cost.work + 1 > limits.maxWork {
      RefusedByLimit(h, roots, limits, visit, order, pending, cost.work + 1);
    } else if Index(h, r) in Indices(h, order) {
      SplitsSkip(h, roots, order, pending);
    } else if Lookup(h, r).None? {
      SplitsDead(h, roots, order, pending);
    } else {
      EnterMeets(h, roots, limits, visit, order, r, rest, cost.(work := cost.work + 1));
    }
  }

  lemma {:induction false} TraverseMeets(h: Heap, roots: seq<ObjRef>, limits: GraphLimits, visit: Visitor,
                                         order: seq<ObjRef>, pending: seq<ObjRef>, cost: GraphCost)
    requires WellFormed(h) && AllInBounds(h, roots) && Walking(h, roots, limits, visit, order, pending, cost)
    ensures var a := Traverse(h, limits, visit, order, pending, cost);
      WalkSpec(h, roots, limits, visit, a.order, a.result)
    decreases Universe(h) - Indices(h, order), |pending|
  {
    hide WellFormed, Traverse, PopTurn, Splits, Charged, Accepts, WalkSpec, Indices, Universe;
    if pending == [] {
      TraverseEnds(h, limits, visit, order, cost);
      FinishMeets(h, roots, limits, visit, order, cost);
    } else {
      TraverseOpens(h, limits, visit, order, pending, cost);
      TurnLower(h, limits, visit, order, pending, cost);
      PopMeets(h, roots, limits, visit, order, pending, cost);
      match PopTurn(h, limits, visit, order, pending, cost)
      case Stop(_, _) =>
      case Go(listed, next, charged) => TraverseMeets(h, roots, limits, visit, listed, next, charged);
    }
  }

  lemma FinishMeets(h: Heap, roots: seq<ObjRef>, limits: GraphLimits, visit: Visitor, order: seq<ObjRef>,
                    cost: GraphCost)
    requires WellFormed(h) && AllInBounds(h, roots) && Walking(h, roots, limits, visit, order, [], cost)
    ensures WalkSpec(h, roots, limits, visit, order, Done(cost))
  {
    hide WellFormed, Preorder, Splits, Charged, Accepts, Admissible;
    WalkFinished(h, roots, limits, visit, order, cost);
  }

  /** The answer of a walk, in terms of the recursive preorder: it is done
      exactly when the preorder is live, the visitor accepts all of it and its
      totals are within the limits; it then lists the preorder with its total
      cost. */
  lemma WalkMeans(h: Heap, roots: seq<ObjRef>, limits: GraphLimits, visit: Visitor)
    requires WellFormed(h) && AllInBounds(h, roots)
    ensures var a := Traverse(h, limits, visit, [], roots, NO_COST);
      WalkSpec(h, roots, limits, visit, a.order, a.result)
  {
    hide WellFormed, Traverse, Splits, WalkSpec;
    SplitsStart(h, roots);
    TraverseMeets(h, roots, limits, visit, [], roots, NO_COST);
  }

  /** The listed objects, with the next reachable one, are past a limit. */
  ghost predicate PastLimit(h: Heap, roots: seq<ObjRef>, limits: GraphLimits, order: seq<ObjRef>) {
    || |roots| + Edges(h, order) > limits.maxWork || Edges(h, order) > limits.maxEdges
    || exists r :: Unlisted(h, roots, order, r) && Lookup(h, r).Some? &&
         (|order| + 1 > limits.maxObjects || Bytes(h, order) + BytesOf(h, r) > limits.maxBytes)
  }

  /** Reachable, in a slot that is not listed. */
  ghost predicate Unlisted(h: Heap, roots: seq<ObjRef>, order: seq<ObjRef>, r: ObjRef) {
    Reachable(h, roots, r) && Index(h, r) !in Indices(h, order)
  }

  /** Why a walk stopped: a limit is passed by what is listed and the next
      object; a dead reference is reached in a slot that is not listed; or the
      visitor refused the object listed last. */
  ghost predicate FaultCause(h: Heap, roots: seq<ObjRef>, limits: GraphLimits, visit: Visitor, order: seq<ObjRef>,
                             fault: Fault) {
    || (fault == BoundaryLimit && PastLimit(h, roots, limits, order))
    || (fault == BoundaryViolation && exists r :: Unlisted(h, roots, order, r) && Lookup(h, r).None?)
    || (order != [] && visit(order[..|order| - 1], order[|order| - 1]) == Some(fault))
  }

  ghost predicate AllReachable(h: Heap, roots: seq<ObjRef>, rs: seq<ObjRef>) {
    forall i :: 0 <= i < |rs| ==> Reachable(h, roots, rs[i])
  }

  lemma EnterFault(h: Heap, roots: seq<ObjRef>, limits: GraphLimits, visit: Visitor, order: seq<ObjRef>, r: ObjRef,
                   rest: seq<ObjRef>, cost: GraphCost)
    requires Unlisted(h, roots, order, r) && Lookup(h, r).Some? && AllReachable(h, roots, rest)
    requires Charged(h, roots, limits, order, |rest|, cost)
    ensures match EnterTurn(limits, visit, order, r, Lookup(h, r).value, rest, cost)
            case Stop(listed, result) => result.Failed? && FaultCause(h, roots, limits, visit, listed, result.fault)
            case Go(listed, next, charged) =>
              AllReachable(h, roots, next) && Charged(h, roots, limits, listed, |next|, charged)
  {
    hide Reachable, Indices, Edges, Bytes;
    var kids := Lookup(h, r).value.children;
    TotalsSnoc(h, order, r);
    assert (order + [r])[..|order|] == order;
    forall i | 0 <= i < |kids| ensures Reachable(h, roots, kids[i]) { ReachableChild(h, roots, r, kids[i]); }
  }

  lemma PopFault(h: Heap, roots: seq<ObjRef>, limits: GraphLimits, visit: Visitor, order: seq<ObjRef>,
                 pending: seq<ObjRef>, cost: GraphCost)
    requires pending != [] && AllReachable(h, roots, pending) && Charged(h, roots, limits, order, |pending|, cost)
    ensures match PopTurn(h, limits, visit, order, pending, cost)
            case Stop(listed, result) => result.Failed? && FaultCause(h, roots, limits, visit, listed, result.fault)
            case Go(listed, next, charged) =>
              AllReachable(h, roots, next) && Charged(h, roots, limits, listed, |next|, charged)
  {
    hide Reachable, Indices, Edges, Bytes, EnterTurn;
    var r, rest := pending[0], pending[1..];
    var worked := cost.(work := cost.work + 1);
    if worked.work <= limits.maxWork && Index(h, r) !in Indices(h, order) {
      assert Unlisted(h, roots, order, r);
      if Lookup(h, r).Some? { EnterFault(h, roots, limits, visit, order, r, rest, worked); }
    }
  }

  lemma {:induction false} TraverseFault(h: Heap, roots: seq<ObjRef>, limits: GraphLimits, visit: Visitor,
                                         order: seq<ObjRef>, pending: seq<ObjRef>, cost: GraphCost)
    requires WellFormed(h) && AllInBounds(h, pending) && AllReachable(h, roots, pending)
    requires Charged(h, roots, limits, order, |pending|, cost)
    ensures var a := Traverse(h, limits, visit, order, pending, cost);
      a.result.Failed? ==> FaultCause(h, roots, limits, visit, a.order, a.result.fault)
    decreases Universe(h) - Indices(h, order), |pending|
  {
    hide WellFormed, Traverse, PopTurn, Charged, FaultCause, Indices, Universe, AllReachable;
    if pending == [] {
      TraverseEnds(h, limits, visit, order, cost);
    } else {
      TraverseOpens(h, limits, visit, order, pending, cost);
      TurnLower(h, limits, visit, order, pending, cost);
      PopFault(h, roots, limits, visit, order, pending, cost);
      match PopTurn(h, limits, visit, order, pending, cost)
      case Stop(_, _) =>
      case Go(listed, next, charged) => TraverseFault(h, roots, limits, visit, listed, next, charged);
    }
  }

  /** A failed walk names its cause: the fault is the one of a limit, of a dead
      reference, or of the visitor, and that cause is there. */
  lemma FaultMeans(h: Heap, roots: seq<ObjRef>, limits: GraphLimits, visit: Visitor)
    requires WellFormed(h) && AllInBounds(h, roots)
    requires Traverse(h, limits, visit, [], roots, NO_COST).result.Failed?
    ensures var a := Traverse(h, limits, visit, [], roots, NO_COST);
      FaultCause(h, roots, limits, visit, a.order, a.result.fault)
  {
    hide WellFormed, Traverse, FaultCause, Reachable;
    forall i | 0 <= i < |roots| ensures Reachable(h, roots, roots[i]) { RootReachable(h, roots, i); }
    TraverseFault(h, roots, limits, visit, [], roots, NO_COST);
  }

  lemma RootReachable(h: Heap, roots: seq<ObjRef>, i: nat)
    requires i < |roots|
    ensures Reachable(h, roots, roots[i])
  {
    assert ReachableIn(h, roots, roots[i], 0);
  }

  /** Whenever a walk is done, it lists each live reachable reference once. It
      passes over a dead one only in the slot of a listed one, so that nothing
      dead was reached exactly when no slot was reached under two names. */
  lemma DoneListsReachable(h: Heap, roots: seq<ObjRef>, limits: GraphLimits, visit: Visitor)
    requires WellFormed(h) && AllInBounds(h, roots)
    requires Traverse(h, limits, visit, [], roots, NO_COST).result.Done?
    ensures ListsReachable(h, roots, Traverse(h, limits, visit, [], roots, NO_COST).order)
    ensures AllLive(h, roots) <==> OneNameEach(h, roots)
  {
    hide WellFormed, Traverse, Preorder, AllLive, OneNameEach, ListsReachable, Admissible;
    var order := Traverse(h, limits, visit, [], roots, NO_COST).order;
    WalkMeans(h, roots, limits, visit);
    PreorderIsReachableSet(h, roots, order);
    ListedAllLive(h, roots, order);
  }

  const LIVE := ObjRef(0, 1, false)
  const STALE := ObjRef(0, 0, false)
  const ONE_OBJECT := Heap(1, 0, map[0 := Entry(1, Object([], 0))], map[])

  /** The smallest walk that passes over a dead reference: the same slot under
      its current and under an old generation. */
  lemma StalePassedOver(limits: GraphLimits, visit: Visitor)
    requires limits.maxObjects >= 1 && limits.maxWork >= 2 && visit([], LIVE).None?
    ensures WellFormed(ONE_OBJECT) && AllInBounds(ONE_OBJECT, [LIVE, STALE])
    ensures Traverse(ONE_OBJECT, limits, visit, [], [LIVE, STALE], NO_COST)
              == Answer([LIVE], Done(GraphCost(1, 0, 0, 2)))
    ensures Reachable(ONE_OBJECT, [LIVE, STALE], STALE) && Lookup(ONE_OBJECT, STALE).None?
  {
    var h := ONE_OBJECT;
    assert ReachableIn(h, [LIVE, STALE], [LIVE, STALE][1], 0);
    assert Index(h, [LIVE][0]) in Indices(h, [LIVE]);
    assert [LIVE, STALE][1..] == [STALE] && [STALE][1..] == [] && [] + [LIVE] == [LIVE] && [] + [STALE] == [STALE];
    TraverseOpens(h, limits, visit, [], [LIVE, STALE], NO_COST);
    TraverseOpens(h, limits, visit, [LIVE], [STALE], GraphCost(1, 0, 0, 1));
    TraverseEnds(h, limits, visit, [LIVE], GraphCost(1, 0, 0, 2));
  }

  /** With live references and an accepting visitor the walk lists exactly
      the reachable objects and succeeds exactly when the four totals of the
      reachable graph are within their limits. */
  lemma WalkSucceedsExactly(h: Heap, roots: seq<ObjRef>, limits: GraphLimits, visit: Visitor)
    requires WellFormed(h) && AllInBounds(h, roots) && AllLive(h, roots)
    requires forall before, r :: visit(before, r).None?
    ensures Preorder(h, roots, {}).Some?
    ensures var a := Traverse(h, limits, visit, [], roots, NO_COST);
      && (a.result.Done? <==> Within(TotalCost(h, roots, Preorder(h, roots, {}).value), limits))
      && (a.result.Failed? ==> a.result.fault == BoundaryLimit)
      && (a.result.Done? ==> Distinct(h, a.order) && forall r :: Reachable(h, roots, r) <==> r in a.order)
  {
    hide Traverse;
    forall i | 0 <= i < |roots| ensures Reachable(h, roots, roots[i]) { assert ReachableIn(h, roots, roots[i], 0); }
    LivePreorder(h, roots, roots, {});
    PreorderIsReachableSet(h, roots, Preorder(h, roots, {}).value);
    WalkMeans(h, roots, limits, visit);
  }

  // -------------------------------------------------------- slot names

  /** `f` renames slots: it carries one heap onto the other, object by
      object, and identifies no two slots that were apart. */
  ghost predicate Renames(h: Heap, h': Heap, f: ObjRef -> ObjRef, domain: iset<ObjRef>) {
    && (forall r :: r in domain ==> InBounds(h, r) && InBounds(h', f(r)))
    && (forall a, b :: a in domain && b in domain ==>
          (Index(h, a) == Index(h, b) <==> Index(h', f(a)) == Index(h', f(b))))
    && (forall r :: r in domain ==> ObjectRenamed(Lookup(h, r), Lookup(h', f(r)), f))
    && (forall r, c :: r in domain && ChildOf(h, r, c) ==> c in domain)
  }

  ghost function Renamed(rs: seq<ObjRef>, f: ObjRef -> ObjRef): (out: seq<ObjRef>)
    ensures |out| == |rs| && forall i :: 0 <= i < |rs| ==> out[i] == f(rs[i])
  {
    seq(|rs|, i requires 0 <= i < |rs| => f(rs[i]))
  }

  ghost predicate ObjectRenamed(a: Option<Object>, b: Option<Object>, f: ObjRef -> ObjRef) {
    match a
    case None => b.None?
    case Some(o) => b.Some? && b.value.children == Renamed(o.children, f) && b.value.cost == o.cost
  }

  /** The two seen sets hold corresponding slots. */
  ghost predicate SeenAlike(h: Heap, h': Heap, f: ObjRef -> ObjRef, domain: iset<ObjRef>, seen: set<nat>,
                            seen': set<nat>) {
    forall r :: r in domain ==> (Index(h, r) in seen <==> Index(h', f(r)) in seen')
  }

  lemma SeenAlikeGrow(h: Heap, h': Heap, f: ObjRef -> ObjRef, domain: iset<ObjRef>, seen: set<nat>, seen': set<nat>,
                      rs: seq<ObjRef>)
    requires Renames(h, h', f, domain) && SeenAlike(h, h', f, domain, seen, seen')
    requires forall i :: 0 <= i < |rs| ==> rs[i] in domain
    ensures SeenAlike(h, h', f, domain, seen + Indices(h, rs), seen' + Indices(h', Renamed(rs, f)))
  {
    forall r | r in domain ensures Index(h, r) in Indices(h, rs) <==> Index(h', f(r)) in Indices(h', Renamed(rs, f)) {
      if Index(h, r) in Indices(h, rs) {
        var i :| 0 <= i < |rs| && Index(h, rs[i]) == Index(h, r);
        assert Renamed(rs, f)[i] == f(rs[i]);
      }
      if Index(h', f(r)) in Indices(h', Renamed(rs, f)) {
        var i :| 0 <= i < |rs| && Index(h', Renamed(rs, f)[i]) == Index(h', f(r));
        assert rs[i] in domain;
      }
    }
  }

  lemma RenamedAppend(a: seq<ObjRef>, b: seq<ObjRef>, f: ObjRef -> ObjRef)
    ensures Renamed(a + b, f) == Renamed(a, f) + Renamed(b, f)
  {
  }

  /** The canonical order depends on the graph alone: heaps that differ in
      slot numbers give corresponding orders. */
  lemma {:induction false} PreorderRenamed(h: Heap, h': Heap, f: ObjRef -> ObjRef, domain: iset<ObjRef>,
                                           rs: seq<ObjRef>, seen: set<nat>, seen': set<nat>)
    requires WellFormed(h) && WellFormed(h') && Renames(h, h', f, domain)
    requires AllInBounds(h, rs) && AllInBounds(h', Renamed(rs, f))
    requires (forall i :: 0 <= i < |rs| ==> rs[i] in domain) && SeenAlike(h, h', f, domain, seen, seen')
    ensures Preorder(h, rs, seen).None? ==> Preorder(h', Renamed(rs, f), seen').None?
    ensures Preorder(h, rs, seen).Some? ==>
              && Preorder(h', Renamed(rs, f), seen') == Some(Renamed(Preorder(h, rs, seen).value, f))
              && forall i :: 0 <= i < |Preorder(h, rs, seen).value| ==> Preorder(h, rs, seen).value[i] in domain
    decreases Universe(h) - seen, |rs|
  {
    var rs' := Renamed(rs, f);
    if rs != [] {
      assert rs'[0] == f(rs[0]) && rs'[1..] == Renamed(rs[1..], f);
      if Index(h, rs[0]) in seen {
        PreorderRenamed(h, h', f, domain, rs[1..], seen, seen');
      } else if Lookup(h, rs[0]).Some? {
        RenamedVisit(h, h', f, domain, rs, seen, seen');
      }
    }
  }

  lemma {:induction false} RenamedVisit(h: Heap, h': Heap, f: ObjRef -> ObjRef, domain: iset<ObjRef>,
                                        rs: seq<ObjRef>, seen: set<nat>, seen': set<nat>)
    requires WellFormed(h) && WellFormed(h') && Renames(h, h', f, domain)
    requires AllInBounds(h, rs) && AllInBounds(h', Renamed(rs, f)) && rs != []
    requires (forall i :: 0 <= i < |rs| ==> rs[i] in domain) && SeenAlike(h, h', f, domain, seen, seen')
    requires Index(h, rs[0]) !in seen && Lookup(h, rs[0]).Some?
    ensures Preorder(h, rs, seen).None? ==> Preorder(h', Renamed(rs, f), seen').None?
    ensures Preorder(h, rs, seen).Some? ==>
              && Preorder(h', Renamed(rs, f), seen') == Some(Renamed(Preorder(h, rs, seen).value, f))
              && forall i :: 0 <= i < |Preorder(h, rs, seen).value| ==> Preorder(h, rs, seen).value[i] in domain
    decreases Universe(h) - seen, |rs|, 0
  {
    hide Renames, SeenAlike, Preorder, Indices, Universe;
    var r, rs' := rs[0], Renamed(rs, f);
    var at, at' := seen + {Index(h, r)}, seen' + {Index(h', f(r))};
    PreorderFirst(h, rs, seen);
    PreorderFirst(h', rs', seen');
    assert Index(h, r) in Universe(h) - seen;
    var kids := Lookup(h, r).value.children;
    VisitFacts(h, h', f, domain, r, seen, seen');
    PreorderRenamed(h, h', f, domain, kids, at, at');
    var inner := Preorder(h, kids, at);
    assert rs'[0] == f(r) && rs'[1..] == Renamed(rs[1..], f);
    if inner.Some? {
      SeenAlikeGrow(h, h', f, domain, at, at', inner.value);
      PreorderRenamed(h, h', f, domain, rs[1..], at + Indices(h, inner.value),
                      at' + Indices(h', Renamed(inner.value, f)));
      var outer := Preorder(h, rs[1..], at + Indices(h, inner.value));
      if outer.Some? {
        RenamedAppend([r], inner.value, f);
        RenamedAppend([r] + inner.value, outer.value, f);
        assert Renamed([r], f) == [f(r)];
      }
    }
  }

  lemma VisitFacts(h: Heap, h': Heap, f: ObjRef -> ObjRef, domain: iset<ObjRef>, r: ObjRef, seen: set<nat>,
                   seen': set<nat>)
    requires WellFormed(h) && WellFormed(h') && Renames(h, h', f, domain) && SeenAlike(h, h', f, domain, seen, seen')
    requires r in domain && Lookup(h, r).Some? && Index(h, r) !in seen
    ensures Index(h', f(r)) !in seen' && Lookup(h', f(r)).Some?
    ensures Lookup(h', f(r)).value.children == Renamed(Lookup(h, r).value.children, f)
    ensures SeenAlike(h, h', f, domain, seen + {Index(h, r)}, seen' + {Index(h', f(r))})
    ensures forall i :: 0 <= i < |Lookup(h, r).value.children| ==> Lookup(h, r).value.children[i] in domain
    ensures AllInBounds(h, Lookup(h, r).value.children) && AllInBounds(h', Renamed(Lookup(h, r).value.children, f))
  {
    assert ObjectRenamed(Lookup(h, r), Lookup(h', f(r)), f);
    var kids := Lookup(h, r).value.children;
    forall i | 0 <= i < |kids| ensures kids[i] in domain { assert ChildOf(h, r, kids[i]); }
    forall x | x in domain
      ensures Index(h, x) in seen + {Index(h, r)} <==> Index(h', f(x)) in seen' + {Index(h', f(r))}
    {
      assert Index(h, x) == Index(h, r) <==> Index(h', f(x)) == Index(h', f(r));
    }
  }

  // --------------------------------------------- the answer under new names

  ghost predicate InDomain(rs: seq<ObjRef>, domain: iset<ObjRef>) {
    forall i :: 0 <= i < |rs| ==> rs[i] in domain
  }

  /** The visitors answer alike on corresponding objects. */
  ghost predicate SameVisits(visit: Visitor, visit': Visitor, f: ObjRef -> ObjRef, domain: iset<ObjRef>) {
    forall order, r :: InDomain(order, domain) && r in domain ==> visit'(Renamed(order, f), f(r)) == visit(order, r)
  }

  ghost function RenamedTurn(turn: Turn, f: ObjRef -> ObjRef): Turn {
    match turn
    case Stop(order, result) => Stop(Renamed(order, f), result)
    case Go(order, pending, cost) => Go(Renamed(order, f), Renamed(pending, f), cost)
  }

  lemma ListedAlike(h: Heap, h': Heap, f: ObjRef -> ObjRef, domain: iset<ObjRef>, order: seq<ObjRef>, r: ObjRef)
    requires Renames(h, h', f, domain) && InDomain(order, domain) && r in domain
    ensures Index(h, r) in Indices(h, order) <==> Index(h', f(r)) in Indices(h', Renamed(order, f))
  {
    var order' := Renamed(order, f);
    if Index(h, r) in Indices(h, order) {
      var i :| 0 <= i < |order| && Index(h, order[i]) == Index(h, r);
      assert Index(h', order'[i]) == Index(h', f(r));
    }
    if Index(h', f(r)) in Indices(h', order') {
      var i :| 0 <= i < |order'| && Index(h', order'[i]) == Index(h', f(r));
      assert Index(h, order[i]) == Index(h, r);
    }
  }

  lemma EnterRenamed(h: Heap, h': Heap, f: ObjRef -> ObjRef, domain: iset<ObjRef>, limits: GraphLimits,
                     visit: Visitor, visit': Visitor, order: seq<ObjRef>, r: ObjRef, rest: seq<ObjRef>, cost: GraphCost)
    requires Renames(h, h', f, domain) && SameVisits(visit, visit', f, domain)
    requires InDomain(order, domain) && r in domain && InDomain(rest, domain) && Lookup(h, r).Some?
    ensures Lookup(h', f(r)).Some?
    ensures var turn := EnterTurn(limits, visit, order, r, Lookup(h, r).value, rest, cost);
      && EnterTurn(limits, visit', Renamed(order, f), f(r), Lookup(h', f(r)).value, Renamed(rest, f), cost)
          == RenamedTurn(turn, f)
      && InDomain(turn.order, domain) && (turn.Go? ==> InDomain(turn.pending, domain))
  {
    assert ObjectRenamed(Lookup(h, r), Lookup(h', f(r)), f);
    var kids := Lookup(h, r).value.children;
    forall i | 0 <= i < |kids| ensures kids[i] in domain { assert ChildOf(h, r, kids[i]); }
    hide Renames;
    RenamedAppend(order, [r], f);
    RenamedAppend(kids, rest, f);
    assert Renamed([r], f) == [f(r)];
    assert visit'(Renamed(order, f), f(r)) == visit(order, r);
  }

  lemma PopRenamed(h: Heap, h': Heap, f: ObjRef -> ObjRef, domain: iset<ObjRef>, limits: GraphLimits,
                   visit: Visitor, visit': Visitor, order: seq<ObjRef>, pending: seq<ObjRef>, cost: GraphCost)
    requires Renames(h, h', f, domain) && SameVisits(visit, visit', f, domain)
    requires InDomain(order, domain) && InDomain(pending, domain) && pending != []
    ensures var turn := PopTurn(h, limits, visit, order, pending, cost);
      && PopTurn(h', limits, visit', Renamed(order, f), Renamed(pending, f), cost) == RenamedTurn(turn, f)
      && InDomain(turn.order, domain) && (turn.Go? ==> InDomain(turn.pending, domain))
  {
    hide SameVisits, EnterTurn, Indices;
    var r, rest := pending[0], pending[1..];
    assert Renamed(pending, f)[0] == f(r) && Renamed(pending, f)[1..] == Renamed(rest, f);
    ListedAlike(h, h', f, domain, order, r);
    assert ObjectRenamed(Lookup(h, r), Lookup(h', f(r)), f);
    if Lookup(h, r).Some? {
      EnterRenamed(h, h', f, domain, limits, visit, visit', order, r, rest, cost.(work := cost.work + 1));
    }
  }

  /** Heaps that differ in slot numbers, walked by visitors that answer alike,
      give the same result: the same cost or the same fault, after listing
      corresponding objects. */
  lemma {:induction false} TraverseRenamed(h: Heap, h': Heap, f: ObjRef -> ObjRef, domain: iset<ObjRef>,
                                           limits: GraphLimits,
                                           visit: Visitor, visit': Visitor, order: seq<ObjRef>, pending: seq<ObjRef>,
                                           cost: GraphCost)
    requires WellFormed(h) && WellFormed(h') && Renames(h, h', f, domain) && SameVisits(visit, visit', f, domain)
    requires AllInBounds(h, pending) && AllInBounds(h', Renamed(pending, f))
    requires InDomain(order, domain) && InDomain(pending, domain)
    ensures var a := Traverse(h, limits, visit, order, pending, cost);
      Traverse(h', limits, visit', Renamed(order, f), Renamed(pending, f), cost)
          == Answer(Renamed(a.order, f), a.result)
    decreases Universe(h) - Indices(h, order), |pending|
  {
    hide WellFormed, Renames, SameVisits, Traverse, PopTurn, Indices, Universe;
    var order', pending' := Renamed(order, f), Renamed(pending, f);
    if pending == [] {
      TraverseEnds(h, limits, visit, order, cost);
      TraverseEnds(h', limits, visit', order', cost);
      assert pending' == [];
    } else {
      TraverseOpens(h, limits, visit, order, pending, cost);
      TraverseOpens(h', limits, visit', order', pending', cost);
      TurnLower(h, limits, visit, order, pending, cost);
      PopRenamed(h, h', f, domain, limits, visit, visit', order, pending, cost);
      match PopTurn(h, limits, visit, order, pending, cost)
      case Stop(_, _) =>
      case Go(listed, next, charged) =>
        TraverseRenamed(h, h', f, domain, limits, visit, visit', listed, next, charged);
    }
  }
}
