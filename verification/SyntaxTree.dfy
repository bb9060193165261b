/** Trees of records inside a syntax table, and the depth-first walk that
    finds them. */
module SyntaxTree {
  import opened Common
  import opened SyntaxFormat

  // ---------------------------------------------------------- index trees

  /** A finite tree of record indices. */
  datatype IndexTree = IndexTree(index: nat, kids: seq<IndexTree>)

  /** `t` is what the table holds at `t.index`: every record checks, every
      child entry points at the matching child, ranges nest. */
  ghost predicate Represents(v: View, t: IndexTree)
    requires Sized(v)
    decreases t
  {
    && RecordAt(v, t.index).Ok?
    && |t.kids| == RecordAt(v, t.index).value.childLen
    && (forall k :: 0 <= k < |t.kids| ==> Attached(v, RecordAt(v, t.index).value, k, t.kids[k].index))
    && (forall k :: 0 <= k < |t.kids| ==> Represents(v, t.kids[k]))
  }

  /** Child `k` of record `r` is the record at `index`, nested in its range. */
  ghost predicate Attached(v: View, r: Record, k: nat, index: nat)
    requires Sized(v)
  {
    && ChildAt(v, r, k) == Ok(index)
    && RecordAt(v, index).Ok?
    && r.lo <= RecordAt(v, index).value.lo && RecordAt(v, index).value.hi <= r.hi
  }

  ghost predicate RepresentsAll(v: View, ts: seq<IndexTree>)
    requires Sized(v)
  {
    forall k :: 0 <= k < |ts| ==> Represents(v, ts[k])
  }

  ghost function Preorder(t: IndexTree): (s: seq<nat>)
    ensures s != [] && s[0] == t.index
    decreases t, 1
  {
    [t.index] + PreorderAll(t.kids)
  }

  ghost function PreorderAll(ts: seq<IndexTree>): seq<nat>
    decreases ts, 0
  {
    if ts == [] then [] else Preorder(ts[0]) + PreorderAll(ts[1..])
  }

  ghost function Roots(ts: seq<IndexTree>): (s: seq<nat>)
    ensures |s| == |ts| && forall k :: 0 <= k < |s| ==> s[k] == ts[k].index
  {
    seq(|ts|, k requires 0 <= k < |ts| => ts[k].index)
  }

  lemma {:induction false} PreorderAppend(a: seq<IndexTree>, b: seq<IndexTree>)
    ensures PreorderAll(a + b) == PreorderAll(a) + PreorderAll(b)
    decreases |a|
  {
    if a == [] {
      assert a + b == b;
    } else {
      PreorderAppend(a[1..], b);
      assert (a + b)[0] == a[0] && (a + b)[1..] == a[1..] + b;
      assert Preorder(a[0]) + (PreorderAll(a[1..]) + PreorderAll(b))
          == (Preorder(a[0]) + PreorderAll(a[1..])) + PreorderAll(b);
    }
  }

  /** Opening the first tree of a forest moves its root to the front. */
  lemma PreorderOpen(t: IndexTree, rest: seq<IndexTree>)
    ensures PreorderAll([t] + rest) == [t.index] + PreorderAll(t.kids + rest)
  {
    PreorderAppend(t.kids, rest);
    assert ([t] + rest)[1..] == rest;
    assert ([t.index] + PreorderAll(t.kids)) + PreorderAll(rest)
        == [t.index] + (PreorderAll(t.kids) + PreorderAll(rest));
  }

  /** The table holds at most one tree at an index. */
  lemma {:induction false} RepresentsUnique(v: View, t: IndexTree, u: IndexTree)
    requires Sized(v) && Represents(v, t) && Represents(v, u) && t.index == u.index
    ensures t == u
    decreases t
  {
    hide RecordAt, ChildAt;
    forall k | 0 <= k < |t.kids| ensures t.kids[k] == u.kids[k] {
      assert Attached(v, RecordAt(v, t.index).value, k, t.kids[k].index);
      assert Attached(v, RecordAt(v, t.index).value, k, u.kids[k].index);
      RepresentsUnique(v, t.kids[k], u.kids[k]);
    }
  }

  // ------------------------------------------------------------- the walk

  /** The children `from..` of a record, last one checked first. */
  function Kids(v: View, r: Record, from: nat): (out: Result<seq<nat>>)
    requires Sized(v) && from <= r.childLen
    ensures out.Ok? ==> |out.value| == r.childLen - from
    decreases r.childLen - from
  {
    if from == r.childLen then Ok([])
    else
      var later :- Kids(v, r, from + 1);
      var child :- ChildAt(v, r, from);
      var record :- RecordAt(v, child);
      if record.lo < r.lo || record.hi > r.hi then Err(Range) else Ok([child] + later)
  }

  lemma {:induction false} KidsAttached(v: View, r: Record, from: nat)
    requires Sized(v) && from <= r.childLen && Kids(v, r, from).Ok?
    ensures forall k :: 0 <= k < r.childLen - from ==> Attached(v, r, from + k, Kids(v, r, from).value[k])
    decreases r.childLen - from
  {
    hide RecordAt, ChildAt;
    if from < r.childLen {
      KidsAttached(v, r, from + 1);
      var later := Kids(v, r, from + 1).value;
      forall k | 0 <= k < r.childLen - from ensures Attached(v, r, from + k, Kids(v, r, from).value[k]) {
        if k > 0 { assert Attached(v, r, from + 1 + (k - 1), later[k - 1]); }
      }
    }
  }

  /** The depth-first walk over pending indices. A repeat, a bad record or
      a range outside its parent or outside the root stops it. */
  ghost function Walk(v: View, root: Record, pending: seq<nat>, seen: set<nat>): Result<seq<nat>>
    requires Sized(v)
    decreases Under(v.items) - seen, |pending|
  {
    if pending == [] then Ok([])
    else
      var current := pending[0];
      if current >= v.items || current in seen then Err(Reference)
      else
        assert current in Under(v.items) - seen;
        var record :- RecordAt(v, current);
        if record.lo < root.lo || record.hi > root.hi then Err(Range)
        else
          var kids :- Kids(v, record, 0);
          var order :- Walk(v, root, kids + pending[1..], seen + {current});
          Ok([current] + order)
  }

  ghost predicate Apart(order: seq<nat>, seen: set<nat>) {
    NoRepeats(order) && forall i :: 0 <= i < |order| ==> order[i] !in seen
  }

  /** A finished walk has listed the preorder of a forest of real trees. */
  lemma {:induction false} WalkFindsForest(v: View, root: Record, pending: seq<nat>,
                                           seen: set<nat>) returns (forest: seq<IndexTree>)
    requires Sized(v) && Walk(v, root, pending, seen).Ok?
    ensures Roots(forest) == pending && RepresentsAll(v, forest)
    ensures PreorderAll(forest) == Walk(v, root, pending, seen).value
    ensures Apart(PreorderAll(forest), seen)
    decreases Under(v.items) - seen, |pending|
  {
    hide RecordAt, Represents, RepresentsAll, Kids, Attached, Apart, Walk, Roots;
    if pending == [] {
      forest := [];
      NoTrees(v, root, seen);
    } else {
      var current := pending[0];
      WalkUnfolds(v, root, pending, seen);
      assert current in Under(v.items) - seen;
      var record := RecordAt(v, current).value;
      var kids := Kids(v, record, 0).value;
      var inner := WalkFindsForest(v, root, kids + pending[1..], seen + {current});
      KidsAttached(v, record, 0);
      forest := GatherTree(v, current, record, kids, pending[1..], inner);
      assert pending == [current] + pending[1..];
      PreorderOpen(forest[0], forest[1..]);
      assert forest == [forest[0]] + forest[1..];
      assert Apart(PreorderAll(forest), seen) by { ApartCons(current, PreorderAll(inner), seen); }
    }
  }

  /** What a finished walk has checked about its first index. */
  lemma WalkUnfolds(v: View, root: Record, pending: seq<nat>, seen: set<nat>)
    requires Sized(v) && Walk(v, root, pending, seen).Ok? && pending != []
    ensures pending[0] < v.items && pending[0] !in seen && RecordAt(v, pending[0]).Ok?
    ensures var record := RecordAt(v, pending[0]).value;
      && Kids(v, record, 0).Ok?
      && var inner := Walk(v, root, Kids(v, record, 0).value + pending[1..], seen + {pending[0]});
      && inner.Ok? && Walk(v, root, pending, seen).value == [pending[0]] + inner.value
  {
    hide RecordAt, Kids;
  }

  lemma NoTrees(v: View, root: Record, seen: set<nat>)
    requires Sized(v)
    ensures Roots([]) == [] && RepresentsAll(v, []) && Apart(PreorderAll([]), seen)
    ensures Walk(v, root, [], seen) == Ok(PreorderAll([]))
  {
  }

  lemma ApartCons(x: nat, order: seq<nat>, seen: set<nat>)
    ensures Apart([x] + order, seen) <==> x !in seen && Apart(order, seen + {x})
  {
    var s := [x] + order;
    if Apart(s, seen) {
      assert s[0] !in seen;
      assert forall i :: 0 <= i < |order| ==> order[i] == s[i + 1];
    }
    if x !in seen && Apart(order, seen + {x}) {
      assert forall i :: 1 <= i < |s| ==> s[i] == order[i - 1];
    }
  }

  /** Fold the first trees of a forest under their parent. */
  lemma GatherTree(v: View, current: nat, record: Record, kids: seq<nat>, rest: seq<nat>,
                   inner: seq<IndexTree>) returns (forest: seq<IndexTree>)
    requires Sized(v) && RecordAt(v, current) == Ok(record) && |kids| == record.childLen
    requires forall k :: 0 <= k < |kids| ==> Attached(v, record, k, kids[k])
    requires Roots(inner) == kids + rest && RepresentsAll(v, inner)
    ensures |forest| == 1 + |rest| && forest[0].index == current && forest[0].kids + forest[1..] == inner
    ensures Roots(forest) == [current] + rest && RepresentsAll(v, forest)
  {
    hide RecordAt, Attached, Represents, RepresentsAll, Roots;
    var n := |kids|;
    RootsSplit(inner, kids, rest);
    var t := IndexTree(current, inner[..n]);
    RepresentsSplit(v, inner, n);
    MakeTree(v, record, kids, t);
    forest := [t] + inner[n..];
    assert forest[1..] == inner[n..] && inner[..n] + inner[n..] == inner;
    RootsCons(v, t, inner[n..]);
  }

  lemma MakeTree(v: View, record: Record, kids: seq<nat>, t: IndexTree)
    requires Sized(v) && RecordAt(v, t.index) == Ok(record) && |kids| == record.childLen
    requires forall k :: 0 <= k < |kids| ==> Attached(v, record, k, kids[k])
    requires Roots(t.kids) == kids && RepresentsAll(v, t.kids)
    ensures Represents(v, t)
  {
    hide RecordAt, Attached;
  }

  lemma RepresentsSplit(v: View, ts: seq<IndexTree>, n: nat)
    requires Sized(v) && RepresentsAll(v, ts) && n <= |ts|
    ensures RepresentsAll(v, ts[..n]) && RepresentsAll(v, ts[n..])
  {
    hide Represents;
  }

  lemma RootsCons(v: View, t: IndexTree, rest: seq<IndexTree>)
    requires Sized(v) && Represents(v, t) && RepresentsAll(v, rest)
    ensures Roots([t] + rest) == [t.index] + Roots(rest) && RepresentsAll(v, [t] + rest)
  {
    hide Represents;
  }

  lemma RootsSplit(ts: seq<IndexTree>, a: seq<nat>, b: seq<nat>)
    requires Roots(ts) == a + b
    ensures |ts| == |a| + |b|
    ensures Roots(ts[..|a|]) == a && Roots(ts[|a|..]) == b
  {
    assert |ts| == |a| + |b|;
    assert Roots(ts[..|a|]) == Roots(ts)[..|a|];
    assert Roots(ts[|a|..]) == Roots(ts)[|a|..];
  }

  ghost predicate Within(v: View, root: Record, ts: seq<IndexTree>)
    requires Sized(v)
  {
    forall k :: 0 <= k < |ts| ==>
      RecordAt(v, ts[k].index).Ok? && root.lo <= RecordAt(v, ts[k].index).value.lo
          && RecordAt(v, ts[k].index).value.hi <= root.hi
  }

  /** One pop of the root of a real tree. */
  lemma WalkStep(v: View, root: Record, t: IndexTree, rest: seq<IndexTree>, seen: set<nat>)
    requires Sized(v) && Represents(v, t) && Within(v, root, [t]) && t.index !in seen
    ensures var more := Walk(v, root, Roots(t.kids + rest), seen + {t.index});
            Walk(v, root, Roots([t] + rest), seen) == if more.Err? then Err(more.error) else Ok([t.index] + more.value)
  {
    hide RecordAt, Represents, Attached, Kids, Roots;
    RootInTable(v, t);
    ForestKids(v, t);
    assert [t][0] == t;
    assert t.index in Under(v.items) - seen;
    RootsOpen(t, rest);
    WalkOpens(v, root, Roots([t] + rest), seen);
  }

  lemma RootsOpen(t: IndexTree, rest: seq<IndexTree>)
    ensures var pending := Roots([t] + rest);
      pending != [] && pending[0] == t.index && Roots(t.kids + rest) == Roots(t.kids) + pending[1..]
  {
  }

  /** One unfolding of the walk at an index that passes its checks. */
  lemma WalkOpens(v: View, root: Record, pending: seq<nat>, seen: set<nat>)
    requires Sized(v) && pending != [] && pending[0] < v.items && pending[0] !in seen && RecordAt(v, pending[0]).Ok?
    requires var r := RecordAt(v, pending[0]).value; root.lo <= r.lo && r.hi <= root.hi && Kids(v, r, 0).Ok?
    ensures var kids := Kids(v, RecordAt(v, pending[0]).value, 0).value;
      var more := Walk(v, root, kids + pending[1..], seen + {pending[0]});
      Walk(v, root, pending, seen) == if more.Err? then Err(more.error) else Ok([pending[0]] + more.value)
  {
    hide RecordAt, Kids;
    assert pending[0] in Under(v.items) - seen;
  }

  /** A walk over the roots of a forest of real, distinct trees finishes. */
  lemma {:induction false} WalkFollowsForest(v: View, root: Record, forest: seq<IndexTree>, seen: set<nat>)
    requires Sized(v) && RepresentsAll(v, forest) && Within(v, root, forest) && Apart(PreorderAll(forest), seen)
    ensures Walk(v, root, Roots(forest), seen) == Ok(PreorderAll(forest))
    decreases Under(v.items) - seen, |forest|
  {
    hide RecordAt, Represents, Walk, Within, RepresentsAll, Apart;
    if forest == [] {
      WalkEnds(v, root, seen);
    } else {
      var t, rest := forest[0], forest[1..];
      assert forest == [t] + rest;
      FirstTree(v, root, t, rest);
      RootInTable(v, t);
      PreorderOpen(t, rest);
      ApartCons(t.index, PreorderAll(t.kids + rest), seen);
      assert t.index in Under(v.items) - seen;
      OpenWithin(v, root, t, rest);
      WalkFollowsForest(v, root, t.kids + rest, seen + {t.index});
      WalkStep(v, root, t, rest, seen);
    }
  }

  lemma WalkEnds(v: View, root: Record, seen: set<nat>)
    requires Sized(v)
    ensures Walk(v, root, Roots([]), seen) == Ok([]) && PreorderAll([]) == []
  {
  }

  lemma FirstTree(v: View, root: Record, t: IndexTree, rest: seq<IndexTree>)
    requires Sized(v) && RepresentsAll(v, [t] + rest) && Within(v, root, [t] + rest)
    ensures Represents(v, t) && Within(v, root, [t])
  {
    hide Represents, RecordAt;
    assert ([t] + rest)[0] == t;
  }

  lemma RootInTable(v: View, t: IndexTree)
    requires Sized(v) && Represents(v, t)
    ensures RecordAt(v, t.index).Ok? && t.index < v.items
  {
  }

  lemma OpenWithin(v: View, root: Record, t: IndexTree, rest: seq<IndexTree>)
    requires Sized(v) && RepresentsAll(v, [t] + rest) && Within(v, root, [t] + rest)
    ensures RepresentsAll(v, t.kids + rest) && Within(v, root, t.kids + rest)
  {
    hide RecordAt, Represents;
    var f, g := [t] + rest, t.kids + rest;
    assert f[0] == t;
    KidsWithin(v, root, t);
    forall k | 0 <= k < |rest| ensures f[k + 1] == rest[k] {}
    assert RepresentsAll(v, rest) && Within(v, root, rest);
  }

  lemma KidsWithin(v: View, root: Record, t: IndexTree)
    requires Sized(v) && Represents(v, t)
    requires RecordAt(v, t.index).Ok? && root.lo <= RecordAt(v, t.index).value.lo
    requires RecordAt(v, t.index).value.hi <= root.hi
    ensures RepresentsAll(v, t.kids) && Within(v, root, t.kids)
  {
    hide RecordAt, ChildAt;
    forall k | 0 <= k < |t.kids|
      ensures RecordAt(v, t.kids[k].index).Ok? && root.lo <= RecordAt(v, t.kids[k].index).value.lo
        && RecordAt(v, t.kids[k].index).value.hi <= root.hi
    {
      assert Attached(v, RecordAt(v, t.index).value, k, t.kids[k].index);
    }
  }

  lemma {:induction false} KidsComplete(v: View, t: IndexTree, from: nat)
    requires Sized(v) && Represents(v, t) && from <= |t.kids|
    ensures Kids(v, RecordAt(v, t.index).value, from) == Ok(Roots(t.kids[from..]))
    decreases |t.kids| - from
  {
    hide RecordAt, ChildAt;
    if from < |t.kids| {
      KidsComplete(v, t, from + 1);
      assert Attached(v, RecordAt(v, t.index).value, from, t.kids[from].index);
      assert Roots(t.kids[from..]) == [t.kids[from].index] + Roots(t.kids[from + 1..]);
    }
  }

  lemma ForestKids(v: View, t: IndexTree)
    requires Sized(v) && Represents(v, t)
    ensures Kids(v, RecordAt(v, t.index).value, 0) == Ok(Roots(t.kids))
  {
    KidsComplete(v, t, 0);
    assert t.kids[0..] == t.kids;
  }

  /** The tree a detach at `index` needs: present and without repeats. */
  ghost predicate TreeAt(v: View, index: nat, t: IndexTree)
    requires Sized(v)
  {
    t.index == index && Represents(v, t) && NoRepeats(Preorder(t))
  }

  /** The walk succeeds exactly when the records reachable from the index
      form a tree, and then lists its preorder. */
  lemma WalkExact(v: View, index: nat)
    requires Sized(v) && RecordAt(v, index).Ok?
    ensures Walk(v, RecordAt(v, index).value, [index], {}).Ok? <==> exists t :: TreeAt(v, index, t)
    ensures forall t :: TreeAt(v, index, t) ==> Walk(v, RecordAt(v, index).value, [index], {}) == Ok(Preorder(t))
  {
    hide RecordAt, Represents;
    var root := RecordAt(v, index).value;
    forall t | TreeAt(v, index, t) ensures Walk(v, root, [index], {}) == Ok(Preorder(t)) {
      assert PreorderAll([t]) == Preorder(t) + [] == Preorder(t);
      assert Roots([t]) == [index];
      WalkFollowsForest(v, root, [t], {});
    }
    if Walk(v, root, [index], {}).Ok? {
      var forest := WalkFindsForest(v, root, [index], {});
      assert |Roots(forest)| == 1 && Roots(forest)[0] == index;
      assert forest == [forest[0]] && PreorderAll(forest) == Preorder(forest[0]) + [] == Preorder(forest[0]);
      assert TreeAt(v, index, forest[0]);
    }
  }
}
