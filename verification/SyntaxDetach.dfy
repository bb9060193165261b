/** Copying a syntax subtree into compact records, and what that preserves. */
module SyntaxDetach {
  import opened Common
  import opened Bytes
  import opened SyntaxFormat
  import opened SyntaxTree
  import opened SyntaxLayout

  // -------------------------------------------------------------- content

  /** The content of a tree of the table. */
  ghost function Content(v: View, t: IndexTree): (s: Syntax)
    requires Sized(v) && Represents(v, t)
    ensures |s.kids| == |t.kids| && RecordAt(v, t.index).Ok?
    ensures var r := RecordAt(v, t.index).value;
            s.cls == r.cls && s.kind == r.kind && s.lo == r.lo && s.hi == r.hi
    decreases t, 1
  {
    var r := RecordAt(v, t.index).value;
    Syntax(r.cls, r.kind, r.lo, r.hi, ContentAll(v, t.kids))
  }

  ghost function ContentAll(v: View, ts: seq<IndexTree>): (ss: seq<Syntax>)
    requires Sized(v) && RepresentsAll(v, ts)
    ensures |ss| == |ts|
    decreases ts, 0
  {
    if ts == [] then [] else [Content(v, ts[0])] + ContentAll(v, ts[1..])
  }

  lemma {:induction false} ContentAllAt(v: View, ts: seq<IndexTree>, k: nat)
    requires Sized(v) && RepresentsAll(v, ts) && k < |ts|
    ensures ContentAll(v, ts)[k] == Content(v, ts[k])
    decreases k
  {
    hide Content, ContentAll, RepresentsAll, Represents;
    ContentFirst(v, ts);
    if k > 0 { ContentAllAt(v, ts[1..], k - 1); }
  }

  lemma {:induction false} ContentAppend(v: View, a: seq<IndexTree>, b: seq<IndexTree>)
    requires Sized(v) && RepresentsAll(v, a) && RepresentsAll(v, b) && RepresentsAll(v, a + b)
    ensures ContentAll(v, a + b) == ContentAll(v, a) + ContentAll(v, b)
    decreases |a|
  {
    hide RepresentsAll, Content, ContentAll;
    if a == [] {
      assert a + b == b;
      ContentNone(v);
      assert [] + ContentAll(v, b) == ContentAll(v, b);
    } else {
      ContentFirst(v, a);
      ContentFirst(v, a + b);
      assert (a + b)[0] == a[0] && (a + b)[1..] == a[1..] + b;
      ContentAppend(v, a[1..], b);
    }
  }

  lemma ContentNone(v: View)
    requires Sized(v)
    ensures RepresentsAll(v, []) && ContentAll(v, []) == []
  {
  }

  lemma ContentFirst(v: View, a: seq<IndexTree>)
    requires Sized(v) && RepresentsAll(v, a) && a != []
    ensures Represents(v, a[0]) && RepresentsAll(v, a[1..])
    ensures ContentAll(v, a) == [Content(v, a[0])] + ContentAll(v, a[1..])
  {
    hide Represents, Content;
  }

  lemma RepresentsTail(v: View, a: seq<IndexTree>)
    requires Sized(v) && RepresentsAll(v, a) && a != []
    ensures Represents(v, a[0]) && RepresentsAll(v, a[1..])
  {
  }

  /** A tree has as many indices as its content has items. */
  lemma {:induction false} PreorderSize(v: View, t: IndexTree)
    requires Sized(v) && Represents(v, t)
    ensures |Preorder(t)| == Size(Content(v, t))
    decreases t, 1
  {
    hide RecordAt;
    PreorderSizeAll(v, t.kids);
  }

  lemma {:induction false} PreorderSizeAll(v: View, ts: seq<IndexTree>)
    requires Sized(v) && RepresentsAll(v, ts)
    ensures |PreorderAll(ts)| == SizeAll(ContentAll(v, ts))
    decreases ts, 0
  {
    hide RecordAt, Represents;
    if ts != [] {
      PreorderSize(v, ts[0]);
      PreorderSizeAll(v, ts[1..]);
      assert ContentAll(v, ts)[1..] == ContentAll(v, ts[1..]);
    }
  }

  /** The content of a checked tree is well formed. */
  lemma {:induction false} ContentGood(v: View, t: IndexTree)
    requires Sized(v) && Represents(v, t)
    ensures Good(Content(v, t), v.sourceLen)
    decreases t
  {
    var s := Content(v, t);
    CheckedFields(v, t.index);
    hide RecordAt;
    forall k | 0 <= k < |s.kids| ensures s.lo <= s.kids[k].lo && s.kids[k].hi <= s.hi && Good(s.kids[k], v.sourceLen) {
      ContentAllAt(v, t.kids, k);
      ContentGood(v, t.kids[k]);
      assert Attached(v, RecordAt(v, t.index).value, k, t.kids[k].index);
    }
  }

  lemma CheckedFields(v: View, index: nat)
    requires Sized(v) && RecordAt(v, index).Ok?
    ensures var r := RecordAt(v, index).value;
      && KindClass(r.kind) == Some(r.cls) && r.lo <= r.hi <= v.sourceLen
      && (r.cls.Token? || r.cls.Trivia? ==> r.childLen == 0) && index < v.items
  {
  }

  /** Kid `k` of an opened tree follows the earlier kids in the preorder. */
  lemma KidPosition(v: View, t: IndexTree, rest: seq<IndexTree>, k: nat)
    requires Sized(v) && Represents(v, t) && k < |t.kids|
    ensures var at := SizeAll(Content(v, t).kids[..k]);
            at < |PreorderAll(t.kids + rest)| && PreorderAll(t.kids + rest)[at] == t.kids[k].index
  {
    hide RecordAt, Represents;
    KidsRepresented(v, t);
    var before, after := t.kids[..k], t.kids[k + 1..] + rest;
    assert t.kids + rest == before + ([t.kids[k]] + after);
    PreorderAppend(before, [t.kids[k]] + after);
    PreorderOpen(t.kids[k], after);
    PreorderSizeAll(v, before);
    ContentPrefix(v, t.kids, k);
  }

  lemma KidsRepresented(v: View, t: IndexTree)
    requires Sized(v) && Represents(v, t)
    ensures RepresentsAll(v, t.kids) && Content(v, t).kids == ContentAll(v, t.kids)
  {
  }

  lemma ContentPrefix(v: View, ts: seq<IndexTree>, k: nat)
    requires Sized(v) && RepresentsAll(v, ts) && k <= |ts|
    ensures RepresentsAll(v, ts[..k]) && ContentAll(v, ts[..k]) == ContentAll(v, ts)[..k]
  {
    hide Represents, Content;
    assert ts == ts[..k] + ts[k..];
    ContentAppend(v, ts[..k], ts[k..]);
  }

  // ------------------------------------------------------ reading a layout

  /** The tree of positions that a layout occupies. */
  ghost function PositionTree(s: Syntax, base: nat): (t: IndexTree)
    ensures t.index == base && |t.kids| == |s.kids|
    decreases s, 1
  {
    IndexTree(base, PositionForest(s.kids, base + 1))
  }

  ghost function PositionForest(ss: seq<Syntax>, base: nat): (ts: seq<IndexTree>)
    ensures |ts| == |ss|
    decreases ss, 0
  {
    if ss == [] then [] else [PositionTree(ss[0], base)] + PositionForest(ss[1..], base + Size(ss[0]))
  }

  ghost predicate HoldsRecords(v: View, base: nat, recs: seq<Record>)
    requires Sized(v)
  {
    forall j :: base <= j < base + |recs| ==> RecordAt(v, j) == Ok(recs[j - base])
  }

  ghost predicate HoldsLinks(v: View, start: nat, links: seq<nat>)
    requires Sized(v)
  {
    forall j :: start <= j < start + |links| ==> LinkAt(v, j) == Ok(links[j - start])
  }

  lemma SplitRecords(v: View, base: nat, a: seq<Record>, b: seq<Record>)
    requires Sized(v)
    ensures HoldsRecords(v, base, a + b) <==> HoldsRecords(v, base, a) && HoldsRecords(v, base + |a|, b)
  {
    hide RecordAt;
    if HoldsRecords(v, base, a) && HoldsRecords(v, base + |a|, b) {
      forall j | base <= j < base + |a + b| ensures RecordAt(v, j) == Ok((a + b)[j - base]) {
        if j >= base + |a| { assert RecordAt(v, j) == Ok(b[j - (base + |a|)]); }
      }
    }
  }

  lemma SplitLinks(v: View, start: nat, a: seq<nat>, b: seq<nat>)
    requires Sized(v)
    ensures HoldsLinks(v, start, a + b) <==> HoldsLinks(v, start, a) && HoldsLinks(v, start + |a|, b)
  {
    hide LinkAt;
    if HoldsLinks(v, start, a) && HoldsLinks(v, start + |a|, b) {
      forall j | start <= j < start + |a + b| ensures LinkAt(v, j) == Ok((a + b)[j - start]) {
        if j >= start + |a| { assert LinkAt(v, j) == Ok(b[j - (start + |a|)]); }
      }
    }
  }

  /** The table holds the layout of `s`: records from `base`, child entries
      from `start`. */
  ghost predicate Placed(v: View, s: Syntax, base: nat, start: nat)
    requires Sized(v)
  {
    HoldsRecords(v, base, Recs(s, start)) && HoldsLinks(v, start, Links(s, base))
  }

  ghost predicate PlacedAll(v: View, ss: seq<Syntax>, base: nat, start: nat)
    requires Sized(v)
  {
    HoldsRecords(v, base, RecsAll(ss, start)) && HoldsLinks(v, start, LinksAll(ss, base))
  }

  lemma PlacedKids(v: View, s: Syntax, base: nat, start: nat)
    requires Sized(v) && Placed(v, s, base, start)
    ensures PlacedAll(v, s.kids, base + 1, start + |s.kids|)
    ensures RecordAt(v, base) == Ok(RecordOf(s, start))
    ensures HoldsLinks(v, start, Positions(s.kids, base + 1))
  {
    hide RecordAt, LinkAt;
    SplitRecords(v, base, [RecordOf(s, start)], RecsAll(s.kids, start + |s.kids|));
    SplitLinks(v, start, Positions(s.kids, base + 1), LinksAll(s.kids, base + 1));
  }

  lemma PlacedHead(v: View, ss: seq<Syntax>, base: nat, start: nat)
    requires Sized(v) && PlacedAll(v, ss, base, start) && ss != []
    ensures Placed(v, ss[0], base, start)
    ensures PlacedAll(v, ss[1..], base + Size(ss[0]), start + (Size(ss[0]) - 1))
  {
    hide RecordAt, LinkAt, HoldsRecords, HoldsLinks;
    LayoutSizes(ss[0], start, base);
    SplitRecords(v, base, Recs(ss[0], start), RecsAll(ss[1..], start + (Size(ss[0]) - 1)));
    SplitLinks(v, start, Links(ss[0], base), LinksAll(ss[1..], base + Size(ss[0])));
  }

  lemma {:induction false} PlacedAllAt(v: View, ss: seq<Syntax>, base: nat, start: nat, k: nat)
    requires Sized(v) && PlacedAll(v, ss, base, start) && k < |ss|
    ensures SizeAll(ss[..k]) >= k && Placed(v, ss[k], base + SizeAll(ss[..k]), start + (SizeAll(ss[..k]) - k))
    ensures PositionForest(ss, base)[k] == PositionTree(ss[k], base + SizeAll(ss[..k]))
    decreases k
  {
    hide Placed, PlacedAll;
    PlacedHead(v, ss, base, start);
    if k == 0 {
      assert ss[..0] == [];
    } else {
      PlacedAllAt(v, ss[1..], base + Size(ss[0]), start + (Size(ss[0]) - 1), k - 1);
      assert ss[..k][0] == ss[0] && ss[..k][1..] == ss[1..][..k - 1];
    }
  }

  /** A placed layout reads back as the item it lays out. */
  lemma {:induction false} PlacedReads(v: View, s: Syntax, len: nat, base: nat, start: nat)
    requires Sized(v) && Placed(v, s, base, start) && Good(s, len)
    ensures Represents(v, PositionTree(s, base)) && Content(v, PositionTree(s, base)) == s
    decreases s, 1
  {
    hide RecordAt, LinkAt, Placed, PlacedAll, Content;
    var t, r := PositionTree(s, base), RecordOf(s, start);
    PlacedKids(v, s, base, start);
    forall k | 0 <= k < |s.kids|
      ensures Attached(v, r, k, t.kids[k].index) && Represents(v, t.kids[k]) && Content(v, t.kids[k]) == s.kids[k]
    {
      PlacedKidReads(v, s, len, base, start, k);
    }
    ContentIs(v, t, s, r);
  }

  lemma ContentIs(v: View, t: IndexTree, s: Syntax, r: Record)
    requires Sized(v) && Represents(v, t) && RecordAt(v, t.index) == Ok(r)
    requires |t.kids| == |s.kids| && s.cls == r.cls && s.kind == r.kind && s.lo == r.lo && s.hi == r.hi
    requires forall k :: 0 <= k < |s.kids| ==> Content(v, t.kids[k]) == s.kids[k]
    ensures Content(v, t) == s
  {
    hide RecordAt;
    forall k | 0 <= k < |s.kids| ensures Content(v, t).kids[k] == s.kids[k] { ContentAllAt(v, t.kids, k); }
  }

  lemma {:induction false} PlacedKidReads(v: View, s: Syntax, len: nat, base: nat, start: nat, k: nat)
    requires Sized(v) && Placed(v, s, base, start) && Good(s, len) && k < |s.kids|
    ensures var kid := PositionTree(s, base).kids[k];
      && Attached(v, RecordOf(s, start), k, kid.index) && Represents(v, kid) && Content(v, kid) == s.kids[k]
    decreases s, 0
  {
    hide RecordAt, LinkAt, Placed, PlacedAll, Represents;
    PlacedKids(v, s, base, start);
    CheckedStart(v, base);
    PlacedAllAt(v, s.kids, base + 1, start + |s.kids|, k);
    PlacedReads(v, s.kids[k], len, base + 1 + SizeAll(s.kids[..k]), start + |s.kids| + (SizeAll(s.kids[..k]) - k));
    PositionAt(s.kids, base + 1, k);
    assert LinkAt(v, start + k) == Ok(Positions(s.kids, base + 1)[k]);
  }

  lemma CheckedStart(v: View, index: nat)
    requires Sized(v) && RecordAt(v, index).Ok?
    ensures RecordAt(v, index).value.childStart + RecordAt(v, index).value.childLen <= U32_MAX
  {
  }

  ghost function Run(base: nat, n: nat): (s: seq<nat>)
    ensures |s| == n && forall i :: 0 <= i < n ==> s[i] == base + i
  {
    seq(n, i => base + i)
  }

  lemma {:induction false} PositionOrder(s: Syntax, base: nat)
    ensures Preorder(PositionTree(s, base)) == Run(base, Size(s))
    decreases s, 1
  {
    PositionOrderAll(s.kids, base + 1);
    assert Run(base, Size(s)) == [base] + Run(base + 1, Size(s) - 1);
  }

  lemma {:induction false} PositionOrderAll(ss: seq<Syntax>, base: nat)
    ensures PreorderAll(PositionForest(ss, base)) == Run(base, SizeAll(ss))
    decreases ss, 0
  {
    if ss != [] {
      PositionOrder(ss[0], base);
      PositionOrderAll(ss[1..], base + Size(ss[0]));
      assert PositionForest(ss, base)[1..] == PositionForest(ss[1..], base + Size(ss[0]));
      assert Run(base, SizeAll(ss)) == Run(base, Size(ss[0])) + Run(base + Size(ss[0]), SizeAll(ss[1..]));
    }
  }

  lemma PlacedTree(v: View, s: Syntax, len: nat, base: nat, start: nat)
    requires Sized(v) && Placed(v, s, base, start) && Good(s, len)
    ensures TreeAt(v, base, PositionTree(s, base)) && Content(v, PositionTree(s, base)) == s
  {
    hide RecordAt, Represents, Placed;
    PlacedReads(v, s, len, base, start);
    PositionOrder(s, base);
  }

  // ------------------------------------------------------------- the walk

  /** Check the children of a record, last first, and push them. */
  method PushKids(v: View, r: Record, stack: seq<nat>) returns (out: Result<seq<nat>>)
    requires Sized(v)
    ensures Kids(v, r, 0).Err? ==> out == Err(Kids(v, r, 0).error)
    ensures Kids(v, r, 0).Ok? ==> out.Ok? && Pending(out.value) == Kids(v, r, 0).value + Pending(stack)
  {
    hide RecordAt, ChildAt;
    var next := stack;
    var i := r.childLen;
    while i > 0
      invariant 0 <= i <= r.childLen && Kids(v, r, i).Ok? && Pending(next) == Kids(v, r, i).value + Pending(stack)
    {
      i := i - 1;
      var child := ChildAt(v, r, i);
      if child.Err? {
        KidsFail(v, r, i);
        return Err(child.error);
      }
      var record := RecordAt(v, child.value);
      if record.Err? {
        KidsFail(v, r, i);
        return Err(record.error);
      }
      if record.value.lo < r.lo || record.value.hi > r.hi {
        KidsFail(v, r, i);
        return Err(Range);
      }
      PendingPush(next, child.value);
      next := next + [child.value];
    }
    out := Ok(next);
  }

  /** A failing child makes every longer check fail with the same error. */
  lemma {:induction false} KidsFail(v: View, r: Record, from: nat)
    requires Sized(v) && from <= r.childLen && Kids(v, r, from).Err?
    ensures Kids(v, r, 0).Err? && Kids(v, r, 0).error == Kids(v, r, from).error
    decreases from
  {
    hide RecordAt, ChildAt;
    if from > 0 { KidsFail(v, r, from - 1); }
  }

  ghost function After(order: seq<nat>, r: Result<seq<nat>>): Result<seq<nat>> {
    match r case Err(e) => Err(e) case Ok(more) => Ok(order + more)
  }

  lemma AfterStep(order: seq<nat>, x: nat, r: Result<seq<nat>>)
    ensures After(order, After([x], r)) == After(order + [x], r)
  {
    if r.Ok? { assert order + ([x] + r.value) == (order + [x]) + r.value; }
  }

  /** One pop of the walk. */
  method VisitOne(v: View, root: Record, current: nat, rest: seq<nat>, ghost seen: set<nat>)
    returns (out: Result<seq<nat>>)
    requires Sized(v) && current < v.items && current !in seen
    ensures out.Err? ==> Walk(v, root, [current] + Pending(rest), seen) == Err(out.error)
    ensures out.Ok? ==>
              Walk(v, root, [current] + Pending(rest), seen)
                  == After([current], Walk(v, root, Pending(out.value), seen + {current}))
  {
    hide RecordAt, Kids;
    ghost var pending := [current] + Pending(rest);
    assert pending[0] == current && pending[1..] == Pending(rest);
    assert current in Under(v.items) - seen;
    var record := RecordAt(v, current);
    if record.Err? { return Err(record.error); }
    if record.value.lo < root.lo || record.value.hi > root.hi { return Err(Range); }
    out := PushKids(v, record.value, rest);
  }

  lemma WalkStops(v: View, root: Record, pending: seq<nat>, seen: set<nat>)
    requires Sized(v)
    ensures pending == [] ==> Walk(v, root, pending, seen) == Ok([])
    ensures pending != [] && (pending[0] >= v.items || pending[0] in seen) ==>
              Walk(v, root, pending, seen) == Err(Reference)
  {
  }

  lemma WalkFails(v: View, root: Record, stack: seq<nat>, order: seq<nat>, current: nat)
    requires Sized(v) && Pending(stack) != [] && Pending(stack)[0] == current
    requires current >= v.items || current in Elements(order)
    ensures After(order, Walk(v, root, Pending(stack), Elements(order))) == Err(Reference)
  {
    hide Pending, Elements, Under;
    WalkStops(v, root, Pending(stack), Elements(order));
  }

  lemma AfterErr(order: seq<nat>, r: Result<seq<nat>>)
    ensures r.Err? ==> After(order, r) == Err(r.error)
  {
  }

  lemma WalkDone(v: View, root: Record, order: seq<nat>)
    requires Sized(v)
    ensures After(order, Walk(v, root, Pending([]), Elements(order))) == Ok(order)
  {
    assert Pending<nat>([]) == [] && order + [] == order;
  }

  /** The marks are exactly the listed indices. */
  ghost predicate Marks(seen: seq<bool>, items: nat, order: seq<nat>) {
    |seen| == items && forall i :: 0 <= i < items ==> (seen[i] <==> i in Elements(order))
  }

  lemma MarkNext(seen: seq<bool>, items: nat, order: seq<nat>, x: nat)
    requires Marks(seen, items, order) && x < items
    ensures Marks(seen[x := true], items, order + [x])
  {
    hide Elements;
    ElementsSnoc(order, x);
  }

  lemma PendingTop(stack: seq<nat>)
    requires stack != []
    ensures var last := |stack| - 1;
              Pending(stack) == [stack[last]] + Pending(stack[..last]) && Pending(stack)[0] == stack[last]
  {
  }

  lemma WalkStart(v: View, root: Record, index: nat)
    requires Sized(v)
    ensures Pending([index]) == [index] && Elements([]) == {}
    ensures Walk(v, root, [index], {}) == After([], Walk(v, root, Pending([index]), Elements([])))
    ensures Marks(seq(v.items, _ => false), v.items, [])
  {
    hide Walk;
    assert Pending([index]) == [index] && Elements([]) == {};
    var want := Walk(v, root, [index], {});
    if want.Ok? { assert [] + want.value == want.value; }
  }

  /** The depth-first walk with its `seen` marks. */
  method DetachOrder(v: View, root: Record, index: nat) returns (r: Result<seq<nat>>)
    requires Sized(v)
    ensures r == Walk(v, root, [index], {})
  {
    hide Walk, Pending, After, Elements, Under;
    var seen := seq(v.items, _ => false);
    var order: seq<nat> := [];
    var stack := [index];
    ghost var want := Walk(v, root, [index], {});
    WalkStart(v, root, index);
    while |stack| > 0
      invariant Marks(seen, v.items, order)
      invariant want == After(order, Walk(v, root, Pending(stack), Elements(order)))
      decreases Under(v.items) - Elements(order), |stack|
    {
      var current, rest := stack[|stack| - 1], stack[..|stack| - 1];
      PendingTop(stack);
      if current >= v.items || seen[current] {
        WalkFails(v, root, stack, order, current);
        return Err(Reference);
      }
      assert current in Under(v.items) - Elements(order);
      var next := VisitOne(v, root, current, rest, Elements(order));
      AfterErr(order, Walk(v, root, Pending(stack), Elements(order)));
      if next.Err? { return Err(next.error); }
      AfterStep(order, current, Walk(v, root, Pending(next.value), Elements(order) + {current}));
      ElementsSnoc(order, current);
      MarkNext(seen, v.items, order, current);
      seen := seen[current := true];
      order := order + [current];
      stack := next.value;
    }
    WalkDone(v, root, order);
    r := Ok(order);
  }

  // --------------------------------------------------------- the emission

  ghost predicate Maps(mapping: seq<nat>, order: seq<nat>, upTo: nat) {
    upTo <= |order| && forall i :: 0 <= i < upTo ==> order[i] < |mapping| && mapping[order[i]] == i
  }

  method BuildMapping(items: nat, order: seq<nat>) returns (mapping: seq<nat>)
    requires NoRepeats(order) && forall i :: 0 <= i < |order| ==> order[i] < items
    ensures Maps(mapping, order, |order|)
  {
    mapping := seq(items, _ => U32_MAX);
    for i := 0 to |order|
      invariant |mapping| == items && Maps(mapping, order, i)
    {
      mapping := mapping[order[i] := i];
    }
  }

  /** The new positions of the children of the record at position `p`. */
  method MapKids(v: View, source: Record, mapping: seq<nat>, ghost order: seq<nat>, ghost p: nat,
                 ghost t: IndexTree, ghost rest: seq<IndexTree>)
    returns (links: seq<nat>)
    requires Sized(v) && Represents(v, t) && RecordAt(v, t.index) == Ok(source) && p < |order|
    requires order[p + 1..] == PreorderAll(t.kids + rest) && Maps(mapping, order, |order|)
    ensures links == Positions(Content(v, t).kids, p + 1)
  {
    hide RecordAt, ChildAt, Content;
    links := [];
    ghost var want := Positions(Content(v, t).kids, p + 1);
    for k := 0 to source.childLen
      invariant |links| == k && forall l :: 0 <= l < k ==> links[l] == want[l]
    {
      assert Attached(v, source, k, t.kids[k].index);
      var child := ChildAt(v, source, k);
      KidPosition(v, t, rest, k);
      PositionAt(Content(v, t).kids, p + 1, k);
      assert order[want[k]] == order[p + 1..][want[k] - (p + 1)] == t.kids[k].index;
      links := links + [mapping[child.value]];
    }
  }

  /** What is still to be emitted for the forest, after what was emitted. */
  ghost predicate Emitted(v: View, c: Syntax, from: nat, forest: seq<IndexTree>, p: nat, records: seq<Record>,
                          children: seq<nat>)
    requires Sized(v) && RepresentsAll(v, forest)
  {
    && Recs(Move(c, 0 - from), 0) == records + RecsAll(MoveAll(ContentAll(v, forest), 0 - from), |children|)
    && Links(c, 0) == children + LinksAll(ContentAll(v, forest), p)
  }

  lemma EmittedStart(v: View, t: IndexTree, from: nat)
    requires Sized(v) && Represents(v, t)
    ensures RepresentsAll(v, [t]) && Emitted(v, Content(v, t), from, [t], 0, [], [])
  {
    hide RecordAt, Represents;
    var c := Content(v, t);
    assert [t][0] == t && [t][1..] == [];
    assert ContentAll(v, [t]) == [c] + [] == [c];
    assert [c][0] == c && [c][1..] == [];
    assert MoveAll([c], 0 - from) == [Move(c, 0 - from)] + [] == [Move(c, 0 - from)];
    var m := Move(c, 0 - from);
    assert [m][0] == m && [m][1..] == [];
    assert RecsAll([m], 0) == Recs(m, 0) + [] == Recs(m, 0);
    assert LinksAll([c], 0) == Links(c, 0) + [] == Links(c, 0);
  }

  lemma EmittedStep(v: View, c: Syntax, from: nat, t: IndexTree, rest: seq<IndexTree>, p: nat, records: seq<Record>,
                    children: seq<nat>)
    requires Sized(v) && Represents(v, t) && RepresentsAll(v, rest) && RepresentsAll(v, [t] + rest)
    requires RepresentsAll(v, t.kids + rest)
    requires Emitted(v, c, from, [t] + rest, p, records, children)
    ensures var s := Content(v, t);
            Emitted(v, c, from, t.kids + rest, p + 1,
              records + [RecordOf(Move(s, 0 - from), |children|)], children + Positions(s.kids, p + 1))
  {
    hide RecordAt, Represents, Move, Content, Recs, Links, RecsAll, LinksAll, MoveAll, Positions, RecordOf;
    var s, d := Content(v, t), 0 - from;
    KidsRepresented(v, t);
    ContentKids(v, t);
    ContentCons(v, t, rest);
    ContentAppend(v, t.kids, rest);
    var others := ContentAll(v, rest);
    LinksOpen(s, others, p);
    MoveCons(s, others, d);
    MoveAppend(s.kids, others, d);
    RecsOpen(Move(s, d), MoveAll(others, d), |children|);
    MoveKids(s, d);
    var r := RecordOf(Move(s, d), |children|);
    var more := RecsAll(MoveAll(s.kids + others, d), |children| + |s.kids|);
    assert records + ([r] + more) == (records + [r]) + more;
    var q, links := Positions(s.kids, p + 1), LinksAll(s.kids + others, p + 1);
    assert children + (q + links) == (children + q) + links;
  }

  lemma ContentKids(v: View, t: IndexTree)
    requires Sized(v) && Represents(v, t) && RepresentsAll(v, t.kids)
    ensures Content(v, t).kids == ContentAll(v, t.kids)
  {
    hide RecordAt;
  }

  lemma ContentCons(v: View, t: IndexTree, rest: seq<IndexTree>)
    requires Sized(v) && Represents(v, t) && RepresentsAll(v, rest) && RepresentsAll(v, [t] + rest)
    ensures ContentAll(v, [t] + rest) == [Content(v, t)] + ContentAll(v, rest)
  {
    hide Represents, Content;
    assert ([t] + rest)[0] == t && ([t] + rest)[1..] == rest;
  }

  lemma MoveCons(s: Syntax, rest: seq<Syntax>, d: int)
    ensures MoveAll([s] + rest, d) == [Move(s, d)] + MoveAll(rest, d)
  {
    assert ([s] + rest)[0] == s && ([s] + rest)[1..] == rest;
  }

  lemma MoveKids(s: Syntax, d: int)
    ensures Move(s, d).kids == MoveAll(s.kids, d)
  {
  }

  lemma OpenForest(v: View, t: IndexTree, rest: seq<IndexTree>)
    requires Sized(v) && RepresentsAll(v, [t] + rest)
    ensures Represents(v, t) && RepresentsAll(v, rest) && RepresentsAll(v, t.kids + rest)
  {
    hide RecordAt;
    assert ([t] + rest)[0] == t && ([t] + rest)[1..] == rest;
    RepresentsTail(v, [t] + rest);
  }

  lemma MovedRecord(v: View, t: IndexTree, source: Record, from: nat, start: nat)
    requires Sized(v) && Represents(v, t) && RecordAt(v, t.index) == Ok(source) && from <= source.lo <= source.hi
    ensures RecordOf(Move(Content(v, t), 0 - from), start)
         == Record(source.cls, source.kind, source.lo - from, source.hi - from, start, source.childLen)
  {
    hide RecordAt;
  }

  /** Emit the records and child entries of the walked tree. */
  method EmitRecords(v: View, root: Record, order: seq<nat>, ghost t: IndexTree) returns (records: seq<Record>,
                     children: seq<nat>)
    requires Sized(v) && Represents(v, t) && order == Preorder(t) && NoRepeats(order)
    requires RecordAt(v, t.index) == Ok(root)
    requires forall i :: 0 <= i < |order| ==> order[i] < v.items
    ensures records == Recs(Normal(Content(v, t)), 0) && children == Links(Content(v, t), 0)
  {
    hide RecordAt, Represents, Content, RepresentsAll, Emitted, PreorderAll, Preorder, Within, Maps, Positions,
      RecordOf;
    var mapping := BuildMapping(v.items, order);
    records, children := [], [];
    ghost var c, forest := Content(v, t), [t];
    EmittedStart(v, t, root.lo);
    OneTree(v, root, t);
    assert order[0..] == order;
    for p := 0 to |order|
      invariant RepresentsAll(v, forest) && Within(v, root, forest) && order[p..] == PreorderAll(forest)
      invariant Emitted(v, c, root.lo, forest, p, records, children)
    {
      NextTree(v, root, order, p, forest);
      ghost var first, rest := forest[0], forest[1..];
      var source := RecordAt(v, order[p]).value;
      var links := MapKids(v, source, mapping, order, p, first, rest);
      EmittedStep(v, c, root.lo, first, rest, p, records, children);
      CheckedFields(v, order[p]);
      MovedRecord(v, first, source, root.lo, |children|);
      records := records + [Record(source.cls, source.kind, source.lo - root.lo, source.hi - root.lo, |children|,
                                   source.childLen)];
      children := children + links;
      forest := first.kids + rest;
    }
    EmittedAll(v, c, root.lo, forest, order, records, children);
  }

  lemma OneTree(v: View, root: Record, t: IndexTree)
    requires Sized(v) && Represents(v, t) && RecordAt(v, t.index) == Ok(root)
    ensures PreorderAll([t]) == Preorder(t) && Within(v, root, [t])
  {
    hide RecordAt, Represents;
    assert [t][1..] == [];
    assert Preorder(t) + [] == Preorder(t);
  }

  /** The next record to emit is the root of the first waiting tree. */
  lemma NextTree(v: View, root: Record, order: seq<nat>, p: nat, forest: seq<IndexTree>)
    requires Sized(v) && RepresentsAll(v, forest) && Within(v, root, forest)
    requires p < |order| && order[p..] == PreorderAll(forest)
    ensures forest != []
    ensures var first, rest := forest[0], forest[1..];
      && forest == [first] + rest
      && Represents(v, first) && RepresentsAll(v, rest) && RepresentsAll(v, [first] + rest)
          && RepresentsAll(v, first.kids + rest)
      && Within(v, root, first.kids + rest)
      && order[p] == first.index && order[p + 1..] == PreorderAll(first.kids + rest)
      && RecordAt(v, order[p]).Ok? && root.lo <= RecordAt(v, order[p]).value.lo
  {
    hide RecordAt, Represents, RepresentsAll, Within, Preorder;
    NotEmpty(order, p, forest);
    var first, rest := forest[0], forest[1..];
    assert forest == [first] + rest;
    OpenForest(v, first, rest);
    PreorderOpen(first, rest);
    assert order[p..][0] == order[p] && order[p..][1..] == order[p + 1..];
    OpenWithin(v, root, first, rest);
    FirstWithin(v, root, first, rest);
  }

  lemma NotEmpty(order: seq<nat>, p: nat, forest: seq<IndexTree>)
    requires p < |order| && order[p..] == PreorderAll(forest)
    ensures forest != []
  {
    assert |order[p..]| > 0;
  }

  lemma FirstWithin(v: View, root: Record, first: IndexTree, rest: seq<IndexTree>)
    requires Sized(v) && Within(v, root, [first] + rest)
    ensures RecordAt(v, first.index).Ok? && root.lo <= RecordAt(v, first.index).value.lo
  {
    hide RecordAt;
    assert ([first] + rest)[0] == first;
  }

  lemma EmittedAll(v: View, c: Syntax, from: nat, forest: seq<IndexTree>, order: seq<nat>, records: seq<Record>,
                   children: seq<nat>)
    requires Sized(v) && RepresentsAll(v, forest) && order[|order|..] == PreorderAll(forest)
    requires Emitted(v, c, from, forest, |order|, records, children)
    ensures records == Recs(Move(c, 0 - from), 0) && children == Links(c, 0)
  {
    hide RecordAt, Represents, Recs, Links, Move;
    assert forest == [];
    assert records + [] == records && children + [] == children;
  }

  // --------------------------------------------------------------- detach

  datatype Detached = Detached(sourceStart: nat, sourceEnd: nat, records: Text, root: nat)

  /** What detaching an item gives: its former range and its compact form. */
  ghost function DetachedOf(s: Syntax): Detached {
    Detached(s.lo, s.hi, Compact(Normal(s)), 0)
  }

  /** What `detach_syntax` answers. */
  ghost predicate DetachSpec(b: Text, sourceLen: nat, index: nat, r: Result<Detached>) {
    match NewView(b, sourceLen)
    case Err(e) => r == Err(e)
    case Ok(v) =>
      match RecordAt(v, index)
      case Err(e) => r == Err(e)
      case Ok(root) =>
        match Walk(v, root, [index], {})
        case Err(e) => r == Err(e)
        case Ok(_) => r.Ok? && exists t :: TreeAt(v, index, t) && r.value == DetachedOf(Content(v, t))
  }

  lemma {:induction false} ShortOrder(order: seq<nat>, n: nat)
    requires NoRepeats(order) && forall i :: 0 <= i < |order| ==> order[i] < n
    ensures |order| <= n
  {
    ElementsSize(order);
    SubsetSize(Elements(order), Under(n));
  }

  lemma {:induction false} OrderInTable(v: View, t: IndexTree, i: nat)
    requires Sized(v) && Represents(v, t) && i < |Preorder(t)|
    ensures Preorder(t)[i] < v.items
    decreases t, 1
  {
    RootInTable(v, t);
    if i > 0 { OrderInTableAll(v, t.kids, i - 1); }
  }

  lemma {:induction false} OrderInTableAll(v: View, ts: seq<IndexTree>, i: nat)
    requires Sized(v) && RepresentsAll(v, ts) && i < |PreorderAll(ts)|
    ensures PreorderAll(ts)[i] < v.items
    decreases ts, 0
  {
    hide Represents;
    var n := |Preorder(ts[0])|;
    if i < n { OrderInTable(v, ts[0], i); } else { OrderInTableAll(v, ts[1..], i - n); }
  }

  /** Sizes of a tree inside a table: the casts to `u32` cannot truncate. */
  lemma TreeFits(v: View, index: nat, t: IndexTree)
    requires Sized(v) && TreeAt(v, index, t)
    ensures Size(Content(v, t)) <= v.items
    ensures forall i :: 0 <= i < |Preorder(t)| ==> Preorder(t)[i] < v.items
  {
    hide RecordAt, Represents;
    forall i | 0 <= i < |Preorder(t)| ensures Preorder(t)[i] < v.items { OrderInTable(v, t, i); }
    ShortOrder(Preorder(t), v.items);
    PreorderSize(v, t);
  }

  /** Copy one syntax subtree into compact independent records. */
  method DetachSyntax(b: Text, sourceLen: nat, index: nat) returns (r: Result<Detached>)
    ensures DetachSpec(b, sourceLen, index, r)
  {
    hide RecordAt, Walk, Represents, Content, Encoded, NewView, Recs, Links, Size;
    var view := NewView(b, sourceLen);
    if view.Err? { return Err(view.error); }
    var v := view.value;
    var root := RecordAt(v, index);
    if root.Err? { return Err(root.error); }
    var order := DetachOrder(v, root.value, index);
    if order.Err? { return Err(order.error); }
    WalkExact(v, index);
    ghost var t :| TreeAt(v, index, t);
    TreeFits(v, index, t);
    ghost var c := Content(v, t);
    var records, children := EmitRecords(v, root.value, order.value, t);
    MoveKeepsShape(c, 0 - c.lo, 0);
    LayoutSizes(Normal(c), 0, 0);
    var bytes := EncodeSyntax(records, children, 0);
    r := Ok(Detached(root.value.lo, root.value.hi, bytes.value, 0));
  }

  // ------------------------------------------------------------- theorems

  /** Detach succeeds exactly when the view opens and the records reachable
      from the index form a tree with nested ranges; the result is that tree
      in preorder, moved to zero, with one child entry per item but one. */
  lemma DetachExact(b: Text, sourceLen: nat, index: nat, r: Result<Detached>)
    requires DetachSpec(b, sourceLen, index, r)
    ensures r.Ok? <==> NewView(b, sourceLen).Ok? && exists t :: TreeAt(NewView(b, sourceLen).value, index, t)
    ensures NewView(b, sourceLen).Ok? ==>
              forall t :: TreeAt(NewView(b, sourceLen).value, index, t) ==>
                r == Ok(DetachedOf(Content(NewView(b, sourceLen).value, t)))
  {
    hide Walk, Represents, Content, DetachedOf;
    if NewView(b, sourceLen).Ok? {
      var v := NewView(b, sourceLen).value;
      if RecordAt(v, index).Ok? { WalkExact(v, index); }
      forall t | TreeAt(v, index, t) ensures r == Ok(DetachedOf(Content(v, t))) {
        RootInTable(v, t);
        var u :| TreeAt(v, index, u) && r.value == DetachedOf(Content(v, u));
        RepresentsUnique(v, t, u);
      }
      if exists t :: TreeAt(v, index, t) {
        var t :| TreeAt(v, index, t);
        RootInTable(v, t);
      }
    }
  }

  /** A good item placed in a table detaches to its compact form. */
  lemma DetachPlaced(b: Text, sourceLen: nat, s: Syntax, base: nat, start: nat, r: Result<Detached>)
    requires NewView(b, sourceLen).Ok? && Placed(NewView(b, sourceLen).value, s, base, start) && Good(s, sourceLen)
    requires DetachSpec(b, sourceLen, base, r)
    ensures r == Ok(DetachedOf(s))
  {
    hide NewView, Placed, Represents, Content, DetachSpec, DetachedOf;
    var v := NewView(b, sourceLen).value;
    PlacedTree(v, s, sourceLen, base, start);
    DetachExact(b, sourceLen, base, r);
  }

  /** Records that pass the checks of a table of `n` items and `m` entries. */
  ghost predicate Checked(recs: seq<Record>, len: nat, m: nat) {
    forall i :: 0 <= i < |recs| ==> Storable(recs[i]) && CheckFields(len, m, recs[i]) == Ok(recs[i])
  }

  /** An encoding of checked records and in-range links holds them. */
  lemma EncodedHolds(records: seq<Record>, children: seq<nat>, root: nat, len: nat)
    requires Checked(records, len, |children|) && |records| <= U32_MAX
    requires forall i :: 0 <= i < |children| ==> children[i] < |records|
    ensures var v := EncodedView(records, children, root, len);
              HoldsRecords(v, 0, records) && HoldsLinks(v, 0, children)
  {
    hide RecordAt, LinkAt, CheckFields, Encoded;
    var v := EncodedView(records, children, root, len);
    forall j | 0 <= j < 0 + |records|
      ensures RecordAt(v, j) == Ok(records[j - 0])
    {
      EncodedRecord(records, children, root, len, j);
    }
    forall j | 0 <= j < 0 + |children|
      ensures LinkAt(v, j) == Ok(children[j - 0])
    {
      EncodedLink(records, children, root, len, j);
    }
  }

  lemma CheckedAppend(a: seq<Record>, b: seq<Record>, len: nat, m: nat)
    requires Checked(a, len, m) && Checked(b, len, m)
    ensures Checked(a + b, len, m)
  {
    hide CheckFields;
  }

  /** The records of a good item pass the checks. */
  lemma {:induction false} RecsChecked(s: Syntax, len: nat, start: nat, m: nat)
    requires Good(s, len) && len <= U32_MAX && start + (Size(s) - 1) <= m <= U32_MAX
    ensures Checked(Recs(s, start), len, m)
    decreases s, 1
  {
    assert Checked([RecordOf(s, start)], len, m);
    RecsCheckedAll(s.kids, len, start + |s.kids|, m);
    CheckedAppend([RecordOf(s, start)], RecsAll(s.kids, start + |s.kids|), len, m);
  }

  lemma {:induction false} RecsCheckedAll(ss: seq<Syntax>, len: nat, start: nat, m: nat)
    requires forall k :: 0 <= k < |ss| ==> Good(ss[k], len)
    requires len <= U32_MAX && start + (SizeAll(ss) - |ss|) <= m <= U32_MAX
    ensures Checked(RecsAll(ss, start), len, m)
    decreases ss, 0
  {
    hide Good, Checked;
    if ss == [] {
      CheckedNone(len, m);
    } else {
      RecsChecked(ss[0], len, start, m);
      RecsCheckedAll(ss[1..], len, start + (Size(ss[0]) - 1), m);
      CheckedAppend(Recs(ss[0], start), RecsAll(ss[1..], start + (Size(ss[0]) - 1)), len, m);
    }
  }

  lemma CheckedNone(len: nat, m: nat)
    ensures Checked([], len, m)
  {
  }

  /** The compact form of a good item opens and holds it at position zero. */
  lemma CompactReads(s: Syntax, len: nat)
    requires Good(s, len) && len <= U32_MAX && Size(s) <= U32_MAX
    ensures NewView(Compact(s), len) == Ok(EncodedView(Recs(s, 0), Links(s, 0), 0, len))
    ensures Placed(EncodedView(Recs(s, 0), Links(s, 0), 0, len), s, 0, 0)
  {
    hide Good, Encoded, NewView, HoldsRecords, HoldsLinks, CheckFields;
    LayoutSizes(s, 0, 0);
    RecsChecked(s, len, 0, |Links(s, 0)|);
    var recs, links := Recs(s, 0), Links(s, 0);
    forall i | 0 <= i < |links| ensures links[i] < |recs| { LinksInRange(s, 0, i); }
    EncodedHolds(recs, links, 0, len);
    assert Storable(recs[0]) && CheckFields(len, |links|, recs[0]) == Ok(recs[0]);
    EncodedOpens(recs, links, 0, len);
  }

  /** The compact form of an item that starts at zero detaches to itself. */
  lemma CompactDetaches(n: Syntax, r: Result<Detached>)
    requires n.lo == 0 && Good(n, n.hi) && n.hi <= U32_MAX && Size(n) <= U32_MAX
    requires DetachSpec(Compact(n), n.hi, 0, r)
    ensures r == Ok(Detached(0, n.hi, Compact(n), 0))
  {
    hide NewView, DetachSpec, Move, Good, Size, Recs, Links, Encoded, EncodedView, Placed, Compact;
    CompactReads(n, n.hi);
    DetachPlaced(Compact(n), n.hi, n, 0, 0, r);
    NormalMoved(n, n.hi, 0);
  }

  /** Detaching a detached item again is the identity. */
  lemma DetachAgain(b: Text, sourceLen: nat, index: nat, r: Result<Detached>, r': Result<Detached>)
    requires DetachSpec(b, sourceLen, index, r) && r.Ok? && r.value.sourceStart <= r.value.sourceEnd
    requires DetachSpec(r.value.records, r.value.sourceEnd - r.value.sourceStart, 0, r')
    ensures r' == Ok(Detached(0, r.value.sourceEnd - r.value.sourceStart, r.value.records, 0))
  {
    hide DetachSpec, Move, Good, Size, Compact;
    var n := DetachedItem(b, sourceLen, index, r);
    CompactDetaches(n, r');
  }

  /** What a detached item is: the compact form of an item that starts at zero. */
  lemma DetachedItem(b: Text, sourceLen: nat, index: nat, r: Result<Detached>) returns (n: Syntax)
    requires DetachSpec(b, sourceLen, index, r) && r.Ok?
    ensures n.lo == 0 && Good(n, n.hi) && n.hi <= U32_MAX && Size(n) <= U32_MAX
    ensures r.value.records == Compact(n) && r.value.sourceEnd - r.value.sourceStart == n.hi
  {
    hide NewView, Represents, Content, DetachSpec, Move, Good, Size, Compact;
    var t := DetachedTree(b, sourceLen, index, r);
    DetachedShape(b, sourceLen, index, t);
    n := Normal(Content(NewView(b, sourceLen).value, t));
  }

  /** The tree that was detached. */
  lemma DetachedTree(b: Text, sourceLen: nat, index: nat, r: Result<Detached>) returns (t: IndexTree)
    requires DetachSpec(b, sourceLen, index, r) && r.Ok?
    ensures NewView(b, sourceLen).Ok? && TreeAt(NewView(b, sourceLen).value, index, t)
    ensures r.value == DetachedOf(Content(NewView(b, sourceLen).value, t))
  {
    hide NewView, RecordAt, Walk, Represents, Content, DetachedOf, Preorder, NoRepeats;
    t :| TreeAt(NewView(b, sourceLen).value, index, t)
        && r.value == DetachedOf(Content(NewView(b, sourceLen).value, t));
  }

  lemma GoodRange(s: Syntax, len: nat)
    requires Good(s, len)
    ensures s.lo <= s.hi <= len
  {
  }

  /** The normal form of a detached item is good, starts at zero and fits. */
  lemma DetachedShape(b: Text, sourceLen: nat, index: nat, t: IndexTree)
    requires NewView(b, sourceLen).Ok? && TreeAt(NewView(b, sourceLen).value, index, t)
    ensures var c := Content(NewView(b, sourceLen).value, t);
      && Good(c, sourceLen) && c.lo <= c.hi <= sourceLen <= U32_MAX
      && Good(Normal(c), c.hi - c.lo) && Normal(c).lo == 0 && Normal(c).hi == c.hi - c.lo
      && Size(Normal(c)) == Size(c) <= U32_MAX
  {
    hide RecordAt, Represents, Content, NewView, Good, Size;
    var v := NewView(b, sourceLen).value;
    var c := Content(v, t);
    ContentGood(v, t);
    GoodRange(c, sourceLen);
    TreeFits(v, index, t);
    GoodMoved(c, sourceLen, 0 - c.lo, c.hi - c.lo);
    MoveKeepsShape(c, 0 - c.lo, 0);
  }
}
