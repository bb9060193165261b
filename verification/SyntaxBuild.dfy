/** Building a node from existing syntax subtrees. */
module SyntaxBuild {
  import opened Common
  import opened Bytes
  import opened SyntaxFormat
  import opened SyntaxTree
  import opened SyntaxLayout
  import opened SyntaxDetach
  import opened Utf8

  datatype Part = Part(source: Text, records: Text, index: nat)

  datatype Built = Built(source: Text, records: Text)

  // ------------------------------------------------------------ the parts

  /** The subtree a part names, or the error of detaching it. */
  ghost function Found(p: Part): Result<Syntax> {
    match NewView(p.records, |p.source|)
    case Err(e) => Err(e)
    case Ok(v) =>
      match RecordAt(v, p.index)
      case Err(e) => Err(e)
      case Ok(root) =>
        match Walk(v, root, [p.index], {})
        case Err(e) => Err(e)
        case Ok(_) => if exists t :: TreeAt(v, p.index, t) then Ok(SomeContent(v, p.index)) else Err(Reference)
  }

  ghost function SomeContent(v: View, index: nat): (s: Syntax)
    requires Sized(v) && exists t :: TreeAt(v, index, t)
    ensures exists t :: TreeAt(v, index, t) && s == Content(v, t)
  {
    var t :| TreeAt(v, index, t);
    Content(v, t)
  }

  ghost predicate GoodItem(n: Syntax) {
    n.lo == 0 && n.hi <= U32_MAX && Good(n, n.hi) && Size(n) <= U32_MAX
  }

  /** Detaching a part answers exactly what the part names. */
  lemma FoundExact(p: Part, r: Result<Detached>)
    requires DetachSpec(p.records, |p.source|, p.index, r)
    ensures r.Ok? <==> Found(p).Ok?
    ensures r.Err? ==> r.error == Found(p).error
    ensures r.Ok? ==> r.value == DetachedOf(Found(p).value)
  {
    hide NewView, RecordAt, Walk, Represents, Content, DetachedOf, SomeContent;
    DetachExact(p.records, |p.source|, p.index, r);
  }

  /** What a part names is in its source, and stands on its own once moved to
      zero. */
  lemma FoundGood(p: Part)
    requires Found(p).Ok?
    ensures var s := Found(p).value;
      && s.lo <= s.hi <= |p.source|
      && GoodItem(Normal(s)) && Normal(s).hi == s.hi - s.lo
  {
    hide NewView, RecordAt, Walk, Represents, Content, Move, Size, Good;
    var v := NewView(p.records, |p.source|).value;
    var t :| TreeAt(v, p.index, t) && Found(p).value == Content(v, t);
    DetachedShape(p.records, |p.source|, p.index, t);
  }

  /** The parts read so far: their subtrees moved to zero, and their texts
      one after the other. */
  datatype Joined = Joined(items: seq<Syntax>, text: Text)

  /** The tables of these items can be numbered with 32 bits. */
  ghost predicate Numbered(items: seq<Syntax>) {
    Extent(items) <= U32_MAX && SizeAll(items) - 1 <= U32_MAX
  }

  ghost function Join(j: Joined, p: Part): Result<Joined> {
    match Found(p)
    case Err(e) => Err(e)
    case Ok(s) =>
      FoundGood(p);
      var items := j.items + [Normal(s)];
      if !Boundary(p.source, s.lo) || !Boundary(p.source, s.hi) then Err(Range)
      else if !Numbered(items) then Err(Length)
      else Ok(Joined(items, j.text + p.source[s.lo..s.hi]))
  }

  /** The parts in order; the first one that cannot be added decides the error. */
  ghost function JoinAll(parts: seq<Part>): Result<Joined> {
    if parts == [] then Ok(Joined([], []))
    else
      match JoinAll(parts[..|parts| - 1])
      case Err(e) => Err(e)
      case Ok(j) => Join(j, parts[|parts| - 1])
  }

  // ----------------------------------------------------------- side by side

  /** The total width of items laid side by side. */
  ghost function Extent(ns: seq<Syntax>): nat {
    if ns == [] then 0 else Extent(ns[..|ns| - 1]) + ns[|ns| - 1].hi
  }

  /** The items moved side by side. */
  ghost function Spread(ns: seq<Syntax>): (ms: seq<Syntax>)
    ensures |ms| == |ns|
  {
    if ns == [] then []
    else
      var last := |ns| - 1;
      Spread(ns[..last]) + [Move(ns[last], Extent(ns[..last]))]
  }

  lemma SpreadSnoc(ns: seq<Syntax>, n: Syntax)
    ensures Spread(ns + [n]) == Spread(ns) + [Move(n, Extent(ns))]
    ensures Extent(ns + [n]) == Extent(ns) + n.hi
  {
    assert (ns + [n])[..|ns|] == ns;
  }

  lemma {:induction false} SpreadAt(ns: seq<Syntax>, k: nat)
    requires k < |ns|
    ensures Spread(ns)[k] == Move(ns[k], Extent(ns[..k]))
    ensures Extent(ns[..k]) + ns[k].hi == Extent(ns[..k + 1]) <= Extent(ns)
    decreases |ns|
  {
    hide Spread, Extent, Move;
    var last := |ns| - 1;
    assert ns[..k + 1] == ns[..k] + [ns[k]];
    SpreadSnoc(ns[..k], ns[k]);
    assert ns == ns[..last] + [ns[last]];
    SpreadSnoc(ns[..last], ns[last]);
    if k < last {
      SpreadAt(ns[..last], k);
      assert ns[..last][..k] == ns[..k] && ns[..last][..k + 1] == ns[..k + 1];
    } else {
      assert ns[..k + 1] == ns;
    }
  }

  ghost predicate GoodItems(ns: seq<Syntax>) {
    forall k :: 0 <= k < |ns| ==> GoodItem(ns[k])
  }

  /** Items side by side are good in a source that holds them all, and each
      moves back to itself. */
  lemma SpreadGood(ns: seq<Syntax>, k: nat)
    requires GoodItems(ns) && k < |ns|
    ensures var m := Spread(ns)[k];
      && Good(m, Extent(ns)) && m.lo == Extent(ns[..k]) && m.hi == Extent(ns[..k + 1])
      && Normal(m) == ns[k] && Size(m) == Size(ns[k])
  {
    hide Good, Move, Size;
    SpreadAt(ns, k);
    GoodMoved(ns[k], ns[k].hi, Extent(ns[..k]), Extent(ns));
    NormalMoved(ns[k], ns[k].hi, Extent(ns[..k]));
    MoveKeepsShape(ns[k], Extent(ns[..k]), 0);
    MovedEnds(ns[k], Extent(ns[..k]));
  }

  lemma MovedEnds(s: Syntax, d: nat)
    ensures Move(s, d).lo == s.lo + d && Move(s, d).hi == s.hi + d
  {
  }

  lemma {:induction false} SpreadSize(ns: seq<Syntax>)
    ensures SizeAll(Spread(ns)) == SizeAll(ns)
    decreases |ns|
  {
    if ns != [] {
      var last := |ns| - 1;
      SpreadSize(ns[..last]);
      MoveKeepsShape(ns[last], Extent(ns[..last]), 0);
      var m := Move(ns[last], Extent(ns[..last]));
      SizeAppend(Spread(ns[..last]), [m]);
      SizeSplit(ns, last);
      assert [m][1..] == [] && ns[last + 1..] == [];
    }
  }

  // -------------------------------------------------------- copying one part

  ghost function Total(recs: seq<Record>): nat {
    if recs == [] then 0 else Total(recs[..|recs| - 1]) + recs[|recs| - 1].childLen
  }

  lemma {:induction false} TotalAppend(a: seq<Record>, b: seq<Record>)
    ensures Total(a + b) == Total(a) + Total(b)
    decreases |b|
  {
    if b == [] {
      assert a + b == a;
    } else {
      var last := |b| - 1;
      TotalAppend(a, b[..last]);
      assert (a + b)[..|a + b| - 1] == a + b[..last];
    }
  }

  /** Every record begins its child entries where the previous one ended. */
  ghost predicate Contiguous(recs: seq<Record>, start: nat) {
    forall i :: 0 <= i < |recs| ==> recs[i].childStart == start + Total(recs[..i])
  }

  lemma ContiguousAppend(a: seq<Record>, b: seq<Record>, start: nat)
    requires Contiguous(a, start) && Contiguous(b, start + Total(a))
    ensures Contiguous(a + b, start)
  {
    forall i | 0 <= i < |a + b| ensures (a + b)[i].childStart == start + Total((a + b)[..i]) {
      if i < |a| {
        assert (a + b)[..i] == a[..i];
      } else {
        assert (a + b)[..i] == a + b[..i - |a|];
        TotalAppend(a, b[..i - |a|]);
      }
    }
  }

  lemma {:induction false} RecsContiguous(s: Syntax, start: nat)
    ensures Contiguous(Recs(s, start), start) && Total(Recs(s, start)) == Size(s) - 1
    decreases s, 1
  {
    hide Contiguous;
    var head := [RecordOf(s, start)];
    SingleContiguous(RecordOf(s, start));
    RecsContiguousAll(s.kids, start + |s.kids|);
    ContiguousAppend(head, RecsAll(s.kids, start + |s.kids|), start);
    TotalAppend(head, RecsAll(s.kids, start + |s.kids|));
  }

  lemma SingleContiguous(r: Record)
    ensures Contiguous([r], r.childStart) && Total([r]) == r.childLen
  {
    assert [r][..0] == [];
  }

  lemma {:induction false} RecsContiguousAll(ss: seq<Syntax>, start: nat)
    ensures Contiguous(RecsAll(ss, start), start) && Total(RecsAll(ss, start)) == SizeAll(ss) - |ss|
    decreases ss, 0
  {
    hide Contiguous, Total, Recs, Size;
    if ss == [] {
      ContiguousNone(start);
    } else {
      var next := start + (Size(ss[0]) - 1);
      RecsContiguous(ss[0], start);
      RecsContiguousAll(ss[1..], next);
      ContiguousAppend(Recs(ss[0], start), RecsAll(ss[1..], next), start);
      TotalAppend(Recs(ss[0], start), RecsAll(ss[1..], next));
    }
  }

  lemma ContiguousNone(start: nat)
    ensures Contiguous([], start) && Total([]) == 0
  {
  }

  /** `b` is `a` with ranges moved by `d` and child entries by `more`. */
  ghost predicate Relocated(a: seq<Record>, b: seq<Record>, d: nat, more: nat) {
    && |a| == |b|
    && forall i :: 0 <= i < |a| ==>
         b[i] == Record(a[i].cls, a[i].kind, a[i].lo + d, a[i].hi + d, a[i].childStart + more, a[i].childLen)
  }

  lemma RelocatedAppend(a: seq<Record>, b: seq<Record>, a': seq<Record>, b': seq<Record>, d: nat, more: nat)
    requires Relocated(a, b, d, more) && Relocated(a', b', d, more)
    ensures Relocated(a + a', b + b', d, more)
  {
  }

  lemma {:induction false} RecsRelocated(s: Syntax, start: nat, d: nat, more: nat)
    ensures Relocated(Recs(s, start), Recs(Move(s, d), start + more), d, more)
    decreases s, 1
  {
    var m := Move(s, d);
    RecsRelocatedAll(s.kids, start + |s.kids|, d, more);
    RelocatedAppend([RecordOf(s, start)], [RecordOf(m, start + more)],
      RecsAll(s.kids, start + |s.kids|), RecsAll(m.kids, start + more + |s.kids|), d, more);
  }

  lemma {:induction false} RecsRelocatedAll(ss: seq<Syntax>, start: nat, d: nat, more: nat)
    ensures Relocated(RecsAll(ss, start), RecsAll(MoveAll(ss, d), start + more), d, more)
    decreases ss, 0
  {
    if ss != [] {
      hide Relocated;
      var ms, m := MoveAll(ss, d), Size(ss[0]);
      assert ms[0] == Move(ss[0], d) && ms[1..] == MoveAll(ss[1..], d);
      MoveKeepsShape(ss[0], d, 0);
      RecsRelocated(ss[0], start, d, more);
      RecsRelocatedAll(ss[1..], start + (m - 1), d, more);
      RelocatedAppend(Recs(ss[0], start), Recs(ms[0], start + more),
        RecsAll(ss[1..], start + (m - 1)), RecsAll(ms[1..], start + more + (m - 1)), d, more);
    }
  }

  ghost predicate Raised(a: seq<nat>, b: seq<nat>, d: nat) {
    |a| == |b| && forall i :: 0 <= i < |a| ==> b[i] == a[i] + d
  }

  lemma {:induction false} LinksRaised(s: Syntax, base: nat, d: nat)
    ensures Raised(Links(s, base), Links(s, base + d), d)
    decreases s, 1
  {
    PositionsRaised(s.kids, base + 1, d);
    LinksRaisedAll(s.kids, base + 1, d);
  }

  lemma {:induction false} PositionsRaised(ss: seq<Syntax>, base: nat, d: nat)
    ensures Raised(Positions(ss, base), Positions(ss, base + d), d)
    decreases |ss|
  {
    if ss != [] { PositionsRaised(ss[1..], base + Size(ss[0]), d); }
  }

  lemma {:induction false} LinksRaisedAll(ss: seq<Syntax>, base: nat, d: nat)
    ensures Raised(LinksAll(ss, base), LinksAll(ss, base + d), d)
    decreases ss, 0
  {
    if ss != [] {
      LinksRaised(ss[0], base, d);
      LinksRaisedAll(ss[1..], base + Size(ss[0]), d);
    }
  }

  /** The last item of a subtree in preorder is somebody's child. */
  lemma {:induction false} LastLink(s: Syntax, base: nat) returns (i: nat)
    requires Size(s) > 1
    ensures i < |Links(s, base)| && Links(s, base)[i] == base + (Size(s) - 1)
    decreases s, 1
  {
    i := LastLinkAll(s.kids, base + 1);
  }

  lemma {:induction false} LastLinkAll(ss: seq<Syntax>, base: nat) returns (i: nat)
    requires ss != []
    ensures i < |Positions(ss, base) + LinksAll(ss, base)|
    ensures (Positions(ss, base) + LinksAll(ss, base))[i] == base + (SizeAll(ss) - 1)
    decreases ss, 0
  {
    hide Links, Size;
    var first, rest := ss[0], ss[1..];
    var p, l := Positions(rest, base + Size(first)), LinksAll(rest, base + Size(first));
    var here := Links(first, base);
    assert Positions(ss, base) == [base] + p && LinksAll(ss, base) == here + l;
    if rest == [] {
      if Size(first) == 1 {
        i := 0;
      } else {
        var j := LastLink(first, base);
        i := j + 1;
        assert (([base] + p) + (here + l))[i] == here[j];
      }
    } else {
      var j := LastLinkAll(rest, base + Size(first));
      i := if j < |p| then j + 1 else j + 1 + |here|;
      assert (([base] + p) + (here + l))[i] == (p + l)[j];
    }
  }

  /** Every record of a good subtree stays in the range of its root. */
  lemma {:induction false} RecsInside(s: Syntax, len: nat, start: nat, i: nat)
    requires Good(s, len) && i < |Recs(s, start)|
    ensures Recs(s, start)[i].lo <= Recs(s, start)[i].hi <= s.hi
    decreases s, 1
  {
    if i > 0 { RecsInsideAll(s.kids, len, s.hi, start + |s.kids|, i - 1); }
  }

  lemma {:induction false} RecsInsideAll(ss: seq<Syntax>, len: nat, hi: nat, start: nat, i: nat)
    requires forall k :: 0 <= k < |ss| ==> Good(ss[k], len) && ss[k].hi <= hi
    requires i < |RecsAll(ss, start)|
    ensures RecsAll(ss, start)[i].lo <= RecsAll(ss, start)[i].hi <= hi
    decreases ss, 0
  {
    hide Good, Recs, Size;
    var n := |Recs(ss[0], start)|;
    if i < n {
      RecsInside(ss[0], len, start, i);
    } else {
      RecsInsideAll(ss[1..], len, hi, start + (Size(ss[0]) - 1), i - n);
    }
  }

  /** Copy the child entries of one record, raised by `base`. */
  method CopyLinks(v: View, record: Record, base: nat, ghost links: seq<nat>, ghost raised: seq<nat>)
    returns (out: Result<seq<nat>>)
    requires Sized(v) && HoldsLinks(v, 0, links) && Raised(links, raised, base)
    requires record.childStart + record.childLen <= |links| <= U32_MAX
    ensures out.Ok? ==> out.value == raised[record.childStart..record.childStart + record.childLen]
    ensures out.Ok? ==> forall i :: record.childStart <= i < record.childStart + record.childLen ==>
              raised[i] <= U32_MAX
    ensures out.Err? ==> exists i :: 0 <= i < |raised| && raised[i] > U32_MAX
  {
    hide LinkAt;
    ghost var start := record.childStart;
    var copied: seq<nat> := [];
    for offset := 0 to record.childLen
      invariant copied == raised[start..start + offset]
      invariant forall i :: start <= i < start + offset ==> raised[i] <= U32_MAX
    {
      assert LinkAt(v, record.childStart + offset) == Ok(links[record.childStart + offset]);
      var child := ChildAt(v, record, offset).value;
      assert raised[start + offset] == child + base;
      if base + child > U32_MAX { return Err(Length); }
      copied := copied + [base + child];
    }
    out := Ok(copied);
  }

  /** What one part adds to the tables. */
  datatype Tables = Tables(records: seq<Record>, children: seq<nat>)

  ghost predicate PartView(v: View, n: Syntax) {
    Sized(v) && Placed(v, n, 0, 0) && v.items == Size(n) && GoodItem(n)
  }

  /** What the view of a detached part reads at position `i`, and where it
      goes. */
  lemma PartRecord(v: View, n: Syntax, i: nat, offset: nat, start: nat)
    requires PartView(v, n) && i < Size(n)
    ensures |Recs(n, 0)| == |Recs(Move(n, offset), start)| == Size(n)
    ensures var r := Recs(n, 0)[i];
      && RecordAt(v, i) == Ok(r) && r.childStart == Total(Recs(n, 0)[..i]) && r.lo <= r.hi <= n.hi
      && Total(Recs(n, 0)[..i + 1]) == r.childStart + r.childLen <= Size(n) - 1
      && Recs(Move(n, offset), start)[i]
          == Record(r.cls, r.kind, r.lo + offset, r.hi + offset, r.childStart + start, r.childLen)
  {
    hide RecordAt, HoldsRecords, HoldsLinks, Recs, Links, Move, Size, Good, Total, Contiguous;
    var recs := Recs(n, 0);
    LayoutSizes(n, 0, 0);
    MoveKeepsShape(n, offset, 0);
    LayoutSizes(Move(n, offset), start, 0);
    RecsContiguous(n, 0);
    RecsInside(n, n.hi, 0, i);
    RecsRelocated(n, 0, offset, start);
    HeldAt(v, recs, i);
    TotalNext(recs, i);
  }

  lemma HeldAt(v: View, recs: seq<Record>, i: nat)
    requires Sized(v) && HoldsRecords(v, 0, recs) && i < |recs|
    ensures RecordAt(v, i) == Ok(recs[i])
  {
    hide RecordAt;
    assert RecordAt(v, i) == Ok(recs[i - 0]);
  }

  lemma TotalNext(recs: seq<Record>, i: nat)
    requires Contiguous(recs, 0) && i < |recs|
    ensures recs[i].childStart == Total(recs[..i])
    ensures Total(recs[..i + 1]) == Total(recs[..i]) + recs[i].childLen <= Total(recs)
  {
    assert recs[..i + 1][..i] == recs[..i];
    assert recs == recs[..i + 1] + recs[i + 1..];
    TotalAppend(recs[..i + 1], recs[i + 1..]);
  }

  lemma PartLinks(v: View, n: Syntax, base: nat)
    requires PartView(v, n)
    ensures HoldsLinks(v, 0, Links(n, 0)) && |Links(n, 0)| == |Links(n, base)| == Size(n) - 1
    ensures Raised(Links(n, 0), Links(n, base), base)
    ensures forall i :: 0 <= i < |Links(n, base)| ==> Links(n, base)[i] < base + Size(n)
  {
    hide LinkAt, HoldsRecords, HoldsLinks, Links, Size, Good, Raised;
    LayoutSizes(n, 0, 0);
    LayoutSizes(n, 0, base);
    LinksRaised(n, 0, base);
    forall i | 0 <= i < |Links(n, base)| ensures Links(n, base)[i] < base + Size(n) { LinksInRange(n, base, i); }
  }

  lemma PartEnds(n: Syntax, base: nat)
    ensures Total([]) == 0 && |Recs(n, 0)| == Size(n) && Recs(n, 0)[0].hi == n.hi && Total(Recs(n, 0)) == Size(n) - 1
    ensures Size(n) > 1 ==> exists i :: 0 <= i < |Links(n, base)| && Links(n, base)[i] == base + (Size(n) - 1)
  {
    hide Size, Links;
    LayoutSizes(n, 0, 0);
    RecsContiguous(n, 0);
    if Size(n) > 1 { var i := LastLink(n, base); }
  }

  lemma TakeMore<T>(all: seq<T>, i: nat, j: nat)
    requires i <= j <= |all|
    ensures all[..j] == all[..i] + all[i..j]
  {
  }

  /** The moved range and the new positions fit 32 bits. */
  ghost predicate PartFits(n: Syntax, offset: nat, base: nat) {
    offset + n.hi <= U32_MAX && base + (Size(n) - 1) <= U32_MAX
  }

  /** The first `i` records of the part, with their child entries, stand behind
      the tables `t`. */
  ghost predicate Copied(n: Syntax, offset: nat, t: Tables, sofar: Tables, i: nat)
    requires i <= |Recs(n, 0)|
  {
    var moved, links, done := Recs(Move(n, offset), |t.children|), Links(n, |t.records|), Total(Recs(n, 0)[..i]);
    && |Recs(n, 0)| == |moved| && done <= |links|
    && sofar.records == t.records + moved[..i] && sofar.children == t.children + links[..done]
    && forall j :: 0 <= j < done ==> links[j] <= U32_MAX
  }

  lemma CopiedSizes(n: Syntax, offset: nat, t: Tables, sofar: Tables, i: nat)
    requires i <= |Recs(n, 0)| && Copied(n, offset, t, sofar, i)
    ensures |sofar.children| == |t.children| + Total(Recs(n, 0)[..i])
  {
    hide Recs, Links, Move, Total;
  }

  lemma CopiedNext(n: Syntax, offset: nat, t: Tables, sofar: Tables, i: nat)
    requires i < |Recs(n, 0)| && Copied(n, offset, t, sofar, i)
    requires var r, links := Recs(n, 0)[i], Links(n, |t.records|);
      && r.childStart == Total(Recs(n, 0)[..i])
      && Total(Recs(n, 0)[..i + 1]) == r.childStart + r.childLen <= |links|
      && forall j :: r.childStart <= j < r.childStart + r.childLen ==> links[j] <= U32_MAX
    ensures var r, links, moved := Recs(n, 0)[i], Links(n, |t.records|), Recs(Move(n, offset), |t.children|);
      && i < |moved|
      && var more := links[r.childStart..r.childStart + r.childLen];
      Copied(n, offset, t, Tables(sofar.records + [moved[i]], sofar.children + more), i + 1)
  {
    hide Recs, Links, Move, Total;
    var r, links, moved := Recs(n, 0)[i], Links(n, |t.records|), Recs(Move(n, offset), |t.children|);
    TakeMore(links, r.childStart, r.childStart + r.childLen);
    TakeMore(moved, i, i + 1);
  }

  /** Copy one record and its child entries. */
  method CopyRecord(v: View, offset: nat, base: nat, sofar: Tables, i: nat, ghost t: Tables, ghost n: Syntax)
    returns (out: Result<Tables>)
    requires PartView(v, n) && i < Size(n) && base == |t.records| && |t.children| <= base
    requires i <= |Recs(n, 0)| && Copied(n, offset, t, sofar, i)
    ensures |Recs(n, 0)| == Size(n)
    ensures out.Ok? ==> Copied(n, offset, t, out.value, i + 1) && offset + Recs(n, 0)[i].hi <= U32_MAX
    ensures out.Err? ==> out.error == Length && !PartFits(n, offset, base)
  {
    hide RecordAt, LinkAt, HoldsLinks, Placed, Recs, Links, Move, Size, Good, Total, Raised, Copied;
    PartLinks(v, n, base);
    PartRecord(v, n, i, offset, |t.children|);
    CopiedSizes(n, offset, t, sofar, i);
    var record := RecordAt(v, i).value;
    if |sofar.children| > U32_MAX { return Err(Length); }
    var more := CopyLinks(v, record, base, Links(n, 0), Links(n, base));
    if more.Err? { return Err(Length); }
    if offset + record.lo > U32_MAX || offset + record.hi > U32_MAX { return Err(Length); }
    CopiedNext(n, offset, t, sofar, i);
    var moved := Record(record.cls, record.kind, offset + record.lo, offset + record.hi, |sofar.children|,
                        record.childLen);
    out := Ok(Tables(sofar.records + [moved], sofar.children + more.value));
  }

  /** Copy the records and child entries of one detached part. */
  method CopyPart(v: View, offset: nat, t: Tables, ghost n: Syntax) returns (out: Result<Tables>)
    requires PartView(v, n) && |t.children| <= |t.records| <= U32_MAX && offset <= U32_MAX
    ensures out.Ok? <==> offset + n.hi <= U32_MAX && |t.records| + (Size(n) - 1) <= U32_MAX
    ensures out.Err? ==> out.error == Length
    ensures out.Ok? ==>
              out.value == Tables(t.records + Recs(Move(n, offset), |t.children|), t.children + Links(n, |t.records|))
  {
    hide RecordAt, LinkAt, HoldsLinks, Placed, Recs, Links, Move, Size, Good, Total, Copied;
    var sofar := t;
    NoneCopied(v, n, offset, t);
    for i := 0 to v.items
      invariant i <= |Recs(n, 0)| == v.items && Copied(n, offset, t, sofar, i)
      invariant i > 0 ==> offset + Recs(n, 0)[0].hi <= U32_MAX
    {
      var next := CopyRecord(v, offset, |t.records|, sofar, i, t, n);
      if next.Err? { return Err(Length); }
      sofar := next.value;
    }
    AllCopied(v, n, offset, t, sofar);
    out := Ok(sofar);
  }

  lemma NoneCopied(v: View, n: Syntax, offset: nat, t: Tables)
    requires PartView(v, n)
    ensures |Recs(n, 0)| == Size(n) && Copied(n, offset, t, t, 0)
  {
    hide Recs, Links, Move, Size, Good, Total, Placed, Raised;
    PartRecord(v, n, 0, offset, |t.children|);
    PartLinks(v, n, |t.records|);
    PartEnds(n, |t.records|);
    assert Recs(n, 0)[..0] == [];
  }

  lemma AllCopied(v: View, n: Syntax, offset: nat, t: Tables, all: Tables)
    requires PartView(v, n) && |Recs(n, 0)| == Size(n) && Copied(n, offset, t, all, Size(n))
    requires |t.records| <= U32_MAX && offset + Recs(n, 0)[0].hi <= U32_MAX
    ensures PartFits(n, offset, |t.records|)
    ensures all == Tables(t.records + Recs(Move(n, offset), |t.children|), t.children + Links(n, |t.records|))
  {
    hide Recs, Links, Move, Size, Good, Total, Placed, Raised;
    PartLinks(v, n, |t.records|);
    PartEnds(n, |t.records|);
    var moved, links := Recs(Move(n, offset), |t.children|), Links(n, |t.records|);
    assert Recs(n, 0)[..Size(n)] == Recs(n, 0) && moved[..|moved|] == moved && links[..|links|] == links;
  }

  // ------------------------------------------------------------ the node

  lemma {:induction false} PositionsSnoc(ss: seq<Syntax>, s: Syntax, base: nat)
    ensures Positions(ss + [s], base) == Positions(ss, base) + [base + SizeAll(ss)]
    decreases |ss|
  {
    if ss != [] {
      PositionsSnoc(ss[1..], s, base + Size(ss[0]));
      assert (ss + [s])[0] == ss[0] && (ss + [s])[1..] == ss[1..] + [s];
    } else {
      assert ss + [s] == [s] && [s][1..] == [];
    }
  }

  /** The tables of items laid side by side. */
  ghost function TablesOf(items: seq<Syntax>): Tables {
    Tables(RecsAll(Spread(items), 0), LinksAll(Spread(items), 0))
  }

  lemma TablesSizes(items: seq<Syntax>)
    ensures |TablesOf(items).records| == SizeAll(items) && |TablesOf(items).children| == SizeAll(items) - |items|
  {
    hide Spread, SizeAll;
    SpreadSize(items);
    LayoutSizesAll(Spread(items), 0, 0);
  }

  lemma OneItem(m: Syntax, start: nat, base: nat)
    ensures RecsAll([m], start) == Recs(m, start) && LinksAll([m], base) == Links(m, base) && SizeAll([m]) == Size(m)
  {
    hide Recs, Links, Size;
    assert [m][0] == m && [m][1..] == [];
    assert Recs(m, start) + [] == Recs(m, start) && Links(m, base) + [] == Links(m, base);
  }

  /** Adding one item appends its moved records, its raised child entries and
      its root. */
  lemma TablesStep(items: seq<Syntax>, n: Syntax)
    ensures var t := TablesOf(items);
      && TablesOf(items + [n]) ==
           Tables(t.records + Recs(Move(n, Extent(items)), |t.children|), t.children + Links(n, |t.records|))
      && Positions(Spread(items + [n]), 0) == Positions(Spread(items), 0) + [|t.records|]
      && SizeAll(items + [n]) == SizeAll(items) + Size(n)
  {
    hide Spread, SizeAll, Size, Recs, Links, Move, RecsAll, LinksAll, Positions, Extent;
    var ms, m := Spread(items), Move(n, Extent(items));
    SpreadSnoc(items, n);
    SpreadSize(items);
    TablesSizes(items);
    RecsAppend(ms, [m], 0);
    LinksAppend(ms, [m], 0);
    PositionsSnoc(ms, m, 0);
    OneItem(m, SizeAll(ms) - |ms|, SizeAll(ms));
    MoveKeepsShape(n, Extent(items), SizeAll(ms));
    SizeAppend(items, [n]);
    OneItem(n, 0, 0);
  }

  ghost function NodeRecord(cls: Class, kind: nat, items: seq<Syntax>): Record {
    Record(cls, kind, 0, Extent(items), SizeAll(items) - |items|, |items|)
  }

  /** The records of a node over these items: theirs, then its own; the roots
      are its child entries. */
  ghost function NodeBytes(cls: Class, kind: nat, items: seq<Syntax>): Text {
    Encoded(TablesOf(items).records + [NodeRecord(cls, kind, items)],
            TablesOf(items).children + Positions(Spread(items), 0), SizeAll(items))
  }

  /** What `build_syntax_node` answers. */
  ghost function BuildSpec(kind: nat, parts: seq<Part>): Result<Built> {
    match KindClass(kind)
    case None => Err(Kind)
    case Some(cls) =>
      if !cls.Node? && !cls.Invalid? then Err(Kind)
      else
        match JoinAll(parts)
        case Err(e) => Err(e)
        case Ok(j) =>
          if SizeAll(j.items) + 1 > U32_MAX then Err(Length)
          else Ok(Built(j.text, NodeBytes(cls, kind, j.items)))
  }

  lemma {:induction false} JoinedGood(parts: seq<Part>)
    requires JoinAll(parts).Ok?
    ensures var j := JoinAll(parts).value;
      && |j.items| == |parts| && GoodItems(j.items) && |j.text| == Extent(j.items) && Numbered(j.items)
    decreases |parts|
  {
    hide Found, Good, Size, SizeAll, Move, GoodItem;
    if parts == [] {
      NothingJoined();
    } else {
      var last := |parts| - 1;
      JoinedGood(parts[..last]);
      FoundGood(parts[last]);
      SpreadSnoc(JoinAll(parts[..last]).value.items, Normal(Found(parts[last]).value));
    }
  }

  lemma NothingJoined()
    ensures Extent([]) == 0 && SizeAll([]) == 0
  {
  }

  lemma {:induction false} JoinStops(parts: seq<Part>, k: nat)
    requires k <= |parts| && JoinAll(parts[..k]).Err?
    ensures JoinAll(parts) == JoinAll(parts[..k])
    decreases |parts|
  {
    hide Join;
    if k < |parts| {
      assert parts[..|parts| - 1][..k] == parts[..k];
      JoinStops(parts[..|parts| - 1], k);
    } else {
      assert parts[..k] == parts;
    }
  }

  /** One part of the build loop. */
  method AddPart(p: Part, source: Text, t: Tables, roots: seq<nat>, ghost j: Joined)
    returns (out: Result<(Text, Tables, seq<nat>)>)
    requires t == TablesOf(j.items) && roots == Positions(Spread(j.items), 0) && source == j.text
    requires |j.text| == Extent(j.items) && Numbered(j.items)
    ensures Join(j, p).Err? ==> out == Err(Join(j, p).error)
    ensures Join(j, p).Ok? ==>
              var j' := Join(j, p).value;
              out == Ok((j'.text, TablesOf(j'.items), Positions(Spread(j'.items), 0)))
  {
    hide Good, Size, SizeAll, Move, TablesOf, Spread, Positions, Found, NewView, Placed, Recs, Links, DetachSpec;
    var detached := DetachSyntax(p.records, |p.source|, p.index);
    FoundExact(p, detached);
    if detached.Err? { return Err(detached.error); }
    FoundGood(p);
    ghost var n := Normal(Found(p).value);
    var lo, hi := detached.value.sourceStart, detached.value.sourceEnd;
    if !Boundary(p.source, lo) || !Boundary(p.source, hi) { return Err(Range); }
    var text := p.source[lo..hi];
    CompactReads(n, n.hi);
    LayoutSizes(n, 0, 0);
    var view := NewView(detached.value.records, |text|).value;
    TablesStep(j.items, n);
    TablesSizes(j.items);
    SpreadSnoc(j.items, n);
    var base := |t.records|;
    if base > U32_MAX { return Err(Length); }
    var copied := CopyPart(view, |source|, t, n);
    if copied.Err? { return Err(Length); }
    out := Ok((source + text, copied.value, roots + [base + view.root]));
  }

  /** Build one node from existing syntax subtrees. */
  method BuildSyntaxNode(kind: nat, parts: seq<Part>) returns (r: Result<Built>)
    ensures r == BuildSpec(kind, parts)
  {
    hide Good, Size, SizeAll, Move, Spread, Positions, Join, RecsAll, LinksAll, GoodItems, Encoded;
    var cls := KindClass(kind);
    if cls.None? { return Err(Kind); }
    if !cls.value.Node? && !cls.value.Invalid? { return Err(Kind); }
    var source: Text, t, roots := [], Tables([], []), [];
    assert parts[..0] == [];
    NothingJoined();
    EmptyTables();
    for k := 0 to |parts|
      invariant JoinAll(parts[..k]).Ok?
      invariant var j := JoinAll(parts[..k]).value;
        source == j.text && t == TablesOf(j.items) && roots == Positions(Spread(j.items), 0)
    {
      JoinedGood(parts[..k]);
      ghost var j := JoinAll(parts[..k]).value;
      var added := AddPart(parts[k], source, t, roots, j);
      assert parts[..k + 1][..k] == parts[..k];
      assert JoinAll(parts[..k + 1]) == Join(j, parts[k]);
      if added.Err? {
        JoinStops(parts, k + 1);
        return Err(added.error);
      }
      source, t, roots := added.value.0, added.value.1, added.value.2;
    }
    assert parts[..|parts|] == parts;
    JoinedGood(parts);
    TablesSizes(JoinAll(parts).value.items);
    if |t.children| > U32_MAX || |roots| > U32_MAX || |t.records| > U32_MAX { return Err(Length); }
    var record := Record(cls.value, kind, 0, |source|, |t.children|, |roots|);
    var bytes := EncodeSyntax(t.records + [record], t.children + roots, |t.records|);
    if bytes.Err? { return Err(bytes.error); }
    r := Ok(Built(source, bytes.value));
  }

  lemma EmptyTables()
    ensures TablesOf([]) == Tables([], []) && Positions(Spread([]), 0) == []
  {
  }

  // ------------------------------------------------------------- theorems

  /** The text of the `k`-th part is the `k`-th slice of the joined text. */
  lemma {:induction false} JoinedText(parts: seq<Part>, k: nat)
    requires JoinAll(parts).Ok? && k < |parts|
    ensures |JoinAll(parts).value.items| == |parts| && Found(parts[k]).Ok?
    ensures var j, s := JoinAll(parts).value, Found(parts[k]).value;
      && j.items[k] == Normal(s) && s.lo <= s.hi <= |parts[k].source|
      && Extent(j.items[..k]) <= Extent(j.items[..k + 1]) <= |j.text|
      && j.text[Extent(j.items[..k])..Extent(j.items[..k + 1])] == parts[k].source[s.lo..s.hi]
    decreases |parts|
  {
    hide Found, JoinAll, Normal, Extent, GoodItems, Numbered;
    var last := |parts| - 1;
    JoinedLast(parts);
    var j, before := JoinAll(parts).value, JoinAll(parts[..last]).value;
    JoinedGood(parts);
    JoinedGood(parts[..last]);
    SpreadAt(j.items, k);
    if k < last {
      JoinedText(parts[..last], k);
      assert before.items[..k] == j.items[..k] && before.items[..k + 1] == j.items[..k + 1];
    } else {
      assert j.items[..k] == before.items && j.items[..k + 1] == j.items;
    }
  }

  lemma JoinedLast(parts: seq<Part>)
    requires JoinAll(parts).Ok? && parts != []
    ensures var last := |parts| - 1;
      && Found(parts[last]).Ok? && JoinAll(parts[..last]).Ok?
      && var j, before, s := JoinAll(parts).value, JoinAll(parts[..last]).value, Found(parts[last]).value;
      && s.lo <= s.hi <= |parts[last].source|
      && j == Joined(before.items + [Normal(s)], before.text + parts[last].source[s.lo..s.hi])
  {
    hide Found, Normal, Numbered, GoodItem;
    FoundGood(parts[|parts| - 1]);
  }

  ghost function NodeView(kind: nat, cls: Class, items: seq<Syntax>): (v: View)
    ensures Sized(v)
  {
    EncodedView(TablesOf(items).records + [NodeRecord(cls, kind, items)],
                TablesOf(items).children + Positions(Spread(items), 0), SizeAll(items), Extent(items))
  }

  ghost predicate Fitting(kind: nat, cls: Class, items: seq<Syntax>) {
    && KindClass(kind) == Some(cls) && (cls.Node? || cls.Invalid?)
    && GoodItems(items) && Extent(items) <= U32_MAX && SizeAll(items) + 1 <= U32_MAX
  }

  lemma NodeChecked(kind: nat, cls: Class, items: seq<Syntax>)
    requires Fitting(kind, cls, items)
    ensures Checked(TablesOf(items).records + [NodeRecord(cls, kind, items)], Extent(items), SizeAll(items))
  {
    hide Good, Size, SizeAll, Spread, RecsAll, LinksAll, Checked, Extent;
    var ms := Spread(items);
    SpreadSize(items);
    forall k | 0 <= k < |ms| ensures Good(ms[k], Extent(items)) { SpreadGood(items, k); }
    RecsCheckedAll(ms, Extent(items), 0, SizeAll(items));
    NodeRecordChecked(kind, cls, items);
    CheckedAppend(TablesOf(items).records, [NodeRecord(cls, kind, items)], Extent(items), SizeAll(items));
  }

  lemma NodeRecordChecked(kind: nat, cls: Class, items: seq<Syntax>)
    requires Fitting(kind, cls, items)
    ensures Checked([NodeRecord(cls, kind, items)], Extent(items), SizeAll(items))
  {
    hide SizeAll, Extent;
  }

  lemma NodeLinks(items: seq<Syntax>, i: nat)
    requires i < |TablesOf(items).children + Positions(Spread(items), 0)|
    ensures (TablesOf(items).children + Positions(Spread(items), 0))[i] < SizeAll(items)
  {
    hide Spread, SizeAll;
    var ms, n := Spread(items), |TablesOf(items).children|;
    SpreadSize(items);
    if i < n {
      LinksInRangeAll(ms, 0, i);
    } else {
      PositionAt(ms, 0, i - n);
      SizeSplit(ms, i - n);
    }
  }

  /** The built records open as a view that holds every item side by side and
      the node over them. */
  lemma NodeOpens(kind: nat, cls: Class, items: seq<Syntax>)
    requires Fitting(kind, cls, items)
    ensures NewView(NodeBytes(cls, kind, items), Extent(items)) == Ok(NodeView(kind, cls, items))
    ensures var v := NodeView(kind, cls, items);
      && PlacedAll(v, Spread(items), 0, 0)
      && RecordAt(v, SizeAll(items)) == Ok(NodeRecord(cls, kind, items))
      && HoldsLinks(v, SizeAll(items) - |items|, Positions(Spread(items), 0))
  {
    hide Good, Size, SizeAll, Spread, RecsAll, LinksAll, Extent, Positions, Checked, HoldsRecords, HoldsLinks,
      Encoded, NewView, RecordAt;
    var v, t, r := NodeView(kind, cls, items), TablesOf(items), NodeRecord(cls, kind, items);
    var records, children := t.records + [r], t.children + Positions(Spread(items), 0);
    TablesSizes(items);
    NodeChecked(kind, cls, items);
    forall i | 0 <= i < |children| ensures children[i] < |records| { NodeLinks(items, i); }
    EncodedHolds(records, children, SizeAll(items), Extent(items));
    SplitRecords(v, 0, t.records, [r]);
    SplitLinks(v, 0, t.children, Positions(Spread(items), 0));
    HeldRecord(v, SizeAll(items), r);
    LastChecked(t.records, r, Extent(items), SizeAll(items));
    EncodedOpens(records, children, SizeAll(items), Extent(items));
  }

  lemma HeldRecord(v: View, at: nat, r: Record)
    requires Sized(v) && HoldsRecords(v, at, [r])
    ensures RecordAt(v, at) == Ok(r)
  {
    hide RecordAt;
    assert RecordAt(v, at) == Ok([r][at - at]);
  }

  lemma LastChecked(a: seq<Record>, r: Record, len: nat, m: nat)
    requires Checked(a + [r], len, m)
    ensures Storable(r) && CheckFields(len, m, r) == Ok(r)
  {
    hide CheckFields, Storable;
    assert (a + [r])[|a|] == r;
  }

  lemma SpreadPrefix(items: seq<Syntax>, k: nat)
    requires k <= |items|
    ensures SizeAll(Spread(items)[..k]) == SizeAll(items[..k])
  {
    hide Move, Extent, SizeAll, Spread;
    var front := items[..k];
    forall i | 0 <= i < k ensures Spread(items)[..k][i] == Spread(front)[i] {
      SpreadAt(items, i);
      SpreadAt(front, i);
      assert front[..i] == items[..i];
    }
    assert Spread(items)[..k] == Spread(front);
    SpreadSize(front);
  }

  /** Item `k` in its place. */
  lemma NodePlaces(kind: nat, cls: Class, items: seq<Syntax>, k: nat)
    requires Fitting(kind, cls, items) && k < |items|
    ensures var v, m, at := NodeView(kind, cls, items), Spread(items)[k], SizeAll(items[..k]);
      && at >= k && Placed(v, m, at, at - k) && PositionForest(Spread(items), 0)[k] == PositionTree(m, at)
  {
    hide Fitting, SizeAll, Spread, RecordAt, Placed, PlacedAll, NewView, NodeView, NodeBytes, NodeRecord, HoldsLinks,
      PositionForest, PositionTree;
    NodeOpens(kind, cls, items);
    PlacedAllAt(NodeView(kind, cls, items), Spread(items), 0, 0, k);
    SpreadPrefix(items, k);
  }

  /** Child `k` of the built node is the position of item `k`. */
  lemma NodeChild(kind: nat, cls: Class, items: seq<Syntax>, k: nat)
    requires Fitting(kind, cls, items) && k < |items|
    ensures ChildAt(NodeView(kind, cls, items), NodeRecord(cls, kind, items), k) == Ok(SizeAll(items[..k]))
  {
    hide GoodItems, SizeAll, Spread, RecordAt, LinkAt, PlacedAll, Extent, Positions, NodeBytes, NewView, NodeView;
    var v, ms, start := NodeView(kind, cls, items), Spread(items), SizeAll(items) - |items|;
    NodeOpens(kind, cls, items);
    SpreadPrefix(items, k);
    PositionAt(ms, 0, k);
    assert LinkAt(v, start + k) == Ok(Positions(ms, 0)[start + k - start]);
  }

  /** The position and the offset of child `k` in the built node. */
  ghost function ChildIndex(parts: seq<Part>, k: nat): nat
    requires JoinAll(parts).Ok? && k <= |parts|
  {
    JoinedGood(parts);
    SizeAll(JoinAll(parts).value.items[..k])
  }

  ghost function ChildOffset(parts: seq<Part>, k: nat): nat
    requires JoinAll(parts).Ok? && k <= |parts|
  {
    JoinedGood(parts);
    Extent(JoinAll(parts).value.items[..k])
  }

  lemma BuiltFits(kind: nat, parts: seq<Part>)
    requires BuildSpec(kind, parts).Ok?
    ensures KindClass(kind).Some? && JoinAll(parts).Ok?
    ensures var items, cls, b := JoinAll(parts).value.items, KindClass(kind).value, BuildSpec(kind, parts).value;
      && |items| == |parts| && Fitting(kind, cls, items)
      && b.records == NodeBytes(cls, kind, items) && |b.source| == Extent(items)
  {
    hide NodeBytes, Extent, SizeAll, GoodItems, JoinAll;
    JoinedGood(parts);
  }

  // -------------------------------------------------- when building succeeds

  /** The number of records of a detached part, as its header announces it. */
  ghost function ItemCount(d: Detached): nat {
    match NewView(d.records, if d.sourceStart <= d.sourceEnd then d.sourceEnd - d.sourceStart else 0)
    case Ok(v) => v.items
    case Err(_) => 0
  }

  ghost function TotalWidth(ds: seq<Detached>): int {
    if ds == [] then 0
    else
      var last := |ds| - 1;
      TotalWidth(ds[..last]) + ds[last].sourceEnd - ds[last].sourceStart
  }

  ghost function TotalItems(ds: seq<Detached>): nat {
    if ds == [] then 0 else TotalItems(ds[..|ds| - 1]) + ItemCount(ds[|ds| - 1])
  }

  /** Each part can be detached alone, and its range splits no character. */
  ghost predicate Detaches(parts: seq<Part>, ds: seq<Detached>) {
    && |ds| == |parts|
    && forall k :: 0 <= k < |parts| ==>
         && DetachSpec(parts[k].records, |parts[k].source|, parts[k].index, Ok(ds[k]))
         && Boundary(parts[k].source, ds[k].sourceStart) && Boundary(parts[k].source, ds[k].sourceEnd)
  }

  /** What a part names, in terms of detaching it. */
  lemma FoundDetached(p: Part, d: Detached)
    requires DetachSpec(p.records, |p.source|, p.index, Ok(d))
    ensures Found(p).Ok?
    ensures var s := Found(p).value;
      && d.sourceStart == s.lo && d.sourceEnd == s.hi && s.lo <= s.hi
      && Normal(s).hi == s.hi - s.lo && ItemCount(d) == Size(Normal(s)) >= 1
  {
    hide DetachSpec, Found, NewView, Good, Size, Move, Placed, Recs, Links;
    FoundExact(p, Ok(d));
    FoundGood(p);
    var n := Normal(Found(p).value);
    CompactReads(n, n.hi);
    LayoutSizes(n, 0, 0);
  }

  lemma DetachAnswers(p: Part)
    requires Found(p).Ok?
    ensures DetachSpec(p.records, |p.source|, p.index, Ok(DetachedOf(Found(p).value)))
  {
    hide NewView, RecordAt, Walk, Represents, Content, DetachedOf;
    var v := NewView(p.records, |p.source|).value;
    var t :| TreeAt(v, p.index, t) && Found(p).value == Content(v, t);
  }

  ghost predicate Roomy(width: int, items: int) {
    width <= U32_MAX && items - 1 <= U32_MAX
  }

  lemma {:induction false} JoinsExactly(parts: seq<Part>, ds: seq<Detached>)
    requires Detaches(parts, ds)
    ensures JoinAll(parts).Ok? <==> Roomy(TotalWidth(ds), TotalItems(ds))
    ensures TotalWidth(ds) >= 0
    ensures JoinAll(parts).Ok? ==>
              var j := JoinAll(parts).value; Extent(j.items) == TotalWidth(ds) && SizeAll(j.items) == TotalItems(ds)
    decreases |parts|
  {
    hide Found, DetachSpec, Size, SizeAll, Extent, Move, ItemCount, Boundary;
    if parts == [] {
      NothingJoined();
    } else {
      var last := |parts| - 1;
      var p, d := parts[last], ds[last];
      JoinsExactly(parts[..last], ds[..last]);
      FoundDetached(p, d);
      FoundGood(p);
      if JoinAll(parts[..last]).Ok? {
        var items, n := JoinAll(parts[..last]).value.items, Normal(Found(p).value);
        SpreadSnoc(items, n);
        SizeAppend(items, [n]);
        OneItem(n, 0, 0);
      }
    }
  }

  lemma {:induction false} JoinedDetaches(parts: seq<Part>) returns (ds: seq<Detached>)
    requires JoinAll(parts).Ok?
    ensures Detaches(parts, ds)
    decreases |parts|
  {
    hide Found, DetachSpec, Boundary, Numbered;
    if parts == [] {
      ds := [];
    } else {
      var last := |parts| - 1;
      var before := JoinedDetaches(parts[..last]);
      DetachAnswers(parts[last]);
      ds := before + [DetachedOf(Found(parts[last]).value)];
      forall k | 0 <= k < last
        ensures DetachSpec(parts[k].records, |parts[k].source|, parts[k].index, Ok(ds[k]))
        ensures Boundary(parts[k].source, ds[k].sourceStart) && Boundary(parts[k].source, ds[k].sourceEnd)
      {
        assert parts[..last][k] == parts[k] && ds[k] == before[k];
      }
    }
  }

  /** Building succeeds exactly when the kind is a node kind, every part can be
      detached alone without splitting a character, and the joined text and the
      records with the new one fit 32 bits. */
  lemma BuildSucceeds(kind: nat, parts: seq<Part>)
    ensures BuildSpec(kind, parts).Ok? <==>
              && (1 <= kind <= 9)
              && exists ds ::
                   Detaches(parts, ds) && TotalWidth(ds) <= 0xFFFF_FFFF && TotalItems(ds) + 1 <= 0xFFFF_FFFF
  {
    hide JoinAll, NodeBytes, Detaches, SizeAll, TotalWidth, TotalItems;
    assert (KindClass(kind).Some? && (KindClass(kind).value.Node? || KindClass(kind).value.Invalid?))
        <==> 1 <= kind <= 9;
    forall ds | Detaches(parts, ds)
      ensures JoinAll(parts).Ok? <==> Roomy(TotalWidth(ds), TotalItems(ds))
      ensures JoinAll(parts).Ok? ==> SizeAll(JoinAll(parts).value.items) == TotalItems(ds)
    {
      JoinsExactly(parts, ds);
    }
    if JoinAll(parts).Ok? { var ds := JoinedDetaches(parts); }
  }

  lemma {:induction false} JoinedUtf8(parts: seq<Part>)
    requires JoinAll(parts).Ok? && forall k :: 0 <= k < |parts| ==> IsUtf8(parts[k].source)
    ensures IsUtf8(JoinAll(parts).value.text)
    decreases |parts|
  {
    hide Found, IsUtf8, Boundary, Numbered;
    if parts == [] {
      Utf8.Empty();
    } else {
      var last := |parts| - 1;
      JoinedUtf8(parts[..last]);
      FoundGood(parts[last]);
      var s := Found(parts[last]).value;
      SliceUtf8(parts[last].source, s.lo, s.hi);
      Utf8Append(JoinAll(parts[..last]).value.text, parts[last].source[s.lo..s.hi]);
    }
  }

  /** The text of a built node is UTF-8 when the texts of its parts are. */
  lemma BuiltUtf8(kind: nat, parts: seq<Part>)
    requires BuildSpec(kind, parts).Ok? && forall k :: 0 <= k < |parts| ==> IsUtf8(parts[k].source)
    ensures IsUtf8(BuildSpec(kind, parts).value.source)
  {
    hide JoinAll, NodeBytes, IsUtf8, SizeAll;
    JoinedUtf8(parts);
  }

  /** A built node opens over its own text; its root spans all of it, and its
      children are the parts, tiling the text in order. */
  lemma BuiltOpens(kind: nat, parts: seq<Part>)
    requires BuildSpec(kind, parts).Ok?
    ensures var b := BuildSpec(kind, parts).value;
      && NewView(b.records, |b.source|).Ok?
      && var v := NewView(b.records, |b.source|).value;
      && RecordAt(v, v.root).Ok?
      && var root := RecordAt(v, v.root).value;
      && root.kind == kind && root.lo == 0 && root.hi == |b.source| && root.childLen == |parts|
      && root.cls == (if kind == 8 then Invalid else Node)
      && forall k :: 0 <= k < |parts| ==> ChildAt(v, root, k) == Ok(ChildIndex(parts, k))
    ensures ChildOffset(parts, 0) == 0 && ChildOffset(parts, |parts|) == |BuildSpec(kind, parts).value.source|
    ensures forall k :: 0 <= k < |parts| ==> ChildOffset(parts, k) <= ChildOffset(parts, k + 1)
  {
    hide NewView, JoinAll, BuildSpec, NodeBytes, Extent, SizeAll, Fitting, RecordAt, ChildAt, TablesOf, Spread,
      PlacedAll, HoldsLinks;
    BuiltFits(kind, parts);
    var items, cls := JoinAll(parts).value.items, KindClass(kind).value;
    FittingClass(kind, cls, items);
    NodeOpens(kind, cls, items);
    forall k | 0 <= k < |parts|
      ensures ChildAt(NodeView(kind, cls, items), NodeRecord(cls, kind, items), k) == Ok(ChildIndex(parts, k))
      ensures ChildOffset(parts, k) <= ChildOffset(parts, k + 1)
    {
      NodeChild(kind, cls, items, k);
      SpreadAt(items, k);
    }
    NothingJoined();
    assert items[..0] == [] && items[..|parts|] == items;
  }

  lemma SpreadItem(items: seq<Syntax>, k: nat)
    requires GoodItems(items) && k < |items|
    ensures Good(Spread(items)[k], Extent(items))
    ensures DetachedOf(Spread(items)[k]) == Detached(Extent(items[..k]), Extent(items[..k + 1]), Compact(items[k]), 0)
  {
    hide Spread, Extent, Normal, Compact, GoodItems, Good;
    SpreadGood(items, k);
  }

  /** Detaching child `k` of a built node gives back exactly what detaching
      part `k` alone gives: the same record bytes, cut from the same text. */
  lemma BuildThenDetach(kind: nat, parts: seq<Part>, k: nat, alone: Result<Detached>, again: Result<Detached>)
    requires BuildSpec(kind, parts).Ok? && k < |parts|
    requires DetachSpec(parts[k].records, |parts[k].source|, parts[k].index, alone)
    requires DetachSpec(BuildSpec(kind, parts).value.records, |BuildSpec(kind, parts).value.source|,
                        ChildIndex(parts, k), again)
    ensures alone.Ok? && again == Ok(Detached(ChildOffset(parts, k), ChildOffset(parts, k + 1), alone.value.records, 0))
    ensures alone.value.root == 0
    ensures alone.value.sourceStart <= alone.value.sourceEnd <= |parts[k].source|
    ensures ChildOffset(parts, k) <= ChildOffset(parts, k + 1) <= |BuildSpec(kind, parts).value.source|
    ensures BuildSpec(kind, parts).value.source[ChildOffset(parts, k)..ChildOffset(parts, k + 1)]
         == parts[k].source[alone.value.sourceStart..alone.value.sourceEnd]
  {
    hide Found, DetachSpec, JoinAll, Spread, Extent, NodeBytes, NodeView, SizeAll, Placed, Fitting, NewView,
      PlacedAll, HoldsLinks, Normal, Compact, RecordAt;
    BuiltFits(kind, parts);
    var b, items, cls := BuildSpec(kind, parts).value, JoinAll(parts).value.items, KindClass(kind).value;
    JoinedText(parts, k);
    FittingGood(kind, cls, items);
    NodeOpens(kind, cls, items);
    NodePlaces(kind, cls, items, k);
    SpreadItem(items, k);
    var at := SizeAll(items[..k]);
    DetachPlaced(b.records, |b.source|, Spread(items)[k], at, at - k, again);
    FoundExact(parts[k], alone);
  }

  lemma FittingClass(kind: nat, cls: Class, items: seq<Syntax>)
    requires Fitting(kind, cls, items)
    ensures cls == (if kind == 8 then Invalid else Node)
  {
  }

  lemma FittingGood(kind: nat, cls: Class, items: seq<Syntax>)
    requires Fitting(kind, cls, items)
    ensures GoodItems(items)
  {
  }

  /** The built node as a tree of its table. */
  ghost function NodeTree(items: seq<Syntax>): IndexTree {
    IndexTree(SizeAll(items), PositionForest(Spread(items), 0))
  }

  lemma NodeKid(kind: nat, cls: Class, items: seq<Syntax>, k: nat)
    requires Fitting(kind, cls, items) && k < |items|
    ensures var v, t := NodeView(kind, cls, items), PositionForest(Spread(items), 0)[k];
      && Attached(v, NodeRecord(cls, kind, items), k, t.index)
      && Represents(v, t) && Content(v, t) == Spread(items)[k]
  {
    hide SizeAll, Spread, Extent, Fitting, Placed, PositionTree, PositionForest, Represents, Content, ChildAt,
      NodeView, RecordAt, Good;
    var v, m, at := NodeView(kind, cls, items), Spread(items)[k], SizeAll(items[..k]);
    FittingGood(kind, cls, items);
    NodePlaces(kind, cls, items, k);
    NodeChild(kind, cls, items, k);
    SpreadGood(items, k);
    SpreadAt(items, k);
    PlacedReads(v, m, Extent(items), at, at - k);
  }

  lemma NodeTreeReads(kind: nat, cls: Class, items: seq<Syntax>)
    requires Fitting(kind, cls, items)
    ensures var v, t := NodeView(kind, cls, items), NodeTree(items);
      TreeAt(v, SizeAll(items), t) && Content(v, t) == Syntax(cls, kind, 0, Extent(items), Spread(items))
  {
    hide SizeAll, Spread, Extent, Fitting, PositionForest, Content, NodeView, RecordAt, Attached, PlacedAll,
      HoldsLinks, NewView, NodeBytes, Run;
    var v, t, ms := NodeView(kind, cls, items), NodeTree(items), Spread(items);
    NodeOpens(kind, cls, items);
    forall k | 0 <= k < |items|
      ensures Attached(v, NodeRecord(cls, kind, items), k, t.kids[k].index) && Represents(v, t.kids[k])
      ensures Content(v, t.kids[k]) == ms[k]
    {
      NodeKid(kind, cls, items, k);
    }
    assert Represents(v, t);
    ContentIs(v, t, Syntax(cls, kind, 0, Extent(items), ms), NodeRecord(cls, kind, items));
    PositionOrderAll(ms, 0);
    SpreadSize(items);
  }

  /** A built node can be used as a part again: it is the node of that kind
      over the whole text whose children are the parts side by side. */
  lemma BuiltIsPart(kind: nat, parts: seq<Part>)
    requires BuildSpec(kind, parts).Ok?
    ensures KindClass(kind).Some? && JoinAll(parts).Ok?
    ensures var b, items := BuildSpec(kind, parts).value, JoinAll(parts).value.items;
      Found(Part(b.source, b.records, ChildIndex(parts, |parts|)))
        == Ok(Syntax(KindClass(kind).value, kind, 0, |b.source|, Spread(items)))
  {
    hide NewView, JoinAll, BuildSpec, NodeBytes, Extent, SizeAll, Fitting, RecordAt, Spread, PlacedAll, HoldsLinks,
      NodeView, NodeTree, Content, Represents, Walk;
    BuiltFits(kind, parts);
    var b, items, cls := BuildSpec(kind, parts).value, JoinAll(parts).value.items, KindClass(kind).value;
    assert items[..|parts|] == items;
    NodeOpens(kind, cls, items);
    NodeTreeReads(kind, cls, items);
    FoundTree(Part(b.source, b.records, SizeAll(items)), NodeTree(items));
  }

  lemma FoundTree(p: Part, t: IndexTree)
    requires NewView(p.records, |p.source|).Ok? && TreeAt(NewView(p.records, |p.source|).value, p.index, t)
    ensures Found(p) == Ok(Content(NewView(p.records, |p.source|).value, t))
  {
    hide NewView, RecordAt, Walk, Represents, Content, SomeContent;
    var v := NewView(p.records, |p.source|).value;
    RootInTable(v, t);
    WalkExact(v, p.index);
    var u :| TreeAt(v, p.index, u) && Found(p).value == Content(v, u);
    RepresentsUnique(v, t, u);
  }

  // ------------------------------------------------------------ the leaf

  ghost function Leaf(cls: Class, kind: nat, text: Text): Syntax {
    Syntax(cls, kind, 0, |text|, [])
  }

  /** Build one leaf from its kind and exact text. */
  method BuildSyntaxLeaf(cls: Class, kind: nat, text: Text) returns (r: Result<Text>)
    ensures r == if !KindOf(kind, cls) || !(cls.Token? || cls.Trivia?) then Err(Kind)
                 else if |text| > U32_MAX then Err(Length)
                 else Ok(Compact(Leaf(cls, kind, text)))
  {
    if KindClass(kind) != Some(cls) || !(cls.Token? || cls.Trivia?) { return Err(Kind); }
    if |text| > U32_MAX { return Err(Length); }
    r := EncodeSyntax([Record(cls, kind, 0, |text|, 0, 0)], [], 0);
    assert Recs(Leaf(cls, kind, text), 0) == [Record(cls, kind, 0, |text|, 0, 0)];
    assert Links(Leaf(cls, kind, text), 0) == [];
  }

  /** A leaf names itself: it can be used as a part at index zero. */
  lemma LeafIsPart(cls: Class, kind: nat, text: Text)
    requires KindClass(kind) == Some(cls) && |text| <= U32_MAX
    ensures Found(Part(text, Compact(Leaf(cls, kind, text)), 0)) == Ok(Leaf(cls, kind, text))
  {
    hide NewView, Compact, Placed, Represents, Content, RecordAt, Found;
    var s := Leaf(cls, kind, text);
    CompactReads(s, |text|);
    PlacedTree(NewView(Compact(s), |text|).value, s, |text|, 0, 0);
    FoundTree(Part(text, Compact(s), 0), PositionTree(s, 0));
  }
}
