/** Syntax content apart from any table, and its compact preorder layout. */
module SyntaxLayout {
  import opened Common
  import opened Bytes
  import opened SyntaxFormat

  /** One syntax item with its subtree. */
  datatype Syntax = Syntax(cls: Class, kind: nat, lo: nat, hi: nat, kids: seq<Syntax>)

  ghost function Size(s: Syntax): (n: nat)
    ensures n >= 1
    decreases s, 1
  {
    1 + SizeAll(s.kids)
  }

  ghost function SizeAll(ss: seq<Syntax>): (n: nat)
    ensures n >= |ss|
    decreases ss, 0
  {
    if ss == [] then 0 else Size(ss[0]) + SizeAll(ss[1..])
  }

  /** The preorder positions of sibling roots when the first is at `base`. */
  ghost function Positions(ss: seq<Syntax>, base: nat): (p: seq<nat>)
    ensures |p| == |ss|
  {
    if ss == [] then [] else [base] + Positions(ss[1..], base + Size(ss[0]))
  }

  /** The child table of a subtree whose root is at position `base`: its own
      entries first, then those of its subtrees in preorder. */
  ghost function Links(s: Syntax, base: nat): (l: seq<nat>)
    decreases s, 1
  {
    Positions(s.kids, base + 1) + LinksAll(s.kids, base + 1)
  }

  ghost function LinksAll(ss: seq<Syntax>, base: nat): (l: seq<nat>)
    decreases ss, 0
  {
    if ss == [] then [] else Links(ss[0], base) + LinksAll(ss[1..], base + Size(ss[0]))
  }

  /** The record of one item whose child entries begin at `start`. */
  ghost function RecordOf(s: Syntax, start: nat): Record {
    Record(s.cls, s.kind, s.lo, s.hi, start, |s.kids|)
  }

  /** The records of a subtree in preorder. */
  ghost function Recs(s: Syntax, start: nat): (r: seq<Record>)
    decreases s, 1
  {
    [RecordOf(s, start)] + RecsAll(s.kids, start + |s.kids|)
  }

  ghost function RecsAll(ss: seq<Syntax>, start: nat): (r: seq<Record>)
    decreases ss, 0
  {
    if ss == [] then [] else Recs(ss[0], start) + RecsAll(ss[1..], start + (Size(ss[0]) - 1))
  }

  lemma {:induction false} SizeAppend(a: seq<Syntax>, b: seq<Syntax>)
    ensures SizeAll(a + b) == SizeAll(a) + SizeAll(b)
    decreases |a|
  {
    if a == [] {
      assert a + b == b;
    } else {
      SizeAppend(a[1..], b);
      assert (a + b)[0] == a[0] && (a + b)[1..] == a[1..] + b;
    }
  }

  lemma {:induction false} RecsAppend(a: seq<Syntax>, b: seq<Syntax>, start: nat)
    ensures RecsAll(a + b, start) == RecsAll(a, start) + RecsAll(b, start + (SizeAll(a) - |a|))
    decreases |a|
  {
    if a == [] {
      assert a + b == b;
    } else {
      RecsAppend(a[1..], b, start + (Size(a[0]) - 1));
      assert (a + b)[0] == a[0] && (a + b)[1..] == a[1..] + b;
    }
  }

  lemma {:induction false} LinksAppend(a: seq<Syntax>, b: seq<Syntax>, base: nat)
    ensures LinksAll(a + b, base) == LinksAll(a, base) + LinksAll(b, base + SizeAll(a))
    decreases |a|
  {
    if a == [] {
      assert a + b == b;
    } else {
      LinksAppend(a[1..], b, base + Size(a[0]));
      assert (a + b)[0] == a[0] && (a + b)[1..] == a[1..] + b;
    }
  }

  /** Opening the first item of a forest emits its record. */
  lemma RecsOpen(s: Syntax, rest: seq<Syntax>, start: nat)
    ensures RecsAll([s] + rest, start) == [RecordOf(s, start)] + RecsAll(s.kids + rest, start + |s.kids|)
  {
    RecsAppend(s.kids, rest, start + |s.kids|);
    assert ([s] + rest)[1..] == rest;
    var a, b := RecsAll(s.kids, start + |s.kids|), RecsAll(rest, start + (Size(s) - 1));
    assert ([RecordOf(s, start)] + a) + b == [RecordOf(s, start)] + (a + b);
  }

  /** Opening the first item of a forest emits its child entries. */
  lemma LinksOpen(s: Syntax, rest: seq<Syntax>, base: nat)
    ensures LinksAll([s] + rest, base) == Positions(s.kids, base + 1) + LinksAll(s.kids + rest, base + 1)
  {
    LinksAppend(s.kids, rest, base + 1);
    assert ([s] + rest)[1..] == rest;
    var p, a, b := Positions(s.kids, base + 1), LinksAll(s.kids, base + 1), LinksAll(rest, base + Size(s));
    assert (p + a) + b == p + (a + b);
  }

  /** A subtree takes one record per item and one child entry per item but
      the root. */
  lemma {:induction false} LayoutSizes(s: Syntax, start: nat, base: nat)
    ensures |Recs(s, start)| == Size(s) && |Links(s, base)| == Size(s) - 1
    decreases s, 1
  {
    LayoutSizesAll(s.kids, start + |s.kids|, base + 1);
  }

  lemma {:induction false} LayoutSizesAll(ss: seq<Syntax>, start: nat, base: nat)
    ensures |RecsAll(ss, start)| == SizeAll(ss) && |LinksAll(ss, base)| == SizeAll(ss) - |ss|
    decreases ss, 0
  {
    if ss != [] {
      LayoutSizes(ss[0], start, base);
      LayoutSizesAll(ss[1..], start + (Size(ss[0]) - 1), base + Size(ss[0]));
    }
  }

  lemma {:induction false} PositionAt(ss: seq<Syntax>, base: nat, k: nat)
    requires k < |ss|
    ensures Positions(ss, base)[k] == base + SizeAll(ss[..k])
    decreases k
  {
    if k == 0 {
      assert ss[..0] == [];
    } else {
      PositionAt(ss[1..], base + Size(ss[0]), k - 1);
      assert ss[..k][0] == ss[0] && ss[..k][1..] == ss[1..][..k - 1];
    }
  }

  lemma {:induction false} SizeSplit(ss: seq<Syntax>, k: nat)
    requires k < |ss|
    ensures SizeAll(ss) == SizeAll(ss[..k]) + Size(ss[k]) + SizeAll(ss[k + 1..])
    ensures SizeAll(ss[..k + 1]) == SizeAll(ss[..k]) + Size(ss[k])
  {
    assert ss == ss[..k] + ([ss[k]] + ss[k + 1..]);
    SizeAppend(ss[..k], [ss[k]] + ss[k + 1..]);
    assert ([ss[k]] + ss[k + 1..])[1..] == ss[k + 1..];
    assert ss[..k + 1] == ss[..k] + [ss[k]];
    SizeAppend(ss[..k], [ss[k]]);
    assert [ss[k]][1..] == [];
  }

  /** Links inside a subtree are positions of that subtree. */
  lemma {:induction false} LinksInRange(s: Syntax, base: nat, i: nat)
    requires i < |Links(s, base)|
    ensures base < Links(s, base)[i] < base + Size(s)
    decreases s, 1
  {
    var n := |s.kids|;
    if i < n {
      PositionAt(s.kids, base + 1, i);
      SizeSplit(s.kids, i);
    } else {
      LinksInRangeAll(s.kids, base + 1, i - n);
    }
  }

  lemma {:induction false} LinksInRangeAll(ss: seq<Syntax>, base: nat, i: nat)
    requires i < |LinksAll(ss, base)|
    ensures base <= LinksAll(ss, base)[i] < base + SizeAll(ss)
    decreases ss, 0
  {
    var first := Links(ss[0], base);
    if i < |first| {
      LinksInRange(ss[0], base, i);
    } else {
      LinksInRangeAll(ss[1..], base + Size(ss[0]), i - |first|);
    }
  }

  // ------------------------------------------------------------- moving

  function Slide(x: nat, d: int): nat {
    if x + d < 0 then 0 else x + d
  }

  /** The same item at another place of the source. */
  ghost function Move(s: Syntax, d: int): (t: Syntax)
    ensures |t.kids| == |s.kids| && t.lo == Slide(s.lo, d) && t.hi == Slide(s.hi, d) && t.cls == s.cls
    ensures t.kind == s.kind
    decreases s, 1
  {
    Syntax(s.cls, s.kind, Slide(s.lo, d), Slide(s.hi, d), MoveAll(s.kids, d))
  }

  ghost function MoveAll(ss: seq<Syntax>, d: int): (ts: seq<Syntax>)
    ensures |ts| == |ss|
    decreases ss, 0
  {
    if ss == [] then [] else [Move(ss[0], d)] + MoveAll(ss[1..], d)
  }

  lemma {:induction false} MoveAllAt(ss: seq<Syntax>, d: int, k: nat)
    requires k < |ss|
    ensures MoveAll(ss, d)[k] == Move(ss[k], d)
    decreases k
  {
    if k > 0 { MoveAllAt(ss[1..], d, k - 1); }
  }

  lemma {:induction false} MoveAppend(a: seq<Syntax>, b: seq<Syntax>, d: int)
    ensures MoveAll(a + b, d) == MoveAll(a, d) + MoveAll(b, d)
    decreases |a|
  {
    if a == [] {
      assert a + b == b;
    } else {
      MoveAppend(a[1..], b, d);
      assert (a + b)[0] == a[0] && (a + b)[1..] == a[1..] + b;
    }
  }

  /** Moving changes no size, position or child entry. */
  lemma {:induction false} MoveKeepsShape(s: Syntax, d: int, base: nat)
    ensures Size(Move(s, d)) == Size(s) && Links(Move(s, d), base) == Links(s, base)
    decreases s, 1
  {
    MoveKeepsShapeAll(s.kids, d, base + 1);
  }

  lemma {:induction false} MoveKeepsShapeAll(ss: seq<Syntax>, d: int, base: nat)
    ensures SizeAll(MoveAll(ss, d)) == SizeAll(ss) && LinksAll(MoveAll(ss, d), base) == LinksAll(ss, base)
    ensures Positions(MoveAll(ss, d), base) == Positions(ss, base)
    decreases ss, 0
  {
    if ss != [] {
      hide Size, Links, Move;
      MoveKeepsShape(ss[0], d, base);
      MoveKeepsShapeAll(ss[1..], d, base + Size(ss[0]));
      MoveAllHead(ss, d);
    }
  }

  lemma MoveAllHead(ss: seq<Syntax>, d: int)
    requires ss != []
    ensures MoveAll(ss, d) != [] && MoveAll(ss, d)[0] == Move(ss[0], d) && MoveAll(ss, d)[1..] == MoveAll(ss[1..], d)
  {
    hide Move;
  }

  // -------------------------------------------------------- well-formed items

  /** What the checks of a view guarantee about a tree of items. */
  ghost predicate Good(s: Syntax, sourceLen: nat)
    decreases s
  {
    && KindClass(s.kind) == Some(s.cls)
    && s.lo <= s.hi <= sourceLen
    && (s.cls.Token? || s.cls.Trivia? ==> s.kids == [])
    && (forall k :: 0 <= k < |s.kids| ==> s.lo <= s.kids[k].lo && s.kids[k].hi <= s.hi)
    && (forall k :: 0 <= k < |s.kids| ==> Good(s.kids[k], sourceLen))
  }

  /** A good item fits any source that holds its range, and moving it there
      and back is the identity. */
  lemma {:induction false} GoodMoved(s: Syntax, len: nat, d: int, len': nat)
    requires Good(s, len) && s.lo + d >= 0 && s.hi + d <= len'
    ensures Good(Move(s, d), len')
    decreases s
  {
    var t := Move(s, d);
    forall k | 0 <= k < |s.kids| ensures t.lo <= t.kids[k].lo && t.kids[k].hi <= t.hi && Good(t.kids[k], len') {
      MoveAllAt(s.kids, d, k);
      GoodMoved(s.kids[k], len, d, len');
    }
  }

  lemma {:induction false} MoveBack(s: Syntax, len: nat, d: int)
    requires Good(s, len) && s.lo + d >= 0
    ensures Move(Move(s, d), -d) == s
    decreases s
  {
    var t := Move(s, d);
    forall k | 0 <= k < |s.kids| ensures Move(t, -d).kids[k] == s.kids[k] {
      MoveAllAt(s.kids, d, k);
      MoveAllAt(t.kids, -d, k);
      MoveBack(s.kids[k], len, d);
    }
  }

  /** The item with its range starting at zero. */
  ghost function Normal(s: Syntax): Syntax {
    Move(s, 0 - s.lo)
  }

  lemma NormalMoved(s: Syntax, len: nat, d: nat)
    requires Good(s, len) && s.lo == 0
    ensures Normal(Move(s, d)) == s && Normal(s) == s
  {
    MoveBack(s, len, d);
    MoveBack(s, len, 0);
    MoveZero(s);
  }

  lemma {:induction false} MoveZero(s: Syntax)
    ensures Move(s, 0) == s
    decreases s
  {
    forall k | 0 <= k < |s.kids| ensures Move(s, 0).kids[k] == s.kids[k] {
      MoveAllAt(s.kids, 0, k);
      MoveZero(s.kids[k]);
    }
  }

  /** The compact records of one item and its subtree. */
  ghost function Compact(s: Syntax): Text {
    Encoded(Recs(s, 0), Links(s, 0), 0)
  }
}
