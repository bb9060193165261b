/** The bytes of a component determine it: equal encodings mean the same
    members, colour by colour. */
module ComponentExact {
  import opened Common
  import opened Bytes
  import opened Sequences
  import opened Refinement
  import opened RefinementLaws
  import opened ComponentBytes

  // ------------------------------------------------------------ lengths

  ghost function FromLe(b: seq<byte>): nat {
    if b == [] then 0 else b[0] as nat + 0x100 * FromLe(b[1..])
  }

  ghost function Pow256(n: nat): nat {
    if n == 0 then 1 else 0x100 * Pow256(n - 1)
  }

  lemma LeCons(x: nat, n: nat)
    requires n > 0
    ensures Le(x, n)[0] == x % 0x100 && Le(x, n)[1..] == Le(x / 0x100, n - 1)
  {
    assert forall i :: 0 <= i < n - 1 ==> Le(x, n)[1..][i] == Digit(x, i + 1) == Digit(x / 0x100, i);
  }

  /** A length that fits its word is read back from it. */
  lemma {:induction false} LeBack(x: nat, n: nat)
    requires x < Pow256(n)
    ensures FromLe(Le(x, n)) == x
    decreases n
  {
    if n > 0 {
      LeCons(x, n);
      LeBack(x / 0x100, n - 1);
    }
  }

  lemma LeSame(x: nat, y: nat, n: nat)
    requires x < Pow256(n) && y < Pow256(n) && Le(x, n) == Le(y, n)
    ensures x == y
  {
    LeBack(x, n);
    LeBack(y, n);
  }

  lemma Words()
    ensures Pow256(4) == U32_LIMIT && Pow256(8) == U64_LIMIT
  {
    assert Pow256(2) == 0x1_0000;
    assert Pow256(4) == 0x100 * (0x100 * Pow256(2));
    assert Pow256(6) == 0x100 * (0x100 * Pow256(4));
    assert Pow256(8) == 0x100 * (0x100 * Pow256(6));
  }

  lemma SplitEqual(a: Text, b: Text, c: Text, d: Text)
    requires a + b == c + d && |a| == |c|
    ensures a == c && b == d
  {
    assert a == (a + b)[..|a|] && c == (c + d)[..|c|];
    assert b == (a + b)[|a|..] && d == (c + d)[|c|..];
  }

  // ------------------------------------------------------------ frames

  lemma FramedNone(ms: seq<Member>, c: seq<nat>)
    requires forall i :: 0 <= i < |ms| ==> HolesIn(ms[i], |c|)
    ensures Framed(ms, c, []) == []
  {
  }

  lemma FramedLast(ms: seq<Member>, c: seq<nat>, order: seq<nat>)
    requires forall i :: 0 <= i < |ms| ==> HolesIn(ms[i], |c|)
    requires order != [] && forall k :: 0 <= k < |order| ==> order[k] < |ms|
    ensures var last := |order| - 1;
      Framed(ms, c, order) == Framed(ms, c, order[..last]) + FramedBytes(EmitBytes(ms[order[last]], c))
  {
    hide EmitBytes, FramedBytes;
  }

  /** The framed members from the front. */
  lemma {:induction false} FramedFront(ms: seq<Member>, c: seq<nat>, order: seq<nat>)
    requires forall i :: 0 <= i < |ms| ==> HolesIn(ms[i], |c|)
    requires order != [] && forall k :: 0 <= k < |order| ==> order[k] < |ms|
    ensures Framed(ms, c, order) == FramedBytes(EmitBytes(ms[order[0]], c)) + Framed(ms, c, order[1..])
    decreases |order|
  {
    hide EmitBytes, FramedBytes, Framed;
    var last := |order| - 1;
    FramedLast(ms, c, order);
    if last == 0 {
      assert order[..0] == [] && order[1..] == [];
      FramedNone(ms, c);
    } else {
      FramedFront(ms, c, order[..last]);
      FramedLast(ms, c, order[1..]);
      assert order[..last][0] == order[0] && order[1..][last - 1] == order[last];
      assert order[..last][1..] == order[1..][..last - 1];
    }
  }

  ghost predicate ShortMembers(ms: seq<Member>, c: seq<nat>) {
    forall i :: 0 <= i < |ms| ==> HolesIn(ms[i], |c|) && |EmitBytes(ms[i], c)| < U64_LIMIT
  }

  lemma FrameSplit(a: Text, x: Text, b: Text, y: Text)
    requires |a| < U64_LIMIT && |b| < U64_LIMIT && FramedBytes(a) + x == FramedBytes(b) + y
    ensures a == b && x == y
  {
    hide Le, Pow256;
    Words();
    assert FramedBytes(a) + x == Le(|a|, 8) + (a + x) && FramedBytes(b) + y == Le(|b|, 8) + (b + y);
    SplitEqual(Le(|a|, 8), a + x, Le(|b|, 8), b + y);
    LeSame(|a|, |b|, 8);
    SplitEqual(a, x, b, y);
  }

  /** Equal frames hold equal members: the lengths cannot slip. */
  lemma {:induction false} FramedSame(ms: seq<Member>, c: seq<nat>, order: seq<nat>, ms': seq<Member>, c': seq<nat>,
                                      order': seq<nat>)
    requires ShortMembers(ms, c) && ShortMembers(ms', c') && |order| == |order'|
    requires forall k :: 0 <= k < |order| ==> order[k] < |ms| && order'[k] < |ms'|
    requires Framed(ms, c, order) == Framed(ms', c', order')
    ensures forall k :: 0 <= k < |order| ==> EmitBytes(ms[order[k]], c) == EmitBytes(ms'[order'[k]], c')
    decreases |order|
  {
    hide EmitBytes, FramedBytes, Framed;
    if order != [] {
      FramedFront(ms, c, order);
      FramedFront(ms', c', order');
      FrameSplit(EmitBytes(ms[order[0]], c), Framed(ms, c, order[1..]),
                 EmitBytes(ms'[order'[0]], c'), Framed(ms', c', order'[1..]));
      FramedSame(ms, c, order[1..], ms', c', order'[1..]);
      forall k | 0 <= k < |order| ensures EmitBytes(ms[order[k]], c) == EmitBytes(ms'[order'[k]], c') {
        if k > 0 { assert order[k] == order[1..][k - 1] && order'[k] == order'[1..][k - 1]; }
      }
    }
  }

  // --------------------------------------------------- colours from bytes

  /** The members spell out a layout in their final bytes. */
  ghost predicate FinalLayout(layout: Layout, ms: seq<Member>, c: seq<nat>) {
    forall i :: 0 <= i < |ms| ==> HolesIn(ms[i], |c|) && Follows(layout, [], ms[i], Final(c))
  }

  /** Members with equal final bytes have one colour. */
  lemma SameBytesSameColour(base: Layout, layout: Layout, ms: seq<Member>, remaining: nat, r: Refined, i: nat, j: nat)
    requires Canonical(base, ms) && RefinedTo(base, ms, remaining, r) && i < |ms| && j < |ms|
    requires |r.colours| == |ms| && FinalLayout(layout, ms, r.colours)
    requires EmitBytes(ms[i], r.colours) == EmitBytes(ms[j], r.colours)
    ensures r.colours[i] == r.colours[j]
  {
    hide EmitBytes, Skeleton, Follows, RefineSpec, SameColours;
    EmitExact(layout, ms[i], r.colours, ms[j], r.colours);
    SkeletonBase(ms[i], ms[j]);
    CanonicalComponent(base, ms);
    StableJoins(ms, remaining, r, i, j);
  }

  lemma StableJoins(ms: seq<Member>, remaining: nat, r: Refined, i: nat, j: nat)
    requires Component(Bases(ms), RefLists(ms)) && RefineSpec(Bases(ms), RefLists(ms), remaining, Ok(r))
    requires i < |ms| && j < |ms| && |r.colours| == |ms| && BaseBytes(ms[i]) == BaseBytes(ms[j])
    requires HolesIn(ms[i], |ms|) && HolesIn(ms[j], |ms|) && SameColours(ms[i], r.colours, ms[j], r.colours)
    ensures r.colours[i] == r.colours[j]
  {
    hide RefineSpec, BaseBytes, RefsOf;
    var base, refs, c := Bases(ms), RefLists(ms), r.colours;
    RefsInRange(ms[i], |ms|);
    RefsInRange(ms[j], |ms|);
    var rel := ColourRelation(c) + {(i, j)};
    forall p | p in rel ensures RelatedStep(base, refs, rel, p.0, p.1) {
      if p == (i, j) {
        assert refs[i] == RefsOf(ms[i]) && refs[j] == RefsOf(ms[j]);
      } else {
        RefinedViews(base, refs, remaining, r, p.0, p.1);
      }
    }
    assert IsBisimulation(base, refs, rel) && (i, j) in rel;
    RefineIsCoarsestStable(base, refs, remaining, Ok(r), i, j);
  }

  /** The colours of a refined component are ranks. */
  lemma ColoursAreRanks(base: seq<Text>, refs: seq<seq<nat>>, remaining: nat, r: Refined) returns (values: seq<Text>)
    requires Component(base, refs) && RefineSpec(base, refs, remaining, Ok(r)) && |base| > 1
    ensures |values| == |base| == |r.colours| && r.colours == Ranks(values)
  {
    hide ComponentRounds, ModuleRounds, Work, PerRound, Settled, UnsettledBefore, Iter;
    IterUnfold(base, refs, r.rounds);
    values := if r.rounds == 0 then base else Signatures(Iter(base, refs, r.rounds - 1), refs);
  }

  lemma RanksInOrder(values: seq<Text>, order: seq<nat>)
    requires ColourOrder(Ranks(values), order)
    ensures SortedOrder(values, order) && |order| == |values| && forall i :: 0 <= i < |values| ==> i in order
  {
    hide RankOf;
    PermutationBasics(order, |values|);
    forall k, l | 0 <= k < l < |order| ensures !Less(values[order[l]], values[order[k]]) {
      if Less(values[order[l]], values[order[k]]) { RankMonotone(values, values[order[l]], values[order[k]]); }
    }
  }

  /** In colour order the colours begin at zero and rise by at most one. */
  lemma ColoursClimb(base: seq<Text>, refs: seq<seq<nat>>, remaining: nat, r: Refined, order: seq<nat>, k: nat)
    requires Component(base, refs) && RefineSpec(base, refs, remaining, Ok(r)) && ColourOrder(r.colours, order)
    requires k < |order|
    ensures |order| == |base| == |r.colours|
    ensures k == 0 ==> r.colours[order[k]] == 0
    ensures k > 0 ==> r.colours[order[k]] <= r.colours[order[k - 1]] + 1
  {
    PermutationBasics(order, |r.colours|);
    if |base| > 1 {
      hide RefineSpec;
      var values := ColoursAreRanks(base, refs, remaining, r);
      RanksInOrder(values, order);
      if k == 0 { FirstRank(values, order); } else { NextRank(values, order, k); }
    }
  }

  /** The colour at place `k` of an order, against the place before: it begins
      at zero, rises by at most one, and rises exactly when `rises` says so. */
  ghost predicate Rung(c: seq<nat>, order: seq<nat>, k: nat, rises: bool)
    requires k < |order| && forall l :: 0 <= l < |order| ==> order[l] < |c|
  {
    if k == 0 then c[order[0]] == 0 else c[order[k]] == c[order[k - 1]] + if rises then 1 else 0
  }

  /** Colours that climb alike are equal, place by place. */
  lemma {:induction false} SameLadder(c: seq<nat>, order: seq<nat>, d: seq<nat>, order': seq<nat>, rises: nat -> bool,
                                      k: nat)
    requires |order| == |order'| && k < |order|
    requires forall l :: 0 <= l < |order| ==> order[l] < |c| && order'[l] < |d|
    requires forall l :: 0 <= l < |order| ==> Rung(c, order, l, rises(l)) && Rung(d, order', l, rises(l))
    ensures c[order[k]] == d[order'[k]]
  {
    assert Rung(c, order, k, rises(k)) && Rung(d, order', k, rises(k));
    if k > 0 { SameLadder(c, order, d, order', rises, k - 1); }
  }

  // ------------------------------------------------------------ the law

  /** Colour by colour the two components are the same: equally many members
      of each colour, and members of one colour have the same fields and refer
      to the same colours. */
  ghost predicate SameByColour(ms: seq<Member>, c: seq<nat>, ms': seq<Member>, c': seq<nat>)
    requires |c| == |ms| && |c'| == |ms'|
    requires (forall i :: 0 <= i < |ms| ==> HolesIn(ms[i], |c|)) && forall i :: 0 <= i < |ms'| ==> HolesIn(ms'[i], |c'|)
  {
    && multiset(c) == multiset(c')
    && forall i, j :: 0 <= i < |ms| && 0 <= j < |ms'| && c[i] == c'[j] ==>
         Skeleton(ms[i]) == Skeleton(ms'[j]) && SameColours(ms[i], c, ms'[j], c')
  }

  /** One refined component, whose members have a layout in both rounds. */
  ghost predicate Emitted(base: Layout, layout: Layout, ms: seq<Member>, remaining: nat, r: Refined) {
    && Canonical(base, ms) && RefinedTo(base, ms, remaining, r)
    && |ms| == |r.colours| < U32_LIMIT && FinalLayout(layout, ms, r.colours) && ShortMembers(ms, r.colours)
  }

  /** The member at place `k` has other bytes than the one before. */
  ghost predicate Fresh(ms: seq<Member>, c: seq<nat>, order: seq<nat>, k: nat)
    requires forall i :: 0 <= i < |ms| ==> HolesIn(ms[i], |c|)
    requires k < |order| && forall l :: 0 <= l < |order| ==> order[l] < |ms|
  {
    k > 0 && EmitBytes(ms[order[k]], c) != EmitBytes(ms[order[k - 1]], c)
  }

  /** In colour order, the colour rises exactly where the bytes change. */
  lemma NeighbourColours(base: Layout, layout: Layout, ms: seq<Member>, remaining: nat, r: Refined, order: seq<nat>,
                         k: nat)
    requires Emitted(base, layout, ms, remaining, r) && ColourOrder(r.colours, order) && k < |order|
    ensures Rung(r.colours, order, k, Fresh(ms, r.colours, order, k))
  {
    hide EmitBytes, RefineSpec, FinalLayout, Follows;
    CanonicalComponent(base, ms);
    ColoursClimb(Bases(ms), RefLists(ms), remaining, r, order, k);
    if k > 0 {
      SameColourSameBytes(base, ms, remaining, r, order[k], order[k - 1]);
      if EmitBytes(ms[order[k]], r.colours) == EmitBytes(ms[order[k - 1]], r.colours) {
        SameBytesSameColour(base, layout, ms, remaining, r, order[k], order[k - 1]);
      }
    }
  }

  lemma EmittedParts(base: Layout, layout: Layout, ms: seq<Member>, remaining: nat, r: Refined, order: seq<nat>)
    requires Emitted(base, layout, ms, remaining, r) && ColourOrder(r.colours, order)
    ensures |order| == |ms| == |r.colours| < U32_LIMIT && ShortMembers(ms, r.colours)
    ensures (forall k :: 0 <= k < |order| ==> order[k] < |ms|) && forall i :: 0 <= i < |ms| ==> i in order
    ensures FinalLayout(layout, ms, r.colours) && forall i :: 0 <= i < |ms| ==> HolesIn(ms[i], |r.colours|)
  {
    hide RefinedTo, Follows, EmitBytes;
    PermutationBasics(order, |r.colours|);
  }

  /** Members with equal bytes in order have equal colours in order. */
  lemma OrderedColours(base: Layout, layout: Layout, ms: seq<Member>, ms': seq<Member>, remaining: nat, remaining': nat,
                       r: Refined, r': Refined, order: seq<nat>, order': seq<nat>)
    requires Emitted(base, layout, ms, remaining, r) && Emitted(base, layout, ms', remaining', r')
    requires ColourOrder(r.colours, order) && ColourOrder(r'.colours, order') && |order| == |order'|
    requires forall k :: 0 <= k < |order| ==>
               EmitBytes(ms[order[k]], r.colours) == EmitBytes(ms'[order'[k]], r'.colours)
    ensures forall k :: 0 <= k < |order| ==> r.colours[order[k]] == r'.colours[order'[k]]
  {
    hide EmitBytes, Emitted, ColourOrder, ShortMembers, FinalLayout, Rung;
    EmittedParts(base, layout, ms, remaining, r, order);
    EmittedParts(base, layout, ms', remaining', r', order');
    var c, c' := r.colours, r'.colours;
    var rises := (k: nat) => k < |order| && Fresh(ms, c, order, k);
    forall k | 0 <= k < |order| ensures Rung(c, order, k, rises(k)) && Rung(c', order', k, rises(k)) {
      NeighbourColours(base, layout, ms, remaining, r, order, k);
      NeighbourColours(base, layout, ms', remaining', r', order', k);
    }
    forall k | 0 <= k < |order| ensures c[order[k]] == c'[order'[k]] { SameLadder(c, order, c', order', rises, k); }
  }

  lemma EncodingSplit(header: Text, ms: seq<Member>, c: seq<nat>, order: seq<nat>, ms': seq<Member>, c': seq<nat>,
                      order': seq<nat>)
    requires ShortMembers(ms, c) && ShortMembers(ms', c') && |order| < U32_LIMIT && |order'| < U32_LIMIT
    requires forall k :: 0 <= k < |order| ==> order[k] < |ms|
    requires forall k :: 0 <= k < |order'| ==> order'[k] < |ms'|
    requires header + Le(|order|, 4) + Framed(ms, c, order) == header + Le(|order'|, 4) + Framed(ms', c', order')
    ensures |order| == |order'| && Framed(ms, c, order) == Framed(ms', c', order')
  {
    hide Le, Pow256, Framed, EmitBytes;
    Words();
    SplitEqual(header + Le(|order|, 4), Framed(ms, c, order), header + Le(|order'|, 4), Framed(ms', c', order'));
    SplitEqual(header, Le(|order|, 4), header, Le(|order'|, 4));
    LeSame(|order|, |order'|, 4);
  }

  /** Equal component bytes hold equal members in colour order. */
  lemma EqualEncodings(base: Layout, layout: Layout, header: Text, ms: seq<Member>, ms': seq<Member>, remaining: nat,
                       remaining': nat, r: Refined, r': Refined, order: seq<nat>, order': seq<nat>)
    requires Emitted(base, layout, ms, remaining, r) && Emitted(base, layout, ms', remaining', r')
    requires ColourOrder(r.colours, order) && ColourOrder(r'.colours, order')
    requires header + Le(|order|, 4) + Framed(ms, r.colours, order)
          == header + Le(|order'|, 4) + Framed(ms', r'.colours, order')
    ensures |order| == |order'|
    ensures forall k :: 0 <= k < |order| ==>
              && EmitBytes(ms[order[k]], r.colours) == EmitBytes(ms'[order'[k]], r'.colours)
              && r.colours[order[k]] == r'.colours[order'[k]]
  {
    hide Emitted, EmitBytes, Le, Framed, ColourOrder, FinalLayout;
    EmittedParts(base, layout, ms, remaining, r, order);
    EmittedParts(base, layout, ms', remaining', r', order');
    EncodingSplit(header, ms, r.colours, order, ms', r'.colours, order');
    FramedSame(ms, r.colours, order, ms', r'.colours, order');
    OrderedColours(base, layout, ms, ms', remaining, remaining', r, r', order, order');
  }

  /** Two members of one colour, one from each component, when the encodings
      agree in order. */
  lemma ColourMates(base: Layout, layout: Layout, ms: seq<Member>, ms': seq<Member>, remaining: nat, remaining': nat,
                    r: Refined, r': Refined, order: seq<nat>, order': seq<nat>, i: nat, j: nat)
    requires Emitted(base, layout, ms, remaining, r) && Emitted(base, layout, ms', remaining', r')
    requires ColourOrder(r.colours, order) && ColourOrder(r'.colours, order') && |order| == |order'|
    requires forall k :: 0 <= k < |order| ==>
               && EmitBytes(ms[order[k]], r.colours) == EmitBytes(ms'[order'[k]], r'.colours)
               && r.colours[order[k]] == r'.colours[order'[k]]
    requires i < |ms| && j < |ms'| && r.colours[i] == r'.colours[j]
    ensures Skeleton(ms[i]) == Skeleton(ms'[j]) && SameColours(ms[i], r.colours, ms'[j], r'.colours)
  {
    hide EmitBytes, ColourOrder, RefineSpec, Skeleton, SameColours, Follows;
    EmittedParts(base, layout, ms, remaining, r, order);
    EmittedParts(base, layout, ms', remaining', r', order');
    assert i in order;
    var k :| 0 <= k < |order| && order[k] == i;
    SameColourSameBytes(base, ms', remaining', r', order'[k], j);
    assert EmitBytes(ms[i], r.colours) == EmitBytes(ms'[j], r'.colours);
    EmitExact(layout, ms[i], r.colours, ms'[j], r'.colours);
  }

  /** Members of equal colours emit equal bytes in order. */
  lemma SameByColourFramed(ms: seq<Member>, c: seq<nat>, order: seq<nat>, ms': seq<Member>, c': seq<nat>,
                           order': seq<nat>)
    requires |c| == |ms| && |c'| == |ms'| && ColourOrder(c, order) && ColourOrder(c', order')
    requires (forall i :: 0 <= i < |ms| ==> HolesIn(ms[i], |c|)) && forall i :: 0 <= i < |ms'| ==> HolesIn(ms'[i], |c'|)
    requires SameByColour(ms, c, ms', c')
    ensures |order| == |order'| && Framed(ms, c, order) == Framed(ms', c', order')
  {
    hide EmitBytes, Skeleton, SameColours, Framed;
    PickPermutation(c, order);
    PickPermutation(c', order');
    SortedUnique(Pick(c, order), Pick(c', order'));
    forall k | 0 <= k < |order| ensures EmitBytes(ms[order[k]], c) == EmitBytes(ms'[order'[k]], c') {
      assert c[order[k]] == Pick(c, order)[k] == Pick(c', order')[k] == c'[order'[k]];
      EmitEqual(ms[order[k]], c, ms'[order'[k]], c');
    }
    FramedEqual(ms, c, order, ms', c', order');
  }

  lemma SameCounts(c: seq<nat>, order: seq<nat>, d: seq<nat>, order': seq<nat>)
    requires ColourOrder(c, order) && ColourOrder(d, order') && |order| == |order'|
    requires forall k :: 0 <= k < |order| ==> c[order[k]] == d[order'[k]]
    ensures multiset(c) == multiset(d)
  {
    PickPermutation(c, order);
    PickPermutation(d, order');
    assert Pick(c, order) == Pick(d, order');
  }

  /** Two refined components have equal bytes exactly when they are the same
      colour by colour. */
  lemma EncodingExact(base: Layout, layout: Layout, header: Text, ms: seq<Member>, ms': seq<Member>, remaining: nat,
                      remaining': nat, r: Refined, r': Refined, bytes: Text, bytes': Text)
    requires Emitted(base, layout, ms, remaining, r) && Emitted(base, layout, ms', remaining', r')
    requires IsEncoding(header, ms, r.colours, bytes) && IsEncoding(header, ms', r'.colours, bytes')
    ensures bytes == bytes' <==> SameByColour(ms, r.colours, ms', r'.colours)
  {
    hide Emitted, EmitBytes, Le, Framed, Skeleton, SameColours, IsPermutation;
    var c, c' := r.colours, r'.colours;
    var order :| ColourOrder(c, order) && bytes == header + Le(|order|, 4) + Framed(ms, c, order);
    var order' :| ColourOrder(c', order') && bytes' == header + Le(|order'|, 4) + Framed(ms', c', order');
    if bytes == bytes' {
      EqualEncodings(base, layout, header, ms, ms', remaining, remaining', r, r', order, order');
      SameCounts(c, order, c', order');
      forall i, j | 0 <= i < |ms| && 0 <= j < |ms'| && c[i] == c'[j]
        ensures Skeleton(ms[i]) == Skeleton(ms'[j]) && SameColours(ms[i], c, ms'[j], c')
      {
        ColourMates(base, layout, ms, ms', remaining, remaining', r, r', order, order', i, j);
      }
    } else if SameByColour(ms, c, ms', c') {
      SameByColourFramed(ms, c, order, ms', c', order');
    }
  }
}
