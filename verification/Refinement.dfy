/** Structural refinement of one component: `rank` and `refine_colours`. */
module Refinement {
  import opened Common
  import opened Bytes
  import opened Sequences

  // ---------------------------------------------------------------- rank

  /** The values of the input that sort strictly before `v`. */
  ghost function Below(values: seq<Text>, v: Text): set<Text> {
    set w | w in values && Less(w, v)
  }

  /** The colour `rank` promises: how many different values sort before. */
  ghost function RankOf(values: seq<Text>, v: Text): nat {
    |Below(values, v)|
  }

  ghost function Ranks(values: seq<Text>): (r: seq<nat>)
    ensures |r| == |values|
    ensures forall i :: 0 <= i < |r| ==> r[i] == RankOf(values, values[i])
  {
    seq(|values|, i requires 0 <= i < |values| => RankOf(values, values[i]))
  }

  lemma RankMonotone(values: seq<Text>, u: Text, v: Text)
    requires u in values && Less(u, v)
    ensures RankOf(values, u) < RankOf(values, v)
  {
    forall w | w in Below(values, u) ensures w in Below(values, v) {
      LessTransitive(w, u, v);
    }
    LessIrreflexive(u);
    var a, b := Below(values, u), Below(values, v);
    assert a + {u} <= b && u !in a;
    SubsetSize(a + {u}, b);
  }

  /** Two members share a colour exactly when their values are equal. */
  lemma RankExact(values: seq<Text>, i: nat, j: nat)
    requires i < |values| && j < |values|
    ensures Ranks(values)[i] == Ranks(values)[j] <==> values[i] == values[j]
  {
    LessTotal(values[i], values[j]);
    if Less(values[i], values[j]) {
      RankMonotone(values, values[i], values[j]);
      LessIrreflexive(values[i]);
    } else if Less(values[j], values[i]) {
      RankMonotone(values, values[j], values[i]);
      LessIrreflexive(values[i]);
    }
  }

  lemma RanksPartition(values: seq<Text>)
    ensures Refines(values, Ranks(values)) && Refines(Ranks(values), values)
    ensures Distinct(Ranks(values)) == Distinct(values)
  {
    forall i, j | 0 <= i < |values| && 0 <= j < |values|
      ensures Ranks(values)[i] == Ranks(values)[j] <==> values[i] == values[j]
    {
      RankExact(values, i, j);
    }
    RefinesDistinct(values, Ranks(values));
    RefinesDistinct(Ranks(values), values);
  }

  /** Every colour is below the member count, so it fits a `u32`. */
  lemma RankBound(values: seq<Text>, i: nat)
    requires i < |values|
    ensures Ranks(values)[i] < |values|
  {
    var all := set w | w in values;
    var below := Below(values, values[i]);
    LessIrreflexive(values[i]);
    SubsetSize(below, all - {values[i]});
    DistinctAtMostLength(values);
  }

  ghost predicate SortedOrder(values: seq<Text>, order: seq<nat>) {
    && (forall k :: 0 <= k < |order| ==> order[k] < |values|)
    && (forall k, l :: 0 <= k < l < |order| ==> !Less(values[order[l]], values[order[k]]))
  }

  lemma InsertKeepsOrder(values: seq<Text>, order: seq<nat>, p: nat, i: nat)
    requires SortedOrder(values, order) && i < |values| && p <= |order|
    requires forall k :: 0 <= k < p ==> !Less(values[i], values[order[k]])
    requires p < |order| ==> Less(values[i], values[order[p]])
    ensures SortedOrder(values, order[..p] + [i] + order[p..])
  {
    forall k | p <= k < |order| ensures !Less(values[order[k]], values[i]) {
      if Less(values[order[k]], values[i]) {
        LessTransitive(values[order[k]], values[i], values[order[p]]);
        LessIrreflexive(values[order[p]]);
      }
    }
  }

  /** The content sort of `rank`: every index once, values ascending. */
  method SortByContent(values: seq<Text>) returns (order: seq<nat>)
    ensures SortedOrder(values, order) && |order| == |values|
    ensures forall i :: 0 <= i < |values| ==> i in order
  {
    order := [];
    for i := 0 to |values|
      invariant SortedOrder(values, order) && |order| == i
      invariant forall k :: 0 <= k < i ==> k in order
    {
      var p := 0;
      while p < |order| && !Less(values[i], values[order[p]])
        invariant p <= |order|
        invariant forall k :: 0 <= k < p ==> !Less(values[i], values[order[k]])
      {
        p := p + 1;
      }
      InsertKeepsOrder(values, order, p, i);
      ghost var was := order;
      order := order[..p] + [i] + order[p..];
      assert order[p] == i;
      forall k | 0 <= k < i ensures k in order {
        assert k in was;
        var l :| 0 <= l < |was| && was[l] == k;
        assert k == if l < p then order[l] else order[l + 1];
      }
    }
  }

  lemma NextBelow(values: seq<Text>, order: seq<nat>, k: nat)
    requires SortedOrder(values, order) && 0 < k < |order|
    requires forall i :: 0 <= i < |values| ==> i in order
    ensures values[order[k]] == values[order[k - 1]] || (
              && values[order[k - 1]] !in Below(values, values[order[k - 1]])
              && Below(values, values[order[k]]) == Below(values, values[order[k - 1]]) + {values[order[k - 1]]})
  {
    var prev, next := values[order[k - 1]], values[order[k]];
    LessIrreflexive(prev);
    if prev != next {
      LessTotal(prev, next);
      assert Less(prev, next);
      forall w | w in values && Less(w, next) ensures w == prev || Less(w, prev) {
        LessTotal(w, prev);
        SplitAt(values, order, k, w);
      }
      forall w | w in values && Less(w, prev) ensures Less(w, next) {
        LessTransitive(w, prev, next);
      }
    }
  }

  lemma FindValue(values: seq<Text>, order: seq<nat>, w: Text) returns (l: nat)
    requires SortedOrder(values, order) && w in values
    requires forall i :: 0 <= i < |values| ==> i in order
    ensures l < |order| && values[order[l]] == w
  {
    var i :| 0 <= i < |values| && values[i] == w;
    assert i in order;
    l :| 0 <= l < |order| && order[l] == i;
  }

  lemma SplitAt(values: seq<Text>, order: seq<nat>, k: nat, w: Text)
    requires SortedOrder(values, order) && 0 < k < |order| && w in values
    requires forall i :: 0 <= i < |values| ==> i in order
    ensures !Less(values[order[k - 1]], w) || !Less(w, values[order[k]])
  {
    var l := FindValue(values, order, w);
    LessIrreflexive(w);
  }

  lemma FirstBelow(values: seq<Text>, order: seq<nat>)
    requires SortedOrder(values, order) && |order| > 0
    requires forall i :: 0 <= i < |values| ==> i in order
    ensures Below(values, values[order[0]]) == {}
  {
    forall w | w in values ensures !Less(w, values[order[0]]) {
      var l := FindValue(values, order, w);
      LessIrreflexive(w);
    }
  }

  lemma LastBelow(values: seq<Text>, order: seq<nat>)
    requires SortedOrder(values, order) && |order| > 0
    requires forall i :: 0 <= i < |values| ==> i in order
    ensures Distinct(values) == RankOf(values, values[order[|order| - 1]]) + 1
  {
    var last := values[order[|order| - 1]];
    forall w | w in values ensures w == last || Less(w, last) {
      var l := FindValue(values, order, w);
      LessTotal(w, last);
    }
    LessIrreflexive(last);
    assert (set w | w in values) == Below(values, last) + {last};
  }

  lemma NextRank(values: seq<Text>, order: seq<nat>, k: nat)
    requires SortedOrder(values, order) && 0 < k < |order|
    requires forall i :: 0 <= i < |values| ==> i in order
    ensures RankOf(values, values[order[k]])
         == RankOf(values, values[order[k - 1]]) + if values[order[k]] == values[order[k - 1]] then 0 else 1
  {
    hide Below;
    NextBelow(values, order, k);
  }

  lemma FirstRank(values: seq<Text>, order: seq<nat>)
    requires SortedOrder(values, order) && |order| > 0
    requires forall i :: 0 <= i < |values| ==> i in order
    ensures RankOf(values, values[order[0]]) == 0
  {
    hide Below;
    FirstBelow(values, order);
  }

  lemma NoValues()
    ensures Distinct<Text>([]) == 0
  {
    assert (set x: Text | x in []) == {};
  }

  /** Rank byte strings by content: equal strings take one colour, the
      colours follow the sorted order, and the count is the class count. */
  method Rank(values: seq<Text>) returns (colours: seq<nat>, distinct: nat)
    ensures colours == Ranks(values)
    ensures distinct == Distinct(values)
  {
    hide RankOf, Distinct, Below;
    var order := SortByContent(values);
    var out := new nat[|values|](_ => 0);
    var colour := 0;
    for k := 0 to |order|
      invariant k > 0 ==> colour == RankOf(values, values[order[k - 1]])
      invariant k == 0 ==> colour == 0
      invariant forall l :: 0 <= l < k ==> out[order[l]] == RankOf(values, values[order[l]])
    {
      if k > 0 {
        NextRank(values, order, k);
        if values[order[k]] != values[order[k - 1]] { colour := colour + 1; }
      } else {
        FirstRank(values, order);
      }
      out[order[k]] := colour;
    }
    colours := out[..];
    forall i | 0 <= i < |values| ensures colours[i] == Ranks(values)[i] {
      assert i in order;
      var l :| 0 <= l < |order| && order[l] == i;
    }
    if values == [] {
      distinct := 0;
      NoValues();
    } else {
      distinct := colour + 1;
      LastBelow(values, order);
    }
  }

  // ------------------------------------------------------------ signatures

  predicate ValidRefs(refs: seq<seq<nat>>, n: nat) {
    && |refs| == n
    && forall i, k :: 0 <= i < n && 0 <= k < |refs[i]| ==> refs[i][k] < n
  }

  predicate ValidColours(colours: seq<nat>, n: nat) {
    && |colours| == n
    && forall i :: 0 <= i < n ==> colours[i] < U32_LIMIT
  }

  /** The four-byte words of the colours at `at`, in order. */
  function Words(colours: seq<nat>, at: seq<nat>): (b: Text)
    requires ValidColours(colours, |colours|)
    requires forall k :: 0 <= k < |at| ==> at[k] < |colours|
    ensures |b| == 4 * |at|
  {
    seq(4 * |at|, b requires 0 <= b < 4 * |at| => Digit(colours[at[b / 4]], b % 4))
  }

  lemma WordAt(colours: seq<nat>, at: seq<nat>, k: nat)
    requires ValidColours(colours, |colours|) && k < |at|
    requires forall l :: 0 <= l < |at| ==> at[l] < |colours|
    ensures Words(colours, at)[4 * k..4 * k + 4] == Le32(colours[at[k]])
  {
  }

  lemma WordsSnoc(colours: seq<nat>, at: seq<nat>, x: nat)
    requires ValidColours(colours, |colours|) && x < |colours|
    requires forall l :: 0 <= l < |at| ==> at[l] < |colours|
    ensures Words(colours, at + [x]) == Words(colours, at) + Le32(colours[x])
  {
    var w, v := Words(colours, at + [x]), Words(colours, at);
    assert w[..4 * |at|] == v;
    WordAt(colours, at + [x], |at|);
    assert w[4 * |at|..4 * |at| + 4] == w[4 * |at|..];
    assert w == w[..4 * |at|] + w[4 * |at|..];
  }

  /** Equal signatures are equal colour lists: the words cannot slip. */
  lemma WordsExact(c: seq<nat>, a: seq<nat>, d: seq<nat>, b: seq<nat>)
    requires ValidColours(c, |c|) && ValidColours(d, |d|)
    requires forall k :: 0 <= k < |a| ==> a[k] < |c|
    requires forall k :: 0 <= k < |b| ==> b[k] < |d|
    ensures Words(c, a) == Words(d, b) <==> Pick(c, a) == Pick(d, b)
  {
    if Words(c, a) == Words(d, b) {
      forall k | 0 <= k < |a| ensures c[a[k]] == d[b[k]] {
        WordAt(c, a, k);
        WordAt(d, b, k);
        Le32Injective(c[a[k]], d[b[k]]);
      }
    }
  }

  function Signatures(colours: seq<nat>, refs: seq<seq<nat>>): (s: seq<Text>)
    requires ValidColours(colours, |refs|) && ValidRefs(refs, |refs|)
    ensures |s| == |refs|
    ensures forall i :: 0 <= i < |s| ==> s[i] == Words(colours, [i] + refs[i])
  {
    seq(|refs|, i requires 0 <= i < |refs| => Words(colours, [i] + refs[i]))
  }

  // ------------------------------------------------------------ refinement

  datatype RefineError = ComponentBudget | ModuleBudget
  datatype Refined = Refined(colours: seq<nat>, rounds: nat, work: nat)
  type Result<T> = Outcome<T, RefineError>

  const REFINE_WORK_BUDGET: nat := 0x100_0000
  const MODULE_REFINE_WORK_BUDGET: nat := 0x200_0000

  function PerRound(refs: seq<seq<nat>>): nat {
    Max(|refs| + Sum(Lengths(refs)), 1)
  }

  function Lengths(refs: seq<seq<nat>>): (s: seq<nat>)
    ensures |s| == |refs| && forall i :: 0 <= i < |s| ==> s[i] == |refs[i]|
  {
    seq(|refs|, i requires 0 <= i < |refs| => |refs[i]|)
  }

  ghost predicate RoundState(colours: seq<nat>, refs: seq<seq<nat>>) {
    ValidRefs(refs, |refs|) && |refs| <= U32_LIMIT && ValidColours(colours, |refs|)
  }

  lemma RanksValid(values: seq<Text>)
    requires |values| <= U32_LIMIT
    ensures ValidColours(Ranks(values), |values|)
  {
    forall i | 0 <= i < |values| ensures Ranks(values)[i] < U32_LIMIT { RankBound(values, i); }
  }

  /** One round: fold the colours of the references into each colour. */
  ghost function Next(colours: seq<nat>, refs: seq<seq<nat>>): (next: seq<nat>)
    requires RoundState(colours, refs)
    ensures RoundState(next, refs)
  {
    RanksValid(Signatures(colours, refs));
    Ranks(Signatures(colours, refs))
  }

  function ComponentRounds(per: nat): nat
    requires per > 0
  {
    Max(REFINE_WORK_BUDGET / per, 1)
  }

  function ModuleRounds(remaining: nat, per: nat): nat
    requires per > 0
  {
    remaining / per
  }

  function Work(rounds: nat, per: nat): nat {
    rounds * per
  }

  /** The input `refine_colours` reads: members and in-range references. */
  ghost predicate Component(base: seq<Text>, refs: seq<seq<nat>>) {
    |base| <= U32_LIMIT && ValidRefs(refs, |base|)
  }

  /** The colours after `k` rounds. */
  ghost function Iter(base: seq<Text>, refs: seq<seq<nat>>, k: nat): (colours: seq<nat>)
    requires Component(base, refs)
    ensures RoundState(colours, refs)
  {
    if k == 0 then RanksValid(base); Ranks(base)
    else Next(Iter(base, refs, k - 1), refs)
  }

  lemma IterUnfold(base: seq<Text>, refs: seq<seq<nat>>, k: nat)
    requires Component(base, refs)
    ensures Iter(base, refs, 0) == Ranks(base)
    ensures k > 0 ==> Iter(base, refs, k) == Next(Iter(base, refs, k - 1), refs)
  {
  }

  ghost function Classes(base: seq<Text>, refs: seq<seq<nat>>, k: nat): nat
    requires Component(base, refs)
  {
    Distinct(Iter(base, refs, k))
  }

  /** The loop may stop after round `k`: every member is alone, or the
      last round split no class. */
  ghost predicate Settled(base: seq<Text>, refs: seq<seq<nat>>, k: nat)
    requires Component(base, refs)
  {
    Classes(base, refs, k) == |base| || (k > 0 && Classes(base, refs, k) == Classes(base, refs, k - 1))
  }

  ghost predicate UnsettledBefore(base: seq<Text>, refs: seq<seq<nat>>, k: nat)
    requires Component(base, refs)
  {
    k == 0 || (!Settled(base, refs, k - 1) && UnsettledBefore(base, refs, k - 1))
  }

  /** The answer under explicit round bounds: the colours of the first
      settled round, or the bound that stops the loop before that round. */
  ghost predicate BoundedSpec(base: seq<Text>, refs: seq<seq<nat>>, component: nat, mod: nat, r: Result<Refined>)
    requires Component(base, refs)
  {
    match r
    case Ok(Refined(colours, used, _)) =>
      && Settled(base, refs, used) && UnsettledBefore(base, refs, used)
      && used <= component && used <= mod
      && colours == Iter(base, refs, used)
    case Err(ComponentBudget) => component <= mod && UnsettledBefore(base, refs, component + 1)
    case Err(ModuleBudget) => mod < component && UnsettledBefore(base, refs, mod + 1)
  }

  /** What `refine_colours` answers. */
  ghost predicate RefineSpec(base: seq<Text>, refs: seq<seq<nat>>, remaining: nat, r: Result<Refined>)
    requires Component(base, refs)
  {
    if |base| <= 1 then r == Ok(Refined(seq(|base|, _ => 0), 0, 0))
    else
      var per := PerRound(refs);
      && BoundedSpec(base, refs, ComponentRounds(per), ModuleRounds(remaining, per), r)
      && (r.Ok? ==> r.value.work == Work(r.value.rounds, per))
  }

  /** Append the words of one member to the round buffer. */
  method AppendSignature(buf: Text, colours: seq<nat>, i: nat, refs: seq<nat>) returns (out: Text)
    requires ValidColours(colours, |colours|) && i < |colours|
    requires forall k :: 0 <= k < |refs| ==> refs[k] < |colours|
    ensures out == buf + Words(colours, [i] + refs)
  {
    out := buf + Le32(colours[i]);
    WordsSnoc(colours, [], i);
    assert [] + [i] == [i] + refs[..0];
    for k := 0 to |refs|
      invariant out == buf + Words(colours, [i] + refs[..k])
    {
      out := out + Le32(colours[refs[k]]);
      WordsSnoc(colours, [i] + refs[..k], refs[k]);
      assert [i] + refs[..k] + [refs[k]] == [i] + refs[..k + 1];
    }
    assert refs[..|refs|] == refs;
  }

  ghost function Flat<T>(parts: seq<seq<T>>): seq<T> {
    if parts == [] then [] else Flat(parts[..|parts| - 1]) + parts[|parts| - 1]
  }

  lemma FlatSnoc<T>(parts: seq<seq<T>>, part: seq<T>)
    ensures Flat(parts + [part]) == Flat(parts) + part
  {
    assert (parts + [part])[..|parts|] == parts;
  }

  /** The end offset of each part inside the flat buffer. */
  ghost predicate EndsOf<T>(ends: seq<nat>, parts: seq<seq<T>>) {
    |ends| == |parts| && forall k :: 0 <= k < |ends| ==> ends[k] == |Flat(parts[..k])| + |parts[k]|
  }

  lemma {:induction false} FlatSlice<T>(parts: seq<seq<T>>, k: nat)
    requires k < |parts|
    ensures |Flat(parts[..k])| + |parts[k]| <= |Flat(parts)|
    ensures Flat(parts)[|Flat(parts[..k])|..|Flat(parts[..k])| + |parts[k]|] == parts[k]
    ensures |Flat(parts[..k + 1])| == |Flat(parts[..k])| + |parts[k]|
  {
    var last := |parts| - 1;
    assert parts[..k + 1] == parts[..k] + [parts[k]];
    FlatSnoc(parts[..k], parts[k]);
    if k < last {
      FlatSlice(parts[..last], k);
      assert parts[..last][..k] == parts[..k];
      var lo := |Flat(parts[..k])|;
      assert Flat(parts)[lo..lo + |parts[k]|] == Flat(parts[..last])[lo..lo + |parts[k]|];
    }
  }

  method Cut<T>(buf: seq<T>, ends: seq<nat>, ghost parts: seq<seq<T>>) returns (out: seq<seq<T>>)
    requires buf == Flat(parts) && EndsOf(ends, parts)
    ensures out == parts
  {
    out := [];
    var start := 0;
    for i := 0 to |ends|
      invariant start == |Flat(parts[..i])|
      invariant out == parts[..i]
    {
      FlatSlice(parts, i);
      out := out + [buf[start..ends[i]]];
      start := ends[i];
    }
  }

  /** The buffer of one round, cut at its ends, is the signature list. */
  method BuildSignatures(colours: seq<nat>, refs: seq<seq<nat>>) returns (sig: seq<Text>)
    requires ValidColours(colours, |refs|) && ValidRefs(refs, |refs|)
    ensures sig == Signatures(colours, refs)
  {
    var buf: Text := [];
    var ends: seq<nat> := [];
    ghost var parts: seq<Text> := [];
    for i := 0 to |refs|
      invariant |parts| == i && forall k :: 0 <= k < i ==> parts[k] == Words(colours, [k] + refs[k])
      invariant buf == Flat(parts)
      invariant EndsOf(ends, parts)
    {
      buf, ends, parts := AddMember(buf, ends, parts, colours, i, refs[i]);
    }
    sig := Cut(buf, ends, parts);
  }

  method AddMember(buf: Text, ends: seq<nat>, ghost parts: seq<Text>, colours: seq<nat>, i: nat, refs: seq<nat>)
    returns (buf': Text, ends': seq<nat>, ghost parts': seq<Text>)
    requires buf == Flat(parts) && EndsOf(ends, parts)
    requires ValidColours(colours, |colours|) && i < |colours|
    requires forall k :: 0 <= k < |refs| ==> refs[k] < |colours|
    ensures parts' == parts + [Words(colours, [i] + refs)]
    ensures buf' == Flat(parts') && EndsOf(ends', parts')
  {
    buf' := AppendSignature(buf, colours, i, refs);
    ends' := ends + [|buf'|];
    parts' := parts + [Words(colours, [i] + refs)];
    FlatSnoc(parts, Words(colours, [i] + refs));
    forall k | 0 <= k < |ends'| ensures ends'[k] == |Flat(parts'[..k])| + |parts'[k]| {
      assert parts'[..k] == parts[..k];
      assert parts[..|parts|] == parts;
    }
  }

  method CountEdges(refs: seq<seq<nat>>) returns (edges: nat)
    ensures edges == Sum(Lengths(refs))
  {
    edges := 0;
    var i := |refs|;
    while i > 0
      invariant 0 <= i <= |refs|
      invariant edges == Sum(Lengths(refs)[i..])
    {
      i := i - 1;
      edges := edges + |refs[i]|;
      assert Lengths(refs)[i..][1..] == Lengths(refs)[i + 1..];
    }
    assert Lengths(refs)[0..] == Lengths(refs);
  }

  method FirstColours(base: seq<Text>, refs: seq<seq<nat>>) returns (colours: seq<nat>, distinct: nat)
    requires Component(base, refs)
    ensures colours == Iter(base, refs, 0) && distinct == Classes(base, refs, 0)
  {
    colours, distinct := Rank(base);
    RanksPartition(base);
  }

  /** One pass of the loop body: the next colours and their class count. */
  method RefineRound(base: seq<Text>, refs: seq<seq<nat>>, round: nat, colours: seq<nat>)
    returns (next: seq<nat>, distinct: nat)
    requires Component(base, refs) && colours == Iter(base, refs, round)
    ensures next == Iter(base, refs, round + 1) && distinct == Classes(base, refs, round + 1)
  {
    var sig := BuildSignatures(colours, refs);
    next, distinct := Rank(sig);
    RanksPartition(sig);
  }

  /** Equal colours, equally many references, equal colours of those. */
  ghost predicate SameView(colours: seq<nat>, refs: seq<seq<nat>>, i: nat, j: nat)
    requires RoundState(colours, refs) && i < |refs| && j < |refs|
  {
    && colours[i] == colours[j]
    && |refs[i]| == |refs[j]|
    && forall k :: 0 <= k < |refs[i]| ==> colours[refs[i][k]] == colours[refs[j][k]]
  }

  lemma PickView(colours: seq<nat>, i: nat, a: seq<nat>, j: nat, b: seq<nat>)
    requires i < |colours| && j < |colours|
    requires forall k :: 0 <= k < |a| ==> a[k] < |colours|
    requires forall k :: 0 <= k < |b| ==> b[k] < |colours|
    ensures Pick(colours, [i] + a) == Pick(colours, [j] + b) <==>
            colours[i] == colours[j] && |a| == |b| && forall k :: 0 <= k < |a| ==> colours[a[k]] == colours[b[k]]
  {
    var x, y := Pick(colours, [i] + a), Pick(colours, [j] + b);
    assert x == [colours[i]] + Pick(colours, a) && y == [colours[j]] + Pick(colours, b);
    if x == y {
      assert Pick(colours, a) == x[1..] == y[1..] == Pick(colours, b);
    }
  }

  /** Two members keep one colour exactly when they had one colour, have
      equally many references, and those agree position by position. */
  lemma NextExact(colours: seq<nat>, refs: seq<seq<nat>>, i: nat, j: nat)
    requires RoundState(colours, refs) && i < |refs| && j < |refs|
    ensures Next(colours, refs)[i] == Next(colours, refs)[j] <==> SameView(colours, refs, i, j)
  {
    hide Ranks, Words, Pick;
    RankExact(Signatures(colours, refs), i, j);
    WordsExact(colours, [i] + refs[i], colours, [j] + refs[j]);
    PickView(colours, i, refs[i], j, refs[j]);
  }

  /** Every class of the next round lies inside one class of this round. */
  lemma NextRefines(colours: seq<nat>, refs: seq<seq<nat>>)
    requires RoundState(colours, refs)
    ensures Refines(Next(colours, refs), colours)
  {
    var next := Next(colours, refs);
    forall i, j | 0 <= i < |next| && 0 <= j < |next| && next[i] == next[j] ensures colours[i] == colours[j] {
      NextExact(colours, refs, i, j);
    }
  }

  /** A round never merges classes. */
  lemma ClassesMonotone(base: seq<Text>, refs: seq<seq<nat>>, k: nat)
    requires Component(base, refs)
    ensures Classes(base, refs, k) <= Classes(base, refs, k + 1)
  {
    NextRefines(Iter(base, refs, k), refs);
    RefinesDistinct(Iter(base, refs, k + 1), Iter(base, refs, k));
  }

  lemma ClassesPositive(base: seq<Text>, refs: seq<seq<nat>>, k: nat)
    requires Component(base, refs) && base != []
    ensures 1 <= Classes(base, refs, k) <= |base|
  {
    DistinctAtMostLength(Iter(base, refs, k));
  }

  /** A round that did not settle split some class. */
  lemma {:induction false} ClassesGrow(base: seq<Text>, refs: seq<seq<nat>>, k: nat)
    requires Component(base, refs) && base != []
    requires UnsettledBefore(base, refs, k + 1)
    ensures Classes(base, refs, k) >= k + 1
  {
    hide Iter, Classes, Component;
    if k == 0 {
      ClassesPositive(base, refs, k);
    } else {
      ClassesGrow(base, refs, k - 1);
      ClassesMonotone(base, refs, k - 1);
      assert !Settled(base, refs, k);
    }
  }

  /** The refinement loop with its early exits and its two bounds. */
  method RefineLoop(base: seq<Text>, refs: seq<seq<nat>>, per: nat, component: nat, mod: nat)
    returns (r: Result<Refined>)
    requires Component(base, refs) && |base| > 1
    ensures BoundedSpec(base, refs, component, mod, r)
    ensures r.Ok? ==> r.value.work == Work(r.value.rounds, per)
  {
    hide Iter;
    var n := |base|;
    var colours, distinct := FirstColours(base, refs);
    var used := 0;
    for round := 0 to n
      invariant used == round <= component && round <= mod
      invariant colours == Iter(base, refs, round) && distinct == Classes(base, refs, round)
      invariant UnsettledBefore(base, refs, round)
      invariant round > 0 ==> distinct != Classes(base, refs, round - 1)
    {
      if distinct == n { break; }
      if round >= component { return Err(ComponentBudget); }
      if round >= mod { return Err(ModuleBudget); }
      used := round + 1;
      var nextDistinct;
      colours, nextDistinct := RefineRound(base, refs, round, colours);
      if nextDistinct == distinct {
        return Ok(Refined(colours, used, Work(used, per)));
      }
      distinct := nextDistinct;
    }
    if distinct != n {
      ClassesGrow(base, refs, n);
      ClassesPositive(base, refs, n);
    }
    r := Ok(Refined(colours, used, Work(used, per)));
  }

  method RefineColours(base: seq<Text>, refs: seq<seq<nat>>, remaining: nat) returns (r: Result<Refined>)
    requires Component(base, refs)
    ensures RefineSpec(base, refs, remaining, r)
  {
    if |base| <= 1 {
      return Ok(Refined(seq(|base|, _ => 0), 0, 0));
    }
    var edges := CountEdges(refs);
    var per := Max(|base| + edges, 1);
    r := RefineLoop(base, refs, per, ComponentRounds(per), ModuleRounds(remaining, per));
  }
}
